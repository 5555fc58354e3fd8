/**
 * The parts of Python's `str` the pipeline relies on, over `seq<char>`:
 * substring search (`in`), `split`, `join`, `strip`, `isdigit`, `int()`,
 * `lower()`, slicing prefixes, decimal formatting and code-point order.
 */
module Strings {
  import opened PyBase

  // ---------------------------------------------------------------- characters

  /** The characters `str.isspace()` accepts, i.e. those `str.strip()` removes. */
  predicate IsSpace(c: char) {
    ('\t' <= c <= '\r') || ('\U{1c}' <= c <= '\U{1f}') || c == ' '
    || c == '\U{85}' || c == '\U{a0}' || c == '\U{1680}'
    || ('\U{2000}' <= c <= '\U{200a}') || c == '\U{2028}' || c == '\U{2029}'
    || c == '\U{202f}' || c == '\U{205f}' || c == '\U{3000}'
  }

  predicate IsDigitChar(c: char) {
    '0' <= c <= '9'
  }

  predicate All(s: string, p: char -> bool) {
    forall k :: 0 <= k < |s| ==> p(s[k])
  }

  /** `str.lower()` for one character: Latin and Russian capitals. */
  function LowerChar(c: char): char {
    if 'A' <= c <= 'Z' || '\U{0410}' <= c <= '\U{042F}' then (c as int + 32) as char
    else if '\U{0400}' <= c <= '\U{040F}' then (c as int + 80) as char
    else c
  }

  function Lower(s: string): (r: string)
    ensures |r| == |s|
    ensures forall k :: 0 <= k < |s| ==> r[k] == LowerChar(s[k])
  {
    seq(|s|, k requires 0 <= k < |s| => LowerChar(s[k]))
  }

  lemma AllSlice(s: string, p: char -> bool, i: nat, j: nat)
    requires i <= j <= |s| && All(s, p)
    ensures All(s[i..j], p)
  {
    assert forall k :: 0 <= k < j - i ==> s[i..j][k] == s[i + k];
  }

  // ---------------------------------------------------------------- slicing

  /** Python's `s[:n]` for a non-negative `n`. */
  function Prefix(s: string, n: nat): (r: string)
    ensures |r| == if n <= |s| then n else |s|
    ensures r <= s
  {
    if n <= |s| then s[..n] else s
  }

  predicate StartsWith(s: string, p: string) {
    p <= s
  }

  /** `str.removeprefix(p)`. */
  function RemovePrefix(s: string, p: string): (r: string)
    ensures StartsWith(s, p) ==> p + r == s
    ensures !StartsWith(s, p) ==> r == s
  {
    if StartsWith(s, p) then s[|p|..] else s
  }

  lemma LowerPrefix(s: string, n: nat)
    ensures Lower(Prefix(s, n)) == Prefix(Lower(s), n)
  {
  }

  // ---------------------------------------------------------------- search

  predicate OccursAt(s: string, sub: string, i: nat) {
    i + |sub| <= |s| && s[i..i + |sub|] == sub
  }

  lemma OccursShift(s: string, sub: string)
    requires |s| > 0
    ensures forall j: nat :: j >= 1 ==> (OccursAt(s, sub, j) <==> OccursAt(s[1..], sub, j - 1))
  {
    forall j: nat | j >= 1 ensures OccursAt(s, sub, j) <==> OccursAt(s[1..], sub, j - 1) {
      if j + |sub| <= |s| {
        assert s[1..][j - 1..j - 1 + |sub|] == s[j..j + |sub|];
      }
    }
  }

  /** Leftmost index at which `sub` occurs in `s`, as `str.find` computes it. */
  function Find(s: string, sub: string): (r: Option<nat>)
    ensures r.Some? ==> OccursAt(s, sub, r.value)
    ensures r.Some? ==> forall j: nat :: j < r.value ==> !OccursAt(s, sub, j)
    ensures r.None? ==> forall j: nat :: !OccursAt(s, sub, j)
    decreases |s|
  {
    if |s| < |sub| then None
    else if s[..|sub|] == sub then Some(0)
    else
      OccursShift(s, sub);
      match Find(s[1..], sub)
      case None => None
      case Some(i) => Some(i + 1)
  }

  /** Python's `sub in s`. */
  predicate Contains(s: string, sub: string) {
    Find(s, sub).Some?
  }

  lemma OccursInPrefix(s: string, sub: string, i: nat, j: nat)
    requires i <= |s|
    requires OccursAt(s[..i], sub, j)
    ensures OccursAt(s, sub, j)
  {
    assert s[..i][j..j + |sub|] == s[j..j + |sub|];
  }

  /** A string in which the first character of `sub` never appears does not contain `sub`. */
  lemma NoFirstCharNoContains(s: string, sub: string)
    requires sub != []
    requires sub[0] !in s
    ensures !Contains(s, sub)
  {
    forall j: nat | j + |sub| <= |s| ensures !OccursAt(s, sub, j) {
      assert s[j..j + |sub|][0] == s[j];
      assert s[j] in s;
    }
  }

  /** A string lacking some character of `sub` does not contain `sub`. */
  lemma NoCharNoContains(s: string, sub: string, k: nat)
    requires k < |sub|
    requires sub[k] !in s
    ensures !Contains(s, sub)
  {
    forall j: nat | j + |sub| <= |s| ensures !OccursAt(s, sub, j) {
      assert s[j..j + |sub|][k] == s[j + k];
      assert s[j + k] in s;
    }
  }

  // ---------------------------------------------------------------- split / join

  /** `sep.join(parts)`. */
  function Join(parts: seq<string>, sep: string): string {
    if parts == [] then ""
    else if |parts| == 1 then parts[0]
    else parts[0] + sep + Join(parts[1..], sep)
  }

  lemma JoinTwo(a: string, b: string, sep: string)
    ensures Join([a, b], sep) == a + sep + b
  {
    assert [a, b][1..] == [b];
  }

  lemma JoinThree(a: string, b: string, c: string, sep: string)
    ensures Join([a, b, c], sep) == a + sep + b + sep + c
  {
    assert [a, b, c][1..] == [b, c];
    JoinTwo(b, c, sep);
  }

  lemma JoinFour(a: string, b: string, c: string, d: string, sep: string)
    ensures Join([a, b, c, d], sep) == a + sep + b + sep + c + sep + d
  {
    assert [a, b, c, d][1..] == [b, c, d];
    JoinThree(b, c, d, sep);
  }

  /** A character in neither the pieces nor the separator is not in their join. */
  lemma {:induction false} JoinAvoids(parts: seq<string>, sep: string, c: char)
    requires forall k :: 0 <= k < |parts| ==> c !in parts[k]
    requires c !in sep
    ensures c !in Join(parts, sep)
  {
    if |parts| > 1 {
      JoinAvoids(parts[1..], sep, c);
    }
  }

  /**
   * `s.split(sep)` for a non-empty separator: cut at every occurrence found
   * scanning left to right without overlap.
   */
  function Split(s: string, sep: string): (parts: seq<string>)
    requires sep != []
    ensures |parts| >= 1
    ensures Find(s, sep).None? ==> parts == [s]
    decreases |s|
  {
    match Find(s, sep)
    case None => [s]
    case Some(i) => [s[..i]] + Split(s[i + |sep|..], sep)
  }

  /**
   * Joining the pieces of a split gives the string back, no piece contains
   * the separator, and there is more than one piece exactly when the
   * separator occurs.
   */
  lemma SplitSpec(s: string, sep: string)
    requires sep != []
    ensures Join(Split(s, sep), sep) == s
    ensures forall k :: 0 <= k < |Split(s, sep)| ==> !Contains(Split(s, sep)[k], sep)
    ensures |Split(s, sep)| == 1 <==> !Contains(s, sep)
  {
    SplitJoinBack(s, sep);
    SplitClean(s, sep);
  }

  lemma {:induction false} SplitJoinBack(s: string, sep: string)
    requires sep != []
    ensures Join(Split(s, sep), sep) == s
    decreases |s|
  {
    match Find(s, sep)
    case None =>
    case Some(i) =>
      var rest := s[i + |sep|..];
      SplitJoinBack(rest, sep);
      JoinCons(s[..i], Split(rest, sep), sep);
      assert s[i..i + |sep|] == sep;
      CutThree(s, i, i + |sep|);
  }

  lemma CutThree(s: string, i: nat, j: nat)
    requires i <= j <= |s|
    ensures s == s[..i] + s[i..j] + s[j..]
  {
  }

  lemma JoinCons(head: string, tail: seq<string>, sep: string)
    requires |tail| >= 1
    ensures Join([head] + tail, sep) == head + sep + Join(tail, sep)
  {
    assert ([head] + tail)[1..] == tail;
  }

  /** The text before the leftmost occurrence does not hold the separator. */
  lemma BeforeFind(s: string, sep: string, i: nat)
    requires sep != [] && Find(s, sep) == Some(i)
    ensures !Contains(s[..i], sep)
  {
    assert OccursAt(s, sep, i);
    forall j: nat ensures !OccursAt(s[..i], sep, j) {
      if j + |sep| <= i {
        assert j < i;
        assert !OccursAt(s, sep, j);
        assert s[..i][j..j + |sep|] == s[j..j + |sep|];
      }
    }
  }

  lemma {:induction false} SplitClean(s: string, sep: string)
    requires sep != []
    ensures forall k :: 0 <= k < |Split(s, sep)| ==> !Contains(Split(s, sep)[k], sep)
    ensures |Split(s, sep)| == 1 <==> !Contains(s, sep)
    decreases |s|
  {
    match Find(s, sep)
    case None =>
    case Some(i) =>
      var rest := s[i + |sep|..];
      var parts := Split(s, sep);
      assert parts == [s[..i]] + Split(rest, sep);
      SplitClean(rest, sep);
      BeforeFind(s, sep, i);
      forall k | 0 < k < |parts| ensures !Contains(parts[k], sep) {
        assert parts[k] == Split(rest, sep)[k - 1];
      }
      assert Contains(s, sep);
  }

  /**
   * Splitting a join gives the pieces back when no piece holds the first
   * character of the separator (true of `", "` and names without commas,
   * and of `" "` and tokens without spaces).
   */
  lemma {:induction false} SplitJoin(parts: seq<string>, sep: string)
    requires sep != [] && |parts| >= 1
    requires forall k :: 0 <= k < |parts| ==> sep[0] !in parts[k]
    ensures Split(Join(parts, sep), sep) == parts
  {
    if |parts| == 1 {
      NoFirstCharNoContains(parts[0], sep);
    } else {
      var p := parts[0];
      var rest := Join(parts[1..], sep);
      var s := p + sep + rest;
      assert s == Join(parts, sep);
      assert OccursAt(s, sep, |p|) by {
        assert s[|p|..|p| + |sep|] == sep;
      }
      forall j: nat | j < |p| ensures !OccursAt(s, sep, j) {
        assert s[j..j + |sep|][0] == s[j] == p[j];
        assert p[j] in p;
      }
      var i := Find(s, sep).value;
      assert i == |p|;
      assert s[..i] == p;
      assert s[i + |sep|..] == rest;
      SplitJoin(parts[1..], sep);
      assert parts == [p] + parts[1..];
    }
  }

  /** `s.split(sep, maxsplit=1)`. */
  function SplitOnce(s: string, sep: string): (parts: seq<string>)
    requires sep != []
    ensures |parts| == 1 || |parts| == 2
    ensures |parts| == 1 <==> !Contains(s, sep)
    ensures |parts| == 1 ==> parts[0] == s
    ensures |parts| == 2 ==> parts[0] + sep + parts[1] == s && !Contains(parts[0], sep)
  {
    match Find(s, sep)
    case None => [s]
    case Some(i) =>
      assert !Contains(s[..i], sep) by {
        if Contains(s[..i], sep) {
          OccursInPrefix(s, sep, i, Find(s[..i], sep).value);
        }
      }
      assert s == s[..i] + sep + s[i + |sep|..];
      [s[..i], s[i + |sep|..]]
  }

  // ---------------------------------------------------------------- strip

  /** Number of leading characters of `s` that `drop` accepts. */
  function LeadCount(s: string, drop: char -> bool): (n: nat)
    ensures n <= |s|
    ensures forall k :: 0 <= k < n ==> drop(s[k])
    ensures n < |s| ==> !drop(s[n])
  {
    if s == [] || !drop(s[0]) then 0 else 1 + LeadCount(s[1..], drop)
  }

  /** Number of trailing characters of `s` that `drop` accepts. */
  function TrailCount(s: string, drop: char -> bool): (n: nat)
    ensures n <= |s|
    ensures forall k :: |s| - n <= k < |s| ==> drop(s[k])
    ensures n < |s| ==> !drop(s[|s| - 1 - n])
  {
    if s == [] || !drop(s[|s| - 1]) then 0 else 1 + TrailCount(s[..|s| - 1], drop)
  }

  /** `r` is `s` with a run of dropped characters cut from each end. */
  ghost predicate Trimmed(s: string, r: string, drop: char -> bool) {
    exists i, j :: 0 <= i <= j <= |s| && r == s[i..j] && All(s[..i], drop) && All(s[j..], drop)
  }

  /** `str.strip(chars)` with the set of stripped characters given by `drop`. */
  function StripBy(s: string, drop: char -> bool): string {
    var i := LeadCount(s, drop);
    var t := s[i..];
    t[..|t| - TrailCount(t, drop)]
  }

  /** Stripping cuts a run of dropped characters from each end and leaves no dropped character at either end. */
  lemma StripBySpec(s: string, drop: char -> bool)
    ensures var r := StripBy(s, drop);
      && (r == [] || (!drop(r[0]) && !drop(r[|r| - 1])))
      && Trimmed(s, r, drop)
  {
    var i := LeadCount(s, drop);
    var t := s[i..];
    var n := TrailCount(t, drop);
    var j := i + |t| - n;
    assert t[..|t| - n] == s[i..j];
    assert All(s[j..], drop) by {
      forall k | 0 <= k < |s| - j ensures drop(s[j..][k]) {
        assert s[j..][k] == t[|t| - n + k];
      }
    }
  }

  /** `str.strip()`: whitespace removed from both ends. */
  function Strip(s: string): string {
    StripBy(s, IsSpace)
  }

  lemma StripSpec(s: string)
    ensures var r := Strip(s);
      && (r == [] || (!IsSpace(r[0]) && !IsSpace(r[|r| - 1])))
      && Trimmed(s, r, IsSpace)
  {
    StripBySpec(s, IsSpace);
  }

  /** Membership in `chars`, as the test `strip(chars)` applies. */
  function Among(chars: string): char -> bool {
    c => c in chars
  }

  /** `str.strip(chars)`: any character of `chars` removed from both ends. */
  function StripChars(s: string, chars: string): (r: string)
    ensures r == [] || (r[0] !in chars && r[|r| - 1] !in chars)
    ensures Trimmed(s, r, Among(chars))
  {
    StripBySpec(s, Among(chars));
    StripBy(s, Among(chars))
  }

  /** Where a trim cut: everything before `i` and from `j` on is dropped. */
  lemma TrimmedCut(s: string, r: string, drop: char -> bool) returns (i: nat, j: nat)
    requires Trimmed(s, r, drop)
    ensures i <= j <= |s| && r == s[i..j]
    ensures forall k :: 0 <= k < i ==> drop(s[k])
    ensures forall k :: j <= k < |s| ==> drop(s[k])
  {
    i, j :| 0 <= i <= j <= |s| && r == s[i..j] && All(s[..i], drop) && All(s[j..], drop);
    assert forall k :: 0 <= k < i ==> s[k] == s[..i][k];
    assert forall k :: j <= k < |s| ==> s[k] == s[j..][k - j];
  }

  /** Where `strip(chars)` cut: everything before `i` and from `j` on is in `chars`. */
  lemma StripCharsCut(s: string, chars: string) returns (i: nat, j: nat)
    ensures i <= j <= |s| && StripChars(s, chars) == s[i..j]
    ensures forall k :: 0 <= k < i ==> s[k] in chars
    ensures forall k :: j <= k < |s| ==> s[k] in chars
  {
    i, j := TrimmedCut(s, StripChars(s, chars), Among(chars));
  }

  /** A run of `chars` in front of a text that starts and ends outside `chars` is all `strip(chars)` removes. */
  lemma StripCharsPrefix(pre: string, body: string, chars: string)
    requires forall k :: 0 <= k < |pre| ==> pre[k] in chars
    requires |body| > 0 && body[0] !in chars && body[|body| - 1] !in chars
    ensures StripChars(pre + body, chars) == body
  {
    var s := pre + body;
    var r := StripChars(s, chars);
    var i, j := StripCharsCut(s, chars);
    assert s[|pre|] == body[0];
    assert s[|s| - 1] == body[|body| - 1];
    assert forall k :: 0 <= k < |pre| ==> s[k] == pre[k];
    assert r[0] == s[i];
    assert s[|pre|..] == body;
  }

  /** Text made only of `chars` strips to nothing. */
  lemma StripCharsAll(s: string, chars: string)
    requires forall k :: 0 <= k < |s| ==> s[k] in chars
    ensures StripChars(s, chars) == []
  {
    var i, j := StripCharsCut(s, chars);
  }

  /** A string neither of whose end characters is dropped strips to itself. */
  lemma StripByFixed(s: string, drop: char -> bool)
    requires s == [] || (!drop(s[0]) && !drop(s[|s| - 1]))
    ensures StripBy(s, drop) == s
  {
  }

  // ---------------------------------------------------------------- digits

  /** `str.isdigit()` restricted to ASCII digits. */
  predicate IsDigits(s: string) {
    |s| > 0 && All(s, IsDigitChar)
  }

  function DigitValue(c: char): nat
    requires IsDigitChar(c)
  {
    c as int - '0' as int
  }

  function DigitChar(d: nat): (c: char)
    requires d < 10
    ensures IsDigitChar(c) && DigitValue(c) == d
  {
    ('0' as int + d) as char
  }

  /** The number a string of decimal digits denotes (leading zeros allowed). */
  function DigitsValue(s: string): nat
    requires All(s, IsDigitChar)
  {
    if s == [] then 0 else DigitsValue(s[..|s| - 1]) * 10 + DigitValue(s[|s| - 1])
  }

  function Pow10(n: nat): (p: nat)
    ensures p >= 1
  {
    if n == 0 then 1 else 10 * Pow10(n - 1)
  }

  lemma {:induction false} Pow10Monotone(a: nat, b: nat)
    requires a <= b
    ensures Pow10(a) <= Pow10(b)
  {
    if a < b {
      Pow10Monotone(a, b - 1);
    }
  }

  lemma {:induction false} DigitsValueBound(s: string)
    requires All(s, IsDigitChar)
    ensures DigitsValue(s) < Pow10(|s|)
  {
    if s != [] {
      DigitsValueBound(s[..|s| - 1]);
    }
  }

  lemma {:induction false} DigitsValueAppend(a: string, b: string)
    requires All(a, IsDigitChar) && All(b, IsDigitChar)
    ensures All(a + b, IsDigitChar)
    ensures DigitsValue(a + b) == DigitsValue(a) * Pow10(|b|) + DigitsValue(b)
    decreases |b|
  {
    if b == [] {
      assert a + b == a;
    } else {
      var b' := b[..|b| - 1];
      assert (a + b)[..|a + b| - 1] == a + b';
      DigitsValueAppend(a, b');
      var c := DigitValue(b[|b| - 1]);
      assert DigitsValue(a + b) == DigitsValue(a + b') * 10 + c;
      assert DigitsValue(b) == DigitsValue(b') * 10 + c;
      ShiftArith(DigitsValue(a), Pow10(|b'|), DigitsValue(b'), c);
    }
  }

  lemma ShiftArith(x: int, p: int, y: int, c: int)
    ensures (x * p + y) * 10 + c == x * (p * 10) + (y * 10 + c)
  {
  }

  /** `n` written with exactly `w` digits, zero-padded (`%0wd`), the low digits kept. */
  function PadN(n: nat, w: nat): (r: string)
    ensures |r| == w && All(r, IsDigitChar)
  {
    if w == 0 then "" else PadN(n / 10, w - 1) + [DigitChar(n % 10)]
  }

  /** Decoding a zero-padded number gives the number back. */
  lemma {:induction false} PadNValue(n: nat, w: nat)
    requires n < Pow10(w)
    ensures DigitsValue(PadN(n, w)) == n
  {
    if w > 0 {
      PadNValue(n / 10, w - 1);
      var r := PadN(n, w);
      assert r[..|r| - 1] == PadN(n / 10, w - 1);
    }
  }

  /** Re-encoding a decoded digit string at its own width gives the string back. */
  lemma {:induction false} PadNOfDigits(s: string)
    requires All(s, IsDigitChar)
    ensures PadN(DigitsValue(s), |s|) == s
  {
    if s != [] {
      var init := s[..|s| - 1];
      var v := DigitsValue(s);
      assert v / 10 == DigitsValue(init) && v % 10 == DigitValue(s[|s| - 1]);
      PadNOfDigits(init);
      assert s == init + [s[|s| - 1]];
    }
  }

  /** Number of decimal digits of `n`. */
  function NumDigits(n: nat): (w: nat)
    ensures w >= 1 && n < Pow10(w)
    ensures w > 1 ==> Pow10(w - 1) <= n
  {
    if n < 10 then 1 else 1 + NumDigits(n / 10)
  }

  /** `str(n)` for a natural number. */
  function NatToDecimal(n: nat): (r: string)
    ensures IsDigits(r) && DigitsValue(r) == n
  {
    PadNValue(n, NumDigits(n));
    PadN(n, NumDigits(n))
  }

  lemma FourDigitYear(n: nat)
    requires 1000 <= n <= 9999
    ensures NatToDecimal(n) == PadN(n, 4)
  {
    var w := NumDigits(n);
    if w < 4 {
      Pow10Monotone(w, 3);
    } else if w > 4 {
      Pow10Monotone(4, w - 1);
    }
  }

  /** `str(i)` / `"{}".format(i)` for an integer. */
  function IntToDecimal(i: int): string {
    if i < 0 then "-" + NatToDecimal(-i) else NatToDecimal(i)
  }

  // ---------------------------------------------------------------- int()

  predicate IsDigitOrUnderscore(c: char) {
    IsDigitChar(c) || c == '_'
  }

  /** Digits with single underscores between them, as `int()` accepts. */
  predicate IsDigitGroups(s: string) {
    && |s| > 0 && IsDigitChar(s[0]) && IsDigitChar(s[|s| - 1])
    && All(s, IsDigitOrUnderscore)
    && forall k :: 0 <= k < |s| - 1 ==> DigitAfterUnderscore(s, k)
  }

  predicate DigitAfterUnderscore(s: string, k: nat)
    requires k + 1 < |s|
  {
    s[k] == '_' ==> IsDigitChar(s[k + 1])
  }

  function RemoveUnderscores(s: string): (r: string)
    requires All(s, IsDigitOrUnderscore)
    ensures All(r, IsDigitChar)
    ensures All(s, IsDigitChar) ==> r == s
  {
    if s == [] then ""
    else if s[0] == '_' then RemoveUnderscores(s[1..])
    else [s[0]] + RemoveUnderscores(s[1..])
  }

  /**
   * Python's `int(s)` for a base-10 string: surrounding whitespace, one
   * optional sign, then digits possibly grouped by single underscores.
   * Anything else raises ValueError.
   */
  function PyInt(s: string): (r: Result<int>)
  {
    var t := Strip(s);
    var signed := |t| > 0 && (t[0] == '+' || t[0] == '-');
    var body := if signed then t[1..] else t;
    if IsDigitGroups(body) then
      var v: int := DigitsValue(RemoveUnderscores(body));
      Ok(if signed && t[0] == '-' then -v else v)
    else Err(ValueError)
  }

  lemma DigitsAreGroups(s: string)
    requires IsDigits(s)
    ensures IsDigitGroups(s)
    ensures RemoveUnderscores(s) == s
  {
  }

  /** `int()` of an all-digit string is its decimal value. */
  lemma PyIntOfDigits(s: string)
    requires IsDigits(s)
    ensures PyInt(s) == Ok(DigitsValue(s))
  {
    StripByFixed(s, IsSpace);
    DigitsAreGroups(s);
  }

  /** `int(str(i)) == i` for a non-negative `i`. */
  lemma PyIntOfDecimal(i: int)
    requires i >= 0
    ensures PyInt(IntToDecimal(i)) == Ok(i)
  {
    PyIntOfDigits(NatToDecimal(i));
  }

  /** A string holding no digit is rejected by `int()`. */
  lemma PyIntNeedsDigit(s: string)
    requires forall k :: 0 <= k < |s| ==> !IsDigitChar(s[k])
    ensures PyInt(s) == Err(ValueError)
  {
    var t := Strip(s);
    StripSpec(s);
    var i, j :| 0 <= i <= j <= |s| && t == s[i..j] && All(s[..i], IsSpace) && All(s[j..], IsSpace);
    if |t| > 1 {
      assert t[1] == s[i + 1];
    }
    if |t| > 0 {
      assert t[0] == s[i];
    }
  }

  // ---------------------------------------------------------------- order

  /** Python's `<` on strings: lexicographic by code point. */
  predicate StrLess(a: string, b: string)
    decreases |a|
  {
    if a == [] then b != []
    else if b == [] then false
    else if a[0] != b[0] then a[0] < b[0]
    else StrLess(a[1..], b[1..])
  }

  lemma {:induction false} StrLessIrreflexive(a: string)
    ensures !StrLess(a, a)
    decreases |a|
  {
    if a != [] {
      StrLessIrreflexive(a[1..]);
    }
  }

  lemma {:induction false} StrLessTransitive(a: string, b: string, c: string)
    requires StrLess(a, b) && StrLess(b, c)
    ensures StrLess(a, c)
    decreases |a|
  {
    if a != [] && b != [] && c != [] && a[0] == b[0] && b[0] == c[0] {
      StrLessTransitive(a[1..], b[1..], c[1..]);
    }
  }

  lemma {:induction false} StrLessTotal(a: string, b: string)
    ensures a == b || StrLess(a, b) || StrLess(b, a)
    decreases |a|
  {
    if a != [] && b != [] && a[0] == b[0] {
      StrLessTotal(a[1..], b[1..]);
      if a[1..] == b[1..] {
        assert a == [a[0]] + a[1..] && b == [b[0]] + b[1..];
      }
    }
  }
}
