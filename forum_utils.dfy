/**
 * The forum pipeline's normalisers: Wayback Machine timestamps, Russian
 * forum date phrases read against a reference "today", the month table,
 * and the query-string splitter.
 *
 * `strptime` is modelled as fixed-width digit decoding followed by the
 * `datetime` constructor's checks; `strftime("%Y")` writes the year without
 * padding, as the C library on Linux does.
 */
module ForumUtils {
  import opened PyBase
  import opened Strings
  import opened Calendar
  import opened PyDicts

  /** The id given to a reply or head whose id cannot be read. */
  const DEFAULT_ID := -1

  /** `(obj or "").strip()` */
  function SafeStrip(obj: Option<string>): (r: string)
    ensures obj.None? ==> r == ""
    ensures obj.Some? ==> Trimmed(obj.value, r, IsSpace)
    ensures r == [] || (!IsSpace(r[0]) && !IsSpace(r[|r| - 1]))
  {
    StripSpec(obj.GetOr(""));
    Strip(obj.GetOr(""))
  }

  /** `int(obj) if obj.isdigit() else None` */
  function SafeInt(obj: string): (r: Option<int>)
    ensures r.Some? <==> IsDigits(obj)
    ensures r.Some? ==> r.value == DigitsValue(obj) && PyInt(obj) == Ok(r.value)
  {
    if IsDigits(obj) then
      PyIntOfDigits(obj);
      Some(PyInt(obj).value)
    else None
  }

  /** `x or default` for an optional count: `None` and `0` both give the default. */
  function OrDefault(x: Option<int>, default: int): (r: int)
    ensures r == default || (x.Some? && x.value == r && r != 0)
    ensures x.Some? && x.value != 0 ==> r == x.value
  {
    if x.Some? && x.value != 0 then x.value else default
  }

  // ---------------------------------------------------------------- Wayback timestamps

  /** `date.strftime("%Y%m%d")`, the day a Wayback query names. */
  function ToWebarchiveDate(d: DateTime): (r: string)
    requires Valid(d)
  {
    IntToDecimal(d.year) + PadN(d.month, 2) + PadN(d.day, 2)
  }

  /** Digits `s[i..i + w]` read as a number. */
  function Field(s: string, i: nat, w: nat): nat
    requires i + w <= |s| && All(s[i..i + w], IsDigitChar)
  {
    DigitsValue(s[i..i + w])
  }

  /** `datetime.strptime(timestamp, "%Y%m%d%H%M%S")` */
  function ConvertSnapshotTimestamp(timestamp: string): (r: Result<DateTime>)
    ensures r.Ok? ==> Valid(r.value) && r.value.microsecond == 0
    ensures r.Ok? ==> |timestamp| == 14 && All(timestamp, IsDigitChar)
    ensures r.Err? ==> r.error == ValueError
  {
    if |timestamp| == 14 && All(timestamp, IsDigitChar) then
      var s := timestamp;
      NewDateTime(Field(s, 0, 4), Field(s, 4, 2), Field(s, 6, 2),
                  Field(s, 8, 2), Field(s, 10, 2), Field(s, 12, 2), 0)
    else Err(ValueError)
  }

  /** The Wayback form of a time: `strftime("%Y%m%d%H%M%S")` with a four-digit year. */
  function FormatSnapshotTimestamp(d: DateTime): (r: string)
    requires Valid(d)
    ensures |r| == 14
  {
    PadN(d.year, 4) + PadN(d.month, 2) + PadN(d.day, 2)
    + PadN(d.hour, 2) + PadN(d.minute, 2) + PadN(d.second, 2)
  }

  lemma SnapshotFields(d: DateTime)
    requires Valid(d)
    ensures var s := FormatSnapshotTimestamp(d);
      && s[0..4] == PadN(d.year, 4) && s[4..6] == PadN(d.month, 2) && s[6..8] == PadN(d.day, 2)
      && s[8..10] == PadN(d.hour, 2) && s[10..12] == PadN(d.minute, 2) && s[12..14] == PadN(d.second, 2)
  {
  }

  /** Decoding a formatted time gives it back (to the second). */
  lemma {:induction false} SnapshotRoundTrip(d: DateTime)
    requires Valid(d) && d.microsecond == 0
    ensures ConvertSnapshotTimestamp(FormatSnapshotTimestamp(d)) == Ok(d)
  {
    var s := FormatSnapshotTimestamp(d);
    SnapshotFields(d);
    assert All(s, IsDigitChar) by {
      forall k | 0 <= k < 14 ensures IsDigitChar(s[k]) {
        if k < 4 { assert s[k] == s[0..4][k]; }
        else if k < 6 { assert s[k] == s[4..6][k - 4]; }
        else if k < 8 { assert s[k] == s[6..8][k - 6]; }
        else if k < 10 { assert s[k] == s[8..10][k - 8]; }
        else if k < 12 { assert s[k] == s[10..12][k - 10]; }
        else { assert s[k] == s[12..14][k - 12]; }
      }
    }
    PaddedFields(d);
  }

  /** Every accepted timestamp is the formatting of the time it decodes to. */
  lemma {:induction false} SnapshotCanonical(timestamp: string)
    requires ConvertSnapshotTimestamp(timestamp).Ok?
    ensures FormatSnapshotTimestamp(ConvertSnapshotTimestamp(timestamp).value) == timestamp
  {
    var s := timestamp;
    var d := ConvertSnapshotTimestamp(s).value;
    var f := FormatSnapshotTimestamp(d);
    SnapshotFields(d);
    SlicePadded(s, 0, 4, d.year);
    SlicePadded(s, 4, 2, d.month);
    SlicePadded(s, 6, 2, d.day);
    SlicePadded(s, 8, 2, d.hour);
    SlicePadded(s, 10, 2, d.minute);
    SlicePadded(s, 12, 2, d.second);
    forall k | 0 <= k < 14 ensures f[k] == s[k] {
      if k < 4 { assert f[k] == f[0..4][k] && s[k] == s[0..4][k]; }
      else if k < 6 { assert f[k] == f[4..6][k - 4] && s[k] == s[4..6][k - 4]; }
      else if k < 8 { assert f[k] == f[6..8][k - 6] && s[k] == s[6..8][k - 6]; }
      else if k < 10 { assert f[k] == f[8..10][k - 8] && s[k] == s[8..10][k - 8]; }
      else if k < 12 { assert f[k] == f[10..12][k - 10] && s[k] == s[10..12][k - 10]; }
      else { assert f[k] == f[12..14][k - 12] && s[k] == s[12..14][k - 12]; }
    }
  }

  /** A digit field re-encoded at its own width is the field. */
  lemma SlicePadded(s: string, i: nat, w: nat, v: int)
    requires i + w <= |s| && All(s, IsDigitChar) && v == Field(s, i, w)
    ensures PadN(v, w) == s[i..i + w]
  {
    AllSlice(s, IsDigitChar, i, i + w);
    PadNOfDigits(s[i..i + w]);
  }

  /** A Wayback query day, padded to a full timestamp at midnight, decodes to that day. */
  lemma {:induction false} WebarchiveDateRoundTrip(d: DateTime)
    requires Valid(d) && d.year >= 1000
    ensures ConvertSnapshotTimestamp(ToWebarchiveDate(d) + "000000") == Ok(Midnight(d))
  {
    FourDigitYear(d.year);
    var m := Midnight(d);
    SnapshotRoundTrip(m);
    assert PadN(0, 2) == "00";
    assert ToWebarchiveDate(d) + "000000" == FormatSnapshotTimestamp(m);
  }

  /** `(timestamp + "000")` read with `"%Y-%m-%d %H:%M:%S.%f"`. */
  function ConvertHeadTimestamp(timestamp: string): (r: Result<DateTime>)
    ensures r.Ok? ==> Valid(r.value)
    ensures r.Err? ==> r.error == ValueError
  {
    ParseHeadFormat(timestamp + "000")
  }

  /** The fixed layout `YYYY-MM-DD HH:MM:SS.` followed by one to six fraction digits. */
  predicate HeadLayout(s: string) {
    && |s| >= 21 && |s| <= 26
    && s[4] == '-' && s[7] == '-' && s[10] == ' ' && s[13] == ':' && s[16] == ':' && s[19] == '.'
    && All(s[0..4], IsDigitChar) && All(s[5..7], IsDigitChar) && All(s[8..10], IsDigitChar)
    && All(s[11..13], IsDigitChar) && All(s[14..16], IsDigitChar) && All(s[17..19], IsDigitChar)
    && All(s[20..], IsDigitChar)
  }

  /** `%f`: a fraction of one to six digits, right-padded to microseconds. */
  function Microseconds(frac: string): nat
    requires 1 <= |frac| <= 6 && All(frac, IsDigitChar)
  {
    DigitsValue(frac) * Pow10(6 - |frac|)
  }

  function ParseHeadFormat(s: string): (r: Result<DateTime>)
    ensures r.Ok? ==> Valid(r.value)
    ensures r.Err? ==> r.error == ValueError
  {
    if HeadLayout(s) then
      NewDateTime(Field(s, 0, 4), Field(s, 5, 2), Field(s, 8, 2),
                  Field(s, 11, 2), Field(s, 14, 2), Field(s, 17, 2), Microseconds(s[20..]))
    else Err(ValueError)
  }

  /** A head timestamp carries milliseconds at most: the appended zeros fill the microseconds. */
  lemma HeadTimestampMillis(timestamp: string)
    requires ConvertHeadTimestamp(timestamp).Ok?
    ensures ConvertHeadTimestamp(timestamp).value.microsecond % 1000 == 0
  {
    var s := timestamp + "000";
    assert forall i :: |timestamp| <= i < |s| ==> s[i] == '0';
    assert s[19] == '.';
    var orig := timestamp[20..];
    assert s[20..] == orig + "000";
    assert All(orig, IsDigitChar) by {
      forall k | 0 <= k < |orig| ensures IsDigitChar(orig[k]) {
        assert orig[k] == s[20..][k];
      }
    }
    FractionMillis(orig);
  }

  /** Up to three fraction digits padded with three zeros make a multiple of 1000 microseconds. */
  lemma FractionMillis(frac: string)
    requires |frac| <= 3 && All(frac, IsDigitChar)
    ensures All(frac + "000", IsDigitChar)
    ensures Microseconds(frac + "000") % 1000 == 0
  {
    ThreeZeros();
    DigitsValueAppend(frac, "000");
    assert Pow10(3) == 1000;
    var k := DigitsValue(frac) * Pow10(3 - |frac|);
    assert Microseconds(frac + "000") == k * 1000;
  }

  lemma ThreeZeros()
    ensures All("000", IsDigitChar) && DigitsValue("000") == 0 && |"000"| == 3
  {
    assert PadN(0, 3) == "000";
    PadNValue(0, 3);
  }

  /** The head layout with the milliseconds written out, as the forum's `<time datetime>` holds it. */
  function FormatHeadTimestamp(d: DateTime): (r: string)
    requires Valid(d)
  {
    PadN(d.year, 4) + "-" + PadN(d.month, 2) + "-" + PadN(d.day, 2) + " "
    + PadN(d.hour, 2) + ":" + PadN(d.minute, 2) + ":" + PadN(d.second, 2) + "."
    + PadN(d.microsecond / 1000, 3)
  }

  /** The head layout assembled from its fields. */
  function HeadText(y: string, mo: string, dd: string, h: string, mi: string, se: string,
                    frac: string): string
  {
    y + "-" + mo + "-" + dd + " " + h + ":" + mi + ":" + se + "." + frac
  }

  lemma HeadTextFields(y: string, mo: string, dd: string, h: string, mi: string, se: string,
                       frac: string)
    requires |y| == 4 && |mo| == 2 && |dd| == 2 && |h| == 2 && |mi| == 2 && |se| == 2
    requires 1 <= |frac| <= 6
    requires All(y, IsDigitChar) && All(mo, IsDigitChar) && All(dd, IsDigitChar)
    requires All(h, IsDigitChar) && All(mi, IsDigitChar) && All(se, IsDigitChar)
    requires All(frac, IsDigitChar)
    ensures var s := HeadText(y, mo, dd, h, mi, se, frac);
      && HeadLayout(s)
      && s[0..4] == y && s[5..7] == mo && s[8..10] == dd
      && s[11..13] == h && s[14..16] == mi && s[17..19] == se && s[20..] == frac
  {
  }

  /** The head layout reads each field back from its place. */
  lemma ParseHeadText(y: string, mo: string, dd: string, h: string, mi: string, se: string,
                      frac: string)
    requires |y| == 4 && |mo| == 2 && |dd| == 2 && |h| == 2 && |mi| == 2 && |se| == 2
    requires 1 <= |frac| <= 6
    requires All(y, IsDigitChar) && All(mo, IsDigitChar) && All(dd, IsDigitChar)
    requires All(h, IsDigitChar) && All(mi, IsDigitChar) && All(se, IsDigitChar)
    requires All(frac, IsDigitChar)
    ensures ParseHeadFormat(HeadText(y, mo, dd, h, mi, se, frac))
         == NewDateTime(DigitsValue(y), DigitsValue(mo), DigitsValue(dd), DigitsValue(h),
                        DigitsValue(mi), DigitsValue(se), Microseconds(frac))
  {
    HeadTextFields(y, mo, dd, h, mi, se, frac);
  }

  lemma HeadFormatText(d: DateTime)
    requires Valid(d)
    ensures FormatHeadTimestamp(d) + "000"
         == HeadText(PadN(d.year, 4), PadN(d.month, 2), PadN(d.day, 2), PadN(d.hour, 2),
                     PadN(d.minute, 2), PadN(d.second, 2), PadN(d.microsecond / 1000, 3) + "000")
  {
  }

  /** A millisecond-precision head timestamp decodes to the time it was written from. */
  lemma {:induction false} HeadRoundTrip(d: DateTime)
    requires Valid(d) && d.microsecond % 1000 == 0
    ensures ConvertHeadTimestamp(FormatHeadTimestamp(d)) == Ok(d)
  {
    var y, mo, dd := PadN(d.year, 4), PadN(d.month, 2), PadN(d.day, 2);
    var h, mi, se := PadN(d.hour, 2), PadN(d.minute, 2), PadN(d.second, 2);
    var ms := PadN(d.microsecond / 1000, 3);
    MillisFraction(ms);
    assert Pow10(3) == 1000;
    PadNValue(d.microsecond / 1000, 3);
    assert Microseconds(ms + "000") == d.microsecond;
    PaddedFields(d);
    HeadFormatText(d);
    ParseHeadText(y, mo, dd, h, mi, se, ms + "000");
    assert ConvertHeadTimestamp(FormatHeadTimestamp(d)) == ParseHeadFormat(HeadText(y, mo, dd, h, mi, se, ms + "000"));
  }

  /** Each padded field of a valid time reads back as that field. */
  lemma PaddedFields(d: DateTime)
    requires Valid(d)
    ensures DigitsValue(PadN(d.year, 4)) == d.year && DigitsValue(PadN(d.month, 2)) == d.month
    ensures DigitsValue(PadN(d.day, 2)) == d.day && DigitsValue(PadN(d.hour, 2)) == d.hour
    ensures DigitsValue(PadN(d.minute, 2)) == d.minute && DigitsValue(PadN(d.second, 2)) == d.second
  {
    PadNValue(d.year, 4);
    PadNValue(d.month, 2);
    PadNValue(d.day, 2);
    PadNValue(d.hour, 2);
    PadNValue(d.minute, 2);
    PadNValue(d.second, 2);
  }

  /** Three fraction digits followed by three zeros are whole milliseconds. */
  lemma MillisFraction(ms: string)
    requires |ms| == 3 && All(ms, IsDigitChar)
    ensures All(ms + "000", IsDigitChar)
    ensures Microseconds(ms + "000") == DigitsValue(ms) * 1000
  {
    ThreeZeros();
    DigitsValueAppend(ms, "000");
    assert Pow10(3) == 1000;
  }

  // ---------------------------------------------------------------- months

  /** The month table: the first three letters of each month's genitive name. */
  const MONTHS: Dict<string, int> := [
    ("янв", 1), ("фев", 2), ("мар", 3), ("апр", 4), ("мая", 5), ("июн", 6),
    ("июл", 7), ("авг", 8), ("сен", 9), ("окт", 10), ("ноя", 11), ("дек", 12)]

  lemma MonthsTable()
    ensures |MONTHS| == 12 && DistinctKeys(MONTHS)
    ensures forall i :: 0 <= i < 12 ==> MONTHS[i].1 == i + 1 && |MONTHS[i].0| == 3
  {
  }

  /** `months[ru_month[:3]]`: case-sensitive, KeyError for an unknown prefix. */
  function RuMonthToInt(ruMonth: string): (r: Result<int>)
    ensures r.Ok? ==> 1 <= r.value <= 12 && MONTHS[r.value - 1].0 == Prefix(ruMonth, 3)
    ensures r.Ok? <==> HasKey(MONTHS, Prefix(ruMonth, 3))
    ensures r.Err? ==> r.error == KeyError
  {
    MonthsTable();
    Lookup(MONTHS, Prefix(ruMonth, 3))
  }

  /** Any word starting with a month's three-letter key (say "октября") names that month. */
  lemma {:induction false} MonthOfName(m: int, rest: string)
    requires 1 <= m <= 12
    ensures RuMonthToInt(MONTHS[m - 1].0 + rest) == Ok(m)
  {
    MonthsTable();
    var key := MONTHS[m - 1].0;
    assert Prefix(key + rest, 3) == key;
    GetAt(MONTHS, m - 1);
  }

  /** The lookup does not fold case: a month written with a capital letter is unknown. */
  lemma MonthCaseSensitive(word: string)
    requires |word| > 0 && '\U{0410}' <= word[0] <= '\U{042F}'
    ensures RuMonthToInt(word) == Err(KeyError)
  {
    var key := Prefix(word, 3);
    assert key[0] == word[0];
    forall i | 0 <= i < |MONTHS| ensures MONTHS[i].0 != key {
      assert '\U{0430}' <= MONTHS[i].0[0] <= '\U{044F}';
    }
  }

  // ---------------------------------------------------------------- time of day

  /** `convert_time_str`: exactly two ':'-separated integers, seconds 0. */
  function ConvertTimeStr(timeStr: string): (r: Result<(int, int, int)>)
    ensures r.Err? ==> r.error == ValueError
  {
    if Contains(timeStr, ":") then
      var parts := Split(timeStr, ":");
      if |parts| == 2 then
        var hour :- PyInt(parts[0]);
        var minute :- PyInt(parts[1]);
        Ok((hour, minute, 0))
      else Err(ValueError)
    else Err(ValueError)
  }

  /** A time is accepted exactly when it is two integers around a single ':'. */
  lemma ConvertTimeStrSpec(timeStr: string)
    ensures var parts := Split(timeStr, ":");
      ConvertTimeStr(timeStr).Ok? <==> |parts| == 2 && PyInt(parts[0]).Ok? && PyInt(parts[1]).Ok?
    ensures var parts := Split(timeStr, ":");
      ConvertTimeStr(timeStr).Ok? ==> ConvertTimeStr(timeStr).value == (PyInt(parts[0]).value, PyInt(parts[1]).value, 0)
  {
    SplitSpec(timeStr, ":");
  }

  /** `"HH:MM"` reads as `(HH, MM, 0)`. */
  lemma {:induction false} TimeStrOfClock(h: nat, m: nat)
    requires h < 100 && m < 100
    ensures ConvertTimeStr(PadN(h, 2) + ":" + PadN(m, 2)) == Ok((h, m, 0))
  {
    ClockSplit(h, m);
    var hs, ms := PadN(h, 2), PadN(m, 2);
    PyIntOfDigits(hs);
    PyIntOfDigits(ms);
    PadNValue(h, 2);
    PadNValue(m, 2);
  }

  lemma ClockSplit(h: nat, m: nat)
    ensures Split(PadN(h, 2) + ":" + PadN(m, 2), ":") == [PadN(h, 2), PadN(m, 2)]
    ensures !Contains(PadN(h, 2) + ":" + PadN(m, 2), " ")
    ensures Contains(PadN(h, 2) + ":" + PadN(m, 2), ":")
  {
    var hs, ms := PadN(h, 2), PadN(m, 2);
    DigitsHaveNoSeparators(hs);
    DigitsHaveNoSeparators(ms);
    var parts := [hs, ms];
    JoinTwo(hs, ms, ":");
    SplitJoin(parts, ":");
    SplitSpec(hs + ":" + ms, ":");
    JoinAvoids(parts, ":", ' ');
    NoCharNoContains(hs + ":" + ms, " ", 0);
  }

  /** Seconds are not accepted: `"HH:MM:SS"` raises ValueError. */
  lemma {:induction false} TimeStrRejectsSeconds(h: nat, m: nat, s: nat)
    ensures ConvertTimeStr(PadN(h, 2) + ":" + PadN(m, 2) + ":" + PadN(s, 2)).Err?
  {
    var hs, ms, ss := PadN(h, 2), PadN(m, 2), PadN(s, 2);
    assert ':' !in hs && ':' !in ms && ':' !in ss by {
      assert forall k :: 0 <= k < 2 ==> IsDigitChar(hs[k]) && IsDigitChar(ms[k]) && IsDigitChar(ss[k]);
    }
    var parts := [hs, ms, ss];
    JoinThree(hs, ms, ss, ":");
    SplitJoin(parts, ":");
  }

  // ---------------------------------------------------------------- customary dates

  /** What `convert_customary_to_datetime` returns: a time, or the text in angle brackets. */
  datatype Parsed = At(time: DateTime) | Unparsed(text: string)

  /** Reading an attribute of `today`, which is `None` when the page URL has no timestamp. */
  function Attr(today: Option<DateTime>): (r: Result<DateTime>)
    ensures r.Ok? <==> today.Some?
    ensures r.Ok? ==> r.value == today.value
    ensures r.Err? ==> r.error == AttributeError
  {
    match today
    case None => Err(AttributeError)
    case Some(t) => Ok(t)
  }

  /** `"вчера, HH:MM"`: the day before today (the day number minus one) at that time. */
  function Yesterday(hms: Result<(int, int, int)>, today: Option<DateTime>): (r: Result<DateTime>)
    ensures r.Ok? ==> Valid(r.value)
  {
    var t :- Attr(today);
    var time :- hms;
    NewDateTime(t.year, t.month, t.day - 1, time.0, time.1, time.2, 0)
  }

  /** The tokens of a date written with spaces: `D месяц [YYYY] [HH:MM]`. */
  function DateTokens(parts: seq<string>, today: Option<DateTime>): (r: Result<DateTime>)
    ensures r.Ok? ==> Valid(r.value)
  {
    if |parts| == 4 then
      var day :- PyInt(parts[0]);
      var month :- RuMonthToInt(parts[1]);
      var year :- PyInt(parts[2]);
      var hms :- ConvertTimeStr(parts[3]);
      var t :- Attr(today);
      NewDateTime(t.year, t.month, t.day, hms.0, hms.1, hms.2, 0)
    else if |parts| == 3 then
      var day :- PyInt(parts[0]);
      var month :- RuMonthToInt(parts[1]);
      if Contains(parts[2], ":") then
        var hms :- ConvertTimeStr(parts[2]);
        var t :- Attr(today);
        NewDateTime(t.year, month, day, hms.0, hms.1, hms.2, 0)
      else
        var year :- PyInt(parts[2]);
        NewDate(year, month, day)
    else if |parts| == 2 then
      var day :- PyInt(parts[0]);
      var month :- RuMonthToInt(parts[1]);
      var t :- Attr(today);
      NewDate(t.year, month, day)
    else Err(ValueError)
  }

  /** A bare `"HH:MM"`: today at that time. */
  function TimeToday(hms: Result<(int, int, int)>, today: Option<DateTime>): (r: Result<DateTime>)
    ensures r.Ok? ==> Valid(r.value)
  {
    var time :- hms;
    var t :- Attr(today);
    NewDateTime(t.year, t.month, t.day, time.0, time.1, time.2, 0)
  }

  function AsParsed(r: Result<DateTime>): (p: Result<Parsed>)
    ensures p.Ok? ==> r.Ok? && p.value.At? && p.value.time == r.value
    ensures p.Err? ==> r.Err? && p.error == r.error
  {
    match r
    case Ok(d) => Ok(At(d))
    case Err(e) => Err(e)
  }

  /** `convert_customary_to_datetime(time, today)` */
  function ConvertCustomary(time: string, today: Option<DateTime>): (r: Result<Parsed>)
    ensures r.Ok? && r.value.At? ==> Valid(r.value.time)
    ensures r.Ok? && r.value.Unparsed? ==> r.value.text == "<" + time + ">"
  {
    if Contains(time, ", ") && |Split(time, ", ")| != 2 then Err(ValueError)
    else if Contains(time, ", ") && Lower(Split(time, ", ")[0]) == "вчера" then
      AsParsed(Yesterday(ConvertTimeStr(Split(time, ", ")[1]), today))
    else if Contains(time, " ") then
      AsParsed(DateTokens(Split(time, " "), today))
    else if Contains(time, ":") then
      AsParsed(TimeToday(ConvertTimeStr(time), today))
    else
      Ok(Unparsed("<" + time + ">"))
  }

  /** `HH:MM` written with two digits each. */
  function Clock(h: nat, m: nat): string {
    PadN(h, 2) + ":" + PadN(m, 2)
  }

  lemma CommaBranch(time: string, today: Option<DateTime>)
    requires Contains(time, ", ") && |Split(time, ", ")| == 2
    requires Lower(Split(time, ", ")[0]) == "вчера"
    ensures ConvertCustomary(time, today) == AsParsed(Yesterday(ConvertTimeStr(Split(time, ", ")[1]), today))
  {
  }

  lemma SpaceBranch(time: string, today: Option<DateTime>)
    requires !Contains(time, ", ") && Contains(time, " ")
    ensures ConvertCustomary(time, today) == AsParsed(DateTokens(Split(time, " "), today))
  {
  }

  lemma ClockHasNoSeparators(h: nat, m: nat)
    ensures Token(Clock(h, m))
  {
    var c := Clock(h, m);
    assert forall k :: 0 <= k < |c| ==> c[k] == ':' || IsDigitChar(c[k]);
  }

  /**
   * `"вчера, HH:MM"`, in any letter case, is today's year and month with the
   * day number lowered by one, seconds 0; on the first of a month the
   * `datetime` constructor rejects day 0.
   */
  lemma {:induction false} CustomaryYesterday(word: string, h: nat, m: nat, t: DateTime)
    requires Lower(word) == "вчера"
    requires Valid(t) && h < 100 && m < 100
    ensures var r := ConvertCustomary(word + ", " + Clock(h, m), Some(t));
      && (t.day > 1 && h < 24 && m < 60 ==>
            r == Ok(At(DateTime(t.year, t.month, t.day - 1, h, m, 0, 0))))
      && (t.day == 1 ==> r == Err(ValueError))
  {
    var clock := Clock(h, m);
    ClockHasNoSeparators(h, m);
    CommaForm(word, clock, Some(t));
    TimeStrOfClock(h, m);
    YesterdayAt(h, m, t);
  }

  /**
   * The day before a valid `t` at `h:m`, within the same month: ValueError
   * on the first of a month and for a clock time outside the day.
   */
  lemma YesterdayAt(h: int, m: int, t: DateTime)
    requires Valid(t)
    ensures var r := Yesterday(Ok((h, m, 0)), Some(t));
      && (t.day > 1 && 0 <= h < 24 && 0 <= m < 60 ==> r == Ok(DateTime(t.year, t.month, t.day - 1, h, m, 0, 0)))
      && (t.day == 1 || !(0 <= h < 24 && 0 <= m < 60) ==> r == Err(ValueError))
  {
  }

  /** `word, rest` with `word` reading "вчера" takes the yesterday path on `rest`. */
  lemma CommaForm(word: string, rest: string, today: Option<DateTime>)
    requires Lower(word) == "вчера" && Token(rest)
    ensures ConvertCustomary(word + ", " + rest, today)
         == AsParsed(Yesterday(ConvertTimeStr(rest), today))
  {
    var time := word + ", " + rest;
    assert ',' !in word by {
      forall k | 0 <= k < |word| ensures word[k] != ',' {
        assert Lower(word)[k] == LowerChar(word[k]);
      }
    }
    JoinTwo(word, rest, ", ");
    SplitJoin([word, rest], ", ");
    SplitSpec(time, ", ");
    CommaBranch(time, today);
  }

  /** Tokens free of spaces and commas, collected into a list. */
  predicate Token(s: string) {
    ' ' !in s && ',' !in s
  }

  lemma TokenList(parts: seq<string>)
    requires forall k :: 0 <= k < |parts| ==> Token(parts[k])
    ensures forall k :: 0 <= k < |parts| ==> ' ' !in parts[k] && ',' !in parts[k]
  {
  }

  /** A string with no comma-space, split at spaces into the given tokens. */
  lemma SpacedTokens(parts: seq<string>)
    requires |parts| >= 2
    requires forall k :: 0 <= k < |parts| ==> Token(parts[k])
    ensures Split(Join(parts, " "), " ") == parts
    ensures !Contains(Join(parts, " "), ", ")
    ensures Contains(Join(parts, " "), " ")
  {
    TokenList(parts);
    SplitJoin(parts, " ");
    JoinAvoids(parts, " ", ',');
    NoCharNoContains(Join(parts, " "), ", ", 0);
  }

  /** Two, three or four tokens joined by single spaces take the spaced-date path. */
  lemma SpacedTwo(a: string, b: string, today: Option<DateTime>)
    requires Token(a) && Token(b)
    ensures ConvertCustomary(a + " " + b, today) == AsParsed(DateTokens([a, b], today))
  {
    JoinTwo(a, b, " ");
    SpacedTokens([a, b]);
    SpaceBranch(a + " " + b, today);
  }

  lemma SpacedThree(a: string, b: string, c: string, today: Option<DateTime>)
    requires Token(a) && Token(b) && Token(c)
    ensures ConvertCustomary(a + " " + b + " " + c, today) == AsParsed(DateTokens([a, b, c], today))
  {
    JoinThree(a, b, c, " ");
    SpacedTokens([a, b, c]);
    SpaceBranch(a + " " + b + " " + c, today);
  }

  lemma SpacedFour(a: string, b: string, c: string, d: string, today: Option<DateTime>)
    requires Token(a) && Token(b) && Token(c) && Token(d)
    ensures ConvertCustomary(a + " " + b + " " + c + " " + d, today)
         == AsParsed(DateTokens([a, b, c, d], today))
  {
    JoinFour(a, b, c, d, " ");
    SpacedTokens([a, b, c, d]);
    SpaceBranch(a + " " + b + " " + c + " " + d, today);
  }

  lemma DigitsHaveNoSeparators(s: string)
    requires All(s, IsDigitChar)
    ensures Token(s) && ':' !in s
  {
  }

  lemma FourTokens(parts: seq<string>, h: nat, m: nat, t: DateTime)
    requires |parts| == 4 && IsDigits(parts[0]) && IsDigits(parts[2])
    requires RuMonthToInt(parts[1]).Ok? && parts[3] == Clock(h, m) && h < 100 && m < 100
    ensures DateTokens(parts, Some(t)) == NewDateTime(t.year, t.month, t.day, h, m, 0, 0)
  {
    PyIntOfDigits(parts[0]);
    PyIntOfDigits(parts[2]);
    TimeStrOfClock(h, m);
  }

  /**
   * The four-token form `D месяц YYYY HH:MM` checks day, month and year but
   * returns today's date with the parsed time: the parsed date is discarded.
   */
  lemma {:induction false} CustomaryFourTokens(day: string, month: string, year: string,
                                               h: nat, m: nat, t: DateTime)
    requires IsDigits(day) && IsDigits(year) && RuMonthToInt(month).Ok?
    requires Token(month)
    requires Valid(t) && h < 24 && m < 60
    ensures ConvertCustomary(day + " " + month + " " + year + " " + Clock(h, m), Some(t))
         == Ok(At(DateTime(t.year, t.month, t.day, h, m, 0, 0)))
  {
    var clock := Clock(h, m);
    var parts := [day, month, year, clock];
    DigitsHaveNoSeparators(day);
    DigitsHaveNoSeparators(year);
    ClockHasNoSeparators(h, m);
    SpacedFour(day, month, year, clock, Some(t));
    FourTokens(parts, h, m, t);
  }

  lemma ThreeTokensYear(parts: seq<string>, today: Option<DateTime>)
    requires |parts| == 3 && IsDigits(parts[0]) && IsDigits(parts[2])
    requires RuMonthToInt(parts[1]).Ok?
    ensures DateTokens(parts, today)
         == NewDate(DigitsValue(parts[2]), RuMonthToInt(parts[1]).value, DigitsValue(parts[0]))
  {
    PyIntOfDigits(parts[0]);
    PyIntOfDigits(parts[2]);
    NoCharNoContains(parts[2], ":", 0);
  }

  /** `D месяц YYYY`: that date at midnight, whatever today is. */
  lemma {:induction false} CustomaryFullDate(day: string, month: string, year: string,
                                             today: Option<DateTime>)
    requires IsDigits(day) && IsDigits(year) && RuMonthToInt(month).Ok?
    requires Token(month)
    ensures ConvertCustomary(day + " " + month + " " + year, today)
         == AsParsed(NewDate(DigitsValue(year), RuMonthToInt(month).value, DigitsValue(day)))
  {
    var parts := [day, month, year];
    DigitsHaveNoSeparators(day);
    DigitsHaveNoSeparators(year);
    SpacedThree(day, month, year, today);
    ThreeTokensYear(parts, today);
  }

  lemma ThreeTokensTime(parts: seq<string>, h: nat, m: nat, t: DateTime)
    requires |parts| == 3 && IsDigits(parts[0]) && RuMonthToInt(parts[1]).Ok?
    requires parts[2] == Clock(h, m) && h < 100 && m < 100
    ensures DateTokens(parts, Some(t))
         == NewDateTime(t.year, RuMonthToInt(parts[1]).value, DigitsValue(parts[0]), h, m, 0, 0)
  {
    PyIntOfDigits(parts[0]);
    ClockSplit(h, m);
    TimeStrOfClock(h, m);
  }

  /** `D месяц HH:MM`: this year, the given day and month, at that time. */
  lemma {:induction false} CustomaryDateTime(day: string, month: string, h: nat, m: nat,
                                             t: DateTime)
    requires IsDigits(day) && RuMonthToInt(month).Ok?
    requires Token(month)
    requires Valid(t) && h < 100 && m < 100
    ensures ConvertCustomary(day + " " + month + " " + Clock(h, m), Some(t))
         == AsParsed(NewDateTime(t.year, RuMonthToInt(month).value, DigitsValue(day), h, m, 0, 0))
  {
    var clock := Clock(h, m);
    var parts := [day, month, clock];
    DigitsHaveNoSeparators(day);
    ClockHasNoSeparators(h, m);
    SpacedThree(day, month, clock, Some(t));
    ThreeTokensTime(parts, h, m, t);
  }

  /** `D месяц`: this year, the given day and month, at midnight. */
  lemma {:induction false} CustomaryDayMonth(day: string, month: string, t: DateTime)
    requires IsDigits(day) && RuMonthToInt(month).Ok?
    requires Token(month)
    requires Valid(t)
    ensures ConvertCustomary(day + " " + month, Some(t))
         == AsParsed(NewDate(t.year, RuMonthToInt(month).value, DigitsValue(day)))
  {
    var parts := [day, month];
    DigitsHaveNoSeparators(day);
    SpacedTwo(day, month, Some(t));
    PyIntOfDigits(day);
  }

  /** More than four space-separated tokens raise ValueError. */
  lemma CustomaryTooManyTokens(time: string, today: Option<DateTime>)
    requires !Contains(time, ", ") && |Split(time, " ")| > 4
    ensures ConvertCustomary(time, today) == Err(ValueError)
  {
  }

  /** A bare `HH:MM` is today at that time. */
  lemma {:induction false} CustomaryClock(h: nat, m: nat, t: DateTime)
    requires Valid(t) && h < 24 && m < 60
    ensures ConvertCustomary(Clock(h, m), Some(t)) == Ok(At(DateTime(t.year, t.month, t.day, h, m, 0, 0)))
  {
    ClockSplit(h, m);
    NoCharNoContains(Clock(h, m), ", ", 1);
    ColonBranch(Clock(h, m), Some(t));
    TimeStrOfClock(h, m);
    TimeTodayAt(h, m, t);
  }

  lemma ColonBranch(time: string, today: Option<DateTime>)
    requires !Contains(time, ", ") && !Contains(time, " ") && Contains(time, ":")
    ensures ConvertCustomary(time, today) == AsParsed(TimeToday(ConvertTimeStr(time), today))
  {
  }

  /** A valid `t`'s own day at `h:m`, or ValueError for a clock time outside the day. */
  lemma TimeTodayAt(h: int, m: int, t: DateTime)
    requires Valid(t)
    ensures var r := TimeToday(Ok((h, m, 0)), Some(t));
      && (0 <= h < 24 && 0 <= m < 60 ==> r == Ok(DateTime(t.year, t.month, t.day, h, m, 0, 0)))
      && (!(0 <= h < 24 && 0 <= m < 60) ==> r == Err(ValueError))
  {
  }

  /** Text with no space and no colon is not an error: it comes back in angle brackets. */
  lemma {:induction false} CustomaryUnparsed(time: string, today: Option<DateTime>)
    requires ' ' !in time && ':' !in time
    ensures ConvertCustomary(time, today) == Ok(Unparsed("<" + time + ">"))
  {
    NoCharNoContains(time, ", ", 1);
    NoCharNoContains(time, " ", 0);
    NoCharNoContains(time, ":", 0);
  }

  /**
   * Two words whose first holds no digit (such as "just now") are read as
   * day and month, and `int()` of the first raises ValueError.
   */
  lemma {:induction false} CustomaryWordsNotDate(w: string, v: string, today: Option<DateTime>)
    requires Token(w) && Token(v)
    requires forall k :: 0 <= k < |w| ==> !IsDigitChar(w[k])
    ensures ConvertCustomary(w + " " + v, today) == Err(ValueError)
  {
    SpacedTwo(w, v, today);
    PyIntNeedsDigit(w);
  }

  lemma CustomaryJustNow(today: Option<DateTime>)
    ensures ConvertCustomary("just now", today) == Err(ValueError)
  {
    var w, v := "just", "now";
    assert w + " " + v == "just now";
    CustomaryWordsNotDate(w, v, today);
  }

  // ---------------------------------------------------------------- page timestamps

  predicate DigitRunAt(s: string, i: nat, w: nat) {
    i + w <= |s| && All(s[i..i + w], IsDigitChar)
  }

  /** The leftmost position from `i` on where `w` digits in a row start (`re.search(r"\d{w}")`). */
  function FindDigitRun(s: string, w: nat, i: nat): (r: Option<nat>)
    requires i <= |s|
    ensures r.Some? ==> i <= r.value && DigitRunAt(s, r.value, w)
    ensures r.Some? ==> forall j: nat :: i <= j < r.value ==> !DigitRunAt(s, j, w)
    ensures r.None? ==> forall j: nat :: i <= j ==> !DigitRunAt(s, j, w)
    decreases |s| - i
  {
    if i + w > |s| then None
    else if All(s[i..i + w], IsDigitChar) then Some(i)
    else FindDigitRun(s, w, i + 1)
  }

  /** `extract_webarchive_date`: the first fourteen-digit run of the URL, decoded, or `None`. */
  function ExtractWebarchiveDate(url: string): (r: Result<Option<DateTime>>)
    ensures r.Ok? && r.value.Some? ==> Valid(r.value.value)
    ensures r.Err? ==> r.error == ValueError
    ensures r == Ok(None) <==> forall j: nat :: !DigitRunAt(url, j, 14)
  {
    match FindDigitRun(url, 14, 0)
    case None => Ok(None)
    case Some(i) =>
      var d :- ConvertSnapshotTimestamp(url[i..i + 14]);
      Ok(Some(d))
  }

  /** A snapshot URL `<prefix><timestamp>/<rest>` whose prefix holds no digit yields the snapshot time. */
  lemma {:induction false} ExtractFromSnapshotUrl(prefix: string, d: DateTime, rest: string)
    requires forall k :: 0 <= k < |prefix| ==> !IsDigitChar(prefix[k])
    requires Valid(d) && d.microsecond == 0
    ensures ExtractWebarchiveDate(prefix + FormatSnapshotTimestamp(d) + rest) == Ok(Some(d))
  {
    var ts := FormatSnapshotTimestamp(d);
    var url := prefix + ts + rest;
    SnapshotRoundTrip(d);
    assert url[|prefix|..|prefix| + 14] == ts;
    forall j: nat | j < |prefix| ensures !DigitRunAt(url, j, 14) {
      if j + 14 <= |url| {
        assert url[j..j + 14][0] == prefix[j];
      }
    }
    NoEarlierRun(url, |prefix|);
  }

  lemma {:induction false} NoEarlierRun(url: string, p: nat)
    requires p + 14 <= |url| && DigitRunAt(url, p, 14)
    requires forall j: nat :: j < p ==> !DigitRunAt(url, j, 14)
    ensures FindDigitRun(url, 14, 0) == Some(p)
  {
    var r := FindDigitRun(url, 14, 0);
    assert r.Some?;
    assert r.value == p;
  }

  // ---------------------------------------------------------------- query strings

  /** `key, val = part.split("=")`: exactly one '='. */
  function PairOf(part: string): (r: Result<(string, string)>)
    ensures r.Err? ==> r.error == ValueError
  {
    var kv := Split(part, "=");
    if |kv| == 2 then Ok((kv[0], kv[1])) else Err(ValueError)
  }

  /** A pair is the text on either side of the part's only '='. */
  lemma PairOfSpec(part: string)
    ensures PairOf(part).Ok? <==> |Split(part, "=")| == 2
    ensures PairOf(part).Ok? ==> PairOf(part).value.0 + "=" + PairOf(part).value.1 == part
    ensures PairOf(part).Ok? ==> !Contains(PairOf(part).value.0, "=") && !Contains(PairOf(part).value.1, "=")
  {
    var kv := Split(part, "=");
    SplitSpec(part, "=");
    if |kv| == 2 {
      JoinTwo(kv[0], kv[1], "=");
      assert kv == [kv[0], kv[1]];
    }
  }

  /** The pairs of the parts, in order; ValueError at the first malformed part. */
  function Pairs(parts: seq<string>): (r: Result<seq<(string, string)>>)
    ensures r.Ok? ==> |r.value| == |parts|
    ensures r.Err? ==> r.error == ValueError
  {
    if parts == [] then Ok([])
    else
      var init := parts[..|parts| - 1];
      match Pairs(init)
      case Err(e) => Err(e)
      case Ok(ps) =>
        match PairOf(parts[|parts| - 1])
        case Err(e) => Err(e)
        case Ok(p) => Ok(ps + [p])
  }

  /** Every part has exactly one '='. */
  predicate AllPairs(parts: seq<string>) {
    forall i :: 0 <= i < |parts| ==> PairOf(parts[i]).Ok?
  }

  /** Every part is a pair exactly when the whole succeeds, and then the pairs are the parts'. */
  lemma {:induction false} PairsSpec(parts: seq<string>)
    ensures Pairs(parts).Ok? ==> forall i :: 0 <= i < |parts| ==> PairOf(parts[i]) == Ok(Pairs(parts).value[i])
    ensures Pairs(parts).Ok? <==> AllPairs(parts)
  {
    if parts != [] {
      var init := parts[..|parts| - 1];
      PairsSpec(init);
      assert forall i :: 0 <= i < |init| ==> init[i] == parts[i];
    }
  }

  /** One more well-formed part extends the pairs by its pair. */
  lemma PairsSnoc(parts: seq<string>, i: nat, pairs: seq<(string, string)>, p: (string, string))
    requires i < |parts| && Pairs(parts[..i]) == Ok(pairs) && PairOf(parts[i]) == Ok(p)
    ensures Pairs(parts[..i + 1]) == Ok(pairs + [p])
  {
    assert parts[..i + 1][..i] == parts[..i];
  }

  /** A malformed part makes every longer prefix fail too. */
  lemma {:induction false} PairsStop(parts: seq<string>, i: nat, n: nat)
    requires i < n <= |parts| && Pairs(parts[..i]).Ok? && PairOf(parts[i]).Err?
    ensures Pairs(parts[..n]).Err?
    decreases n
  {
    assert parts[..n][..n - 1] == parts[..n - 1];
    if n > i + 1 {
      PairsStop(parts, i, n - 1);
    }
  }

  /** `query.setdefault(key, []).append(val)` */
  function AddValue(query: Dict<string, seq<string>>, key: string, val: string): Dict<string, seq<string>> {
    Set(query, key, Get(query, key).GetOr([]) + [val])
  }

  /** The dict the loop builds from a sequence of pairs. */
  function QueryOfPairs(pairs: seq<(string, string)>): Dict<string, seq<string>> {
    if pairs == [] then []
    else
      var last := pairs[|pairs| - 1];
      AddValue(QueryOfPairs(pairs[..|pairs| - 1]), last.0, last.1)
  }

  /** The values given to `key`, in order of appearance. */
  function ValuesFor(pairs: seq<(string, string)>, key: string): seq<string> {
    if pairs == [] then []
    else
      var last := pairs[|pairs| - 1];
      ValuesFor(pairs[..|pairs| - 1], key) + (if last.0 == key then [last.1] else [])
  }

  /** What `extract_query` returns for the query part of a URL. */
  function QueryOf(queryStr: string): Result<Dict<string, seq<string>>> {
    var pairs :- Pairs(Split(queryStr, "&"));
    Ok(QueryOfPairs(pairs))
  }

  /** `extract_query`, given the `query` component `urlparse` extracts. */
  method ExtractQuery(queryStr: string) returns (r: Result<Dict<string, seq<string>>>)
    ensures r == QueryOf(queryStr)
  {
    var parts := Split(queryStr, "&");
    var query: Dict<string, seq<string>> := [];
    ghost var pairs: seq<(string, string)> := [];
    var i := 0;
    while i < |parts|
      invariant 0 <= i <= |parts|
      invariant Pairs(parts[..i]) == Ok(pairs)
      invariant query == QueryOfPairs(pairs)
    {
      var kv := PairOf(parts[i]);
      if kv.Err? {
        PairsStop(parts, i, |parts|);
        assert parts[..|parts|] == parts;
        return Err(kv.error);
      }
      PairsSnoc(parts, i, pairs, kv.value);
      QueryOfPairsSnoc(pairs, kv.value);
      query := AddValue(query, kv.value.0, kv.value.1);
      pairs := pairs + [kv.value];
      i := i + 1;
    }
    assert parts[..i] == parts;
    return Ok(query);
  }

  lemma QueryOfPairsSnoc(pairs: seq<(string, string)>, p: (string, string))
    ensures QueryOfPairs(pairs + [p]) == AddValue(QueryOfPairs(pairs), p.0, p.1)
  {
    assert (pairs + [p])[..|pairs|] == pairs;
  }

  /**
   * The built dict holds each key once, and under every key the values
   * given to it in order of appearance.
   */
  lemma {:induction false} QueryOfPairsSpec(pairs: seq<(string, string)>)
    ensures DistinctKeys(QueryOfPairs(pairs))
    ensures forall key :: Get(QueryOfPairs(pairs), key).GetOr([]) == ValuesFor(pairs, key)
    ensures forall key :: HasKey(QueryOfPairs(pairs), key) <==> ValuesFor(pairs, key) != []
  {
    if pairs != [] {
      var init := pairs[..|pairs| - 1];
      var last := pairs[|pairs| - 1];
      var q := QueryOfPairs(init);
      QueryOfPairsSpec(init);
      var v := Get(q, last.0).GetOr([]) + [last.1];
      GetSetSame(q, last.0, v);
      forall key ensures Get(QueryOfPairs(pairs), key).GetOr([]) == ValuesFor(pairs, key) {
        if key != last.0 {
          GetSetOther(q, last.0, v, key);
        }
      }
      forall key ensures HasKey(QueryOfPairs(pairs), key) <==> ValuesFor(pairs, key) != [] {
        if key != last.0 {
          GetSetOther(q, last.0, v, key);
        }
      }
    }
  }

  /** `extract_query` on `k=v&...`: every value under its key, in order; any malformed pair fails. */
  lemma ExtractQuerySpec(queryStr: string)
    ensures QueryOf(queryStr).Ok? <==> AllPairs(Split(queryStr, "&"))
    ensures QueryOf(queryStr).Ok? ==> DistinctKeys(QueryOf(queryStr).value)
    ensures QueryOf(queryStr).Ok? ==> forall key :: Get(QueryOf(queryStr).value, key).GetOr([])
                                                     == ValuesFor(Pairs(Split(queryStr, "&")).value, key)
  {
    var parts := Split(queryStr, "&");
    PairsSpec(parts);
    assert QueryOf(queryStr).Ok? == Pairs(parts).Ok?;
    if Pairs(parts).Ok? {
      assert QueryOf(queryStr).value == QueryOfPairs(Pairs(parts).value);
      QueryOfPairsSpec(Pairs(parts).value);
    } else {
      assert !QueryOf(queryStr).Ok?;
    }
  }

  /** The empty query is one part without '=': ValueError. */
  lemma ExtractQueryEmpty()
    ensures QueryOf("") == Err(ValueError)
  {
    assert Split("", "&") == [""];
    assert Split("", "=") == [""];
  }
}
