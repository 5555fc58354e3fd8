/**
 * Python's insertion-ordered `dict`, as the sequence of its items, and
 * the scalar values the scraped records hold.
 */
module PyDicts {
  import opened PyBase
  import opened Calendar

  /** The items of a dict in insertion order. */
  type Dict<K, V> = seq<(K, V)>

  function Keys<K, V>(d: Dict<K, V>): (ks: seq<K>)
    ensures |ks| == |d|
    ensures forall i :: 0 <= i < |d| ==> ks[i] == d[i].0
  {
    seq(|d|, i requires 0 <= i < |d| => d[i].0)
  }

  function Values<K, V>(d: Dict<K, V>): (vs: seq<V>)
    ensures |vs| == |d|
    ensures forall i :: 0 <= i < |d| ==> vs[i] == d[i].1
  {
    seq(|d|, i requires 0 <= i < |d| => d[i].1)
  }

  predicate HasKey<K(==), V>(d: Dict<K, V>, k: K) {
    exists i :: 0 <= i < |d| && d[i].0 == k
  }

  /** Every key occurs once, as in a real dict. */
  predicate DistinctKeys<K(==), V>(d: Dict<K, V>) {
    forall i, j :: 0 <= i < j < |d| ==> d[i].0 != d[j].0
  }

  /** Position of `k`, if present. */
  function IndexOf<K(==), V>(d: Dict<K, V>, k: K): (r: Option<nat>)
    ensures r.Some? ==> r.value < |d| && d[r.value].0 == k
    ensures r.Some? ==> forall i :: 0 <= i < r.value ==> d[i].0 != k
    ensures r.None? <==> !HasKey(d, k)
  {
    if d == [] then None
    else if d[0].0 == k then Some(0)
    else match IndexOf(d[1..], k)
      case None =>
        assert forall i :: 1 <= i < |d| ==> d[i] == d[1..][i - 1];
        None
      case Some(i) => Some(i + 1)
  }

  /** `d.get(k)`. */
  function Get<K(==), V>(d: Dict<K, V>, k: K): (r: Option<V>)
    ensures r.Some? <==> HasKey(d, k)
    ensures r.Some? ==> exists i :: 0 <= i < |d| && d[i] == (k, r.value)
  {
    match IndexOf(d, k)
    case None => None
    case Some(i) => Some(d[i].1)
  }

  /** `d[k]`: KeyError when absent. */
  function Lookup<K(==), V>(d: Dict<K, V>, k: K): (r: Result<V>)
    ensures r.Ok? <==> HasKey(d, k)
    ensures r.Ok? ==> Get(d, k) == Some(r.value)
    ensures r.Err? ==> r.error == KeyError
  {
    match Get(d, k)
    case None => Err(KeyError)
    case Some(v) => Ok(v)
  }

  /** `d[k] = v`: an existing key keeps its place, a new one goes last. */
  function Set<K(==), V>(d: Dict<K, V>, k: K, v: V): (r: Dict<K, V>)
  {
    match IndexOf(d, k)
    case None => d + [(k, v)]
    case Some(i) => d[i := (k, v)]
  }

  /** `d.pop(k)`: the value and the dict without that key; KeyError when absent. */
  function Pop<K(==), V>(d: Dict<K, V>, k: K): (r: Result<(V, Dict<K, V>)>)
    ensures r.Ok? <==> HasKey(d, k)
    ensures r.Err? ==> r.error == KeyError
  {
    match IndexOf(d, k)
    case None => Err(KeyError)
    case Some(i) => Ok((d[i].1, d[..i] + d[i + 1..]))
  }

  /** `d.update(e)`: each item of `e` set in turn. */
  function Update<K(==), V>(d: Dict<K, V>, e: Dict<K, V>): Dict<K, V>
    decreases |e|
  {
    if e == [] then d else Update(Set(d, e[0].0, e[0].1), e[1..])
  }

  /** `{k: v for k, v in d.items() if keep(v)}` */
  function FilterValues<K(==), V>(d: Dict<K, V>, keep: V -> bool): (r: Dict<K, V>)
    decreases |d|
  {
    if d == [] then []
    else if keep(d[0].1) then [d[0]] + FilterValues(d[1..], keep)
    else FilterValues(d[1..], keep)
  }

  /** The positions of the items whose value passes, in ascending order. */
  function KeptPositions<K, V>(d: Dict<K, V>, keep: V -> bool): seq<nat>
    decreases |d|
  {
    if d == [] then []
    else if keep(d[0].1) then [0] + Shift(KeptPositions(d[1..], keep))
    else Shift(KeptPositions(d[1..], keep))
  }

  /** Every position moved one place on. */
  function Shift(s: seq<nat>): (r: seq<nat>)
    ensures |r| == |s| && forall j :: 0 <= j < |s| ==> r[j] == s[j] + 1
  {
    seq(|s|, j requires 0 <= j < |s| => s[j] + 1)
  }

  // ---------------------------------------------------------------- lemmas

  /** Reading a key just written gives the written value. */
  lemma GetSetSame<K, V>(d: Dict<K, V>, k: K, v: V)
    requires DistinctKeys(d)
    ensures Get(Set(d, k, v), k) == Some(v)
    ensures DistinctKeys(Set(d, k, v))
  {
    match IndexOf(d, k)
    case None =>
      assert IndexOf(d + [(k, v)], k) == Some(|d|) by {
        IndexOfAppend(d, k, v);
      }
    case Some(i) =>
      var r := d[i := (k, v)];
      assert IndexOf(r, k) == Some(i) by {
        IndexOfPlace(r, k, i);
      }
  }

  /** Writing one key leaves every other key's value alone. */
  lemma GetSetOther<K, V>(d: Dict<K, V>, k: K, v: V, k': K)
    requires k' != k
    ensures Get(Set(d, k, v), k') == Get(d, k')
  {
    var r := Set(d, k, v);
    match IndexOf(d, k)
    case None =>
      IndexOfAppendOther(d, (k, v), k');
    case Some(i) =>
      IndexOfSameKeys(d, r, k');
      if IndexOf(d, k').Some? {
        assert IndexOf(d, k').value != i;
      }
  }

  /** Dicts with the same keys at the same places find a key at the same place. */
  lemma IndexOfSameKeys<K, V>(d: Dict<K, V>, r: Dict<K, V>, k: K)
    requires |d| == |r| && forall j :: 0 <= j < |d| ==> d[j].0 == r[j].0
    ensures IndexOf(d, k) == IndexOf(r, k)
  {
    assert HasKey(d, k) <==> HasKey(r, k);
  }

  /** Appending an item with another key does not move where a key is found. */
  lemma IndexOfAppendOther<K, V>(d: Dict<K, V>, x: (K, V), k: K)
    requires x.0 != k
    ensures IndexOf(d + [x], k) == IndexOf(d, k)
  {
    var r := d + [x];
    assert forall j :: 0 <= j < |d| ==> r[j] == d[j];
    assert HasKey(d, k) <==> HasKey(r, k);
  }


  /** Writing keeps the existing keys in order, appending a new key at the end. */
  lemma KeysSet<K, V>(d: Dict<K, V>, k: K, v: V)
    ensures Keys(Set(d, k, v)) == if HasKey(d, k) then Keys(d) else Keys(d) + [k]
  {
    var r := Set(d, k, v);
    if HasKey(d, k) {
      assert Keys(r) == Keys(d);
    } else {
      assert Keys(r) == Keys(d) + [k];
    }
  }

  /** `pop` hands back the key's value and removes exactly that key. */
  lemma PopSpec<K, V>(d: Dict<K, V>, k: K)
    requires DistinctKeys(d) && HasKey(d, k)
    ensures Pop(d, k).Ok? && Get(d, k) == Some(Pop(d, k).value.0)
    ensures var r := Pop(d, k).value.1;
      && DistinctKeys(r) && !HasKey(r, k)
      && |r| == |d| - 1
      && forall k' :: k' != k ==> Get(r, k') == Get(d, k')
  {
    var i := IndexOf(d, k).value;
    var r := d[..i] + d[i + 1..];
    assert forall j :: 0 <= j < i ==> r[j] == d[j];
    assert forall j :: i <= j < |r| ==> r[j] == d[j + 1];
    forall k' | k' != k ensures Get(r, k') == Get(d, k') {
      GetByScan(d, k');
      GetByScan(r, k');
      if HasKey(d, k') {
        var j :| 0 <= j < |d| && d[j].0 == k';
        assert j != i;
        if j < i {
          assert r[j].0 == k';
        } else {
          assert r[j - 1].0 == k';
        }
      }
    }
  }

  /** In a dict with distinct keys, `Get` finds the value at a key's position. */
  lemma GetAt<K, V>(d: Dict<K, V>, i: nat)
    requires DistinctKeys(d) && i < |d|
    ensures Get(d, d[i].0) == Some(d[i].1)
  {
    IndexOfPlace(d, d[i].0, i);
  }

  /** `Get` characterised by a scan: with distinct keys, the value stored at the key. */
  lemma GetByScan<K, V>(d: Dict<K, V>, k: K)
    ensures Get(d, k).Some? <==> HasKey(d, k)
    ensures Get(d, k).Some? ==> d[IndexOf(d, k).value] == (k, Get(d, k).value)
    ensures DistinctKeys(d) ==> forall i :: 0 <= i < |d| && d[i].0 == k ==> Get(d, k) == Some(d[i].1)
  {
    if DistinctKeys(d) {
      forall i | 0 <= i < |d| && d[i].0 == k ensures Get(d, k) == Some(d[i].1) {
        IndexOfPlace(d, k, i);
      }
    }
  }

  lemma IndexOfPlace<K, V>(d: Dict<K, V>, k: K, i: nat)
    requires i < |d| && d[i].0 == k
    requires forall j :: 0 <= j < |d| && j != i ==> d[j].0 != k
    ensures IndexOf(d, k) == Some(i)
  {
    var r := IndexOf(d, k);
    assert HasKey(d, k);
  }

  lemma IndexOfAppend<K, V>(d: Dict<K, V>, k: K, v: V)
    requires !HasKey(d, k)
    ensures IndexOf(d + [(k, v)], k) == Some(|d|)
  {
    var r := d + [(k, v)];
    forall j | 0 <= j < |r| && j != |d| ensures r[j].0 != k {
      assert r[j] == d[j];
    }
    IndexOfPlace(r, k, |d|);
  }

  /** After `d.update(e)`, a key of `e` holds `e`'s value and any other key keeps `d`'s. */
  lemma {:induction false} GetUpdate<K, V>(d: Dict<K, V>, e: Dict<K, V>, k: K)
    requires DistinctKeys(d) && DistinctKeys(e)
    ensures DistinctKeys(Update(d, e))
    ensures Get(Update(d, e), k) == if HasKey(e, k) then Get(e, k) else Get(d, k)
    decreases |e|
  {
    if e != [] {
      var d' := Set(d, e[0].0, e[0].1);
      var rest := e[1..];
      GetSetSame(d, e[0].0, e[0].1);
      assert DistinctKeys(rest) by {
        forall i, j | 0 <= i < j < |rest| ensures rest[i].0 != rest[j].0 {
          assert rest[i] == e[i + 1] && rest[j] == e[j + 1];
        }
      }
      GetUpdate(d', rest, k);
      GetByScan(e, k);
      GetByScan(rest, k);
      if HasKey(rest, k) {
        var j :| 0 <= j < |rest| && rest[j].0 == k;
        assert e[j + 1] == rest[j];
        assert HasKey(e, k);
      } else if k == e[0].0 {
        assert Get(e, k) == Some(e[0].1);
      } else {
        GetSetOther(d, e[0].0, e[0].1, k);
        assert forall j :: 1 <= j < |e| ==> e[j] == rest[j - 1];
      }
    }
  }

  /** Filtering keeps exactly the items whose value passes, in their order. */
  lemma {:induction false} FilterValuesSpec<K, V>(d: Dict<K, V>, keep: V -> bool)
    ensures forall p :: p in FilterValues(d, keep) <==> p in d && keep(p.1)
    ensures |FilterValues(d, keep)| <= |d|
    ensures (forall i :: 0 <= i < |d| ==> keep(d[i].1)) ==> FilterValues(d, keep) == d
    decreases |d|
  {
    if d != [] {
      FilterValuesSpec(d[1..], keep);
      assert d == [d[0]] + d[1..];
      if forall i :: 0 <= i < |d| ==> keep(d[i].1) {
        assert forall i :: 0 <= i < |d[1..]| ==> keep(d[1..][i].1) by {
          forall i | 0 <= i < |d[1..]| ensures keep(d[1..][i].1) {
            assert d[1..][i] == d[i + 1];
          }
        }
      }
    }
  }

  /**
   * Filtering is selection in order: the result is the dict's items at
   * strictly increasing positions, and those are exactly the positions
   * whose value passes.
   */
  lemma FilterValuesOrder<K, V>(d: Dict<K, V>, keep: V -> bool)
    ensures var r, ix := FilterValues(d, keep), KeptPositions(d, keep);
      && |ix| == |r|
      && (forall j :: 0 <= j < |ix| ==> ix[j] < |d| && r[j] == d[ix[j]])
      && (forall j, j' :: 0 <= j < j' < |ix| ==> ix[j] < ix[j'])
      && (forall i :: 0 <= i < |d| ==> (keep(d[i].1) <==> i in ix))
  {
    KeptPositionsSpec(d, keep);
    FilterValuesAt(d, keep);
  }

  /** The kept positions lie in the dict, ascend strictly, and are exactly those whose value passes. */
  lemma KeptPositionsSpec<K, V>(d: Dict<K, V>, keep: V -> bool)
    ensures var ix := KeptPositions(d, keep);
      && (forall j :: 0 <= j < |ix| ==> ix[j] < |d|)
      && (forall j, j' :: 0 <= j < j' < |ix| ==> ix[j] < ix[j'])
      && (forall i :: 0 <= i < |d| ==> (keep(d[i].1) <==> i in ix))
  {
    KeptPositionsAscend(d, keep);
    KeptPositionsExact(d, keep);
  }

  lemma {:induction false} KeptPositionsAscend<K, V>(d: Dict<K, V>, keep: V -> bool)
    ensures forall j :: 0 <= j < |KeptPositions(d, keep)| ==> KeptPositions(d, keep)[j] < |d|
    ensures forall j, j' :: 0 <= j < j' < |KeptPositions(d, keep)| ==> KeptPositions(d, keep)[j] < KeptPositions(d, keep)[j']
    decreases |d|
  {
    if d != [] {
      var t := d[1..];
      KeptPositionsAscend(t, keep);
      var it := KeptPositions(t, keep);
      var sh := Shift(it);
      forall j | 0 <= j < |sh| ensures 0 < sh[j] < |d| {
        assert sh[j] == it[j] + 1 && it[j] < |t|;
      }
      forall j, j' | 0 <= j < j' < |sh| ensures sh[j] < sh[j'] {
        assert sh[j] == it[j] + 1 && sh[j'] == it[j'] + 1 && it[j] < it[j'];
      }
      var ix := KeptPositions(d, keep);
      if keep(d[0].1) {
        assert ix == [0] + sh;
        forall j, j' | 0 <= j < j' < |ix| ensures ix[j] < ix[j'] {
          assert ix[j'] == sh[j' - 1];
          if j > 0 {
            assert ix[j] == sh[j - 1];
          }
        }
      } else {
        assert ix == sh;
      }
    }
  }

  lemma {:induction false} KeptPositionsExact<K, V>(d: Dict<K, V>, keep: V -> bool)
    ensures var ix := KeptPositions(d, keep);
      forall i :: 0 <= i < |d| ==> (keep(d[i].1) <==> i in ix)
    decreases |d|
  {
    if d != [] {
      var t := d[1..];
      KeptPositionsExact(t, keep);
      var it := KeptPositions(t, keep);
      var sh := Shift(it);
      forall i | 0 < i < |d| ensures keep(d[i].1) <==> i in sh {
        assert d[i] == t[i - 1];
        ShiftIn(it, i - 1);
      }
      ShiftNoZero(it);
      var ix := KeptPositions(d, keep);
      if keep(d[0].1) {
        assert ix == [0] + sh;
        forall i | 0 <= i < |d| ensures keep(d[i].1) <==> i in ix {
          assert i in ix <==> i == 0 || i in sh;
        }
      }
    }
  }

  /** The result holds the dict's item at each kept position, in the order of the positions. */
  lemma {:induction false} FilterValuesAt<K, V>(d: Dict<K, V>, keep: V -> bool)
    ensures var r, ix := FilterValues(d, keep), KeptPositions(d, keep);
      && |ix| == |r|
      && forall j :: 0 <= j < |ix| ==> ix[j] < |d| && r[j] == d[ix[j]]
    decreases |d|
  {
    if d != [] {
      var t := d[1..];
      FilterValuesAt(t, keep);
      var it, rt := KeptPositions(t, keep), FilterValues(t, keep);
      var sh := Shift(it);
      forall j | 0 <= j < |sh| ensures sh[j] < |d| && rt[j] == d[sh[j]] {
        assert t[it[j]] == d[it[j] + 1];
      }
      var ix, r := KeptPositions(d, keep), FilterValues(d, keep);
      if keep(d[0].1) {
        assert ix == [0] + sh && r == [d[0]] + rt;
        forall j | 0 <= j < |ix| ensures ix[j] < |d| && r[j] == d[ix[j]] {
          if j > 0 {
            assert ix[j] == sh[j - 1] && r[j] == rt[j - 1];
          }
        }
      }
    }
  }

  lemma ShiftIn(s: seq<nat>, x: nat)
    ensures x + 1 in Shift(s) <==> x in s
  {
    if x in s {
      var j :| 0 <= j < |s| && s[j] == x;
      assert Shift(s)[j] == x + 1;
    }
  }

  lemma ShiftNoZero(s: seq<nat>)
    ensures 0 !in Shift(s)
  {
  }

  /** Setting keys absent from the dict, each once, appends them in order. */
  lemma {:induction false} UpdateFresh<K, V>(d: Dict<K, V>, e: Dict<K, V>)
    requires DistinctKeys(e) && forall i :: 0 <= i < |e| ==> !HasKey(d, e[i].0)
    ensures Update(d, e) == d + e
    decreases |e|
  {
    if e != [] {
      var d' := d + [e[0]];
      assert Set(d, e[0].0, e[0].1) == d';
      forall i | 0 <= i < |e[1..]| ensures !HasKey(d', e[1..][i].0) {
        assert e[1..][i] == e[i + 1];
        NotKeyAppend(d, e[0], e[i + 1].0);
      }
      UpdateFresh(d', e[1..]);
      assert d' + e[1..] == d + e;
    }
  }

  /** A key absent from the dict and different from the appended item's stays absent. */
  lemma NotKeyAppend<K, V>(d: Dict<K, V>, x: (K, V), k: K)
    requires !HasKey(d, k) && x.0 != k
    ensures !HasKey(d + [x], k)
  {
    forall j | 0 <= j < |d + [x]| ensures (d + [x])[j].0 != k {
      if j < |d| {
        assert (d + [x])[j] == d[j];
      }
    }
  }

  // ---------------------------------------------------------------- values

  /** The scalar JSON-like values the spiders store in their records. */
  datatype Value =
    | VNone
    | VBool(b: bool)
    | VInt(i: int)
    | VStr(s: string)
    | VTime(t: DateTime)

  /** Python truthiness. */
  predicate Truthy(v: Value) {
    match v
    case VNone => false
    case VBool(b) => b
    case VInt(i) => i != 0
    case VStr(s) => s != ""
    case VTime(_) => true
  }
}
