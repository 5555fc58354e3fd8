/**
 * The topics spider: the next-page detectors of the two forum layouts, the
 * fields read from one topic of a listing page, the records it yields and
 * the filter on the forum descriptors it starts from.
 *
 * A page is given by what its selectors find: each CSS query becomes the
 * optional text or attribute it returns, so selection itself is not modelled.
 */
module Topics {
  import opened PyBase
  import opened Strings
  import opened Calendar
  import opened PyDicts
  import opened ForumUtils

  // ---------------------------------------------------------------- pagination

  /** The `href` each layout's next-page selector finds on a listing page. */
  datatype Pager = Pager(next2021: Option<string>, next2014: Option<string>)

  /** `PaginationParseResult`: the layout tried and the next page it found. */
  datatype PaginationResult = PaginationResult(style: string, result: Option<string>)

  /**
   * `escape_result`: `next_page and response.urljoin(next_page) or None`;
   * `join` stands for `response.urljoin`.
   */
  function EscapeResult(join: string -> string, nextPage: Option<string>): (r: Option<string>)
    ensures nextPage.None? || nextPage == Some("") ==> r.None?
    ensures r.Some? ==> nextPage.Some? && r.value == join(nextPage.value) && r.value != ""
    ensures nextPage.Some? && nextPage.value != "" && join(nextPage.value) != "" ==> r == Some(join(nextPage.value))
  {
    match nextPage
    case None => None
    case Some(p) => if p != "" && join(p) != "" then Some(join(p)) else None
  }

  /** `parse_2021`: the link after the active page of `div#paging ul`. */
  function Parse2021(pager: Pager, join: string -> string): PaginationResult {
    PaginationResult("2021", EscapeResult(join, pager.next2021))
  }

  /** `parse_2014`: the link after the bold current page of `div#paging`. */
  function Parse2014(pager: Pager, join: string -> string): PaginationResult {
    PaginationResult("2014", EscapeResult(join, pager.next2014))
  }

  /** The layouts in the order `parse` tries them, newest first. */
  function Detectors(pager: Pager, join: string -> string): seq<PaginationResult> {
    [Parse2021(pager, join), Parse2014(pager, join)]
  }

  /** Python truthiness of a detector's `result`. */
  predicate Found(p: PaginationResult) {
    p.result.Some? && p.result.value != ""
  }

  /** The first result that found a next page. */
  function FirstMatch(results: seq<PaginationResult>): Option<PaginationResult>
    decreases |results|
  {
    if results == [] then None
    else if Found(results[0]) then Some(results[0])
    else FirstMatch(results[1..])
  }

  /** `FirstMatch` is the earliest result that found a page, and `None` exactly when none did. */
  lemma {:induction false} FirstMatchSpec(results: seq<PaginationResult>)
    ensures FirstMatch(results).None? <==> forall i :: 0 <= i < |results| ==> !Found(results[i])
    ensures FirstMatch(results).Some? ==>
      exists i :: 0 <= i < |results| && results[i] == FirstMatch(results).value && Found(results[i])
        && forall j :: 0 <= j < i ==> !Found(results[j])
    decreases |results|
  {
    if results != [] && !Found(results[0]) {
      var rest := results[1..];
      FirstMatchSpec(rest);
      assert forall i :: 1 <= i < |results| ==> results[i] == rest[i - 1];
      if FirstMatch(rest).Some? {
        var i :| 0 <= i < |rest| && rest[i] == FirstMatch(rest).value && Found(rest[i])
          && forall j :: 0 <= j < i ==> !Found(rest[j]);
        assert results[i + 1] == rest[i];
      }
    }
  }

  /** `PaginationParser.parse`: the detectors in turn, returning on the first that found a page. */
  method ParsePagination(pager: Pager, join: string -> string) returns (r: Option<PaginationResult>)
    ensures r == FirstMatch(Detectors(pager, join))
  {
    var detectors := Detectors(pager, join);
    for i := 0 to |detectors|
      invariant FirstMatch(detectors) == FirstMatch(detectors[i..])
    {
      var parseResult := detectors[i];
      if Found(parseResult) {
        return Some(parseResult);
      }
      assert detectors[i..][1..] == detectors[i + 1..];
    }
    assert detectors[|detectors|..] == [];
    return None;
  }

  /**
   * The 2021 layout wins whenever it finds a page; otherwise the 2014
   * layout's page, tagged "2014", or `None` when neither finds one.
   */
  lemma PaginationOrder(pager: Pager, join: string -> string)
    ensures Found(Parse2021(pager, join)) ==> FirstMatch(Detectors(pager, join)) == Some(Parse2021(pager, join))
    ensures !Found(Parse2021(pager, join)) && Found(Parse2014(pager, join)) ==>
      FirstMatch(Detectors(pager, join)) == Some(PaginationResult("2014", EscapeResult(join, pager.next2014)))
    ensures !Found(Parse2021(pager, join)) && !Found(Parse2014(pager, join)) ==>
      FirstMatch(Detectors(pager, join)) == None
  {
    var ds := Detectors(pager, join);
    assert ds[1..] == [Parse2014(pager, join)];
    assert ds[1..][1..] == [];
    assert FirstMatch(ds[1..][1..]) == None;
  }

  // ---------------------------------------------------------------- one topic

  /** An anchor as the selectors find it: its text, and its `href` (`None` when the attribute is missing). */
  datatype Anchor = Anchor(text: Option<string>, href: Option<string>)

  /** What the selectors of `get_title`, `get_author` and `get_num_messages_last_update` find in one topic. */
  datatype Topic = Topic(
    titleDiv: Option<Anchor>,     // the anchor inside `div.f-topic_title`, when that div exists
    titleLink: Anchor,            // `a.f-topic_title`
    author: Option<string>,       // `div.f-topic_author::text`
    authorName: Option<string>,   // `div.f-topic_author .f-topic_author_name::text`
    replies: Option<string>,      // `div.f-topic_replies::text`
    footerComments: Option<string>,
    update: Option<string>,       // `div.f-topic_update span::text`
    footerUpdate: Option<string>)

  /**
   * `get_title`: the title anchor, with `"/web/"` removed once from the
   * front of its link, split at the first `"/"` into the snapshot timestamp
   * and the original URL; the title is stripped.
   */
  function GetTitle(topic: Topic): Result<(string, string, string)> {
    var anchor := TitleAnchor(topic);
    var fullUrl :- if anchor.href.Some? then Ok(anchor.href.value) else Err(KeyError);
    var parts := SplitOnce(RemovePrefix(fullUrl, "/web/"), "/");
    if |parts| != 2 then Err(ValueError)
    else Ok((SafeStrip(anchor.text), fullUrl, parts[1]))
  }

  /** The anchor `get_title` reads: the one in the div when there is a div. */
  function TitleAnchor(topic: Topic): (a: Anchor)
    ensures topic.titleDiv.Some? ==> a == topic.titleDiv.value
    ensures topic.titleDiv.None? ==> a == topic.titleLink
  {
    if topic.titleDiv.Some? then topic.titleDiv.value else topic.titleLink
  }

  /**
   * A missing link is a KeyError, a link with no `"/"` after the prefix a
   * ValueError; otherwise the stripped title, the link as found, and what
   * follows the first `"/"` of the link without its prefix.
   */
  lemma GetTitleSpec(topic: Topic)
    ensures TitleAnchor(topic).href.None? ==> GetTitle(topic) == Err(KeyError)
    ensures TitleAnchor(topic).href.Some? ==>
      var fullUrl := TitleAnchor(topic).href.value;
      var noPrefix := RemovePrefix(fullUrl, "/web/");
      && (!Contains(noPrefix, "/") ==> GetTitle(topic) == Err(ValueError))
      && (Contains(noPrefix, "/") ==>
            GetTitle(topic).Ok? && GetTitle(topic).value.0 == SafeStrip(TitleAnchor(topic).text)
            && GetTitle(topic).value.1 == fullUrl
            && exists ts :: !Contains(ts, "/") && noPrefix == ts + "/" + GetTitle(topic).value.2)
  {
    var anchor := TitleAnchor(topic);
    if anchor.href.Some? {
      var parts := SplitOnce(RemovePrefix(anchor.href.value, "/web/"), "/");
      if |parts| == 2 {
        assert !Contains(parts[0], "/");
      }
    }
  }

  /** A Wayback link `/web/<timestamp>/<original>` gives back the original URL, whatever it contains. */
  lemma GetTitleOfSnapshotLink(topic: Topic, ts: string, orig: string)
    requires !Contains(ts, "/")
    requires TitleAnchor(topic).href == Some("/web/" + ts + "/" + orig)
    ensures GetTitle(topic) == Ok((SafeStrip(TitleAnchor(topic).text), "/web/" + ts + "/" + orig, orig))
  {
    var fullUrl := "/web/" + ts + "/" + orig;
    assert fullUrl == "/web/" + (ts + "/" + orig);
    assert StartsWith(fullUrl, "/web/");
    var noPrefix := RemovePrefix(fullUrl, "/web/");
    assert noPrefix == ts + "/" + orig;
    SplitOnceAtFirst(ts, orig);
  }

  /** Splitting `ts + "/" + orig` once, with no `"/"` in `ts`, cuts right after `ts`. */
  lemma SplitOnceAtFirst(ts: string, orig: string)
    requires !Contains(ts, "/")
    ensures SplitOnce(ts + "/" + orig, "/") == [ts, orig]
  {
    var s := ts + "/" + orig;
    assert OccursAt(s, "/", |ts|);
    var parts := SplitOnce(s, "/");
    assert |parts| == 2;
    SplitCutUnique(parts[0], parts[1], ts, orig);
  }

  /** Two ways of writing a string as `a + "/" + b` with no `"/"` in the first part agree. */
  lemma SplitCutUnique(a: string, b: string, c: string, d: string)
    requires !Contains(a, "/") && !Contains(c, "/")
    requires a + "/" + b == c + "/" + d
    ensures a == c && b == d
  {
    var s := a + "/" + b;
    if |a| < |c| {
      assert s[|a|] == '/';
      assert c[|a|] == s[|a|];
      assert OccursAt(c, "/", |a|);
    } else if |c| < |a| {
      assert s[|c|] == '/';
      assert a[|c|] == s[|c|];
      assert OccursAt(a, "/", |c|);
    } else {
      assert a == s[..|a|] == c;
      assert b == s[|a| + 1..] == d;
    }
  }

  /** `get_author`: the author text, or the author-name text when the first strips to nothing. */
  function GetAuthor(topic: Topic): string {
    var author := SafeStrip(topic.author);
    if author == "" then SafeStrip(topic.authorName) else author
  }

  /** The author name is stripped, and taken from the fallback selector only when the primary one is blank. */
  lemma GetAuthorSpec(topic: Topic)
    ensures SafeStrip(topic.author) != "" ==> GetAuthor(topic) == SafeStrip(topic.author)
    ensures SafeStrip(topic.author) == "" ==> GetAuthor(topic) == SafeStrip(topic.authorName)
    ensures SafeStrip(Some(GetAuthor(topic))) == GetAuthor(topic)
  {
    var a := GetAuthor(topic);
    StripByFixed(a, IsSpace);
  }

  /**
   * `get_num_messages_last_update`: the replies text, or the footer text
   * when it is blank, read by `safe_int` with 0 for anything else; the
   * update text, or the footer text when it is blank, stripped.
   */
  function GetNumMessagesLastUpdate(topic: Topic): (int, string) {
    var numMessages := SafeStrip(topic.replies);
    var numText := if numMessages != "" then Some(numMessages) else topic.footerComments;
    var lastUpdate := SafeStrip(topic.update);
    var lastText := if lastUpdate != "" then Some(lastUpdate) else topic.footerUpdate;
    (OrDefault(SafeInt(SafeStrip(numText)), 0), SafeStrip(lastText))
  }

  /**
   * The count is the value of the chosen text when that text is all digits
   * and 0 otherwise (so never negative); the fallback selectors are read only
   * when the primary text is blank.
   */
  lemma NumMessagesSpec(topic: Topic)
    ensures var primary := SafeStrip(topic.replies);
      var chosen := if primary != "" then primary else SafeStrip(topic.footerComments);
      && GetNumMessagesLastUpdate(topic).0 == (if IsDigits(chosen) then DigitsValue(chosen) else 0)
      && GetNumMessagesLastUpdate(topic).0 >= 0
    ensures var primary := SafeStrip(topic.update);
      GetNumMessagesLastUpdate(topic).1 == if primary != "" then primary else SafeStrip(topic.footerUpdate)
  {
    var n := SafeStrip(topic.replies);
    StripByFixed(n, IsSpace);
    var u := SafeStrip(topic.update);
    StripByFixed(u, IsSpace);
  }

  // ---------------------------------------------------------------- add_pref_to_keys

  /** The new name of a renamed key: `f"{pref}_{key}"`. */
  function PrefKey(pref: string, key: string): string {
    pref + "_" + key
  }

  /** Different keys get different new names. */
  lemma PrefKeyInjective(pref: string, a: string, b: string)
    ensures PrefKey(pref, a) == PrefKey(pref, b) <==> a == b
  {
    assert a == PrefKey(pref, a)[|pref| + 1..];
    assert b == PrefKey(pref, b)[|pref| + 1..];
  }

  /**
   * The loop of `add_pref_to_keys` on the items of `d`: each key in turn is
   * popped and its value set under the new name; a missing key raises
   * KeyError and leaves the renames already done in place.
   */
  function RenameKeys(d: Dict<string, Value>, keys: seq<string>, pref: string): (Dict<string, Value>, Option<PyError>)
    decreases |keys|
  {
    if keys == [] then (d, None)
    else match Pop(d, keys[0])
      case Err(e) => (d, Some(e))
      case Ok((v, rest)) => RenameKeys(Set(rest, PrefKey(pref, keys[0]), v), keys[1..], pref)
  }

  /** The keys to rename are distinct and no new name is itself one of them. */
  predicate Renamable(keys: seq<string>, pref: string) {
    && (forall i, j :: 0 <= i < j < |keys| ==> keys[i] != keys[j])
    && (forall i, j :: 0 <= i < |keys| && 0 <= j < |keys| ==> PrefKey(pref, keys[i]) != keys[j])
  }

  /** A key that is neither renamed nor a new name. */
  predicate Untouched(k: string, keys: seq<string>, pref: string) {
    forall i :: 0 <= i < |keys| ==> k != keys[i] && k != PrefKey(pref, keys[i])
  }

  /** Only KeyError can interrupt the renaming, and the first key missing stops it before any change. */
  lemma {:induction false} RenameKeysErrors(d: Dict<string, Value>, keys: seq<string>, pref: string)
    ensures RenameKeys(d, keys, pref).1 == None || RenameKeys(d, keys, pref).1 == Some(KeyError)
    ensures keys != [] && !HasKey(d, keys[0]) ==> RenameKeys(d, keys, pref) == (d, Some(KeyError))
    decreases |keys|
  {
    if keys != [] {
      match Pop(d, keys[0])
      case Err(e) =>
      case Ok((v, rest)) =>
        RenameKeysErrors(Set(rest, PrefKey(pref, keys[0]), v), keys[1..], pref);
    }
  }

  /** One rename: the key's value moves to its new name and every other key is left alone. */
  lemma RenameOne(d: Dict<string, Value>, key: string, pref: string)
    requires DistinctKeys(d) && HasKey(d, key) && PrefKey(pref, key) != key
    ensures Pop(d, key).Ok?
    ensures var d' := Set(Pop(d, key).value.1, PrefKey(pref, key), Pop(d, key).value.0);
      && DistinctKeys(d')
      && Get(d', PrefKey(pref, key)) == Get(d, key)
      && !HasKey(d', key)
      && forall k :: k != key && k != PrefKey(pref, key) ==> Get(d', k) == Get(d, k)
  {
    PopSpec(d, key);
    var (v, rest) := Pop(d, key).value;
    var d' := Set(rest, PrefKey(pref, key), v);
    GetSetSame(rest, PrefKey(pref, key), v);
    GetSetOther(rest, PrefKey(pref, key), v, key);
    forall k | k != key && k != PrefKey(pref, key) ensures Get(d', k) == Get(d, k) {
      GetSetOther(rest, PrefKey(pref, key), v, k);
    }
  }

  /**
   * With distinct keys none of which is a new name: the renaming succeeds
   * exactly when every key is present, and then each key's value is found
   * under its new name only, and every other key keeps its value.
   */
  lemma {:induction false} RenameKeysSpec(d: Dict<string, Value>, keys: seq<string>, pref: string)
    requires DistinctKeys(d) && Renamable(keys, pref)
    ensures RenameKeys(d, keys, pref).1 == None <==> forall i :: 0 <= i < |keys| ==> HasKey(d, keys[i])
    ensures RenameKeys(d, keys, pref).1 == None ==>
      && DistinctKeys(RenameKeys(d, keys, pref).0)
      && (forall i :: 0 <= i < |keys| ==>
            Get(RenameKeys(d, keys, pref).0, PrefKey(pref, keys[i])) == Get(d, keys[i])
            && !HasKey(RenameKeys(d, keys, pref).0, keys[i]))
      && (forall k :: Untouched(k, keys, pref) ==> Get(RenameKeys(d, keys, pref).0, k) == Get(d, k))
    decreases |keys|
  {
    if keys != [] {
      var key := keys[0];
      var rest := keys[1..];
      assert Renamable(rest, pref) by {
        assert forall i :: 0 <= i < |rest| ==> rest[i] == keys[i + 1];
      }
      if !HasKey(d, key) {
        RenameKeysErrors(d, keys, pref);
      } else {
        assert PrefKey(pref, keys[0]) != keys[0];
        RenameOne(d, key, pref);
        var d' := Set(Pop(d, key).value.1, PrefKey(pref, key), Pop(d, key).value.0);
        assert RenameKeys(d, keys, pref) == RenameKeys(d', rest, pref);
        RenameKeysSpec(d', rest, pref);
        RenameKeysRestPresent(d, d', keys, pref);
        if RenameKeys(d', rest, pref).1 == None {
          var r := RenameKeys(d', rest, pref).0;
          RenameKeysRestMoved(d, d', r, keys, pref);
          RenameKeysRestUntouched(d, d', r, keys, pref);
        }
      }
    }
  }

  /** The step of `RenameKeysSpec`: the rest of the keys are present after the first rename exactly when they were before. */
  lemma RenameKeysRestPresent(d: Dict<string, Value>, d': Dict<string, Value>, keys: seq<string>, pref: string)
    requires keys != [] && Renamable(keys, pref) && HasKey(d, keys[0])
    requires forall k :: k != keys[0] && k != PrefKey(pref, keys[0]) ==> Get(d', k) == Get(d, k)
    ensures (forall i :: 0 <= i < |keys[1..]| ==> HasKey(d', keys[1..][i])) <==> forall i :: 0 <= i < |keys| ==> HasKey(d, keys[i])
  {
    var rest := keys[1..];
    assert forall i :: 1 <= i < |keys| ==> keys[i] == rest[i - 1];
    forall i | 0 <= i < |rest| ensures HasKey(d', rest[i]) <==> HasKey(d, rest[i]) {
      assert rest[i] != keys[0] && rest[i] != PrefKey(pref, keys[0]);
      assert Get(d', rest[i]) == Get(d, rest[i]);
    }
  }

  /** The step of `RenameKeysSpec`: the first key's new name and the first key itself are not touched by the later renames. */
  lemma RenameKeysRestFirst(keys: seq<string>, pref: string)
    requires keys != [] && Renamable(keys, pref)
    ensures Untouched(PrefKey(pref, keys[0]), keys[1..], pref) && Untouched(keys[0], keys[1..], pref)
  {
    var rest := keys[1..];
    forall j | 0 <= j < |rest|
      ensures PrefKey(pref, keys[0]) != rest[j] && PrefKey(pref, keys[0]) != PrefKey(pref, rest[j])
      ensures keys[0] != rest[j] && keys[0] != PrefKey(pref, rest[j])
    {
      assert rest[j] == keys[j + 1];
      PrefKeyInjective(pref, keys[0], rest[j]);
    }
  }

  /** The step of `RenameKeysSpec`: after all renames, each key's value is under its new name only. */
  lemma RenameKeysRestMoved(d: Dict<string, Value>, d': Dict<string, Value>, r: Dict<string, Value>, keys: seq<string>, pref: string)
    requires keys != [] && Renamable(keys, pref)
    requires Get(d', PrefKey(pref, keys[0])) == Get(d, keys[0]) && !HasKey(d', keys[0])
    requires forall k :: k != keys[0] && k != PrefKey(pref, keys[0]) ==> Get(d', k) == Get(d, k)
    requires forall i :: 0 <= i < |keys[1..]| ==>
      Get(r, PrefKey(pref, keys[1..][i])) == Get(d', keys[1..][i]) && !HasKey(r, keys[1..][i])
    requires forall k :: Untouched(k, keys[1..], pref) ==> Get(r, k) == Get(d', k)
    ensures forall i :: 0 <= i < |keys| ==> Get(r, PrefKey(pref, keys[i])) == Get(d, keys[i]) && !HasKey(r, keys[i])
  {
    var rest := keys[1..];
    RenameKeysRestFirst(keys, pref);
    forall i | 0 <= i < |keys|
      ensures Get(r, PrefKey(pref, keys[i])) == Get(d, keys[i]) && !HasKey(r, keys[i])
    {
      if i > 0 {
        assert keys[i] == rest[i - 1];
        assert keys[i] != keys[0] && keys[i] != PrefKey(pref, keys[0]);
      }
    }
  }

  /** The step of `RenameKeysSpec`: a key no rename touches keeps its value. */
  lemma RenameKeysRestUntouched(d: Dict<string, Value>, d': Dict<string, Value>, r: Dict<string, Value>, keys: seq<string>, pref: string)
    requires keys != []
    requires forall k :: k != keys[0] && k != PrefKey(pref, keys[0]) ==> Get(d', k) == Get(d, k)
    requires forall k :: Untouched(k, keys[1..], pref) ==> Get(r, k) == Get(d', k)
    ensures forall k :: Untouched(k, keys, pref) ==> Get(r, k) == Get(d, k)
  {
    var rest := keys[1..];
    forall k | Untouched(k, keys, pref) ensures Get(r, k) == Get(d, k) {
      assert Untouched(k, rest, pref) by {
        forall j | 0 <= j < |rest| ensures k != rest[j] && k != PrefKey(pref, rest[j]) {
          assert rest[j] == keys[j + 1];
        }
      }
      assert k != keys[0] && k != PrefKey(pref, keys[0]);
    }
  }

  /** A mutable dict, as the spiders pass their descriptors around. */
  class MetaDict {
    var items: Dict<string, Value>

    constructor(items: Dict<string, Value>)
      ensures this.items == items
    {
      this.items := items;
    }

    /**
     * `add_pref_to_keys(d, keys, pref)`, in place: every key of `keys`
     * (all keys of the dict when `keys` is `None`) renamed to
     * `pref_key`; `err` is the KeyError it raises at a missing key.
     */
    method AddPrefToKeys(keys: Option<seq<string>>, pref: string) returns (err: Option<PyError>)
      modifies this
      ensures (items, err) == RenameKeys(old(items), if keys.None? then Keys(old(items)) else keys.value, pref)
    {
      var ks := if keys.None? then Keys(items) else keys.value;
      ghost var goal := RenameKeys(items, ks, pref);
      for i := 0 to |ks|
        invariant RenameKeys(items, ks[i..], pref) == goal
      {
        var key := ks[i];
        assert ks[i..][0] == key && ks[i..][1..] == ks[i + 1..];
        match Pop(items, key)
        case Err(e) =>
          return Some(e);
        case Ok((origVal, rest)) =>
          items := Set(rest, PrefKey(pref, key), origVal);
      }
      assert ks[|ks|..] == [];
      return None;
    }
  }

  // ---------------------------------------------------------------- records

  /** The record's name for a descriptor key: `forum_` put in front unless it starts with "forum". */
  function ForumKey(key: string): string {
    if StartsWith(key, "forum") then key else "forum_" + key
  }

  /** Every record key taken from the descriptor starts with "forum", and a key that already does is kept. */
  lemma ForumKeySpec(key: string)
    ensures StartsWith(ForumKey(key), "forum")
    ensures StartsWith(key, "forum") <==> ForumKey(key) == key
  {
    if !StartsWith(key, "forum") {
      assert ("forum_" + key)[..5] == "forum";
    }
  }

  /** The descriptor's items under their record names, in order. */
  function ForumItems(meta: Dict<string, Value>): (r: Dict<string, Value>)
    ensures |r| == |meta|
    ensures forall i :: 0 <= i < |meta| ==> r[i] == (ForumKey(meta[i].0), meta[i].1)
  {
    seq(|meta|, i requires 0 <= i < |meta| => (ForumKey(meta[i].0), meta[i].1))
  }

  /** `{(f"forum_{key}" if not key.startswith("forum") else key): val for key, val in meta.items()}` */
  function PrefixForumKeys(meta: Dict<string, Value>): Dict<string, Value> {
    Update([], ForumItems(meta))
  }

  /** No two descriptor keys get the same record name. */
  predicate ForumKeysDistinct(meta: Dict<string, Value>) {
    forall i, j :: 0 <= i < j < |meta| ==> ForumKey(meta[i].0) != ForumKey(meta[j].0)
  }

  /** The six fields read from the topic itself. */
  function TopicFields(domain: string, title: string, fullUrl: string, origUrl: string,
                       author: Value, numMessages: int, lastUpdate: Value): Dict<string, Value> {
    [("topic_title", VStr(title)), ("topic_url", VStr(domain + fullUrl)), ("topic_orig_url", VStr(origUrl)),
     ("topic_author", author), ("topic_num_messages", VInt(numMessages)), ("topic_last_update", lastUpdate)]
  }

  /** The record `parse` yields: the topic's fields, then the descriptor under its record names. */
  function TopicRecord(domain: string, title: string, fullUrl: string, origUrl: string,
                       author: Value, numMessages: int, lastUpdate: Value,
                       meta: Dict<string, Value>): Dict<string, Value> {
    Update(TopicFields(domain, title, fullUrl, origUrl, author, numMessages, lastUpdate), PrefixForumKeys(meta))
  }

  /** The six field names are distinct and none starts with 'f'. */
  lemma TopicFieldsKeys(domain: string, title: string, fullUrl: string, origUrl: string,
                        author: Value, numMessages: int, lastUpdate: Value)
    ensures var f := TopicFields(domain, title, fullUrl, origUrl, author, numMessages, lastUpdate);
      && DistinctKeys(f)
      && (forall i :: 0 <= i < |f| ==> |f[i].0| > 0 && f[i].0[0] == 't')
  {
    var f := TopicFields(domain, title, fullUrl, origUrl, author, numMessages, lastUpdate);
    assert forall i :: 0 <= i < |f| ==> |f[i].0| > 6;
    assert f[0].0[6] == 't' && f[1].0[6] == 'u' && f[2].0[6] == 'o';
    assert f[3].0[6] == 'a' && f[4].0[6] == 'n' && f[5].0[6] == 'l';
  }

  /** Each field reads back from the six. */
  lemma TopicFieldsGet(domain: string, title: string, fullUrl: string, origUrl: string,
                       author: Value, numMessages: int, lastUpdate: Value)
    ensures var f := TopicFields(domain, title, fullUrl, origUrl, author, numMessages, lastUpdate);
      && Get(f, "topic_title") == Some(VStr(title))
      && Get(f, "topic_url") == Some(VStr(domain + fullUrl))
      && Get(f, "topic_orig_url") == Some(VStr(origUrl))
      && Get(f, "topic_author") == Some(author)
      && Get(f, "topic_num_messages") == Some(VInt(numMessages))
      && Get(f, "topic_last_update") == Some(lastUpdate)
  {
    var f := TopicFields(domain, title, fullUrl, origUrl, author, numMessages, lastUpdate);
    TopicFieldsKeys(domain, title, fullUrl, origUrl, author, numMessages, lastUpdate);
    GetAt(f, 0);
    GetAt(f, 1);
    GetAt(f, 2);
    GetAt(f, 3);
    GetAt(f, 4);
    GetAt(f, 5);
  }

  /** A record name taken from the descriptor starts with 'f', so it is never one of the `topic_` fields. */
  lemma ForumKeyHead(key: string)
    ensures |ForumKey(key)| >= 5 && ForumKey(key)[0] == 'f'
  {
    ForumKeySpec(key);
  }

  /** The renamed descriptor items are appended after the fields, keys distinct. */
  lemma TopicRecordItems(f: Dict<string, Value>, meta: Dict<string, Value>)
    requires DistinctKeys(f) && forall i :: 0 <= i < |f| ==> |f[i].0| > 0 && f[i].0[0] == 't'
    requires ForumKeysDistinct(meta)
    ensures DistinctKeys(ForumItems(meta)) && PrefixForumKeys(meta) == ForumItems(meta)
    ensures forall key :: |key| > 0 && key[0] == 't' ==> Get(Update(f, ForumItems(meta)), key) == Get(f, key)
    ensures forall i :: 0 <= i < |meta| ==> Get(Update(f, ForumItems(meta)), ForumKey(meta[i].0)) == Some(meta[i].1)
  {
    var p := ForumItems(meta);
    UpdateFresh([], p);
    forall key | |key| > 0 && key[0] == 't' ensures Get(Update(f, p), key) == Get(f, key) {
      GetUpdate(f, p, key);
      forall j | 0 <= j < |p| ensures p[j].0 != key {
        ForumKeyHead(meta[j].0);
      }
    }
    forall i | 0 <= i < |meta| ensures Get(Update(f, p), ForumKey(meta[i].0)) == Some(meta[i].1) {
      GetUpdate(f, p, p[i].0);
      GetAt(p, i);
    }
  }

  /**
   * The record holds the topic's six fields under their `topic_` names and,
   * when no two descriptor keys share a record name, each descriptor value
   * under its key's record name.
   */
  lemma TopicRecordSpec(domain: string, title: string, fullUrl: string, origUrl: string,
                        author: Value, numMessages: int, lastUpdate: Value,
                        meta: Dict<string, Value>)
    requires ForumKeysDistinct(meta)
    ensures var r := TopicRecord(domain, title, fullUrl, origUrl, author, numMessages, lastUpdate, meta);
      && DistinctKeys(r)
      && Get(r, "topic_title") == Some(VStr(title))
      && Get(r, "topic_url") == Some(VStr(domain + fullUrl))
      && Get(r, "topic_orig_url") == Some(VStr(origUrl))
      && Get(r, "topic_author") == Some(author)
      && Get(r, "topic_num_messages") == Some(VInt(numMessages))
      && Get(r, "topic_last_update") == Some(lastUpdate)
      && forall i :: 0 <= i < |meta| ==> Get(r, ForumKey(meta[i].0)) == Some(meta[i].1)
  {
    var f := TopicFields(domain, title, fullUrl, origUrl, author, numMessages, lastUpdate);
    TopicFieldsKeys(domain, title, fullUrl, origUrl, author, numMessages, lastUpdate);
    TopicFieldsGet(domain, title, fullUrl, origUrl, author, numMessages, lastUpdate);
    TopicRecordItems(f, meta);
    GetUpdate(f, ForumItems(meta), "");
    assert "topic_title"[0] == 't' && "topic_url"[0] == 't' && "topic_orig_url"[0] == 't';
    assert "topic_author"[0] == 't' && "topic_num_messages"[0] == 't' && "topic_last_update"[0] == 't';
  }

  // ---------------------------------------------------------------- parse

  /** `get_real_info` once the snapshot date is read: the response URL and that date. */
  function RealMeta(realUrl: string, ts: Option<DateTime>): Dict<string, Value> {
    [("real_url", VStr(realUrl)), ("real_timestamp", if ts.Some? then VTime(ts.value) else VNone)]
  }

  /** The `topic_last_update` value: blank text gives `None`, anything else goes through `convert_customary_to_datetime`. */
  function LastUpdate(text: string, today: Option<DateTime>): (r: Result<Value>)
    ensures text == "" ==> r == Ok(VNone)
    ensures text != "" && ConvertCustomary(text, today).Err? ==> r == Err(ConvertCustomary(text, today).error)
    ensures text != "" && ConvertCustomary(text, today).Ok? ==>
      r.Ok? && r.value == match ConvertCustomary(text, today).value
        case At(t) => VTime(t)
        case Unparsed(u) => VStr(u)
  {
    if text == "" then Ok(VNone)
    else
      var parsed :- ConvertCustomary(text, today);
      match parsed
      case At(t) => Ok(VTime(t))
      case Unparsed(u) => Ok(VStr(u))
  }

  /** `safe_strip(get_author(topic)) or None` */
  function AuthorValue(topic: Topic): (r: Value)
    ensures GetAuthor(topic) == "" ==> r == VNone
    ensures GetAuthor(topic) != "" ==> r == VStr(GetAuthor(topic))
  {
    GetAuthorSpec(topic);
    var author := SafeStrip(Some(GetAuthor(topic)));
    if author == "" then VNone else VStr(author)
  }

  /** The record of one topic under the descriptor `meta`, the page's snapshot date being `today`. */
  function TopicItem(domain: string, today: Option<DateTime>, meta: Dict<string, Value>, topic: Topic): Result<Dict<string, Value>> {
    var title :- GetTitle(topic);
    var counts := GetNumMessagesLastUpdate(topic);
    var lastUpdate :- LastUpdate(counts.1, today);
    Ok(TopicRecord(domain, title.0, title.1, title.2, AuthorValue(topic), counts.0, lastUpdate, meta))
  }

  /**
   * One pass of the loop of `parse`: the page's real URL and snapshot date
   * are merged into the descriptor, then the topic is read; the result
   * holds the merged descriptor and the record.
   */
  function ParseTopic(domain: string, realUrl: string, meta: Dict<string, Value>, topic: Topic): Result<(Dict<string, Value>, Dict<string, Value>)> {
    var ts :- ExtractWebarchiveDate(realUrl);
    var meta' := Update(meta, RealMeta(realUrl, ts));
    var record :- TopicItem(domain, ts, meta', topic);
    Ok((meta', record))
  }

  /** The records `parse` yields for the topics of a page, and the exception that stops it, if any. */
  function ParseTopics(domain: string, realUrl: string, meta: Dict<string, Value>, topics: seq<Topic>): (seq<Dict<string, Value>>, Option<PyError>) {
    Generate((m, topic) => ParseTopic(domain, realUrl, m, topic), meta, topics)
  }

  /** A key already holding its value: setting it again changes nothing. */
  lemma SetPresent<K, V>(d: Dict<K, V>, k: K, v: V)
    requires Get(d, k) == Some(v)
    ensures Set(d, k, v) == d
  {
    GetByScan(d, k);
  }

  /** Merging items the dict already holds changes nothing. */
  lemma {:induction false} UpdatePresent<K, V>(d: Dict<K, V>, e: Dict<K, V>)
    requires forall i :: 0 <= i < |e| ==> Get(d, e[i].0) == Some(e[i].1)
    ensures Update(d, e) == d
    decreases |e|
  {
    if e != [] {
      SetPresent(d, e[0].0, e[0].1);
      assert forall i :: 0 <= i < |e[1..]| ==> e[1..][i] == e[i + 1];
      UpdatePresent(d, e[1..]);
    }
  }

  /** After the first merge the descriptor has the page's real URL and date, so merging them again changes nothing. */
  lemma RealMetaMerged(meta: Dict<string, Value>, realUrl: string, ts: Option<DateTime>)
    requires DistinctKeys(meta)
    ensures var m := Update(meta, RealMeta(realUrl, ts));
      && DistinctKeys(m)
      && Get(m, "real_url") == Some(VStr(realUrl))
      && Get(m, "real_timestamp") == Some(if ts.Some? then VTime(ts.value) else VNone)
      && Update(m, RealMeta(realUrl, ts)) == m
  {
    var e := RealMeta(realUrl, ts);
    var m := Update(meta, e);
    assert "real_url"[5] != "real_timestamp"[5];
    assert DistinctKeys(e);
    GetAt(e, 0);
    GetAt(e, 1);
    GetUpdate(meta, e, "real_url");
    GetUpdate(meta, e, "real_timestamp");
    UpdatePresent(m, e);
  }

  /** Starting from the descriptor or from the merged one makes no difference: the first pass merges. */
  lemma ParseFromMerged(domain: string, realUrl: string, meta: Dict<string, Value>, topics: seq<Topic>, ts: Option<DateTime>)
    requires DistinctKeys(meta) && ExtractWebarchiveDate(realUrl) == Ok(ts)
    ensures ParseTopics(domain, realUrl, meta, topics) == ParseTopics(domain, realUrl, Update(meta, RealMeta(realUrl, ts)), topics)
  {
    RealMetaMerged(meta, realUrl, ts);
  }

  /** Under the merged descriptor a pass keeps it, and its record is the topic's item. */
  lemma ParseUnderMerged(domain: string, realUrl: string, merged: Dict<string, Value>, ts: Option<DateTime>, topic: Topic)
    requires ExtractWebarchiveDate(realUrl) == Ok(ts) && Update(merged, RealMeta(realUrl, ts)) == merged
    ensures TopicItem(domain, ts, merged, topic).Ok? ==> ParseTopic(domain, realUrl, merged, topic) == Ok((merged, TopicItem(domain, ts, merged, topic).value))
    ensures TopicItem(domain, ts, merged, topic).Err? ==> ParseTopic(domain, realUrl, merged, topic) == Err(TopicItem(domain, ts, merged, topic).error)
  {
  }

  /**
   * `parse` yields the records of the page's topics in order, every one of
   * them built from the same merged descriptor, and stops at the first topic
   * that raises; an unreadable snapshot date in the page URL raises before
   * any record (when there is a topic at all).
   */
  lemma ParseTopicsSpec(domain: string, realUrl: string, meta: Dict<string, Value>, topics: seq<Topic>, ts: Option<DateTime>)
    requires DistinctKeys(meta)
    ensures ExtractWebarchiveDate(realUrl).Err? && topics != [] ==>
      ParseTopics(domain, realUrl, meta, topics) == ([], Some(ExtractWebarchiveDate(realUrl).error))
    ensures ExtractWebarchiveDate(realUrl) == Ok(ts) ==>
      var merged := Update(meta, RealMeta(realUrl, ts));
      && |ParseTopics(domain, realUrl, meta, topics).0| <= |topics|
      && (forall i :: 0 <= i < |ParseTopics(domain, realUrl, meta, topics).0| ==>
            TopicItem(domain, ts, merged, topics[i]) == Ok(ParseTopics(domain, realUrl, meta, topics).0[i]))
      && (ParseTopics(domain, realUrl, meta, topics).1.None? <==> |ParseTopics(domain, realUrl, meta, topics).0| == |topics|)
      && (ParseTopics(domain, realUrl, meta, topics).1.Some? ==>
            TopicItem(domain, ts, merged, topics[|ParseTopics(domain, realUrl, meta, topics).0|])
              == Err(ParseTopics(domain, realUrl, meta, topics).1.value))
  {
    var step := (m, topic) => ParseTopic(domain, realUrl, m, topic);
    if ExtractWebarchiveDate(realUrl) == Ok(ts) {
      var merged := Update(meta, RealMeta(realUrl, ts));
      RealMetaMerged(meta, realUrl, ts);
      ParseFromMerged(domain, realUrl, meta, topics, ts);
      forall t ensures step(merged, t).Ok? ==> step(merged, t).value.0 == merged {
        ParseUnderMerged(domain, realUrl, merged, ts, t);
      }
      GenerateSteady(step, merged, topics);
      var out := Generate(step, merged, topics);
      forall i | 0 <= i < |out.0| ensures TopicItem(domain, ts, merged, topics[i]) == Ok(out.0[i]) {
        ParseUnderMerged(domain, realUrl, merged, ts, topics[i]);
      }
      if out.1.Some? {
        ParseUnderMerged(domain, realUrl, merged, ts, topics[|out.0|]);
      }
    }
  }


  // ---------------------------------------------------------------- start_requests

  /** A scheduled request: the URL to fetch and the keyword arguments its callback receives. */
  datatype Request = Request(url: string, cbKwargs: Dict<string, Value>)

  /** The keys `start_requests` renames with the `orig` prefix. */
  const RENAMED: seq<string> := ["url", "timestamp"]

  /** What one forum descriptor contributes: a request or none, the page counters after it, and what it raised. */
  datatype Start = Start(request: Option<Request>, pages: Dict<Value, int>, error: Option<PyError>)

  /**
   * One pass of the loop of `start_requests`: an unavailable forum is
   * skipped; an available one has `url` and `timestamp` renamed to
   * `orig_url` and `orig_timestamp`, its page counter set to 0, and a
   * request to its original URL scheduled with the descriptor as the
   * callback's arguments. The counter is set before the URL is read.
   */
  function StartOne(meta: Dict<string, Value>, pages: Dict<Value, int>): Start {
    match Lookup(meta, "available")
    case Err(e) => Start(None, pages, Some(e))
    case Ok(available) =>
      if !Truthy(available) then Start(None, pages, None)
      else
        var renamed := RenameKeys(meta, RENAMED, "orig");
        if renamed.1.Some? then Start(None, pages, renamed.1)
        else match Lookup(renamed.0, "forum_name")
          case Err(e) => Start(None, pages, Some(e))
          case Ok(name) =>
            var pages' := Set(pages, name, 0);
            match Lookup(renamed.0, "orig_url")
            case Err(e) => Start(None, pages', Some(e))
            case Ok(url) =>
              if url.VStr? then Start(Some(Request(url.s, renamed.0)), pages', None)
              else Start(None, pages', Some(TypeError))
  }

  /** The requests `start_requests` yields for the descriptors in order, the counters after them, and the exception that stops it. */
  function StartAll(metas: seq<Dict<string, Value>>, pages: Dict<Value, int>): (seq<Request>, Dict<Value, int>, Option<PyError>)
    decreases |metas|
  {
    if metas == [] then ([], pages, None)
    else
      var one := StartOne(metas[0], pages);
      if one.error.Some? then ([], one.pages, one.error)
      else
        var rest := StartAll(metas[1..], one.pages);
        ((if one.request.Some? then [one.request.value] else []) + rest.0, rest.1, rest.2)
  }

  /** A descriptor that raises ends the requests there, with the counters as it left them. */
  lemma StartAllStops(done: seq<Request>, metas: seq<Dict<string, Value>>, pages: Dict<Value, int>)
    requires metas != [] && StartOne(metas[0], pages).error.Some?
    ensures done + StartAll(metas, pages).0 == done
    ensures StartAll(metas, pages).1 == StartOne(metas[0], pages).pages
    ensures StartAll(metas, pages).2 == StartOne(metas[0], pages).error
  {
    assert done + [] == done;
  }

  /** A descriptor that raises nothing adds its request, if any, and the rest follow from its counters. */
  lemma StartAllGoesOn(done: seq<Request>, metas: seq<Dict<string, Value>>, pages: Dict<Value, int>,
                       request: Option<Request>, pages': Dict<Value, int>)
    requires metas != [] && StartOne(metas[0], pages) == Start(request, pages', None)
    ensures (done + if request.Some? then [request.value] else []) + StartAll(metas[1..], pages').0 == done + StartAll(metas, pages).0
    ensures StartAll(metas[1..], pages').1 == StartAll(metas, pages).1
    ensures StartAll(metas[1..], pages').2 == StartAll(metas, pages).2
  {
    var rest := StartAll(metas[1..], pages').0;
    if request.Some? {
      ConcatAssoc(done, [request.value], rest);
    } else {
      assert done + [] == done;
      assert [] + rest == rest;
    }
  }

  /** A forum the descriptor marks available. */
  predicate Available(meta: Dict<string, Value>) {
    Get(meta, "available").Some? && Truthy(Get(meta, "available").value)
  }

  /** What a request made from the descriptor `meta` carries. */
  predicate RequestOf(r: Request, meta: Dict<string, Value>) {
    && Available(meta)
    && Get(meta, "url") == Some(VStr(r.url))
    && DistinctKeys(r.cbKwargs)
    && Get(r.cbKwargs, "orig_url") == Some(VStr(r.url))
    && Get(r.cbKwargs, "orig_timestamp") == Get(meta, "timestamp")
    && !HasKey(r.cbKwargs, "url") && !HasKey(r.cbKwargs, "timestamp")
    && Get(r.cbKwargs, "available") == Get(meta, "available")
    && Get(r.cbKwargs, "forum_name") == Get(meta, "forum_name")
    && HasKey(meta, "forum_name")
  }

  /** All page counters are 0. */
  predicate AllZero(pages: Dict<Value, int>) {
    forall i :: 0 <= i < |pages| ==> pages[i].1 == 0
  }

  /** The two renamed keys qualify for `RenameKeysSpec`, and `available` and `forum_name` are left alone. */
  lemma RenamedKeys()
    ensures Renamable(RENAMED, "orig")
    ensures Untouched("available", RENAMED, "orig") && Untouched("forum_name", RENAMED, "orig")
    ensures RENAMED[0] == "url" && RENAMED[1] == "timestamp" && |RENAMED| == 2
    ensures PrefKey("orig", "url") == "orig_url" && PrefKey("orig", "timestamp") == "orig_timestamp"
  {
    assert "url"[0] != "timestamp"[0];
    assert forall i :: 0 <= i < 2 ==> PrefKey("orig", RENAMED[i])[0] == 'o';
    assert "available"[0] == 'a' && "forum_name"[0] == 'f';
  }

  /** Setting a counter to 0 keeps every counter 0 and every forum already counted. */
  lemma SetZero(pages: Dict<Value, int>, name: Value)
    ensures AllZero(pages) ==> AllZero(Set(pages, name, 0))
    ensures HasKey(Set(pages, name, 0), name)
    ensures forall k :: HasKey(pages, k) ==> HasKey(Set(pages, name, 0), k)
  {
    var r := Set(pages, name, 0);
    match IndexOf(pages, name)
    case None =>
      assert r[|pages|].0 == name;
      assert forall i :: 0 <= i < |pages| ==> r[i] == pages[i];
    case Some(j) =>
      assert r[j].0 == name;
      assert forall i :: 0 <= i < |pages| ==> r[i].0 == pages[i].0;
  }

  /**
   * One descriptor: a missing `available` is a KeyError and an unavailable
   * forum is skipped, both before anything changes. An available forum
   * raises exactly when `url`, `timestamp` or `forum_name` is missing
   * (KeyError) or the URL is not a string (TypeError), and otherwise is
   * scheduled: its request goes to the descriptor's URL, carries the renamed
   * descriptor, and the forum's counter is 0.
   */
  lemma StartOneSpec(meta: Dict<string, Value>, pages: Dict<Value, int>)
    requires DistinctKeys(meta)
    ensures !HasKey(meta, "available") ==> StartOne(meta, pages) == Start(None, pages, Some(KeyError))
    ensures HasKey(meta, "available") && !Available(meta) ==> StartOne(meta, pages) == Start(None, pages, None)
    ensures Available(meta) ==>
      (StartOne(meta, pages).error.None? <==>
        HasKey(meta, "url") && HasKey(meta, "timestamp") && HasKey(meta, "forum_name") && Get(meta, "url").value.VStr?)
    ensures Available(meta) && StartOne(meta, pages).error.Some? ==>
      StartOne(meta, pages).error == Some(if HasKey(meta, "url") && HasKey(meta, "timestamp") && HasKey(meta, "forum_name") then TypeError else KeyError)
    ensures StartOne(meta, pages).error.None? ==> (StartOne(meta, pages).request.Some? <==> Available(meta))
    ensures StartOne(meta, pages).request.Some? ==>
      RequestOf(StartOne(meta, pages).request.value, meta)
      && HasKey(StartOne(meta, pages).pages, Get(meta, "forum_name").value)
    ensures AllZero(pages) ==> AllZero(StartOne(meta, pages).pages)
    ensures forall k :: HasKey(pages, k) ==> HasKey(StartOne(meta, pages).pages, k)
  {
    if Available(meta) {
      RenamedKeys();
      RenameKeysSpec(meta, RENAMED, "orig");
      var renamed := RenameKeys(meta, RENAMED, "orig");
      if renamed.1.None? {
        assert Get(renamed.0, "forum_name") == Get(meta, "forum_name");
        assert Get(renamed.0, "orig_url") == Get(meta, "url");
        if HasKey(meta, "forum_name") {
          SetZero(pages, Get(meta, "forum_name").value);
        }
      } else {
        RenameKeysErrors(meta, RENAMED, "orig");
      }
    }
  }

  /** The number of descriptors marked available. */
  function CountAvailable(metas: seq<Dict<string, Value>>): nat
    decreases |metas|
  {
    if metas == [] then 0 else (if Available(metas[0]) then 1 else 0) + CountAvailable(metas[1..])
  }

  /** When nothing raises, one request is yielded per available forum; never more requests than descriptors. */
  lemma {:induction false} StartAllCount(metas: seq<Dict<string, Value>>, pages: Dict<Value, int>)
    requires forall i :: 0 <= i < |metas| ==> DistinctKeys(metas[i])
    ensures |StartAll(metas, pages).0| <= |metas|
    ensures StartAll(metas, pages).2.None? ==> |StartAll(metas, pages).0| == CountAvailable(metas)
    decreases |metas|
  {
    if metas != [] {
      var one := StartOne(metas[0], pages);
      StartOneSpec(metas[0], pages);
      if one.error.None? {
        var tail := metas[1..];
        assert forall i :: 0 <= i < |tail| ==> tail[i] == metas[i + 1];
        StartAllCount(tail, one.pages);
      }
    }
  }

  /** The counters stay all 0 when they start so, and no forum's counter is dropped. */
  lemma {:induction false} StartAllPages(metas: seq<Dict<string, Value>>, pages: Dict<Value, int>)
    requires forall i :: 0 <= i < |metas| ==> DistinctKeys(metas[i])
    ensures forall n :: HasKey(pages, n) ==> HasKey(StartAll(metas, pages).1, n)
    ensures AllZero(pages) ==> AllZero(StartAll(metas, pages).1)
    decreases |metas|
  {
    if metas != [] {
      var one := StartOne(metas[0], pages);
      StartOneSpec(metas[0], pages);
      if one.error.None? {
        var tail := metas[1..];
        assert forall i :: 0 <= i < |tail| ==> tail[i] == metas[i + 1];
        StartAllPages(tail, one.pages);
      }
    }
  }

  /** A request of one descriptor is made from it, and its forum has a counter. */
  lemma StartOneRequest(meta: Dict<string, Value>, pages: Dict<Value, int>)
    requires DistinctKeys(meta)
    ensures StartOne(meta, pages).request.Some? ==>
      && RequestOf(StartOne(meta, pages).request.value, meta)
      && Get(StartOne(meta, pages).request.value.cbKwargs, "forum_name").Some?
      && HasKey(StartOne(meta, pages).pages, Get(StartOne(meta, pages).request.value.cbKwargs, "forum_name").value)
  {
    StartOneSpec(meta, pages);
  }

  /** The request was made from one of the descriptors. */
  predicate FromSome(r: Request, metas: seq<Dict<string, Value>>) {
    exists i :: 0 <= i < |metas| && RequestOf(r, metas[i])
  }

  /** Every request `start_requests` yields was made from one of the descriptors. */
  lemma {:induction false} StartAllRequests(metas: seq<Dict<string, Value>>, pages: Dict<Value, int>)
    requires forall i :: 0 <= i < |metas| ==> DistinctKeys(metas[i])
    ensures forall k :: 0 <= k < |StartAll(metas, pages).0| ==> FromSome(StartAll(metas, pages).0[k], metas)
    decreases |metas|
  {
    if metas == [] {
      assert |StartAll(metas, pages).0| == 0;
    } else if StartOne(metas[0], pages).error.Some? {
      assert |StartAll(metas, pages).0| == 0;
    } else {
      var one := StartOne(metas[0], pages);
      var tail := metas[1..];
      assert forall i :: 0 <= i < |tail| ==> tail[i] == metas[i + 1];
      StartAllRequests(tail, one.pages);
      StartAllFirst(metas, pages);
      StartOneRequest(metas[0], pages);
      FromSomeCons(one.request, StartAll(tail, one.pages).0, StartAll(metas, pages).0, metas);
    }
  }

  /** A request made from the first descriptor, followed by requests made from the later ones, all come from the descriptors. */
  lemma FromSomeCons(first: Option<Request>, rest: seq<Request>, all: seq<Request>, metas: seq<Dict<string, Value>>)
    requires metas != [] && all == (if first.Some? then [first.value] else []) + rest
    requires first.Some? ==> RequestOf(first.value, metas[0])
    requires forall k :: 0 <= k < |rest| ==> FromSome(rest[k], metas[1..])
    ensures forall k :: 0 <= k < |all| ==> FromSome(all[k], metas)
  {
    forall k | 0 <= k < |all| ensures FromSome(all[k], metas) {
      if first.None? || k > 0 {
        var j := if first.None? then k else k - 1;
        assert all[k] == rest[j];
        assert FromSome(rest[j], metas[1..]);
        var i :| 0 <= i < |metas[1..]| && RequestOf(rest[j], metas[1..][i]);
        assert metas[1..][i] == metas[i + 1];
      } else {
        assert all[k] == first.value;
        assert RequestOf(all[k], metas[0]);
      }
    }
  }

  /** The forum of every request `start_requests` yields has a counter. */
  lemma {:induction false} StartAllCounted(metas: seq<Dict<string, Value>>, pages: Dict<Value, int>)
    requires forall i :: 0 <= i < |metas| ==> DistinctKeys(metas[i])
    ensures forall k :: 0 <= k < |StartAll(metas, pages).0| ==>
      Get(StartAll(metas, pages).0[k].cbKwargs, "forum_name").Some?
      && HasKey(StartAll(metas, pages).1, Get(StartAll(metas, pages).0[k].cbKwargs, "forum_name").value)
    decreases |metas|
  {
    if metas == [] {
      assert |StartAll(metas, pages).0| == 0;
    } else if StartOne(metas[0], pages).error.Some? {
      assert |StartAll(metas, pages).0| == 0;
    } else {
      var one := StartOne(metas[0], pages);
      var tail := metas[1..];
      assert forall i :: 0 <= i < |tail| ==> tail[i] == metas[i + 1];
      StartAllCounted(tail, one.pages);
      StartAllPages(tail, one.pages);
      StartAllFirst(metas, pages);
      StartOneRequest(metas[0], pages);
      var rest := StartAll(tail, one.pages).0;
      var all := StartAll(metas, pages).0;
      forall k | 0 <= k < |all|
        ensures Get(all[k].cbKwargs, "forum_name").Some? && HasKey(StartAll(metas, pages).1, Get(all[k].cbKwargs, "forum_name").value)
      {
        if one.request.None? || k > 0 {
          assert all[k] == rest[if one.request.None? then k else k - 1];
        } else {
          assert all[k] == one.request.value;
        }
      }
    }
  }

  /** The request of the first descriptor, if any, comes first. */
  lemma StartAllFirst(metas: seq<Dict<string, Value>>, pages: Dict<Value, int>)
    requires metas != [] && StartOne(metas[0], pages).error.None?
    ensures StartAll(metas, pages).0
         == (if StartOne(metas[0], pages).request.Some? then [StartOne(metas[0], pages).request.value] else [])
            + StartAll(metas[1..], StartOne(metas[0], pages).pages).0
    ensures StartAll(metas, pages).1 == StartAll(metas[1..], StartOne(metas[0], pages).pages).1
  {
  }

  /** The spider's state: the page counter of each forum it has scheduled. */
  class TopicsSpider {
    var forum2pages: Dict<Value, int>

    /** Before the first available forum the counters do not exist, which is the empty dict. */
    constructor()
      ensures forum2pages == []
    {
      forum2pages := [];
    }

    /** `start_requests`, the descriptors given: requests yielded until the first exception, counters updated in place. */
    method StartRequests(forumsMeta: seq<Dict<string, Value>>) returns (requests: seq<Request>, err: Option<PyError>)
      modifies this
      ensures (requests, forum2pages, err) == StartAll(forumsMeta, old(forum2pages))
    {
      requests := [];
      ghost var goal := StartAll(forumsMeta, forum2pages);
      assert forumsMeta[0..] == forumsMeta;
      for i := 0 to |forumsMeta|
        invariant requests + StartAll(forumsMeta[i..], forum2pages).0 == goal.0
        invariant StartAll(forumsMeta[i..], forum2pages).1 == goal.1
        invariant StartAll(forumsMeta[i..], forum2pages).2 == goal.2
      {
        assert forumsMeta[i..][0] == forumsMeta[i] && forumsMeta[i..][1..] == forumsMeta[i + 1..];
        ghost var pages := forum2pages;
        var meta := new MetaDict(forumsMeta[i]);
        match Lookup(meta.items, "available")
        case Err(e) =>
          StartAllStops(requests, forumsMeta[i..], pages);
          return requests, Some(e);
        case Ok(available) =>
          if !Truthy(available) {
            assert StartOne(forumsMeta[i], pages) == Start(None, pages, None);
            StartAllGoesOn(requests, forumsMeta[i..], pages, None, pages);
            assert requests + [] == requests;
          } else {
            var e := meta.AddPrefToKeys(Some(RENAMED), "orig");
            if e.Some? {
              StartAllStops(requests, forumsMeta[i..], pages);
              return requests, e;
            }
            match Lookup(meta.items, "forum_name")
            case Err(e) =>
              StartAllStops(requests, forumsMeta[i..], pages);
              return requests, Some(e);
            case Ok(name) =>
              forum2pages := Set(forum2pages, name, 0);
              match Lookup(meta.items, "orig_url")
              case Err(e) =>
                StartAllStops(requests, forumsMeta[i..], pages);
                return requests, Some(e);
              case Ok(url) =>
                if !url.VStr? {
                  StartAllStops(requests, forumsMeta[i..], pages);
                  return requests, Some(TypeError);
                }
                assert StartOne(forumsMeta[i], pages) == Start(Some(Request(url.s, meta.items)), forum2pages, None);
                StartAllGoesOn(requests, forumsMeta[i..], pages, Some(Request(url.s, meta.items)), forum2pages);
                requests := requests + [Request(url.s, meta.items)];
          }
      }
      assert forumsMeta[|forumsMeta|..] == [];
      assert requests + [] == requests;
      return requests, None;
    }

    /** `parse`: the page's records until the first exception; the counters are not touched. */
    method Parse(domain: string, realUrl: string, meta: Dict<string, Value>, topics: seq<Topic>)
      returns (records: seq<Dict<string, Value>>, err: Option<PyError>)
      ensures (records, err) == ParseTopics(domain, realUrl, meta, topics)
    {
      records := [];
      var m := meta;
      assert topics[0..] == topics;
      for i := 0 to |topics|
        invariant records + ParseTopics(domain, realUrl, m, topics[i..]).0 == ParseTopics(domain, realUrl, meta, topics).0
        invariant ParseTopics(domain, realUrl, m, topics[i..]).1 == ParseTopics(domain, realUrl, meta, topics).1
      {
        assert topics[i..][0] == topics[i] && topics[i..][1..] == topics[i + 1..];
        match ParseTopic(domain, realUrl, m, topics[i])
        case Err(e) =>
          assert ParseTopics(domain, realUrl, m, topics[i..]) == ([], Some(e));
          assert records + [] == records;
          return records, Some(e);
        case Ok(step) =>
          m := step.0;
          records := records + [step.1];
      }
      assert topics[|topics|..] == [];
      assert records + [] == records;
      return records, None;
    }
  }
}
