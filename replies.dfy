/**
 * The replies spider: a topic page becomes its head record followed by every
 * reply of the nested reply tree, flattened in document order (pre-order).
 * The page is taken as what its selectors find: optional attribute and text
 * values, and the list of child `<li>`s under each reply.
 */
module Replies {
  import opened PyBase
  import opened Strings
  import opened Calendar
  import opened PyDicts
  import opened ForumUtils

  /** `RepliesSpider.default_rating`; the default id is `DEFAULT_ID`. */
  const DEFAULT_RATING := 0

  /** The characters `str.strip("comment-")` removes from both ends of a reply's `id`. */
  const ID_STRIP := "comment-"

  // ---------------------------------------------------------------- the page

  /** The first element a selector matched, with its `data-title` attribute when it has one. */
  datatype IpElement = IpElement(dataTitle: Option<string>)

  /** The first `.f-comment_content` block of a reply, as its selectors read it. */
  datatype Content = Content(
    title: seq<string>,           // `.f-comment_topic > *::text`, all of them
    text: seq<string>,            // `p::text`, all of them
    likeCount: Option<string>,    // the first `.f-comment_like_count::text`
    userName: Option<string>,     // the first `.f-user_name::text`
    commentIp: Option<IpElement>, // `.f-comment_ip`, when it matched
    userIp: Option<IpElement>)    // `.f-user_ip`, when it matched

  /**
   * A reply `<li>`: its `id` attribute, the `data-date` attribute of its
   * `.f-comment`, its first content block (`None` when there is none) and
   * its `./ul/li` children in document order.
   */
  datatype ReplyLi = ReplyLi(id: Option<string>, dataDate: Option<string>, content: Option<Content>,
                             children: seq<ReplyLi>)

  /** The topic head `div.f-view`. */
  datatype HeadDiv = HeadDiv(
    likeId: Option<string>,       // `data-id` of `.f-view_like`
    likeCount: Option<string>,    // the first `.f-comment_like_count::text` inside it
    author: Option<string>,       // the first `.topic-view__author::text`
    userIp: Option<string>,       // `data-title` of `.f-user_ip`
    time: Option<Option<string>>, // a `time` element, and its `datetime` attribute
    createDate: Option<string>,   // the first `.f-view_createdate::text`
    text: seq<string>)            // `.f-view_topic-text::text`, all of them

  /** A topic page: its URL, its head and its top-level reply `<li>`s. */
  datatype Page = Page(url: string, head: HeadDiv, replies: seq<ReplyLi>)

  /** An attribute read with `attrib[name]`: a missing one is a KeyError. */
  function Attrib(a: Option<string>): (r: Result<string>)
    ensures r.Ok? <==> a.Some?
    ensures r.Ok? ==> r.value == a.value
    ensures r.Err? ==> r.error == KeyError
  {
    match a
    case Some(v) => Ok(v)
    case None => Err(KeyError)
  }

  // ---------------------------------------------------------------- records

  /** A head's date as `parse_head_date` gives it, or a reply's `data-date` in milliseconds. */
  datatype EntryDate = Posted(parsed: Parsed) | Millis(ms: int)

  /** A `TopicHead` (whose `title` is `None`) or a `Reply`. */
  datatype Entry = Entry(id: int, headId: int, parentId: Option<int>, isHead: bool, byOwner: Option<bool>,
                         date: EntryDate, rating: int, authorName: string, title: Option<seq<string>>,
                         text: seq<string>)

  /** The head as `parse_head` returns it: the record and its `author_ip`, which `parse` pops. */
  datatype TopicHead = TopicHead(entry: Entry, authorIp: string)

  /** The item `parse` yields: the topic's meta, with the flattened replies under `replies`. */
  datatype RepliesItem = RepliesItem(meta: Dict<string, Value>, replies: seq<Entry>)

  /** The optional ownership checker `parse_reply` is given. */
  type Checker = Option<Option<string> -> bool>

  // ---------------------------------------------------------------- ids, ratings, IPs

  predicate PositiveDigits(s: string) {
    IsDigits(s) && DigitsValue(s) > 0
  }

  /** `safe_int(attrib["id"].strip("comment-")) or default_id` */
  function ReplyIdOf(attr: string): (r: int)
    ensures PositiveDigits(StripChars(attr, ID_STRIP)) ==> r == DigitsValue(StripChars(attr, ID_STRIP))
    ensures !PositiveDigits(StripChars(attr, ID_STRIP)) ==> r == DEFAULT_ID
  {
    OrDefault(SafeInt(StripChars(attr, ID_STRIP)), DEFAULT_ID)
  }

  /** `safe_int(attrib["data-id"]) or default_id`: the head's id is not stripped. */
  function HeadIdOf(attr: string): (r: int)
    ensures PositiveDigits(attr) ==> r == DigitsValue(attr)
    ensures !PositiveDigits(attr) ==> r == DEFAULT_ID
  {
    OrDefault(SafeInt(attr), DEFAULT_ID)
  }

  /** `safe_int(safe_strip(text)) or default_rating` */
  function RatingOf(text: Option<string>): (r: int)
    ensures r >= 0
    ensures PositiveDigits(SafeStrip(text)) ==> r == DigitsValue(SafeStrip(text))
    ensures !PositiveDigits(SafeStrip(text)) ==> r == DEFAULT_RATING
  {
    OrDefault(SafeInt(SafeStrip(text)), DEFAULT_RATING)
  }

  lemma DigitNotStripped(c: char)
    requires IsDigitChar(c)
    ensures c !in ID_STRIP
  {
  }

  /** The forum's reply anchors `comment-<n>` give back `n`. */
  lemma ReplyIdOfAnchor(n: nat)
    requires n > 0
    ensures ReplyIdOf(ID_STRIP + NatToDecimal(n)) == n
  {
    var digits := NatToDecimal(n);
    DigitNotStripped(digits[0]);
    DigitNotStripped(digits[|digits| - 1]);
    StripCharsPrefix(ID_STRIP, digits, ID_STRIP);
  }

  /** A reply whose anchor has no digits, or only a zero, gets the default id. */
  lemma ReplyIdOfZero()
    ensures ReplyIdOf(ID_STRIP + "0") == DEFAULT_ID
    ensures ReplyIdOf(ID_STRIP) == DEFAULT_ID
  {
    StripCharsPrefix(ID_STRIP, "0", ID_STRIP);
    assert DigitsValue("0") == 0;
    StripCharsAll(ID_STRIP, ID_STRIP);
  }

  /** Whether a matched element carries a `data-title`. */
  predicate HasTitle(el: Option<IpElement>) {
    el.Some? && el.value.dataTitle.Some?
  }

  /** The elements `parse_ip` looks at, in its order. */
  function IpCandidates(content: Content): seq<Option<IpElement>> {
    [content.commentIp, content.userIp]
  }

  /** The `data-title` of the first candidate that has one. */
  function FirstIp(els: seq<Option<IpElement>>): Option<string>
    decreases |els|
  {
    if els == [] then None
    else if HasTitle(els[0]) then els[0].value.dataTitle
    else FirstIp(els[1..])
  }

  /** `FirstIp` is the earliest candidate's title, and `None` exactly when no candidate has one. */
  lemma {:induction false} FirstIpSpec(els: seq<Option<IpElement>>)
    ensures FirstIp(els).None? <==> forall i :: 0 <= i < |els| ==> !HasTitle(els[i])
    ensures FirstIp(els).Some? ==>
      exists i :: 0 <= i < |els| && HasTitle(els[i]) && FirstIp(els) == els[i].value.dataTitle
        && forall j :: 0 <= j < i ==> !HasTitle(els[j])
    decreases |els|
  {
    if els != [] && !HasTitle(els[0]) {
      var rest := els[1..];
      FirstIpSpec(rest);
      assert forall i :: 1 <= i < |els| ==> els[i] == rest[i - 1];
      if FirstIp(rest).Some? {
        var i :| 0 <= i < |rest| && HasTitle(rest[i]) && FirstIp(rest) == rest[i].value.dataTitle
          && forall j :: 0 <= j < i ==> !HasTitle(rest[j]);
        assert els[i + 1] == rest[i];
      }
    }
  }

  /** `parse_ip`: `.f-comment_ip` first, then `.f-user_ip`, returning the first `data-title` found. */
  method ParseIp(content: Content) returns (ip: Option<string>)
    ensures ip == FirstIp(IpCandidates(content))
  {
    var candidates := IpCandidates(content);
    for i := 0 to |candidates|
      invariant FirstIp(candidates) == FirstIp(candidates[i..])
    {
      var maybeIpEl := candidates[i];
      if maybeIpEl.Some? && maybeIpEl.value.dataTitle.Some? {
        return maybeIpEl.value.dataTitle;
      }
      assert candidates[i..][1..] == candidates[i + 1..];
    }
    assert candidates[|candidates|..] == [];
    return None;
  }

  /** `.f-comment_ip` wins over `.f-user_ip`; the user IP is read only when the comment IP has no title. */
  lemma ParseIpOrder(content: Content)
    ensures HasTitle(content.commentIp) ==> FirstIp(IpCandidates(content)) == content.commentIp.value.dataTitle
    ensures !HasTitle(content.commentIp) && HasTitle(content.userIp) ==>
      FirstIp(IpCandidates(content)) == content.userIp.value.dataTitle
    ensures !HasTitle(content.commentIp) && !HasTitle(content.userIp) ==> FirstIp(IpCandidates(content)) == None
  {
    var els := IpCandidates(content);
    assert els[0] == content.commentIp && els[1..] == [content.userIp];
    assert els[1..][0] == content.userIp && els[1..][1..] == [];
    assert FirstIp(els[1..][1..]) == None;
  }

  /** `make_by_owner_checker(topic_starter_ip)`: a reply is the owner's when its IP is the starter's. */
  function MakeByOwnerChecker(topicStarterIp: string): (isByOwner: Option<string> -> bool)
    ensures forall ip: Option<string> :: isByOwner(ip) <==> ip == Some(topicStarterIp)
  {
    ip => ip == Some(topicStarterIp)
  }

  /** `is_by_owner_checker(author_ip) if is_by_owner_checker else None` */
  function ByOwner(checker: Checker, ip: Option<string>): (r: Option<bool>)
    ensures r.Some? <==> checker.Some?
    ensures checker.Some? ==> r.value == checker.value(ip)
  {
    if checker.Some? then Some(checker.value(ip)) else None
  }

  /** With the checker `parse` builds, ownership is IP equality, and a reply with no IP is not the owner's. */
  lemma ByOwnerOfStarter(topicStarterIp: string, ip: Option<string>)
    ensures ByOwner(Some(MakeByOwnerChecker(topicStarterIp)), ip) == Some(ip == Some(topicStarterIp))
    ensures ip.None? ==> ByOwner(Some(MakeByOwnerChecker(topicStarterIp)), ip) == Some(false)
  {
  }

  // ---------------------------------------------------------------- one reply

  /** `safe_int(reply_div.attrib["data-date"])`, the reply's date in milliseconds. */
  function ReplyMillis(dataDate: Option<string>): (r: Result<int>)
    ensures r.Ok? <==> dataDate.Some? && IsDigits(dataDate.value)
    ensures r.Ok? ==> r.value == DigitsValue(dataDate.value)
    ensures dataDate.None? ==> r == Err(KeyError)
    ensures dataDate.Some? && !IsDigits(dataDate.value) ==> r == Err(TypeError)
  {
    var raw :- Attrib(dataDate);
    match SafeInt(raw)
    case None => Err(TypeError)
    case Some(ms) => Ok(ms)
  }

  /** Whether a reply `<li>`'s own fields can be read without an exception. */
  predicate Readable(li: ReplyLi) {
    li.id.Some? && li.content.Some? && li.dataDate.Some? && IsDigits(li.dataDate.value)
  }

  /** The IP `parse_ip` finds in a reply's content block. */
  function ReplyIp(li: ReplyLi): Option<string> {
    if li.content.Some? then FirstIp(IpCandidates(li.content.value)) else None
  }

  /**
   * The record `parse_reply` builds for the `<li>` itself, reading the id,
   * the content block, the rating, the date, the author and the IP in that
   * order.
   */
  function ReplyEntry(li: ReplyLi, headId: int, parentId: Option<int>, checker: Checker): Result<Entry> {
    var idAttr :- Attrib(li.id);
    var replyId := ReplyIdOf(idAttr);
    var content :- if li.content.Some? then Ok(li.content.value) else Err(IndexError);
    var rating := RatingOf(content.likeCount);
    var ms :- ReplyMillis(li.dataDate);
    var authorName := SafeStrip(content.userName);
    var authorIp := FirstIp(IpCandidates(content));
    Ok(Entry(replyId, headId, parentId, false, ByOwner(checker, authorIp), Millis(ms), rating, authorName,
             Some(content.title), content.text))
  }

  /**
   * A reply record is built exactly when the `<li>` is readable; it is not a
   * head, carries the head id and the parent passed in, and its id, rating,
   * date and ownership are the ones read from the `<li>`. A missing `id` is
   * a KeyError, a missing content block an IndexError, a missing `data-date`
   * a KeyError and a non-digit one a TypeError.
   */
  lemma ReplyEntrySpec(li: ReplyLi, headId: int, parentId: Option<int>, checker: Checker)
    ensures ReplyEntry(li, headId, parentId, checker).Ok? <==> Readable(li)
    ensures li.id.None? ==> ReplyEntry(li, headId, parentId, checker) == Err(KeyError)
    ensures li.id.Some? && li.content.None? ==> ReplyEntry(li, headId, parentId, checker) == Err(IndexError)
    ensures li.id.Some? && li.content.Some? && li.dataDate.None? ==>
      ReplyEntry(li, headId, parentId, checker) == Err(KeyError)
    ensures li.id.Some? && li.content.Some? && li.dataDate.Some? && !IsDigits(li.dataDate.value) ==>
      ReplyEntry(li, headId, parentId, checker) == Err(TypeError)
    ensures Readable(li) ==>
      && ReplyEntry(li, headId, parentId, checker).value.id == ReplyIdOf(li.id.value)
      && ReplyEntry(li, headId, parentId, checker).value.headId == headId
      && ReplyEntry(li, headId, parentId, checker).value.parentId == parentId
      && !ReplyEntry(li, headId, parentId, checker).value.isHead
      && ReplyEntry(li, headId, parentId, checker).value.byOwner == ByOwner(checker, ReplyIp(li))
      && ReplyEntry(li, headId, parentId, checker).value.rating == RatingOf(li.content.value.likeCount)
      && ReplyEntry(li, headId, parentId, checker).value.date == Millis(DigitsValue(li.dataDate.value))
  {
  }

  // ---------------------------------------------------------------- the reply tree

  /** How one `<li>` becomes its record, given the parent it hangs under. */
  type Recorder = (ReplyLi, Option<int>) -> Result<Entry>

  /** The records `parse_reply` builds under one head id and checker. */
  function Reader(headId: int, checker: Checker): Recorder {
    (li: ReplyLi, parentId: Option<int>) => ReplyEntry(li, headId, parentId, checker)
  }

  /** A recorder that fails exactly on unreadable `<li>`s and keeps the parent it is given. */
  ghost predicate Faithful(record: Recorder) {
    forall li: ReplyLi, parentId: Option<int> ::
      && (record(li, parentId).Ok? <==> Readable(li))
      && (record(li, parentId).Ok? ==> record(li, parentId).value.parentId == parentId)
  }

  lemma ReaderFaithful(headId: int, checker: Checker)
    ensures Faithful(Reader(headId, checker))
  {
    forall li: ReplyLi, parentId: Option<int>
      ensures Reader(headId, checker)(li, parentId).Ok? <==> Readable(li)
      ensures Reader(headId, checker)(li, parentId).Ok? ==> Reader(headId, checker)(li, parentId).value.parentId == parentId
    {
      ReplyEntrySpec(li, headId, parentId, checker);
    }
  }

  /** The `<li>`s of a subtree in document order: the node, then each child's subtree in turn. */
  function Nodes(li: ReplyLi): seq<ReplyLi>
    decreases li
  {
    [li] + ForestNodes(li.children)
  }

  function ForestNodes(lis: seq<ReplyLi>): seq<ReplyLi>
    decreases lis
  {
    if lis == [] then [] else Nodes(lis[0]) + ForestNodes(lis[1..])
  }

  /** The recursion of `parse_reply`: the node's record, then its children's results under the node's id. */
  function Tree(record: Recorder, li: ReplyLi, parentId: Option<int>): Result<seq<Entry>>
    decreases li
  {
    var reply :- record(li, parentId);
    var further :- Forest(record, li.children, Some(reply.id));
    Ok([reply] + further)
  }

  /** The results for each `<li>` in turn, concatenated. */
  function Forest(record: Recorder, lis: seq<ReplyLi>, parentId: Option<int>): Result<seq<Entry>>
    decreases lis
  {
    if lis == [] then Ok([])
    else
      var first :- Tree(record, lis[0], parentId);
      var rest :- Forest(record, lis[1..], parentId);
      Ok(first + rest)
  }

  /** What `parse_reply(li, head_id, parent_id, checker)` returns, or the exception it raises. */
  function Flatten(li: ReplyLi, headId: int, parentId: Option<int>, checker: Checker): Result<seq<Entry>> {
    Tree(Reader(headId, checker), li, parentId)
  }

  /** A result extended by `results.extend`: an exception stays an exception. */
  function Prepend(done: seq<Entry>, r: Result<seq<Entry>>): Result<seq<Entry>> {
    match r
    case Ok(t) => Ok(done + t)
    case Err(e) => Err(e)
  }

  /** A readable `<li>` yields its record followed by its children's results. */
  lemma TreeStep(record: Recorder, li: ReplyLi, parentId: Option<int>, reply: Entry)
    requires record(li, parentId) == Ok(reply)
    ensures Tree(record, li, parentId) == Prepend([reply], Forest(record, li.children, Some(reply.id)))
  {
  }

  /** An exception in one subtree ends the forest with that exception. */
  lemma ForestStops(record: Recorder, lis: seq<ReplyLi>, parentId: Option<int>, e: PyError)
    requires |lis| > 0 && Tree(record, lis[0], parentId) == Err(e)
    ensures Forest(record, lis, parentId) == Err(e)
  {
  }

  /** A subtree that succeeds is extended onto what came before. */
  lemma ForestGoesOn(done: seq<Entry>, record: Recorder, lis: seq<ReplyLi>, parentId: Option<int>, first: seq<Entry>)
    requires |lis| > 0 && Tree(record, lis[0], parentId) == Ok(first)
    ensures Prepend(done, Forest(record, lis, parentId)) == Prepend(done + first, Forest(record, lis[1..], parentId))
  {
    var rest := Forest(record, lis[1..], parentId);
    if rest.Ok? {
      ConcatAssoc(done, first, rest.value);
    }
  }

  /** A forest that succeeds is its first subtree's entries followed by the rest's. */
  lemma ForestSplit(record: Recorder, lis: seq<ReplyLi>, parentId: Option<int>)
    requires Forest(record, lis, parentId).Ok? && lis != []
    ensures Tree(record, lis[0], parentId).Ok? && Forest(record, lis[1..], parentId).Ok?
    ensures Forest(record, lis, parentId).value
         == Tree(record, lis[0], parentId).value + Forest(record, lis[1..], parentId).value
  {
  }

  predicate AllReadable(ns: seq<ReplyLi>) {
    forall i :: 0 <= i < |ns| ==> Readable(ns[i])
  }

  lemma AllReadableJoin(ns: seq<ReplyLi>, ms: seq<ReplyLi>)
    ensures AllReadable(ns + ms) <==> AllReadable(ns) && AllReadable(ms)
  {
    var all := ns + ms;
    if AllReadable(ns) && AllReadable(ms) {
      forall i | 0 <= i < |all| ensures Readable(all[i]) {
        if i < |ns| {
          assert all[i] == ns[i];
        } else {
          assert all[i] == ms[i - |ns|];
        }
      }
    }
    if AllReadable(all) {
      forall i | 0 <= i < |ns| ensures Readable(ns[i]) {
        assert all[i] == ns[i];
      }
      forall i | 0 <= i < |ms| ensures Readable(ms[i]) {
        assert all[|ns| + i] == ms[i];
      }
    }
  }

  /** A subtree yields its records without an exception exactly when every one of its `<li>`s is readable. */
  lemma {:induction false} TreeOk(record: Recorder, li: ReplyLi, parentId: Option<int>)
    requires Faithful(record)
    ensures Tree(record, li, parentId).Ok? <==> AllReadable(Nodes(li))
    decreases li
  {
    AllReadableJoin([li], ForestNodes(li.children));
    assert [li][0] == li;
    var reply := record(li, parentId);
    if reply.Ok? {
      TreeStep(record, li, parentId, reply.value);
      ForestOk(record, li.children, Some(reply.value.id));
    }
  }

  lemma {:induction false} ForestOk(record: Recorder, lis: seq<ReplyLi>, parentId: Option<int>)
    requires Faithful(record)
    ensures Forest(record, lis, parentId).Ok? <==> AllReadable(ForestNodes(lis))
    decreases lis
  {
    if lis != [] {
      TreeOk(record, lis[0], parentId);
      ForestOk(record, lis[1..], parentId);
      AllReadableJoin(Nodes(lis[0]), ForestNodes(lis[1..]));
    }
  }

  /** Entry `i` is related to node `i`, and there are as many entries as nodes. */
  predicate Pairwise<N, E>(ns: seq<N>, rs: seq<E>, related: (N, E) -> bool) {
    |rs| == |ns| && forall i :: 0 <= i < |rs| ==> related(ns[i], rs[i])
  }

  lemma PairwiseCons<N, E>(n: N, r: E, ns: seq<N>, rs: seq<E>, related: (N, E) -> bool)
    requires related(n, r) && Pairwise(ns, rs, related)
    ensures Pairwise([n] + ns, [r] + rs, related)
  {
    assert forall i :: 0 < i <= |rs| ==> ([n] + ns)[i] == ns[i - 1] && ([r] + rs)[i] == rs[i - 1];
  }

  lemma PairwiseJoin<N, E>(ns: seq<N>, rs: seq<E>, ms: seq<N>, ts: seq<E>, related: (N, E) -> bool)
    requires Pairwise(ns, rs, related) && Pairwise(ms, ts, related)
    ensures Pairwise(ns + ms, rs + ts, related)
  {
    assert forall i :: 0 <= i < |rs| ==> (ns + ms)[i] == ns[i] && (rs + ts)[i] == rs[i];
    assert forall i :: |rs| <= i < |rs| + |ts| ==> (ns + ms)[i] == ms[i - |ns|] && (rs + ts)[i] == ts[i - |rs|];
  }

  /** Whether `e` is the record of the `<li>` under the parent `e` names. */
  function RecordOf(record: Recorder): (ReplyLi, Entry) -> bool {
    (li: ReplyLi, e: Entry) => record(li, e.parentId) == Ok(e)
  }

  /** A subtree's results are the records of its `<li>`s in pre-order, one per `<li>`. */
  lemma {:induction false} TreeAligned(record: Recorder, li: ReplyLi, parentId: Option<int>)
    requires Faithful(record) && Tree(record, li, parentId).Ok?
    ensures Pairwise(Nodes(li), Tree(record, li, parentId).value, RecordOf(record))
    decreases li
  {
    var reply := record(li, parentId).value;
    TreeStep(record, li, parentId, reply);
    var further := Forest(record, li.children, Some(reply.id));
    ForestAligned(record, li.children, Some(reply.id));
    assert RecordOf(record)(li, reply);
    PairwiseCons(li, reply, ForestNodes(li.children), further.value, RecordOf(record));
  }

  lemma {:induction false} ForestAligned(record: Recorder, lis: seq<ReplyLi>, parentId: Option<int>)
    requires Faithful(record) && Forest(record, lis, parentId).Ok?
    ensures Pairwise(ForestNodes(lis), Forest(record, lis, parentId).value, RecordOf(record))
    decreases lis
  {
    if lis != [] {
      ForestSplit(record, lis, parentId);
      TreeAligned(record, lis[0], parentId);
      ForestAligned(record, lis[1..], parentId);
      PairwiseJoin(Nodes(lis[0]), Tree(record, lis[0], parentId).value,
                   ForestNodes(lis[1..]), Forest(record, lis[1..], parentId).value, RecordOf(record));
    }
  }

  /** Entry `i`'s parent is the id of an entry before it. */
  predicate UnderEarlier(rs: seq<Entry>, i: int)
    requires 0 <= i < |rs|
  {
    exists j :: 0 <= j < i && rs[i].parentId == Some(rs[j].id)
  }

  /** Every entry's parent is `parentId` or the id of an entry before it. */
  predicate LinkedFrom(rs: seq<Entry>, parentId: Option<int>) {
    forall i :: 0 <= i < |rs| ==> rs[i].parentId == parentId || UnderEarlier(rs, i)
  }

  /** Every entry after the first has as parent the id of an entry before it. */
  predicate Linked(rs: seq<Entry>) {
    forall i :: 0 < i < |rs| ==> UnderEarlier(rs, i)
  }

  /** In a subtree's results the first entry hangs under the given parent, every later one under an earlier entry. */
  lemma {:induction false} TreeLinked(record: Recorder, li: ReplyLi, parentId: Option<int>)
    requires Faithful(record) && Tree(record, li, parentId).Ok?
    ensures Tree(record, li, parentId).value[0].parentId == parentId
    ensures Linked(Tree(record, li, parentId).value)
    decreases li
  {
    var reply := record(li, parentId).value;
    TreeStep(record, li, parentId, reply);
    var further := Forest(record, li.children, Some(reply.id)).value;
    ForestLinked(record, li.children, Some(reply.id));
    LinkedCons(reply, further);
  }

  lemma {:induction false} ForestLinked(record: Recorder, lis: seq<ReplyLi>, parentId: Option<int>)
    requires Faithful(record) && Forest(record, lis, parentId).Ok?
    ensures LinkedFrom(Forest(record, lis, parentId).value, parentId)
    decreases lis
  {
    if lis != [] {
      ForestSplit(record, lis, parentId);
      TreeLinked(record, lis[0], parentId);
      ForestLinked(record, lis[1..], parentId);
      LinkedJoin(Tree(record, lis[0], parentId).value, Forest(record, lis[1..], parentId).value, parentId);
    }
  }

  lemma LinkedCons(r: Entry, rs: seq<Entry>)
    requires LinkedFrom(rs, Some(r.id))
    ensures Linked([r] + rs)
  {
    var all := [r] + rs;
    forall i | 0 < i < |all| ensures UnderEarlier(all, i) {
      assert all[i] == rs[i - 1];
      if rs[i - 1].parentId == Some(r.id) {
        assert all[0] == r;
        assert all[i].parentId == Some(all[0].id);
      } else {
        assert UnderEarlier(rs, i - 1);
        var j :| 0 <= j < i - 1 && rs[i - 1].parentId == Some(rs[j].id);
        assert all[j + 1] == rs[j];
        assert all[i].parentId == Some(all[j + 1].id);
      }
    }
  }

  lemma LinkedJoin(first: seq<Entry>, rest: seq<Entry>, parentId: Option<int>)
    requires |first| > 0 && first[0].parentId == parentId && Linked(first) && LinkedFrom(rest, parentId)
    ensures LinkedFrom(first + rest, parentId)
  {
    var all := first + rest;
    forall i | 0 <= i < |all| ensures all[i].parentId == parentId || UnderEarlier(all, i) {
      if i < |first| {
        assert all[i] == first[i];
        if i > 0 {
          assert UnderEarlier(first, i);
          var j :| 0 <= j < i && first[i].parentId == Some(first[j].id);
          assert all[j] == first[j];
        }
      } else {
        var k := i - |first|;
        assert all[i] == rest[k];
        if rest[k].parentId != parentId {
          assert UnderEarlier(rest, k);
          var j :| 0 <= j < k && rest[k].parentId == Some(rest[j].id);
          assert all[|first| + j] == rest[j];
        }
      }
    }
  }

  /** Subtree `k` of a forest sits, as its results, right after the subtrees before it. */
  lemma {:induction false} ForestAt(record: Recorder, lis: seq<ReplyLi>, parentId: Option<int>, k: nat)
    requires Faithful(record) && Forest(record, lis, parentId).Ok? && k < |lis|
    ensures Tree(record, lis[k], parentId).Ok?
    ensures |ForestNodes(lis[..k])| + |Nodes(lis[k])| <= |Forest(record, lis, parentId).value|
    ensures Forest(record, lis, parentId).value[|ForestNodes(lis[..k])|..][..|Nodes(lis[k])|]
         == Tree(record, lis[k], parentId).value
    decreases k
  {
    ForestSplit(record, lis, parentId);
    var first := Tree(record, lis[0], parentId).value;
    var rest := Forest(record, lis[1..], parentId).value;
    TreeAligned(record, lis[0], parentId);
    if k == 0 {
      assert lis[..0] == [];
      SliceFront(first, rest);
    } else {
      ForestAt(record, lis[1..], parentId, k - 1);
      ForestNodesPrefix(lis, k);
      SliceShift(first, rest, |ForestNodes(lis[1..][..k - 1])|, |Nodes(lis[k])|);
    }
  }

  /** The nodes of the first `k` subtrees are the first subtree's, then those of the next `k - 1`. */
  lemma ForestNodesPrefix(lis: seq<ReplyLi>, k: nat)
    requires 0 < k < |lis|
    ensures |ForestNodes(lis[..k])| == |Nodes(lis[0])| + |ForestNodes(lis[1..][..k - 1])|
    ensures lis[1..][k - 1] == lis[k]
  {
    assert lis[..k][0] == lis[0] && lis[..k][1..] == lis[1..][..k - 1];
  }

  lemma SliceFront<T>(a: seq<T>, b: seq<T>)
    ensures (a + b)[0..][..|a|] == a
  {
  }

  lemma SliceShift<T>(a: seq<T>, b: seq<T>, off: nat, n: nat)
    requires off + n <= |b|
    ensures (a + b)[|a| + off..][..n] == b[off..][..n]
  {
    assert (a + b)[|a| + off..] == b[off..];
  }

  /** Every child subtree follows the node in document order, and its first entry names the node as parent. */
  lemma TreeChildren(record: Recorder, li: ReplyLi, parentId: Option<int>, k: nat)
    requires Faithful(record) && Tree(record, li, parentId).Ok? && k < |li.children|
    ensures Tree(record, li.children[k], Some(Tree(record, li, parentId).value[0].id)).Ok?
    ensures 1 + |ForestNodes(li.children[..k])| + |Nodes(li.children[k])| <= |Tree(record, li, parentId).value|
    ensures Tree(record, li, parentId).value[1 + |ForestNodes(li.children[..k])|..][..|Nodes(li.children[k])|]
         == Tree(record, li.children[k], Some(Tree(record, li, parentId).value[0].id)).value
    ensures Tree(record, li, parentId).value[1 + |ForestNodes(li.children[..k])|].parentId
         == Some(Tree(record, li, parentId).value[0].id)
  {
    var reply := record(li, parentId).value;
    TreeStep(record, li, parentId, reply);
    var further := Forest(record, li.children, Some(reply.id)).value;
    ForestAt(record, li.children, Some(reply.id), k);
    TreeLinked(record, li.children[k], Some(reply.id));
    TreeAligned(record, li.children[k], Some(reply.id));
    SliceShift([reply], further, |ForestNodes(li.children[..k])|, |Nodes(li.children[k])|);
  }

  /**
   * `parse_reply`'s result starts with the `<li>`'s own record: not a head,
   * under the given parent, with the head id passed in. It holds one entry
   * per `<li>` of the subtree in pre-order, each with that head id, its own
   * id, and ownership by its own IP; every entry after the first hangs under
   * an earlier one; and an exception is raised exactly when some `<li>` of
   * the subtree is unreadable.
   */
  lemma FlattenSpec(li: ReplyLi, headId: int, parentId: Option<int>, checker: Checker)
    ensures Flatten(li, headId, parentId, checker).Ok? <==> AllReadable(Nodes(li))
    ensures Flatten(li, headId, parentId, checker).Ok? ==>
      && Flatten(li, headId, parentId, checker).value[0] == ReplyEntry(li, headId, parentId, checker).value
      && |Flatten(li, headId, parentId, checker).value| == |Nodes(li)|
      && (forall i :: 0 <= i < |Nodes(li)| ==>
            && Flatten(li, headId, parentId, checker).value[i].headId == headId
            && !Flatten(li, headId, parentId, checker).value[i].isHead
            && Flatten(li, headId, parentId, checker).value[i].id == ReplyIdOf(Nodes(li)[i].id.value)
            && Flatten(li, headId, parentId, checker).value[i].byOwner == ByOwner(checker, ReplyIp(Nodes(li)[i])))
      && Linked(Flatten(li, headId, parentId, checker).value)
  {
    var record := Reader(headId, checker);
    ReaderFaithful(headId, checker);
    TreeOk(record, li, parentId);
    if Tree(record, li, parentId).Ok? {
      var rs := Tree(record, li, parentId).value;
      var ns := Nodes(li);
      TreeAligned(record, li, parentId);
      TreeLinked(record, li, parentId);
      assert RecordOf(record)(ns[0], rs[0]);
      assert ns[0] == li;
      forall i | 0 <= i < |ns|
        ensures rs[i].headId == headId && !rs[i].isHead && rs[i].id == ReplyIdOf(ns[i].id.value)
        ensures rs[i].byOwner == ByOwner(checker, ReplyIp(ns[i]))
      {
        assert RecordOf(record)(ns[i], rs[i]);
        ReplyEntrySpec(ns[i], headId, rs[i].parentId, checker);
      }
    }
  }

  /** Each child of a reply is read under the reply's own id, and its results follow the reply's in document order. */
  lemma FlattenChildren(li: ReplyLi, headId: int, parentId: Option<int>, checker: Checker, k: nat)
    requires Flatten(li, headId, parentId, checker).Ok? && k < |li.children|
    ensures Flatten(li.children[k], headId, Some(ReplyIdOf(li.id.value)), checker).Ok?
    ensures 1 + |ForestNodes(li.children[..k])| + |Nodes(li.children[k])| <= |Flatten(li, headId, parentId, checker).value|
    ensures Flatten(li, headId, parentId, checker).value[1 + |ForestNodes(li.children[..k])|..][..|Nodes(li.children[k])|]
         == Flatten(li.children[k], headId, Some(ReplyIdOf(li.id.value)), checker).value
    ensures Flatten(li, headId, parentId, checker).value[1 + |ForestNodes(li.children[..k])|].parentId
         == Some(ReplyIdOf(li.id.value))
  {
    var record := Reader(headId, checker);
    ReaderFaithful(headId, checker);
    TreeChildren(record, li, parentId, k);
    FlattenSpec(li, headId, parentId, checker);
    TreeOk(record, li, parentId);
    assert Nodes(li)[0] == li;
  }

  /** `parse_reply`: the node's record, then each child's results extended in turn. */
  method ParseReply(replyLi: ReplyLi, headId: int, parentId: Option<int>, isByOwnerChecker: Checker)
    returns (results: Result<seq<Entry>>)
    ensures results == Flatten(replyLi, headId, parentId, isByOwnerChecker)
    decreases replyLi
  {
    ghost var record := Reader(headId, isByOwnerChecker);
    var reply := ReplyEntry(replyLi, headId, parentId, isByOwnerChecker);
    assert reply == record(replyLi, parentId);
    if reply.Err? {
      return Err(reply.error);
    }
    TreeStep(record, replyLi, parentId, reply.value);
    var done := [reply.value];
    var furtherRepliesList := replyLi.children;
    assert furtherRepliesList[0..] == furtherRepliesList;
    for j := 0 to |furtherRepliesList|
      invariant Tree(record, replyLi, parentId) == Prepend(done, Forest(record, furtherRepliesList[j..], Some(reply.value.id)))
    {
      var res := ParseReply(furtherRepliesList[j], headId, Some(reply.value.id), isByOwnerChecker);
      assert furtherRepliesList[j..][0] == furtherRepliesList[j];
      assert furtherRepliesList[j..][1..] == furtherRepliesList[j + 1..];
      if res.Err? {
        ForestStops(record, furtherRepliesList[j..], Some(reply.value.id), res.error);
        return Err(res.error);
      }
      ForestGoesOn(done, record, furtherRepliesList[j..], Some(reply.value.id), res.value);
      done := done + res.value;
    }
    assert furtherRepliesList[|furtherRepliesList|..] == [];
    assert done + [] == done;
    return Ok(done);
  }

  // ---------------------------------------------------------------- the head

  /**
   * `parse_head_date` (the second definition): the `<time datetime>`
   * attribute when a `time` element exists, else the create-date text read
   * against the date in the page URL.
   */
  function ParseHeadDate(url: string, head: HeadDiv): (r: Result<Parsed>)
    ensures head.time.Some? && r.Ok? ==> r.value.At?
  {
    match head.time
    case Some(datetime) =>
      var stamp :- Attrib(datetime);
      var date :- ConvertHeadTimestamp(stamp);
      Ok(At(date))
    case None =>
      var today :- ExtractWebarchiveDate(url);
      if head.createDate.None? then Err(TypeError)
      else ConvertCustomary(head.createDate.value, today)
  }

  /** A `time` element wins over the create-date text and the URL: its timestamp is read back exactly. */
  lemma ParseHeadDateFromTime(url: string, head: HeadDiv, d: DateTime)
    requires Valid(d) && d.microsecond % 1000 == 0
    requires head.time == Some(Some(FormatHeadTimestamp(d)))
    ensures ParseHeadDate(url, head) == Ok(At(d))
  {
    HeadRoundTrip(d);
  }

  /** A `time` element without `datetime` is a KeyError; without a `time` element and create-date text, a TypeError. */
  lemma ParseHeadDateErrors(url: string, head: HeadDiv)
    ensures head.time == Some(None) ==> ParseHeadDate(url, head) == Err(KeyError)
    ensures head.time.None? && head.createDate.None? && ExtractWebarchiveDate(url).Ok? ==>
      ParseHeadDate(url, head) == Err(TypeError)
    ensures head.time.None? && ExtractWebarchiveDate(url).Err? ==> ParseHeadDate(url, head) == Err(ValueError)
  {
  }

  /** Without a `time` element, a bare `HH:MM` is that time on the day of the snapshot the page URL names. */
  lemma ParseHeadDateFromSnapshot(prefix: string, snapshot: DateTime, rest: string, head: HeadDiv, h: nat, m: nat)
    requires forall k :: 0 <= k < |prefix| ==> !IsDigitChar(prefix[k])
    requires Valid(snapshot) && snapshot.microsecond == 0 && h < 24 && m < 60
    requires head.time.None? && head.createDate == Some(Clock(h, m))
    ensures ParseHeadDate(prefix + FormatSnapshotTimestamp(snapshot) + rest, head)
         == Ok(At(DateTime(snapshot.year, snapshot.month, snapshot.day, h, m, 0, 0)))
  {
    ExtractFromSnapshotUrl(prefix, snapshot, rest);
    CustomaryClock(h, m, snapshot);
  }

  /** `parse_head`: id, rating, author, IP and date read in that order. */
  function ParseHead(page: Page): Result<TopicHead> {
    var head := page.head;
    var idAttr :- Attrib(head.likeId);
    var replyId := HeadIdOf(idAttr);
    var rating := RatingOf(head.likeCount);
    var authorName := SafeStrip(head.author);
    var authorIp :- Attrib(head.userIp);
    var date :- ParseHeadDate(page.url, head);
    Ok(TopicHead(Entry(replyId, replyId, None, true, Some(true), Posted(date), rating, authorName, None, head.text),
                 authorIp))
  }

  /**
   * The head is read exactly when its like block has a `data-id`, its user
   * IP has a `data-title` and its date parses; it is its own head, has no
   * parent, is the owner's, and keeps the starter's IP for the checker.
   */
  lemma ParseHeadSpec(page: Page)
    ensures page.head.likeId.None? ==> ParseHead(page) == Err(KeyError)
    ensures page.head.likeId.Some? && page.head.userIp.None? ==> ParseHead(page) == Err(KeyError)
    ensures ParseHead(page).Ok? <==>
      page.head.likeId.Some? && page.head.userIp.Some? && ParseHeadDate(page.url, page.head).Ok?
    ensures ParseHead(page).Ok? ==>
      && ParseHead(page).value.entry.id == HeadIdOf(page.head.likeId.value)
      && ParseHead(page).value.entry.headId == ParseHead(page).value.entry.id
      && ParseHead(page).value.entry.parentId.None?
      && ParseHead(page).value.entry.isHead
      && ParseHead(page).value.entry.byOwner == Some(true)
      && ParseHead(page).value.entry.rating == RatingOf(page.head.likeCount)
      && ParseHead(page).value.entry.date == Posted(ParseHeadDate(page.url, page.head).value)
      && ParseHead(page).value.authorIp == page.head.userIp.value
  {
  }

  // ---------------------------------------------------------------- the page

  /** The records of replies under a head: read under the head's id, owned when their IP is the starter's. */
  function HeadReader(topicHead: TopicHead): Recorder {
    Reader(topicHead.entry.id, Some(MakeByOwnerChecker(topicHead.authorIp)))
  }

  /** The head record followed by the top-level forest, flattened under the head's id and the starter's checker. */
  function HeadThenReplies(topicHead: TopicHead, replies: seq<ReplyLi>): Result<seq<Entry>> {
    Prepend([topicHead.entry], Forest(HeadReader(topicHead), replies, None))
  }

  /** What `parse` yields for a page: the head record, then each top-level reply's flattened subtree. */
  function PageEntries(page: Page): Result<seq<Entry>> {
    match ParseHead(page)
    case Err(e) => Err(e)
    case Ok(topicHead) => HeadThenReplies(topicHead, page.replies)
  }

  /** A page whose head cannot be read yields that exception; otherwise the head comes first, then the replies. */
  lemma PageEntriesSpec(page: Page)
    ensures ParseHead(page).Err? ==> PageEntries(page) == Err(ParseHead(page).error)
    ensures ParseHead(page).Ok? ==> PageEntries(page) == HeadThenReplies(ParseHead(page).value, page.replies)
  {
  }

  /** `parse`: the head, its IP popped into the checker, then each top-level reply's results extended in turn. */
  method Parse(page: Page, meta: Dict<string, Value>) returns (item: Result<RepliesItem>)
    ensures item.Ok? <==> PageEntries(page).Ok?
    ensures item.Ok? ==> item.value == RepliesItem(meta, PageEntries(page).value)
    ensures item.Err? ==> item.error == PageEntries(page).error
  {
    var topicHead := ParseHead(page);
    if topicHead.Err? {
      return Err(topicHead.error);
    }
    var headId := topicHead.value.entry.id;
    var topicStarterIp := topicHead.value.authorIp;
    var isByOwnerChecker := MakeByOwnerChecker(topicStarterIp);
    ghost var record := HeadReader(topicHead.value);
    assert record == Reader(headId, Some(isByOwnerChecker));
    var allReplies := [topicHead.value.entry];
    var topLevel := page.replies;
    assert topLevel[0..] == topLevel;
    for k := 0 to |topLevel|
      invariant PageEntries(page) == Prepend(allReplies, Forest(record, topLevel[k..], None))
    {
      var branchedReplies := ParseReply(topLevel[k], headId, None, Some(isByOwnerChecker));
      assert topLevel[k..][0] == topLevel[k];
      assert topLevel[k..][1..] == topLevel[k + 1..];
      if branchedReplies.Err? {
        ForestStops(record, topLevel[k..], None, branchedReplies.error);
        return Err(branchedReplies.error);
      }
      ForestGoesOn(allReplies, record, topLevel[k..], None, branchedReplies.value);
      allReplies := allReplies + branchedReplies.value;
    }
    assert topLevel[|topLevel|..] == [];
    assert allReplies + [] == allReplies;
    return Ok(RepliesItem(meta, allReplies));
  }

  /**
   * The shape of `parse`'s output: the head record first, then one entry per
   * reply `<li>` in document order, each under the head's id, not a head,
   * and the owner's exactly when its IP is the head's; the replies fail
   * exactly when some reply cannot be read.
   */
  lemma HeadThenRepliesSpec(topicHead: TopicHead, replies: seq<ReplyLi>)
    ensures HeadThenReplies(topicHead, replies).Ok? <==> AllReadable(ForestNodes(replies))
    ensures HeadThenReplies(topicHead, replies).Ok? ==>
      && HeadThenReplies(topicHead, replies).value[0] == topicHead.entry
      && |HeadThenReplies(topicHead, replies).value| == 1 + |ForestNodes(replies)|
      && (forall i :: 0 < i < |HeadThenReplies(topicHead, replies).value| ==>
            && HeadThenReplies(topicHead, replies).value[i].headId == topicHead.entry.id
            && !HeadThenReplies(topicHead, replies).value[i].isHead
            && HeadThenReplies(topicHead, replies).value[i].byOwner
               == Some(ReplyIp(ForestNodes(replies)[i - 1]) == Some(topicHead.authorIp)))
  {
    var checker := Some(MakeByOwnerChecker(topicHead.authorIp));
    var record := HeadReader(topicHead);
    ReaderFaithful(topicHead.entry.id, checker);
    ForestOk(record, replies, None);
    var f := Forest(record, replies, None);
    if f.Ok? {
      var ns := ForestNodes(replies);
      ForestAligned(record, replies, None);
      var all := [topicHead.entry] + f.value;
      assert HeadThenReplies(topicHead, replies).value == all;
      forall i | 0 < i < |all|
        ensures all[i].headId == topicHead.entry.id && !all[i].isHead
        ensures all[i].byOwner == Some(ReplyIp(ns[i - 1]) == Some(topicHead.authorIp))
      {
        assert all[i] == f.value[i - 1];
        assert RecordOf(record)(ns[i - 1], f.value[i - 1]);
        ReplyEntrySpec(ns[i - 1], topicHead.entry.id, f.value[i - 1].parentId, checker);
        ByOwnerOfStarter(topicHead.authorIp, ReplyIp(ns[i - 1]));
      }
    }
  }

  /** Subtree `k` of a forest placed after one record sits right after that record and the subtrees before it. */
  lemma PrependedAt(record: Recorder, first: Entry, lis: seq<ReplyLi>, k: nat)
    requires Faithful(record) && Forest(record, lis, None).Ok? && k < |lis|
    ensures Tree(record, lis[k], None).Ok?
    ensures 1 + |ForestNodes(lis[..k])| + |Nodes(lis[k])| <= 1 + |Forest(record, lis, None).value|
    ensures ([first] + Forest(record, lis, None).value)[1 + |ForestNodes(lis[..k])|..][..|Nodes(lis[k])|]
         == Tree(record, lis[k], None).value
    ensures ([first] + Forest(record, lis, None).value)[1 + |ForestNodes(lis[..k])|].parentId.None?
  {
    var rs := Forest(record, lis, None).value;
    ForestAt(record, lis, None, k);
    var sub := Tree(record, lis[k], None).value;
    TreeLinked(record, lis[k], None);
    TreeAligned(record, lis[k], None);
    var off := |ForestNodes(lis[..k])|;
    SliceShift([first], rs, off, |Nodes(lis[k])|);
    assert ([first] + rs)[1 + off] == sub[0];
  }

  /** Top-level reply `k`'s flattened subtree follows the head and the subtrees before it, and starts with no parent. */
  lemma HeadThenRepliesTopLevel(topicHead: TopicHead, replies: seq<ReplyLi>, k: nat)
    requires HeadThenReplies(topicHead, replies).Ok? && k < |replies|
    ensures Flatten(replies[k], topicHead.entry.id, None, Some(MakeByOwnerChecker(topicHead.authorIp))).Ok?
    ensures 1 + |ForestNodes(replies[..k])| + |Nodes(replies[k])| <= |HeadThenReplies(topicHead, replies).value|
    ensures HeadThenReplies(topicHead, replies).value[1 + |ForestNodes(replies[..k])|..][..|Nodes(replies[k])|]
         == Flatten(replies[k], topicHead.entry.id, None, Some(MakeByOwnerChecker(topicHead.authorIp))).value
    ensures HeadThenReplies(topicHead, replies).value[1 + |ForestNodes(replies[..k])|].parentId.None?
  {
    ReaderFaithful(topicHead.entry.id, Some(MakeByOwnerChecker(topicHead.authorIp)));
    PrependedAt(HeadReader(topicHead), topicHead.entry, replies, k);
  }
}
