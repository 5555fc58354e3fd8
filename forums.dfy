/**
 * The snapshot query planner of the forums spider: the query dates, the
 * product of dates, forums, listing styles and pages it asks the Wayback
 * availability API about, the per-page record of the snapshots the API
 * answered with, and the two rules that skip a query whose answer is
 * already known.
 */
module Forums {
  import opened PyBase
  import opened Strings
  import opened Calendar
  import opened PyDicts
  import opened ForumUtils

  const LATEST_DATE := DateTime(2021, 10, 31, 0, 0, 0, 0)
  const MIN_DATE := DateTime(2010, 1, 1, 0, 0, 0, 0)

  const YEAR_DAYS := 365
  const SNAPSHOTS_PER_YEAR := 12
  /** `timedelta(days=YEAR_DAYS // SNAPSHOTS_PER_YEAR)`: 30 days. */
  const DATE_DELTA: nat := YEAR_DAYS / SNAPSHOTS_PER_YEAR

  const ARCHIVE_LINK := "http://archive.org/wayback/available?"

  /** The listing styles, each URL pattern given by the text before its trailing `{}`. */
  const FORUM_LINK_PATTERNS: Dict<string, string> := [
    ("2021_viewforum", "https://forum.ykt.ru/viewforum.jsp?id="),
    ("2015_mviewforum", "https://forum.ykt.ru/mviewforum.jsp?id=")]

  const FORUM2ID: Dict<string, int> := [
    ("Сахалыы", 149),
    ("Ас-үөл", 161),
    ("Биир дойдулаахтарым", 150),
    ("Билсиhии", 158),
    ("Булт-алт", 155),
    ("Дьоhун саас", 298),
    ("Көрдүүбүн", 152),
    ("Кыыс Куо", 160),
    ("Кэпсээ", 26),
    ("Кэпсээннэр", 154),
    ("Санаалар", 27),
    ("Саха тыла", 204),
    ("Сиэр-туом", 148),
    ("Төрөппүттэр", 151),
    ("Чэгиэн", 157),
    ("Ыччат түhүлгэтэ", 153),
    ("Эн&Мин", 156)]

  const PAGE_FROM := 1
  const PAGE_TO := 500

  // ---------------------------------------------------------------- query dates

  lemma MinDateOrdinal(d: DateTime)
    requires Valid(d) && Before(MIN_DATE, d)
    ensures ToOrdinal(MIN_DATE) <= ToOrdinal(d) && ToOrdinal(d) > DATE_DELTA
  {
    assert Valid(MIN_DATE);
    OrdinalMonotone(MIN_DATE, d);
  }

  /** `date -= DATE_DELTA` on a date still after `MIN_DATE`. */
  function Step(d: DateTime): (r: DateTime)
    requires Valid(d) && Before(MIN_DATE, d)
    ensures Valid(r) && ToOrdinal(r) == ToOrdinal(d) - DATE_DELTA && Before(r, d)
    ensures r.hour == d.hour && r.minute == d.minute && r.second == d.second && r.microsecond == d.microsecond
  {
    MinDateOrdinal(d);
    SubDays(d, DATE_DELTA)
  }

  /** The dates `generate_dates` yields when it starts from `d`. */
  function DatesFrom(d: DateTime): (r: seq<DateTime>)
    requires Valid(d)
    ensures r == [] <==> !Before(MIN_DATE, d)
    ensures r != [] ==> r[0] == d
    decreases ToOrdinal(d) - ToOrdinal(MIN_DATE)
  {
    if Before(MIN_DATE, d) then
      MinDateOrdinal(d);
      [d] + DatesFrom(Step(d))
    else []
  }

  /** `generate_dates`: the query dates, newest first. */
  method GenerateDates() returns (dates: seq<DateTime>)
    ensures forall a :: 0 <= a < |dates| ==> Valid(dates[a])
    ensures dates == DatesFrom(LATEST_DATE)
  {
    dates := DatesBackFrom(LATEST_DATE);
  }

  /** The loop of `generate_dates`: back by `DATE_DELTA` from `start` while the date is after `MIN_DATE`. */
  method DatesBackFrom(start: DateTime) returns (dates: seq<DateTime>)
    requires Valid(start)
    ensures forall a :: 0 <= a < |dates| ==> Valid(dates[a])
    ensures dates == DatesFrom(start)
  {
    var date := start;
    dates := [];
    while Before(MIN_DATE, date)
      invariant Valid(date)
      invariant forall a :: 0 <= a < |dates| ==> Valid(dates[a])
      invariant dates + DatesFrom(date) == DatesFrom(start)
      decreases ToOrdinal(date) - ToOrdinal(MIN_DATE)
    {
      MinDateOrdinal(date);
      var next := Step(date);
      DatesFromUnfold(date);
      ConcatAssoc(dates, [date], DatesFrom(next));
      dates := dates + [date];
      date := next;
    }
  }

  lemma DatesFromUnfold(d: DateTime)
    requires Valid(d) && Before(MIN_DATE, d)
    ensures DatesFrom(d) == [d] + DatesFrom(Step(d))
  {
  }

  /** One more step from the last date would not be after `MIN_DATE`: the loop stops at the first such date. */
  lemma {:induction false} DatesFromLast(d: DateTime)
    requires Valid(d) && Before(MIN_DATE, d)
    ensures var r := DatesFrom(d);
      var last := r[|r| - 1]; Valid(last) && Before(MIN_DATE, last) && !Before(MIN_DATE, Step(last))
    decreases ToOrdinal(d) - ToOrdinal(MIN_DATE)
  {
    MinDateOrdinal(d);
    var n := Step(d);
    var r, t := DatesFrom(d), DatesFrom(n);
    assert r == [d] + t;
    if t != [] {
      DatesFromLast(n);
      assert r[|r| - 1] == t[|t| - 1];
    }
  }

  /**
   * Each date is the one before it less `DATE_DELTA` days (so, by `Step`'s
   * contract, strictly earlier than it).
   */
  lemma {:induction false} DatesFromSteps(d: DateTime)
    requires Valid(d)
    ensures forall i :: 0 <= i < |DatesFrom(d)| - 1 ==> StepAt(DatesFrom(d), i)
    decreases ToOrdinal(d) - ToOrdinal(MIN_DATE)
  {
    if Before(MIN_DATE, d) {
      MinDateOrdinal(d);
      var n := Step(d);
      DatesFromSteps(n);
      var r, t := DatesFrom(d), DatesFrom(n);
      assert r == [d] + t;
      forall i | 0 <= i < |r| - 1 ensures StepAt(r, i) {
        if i > 0 {
          assert StepAt(t, i - 1);
          assert r[i + 1] == t[i] && r[i] == t[i - 1];
        }
      }
    }
  }

  /** The date at `i` is after `MIN_DATE` and the next one is a `Step` back from it. */
  predicate StepAt(r: seq<DateTime>, i: nat)
    requires i + 1 < |r|
  {
    Valid(r[i]) && Before(MIN_DATE, r[i]) && r[i + 1] == Step(r[i])
  }

  /** Every query date keeps the starting date's time of day. */
  lemma {:induction false} DatesFromTimeOfDay(d: DateTime)
    requires Valid(d)
    ensures forall i :: 0 <= i < |DatesFrom(d)| ==> DatesFrom(d)[i].hour == d.hour && DatesFrom(d)[i].minute == d.minute
    decreases ToOrdinal(d) - ToOrdinal(MIN_DATE)
  {
    if Before(MIN_DATE, d) {
      MinDateOrdinal(d);
      var n := Step(d);
      DatesFromTimeOfDay(n);
      var r, t := DatesFrom(d), DatesFrom(n);
      assert r == [d] + t;
      forall i | 0 <= i < |r| ensures r[i].hour == d.hour && r[i].minute == d.minute {
        if i > 0 {
          assert r[i] == t[i - 1];
        }
      }
    }
  }

  /** The first query date is `LATEST_DATE`. */
  lemma GenerateDatesStart()
    ensures DatesFrom(LATEST_DATE) != [] && DatesFrom(LATEST_DATE)[0] == LATEST_DATE
  {
    assert Valid(LATEST_DATE);
  }

  // ---------------------------------------------------------------- links

  /** The descriptor of one listing page, as the spider passes it along with its request. */
  datatype ForumMeta = ForumMeta(
    forumName: string, forumStyle: string, forumId: int, page: int,
    queryDate: DateTime, origUrl: string)

  /** An availability query: its URL and the page it asks about. */
  datatype Source = Source(origUrl: string, meta: ForumMeta)

  /** `pattern.format(forum_id)` for a pattern whose only field `{}` ends it. */
  function FormatLink(pattern: string, forumId: int): string {
    pattern + IntToDecimal(forumId)
  }

  /**
   * The query for one date, forum, style and page; `encode` stands for the
   * URL quoting of `encode_url`.
   */
  function SourceFor(date: DateTime, forum: (string, int), style: (string, string), page: int,
                     encode: string -> string): Source
    requires Valid(date)
  {
    var forumPageUrl := FormatLink(style.1, forum.1) + "&page=" + IntToDecimal(page);
    Source(ARCHIVE_LINK + "url=" + encode(forumPageUrl) + "&timestamp=" + ToWebarchiveDate(date),
           ForumMeta(forum.0, style.0, forum.1, page, date, forumPageUrl))
  }

  /** The blocks one after another. */
  function Flatten<T>(blocks: seq<seq<T>>): seq<T> {
    if blocks == [] then [] else Flatten(blocks[..|blocks| - 1]) + blocks[|blocks| - 1]
  }

  lemma FlattenSnoc<T>(blocks: seq<seq<T>>, i: nat)
    requires i < |blocks|
    ensures Flatten(blocks[..i + 1]) == Flatten(blocks[..i]) + blocks[i]
  {
    assert blocks[..i + 1][..i] == blocks[..i];
  }

  lemma SliceSnoc<T>(s: seq<T>, i: nat)
    requires i < |s|
    ensures s[..i + 1] == s[..i] + [s[i]]
  {
  }

  /** Every block holds `n` items. */
  predicate Uniform<T>(blocks: seq<seq<T>>, n: nat) {
    forall j :: 0 <= j < |blocks| ==> |blocks[j]| == n
  }

  /** With blocks of `n` items, item `k` of block `i` is item `i * n + k` of the whole. */
  lemma {:induction false} FlattenAt<T>(blocks: seq<seq<T>>, n: nat, i: nat, k: nat)
    requires Uniform(blocks, n) && i < |blocks| && k < n
    ensures |Flatten(blocks)| == |blocks| * n
    ensures i * n + k < |Flatten(blocks)| && Flatten(blocks)[i * n + k] == blocks[i][k]
  {
    var m := |blocks| - 1;
    var init := blocks[..m];
    assert Uniform(init, n);
    if i < m {
      FlattenAt(init, n, i, k);
      assert i * n + k < m * n by {
        assert i + 1 <= m;
        MulMonotone(i + 1, m, n);
      }
    } else {
      if m > 0 {
        FlattenAt(init, n, 0, k);
      } else {
        assert init == [];
      }
    }
  }

  lemma MulMonotone(a: nat, b: nat, n: nat)
    requires a <= b
    ensures a * n <= b * n
  {
  }

  /** The pages of one forum in one style, `PAGE_FROM` up to `PAGE_TO - 1`. */
  function PageLinks(date: DateTime, forum: (string, int), style: (string, string),
                     encode: string -> string): (r: seq<Source>)
    requires Valid(date)
    ensures |r| == PAGE_TO - PAGE_FROM
  {
    seq(PAGE_TO - PAGE_FROM, k requires 0 <= k < PAGE_TO - PAGE_FROM =>
      SourceFor(date, forum, style, PAGE_FROM + k, encode))
  }

  lemma PageLinksAt(date: DateTime, forum: (string, int), style: (string, string), k: nat,
                    encode: string -> string)
    requires Valid(date) && k < PAGE_TO - PAGE_FROM
    ensures PageLinks(date, forum, style, encode)[k] == SourceFor(date, forum, style, PAGE_FROM + k, encode)
  {
    var pages := PageLinks(date, forum, style, encode);
    var source := SourceFor(date, forum, style, PAGE_FROM + k, encode);
    assert pages[k] == source;
  }

  function StyleBlocks(date: DateTime, forum: (string, int), styles: Dict<string, string>,
                       encode: string -> string): (r: seq<seq<Source>>)
    requires Valid(date)
    ensures |r| == |styles|
  {
    seq(|styles|, c requires 0 <= c < |styles| => PageLinks(date, forum, styles[c], encode))
  }

  function ForumBlocks(date: DateTime, forums: Dict<string, int>, styles: Dict<string, string>,
                       encode: string -> string): (r: seq<seq<Source>>)
    requires Valid(date)
    ensures |r| == |forums|
  {
    seq(|forums|, b requires 0 <= b < |forums| => Flatten(StyleBlocks(date, forums[b], styles, encode)))
  }

  function DateBlocks(dates: seq<DateTime>, forums: Dict<string, int>, styles: Dict<string, string>,
                      encode: string -> string): (r: seq<seq<Source>>)
    requires forall a :: 0 <= a < |dates| ==> Valid(dates[a])
    ensures |r| == |dates|
  {
    seq(|dates|, a requires 0 <= a < |dates| => Flatten(ForumBlocks(dates[a], forums, styles, encode)))
  }

  /** Everything `make_links` yields for the given dates, forums and styles. */
  function Links(dates: seq<DateTime>, forums: Dict<string, int>, styles: Dict<string, string>,
                 encode: string -> string): seq<Source>
    requires forall a :: 0 <= a < |dates| ==> Valid(dates[a])
  {
    Flatten(DateBlocks(dates, forums, styles, encode))
  }

  /** One forum on one date: both styles in turn. */
  lemma StyleLinksAt(date: DateTime, forum: (string, int), styles: Dict<string, string>,
                     c: nat, k: nat, encode: string -> string)
    requires Valid(date) && |styles| == 2 && c < 2 && k < 499
    ensures var r := Flatten(StyleBlocks(date, forum, styles, encode));
      |r| == 998 && r[c * 499 + k] == PageLinks(date, forum, styles[c], encode)[k]
  {
    var blocks := StyleBlocks(date, forum, styles, encode);
    assert Uniform(blocks, 499);
    FlattenAt(blocks, 499, c, k);
  }

  lemma ForumBlocksUniform(date: DateTime, forums: Dict<string, int>, styles: Dict<string, string>,
                           encode: string -> string)
    requires Valid(date) && |styles| == 2
    ensures Uniform(ForumBlocks(date, forums, styles, encode), 998)
  {
    var blocks := ForumBlocks(date, forums, styles, encode);
    forall j | 0 <= j < |blocks| ensures |blocks[j]| == 998 {
      StyleLinksAt(date, forums[j], styles, 0, 0, encode);
    }
  }

  /** One date: the seventeen forums in turn. */
  lemma ForumLinksAt(date: DateTime, forums: Dict<string, int>, styles: Dict<string, string>,
                     b: nat, c: nat, k: nat, encode: string -> string)
    requires Valid(date) && |forums| == 17 && |styles| == 2 && b < 17 && c < 2 && k < 499
    ensures var r := Flatten(ForumBlocks(date, forums, styles, encode));
      |r| == 16966 && r[b * 998 + c * 499 + k] == PageLinks(date, forums[b], styles[c], encode)[k]
  {
    ForumBlocksUniform(date, forums, styles, encode);
    StyleLinksAt(date, forums[b], styles, c, k, encode);
    FlattenAt(ForumBlocks(date, forums, styles, encode), 998, b, c * 499 + k);
  }

  lemma DateBlocksUniform(dates: seq<DateTime>, forums: Dict<string, int>, styles: Dict<string, string>,
                          encode: string -> string)
    requires forall i :: 0 <= i < |dates| ==> Valid(dates[i])
    requires |forums| == 17 && |styles| == 2
    ensures Uniform(DateBlocks(dates, forums, styles, encode), 16966)
  {
    var blocks := DateBlocks(dates, forums, styles, encode);
    forall j | 0 <= j < |blocks| ensures |blocks[j]| == 16966 {
      ForumLinksAt(dates[j], forums, styles, 0, 0, 0, encode);
    }
  }

  /**
   * The full product, the date outermost, then the forum, then the style,
   * then the page innermost: the query for date `a`, forum `b`, style `c`
   * and page `PAGE_FROM + k` is number `((a * 17 + b) * 2 + c) * 499 + k`.
   */
  lemma LinksAt(dates: seq<DateTime>, forums: Dict<string, int>, styles: Dict<string, string>,
                a: nat, b: nat, c: nat, k: nat, encode: string -> string)
    requires forall i :: 0 <= i < |dates| ==> Valid(dates[i])
    requires |forums| == 17 && |styles| == 2
    requires a < |dates| && b < 17 && c < 2 && k < 499
    ensures var r := Links(dates, forums, styles, encode);
      |r| == |dates| * 16966
      && r[a * 16966 + b * 998 + c * 499 + k] == SourceFor(dates[a], forums[b], styles[c], PAGE_FROM + k, encode)
  {
    var blocks := DateBlocks(dates, forums, styles, encode);
    var inner := b * 998 + c * 499 + k;
    DateBlocksUniform(dates, forums, styles, encode);
    FlattenAt(blocks, 16966, a, inner);
    ForumLinksAt(dates[a], forums, styles, b, c, k, encode);
    PageLinksAt(dates[a], forums[b], styles[c], k, encode);
    assert a * 16966 + b * 998 + c * 499 + k == a * 16966 + inner;
  }

  /** `make_links`: the queries for every date `generate_dates` yields. */
  method MakeLinks(encode: string -> string) returns (links: seq<Source>)
    ensures var dates := DatesFrom(LATEST_DATE);
      (forall a :: 0 <= a < |dates| ==> Valid(dates[a]))
      && links == Links(dates, FORUM2ID, FORUM_LINK_PATTERNS, encode)
  {
    var dates := GenerateDates();
    links := LinksFor(dates, FORUM2ID, FORUM_LINK_PATTERNS, encode);
  }

  /**
   * The two outer loops of `make_links`, the date outermost, then the forum;
   * `ForumLinksFor` holds the two inner ones.
   */
  method LinksFor(dates: seq<DateTime>, forums: Dict<string, int>, styles: Dict<string, string>,
                  encode: string -> string) returns (links: seq<Source>)
    requires forall a :: 0 <= a < |dates| ==> Valid(dates[a])
    ensures links == Links(dates, forums, styles, encode)
  {
    ghost var dateBlocks := DateBlocks(dates, forums, styles, encode);
    links := [];
    for a := 0 to |dates|
      invariant links == Flatten(dateBlocks[..a])
    {
      var date := dates[a];
      ghost var forumBlocks := ForumBlocks(date, forums, styles, encode);
      ghost var beforeDate := links;
      for b := 0 to |forums|
        invariant links == beforeDate + Flatten(forumBlocks[..b])
      {
        var more := ForumLinksFor(date, forums[b], styles, encode);
        links := links + more;
        FlattenSnoc(forumBlocks, b);
      }
      assert forumBlocks[..|forums|] == forumBlocks;
      FlattenSnoc(dateBlocks, a);
    }
    assert dateBlocks[..|dates|] == dateBlocks;
  }

  /** The two inner loops of `make_links`: the styles, then the pages, of one forum on one date. */
  method ForumLinksFor(date: DateTime, forum: (string, int), styles: Dict<string, string>,
                       encode: string -> string) returns (links: seq<Source>)
    requires Valid(date)
    ensures links == Flatten(StyleBlocks(date, forum, styles, encode))
  {
    ghost var styleBlocks := StyleBlocks(date, forum, styles, encode);
    links := [];
    for c := 0 to |styles|
      invariant links == Flatten(styleBlocks[..c])
    {
      var more := PageLinksFor(date, forum, styles[c], encode);
      links := links + more;
      FlattenSnoc(styleBlocks, c);
    }
    assert styleBlocks[..|styles|] == styleBlocks;
  }

  /** The innermost loop of `make_links`: pages `PAGE_FROM` up to `PAGE_TO - 1`. */
  method PageLinksFor(date: DateTime, forum: (string, int), style: (string, string),
                      encode: string -> string) returns (links: seq<Source>)
    requires Valid(date)
    ensures links == PageLinks(date, forum, style, encode)
  {
    ghost var pages := PageLinks(date, forum, style, encode);
    links := [];
    for page := PAGE_FROM to PAGE_TO
      invariant links == pages[..page - PAGE_FROM]
    {
      var data := SourceFor(date, forum, style, page, encode);
      PageLinksAt(date, forum, style, page - PAGE_FROM, encode);
      SliceSnoc(pages, page - PAGE_FROM);
      links := links + [data];
    }
    assert pages[..PAGE_TO - PAGE_FROM] == pages;
  }

  // ---------------------------------------------------------------- observations

  /** `make_key_from_meta`: the page a descriptor asks about, `(forum_id, forum_style, page)`. */
  type Key = (int, string, int)

  function MakeKey(meta: ForumMeta): Key {
    (meta.forumId, meta.forumStyle, meta.page)
  }

  /** The key names the page only: the forum's name, the query date and the URL do not enter it. */
  lemma MakeKeyOfPage(a: ForumMeta, b: ForumMeta)
    ensures MakeKey(a) == MakeKey(b) <==> a.forumId == b.forumId && a.forumStyle == b.forumStyle && a.page == b.page
  {
  }

  /** What the availability API answered for one key, oldest first; `None` when it had no snapshot. */
  type Times = seq<Option<DateTime>>

  /** `forum_page_time2snapshot_times`. */
  type Observations = Dict<Key, Times>

  /** The two skip rules of `start_requests`, given `times` as `dict.get` returns it. */
  predicate SkipRule(times: Option<Times>, queryDate: DateTime) {
    match times
    case None => false
    case Some(t) =>
      |t| > 0 && (t[|t| - 1].None? || AtOrBefore(t[|t| - 1].value, queryDate))
  }

  /**
   * A page is skipped when its last answer was no snapshot, or a snapshot no
   * later than the query date; it is queried when nothing is known about it.
   */
  lemma SkipRuleCases(times: Option<Times>, queryDate: DateTime)
    ensures times.None? || times.value == [] ==> !SkipRule(times, queryDate)
    ensures times.Some? && times.value != [] && times.value[|times.value| - 1].None? ==> SkipRule(times, queryDate)
    ensures times.Some? && times.value != [] && times.value[|times.value| - 1].Some? ==>
      (SkipRule(times, queryDate) <==> !Before(queryDate, times.value[|times.value| - 1].value))
  {
    if times.Some? && times.value != [] && times.value[|times.value| - 1].Some? {
      BeforeIsStrictTotalOrder(times.value[|times.value| - 1].value, queryDate, queryDate);
    }
  }

  /** `times.setdefault(key, []).append(x)`. */
  function Record(obs: Observations, key: Key, x: Option<DateTime>): Observations {
    Set(obs, key, Get(obs, key).GetOr([]) + [x])
  }

  /** Recording appends exactly one entry to its own key's list and leaves every other key's list alone. */
  lemma RecordSpec(obs: Observations, key: Key, x: Option<DateTime>)
    requires DistinctKeys(obs)
    ensures DistinctKeys(Record(obs, key, x))
    ensures Get(Record(obs, key, x), key) == Some(Get(obs, key).GetOr([]) + [x])
    ensures forall k :: k != key ==> Get(Record(obs, key, x), k) == Get(obs, k)
  {
    GetSetSame(obs, key, Get(obs, key).GetOr([]) + [x]);
    forall k | k != key ensures Get(Record(obs, key, x), k) == Get(obs, k) {
      GetSetOther(obs, key, Get(obs, key).GetOr([]) + [x], k);
    }
  }

  /** The JSON the availability API answers with; `None` when `archived_snapshots` is missing. */
  datatype Answer = Answer(archivedSnapshots: Option<Dict<string, Dict<string, Value>>>)

  /** The descriptor as the keyword arguments `parse` receives. */
  function MetaItems(meta: ForumMeta): Dict<string, Value> {
    [("forum_name", VStr(meta.forumName)), ("forum_style", VStr(meta.forumStyle)),
     ("forum_id", VInt(meta.forumId)), ("page", VInt(meta.page)),
     ("query_date", VTime(meta.queryDate)), ("orig_url", VStr(meta.origUrl))]
  }

  /**
   * What `parse` makes of an answer: the entry to record and the item to
   * yield, or the error that stops it before anything is recorded.
   */
  function ParseAnswer(meta: ForumMeta, answer: Answer): (r: Result<(Option<DateTime>, Dict<string, Value>)>) {
    var snapshots :- if answer.archivedSnapshots.Some? then Ok(answer.archivedSnapshots.value) else Err(KeyError);
    if |snapshots| > 0 then
      var snapshot :- Lookup(snapshots, "closest");
      var realDate :- SnapshotDate(snapshot);
      Ok((Some(realDate), MergeSnapshot(meta, snapshot, realDate)))
    else
      Ok((None, Unavailable(meta)))
  }

  /** `convert_snapshot_timestamp(snapshot["timestamp"])`. */
  function SnapshotDate(snapshot: Dict<string, Value>): Result<DateTime> {
    var timestamp :- Lookup(snapshot, "timestamp");
    var text :- if timestamp.VStr? then Ok(timestamp.s) else Err(TypeError);
    ConvertSnapshotTimestamp(text)
  }

  /** `snapshot["real_date"] = real_date; meta.update(snapshot)`. */
  function MergeSnapshot(meta: ForumMeta, snapshot: Dict<string, Value>, realDate: DateTime): Dict<string, Value> {
    Update(MetaItems(meta), Set(snapshot, "real_date", VTime(realDate)))
  }

  /** `meta["available"] = False`. */
  function Unavailable(meta: ForumMeta): Dict<string, Value> {
    Set(MetaItems(meta), "available", VBool(false))
  }

  /** No snapshot: `None` is recorded and the item is the descriptor with `available` false. */
  lemma ParseNoSnapshot(meta: ForumMeta)
    ensures ParseAnswer(meta, Answer(Some([]))) == Ok((None, Unavailable(meta)))
    ensures Get(ParseAnswer(meta, Answer(Some([]))).value.1, "available") == Some(VBool(false))
  {
    MetaItemsKeys(meta);
    GetSetSame(MetaItems(meta), "available", VBool(false));
  }

  /**
   * A closest snapshot: its converted timestamp is recorded and the item is
   * the descriptor updated with the snapshot and its `real_date`; a key the
   * snapshot does not hold keeps the descriptor's value.
   */
  lemma {:induction false} ParseSnapshot(meta: ForumMeta, snapshot: Dict<string, Value>, stamp: string)
    requires DistinctKeys(snapshot) && Get(snapshot, "timestamp") == Some(VStr(stamp))
    requires ConvertSnapshotTimestamp(stamp).Ok?
    ensures var r := ParseAnswer(meta, Answer(Some([("closest", snapshot)])));
      var realDate := ConvertSnapshotTimestamp(stamp).value;
      && r.Ok? && r.value.0 == Some(realDate)
      && Get(r.value.1, "real_date") == Some(VTime(realDate))
      && (!HasKey(snapshot, "forum_id") ==> Get(r.value.1, "forum_id") == Some(VInt(meta.forumId)))
  {
    var items := MetaItems(meta);
    MetaItemsKeys(meta);
    var realDate := ConvertSnapshotTimestamp(stamp).value;
    var closest := Set(snapshot, "real_date", VTime(realDate));
    ParseSnapshotItem(meta, snapshot, stamp);
    GetSetSame(snapshot, "real_date", VTime(realDate));
    GetUpdate(items, closest, "real_date");
    GetUpdate(items, closest, "forum_id");
    GetSetOther(snapshot, "real_date", VTime(realDate), "forum_id");
  }

  lemma MetaItemsKeys(meta: ForumMeta)
    ensures DistinctKeys(MetaItems(meta))
    ensures Get(MetaItems(meta), "forum_id") == Some(VInt(meta.forumId))
    ensures Get(MetaItems(meta), "forum_style") == Some(VStr(meta.forumStyle))
    ensures Get(MetaItems(meta), "page") == Some(VInt(meta.page))
  {
    GetAt(MetaItems(meta), 1);
    GetAt(MetaItems(meta), 2);
    GetAt(MetaItems(meta), 3);
  }

  /** An integer field of the item, or `default` when it is missing or not an integer. */
  function IntField(item: Dict<string, Value>, name: string, default: int): int {
    var v: Option<Value> := Get(item, name);
    if v.Some? && v.value.VInt? then v.value.i else default
  }

  /** A string field of the item, or `default` when it is missing or not a string. */
  function StrField(item: Dict<string, Value>, name: string, default: string): string {
    var v: Option<Value> := Get(item, name);
    if v.Some? && v.value.VStr? then v.value.s else default
  }

  /**
   * `make_key_from_meta` of the item `parse` built, read after the snapshot
   * was merged in; a field whose merged value is not of the descriptor's type
   * keeps the descriptor's value.
   */
  function ItemKey(meta: ForumMeta, item: Dict<string, Value>): Key {
    (IntField(item, "forum_id", meta.forumId),
     StrField(item, "forum_style", meta.forumStyle),
     IntField(item, "page", meta.page))
  }

  /** The closest snapshot, when there is one, holds none of the key's fields. */
  predicate KeepsKey(answer: Answer) {
    match answer.archivedSnapshots
    case None => true
    case Some(snapshots) =>
      match Get(snapshots, "closest")
      case None => true
      case Some(c) =>
        DistinctKeys(c) && !HasKey(c, "forum_id") && !HasKey(c, "forum_style") && !HasKey(c, "page")
  }

  /**
   * With no snapshot, or a snapshot that leaves the key's fields alone, the
   * entry is recorded under the descriptor's own key.
   */
  lemma KeptKey(meta: ForumMeta, answer: Answer)
    requires KeepsKey(answer) && ParseAnswer(meta, answer).Ok?
    ensures ItemKey(meta, ParseAnswer(meta, answer).value.1) == MakeKey(meta)
  {
    MetaItemsKeys(meta);
    var snapshots := answer.archivedSnapshots.value;
    var (x, item) := ParseAnswer(meta, answer).value;
    if |snapshots| > 0 {
      var c := Get(snapshots, "closest").value;
      assert item == MergeSnapshot(meta, c, x.value);
      KeptKeyOfSnapshot(meta, c, x.value);
    } else {
      assert item == Unavailable(meta);
      KeptKeyOfUnavailable(meta);
    }
  }

  lemma KeptKeyOfSnapshot(meta: ForumMeta, c: Dict<string, Value>, realDate: DateTime)
    requires DistinctKeys(c)
    requires !HasKey(c, "forum_id") && !HasKey(c, "forum_style") && !HasKey(c, "page")
    ensures var item, items := MergeSnapshot(meta, c, realDate), MetaItems(meta);
      && Get(item, "forum_id") == Get(items, "forum_id")
      && Get(item, "forum_style") == Get(items, "forum_style")
      && Get(item, "page") == Get(items, "page")
  {
    var items := MetaItems(meta);
    MetaItemsKeys(meta);
    GetSetSame(c, "real_date", VTime(realDate));
    KeptField(items, c, "real_date", VTime(realDate), "forum_id");
    KeptField(items, c, "real_date", VTime(realDate), "forum_style");
    KeptField(items, c, "real_date", VTime(realDate), "page");
  }

  lemma KeptKeyOfUnavailable(meta: ForumMeta)
    ensures var item, items := Unavailable(meta), MetaItems(meta);
      && Get(item, "forum_id") == Get(items, "forum_id")
      && Get(item, "forum_style") == Get(items, "forum_style")
      && Get(item, "page") == Get(items, "page")
  {
    var items := MetaItems(meta);
    GetSetOther(items, "available", VBool(false), "forum_id");
    GetSetOther(items, "available", VBool(false), "forum_style");
    GetSetOther(items, "available", VBool(false), "page");
  }

  /** A key neither `c` nor the written key holds keeps `d`'s value through `d.update(c | {k: v})`. */
  lemma KeptField(d: Dict<string, Value>, c: Dict<string, Value>, k: string, v: Value, f: string)
    requires DistinctKeys(d) && DistinctKeys(Set(c, k, v)) && !HasKey(c, f) && f != k
    ensures Get(Update(d, Set(c, k, v)), f) == Get(d, f)
  {
    GetSetOther(c, k, v, f);
    GetUpdate(d, Set(c, k, v), f);
  }

  /**
   * A snapshot that carries a `page` of its own moves the entry to that page:
   * the key is read from the merged item, not from the descriptor.
   */
  lemma ParseMergedPage(meta: ForumMeta, snapshot: Dict<string, Value>, stamp: string, p: int)
    requires DistinctKeys(snapshot) && Get(snapshot, "timestamp") == Some(VStr(stamp))
    requires ConvertSnapshotTimestamp(stamp).Ok? && Get(snapshot, "page") == Some(VInt(p))
    ensures var r := ParseAnswer(meta, Answer(Some([("closest", snapshot)])));
      r.Ok? && ItemKey(meta, r.value.1).2 == p
  {
    var realDate := ConvertSnapshotTimestamp(stamp).value;
    MetaItemsKeys(meta);
    ParseSnapshotItem(meta, snapshot, stamp);
    GetSetSame(snapshot, "real_date", VTime(realDate));
    GetSetOther(snapshot, "real_date", VTime(realDate), "page");
    GetUpdate(MetaItems(meta), Set(snapshot, "real_date", VTime(realDate)), "page");
  }

  lemma ParseSnapshotItem(meta: ForumMeta, snapshot: Dict<string, Value>, stamp: string)
    requires Get(snapshot, "timestamp") == Some(VStr(stamp)) && ConvertSnapshotTimestamp(stamp).Ok?
    ensures var realDate := ConvertSnapshotTimestamp(stamp).value;
      ParseAnswer(meta, Answer(Some([("closest", snapshot)])))
      == Ok((Some(realDate), MergeSnapshot(meta, snapshot, realDate)))
  {
    GetAt([("closest", snapshot)], 0);
  }

  // ---------------------------------------------------------------- the crawl

  /** The planner's state after some queries: the observations, the requests emitted and the items yielded. */
  datatype Crawl = Crawl(observations: Observations, requests: seq<Source>, items: seq<Dict<string, Value>>)

  /**
   * One query, run to completion: skipped by the rules, or emitted and its
   * answer parsed; an answer `parse` cannot read yields nothing and
   * records nothing.
   */
  function Visit(c: Crawl, source: Source, archive: Source -> Answer): Crawl {
    if SkipRule(Get(c.observations, MakeKey(source.meta)), source.meta.queryDate) then c
    else
      match ParseAnswer(source.meta, archive(source))
      case Err(_) => c.(requests := c.requests + [source])
      case Ok((x, item)) => Crawl(Record(c.observations, ItemKey(source.meta, item), x), c.requests + [source], c.items + [item])
  }

  /** The queries in order of `make_links`, each one answered before the next is planned. */
  function Run(c: Crawl, sources: seq<Source>, archive: Source -> Answer): Crawl
    decreases |sources|
  {
    if sources == [] then c else Run(Visit(c, sources[0], archive), sources[1..], archive)
  }

  /** Recording keeps the keys distinct, and every key's list only grows. */
  lemma {:induction false} RunGrows(c: Crawl, sources: seq<Source>, archive: Source -> Answer, k: Key)
    requires DistinctKeys(c.observations)
    ensures var r := Run(c, sources, archive);
      && DistinctKeys(r.observations)
      && (HasKey(c.observations, k) ==> HasKey(r.observations, k))
      && Get(c.observations, k).GetOr([]) <= Get(r.observations, k).GetOr([])
      && c.requests <= r.requests && c.items <= r.items
      && |r.requests| - |c.requests| <= |sources|
    decreases |sources|
  {
    if sources != [] {
      var source := sources[0];
      var key := MakeKey(source.meta);
      var v := Visit(c, source, archive);
      if !SkipRule(Get(c.observations, key), source.meta.queryDate) {
        match ParseAnswer(source.meta, archive(source))
        case Err(_) =>
        case Ok((x, item)) =>
          RecordSpec(c.observations, ItemKey(source.meta, item), x);
          GetByScan(c.observations, k);
          GetByScan(v.observations, k);
      }
      RunGrows(v, sources[1..], archive, k);
    }
  }

  /**
   * Once a key's last answer is "no snapshot", every later query with that
   * key is skipped: its list stays as it is and no request for it is emitted.
   * This needs the answers' snapshots to leave the key's fields alone: one that
   * carried another page would record under that page's key
   * (`ParseMergedPage`).
   */
  lemma {:induction false} NoneIsFinal(c: Crawl, sources: seq<Source>, archive: Source -> Answer, k: Key, t: Times)
    requires DistinctKeys(c.observations)
    requires forall s :: KeepsKey(archive(s))
    requires Get(c.observations, k) == Some(t) && |t| > 0 && t[|t| - 1].None?
    ensures var r := Run(c, sources, archive);
      && Get(r.observations, k) == Some(t)
      && |c.requests| <= |r.requests|
      && forall i :: |c.requests| <= i < |r.requests| ==> MakeKey(r.requests[i].meta) != k
    decreases |sources|
  {
    if sources != [] {
      var source := sources[0];
      var key := MakeKey(source.meta);
      var v := Visit(c, source, archive);
      if !SkipRule(Get(c.observations, key), source.meta.queryDate) {
        assert key != k;
        match ParseAnswer(source.meta, archive(source))
        case Err(_) =>
        case Ok((x, item)) =>
          KeptKey(source.meta, archive(source));
          RecordSpec(c.observations, key, x);
      }
      NoneIsFinal(v, sources[1..], archive, k, t);
      var r := Run(v, sources[1..], archive);
      assert v.requests == c.requests || v.requests == c.requests + [source];
      forall i | |c.requests| <= i < |r.requests| ensures MakeKey(r.requests[i].meta) != k {
        if i >= |v.requests| {
        } else {
          assert v.requests != c.requests && r.requests[i] == v.requests[i] by {
            RunGrows(v, sources[1..], archive, k);
          }
        }
      }
    }
  }

  // ---------------------------------------------------------------- sort_dict

  /** `sorted`'s key for an observation: `(forum_style, page)`, compared as a tuple. */
  predicate KeyLess<V>(a: (Key, V), b: (Key, V)) {
    StrLess(a.0.1, b.0.1) || (a.0.1 == b.0.1 && a.0.2 < b.0.2)
  }

  /** Two entries tie when their sort keys are equal. */
  predicate SameSortKey<V>(a: (Key, V), b: (Key, V)) {
    a.0.1 == b.0.1 && a.0.2 == b.0.2
  }

  /** The sort key orders strictly and weakly: ties are exactly the pairs neither of which is less. */
  lemma KeyLessOrder<V>(a: (Key, V), b: (Key, V), c: (Key, V))
    ensures !KeyLess(a, a)
    ensures KeyLess(a, b) ==> !KeyLess(b, a)
    ensures KeyLess(a, b) && KeyLess(b, c) ==> KeyLess(a, c)
    ensures !KeyLess(a, b) && !KeyLess(b, a) <==> SameSortKey(a, b)
    ensures !KeyLess(a, b) && !KeyLess(b, c) ==> !KeyLess(a, c)
  {
    StrLessIrreflexive(a.0.1);
    StrLessTotal(a.0.1, b.0.1);
    StrLessTotal(b.0.1, c.0.1);
    StrLessTotal(a.0.1, c.0.1);
    if StrLess(a.0.1, b.0.1) && StrLess(b.0.1, a.0.1) {
      StrLessTransitive(a.0.1, b.0.1, a.0.1);
    }
    if StrLess(a.0.1, b.0.1) && StrLess(b.0.1, c.0.1) {
      StrLessTransitive(a.0.1, b.0.1, c.0.1);
    }
    if StrLess(c.0.1, b.0.1) && StrLess(b.0.1, a.0.1) {
      StrLessTransitive(c.0.1, b.0.1, a.0.1);
    }
    if StrLess(a.0.1, c.0.1) && StrLess(c.0.1, a.0.1) {
      StrLessTransitive(a.0.1, c.0.1, a.0.1);
    }
    if StrLess(b.0.1, c.0.1) && StrLess(c.0.1, b.0.1) {
      StrLessTransitive(b.0.1, c.0.1, b.0.1);
    }
  }

  /** Non-decreasing by the sort key. */
  predicate SortedByKey<V>(s: seq<(Key, V)>) {
    forall i, j :: 0 <= i < j < |s| ==> !KeyLess(s[j], s[i])
  }

  /** `x` placed after every entry whose sort key is not greater than its own. */
  function Insert<V>(s: seq<(Key, V)>, x: (Key, V)): seq<(Key, V)> {
    if s == [] || !KeyLess(x, s[|s| - 1]) then s + [x]
    else Insert(s[..|s| - 1], x) + [s[|s| - 1]]
  }

  /** `sorted(d.items(), key=...)`, a stable sort; modelled as insertion of each entry in turn. */
  function SortItems<V>(d: seq<(Key, V)>): seq<(Key, V)> {
    if d == [] then [] else Insert(SortItems(d[..|d| - 1]), d[|d| - 1])
  }

  /** `sort_dict`: the comprehension rebuilds a dict from the sorted entries. */
  function SortDict<V>(d: Dict<Key, V>): Dict<Key, V> {
    Update([], SortItems(d))
  }

  /** The entries whose sort key is `(style, page)`, in order. */
  function WithSortKey<V>(s: seq<(Key, V)>, style: string, page: int): seq<(Key, V)> {
    if s == [] then []
    else
      var last := s[|s| - 1];
      WithSortKey(s[..|s| - 1], style, page) + (if last.0.1 == style && last.0.2 == page then [last] else [])
  }

  lemma {:induction false} InsertPermutes<V>(s: seq<(Key, V)>, x: (Key, V))
    ensures multiset(Insert(s, x)) == multiset(s) + multiset{x}
    decreases |s|
  {
    if s != [] && KeyLess(x, s[|s| - 1]) {
      var init := s[..|s| - 1];
      InsertPermutes(init, x);
      assert s == init + [s[|s| - 1]];
    }
  }

  lemma {:induction false} InsertSorted<V>(s: seq<(Key, V)>, x: (Key, V))
    requires SortedByKey(s)
    ensures SortedByKey(Insert(s, x))
    decreases |s|
  {
    if s == [] {
    } else if !KeyLess(x, s[|s| - 1]) {
      var r := s + [x];
      forall i, j | 0 <= i < j < |r| ensures !KeyLess(r[j], r[i]) {
        if j == |s| {
          KeyLessOrder(x, s[|s| - 1], s[i]);
        }
      }
    } else {
      var init := s[..|s| - 1];
      var y := s[|s| - 1];
      var t := Insert(init, x);
      InsertSorted(init, x);
      InsertPermutes(init, x);
      var r := t + [y];
      forall i, j | 0 <= i < j < |r| ensures !KeyLess(r[j], r[i]) {
        if j == |t| {
          assert t[i] in multiset(t);
          if t[i] == x {
            KeyLessOrder(x, y, y);
          } else {
            assert t[i] in init;
            var k :| 0 <= k < |init| && init[k] == t[i];
            assert s[k] == t[i];
          }
        }
      }
    }
  }

  lemma {:induction false} InsertStable<V>(s: seq<(Key, V)>, x: (Key, V), style: string, page: int)
    ensures WithSortKey(Insert(s, x), style, page)
      == WithSortKey(s, style, page) + (if x.0.1 == style && x.0.2 == page then [x] else [])
    decreases |s|
  {
    var r := Insert(s, x);
    if s == [] || !KeyLess(x, s[|s| - 1]) {
      assert r[..|r| - 1] == s;
    } else {
      var init := s[..|s| - 1];
      var y := s[|s| - 1];
      InsertStable(init, x, style, page);
      assert r[..|r| - 1] == Insert(init, x);
      StrLessIrreflexive(x.0.1);
    }
  }

  lemma {:induction false} SortItemsPermutes<V>(d: seq<(Key, V)>)
    ensures multiset(SortItems(d)) == multiset(d)
    decreases |d|
  {
    if d != [] {
      var init := d[..|d| - 1];
      SortItemsPermutes(init);
      InsertPermutes(SortItems(init), d[|d| - 1]);
      assert d == init + [d[|d| - 1]];
    }
  }

  /**
   * `sort_dict`'s order: the entries are sorted by `(forum_style, page)`, are
   * a permutation of the input, and entries with the same sort key keep their
   * insertion order.
   */
  lemma {:induction false} SortItemsSpec<V>(d: seq<(Key, V)>, style: string, page: int)
    ensures SortedByKey(SortItems(d))
    ensures multiset(SortItems(d)) == multiset(d)
    ensures WithSortKey(SortItems(d), style, page) == WithSortKey(d, style, page)
    decreases |d|
  {
    SortItemsPermutes(d);
    if d != [] {
      var init := d[..|d| - 1];
      SortItemsSpec(init, style, page);
      InsertSorted(SortItems(init), d[|d| - 1]);
      InsertStable(SortItems(init), d[|d| - 1], style, page);
    }
  }

  lemma {:induction false} InsertKeepsKeysDistinct<V>(s: seq<(Key, V)>, x: (Key, V))
    requires DistinctKeys(s) && !HasKey(s, x.0)
    ensures DistinctKeys(Insert(s, x))
    decreases |s|
  {
    if s != [] && KeyLess(x, s[|s| - 1]) {
      var init := s[..|s| - 1];
      var y := s[|s| - 1];
      var t := Insert(init, x);
      InsertKeepsKeysDistinct(init, x);
      InsertPermutes(init, x);
      var r := t + [y];
      forall i, j | 0 <= i < j < |r| ensures r[i].0 != r[j].0 {
        if j == |t| {
          assert t[i] in multiset(t);
          if t[i] != x {
            assert t[i] in init;
            var k :| 0 <= k < |init| && init[k] == t[i];
            assert s[k] == t[i];
          }
        }
      }
    }
  }

  lemma {:induction false} SortItemsKeysDistinct<V>(d: seq<(Key, V)>)
    requires DistinctKeys(d)
    ensures DistinctKeys(SortItems(d))
    decreases |d|
  {
    if d != [] {
      var init := d[..|d| - 1];
      var x := d[|d| - 1];
      var t := SortItems(init);
      SortItemsKeysDistinct(init);
      SortItemsPermutes(init);
      forall k | 0 <= k < |t| ensures t[k].0 != x.0 {
        assert t[k] in multiset(init);
        var m :| 0 <= m < |init| && init[m] == t[k];
        assert d[m] == t[k];
      }
      InsertKeepsKeysDistinct(t, x);
    }
  }

  /** A dict's keys are distinct, so `sort_dict` returns exactly the sorted entries. */
  lemma SortDictIsSorted<V>(d: Dict<Key, V>)
    requires DistinctKeys(d)
    ensures SortDict(d) == SortItems(d)
    ensures DistinctKeys(SortDict(d))
  {
    SortItemsKeysDistinct(d);
    UpdateFresh([], SortItems(d));
  }

  /** The spider: its observation map, filled while the crawl runs. */
  class Planner {
    var observations: Observations

    ghost predicate Valid()
      reads this
    {
      DistinctKeys(observations)
    }

    constructor()
      ensures Valid() && observations == []
    {
      observations := [];
    }

    /** The skip rules of `start_requests` for one descriptor. */
    predicate ShouldSkip(meta: ForumMeta)
      reads this
    {
      SkipRule(Get(observations, MakeKey(meta)), meta.queryDate)
    }

    /**
     * `parse`: records one entry under the key of the item it yields (the
     * descriptor merged with the snapshot), or raises and records nothing.
     */
    method Parse(meta: ForumMeta, answer: Answer) returns (item: Result<Dict<string, Value>>)
      requires Valid()
      modifies this
      ensures Valid()
      ensures match ParseAnswer(meta, answer)
        case Ok((x, d)) => item == Ok(d) && observations == Record(old(observations), ItemKey(meta, d), x)
        case Err(e) => item == Err(e) && observations == old(observations)
    {
      var r := ParseAnswer(meta, answer);
      match r
      case Err(e) =>
        item := Err(e);
      case Ok((x, d)) =>
        RecordSpec(observations, ItemKey(meta, d), x);
        observations := Record(observations, ItemKey(meta, d), x);
        item := Ok(d);
    }

    /**
     * `start_requests` with each emitted request answered by `archive` and
     * parsed before the next descriptor is planned.
     */
    method StartRequests(encode: string -> string, archive: Source -> Answer)
      returns (requests: seq<Source>, items: seq<Dict<string, Value>>)
      modifies this
      ensures Valid()
      ensures var dates := DatesFrom(LATEST_DATE);
        (forall a :: 0 <= a < |dates| ==> Calendar.Valid(dates[a]))
        && Crawl(observations, requests, items)
           == Run(Crawl([], [], []), Links(dates, FORUM2ID, FORUM_LINK_PATTERNS, encode), archive)
    {
      observations := [];
      var links := MakeLinks(encode);
      ghost var goal := Run(Crawl([], [], []), links, archive);
      requests, items := [], [];
      for i := 0 to |links|
        invariant Valid()
        invariant Run(Crawl(observations, requests, items), links[i..], archive) == goal
      {
        var source := links[i];
        assert links[i..][0] == source && links[i..][1..] == links[i + 1..];
        if !ShouldSkip(source.meta) {
          requests := requests + [source];
          var item := Parse(source.meta, archive(source));
          if item.Ok? {
            items := items + [item.value];
          }
        }
      }
      assert links[|links|..] == [];
    }
  }
}
