/**
 * The metadata models of the parallel-Bible corpus builder: date ranges
 * with unknown or ongoing bounds, their membership and intersection tests,
 * and the conversion of a text's metadata to the corpus platform's JSON.
 *
 * `date.today()` is read whenever `ONGOING` takes part in an ordering; here
 * it is the parameter `today`.
 */
module BibleModels {
  import opened PyBase
  import opened Strings
  import opened PyDicts

  // ---------------------------------------------------------------- dates

  /** A `datetime.date`. */
  datatype Date = Date(year: int, month: int, day: int)

  /** `a <= b` on dates: year, then month, then day. */
  predicate DateLe(a: Date, b: Date) {
    a.year < b.year
    || (a.year == b.year && (a.month < b.month || (a.month == b.month && a.day <= b.day)))
  }

  lemma DateLeTotalOrder(a: Date, b: Date, c: Date)
    ensures DateLe(a, a)
    ensures DateLe(a, b) && DateLe(b, a) ==> a == b
    ensures DateLe(a, b) && DateLe(b, c) ==> DateLe(a, c)
    ensures DateLe(a, b) || DateLe(b, a)
  {
  }

  /** A bound of a range: a date, or the `ONGOING` marker. */
  datatype Endpoint = OnDate(date: Date) | Ongoing

  /** The date a bound stands for in an ordering: `ONGOING` compares as today. */
  function Moment(e: Endpoint, today: Date): (d: Date)
    ensures e.OnDate? ==> d == e.date
    ensures e.Ongoing? ==> d == today
  {
    match e
    case OnDate(d) => d
    case Ongoing => today
  }

  /**
   * `x <= y` for optional bounds: `None` on either side raises TypeError;
   * otherwise the dates compare, `ONGOING` as today.
   */
  function Le(x: Option<Endpoint>, y: Option<Endpoint>, today: Date): (r: Result<bool>)
    ensures r.Err? <==> x.None? || y.None?
    ensures r.Err? ==> r.error == TypeError
    ensures r.Ok? ==> (r.value <==> DateLe(Moment(x.value, today), Moment(y.value, today)))
  {
    if x.None? || y.None? then Err(TypeError)
    else Ok(DateLe(Moment(x.value, today), Moment(y.value, today)))
  }

  /** `x <= y <= z`: the second comparison only when the first holds. */
  function ChainLe(x: Option<Endpoint>, y: Option<Endpoint>, z: Option<Endpoint>, today: Date): Result<bool> {
    var low :- Le(x, y, today);
    if !low then Ok(false) else Le(y, z, today)
  }

  /** The chained comparison fails only on a missing bound it reaches, and otherwise is both comparisons. */
  lemma ChainLeSpec(x: Option<Endpoint>, y: Option<Endpoint>, z: Option<Endpoint>, today: Date)
    ensures ChainLe(x, y, z, today).Err? <==>
      x.None? || y.None? || (DateLe(Moment(x.value, today), Moment(y.value, today)) && z.None?)
    ensures ChainLe(x, y, z, today).Ok? ==>
      (ChainLe(x, y, z, today).value <==>
         DateLe(Moment(x.value, today), Moment(y.value, today))
         && DateLe(Moment(y.value, today), Moment(z.value, today)))
  {
  }

  // ---------------------------------------------------------------- DateRange

  /** A `DateRange`: its two bounds and the three flags set when it is made. */
  datatype DateRange = DateRange(
    start: Option<Endpoint>, end: Option<Endpoint>,
    isStartKnown: bool, isOngoing: bool, isEndKnown: bool)

  /** `DateRange(start, end)`: the flags record which bounds are known and whether the end is `ONGOING`. */
  function NewDateRange(start: Option<Endpoint>, end: Option<Endpoint>): (r: DateRange)
    ensures r.start == start && r.end == end
    ensures r.isStartKnown <==> start.Some?
    ensures r.isOngoing <==> end == Some(Ongoing)
    ensures r.isEndKnown <==> end.Some? && end != Some(Ongoing)
  {
    var ongoing := end == Some(Ongoing);
    DateRange(start, end, start.Some?, ongoing, end.Some? && !ongoing)
  }

  /** The flags of a range agree with its bounds, as they do for every range made by the constructor. */
  predicate Consistent(r: DateRange) {
    r == NewDateRange(r.start, r.end)
  }

  /** Both bounds known: the condition every test below starts with. */
  predicate Known(r: DateRange) {
    r.isStartKnown && r.isEndKnown
  }

  /** A consistent range has both bounds known exactly when it has a start and an end that is a date. */
  lemma KnownBounds(r: DateRange)
    requires Consistent(r)
    ensures Known(r) <==> r.start.Some? && r.end.Some? && r.end.value.OnDate?
  {
  }

  /** What `==`, `in` and `&` may be given: a date, a range, or something else. */
  datatype Operand = ADate(date: Date) | ARange(range: DateRange) | Other

  /** `self == other`: the bounds compare; a non-`DateRange` raises ValueError. */
  function Eq(self: DateRange, other: Operand): (r: Result<bool>)
    ensures r.Err? <==> !other.ARange?
    ensures r.Err? ==> r.error == ValueError
    ensures r.Ok? ==> (r.value <==> self.start == other.range.start && self.end == other.range.end)
  {
    match other
    case ARange(o) => Ok(self.start == o.start && self.end == o.end)
    case _ => Err(ValueError)
  }

  /** On ranges made by the constructor, `==` is equality of the ranges. */
  lemma EqIsIdentity(self: DateRange, other: DateRange)
    requires Consistent(self) && Consistent(other)
    ensures Eq(self, ARange(other)) == Ok(self == other)
  {
  }

  /** `other in self`. */
  function Contains(self: DateRange, other: Operand, today: Date): (r: Result<bool>)
    ensures !Known(self) ==> r == Ok(false)
    ensures Known(self) && other.Other? ==> r == Err(ValueError)
  {
    if !(self.isStartKnown && self.isEndKnown) then Ok(false)
    else
      match other
      case ADate(d) => ChainLe(self.start, Some(OnDate(d)), self.end, today)
      case ARange(o) =>
        var atStart :- Le(self.start, o.start, today);
        if !atStart then Ok(false) else Le(o.end, self.end, today)
      case Other => Err(ValueError)
  }

  /** In a range with known bounds, a date is contained exactly when it lies between them, never raising. */
  lemma ContainsDate(self: DateRange, d: Date, today: Date)
    requires Consistent(self) && Known(self)
    ensures Contains(self, ADate(d), today)
         == Ok(DateLe(Moment(self.start.value, today), d) && DateLe(d, self.end.value.date))
  {
    ChainLeSpec(self.start, Some(OnDate(d)), self.end, today);
  }

  /**
   * In a range with known bounds, a range is contained exactly when it
   * starts no earlier and ends no later; a missing start of the other range
   * raises TypeError, and so does a missing end once its start is in.
   */
  lemma ContainsRange(self: DateRange, other: DateRange, today: Date)
    requires Consistent(self) && Known(self)
    ensures Contains(self, ARange(other), today).Err? <==>
      other.start.None?
      || (DateLe(Moment(self.start.value, today), Moment(other.start.value, today)) && other.end.None?)
    ensures Contains(self, ARange(other), today).Err? ==> Contains(self, ARange(other), today).error == TypeError
    ensures Contains(self, ARange(other), today).Ok? ==>
      (Contains(self, ARange(other), today).value <==>
         DateLe(Moment(self.start.value, today), Moment(other.start.value, today))
         && DateLe(Moment(other.end.value, today), self.end.value.date))
  {
  }

  /** `self.intersects(other)`: one of the other range's bounds lies in this one. */
  function Intersects(self: DateRange, other: DateRange, today: Date): (r: Result<bool>)
    ensures !Known(self) ==> r == Ok(false)
  {
    if !(self.isStartKnown && self.isEndKnown) then Ok(false)
    else
      var startIn :- ChainLe(self.start, other.start, self.end, today);
      if startIn then Ok(true) else ChainLe(self.start, other.end, self.end, today)
  }

  /** A date lies between the known bounds of a range. */
  predicate Within(self: DateRange, d: Date, today: Date)
    requires self.start.Some? && self.end.Some?
  {
    DateLe(Moment(self.start.value, today), d) && DateLe(d, Moment(self.end.value, today))
  }

  /** For ranges with known bounds, `intersects` holds exactly when the other's start or end lies within this one. */
  lemma IntersectsBounds(self: DateRange, other: DateRange, today: Date)
    requires Consistent(self) && Known(self) && other.start.Some? && other.end.Some?
    ensures Intersects(self, other, today)
         == Ok(Within(self, Moment(other.start.value, today), today) || Within(self, Moment(other.end.value, today), today))
  {
    ChainLeSpec(self.start, other.start, self.end, today);
    ChainLeSpec(self.start, other.end, self.end, today);
  }

  /** `self & other`. */
  function And(self: DateRange, other: DateRange, today: Date): (r: Result<bool>)
    ensures r == Intersects(self, other, today)
  {
    Intersects(self, other, today)
  }

  /**
   * `&` is not symmetric: a range reaching past both ends of a known range
   * does not meet it, while the known range does meet the wider one.
   */
  lemma EnclosingDoesNotIntersect(self: DateRange, wider: DateRange, today: Date)
    requires Consistent(self) && Known(self) && Consistent(wider) && Known(wider)
    requires var s := self.start.value; var w := wider.start.value;
      DateLe(Moment(w, today), Moment(s, today)) && Moment(w, today) != Moment(s, today)
    requires DateLe(self.end.value.date, wider.end.value.date) && self.end != wider.end
    requires DateLe(Moment(self.start.value, today), self.end.value.date)
    ensures And(self, wider, today) == Ok(false)
    ensures And(wider, self, today) == Ok(true)
  {
    var s, e := Moment(self.start.value, today), self.end.value.date;
    var ws, we := Moment(wider.start.value, today), wider.end.value.date;
    DateLeTotalOrder(ws, s, e);
    DateLeTotalOrder(s, e, we);
    DateLeTotalOrder(e, we, ws);
    DateLeTotalOrder(ws, e, we);
    IntersectsBounds(self, wider, today);
    IntersectsBounds(wider, self, today);
  }

  /** A concrete instance: 2000–2001 meets 1990–2010, but 1990–2010 is not met by it. */
  lemma AndAsymmetric(today: Date)
    ensures var inner := NewDateRange(Some(OnDate(Date(2000, 1, 1))), Some(OnDate(Date(2001, 1, 1))));
            var outer := NewDateRange(Some(OnDate(Date(1990, 1, 1))), Some(OnDate(Date(2010, 1, 1))));
            And(inner, outer, today) == Ok(false) && And(outer, inner, today) == Ok(true)
  {
    var inner := NewDateRange(Some(OnDate(Date(2000, 1, 1))), Some(OnDate(Date(2001, 1, 1))));
    var outer := NewDateRange(Some(OnDate(Date(1990, 1, 1))), Some(OnDate(Date(2010, 1, 1))));
    EnclosingDoesNotIntersect(inner, outer, today);
  }

  /** A known range meets every well-ordered range it contains. */
  lemma ContainedIntersects(self: DateRange, other: DateRange, today: Date)
    requires Consistent(self) && Known(self)
    requires Contains(self, ARange(other), today) == Ok(true)
    requires DateLe(Moment(other.start.value, today), Moment(other.end.value, today))
    ensures Intersects(self, other, today) == Ok(true)
  {
    ContainsRange(self, other, today);
    IntersectsBounds(self, other, today);
    var s, e := Moment(self.start.value, today), self.end.value.date;
    DateLeTotalOrder(Moment(other.start.value, today), Moment(other.end.value, today), e);
  }

  /** The well-ordering is needed: 1995–2010 holds the reversed range 2005–1992 without meeting it. */
  lemma ContainedReversedMisses(today: Date)
    ensures var outer := NewDateRange(Some(OnDate(Date(1995, 1, 1))), Some(OnDate(Date(2010, 1, 1))));
            var reversed := NewDateRange(Some(OnDate(Date(2015, 1, 1))), Some(OnDate(Date(1992, 1, 1))));
            Contains(outer, ARange(reversed), today) == Ok(true) && Intersects(outer, reversed, today) == Ok(false)
  {
    var outer := NewDateRange(Some(OnDate(Date(1995, 1, 1))), Some(OnDate(Date(2010, 1, 1))));
    var reversed := NewDateRange(Some(OnDate(Date(2015, 1, 1))), Some(OnDate(Date(1992, 1, 1))));
    ContainsRange(outer, reversed, today);
    IntersectsBounds(outer, reversed, today);
  }

  // ---------------------------------------------------------------- text metadata

  /** A value of the dictionaries `asdict` builds. */
  datatype Json =
    | JNone
    | JStr(s: string)
    | JInt(i: int)
    | JDate(date: Date)
    | JOngoing
    | JRange(range: DateRange)
    | JList(items: seq<Json>)
    | JDict(entries: Dict<string, Json>)

  predicate NotNone(v: Json) {
    v != JNone
  }

  /**
   * `filter_empty`: the items whose value is not `None`, in their order,
   * each once: the result is `d` read at the ascending positions of those
   * items.
   */
  function FilterEmpty<K(==, !new)>(d: Dict<K, Json>): (r: Dict<K, Json>)
    ensures forall i :: 0 <= i < |r| ==> r[i] in d && r[i].1 != JNone
    ensures forall i :: 0 <= i < |d| && d[i].1 != JNone ==> d[i] in r
    ensures var ix := KeptPositions(d, NotNone);
      && |ix| == |r|
      && (forall j :: 0 <= j < |ix| ==> ix[j] < |d| && r[j] == d[ix[j]])
      && (forall j, j' :: 0 <= j < j' < |ix| ==> ix[j] < ix[j'])
      && (forall i :: 0 <= i < |d| ==> (d[i].1 != JNone <==> i in ix))
  {
    var r := FilterValues(d, NotNone);
    FilterValuesSpec(d, NotNone);
    FilterValuesOrder(d, NotNone);
    forall i | 0 <= i < |r| ensures r[i] in d && r[i].1 != JNone {
      assert r[i] in r;
      assert NotNone(r[i].1);
    }
    r
  }

  /** Falsy values other than `None` survive: only `None` is removed. */
  lemma FilterEmptyKeepsFalsy<K(!new)>(d: Dict<K, Json>, k: K)
    ensures (k, JStr("")) in d ==> (k, JStr("")) in FilterEmpty(d)
    ensures (k, JInt(0)) in d ==> (k, JInt(0)) in FilterEmpty(d)
    ensures (k, JList([])) in d ==> (k, JList([])) in FilterEmpty(d)
    ensures (k, JNone) !in FilterEmpty(d)
  {
  }

  /** A dict without `None` values passes unchanged. */
  lemma FilterEmptyIdempotent<K(!new)>(d: Dict<K, Json>)
    ensures FilterEmpty(FilterEmpty(d)) == FilterEmpty(d)
  {
    var e := FilterEmpty(d);
    FilterValuesSpec(e, NotNone);
    assert forall i :: 0 <= i < |e| ==> e[i] in e;
  }

  /** `_get_year`: the year of a date; `None` for `None` and for `ONGOING`, whose `year` is `None`. */
  function GetYear(maybeDate: Option<Endpoint>): (r: Option<int>)
    ensures r.Some? <==> maybeDate.Some? && maybeDate.value.OnDate?
    ensures r.Some? ==> r.value == maybeDate.value.date.year
  {
    match maybeDate
    case None => None
    case Some(OnDate(d)) => Some(d.year)
    case Some(Ongoing) => None
  }

  /** A `writing_date`, `date_born` or `date_died`: a date, a range, or `ONGOING`. */
  datatype Dating = DatedOn(date: Date) | Ranged(range: DateRange) | StillOngoing

  /** A chapter: a name or a number. */
  datatype Chapter = ChapterName(name: string) | ChapterNumber(number: int)

  /** `AuthorMeta`. */
  datatype AuthorMeta = AuthorMeta(
    fullName: Option<string>, firstName: Option<string>, lastName: Option<string>,
    dateBorn: Option<Dating>, dateDied: Option<Dating>)

  const NO_AUTHOR_NAME := "<no author>"
  const NO_AUTHOR := AuthorMeta(Some(NO_AUTHOR_NAME), None, None, None, None)
  const NO_TITLE := "<no title>"

  /** `TextMeta`. */
  datatype TextMeta = TextMeta(
    title: string, chapter: Option<Chapter>, writingDate: Option<Dating>,
    authors: seq<AuthorMeta>, url: Option<string>)

  /** `TextMeta()` with every field left at its default. */
  function DefaultTextMeta(): (t: TextMeta)
    ensures t.title == NO_TITLE && t.chapter.None? && t.writingDate.None? && t.url.None?
    ensures t.authors == [NO_AUTHOR]
  {
    TextMeta(NO_TITLE, None, None, [NO_AUTHOR], None)
  }

  function StrJson(s: Option<string>): Json {
    match s
    case None => JNone
    case Some(v) => JStr(v)
  }

  function IntJson(n: Option<int>): Json {
    match n
    case None => JNone
    case Some(v) => JInt(v)
  }

  /** `asdict` copies a date, a range or `ONGOING` as it is. */
  function DatingJson(d: Option<Dating>): Json {
    match d
    case None => JNone
    case Some(DatedOn(day)) => JDate(day)
    case Some(Ranged(range)) => JRange(range)
    case Some(StillOngoing) => JOngoing
  }

  function ChapterJson(c: Option<Chapter>): Json {
    match c
    case None => JNone
    case Some(ChapterName(name)) => JStr(name)
    case Some(ChapterNumber(number)) => JInt(number)
  }

  /** `asdict(author)`: its fields in declaration order. */
  function AuthorJson(a: AuthorMeta): Json {
    JDict([("full_name", StrJson(a.fullName)), ("first_name", StrJson(a.firstName)),
           ("last_name", StrJson(a.lastName)), ("date_born", DatingJson(a.dateBorn)),
           ("date_died", DatingJson(a.dateDied))])
  }

  function AuthorsJson(authors: seq<AuthorMeta>): (r: seq<Json>)
    ensures |r| == |authors| && forall i :: 0 <= i < |authors| ==> r[i] == AuthorJson(authors[i])
  {
    seq(|authors|, i requires 0 <= i < |authors| => AuthorJson(authors[i]))
  }

  /** `asdict(text_meta)`: its fields in declaration order, the authors as a list of dicts. */
  function TextMetaDict(t: TextMeta): Dict<string, Json> {
    [("title", JStr(t.title)), ("chapter", ChapterJson(t.chapter)),
     ("writing_date", DatingJson(t.writingDate)), ("authors", JList(AuthorsJson(t.authors))),
     ("url", StrJson(t.url))]
  }

  /** The authors' full names, or TypeError, which `", ".join` raises on a `None` name. */
  function FullNames(authors: seq<AuthorMeta>): (r: Result<seq<string>>)
    ensures r.Ok? <==> forall i :: 0 <= i < |authors| ==> authors[i].fullName.Some?
    ensures r.Ok? ==> |r.value| == |authors| && forall i :: 0 <= i < |authors| ==> r.value[i] == authors[i].fullName.value
    ensures r.Err? ==> r.error == TypeError
    decreases |authors|
  {
    if authors == [] then Ok([])
    else if authors[0].fullName.None? then Err(TypeError)
    else
      var rest :- FullNames(authors[1..]);
      Ok([authors[0].fullName.value] + rest)
  }

  /** The years a ranged writing date adds, or nothing for any other writing date. */
  function YearKeys(writingDate: Option<Dating>): Dict<string, Json> {
    match writingDate
    case Some(Ranged(range)) => [("year_from", IntJson(GetYear(range.start))), ("year_to", IntJson(GetYear(range.end)))]
    case _ => []
  }

  /** `TextMeta.to_tsakorpus_json`. */
  function ToTsakorpusJson(t: TextMeta): Result<Dict<string, Json>> {
    var baseDict := TextMetaDict(t);
    var withYears := Update(baseDict, YearKeys(t.writingDate));
    var names :- FullNames(t.authors);
    var withAuthor := Set(withYears, "author", JStr(Join(names, ", ")));
    Ok(Set(withAuthor, "authors", JList(AuthorsJson(t.authors))))
  }

  /** The keys of the result: the fields, then `year_from` and `year_to` for a ranged writing date, then `author`. */
  function TsakorpusKeys(t: TextMeta): seq<string> {
    ["title", "chapter", "writing_date", "authors", "url"]
    + (if t.writingDate.Some? && t.writingDate.value.Ranged? then ["year_from", "year_to"] else [])
    + ["author"]
  }

  /**
   * `to_tsakorpus_json` raises TypeError exactly when an author has no full
   * name; otherwise it holds the fields as `asdict` gives them, `year_from`
   * and `year_to` only for a ranged writing date, and `author`, the
   * ", "-join of the full names.
   */
  lemma ToTsakorpusJsonSpec(t: TextMeta)
    ensures ToTsakorpusJson(t).Err? <==> exists i :: 0 <= i < |t.authors| && t.authors[i].fullName.None?
    ensures ToTsakorpusJson(t).Err? ==> ToTsakorpusJson(t).error == TypeError
    ensures ToTsakorpusJson(t).Ok? ==>
      && Keys(ToTsakorpusJson(t).value) == TsakorpusKeys(t)
      && ToTsakorpusJson(t).value[..5] == TextMetaDict(t)
      && ToTsakorpusJson(t).value[|ToTsakorpusJson(t).value| - 1] == ("author", JStr(Join(FullNames(t.authors).value, ", ")))
      && (t.writingDate.Some? && t.writingDate.value.Ranged? ==>
            ToTsakorpusJson(t).value[5..7] == YearKeys(t.writingDate)
            && ToTsakorpusJson(t).value[5] == ("year_from", IntJson(GetYear(t.writingDate.value.range.start)))
            && ToTsakorpusJson(t).value[6] == ("year_to", IntJson(GetYear(t.writingDate.value.range.end))))
  {
    var names := FullNames(t.authors);
    if names.Ok? {
      var author := ("author", JStr(Join(names.value, ", ")));
      ToTsakorpusJsonValue(t);
      TsakorpusKeysOf(t, author);
      var r := TextMetaDict(t) + YearKeys(t.writingDate) + [author];
      assert r[..5] == TextMetaDict(t);
      assert t.writingDate.Some? && t.writingDate.value.Ranged? ==> r[5..7] == YearKeys(t.writingDate);
    }
  }

  /** With every full name present, the result is the fields, then the year keys, then `author`. */
  lemma ToTsakorpusJsonValue(t: TextMeta)
    requires FullNames(t.authors).Ok?
    ensures ToTsakorpusJson(t)
         == Ok(TextMetaDict(t) + YearKeys(t.writingDate) + [("author", JStr(Join(FullNames(t.authors).value, ", ")))])
  {
    var base := TextMetaDict(t);
    var withYears := Update(base, YearKeys(t.writingDate));
    YearsAppended(t);
    var author := JStr(Join(FullNames(t.authors).value, ", "));
    AuthorAppended(withYears, author);
    AuthorsKept(Set(withYears, "author", author), base, JList(AuthorsJson(t.authors)));
  }

  lemma TsakorpusKeysOf(t: TextMeta, author: (string, Json))
    requires author.0 == "author"
    ensures Keys(TextMetaDict(t) + YearKeys(t.writingDate) + [author]) == TsakorpusKeys(t)
  {
  }

  /** The year keys, new to the dict, go after the fields. */
  lemma YearsAppended(t: TextMeta)
    ensures Update(TextMetaDict(t), YearKeys(t.writingDate)) == TextMetaDict(t) + YearKeys(t.writingDate)
  {
    var base := TextMetaDict(t);
    var years := YearKeys(t.writingDate);
    if years != [] {
      var y0, y1 := years[0], years[1];
      NotAKey(base, "year_from");
      var once := Set(base, "year_from", y0.1);
      assert once == base + [y0];
      NotAKey(once, "year_to");
      var twice := Set(once, "year_to", y1.1);
      assert twice == base + years;
      assert years[1..] == [y1] && [y1][1..] == [];
      assert Update(base, years) == Update(once, [y1]);
      assert Update(once, [y1]) == Update(twice, []);
    }
  }

  /** A key that none of the dict's items has is absent. */
  lemma NotAKey(d: Dict<string, Json>, k: string)
    requires forall i :: 0 <= i < |d| ==> d[i].0 != k
    ensures IndexOf(d, k).None?
  {
  }

  /** `author`, new to the dict, goes last. */
  lemma AuthorAppended(d: Dict<string, Json>, v: Json)
    requires forall i :: 0 <= i < |d| ==> d[i].0 != "author"
    ensures Set(d, "author", v) == d + [("author", v)]
  {
    NotAKey(d, "author");
  }

  /** Setting `authors` again to the list `asdict` already made leaves the dict as it is. */
  lemma AuthorsKept(d: Dict<string, Json>, base: Dict<string, Json>, v: Json)
    requires |base| == 5 && |d| >= 5 && d[..5] == base && base[3] == ("authors", v)
    requires forall i :: 0 <= i < 3 ==> d[i].0 != "authors"
    ensures Set(d, "authors", v) == d
  {
    assert d[3] == base[3];
    assert HasKey(d, "authors");
  }

  /** With the default authors, `author` is the no-author name. */
  lemma DefaultAuthorName(t: TextMeta)
    requires t.authors == [NO_AUTHOR]
    ensures ToTsakorpusJson(t).Ok?
    ensures ToTsakorpusJson(t).value[|ToTsakorpusJson(t).value| - 1] == ("author", JStr(NO_AUTHOR_NAME))
  {
    ToTsakorpusJsonSpec(t);
    assert FullNames(t.authors).value == [NO_AUTHOR_NAME];
  }
}
