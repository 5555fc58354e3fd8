/**
 * The item pipelines: the identity pipeline every item passes through, and
 * the Russian-date helpers of `RuDatePipeline`, which, unlike the spiders'
 * month lookup, fold the month's case before looking it up.
 */
module Pipelines {
  import opened PyBase
  import opened Strings
  import opened Calendar
  import opened PyDicts
  import opened ForumUtils

  /** `ForumYktPipeline.process_item`: items pass unchanged. */
  function ProcessItem<T>(item: T): (r: T)
    ensures r == item
  {
    item
  }

  /** `RuDatePipeline.convert_month`: `months[month[:3].lower()]`. */
  function ConvertMonth(month: string): (r: Result<int>)
    ensures r.Ok? ==> 1 <= r.value <= 12 && MONTHS[r.value - 1].0 == Lower(Prefix(month, 3))
    ensures r.Err? ==> r.error == KeyError
  {
    MonthsTable();
    Lookup(MONTHS, Lower(Prefix(month, 3)))
  }

  /** The pipeline's lookup is the spiders' lookup applied to the lower-cased word. */
  lemma ConvertMonthFolds(month: string)
    ensures ConvertMonth(month) == RuMonthToInt(Lower(month))
  {
    LowerPrefix(month, 3);
  }

  /** `str.lower` as modelled leaves lower-case text alone. */
  lemma LowerIdempotent(s: string)
    ensures Lower(Lower(s)) == Lower(s)
  {
  }

  /** The month's case does not matter: a word and its lower-case form name the same month. */
  lemma ConvertMonthIgnoresCase(month: string)
    ensures ConvertMonth(month) == ConvertMonth(Lower(month))
  {
    LowerIdempotent(month);
    ConvertMonthFolds(month);
    ConvertMonthFolds(Lower(month));
  }

  /** On lower-case text the pipeline and the spiders' lookup agree. */
  lemma ConvertMonthAgrees(month: string)
    requires Lower(month) == month
    ensures ConvertMonth(month) == RuMonthToInt(month)
  {
    ConvertMonthFolds(month);
  }

  /** Any word whose first three letters fold to a month's key names that month. */
  lemma ConvertMonthOfName(m: int, word: string)
    requires 1 <= m <= 12 && Lower(Prefix(word, 3)) == MONTHS[m - 1].0
    ensures ConvertMonth(word) == Ok(m)
  {
    LowerPrefix(word, 3);
    MonthsTable();
    GetAt(MONTHS, m - 1);
  }

  /**
   * `RuDatePipeline.parse_date(timestamp, sep)`: `day month year` split at
   * `sep`, then read field by field.
   */
  function ParseDate(timestamp: string, sep: string): (r: Result<DateTime>)
    ensures r.Ok? ==> Valid(r.value) && r.value == Midnight(r.value)
  {
    if sep == [] then Err(ValueError)
    else
      var parts := Split(timestamp, sep);
      if |parts| != 3 then Err(ValueError)
      else DateOfFields(parts[0], parts[1], parts[2])
  }

  /** The unpacked fields: the month is looked up first, then the year and the day are read, then the date is built. */
  function DateOfFields(day: string, month: string, year: string): (r: Result<DateTime>)
    ensures r.Ok? ==> Valid(r.value) && r.value == Midnight(r.value)
    ensures r.Err? ==> r.error == KeyError || r.error == ValueError
  {
    var monthInt :- ConvertMonth(month);
    var y :- PyInt(year);
    var d :- PyInt(day);
    NewDate(y, monthInt, d)
  }

  /**
   * An unknown month is a KeyError whatever the numbers hold; with a known
   * month and two integers the date is the one the constructor builds.
   */
  lemma DateOfFieldsSpec(day: string, month: string, year: string)
    ensures ConvertMonth(month).Err? ==> DateOfFields(day, month, year) == Err(KeyError)
    ensures ConvertMonth(month).Ok? && PyInt(year).Ok? && PyInt(day).Ok? ==>
      DateOfFields(day, month, year) == NewDate(PyInt(year).value, ConvertMonth(month).value, PyInt(day).value)
    ensures ConvertMonth(month).Ok? && (PyInt(year).Err? || PyInt(day).Err?) ==>
      DateOfFields(day, month, year) == Err(ValueError)
  {
  }

  /** `split` refuses an empty separator. */
  lemma ParseDateEmptySeparator(timestamp: string)
    ensures ParseDate(timestamp, "") == Err(ValueError)
  {
  }

  /** Not exactly three fields: the unpacking raises ValueError. */
  lemma ParseDateFieldCount(timestamp: string, sep: string)
    requires sep != [] && |Split(timestamp, sep)| != 3
    ensures ParseDate(timestamp, sep) == Err(ValueError)
  {
  }

  /** The three space-separated fields of `a w b`. */
  lemma ThreeFields(a: string, w: string, b: string)
    requires Token(a) && Token(w) && Token(b)
    ensures Split(a + " " + w + " " + b, " ") == [a, w, b]
  {
    JoinThree(a, w, b, " ");
    SpacedTokens([a, w, b]);
  }

  /** With three fields, parsing is reading those fields. */
  lemma ParseDateOfFields(a: string, w: string, b: string)
    requires Token(a) && Token(w) && Token(b)
    ensures ParseDate(a + " " + w + " " + b, " ") == DateOfFields(a, w, b)
  {
    ThreeFields(a, w, b);
  }

  /** The month is read before the numbers: an unknown month is a KeyError whatever the other fields hold. */
  lemma ParseDateMonthFirst(a: string, w: string, b: string)
    requires Token(a) && Token(w) && Token(b) && ConvertMonth(w).Err?
    ensures ParseDate(a + " " + w + " " + b, " ") == Err(KeyError)
  {
    ParseDateOfFields(a, w, b);
    DateOfFieldsSpec(a, w, b);
  }

  lemma DecimalIsToken(i: int)
    ensures Token(IntToDecimal(i))
  {
    if i < 0 {
      DigitsHaveNoSeparators(NatToDecimal(-i));
    } else {
      DigitsHaveNoSeparators(NatToDecimal(i));
    }
  }

  /** The fields of a written date read back to that date at midnight. */
  lemma DateOfWrittenFields(d: DateTime, w: string)
    requires Valid(d) && Lower(Prefix(w, 3)) == MONTHS[d.month - 1].0
    ensures DateOfFields(NatToDecimal(d.day), w, IntToDecimal(d.year)) == Ok(Midnight(d))
  {
    ConvertMonthOfName(d.month, w);
    PyIntOfDigits(NatToDecimal(d.day));
    PyIntOfDecimal(d.year);
    DateOfFieldsOk(NatToDecimal(d.day), w, IntToDecimal(d.year), d.day, d.month, d.year);
  }

  lemma DateOfFieldsOk(a: string, w: string, b: string, day: int, month: int, year: int)
    requires ConvertMonth(w) == Ok(month) && PyInt(b) == Ok(year) && PyInt(a) == Ok(day)
    ensures DateOfFields(a, w, b) == NewDate(year, month, day)
  {
  }

  /**
   * A date written `D <month word> YYYY`, the month in any case, parses back
   * to that day at midnight.
   */
  lemma ParseDateRoundTrip(d: DateTime, w: string)
    requires Valid(d) && Token(w) && Lower(Prefix(w, 3)) == MONTHS[d.month - 1].0
    ensures ParseDate(NatToDecimal(d.day) + " " + w + " " + IntToDecimal(d.year), " ") == Ok(Midnight(d))
  {
    DigitsHaveNoSeparators(NatToDecimal(d.day));
    DecimalIsToken(d.year);
    ParseDateOfFields(NatToDecimal(d.day), w, IntToDecimal(d.year));
    DateOfWrittenFields(d, w);
  }
}
