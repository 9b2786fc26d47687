/**
 * The report driver: the month iterator, the `YYYY-MM` month label, and the assembly of
 * one eleven-column row per month from the monthly aggregates.
 */
module MonthlyReport {
  import opened Wrappers
  import opened Calendar
  import opened Rows
  import opened MonthlyQuery

  /** The first month of the report. */
  const Start: Date := Date(2020, 8, 1)

  // ---------------------------------------------------------------- months

  /** Every first of month from `start`'s month through `today`'s month, in order. */
  function MonthRange(start: Date, today: Date): seq<Date>
    requires Valid(start) && Valid(today)
  {
    var n := MonthIndex(today) - MonthIndex(start) + 1;
    seq(if n > 0 then n else 0, i requires 0 <= i => MonthOfIndex(MonthIndex(start) + i))
  }

  /**
   * The month range starts at `start`'s month, steps one calendar month at a time, never
   * passes `today`'s first of month, stops only when the next step would, and is empty
   * exactly when `start`'s month is after `today`'s.
   */
  lemma MonthRangeShape(start: Date, today: Date)
    requires Valid(start) && Valid(today)
    ensures var r := MonthRange(start, today);
      && (forall i :: 0 <= i < |r| ==> Valid(r[i]) && r[i].day == 1)
      && (forall i :: 0 <= i < |r| ==> MonthIndex(start) <= MonthIndex(r[i]) <= MonthIndex(today))
      && (forall i :: 0 <= i < |r| - 1 ==> r[i + 1] == NextMonthStart(r[i]))
      && (r == [] <==> !DateLe(FirstOfMonth(start), FirstOfMonth(today)))
      && (r != [] ==> r[0] == FirstOfMonth(start))
      && (r != [] ==> DateLe(r[|r| - 1], FirstOfMonth(today)))
      && (r != [] ==> !DateLe(NextMonthStart(r[|r| - 1]), FirstOfMonth(today)))
  {
    var r := MonthRange(start, today);
    var s, t := FirstOfMonth(start), FirstOfMonth(today);
    forall i | 0 <= i < |r| ensures r[i] == MonthOfIndex(MonthIndex(start) + i) && Valid(r[i]) && r[i].day == 1 {
    }
    MonthStartOrder(s, t);
    MonthStartByIndex(s);
    forall i | 0 <= i < |r| - 1 ensures r[i + 1] == NextMonthStart(r[i]) {
      MonthStartByIndex(NextMonthStart(r[i]));
    }
    if r != [] {
      var last := r[|r| - 1];
      MonthStartOrder(last, t);
      MonthStartOrder(NextMonthStart(last), t);
    }
  }

  /** `for_each_month`: from `start`'s first of month, step 32 days and back to day 1. */
  method ForEachMonth(start: Date, today: Date) returns (months: seq<Date>)
    requires Valid(start) && Valid(today)
    ensures months == MonthRange(start, today)
  {
    var last := FirstOfMonth(today);
    var current := FirstOfMonth(start);
    months := [];
    while DateLe(current, last)
      invariant Valid(current) && current.day == 1
      invariant MonthIndex(current) == MonthIndex(start) + |months|
      invariant MonthIndex(current) <= MonthIndex(today) + 1 || months == []
      invariant forall i :: 0 <= i < |months| ==> months[i] == MonthOfIndex(MonthIndex(start) + i)
      decreases MonthIndex(today) - MonthIndex(current)
    {
      MonthStartOrder(current, last);
      MonthStartByIndex(current);
      var next := FirstOfMonth(AddDays(current, 32));
      Add32ThenFirst(current);
      assert next == NextMonthStart(current);
      months := months + [current];
      current := next;
    }
    MonthStartOrder(current, last);
  }

  // ---------------------------------------------------------------- month label

  function Digit(n: int): char
    requires 0 <= n < 10
  {
    "0123456789"[n]
  }

  function DigitValue(c: char): int {
    c as int - '0' as int
  }

  function Pow10(w: nat): nat {
    if w == 0 then 1 else 10 * Pow10(w - 1)
  }

  /** `n` in decimal, zero-padded to `width` digits (the low `width` digits when longer). */
  function Pad(n: nat, width: nat): (s: string)
    ensures |s| == width
  {
    if width == 0 then "" else Pad(n / 10, width - 1) + [Digit(n % 10)]
  }

  function ParseDigits(s: string): int {
    if s == [] then 0 else ParseDigits(s[..|s| - 1]) * 10 + DigitValue(s[|s| - 1])
  }

  /** Reading back a padded number gives the number, when it fits the width. */
  lemma {:induction false} ParsePad(n: nat, width: nat)
    requires n < Pow10(width)
    ensures ParseDigits(Pad(n, width)) == n
  {
    if width > 0 {
      ParsePad(n / 10, width - 1);
      var s := Pad(n, width);
      assert s[..|s| - 1] == Pad(n / 10, width - 1);
      assert DigitValue(s[|s| - 1]) == n % 10;
    }
  }

  /** `month.strftime("%Y-%m")` for a four-digit year. */
  function ShowMonth(d: Date): (s: string)
    requires 0 <= d.year <= 9999 && 1 <= d.month <= 12
    ensures |s| == 7 && s[4] == '-'
  {
    Pad(d.year, 4) + "-" + Pad(d.month, 2)
  }

  /** The label names its month: year and month read back from it. */
  lemma ShowMonthReadsBack(d: Date)
    requires 0 <= d.year <= 9999 && 1 <= d.month <= 12
    ensures ParseDigits(ShowMonth(d)[..4]) == d.year && ParseDigits(ShowMonth(d)[5..]) == d.month
  {
    var s := ShowMonth(d);
    assert s[..4] == Pad(d.year, 4);
    assert s[5..] == Pad(d.month, 2);
    assert Pow10(4) == 10000 && Pow10(2) == 100;
    ParsePad(d.year, 4);
    ParsePad(d.month, 2);
  }

  /** `_show_date`: the progress label, nothing for no month. */
  function ShowDate(month: Option<Date>): (r: Option<string>)
    requires month.Some? ==> 0 <= month.value.year <= 9999 && 1 <= month.value.month <= 12
    ensures r.None? <==> month.None?
    ensures r.Some? ==> r.value == ShowMonth(month.value)
  {
    match month
    case None => None
    case Some(d) => Some(ShowMonth(d))
  }

  // ---------------------------------------------------------------- rows

  const Header: seq<string> := [
    "Date", "Orphaned", "Orphaners", "Retired", "Adoptions", "Adopters", "Avg adoption days",
    "Packages with commits", "Committers", "Orphaners who left", "Committers who left"
  ]

  /** One CSV field. `Blank` is the empty field written for `""` and for `None`. */
  datatype Cell = Label(text: string) | Count(n: int) | Average(mean: Mean) | Blank

  /** The mean is written when it is present and non-zero (Python's truthiness). */
  function AdoptionCell(a: Option<Mean>): (c: Cell)
    requires a.Some? ==> a.value.count > 0
    ensures c.Blank? <==> a.None? || a.value.sum == 0
    ensures !c.Blank? ==> c == Average(a.value)
  {
    if a.Some? && a.value.sum != 0 then Average(a.value) else Blank
  }

  function GoneCell(g: Option<nat>): (c: Cell)
    ensures c.Blank? <==> g.None?
    ensures g.Some? ==> c == Count(g.value)
  {
    match g
    case None => Blank
    case Some(n) => Count(n)
  }

  /** The ten statistics of one month, in column order. */
  datatype MonthStats = MonthStats(
    orphaned: nat, orphaners: nat, retired: nat, adopted: nat, adopters: nat, avg: Option<Mean>,
    committed: nat, committers: nat, orphanersGone: Option<nat>, committersGone: Option<nat>)

  predicate Reportable(db: Db, m: Date) {
    Valid(m) && m.year <= 9999 && ValidTimestamps(db.orphaned) && ValidTimestamps(db.adopted)
  }

  /** The statistics of month `m`. */
  function StatsOf(db: Db, m: Date): (s: MonthStats)
    requires Reportable(db, m)
    ensures s.avg.Some? ==> s.avg.value.count > 0
  {
    MonthStats(
      Orphaned(db, m), Orphaners(db, m), Retired(db, m), Adopted(db, m), Adopters(db, m), AdoptionMean(db, m),
      Committed(db, m), Committers(db, m), GoneCount(db.orphaned, db.commits, m), GoneCount(db.commits, db.commits, m))
  }

  /** The CSV fields of one row. */
  function Fields(monthLabel: string, s: MonthStats): seq<Cell>
    requires s.avg.Some? ==> s.avg.value.count > 0
  {
    [ Label(monthLabel), Count(s.orphaned), Count(s.orphaners), Count(s.retired), Count(s.adopted), Count(s.adopters),
      AdoptionCell(s.avg), Count(s.committed), Count(s.committers), GoneCell(s.orphanersGone), GoneCell(s.committersGone) ]
  }

  /** The row written for month `m`. */
  function MonthRow(db: Db, m: Date): seq<Cell>
    requires Reportable(db, m)
  {
    Fields(ShowMonth(m), StatsOf(db, m))
  }

  /**
   * A row has one field per header column: the label, then the counts and statistics in
   * header order, the average empty exactly when the mean is absent or zero, and a
   * survivorship field empty exactly when that statistic is absent.
   */
  lemma FieldsColumns(monthLabel: string, s: MonthStats)
    requires s.avg.Some? ==> s.avg.value.count > 0
    ensures var row := Fields(monthLabel, s);
      && |row| == |Header| == 11
      && Header[0] == "Date" && row[0] == Label(monthLabel)
      && Header[1] == "Orphaned" && row[1] == Count(s.orphaned)
      && Header[2] == "Orphaners" && row[2] == Count(s.orphaners)
      && Header[3] == "Retired" && row[3] == Count(s.retired)
      && Header[4] == "Adoptions" && row[4] == Count(s.adopted)
      && Header[5] == "Adopters" && row[5] == Count(s.adopters)
      && Header[6] == "Avg adoption days"
      && (row[6].Blank? <==> s.avg.None? || s.avg.value.sum == 0)
      && (!row[6].Blank? ==> row[6] == Average(s.avg.value))
      && Header[7] == "Packages with commits" && row[7] == Count(s.committed)
      && Header[8] == "Committers" && row[8] == Count(s.committers)
      && Header[9] == "Orphaners who left" && (row[9].Blank? <==> s.orphanersGone.None?)
      && (!row[9].Blank? ==> row[9] == Count(s.orphanersGone.value))
      && Header[10] == "Committers who left" && (row[10].Blank? <==> s.committersGone.None?)
      && (!row[10].Blank? ==> row[10] == Count(s.committersGone.value))
  {
  }

  /**
   * Orphaners never exceed orphanings, retirements never exceed orphanings, adopters
   * never exceed adoptions; both survivorship statistics are absent exactly while at most
   * three months of commits lie ahead, and otherwise never exceed the month's orphaners
   * and committers respectively.
   */
  lemma StatsBounds(db: Db, m: Date)
    requires Reportable(db, m)
    ensures var s := StatsOf(db, m);
      && s.orphaners <= s.orphaned && s.retired <= s.orphaned && s.adopters <= s.adopted
      && (s.orphanersGone.None? <==> MonthsLeft(db.commits, m) <= 3)
      && (s.committersGone.None? <==> MonthsLeft(db.commits, m) <= 3)
      && (s.orphanersGone.Some? ==> s.orphanersGone.value <= s.orphaners)
      && (s.committersGone.Some? ==> s.committersGone.value <= s.committers)
  {
    CountsBoundDistinctActors(db, m);
    RetiredBounds(db, m);
    GoneCountBounds(db.orphaned, db.commits, m);
    GoneCountBounds(db.commits, db.commits, m);
  }

  /** Every month of the report's range can be reported. */
  lemma {:induction false} RangeReportable(db: Db, start: Date, today: Date)
    requires Valid(start) && Valid(today) && today.year <= 9999
    requires ValidTimestamps(db.orphaned) && ValidTimestamps(db.adopted)
    ensures AllReportable(db, MonthRange(start, today))
  {
    MonthRangeShape(start, today);
  }

  /** The body of `main`'s loop: the statistics of one month, written as a row. */
  method ReportRow(db: Db, month: Date) returns (row: seq<Cell>)
    requires Reportable(db, month)
    ensures row == MonthRow(db, month)
  {
    var avg := Adoption(db, month);
    var orphanersGone := OrphanersGone(db, month);
    var committersGone := CommittersGone(db, month);
    row := Fields(ShowMonth(month), MonthStats(
      Orphaned(db, month), Orphaners(db, month), Retired(db, month), Adopted(db, month), Adopters(db, month), avg,
      Committed(db, month), Committers(db, month), orphanersGone, committersGone));
  }

  predicate AllReportable(db: Db, months: seq<Date>) {
    forall i :: 0 <= i < |months| ==> Reportable(db, months[i])
  }

  /** The rows written for `months`, one per month, in order. */
  function RowsFor(db: Db, months: seq<Date>): (rows: seq<seq<Cell>>)
    requires AllReportable(db, months)
  {
    seq(|months|, i requires 0 <= i < |months| => MonthRow(db, months[i]))
  }

  /** `main`: the header, then one row per month from `Start` through today's month. */
  method Report(db: Db, today: Date) returns (header: seq<string>, rows: seq<seq<Cell>>)
    requires Valid(today) && today.year <= 9999
    requires ValidTimestamps(db.orphaned) && ValidTimestamps(db.adopted)
    ensures header == Header
    ensures AllReportable(db, MonthRange(Start, today)) && rows == RowsFor(db, MonthRange(Start, today))
  {
    header := Header;
    var months := ForEachMonth(Start, today);
    RangeReportable(db, Start, today);
    rows := [];
    for i := 0 to |months|
      invariant |rows| == i && forall j :: 0 <= j < i ==> rows[j] == MonthRow(db, months[j])
    {
      var row := ReportRow(db, months[i]);
      rows := rows + [row];
    }
  }

  // ---------------------------------------------------------------- scenarios

  function Midnight(y: int, m: int, d: int): Timestamp {
    Timestamp(Date(y, m, d), 0)
  }

  /**
   * One orphaning of `foo` on 2024-01-15 and its adoption on 2024-03-10: the March
   * average is 55 days over one adoption, and the field is written.
   */
  lemma AdoptionFiftyFiveDays()
    ensures var db := Db([Row("o1", Midnight(2024, 1, 15), 2024, 1, "alice", "foo")],
                         [Row("a1", Midnight(2024, 3, 10), 2024, 3, "bob", "foo")], [], []);
      && AdoptionMean(db, Date(2024, 3, 1)) == Some(Mean(55, 1))
      && Fields("2024-03", StatsOf(db, Date(2024, 3, 1)))[6] == Average(Mean(55, 1))
  {
    var o := Row("o1", Midnight(2024, 1, 15), 2024, 1, "alice", "foo");
    var a := Row("a1", Midnight(2024, 3, 10), 2024, 3, "bob", "foo");
    var db := Db([o], [a], [], []);
    assert [a][1..] == [];
    assert InMonth([a], 2024, 3) == [a];
    assert PairsOf([a]) == [Pair("foo", a.timestamp)];
    assert [o][1..] == [];
    assert AdoptedPairs(db, Date(2024, 3, 1)) == [Pair("foo", a.timestamp)];
    assert LatestOrphan([o], "foo", 2024, 3) == Some(o);
    assert DaysBeforeMonth(2024, 3) == 60 && DaysBeforeMonth(2024, 1) == 0;
    assert Ordinal(Date(2024, 3, 10)) - Ordinal(Date(2024, 1, 15)) == 55;
    assert Sample([o], [Pair("foo", a.timestamp)], 2024, 3) == [55];
  }

  /**
   * An orphaning later in the same month than the adoption is still matched, so a sampled
   * span can be negative: orphaned 2024-03-20, adopted 2024-03-05, span -15 days.
   */
  lemma AdoptionSpanCanBeNegative()
    ensures var db := Db([Row("o1", Midnight(2024, 3, 20), 2024, 3, "alice", "foo")],
                         [Row("a1", Midnight(2024, 3, 5), 2024, 3, "bob", "foo")], [], []);
      AdoptionMean(db, Date(2024, 3, 1)) == Some(Mean(-15, 1))
  {
    var o := Row("o1", Midnight(2024, 3, 20), 2024, 3, "alice", "foo");
    var a := Row("a1", Midnight(2024, 3, 5), 2024, 3, "bob", "foo");
    var db := Db([o], [a], [], []);
    assert [a][1..] == [];
    assert InMonth([a], 2024, 3) == [a];
    assert PairsOf([a]) == [Pair("foo", a.timestamp)];
    assert [o][1..] == [];
    assert AdoptedPairs(db, Date(2024, 3, 1)) == [Pair("foo", a.timestamp)];
    assert LatestOrphan([o], "foo", 2024, 3) == Some(o);
    assert Sample([o], [Pair("foo", a.timestamp)], 2024, 3) == [-15];
  }
}
