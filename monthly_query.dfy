/**
 * The monthly aggregates of the report: each is a read-only query over the four tables
 * and a calendar month, given here as the date the report passes in (always a first of
 * month there; only its year and month are used, except where noted).
 */
module MonthlyQuery {
  import opened Wrappers
  import opened Calendar
  import opened Rows

  /** The four tables of the statistics database, each in scan order. */
  datatype Db = Db(orphaned: seq<Row>, adopted: seq<Row>, commits: seq<Row>, retired: seq<Row>)

  predicate ValidTimestamps(rows: seq<Row>) {
    forall x :: x in rows ==> ValidTimestamp(x.timestamp)
  }

  // ---------------------------------------------------------------- plain counts

  /** `COUNT(*)` of `orphaned` in the month. */
  function Orphaned(db: Db, m: Date): nat {
    |InMonth(db.orphaned, m.year, m.month)|
  }

  /** `COUNT(DISTINCT(by))` of `orphaned` in the month. */
  function Orphaners(db: Db, m: Date): nat {
    |Actors(InMonth(db.orphaned, m.year, m.month))|
  }

  /** `COUNT(*)` of `adopted` in the month. */
  function Adopted(db: Db, m: Date): nat {
    |InMonth(db.adopted, m.year, m.month)|
  }

  /** `COUNT(DISTINCT(by))` of `adopted` in the month. */
  function Adopters(db: Db, m: Date): nat {
    |Actors(InMonth(db.adopted, m.year, m.month))|
  }

  /** `COUNT(DISTINCT(package))` of `commits` in the month. */
  function Committed(db: Db, m: Date): nat {
    |Packages(InMonth(db.commits, m.year, m.month))|
  }

  /** `COUNT(DISTINCT(by))` of `commits` in the month. */
  function Committers(db: Db, m: Date): nat {
    |Actors(InMonth(db.commits, m.year, m.month))|
  }

  /**
   * Distinct packages orphaned in the month that have a `retired` row at any time
   * (the join on `package`).
   */
  function Retired(db: Db, m: Date): nat {
    |Packages(InMonth(db.orphaned, m.year, m.month)) * Packages(db.retired)|
  }

  /** A row count is never below the distinct-actor count of the same rows. */
  lemma CountsBoundDistinctActors(db: Db, m: Date)
    ensures Orphaners(db, m) <= Orphaned(db, m)
    ensures Adopters(db, m) <= Adopted(db, m)
    ensures Committers(db, m) <= |InMonth(db.commits, m.year, m.month)|
    ensures Committed(db, m) <= |InMonth(db.commits, m.year, m.month)|
  {
    ActorsMembers(InMonth(db.orphaned, m.year, m.month));
    ActorsMembers(InMonth(db.adopted, m.year, m.month));
    ActorsMembers(InMonth(db.commits, m.year, m.month));
    PackagesMembers(InMonth(db.commits, m.year, m.month));
  }

  /**
   * The retired count is bounded by the distinct packages orphaned in the month, and so
   * by the orphaned count; every package it counts has a `retired` row.
   */
  lemma RetiredBounds(db: Db, m: Date)
    ensures Retired(db, m) <= |Packages(InMonth(db.orphaned, m.year, m.month))| <= Orphaned(db, m)
  {
    var orphans := Packages(InMonth(db.orphaned, m.year, m.month));
    SubsetCard(orphans * Packages(db.retired), orphans);
    PackagesMembers(InMonth(db.orphaned, m.year, m.month));
  }

  /**
   * The retired count counts a package exactly when it was orphaned in the month and has
   * a `retired` row.
   */
  lemma RetiredPackagesJoin(db: Db, m: Date, p: string)
    ensures p in Packages(InMonth(db.orphaned, m.year, m.month)) * Packages(db.retired) <==>
              (exists o :: o in db.orphaned && InBucket(o, m.year, m.month) && o.package == p)
              && (exists r :: r in db.retired && r.package == p)
  {
    InMonthMembers(db.orphaned, m.year, m.month);
    PackagesMembers(InMonth(db.orphaned, m.year, m.month));
    PackagesMembers(db.retired);
  }

  // ---------------------------------------------------------------- months left

  /** The distinct `year || '-' || month` values of some rows. */
  function Buckets(rows: seq<Row>): set<(int, int)> {
    if rows == [] then {} else {(rows[0].year, rows[0].month)} + Buckets(rows[1..])
  }

  /**
   * `_get_months_left`: the number of distinct months among commits stamped on or after
   * `d`, minus one.  It is -1 exactly when no commit is that late.
   */
  function MonthsLeft(commits: seq<Row>, d: Date): int {
    |Buckets(OnOrAfter(commits, d))| - 1
  }

  /** The buckets are exactly the (year, month) pairs of the rows. */
  lemma {:induction false} BucketsMembers(rows: seq<Row>)
    ensures Buckets(rows) == set x | x in rows :: (x.year, x.month)
  {
    if rows != [] {
      BucketsMembers(rows[1..]);
      assert forall x :: x in rows <==> x == rows[0] || x in rows[1..];
    }
  }

  /**
   * Months left is one less than the number of distinct (year, month) buckets among the
   * commits stamped on or after the day.
   */
  lemma MonthsLeftValue(commits: seq<Row>, d: Date)
    ensures MonthsLeft(commits, d) ==
              |set x | x in commits && DateLe(d, x.timestamp.date) :: (x.year, x.month)| - 1
  {
    var late := OnOrAfter(commits, d);
    BucketsMembers(late);
    OnOrAfterMembers(commits, d);
    assert (set x | x in late :: (x.year, x.month))
           == (set x | x in commits && DateLe(d, x.timestamp.date) :: (x.year, x.month));
  }

  lemma MonthsLeftRange(commits: seq<Row>, d: Date)
    ensures MonthsLeft(commits, d) >= -1
    ensures MonthsLeft(commits, d) == -1 <==> forall x :: x in commits ==> !DateLe(d, x.timestamp.date)
  {
    var late := OnOrAfter(commits, d);
    OnOrAfterMembers(commits, d);
    if late != [] {
      assert (late[0].year, late[0].month) in Buckets(late);
    } else {
      assert forall x :: x in commits ==> x !in late;
    }
  }

  // ---------------------------------------------------------------- adoption

  /** One `(package, timestamp)` result row of the adoption query. */
  datatype Pair = Pair(package: string, timestamp: Timestamp)

  /** `SELECT DISTINCT(package), timestamp`: distinct pairs, each kept at its last occurrence. */
  function PairsOf(rows: seq<Row>): seq<Pair> {
    if rows == [] then []
    else
      var rest := PairsOf(rows[1..]);
      var p := Pair(rows[0].package, rows[0].timestamp);
      if p in rest then rest else [p] + rest
  }

  /** The pairs are distinct and are exactly the `(package, timestamp)` pairs of the rows. */
  lemma {:induction false} PairsOfMembers(rows: seq<Row>)
    ensures NoDuplicates(PairsOf(rows))
    ensures forall p :: p in PairsOf(rows) <==> exists x :: x in rows && Pair(x.package, x.timestamp) == p
  {
    if rows != [] {
      PairsOfMembers(rows[1..]);
      var rest := PairsOf(rows[1..]);
      var p := Pair(rows[0].package, rows[0].timestamp);
      assert forall x :: x in rows <==> x == rows[0] || x in rows[1..];
      if p !in rest {
        var r := [p] + rest;
        assert forall i :: 0 < i < |r| ==> r[i] == rest[i - 1];
      }
    }
  }

  /** The adoption pairs of the month. */
  function AdoptedPairs(db: Db, m: Date): seq<Pair> {
    PairsOf(InMonth(db.adopted, m.year, m.month))
  }

  /**
   * `date(format('%i-%02i-01', year, month)) <= date(format('%i-%02i-01', y, m))`:
   * the row's month is not after month (y, m), compared as (year, month) pairs.
   */
  predicate BucketAtMost(r: Row, y: int, m: int) {
    r.year < y || (r.year == y && r.month <= m)
  }

  predicate Qualifies(r: Row, package: string, y: int, m: int) {
    r.package == package && BucketAtMost(r, y, m)
  }

  /**
   * The first row of `SELECT timestamp FROM orphaned WHERE package = ? AND <month at most
   * (y, m)> ORDER BY year DESC, month DESC`: a row of the latest qualifying month.  Among
   * rows of that month the first in table order is taken.
   */
  function LatestOrphan(rows: seq<Row>, package: string, y: int, m: int): (r: Option<Row>)
    ensures r.Some? ==> r.value in rows
  {
    if rows == [] then None
    else
      var rest := LatestOrphan(rows[1..], package, y, m);
      if Qualifies(rows[0], package, y, m) && (rest.None? || BucketAtMost(rest.value, rows[0].year, rows[0].month))
      then Some(rows[0])
      else rest
  }

  /**
   * There is a pick exactly when some row qualifies; the pick qualifies, and no
   * qualifying row lies in a later month.
   */
  lemma {:induction false} LatestOrphanSpec(rows: seq<Row>, package: string, y: int, m: int)
    ensures var r := LatestOrphan(rows, package, y, m);
      && (r.None? <==> forall x :: x in rows ==> !Qualifies(x, package, y, m))
      && (r.Some? ==> r.value in rows && Qualifies(r.value, package, y, m))
      && (r.Some? ==> forall x :: x in rows && Qualifies(x, package, y, m) ==>
            BucketAtMost(x, r.value.year, r.value.month))
  {
    if rows != [] {
      LatestOrphanSpec(rows[1..], package, y, m);
      assert forall x :: x in rows <==> x == rows[0] || x in rows[1..];
    }
  }

  predicate PairsValid(pairs: seq<Pair>) {
    forall p :: p in pairs ==> ValidTimestamp(p.timestamp)
  }

  /** The days from the matching orphan event to this adoption, when there is one. */
  function AdoptionTime(orphaned: seq<Row>, p: Pair, y: int, m: int): Option<int>
    requires ValidTimestamps(orphaned) && ValidTimestamp(p.timestamp)
  {
    match LatestOrphan(orphaned, p.package, y, m)
    case None => None
    case Some(o) => Some(DaysBetween(p.timestamp, o.timestamp))
  }

  /** `adoption_times` after the loop has visited `pairs`, in order. */
  function Sample(orphaned: seq<Row>, pairs: seq<Pair>, y: int, m: int): seq<int>
    requires ValidTimestamps(orphaned) && PairsValid(pairs)
  {
    if pairs == [] then []
    else
      var last := pairs[|pairs| - 1];
      Sample(orphaned, pairs[..|pairs| - 1], y, m) +
        (match AdoptionTime(orphaned, last, y, m) case None => [] case Some(d) => [d])
  }

  /** One more pair of the loop: the sample of the longer prefix adds that pair's span, if any. */
  lemma SamplePrefixStep(orphaned: seq<Row>, pairs: seq<Pair>, i: int, y: int, m: int)
    requires ValidTimestamps(orphaned) && PairsValid(pairs) && 0 <= i < |pairs|
    ensures PairsValid(pairs[..i]) && PairsValid(pairs[..i + 1])
    ensures Sample(orphaned, pairs[..i + 1], y, m) == Sample(orphaned, pairs[..i], y, m) +
      (match LatestOrphan(orphaned, pairs[i].package, y, m)
       case None => [] case Some(o) => [DaysBetween(pairs[i].timestamp, o.timestamp)])
  {
    assert pairs[..i + 1][..i] == pairs[..i];
    assert forall p :: p in pairs[..i + 1] ==> p in pairs;
  }

  /** The sample is empty exactly when no pair has a qualifying orphan row. */
  lemma {:induction false} SampleEmptyIff(orphaned: seq<Row>, pairs: seq<Pair>, y: int, m: int)
    requires ValidTimestamps(orphaned) && PairsValid(pairs)
    ensures Sample(orphaned, pairs, y, m) == [] <==>
      forall p :: p in pairs ==> LatestOrphan(orphaned, p.package, y, m).None?
  {
    if pairs != [] {
      var init := pairs[..|pairs| - 1];
      SampleEmptyIff(orphaned, init, y, m);
      LatestOrphanSpec(orphaned, pairs[|pairs| - 1].package, y, m);
      assert forall p :: p in pairs <==> p in init || p == pairs[|pairs| - 1];
    }
  }

  /**
   * Every sampled value is the whole-day span from some adoption pair back to the
   * orphan row `LatestOrphan` picks for its package.
   */
  lemma {:induction false} SampleElements(orphaned: seq<Row>, pairs: seq<Pair>, y: int, m: int)
    requires ValidTimestamps(orphaned) && PairsValid(pairs)
    ensures forall k :: 0 <= k < |Sample(orphaned, pairs, y, m)| ==>
      exists p :: (p in pairs && LatestOrphan(orphaned, p.package, y, m).Some? &&
        Sample(orphaned, pairs, y, m)[k] == DaysBetween(p.timestamp, LatestOrphan(orphaned, p.package, y, m).value.timestamp))
  {
    if pairs != [] {
      var init := pairs[..|pairs| - 1];
      var last := pairs[|pairs| - 1];
      SampleElements(orphaned, init, y, m);
      var s0 := Sample(orphaned, init, y, m);
      var s := Sample(orphaned, pairs, y, m);
      forall k | 0 <= k < |s|
        ensures exists p :: (p in pairs && LatestOrphan(orphaned, p.package, y, m).Some? &&
          s[k] == DaysBetween(p.timestamp, LatestOrphan(orphaned, p.package, y, m).value.timestamp))
      {
        assert s == s0 + (match AdoptionTime(orphaned, last, y, m) case None => [] case Some(d) => [d]);
        if k < |s0| {
          assert s[k] == s0[k];
          var p :| p in init && LatestOrphan(orphaned, p.package, y, m).Some? &&
            s0[k] == DaysBetween(p.timestamp, LatestOrphan(orphaned, p.package, y, m).value.timestamp);
          assert p in pairs;
        } else {
          assert last in pairs;
          assert s[k] == AdoptionTime(orphaned, last, y, m).value;
        }
      }
      assert s == Sample(orphaned, pairs, y, m);
    } else {
      assert Sample(orphaned, pairs, y, m) == [];
    }
  }

  function Sum(s: seq<int>): int {
    if s == [] then 0 else Sum(s[..|s| - 1]) + s[|s| - 1]
  }

  /** `statistics.mean` kept exact: the sum of the sample and its (positive) size. */
  datatype Mean = Mean(sum: int, count: nat)

  /** The adoption statistic of the month: absent when the sample is empty. */
  function AdoptionMean(db: Db, m: Date): (r: Option<Mean>)
    requires ValidTimestamps(db.orphaned) && ValidTimestamps(db.adopted)
    ensures r.Some? ==> r.value.count > 0
  {
    AdoptedPairsValid(db, m);
    var s := Sample(db.orphaned, AdoptedPairs(db, m), m.year, m.month);
    if s == [] then None else Some(Mean(Sum(s), |s|))
  }

  lemma {:induction false} SumConcat(a: seq<int>, b: seq<int>)
    ensures Sum(a + b) == Sum(a) + Sum(b)
    decreases |b|
  {
    if b == [] {
      assert a + b == a;
    } else {
      SumConcat(a, b[..|b| - 1]);
      assert (a + b)[..|a + b| - 1] == a + b[..|b| - 1];
    }
  }

  /** Taking one term out of a sum. */
  lemma SumRemove(b: seq<int>, k: nat)
    requires k < |b|
    ensures Sum(b) == Sum(b[..k] + b[k + 1..]) + b[k]
  {
    var left, x, right := b[..k], b[k], b[k + 1..];
    assert b == left + [x] + right;
    SumConcat(left + [x], right);
    SumConcat(left, [x]);
    SumConcat(left, right);
    assert [x][..0] == [];
  }

  /** Taking one element out of a sequence takes it out of its multiset. */
  lemma MultisetRemove<T>(b: seq<T>, k: nat)
    requires k < |b|
    ensures multiset(b[..k] + b[k + 1..]) == multiset(b) - multiset{b[k]}
  {
    assert b == b[..k] + [b[k]] + b[k + 1..];
    assert multiset(b) == multiset(b[..k]) + multiset{b[k]} + multiset(b[k + 1..]);
  }

  /** A sum does not depend on the order of its terms. */
  lemma {:induction false} SumOfMultiset(a: seq<int>, b: seq<int>)
    requires multiset(a) == multiset(b)
    ensures Sum(a) == Sum(b)
    decreases |a|
  {
    if a == [] {
      assert |b| == |multiset(b)| == 0;
    } else {
      var init, x := a[..|a| - 1], a[|a| - 1];
      MultisetRemove(a, |a| - 1);
      assert a[..|a| - 1] + a[|a|..] == init;
      assert x in multiset(b);
      var k :| 0 <= k < |b| && b[k] == x;
      MultisetRemove(b, k);
      SumOfMultiset(init, b[..k] + b[k + 1..]);
      SumRemove(b, k);
    }
  }

  /** The pairs that find an orphan row, and so contribute a span to the sample. */
  function Matched(orphaned: seq<Row>, pairs: seq<Pair>, y: int, m: int): set<Pair>
    requires ValidTimestamps(orphaned)
  {
    set p | p in pairs && ValidTimestamp(p.timestamp) && AdoptionTime(orphaned, p, y, m).Some?
  }

  /** The pairs whose span is `v` days. */
  function WithSpan(orphaned: seq<Row>, pairs: seq<Pair>, y: int, m: int, v: int): set<Pair>
    requires ValidTimestamps(orphaned)
  {
    set p | p in pairs && ValidTimestamp(p.timestamp) && AdoptionTime(orphaned, p, y, m) == Some(v)
  }

  /** Adding a fresh element, or nothing, to a set. */
  lemma CardAddFresh<T>(a: set<T>, x: T, add: bool)
    requires x !in a
    ensures |a + (if add then {x} else {})| == |a| + (if add then 1 else 0)
  {
  }

  /** Extending the pairs by one extends the matched pairs by that pair, if it matches. */
  lemma MatchedSnoc(orphaned: seq<Row>, init: seq<Pair>, last: Pair, y: int, m: int)
    requires ValidTimestamps(orphaned) && ValidTimestamp(last.timestamp)
    ensures Matched(orphaned, init + [last], y, m)
            == Matched(orphaned, init, y, m) + (if AdoptionTime(orphaned, last, y, m).Some? then {last} else {})
  {
    assert forall p :: p in init + [last] <==> p in init || p == last;
  }

  /** Extending the pairs by one extends the pairs of span `v` by that pair, if its span is `v`. */
  lemma WithSpanSnoc(orphaned: seq<Row>, init: seq<Pair>, last: Pair, y: int, m: int, v: int)
    requires ValidTimestamps(orphaned) && ValidTimestamp(last.timestamp)
    ensures WithSpan(orphaned, init + [last], y, m, v)
            == WithSpan(orphaned, init, y, m, v) + (if AdoptionTime(orphaned, last, y, m) == Some(v) then {last} else {})
  {
    assert forall p :: p in init + [last] <==> p in init || p == last;
  }

  /** Over distinct pairs the sample holds one value per matched pair. */
  lemma {:induction false} SampleLength(orphaned: seq<Row>, pairs: seq<Pair>, y: int, m: int)
    requires ValidTimestamps(orphaned) && PairsValid(pairs) && NoDuplicates(pairs)
    ensures |Sample(orphaned, pairs, y, m)| == |Matched(orphaned, pairs, y, m)|
  {
    if pairs == [] {
      assert Matched(orphaned, pairs, y, m) == {};
    } else {
      var init, last := pairs[..|pairs| - 1], pairs[|pairs| - 1];
      assert pairs == init + [last];
      assert forall i :: 0 <= i < |init| ==> init[i] == pairs[i];
      SampleLength(orphaned, init, y, m);
      var t := AdoptionTime(orphaned, last, y, m);
      MatchedSnoc(orphaned, init, last, y, m);
      CardAddFresh(Matched(orphaned, init, y, m), last, t.Some?);
    }
  }

  /** Over distinct pairs the sample holds a value `v` exactly as often as pairs have span `v`. */
  lemma {:induction false} SampleMultiplicity(orphaned: seq<Row>, pairs: seq<Pair>, y: int, m: int, v: int)
    requires ValidTimestamps(orphaned) && PairsValid(pairs) && NoDuplicates(pairs)
    ensures multiset(Sample(orphaned, pairs, y, m))[v] == |WithSpan(orphaned, pairs, y, m, v)|
  {
    if pairs == [] {
      assert WithSpan(orphaned, pairs, y, m, v) == {};
    } else {
      var init, last := pairs[..|pairs| - 1], pairs[|pairs| - 1];
      assert pairs == init + [last];
      assert forall i :: 0 <= i < |init| ==> init[i] == pairs[i];
      SampleMultiplicity(orphaned, init, y, m, v);
      var t := AdoptionTime(orphaned, last, y, m);
      WithSpanSnoc(orphaned, init, last, y, m, v);
      CardAddFresh(WithSpan(orphaned, init, y, m, v), last, t == Some(v));
      var tail := if t.Some? then [t.value] else [];
      assert multiset(Sample(orphaned, pairs, y, m)) == multiset(Sample(orphaned, init, y, m)) + multiset(tail);
    }
  }

  /** A listing of the spans, each pair's as often as it occurs, has the sample's multiset. */
  lemma SampleMultiset(orphaned: seq<Row>, pairs: seq<Pair>, y: int, m: int, spans: seq<int>)
    requires ValidTimestamps(orphaned) && PairsValid(pairs) && NoDuplicates(pairs)
    requires forall v :: multiset(spans)[v] == |WithSpan(orphaned, pairs, y, m, v)|
    ensures multiset(Sample(orphaned, pairs, y, m)) == multiset(spans)
  {
    forall v ensures multiset(Sample(orphaned, pairs, y, m))[v] == multiset(spans)[v] {
      SampleMultiplicity(orphaned, pairs, y, m, v);
    }
  }

  /**
   * The adoption statistic is absent exactly when no adoption pair of the month finds an
   * orphan row; otherwise it is the exact mean of the matched pairs' spans, each pair
   * counted once: for any listing `spans` of those spans, in any order, its sum over its
   * length.
   */
  lemma AdoptionMeanValue(db: Db, m: Date, spans: seq<int>)
    requires ValidTimestamps(db.orphaned) && ValidTimestamps(db.adopted)
    requires forall v :: multiset(spans)[v] == |WithSpan(db.orphaned, AdoptedPairs(db, m), m.year, m.month, v)|
    ensures AdoptionMean(db, m).None? <==> spans == []
    ensures AdoptionMean(db, m).Some? ==> AdoptionMean(db, m).value == Mean(Sum(spans), |spans|)
    ensures |spans| == |Matched(db.orphaned, AdoptedPairs(db, m), m.year, m.month)|
  {
    var pairs := AdoptedPairs(db, m);
    AdoptedPairsValid(db, m);
    PairsOfMembers(InMonth(db.adopted, m.year, m.month));
    var s := Sample(db.orphaned, pairs, m.year, m.month);
    SampleMultiset(db.orphaned, pairs, m.year, m.month, spans);
    assert |s| == |multiset(s)| == |multiset(spans)| == |spans|;
    SumOfMultiset(s, spans);
    SampleLength(db.orphaned, pairs, m.year, m.month);
  }

  /**
   * The adoption statistic is absent exactly when no adoption of the month has an
   * orphan row for its package in that month or earlier.
   */
  lemma AdoptionAbsentIff(db: Db, m: Date)
    requires ValidTimestamps(db.orphaned) && ValidTimestamps(db.adopted)
    ensures AdoptionMean(db, m).None? <==>
      forall x :: x in db.adopted && InBucket(x, m.year, m.month) ==>
        forall o :: o in db.orphaned ==> !Qualifies(o, x.package, m.year, m.month)
  {
    var adopted := InMonth(db.adopted, m.year, m.month);
    var pairs := AdoptedPairs(db, m);
    AdoptedPairsValid(db, m);
    InMonthMembers(db.adopted, m.year, m.month);
    PairsOfMembers(adopted);
    SampleEmptyIff(db.orphaned, pairs, m.year, m.month);
    forall x | x in adopted ensures Pair(x.package, x.timestamp) in pairs { }
    forall p | p in pairs ensures LatestOrphan(db.orphaned, p.package, m.year, m.month).None? <==>
      forall o :: o in db.orphaned ==> !Qualifies(o, p.package, m.year, m.month)
    {
      LatestOrphanSpec(db.orphaned, p.package, m.year, m.month);
    }
  }

  lemma AdoptedPairsValid(db: Db, m: Date)
    requires ValidTimestamps(db.adopted)
    ensures PairsValid(AdoptedPairs(db, m))
  {
    InMonthMembers(db.adopted, m.year, m.month);
    PairsOfMembers(InMonth(db.adopted, m.year, m.month));
  }

  /** `adoption`: the loop over the month's adoption pairs, collecting day spans. */
  method Adoption(db: Db, m: Date) returns (r: Option<Mean>)
    requires ValidTimestamps(db.orphaned) && ValidTimestamps(db.adopted)
    ensures r == AdoptionMean(db, m)
    ensures r.Some? ==> r.value.count == |Matched(db.orphaned, AdoptedPairs(db, m), m.year, m.month)|
  {
    var pairs := AdoptedPairs(db, m);
    AdoptedPairsValid(db, m);
    var times: seq<int> := [];
    for i := 0 to |pairs|
      invariant PairsValid(pairs[..i])
      invariant times == Sample(db.orphaned, pairs[..i], m.year, m.month)
    {
      SamplePrefixStep(db.orphaned, pairs, i, m.year, m.month);
      var orphan := LatestOrphan(db.orphaned, pairs[i].package, m.year, m.month);
      if orphan.None? {
        continue;
      }
      times := times + [DaysBetween(pairs[i].timestamp, orphan.value.timestamp)];
    }
    assert pairs[..|pairs|] == pairs;
    r := if times == [] then None else Some(Mean(Sum(times), |times|));
    assert r.Some? ==> r.value.count == |Matched(db.orphaned, pairs, m.year, m.month)| by {
      PairsOfMembers(InMonth(db.adopted, m.year, m.month));
      SampleLength(db.orphaned, pairs, m.year, m.month);
    }
  }

  // ---------------------------------------------------------------- who left

  /**
   * `month + timedelta(days=31)` with its day set to 1: the first day of the month after
   * `m` when `m` is a first of month (`Add31ThenFirst`).
   */
  function FutureStart(m: Date): Date
    requires Valid(m)
  {
    FirstOfMonth(AddDays(m, 31))
  }

  /** `a` has a commit stamped on or after day `d`. */
  predicate ActiveSince(commits: seq<Row>, a: string, d: Date) {
    exists x :: x in commits && x.actor == a && DateLe(d, x.timestamp.date)
  }

  /**
   * `_committers_in_future_months`: those of `actors` with a commit on or after the
   * future start, each once.
   */
  function CommittersInFutureMonths(commits: seq<Row>, m: Date, actors: seq<string>): seq<string>
    requires Valid(m)
  {
    DistinctActors(OnOrAfter(ByOneOf(commits, set a | a in actors), FutureStart(m)))
  }

  /** The result lists, once each, exactly those of `actors` with a commit on or after the future start. */
  lemma CommittersInFutureMonthsMembers(commits: seq<Row>, m: Date, actors: seq<string>)
    requires Valid(m)
    ensures NoDuplicates(CommittersInFutureMonths(commits, m, actors))
    ensures forall a :: a in CommittersInFutureMonths(commits, m, actors) <==>
      a in actors && ActiveSince(commits, a, FutureStart(m))
  {
    var selected := ByOneOf(commits, set a | a in actors);
    var rows := OnOrAfter(selected, FutureStart(m));
    ByOneOfMembers(commits, set a | a in actors);
    OnOrAfterMembers(selected, FutureStart(m));
    ActorsMembers(rows);
    DistinctActorsMembers(rows);
    forall a | a in actors && ActiveSince(commits, a, FutureStart(m)) ensures a in Actors(rows) {
      var x :| x in commits && x.actor == a && DateLe(FutureStart(m), x.timestamp.date);
      assert x in rows;
    }
  }

  /** Actors of `rows` in the month, less every actor with a commit from the future start on. */
  function GoneActors(rows: seq<Row>, commits: seq<Row>, m: Date): set<string>
    requires Valid(m)
  {
    Actors(InMonth(rows, m.year, m.month)) - Actors(OnOrAfter(commits, FutureStart(m)))
  }

  /** Someone is gone exactly when active in the month and not active since the future start. */
  lemma GoneActorsMembers(rows: seq<Row>, commits: seq<Row>, m: Date)
    requires Valid(m)
    ensures forall a :: a in GoneActors(rows, commits, m) <==>
      a in Actors(InMonth(rows, m.year, m.month)) && !ActiveSince(commits, a, FutureStart(m))
  {
    var late := OnOrAfter(commits, FutureStart(m));
    OnOrAfterMembers(commits, FutureStart(m));
    ActorsMembers(late);
    forall a | ActiveSince(commits, a, FutureStart(m)) ensures a in Actors(late) {
      var x :| x in commits && x.actor == a && DateLe(FutureStart(m), x.timestamp.date);
      assert x in late;
    }
  }

  /** The survivorship statistic: absent while at most three months of commits lie ahead. */
  function GoneCount(rows: seq<Row>, commits: seq<Row>, m: Date): (r: Option<nat>)
    requires Valid(m)
  {
    if MonthsLeft(commits, m) <= 3 then None else Some(|GoneActors(rows, commits, m)|)
  }

  /**
   * The survivorship statistic is absent exactly while at most three months of commits
   * lie ahead, and otherwise never exceeds the month's distinct actors.
   */
  lemma GoneCountBounds(rows: seq<Row>, commits: seq<Row>, m: Date)
    requires Valid(m)
    ensures GoneCount(rows, commits, m).None? <==> MonthsLeft(commits, m) <= 3
    ensures GoneCount(rows, commits, m).Some? ==>
      GoneCount(rows, commits, m).value <= |Actors(InMonth(rows, m.year, m.month))|
  {
    SubsetCard(GoneActors(rows, commits, m), Actors(InMonth(rows, m.year, m.month)));
    MonthsLeftRange(commits, m);
  }

  /** The actors of `rows` in the month, without those who commit again. */
  method ActorsGoneFrom(rows: seq<Row>, commits: seq<Row>, m: Date) returns (n: nat)
    requires Valid(m)
    ensures n == |GoneActors(rows, commits, m)|
  {
    var thisMonth := DistinctActors(InMonth(rows, m.year, m.month));
    var future := CommittersInFutureMonths(commits, m, thisMonth);
    var gone := (set a | a in thisMonth) - (set a | a in future);
    DistinctActorsMembers(InMonth(rows, m.year, m.month));
    CommittersInFutureMonthsMembers(commits, m, thisMonth);
    GoneActorsMembers(rows, commits, m);
    assert gone == GoneActors(rows, commits, m);
    n := |gone|;
  }

  /**
   * `orphaners_gone`: those who orphaned a package in the month and made no commit
   * afterwards.  Future activity is looked up in `commits`, not in `orphaned`.
   */
  method OrphanersGone(db: Db, m: Date) returns (r: Option<nat>)
    requires Valid(m)
    ensures r == GoneCount(db.orphaned, db.commits, m)
  {
    if MonthsLeft(db.commits, m) <= 3 {
      return None;
    }
    var n := ActorsGoneFrom(db.orphaned, db.commits, m);
    r := Some(n);
  }

  /** `committers_gone`: those who committed in the month and made no commit afterwards. */
  method CommittersGone(db: Db, m: Date) returns (r: Option<nat>)
    requires Valid(m)
    ensures r == GoneCount(db.commits, db.commits, m)
  {
    if MonthsLeft(db.commits, m) <= 3 {
      return None;
    }
    var n := ActorsGoneFrom(db.commits, db.commits, m);
    r := Some(n);
  }

  /**
   * For a first-of-month date, someone is gone exactly when they were active in the
   * month and have no commit on or after the first day of the following month.
   */
  lemma GoneMeansNoLaterCommit(rows: seq<Row>, commits: seq<Row>, m: Date, a: string)
    requires Valid(m) && m.day == 1
    ensures a in GoneActors(rows, commits, m) <==>
      (exists x :: x in rows && InBucket(x, m.year, m.month) && x.actor == a) &&
      forall c :: c in commits && c.actor == a ==> !DateLe(NextMonthStart(m), c.timestamp.date)
  {
    Add31ThenFirst(m);
    GoneActorsMembers(rows, commits, m);
    InMonthMembers(rows, m.year, m.month);
    ActorsMembers(InMonth(rows, m.year, m.month));
  }
}
