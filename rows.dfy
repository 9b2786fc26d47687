/**
 * One row of the local statistics database.  All four tables (`orphaned`, `adopted`,
 * `commits`, `retired`) share this shape; the aggregation side reads a table as the
 * sequence of its rows in scan order.  The `by` column is called `actor` here, since
 * `by` is a Dafny keyword.
 *
 * The filters and projections below are plain recursive functions; what they contain is
 * stated once, by the `...Members` lemmas beside them.
 */
module Rows {
  import opened Calendar

  datatype Row = Row(msgid: string, timestamp: Timestamp, year: int, month: int, actor: string, package: string)

  /** The stored `year` and `month` columns agree with the stored timestamp. */
  predicate Consistent(r: Row) {
    ValidTimestamp(r.timestamp) && r.year == r.timestamp.date.year && r.month == r.timestamp.date.month
  }

  /** `year = y AND month = m`. */
  predicate InBucket(r: Row, y: int, m: int) {
    r.year == y && r.month == m
  }

  /** `WHERE year = y AND month = m`, keeping table order. */
  function InMonth(rows: seq<Row>, y: int, m: int): seq<Row> {
    if rows == [] then []
    else (if InBucket(rows[0], y, m) then [rows[0]] else []) + InMonth(rows[1..], y, m)
  }

  lemma {:induction false} InMonthMembers(rows: seq<Row>, y: int, m: int)
    ensures |InMonth(rows, y, m)| <= |rows|
    ensures forall x :: x in InMonth(rows, y, m) <==> x in rows && InBucket(x, y, m)
  {
    if rows != [] {
      InMonthMembers(rows[1..], y, m);
      assert forall x :: x in rows <==> x == rows[0] || x in rows[1..];
    }
  }

  /**
   * `WHERE timestamp >= 'YYYY-MM-DD'` (and equally `timestamp > 'YYYY-MM-DD'`): a stored
   * timestamp is an ISO string with a time part, so it compares above the bare date string
   * exactly when its date is on or after that day.
   */
  function OnOrAfter(rows: seq<Row>, d: Date): seq<Row> {
    if rows == [] then []
    else (if DateLe(d, rows[0].timestamp.date) then [rows[0]] else []) + OnOrAfter(rows[1..], d)
  }

  lemma {:induction false} OnOrAfterMembers(rows: seq<Row>, d: Date)
    ensures forall x :: x in OnOrAfter(rows, d) <==> x in rows && DateLe(d, x.timestamp.date)
  {
    if rows != [] {
      OnOrAfterMembers(rows[1..], d);
      assert forall x :: x in rows <==> x == rows[0] || x in rows[1..];
    }
  }

  /** `WHERE by IN (actors)`. */
  function ByOneOf(rows: seq<Row>, actors: set<string>): seq<Row> {
    if rows == [] then []
    else (if rows[0].actor in actors then [rows[0]] else []) + ByOneOf(rows[1..], actors)
  }

  lemma {:induction false} ByOneOfMembers(rows: seq<Row>, actors: set<string>)
    ensures forall x :: x in ByOneOf(rows, actors) <==> x in rows && x.actor in actors
  {
    if rows != [] {
      ByOneOfMembers(rows[1..], actors);
      assert forall x :: x in rows <==> x == rows[0] || x in rows[1..];
    }
  }

  /** The set of `by` values, what `DISTINCT(by)` ranges over. */
  function Actors(rows: seq<Row>): set<string> {
    if rows == [] then {} else {rows[0].actor} + Actors(rows[1..])
  }

  /** An actor is in the set exactly when some row carries it, and there are no more actors than rows. */
  lemma {:induction false} ActorsMembers(rows: seq<Row>)
    ensures |Actors(rows)| <= |rows|
    ensures forall x :: x in rows ==> x.actor in Actors(rows)
    ensures forall a :: a in Actors(rows) ==> exists x :: x in rows && x.actor == a
  {
    if rows != [] {
      ActorsMembers(rows[1..]);
      assert forall x :: x in rows <==> x == rows[0] || x in rows[1..];
    }
  }

  /** The set of `package` values, what `DISTINCT(package)` ranges over. */
  function Packages(rows: seq<Row>): set<string> {
    if rows == [] then {} else {rows[0].package} + Packages(rows[1..])
  }

  /** A package is in the set exactly when some row carries it, and there are no more packages than rows. */
  lemma {:induction false} PackagesMembers(rows: seq<Row>)
    ensures |Packages(rows)| <= |rows|
    ensures forall x :: x in rows ==> x.package in Packages(rows)
    ensures forall p :: p in Packages(rows) ==> exists x :: x in rows && x.package == p
  {
    if rows != [] {
      PackagesMembers(rows[1..]);
      assert forall x :: x in rows <==> x == rows[0] || x in rows[1..];
    }
  }

  /** A subset is never larger than its superset. */
  lemma SubsetCard<T>(a: set<T>, b: set<T>)
    requires a <= b
    ensures |a| <= |b|
  {
    assert b == a + (b - a);
  }

  predicate NoDuplicates<T(==)>(s: seq<T>) {
    forall i, j :: 0 <= i < j < |s| ==> s[i] != s[j]
  }

  /** `SELECT DISTINCT(by)` as a list: each actor once, kept at its last occurrence. */
  function DistinctActors(rows: seq<Row>): seq<string> {
    if rows == [] then []
    else
      var rest := DistinctActors(rows[1..]);
      if rows[0].actor in rest then rest else [rows[0].actor] + rest
  }

  /** The distinct list holds each actor of the rows exactly once. */
  lemma {:induction false} DistinctActorsMembers(rows: seq<Row>)
    ensures NoDuplicates(DistinctActors(rows))
    ensures forall a :: a in DistinctActors(rows) <==> a in Actors(rows)
  {
    if rows != [] {
      DistinctActorsMembers(rows[1..]);
      var rest := DistinctActors(rows[1..]);
      if rows[0].actor !in rest {
        var r := [rows[0].actor] + rest;
        assert forall i :: 0 < i < |r| ==> r[i] == rest[i - 1];
      }
    }
  }
}
