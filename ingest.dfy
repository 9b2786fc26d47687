/**
 * What the two collectors share: storing one message (extract a row, then insert it),
 * the routing loops of `record_pagure_messages` and `record_commits` as folds over the
 * messages a query returned, and the month step of their main loops.  The two
 * collectors differ only in how a row is extracted, so the folds take the extraction as
 * a parameter.
 *
 * A fold stops at the first message whose storing raises, as the Python loop does when
 * the exception escapes; what was stored before stays stored.
 */
module Ingest {
  import opened Wrappers
  import opened Calendar
  import opened Rows
  import opened Payload
  import opened Store

  const CommitsTable: string := "commits"
  const RetiredTable: string := "retired"

  /** How a collector turns a message into a row, or the error it raises trying. */
  type Extractor = Message -> Result<Row, Error>

  /** The row of a message is keyed by the message's id. */
  ghost predicate KeepsId(extract: Extractor) {
    forall m :: extract(m).Success? ==> extract(m).value.msgid == m.id
  }

  /** The tables after a step or a fold, and the error that ended it, if any. */
  datatype Run = Run(tables: Tables, error: Option<Error>)

  /** `insert_message(table, db, m)`. */
  function InsertMessage(t: Tables, table: string, extract: Extractor, m: Message): Run {
    match extract(m)
    case Failure(e) => Run(t, Some(e))
    case Success(row) =>
      match Insert(t, table, row)
      case Failure(e) => Run(t, Some(e))
      case Success(t1) => Run(t1, None)
  }

  /**
   * Storing a message into an existing table fails exactly when the extraction does, and
   * then with its error; it only appends, only to that table, and a success adds the
   * message's id to that table's keys.
   */
  lemma InsertMessageSpec(t: Tables, table: string, extract: Extractor, m: Message)
    requires table in t
    ensures InsertMessage(t, table, extract, m).error.None? <==> extract(m).Success?
    ensures extract(m).Failure? ==> InsertMessage(t, table, extract, m) == Run(t, Some(extract(m).error))
    ensures Extends(t, InsertMessage(t, table, extract, m).tables)
    ensures Keyed(t) ==> Keyed(InsertMessage(t, table, extract, m).tables)
    ensures forall n :: n in t && n != table ==> InsertMessage(t, table, extract, m).tables[n] == t[n]
    ensures extract(m).Success? ==>
              MsgIds(InsertMessage(t, table, extract, m).tables[table])
              == MsgIds(t[table]) + {extract(m).value.msgid}
  {
    if extract(m).Success? {
      InsertSpec(t, table, extract(m).value);
      if Keyed(t) {
        InsertKeyed(t, table, extract(m).value);
      }
    }
  }

  // ---------------------------------------------------------------- record_pagure_messages

  /** The loop of `record_pagure_messages` over the rows the query returned. */
  function PagureFrom(t: Tables, table: string, extract: Extractor, msgs: seq<Message>): Run
    decreases |msgs|
  {
    if msgs == [] then Run(t, None)
    else
      var s := InsertMessage(t, table, extract, msgs[0]);
      if s.error.Some? then s else PagureFrom(s.tables, table, extract, msgs[1..])
  }

  /** `record_pagure_messages`: create the table, then store every message. */
  function RecordPagure(t: Tables, table: string, extract: Extractor, msgs: seq<Message>): Run {
    PagureFrom(CreateTable(t, table), table, extract, msgs)
  }

  /** The ids of a sequence of messages. */
  function Ids(msgs: seq<Message>): set<string> {
    if msgs == [] then {} else {msgs[0].id} + Ids(msgs[1..])
  }

  /** The fold only appends, to its table alone, and keeps primary keys intact. */
  lemma {:induction false} PagureFromExtends(t: Tables, table: string, extract: Extractor, msgs: seq<Message>)
    requires table in t
    ensures Extends(t, PagureFrom(t, table, extract, msgs).tables)
    ensures Keyed(t) ==> Keyed(PagureFrom(t, table, extract, msgs).tables)
    ensures forall n :: n in t && n != table ==> PagureFrom(t, table, extract, msgs).tables[n] == t[n]
    decreases |msgs|
  {
    if msgs != [] {
      var s := InsertMessage(t, table, extract, msgs[0]);
      InsertMessageSpec(t, table, extract, msgs[0]);
      if s.error.None? {
        PagureFromExtends(s.tables, table, extract, msgs[1..]);
        ExtendsTransitive(t, s.tables, PagureFrom(s.tables, table, extract, msgs[1..]).tables);
      }
    }
  }

  /**
   * The fold ends without error exactly when every message extracts; then the table's
   * keys have grown by exactly the messages' ids.  An error is that of the first message
   * that does not extract.
   */
  lemma {:induction false} PagureFromOutcome(t: Tables, table: string, extract: Extractor, msgs: seq<Message>)
    requires table in t && KeepsId(extract)
    ensures PagureFrom(t, table, extract, msgs).tables.Keys == t.Keys
    ensures PagureFrom(t, table, extract, msgs).error.None? <==>
              forall i :: 0 <= i < |msgs| ==> extract(msgs[i]).Success?
    ensures PagureFrom(t, table, extract, msgs).error.None? ==>
              MsgIds(PagureFrom(t, table, extract, msgs).tables[table]) == MsgIds(t[table]) + Ids(msgs)
    ensures PagureFrom(t, table, extract, msgs).error.Some? ==>
              exists i :: 0 <= i < |msgs| && extract(msgs[i]) == Failure(PagureFrom(t, table, extract, msgs).error.value)
                          && forall j :: 0 <= j < i ==> extract(msgs[j]).Success?
    decreases |msgs|
  {
    PagureFromExtends(t, table, extract, msgs);
    if msgs != [] {
      var s := InsertMessage(t, table, extract, msgs[0]);
      InsertMessageSpec(t, table, extract, msgs[0]);
      if s.error.None? {
        var rest := msgs[1..];
        PagureFromOutcome(s.tables, table, extract, rest);
        assert forall i :: 1 <= i < |msgs| ==> msgs[i] == rest[i - 1];
        var r := PagureFrom(s.tables, table, extract, rest);
        if r.error.Some? {
          var i :| 0 <= i < |rest| && extract(rest[i]) == Failure(r.error.value)
                   && forall j :: 0 <= j < i ==> extract(rest[j]).Success?;
          assert extract(msgs[i + 1]) == Failure(r.error.value);
          assert forall j :: 0 <= j < i + 1 ==> extract(msgs[j]).Success?;
        }
      } else {
        assert extract(msgs[0]).Failure?;
      }
    }
  }

  // ---------------------------------------------------------------- record_commits

  /** One pass of the `record_commits` loop: store into `commits`, then into `retired` if it is a retirement. */
  function CommitStep(t: Tables, extract: Extractor, m: Message): Run {
    var s := InsertMessage(t, CommitsTable, extract, m);
    if s.error.Some? then s
    else match IsRetirement(m)
      case Failure(e) => Run(s.tables, Some(e))
      case Success(retired) =>
        if retired then InsertMessage(s.tables, RetiredTable, extract, m) else s
  }

  /** The loop of `record_commits` over the rows the query returned. */
  function CommitsFrom(t: Tables, extract: Extractor, msgs: seq<Message>): Run
    decreases |msgs|
  {
    if msgs == [] then Run(t, None)
    else
      var s := CommitStep(t, extract, msgs[0]);
      if s.error.Some? then s else CommitsFrom(s.tables, extract, msgs[1..])
  }

  /** `record_commits`: create both tables, then route every message. */
  function RecordCommits(t: Tables, extract: Extractor, msgs: seq<Message>): Run {
    CommitsFrom(CreateTable(CreateTable(t, CommitsTable), RetiredTable), extract, msgs)
  }

  /** The ids of the messages that are retirements. */
  function RetirementIds(msgs: seq<Message>): set<string> {
    if msgs == [] then {}
    else (if IsRetirement(msgs[0]) == Success(true) then {msgs[0].id} else {}) + RetirementIds(msgs[1..])
  }

  /** The message can be routed without raising. */
  predicate Routable(extract: Extractor, m: Message) {
    extract(m).Success? && IsRetirement(m).Success?
  }

  /** One routing step only appends, to `commits` and `retired` alone, and keeps primary keys intact. */
  lemma CommitStepExtends(t: Tables, extract: Extractor, m: Message)
    requires CommitsTable in t && RetiredTable in t
    ensures Extends(t, CommitStep(t, extract, m).tables)
    ensures Keyed(t) ==> Keyed(CommitStep(t, extract, m).tables)
    ensures forall n :: n in t && n != CommitsTable && n != RetiredTable ==> CommitStep(t, extract, m).tables[n] == t[n]
  {
    var s := InsertMessage(t, CommitsTable, extract, m);
    InsertMessageSpec(t, CommitsTable, extract, m);
    if s.error.None? && IsRetirement(m) == Success(true) {
      InsertMessageSpec(s.tables, RetiredTable, extract, m);
      ExtendsTransitive(t, s.tables, CommitStep(t, extract, m).tables);
    }
  }

  /**
   * One routing step, on a database holding both tables, succeeds exactly when the
   * message is routable, and then adds the id to `commits`, and to `retired` exactly when
   * the message is a retirement.  Its error is the extraction's, or else the retirement
   * check's.
   */
  lemma CommitStepOutcome(t: Tables, extract: Extractor, m: Message)
    requires CommitsTable in t && RetiredTable in t && KeepsId(extract)
    ensures CommitStep(t, extract, m).tables.Keys == t.Keys
    ensures CommitStep(t, extract, m).error.None? <==> Routable(extract, m)
    ensures CommitStep(t, extract, m).error.None? ==>
              var t1 := CommitStep(t, extract, m).tables;
              MsgIds(t1[CommitsTable]) == MsgIds(t[CommitsTable]) + {m.id}
              && MsgIds(t1[RetiredTable]) == MsgIds(t[RetiredTable]) + (if IsRetirement(m) == Success(true) then {m.id} else {})
    ensures CommitStep(t, extract, m).error.Some? ==>
              (extract(m).Failure? && CommitStep(t, extract, m).error == Some(extract(m).error))
              || (extract(m).Success? && IsRetirement(m).Failure?
                  && CommitStep(t, extract, m).error == Some(IsRetirement(m).error))
  {
    var s := InsertMessage(t, CommitsTable, extract, m);
    InsertMessageSpec(t, CommitsTable, extract, m);
    if s.error.None? && IsRetirement(m) == Success(true) {
      InsertMessageSpec(s.tables, RetiredTable, extract, m);
    }
  }

  /** The whole loop only appends, to `commits` and `retired` alone, and keeps primary keys intact. */
  lemma {:induction false} CommitsFromExtends(t: Tables, extract: Extractor, msgs: seq<Message>)
    requires CommitsTable in t && RetiredTable in t
    ensures Extends(t, CommitsFrom(t, extract, msgs).tables)
    ensures Keyed(t) ==> Keyed(CommitsFrom(t, extract, msgs).tables)
    ensures forall n :: n in t && n != CommitsTable && n != RetiredTable ==> CommitsFrom(t, extract, msgs).tables[n] == t[n]
    decreases |msgs|
  {
    if msgs != [] {
      var s := CommitStep(t, extract, msgs[0]);
      CommitStepExtends(t, extract, msgs[0]);
      if s.error.None? {
        CommitsFromExtends(s.tables, extract, msgs[1..]);
        ExtendsTransitive(t, s.tables, CommitsFrom(s.tables, extract, msgs[1..]).tables);
      }
    }
  }

  /** The whole loop ends without error exactly when every message is routable. */
  lemma {:induction false} CommitsFromSucceedsIff(t: Tables, extract: Extractor, msgs: seq<Message>)
    requires CommitsTable in t && RetiredTable in t && KeepsId(extract)
    ensures CommitsFrom(t, extract, msgs).error.None? <==> forall i :: 0 <= i < |msgs| ==> Routable(extract, msgs[i])
    decreases |msgs|
  {
    if msgs != [] {
      var s := CommitStep(t, extract, msgs[0]);
      CommitStepOutcome(t, extract, msgs[0]);
      if s.error.None? {
        var rest := msgs[1..];
        CommitsFromSucceedsIff(s.tables, extract, rest);
        assert forall i :: 1 <= i < |msgs| ==> msgs[i] == rest[i - 1];
      }
    }
  }

  /**
   * After a loop that ends without error every id is in `commits`, and the ids of exactly
   * the retirements have been added to `retired`.
   */
  lemma {:induction false} CommitsFromIds(t: Tables, extract: Extractor, msgs: seq<Message>)
    requires CommitsTable in t && RetiredTable in t && KeepsId(extract)
    ensures CommitsFrom(t, extract, msgs).tables.Keys == t.Keys
    ensures CommitsFrom(t, extract, msgs).error.None? ==>
              var t1 := CommitsFrom(t, extract, msgs).tables;
              MsgIds(t1[CommitsTable]) == MsgIds(t[CommitsTable]) + Ids(msgs)
              && MsgIds(t1[RetiredTable]) == MsgIds(t[RetiredTable]) + RetirementIds(msgs)
    decreases |msgs|
  {
    CommitsFromExtends(t, extract, msgs);
    if msgs != [] {
      var s := CommitStep(t, extract, msgs[0]);
      CommitStepOutcome(t, extract, msgs[0]);
      if s.error.None? {
        CommitsFromIds(s.tables, extract, msgs[1..]);
      }
    }
  }

  // ---------------------------------------------------------------- whole calls

  /** The keys a table holds, an absent table holding none. */
  function TableIds(t: Tables, table: string): set<string> {
    if table in t then MsgIds(t[table]) else {}
  }

  /**
   * `record_pagure_messages` leaves the table in place and every other table as it was,
   * keeps the table's earlier rows and every primary key intact; it ends without error
   * exactly when every message extracts, and then the table's keys have grown by exactly
   * the messages' ids.
   */
  lemma RecordPagureSpec(t: Tables, table: string, extract: Extractor, msgs: seq<Message>)
    requires KeepsId(extract)
    ensures var r := RecordPagure(t, table, extract, msgs);
            r.tables.Keys == t.Keys + {table}
            && (forall n :: n in t && n != table ==> r.tables[n] == t[n])
            && (table in t ==> t[table] <= r.tables[table])
            && (Keyed(t) ==> Keyed(r.tables))
            && (r.error.None? <==> forall i :: 0 <= i < |msgs| ==> extract(msgs[i]).Success?)
            && (r.error.None? ==> MsgIds(r.tables[table]) == TableIds(t, table) + Ids(msgs))
  {
    var t0 := CreateTable(t, table);
    CreateTableSpec(t, table);
    PagureFromExtends(t0, table, extract, msgs);
    PagureFromOutcome(t0, table, extract, msgs);
  }

  /**
   * `record_commits` leaves both tables in place and every other table as it was, and
   * keeps earlier rows and every primary key intact.
   */
  lemma RecordCommitsKeeps(t: Tables, extract: Extractor, msgs: seq<Message>)
    ensures var r := RecordCommits(t, extract, msgs);
            r.tables.Keys == t.Keys + {CommitsTable, RetiredTable}
            && (forall n :: n in t && n != CommitsTable && n != RetiredTable ==> r.tables[n] == t[n])
            && (forall n :: n in t ==> t[n] <= r.tables[n])
            && (Keyed(t) ==> Keyed(r.tables))
  {
    var t1 := CreateTable(t, CommitsTable);
    var t0 := CreateTable(t1, RetiredTable);
    CreateTableSpec(t, CommitsTable);
    CreateTableSpec(t1, RetiredTable);
    CommitsFromExtends(t0, extract, msgs);
  }

  /** `record_commits` ends without error exactly when every message is routable. */
  lemma RecordCommitsSucceedsIff(t: Tables, extract: Extractor, msgs: seq<Message>)
    requires KeepsId(extract)
    ensures RecordCommits(t, extract, msgs).error.None? <==> forall i :: 0 <= i < |msgs| ==> Routable(extract, msgs[i])
  {
    var t1 := CreateTable(t, CommitsTable);
    var t0 := CreateTable(t1, RetiredTable);
    CreateTableSpec(t, CommitsTable);
    CreateTableSpec(t1, RetiredTable);
    CommitsFromSucceedsIff(t0, extract, msgs);
  }

  /**
   * When `record_commits` ends without error every id is in `commits` and exactly the
   * retirements' ids have been added to `retired`.
   */
  lemma RecordCommitsIds(t: Tables, extract: Extractor, msgs: seq<Message>)
    requires KeepsId(extract)
    ensures var r := RecordCommits(t, extract, msgs);
            CommitsTable in r.tables && RetiredTable in r.tables
            && (r.error.None? ==>
              MsgIds(r.tables[CommitsTable]) == TableIds(t, CommitsTable) + Ids(msgs)
              && MsgIds(r.tables[RetiredTable]) == TableIds(t, RetiredTable) + RetirementIds(msgs))
  {
    var t1 := CreateTable(t, CommitsTable);
    var t0 := CreateTable(t1, RetiredTable);
    CreateTableSpec(t, CommitsTable);
    CreateTableSpec(t1, RetiredTable);
    assert TableIds(t, CommitsTable) == MsgIds(t0[CommitsTable]);
    assert TableIds(t, RetiredTable) == MsgIds(t0[RetiredTable]);
    CommitsFromIds(t0, extract, msgs);
  }

  // ---------------------------------------------------------------- the month step

  /** `a <= b` for datetimes: by date, then by time of day. */
  predicate TimestampLe(a: Timestamp, b: Timestamp) {
    DateLe(a.date, b.date) && (a.date == b.date ==> a.micros <= b.micros)
  }

  /**
   * `next_month` as written: `date + timedelta(days=32)`.  The `replace(day=1)` after it
   * builds a new value that is thrown away, so the time of day and the drift in the day
   * of month both stay.
   */
  function NextMonthAsWritten(t: Timestamp): (r: Timestamp)
    requires Valid(t.date)
    ensures Valid(r.date) && Ordinal(r.date) == Ordinal(t.date) + 32 && r.micros == t.micros
  {
    AddDaysOrdinal(t.date, 32);
    Timestamp(AddDays(t.date, 32), t.micros)
  }

  /** From the first of August 2023, the collector's start date, the step lands on 2 September. */
  lemma NextMonthAsWrittenDrifts()
    ensures NextMonthAsWritten(Timestamp(Date(2023, 8, 1), 0)) == Timestamp(Date(2023, 9, 2), 0)
    ensures NextMonthAsWritten(Timestamp(Date(2023, 8, 1), 0)).date.day != 1
  {
    AddDaysIntoNextMonth(Date(2023, 8, 1), 32);
  }

  /**
   * `next_month` as evidently intended: `(date + timedelta(days=32)).replace(day=1)`, a
   * first of month in a later month; from a first of month, the next one.
   */
  function NextMonth(t: Timestamp): (r: Timestamp)
    requires Valid(t.date)
    ensures Valid(r.date) && r.date.day == 1 && r.micros == t.micros
    ensures MonthIndex(t.date) < MonthIndex(r.date)
    ensures t.date.day == 1 ==> r.date == NextMonthStart(t.date)
  {
    var d := FirstOfMonth(AddDays(t.date, 32));
    assert t.date.day == 1 ==> d == NextMonthStart(t.date) by {
      if t.date.day == 1 {
        Add32ThenFirst(t.date);
      }
    }
    AddDaysAdvances(t.date, 32);
    Timestamp(d, t.micros)
  }

  /**
   * The windows the main loop would visit with the corrected step `NextMonth`: after the
   * first, every window is a calendar month.
   */
  function Windows(start: Timestamp, now: Timestamp): seq<(Timestamp, Timestamp)>
    requires Valid(start.date) && Valid(now.date)
    decreases MonthIndex(now.date) - MonthIndex(start.date)
  {
    if !TimestampLe(start, now) then []
    else
      DateLeMonthIndex(start.date, now.date);
      [(start, NextMonth(start))] + Windows(NextMonth(start), now)
  }

  /**
   * The windows cover time from `start` on without gaps or overlaps, every window after
   * the first begins on a first of month and the ones after that on consecutive months,
   * every window begins no later than `now`, and the last one ends after it.
   */
  lemma {:induction false} WindowsSpec(start: Timestamp, now: Timestamp)
    requires Valid(start.date) && Valid(now.date)
    ensures forall i :: 0 <= i < |Windows(start, now)| ==> Valid(Windows(start, now)[i].0.date)
    ensures var w := Windows(start, now);
            (w == [] <==> !TimestampLe(start, now))
            && (w != [] ==> w[0].0 == start && !TimestampLe(w[|w| - 1].1, now))
            && (forall i :: 0 <= i < |w| ==> TimestampLe(w[i].0, now) && w[i].1 == NextMonth(w[i].0))
            && (forall i :: 0 < i < |w| ==> w[i].0 == w[i - 1].1 && w[i].0.date.day == 1)
            && (forall i :: 1 < i < |w| ==> w[i].0.date == NextMonthStart(w[i - 1].0.date))
    decreases MonthIndex(now.date) - MonthIndex(start.date)
  {
    var w := Windows(start, now);
    if TimestampLe(start, now) {
      DateLeMonthIndex(start.date, now.date);
      var next := NextMonth(start);
      WindowsSpec(next, now);
      var rest := Windows(next, now);
      assert w == [(start, next)] + rest;
      assert forall i :: 0 < i < |w| ==> w[i] == rest[i - 1];
    }
  }

  /**
   * The windows `[start, next_month(start))` the collectors' main loop visits while
   * `start <= now`, with `next_month` as written: each window is 32 days long.
   */
  function WindowsAsWritten(start: Timestamp, now: Timestamp): seq<(Timestamp, Timestamp)>
    requires Valid(start.date) && Valid(now.date)
    decreases MonthIndex(now.date) - MonthIndex(start.date)
  {
    if !TimestampLe(start, now) then []
    else
      DateLeMonthIndex(start.date, now.date);
      AddDaysAdvances(start.date, 32);
      [(start, NextMonthAsWritten(start))] + WindowsAsWritten(NextMonthAsWritten(start), now)
  }

  /**
   * The main loop's windows start at `start` and chain without gaps or overlaps; each is
   * 32 days long with the time of day kept, begins no later than `now`, and the last one
   * ends after it.
   */
  lemma {:induction false} WindowsAsWrittenSpec(start: Timestamp, now: Timestamp)
    requires Valid(start.date) && Valid(now.date)
    ensures forall i :: 0 <= i < |WindowsAsWritten(start, now)| ==> Valid(WindowsAsWritten(start, now)[i].0.date)
    ensures var w := WindowsAsWritten(start, now);
            (w == [] <==> !TimestampLe(start, now))
            && (w != [] ==> w[0].0 == start && !TimestampLe(w[|w| - 1].1, now))
            && (forall i :: 0 <= i < |w| ==> TimestampLe(w[i].0, now) && w[i].1 == NextMonthAsWritten(w[i].0))
            && (forall i :: 0 <= i < |w| ==>
                  Ordinal(w[i].1.date) == Ordinal(w[i].0.date) + 32 && w[i].1.micros == w[i].0.micros)
            && (forall i :: 0 < i < |w| ==> w[i].0 == w[i - 1].1)
    decreases MonthIndex(now.date) - MonthIndex(start.date)
  {
    var w := WindowsAsWritten(start, now);
    if TimestampLe(start, now) {
      DateLeMonthIndex(start.date, now.date);
      AddDaysAdvances(start.date, 32);
      var next := NextMonthAsWritten(start);
      WindowsAsWrittenSpec(next, now);
      var rest := WindowsAsWritten(next, now);
      assert w == [(start, next)] + rest;
      assert forall i :: 0 < i < |w| ==> w[i] == rest[i - 1];
    }
  }

  /**
   * From 2023-08-01 at midnight, with `now` on 2023-08-15, the loop visits the single
   * window ending on 2 September.
   */
  lemma FirstWindowAsWritten()
    ensures WindowsAsWritten(Timestamp(Date(2023, 8, 1), 0), Timestamp(Date(2023, 8, 15), 0))
            == [(Timestamp(Date(2023, 8, 1), 0), Timestamp(Date(2023, 9, 2), 0))]
  {
    NextMonthAsWrittenDrifts();
  }

  /** The collectors' main loop, computing the windows it hands to the `record_*` calls. */
  method CollectionWindows(start: Timestamp, now: Timestamp) returns (windows: seq<(Timestamp, Timestamp)>)
    requires Valid(start.date) && Valid(now.date)
    ensures windows == WindowsAsWritten(start, now)
  {
    windows := [];
    var current := start;
    while TimestampLe(current, now)
      invariant Valid(current.date)
      invariant windows + WindowsAsWritten(current, now) == WindowsAsWritten(start, now)
      decreases MonthIndex(now.date) - MonthIndex(current.date)
    {
      DateLeMonthIndex(current.date, now.date);
      AddDaysAdvances(current.date, 32);
      var end := NextMonthAsWritten(current);
      windows := windows + [(current, end)];
      current := NextMonthAsWritten(current);
    }
  }
}
