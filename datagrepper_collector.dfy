/**
 * The collector that pages through the Datagrepper web API: its own row extraction in
 * `insert_message`, stricter than the database collector's, and its `record_*` loops
 * over pages of messages.
 */
module DatagrepperCollector {
  import opened Wrappers
  import opened Calendar
  import opened Rows
  import opened Payload
  import opened Store
  import Ingest
  import DbCollector

  /** The date comes from `headers["sent-at"]` only. */
  function MessageDate(m: Message): Result<Timestamp, Error> {
    if m.headers.None? then Failure(MissingKey("headers"))
    else if m.headers.value.sentAt.None? then Failure(MissingKey("headers.sent-at"))
    else Success(m.headers.value.sentAt.value)
  }

  /** The package: `body.project.fullname`, else `"{namespace}/{repo}"`, both keys required. */
  function PackageName(b: Body): Result<string, Error> {
    if FullName(b).Some? then Success(FullName(b).value)
    else if b.commit.None? then Failure(MissingKey("body.commit"))
    else if b.commit.value.namespace.None? then Failure(MissingKey("body.commit.namespace"))
    else if b.commit.value.repo.None? then Failure(MissingKey("body.commit.repo"))
    else Success(b.commit.value.namespace.value + "/" + b.commit.value.repo.value)
  }

  /** The row `insert_message` builds, or the error it raises building it. */
  function ExtractRow(m: Message): Result<Row, Error> {
    var date :- MessageDate(m);
    var package :- PackageName(m.body);
    var agent :- Agent(m.body);
    Success(Row(m.id, date, date.date.year, date.date.month, agent, package))
  }

  /**
   * Extraction succeeds exactly when there is a `sent-at` header, a package and an agent;
   * the row is keyed by the message id, dated by `sent-at`, and its `year` and `month`
   * are those of that date.
   */
  lemma ExtractRowSpec(m: Message)
    ensures ExtractRow(m).Success? <==>
              m.headers.Some? && m.headers.value.sentAt.Some?
              && PackageName(m.body).Success? && Agent(m.body).Success?
    ensures ExtractRow(m).Success? ==>
              var r := ExtractRow(m).value;
              r.msgid == m.id && r.timestamp == m.headers.value.sentAt.value
              && r.year == r.timestamp.date.year && r.month == r.timestamp.date.month
              && r.actor == Agent(m.body).value && r.package == PackageName(m.body).value
    ensures ExtractRow(m).Success? && ValidTimestamp(ExtractRow(m).value.timestamp) ==> Consistent(ExtractRow(m).value)
  {
  }

  /**
   * This collector's package name, when found, is the database collector's; it is found
   * exactly when the database collector finds one from a full name or from a commit with
   * a namespace, so only a bare repository is refused.
   */
  lemma PackageNameAgrees(b: Body)
    ensures PackageName(b).Success? ==> DbCollector.PackageName(b) == PackageName(b)
    ensures PackageName(b).Success? <==>
              DbCollector.PackageName(b).Success?
              && (FullName(b).Some? || (b.commit.Some? && b.commit.value.namespace.Some?))
  {
  }

  /** Every row is keyed by the id of its message. */
  lemma ExtractRowKeepsId()
    ensures Ingest.KeepsId(ExtractRow)
  {
    forall m | ExtractRow(m).Success? ensures ExtractRow(m).value.msgid == m.id {
      ExtractRowSpec(m);
    }
  }

  /**
   * Whatever this collector can store, the database collector stores as the same row:
   * this extraction only refuses more messages.
   */
  lemma AgreesWithDbCollector(m: Message)
    requires ExtractRow(m).Success?
    ensures DbCollector.ExtractRow(m) == ExtractRow(m)
  {
    ExtractRowSpec(m);
    DbCollector.ExtractRowSpec(m);
  }

  /**
   * A commit message without `sent-at` and without a namespace: the database collector
   * stores it, dated by its timestamp and named by the bare repository; this one raises.
   */
  lemma RefusesWhatDbCollectorStores()
    ensures var commit := Commit(None, Some("rawhide"), Some("foo"), None, Some("alice"));
            var m := Message("m1", "org.fedoraproject.prod.git.receive", Some(Timestamp(Date(2024, 3, 1), 0)),
                             Body(None, Some(commit), None), Some(Headers(None)));
            && DbCollector.ExtractRow(m) == Success(Row("m1", Timestamp(Date(2024, 3, 1), 0), 2024, 3, "alice", "foo"))
            && ExtractRow(m) == Failure(MissingKey("headers.sent-at"))
  {
  }

  // ---------------------------------------------------------------- storing

  /** The messages of all pages, in order. */
  function Flatten(pages: seq<seq<Message>>): seq<Message> {
    if pages == [] then [] else pages[0] + Flatten(pages[1..])
  }

  /** `insert_message(table, db, message)`. */
  method InsertMessage(db: StatsDb, table: string, m: Message) returns (err: Option<Error>)
    modifies db
    ensures Ingest.Run(db.tables, err) == Ingest.InsertMessage(old(db.tables), table, ExtractRow, m)
  {
    var extracted := ExtractRow(m);
    if extracted.Failure? {
      return Some(extracted.error);
    }
    err := db.InsertRow(table, extracted.value);
  }

  /** `record_pagure_messages(topic, table, db, start, end)`, over the pages the search returned. */
  method RecordPagureMessages(db: StatsDb, table: string, pages: seq<seq<Message>>) returns (err: Option<Error>)
    modifies db
    ensures Ingest.Run(db.tables, err) == Ingest.RecordPagure(old(db.tables), table, ExtractRow, Flatten(pages))
  {
    db.MakeDb(table);
    ghost var start := db.tables;
    err := None;
    var p := 0;
    assert pages[0..] == pages;
    while p < |pages|
      invariant 0 <= p <= |pages| && err.None?
      invariant Ingest.PagureFrom(start, table, ExtractRow, Flatten(pages))
                == Ingest.PagureFrom(db.tables, table, ExtractRow, Flatten(pages[p..]))
    {
      var page := pages[p];
      ghost var later := Flatten(pages[p + 1..]);
      assert pages[p..][1..] == pages[p + 1..];
      assert page[0..] + later == Flatten(pages[p..]);
      var i := 0;
      while i < |page|
        invariant 0 <= i <= |page| && err.None?
        invariant Ingest.PagureFrom(start, table, ExtractRow, Flatten(pages))
                  == Ingest.PagureFrom(db.tables, table, ExtractRow, page[i..] + later)
      {
        assert (page[i..] + later)[0] == page[i] && (page[i..] + later)[1..] == page[i + 1..] + later;
        err := InsertMessage(db, table, page[i]);
        if err.Some? {
          return;
        }
        i := i + 1;
      }
      assert page[i..] + later == later;
      p := p + 1;
    }
  }

  /** `record_commits(db, start, end)`, over the pages the search returned. */
  method RecordCommits(db: StatsDb, pages: seq<seq<Message>>) returns (err: Option<Error>)
    modifies db
    ensures Ingest.Run(db.tables, err) == Ingest.RecordCommits(old(db.tables), ExtractRow, Flatten(pages))
  {
    db.MakeDb(Ingest.CommitsTable);
    db.MakeDb(Ingest.RetiredTable);
    ghost var start := db.tables;
    err := None;
    var p := 0;
    assert pages[0..] == pages;
    while p < |pages|
      invariant 0 <= p <= |pages| && err.None?
      invariant Ingest.CommitsFrom(start, ExtractRow, Flatten(pages))
                == Ingest.CommitsFrom(db.tables, ExtractRow, Flatten(pages[p..]))
    {
      var page := pages[p];
      ghost var later := Flatten(pages[p + 1..]);
      assert pages[p..][1..] == pages[p + 1..];
      assert page[0..] + later == Flatten(pages[p..]);
      var i := 0;
      while i < |page|
        invariant 0 <= i <= |page| && err.None?
        invariant Ingest.CommitsFrom(start, ExtractRow, Flatten(pages))
                  == Ingest.CommitsFrom(db.tables, ExtractRow, page[i..] + later)
      {
        var m := page[i];
        assert (page[i..] + later)[0] == m && (page[i..] + later)[1..] == page[i + 1..] + later;
        err := InsertMessage(db, Ingest.CommitsTable, m);
        if err.Some? {
          return;
        }
        var retirement := IsRetirement(m);
        if retirement.Failure? {
          return Some(retirement.error);
        }
        if retirement.value {
          err := InsertMessage(db, Ingest.RetiredTable, m);
          if err.Some? {
            return;
          }
        }
        i := i + 1;
      }
      assert page[i..] + later == later;
      p := p + 1;
    }
  }
}
