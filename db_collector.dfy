/**
 * The collector that reads the DataNommer PostgreSQL database: the environment test on
 * the host name, the `~/.pgpass` parser, the conversion of a cursor row into a message,
 * the row extraction of its `insert_message`, and its `record_*` loops over the rows a
 * query returned.
 */
module DbCollector {
  import opened Wrappers
  import opened Calendar
  import opened Rows
  import opened Text
  import opened Payload
  import opened Store
  import Ingest

  // ---------------------------------------------------------------- get_env

  /** `get_env()` for the host name `socket.gethostname()` returns. */
  function GetEnv(hostname: string): (env: string)
    ensures env == "stg" || env == "prod"
    ensures env == "stg" <==> exists i :: OccursAt(hostname, ".stg.", i)
  {
    ContainsIff(hostname, ".stg.");
    if Contains(hostname, ".stg.") then "stg" else "prod"
  }

  /** A staging host is recognised by the dotted label; a host name merely ending in `.stg` is not. */
  lemma GetEnvExamples()
    ensures GetEnv("db01.stg.iad2.fedoraproject.org") == "stg"
    ensures GetEnv("proxy01.stg") == "prod"
  {
    var stg := "db01.stg.iad2.fedoraproject.org";
    assert stg[4] == '.' && stg[5] == 's' && stg[6] == 't' && stg[7] == 'g' && stg[8] == '.';
    assert stg[4..9] == ".stg.";
    assert OccursAt(stg, ".stg.", 4);
    var h := "proxy01.stg";
    forall i | 0 <= i <= |h| - 5 ensures !OccursAt(h, ".stg.", i) {
      assert h[i..i + 5][0] == h[i];
      assert h[i..i + 5][4] == h[i + 4];
    }
  }

  // ---------------------------------------------------------------- read_pgpass

  /** The unpacking of a line into five names raises `ValueError`: the line and how many fields it had. */
  datatype PgpassError = WrongFieldCount(line: nat, fields: nat)

  /** database to user name to password. */
  type Credentials = map<string, map<string, string>>

  /** `line.strip().split(":")`. */
  function Fields(line: string): seq<string> {
    Split(Strip(line), ':')
  }

  /** The fields of every line. */
  function LineFields(lines: seq<string>): seq<seq<string>> {
    seq(|lines|, i requires 0 <= i < |lines| => Fields(lines[i]))
  }

  /** The fields are those of a well-formed line naming this database and user. */
  predicate Names(f: seq<string>, db: string, user: string) {
    |f| == 5 && f[2] == db && f[3] == user
  }

  /** `credentials[database][username] = password` on a `defaultdict(dict)`. */
  function AddCredential(c: Credentials, f: seq<string>): Credentials
    requires |f| == 5
  {
    c[f[2] := (if f[2] in c then c[f[2]] else map[])[f[3] := f[4]]]
  }

  /** The loop of `read_pgpass` over the lines' fields: the mapping, or the error of the first bad line. */
  function Collect(fs: seq<seq<string>>): Result<Credentials, PgpassError> {
    if fs == [] then Success(map[])
    else
      match Collect(fs[..|fs| - 1])
      case Failure(e) => Failure(e)
      case Success(c) =>
        var f := fs[|fs| - 1];
        if |f| != 5 then Failure(WrongFieldCount(|fs| - 1, |f|)) else Success(AddCredential(c, f))
  }

  /** What `read_pgpass` returns for the file's lines. */
  function ParsePgpass(lines: seq<string>): Result<Credentials, PgpassError> {
    Collect(LineFields(lines))
  }

  /**
   * Parsing fails exactly when some line does not split into five fields, and then it
   * names the first such line and its field count.
   */
  lemma {:induction false} CollectFails(fs: seq<seq<string>>)
    ensures Collect(fs).Success? <==> forall i :: 0 <= i < |fs| ==> |fs[i]| == 5
    ensures Collect(fs).Failure? ==>
              var e := Collect(fs).error;
              e.line < |fs| && e.fields == |fs[e.line]| && e.fields != 5
              && forall i :: 0 <= i < e.line ==> |fs[i]| == 5
  {
    if fs != [] {
      var init := fs[..|fs| - 1];
      CollectFails(init);
      assert forall i :: 0 <= i < |init| ==> init[i] == fs[i];
    }
  }

  /** Once a prefix of the lines fails, the whole file fails the same way. */
  lemma {:induction false} CollectPrefixFails(fs: seq<seq<string>>, k: nat)
    requires k <= |fs| && Collect(fs[..k]).Failure?
    ensures Collect(fs) == Collect(fs[..k])
    decreases |fs| - k
  {
    if k < |fs| {
      assert fs[..k + 1][..k] == fs[..k];
      CollectPrefixFails(fs, k + 1);
    } else {
      assert fs[..k] == fs;
    }
  }

  /**
   * After a successful parse a database and user have an entry exactly when some line
   * names them, and the password is the one on the last such line.
   */
  lemma {:induction false} CollectLookup(fs: seq<seq<string>>, db: string, user: string)
    requires Collect(fs).Success?
    ensures var c := Collect(fs).value;
            (db in c && user in c[db]) <==> exists i :: 0 <= i < |fs| && Names(fs[i], db, user)
    ensures var c := Collect(fs).value;
            forall i :: 0 <= i < |fs| && Names(fs[i], db, user)
                        && (forall j :: i < j < |fs| ==> !Names(fs[j], db, user))
                        ==> db in c && user in c[db] && c[db][user] == fs[i][4]
  {
    if fs != [] {
      var init := fs[..|fs| - 1];
      var last := |fs| - 1;
      CollectLookup(init, db, user);
      assert forall i :: 0 <= i < |init| ==> init[i] == fs[i];
    }
  }

  /** `read_pgpass`, over the lines of the file. */
  method ReadPgpass(lines: seq<string>) returns (r: Result<Credentials, PgpassError>)
    ensures r == ParsePgpass(lines)
  {
    ghost var fs := LineFields(lines);
    var credentials: Credentials := map[];
    var i := 0;
    while i < |lines|
      invariant 0 <= i <= |lines|
      invariant Collect(fs[..i]) == Success(credentials)
    {
      assert fs[..i + 1][..i] == fs[..i];
      var f := Fields(lines[i]);
      if |f| != 5 {
        CollectPrefixFails(fs, i + 1);
        return Failure(WrongFieldCount(i, |f|));
      }
      var database, username, password := f[2], f[3], f[4];
      var users := if database in credentials then credentials[database] else map[];
      credentials := credentials[database := users[username := password]];
      i := i + 1;
    }
    assert fs[..i] == fs;
    return Success(credentials);
  }

  // ---------------------------------------------------------------- messages

  /** A row of the `messages` query: `msg_id, topic, timestamp, msg, headers`. */
  datatype CursorRow = CursorRow(msgId: string, topic: string, timestamp: Timestamp, msg: Body,
                                 headers: Option<Headers>)

  /** `message_from_row`: a `NULL` (or empty) `headers` column becomes an empty mapping. */
  function MessageFromRow(row: CursorRow): Message {
    Message(row.msgId, row.topic, Some(row.timestamp), row.msg, Some(row.headers.GetOr(Headers(None))))
  }

  function Messages(rows: seq<CursorRow>): seq<Message> {
    seq(|rows|, i requires 0 <= i < |rows| => MessageFromRow(rows[i]))
  }

  /** The date `insert_message` stores: `headers["sent-at"]` if there is one, else the message's timestamp. */
  function MessageDate(m: Message): Result<Timestamp, Error> {
    if m.headers.Some? && m.headers.value.sentAt.Some? then Success(m.headers.value.sentAt.value)
    else if m.timestamp.Some? then Success(m.timestamp.value)
    else Failure(MissingKey("timestamp"))
  }

  /**
   * The package: `body.project.fullname`, else `body.commit.repo`, prefixed with the
   * namespace and a slash when the commit has a `namespace` key.
   */
  function PackageName(b: Body): Result<string, Error> {
    if FullName(b).Some? then Success(FullName(b).value)
    else if b.commit.None? then Failure(MissingKey("body.commit"))
    else if b.commit.value.repo.None? then Failure(MissingKey("body.commit.repo"))
    else if b.commit.value.namespace.Some?
    then Success(b.commit.value.namespace.value + "/" + b.commit.value.repo.value)
    else Success(b.commit.value.repo.value)
  }

  /** The row `insert_message` builds, or the error it raises building it. */
  function ExtractRow(m: Message): Result<Row, Error> {
    var date :- MessageDate(m);
    var package :- PackageName(m.body);
    var agent :- Agent(m.body);
    Success(Row(m.id, date, date.date.year, date.date.month, agent, package))
  }

  /**
   * Extraction succeeds exactly when a date, a package and an agent can all be found; the
   * row is keyed by the message id and its `year` and `month` are those of its date.
   */
  lemma ExtractRowSpec(m: Message)
    ensures ExtractRow(m).Success? <==>
              MessageDate(m).Success? && PackageName(m.body).Success? && Agent(m.body).Success?
    ensures ExtractRow(m).Success? ==>
              var r := ExtractRow(m).value;
              r.msgid == m.id && r.timestamp == MessageDate(m).value
              && r.year == r.timestamp.date.year && r.month == r.timestamp.date.month
              && r.actor == Agent(m.body).value && r.package == PackageName(m.body).value
    ensures ExtractRow(m).Success? && ValidTimestamp(ExtractRow(m).value.timestamp) ==> Consistent(ExtractRow(m).value)
  {
  }

  /** Every row is keyed by the id of its message. */
  lemma ExtractRowKeepsId()
    ensures Ingest.KeepsId(ExtractRow)
  {
    forall m | ExtractRow(m).Success? ensures ExtractRow(m).value.msgid == m.id {
      ExtractRowSpec(m);
    }
  }

  /**
   * A message made from a cursor row always has a date: the `sent-at` header when there
   * is one, otherwise the row's own timestamp.
   */
  lemma CursorRowDate(row: CursorRow)
    ensures MessageDate(MessageFromRow(row)).Success?
    ensures MessageDate(MessageFromRow(row)).value ==
              if row.headers.Some? && row.headers.value.sentAt.Some? then row.headers.value.sentAt.value
              else row.timestamp
  {
  }

  /**
   * A package is found exactly when there is a `project.fullname` or a commit with a
   * `repo`; the full name, when there is one, wins.
   */
  lemma PackageNameFound(b: Body)
    ensures PackageName(b).Success? <==> FullName(b).Some? || (b.commit.Some? && b.commit.value.repo.Some?)
    ensures FullName(b).Some? ==> PackageName(b) == Success(FullName(b).value)
  {
  }

  /**
   * A package name built from the commit splits back, at the slash, into the namespace and
   * the repository when it has a namespace, and into the repository alone otherwise
   * (when neither holds a slash).
   */
  lemma PackageNameSplits(b: Body)
    requires FullName(b).None? && b.commit.Some? && b.commit.value.repo.Some?
    requires '/' !in b.commit.value.repo.value
    requires b.commit.value.namespace.Some? ==> '/' !in b.commit.value.namespace.value
    ensures PackageName(b).Success?
    ensures Split(PackageName(b).value, '/') ==
              if b.commit.value.namespace.Some? then [b.commit.value.namespace.value, b.commit.value.repo.value]
              else [b.commit.value.repo.value]
  {
    var repo := b.commit.value.repo.value;
    if b.commit.value.namespace.Some? {
      var ns := b.commit.value.namespace.value;
      SplitJoin([ns, repo], '/');
      assert Join([ns, repo], '/') == ns + "/" + repo;
    } else {
      SplitFree(repo, '/');
    }
  }

  // ---------------------------------------------------------------- storing

  /** `insert_message(table, db, message)`. */
  method InsertMessage(db: StatsDb, table: string, m: Message) returns (err: Option<Error>)
    modifies db
    ensures Ingest.Run(db.tables, err) == Ingest.InsertMessage(old(db.tables), table, ExtractRow, m)
  {
    var extracted := ExtractRow(m);
    if extracted.Failure? {
      return Some(extracted.error);
    }
    err := db.InsertRow(table, extracted.value);
  }

  /** `record_pagure_messages(topic, table, dndb, statsdb, start, end)`, over the rows the query returned. */
  method RecordPagureMessages(db: StatsDb, table: string, rows: seq<CursorRow>) returns (err: Option<Error>)
    modifies db
    ensures Ingest.Run(db.tables, err) == Ingest.RecordPagure(old(db.tables), table, ExtractRow, Messages(rows))
  {
    db.MakeDb(table);
    ghost var msgs := Messages(rows);
    ghost var start := db.tables;
    err := None;
    var i := 0;
    assert msgs[0..] == msgs;
    while i < |rows|
      invariant 0 <= i <= |rows| && err.None?
      invariant Ingest.PagureFrom(start, table, ExtractRow, msgs) == Ingest.PagureFrom(db.tables, table, ExtractRow, msgs[i..])
    {
      assert msgs[i..][0] == MessageFromRow(rows[i]) && msgs[i..][1..] == msgs[i + 1..];
      err := InsertMessage(db, table, MessageFromRow(rows[i]));
      if err.Some? {
        return;
      }
      i := i + 1;
    }
    assert msgs[i..] == [];
  }

  /** `record_action(action, ...)`: the messages go to the table named after the past participle. */
  method RecordAction(db: StatsDb, action: string, rows: seq<CursorRow>) returns (err: Option<Error>)
    modifies db
    ensures Ingest.Run(db.tables, err) == Ingest.RecordPagure(old(db.tables), action + "ed", ExtractRow, Messages(rows))
  {
    err := RecordPagureMessages(db, action + "ed", rows);
  }

  /** `record_commits(dndb, statsdb, start, end)`, over the rows the query returned. */
  method RecordCommits(db: StatsDb, rows: seq<CursorRow>) returns (err: Option<Error>)
    modifies db
    ensures Ingest.Run(db.tables, err) == Ingest.RecordCommits(old(db.tables), ExtractRow, Messages(rows))
  {
    db.MakeDb(Ingest.CommitsTable);
    db.MakeDb(Ingest.RetiredTable);
    ghost var msgs := Messages(rows);
    ghost var start := db.tables;
    err := None;
    var i := 0;
    assert msgs[0..] == msgs;
    while i < |rows|
      invariant 0 <= i <= |rows| && err.None?
      invariant Ingest.CommitsFrom(start, ExtractRow, msgs) == Ingest.CommitsFrom(db.tables, ExtractRow, msgs[i..])
    {
      var m := MessageFromRow(rows[i]);
      assert msgs[i..][0] == m && msgs[i..][1..] == msgs[i + 1..];
      err := InsertMessage(db, Ingest.CommitsTable, m);
      if err.Some? {
        return;
      }
      var retirement := IsRetirement(m);
      if retirement.Failure? {
        return Some(retirement.error);
      }
      if retirement.value {
        err := InsertMessage(db, Ingest.RetiredTable, m);
        if err.Some? {
          return;
        }
      }
      i := i + 1;
    }
    assert msgs[i..] == [];
  }
}
