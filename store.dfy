/**
 * The SQLite statistics file the collectors write: named tables of rows, each table
 * keyed by `msgid` (its primary key) and scanned in insertion order.  `make_db` is
 * `CREATE TABLE IF NOT EXISTS`; `insert_message` ends in an `INSERT` whose primary-key
 * violation is swallowed.
 */
module Store {
  import opened Wrappers
  import opened Rows
  import opened Payload

  /** Table name to its rows, in insertion order. */
  type Tables = map<string, seq<Row>>

  /** The primary keys present in a table. */
  function MsgIds(rows: seq<Row>): set<string> {
    if rows == [] then {} else MsgIds(rows[..|rows| - 1]) + {rows[|rows| - 1].msgid}
  }

  lemma {:induction false} MsgIdsMembers(rows: seq<Row>)
    ensures forall id :: id in MsgIds(rows) <==> exists i :: 0 <= i < |rows| && rows[i].msgid == id
  {
    if rows != [] {
      var init := rows[..|rows| - 1];
      MsgIdsMembers(init);
      assert forall i :: 0 <= i < |init| ==> init[i] == rows[i];
    }
  }

  /** No two rows of a table share a primary key. */
  predicate UniqueIds(rows: seq<Row>) {
    forall i, j :: 0 <= i < j < |rows| ==> rows[i].msgid != rows[j].msgid
  }

  /** Every table respects its primary key. */
  predicate Keyed(t: Tables) {
    forall name :: name in t ==> UniqueIds(t[name])
  }

  /**
   * The later state only appends rows: the same tables, each one an extension of what it
   * was.
   */
  predicate Extends(t0: Tables, t1: Tables) {
    t0.Keys == t1.Keys && forall name :: name in t0 ==> t0[name] <= t1[name]
  }

  lemma ExtendsTransitive(t0: Tables, t1: Tables, t2: Tables)
    requires Extends(t0, t1) && Extends(t1, t2)
    ensures Extends(t0, t2)
  {
    forall name | name in t0 ensures t0[name] <= t2[name] {
      assert t0[name] <= t1[name] <= t2[name];
    }
  }

  // ---------------------------------------------------------------- make_db

  /** `CREATE TABLE IF NOT EXISTS name`. */
  function CreateTable(t: Tables, name: string): Tables {
    if name in t then t else t[name := []]
  }

  /**
   * The table exists afterwards, empty if it is new; every table that existed keeps its
   * rows; and doing it again changes nothing.
   */
  lemma CreateTableSpec(t: Tables, name: string)
    ensures CreateTable(t, name).Keys == t.Keys + {name}
    ensures name !in t ==> CreateTable(t, name)[name] == []
    ensures forall n :: n in t ==> CreateTable(t, name)[n] == t[n]
    ensures CreateTable(CreateTable(t, name), name) == CreateTable(t, name)
    ensures Keyed(t) ==> Keyed(CreateTable(t, name))
  {
  }

  // ---------------------------------------------------------------- insert

  /**
   * `INSERT INTO name ...` with the `IntegrityError` of a repeated `msgid` caught and
   * ignored.  A missing table is an error.
   */
  function Insert(t: Tables, name: string, row: Row): Result<Tables, Error> {
    if name !in t then Failure(NoSuchTable(name))
    else if row.msgid in MsgIds(t[name]) then Success(t)
    else Success(t[name := t[name] + [row]])
  }

  /**
   * An insert fails only for a missing table.  Otherwise it only appends, to that table
   * alone, and afterwards the table's keys are the old ones plus the row's: a repeated
   * key leaves everything as it was, a new one adds exactly that row at the end.
   */
  lemma InsertSpec(t: Tables, name: string, row: Row)
    ensures Insert(t, name, row).Failure? <==> name !in t
    ensures Insert(t, name, row).Success? ==>
              var t1 := Insert(t, name, row).value;
              Extends(t, t1)
              && (forall n :: n in t && n != name ==> t1[n] == t[n])
              && MsgIds(t1[name]) == MsgIds(t[name]) + {row.msgid}
    ensures name in t && (exists i :: 0 <= i < |t[name]| && t[name][i].msgid == row.msgid) ==>
              Insert(t, name, row) == Success(t)
    ensures name in t && (forall i :: 0 <= i < |t[name]| ==> t[name][i].msgid != row.msgid) ==>
              Insert(t, name, row).Success?
              && |Insert(t, name, row).value[name]| == |t[name]| + 1
              && Insert(t, name, row).value[name][|t[name]|] == row
  {
    if name in t {
      var rows := t[name];
      MsgIdsMembers(rows);
      if row.msgid !in MsgIds(rows) {
        assert (rows + [row])[..|rows|] == rows;
      }
    }
  }

  /** An insert keeps every table's primary key intact. */
  lemma InsertKeyed(t: Tables, name: string, row: Row)
    requires Keyed(t)
    ensures Insert(t, name, row).Success? ==> Keyed(Insert(t, name, row).value)
  {
    if name in t && row.msgid !in MsgIds(t[name]) {
      var rows := t[name];
      MsgIdsMembers(rows);
      var t1 := Insert(t, name, row).value;
      forall n | n in t1 ensures UniqueIds(t1[n]) {
        if n == name {
          assert t1[n] == rows + [row];
          assert forall i :: 0 <= i < |rows| ==> rows[i].msgid != row.msgid;
        }
      }
    }
  }

  // ---------------------------------------------------------------- the database file

  /** The statistics file, opened by `sqlite3.connect`. */
  class StatsDb {
    var tables: Tables

    /** Opens a file that already holds `existing` (nothing, for a new file). */
    constructor(existing: Tables)
      ensures tables == existing
    {
      tables := existing;
    }

    /** `make_db(connection, name)`. */
    method MakeDb(name: string)
      modifies this
      ensures tables == CreateTable(old(tables), name)
    {
      tables := CreateTable(tables, name);
    }

    /** The `INSERT` at the end of `insert_message`; `err` is what it raises. */
    method InsertRow(name: string, row: Row) returns (err: Option<Error>)
      modifies this
      ensures Insert(old(tables), name, row).Success? ==>
                err == None && tables == Insert(old(tables), name, row).value
      ensures Insert(old(tables), name, row).Failure? ==>
                err == Some(Insert(old(tables), name, row).error) && tables == old(tables)
    {
      if name !in tables {
        return Some(NoSuchTable(name));
      }
      if row.msgid in MsgIds(tables[name]) {
        return None;
      }
      tables := tables[name := tables[name] + [row]];
      return None;
    }
  }
}
