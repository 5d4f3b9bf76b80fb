/**
 * The whole database of kernel/db/database.c: up to 16 tables, the shared buffers and the counter
 * that numbers rows across all tables.
 */
module Store {
  import opened Wrappers
  import opened RecordFormat
  import opened Database
  import opened Aes
  import opened Sha256

  const MAX_TABLES: nat := 16
  const TABLE_ID_AUDIT: nat := 5

  /** Two tables share no part of their indexes. */
  ghost predicate Separate(a: Table, b: Table)
    reads a.index, b.index, a.index.root, b.index.root
  {
    a != b && a.index != b.index && a.index.root.repr !! b.index.root.repr
  }

  /** All row ids are below n. */
  ghost predicate Numbered(rows: map<nat, Record>, n: nat)
  {
    forall k :: k in rows ==> k < n
  }

  lemma NumberedPut(rows: map<nat, Record>, n: nat, k: nat, r: Record)
    requires Numbered(rows, n)
    ensures Numbered(rows - {k}, n) && Numbered(rows, n + 1) && n !in rows
    ensures k < n ==> Numbered(rows[k := r], n)
    ensures k in rows ==> k < n
  {
  }

  lemma NumberedNone(n: nat)
    ensures Numbered(map[], n)
  {
  }

  lemma RootIn(t: Table)
    requires t.Valid()
    ensures t.index.root in t.index.root.repr
  {
  }

  /** What an operation on a table may change. */
  ghost function PartOf(t: Table): set<object>
    reads t, t.index, t.index.root
  {
    {t, t.index} + t.index.root.repr
  }

  /** The records of every table, by table number. */
  type Db = seq<map<nat, Record>>

  ghost function RowsOf(ts: seq<Table>): (db: Db)
    reads ts
    ensures |db| == |ts| && forall i :: 0 <= i < |db| ==> db[i] == ts[i].rows
  {
    if ts == [] then [] else RowsOf(ts[..|ts| - 1]) + [ts[|ts| - 1].rows]
  }

  /** The database with r under k in table t, if there is such a table. */
  ghost function Put(db: Db, t: nat, k: nat, r: Record): Db
  {
    if t < |db| then
      var rows: map<nat, Record> := db[t][k := r];
      db[t := rows]
    else db
  }

  /** The database without k in table t. */
  ghost function Drop(db: Db, t: nat, k: nat): Db
  {
    if t < |db| then
      var rows: map<nat, Record> := db[t] - {k};
      db[t := rows]
    else db
  }

  class Store {
    const f: Compression
    const serdeBuf: array<bv8>
    const cryptoBuf: array<bv8>
    var tables: seq<Table>
    var nextRow: nat

    /** What operations on the tables may change. */
    ghost var parts: set<object>

    /** Every table holds what it should and shares nothing with another, and every row id in use is
        below the counter. */
    ghost predicate Valid()
      reads *
    {
      && |tables| <= MAX_TABLES && 1 <= nextRow < U64
      && serdeBuf.Length == MAX_RECORD_SIZE && cryptoBuf.Length == BUFFER && serdeBuf != cryptoBuf
      && (forall i :: 0 <= i < |tables| ==> tables[i].Valid() && Ours(tables[i], i) && PartOf(tables[i]) <= parts)
      && (forall i :: 0 <= i < |tables| ==> Numbered(tables[i].rows, nextRow))
      && (forall i, j :: 0 <= i < |tables| && 0 <= j < |tables| && i != j ==> Separate(tables[i], tables[j]))
    }

    ghost predicate Ours(t: Table, i: nat)
      reads this
    {
      t.id == i && t.serdeBuf == serdeBuf && t.cryptoBuf == cryptoBuf
    }

    /** db_init */
    constructor (f: Compression)
      ensures Valid() && tables == [] && nextRow == 1 && parts == {} && fresh(serdeBuf) && fresh(cryptoBuf)
    {
      this.f := f;
      serdeBuf := new bv8[MAX_RECORD_SIZE](_ => 0);
      cryptoBuf := new bv8[BUFFER](_ => 0);
      tables, nextRow, parts := [], 1, {};
    }

    /** db_create_table: an empty table under the next number, unless there are 16. */
    method CreateTable(rk: Schedule, macKey: seq<bv8>) returns (ok: bool)
      requires Valid() && |macKey| < LIMIT
      modifies this`tables, this`parts
      ensures Valid() && fresh(parts - old(parts)) && (ok <==> |old(tables)| < MAX_TABLES)
      ensures ok ==> |tables| == |old(tables)| + 1 && tables[..|old(tables)|] == old(tables) && tables[|old(tables)|].rows == map[]
      ensures !ok ==> tables == old(tables)
    {
      hide Table.Valid;
      hide Numbered;
      if |tables| >= MAX_TABLES {
        return false;
      }
      var t := new Table(|tables|, f, rk, macKey, serdeBuf, cryptoBuf);
      NumberedNone(nextRow);
      tables, parts := tables + [t], parts + PartOf(t);
      ok := true;
    }

    /** db_next_row_id */
    method NextRowId() returns (k: nat)
      requires Valid() && nextRow + 1 < U64
      modifies this`nextRow
      ensures Valid() && k == old(nextRow) && nextRow == k + 1
      ensures forall i :: 0 <= i < |tables| ==> k !in tables[i].rows
    {
      hide Table.Valid;
      hide Numbered;
      k := nextRow;
      forall i | 0 <= i < |tables|
        ensures Numbered(tables[i].rows, k + 1) && k !in tables[i].rows
      {
        NumberedPut(tables[i].rows, k, 0, Record(0, 0, []));
      }
      nextRow := nextRow + 1;
    }

    /** db_get_record */
    method Get(t: nat, k: nat, memory: bool) returns (r: Option<Record>)
      requires Valid()
      modifies cryptoBuf
      ensures Valid()
      ensures memory ==> r == if t < |tables| && k in tables[t].rows then Some(tables[t].rows[k]) else None
    {
      hide Table.Valid;
      hide Numbered;
      if t >= |tables| {
        return None;
      }
      r := tables[t].Get(k, memory);
    }

    /** db_insert_record for a table that exists: only the named table changes. */
    method InsertInto(t: nat, r: Record, iv: Block, memory: bool) returns (code: Code)
      requires Valid() && RecordOk(r) && r.rowId < nextRow && t < |tables| && r.rowId !in tables[t].rows
      modifies this`parts, serdeBuf, cryptoBuf, tables[t], tables[t].index, tables[t].index.root.repr
      ensures Valid() && fresh(parts - old(parts)) && tables == old(tables)
      ensures code == if |RecordBytes(r)| > MAX_RECORD_SIZE then Invalid else if memory then Ok else NoMemory
      ensures tables[t].rows == if code.Ok? then old(tables[t].rows)[r.rowId := r] else old(tables[t].rows)
      ensures forall i :: 0 <= i < |tables| && i != t ==> tables[i].rows == old(tables[i].rows)
    {
      hide Table.LeftOf;
      hide Table.Valid;
      hide Numbered;
      hide RecordBytes;
      hide RecordOk;
      hide RowsOf;
      RootsIn();
      NumberedPut(tables[t].rows, nextRow, r.rowId, r);
      code := tables[t].Insert(r, iv, memory);
      parts := parts + tables[t].index.root.repr;
      forall i | 0 <= i < |tables| && i != t
        ensures tables[i].Valid() && tables[i].rows == old(tables[i].rows)
        ensures Separate(tables[i], tables[t]) && Separate(tables[t], tables[i])
        ensures PartOf(tables[i]) == old(PartOf(tables[i])) <= parts
      {
        assert old(Separate(tables[i], tables[t]));
      }
      forall i, j | 0 <= i < |tables| && 0 <= j < |tables| && i != j
        ensures Separate(tables[i], tables[j])
      {
        assert old(Separate(tables[i], tables[j]));
      }
    }

    /** db_delete_record for a table that exists: only the named table changes. */
    method DeleteFrom(t: nat, k: nat) returns (code: Code)
      requires Valid() && k < U64 && t < |tables|
      modifies this`parts, tables[t], tables[t].index, tables[t].index.root.repr
      ensures Valid() && fresh(parts - old(parts)) && tables == old(tables)
      ensures code == if k in old(tables[t].rows) then Ok else NotFound
      ensures tables[t].rows == old(tables[t].rows) - {k}
      ensures forall i :: 0 <= i < |tables| && i != t ==> tables[i].rows == old(tables[i].rows)
    {
      hide Table.Valid;
      hide Numbered;
      hide RecordBytes;
      hide RecordOk;
      hide RowsOf;
      RootsIn();
      NumberedPut(tables[t].rows, nextRow, k, Record(0, 0, []));
      code := tables[t].Delete(k);
      parts := parts + tables[t].index.root.repr;
      forall i | 0 <= i < |tables| && i != t
        ensures tables[i].Valid() && tables[i].rows == old(tables[i].rows)
        ensures Separate(tables[i], tables[t]) && Separate(tables[t], tables[i])
        ensures PartOf(tables[i]) == old(PartOf(tables[i])) <= parts
      {
        assert old(Separate(tables[i], tables[t]));
      }
      forall i, j | 0 <= i < |tables| && 0 <= j < |tables| && i != j
        ensures Separate(tables[i], tables[j])
      {
        assert old(Separate(tables[i], tables[j]));
      }
    }

    /** db_update_encrypted for a table that exists: only the named table changes. */
    method UpdateIn(t: nat, k: nat, modified: Record, iv: Block, memory: bool) returns (code: Code)
      requires Valid() && RecordOk(modified) && k < U64 && t < |tables|
      modifies this`parts, serdeBuf, cryptoBuf, tables[t], tables[t].index, tables[t].index.root.repr
      ensures Valid() && fresh(parts - old(parts)) && tables == old(tables)
      ensures k !in old(tables[t].rows) ==> code.NotFound? && tables[t].rows == old(tables[t].rows)
      ensures k in old(tables[t].rows) ==>
        var r := modified.(rowId := k, tableId := t);
        && RecordOk(r)
        && code == (if |RecordBytes(r)| > MAX_RECORD_SIZE then Invalid else if memory then Ok else NoMemory)
        && tables[t].rows == if code.Ok? then old(tables[t].rows)[k := r] else old(tables[t].rows) - {k}
      ensures forall i :: 0 <= i < |tables| && i != t ==> tables[i].rows == old(tables[i].rows)
    {
      hide Table.Valid;
      hide Numbered;
      hide RecordBytes;
      hide RecordOk;
      hide RowsOf;
      RootsIn();
      NumberedPut(tables[t].rows, nextRow, k, modified.(rowId := k, tableId := t));
      code := tables[t].Update(k, modified, iv, memory);
      parts := parts + tables[t].index.root.repr;
      forall i | 0 <= i < |tables| && i != t
        ensures tables[i].Valid() && tables[i].rows == old(tables[i].rows)
        ensures Separate(tables[i], tables[t]) && Separate(tables[t], tables[i])
        ensures PartOf(tables[i]) == old(PartOf(tables[i])) <= parts
      {
        assert old(Separate(tables[i], tables[t]));
      }
      forall i, j | 0 <= i < |tables| && 0 <= j < |tables| && i != j
        ensures Separate(tables[i], tables[j])
      {
        assert old(Separate(tables[i], tables[j]));
      }
    }

    /** The records of every table. */
    ghost function Rows(): (db: Db)
      reads *
      ensures |db| == |tables| && forall i :: 0 <= i < |db| ==> db[i] == tables[i].rows
    {
      RowsOf(tables)
    }

    /** db_insert_record */
    method Insert(t: nat, r: Record, iv: Block, memory: bool) returns (code: Code)
      requires Valid() && RecordOk(r) && r.rowId < nextRow && (t < |tables| ==> r.rowId !in tables[t].rows)
      modifies this`parts, serdeBuf, cryptoBuf, parts
      ensures Valid() && fresh(parts - old(parts)) && tables == old(tables) && nextRow == old(nextRow)
      ensures code == if t >= |tables| || |RecordBytes(r)| > MAX_RECORD_SIZE then Invalid else if memory then Ok else NoMemory
      ensures Rows() == if code.Ok? then Put(old(Rows()), t, r.rowId, r) else old(Rows())
    {
      hide Valid;
      hide RecordBytes;
      hide RecordOk;
      hide PartOf;
      hide RowsOf;
      if t >= |tables| {
        return Invalid;
      }
      HasPart(t);
      ghost var db := Rows();
      code := InsertInto(t, r, iv, memory);
      assert Rows() == db[t := tables[t].rows];
    }

    /** db_delete_record */
    method Delete(t: nat, k: nat) returns (code: Code)
      requires Valid() && k < U64
      modifies this`parts, parts
      ensures Valid() && fresh(parts - old(parts)) && tables == old(tables) && nextRow == old(nextRow)
      ensures code == if t >= |tables| then Invalid else if k in old(tables[t].rows) then Ok else NotFound
      ensures Rows() == Drop(old(Rows()), t, k)
    {
      hide Valid;
      hide PartOf;
      hide RowsOf;
      if t >= |tables| {
        return Invalid;
      }
      HasPart(t);
      ghost var db := Rows();
      code := DeleteFrom(t, k);
      assert Rows() == db[t := tables[t].rows];
    }

    /** db_update_encrypted */
    method Update(t: nat, k: nat, modified: Record, iv: Block, memory: bool) returns (code: Code)
      requires Valid() && RecordOk(modified) && k < U64
      modifies this`parts, serdeBuf, cryptoBuf, parts
      ensures Valid() && fresh(parts - old(parts)) && tables == old(tables) && nextRow == old(nextRow)
      ensures t >= |tables| ==> code.Invalid? && Rows() == old(Rows())
      ensures t < |tables| && k !in old(tables[t].rows) ==> code.NotFound? && Rows() == old(Rows())
      ensures t < |tables| && k in old(tables[t].rows) ==>
        var r := modified.(rowId := k, tableId := t);
        && RecordOk(r)
        && code == (if |RecordBytes(r)| > MAX_RECORD_SIZE then Invalid else if memory then Ok else NoMemory)
        && Rows() == if code.Ok? then Put(old(Rows()), t, k, r) else Drop(old(Rows()), t, k)
    {
      hide Valid;
      hide RecordBytes;
      hide RecordOk;
      hide PartOf;
      hide RowsOf;
      if t >= |tables| {
        return Invalid;
      }
      HasPart(t);
      ghost var db := Rows();
      code := UpdateIn(t, k, modified, iv, memory);
      assert Rows() == db[t := tables[t].rows];
      assert db[t := db[t]] == db;
    }

    /** The insertion of a new row as exec_insert does it: the row id comes from the counter, so it is in
        no table, and the insertion is one the index carries out exactly. */
    method InsertNew(t: nat, fields: seq<Value>, iv: Block, memory: bool) returns (k: nat, code: Code)
      requires Valid() && nextRow + 1 < U64 && t < U32
      requires |fields| <= MAX_COLUMNS && forall i :: 0 <= i < |fields| ==> ValueOk(fields[i])
      modifies this`nextRow, this`parts, serdeBuf, cryptoBuf, parts
      ensures Valid() && fresh(parts - old(parts)) && tables == old(tables) && k == old(nextRow) && nextRow == k + 1
      ensures forall i :: 0 <= i < |tables| ==> k !in old(tables[i].rows)
      ensures var r := Record(k, t, fields);
        && RecordOk(r)
        && code == (if t >= |tables| || |RecordBytes(r)| > MAX_RECORD_SIZE then Invalid else if memory then Ok else NoMemory)
        && Rows() == if code.Ok? then Put(old(Rows()), t, k, r) else old(Rows())
    {
      hide Valid;
      hide RecordBytes;
      hide ValueOk;
      hide RowsOf;
      k := NextRowId();
      code := Insert(t, Record(k, t, fields), iv, memory);
    }

    /** db_audit_log: one more row in the audit table, if there is one, whatever the strings; it always
        fits. */
    method Audit(pid: nat, action: seq<bv8>, target: nat, result: seq<bv8>, now: nat, iv: Block, memory: bool) returns (k: nat)
      requires Valid() && nextRow + 1 < U64 && pid < U64 && target < U64 && now < U64
      modifies this`nextRow, this`parts, serdeBuf, cryptoBuf, parts
      ensures Valid() && fresh(parts - old(parts)) && tables == old(tables) && k == old(nextRow) && nextRow == k + 1
      ensures forall i :: 0 <= i < |tables| ==> k !in old(tables[i].rows)
      ensures Rows() == if memory then Put(old(Rows()), TABLE_ID_AUDIT, k, AuditRow(k, now, pid, action, target, result)) else old(Rows())
    {
      hide Valid;
      hide RecordBytes;
      hide RowsOf;
      hide ValueOk;
      AuditFits(nextRow, now, pid, action, target, result);
      var code;
      k, code := InsertNew(TABLE_ID_AUDIT, AuditRow(nextRow, now, pid, action, target, result).fields, iv, memory);
    }

    lemma HasPart(t: nat)
      requires Valid() && t < |tables|
      ensures {tables[t], tables[t].index} + tables[t].index.root.repr <= parts
    {
      hide Table.Valid;
      hide Numbered;
    }

    lemma RootsIn()
      requires Valid()
      ensures forall i :: 0 <= i < |tables| ==> tables[i].index.root in tables[i].index.root.repr
    {
      forall i | 0 <= i < |tables|
        ensures tables[i].index.root in tables[i].index.root.repr
      {
        RootIn(tables[i]);
      }
    }
  }

  /** A string cut or filled up with zeros to 255 bytes. */
  function Fixed(s: seq<bv8>): (r: seq<bv8>)
    ensures |r| == MAX_STR_LEN
  {
    seq(MAX_STR_LEN, i requires 0 <= i < MAX_STR_LEN => if i < |s| then s[i] else 0)
  }

  function AuditRow(k: nat, now: nat, pid: nat, action: seq<bv8>, target: nat, result: seq<bv8>): Record
  {
    Record(k, TABLE_ID_AUDIT, [Unsigned(k), Unsigned(now), Unsigned(pid), Text(Fixed(action)), Unsigned(target), Text(Fixed(result))])
  }

  lemma AuditFits(k: nat, now: nat, pid: nat, action: seq<bv8>, target: nat, result: seq<bv8>)
    requires k < U64 && now < U64 && pid < U64 && target < U64
    ensures RecordOk(AuditRow(k, now, pid, action, target, result))
    ensures |RecordBytes(AuditRow(k, now, pid, action, target, result))| <= MAX_RECORD_SIZE
  {
    hide RecordBytes;
    hide Fixed;
    Fits(AuditRow(k, now, pid, action, target, result));
  }
}
