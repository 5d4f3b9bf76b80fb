/**
 * SELECT, INSERT, DELETE and UPDATE of kernel/db/query.c on the encrypted tables, once they are
 * parsed: scan, decrypt, filter, change the rows found and log the change in the audit table.
 */
module Query {
  import opened Wrappers
  import opened RecordFormat
  import opened Filter
  import opened Database
  import opened Store
  import Aes
  import M = BTreeModel
  import R = BTreeRuns

  /** A row that the scan reports: it matches, and the allocations for it succeed. */
  ghost predicate Hit(r: Record, columns: seq<seq<bv8>>, conds: seq<Condition>, seen: nat -> bool)
  {
    seen(r.rowId) && Matches(r, columns, conds)
  }

  /** out holds exactly the rows that match, in strictly ascending row id order. */
  ghost predicate Selected(out: seq<Record>, rows: map<nat, Record>, columns: seq<seq<bv8>>, conds: seq<Condition>, seen: nat -> bool)
  {
    && (forall i, j :: 0 <= i < j < |out| ==> out[i].rowId < out[j].rowId)
    && (forall i :: 0 <= i < |out| ==> out[i].rowId in rows && rows[out[i].rowId] == out[i] && Hit(out[i], columns, conds, seen))
    && (forall k :: k in rows && Hit(rows[k], columns, conds, seen) ==> rows[k] in out)
  }

  /** The scan of SELECT, DELETE and UPDATE: decrypt each live record and keep the matching ones. */
  method Select(t: Table, columns: seq<seq<bv8>>, conds: seq<Condition>, seen: nat -> bool) returns (out: seq<Record>)
    requires t.Valid()
    modifies t.cryptoBuf
    ensures t.Valid() && Selected(out, t.rows, columns, conds, seen)
  {
    hide Matches;
    hide Table.Valid;
    hide R.Lists;
    hide Found;
    hide M.Live;
    hide M.Flat;
    Facts(t);
    var pairs := t.index.Scan();
    ghost var m, rows := t.index.Map(), t.rows;
    out := [];
    var i := 0;
    FoundNone(rows, columns, conds, seen, pairs);
    while i < |pairs|
      invariant i <= |pairs| && t.Valid() && Found(out, rows, columns, conds, seen, pairs, i)
      modifies t.cryptoBuf
    {
      FoundStep(out, rows, columns, conds, seen, pairs, i, m);
      var r, ok := Examine(t, pairs[i].0, pairs[i].1, columns, conds, seen(pairs[i].0));
      if ok {
        out := out + [r];
      }
      i := i + 1;
    }
    FoundAll(out, rows, columns, conds, seen, pairs, m);
  }

  lemma Facts(t: Table)
    requires t.Valid()
    ensures t.index.Valid() && R.Good(t.index.State()) && t.index.Map().Keys == t.rows.Keys
    ensures forall k :: k in t.rows ==> t.rows[k].rowId == k
  {
  }

  /** select_scan_callback: decrypt one record of the scan and test it; without memory it is passed over. */
  method Examine(t: Table, ghost k: nat, e: Enc, columns: seq<seq<bv8>>, conds: seq<Condition>, memory: bool) returns (r: Record, ok: bool)
    requires t.Valid() && k in t.index.Map() && t.index.Map()[k] == e
    modifies t.cryptoBuf
    ensures t.Valid() && k in t.rows && ok == (memory && Matches(t.rows[k], columns, conds)) && (ok ==> r == t.rows[k])
  {
    hide Matches;
    hide Sealed;
    hide R.Good;
    hide R.LeavesLive;
    hide M.Live;
    hide M.Flat;
    SealedShape(t.f, t.rk, t.mac.key, e, t.rows[k]);
    var rec := t.Decrypt(e, memory);
    if rec.None? {
      return Record(0, 0, []), false;
    }
    r := rec.value;
    ok := RecordMatches(r, columns, conds);
  }

  lemma FoundNone(rows: map<nat, Record>, columns: seq<seq<bv8>>, conds: seq<Condition>, seen: nat -> bool, pairs: seq<(nat, Enc)>)
    ensures Found([], rows, columns, conds, seen, pairs, 0)
  {
  }

  /** The selection among the first n pairs of the scan. */
  ghost predicate Found(out: seq<Record>, rows: map<nat, Record>, columns: seq<seq<bv8>>, conds: seq<Condition>, seen: nat -> bool, pairs: seq<(nat, Enc)>, n: nat)
    requires n <= |pairs|
  {
    && (forall i, j :: 0 <= i < j < |out| ==> out[i].rowId < out[j].rowId)
    && (forall i :: 0 <= i < |out| ==> out[i].rowId in rows && rows[out[i].rowId] == out[i] && Hit(out[i], columns, conds, seen))
    && (n < |pairs| ==> forall i :: 0 <= i < |out| ==> out[i].rowId < pairs[n].0)
    && (forall p :: 0 <= p < n && pairs[p].0 in rows && Hit(rows[pairs[p].0], columns, conds, seen) ==> rows[pairs[p].0] in out)
  }

  lemma FoundStep(out: seq<Record>, rows: map<nat, Record>, columns: seq<seq<bv8>>, conds: seq<Condition>, seen: nat -> bool, pairs: seq<(nat, Enc)>, n: nat, m: map<nat, Enc>)
    requires n < |pairs| && R.Lists(pairs, m) && m.Keys == rows.Keys && (forall k :: k in rows ==> rows[k].rowId == k)
    requires Found(out, rows, columns, conds, seen, pairs, n)
    ensures pairs[n].0 in rows && pairs[n].0 in m && m[pairs[n].0] == pairs[n].1
    ensures var r := rows[pairs[n].0];
      Found(if Hit(r, columns, conds, seen) then out + [r] else out, rows, columns, conds, seen, pairs, n + 1)
  {
    hide Hit;
    hide R.Lists;
    ListsAt(pairs, n, m);
    var k := pairs[n].0;
    var r := rows[k];
    if Hit(r, columns, conds, seen) {
      var out' := out + [r];
      assert forall i :: 0 <= i < |out| ==> out'[i] == out[i];
      assert out'[|out|] == r;
      forall p | 0 <= p < n + 1 && pairs[p].0 in rows && Hit(rows[pairs[p].0], columns, conds, seen)
        ensures rows[pairs[p].0] in out'
      {
        if p < n { assert rows[pairs[p].0] in out; }
      }
    }
  }

  lemma ListsAt(pairs: seq<(nat, Enc)>, n: nat, m: map<nat, Enc>)
    requires n < |pairs| && R.Lists(pairs, m)
    ensures pairs[n].0 in m && m[pairs[n].0] == pairs[n].1 && (n + 1 < |pairs| ==> pairs[n].0 < pairs[n + 1].0)
  {
  }

  lemma FoundAll(out: seq<Record>, rows: map<nat, Record>, columns: seq<seq<bv8>>, conds: seq<Condition>, seen: nat -> bool, pairs: seq<(nat, Enc)>, m: map<nat, Enc>)
    requires R.Lists(pairs, m) && m.Keys == rows.Keys && Found(out, rows, columns, conds, seen, pairs, |pairs|)
    ensures Selected(out, rows, columns, conds, seen)
  {
    hide Hit;
    forall k | k in rows && Hit(rows[k], columns, conds, seen)
      ensures rows[k] in out
    {
      assert k in m && (k, m[k]) in pairs;
      var p :| 0 <= p < |pairs| && pairs[p] == (k, m[k]);
      assert pairs[p].0 == k;
    }
  }

  /** The rows without the matching ones. */
  ghost function Without(rows: map<nat, Record>, columns: seq<seq<bv8>>, conds: seq<Condition>, seen: nat -> bool): map<nat, Record>
  {
    map k | k in rows && !Hit(rows[k], columns, conds, seen) :: rows[k]
  }

  ghost function Matching(rows: map<nat, Record>, columns: seq<seq<bv8>>, conds: seq<Condition>, seen: nat -> bool): set<nat>
  {
    set k | k in rows && Hit(rows[k], columns, conds, seen)
  }

  /** The scan of one table of the database. */
  method Search(s: Store, t: nat, columns: seq<seq<bv8>>, conds: seq<Condition>, seen: nat -> bool) returns (out: seq<Record>)
    requires s.Valid() && t < |s.tables|
    modifies s.cryptoBuf
    ensures s.Valid() && s.Rows() == old(s.Rows()) && Selected(out, s.tables[t].rows, columns, conds, seen)
    ensures forall k :: k in s.tables[t].rows ==> RecordOk(s.tables[t].rows[k]) && s.tables[t].rows[k].rowId == k
  {
    hide Table.Valid;
    hide Selected;
    hide Numbered;
    hide RowsOf;
    hide RecordOk;
    out := Select(s.tables[t], columns, conds, seen);
    RowsOk(s.tables[t]);
  }

  lemma RowsOk(t: Table)
    requires t.Valid()
    ensures forall k :: k in t.rows ==> RecordOk(t.rows[k]) && t.rows[k].rowId == k
  {
    hide R.Good;
    hide R.LeavesLive;
  }

  /** The row ids of the first n records. */
  ghost function Ids(rs: seq<Record>, n: nat): set<nat>
    requires n <= |rs|
  {
    set i | 0 <= i < n :: rs[i].rowId
  }

  lemma IdsStep(rs: seq<Record>, n: nat, rows: map<nat, Record>, columns: seq<seq<bv8>>, conds: seq<Condition>, seen: nat -> bool)
    requires n < |rs| && Selected(rs, rows, columns, conds, seen)
    ensures Ids(rs, n + 1) == Ids(rs, n) + {rs[n].rowId} && rs[n].rowId !in Ids(rs, n)
    ensures rs[n].rowId in rows && rows[rs[n].rowId] == rs[n]
  {
    hide Hit;
  }

  lemma IdsAll(rs: seq<Record>, rows: map<nat, Record>, columns: seq<seq<bv8>>, conds: seq<Condition>, seen: nat -> bool)
    requires Selected(rs, rows, columns, conds, seen) && forall k :: k in rows ==> rows[k].rowId == k
    ensures Ids(rs, |rs|) == Matching(rows, columns, conds, seen)
  {
    hide Hit;
    forall k | k in rows && Hit(rows[k], columns, conds, seen)
      ensures k in Ids(rs, |rs|)
    {
      assert rows[k] in rs;
      var i :| 0 <= i < |rs| && rs[i] == rows[k];
    }
  }

  /** The rows without the first n of the list. */
  ghost function Minus(rows: map<nat, Record>, gone: seq<Record>, n: nat): map<nat, Record>
    requires n <= |gone|
  {
    map k | k in rows && !(exists i :: 0 <= i < n && gone[i].rowId == k) :: rows[k]
  }

  lemma MinusStep(rows: map<nat, Record>, gone: seq<Record>, n: nat, columns: seq<seq<bv8>>, conds: seq<Condition>, seen: nat -> bool)
    requires n < |gone| && Selected(gone, rows, columns, conds, seen)
    ensures gone[n].rowId in Minus(rows, gone, n)
    ensures Minus(rows, gone, n + 1) == Minus(rows, gone, n) - {gone[n].rowId}
    ensures |Minus(rows, gone, n + 1)| == |Minus(rows, gone, n)| - 1
  {
    hide Hit;
    var a, b, k := Minus(rows, gone, n), Minus(rows, gone, n + 1), gone[n].rowId;
    assert k in rows;
    assert forall i :: 0 <= i < n ==> gone[i].rowId < k;
    assert b == a - {k};
    OneLess(a, k);
  }

  lemma OneLess(rows: map<nat, Record>, k: nat)
    requires k in rows
    ensures |rows - {k}| == |rows| - 1
  {
    var less := rows - {k};
    assert less.Keys == rows.Keys - {k} && |less| == |less.Keys| && |rows| == |rows.Keys|;
  }

  lemma MinusAll(rows: map<nat, Record>, gone: seq<Record>, columns: seq<seq<bv8>>, conds: seq<Condition>, seen: nat -> bool)
    requires Selected(gone, rows, columns, conds, seen) && forall k :: k in rows ==> rows[k].rowId == k
    ensures Minus(rows, gone, |gone|) == Without(rows, columns, conds, seen)
  {
    hide Hit;
    forall k | k in rows
      ensures (exists i :: 0 <= i < |gone| && gone[i].rowId == k) <==> Hit(rows[k], columns, conds, seen)
    {
      if Hit(rows[k], columns, conds, seen) {
        assert rows[k] in gone;
        var i :| 0 <= i < |gone| && gone[i] == rows[k];
        assert gone[i].rowId == k;
      }
    }
  }

  // ---------- the audit log ----------

  const INSERT: seq<bv8> := [0x49, 0x4E, 0x53, 0x45, 0x52, 0x54]
  const DELETE: seq<bv8> := [0x44, 0x45, 0x4C, 0x45, 0x54, 0x45]
  const UPDATE: seq<bv8> := [0x55, 0x50, 0x44, 0x41, 0x54, 0x45]
  const OK: seq<bv8> := [0x4F, 0x4B]

  /** What a call finds around it: the tick counter, random bytes and whether allocations succeed. */
  datatype Env = Env(now: nat, iv: Aes.Block, memory: bool)

  ghost function SetRows(db: Db, t: nat, rows: map<nat, Record>): (db': Db)
    ensures |db'| == |db|
  {
    if t < |db| then db[t := rows] else db
  }

  /** The database with more rows in the audit table. */
  ghost function WithLog(db: Db, log: map<nat, Record>): (db': Db)
    ensures |db'| == |db|
  {
    if TABLE_ID_AUDIT < |db| then SetRows(db, TABLE_ID_AUDIT, db[TABLE_ID_AUDIT] + log) else db
  }

  ghost predicate Remembered(env: nat -> Env, base: nat, k: nat)
    requires base <= k
  {
    env(k - base).memory
  }

  /** The audit rows of the first n deletions: one for each, under the row ids from base on. */
  ghost function Log(base: nat, gone: seq<Record>, n: nat, pid: nat, env: nat -> Env): map<nat, Record>
    requires n <= |gone|
  {
    map k: nat | base <= k < base + n && Remembered(env, base, k) ::
      AuditRow(k, env(k - base).now, pid, DELETE, gone[k - base].rowId, OK)
  }

  lemma LogNone(base: nat, gone: seq<Record>, pid: nat, env: nat -> Env)
    ensures Log(base, gone, 0, pid, env) == map[]
  {
  }

  lemma LogStep(base: nat, gone: seq<Record>, n: nat, pid: nat, env: nat -> Env)
    requires n < |gone|
    ensures var log, k := Log(base, gone, n, pid, env), base + n;
      k !in log && Log(base, gone, n + 1, pid, env) ==
        if env(n).memory then log[k := AuditRow(k, env(n).now, pid, DELETE, gone[n].rowId, OK)] else log
  {
    hide AuditRow;
    var log, more, k := Log(base, gone, n, pid, env), Log(base, gone, n + 1, pid, env), base + n;
    if env(n).memory {
      assert k in more;
      assert more == log[k := AuditRow(k, env(n).now, pid, DELETE, gone[n].rowId, OK)];
    } else {
      assert more == log;
    }
  }

  /** Every deletion whose allocations succeed is logged. */
  lemma LogEmpty(base: nat, gone: seq<Record>, pid: nat, env: nat -> Env)
    ensures Log(base, gone, |gone|, pid, env) == map[] <==> forall i :: 0 <= i < |gone| ==> !env(i).memory
  {
    var log := Log(base, gone, |gone|, pid, env);
    forall i | 0 <= i < |gone|
      ensures env(i).memory <==> base + i in log
    {
    }
  }

  // ---------- DELETE ----------

  /** The database when the first n matching rows are deleted and logged. */
  ghost function Deleted(db: Db, t: nat, gone: seq<Record>, n: nat, base: nat, pid: nat, env: nat -> Env): Db
    requires t < |db| && n <= |gone|
  {
    WithLog(SetRows(db, t, Minus(db[t], gone, n)), Log(base, gone, n, pid, env))
  }

  lemma DeletedNone(db: Db, t: nat, gone: seq<Record>, base: nat, pid: nat, env: nat -> Env)
    requires t < |db|
    ensures Deleted(db, t, gone, 0, base, pid, env) == db
  {
    LogNone(base, gone, pid, env);
    assert Minus(db[t], gone, 0) == db[t];
    var db' := SetRows(db, t, db[t]);
    assert db' == db;
    if TABLE_ID_AUDIT < |db| { assert db[TABLE_ID_AUDIT] + map[] == db[TABLE_ID_AUDIT]; }
  }

  /** Deleting the next row and logging it: the logged row ids are above all others. */
  lemma DeletedStep(db: Db, t: nat, gone: seq<Record>, n: nat, base: nat, pid: nat, env: nat -> Env,
                    columns: seq<seq<bv8>>, conds: seq<Condition>, seen: nat -> bool)
    requires t < |db| && n < |gone| && Selected(gone, db[t], columns, conds, seen)
    requires forall i :: 0 <= i < |db| ==> Numbered(db[i], base)
    ensures var db1, k := Deleted(db, t, gone, n, base, pid, env), base + n;
      var db2 := Drop(db1, t, gone[n].rowId);
      Deleted(db, t, gone, n + 1, base, pid, env) ==
        if env(n).memory then Put(db2, TABLE_ID_AUDIT, k, AuditRow(k, env(n).now, pid, DELETE, gone[n].rowId, OK)) else db2
  {
    hide AuditRow;
    hide Selected;
    hide Minus;
    hide Log;
    var g := gone[n].rowId;
    var log, log' := Log(base, gone, n, pid, env), Log(base, gone, n + 1, pid, env);
    LogStep(base, gone, n, pid, env);
    LogKeys(base, gone, n, pid, env);
    MinusStep(db[t], gone, n, columns, conds, seen);
    GoneBelow(db[t], gone, n, base, columns, conds, seen);
    MapAlgebra(Minus(db[t], gone, n), log, g);
    var db1 := Deleted(db, t, gone, n, base, pid, env);
    var db2 := Drop(db1, t, g);
    assert db2 == WithLog(SetRows(db, t, Minus(db[t], gone, n + 1)), log);
    if env(n).memory && TABLE_ID_AUDIT < |db| {
      var k, row := base + n, AuditRow(base + n, env(n).now, pid, DELETE, g, OK);
      AddRow(db2[TABLE_ID_AUDIT], SetRows(db, t, Minus(db[t], gone, n + 1))[TABLE_ID_AUDIT], log, k, row);
    }
  }

  lemma LogKeys(base: nat, gone: seq<Record>, n: nat, pid: nat, env: nat -> Env)
    requires n <= |gone|
    ensures forall k :: k in Log(base, gone, n, pid, env) ==> k >= base
  {
  }

  lemma GoneBelow(rows: map<nat, Record>, gone: seq<Record>, n: nat, base: nat, columns: seq<seq<bv8>>, conds: seq<Condition>, seen: nat -> bool)
    requires n < |gone| && Selected(gone, rows, columns, conds, seen) && Numbered(rows, base)
    ensures gone[n].rowId < base && gone[n].rowId in rows
  {
    hide Hit;
  }

  lemma MapAlgebra(rows: map<nat, Record>, log: map<nat, Record>, g: nat)
    requires g !in log
    ensures (rows + log) - {g} == (rows - {g}) + log
  {
  }

  lemma AddRow(sum: map<nat, Record>, rows: map<nat, Record>, log: map<nat, Record>, k: nat, r: Record)
    requires sum == rows + log
    ensures sum[k := r] == rows + log[k := r]
  {
  }

  /** exec_delete: exactly the matching rows leave the named table, and the audit table gains a row for
      each, under new row ids. So the named table ends without the matching rows and nothing else
      exactly when it is not the audit table, or no deletion could be logged: nothing matched, or every
      allocation failed. */
  method Delete(s: Store, t: nat, columns: seq<seq<bv8>>, conds: seq<Condition>, pid: nat, seen: nat -> bool, env: nat -> Env)
    returns (deleted: nat, ghost gone: seq<Record>)
    requires s.Valid() && t < |s.tables| && pid < U64 && (forall i :: env(i).now < U64)
    requires s.nextRow + |s.tables[t].rows| < U64
    modifies s`nextRow, s`parts, s.serdeBuf, s.cryptoBuf, s.parts
    ensures s.Valid() && s.tables == old(s.tables) && fresh(s.parts - old(s.parts))
    ensures Selected(gone, old(s.tables[t].rows), columns, conds, seen)
    ensures deleted == |gone| == |Matching(old(s.tables[t].rows), columns, conds, seen)| && s.nextRow == old(s.nextRow) + deleted
    ensures s.Rows() == WithLog(SetRows(old(s.Rows()), t, Without(old(s.tables[t].rows), columns, conds, seen)),
                                Log(old(s.nextRow), gone, |gone|, pid, env))
    ensures s.tables[t].rows == Without(old(s.tables[t].rows), columns, conds, seen) <==>
      t != TABLE_ID_AUDIT || forall i :: 0 <= i < deleted ==> !env(i).memory
  {
    hide Store.Valid;
    hide RowsOf;
    hide Selected;
    hide Deleted;
    hide Put;
    hide Drop;
    hide WithLog;
    hide SetRows;
    hide AuditRow;
    hide RecordOk;
    hide Numbered;
    hide Without;
    hide Matching;
    hide Log;
    ghost var db, base, parts0 := s.Rows(), s.nextRow, s.parts;
    StoreNumbered(s);
    var matches := Search(s, t, columns, conds, seen);
    gone := matches;
    Counted(matches, db[t], columns, conds, seen);
    deleted := 0;
    DeletedNone(db, t, matches, base, pid, env);
    while deleted < |matches|
      invariant deleted <= |matches| && s.Valid() && s.tables == old(s.tables) && s.nextRow == base + deleted
      invariant fresh(s.parts - old(s.parts))
      invariant s.Rows() == Deleted(db, t, matches, deleted, base, pid, env)
    {
      DeletedStep(db, t, matches, deleted, base, pid, env, columns, conds, seen);
      GoneBelow(db[t], matches, deleted, base, columns, conds, seen);
      DeleteRow(s, t, matches[deleted].rowId, pid, env(deleted));
      deleted := deleted + 1;
    }
    DeletedAll(db, t, matches, base, pid, env, columns, conds, seen);
  }

  /** One round of the loop of exec_delete. */
  method DeleteRow(s: Store, t: nat, k: nat, pid: nat, e: Env)
    requires s.Valid() && k < U64 && pid < U64 && e.now < U64 && s.nextRow + 1 < U64
    modifies s`nextRow, s`parts, s.serdeBuf, s.cryptoBuf, s.parts
    ensures s.Valid() && s.tables == old(s.tables) && fresh(s.parts - old(s.parts)) && s.nextRow == old(s.nextRow) + 1
    ensures var db, n := Drop(old(s.Rows()), t, k), old(s.nextRow);
      s.Rows() == if e.memory then Put(db, TABLE_ID_AUDIT, n, AuditRow(n, e.now, pid, DELETE, k, OK)) else db
  {
    hide Store.Valid;
    hide RowsOf;
    hide AuditRow;
    hide Put;
    hide Drop;
    var _ := s.Delete(t, k);
    var _ := s.Audit(pid, DELETE, k, OK, e.now, e.iv, e.memory);
  }

  lemma StoreNumbered(s: Store)
    requires s.Valid()
    ensures s.nextRow < U64 && forall i :: 0 <= i < |s.tables| ==> Numbered(s.tables[i].rows, s.nextRow)
  {
    hide Table.Valid;
    hide Numbered;
  }

  /** The number of rows found is the number of matching rows. */
  lemma Counted(rs: seq<Record>, rows: map<nat, Record>, columns: seq<seq<bv8>>, conds: seq<Condition>, seen: nat -> bool)
    requires Selected(rs, rows, columns, conds, seen) && forall k :: k in rows ==> rows[k].rowId == k
    ensures |rs| == |Matching(rows, columns, conds, seen)| <= |rows|
  {
    hide Selected;
    hide Matching;
    CountedIds(rs, |rs|, rows, columns, conds, seen);
    IdsAll(rs, rows, columns, conds, seen);
    MatchingIn(rows, columns, conds, seen);
  }

  lemma MatchingIn(rows: map<nat, Record>, columns: seq<seq<bv8>>, conds: seq<Condition>, seen: nat -> bool)
    ensures |Matching(rows, columns, conds, seen)| <= |rows|
  {
    hide Hit;
    var m := Matching(rows, columns, conds, seen);
    assert rows.Keys == m + (rows.Keys - m) && |rows| == |rows.Keys|;
  }

  lemma {:induction false} CountedIds(rs: seq<Record>, n: nat, rows: map<nat, Record>, columns: seq<seq<bv8>>, conds: seq<Condition>, seen: nat -> bool)
    requires n <= |rs| && Selected(rs, rows, columns, conds, seen)
    ensures |Ids(rs, n)| == n
  {
    hide Selected;
    if n > 0 {
      CountedIds(rs, n - 1, rows, columns, conds, seen);
      IdsStep(rs, n - 1, rows, columns, conds, seen);
    } else {
      assert Ids(rs, 0) == {};
    }
  }

  /** When every matching row was deleted, the table is without them; the log is in the audit table. */
  lemma DeletedAll(db: Db, t: nat, gone: seq<Record>, base: nat, pid: nat, env: nat -> Env,
                   columns: seq<seq<bv8>>, conds: seq<Condition>, seen: nat -> bool)
    requires t < |db| && Selected(gone, db[t], columns, conds, seen) && Numbered(db[t], base)
    requires forall k :: k in db[t] ==> db[t][k].rowId == k
    ensures var db' := Deleted(db, t, gone, |gone|, base, pid, env);
      var rows := Without(db[t], columns, conds, seen);
      && db' == WithLog(SetRows(db, t, rows), Log(base, gone, |gone|, pid, env))
      && (db'[t] == rows <==> t != TABLE_ID_AUDIT || forall i :: 0 <= i < |gone| ==> !env(i).memory)
  {
    hide Selected;
    hide Log;
    hide Minus;
    var rows, log := Without(db[t], columns, conds, seen), Log(base, gone, |gone|, pid, env);
    MinusAll(db[t], gone, columns, conds, seen);
    LogEmpty(base, gone, pid, env);
    LogKeys(base, gone, |gone|, pid, env);
    WithoutNumbered(db[t], base, columns, conds, seen);
    SumSame(rows, log, base);
  }

  lemma WithoutNumbered(rows: map<nat, Record>, base: nat, columns: seq<seq<bv8>>, conds: seq<Condition>, seen: nat -> bool)
    requires Numbered(rows, base)
    ensures Numbered(Without(rows, columns, conds, seen), base)
  {
  }

  lemma SumSame(rows: map<nat, Record>, log: map<nat, Record>, base: nat)
    requires Numbered(rows, base) && forall k :: k in log ==> k >= base
    ensures rows + log == rows <==> log == map[]
  {
    if log != map[] {
      var k :| k in log;
      assert k in rows + log;
    }
  }

  /** DELETE FROM AuditTable, all of whose rows match, does not leave it empty: it holds one new row for
      each row deleted. */
  lemma AuditTableNotEmptied(db: Db, gone: seq<Record>, base: nat, pid: nat, env: nat -> Env, seen: nat -> bool)
    requires |db| > TABLE_ID_AUDIT && Numbered(db[TABLE_ID_AUDIT], base) && db[TABLE_ID_AUDIT] != map[]
    requires Selected(gone, db[TABLE_ID_AUDIT], [], [], seen) && (forall k :: seen(k)) && (forall i :: env(i).memory)
    requires forall k :: k in db[TABLE_ID_AUDIT] ==> db[TABLE_ID_AUDIT][k].rowId == k
    ensures Without(db[TABLE_ID_AUDIT], [], [], seen) == map[]
    ensures var after := Deleted(db, TABLE_ID_AUDIT, gone, |gone|, base, pid, env)[TABLE_ID_AUDIT];
      |gone| == |db[TABLE_ID_AUDIT]| && after == Log(base, gone, |gone|, pid, env)
      && forall k :: k in after <==> base <= k < base + |gone|
  {
    hide Selected;
    hide AuditRow;
    var rows := db[TABLE_ID_AUDIT];
    DeletedAll(db, TABLE_ID_AUDIT, gone, base, pid, env, [], [], seen);
    Counted(gone, rows, [], [], seen);
    NoConditions(rows, seen);
    assert map[] + Log(base, gone, |gone|, pid, env) == Log(base, gone, |gone|, pid, env);
  }

  lemma NoConditions(rows: map<nat, Record>, seen: nat -> bool)
    requires forall k :: seen(k)
    ensures Matching(rows, [], [], seen) == rows.Keys && |rows.Keys| == |rows| && Without(rows, [], [], seen) == map[]
  {
  }

  // ---------- UPDATE ----------

  datatype Assignment = Assignment(column: seq<bv8>, value: Value)

  /** The record after the assignments, the last one to a column counting. Columns the table does not
      have are skipped, and so are fields beyond the record's own. */
  function Assigned(r: Record, columns: seq<seq<bv8>>, sets: seq<Assignment>): (r': Record)
    ensures r'.rowId == r.rowId && r'.tableId == r.tableId && |r'.fields| == |r.fields|
  {
    if sets == [] then r else
      var r1 := Assigned(r, columns, sets[..|sets| - 1]);
      var i := Column(columns, sets[|sets| - 1].column);
      if i.Some? && i.value < |r1.fields| then r1.(fields := r1.fields[i.value := sets[|sets| - 1].value]) else r1
  }

  /** The value the assignments give column c, if any. */
  function Given(columns: seq<seq<bv8>>, sets: seq<Assignment>, c: nat): Option<Value>
  {
    if sets == [] then None
    else if Column(columns, sets[|sets| - 1].column) == Some(c) then Some(sets[|sets| - 1].value)
    else Given(columns, sets[..|sets| - 1], c)
  }

  /** Exactly the named columns get their values, and only if the record has a field for them. */
  lemma {:induction false} AssignedField(r: Record, columns: seq<seq<bv8>>, sets: seq<Assignment>, c: nat)
    ensures FieldAt(Assigned(r, columns, sets), c) ==
      if c < |r.fields| && Given(columns, sets, c).Some? then Given(columns, sets, c).value else FieldAt(r, c)
    decreases |sets|
  {
    hide Column;
    if sets != [] { AssignedField(r, columns, sets[..|sets| - 1], c); }
  }

  lemma SecondColumn()
    ensures Column([[0x61], [0x62]], [0x62]) == Some(1)
  {
    hide Column;
    var a: seq<bv8>, b: seq<bv8> := [0x61], [0x62];
    assert Upper(a[0]) != Upper(b[0]);
    ColumnIs([a, b], b, 1);
  }

  /** Setting the second column of a record with one field changes nothing. */
  lemma SecondColumnLost(value: Value, row: nat)
    ensures var r := Record(row, 0, [Unsigned(7)]);
      Column([[0x61], [0x62]], [0x62]) == Some(1) && Assigned(r, [[0x61], [0x62]], [Assignment([0x62], value)]) == r
  {
    var r, sets := Record(row, 0, [Unsigned(7)]), [Assignment([0x62], value)];
    SecondColumn();
    hide Column;
    assert sets[..0] == [];
    assert Assigned(r, [[0x61], [0x62]], sets[..0]) == r;
  }

  lemma {:induction false} AssignedOk(r: Record, columns: seq<seq<bv8>>, sets: seq<Assignment>)
    requires RecordOk(r) && forall i :: 0 <= i < |sets| ==> ValueOk(sets[i].value)
    ensures RecordOk(Assigned(r, columns, sets))
    decreases |sets|
  {
    hide Column;
    hide ValueOk;
    if sets != [] { AssignedOk(r, columns, sets[..|sets| - 1]); }
  }

  /** The loop of exec_update over the assignments. */
  method Assign(r: Record, columns: seq<seq<bv8>>, sets: seq<Assignment>) returns (modified: Record)
    ensures modified == Assigned(r, columns, sets)
  {
    hide Column;
    modified := r;
    var s := 0;
    assert sets[..0] == [];
    while s < |sets|
      invariant s <= |sets| && modified == Assigned(r, columns, sets[..s])
    {
      assert sets[..s + 1][..s] == sets[..s];
      var i := FindColumn(columns, sets[s].column);
      if i.Some? && i.value < |modified.fields| {
        modified := modified.(fields := modified.fields[i.value := sets[s].value]);
      }
      s := s + 1;
    }
    assert sets[..|sets|] == sets;
  }

  /** What becomes of a row: None when the changed record does not fit the record buffer or cannot be
      allocated. */
  ghost function Updated(r: Record, id: nat, columns: seq<seq<bv8>>, sets: seq<Assignment>, memory: bool): Option<Record>
  {
    var r' := Assigned(r, columns, sets).(tableId := id);
    if memory && RecordOk(r') && |RecordBytes(r')| <= MAX_RECORD_SIZE then Some(r') else None
  }

  /** The rows after the ones in done were updated. */
  ghost function After(rows: map<nat, Record>, done: set<nat>, id: nat, columns: seq<seq<bv8>>, sets: seq<Assignment>, env: nat -> Env): map<nat, Record>
  {
    map k | k in rows && (k in done ==> Updated(rows[k], id, columns, sets, env(k).memory).Some?) ::
      if k in done then Updated(rows[k], id, columns, sets, env(k).memory).value else rows[k]
  }

  /** exec_update: exactly the matching rows of the named table change, in exactly the named columns, and
      keep their row ids; a row whose changed record does not fit or cannot be allocated is lost. Then one
      row is logged. So the named table ends with the changed rows and nothing else exactly when it is
      not the audit table, or the log entry could not be allocated. */
  method Update(s: Store, t: nat, columns: seq<seq<bv8>>, sets: seq<Assignment>, conds: seq<Condition>, pid: nat,
                seen: nat -> bool, env: nat -> Env, last: Env) returns (updated: nat)
    requires s.Valid() && t < |s.tables| && pid < U64 && last.now < U64 && s.nextRow + 1 < U64
    requires forall i :: 0 <= i < |sets| ==> ValueOk(sets[i].value)
    modifies s`nextRow, s`parts, s.serdeBuf, s.cryptoBuf, s.parts
    ensures s.Valid() && s.tables == old(s.tables) && fresh(s.parts - old(s.parts)) && s.nextRow == old(s.nextRow) + 1
    ensures updated == |Matching(old(s.tables[t].rows), columns, conds, seen)|
    ensures var rows := old(s.tables[t].rows);
      var after, k := After(rows, Matching(rows, columns, conds, seen), t, columns, sets, env), old(s.nextRow);
      && s.Rows() == WithLog(SetRows(old(s.Rows()), t, after),
                             if last.memory then map[k := AuditRow(k, last.now, pid, UPDATE, 0, OK)] else map[])
      && (s.tables[t].rows == after <==> t != TABLE_ID_AUDIT || !last.memory)
      && |s.tables[t].rows| == |after| + if t == TABLE_ID_AUDIT && last.memory then 1 else 0
  {
    hide Store.Valid;
    hide RowsOf;
    hide Selected;
    hide After;
    hide AuditRow;
    hide RecordOk;
    hide ValueOk;
    hide Numbered;
    hide Matching;
    hide Ids;
    ghost var db, base := s.Rows(), s.nextRow;
    StoreNumbered(s);
    var matches := Search(s, t, columns, conds, seen);
    Counted(matches, db[t], columns, conds, seen);
    updated := UpdateRows(s, t, matches, columns, sets, conds, seen, env);
    AfterKeys(db[t], Matching(db[t], columns, conds, seen), t, columns, sets, env);
    var k := s.Audit(pid, UPDATE, 0, OK, last.now, last.iv, last.memory);
    UpdateLogged(db, t, After(db[t], Matching(db[t], columns, conds, seen), t, columns, sets, env), base,
                 AuditRow(base, last.now, pid, UPDATE, 0, OK), last.memory, db[t]);
  }

  /** The loop of exec_update over the rows found. */
  method UpdateRows(s: Store, t: nat, matches: seq<Record>, columns: seq<seq<bv8>>, sets: seq<Assignment>, ghost conds: seq<Condition>,
                    ghost seen: nat -> bool, env: nat -> Env) returns (updated: nat)
    requires s.Valid() && t < |s.tables| && Selected(matches, s.tables[t].rows, columns, conds, seen)
    requires forall k :: k in s.tables[t].rows ==> RecordOk(s.tables[t].rows[k]) && s.tables[t].rows[k].rowId == k
    requires forall i :: 0 <= i < |sets| ==> ValueOk(sets[i].value)
    modifies s`parts, s.serdeBuf, s.cryptoBuf, s.parts
    ensures s.Valid() && s.tables == old(s.tables) && s.nextRow == old(s.nextRow) && fresh(s.parts - old(s.parts))
    ensures updated == |matches|
    ensures s.Rows() == SetRows(old(s.Rows()), t, After(old(s.tables[t].rows), Matching(old(s.tables[t].rows), columns, conds, seen), t, columns, sets, env))
  {
    hide Store.Valid;
    hide RowsOf;
    hide Selected;
    hide After;
    hide SetRows;
    hide RecordOk;
    hide ValueOk;
    hide Matching;
    hide Ids;
    ghost var db := s.Rows();
    updated := 0;
    AfterNone(db[t], t, columns, sets, env);
    IdsNone(matches);
    SetSame(db, t);
    while updated < |matches|
      invariant updated <= |matches| && s.Valid() && s.tables == old(s.tables) && s.nextRow == old(s.nextRow)
      invariant fresh(s.parts - old(s.parts))
      invariant s.Rows() == SetRows(db, t, After(db[t], Ids(matches, updated), t, columns, sets, env))
    {
      IdsStep(matches, updated, db[t], columns, conds, seen);
      UpdateRow(s, t, matches[updated], columns, sets, env, db, Ids(matches, updated));
      updated := updated + 1;
    }
    IdsAll(matches, db[t], columns, conds, seen);
  }

  lemma SetSame(db: Db, t: nat)
    requires t < |db|
    ensures SetRows(db, t, db[t]) == db
  {
  }

  lemma AfterKeys(rows: map<nat, Record>, done: set<nat>, id: nat, columns: seq<seq<bv8>>, sets: seq<Assignment>, env: nat -> Env)
    ensures After(rows, done, id, columns, sets, env).Keys <= rows.Keys
  {
    hide Updated;
  }

  method UpdateRow(s: Store, t: nat, r: Record, columns: seq<seq<bv8>>, sets: seq<Assignment>, env: nat -> Env, ghost db: Db, ghost done: set<nat>)
    requires s.Valid() && t < |s.tables| && |db| == |s.tables| && s.Rows() == SetRows(db, t, After(db[t], done, t, columns, sets, env))
    requires r.rowId in db[t] && db[t][r.rowId] == r && r.rowId !in done && RecordOk(r)
    requires forall i :: 0 <= i < |sets| ==> ValueOk(sets[i].value)
    modifies s`parts, s.serdeBuf, s.cryptoBuf, s.parts
    ensures s.Valid() && s.tables == old(s.tables) && s.nextRow == old(s.nextRow) && fresh(s.parts - old(s.parts))
    ensures s.Rows() == SetRows(db, t, After(db[t], done + {r.rowId}, t, columns, sets, env))
  {
    hide Store.Valid;
    hide RowsOf;
    hide After;
    hide RecordBytes;
    hide ValueOk;
    hide Assigned;
    var k := r.rowId;
    AfterStep(db[t], done, k, t, columns, sets, env);
    AssignedOk(r, columns, sets);
    var modified := Assign(r, columns, sets);
    assert modified.(rowId := k, tableId := t) == modified.(tableId := t);
    var _ := s.Update(t, k, modified, env(k).iv, env(k).memory);
  }

  lemma AfterNone(rows: map<nat, Record>, id: nat, columns: seq<seq<bv8>>, sets: seq<Assignment>, env: nat -> Env)
    ensures After(rows, {}, id, columns, sets, env) == rows
  {
    hide Updated;
  }

  lemma AfterStep(rows: map<nat, Record>, done: set<nat>, k: nat, id: nat, columns: seq<seq<bv8>>, sets: seq<Assignment>, env: nat -> Env)
    requires k in rows && k !in done
    ensures var a, b := After(rows, done, id, columns, sets, env), After(rows, done + {k}, id, columns, sets, env);
      var u := Updated(rows[k], id, columns, sets, env(k).memory);
      k in a && a[k] == rows[k] && b == if u.Some? then a[k := u.value] else a - {k}
  {
    hide Updated;
  }

  lemma UpdateLogged(db: Db, t: nat, after: map<nat, Record>, base: nat, row: Record, memory: bool, rows: map<nat, Record>)
    requires t < |db| && Numbered(rows, base) && after.Keys <= rows.Keys
    ensures var log: map<nat, Record> := if memory then map[base := row] else map[];
      var db' := SetRows(db, t, after);
      && WithLog(db', log) == (if memory then Put(db', TABLE_ID_AUDIT, base, row) else db')
      && (WithLog(db', log)[t] == after <==> t != TABLE_ID_AUDIT || !memory)
      && |WithLog(db', log)[t]| == |after| + if t == TABLE_ID_AUDIT && memory then 1 else 0
  {
    var db' := SetRows(db, t, after);
    assert base !in after;
    if memory { LogOne(db', base, row); } else { LogNothing(db'); }
    OneMore(after, base, row);
    hide WithLog;
  }

  lemma LogOne(db: Db, k: nat, row: Record)
    ensures WithLog(db, map[k := row]) == Put(db, TABLE_ID_AUDIT, k, row)
  {
    if TABLE_ID_AUDIT < |db| {
      var a := db[TABLE_ID_AUDIT];
      assert a + map[k := row] == a[k := row];
    }
  }

  lemma LogNothing(db: Db)
    ensures WithLog(db, map[]) == db
  {
    if TABLE_ID_AUDIT < |db| {
      var a := db[TABLE_ID_AUDIT];
      assert a + map[] == a;
      assert db[TABLE_ID_AUDIT := a] == db;
    }
  }

  lemma OneMore(rows: map<nat, Record>, k: nat, r: Record)
    requires k !in rows
    ensures |rows[k := r]| == |rows| + 1
  {
    var more := rows[k := r];
    assert more.Keys == rows.Keys + {k} && |more| == |more.Keys| && |rows| == |rows.Keys|;
  }

  lemma IdsNone(rs: seq<Record>)
    ensures Ids(rs, 0) == {}
  {
  }

  // ---------- INSERT ----------

  /** The end of exec_insert: the row gets the next row id, and is logged under the one after it if it was
      stored. */
  method Insert(s: Store, t: nat, fields: seq<Value>, pid: nat, env: Env, last: Env) returns (k: nat, code: Code)
    requires s.Valid() && t < U32 && s.nextRow + 2 < U64 && pid < U64 && last.now < U64
    requires |fields| <= MAX_COLUMNS && forall i :: 0 <= i < |fields| ==> ValueOk(fields[i])
    modifies s`nextRow, s`parts, s.serdeBuf, s.cryptoBuf, s.parts
    ensures s.Valid() && s.tables == old(s.tables) && fresh(s.parts - old(s.parts))
    ensures k == old(s.nextRow) && s.nextRow == if code.Ok? then k + 2 else k + 1
    ensures var r := Record(k, t, fields);
      && RecordOk(r)
      && code == (if t >= |s.tables| || |RecordBytes(r)| > MAX_RECORD_SIZE then Invalid else if env.memory then Ok else NoMemory)
      && s.Rows() == if !code.Ok? then old(s.Rows()) else
                     if last.memory then Put(Put(old(s.Rows()), t, k, r), TABLE_ID_AUDIT, k + 1, AuditRow(k + 1, last.now, pid, INSERT, k, OK))
                     else Put(old(s.Rows()), t, k, r)
  {
    hide Store.Valid;
    hide RowsOf;
    hide RecordBytes;
    hide ValueOk;
    hide AuditRow;
    k, code := s.InsertNew(t, fields, env.iv, env.memory);
    if code.Ok? {
      var _ := s.Audit(pid, INSERT, k, OK, last.now, last.iv, last.memory);
    }
  }
}
