/**
 * The rest of exec_insert in kernel/db/query.c: the record is filled from column names and values, and
 * every row that the statements leave has a field for each column of its table.
 */
module Insertion {
  import opened Wrappers
  import opened RecordFormat
  import opened Filter
  import opened Database
  import opened Store
  import Q = Query

  /** COL_U64, COL_U32, and the types whose numbers are stored as text. */
  datatype Kind = Number64 | Number32 | Other

  /** column_def_t */
  datatype ColumnDef = ColumnDef(name: seq<bv8>, kind: Kind, primaryKey: bool)

  datatype Token = Quoted(text: seq<bv8>) | Number(text: seq<bv8>)

  const OWNER_PID: seq<bv8> := [0x6F, 0x77, 0x6E, 0x65, 0x72, 0x5F, 0x70, 0x69, 0x64]
  const CREATED: seq<bv8> := [0x63, 0x72, 0x65, 0x61, 0x74, 0x65, 0x64]
  const SIZE: seq<bv8> := [0x73, 0x69, 0x7A, 0x65]
  const DATA: seq<bv8> := [0x64, 0x61, 0x74, 0x61]

  function Names(defs: seq<ColumnDef>): (names: seq<seq<bv8>>)
    ensures |names| == |defs|
  {
    seq(|defs|, i requires 0 <= i < |defs| => defs[i].name)
  }

  // ---------- a record being filled ----------

  /** The fields of a record and, beside each, the length that its last text had: the number that is
      stored in a field later does not touch it. */
  datatype Draft = Draft(fields: seq<Value>, lengths: seq<nat>)

  predicate DraftOk(d: Draft, n: nat)
  {
    && |d.fields| == |d.lengths| == n
    && (forall i :: 0 <= i < n ==> ValueOk(d.fields[i]))
    && (forall i :: 0 <= i < n ==> d.lengths[i] <= MAX_STR_LEN)
  }

  /** record_set_u64 and record_set_u32 */
  function SetNumber(d: Draft, i: nat, v: Value): Draft
  {
    if i < |d.fields| then d.(fields := d.fields[i := v]) else d
  }

  /** A C string cut to 255 bytes. */
  function Cut(s: seq<bv8>): (r: seq<bv8>)
    ensures |r| <= MAX_STR_LEN
  {
    var c := CString(s);
    if |c| <= MAX_STR_LEN then c else c[..MAX_STR_LEN]
  }

  /** record_set_str */
  function SetText(d: Draft, i: nat, s: seq<bv8>): Draft
    requires |d.fields| == |d.lengths|
  {
    if i < |d.fields| then Draft(d.fields[i := Text(Cut(s))], d.lengths[i := |Cut(s)|]) else d
  }

  /** The value a token gives a column. */
  function ValueFor(kind: Kind, token: Token): (v: Value)
    ensures ValueOk(v)
  {
    match token
    case Quoted(s) => Text(Cut(s))
    case Number(s) =>
      NumberFits(CString(s));
      match kind
      case Number64 => Unsigned(Strtou64(CString(s)))
      case Number32 => Word(Strtou64(CString(s)) % U32)
      case Other => Text(Cut(s))
  }

  lemma {:induction false} DigitsFit(s: seq<bv8>, acc: nat)
    requires acc < U64
    ensures Digits(s, acc) < U64
    decreases |s|
  {
    if s != [] && IsDigit(s[0]) { DigitsFit(s[1..], (acc * 10 + (s[0] - 0x30) as nat) % U64); }
  }

  lemma NumberFits(s: seq<bv8>)
    ensures Strtou64(s) < U64
  {
    DigitsFit(SkipSpaces(s), 0);
  }

  /** One round of the loop over the values. */
  function Give(d: Draft, i: nat, kind: Kind, token: Token): Draft
    requires |d.fields| == |d.lengths|
  {
    match ValueFor(kind, token)
    case Text(_) => SetText(d, i, token.text)
    case v => SetNumber(d, i, v)
  }

  lemma GiveField(d: Draft, i: nat, kind: Kind, token: Token, n: nat)
    requires DraftOk(d, n) && i < n
    ensures DraftOk(Give(d, i, kind, token), n) && Give(d, i, kind, token).fields == d.fields[i := ValueFor(kind, token)]
  {
    hide Cut;
    if token.Number? { NumberFits(CString(token.text)); }
  }

  /** The draft before the first value: zeros, and the row id in a first column that is a primary key. */
  function Blank(defs: seq<ColumnDef>, k: nat): Draft
  {
    var d := Draft(seq(|defs|, _ => Unsigned(0)), seq(|defs|, _ => 0));
    if defs != [] && defs[0].primaryKey then SetNumber(d, 0, Unsigned(k)) else d
  }

  /** The draft after n values; None where a name is no column. */
  function Given(defs: seq<ColumnDef>, d: Draft, names: seq<seq<bv8>>, values: seq<Token>, n: nat): (r: Option<Draft>)
    requires n <= |names| && n <= |values| && DraftOk(d, |defs|)
    ensures r.Some? ==> DraftOk(r.value, |defs|)
  {
    if n == 0 then Some(d)
    else
      var r, i := Given(defs, d, names, values, n - 1), Column(Names(defs), names[n - 1]);
      if r.None? || i.None? then None
      else
        GiveField(r.value, i.value, defs[i.value].kind, values[n - 1], |defs|);
        Some(Give(r.value, i.value, defs[i.value].kind, values[n - 1]))
  }

  function Put64(d: Draft, defs: seq<ColumnDef>, name: seq<bv8>, v: nat): Draft
  {
    match Column(Names(defs), name)
    case None => d
    case Some(i) => SetNumber(d, i, Unsigned(v))
  }

  /** owner_pid, created and size are filled in where the table has them. */
  function Stamped(defs: seq<ColumnDef>, d: Draft, pid: nat, now: nat): Draft
    requires |d.lengths| == |defs|
  {
    var d := Put64(Put64(d, defs, OWNER_PID, pid), defs, CREATED, now);
    match (Column(Names(defs), SIZE), Column(Names(defs), DATA))
    case (Some(i), Some(j)) => SetNumber(d, i, Unsigned(d.lengths[j]))
    case _ => d
  }

  function Pairs(names: seq<seq<bv8>>, values: seq<Token>): (n: nat)
    ensures n <= |names| && n <= |values|
  {
    if |names| <= |values| then |names| else |values|
  }

  lemma BlankOk(defs: seq<ColumnDef>, k: nat)
    requires k < U64
    ensures DraftOk(Blank(defs, k), |defs|)
  {
  }

  /** The fields of the record that an INSERT stores under row id k; None for an unknown column. */
  function Filled(defs: seq<ColumnDef>, names: seq<seq<bv8>>, values: seq<Token>, k: nat, pid: nat, now: nat): Option<seq<Value>>
    requires k < U64
  {
    BlankOk(defs, k);
    match Given(defs, Blank(defs, k), names, values, Pairs(names, values))
    case None => None
    case Some(d) => Some(Stamped(defs, d, pid, now).fields)
  }

  lemma StampedOk(defs: seq<ColumnDef>, d: Draft, pid: nat, now: nat)
    requires DraftOk(d, |defs|) && pid < U64 && now < U64
    ensures DraftOk(Stamped(defs, d, pid, now), |defs|)
  {
    hide Column;
  }

  /** The record has a field in range for every column of the table. */
  lemma FilledShape(defs: seq<ColumnDef>, names: seq<seq<bv8>>, values: seq<Token>, k: nat, pid: nat, now: nat)
    requires k < U64 && pid < U64 && now < U64 && Filled(defs, names, values, k, pid, now).Some?
    ensures var f := Filled(defs, names, values, k, pid, now).value;
      |f| == |defs| && forall i :: 0 <= i < |f| ==> ValueOk(f[i])
  {
    hide Given;
    hide Stamped;
    hide Blank;
    hide ValueOk;
    BlankOk(defs, k);
    StampedOk(defs, Given(defs, Blank(defs, k), names, values, Pairs(names, values)).value, pid, now);
  }

  /** The value that the first n pairs give column c, the last one counting. */
  function LastValue(defs: seq<ColumnDef>, names: seq<seq<bv8>>, values: seq<Token>, n: nat, c: nat): Option<Value>
    requires n <= |names| && n <= |values| && c < |defs|
  {
    if n == 0 then None
    else if Column(Names(defs), names[n - 1]) == Some(c) then Some(ValueFor(defs[c].kind, values[n - 1]))
    else LastValue(defs, names, values, n - 1, c)
  }

  lemma {:induction false} GivenField(defs: seq<ColumnDef>, d: Draft, names: seq<seq<bv8>>, values: seq<Token>, n: nat, c: nat)
    requires n <= |names| && n <= |values| && DraftOk(d, |defs|) && c < |defs|
    requires Given(defs, d, names, values, n).Some?
    ensures Given(defs, d, names, values, n).value.fields[c] ==
      match LastValue(defs, names, values, n, c) case None => d.fields[c] case Some(v) => v
  {
    hide Column;
    hide ValueFor;
    hide Give;
    if n > 0 {
      GivenField(defs, d, names, values, n - 1, c);
      var r, i := Given(defs, d, names, values, n - 1), Column(Names(defs), names[n - 1]);
      GiveField(r.value, i.value, defs[i.value].kind, values[n - 1], |defs|);
    }
  }

  /** The columns that exec_insert fills in itself. */
  ghost predicate Own(defs: seq<ColumnDef>, c: nat)
  {
    var names := Names(defs);
    Column(names, OWNER_PID) == Some(c) || Column(names, CREATED) == Some(c) || (Column(names, SIZE) == Some(c) && Column(names, DATA).Some?)
  }

  /** Every other column holds the last value named for it, and otherwise 0, or the row id in a first
      column that is a primary key. An INSERT is refused exactly when one of its names is no column. */
  lemma FilledField(defs: seq<ColumnDef>, names: seq<seq<bv8>>, values: seq<Token>, k: nat, pid: nat, now: nat)
    requires k < U64
    ensures Filled(defs, names, values, k, pid, now).None? <==>
      exists i :: 0 <= i < Pairs(names, values) && Column(Names(defs), names[i]).None?
    ensures Filled(defs, names, values, k, pid, now).Some? ==>
      forall c: nat :: c < |defs| && !Own(defs, c) ==>
        var f := Filled(defs, names, values, k, pid, now).value;
        c < |f| && f[c] == match LastValue(defs, names, values, Pairs(names, values), c)
                           case None => (if c == 0 && defs[0].primaryKey then Unsigned(k) else Unsigned(0))
                           case Some(v) => v
  {
    hide Column;
    hide ValueFor;
    hide Give;
    BlankOk(defs, k);
    var n := Pairs(names, values);
    GivenFails(defs, Blank(defs, k), names, values, n);
    var g := Given(defs, Blank(defs, k), names, values, n);
    hide Given;
    if g.Some? {
      forall c: nat | c < |defs| && !Own(defs, c)
        ensures Stamped(defs, g.value, pid, now).fields[c] == g.value.fields[c]
        ensures g.value.fields[c] == match LastValue(defs, names, values, n, c) case None => Blank(defs, k).fields[c] case Some(v) => v
      {
        GivenField(defs, Blank(defs, k), names, values, n, c);
        StampedOther(defs, g.value, pid, now, c);
      }
    }
  }

  lemma StampedOther(defs: seq<ColumnDef>, d: Draft, pid: nat, now: nat, c: nat)
    requires DraftOk(d, |defs|) && c < |defs| && !Own(defs, c)
    ensures |Stamped(defs, d, pid, now).fields| == |defs| && Stamped(defs, d, pid, now).fields[c] == d.fields[c]
  {
    hide Column;
  }

  lemma {:induction false} GivenFails(defs: seq<ColumnDef>, d: Draft, names: seq<seq<bv8>>, values: seq<Token>, n: nat)
    requires n <= |names| && n <= |values| && DraftOk(d, |defs|)
    ensures Given(defs, d, names, values, n).None? <==> exists i :: 0 <= i < n && Column(Names(defs), names[i]).None?
  {
    hide Column;
    hide Give;
    if n > 0 { GivenFails(defs, d, names, values, n - 1); }
  }

  /** The loop of exec_insert over the values, and what it fills in behind it. */
  method Fill(defs: seq<ColumnDef>, names: seq<seq<bv8>>, values: seq<Token>, k: nat, pid: nat, now: nat) returns (fields: Option<seq<Value>>)
    requires k < U64
    ensures fields == Filled(defs, names, values, k, pid, now)
  {
    hide Column;
    hide Give;
    hide Stamped;
    hide Blank;
    BlankOk(defs, k);
    var d, n := Blank(defs, k), 0;
    while n < Pairs(names, values)
      invariant n <= Pairs(names, values) && Given(defs, Blank(defs, k), names, values, n) == Some(d)
    {
      var i := FindColumn(Names(defs), names[n]);
      if i.None? {
        GivenFails(defs, Blank(defs, k), names, values, Pairs(names, values));
        return None;
      }
      d := Give(d, i.value, defs[i.value].kind, values[n]);
      n := n + 1;
    }
    fields := Some(Stamped(defs, d, pid, now).fields);
  }

  // ---------- the statement ----------

  /** Every row has a field for each column of its table. */
  ghost predicate Full(db: Db, widths: seq<nat>)
  {
    |widths| == |db| && forall i, k :: 0 <= i < |db| && k in db[i] ==> |db[i][k].fields| == widths[i]
  }

  /** exec_insert. An unknown column uses up a row id and stores nothing; otherwise the row is stored and
      logged. Rows stay full. */
  method Insert(s: Store, t: nat, defs: seq<ColumnDef>, names: seq<seq<bv8>>, values: seq<Token>, pid: nat, now: nat, env: Q.Env, last: Q.Env,
                ghost widths: seq<nat>) returns (k: nat, code: Code)
    requires s.Valid() && t < U32 && s.nextRow + 2 < U64 && pid < U64 && now < U64 && last.now < U64 && |defs| <= MAX_COLUMNS
    modifies s`nextRow, s`parts, s.serdeBuf, s.cryptoBuf, s.parts
    ensures s.Valid() && s.tables == old(s.tables) && fresh(s.parts - old(s.parts))
    ensures k == old(s.nextRow) < U64 && s.nextRow == if code.Ok? then k + 2 else k + 1
    ensures var f := Filled(defs, names, values, k, pid, now);
      && (f.None? ==> code.Invalid? && s.Rows() == old(s.Rows()))
      && (f.Some? ==>
            && RecordOk(Record(k, t, f.value))
            && code == (if t >= |s.tables| || |RecordBytes(Record(k, t, f.value))| > MAX_RECORD_SIZE then Invalid
                        else if env.memory then Ok else NoMemory)
            && s.Rows() == if code.Ok? then Inserted(old(s.Rows()), t, k, f.value, pid, last) else old(s.Rows()))
    ensures Full(old(s.Rows()), widths) && t < |widths| && widths[t] == |defs| && (TABLE_ID_AUDIT < |widths| ==> widths[TABLE_ID_AUDIT] == 6) ==>
      Full(s.Rows(), widths)
  {
    hide Store.Valid;
    hide RowsOf;
    hide RecordBytes;
    hide ValueOk;
    hide Filled;
    hide Full;
    hide Inserted;
    RowBelow(s);
    ghost var db := s.Rows();
    var fields := Fill(defs, names, values, s.nextRow, pid, now);
    if fields.None? {
      k := s.NextRowId();
      assert s.Rows() == db;
      return k, Invalid;
    }
    FilledShape(defs, names, values, s.nextRow, pid, now);
    k, code := Q.Insert(s, t, fields.value, pid, env, last);
    InsertedIs(db, t, k, fields.value, pid, last);
    if Full(db, widths) && t < |widths| && widths[t] == |defs| && (TABLE_ID_AUDIT < |widths| ==> widths[TABLE_ID_AUDIT] == 6) {
      InsertedFull(db, widths, t, k, fields.value, pid, last);
    }
  }

  lemma RowBelow(s: Store)
    requires s.Valid()
    ensures s.nextRow < U64
  {
    hide Table.Valid;
    hide Numbered;
  }

  /** The database behind a stored and logged row. */
  ghost function Inserted(db: Db, t: nat, k: nat, fields: seq<Value>, pid: nat, last: Q.Env): Db
  {
    var db' := Put(db, t, k, Record(k, t, fields));
    if last.memory then Put(db', TABLE_ID_AUDIT, k + 1, AuditRow(k + 1, last.now, pid, Q.INSERT, k, Q.OK)) else db'
  }

  lemma InsertedIs(db: Db, t: nat, k: nat, fields: seq<Value>, pid: nat, last: Q.Env)
    ensures Inserted(db, t, k, fields, pid, last) ==
      if last.memory then Put(Put(db, t, k, Record(k, t, fields)), TABLE_ID_AUDIT, k + 1, AuditRow(k + 1, last.now, pid, Q.INSERT, k, Q.OK))
      else Put(db, t, k, Record(k, t, fields))
  {
  }

  lemma PutFull(db: Db, widths: seq<nat>, t: nat, k: nat, r: Record)
    requires Full(db, widths) && (t < |widths| ==> |r.fields| == widths[t])
    ensures Full(Put(db, t, k, r), widths)
  {
  }

  lemma InsertedFull(db: Db, widths: seq<nat>, t: nat, k: nat, fields: seq<Value>, pid: nat, last: Q.Env)
    requires Full(db, widths) && t < |widths| && widths[t] == |fields| && (TABLE_ID_AUDIT < |widths| ==> widths[TABLE_ID_AUDIT] == 6)
    ensures Full(Inserted(db, t, k, fields, pid, last), widths)
  {
    hide Full;
    hide Put;
    PutFull(db, widths, t, k, Record(k, t, fields));
    PutFull(Put(db, t, k, Record(k, t, fields)), widths, TABLE_ID_AUDIT, k + 1, AuditRow(k + 1, last.now, pid, Q.INSERT, k, Q.OK));
  }

  // ---------- DELETE and UPDATE keep rows full ----------

  lemma LoggedFull(db: Db, widths: seq<nat>, log: map<nat, Record>)
    requires Full(db, widths) && (TABLE_ID_AUDIT < |widths| ==> widths[TABLE_ID_AUDIT] == 6)
    requires forall k :: k in log ==> |log[k].fields| == 6
    ensures Full(Q.WithLog(db, log), widths)
  {
  }

  lemma RowsFull(db: Db, widths: seq<nat>, t: nat, rows: map<nat, Record>)
    requires Full(db, widths) && t < |db| && forall k :: k in rows ==> |rows[k].fields| == widths[t]
    ensures Full(Q.SetRows(db, t, rows), widths)
  {
  }

  /** The result of a DELETE is full again. */
  lemma DeleteFull(db: Db, widths: seq<nat>, t: nat, gone: seq<Record>, base: nat, pid: nat, env: nat -> Q.Env,
                   columns: seq<seq<bv8>>, conds: seq<Condition>, seen: nat -> bool)
    requires Full(db, widths) && t < |db| && (TABLE_ID_AUDIT < |widths| ==> widths[TABLE_ID_AUDIT] == 6)
    ensures Full(Q.WithLog(Q.SetRows(db, t, Q.Without(db[t], columns, conds, seen)), Q.Log(base, gone, |gone|, pid, env)), widths)
  {
    hide Q.Hit;
    RowsFull(db, widths, t, Q.Without(db[t], columns, conds, seen));
    LoggedFull(Q.SetRows(db, t, Q.Without(db[t], columns, conds, seen)), widths, Q.Log(base, gone, |gone|, pid, env));
  }

  /** The result of an UPDATE is full again. */
  lemma UpdateFull(db: Db, widths: seq<nat>, t: nat, done: set<nat>, columns: seq<seq<bv8>>, sets: seq<Q.Assignment>, env: nat -> Q.Env,
                   k: nat, now: nat, pid: nat)
    requires Full(db, widths) && t < |db| && (TABLE_ID_AUDIT < |widths| ==> widths[TABLE_ID_AUDIT] == 6)
    ensures var after := Q.After(db[t], done, t, columns, sets, env);
      Full(Q.WithLog(Q.SetRows(db, t, after), map[k := AuditRow(k, now, pid, Q.UPDATE, 0, Q.OK)]), widths)
  {
    hide Column;
    hide RecordBytes;
    hide RecordOk;
    var after := Q.After(db[t], done, t, columns, sets, env);
    RowsFull(db, widths, t, after);
    LoggedFull(Q.SetRows(db, t, after), widths, map[k := AuditRow(k, now, pid, Q.UPDATE, 0, Q.OK)]);
  }

  /** In a full row every column that an UPDATE names is reached. */
  lemma FullAssigned(r: Record, columns: seq<seq<bv8>>, sets: seq<Q.Assignment>, c: nat)
    requires |r.fields| == |columns|
    ensures FieldAt(Q.Assigned(r, columns, sets), c) ==
      if Q.Given(columns, sets, c).Some? then Q.Given(columns, sets, c).value else FieldAt(r, c)
  {
    Q.AssignedField(r, columns, sets, c);
    GivenColumn(columns, sets, c);
  }

  lemma {:induction false} GivenColumn(columns: seq<seq<bv8>>, sets: seq<Q.Assignment>, c: nat)
    ensures Q.Given(columns, sets, c).Some? ==> c < |columns|
    decreases |sets|
  {
    if sets != [] && Column(columns, sets[|sets| - 1].column) != Some(c) { GivenColumn(columns, sets[..|sets| - 1], c); }
  }
}
