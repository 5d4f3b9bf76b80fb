/**
 * Database records and the byte format of kernel/db/record_serde.c: what is written for a
 * record, what is read from bytes, and that reading undoes writing.
 */
module RecordFormat {
  import opened Bytes
  import opened Wrappers

  const MAX_COLUMNS: nat := 16
  const MAX_RECORD_SIZE: nat := 4096
  const MAX_STR_LEN: nat := 255
  const MAX_BLOB_LEN: nat := 2048
  const U32: nat := 0x1_0000_0000
  const U64: nat := 0x1_0000_0000_0000_0000
  const I63: int := 0x8000_0000_0000_0000

  /** field_value_t, one case for each column type. */
  datatype Value =
    | Unsigned(u: nat)
    | Signed(i: int)
    | Text(text: seq<bv8>)
    | Blob(blob: seq<bv8>)
    | Flag(flag: bool)
    | Word(word: nat)
    | Octet(octet: nat)

  /** record_t; fields holds the field_count fields in use. */
  datatype Record = Record(rowId: nat, tableId: nat, fields: seq<Value>)

  predicate ValueOk(v: Value)
  {
    match v
    case Unsigned(u) => u < U64
    case Signed(i) => -I63 <= i < I63
    case Text(s) => |s| <= MAX_STR_LEN
    case Blob(b) => |b| <= MAX_BLOB_LEN
    case Flag(_) => true
    case Word(w) => w < U32
    case Octet(x) => x < 256
  }

  ghost predicate RecordOk(r: Record)
  {
    r.rowId < U64 && r.tableId < U32 && |r.fields| <= MAX_COLUMNS && forall i :: 0 <= i < |r.fields| ==> ValueOk(r.fields[i])
  }

  // ---------- writing ----------

  function Tag(v: Value): nat
  {
    match v
    case Unsigned(_) => 0
    case Signed(_) => 1
    case Text(_) => 2
    case Blob(_) => 3
    case Flag(_) => 4
    case Word(_) => 5
    case Octet(_) => 6
  }

  /** The cast between int64_t and uint64_t. */
  function ToUnsigned(i: int): nat
    requires -I63 <= i < I63
  {
    if i < 0 then i + U64 else i
  }

  function ToSigned(u: nat): int
  {
    if u < I63 then u else u - U64
  }

  function Payload(v: Value): seq<bv8>
    requires ValueOk(v)
  {
    match v
    case Unsigned(u) => Le(u, 8)
    case Signed(i) => Le(ToUnsigned(i), 8)
    case Text(s) => Le(|s|, 2) + s
    case Blob(b) => Le(|b|, 4) + b
    case Flag(f) => Le(if f then 1 else 0, 1)
    case Word(w) => Le(w, 4)
    case Octet(x) => Le(x, 1)
  }

  function ValueBytes(v: Value): (s: seq<bv8>)
    requires ValueOk(v)
  {
    Le(Tag(v), 4) + Payload(v)
  }

  function FieldBytes(vs: seq<Value>): seq<bv8>
    requires forall i :: 0 <= i < |vs| ==> ValueOk(vs[i])
  {
    if vs == [] then [] else FieldBytes(vs[..|vs| - 1]) + ValueBytes(vs[|vs| - 1])
  }

  function Header(r: Record): (s: seq<bv8>)
    ensures |s| == 16
  {
    Le(r.rowId, 8) + Le(r.tableId, 4) + Le(|r.fields|, 4)
  }

  ghost function RecordBytes(r: Record): (s: seq<bv8>)
    requires RecordOk(r)
  {
    Header(r) + FieldBytes(r.fields)
  }

  // ---------- reading ----------

  /** k bytes at off as a number, if they are there. */
  function Number(b: seq<bv8>, off: nat, k: nat): Option<nat>
  {
    if off + k <= |b| then Some(FromLe(b[off..off + k])) else None
  }

  /** A length in k bytes at off followed by that many bytes, at most max. */
  function Counted(b: seq<bv8>, off: nat, k: nat, max: nat): Option<seq<bv8>>
  {
    match Number(b, off, k)
    case None => None
    case Some(len) => if len <= max && off + k + len <= |b| then Some(b[off + k..off + k + len]) else None
  }

  /** The value at off and the offset behind it. */
  function ReadValue(b: seq<bv8>, off: nat): Option<(Value, nat)>
  {
    match Number(b, off, 4)
    case None => None
    case Some(tag) =>
      var o := off + 4;
      if tag == 0 then (match Number(b, o, 8) case None => None case Some(n) => Some((Unsigned(n), o + 8)))
      else if tag == 1 then (match Number(b, o, 8) case None => None case Some(n) => Some((Signed(ToSigned(n)), o + 8)))
      else if tag == 2 then (match Counted(b, o, 2, MAX_STR_LEN) case None => None case Some(s) => Some((Text(s), o + 2 + |s|)))
      else if tag == 3 then (match Counted(b, o, 4, MAX_BLOB_LEN) case None => None case Some(s) => Some((Blob(s), o + 4 + |s|)))
      else if tag == 4 then (match Number(b, o, 1) case None => None case Some(n) => Some((Flag(n != 0), o + 1)))
      else if tag == 5 then (match Number(b, o, 4) case None => None case Some(n) => Some((Word(n), o + 4)))
      else if tag == 6 then (match Number(b, o, 1) case None => None case Some(n) => Some((Octet(n), o + 1)))
      else None
  }

  function ReadFields(b: seq<bv8>, off: nat, n: nat): Option<(seq<Value>, nat)>
  {
    if n == 0 then Some(([], off)) else
      match ReadFields(b, off, n - 1)
      case None => None
      case Some((vs, o)) =>
        match ReadValue(b, o)
        case None => None
        case Some((v, o')) => Some((vs + [v], o'))
  }

  /** The record at the start of b and the number of bytes it takes. */
  function ReadRecord(b: seq<bv8>): Option<(Record, nat)>
  {
    if |b| < 16 then None else
      var n := FromLe(b[12..16]);
      if n > MAX_COLUMNS then None else
        match ReadFields(b, 16, n)
        case None => None
        case Some((vs, o)) => Some((Record(FromLe(b[0..8]), FromLe(b[8..12]), vs), o))
  }

  // ---------- reading undoes writing ----------

  /** x stands in b at off. */
  ghost predicate Holds(b: seq<bv8>, off: nat, x: seq<bv8>)
  {
    off + |x| <= |b| && b[off..off + |x|] == x
  }

  lemma HoldsParts(b: seq<bv8>, off: nat, x: seq<bv8>, y: seq<bv8>)
    ensures Holds(b, off, x + y) <==> Holds(b, off, x) && Holds(b, off + |x|, y)
  {
    if off + |x| + |y| <= |b| {
      var s := b[off..off + |x| + |y|];
      assert s == b[off..off + |x|] + b[off + |x|..off + |x| + |y|];
      if s == x + y {
        assert b[off..off + |x|] == (x + y)[..|x|] && b[off + |x|..off + |x| + |y|] == (x + y)[|x|..];
      }
    }
  }

  lemma Powers()
    ensures Pow256(1) == 256 && Pow256(2) == 0x1_0000 && Pow256(4) == U32 && Pow256(8) == U64
  {
  }

  lemma NumberHeld(b: seq<bv8>, off: nat, n: nat, k: nat)
    requires Holds(b, off, Le(n, k)) && n < Pow256(k)
    ensures Number(b, off, k) == Some(n)
  {
    LeRoundTrip(n, k);
  }

  lemma CountedHeld(b: seq<bv8>, off: nat, k: nat, max: nat, s: seq<bv8>)
    requires Holds(b, off, Le(|s|, k) + s) && |s| <= max && |s| < Pow256(k)
    ensures Counted(b, off, k, max) == Some(s)
  {
    hide Number;
    hide Le;
    hide Pow256;
    hide Holds;
    HoldsParts(b, off, Le(|s|, k), s);
    NumberHeld(b, off, |s|, k);
    Held(b, off + k, s);
  }

  lemma Held(b: seq<bv8>, off: nat, x: seq<bv8>)
    requires Holds(b, off, x)
    ensures off + |x| <= |b| && b[off..off + |x|] == x
  {
  }

  /** Reading finds every value that was written, and where it ends. */
  lemma ValueHeld(b: seq<bv8>, off: nat, v: Value)
    requires ValueOk(v) && Holds(b, off, ValueBytes(v))
    ensures ReadValue(b, off) == Some((v, off + |ValueBytes(v)|))
  {
    hide Number;
    hide Counted;
    hide Holds;
    hide Pow256;
    hide Le;
    Powers();
    HoldsParts(b, off, Le(Tag(v), 4), Payload(v));
    NumberHeld(b, off, Tag(v), 4);
    var o := off + 4;
    match v
    case Unsigned(u) => NumberHeld(b, o, u, 8);
    case Signed(i) => NumberHeld(b, o, ToUnsigned(i), 8);
    case Text(s) => CountedHeld(b, o, 2, MAX_STR_LEN, s);
    case Blob(s) => CountedHeld(b, o, 4, MAX_BLOB_LEN, s);
    case Flag(f) => NumberHeld(b, o, if f then 1 else 0, 1);
    case Word(w) => NumberHeld(b, o, w, 4);
    case Octet(x) => NumberHeld(b, o, x, 1);
  }

  lemma {:induction false} FieldsHeld(b: seq<bv8>, off: nat, vs: seq<Value>)
    requires (forall i :: 0 <= i < |vs| ==> ValueOk(vs[i])) && Holds(b, off, FieldBytes(vs))
    ensures ReadFields(b, off, |vs|) == Some((vs, off + |FieldBytes(vs)|))
    decreases |vs|
  {
    hide Holds;
    hide ReadValue;
    hide ValueBytes;
    if vs != [] {
      var init, v := vs[..|vs| - 1], vs[|vs| - 1];
      HoldsParts(b, off, FieldBytes(init), ValueBytes(v));
      FieldsHeld(b, off, init);
      ValueHeld(b, off + |FieldBytes(init)|, v);
      assert init + [v] == vs;
    }
  }

  /** Reading undoes writing for every record, whatever follows it, and consumes exactly what was
      written. */
  lemma RoundTrip(r: Record, rest: seq<bv8>)
    requires RecordOk(r)
    ensures ReadRecord(RecordBytes(r) + rest) == Some((r, |RecordBytes(r)|))
  {
    hide ReadFields;
    hide FieldBytes;
    hide Pow256;
    hide Le;
    hide FromLe;
    Powers();
    var b := RecordBytes(r) + rest;
    var row, table, count := Le(r.rowId, 8), Le(r.tableId, 4), Le(|r.fields|, 4);
    assert b[0..8] == row && b[8..12] == table && b[12..16] == count;
    LeRoundTrip(r.rowId, 8);
    LeRoundTrip(r.tableId, 4);
    LeRoundTrip(|r.fields|, 4);
    var f := FieldBytes(r.fields);
    assert b[16..16 + |f|] == f;
    FieldsHeld(b, 16, r.fields);
  }

  /** Different records have different bytes, and none is a prefix of another's. */
  lemma Injective(r: Record, r': Record, rest: seq<bv8>, rest': seq<bv8>)
    requires RecordOk(r) && RecordOk(r') && RecordBytes(r) + rest == RecordBytes(r') + rest'
    ensures r == r' && rest == rest'
  {
    hide RecordBytes;
    RoundTrip(r, rest);
    RoundTrip(r', rest');
    var b := RecordBytes(r) + rest;
    assert b[|RecordBytes(r)|..] == rest && b[|RecordBytes(r)|..] == rest';
  }

  // ---------- what reading yields ----------

  lemma NumberBound(b: seq<bv8>, off: nat, k: nat)
    ensures Number(b, off, k).Some? ==> off + k <= |b| && Number(b, off, k).value < Pow256(k)
  {
    if off + k <= |b| { FromLeBound(b[off..off + k]); }
  }

  lemma ReadValueOk(b: seq<bv8>, off: nat)
    ensures ReadValue(b, off).Some? ==> ValueOk(ReadValue(b, off).value.0) && off < ReadValue(b, off).value.1 <= |b|
  {
    hide Number;
    hide Pow256;
    Powers();
    NumberBound(b, off, 4);
    NumberBound(b, off + 4, 8);
    NumberBound(b, off + 4, 4);
    NumberBound(b, off + 4, 2);
    NumberBound(b, off + 4, 1);
  }

  lemma {:induction false} ReadFieldsOk(b: seq<bv8>, off: nat, n: nat)
    requires off <= |b|
    ensures ReadFields(b, off, n).Some? ==>
      var (vs, o) := ReadFields(b, off, n).value;
      |vs| == n && off <= o <= |b| && forall i :: 0 <= i < n ==> ValueOk(vs[i])
  {
    hide ReadValue;
    if n > 0 {
      ReadFieldsOk(b, off, n - 1);
      if ReadFields(b, off, n - 1).Some? { ReadValueOk(b, ReadFields(b, off, n - 1).value.1); }
    }
  }

  /** Whatever the bytes are, a record that is read has all its values in range and lies within them. */
  lemma ReadRecordOk(b: seq<bv8>)
    ensures ReadRecord(b).Some? ==> RecordOk(ReadRecord(b).value.0) && 16 <= ReadRecord(b).value.1 <= |b|
  {
    hide ReadFields;
    hide Pow256;
    hide FromLe;
    hide ValueOk;
    if |b| >= 16 {
      Powers();
      FromLeBound(b[0..8]);
      FromLeBound(b[8..12]);
      FromLeBound(b[12..16]);
      ReadFieldsOk(b, 16, FromLe(b[12..16]));
    }
  }

  // ---------- sizes ----------

  lemma ValueSize(v: Value)
    requires ValueOk(v)
    ensures 5 <= |ValueBytes(v)| <= (if v.Blob? then 2056 else 261)
  {
  }

  lemma {:induction false} FieldsSize(vs: seq<Value>)
    requires forall i :: 0 <= i < |vs| ==> ValueOk(vs[i]) && !vs[i].Blob?
    ensures |FieldBytes(vs)| <= 261 * |vs|
    decreases |vs|
  {
    hide ValueBytes;
    if vs != [] {
      FieldsSize(vs[..|vs| - 1]);
      ValueSize(vs[|vs| - 1]);
    }
  }

  /** Every record without blobs and with at most 15 fields fits the record buffer. */
  lemma Fits(r: Record)
    requires RecordOk(r) && |r.fields| <= 15 && forall i :: 0 <= i < |r.fields| ==> !r.fields[i].Blob?
    ensures 16 <= |RecordBytes(r)| <= MAX_RECORD_SIZE
  {
    hide FieldBytes;
    FieldsSize(r.fields);
  }

  ghost function Full(n: nat): (vs: seq<Value>)
    ensures |vs| == n && forall i :: 0 <= i < n ==> vs[i].Text? && |vs[i].text| == MAX_STR_LEN
  {
    seq(n, _ => Text(seq(MAX_STR_LEN, _ => 0)))
  }

  lemma {:induction false} FullSize(vs: seq<Value>)
    requires forall i :: 0 <= i < |vs| ==> vs[i].Text? && |vs[i].text| == MAX_STR_LEN
    ensures |FieldBytes(vs)| == 261 * |vs|
    decreases |vs|
  {
    if vs != [] { FullSize(vs[..|vs| - 1]); }
  }

  /** With 16 fields of the longest text the record does not fit. */
  lemma SixteenTextsDoNotFit(rowId: nat, tableId: nat)
    requires rowId < U64 && tableId < U32
    ensures RecordOk(Record(rowId, tableId, Full(16))) && |RecordBytes(Record(rowId, tableId, Full(16)))| > MAX_RECORD_SIZE
  {
    FullSize(Full(16));
    hide Full;
    hide FieldBytes;
  }
}
