/** kernel/db/record_serde.c: writing a record to a buffer and reading one back. */
module RecordSerde {
  import opened Bytes
  import opened RecordFormat
  import opened Wrappers

  /** memcpy into a buffer. */
  method CopyInto(buf: array<bv8>, off: nat, data: seq<bv8>)
    requires off + |data| <= buf.Length
    modifies buf
    ensures Holds(buf[..], off, data)
    ensures forall j :: 0 <= j < buf.Length && (j < off || off + |data| <= j) ==> buf[j] == old(buf[j])
  {
    var i := 0;
    while i < |data|
      invariant i <= |data| && forall k :: 0 <= k < i ==> buf[off + k] == data[k]
      invariant forall j :: 0 <= j < buf.Length && (j < off || off + i <= j) ==> buf[j] == old(buf[j])
    {
      buf[off + i] := data[i];
      i := i + 1;
    }
    assert buf[..][off..off + |data|] == data;
  }

  method Put(buf: array<bv8>, off: nat, n: nat, k: nat)
    requires off + k <= buf.Length
    modifies buf
    ensures Holds(buf[..], off, Le(n, k))
    ensures forall j :: 0 <= j < buf.Length && (j < off || off + k <= j) ==> buf[j] == old(buf[j])
  {
    WriteLe(buf, off, n, k);
    assert buf[..][off..off + k] == buf[off..off + k];
  }

  /** Bytes that were not overwritten are still held. */
  lemma HeldStill(b: seq<bv8>, b': seq<bv8>, off: nat, x: seq<bv8>, end: nat)
    requires |b| == |b'| && Holds(b, off, x) && off + |x| <= end <= |b| && forall j :: 0 <= j < end ==> b'[j] == b[j]
    ensures Holds(b', off, x)
  {
    assert b'[off..off + |x|] == b[off..off + |x|];
  }

  /** A number of k bytes followed by data. */
  method PutCounted(buf: array<bv8>, off: nat, k: nat, data: seq<bv8>)
    requires off + k + |data| <= buf.Length
    modifies buf
    ensures Holds(buf[..], off, Le(|data|, k) + data)
    ensures forall j :: 0 <= j < buf.Length && (j < off || off + k + |data| <= j) ==> buf[j] == old(buf[j])
  {
    hide Holds;
    hide Le;
    Put(buf, off, |data|, k);
    ghost var b := buf[..];
    CopyInto(buf, off + k, data);
    HeldStill(b, buf[..], off, Le(|data|, k), off + k);
    HoldsParts(buf[..], off, Le(|data|, k), data);
  }

  /** One field of record_serialize: its type, then its payload if there is room. */
  method WriteValue(buf: array<bv8>, off: nat, bufSize: nat, v: Value) returns (end: Option<nat>)
    requires bufSize <= buf.Length && off <= bufSize && ValueOk(v)
    modifies buf
    ensures end == if off + |ValueBytes(v)| <= bufSize then Some(off + |ValueBytes(v)|) else None
    ensures end.Some? ==> Holds(buf[..], off, ValueBytes(v))
    ensures forall j :: 0 <= j < off || bufSize <= j < buf.Length ==> buf[j] == old(buf[j])
  {
    hide Holds;
    hide Le;
    if off + 4 > bufSize {
      return None;
    }
    Put(buf, off, Tag(v), 4);
    ghost var b := buf[..];
    var o := off + 4;
    if o + PayloadSize(v) > bufSize {
      return None;
    }
    WritePayload(buf, o, v);
    HeldStill(b, buf[..], off, Le(Tag(v), 4), o);
    HoldsParts(buf[..], off, Le(Tag(v), 4), Payload(v));
    end := Some(o + PayloadSize(v));
  }

  function PayloadSize(v: Value): (n: nat)
    ensures ValueOk(v) ==> n == |Payload(v)|
  {
    match v
    case Unsigned(_) => 8
    case Signed(_) => 8
    case Text(s) => 2 + |s|
    case Blob(s) => 4 + |s|
    case Flag(_) => 1
    case Word(_) => 4
    case Octet(_) => 1
  }

  method WritePayload(buf: array<bv8>, o: nat, v: Value)
    requires ValueOk(v) && o + |Payload(v)| <= buf.Length
    modifies buf
    ensures Holds(buf[..], o, Payload(v))
    ensures forall j :: 0 <= j < buf.Length && (j < o || o + |Payload(v)| <= j) ==> buf[j] == old(buf[j])
  {
    hide Holds;
    hide Le;
    match v
    case Unsigned(u) => Put(buf, o, u, 8);
    case Signed(i) => Put(buf, o, ToUnsigned(i), 8);
    case Text(s) => PutCounted(buf, o, 2, s);
    case Blob(s) => PutCounted(buf, o, 4, s);
    case Flag(f) => Put(buf, o, if f then 1 else 0, 1);
    case Word(w) => Put(buf, o, w, 4);
    case Octet(x) => Put(buf, o, x, 1);
  }

  /** record_serialize: writes exactly the record's bytes, or returns 0 when they do not fit. */
  method Serialize(r: Record, buf: array<bv8>, bufSize: nat) returns (n: nat)
    requires RecordOk(r) && bufSize <= buf.Length
    modifies buf
    ensures n == if |RecordBytes(r)| <= bufSize then |RecordBytes(r)| else 0
    ensures n > 0 ==> buf[..n] == RecordBytes(r)
    ensures n == 0 && bufSize >= 16 ==> buf[..16] == Header(r)
    ensures forall j :: bufSize <= j < buf.Length ==> buf[j] == old(buf[j])
  {
    hide Holds;
    hide Le;
    hide ValueBytes;
    hide FieldBytes;
    if bufSize < 16 {
      return 0;
    }
    WriteHeader(r, buf);
    var off, i := 16, 0;
    assert r.fields[..0] == [];
    NoFields();
    HeldNothing(buf[..], 16);
    while i < |r.fields|
      invariant i <= |r.fields| && off == 16 + |FieldBytes(r.fields[..i])| <= bufSize
      invariant Holds(buf[..], 0, Header(r)) && Holds(buf[..], 16, FieldBytes(r.fields[..i]))
      invariant forall j :: bufSize <= j < buf.Length ==> buf[j] == old(buf[j])
    {
      ghost var b := buf[..];
      FieldStep(r.fields, i);
      var end := WriteValue(buf, off, bufSize, r.fields[i]);
      if end.None? {
        FieldsGrow(r.fields, i + 1);
        HeldStill(b, buf[..], 0, Header(r), off);
        HeldPrefix(buf[..], Header(r));
        return 0;
      }
      HeldStill(b, buf[..], 0, Header(r), off);
      HeldStill(b, buf[..], 16, FieldBytes(r.fields[..i]), off);
      HoldsParts(buf[..], 16, FieldBytes(r.fields[..i]), ValueBytes(r.fields[i]));
      off, i := end.value, i + 1;
    }
    assert r.fields[..|r.fields|] == r.fields;
    HoldsParts(buf[..], 0, Header(r), FieldBytes(r.fields));
    HeldPrefix(buf[..], RecordBytes(r));
    n := off;
  }

  lemma HeldPrefix(b: seq<bv8>, x: seq<bv8>)
    requires Holds(b, 0, x)
    ensures |x| <= |b| && b[..|x|] == x
  {
  }

  lemma HeldNothing(b: seq<bv8>, off: nat)
    requires off <= |b|
    ensures Holds(b, off, [])
  {
  }

  lemma NoFields()
    ensures FieldBytes([]) == []
  {
  }

  lemma FieldStep(vs: seq<Value>, i: nat)
    requires i < |vs| && forall k :: 0 <= k < |vs| ==> ValueOk(vs[k])
    ensures FieldBytes(vs[..i + 1]) == FieldBytes(vs[..i]) + ValueBytes(vs[i])
  {
    hide ValueBytes;
    assert vs[..i + 1][..i] == vs[..i];
  }

  lemma {:induction false} FieldsGrow(vs: seq<Value>, i: nat)
    requires i <= |vs| && forall k :: 0 <= k < |vs| ==> ValueOk(vs[k])
    ensures |FieldBytes(vs[..i])| <= |FieldBytes(vs)|
    decreases |vs| - i
  {
    hide FieldBytes;
    hide ValueBytes;
    if i < |vs| {
      FieldsGrow(vs, i + 1);
      FieldStep(vs, i);
    } else {
      assert vs[..i] == vs;
    }
  }

  method WriteHeader(r: Record, buf: array<bv8>)
    requires 16 <= buf.Length
    modifies buf
    ensures Holds(buf[..], 0, Header(r))
    ensures forall j :: 16 <= j < buf.Length ==> buf[j] == old(buf[j])
  {
    hide Holds;
    hide Le;
    Put(buf, 0, r.rowId, 8);
    ghost var b := buf[..];
    Put(buf, 8, r.tableId, 4);
    HeldStill(b, buf[..], 0, Le(r.rowId, 8), 8);
    HoldsParts(buf[..], 0, Le(r.rowId, 8), Le(r.tableId, 4));
    b := buf[..];
    Put(buf, 12, |r.fields|, 4);
    HeldStill(b, buf[..], 0, Le(r.rowId, 8) + Le(r.tableId, 4), 12);
    HoldsParts(buf[..], 0, Le(r.rowId, 8) + Le(r.tableId, 4), Le(|r.fields|, 4));
  }

  // ---------- reading ----------

  /** A reader of k bytes, behind the check that they are there. */
  method GetNumber(buf: array<bv8>, size: nat, off: nat, k: nat) returns (n: Option<nat>)
    requires size <= buf.Length
    ensures n == Number(buf[..size], off, k)
  {
    hide FromLe;
    if off + k > size {
      return None;
    }
    var v := ReadLe(buf, off, k);
    assert buf[..size][off..off + k] == buf[off..off + k];
    n := Some(v);
  }

  method GetCounted(buf: array<bv8>, size: nat, off: nat, k: nat, max: nat) returns (s: Option<seq<bv8>>)
    requires size <= buf.Length
    ensures s == Counted(buf[..size], off, k, max)
  {
    hide Number;
    var len := GetNumber(buf, size, off, k);
    if len.None? || len.value > max || off + k + len.value > size {
      return None;
    }
    assert buf[..size][off + k..off + k + len.value] == buf[off + k..off + k + len.value];
    s := Some(buf[off + k..off + k + len.value]);
  }

  /** One field of record_deserialize. */
  method GetValue(buf: array<bv8>, size: nat, off: nat) returns (v: Option<(Value, nat)>)
    requires size <= buf.Length
    ensures v == ReadValue(buf[..size], off)
  {
    hide Number;
    hide Counted;
    var tag := GetNumber(buf, size, off, 4);
    if tag.None? {
      return None;
    }
    var o := off + 4;
    var n: Option<nat>;
    var s: Option<seq<bv8>>;
    v := None;
    match tag.value {
      case 0 =>
        n := GetNumber(buf, size, o, 8);
        if n.Some? { v := Some((Unsigned(n.value), o + 8)); }
      case 1 =>
        n := GetNumber(buf, size, o, 8);
        if n.Some? { v := Some((Signed(ToSigned(n.value)), o + 8)); }
      case 2 =>
        s := GetCounted(buf, size, o, 2, MAX_STR_LEN);
        if s.Some? { v := Some((Text(s.value), o + 2 + |s.value|)); }
      case 3 =>
        s := GetCounted(buf, size, o, 4, MAX_BLOB_LEN);
        if s.Some? { v := Some((Blob(s.value), o + 4 + |s.value|)); }
      case 4 =>
        n := GetNumber(buf, size, o, 1);
        if n.Some? { v := Some((Flag(n.value != 0), o + 1)); }
      case 5 =>
        n := GetNumber(buf, size, o, 4);
        if n.Some? { v := Some((Word(n.value), o + 4)); }
      case 6 =>
        n := GetNumber(buf, size, o, 1);
        if n.Some? { v := Some((Octet(n.value), o + 1)); }
      case _ =>
    }
  }

  /** record_deserialize: the record at the start of the buffer, None where the source returns 0. */
  method Deserialize(buf: array<bv8>, size: nat) returns (r: Option<(Record, nat)>)
    requires size <= buf.Length
    ensures r == ReadRecord(buf[..size])
  {
    hide FromLe;
    hide ReadValue;
    if size < 16 {
      return None;
    }
    ghost var b := buf[..size];
    var rowId := ReadLe(buf, 0, 8);
    var tableId := ReadLe(buf, 8, 4);
    var count := ReadLe(buf, 12, 4);
    assert b[0..8] == buf[0..8] && b[8..12] == buf[8..12] && b[12..16] == buf[12..16];
    if count > MAX_COLUMNS {
      return None;
    }
    var fields: seq<Value>, off, i := [], 16, 0;
    while i < count
      invariant i <= count && ReadFields(b, 16, i) == Some((fields, off))
    {
      var v := GetValue(buf, size, off);
      if v.None? {
        ReadFieldsFail(b, 16, i + 1, count);
        return None;
      }
      fields, off, i := fields + [v.value.0], v.value.1, i + 1;
    }
    r := Some((Record(rowId, tableId, fields), off));
  }

  lemma {:induction false} ReadFieldsFail(b: seq<bv8>, off: nat, i: nat, n: nat)
    requires i <= n && ReadFields(b, off, i).None?
    ensures ReadFields(b, off, n).None?
    decreases n
  {
    if i < n { ReadFieldsFail(b, off, i, n - 1); }
  }
}
