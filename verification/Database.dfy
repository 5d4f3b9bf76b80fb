/**
 * The encrypted record store of kernel/db/database.c: one table's index of encrypted records.
 * Serializing, padding, encrypting and sealing a record, and the reverse, make it behave as a
 * plain map from row ids to records.
 */
module Database {
  import opened Wrappers
  import opened RecordFormat
  import RecordSerde
  import opened Aes
  import AesCbc
  import opened Sha256
  import Hmac
  import opened BTreeIndex
  import M = BTreeModel
  import R = BTreeRuns

  const BUFFER: nat := 4096 + 16

  datatype Code = Ok | Invalid | NoMemory | NotFound

  /** encrypted_record_t */
  datatype Enc = Enc(iv: Block, ciphertext: seq<bv8>, mac: seq<bv8>, rowId: nat, tableId: nat)

  /** e is what the encryption of r under these keys yields. */
  ghost predicate Sealed(f: Compression, rk: Schedule, key: seq<bv8>, e: Enc, r: Record)
  {
    && RecordOk(r) && |RecordBytes(r)| <= MAX_RECORD_SIZE && e.rowId == r.rowId
    && AesCbc.IsCipher(rk, e.iv, AesCbc.Pkcs7(RecordBytes(r)), e.ciphertext)
    && e.mac == Hmac.Rfc2104(f, key, e.iv + e.ciphertext)
  }

  class Table {
    const id: nat
    const f: Compression
    const rk: Schedule
    const mac: Hmac.HmacContext
    const index: BTree<Enc>
    const serdeBuf: array<bv8>
    const cryptoBuf: array<bv8>

    /** The records as the callers see them. */
    ghost var rows: map<nat, Record>

    ghost predicate Valid()
      reads this, index, index.root, index.root.repr, mac, mac.inner, mac.outer
    {
      && index.Valid() && R.Good(index.State()) && R.LeavesLive(index.root.view)
      && mac.Valid() && mac.f == f && id < U32
      && serdeBuf.Length == MAX_RECORD_SIZE && cryptoBuf.Length == BUFFER && serdeBuf != cryptoBuf
      && Holds(index.Map(), rows)
    }

    /** The index holds exactly the encrypted rows, each under its own row id. */
    ghost predicate Holds(m: map<nat, Enc>, rows: map<nat, Record>)
      reads mac
    {
      && m.Keys == rows.Keys
      && forall k :: k in rows ==> rows[k].rowId == k && m[k].tableId == id && Sealed(f, rk, mac.key, m[k], rows[k])
    }

    /** A new table: an empty index and the keys derived for it. */
    constructor (id: nat, f: Compression, rk: Schedule, macKey: seq<bv8>, serdeBuf: array<bv8>, cryptoBuf: array<bv8>)
      requires id < U32 && |macKey| < LIMIT
      requires serdeBuf.Length == MAX_RECORD_SIZE && cryptoBuf.Length == BUFFER && serdeBuf != cryptoBuf
      ensures Valid() && rows == map[] && this.id == id && this.serdeBuf == serdeBuf && this.cryptoBuf == cryptoBuf
      ensures fresh(index) && fresh(index.root) && fresh(index.root.repr) && fresh(mac) && fresh(mac.inner) && fresh(mac.outer)
    {
      this.id, this.f, this.rk, this.serdeBuf, this.cryptoBuf := id, f, rk, serdeBuf, cryptoBuf;
      rows := map[];
      index := new BTree<Enc>(id);
      mac := new Hmac.HmacContext(f, macKey);
    }

    /** Steps 1 to 5 of db_insert_record. A record that was encrypted leaves no plaintext in the buffers,
        and one that was not does; memory says whether the allocations succeed. */
    method Encrypt(r: Record, iv: Block, memory: bool) returns (code: Code, e: Option<Enc>)
      requires RecordOk(r) && mac.Valid() && mac.f == f
      requires serdeBuf.Length == MAX_RECORD_SIZE && cryptoBuf.Length == BUFFER && serdeBuf != cryptoBuf
      modifies serdeBuf, cryptoBuf
      ensures code == if |RecordBytes(r)| > MAX_RECORD_SIZE then Invalid else if memory then Ok else NoMemory
      ensures code.Ok? <==> e.Some?
      ensures e.Some? ==> Sealed(f, rk, mac.key, e.value, r) && e.value.tableId == id
      ensures LeftOf(r, code)
    {
      hide RecordBytes;
      hide RecordOk;
      hide AesCbc.IsCipher;
      hide AesCbc.Pkcs7;
      hide Hmac.Rfc2104;
      var n, padded := Prepare(r);
      if n == 0 {
        return Invalid, None;
      }
      if !memory {
        return NoMemory, None;
      }
      var enc := SealBuffer(r.rowId, iv, padded);
      Wipe(serdeBuf, n);
      Wipe(cryptoBuf, padded);
      code, e := Ok, Some(enc);
    }

    /** What the shared buffers hold of a record behind db_insert_record: nothing if it was stored, its
        header if it did not fit, all of it if memory ran out. */
    ghost predicate LeftOf(r: Record, code: Code)
      requires RecordOk(r) && serdeBuf.Length == MAX_RECORD_SIZE && cryptoBuf.Length == BUFFER
      reads serdeBuf, cryptoBuf
    {
      var n := |RecordBytes(r)|;
      match code
      case Ok => n <= MAX_RECORD_SIZE && Wiped(n)
      case Invalid => n > MAX_RECORD_SIZE && serdeBuf[..16] == Header(r)
      case NoMemory =>
        && n <= MAX_RECORD_SIZE && serdeBuf[..n] == RecordBytes(r)
        && cryptoBuf[..AesCbc.PaddedSize(n)] == AesCbc.Pkcs7(RecordBytes(r)) && !Wiped(n)
      case NotFound => false
    }

    /** No trace of a record of n bytes is left in the shared buffers. */
    ghost predicate Wiped(n: nat)
      requires n <= serdeBuf.Length && AesCbc.PaddedSize(n) <= cryptoBuf.Length
      reads serdeBuf, cryptoBuf
    {
      && (forall i :: 0 <= i < n ==> serdeBuf[i] == 0)
      && (forall i :: 0 <= i < AesCbc.PaddedSize(n) ==> cryptoBuf[i] == 0)
    }

    /** Steps 1 and 2: the padded bytes of the record in the buffer; 0 if they do not fit. */
    method Prepare(r: Record) returns (n: nat, padded: nat)
      requires RecordOk(r)
      requires serdeBuf.Length == MAX_RECORD_SIZE && cryptoBuf.Length == BUFFER && serdeBuf != cryptoBuf
      modifies serdeBuf, cryptoBuf
      ensures n == if |RecordBytes(r)| <= MAX_RECORD_SIZE then |RecordBytes(r)| else 0
      ensures n > 0 <==> |RecordBytes(r)| <= MAX_RECORD_SIZE
      ensures n > 0 ==> padded == AesCbc.PaddedSize(n) <= BUFFER && cryptoBuf[..padded] == AesCbc.Pkcs7(RecordBytes(r))
      ensures n > 0 ==> serdeBuf[..n] == RecordBytes(r) && !Wiped(n)
      ensures n == 0 ==> serdeBuf[..16] == Header(r)
    {
      hide RecordBytes;
      hide RecordOk;
      hide AesCbc.Pkcs7;
      RecordSize(r);
      n := RecordSerde.Serialize(r, serdeBuf, MAX_RECORD_SIZE);
      padded := 0;
      if n == 0 {
        return;
      }
      padded := AesCbc.PaddedSize(n);
      forall i | 0 <= i < n {
        cryptoBuf[i] := serdeBuf[i];
      }
      assert cryptoBuf[..n] == serdeBuf[..n];
      ghost var d := cryptoBuf[..n];
      assert d == RecordBytes(r);
      AesCbc.Pad(cryptoBuf, n, padded);
      assert cryptoBuf[..padded] == AesCbc.Pkcs7(d);
      PadByte(d);
      assert cryptoBuf[padded - 1] == cryptoBuf[..padded][padded - 1];
    }

    /** Steps 3 to 5: the ciphertext of the buffer and its seal. */
    method SealBuffer(rowId: nat, iv: Block, padded: nat) returns (e: Enc)
      requires mac.Valid() && mac.f == f && cryptoBuf.Length == BUFFER && padded % 16 == 0 && padded <= BUFFER
      ensures e.iv == iv && e.rowId == rowId && e.tableId == id
      ensures AesCbc.IsCipher(rk, iv, cryptoBuf[..padded], e.ciphertext)
      ensures e.mac == Hmac.Rfc2104(f, mac.key, iv + e.ciphertext)
    {
      hide AesCbc.IsCipher;
      hide Hmac.Rfc2104;
      var ciphertext := new bv8[padded];
      AesCbc.Encrypt(rk, iv, cryptoBuf, ciphertext, padded);
      assert ciphertext[..padded] == ciphertext[..];
      var tag := new bv8[32];
      mac.Compute(iv + ciphertext[..], tag);
      e := Enc(iv, ciphertext[..], tag[..], rowId, id);
    }

    /** db_insert_record. Callers give the record a row id that is not in the table. */
    method Insert(r: Record, iv: Block, memory: bool) returns (code: Code)
      requires Valid() && RecordOk(r) && r.rowId !in rows
      modifies this`rows, index, index.root.repr, serdeBuf, cryptoBuf
      ensures Valid() && fresh(index.root.repr - old(index.root.repr))
      ensures code == if |RecordBytes(r)| > MAX_RECORD_SIZE then Invalid else if memory then Ok else NoMemory
      ensures rows == if code.Ok? then old(rows)[r.rowId := r] else old(rows)
      ensures LeftOf(r, code)
    {
      hide Sealed;
      hide LeftOf;
      hide RecordBytes;
      hide ValueOk;
      hide R.Good;
      hide R.LeavesLive;
      hide R.Step;
      hide M.Live;
      hide M.Flat;
      var e;
      code, e := Encrypt(r, iv, memory);
      if e.Some? {
        FreshInsert(index.State(), r.rowId, e.value);
        index.Insert(r.rowId, Some(e.value));
        rows := rows[r.rowId := r];
      }
    }

    /** db_decrypt_record: what was sealed for a record opens to that record, and nothing opens whose
        seal does not match. */
    method Decrypt(e: Enc, memory: bool) returns (r: Option<Record>)
      requires mac.Valid() && mac.f == f && cryptoBuf.Length == BUFFER
      requires |e.mac| == 32 && |e.ciphertext| % 16 == 0 && |e.ciphertext| < U32
      modifies cryptoBuf
      ensures r.Some? ==> memory && e.mac == Hmac.Rfc2104(f, mac.key, e.iv + e.ciphertext) && RecordOk(r.value)
      ensures memory ==> forall rec :: Sealed(f, rk, mac.key, e, rec) ==> r == Some(rec)
      ensures r.Some? ==> |e.ciphertext| <= BUFFER && forall i :: 0 <= i < |e.ciphertext| ==> cryptoBuf[i] == 0
    {
      hide RecordBytes;
      hide RecordOk;
      hide ReadRecord;
      hide AesCbc.IsCipher;
      hide AesCbc.IsPlain;
      hide AesCbc.IsPadding;
      hide AesCbc.Pkcs7;
      hide Hmac.Rfc2104;
      if !memory {
        return None;
      }
      var computed := new bv8[32];
      mac.Compute(e.iv + e.ciphertext, computed);
      var same := Hmac.Verify(e.mac, computed[..], 32);
      assert e.mac[..32] == e.mac && computed[..][..32] == computed[..];
      if !same {
        return None;
      }
      if |e.ciphertext| > BUFFER {
        forall rec | Sealed(f, rk, mac.key, e, rec)
          ensures false
        {
          SealedSize(f, rk, mac.key, e, rec);
        }
        return None;
      }
      r := Open(e);
    }

    /** Steps 2 to 4 of db_decrypt_record, behind the check of the seal. */
    method Open(e: Enc) returns (r: Option<Record>)
      requires cryptoBuf.Length == BUFFER && |e.ciphertext| % 16 == 0 && |e.ciphertext| <= BUFFER
      modifies cryptoBuf
      ensures r.Some? ==> RecordOk(r.value)
      ensures forall rec :: Sealed(f, rk, mac.key, e, rec) ==> r == Some(rec)
      ensures forall i :: 0 <= i < |e.ciphertext| ==> cryptoBuf[i] == 0
    {
      hide Sealed;
      hide RecordBytes;
      hide RecordOk;
      hide ReadRecord;
      hide AesCbc.IsPlain;
      hide AesCbc.IsPadding;
      var len := |e.ciphertext|;
      var ciphertext := new bv8[len](i requires 0 <= i < len => e.ciphertext[i]);
      assert ciphertext[..len] == e.ciphertext;
      AesCbc.Decrypt(rk, e.iv, ciphertext, cryptoBuf, len);
      var n := AesCbc.Unpad(cryptoBuf, len);
      ghost var p := cryptoBuf[..len];
      var read: Option<(Record, nat)> := None;
      if n > 0 {
        PaddingPrefix(p, n);
        read := RecordSerde.Deserialize(cryptoBuf, n);
        assert cryptoBuf[..n] == p[..n];
        ReadRecordOk(p[..n]);
      }
      forall rec | Sealed(f, rk, mac.key, e, rec)
        ensures read.Some? && read.value.0 == rec
      {
        OpenedRead(f, rk, mac.key, e, rec, p);
      }
      Wipe(cryptoBuf, len);
      r := if read.Some? then Some(read.value.0) else None;
    }

    /** memset to zero */
    static method Wipe(buf: array<bv8>, n: nat)
      requires n <= buf.Length
      modifies buf
      ensures forall i :: 0 <= i < n ==> buf[i] == 0
      ensures forall i :: n <= i < buf.Length ==> buf[i] == old(buf[i])
    {
      var i := 0;
      while i < n
        invariant i <= n && forall k :: 0 <= k < i ==> buf[k] == 0
        invariant forall k :: i <= k < buf.Length ==> buf[k] == old(buf[k])
      {
        buf[i] := 0;
        i := i + 1;
      }
    }

    /** db_get_record: the record last stored under the row id, or nothing. */
    method Get(k: nat, memory: bool) returns (r: Option<Record>)
      requires Valid()
      modifies cryptoBuf
      ensures Valid()
      ensures memory ==> r == if k in rows then Some(rows[k]) else None
    {
      hide Sealed;
      hide R.Good;
      hide R.LeavesLive;
      var e := index.Search(k);
      if e.None? {
        return None;
      }
      SealedShape(f, rk, mac.key, e.value, rows[k]);
      r := Decrypt(e.value, memory);
    }

    /** db_delete_record */
    method Delete(k: nat) returns (code: Code)
      requires Valid() && k < U64
      modifies this`rows, index, index.root.repr
      ensures Valid() && index.root == old(index.root) && index.root.repr == old(index.root.repr)
      ensures code == if k in old(rows) then Ok else NotFound
      ensures rows == old(rows) - {k}
    {
      hide Sealed;
      hide R.Good;
      hide R.LeavesLive;
      hide R.Step;
      hide M.Live;
      hide M.Flat;
      var e := index.Search(k);
      if e.None? {
        assert rows - {k} == rows;
        return NotFound;
      }
      LiveDelete(index.State(), k);
      var _ := index.Delete(k);
      rows := rows - {k};
      code := Ok;
    }

    /** db_update_encrypted: the row is deleted first, so it is lost when it cannot be inserted again. */
    method Update(k: nat, modified: Record, iv: Block, memory: bool) returns (code: Code)
      requires Valid() && RecordOk(modified) && k < U64
      modifies this`rows, index, index.root.repr, serdeBuf, cryptoBuf
      ensures Valid() && fresh(index.root.repr - old(index.root.repr))
      ensures k !in old(rows) ==> code.NotFound? && rows == old(rows)
      ensures k in old(rows) ==>
        var r := modified.(rowId := k, tableId := id);
        && RecordOk(r)
        && code == (if |RecordBytes(r)| > MAX_RECORD_SIZE then Invalid else if memory then Ok else NoMemory)
        && rows == if code.Ok? then old(rows)[k := r] else old(rows) - {k}
    {
      hide RecordBytes;
      hide ValueOk;
      hide Sealed;
      hide R.Good;
      hide R.LeavesLive;
      code := Delete(k);
      if code.NotFound? {
        assert rows == old(rows);
        return;
      }
      var r := modified.(rowId := k, tableId := id);
      code := Insert(r, iv, memory);
      assert (old(rows) - {k})[k := r] == old(rows)[k := r];
    }
  }

  /** The last byte of a padded text is not zero. */
  lemma PadByte(d: seq<bv8>)
    ensures var p := AesCbc.Pkcs7(d); |p| == AesCbc.PaddedSize(|d|) > 0 && p[|p| - 1] != 0
  {
    var n := AesCbc.PaddedSize(|d|) - |d|;
    assert 0 < n <= 16;
    NotZero(n);
  }

  lemma NotZero(n: nat)
    requires 0 < n <= 16
    ensures n as bv8 != 0
  {
  }

  lemma RecordSize(r: Record)
    requires RecordOk(r)
    ensures |RecordBytes(r)| >= 16
  {
  }

  /** A fresh key can be inserted: the tree stays well formed and gains exactly that entry. */
  lemma FreshInsert(s: R.Index<Enc>, k: nat, e: Enc)
    requires R.Good(s) && R.LeavesLive(s.root) && k < U64 && k !in M.Live(M.Flat(s.root))
    ensures var s' := R.Step(s, R.Insert(k, Some(e)));
      R.Good(s') && R.LeavesLive(s'.root) && M.Live(M.Flat(s'.root)) == M.Live(M.Flat(s.root))[k := e]
  {
    if M.ClobbersRoot(s.root, s.h, k) { R.ClobberedRootIsLive(s.root, s.h, -1, U64, k); }
    R.StepGood(s, R.Insert(k, Some(e)));
    R.StepLeavesLive(s, R.Insert(k, Some(e)));
  }

  lemma LiveDelete(s: R.Index<Enc>, k: nat)
    requires R.Good(s) && R.LeavesLive(s.root) && k < U64
    ensures var s' := R.Step(s, R.Delete(k));
      R.Good(s') && R.LeavesLive(s'.root) && M.Live(M.Flat(s'.root)) == M.Live(M.Flat(s.root)) - {k}
  {
    R.StepGood(s, R.Delete(k));
    R.StepLeavesLive(s, R.Delete(k));
  }

  lemma SealedSize(f: Compression, rk: Schedule, key: seq<bv8>, e: Enc, r: Record)
    requires Sealed(f, rk, key, e, r)
    ensures |e.ciphertext| == AesCbc.PaddedSize(|RecordBytes(r)|) <= BUFFER
  {
  }

  lemma SealedShape(f: Compression, rk: Schedule, key: seq<bv8>, e: Enc, r: Record)
    requires Sealed(f, rk, key, e, r)
    ensures |e.mac| == 32 && |e.ciphertext| % 16 == 0 && |e.ciphertext| < U32
  {
    SealedSize(f, rk, key, e, r);
  }

  /** What decryption leaves in the buffer for a sealed record. */
  lemma Opened(f: Compression, rk: Schedule, key: seq<bv8>, e: Enc, r: Record, p: seq<bv8>)
    requires Sealed(f, rk, key, e, r) && AesCbc.IsPlain(rk, e.iv, e.ciphertext, p)
    ensures p == AesCbc.Pkcs7(RecordBytes(r)) && |RecordBytes(r)| >= 16
    ensures AesCbc.IsPadding(p, |RecordBytes(r)|) && p[..|RecordBytes(r)|] == RecordBytes(r)
  {
    hide RecordBytes;
    hide AesCbc.IsCipher;
    hide AesCbc.IsPlain;
    RecordSize(r);
    AesCbc.RoundTrip(rk, e.iv, AesCbc.Pkcs7(RecordBytes(r)), e.ciphertext, p);
    AesCbc.UnpadPad(RecordBytes(r), |RecordBytes(r)|);
  }

  lemma PaddingPrefix(p: seq<bv8>, n: nat)
    requires AesCbc.IsPadding(p, n)
    ensures n <= |p|
  {
  }

  /** Whatever length unpadding accepts is the record's, and reading that much yields the record. */
  lemma OpenedRead(f: Compression, rk: Schedule, key: seq<bv8>, e: Enc, r: Record, p: seq<bv8>)
    requires Sealed(f, rk, key, e, r) && AesCbc.IsPlain(rk, e.iv, e.ciphertext, p)
    ensures var n := |RecordBytes(r)|;
      n > 0 && AesCbc.IsPadding(p, n) && n <= |p| && ReadRecord(p[..n]) == Some((r, n))
  {
    hide RecordBytes;
    hide ReadRecord;
    hide AesCbc.IsPlain;
    hide AesCbc.IsPadding;
    hide AesCbc.Pkcs7;
    Opened(f, rk, key, e, r, p);
    PaddingPrefix(p, |RecordBytes(r)|);
    RoundTrip(r, []);
    assert RecordBytes(r) + [] == RecordBytes(r);
  }
}
