/** The WHERE conditions of kernel/db/query.c and what it means for a record to match them. */
module Filter {
  import opened RecordFormat
  import opened Wrappers

  // ---------- C strings ----------

  /** The bytes before the first zero: what the string functions see. */
  function CString(s: seq<bv8>): (r: seq<bv8>)
    ensures |r| <= |s| && 0 !in r
  {
    if s == [] || s[0] == 0 then [] else [s[0]] + CString(s[1..])
  }

  function Head(s: seq<bv8>): (n: nat)
  {
    if s == [] then 0 else s[0] as nat
  }

  /** strcmp on strings without zeros. */
  function Strcmp(a: seq<bv8>, b: seq<bv8>): int
  {
    if a != [] && b != [] && a[0] == b[0] then Strcmp(a[1..], b[1..]) else Head(a) - Head(b)
  }

  lemma HeadInjective(a: seq<bv8>, b: seq<bv8>)
    requires 0 !in a && 0 !in b && Head(a) == Head(b)
    ensures a == [] <==> b == []
    ensures a != [] ==> a[0] == b[0]
  {
    if a != [] {
      assert a[0] in a;
      NonZero(a[0]);
    }
    if b != [] {
      assert b[0] in b;
      NonZero(b[0]);
    }
    if a != [] && b != [] { SameNat(a[0], b[0]); }
  }

  lemma NonZero(x: bv8)
    requires x != 0
    ensures x as nat > 0
  {
  }

  lemma SameNat(x: bv8, y: bv8)
    requires x as nat == y as nat
    ensures x == y
  {
    assert x as nat as bv8 == x && y as nat as bv8 == y;
  }

  /** strcmp is 0 exactly for equal strings. */
  lemma {:induction false} StrcmpEqual(a: seq<bv8>, b: seq<bv8>)
    requires 0 !in a && 0 !in b
    ensures Strcmp(a, b) == 0 <==> a == b
    decreases |a|
  {
    if a != [] && b != [] && a[0] == b[0] {
      StrcmpEqual(a[1..], b[1..]);
      assert a == [a[0]] + a[1..] && b == [b[0]] + b[1..];
    } else if Head(a) == Head(b) {
      HeadInjective(a, b);
    }
  }

  /** strcmp orders strings: swapping the arguments changes the sign. */
  lemma {:induction false} StrcmpSign(a: seq<bv8>, b: seq<bv8>)
    ensures Strcmp(a, b) == -Strcmp(b, a)
    decreases |a|
  {
    if a != [] && b != [] && a[0] == b[0] { StrcmpSign(a[1..], b[1..]); }
  }

  lemma {:induction false} StrcmpTransitive(a: seq<bv8>, b: seq<bv8>, c: seq<bv8>)
    requires 0 !in a && 0 !in b && 0 !in c && Strcmp(a, b) < 0 && Strcmp(b, c) < 0
    ensures Strcmp(a, c) < 0
    decreases |a|
  {
    var ab := a != [] && b != [] && a[0] == b[0];
    var bc := b != [] && c != [] && b[0] == c[0];
    if ab && bc {
      StrcmpTransitive(a[1..], b[1..], c[1..]);
    } else if a != [] && c != [] && a[0] == c[0] {
      assert Head(a) == Head(c);
      assert !ab && !bc;
    }
  }

  predicate IsSpace(c: bv8)
  {
    c == 0x20 || c == 0x09 || c == 0x0A || c == 0x0D
  }

  predicate IsDigit(c: bv8)
  {
    0x30 <= c && c <= 0x39
  }

  function SkipSpaces(s: seq<bv8>): seq<bv8>
  {
    if s != [] && IsSpace(s[0]) then SkipSpaces(s[1..]) else s
  }

  /** strtou64 in base 10, on uint64_t. */
  function Digits(s: seq<bv8>, acc: nat): nat
  {
    if s != [] && IsDigit(s[0]) then Digits(s[1..], (acc * 10 + (s[0] - 0x30) as nat) % U64) else acc
  }

  function Strtou64(s: seq<bv8>): nat
  {
    Digits(SkipSpaces(s), 0)
  }

  // ---------- conditions ----------

  datatype CmpOp = Eq | Neq | Lt | Gt | Le | Ge | Like

  datatype Condition = Condition(column: seq<bv8>, op: CmpOp, value: Value)

  /** The comparison that an operator makes of a three-way result. */
  predicate Holds(op: CmpOp, cmp: int)
  {
    match op
    case Eq => cmp == 0
    case Neq => cmp != 0
    case Lt => cmp < 0
    case Gt => cmp > 0
    case Le => cmp <= 0
    case Ge => cmp >= 0
    case Like => false
  }

  /** match_field */
  predicate MatchField(field: Value, op: CmpOp, cond: Value)
  {
    match (field, cond)
    case (Text(s), Text(t)) => Holds(op, Strcmp(CString(s), CString(t)))
    case (Unsigned(a), Unsigned(b)) => Holds(op, a - b)
    case (Flag(a), Flag(b)) => a == b
    case (Unsigned(a), Text(t)) => (op.Eq? || op.Neq?) && Holds(op, a - Strtou64(CString(t)))
    case _ => false
  }

  /** Equality of strings selects exactly the fields with that text. */
  lemma TextEquality(s: seq<bv8>, t: seq<bv8>)
    ensures MatchField(Text(s), Eq, Text(t)) <==> CString(s) == CString(t)
    ensures MatchField(Text(s), Neq, Text(t)) <==> CString(s) != CString(t)
  {
    StrcmpEqual(CString(s), CString(t));
  }

  function Upper(c: bv8): bv8
  {
    if 0x61 <= c && c <= 0x7A then c - 0x20 else c
  }

  /** strcasecmp finds no difference. */
  predicate SameName(a: seq<bv8>, b: seq<bv8>)
  {
    |a| == |b| && forall i :: 0 <= i < |a| ==> Upper(a[i]) == Upper(b[i])
  }

  /** find_column_index: the first column of that name. */
  method FindColumn(columns: seq<seq<bv8>>, name: seq<bv8>) returns (i: Option<nat>)
    ensures i == Column(columns, name)
  {
    hide SameName;
    var k := 0;
    while k < |columns|
      invariant k <= |columns| && forall j :: 0 <= j < k ==> !SameName(columns[j], name)
    {
      if SameName(columns[k], name) {
        ColumnIs(columns, name, k);
        return Some(k);
      }
      k := k + 1;
    }
    NoColumn(columns, name);
    i := None;
  }

  function Column(columns: seq<seq<bv8>>, name: seq<bv8>): (i: Option<nat>)
    ensures i.Some? ==> i.value < |columns| && SameName(columns[i.value], name) && forall j :: 0 <= j < i.value ==> !SameName(columns[j], name)
    ensures i.None? ==> forall j :: 0 <= j < |columns| ==> !SameName(columns[j], name)
  {
    if columns == [] then None
    else if SameName(columns[0], name) then Some(0)
    else match Column(columns[1..], name) case None => None case Some(j) => Some(j + 1)
  }

  lemma ColumnIs(columns: seq<seq<bv8>>, name: seq<bv8>, k: nat)
    requires k < |columns| && SameName(columns[k], name) && forall j :: 0 <= j < k ==> !SameName(columns[j], name)
    ensures Column(columns, name) == Some(k)
  {
  }

  lemma NoColumn(columns: seq<seq<bv8>>, name: seq<bv8>)
    requires forall j :: 0 <= j < |columns| ==> !SameName(columns[j], name)
    ensures Column(columns, name) == None
  {
  }

  /** A field of a record as it is after decryption: fields beyond the stored ones are zero. */
  function FieldAt(r: Record, i: nat): Value
  {
    if i < |r.fields| then r.fields[i] else Unsigned(0)
  }

  predicate Meets(r: Record, columns: seq<seq<bv8>>, c: Condition)
  {
    var i := Column(columns, c.column);
    i.Some? && MatchField(FieldAt(r, i.value), c.op, c.value)
  }

  ghost predicate Matches(r: Record, columns: seq<seq<bv8>>, conds: seq<Condition>)
  {
    forall c :: 0 <= c < |conds| ==> Meets(r, columns, conds[c])
  }

  /** record_matches */
  method RecordMatches(r: Record, columns: seq<seq<bv8>>, conds: seq<Condition>) returns (ok: bool)
    ensures ok == Matches(r, columns, conds)
  {
    hide MatchField;
    var c := 0;
    while c < |conds|
      invariant c <= |conds| && forall k :: 0 <= k < c ==> Meets(r, columns, conds[k])
    {
      var i := FindColumn(columns, conds[c].column);
      if i.None? || !MatchField(FieldAt(r, i.value), conds[c].op, conds[c].value) {
        assert !Meets(r, columns, conds[c]);
        return false;
      }
      c := c + 1;
    }
    ok := true;
  }
}
