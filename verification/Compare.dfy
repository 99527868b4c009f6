/**
 The comparisons of the engine: reccmp of sort.cpp (memcmp on strings) and
 matchRec of heapfile.cpp (strncmp on strings), with the 32-bit subtraction both
 use on integers.
 */
module Compare {
  import opened Bytes
  import opened Records

  datatype Datatype = STRING | INTEGER

  datatype Operator = LT | LTE | EQ | GTE | GT | NE

  function Sign(x: int): int { if x < 0 then -1 else if x > 0 then 1 else 0 }

  /** The 32-bit two's-complement result of an int expression. */
  function Wrap(x: int): (r: int)
    ensures IsInt(r) && (r - x) % 0x1_0000_0000 == 0
  {
    (x + 0x8000_0000) % 0x1_0000_0000 - 0x8000_0000
  }

  /** The sign of iattr - ifltr as the machine computes it. */
  function IntDiff(a: int, b: int): int { Sign(Wrap(a - b)) }

  /** The subtraction orders two ints exactly when their difference is an int. */
  lemma IntDiffExact(a: int, b: int)
    requires IsInt(a) && IsInt(b)
    ensures IntDiff(a, b) == Sign(a - b) <==> IsInt(a - b)
  {
  }

  /** Outside that range the order is not even transitive. */
  lemma IntDiffCycle()
    ensures IntDiff(-0x8000_0000, -1) == -1 && IntDiff(-1, 0x7FFF_FFFE) == -1
    ensures IntDiff(-0x8000_0000, 0x7FFF_FFFE) == 1
  {
  }

  /** memcmp over equal lengths, as a sign. */
  function Memcmp(a: seq<Byte>, b: seq<Byte>): (r: int)
    requires |a| == |b|
    ensures -1 <= r <= 1
  {
    if a == [] then 0
    else if a[0] != b[0] then Sign(a[0] as int - b[0] as int)
    else Memcmp(a[1..], b[1..])
  }

  /** strncmp over n bytes of each operand: the comparison ends at a common NUL. */
  function Strncmp(a: seq<Byte>, b: seq<Byte>): (r: int)
    requires |a| == |b|
    ensures -1 <= r <= 1
  {
    if a == [] then 0
    else if a[0] != b[0] then Sign(a[0] as int - b[0] as int)
    else if a[0] == 0 then 0
    else Strncmp(a[1..], b[1..])
  }

  /** a is below b: smaller in the first byte in which they differ. */
  ghost predicate BytesBelow(a: seq<Byte>, b: seq<Byte>)
    requires |a| == |b|
  {
    exists i :: 0 <= i < |a| && BelowAt(a, b, i) && forall j :: 0 <= j < i ==> a[j] == b[j]
  }

  predicate BelowAt(a: seq<Byte>, b: seq<Byte>, i: int)
    requires 0 <= i < |a| == |b|
  {
    a[i] < b[i]
  }

  /** The same of the C strings at their start: the first difference comes before any common NUL. */
  ghost predicate StringBelow(a: seq<Byte>, b: seq<Byte>)
    requires |a| == |b|
  {
    exists i :: 0 <= i < |a| && BelowAt(a, b, i) && forall j :: 0 <= j < i ==> a[j] == b[j] && a[j] != 0
  }

  lemma BelowStep(a: seq<Byte>, b: seq<Byte>)
    requires |a| == |b| && a != [] && a[0] == b[0]
    ensures BytesBelow(a[1..], b[1..]) <==> BytesBelow(a, b)
    ensures a[0] != 0 ==> (StringBelow(a[1..], b[1..]) <==> StringBelow(a, b))
    ensures a[0] == 0 ==> !StringBelow(a, b)
  {
    var c, d := a[1..], b[1..];
    if i :| 0 <= i < |c| && BelowAt(c, d, i) && forall j :: 0 <= j < i ==> c[j] == d[j] {
      assert BelowAt(a, b, i + 1) && forall j :: 1 <= j < i + 1 ==> a[j] == c[j - 1] && b[j] == d[j - 1];
    }
    if i :| 0 <= i < |a| && BelowAt(a, b, i) && forall j :: 0 <= j < i ==> a[j] == b[j] {
      assert BelowAt(c, d, i - 1) && forall j :: 0 <= j < i - 1 ==> a[j + 1] == c[j] && b[j + 1] == d[j];
    }
  }

  /** memcmp is negative exactly below, and zero exactly on equal bytes. */
  lemma {:induction false} MemcmpMeans(a: seq<Byte>, b: seq<Byte>)
    requires |a| == |b|
    ensures Memcmp(a, b) < 0 <==> BytesBelow(a, b)
    ensures Memcmp(a, b) > 0 <==> BytesBelow(b, a)
    ensures Memcmp(a, b) == 0 <==> a == b
  {
    MemcmpAntisymmetric(a, b);
    if a != [] {
      if a[0] == b[0] {
        MemcmpMeans(a[1..], b[1..]);
        BelowStep(a, b);
        BelowStep(b, a);
      } else {
        assert BelowAt(a, b, 0) || BelowAt(b, a, 0);
      }
    }
  }

  /** strncmp is negative exactly when the C string of a is below that of b. */
  lemma {:induction false} StrncmpMeans(a: seq<Byte>, b: seq<Byte>)
    requires |a| == |b|
    ensures Strncmp(a, b) < 0 <==> StringBelow(a, b)
    ensures Strncmp(a, b) > 0 <==> StringBelow(b, a)
  {
    if a != [] {
      if a[0] == b[0] {
        StrncmpMeans(a[1..], b[1..]);
        BelowStep(a, b);
        BelowStep(b, a);
      } else {
        assert BelowAt(a, b, 0) || BelowAt(b, a, 0);
      }
    }
  }

  lemma {:induction false} MemcmpAntisymmetric(a: seq<Byte>, b: seq<Byte>)
    requires |a| == |b|
    ensures Memcmp(a, b) == -Memcmp(b, a) && (Memcmp(a, b) == 0 <==> a == b)
  {
    if a != [] {
      MemcmpAntisymmetric(a[1..], b[1..]);
      if a[0] == b[0] { assert a == [a[0]] + a[1..] && b == [b[0]] + b[1..]; }
    }
  }

  lemma {:induction false} MemcmpTransitive(a: seq<Byte>, b: seq<Byte>, c: seq<Byte>)
    requires |a| == |b| == |c| && Memcmp(a, b) <= 0 && Memcmp(b, c) <= 0
    ensures Memcmp(a, c) <= 0
  {
    if a != [] && a[0] == b[0] == c[0] { MemcmpTransitive(a[1..], b[1..], c[1..]); }
  }

  lemma {:induction false} StrncmpAntisymmetric(a: seq<Byte>, b: seq<Byte>)
    requires |a| == |b|
    ensures Strncmp(a, b) == -Strncmp(b, a)
  {
    if a != [] { StrncmpAntisymmetric(a[1..], b[1..]); }
  }

  /** The sort order refines the order of scan filters, so a file sorted by memcmp is sorted by strncmp. */
  lemma {:induction false} MemcmpRefinesStrncmp(a: seq<Byte>, b: seq<Byte>)
    requires |a| == |b| && Memcmp(a, b) <= 0
    ensures Strncmp(a, b) <= 0
  {
    if a != [] && a[0] == b[0] && a[0] != 0 { MemcmpRefinesStrncmp(a[1..], b[1..]); }
  }

  /** The C string at the start of a buffer, if it ends there. */
  function CString(a: seq<Byte>): seq<Byte> {
    if a == [] || a[0] == 0 then [] else [a[0]] + CString(a[1..])
  }

  /** strncmp finds two fields equal exactly when they hold the same C string. */
  lemma {:induction false} StrncmpEqual(a: seq<Byte>, b: seq<Byte>)
    requires |a| == |b|
    ensures Strncmp(a, b) == 0 <==> CString(a) == CString(b)
  {
    if a != [] {
      StrncmpEqual(a[1..], b[1..]);
      if a[0] != 0 && b[0] != 0 {
        assert CString(a)[0] == a[0] && CString(a)[1..] == CString(a[1..]);
        assert CString(b)[0] == b[0] && CString(b)[1..] == CString(b[1..]);
      }
    }
  }

  /** A field of the given type can hold an attribute of that length. */
  predicate FieldOk(dtype: Datatype, length: int) {
    1 <= length && (dtype.INTEGER? ==> length == 4)
  }

  /** An attribute of the records of a file: where it lies in a record and how it compares. */
  datatype Attr = Attr(offset: int, length: int, dtype: Datatype)

  predicate AttrOk(a: Attr) { 0 <= a.offset && FieldOk(a.dtype, a.length) }

  predicate Has(a: Attr, r: Rec) { AttrOk(a) && a.offset + a.length <= |r| }

  function Field(a: Attr, r: Rec): (f: seq<Byte>)
    requires Has(a, r)
    ensures |f| == a.length
  {
    r[a.offset .. a.offset + a.length]
  }

  /** The comparison of matchRec: negative when the attribute is below the filter value. */
  function Diff(dtype: Datatype, attr: seq<Byte>, value: seq<Byte>): int
    requires |attr| == |value| && FieldOk(dtype, |attr|)
  {
    match dtype
    case INTEGER => IntDiff(GetInt(attr, 0), GetInt(value, 0))
    case STRING => Strncmp(attr, value)
  }

  predicate Satisfies(op: Operator, diff: int) {
    match op
    case LT => diff < 0
    case LTE => diff <= 0
    case EQ => diff == 0
    case GTE => diff >= 0
    case GT => diff > 0
    case NE => diff != 0
  }

  /** The operator with its operands exchanged, as the nested-loops join computes it. */
  function Mirror(op: Operator): Operator {
    match op
    case EQ => EQ
    case GT => LT
    case GTE => LTE
    case LT => GT
    case LTE => GTE
    case NE => NE
  }

  lemma MirrorSatisfies(op: Operator, diff: int)
    ensures Satisfies(Mirror(op), diff) <==> Satisfies(op, -diff)
    ensures Mirror(Mirror(op)) == op
  {
  }

  // ---------- scan filters ----------

  datatype Filter =
    | NoFilter
    | Filter(offset: int, length: int, dtype: Datatype, value: seq<Byte>, op: Operator)
  {
    /** What startScan accepts, the value pointing at enough bytes. */
    predicate Ok() {
      Filter? ==> 0 <= offset && FieldOk(dtype, length) && |value| == length
    }
  }

  /** HeapFileScan::matchRec: a record too short for the attribute never matches. */
  predicate MatchRec(f: Filter, rec: seq<Byte>)
    requires f.Ok()
  {
    f.NoFilter? || (f.offset + f.length <= |rec|
                    && Satisfies(f.op, Diff(f.dtype, rec[f.offset .. f.offset + f.length], f.value)))
  }

  lemma IntInside(rec: seq<Byte>, o: int, n: int)
    requires 0 <= o && n == 4 && o + n <= |rec|
    ensures GetInt(rec[o .. o + n], 0) == GetInt(rec, o)
  {
  }

  /**
   What a filter on an int selects, by the operator: the attribute lies inside the
   record and compares so with the value.  Equality and inequality are always
   decided so; the other four exactly when the difference is an int.
   */
  lemma MatchInt(f: Filter, rec: seq<Byte>)
    requires f.Filter? && f.Ok() && f.dtype.INTEGER?
    ensures MatchRec(f, rec) ==> f.offset + 4 <= |rec|
    ensures f.offset + 4 <= |rec| ==>
      var x, y := GetInt(rec, f.offset), GetInt(f.value, 0);
      && (f.op == EQ ==> (MatchRec(f, rec) <==> x == y))
      && (f.op == NE ==> (MatchRec(f, rec) <==> x != y))
      && (f.op == LT ==> ((MatchRec(f, rec) <==> x < y) <==> IsInt(x - y)))
      && (f.op == LTE ==> ((MatchRec(f, rec) <==> x <= y) <==> IsInt(x - y)))
      && (f.op == GTE ==> ((MatchRec(f, rec) <==> x >= y) <==> IsInt(x - y)))
      && (f.op == GT ==> ((MatchRec(f, rec) <==> x > y) <==> IsInt(x - y)))
  {
    hide GetInt;
    if f.offset + 4 <= |rec| { IntInside(rec, f.offset, f.length); }
  }

  /** What a filter on a string selects: the comparison of the C strings in attribute and value. */
  lemma MatchString(f: Filter, rec: seq<Byte>)
    requires f.Filter? && f.Ok() && f.dtype.STRING?
    ensures MatchRec(f, rec) ==> f.offset + f.length <= |rec|
    ensures f.offset + f.length <= |rec| ==>
      var a, b := rec[f.offset .. f.offset + f.length], f.value;
      && (f.op == LT ==> (MatchRec(f, rec) <==> StringBelow(a, b)))
      && (f.op == LTE ==> (MatchRec(f, rec) <==> !StringBelow(b, a)))
      && (f.op == EQ ==> (MatchRec(f, rec) <==> CString(a) == CString(b)))
      && (f.op == GTE ==> (MatchRec(f, rec) <==> !StringBelow(a, b)))
      && (f.op == GT ==> (MatchRec(f, rec) <==> StringBelow(b, a)))
      && (f.op == NE ==> (MatchRec(f, rec) <==> CString(a) != CString(b)))
  {
    hide StringBelow, CString, Strncmp;
    if f.offset + f.length <= |rec| {
      StrncmpMeans(rec[f.offset .. f.offset + f.length], f.value);
      StrncmpEqual(rec[f.offset .. f.offset + f.length], f.value);
    }
  }
}
