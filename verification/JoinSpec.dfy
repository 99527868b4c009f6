/**
 The theta join as a relation: which pairs of records it holds, in which order,
 and what record it makes of a pair. The nested loops reach the relation by
 filtering the inner scan with the mirrored operator.
 */
module JoinSpec {
  import opened Bytes
  import opened Records
  import opened Compare

  /** AttrDesc of catalog.h: an attribute and the relation it belongs to. */
  datatype AttrDesc = AttrDesc(relName: string, attr: Attr)

  predicate Joinable(d1: Attr, d2: Attr) {
    AttrOk(d1) && AttrOk(d2) && d1.dtype == d2.dtype && d1.length == d2.length
  }

  // ---------- the condition ----------

  /** outer.attr1 op inner.attr2, integers compared by value and strings as C strings. */
  predicate Theta(d1: Attr, op: Operator, d2: Attr, outer: Rec, inner: Rec)
    requires Joinable(d1, d2) && Has(d1, outer)
  {
    && Has(d2, inner)
    && Satisfies(op, match d1.dtype
                     case INTEGER => GetInt(Field(d1, outer), 0) - GetInt(Field(d2, inner), 0)
                     case STRING => Strncmp(Field(d1, outer), Field(d2, inner)))
  }

  /** The condition, operator by operator: ints compare as numbers. */
  lemma ThetaInt(d1: Attr, op: Operator, d2: Attr, outer: Rec, inner: Rec)
    requires Joinable(d1, d2) && Has(d1, outer) && d1.dtype.INTEGER?
    ensures Theta(d1, op, d2, outer, inner) ==> d2.offset + 4 <= |inner|
    ensures d1.offset + 4 <= |outer|
    ensures d2.offset + 4 <= |inner| ==>
      var x, y := GetInt(outer, d1.offset), GetInt(inner, d2.offset);
      && (op == LT ==> (Theta(d1, op, d2, outer, inner) <==> x < y))
      && (op == LTE ==> (Theta(d1, op, d2, outer, inner) <==> x <= y))
      && (op == EQ ==> (Theta(d1, op, d2, outer, inner) <==> x == y))
      && (op == GTE ==> (Theta(d1, op, d2, outer, inner) <==> x >= y))
      && (op == GT ==> (Theta(d1, op, d2, outer, inner) <==> x > y))
      && (op == NE ==> (Theta(d1, op, d2, outer, inner) <==> x != y))
  {
    hide GetInt;
    IntInside(outer, d1.offset, d1.length);
    if d2.offset + 4 <= |inner| { IntInside(inner, d2.offset, d2.length); }
  }

  /** Strings compare as C strings. */
  lemma ThetaString(d1: Attr, op: Operator, d2: Attr, outer: Rec, inner: Rec)
    requires Joinable(d1, d2) && Has(d1, outer) && d1.dtype.STRING?
    ensures Theta(d1, op, d2, outer, inner) ==> d2.offset + d2.length <= |inner|
    ensures d1.offset + d1.length <= |outer|
    ensures d2.offset + d2.length <= |inner| ==>
      var a, b := outer[d1.offset .. d1.offset + d1.length], inner[d2.offset .. d2.offset + d2.length];
      && (op == LT ==> (Theta(d1, op, d2, outer, inner) <==> StringBelow(a, b)))
      && (op == LTE ==> (Theta(d1, op, d2, outer, inner) <==> !StringBelow(b, a)))
      && (op == EQ ==> (Theta(d1, op, d2, outer, inner) <==> CString(a) == CString(b)))
      && (op == GTE ==> (Theta(d1, op, d2, outer, inner) <==> !StringBelow(a, b)))
      && (op == GT ==> (Theta(d1, op, d2, outer, inner) <==> StringBelow(b, a)))
      && (op == NE ==> (Theta(d1, op, d2, outer, inner) <==> CString(a) != CString(b)))
  {
    hide StringBelow, CString, Strncmp;
    if d2.offset + d2.length <= |inner| {
      StrncmpMeans(Field(d1, outer), Field(d2, inner));
      StrncmpEqual(Field(d1, outer), Field(d2, inner));
    }
  }

  /** The filter of the inner scan while the outer scan stands on a record. */
  function InnerFilter(d1: Attr, op: Operator, d2: Attr, outer: Rec): (f: Filter)
    requires Joinable(d1, d2) && Has(d1, outer)
    ensures f.Ok()
  {
    Filter(d2.offset, d2.length, d2.dtype, Field(d1, outer), Mirror(op))
  }

  /** The subtraction inner.attr2 - outer.attr1 is an int, or its sign does not matter. */
  predicate Exact(d1: Attr, op: Operator, d2: Attr, outer: Rec, inner: Rec)
    requires Joinable(d1, d2) && Has(d1, outer)
  {
    d1.dtype.INTEGER? && !op.EQ? && !op.NE? && Has(d2, inner) ==>
      IsInt(GetInt(Field(d2, inner), 0) - GetInt(Field(d1, outer), 0))
  }

  /** For ints the wrapped subtraction with the mirrored operator decides a op b exactly when b - a is an int. */
  lemma MirrorInt(op: Operator, a: int, b: int)
    requires IsInt(a) && IsInt(b)
    ensures (Satisfies(Mirror(op), IntDiff(b, a)) <==> Satisfies(op, a - b)) <==> (op.EQ? || op.NE? || IsInt(b - a))
  {
  }

  /** The mirrored filter on the inner scan is the join condition, exactly when the comparison does not overflow. */
  lemma PairExact(d1: Attr, op: Operator, d2: Attr, outer: Rec, inner: Rec)
    requires Joinable(d1, d2) && Has(d1, outer)
    ensures (MatchRec(InnerFilter(d1, op, d2, outer), inner) <==> Theta(d1, op, d2, outer, inner))
            <==> Exact(d1, op, d2, outer, inner)
  {
    if Has(d2, inner) {
      var a, b := Field(d1, outer), Field(d2, inner);
      if d1.dtype.INTEGER? {
        MirrorInt(op, GetInt(a, 0), GetInt(b, 0));
      } else {
        StrncmpAntisymmetric(a, b);
        MirrorSatisfies(op, Strncmp(b, a));
      }
    }
  }

  // ---------- the pairs, outer-major ----------

  type Relation = (nat, nat) -> bool

  function RowTo(p: Relation, i: nat, j: nat): seq<(nat, nat)> {
    if j == 0 then [] else RowTo(p, i, j - 1) + (if p(i, j - 1) then [(i, j - 1)] else [])
  }

  /** The pairs (i, j) of p with i < m and j < n, row by row. */
  function RowsTo(p: Relation, m: nat, n: nat): seq<(nat, nat)> {
    if m == 0 then [] else RowsTo(p, m - 1, n) + RowTo(p, m - 1, n)
  }

  predicate PairBefore(x: (nat, nat), y: (nat, nat)) { x.0 < y.0 || (x.0 == y.0 && x.1 < y.1) }

  ghost predicate OuterMajor(s: seq<(nat, nat)>) {
    forall a, b :: 0 <= a < b < |s| ==> PairBefore(s[a], s[b])
  }

  lemma {:induction false} RowExact(p: Relation, i: nat, j: nat)
    ensures OuterMajor(RowTo(p, i, j))
    ensures forall x: (nat, nat) :: x in RowTo(p, i, j) <==> x.0 == i && x.1 < j && p(x.0, x.1)
  {
    if j > 0 { RowExact(p, i, j - 1); }
  }

  /** The listing holds exactly the pairs of the relation, outer-major, and each once. */
  lemma {:induction false} RowsExact(p: Relation, m: nat, n: nat)
    ensures OuterMajor(RowsTo(p, m, n))
    ensures forall x: (nat, nat) :: x in RowsTo(p, m, n) <==> x.0 < m && x.1 < n && p(x.0, x.1)
  {
    if m > 0 {
      RowsExact(p, m - 1, n);
      RowExact(p, m - 1, n);
      var s, t := RowsTo(p, m - 1, n), RowTo(p, m - 1, n);
      forall a, b | 0 <= a < b < |s + t|
        ensures PairBefore((s + t)[a], (s + t)[b])
      {
        if a < |s| <= b { assert s[a] in s && t[b - |s|] in t; }
      }
    }
  }

  lemma {:induction false} RowSame(p: Relation, q: Relation, i: nat, j: nat)
    requires forall b :: 0 <= b < j ==> p(i, b) == q(i, b)
    ensures RowTo(p, i, j) == RowTo(q, i, j)
  {
    if j > 0 { RowSame(p, q, i, j - 1); }
  }

  lemma {:induction false} RowsSame(p: Relation, q: Relation, m: nat, n: nat)
    requires forall a, b :: 0 <= a < m && 0 <= b < n ==> p(a, b) == q(a, b)
    ensures RowsTo(p, m, n) == RowsTo(q, m, n)
  {
    if m > 0 {
      RowsSame(p, q, m - 1, n);
      RowSame(p, q, m - 1, n);
    }
  }

  /** The pairs that the nested loops visit with a match. */
  function Visited(d1: Attr, op: Operator, d2: Attr, outer: seq<Rec>, inner: seq<Rec>): Relation
    requires Joinable(d1, d2) && forall r :: r in outer ==> Has(d1, r)
  {
    (i: nat, j: nat) => i < |outer| && j < |inner| && MatchRec(InnerFilter(d1, op, d2, outer[i]), inner[j])
  }

  /** The pairs of the theta join. */
  function Joined(d1: Attr, op: Operator, d2: Attr, outer: seq<Rec>, inner: seq<Rec>): Relation
    requires Joinable(d1, d2) && forall r :: r in outer ==> Has(d1, r)
  {
    (i: nat, j: nat) => i < |outer| && j < |inner| && Theta(d1, op, d2, outer[i], inner[j])
  }

  /** No comparison of the join overflows. */
  ghost predicate AllExact(d1: Attr, op: Operator, d2: Attr, outer: seq<Rec>, inner: seq<Rec>)
    requires Joinable(d1, d2) && forall r :: r in outer ==> Has(d1, r)
  {
    forall i, j :: 0 <= i < |outer| && 0 <= j < |inner| ==> Exact(d1, op, d2, outer[i], inner[j])
  }

  /**
   The nested loops visit the pairs of the theta join in outer-major order
   exactly when no comparison overflows.
   */
  lemma VisitedIsJoined(d1: Attr, op: Operator, d2: Attr, outer: seq<Rec>, inner: seq<Rec>)
    requires Joinable(d1, d2) && forall r :: r in outer ==> Has(d1, r)
    ensures var m, n := |outer|, |inner|;
            RowsTo(Visited(d1, op, d2, outer, inner), m, n) == RowsTo(Joined(d1, op, d2, outer, inner), m, n)
            <==> AllExact(d1, op, d2, outer, inner)
  {
    hide MatchRec, Theta, Exact, InnerFilter;
    var m, n := |outer|, |inner|;
    var p, q := Visited(d1, op, d2, outer, inner), Joined(d1, op, d2, outer, inner);
    forall i, j | 0 <= i < m && 0 <= j < n
      ensures (p(i, j) == q(i, j)) <==> Exact(d1, op, d2, outer[i], inner[j])
    {
      PairExact(d1, op, d2, outer[i], inner[j]);
    }
    if AllExact(d1, op, d2, outer, inner) {
      RowsSame(p, q, m, n);
    } else {
      var i, j :| 0 <= i < m && 0 <= j < n && !Exact(d1, op, d2, outer[i], inner[j]);
      RowsExact(p, m, n);
      RowsExact(q, m, n);
      assert (i, j) in RowsTo(p, m, n) <==> (i, j) !in RowsTo(q, m, n);
    }
  }

  // ---------- the projection ----------

  /** The records a pair of the join makes available, by the name of their relation. */
  function Bindings(rel1: string, outer: Rec, rel2: string, inner: Rec): map<string, Rec> {
    map[rel2 := inner][rel1 := outer]
  }

  /** The projected attributes all lie in the records that are bound to their relations. */
  ghost predicate Projectable(ds: seq<AttrDesc>, env: map<string, Rec>) {
    forall k :: 0 <= k < |ds| ==> ds[k].relName in env && Has(ds[k].attr, env[ds[k].relName])
  }

  /** The output offset of projected attribute k, and the record length for k == |ds|. */
  function OutputOffset(ds: seq<AttrDesc>, k: nat): int
    requires k <= |ds|
  {
    if k == 0 then 0 else OutputOffset(ds, k - 1) + ds[k - 1].attr.length
  }

  /** The projected fields one after the other. */
  function Projection(ds: seq<AttrDesc>, k: nat, env: map<string, Rec>): (r: Rec)
    requires k <= |ds| && Projectable(ds, env)
    ensures |r| == OutputOffset(ds, k)
  {
    if k == 0 then [] else Projection(ds, k - 1, env) + Field(ds[k - 1].attr, env[ds[k - 1].relName])
  }

  /**
   The fields tile the output record: field k lies at its offset, the fields
   follow each other without gap or overlap and end at the record length.
   */
  lemma {:induction false} ProjectionTiles(ds: seq<AttrDesc>, n: nat, env: map<string, Rec>, k: nat)
    requires k < n <= |ds| && Projectable(ds, env)
    ensures 0 <= OutputOffset(ds, k) < OutputOffset(ds, k) + ds[k].attr.length ==
      OutputOffset(ds, k + 1) <= OutputOffset(ds, n)
    ensures Projection(ds, n, env)[OutputOffset(ds, k) .. OutputOffset(ds, k + 1)] ==
      Field(ds[k].attr, env[ds[k].relName])
    decreases n
  {
    hide Field;
    assert |Projection(ds, k, env)| >= 0 && AttrOk(ds[k].attr) && AttrOk(ds[n - 1].attr);
    if k < n - 1 { ProjectionTiles(ds, n - 1, env, k); }
  }

  /** A field of the outer relation comes from the outer record, another from the inner one. */
  lemma ProjectedField(ds: seq<AttrDesc>, k: nat, rel1: string, outer: Rec, rel2: string, inner: Rec)
    requires k < |ds| && Projectable(ds, Bindings(rel1, outer, rel2, inner))
    ensures var rec := if ds[k].relName == rel1 then outer else inner;
            var o, n := ds[k].attr.offset, ds[k].attr.length;
            && (ds[k].relName == rel1 || ds[k].relName == rel2) && 0 <= o < o + n <= |rec|
            && 0 <= OutputOffset(ds, k) <= OutputOffset(ds, k + 1) <= OutputOffset(ds, |ds|)
            && Projection(ds, |ds|, Bindings(rel1, outer, rel2, inner))[OutputOffset(ds, k) .. OutputOffset(ds, k + 1)]
               == rec[o .. o + n]
  {
    ProjectionTiles(ds, |ds|, Bindings(rel1, outer, rel2, inner), k);
  }

  /** Joining a relation with itself projects only from the outer record. */
  lemma {:induction false} SelfJoinProjectsOuter(ds: seq<AttrDesc>, k: nat, rel: string, outer: Rec, a: Rec, b: Rec)
    requires k <= |ds| && Projectable(ds, Bindings(rel, outer, rel, a)) && Projectable(ds, Bindings(rel, outer, rel, b))
    ensures Projection(ds, k, Bindings(rel, outer, rel, a)) == Projection(ds, k, Bindings(rel, outer, rel, b))
  {
    if k > 0 { SelfJoinProjectsOuter(ds, k - 1, rel, outer, a, b); }
  }
}
