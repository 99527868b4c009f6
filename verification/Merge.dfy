/**
 The merge of sort.cpp as a function of what is left of every run, and its
 correctness: whatever the runs, the records come out in order and none is lost.
 */
module Merge {
  import opened Bytes
  import opened Records
  import opened Compare

  /** reccmp on the fields of two records. */
  function RecCmp(k: Attr, a: Rec, b: Rec): int
    requires Has(k, a) && Has(k, b)
  {
    match k.dtype
    case INTEGER => IntDiff(GetInt(Field(k, a), 0), GetInt(Field(k, b), 0))
    case STRING => Memcmp(Field(k, a), Field(k, b))
  }

  /** Two integer attributes whose difference is an int; strings always compare. */
  predicate Comparable(k: Attr, a: Rec, b: Rec)
    requires Has(k, a) && Has(k, b)
  {
    k.dtype.INTEGER? ==>
      && IsInt(GetInt(Field(k, a), 0) - GetInt(Field(k, b), 0))
      && IsInt(GetInt(Field(k, b), 0) - GetInt(Field(k, a), 0))
  }

  ghost predicate Sortable(k: Attr, rs: multiset<Rec>) {
    && AttrOk(k)
    && (forall r :: r in rs ==> Has(k, r))
    && (forall a, b :: a in rs && b in rs ==> Comparable(k, a, b))
  }

  predicate Leq(k: Attr, a: Rec, b: Rec)
    requires Has(k, a) && Has(k, b)
  {
    RecCmp(k, a, b) <= 0
  }

  /** What the order means: ints by value, strings by the first byte in which they differ. */
  ghost predicate KeyLeq(k: Attr, a: Rec, b: Rec)
    requires Has(k, a) && Has(k, b)
  {
    match k.dtype
    case INTEGER => GetInt(a, k.offset) <= GetInt(b, k.offset)
    case STRING =>
      var x, y := a[k.offset .. k.offset + k.length], b[k.offset .. k.offset + k.length];
      x == y || BytesBelow(x, y)
  }

  /** reccmp puts a first exactly when its key is not the larger one. */
  lemma LeqMeans(k: Attr, a: Rec, b: Rec)
    requires Has(k, a) && Has(k, b) && Comparable(k, a, b)
    ensures Leq(k, a, b) <==> KeyLeq(k, a, b)
    ensures RecCmp(k, a, b) < 0 <==> !KeyLeq(k, b, a)
  {
    hide GetInt, BytesBelow, Memcmp;
    match k.dtype
    case INTEGER =>
      IntInside(a, k.offset, k.length);
      IntInside(b, k.offset, k.length);
      IntDiffExact(GetInt(Field(k, a), 0), GetInt(Field(k, b), 0));
    case STRING =>
      MemcmpMeans(Field(k, a), Field(k, b));
      MemcmpMeans(Field(k, b), Field(k, a));
  }

  /** The keys of the records ascend. */
  ghost predicate Ascending(k: Attr, s: seq<Rec>) {
    && (forall r :: r in s ==> Has(k, r))
    && forall i, j :: 0 <= i < j < |s| ==> KeyLeq(k, s[i], s[j])
  }

  lemma SortedAscends(k: Attr, s: seq<Rec>)
    requires Sortable(k, multiset(s))
    ensures RunOk(k, s) <==> Ascending(k, s)
  {
    hide Has, Comparable, Leq, KeyLeq;
    assert forall i :: 0 <= i < |s| ==> s[i] in multiset(s);
    forall i, j | 0 <= i < j < |s|
      ensures Has(k, s[i]) && Has(k, s[j]) && (Leq(k, s[i], s[j]) <==> KeyLeq(k, s[i], s[j]))
    {
      LeqMeans(k, s[i], s[j]);
    }
  }

  /** reccmp is a total preorder on the records of a sortable file. */
  lemma LeqTotal(k: Attr, a: Rec, b: Rec)
    requires Has(k, a) && Has(k, b) && Comparable(k, a, b)
    ensures Leq(k, a, b) || Leq(k, b, a)
    ensures RecCmp(k, a, b) == -RecCmp(k, b, a)
  {
    match k.dtype
    case INTEGER =>
      IntDiffExact(GetInt(Field(k, a), 0), GetInt(Field(k, b), 0));
      IntDiffExact(GetInt(Field(k, b), 0), GetInt(Field(k, a), 0));
    case STRING => MemcmpAntisymmetric(Field(k, a), Field(k, b));
  }

  lemma LeqTransitive(k: Attr, a: Rec, b: Rec, c: Rec)
    requires Has(k, a) && Has(k, b) && Has(k, c)
    requires Comparable(k, a, b) && Comparable(k, b, c) && Comparable(k, a, c)
    requires Leq(k, a, b) && Leq(k, b, c)
    ensures Leq(k, a, c)
  {
    match k.dtype
    case INTEGER =>
      IntDiffExact(GetInt(Field(k, a), 0), GetInt(Field(k, b), 0));
      IntDiffExact(GetInt(Field(k, b), 0), GetInt(Field(k, c), 0));
      IntDiffExact(GetInt(Field(k, a), 0), GetInt(Field(k, c), 0));
    case STRING => MemcmpTransitive(Field(k, a), Field(k, b), Field(k, c));
  }

  ghost predicate Sorted(k: Attr, s: seq<Rec>)
    requires forall r :: r in s ==> Has(k, r)
  {
    forall i, j :: 0 <= i < j < |s| ==> Leq(k, s[i], s[j])
  }

  // ---------- the merge ----------

  /** All records that the runs still have to deliver. */
  function Pool(rs: seq<seq<Rec>>): multiset<Rec> {
    if rs == [] then multiset{} else multiset(rs[0]) + Pool(rs[1..])
  }

  lemma {:induction false} PoolHas(rs: seq<seq<Rec>>, i: nat)
    requires i < |rs|
    ensures multiset(rs[i]) <= Pool(rs)
  {
    if i > 0 { PoolHas(rs[1..], i - 1); }
  }

  lemma SumSwap<T>(a: multiset<T>, x: multiset<T>, m: multiset<T>, y: multiset<T>, n: multiset<T>)
    requires x + m == y + n
    ensures (a + x) + m == (a + y) + n
  {
    assert (a + x) + m == a + (x + m) && (a + y) + n == a + (y + n);
  }

  lemma {:induction false} PoolUpdate(rs: seq<seq<Rec>>, i: nat, r: seq<Rec>)
    requires i < |rs|
    ensures Pool(rs[i := r]) + multiset(rs[i]) == Pool(rs) + multiset(r)
  {
    if i == 0 {
      assert rs[0 := r][1..] == rs[1..];
      assert multiset(r) + Pool(rs[1..]) + multiset(rs[0]) == multiset(rs[0]) + Pool(rs[1..]) + multiset(r);
    } else {
      PoolUpdate(rs[1..], i - 1, r);
      assert rs[i := r][1..] == rs[1..][i - 1 := r];
      SumSwap(multiset(rs[0]), Pool(rs[1..][i - 1 := r]), multiset(rs[i]), Pool(rs[1..]), multiset(r));
    }
  }

  lemma {:induction false} PoolSource(rs: seq<seq<Rec>>, r: Rec)
    requires r in Pool(rs)
    ensures exists i :: 0 <= i < |rs| && r in rs[i]
  {
    if r in rs[0] {
    } else {
      PoolSource(rs[1..], r);
      var i :| 0 <= i < |rs[1..]| && r in rs[1..][i];
      assert r in rs[i + 1];
    }
  }

  ghost predicate Mergeable(k: Attr, rs: seq<seq<Rec>>) {
    && Sortable(k, Pool(rs))
    && (forall i :: 0 <= i < |rs| ==> RunOk(k, rs[i]))
  }

  ghost predicate RunOk(k: Attr, r: seq<Rec>) {
    (forall x :: x in r ==> Has(k, x)) && Sorted(k, r)
  }

  /** No run is ahead of run i: the runs before it are strictly larger at the head, the others no smaller. */
  ghost predicate Smallest(k: Attr, rs: seq<seq<Rec>>, i: int) {
    && 0 <= i < |rs| && rs[i] != [] && Has(k, rs[i][0])
    && (forall j :: 0 <= j < |rs| && rs[j] != [] ==>
          Has(k, rs[j][0]) && if j < i then RecCmp(k, rs[i][0], rs[j][0]) < 0 else RecCmp(k, rs[i][0], rs[j][0]) <= 0)
  }

  ghost predicate Exhausted(rs: seq<seq<Rec>>) {
    forall i :: 0 <= i < |rs| ==> rs[i] == []
  }

  function Advance(rs: seq<seq<Rec>>, i: nat): seq<seq<Rec>>
    requires i < |rs| && rs[i] != []
  {
    rs[i := rs[i][1..]]
  }

  /** out is what next delivers, call by call, until it reports the end of the file. */
  ghost predicate Delivers(k: Attr, rs: seq<seq<Rec>>, out: seq<Rec>)
    decreases |out|
  {
    if out == [] then Exhausted(rs)
    else exists i :: Smallest(k, rs, i) && out[0] == rs[i][0] && Delivers(k, Advance(rs, i), out[1..])
  }

  lemma TailSorted(k: Attr, r: seq<Rec>)
    requires RunOk(k, r) && r != []
    ensures RunOk(k, r[1..])
  {
    hide Has, RecCmp;
    assert forall x :: x in r[1..] ==> x in r;
  }

  lemma AdvancePool(rs: seq<seq<Rec>>, i: nat)
    requires i < |rs| && rs[i] != []
    ensures Pool(rs) == Pool(Advance(rs, i)) + multiset{rs[i][0]}
  {
    hide Pool;
    var r := rs[i];
    PoolUpdate(rs, i, r[1..]);
    assert r == [r[0]] + r[1..];
    assert multiset(r) == multiset{r[0]} + multiset(r[1..]);
    SumCancel(Pool(rs), Pool(Advance(rs, i)), multiset{r[0]}, multiset(r[1..]));
  }

  lemma SumCancel<T>(a: multiset<T>, b: multiset<T>, x: multiset<T>, y: multiset<T>)
    requires b + (x + y) == a + y
    ensures a == b + x
  {
    assert b + (x + y) == (b + x) + y;
    assert a == (a + y) - y && b + x == ((b + x) + y) - y;
  }

  lemma AdvanceKeeps(k: Attr, rs: seq<seq<Rec>>, i: nat)
    requires Mergeable(k, rs) && i < |rs| && rs[i] != []
    ensures Mergeable(k, Advance(rs, i))
    ensures Pool(rs) == Pool(Advance(rs, i)) + multiset{rs[i][0]}
  {
    hide Has, Comparable, RunOk;
    AdvancePool(rs, i);
    TailSorted(k, rs[i]);
    assert forall x :: x in Pool(Advance(rs, i)) ==> x in Pool(rs);
  }

  /** The head that next picks is a least record of the whole pool. */
  lemma HeadIsLeast(k: Attr, rs: seq<seq<Rec>>, i: nat, x: Rec)
    requires Mergeable(k, rs) && Smallest(k, rs, i) && x in Pool(rs)
    ensures Has(k, x) && Leq(k, rs[i][0], x)
  {
    PoolSource(rs, x);
    var j :| 0 <= j < |rs| && x in rs[j];
    var p :| 0 <= p < |rs[j]| && rs[j][p] == x;
    PoolHas(rs, i);
    PoolHas(rs, j);
    var a, b := rs[i][0], rs[j][0];
    assert a in multiset(rs[i]) && b in multiset(rs[j]);
    assert Comparable(k, a, b) && Comparable(k, b, x) && Comparable(k, a, x);
    assert RunOk(k, rs[j]);
    if p > 0 {
      LeqTransitive(k, a, b, x);
    }
  }

  lemma ConsSorted(k: Attr, x: Rec, s: seq<Rec>)
    requires Has(k, x) && RunOk(k, s) && forall y :: y in s ==> Has(k, y) && Leq(k, x, y)
    ensures RunOk(k, [x] + s)
  {
    hide Has, RecCmp;
    var t := [x] + s;
    forall a, b | 0 <= a < b < |t|
      ensures Has(k, t[a]) && Has(k, t[b]) && Leq(k, t[a], t[b])
    {
      assert t[b] == s[b - 1] && t[b] in s;
      if a > 0 { assert t[a] == s[a - 1] && t[a] in s; }
    }
  }

  lemma MergeStep(k: Attr, rs: seq<seq<Rec>>, i: int, rest: seq<Rec>)
    requires Mergeable(k, rs) && Smallest(k, rs, i)
    requires multiset(rest) == Pool(Advance(rs, i)) && RunOk(k, rest)
    ensures multiset([rs[i][0]] + rest) == Pool(rs) && RunOk(k, [rs[i][0]] + rest)
  {
    hide Has, RecCmp, Mergeable;
    var x := rs[i][0];
    AdvanceKeeps(k, rs, i);
    forall y | y in rest
      ensures Has(k, y) && Leq(k, x, y)
    {
      assert y in multiset(rest);
      HeadIsLeast(k, rs, i, y);
    }
    HeadIsLeast(k, rs, i, x);
    ConsSorted(k, x, rest);
  }

  /** External sorting is correct: what comes out is the pool, with ascending keys. */
  lemma MergeCorrect(k: Attr, rs: seq<seq<Rec>>, out: seq<Rec>)
    requires Mergeable(k, rs) && Delivers(k, rs, out)
    ensures multiset(out) == Pool(rs)
    ensures RunOk(k, out) && Ascending(k, out)
  {
    MergeSorted(k, rs, out);
    SortedAscends(k, out);
  }

  lemma {:induction false} MergeSorted(k: Attr, rs: seq<seq<Rec>>, out: seq<Rec>)
    requires Mergeable(k, rs) && Delivers(k, rs, out)
    ensures multiset(out) == Pool(rs)
    ensures RunOk(k, out)
    decreases |out|
  {
    hide Has, RecCmp, Mergeable, Leq, Advance, Pool;
    if out == [] {
      ExhaustedPool(rs);
    } else {
      var i :| Smallest(k, rs, i) && out[0] == rs[i][0] && Delivers(k, Advance(rs, i), out[1..]);
      AdvanceKeeps(k, rs, i);
      MergeSorted(k, Advance(rs, i), out[1..]);
      MergeStep(k, rs, i, out[1..]);
      assert out == [rs[i][0]] + out[1..];
    }
  }

  lemma {:induction false} ExhaustedPool(rs: seq<seq<Rec>>)
    requires Exhausted(rs)
    ensures Pool(rs) == multiset{}
  {
    if rs != [] { ExhaustedPool(rs[1..]); }
  }

  // ---------- ties ----------

  /** Two records have the same key. */
  predicate Ties(k: Attr, a: Rec, b: Rec) {
    && Has(k, a) && Has(k, b)
    && match k.dtype
       case INTEGER => GetInt(a, k.offset) == GetInt(b, k.offset)
       case STRING => a[k.offset .. k.offset + k.length] == b[k.offset .. k.offset + k.length]
  }

  /** The records with the key of x, in their order. */
  function Tied(k: Attr, s: seq<Rec>, x: Rec): seq<Rec> {
    if s == [] then [] else (if Ties(k, s[0], x) then [s[0]] else []) + Tied(k, s[1..], x)
  }

  /** The same of several runs, run by run. */
  function TiedRuns(k: Attr, rs: seq<seq<Rec>>, x: Rec): seq<Rec> {
    if rs == [] then [] else Tied(k, rs[0], x) + TiedRuns(k, rs[1..], x)
  }

  lemma {:induction false} NoTies(k: Attr, s: seq<Rec>, x: Rec)
    requires forall y :: y in s ==> !Ties(k, y, x)
    ensures Tied(k, s, x) == []
  {
    hide Ties;
    if s != [] { NoTies(k, s[1..], x); }
  }

  /** A run with a larger head than a record has none of its key. */
  lemma RunAbove(k: Attr, rs: seq<seq<Rec>>, i: int, j: int, x: Rec)
    requires Mergeable(k, rs) && Smallest(k, rs, i) && 0 <= j < i && Ties(k, rs[i][0], x)
    ensures Tied(k, rs[j], x) == []
  {
    hide RecCmp, KeyLeq;
    var r, h := rs[j], rs[i][0];
    assert RunOk(k, r);
    PoolHas(rs, i);
    PoolHas(rs, j);
    assert h in multiset(rs[i]);
    forall y | y in r
      ensures !Ties(k, y, x)
    {
      var p :| 0 <= p < |r| && r[p] == y;
      assert y in multiset(r) && r[0] in multiset(r);
      LeqMeans(k, h, r[0]);
      if p > 0 { LeqMeans(k, r[0], y); }
      NotBetween(k, r[0], y, h, x);
    }
    NoTies(k, r, x);
  }

  lemma NotBetween(k: Attr, a: Rec, y: Rec, h: Rec, x: Rec)
    requires Has(k, a) && Has(k, y) && Ties(k, h, x) && !KeyLeq(k, a, h) && (y == a || KeyLeq(k, a, y))
    ensures !Ties(k, y, x)
  {
    hide GetInt, BytesBelow;
  }

  /** Taking the head of run i takes the first of the tied records, if it is one and no earlier run has any. */
  lemma {:induction false} TiedAdvance(k: Attr, rs: seq<seq<Rec>>, i: nat, x: Rec)
    requires i < |rs| && rs[i] != []
    requires Ties(k, rs[i][0], x) ==> forall j :: 0 <= j < i ==> Tied(k, rs[j], x) == []
    ensures TiedRuns(k, rs, x) == (if Ties(k, rs[i][0], x) then [rs[i][0]] else []) + TiedRuns(k, Advance(rs, i), x)
  {
    hide Ties;
    if i == 0 {
      assert Advance(rs, 0)[1..] == rs[1..];
    } else {
      TiedAdvance(k, rs[1..], i - 1, x);
      assert Advance(rs, i)[1..] == Advance(rs[1..], i - 1);
    }
  }

  /** The merge is stable: records of one key come out in the order of their runs, and within a run in its order. */
  lemma {:induction false} MergeStable(k: Attr, rs: seq<seq<Rec>>, out: seq<Rec>, x: Rec)
    requires Mergeable(k, rs) && Delivers(k, rs, out)
    ensures Tied(k, out, x) == TiedRuns(k, rs, x)
    decreases |out|
  {
    hide Mergeable, Ties, Advance;
    if out == [] {
      NothingTied(k, rs, x);
    } else {
      var i :| Smallest(k, rs, i) && out[0] == rs[i][0] && Delivers(k, Advance(rs, i), out[1..]);
      AdvanceKeeps(k, rs, i);
      MergeStable(k, Advance(rs, i), out[1..], x);
      if Ties(k, rs[i][0], x) {
        forall j | 0 <= j < i
          ensures Tied(k, rs[j], x) == []
        {
          RunAbove(k, rs, i, j, x);
        }
      }
      TiedAdvance(k, rs, i, x);
    }
  }

  ghost predicate Stable(k: Attr, rs: seq<seq<Rec>>, out: seq<Rec>) {
    forall x :: Tied(k, out, x) == TiedRuns(k, rs, x)
  }

  lemma {:induction false} NothingTied(k: Attr, rs: seq<seq<Rec>>, x: Rec)
    requires Exhausted(rs)
    ensures TiedRuns(k, rs, x) == []
  {
    if rs != [] { NothingTied(k, rs[1..], x); }
  }

  lemma OneSmallest(k: Attr, rs: seq<seq<Rec>>, i: int, j: int)
    requires Mergeable(k, rs) && Smallest(k, rs, i) && Smallest(k, rs, j)
    ensures i == j
  {
    PoolHas(rs, i);
    PoolHas(rs, j);
    assert rs[i][0] in multiset(rs[i]) && rs[j][0] in multiset(rs[j]);
    LeqTotal(k, rs[i][0], rs[j][0]);
  }

  /** What next delivers is determined by what is left of the runs. */
  lemma {:induction false} DeliversUnique(k: Attr, rs: seq<seq<Rec>>, a: seq<Rec>, b: seq<Rec>)
    requires Mergeable(k, rs) && Delivers(k, rs, a) && Delivers(k, rs, b)
    ensures a == b
    decreases |a|
  {
    hide Has, RecCmp, Mergeable;
    if a != [] && b != [] {
      var i :| Smallest(k, rs, i) && a[0] == rs[i][0] && Delivers(k, Advance(rs, i), a[1..]);
      var j :| Smallest(k, rs, j) && b[0] == rs[j][0] && Delivers(k, Advance(rs, j), b[1..]);
      OneSmallest(k, rs, i, j);
      AdvanceKeeps(k, rs, i);
      DeliversUnique(k, Advance(rs, i), a[1..], b[1..]);
      assert a == [a[0]] + a[1..] && b == [b[0]] + b[1..];
    }
  }
}
