/**
 What a scan over the pages of a heap file returns, as a function of the pages
 along the chain, and the theorems about it.  A position is a page of the chain
 and a slot of that page.
 */
module HeapSpec {
  import opened Bytes
  import opened PageView
  import opened Page
  import opened Compare

  datatype Pos = Pos(page: int, slot: int)

  /** Where a freshly opened scan stands: before the first slot of the first page. */
  const START := Pos(0, -1)

  predicate AtPage(vs: seq<View>, p: Pos) { 0 <= p.page < |vs| && -1 <= p.slot }

  predicate InBoundsAll(vs: seq<View>) {
    forall j :: 0 <= j < |vs| ==> InBounds(|vs[j].data|, vs[j].slots)
  }

  predicate UsedAt(vs: seq<View>, p: Pos) {
    0 <= p.page < |vs| && 0 <= p.slot < |vs[p.page].slots| && vs[p.page].slots[p.slot].Used()
  }

  datatype Found = NoMore | At(pos: Pos)

  /** nextRecord on the current page, then firstRecord on the following pages, skipping empty ones. */
  function Next(vs: seq<View>, p: Pos): (r: Found)
    requires AtPage(vs, p)
    ensures r.At? ==> UsedAt(vs, r.pos)
    ensures r.At? ==> p.page < r.pos.page || (p.page == r.pos.page && p.slot < r.pos.slot)
    decreases |vs| - p.page
  {
    var k := NextUsed(vs[p.page].slots, p.slot + 1);
    if k < |vs[p.page].slots| then At(Pos(p.page, k))
    else if p.page + 1 < |vs| then Next(vs, Pos(p.page + 1, -1))
    else NoMore
  }

  function RecAt(vs: seq<View>, p: Pos): seq<Byte>
    requires InBoundsAll(vs) && UsedAt(vs, p)
  {
    RecordAt(vs[p.page], p.slot)
  }

  /** The number of directory entries beyond a position, over the rest of the chain. */
  function Remaining(vs: seq<View>, p: Pos): (n: nat)
    requires AtPage(vs, p)
    decreases |vs| - p.page
  {
    (if p.slot < |vs[p.page].slots| then |vs[p.page].slots| - p.slot else 0)
    + if p.page + 1 < |vs| then 1 + Remaining(vs, Pos(p.page + 1, -1)) else 0
  }

  lemma {:induction false} NextCloser(vs: seq<View>, p: Pos)
    requires AtPage(vs, p)
    ensures Next(vs, p).At? ==> AtPage(vs, Next(vs, p).pos) && Remaining(vs, Next(vs, p).pos) < Remaining(vs, p)
    decreases |vs| - p.page
  {
    if NextUsed(vs[p.page].slots, p.slot + 1) >= |vs[p.page].slots| && p.page + 1 < |vs| {
      NextCloser(vs, Pos(p.page + 1, -1));
    }
  }

  datatype Scanned = Eof | Unreadable(pos: Pos) | Hit(pos: Pos)

  /** One call of scanNext: it stops at a match, at a record it cannot read, or at the end of the file. */
  function ScanNext(vs: seq<View>, p: Pos, f: Filter): (r: Scanned)
    requires AtPage(vs, p) && InBoundsAll(vs) && f.Ok()
    ensures !r.Eof? ==> UsedAt(vs, r.pos) && Remaining(vs, r.pos) < Remaining(vs, p) && p.page <= r.pos.page
    decreases Remaining(vs, p)
  {
    NextCloser(vs, p);
    match Next(vs, p)
    case NoMore => Eof
    case At(q) =>
      if RecAt(vs, q) == [] then Unreadable(q)
      else if MatchRec(f, RecAt(vs, q)) then Hit(q)
      else ScanNext(vs, q, f)
  }

  /** The last of n pages that the scan must read to come to this result. */
  function Reach(r: Scanned, n: int): int {
    match r
    case Eof => n - 1
    case Hit(q) => q.page
    case Unreadable(q) => q.page
  }

  /** When no record is left on the pages up to c, the scan has to read page c + 1. */
  lemma ReachBeyond(vs: seq<View>, p: Pos, c: int, f: Filter)
    requires AtPage(vs, p) && InBoundsAll(vs) && f.Ok() && 0 <= c && c + 1 < |vs|
    requires Next(vs, p) == Next(vs, Pos(c + 1, -1))
    ensures c < Reach(ScanNext(vs, p, f), |vs|)
  {
  }

  /** Everything the scan returns until it stops. */
  function Drain(vs: seq<View>, p: Pos, f: Filter): seq<Pos>
    requires AtPage(vs, p) && InBoundsAll(vs) && f.Ok()
    decreases Remaining(vs, p)
  {
    match ScanNext(vs, p, f)
    case Hit(q) => [q] + Drain(vs, q, f)
    case _ => []
  }

  // ---------- the reference: chain order, then slot order ----------

  function UsedFrom(slots: seq<Slot>, i: nat): seq<int>
    decreases |slots| - i
  {
    if i >= |slots| then [] else (if slots[i].Used() then [i] else []) + UsedFrom(slots, i + 1)
  }

  function OnPage(j: int, ss: seq<int>): (r: seq<Pos>)
    ensures |r| == |ss| && forall k :: 0 <= k < |ss| ==> r[k] == Pos(j, ss[k])
  {
    seq(|ss|, k requires 0 <= k < |ss| => Pos(j, ss[k]))
  }

  function Positions(vs: seq<View>, j: nat): seq<Pos>
    requires j <= |vs|
    decreases |vs| - j
  {
    if j == |vs| then [] else OnPage(j, UsedFrom(vs[j].slots, 0)) + Positions(vs, j + 1)
  }

  function After(vs: seq<View>, p: Pos): seq<Pos>
    requires AtPage(vs, p)
  {
    OnPage(p.page, UsedFrom(vs[p.page].slots, p.slot + 1)) + Positions(vs, p.page + 1)
  }

  function Selected(vs: seq<View>, ps: seq<Pos>, f: Filter): seq<Pos>
    requires InBoundsAll(vs) && f.Ok() && forall p :: p in ps ==> UsedAt(vs, p)
  {
    if ps == [] then []
    else (if MatchRec(f, RecAt(vs, ps[0])) then [ps[0]] else []) + Selected(vs, ps[1..], f)
  }

  /** The positions before the first record of length zero, where a scan has to stop. */
  function Readable(vs: seq<View>, ps: seq<Pos>): (r: seq<Pos>)
    requires InBoundsAll(vs) && forall p :: p in ps ==> UsedAt(vs, p)
    ensures r <= ps && forall p :: p in r ==> p in ps
  {
    if ps == [] || RecAt(vs, ps[0]) == [] then [] else [ps[0]] + Readable(vs, ps[1..])
  }

  /** How a scan over these positions ends. */
  function EndOf(vs: seq<View>, ps: seq<Pos>): (r: Scanned)
    requires InBoundsAll(vs) && forall p :: p in ps ==> UsedAt(vs, p)
    ensures !r.Hit?
  {
    if ps == [] then Eof else if RecAt(vs, ps[0]) == [] then Unreadable(ps[0]) else EndOf(vs, ps[1..])
  }

  /** It ends with the file exactly when it can read everything. */
  lemma {:induction false} EndExact(vs: seq<View>, ps: seq<Pos>)
    requires InBoundsAll(vs) && forall p :: p in ps ==> UsedAt(vs, p)
    ensures EndOf(vs, ps) == Eof <==> forall p :: p in ps ==> RecAt(vs, p) != []
    ensures EndOf(vs, ps) == Eof ==> Readable(vs, ps) == ps
  {
    hide RecAt;
    if ps != [] {
      EndExact(vs, ps[1..]);
      assert forall p :: p in ps <==> p == ps[0] || p in ps[1..];
    }
  }

  /** How a scan from p on ends. */
  ghost function Ending(vs: seq<View>, p: Pos): (r: Scanned)
    requires AtPage(vs, p) && InBoundsAll(vs)
    ensures !r.Hit?
  {
    AfterUsed(vs, p);
    EndOf(vs, After(vs, p))
  }

  lemma EndReach(vs: seq<View>, p: Pos)
    requires AtPage(vs, p) && InBoundsAll(vs)
    ensures 0 <= Reach(Ending(vs, p), |vs|) < |vs|
  {
    hide After, EndOf;
    AfterUsed(vs, p);
    EndWithin(vs, After(vs, p));
  }

  /** One call comes no further than the whole scan, and leaves its end where it was. */
  lemma EndingAhead(vs: seq<View>, p: Pos, f: Filter)
    requires AtPage(vs, p) && InBoundsAll(vs) && f.Ok()
    ensures Reach(ScanNext(vs, p, f), |vs|) <= Reach(Ending(vs, p), |vs|)
    ensures match ScanNext(vs, p, f)
            case Hit(q) => Ending(vs, q) == Ending(vs, p)
            case r => Ending(vs, p) == r
  {
    hide MatchRec, ScanNext, After, Readable, Selected, EndOf;
    AfterUsed(vs, p);
    ScanNextSelects(vs, p, f);
    match ScanNext(vs, p, f)
    case Hit(q) =>
      AfterUsed(vs, q);
      EndWithin(vs, After(vs, q));
    case _ =>
  }

  lemma {:induction false} EndWithin(vs: seq<View>, ps: seq<Pos>)
    requires InBoundsAll(vs) && forall p :: p in ps ==> UsedAt(vs, p)
    ensures EndOf(vs, ps) == Eof || EndOf(vs, ps).pos in ps
  {
    hide RecAt;
    if ps != [] { EndWithin(vs, ps[1..]); }
  }

  /** In a file without records of length zero a scan reads everything. */
  lemma AllReadable(vs: seq<View>, ps: seq<Pos>)
    requires InBoundsAll(vs) && NoEmptyRecords(vs) && forall p :: p in ps ==> UsedAt(vs, p)
    ensures EndOf(vs, ps) == Eof && Readable(vs, ps) == ps
  {
    EndExact(vs, ps);
    forall p | p in ps
      ensures RecAt(vs, p) != []
    {
      assert vs[p.page].slots[p.slot].length != 0;
    }
  }

  predicate NoEmptyRecords(vs: seq<View>) {
    forall j, i :: 0 <= j < |vs| && 0 <= i < |vs[j].slots| ==> vs[j].slots[i].length != 0
  }

  lemma {:induction false} UsedFromNext(slots: seq<Slot>, i: nat)
    ensures var k := NextUsed(slots, i);
            UsedFrom(slots, i) == if k < |slots| then [k] + UsedFrom(slots, k + 1) else []
    decreases |slots| - i
  {
    if i < |slots| {
      if slots[i].Used() {
        assert NextUsed(slots, i) == i;
      } else {
        UsedFromNext(slots, i + 1);
        assert [] + UsedFrom(slots, i + 1) == UsedFrom(slots, i + 1);
      }
    }
  }

  lemma OnPageCons(j: int, k: int, ss: seq<int>, rest: seq<Pos>)
    ensures OnPage(j, [k] + ss) + rest == [Pos(j, k)] + (OnPage(j, ss) + rest)
  {
    assert OnPage(j, [k] + ss) == [Pos(j, k)] + OnPage(j, ss);
  }

  lemma EmptyPage(j: int, rest: seq<Pos>)
    ensures OnPage(j, []) + rest == rest
  {
  }

  /** A record is left on the page of p. */
  lemma {:induction false} NextHere(vs: seq<View>, p: Pos)
    requires AtPage(vs, p) && NextUsed(vs[p.page].slots, p.slot + 1) < |vs[p.page].slots|
    ensures var q := Pos(p.page, NextUsed(vs[p.page].slots, p.slot + 1));
            Next(vs, p) == At(q) && After(vs, p) == [q] + After(vs, q)
  {
    hide OnPage, UsedFrom, NextUsed, Positions;
    var slots := vs[p.page].slots;
    var k := NextUsed(slots, p.slot + 1);
    UsedFromNext(slots, p.slot + 1);
    OnPageCons(p.page, k, UsedFrom(slots, k + 1), Positions(vs, p.page + 1));
  }

  /** Nothing is left on the page of p. */
  lemma {:induction false} NothingHere(vs: seq<View>, p: Pos)
    requires AtPage(vs, p) && NextUsed(vs[p.page].slots, p.slot + 1) >= |vs[p.page].slots|
    ensures After(vs, p) == if p.page + 1 == |vs| then [] else After(vs, Pos(p.page + 1, -1))
  {
    hide OnPage, UsedFrom, NextUsed, Positions, Slot.Used;
    UsedFromNext(vs[p.page].slots, p.slot + 1);
    PageStart(vs, p.page + 1);
    EmptyPage(p.page, Positions(vs, p.page + 1));
  }

  /** The scan moves to the head of what lies ahead, and leaves the tail ahead. */
  lemma {:induction false} NextIsHead(vs: seq<View>, p: Pos)
    requires AtPage(vs, p)
    ensures match Next(vs, p)
            case NoMore => After(vs, p) == []
            case At(q) => AtPage(vs, q) && After(vs, p) == [q] + After(vs, q)
    decreases |vs| - p.page
  {
    hide After, NextUsed;
    if NextUsed(vs[p.page].slots, p.slot + 1) < |vs[p.page].slots| {
      NextHere(vs, p);
    } else {
      NothingHere(vs, p);
      if p.page + 1 < |vs| { NextIsHead(vs, Pos(p.page + 1, -1)); }
    }
  }

  lemma {:induction false} PageStart(vs: seq<View>, j: nat)
    requires j <= |vs|
    ensures Positions(vs, j) == if j == |vs| then [] else After(vs, Pos(j, -1))
  {
    hide OnPage, UsedFrom;
  }

  lemma {:induction false} UsedFromExact(slots: seq<Slot>, i: nat)
    ensures forall k :: k in UsedFrom(slots, i) <==> i <= k < |slots| && slots[k].Used()
    ensures forall a, b :: 0 <= a < b < |UsedFrom(slots, i)| ==> UsedFrom(slots, i)[a] < UsedFrom(slots, i)[b]
    decreases |slots| - i
  {
    if i < |slots| {
      UsedFromExact(slots, i + 1);
      var rest := UsedFrom(slots, i + 1);
      assert forall a :: 0 <= a < |rest| ==> rest[a] in rest;
    }
  }

  predicate Before(p: Pos, q: Pos) { p.page < q.page || (p.page == q.page && p.slot < q.slot) }

  lemma OnPageExact(vs: seq<View>, j: nat, i: nat)
    requires j < |vs|
    ensures forall p :: p in OnPage(j, UsedFrom(vs[j].slots, i)) <==> p.page == j && i <= p.slot && UsedAt(vs, p)
  {
    var ss := UsedFrom(vs[j].slots, i);
    UsedFromExact(vs[j].slots, i);
    forall p: Pos
      ensures p in OnPage(j, ss) <==> p.page == j && i <= p.slot && UsedAt(vs, p)
    {
      if p in OnPage(j, ss) {
        var k :| 0 <= k < |ss| && OnPage(j, ss)[k] == p;
        assert ss[k] in ss;
      }
      if p.page == j && p.slot in ss {
        var k :| 0 <= k < |ss| && ss[k] == p.slot;
        assert OnPage(j, ss)[k] == p;
      }
    }
  }

  /** The reference lists every used slot of the chain, each once. */
  lemma {:induction false} PositionsExact(vs: seq<View>, j: nat)
    requires j <= |vs|
    ensures forall p :: p in Positions(vs, j) <==> j <= p.page && UsedAt(vs, p)
    ensures forall a, b :: 0 <= a < b < |Positions(vs, j)| ==> Before(Positions(vs, j)[a], Positions(vs, j)[b])
    decreases |vs| - j
  {
    if j < |vs| {
      PositionsExact(vs, j + 1);
      UsedFromExact(vs[j].slots, 0);
      OnPageExact(vs, j, 0);
      var rest := Positions(vs, j + 1);
      forall a | 0 <= a < |rest|
        ensures rest[a].page > j
      {
        assert rest[a] in rest;
      }
    }
  }

  lemma AfterUsed(vs: seq<View>, p: Pos)
    requires AtPage(vs, p)
    ensures forall q :: q in After(vs, p) ==> UsedAt(vs, q) && Before(p, q)
  {
    OnPageExact(vs, p.page, p.slot + 1);
    PositionsExact(vs, p.page + 1);
  }

  /**
   One call returns the first match ahead, and skips only records that do not
   match; it stops at a record of length zero, and reports the end of the file
   only when nothing is left.
   */
  lemma {:induction false} ScanNextSelects(vs: seq<View>, p: Pos, f: Filter)
    requires AtPage(vs, p) && InBoundsAll(vs) && f.Ok()
    requires forall q :: q in After(vs, p) ==> UsedAt(vs, q)
    ensures ScanNext(vs, p, f).Hit? ==> forall r :: r in After(vs, ScanNext(vs, p, f).pos) ==> r in After(vs, p)
    ensures match ScanNext(vs, p, f)
            case Hit(q) =>
              && Selected(vs, Readable(vs, After(vs, p)), f) == [q] + Selected(vs, Readable(vs, After(vs, q)), f)
              && EndOf(vs, After(vs, p)) == EndOf(vs, After(vs, q))
            case r => Selected(vs, Readable(vs, After(vs, p)), f) == [] && EndOf(vs, After(vs, p)) == r
    decreases Remaining(vs, p)
  {
    hide MatchRec, RecAt, After, Next;
    NextCloser(vs, p);
    NextIsHead(vs, p);
    if Next(vs, p).At? {
      var q := Next(vs, p).pos;
      assert (After(vs, p))[1..] == After(vs, q);
      if RecAt(vs, q) != [] {
        assert Readable(vs, After(vs, p))[1..] == Readable(vs, After(vs, q));
        if !MatchRec(f, RecAt(vs, q)) { ScanNextSelects(vs, q, f); }
      }
    }
  }

  /**
   A freshly opened scan returns exactly the matching records, in chain order and
   then slot order, each once, up to a record of length zero.
   */
  lemma {:induction false} DrainExact(vs: seq<View>, p: Pos, f: Filter)
    requires AtPage(vs, p) && InBoundsAll(vs) && f.Ok()
    ensures forall q :: q in After(vs, p) ==> UsedAt(vs, q)
    ensures Drain(vs, p, f) == Selected(vs, Readable(vs, After(vs, p)), f)
    decreases Remaining(vs, p)
  {
    hide After, Readable, Selected, EndOf;
    AfterUsed(vs, p);
    ScanNextSelects(vs, p, f);
    match ScanNext(vs, p, f)
    case Hit(q) => DrainExact(vs, q, f);
    case _ =>
  }

  ghost predicate InScanOrder(ps: seq<Pos>) {
    forall a, b :: 0 <= a < b < |ps| ==> Before(ps[a], ps[b])
  }

  lemma InScanOrderCons(p: Pos, ps: seq<Pos>)
    ensures InScanOrder([]) && (InScanOrder([p] + ps) <==> InScanOrder(ps) && forall q :: q in ps ==> Before(p, q))
  {
    var qs := [p] + ps;
    assert qs[1..] == ps;
    if InScanOrder(qs) {
      forall a, b | 0 <= a < b < |ps|
        ensures Before(ps[a], ps[b])
      {
        assert Before(qs[a + 1], qs[b + 1]);
      }
      forall q | q in ps
        ensures Before(p, q)
      {
        var b :| 0 <= b < |ps| && ps[b] == q;
        assert qs[b + 1] == q && Before(qs[0], qs[b + 1]);
      }
    }
  }

  /** What can be read lies before every record of length zero. */
  lemma {:induction false} ReadableExact(vs: seq<View>, ps: seq<Pos>)
    requires InBoundsAll(vs) && InScanOrder(ps) && forall p :: p in ps ==> UsedAt(vs, p)
    ensures InScanOrder(Readable(vs, ps))
    ensures forall p :: p in Readable(vs, ps) <==>
      p in ps && forall q :: q in ps && (q == p || Before(q, p)) ==> RecAt(vs, q) != []
  {
    hide RecAt, UsedAt, InScanOrder;
    if ps == [] {
      InScanOrderCons(START, []);
    } else {
      var rest := ps[1..];
      assert ps == [ps[0]] + rest;
      InScanOrderCons(ps[0], rest);
      ReadableExact(vs, rest);
      InScanOrderCons(ps[0], Readable(vs, rest));
      assert forall p :: p in ps <==> p == ps[0] || p in rest;
    }
  }

  lemma {:induction false} SelectedExact(vs: seq<View>, ps: seq<Pos>, f: Filter)
    requires InBoundsAll(vs) && f.Ok() && InScanOrder(ps) && forall p :: p in ps ==> UsedAt(vs, p)
    ensures InScanOrder(Selected(vs, ps, f))
    ensures forall p :: p in Selected(vs, ps, f) <==> p in ps && MatchRec(f, RecAt(vs, p))
  {
    hide RecAt, MatchRec;
    if ps != [] {
      var rest := ps[1..];
      assert ps == [ps[0]] + rest;
      InScanOrderCons(ps[0], rest);
      SelectedExact(vs, rest, f);
      InScanOrderCons(ps[0], Selected(vs, rest, f));
      assert forall p :: p in ps <==> p == ps[0] || p in rest;
    }
  }

  /**
   What a whole scan returns, without the code: the used slots whose records match
   and that no record of length zero precedes, by page of the chain and then slot.
   */
  lemma ScanReturns(vs: seq<View>, f: Filter)
    requires vs != [] && InBoundsAll(vs) && f.Ok()
    ensures InScanOrder(Drain(vs, START, f))
    ensures forall p :: p in Drain(vs, START, f) <==>
      && UsedAt(vs, p) && MatchRec(f, RecAt(vs, p))
      && forall q :: UsedAt(vs, q) && (q == p || Before(q, p)) ==> RecAt(vs, q) != []
  {
    hide MatchRec, RecAt, Drain, After, Readable, Selected, Positions;
    DrainExact(vs, START, f);
    StartCoversAll(vs);
    PositionsExact(vs, 0);
    ReadableExact(vs, Positions(vs, 0));
    SelectedExact(vs, Readable(vs, Positions(vs, 0)), f);
  }

  lemma StartCoversAll(vs: seq<View>)
    requires vs != []
    ensures After(vs, START) == Positions(vs, 0)
  {
  }

  /** scanNext after endScan: it gives up at once when the first page is empty. */
  function Restart(vs: seq<View>, f: Filter): Scanned
    requires vs != [] && InBoundsAll(vs) && f.Ok()
  {
    if NextUsed(vs[0].slots, 0) >= |vs[0].slots| then Eof else ScanNext(vs, START, f)
  }

  /** No record of the file matches, and all can be read. */
  ghost predicate NoMatch(vs: seq<View>, f: Filter)
    requires InBoundsAll(vs) && f.Ok()
  {
    forall p :: UsedAt(vs, p) ==> RecAt(vs, p) != [] && !MatchRec(f, RecAt(vs, p))
  }

  /**
   A restarted scan finds what a fresh one finds exactly when the first page
   holds a record or no record of the file matches and none has length zero.
   */
  lemma RestartExact(vs: seq<View>, f: Filter)
    requires vs != [] && InBoundsAll(vs) && f.Ok()
    ensures Restart(vs, f) == ScanNext(vs, START, f) <==> UsedFrom(vs[0].slots, 0) != [] || NoMatch(vs, f)
  {
    hide NextUsed, NoMatch;
    UsedFromNext(vs[0].slots, 0);
    NoneMatches(vs, f);
  }

  /** The restarted scan misses a record when the page before it is empty. */
  lemma RestartExample()
    ensures var vs := [Fresh(2).(next := 3), Insert(Fresh(3), [65])];
            && InBoundsAll(vs) && NoFilter.Ok()
            && Restart(vs, NoFilter) == Eof && ScanNext(vs, START, NoFilter) == Hit(Pos(1, 0))
  {
    var vs := [Fresh(2).(next := 3), Insert(Fresh(3), [65])];
    assert vs[1].slots == [Slot(0, 1)] && vs[1].data == [65];
    assert NextUsed(vs[1].slots, 0) == 0;
    assert Next(vs, START) == At(Pos(1, 0));
    assert RecAt(vs, Pos(1, 0)) == [65];
  }

  /** The first call reports the end of the file exactly when no record matches or stops it. */
  lemma NoneMatches(vs: seq<View>, f: Filter)
    requires vs != [] && InBoundsAll(vs) && f.Ok()
    ensures ScanNext(vs, START, f) == Eof <==> NoMatch(vs, f)
  {
    hide MatchRec, ScanNext, Next, After;
    StartCoversAll(vs);
    PositionsExact(vs, 0);
    AfterUsed(vs, START);
    ScanNextSelects(vs, START, f);
    EndExact(vs, Positions(vs, 0));
    SelectedNone(vs, Readable(vs, Positions(vs, 0)), f);
    assert forall p :: UsedAt(vs, p) <==> p in Positions(vs, 0);
  }

  lemma {:induction false} SelectedNone(vs: seq<View>, ps: seq<Pos>, f: Filter)
    requires InBoundsAll(vs) && f.Ok() && forall p :: p in ps ==> UsedAt(vs, p)
    ensures Selected(vs, ps, f) == [] <==> forall p :: p in ps ==> !MatchRec(f, RecAt(vs, p))
  {
    hide MatchRec, RecAt;
    if ps != [] {
      SelectedNone(vs, ps[1..], f);
      assert forall p :: p in ps <==> p == ps[0] || p in ps[1..];
    }
  }
}
