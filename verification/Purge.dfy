/**
 Deleting under the cursor: a scan that deletes the current record whenever a
 predicate holds, as the clients of HeapFileScan::deleteRecord do.
 */
module Purge {
  import opened Bytes
  import opened PageView
  import opened HeapSpec

  predicate TidyAll(vs: seq<View>) {
    forall j :: 0 <= j < |vs| ==> Tidy(vs[j])
  }

  /** HeapFileScan::deleteRecord at a position. */
  function DeleteAt(vs: seq<View>, q: Pos): seq<View>
    requires TidyAll(vs) && 0 <= q.page < |vs| && PageView.Live(vs[q.page], q.slot)
  {
    vs[q.page := Delete(vs[q.page], q.slot)]
  }

  /** Two directories with the same used slots from a on list the same slots. */
  lemma {:induction false} UsedFromSame(s: seq<Slot>, t: seq<Slot>, a: nat)
    requires forall i :: a <= i ==> ((i < |s| && s[i].Used()) <==> (i < |t| && t[i].Used()))
    ensures UsedFrom(s, a) == UsedFrom(t, a)
    decreases (if |s| < |t| then |t| else |s|) - a
  {
    if a < |s| || a < |t| {
      assert (a < |s| && s[a].Used()) <==> (a < |t| && t[a].Used());
      UsedFromSame(s, t, a + 1);
    }
  }

  /** A deletion, even one that pops several trailing slots, leaves the used slots beyond it alone. */
  lemma DeleteAhead(v: View, k: nat, i: nat)
    requires Tidy(v) && PageView.Live(v, k) && i != k
    ensures (i < |Delete(v, k).slots| && Delete(v, k).slots[i].Used()) <==> (i < |v.slots| && v.slots[i].Used())
  {
    var w, d := Squeeze(v, k), Delete(v, k);
    if i < |v.slots| {
      assert w.slots[i].length == v.slots[i].length;
      assert i < |d.slots| ==> d.slots[i] == w.slots[i];
    }
  }

  lemma DeleteKeepsAfter(vs: seq<View>, q: Pos)
    requires TidyAll(vs) && 0 <= q.page < |vs| && PageView.Live(vs[q.page], q.slot)
    ensures TidyAll(DeleteAt(vs, q)) && After(DeleteAt(vs, q), q) == After(vs, q)
  {
    hide Tidy, UsedFrom;
    var v, ws := vs[q.page], DeleteAt(vs, q);
    BoundsOf(vs, q.page);
    DeleteTidy(v, q.slot);
    forall i | q.slot + 1 <= i
      ensures (i < |v.slots| && v.slots[i].Used()) <==>
        (i < |Delete(v, q.slot).slots| && Delete(v, q.slot).slots[i].Used())
    {
      DeleteAhead(v, q.slot, i);
    }
    UsedFromSame(v.slots, Delete(v, q.slot).slots, q.slot + 1);
    PositionsSame(vs, ws, q.page + 1);
  }

  lemma {:induction false} PositionsSame(vs: seq<View>, ws: seq<View>, j: nat)
    requires |vs| == |ws| && j <= |vs| && vs[j..] == ws[j..]
    ensures Positions(vs, j) == Positions(ws, j)
    decreases |vs| - j
  {
    if j < |vs| {
      assert vs[j] == vs[j..][0] == ws[j..][0] == ws[j];
      assert vs[j + 1..] == vs[j..][1..] && ws[j + 1..] == ws[j..][1..];
      PositionsSame(vs, ws, j + 1);
    }
  }

  /** One turn of the loop: the record at q goes if the predicate holds of it. */
  function Turn(vs: seq<View>, q: Pos, pred: seq<Byte> -> bool): seq<View>
    requires TidyAll(vs) && 0 <= q.page < |vs| && PageView.Live(vs[q.page], q.slot)
  {
    if pred(RecordAt(vs[q.page], q.slot)) then DeleteAt(vs, q) else vs
  }

  lemma TurnKeeps(vs: seq<View>, q: Pos, pred: seq<Byte> -> bool)
    requires TidyAll(vs) && 0 <= q.page < |vs| && PageView.Live(vs[q.page], q.slot)
    ensures var ws := Turn(vs, q, pred);
            && |ws| == |vs| && TidyAll(ws) && After(ws, q) == After(vs, q)
            && (forall j, i :: 0 <= j < |vs| && Pos(j, i) != q ==> SameRecord(vs[j], ws[j], i))
            && (PageView.Live(ws[q.page], q.slot) <==> !pred(RecordAt(vs[q.page], q.slot)))
            && (PageView.Live(ws[q.page], q.slot) ==>
                  RecordAt(ws[q.page], q.slot) == RecordAt(vs[q.page], q.slot))
  {
    var ws, v := Turn(vs, q, pred), vs[q.page];
    if pred(RecordAt(v, q.slot)) {
      DeleteKeepsAfter(vs, q);
      assert TidyAll(ws);
      forall i
        ensures i != q.slot ==> SameRecord(v, ws[q.page], i)
        ensures i == q.slot ==> !PageView.Live(ws[q.page], i)
      {
        DeleteKeeps(v, q.slot, i);
      }
    }
  }

  lemma TidyAllBounds(vs: seq<View>)
    requires TidyAll(vs)
    ensures InBoundsAll(vs)
  {
  }

  /** What a scan can read of a list of positions depends only on which of their records are empty. */
  lemma {:induction false} ReadableSame(vs: seq<View>, ws: seq<View>, ps: seq<Pos>)
    requires InBoundsAll(vs) && InBoundsAll(ws)
    requires forall p :: p in ps ==> UsedAt(vs, p) && UsedAt(ws, p) && (RecAt(vs, p) == [] <==> RecAt(ws, p) == [])
    ensures Readable(ws, ps) == Readable(vs, ps) && EndOf(ws, ps) == EndOf(vs, ps)
  {
    hide RecAt;
    if ps != [] { ReadableSame(vs, ws, ps[1..]); }
  }

  /** A turn at q changes nothing about what the scan reads beyond it. */
  lemma TurnReads(vs: seq<View>, q: Pos, pred: seq<Byte> -> bool)
    requires TidyAll(vs) && 0 <= q.page < |vs| && PageView.Live(vs[q.page], q.slot)
    ensures var ws := Turn(vs, q, pred);
            && |ws| == |vs| && TidyAll(ws) && After(ws, q) == After(vs, q) && InBoundsAll(vs) && InBoundsAll(ws)
            && (forall r :: r in After(vs, q) ==> UsedAt(vs, r) && UsedAt(ws, r) && Before(q, r))
            && Readable(ws, After(ws, q)) == Readable(vs, After(vs, q)) &&
              EndOf(ws, After(ws, q)) == EndOf(vs, After(vs, q))
  {
    hide Tidy, Turn;
    TurnKeeps(vs, q, pred);
    var ws := Turn(vs, q, pred);
    TidyAllBounds(vs);
    TidyAllBounds(ws);
    AfterUsed(vs, q);
    AfterUsed(ws, q);
    forall r | r in After(vs, q)
      ensures RecAt(vs, r) == [] <==> RecAt(ws, r) == []
    {
      assert SameRecord(vs[r.page], ws[r.page], r.slot);
    }
    ReadableSame(vs, ws, After(vs, q));
  }

  /** The loop: the pages it leaves and the positions it visits.  It ends at a record that cannot be read. */
  ghost function Purged(vs: seq<View>, p: Pos, pred: seq<Byte> -> bool): (seq<View>, seq<Pos>)
    requires AtPage(vs, p) && TidyAll(vs)
    decreases |After(vs, p)|
  {
    NextIsHead(vs, p);
    TidyAllBounds(vs);
    match Next(vs, p)
    case NoMore => (vs, [])
    case At(q) =>
      if RecAt(vs, q) == [] then (vs, [])
      else
        TurnKeeps(vs, q, pred);
        var (ws, visited) := Purged(Turn(vs, q, pred), q, pred);
        (ws, [q] + visited)
  }

  /** What becomes of slot i of page j when the loop has visited these positions. */
  ghost predicate Treated(vs: seq<View>, ws: seq<View>, visited: seq<Pos>, pred: seq<Byte> -> bool, j: int, i: int)
    requires |ws| == |vs| && TidyAll(vs) && TidyAll(ws) && 0 <= j < |vs|
  {
    && (PageView.Live(ws[j], i) <==>
          PageView.Live(vs[j], i) && !(Pos(j, i) in visited && pred(RecordAt(vs[j], i))))
    && (PageView.Live(ws[j], i) ==> RecordAt(ws[j], i) == RecordAt(vs[j], i))
  }

  ghost predicate AllTreated(vs: seq<View>, ws: seq<View>, visited: seq<Pos>, pred: seq<Byte> -> bool) {
    && |ws| == |vs| && TidyAll(vs) && TidyAll(ws)
    && forall j, i :: 0 <= j < |vs| ==> Treated(vs, ws, visited, pred, j, i)
  }

  /**
   The loop visits exactly what a scan reads, in its order, and every slot it
   visits is treated as the predicate says; no other slot changes.
   */
  lemma {:induction false} PurgeExact(vs: seq<View>, p: Pos, pred: seq<Byte> -> bool)
    requires AtPage(vs, p) && TidyAll(vs)
    ensures InBoundsAll(vs) && forall q :: q in After(vs, p) ==> UsedAt(vs, q)
    ensures var (ws, visited) := Purged(vs, p, pred);
            visited == Readable(vs, After(vs, p)) && AllTreated(vs, ws, visited, pred)
    decreases |After(vs, p)|
  {
    hide Tidy, RecAt, Readable, After, Turn, AllTreated, TidyAll;
    NextIsHead(vs, p);
    TidyAllBounds(vs);
    AfterUsed(vs, p);
    match Next(vs, p)
    case NoMore =>
      NothingTreated(vs, pred);
    case At(q) =>
      LiveAt(vs, q);
      if RecAt(vs, q) == [] { NothingTreated(vs, pred); }
      ReadableHead(vs, After(vs, p), After(vs, q));
      if RecAt(vs, q) != [] {
        TurnKeeps(vs, q, pred);
        TurnReads(vs, q, pred);
        PurgeExact(Turn(vs, q, pred), q, pred);
        var (ws, visited) := Purged(Turn(vs, q, pred), q, pred);
        PurgeStep(vs, q, pred, ws, visited);
      }
  }

  lemma ReadableHead(vs: seq<View>, ps: seq<Pos>, qs: seq<Pos>)
    requires InBoundsAll(vs) && ps != [] && ps == [ps[0]] + qs && forall p :: p in ps ==> UsedAt(vs, p)
    ensures Readable(vs, ps) == if RecAt(vs, ps[0]) == [] then [] else [ps[0]] + Readable(vs, qs)
    ensures EndOf(vs, ps) == if RecAt(vs, ps[0]) == [] then Unreadable(ps[0]) else EndOf(vs, qs)
  {
    assert ps[1..] == qs;
  }

  lemma NothingTreated(vs: seq<View>, pred: seq<Byte> -> bool)
    requires TidyAll(vs)
    ensures AllTreated(vs, vs, [], pred) && InBoundsAll(vs) && Readable(vs, []) == []
  {
  }

  /** A used slot with a record is live. */
  lemma LiveAt(vs: seq<View>, q: Pos)
    requires InBoundsAll(vs) && UsedAt(vs, q)
    ensures RecAt(vs, q) != [] <==> PageView.Live(vs[q.page], q.slot)
  {
  }

  /** One slot treated first, then the rest. */
  lemma PurgeStep(vs: seq<View>, q: Pos, pred: seq<Byte> -> bool, ws: seq<View>, visited: seq<Pos>)
    requires TidyAll(vs) && 0 <= q.page < |vs| && PageView.Live(vs[q.page], q.slot)
    requires TidyAll(Turn(vs, q, pred)) && |Turn(vs, q, pred)| == |vs|
    requires (forall r :: r in visited ==> Before(q, r)) && AllTreated(Turn(vs, q, pred), ws, visited, pred)
    ensures AllTreated(vs, ws, [q] + visited, pred)
  {
    hide Apart, Covers, RecordAt, Delete, Turn, Purged;
    TurnKeeps(vs, q, pred);
    var us := Turn(vs, q, pred);
    forall j, i | 0 <= j < |vs|
      ensures Treated(vs, ws, [q] + visited, pred, j, i)
    {
      assert Treated(us, ws, visited, pred, j, i);
      if Pos(j, i) != q { assert SameRecord(vs[j], us[j], i); }
    }
  }

  /**
   From a fresh scan the loop leaves exactly the records that it has not visited or
   that fail the predicate, with their slots and bytes.
   */
  lemma PurgeLeaves(vs: seq<View>, pred: seq<Byte> -> bool, j: nat)
    requires TidyAll(vs) && j < |vs|
    ensures InBoundsAll(vs) && forall q :: q in Positions(vs, 0) ==> UsedAt(vs, q)
    ensures var (ws, visited) := Purged(vs, START, pred);
            && visited == Readable(vs, Positions(vs, 0)) && |ws| == |vs| && TidyAll(ws)
            && Recs(ws[j]) == map i | i in Recs(vs[j]) &&
              !(Pos(j, i) in visited && pred(Recs(vs[j])[i])) :: Recs(vs[j])[i]
  {
    hide Tidy, Purged;
    StartCoversAll(vs);
    PurgeExact(vs, START, pred);
    var (ws, visited) := Purged(vs, START, pred);
    BoundsOf(vs, j);
    BoundsOf(ws, j);
    forall i
      ensures PageView.Live(ws[j], i) <==>
        PageView.Live(vs[j], i) && !(Pos(j, i) in visited && pred(RecordAt(vs[j], i)))
      ensures PageView.Live(ws[j], i) ==> RecordAt(ws[j], i) == RecordAt(vs[j], i)
    {
      assert Treated(vs, ws, visited, pred, j, i);
    }
    TreatedRecs(vs[j], ws[j], visited, pred, j);
  }

  /**
   Without records of length zero the loop visits every original record exactly
   once and leaves exactly those that fail the predicate.
   */
  lemma PurgeLeavesRest(vs: seq<View>, pred: seq<Byte> -> bool, j: nat)
    requires TidyAll(vs) && NoEmptyRecords(vs) && j < |vs|
    ensures var (ws, visited) := Purged(vs, START, pred);
            && visited == Positions(vs, 0) && |ws| == |vs| && TidyAll(ws) && InBounds(|vs[j].data|, vs[j].slots)
            && Recs(ws[j]) == map i | i in Recs(vs[j]) && !pred(Recs(vs[j])[i]) :: Recs(vs[j])[i]
  {
    hide Tidy, Purged;
    PurgeLeaves(vs, pred, j);
    AllReadable(vs, Positions(vs, 0));
    PositionsExact(vs, 0);
    forall i | i in Recs(vs[j])
      ensures Pos(j, i) in Positions(vs, 0)
    {
      assert UsedAt(vs, Pos(j, i));
    }
  }

  lemma TreatedRecs(v: View, w: View, visited: seq<Pos>, pred: seq<Byte> -> bool, j: int)
    requires InBounds(|v.data|, v.slots) && InBounds(|w.data|, w.slots)
    requires forall i :: PageView.Live(w, i) <==>
                         PageView.Live(v, i) && !(Pos(j, i) in visited && pred(RecordAt(v, i)))
    requires forall i :: PageView.Live(w, i) ==> PageView.Live(v, i) && RecordAt(w, i) == RecordAt(v, i)
    ensures Recs(w) == map i | i in Recs(v) && !(Pos(j, i) in visited && pred(Recs(v)[i])) :: Recs(v)[i]
  {
    hide RecordAt;
    RecsAre(w, map i | i in Recs(v) && !(Pos(j, i) in visited && pred(Recs(v)[i])) :: Recs(v)[i]);
  }

  lemma BoundsOf(vs: seq<View>, j: nat)
    requires TidyAll(vs) && j < |vs|
    ensures InBounds(|vs[j].data|, vs[j].slots)
  {
  }
}
