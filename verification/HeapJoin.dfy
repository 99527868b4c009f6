/**
 The nested-loops join of join.cpp over the buffer manager: three heap files open on
 one pool, the outer scan waiting while the inner one runs, and the result growing
 while both wait.
 */
module HeapJoin {
  import opened Statuses
  import opened Bytes
  import opened Records
  import opened Disk
  import opened BufHash
  import opened BufferPool
  import opened Transparency
  import opened Pins
  import opened Bystanders
  import opened BufMgrs
  import opened PageView
  import opened Compare
  import opened HeapSpec
  import opened HeapLayout
  import opened HeapSession
  import opened Sharing
  import opened HeapFile
  import opened InsertFile
  import opened HeapClients
  import opened HeapLoad
  import opened JoinSpec
  import opened Join

  // ---------- a row of the join as records ----------

  /** The records that a filter lets through. */
  function Passing(recs: seq<Rec>, f: Filter): (r: seq<Rec>)
    requires f.Ok()
    ensures forall x :: x in r ==> x in recs
  {
    if recs == [] then [] else (if MatchRec(f, recs[0]) then [recs[0]] else []) + Passing(recs[1..], f)
  }

  lemma {:induction false} PassingSnoc(recs: seq<Rec>, x: Rec, f: Filter)
    requires f.Ok()
    ensures Passing(recs + [x], f) == Passing(recs, f) + if MatchRec(f, x) then [x] else []
  {
    hide MatchRec;
    if recs == [] {
      assert (recs + [x])[1..] == [];
    } else {
      PassingSnoc(recs[1..], x, f);
      assert (recs + [x])[1..] == recs[1..] + [x];
    }
  }

  /** The positions that a filtered scan selects hold the records that pass. */
  lemma {:induction false} SelectedPass(vs: seq<View>, ps: seq<Pos>, f: Filter)
    requires InBoundsAll(vs) && f.Ok() && forall p :: p in ps ==> UsedAt(vs, p)
    ensures forall p :: p in Selected(vs, ps, f) ==> UsedAt(vs, p)
    ensures RecordsAt(vs, Selected(vs, ps, f)) == Passing(RecordsAt(vs, ps), f)
  {
    hide MatchRec, RecAt, UsedAt, InBoundsAll;
    if ps != [] {
      SelectedPass(vs, ps[1..], f);
      assert RecordsAt(vs, ps)[1..] == RecordsAt(vs, ps[1..]);
    }
  }

  /** The records of the join that an outer record makes with these inner ones. */
  function MadeOf(q: Query, i: nat, recs: seq<Rec>): (r: seq<Rec>)
    requires Ready(q) && i < |q.outer| && forall x :: x in recs ==> x in q.inner
    ensures |r| == |recs|
  {
    seq(|recs|, k requires 0 <= k < |recs| =>
      Projection(q.proj, |q.proj|, Bindings(q.d1.relName, q.outer[i], q.d2.relName, recs[k])))
  }

  function RowFilter(q: Query, i: nat): (f: Filter)
    requires Ready(q) && i < |q.outer|
    ensures f.Ok()
  {
    InnerFilter(q.d1.attr, q.op, q.d2.attr, q.outer[i])
  }

  /** What row i adds to the result. */
  function Row(q: Query, i: nat): seq<Rec>
    requires Ready(q) && i < |q.outer|
  {
    MadeOf(q, i, Passing(q.inner, RowFilter(q, i)))
  }

  lemma MadeOfSnoc(q: Query, i: nat, recs: seq<Rec>, x: Rec)
    requires Ready(q) && i < |q.outer| && (forall y :: y in recs ==> y in q.inner) && x in q.inner
    ensures MadeOf(q, i, recs + [x]) == MadeOf(q, i, recs) +
      [Projection(q.proj, |q.proj|, Bindings(q.d1.relName, q.outer[i], q.d2.relName, x))]
  {
    hide ProjectionCovered, Projection;
  }

  lemma {:induction false} RowMadeTo(q: Query, i: nat, j: nat)
    requires Ready(q) && i < |q.outer| && j <= |q.inner|
    ensures MadeTo(q, i, j) == MadeTo(q, i, 0) + MadeOf(q, i, Passing(q.inner[..j], RowFilter(q, i)))
  {
    hide MadeTo, ProjectionCovered, Projection, MatchRec, InnerFilter;
    var f := RowFilter(q, i);
    if j > 0 {
      RowMadeTo(q, i, j - 1);
      MadeStep(q, i, j - 1);
      PassingSnoc(q.inner[..j - 1], q.inner[j - 1], f);
      assert q.inner[..j] == q.inner[..j - 1] + [q.inner[j - 1]];
      if MatchRec(f, q.inner[j - 1]) {
        MadeOfSnoc(q, i, Passing(q.inner[..j - 1], f), q.inner[j - 1]);
      }
    }
  }

  /** The rows before i + 1 are those before i and row i. */
  lemma RowMade(q: Query, i: nat)
    requires Ready(q) && i < |q.outer|
    ensures JoinResultTo(q, i + 1) == JoinResultTo(q, i) + Row(q, i)
  {
    hide ProjectionCovered, Projection, MatchRec, InnerFilter, Visits;
    RowStart(q, i);
    RowMadeTo(q, i, |q.inner|);
    assert q.inner[..|q.inner|] == q.inner;
  }

  // ---------- a scan and an inserter on one pool ----------

  /** Both objects wait; outside of them the pool is pinned as in b. */
  ghost predicate Together(scan: HeapFileScan, result: InsertFileScan, b: Sys)
    reads scan, result, scan.mgr, scan.mgr.Repr
  {
    && scan.mgr == result.mgr && scan.mgr.Valid() && scan !in scan.mgr.Repr && result !in scan.mgr.Repr
    && Both(scan.mgr.State(), b, scan.W(), result.W())
    && scan.Waits(scan.mgr.State()) && result.Waits(scan.mgr.State())
  }

  /** With two frames to spare no page is blocked. */
  lemma SparePasses(scan: HeapFileScan, a: int, r: Scanned)
    requires Spare(scan.base, 2)
    ensures Passes(scan, a, r)
  {
    hide PinnedKeys;
    SpareRoom(scan.base, 2, {Key(scan.file, scan.headerPageNo)});
  }

  /** The reader has taken a step and waits again, the writer has waited all the time. */
  lemma ReadDone(scan: HeapFileScan, result: InsertFileScan, s: Sys, b: Sys, w: Session)
    requires scan.Valid() && scan.mgr == result.mgr && result !in scan.mgr.Repr && result.Waits(s)
    requires Both(s, b, w, result.W()) && w.file == scan.file && scan.base == Without(s, w)
    requires Aside(s, scan.mgr.State(), scan.file, scan.base) && Meaning(scan.mgr.State()) == Meaning(s)
    ensures Together(scan, result, b) && Steady(s, scan.mgr.State(), b, result.file)
    ensures NoLonger(s.files, scan.mgr.disk.files, scan.file)
  {
    hide HeapFileScan.Valid, BufMgr.Valid, Inv, Sound, Meaning, PinCount, HeapOk, Elsewhere, Kept, Placed, NoLonger;
    hide HeapFileScan.Waits, InsertFileScan.Waits;
    var t, r := scan.mgr.State(), result.W();
    scan.Pause();
    ReaderAlone(s, b, w, r);
    ReaderMoved(s, t, b, w, scan.W(), r);
    ReadSteady(s, t, scan.file, scan.base, b, result.file);
    UntouchedBy(s, t, scan.file, r);
    result.StillWaits(s, t);
    ScanShows(scan);
    OthersNoLonger(s, t, scan.file);
  }

  /** scanNext and getRecord while an inserter waits. */
  method ReadBeside(scan: HeapFileScan, result: InsertFileScan, ghost b: Sys, ghost vs: seq<View>, ghost got: seq<Pos>,
      ghost rids: seq<RID>, ghost out: seq<Rec>) returns (status: Status, rid: RID, rec: Rec)
    requires Together(scan, result, b) && scan.curPage != null
    requires HeapShows(Meaning(scan.mgr.State()), scan.file, scan.headerPageNo, scan.chain, vs)
    requires Reading(vs, scan.chain, scan.filter, got, rids, scan.Where(), out)
    modifies scan`base, scan`curPage, scan`curPageNo, scan`curDirtyFlag, scan`cur, scan`curRec, scan.mgr.Repr
    ensures fresh(scan.mgr.Repr - old(scan.mgr.Repr)) && Together(scan, result, b) && scan.filter == old(scan.filter)
    ensures Meaning(scan.mgr.State()) == old(Meaning(scan.mgr.State()))
    ensures Steady(old(scan.mgr.State()), scan.mgr.State(), b, result.file)
    ensures NoLonger(old(scan.mgr.disk.files), scan.mgr.disk.files, scan.file)
    ensures AtPage(vs, START) && InBoundsAll(vs) && |vs| == |scan.chain| && scan.filter.Ok()
    ensures status == OK ==>
      && scan.curPage != null && AtPage(vs, old(scan.Where())) && AtPage(vs, scan.Where())
      && Reading(vs, scan.chain, scan.filter, got + [scan.Where()], rids + [rid], scan.Where(), out + [rec])
      && Remaining(vs, scan.Where()) < Remaining(vs, old(scan.Where()))
    ensures status == BUFFEREXCEEDED ==> !Spare(b, 4)
    ensures status != OK && status != BUFFEREXCEEDED ==> Drain(vs, START, scan.filter) == got
  {
    hide HeapFileScan.Valid, BufMgr.Valid, Inv, Sound, Meaning, PinCount, HeapOk, Elsewhere, Kept, Placed, NoLonger;
    hide HeapFileScan.Waits, InsertFileScan.Waits, Reading, Remaining, Drain, InBoundsAll, Ending, Passes, Spare;
    ghost var s, w, p := scan.mgr.State(), scan.W(), scan.Where();
    ReaderAlone(s, b, w, result.W());
    scan.Resume(Without(s, w));
    status, rid, rec := ReadTurn(scan, vs, got, rids, p, out);
    ReadDone(scan, result, s, b, w);
    if status == BUFFEREXCEEDED && Spare(b, 4) {
      SpareBeside(Without(s, w), b, result.W(), 2);
      SparePasses(scan, p.page, Ending(vs, START));
    }
  }

  lemma Inserted(result: InsertFileScan)
    requires result.Valid()
    ensures HeapOk(Meaning(result.mgr.State()), result.file, result.headerPageNo, result.chain)
    ensures result.Views() == HeapLayout.Views(Meaning(result.mgr.State()), result.file, result.chain)
  {
    hide Inv, Sound, HeapOk, Meaning, HeapLayout.Views, BufMgr.Valid, PinsOk;
  }

  /** The writer has taken a step and waits again, the reader has waited all the time. */
  lemma WriteDone(scan: HeapFileScan, result: InsertFileScan, s: Sys, b: Sys, r: Session)
    requires result.Valid() && scan.mgr == result.mgr && scan !in scan.mgr.Repr && scan.Waits(s)
    requires Both(s, b, scan.W(), r) && r.file == result.file && result.base == Without(s, r)
    requires Steady(s, scan.mgr.State(), result.base, result.file)
    ensures Together(scan, result, b) && Steady(s, scan.mgr.State(), b, result.file)
    ensures HeapOk(Meaning(s), scan.file, scan.headerPageNo, scan.chain)
    ensures HeapShows(Meaning(scan.mgr.State()), scan.file, scan.headerPageNo, scan.chain,
                      HeapLayout.Views(Meaning(s), scan.file, scan.chain))
  {
    hide InsertFileScan.Valid, BufMgr.Valid, Inv, Sound, Meaning, PinCount, HeapOk, Elsewhere, Placed;
    hide HeapFileScan.Waits, InsertFileScan.Waits, HeapLayout.Views;
    var t, w := scan.mgr.State(), scan.W();
    result.Pause();
    WriterAlone(s, b, w, r);
    WriterMoved(s, t, b, w, r, result.W());
    SteadyWeaker(s, t, result.base, b, result.file);
    UntouchedSteady(s, t, result.base, result.file, w);
    scan.StillWaits(s, t);
    WaitingOk(scan, s);
    WaitingOk(scan, t);
  }

  lemma WaitingOk(scan: HeapFileScan, s: Sys)
    requires scan.Waits(s)
    ensures HeapOk(Meaning(s), scan.file, scan.headerPageNo, scan.chain)
  {
    hide Sound, HeapOk, Meaning;
  }

  /** insertRecord while a scan waits. */
  method AddBeside(scan: HeapFileScan, result: InsertFileScan, ghost b: Sys, ghost vs: seq<View>, rec: Rec,
      ghost before: seq<Rec>) returns (status: Status)
    requires Together(scan, result, b) && result.headerPageNo == 1
    requires HeapShows(Meaning(scan.mgr.State()), scan.file, scan.headerPageNo, scan.chain, vs)
    requires Stored(Meaning(scan.mgr.State()), result.file, result.chain, before)
    requires IsInt(|before| + 1) && 1 <= |rec| <= CAPACITY - SLOT_SIZE
    modifies result, scan.mgr.Repr
    ensures fresh(scan.mgr.Repr - old(scan.mgr.Repr)) && Together(scan, result, b)
    ensures Steady(old(scan.mgr.State()), scan.mgr.State(), b, result.file)
    ensures HeapShows(Meaning(scan.mgr.State()), scan.file, scan.headerPageNo, scan.chain, vs)
    ensures Stored(Meaning(scan.mgr.State()), result.file, result.chain,
                   if status == OK then before + [rec] else before)
    ensures result.file in old(scan.mgr.disk.files) &&
      OneMore(old(scan.mgr.disk.files), scan.mgr.disk.files, result.file)
    ensures
      || status == OK
      || (status == UNIXERR && MAX_PAGES <= |old(scan.mgr.disk.files)[result.file]|)
      || (status == BUFFEREXCEEDED && !Spare(b, 5))
  {
    hide InsertFileScan.Valid, BufMgr.Valid, Inv, Sound, Meaning, PinCount, HeapOk, Elsewhere, Placed, Lists, OneMore;
    hide HeapFileScan.Waits, InsertFileScan.Waits, HeapLayout.Views, Spare;
    ghost var s, r := scan.mgr.State(), result.W();
    WriterAlone(s, b, scan.W(), r);
    result.Resume(Without(s, r));
    status := AddOne(result, rec, before);
    WriteSteady(s, scan.mgr.State(), result.base, result.file);
    WriteDone(scan, result, s, b, r);
    Inserted(result);
    if Spare(b, 5) { SpareBeside(Without(s, r), b, scan.W(), 3); }
  }

  lemma SpareOpensScan(s: Sys, file: FileId, chain: seq<int>)
    requires Spare(s, 2)
    ensures !Unopenable(s, file, chain)
  {
    hide Spare, Refused;
    SpareReads(s, file, chain, |chain|);
    if Unopenable(s, file, chain) { UnopenableCrowded(s, file, chain); }
  }

  /** The reader has opened its file and waits, the writer has waited all the time. */
  lemma OpenDone(scan: HeapFileScan, result: InsertFileScan, s: Sys)
    requires scan.Valid() && scan.mgr == result.mgr && result !in scan.mgr.Repr && result.Waits(s)
    requires Pinned(s, result.W()) && scan.file != result.file && scan.base == s
    requires Aside(s, scan.mgr.State(), scan.file, s) && Meaning(scan.mgr.State()) == Meaning(s)
    ensures Together(scan, result, result.base)
  {
    hide HeapFileScan.Valid, BufMgr.Valid, Inv, Sound, Meaning, PinCount, HeapOk, Elsewhere, Kept, Placed, NoLonger;
    hide HeapFileScan.Waits, InsertFileScan.Waits;
    var t, r := scan.mgr.State(), result.W();
    scan.Pause();
    ReaderOpens(s, t, scan.W(), r);
    UntouchedBy(s, t, scan.file, r);
    result.StillWaits(s, t);
    ScanShows(scan);
  }

  /** A scan is opened on another file; without a frame for it the inserter goes on alone. */
  method OpenBeside(result: InsertFileScan, file: FileId, f: Filter, ghost chain: seq<int>)
    returns (status: Status, scan: HeapFileScan?)
    requires result.Valid() && file != result.file && f.Ok()
    requires HeapOk(Meaning(result.mgr.State()), file, 1, chain)
    modifies result`base, result.mgr.Repr
    ensures result.mgr.Valid() && fresh(result.mgr.Repr - old(result.mgr.Repr)) && result.base == old(result.base)
    ensures Meaning(result.mgr.State()) == old(Meaning(result.mgr.State()))
    ensures Steady(old(result.mgr.State()), result.mgr.State(), result.base, result.file)
    ensures NoLonger(old(result.mgr.disk.files), result.mgr.disk.files, file)
    ensures status == OK || (status == BUFFEREXCEEDED && !Spare(result.base, 4))
    ensures if status == OK then
              && scan != null && fresh(scan) && scan.mgr == result.mgr && Together(scan, result, result.base)
              && scan.file == file && scan.headerPageNo == 1 && scan.chain == chain && scan.filter == f
              && scan.curPage != null && scan.Where() == START
            else result.Valid()
  {
    hide HeapFileScan.Valid, InsertFileScan.Valid, BufMgr.Valid, Inv, Sound, Meaning, PinCount, HeapOk, Elsewhere;
    hide HeapFileScan.Waits, InsertFileScan.Waits, NoLonger, Placed, Unopenable, Spare;
    ghost var s, r := result.mgr.State(), result.W();
    result.Pause();
    if Spare(result.base, 4) {
      SpareBeside(s, result.base, r, 2);
      SpareOpensScan(s, file, chain);
    }
    status, scan := OpenScan(result.mgr, file, chain);
    ghost var t := result.mgr.State();
    ReadSteady(s, t, file, s, result.base, result.file);
    OthersNoLonger(s, t, file);
    if status == OK {
      var ignored := scan.StartScan(f);
      OpenDone(scan, result, s);
    } else {
      UntouchedBy(s, t, file, r);
      result.StillWaits(s, t);
      result.Resume(result.base);
    }
  }

  /** The scan is closed, its file flushed if nobody else has it open, and the inserter goes on alone. */
  method CloseBeside(scan: HeapFileScan, result: InsertFileScan, ghost b: Sys, last: bool)
    requires Together(scan, result, b)
    modifies scan`base, scan`curPage, scan`curPageNo, scan`curDirtyFlag, result`base, scan.mgr.Repr
    ensures fresh(scan.mgr.Repr - old(scan.mgr.Repr)) && result.Valid() && result.base == b
    ensures Meaning(scan.mgr.State()) == old(Meaning(scan.mgr.State()))
    ensures Steady(old(scan.mgr.State()), scan.mgr.State(), b, result.file)
    ensures NoLonger(old(scan.mgr.disk.files), scan.mgr.disk.files, scan.file)
  {
    hide HeapFileScan.Valid, InsertFileScan.Valid, BufMgr.Valid, Inv, Sound, Meaning, PinCount, HeapOk, Elsewhere;
    hide HeapFileScan.Waits, InsertFileScan.Waits, NoLonger, Placed;
    ghost var s, w, r := scan.mgr.State(), scan.W(), result.W();
    ReaderAlone(s, b, w, r);
    ghost var o := Without(s, w);
    scan.Resume(o);
    ScanShows(scan);
    var ignored := scan.Close();
    ghost var t := scan.mgr.State();
    ReadSteady(s, t, scan.file, o, b, result.file);
    OthersNoLonger(s, t, scan.file);
    UntouchedBy(s, t, scan.file, r);
    result.StillWaits(s, t);
    ReaderCloses(s, t, b, w, r);
    if last {
      ignored := FlushOnClose(scan.mgr, scan.file);
      ghost var u := scan.mgr.State();
      FlushDone(t, u, scan.file, b, r);
      SteadyTrans(s, t, u, b, result.file);
      NoLongerTrans(s, t, u, scan.file);
      result.StillWaits(t, u);
    }
    result.Resume(b);
  }

  lemma NoLongerTrans(s: Sys, t: Sys, u: Sys, f: FileId)
    requires NoLonger(s.files, t.files, f) && NoLonger(t.files, u.files, f)
    ensures NoLonger(s.files, u.files, f)
  {
  }

  /** The flush of one file leaves the writer of another alone. */
  lemma FlushDone(t: Sys, u: Sys, file: FileId, b: Sys, r: Session)
    requires Aside(t, u, file, t) && Meaning(u) == Meaning(t) && file != r.file
    requires Sound(b) && PinsOk(t, r.(base := b)) && |u.frames| == |t.frames|
    requires forall k :: PinCount(u, k) == PinCount(t, k)
    ensures Steady(t, u, b, r.file) && NoLonger(t.files, u.files, file) && Untouched(t, u, r)
    ensures PinsOk(u, r.(base := b))
  {
    hide Sound, PinCount, Meaning, Elsewhere;
    ReadSteady(t, u, file, t, b, r.file);
    OthersNoLonger(t, u, file);
    UntouchedBy(t, u, file, r);
  }

  // ---------- one row ----------

  /** The records that a scan of the whole file reads. */
  ghost function Read(vs: seq<View>): seq<Rec>
    requires vs != [] && InBoundsAll(vs)
  {
    ScanResult(vs, NoFilter);
    RecordsAt(vs, Readable(vs, Positions(vs, 0)))
  }

  lemma ReadingFirst(vs: seq<View>, chain: seq<int>, f: Filter)
    requires vs != [] && InBoundsAll(vs) && |vs| == |chain| && f.Ok()
    ensures Reading(vs, chain, f, [], [], START, [])
  {
    hide Drain, Ending, InBoundsAll;
    assert [] + Drain(vs, START, f) == Drain(vs, START, f);
  }

  /** What has been read is a beginning of what the whole scan reads, and at the end all of it. */
  lemma ReadingPrefix(vs: seq<View>, chain: seq<int>, f: Filter, found: seq<Pos>, rids: seq<RID>, p: Pos, got: seq<Rec>)
    requires Reading(vs, chain, f, found, rids, p, got)
    ensures vs != [] && InBoundsAll(vs) && f.Ok() && got <= Passing(Read(vs), f)
    ensures Drain(vs, START, f) == found ==> got == Passing(Read(vs), f)
  {
    hide Drain, Ending, InBoundsAll, Passing, Readable, Selected, Positions, RecAt, UsedAt;
    ScanResult(vs, f);
    SelectedPass(vs, Readable(vs, Positions(vs, 0)), f);
    assert found <= Drain(vs, START, f);
  }

  lemma ReadAllPass(recs: seq<Rec>)
    ensures Passing(recs, NoFilter) == recs
  {
    if recs != [] { ReadAllPass(recs[1..]); }
  }

  /** The join that a query asks for: projection and condition. */
  datatype Condition = Condition(proj: seq<AttrDesc>, d1: AttrDesc, op: Operator, d2: AttrDesc)

  function Asked(c: Condition, outer: seq<Rec>, inner: seq<Rec>): Query {
    Query(c.proj, c.d1, c.op, c.d2, outer, inner)
  }

  lemma MadeOfPrefix(q: Query, i: nat, got: seq<Rec>, recs: seq<Rec>)
    requires Ready(q) && i < |q.outer| && (forall x :: x in recs ==> x in q.inner) && got <= recs
    ensures forall x :: x in got ==> x in q.inner
    ensures MadeOf(q, i, got) <= MadeOf(q, i, recs)
  {
    hide ProjectionCovered, Projection;
  }

  /** Row i of the join q, the inner records being those of the pages vs. */
  datatype Task = Task(q: Query, i: nat, vs: seq<View>)

  /** Of the row's inner records got have been read. */
  ghost predicate TaskOk(d: Task, got: seq<Rec>) {
    && Ready(d.q) && d.i < |d.q.outer| && 1 <= OutputOffset(d.q.proj, |d.q.proj|) <= MAXRECORD
    && d.vs != [] && InBoundsAll(d.vs) && d.q.inner == Read(d.vs)
    && got <= Passing(d.q.inner, RowFilter(d.q, d.i))
  }

  /** What the row has made of them. */
  ghost function Part(d: Task, got: seq<Rec>): seq<Rec>
    requires TaskOk(d, got)
  {
    PartOf(d, got);
    MadeOf(d.q, d.i, got)
  }

  lemma PartOf(d: Task, got: seq<Rec>)
    requires TaskOk(d, got)
    ensures forall x :: x in got ==> x in d.q.inner
    ensures MadeOf(d.q, d.i, got) <= Row(d.q, d.i)
  {
    hide Passing, InnerFilter, Projectable, Projection;
    MadeOfPrefix(d.q, d.i, got, Passing(d.q.inner, RowFilter(d.q, d.i)));
  }

  /** This is the condition of the join and the outer record of the row. */
  ghost predicate Serves(c: Condition, outerRec: Rec, d: Task) {
    d.q == Asked(c, d.q.outer, d.q.inner) && d.i < |d.q.outer| && d.q.outer[d.i] == outerRec
  }

  /** The record read next makes the next record of the row. */
  lemma TaskStep(d: Task, c: Condition, outerRec: Rec, got: seq<Rec>, rec: Rec)
    requires TaskOk(d, got) && Serves(c, outerRec, d) && got + [rec] <= Passing(d.q.inner, RowFilter(d.q, d.i))
    ensures TaskOk(d, got + [rec]) && |Part(d, got)| < |Row(d.q, d.i)|
    ensures var env := Bindings(c.d1.relName, outerRec, c.d2.relName, rec);
            && Projectable(c.proj, env) && 1 <= OutputOffset(c.proj, |c.proj|) <= MAXRECORD
            && Part(d, got + [rec]) == Part(d, got) + [Projection(c.proj, |c.proj|, env)]
            && |Projection(c.proj, |c.proj|, env)| == OutputOffset(c.proj, |c.proj|)
  {
    hide Passing, InnerFilter, Projectable, Projection;
    assert (got + [rec])[|got|] == rec && rec in got + [rec];
    PartOf(d, got);
    PartOf(d, got + [rec]);
    MadeOfSnoc(d.q, d.i, got, rec);
    assert outerRec in d.q.outer;
  }

  lemma TaskReads(d: Task, chain: seq<int>, found: seq<Pos>, rids: seq<RID>, p: Pos, got: seq<Rec>, next: seq<Rec>)
    requires TaskOk(d, got) && Reading(d.vs, chain, RowFilter(d.q, d.i), found, rids, p, next)
    ensures InBoundsAll(d.vs) && AtPage(d.vs, START)
    ensures next <= Passing(d.q.inner, RowFilter(d.q, d.i)) && TaskOk(d, next)
    ensures Drain(d.vs, START, RowFilter(d.q, d.i)) == found ==> Part(d, next) == Row(d.q, d.i)
  {
    hide Reading, Passing, InnerFilter, Drain, Read, InBoundsAll;
    ReadingPrefix(d.vs, chain, RowFilter(d.q, d.i), found, rids, p, next);
  }

  /** The result holds the older records and those that the row has made of the inner records got. */
  ghost predicate RowSoFar(scan: HeapFileScan, result: InsertFileScan, b: Sys, d: Task, got: seq<Rec>, before: seq<Rec>)
    reads scan, result, scan.mgr, scan.mgr.Repr
  {
    && Together(scan, result, b) && result.headerPageNo == 1
    && HeapShows(Meaning(scan.mgr.State()), scan.file, scan.headerPageNo, scan.chain, d.vs)
    && TaskOk(d, got) && scan.filter == RowFilter(d.q, d.i) && IsInt(|before| + |Row(d.q, d.i)|)
    && Stored(Meaning(scan.mgr.State()), result.file, result.chain, before + Part(d, got))
  }

  /** Nothing has changed outside of the result, which has grown by at most n pages. */
  ghost predicate Grown(s: Sys, t: Sys, b: Sys, f: FileId, n: nat) {
    Steady(s, t, b, f) && f in s.files && f in t.files && |t.files[f]| <= |s.files[f]| + n
  }

  lemma GrownBy(s: Sys, t: Sys, u: Sys, b: Sys, f: FileId, n: nat, k: nat)
    requires Grown(s, t, b, f, n) && Grown(t, u, b, f, k)
    ensures Grown(s, u, b, f, n + k)
  {
    hide Steady;
    SteadyTrans(s, t, u, b, f);
  }

  lemma ReadGrown(s: Sys, t: Sys, b: Sys, f: FileId, g: FileId)
    requires Steady(s, t, b, f) && f in s.files && NoLonger(s.files, t.files, g) && g != f
    ensures Grown(s, t, b, f, 0)
  {
  }

  lemma WriteGrown(s: Sys, t: Sys, b: Sys, f: FileId)
    requires Steady(s, t, b, f) && f in s.files && OneMore(s.files, t.files, f)
    ensures Grown(s, t, b, f, 1)
  {
  }

  /** One turn of the inner loop: the next match is projected and inserted. */
  method RowTurn(scan: HeapFileScan, result: InsertFileScan, c: Condition, outerRec: Rec, outputData: array<Byte>,
      ghost b: Sys, ghost d: Task, ghost found: seq<Pos>, ghost rids: seq<RID>, ghost got: seq<Rec>,
      ghost before: seq<Rec>) returns (status: Status, stop: bool, rid: RID, rec: Rec)
    requires RowSoFar(scan, result, b, d, got, before) && scan.curPage != null && Serves(c, outerRec, d)
    requires Reading(d.vs, scan.chain, scan.filter, found, rids, scan.Where(), got)
    requires outputData.Length == OutputOffset(c.proj, |c.proj|) && outputData !in scan.mgr.Repr
    requires result.file in scan.mgr.disk.files
    modifies scan`base, scan`curPage, scan`curPageNo, scan`curDirtyFlag, scan`cur, scan`curRec
    modifies result, outputData, scan.mgr.Repr
    ensures fresh(scan.mgr.Repr - old(scan.mgr.Repr)) && scan.filter == old(scan.filter)
    ensures RowSoFar(scan, result, b, d, if stop then got else got + [rec], before)
    ensures Grown(old(scan.mgr.State()), scan.mgr.State(), b, result.file, if stop && status == OK then 0 else 1)
    ensures AtPage(d.vs, START) && InBoundsAll(d.vs) && scan.filter.Ok()
    ensures !stop ==>
      && status == OK && scan.curPage != null && AtPage(d.vs, old(scan.Where())) && AtPage(d.vs, scan.Where())
      && Reading(d.vs, scan.chain, scan.filter, found + [scan.Where()], rids + [rid], scan.Where(), got + [rec])
      && Remaining(d.vs, scan.Where()) < Remaining(d.vs, old(scan.Where()))
    ensures stop ==>
      || (status == OK && (Drain(d.vs, START, scan.filter) == found || !Spare(b, 4)))
      || (status == UNIXERR && MAX_PAGES <= |old(scan.mgr.disk.files)[result.file]|)
      || (status == BUFFEREXCEEDED && !Spare(b, 5))
  {
    hide HeapFileScan.Valid, InsertFileScan.Valid, BufMgr.Valid, Inv, Sound, Meaning, PinCount, HeapOk, Elsewhere;
    hide HeapFileScan.Waits, InsertFileScan.Waits, NoLonger, Placed, Spare, Reading, Remaining, Drain, InBoundsAll;
    hide Passing, Projection, Projectable, Lists, HeapLayout.Views, Row, TaskOk, Part, Steady, Grown, OneMore;
    hide RowFilter;
    ghost var s := scan.mgr.State();
    status, rid, rec := ReadBeside(scan, result, b, d.vs, found, rids, got);
    ghost var t := scan.mgr.State();
    ReadGrown(s, t, b, result.file, scan.file);
    stop := status != OK;
    if stop {
      status := OK;
      return;
    }
    TaskReads(d, scan.chain, found + [scan.Where()], rids + [rid], scan.Where(), got, got + [rec]);
    TaskStep(d, c, outerRec, got, rec);
    CopyFields(c.proj, c.d1.relName, outerRec, c.d2.relName, rec, outputData);
    status := AddBeside(scan, result, b, d.vs, outputData[..], before + Part(d, got));
    assert before + Part(d, got) + [outputData[..]] == before + Part(d, got + [rec]);
    WriteGrown(t, scan.mgr.State(), b, result.file);
    GrownBy(s, t, scan.mgr.State(), b, result.file, 0, 1);
    stop := status != OK;
  }

  /** The whole row has been made. */
  ghost predicate Whole(d: Task, got: seq<Rec>) {
    TaskOk(d, got) && Part(d, got) == Row(d.q, d.i)
  }

  /**
   How a scan or a row ends: whole, or without n spare frames, or without room in
   the file, which has so many pages.
   */
  ghost predicate Ends(status: Status, whole: bool, b: Sys, n: nat, size: int) {
    || (status == OK && (whole || !Spare(b, n)))
    || (status == UNIXERR && MAX_PAGES <= size)
    || (status == BUFFEREXCEEDED && !Spare(b, n))
  }

  /** The inner scan runs to its end, or until the pool or the file has no room. */
  method RowLoop(scan: HeapFileScan, result: InsertFileScan, c: Condition, outerRec: Rec, outputData: array<Byte>,
      ghost b: Sys, ghost d: Task, ghost before: seq<Rec>) returns (status: Status, ghost got: seq<Rec>)
    requires RowSoFar(scan, result, b, d, [], before) && Serves(c, outerRec, d)
    requires scan.curPage != null && scan.Where() == START && |d.vs| == |scan.chain|
    requires outputData.Length == OutputOffset(c.proj, |c.proj|) && outputData !in scan.mgr.Repr
    requires result.file in scan.mgr.disk.files
    modifies scan`base, scan`curPage, scan`curPageNo, scan`curDirtyFlag, scan`cur, scan`curRec
    modifies result, outputData, scan.mgr.Repr
    ensures fresh(scan.mgr.Repr - old(scan.mgr.Repr)) && RowSoFar(scan, result, b, d, got, before)
    ensures Grown(old(scan.mgr.State()), scan.mgr.State(), b, result.file, |got| + if status == OK then 0 else 1)
    ensures Ends(status, Whole(d, got), b, 5, |old(scan.mgr.disk.files)[result.file]| + |got|)
  {
    hide HeapFileScan.Valid, InsertFileScan.Valid, BufMgr.Valid, Inv, Sound, Meaning, PinCount, HeapOk;
    hide Spare, Reading, Remaining, Drain, InBoundsAll, Passing, Row, TaskOk, Part, Steady, RowFilter, RowSoFar, Whole;
    hide Serves, Next, SoFar, Stored, FilesOk, Without, Read;
    got := [];
    ghost var s, f := scan.mgr.State(), scan.filter;
    RowFacts(scan, result, b, d, [], before);
    ReadingFirst(d.vs, scan.chain, f);
    ghost var found, rids := [], [];
    var stop := false;
    status := OK;
    while !stop
      invariant fresh(scan.mgr.Repr - old(scan.mgr.Repr)) && scan.filter == f
      invariant RowSoFar(scan, result, b, d, got, before)
      invariant Grown(s, scan.mgr.State(), b, result.file, |got| + if status == OK then 0 else 1)
      invariant InBoundsAll(d.vs) && AtPage(d.vs, START) && f.Ok()
      invariant !stop ==>
        && status == OK && scan.curPage != null && AtPage(d.vs, scan.Where())
        && Reading(d.vs, scan.chain, f, found, rids, scan.Where(), got)
      invariant stop ==> Ends(status, Whole(d, got), b, 5, |old(scan.mgr.disk.files)[result.file]| + |got|)
      decreases !stop, if AtPage(d.vs, scan.Where()) then Remaining(d.vs, scan.Where()) else 0
    {
      var rid, rec;
      ghost var t, p := scan.mgr.State(), scan.Where();
      status, stop, rid, rec := RowTurn(scan, result, c, outerRec, outputData, b, d, found, rids, got, before);
      GrownBy(s, t, scan.mgr.State(), b, result.file, |got|, if stop && status == OK then 0 else 1);
      if stop {
        RowFacts(scan, result, b, d, got, before);
        RowWhole(d, scan.chain, found, rids, p, got);
        if Spare(b, 5) { SpareMore(b, 5, 4); }
      } else {
        got, found, rids := got + [rec], found + [scan.Where()], rids + [rid];
      }
    }
    RowFacts(scan, result, b, d, got, before);
  }

  lemma RowWhole(d: Task, chain: seq<int>, found: seq<Pos>, rids: seq<RID>, p: Pos, got: seq<Rec>)
    requires TaskOk(d, got) && Reading(d.vs, chain, RowFilter(d.q, d.i), found, rids, p, got)
    ensures InBoundsAll(d.vs) && AtPage(d.vs, START)
    ensures Drain(d.vs, START, RowFilter(d.q, d.i)) == found ==> Whole(d, got)
  {
    hide TaskOk, Reading, RowFilter, Drain, Part, Row;
    TaskReads(d, chain, found, rids, p, got, got);
  }

  lemma RowFacts(scan: HeapFileScan, result: InsertFileScan, b: Sys, d: Task, got: seq<Rec>, before: seq<Rec>)
    requires RowSoFar(scan, result, b, d, got, before)
    ensures TaskOk(d, got) && d.vs != [] && InBoundsAll(d.vs) && AtPage(d.vs, START)
    ensures scan.filter == RowFilter(d.q, d.i) && scan.filter.Ok() && Sound(scan.mgr.State()) && Sound(b)
    ensures Together(scan, result, b) && Steady(scan.mgr.State(), scan.mgr.State(), b, result.file)
    ensures Stored(Meaning(scan.mgr.State()), result.file, result.chain, before + Part(d, got))
  {
    hide BufMgr.Valid, Inv, Meaning, HeapOk, InBounds, Passing, HeapFileScan.Waits, InsertFileScan.Waits, PinCount;
    hide Lists, HeapLayout.Views, Sound, Read, Part, InnerFilter;
    PinnedThere(scan, result, b);
  }

  lemma PinnedThere(scan: HeapFileScan, result: InsertFileScan, b: Sys)
    requires Together(scan, result, b)
    ensures Sound(scan.mgr.State()) && Steady(scan.mgr.State(), scan.mgr.State(), b, result.file)
  {
    hide BufMgr.Valid, Inv, Meaning, HeapFileScan.Waits, InsertFileScan.Waits;
  }

  lemma FilterOf(d: Task, c: Condition, outerRec: Rec)
    requires TaskOk(d, []) && Serves(c, outerRec, d)
    ensures Joinable(c.d1.attr, c.d2.attr) && Has(c.d1.attr, outerRec)
    ensures InnerFilter(c.d1.attr, c.op, c.d2.attr, outerRec) == RowFilter(d.q, d.i)
    ensures |Part(d, [])| == 0
  {
    assert outerRec in d.q.outer;
  }

  /** One turn of the outer loop: the inner file is opened, scanned with the mirrored filter and closed. */
  method JoinRow(result: InsertFileScan, c: Condition, outerRec: Rec, innerFile: FileId, last: bool,
      outputData: array<Byte>, ghost d: Task, ghost ic: seq<int>, ghost before: seq<Rec>)
    returns (status: Status, ghost got: seq<Rec>)
    requires result.Valid() && result.headerPageNo == 1 && innerFile != result.file
    requires HeapShows(Meaning(result.mgr.State()), innerFile, 1, ic, d.vs)
    requires TaskOk(d, []) && Serves(c, outerRec, d) && IsInt(|before| + |Row(d.q, d.i)|)
    requires Stored(Meaning(result.mgr.State()), result.file, result.chain, before)
    requires outputData.Length == OutputOffset(c.proj, |c.proj|) && outputData !in result.mgr.Repr
    modifies result, outputData, result.mgr.Repr
    ensures result.Valid() && fresh(result.mgr.Repr - old(result.mgr.Repr)) && result.base == old(result.base)
    ensures TaskOk(d, got)
    ensures Stored(Meaning(result.mgr.State()), result.file, result.chain, before + Part(d, got))
    ensures Grown(old(result.mgr.State()), result.mgr.State(), result.base, result.file,
                  |got| + if status == OK then 0 else 1)
    ensures Ends(status, Whole(d, got), result.base, 5, |old(result.mgr.disk.files)[result.file]| + |got|)
  {
    hide HeapFileScan.Valid, InsertFileScan.Valid, BufMgr.Valid, Inv, Sound, Meaning, PinCount, HeapOk, NoLonger;
    hide Spare, Passing, Row, TaskOk, Part, Steady, RowFilter, Whole, Lists, HeapLayout.Views, Together, InnerFilter;
    got := [];
    FilterOf(d, c, outerRec);
    InFiles(result);
    InsertNotNull(result);
    ghost var s, b := result.mgr.State(), result.base;
    var scan;
    var filter := InnerFilter(c.d1.attr, c.op, c.d2.attr, outerRec);
    status, scan := OpenBeside(result, innerFile, filter, ic);
    ghost var t := result.mgr.State();
    ReadGrown(s, t, b, result.file, innerFile);
    assert before + Part(d, []) == before;
    if Spare(b, 5) { SpareMore(b, 5, 4); }
    if status != OK { return; }
    status, got := RowLoop(scan, result, c, outerRec, outputData, b, d, before);
    ghost var u := result.mgr.State();
    GrownBy(s, t, u, b, result.file, 0, |got| + if status == OK then 0 else 1);
    RowFacts(scan, result, b, d, got, before);
    CloseBeside(scan, result, b, last);
    ReadGrown(u, result.mgr.State(), b, result.file, innerFile);
    GrownBy(s, u, result.mgr.State(), b, result.file, |got| + if status == OK then 0 else 1, 0);
  }

  // ---------- all rows ----------

  /** The records of the query are those that scans of these pages read, and its records fit on a page. */
  ghost predicate PlanOk(q: Query, ovs: seq<View>, ivs: seq<View>) {
    && Ready(q) && 1 <= OutputOffset(q.proj, |q.proj|) <= MAXRECORD
    && ovs != [] && InBoundsAll(ovs) && q.outer == Read(ovs)
    && ivs != [] && InBoundsAll(ivs) && q.inner == Read(ivs)
  }

  /** Records that the rows before i make, none of them twice; all of them if whole. */
  ghost predicate RowsSoFar(q: Query, i: nat, rows: seq<Rec>, whole: bool) {
    && Ready(q) && i <= |q.outer| && multiset(rows) <= multiset(JoinResultTo(q, i)) && |rows| <= |JoinResultTo(q, i)|
    && (whole ==> rows == JoinResultTo(q, i))
  }

  lemma {:induction false} RowsWithin(q: Query, i: nat)
    requires Ready(q) && i <= |q.outer|
    ensures JoinResultTo(q, i) <= JoinResult(q, Visits(q))
    decreases |q.outer| - i
  {
    hide Ready, Visits, MadeAll, InBothScans, Row;
    if i < |q.outer| {
      RowMade(q, i);
      RowsWithin(q, i + 1);
    }
  }

  lemma RowsStep(q: Query, i: nat, rows: seq<Rec>, whole: bool, made: seq<Rec>)
    requires RowsSoFar(q, i, rows, whole) && i < |q.outer| && made <= Row(q, i)
    ensures RowsSoFar(q, i + 1, rows + made, whole && made == Row(q, i))
    ensures |rows| + |Row(q, i)| <= |JoinResult(q, Visits(q))|
  {
    hide Ready, Visits, JoinResult, JoinResultTo, Row;
    RowMade(q, i);
    RowsWithin(q, i + 1);
    var r := Row(q, i);
    assert r == made + r[|made|..];
    assert multiset(r) == multiset(made) + multiset(r[|made|..]);
    assert multiset(rows + made) == multiset(rows) + multiset(made);
  }

  /** The outer scan waits after i records, and the result holds the rows made of them. */
  ghost predicate JoinSoFar(outer: HeapFileScan, result: InsertFileScan, b: Sys, q: Query, ovs: seq<View>,
      innerFile: FileId, ic: seq<int>, ivs: seq<View>, rows: seq<Rec>, before: seq<Rec>)
    reads outer, result, outer.mgr, outer.mgr.Repr
  {
    && Together(outer, result, b) && result.headerPageNo == 1 && PlanOk(q, ovs, ivs) && outer.filter == NoFilter
    && HeapShows(Meaning(outer.mgr.State()), outer.file, outer.headerPageNo, outer.chain, ovs)
    && innerFile != result.file && HeapShows(Meaning(outer.mgr.State()), innerFile, 1, ic, ivs)
    && IsInt(|before| + |JoinResult(q, Visits(q))|)
    && Stored(Meaning(outer.mgr.State()), result.file, result.chain, before + rows)
  }

  /** The outer record read next is the next one of the query. */
  lemma OuterReads(q: Query, ovs: seq<View>, ivs: seq<View>, chain: seq<int>, found: seq<Pos>, rids: seq<RID>, p: Pos,
      got: seq<Rec>)
    requires PlanOk(q, ovs, ivs) && Reading(ovs, chain, NoFilter, found, rids, p, got)
    ensures InBoundsAll(ovs) && AtPage(ovs, START) && got <= q.outer
    ensures Drain(ovs, START, NoFilter) == found ==> got == q.outer
  {
    hide Reading, Passing, Drain, Read, InBoundsAll, Ready;
    ReadingPrefix(ovs, chain, NoFilter, found, rids, p, got);
    ReadAllPass(q.outer);
  }

  lemma TaskFor(q: Query, ovs: seq<View>, ivs: seq<View>, c: Condition, i: nat)
    requires PlanOk(q, ovs, ivs) && i < |q.outer| && q == Asked(c, q.outer, q.inner)
    ensures TaskOk(Task(q, i, ivs), []) && Serves(c, q.outer[i], Task(q, i, ivs))
  {
    hide Ready, Read, InBoundsAll, RowFilter, Passing;
  }

  /** A heap file other than the one that changes. */
  lemma ShowsSteady(s: Sys, t: Sys, b: Sys, f: FileId, file: FileId, chain: seq<int>, vs: seq<View>)
    requires Steady(s, t, b, f) && file != f && HeapShows(Meaning(s), file, 1, chain, vs)
    ensures HeapShows(Meaning(t), file, 1, chain, vs)
  {
    hide Sound, Meaning, HeaderOk, ViewAt, LinkTo, PinCount;
    assert SteadyAt(s, t, b, Key(file, 1));
    forall j | 0 <= j < |chain|
      ensures Key(file, chain[j]) in Meaning(t) && Key(file, chain[j]) in Meaning(s)
      ensures Meaning(t)[Key(file, chain[j])] == Meaning(s)[Key(file, chain[j])]
    {
      assert PageOk(Meaning(s), file, chain[j]);
      assert SteadyAt(s, t, b, Key(file, chain[j]));
    }
    HeapFrame(Meaning(s), Meaning(t), file, 1, chain);
  }

  lemma JoinFacts(outer: HeapFileScan, result: InsertFileScan, b: Sys, q: Query, ovs: seq<View>,
      innerFile: FileId, ic: seq<int>, ivs: seq<View>, rows: seq<Rec>, before: seq<Rec>)
    requires JoinSoFar(outer, result, b, q, ovs, innerFile, ic, ivs, rows, before)
    ensures Together(outer, result, b) && Both(outer.mgr.State(), b, outer.W(), result.W())
    ensures Sound(outer.mgr.State()) && Sound(b) && Inv(outer.mgr.State())
    ensures Steady(outer.mgr.State(), outer.mgr.State(), b, result.file)
  {
    hide BufMgr.Valid, Inv, Meaning, HeapOk, HeapFileScan.Waits, InsertFileScan.Waits, PinCount, PlanOk, Stored;
    PinnedThere(outer, result, b);
  }

  lemma GrownWeaker(s: Sys, t: Sys, o: Sys, b: Sys, f: FileId, n: nat)
    requires Grown(s, t, o, f, n) && Sound(b) && forall k :: PinCount(b, k) <= PinCount(o, k)
    ensures Grown(s, t, b, f, n)
  {
    hide Sound, PinCount, Steady;
    SteadyWeaker(s, t, o, b, f);
  }

  lemma PartMade(d: Task, got: seq<Rec>)
    requires TaskOk(d, got)
    ensures d.i < |d.q.outer| && Ready(d.q) && Part(d, got) <= Row(d.q, d.i) && |Part(d, got)| == |got|
    ensures Whole(d, got) <==> Part(d, got) == Row(d.q, d.i)
  {
    hide Passing, RowFilter, Read, MadeOf;
    PartOf(d, got);
  }

  /** The row of an outer record is made while the outer scan waits. */
  method RowBeside(outer: HeapFileScan, result: InsertFileScan, c: Condition, outerRec: Rec, innerFile: FileId,
      last: bool, outputData: array<Byte>, ghost b: Sys, ghost q: Query, ghost ovs: seq<View>, ghost ic: seq<int>,
      ghost ivs: seq<View>, ghost i: nat, ghost rows: seq<Rec>, ghost before: seq<Rec>)
    returns (status: Status, ghost made: seq<Rec>)
    requires JoinSoFar(outer, result, b, q, ovs, innerFile, ic, ivs, rows, before)
    requires q == Asked(c, q.outer, q.inner) && i < |q.outer| && q.outer[i] == outerRec && RowsSoFar(q, i, rows, false)
    requires outputData.Length == OutputOffset(c.proj, |c.proj|) && outputData !in outer.mgr.Repr
    modifies result, outputData, outer.mgr.Repr
    ensures fresh(outer.mgr.Repr - old(outer.mgr.Repr))
    ensures JoinSoFar(outer, result, b, q, ovs, innerFile, ic, ivs, rows + made, before) && made <= Row(q, i)
    ensures Grown(old(outer.mgr.State()), outer.mgr.State(), b, result.file, |made| + if status == OK then 0 else 1)
    ensures Ends(status, made == Row(q, i), b, 7, |old(outer.mgr.disk.files)[result.file]| + |made|)
  {
    hide Read, InBoundsAll, Visits, Placed, Next, Ready, MadeOf, FilesReady, Ends;
    hide InsertFileScan.Valid, BufMgr.Valid, Inv, Sound, Meaning, PinCount, HeapOk, HeapFileScan.Waits;
    hide InsertFileScan.Waits, TaskOk, Part, Row, PlanOk, Steady, RowsSoFar, JoinResult, HeapLayout.Views, Lists, Spare;
    hide Both, Whole;
    JoinFacts(outer, result, b, q, ovs, innerFile, ic, ivs, rows, before);
    ghost var s, w, r := outer.mgr.State(), outer.W(), result.W();
    ghost var o, d := Without(s, r), Task(q, i, ivs);
    WriterAlone(s, b, w, r);
    result.Resume(o);
    TaskFor(q, ovs, ivs, c, i);
    RowsStep(q, i, rows, false, []);
    ghost var got;
    status, got := JoinRow(result, c, outerRec, innerFile, last, outputData, d, ic, before + rows);
    ghost var t := outer.mgr.State();
    made := Part(d, got);
    PartMade(d, got);
    assert before + rows + made == before + (rows + made);
    WriteDone(outer, result, s, b, r);
    ShowsSteady(s, t, o, result.file, innerFile, ic, ivs);
    GrownWeaker(s, t, o, b, result.file, |made| + if status == OK then 0 else 1);
    if Spare(b, 7) { SpareBeside(o, b, w, 5); }
    EndsBeside(status, Whole(d, got), o, b, |s.files[result.file]| + |made|);
  }

  lemma EndsBeside(status: Status, whole: bool, o: Sys, b: Sys, size: int)
    requires Ends(status, whole, o, 5, size) && (Spare(b, 7) ==> Spare(o, 5))
    ensures Ends(status, whole, b, 7, size)
  {
    hide Spare;
  }

  /** One turn of the outer loop: the next outer record and its row. */
  method OuterTurn(outer: HeapFileScan, result: InsertFileScan, c: Condition, innerFile: FileId, last: bool,
      outputData: array<Byte>, ghost b: Sys, ghost q: Query, ghost ovs: seq<View>, ghost ic: seq<int>,
      ghost ivs: seq<View>, ghost found: seq<Pos>, ghost rids: seq<RID>, ghost i: nat, ghost rows: seq<Rec>,
      ghost before: seq<Rec>) returns (status: Status, stop: bool, rid: RID, ghost made: seq<Rec>)
    requires JoinSoFar(outer, result, b, q, ovs, innerFile, ic, ivs, rows, before) && outer.curPage != null
    requires q == Asked(c, q.outer, q.inner) && i <= |q.outer| && RowsSoFar(q, i, rows, false)
    requires Reading(ovs, outer.chain, NoFilter, found, rids, outer.Where(), q.outer[..i])
    requires outputData.Length == OutputOffset(c.proj, |c.proj|) && outputData !in outer.mgr.Repr
    requires result.file in outer.mgr.disk.files
    modifies outer`base, outer`curPage, outer`curPageNo, outer`curDirtyFlag, outer`cur, outer`curRec
    modifies result, outputData, outer.mgr.Repr
    ensures fresh(outer.mgr.Repr - old(outer.mgr.Repr))
    ensures JoinSoFar(outer, result, b, q, ovs, innerFile, ic, ivs, rows + made, before)
    ensures Grown(old(outer.mgr.State()), outer.mgr.State(), b, result.file, |made| + if status == OK then 0 else 1)
    ensures Ends(status, true, b, 7, |old(outer.mgr.disk.files)[result.file]| + |made|)
    ensures if stop && status == OK then made == [] && (i == |q.outer| || !Spare(b, 7))
            else i < |q.outer| && made <= Row(q, i) && (!stop ==> status == OK && (made == Row(q, i) || !Spare(b, 7)))
    ensures AtPage(ovs, START) && InBoundsAll(ovs)
    ensures !stop ==>
      && outer.curPage != null && AtPage(ovs, old(outer.Where())) && AtPage(ovs, outer.Where())
      && Reading(ovs, outer.chain, NoFilter, found + [outer.Where()], rids + [rid], outer.Where(), q.outer[..i + 1])
      && Remaining(ovs, outer.Where()) < Remaining(ovs, old(outer.Where()))
  {
    hide HeapFileScan.Valid, InsertFileScan.Valid, BufMgr.Valid, Inv, Sound, Meaning, PinCount, HeapOk, Both, PlanOk;
    hide HeapFileScan.Waits, InsertFileScan.Waits, NoLonger, Spare, Reading, Remaining, Drain, InBoundsAll, RowsSoFar;
    hide Row, Steady, Grown, Lists, HeapLayout.Views, JoinResult;
    made := [];
    ghost var s, p := outer.mgr.State(), outer.Where();
    assert rows + [] == rows;
    OtherFile(outer, result, b);
    var rec;
    status, rid, rec := ReadBeside(outer, result, b, ovs, found, rids, q.outer[..i]);
    ghost var t := outer.mgr.State();
    ReadGrown(s, t, b, result.file, outer.file);
    stop := status != OK;
    if stop {
      OuterReads(q, ovs, ivs, outer.chain, found, rids, p, q.outer[..i]);
      if Spare(b, 7) { SpareMore(b, 7, 4); }
      status := OK;
      return;
    }
    OuterReads(q, ovs, ivs, outer.chain, found + [outer.Where()], rids + [rid], outer.Where(), q.outer[..i] + [rec]);
    assert (q.outer[..i] + [rec])[i] == rec && q.outer[..i] + [rec] == q.outer[..i + 1];
    status, made := RowBeside(outer, result, c, rec, innerFile, last, outputData, b, q, ovs, ic, ivs, i, rows, before);
    GrownBy(s, t, outer.mgr.State(), b, result.file, 0, |made| + if status == OK then 0 else 1);
    stop := status != OK;
  }

  lemma OtherFile(outer: HeapFileScan, result: InsertFileScan, b: Sys)
    requires Together(outer, result, b)
    ensures outer.file != result.file
  {
    hide BufMgr.Valid, Inv, HeapFileScan.Waits, InsertFileScan.Waits, PinCount, Sound;
  }

  lemma RowsFirst(q: Query)
    requires Ready(q)
    ensures RowsSoFar(q, 0, [], true) && RowsSoFar(q, 0, [], false)
  {
    hide ProjectionCovered, Visits;
    assert JoinResultTo(q, 0) == [];
  }

  lemma RowsAll(q: Query, i: nat, rows: seq<Rec>, whole: bool)
    requires RowsSoFar(q, i, rows, whole)
    ensures multiset(rows) <= multiset(JoinResult(q, Visits(q)))
    ensures whole && i == |q.outer| ==> rows == JoinResult(q, Visits(q))
  {
    hide Ready, Visits, MadeAll, InBothScans;
    RowsWithin(q, i);
    PrefixBag(JoinResultTo(q, i), JoinResult(q, Visits(q)));
  }

  lemma PrefixBag(a: seq<Rec>, b: seq<Rec>)
    requires a <= b
    ensures multiset(a) <= multiset(b)
  {
    assert b == a + b[|a|..];
  }

  /** The outer scan runs to its end, or until the pool or the file has no room. */
  method OuterLoop(outer: HeapFileScan, result: InsertFileScan, c: Condition, innerFile: FileId, last: bool,
      outputData: array<Byte>, ghost b: Sys, ghost q: Query, ghost ovs: seq<View>, ghost ic: seq<int>,
      ghost ivs: seq<View>, ghost before: seq<Rec>) returns (status: Status, ghost rows: seq<Rec>)
    requires JoinSoFar(outer, result, b, q, ovs, innerFile, ic, ivs, [], before) && q == Asked(c, q.outer, q.inner)
    requires outer.curPage != null && outer.Where() == START && |ovs| == |outer.chain|
    requires outputData.Length == OutputOffset(c.proj, |c.proj|) && outputData !in outer.mgr.Repr
    requires result.file in outer.mgr.disk.files
    modifies outer`base, outer`curPage, outer`curPageNo, outer`curDirtyFlag, outer`cur, outer`curRec
    modifies result, outputData, outer.mgr.Repr
    ensures fresh(outer.mgr.Repr - old(outer.mgr.Repr))
    ensures JoinSoFar(outer, result, b, q, ovs, innerFile, ic, ivs, rows, before)
    ensures Grown(old(outer.mgr.State()), outer.mgr.State(), b, result.file, |rows| + if status == OK then 0 else 1)
    ensures multiset(rows) <= multiset(JoinResult(q, Visits(q)))
    ensures Ends(status, rows == JoinResult(q, Visits(q)), b, 7, |old(outer.mgr.disk.files)[result.file]| + |rows|)
  {
    hide HeapFileScan.Valid, InsertFileScan.Valid, BufMgr.Valid, Inv, Sound, Meaning, PinCount, HeapOk;
    hide Spare, Reading, Remaining, InBoundsAll, RowsSoFar, Row, Steady, JoinResult, JoinSoFar, Ready;
    hide Asked, PlanOk, Visits, OutputOffset, UsedAt;
    JoinFacts(outer, result, b, q, ovs, innerFile, ic, ivs, [], before);
    PlanFacts(outer, result, b, q, ovs, innerFile, ic, ivs, [], before);
    ReadingFirst(ovs, outer.chain, NoFilter);
    RowsFirst(q);
    ghost var s, found, rids, i, whole := outer.mgr.State(), [], [], 0, true;
    rows := [];
    assert q.outer[..0] == [];
    var stop := false;
    status := OK;
    while !stop
      invariant fresh(outer.mgr.Repr - old(outer.mgr.Repr)) && InBoundsAll(ovs) && AtPage(ovs, START)
      invariant JoinSoFar(outer, result, b, q, ovs, innerFile, ic, ivs, rows, before)
      invariant Grown(s, outer.mgr.State(), b, result.file, |rows| + if status == OK then 0 else 1)
      invariant i <= |q.outer| && RowsSoFar(q, i, rows, whole) && RowsSoFar(q, i, rows, false)
      invariant !stop ==>
        && status == OK && outer.curPage != null && AtPage(ovs, outer.Where())
        && Reading(ovs, outer.chain, NoFilter, found, rids, outer.Where(), q.outer[..i])
      invariant Ends(status, stop ==> whole && i == |q.outer|, b, 7,
                     |old(outer.mgr.disk.files)[result.file]| + |rows|)
      invariant status == OK ==> whole || !Spare(b, 7)
      decreases !stop, if AtPage(ovs, outer.Where()) then Remaining(ovs, outer.Where()) else 0
    {
      var rid;
      ghost var t, made := outer.mgr.State(), [];
      status, stop, rid, made := OuterTurn(outer, result, c, innerFile, last, outputData, b, q, ovs, ic, ivs, found,
                                           rids, i, rows, before);
      GrownBy(s, t, outer.mgr.State(), b, result.file, |rows|, |made| + if status == OK then 0 else 1);
      if stop && status == OK {
        assert rows + made == rows;
      } else {
        RowsStep(q, i, rows, whole, made);
        RowsStep(q, i, rows, false, made);
        i, whole, rows := i + 1, whole && made == Row(q, i), rows + made;
        found, rids := found + [outer.Where()], rids + [rid];
      }
    }
    RowsAll(q, i, rows, whole);
  }

  lemma PlanFacts(outer: HeapFileScan, result: InsertFileScan, b: Sys, q: Query, ovs: seq<View>,
      innerFile: FileId, ic: seq<int>, ivs: seq<View>, rows: seq<Rec>, before: seq<Rec>)
    requires JoinSoFar(outer, result, b, q, ovs, innerFile, ic, ivs, rows, before)
    ensures PlanOk(q, ovs, ivs) && Ready(q) && ovs != [] && InBoundsAll(ovs)
  {
    hide BufMgr.Valid, Inv, Meaning, HeapOk, Together, Stored, InBounds, Read;
  }

  // ---------- the join of two files into a third ----------

  /** Both relations are heap files in order, and the result is one that lists the records before. */
  ghost predicate FilesReady(m: Contents, resultFile: FileId, outerFile: FileId, innerFile: FileId, rc: seq<int>,
      oc: seq<int>, ic: seq<int>, ovs: seq<View>, ivs: seq<View>, before: seq<Rec>)
  {
    && resultFile != outerFile && resultFile != innerFile
    && HeapShows(m, outerFile, 1, oc, ovs) && HeapShows(m, innerFile, 1, ic, ivs) && Stored(m, resultFile, rc, before)
  }

  /** The three files of an open result stand as before it was opened. */
  lemma ReadyOpened(s: Sys, result: InsertFileScan, outerFile: FileId, innerFile: FileId, oc: seq<int>,
      ic: seq<int>, ovs: seq<View>, ivs: seq<View>, before: seq<Rec>)
    requires result.Valid() && result.headerPageNo == 1 && Sound(s) && Elsewhere(s, result.mgr.State(), result.file)
    requires FilesReady(Meaning(s), result.file, outerFile, innerFile, result.chain, oc, ic, ovs, ivs, before)
    requires result.Views() == HeapLayout.Views(Meaning(s), result.file, result.chain)
    ensures FilesReady(Meaning(result.mgr.State()), result.file, outerFile, innerFile, result.chain, oc, ic, ovs, ivs,
                       before)
    ensures Steady(s, result.mgr.State(), s, result.file)
  {
    hide InsertFileScan.Valid, BufMgr.Valid, Inv, Sound, Meaning, PinCount, HeapOk, Elsewhere, Steady, Lists;
    hide HeapLayout.Views;
    var t := result.mgr.State();
    WriteSteady(s, t, s, result.file);
    ShowsSteady(s, t, s, result.file, outerFile, oc, ovs);
    ShowsSteady(s, t, s, result.file, innerFile, ic, ivs);
    Inserted(result);
  }

  /** The result is closed: its pins are given back, and it holds what it held. */
  method CloseResult(result: InsertFileScan, ghost s: Sys, ghost recs: seq<Rec>)
    requires result.Valid() && result.headerPageNo == 1 && result.base == s
    requires Stored(Meaning(result.mgr.State()), result.file, result.chain, recs)
    requires Steady(s, result.mgr.State(), s, result.file)
    modifies result, result.mgr.Repr
    ensures result.mgr.Valid() && fresh(result.mgr.Repr - old(result.mgr.Repr)) && result.chain == old(result.chain)
    ensures result.base == s && result !in result.mgr.Repr && Sound(s)
    ensures Inv(result.mgr.State()) && Sound(result.mgr.State()) && Steady(s, result.mgr.State(), s, result.file)
    ensures Stored(Meaning(result.mgr.State()), result.file, result.chain, recs)
    ensures forall k :: PinCount(result.mgr.State(), k) == PinCount(s, k)
    ensures Unpinned(s, result.file) ==> OnDisk(result.mgr.State(), result.file)
  {
    hide InsertFileScan.Valid, BufMgr.Valid, Inv, Sound, Meaning, PinCount, HeapOk, Elsewhere, Steady, Lists;
    hide HeapLayout.Views, OnDisk, Unpinned, PinsOk;
    ghost var t := result.mgr.State();
    Inserted(result);
    result.Pause();
    AtLeast(t, result.W());
    var ignored := CloseFile(result);
    WriteSteady(t, result.mgr.State(), s, result.file);
    SteadyTrans(s, t, result.mgr.State(), s, result.file);
  }

  lemma AtLeast(t: Sys, w: Session)
    requires Pinned(t, w)
    ensures forall k :: PinCount(w.base, k) <= PinCount(t, k)
  {
    hide Inv, Sound, Placed, PinCount;
  }

  /** The outer scan is run to its end and closed. */
  method LoopAndClose(outer: HeapFileScan, result: InsertFileScan, c: Condition, innerFile: FileId, last: bool,
      outputData: array<Byte>, ghost b: Sys, ghost q: Query, ghost ovs: seq<View>, ghost ic: seq<int>,
      ghost ivs: seq<View>, ghost before: seq<Rec>) returns (status: Status, ghost rows: seq<Rec>)
    requires JoinSoFar(outer, result, b, q, ovs, innerFile, ic, ivs, [], before) && q == Asked(c, q.outer, q.inner)
    requires outer.curPage != null && outer.Where() == START && |ovs| == |outer.chain|
    requires outputData.Length == OutputOffset(c.proj, |c.proj|) && outputData !in outer.mgr.Repr
    requires result.file in outer.mgr.disk.files
    modifies outer`base, outer`curPage, outer`curPageNo, outer`curDirtyFlag, outer`cur, outer`curRec
    modifies result, outputData, outer.mgr.Repr
    ensures fresh(outer.mgr.Repr - old(outer.mgr.Repr)) && result.mgr == outer.mgr && result.Valid() && result.base == b
    ensures Stored(Meaning(outer.mgr.State()), result.file, result.chain, before + rows)
    ensures multiset(rows) <= multiset(JoinResult(q, Visits(q)))
    ensures Ends(status, rows == JoinResult(q, Visits(q)), b, 7, |old(outer.mgr.disk.files)[result.file]| + |rows|)
    ensures Steady(old(outer.mgr.State()), outer.mgr.State(), b, result.file)
  {
    hide HeapFileScan.Valid, InsertFileScan.Valid, BufMgr.Valid, Inv, Sound, Meaning, PinCount, HeapOk, Steady, Read;
    hide Spare, JoinResult, Stored, Both, HeapFileScan.Waits, InsertFileScan.Waits, NoLonger, PlanOk, Visits, Ends;
    hide Ready, InBoundsAll, JoinSoFar;
    ghost var s := outer.mgr.State();
    StillTogether(outer, result, b, q, ovs, innerFile, ic, ivs, [], before);
    status, rows := OuterLoop(outer, result, c, innerFile, last, outputData, b, q, ovs, ic, ivs, before);
    ghost var t := outer.mgr.State();
    StillTogether(outer, result, b, q, ovs, innerFile, ic, ivs, rows, before);
    CloseBeside(outer, result, b, true);
    SteadyTrans(s, t, outer.mgr.State(), b, result.file);
  }

  /** The loops over an open result. */
  method JoinLoops(result: InsertFileScan, c: Condition, outerFile: FileId, innerFile: FileId, ghost q: Query,
      ghost oc: seq<int>, ghost ic: seq<int>, ghost ovs: seq<View>, ghost ivs: seq<View>, ghost before: seq<Rec>)
    returns (status: Status, ghost rows: seq<Rec>)
    requires result.Valid() && result.headerPageNo == 1
    requires Steady(result.base, result.mgr.State(), result.base, result.file)
    requires FilesReady(Meaning(result.mgr.State()), result.file, outerFile, innerFile, result.chain, oc, ic, ovs, ivs,
                        before)
    requires PlanOk(q, ovs, ivs) && q == Asked(c, q.outer, q.inner)
    requires IsInt(|before| + |JoinResult(q, Visits(q))|)
    modifies result, result.mgr.Repr
    ensures result.Valid() && fresh(result.mgr.Repr - old(result.mgr.Repr)) && result.base == old(result.base)
    ensures result.file in old(result.mgr.disk.files)
    ensures Stored(Meaning(result.mgr.State()), result.file, result.chain, before + rows)
    ensures multiset(rows) <= multiset(JoinResult(q, Visits(q)))
    ensures Ends(status, rows == JoinResult(q, Visits(q)), result.base, 7,
                 |old(result.mgr.disk.files)[result.file]| + |rows|)
    ensures Steady(result.base, result.mgr.State(), result.base, result.file)
  {
    hide Read, InBoundsAll, Next, Placed, PinsOk, HeapFileScan.Waits, InsertFileScan.Waits, FilesReady, Ends, Both;
    hide HeapFileScan.Valid, InsertFileScan.Valid, BufMgr.Valid, Inv, Sound, Meaning, PinCount, HeapOk, Steady;
    hide Spare, JoinResult, Lists, HeapLayout.Views, Together, Unpinned, OnDisk, NoLonger, PlanOk, JoinSoFar, Visits;
    hide Ready, Stored;
    rows := [];
    assert before + [] == before;
    InFiles(result);
    InsertNotNull(result);
    ghost var b, s := result.base, result.mgr.State();
    PlanLength(q, ovs, ivs);
    OpenWriter(result);
    ReadyParts(Meaning(s), result.file, outerFile, innerFile, result.chain, oc, ic, ovs, ivs, before);
    NothingMade(q, b, |s.files[result.file]|);
    var outputData := new Byte[OutputOffset(c.proj, |c.proj|)](i => 0);
    var outer;
    status, outer := OpenBeside(result, outerFile, NoFilter, oc);
    ghost var t := result.mgr.State();
    SteadyTrans(b, s, t, b, result.file);
    ReadGrown(s, t, b, result.file, outerFile);
    if status != OK { return; }
    JoinStarts(outer, result, b, q, ovs, innerFile, ic, ivs, before);
    status, rows := LoopAndClose(outer, result, c, innerFile, innerFile != outerFile, outputData, b, q, ovs, ic, ivs,
                                 before);
    EndsLarger(status, rows == JoinResult(q, Visits(q)), b, 7, |t.files[result.file]| + |rows|,
               |s.files[result.file]| + |rows|);
    SteadyTrans(b, t, result.mgr.State(), b, result.file);
  }

  /** The loops over an open result, which is closed in the end. */
  method JoinOpened(result: InsertFileScan, c: Condition, outerFile: FileId, innerFile: FileId, ghost q: Query,
      ghost oc: seq<int>, ghost ic: seq<int>, ghost ovs: seq<View>, ghost ivs: seq<View>, ghost before: seq<Rec>)
    returns (status: Status, ghost rows: seq<Rec>)
    requires result.Valid() && result.headerPageNo == 1
    requires Steady(result.base, result.mgr.State(), result.base, result.file)
    requires FilesReady(Meaning(result.mgr.State()), result.file, outerFile, innerFile, result.chain, oc, ic, ovs, ivs,
                        before)
    requires PlanOk(q, ovs, ivs) && q == Asked(c, q.outer, q.inner)
    requires IsInt(|before| + |JoinResult(q, Visits(q))|)
    modifies result, result.mgr.Repr
    ensures result.mgr.Valid() && fresh(result.mgr.Repr - old(result.mgr.Repr)) && result.base == old(result.base)
    ensures result.file in old(result.mgr.disk.files) && result !in result.mgr.Repr
    ensures Inv(result.mgr.State()) && Sound(result.mgr.State()) && Sound(result.base)
    ensures Stored(Meaning(result.mgr.State()), result.file, result.chain, before + rows)
    ensures multiset(rows) <= multiset(JoinResult(q, Visits(q)))
    ensures Ends(status, rows == JoinResult(q, Visits(q)), result.base, 7,
                 |old(result.mgr.disk.files)[result.file]| + |rows|)
    ensures Steady(result.base, result.mgr.State(), result.base, result.file)
    ensures forall k :: PinCount(result.mgr.State(), k) == PinCount(result.base, k)
    ensures Unpinned(result.base, result.file) ==> OnDisk(result.mgr.State(), result.file)
  {
    hide InsertFileScan.Valid, BufMgr.Valid, Inv, Sound, Meaning, PinCount, HeapOk, Steady, Spare, JoinResult, Lists;
    hide HeapLayout.Views, Unpinned, OnDisk, PlanOk, Visits, Ready, Stored, Ends;
    ghost var b := result.base;
    status, rows := JoinLoops(result, c, outerFile, innerFile, q, oc, ic, ovs, ivs, before);
    InsertNotNull(result);
    CloseResult(result, b, before + rows);
  }

  lemma EndsLarger(status: Status, whole: bool, b: Sys, n: nat, size: int, larger: int)
    requires Ends(status, whole, b, n, size) && size <= larger
    ensures Ends(status, whole, b, n, larger)
  {
  }

  lemma OpenWriter(result: InsertFileScan)
    requires result.Valid()
    ensures result.mgr.Valid() && Sound(result.mgr.State()) && Inv(result.mgr.State()) && Sound(result.base)
  {
    hide BufMgr.Valid, Inv, HeapOk, Meaning, PinsOk;
  }

  lemma ReadyParts(m: Contents, resultFile: FileId, outerFile: FileId, innerFile: FileId, rc: seq<int>,
      oc: seq<int>, ic: seq<int>, ovs: seq<View>, ivs: seq<View>, before: seq<Rec>)
    requires FilesReady(m, resultFile, outerFile, innerFile, rc, oc, ic, ovs, ivs, before)
    ensures resultFile != outerFile && HeapOk(m, outerFile, 1, oc) && Stored(m, resultFile, rc, before)
  {
    hide HeapOk, Lists;
  }

  /** Without a frame for the outer scan no row is made. */
  lemma NothingMade(q: Query, b: Sys, size: int)
    requires Ready(q)
    ensures !Spare(b, 4) ==> Ends(BUFFEREXCEEDED, [] == JoinResult(q, Visits(q)), b, 7, size)
  {
    hide Spare, JoinResult, Visits, Ready;
    if Spare(b, 7) { SpareMore(b, 7, 4); }
  }

  lemma JoinStarts(outer: HeapFileScan, result: InsertFileScan, b: Sys, q: Query, ovs: seq<View>,
      innerFile: FileId, ic: seq<int>, ivs: seq<View>, before: seq<Rec>)
    requires Together(outer, result, b) && result.headerPageNo == outer.headerPageNo == 1 && PlanOk(q, ovs, ivs)
    requires FilesReady(Meaning(outer.mgr.State()), result.file, outer.file, innerFile, result.chain, outer.chain, ic,
                        ovs, ivs, before)
    requires outer.filter == NoFilter && IsInt(|before| + |JoinResult(q, Visits(q))|)
    ensures JoinSoFar(outer, result, b, q, ovs, innerFile, ic, ivs, [], before) && |ovs| == |outer.chain|
  {
    hide BufMgr.Valid, Inv, Meaning, HeapOk, Together, Lists, PlanOk, JoinResult, Visits;
    assert before + [] == before;
  }

  lemma PlanLength(q: Query, ovs: seq<View>, ivs: seq<View>)
    requires PlanOk(q, ovs, ivs)
    ensures Ready(q) && 1 <= OutputOffset(q.proj, |q.proj|)
  {
  }

  lemma StillTogether(outer: HeapFileScan, result: InsertFileScan, b: Sys, q: Query, ovs: seq<View>,
      innerFile: FileId, ic: seq<int>, ivs: seq<View>, rows: seq<Rec>, before: seq<Rec>)
    requires JoinSoFar(outer, result, b, q, ovs, innerFile, ic, ivs, rows, before)
    ensures Together(outer, result, b)
    ensures Stored(Meaning(outer.mgr.State()), result.file, result.chain, before + rows)
  {
    hide BufMgr.Valid, Inv, Meaning, HeapOk, Together, Stored, PlanOk;
  }

  /**
   QU_NL_Join from the opening of the result relation on: three heap files on one
   pool.  The result gains exactly the rows of the nested loops, which are the
   theta join when no comparison overflows; a page that the pool refuses to a scan
   ends that scan early, and the join reports OK all the same.
   */
  method JoinFiles(mgr: BufMgr, c: Condition, resultFile: FileId, outerFile: FileId, innerFile: FileId, ghost q: Query,
      ghost rc: seq<int>, ghost oc: seq<int>, ghost ic: seq<int>, ghost ovs: seq<View>, ghost ivs: seq<View>,
      ghost before: seq<Rec>) returns (status: Status, ghost chain: seq<int>, ghost rows: seq<Rec>)
    requires mgr.Valid() && Inv(mgr.State()) && Sound(mgr.State())
    requires FilesReady(Meaning(mgr.State()), resultFile, outerFile, innerFile, rc, oc, ic, ovs, ivs, before)
    requires PlanOk(q, ovs, ivs) && q == Asked(c, q.outer, q.inner)
    requires IsInt(|before| + |JoinResult(q, Visits(q))|)
    modifies mgr.Repr
    ensures mgr.Valid() && fresh(mgr.Repr - old(mgr.Repr)) && Inv(mgr.State()) && Sound(mgr.State())
    ensures resultFile in old(mgr.disk.files)
    ensures Stored(Meaning(mgr.State()), resultFile, chain, before + rows)
    ensures multiset(rows) <= multiset(JoinResult(q, Visits(q)))
    ensures Ends(status, rows == JoinResult(q, Visits(q)), old(mgr.State()), 7,
                 |old(mgr.disk.files)[resultFile]| + |rows|)
    ensures AllExact(q.d1.attr, q.op, q.d2.attr, q.outer, q.inner) ==>
      JoinResult(q, Visits(q)) == JoinResult(q, Pairs(q))
    ensures Steady(old(mgr.State()), mgr.State(), old(mgr.State()), resultFile)
    ensures forall k :: PinCount(mgr.State(), k) == old(PinCount(mgr.State(), k))
    ensures status == OK && old(Unpinned(mgr.State(), resultFile)) ==> OnDisk(mgr.State(), resultFile)
  {
    hide Read, InBoundsAll, Next, Placed, PinsOk, Ready, AllExact, Refused, Ends, Unopenable;
    hide HeapFileScan.Valid, InsertFileScan.Valid, BufMgr.Valid, Inv, Sound, Meaning, PinCount, HeapOk, Steady;
    hide Spare, JoinResult, Lists, HeapLayout.Views, Unpinned, OnDisk, PlanOk, Elsewhere, Uninsertable, Visits, Pairs;
    chain, rows := rc, [];
    ghost var s := mgr.State();
    assert before + [] == before;
    HeaderIsFirst(s, resultFile, 1, rc);
    LoopsExact(q, ovs, ivs);
    NotOpened(q, ovs, ivs, s, resultFile, rc, |s.files[resultFile]|);
    var result;
    status, result := OpenInsert(mgr, resultFile, rc);
    if result == null {
      WriteSteady(s, mgr.State(), s, resultFile);
      return;
    }
    ReadyOpened(s, result, outerFile, innerFile, oc, ic, ovs, ivs, before);
    if status == OK {
      status, rows := JoinOpened(result, c, outerFile, innerFile, q, oc, ic, ovs, ivs, before);
    } else {
      CloseResult(result, s, before);
    }
    chain := result.chain;
  }

  /** Without frames for the result no row is made. */
  lemma NotOpened(q: Query, ovs: seq<View>, ivs: seq<View>, s: Sys, file: FileId, chain: seq<int>, size: int)
    requires PlanOk(q, ovs, ivs)
    ensures Unopenable(s, file, chain) ==> Uninsertable(s, file, chain)
    ensures Ready(q) && (Uninsertable(s, file, chain) ==>
      Ends(BUFFEREXCEEDED, [] == JoinResult(q, Visits(q)), s, 7, size))
  {
    hide Spare, JoinResult, Visits, Ready, Unopenable, Refused;
    if Spare(s, 7) {
      SpareMore(s, 7, 3);
      SpareOpens(s, file, chain);
    }
  }

  lemma LoopsExact(q: Query, ovs: seq<View>, ivs: seq<View>)
    requires PlanOk(q, ovs, ivs)
    ensures AllExact(q.d1.attr, q.op, q.d2.attr, q.outer, q.inner) ==>
      JoinResult(q, Visits(q)) == JoinResult(q, Pairs(q))
  {
    hide JoinResult, Visits, Pairs, Read, AllExact;
    if AllExact(q.d1.attr, q.op, q.d2.attr, q.outer, q.inner) { LoopsAreJoin(q); }
  }
}