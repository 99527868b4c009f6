/** Clients of a heap file scan, run over the buffer manager. */
module HeapClients {
  import opened Statuses
  import opened Bytes
  import opened Records
  import opened Disk
  import opened BufHash
  import opened BufferPool
  import opened Transparency
  import opened Pins
  import opened Bystanders
  import opened BufMgrs
  import opened PageView
  import opened Page
  import opened Compare
  import opened HeapSpec
  import opened Purge
  import opened HeapLayout
  import opened HeapSession
  import opened HeapFile

  /** The status in which a scan ends. */
  function EndStatus(r: Scanned): Status {
    match r
    case Eof => FILEEOF
    case Unreadable(_) => INVALIDSLOTNO
    case Hit(_) => OK
  }

  /** The pages that the scan has to read from page a on to come to this end can all be read. */
  ghost predicate Passes(scan: HeapFileScan, a: int, r: Scanned)
    reads scan`base
  {
    scan.Clear(a, Reach(r, |scan.chain|))
  }

  /** What a call of scanNext from p has led to. */
  ghost predicate Called(scan: HeapFileScan, vs: seq<View>, p: Pos, status: Status, rid: RID)
    reads scan
  {
    && AtPage(vs, p) && InBoundsAll(vs) && |vs| == |scan.chain| && scan.filter.Ok()
    && (status == OK ==>
          && scan.curPage != null && HeapSpec.ScanNext(vs, p, scan.filter) == Hit(scan.Where())
          && p.page <= scan.cur < |vs| && rid == RID(scan.chain[scan.cur], scan.curRec.slotNo)
          && scan.Clear(p.page, scan.cur) && Ending(vs, scan.Where()) == Ending(vs, p))
    && (status == BUFFEREXCEEDED ==> !Passes(scan, p.page, Ending(vs, p)))
    && (status != OK && status != BUFFEREXCEEDED ==>
          && HeapSpec.ScanNext(vs, p, scan.filter) == Ending(vs, p)
          && status == EndStatus(Ending(vs, p)) && Passes(scan, p.page, Ending(vs, p)))
    && (status == FILEEOF ==> AtEnd(scan, vs))
  }

  /**
   scanNext, and what it tells about the rest of the scan: another record, the end
   of it, or a page that is refused.
   */
  method Call(scan: HeapFileScan, ghost vs: seq<View>, ghost p: Pos) returns (status: Status, rid: RID)
    requires scan.Valid() && scan.curPage != null && vs == scan.Views() && p == scan.Where()
    requires AtPage(vs, p) && InBoundsAll(vs) && |vs| == |scan.chain|
    modifies scan`curPage, scan`curPageNo, scan`curDirtyFlag, scan`cur, scan`curRec, scan.mgr.Repr
    ensures scan.Valid() && fresh(scan.mgr.Repr - old(scan.mgr.Repr)) && scan.Views() == vs &&
      scan.filter == old(scan.filter)
    ensures scan.Contents() == old(scan.Contents()) && Called(scan, vs, p, status, rid)
    ensures Aside(old(scan.mgr.State()), scan.mgr.State(), scan.file, scan.base)
  {
    hide Elsewhere, Kept, HeapFileScan.Valid, InBounds, BlockedPage, HeapSpec.ScanNext, Ending, Next, MatchRec;
    scan.Ready();
    EndingAhead(vs, p, scan.filter);
    status, rid := scan.ScanNext();
  }

  /** The scan stands on the last page with no record left: every further scanNext reports the end of the file. */
  ghost predicate AtEnd(scan: HeapFileScan, vs: seq<View>)
    reads scan
  {
    scan.curPage != null && AtPage(vs, scan.Where()) && Next(vs, scan.Where()) == NoMore && scan.cur + 1 == |vs|
  }

  // ---------- deleting under the cursor ----------

  /** An unfiltered scan stops at every record. */
  lemma Unfiltered(vs: seq<View>, p: Pos)
    requires AtPage(vs, p) && InBoundsAll(vs)
    ensures match HeapSpec.ScanNext(vs, p, NoFilter)
            case Eof => Next(vs, p) == NoMore
            case Hit(q) => Next(vs, p) == At(q) && RecAt(vs, q) != [] && PageView.Live(vs[q.page], q.slot)
            case Unreadable(q) => Next(vs, p) == At(q) && RecAt(vs, q) == []
  {
    if Next(vs, p).At? { LiveAt(vs, Next(vs, p).pos); }
  }

  /** The scan from p ends here. */
  lemma PurgedEnd(vs: seq<View>, p: Pos, pred: seq<Byte> -> bool)
    requires AtPage(vs, p) && TidyAll(vs) && InBoundsAll(vs)
    requires Next(vs, p) == NoMore || RecAt(vs, Next(vs, p).pos) == []
    ensures Purged(vs, p, pred).0 == vs
  {
  }

  /** The scan from p goes on from q. */
  lemma PurgedStep(vs: seq<View>, p: Pos, q: Pos, pred: seq<Byte> -> bool)
    requires AtPage(vs, p) && TidyAll(vs) && InBoundsAll(vs)
    requires Next(vs, p) == At(q) && RecAt(vs, q) != [] && PageView.Live(vs[q.page], q.slot)
    ensures var us := Turn(vs, q, pred);
            && AtPage(us, q) && |us| == |vs| && TidyAll(us) && InBoundsAll(us)
            && Purged(vs, p, pred).0 == Purged(us, q, pred).0
            && |After(us, q)| < |After(vs, p)| && Ending(us, q) == Ending(vs, q)
  {
    hide Tidy, Turn, RecAt;
    NextIsHead(vs, p);
    TurnKeeps(vs, q, pred);
    TurnReads(vs, q, pred);
  }

  /** The record under the cursor, at q, goes if the predicate holds of it. */
  method DeleteIf(scan: HeapFileScan, pred: seq<Byte> -> bool, ghost vs: seq<View>, ghost q: Pos)
    requires scan.Valid() && scan.curPage != null && vs == scan.Views() && q == scan.Where()
    requires TidyAll(vs) && InBoundsAll(vs) && UsedAt(vs, q) && PageView.Live(vs[q.page], q.slot)
    modifies scan`curDirtyFlag, scan`hdrDirtyFlag, scan.mgr.Repr
    ensures scan.Valid() && fresh(scan.mgr.Repr - old(scan.mgr.Repr)) && scan.curPage != null
    ensures scan.Views() == Turn(vs, q, pred) && scan.Where() == q && scan.filter == old(scan.filter)
    ensures Elsewhere(old(scan.mgr.State()), scan.mgr.State(), scan.file)
  {
    hide HeapFileScan.Valid, Tidy, Delete, InBounds, Elsewhere;
    scan.Apart();
    scan.Still();
    var status, rec := scan.GetRecord(vs);
    if pred(rec) {
      status := scan.DeleteRecord();
    }
  }

  /** Pages a cursor can stand on and a client can delete from. */
  ghost predicate Clean(vs: seq<View>, p: Pos) {
    AtPage(vs, p) && TidyAll(vs) && InBoundsAll(vs)
  }

  /** One turn of the loop. */
  method DeleteTurn(scan: HeapFileScan, pred: seq<Byte> -> bool, ghost vs: seq<View>, ghost p: Pos)
    returns (status: Status, ghost ws: seq<View>, ghost q: Pos)
    requires scan.Valid() && scan.curPage != null && scan.filter == NoFilter && vs == scan.Views() && p == scan.Where()
    requires Clean(vs, p) && |vs| == |scan.chain|
    modifies scan, scan.mgr.Repr
    ensures scan.base == old(scan.base)
    ensures scan.Valid() && fresh(scan.mgr.Repr - old(scan.mgr.Repr)) && scan.filter == NoFilter
    ensures status == OK ==>
      && scan.curPage != null && ws == scan.Views() && q == scan.Where() && Clean(ws, q)
      && Purged(ws, q, pred).0 == Purged(vs, p, pred).0 && |After(ws, q)| < |After(vs, p)|
      && |ws| == |vs| && p.page <= q.page && scan.Clear(p.page, q.page) && Ending(ws, q) == Ending(vs, p)
    ensures status == BUFFEREXCEEDED ==> !Passes(scan, p.page, Ending(vs, p))
    ensures status != OK && status != BUFFEREXCEEDED ==>
      && scan.Views() == Purged(vs, p, pred).0
      && status == EndStatus(Ending(vs, p)) && Passes(scan, p.page, Ending(vs, p))
    ensures Elsewhere(old(scan.mgr.State()), scan.mgr.State(), scan.file)
  {
    hide BlockedPage, HeapFileScan.Valid, TidyAll, Delete, InBoundsAll, Turn, RecAt, Ending;
    hide HeapSpec.ScanNext, Purged, Next, Elsewhere;
    ws, q := vs, p;
    ghost var s := scan.mgr.State();
    scan.Apart();
    Unfiltered(vs, p);
    var rid;
    status, rid := Call(scan, vs, p);
    if status == OK {
      q := scan.Where();
      ghost var t := scan.mgr.State();
      PurgedStep(vs, p, q, pred);
      DeleteIf(scan, pred, vs, q);
      ElsewhereTrans(s, t, scan.mgr.State(), scan.file);
      ws := scan.Views();
    } else if status != BUFFEREXCEEDED {
      PurgedEnd(vs, p, pred);
    }
  }

  /**
   The loop of the catalog clients: scan everything, delete what the predicate
   names.  Unless a page is refused it leaves the pages PurgeLeaves describes and
   ends with the file, or at a record of length zero.
   */
  method DeleteWhere(scan: HeapFileScan, pred: seq<Byte> -> bool, ghost start: seq<View>) returns (status: Status)
    requires scan.Valid() && scan.curPage != null && scan.Where() == START && scan.filter == NoFilter
    requires start == scan.Views() && Clean(start, START) && |start| == |scan.chain|
    modifies scan, scan.mgr.Repr
    ensures scan.base == old(scan.base)
    ensures scan.Valid() && fresh(scan.mgr.Repr - old(scan.mgr.Repr))
    ensures status == if Passes(scan, 0, Ending(start, START)) then EndStatus(Ending(start, START)) else BUFFEREXCEEDED
    ensures status != BUFFEREXCEEDED ==> scan.Views() == Purged(start, START, pred).0
    ensures Elsewhere(old(scan.mgr.State()), scan.mgr.State(), scan.file)
  {
    hide HeapFileScan.Valid, BlockedPage, TidyAll, InBoundsAll, Next, Ending, Purged, Elsewhere;
    ghost var s, vs, p := scan.mgr.State(), start, START;
    scan.Apart();
    scan.Still();
    status := OK;
    while status == OK
      invariant scan.Valid() && fresh(scan.mgr.Repr - old(scan.mgr.Repr)) && scan.filter == NoFilter
      invariant Elsewhere(s, scan.mgr.State(), scan.file) && scan.base == old(scan.base)
      invariant status == OK ==>
        && scan.curPage != null && vs == scan.Views() && p == scan.Where() && Clean(vs, p)
        && Purged(vs, p, pred).0 == Purged(start, START, pred).0 && Ending(vs, p) == Ending(start, START)
        && |vs| == |start| && 0 <= p.page && scan.Clear(0, p.page)
      invariant status == BUFFEREXCEEDED ==> !Passes(scan, 0, Ending(start, START))
      invariant status != OK && status != BUFFEREXCEEDED ==>
        && scan.Views() == Purged(start, START, pred).0
        && status == EndStatus(Ending(start, START)) && Passes(scan, 0, Ending(start, START))
      decreases status == OK, if Clean(vs, p) then |After(vs, p)| else 0
    {
      ghost var t := scan.mgr.State();
      status, vs, p := DeleteTurn(scan, pred, vs, p);
      ElsewhereTrans(s, t, scan.mgr.State(), scan.file);
    }
  }

  // ---------- a whole scan ----------

  /** The record identifiers of positions. */
  function Rids(chain: seq<int>, ps: seq<Pos>): (r: seq<RID>)
    requires forall k :: 0 <= k < |ps| ==> 0 <= ps[k].page < |chain|
    ensures |r| == |ps| && forall k :: 0 <= k < |ps| ==> r[k] == RID(chain[ps[k].page], ps[k].slot)
  {
    seq(|ps|, k requires 0 <= k < |ps| => RID(chain[ps[k].page], ps[k].slot))
  }

  ghost predicate Scannable(vs: seq<View>, p: Pos, f: Filter) {
    AtPage(vs, p) && InBoundsAll(vs) && f.Ok()
  }

  /** got has been returned on the way from the start of the file to p. */
  ghost predicate SoFar(vs: seq<View>, chain: seq<int>, f: Filter, got: seq<Pos>, rids: seq<RID>, p: Pos) {
    && Scannable(vs, START, f) && Scannable(vs, p, f) && |vs| == |chain|
    && (forall k :: 0 <= k < |got| ==> UsedAt(vs, got[k]))
    && rids == Rids(chain, got)
    && Drain(vs, START, f) == got + Drain(vs, p, f)
    && Ending(vs, p) == Ending(vs, START)
  }

  /** The scan goes on to q. */
  ghost predicate Onwards(vs: seq<View>, chain: seq<int>, f: Filter, got: seq<Pos>, rids: seq<RID>, q: Pos) {
    UsedAt(vs, q) && |vs| == |chain| && SoFar(vs, chain, f, got + [q], rids + [RID(chain[q.page], q.slot)], q)
  }

  lemma {:induction false} DrainStep(vs: seq<View>, p: Pos, f: Filter)
    requires Scannable(vs, p, f)
    ensures !HeapSpec.ScanNext(vs, p, f).Hit? ==> Drain(vs, p, f) == []
    ensures HeapSpec.ScanNext(vs, p, f).Hit? ==>
      Drain(vs, p, f) == [HeapSpec.ScanNext(vs, p, f).pos] + Drain(vs, HeapSpec.ScanNext(vs, p, f).pos, f)
  {
    hide Next, MatchRec, HeapSpec.ScanNext, Remaining;
  }

  lemma {:induction false} SoFarStep(vs: seq<View>, chain: seq<int>, f: Filter, got: seq<Pos>, rids: seq<RID>, p: Pos)
    requires SoFar(vs, chain, f, got, rids, p)
    ensures !HeapSpec.ScanNext(vs, p, f).Hit? ==> Drain(vs, START, f) == got
    ensures HeapSpec.ScanNext(vs, p, f).Hit? ==>
      && Onwards(vs, chain, f, got, rids, HeapSpec.ScanNext(vs, p, f).pos)
      && Remaining(vs, HeapSpec.ScanNext(vs, p, f).pos) < Remaining(vs, p)
  {
    hide Drain, HeapSpec.ScanNext, InBoundsAll, Rids, Remaining, Ending;
    DrainStep(vs, p, f);
    EndingAhead(vs, p, f);
    if HeapSpec.ScanNext(vs, p, f).Hit? {
      var q := HeapSpec.ScanNext(vs, p, f).pos;
      assert Rids(chain, got + [q]) == rids + [RID(chain[q.page], q.slot)];
      assert got + ([q] + Drain(vs, q, f)) == (got + [q]) + Drain(vs, q, f);
    }
  }

  /** What a scan of the whole file returns, and how it ends. */
  lemma ScanResult(vs: seq<View>, f: Filter)
    requires Scannable(vs, START, f)
    ensures (forall q :: q in Positions(vs, 0) ==> UsedAt(vs, q))
    ensures Drain(vs, START, f) == Selected(vs, Readable(vs, Positions(vs, 0)), f)
    ensures Ending(vs, START) == EndOf(vs, Positions(vs, 0))
  {
    DrainExact(vs, START, f);
    StartCoversAll(vs);
  }

  /** One turn of a whole scan. */
  method ScanTurn(scan: HeapFileScan, ghost vs: seq<View>, ghost got: seq<Pos>, ghost before: seq<RID>, ghost p: Pos)
    returns (status: Status, rid: RID)
    requires scan.Valid() && scan.curPage != null && vs == scan.Views() && p == scan.Where()
    requires SoFar(vs, scan.chain, scan.filter, got, before, p)
    modifies scan`curPage, scan`curPageNo, scan`curDirtyFlag, scan`cur, scan`curRec, scan.mgr.Repr
    ensures scan.Valid() && fresh(scan.mgr.Repr - old(scan.mgr.Repr)) && scan.Views() == vs &&
      scan.filter == old(scan.filter)
    ensures scan.Contents() == old(scan.Contents())
    ensures status == OK ==>
      && scan.curPage != null && SoFar(vs, scan.chain, scan.filter, got + [scan.Where()], before + [rid], scan.Where())
      && Remaining(vs, scan.Where()) < Remaining(vs, p)
      && p.page <= scan.Where().page < |vs| && scan.Clear(p.page, scan.Where().page)
    ensures status == BUFFEREXCEEDED ==> !Passes(scan, p.page, Ending(vs, START))
    ensures status != OK && status != BUFFEREXCEEDED ==>
      && Drain(vs, START, scan.filter) == got
      && status == EndStatus(Ending(vs, START)) && Passes(scan, p.page, Ending(vs, START))
    ensures status == FILEEOF ==> AtEnd(scan, vs)
    ensures Aside(old(scan.mgr.State()), scan.mgr.State(), scan.file, scan.base)
  {
    hide BlockedPage, HeapFileScan.Valid, InBounds, Drain, Next, MatchRec, Remaining, Ending;
    hide HeapSpec.ScanNext, Elsewhere, Kept;
    SoFarStep(vs, scan.chain, scan.filter, got, before, p);
    status, rid := Call(scan, vs, p);
  }

  /**
   A freshly opened scan run to its end returns exactly the matching records, in
   chain order and then slot order, each once, up to a record of length zero if
   there is one; a page is refused exactly when one that it has to read is blocked.
   After the end of the file every further call reports it again.
   */
  method ScanAll(scan: HeapFileScan, ghost vs: seq<View>)
      returns (status: Status, rids: seq<RID>, ghost found: seq<Pos>)
    requires scan.Valid() && scan.curPage != null && scan.Where() == START
    requires vs == scan.Views() && |vs| == |scan.chain| && Scannable(vs, START, scan.filter)
    modifies scan`curPage, scan`curPageNo, scan`curDirtyFlag, scan`cur, scan`curRec, scan.mgr.Repr
    ensures scan.Valid() && fresh(scan.mgr.Repr - old(scan.mgr.Repr)) && scan.Views() == vs
    ensures scan.Contents() == old(scan.Contents()) && scan.filter == old(scan.filter)
    ensures (forall q :: q in Positions(vs, 0) ==> UsedAt(vs, q))
    ensures status == if Passes(scan, 0, EndOf(vs, Positions(vs, 0))) then EndStatus(EndOf(vs, Positions(vs, 0)))
                      else BUFFEREXCEEDED
    ensures status != BUFFEREXCEEDED ==>
      && found == Selected(vs, Readable(vs, Positions(vs, 0)), scan.filter)
      && |rids| == |found|
      && (forall k :: 0 <= k < |found| ==>
            UsedAt(vs, found[k]) && rids[k] == RID(scan.chain[found[k].page], found[k].slot))
    ensures status == FILEEOF ==> AtEnd(scan, vs)
    ensures Aside(old(scan.mgr.State()), scan.mgr.State(), scan.file, scan.base)
  {
    hide Inv, Sound, Meaning, HeapOk, PinsOk, Placed, PinCount, BufMgr.Valid;
    hide HeapFileScan.Valid, BlockedPage, InBoundsAll, Drain, Next, MatchRec, Selected, Positions, Ending;
    hide EndOf, Readable, Elsewhere, Kept;
    ghost var s := scan.mgr.State();
    scan.Apart();
    scan.Still();
    rids, found := [], [];
    ScanResult(vs, scan.filter);
    status := OK;
    while true
      invariant scan.Valid() && fresh(scan.mgr.Repr - old(scan.mgr.Repr)) && scan.Views() == vs &&
        scan.filter == old(scan.filter)
      invariant scan.Contents() == old(scan.Contents()) && Aside(s, scan.mgr.State(), scan.file, scan.base)
      invariant scan.curPage != null && SoFar(vs, scan.chain, scan.filter, found, rids, scan.Where())
      invariant 0 <= scan.Where().page < |vs| && scan.Clear(0, scan.Where().page)
      decreases Remaining(vs, scan.Where())
    {
      var rid;
      ghost var t := scan.mgr.State();
      status, rid := ScanTurn(scan, vs, found, rids, scan.Where());
      AsideTrans(s, t, scan.mgr.State(), scan.file, scan.base);
      if status != OK { return; }
      rids, found := rids + [rid], found + [scan.Where()];
    }
  }

  // ---------- a file opened, worked on and closed ----------

  /** The header page or one of the first n data pages cannot be brought in beside the pins there are. */
  ghost predicate Crowded(s: Sys, file: FileId, chain: seq<int>, n: int) {
    || Refused(s, {}, Key(file, 1))
    || exists j :: 0 <= j < n && j < |chain| && Refused(s, {Key(file, 1)}, Key(file, chain[j]))
  }

  /** Two spare frames are enough to read any file. */
  lemma SpareReads(s: Sys, file: FileId, chain: seq<int>, n: int)
    requires Spare(s, 2)
    ensures !Crowded(s, file, chain, n)
  {
    hide PinnedKeys;
    SpareRoom(s, 2, {});
    SpareRoom(s, 2, {Key(file, 1)});
  }

  /** An open scan comes through to page b exactly when the pages up to it could be read beside the header. */
  lemma ClearReads(scan: HeapFileScan, s: Sys, b: int)
    requires scan.base == s && scan.headerPageNo == 1 && scan.chain != [] && 0 <= b
    ensures Unopenable(s, scan.file, scan.chain) ==> Crowded(s, scan.file, scan.chain, b + 1)
    ensures !Unopenable(s, scan.file, scan.chain) ==> (scan.Clear(0, b) <==> !Crowded(s, scan.file, scan.chain, b + 1))
  {
    hide Refused;
    if !Unopenable(s, scan.file, scan.chain) {
      if scan.Clear(0, b) {
        forall j | 0 <= j <= b && j < |scan.chain|
          ensures !Refused(s, {Key(scan.file, 1)}, Key(scan.file, scan.chain[j]))
        {
          if j > 0 { assert !scan.Blocked(j); }
        }
      } else {
        var j :| 0 < j <= b && BlockedPage(s, scan.file, scan.headerPageNo, scan.chain, j);
      }
    }
  }

  /** How far a scan of the whole file comes, and what it needs. */
  lemma PurgeReach(s: Sys, file: FileId, chain: seq<int>, vs: seq<View>)
    requires AtPage(vs, START) && InBoundsAll(vs) && |vs| == |chain|
    ensures forall q :: q in Positions(vs, 0) ==> UsedAt(vs, q)
    ensures Ending(vs, START) == EndOf(vs, Positions(vs, 0)) && 0 <= Reach(Ending(vs, START), |chain|)
    ensures Unopenable(s, file, chain) ==> Crowded(s, file, chain, Reach(Ending(vs, START), |chain|) + 1)
  {
    hide Ending, EndOf, Refused;
    ScanResult(vs, NoFilter);
    EndReach(vs, START);
  }

  /** File::close when the last opener goes: every page of the file is on disk, unless some other pin keeps it. */
  method FlushOnClose(mgr: BufMgr, file: FileId) returns (status: Status)
    requires mgr.Valid() && Inv(mgr.State()) && Sound(mgr.State()) && file != NULL_FILE
    modifies mgr.Repr
    ensures mgr.Valid() && mgr.Repr == old(mgr.Repr) && Inv(mgr.State()) && Sound(mgr.State())
    ensures Meaning(mgr.State()) == old(Meaning(mgr.State())) && |mgr.State().frames| == |old(mgr.State().frames)|
    ensures forall k :: PinCount(mgr.State(), k) == old(PinCount(mgr.State(), k))
    ensures status == OK <==> old(Unpinned(mgr.State(), file))
    ensures status == OK ==> OnDisk(mgr.State(), file)
    ensures Aside(old(mgr.State()), mgr.State(), file, old(mgr.State()))
  {
    hide BufMgr.Valid, Inv, Meaning, PinCount, BufferPool.FlushFile, Elsewhere, Kept;
    ghost var s := mgr.State();
    status := mgr.FlushFile(file);
    Flushing(s, file);
    FlushAside(s, file);
  }

  /** The pages vs without the records that the predicate names. */
  ghost predicate Cleaned(m: Contents, file: FileId, chain: seq<int>, vs: seq<View>, pred: seq<Byte> -> bool) {
    Clean(vs, START) && HeapShows(m, file, 1, chain, Purged(vs, START, pred).0)
  }

  /** The pages of a file in order can be scanned from the start. */
  lemma ShownClean(m: Contents, file: FileId, h: int, chain: seq<int>, vs: seq<View>)
    requires HeapShows(m, file, h, chain, vs)
    ensures vs != [] && |vs| == |chain| && TidyAll(vs) && InBoundsAll(vs) && AtPage(vs, START)
  {
    hide Tidy, PageOk, ViewAt;
  }

  lemma ScanShows(scan: HeapFileScan)
    requires scan.Valid()
    ensures Inv(scan.mgr.State()) && Sound(scan.mgr.State()) && scan.file != NULL_FILE
    ensures HeapShows(scan.Contents(), scan.file, scan.headerPageNo, scan.chain, scan.Views())
  {
    hide Inv, Sound, HeapOk, Meaning, HeapLayout.Views, BufMgr.Valid, PinsOk;
    NotNull(scan.mgr.State(), scan.W());
  }

  /** The status that the client of a scan returns. */
  function Finished(r: Scanned): Status {
    if EndStatus(r) == FILEEOF then OK else EndStatus(r)
  }

  /** The loop over an open scan, then the destructor and the close of the file. */
  method PurgeAndClose(scan: HeapFileScan, pred: seq<Byte> -> bool, ghost vs: seq<View>) returns (status: Status)
    requires scan.Valid() && scan.curPage != null && scan.Where() == START && scan.filter == NoFilter
    requires scan.headerPageNo == 1 && vs == scan.Views() && Clean(vs, START) && |vs| == |scan.chain|
    modifies scan, scan.mgr.Repr
    ensures scan.base == old(scan.base)
    ensures scan.mgr.Valid() && Inv(scan.mgr.State()) && Sound(scan.mgr.State()) && Sound(scan.base)
    ensures |scan.mgr.State().frames| == |scan.base.frames|
    ensures forall k :: PinCount(scan.mgr.State(), k) == PinCount(scan.base, k)
    ensures status == if Passes(scan, 0, Ending(vs, START)) then Finished(Ending(vs, START)) else BUFFEREXCEEDED
    ensures HeapOk(Meaning(scan.mgr.State()), scan.file, 1, scan.chain)
    ensures status != BUFFEREXCEEDED ==> Cleaned(Meaning(scan.mgr.State()), scan.file, scan.chain, vs, pred)
    ensures Unpinned(scan.base, scan.file) ==> OnDisk(scan.mgr.State(), scan.file)
    ensures Elsewhere(old(scan.mgr.State()), scan.mgr.State(), scan.file)
  {
    hide HeapFileScan.Valid, BlockedPage, BufMgr.Valid, Inv, Sound, Meaning, HeapOk, PinCount;
    hide HeapLayout.Views, Elsewhere;
    hide Clean, Purged, IsLive, Ending, Passes;
    ghost var s := scan.mgr.State();
    scan.Apart();
    status := DeleteWhere(scan, pred, vs);
    ScanShows(scan);
    ghost var t := scan.mgr.State();
    var ignored := scan.Close();
    ghost var u := scan.mgr.State();
    ElsewhereTrans(s, t, u, scan.file);
    ignored := FlushOnClose(scan.mgr, scan.file);
    ElsewhereTrans(s, u, scan.mgr.State(), scan.file);
    if status == FILEEOF { status := OK; }
  }

  /**
   A client of the catalog from end to end: the file is opened, the records that
   the predicate names are deleted, and the file is closed.  Exactly when a page
   cannot be read the loop ends early.
   */
  method PurgeFile(mgr: BufMgr, file: FileId, pred: seq<Byte> -> bool, ghost chain: seq<int>, ghost vs: seq<View>)
    returns (status: Status)
    requires mgr.Valid() && Inv(mgr.State()) && Sound(mgr.State())
    requires HeapShows(Meaning(mgr.State()), file, 1, chain, vs)
    modifies mgr.Repr
    ensures mgr.Valid() && Inv(mgr.State()) && Sound(mgr.State()) && HeapOk(Meaning(mgr.State()), file, 1, chain)
    ensures forall k :: PinCount(mgr.State(), k) == old(PinCount(mgr.State(), k))
    ensures InBoundsAll(vs) && forall q :: q in Positions(vs, 0) ==> UsedAt(vs, q)
    ensures var r := EndOf(vs, Positions(vs, 0));
            status == if Crowded(old(mgr.State()), file, chain, Reach(r, |chain|) + 1) then BUFFEREXCEEDED
                      else Finished(r)
    ensures status != BUFFEREXCEEDED ==> Cleaned(Meaning(mgr.State()), file, chain, vs, pred)
    ensures status != BUFFEREXCEEDED && old(Unpinned(mgr.State(), file)) ==> OnDisk(mgr.State(), file)
    ensures Elsewhere(old(mgr.State()), mgr.State(), file)
  {
    hide HeapFileScan.Valid, BlockedPage, BufMgr.Valid, Inv, Sound, Meaning, HeapOk, PinCount;
    hide HeapLayout.Views, Elsewhere;
    hide Refused, Cleaned, OnDisk, TidyAll, InBoundsAll, Ending, EndOf, Crowded, Unopenable;
    ghost var s := mgr.State();
    ShownClean(Meaning(s), file, 1, chain, vs);
    PurgeReach(s, file, chain, vs);
    var scan;
    status, scan := OpenScan(mgr, file, chain);
    if status != OK { return; }
    ghost var t := mgr.State();
    ScanShows(scan);
    ClearReads(scan, s, Reach(Ending(vs, START), |chain|));
    status := PurgeAndClose(scan, pred, vs);
    ElsewhereTrans(s, t, mgr.State(), file);
  }
}
