/**
 heapfile.cpp over the buffer manager: scans, deletion under the cursor and
 insertion, with the pins they hold.
 */
module HeapFile {
  import opened Statuses
  import opened Bytes
  import opened Records
  import opened Disk
  import opened BufHash
  import opened BufferPool
  import opened Transparency
  import opened Pins
  import opened Bystanders
  import opened BufMgrs
  import opened PageView
  import opened Page
  import opened Compare
  import opened HeapSpec
  import opened HeapLayout
  import opened HeapSession
  import opened Sharing
  import opened Purge

  /** A pointer to a page of the session survives an operation that keeps the page pinned. */
  lemma StillHolds(mgr: BufMgr, s: Sys, k: Key, page: array<Byte>)
    requires mgr.Valid() && SameFrames(s, mgr.State()) && k in mgr.State().index
    requires k in s.index && 0 <= s.index[k] < |mgr.bufPool| && page == mgr.bufPool[s.index[k]]
    ensures mgr.Holds(k, page)
  {
  }

  /** When nothing is left on a page, the next record is the next one of the following page. */
  lemma SkipPage(vs: seq<View>, p: Pos, stale: int)
    requires AtPage(vs, p) && p.page + 1 < |vs| && -1 <= stale
    requires NextUsed(vs[p.page].slots, p.slot + 1) >= |vs[p.page].slots|
    ensures Next(vs, p) == Next(vs, Pos(p.page + 1, -1))
    ensures var k, n := NextUsed(vs[p.page + 1].slots, 0), |vs[p.page + 1].slots|;
            if k < n then Next(vs, p) == At(Pos(p.page + 1, k))
            else && NextUsed(vs[p.page + 1].slots, stale + 1) >= n
                 && Next(vs, Pos(p.page + 1, stale)) == Next(vs, p)
  {
    var slots := vs[p.page + 1].slots;
    assert NextUsed(slots, 0) >= |slots| ==> NextUsed(slots, stale + 1) >= |slots|;
  }

  lemma LastPage(vs: seq<View>, p: Pos)
    requires AtPage(vs, p) && p.page + 1 == |vs| && NextUsed(vs[p.page].slots, p.slot + 1) >= |vs[p.page].slots|
    ensures Next(vs, p) == NoMore
  {
  }

  lemma RecOf(vs: seq<View>, p: Pos)
    requires InBoundsAll(vs) && UsedAt(vs, p)
    ensures InBounds(|vs[p.page].data|, vs[p.page].slots)
    ensures p.slot in Recs(vs[p.page]) <==> RecAt(vs, p) != []
    ensures p.slot in Recs(vs[p.page]) ==> Recs(vs[p.page])[p.slot] == RecAt(vs, p)
  {
  }

  /** A scan from the start stops at the first record, or goes on from it. */
  lemma FirstStop(vs: seq<View>, f: Filter)
    requires vs != [] && InBoundsAll(vs) && f.Ok()
    ensures var k := NextUsed(vs[0].slots, 0);
            k < |vs[0].slots| ==>
              && UsedAt(vs, Pos(0, k)) && Next(vs, START) == At(Pos(0, k))
              && HeapSpec.ScanNext(vs, START, f) ==
                 (if RecAt(vs, Pos(0, k)) == [] then Unreadable(Pos(0, k))
                  else if MatchRec(f, RecAt(vs, Pos(0, k))) then Hit(Pos(0, k))
                  else HeapSpec.ScanNext(vs, Pos(0, k), f))
  {
  }

  lemma AtTheEnd(vs: seq<View>, p: Pos, f: Filter)
    requires AtPage(vs, p) && InBoundsAll(vs) && f.Ok()
    ensures Next(vs, p) == NoMore ==> HeapSpec.ScanNext(vs, p, f) == Eof
  {
  }

  /** The pointer leads to the frame in which the pool, in state s, holds the page. */
  ghost predicate Points(mgr: BufMgr, s: Sys, k: Key, page: array<Byte>) {
    k in s.index && 0 <= s.index[k] < |mgr.bufPool| && page == mgr.bufPool[s.index[k]]
  }

  /** Page j of the chain cannot be read while the header page is all that is pinned beside base. */
  ghost predicate BlockedPage(base: Sys, file: FileId, header: int, chain: seq<int>, j: int) {
    0 <= j < |chain| && Refused(base, {Key(file, header)}, Key(file, chain[j]))
  }

  class HeapFileScan {
    const mgr: BufMgr
    const file: FileId
    const headerPageNo: int
    const headerPage: array<Byte>
    var hdrDirtyFlag: bool
    var curPage: array?<Byte>
    var curPageNo: int
    var curDirtyFlag: bool
    var curRec: RID
    var filter: Filter
    var markedPageNo: int
    var markedRec: RID

    /** The pages of the file, the one under the cursor, and the pool before the file was opened. */
    ghost const chain: seq<int>
    ghost var base: Sys
    ghost var cur: int
    ghost var markedCur: int

    ghost function W(): Session
      reads this
    {
      Session(file, headerPageNo, chain, if curPage == null then NO_PAGE else curPageNo, NO_PAGE,
              hdrDirtyFlag, curDirtyFlag, base)
    }

    ghost predicate Held()
      reads this, mgr, mgr.hashTable
    {
      && mgr.Holds(Key(file, headerPageNo), headerPage)
      && (curPage != null ==>
            0 <= cur < |chain| && curPageNo == chain[cur] && mgr.Holds(Key(file, curPageNo), curPage))
    }

    ghost predicate Valid()
      reads this, mgr, mgr.Repr
    {
      && mgr.Valid() && this !in mgr.Repr
      && SessionOk(mgr.State(), W()) && Held()
      && filter.Ok() && -1 <= curRec.slotNo
    }

    /** The data pages of the file, buffered or not. */
    ghost function Views(): seq<View>
      requires Valid()
      reads this, mgr, mgr.Repr
    {
      Pages(mgr.State(), W())
    }

    /** What the buffer pool and the disk hold together. */
    ghost function Contents(): Contents
      requires Valid()
      reads this, mgr, mgr.Repr
    {
      Meaning(mgr.State())
    }

    ghost function Where(): Pos
      reads this
    {
      Pos(cur, curRec.slotNo)
    }

    /** Page j cannot be read while the header page is all that the scan pins. */
    ghost predicate Blocked(j: int)
      reads this`base
    {
      BlockedPage(base, file, headerPageNo, chain, j)
    }

    /** No page behind a and up to b is blocked. */
    ghost predicate Clear(a: int, b: int)
      reads this`base
    {
      forall j :: a < j <= b ==> !BlockedPage(base, file, headerPageNo, chain, j)
    }

    /** A scan that alone holds its page can turn to any other. */
    lemma NeverBlocked()
      requires Valid() && curPage != null && Sound(base) && PinCount(base, Key(file, curPageNo)) == 0
      ensures forall j :: !Blocked(j)
    {
      hide Inv, Sound, HeapOk, BufMgr.Valid, PinCount, NoRoom, PinnedKeys;
      forall j
        ensures !Blocked(j)
      {
        if 0 <= j < |chain| { NeverRefused(mgr.State(), W(), Key(file, chain[j])); }
      }
    }

    /** The state of a HeapFile once its header page is pinned. */
    constructor (mgr: BufMgr, file: FileId, headerPageNo: int, headerPage: array<Byte>, ghost chain: seq<int>,
        ghost base: Sys)
      requires mgr.Valid() && mgr.Holds(Key(file, headerPageNo), headerPage)
      requires SessionOk(mgr.State(), Session(file, headerPageNo, chain, NO_PAGE, NO_PAGE, false, false, base))
      ensures Valid() && curPage == null && curRec == NULLRID && filter == NoFilter && this.mgr == mgr
      ensures this.file == file && this.headerPageNo == headerPageNo && this.chain == chain && this.base == base
    {
      hide SessionOk, BufMgr.Valid;
      this.mgr, this.file, this.headerPageNo, this.headerPage := mgr, file, headerPageNo, headerPage;
      this.chain, this.base, cur := chain, base, 0;
      hdrDirtyFlag, curPage, curPageNo, curDirtyFlag, curRec, filter := false, null, 0, false, NULLRID, NoFilter;
      markedPageNo, markedRec, markedCur := 0, NULLRID, 0;
    }

    lemma Current()
      requires Valid() && curPage != null
      ensures curPage.Length == PAGESIZE && curPage in mgr.Repr && headerPage in mgr.Repr &&
        headerPage.Length == PAGESIZE
      ensures WellFormed(curPage[..]) && ViewOf(curPage[..]) == Views()[cur] && |Views()| == |chain|
      ensures Decodes(curPage[..]) && GetInt(curPage[..], NEXT_PAGE) == LinkTo(chain, cur + 1)
      ensures Views()[cur].cur == chain[cur] && Views()[cur].next == LinkTo(chain, cur + 1)
      ensures 1 <= curPageNo && 0 <= file && chain[cur] in chain
      ensures W().page == chain[cur] && W().CKey() in mgr.State().index && W().HKey() in mgr.State().index
      ensures headerPage[..] == Meaning(mgr.State())[W().HKey()] && curPage[..] == Meaning(mgr.State())[W().CKey()]
    {
      hide Inv, Meaning, HeapOk, PinsOk, BufMgr.Valid, Tidy, GetInt, GetShort, Pages;
      mgr.Facts();
      assert chain[cur] in chain;
      CurrentPage(mgr.State(), W(), cur);
    }

    // ---------- while another file is worked on ----------

    /** Valid but for the pins of others, in state s of the pool. */
    ghost predicate Waits(s: Sys)
      reads this
    {
      && Sound(s) && Placed(W()) && HeapOk(Meaning(s), file, headerPageNo, chain)
      && Points(mgr, s, Key(file, headerPageNo), headerPage)
      && (curPage != null ==>
            0 <= cur < |chain| && curPageNo == chain[cur] && Points(mgr, s, Key(file, curPageNo), curPage))
      && filter.Ok() && -1 <= curRec.slotNo
    }

    lemma Pause()
      requires Valid()
      ensures mgr.Valid() && this !in mgr.Repr && Waits(mgr.State()) && Pinned(mgr.State(), W())
      ensures Views() == HeapLayout.Views(Meaning(mgr.State()), file, chain)
    {
      hide Inv, PinsOk, HeapOk, Meaning, BufMgr.Valid, HeapLayout.Views;
      mgr.Facts();
      MayLeave(mgr.State(), W(), W().HKey(), true);
      if curPage != null { MayLeave(mgr.State(), W(), W().CKey(), true); }
    }

    lemma StillWaits(s: Sys, t: Sys)
      requires Waits(s) && Untouched(s, t, W())
      ensures Waits(t)
      ensures HeapLayout.Views(Meaning(t), file, chain) == HeapLayout.Views(Meaning(s), file, chain)
    {
      hide Sound, HeapOk, Meaning, HeapLayout.Views;
      HeapUntouched(s, t, W());
      assert W().Mine(Key(file, headerPageNo)) > 0;
      assert curPage != null ==> W().page == chain[cur] && chain[cur] in chain;
      assert curPage != null ==> W().Mine(Key(file, curPageNo)) > 0;
    }

    /** Work on the file goes on, the pins of others being those of b now. */
    ghost method Resume(b: Sys)
      requires mgr.Valid() && this !in mgr.Repr && Inv(mgr.State()) && Waits(mgr.State())
      requires Sound(b) && PinsOk(mgr.State(), W().(base := b))
      modifies this`base
      ensures Valid() && base == b && Views() == HeapLayout.Views(Meaning(mgr.State()), file, chain)
    {
      hide Inv, Sound, HeapOk, Meaning, BufMgr.Valid, HeapLayout.Views, PinCount;
      base := b;
    }

    lemma Still()
      requires Valid()
      ensures Aside(mgr.State(), mgr.State(), file, base)
    {
      hide BufMgr.Valid, Elsewhere, Inv, Sound, HeapOk, PinCount;
      mgr.Facts();
      ElsewhereSelf(mgr.State(), file);
      KeptBy(mgr.State(), mgr.State(), base);
    }

    /** unPinPage of the current page. */
    method LeavePage() returns (status: Status)
      requires Valid() && curPage != null
      modifies this`curPage, mgr.Repr
      ensures filter == old(filter)
      ensures Valid() && fresh(mgr.Repr - old(mgr.Repr))
      ensures status == OK && curPage == null && Views() == old(Views())
      ensures Contents() == old(Contents()) && mgr.disk.files == old(mgr.disk.files)
      ensures Aside(old(mgr.State()), mgr.State(), file, base)
    {
      hide Inv, Meaning, HeapOk, PinsOk, BufMgr.Valid, BufferPool.UnPinPage, WellFormed, ViewOf, HeapLayout.Views;
      hide Elsewhere, Kept;
      ghost var s, w := mgr.State(), W();
      Current();
      LeaveKeeps(s, w);
      InFrame(s, w.CKey());
      status := mgr.UnPinPage(Key(file, curPageNo), curDirtyFlag);
      curPage := null;
      HeaderShown(mgr.State(), W());
      mgr.Facts();
      StillHolds(mgr, s, Key(file, headerPageNo), headerPage);
    }

    /** readPage of page j of the chain. */
    method EnterPage(pageNo: int, ghost j: nat) returns (status: Status)
      requires Valid() && curPage == null && j < |chain| && pageNo == chain[j]
      modifies this`curPage, this`curPageNo, this`curDirtyFlag, this`cur, mgr.Repr
      ensures filter == old(filter)
      ensures Valid() && fresh(mgr.Repr - old(mgr.Repr))
      ensures curPageNo == pageNo && !curDirtyFlag && Views() == old(Views())
      ensures Contents() == old(Contents()) && SameLengths(old(mgr.disk.files), mgr.disk.files)
      ensures status == if Blocked(j) then BUFFEREXCEEDED else OK
      ensures if status == OK then curPage != null && cur == j else curPage == null && cur == old(cur)
      ensures Aside(old(mgr.State()), mgr.State(), file, base)
    {
      hide Inv, Meaning, HeapOk, PinsOk, BufMgr.Valid, BufferPool.ReadPage, WellFormed, ViewOf, HeapLayout.Views;
      hide Elsewhere, Kept;
      hide Sound, GetInt, Refused;
      ghost var s, w := mgr.State(), W();
      assert w.Held() == {w.HKey()};
      assert chain[j] in chain;
      MayLeave(s, w, w.HKey(), true);
      ChainLive(s, w, pageNo);
      FlagIdle(s, w, false);
      PinKeeps(s, w.(curDirty := false), pageNo);
      mgr.Facts();
      curPageNo, curDirtyFlag := pageNo, false;
      status, curPage := mgr.ReadPage(Key(file, curPageNo), null);
      mgr.Facts();
      if status == OK { cur := j; }
      MayLeave(mgr.State(), W(), W().HKey(), true);
      StillHolds(mgr, s, Key(file, headerPageNo), headerPage);
    }

    /** Nothing is left on the current page. */
    ghost predicate PageDone()
      requires Valid()
      reads this, mgr, mgr.Repr
    {
      && AtPage(Views(), Where())
      && NextUsed(Views()[cur].slots, curRec.slotNo + 1) >= |Views()[cur].slots|
    }

    /** unPinPage of the current page, then readPage of the one the chain links to. */
    method FollowLink(ghost j: nat) returns (status: Status)
      requires Valid() && curPage != null && j == cur + 1 < |chain|
      modifies this`curPage, this`curPageNo, this`curDirtyFlag, this`cur, mgr.Repr
      ensures filter == old(filter)
      ensures Valid() && fresh(mgr.Repr - old(mgr.Repr)) && Views() == old(Views()) && Contents() == old(Contents())
      ensures status == if Blocked(j) then BUFFEREXCEEDED else OK
      ensures if status == OK then curPage != null && cur == j else curPage == null && cur == old(cur)
      ensures Aside(old(mgr.State()), mgr.State(), file, base)
    {
      hide SessionOk, BufMgr.Valid, WellFormed, ViewOf, GetInt, Decodes, BlockedPage;
      hide Elsewhere, Kept;
      Current();
      NextPage();
      var nextPageNo := GetInt(curPage[..], NEXT_PAGE);
      ghost var s := mgr.State();
      status := LeavePage();
      ghost var t := mgr.State();
      status := EnterPage(nextPageNo, j);
      AsideTrans(s, t, mgr.State(), file, base);
    }

    /** The step to the first record of the following page. */
    method TurnPage() returns (status: Status)
      requires Valid() && curPage != null && PageDone()
      modifies this`curPage, this`curPageNo, this`curDirtyFlag, this`cur, this`curRec, mgr.Repr
      ensures filter == old(filter)
      ensures Valid() && fresh(mgr.Repr - old(mgr.Repr)) && Views() == old(Views()) && Contents() == old(Contents())
      ensures match status
              case FILEEOF =>
                && curPage != null && Where() == old(Where()) && cur + 1 == |Views()| == |chain|
                && Next(Views(), Where()) == NoMore
              case OK =>
                && curPage != null && cur == old(cur) + 1 && 0 <= cur < |chain| && curRec.pageNo == chain[cur]
                && Next(Views(), old(Where())) == At(Where()) && !Blocked(cur)
              case NORECORDS =>
                && curPage != null && cur == old(cur) + 1 && PageDone() && !Blocked(cur)
                && Next(Views(), old(Where())) == Next(Views(), Where())
              case BUFFEREXCEEDED =>
                && curPage == null && cur == old(cur) && 0 <= cur && cur + 1 < |Views()| && Blocked(cur + 1)
                && Next(Views(), old(Where())) == Next(Views(), Pos(cur + 1, -1))
              case _ => false
      ensures Aside(old(mgr.State()), mgr.State(), file, base)
    {
      hide BlockedPage, SessionOk, BufMgr.Valid, WellFormed, ViewOf, NextUsed, GetInt, Decodes, Pages;
      hide Elsewhere, Kept;
      hide HeapFileScan.Valid, Remaining, InBounds;
      Current();
      SlotBound();
      Still();
      ghost var vs, p := Views(), Where();
      if cur + 1 < |chain| { NextPage(); SkipPage(vs, p, curRec.slotNo); } else { LastPage(vs, p); }
      if GetInt(curPage[..], NEXT_PAGE) == -1 { return FILEEOF; }
      status := FirstBeyond();
    }

    /** The following page and its first record. */
    method FirstBeyond() returns (status: Status)
      requires Valid() && curPage != null && 0 <= cur && cur + 1 < |chain|
      modifies this`curPage, this`curPageNo, this`curDirtyFlag, this`cur, this`curRec, mgr.Repr
      ensures filter == old(filter)
      ensures Valid() && fresh(mgr.Repr - old(mgr.Repr)) && Views() == old(Views()) && Contents() == old(Contents())
      ensures status == BUFFEREXCEEDED || status == OK || status == NORECORDS
      ensures status == BUFFEREXCEEDED <==> Blocked(old(cur) + 1)
      ensures status == BUFFEREXCEEDED ==> curPage == null && cur == old(cur)
      ensures status != BUFFEREXCEEDED ==>
        && curPage != null && cur == old(cur) + 1 < |Views()| == |chain| && -1 <= curRec.slotNo
        && var k, n := NextUsed(Views()[cur].slots, 0), |Views()[cur].slots|;
           if k < n then status == OK && curRec.pageNo == chain[cur] && curRec.slotNo == k
           else status == NORECORDS && curRec == old(curRec)
      ensures Aside(old(mgr.State()), mgr.State(), file, base)
    {
      hide BlockedPage, SessionOk, BufMgr.Valid, WellFormed, ViewOf, NextUsed, GetInt, Decodes, Pages;
      hide HeapFileScan.Valid;
      hide Elsewhere, Kept;
      Apart();
      status := FollowLink(cur + 1);
      if status != OK { return; }
      status := FirstOnPage();
      SlotBound();
      Current();
    }

    /** The first record on the current page. */
    method FirstOnPage() returns (status: Status)
      requires Valid() && curPage != null
      modifies this`curRec
      ensures filter == old(filter)
      ensures Valid() && Views() == old(Views()) && Contents() == old(Contents())
      ensures 0 <= cur < |Views()|
      ensures var k, n := NextUsed(Views()[cur].slots, 0), |Views()[cur].slots|;
              if k < n then status == OK && curRec.slotNo == k && 0 <= cur < |chain| && curRec.pageNo == chain[cur]
              else status == NORECORDS && curRec == old(curRec)
    {
      hide SessionOk, BufMgr.Valid, WellFormed, ViewOf, NextUsed, Decodes, Pages;
      Current();
      status, curRec := FirstRecord(curPage, curRec);
    }

    lemma SlotBound()
      requires Valid()
      ensures -1 <= curRec.slotNo
    {
    }

    lemma NextPage()
      requires Valid() && curPage != null && cur + 1 < |chain|
      ensures LinkTo(chain, cur + 1) == chain[cur + 1] && 1 <= chain[cur + 1]
    {
      hide Inv, Meaning, HeapOk, PinsOk, BufMgr.Valid;
    }

    /** The next record on the current page. */
    method StepOnPage() returns (status: Status)
      requires Valid() && curPage != null
      modifies this`curRec
      ensures filter == old(filter)
      ensures Valid() && Views() == old(Views()) && Contents() == old(Contents())
      ensures AtPage(old(Views()), old(Where()))
      ensures if status == OK then
                Next(Views(), old(Where())) == At(Where()) && 0 <= cur < |chain| && curRec.pageNo == chain[cur]
              else status == ENDOFPAGE && PageDone() && Where() == old(Where())
    {
      hide SessionOk, BufMgr.Valid, WellFormed, ViewOf, NextUsed, Decodes, Pages;
      Current();
      status, curRec := NextRecord(curPage, curRec);
    }

    /** How far a search for the record after p has come. */
    ghost predicate Searched(vs: seq<View>, p: Pos, status: Status)
      requires Valid() && AtPage(vs, p)
      reads this, mgr, mgr.Repr
    {
      && Views() == vs
      && (status == BUFFEREXCEEDED || curPage != null)
      && p.page <= cur && Clear(p.page, cur)
      && match status
         case OK => Next(vs, p) == At(Where()) && 0 <= cur < |chain| && curRec.pageNo == chain[cur]
         case FILEEOF =>
           && Next(vs, p) == NoMore && AtPage(vs, Where()) && Next(vs, Where()) == NoMore
           && cur + 1 == |vs| && (cur == p.page ==> Where() == p)
         case BUFFEREXCEEDED =>
           && curPage == null && cur + 1 < |vs| && Blocked(cur + 1)
           && Next(vs, p) == Next(vs, Pos(cur + 1, -1))
         case ENDOFPAGE => PageDone() && Next(vs, Where()) == Next(vs, p) && (cur == p.page ==> Where() == p)
         case NORECORDS => PageDone() && Next(vs, Where()) == Next(vs, p) && p.page < cur
         case _ => false
    }

    /** The next record of the file, whether it matches or not. */
    method Advance() returns (status: Status)
      requires Valid() && curPage != null
      modifies this`curPage, this`curPageNo, this`curDirtyFlag, this`cur, this`curRec, mgr.Repr
      ensures Valid() && fresh(mgr.Repr - old(mgr.Repr)) && Contents() == old(Contents())
      ensures AtPage(old(Views()), old(Where())) && Searched(old(Views()), old(Where()), status)
      ensures status != ENDOFPAGE && status != NORECORDS && filter == old(filter)
      ensures Aside(old(mgr.State()), mgr.State(), file, base)
    {
      hide BlockedPage, SessionOk, BufMgr.Valid, WellFormed, ViewOf, NextUsed, Decodes, Pages, Next, HeapFileScan.Valid;
      hide Elsewhere, Kept;
      hide PageDone;
      Current();
      Apart();
      Still();
      ghost var s, vs, p := mgr.State(), Views(), Where();
      status := StepOnPage();
      while status == ENDOFPAGE || status == NORECORDS
        invariant Valid() && fresh(mgr.Repr - old(mgr.Repr)) && Contents() == old(Contents())
        invariant AtPage(vs, p) && Searched(vs, p, status) && filter == old(filter) && cur <= |vs|
        invariant Aside(s, mgr.State(), file, base)
        decreases if status == ENDOFPAGE || status == NORECORDS then |vs| - cur + 1 else 0
      {
        ghost var t := mgr.State();
        status := SearchTurn(vs, p, status);
        AsideTrans(s, t, mgr.State(), file, base);
      }
    }

    /** One page further in the search for the record after p. */
    method SearchTurn(ghost vs: seq<View>, ghost p: Pos, ghost before: Status) returns (status: Status)
      requires Valid() && AtPage(vs, p) && Searched(vs, p, before) && (before == ENDOFPAGE || before == NORECORDS)
      modifies this`curPage, this`curPageNo, this`curDirtyFlag, this`cur, this`curRec, mgr.Repr
      ensures Valid() && fresh(mgr.Repr - old(mgr.Repr)) && Contents() == old(Contents()) && filter == old(filter)
      ensures Searched(vs, p, status)
      ensures status == NORECORDS ==> old(cur) < cur
      ensures status != ENDOFPAGE && cur <= |vs|
      ensures Aside(old(mgr.State()), mgr.State(), file, base)
    {
      hide BlockedPage, SessionOk, BufMgr.Valid, WellFormed, ViewOf, NextUsed, Decodes, Pages, Next, HeapFileScan.Valid;
      hide Elsewhere, Kept;
      Current();
      Apart();
      status := TurnPage();
      if curPage != null { Current(); }
    }

    /** HeapFileScan::getRecord: the record under the cursor. */
    method GetRecord(ghost vs: seq<View>) returns (status: Status, rec: seq<Byte>)
      requires Valid() && curPage != null && vs == Views() && InBoundsAll(vs) && UsedAt(vs, Where())
      ensures rec == RecAt(vs, Where())
      ensures status == if rec == [] then INVALIDSLOTNO else OK
    {
      hide HeapFileScan.Valid, ViewOf, Pages, GetShort, GetInt, Recs, RecordAt, Tidy;
      Current();
      RecOf(vs, Where());
      status, rec := Page.GetRecord(curPage, curRec);
    }

    /** The cursor stands where a scan from p must stop, if it stopped at all. */
    ghost predicate Stopped(vs: seq<View>, p: Pos, f: Filter, status: Status)
      requires Valid() && AtPage(vs, p) && InBoundsAll(vs) && f.Ok()
      reads this, mgr, mgr.Repr
    {
      && Views() == vs
      && (status == BUFFEREXCEEDED <==> !Clear(p.page, Reach(HeapSpec.ScanNext(vs, p, f), |vs|)))
      && match status
         case BUFFEREXCEEDED => curPage == null
         case FILEEOF =>
           && curPage != null && HeapSpec.ScanNext(vs, p, f) == Eof
           && AtPage(vs, Where()) && Next(vs, Where()) == NoMore && cur + 1 == |vs|
           && (Next(vs, p) == NoMore && p.page + 1 == |vs| ==> Where() == p)
         case OK =>
           && curPage != null && HeapSpec.ScanNext(vs, p, f) == Hit(Where())
           && 0 <= cur < |chain| && curRec.pageNo == chain[cur]
         case INVALIDSLOTNO => curPage != null && HeapSpec.ScanNext(vs, p, f) == Unreadable(Where())
         case _ => false
    }

    /** The main loop of scanNext: the next record that matches. */
    method NextMatch() returns (status: Status, outRid: RID)
      requires Valid() && curPage != null
      modifies this`curPage, this`curPageNo, this`curDirtyFlag, this`cur, this`curRec, mgr.Repr
      ensures Valid() && fresh(mgr.Repr - old(mgr.Repr)) && Contents() == old(Contents())
      ensures AtPage(old(Views()), old(Where())) && InBoundsAll(old(Views()))
      ensures Stopped(old(Views()), old(Where()), filter, status) && filter == old(filter)
      ensures status == OK ==> outRid == curRec
      ensures Aside(old(mgr.State()), mgr.State(), file, base)
    {
      hide BlockedPage, SessionOk, BufMgr.Valid, ViewOf, Pages, Next, NextUsed, InBounds, MatchRec, HeapFileScan.Valid;
      hide Elsewhere, Kept;
      hide HeapSpec.ScanNext;
      outRid := NULLRID;
      Ready();
      Apart();
      Still();
      ghost var s, vs, p := mgr.State(), Views(), Where();
      var found := false;
      status := OK;
      while !found
        invariant Valid() && fresh(mgr.Repr - old(mgr.Repr)) && Contents() == old(Contents()) && filter == old(filter)
        invariant found ==> AtPage(vs, p) && InBoundsAll(vs) && filter.Ok() && Stopped(vs, p, filter, status)
        invariant !found ==>
          && curPage != null && Views() == vs && AtPage(vs, p) && AtPage(vs, Where()) && InBoundsAll(vs) && filter.Ok()
          && HeapSpec.ScanNext(vs, Where(), filter) == HeapSpec.ScanNext(vs, p, filter)
          && p.page <= cur && Clear(p.page, cur) && (Where() == p || Next(vs, p) != NoMore)
        invariant Aside(s, mgr.State(), file, base)
        decreases !found, if AtPage(vs, Where()) then Remaining(vs, Where()) else 0
      {
        ghost var t := mgr.State();
        status, found := Probe(vs, Where());
        AsideTrans(s, t, mgr.State(), file, base);
      }
      outRid := if status == OK then curRec else NULLRID;
    }

    /** One turn of the loop: the next record, and whether the scan stops there. */
    method Probe(ghost vs: seq<View>, ghost q: Pos) returns (status: Status, stop: bool)
      requires Valid() && curPage != null && Views() == vs && Where() == q && AtPage(vs, q) && InBoundsAll(vs) &&
        filter.Ok()
      modifies this`curPage, this`curPageNo, this`curDirtyFlag, this`cur, this`curRec, mgr.Repr
      ensures Valid() && fresh(mgr.Repr - old(mgr.Repr)) && Contents() == old(Contents()) && filter == old(filter)
      ensures stop ==> Stopped(vs, q, filter, status)
      ensures !stop ==>
        && curPage != null && Views() == vs && AtPage(vs, Where()) && Remaining(vs, Where()) < Remaining(vs, q)
        && HeapSpec.ScanNext(vs, Where(), filter) == HeapSpec.ScanNext(vs, q, filter)
        && q.page <= cur && Clear(q.page, cur) && Next(vs, q) != NoMore
      ensures Aside(old(mgr.State()), mgr.State(), file, base)
    {
      hide BlockedPage, SessionOk, BufMgr.Valid, ViewOf, Pages, NextUsed, InBounds, MatchRec, HeapFileScan.Valid;
      hide Elsewhere, Kept;
      NextCloser(vs, q);
      status := Advance();
      if status == BUFFEREXCEEDED { ReachBeyond(vs, q, cur, filter); }
      if status != OK { return status, true; }
      var rec;
      status, rec := GetRecord(vs);
      if status != OK { return status, true; }
      stop := MatchRec(filter, rec);
    }

    lemma Ready()
      requires Valid() && curPage != null
      ensures AtPage(Views(), Where()) && InBoundsAll(Views()) && filter.Ok()
    {
      hide SessionOk, BufMgr.Valid, ViewOf;
      Current();
    }

    /** The outcome of a call that had to start over from the first page. */
    ghost predicate Restarted(vs: seq<View>, f: Filter, status: Status)
      requires Valid() && vs != [] && InBoundsAll(vs) && f.Ok()
      reads this, mgr, mgr.Repr
    {
      if Blocked(0) then
        Views() == vs && curPage == null && status == BUFFEREXCEEDED
      else if UsedFrom(vs[0].slots, 0) == [] then
        Views() == vs && curPage == null && curPageNo == -1 && status == FILEEOF && Restart(vs, f) == Eof
      else
        Stopped(vs, START, f, status) && Restart(vs, f) == HeapSpec.ScanNext(vs, START, f)
    }

    /** The special case of scanNext: no page is pinned. */
    method StartOver() returns (status: Status, outRid: RID)
      requires Valid() && curPage == null
      modifies this`curPage, this`curPageNo, this`curDirtyFlag, this`cur, this`curRec, mgr.Repr
      ensures Valid() && fresh(mgr.Repr - old(mgr.Repr)) && Contents() == old(Contents()) && filter == old(filter)
      ensures old(Views()) != [] && InBoundsAll(old(Views())) && Restarted(old(Views()), filter, status)
      ensures status == OK ==> outRid == curRec
      ensures Aside(old(mgr.State()), mgr.State(), file, base)
    {
      hide Inv, Sound, Meaning, HeapOk, PinsOk, Placed, PinCount, BufMgr.Valid;
      hide BlockedPage, Pages, NextUsed, InBounds, MatchRec, HeapFileScan.Valid, UsedFrom, GetInt, Next;
      hide HeapSpec.ScanNext;
      hide Elsewhere, Kept;
      outRid := NULLRID;
      ghost var s, vs := mgr.State(), Views();
      HeaderFirst();
      Apart();
      FirstStop(vs, filter);
      status := EnterPage(GetInt(headerPage[..], FIRST_PAGE), 0);
      if status != OK { return; }
      UsedFromNext(vs[0].slots, 0);
      ghost var t := mgr.State();
      PutRec(NULLRID);
      status := FirstOnPage();
      Ready();
      if status == NORECORDS {
        status := LeavePage();
        Idle();
        AsideTrans(s, t, mgr.State(), file, base);
        return FILEEOF, NULLRID;
      }
      status, outRid := FromFirst(vs);
      AsideTrans(s, t, mgr.State(), file, base);
    }

    /** The cursor stands on the first record of the file: it is returned, or the search goes on from it. */
    method FromFirst(ghost vs: seq<View>) returns (status: Status, outRid: RID)
      requires Valid() && curPage != null && vs == Views() && AtPage(vs, START) && AtPage(vs, Where()) &&
        InBoundsAll(vs) && filter.Ok()
      requires cur == 0 && curRec.slotNo == NextUsed(vs[0].slots, 0) < |vs[0].slots|
      requires 0 <= cur < |chain| && curRec.pageNo == chain[cur]
      modifies this`curPage, this`curPageNo, this`curDirtyFlag, this`cur, this`curRec, mgr.Repr
      ensures Valid() && fresh(mgr.Repr - old(mgr.Repr)) && Contents() == old(Contents()) && filter == old(filter)
      ensures Stopped(vs, START, filter, status)
      ensures status == OK ==> outRid == curRec
      ensures Aside(old(mgr.State()), mgr.State(), file, base)
    {
      hide BlockedPage, Pages, NextUsed, InBounds, MatchRec, HeapFileScan.Valid, GetInt, Next, HeapSpec.ScanNext;
      hide Elsewhere, Kept;
      outRid := NULLRID;
      FirstStop(vs, filter);
      Still();
      var rec;
      status, rec := GetRecord(vs);
      if status != OK { return; }
      if MatchRec(filter, rec) { return OK, curRec; }
      status, outRid := NextMatch();
    }

    method ScanNext() returns (status: Status, outRid: RID)
      requires Valid()
      modifies this`curPage, this`curPageNo, this`curDirtyFlag, this`cur, this`curRec, mgr.Repr
      ensures Valid() && fresh(mgr.Repr - old(mgr.Repr)) && Contents() == old(Contents()) && filter == old(filter)
      ensures status == OK ==> outRid == curRec
      ensures old(curPage) != null ==>
        && AtPage(old(Views()), old(Where())) && InBoundsAll(old(Views()))
        && Stopped(old(Views()), old(Where()), filter, status)
      ensures old(curPage) != null && old(cur) + 1 == |old(Views())| && Next(old(Views()), old(Where())) == NoMore ==>
        status == FILEEOF && curPage != null && Where() == old(Where())
      ensures old(curPage) == null && 0 <= old(curPageNo) ==>
        && old(Views()) != [] && InBoundsAll(old(Views()))
        && Restarted(old(Views()), filter, status)
      ensures old(curPage) == null && old(curPageNo) < 0 ==>
        status == FILEEOF && curPage == null && curPageNo == old(curPageNo)
      ensures Aside(old(mgr.State()), mgr.State(), file, base)
    {
      hide SessionOk, BufMgr.Valid, ViewOf, Pages, HeapFileScan.Valid, BlockedPage;
      hide Elsewhere, Kept;
      Still();
      if curPage != null {
        Current();
        Ready();
        AtTheEnd(Views(), Where(), filter);
      }
      if curPageNo < 0 { return FILEEOF, NULLRID; }
      if curPage == null {
        status, outRid := StartOver();
      } else {
        status, outRid := NextMatch();
      }
    }

    lemma HeaderFirst()
      requires Valid()
      ensures headerPage.Length == PAGESIZE && chain != [] && GetInt(headerPage[..], FIRST_PAGE) == chain[0]
      ensures |Views()| == |chain| && InBoundsAll(Views()) && filter.Ok()
    {
      hide Inv, Meaning, PinsOk, BufMgr.Valid, GetInt, WellFormed, ViewOf;
      mgr.Facts();
      HeaderShown(mgr.State(), W());
    }

    /** Parameters outside what a filter can be are refused and leave the scan alone. */
    method StartScan(f: Filter) returns (status: Status)
      requires Valid() && (f.Filter? ==> |f.value| == f.length)
      modifies this`filter
      ensures Valid() && Views() == old(Views()) && Contents() == old(Contents())
      ensures var bad := f.Filter? && (f.offset < 0 || f.length < 1 || (f.dtype == INTEGER && f.length != 4));
              status == (if bad then BADSCANPARM else OK) && filter == (if bad then old(filter) else f)
    {
      hide SessionOk, BufMgr.Valid;
      if f.NoFilter? {
        filter := f;
        return OK;
      }
      if f.offset < 0 || f.length < 1 || (f.dtype == INTEGER && f.length != 4) { return BADSCANPARM; }
      filter := f;
      status := OK;
    }

    /** An assignment to curRec. */
    method PutRec(rid: RID)
      requires Valid() && -1 <= rid.slotNo
      modifies this`curRec
      ensures Valid() && Views() == old(Views()) && Contents() == old(Contents()) && curRec == rid
    {
      hide SessionOk, BufMgr.Valid;
      curRec := rid;
    }

    /** curPageNo = -1, for calls to come. */
    method Idle()
      requires Valid() && curPage == null
      modifies this`curPageNo
      ensures Valid() && Views() == old(Views()) && Contents() == old(Contents()) && curPageNo == -1
    {
      hide SessionOk, BufMgr.Valid;
      curPageNo := -1;
    }

    /** The current page is in the chain once. */
    lemma CurrentIs(j: nat)
      requires Valid() && curPage != null && j < |chain| && chain[j] == curPageNo
      ensures cur == j
    {
      hide SessionOk, BufMgr.Valid;
      OnePlace(mgr.State(), W(), cur, j);
    }

    /** The position of the scan is remembered. */
    method MarkScan() returns (status: Status)
      requires Valid()
      modifies this`markedPageNo, this`markedRec, this`markedCur
      ensures Valid() && Views() == old(Views()) && Contents() == old(Contents()) && status == OK
      ensures markedPageNo == curPageNo && markedRec == curRec && markedCur == cur
    {
      hide SessionOk, BufMgr.Valid;
      markedPageNo, markedRec, markedCur := curPageNo, curRec, cur;
      status := OK;
    }

    ghost predicate HasMark()
      reads this
    {
      0 <= markedCur < |chain| && markedPageNo == chain[markedCur] && -1 <= markedRec.slotNo
    }

    /** The object after a failed read in the middle of a move: the pool is in order, the pointer is stale. */
    ghost predicate Adrift(m: Contents)
      reads this, mgr, mgr.Repr
    {
      mgr.Valid() && SessionOk(mgr.State(), W().(page := NO_PAGE)) && Meaning(mgr.State()) == m
    }

    /** Another page of the chain becomes the current one; on failure the old pointer and flag stay behind. */
    method MoveTo(pageNo: int, ghost j: nat) returns (status: Status)
      requires Valid() && j < |chain| && pageNo == chain[j]
      modifies this`curPage, this`curPageNo, this`curDirtyFlag, this`cur, mgr.Repr
      ensures fresh(mgr.Repr - old(mgr.Repr)) && curPageNo == pageNo && filter == old(filter)
      ensures status == if Blocked(j) then BUFFEREXCEEDED else OK
      ensures status == OK ==>
        && Valid() && curPage != null && cur == j && !curDirtyFlag
        && Contents() == old(Contents()) && Views() == old(Views())
      ensures status != OK ==>
        curPage == old(curPage) && curDirtyFlag == old(curDirtyFlag) && cur == old(cur) && Adrift(old(Contents()))
      ensures Elsewhere(old(mgr.State()), mgr.State(), file)
    {
      hide SessionOk, BufMgr.Valid, BlockedPage;
      hide Elsewhere;
      Apart();
      var kept, keptDirty := curPage, curDirtyFlag;
      status := Exchange(pageNo, j);
      if status != OK {
        FlagIdle(mgr.State(), W(), keptDirty);
        curPage, curDirtyFlag := kept, keptDirty;
      }
    }

    /** The current page, if there is one, is given up for page j. */
    method Exchange(pageNo: int, ghost j: nat) returns (status: Status)
      requires Valid() && j < |chain| && pageNo == chain[j]
      modifies this`curPage, this`curPageNo, this`curDirtyFlag, this`cur, mgr.Repr
      ensures Valid() && fresh(mgr.Repr - old(mgr.Repr)) && curPageNo == pageNo && !curDirtyFlag &&
        filter == old(filter)
      ensures Contents() == old(Contents()) && Views() == old(Views())
      ensures status == if Blocked(j) then BUFFEREXCEEDED else OK
      ensures if status == OK then curPage != null && cur == j else curPage == null && cur == old(cur)
      ensures Elsewhere(old(mgr.State()), mgr.State(), file)
    {
      hide SessionOk, BufMgr.Valid, BlockedPage;
      hide Elsewhere;
      Apart();
      Still();
      ghost var s := mgr.State();
      if curPage != null { status := LeavePage(); }
      ghost var t := mgr.State();
      status := EnterPage(pageNo, j);
      ElsewhereTrans(s, t, mgr.State(), file);
    }

    /**
     resetScan: the scan stands where it was marked, on a pinned page.  Only a scan
     that had lost its page while still naming the marked one stays without a page.
     */
    method ResetScan() returns (status: Status)
      requires Valid() && HasMark()
      modifies this`curPage, this`curPageNo, this`curDirtyFlag, this`cur, this`curRec, mgr.Repr
      ensures fresh(mgr.Repr - old(mgr.Repr)) && curRec == markedRec && filter == old(filter) &&
        curPageNo == markedPageNo
      ensures status == if markedPageNo != old(curPageNo) && Blocked(markedCur) then BUFFEREXCEEDED else OK
      ensures status == OK ==>
        && Valid() && Contents() == old(Contents()) && Views() == old(Views())
        && (curPage == null <==> old(curPage) == null && old(curPageNo) == markedPageNo)
        && (curPage != null ==> Where() == Pos(markedCur, markedRec.slotNo))
      ensures status != OK ==> curPage == old(curPage) && Adrift(old(Contents()))
      ensures Elsewhere(old(mgr.State()), mgr.State(), file)
    {
      hide Kept, Inv, Sound, Meaning, HeapOk, PinsOk, Pages, BufMgr.Valid, Placed, PinCount;
      hide HeapFileScan.Valid, BlockedPage, Adrift;
      hide Elsewhere;
      Apart();
      Still();
      if markedPageNo != curPageNo {
        PutRec(markedRec);
        status := MoveTo(markedPageNo, markedCur);
      } else {
        if curPage != null { CurrentIs(markedCur); }
        PutRec(markedRec);
        status := OK;
      }
    }

    /** HeapFile::getRecord: an arbitrary record of page j of the file. */
    method ReadRecord(rid: RID, ghost j: nat) returns (status: Status, rec: seq<Byte>)
      requires Valid() && j < |chain| && rid.pageNo == chain[j] && 0 <= rid.slotNo
      modifies this`curPage, this`curPageNo, this`curDirtyFlag, this`cur, this`curRec, mgr.Repr
      ensures fresh(mgr.Repr - old(mgr.Repr)) && filter == old(filter)
      ensures status == OK || status == INVALIDSLOTNO || status == BUFFEREXCEEDED
      ensures status == BUFFEREXCEEDED <==> (old(curPage) == null || rid.pageNo != old(curPageNo)) && Blocked(j)
      ensures status != BUFFEREXCEEDED ==>
        && Valid() && Contents() == old(Contents()) && Views() == old(Views()) && curPage != null &&
          Where() == Pos(j, rid.slotNo)
        && |Views()| == |chain| && InBounds(|Views()[j].data|, Views()[j].slots)
        && (status == OK <==> rid.slotNo in Recs(Views()[j])) && (status == OK ==> rec == Recs(Views()[j])[rid.slotNo])
      ensures status == BUFFEREXCEEDED ==>
        curPage == old(curPage) && curPageNo == old(curPageNo) && Adrift(old(Contents()))
      ensures Elsewhere(old(mgr.State()), mgr.State(), file)
    {
      hide Kept, Inv, Sound, Meaning, HeapOk, PinsOk, Placed, PinCount;
      hide SessionOk, BufMgr.Valid, WellFormed, ViewOf, Recs, BlockedPage;
      hide Elsewhere;
      rec := [];
      Still();
      if curPage == null || rid.pageNo != curPageNo {
        var keptNo := curPageNo;
        status := MoveTo(rid.pageNo, j);
        if status != OK {
          curPageNo := keptNo;
          return;
        }
      } else {
        CurrentIs(j);
      }
      PutRec(rid);
      Current();
      Ready();
      status, rec := Page.GetRecord(curPage, rid);
    }

    method EndScan() returns (status: Status)
      requires Valid()
      modifies this`curPage, this`curPageNo, this`curDirtyFlag, mgr.Repr
      ensures Valid() && fresh(mgr.Repr - old(mgr.Repr)) && Contents() == old(Contents()) && Views() == old(Views())
      ensures status == OK && curPage == null && mgr.disk.files == old(mgr.disk.files)
      ensures curPageNo == if old(curPage) == null then old(curPageNo) else 0
      ensures Aside(old(mgr.State()), mgr.State(), file, base)
    {
      hide SessionOk, BufMgr.Valid;
      hide Elsewhere, Kept;
      status := OK;
      Still();
      if curPage != null {
        status := LeavePage();
        FlagIdle(mgr.State(), W(), false);
        curPageNo, curDirtyFlag := 0, false;
      }
    }

    /** The destructors: endScan, then the header page is unpinned.  The pins are back to what they were. */
    method Close() returns (status: Status)
      requires Valid()
      modifies this`curPage, this`curPageNo, this`curDirtyFlag, mgr.Repr
      ensures mgr.Valid() && fresh(mgr.Repr - old(mgr.Repr)) && Inv(mgr.State()) && Sound(mgr.State()) && status == OK
      ensures Meaning(mgr.State()) == old(Contents())
      ensures Sound(base) && forall k :: PinCount(mgr.State(), k) == PinCount(base, k)
      ensures |mgr.State().frames| == |base.frames| && mgr.disk.files == old(mgr.disk.files)
      ensures forall k :: k in mgr.State().owed ==> PinCount(base, k) > 0
      ensures Aside(old(mgr.State()), mgr.State(), file, base)
    {
      hide Inv, Meaning, HeapOk, PinsOk, BufMgr.Valid, BufferPool.UnPinPage, WellFormed, ViewOf, HeapLayout.Views;
      hide Elsewhere, Kept;
      hide PinCount;
      ghost var s0 := mgr.State();
      status := EndScan();
      ghost var s, w := mgr.State(), W();
      CloseKeeps(s, w);
      HeaderShown(s, w);
      InFrame(s, w.HKey());
      status := mgr.UnPinPage(Key(file, headerPageNo), hdrDirtyFlag);
      AsideTrans(s0, s, mgr.State(), file, base);
    }

    lemma Apart()
      requires Valid()
      ensures this !in mgr.Repr
    {
    }

    lemma HeaderApart()
      requires Valid() && curPage != null
      ensures Key(file, headerPageNo) in mgr.State().index && Key(file, curPageNo) in mgr.State().index
      ensures mgr.State().index[Key(file, headerPageNo)] != mgr.State().index[Key(file, curPageNo)]
      ensures headerPage != curPage && {mgr, headerPage, curPage} <= mgr.Repr
    {
      hide Meaning, HeapOk, PinsOk, BufMgr.Valid;
      Current();
      mgr.Facts();
      DistinctFrames(mgr.State(), W().HKey(), W().CKey());
      mgr.FramesApart();
    }

    /** The record under the cursor leaves its page, which shows v, if it is there. */
    method Erase(ghost v: View) returns (status: Status)
      requires Valid() && curPage != null && 0 <= cur < |Views()| && v == Views()[cur]
      requires InBounds(|v.data|, v.slots) && 0 <= curRec.slotNo
      modifies curPage, mgr`mem, mgr`owed
      ensures mgr.Valid() && Held() && curPage.Length == PAGESIZE && headerPage.Length == PAGESIZE
      ensures headerPage[..] == old(headerPage[..])
      ensures status == if PageView.Live(v, curRec.slotNo) then OK else INVALIDSLOTNO
      ensures status != OK ==> mgr.State() == old(mgr.State())
      ensures status == OK ==>
        && Key(file, curPageNo) in old(mgr.State()).index && Sound(old(mgr.State()))
        && mgr.State() == Write(old(mgr.State()), Key(file, curPageNo), curPage[..])
        && WellFormed(curPage[..]) && ViewOf(curPage[..]) == Delete(v, curRec.slotNo)
    {
      hide SessionOk, BufMgr.Valid, Delete, ViewOf, GetInt, GetShort;
      Current();
      HeaderApart();
      mgr.Facts();
      status := mgr.DeleteFrom(Key(file, curPageNo), curPage, curRec);
    }

    /** The file after a deletion that found no record: only the count is one less. */
    ghost predicate Miscounted(m: Contents)
      reads this, mgr, mgr.Repr
    {
      && mgr.Valid() && Pinned(mgr.State(), W()) && Held()
      && HKey() in m && IsInt(GetInt(m[HKey()], REC_CNT) - 1)
      && Meaning(mgr.State()) == m[HKey() := PutInt(m[HKey()], REC_CNT, GetInt(m[HKey()], REC_CNT) - 1)]
    }

    ghost function HKey(): Key { Key(file, headerPageNo) }

    lemma Counting()
      requires Valid() && curPage != null
      ensures HKey() in Contents() && headerPage.Length == PAGESIZE && headerPage[..] == Contents()[HKey()]
      ensures IsInt(GetInt(headerPage[..], REC_CNT) - 1)
    {
      hide Inv, HeapOk, PinsOk, BufMgr.Valid, WellFormed, ViewOf, Total, Meaning, GetInt;
      mgr.Facts();
      HeaderShown(mgr.State(), W());
      HeaderRange(mgr.State(), W());
    }

    /** recCnt-- and the two dirty flags. */
    method CountOut()
      requires mgr.Valid() && this !in mgr.Repr && Held()
      requires headerPage.Length == PAGESIZE && IsInt(GetInt(headerPage[..], REC_CNT) - 1)
      modifies headerPage, this`curDirtyFlag, this`hdrDirtyFlag, mgr`mem, mgr`owed
      ensures mgr.Valid() && Held() && curDirtyFlag && hdrDirtyFlag && Sound(old(mgr.State())) &&
        HKey() in old(mgr.State()).index
      ensures var img := PutInt(old(headerPage[..]), REC_CNT, GetInt(old(headerPage[..]), REC_CNT) - 1);
              mgr.State() == Write(old(mgr.State()), HKey(), img)
    {
      hide BufMgr.Valid, GetInt, PutInt;
      mgr.Facts();
      mgr.StoreField(Key(file, headerPageNo), headerPage, REC_CNT, GetInt(headerPage[..], REC_CNT) - 1);
      curDirtyFlag, hdrDirtyFlag := true, true;
    }

    /**
     The record under the cursor goes, and the record count with it.  A call that
     finds no record there lowers the count all the same.
     */
    method DeleteRecord() returns (status: Status)
      requires Valid() && curPage != null && 0 <= curRec.slotNo
      modifies this`curDirtyFlag, this`hdrDirtyFlag, mgr.Repr
      ensures fresh(mgr.Repr - old(mgr.Repr)) && curPage == old(curPage) && Where() == old(Where()) &&
        filter == old(filter)
      ensures 0 <= cur < |old(Views())| && TidyAll(old(Views())) && curDirtyFlag && hdrDirtyFlag
      ensures status == if PageView.Live(old(Views())[cur], curRec.slotNo) then OK else INVALIDSLOTNO
      ensures status == OK ==> Valid() && Views() == DeleteAt(old(Views()), Where())
      ensures status != OK ==> Miscounted(old(Contents()))
      ensures Elsewhere(old(mgr.State()), mgr.State(), file)
    {
      hide Inv, Meaning, HeapOk, PinsOk, BufMgr.Valid, Delete, WellFormed, ViewOf, HeapLayout.Views, GetInt, PutInt;
      hide Elsewhere;
      hide Sound, Total, Write;
      ghost var s, w := mgr.State(), W();
      Current();
      Counting();
      HeaderApart();
      TidyViews(s, w);
      status := Erase(Views()[cur]);
      if status == OK {
        DeleteKeepsSession(s, w, cur, curRec.slotNo, curPage[..]);
      } else {
        StaleKeeps(s, w, headerPage[..]);
      }
      CountOut();
    }
  }

  /** The count alone is stored. */
  lemma StaleKeeps(s: Sys, w: Session, hdr: Image)
    requires Pinned(s, w) && IsInt(GetInt(hdr, REC_CNT) - 1)
    ensures w.HKey() in s.index
    ensures var img := PutInt(hdr, REC_CNT, GetInt(hdr, REC_CNT) - 1);
            var t := Write(s, w.HKey(), img);
            && Pinned(t, w.(hdrDirty := true, curDirty := true)) && Meaning(t) == Meaning(s)[w.HKey() := img]
            && Elsewhere(s, t, w.file)
  {
    hide Elsewhere, Inv, Sound, Meaning, PinsOk, GetInt, PutInt, Write;
    RaiseFlags(s, w, true, true);
    MineHeader(w);
    StoreKeeps(s, w.(hdrDirty := true, curDirty := true), w.HKey(), PutInt(hdr, REC_CNT, GetInt(hdr, REC_CNT) - 1));
  }

  lemma MineHeader(w: Session)
    ensures w.Mine(w.HKey()) > 0
  {
  }

  /** A page is in the chain once. */
  lemma OnePlace(s: Sys, w: Session, i: nat, j: nat)
    requires SessionOk(s, w) && i < |w.chain| && j < |w.chain| && w.chain[i] == w.chain[j]
    ensures i == j
  {
    hide Inv, Sound, PinsOk, PageOk, ViewAt;
  }

  lemma TidyViews(s: Sys, w: Session)
    requires SessionOk(s, w)
    ensures TidyAll(Pages(s, w))
  {
    hide Inv, PinsOk, FreeList, Tidy, ViewOf;
  }

  /** There is no frame for the header page of the file, or none beside it for the first data page. */
  ghost predicate Unopenable(s: Sys, file: FileId, chain: seq<int>) {
    chain != [] && (Refused(s, {}, Key(file, 1)) || Refused(s, {Key(file, 1)}, Key(file, chain[0])))
  }

  /**
   HeapFileScan::HeapFileScan on a file in order: header page and first data page
   are pinned and the cursor stands before the first record.
   */
  method OpenScan(mgr: BufMgr, file: FileId, ghost chain: seq<int>) returns (status: Status, scan: HeapFileScan?)
    requires mgr.Valid() && Inv(mgr.State()) && Sound(mgr.State()) && HeapOk(Meaning(mgr.State()), file, 1, chain)
    modifies mgr.Repr
    ensures fresh(mgr.Repr - old(mgr.Repr)) && SameLengths(old(mgr.disk.files), mgr.disk.files)
    ensures status == (if Unopenable(old(mgr.State()), file, chain) then BUFFEREXCEEDED else OK)
    ensures mgr.Valid() && Inv(mgr.State()) && Sound(mgr.State()) && Meaning(mgr.State()) == old(Meaning(mgr.State()))
    ensures status == OK ==>
      && scan != null && fresh(scan) && scan.mgr == mgr && scan.file == file && scan.headerPageNo == 1
      && scan.chain == chain && scan.base == old(mgr.State()) && scan.Valid()
      && scan.curPage != null && scan.Where() == START && scan.filter == NoFilter
    ensures Aside(old(mgr.State()), mgr.State(), file, old(mgr.State()))
    ensures status != OK ==> scan == null && forall k :: PinCount(mgr.State(), k) == old(PinCount(mgr.State(), k))
  {
    hide PinsOk, Placed, Sound;
    hide Refused, Inv, Meaning, HeapOk, PinsOk, BufMgr.Valid, BufferPool.ReadPage, WellFormed, ViewOf;
    hide HeapLayout.Views, GetInt, PinCount, IsLive, Elsewhere, Kept;
    ghost var s := mgr.State();
    mgr.Facts();
    HeaderIsFirst(s, file, 1, chain);
    OpenKeeps(s, file, 1, chain);
    scan := null;
    var headerPageNo := FirstPage(mgr.disk.files[file][0]);
    var headerPage;
    FileAddress(s, file, chain);
    status, headerPage := mgr.ReadPage(Key(file, headerPageNo), null);
    if status != OK { return; }
    mgr.Facts();
    ghost var t := mgr.State();
    scan := new HeapFileScan(mgr, file, headerPageNo, headerPage, chain, s);
    scan.HeaderFirst();
    status := scan.EnterPage(GetInt(headerPage[..], FIRST_PAGE), 0);
    ghost var u := mgr.State();
    AsideTrans(s, t, u, file, s);
    if status != OK {
      var ignored := scan.Close();
      AsideTrans(s, u, mgr.State(), file, s);
      scan := null;
    }
  }

  lemma Ordered(heap: HeapFileScan)
    requires heap.Valid()
    ensures Inv(heap.mgr.State()) && Sound(heap.mgr.State())
    ensures HeapOk(heap.Contents(), heap.file, heap.headerPageNo, heap.chain)
    ensures heap.Views() == HeapLayout.Views(heap.Contents(), heap.file, heap.chain)
  {
    hide Inv, Sound, HeapOk, Meaning, HeapLayout.Views, BufMgr.Valid, PinsOk;
  }

  lemma FileAddress(s: Sys, file: FileId, chain: seq<int>)
    requires Inv(s) && Sound(s) && HeapOk(Meaning(s), file, 1, chain)
    ensures 0 <= file
  {
  }
}
