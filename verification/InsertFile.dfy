/** InsertFileScan of heapfile.cpp: records are appended to the last page of the file. */
module InsertFile {
  import opened Statuses
  import opened Bytes
  import opened Records
  import opened Disk
  import opened BufHash
  import opened BufferPool
  import opened Transparency
  import opened Pins
  import opened Bystanders
  import opened BufMgrs
  import opened PageView
  import opened Page
  import opened HeapLayout
  import opened HeapSession
  import opened Sharing
  import opened HeapFile

  /** The place of the last page. */
  function Last(chain: seq<int>): int { |chain| - 1 }

  /**
   What insertRecord does to the pages vs of the chain c, giving ws and d, when
   unread says that the last page has to be read and cannot be, and full that no
   frame is left for a new page.  A record of 1001 to 1004 bytes passes the length
   check but fits on no page: the only effect is one more empty page.
   */
  ghost predicate Outcome(vs: seq<View>, c: seq<int>, ws: seq<View>, d: seq<int>, rec: seq<Byte>,
                          unread: bool, full: bool, status: Status, rid: RID)
  {
    && c != [] && |vs| == |c|
    && var v := vs[Last(c)];
       var fits := |v.data| + 4 * |v.slots| + |rec| + 4 <= 1004;
       if |rec| > 1004 then status == INVALIDRECLEN && ws == vs && d == c
       else if unread || (full && !fits) then status == BUFFEREXCEEDED && ws == vs && d == c
       else if fits then
         status == OK && d == c && ws == vs[Last(c) := Insert(v, rec)] && rid == RID(c[Last(c)], FirstFree(v.slots))
       else
         && |d| == |c| + 1 && d[..|c|] == c
         && var p := d[|c|];
            if |rec| <= 1000 then
              status == OK && ws == vs[Last(c) := v.(next := p)] + [Insert(Fresh(p), rec)] && rid == RID(p, 0)
            else
              status == NOSPACE && ws == vs[Last(c) := v.(next := p)] + [Fresh(p)]
  }

  class InsertFileScan {
    const mgr: BufMgr
    const file: FileId
    const headerPageNo: int
    const headerPage: array<Byte>
    var hdrDirtyFlag: bool
    var curPage: array?<Byte>
    var curPageNo: int

    ghost var chain: seq<int>
    ghost var base: Sys

    /** The current page counts as changed throughout: the destructor unpins it as dirty. */
    ghost function W(): Session
      reads this
    {
      var page := if curPage == null then NO_PAGE else curPageNo;
      Session(file, headerPageNo, chain, page, NO_PAGE, hdrDirtyFlag, true, base)
    }

    ghost predicate Held()
      reads this, mgr, mgr.hashTable
    {
      && mgr.Holds(Key(file, headerPageNo), headerPage)
      && (curPage != null ==>
            chain != [] && curPageNo == chain[Last(chain)] && mgr.Holds(Key(file, curPageNo), curPage))
    }

    /** The last page is not pinned and cannot be read. */
    ghost predicate Unread()
      reads this
    {
      curPage == null && chain != [] && Refused(base, {Key(file, headerPageNo)}, Key(file, chain[Last(chain)]))
    }

    /** Beside header and last page no frame is left. */
    ghost predicate NoFrame()
      reads this
    {
      chain != [] && NoRoom(base, {Key(file, headerPageNo), Key(file, chain[Last(chain)])})
    }

    ghost predicate Valid()
      reads this, mgr, mgr.Repr
    {
      mgr.Valid() && this !in mgr.Repr && SessionOk(mgr.State(), W()) && Held()
    }

    ghost function Views(): seq<View>
      requires Valid()
      reads this, mgr, mgr.Repr
    {
      Pages(mgr.State(), W())
    }

    constructor (mgr: BufMgr, file: FileId, headerPageNo: int, headerPage: array<Byte>, ghost chain: seq<int>,
        ghost base: Sys)
      requires mgr.Valid() && mgr.Holds(Key(file, headerPageNo), headerPage)
      requires SessionOk(mgr.State(), Session(file, headerPageNo, chain, NO_PAGE, NO_PAGE, false, true, base))
      ensures Valid() && curPage == null && this.mgr == mgr
      ensures this.file == file && this.headerPageNo == headerPageNo && this.chain == chain && this.base == base
    {
      hide SessionOk, BufMgr.Valid;
      this.mgr, this.file, this.headerPageNo, this.headerPage := mgr, file, headerPageNo, headerPage;
      this.chain, this.base := chain, base;
      hdrDirtyFlag, curPage, curPageNo := false, null, 0;
    }

    /** The heap file with its last page pinned, or with none, taken over from the base class. */
    constructor OnLast(heap: HeapFileScan)
      requires heap.Valid() && (heap.curPage != null ==> heap.cur == Last(heap.chain))
      ensures curPage == heap.curPage && mgr == heap.mgr && file == heap.file && headerPageNo == heap.headerPageNo
      ensures chain == heap.chain && base == heap.base && Valid() && Views() == old(heap.Views())
    {
      hide SessionOk, BufMgr.Valid, HeapLayout.Views, Meaning;
      if heap.curPage != null { heap.Current(); }
      Declared(heap.mgr.State(), heap.W());
      mgr, file, headerPageNo, headerPage := heap.mgr, heap.file, heap.headerPageNo, heap.headerPage;
      this.chain, this.base := heap.chain, heap.base;
      hdrDirtyFlag, curPage, curPageNo := heap.hdrDirtyFlag, heap.curPage, heap.curPageNo;
    }

    lemma Apart()
      requires Valid()
      ensures this !in mgr.Repr
    {
    }

    // ---------- while another file is worked on ----------

    /** Valid but for the pins of others, in state s of the pool. */
    ghost predicate Waits(s: Sys)
      reads this
    {
      && Sound(s) && Placed(W()) && HeapOk(Meaning(s), file, headerPageNo, chain)
      && Points(mgr, s, Key(file, headerPageNo), headerPage)
      && (curPage != null ==>
            chain != [] && curPageNo == chain[Last(chain)] && Points(mgr, s, Key(file, curPageNo), curPage))
    }

    lemma Pause()
      requires Valid()
      ensures mgr.Valid() && this !in mgr.Repr && Waits(mgr.State()) && Pinned(mgr.State(), W())
      ensures Views() == HeapLayout.Views(Meaning(mgr.State()), file, chain)
    {
      hide Inv, PinsOk, HeapOk, Meaning, BufMgr.Valid, HeapLayout.Views;
      mgr.Facts();
      MayLeave(mgr.State(), W(), W().HKey(), true);
      if curPage != null { MayLeave(mgr.State(), W(), W().CKey(), true); }
    }

    lemma StillWaits(s: Sys, t: Sys)
      requires Waits(s) && Untouched(s, t, W())
      ensures Waits(t)
      ensures HeapLayout.Views(Meaning(t), file, chain) == HeapLayout.Views(Meaning(s), file, chain)
    {
      hide Sound, HeapOk, Meaning, HeapLayout.Views;
      HeapUntouched(s, t, W());
      assert W().Mine(Key(file, headerPageNo)) > 0;
      assert curPage != null ==> W().page == chain[Last(chain)] && chain[Last(chain)] in chain;
      assert curPage != null ==> W().Mine(Key(file, curPageNo)) > 0;
    }

    /** Work on the file goes on, the pins of others being those of b now. */
    ghost method Resume(b: Sys)
      requires mgr.Valid() && this !in mgr.Repr && Inv(mgr.State()) && Waits(mgr.State())
      requires Sound(b) && PinsOk(mgr.State(), W().(base := b))
      modifies this`base
      ensures Valid() && base == b && Views() == HeapLayout.Views(Meaning(mgr.State()), file, chain)
    {
      hide Inv, Sound, HeapOk, Meaning, BufMgr.Valid, HeapLayout.Views, PinCount;
      base := b;
    }

    lemma Still()
      requires Valid()
      ensures Elsewhere(mgr.State(), mgr.State(), file)
    {
      hide SessionOk, BufMgr.Valid, Elsewhere;
      mgr.Facts();
      ElsewhereSelf(mgr.State(), file);
    }

    /** The destructors: both pages are unpinned, and the pins are what they were before the file was opened. */
    method Close() returns (status: Status)
      requires Valid()
      modifies this`curPage, this`curPageNo, mgr.Repr
      ensures mgr.Valid() && fresh(mgr.Repr - old(mgr.Repr)) && Inv(mgr.State()) && Sound(mgr.State()) && status == OK
      ensures HeapOk(Meaning(mgr.State()), file, headerPageNo, chain) &&
        HeapLayout.Views(Meaning(mgr.State()), file, chain) == old(Views())
      ensures Sound(base) && forall k :: PinCount(mgr.State(), k) == PinCount(base, k)
      ensures |mgr.State().frames| == |base.frames|
      ensures forall k :: k in mgr.State().owed ==> PinCount(base, k) > 0
      ensures Elsewhere(old(mgr.State()), mgr.State(), file)
    {
      hide Inv, Meaning, HeapOk, PinsOk, BufMgr.Valid, BufferPool.UnPinPage, WellFormed, ViewOf, HeapLayout.Views;
      hide Elsewhere;
      hide PinCount, UsedSet, Insert;
      Still();
      ghost var s0 := mgr.State();
      if curPage != null { status := LeaveLast(); }
      ghost var s, w := mgr.State(), W();
      CloseKeeps(s, w);
      HeaderShown(s, w);
      mgr.Facts();
      InFrame(s, w.HKey());
      status := mgr.UnPinPage(Key(file, headerPageNo), hdrDirtyFlag);
      ElsewhereTrans(s0, s, mgr.State(), file);
    }

    /** ~InsertFileScan: the current page is unpinned as dirty. */
    method LeaveLast() returns (status: Status)
      requires Valid() && curPage != null
      modifies this`curPage, this`curPageNo, mgr.Repr
      ensures Valid() && fresh(mgr.Repr - old(mgr.Repr)) && status == OK && curPage == null && Views() == old(Views())
      ensures Elsewhere(old(mgr.State()), mgr.State(), file)
    {
      hide Inv, Meaning, HeapOk, PinsOk, BufMgr.Valid, BufferPool.UnPinPage, WellFormed, ViewOf, HeapLayout.Views;
      hide Elsewhere;
      ghost var s, w := mgr.State(), W();
      Current();
      LeaveKeeps(s, w);
      InFrame(s, w.CKey());
      status := mgr.UnPinPage(Key(file, curPageNo), true);
      curPage, curPageNo := null, 0;
      HeaderShown(mgr.State(), W());
      mgr.Facts();
      StillHolds(mgr, s, Key(file, headerPageNo), headerPage);
    }

    lemma Current()
      requires Valid() && curPage != null
      ensures curPage.Length == PAGESIZE == headerPage.Length && {mgr, curPage, headerPage} <= mgr.Repr &&
        headerPage != curPage
      ensures chain != [] && |Views()| == |chain| && 1 <= curPageNo && 0 <= file
      ensures WellFormed(curPage[..]) && ViewOf(curPage[..]) == Views()[Last(chain)] &&
        Views()[Last(chain)].cur == curPageNo
      ensures W().page == chain[Last(chain)] && W().CKey() in mgr.State().index && W().HKey() in mgr.State().index
      ensures W().HKey() in Meaning(mgr.State()) && headerPage[..] == Meaning(mgr.State())[W().HKey()]
    {
      hide Meaning, HeapOk, PinsOk, BufMgr.Valid, Tidy, GetInt, GetShort, Pages;
      mgr.Facts();
      assert chain[Last(chain)] in chain;
      CurrentPage(mgr.State(), W(), Last(chain));
      DistinctFrames(mgr.State(), W().HKey(), W().CKey());
      mgr.FramesApart();
    }

    /** readPage of the last page. */
    method EnterLast() returns (status: Status)
      requires Valid() && curPage == null
      modifies this`curPage, this`curPageNo, mgr.Repr
      ensures Valid() && fresh(mgr.Repr - old(mgr.Repr)) && chain == old(chain) && Views() == old(Views())
      ensures status == if old(Unread()) then BUFFEREXCEEDED else OK
      ensures status == OK <==> curPage != null
      ensures SameLengths(old(mgr.disk.files), mgr.disk.files)
      ensures Elsewhere(old(mgr.State()), mgr.State(), file)
    {
      hide Refused, SessionOk, Meaning, BufMgr.Valid, BufferPool.ReadPage, Pages, Sound, GetInt;
      hide Elsewhere;
      ghost var s, w := mgr.State(), W();
      mgr.Facts();
      HeaderLast();
      curPageNo := GetInt(headerPage[..], LAST_PAGE);
      PinLast(s, w);
      status, curPage := mgr.ReadPage(Key(file, curPageNo), null);
      mgr.Facts();
      StillHolds(mgr, s, Key(file, headerPageNo), headerPage);
    }

    lemma HeaderLast()
      requires Valid()
      ensures chain != [] && headerPage.Length == PAGESIZE && GetInt(headerPage[..], LAST_PAGE) == chain[Last(chain)]
    {
      hide Inv, Meaning, HeapOk, PinsOk, BufMgr.Valid, GetInt, Pages;
      mgr.Facts();
      HeaderShown(mgr.State(), W());
    }

    /** The record goes on the current page, which shows v, if it fits there. */
    method Put(rec: seq<Byte>, ghost v: View) returns (status: Status, rid: RID)
      requires Valid() && curPage != null && chain != [] && |Views()| == |chain| && v == Views()[Last(chain)]
      modifies curPage, mgr`mem, mgr`owed
      ensures mgr.Valid() && Held() && curPage.Length == PAGESIZE == headerPage.Length
      ensures status == (if Fits(v, rec) then OK else NOSPACE) && headerPage[..] == old(headerPage[..])
      ensures status == NOSPACE ==> mgr.State() == old(mgr.State())
      ensures status == OK ==>
        && Key(file, curPageNo) in old(mgr.State()).index && Sound(old(mgr.State()))
        && mgr.State() == Write(old(mgr.State()), Key(file, curPageNo), curPage[..])
        && WellFormed(curPage[..]) && ViewOf(curPage[..]) == Insert(v, rec)
        && rid == RID(curPageNo, FirstFree(v.slots))
    {
      hide SessionOk, BufMgr.Valid, Insert, ViewOf, GetInt, GetShort, Tidy, Fits;
      Current();
      mgr.Facts();
      status, rid := mgr.InsertInto(Key(file, curPageNo), curPage, rec);
    }

    /** The record just put on the current page is counted. */
    method CountIn(ghost s: Sys, ghost vs: seq<View>, ghost rec: seq<Byte>)
      requires mgr.Valid() && this !in mgr.Repr && Held() && curPage != null
      requires curPage.Length == PAGESIZE == headerPage.Length && {mgr, headerPage} <= mgr.Repr
      requires Uncounted(s, W(), mgr.State(), vs, curPage[..], headerPage[..], rec) && vs != []
      modifies this`hdrDirtyFlag, headerPage, mgr`mem, mgr`owed
      ensures Valid() && Views() == vs[|vs| - 1 := Insert(vs[|vs| - 1], rec)]
      ensures Elsewhere(s, mgr.State(), file)
    {
      hide SessionOk, Meaning, BufMgr.Valid, Insert, WellFormed, ViewOf, GetInt, PutInt, Sound, Write, Uncounted, Pages;
      hide Elsewhere;
      CountKeeps(s, W(), mgr.State(), vs, curPage[..], headerPage[..], rec);
      mgr.StoreField(Key(file, headerPageNo), headerPage, REC_CNT, GetInt(headerPage[..], REC_CNT) + 1);
      hdrDirtyFlag := true;
    }

    method AddHere(rec: seq<Byte>) returns (status: Status, rid: RID)
      requires Valid() && curPage != null && IsInt(Total(Views()) + 1)
      modifies this`hdrDirtyFlag, mgr.Repr
      ensures Valid() && fresh(mgr.Repr - old(mgr.Repr)) && curPage == old(curPage) && curPageNo == old(curPageNo) &&
        chain == old(chain)
      ensures chain != [] && |old(Views())| == |chain|
      ensures var v := old(Views())[Last(chain)];
              if Fits(v, rec) then
                && status == OK && Views() == old(Views())[Last(chain) := Insert(v, rec)]
                && rid == RID(chain[Last(chain)], FirstFree(v.slots))
              else status == NOSPACE && Views() == old(Views()) && mgr.State() == old(mgr.State())
      ensures mgr.disk.files == old(mgr.disk.files)
      ensures Elsewhere(old(mgr.State()), mgr.State(), file)
    {
      hide SessionOk, Meaning, BufMgr.Valid, Insert, WellFormed, ViewOf, Write, Fits, Pages, Total;
      hide Elsewhere;
      ghost var s, vs := mgr.State(), Views();
      Current();
      Still();
      status, rid := Put(rec, vs[Last(chain)]);
      if status == OK { CountIn(s, vs, rec); }
    }

    /** allocPage for the file: the new page is pinned beside the current one. */
    method AllocNew() returns (status: Status, newPageNo: int, newPage: array?<Byte>)
      requires Valid() && curPage != null && CanAlloc(mgr.State(), W())
      modifies mgr.Repr
      ensures mgr.Valid() && fresh(mgr.Repr - old(mgr.Repr)) && this !in mgr.Repr && Held()
      ensures 1 <= newPageNo && IsInt(newPageNo)
      ensures SessionOk(mgr.State(), if status == OK then W().(extra := newPageNo) else W())
      ensures Pages(mgr.State(), if status == OK then W().(extra := newPageNo) else W()) == old(Views())
      ensures status == if NoFrame() then BUFFEREXCEEDED else OK
      ensures status == OK ==> newPage != null && mgr.Holds(Key(file, newPageNo), newPage)
      ensures OneMore(old(mgr.disk.files), mgr.disk.files, file)
      ensures Elsewhere(old(mgr.State()), mgr.State(), file)
    {
      hide Sound, PinCount, Kept, Same;
      hide NoRoom, OneMore, Inv, Meaning, HeapOk, PinsOk, BufMgr.Valid, BufferPool.AllocPage, WellFormed, ViewOf;
      hide Elsewhere;
      hide HeapLayout.Views, Extendable;
      ghost var s, w := mgr.State(), W();
      Current();
      assert w.Held() == {w.HKey(), w.CKey()};
      AllocSession(s, w);
      mgr.Facts();
      status, newPageNo, newPage := mgr.AllocPage(file, null);
      mgr.Facts();
      ghost var w' := if status == OK then w.(extra := newPageNo) else w;
      HeaderShown(mgr.State(), w');
      MayLeave(mgr.State(), w', w'.CKey(), true);
      StillHolds(mgr, s, Key(file, headerPageNo), headerPage);
      StillHolds(mgr, s, Key(file, curPageNo), curPage);
    }

    /** Three pages of the session are three frames of the pool. */
    lemma ThreeFrames(p: int, newPage: array<Byte>)
      requires mgr.Valid() && Held() && curPage != null && mgr.Holds(Key(file, p), newPage) && p != NO_PAGE
      requires SessionOk(mgr.State(), W().(extra := p))
      ensures newPage != headerPage && newPage != curPage && curPage != headerPage
      ensures newPage.Length == curPage.Length == headerPage.Length == PAGESIZE
      ensures {mgr, newPage, curPage, headerPage} <= mgr.Repr && 0 <= file && 1 <= curPageNo
    {
      hide Meaning, HeapOk, PinsOk, BufMgr.Valid, Inv;
      ghost var s, w := mgr.State(), W().(extra := p);
      mgr.Facts();
      assert chain[Last(chain)] in chain;
      DistinctFrames(s, w.HKey(), w.CKey());
      DistinctFrames(s, w.HKey(), w.XKey());
      DistinctFrames(s, w.CKey(), w.XKey());
      mgr.FramesApart();
    }

    /** The stores that link the new page behind the current one; init has set its own link to -1. */
    method LinkNew(p: int, newPage: array<Byte>, ghost last: View)
      requires mgr.Valid() && Held() && curPage != null && mgr.Holds(Key(file, p), newPage) && IsInt(p)
      requires newPage != headerPage && newPage != curPage && curPage != headerPage
      requires newPage.Length == curPage.Length == headerPage.Length == PAGESIZE
      requires WellFormed(curPage[..]) && ViewOf(curPage[..]) == last && IsInt(GetInt(headerPage[..], PAGE_CNT) + 1)
      modifies newPage, curPage, headerPage, mgr`mem, mgr`owed
      ensures mgr.Valid() && Held() && mgr.Holds(Key(file, p), newPage)
      ensures newPage.Length == curPage.Length == headerPage.Length == PAGESIZE
      ensures Sound(old(mgr.State()))
      ensures {Key(file, p), Key(file, headerPageNo), Key(file, curPageNo)} <= old(mgr.State()).index.Keys
      ensures WellFormed(newPage[..]) && ViewOf(newPage[..]) == Fresh(p)
      ensures WellFormed(curPage[..]) && ViewOf(curPage[..]) == last.(next := p)
      ensures mgr.State() ==
        AppendStores(old(mgr.State()), W().(extra := p), newPage[..], PutInt(old(headerPage[..]), LAST_PAGE, p),
                     AppendedHeader(old(headerPage[..]), p, GetInt(old(headerPage[..]), PAGE_CNT) + 1), curPage[..])
    {
      hide BufMgr.Valid, WellFormed, ViewOf, GetInt, PutInt, Sound;
      mgr.Facts();
      mgr.InitPage(Key(file, p), newPage, p);
      mgr.StoreField(Key(file, headerPageNo), headerPage, LAST_PAGE, p);
      PutIntFrame(old(headerPage[..]), LAST_PAGE, p, PAGE_CNT);
      mgr.StoreField(Key(file, headerPageNo), headerPage, PAGE_CNT, GetInt(headerPage[..], PAGE_CNT) + 1);
      mgr.LinkPage(Key(file, curPageNo), curPage, p);
    }

    /** The page count of the header, with a page allocated beside the current one. */
    lemma PageCount(p: int)
      requires mgr.Valid() && Held() && SessionOk(mgr.State(), W().(extra := p))
      ensures headerPage.Length == PAGESIZE && chain != [] && IsInt(|chain| + 1)
      ensures GetInt(headerPage[..], PAGE_CNT) == |chain|
      ensures W().HKey() in Meaning(mgr.State()) && headerPage[..] == Meaning(mgr.State())[W().HKey()]
    {
      hide Inv, Meaning, HeapOk, PinsOk, BufMgr.Valid, GetInt, Pages, Sound;
      mgr.Facts();
      HeaderShown(mgr.State(), W().(extra := p));
      ChainShort(mgr.State(), W().(extra := p));
    }

    lemma LastView(p: int)
      requires mgr.Valid() && Held() && curPage != null && SessionOk(mgr.State(), W().(extra := p))
      ensures curPage.Length == PAGESIZE && chain != [] && |Pages(mgr.State(), W().(extra := p))| == |chain|
      ensures WellFormed(curPage[..]) && ViewOf(curPage[..]) == Pages(mgr.State(), W().(extra := p))[Last(chain)]
    {
      hide Inv, Meaning, HeapOk, PinsOk, BufMgr.Valid, Tidy, GetInt, GetShort, Pages;
      mgr.Facts();
      CurrentPage(mgr.State(), W().(extra := p), Last(chain));
    }

    /** A new blank page becomes the last page of the file and the current one. */
    method Append() returns (status: Status)
      requires Valid() && curPage != null && CanAlloc(mgr.State(), W())
      modifies this, mgr.Repr
      ensures base == old(base)
      ensures Valid() && fresh(mgr.Repr - old(mgr.Repr)) && curPage != null
      ensures old(chain) != [] && |old(Views())| == |old(chain)|
      ensures if status == OK then
                && chain == old(chain) + [curPageNo]
                && var vs, k := old(Views()), Last(old(chain));
                   Views() == vs[k := vs[k].(next := curPageNo)] + [Fresh(curPageNo)]
              else chain == old(chain) && Views() == old(Views())
      ensures status == if old(NoFrame()) then BUFFEREXCEEDED else OK
      ensures OneMore(old(mgr.disk.files), mgr.disk.files, file)
      ensures Elsewhere(old(mgr.State()), mgr.State(), file)
    {
      hide Inv, Meaning, HeapOk, PinsOk, BufMgr.Valid, WellFormed, ViewOf, HeapLayout.Views, GetInt, PutInt, Sound;
      hide Elsewhere;
      hide BufferPool.UnPinPage, AppendStores, AppendedHeader, NoRoom, OneMore;
      Current();
      ghost var s0, vs := mgr.State(), Views();
      var newPageNo, newPage;
      status, newPageNo, newPage := AllocNew();
      if status != OK { return; }
      ghost var s, w := mgr.State(), W().(extra := newPageNo);
      ThreeFrames(newPageNo, newPage);
      PageCount(newPageNo);
      LastView(newPageNo);
      LinkNew(newPageNo, newPage, vs[Last(chain)]);
      AppendKeeps(s, w, newPage[..], PutInt(Meaning(s)[w.HKey()], LAST_PAGE, newPageNo), curPage[..]);
      status := FinishAppend(s, w, newPageNo, newPage, vs[Last(chain)].(next := newPageNo));
      ElsewhereTrans(s0, s, mgr.State(), file);
    }

    /** The old last page is unpinned as dirty and the new one takes its place. */
    method FinishAppend(ghost s: Sys, ghost w: Session, p: int, newPage: array<Byte>, ghost last: View)
        returns (status: Status)
      requires mgr.Valid() && Held() && curPage != null && mgr.Holds(Key(file, p), newPage) && this !in mgr.Repr
      requires 0 <= file && 1 <= curPageNo && 1 <= p && w == W().(extra := p) && SessionOk(s, w)
      requires mgr.State().index == s.index && Inv(mgr.State()) && Sound(mgr.State()) &&
        AppendOutcome(s, w, mgr.State(), last)
      modifies this, mgr.Repr
      ensures base == old(base)
      ensures Valid() && fresh(mgr.Repr - old(mgr.Repr)) && status == OK && curPage == newPage && curPageNo == p
      ensures chain == old(chain) + [p] && w.chain != [] && |Pages(s, w)| == |w.chain|
      ensures Views() == Pages(s, w)[Last(w.chain) := last] + [Fresh(p)] && mgr.disk.files == s.files
      ensures Elsewhere(s, mgr.State(), file)
    {
      hide Inv, Meaning, SessionOk, BufMgr.Valid, WellFormed, ViewOf, Pages, BufferPool.UnPinPage, Writable, PinCount;
      hide Elsewhere;
      mgr.Facts();
      InFrame(mgr.State(), Key(file, curPageNo));
      status := mgr.UnPinPage(Key(file, curPageNo), true);
      curPage, curPageNo, hdrDirtyFlag := newPage, p, true;
      chain := chain + [p];
      BothHeld(mgr, s, W(), headerPage, newPage);
    }

    method InsertRecord(rec: seq<Byte>) returns (status: Status, outRid: RID)
      requires Valid() && IsInt(Total(Views()) + 1)
      requires file in mgr.disk.files && |mgr.disk.files[file]| < MAX_PAGES
      modifies this, mgr.Repr
      ensures base == old(base)
      ensures Valid() && fresh(mgr.Repr - old(mgr.Repr))
      ensures Outcome(old(Views()), old(chain), Views(), chain, rec, old(Unread()), old(NoFrame()), status, outRid)
      ensures OneMore(old(mgr.disk.files), mgr.disk.files, file)
      ensures Elsewhere(old(mgr.State()), mgr.State(), file)
    {
      hide SessionOk, BufMgr.Valid, Insert, Pages, Total, Held, InsertFileScan.Valid, Refused, NoRoom;
      hide Elsewhere;
      outRid := NULLRID;
      Shape();
      Apart();
      Still();
      ghost var s := mgr.State();
      if |rec| > CAPACITY { return INVALIDRECLEN, outRid; }
      if curPage == null {
        status := EnterLast();
        if status != OK { return; }
      }
      ghost var t := mgr.State();
      status, outRid := AddOrAppend(rec);
      ElsewhereTrans(s, t, mgr.State(), file);
    }

    /** The record on the current page, or else on a new one. */
    method AddOrAppend(rec: seq<Byte>) returns (status: Status, outRid: RID)
      requires Valid() && curPage != null && IsInt(Total(Views()) + 1) && |rec| <= CAPACITY
      requires file in mgr.disk.files && |mgr.disk.files[file]| < MAX_PAGES
      modifies this, mgr.Repr
      ensures base == old(base)
      ensures Valid() && fresh(mgr.Repr - old(mgr.Repr))
      ensures Outcome(old(Views()), old(chain), Views(), chain, rec, false, old(NoFrame()), status, outRid)
      ensures OneMore(old(mgr.disk.files), mgr.disk.files, file)
      ensures Elsewhere(old(mgr.State()), mgr.State(), file)
    {
      hide SessionOk, BufMgr.Valid, Insert, Pages, Total, Held, InsertFileScan.Valid, NoRoom;
      hide Elsewhere;
      ghost var s, vs, c := mgr.State(), Views(), chain;
      Apart();
      status, outRid := AddHere(rec);
      ghost var t := mgr.State();
      if status == OK { return; }
      Allocatable();
      status := Append();
      ghost var u := mgr.State();
      ElsewhereTrans(s, t, u, file);
      if status != OK { return; }
      AppendedTotal(vs, Last(c), curPageNo, curPageNo);
      status, outRid := AddHere(rec);
      ElsewhereTrans(s, u, mgr.State(), file);
    }

    lemma Shape()
      requires Valid()
      ensures chain != [] && |Views()| == |chain|
    {
      hide Inv, PinsOk, BufMgr.Valid;
    }

    lemma Allocatable()
      requires Valid() && file in mgr.disk.files && |mgr.disk.files[file]| < MAX_PAGES
      ensures CanAlloc(mgr.State(), W())
    {
      hide BufMgr.Valid, SessionOk;
      MayAlloc(mgr.State(), W());
    }
  }

  /** There is no frame for the header page, or none beside it for the first or for the last data page. */
  ghost predicate Uninsertable(s: Sys, file: FileId, chain: seq<int>) {
    || Unopenable(s, file, chain)
    || (1 < |chain| && Refused(s, {Key(file, 1)}, Key(file, chain[Last(chain)])))
  }

  /**
   InsertFileScan::InsertFileScan on a file in order: the header page and the
   last data page are pinned.  When the last page cannot be read the status says
   so, and the header page stays pinned until the object goes.
   */
  method OpenInsert(mgr: BufMgr, file: FileId, ghost chain: seq<int>) returns (status: Status, scan: InsertFileScan?)
    requires mgr.Valid() && Inv(mgr.State()) && Sound(mgr.State()) && HeapOk(Meaning(mgr.State()), file, 1, chain)
    modifies mgr.Repr
    ensures status == if Uninsertable(old(mgr.State()), file, chain) then BUFFEREXCEEDED else OK
    ensures mgr.Valid() && Inv(mgr.State()) && Sound(mgr.State())
    ensures fresh(mgr.Repr - old(mgr.Repr)) && SameLengths(old(mgr.disk.files), mgr.disk.files)
    ensures Meaning(mgr.State()) == old(Meaning(mgr.State()))
    ensures scan == null <==> Unopenable(old(mgr.State()), file, chain)
    ensures status == OK ==> scan != null
    ensures scan != null ==>
      && fresh(scan) && scan.mgr == mgr && scan.file == file && scan.headerPageNo == 1 &&
        scan.chain == chain && scan.base == old(mgr.State()) && scan.Valid()
      && (scan.curPage != null <==> status == OK)
      && scan.Views() == old(HeapLayout.Views(Meaning(mgr.State()), file, chain))
    ensures scan == null ==> forall k :: PinCount(mgr.State(), k) == old(PinCount(mgr.State(), k))
    ensures Elsewhere(old(mgr.State()), mgr.State(), file)
  {
    hide Placed, PinsOk, Kept, Refused;
    hide Elsewhere, Pinned, BufMgr.Valid, Inv, Meaning, HeapOk, PinCount, HeapLayout.Views, Sound;
    scan := null;
    ghost var s := mgr.State();
    var heap;
    status, heap := OpenScan(mgr, file, chain);
    if status != OK { return; }
    ghost var t := mgr.State();
    status := ToLast(heap);
    ElsewhereTrans(s, t, mgr.State(), file);
    Ordered(heap);
    scan := new InsertFileScan.OnLast(heap);
  }

  /** The current page becomes the last one, if it is not already. */
  method ToLast(heap: HeapFileScan) returns (status: Status)
    requires heap.Valid() && heap.curPage != null
    modifies heap`curPage, heap`curPageNo, heap`curDirtyFlag, heap`cur, heap.mgr.Repr
    ensures heap.Valid() && fresh(heap.mgr.Repr - old(heap.mgr.Repr)) && heap.Contents() == old(heap.Contents())
    ensures status == BUFFEREXCEEDED <==> old(heap.cur) != Last(heap.chain) && heap.Blocked(Last(heap.chain))
    ensures status == OK || status == BUFFEREXCEEDED
    ensures if status == OK then heap.curPage != null && heap.cur == Last(heap.chain) else heap.curPage == null
    ensures SameLengths(old(heap.mgr.disk.files), heap.mgr.disk.files)
    ensures Elsewhere(old(heap.mgr.State()), heap.mgr.State(), heap.file)
  {
    hide Elsewhere, BlockedPage, SessionOk, BufMgr.Valid, Meaning, GetInt, Pages;
    LastInHeader(heap);
    heap.Still();
    ghost var s := heap.mgr.State();
    status := OK;
    if heap.curPageNo != GetInt(heap.headerPage[..], LAST_PAGE) {
      status := heap.LeavePage();
      ghost var t := heap.mgr.State();
      LastInHeader(heap);
      status := heap.EnterPage(GetInt(heap.headerPage[..], LAST_PAGE), Last(heap.chain));
      ElsewhereTrans(s, t, heap.mgr.State(), heap.file);
    }
  }

  /** The header names the last page, and a current page of that number is the last one. */
  lemma LastInHeader(heap: HeapFileScan)
    requires heap.Valid()
    ensures heap.headerPage.Length == PAGESIZE && heap.chain != []
    ensures GetInt(heap.headerPage[..], LAST_PAGE) == heap.chain[Last(heap.chain)]
    ensures heap.curPage != null ==>
      (heap.curPageNo == heap.chain[Last(heap.chain)] <==> heap.cur == Last(heap.chain))
  {
    hide Inv, Meaning, HeapOk, PinsOk, BufMgr.Valid, GetInt, Pages;
    heap.mgr.Facts();
    HeaderShown(heap.mgr.State(), heap.W());
    if heap.curPage != null && heap.curPageNo == heap.chain[Last(heap.chain)] {
      OnePlace(heap.mgr.State(), heap.W(), heap.cur, Last(heap.chain));
    }
  }

  /** readPage of the last page, which counts as changed from then on. */
  lemma PinLast(s: Sys, w: Session)
    requires SessionOk(s, w) && w.page == NO_PAGE && w.extra == NO_PAGE && w.curDirty && w.chain != []
    ensures var k := Key(w.file, w.chain[Last(w.chain)]);
            && IsLive(s, k) && Hashable(k)
            && var g := ReadPage(s, k);
               && g.status == (if Refused(w.base, {w.HKey()}, k) then BUFFEREXCEEDED else OK)
               && SessionOk(g.sys, if g.status == OK then w.(page := k.page) else w)
               && Pages(g.sys, if g.status == OK then w.(page := k.page) else w) == Pages(s, w)
               && SameFrames(s, g.sys) && SameLengths(s.files, g.sys.files) && Elsewhere(s, g.sys, w.file)
               && w.HKey() in s.index && w.HKey() in g.sys.index
               && (g.status == OK ==> k in g.sys.index && g.frame == g.sys.index[k])
  {
    hide Refused, Inv, Meaning, HeapOk, PinsOk, BufferPool.ReadPage, Sound, HeapLayout.Views, Elsewhere;
    var p := w.chain[Last(w.chain)];
    assert p in w.chain && w.Held() == {w.HKey()};
    ChainLive(s, w, p);
    PinKeeps(s, w, p);
    var g := ReadPage(s, Key(w.file, p));
    if g.status == OK { Declared(g.sys, w.(page := p, curDirty := false)); }
    MayLeave(s, w, w.HKey(), true);
    MayLeave(g.sys, if g.status == OK then w.(page := p) else w, w.HKey(), true);
  }

  /** The pointers to both pages of a session survive an operation that keeps the pages in their frames. */
  lemma BothHeld(mgr: BufMgr, s: Sys, w: Session, headerPage: array<Byte>, curPage: array<Byte>)
    requires mgr.Valid() && SessionOk(mgr.State(), w) && w.page != NO_PAGE && SameFrames(s, mgr.State())
    requires w.HKey() in s.index && 0 <= s.index[w.HKey()] < |mgr.bufPool| &&
      headerPage == mgr.bufPool[s.index[w.HKey()]]
    requires w.CKey() in s.index && 0 <= s.index[w.CKey()] < |mgr.bufPool| && curPage == mgr.bufPool[s.index[w.CKey()]]
    ensures mgr.Holds(w.HKey(), headerPage) && mgr.Holds(w.CKey(), curPage)
  {
    hide Inv, Meaning, HeapOk, PinsOk, BufMgr.Valid;
    MayLeave(mgr.State(), w, w.HKey(), true);
    MayLeave(mgr.State(), w, w.CKey(), true);
    StillHolds(mgr, s, w.HKey(), headerPage);
    StillHolds(mgr, s, w.CKey(), curPage);
  }

  lemma Declared(s: Sys, w: Session)
    requires SessionOk(s, w)
    ensures SessionOk(s, w.(curDirty := true))
  {
    hide Inv, Sound, HeapOk, Meaning, PinsOk;
    RaiseFlags(s, w, false, true);
  }
}
