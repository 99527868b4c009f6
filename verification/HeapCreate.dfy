/** createHeapFile of heapfile.cpp: a header page and one empty data page in a new file. */
module HeapCreate {
  import opened Statuses
  import opened Bytes
  import opened Disk
  import opened BufHash
  import opened BufferPool
  import opened Transparency
  import opened Pins
  import opened Bystanders
  import opened BufMgrs
  import opened PageView
  import opened Page
  import opened HeapLayout
  import opened HeapSession
  import opened HeapFile

  /** The file holds nothing but its own header, as File::create leaves it. */
  ghost predicate NewFile(s: Sys, f: FileId) {
    f in s.files && f in s.free && |s.files[f]| == 1 && s.free[f] == []
  }

  /** createHeapFile owns a header page h, and a data page p once it is allocated. */
  function Draft(f: FileId, h: int, p: int, base: Sys): Session {
    Session(f, h, [], NO_PAGE, p, true, false, base)
  }

  /** Nothing of a new file is in the pool. */
  lemma NothingPinned(s: Sys, f: FileId, k: Key)
    requires Inv(s) && Sound(s) && NewFile(s, f) && k.file == f
    ensures PinCount(s, k) == 0
  {
    hide Inv, FreeList;
    IndexLive(s);
  }

  /** Nobody has pinned a page of a file just created. */
  lemma NewUnpinned(s: Sys, t: Sys, file: FileId)
    requires Inv(s) && Sound(s) && Sound(t) && NewFile(s, file) && forall k :: PinCount(t, k) == PinCount(s, k)
    ensures Unpinned(t, file)
  {
    hide Inv, Sound, PinCount, NewFile;
    forall k: Key | k.file == file
      ensures PinCount(t, k) == 0
    {
      NothingPinned(s, file, k);
    }
  }

  lemma AllocHeader(s: Sys, f: FileId)
    requires Inv(s) && Sound(s) && 0 <= f && f in s.files && f in s.free && Extendable(s.files[f])
    ensures var (g, h) := AllocPage(s, f);
            && g.status == (if Spare(s, 1) then OK else BUFFEREXCEEDED) && Inv(g.sys) && Sound(g.sys)
            && 1 <= h && IsInt(h) && Key(f, h) !in Meaning(s) && Key(f, h) !in PinnedKeys(s)
            && OneMore(s.files, g.sys.files, f) && Elsewhere(s, g.sys, f)
            && (forall k :: k in Meaning(s) ==> k in Meaning(g.sys) && Meaning(g.sys)[k] == Meaning(s)[k])
            && (g.status != OK ==> forall k :: PinCount(g.sys, k) == PinCount(s, k))
            && (g.status == OK ==>
                  Pinned(g.sys, Draft(f, h, NO_PAGE, s)) && Key(f, h) in g.sys.index &&
                    g.frame == g.sys.index[Key(f, h)])
  {
    hide FrameOk, EntryOk, FreeList, AllocPage, Extendable, PinnedKeys, OneMore, Full, Elsewhere;
    AllocKeepsInv(s, f);
    AllocElsewhere(s, f);
    AllocRefused(s, f);
    FullPins(s);
    PinnedIff(s);
    var (g, h) := AllocPage(s, f);
    PageInRange(g.sys, Key(f, h));
    forall k | k in s.owed
      ensures PinCount(s, k) > 0
    {
      assert OwedOk(s, k);
    }
  }

  /** The first page that a new file gives out is page 1. */
  lemma FirstIsOne(s: Sys, f: FileId)
    requires Inv(s) && Sound(s) && NewFile(s, f) && Extendable(s.files[f])
    ensures AllocPage(s, f).1 == 1
  {
    hide AllocBuf, Adopt, FrameOk, EntryOk, OwedOk;
    assert FreeList(s.files[f], s.free[f]);
  }

  lemma AllocData(s: Sys, w: Session)
    requires Pinned(s, w) && w.chain == [] && w.page == NO_PAGE && CanAlloc(s, w)
    ensures var (g, p) := AllocPage(s, w.file);
            && g.status == (if NoRoom(w.base, w.Held()) then BUFFEREXCEEDED else OK)
            && OneMore(s.files, g.sys.files, w.file) && Elsewhere(s, g.sys, w.file)
            && Pinned(g.sys, if g.status == OK then w.(extra := p) else w)
            && 1 <= p && IsInt(p) && p != w.header && SameFrames(s, g.sys) && Key(w.file, p) !in Meaning(s)
            && (forall k :: k in Meaning(s) ==> k in Meaning(g.sys) && Meaning(g.sys)[k] == Meaning(s)[k])
            && (g.status == OK ==> Key(w.file, p) in g.sys.index && g.frame == g.sys.index[Key(w.file, p)])
  {
    hide Inv, Sound, FreeList, AllocPage, Extendable, PinCount, PinnedKeys, OneMore, Full, Elsewhere, FilesOk;
    AllocKeepsInv(s, w.file);
    AllocElsewhere(s, w.file);
    AllocRefused(s, w.file);
    SessionPins(s, w);
    var (g, p) := AllocPage(s, w.file);
    MayLeave(s, w, w.HKey(), true);
    IndexLive(s);
    FilesInOrder(g.sys);
    PageInRange(g.sys, Key(w.file, p));
  }

  lemma FilesInOrder(s: Sys)
    requires Inv(s)
    ensures FilesOk(s)
  {
  }

  /** The header fields that createHeapFile stores. */
  function DraftHeader(hdr: Image, p: int): Image
    requires IsInt(p)
  {
    PutInt(PutInt(PutInt(PutInt(hdr, REC_CNT, 0), PAGE_CNT, 1), LAST_PAGE, p), FIRST_PAGE, p)
  }

  lemma DraftHeaderOk(hdr: Image, p: int)
    requires IsInt(p)
    ensures HeaderOk(DraftHeader(hdr, p), [p], 0)
  {
    hide GetInt, PutInt;
    var a := PutInt(hdr, REC_CNT, 0);
    var b := PutInt(a, PAGE_CNT, 1);
    var c := PutInt(b, LAST_PAGE, p);
    PutIntFrame(a, PAGE_CNT, 1, REC_CNT);
    PutIntFrame(b, LAST_PAGE, p, REC_CNT);
    PutIntFrame(c, FIRST_PAGE, p, REC_CNT);
    PutIntFrame(b, LAST_PAGE, p, PAGE_CNT);
    PutIntFrame(c, FIRST_PAGE, p, PAGE_CNT);
    PutIntFrame(c, FIRST_PAGE, p, LAST_PAGE);
  }

  /** A header page and an empty page make a heap file without records. */
  lemma DraftHeap(m: Contents, f: FileId, h: int, p: int, hdr: Image)
    requires 0 <= f && 1 <= h && 1 <= p && IsInt(p) && h != p && Key(f, h) in m && Key(f, p) in m
    requires m[Key(f, h)] == DraftHeader(hdr, p) && WellFormed(m[Key(f, p)]) && ViewOf(m[Key(f, p)]) == Fresh(p)
    ensures HeapOk(m, f, h, [p]) && Views(m, f, [p]) == [Fresh(p)]
  {
    hide GetInt, GetShort, PutInt, DraftHeader, Tidy, ViewOf;
    assert Shows(m, f, p, Fresh(p));
    ChainOf(m, f, [p], [Fresh(p)]);
    DraftHeaderOk(hdr, p);
    assert UsedSet(Fresh(p).slots) == {};
    assert Total([Fresh(p)]) == 0;
  }

  /** A page as init leaves it, the rest zero. */
  function BlankPage(p: int): Image
    requires IsInt(p)
  {
    PutShort(PutInt(PutInt(ZeroPage(), NEXT_PAGE, -1), CUR_PAGE, p), FREE_SPACE, CAPACITY)
  }

  lemma BlankShown(p: int)
    requires IsInt(p)
    ensures WellFormed(BlankPage(p)) && ViewOf(BlankPage(p)) == Fresh(p)
  {
    hide GetInt, PutInt, PutShort;
    var a := PutInt(ZeroPage(), NEXT_PAGE, -1);
    LinkStore(ZeroPage(), NEXT_PAGE, -1);
    LinkStore(a, CUR_PAGE, p);
    FreeSpaceStore(PutInt(a, CUR_PAGE, p), CAPACITY);
  }

  /** A heap file with header page 1 and the empty data page 2. */
  function EmptyHeap(hdr: Image): Contents { imap[Key(0, 1) := hdr, Key(0, 2) := BlankPage(2)] }

  /**
   A record that is not there is deleted from a new file: the count becomes -1 and
   the file is out of order.
   */
  lemma DeleteCountExample(x: Image)
    ensures var hdr := DraftHeader(x, 2);
            && HeapShows(EmptyHeap(hdr), 0, 1, [2], [Fresh(2)]) && GetInt(hdr, REC_CNT) == 0
            && !HeapOk(EmptyHeap(PutInt(hdr, REC_CNT, -1)), 0, 1, [2])
  {
    hide BlankPage, DraftHeader, PutInt, GetInt, ViewOf, WellFormed;
    var m := EmptyHeap(DraftHeader(x, 2));
    BlankShown(2);
    DraftHeap(m, 0, 1, 2, x);
    DraftHeaderOk(x, 2);
    DeleteCountExact(m, 0, 1, [2], 0, 0, BlankPage(2));
    assert m[Key(0, 2) := BlankPage(2)] == m;
    var hdr: Image := PutInt(m[Key(0, 1)], REC_CNT, -1);
    assert EmptyHeap(hdr) == m[Key(0, 1) := hdr];
  }

  /** The two pages of the draft are those of a file open on its only page. */
  function OpenDraft(w: Session): Session {
    w.(chain := [w.extra], page := w.extra, extra := NO_PAGE, curDirty := true)
  }

  lemma DraftOpened(s: Sys, w: Session)
    requires Pinned(s, w) && w.chain == [] && w.page == NO_PAGE && w.extra != NO_PAGE
    ensures Pinned(s, OpenDraft(w))
  {
    hide Inv, Sound, PinCount;
    assert forall k :: OpenDraft(w).Mine(k) == w.Mine(k);
    assert forall k :: OpenDraft(w).Declares(k) == w.Declares(k);
  }

  /** A new file has two pages after the first allocation, so there is room for the second. */
  lemma RoomForData(s: Sys, f: FileId)
    requires Inv(s) && Sound(s) && NewFile(s, f) && Extendable(s.files[f])
    ensures var t := AllocPage(s, f).0.sys; f in t.files && f in t.free && Extendable(t.files[f])
  {
    hide FrameOk, EntryOk, OwedOk, AllocBuf, FreeList;
    GrowKeeps(s, f);
    AllocBufKeeps(Grow(s, f).0);
    AllocKeepsInv(s, f);
    PagesCounted(AllocPage(s, f).0.sys, f);
  }

  lemma PagesCounted(s: Sys, f: FileId)
    requires Inv(s) && f in s.files
    ensures f in s.free && 1 <= |s.files[f]| && NumPages(s.files[f][0]) == |s.files[f]|
  {
    assert FreeList(s.files[f], s.free[f]);
  }

  // ---------- createHeapFile ----------

  /** The draft of the file is pinned, and whatever was there before is as it was. */
  ghost predicate Drafted(mgr: BufMgr, w: Session, hdrPage: array<Byte>, page: array<Byte>)
    reads mgr, mgr.Repr
  {
    && mgr.Valid() && Pinned(mgr.State(), w) && w == Draft(w.file, 1, w.extra, w.base)
    && 2 <= w.extra && IsInt(w.extra)
    && mgr.Holds(w.HKey(), hdrPage) && mgr.Holds(w.XKey(), page)
    && Beyond(w, Meaning(mgr.State())) && Elsewhere(w.base, mgr.State(), w.file)
  }

  /** Only the two pages of the draft are new. */
  ghost predicate Beyond(w: Session, m: Contents)
    requires Sound(w.base)
  {
    && w.HKey() !in Meaning(w.base) && w.XKey() !in Meaning(w.base)
    && forall k :: k in Meaning(w.base) ==> k in m && m[k] == Meaning(w.base)[k]
  }

  /** Two pages can be brought in beside those that are pinned exactly when two frames are spare. */
  lemma SpareTwo(s: Sys, k: Key)
    requires Sound(s) && k !in PinnedKeys(s)
    ensures Spare(s, 1) && !NoRoom(s, {k}) <==> Spare(s, 2)
  {
    hide PinnedKeys;
    assert |PinnedKeys(s) + {k}| == |PinnedKeys(s)| + 1;
  }

  /** After a failure the header page is still pinned if it got a frame. */
  ghost predicate Leaves(s: Sys, t: Sys, h: Key) {
    Sound(s) && Sound(t) && forall k :: PinCount(t, k) == PinCount(s, k) + if k == h && Spare(s, 1) then 1 else 0
  }

  lemma DraftLeaves(s: Sys, w: Session)
    requires Pinned(s, w) && w == Draft(w.file, 1, NO_PAGE, w.base) && Spare(w.base, 1)
    ensures Leaves(w.base, s, Key(w.file, 1))
  {
    hide Inv, Sound, PinCount, Spare;
    assert forall k :: PinCount(s, k) == PinCount(w.base, k) + w.Mine(k);
  }

  method AllocBoth(mgr: BufMgr, file: FileId) returns (status: Status, hdrPage: array?<Byte>, newPageNo: int,
      newPage: array?<Byte>)
    requires mgr.Valid() && Inv(mgr.State()) && Sound(mgr.State()) && 0 <= file && NewFile(mgr.State(), file)
    modifies mgr.Repr
    ensures mgr.Valid() && fresh(mgr.Repr - old(mgr.Repr)) && Inv(mgr.State()) && Sound(mgr.State())
    ensures status == if Spare(old(mgr.State()), 2) then OK else BUFFEREXCEEDED
    ensures file in mgr.disk.files && |mgr.disk.files[file]| <= 3
    ensures status != OK ==> Leaves(old(mgr.State()), mgr.State(), Key(file, 1))
    ensures Elsewhere(old(mgr.State()), mgr.State(), file)
    ensures status == OK ==>
      hdrPage != null && newPage != null && Drafted(mgr, Draft(file, 1, newPageNo, old(mgr.State())), hdrPage, newPage)
  {
    hide Inv, Meaning, PinsOk, BufMgr.Valid, BufferPool.AllocPage, PinCount, PinnedKeys, Spare, NoRoom, Elsewhere;
    ghost var s := mgr.State();
    PagesCounted(s, file);
    FirstIsOne(s, file);
    RoomForData(s, file);
    AllocHeader(s, file);
    SpareTwo(s, Key(file, 1));
    newPageNo, newPage := 0, null;
    var hdrPageNo;
    status, hdrPageNo, hdrPage := mgr.AllocPage(file, null);
    if status != OK { return; }
    mgr.Facts();
    ghost var t, w := mgr.State(), Draft(file, 1, NO_PAGE, s);
    assert w.Held() == {w.HKey()};
    AllocData(t, w);
    status, newPageNo, newPage := mgr.AllocPage(file, hdrPage);
    ElsewhereTrans(s, t, mgr.State(), file);
    if status != OK {
      DraftLeaves(mgr.State(), w);
      return;
    }
    mgr.Facts();
    MayLeave(mgr.State(), w.(extra := newPageNo), w.HKey(), true);
    StillHolds(mgr, t, w.HKey(), hdrPage);
  }

  lemma DraftFrames(mgr: BufMgr, w: Session, hdrPage: array<Byte>, page: array<Byte>)
    requires Drafted(mgr, w, hdrPage, page)
    ensures hdrPage != page && hdrPage.Length == page.Length == PAGESIZE && {mgr, hdrPage, page} <= mgr.Repr
    ensures w.HKey() in Meaning(mgr.State()) && Meaning(mgr.State())[w.HKey()] == hdrPage[..]
    ensures w.XKey() in Meaning(mgr.State()) && Meaning(mgr.State())[w.XKey()] == page[..]
  {
    hide Inv, BufMgr.Valid, PinsOk, Elsewhere;
    var s := mgr.State();
    mgr.Facts();
    IndexLive(s);
    DistinctFrames(s, w.HKey(), w.XKey());
    mgr.FramesApart();
  }

  /** The new data page is initialised. */
  method InitData(mgr: BufMgr, file: FileId, ghost w: Session, ghost hdrPage: array<Byte>, newPageNo: int,
      page: array<Byte>)
    requires Drafted(mgr, w, hdrPage, page) && file == w.file && newPageNo == w.extra
    modifies page, mgr`mem, mgr`owed
    ensures Drafted(mgr, w, hdrPage, page) && page.Length == PAGESIZE
    ensures WellFormed(page[..]) && ViewOf(page[..]) == Fresh(newPageNo)
  {
    hide Inv, Meaning, PinsOk, BufMgr.Valid, WellFormed, ViewOf, Write, Elsewhere;
    DraftFrames(mgr, w, hdrPage, page);
    ghost var s := mgr.State();
    mgr.InitPage(Key(file, newPageNo), page, newPageNo);
    StoreKeeps(s, w, w.XKey(), page[..]);
    ElsewhereTrans(w.base, s, mgr.State(), file);
  }

  /** One field of the header page is stored. */
  method StoreHeader(mgr: BufMgr, file: FileId, ghost w: Session, hdrPage: array<Byte>, ghost page: array<Byte>,
      o: int, x: int)
    requires Drafted(mgr, w, hdrPage, page) && file == w.file && 0 <= o <= PAGESIZE - 4 && IsInt(x)
    modifies hdrPage, mgr`mem, mgr`owed
    ensures Drafted(mgr, w, hdrPage, page) && hdrPage.Length == PAGESIZE && page != hdrPage
    ensures hdrPage[..] == PutInt(old(hdrPage[..]), o, x)
  {
    hide Inv, Meaning, PinsOk, BufMgr.Valid, PutInt, Write, Elsewhere;
    DraftFrames(mgr, w, hdrPage, page);
    ghost var s := mgr.State();
    mgr.StoreField(Key(file, 1), hdrPage, o, x);
    StoreKeeps(s, w, w.HKey(), hdrPage[..]);
    ElsewhereTrans(w.base, s, mgr.State(), file);
  }

  /** Both pages are filled in: the file is a heap file without records. */
  method FillIn(mgr: BufMgr, file: FileId, ghost w: Session, hdrPage: array<Byte>, newPageNo: int, page: array<Byte>)
    requires Drafted(mgr, w, hdrPage, page) && file == w.file && newPageNo == w.extra
    modifies hdrPage, page, mgr`mem, mgr`owed
    ensures mgr.Valid() && SessionOk(mgr.State(), OpenDraft(w)) && Beyond(w, Meaning(mgr.State()))
    ensures Pages(mgr.State(), OpenDraft(w)) == [Fresh(newPageNo)] && Elsewhere(w.base, mgr.State(), file)
  {
    hide Elsewhere, Inv, Meaning, PinsOk, BufMgr.Valid, PutInt, WellFormed, ViewOf;
    InitData(mgr, file, w, hdrPage, newPageNo, page);
    DraftFrames(mgr, w, hdrPage, page);
    ghost var hdr := hdrPage[..];
    StoreHeader(mgr, file, w, hdrPage, page, REC_CNT, 0);
    StoreHeader(mgr, file, w, hdrPage, page, PAGE_CNT, 1);
    StoreHeader(mgr, file, w, hdrPage, page, LAST_PAGE, newPageNo);
    StoreHeader(mgr, file, w, hdrPage, page, FIRST_PAGE, newPageNo);
    DraftFrames(mgr, w, hdrPage, page);
    DraftHeap(Meaning(mgr.State()), file, 1, newPageNo, hdr);
    DraftOpened(mgr.State(), w);
  }

  /** The unpins and the flush of a finished draft, as one step of the pool. */
  lemma ReleaseKeeps(s: Sys, w: Session)
    requires SessionOk(s, w) && w.page != NO_PAGE && w.extra == NO_PAGE && w.hdrDirty && w.curDirty
    requires Unpinned(w.base, w.file)
    ensures var (t, one) := UnPinPage(s, w.CKey(), true);
            one == OK && Sound(t) && w.HKey() in t.index &&
            var (u, two) := UnPinPage(t, w.HKey(), true);
            two == OK && Sound(u) &&
            var (v, three) := FlushFile(u, w.file);
            && three == OK && Inv(v) && Sound(v) && Meaning(v) == Meaning(s) && SameLengths(s.files, v.files)
            && |v.frames| == |w.base.frames|
            && (forall k :: PinCount(v, k) == PinCount(w.base, k))
            && OnDisk(v, w.file) && Elsewhere(s, v, w.file)
  {
    hide Inv, HeapOk, UnPinPage, FlushFile, FreeList, Tidy, FlushFrom, Elsewhere;
    LeaveKeeps(s, w);
    var t := UnPinPage(s, w.CKey(), true).0;
    CloseKeeps(t, w.(page := NO_PAGE));
    MayLeave(t, w.(page := NO_PAGE), w.HKey(), true);
    var u := UnPinPage(t, w.HKey(), true).0;
    NotNull(s, w);
    Flushing(u, w.file);
    FlushElsewhere(u, w.file);
    ElsewhereTrans(s, t, u, w.file);
    ElsewhereTrans(s, u, FlushFile(u, w.file).0, w.file);
  }

  /**
   createHeapFile on a file just created: it becomes a heap file with one empty
   page, on disk, no other page changes and no pin is left.
   */
  method CreateHeapFile(mgr: BufMgr, file: FileId) returns (status: Status, ghost p: int)
    requires mgr.Valid() && Inv(mgr.State()) && Sound(mgr.State()) && 0 <= file && NewFile(mgr.State(), file)
    modifies mgr.Repr
    ensures mgr.Valid() && fresh(mgr.Repr - old(mgr.Repr)) && Inv(mgr.State()) && Sound(mgr.State())
    ensures status == if Spare(old(mgr.State()), 2) then OK else BUFFEREXCEEDED
    ensures file in mgr.disk.files && |mgr.disk.files[file]| <= 3
    ensures status != OK ==> Leaves(old(mgr.State()), mgr.State(), Key(file, 1))
    ensures status == OK ==>
      var s, m := mgr.State(), Meaning(mgr.State());
      && HeapOk(m, file, 1, [p]) && Views(m, file, [p]) == [Fresh(p)]
      && (forall k :: k in old(Meaning(mgr.State())) ==> k in m && m[k] == old(Meaning(mgr.State()))[k])
      && (forall k :: PinCount(s, k) == old(PinCount(mgr.State(), k)))
      && OnDisk(s, file)
    ensures Elsewhere(old(mgr.State()), mgr.State(), file)
  {
    hide Inv, Meaning, PinsOk, BufMgr.Valid, BufferPool.UnPinPage, BufferPool.FlushFile, HeapOk, Views, IsLive;
    hide PinCount, Drafted, Spare, Elsewhere;
    ghost var base := mgr.State();
    var hdrPage, newPageNo, newPage;
    status, hdrPage, newPageNo, newPage := AllocBoth(mgr, file);
    p := newPageNo;
    if status != OK { return; }
    ghost var w := Draft(file, 1, newPageNo, base);
    DraftFrames(mgr, w, hdrPage, newPage);
    FillIn(mgr, file, w, hdrPage, newPageNo, newPage);
    NewUnpinned(base, base, file);
    ghost var s := mgr.State();
    ReleaseKeeps(s, OpenDraft(w));
    status := Release(mgr, file, OpenDraft(w), newPageNo);
    ElsewhereTrans(base, s, mgr.State(), file);
  }

  method Release(mgr: BufMgr, file: FileId, ghost w: Session, newPageNo: int) returns (status: Status)
    requires mgr.Valid() && SessionOk(mgr.State(), w) && file == w.file && w.header == 1 &&
      w.page == newPageNo != NO_PAGE && w.extra == NO_PAGE
    requires w.hdrDirty && w.curDirty && Unpinned(w.base, w.file)
    modifies mgr.Repr
    ensures mgr.Valid() && fresh(mgr.Repr - old(mgr.Repr)) && status == OK && Inv(mgr.State()) && Sound(mgr.State())
    ensures var s := mgr.State();
            && Meaning(s) == old(Meaning(mgr.State())) && SameLengths(old(mgr.disk.files), s.files)
            && |s.frames| == |w.base.frames| && (forall k :: PinCount(s, k) == PinCount(w.base, k))
            && OnDisk(s, file) && Elsewhere(old(mgr.State()), s, file)
  {
    hide Inv, Meaning, PinsOk, BufMgr.Valid, BufferPool.UnPinPage, BufferPool.FlushFile, HeapOk, IsLive, PinCount;
    hide Elsewhere;
    ghost var s := mgr.State();
    mgr.Facts();
    MayLeave(s, w, w.CKey(), true);
    InFrame(s, w.CKey());
    LeaveKeeps(s, w);
    ReleaseKeeps(s, w);
    status := mgr.UnPinPage(Key(file, newPageNo), true);
    InFrame(mgr.State(), w.HKey());
    mgr.Facts();
    status := mgr.UnPinPage(Key(file, 1), true);
    status := mgr.FlushFile(file);
  }
}
