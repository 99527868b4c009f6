/**
 What an open heap file or scan holds of the buffer pool: one pin on the header
 page, one on the current data page if it has one, and the promise to unpin as
 dirty whatever it has changed.
 */
module HeapSession {
  import opened Statuses
  import opened Bytes
  import opened Disk
  import opened BufHash
  import opened BufferPool
  import opened Transparency
  import opened Pins
  import opened Bystanders
  import opened PageView
  import opened Page
  import opened HeapSpec
  import opened Purge
  import opened HeapLayout

  const NO_PAGE: int := 0

  /**
   page is the current data page and extra a page just allocated for the file,
   NO_PAGE when there is none; base is the pool before the file was opened.
   */
  datatype Session = Session(
    file: FileId, header: int, chain: seq<int>, page: int, extra: int, hdrDirty: bool, curDirty: bool, base: Sys)
  {
    function HKey(): Key { Key(file, header) }

    function CKey(): Key { Key(file, page) }

    function XKey(): Key { Key(file, extra) }

    /** The pins of the session on a page. */
    function Mine(k: Key): nat {
      (if k == HKey() then 1 else 0) + (if page != NO_PAGE && k == CKey() then 1 else 0)
      + (if extra != NO_PAGE && k == XKey() then 1 else 0)
    }

    /** The pages the session pins. */
    function Held(): set<Key> {
      {HKey()} + (if page != NO_PAGE then {CKey()} else {}) + (if extra != NO_PAGE then {XKey()} else {})
    }

    /** The session will declare the page changed when it unpins it. */
    predicate Declares(k: Key) {
      || (k == HKey() && hdrDirty) || (page != NO_PAGE && k == CKey() && curDirty)
      || (extra != NO_PAGE && k == XKey())
    }
  }

  ghost predicate PinsOk(s: Sys, w: Session)
    requires Sound(s) && Sound(w.base)
  {
    && |s.frames| == |w.base.frames|
    && (forall k :: PinCount(s, k) == PinCount(w.base, k) + w.Mine(k))
    && (forall k :: k in s.owed ==> PinCount(w.base, k) > 0 || w.Declares(k))
  }

  /** Every page lies at an address the hash function accepts, and the current page is one of the chain. */
  ghost predicate Placed(w: Session) {
    && 0 <= w.file && 1 <= w.header && w.header !in w.chain && NO_PAGE !in w.chain
    && (forall j :: 0 <= j < |w.chain| ==> 1 <= w.chain[j])
    && (w.page == NO_PAGE || w.page in w.chain)
    && (w.extra == NO_PAGE || (1 <= w.extra && w.extra !in w.chain && w.extra != w.header))
  }

  ghost predicate Pinned(s: Sys, w: Session) {
    Inv(s) && Sound(s) && Sound(w.base) && Placed(w) && PinsOk(s, w)
  }

  ghost predicate SessionOk(s: Sys, w: Session) {
    Pinned(s, w) && HeapOk(Meaning(s), w.file, w.header, w.chain)
  }

  ghost function Pages(s: Sys, w: Session): seq<View>
    requires SessionOk(s, w)
  {
    Views(Meaning(s), w.file, w.chain)
  }

  lemma HeldIff(w: Session)
    ensures forall k :: k in w.Held() <==> w.Mine(k) > 0
  {
  }

  /** What is pinned in all: the pages of others and those of the session. */
  lemma SessionPins(s: Sys, w: Session)
    requires Pinned(s, w)
    ensures PinnedKeys(s) == PinnedKeys(w.base) + w.Held()
    ensures |PinnedKeys(w.base) + w.Held()| <= |w.base.frames|
  {
    hide Inv, Sound, Placed, PinCount, PinnedKeys;
    FullPins(s);
    PinnedIff(s);
    PinnedIff(w.base);
    HeldIff(w);
    forall k
      ensures k in PinnedKeys(s) <==> k in PinnedKeys(w.base) + w.Held()
    {
      assert PinCount(s, k) == PinCount(w.base, k) + w.Mine(k);
    }
  }

  /** The pins leave no room exactly when every frame of the pool is valid and pinned. */
  lemma NoRoomMeans(s: Sys, w: Session)
    requires Pinned(s, w)
    ensures NoRoom(w.base, w.Held()) <==> forall i :: 0 <= i < |s.frames| ==> !Replaceable(s.frames[i])
  {
    hide Inv, Sound, Placed, PinnedKeys, PinCount, Replaceable;
    SessionPins(s, w);
    FullPins(s);
  }

  /** A session that alone holds its data page can always read another one instead. */
  lemma NeverRefused(s: Sys, w: Session, k: Key)
    requires Pinned(s, w) && w.page != NO_PAGE && w.extra == NO_PAGE && PinCount(w.base, w.CKey()) == 0
    ensures !NoRoom(w.base, {w.HKey()}) && !Refused(w.base, {w.HKey()}, k)
  {
    hide Inv, Sound;
    SessionPins(s, w);
    assert w.Held() == {w.HKey()} + {w.CKey()};
    assert PinnedKeys(w.base) + w.Held() == PinnedKeys(w.base) + {w.HKey()} + {w.CKey()};
    RoomInPlace(w.base, {w.HKey()}, w.CKey());
  }

  /** Pages that stay in the pool stay in their frames. */
  ghost predicate SameFrames(s: Sys, t: Sys) {
    forall k :: k in s.index && k in t.index ==> t.index[k] == s.index[k]
  }

  lemma ChainLive(s: Sys, w: Session, p: int)
    requires SessionOk(s, w) && p in w.chain
    ensures IsLive(s, Key(w.file, p)) && Key(w.file, p) != w.HKey() && Hashable(Key(w.file, p))
  {
    hide Inv, Sound, Tidy, FreeList, WellFormed, ViewOf;
    var j :| 0 <= j < |w.chain| && w.chain[j] == p;
    assert PageOk(Meaning(s), w.file, w.chain[j]);
  }

  /** readPage of a page of the chain, none being pinned. */
  lemma PinKeeps(s: Sys, w: Session, p: int)
    requires SessionOk(s, w) && w.page == NO_PAGE && p in w.chain
    ensures IsLive(s, Key(w.file, p))
    ensures var g := ReadPage(s, Key(w.file, p));
            && g.status == (if Refused(w.base, w.Held(), Key(w.file, p)) then BUFFEREXCEEDED else OK)
            && SessionOk(g.sys, if g.status == OK then w.(page := p, curDirty := false) else w)
            && Meaning(g.sys) == Meaning(s) && SameFrames(s, g.sys) && SameLengths(s.files, g.sys.files) &&
              g.sys.free == s.free
            && Aside(s, g.sys, w.file, w.base)
            && (g.status == OK ==> Key(w.file, p) in g.sys.index && g.frame == g.sys.index[Key(w.file, p)])
  {
    hide Inv, Sound, HeapOk, Meaning, PinCount, ReadPage, FreeList, PinnedKeys, Full, Elsewhere, Kept;
    ChainLive(s, w, p);
    ReadElsewhere(s, Key(w.file, p));
    ReadKeeps(s, Key(w.file, p));
    KeptBy(s, ReadPage(s, Key(w.file, p)).sys, w.base);
    SessionPins(s, w);
    ReadRefused(s, Key(w.file, p));
  }

  lemma NotNull(s: Sys, w: Session)
    requires SessionOk(s, w)
    ensures w.file != NULL_FILE
  {
    hide FreeList, FrameOk, EntryOk, OwedOk, PinsOk, PageOk, HeaderOk;
    assert IsLive(s, w.HKey());
  }

  lemma FlagIdle(s: Sys, w: Session, b: bool)
    requires SessionOk(s, w) && w.page == NO_PAGE
    ensures SessionOk(s, w.(curDirty := b))
  {
    hide Inv, Sound, HeapOk, PinCount;
  }

  lemma MayLeave(s: Sys, w: Session, k: Key, dirty: bool)
    requires Pinned(s, w) && w.Mine(k) > 0 && (w.Declares(k) ==> dirty)
    ensures MayUnPin(s, k, dirty) && PinCount(s, k) > 0 && k in s.index
  {
    hide Inv, Sound, HeapOk, Meaning;
  }

  /** unPinPage of the current page, as dirty if it was declared so. */
  lemma LeavePinned(s: Sys, w: Session, dirty: bool)
    requires Pinned(s, w) && w.page != NO_PAGE && (w.curDirty ==> dirty)
    ensures var (t, status) := UnPinPage(s, w.CKey(), dirty);
            && status == OK && Pinned(t, w.(page := NO_PAGE))
            && Meaning(t) == Meaning(s) && SameFrames(s, t) && t.files == s.files && Aside(s, t, w.file, w.base)
  {
    hide Inv, Sound, Meaning, FreeList, Elsewhere, Kept;
    MayLeave(s, w, w.CKey(), dirty);
    UnPinElsewhere(s, w.CKey(), dirty);
    UnPinKeeps(s, w.CKey(), dirty);
    KeptBy(s, UnPinPage(s, w.CKey(), dirty).0, w.base);
  }

  lemma LeaveKeeps(s: Sys, w: Session)
    requires SessionOk(s, w) && w.page != NO_PAGE
    ensures var (t, status) := UnPinPage(s, w.CKey(), w.curDirty);
            && status == OK && SessionOk(t, w.(page := NO_PAGE))
            && Meaning(t) == Meaning(s) && SameFrames(s, t) && t.files == s.files && Aside(s, t, w.file, w.base)
  {
    hide Inv, Sound, HeapOk, Meaning, PinsOk, UnPinPage, Elsewhere, Kept;
    LeavePinned(s, w, w.curDirty);
  }

  /** The destructor of HeapFile: the pins are what they were before the file was opened. */
  lemma CloseKeeps(s: Sys, w: Session)
    requires SessionOk(s, w) && w.page == NO_PAGE && w.extra == NO_PAGE
    ensures var (t, status) := UnPinPage(s, w.HKey(), w.hdrDirty);
            && status == OK && Inv(t) && Sound(t) && Meaning(t) == Meaning(s) && t.files == s.files
            && |t.frames| == |w.base.frames| && (forall k :: PinCount(t, k) == PinCount(w.base, k))
            && (forall k :: k in t.owed ==> PinCount(w.base, k) > 0) && Aside(s, t, w.file, w.base)
  {
    hide Inv, Sound, HeapOk, Meaning, FreeList, Elsewhere, Kept;
    MayLeave(s, w, w.HKey(), w.hdrDirty);
    UnPinElsewhere(s, w.HKey(), w.hdrDirty);
    MayLeave(s, w, w.HKey(), w.hdrDirty);
    UnPinKeeps(s, w.HKey(), w.hdrDirty);
    KeptBy(s, UnPinPage(s, w.HKey(), w.hdrDirty).0, w.base);
  }

  // ---------- changing pages ----------

  /** A store through a pointer of the session to a page it will declare changed. */
  lemma StoreKeeps(s: Sys, w: Session, k: Key, page: Image)
    requires Pinned(s, w) && w.Mine(k) > 0 && w.Declares(k)
    ensures k in s.index
    ensures var t := Write(s, k, page);
            && Pinned(t, w) && Meaning(t) == Meaning(s)[k := page] && t.index == s.index && t.files == s.files
            && Elsewhere(s, t, k.file)
  {
    hide Inv, Sound, Meaning, Elsewhere;
    WriteKeepsInv(s, k, page);
    WriteElsewhere(s, k, page);
  }

  lemma RaiseFlags(s: Sys, w: Session, hdr: bool, cur: bool)
    requires Pinned(s, w)
    ensures Pinned(s, w.(hdrDirty := w.hdrDirty || hdr, curDirty := w.curDirty || cur))
  {
    hide Inv, Sound, PinCount;
  }

  /** The heap file does not see a change to a page that is not its own. */
  lemma HeapFrame(m: Contents, n: Contents, f: FileId, h: int, chain: seq<int>)
    requires HeapOk(m, f, h, chain)
    requires Key(f, h) in n && n[Key(f, h)] == m[Key(f, h)]
    requires forall j :: 0 <= j < |chain| ==> Key(f, chain[j]) in n && n[Key(f, chain[j])] == m[Key(f, chain[j])]
    ensures HeapOk(n, f, h, chain) && Views(n, f, chain) == Views(m, f, chain)
  {
    hide Tidy, ViewOf, GetShort, GetInt;
    forall i | 0 <= i < |chain|
      ensures PageOk(n, f, chain[i]) && ViewAt(n, f, chain[i]) == ViewAt(m, f, chain[i])
    {
      assert PageOk(m, f, chain[i]);
    }
    assert Chained(n, f, chain);
    assert Views(n, f, chain) == Views(m, f, chain);
  }

  lemma CountStored(hdr: Image, chain: seq<int>, count: int, x: int)
    requires chain != [] && HeaderOk(hdr, chain, count) && IsInt(x)
    ensures HeaderOk(PutInt(hdr, REC_CNT, x), chain, x)
  {
    hide GetInt, PutInt;
    PutIntFrame(hdr, REC_CNT, x, FIRST_PAGE);
    PutIntFrame(hdr, REC_CNT, x, LAST_PAGE);
    PutIntFrame(hdr, REC_CNT, x, PAGE_CNT);
  }

  /** One data page and the record count change together. */
  lemma HeapUpdate(m: Contents, f: FileId, h: int, chain: seq<int>, j: nat, page: Image, count: int)
    requires HeapOk(m, f, h, chain) && j < |chain| && IsInt(count)
    requires WellFormed(page) && ViewOf(page).cur == chain[j] && ViewOf(page).next == LinkTo(chain, j + 1)
    requires count == Total(Views(m, f, chain)[j := ViewOf(page)])
    ensures var n := m[Key(f, chain[j]) := page][Key(f, h) := PutInt(m[Key(f, h)], REC_CNT, count)];
            HeapOk(n, f, h, chain) && Views(n, f, chain) == Views(m, f, chain)[j := ViewOf(page)]
  {
    hide WellFormed, ViewOf, GetInt, PutInt, HeaderOk, Chained;
    assert chain[j] in chain;
    SetPage(m, f, chain, j, page);
    SetHeader(m[Key(f, chain[j]) := page], f, h, chain, PutInt(m[Key(f, h)], REC_CNT, count));
    NonEmpty(m, f, chain);
    CountStored(m[Key(f, h)], chain, Total(Views(m, f, chain)), count);
  }

  lemma NonEmpty(m: Contents, f: FileId, chain: seq<int>)
    requires Chained(m, f, chain)
    ensures chain != []
  {
  }

  /** The current page shows the view of its place in the chain. */
  lemma CurrentPage(s: Sys, w: Session, j: nat)
    requires SessionOk(s, w) && j < |w.chain| && w.page == w.chain[j]
    ensures w.page != NO_PAGE && w.CKey() in s.index && w.HKey() in s.index
    ensures w.CKey() in Meaning(s) && Meaning(s)[w.CKey()] == s.mem[s.index[w.CKey()]]
    ensures w.HKey() in Meaning(s) && Meaning(s)[w.HKey()] == s.mem[s.index[w.HKey()]]
    ensures var page := Meaning(s)[w.CKey()];
            && WellFormed(page) && ViewOf(page) == Pages(s, w)[j] && |Pages(s, w)| == |w.chain|
            && ViewOf(page).cur == w.chain[j] && ViewOf(page).next == LinkTo(w.chain, j + 1)
  {
    hide Inv, Tidy, ViewOf, GetShort, GetInt, FreeList;
    assert w.chain[j] in w.chain;
    MayLeave(s, w, w.CKey(), true);
    MayLeave(s, w, w.HKey(), true);
    assert PageOk(Meaning(s), w.file, w.chain[j]);
    assert ViewAt(Meaning(s), w.file, w.chain[j]) == Pages(s, w)[j];
  }

  lemma HeaderShown(s: Sys, w: Session)
    requires SessionOk(s, w)
    ensures w.HKey() in s.index && w.HKey() in Meaning(s) && Meaning(s)[w.HKey()] == s.mem[s.index[w.HKey()]]
    ensures w.chain != [] && HeaderOk(Meaning(s)[w.HKey()], w.chain, Total(Pages(s, w)))
  {
    hide Inv, WellFormed, ViewOf, GetInt, FreeList, PageOk, ViewAt;
    MayLeave(s, w, w.HKey(), true);
  }

  lemma HeaderRange(s: Sys, w: Session)
    requires SessionOk(s, w)
    ensures w.HKey() in Meaning(s) && IsInt(GetInt(Meaning(s)[w.HKey()], REC_CNT) - 1)
  {
    hide Inv, PageOk, ViewAt, PinsOk;
  }

  /** The two stores that change the current page and the record count. */
  function Stores(s: Sys, w: Session, page: Image, hdr: Image): Sys
    requires Sound(s) && w.CKey() in s.index && w.HKey() in s.index
  {
    Write(Write(s, w.CKey(), page), w.HKey(), hdr)
  }

  lemma UpdateKeeps(s: Sys, w: Session, j: nat, page: Image, count: int)
    requires SessionOk(s, w) && j < |w.chain| && w.page == w.chain[j] && IsInt(count)
    requires WellFormed(page) && ViewOf(page).cur == w.chain[j] && ViewOf(page).next == LinkTo(w.chain, j + 1)
    requires count == Total(Pages(s, w)[j := ViewOf(page)])
    ensures w.CKey() in s.index && w.HKey() in s.index && w.HKey() in Meaning(s)
    ensures var t := Stores(s, w, page, PutInt(Meaning(s)[w.HKey()], REC_CNT, count));
            var w' := w.(hdrDirty := true, curDirty := true);
            && SessionOk(t, w') && Pages(t, w') == Pages(s, w)[j := ViewOf(page)] && t.index == s.index
            && Elsewhere(s, t, w.file)
  {
    hide Inv, Meaning, WellFormed, ViewOf, GetInt, PutInt, FreeList, PinsOk, HeapOk, Write, Elsewhere;
    HeaderInHeap(s, w);
    assert w.chain[j] in w.chain;
    var w' := w.(hdrDirty := true, curDirty := true);
    RaiseFlags(s, w, true, true);
    StoreKeeps(s, w', w.CKey(), page);
    StoreKeeps(Write(s, w.CKey(), page), w', w.HKey(), PutInt(Meaning(s)[w.HKey()], REC_CNT, count));
    HeapUpdate(Meaning(s), w.file, w.header, w.chain, j, page, count);
    var hdr := PutInt(Meaning(s)[w.HKey()], REC_CNT, count);
    ElsewhereTrans(s, Write(s, w.CKey(), page), Stores(s, w, page, hdr), w.file);
  }

  lemma HeaderInHeap(s: Sys, w: Session)
    requires SessionOk(s, w)
    ensures w.HKey() in Meaning(s)
  {
  }

  /** HeapFileScan::deleteRecord on a live record: the page loses it and the count follows. */
  lemma DeleteKeepsSession(s: Sys, w: Session, j: nat, slot: nat, page: Image)
    requires SessionOk(s, w) && j < |w.chain| && w.page == w.chain[j]
    requires PageView.Live(Pages(s, w)[j], slot)
    requires WellFormed(page) && ViewOf(page) == Delete(Pages(s, w)[j], slot)
    ensures w.CKey() in s.index && w.HKey() in s.index && w.HKey() in Meaning(s)
    ensures IsInt(GetInt(Meaning(s)[w.HKey()], REC_CNT) - 1)
    ensures var hdr := Meaning(s)[w.HKey()];
            var t := Stores(s, w, page, PutInt(hdr, REC_CNT, GetInt(hdr, REC_CNT) - 1));
            var w' := w.(hdrDirty := true, curDirty := true);
            && SessionOk(t, w') && Pages(t, w') == DeleteAt(Pages(s, w), Pos(j, slot)) && t.index == s.index
            && Elsewhere(s, t, w.file)
  {
    hide Inv, Meaning, ViewOf, GetInt, GetShort, PutInt, FreeList, PinsOk, HeapOk, Write, Delete, Total, Tidy;
    hide Elsewhere;
    CurrentPage(s, w, j);
    HeaderShown(s, w);
    UsedAfterDelete(Pages(s, w)[j], slot);
    TotalUpdate(Pages(s, w), j, ViewOf(page));
    var count := Total(Pages(s, w)[j := ViewOf(page)]);
    DeleteLinks(Pages(s, w)[j], slot);
    UpdateKeeps(s, w, j, page, count);
  }

  lemma DeleteLinks(v: View, slot: nat)
    requires InBounds(|v.data|, v.slots) && PageView.Live(v, slot)
    ensures Delete(v, slot).next == v.next && Delete(v, slot).cur == v.cur
  {
  }

  /**
   HeapFileScan::deleteRecord counts a record out whether or not the page had it:
   the file is in order afterwards exactly when the record was there.
   */
  lemma DeleteCountExact(m: Contents, f: FileId, h: int, chain: seq<int>, j: nat, slot: nat, page: Image)
    requires HeapOk(m, f, h, chain) && j < |chain| && WellFormed(page)
    requires var v := Views(m, f, chain)[j];
             if PageView.Live(v, slot) then ViewOf(page) == Delete(v, slot) else page == m[Key(f, chain[j])]
    ensures IsInt(GetInt(m[Key(f, h)], REC_CNT) - 1)
    ensures var hdr := PutInt(m[Key(f, h)], REC_CNT, GetInt(m[Key(f, h)], REC_CNT) - 1);
            var n := m[Key(f, chain[j]) := page][Key(f, h) := hdr];
            HeapOk(n, f, h, chain) <==> PageView.Live(Views(m, f, chain)[j], slot)
  {
    hide ViewOf, GetInt, GetShort, PutInt, Delete, Tidy, UsedSet;
    var vs := Views(m, f, chain);
    assert PageOk(m, f, chain[j]) && chain[j] in chain && vs[j].next == LinkTo(chain, j + 1);
    if PageView.Live(vs[j], slot) {
      UsedAfterDelete(vs[j], slot);
      DeleteLinks(vs[j], slot);
      TotalUpdate(vs, j, ViewOf(page));
      HeapUpdate(m, f, h, chain, j, page, Total(vs) - 1);
    } else {
      assert m[Key(f, chain[j]) := page] == m;
      SetHeader(m, f, h, chain, PutInt(m[Key(f, h)], REC_CNT, Total(vs) - 1));
    }
  }

  /** A record that fits goes on the current page and is counted. */
  lemma InsertKeepsSession(s: Sys, w: Session, j: nat, rec: seq<Byte>, page: Image)
    requires SessionOk(s, w) && j < |w.chain| && w.page == w.chain[j]
    requires WellFormed(page) && ViewOf(page) == Insert(Pages(s, w)[j], rec)
    requires IsInt(Total(Pages(s, w)) + 1)
    ensures w.CKey() in s.index && w.HKey() in s.index && w.HKey() in Meaning(s)
    ensures IsInt(GetInt(Meaning(s)[w.HKey()], REC_CNT) + 1)
    ensures var hdr := Meaning(s)[w.HKey()];
            var t := Stores(s, w, page, PutInt(hdr, REC_CNT, GetInt(hdr, REC_CNT) + 1));
            var w' := w.(hdrDirty := true, curDirty := true);
            && SessionOk(t, w') && Pages(t, w') == Pages(s, w)[j := ViewOf(page)] && t.index == s.index
            && Elsewhere(s, t, w.file)
  {
    hide Inv, Meaning, ViewOf, GetInt, GetShort, PutInt, FreeList, PinsOk, HeapOk, Write, Total, Tidy, SetSlot;
    hide Elsewhere;
    CurrentPage(s, w, j);
    HeaderShown(s, w);
    UsedAfterInsert(Pages(s, w)[j], rec);
    TotalUpdate(Pages(s, w), j, ViewOf(page));
    UpdateKeeps(s, w, j, page, Total(Pages(s, w)) + 1);
  }

  /** Opening the file pins its header page and nothing else. */
  lemma OpenKeeps(s: Sys, file: FileId, h: int, chain: seq<int>)
    requires Inv(s) && Sound(s) && HeapOk(Meaning(s), file, h, chain)
    ensures IsLive(s, Key(file, h))
    ensures var g := ReadPage(s, Key(file, h));
            && g.status == (if Refused(s, {}, Key(file, h)) then BUFFEREXCEEDED else OK)
            && Inv(g.sys) && Sound(g.sys) && Meaning(g.sys) == Meaning(s) && SameLengths(s.files, g.sys.files)
            && |g.sys.frames| == |s.frames| && Aside(s, g.sys, file, s)
            && (g.status == OK ==>
                  && Key(file, h) in g.sys.index && g.frame == g.sys.index[Key(file, h)]
                  && SessionOk(g.sys, Session(file, h, chain, NO_PAGE, NO_PAGE, false, false, s)))
            && (g.status != OK ==> forall k :: PinCount(g.sys, k) == PinCount(s, k))
  {
    hide FreeList, ReadPage, Tidy, ViewOf, GetShort, GetInt, FrameOk, EntryOk, LinkTo, PinnedKeys, Full, Elsewhere;
    hide Kept;
    ReadKeeps(s, Key(file, h));
    KeptBy(s, ReadPage(s, Key(file, h)).sys, s);
    ReadElsewhere(s, Key(file, h));
    ReadRefused(s, Key(file, h));
    FullPins(s);
    assert PinnedKeys(s) + {} == PinnedKeys(s);
    forall j | 0 <= j < |chain|
      ensures 1 <= chain[j]
    {
      assert PageOk(Meaning(s), file, chain[j]);
    }
    forall k | k in s.owed
      ensures PinCount(s, k) > 0
    {
      assert OwedOk(s, k);
    }
  }

  /** The header of a heap file is the first user page of its file. */
  lemma HeaderIsFirst(s: Sys, file: FileId, h: int, chain: seq<int>)
    requires Inv(s) && Sound(s) && HeapOk(Meaning(s), file, h, chain)
    ensures chain != [] && file in s.files && s.files[file] != [] && FirstPage(s.files[file][0]) == 1
  {
    hide Tidy, ViewOf, GetShort, GetInt, FrameOk, EntryOk, LinkTo;
    assert IsLive(s, Key(file, h));
    assert FreeList(s.files[file], s.free[file]);
  }

  /** A buffered page lies in its file, so it can be marked dirty. */
  lemma InFrame(s: Sys, k: Key)
    requires Inv(s) && Sound(s) && k in s.index
    ensures InFile(s.files, s.frames[s.index[k]].Id())
  {
    hide FreeList;
    assert EntryOk(s, k) && FrameOk(s, s.index[k]);
  }

  lemma DistinctFrames(s: Sys, j: Key, k: Key)
    requires Inv(s) && Sound(s) && j in s.index && k in s.index && j != k
    ensures s.index[j] != s.index[k]
  {
    hide FreeList, FrameOk;
    assert EntryOk(s, j) && EntryOk(s, k);
  }

  // ---------- a new page at the end of the chain ----------

  /** The header can always count one more page: the pages of the chain are distinct pages of the file. */
  lemma ChainShort(s: Sys, w: Session)
    requires SessionOk(s, w)
    ensures IsInt(|w.chain| + 1)
  {
    hide FrameOk, EntryOk, PinsOk, Tidy, ViewOf, GetShort, GetInt, LinkTo;
    var ps := s.files[w.file];
    assert FreeList(ps, s.free[w.file]) by { assert IsLive(s, w.HKey()); }
    forall j | 0 <= j < |w.chain|
      ensures 1 <= w.chain[j] < |ps|
    {
      assert w.chain[j] in w.chain;
      ChainLive(s, w, w.chain[j]);
    }
    var pages := set p | p in w.chain;
    DistinctSize(w.chain);
    RangeSize(|ps|);
    assert pages <= UserPages(|ps|) - {w.header};
    Subset(pages, UserPages(|ps|) - {w.header});
  }

  lemma Subset<T>(a: set<T>, b: set<T>)
    requires a <= b
    ensures |a| <= |b|
  {
    assert b == a + (b - a);
  }

  predicate CanAlloc(s: Sys, w: Session) {
    w.extra == NO_PAGE && w.file in s.files && w.file in s.free && Extendable(s.files[w.file])
  }

  /** Any file in order short of the largest size can grow. */
  lemma MayAlloc(s: Sys, w: Session)
    requires SessionOk(s, w) && w.extra == NO_PAGE && w.file in s.files && |s.files[w.file]| < MAX_PAGES
    ensures CanAlloc(s, w)
  {
    hide FrameOk, EntryOk, OwedOk, PinsOk, HeapOk, GetInt;
    assert FreeList(s.files[w.file], s.free[w.file]);
  }

  lemma AllocHeap(s: Sys, w: Session)
    requires SessionOk(s, w) && CanAlloc(s, w)
    ensures var (g, p) := AllocPage(s, w.file);
            && Inv(g.sys) && Sound(g.sys) && HeapOk(Meaning(g.sys), w.file, w.header, w.chain)
            && Views(Meaning(g.sys), w.file, w.chain) == Pages(s, w)
            && p !in w.chain && p != w.header && 1 <= p && IsInt(p)
  {
    hide FrameOk, EntryOk, OwedOk, PinsOk, Tidy, ViewOf, GetShort, GetInt, LinkTo, FreeList, AllocPage, Extendable;
    var (g, p) := AllocPage(s, w.file);
    AllocKeepsInv(s, w.file);
    assert w.HKey() in Meaning(s);
    forall j | 0 <= j < |w.chain|
      ensures Key(w.file, w.chain[j]) in Meaning(s) && w.chain[j] != p
    {
      assert PageOk(Meaning(s), w.file, w.chain[j]);
    }
    HeapFrame(Meaning(s), Meaning(g.sys), w.file, w.header, w.chain);
    PageInRange(g.sys, Key(w.file, p));
  }

  lemma AllocStatus(s: Sys, w: Session)
    requires Pinned(s, w) && CanAlloc(s, w)
    ensures AllocPage(s, w.file).0.status == if NoRoom(w.base, w.Held()) then BUFFEREXCEEDED else OK
  {
    hide Inv, Sound, AllocPage, Extendable, PinnedKeys, Full;
    AllocKeepsInv(s, w.file);
    SessionPins(s, w);
    AllocRefused(s, w.file);
  }

  /** allocPage for the file of the session. */
  lemma AllocSession(s: Sys, w: Session)
    requires SessionOk(s, w) && CanAlloc(s, w)
    ensures var (g, p) := AllocPage(s, w.file);
            && g.status == (if NoRoom(w.base, w.Held()) then BUFFEREXCEEDED else OK)
            && SessionOk(g.sys, if g.status == OK then w.(extra := p) else w)
            && SameFrames(s, g.sys) && OneMore(s.files, g.sys.files, w.file) && Elsewhere(s, g.sys, w.file)
            && Views(Meaning(g.sys), w.file, w.chain) == Pages(s, w)
            && p !in w.chain && p != w.header && 1 <= p && IsInt(p)
            && (g.status == OK ==> Key(w.file, p) in g.sys.index && g.frame == g.sys.index[Key(w.file, p)])
  {
    hide Inv, Sound, HeapOk, Meaning, PinCount, AllocPage, Extendable, NoRoom, Full, OneMore, Elsewhere;
    AllocHeap(s, w);
    AllocElsewhere(s, w.file);
    AllocKeepsInv(s, w.file);
    AllocStatus(s, w);
  }

  lemma PageInRange(s: Sys, k: Key)
    requires FilesOk(s) && IsLive(s, k)
    ensures 1 <= k.page && IsInt(k.page)
  {
    assert FreeList(s.files[k.file], s.free[k.file]);
  }

  function AppendedHeader(hdr: Image, p: int, count: int): Image
    requires IsInt(p) && IsInt(count)
  {
    PutInt(PutInt(hdr, LAST_PAGE, p), PAGE_CNT, count)
  }

  lemma AppendedHeaderOk(hdr: Image, chain: seq<int>, p: int, count: int)
    requires chain != [] && HeaderOk(hdr, chain, count) && IsInt(p) && IsInt(|chain| + 1)
    ensures HeaderOk(AppendedHeader(hdr, p, |chain| + 1), chain + [p], count)
  {
    hide GetInt, PutInt;
    var h1 := PutInt(hdr, LAST_PAGE, p);
    PutIntFrame(hdr, LAST_PAGE, p, FIRST_PAGE);
    PutIntFrame(hdr, LAST_PAGE, p, REC_CNT);
    PutIntFrame(h1, PAGE_CNT, |chain| + 1, FIRST_PAGE);
    PutIntFrame(h1, PAGE_CNT, |chain| + 1, LAST_PAGE);
    PutIntFrame(h1, PAGE_CNT, |chain| + 1, REC_CNT);
  }

  lemma AppendedTotal(vs: seq<View>, j: nat, next: int, p: int)
    requires j < |vs|
    ensures Total(vs[j := vs[j].(next := next)] + [Fresh(p)]) == Total(vs)
  {
    TotalUpdate(vs, j, vs[j].(next := next));
    TotalAppend(vs[j := vs[j].(next := next)], Fresh(p));
  }

  /** A blank page is linked at the end and the header follows. */
  lemma HeapAppend(m: Contents, f: FileId, h: int, chain: seq<int>, p: int, blank: Image, last: Image)
    requires HeapOk(m, f, h, chain) && p != h && CanAppend(m, f, chain, p, blank, last) && ViewOf(blank) == Fresh(p)
    requires IsInt(|chain| + 1)
    ensures chain != [] && Key(f, h) in m
    ensures var n := m[Key(f, p) := blank][Key(f, h) := AppendedHeader(m[Key(f, h)], p, |chain| + 1)]
                      [Key(f, chain[|chain| - 1]) := last];
            && HeapOk(n, f, h, chain + [p])
            && Views(n, f, chain + [p]) == Views(m, f, chain)[|chain| - 1 := ViewOf(last)] + [Fresh(p)]
  {
    hide Tidy, ViewOf, GetInt, GetShort, PutInt, HeaderOk, Chained, PageOk, AppendedHeader;
    NonEmpty(m, f, chain);
    var k, hdr := |chain| - 1, AppendedHeader(m[Key(f, h)], p, |chain| + 1);
    assert chain[k] in chain;
    AppendPage(m, f, chain, p, blank, last);
    var m' := m[Key(f, p) := blank][Key(f, chain[k]) := last];
    SetHeader(m', f, h, chain + [p], hdr);
    assert m[Key(f, p) := blank][Key(f, h) := hdr][Key(f, chain[k]) := last] == m'[Key(f, h) := hdr];
    AppendedTotal(Views(m, f, chain), k, p, p);
    AppendedHeaderOk(m[Key(f, h)], chain, p, Total(Views(m, f, chain)));
  }

  /** The stores of insertRecord that append the page just allocated. */
  function AppendStores(s: Sys, w: Session, blank: Image, h1: Image, h2: Image, last: Image): Sys
    requires Sound(s) && w.XKey() in s.index && w.HKey() in s.index && w.CKey() in s.index
  {
    Write(Write(Write(Write(s, w.XKey(), blank), w.HKey(), h1), w.HKey(), h2), w.CKey(), last)
  }

  lemma AppendPinned(s: Sys, w: Session, blank: Image, h1: Image, h2: Image, last: Image)
    requires Pinned(s, w) && w.page != NO_PAGE && w.extra != NO_PAGE && w.hdrDirty && w.curDirty
    ensures w.XKey() in s.index && w.HKey() in s.index && w.CKey() in s.index
    ensures var t := AppendStores(s, w, blank, h1, h2, last);
            var (u, status) := UnPinPage(t, w.CKey(), true);
            && Pinned(t, w) && status == OK
            && Pinned(u, w.(chain := w.chain + [w.extra], page := w.extra, extra := NO_PAGE))
            && Meaning(u) == Meaning(s)[w.XKey() := blank][w.HKey() := h2][w.CKey() := last]
            && SameFrames(s, u) && t.index == s.index && u.files == s.files && Elsewhere(s, u, w.file)
  {
    hide Inv, Sound, Meaning, PinCount, Write, UnPinPage, Elsewhere;
    StoreKeeps(s, w, w.XKey(), blank);
    var s1 := Write(s, w.XKey(), blank);
    StoreKeeps(s1, w, w.HKey(), h1);
    var s2 := Write(s1, w.HKey(), h1);
    StoreKeeps(s2, w, w.HKey(), h2);
    var s3 := Write(s2, w.HKey(), h2);
    StoreKeeps(s3, w, w.CKey(), last);
    var s4 := Write(s3, w.CKey(), last);
    LeavePinned(s4, w, true);
    ElsewhereTrans(s, s1, s2, w.file);
    ElsewhereTrans(s, s2, s3, w.file);
    ElsewhereTrans(s, s3, s4, w.file);
    ElsewhereTrans(s, s4, UnPinPage(s4, w.CKey(), true).0, w.file);
    MayLeave(s, w, w.HKey(), true);
    MayLeave(s, w, w.CKey(), true);
    assert Meaning(s)[w.XKey() := blank][w.HKey() := h1][w.HKey() := h2] ==
      Meaning(s)[w.XKey() := blank][w.HKey() := h2];
  }

  /** insertRecord's append: the chain grows by the blank page, which becomes the current one. */
  lemma AppendKeeps(s: Sys, w: Session, blank: Image, h1: Image, last: Image)
    requires SessionOk(s, w) && w.chain != [] && w.page == w.chain[|w.chain| - 1] && w.extra != NO_PAGE &&
      IsInt(w.extra)
    requires WellFormed(blank) && ViewOf(blank) == Fresh(w.extra)
    requires WellFormed(last) && ViewOf(last) == Pages(s, w)[|w.chain| - 1].(next := w.extra)
    ensures w.XKey() in s.index && w.HKey() in s.index && w.CKey() in s.index && w.HKey() in Meaning(s)
    ensures IsInt(|w.chain| + 1)
    ensures var t := AppendStores(s, w, blank, h1, AppendedHeader(Meaning(s)[w.HKey()], w.extra, |w.chain| + 1), last);
            Inv(t) && Sound(t) && t.index == s.index && AppendOutcome(s, w, t, ViewOf(last))
  {
    hide Inv, Sound, Meaning, PinsOk, Tidy, ViewOf, GetInt, GetShort, AppendStores, AppendedHeader, UnPinPage, Chained;
    hide Elsewhere;
    ChainShort(s, w);
    var w1 := w.(hdrDirty := true, curDirty := true);
    RaiseFlags(s, w, true, true);
    HeaderInHeap(s, w);
    var h2 := AppendedHeader(Meaning(s)[w.HKey()], w.extra, |w.chain| + 1);
    AppendPinned(s, w1, blank, h1, h2, last);
    LastShown(s, w);
    HeapAppend(Meaning(s), w.file, w.header, w.chain, w.extra, blank, last);
    SameStores(s, w, blank, h1, h2, last);
  }

  lemma SameStores(s: Sys, w: Session, blank: Image, h1: Image, h2: Image, last: Image)
    requires Sound(s) && w.XKey() in s.index && w.HKey() in s.index && w.CKey() in s.index
    ensures AppendStores(s, w, blank, h1, h2, last)
            == AppendStores(s, w.(hdrDirty := true, curDirty := true), blank, h1, h2, last)
  {
  }

  lemma LastShown(s: Sys, w: Session)
    requires SessionOk(s, w) && w.chain != []
    ensures Chained(Meaning(s), w.file, w.chain)
    ensures PageOk(Meaning(s), w.file, w.chain[|w.chain| - 1])
    ensures ViewAt(Meaning(s), w.file, w.chain[|w.chain| - 1]) == Pages(s, w)[|w.chain| - 1]
  {
  }

  /** Unpinning the old last page completes the append. */
  ghost predicate AppendOutcome(s: Sys, w: Session, t: Sys, last: View)
    requires Sound(t) && SessionOk(s, w)
  {
    var (u, status) := UnPinPage(t, w.CKey(), true);
    var w' := w.(chain := w.chain + [w.extra], page := w.extra, extra := NO_PAGE, hdrDirty := true, curDirty := true);
    && status == OK && SessionOk(u, w') && SameFrames(s, u) && u.files == s.files && Elsewhere(s, u, w.file)
    && |Pages(s, w)| == |w.chain| && w.chain != []
    && Pages(u, w') == Pages(s, w)[|w.chain| - 1 := last] + [Fresh(w.extra)]
  }

  /** The record has been put on the last page, now showing page, but not counted in the header yet. */
  ghost predicate Uncounted(s: Sys, w: Session, t: Sys, vs: seq<View>, page: Image, hdr: Image, rec: seq<Byte>) {
    && SessionOk(s, w) && w.chain != [] && w.page == w.chain[|w.chain| - 1]
    && vs == Pages(s, w) && |vs| == |w.chain| && IsInt(Total(vs) + 1)
    && w.CKey() in s.index && t == Write(s, w.CKey(), page)
    && w.HKey() in Meaning(s) && hdr == Meaning(s)[w.HKey()]
    && WellFormed(page) && ViewOf(page) == Insert(vs[|vs| - 1], rec)
  }

  /** Counting the record in completes the insertion. */
  lemma CountKeeps(s: Sys, w: Session, t: Sys, vs: seq<View>, page: Image, hdr: Image, rec: seq<Byte>)
    requires Uncounted(s, w, t, vs, page, hdr, rec)
    ensures Sound(t) && w.HKey() in t.index && IsInt(GetInt(hdr, REC_CNT) + 1)
    ensures var u := Write(t, w.HKey(), PutInt(hdr, REC_CNT, GetInt(hdr, REC_CNT) + 1));
            var w' := w.(hdrDirty := true, curDirty := true);
            && SessionOk(u, w') && Pages(u, w') == vs[|vs| - 1 := Insert(vs[|vs| - 1], rec)] && u.index == s.index
            && Elsewhere(s, u, w.file)
  {
    hide Inv, Meaning, ViewOf, GetInt, GetShort, PutInt, FreeList, PinsOk, HeapOk, Total, Tidy, SetSlot, Insert;
    hide Elsewhere;
    InsertKeepsSession(s, w, |w.chain| - 1, rec, page);
  }
}
