/**
 What every run of well-behaved clients keeps of the buffer pool, and what it
 means: a map from the live pages of all files to their contents.
 */
module Transparency {
  import opened Statuses
  import opened Bytes
  import opened Disk
  import opened BufHash
  import opened BufferPool

  predicate IsLive(s: Sys, k: Key) {
    k.file in s.files && k.file in s.free && Live(s.files[k.file], s.free[k.file], k.page)
  }

  /** The frame of a buffered page, the disk for any other. */
  ghost function Content(s: Sys, k: Key): Image
    requires Sound(s) && IsLive(s, k)
  {
    if k in s.index then s.mem[s.index[k]] else s.files[k.file][k.page]
  }

  /** The abstract meaning of pool and files together. */
  ghost function Meaning(s: Sys): imap<Key, Image>
    requires Sound(s)
  {
    imap k | IsLive(s, k) :: Content(s, k)
  }

  function PinCount(s: Sys, k: Key): nat
    requires Sound(s)
  {
    if k in s.index then s.frames[s.index[k]].pinCnt else 0
  }

  ghost predicate FilesOk(s: Sys) {
    && s.files.Keys == s.free.Keys
    && forall f :: f in s.files ==> f != NULL_FILE && FreeList(s.files[f], s.free[f])
  }

  /** A valid frame holds a live page, is the one the index names, and matches the disk unless marked. */
  ghost predicate ValidOk(s: Sys, i: int)
    requires 0 <= i < |s.frames| == |s.mem|
  {
    var k := s.frames[i].Id();
    && IsLive(s, k)
    && k in s.index && s.index[k] == i
    && (!s.frames[i].dirty && k !in s.owed ==> s.mem[i] == s.files[k.file][k.page])
  }

  ghost predicate FrameOk(s: Sys, i: int)
    requires 0 <= i < |s.frames| == |s.mem|
  {
    if s.frames[i].valid then ValidOk(s, i)
    else s.frames[i].pinCnt == 0 && !s.frames[i].dirty && s.frames[i].file == NULL_FILE
  }

  ghost predicate EntryOk(s: Sys, k: Key)
    requires k in s.index
  {
    0 <= s.index[k] < |s.frames| && s.frames[s.index[k]].valid && s.frames[s.index[k]].Id() == k
  }

  ghost predicate OwedOk(s: Sys, k: Key) {
    k in s.index && 0 <= s.index[k] < |s.frames| && s.frames[s.index[k]].pinCnt > 0
  }

  /** Every frame but v is in order, and the index does not name v. */
  ghost predicate InvBut(s: Sys, v: int) {
    && Shape(s) && FilesOk(s)
    && (forall i :: 0 <= i < |s.frames| && i != v ==> FrameOk(s, i))
    && (forall k :: k in s.index ==> EntryOk(s, k) && s.index[k] != v)
    && (forall k :: k in s.owed ==> OwedOk(s, k))
  }

  ghost predicate Inv(s: Sys) { InvBut(s, -1) }

  lemma InvSound(s: Sys)
    requires Inv(s)
    ensures Sound(s)
  {
    forall i | 0 <= i < |s.frames| && s.frames[i].dirty
      ensures InFile(s.files, s.frames[i].Id())
    {
      assert FrameOk(s, i);
    }
    forall k | k in s.index
      ensures 0 <= s.index[k] < |s.frames|
    {
      assert EntryOk(s, k);
    }
  }

  // ---------- eviction ----------

  /** t is s with the hand moved and some reference bits changed. */
  ghost predicate OnlyBits(s: Sys, t: Sys) {
    && t == s.(frames := t.frames, hand := t.hand)
    && |t.frames| == |s.frames| && t.hand < |t.frames|
    && forall i :: 0 <= i < |s.frames| ==> t.frames[i] == s.frames[i].(refbit := t.frames[i].refbit)
  }

  lemma BitsKeep(s: Sys, t: Sys)
    requires Inv(s) && OnlyBits(s, t)
    ensures Inv(t) && Sound(s) && Sound(t) && Meaning(t) == Meaning(s)
    ensures forall k :: PinCount(t, k) == PinCount(s, k)
  {
    hide FreeList;
    InvSound(s);
    forall i | 0 <= i < |t.frames|
      ensures FrameOk(t, i)
    {
      assert FrameOk(s, i);
    }
    forall k | k in t.index
      ensures EntryOk(t, k)
    {
      assert EntryOk(s, k);
    }
    forall k | k in t.owed
      ensures OwedOk(t, k)
    {
      assert OwedOk(s, k);
    }
    InvSound(t);
  }

  /** Writing a live page back keeps every file in order. */
  lemma WriteBackKeeps(s: Sys, k: Key, page: Image)
    requires FilesOk(s) && IsLive(s, k)
    ensures InFile(s.files, k)
    ensures var t := s.(files := WriteBack(s.files, k, page));
            && FilesOk(t)
            && (forall q :: IsLive(t, q) <==> IsLive(s, q))
            && (forall q :: IsLive(s, q) ==>
                  t.files[q.file][q.page] == if q == k then page else s.files[q.file][q.page])
  {
    hide GetInt, PutInt, NextFree, FirstPage, NumPages;
    WriteKeeps(s.files[k.file], s.free[k.file], k.page, page);
  }

  /** Every frame is valid and pinned. */
  predicate Full(s: Sys) {
    forall i :: 0 <= i < |s.frames| ==> !Replaceable(s.frames[i])
  }

  ghost predicate SameLengths(a: Files, b: Files) {
    a.Keys == b.Keys && forall f :: f in a ==> |a[f]| == |b[f]|
  }

  /** No file is longer than before, but for one page of f. */
  ghost predicate OneMore(a: Files, b: Files, f: FileId) {
    a.Keys == b.Keys && forall g :: g in a ==> |b[g]| <= |a[g]| + if g == f then 1 else 0
  }

  /** Eviction writes at most the victim's own page, and only with the victim's content. */
  lemma EvictFiles(s: Sys, v: nat)
    requires Inv(s) && Sound(s) && v < |s.frames|
    ensures var t, k := Evict(s, v), s.frames[v].Id();
            && FilesOk(t)
            && (forall q :: IsLive(t, q) <==> IsLive(s, q))
            && (forall q :: IsLive(s, q) ==>
                  t.files[q.file][q.page] == if s.frames[v].dirty && q == k then s.mem[v] else s.files[q.file][q.page])
  {
    hide FreeList;
    assert FrameOk(s, v);
    if s.frames[v].dirty { WriteBackKeeps(s, s.frames[v].Id(), s.mem[v]); }
  }

  lemma EvictInv(s: Sys, v: nat)
    requires Inv(s) && Sound(s) && v < |s.frames| && Replaceable(s.frames[v])
    ensures InvBut(Evict(s, v), v) && Sound(Evict(s, v))
  {
    hide FreeList;
    var t := Evict(s, v);
    EvictFiles(s, v);
    assert FrameOk(s, v);
    forall i | 0 <= i < |t.frames| && i != v
      ensures FrameOk(t, i)
    {
      assert FrameOk(s, i);
    }
    forall q | q in t.index
      ensures EntryOk(t, q) && t.index[q] != v
    {
      assert EntryOk(s, q);
    }
    forall q | q in t.owed
      ensures OwedOk(t, q)
    {
      assert OwedOk(s, q) && EntryOk(s, q);
    }
    forall i | 0 <= i < |t.frames| && t.frames[i].dirty
      ensures InFile(t.files, t.frames[i].Id())
    {
      assert FrameOk(s, i);
    }
  }

  lemma EvictKeeps(s: Sys, v: nat)
    requires Inv(s) && Sound(s) && v < |s.frames| && Replaceable(s.frames[v])
    ensures InvBut(Evict(s, v), v) && Sound(Evict(s, v)) && Meaning(Evict(s, v)) == Meaning(s)
    ensures forall k :: PinCount(Evict(s, v), k) == PinCount(s, k)
    ensures SameLengths(s.files, Evict(s, v).files)
  {
    hide FreeList;
    var t, k := Evict(s, v), s.frames[v].Id();
    EvictFiles(s, v);
    EvictInv(s, v);
    assert FrameOk(s, v);
    assert k in s.owed ==> OwedOk(s, k);
    assert k in s.index ==> EntryOk(s, k);
  }

  /** allocBuf either finds every frame valid and pinned, or frees a frame without changing any page. */
  lemma AllocBufKeeps(s: Sys)
    requires Inv(s)
    ensures Sound(s)
    ensures var g := AllocBuf(s);
            && Sound(g.sys) && Meaning(g.sys) == Meaning(s)
            && (forall k :: PinCount(g.sys, k) == PinCount(s, k))
            && (forall q :: q in g.sys.index ==> q in s.index && g.sys.index[q] == s.index[q])
            && g.sys.owed == s.owed && g.sys.free == s.free && g.sys.files.Keys == s.files.Keys
            && |g.sys.frames| == |s.frames| && SameLengths(s.files, g.sys.files)
            && (if g.status == OK then 0 <= g.frame < |s.frames| && InvBut(g.sys, g.frame)
                else g.status == BUFFEREXCEEDED && Inv(g.sys))
            && (g.status == BUFFEREXCEEDED <==> Full(s))
  {
    hide FreeList;
    InvSound(s);
    var n, k := |s.frames|, Pick(s.frames, s.hand);
    var t := s.(frames := Swept(s.frames, s.hand, k));
    ClockFails(s.frames, s.hand);
    if k == 2 * n {
      BitsKeep(s, t);
    } else {
      var v := At(s.hand, n, k);
      BitsKeep(s, t.(hand := v));
      EvictKeeps(t.(hand := v), v);
    }
  }

  /** A freed frame takes on a live page the pool does not hold yet. */
  lemma InstallKeeps(s: Sys, v: nat, k: Key, page: Image, owed: set<Key>)
    requires InvBut(s, v) && Sound(s) && v < |s.frames| && IsLive(s, k) && k !in s.index
    requires owed == s.owed + {k} || (owed == s.owed && page == s.files[k.file][k.page])
    ensures var g := Install(s, v, k, page);
            var t := g.sys.(owed := owed);
            && g.status == OK && Inv(t) && Sound(t) && |t.frames| == |s.frames|
            && Meaning(t) == Meaning(s)[k := page]
            && (forall q :: PinCount(t, q) == if q == k then 1 else PinCount(s, q))
  {
    hide FreeList;
    var t := Install(s, v, k, page).sys.(owed := owed);
    forall q | q in s.index
      ensures EntryOk(s, q) && s.index[q] != v
    {
    }
    forall i | 0 <= i < |t.frames|
      ensures FrameOk(t, i)
    {
      if i != v { assert FrameOk(s, i); }
    }
    forall q | q in t.index
      ensures EntryOk(t, q)
    {
    }
    forall q | q in t.owed
      ensures OwedOk(t, q)
    {
      if q != k { assert OwedOk(s, q); }
    }
    InvSound(t);
  }

  // ---------- the operations ----------

  /** What a client may rely on: the meaning is the given one and the pins have changed as stated. */
  ghost predicate Becomes(s: Sys, t: Sys, m: imap<Key, Image>, k: Key, pins: int) {
    && Inv(t) && Sound(s) && Sound(t) && Meaning(t) == m && |t.frames| == |s.frames|
    && forall q :: PinCount(t, q) == if q == k then PinCount(s, q) + pins else PinCount(s, q)
  }

  lemma TouchKeeps(s: Sys, k: Key)
    requires Inv(s) && k in s.index
    ensures 0 <= s.index[k] < |s.frames| && Sound(s)
    ensures Becomes(s, Touch(s, s.index[k]), Meaning(s), k, 1)
  {
    hide FreeList;
    InvSound(s);
    assert EntryOk(s, k);
    var t := Touch(s, s.index[k]);
    forall i | 0 <= i < |t.frames|
      ensures FrameOk(t, i)
    {
      assert FrameOk(s, i);
    }
    forall q | q in t.index
      ensures EntryOk(t, q)
    {
      assert EntryOk(s, q);
    }
    forall q | q in t.owed
      ensures OwedOk(t, q)
    {
      assert OwedOk(s, q);
    }
    InvSound(t);
  }

  /** Reading a live page pins it, returns its content, and changes nothing else. */
  lemma ReadKeeps(s: Sys, k: Key)
    requires Inv(s) && IsLive(s, k)
    ensures Sound(s)
    ensures var g := ReadPage(s, k);
            && (g.status == OK || g.status == BUFFEREXCEEDED)
            && Becomes(s, g.sys, Meaning(s), k, if g.status == OK then 1 else 0)
            && g.sys.free == s.free && SameLengths(s.files, g.sys.files) && g.sys.owed == s.owed
            && (forall q :: q in g.sys.index && q in s.index ==> g.sys.index[q] == s.index[q])
            && (g.status == OK ==> k in g.sys.index && g.frame == g.sys.index[k] && g.sys.mem[g.frame] == Meaning(s)[k])
            && (g.status == BUFFEREXCEEDED <==> k !in s.index && Full(s))
  {
    hide FreeList;
    InvSound(s);
    if k in s.index {
      TouchKeeps(s, k);
    } else {
      AllocBufKeeps(s);
      var g := AllocBuf(s);
      if g.status == OK {
        var page := g.sys.files[k.file][k.page];
        assert k in Meaning(g.sys);
        assert Meaning(s)[k] == page;
        InstallKeeps(g.sys, g.frame, k, page, g.sys.owed);
        assert Meaning(s)[k := page] == Meaning(s);
      }
    }
  }

  /** A client that changed a page must say so before its last pin goes. */
  predicate MayUnPin(s: Sys, k: Key, dirty: bool)
    requires Sound(s)
  {
    dirty || k !in s.owed || PinCount(s, k) > 1
  }

  lemma UnPinInv(s: Sys, k: Key, dirty: bool)
    requires Inv(s) && Sound(s) && MayUnPin(s, k, dirty)
    ensures Inv(UnPinPage(s, k, dirty).0)
  {
    hide FreeList;
    if k in s.index {
      assert EntryOk(s, k);
      var t := UnPinPage(s, k, dirty).0;
      forall i | 0 <= i < |t.frames|
        ensures FrameOk(t, i)
      {
        assert FrameOk(s, i);
      }
      forall q | q in t.index
        ensures EntryOk(t, q)
      {
        assert EntryOk(s, q);
      }
      forall q | q in t.owed
        ensures OwedOk(t, q)
      {
        assert OwedOk(s, q) && EntryOk(s, q);
      }
    }
  }

  lemma UnPinKeeps(s: Sys, k: Key, dirty: bool)
    requires Inv(s) && Sound(s) && MayUnPin(s, k, dirty)
    ensures var (t, status) := UnPinPage(s, k, dirty);
            && Becomes(s, t, Meaning(s), k, if status == OK then -1 else 0)
            && (status == OK <==> PinCount(s, k) > 0)
            && t.free == s.free && t.files == s.files &&
              t.owed == (if dirty && k in s.index then s.owed - {k} else s.owed)
  {
    hide FreeList;
    UnPinInv(s, k, dirty);
    InvSound(UnPinPage(s, k, dirty).0);
    if k in s.index { assert EntryOk(s, k); }
    forall q | q in s.index
      ensures EntryOk(s, q)
    {
    }
  }

  /** A store through the pointer of a pinned page changes that page only. */
  lemma WriteKeepsInv(s: Sys, k: Key, page: Image)
    requires Inv(s) && Sound(s) && PinCount(s, k) > 0
    ensures Becomes(s, Write(s, k, page), Meaning(s)[k := page], k, 0)
  {
    hide FreeList;
    assert EntryOk(s, k);
    var t := Write(s, k, page);
    forall i | 0 <= i < |t.frames|
      ensures FrameOk(t, i)
    {
      assert FrameOk(s, i);
    }
    forall q | q in t.index
      ensures EntryOk(t, q)
    {
      assert EntryOk(s, q);
    }
    forall q | q in t.owed
      ensures OwedOk(t, q)
    {
      if q != k { assert OwedOk(s, q); }
    }
    InvSound(t);
    assert FrameOk(s, s.index[k]);
  }

  // ---------- flushFile ----------

  lemma FlushFiles(s: Sys, i: nat)
    requires Inv(s) && Sound(s) && i < |s.frames| && s.frames[i].valid
    ensures var t, k := FlushFrame(s, i), s.frames[i].Id();
            && FilesOk(t)
            && (forall q :: IsLive(t, q) <==> IsLive(s, q))
            && (forall q :: IsLive(s, q) ==>
                  t.files[q.file][q.page] == if s.frames[i].dirty && q == k then s.mem[i] else s.files[q.file][q.page])
  {
    hide FreeList;
    assert FrameOk(s, i);
    if s.frames[i].dirty { WriteBackKeeps(s, s.frames[i].Id(), s.mem[i]); }
  }

  lemma FlushInv(s: Sys, i: nat)
    requires Inv(s) && Sound(s) && i < |s.frames| && s.frames[i].valid && s.frames[i].pinCnt == 0
    ensures Inv(FlushFrame(s, i)) && Sound(FlushFrame(s, i))
  {
    hide FreeList;
    var t := FlushFrame(s, i);
    FlushFiles(s, i);
    forall j | 0 <= j < |t.frames|
      ensures FrameOk(t, j)
    {
      assert FrameOk(s, j) && FrameOk(s, i);
    }
    forall q | q in t.index
      ensures EntryOk(t, q)
    {
      assert EntryOk(s, q) && FrameOk(s, i);
    }
    forall q | q in t.owed
      ensures OwedOk(t, q)
    {
      assert OwedOk(s, q) && EntryOk(s, q) && FrameOk(s, i);
    }
    InvSound(t);
  }

  lemma FlushFrameKeeps(s: Sys, i: nat)
    requires Inv(s) && Sound(s) && i < |s.frames| && s.frames[i].valid && s.frames[i].pinCnt == 0
    ensures Inv(FlushFrame(s, i)) && Sound(FlushFrame(s, i)) && Meaning(FlushFrame(s, i)) == Meaning(s)
    ensures forall k :: PinCount(FlushFrame(s, i), k) == PinCount(s, k)
  {
    hide FreeList;
    var k := s.frames[i].Id();
    FlushFiles(s, i);
    FlushInv(s, i);
    assert FrameOk(s, i);
    assert k in s.owed ==> OwedOk(s, k);
    forall q | q in s.index
      ensures EntryOk(s, q)
    {
    }
  }

  /**
   Flushing never changes a page.  It fails only on a pinned page of the file,
   never with BADBUFFER; when it succeeds the pool holds nothing of the file.
   */
  lemma {:induction false} FlushKeeps(s: Sys, file: FileId, i: nat)
    requires Inv(s) && Sound(s) && file != NULL_FILE && i <= |s.frames|
    ensures var (t, status) := FlushFrom(s, file, i);
            && Inv(t) && Sound(t) && Meaning(t) == Meaning(s)
            && (forall k :: PinCount(t, k) == PinCount(s, k))
            && t.free == s.free && t.owed == s.owed && SameLengths(s.files, t.files)
            && (status == OK || status == PAGEPINNED)
            && (status == PAGEPINNED ==> exists k: Key :: k.file == file && PinCount(s, k) > 0)
            && (status == OK ==> forall k: Key :: k in t.index && k.file == file ==> t.index[k] < i)
            && |t.frames| == |s.frames|
            && forall k :: k in t.index ==> k in s.index && t.index[k] == s.index[k]
    decreases |s.frames| - i
  {
    hide FreeList;
    if i < |s.frames| {
      var f := s.frames[i];
      assert FrameOk(s, i);
      if f.valid && f.file == file {
        assert f.pinCnt > 0 ==> PinCount(s, f.Id()) > 0;
        if f.pinCnt == 0 {
          FlushFrameKeeps(s, i);
          FlushKeeps(FlushFrame(s, i), file, i + 1);
        }
      } else {
        FlushKeeps(s, file, i + 1);
      }
      forall k | k in s.index
        ensures EntryOk(s, k)
      {
      }
    }
  }

  /** Nobody has a page of the file pinned. */
  ghost predicate Unpinned(s: Sys, file: FileId) {
    Sound(s) && forall k: Key :: k.file == file ==> PinCount(s, k) == 0
  }

  /** flushFile succeeds exactly when no page of the file is pinned, and then the disk alone holds the file. */
  lemma FlushedToDisk(s: Sys, file: FileId)
    requires Inv(s) && Sound(s) && file != NULL_FILE
    ensures var (t, status) := FlushFile(s, file);
            && (status == OK <==> Unpinned(s, file))
            && (status == OK ==> forall k :: IsLive(s, k) && k.file == file ==>
                  k !in t.index && IsLive(t, k) && t.files[k.file][k.page] == Meaning(s)[k])
  {
    hide FreeList;
    FlushKeeps(s, file, 0);
    var (t, status) := FlushFile(s, file);
    if status == OK {
      forall k | k in t.index
        ensures EntryOk(t, k)
      {
      }
      forall k | IsLive(s, k)
        ensures k in Meaning(s) && k in Meaning(t)
      {
      }
    }
  }

  /** The disk holds every page of the file, and the pool none. */
  ghost predicate OnDisk(s: Sys, file: FileId)
    requires Sound(s)
  {
    forall k :: IsLive(s, k) && k.file == file ==> k !in s.index && s.files[k.file][k.page] == Meaning(s)[k]
  }

  /** flushFile succeeds exactly when no page of the file is pinned, and then leaves all of it on disk. */
  lemma Flushing(s: Sys, file: FileId)
    requires Inv(s) && Sound(s) && file != NULL_FILE
    ensures var (t, status) := FlushFile(s, file);
            && Inv(t) && Sound(t) && Meaning(t) == Meaning(s) && |t.frames| == |s.frames| &&
              SameLengths(s.files, t.files)
            && (forall k :: PinCount(t, k) == PinCount(s, k))
            && (status == OK <==> Unpinned(s, file))
            && (status == OK ==> OnDisk(t, file))
  {
    hide Inv, FlushFrom, FreeList, PinCount;
    FlushKeeps(s, file, 0);
    FlushedToDisk(s, file);
    var t := FlushFile(s, file).0;
    forall k | IsLive(t, k)
      ensures IsLive(s, k)
    {
      assert k in Meaning(t);
    }
  }

  // ---------- disposePage ----------

  lemma DropInv(s: Sys, k: Key)
    requires Inv(s) && Sound(s)
    ensures Inv(Drop(s, k)) && Sound(Drop(s, k)) && k !in Drop(s, k).index && k !in Drop(s, k).owed
    ensures forall q :: q != k ==> PinCount(Drop(s, k), q) == PinCount(s, q)
    ensures forall q :: q != k && IsLive(s, q) ==> Content(Drop(s, k), q) == Content(s, q)
  {
    hide FreeList;
    var t := Drop(s, k);
    if k in s.index { assert EntryOk(s, k); }
    assert k in s.owed ==> OwedOk(s, k);
    forall q | q in s.index
      ensures EntryOk(s, q)
    {
    }
    forall i | 0 <= i < |t.frames|
      ensures FrameOk(t, i)
    {
      assert FrameOk(s, i);
    }
    forall q | q in t.index
      ensures EntryOk(t, q)
    {
    }
    forall q | q in t.owed
      ensures OwedOk(t, q)
    {
      assert OwedOk(s, q);
    }
    InvSound(t);
  }

  /** Changing a file the pool holds nothing new of keeps the frames in order. */
  lemma RefileInv(s: Sys, t: Sys)
    requires Inv(s) && FilesOk(t) && t == s.(files := t.files, free := t.free)
    requires forall q :: q in s.index ==>
      IsLive(s, q) && IsLive(t, q) && t.files[q.file][q.page] == s.files[q.file][q.page]
    ensures Inv(t) && Sound(s) && Sound(t)
    ensures forall k :: PinCount(t, k) == PinCount(s, k)
  {
    hide FreeList;
    forall i | 0 <= i < |t.frames|
      ensures FrameOk(t, i)
    {
      assert FrameOk(s, i);
    }
    forall q | q in t.index
      ensures EntryOk(t, q)
    {
      assert EntryOk(s, q);
    }
    forall q | q in t.owed
      ensures OwedOk(t, q)
    {
      assert OwedOk(s, q);
    }
    InvSound(s);
    InvSound(t);
  }

  lemma IndexLive(s: Sys)
    requires Inv(s)
    ensures forall q :: q in s.index ==> IsLive(s, q)
  {
    forall q | q in s.index
      ensures IsLive(s, q)
    {
      assert EntryOk(s, q) && FrameOk(s, s.index[q]);
    }
  }

  lemma DisposeFiles(s: Sys, k: Key)
    requires FilesOk(s) && IsLive(s, k) && k.page != 1
    ensures Counted(s.files, k.file)
    ensures var (status, ps) := Disk.Dispose(s.files[k.file], k.page);
            var t := s.(files := s.files[k.file := ps], free := s.free[k.file := [k.page] + s.free[k.file]]);
            && status == OK && FilesOk(t)
            && (forall q :: IsLive(t, q) <==> IsLive(s, q) && q != k)
            && (forall q :: IsLive(t, q) ==> t.files[q.file][q.page] == s.files[q.file][q.page])
  {
    hide GetInt, PutInt, NextFree, FirstPage;
    DisposeKeeps(s.files[k.file], s.free[k.file], k.page);
  }

  lemma DisposeState(s: Sys, k: Key)
    requires Inv(s) && Sound(s) && IsLive(s, k) && k.page != 1
    ensures Counted(s.files, k.file)
    ensures var (t, status) := DisposePage(s, k);
            && status == OK && Inv(t) && Sound(t)
            && (forall q :: PinCount(t, q) == if q == k then 0 else PinCount(s, q))
            && t.free == s.free[k.file := [k.page] + s.free[k.file]]
            && (forall q :: IsLive(t, q) <==> IsLive(s, q) && q != k)
            && (forall q :: IsLive(t, q) ==> Content(t, q) == Content(s, q))
  {
    hide FreeList, Disk.Dispose, FrameOk, EntryOk, OwedOk;
    DropInv(s, k);
    DisposeFiles(Drop(s, k), k);
    var t := DisposePage(s, k).0;
    IndexLive(Drop(s, k));
    RefileInv(Drop(s, k), t);
  }

  /** Disposing of a live page other than the first removes that page and nothing else. */
  lemma DisposeKeepsInv(s: Sys, k: Key)
    requires Inv(s) && Sound(s) && IsLive(s, k) && k.page != 1
    ensures Counted(s.files, k.file)
    ensures var (t, status) := DisposePage(s, k);
            && status == OK && Inv(t) && Sound(t)
            && Meaning(t) == Meaning(s) - {k}
            && (forall q :: PinCount(t, q) == if q == k then 0 else PinCount(s, q))
            && t.free == s.free[k.file := [k.page] + s.free[k.file]]
  {
    hide Inv, Sound, IsLive, Content, DisposePage, PinCount, Counted;
    DisposeState(s, k);
  }

  // ---------- allocPage ----------

  /** The page p that the file has given out: zero if it is new, and otherwise with the bytes it had. */
  ghost predicate GivenOut(s: Sys, t: Sys, file: FileId, p: int) {
    && file in s.files && file in s.free && file in t.files && 0 <= p < |t.files[file]|
    && if s.free[file] == [] then p == |s.files[file]| && t.files[file][p] == ZeroPage()
       else p == s.free[file][0] && p < |s.files[file]| && t.files[file][p] == s.files[file][p]
  }

  lemma GrowFiles(s: Sys, file: FileId)
    requires FilesOk(s) && file in s.files && Extendable(s.files[file])
    ensures var (t, status, p) := Grow(s, file);
            && status == OK && FilesOk(t)
            && !IsLive(s, Key(file, p)) && IsLive(t, Key(file, p))
            && (forall q :: q != Key(file, p) ==> (IsLive(t, q) <==> IsLive(s, q)))
            && (forall q :: IsLive(s, q) ==> t.files[q.file][q.page] == s.files[q.file][q.page])
            && GivenOut(s, t, file, p)
  {
    hide GetInt, PutInt, NextFree, FirstPage;
    AllocateKeeps(s.files[file], s.free[file]);
  }

  lemma GrowLengths(s: Sys, file: FileId)
    requires file in s.files && file in s.free && Extendable(s.files[file])
    ensures var t := Grow(s, file).0;
            OneMore(s.files, t.files, file) && t.frames == s.frames && (Full(t) <==> Full(s))
  {
    hide GetInt, PutInt;
  }

  lemma GrowKeeps(s: Sys, file: FileId)
    requires Inv(s) && Sound(s) && file in s.files && Extendable(s.files[file])
    ensures var (t, status, p) := Grow(s, file);
            && status == OK && Inv(t) && Sound(t) && IsLive(t, Key(file, p))
            && Key(file, p) !in s.index && Key(file, p) !in Meaning(s)
            && Meaning(t) == Meaning(s)[Key(file, p) := t.files[file][p]]
            && (forall q :: PinCount(t, q) == PinCount(s, q)) && PinCount(s, Key(file, p)) == 0
            && file in s.free && OneMore(s.files, t.files, file) && t.frames == s.frames && (Full(t) <==> Full(s))
            && GivenOut(s, t, file, p) && t.mem == s.mem
  {
    hide FreeList, Extendable, OneMore, Full, GivenOut;
    GrowLengths(s, file);
    GrowFiles(s, file);
    IndexLive(s);
    RefileInv(s, Grow(s, file).0);
  }

  /** A frame for a page the file has just given out. */
  lemma AdoptKeeps(s: Sys, k: Key)
    requires Inv(s) && Sound(s) && IsLive(s, k) && k !in s.index
    ensures Shape(AllocBuf(s).sys) && 0 <= AllocBuf(s).frame < |AllocBuf(s).sys.frames|
    ensures var a := AllocBuf(s);
            var g := if a.status == OK then Adopt(a, k) else a;
            && (g.status == OK || g.status == BUFFEREXCEEDED)
            && Inv(g.sys) && Sound(g.sys) && IsLive(g.sys, k)
            && Meaning(g.sys) == Meaning(s)[k := Content(g.sys, k)]
            && (forall q :: PinCount(g.sys, q) == PinCount(s, q) + if q == k && g.status == OK then 1 else 0)
            && (g.status == OK ==> k in g.sys.index && g.frame == g.sys.index[k])
            && g.sys.owed == (if g.status == OK then s.owed + {k} else s.owed)
            && g.sys.free == s.free && SameLengths(s.files, g.sys.files) && |g.sys.frames| == |s.frames|
            && (forall q :: q in g.sys.index && q in s.index ==> g.sys.index[q] == s.index[q])
            && (g.status == BUFFEREXCEEDED <==> Full(s))
            && g.sys.files[k.file][k.page] == s.files[k.file][k.page]
            && (g.status == OK ==> g.sys.mem == s.mem)
  {
    hide FreeList, FrameOk, EntryOk, OwedOk, Full;
    AllocBufKeeps(s);
    var g := AllocBuf(s);
    assert k in Meaning(s) && k in Meaning(g.sys);
    assert Meaning(g.sys)[k] == Meaning(s)[k];
    if g.status == OK {
      InstallKeeps(g.sys, g.frame, k, g.sys.mem[g.frame], g.sys.owed + {k});
    }
  }

  /**
   Allocation makes one page live that was not, and pins it; the pool never held
   it.  When no frame can be had the page has been taken from the file all the same.
   The frame keeps the bytes it had, whatever the file holds at that page.
   */
  lemma AllocKeepsInv(s: Sys, file: FileId)
    requires Inv(s) && Sound(s) && file in s.files && Extendable(s.files[file])
    ensures var (g, p) := AllocPage(s, file);
            var k := Key(file, p);
            && (g.status == OK || g.status == BUFFEREXCEEDED)
            && Inv(g.sys) && Sound(g.sys) && k !in Meaning(s) && IsLive(g.sys, k)
            && Meaning(g.sys) == Meaning(s)[k := Content(g.sys, k)]
            && PinCount(s, k) == 0
            && (forall q :: PinCount(g.sys, q) == PinCount(s, q) + if q == k && g.status == OK then 1 else 0)
            && (g.status == OK ==> k in g.sys.index && g.frame == g.sys.index[k])
            && g.sys.owed == (if g.status == OK then s.owed + {k} else s.owed)
            && g.sys.free == s.free[file := Tail(s.free[file])]
            && OneMore(s.files, g.sys.files, file) && |g.sys.frames| == |s.frames|
            && (forall q :: q in g.sys.index && q in s.index ==> g.sys.index[q] == s.index[q])
            && (g.status == BUFFEREXCEEDED <==> Full(s))
            && GivenOut(s, g.sys, file, p)
            && (g.status == OK ==> 0 <= g.frame < |s.mem| && Content(g.sys, k) == s.mem[g.frame])
  {
    hide Inv, Extendable, Allocate, AllocBuf, Adopt, Full, PinCount, Tail;
    GrowKeeps(s, file);
    var (t, status, p) := Grow(s, file);
    AdoptKeeps(t, Key(file, p));
  }

  // ---------- the destructor ----------

  ghost predicate Synced(s: Sys, k: Key)
    requires Sound(s) && IsLive(s, k)
  {
    s.files[k.file][k.page] == Content(s, k)
  }

  lemma WriteOutKeeps(s: Sys, i: nat)
    requires Inv(s) && Sound(s) && i < |s.frames| && s.frames[i].valid && s.frames[i].dirty
    ensures var k := s.frames[i].Id();
            var t := s.(files := WriteBack(s.files, k, s.mem[i]));
            && Inv(t) && Sound(t) && Meaning(t) == Meaning(s) && IsLive(t, k) && Synced(t, k)
            && (forall q :: IsLive(t, q) <==> IsLive(s, q))
            && forall q :: IsLive(s, q) && Synced(s, q) ==> IsLive(t, q) && Synced(t, q)
  {
    hide FreeList;
    assert FrameOk(s, i);
    var k := s.frames[i].Id();
    var t := s.(files := WriteBack(s.files, k, s.mem[i]));
    WriteBackKeeps(s, k, s.mem[i]);
    forall j | 0 <= j < |t.frames|
      ensures FrameOk(t, j)
    {
      assert FrameOk(s, j);
    }
    forall q | q in t.index
      ensures EntryOk(t, q)
    {
      assert EntryOk(s, q);
    }
    forall q | q in t.owed
      ensures OwedOk(t, q)
    {
      assert OwedOk(s, q);
    }
    InvSound(t);
  }

  lemma CleanSynced(s: Sys, i: nat)
    requires Inv(s) && Sound(s) && s.owed == {} && i <= |s.frames|
    ensures i < |s.frames| && !(s.frames[i].valid && s.frames[i].dirty) ==>
      forall k :: IsLive(s, k) && k in s.index && s.index[k] == i ==> Synced(s, k)
    ensures i < |s.frames| && s.frames[i].valid ==>
      forall k :: k in s.index && s.index[k] == i ==> k == s.frames[i].Id()
    ensures forall k :: k in s.index ==> s.index[k] < |s.frames|
  {
    hide FreeList;
    forall k | k in s.index
      ensures EntryOk(s, k) && FrameOk(s, s.index[k])
    {
    }
  }

  lemma {:induction false} ShutDownFrom(s: Sys, i: nat)
    requires Inv(s) && Sound(s) && i <= |s.frames| && s.owed == {}
    ensures var t := s.(files := ShutDown(s, i));
            && Inv(t) && Sound(t) && Meaning(t) == Meaning(s)
            && forall k :: IsLive(s, k) && (k !in s.index || i <= s.index[k] || Synced(s, k)) ==>
                 IsLive(t, k) && Synced(t, k)
    decreases |s.frames| - i
  {
    hide Inv, Meaning, WriteBack;
    CleanSynced(s, i);
    if i == |s.frames| {
      assert s.(files := ShutDown(s, i)) == s;
    } else if s.frames[i].valid && s.frames[i].dirty {
      WriteOutKeeps(s, i);
      ShutDownFrom(s.(files := WriteBack(s.files, s.frames[i].Id(), s.mem[i])), i + 1);
    } else {
      ShutDownFrom(s, i + 1);
    }
  }

  /** Nothing is lost at shutdown: when no client owes a dirty unpin, the disk ends up holding the meaning. */
  lemma ShutDownSaves(s: Sys, k: Key)
    requires Inv(s) && Sound(s) && s.owed == {} && IsLive(s, k)
    ensures var files := ShutDown(s);
            InFile(files, k) && files[k.file][k.page] == Meaning(s)[k] && FilesOk(s.(files := files))
  {
    hide FreeList;
    ShutDownFrom(s, 0);
    var t := s.(files := ShutDown(s));
    assert k in Meaning(s) && k in Meaning(t);
  }

  // ---------- runs ----------

  /** BufMgr::BufMgr over files in order: every frame invalid, the index empty. */
  lemma InitialInv(s: Sys)
    requires Shape(s) && FilesOk(s) && s.index == map[] && s.owed == {}
    requires forall i :: 0 <= i < |s.frames| ==>
      !s.frames[i].valid && s.frames[i].pinCnt == 0 && !s.frames[i].dirty && s.frames[i].file == NULL_FILE
    ensures Inv(s) && Sound(s)
    ensures forall k :: IsLive(s, k) ==> Meaning(s)[k] == s.files[k.file][k.page]
  {
    hide FreeList;
    InvSound(s);
  }

  datatype Op =
    | ReadOp(k: Key)
    | UnPinOp(k: Key, dirty: bool)
    | FlushOp(file: FileId)
    | AllocOp(file: FileId)
    | DisposeOp(k: Key)
    | WriteOp(k: Key, page: Image)

  /** The discipline of a client: live pages only, writes only under a pin, changes declared. */
  ghost predicate Allowed(s: Sys, op: Op)
    requires Sound(s)
  {
    match op
    case ReadOp(k) => IsLive(s, k)
    case UnPinOp(k, dirty) => MayUnPin(s, k, dirty)
    case FlushOp(file) => file != NULL_FILE
    case AllocOp(file) => file in s.files && file in s.free && Extendable(s.files[file])
    case DisposeOp(k) => IsLive(s, k) && k.page != 1 && Counted(s.files, k.file)
    case WriteOp(k, page) => PinCount(s, k) > 0
  }

  ghost function Step(s: Sys, op: Op): Sys
    requires Sound(s) && Allowed(s, op)
  {
    match op
    case ReadOp(k) => ReadPage(s, k).sys
    case UnPinOp(k, dirty) => UnPinPage(s, k, dirty).0
    case FlushOp(file) => FlushFile(s, file).0
    case AllocOp(file) => AllocPage(s, file).0.sys
    case DisposeOp(k) => DisposePage(s, k).0
    case WriteOp(k, page) => Write(s, k, page)
  }

  /** The page an allocation returns. */
  ghost function NewKey(s: Sys, op: Op): Key
    requires Sound(s) && Allowed(s, op)
  {
    if op.AllocOp? then Key(op.file, AllocPage(s, op.file).1) else Key(NULL_FILE, 0)
  }

  /** The same step on the map from pages to contents, the new page and its content being observed. */
  ghost function MapStep(m: imap<Key, Image>, op: Op, k: Key, page: Image): imap<Key, Image> {
    match op
    case WriteOp(q, img) => m[q := img]
    case DisposeOp(q) => m - {q}
    case AllocOp(_) => m[k := page]
    case _ => m
  }

  /** And on the free lists: allocation pops, disposal pushes, nothing else touches them. */
  ghost function FreeStep(free: map<FileId, seq<int>>, op: Op): map<FileId, seq<int>> {
    match op
    case AllocOp(f) => if f in free then free[f := Tail(free[f])] else free
    case DisposeOp(q) => if q.file in free then free[q.file := [q.page] + free[q.file]] else free
    case _ => free
  }

  /** One step refines the map: no eviction, flush or allocation loses a write or meets a free page. */
  lemma StepRefines(s: Sys, op: Op)
    requires Inv(s) && Sound(s) && Allowed(s, op)
    ensures var t, k := Step(s, op), NewKey(s, op);
            && Inv(t) && Sound(t) && t.free == FreeStep(s.free, op)
            && (op.AllocOp? ==> IsLive(t, k) && k !in Meaning(s))
            && Meaning(t) == MapStep(Meaning(s), op, k, if IsLive(t, k) then Content(t, k) else ZeroPage())
  {
    hide FreeList, Extendable;
    match op
    case ReadOp(k) => ReadKeeps(s, k);
    case UnPinOp(k, dirty) => UnPinKeeps(s, k, dirty);
    case FlushOp(file) => FlushKeeps(s, file, 0);
    case AllocOp(file) => AllocKeepsInv(s, file);
    case DisposeOp(k) => DisposeKeepsInv(s, k);
    case WriteOp(k, page) => WriteKeepsInv(s, k, page);
  }

  ghost predicate AllowedRun(s: Sys, ops: seq<Op>)
    requires Inv(s) && Sound(s)
    decreases |ops|
  {
    ops == [] || (Allowed(s, ops[0]) && (StepRefines(s, ops[0]); AllowedRun(Step(s, ops[0]), ops[1..])))
  }

  ghost function Run(s: Sys, ops: seq<Op>): Sys
    requires Inv(s) && Sound(s) && AllowedRun(s, ops)
    decreases |ops|
  {
    if ops == [] then s else StepRefines(s, ops[0]); Run(Step(s, ops[0]), ops[1..])
  }

  ghost function MapRun(m: imap<Key, Image>, s: Sys, ops: seq<Op>): imap<Key, Image>
    requires Inv(s) && Sound(s) && AllowedRun(s, ops)
    decreases |ops|
  {
    if ops == [] then m
    else
      StepRefines(s, ops[0]);
      var t, k := Step(s, ops[0]), NewKey(s, ops[0]);
      MapRun(MapStep(m, ops[0], k, if IsLive(t, k) then Content(t, k) else ZeroPage()), t, ops[1..])
  }

  /** Over every run the pool is transparent and the files keep their free lists. */
  lemma {:induction false} RunRefines(s: Sys, ops: seq<Op>)
    requires Inv(s) && Sound(s) && AllowedRun(s, ops)
    ensures Inv(Run(s, ops)) && Sound(Run(s, ops))
    ensures Meaning(Run(s, ops)) == MapRun(Meaning(s), s, ops)
    decreases |ops|
  {
    hide Inv, Sound, Meaning;
    if ops != [] {
      StepRefines(s, ops[0]);
      RunRefines(Step(s, ops[0]), ops[1..]);
    }
  }
}
