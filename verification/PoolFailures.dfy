/** Where buf.cpp itself breaks what the discipline of its clients protects, and exactly when. */
module PoolFailures {
  import opened Statuses
  import opened Bytes
  import opened Disk
  import opened BufHash
  import opened BufferPool
  import opened Transparency

  /** The index is exactly the inverse of the valid frames. */
  ghost predicate IndexAgrees(s: Sys) {
    && (forall i :: 0 <= i < |s.frames| && s.frames[i].valid ==> Indexed(s, i))
    && (forall k :: k in s.index ==> EntryOk(s, k))
  }

  ghost predicate Indexed(s: Sys, i: int)
    requires 0 <= i < |s.frames|
  {
    s.frames[i].Id() in s.index && s.index[s.frames[i].Id()] == i
  }

  lemma InvAgrees(s: Sys)
    requires Inv(s)
    ensures IndexAgrees(s)
  {
    forall i | 0 <= i < |s.frames| && s.frames[i].valid
      ensures Indexed(s, i)
    {
      assert FrameOk(s, i);
    }
  }

  /** A miss evicts before it reads, so it is safe only if the read will succeed or nothing was evicted. */
  predicate ReadSafe(s: Sys, k: Key)
    requires Sound(s) && k.file in s.files
  {
    || k in s.index
    || InFile(s.files, k)
    || Full(s)
    || (ClockFails(s.frames, s.hand); !s.frames[At(s.hand, |s.frames|, Pick(s.frames, s.hand))].valid)
  }

  lemma TouchAgrees(s: Sys, k: Key)
    requires Sound(s) && IndexAgrees(s) && k in s.index
    ensures IndexAgrees(Touch(s, s.index[k]))
  {
    var t := Touch(s, s.index[k]);
    forall i | 0 <= i < |t.frames| && t.frames[i].valid
      ensures Indexed(t, i)
    {
      assert Indexed(s, i);
    }
    forall q | q in t.index
      ensures EntryOk(t, q)
    {
      assert EntryOk(s, q);
    }
  }

  lemma BitsAgree(s: Sys, t: Sys)
    requires IndexAgrees(s) && OnlyBits(s, t)
    ensures IndexAgrees(t)
  {
    forall i | 0 <= i < |t.frames| && t.frames[i].valid
      ensures Indexed(t, i)
    {
      assert Indexed(s, i);
    }
    forall q | q in t.index
      ensures EntryOk(t, q)
    {
      assert EntryOk(s, q);
    }
  }

  /** Every frame but v is indexed, and the index does not name v. */
  ghost predicate AgreesBut(s: Sys, v: int) {
    && (forall i :: 0 <= i < |s.frames| && i != v && s.frames[i].valid ==> Indexed(s, i))
    && (forall k :: k in s.index ==> EntryOk(s, k) && s.index[k] != v)
  }

  lemma EvictAgrees(s: Sys, v: nat)
    requires Sound(s) && IndexAgrees(s) && v < |s.frames|
    ensures AgreesBut(Evict(s, v), v)
    ensures IndexAgrees(Evict(s, v)) <==> !s.frames[v].valid
  {
    var t := Evict(s, v);
    forall i | 0 <= i < |s.frames| && s.frames[i].valid
      ensures Indexed(s, i)
    {
    }
    forall q | q in s.index
      ensures EntryOk(s, q)
    {
    }
    if s.frames[v].valid { assert !Indexed(t, v); }
  }

  lemma AllocAgrees(s: Sys)
    requires Sound(s) && IndexAgrees(s)
    ensures var g := AllocBuf(s);
            && |g.sys.frames| == |s.frames| && Shape(g.sys) && g.sys.files.Keys == s.files.Keys
            && (forall f :: f in s.files ==> |g.sys.files[f]| == |s.files[f]|)
            && (forall q :: q in g.sys.index ==> q in s.index)
            && (g.status == OK <==> !Full(s)) && (g.status != OK ==> IndexAgrees(g.sys))
            && (g.status == OK ==>
                  && Pick(s.frames, s.hand) < 2 * |s.frames|
                  && g.frame == At(s.hand, |s.frames|, Pick(s.frames, s.hand)) < |s.frames| && AgreesBut(g.sys, g.frame)
                  && (IndexAgrees(g.sys) <==> !s.frames[g.frame].valid))
  {
    hide IndexAgrees, AgreesBut;
    ClockFails(s.frames, s.hand);
    var n, k := |s.frames|, Pick(s.frames, s.hand);
    var t := s.(frames := Swept(s.frames, s.hand, k));
    if k == 2 * n {
      BitsAgree(s, t);
    } else {
      var v := At(s.hand, n, k);
      BitsAgree(s, t.(hand := v));
      EvictAgrees(t.(hand := v), v);
    }
  }

  lemma FetchAgrees(g: Got, k: Key)
    requires Shape(g.sys) && 0 <= g.frame < |g.sys.frames| && AgreesBut(g.sys, g.frame)
    requires InFile(g.sys.files, k) && k !in g.sys.index
    ensures IndexAgrees(Fetch(g, k).sys)
  {
    var t := Fetch(g, k).sys;
    forall i | 0 <= i < |t.frames| && t.frames[i].valid
      ensures Indexed(t, i)
    {
      if i != g.frame { assert Indexed(g.sys, i); }
    }
    forall q | q in t.index
      ensures EntryOk(t, q)
    {
      if q != k { assert EntryOk(g.sys, q); }
    }
  }

  /**
   readPage keeps the index in agreement with the frames exactly when it is safe:
   reading a page number that is not in the file evicts a valid victim from the
   index and then leaves its frame valid.
   */
  lemma ReadAgreement(s: Sys, k: Key)
    requires Sound(s) && IndexAgrees(s) && k.file in s.files
    ensures IndexAgrees(ReadPage(s, k).sys) <==> ReadSafe(s, k)
  {
    hide AllocBuf, IndexAgrees, AgreesBut;
    if k in s.index {
      TouchAgrees(s, k);
    } else {
      AllocAgrees(s);
      var g := AllocBuf(s);
      if g.status == OK && InFile(s.files, k) { FetchAgrees(g, k); }
    }
  }

  /** A new file after two allocations. */
  function TwoPages(): (ps: seq<Image>)
    ensures |ps| == 3 && FreeList(ps, [])
  {
    var a := Create(ZeroPage());
    CreateKeeps(ZeroPage());
    OneMorePage(a);
    OneMorePage(Allocate(a).pages);
    Allocate(Allocate(a).pages).pages
  }

  lemma OneMorePage(ps: seq<Image>)
    requires FreeList(ps, []) && |ps| < MAX_PAGES
    ensures Extendable(ps) && FreeList(Allocate(ps).pages, []) && |Allocate(ps).pages| == |ps| + 1
  {
    AllocateKeeps(ps, []);
  }

  /** The second page of that file, disposed twice: each disposal is accepted, and no free list is left. */
  lemma DisposeTwiceExample()
    ensures var (one, ps) := Dispose(TwoPages(), 2);
            && one == OK && FreeList(ps, [2])
            && var (two, qs) := Dispose(ps, 2);
               two == OK && !exists fl :: FreeList(qs, fl)
  {
    hide TwoPages, Dispose;
    var ps := TwoPages();
    assert FreeList(ps, []) && Live(ps, [], 2);
    DisposeKeeps(ps, [], 2);
    DisposeSound(ps, [], 2);
    DisposeSound(Dispose(ps, 2).1, [2], 2);
  }

  lemma CountedPages()
    ensures NumPages(TwoPages()[0]) == 3
  {
    hide TwoPages;
    assert FreeList(TwoPages(), []);
  }

  /** A pool of one frame, which holds page 1 of that file, unpinned and clean. */
  function OneFrame(): Sys { Holding(TwoPages()[1], false) }

  /** The same with this content in the frame. */
  function Holding(page: Image, dirty: bool): Sys {
    Sys([Frame(1, 1, 0, dirty, true, false)], [page], map[Key(1, 1) := 0], 0,
        map[1 := TwoPages()], map[1 := []], {})
  }

  /** From a pool in order, reading page 9, which the file does not have,
    leaves page 1 valid but unknown to the index. */
  lemma FailedReadExample()
    ensures Inv(OneFrame()) && Sound(OneFrame()) && IndexAgrees(OneFrame())
    ensures ReadPage(OneFrame(), Key(1, 9)).status == UNIXERR && !IndexAgrees(ReadPage(OneFrame(), Key(1, 9)).sys)
  {
    hide FreeList, TwoPages;
    var s := OneFrame();
    assert FrameOk(s, 0);
    assert Inv(s);
    InvSound(s);
    InvAgrees(s);
    assert Replaceable(s.frames[0]);
    assert Pick(s.frames, s.hand) == 0;
    ReadAgreement(s, Key(1, 9));
  }

  /**
   disposePage clears the frame before the file can refuse.  Refused on the first
   page, it keeps the content of that page exactly when frame and disk agree.
   */
  lemma RefusedDispose(s: Sys, k: Key)
    requires Inv(s) && Sound(s) && IsLive(s, k) && k.page == 1 && Counted(s.files, k.file)
    ensures var (t, status) := DisposePage(s, k);
            && status == BADPAGENO && Inv(t) && Sound(t)
            && (Meaning(t) == Meaning(s) <==> Content(s, k) == s.files[k.file][k.page])
  {
    assert FreeList(s.files[k.file], s.free[k.file]);
    assert DisposePage(s, k).1 == BADPAGENO;
    DroppedMeaning(s, k);
    assert DisposePage(s, k).0 == Drop(s, k) by {
      assert s.files[k.file := s.files[k.file]] == s.files;
    }
  }

  /** Its first byte changed and not yet written back, page 1 of that file loses the change to a refused disposal. */
  lemma RefusedDisposeExample()
    ensures var disk := TwoPages()[1];
            var page := disk[0 := if disk[0] == 0 then 1 else 0];
            var s := Holding(page, true);
            && Inv(s) && Sound(s) && IsLive(s, Key(1, 1)) && Content(s, Key(1, 1)) == page
            && var (t, status) := DisposePage(s, Key(1, 1));
               && status == BADPAGENO && Sound(t) && IsLive(t, Key(1, 1)) && Content(t, Key(1, 1)) == disk != page
  {
    hide FreeList, TwoPages;
    var disk := TwoPages()[1];
    var page := disk[0 := if disk[0] == 0 then 1 else 0];
    var s := Holding(page, true);
    assert FrameOk(s, 0);
    assert Inv(s);
    InvSound(s);
    CountedPages();
    RefusedDispose(s, Key(1, 1));
  }

  lemma DroppedMeaning(s: Sys, k: Key)
    requires Inv(s) && Sound(s) && IsLive(s, k)
    ensures Inv(Drop(s, k)) && Sound(Drop(s, k))
    ensures Meaning(Drop(s, k)) == Meaning(s) <==> Content(s, k) == s.files[k.file][k.page]
  {
    hide FreeList, Inv;
    DropInv(s, k);
    assert k in Meaning(s) && k in Meaning(Drop(s, k));
    assert Meaning(Drop(s, k))[k] == s.files[k.file][k.page];
  }

  /**
   Evicting a valid frame keeps the content of its page exactly when the frame is
   dirty or agrees with the disk: a page unpinned as clean after a change is lost.
   */
  lemma EvictKeepsPage(s: Sys, v: nat)
    requires Sound(s) && v < |s.frames| && s.frames[v].valid && IsLive(s, s.frames[v].Id())
    requires Indexed(s, v)
    ensures var k, t := s.frames[v].Id(), Evict(s, v);
            && Sound(t) && IsLive(t, k)
            && (Content(t, k) == Content(s, k) <==> s.frames[v].dirty || s.mem[v] == s.files[k.file][k.page])
  {
    var t := Evict(s, v);
    forall i | 0 <= i < |t.frames| && t.frames[i].dirty
      ensures InFile(t.files, t.frames[i].Id())
    {
      assert InFile(s.files, s.frames[i].Id());
    }
  }
}
