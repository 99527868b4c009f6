/** buf.cpp itself: the buffer manager over its frame table, its pool and its hash table. */
module BufMgrs {
  import opened Statuses
  import opened Bytes
  import opened Records
  import opened Disk
  import opened BufHash
  import opened BufferPool
  import opened PageView
  import Page

  lemma NextHand(c: nat, n: nat)
    requires c < n
    ensures (c + 1) % n == if c + 1 == n then 0 else c + 1
  {
  }

  lemma PickStep(fs: seq<Frame>, hand: nat, k: nat)
    requires hand < |fs| && k < 2 * |fs|
    ensures Pick(fs, hand, k) == if Usable(fs, hand, k) then k else Pick(fs, hand, k + 1)
  {
  }

  /** An invalid frame is always found on the first lap. */
  lemma InvalidFound(fs: seq<Frame>, hand: nat)
    requires hand < |fs|
    ensures var k, n := Pick(fs, hand), |fs|;
            k < 2 * n && !fs[At(hand, n, k)].valid ==> k < n
  {
    var k, n := Pick(fs, hand), |fs|;
    if n <= k < 2 * n { assert !Usable(fs, hand, k - n); }
  }

  lemma EvictSound(s: Sys, v: nat)
    requires Sound(s) && v < |s.frames|
    ensures Sound(Evict(s, v))
  {
    forall i | 0 <= i < |s.frames| && s.frames[i].dirty
      ensures InFile(Evict(s, v).files, s.frames[i].Id())
    {
      assert InFile(s.files, s.frames[i].Id());
    }
  }

  lemma SweptSound(s: Sys, k: nat, hand: nat)
    requires Sound(s) && hand < |s.frames|
    ensures Sound(s.(frames := Swept(s.frames, s.hand, k), hand := hand))
  {
  }

  lemma SweptStep(fs: seq<Frame>, hand: nat, k: nat)
    requires hand < |fs| && k < 2 * |fs|
    ensures var i := At(hand, |fs|, k);
            && Swept(fs, hand, k)[i := Swept(fs, hand, k)[i].(refbit := false)] == Swept(fs, hand, k + 1)
            && (k >= |fs| || !fs[i].refbit ==> Swept(fs, hand, k + 1) == Swept(fs, hand, k))
            && Swept(fs, hand, k)[i] == (if k < |fs| then fs[i] else fs[i].(refbit := false))
  {
  }

  lemma AllocBufFacts(s: Sys)
    requires Sound(s)
    ensures var g := BufferPool.AllocBuf(s);
            && Sound(g.sys) && |g.sys.frames| == |s.frames| && g.sys.files.Keys == s.files.Keys
            && (if g.status == OK then 0 <= g.frame < |s.frames| else g.status == BUFFEREXCEEDED)
            && forall k :: k in g.sys.index ==> k in s.index
  {
    var k := Pick(s.frames, s.hand);
    if k < 2 * |s.frames| {
      var v := At(s.hand, |s.frames|, k);
      SweptSound(s, k, v);
      EvictSound(s.(frames := Swept(s.frames, s.hand, k), hand := v), v);
    } else {
      SweptSound(s, k, s.hand);
    }
  }

  lemma GrowFacts(s: Sys, file: FileId)
    requires Sound(s) && file in s.files && file in s.free && Extendable(s.files[file])
    ensures var (t, status, pageNo) := Grow(s, file);
            && Sound(t) && (status == OK ==> 0 <= pageNo) && |t.frames| == |s.frames|
            && (status == OK || status == UNIXERR)
  {
    hide GetInt, PutInt;
    GrowSound(s, file);
  }

  /** The hand after k advances. */
  function HandAt(hand: nat, n: nat, k: nat): nat
    requires hand < n && k <= 2 * n
  {
    if k == 0 then hand else At(hand, n, k - 1)
  }

  /** One advance of the hand: what allocBuf tests there, and what it leaves behind if it moves on. */
  lemma ClockStep(fs: seq<Frame>, hand: nat, k: nat)
    requires hand < |fs| && k < 2 * |fs|
    ensures (HandAt(hand, |fs|, k) + 1) % |fs| == HandAt(hand, |fs|, k + 1) == At(hand, |fs|, k) < |fs|
    ensures var i := At(hand, |fs|, k);
            var cur := Swept(fs, hand, k)[i];
            && cur.valid == fs[i].valid
            && (if !cur.valid || (!cur.refbit && cur.pinCnt == 0) then Pick(fs, hand, k) == k
                else && Pick(fs, hand, k) == Pick(fs, hand, k + 1)
                     && Swept(fs, hand, k + 1) ==
                          (if cur.refbit then Swept(fs, hand, k)[i := cur.(refbit := false)] else Swept(fs, hand, k)))
  {
    NextHand(HandAt(hand, |fs|, k), |fs|);
    SweptStep(fs, hand, k);
    PickStep(fs, hand, k);
  }

  lemma ClockEnds(fs: seq<Frame>, hand: nat)
    requires hand < |fs|
    ensures HandAt(hand, |fs|, 2 * |fs|) == hand && Pick(fs, hand, 2 * |fs|) == 2 * |fs|
    ensures Swept(fs, hand, 0) == fs
  {
  }

  /** The pages of the pool, zeroed. */
  method NewPool(bufs: nat) returns (pool: seq<array<Byte>>, ghost images: seq<Image>, ghost objects: set<object>)
    ensures |pool| == |images| == bufs && fresh(objects)
    ensures forall i :: 0 <= i < bufs ==> pool[i] in objects && pool[i].Length == PAGESIZE && pool[i][..] == images[i]
    ensures forall i, j :: 0 <= i < j < bufs ==> pool[i] != pool[j]
  {
    pool, images, objects := [], [], {};
    while |pool| < bufs
      invariant |images| == |pool| <= bufs && fresh(objects)
      invariant forall i :: 0 <= i < |pool| ==>
        pool[i] in objects && pool[i].Length == PAGESIZE && pool[i][..] == images[i]
      invariant forall i, j :: 0 <= i < j < |pool| ==> pool[i] != pool[j]
    {
      var page := new Byte[PAGESIZE](i => 0);
      pool, images, objects := pool + [page], images + [page[..]], objects + {page};
    }
  }

  /** The clock of allocBuf: the hand stops at a frame, or after two full laps. */
  method RunClock(bufTable: array<Frame>, hand: nat) returns (numScanned: nat, found: bool, clockHand: nat)
    requires hand < bufTable.Length
    modifies bufTable
    ensures var fs, n := old(bufTable[..]), bufTable.Length;
            var k := Pick(fs, hand);
            && numScanned == (if k == 2 * n then 2 * n else k + 1)
            && clockHand == (if k == 2 * n then hand else At(hand, n, k))
            && found == (k < 2 * n && fs[clockHand].valid)
            && bufTable[..] == Swept(fs, hand, k)
  {
    hide Pick, Swept, At, HandAt;
    ghost var fs, n := bufTable[..], bufTable.Length;
    ClockEnds(fs, hand);
    numScanned, found, clockHand := 0, false, hand;
    assert HandAt(hand, n, 0) == hand by { HandStart(hand, n); }
    while numScanned < 2 * bufTable.Length
      invariant 0 <= numScanned <= 2 * n && !found
      invariant clockHand == HandAt(hand, n, numScanned) < n
      invariant bufTable[..] == Swept(fs, hand, numScanned)
      invariant Pick(fs, hand, numScanned) == Pick(fs, hand)
    {
      ClockStep(fs, hand, numScanned);
      clockHand := (clockHand + 1) % bufTable.Length;
      assert bufTable[clockHand] == bufTable[..][clockHand];
      numScanned := numScanned + 1;
      if !bufTable[clockHand].valid { break; }
      if !bufTable[clockHand].refbit {
        if bufTable[clockHand].pinCnt == 0 {
          found := true;
          break;
        }
      } else {
        bufTable[clockHand] := bufTable[clockHand].(refbit := false);
      }
    }
  }

  lemma HandStart(hand: nat, n: nat)
    requires hand < n
    ensures HandAt(hand, n, 0) == hand
  {
  }

  lemma BlankSound(s: Sys)
    requires Shape(s) && s.index == map[] && forall i :: 0 <= i < |s.frames| ==> !s.frames[i].dirty
    ensures Sound(s)
  {
  }

  class BufMgr {
    const bufTable: array<Frame>
    const bufPool: seq<array<Byte>>
    const hashTable: BufHashTbl
    const disk: FileSystem
    var clockHand: nat

    ghost var mem: seq<Image>
    ghost var free: map<FileId, seq<int>>
    ghost var owed: set<Key>
    ghost var Repr: set<object>

    ghost function State(): Sys
      reads this, bufTable, hashTable, disk
    {
      Sys(bufTable[..], mem, hashTable.entries, clockHand, disk.files, free, owed)
    }

    ghost predicate Separate()
      reads this
    {
      && {this, bufTable, hashTable, disk} <= Repr
      && bufTable.Length == |bufPool| == |mem|
      && (forall i :: 0 <= i < |bufPool| ==> bufPool[i] in Repr && bufPool[i].Length == PAGESIZE)
      && (forall i, j :: 0 <= i < j < |bufPool| ==> bufPool[i] != bufPool[j])
    }

    ghost predicate Apart()
      reads this, hashTable
    {
      && hashTable.Repr <= Repr
      && this !in hashTable.Repr && bufTable !in hashTable.Repr && disk !in hashTable.Repr
      && (forall i :: 0 <= i < |bufPool| ==> bufPool[i] !in hashTable.Repr)
    }

    ghost predicate Valid()
      reads this, Repr
      ensures Valid() ==> this in Repr
    {
      && Separate() && Apart() && hashTable.Valid()
      && (forall i :: 0 <= i < |bufPool| ==> bufPool[i][..] == mem[i])
      && (forall i :: 0 <= i < bufTable.Length && bufTable[i].valid ==> Hashable(bufTable[i].Id()))
      && Sound(State())
    }

    constructor (bufs: nat, disk: FileSystem, ghost free: map<FileId, seq<int>>)
      requires 0 < bufs
      ensures Valid() && fresh(Repr - {disk}) && this.disk == disk
      ensures State() == Sys(State().frames, State().mem, map[], bufs - 1, disk.files, free, {})
      ensures |State().frames| == bufs
      ensures forall i :: 0 <= i < bufs ==> State().frames[i] == Frame(NULL_FILE, 0, 0, false, false, false)
    {
      var table := new Frame[bufs](i => Frame(NULL_FILE, 0, 0, false, false, false));
      bufTable := table;
      hashTable := new BufHashTbl(bufs * 12 / 10 + 1);
      var pool, images, objects := NewPool(bufs);
      bufPool, mem := pool, images;
      this.disk, this.free, owed, clockHand := disk, free, {}, bufs - 1;
      new;
      Repr := {this, bufTable, hashTable, disk} + hashTable.Repr + objects;
      hide Sound, BufHashTbl.Valid;
      BlankSound(State());
    }

    /** The frame under the hand gives up its page. */
    method Release(found: bool)
      requires Valid() && found == bufTable[clockHand].valid
      modifies Repr
      ensures Valid() && Repr == old(Repr)
      ensures clockHand == old(clockHand) && State() == Evict(old(State()), clockHand)
    {
      ghost var s := State();
      EvictSound(s, clockHand);
      if found {
        var ignored := hashTable.Remove(bufTable[clockHand].Id());
      }
      if bufTable[clockHand].dirty {
        var f := bufTable[clockHand];
        assert InFile(s.files, f.Id());
        var ignored := disk.WritePage(f.file, f.page, bufPool[clockHand][..]);
      }
    }

    /** allocBuf: the victim leaves the index and goes to disk if dirty. */
    method AllocBuf() returns (status: Status, frame: int)
      requires Valid()
      modifies Repr
      ensures Valid() && Repr == old(Repr)
      ensures var g := BufferPool.AllocBuf(old(State()));
              status == g.status && State() == g.sys && (status == OK ==> frame == g.frame)
    {
      hide Pick, Swept, Evict;
      ghost var s := State();
      InvalidFound(s.frames, s.hand);
      var numScanned, found;
      numScanned, found, clockHand := RunClock(bufTable, clockHand);
      SweptSound(s, Pick(s.frames, s.hand), clockHand);
      if !found && numScanned >= 2 * bufTable.Length { return BUFFEREXCEEDED, 0; }
      Release(found);
      return OK, clockHand;
    }

    /** The bytes of a page arrive in a frame. */
    method Load(v: nat, page: Image)
      requires Valid() && v < |bufPool|
      modifies bufPool[v], this`mem
      ensures Valid() && State() == old(State()).(mem := old(mem)[v := page])
    {
      CopyTo(bufPool[v], 0, page);
      assert bufPool[v][..] == page;
      mem := mem[v := page];
    }

    /** One descriptor changes. */
    method SetDesc(i: nat, f: Frame)
      requires Valid() && i < |bufPool|
      requires f.valid ==> Hashable(f.Id())
      requires f.dirty ==> InFile(disk.files, f.Id())
      modifies bufTable
      ensures Valid() && State() == old(State()).(frames := old(State()).frames[i := f])
    {
      bufTable[i] := f;
    }

    /** The two components of the state that exist only for the proofs. */
    ghost method Note(fl: map<FileId, seq<int>>, o: set<Key>)
      requires Valid()
      modifies this`free, this`owed
      ensures Valid() && State() == old(State()).(free := fl, owed := o)
    {
      free, owed := fl, o;
    }

    method Enter(k: Key, v: nat) returns (status: Status)
      requires Valid() && Hashable(k) && v < |bufPool|
      modifies Repr
      ensures Valid() && fresh(Repr - old(Repr))
      ensures var s := old(State());
              if k in s.index then status == HASHTBLERROR && State() == s
              else status == OK && State() == s.(index := s.index[k := v])
    {
      HashInRange(k, hashTable.ht.Length);
      status := hashTable.Insert(k, v);
      Repr := Repr + hashTable.Repr;
    }

    method Forget(k: Key)
      requires Valid() && Hashable(k)
      modifies hashTable.Repr
      ensures Valid() && Repr == old(Repr)
      ensures State() == old(State()).(index := old(State()).index - {k})
    {
      HashInRange(k, hashTable.ht.Length);
      var ignored := hashTable.Remove(k);
    }

    method Find(k: Key) returns (status: Status, frameNo: int)
      requires Valid() && Hashable(k)
      ensures if k in State().index then status == OK && frameNo == State().index[k] else status == HASHNOTFOUND
    {
      HashInRange(k, hashTable.ht.Length);
      status, frameNo := hashTable.Lookup(k);
    }

    lemma Facts()
      requires Valid()
      ensures Sound(State()) && |State().frames| == bufTable.Length == |bufPool|
      ensures forall i :: 0 <= i < |bufPool| && State().frames[i].valid ==> Hashable(State().frames[i].Id())
      ensures {this, bufTable, hashTable, disk} <= Repr && hashTable.Repr <= Repr
      ensures forall i :: 0 <= i < |bufPool| ==>
        bufPool[i] in Repr && bufPool[i].Length == PAGESIZE && bufPool[i][..] == State().mem[i]
    {
    }

    lemma FramesApart()
      requires Valid()
      ensures forall i, j :: 0 <= i < |bufPool| && 0 <= j < |bufPool| && i != j ==> bufPool[i] != bufPool[j]
    {
    }

    method ReadPage(k: Key, page0: array?<Byte>) returns (status: Status, page: array?<Byte>)
      requires Valid() && Hashable(k) && k.file in disk.files
      modifies Repr
      ensures Valid() && fresh(Repr - old(Repr))
      ensures var g := BufferPool.ReadPage(old(State()), k);
              status == g.status && State() == g.sys
              && page == if status == OK then bufPool[g.frame] else page0
      ensures status == OK ==> exists i :: 0 <= i < |bufPool| && page == bufPool[i] && bufTable[i].refbit
    {
      hide BufferPool.AllocBuf, Valid;
      ghost var s := State();
      Facts();
      var frameNo;
      status, frameNo := Find(k);
      if status == OK {
        SetDesc(frameNo, bufTable[frameNo].(refbit := true, pinCnt := bufTable[frameNo].pinCnt + 1));
        return OK, bufPool[frameNo];
      }
      AllocBufFacts(s);
      status, frameNo := AllocBuf();
      if status != OK { return status, page0; }
      Facts();
      var image;
      status, image := disk.ReadPage(k.file, k.page, bufPool[frameNo][..]);
      if status != OK { return status, page0; }
      Load(frameNo, image);
      SetDesc(frameNo, SetFrame(k));
      status := Enter(k, frameNo);
      return status, bufPool[frameNo];
    }

    method UnPinPage(k: Key, dirty: bool) returns (status: Status)
      requires Valid() && Hashable(k)
      requires dirty && k in State().index ==> InFile(disk.files, bufTable[State().index[k]].Id())
      modifies Repr
      ensures Valid() && Repr == old(Repr)
      ensures (State(), status) == BufferPool.UnPinPage(old(State()), k, dirty)
    {
      hide Valid;
      ghost var s := State();
      Facts();
      var frameNo;
      status, frameNo := Find(k);
      if status != OK { return; }
      if dirty {
        SetDesc(frameNo, bufTable[frameNo].(dirty := true));
        Note(free, owed - {k});
      }
      if bufTable[frameNo].pinCnt == 0 {
        assert State().frames == s.frames[frameNo := s.frames[frameNo].(dirty := s.frames[frameNo].dirty || dirty)];
        return PAGENOTPINNED;
      }
      SetDesc(frameNo, bufTable[frameNo].(pinCnt := bufTable[frameNo].pinCnt - 1));
      assert State().frames == s.frames[frameNo := State().frames[frameNo]];
    }

    /** Frame i of the file being flushed. */
    method FlushOne(i: nat)
      requires Valid() && i < |bufPool| && bufTable[i].valid
      modifies Repr
      ensures Valid() && Repr == old(Repr)
      ensures State() == FlushFrame(old(State()), i)
    {
      ghost var s := State();
      FlushFrameSound(s, i);
      var f := bufTable[i];
      if f.dirty {
        assert InFile(s.files, f.Id());
        var ignored := disk.WritePage(f.file, f.page, bufPool[i][..]);
      }
      var ignored := hashTable.Remove(f.Id());
      bufTable[i] := f.(file := NULL_FILE, page := -1, valid := false, dirty := false);
    }

    method FlushFile(file: FileId) returns (status: Status)
      requires Valid()
      modifies Repr
      ensures Valid() && Repr == old(Repr)
      ensures (State(), status) == BufferPool.FlushFile(old(State()), file)
    {
      hide Valid;
      ghost var s := State();
      Facts();
      for i := 0 to bufTable.Length
        invariant Valid() && Repr == old(Repr)
        invariant Sound(State()) && |State().frames| == bufTable.Length
        invariant FlushFrom(State(), file, i) == FlushFrom(s, file, 0)
      {
        Facts();
        if bufTable[i].valid && bufTable[i].file == file {
          if bufTable[i].pinCnt > 0 { return PAGEPINNED; }
          FlushFrameSound(State(), i);
          FlushOne(i);
        } else if !bufTable[i].valid && bufTable[i].file == file {
          return BADBUFFER;
        }
      }
      status := OK;
    }

    method DisposePage(k: Key) returns (status: Status)
      requires Valid() && Hashable(k) && Counted(disk.files, k.file) && k.file in free
      modifies Repr
      ensures Valid() && Repr == old(Repr)
      ensures (State(), status) == BufferPool.DisposePage(old(State()), k)
    {
      hide Valid, Disk.Dispose;
      ghost var s := State();
      Facts();
      var frameNo;
      status, frameNo := Find(k);
      if status == OK {
        SetDesc(frameNo, bufTable[frameNo].Cleared());
        Note(free, owed - {k});
      }
      assert k !in s.index ==> s.index - {k} == s.index;
      Forget(k);
      assert State() == Drop(s, k);
      status := DisposeOnDisk(k);
    }

    method DisposeOnDisk(k: Key) returns (status: Status)
      requires Valid() && Counted(disk.files, k.file) && k.file in free
      modifies Repr
      ensures Valid() && Repr == old(Repr)
      ensures var s := old(State());
              var (st, ps) := Disk.Dispose(s.files[k.file], k.page);
              && status == st
              && State() == s.(files := s.files[k.file := ps],
                               free := if st == OK then s.free[k.file := [k.page] + s.free[k.file]] else s.free)
    {
      ghost var s := State();
      status := disk.DisposePage(k.file, k.page);
      if status == OK { free := free[k.file := [k.page] + free[k.file]]; }
    }

    method AllocatePage(file: FileId) returns (status: Status, pageNo: int)
      requires Valid() && file in disk.files && file in free && Extendable(disk.files[file])
      modifies Repr
      ensures Valid() && Repr == old(Repr)
      ensures (State(), status, pageNo) == Grow(old(State()), file)
    {
      hide Allocate, Extendable;
      GrowSound(State(), file);
      status, pageNo := disk.AllocatePage(file);
      free := free[file := Tail(free[file])];
    }

    method AllocPage(file: FileId, page0: array?<Byte>) returns (status: Status, pageNo: int, page: array?<Byte>)
      requires Valid() && file in disk.files && file in free && Extendable(disk.files[file])
      requires 0 <= file
      modifies Repr
      ensures Valid() && fresh(Repr - old(Repr))
      ensures var (g, p) := BufferPool.AllocPage(old(State()), file);
              && status == g.status && pageNo == p && State() == g.sys
              && page == if status == OK || status == HASHTBLERROR then bufPool[g.frame] else page0
    {
      hide Valid, BufferPool.AllocBuf, Grow;
      page := page0;
      Facts();
      GrowFacts(State(), file);
      status, pageNo := AllocatePage(file);
      if status != OK { return; }
      ghost var t := State();
      Facts();
      AllocBufFacts(t);
      var frameNo;
      status, frameNo := AllocBuf();
      if status != OK { return; }
      Facts();
      ghost var u := State();
      assert u.mem[frameNo := u.mem[frameNo]] == u.mem;
      SetDesc(frameNo, SetFrame(Key(file, pageNo)));
      page := bufPool[frameNo];
      status := Enter(Key(file, pageNo), frameNo);
      if status == OK { Note(free, owed + {Key(file, pageNo)}); }
    }

    /** The destructor: every valid dirty frame is written out. */
    method ShutDown()
      requires Valid()
      modifies Repr
      ensures disk.files == BufferPool.ShutDown(old(State()))
    {
      hide Valid;
      ghost var s := State();
      Facts();
      for i := 0 to bufTable.Length
        invariant Valid() && Sound(State()) && |State().frames| == bufTable.Length && Repr == old(Repr)
        invariant State() == s.(files := State().files)
        invariant BufferPool.ShutDown(State(), i) == BufferPool.ShutDown(s)
      {
        Facts();
        if bufTable[i].valid && bufTable[i].dirty { WriteOut(i); }
      }
    }

    method WriteOut(i: nat)
      requires Valid() && i < |bufPool| && bufTable[i].dirty
      modifies disk
      ensures Valid() && InFile(old(disk.files), bufTable[i].Id())
      ensures State() == old(State()).(files := WriteBack(old(disk.files), bufTable[i].Id(), mem[i]))
      ensures Sound(State())
    {
      ghost var s := State();
      var f := bufTable[i];
      assert InFile(s.files, f.Id());
      var ignored := disk.WritePage(f.file, f.page, bufPool[i][..]);
      forall j | 0 <= j < |s.frames| && s.frames[j].dirty
        ensures InFile(disk.files, s.frames[j].Id())
      {
        assert InFile(s.files, s.frames[j].Id());
      }
    }

    // ---------- stores of a client through its Page pointer ----------

    /** The client has changed the bytes of frame i, which holds k, and nothing else. */
    ghost method Stored(k: Key, i: nat)
      requires Separate() && Apart() && hashTable.Valid() && Sound(State())
      requires forall j :: 0 <= j < bufTable.Length && bufTable[j].valid ==> Hashable(bufTable[j].Id())
      requires k in State().index && i == State().index[k]
      requires forall j :: 0 <= j < |bufPool| && j != i ==> bufPool[j][..] == mem[j]
      modifies this`mem, this`owed
      ensures Valid() && State() == Write(old(State()), k, bufPool[i][..])
    {
      mem, owed := mem[i := bufPool[i][..]], if bufTable[i].dirty then owed else owed + {k};
    }

    /** page is the frame that holds k. */
    ghost predicate Holds(k: Key, page: array<Byte>)
      reads this, hashTable
    {
      k in hashTable.entries && 0 <= hashTable.entries[k] < |bufPool| && page == bufPool[hashTable.entries[k]]
    }

    method InitPage(k: Key, page: array<Byte>, pageNo: int)
      requires Valid() && Holds(k, page) && IsInt(pageNo)
      modifies page, this`mem, this`owed
      ensures Valid() && State() == Write(old(State()), k, page[..])
      ensures Page.WellFormed(page[..]) && Page.ViewOf(page[..]) == Fresh(pageNo)
    {
      hide Page.WellFormed, Page.ViewOf;
      Page.Init(page, pageNo);
      Stored(k, hashTable.entries[k]);
    }

    method LinkPage(k: Key, page: array<Byte>, next: int)
      requires Valid() && Holds(k, page) && Page.WellFormed(page[..]) && IsInt(next)
      modifies page, this`mem, this`owed
      ensures Valid() && State() == Write(old(State()), k, page[..])
      ensures Page.WellFormed(page[..]) && Page.ViewOf(page[..]) == Page.ViewOf(old(page[..])).(next := next)
    {
      hide Page.WellFormed, Page.ViewOf;
      var ignored := Page.SetNextPage(page, next);
      Stored(k, hashTable.entries[k]);
    }

    method InsertInto(k: Key, page: array<Byte>, rec: seq<Byte>) returns (status: Status, rid: RID)
      requires Valid() && Holds(k, page) && Page.WellFormed(page[..])
      modifies page, this`mem, this`owed
      ensures Valid() && Page.WellFormed(page[..])
      ensures status == if Fits(Page.ViewOf(old(page[..])), rec) then OK else NOSPACE
      ensures status == NOSPACE ==> State() == old(State())
      ensures status == OK ==>
        && State() == Write(old(State()), k, page[..])
        && Page.ViewOf(page[..]) == Insert(Page.ViewOf(old(page[..])), rec)
        && rid == RID(Page.ViewOf(old(page[..])).cur, FirstFree(Page.ViewOf(old(page[..])).slots))
    {
      hide Page.WellFormed, Page.ViewOf;
      status, rid := Page.InsertRecord(page, rec);
      if status == OK { Stored(k, hashTable.entries[k]); }
    }

    method DeleteFrom(k: Key, page: array<Byte>, rid: RID) returns (status: Status)
      requires Valid() && Holds(k, page) && Page.WellFormed(page[..]) && 0 <= rid.slotNo
      modifies page, this`mem, this`owed
      ensures Valid() && Page.WellFormed(page[..])
      ensures status == if PageView.Live(Page.ViewOf(old(page[..])), rid.slotNo) then OK else INVALIDSLOTNO
      ensures status == INVALIDSLOTNO ==> State() == old(State())
      ensures status == OK ==>
        && State() == Write(old(State()), k, page[..])
        && Page.ViewOf(page[..]) == Delete(Page.ViewOf(old(page[..])), rid.slotNo)
    {
      hide Page.WellFormed, Page.ViewOf;
      status := Page.DeleteRecord(page, rid);
      if status == OK { Stored(k, hashTable.entries[k]); }
    }

    method StoreField(k: Key, page: array<Byte>, o: int, x: int)
      requires Valid() && Holds(k, page) && page.Length == PAGESIZE && 0 <= o <= PAGESIZE - 4 && IsInt(x)
      modifies page, this`mem, this`owed
      ensures Valid() && State() == Write(old(State()), k, page[..])
      ensures page[..] == PutInt(old(page[..]), o, x)
    {
      StoreInt(page, o, x);
      Stored(k, hashTable.entries[k]);
    }
  }
}
