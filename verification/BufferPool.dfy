/**
 buf.cpp as functions of the state of the buffer pool and of the files behind it,
 and the clock of allocBuf as an instance of second chance.
 */
module BufferPool {
  import opened Statuses
  import opened Bytes
  import opened Disk
  import opened BufHash

  datatype Frame = Frame(file: FileId, page: int, pinCnt: nat, dirty: bool, valid: bool, refbit: bool) {
    function Id(): Key { Key(file, page) }

    /** BufDesc::Clear. */
    function Cleared(): Frame {
      this.(pinCnt := 0, file := NULL_FILE, page := -1, dirty := false, valid := false)
    }
  }

  /** BufDesc::Set. */
  function SetFrame(k: Key): Frame { Frame(k.file, k.page, 1, false, true, true) }

  /**
   The pool and the files.  Two components exist only for the proofs: the free
   list of every file, and the pages a client has changed in the pool without
   having said so yet by unpinning them as dirty.
   */
  datatype Sys = Sys(
    frames: seq<Frame>, mem: seq<Image>, index: map<Key, int>, hand: nat,
    files: Files, free: map<FileId, seq<int>>, owed: set<Key>)

  predicate Shape(s: Sys) {
    s.hand < |s.frames| == |s.mem|
  }

  // ---------- the clock ----------

  /** The frame reached after k + 1 advances of the hand, k < 2n. */
  function At(hand: nat, n: nat, k: nat): nat
    requires hand < n && k < 2 * n
  {
    var t := hand + 1 + k;
    if t < n then t else if t < 2 * n then t - n else t - 2 * n
  }

  /** The advances needed to reach frame i for the first time, less one. */
  function Advances(hand: nat, n: nat, i: nat): nat
    requires hand < n && i < n
  {
    if i > hand then i - hand - 1 else i + n - hand - 1
  }

  /** The hand goes round the frames upwards and comes to each once in a lap. */
  lemma ClockOrder(hand: nat, n: nat, k: nat, i: nat)
    requires hand < n && k < 2 * n && i < n
    ensures At(hand, n, k) == (hand + 1 + k) % n
    ensures Advances(hand, n, i) < n && (hand + 1 + Advances(hand, n, i)) % n == i
    ensures At(hand, n, k) == i <==> k == Advances(hand, n, i) || k == Advances(hand, n, i) + n
  {
    var t := hand + 1 + k;
    ModIs(t, n, if t < n then 0 else if t < 2 * n then 1 else 2, At(hand, n, k));
    ModIs(hand + 1 + Advances(hand, n, i), n, if i > hand then 0 else 1, i);
  }

  lemma ModIs(t: int, n: int, q: int, r: int)
    requires t == q * n + r && 0 <= r < n
    ensures t % n == r
  {
    var d, m := t / n, t % n;
    Apart(n, q, d, r - m) by {
      calc {
        (d - q) * n;
        d * n - q * n;
        { assert t == d * n + m; }
        r - m;
      }
    }
  }

  lemma Apart(n: int, q: int, d: int, e: int)
    requires n > 0 && (d - q) * n == e && -n < e < n
    ensures e == 0
  {
    Spread(d - q, n);
  }

  /** On the first lap a set reference bit saves a frame; on the second only a pin does. */
  predicate Usable(fs: seq<Frame>, hand: nat, k: nat)
    requires hand < |fs| && k < 2 * |fs|
  {
    var f := fs[At(hand, |fs|, k)];
    !f.valid || (f.pinCnt == 0 && (k >= |fs| || !f.refbit))
  }

  /** The first usable frame in clock order within two laps, or 2n. */
  function Pick(fs: seq<Frame>, hand: nat, k: nat := 0): (r: nat)
    requires hand < |fs| && k <= 2 * |fs|
    ensures k <= r <= 2 * |fs|
    ensures r < 2 * |fs| ==> Usable(fs, hand, r)
    ensures forall j :: k <= j < r ==> !Usable(fs, hand, j)
    decreases 2 * |fs| - k
  {
    if k < 2 * |fs| && !Usable(fs, hand, k) then Pick(fs, hand, k + 1) else k
  }

  /** The frames once the hand has passed over the first k of them. */
  function Swept(fs: seq<Frame>, hand: nat, k: nat): (r: seq<Frame>)
    requires hand < |fs|
    ensures |r| == |fs|
    ensures forall i :: 0 <= i < |fs| ==>
      r[i] == if Advances(hand, |fs|, i) < k then fs[i].(refbit := false) else fs[i]
  {
    seq(|fs|, i requires 0 <= i < |fs| => if Advances(hand, |fs|, i) < k then fs[i].(refbit := false) else fs[i])
  }

  predicate Replaceable(f: Frame) { !f.valid || f.pinCnt == 0 }

  /** The pool is exhausted exactly when every frame is valid and pinned. */
  lemma ClockFails(fs: seq<Frame>, hand: nat)
    requires hand < |fs|
    ensures Pick(fs, hand) == 2 * |fs| <==> forall i :: 0 <= i < |fs| ==> !Replaceable(fs[i])
  {
    var n := |fs|;
    if i :| 0 <= i < n && Replaceable(fs[i]) {
      var k := Advances(hand, n, i) + n;
      assert At(hand, n, k) == i && Usable(fs, hand, k);
    }
  }

  /**
   Otherwise the victim is the first frame in clock order that is invalid or
   unpinned with a clear reference bit; when the first lap finds none, all frames
   are valid and the victim is the first unpinned one.
   */
  lemma ClockPicks(fs: seq<Frame>, hand: nat, i: nat)
    requires hand < |fs| && Pick(fs, hand) < 2 * |fs| && i < |fs|
    ensures var k, n := Pick(fs, hand), |fs|;
            var v := At(hand, n, k);
            && Replaceable(fs[v])
            && (k < n ==> (fs[v].valid ==> !fs[v].refbit)
                          && (Advances(hand, n, i) < k ==> fs[i].valid && (fs[i].pinCnt > 0 || fs[i].refbit)))
            && (n <= k ==> fs[i].valid && (fs[i].pinCnt > 0 || fs[i].refbit)
                           && (Advances(hand, n, i) < k - n ==> fs[i].pinCnt > 0))
  {
    var k, n, p := Pick(fs, hand), |fs|, Advances(hand, |fs|, i);
    assert At(hand, n, p) == i && At(hand, n, p + n) == i;
    if p < k { assert !Usable(fs, hand, p); }
    if p + n < k { assert !Usable(fs, hand, p + n); }
  }

  // ---------- the operations ----------

  /** A dirty frame can be written back. */
  predicate Writable(s: Sys) {
    forall i :: 0 <= i < |s.frames| && s.frames[i].dirty ==> InFile(s.files, s.frames[i].Id())
  }

  predicate InFile(files: Files, k: Key) {
    k.file in files && 1 <= k.page < |files[k.file]|
  }

  predicate Sound(s: Sys) {
    && Shape(s) && Writable(s)
    && forall k :: k in s.index ==> 0 <= s.index[k] < |s.frames|
  }

  function WriteBack(files: Files, k: Key, page: Image): Files
    requires InFile(files, k)
  {
    files[k.file := WriteAt(files[k.file], k.page, page)]
  }

  datatype Got = Got(sys: Sys, status: Status, frame: int)

  /** The victim leaves the index and, if dirty, goes to disk; its frame keeps its old identity. */
  function Evict(s: Sys, v: nat): Sys
    requires Sound(s) && v < |s.frames|
  {
    var f := s.frames[v];
    s.(index := if f.valid then s.index - {f.Id()} else s.index,
       files := if f.dirty then WriteBack(s.files, f.Id(), s.mem[v]) else s.files)
  }

  function AllocBuf(s: Sys): Got
    requires Sound(s)
  {
    var n, k := |s.frames|, Pick(s.frames, s.hand);
    var t := s.(frames := Swept(s.frames, s.hand, k));
    if k == 2 * n then Got(t, BUFFEREXCEEDED, 0)
    else var v := At(s.hand, n, k); Got(Evict(t.(hand := v), v), OK, v)
  }

  /** A frame takes on a page; the index must not know the page yet. */
  function Install(s: Sys, v: nat, k: Key, page: Image): Got
    requires Shape(s) && v < |s.frames|
  {
    var t := s.(frames := s.frames[v := SetFrame(k)], mem := s.mem[v := page]);
    if k in s.index then Got(t, HASHTBLERROR, v) else Got(t.(index := s.index[k := v]), OK, v)
  }

  function Fetch(g: Got, k: Key): Got
    requires Shape(g.sys) && 0 <= g.frame < |g.sys.frames| && k.file in g.sys.files
  {
    if k.page < 1 then Got(g.sys, BADPAGENO, 0)
    else if k.page >= |g.sys.files[k.file]| then Got(g.sys, UNIXERR, 0)
    else Install(g.sys, g.frame, k, g.sys.files[k.file][k.page])
  }

  function Touch(s: Sys, i: nat): Sys
    requires i < |s.frames|
  {
    s.(frames := s.frames[i := s.frames[i].(refbit := true, pinCnt := s.frames[i].pinCnt + 1)])
  }

  function ReadPage(s: Sys, k: Key): Got
    requires Sound(s) && k.file in s.files
  {
    if k in s.index then Got(Touch(s, s.index[k]), OK, s.index[k])
    else
      var g := AllocBuf(s);
      if g.status != OK then g else Fetch(g, k)
  }

  function UnPinPage(s: Sys, k: Key, dirty: bool): (Sys, Status)
    requires Sound(s)
  {
    if k !in s.index then (s, HASHNOTFOUND)
    else
      var i := s.index[k];
      var f := s.frames[i].(dirty := s.frames[i].dirty || dirty);
      var t := s.(owed := if dirty then s.owed - {k} else s.owed);
      if f.pinCnt == 0 then (t.(frames := s.frames[i := f]), PAGENOTPINNED)
      else (t.(frames := s.frames[i := f.(pinCnt := f.pinCnt - 1)]), OK)
  }

  /**
   unPinPage, exit by exit: HASHNOTFOUND exactly for a page not in the pool,
   PAGENOTPINNED exactly for one that nobody pins, which is marked dirty all the
   same; no mark is ever taken back and no other frame changes.
   */
  lemma UnPinExact(s: Sys, k: Key, dirty: bool, i: nat)
    requires Sound(s) && i < |s.frames|
    ensures var (t, status) := UnPinPage(s, k, dirty);
            && (status == HASHNOTFOUND <==> k !in s.index)
            && (status == PAGENOTPINNED <==> k in s.index && s.frames[s.index[k]].pinCnt == 0)
            && (status == OK <==> k in s.index && s.frames[s.index[k]].pinCnt > 0)
            && t == s.(frames := t.frames, owed := t.owed) && |t.frames| == |s.frames|
            && t.frames[i] == s.frames[i].(pinCnt := t.frames[i].pinCnt, dirty := t.frames[i].dirty)
            && s.frames[i].pinCnt - t.frames[i].pinCnt == (if status == OK && s.index[k] == i then 1 else 0)
            && (t.frames[i].dirty <==> s.frames[i].dirty || (dirty && k in s.index && s.index[k] == i))
  {
  }

  /** Frame i of the file being flushed goes to disk if dirty, and out of the pool. */
  function FlushFrame(s: Sys, i: nat): Sys
    requires Sound(s) && i < |s.frames|
  {
    var f := s.frames[i];
    s.(frames := s.frames[i := f.(file := NULL_FILE, page := -1, valid := false, dirty := false)],
       index := s.index - {f.Id()},
       files := if f.dirty then WriteBack(s.files, f.Id(), s.mem[i]) else s.files)
  }

  lemma FlushFrameSound(s: Sys, i: nat)
    requires Sound(s) && i < |s.frames|
    ensures Sound(FlushFrame(s, i)) && |FlushFrame(s, i).frames| == |s.frames|
  {
  }

  function FlushFrom(s: Sys, file: FileId, i: nat): (Sys, Status)
    requires Sound(s) && i <= |s.frames|
    decreases |s.frames| - i
  {
    if i == |s.frames| then (s, OK)
    else
      var f := s.frames[i];
      if f.valid && f.file == file then
        if f.pinCnt > 0 then (s, PAGEPINNED)
        else FlushFrameSound(s, i); FlushFrom(FlushFrame(s, i), file, i + 1)
      else if !f.valid && f.file == file then (s, BADBUFFER)
      else FlushFrom(s, file, i + 1)
  }

  function FlushFile(s: Sys, file: FileId): (Sys, Status)
    requires Sound(s)
  {
    FlushFrom(s, file, 0)
  }

  predicate Counted(files: Files, file: FileId) {
    file in files && 1 <= |files[file]| && NumPages(files[file][0]) == |files[file]|
  }

  /** The frame of a page is cleared, whatever its state. */
  function Drop(s: Sys, k: Key): Sys
    requires Sound(s)
  {
    if k in s.index then
      s.(frames := s.frames[s.index[k] := s.frames[s.index[k]].Cleared()], index := s.index - {k}, owed := s.owed - {k})
    else s
  }

  function DisposePage(s: Sys, k: Key): (Sys, Status)
    requires Sound(s) && Counted(s.files, k.file) && k.file in s.free
  {
    var t := Drop(s, k);
    var (status, ps) := Disk.Dispose(s.files[k.file], k.page);
    (t.(files := s.files[k.file := ps],
        free := if status == OK then s.free[k.file := [k.page] + s.free[k.file]] else s.free), status)
  }

  function Tail(fl: seq<int>): seq<int> { if fl == [] then [] else fl[1..] }

  /** File::allocatePage on one of the files. */
  function Grow(s: Sys, file: FileId): (Sys, Status, int)
    requires file in s.files && file in s.free && Extendable(s.files[file])
  {
    var a := Allocate(s.files[file]);
    (s.(files := s.files[file := a.pages], free := s.free[file := Tail(s.free[file])]), a.status, a.pageNo)
  }

  lemma GrowSound(s: Sys, file: FileId)
    requires Sound(s) && file in s.files && file in s.free && Extendable(s.files[file])
    ensures Sound(Grow(s, file).0)
  {
    hide GetInt, PutInt, GetHalf, GetShort;
    forall i | 0 <= i < |s.frames| && s.frames[i].dirty
      ensures InFile(Grow(s, file).0.files, s.frames[i].Id())
    {
      assert InFile(s.files, s.frames[i].Id());
    }
  }

  /** The new frame is clean and holds whatever was there: the client owes it a dirty unpin. */
  function Adopt(g: Got, k: Key): Got
    requires Shape(g.sys) && 0 <= g.frame < |g.sys.frames|
  {
    var h := Install(g.sys, g.frame, k, g.sys.mem[g.frame]);
    if h.status == OK then h.(sys := h.sys.(owed := h.sys.owed + {k})) else h
  }

  function AllocPage(s: Sys, file: FileId): (Got, int)
    requires Sound(s) && file in s.files && file in s.free && Extendable(s.files[file])
  {
    var (t, status, pageNo) := Grow(s, file);
    if status != OK then (Got(t, status, 0), pageNo)
    else
      GrowSound(s, file);
      var g := AllocBuf(t);
      if g.status != OK then (g, pageNo) else (Adopt(g, Key(file, pageNo)), pageNo)
  }

  /** A client stores through its Page pointer. */
  function Write(s: Sys, k: Key, page: Image): Sys
    requires Sound(s) && k in s.index
  {
    var i := s.index[k];
    s.(mem := s.mem[i := page], owed := if s.frames[i].dirty then s.owed else s.owed + {k})
  }

  /** The destructor writes out every valid dirty frame. */
  function ShutDown(s: Sys, i: nat := 0): Files
    requires Sound(s) && i <= |s.frames|
    decreases |s.frames| - i
  {
    if i == |s.frames| then s.files
    else if s.frames[i].valid && s.frames[i].dirty then
      ShutDown(s.(files := WriteBack(s.files, s.frames[i].Id(), s.mem[i])), i + 1)
    else ShutDown(s, i + 1)
  }
}
