/**
 What the reference bits do: the state that allocBuf leaves, the bit that a page
 gets when it is read or allocated, and the second chance it gives the page.
 */
module SecondChance {
  import opened Statuses
  import opened Disk
  import opened BufHash
  import opened BufferPool
  import opened Transparency

  /** The hand has come past frame i on its way to the frame k + 1 steps ahead, or round to it a second time. */
  predicate Passed(s: Sys, k: nat, i: nat)
    requires s.hand < |s.frames|
  {
    exists j: nat :: j < k && j < |s.frames| && Stop(s, j) == i
  }

  /** The frame under the hand after j + 1 steps. */
  function Stop(s: Sys, j: nat): nat
    requires s.hand < |s.frames|
  {
    (s.hand + 1 + j) % |s.frames|
  }

  /** Frame i when the hand has stopped: its bit is clear if the hand has come past it. */
  function Swung(s: Sys, i: nat): Frame
    requires s.hand < |s.frames| && i < |s.frames|
  {
    s.frames[i].(refbit := s.frames[i].refbit && !Passed(s, Pick(s.frames, s.hand), i))
  }

  lemma PassedExact(s: Sys, k: nat, i: nat)
    requires s.hand < |s.frames| && i < |s.frames|
    ensures Passed(s, k, i) <==> Advances(s.hand, |s.frames|, i) < k
  {
    var n, a := |s.frames|, Advances(s.hand, |s.frames|, i);
    ClockOrder(s.hand, n, a, i);
    assert Stop(s, a) == i;
    if j: nat :| j < k && j < n && Stop(s, j) == i { ClockOrder(s.hand, n, j, i); }
  }

  /**
   allocBuf to the last bit: the hand stops at the victim, having cleared the bits
   of exactly the frames it has passed; only the victim leaves the index, and only
   its page is written, if it is dirty.  Without a victim the hand is back where it
   was and every bit is clear.
   */
  lemma AllocBufExact(s: Sys, i: nat)
    requires Sound(s) && i < |s.frames|
    ensures var g, k := AllocBuf(s), Pick(s.frames, s.hand);
            && |g.sys.frames| == |s.frames| && g.sys.mem == s.mem && g.sys.free == s.free && g.sys.owed == s.owed
            && g.sys.frames[i] == Swung(s, i)
            && if k == 2 * |s.frames| then
                 && g.status == BUFFEREXCEEDED && g.sys.hand == s.hand && !g.sys.frames[i].refbit
                 && g.sys.index == s.index && g.sys.files == s.files
               else
                 && g.status == OK && g.frame == g.sys.hand == Stop(s, k)
                 && var v := s.frames[g.frame];
                    && g.sys.index == (if v.valid then s.index - {v.Id()} else s.index)
                    && (v.dirty ==> InFile(s.files, v.Id()))
                    && g.sys.files == (if v.dirty then WriteBack(s.files, v.Id(), s.mem[g.frame]) else s.files)
  {
    var n, k := |s.frames|, Pick(s.frames, s.hand);
    PassedExact(s, k, i);
    ClockOrder(s.hand, n, if k < 2 * n then k else 0, i);
  }

  /** Reading a page sets its bit; no other bit changes but those the hand passes on the way to a frame. */
  lemma ReadSetsBit(s: Sys, k: Key, j: nat)
    requires Sound(s) && k.file in s.files && j < |s.frames|
    ensures var g := ReadPage(s, k);
            g.status == OK ==>
              && 0 <= g.frame < |g.sys.frames| == |s.frames| && g.sys.frames[g.frame].refbit
              && (k in s.index ==>
                    g.frame == s.index[k] && g.sys.hand == s.hand && (j != g.frame ==> g.sys.frames[j] == s.frames[j]))
              && (k !in s.index ==>
                    && g.sys.hand == g.frame == Stop(s, Pick(s.frames, s.hand)) && g.sys.frames[g.frame] == SetFrame(k)
                    && (j != g.frame ==> g.sys.frames[j] == Swung(s, j)))
  {
    hide AllocBuf, Pick, Passed, Writable;
    if k !in s.index { AllocBufExact(s, j); }
  }

  /** So does the allocation of a page. */
  lemma AllocSetsBit(s: Sys, file: FileId, j: nat)
    requires Sound(s) && file in s.files && file in s.free && Extendable(s.files[file]) && j < |s.frames|
    ensures var g := AllocPage(s, file).0;
            g.status == OK ==>
              && 0 <= g.frame < |g.sys.frames| == |s.frames| && g.sys.frames[g.frame].refbit
              && g.sys.hand == g.frame == Stop(s, Pick(s.frames, s.hand))
              && (j != g.frame ==> g.sys.frames[j] == Swung(s, j))
  {
    hide AllocBuf, Pick, Allocate, Extendable, Writable;
    GrowSound(s, file);
    var t := Grow(s, file).0;
    AllocBufExact(t, j);
    assert Passed(t, Pick(s.frames, s.hand), j) <==> Passed(s, Pick(s.frames, s.hand), j) by {
      PassedExact(s, Pick(s.frames, s.hand), j);
      PassedExact(t, Pick(s.frames, s.hand), j);
    }
  }

  /** The first lap takes the frame: it is invalid, or unpinned with a clear bit. */
  predicate Easy(f: Frame) { !f.valid || (f.pinCnt == 0 && !f.refbit) }

  /** A valid frame whose bit is set is the victim only if no other frame can be taken on the first lap. */
  lemma NotVictim(s: Sys, i: nat, j: nat)
    requires Sound(s) && i < |s.frames| && j < |s.frames| && s.frames[i].valid && s.frames[i].refbit
    requires Easy(s.frames[j])
    ensures AllocBuf(s).status == OK && AllocBuf(s).frame != i
  {
    var n, k, a := |s.frames|, Pick(s.frames, s.hand), Advances(s.hand, |s.frames|, j);
    ClockOrder(s.hand, n, a, j);
    assert Usable(s.frames, s.hand, a);
  }

  // ---------- over a run ----------

  /** The operation needs no frame and does not take page k out of the pool. */
  ghost predicate Leaves(s: Sys, op: Op, k: Key) {
    match op
    case ReadOp(q) => q in s.index
    case UnPinOp(_, _) => true
    case WriteOp(_, _) => true
    case FlushOp(file) => file != k.file
    case DisposeOp(q) => q != k
    case AllocOp(_) => false
  }

  /** Page k is in frame i, and its bit is set. */
  ghost predicate Marked(s: Sys, k: Key, i: nat) {
    && i < |s.frames| && k in s.index && s.index[k] == i
    && s.frames[i].valid && s.frames[i].Id() == k && s.frames[i].refbit
  }

  lemma {:induction false} FlushLeaves(s: Sys, file: FileId, j: nat, k: Key, i: nat)
    requires Sound(s) && j <= |s.frames| && Marked(s, k, i) && k.file != file
    ensures Marked(FlushFrom(s, file, j).0, k, i)
    decreases |s.frames| - j
  {
    if j < |s.frames| {
      var f := s.frames[j];
      if f.valid && f.file == file {
        if f.pinCnt == 0 {
          FlushFrameSound(s, j);
          FlushLeaves(FlushFrame(s, j), file, j + 1, k, i);
        }
      } else if f.valid || f.file != file {
        FlushLeaves(s, file, j + 1, k, i);
      }
    }
  }

  lemma StepLeaves(s: Sys, op: Op, k: Key, i: nat)
    requires Inv(s) && Sound(s) && Allowed(s, op) && Leaves(s, op, k) && Marked(s, k, i)
    ensures Marked(Step(s, op), k, i)
  {
    hide FreeList, Disk.Dispose;
    match op
    case FlushOp(file) => FlushLeaves(s, file, 0, k, i);
    case DisposeOp(q) => if q in s.index { assert EntryOk(s, q); }
    case _ =>
  }

  ghost predicate AllLeave(s: Sys, ops: seq<Op>, k: Key)
    requires Inv(s) && Sound(s) && AllowedRun(s, ops)
    decreases |ops|
  {
    ops == [] ||
    (Leaves(s, ops[0], k) && (StepRefines(s, ops[0]); AllLeave(Step(s, ops[0]), ops[1..], k)))
  }

  /** Whatever the clients do short of needing a frame, the page keeps its place and its bit. */
  lemma {:induction false} RunLeaves(s: Sys, ops: seq<Op>, k: Key, i: nat)
    requires Inv(s) && Sound(s) && AllowedRun(s, ops) && AllLeave(s, ops, k) && Marked(s, k, i)
    ensures Sound(Run(s, ops)) && Marked(Run(s, ops), k, i)
    decreases |ops|
  {
    hide Inv, Sound, Leaves, Marked, Step;
    if ops != [] {
      StepRefines(s, ops[0]);
      StepLeaves(s, ops[0], k, i);
      RunLeaves(Step(s, ops[0]), ops[1..], k, i);
    }
  }

  /**
   Second chance: from the moment a page is read until a frame is needed next, its
   last unpin included, the page is not the one to go as long as some other frame
   is invalid, or unpinned with a clear bit.
   */
  lemma SecondChance(s: Sys, k: Key, ops: seq<Op>, j: nat)
    requires Inv(s) && Sound(s) && IsLive(s, k) && ReadPage(s, k).status == OK
    ensures Inv(ReadPage(s, k).sys) && Sound(ReadPage(s, k).sys)
    ensures var g := ReadPage(s, k);
            AllowedRun(g.sys, ops) && AllLeave(g.sys, ops, k) ==>
              var u := Run(g.sys, ops);
              && Sound(u) && k in u.index && u.index[k] == g.frame
              && (j < |u.frames| && Easy(u.frames[j]) ==> AllocBuf(u).status == OK && AllocBuf(u).frame != g.frame)
  {
    hide AllocBuf, FreeList, FrameOk, Run, AllLeave, AllowedRun, Writable, FilesOk;
    ReadKeeps(s, k);
    var g := ReadPage(s, k);
    assert EntryOk(g.sys, k);
    ReadSetsBit(s, k, 0);
    if AllowedRun(g.sys, ops) && AllLeave(g.sys, ops, k) {
      RunLeaves(g.sys, ops, k, g.frame);
      var u := Run(g.sys, ops);
      if j < |u.frames| && Easy(u.frames[j]) { NotVictim(u, g.frame, j); }
    }
  }
}
