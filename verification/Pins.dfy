/**
 When the buffer pool refuses a page: the pages that are pinned, against the
 number of frames.
 */
module Pins {
  import opened Statuses
  import opened Disk
  import opened BufHash
  import opened BufferPool
  import opened Transparency

  ghost function PinnedKeys(s: Sys): set<Key>
    requires Sound(s)
  {
    set k | k in s.index && PinCount(s, k) > 0
  }

  lemma PinnedIff(s: Sys)
    requires Sound(s)
    ensures forall k :: k in PinnedKeys(s) <==> PinCount(s, k) > 0
  {
  }

  /** The pages pinned in the first n frames. */
  ghost function PinnedBelow(s: Sys, n: nat): set<Key>
    requires Sound(s)
  {
    set k | k in s.index && PinCount(s, k) > 0 && s.index[k] < n
  }

  lemma {:induction false} CountBelow(s: Sys, n: nat)
    requires Inv(s) && Sound(s) && n <= |s.frames|
    ensures |PinnedBelow(s, n)| <= n
    ensures |PinnedBelow(s, n)| == n <==> forall i :: 0 <= i < n ==> !Replaceable(s.frames[i])
  {
    hide Inv, Sound, PinnedBelow, Replaceable;
    if n == 0 {
      NoneBelow(s);
    } else {
      CountBelow(s, n - 1);
      LastFrame(s, n - 1);
    }
  }

  lemma FramesInRange(s: Sys)
    requires Inv(s) && Sound(s)
    ensures forall k :: k in s.index ==> 0 <= s.index[k] < |s.frames|
  {
  }

  lemma NoneBelow(s: Sys)
    requires Inv(s) && Sound(s)
    ensures PinnedBelow(s, 0) == {}
  {
    FramesInRange(s);
  }

  /** Frame i holds one pinned page or none. */
  lemma LastFrame(s: Sys, i: nat)
    requires Inv(s) && Sound(s) && i < |s.frames|
    ensures Replaceable(s.frames[i]) ==> PinnedBelow(s, i + 1) == PinnedBelow(s, i)
    ensures !Replaceable(s.frames[i]) ==>
      PinnedBelow(s, i + 1) == PinnedBelow(s, i) + {s.frames[i].Id()} && s.frames[i].Id() !in PinnedBelow(s, i)
  {
    hide FreeList, IsLive;
    var id := s.frames[i].Id();
    assert FrameOk(s, i);
    forall k | k in s.index
      ensures s.index[k] == i ==> s.frames[i].valid && k == id
    {
      assert EntryOk(s, k);
    }
  }

  /** The pool is full exactly when as many pages are pinned as there are frames. */
  lemma FullPins(s: Sys)
    requires Inv(s) && Sound(s)
    ensures |PinnedKeys(s)| <= |s.frames|
    ensures Full(s) <==> |PinnedKeys(s)| == |s.frames|
  {
    hide Inv;
    FramesInRange(s);
    CountBelow(s, |s.frames|);
    assert PinnedBelow(s, |s.frames|) == PinnedKeys(s);
  }

  /** In a full pool whatever is buffered is pinned. */
  lemma FullBuffered(s: Sys, k: Key)
    requires Inv(s) && Sound(s) && Full(s)
    ensures k in s.index <==> k in PinnedKeys(s)
  {
    hide FreeList, FrameOk;
    if k in s.index { assert EntryOk(s, k); }
  }

  /** readPage of a live page is refused exactly when every frame is pinned, none of them for that page. */
  lemma ReadRefused(s: Sys, k: Key)
    requires Inv(s) && Sound(s) && IsLive(s, k)
    ensures ReadPage(s, k).status == BUFFEREXCEEDED <==> |PinnedKeys(s)| == |s.frames| && k !in PinnedKeys(s)
  {
    hide Inv, ReadPage, PinnedKeys;
    ReadKeeps(s, k);
    FullPins(s);
    if Full(s) { FullBuffered(s, k); }
  }

  /** allocPage is refused exactly when every frame is pinned. */
  lemma AllocRefused(s: Sys, file: FileId)
    requires Inv(s) && Sound(s) && file in s.files && Extendable(s.files[file])
    ensures file in s.free
    ensures AllocPage(s, file).0.status == BUFFEREXCEEDED <==> |PinnedKeys(s)| == |s.frames|
  {
    hide Inv, AllocPage, PinnedKeys, Extendable;
    GrowKeeps(s, file);
    AllocKeepsInv(s, file);
    FullPins(s);
  }

  lemma SamePins(s: Sys, t: Sys)
    requires Sound(s) && Sound(t) && forall k :: PinCount(t, k) == PinCount(s, k)
    ensures PinnedKeys(t) == PinnedKeys(s)
  {
    hide Sound, PinCount, PinnedKeys;
    PinnedIff(s);
    PinnedIff(t);
  }

  // ---------- over the pins of somebody else ----------

  /** Every frame is taken by the pins of base and those of held. */
  ghost predicate NoRoom(base: Sys, held: set<Key>) {
    Sound(base) && |PinnedKeys(base) + held| >= |base.frames|
  }

  /** With the pages of held pinned beside those of base, page k can not be brought in. */
  ghost predicate Refused(base: Sys, held: set<Key>, k: Key) {
    NoRoom(base, held) && k !in PinnedKeys(base) + held
  }

  /** n frames are unpinned. */
  ghost predicate Spare(base: Sys, n: nat) {
    Sound(base) && |PinnedKeys(base)| + n <= |base.frames|
  }

  /** Fewer pages than there are spare frames can be held at a time. */
  lemma SpareRoom(base: Sys, n: nat, held: set<Key>)
    requires Spare(base, n) && |held| < n
    ensures !NoRoom(base, held)
  {
    UnionSize(PinnedKeys(base), held);
  }

  lemma UnionSize<T>(a: set<T>, b: set<T>)
    ensures |a + b| <= |a| + |b|
    ensures |a + b| >= |a|
  {
    assert a + b == a + (b - a);
    assert b == (b - a) + (a * b);
  }

  /** Holding a page that nobody else pins leaves room for another in its place. */
  lemma RoomInPlace(base: Sys, held: set<Key>, k: Key)
    requires Sound(base) && |PinnedKeys(base) + held + {k}| <= |base.frames| && k !in PinnedKeys(base) + held
    ensures !NoRoom(base, held)
  {
  }
}
