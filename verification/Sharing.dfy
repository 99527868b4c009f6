/**
 Open files that share one pool.  A reader, which is a scan, and a writer, which is
 an inserter on another file, each count the pins of the other as those of somebody
 else; b is the pool as those outside the two have pinned it.
 */
module Sharing {
  import opened Disk
  import opened BufHash
  import opened BufferPool
  import opened Transparency
  import opened Pins
  import opened Bystanders
  import opened HeapLayout
  import opened HeapSession

  function Lighter(f: Frame, w: Session): Frame {
    if f.valid && w.Mine(f.Id()) <= f.pinCnt then f.(pinCnt := f.pinCnt - w.Mine(f.Id())) else f
  }

  /** The pool as everybody but w has pinned it. */
  function Without(s: Sys, w: Session): Sys {
    s.(frames := seq(|s.frames|, i requires 0 <= i < |s.frames| => Lighter(s.frames[i], w)))
  }

  lemma WithoutPins(s: Sys, w: Session)
    requires Inv(s) && Sound(s) && forall k :: w.Mine(k) <= PinCount(s, k)
    ensures var o := Without(s, w);
            && Sound(o) && |o.frames| == |s.frames|
            && forall k :: PinCount(o, k) == PinCount(s, k) - w.Mine(k)
  {
    hide FreeList;
    var o := Without(s, w);
    forall i | 0 <= i < |o.frames| && o.frames[i].dirty
      ensures InFile(o.files, o.frames[i].Id())
    {
      assert InFile(s.files, s.frames[i].Id());
    }
    assert Sound(o);
    forall k
      ensures PinCount(o, k) == PinCount(s, k) - w.Mine(k)
    {
      if k in s.index { assert EntryOk(s, k); }
    }
  }

  /** The pins are those of b, of the reader w and of the writer r; what is owed, b or the writer answers for. */
  ghost predicate Both(s: Sys, b: Sys, w: Session, r: Session) {
    && Inv(s) && Sound(s) && Sound(b) && w.file != r.file && |s.frames| == |b.frames|
    && (forall k :: PinCount(s, k) == PinCount(b, k) + w.Mine(k) + r.Mine(k))
    && (forall k :: k in s.owed ==> PinCount(b, k) > 0 || r.Declares(k))
  }

  /** To the reader the writer is one of the others. */
  lemma ReaderAlone(s: Sys, b: Sys, w: Session, r: Session)
    requires Both(s, b, w, r)
    ensures var o := Without(s, w);
            && Sound(o) && |o.frames| == |b.frames| && PinsOk(s, w.(base := o))
            && forall k :: PinCount(o, k) == PinCount(b, k) + r.Mine(k)
  {
    hide Inv, Sound, PinCount;
    WithoutPins(s, w);
    var o := Without(s, w);
    forall k
      ensures PinCount(s, k) == PinCount(o, k) + w.Mine(k)
      ensures k in s.owed ==> PinCount(o, k) > 0
    {
      assert r.Declares(k) ==> r.Mine(k) > 0;
    }
  }

  /** To the writer the reader is one of the others. */
  lemma WriterAlone(s: Sys, b: Sys, w: Session, r: Session)
    requires Both(s, b, w, r)
    ensures var o := Without(s, r);
            && Sound(o) && |o.frames| == |b.frames| && PinsOk(s, r.(base := o))
            && forall k :: PinCount(o, k) == PinCount(b, k) + w.Mine(k)
  {
    hide Inv, Sound, PinCount;
    WithoutPins(s, r);
  }

  // ---------- what one of them does, as the other sees it ----------

  /** Nothing changes but the pages of f, and what b pins of the other files stays where it is. */
  ghost predicate Steady(s: Sys, t: Sys, b: Sys, f: FileId) {
    && Sound(s) && Sound(t) && Sound(b) && |t.frames| == |s.frames|
    && forall k: Key :: k.file != f ==> SteadyAt(s, t, b, k)
  }

  ghost predicate SteadyAt(s: Sys, t: Sys, b: Sys, k: Key)
    requires Sound(s) && Sound(t) && Sound(b)
  {
    && (k in Meaning(t) <==> k in Meaning(s)) && (k in Meaning(s) ==> Meaning(t)[k] == Meaning(s)[k])
    && (PinCount(b, k) > 0 ==> k in s.index && k in t.index && t.index[k] == s.index[k])
    && (k in t.owed ==> k in s.owed)
  }

  lemma SteadyTrans(s: Sys, t: Sys, u: Sys, b: Sys, f: FileId)
    requires Steady(s, t, b, f) && Steady(t, u, b, f)
    ensures Steady(s, u, b, f)
  {
    hide Sound, PinCount, Meaning;
    forall k: Key | k.file != f
      ensures SteadyAt(s, u, b, k)
    {
      assert SteadyAt(s, t, b, k) && SteadyAt(t, u, b, k);
    }
  }

  /** A step that reads file g, seen by those whose pins its base c contains. */
  lemma ReadSteady(s: Sys, t: Sys, g: FileId, c: Sys, b: Sys, f: FileId)
    requires Aside(s, t, g, c) && Meaning(t) == Meaning(s) && Sound(b)
    requires forall k :: PinCount(b, k) <= PinCount(c, k)
    ensures Steady(s, t, b, f)
  {
    hide Sound, PinCount, Meaning, NoLonger;
  }

  lemma WriteSteady(s: Sys, t: Sys, b: Sys, f: FileId)
    requires Elsewhere(s, t, f) && Sound(b) && forall k :: PinCount(b, k) <= PinCount(s, k)
    ensures Steady(s, t, b, f)
  {
    hide Sound, PinCount, Meaning, NoLonger;
    forall k: Key | k.file != f
      ensures SteadyAt(s, t, b, k)
    {
      assert Same(s, t, k);
    }
  }

  /** What b pins, more than b pins. */
  lemma SteadyWeaker(s: Sys, t: Sys, c: Sys, b: Sys, f: FileId)
    requires Steady(s, t, c, f) && Sound(b) && forall k :: PinCount(b, k) <= PinCount(c, k)
    ensures Steady(s, t, b, f)
  {
    hide Sound, PinCount, Meaning;
    forall k: Key | k.file != f
      ensures SteadyAt(s, t, b, k)
    {
      assert SteadyAt(s, t, c, k);
    }
  }

  /** The pages of the session are as they were, and those it pins are where they were. */
  ghost predicate Untouched(s: Sys, t: Sys, w: Session) {
    && Sound(s) && Sound(t)
    && (forall k: Key :: k.file == w.file ==>
          (k in Meaning(t) <==> k in Meaning(s)) && (k in Meaning(s) ==> Meaning(t)[k] == Meaning(s)[k]))
    && (forall k :: w.Mine(k) > 0 ==> k in s.index && k in t.index && t.index[k] == s.index[k])
  }

  lemma UntouchedBy(s: Sys, t: Sys, g: FileId, w: Session)
    requires Elsewhere(s, t, g) && g != w.file && forall k :: w.Mine(k) <= PinCount(s, k)
    ensures Untouched(s, t, w)
  {
    hide Sound, PinCount, Meaning, NoLonger;
    forall k: Key | k.file == w.file
      ensures Same(s, t, k)
    {
    }
  }

  lemma UntouchedSteady(s: Sys, t: Sys, b: Sys, f: FileId, w: Session)
    requires Steady(s, t, b, f) && f != w.file && forall k :: w.Mine(k) <= PinCount(b, k)
    ensures Untouched(s, t, w)
  {
    hide Sound, PinCount, Meaning;
    forall k: Key | k.file == w.file
      ensures SteadyAt(s, t, b, k)
    {
    }
  }

  lemma HeapUntouched(s: Sys, t: Sys, w: Session)
    requires Untouched(s, t, w) && HeapOk(Meaning(s), w.file, w.header, w.chain)
    ensures HeapOk(Meaning(t), w.file, w.header, w.chain)
    ensures Views(Meaning(t), w.file, w.chain) == Views(Meaning(s), w.file, w.chain)
  {
    hide Sound, Meaning, HeaderOk, ViewAt, LinkTo;
    forall j | 0 <= j < |w.chain|
      ensures Key(w.file, w.chain[j]) in Meaning(t)
      ensures Key(w.file, w.chain[j]) in Meaning(s)
      ensures Meaning(t)[Key(w.file, w.chain[j])] == Meaning(s)[Key(w.file, w.chain[j])]
    {
      assert PageOk(Meaning(s), w.file, w.chain[j]);
    }
    HeapFrame(Meaning(s), Meaning(t), w.file, w.header, w.chain);
  }

  // ---------- the two after a step of one of them ----------

  /** The reader is opened: the writer's pins are among those it finds. */
  lemma ReaderOpens(s: Sys, t: Sys, w: Session, r: Session)
    requires Pinned(s, r) && Pinned(t, w) && w.base == s && Kept(s, t, s) && w.file != r.file
    ensures Both(t, r.base, w, r)
  {
    hide Inv, Sound, PinCount, Placed;
  }

  /** The reader has taken a step from w to v. */
  lemma ReaderMoved(s: Sys, t: Sys, b: Sys, w: Session, v: Session, r: Session)
    requires Both(s, b, w, r) && v.file == w.file && v.base == Without(s, w) && Pinned(t, v) && Kept(s, t, v.base)
    ensures Both(t, b, v, r)
  {
    hide Inv, Sound, PinCount, Placed;
    ReaderAlone(s, b, w, r);
  }

  /** The writer has taken a step from r to q. */
  lemma WriterMoved(s: Sys, t: Sys, b: Sys, w: Session, r: Session, q: Session)
    requires Both(s, b, w, r) && q.file == r.file && q.base == Without(s, r) && Pinned(t, q)
    requires Steady(s, t, q.base, r.file)
    ensures Both(t, b, w, q)
  {
    hide Inv, Sound, PinCount, Placed, Meaning;
    WriterAlone(s, b, w, r);
    forall k | k in t.owed
      ensures PinCount(b, k) > 0 || q.Declares(k)
    {
      if k.file != r.file { assert SteadyAt(s, t, q.base, k); }
    }
  }

  /** The reader is gone. */
  lemma ReaderCloses(s: Sys, t: Sys, b: Sys, w: Session, r: Session)
    requires Both(s, b, w, r) && Sound(t) && |t.frames| == |s.frames| && t.owed <= s.owed
    requires Sound(Without(s, w)) && forall k :: PinCount(t, k) == PinCount(Without(s, w), k)
    ensures PinsOk(t, r.(base := b))
  {
    hide Inv, Sound, PinCount;
    ReaderAlone(s, b, w, r);
  }

  /** Beside a session of two pages two frames less are spare. */
  lemma SpareBeside(o: Sys, b: Sys, r: Session, n: nat)
    requires Sound(o) && Spare(b, n + 2) && |o.frames| == |b.frames| && r.extra == NO_PAGE
    requires forall k :: PinCount(o, k) == PinCount(b, k) + r.Mine(k)
    ensures Spare(o, n)
  {
    hide Sound, PinCount, PinnedKeys;
    PinnedIff(o);
    PinnedIff(b);
    HeldIff(r);
    forall k
      ensures k in PinnedKeys(o) <==> k in PinnedKeys(b) + r.Held()
    {
      assert PinCount(o, k) == PinCount(b, k) + r.Mine(k);
    }
    assert PinnedKeys(o) == PinnedKeys(b) + r.Held();
    UnionSize(PinnedKeys(b), r.Held());
    UnionSize({r.HKey()}, {r.CKey()});
    Subset(r.Held(), {r.HKey()} + {r.CKey()});
  }
}
