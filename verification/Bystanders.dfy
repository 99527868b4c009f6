/** What an operation on one file leaves alone: the pages of all other files, and the pins on them. */
module Bystanders {
  import opened Bytes
  import opened Disk
  import opened BufHash
  import opened BufferPool
  import opened Transparency

  /**
   A page is as it was: live or not, its content, its pins and what is owed for it,
   and if it is pinned its frame.
   */
  ghost predicate Same(s: Sys, t: Sys, k: Key)
    requires Sound(s) && Sound(t)
  {
    && PinCount(t, k) == PinCount(s, k) && (k in t.owed <==> k in s.owed)
    && (k in Meaning(t) <==> k in Meaning(s)) && (k in Meaning(s) ==> Meaning(t)[k] == Meaning(s)[k])
    && (PinCount(s, k) > 0 ==> k in s.index && k in t.index && t.index[k] == s.index[k])
  }

  /** The same files, and none but f has grown. */
  ghost predicate NoLonger(a: Files, b: Files, f: FileId) {
    a.Keys == b.Keys && forall g :: g in a && g != f ==> |b[g]| <= |a[g]|
  }

  /** The pages of every file but f are as they were. */
  ghost predicate Elsewhere(s: Sys, t: Sys, f: FileId) {
    && Sound(s) && Sound(t) && |t.frames| == |s.frames| && NoLonger(s.files, t.files, f)
    && forall k: Key :: k.file != f ==> Same(s, t, k)
  }

  lemma ElsewhereSelf(s: Sys, f: FileId)
    requires Sound(s)
    ensures Elsewhere(s, s, f)
  {
  }

  lemma ElsewhereTrans(s: Sys, t: Sys, u: Sys, f: FileId)
    requires Elsewhere(s, t, f) && Elsewhere(t, u, f)
    ensures Elsewhere(s, u, f)
  {
    hide Sound, PinCount, Meaning;
    forall k: Key | k.file != f
      ensures Same(s, u, k)
    {
      assert Same(s, t, k) && Same(t, u, k);
    }
  }

  lemma OthersNoLonger(s: Sys, t: Sys, f: FileId)
    requires Elsewhere(s, t, f)
    ensures NoLonger(s.files, t.files, f)
  {
  }

  /** What b pins stays in its frame, and no page is owed that was not. */
  ghost predicate Kept(s: Sys, t: Sys, b: Sys) {
    && Sound(s) && Sound(t) && Sound(b) && t.owed <= s.owed
    && forall k :: PinCount(b, k) > 0 ==> k in s.index && k in t.index && t.index[k] == s.index[k]
  }

  /** Reading a file: the others are as they were, and what b pins stays where it is, of this file too. */
  ghost predicate Aside(s: Sys, t: Sys, f: FileId, b: Sys) {
    Elsewhere(s, t, f) && Kept(s, t, b)
  }

  lemma AsideTrans(s: Sys, t: Sys, u: Sys, f: FileId, b: Sys)
    requires Aside(s, t, f, b) && Aside(t, u, f, b)
    ensures Aside(s, u, f, b)
  {
    hide Sound, PinCount, Elsewhere;
    ElsewhereTrans(s, t, u, f);
  }

  lemma KeptBy(s: Sys, t: Sys, b: Sys)
    requires Sound(s) && Sound(t) && Sound(b) && t.owed <= s.owed
    requires forall k :: k in s.index && k in t.index ==> t.index[k] == s.index[k]
    requires forall k :: PinCount(b, k) <= PinCount(s, k) && PinCount(b, k) <= PinCount(t, k)
    ensures Kept(s, t, b)
  {
    hide Sound;
  }

  /** How the lemmas about the operations show it. */
  lemma ElsewhereBy(s: Sys, t: Sys, f: FileId)
    requires Sound(s) && Sound(t) && |t.frames| == |s.frames| && NoLonger(s.files, t.files, f)
    requires forall q: Key :: q.file != f ==>
      PinCount(t, q) == PinCount(s, q) && (q in t.owed <==> q in s.owed)
      && (q in Meaning(t) <==> q in Meaning(s)) && (q in Meaning(s) ==> Meaning(t)[q] == Meaning(s)[q])
    requires forall q :: q in s.index && q in t.index ==> t.index[q] == s.index[q]
    ensures Elsewhere(s, t, f)
  {
    hide Sound, Meaning;
  }

  lemma ReadElsewhere(s: Sys, k: Key)
    requires Inv(s) && Sound(s) && IsLive(s, k)
    ensures Elsewhere(s, ReadPage(s, k).sys, k.file)
  {
    hide Inv, Sound, Meaning, PinCount, ReadPage, Full;
    ReadKeeps(s, k);
    ElsewhereBy(s, ReadPage(s, k).sys, k.file);
  }

  lemma UnPinElsewhere(s: Sys, k: Key, dirty: bool)
    requires Inv(s) && Sound(s) && MayUnPin(s, k, dirty)
    ensures Elsewhere(s, UnPinPage(s, k, dirty).0, k.file)
  {
    hide Inv, Sound, Meaning, PinCount;
    UnPinKeeps(s, k, dirty);
    assert UnPinPage(s, k, dirty).0.index == s.index;
    ElsewhereBy(s, UnPinPage(s, k, dirty).0, k.file);
  }

  lemma WriteElsewhere(s: Sys, k: Key, page: Image)
    requires Inv(s) && Sound(s) && PinCount(s, k) > 0
    ensures k in s.index && Elsewhere(s, Write(s, k, page), k.file)
  {
    hide Inv, Sound, Meaning;
    WriteKeepsInv(s, k, page);
    ElsewhereBy(s, Write(s, k, page), k.file);
  }

  lemma AllocElsewhere(s: Sys, file: FileId)
    requires Inv(s) && Sound(s) && file in s.files && file in s.free && Extendable(s.files[file])
    ensures Elsewhere(s, AllocPage(s, file).0.sys, file)
  {
    hide Inv, Sound, Meaning, PinCount, AllocPage, Full, Extendable, Content;
    AllocKeepsInv(s, file);
    ElsewhereBy(s, AllocPage(s, file).0.sys, file);
  }

  lemma FlushElsewhere(s: Sys, file: FileId)
    requires Inv(s) && Sound(s) && file != NULL_FILE
    ensures Elsewhere(s, FlushFile(s, file).0, file)
  {
    hide Inv, Sound, Meaning, PinCount, FlushFrom;
    FlushKeeps(s, file, 0);
    ElsewhereBy(s, FlushFile(s, file).0, file);
  }

  /** A flush leaves every pinned page where it is, of its own file too. */
  lemma FlushAside(s: Sys, file: FileId)
    requires Inv(s) && Sound(s) && file != NULL_FILE
    ensures Aside(s, FlushFile(s, file).0, file, s)
  {
    hide Inv, Sound, Meaning, PinCount, FlushFrom, Elsewhere, Kept;
    FlushElsewhere(s, file);
    FlushKeeps(s, file, 0);
    KeptBy(s, FlushFile(s, file).0, s);
  }
}
