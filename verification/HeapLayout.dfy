/**
 A heap file as bytes: a header page with firstPage, lastPage, pageCnt and recCnt
 (at bytes 52, 56, 60 and 64 of FileHdrPage), and a chain of slotted pages.
 */
module HeapLayout {
  import opened Bytes
  import opened Disk
  import opened BufHash
  import opened PageView
  import opened Page
  import opened HeapSpec
  import opened Purge

  const FIRST_PAGE: int := 52
  const LAST_PAGE: int := 56
  const PAGE_CNT: int := 60
  const REC_CNT: int := 64

  type Contents = imap<Key, Image>

  function UsedSet(slots: seq<Slot>): set<int> {
    set i | 0 <= i < |slots| && slots[i].Used()
  }

  /** The records of the file, counted over the directories of its pages. */
  function Total(vs: seq<View>): nat {
    if vs == [] then 0 else |UsedSet(vs[0].slots)| + Total(vs[1..])
  }

  ghost predicate PageOk(m: Contents, f: FileId, p: int) {
    && 1 <= p && IsInt(p)
    && Key(f, p) in m && WellFormed(m[Key(f, p)]) && ViewOf(m[Key(f, p)]).cur == p
  }

  ghost function ViewAt(m: Contents, f: FileId, p: int): View
    requires PageOk(m, f, p)
  {
    ViewOf(m[Key(f, p)])
  }

  /** The pages of the chain are distinct, in order, and the last one ends it. */
  ghost predicate Chained(m: Contents, f: FileId, chain: seq<int>) {
    && chain != []
    && (forall j :: 0 <= j < |chain| ==> PageOk(m, f, chain[j]))
    && (forall j {:trigger ViewAt(m, f, chain[j])} :: 0 <= j < |chain| ==>
          ViewAt(m, f, chain[j]).next == LinkTo(chain, j + 1))
    && (forall i, j :: 0 <= i < j < |chain| ==> chain[i] != chain[j])
  }

  ghost function Views(m: Contents, f: FileId, chain: seq<int>): (vs: seq<View>)
    requires Chained(m, f, chain)
    ensures |vs| == |chain| && forall j :: 0 <= j < |chain| ==> vs[j] == ViewAt(m, f, chain[j])
    ensures TidyAll(vs) && InBoundsAll(vs)
  {
    seq(|chain|, j requires 0 <= j < |chain| => ViewAt(m, f, chain[j]))
  }

  ghost predicate HeaderOk(hdr: Image, chain: seq<int>, count: int)
    requires chain != []
  {
    && GetInt(hdr, FIRST_PAGE) == chain[0]
    && GetInt(hdr, LAST_PAGE) == chain[|chain| - 1]
    && GetInt(hdr, PAGE_CNT) == |chain|
    && GetInt(hdr, REC_CNT) == count
  }

  /** h is the header page of a heap file whose data pages are the chain. */
  ghost predicate HeapOk(m: Contents, f: FileId, h: int, chain: seq<int>) {
    && 0 <= f && 1 <= h && h !in chain && Key(f, h) in m
    && Chained(m, f, chain)
    && HeaderOk(m[Key(f, h)], chain, Total(Views(m, f, chain)))
  }

  /** The heap file is in order and its pages show vs. */
  ghost predicate HeapShows(m: Contents, f: FileId, h: int, chain: seq<int>, vs: seq<View>) {
    HeapOk(m, f, h, chain) && Views(m, f, chain) == vs
  }

  // ---------- how one page changes the whole ----------

  lemma {:induction false} TotalUpdate(vs: seq<View>, j: nat, v: View)
    requires j < |vs|
    ensures Total(vs[j := v]) == Total(vs) - |UsedSet(vs[j].slots)| + |UsedSet(v.slots)|
  {
    if j == 0 {
      assert vs[0 := v][1..] == vs[1..];
    } else {
      TotalUpdate(vs[1..], j - 1, v);
      assert vs[j := v][1..] == vs[1..][j - 1 := v];
    }
  }

  lemma {:induction false} TotalAppend(vs: seq<View>, v: View)
    ensures Total(vs + [v]) == Total(vs) + |UsedSet(v.slots)|
  {
    if vs == [] {
      assert (vs + [v])[1..] == [];
    } else {
      TotalAppend(vs[1..], v);
      assert (vs + [v])[1..] == vs[1..] + [v];
    }
  }

  lemma UsedAfterDelete(v: View, k: nat)
    requires Tidy(v) && PageView.Live(v, k)
    ensures |UsedSet(Delete(v, k).slots)| == |UsedSet(v.slots)| - 1
  {
    forall i
      ensures i in UsedSet(Delete(v, k).slots) <==> i in UsedSet(v.slots) && i != k
    {
      if 0 <= i && i != k { DeleteAhead(v, k, i); } else { DeletedUnused(v, k); }
    }
    assert UsedSet(Delete(v, k).slots) == UsedSet(v.slots) - {k as int};
  }

  lemma DeletedUnused(v: View, k: nat)
    requires Tidy(v) && PageView.Live(v, k)
    ensures k !in UsedSet(Delete(v, k).slots)
  {
    var w, d := Squeeze(v, k), Delete(v, k);
    assert k < |d.slots| ==> d.slots[k] == w.slots[k] == FREE_SLOT;
  }

  lemma UsedAfterInsert(v: View, rec: seq<Byte>)
    ensures |UsedSet(Insert(v, rec).slots)| == |UsedSet(v.slots)| + 1
  {
    var k := FirstFree(v.slots);
    assert UsedSet(Insert(v, rec).slots) == UsedSet(v.slots) + {k as int};
  }

  lemma SetPage(m: Contents, f: FileId, chain: seq<int>, j: nat, img: Image)
    requires Chained(m, f, chain) && j < |chain|
    requires WellFormed(img) && ViewOf(img).cur == chain[j] && ViewOf(img).next == LinkTo(chain, j + 1)
    ensures var m' := m[Key(f, chain[j]) := img];
            Chained(m', f, chain) && Views(m', f, chain) == Views(m, f, chain)[j := ViewOf(img)]
  {
    hide Tidy, ViewOf, GetShort, GetInt;
    var m' := m[Key(f, chain[j]) := img];
    forall i | 0 <= i < |chain|
      ensures PageOk(m', f, chain[i])
      ensures ViewAt(m', f, chain[i]) == if i == j then ViewOf(img) else ViewAt(m, f, chain[i])
    {
      assert PageOk(m, f, chain[i]);
    }
  }

  lemma SetHeader(m: Contents, f: FileId, h: int, chain: seq<int>, hdr: Image)
    requires Chained(m, f, chain) && h !in chain
    ensures var m' := m[Key(f, h) := hdr]; Chained(m', f, chain) && Views(m', f, chain) == Views(m, f, chain)
  {
    hide Tidy, ViewOf, GetShort, GetInt;
    var m' := m[Key(f, h) := hdr];
    forall i | 0 <= i < |chain|
      ensures PageOk(m', f, chain[i]) && ViewAt(m', f, chain[i]) == ViewAt(m, f, chain[i])
    {
      assert PageOk(m, f, chain[i]) && chain[i] in chain;
    }
  }

  ghost predicate CanAppend(m: Contents, f: FileId, chain: seq<int>, p: int, blank: Image, last: Image) {
    && Chained(m, f, chain) && p !in chain && 1 <= p && IsInt(p)
    && WellFormed(blank) && ViewOf(blank).cur == p && ViewOf(blank).next == -1
    && WellFormed(last) && ViewOf(last) == ViewAt(m, f, chain[|chain| - 1]).(next := p)
  }

  ghost predicate Shows(m: Contents, f: FileId, p: int, v: View) {
    PageOk(m, f, p) && ViewAt(m, f, p) == v
  }

  /** What place i of the longer chain shows. */
  ghost function AppendedView(m: Contents, f: FileId, chain: seq<int>, p: int, blank: Image, last: Image, i: nat): View
    requires CanAppend(m, f, chain, p, blank, last) && i <= |chain|
  {
    if i == |chain| then ViewOf(blank) else if i == |chain| - 1 then ViewOf(last) else ViewAt(m, f, chain[i])
  }

  lemma AppendedPage(m: Contents, f: FileId, chain: seq<int>, p: int, blank: Image, last: Image, i: nat)
    requires CanAppend(m, f, chain, p, blank, last) && i <= |chain|
    ensures chain != []
    ensures Shows(m[Key(f, p) := blank][Key(f, chain[|chain| - 1]) := last], f, (chain + [p])[i],
                  AppendedView(m, f, chain, p, blank, last, i))
    ensures AppendedView(m, f, chain, p, blank, last, i).next == LinkTo(chain + [p], i + 1)
  {
    hide Tidy, ViewOf, GetShort, GetInt;
    if i < |chain| {
      assert PageOk(m, f, chain[i]) && chain[i] in chain;
      assert ViewAt(m, f, chain[i]).next == LinkTo(chain, i + 1);
    }
    assert PageOk(m, f, chain[|chain| - 1]);
  }

  /** A chain is determined by what its pages show. */
  lemma ChainOf(m: Contents, f: FileId, chain: seq<int>, vs: seq<View>)
    requires chain != [] && |vs| == |chain|
    requires forall i :: 0 <= i < |chain| ==> Shows(m, f, chain[i], vs[i])
    requires forall i {:trigger vs[i].next} :: 0 <= i < |chain| ==> vs[i].next == LinkTo(chain, i + 1)
    requires forall i, j :: 0 <= i < j < |chain| ==> chain[i] != chain[j]
    ensures Chained(m, f, chain) && Views(m, f, chain) == vs
  {
    hide PageOk, ViewAt;
    forall j | 0 <= j < |chain|
      ensures PageOk(m, f, chain[j]) && ViewAt(m, f, chain[j]) == vs[j]
    {
      assert Shows(m, f, chain[j], vs[j]);
    }
  }

  /** A new page at the end of the chain, the old last page linked to it. */
  lemma AppendPage(m: Contents, f: FileId, chain: seq<int>, p: int, blank: Image, last: Image)
    requires CanAppend(m, f, chain, p, blank, last)
    ensures chain != []
    ensures var n := |chain|;
            var m' := m[Key(f, p) := blank][Key(f, chain[n - 1]) := last];
            && Chained(m', f, chain + [p])
            && Views(m', f, chain + [p]) == Views(m, f, chain)[n - 1 := ViewOf(last)] + [ViewOf(blank)]
  {
    hide Tidy, ViewOf, GetShort, GetInt, Shows;
    var n, c := |chain|, chain + [p];
    var m' := m[Key(f, p) := blank][Key(f, chain[n - 1]) := last];
    var vs := Views(m, f, chain)[n - 1 := ViewOf(last)] + [ViewOf(blank)];
    forall i | 0 <= i <= n
      ensures Shows(m', f, c[i], vs[i]) && vs[i].next == LinkTo(c, i + 1)
    {
      AppendedPage(m, f, chain, p, blank, last, i);
      assert vs[i] == AppendedView(m, f, chain, p, blank, last, i);
    }
    ChainOf(m', f, c, vs);
  }
}
