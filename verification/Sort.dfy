/**
 sort.cpp: bounded sorted runs, the lazily filled merge over them, and the
 replay of the merge from a mark.
 */
module Sort {
  import opened Statuses
  import opened Records
  import opened Compare
  import opened Merge

  /**
   RUN: the records of its file, the position of its scan (-1 before the first
   record; scanNext at the end leaves it where it is), whether a record has been
   fetched, whether rid.pageNo is -1, and the mark of scan and rid.
   */
  datatype Run = Run(recs: seq<Rec>, cur: int, valid: bool, ended: bool, markCur: int, markEnded: bool)

  predicate RunWf(r: Run) {
    && -1 <= r.cur < |r.recs| && -1 <= r.markCur < |r.recs|
    && (r.valid && !r.ended ==> 0 <= r.cur)
    && (!r.valid ==> r.ended == (r.cur == -1))
    && (!r.markEnded ==> 0 <= r.markCur)
  }

  /** What the run still has to deliver. */
  function Left(r: Run): seq<Rec>
    requires RunWf(r)
  {
    if !r.valid then r.recs[r.cur + 1..] else if r.ended then [] else r.recs[r.cur..]
  }

  /** What it would have to deliver if its current record were taken back. */
  function Back(r: Run): seq<Rec>
    requires RunWf(r)
  {
    if r.ended then [] else r.recs[r.cur..]
  }

  /** What it has to deliver from its mark on. */
  function Marked(r: Run): seq<Rec>
    requires RunWf(r)
  {
    if r.markEnded then [] else r.recs[r.markCur..]
  }

  /** The fetch of next: scanNext, then getRecord unless the run is at its end. */
  function Fetched(r: Run): (f: Run)
    requires RunWf(r)
    ensures RunWf(f) && f.valid && Left(f) == Left(r) && Marked(f) == Marked(r)
    ensures Left(r) != [] ==> !f.ended && f.recs[f.cur] == Left(r)[0]
    ensures f.ended <==> Left(r) == []
  {
    if r.valid then r
    else if r.cur + 1 < |r.recs| then r.(cur := r.cur + 1, valid := true, ended := false)
    else r.(valid := true, ended := true)
  }

  predicate AllWf(rs: seq<Run>) { forall i :: 0 <= i < |rs| ==> RunWf(rs[i]) }

  function LeftAll(rs: seq<Run>): (ls: seq<seq<Rec>>)
    requires AllWf(rs)
    ensures |ls| == |rs| && forall i :: 0 <= i < |rs| ==> ls[i] == Left(rs[i])
  {
    seq(|rs|, i requires 0 <= i < |rs| => Left(rs[i]))
  }

  function BackAll(rs: seq<Run>): (ls: seq<seq<Rec>>)
    requires AllWf(rs)
    ensures |ls| == |rs| && forall i :: 0 <= i < |rs| ==> ls[i] == Back(rs[i])
  {
    seq(|rs|, i requires 0 <= i < |rs| => Back(rs[i]))
  }

  function MarkedAll(rs: seq<Run>): (ls: seq<seq<Rec>>)
    requires AllWf(rs)
    ensures |ls| == |rs| && forall i :: 0 <= i < |rs| ==> ls[i] == Marked(rs[i])
  {
    seq(|rs|, i requires 0 <= i < |rs| => Marked(rs[i]))
  }

  /** startScans: every run is opened, and nothing fetched from it. */
  function Opened(recs: seq<Rec>): Run { Run(recs, -1, false, true, -1, true) }

  /**
   A mark set before anything was fetched takes every run for exhausted: going
   back to it replays the future exactly when there is none.
   */
  lemma FreshMark(files: seq<seq<Rec>>)
    ensures var rs := seq(|files|, i requires 0 <= i < |files| => Opened(files[i]));
            AllWf(rs) && LeftAll(rs) == files && (BackAll(rs) == LeftAll(rs) <==> Exhausted(files))
  {
    var rs := seq(|files|, i requires 0 <= i < |files| => Opened(files[i]));
    assert forall i :: 0 <= i < |files| ==> BackAll(rs)[i] == [];
    if BackAll(rs) == files {
      assert forall i :: 0 <= i < |files| ==> files[i] == BackAll(rs)[i];
    }
  }

  /** a before b and b not after c puts a before c. */
  lemma StrictFirst(k: Attr, a: Rec, b: Rec, c: Rec)
    requires Has(k, a) && Has(k, b) && Has(k, c)
    requires Comparable(k, a, b) && Comparable(k, b, c) && Comparable(k, a, c)
    requires RecCmp(k, a, b) < 0 && RecCmp(k, b, c) <= 0
    ensures RecCmp(k, a, c) < 0
  {
    LeqTotal(k, a, b);
    LeqTotal(k, a, c);
    LeqTotal(k, b, c);
    if RecCmp(k, a, c) >= 0 { LeqTransitive(k, b, c, a); }
  }

  /** Run i is the smallest of the first n runs, or all of these are exhausted and i is -1. */
  ghost predicate SmallestOf(k: Attr, ls: seq<seq<Rec>>, n: int, i: int) {
    && 0 <= n <= |ls|
    && if i < 0 then Exhausted(ls[..n]) else Smallest(k, ls[..n], i)
  }

  lemma HeadsOk(k: Attr, ls: seq<seq<Rec>>, i: nat, j: nat)
    requires Mergeable(k, ls) && i < |ls| && j < |ls| && ls[i] != [] && ls[j] != []
    ensures Has(k, ls[i][0]) && Has(k, ls[j][0]) && Comparable(k, ls[i][0], ls[j][0])
  {
    PoolHas(ls, i);
    PoolHas(ls, j);
    assert ls[i][0] in multiset(ls[i]) && ls[j][0] in multiset(ls[j]);
  }

  /** One turn of the selection loop of next. */
  lemma SelectStep(k: Attr, ls: seq<seq<Rec>>, n: nat, i: int)
    requires Mergeable(k, ls) && n < |ls| && SmallestOf(k, ls, n, i)
    ensures ls[n] == [] ==> SmallestOf(k, ls, n + 1, i)
    ensures ls[n] != [] ==> Has(k, ls[n][0])
    ensures ls[n] != [] && i < 0 ==> SmallestOf(k, ls, n + 1, n)
    ensures 0 <= i ==> i < n && ls[i] != [] && Has(k, ls[i][0])
    ensures ls[n] != [] && 0 <= i ==>
      SmallestOf(k, ls, n + 1, if RecCmp(k, ls[i][0], ls[n][0]) > 0 then n else i)
  {
    assert ls[..n + 1] == ls[..n] + [ls[n]];
    if ls[n] != [] {
      HeadsOk(k, ls, n, n);
      LeqTotal(k, ls[n][0], ls[n][0]);
      if 0 <= i && RecCmp(k, ls[i][0], ls[n][0]) > 0 {
        HeadsOk(k, ls, i, n);
        LeqTotal(k, ls[i][0], ls[n][0]);
        forall j | 0 <= j < n && ls[j] != []
          ensures Has(k, ls[j][0]) && RecCmp(k, ls[n][0], ls[j][0]) < 0
        {
          assert ls[..n][j] == ls[j];
          HeadsOk(k, ls, i, j);
          HeadsOk(k, ls, n, j);
          StrictFirst(k, ls[n][0], ls[i][0], ls[j][0]);
        }
      }
    }
  }

  class SortedFile {
    const key: Attr
    const runs: array<Run>

    ghost predicate Valid()
      reads runs
    {
      AllWf(runs[..])
    }

    /** What is left to deliver, what the mark stands for, and where one step back would lead. */
    ghost function Remaining(): seq<seq<Rec>>
      requires Valid()
      reads runs
    {
      LeftAll(runs[..])
    }

    ghost function Marks(): seq<seq<Rec>>
      requires Valid()
      reads runs
    {
      MarkedAll(runs[..])
    }

    ghost function Backs(): seq<seq<Rec>>
      requires Valid()
      reads runs
    {
      BackAll(runs[..])
    }

    /** startScans over the run files. */
    constructor (key: Attr, files: seq<seq<Rec>>)
      ensures Valid() && this.key == key && fresh(runs) && Remaining() == files
    {
      this.key := key;
      var table := new Run[|files|](i requires 0 <= i < |files| => Opened(files[i]));
      runs := table;
    }

    /** The next record of a run comes into memory, if none is there yet. */
    method Fetch(i: nat)
      requires i < runs.Length && RunWf(runs[i])
      modifies runs
      ensures runs[i] == Fetched(old(runs[i]))
      ensures forall j :: 0 <= j < runs.Length && j != i ==> runs[j] == old(runs[j])
    {
      if !runs[i].valid {
        var r := runs[i];
        if r.cur + 1 < |r.recs| {
          runs[i] := r.(cur := r.cur + 1, valid := true, ended := false);
        } else {
          runs[i] := r.(valid := true, ended := true);
        }
      }
    }

    /** The loop of next: every run has a record in memory, and the smallest one is found. */
    method Select(ghost ls: seq<seq<Rec>>) returns (smallest: int)
      requires Valid() && ls == Remaining() && Mergeable(key, ls)
      modifies runs
      ensures Valid() && Remaining() == ls && Marks() == old(Marks()) && SmallestOf(key, ls, |ls|, smallest)
      ensures Backs() == ls && forall i :: 0 <= i < runs.Length ==> runs[i].valid
    {
      hide Mergeable, Has, RecCmp, SmallestOf, Fetched;
      smallest := -1;
      SelectStart(key, ls);
      ghost var before := runs[..];
      for i := 0 to runs.Length
        invariant forall j :: 0 <= j < i ==> runs[j] == Fetched(before[j])
        invariant forall j :: i <= j < runs.Length ==> runs[j] == before[j]
        invariant SmallestOf(key, ls, i, smallest)
      {
        SelectStep(key, ls, i, smallest);
        assert RunWf(before[i]) && ls[i] == Left(before[i]);
        Fetch(i);
        if runs[i].ended { continue; }
        if smallest < 0 {
          smallest := i;
        } else {
          assert RunWf(before[smallest]) && ls[smallest] == Left(before[smallest]);
          if RecCmp(key, runs[smallest].recs[runs[smallest].cur], runs[i].recs[runs[i].cur]) > 0 {
            smallest := i;
          }
        }
      }
      SameRuns(before, runs[..]);
    }

    /**
     next delivers the head of the smallest run, the earlier run on a tie, and
     fails exactly when every run is exhausted.
     */
    method Next() returns (status: Status, rec: Rec, ghost i: int)
      requires Valid() && Mergeable(key, Remaining())
      modifies runs
      ensures Valid() && Marks() == old(Marks())
      ensures status == (if Exhausted(old(Remaining())) then FILEEOF else OK)
      ensures status == FILEEOF ==> Remaining() == old(Remaining())
      ensures status == OK ==>
        && Smallest(key, old(Remaining()), i) && rec == old(Remaining())[i][0]
        && Remaining() == Advance(old(Remaining()), i)
        && Backs() == old(Remaining())
    {
      hide Mergeable, Has, RecCmp;
      ghost var ls := Remaining();
      rec, i := [], -1;
      if runs.Length <= 0 { return FILEEOF, [], -1; }
      var smallest := Select(ls);
      assert ls[..|ls|] == ls;
      if smallest < 0 { return FILEEOF, [], -1; }
      i := smallest;
      assert RunWf(runs[..][smallest]);
      rec := runs[smallest].recs[runs[smallest].cur];
      ghost var before := runs[..];
      runs[smallest] := runs[smallest].(valid := false);
      Taken(before, smallest);
      status := OK;
    }

    method SetMark()
      requires Valid()
      modifies runs
      ensures Valid() && Remaining() == old(Remaining()) && Backs() == old(Backs())
      ensures Marks() == old(Backs())
    {
      for i := 0 to runs.Length
        invariant forall j :: 0 <= j < i ==> runs[j] == WithMark(old(runs[j]))
        invariant forall j :: i <= j < runs.Length ==> runs[j] == old(runs[j])
      {
        runs[i] := runs[i].(markCur := runs[i].cur, markEnded := runs[i].ended);
      }
      MarkSet(old(runs[..]), runs[..]);
    }

    method GotoMark()
      requires Valid()
      modifies runs
      ensures Valid() && Remaining() == old(Marks()) && Marks() == old(Marks())
    {
      for i := 0 to runs.Length
        invariant forall j :: 0 <= j < i ==> runs[j] == AtMark(old(runs[j]))
        invariant forall j :: i <= j < runs.Length ==> runs[j] == old(runs[j])
      {
        runs[i] := runs[i].(cur := runs[i].markCur, ended := runs[i].markEnded, valid := true);
      }
      MarkReached(old(runs[..]), runs[..]);
    }
  }

  lemma SelectStart(k: Attr, ls: seq<seq<Rec>>)
    ensures SmallestOf(k, ls, 0, -1)
  {
  }

  lemma SameRuns(a: seq<Run>, b: seq<Run>)
    requires |a| == |b| && AllWf(a) && forall j :: 0 <= j < |a| ==> b[j] == Fetched(a[j])
    ensures AllWf(b) && LeftAll(b) == LeftAll(a) && MarkedAll(b) == MarkedAll(a) && BackAll(b) == LeftAll(a)
  {
    forall j | 0 <= j < |a|
      ensures RunWf(b[j]) && Left(b[j]) == Left(a[j]) && Marked(b[j]) == Marked(a[j]) && Back(b[j]) == Left(a[j])
    {
      assert RunWf(a[j]);
    }
  }

  /** The chosen run gives up its record; one step back it would have it again. */
  lemma Taken(a: seq<Run>, i: nat)
    requires AllWf(a) && i < |a| && a[i].valid && !a[i].ended
    ensures var b := a[i := a[i].(valid := false)];
            && AllWf(b) && MarkedAll(b) == MarkedAll(a) && BackAll(b) == BackAll(a)
            && LeftAll(a)[i] != [] && LeftAll(b) == Advance(LeftAll(a), i) && LeftAll(a)[i][0] == a[i].recs[a[i].cur]
  {
    var b := a[i := a[i].(valid := false)];
    assert RunWf(a[i]);
    forall j | 0 <= j < |b|
      ensures RunWf(b[j])
    {
      assert RunWf(a[j]);
    }
    assert Left(b[i]) == Left(a[i])[1..];
  }

  function WithMark(r: Run): Run { r.(markCur := r.cur, markEnded := r.ended) }

  function AtMark(r: Run): Run { r.(cur := r.markCur, ended := r.markEnded, valid := true) }

  lemma MarkSet(a: seq<Run>, b: seq<Run>)
    requires |a| == |b| && AllWf(a) && forall j :: 0 <= j < |a| ==> b[j] == WithMark(a[j])
    ensures AllWf(b) && LeftAll(b) == LeftAll(a) && BackAll(b) == BackAll(a) && MarkedAll(b) == BackAll(a)
  {
    forall j | 0 <= j < |a|
      ensures RunWf(b[j]) && Left(b[j]) == Left(a[j]) && Marked(b[j]) == Back(a[j]) && Back(b[j]) == Back(a[j])
    {
      assert RunWf(a[j]);
    }
  }

  lemma MarkReached(a: seq<Run>, b: seq<Run>)
    requires |a| == |b| && AllWf(a) && forall j :: 0 <= j < |a| ==> b[j] == AtMark(a[j])
    ensures AllWf(b) && LeftAll(b) == MarkedAll(a) && MarkedAll(b) == MarkedAll(a)
  {
    forall j | 0 <= j < |a|
      ensures RunWf(b[j]) && Left(b[j]) == Marked(a[j]) && Marked(b[j]) == Marked(a[j])
    {
      assert RunWf(a[j]);
    }
  }
}
