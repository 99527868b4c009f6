/** SortedFile from construction to the last record: run generation, draining and replay. */
module ExternalSort {
  import opened Statuses
  import opened Bytes
  import opened Records
  import opened Seqs
  import opened Compare
  import opened Merge
  import opened Sort

  /** SORTREC: the place of the record in the source and a copy of its sort attribute. */
  datatype SortRec = SortRec(rid: int, field: seq<Byte>)

  predicate Refers(k: Attr, source: seq<Rec>, e: SortRec) {
    0 <= e.rid < |source| && Has(k, source[e.rid]) && e.field == Field(k, source[e.rid])
  }

  /** The records the entries refer to, in order. */
  function Deref(source: seq<Rec>, s: seq<SortRec>): (r: seq<Rec>)
    requires Inside(source, s)
    ensures |r| == |s| && forall i :: 0 <= i < |s| ==> r[i] == source[s[i].rid]
  {
    seq(|s|, i requires 0 <= i < |s| => source[s[i].rid])
  }

  // ---------- qsort ----------

  /** The entries refer to pairwise comparable records of the source. */
  ghost predicate Orderly(k: Attr, source: seq<Rec>, s: seq<SortRec>) {
    && AttrOk(k)
    && (forall i :: 0 <= i < |s| ==> Refers(k, source, s[i]))
    && (forall i, j :: 0 <= i < |s| && 0 <= j < |s| ==> Comparable(k, source[s[i].rid], source[s[j].rid]))
  }

  /** intcmp and stringcmp find the entries in order. */
  ghost predicate InOrder(k: Attr, s: seq<SortRec>) {
    forall i, j :: 0 <= i < j < |s| ==> Fields(k, s[i], s[j]) && FieldCmp(k, s[i].field, s[j].field) <= 0
  }

  predicate Fields(k: Attr, a: SortRec, b: SortRec) {
    AttrOk(k) && |a.field| == |b.field| == k.length
  }

  /** intcmp and stringcmp: reccmp on the copied attributes. */
  function FieldCmp(k: Attr, a: seq<Byte>, b: seq<Byte>): int
    requires AttrOk(k) && |a| == |b| == k.length
  {
    match k.dtype
    case INTEGER => IntDiff(GetInt(a, 0), GetInt(b, 0))
    case STRING => Memcmp(a, b)
  }

  /** What section 7.22.5.2 of ISO C11 promises of qsort with that comparison: the same elements, in order. */
  ghost predicate IsQSort(k: Attr, source: seq<Rec>, qsort: seq<SortRec> -> seq<SortRec>) {
    forall s :: Orderly(k, source, s) ==> multiset(qsort(s)) == multiset(s) && InOrder(k, qsort(s))
  }

  /** A sort that keeps the promise: insertion. */
  function InsertEntry(k: Attr, e: SortRec, s: seq<SortRec>): seq<SortRec> {
    if s == [] || (Fields(k, e, s[0]) && FieldCmp(k, e.field, s[0].field) <= 0) then [e] + s
    else [s[0]] + InsertEntry(k, e, s[1..])
  }

  function InsertionSort(k: Attr, s: seq<SortRec>): seq<SortRec> {
    if s == [] then [] else InsertEntry(k, s[0], InsertionSort(k, s[1..]))
  }

  lemma OrderlyMembers(k: Attr, source: seq<Rec>, s: seq<SortRec>, t: seq<SortRec>)
    requires Orderly(k, source, s) && forall e :: e in t ==> e in s
    ensures Orderly(k, source, t)
  {
    hide Has, Comparable, Field;
    forall i | 0 <= i < |t|
      ensures Refers(k, source, t[i])
    {
      assert t[i] in s;
    }
    forall i, j | 0 <= i < |t| && 0 <= j < |t|
      ensures Comparable(k, source[t[i].rid], source[t[j].rid])
    {
      assert t[i] in s && t[j] in s;
    }
  }

  lemma EntriesTotal(k: Attr, source: seq<Rec>, s: seq<SortRec>, a: SortRec, b: SortRec, c: SortRec)
    requires Orderly(k, source, s) && a in s && b in s && c in s
    ensures Fields(k, a, b) && Fields(k, b, c) && Fields(k, a, c)
    ensures FieldCmp(k, a.field, b.field) <= 0 || FieldCmp(k, b.field, a.field) <= 0
    ensures FieldCmp(k, a.field, b.field) <= 0 && FieldCmp(k, b.field, c.field) <= 0 ==>
      FieldCmp(k, a.field, c.field) <= 0
  {
    hide Comparable, Field;
    assert Refers(k, source, a) && Refers(k, source, b) && Refers(k, source, c);
    var x, y, z := source[a.rid], source[b.rid], source[c.rid];
    assert Comparable(k, x, y) && Comparable(k, y, x) && Comparable(k, y, z) && Comparable(k, x, z);
    LeqTotal(k, x, y);
    if Leq(k, x, y) && Leq(k, y, z) { LeqTransitive(k, x, y, z); }
  }

  /** The entry comes before all of them. */
  ghost predicate First(k: Attr, e: SortRec, s: seq<SortRec>) {
    forall x :: x in s ==> Fields(k, e, x) && FieldCmp(k, e.field, x.field) <= 0
  }

  lemma ConsInOrder(k: Attr, e: SortRec, s: seq<SortRec>)
    requires InOrder(k, s) && First(k, e, s)
    ensures InOrder(k, [e] + s)
  {
    hide FieldCmp, Fields;
  }

  lemma HeadFirst(k: Attr, s: seq<SortRec>)
    requires InOrder(k, s) && s != []
    ensures InOrder(k, s[1..]) && First(k, s[0], s[1..])
  {
    hide FieldCmp, Fields;
  }

  lemma {:induction false} EntryInserted(k: Attr, source: seq<Rec>, e: SortRec, s: seq<SortRec>)
    requires Orderly(k, source, [e] + s) && InOrder(k, s)
    ensures multiset(InsertEntry(k, e, s)) == multiset([e] + s) && InOrder(k, InsertEntry(k, e, s))
  {
    hide Orderly, FieldCmp, InOrder;
    if s == [] {
      NothingInOrder(k);
      ConsInOrder(k, e, []);
    } else {
      HeadFirst(k, s);
      assert s == [s[0]] + s[1..];
      if Fields(k, e, s[0]) && FieldCmp(k, e.field, s[0].field) <= 0 {
        forall x | x in s
          ensures Fields(k, e, x) && FieldCmp(k, e.field, x.field) <= 0
        {
          EntriesTotal(k, source, [e] + s, e, s[0], x);
        }
        ConsInOrder(k, e, s);
      } else {
        OrderlyMembers(k, source, [e] + s, [e] + s[1..]);
        EntryInserted(k, source, e, s[1..]);
        EntriesTotal(k, source, [e] + s, e, s[0], e);
        var rest := InsertEntry(k, e, s[1..]);
        forall x | x in rest
          ensures Fields(k, s[0], x) && FieldCmp(k, s[0].field, x.field) <= 0
        {
          assert x in multiset(rest);
        }
        ConsInOrder(k, s[0], rest);
        assert multiset([s[0]] + rest) == multiset{s[0]} + multiset([e] + s[1..]);
      }
    }
  }

  /** What is asked of qsort can be met. */
  lemma QSortExists(k: Attr, source: seq<Rec>)
    ensures IsQSort(k, source, s => InsertionSort(k, s))
  {
    hide Orderly;
    forall s | Orderly(k, source, s)
      ensures multiset(InsertionSort(k, s)) == multiset(s) && InOrder(k, InsertionSort(k, s))
    {
      InsertionSorts(k, source, s);
    }
  }

  lemma {:induction false} InsertionSorts(k: Attr, source: seq<Rec>, s: seq<SortRec>)
    requires Orderly(k, source, s)
    ensures multiset(InsertionSort(k, s)) == multiset(s) && InOrder(k, InsertionSort(k, s))
  {
    hide Orderly, InOrder;
    if s == [] {
      assert InOrder(k, []) by { NothingInOrder(k); }
    } else {
      OrderlyMembers(k, source, s, s[1..]);
      InsertionSorts(k, source, s[1..]);
      var t := InsertionSort(k, s[1..]);
      assert s == [s[0]] + s[1..];
      forall e | e in [s[0]] + t
        ensures e in s
      {
        assert e == s[0] || e in multiset(t);
      }
      OrderlyMembers(k, source, s, [s[0]] + t);
      EntryInserted(k, source, s[0], t);
    }
  }

  lemma NothingInOrder(k: Attr)
    ensures InOrder(k, [])
  {
  }

  predicate Inside(source: seq<Rec>, s: seq<SortRec>) {
    forall i :: 0 <= i < |s| ==> 0 <= s[i].rid < |source|
  }

  lemma DerefWithout(source: seq<Rec>, s: seq<SortRec>, j: nat)
    requires Inside(source, s) && j < |s|
    ensures Inside(source, Without(s, j))
    ensures multiset(Deref(source, s)) == multiset(Deref(source, Without(s, j))) + multiset{source[s[j].rid]}
  {
    WithoutOne(Deref(source, s), j);
    assert Deref(source, Without(s, j)) == Without(Deref(source, s), j);
  }

  lemma PermutedInside(source: seq<Rec>, a: seq<SortRec>, b: seq<SortRec>)
    requires multiset(a) == multiset(b) && Inside(source, a)
    ensures |a| == |b| && Inside(source, b)
  {
    PermutedMembers(a, b);
    assert forall i :: 0 <= i < |b| ==> b[i] in a;
  }

  lemma DerefStep(source: seq<Rec>, a: seq<SortRec>, b: seq<SortRec>, i: nat, j: nat)
    requires Inside(source, a) && Inside(source, b) && i < |a| && j < |b| && a[i] == b[j]
    requires Inside(source, Without(a, i)) && Inside(source, Without(b, j))
    requires multiset(Deref(source, Without(a, i))) == multiset(Deref(source, Without(b, j)))
    ensures multiset(Deref(source, a)) == multiset(Deref(source, b))
  {
    hide Inside, Without;
    DerefWithout(source, a, i);
    DerefWithout(source, b, j);
  }

  /** A permutation of entries refers to a permutation of records. */
  lemma {:induction false} DerefPermuted(source: seq<Rec>, a: seq<SortRec>, b: seq<SortRec>)
    requires multiset(a) == multiset(b) && Inside(source, a)
    ensures Inside(source, b)
    ensures multiset(Deref(source, a)) == multiset(Deref(source, b))
    decreases |a|
  {
    PermutedInside(source, a, b);
    if a != [] {
      var j := WithoutSame(a, b);
      DerefPermuted(source, Without(a, 0), Without(b, j));
      DerefStep(source, a, b, 0, j);
    }
  }

  /** The run written from the sorted buffer: the records of the chunk, in order. */
  lemma RunFromBuffer(k: Attr, source: seq<Rec>, s: seq<SortRec>, t: seq<SortRec>)
    requires Orderly(k, source, s) && multiset(t) == multiset(s) && InOrder(k, t)
    ensures Inside(source, s) && Inside(source, t)
    ensures multiset(Deref(source, t)) == multiset(Deref(source, s)) && RunOk(k, Deref(source, t))
  {
    DerefPermuted(source, s, t);
    PermutedMembers(s, t);
    var r := Deref(source, t);
    forall i | 0 <= i < |t|
      ensures Refers(k, source, t[i])
    {
      assert t[i] in s;
    }
    forall i, j | 0 <= i < j < |r|
      ensures Has(k, r[i]) && Has(k, r[j]) && Leq(k, r[i], r[j])
    {
      assert Refers(k, source, t[i]) && Refers(k, source, t[j]);
    }
  }

  // ---------- sortFile ----------

  /** The runs are the source cut into chunks of maxItems records, the last one shorter, each in order. */
  ghost predicate Split(k: Attr, source: seq<Rec>, runs: seq<seq<Rec>>, maxItems: nat)
    decreases |runs|
  {
    if runs == [] then source == []
    else
      && FirstRun(k, source, runs[0], maxItems)
      && Split(k, source[|runs[0]|..], runs[1..], maxItems)
  }

  lemma {:induction false} SplitPool(k: Attr, source: seq<Rec>, runs: seq<seq<Rec>>, maxItems: nat)
    requires Split(k, source, runs, maxItems)
    ensures Pool(runs) == multiset(source) && forall i :: 0 <= i < |runs| ==> RunOk(k, runs[i])
    decreases |runs|
  {
    if runs != [] {
      var n := |runs[0]|;
      SplitPool(k, source[n..], runs[1..], maxItems);
      assert source == source[..n] + source[n..];
      forall i | 0 <= i < |runs|
        ensures RunOk(k, runs[i])
      {
        if i > 0 { assert runs[i] == runs[1..][i - 1]; }
      }
    }
  }

  ghost predicate AllFull(runs: seq<seq<Rec>>, maxItems: nat) {
    forall i :: 0 <= i < |runs| ==> |runs[i]| == maxItems
  }

  /** The first run of a split takes the first records of the source. */
  ghost predicate FirstRun(k: Attr, source: seq<Rec>, run: seq<Rec>, maxItems: nat) {
    && 1 <= |run| == (if |source| < maxItems then |source| else maxItems)
    && RunOk(k, run) && multiset(run) == multiset(source[..|run|])
  }

  lemma {:induction false} SplitCons(k: Attr, source: seq<Rec>, run: seq<Rec>, runs: seq<seq<Rec>>, maxItems: nat)
    requires FirstRun(k, source, run, maxItems) && Split(k, source[|run|..], runs, maxItems)
    ensures Split(k, source, [run] + runs, maxItems)
  {
    assert ([run] + runs)[1..] == runs;
  }

  lemma {:induction false} SplitSnoc(k: Attr, source: seq<Rec>, runs: seq<seq<Rec>>, maxItems: nat, chunk: seq<Rec>,
      run: seq<Rec>)
    requires Split(k, source, runs, maxItems) && AllFull(runs, maxItems)
    requires |run| == |chunk| <= maxItems && FirstRun(k, chunk, run, maxItems)
    ensures Split(k, source + chunk, runs + [run], maxItems)
    decreases |runs|
  {
    hide RunOk, FirstRun;
    if runs == [] {
      assert source + chunk == chunk && chunk[|run|..] == [] && runs + [run] == [run] + [];
      SplitCons(k, chunk, run, [], maxItems);
    } else {
      var n := |runs[0]|;
      SnocHead(k, source, runs, maxItems, chunk);
      SplitSnoc(k, source[n..], runs[1..], maxItems, chunk, run);
      SplitCons(k, source + chunk, runs[0], runs[1..] + [run], maxItems);
      assert [runs[0]] + (runs[1..] + [run]) == runs + [run];
    }
  }

  lemma {:induction false} SnocHead(k: Attr, source: seq<Rec>, runs: seq<seq<Rec>>, maxItems: nat, chunk: seq<Rec>)
    requires Split(k, source, runs, maxItems) && AllFull(runs, maxItems) && runs != []
    ensures FirstRun(k, source + chunk, runs[0], maxItems)
    ensures |runs[0]| <= |source| && (source + chunk)[|runs[0]|..] == source[|runs[0]|..] + chunk
  {
    hide RunOk;
    var n := |runs[0]|;
    assert (source + chunk)[..n] == source[..n];
  }

  /** The buffer after the fill loop: one entry for each of n records from pos on. */
  function Entries(k: Attr, source: seq<Rec>, pos: nat, n: nat): (s: seq<SortRec>)
    requires pos + n <= |source| && forall i :: 0 <= i < |source| ==> Has(k, source[i])
    ensures |s| == n && forall j :: 0 <= j < n ==> s[j] == SortRec(pos + j, Field(k, source[pos + j]))
  {
    seq(n, j requires 0 <= j < n => SortRec(pos + j, Field(k, source[pos + j])))
  }

  /** A chunk of the source leaves the buffer as one run. */
  lemma ChunkRun(k: Attr, source: seq<Rec>, pos: nat, n: nat, qsort: seq<SortRec> -> seq<SortRec>)
    requires SourceOk(k, source) && IsQSort(k, source, qsort) && pos + n <= |source|
    ensures var t := qsort(Entries(k, source, pos, n));
            && |t| == n && Inside(source, t) && RunOk(k, Deref(source, t))
            && multiset(Deref(source, t)) == multiset(source[pos .. pos + n])
  {
    hide Comparable, RecCmp, Field, RunOk;
    var s := Entries(k, source, pos, n);
    assert Orderly(k, source, s);
    RunFromBuffer(k, source, s, qsort(s));
    assert Deref(source, s) == source[pos .. pos + n];
    PermutedMembers(s, qsort(s));
  }

  /** The records of the source have the attribute, and it can be compared. */
  ghost predicate SourceOk(k: Attr, source: seq<Rec>) {
    && AttrOk(k)
    && (forall i :: 0 <= i < |source| ==> Has(k, source[i]))
    && (forall i, j :: 0 <= i < |source| && 0 <= j < |source| ==> Comparable(k, source[i], source[j]))
  }

  lemma SourceSortable(k: Attr, source: seq<Rec>)
    requires SourceOk(k, source)
    ensures Sortable(k, multiset(source))
  {
    hide Has, Comparable;
    forall a, b | a in multiset(source) && b in multiset(source)
      ensures Has(k, a) && Has(k, b) && Comparable(k, a, b)
    {
      var i :| 0 <= i < |source| && source[i] == a;
      var j :| 0 <= j < |source| && source[j] == b;
    }
  }

  /** The fill loop: up to maxItems records of the source, from the scan position on. */
  method FillBuffer(k: Attr, source: seq<Rec>, buffer: array<SortRec>, pos: nat) returns (numItems: nat)
    requires pos <= |source| && forall i :: 0 <= i < |source| ==> Has(k, source[i])
    modifies buffer
    ensures numItems == if |source| - pos < buffer.Length then |source| - pos else buffer.Length
    ensures buffer[..numItems] == Entries(k, source, pos, numItems)
  {
    hide Has, Field;
    numItems := 0;
    while numItems < buffer.Length
      invariant 0 <= numItems <= buffer.Length && pos + numItems <= |source|
      invariant forall j :: 0 <= j < numItems ==> buffer[j] == SortRec(pos + j, Field(k, source[pos + j]))
    {
      if pos + numItems == |source| { break; }
      buffer[numItems] := SortRec(pos + numItems, Field(k, source[pos + numItems]));
      numItems := numItems + 1;
    }
  }

  /** generateRun: the buffer is sorted in place, and the records it refers to are written out. */
  method GenerateRun(source: seq<Rec>, buffer: array<SortRec>, items: nat, qsort: seq<SortRec> -> seq<SortRec>)
    returns (run: seq<Rec>)
    requires items <= buffer.Length
    requires |qsort(buffer[..items])| == items && Inside(source, qsort(buffer[..items]))
    modifies buffer
    ensures run == Deref(source, qsort(old(buffer[..items])))
    ensures buffer[..items] == qsort(old(buffer[..items]))
  {
    ghost var t := qsort(buffer[..items]);
    var sorted := qsort(buffer[..items]);
    forall i | 0 <= i < items { buffer[i] := sorted[i]; }
    run := [];
    for i := 0 to items
      invariant run == Deref(source, t)[..i]
    {
      run := run + [source[buffer[i].rid]];
    }
  }

  /** The runs so far cover the source up to pos, and all but the last are full. */
  ghost predicate Progress(k: Attr, source: seq<Rec>, runs: seq<seq<Rec>>, maxItems: nat, pos: int) {
    && 0 <= pos <= |source|
    && Split(k, source[..pos], runs, maxItems)
    && (pos < |source| ==> AllFull(runs, maxItems))
  }

  lemma ProgressStep(k: Attr, source: seq<Rec>, runs: seq<seq<Rec>>, maxItems: nat, pos: int, run: seq<Rec>)
    requires Progress(k, source, runs, maxItems, pos) && pos < |source| && 1 <= maxItems
    requires |run| == if |source| - pos < maxItems then |source| - pos else maxItems
    requires RunOk(k, run) && multiset(run) == multiset(source[pos .. pos + |run|])
    ensures Progress(k, source, runs + [run], maxItems, pos + |run|)
  {
    hide Split, RunOk;
    assert source[pos .. pos + |run|][..|run|] == source[pos .. pos + |run|];
    SplitSnoc(k, source[..pos], runs, maxItems, source[pos .. pos + |run|], run);
    assert source[..pos] + source[pos .. pos + |run|] == source[..pos + |run|];
  }

  lemma ProgressDone(k: Attr, source: seq<Rec>, runs: seq<seq<Rec>>, maxItems: nat)
    requires Progress(k, source, runs, maxItems, |source|) && SourceOk(k, source)
    ensures Split(k, source, runs, maxItems) && Mergeable(k, runs) && Pool(runs) == multiset(source)
  {
    hide Split, RunOk, Has, Comparable;
    assert source[..|source|] == source;
    SplitPool(k, source, runs, maxItems);
    SourceSortable(k, source);
  }

  /**
   The constructor with its sortFile: bad parameters are refused; otherwise the
   source is cut into sorted runs of maxItems records, and every record is in one.
   */
  method SortFile(k: Attr, source: seq<Rec>, maxItems: int, qsort: seq<SortRec> -> seq<SortRec>)
    returns (status: Status, runs: seq<seq<Rec>>)
    requires AttrOk(k) ==> SourceOk(k, source) && IsQSort(k, source, qsort)
    ensures status == if k.offset < 0 || k.length < 1 || (k.dtype == INTEGER && k.length != 4) then BADSORTPARM
                      else if maxItems < 2 then INSUFMEM else OK
    ensures status == OK ==> Split(k, source, runs, maxItems) && Mergeable(k, runs) && Pool(runs) == multiset(source)
    ensures status == OK ==> forall i :: 0 <= i < |runs| ==> Ascending(k, runs[i])
  {
    hide Mergeable, Pool, Entries, Deref, FieldCmp, InOrder;
    hide Split, RunOk, IsQSort, Has, Comparable, Ascending;
    runs := [];
    if k.offset < 0 || k.length < 1 || (k.dtype == INTEGER && k.length != 4) { return BADSORTPARM, []; }
    if maxItems < 2 { return INSUFMEM, []; }
    var buffer := new SortRec[maxItems](i => SortRec(0, []));
    var pos := 0;
    var numItems := maxItems;
    assert Progress(k, source, runs, maxItems, 0) by { SplitNone(k, source, maxItems); }
    while numItems > 0
      invariant Progress(k, source, runs, maxItems, pos)
      invariant 0 <= numItems && (numItems == 0 ==> pos == |source|)
      decreases |source| - pos, numItems
    {
      numItems := FillBuffer(k, source, buffer, pos);
      if numItems > 0 {
        ChunkRun(k, source, pos, numItems, qsort);
        var run := GenerateRun(source, buffer, numItems, qsort);
        ProgressStep(k, source, runs, maxItems, pos, run);
        pos, runs := pos + numItems, runs + [run];
      }
    }
    ProgressDone(k, source, runs, maxItems);
    RunsAscend(k, runs);
    status := OK;
  }

  lemma RunsAscend(k: Attr, runs: seq<seq<Rec>>)
    requires Mergeable(k, runs)
    ensures forall i :: 0 <= i < |runs| ==> Ascending(k, runs[i])
  {
    hide Has, Comparable, RunOk, Ascending;
    forall i | 0 <= i < |runs|
      ensures Ascending(k, runs[i])
    {
      PoolHas(runs, i);
      SortedAscends(k, runs[i]);
    }
  }

  lemma SplitNone(k: Attr, source: seq<Rec>, maxItems: nat)
    ensures Progress(k, source, [], maxItems, 0)
  {
  }

  // ---------- next until the end of the file, and back to a mark ----------

  /** Calls of next that deliver out take what is left of the runs from rs to rest. */
  ghost predicate Reaches(k: Attr, rs: seq<seq<Rec>>, out: seq<Rec>, rest: seq<seq<Rec>>)
    decreases |out|
  {
    if out == [] then rest == rs
    else exists i :: Smallest(k, rs, i) && out[0] == rs[i][0] && Reaches(k, Advance(rs, i), out[1..], rest)
  }

  lemma {:induction false} ReachesSnoc(k: Attr, rs: seq<seq<Rec>>, out: seq<Rec>, mid: seq<seq<Rec>>, i: int)
    requires Reaches(k, rs, out, mid) && Smallest(k, mid, i)
    ensures Reaches(k, rs, out + [mid[i][0]], Advance(mid, i))
    decreases |out|
  {
    hide Has, RecCmp;
    var o := out + [mid[i][0]];
    if out == [] {
      assert o[0] == mid[i][0] && Reaches(k, Advance(rs, i), o[1..], Advance(mid, i));
    } else {
      var j :| Smallest(k, rs, j) && out[0] == rs[j][0] && Reaches(k, Advance(rs, j), out[1..], mid);
      ReachesSnoc(k, Advance(rs, j), out[1..], mid, i);
      assert o[1..] == out[1..] + [mid[i][0]];
    }
  }

  lemma {:induction false} ReachesEnd(k: Attr, rs: seq<seq<Rec>>, out: seq<Rec>, rest: seq<seq<Rec>>)
    requires Reaches(k, rs, out, rest) && Exhausted(rest)
    ensures Delivers(k, rs, out)
    decreases |out|
  {
    hide Has, RecCmp, Exhausted;
    if out != [] {
      var j :| Smallest(k, rs, j) && out[0] == rs[j][0] && Reaches(k, Advance(rs, j), out[1..], rest);
      ReachesEnd(k, Advance(rs, j), out[1..], rest);
    }
  }

  lemma NotExhausted(k: Attr, rs: seq<seq<Rec>>, i: int)
    requires Smallest(k, rs, i)
    ensures !Exhausted(rs)
  {
  }

  /** Whatever part of the delivery has been taken, it is a beginning of the whole. */
  lemma {:induction false} ReachesPrefix(k: Attr, rs: seq<seq<Rec>>, part: seq<Rec>, rest: seq<seq<Rec>>, out: seq<Rec>)
    requires Mergeable(k, rs) && Reaches(k, rs, part, rest) && Delivers(k, rs, out)
    ensures part <= out
    decreases |part|
  {
    hide Has, RecCmp, Mergeable, Advance, Exhausted, Pool;
    if part != [] {
      var i :| Smallest(k, rs, i) && part[0] == rs[i][0] && Reaches(k, Advance(rs, i), part[1..], rest);
      if out == [] {
        NotExhausted(k, rs, i);
      } else {
        var j :| Smallest(k, rs, j) && out[0] == rs[j][0] && Delivers(k, Advance(rs, j), out[1..]);
        OneSmallest(k, rs, i, j);
        AdvanceKeeps(k, rs, i);
        ReachesPrefix(k, Advance(rs, i), part[1..], rest, out[1..]);
        assert part == [part[0]] + part[1..] && out == [out[0]] + out[1..];
      }
    }
  }

  /** Up to n calls of next; fewer only when the runs are exhausted. */
  method Take(f: SortedFile, n: nat) returns (out: seq<Rec>)
    requires f.Valid() && Mergeable(f.key, f.Remaining())
    modifies f.runs
    ensures f.Valid() && Mergeable(f.key, f.Remaining()) && f.Marks() == old(f.Marks())
    ensures Reaches(f.key, old(f.Remaining()), out, f.Remaining())
    ensures |out| == n || (|out| < n && Exhausted(f.Remaining()))
  {
    hide Mergeable, Has, RecCmp, Exhausted, SortedFile.Valid;
    out := [];
    ghost var rs := f.Remaining();
    while |out| < n
      invariant f.Valid() && Mergeable(f.key, f.Remaining()) && f.Marks() == old(f.Marks())
      invariant Reaches(f.key, rs, out, f.Remaining()) && |out| <= n
      decreases n - |out|
    {
      ghost var ls := f.Remaining();
      var status, rec, i := f.Next();
      if status != OK { return; }
      ReachesSnoc(f.key, rs, out, ls, i);
      AdvanceStep(f.key, ls, i);
      out := out + [rec];
    }
  }

  lemma AdvanceStep(k: Attr, rs: seq<seq<Rec>>, i: int)
    requires Mergeable(k, rs) && Smallest(k, rs, i)
    ensures Mergeable(k, Advance(rs, i)) && |Pool(Advance(rs, i))| < |Pool(rs)|
  {
    hide Mergeable;
    AdvanceKeeps(k, rs, i);
  }

  /** next until it reports the end of the file. */
  method Drain(f: SortedFile) returns (out: seq<Rec>)
    requires f.Valid() && Mergeable(f.key, f.Remaining())
    modifies f.runs
    ensures f.Valid() && f.Marks() == old(f.Marks()) && Exhausted(f.Remaining())
    ensures Delivers(f.key, old(f.Remaining()), out)
  {
    hide Mergeable, Has, RecCmp, Exhausted, SortedFile.Valid;
    out := [];
    ghost var rs := f.Remaining();
    while true
      invariant f.Valid() && Mergeable(f.key, f.Remaining()) && f.Marks() == old(f.Marks())
      invariant Reaches(f.key, rs, out, f.Remaining())
      decreases |Pool(f.Remaining())|
    {
      ghost var ls := f.Remaining();
      var status, rec, i := f.Next();
      if status != OK { break; }
      ReachesSnoc(f.key, rs, out, ls, i);
      AdvanceStep(f.key, ls, i);
      out := out + [rec];
    }
    ReachesEnd(f.key, rs, out, f.Remaining());
  }

  /**
   Replay: a record r is read and the mark set; any n calls of next later,
   going back to the mark delivers r again and then everything that followed it.
   */
  method Replay(f: SortedFile, n: nat) returns (status: Status, r: Rec, between: seq<Rec>, again: seq<Rec>)
    requires f.Valid() && Mergeable(f.key, f.Remaining())
    modifies f.runs
    ensures status == if Exhausted(old(f.Remaining())) then FILEEOF else OK
    ensures status == OK ==>
      && Delivers(f.key, old(f.Remaining()), again)
      && [r] + between <= again
      && (|between| == n || [r] + between == again)
  {
    hide Mergeable, Has, RecCmp, Exhausted, SortedFile.Valid;
    r, between, again := [], [], [];
    ghost var rs := f.Remaining();
    ghost var i;
    status, r, i := f.Next();
    if status != OK { return; }
    AdvanceStep(f.key, rs, i);
    f.SetMark();
    between := Take(f, n);
    ghost var rest := f.Remaining();
    f.GotoMark();
    again := Drain(f);
    ReplayShape(f.key, rs, i, between, rest, again);
  }

  lemma ReplayShape(k: Attr, rs: seq<seq<Rec>>, i: int, between: seq<Rec>, rest: seq<seq<Rec>>, again: seq<Rec>)
    requires Mergeable(k, rs) && Smallest(k, rs, i) && Reaches(k, Advance(rs, i), between, rest)
    requires Delivers(k, rs, again)
    ensures [rs[i][0]] + between <= again
    ensures Exhausted(rest) ==> [rs[i][0]] + between == again
  {
    hide Mergeable, Has, RecCmp, Exhausted;
    var part := [rs[i][0]] + between;
    assert part[1..] == between;
    assert Reaches(k, rs, part, rest);
    ReachesPrefix(k, rs, part, rest, again);
    if Exhausted(rest) {
      ReachesEnd(k, rs, part, rest);
      DeliversUnique(k, rs, part, again);
    }
  }

  /**
   The whole of external sorting: for every source and every maxItems of at
   least 2 the records come out of next in order, and are those of the source;
   among equal ones those of an earlier run come first.
   */
  method SortAll(k: Attr, source: seq<Rec>, maxItems: int, qsort: seq<SortRec> -> seq<SortRec>)
    returns (status: Status, out: seq<Rec>)
    requires AttrOk(k) ==> SourceOk(k, source) && IsQSort(k, source, qsort)
    ensures status == if k.offset < 0 || k.length < 1 || (k.dtype == INTEGER && k.length != 4) then BADSORTPARM
                      else if maxItems < 2 then INSUFMEM else OK
    ensures status == OK ==> multiset(out) == multiset(source) && RunOk(k, out) && Ascending(k, out)
    ensures status == OK ==> exists runs ::
      Split(k, source, runs, maxItems) && Delivers(k, runs, out) && Stable(k, runs, out)
  {
    hide Split, RunOk, IsQSort, SourceOk, Mergeable, SortedFile.Valid, Ascending, Tied, TiedRuns;
    out := [];
    var runs;
    status, runs := SortFile(k, source, maxItems, qsort);
    if status == OK {
      var f := new SortedFile(k, runs);
      out := Drain(f);
      MergeCorrect(k, runs, out);
      forall x
        ensures Tied(k, out, x) == TiedRuns(k, runs, x)
      {
        MergeStable(k, runs, out, x);
      }
    }
  }
}
