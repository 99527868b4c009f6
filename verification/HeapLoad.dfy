/**
 Writing a heap file and reading it back: records inserted one after the other
 come out of a scan in that order.  This is how the runs of an external sort are
 written and read.
 */
module HeapLoad {
  import opened Statuses
  import opened Bytes
  import opened Records
  import opened Disk
  import opened BufHash
  import opened BufferPool
  import opened Transparency
  import opened Pins
  import opened Bystanders
  import opened BufMgrs
  import opened PageView
  import opened Page
  import opened Compare
  import opened HeapSpec
  import opened HeapLayout
  import opened HeapSession
  import opened HeapFile
  import opened InsertFile
  import opened HeapClients
  import opened HeapCreate

  /** A page from which nothing has been deleted: every slot holds a record that can be read. */
  ghost predicate Dense(v: View) {
    InBounds(|v.data|, v.slots) && forall i :: 0 <= i < |v.slots| ==> v.slots[i].length > 0
  }

  ghost predicate DenseAll(vs: seq<View>) { forall j :: 0 <= j < |vs| ==> Dense(vs[j]) }

  ghost function RecordsOn(v: View): (r: seq<seq<Byte>>)
    requires Dense(v)
    ensures |r| == |v.slots| && forall i :: 0 <= i < |r| ==> r[i] == RecordAt(v, i)
  {
    seq(|v.slots|, i requires 0 <= i < |v.slots| => RecordAt(v, i))
  }

  ghost function ListingFrom(vs: seq<View>, j: nat): seq<seq<Byte>>
    requires DenseAll(vs) && j <= |vs|
    decreases |vs| - j
  {
    if j == |vs| then [] else RecordsOn(vs[j]) + ListingFrom(vs, j + 1)
  }

  /** The records of the pages in chain order and then slot order. */
  ghost function Listing(vs: seq<View>): seq<seq<Byte>>
    requires DenseAll(vs)
  {
    ListingFrom(vs, 0)
  }

  // ---------- inserting ----------

  lemma DenseInsert(v: View, rec: seq<Byte>)
    requires Dense(v) && rec != []
    ensures FirstFree(v.slots) == |v.slots|
    ensures Dense(Insert(v, rec)) && RecordsOn(Insert(v, rec)) == RecordsOn(v) + [rec]
  {
    var w := Insert(v, rec);
    InsertAdds(v, rec);
    forall i | 0 <= i < |v.slots|
      ensures w.slots[i] == v.slots[i] && RecordAt(w, i) == RecordAt(v, i)
    {
      InsertKeeps(v, rec, i);
    }
  }

  lemma {:induction false} ListingLast(vs: seq<View>, v: View, j: nat)
    requires DenseAll(vs) && Dense(v) && j <= |vs|
    ensures DenseAll(vs + [v]) && ListingFrom(vs + [v], j) == ListingFrom(vs, j) + RecordsOn(v)
    decreases |vs| - j
  {
    hide Dense, RecordsOn;
    if j < |vs| {
      ListingLast(vs, v, j + 1);
      assert (vs + [v])[j] == vs[j];
    } else {
      assert ListingFrom(vs + [v], j + 1) == [];
    }
  }

  lemma Relinked(v: View, p: int)
    requires Dense(v)
    ensures Dense(v.(next := p)) && RecordsOn(v.(next := p)) == RecordsOn(v)
  {
  }

  lemma FreshDense(p: int)
    ensures Dense(Fresh(p)) && RecordsOn(Fresh(p)) == []
  {
  }

  /** A record that insertRecord accepts is the last of the file. */
  lemma InsertedLast(vs: seq<View>, c: seq<int>, ws: seq<View>, d: seq<int>, rec: seq<Byte>, rid: RID)
    requires DenseAll(vs) && rec != [] && exists u, f :: Outcome(vs, c, ws, d, rec, u, f, OK, rid)
    ensures DenseAll(ws) && Listing(ws) == Listing(vs) + [rec]
  {
    hide Dense, RecordsOn, ListingFrom, Insert;
    var init, v := vs[..Last(c)], vs[Last(c)];
    assert vs == init + [v];
    ListingLast(init, v, 0);
    DenseInsert(v, rec);
    if Fits(v, rec) {
      assert ws == init + [Insert(v, rec)];
      ListingLast(init, Insert(v, rec), 0);
    } else {
      var p := d[|c|];
      Relinked(v, p);
      FreshDense(p);
      DenseInsert(Fresh(p), rec);
      assert ws == (init + [v.(next := p)]) + [Insert(Fresh(p), rec)];
      ListingLast(init, v.(next := p), 0);
      ListingLast(init + [v.(next := p)], Insert(Fresh(p), rec), 0);
    }
  }

  /** recCnt counts the records of the listing. */
  lemma {:induction false} ListingCounted(vs: seq<View>)
    requires DenseAll(vs)
    ensures Total(vs) == |Listing(vs)|
    decreases |vs|
  {
    hide ListingFrom, Total;
    if vs != [] {
      var init, v := vs[..|vs| - 1], vs[|vs| - 1];
      assert vs == init + [v];
      ListingCounted(init);
      ListingLast(init, v, 0);
      TotalAppend(init, v);
      AllUsed(v.slots);
    } else {
      NothingListed(vs);
    }
  }

  lemma NothingListed(vs: seq<View>)
    requires vs == []
    ensures Total(vs) == 0 == |Listing(vs)|
  {
  }

  lemma {:induction false} AllUsed(slots: seq<Slot>)
    requires forall i :: 0 <= i < |slots| ==> slots[i].length > 0
    ensures |UsedSet(slots)| == |slots|
  {
    if slots != [] {
      var init := slots[..|slots| - 1];
      AllUsed(init);
      assert UsedSet(slots) == UsedSet(init) + {|slots| - 1};
    }
  }

  // ---------- scanning ----------

  /** The record at every position, in order. */
  ghost function RecordsAt(vs: seq<View>, ps: seq<Pos>): (r: seq<seq<Byte>>)
    requires InBoundsAll(vs) && forall k :: 0 <= k < |ps| ==> UsedAt(vs, ps[k])
    ensures |r| == |ps| && forall k :: 0 <= k < |ps| ==> r[k] == RecAt(vs, ps[k])
  {
    seq(|ps|, k requires 0 <= k < |ps| => RecAt(vs, ps[k]))
  }

  lemma {:induction false} UsedFromDense(slots: seq<Slot>, i: nat)
    requires i <= |slots| && forall k :: 0 <= k < |slots| ==> slots[k].length > 0
    ensures |UsedFrom(slots, i)| == |slots| - i
    ensures forall k :: 0 <= k < |slots| - i ==> UsedFrom(slots, i)[k] == i + k
    decreases |slots| - i
  {
    if i < |slots| { UsedFromDense(slots, i + 1); }
  }

  lemma DensePage(vs: seq<View>, j: nat)
    requires DenseAll(vs) && j < |vs|
    ensures InBoundsAll(vs)
    ensures var ps := OnPage(j, UsedFrom(vs[j].slots, 0));
            && (forall k :: 0 <= k < |ps| ==> UsedAt(vs, ps[k]))
            && RecordsAt(vs, ps) == RecordsOn(vs[j])
  {
    UsedFromDense(vs[j].slots, 0);
  }

  lemma RecordsJoin(vs: seq<View>, ps: seq<Pos>, qs: seq<Pos>)
    requires InBoundsAll(vs)
    requires (forall k :: 0 <= k < |ps| ==> UsedAt(vs, ps[k])) && (forall k :: 0 <= k < |qs| ==> UsedAt(vs, qs[k]))
    ensures (forall k :: 0 <= k < |ps + qs| ==> UsedAt(vs, (ps + qs)[k]))
    ensures RecordsAt(vs, ps + qs) == RecordsAt(vs, ps) + RecordsAt(vs, qs)
  {
    hide RecAt, UsedAt, InBoundsAll;
  }

  /** An unfiltered scan of dense pages lists their records. */
  lemma {:induction false} PositionsListed(vs: seq<View>, j: nat)
    requires DenseAll(vs) && j <= |vs|
    ensures InBoundsAll(vs) && forall k :: 0 <= k < |Positions(vs, j)| ==> UsedAt(vs, Positions(vs, j)[k])
    ensures RecordsAt(vs, Positions(vs, j)) == ListingFrom(vs, j)
    decreases |vs| - j
  {
    hide UsedAt, RecordsOn, RecordsAt, OnPage, UsedFrom;
    if j < |vs| {
      PositionsListed(vs, j + 1);
      DensePage(vs, j);
      RecordsJoin(vs, OnPage(j, UsedFrom(vs[j].slots, 0)), Positions(vs, j + 1));
    }
  }

  lemma {:induction false} AllSelected(vs: seq<View>, ps: seq<Pos>)
    requires InBoundsAll(vs) && forall p :: p in ps ==> UsedAt(vs, p)
    ensures Selected(vs, ps, NoFilter) == ps
  {
    if ps != [] { AllSelected(vs, ps[1..]); }
  }

  // ---------- over the buffer manager ----------

  /** Records that always fit on a page. */
  predicate Insertable(recs: seq<seq<Byte>>) {
    forall i :: 0 <= i < |recs| ==> 1 <= |recs[i]| <= CAPACITY - SLOT_SIZE
  }

  /** The listing of a dense file, in one term. */
  ghost predicate Lists(vs: seq<View>, recs: seq<seq<Byte>>) {
    DenseAll(vs) && Listing(vs) == recs
  }

  lemma ListsMore(vs: seq<View>, c: seq<int>, ws: seq<View>, d: seq<int>, recs: seq<seq<Byte>>, rec: seq<Byte>,
                  unread: bool, full: bool, status: Status, rid: RID)
    requires Lists(vs, recs) && 1 <= |rec| <= CAPACITY - SLOT_SIZE &&
      Outcome(vs, c, ws, d, rec, unread, full, status, rid)
    ensures status == OK || (status == BUFFEREXCEEDED && (unread || full))
    ensures Lists(ws, if status == OK then recs + [rec] else recs)
  {
    hide Dense, ListingFrom, Insert;
    if status == OK { InsertedLast(vs, c, ws, d, rec, rid); }
  }

  /** The file of an open inserter is on disk. */
  lemma InFiles(scan: InsertFileScan)
    requires scan.Valid()
    ensures scan.file in scan.mgr.disk.files
  {
    hide Inv, PinsOk, BufMgr.Valid, Sound, Pages;
    HeaderInHeap(scan.mgr.State(), scan.W());
  }

  /** With three frames to spare an inserter never lacks one. */
  lemma SpareInserts(scan: InsertFileScan)
    requires scan.Valid() && Spare(scan.base, 3)
    ensures !scan.Unread() && !scan.NoFrame()
  {
    hide InsertFileScan.Valid, PinnedKeys;
    var h := Key(scan.file, scan.headerPageNo);
    SpareRoom(scan.base, 3, {h});
    if scan.chain != [] { SpareRoom(scan.base, 3, {h, Key(scan.file, scan.chain[Last(scan.chain)])}); }
  }

  /**
   Why writing may stop: the file has reached the largest size, or fewer than
   three frames are spare.
   */
  ghost predicate Excused(status: Status, base: Sys, size: int) {
    (status == UNIXERR && MAX_PAGES <= size) || (status == BUFFEREXCEEDED && !Spare(base, 3))
  }

  /** One insertRecord; a file of the largest size is left alone. */
  method AddOne(scan: InsertFileScan, rec: seq<Byte>, ghost before: seq<seq<Byte>>) returns (status: Status)
    requires scan.Valid() && Lists(scan.Views(), before) && IsInt(|before| + 1) && 1 <= |rec| <= CAPACITY - SLOT_SIZE
    modifies scan, scan.mgr.Repr
    ensures scan.base == old(scan.base)
    ensures scan.Valid() && fresh(scan.mgr.Repr - old(scan.mgr.Repr))
    ensures scan.file in old(scan.mgr.disk.files) && OneMore(old(scan.mgr.disk.files), scan.mgr.disk.files, scan.file)
    ensures status == OK || Excused(status, scan.base, |old(scan.mgr.disk.files)[scan.file]|)
    ensures Lists(scan.Views(), if status == OK then before + [rec] else before)
    ensures Elsewhere(old(scan.mgr.State()), scan.mgr.State(), scan.file)
  {
    hide InsertFileScan.Valid, DenseAll, Listing, Total, Outcome, Spare, Elsewhere;
    scan.Still();
    ghost var vs, c, unread, full := scan.Views(), scan.chain, scan.Unread(), scan.NoFrame();
    InFiles(scan);
    ListingCounted(vs);
    if Spare(scan.base, 3) { SpareInserts(scan); }
    if |scan.mgr.disk.files[scan.file]| >= MAX_PAGES { return UNIXERR; }
    var rid;
    status, rid := scan.InsertRecord(rec);
    ListsMore(vs, c, scan.Views(), scan.chain, before, rec, unread, full, status, rid);
  }

  /**
   The write loop of generateRun: the records go to the end of the file, in order,
   all of them unless the file grows too large or frames are short.
   */
  method Load(scan: InsertFileScan, recs: seq<seq<Byte>>, ghost before: seq<seq<Byte>>) returns (status: Status, n: nat)
    requires scan.Valid() && Lists(scan.Views(), before) && IsInt(|before| + |recs|) && Insertable(recs)
    modifies scan, scan.mgr.Repr
    ensures scan.base == old(scan.base)
    ensures scan.Valid() && fresh(scan.mgr.Repr - old(scan.mgr.Repr))
    ensures scan.file in old(scan.mgr.disk.files)
    ensures status == OK || (n < |recs| && Excused(status, scan.base, |old(scan.mgr.disk.files)[scan.file]| + n))
    ensures n <= |recs| && (status == OK <==> n == |recs|)
    ensures Lists(scan.Views(), before + recs[..n])
    ensures Elsewhere(old(scan.mgr.State()), scan.mgr.State(), scan.file)
  {
    hide InsertFileScan.Valid, Lists, Spare, Elsewhere;
    ghost var s := scan.mgr.State();
    scan.Apart();
    scan.Still();
    status, n := OK, 0;
    InFiles(scan);
    assert before + recs[..0] == before;
    while n < |recs|
      invariant 0 <= n <= |recs|
      invariant scan.Valid() && fresh(scan.mgr.Repr - old(scan.mgr.Repr))
      invariant scan.file in scan.mgr.disk.files
      invariant |scan.mgr.disk.files[scan.file]| <= |old(scan.mgr.disk.files)[scan.file]| + n
      invariant scan.base == old(scan.base)
      invariant Lists(scan.Views(), before + recs[..n]) && Elsewhere(s, scan.mgr.State(), scan.file)
    {
      ghost var t := scan.mgr.State();
      status := AddOne(scan, recs[n], before + recs[..n]);
      ElsewhereTrans(s, t, scan.mgr.State(), scan.file);
      if status != OK { return; }
      assert before + recs[..n] + [recs[n]] == before + recs[..n + 1];
      n := n + 1;
    }
    status := OK;
  }

  lemma ListsScannable(vs: seq<View>, recs: seq<seq<Byte>>)
    requires Lists(vs, recs) && vs != []
    ensures Scannable(vs, START, NoFilter)
    ensures (forall q :: q in Positions(vs, 0) ==> UsedAt(vs, q))
    ensures Selected(vs, Readable(vs, Positions(vs, 0)), NoFilter) == Positions(vs, 0) && Ending(vs, START) == Eof
    ensures forall k :: 0 <= k < |Positions(vs, 0)| ==> UsedAt(vs, Positions(vs, 0)[k])
    ensures RecordsAt(vs, Positions(vs, 0)) == recs
  {
    hide RecordsOn, UsedFrom, RecordsAt;
    PositionsListed(vs, 0);
    PositionsExact(vs, 0);
    AllReadable(vs, Positions(vs, 0));
    AllSelected(vs, Positions(vs, 0));
    ScanResult(vs, NoFilter);
  }

  lemma RecordsSnoc(vs: seq<View>, ps: seq<Pos>, q: Pos)
    requires InBoundsAll(vs) && (forall k :: 0 <= k < |ps| ==> UsedAt(vs, ps[k])) && UsedAt(vs, q)
    ensures forall k :: 0 <= k < |ps + [q]| ==> UsedAt(vs, (ps + [q])[k])
    ensures RecordsAt(vs, ps + [q]) == RecordsAt(vs, ps) + [RecAt(vs, q)]
  {
    hide RecAt, UsedAt, InBoundsAll;
  }

  /** out has been read on the way from the start of the file to p. */
  ghost predicate Reading(vs: seq<View>, chain: seq<int>, f: Filter, found: seq<Pos>, rids: seq<RID>, p: Pos,
      out: seq<seq<Byte>>) {
    SoFar(vs, chain, f, found, rids, p) && out == RecordsAt(vs, found)
  }

  lemma ReadingStart(vs: seq<View>, chain: seq<int>, recs: seq<seq<Byte>>)
    requires Lists(vs, recs) && vs != [] && |vs| == |chain|
    ensures AtPage(vs, START) && InBoundsAll(vs) && Reading(vs, chain, NoFilter, [], [], START, [])
    ensures Ending(vs, START) == Eof
  {
    hide Lists, Drain, Ending, Positions, InBoundsAll, Readable, Selected;
    ListsScannable(vs, recs);
    assert [] + Drain(vs, START, NoFilter) == Drain(vs, START, NoFilter);
  }

  lemma ReadingEnd(vs: seq<View>, chain: seq<int>, found: seq<Pos>, rids: seq<RID>, p: Pos, out: seq<seq<Byte>>,
      recs: seq<seq<Byte>>)
    requires Lists(vs, recs) && vs != [] && Reading(vs, chain, NoFilter, found, rids, p, out)
    requires Drain(vs, START, NoFilter) == found
    ensures out == recs
  {
    hide Lists, Drain, Ending, Positions, InBoundsAll, Readable, Selected, RecordsAt, UsedAt;
    ListsScannable(vs, recs);
    ScanResult(vs, NoFilter);
  }

  /** One scanNext with its getRecord. */
  method ReadTurn(scan: HeapFileScan, ghost vs: seq<View>, ghost got: seq<Pos>, ghost before: seq<RID>, ghost p: Pos,
                  ghost out: seq<seq<Byte>>) returns (status: Status, rid: RID, rec: seq<Byte>)
    requires scan.Valid() && scan.curPage != null && vs == scan.Views() && p == scan.Where()
    requires Reading(vs, scan.chain, scan.filter, got, before, p, out)
    modifies scan`curPage, scan`curPageNo, scan`curDirtyFlag, scan`cur, scan`curRec, scan.mgr.Repr
    ensures scan.Valid() && fresh(scan.mgr.Repr - old(scan.mgr.Repr)) && scan.Views() == vs &&
      scan.filter == old(scan.filter)
    ensures scan.Contents() == old(scan.Contents())
    ensures status == OK ==>
      && scan.curPage != null && AtPage(vs, p) && AtPage(vs, scan.Where())
      && Reading(vs, scan.chain, scan.filter, got + [scan.Where()], before + [rid], scan.Where(), out + [rec])
      && Remaining(vs, scan.Where()) < Remaining(vs, p)
      && p.page <= scan.Where().page < |vs| && scan.Clear(p.page, scan.Where().page)
    ensures AtPage(vs, START) && InBoundsAll(vs) && |vs| == |scan.chain| && scan.filter.Ok()
    ensures status == BUFFEREXCEEDED ==> !Passes(scan, p.page, Ending(vs, START))
    ensures status != OK && status != BUFFEREXCEEDED ==>
      && Drain(vs, START, scan.filter) == got
      && status == EndStatus(Ending(vs, START)) && Passes(scan, p.page, Ending(vs, START))
    ensures Aside(old(scan.mgr.State()), scan.mgr.State(), scan.file, scan.base)
  {
    hide BlockedPage, HeapFileScan.Valid, Drain, Next, MatchRec, Ending, InBoundsAll, RecordsAt, RecAt;
    hide Remaining, Passes, Elsewhere, Kept;
    rec := [];
    status, rid := ScanTurn(scan, vs, got, before, p);
    if status != OK { return; }
    assert UsedAt(vs, (got + [scan.Where()])[|got|]);
    RecordsSnoc(vs, got, scan.Where());
    var ignored;
    ignored, rec := scan.GetRecord(vs);
  }

  /** scanNext and getRecord until the end of the file, as sortFile and next use them. */
  method ReadAll(scan: HeapFileScan, ghost vs: seq<View>, ghost recs: seq<seq<Byte>>)
      returns (status: Status, out: seq<seq<Byte>>)
    requires scan.Valid() && scan.curPage != null && scan.Where() == START && scan.filter == NoFilter
    requires vs == scan.Views() && |vs| == |scan.chain| && vs != [] && Lists(vs, recs)
    modifies scan`curPage, scan`curPageNo, scan`curDirtyFlag, scan`cur, scan`curRec, scan.mgr.Repr
    ensures scan.Valid() && fresh(scan.mgr.Repr - old(scan.mgr.Repr)) && scan.Views() == vs &&
      scan.Contents() == old(scan.Contents())
    ensures status == if scan.Clear(0, |vs| - 1) then FILEEOF else BUFFEREXCEEDED
    ensures status == FILEEOF ==> out == recs
    ensures Elsewhere(old(scan.mgr.State()), scan.mgr.State(), scan.file)
  {
    hide BlockedPage, HeapFileScan.Valid, Lists, Drain, Ending, Reading, Remaining, InBoundsAll, Elsewhere;
    ghost var s := scan.mgr.State();
    scan.Apart();
    scan.Still();
    out := [];
    ReadingStart(vs, scan.chain, recs);
    ghost var found, rids := [], [];
    while true
      invariant scan.Valid() && fresh(scan.mgr.Repr - old(scan.mgr.Repr)) && scan.Views() == vs &&
        scan.filter == NoFilter
      invariant scan.Contents() == old(scan.Contents()) && scan.curPage != null && AtPage(vs, scan.Where())
      invariant Elsewhere(s, scan.mgr.State(), scan.file)
      invariant Reading(vs, scan.chain, NoFilter, found, rids, scan.Where(), out)
      invariant 0 <= scan.Where().page < |vs| && scan.Clear(0, scan.Where().page)
      decreases Remaining(vs, scan.Where())
    {
      var rid, rec;
      ghost var p, t := scan.Where(), scan.mgr.State();
      status, rid, rec := ReadTurn(scan, vs, found, rids, p, out);
      ElsewhereTrans(s, t, scan.mgr.State(), scan.file);
      if status != OK {
        if status != BUFFEREXCEEDED { ReadingEnd(vs, scan.chain, found, rids, p, out, recs); }
        return;
      }
      out := out + [rec];
      found, rids := found + [scan.Where()], rids + [rid];
    }
  }

  /** The file is in order and holds these records, and no others. */
  ghost predicate Stored(m: Contents, file: FileId, chain: seq<int>, recs: seq<seq<Byte>>) {
    HeapOk(m, file, 1, chain) && Lists(HeapLayout.Views(m, file, chain), recs)
  }

  /**
   A closed heap file is opened again, read to its end and closed, which every
   page that can be read allows.
   */
  method Reread(mgr: BufMgr, file: FileId, ghost chain: seq<int>, ghost recs: seq<seq<Byte>>)
    returns (status: Status, out: seq<seq<Byte>>)
    requires mgr.Valid() && Inv(mgr.State()) && Sound(mgr.State()) && Stored(Meaning(mgr.State()), file, chain, recs)
    modifies mgr.Repr
    ensures mgr.Valid() && Inv(mgr.State()) && Sound(mgr.State()) && Meaning(mgr.State()) == old(Meaning(mgr.State()))
    ensures forall k :: PinCount(mgr.State(), k) == old(PinCount(mgr.State(), k))
    ensures status == if Crowded(old(mgr.State()), file, chain, |chain|) then BUFFEREXCEEDED else OK
    ensures status == OK ==> out == recs && (old(Unpinned(mgr.State(), file)) ==> OnDisk(mgr.State(), file))
    ensures Elsewhere(old(mgr.State()), mgr.State(), file)
  {
    hide HeapFileScan.Valid, BlockedPage, BufMgr.Valid, Inv, Sound, Meaning, HeapOk, Lists, PinCount;
    hide HeapLayout.Views, Refused, Elsewhere, OnDisk;
    out := [];
    ghost var s := mgr.State();
    if Unopenable(s, file, chain) { UnopenableCrowded(s, file, chain); }
    var scan;
    status, scan := OpenScan(mgr, file, chain);
    if status != OK { return; }
    Ordered(scan);
    scan.HeaderFirst();
    ClearReads(scan, s, |chain| - 1);
    ghost var t := mgr.State();
    ScanShows(scan);
    scan.Apart();
    status, out := ReadAll(scan, scan.Views(), recs);
    ghost var u := mgr.State();
    ElsewhereTrans(s, t, u, file);
    var ignored := scan.Close();
    ghost var v := mgr.State();
    ElsewhereTrans(s, u, v, file);
    ignored := FlushOnClose(mgr, file);
    ElsewhereTrans(s, v, mgr.State(), file);
    if status == FILEEOF { status := OK; }
  }

  lemma UnopenableCrowded(s: Sys, file: FileId, chain: seq<int>)
    requires Unopenable(s, file, chain)
    ensures Crowded(s, file, chain, |chain|)
  {
  }

  /** As many frames are spare as before when the pins are the same. */
  lemma StillSpare(s: Sys, t: Sys, n: nat)
    requires Sound(s) && Sound(t) && |t.frames| == |s.frames| && forall k :: PinCount(t, k) == PinCount(s, k)
    ensures Spare(t, n) <==> Spare(s, n)
  {
    SamePins(s, t);
  }

  /**
   Round trip: records written behind those of an open file come out of a scan
   behind them and in the order written, after the file is closed, flushed and
   opened again.
   */
  method WriteAndRead(scan: InsertFileScan, recs: seq<seq<Byte>>, ghost before: seq<seq<Byte>>)
    returns (status: Status, out: seq<seq<Byte>>, ghost n: nat)
    requires scan.Valid() && scan.headerPageNo == 1 && Lists(scan.Views(), before)
    requires IsInt(|before| + |recs|) && Insertable(recs)
    modifies scan, scan.mgr.Repr
    ensures scan.base == old(scan.base)
    ensures scan.mgr.Valid() && Inv(scan.mgr.State()) && Sound(scan.mgr.State()) && Sound(scan.base)
    ensures forall k :: PinCount(scan.mgr.State(), k) == PinCount(scan.base, k)
    ensures scan.file in old(scan.mgr.disk.files)
    ensures status == OK || Excused(status, scan.base, |old(scan.mgr.disk.files)[scan.file]| + |recs|)
    ensures n <= |recs| && Stored(Meaning(scan.mgr.State()), scan.file, scan.chain, before + recs[..n])
    ensures status == OK ==> n == |recs| && out == before + recs
    ensures status == OK && Unpinned(scan.base, scan.file) ==> OnDisk(scan.mgr.State(), scan.file)
    ensures Elsewhere(old(scan.mgr.State()), scan.mgr.State(), scan.file)
  {
    hide InsertFileScan.Valid, BufMgr.Valid, Inv, Sound, Meaning, HeapOk, Lists, PinCount, HeapLayout.Views, Spare;
    hide Crowded, Elsewhere, OnDisk;
    out := [];
    ghost var s0 := scan.mgr.State();
    scan.Apart();
    var stored;
    status, stored := Load(scan, recs, before);
    n := stored;
    assert recs[..|recs|] == recs;
    ghost var t := scan.mgr.State();
    var ignored := CloseFile(scan);
    ghost var s := scan.mgr.State();
    ElsewhereTrans(s0, t, s, scan.file);
    assert Stored(Meaning(s), scan.file, scan.chain, before + recs[..n]);
    if status != OK { return; }
    StillSpare(scan.base, s, 3);
    if Spare(s, 3) { SpareMore(s, 3, 2); SpareReads(s, scan.file, scan.chain, |scan.chain|); }
    status, out := Reread(scan.mgr, scan.file, scan.chain, before + recs);
    ElsewhereTrans(s0, s, scan.mgr.State(), scan.file);
  }

  lemma SpareMore(s: Sys, n: nat, k: nat)
    requires Spare(s, n) && k <= n
    ensures Spare(s, k)
  {
  }

  /** The destructors of the inserter and the flush of File::close. */
  method CloseFile(scan: InsertFileScan) returns (status: Status)
    requires scan.Valid() && scan.headerPageNo == 1
    modifies scan, scan.mgr.Repr
    ensures scan.base == old(scan.base)
    ensures scan.mgr.Valid() && fresh(scan.mgr.Repr - old(scan.mgr.Repr)) && scan.chain == old(scan.chain)
    ensures scan !in scan.mgr.Repr
    ensures Inv(scan.mgr.State()) && Sound(scan.mgr.State()) && Sound(scan.base)
    ensures HeapOk(Meaning(scan.mgr.State()), scan.file, 1, scan.chain)
    ensures HeapLayout.Views(Meaning(scan.mgr.State()), scan.file, scan.chain) == old(scan.Views())
    ensures |scan.mgr.State().frames| == |scan.base.frames|
    ensures forall k :: PinCount(scan.mgr.State(), k) == PinCount(scan.base, k)
    ensures Unpinned(scan.base, scan.file) ==> OnDisk(scan.mgr.State(), scan.file)
    ensures Elsewhere(old(scan.mgr.State()), scan.mgr.State(), scan.file)
  {
    hide InsertFileScan.Valid, BufMgr.Valid, Inv, Sound, Meaning, HeapOk, PinCount, HeapLayout.Views, OnDisk;
    hide Elsewhere;
    InsertNotNull(scan);
    ghost var s := scan.mgr.State();
    status := scan.Close();
    ghost var t := scan.mgr.State();
    status := FlushOnClose(scan.mgr, scan.file);
    ElsewhereTrans(s, t, scan.mgr.State(), scan.file);
  }

  lemma InsertNotNull(scan: InsertFileScan)
    requires scan.Valid()
    ensures scan.file != NULL_FILE && scan !in scan.mgr.Repr
  {
    hide BufMgr.Valid, SessionOk;
    NotNull(scan.mgr.State(), scan.W());
  }

  lemma ListsNothing(p: int)
    ensures Lists([Fresh(p)], [])
  {
    FreshDense(p);
    NothingListed([]);
    ListingLast([], Fresh(p), 0);
    assert [] + [Fresh(p)] == [Fresh(p)];
  }

  /**
   From a new file to the records read back: create, insert, close, open, scan.
   With three frames to spare and room in the file nothing can go wrong.
   */
  method StoreAll(mgr: BufMgr, file: FileId, recs: seq<seq<Byte>>)
    returns (status: Status, out: seq<seq<Byte>>, ghost chain: seq<int>)
    requires mgr.Valid() && Inv(mgr.State()) && Sound(mgr.State()) && 0 <= file && NewFile(mgr.State(), file)
    requires IsInt(|recs|) && Insertable(recs)
    modifies mgr.Repr
    ensures mgr.Valid() && Inv(mgr.State()) && Sound(mgr.State())
    ensures status == OK || Excused(status, old(mgr.State()), 3 + |recs|)
    ensures status == OK ==> out == recs && forall k :: PinCount(mgr.State(), k) == old(PinCount(mgr.State(), k))
    ensures status == OK ==> Stored(Meaning(mgr.State()), file, chain, recs) && OnDisk(mgr.State(), file)
    ensures Elsewhere(old(mgr.State()), mgr.State(), file)
  {
    hide InsertFileScan.Valid, BufMgr.Valid, Inv, Sound, Meaning, HeapOk, Lists, PinCount, HeapLayout.Views, IsLive;
    hide NewFile, Elsewhere, Stored, OnDisk, Unpinned, Crowded;
    hide Spare, Uninsertable;
    out, chain := [], [];
    ghost var s := mgr.State();
    if Spare(s, 3) { SpareMore(s, 3, 2); }
    ghost var p;
    status, p := CreateHeapFile(mgr, file);
    if status != OK { return; }
    ListsNothing(p);
    ghost var t := mgr.State();
    SameSize(s, t, file);
    StillSpare(s, t, 3);
    if Spare(t, 3) { SpareOpens(t, file, [p]); }
    NewUnpinned(s, t, file);
    var scan;
    status, scan := OpenInsert(mgr, file, [p]);
    ghost var u := mgr.State();
    ElsewhereTrans(s, t, u, file);
    if status != OK { return; }
    ghost var n;
    status, out, n := WriteAndRead(scan, recs, []);
    ElsewhereTrans(s, u, mgr.State(), file);
    assert [] + recs[..|recs|] == [] + recs == recs;
    chain := scan.chain;
  }

  lemma SameSize(s: Sys, t: Sys, file: FileId)
    requires Elsewhere(s, t, file)
    ensures |t.frames| == |s.frames|
  {
  }

  lemma SpareOpens(s: Sys, file: FileId, chain: seq<int>)
    requires Spare(s, 3)
    ensures !Uninsertable(s, file, chain)
  {
    hide PinnedKeys;
    SpareRoom(s, 3, {});
    SpareRoom(s, 3, {Key(file, 1)});
  }
}
