/**
 db.cpp: the page allocator of a file.  Page 0 is the DBPage header (nextFree at
 byte 0, firstPage at 4, numPages at 8); a disposed page holds the link to the
 next free page in its own first four bytes.  The Unix file is a sequence of
 page images.
 */
module Disk {
  import opened Statuses
  import opened Bytes

  /** A File object, named by its address as the hash functions use it; NULL is 0. */
  type FileId = int

  const NULL_FILE: FileId := 0

  type Files = map<FileId, seq<Image>>

  function NextFree(page: Image): int { GetInt(page, 0) }

  function FirstPage(header: Image): int { GetInt(header, 4) }

  function NumPages(header: Image): int { GetInt(header, 8) }

  const MAX_PAGES: int := 0x7FFF_FFFF

  /** The header counts the pages of the file, so that the file can still be extended. */
  predicate Extendable(ps: seq<Image>) {
    1 <= |ps| < MAX_PAGES && NumPages(ps[0]) == |ps|
  }

  function LinkTo(fl: seq<int>, k: nat): int {
    if k < |fl| then fl[k] else -1
  }

  /** fl is the free list of the file: a finite acyclic chain that spares the first user page. */
  ghost predicate FreeList(ps: seq<Image>, fl: seq<int>) {
    && 1 <= |ps| <= MAX_PAGES
    && NumPages(ps[0]) == |ps|
    && FirstPage(ps[0]) == (if |ps| == 1 then -1 else 1)
    && NextFree(ps[0]) == LinkTo(fl, 0)
    && (forall k :: 0 <= k < |fl| ==> 1 < fl[k] < |ps|)
    && (forall k {:trigger ps[fl[k]]} :: 0 <= k < |fl| ==> NextFree(ps[fl[k]]) == LinkTo(fl, k + 1))
    && (forall j, k :: 0 <= j < k < |fl| ==> fl[j] != fl[k])
  }

  predicate Live(ps: seq<Image>, fl: seq<int>, p: int) {
    1 <= p < |ps| && p !in fl
  }

  ghost function LivePages(ps: seq<Image>, fl: seq<int>): set<int> {
    set p | 1 <= p < |ps| && p !in fl
  }

  // ---------- the operations, as functions of the file content ----------

  /** File::create writes a header over a blank page. */
  function Create(blank: Image): seq<Image> {
    [PutInt(PutInt(PutInt(blank, 0, -1), 4, -1), 8, 1)]
  }

  /** Writing a page of the file or beyond its end, where the gap reads as zeros. */
  function WriteAt(ps: seq<Image>, p: int, page: Image): seq<Image>
    requires 0 <= p
  {
    if p < |ps| then ps[p := page]
    else if p == |ps| then ps + [page]
    else ps + Blank(p - |ps|) + [page]
  }

  /** Exactly the page written changes; a gap before it is filled with zeros. */
  lemma WriteAtReads(ps: seq<Image>, p: int, page: Image)
    requires 0 <= p
    ensures var qs := WriteAt(ps, p, page);
            && |qs| == (if p < |ps| then |ps| else p + 1) && qs[p] == page
            && (forall q :: 0 <= q < |ps| && q != p ==> qs[q] == ps[q])
            && (forall q :: |ps| <= q < p ==> qs[q] == ZeroPage())
  {
  }

  function Blank(n: nat): (ps: seq<Image>)
    ensures |ps| == n && forall i :: 0 <= i < n ==> ps[i] == ZeroPage()
  {
    seq(n, i => ZeroPage())
  }

  datatype Allocated = Allocated(status: Status, pages: seq<Image>, pageNo: int)

  function Allocate(ps: seq<Image>): Allocated
    requires Extendable(ps)
  {
    if NextFree(ps[0]) != -1 then
      TakeFree(ps, NextFree(ps[0]))
    else
      Allocated(OK, ps[0 := Extended(ps[0])] + [ZeroPage()], NumPages(ps[0]))
  }

  function TakeFree(ps: seq<Image>, p: int): Allocated
    requires 1 <= |ps|
  {
    if 0 <= p < |ps| then Allocated(OK, ps[0 := PutInt(ps[0], 0, NextFree(ps[p]))], p)
    else Allocated(UNIXERR, ps, p)
  }

  /** The header of the file with one more page, which may be its first. */
  function Extended(h: Image): Image
    requires NumPages(h) < MAX_PAGES
  {
    SetFirst(PutInt(h, 8, NumPages(h) + 1), NumPages(h))
  }

  function SetFirst(h: Image, p: int): Image
    requires IsInt(p)
  {
    if FirstPage(h) == -1 then PutInt(h, 4, p) else h
  }

  predicate Disposable(ps: seq<Image>, p: int)
    requires 1 <= |ps|
  {
    1 <= p < NumPages(ps[0]) && p != FirstPage(ps[0])
  }

  function Dispose(ps: seq<Image>, p: int): (Status, seq<Image>)
    requires 1 <= |ps| && NumPages(ps[0]) == |ps|
  {
    if Disposable(ps, p) then
      (OK, ps[p := PutInt(ZeroPage(), 0, NextFree(ps[0]))][0 := PutInt(ps[0], 0, p)])
    else
      (BADPAGENO, ps)
  }

  // ---------- what they keep ----------

  /** The effect of storing one header field on the other two. */
  lemma HeaderStore(h: Image, x: int)
    requires IsInt(x)
    ensures FirstPage(PutInt(h, 0, x)) == FirstPage(h) && NumPages(PutInt(h, 0, x)) == NumPages(h)
    ensures NextFree(PutInt(h, 4, x)) == NextFree(h) && NumPages(PutInt(h, 4, x)) == NumPages(h)
    ensures NextFree(PutInt(h, 8, x)) == NextFree(h) && FirstPage(PutInt(h, 8, x)) == FirstPage(h)
  {
    hide GetInt, PutInt;
    PutIntFrame(h, 0, x, 4);
    PutIntFrame(h, 0, x, 8);
    PutIntFrame(h, 4, x, 0);
    PutIntFrame(h, 4, x, 8);
    PutIntFrame(h, 8, x, 0);
    PutIntFrame(h, 8, x, 4);
  }

  lemma CreateKeeps(blank: Image)
    ensures FreeList(Create(blank), []) && forall p :: !Live(Create(blank), [], p)
    ensures var ps := Create(blank);
            && |ps| == 1 && GetInt(ps[0], 0) == -1 && GetInt(ps[0], 4) == -1 && GetInt(ps[0], 8) == 1
            && SameRest(blank, ps[0])
  {
    hide GetInt, PutInt;
    HeaderStore(PutInt(PutInt(blank, 0, -1), 4, -1), 1);
    HeaderStore(PutInt(blank, 0, -1), -1);
  }

  /** Beyond its three fields a header keeps its bytes. */
  ghost predicate SameRest(g: Image, h: Image) {
    forall i :: 12 <= i < PAGESIZE ==> h[i] == g[i]
  }

  /**
   Allocation never returns a live page, and reuses the page disposed last, with
   the bytes it has; a page added to the file is zero.  No other page changes.
   */
  lemma AllocateKeeps(ps: seq<Image>, fl: seq<int>)
    requires FreeList(ps, fl) && Extendable(ps)
    ensures var a := Allocate(ps);
            var fl' := if fl == [] then [] else fl[1..];
            && a.status == OK && FreeList(a.pages, fl')
            && a.pageNo == (if fl == [] then |ps| else fl[0])
            && !Live(ps, fl, a.pageNo) && Live(a.pages, fl', a.pageNo)
            && (forall p :: p != a.pageNo ==> (Live(a.pages, fl', p) <==> Live(ps, fl, p)))
            && (forall p :: Live(ps, fl, p) ==> a.pages[p] == ps[p])
            && (fl == [] ==> |a.pages| == |ps| + 1 && a.pages[a.pageNo] == ZeroPage())
            && (fl != [] ==> |a.pages| == |ps| && a.pages[a.pageNo] == ps[a.pageNo])
            && (forall p :: 1 <= p < |ps| ==> a.pages[p] == ps[p]) && SameRest(ps[0], a.pages[0])
  {
    hide GetInt, PutInt;
    var h := ps[0];
    if fl != [] {
      HeaderStore(h, NextFree(ps[fl[0]]));
      assert fl == [fl[0]] + fl[1..];
    } else {
      HeaderStore(h, NumPages(h) + 1);
      HeaderStore(PutInt(h, 8, NumPages(h) + 1), NumPages(h));
    }
  }

  /** Disposing of a live page other than the first pushes it on the list; it holds its link and zeros. */
  lemma DisposeKeeps(ps: seq<Image>, fl: seq<int>, p: int)
    requires FreeList(ps, fl) && Live(ps, fl, p) && p != 1
    ensures var (status, ps') := Dispose(ps, p);
            && status == OK && |ps'| == |ps| && FreeList(ps', [p] + fl)
            && (forall q :: Live(ps', [p] + fl, q) <==> Live(ps, fl, q) && q != p)
            && (forall q :: Live(ps, fl, q) && q != p ==> ps'[q] == ps[q])
            && (forall q :: 1 <= q < |ps| && q != p ==> ps'[q] == ps[q]) && SameRest(ps[0], ps'[0])
            && NextFree(ps'[p]) == LinkTo(fl, 0) && forall i :: 4 <= i < PAGESIZE ==> ps'[p][i] == 0
  {
    hide GetInt, PutInt;
    HeaderStore(ps[0], p);
  }

  /** Writing a live page leaves the free list alone. */
  lemma WriteKeeps(ps: seq<Image>, fl: seq<int>, p: int, page: Image)
    requires FreeList(ps, fl) && Live(ps, fl, p)
    ensures FreeList(WriteAt(ps, p, page), fl)
  {
    forall k | 0 <= k < |fl|
      ensures ps[p := page][fl[k]] == ps[fl[k]]
    {
      assert fl[k] in fl;
    }
  }

  /** Disposing of a page and allocating again returns that page. */
  lemma DisposeThenAllocate(ps: seq<Image>, fl: seq<int>, p: int)
    requires FreeList(ps, fl) && Live(ps, fl, p) && p != 1 && |ps| < MAX_PAGES
    ensures var ps' := Dispose(ps, p).1; Extendable(ps') && Allocate(ps').pageNo == p
  {
    DisposeKeeps(ps, fl, p);
  }

  /** Every page is the header, live or free. */
  lemma Conservation(ps: seq<Image>, fl: seq<int>)
    requires FreeList(ps, fl)
    ensures |LivePages(ps, fl)| + |fl| + 1 == |ps| == NumPages(ps[0])
  {
    var frees := set p | p in fl;
    DistinctSize(fl);
    RangeSize(|ps|);
    assert LivePages(ps, fl) + frees == UserPages(|ps|);
    assert LivePages(ps, fl) !! frees;
  }

  lemma {:induction false} DistinctSize(fl: seq<int>)
    requires forall j, k :: 0 <= j < k < |fl| ==> fl[j] != fl[k]
    ensures |set p | p in fl| == |fl|
  {
    if fl != [] {
      DistinctSize(fl[1..]);
      assert (set p | p in fl) == {fl[0]} + set p | p in fl[1..];
    }
  }

  function UserPages(n: nat): set<int> {
    if n <= 1 then {} else UserPages(n - 1) + {n - 1}
  }

  lemma {:induction false} RangeSize(n: nat)
    requires 1 <= n
    ensures |UserPages(n)| == n - 1
    ensures forall p :: p in UserPages(n) <==> 1 <= p < n
  {
    if n > 1 { RangeSize(n - 1); }
  }

  lemma {:induction false} SamePrefix(ps: seq<Image>, fl: seq<int>, gl: seq<int>, k: nat)
    requires FreeList(ps, fl) && FreeList(ps, gl) && k <= |fl|
    ensures k <= |gl| && fl[..k] == gl[..k] && LinkTo(fl, k) == LinkTo(gl, k)
  {
    hide GetInt, PutInt;
    if k > 0 {
      SamePrefix(ps, fl, gl, k - 1);
      assert ps[fl[k - 1]] == ps[gl[k - 1]];
    }
  }

  /** The links on disk determine the list. */
  lemma FreeListUnique(ps: seq<Image>, fl: seq<int>, gl: seq<int>)
    requires FreeList(ps, fl) && FreeList(ps, gl)
    ensures fl == gl
  {
    SamePrefix(ps, fl, gl, |fl|);
  }

  /** Disposing of a page that is already free ties the list into a cycle. */
  lemma {:induction false} DoubleDisposeFollows(ps: seq<Image>, fl: seq<int>, i: nat, gl: seq<int>, k: nat)
    requires FreeList(ps, fl) && i < |fl| && k <= i + 1
    requires FreeList(Dispose(ps, fl[i]).1, gl)
    ensures k < |gl| && gl[k] == if k == 0 then fl[i] else fl[k - 1]
  {
    hide GetInt, PutInt;
    var ps' := Dispose(ps, fl[i]).1;
    if k > 0 {
      DoubleDisposeFollows(ps, fl, i, gl, k - 1);
      assert NextFree(ps'[gl[k - 1]]) == LinkTo(gl, k);
    }
  }

  /**
   File::disposePage accepts any page in [1, numPages) but the first; the file
   keeps a free list exactly when the page was live.
   */
  lemma DisposeSound(ps: seq<Image>, fl: seq<int>, p: int)
    requires FreeList(ps, fl) && Disposable(ps, p)
    ensures Dispose(ps, p).0 == OK
    ensures (exists gl :: FreeList(Dispose(ps, p).1, gl)) <==> Live(ps, fl, p)
  {
    if Live(ps, fl, p) {
      DisposeKeeps(ps, fl, p);
    } else if gl :| FreeList(Dispose(ps, p).1, gl) {
      var i :| 0 <= i < |fl| && fl[i] == p;
      DoubleDisposeFollows(ps, fl, i, gl, 0);
      DoubleDisposeFollows(ps, fl, i, gl, i + 1);
      assert false;
    }
  }

  /** The new page is written before the header; the result is the same either way. */
  lemma ExtendOrder(ps: seq<Image>, page: Image, h: Image)
    requires 1 <= |ps|
    ensures (ps + [page])[0 := h] == ps[0 := h] + [page]
  {
  }

  // ---------- runs of allocations and disposals ----------

  datatype FileOp = AllocateOp | DisposeOp(p: int)

  /** Clients dispose only of live pages, and never of the first. */
  predicate AllowedOp(ps: seq<Image>, fl: seq<int>, op: FileOp) {
    match op
    case AllocateOp => Extendable(ps)
    case DisposeOp(p) => 1 <= |ps| && NumPages(ps[0]) == |ps| && Live(ps, fl, p) && p != 1
  }

  function FileStep(ps: seq<Image>, fl: seq<int>, op: FileOp): seq<Image>
    requires AllowedOp(ps, fl, op)
  {
    match op
    case AllocateOp => Allocate(ps).pages
    case DisposeOp(p) => Dispose(ps, p).1
  }

  /** The free list as a stack. */
  function StackStep(fl: seq<int>, op: FileOp): seq<int> {
    match op
    case AllocateOp => if fl == [] then [] else fl[1..]
    case DisposeOp(p) => [p] + fl
  }

  predicate AllowedOps(ps: seq<Image>, fl: seq<int>, ops: seq<FileOp>)
    decreases |ops|
  {
    ops != [] ==>
      AllowedOp(ps, fl, ops[0]) && AllowedOps(FileStep(ps, fl, ops[0]), StackStep(fl, ops[0]), ops[1..])
  }

  function RunFile(ps: seq<Image>, fl: seq<int>, ops: seq<FileOp>): (seq<Image>, seq<int>)
    requires AllowedOps(ps, fl, ops)
    decreases |ops|
  {
    if ops == [] then (ps, fl) else RunFile(FileStep(ps, fl, ops[0]), StackStep(fl, ops[0]), ops[1..])
  }

  /**
   Over every run the chain from the header is the stack of disposed pages, finite,
   acyclic, inside the file and without the first page, and no page is lost.
   */
  lemma {:induction false} RunKeeps(ps: seq<Image>, fl: seq<int>, ops: seq<FileOp>)
    requires FreeList(ps, fl) && AllowedOps(ps, fl, ops)
    ensures var (qs, gl) := RunFile(ps, fl, ops);
            FreeList(qs, gl) && |LivePages(qs, gl)| + |gl| + 1 == NumPages(qs[0])
    decreases |ops|
  {
    hide FreeList, Allocate, Dispose, Extendable;
    if ops == [] {
      Conservation(ps, fl);
    } else {
      match ops[0] {
        case AllocateOp => AllocateKeeps(ps, fl);
        case DisposeOp(p) => DisposeKeeps(ps, fl, p);
      }
      RunKeeps(FileStep(ps, fl, ops[0]), StackStep(fl, ops[0]), ops[1..]);
    }
  }

  // ---------- the operations, on the open files ----------

  /** The Unix files behind the File objects. */
  class FileSystem {
    var files: Files

    constructor (files: Files)
      ensures this.files == files
    {
      this.files := files;
    }

    /** File::intread: a short read is an error and leaves the caller's buffer alone. */
    method IntRead(f: FileId, pageNo: int, buffer: Image) returns (status: Status, page: Image)
      requires f in files
      ensures if 0 <= pageNo < |files[f]| then status == OK && page == files[f][pageNo]
              else status == UNIXERR && page == buffer
    {
      if !(0 <= pageNo < |files[f]|) { return UNIXERR, buffer; }
      return OK, files[f][pageNo];
    }

    /** File::intwrite: a page of the file, or one beyond its end. */
    method IntWrite(f: FileId, pageNo: int, page: Image) returns (status: Status)
      requires f in files && 0 <= pageNo
      modifies this
      ensures status == OK
      ensures files == old(files)[f := WriteAt(old(files)[f], pageNo, page)]
    {
      files := files[f := WriteAt(files[f], pageNo, page)];
      status := OK;
    }

    method AllocatePage(f: FileId) returns (status: Status, pageNo: int)
      requires f in files && Extendable(files[f])
      modifies this
      ensures var a := Allocate(old(files)[f]);
              status == a.status && pageNo == a.pageNo && files == old(files)[f := a.pages]
      ensures NextFree(old(files)[f][0]) == -1 ==>
        && status == OK && pageNo == |old(files)[f]| && |files[f]| == pageNo + 1 && files[f][pageNo] == ZeroPage()
    {
      hide GetInt, PutInt;
      var ignored;
      var header;
      status, header := IntRead(f, 0, ZeroPage());
      if NextFree(header) != -1 {
        pageNo := NextFree(header);
        var firstFree;
        status, firstFree := IntRead(f, pageNo, ZeroPage());
        if status != OK { return; }
        header := PutInt(header, 0, NextFree(firstFree));
      } else {
        pageNo := NumPages(header);
        ignored := IntWrite(f, pageNo, ZeroPage());
        header := PutInt(header, 8, NumPages(header) + 1);
        if FirstPage(header) == -1 {
          header := PutInt(header, 4, pageNo);
        }
      }
      ExtendOrder(old(files)[f], ZeroPage(), header);
      status := IntWrite(f, 0, header);
    }

    method DisposePage(f: FileId, pageNo: int) returns (status: Status)
      requires f in files && 1 <= |files[f]| && NumPages(files[f][0]) == |files[f]|
      modifies this
      ensures var (st, ps) := Dispose(old(files)[f], pageNo);
              status == st && files == old(files)[f := ps]
      ensures status == if 1 <= pageNo < |old(files)[f]| && pageNo != FirstPage(old(files)[f][0]) then OK else BADPAGENO
      ensures status != OK ==> files == old(files)
    {
      hide GetInt, PutInt;
      if pageNo < 1 { return BADPAGENO; }
      var header;
      status, header := IntRead(f, 0, ZeroPage());
      if FirstPage(header) == pageNo || pageNo >= NumPages(header) { return BADPAGENO; }
      var away := PutInt(ZeroPage(), 0, NextFree(header));
      header := PutInt(header, 0, pageNo);
      status := IntWrite(f, pageNo, away);
      status := IntWrite(f, 0, header);
    }

    method ReadPage(f: FileId, pageNo: int, buffer: Image) returns (status: Status, page: Image)
      requires f in files
      ensures status == if pageNo < 1 then BADPAGENO else if pageNo < |files[f]| then OK else UNIXERR
      ensures page == if status == OK then files[f][pageNo] else buffer
    {
      if pageNo < 1 { return BADPAGENO, buffer; }
      status, page := IntRead(f, pageNo, buffer);
    }

    method WritePage(f: FileId, pageNo: int, page: Image) returns (status: Status)
      requires f in files
      modifies this
      ensures status == if pageNo < 1 then BADPAGENO else OK
      ensures files == if pageNo < 1 then old(files) else old(files)[f := WriteAt(old(files)[f], pageNo, page)]
    {
      if pageNo < 1 { return BADPAGENO; }
      status := IntWrite(f, pageNo, page);
    }
  }
}
