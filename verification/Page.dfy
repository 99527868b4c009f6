/**
 page.cpp on the 1024 bytes of a page.  The record area grows upwards from byte
 0, the slot directory grows downwards from byte 1008, both in the same memory.

   data      [0, 1004)        slot[-i]  [1004 - 4i, 1008 - 4i)
   slotCnt   1008             freePtr   1010
   freeSpace 1012             nextPage  1016            curPage  1020
 */
module Page {
  import opened Statuses
  import opened Bytes
  import opened Records
  import opened PageView

  const SLOT0: int := 1004
  const SLOT_CNT: int := 1008
  const FREE_PTR: int := 1010
  const FREE_SPACE: int := 1012
  const NEXT_PAGE: int := 1016
  const CUR_PAGE: int := 1020

  /** The number of directory entries, -slotCnt. */
  function Count(s: Image): int { -GetShort(s, SLOT_CNT) }

  function FreePtr(s: Image): int { GetShort(s, FREE_PTR) }

  predicate Decodes(s: Image) {
    0 <= Count(s) <= 251 && 0 <= FreePtr(s) <= SLOT0
  }

  function SlotAt(s: Image, i: int): Slot
    requires 0 <= i <= 251
  {
    Slot(GetShort(s, SLOT0 - 4 * i), GetShort(s, SLOT0 + 2 - 4 * i))
  }

  function Directory(s: Image, n: int): (r: seq<Slot>)
    requires 0 <= n <= 251
    ensures |r| == n && forall i :: 0 <= i < n ==> r[i] == SlotAt(s, i)
  {
    seq(n, i requires 0 <= i < n => SlotAt(s, i))
  }

  function ViewOf(s: Image): View
    requires Decodes(s)
  {
    View(s[..FreePtr(s)], Directory(s, Count(s)), GetInt(s, NEXT_PAGE), GetInt(s, CUR_PAGE))
  }

  lemma ViewShape(s: Image)
    requires Decodes(s)
    ensures |ViewOf(s).slots| == Count(s) && |ViewOf(s).data| == FreePtr(s)
    ensures forall i :: 0 <= i < Count(s) ==> ViewOf(s).slots[i] == SlotAt(s, i)
  {
  }

  /** The bytes hold a tidy page whose freeSpace field accounts for every byte. */
  predicate WellFormed(s: Image) {
    Decodes(s) && Tidy(ViewOf(s)) && GetShort(s, FREE_SPACE) == Room(ViewOf(s))
  }

  /** The records never reach the directory, even when one more slot is opened. */
  lemma NoCollision(s: Image)
    requires WellFormed(s)
    ensures FreePtr(s) + GetShort(s, FREE_SPACE) + 4 * Count(s) == 1004
    ensures FreePtr(s) <= SLOT0 - 4 * Count(s)
  {
  }

  /** Where the fields of the page lie. */
  lemma Layout(s: Image, i: nat)
    requires Decodes(s)
    ensures var v := ViewOf(s);
            && |v.slots| == -GetShort(s, 1008) && v.data == s[..GetShort(s, 1010)]
            && v.next == GetInt(s, 1016) && v.cur == GetInt(s, 1020)
            && (i < |v.slots| ==> v.slots[i] == Slot(GetShort(s, 1004 - 4 * i), GetShort(s, 1006 - 4 * i)))
    ensures WellFormed(s) ==> GetShort(s, 1012) == 1004 - GetShort(s, 1010) + 4 * GetShort(s, 1008)
  {
  }

  // ---------- the effect of one store on the decoded page ----------

  lemma SlotStore(s: Image, i: int, field: int, x: int)
    requires Decodes(s) && 0 <= i < Count(s) && FreePtr(s) <= SLOT0 - 4 * i
    requires IsShort(x) && (field == 0 || field == 2)
    ensures var r := PutShort(s, SLOT0 + field - 4 * i, x);
            var t := if field == 0 then SlotAt(s, i).(offset := x) else SlotAt(s, i).(length := x);
            && Decodes(r)
            && ViewOf(r) == ViewOf(s).(slots := ViewOf(s).slots[i := t])
            && GetShort(r, FREE_SPACE) == GetShort(s, FREE_SPACE)
  {
    var r := PutShort(s, SLOT0 + field - 4 * i, x);
    assert forall j :: 0 <= j < Count(s) && j != i ==> SlotAt(r, j) == SlotAt(s, j);
  }

  lemma CountStore(s: Image, n: int)
    requires Decodes(s) && 0 <= n <= 251
    ensures var r := PutShort(s, SLOT_CNT, -n);
            && Decodes(r)
            && ViewOf(r) == ViewOf(s).(slots := Directory(s, n))
            && GetShort(r, FREE_SPACE) == GetShort(s, FREE_SPACE)
  {
    var r := PutShort(s, SLOT_CNT, -n);
    assert forall j :: 0 <= j < n ==> SlotAt(r, j) == SlotAt(s, j);
  }

  lemma FreePtrStore(s: Image, p: int)
    requires Decodes(s) && 0 <= p <= SLOT0
    ensures var r := PutShort(s, FREE_PTR, p);
            && Decodes(r)
            && ViewOf(r) == ViewOf(s).(data := s[..p])
            && GetShort(r, FREE_SPACE) == GetShort(s, FREE_SPACE)
  {
    var r := PutShort(s, FREE_PTR, p);
    assert forall j :: 0 <= j < Count(s) ==> SlotAt(r, j) == SlotAt(s, j);
  }

  lemma FreeSpaceStore(s: Image, x: int)
    requires Decodes(s) && IsShort(x)
    ensures var r := PutShort(s, FREE_SPACE, x);
            && Decodes(r) && ViewOf(r) == ViewOf(s) && GetShort(r, FREE_SPACE) == x
            && forall j :: 0 <= j <= 251 ==> SlotAt(r, j) == SlotAt(s, j)
  {
    var r := PutShort(s, FREE_SPACE, x);
    assert forall j :: 0 <= j <= 251 ==> SlotAt(r, j) == SlotAt(s, j);
  }

  lemma DataStore(s: Image, o: int, src: seq<Byte>)
    requires Decodes(s) && 0 <= o && o + |src| <= SLOT0 + 4 - 4 * Count(s) && o + |src| <= SLOT0
    ensures var r := Splice(s, o, src);
            && Decodes(r)
            && ViewOf(r) == ViewOf(s).(data := r[..FreePtr(s)])
            && GetShort(r, FREE_SPACE) == GetShort(s, FREE_SPACE)
  {
    var r := Splice(s, o, src);
    assert forall j :: o + |src| <= j < PAGESIZE ==> r[j] == s[j];
    assert forall j :: 0 <= j < Count(s) ==> SlotAt(r, j) == SlotAt(s, j);
  }

  lemma LinkStore(s: Image, field: int, x: int)
    requires Decodes(s) && IsInt(x) && (field == NEXT_PAGE || field == CUR_PAGE)
    ensures var r := PutInt(s, field, x);
            && Decodes(r)
            && ViewOf(r) == (if field == NEXT_PAGE then ViewOf(s).(next := x) else ViewOf(s).(cur := x))
            && GetShort(r, FREE_SPACE) == GetShort(s, FREE_SPACE)
  {
    var r := PutInt(s, field, x);
    assert forall j :: 0 <= j < Count(s) ==> SlotAt(r, j) == SlotAt(s, j);
  }

  // ---------- the operations, in place ----------

  method Init(mem: array<Byte>, pageNo: int)
    requires mem.Length == PAGESIZE && IsInt(pageNo)
    modifies mem
    ensures WellFormed(mem[..]) && ViewOf(mem[..]) == Fresh(pageNo)
    ensures GetShort(mem[..], 1008) == 0 && GetShort(mem[..], 1010) == 0 && GetShort(mem[..], 1012) == 1004
    ensures GetInt(mem[..], 1016) == -1 && GetInt(mem[..], 1020) == pageNo
  {
    StoreInt(mem, NEXT_PAGE, -1);
    StoreShort(mem, SLOT_CNT, 0);
    StoreInt(mem, CUR_PAGE, pageNo);
    StoreShort(mem, FREE_PTR, 0);
    StoreShort(mem, FREE_SPACE, CAPACITY);
    assert GetInt(mem[..], NEXT_PAGE) == -1 && GetInt(mem[..], CUR_PAGE) == pageNo;
  }

  method SetNextPage(mem: array<Byte>, pageNo: int) returns (status: Status)
    requires mem.Length == PAGESIZE && WellFormed(mem[..]) && IsInt(pageNo)
    modifies mem
    ensures status == OK && WellFormed(mem[..])
    ensures ViewOf(mem[..]) == ViewOf(old(mem[..])).(next := pageNo)
  {
    LinkStore(mem[..], NEXT_PAGE, pageNo);
    StoreInt(mem, NEXT_PAGE, pageNo);
    status := OK;
  }

  /** The page once slot i is claimed for a record of len bytes. */
  function ClaimSlot(s: Image, i: int, len: nat): Image
    requires Decodes(s) && 0 <= i <= Count(s) < 251 && 0 <= GetShort(s, FREE_SPACE) - len - SLOT_SIZE
  {
    var fs := GetShort(s, FREE_SPACE);
    if i == Count(s) then
      PutShort(PutShort(s, FREE_SPACE, fs - (len + SLOT_SIZE)), SLOT_CNT, -(Count(s) + 1))
    else
      PutShort(s, FREE_SPACE, fs - len)
  }

  lemma ClaimSlotView(s: Image, i: int, len: nat)
    requires Decodes(s) && 0 <= i <= Count(s) < 251 && 0 <= GetShort(s, FREE_SPACE) - len - SLOT_SIZE
    ensures var r, v := ClaimSlot(s, i, len), ViewOf(s);
            && Decodes(r)
            && ViewOf(r) == v.(slots := if i == |v.slots| then v.slots + [SlotAt(s, i)] else v.slots)
            && GetShort(r, FREE_SPACE) == GetShort(s, FREE_SPACE) - len - SLOT_SIZE * (|ViewOf(r).slots| - |v.slots|)
  {
    hide GetShort, GetHalf, GetInt;
    var fs := GetShort(s, FREE_SPACE);
    if i == Count(s) {
      var t := PutShort(s, FREE_SPACE, fs - (len + SLOT_SIZE));
      FreeSpaceStore(s, fs - (len + SLOT_SIZE));
      CountStore(t, Count(s) + 1);
      assert SlotAt(t, i) == SlotAt(s, i);
      assert Directory(t, i + 1) == Directory(t, i) + [SlotAt(t, i)];
    } else {
      FreeSpaceStore(s, fs - len);
    }
  }

  /** The page once the record is written at the free pointer and slot i points to it. */
  function FillSlot(s: Image, i: int, rec: seq<Byte>): Image
    requires Decodes(s) && 0 <= i < Count(s) && FreePtr(s) + |rec| <= SLOT0
  {
    var p := FreePtr(s);
    var t := PutShort(PutShort(s, SLOT0 - 4 * i, p), SLOT0 + 2 - 4 * i, |rec|);
    PutShort(Splice(t, p, rec), FREE_PTR, p + |rec|)
  }

  lemma FillSlotView(s: Image, i: int, rec: seq<Byte>)
    requires Decodes(s) && 0 <= i < Count(s) && FreePtr(s) + |rec| <= SLOT0 + 4 - 4 * Count(s)
    ensures FreePtr(s) + |rec| <= SLOT0
    ensures var r, v := FillSlot(s, i, rec), ViewOf(s);
            && Decodes(r)
            && ViewOf(r) == v.(data := v.data + rec, slots := v.slots[i := Slot(|v.data|, |rec|)])
            && GetShort(r, FREE_SPACE) == GetShort(s, FREE_SPACE)
  {
    hide GetShort, GetHalf, GetInt;
    var p := FreePtr(s);
    var t := PutShort(s, SLOT0 - 4 * i, p);
    SlotStore(s, i, 0, p);
    ViewShape(s);
    ViewShape(t);
    assert SlotAt(t, i) == ViewOf(t).slots[i];
    var t' := PutShort(t, SLOT0 + 2 - 4 * i, |rec|);
    SlotStore(t, i, 2, |rec|);
    ViewShape(t');
    var u := Splice(t', p, rec);
    DataStore(t', p, rec);
    FreePtrStore(u, p + |rec|);
    assert s[..p] == t'[..p];
    assert u[..p + |rec|] == t'[..p] + rec;
  }

  method FindSlot(mem: array<Byte>) returns (i: int)
    requires mem.Length == PAGESIZE && Decodes(mem[..])
    ensures i == FirstFree(ViewOf(mem[..]).slots)
  {
    var n := Count(mem[..]);
    ghost var slots := ViewOf(mem[..]).slots;
    i := 0;
    while i < n && GetShort(mem[..], SLOT0 + 2 - 4 * i) != -1
      invariant 0 <= i <= n
      invariant FirstFree(slots, i) == FirstFree(slots)
    {
      assert slots[i] == SlotAt(mem[..], i);
      i := i + 1;
    }
    if i < n { assert slots[i] == SlotAt(mem[..], i); }
  }

  lemma InsertImageAt(s: Image, i: int, rec: seq<Byte>)
    requires Decodes(s) && GetShort(s, FREE_SPACE) == Room(ViewOf(s))
    requires 0 <= i <= Count(s) && Fits(ViewOf(s), rec)
    ensures Count(s) < 251
    ensures var t, v := ClaimSlot(s, i, |rec|), ViewOf(s);
            && Decodes(t) && i < Count(t) && FreePtr(t) + |rec| <= SLOT0
            && var r := FillSlot(t, i, rec);
            && Decodes(r)
            && ViewOf(r) == v.(data := v.data + rec, slots := SetSlot(v.slots, i, Slot(|v.data|, |rec|)))
            && GetShort(r, FREE_SPACE) == Room(ViewOf(r))
  {
    hide GetShort, GetHalf, GetInt;
    var t := ClaimSlot(s, i, |rec|);
    ClaimSlotView(s, i, |rec|);
    assert |ViewOf(t).slots| == Count(t) && |ViewOf(t).data| == FreePtr(t);
    FillSlotView(t, i, rec);
  }

  lemma InsertImage(s: Image, i: int, rec: seq<Byte>)
    requires WellFormed(s) && Fits(ViewOf(s), rec) && i == FirstFree(ViewOf(s).slots)
    ensures i <= Count(s) < 251
    ensures var t := ClaimSlot(s, i, |rec|);
            && Decodes(t) && i < Count(t) && FreePtr(t) + |rec| <= SLOT0
            && var r := FillSlot(t, i, rec);
            && WellFormed(r) && ViewOf(r) == Insert(ViewOf(s), rec)
  {
    InsertImageAt(s, i, rec);
    InsertTidy(ViewOf(s), rec);
  }

  method Claim(mem: array<Byte>, i: int, len: nat)
    requires mem.Length == PAGESIZE && Decodes(mem[..]) && 0 <= i <= Count(mem[..]) < 251
    requires 0 <= GetShort(mem[..], FREE_SPACE) - len - SLOT_SIZE
    modifies mem
    ensures mem[..] == ClaimSlot(old(mem[..]), i, len)
  {
    var freeSpace, n := GetShort(mem[..], FREE_SPACE), Count(mem[..]);
    if i == n {
      StoreShort(mem, FREE_SPACE, freeSpace - (len + SLOT_SIZE));
      StoreShort(mem, SLOT_CNT, -(n + 1));
    } else {
      StoreShort(mem, FREE_SPACE, freeSpace - len);
    }
  }

  method Fill(mem: array<Byte>, i: int, rec: seq<Byte>)
    requires mem.Length == PAGESIZE && Decodes(mem[..]) && 0 <= i < Count(mem[..])
    requires FreePtr(mem[..]) + |rec| <= SLOT0
    modifies mem
    ensures mem[..] == FillSlot(old(mem[..]), i, rec)
  {
    var p := FreePtr(mem[..]);
    StoreShort(mem, SLOT0 - 4 * i, p);
    StoreShort(mem, SLOT0 + 2 - 4 * i, |rec|);
    CopyTo(mem, p, rec);
    StoreShort(mem, FREE_PTR, p + |rec|);
  }

  method InsertRecord(mem: array<Byte>, rec: seq<Byte>) returns (status: Status, rid: RID)
    requires mem.Length == PAGESIZE && WellFormed(mem[..])
    modifies mem
    ensures WellFormed(mem[..])
    ensures status == if |rec| + 4 <= GetShort(old(mem[..]), FREE_SPACE) then OK else NOSPACE
    ensures status == OK <==> Fits(ViewOf(old(mem[..])), rec)
    ensures status == NOSPACE ==> mem[..] == old(mem[..])
    ensures status == OK ==>
      && ViewOf(mem[..]) == Insert(ViewOf(old(mem[..])), rec)
      && rid == RID(ViewOf(old(mem[..])).cur, FirstFree(ViewOf(old(mem[..])).slots))
  {
    var spaceNeeded := |rec| + SLOT_SIZE;
    if spaceNeeded > GetShort(mem[..], FREE_SPACE) { return NOSPACE, NULLRID; }
    var i := FindSlot(mem);
    InsertImage(mem[..], i, rec);
    Claim(mem, i, |rec|);
    Fill(mem, i, rec);
    status, rid := OK, RID(GetInt(mem[..], CUR_PAGE), i);
  }

  // ---------- deleteRecord ----------

  /** Closing the gap: the bytes after the record move down over it. */
  lemma CutImage(s: Image, k: nat)
    requires Decodes(s) && FreePtr(s) + 4 * Count(s) <= CAPACITY
    requires InBounds(FreePtr(s), ViewOf(s).slots) && Live(ViewOf(s), k)
    ensures var v, t := ViewOf(s), ViewOf(s).slots[k];
            && 0 <= t.offset <= t.End() <= FreePtr(s)
            && var r := Splice(s, t.offset, s[t.End() .. FreePtr(s)]);
            && Decodes(r)
            && ViewOf(r) == v.(data := r[..FreePtr(s)])
            && r[..FreePtr(s) - t.length] == v.data[..t.offset] + v.data[t.End()..]
            && GetShort(r, FREE_SPACE) == GetShort(s, FREE_SPACE)
  {
    var t := ViewOf(s).slots[k];
    DataStore(s, t.offset, s[t.End() .. FreePtr(s)]);
  }

  /** The fix-up of slot i alone. */
  function ShiftImage(s: Image, i: int, k: int, recLen: int): Image
    requires 0 <= i <= 251 && 0 <= k <= 251 && 0 <= GetShort(s, SLOT0 - 4 * k) && 0 <= recLen <= CAPACITY
  {
    var offset := GetShort(s, SLOT0 - 4 * i);
    if GetShort(s, SLOT0 + 2 - 4 * i) >= 0 && offset > GetShort(s, SLOT0 - 4 * k) then
      PutShort(s, SLOT0 - 4 * i, offset - recLen)
    else
      s
  }

  lemma ShiftImageView(s: Image, i: int, k: int, recLen: int)
    requires Decodes(s) && FreePtr(s) + 4 * Count(s) <= CAPACITY
    requires 0 <= i < Count(s) && 0 <= k < Count(s) && 0 <= GetShort(s, SLOT0 - 4 * k) && 0 <= recLen <= CAPACITY
    ensures var r, v := ShiftImage(s, i, k, recLen), ViewOf(s);
            && Decodes(r)
            && ViewOf(r) == v.(slots := v.slots[i := Shift(v.slots[i], v.slots[k].offset, recLen)])
            && GetShort(r, FREE_SPACE) == GetShort(s, FREE_SPACE)
  {
    hide GetShort, GetHalf, GetInt;
    assert ViewOf(s).slots[i] == SlotAt(s, i) && ViewOf(s).slots[k] == SlotAt(s, k);
    if ShiftImage(s, i, k, recLen) != s {
      SlotStore(s, i, 0, GetShort(s, SLOT0 - 4 * i) - recLen);
    }
  }

  /** The directory once the loop of deleteRecord has visited the first i slots. */
  ghost function ShiftUpTo(slots: seq<Slot>, i: nat, o: int, l: int): (r: seq<Slot>)
    requires i <= |slots|
    ensures |r| == |slots|
    ensures forall j :: 0 <= j < |slots| ==> r[j] == if j < i then Shift(slots[j], o, l) else slots[j]
  {
    if i == 0 then slots
    else var p := ShiftUpTo(slots, i - 1, o, l); p[i - 1 := Shift(p[i - 1], o, l)]
  }

  method ShiftSlots(mem: array<Byte>, k: nat, recLen: int)
    requires mem.Length == PAGESIZE && Decodes(mem[..]) && FreePtr(mem[..]) + 4 * Count(mem[..]) <= CAPACITY
    requires k < Count(mem[..]) && 0 <= SlotAt(mem[..], k).offset && 0 <= recLen <= CAPACITY
    modifies mem
    ensures Decodes(mem[..])
    ensures var v := ViewOf(old(mem[..]));
            ViewOf(mem[..]) == v.(slots := ShiftAll(v.slots, v.slots[k].offset, recLen))
    ensures GetShort(mem[..], FREE_SPACE) == GetShort(old(mem[..]), FREE_SPACE)
  {
    hide GetShort, GetHalf, GetInt, ShiftAll, ViewOf, ShiftUpTo;
    ghost var v, o := ViewOf(mem[..]), SlotAt(mem[..], k).offset;
    ViewShape(mem[..]);
    NoShift(v.slots, o, recLen);
    var n := Count(mem[..]);
    for i := 0 to n
      invariant Decodes(mem[..])
      invariant ViewOf(mem[..]) == v.(slots := ShiftUpTo(v.slots, i, o, recLen))
      invariant GetShort(mem[..], FREE_SPACE) == GetShort(old(mem[..]), FREE_SPACE)
    {
      ShiftStep(mem[..], v, i, k, o, recLen);
      var offset := GetShort(mem[..], SLOT0 - 4 * i);
      if GetShort(mem[..], SLOT0 + 2 - 4 * i) >= 0 && offset > GetShort(mem[..], SLOT0 - 4 * k) {
        StoreShort(mem, SLOT0 - 4 * i, offset - recLen);
      }
    }
    ShiftDone(v.slots, o, recLen);
  }

  lemma NoShift(slots: seq<Slot>, o: int, l: int)
    ensures ShiftUpTo(slots, 0, o, l) == slots
  {
  }

  lemma ShiftDone(slots: seq<Slot>, o: int, l: int)
    ensures ShiftUpTo(slots, |slots|, o, l) == ShiftAll(slots, o, l)
  {
  }

  lemma ShiftStep(s: Image, v: View, i: nat, k: nat, o: int, recLen: int)
    requires Decodes(s) && |v.data| + 4 * |v.slots| <= CAPACITY
    requires i < |v.slots| && k < |v.slots| && v.slots[k].offset == o && 0 <= o && 0 <= recLen <= CAPACITY
    requires ViewOf(s) == v.(slots := ShiftUpTo(v.slots, i, o, recLen))
    ensures Count(s) == |v.slots| && GetShort(s, SLOT0 - 4 * k) == o
    ensures var r := ShiftImage(s, i, k, recLen);
            && Decodes(r)
            && ViewOf(r) == v.(slots := ShiftUpTo(v.slots, i + 1, o, recLen))
            && GetShort(r, FREE_SPACE) == GetShort(s, FREE_SPACE)
  {
    assert |ViewOf(s).slots| == Count(s) && |ViewOf(s).data| == FreePtr(s);
    assert SlotAt(s, k) == ViewOf(s).slots[k];
    ShiftImageView(s, i, k, recLen);
  }

  method ReleaseBytes(mem: array<Byte>, recLen: int)
    requires mem.Length == PAGESIZE && Decodes(mem[..]) && 0 <= recLen <= FreePtr(mem[..])
    requires 0 <= GetShort(mem[..], FREE_SPACE) <= CAPACITY
    modifies mem
    ensures Decodes(mem[..])
    ensures ViewOf(mem[..]) == ViewOf(old(mem[..])).(data := old(mem[..FreePtr(mem[..]) - recLen]))
    ensures GetShort(mem[..], FREE_SPACE) == GetShort(old(mem[..]), FREE_SPACE) + recLen
  {
    var freePtr, freeSpace := FreePtr(mem[..]), GetShort(mem[..], FREE_SPACE);
    FreePtrStore(mem[..], freePtr - recLen);
    StoreShort(mem, FREE_PTR, freePtr - recLen);
    FreeSpaceStore(mem[..], freeSpace + recLen);
    StoreShort(mem, FREE_SPACE, freeSpace + recLen);
  }

  /** One slot leaves the end of the directory. */
  function DropImage(s: Image): Image
    requires 0 < Count(s) <= 251 && IsShort(GetShort(s, FREE_SPACE) + SLOT_SIZE)
  {
    PutShort(PutShort(s, SLOT_CNT, -(Count(s) - 1)), FREE_SPACE, GetShort(s, FREE_SPACE) + SLOT_SIZE)
  }

  lemma DropImageView(s: Image)
    requires Decodes(s) && 0 < Count(s) && IsShort(GetShort(s, FREE_SPACE) + SLOT_SIZE)
    ensures var r, v := DropImage(s), ViewOf(s);
            && Decodes(r)
            && Count(r) == Count(s) - 1
            && ViewOf(r) == v.(slots := v.slots[..Count(s) - 1])
            && GetShort(r, FREE_SPACE) == GetShort(s, FREE_SPACE) + SLOT_SIZE
  {
    var c := Count(s);
    CountStore(s, c - 1);
    assert Directory(s, c - 1) == Directory(s, c)[..c - 1];
    FreeSpaceStore(PutShort(s, SLOT_CNT, -(c - 1)), GetShort(s, FREE_SPACE) + SLOT_SIZE);
  }

  /** The page that showed v with fs bytes of free space has lost trailing slots, which trimming would take anyway. */
  ghost predicate Dropped(s: Image, v: View, fs: int) {
    && Decodes(s) && Count(s) < |v.slots|
    && ViewOf(s) == v.(slots := v.slots[..Count(s)])
    && Trim(v.slots[..Count(s)]) == Trim(v.slots[..|v.slots| - 1])
    && GetShort(s, FREE_SPACE) == fs + SLOT_SIZE * (|v.slots| - Count(s))
  }

  lemma DroppedMore(s: Image, t: Image, v: View, fs: int)
    requires Dropped(s, v, fs) && 0 < Count(s) && !v.slots[Count(s) - 1].Used()
    requires Decodes(t) && Count(t) == Count(s) - 1 && ViewOf(t) == ViewOf(s).(slots := ViewOf(s).slots[..Count(t)])
    requires GetShort(t, FREE_SPACE) == GetShort(s, FREE_SPACE) + SLOT_SIZE
    ensures Dropped(t, v, fs)
  {
    hide GetShort, ViewOf, Decodes;
    assert v.slots[..Count(s)][..Count(t)] == v.slots[..Count(t)];
  }

  lemma DroppedLast(s: Image, v: View, fs: int)
    requires Dropped(s, v, fs) && 0 < Count(s)
    ensures v.slots[Count(s) - 1] == SlotAt(s, Count(s) - 1)
  {
    hide GetShort, GetHalf, GetInt, ViewOf;
    ViewShape(s);
  }

  /** Case 1: the freed slot ends the directory, which shrinks over every unused slot before it. */
  method DropTrailing(mem: array<Byte>)
    requires mem.Length == PAGESIZE && Decodes(mem[..]) && 0 < Count(mem[..])
    requires 0 <= GetShort(mem[..], FREE_SPACE) <= 2 * CAPACITY
    modifies mem
    ensures Decodes(mem[..])
    ensures var v := ViewOf(old(mem[..]));
            && ViewOf(mem[..]) == v.(slots := Trim(v.slots[..|v.slots| - 1]))
            && GetShort(mem[..], FREE_SPACE)
               == GetShort(old(mem[..]), FREE_SPACE) + SLOT_SIZE * (|v.slots| - |ViewOf(mem[..]).slots|)
  {
    hide GetShort, GetHalf, GetInt, ViewOf, Directory;
    ghost var v, fs := ViewOf(mem[..]), GetShort(mem[..], FREE_SPACE);
    ViewShape(mem[..]);
    DropOne(mem);
    while Count(mem[..]) > 0 && GetShort(mem[..], SLOT0 + 2 - 4 * (Count(mem[..]) - 1)) == -1
      invariant Dropped(mem[..], v, fs)
      decreases Count(mem[..])
    {
      ghost var s: Image := mem[..];
      DroppedLast(s, v, fs);
      DropOne(mem);
      DroppedMore(s, mem[..], v, fs);
    }
    if Count(mem[..]) > 0 { DroppedLast(mem[..], v, fs); }
  }

  method DropOne(mem: array<Byte>)
    requires mem.Length == PAGESIZE && Decodes(mem[..]) && 0 < Count(mem[..])
    requires IsShort(GetShort(mem[..], FREE_SPACE) + SLOT_SIZE)
    modifies mem
    ensures Decodes(mem[..]) && Count(mem[..]) == Count(old(mem[..])) - 1
    ensures ViewOf(mem[..]) == ViewOf(old(mem[..])).(slots := ViewOf(old(mem[..])).slots[..Count(mem[..])])
    ensures GetShort(mem[..], FREE_SPACE) == GetShort(old(mem[..]), FREE_SPACE) + SLOT_SIZE
  {
    DropImageView(mem[..]);
    StoreShort(mem, SLOT_CNT, -(Count(mem[..]) - 1));
    StoreShort(mem, FREE_SPACE, GetShort(mem[..], FREE_SPACE) + SLOT_SIZE);
  }

  /** Case 2: the freed slot lies inside the directory and is only marked. */
  method MarkFree(mem: array<Byte>, k: nat)
    requires mem.Length == PAGESIZE && Decodes(mem[..]) && k < Count(mem[..])
    requires FreePtr(mem[..]) <= SLOT0 - 4 * k
    modifies mem
    ensures Decodes(mem[..])
    ensures ViewOf(mem[..]) == ViewOf(old(mem[..])).(slots := ViewOf(old(mem[..])).slots[k := FREE_SLOT])
    ensures GetShort(mem[..], FREE_SPACE) == GetShort(old(mem[..]), FREE_SPACE)
  {
    hide GetShort, GetHalf, GetInt;
    ViewShape(mem[..]);
    SlotStore(mem[..], k, 2, -1);
    StoreShort(mem, SLOT0 + 2 - 4 * k, -1);
    ViewShape(mem[..]);
    SlotStore(mem[..], k, 0, 0);
    StoreShort(mem, SLOT0 - 4 * k, 0);
  }

  lemma TrimOnce(slots: seq<Slot>, k: nat)
    requires k < |slots|
    ensures k == |slots| - 1 ==> Trim(slots[k := FREE_SLOT]) == Trim(slots[..k])
    ensures k < |slots| - 1 && slots[|slots| - 1].Used() ==> Trim(slots[k := FREE_SLOT]) == slots[k := FREE_SLOT]
  {
    var f := slots[k := FREE_SLOT];
    if k == |slots| - 1 { assert f[..k] == slots[..k]; }
  }

  /** The page as deleteRecord leaves it is tidy and its freeSpace is exact again. */
  lemma DeleteImage(s: Image, r: Image, k: nat)
    requires WellFormed(s) && Live(ViewOf(s), k)
    requires Decodes(r) && ViewOf(r) == Delete(ViewOf(s), k)
    requires GetShort(r, FREE_SPACE) == GetShort(s, FREE_SPACE) + ViewOf(s).slots[k].length
                                        + SLOT_SIZE * (|ViewOf(s).slots| - |ViewOf(r).slots|)
    ensures WellFormed(r)
  {
    hide GetShort, GetHalf, GetInt;
    DeleteTidy(ViewOf(s), k);
  }

  /** The bytes of record k leave the page; its slot still stands. */
  method CloseGap(mem: array<Byte>, k: nat)
    requires mem.Length == PAGESIZE && Decodes(mem[..]) && FreePtr(mem[..]) + 4 * Count(mem[..]) <= CAPACITY
    requires InBounds(FreePtr(mem[..]), ViewOf(mem[..]).slots) && Live(ViewOf(mem[..]), k)
    requires 0 <= GetShort(mem[..], FREE_SPACE) <= CAPACITY
    modifies mem
    ensures Decodes(mem[..])
    ensures var v := ViewOf(old(mem[..]));
            var s := v.slots[k];
            && ViewOf(mem[..]) == v.(data := v.data[..s.offset] + v.data[s.End()..],
                                     slots := ShiftAll(v.slots, s.offset, s.length))
            && GetShort(mem[..], FREE_SPACE) == GetShort(old(mem[..]), FREE_SPACE) + s.length
  {
    hide GetShort, GetHalf, GetInt, Splice, ShiftAll;
    ghost var v := ViewOf(mem[..]);
    assert v.slots[k] == SlotAt(mem[..], k);
    var offset, recLen := GetShort(mem[..], SLOT0 - 4 * k), GetShort(mem[..], SLOT0 + 2 - 4 * k);
    CutImage(mem[..], k);
    CopyTo(mem, offset, mem[offset + recLen .. FreePtr(mem[..])]);
    assert ViewOf(mem[..]).slots == v.slots && |ViewOf(mem[..]).data| == |v.data|;
    assert |v.slots| == Count(mem[..]) && |v.data| == FreePtr(mem[..]) && SlotAt(mem[..], k) == v.slots[k];
    ShiftSlots(mem, k, recLen);
    assert |ViewOf(mem[..]).data| == FreePtr(mem[..]);
    ReleaseBytes(mem, recLen);
  }

  method DeleteRecord(mem: array<Byte>, rid: RID) returns (status: Status)
    requires mem.Length == PAGESIZE && WellFormed(mem[..]) && 0 <= rid.slotNo
    modifies mem
    ensures WellFormed(mem[..])
    ensures status == if Live(ViewOf(old(mem[..])), rid.slotNo) then OK else INVALIDSLOTNO
    ensures status == INVALIDSLOTNO ==> mem[..] == old(mem[..])
    ensures status == OK ==> ViewOf(mem[..]) == Delete(ViewOf(old(mem[..])), rid.slotNo)
  {
    hide GetShort, GetHalf, GetInt, Trim, ShiftAll, Covers, Apart;
    var k, n := rid.slotNo, Count(mem[..]);
    ghost var v := ViewOf(mem[..]);
    if k < n { assert v.slots[k] == SlotAt(mem[..], k); }
    if !(k < n && GetShort(mem[..], SLOT0 + 2 - 4 * k) > 0) { return INVALIDSLOTNO; }
    CloseGap(mem, k);
    ghost var slots := ViewOf(mem[..]).slots;
    assert |slots| == Count(mem[..]) && |ViewOf(mem[..]).data| == FreePtr(mem[..]);
    TrimOnce(slots, k);
    if k == n - 1 {
      DropTrailing(mem);
    } else {
      MarkFree(mem, k);
    }
    DeleteImage(old(mem[..]), mem[..], k);
    status := OK;
  }

  // ---------- reading ----------

  /** The first used slot from i on, or the directory size. */
  function NextUsed(slots: seq<Slot>, i: int): (k: int)
    requires 0 <= i
    ensures i <= k
    ensures forall j :: i <= j < k && j < |slots| ==> !slots[j].Used()
    ensures k < |slots| ==> slots[k].Used()
    ensures i <= |slots| ==> k <= |slots|
    decreases |slots| - i
  {
    if i < |slots| && !slots[i].Used() then NextUsed(slots, i + 1) else i
  }

  method SkipUnused(mem: array<Byte>, from: int) returns (i: int)
    requires mem.Length == PAGESIZE && Decodes(mem[..]) && 0 <= from
    ensures i == NextUsed(ViewOf(mem[..]).slots, from)
  {
    ghost var slots := ViewOf(mem[..]).slots;
    i := from;
    while i < Count(mem[..]) && GetShort(mem[..], SLOT0 + 2 - 4 * i) == -1
      invariant 0 <= i && NextUsed(slots, i) == NextUsed(slots, from)
      decreases Count(mem[..]) - i
    {
      assert slots[i] == SlotAt(mem[..], i);
      i := i + 1;
    }
    if i < Count(mem[..]) { assert slots[i] == SlotAt(mem[..], i); }
  }

  method FirstRecord(mem: array<Byte>, firstRid: RID) returns (status: Status, rid: RID)
    requires mem.Length == PAGESIZE && Decodes(mem[..])
    ensures var v := ViewOf(mem[..]);
            var k := NextUsed(v.slots, 0);
            if k < |v.slots| then status == OK && rid == RID(v.cur, k)
            else status == NORECORDS && rid == firstRid
  {
    var i := SkipUnused(mem, 0);
    if i == Count(mem[..]) { return NORECORDS, firstRid; }
    return OK, RID(GetInt(mem[..], CUR_PAGE), i);
  }

  method NextRecord(mem: array<Byte>, curRid: RID) returns (status: Status, rid: RID)
    requires mem.Length == PAGESIZE && Decodes(mem[..]) && -1 <= curRid.slotNo
    ensures var v := ViewOf(mem[..]);
            var k := NextUsed(v.slots, curRid.slotNo + 1);
            if k < |v.slots| then status == OK && rid == RID(v.cur, k)
            else status == ENDOFPAGE && rid == curRid
  {
    var i := SkipUnused(mem, curRid.slotNo + 1);
    if i >= Count(mem[..]) { return ENDOFPAGE, curRid; }
    return OK, RID(GetInt(mem[..], CUR_PAGE), i);
  }

  lemma SliceOf(s: seq<Byte>, p: int, a: int, b: int)
    requires 0 <= a <= b <= p <= |s|
    ensures s[..p][a..b] == s[a..b]
  {
  }

  /** What the directory entry of a slot says about its record. */
  lemma RecordShown(s: Image, k: nat)
    requires WellFormed(s)
    ensures Decodes(s)
    ensures var recs := Recs(ViewOf(s));
            && (k in recs <==> k < Count(s) && GetShort(s, SLOT0 + 2 - 4 * k) > 0)
            && (k in recs ==>
                  var offset, length := GetShort(s, SLOT0 - 4 * k), GetShort(s, SLOT0 + 2 - 4 * k);
                  0 <= offset <= offset + length <= PAGESIZE && recs[k] == s[offset .. offset + length])
  {
    hide GetShort, GetHalf, GetInt, ViewOf;
    var v := ViewOf(s);
    ViewShape(s);
    ViewData(s);
    if k < Count(s) && GetShort(s, SLOT0 + 2 - 4 * k) > 0 {
      var offset, length := GetShort(s, SLOT0 - 4 * k), GetShort(s, SLOT0 + 2 - 4 * k);
      assert v.slots[k] == SlotAt(s, k);
      SliceOf(s, FreePtr(s), offset, offset + length);
    }
  }

  lemma ViewData(s: Image)
    requires Decodes(s)
    ensures ViewOf(s).data == s[..FreePtr(s)]
  {
  }

  method GetRecord(mem: array<Byte>, rid: RID) returns (status: Status, rec: seq<Byte>)
    requires mem.Length == PAGESIZE && WellFormed(mem[..]) && 0 <= rid.slotNo
    ensures var recs := Recs(ViewOf(mem[..]));
            if rid.slotNo in recs then status == OK && rec == recs[rid.slotNo]
            else status == INVALIDSLOTNO && rec == []
  {
    hide GetShort, GetHalf, GetInt, ViewOf, Recs, WellFormed;
    var k := rid.slotNo;
    RecordShown(mem[..], k);
    if k < Count(mem[..]) && GetShort(mem[..], SLOT0 + 2 - 4 * k) > 0 {
      var offset, length := GetShort(mem[..], SLOT0 - 4 * k), GetShort(mem[..], SLOT0 + 2 - 4 * k);
      assert mem[offset .. offset + length] == mem[..][offset .. offset + length];
      return OK, mem[offset .. offset + length];
    }
    return INVALIDSLOTNO, [];
  }
}
