/**
 The slotted page of page.cpp, one step above its bytes: the record area
 [0, freePtr) and the slot directory, slot i standing for the C++ slot[-i].

 The abstract meaning of a page is the map from slot numbers to records.
 */
module PageView {
  import opened Bytes

  /** PAGESIZE - DPFIXED. */
  const CAPACITY: int := 1004

  const SLOT_SIZE: int := 4

  /** length == -1 marks a slot that is not in use. */
  datatype Slot = Slot(offset: int, length: int) {
    predicate Used() { length != -1 }

    /** The byte position x belongs to the record of this slot. */
    predicate Holds(x: int) { offset <= x < offset + length }

    function End(): int { offset + length }
  }

  const FREE_SLOT := Slot(0, -1)

  datatype View = View(data: seq<Byte>, slots: seq<Slot>, next: int, cur: int)

  /** The value page.h keeps in freeSpace. */
  function Room(v: View): int {
    CAPACITY - |v.data| - SLOT_SIZE * |v.slots|
  }

  predicate InBounds(size: int, slots: seq<Slot>) {
    forall i :: 0 <= i < |slots| && slots[i].Used() ==>
      0 <= slots[i].offset && 0 <= slots[i].length && slots[i].End() <= size
  }

  predicate Apart(slots: seq<Slot>) {
    forall i, j :: 0 <= i < j < |slots| && slots[i].Used() && slots[j].Used() ==>
      slots[i].End() <= slots[j].offset || slots[j].End() <= slots[i].offset
  }

  predicate Covers(size: int, slots: seq<Slot>) {
    forall x :: 0 <= x < size ==> Covered(slots, x)
  }

  predicate Covered(slots: seq<Slot>, x: int) {
    exists i :: 0 <= i < |slots| && slots[i].Holds(x)
  }

  /** The records in use tile [0, size) with no gap and no overlap. */
  predicate Tiled(size: int, slots: seq<Slot>) {
    InBounds(size, slots) && Apart(slots) && Covers(size, slots)
  }

  /** What every operation of page.cpp keeps. */
  predicate Tidy(v: View) {
    && 0 <= Room(v)
    && IsInt(v.next) && IsInt(v.cur)
    && Tiled(|v.data|, v.slots)
    && (v.slots != [] ==> v.slots[|v.slots| - 1].Used())
  }

  /** The record bytes of a used slot. */
  function RecordAt(v: View, i: nat): (r: seq<Byte>)
    requires InBounds(|v.data|, v.slots) && i < |v.slots| && v.slots[i].Used()
    ensures |r| == v.slots[i].length
  {
    v.data[v.slots[i].offset .. v.slots[i].End()]
  }

  /** getRecord and deleteRecord accept only slots with a positive length. */
  predicate Live(v: View, i: int) {
    0 <= i < |v.slots| && v.slots[i].length > 0
  }

  /** The abstract meaning of a page. */
  function Recs(v: View): map<int, seq<Byte>>
    requires InBounds(|v.data|, v.slots)
  {
    map i | 0 <= i < |v.slots| && v.slots[i].length > 0 :: RecordAt(v, i)
  }

  function Fresh(pageNo: int): View {
    View([], [], -1, pageNo)
  }

  // ---------- insertRecord ----------

  /** The lowest slot not in use, or the directory size when all are in use. */
  function FirstFree(slots: seq<Slot>, i: nat := 0): (k: nat)
    requires i <= |slots|
    ensures i <= k <= |slots|
    ensures forall j :: i <= j < k ==> slots[j].Used()
    ensures k < |slots| ==> !slots[k].Used()
    decreases |slots| - i
  {
    if i < |slots| && slots[i].Used() then FirstFree(slots, i + 1) else i
  }

  predicate Fits(v: View, rec: seq<Byte>) {
    |rec| + SLOT_SIZE <= Room(v)
  }

  /** The bytes of the records, four for each slot, and four more for a new one. */
  lemma FitsMeans(v: View, rec: seq<Byte>)
    ensures Fits(v, rec) <==> |v.data| + 4 * |v.slots| + |rec| + 4 <= 1004
  {
  }

  function SetSlot(slots: seq<Slot>, k: nat, s: Slot): (r: seq<Slot>)
    requires k <= |slots|
  {
    if k == |slots| then slots + [s] else slots[k := s]
  }

  function Insert(v: View, rec: seq<Byte>): View {
    v.(data := v.data + rec,
       slots := SetSlot(v.slots, FirstFree(v.slots), Slot(|v.data|, |rec|)))
  }

  lemma InsertCovers(v: View, rec: seq<Byte>)
    requires Covers(|v.data|, v.slots)
    requires forall i :: 0 <= i < |v.slots| && v.slots[i].length > 0 ==> v.slots[i].Used()
    ensures Covers(|v.data + rec|, Insert(v, rec).slots)
  {
    var k, w := FirstFree(v.slots), Insert(v, rec);
    forall x | 0 <= x < |w.data|
      ensures Covered(w.slots, x)
    {
      if x < |v.data| {
        assert Covered(v.slots, x);
        var i :| 0 <= i < |v.slots| && v.slots[i].Holds(x);
        assert w.slots[i].Holds(x);
      } else {
        assert w.slots[k].Holds(x);
      }
    }
  }

  lemma InsertTidy(v: View, rec: seq<Byte>)
    requires Tidy(v) && Fits(v, rec)
    ensures Tidy(Insert(v, rec))
  {
    InsertCovers(v, rec);
  }

  /** Slot i of w reads as slot i of v. */
  predicate SameRecord(v: View, w: View, i: int)
    requires InBounds(|v.data|, v.slots) && InBounds(|w.data|, w.slots)
  {
    && (Live(w, i) <==> Live(v, i))
    && (Live(v, i) ==> RecordAt(w, i) == RecordAt(v, i))
  }

  lemma InsertBounds(v: View, rec: seq<Byte>)
    requires InBounds(|v.data|, v.slots)
    ensures InBounds(|Insert(v, rec).data|, Insert(v, rec).slots)
  {
  }

  lemma InsertKeeps(v: View, rec: seq<Byte>, i: int)
    requires InBounds(|v.data|, v.slots) && i != FirstFree(v.slots)
    ensures InBounds(|Insert(v, rec).data|, Insert(v, rec).slots)
    ensures SameRecord(v, Insert(v, rec), i)
  {
    InsertBounds(v, rec);
    if Live(v, i) { assert Insert(v, rec).slots[i] == v.slots[i]; }
  }

  lemma InsertAdds(v: View, rec: seq<Byte>)
    requires InBounds(|v.data|, v.slots)
    ensures var k, w := FirstFree(v.slots), Insert(v, rec);
            && InBounds(|w.data|, w.slots)
            && !Live(v, k) && w.slots[k].Used() && RecordAt(w, k) == rec
  {
    InsertBounds(v, rec);
    assert (v.data + rec)[|v.data| .. |v.data| + |rec|] == rec;
  }

  lemma RecsAre(v: View, m: map<int, seq<Byte>>)
    requires InBounds(|v.data|, v.slots)
    requires forall i :: Live(v, i) ==> i in m
    requires forall i :: i in m ==> Live(v, i) && m[i] == RecordAt(v, i)
    ensures Recs(v) == m
  {
  }

  /** Insertion adds exactly one entry, at the lowest slot not in use. */
  lemma InsertRefines(v: View, rec: seq<Byte>)
    requires InBounds(|v.data|, v.slots)
    ensures var k, w := FirstFree(v.slots), Insert(v, rec);
            && k !in Recs(v)
            && InBounds(|w.data|, w.slots)
            && Recs(w) == if rec == [] then Recs(v) else Recs(v)[k := rec]
  {
    var k, w := FirstFree(v.slots), Insert(v, rec);
    InsertAdds(v, rec);
    var m := if rec == [] then Recs(v) else Recs(v)[k := rec];
    forall i
      ensures i in m <==> Live(w, i)
      ensures i in m ==> m[i] == RecordAt(w, i)
    {
      if i != k { InsertKeeps(v, rec, i); }
    }
    RecsAre(w, m);
  }

  /** A zero-length record is accepted and takes a slot, yet no read ever returns it. */
  lemma ReadBack(v: View, rec: seq<Byte>)
    requires InBounds(|v.data|, v.slots)
    ensures InBounds(|Insert(v, rec).data|, Insert(v, rec).slots)
    ensures var k := FirstFree(v.slots);
            (k in Recs(Insert(v, rec)) && Recs(Insert(v, rec))[k] == rec) <==> rec != []
  {
    InsertRefines(v, rec);
  }

  /** A page with these records inserted one after the other. */
  function Filled(v: View, recs: seq<seq<Byte>>): View {
    if recs == [] then v else Insert(Filled(v, recs[..|recs| - 1]), recs[|recs| - 1])
  }

  /**
   A page onto which n records of one length have been inserted, and from which
   nothing has been deleted, takes another one exactly when n + 1 of them fit with
   their slots.
   */
  lemma PageHolds(p: int, recs: seq<seq<Byte>>, rec: seq<Byte>)
    requires forall i :: 0 <= i < |recs| ==> |recs[i]| == |rec|
    ensures Fits(Filled(Fresh(p), recs), rec) <==> (|recs| + 1) * (|rec| + 4) <= 1004
  {
    FilledShape(p, recs, |rec|);
    OneMoreRecord(|recs|, |rec|);
  }

  lemma {:induction false} FilledShape(p: int, recs: seq<seq<Byte>>, len: nat)
    requires forall i :: 0 <= i < |recs| ==> |recs[i]| == len
    ensures var v := Filled(Fresh(p), recs);
            && |v.slots| == |recs| && |v.data| == |recs| * len
            && forall i :: 0 <= i < |recs| ==> v.slots[i].Used()
  {
    if recs != [] {
      FilledShape(p, recs[..|recs| - 1], len);
      OneMoreRecord(|recs| - 1, len);
    }
  }

  lemma OneMoreRecord(n: nat, len: nat)
    ensures (n + 1) * (len + 4) == n * len + len + 4 * n + 4
    ensures (n + 1) * len == n * len + len
  {
  }

  // ---------- deleteRecord ----------

  /** The fix-up of one slot when l bytes at offset o disappear. */
  function Shift(s: Slot, o: int, l: int): Slot {
    if s.length >= 0 && s.offset > o then s.(offset := s.offset - l) else s
  }

  function ShiftAll(slots: seq<Slot>, o: int, l: int): (r: seq<Slot>)
    ensures |r| == |slots| && forall i :: 0 <= i < |r| ==> r[i].length == slots[i].length
  {
    seq(|slots|, i requires 0 <= i < |slots| => Shift(slots[i], o, l))
  }

  /** The slot directory without its trailing unused slots. */
  function Trim(slots: seq<Slot>): (r: seq<Slot>)
    ensures |r| <= |slots| && r == slots[..|r|]
    ensures r != [] ==> r[|r| - 1].Used()
    ensures forall i :: |r| <= i < |slots| ==> !slots[i].Used()
  {
    if slots == [] || slots[|slots| - 1].Used() then slots else Trim(slots[..|slots| - 1])
  }

  /** The record area closed over slot k, the directory not yet trimmed. */
  function Squeeze(v: View, k: nat): View
    requires InBounds(|v.data|, v.slots) && Live(v, k)
  {
    var s := v.slots[k];
    v.(data := v.data[..s.offset] + v.data[s.End()..],
       slots := ShiftAll(v.slots, s.offset, s.length)[k := FREE_SLOT])
  }

  function Delete(v: View, k: nat): View
    requires InBounds(|v.data|, v.slots) && Live(v, k)
  {
    var w := Squeeze(v, k);
    w.(slots := Trim(w.slots))
  }

  lemma Neighbour(v: View, k: nat, i: nat)
    requires Tidy(v) && Live(v, k) && i < |v.slots| && i != k && v.slots[i].Used()
    ensures v.slots[i].End() <= v.slots[k].offset || v.slots[k].End() <= v.slots[i].offset
  {
    if i < k { assert v.slots[i].Used() && v.slots[k].Used(); }
  }

  lemma SqueezedSlot(v: View, k: nat, i: nat)
    requires Tidy(v) && Live(v, k) && i < |v.slots| && i != k && v.slots[i].Used()
    ensures var w, s := Squeeze(v, k), v.slots[k];
            && w.slots[i] == Shift(v.slots[i], s.offset, s.length)
            && 0 <= w.slots[i].offset && 0 <= w.slots[i].length && w.slots[i].End() <= |w.data|
  {
    Neighbour(v, k, i);
  }

  lemma SqueezedPair(v: View, k: nat, i: nat, j: nat)
    requires Tidy(v) && Live(v, k) && i < j < |v.slots| && i != k && j != k
    requires v.slots[i].Used() && v.slots[j].Used()
    ensures var w := Squeeze(v, k);
            w.slots[i].End() <= w.slots[j].offset || w.slots[j].End() <= w.slots[i].offset
  {
    Neighbour(v, k, i);
    Neighbour(v, k, j);
  }

  lemma SqueezedByte(v: View, k: nat, x: int)
    requires Tidy(v) && Live(v, k) && 0 <= x < |Squeeze(v, k).data|
    ensures Covered(Squeeze(v, k).slots, x)
  {
    var w, s := Squeeze(v, k), v.slots[k];
    var y := if x < s.offset then x else x + s.length;
    assert Covered(v.slots, y);
    var i :| 0 <= i < |v.slots| && v.slots[i].Holds(y);
    Neighbour(v, k, i);
    assert w.slots[i].Holds(x);
  }

  lemma SqueezeTiled(v: View, k: nat)
    requires Tidy(v) && Live(v, k)
    ensures Tiled(|Squeeze(v, k).data|, Squeeze(v, k).slots)
  {
    hide Covered;
    var w := Squeeze(v, k);
    forall i | 0 <= i < |w.slots| && w.slots[i].Used()
      ensures 0 <= w.slots[i].offset && 0 <= w.slots[i].length && w.slots[i].End() <= |w.data|
    {
      SqueezedSlot(v, k, i);
    }
    forall i, j | 0 <= i < j < |w.slots| && w.slots[i].Used() && w.slots[j].Used()
      ensures w.slots[i].End() <= w.slots[j].offset || w.slots[j].End() <= w.slots[i].offset
    {
      SqueezedPair(v, k, i, j);
    }
    forall x | 0 <= x < |w.data|
      ensures Covered(w.slots, x)
    {
      SqueezedByte(v, k, x);
    }
  }

  lemma CutSlice(d: seq<Byte>, o: nat, e: nat, a: nat, b: nat)
    requires o <= e <= |d| && a <= b <= |d| && (b <= o || e <= a)
    ensures b <= o ==> (d[..o] + d[e..])[a..b] == d[a..b]
    ensures o < b ==> (d[..o] + d[e..])[a - (e - o) .. b - (e - o)] == d[a..b]
  {
    var c, shift := d[..o] + d[e..], if b <= o then 0 else e - o;
    SameBytes(c, a - shift, d, a, b - a);
  }

  lemma {:induction false} SameBytes(c: seq<Byte>, x: int, d: seq<Byte>, a: int, n: nat)
    requires 0 <= x && x + n <= |c| && 0 <= a && a + n <= |d|
    requires forall i :: x <= i < x + n ==> c[i] == d[i - x + a]
    ensures c[x .. x + n] == d[a .. a + n]
  {
    if n > 0 {
      SameBytes(c, x, d, a, n - 1);
      assert c[x .. x + n] == c[x .. x + n - 1] + [c[x + n - 1]];
      assert d[a .. a + n] == d[a .. a + n - 1] + [d[a + n - 1]];
    }
  }

  lemma SqueezeSlice(v: View, k: nat, i: nat)
    requires InBounds(|v.data|, v.slots) && Live(v, k) && Live(v, i) && i != k
    requires v.slots[i].End() <= v.slots[k].offset || v.slots[k].End() <= v.slots[i].offset
    requires InBounds(|Squeeze(v, k).data|, Squeeze(v, k).slots)
    ensures SameRecord(v, Squeeze(v, k), i)
  {
    var s, t := v.slots[k], v.slots[i];
    CutSlice(v.data, s.offset, s.End(), t.offset, t.End());
  }

  lemma SqueezeKeeps(v: View, k: nat, i: int)
    requires Tidy(v) && Live(v, k) && i != k
    ensures var w := Squeeze(v, k); InBounds(|w.data|, w.slots) && SameRecord(v, w, i)
  {
    SqueezeTiled(v, k);
    if Live(v, i) {
      Neighbour(v, k, i);
      SqueezeSlice(v, k, i);
    }
  }

  lemma TrimTiled(size: nat, slots: seq<Slot>)
    requires Tiled(size, slots)
    ensures Tiled(size, Trim(slots))
  {
    var r := Trim(slots);
    forall x | 0 <= x < size
      ensures Covered(r, x)
    {
      assert Covered(slots, x);
      var i :| 0 <= i < |slots| && slots[i].Holds(x);
      assert r[i].Holds(x);
    }
  }

  lemma TrimKeeps(w: View, i: int)
    requires InBounds(|w.data|, w.slots)
    ensures var d := w.(slots := Trim(w.slots)); InBounds(|d.data|, d.slots) && SameRecord(w, d, i)
  {
    if Live(w, i) { assert w.slots[i].Used(); }
  }

  lemma DeleteKeeps(v: View, k: nat, i: int)
    requires Tidy(v) && Live(v, k)
    ensures var d := Delete(v, k);
            InBounds(|d.data|, d.slots) && if i == k then !Live(d, i) else SameRecord(v, d, i)
  {
    SqueezeTiled(v, k);
    TrimKeeps(Squeeze(v, k), i);
    if i != k { SqueezeKeeps(v, k, i); }
  }

  lemma DeleteTidy(v: View, k: nat)
    requires Tidy(v) && Live(v, k)
    ensures Tidy(Delete(v, k))
  {
    hide Tiled, Squeeze;
    TidyBounds(v);
    SqueezeTiled(v, k);
    SqueezeShape(v, k);
    TrimTiled(|Squeeze(v, k).data|, Squeeze(v, k).slots);
  }

  lemma TidyBounds(v: View)
    requires Tidy(v)
    ensures InBounds(|v.data|, v.slots)
  {
  }

  lemma SqueezeShape(v: View, k: nat)
    requires InBounds(|v.data|, v.slots) && Live(v, k)
    ensures var w := Squeeze(v, k);
            |w.data| == |v.data| - v.slots[k].length && |w.slots| == |v.slots| && w.next == v.next && w.cur == v.cur
  {
  }

  /** Deletion removes exactly one entry, every other record keeping its bytes and its slot. */
  lemma DeleteRefines(v: View, k: nat)
    requires Tidy(v) && Live(v, k)
    ensures var d := Delete(v, k);
            InBounds(|d.data|, d.slots) && Recs(d) == Recs(v) - {k as int}
  {
    var d, m := Delete(v, k), Recs(v) - {k as int};
    DeleteKeeps(v, k, k);
    forall i
      ensures i in m <==> Live(d, i)
      ensures i in m ==> m[i] == RecordAt(d, i)
    {
      DeleteKeeps(v, k, i);
    }
    RecsAre(d, m);
  }

  // ---------- runs of inserts and deletes ----------

  datatype PageOp = InsertOp(rec: seq<Byte>) | DeleteOp(slot: int)

  function Step(v: View, op: PageOp): View
    requires Tidy(v)
  {
    match op
    case InsertOp(rec) => if Fits(v, rec) then Insert(v, rec) else v
    case DeleteOp(k) => if Live(v, k) then Delete(v, k) else v
  }

  /** The same step on the map alone, the slot of an insertion and its acceptance being observed. */
  function MapStep(m: map<int, seq<Byte>>, op: PageOp, accepted: bool, slot: int): map<int, seq<Byte>> {
    match op
    case InsertOp(rec) => if accepted && rec != [] then m[slot := rec] else m
    case DeleteOp(k) => m - {k}
  }

  lemma StepRefines(v: View, op: PageOp)
    requires Tidy(v)
    ensures Tidy(Step(v, op))
    ensures var k := FirstFree(v.slots);
            && k !in Recs(v)
            && Recs(Step(v, op)) == MapStep(Recs(v), op, op.InsertOp? && Fits(v, op.rec), k)
  {
    match op
    case InsertOp(rec) =>
      if Fits(v, rec) { InsertTidy(v, rec); InsertRefines(v, rec); }
    case DeleteOp(k) =>
      if Live(v, k) { DeleteTidy(v, k); DeleteRefines(v, k); } else { assert Recs(v) - {k} == Recs(v); }
  }

  function Run(v: View, ops: seq<PageOp>): View
    requires Tidy(v)
    decreases |ops|
  {
    if ops == [] then v else StepRefines(v, ops[0]); Run(Step(v, ops[0]), ops[1..])
  }

  /** The same run on the map, given what the caller saw: which inserts were accepted, and where. */
  function MapRun(m: map<int, seq<Byte>>, ops: seq<PageOp>, seen: seq<(bool, int)>): map<int, seq<Byte>>
    requires |seen| == |ops|
    decreases |ops|
  {
    if ops == [] then m else MapRun(MapStep(m, ops[0], seen[0].0, seen[0].1), ops[1..], seen[1..])
  }

  function Seen(v: View, ops: seq<PageOp>): (r: seq<(bool, int)>)
    requires Tidy(v)
    ensures |r| == |ops|
    decreases |ops|
  {
    if ops == [] then []
    else
      StepRefines(v, ops[0]);
      [(ops[0].InsertOp? && Fits(v, ops[0].rec), FirstFree(v.slots))] + Seen(Step(v, ops[0]), ops[1..])
  }

  /** Over every run of inserts and deletes the page stays tidy and means the map the caller expects. */
  lemma {:induction false} RunRefines(v: View, ops: seq<PageOp>)
    requires Tidy(v)
    ensures Tidy(Run(v, ops))
    ensures Recs(Run(v, ops)) == MapRun(Recs(v), ops, Seen(v, ops))
    decreases |ops|
  {
    if ops != [] {
      StepRefines(v, ops[0]);
      RunRefines(Step(v, ops[0]), ops[1..]);
    }
  }

  /** A record that no operation of the run deletes keeps its slot and its bytes. */
  lemma {:induction false} RunKeeps(v: View, ops: seq<PageOp>, k: int)
    requires Tidy(v) && k in Recs(v)
    requires forall op :: op in ops && op.DeleteOp? ==> op.slot != k
    ensures Tidy(Run(v, ops)) && k in Recs(Run(v, ops)) && Recs(Run(v, ops))[k] == Recs(v)[k]
    decreases |ops|
  {
    hide Recs, Tiled, Step;
    if ops != [] {
      StepRefines(v, ops[0]);
      assert ops[0] in ops;
      RunKeeps(Step(v, ops[0]), ops[1..], k);
    }
  }
}
