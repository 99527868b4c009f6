/** joinHT.cpp: the hash index that a join builds over a block of outer records. */
module JoinHash {
  import opened Statuses
  import opened Bytes
  import opened Compare
  import opened JoinSpec
  import opened Records

  /** JAttrType: the value of the join attribute, an int or a copy of the attrLen bytes. */
  datatype JoinKey = IntKey(iValue: int) | StrKey(sValue: seq<Byte>)

  datatype Bucket = Bucket(rid: RID, value: JoinKey)

  datatype Chain = Null | Node(bucket: Bucket, next: Chain)

  datatype HTEntry = HTEntry(bucketCnt: int, chain: Chain)

  // ---------- hashing ----------

  /** A char of x86 is signed. */
  function SignedChar(b: Byte): int { if b < 128 then b else b - 256 }

  /** Each character but the first is added in, the closing NUL included. */
  function StringSum(s: seq<Byte>, value: int): int
    requires 0 in s
    decreases |s|
  {
    if s[0] == 0 then value else StringSum(s[1..], Wrap(31 * value + SignedChar(s[1])))
  }

  /** The attribute is an int, or a string that ends within its field. */
  predicate KeyField(dtype: Datatype, field: seq<Byte>) {
    FieldOk(dtype, |field|) && (dtype.STRING? ==> 0 in field)
  }

  function Folded(dtype: Datatype, field: seq<Byte>, size: int): int
    requires KeyField(dtype, field)
  {
    match dtype
    case INTEGER => Wrap(Wrap(GetInt(field, 0) * size) * 31)
    case STRING => StringSum(field, 0)
  }

  function Hash(dtype: Datatype, field: seq<Byte>, size: int): (h: int)
    requires KeyField(dtype, field) && 0 < size
    ensures 0 <= h < size
  {
    var r := CRem(Folded(dtype, field, size), size);
    if r < 0 then -r else r
  }

  /** What lookup finds equal. */
  predicate SameKey(dtype: Datatype, a: seq<Byte>, b: seq<Byte>)
    requires KeyField(dtype, a) && KeyField(dtype, b) && |a| == |b|
  {
    match dtype
    case INTEGER => GetInt(a, 0) == GetInt(b, 0)
    case STRING => Strncmp(a, b) == 0
  }

  lemma {:induction false} StringSumSame(a: seq<Byte>, b: seq<Byte>, value: int)
    requires 0 in a && 0 in b && CString(a) == CString(b)
    ensures StringSum(a, value) == StringSum(b, value)
    decreases |a|
  {
    if a[0] != 0 {
      assert CString(a)[0] == a[0] && CString(a)[1..] == CString(a[1..]);
      assert CString(b)[0] == b[0] && CString(b)[1..] == CString(b[1..]);
      SameStart(a[1..], b[1..]);
      StringSumSame(a[1..], b[1..], Wrap(31 * value + SignedChar(a[1])));
    }
  }

  lemma SameStart(a: seq<Byte>, b: seq<Byte>)
    requires 0 in a && 0 in b && CString(a) == CString(b)
    ensures a[0] == b[0]
  {
    if a[0] != 0 && b[0] != 0 { assert CString(a)[0] == a[0] && CString(b)[0] == b[0]; }
  }

  /** Equal keys hash alike. */
  lemma SameKeySameHash(dtype: Datatype, a: seq<Byte>, b: seq<Byte>, size: int)
    requires KeyField(dtype, a) && KeyField(dtype, b) && |a| == |b| && 0 < size && SameKey(dtype, a, b)
    ensures Hash(dtype, a, size) == Hash(dtype, b, size)
  {
    if dtype.STRING? {
      StrncmpEqual(a, b);
      StringSumSame(a, b, 0);
    }
  }

  /** The characters as the digits of a number to base 31. */
  function Poly(w: seq<Byte>): int {
    if w == [] then 0 else 31 * Poly(w[..|w| - 1]) + SignedChar(w[|w| - 1])
  }

  lemma WrapLate(x: int, c: int)
    ensures Wrap(31 * Wrap(x) + c) == Wrap(31 * x + c)
  {
    var k := (x - Wrap(x)) / 0x1_0000_0000;
    assert 31 * x + c == 31 * Wrap(x) + c + 31 * k * 0x1_0000_0000;
  }

  lemma {:induction false} CStringEnds(s: seq<Byte>)
    requires 0 in s
    ensures |CString(s)| < |s| && s[|CString(s)|] == 0
    ensures CString(s) == s[..|CString(s)|] && 0 !in CString(s)
  {
    if s[0] != 0 { CStringEnds(s[1..]); }
  }

  lemma {:induction false} SumFrom(s: seq<Byte>, p: nat)
    requires 0 in s && p <= |CString(s)|
    ensures |CString(s)| < |s| && 0 in s[p..]
    ensures StringSum(s, 0) == StringSum(s[p..], Wrap(Poly(s[1..p + 1])))
    decreases p
  {
    hide Wrap, SignedChar;
    CStringEnds(s);
    var n := |CString(s)|;
    assert s[p..][n - p] == 0;
    if p == 0 {
      assert s[0..] == s && s[1..1] == [];
    } else {
      SumFrom(s, p - 1);
      assert s[p - 1] == CString(s)[p - 1] && s[p - 1..][1..] == s[p..] && s[p - 1..][1] == s[p];
      assert s[1..p + 1][..p - 1] == s[1..p] && s[1..p + 1][p - 1] == s[p];
      assert s[p - 1..][0] == s[p - 1] != 0;
      WrapLate(Poly(s[1..p]), SignedChar(s[p]));
    }
  }

  /**
   The hash of a string: the number that its characters after the first one and the
   closing NUL make to base 31, taken as an int once at the end.
   */
  lemma StringHash(field: seq<Byte>, size: int)
    requires KeyField(STRING, field) && 0 < size
    ensures |CString(field)| < |field|
    ensures var v := Wrap(Poly(field[1..|CString(field)| + 1]));
            Hash(STRING, field, size) == if v < 0 then -CRem(v, size) else CRem(v, size)
  {
    hide Wrap;
    CStringEnds(field);
    var n := |CString(field)|;
    SumFrom(field, n);
  }

  lemma MultipleRem(q: int, n: int)
    requires 0 < n
    ensures CRem(q * n, n) == 0
  {
    if 0 <= q * n { MultipleMod(q, n); }
    else { MultipleMod(-q, n); assert -(q * n) == -q * n; }
  }

  lemma MultipleMod(q: int, n: int)
    requires 0 < n
    ensures (q * n) % n == 0
  {
    var d, r := (q * n) / n, (q * n) % n;
    assert q * n == d * n + r;
    assert (q - d) * n == r;
    Spread(q - d, n);
  }

  /** The keys that lookup finds equal are those that an equality join matches. */
  lemma SameKeyIsEquality(d1: Attr, d2: Attr, outer: Rec, inner: Rec)
    requires Joinable(d1, d2) && Has(d1, outer) && Has(d2, inner)
    requires KeyField(d1.dtype, Field(d1, outer)) && KeyField(d2.dtype, Field(d2, inner))
    ensures SameKey(d1.dtype, Field(d1, outer), Field(d2, inner)) <==> Theta(d1, EQ, d2, outer, inner)
    ensures SameKey(d1.dtype, Field(d1, outer), Field(d2, inner)) <==> MatchRec(InnerFilter(d1, EQ, d2, outer), inner)
  {
    PairExact(d1, EQ, d2, outer, inner);
  }

  /** An int whose product with 31 times the table size is an int always lands on chain 0. */
  lemma IntsCollide(field: seq<Byte>, size: int)
    requires |field| == 4 && 0 < size && IsInt(GetInt(field, 0) * size) && IsInt(GetInt(field, 0) * size * 31)
    ensures Hash(INTEGER, field, size) == 0
  {
    hide CRem, GetInt, Wrap;
    var k := GetInt(field, 0);
    WrapInt(k * size);
    WrapInt(k * size * 31);
    MultipleRem(31 * k, size);
    ThirtyOne(k, size);
  }

  lemma WrapInt(x: int)
    requires IsInt(x)
    ensures Wrap(x) == x
  {
  }

  lemma ThirtyOne(k: int, n: int)
    ensures k * n * 31 == 31 * k * n
  {
  }

  // ---------- the index ----------

  function KeyOf(dtype: Datatype, field: seq<Byte>): JoinKey
    requires FieldOk(dtype, |field|)
  {
    match dtype
    case INTEGER => IntKey(GetInt(field, 0))
    case STRING => StrKey(field)
  }

  /** An insertion: the record and the bytes of its join attribute. */
  datatype Entry = Entry(rid: RID, field: seq<Byte>)

  predicate KeyOk(attr: Attr, field: seq<Byte>) {
    |field| == attr.length && KeyField(attr.dtype, field)
  }

  ghost predicate LogOk(attr: Attr, log: seq<Entry>) {
    forall i :: 0 <= i < |log| ==> KeyOk(attr, log[i].field)
  }

  /** The chain of hash value h after the insertions of a log, the newest first. */
  ghost function LogChain(attr: Attr, size: int, log: seq<Entry>, h: int): Chain
    requires LogOk(attr, log) && 0 < size
  {
    if log == [] then Null
    else
      var e := log[0];
      var rest := LogChain(attr, size, log[1..], h);
      if Hash(attr.dtype, e.field, size) == h then Node(Bucket(e.rid, KeyOf(attr.dtype, e.field)), rest) else rest
  }

  function Length(c: Chain): nat {
    match c case Null => 0 case Node(_, next) => 1 + Length(next)
  }

  /** The records inserted with an equal key, the newest first. */
  ghost function Matches(attr: Attr, log: seq<Entry>, field: seq<Byte>): seq<RID>
    requires LogOk(attr, log) && KeyOk(attr, field)
  {
    if log == [] then []
    else (if SameKey(attr.dtype, log[0].field, field) then [log[0].rid] else []) + Matches(attr, log[1..], field)
  }

  /** Which records those are: an equal int or C string decides of each entry, and the order is that of the log. */
  lemma {:induction false} MatchesExact(attr: Attr, e: Entry, log: seq<Entry>, more: seq<Entry>, field: seq<Byte>)
    requires LogOk(attr, log) && LogOk(attr, more) && KeyOk(attr, field) && KeyOk(attr, e.field)
    ensures LogOk(attr, [e]) && LogOk(attr, log + more)
    ensures Matches(attr, [e], field) ==
      if (if attr.dtype.INTEGER? then GetInt(e.field, 0) == GetInt(field, 0) else CString(e.field) == CString(field))
      then [e.rid] else []
    ensures Matches(attr, log + more, field) == Matches(attr, log, field) + Matches(attr, more, field)
    decreases |log|
  {
    hide Strncmp, CString, GetInt;
    StrncmpEqual(e.field, field);
    if log == [] {
      assert log + more == more;
    } else {
      assert KeyOk(attr, log[0].field);
      MatchesExact(attr, e, log[1..], more, field);
      assert (log + more)[0] == log[0] && (log + more)[1..] == log[1..] + more;
    }
  }

  /** The comparison of lookup. */
  predicate Hit(attr: Attr, b: Bucket, field: seq<Byte>)
    requires KeyOk(attr, field)
  {
    match b.value
    case IntKey(v) => attr.dtype.INTEGER? && v == GetInt(field, 0)
    case StrKey(s) => attr.dtype.STRING? && |s| == |field| && Strncmp(s, field) == 0
  }

  function Hits(attr: Attr, c: Chain, field: seq<Byte>): (r: seq<RID>)
    requires KeyOk(attr, field)
    ensures |r| <= Length(c)
  {
    match c
    case Null => []
    case Node(b, next) => (if Hit(attr, b, field) then [b.rid] else []) + Hits(attr, next, field)
  }

  /** The chain that lookup walks holds every record with an equal key. */
  lemma {:induction false} ChainExact(attr: Attr, size: int, log: seq<Entry>, field: seq<Byte>)
    requires LogOk(attr, log) && KeyOk(attr, field) && 0 < size
    ensures Hits(attr, LogChain(attr, size, log, Hash(attr.dtype, field, size)), field) == Matches(attr, log, field)
  {
    hide Hash, Strncmp, GetInt;
    if log != [] {
      assert KeyOk(attr, log[0].field);
      ChainExact(attr, size, log[1..], field);
      if SameKey(attr.dtype, log[0].field, field) {
        SameKeySameHash(attr.dtype, log[0].field, field, size);
      }
    }
  }

  /** One bucket of the walk of lookup. */
  lemma LookupStep(attr: Attr, c: Chain, field: seq<Byte>, got: seq<RID>, all: seq<RID>)
    requires KeyOk(attr, field) && c.Node? && got + Hits(attr, c, field) == all
    ensures Length(c.next) + 1 == Length(c)
    ensures (if Hit(attr, c.bucket, field) then got + [c.bucket.rid] else got) + Hits(attr, c.next, field) == all
  {
    hide Hit;
  }

  lemma LookupEnd(attr: Attr, field: seq<Byte>)
    requires KeyOk(attr, field)
    ensures Hits(attr, Null, field) == []
  {
  }

  class JoinHashTbl {
    const attr: Attr
    const HTSIZE: int
    const ht: array<HTEntry>
    /** The insertions so far, the newest first. */
    ghost var log: seq<Entry>

    ghost predicate Valid()
      reads this, ht
    {
      && AttrOk(attr) && 0 < HTSIZE == ht.Length && LogOk(attr, log)
      && forall h :: 0 <= h < HTSIZE ==>
           ht[h].chain == LogChain(attr, HTSIZE, log, h) && ht[h].bucketCnt == Length(ht[h].chain)
    }

    constructor (size: int, attr: Attr)
      requires 0 < size && AttrOk(attr)
      ensures Valid() && fresh(ht) && this.attr == attr && HTSIZE == size && log == []
    {
      this.attr := attr;
      HTSIZE := size;
      log := [];
      ht := new HTEntry[size](i => HTEntry(0, Null));
    }

    /** The hash as the loop over the characters computes it. */
    method HashOf(field: seq<Byte>) returns (value: int)
      requires KeyOk(attr, field) && 0 < HTSIZE
      ensures value == Hash(attr.dtype, field, HTSIZE) && 0 <= value < HTSIZE
    {
      value := 0;
      match attr.dtype {
        case INTEGER => value := Wrap(Wrap(GetInt(field, 0) * HTSIZE) * 31);
        case STRING =>
          var p := 0;
          while field[p] != 0
            invariant 0 <= p < |field| && 0 in field[p..]
            invariant StringSum(field[p..], value) == StringSum(field, 0)
            decreases |field| - p
          {
            assert field[p..][1..] == field[p + 1..];
            p := p + 1;
            value := Wrap(31 * value + SignedChar(field[p]));
          }
      }
      value := CRem(value, HTSIZE);
      value := if value < 0 then -value else value;
    }

    method Insert(newRid: RID, tuple: Rec) returns (status: Status)
      requires Valid() && Has(attr, tuple) && KeyOk(attr, Field(attr, tuple))
      modifies this, ht
      ensures Valid() && status == OK && log == [Entry(newRid, Field(attr, tuple))] + old(log)
    {
      hide Hash;
      var field := Field(attr, tuple);
      var index := HashOf(field);
      var value := KeyOf(attr.dtype, field);
      ht[index] := HTEntry(ht[index].bucketCnt + 1, Node(Bucket(newRid, value), ht[index].chain));
      log := [Entry(newRid, field)] + log;
      assert log[1..] == old(log);
      status := OK;
    }

    /** lookup delivers exactly the records inserted with an equal key, the newest first. */
    method Lookup(field: seq<Byte>) returns (status: Status, ridCnt: nat, outRids: array<RID>)
      requires Valid() && KeyOk(attr, field)
      ensures status == OK && fresh(outRids) && ridCnt <= outRids.Length
      ensures outRids[..ridCnt] == Matches(attr, log, field)
    {
      hide Hash, Hit, Hits, Length, Matches;
      var index := HashOf(field);
      var tmpBuc := ht[index].chain;
      ridCnt := 0;
      outRids := new RID[ht[index].bucketCnt](i => RID(-1, -1));
      ChainExact(attr, HTSIZE, log, field);
      ghost var all := Matches(attr, log, field);
      assert outRids[..0] == [];
      while tmpBuc.Node?
        invariant ridCnt + Length(tmpBuc) <= outRids.Length
        invariant outRids[..ridCnt] + Hits(attr, tmpBuc, field) == all
        decreases tmpBuc
      {
        ghost var got := outRids[..ridCnt];
        LookupStep(attr, tmpBuc, field, got, all);
        if Hit(attr, tmpBuc.bucket, field) {
          outRids[ridCnt] := tmpBuc.bucket.rid;
          ridCnt := ridCnt + 1;
          assert outRids[..ridCnt] == got + [tmpBuc.bucket.rid];
        }
        tmpBuc := tmpBuc.next;
      }
      LookupEnd(attr, field);
      status := OK;
    }
  }
}
