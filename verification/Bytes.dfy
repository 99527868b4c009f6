/**
 Page images as raw bytes, and the little-endian two's-complement shorts and
 ints that the C++ structs overlay on them.
 */
module Bytes {
  const PAGESIZE: int := 1024

  type Byte = b: int | 0 <= b < 256

  /** The content of one page of a file or of one frame of the buffer pool. */
  type Image = s: seq<Byte> | |s| == PAGESIZE witness seq(PAGESIZE, i => 0)

  function ZeroPage(): (z: Image)
    ensures forall i :: 0 <= i < PAGESIZE ==> z[i] == 0
  {
    seq(PAGESIZE, i => 0)
  }

  predicate IsShort(v: int) { -0x8000 <= v < 0x8000 }

  predicate IsInt(v: int) { -0x8000_0000 <= v < 0x8000_0000 }

  /** The C++ remainder, which takes the sign of its left operand. */
  function CRem(a: int, n: int): int
    requires 0 < n
  {
    if 0 <= a then a % n else -((-a) % n)
  }

  /** The quotient that goes with it: division truncates towards zero. */
  lemma CRemExact(a: int, n: int)
    requires 0 < n
    ensures exists q :: a == q * n + CRem(a, n)
    ensures -n < CRem(a, n) < n && (CRem(a, n) > 0 ==> a > 0) && (CRem(a, n) < 0 ==> a < 0)
  {
    if 0 <= a { assert a == (a / n) * n + CRem(a, n); }
    else { assert a == (-((-a) / n)) * n + CRem(a, n); }
  }

  /** The multiples of a number other than 0 are at least that far from 0. */
  lemma Spread(x: int, n: int)
    requires 0 < n
    ensures x >= 1 ==> x * n >= n
    ensures x <= -1 ==> x * n <= -n
  {
  }

  /** The unsigned halfword at address o. */
  function GetHalf(s: seq<Byte>, o: int): (v: int)
    requires 0 <= o <= |s| - 2
    ensures 0 <= v < 0x1_0000
  {
    var lo: int, hi: int := s[o], s[o + 1];
    lo + 256 * hi
  }

  function PutHalf(s: seq<Byte>, o: int, v: int): (r: seq<Byte>)
    requires 0 <= o <= |s| - 2 && 0 <= v < 0x1_0000
    ensures |r| == |s| && GetHalf(r, o) == v
    ensures forall i :: 0 <= i < |s| && i != o && i != o + 1 ==> r[i] == s[i]
  {
    s[o := v % 256][o + 1 := v / 256]
  }

  function GetShort(s: seq<Byte>, o: int): (v: int)
    requires 0 <= o <= |s| - 2
    ensures IsShort(v)
  {
    var u := GetHalf(s, o);
    if u < 0x8000 then u else u - 0x1_0000
  }

  function PutShort(s: seq<Byte>, o: int, v: int): (r: seq<Byte>)
    requires 0 <= o <= |s| - 2 && IsShort(v)
    ensures |r| == |s| && GetShort(r, o) == v
    ensures forall i :: 0 <= i < |s| && i != o && i != o + 1 ==> r[i] == s[i]
  {
    PutHalf(s, o, if v < 0 then v + 0x1_0000 else v)
  }

  function GetInt(s: seq<Byte>, o: int): (v: int)
    requires 0 <= o <= |s| - 4
    ensures IsInt(v)
  {
    GetHalf(s, o) + 0x1_0000 * GetShort(s, o + 2)
  }

  function PutInt(s: seq<Byte>, o: int, v: int): (r: seq<Byte>)
    requires 0 <= o <= |s| - 4 && IsInt(v)
    ensures |r| == |s| && GetInt(r, o) == v
    ensures forall i :: 0 <= i < |s| && !(o <= i < o + 4) ==> r[i] == s[i]
  {
    PutShort(PutHalf(s, o, v % 0x1_0000), o + 2, v / 0x1_0000)
  }

  /** Shorts and ints are little-endian and in two's complement. */
  lemma LittleEndian(s: seq<Byte>, o: int)
    requires 0 <= o <= |s| - 4
    ensures var a: int, b: int, c: int, d: int := s[o], s[o + 1], s[o + 2], s[o + 3];
            var half, word := a + 256 * b, a + 256 * b + 65536 * c + 16777216 * d;
            && GetShort(s, o) == (if half < 32768 then half else half - 65536)
            && GetInt(s, o) == (if word < 2147483648 then word else word - 4294967296)
  {
  }

  /** A store leaves every int at a disjoint address alone. */
  lemma PutIntFrame(s: seq<Byte>, o: int, v: int, a: int)
    requires 0 <= o <= |s| - 4 && IsInt(v) && 0 <= a <= |s| - 4 && (a + 4 <= o || o + 4 <= a)
    ensures GetInt(PutInt(s, o, v), a) == GetInt(s, a)
  {
    var r := PutInt(s, o, v);
    assert forall i :: a <= i < a + 4 ==> r[i] == s[i];
  }

  method StoreHalf(mem: array<Byte>, o: int, v: int)
    requires 0 <= o <= mem.Length - 2 && 0 <= v < 0x1_0000
    modifies mem
    ensures mem[..] == PutHalf(old(mem[..]), o, v)
  {
    mem[o], mem[o + 1] := v % 256, v / 256;
  }

  /** Storing a short at an address, in place. */
  method StoreShort(mem: array<Byte>, o: int, v: int)
    requires 0 <= o <= mem.Length - 2 && IsShort(v)
    modifies mem
    ensures mem[..] == PutShort(old(mem[..]), o, v)
  {
    StoreHalf(mem, o, if v < 0 then v + 0x1_0000 else v);
  }

  /** Storing an int at an address, in place. */
  method StoreInt(mem: array<Byte>, o: int, v: int)
    requires 0 <= o <= mem.Length - 4 && IsInt(v)
    modifies mem
    ensures mem[..] == PutInt(old(mem[..]), o, v)
  {
    StoreHalf(mem, o, v % 0x1_0000);
    StoreShort(mem, o + 2, v / 0x1_0000);
  }

  function Splice(s: seq<Byte>, o: int, src: seq<Byte>): (r: seq<Byte>)
    requires 0 <= o && o + |src| <= |s|
    ensures |r| == |s| && forall i :: 0 <= i < |s| ==> r[i] == if o <= i < o + |src| then src[i - o] else s[i]
  {
    s[..o] + src + s[o + |src|..]
  }

  lemma SpliceStep(s: seq<Byte>, o: int, src: seq<Byte>, k: int)
    requires 0 <= o && o + |src| <= |s| && 0 <= k < |src|
    ensures Splice(s, o, src[..k])[o + k := src[k]] == Splice(s, o, src[..k + 1])
  {
    var a, b := Splice(s, o, src[..k])[o + k := src[k]], Splice(s, o, src[..k + 1]);
    forall i | 0 <= i < |s|
      ensures a[i] == b[i]
    {
    }
  }

  lemma SpliceNone(s: seq<Byte>, o: int)
    requires 0 <= o <= |s|
    ensures Splice(s, o, []) == s
  {
  }

  /** memcpy of a whole buffer to an address (memcpy and bcopy, the source being read first). */
  method CopyTo(mem: array<Byte>, o: int, src: seq<Byte>)
    requires 0 <= o && o + |src| <= mem.Length
    modifies mem
    ensures mem[..] == Splice(old(mem[..]), o, src)
  {
    hide Splice;
    SpliceNone(mem[..], o);
    for k := 0 to |src|
      invariant mem[..] == Splice(old(mem[..]), o, src[..k])
    {
      SpliceStep(old(mem[..]), o, src, k);
      mem[o + k] := src[k];
    }
    assert src[..|src|] == src;
  }
}
