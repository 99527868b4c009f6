/** bufHash.cpp: the chained hash table from (file, page) to frame number. */
module BufHash {
  import opened Statuses
  import opened Bytes
  import opened Seqs
  import opened Disk

  datatype Key = Key(file: FileId, page: int)

  /** BufHashTbl::hash. */
  function Hash(k: Key, size: int): int
    requires 0 < size
  {
    CRem(k.file + k.page, size)
  }

  /**
   The bucket number that buf.h promises in 0..HTSIZE-1 is there exactly when the
   sum is not negative or divides out.
   */
  lemma HashInRange(k: Key, size: int)
    requires 0 < size
    ensures 0 <= Hash(k, size) < size <==> 0 <= k.file + k.page || (-(k.file + k.page)) % size == 0
  {
  }

  /** The page has a bucket in a table of that size. */
  predicate InTable(k: Key, size: int)
    requires 0 < size
  {
    0 <= Hash(k, size) < size
  }

  /** The page has a bucket in a table of any size: File objects lie at positive addresses. */
  predicate Hashable(k: Key) { 0 <= k.file + k.page }

  class HashBucket {
    const key: Key
    const frameNo: int
    var next: HashBucket?

    constructor (key: Key, frameNo: int, next: HashBucket?)
      ensures this.key == key && this.frameNo == frameNo && this.next == next
    {
      this.key, this.frameNo, this.next := key, frameNo, next;
    }
  }

  type Chains = seq<seq<HashBucket>>

  /** Some bucket of the chain of k holds k. */
  ghost predicate Present(chains: Chains, k: Key) {
    && 0 < |chains| && InTable(k, |chains|)
    && exists i :: 0 <= i < |chains[Hash(k, |chains|)]| && chains[Hash(k, |chains|)][i].key == k
  }

  /** Chain h holds distinct keys of hash h, with their frame numbers. */
  ghost predicate Keyed(chains: Chains, h: int, entries: map<Key, int>)
    requires 0 <= h < |chains|
  {
    && (forall k :: 0 <= k < |chains[h]| ==>
          && Hash(chains[h][k].key, |chains|) == h
          && chains[h][k].key in entries && entries[chains[h][k].key] == chains[h][k].frameNo)
    && (forall j, k :: 0 <= j < k < |chains[h]| ==> chains[h][j].key != chains[h][k].key)
  }

  /** The chains hold exactly the entries. */
  ghost predicate Holds(chains: Chains, entries: map<Key, int>) {
    && (forall h :: 0 <= h < |chains| ==> Keyed(chains, h, entries))
    && (forall k :: k in entries ==> Present(chains, k))
  }

  lemma HoldsInsert(chains: Chains, entries: map<Key, int>, n: HashBucket, h: int)
    requires Holds(chains, entries) && n.key !in entries
    requires 0 <= h < |chains| && h == Hash(n.key, |chains|)
    ensures Holds(chains[h := [n] + chains[h]], entries[n.key := n.frameNo])
  {
    hide Hash;
    var cs, es := chains[h := [n] + chains[h]], entries[n.key := n.frameNo];
    forall q | q in es
      ensures Present(cs, q)
    {
      if q == n.key {
        assert cs[h][0].key == q;
      } else {
        assert Present(chains, q);
        var g := Hash(q, |chains|);
        var i :| 0 <= i < |chains[g]| && chains[g][i].key == q;
        assert cs[g][if g == h then i + 1 else i].key == q;
      }
    }
    forall g | 0 <= g < |cs|
      ensures Keyed(cs, g, es)
    {
      assert Keyed(chains, g, entries);
    }
  }

  lemma HoldsRemove(chains: Chains, entries: map<Key, int>, h: int, i: nat)
    requires Holds(chains, entries) && 0 <= h < |chains| && i < |chains[h]|
    ensures Holds(chains[h := Without(chains[h], i)], entries - {chains[h][i].key})
  {
    hide Hash;
    var cs, es := chains[h := Without(chains[h], i)], entries - {chains[h][i].key};
    assert Keyed(chains, h, entries);
    forall q | q in es
      ensures Present(cs, q)
    {
      assert Present(chains, q);
      var g := Hash(q, |chains|);
      var j :| 0 <= j < |chains[g]| && chains[g][j].key == q;
      assert cs[g][if g == h && j > i then j - 1 else j].key == q;
    }
    forall g | 0 <= g < |cs|
      ensures Keyed(cs, g, es)
    {
      assert Keyed(chains, g, entries);
    }
  }

  lemma HoldsAbsent(chains: Chains, entries: map<Key, int>, k: Key)
    requires Holds(chains, entries) && 0 < |chains| && 0 <= Hash(k, |chains|) < |chains|
    requires forall i :: 0 <= i < |chains[Hash(k, |chains|)]| ==> chains[Hash(k, |chains|)][i].key != k
    ensures k !in entries
  {
    hide Hash;
    assert !Present(chains, k);
  }

  /** The bucket at position k of a chain, or null past its end. */
  ghost function BucketAt(chain: seq<HashBucket>, k: nat): HashBucket? {
    if k < |chain| then chain[k] else null
  }

  ghost predicate Linked(chain: seq<HashBucket>)
    reads chain
  {
    forall k {:trigger chain[k].next} :: 0 <= k < |chain| ==> chain[k].next == BucketAt(chain, k + 1)
  }

  class BufHashTbl {
    const ht: array<HashBucket?>

    /** The entries of the table, and the chain of every bucket. */
    ghost var entries: map<Key, int>
    ghost var chains: Chains
    ghost var Repr: set<object>

    ghost predicate Valid()
      reads this, Repr
      ensures Valid() ==> this in Repr
    {
      && this in Repr && ht in Repr
      && (forall h, k :: 0 <= h < |chains| && 0 <= k < |chains[h]| ==> chains[h][k] in Repr)
      && 0 < ht.Length == |chains|
      && Holds(chains, entries)
      && (forall h :: 0 <= h < |chains| ==> ht[h] == BucketAt(chains[h], 0))
      && (forall h :: 0 <= h < |chains| ==> Linked(chains[h]))
    }

    constructor (htSize: int)
      requires 0 < htSize
      ensures Valid() && fresh(Repr) && entries == map[]
    {
      ht := new HashBucket?[htSize](i => null);
      entries, chains := map[], seq(htSize, i => []);
      new;
      Repr := {this, ht};
    }

    method Lookup(k: Key) returns (status: Status, frameNo: int)
      requires Valid() && InTable(k, ht.Length)
      ensures if k in entries then status == OK && frameNo == entries[k] else status == HASHNOTFOUND && frameNo == 0
    {
      hide Hash;
      var index := Hash(k, ht.Length);
      var tmpBuc := ht[index];
      ghost var i := 0;
      assert Linked(chains[index]) && Keyed(chains, index, entries);
      while tmpBuc != null
        invariant 0 <= i <= |chains[index]| && tmpBuc == BucketAt(chains[index], i)
        invariant forall j :: 0 <= j < i ==> chains[index][j].key != k
        decreases |chains[index]| - i
      {
        if tmpBuc.key == k { return OK, tmpBuc.frameNo; }
        assert chains[index][i].next == BucketAt(chains[index], i + 1);
        tmpBuc := tmpBuc.next;
        i := i + 1;
      }
      HoldsAbsent(chains, entries, k);
      return HASHNOTFOUND, 0;
    }

    method Insert(k: Key, frameNo: int) returns (status: Status)
      requires Valid() && InTable(k, ht.Length)
      modifies Repr
      ensures Valid() && fresh(Repr - old(Repr))
      ensures if k in old(entries) then status == HASHTBLERROR && entries == old(entries)
              else status == OK && entries == old(entries)[k := frameNo]
    {
      hide Hash, Holds, Keyed;
      var index := Hash(k, ht.Length);
      var found, ignored := Lookup(k);
      if found == OK { return HASHTBLERROR; }
      var tmpBuc := new HashBucket(k, frameNo, ht[index]);
      HoldsInsert(chains, entries, tmpBuc, index);
      assert forall h :: 0 <= h < |chains| ==> Linked(chains[h]);
      ht[index] := tmpBuc;
      entries := entries[k := frameNo];
      chains := chains[index := [tmpBuc] + chains[index]];
      Repr := Repr + {tmpBuc};
      status := OK;
    }

    /** The chain bypasses bucket i, which is tmpBuc, and the table forgets its key. */
    method Unlink(index: int, tmpBuc: HashBucket, prevBuc: HashBucket?, ghost i: nat)
      requires Valid() && 0 <= index < ht.Length && i < |chains[index]| && tmpBuc == chains[index][i]
      requires i > 0 ==> prevBuc == chains[index][i - 1]
      modifies Repr
      ensures Valid() && Repr == old(Repr)
      ensures entries == old(entries) - {tmpBuc.key}
    {
      hide Hash, Holds;
      ghost var chain := chains[index];
      Distinct(index, i);
      HoldsRemove(chains, entries, index, i);
      assert forall h :: 0 <= h < |chains| ==> Linked(chains[h]);
      assert chain[i].next == BucketAt(chain, i + 1);
      if tmpBuc == ht[index] {
        assert chain[0] == tmpBuc;
        ht[index] := tmpBuc.next;
        assert Linked(chain);
      } else {
        Distinct(index, i - 1);
        prevBuc.next := tmpBuc.next;
      }
      ghost var rest := Without(chain, i);
      assert Linked(rest) by {
        assert forall k {:trigger rest[k].next} :: 0 <= k < |rest| ==> rest[k] == chain[if k < i then k else k + 1];
      }
      entries := entries - {tmpBuc.key};
      chains := chains[index := rest];
    }

    method Remove(k: Key) returns (status: Status)
      requires Valid() && InTable(k, ht.Length)
      modifies Repr
      ensures Valid() && Repr == old(Repr)
      ensures entries == old(entries) - {k}
      ensures status == if k in old(entries) then OK else HASHTBLERROR
    {
      hide Hash, Holds;
      var index := Hash(k, ht.Length);
      var tmpBuc, prevBuc := ht[index], ht[index];
      ghost var i := 0;
      ghost var chain := chains[index];
      assert Linked(chain);
      while tmpBuc != null && tmpBuc.key != k
        invariant 0 <= i <= |chain| && tmpBuc == BucketAt(chain, i)
        invariant i > 0 ==> prevBuc == chain[i - 1]
        invariant forall j :: 0 <= j < i ==> chain[j].key != k
        decreases |chain| - i
      {
        assert chain[i].next == BucketAt(chain, i + 1);
        prevBuc := tmpBuc;
        tmpBuc := tmpBuc.next;
        i := i + 1;
      }
      if tmpBuc != null {
        Distinct(index, i);
        Unlink(index, tmpBuc, prevBuc, i);
        return OK;
      }
      HoldsAbsent(chains, entries, k);
      assert entries - {k} == entries;
      return HASHTBLERROR;
    }

    /** No bucket is on two chains, or on one chain twice. */
    lemma Distinct(h: int, i: nat)
      requires Valid() && 0 <= h < |chains| && i < |chains[h]|
      ensures chains[h][i].key in entries
      ensures forall g, j :: 0 <= g < |chains| && 0 <= j < |chains[g]| && (g != h || j != i) ==>
                chains[g][j] != chains[h][i]
    {
      assert Keyed(chains, h, entries);
      forall g, j | 0 <= g < |chains| && 0 <= j < |chains[g]| && (g != h || j != i)
        ensures chains[g][j] != chains[h][i]
      {
        assert Keyed(chains, g, entries);
      }
    }
  }
}
