/**
 * The map of hashmap.c: a fixed array of 0x10000 buckets, each holding the
 * hash written when its first node was linked and a collision chain. The
 * chains are sequences of entries (see module Chains); the operations walk
 * them with the same loops as the C code and update the bucket array in place.
 */
module Hashmap {
  import Fnv
  import opened Strn
  import opened Chains

  /** `buckets_list_length`, fixed by makemap. */
  const BucketsLength: nat := 0x10000

  /** The largest value of the C `int` that holds `item_count`. */
  const IntMax: int := 0x7fff_ffff

  /** `struct hashmap_bucket`: the stored hash and the chain starting at `first_node`. */
  datatype Bucket = Bucket(hash: bv64, chain: seq<Entry>)

  /**
   * `hash % buckets_list_length`: the length is converted to the unsigned
   * 64-bit type of the hash, so this is the ordinary remainder of the hash's
   * value and lands inside the bucket array.
   */
  function BucketIndex(hash: bv64): (index: nat)
    ensures index < BucketsLength
  {
    (hash as int) % BucketsLength
  }

  /** The bucket every operation picks for `key`: the index of the FNV-1a hash of its first `n` bytes. */
  function KeyIndex(key: seq<bv8>, n: nat): (index: nat)
    requires n <= |key|
    ensures index < BucketsLength
  {
    BucketIndex(Fnv.HashOf(key[..n]))
  }

  /** Only the first `n` bytes of a key decide its bucket. */
  lemma KeyIndexOfPrefix(a: seq<bv8>, b: seq<bv8>, n: nat)
    requires n <= |a| && n <= |b| && a[..n] == b[..n]
    ensures KeyIndex(a, n) == KeyIndex(b, n)
  {
  }

  /** Every entry of a chain stored in bucket `i` has a key and value of the declared sizes and hashes to `i`. */
  ghost predicate ChainFits(chain: seq<Entry>, i: nat, keySize: nat, dataSize: nat)
  {
    (forall j :: 0 <= j < |chain| ==> |chain[j].key| == keySize && |chain[j].val| == dataSize) &&
    forall j {:trigger KeyIndex(chain[j].key, keySize)} :: 0 <= j < |chain| && keySize <= |chain[j].key| ==>
      KeyIndex(chain[j].key, keySize) == i
  }

  /** Every bucket's chain fits its bucket. */
  ghost predicate BucketsFit(bs: seq<Bucket>, keySize: nat, dataSize: nat)
  {
    forall i :: 0 <= i < |bs| ==> ChainFits(bs[i].chain, i, keySize, dataSize)
  }

  /** Assigning a key of bucket `i` keeps its chain fitting bucket `i`. */
  lemma AssignChainFits(chain: seq<Entry>, key: seq<bv8>, val: seq<bv8>, i: nat, keySize: nat, dataSize: nat)
    requires ChainFits(chain, i, keySize, dataSize)
    requires |key| == keySize && |val| == dataSize && KeyIndex(key, keySize) == i
    ensures KeysFit(chain, keySize)
    ensures ChainFits(AssignChain(chain, key, val, keySize), i, keySize, dataSize)
  {
    AssignChainShape(chain, key, val, keySize);
    var r := AssignChain(chain, key, val, keySize);
    forall j | 0 <= j < |r| && keySize <= |r[j].key|
      ensures KeyIndex(r[j].key, keySize) == i
    {
      if j < |chain| {
        assert r[j].key == chain[j].key;
        assert KeyIndex(chain[j].key, keySize) == i;
      }
    }
  }

  /** Removing from a chain keeps it fitting its bucket. */
  lemma RemoveChainFits(chain: seq<Entry>, key: seq<bv8>, i: nat, keySize: nat, dataSize: nat)
    requires ChainFits(chain, i, keySize, dataSize) && |key| == keySize
    ensures KeysFit(chain, keySize)
    ensures ChainFits(RemoveChain(chain, key, keySize), i, keySize, dataSize)
  {
    RemoveChainShape(chain, key, keySize);
    var r := RemoveChain(chain, key, keySize);
    forall j | 0 <= j < |r| && keySize <= |r[j].key|
      ensures KeyIndex(r[j].key, keySize) == i
    {
      var k := if FirstMatch(chain, key, keySize).Some? && j >= FirstMatch(chain, key, keySize).value then j + 1 else j;
      assert r[j] == chain[k];
      assert KeyIndex(chain[k].key, keySize) == i;
    }
  }

  /** Replacing one bucket by a chain that fits it keeps the array fitting, and adjusts the total. */
  lemma ReplaceBucket(bs: seq<Bucket>, i: nat, b: Bucket, keySize: nat, dataSize: nat,
                     count: int, removals: nat, count': int, removals': nat)
    requires Consistent(bs, keySize, dataSize, count, removals)
    requires i < |bs| && ChainFits(b.chain, i, keySize, dataSize)
    requires count' - removals' == count - removals - |bs[i].chain| + |b.chain|
    ensures Consistent(bs[i := b], keySize, dataSize, count', removals')
  {
    TotalEntriesUpdate(bs, i, b);
  }

  /**
   * The map invariant on the bucket array: the fixed length, every entry
   * in the bucket of its own key, and `item_count` equal to the number of
   * linked entries plus the number of removals, because map_remove leaves
   * it unchanged.
   */
  ghost predicate Consistent(bs: seq<Bucket>, keySize: nat, dataSize: nat, itemCount: int, removals: nat)
  {
    |bs| == BucketsLength && BucketsFit(bs, keySize, dataSize) && itemCount == TotalEntries(bs) + removals
  }

  /** The number of nodes linked into all chains of the bucket array. */
  function TotalEntries(bs: seq<Bucket>): nat
  {
    if bs == [] then 0 else TotalEntries(bs[..|bs| - 1]) + |bs[|bs| - 1].chain|
  }

  /** Replacing one bucket changes the total by the difference in that bucket's chain length. */
  lemma {:induction false} TotalEntriesUpdate(bs: seq<Bucket>, i: nat, b: Bucket)
    requires i < |bs|
    ensures TotalEntries(bs[i := b]) == TotalEntries(bs) - |bs[i].chain| + |b.chain|
    decreases |bs|
  {
    var last := |bs| - 1;
    var cs := bs[i := b];
    assert cs[..last] == if i == last then bs[..last] else bs[..last][i := b];
    if i < last {
      TotalEntriesUpdate(bs[..last], i, b);
    }
  }

  /** A bucket array with only empty chains holds no entries. */
  lemma {:induction false} TotalEntriesEmpty(bs: seq<Bucket>)
    requires forall i :: 0 <= i < |bs| ==> bs[i].chain == []
    ensures TotalEntries(bs) == 0
    decreases |bs|
  {
    if bs != [] {
      TotalEntriesEmpty(bs[..|bs| - 1]);
    }
  }

  /**
   * The loop of map_assign over a non-empty chain: it advances while the
   * current node has a successor and stops at the first node whose key
   * compares equal, so it never looks at the tail.
   */
  method ScanBeforeTail(chain: seq<Entry>, key: seq<bv8>, n: nat) returns (found: bool, j: nat)
    requires KeysFit(chain, n) && n <= |key| && chain != []
    ensures found <==> FirstMatch(chain[..|chain| - 1], key, n).Some?
    ensures found ==> FirstMatch(chain[..|chain| - 1], key, n) == Some(j)
  {
    j := 0;
    while j < |chain| - 1
      invariant 0 <= j < |chain|
      invariant forall k :: 0 <= k < j ==> !Matches(chain[k], key, n)
    {
      if Matches(chain[j], key, n) {
        assert FirstMatch(chain[..|chain| - 1], key, n) == Some(j) by {
          var p := chain[..|chain| - 1];
          assert forall k :: 0 <= k <= j ==> p[k] == chain[k];
        }
        return true, j;
      }
      j := j + 1;
    }
    assert FirstMatch(chain[..|chain| - 1], key, n).None? by {
      var p := chain[..|chain| - 1];
      assert forall k :: 0 <= k < |p| ==> p[k] == chain[k];
    }
    return false, j;
  }

  /**
   * The loop shared by map_get and map_remove: walks the whole chain from
   * its head (map_remove keeping the predecessor, at position j - 1) and
   * stops at the first node whose key compares equal.
   */
  method ScanForMatch(chain: seq<Entry>, key: seq<bv8>, n: nat) returns (found: bool, j: nat)
    requires KeysFit(chain, n) && n <= |key|
    ensures found <==> FirstMatch(chain, key, n).Some?
    ensures found ==> FirstMatch(chain, key, n) == Some(j)
  {
    j := 0;
    while j < |chain|
      invariant 0 <= j <= |chain|
      invariant forall k :: 0 <= k < j ==> !Matches(chain[k], key, n)
    {
      if Matches(chain[j], key, n) {
        return true, j;
      }
      j := j + 1;
    }
    return false, j;
  }

  /** `struct _map`. */
  class Map {
    const buckets: array<Bucket>
    const keySize: nat
    const dataSize: nat
    var itemCount: int
    /** How many entries map_remove has unlinked; it never lowers `item_count`. */
    ghost var removals: nat

    /** The map invariant, see Consistent. */
    ghost predicate Valid()
      reads this, buckets
    {
      buckets.Length == BucketsLength &&
      Consistent(buckets[..], keySize, dataSize, itemCount, removals)
    }

    /** The chain of bucket `i`; its keys are long enough for the comparison over `keySize` bytes. */
    ghost function ChainAt(i: nat): (chain: seq<Entry>)
      reads this, buckets
      requires Valid() && i < BucketsLength
      ensures KeysFit(chain, keySize)
    {
      assert ChainFits(buckets[..][i].chain, i, keySize, dataSize);
      buckets[i].chain
    }

    /** makemap once its allocations succeed: every bucket empty with hash 0, no items. */
    constructor (keySize: nat, dataSize: nat)
      ensures Valid() && fresh(buckets)
      ensures this.keySize == keySize && this.dataSize == dataSize
      ensures itemCount == 0 && removals == 0
      ensures forall i :: 0 <= i < buckets.Length ==> buckets[i] == Bucket(0, [])
    {
      var bs := new Bucket[BucketsLength];
      for i := 0 to BucketsLength
        invariant forall k :: 0 <= k < i ==> bs[k] == Bucket(0, [])
      {
        bs[i] := Bucket(0, []);
      }
      TotalEntriesEmpty(bs[..]);
      assert BucketsFit(bs[..], keySize, dataSize);
      buckets := bs;
      this.keySize := keySize;
      this.dataSize := dataSize;
      itemCount := 0;
      removals := 0;
    }

    /**
     * The one write map_assign and map_remove make to the table: bucket
     * `index` becomes `b`, together with the removal tally that keeps the
     * map consistent.
     */
    method SetBucket(index: nat, b: Bucket, ghost removals': nat)
      requires buckets.Length == BucketsLength && index < BucketsLength
      requires Consistent(buckets[..][index := b], keySize, dataSize, itemCount, removals')
      modifies this`removals, buckets
      ensures Valid() && buckets[..] == old(buckets[..])[index := b] && removals == removals'
    {
      buckets[index] := b;
      removals := removals';
    }

    /**
     * map_assign. With `allocOk` false one of the allocations failed: the
     * result is -1 and nothing changes. Otherwise the result is 0 and the
     * key's chain becomes AssignChain of the old one; an empty bucket also
     * records the hash. `item_count` grows by one exactly when a node is linked.
     */
    method Assign(key: seq<bv8>, val: seq<bv8>, allocOk: bool) returns (status: int)
      requires Valid() && |key| == keySize && |val| == dataSize
      requires itemCount < IntMax
      modifies this, buckets
      ensures Valid() && removals == old(removals)
      ensures status == (if allocOk then 0 else -1)
      ensures !allocOk ==> buckets[..] == old(buckets[..]) && itemCount == old(itemCount)
      ensures allocOk ==>
        var i := KeyIndex(key, keySize);
        var chain := old(buckets[i].chain);
        buckets[..] == old(buckets[..])[i := Bucket(
          if chain == [] then Fnv.HashOf(key) else old(buckets[i].hash),
          AssignChain(chain, key, val, keySize))] &&
        itemCount == old(itemCount) + (if Appends(chain, key, keySize) then 1 else 0)
    {
      // valcpy, keycpy or new_node could not be allocated
      if !allocOk {
        return -1;
      }
      assert key[..keySize] == key;
      var hash := Fnv.Hash(key, keySize);
      var index := BucketIndex(hash);
      assert index == KeyIndex(key, keySize);
      var newNode := Entry(key, val);
      var bucket := buckets[index];
      var chain := bucket.chain;
      ghost var before := buckets[..];
      ghost var after := Bucket(if chain == [] then hash else bucket.hash, AssignChain(chain, key, val, keySize));
      assert KeysFit(chain, keySize) by {
        assert ChainFits(before[index].chain, index, keySize, dataSize);
      }
      ghost var grows := Appends(chain, key, keySize);
      assert Consistent(before[index := after], keySize, dataSize,
                        itemCount + (if grows then 1 else 0), removals) by {
        assert ChainFits(before[index].chain, index, keySize, dataSize);
        AssignChainFits(chain, key, val, index, keySize, dataSize);
        AssignChainCases(chain, key, val, keySize);
        ReplaceBucket(before, index, after, keySize, dataSize,
                      itemCount, removals, itemCount + (if grows then 1 else 0), removals);
      }

      var updated: Bucket;
      var linked: bool;
      if chain == [] {
        // first_node = new_node, and the bucket records the hash
        updated, linked := Bucket(hash, [newNode]), true;
        assert updated == after && linked == grows by {
          AssignChainCases(chain, key, val, keySize);
        }
      } else {
        // walk while current_node->next != NULL: the tail is never compared
        var found, j := ScanBeforeTail(chain, key, keySize);
        if found {
          // current_node->val = valcpy
          updated, linked := Bucket(bucket.hash, chain[j := Entry(chain[j].key, val)]), false;
          assert updated == after && linked == grows by {
            AssignChainCases(chain, key, val, keySize);
          }
        } else {
          // current_node->next = new_node
          updated, linked := Bucket(bucket.hash, chain + [newNode]), true;
          assert updated == after && linked == grows by {
            AssignChainCases(chain, key, val, keySize);
          }
        }
      }
      if linked {
        itemCount := itemCount + 1;
      }
      SetBucket(index, updated, removals);
      return 0;
    }

    /**
     * map_get: the value of the first entry in the key's chain that compares
     * equal to it over `key_size` bytes, or None for NULL. The value is a
     * copy of the stored bytes, so it has `data_size` bytes.
     */
    method Get(key: seq<bv8>) returns (r: Option<seq<bv8>>)
      requires Valid() && |key| == keySize
      ensures r == Lookup(ChainAt(KeyIndex(key, keySize)), key, keySize)
      ensures r.Some? ==> |r.value| == dataSize
    {
      assert key[..keySize] == key;
      var hash := Fnv.Hash(key, keySize);
      var index := BucketIndex(hash);
      var chain := buckets[index].chain;
      assert chain == ChainAt(index);
      assert ChainFits(buckets[..][index].chain, index, keySize, dataSize);
      var found, j := ScanForMatch(chain, key, keySize);
      if found {
        return Some(chain[j].val);
      }
      return None;
    }

    /**
     * map_remove: unlink the first entry of the key's chain that compares
     * equal to it, through the bucket head or through the predecessor's
     * link. `item_count` is never changed, so an actual removal shows up as
     * one more entry in `removals`.
     */
    method Remove(key: seq<bv8>)
      requires Valid() && |key| == keySize
      modifies this`removals, buckets
      ensures Valid() && itemCount == old(itemCount)
      ensures
        var i := KeyIndex(key, keySize);
        var chain := old(buckets[i].chain);
        buckets[..] == old(buckets[..])[i := Bucket(old(buckets[i].hash), RemoveChain(chain, key, keySize))] &&
        removals == old(removals) + (if FirstMatch(chain, key, keySize).Some? then 1 else 0)
    {
      assert key[..keySize] == key;
      var hash := Fnv.Hash(key, keySize);
      var index := BucketIndex(hash);
      assert index == KeyIndex(key, keySize);
      var bucket := buckets[index];
      var chain := bucket.chain;
      ghost var before := buckets[..];
      ghost var after := Bucket(bucket.hash, RemoveChain(chain, key, keySize));
      assert KeysFit(chain, keySize) by {
        assert ChainFits(before[index].chain, index, keySize, dataSize);
      }
      ghost var shrinks := FirstMatch(chain, key, keySize).Some?;
      assert Consistent(before[index := after], keySize, dataSize,
                        itemCount, removals + (if shrinks then 1 else 0)) by {
        assert ChainFits(before[index].chain, index, keySize, dataSize);
        RemoveChainFits(chain, key, index, keySize, dataSize);
        RemoveChainShape(chain, key, keySize);
        ReplaceBucket(before, index, after, keySize, dataSize,
                      itemCount, removals, itemCount, removals + (if shrinks then 1 else 0));
      }

      var found, j := ScanForMatch(chain, key, keySize);
      if found {
        assert chain[..0] + chain[1..] == chain[1..];
        // the head match moves first_node on; otherwise prev_node->next skips the match
        var rest := if j == 0 then chain[1..] else chain[..j] + chain[j + 1..];
        assert rest == after.chain;
        SetBucket(index, Bucket(bucket.hash, rest), removals + 1);
        return;
      }
      assert after == before[index];
      assert before[index := after] == before;
    }
  }

  /** makemap: a fresh, empty map, or null (NULL) when allocation fails. */
  method MakeMap(keySize: nat, dataSize: nat, allocOk: bool) returns (m: Map?)
    ensures allocOk <==> m != null
    ensures m != null ==>
      fresh(m) && fresh(m.buckets) && m.Valid() &&
      m.keySize == keySize && m.dataSize == dataSize && m.itemCount == 0 && m.removals == 0 &&
      forall i :: 0 <= i < m.buckets.Length ==> m.buckets[i] == Bucket(0, [])
  {
    if !allocOk {
      return null;
    }
    m := new Map(keySize, dataSize);
  }

  /**
   * The tail defect at the level of the whole map: on a fresh map, storing
   * a second value `v2` under a key whose bucket holds only that key links a
   * duplicate node. A lookup still answers with the first value `v1`, the
   * count says two for one key, and only removing the key makes `v2` visible.
   */
  method ReassignSingleKey(key: seq<bv8>, v1: seq<bv8>, v2: seq<bv8>)
    returns (before: Option<seq<bv8>>, after: Option<seq<bv8>>, count: int)
    requires |v1| == |v2|
    ensures before == Some(v1) && after == Some(v2) && count == 2
  {
    var n := |key|;
    ghost var i := KeyIndex(key, n);
    ghost var e1, e2 := Entry(key, v1), Entry(key, v2);
    SingleKeyHistory(key, v1, v2, n);
    var m := new Map(n, |v1|);
    var status := m.Assign(key, v1, true);
    status := m.Assign(key, v2, true);
    assert m.buckets[i].chain == [e1, e2];
    before := m.Get(key);
    count := m.itemCount;
    m.Remove(key);
    after := m.Get(key);
  }
}
