/**
 * One bucket's collision chain (the `hashmap_list_node` list hanging off
 * `first_node` in hashmap.h), seen as the sequence of its entries from head
 * to tail, and what map_assign, map_get and map_remove do to it.
 */
module Chains {
  import opened Strn

  /** A node of the chain: its own copies of the key bytes and the value bytes. */
  datatype Entry = Entry(key: seq<bv8>, val: seq<bv8>)

  datatype Option<T> = None | Some(value: T)

  /** Every key in the chain holds at least `n` bytes, so `strncmp` over `n` bytes stays inside it. */
  predicate KeysFit(chain: seq<Entry>, n: nat)
  {
    forall j :: 0 <= j < |chain| ==> n <= |chain[j].key|
  }

  /** The test in the chain walks: `!strncmp(node->key, key, key_size)`. */
  predicate Matches(e: Entry, key: seq<bv8>, n: nat)
    requires n <= |e.key| && n <= |key|
  {
    StrnEq(e.key, key, n)
  }

  /** The position of the first entry, from the head, whose key matches `key`. */
  function FirstMatch(chain: seq<Entry>, key: seq<bv8>, n: nat): (r: Option<nat>)
    requires KeysFit(chain, n) && n <= |key|
    ensures r.Some? ==> r.value < |chain| && Matches(chain[r.value], key, n)
    ensures forall j :: 0 <= j < |chain| && (r.None? || j < r.value) ==> !Matches(chain[j], key, n)
  {
    if chain == [] then None
    else if Matches(chain[0], key, n) then Some(0)
    else match FirstMatch(chain[1..], key, n)
      case None => None
      case Some(i) => Some(i + 1)
  }

  /** map_get on one chain: the value of the first matching entry, if any. */
  function Lookup(chain: seq<Entry>, key: seq<bv8>, n: nat): Option<seq<bv8>>
    requires KeysFit(chain, n) && n <= |key|
  {
    match FirstMatch(chain, key, n)
    case None => None
    case Some(i) => Some(chain[i].val)
  }

  /** Whether map_assign on a non-empty chain falls through its loop and links a new tail node. */
  predicate Appends(chain: seq<Entry>, key: seq<bv8>, n: nat)
    requires KeysFit(chain, n) && n <= |key|
  {
    chain == [] || FirstMatch(chain[..|chain| - 1], key, n).None?
  }

  /**
   * map_assign on one chain. An empty chain gets the new entry as its only
   * node. Otherwise the loop compares every node except the tail (it stops as
   * soon as `next` is NULL); the first match gets the new value and keeps its
   * stored key, and if there is none a new node is linked after the tail.
   */
  function AssignChain(chain: seq<Entry>, key: seq<bv8>, val: seq<bv8>, n: nat): seq<Entry>
    requires KeysFit(chain, n) && n <= |key|
  {
    if chain == [] then [Entry(key, val)]
    else match FirstMatch(chain[..|chain| - 1], key, n)
      case Some(i) => chain[i := Entry(chain[i].key, val)]
      case None => chain + [Entry(key, val)]
  }

  /** map_remove on one chain: unlink the first matching entry, if any. */
  function RemoveChain(chain: seq<Entry>, key: seq<bv8>, n: nat): seq<Entry>
    requires KeysFit(chain, n) && n <= |key|
  {
    match FirstMatch(chain, key, n)
    case None => chain
    case Some(i) => chain[..i] + chain[i + 1..]
  }

  // ---------------------------------------------------------------------
  // Properties of the chain operations

  /** Lookup finds a value exactly when some entry matches, and it is the first match's value. */
  lemma LookupIsFirstMatch(chain: seq<Entry>, key: seq<bv8>, n: nat)
    requires KeysFit(chain, n) && n <= |key|
    ensures Lookup(chain, key, n).None? <==> forall j :: 0 <= j < |chain| ==> !Matches(chain[j], key, n)
    ensures forall i :: 0 <= i < |chain| && Matches(chain[i], key, n) &&
                        (forall j :: 0 <= j < i ==> !Matches(chain[j], key, n)) ==>
                        Lookup(chain, key, n) == Some(chain[i].val)
  {
  }

  /** A matching entry in a prefix is found at the same place in the whole chain, and vice versa. */
  lemma FirstMatchPrefix(chain: seq<Entry>, key: seq<bv8>, n: nat, m: nat)
    requires KeysFit(chain, n) && n <= |key| && m <= |chain|
    ensures KeysFit(chain[..m], n)
    ensures FirstMatch(chain[..m], key, n) ==
            if FirstMatch(chain, key, n).Some? && FirstMatch(chain, key, n).value < m
            then FirstMatch(chain, key, n) else None
  {
    var p := chain[..m];
    assert forall j :: 0 <= j < m ==> p[j] == chain[j];
  }

  /** Appending an entry after the tail only matters when nothing before it matches. */
  lemma FirstMatchSnoc(chain: seq<Entry>, e: Entry, key: seq<bv8>, n: nat)
    requires KeysFit(chain, n) && n <= |key| && n <= |e.key|
    ensures KeysFit(chain + [e], n)
    ensures FirstMatch(chain + [e], key, n) ==
            if FirstMatch(chain, key, n).Some? then FirstMatch(chain, key, n)
            else if Matches(e, key, n) then Some(|chain|) else None
  {
    var c := chain + [e];
    FirstMatchPrefix(c, key, n, |chain|);
    assert c[..|chain|] == chain;
    assert c[|chain|] == e;
  }

  /** The three outcomes of AssignChain: a new head, a replaced value, a new tail. */
  lemma AssignChainCases(chain: seq<Entry>, key: seq<bv8>, val: seq<bv8>, n: nat)
    requires KeysFit(chain, n) && n <= |key|
    ensures chain == [] ==> AssignChain(chain, key, val, n) == [Entry(key, val)]
    ensures chain != [] && FirstMatch(chain[..|chain| - 1], key, n).Some? ==>
      var j := FirstMatch(chain[..|chain| - 1], key, n).value;
      j < |chain| && AssignChain(chain, key, val, n) == chain[j := Entry(chain[j].key, val)]
    ensures chain != [] && FirstMatch(chain[..|chain| - 1], key, n).None? ==>
      AssignChain(chain, key, val, n) == chain + [Entry(key, val)]
  {
  }

  /** Entries keep their keys and their order; only one value changes or one entry is added. */
  lemma AssignChainShape(chain: seq<Entry>, key: seq<bv8>, val: seq<bv8>, n: nat)
    requires KeysFit(chain, n) && n <= |key|
    ensures var r := AssignChain(chain, key, val, n);
      |r| == |chain| + (if Appends(chain, key, n) then 1 else 0) &&
      (forall j :: 0 <= j < |chain| ==> r[j].key == chain[j].key) &&
      (Appends(chain, key, n) ==> r[..|chain|] == chain && r[|chain|] == Entry(key, val)) &&
      (!Appends(chain, key, n) ==>
        var i := FirstMatch(chain[..|chain| - 1], key, n).value;
        i < |chain| - 1 && Matches(chain[i], key, n) &&
        (forall j :: 0 <= j < i ==> !Matches(chain[j], key, n)) &&
        r[i].val == val && (forall j :: 0 <= j < |chain| && j != i ==> r[j] == chain[j]))
  {
    if chain != [] {
      var m := |chain| - 1;
      FirstMatchPrefix(chain, key, n, m);
      var r := AssignChain(chain, key, val, n);
      if Appends(chain, key, n) {
        assert r[..|chain|] == chain;
      }
    }
  }

  /** A matching entry with no match before it is the first match. */
  lemma FirstMatchAt(chain: seq<Entry>, key: seq<bv8>, n: nat, i: nat)
    requires KeysFit(chain, n) && n <= |key| && i < |chain|
    requires Matches(chain[i], key, n)
    requires forall j :: 0 <= j < i ==> !Matches(chain[j], key, n)
    ensures FirstMatch(chain, key, n) == Some(i)
  {
    var q := FirstMatch(chain, key, n);
    assert q.Some? && !(q.value < i) && !(i < q.value);
  }

  /** The overwrite case of LookupAfterAssign: the first match keeps its key and gets the new value. */
  lemma LookupAfterOverwrite(chain: seq<Entry>, key: seq<bv8>, val: seq<bv8>, n: nat, i: nat)
    requires KeysFit(chain, n) && n <= |key| && i < |chain|
    requires Matches(chain[i], key, n) && forall j :: 0 <= j < i ==> !Matches(chain[j], key, n)
    ensures KeysFit(chain[i := Entry(chain[i].key, val)], n)
    ensures Lookup(chain[i := Entry(chain[i].key, val)], key, n) == Some(val)
  {
    var r := chain[i := Entry(chain[i].key, val)];
    assert forall j :: 0 <= j < |r| ==> r[j].key == chain[j].key;
    assert forall j :: 0 <= j < i ==> r[j] == chain[j];
    FirstMatchAt(r, key, n, i);
  }

  /** The append case of LookupAfterAssign: the new tail answers unless the old tail matched. */
  lemma LookupAfterAppend(chain: seq<Entry>, key: seq<bv8>, val: seq<bv8>, n: nat)
    requires KeysFit(chain, n) && n <= |key| && chain != []
    requires FirstMatch(chain[..|chain| - 1], key, n).None?
    ensures KeysFit(AssignChain(chain, key, val, n), n)
    ensures Lookup(AssignChain(chain, key, val, n), key, n) ==
            if FirstMatch(chain, key, n) == Some(|chain| - 1)
            then Some(chain[|chain| - 1].val)
            else Some(val)
  {
    StrnEqRefl(key, n);
    var m := |chain| - 1;
    var e := Entry(key, val);
    assert AssignChain(chain, key, val, n) == chain + [e];
    assert chain[..m] + [chain[m]] == chain;
    FirstMatchSnoc(chain[..m], chain[m], key, n);
    FirstMatchSnoc(chain, e, key, n);
    if FirstMatch(chain, key, n).Some? {
      assert FirstMatch(chain + [e], key, n) == Some(m);
      assert (chain + [e])[m] == chain[m];
    } else {
      assert FirstMatch(chain + [e], key, n) == Some(|chain|);
      assert (chain + [e])[|chain|] == e;
    }
  }

  /**
   * What map_get returns right after map_assign: the new value, except when
   * the first entry matching the key is the tail of the chain. The tail is
   * never compared, so a second node is appended behind it and the lookup
   * still stops at the old one.
   */
  lemma LookupAfterAssign(chain: seq<Entry>, key: seq<bv8>, val: seq<bv8>, n: nat)
    requires KeysFit(chain, n) && n <= |key|
    ensures KeysFit(AssignChain(chain, key, val, n), n)
    ensures Lookup(AssignChain(chain, key, val, n), key, n) ==
            if chain != [] && FirstMatch(chain, key, n) == Some(|chain| - 1)
            then Some(chain[|chain| - 1].val)
            else Some(val)
  {
    if chain == [] {
      StrnEqRefl(key, n);
      assert AssignChain(chain, key, val, n) == [Entry(key, val)];
    } else {
      var m := |chain| - 1;
      FirstMatchPrefix(chain, key, n, m);
      match FirstMatch(chain[..m], key, n)
      case Some(i) =>
        assert AssignChain(chain, key, val, n) == chain[i := Entry(chain[i].key, val)];
        LookupAfterOverwrite(chain, key, val, n, i);
      case None =>
        LookupAfterAppend(chain, key, val, n);
    }
  }

  /**
   * Assigning a key leaves the lookup of every key that does not compare
   * equal to it unchanged; in particular keys that collide in one bucket
   * keep their own values.
   */
  lemma LookupAfterAssignOther(chain: seq<Entry>, key: seq<bv8>, val: seq<bv8>, other: seq<bv8>, n: nat)
    requires KeysFit(chain, n) && n <= |key| && n <= |other|
    requires !StrnEq(key, other, n)
    ensures KeysFit(AssignChain(chain, key, val, n), n)
    ensures Lookup(AssignChain(chain, key, val, n), other, n) == Lookup(chain, other, n)
  {
    var r := AssignChain(chain, key, val, n);
    AssignChainShape(chain, key, val, n);
    if Appends(chain, key, n) {
      assert r == chain + [Entry(key, val)];
      FirstMatchSnoc(chain, Entry(key, val), other, n);
    } else {
      var i := FirstMatch(chain[..|chain| - 1], key, n).value;
      assert r == chain[i := Entry(chain[i].key, val)];
      assert forall j :: 0 <= j < |chain| ==> Matches(r[j], other, n) == Matches(chain[j], other, n);
      assert FirstMatch(r, other, n) == FirstMatch(chain, other, n) by {
        var p := FirstMatch(r, other, n);
        var q := FirstMatch(chain, other, n);
        assert p.Some? ==> q.Some? && !(q.value < p.value);
        assert q.Some? ==> p.Some? && !(p.value < q.value);
      }
      if FirstMatch(chain, other, n) == Some(i) {
        StrnEqSym(chain[i].key, key, n);
        StrnEqTrans(key, chain[i].key, other, n);
        assert false;
      }
    }
  }

  /**
   * The defect in concrete terms: when the tail entry is the key's first
   * match (for instance for a key alone in its bucket), re-assigning the key
   * adds a duplicate entry, and the key keeps answering with its old value.
   */
  lemma TailReassignDuplicates(chain: seq<Entry>, key: seq<bv8>, val: seq<bv8>, n: nat)
    requires KeysFit(chain, n) && n <= |key|
    requires chain != [] && FirstMatch(chain, key, n) == Some(|chain| - 1)
    ensures AssignChain(chain, key, val, n) == chain + [Entry(key, val)]
    ensures Lookup(AssignChain(chain, key, val, n), key, n) == Lookup(chain, key, n)
  {
    FirstMatchPrefix(chain, key, n, |chain| - 1);
    LookupAfterAssign(chain, key, val, n);
  }

  /**
   * One key's history in a bucket it has to itself: the first assignment
   * starts the chain, the second links a duplicate behind it, lookups keep
   * answering with the first value, and removing unlinks the first entry so
   * that the second value shows through.
   */
  lemma SingleKeyHistory(key: seq<bv8>, v1: seq<bv8>, v2: seq<bv8>, n: nat)
    requires n <= |key|
    ensures var e1, e2 := Entry(key, v1), Entry(key, v2);
      AssignChain([], key, v1, n) == [e1] && Lookup([e1], key, n) == Some(v1) &&
      Appends([e1], key, n) && AssignChain([e1], key, v2, n) == [e1, e2] &&
      Lookup([e1, e2], key, n) == Some(v1) &&
      RemoveChain([e1, e2], key, n) == [e2] && Lookup([e2], key, n) == Some(v2)
  {
    var e1, e2 := Entry(key, v1), Entry(key, v2);
    StrnEqRefl(key, n);
    assert [e1][..0] == [];
    AssignChainCases([e1], key, v2, n);
    assert [e1, e2][..0] + [e1, e2][1..] == [e2];
  }

  /** Removing takes out exactly the first matching entry, keeping the others in order. */
  lemma RemoveChainShape(chain: seq<Entry>, key: seq<bv8>, n: nat)
    requires KeysFit(chain, n) && n <= |key|
    ensures KeysFit(RemoveChain(chain, key, n), n)
    ensures FirstMatch(chain, key, n).None? ==> RemoveChain(chain, key, n) == chain
    ensures FirstMatch(chain, key, n).Some? ==>
      var i := FirstMatch(chain, key, n).value;
      var r := RemoveChain(chain, key, n);
      |r| == |chain| - 1 &&
      (forall j :: 0 <= j < i ==> r[j] == chain[j] && !Matches(r[j], key, n)) &&
      (forall j :: i <= j < |r| ==> r[j] == chain[j + 1])
  {
    if FirstMatch(chain, key, n).Some? {
      var i := FirstMatch(chain, key, n).value;
      var r := chain[..i] + chain[i + 1..];
      assert RemoveChain(chain, key, n) == r;
      assert forall j :: 0 <= j < i ==> r[j] == chain[j];
      assert forall j :: i <= j < |r| ==> r[j] == chain[j + 1];
    }
  }

  /** The entries after a removal are the entries before it, less the one removed. */
  lemma RemoveChainMultiset(chain: seq<Entry>, key: seq<bv8>, n: nat)
    requires KeysFit(chain, n) && n <= |key|
    requires FirstMatch(chain, key, n).Some?
    ensures multiset(RemoveChain(chain, key, n)) + multiset{chain[FirstMatch(chain, key, n).value]} == multiset(chain)
  {
    var i := FirstMatch(chain, key, n).value;
    assert chain == chain[..i] + [chain[i]] + chain[i + 1..];
  }

  /**
   * Removing a key that is absent from the chain changes nothing, and an
   * assignment of an absent key is undone by removing it again.
   */
  lemma RemoveUndoesFreshAssign(chain: seq<Entry>, key: seq<bv8>, val: seq<bv8>, n: nat)
    requires KeysFit(chain, n) && n <= |key|
    requires FirstMatch(chain, key, n).None?
    ensures RemoveChain(chain, key, n) == chain
    ensures KeysFit(AssignChain(chain, key, val, n), n)
    ensures RemoveChain(AssignChain(chain, key, val, n), key, n) == chain
  {
    StrnEqRefl(key, n);
    if chain == [] {
      assert AssignChain(chain, key, val, n) == [Entry(key, val)];
    } else {
      FirstMatchPrefix(chain, key, n, |chain| - 1);
      FirstMatchSnoc(chain, Entry(key, val), key, n);
      assert (chain + [Entry(key, val)])[..|chain|] == chain;
    }
  }
}
