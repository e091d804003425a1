/**
 * The 64-bit FNV-1a hash that the map uses to place keys into buckets
 * (hashmap.c, FNV1a_hash). The constants are those of the FNV-1a definition
 * in the IETF draft "The FNV Non-Cryptographic Hash Algorithm"
 * (draft-eastlake-fnv): offset basis 0xcbf29ce484222325 and prime
 * 0x100000001b3, with all arithmetic modulo 2^64, which `bv64` gives for free.
 */
module Fnv {

  const OffsetBasis: bv64 := 0xcbf29ce484222325
  const Prime: bv64 := 0x100000001b3

  /** One round of FNV-1a: xor in the octet, then multiply (wrapping) by the prime. */
  function Step(h: bv64, b: bv8): bv64
  {
    (h ^ (b as bv64)) * Prime
  }

  /**
   * The hash of a byte string, defined on its last byte so that it follows
   * the order in which the loop of Hash consumes the input.
   */
  function HashOf(s: seq<bv8>): bv64
  {
    if s == [] then OffsetBasis else Step(HashOf(s[..|s| - 1]), s[|s| - 1])
  }

  /**
   * The draft's own formulation, as an independent reference: start from a
   * given state and fold the octets in from the front.
   */
  function Fold(h: bv64, s: seq<bv8>): bv64
    decreases |s|
  {
    if s == [] then h else Fold(Step(h, s[0]), s[1..])
  }

  /** Appending one byte to the input applies exactly one more round. */
  lemma HashOfSnoc(s: seq<bv8>, b: bv8)
    ensures HashOf(s + [b]) == Step(HashOf(s), b)
  {
    assert (s + [b])[..|s|] == s;
  }

  lemma {:induction false} FoldSnoc(h: bv64, s: seq<bv8>, b: bv8)
    ensures Fold(h, s + [b]) == Step(Fold(h, s), b)
    decreases |s|
  {
    if s != [] {
      assert (s + [b])[1..] == s[1..] + [b];
      FoldSnoc(Step(h, s[0]), s[1..], b);
    }
  }

  /** Hashing a concatenation continues from the hash state of the first part. */
  lemma {:induction false} FoldAppend(h: bv64, s: seq<bv8>, t: seq<bv8>)
    ensures Fold(h, s + t) == Fold(Fold(h, s), t)
    decreases |s|
  {
    if s == [] {
      assert s + t == t;
    } else {
      assert (s + t)[1..] == s[1..] + t;
      FoldAppend(Step(h, s[0]), s[1..], t);
    }
  }

  /** The back-to-front definition agrees with the draft's front-to-back fold. */
  lemma {:induction false} HashOfIsFold(s: seq<bv8>)
    ensures HashOf(s) == Fold(OffsetBasis, s)
  {
    if s != [] {
      var init := s[..|s| - 1];
      HashOfIsFold(init);
      assert s == init + [s[|s| - 1]];
      FoldSnoc(OffsetBasis, init, s[|s| - 1]);
    }
  }

  /** Test vectors of 64-bit FNV-1a from the draft: "", "a" and "foobar". */
  lemma KnownVectors()
    ensures HashOf([]) == 0xcbf29ce484222325
    ensures HashOf([0x61]) == 0xaf63dc4c8601ec8c
    ensures HashOf([0x66, 0x6f, 0x6f, 0x62, 0x61, 0x72]) == 0x85944171f73967e8
  {
    assert [0x61 as bv8][..0] == [];
    var foobar: seq<bv8> := [0x66, 0x6f, 0x6f, 0x62, 0x61, 0x72];
    assert HashOf(foobar[..1]) == 0xaf63db4c8601ead9;
    assert HashOf(foobar[..2]) == 0x08985907b541d342;
    assert foobar[..3][..2] == foobar[..2];
    assert HashOf(foobar[..3]) == 0xdcb27518fed9d577;
    assert foobar[..4][..3] == foobar[..3];
    assert HashOf(foobar[..4]) == 0xdd120e790c2512af;
    assert foobar[..5][..4] == foobar[..4];
    assert HashOf(foobar[..5]) == 0xcac165afa2fef40a;
    assert foobar[..5] == foobar[..|foobar| - 1];
  }

  /**
   * FNV1a_hash: hashes the first `inputLength` bytes of `input`. A negative
   * length (the C parameter is an `int`) runs the loop zero times.
   */
  method Hash(input: seq<bv8>, inputLength: int) returns (hash: bv64)
    requires inputLength <= |input|
    ensures hash == HashOf(input[..if inputLength < 0 then 0 else inputLength])
    ensures inputLength <= 0 ==> hash == OffsetBasis
  {
    ghost var n := if inputLength < 0 then 0 else inputLength;
    hash := OffsetBasis;
    var i := 0;
    while i < inputLength
      invariant 0 <= i <= n
      invariant hash == HashOf(input[..i])
    {
      HashOfSnoc(input[..i], input[i]);
      assert input[..i + 1] == input[..i] + [input[i]];
      hash := Step(hash, input[i]);
      i := i + 1;
    }
    assert i == n;
  }
}
