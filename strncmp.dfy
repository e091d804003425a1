/**
 * Key comparison in hashmap.c is `strncmp(a, b, key_size) == 0`, not a
 * byte-exact comparison of the two key buffers: it looks at no more than
 * `key_size` bytes and stops at the first NUL byte the two keys share, so
 * bytes after such a NUL never matter.
 */
module Strn {

  /** `strncmp(a, b, n) == 0`, on byte strings that hold at least `n` bytes. */
  predicate StrnEq(a: seq<bv8>, b: seq<bv8>, n: nat)
    requires n <= |a| && n <= |b|
    decreases n
  {
    n == 0 || (a[0] == b[0] && (a[0] == 0 || StrnEq(a[1..], b[1..], n - 1)))
  }

  /** No NUL byte occurs in `a` before position `i`. */
  ghost predicate NoNulBefore(a: seq<bv8>, i: nat)
    requires i <= |a|
  {
    forall j :: 0 <= j < i ==> a[j] != 0
  }

  /**
   * StrnEq holds exactly when the two strings agree at every position below
   * `n` that is not preceded by a NUL: they agree up to and including their
   * first NUL, and are unconstrained after it.
   */
  lemma {:induction false} StrnEqIff(a: seq<bv8>, b: seq<bv8>, n: nat)
    requires n <= |a| && n <= |b|
    ensures StrnEq(a, b, n) <==>
            forall i :: 0 <= i < n && NoNulBefore(a, i) ==> a[i] == b[i]
    decreases n
  {
    if n > 0 {
      StrnEqIff(a[1..], b[1..], n - 1);
      if StrnEq(a, b, n) {
        forall i | 0 <= i < n && NoNulBefore(a, i) ensures a[i] == b[i] {
          if i > 0 {
            assert a[0] != 0;
            assert NoNulBefore(a[1..], i - 1) by {
              forall j | 0 <= j < i - 1 ensures a[1..][j] != 0 {
                assert a[1..][j] == a[j + 1];
              }
            }
            assert a[1..][i - 1] == b[1..][i - 1];
          }
        }
      } else {
        assert NoNulBefore(a, 0);
        if a[0] == b[0] {
          assert a[0] != 0;
          var i' :| 0 <= i' < n - 1 && NoNulBefore(a[1..], i') && a[1..][i'] != b[1..][i'];
          assert NoNulBefore(a, i' + 1) by {
            forall j | 0 <= j < i' + 1 ensures a[j] != 0 {
              if j > 0 { assert a[j] == a[1..][j - 1]; }
            }
          }
          assert a[i' + 1] != b[i' + 1];
        }
      }
    }
  }

  /** Every key compares equal to itself. */
  lemma {:induction false} StrnEqRefl(a: seq<bv8>, n: nat)
    requires n <= |a|
    ensures StrnEq(a, a, n)
    decreases n
  {
    if n > 0 && a[0] != 0 {
      StrnEqRefl(a[1..], n - 1);
    }
  }

  /** The comparison does not depend on the order of its arguments. */
  lemma {:induction false} StrnEqSym(a: seq<bv8>, b: seq<bv8>, n: nat)
    requires n <= |a| && n <= |b|
    ensures StrnEq(a, b, n) == StrnEq(b, a, n)
    decreases n
  {
    if n > 0 && a[0] == b[0] && a[0] != 0 {
      StrnEqSym(a[1..], b[1..], n - 1);
    }
  }

  /** Together with StrnEqRefl and StrnEqSym: keys that compare equal form classes. */
  lemma {:induction false} StrnEqTrans(a: seq<bv8>, b: seq<bv8>, c: seq<bv8>, n: nat)
    requires n <= |a| && n <= |b| && n <= |c|
    requires StrnEq(a, b, n) && StrnEq(b, c, n)
    ensures StrnEq(a, c, n)
    decreases n
  {
    if n > 0 && a[0] != 0 {
      StrnEqTrans(a[1..], b[1..], c[1..], n - 1);
    }
  }

  /** Byte-exact agreement on the first `n` bytes implies StrnEq. */
  lemma ExactImpliesStrnEq(a: seq<bv8>, b: seq<bv8>, n: nat)
    requires n <= |a| && n <= |b|
    requires a[..n] == b[..n]
    ensures StrnEq(a, b, n)
  {
    StrnEqIff(a, b, n);
    forall i | 0 <= i < n ensures a[i] == b[i] {
      assert a[..n][i] == a[i] && b[..n][i] == b[i];
    }
  }

  /**
   * The converse fails: two keys that agree up to a NUL at position `k`
   * compare equal, whatever bytes follow it. The hash still covers every
   * byte, so the map treats them as one key only when they share a chain.
   */
  lemma StrnEqStopsAtNul(a: seq<bv8>, b: seq<bv8>, n: nat, k: nat)
    requires n <= |a| && n <= |b|
    requires k < n && a[k] == 0 && a[..k + 1] == b[..k + 1]
    ensures StrnEq(a, b, n)
  {
    StrnEqIff(a, b, n);
    forall i | 0 <= i <= k ensures a[i] == b[i] {
      assert a[..k + 1][i] == a[i] && b[..k + 1][i] == b[i];
    }
  }
}
