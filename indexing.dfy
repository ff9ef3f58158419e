/** Increasing index sequences: the positions of a sequence or table that survive a filter. */
module Indexing {

  /** Every index in `s` is smaller than the one after it. */
  predicate StrictlyIncreasing(s: seq<nat>) {
    forall a, b :: 0 <= a < b < |s| ==> s[a] < s[b]
  }

  /** The sequence 0, 1, ..., n - 1. */
  function Range(n: nat): (r: seq<nat>)
    ensures |r| == n && forall k :: 0 <= k < n ==> r[k] == k
  {
    seq(n, k => k)
  }

  /** The indices below `n` that satisfy `p`, in increasing order: every one of them, and nothing else. */
  function Indices(n: nat, p: nat -> bool): (r: seq<nat>)
    ensures StrictlyIncreasing(r)
    ensures forall k :: 0 <= k < |r| ==> r[k] < n && p(r[k])
    ensures forall j :: 0 <= j < n && p(j) ==> j in r
    decreases n
  {
    if n == 0 then []
    else
      var r := Indices(n - 1, p);
      if p(n - 1) then r + [n - 1] else r
  }

  /** Keeping every index keeps them all, in order. */
  lemma {:induction false} IndicesAll(n: nat, p: nat -> bool)
    requires forall j :: 0 <= j < n ==> p(j)
    ensures Indices(n, p) == Range(n)
  {
    if n > 0 {
      IndicesAll(n - 1, p);
      assert Range(n) == Range(n - 1) + [n - 1];
    }
  }

  /** Two filters that agree below `n` select the same indices. */
  lemma {:induction false} IndicesAgree(n: nat, p: nat -> bool, q: nat -> bool)
    requires forall j :: 0 <= j < n ==> p(j) == q(j)
    ensures Indices(n, p) == Indices(n, q)
  {
    if n > 0 {
      IndicesAgree(n - 1, p, q);
    }
  }

  /** An index below `n` is selected exactly when it satisfies `p`. */
  lemma IndicesMembership(n: nat, p: nat -> bool, j: nat)
    requires j < n
    ensures j in Indices(n, p) <==> p(j)
  {
  }

  /** Nothing is selected exactly when no index below `n` satisfies `p`. */
  lemma IndicesEmpty(n: nat, p: nat -> bool)
    ensures Indices(n, p) == [] <==> forall j :: 0 <= j < n ==> !p(j)
  {
    if Indices(n, p) == [] {
      forall j | 0 <= j < n ensures !p(j) {
        IndicesMembership(n, p, j);
      }
    }
  }
}
