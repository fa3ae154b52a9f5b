/** The order in which itertools.combinations(range(n), 2) yields index
    pairs: (i, j) with i < j, lexicographically, the second index varying fastest. */
module Combinations {

  /** The pairs (i, i + 1), ..., (i, j - 1). */
  function RowPairs(i: nat, j: nat): (r: seq<(nat, nat)>)
    requires i < j
    ensures |r| == j - i - 1
    ensures forall k :: 0 <= k < |r| ==> r[k] == (i, i + 1 + k)
  {
    seq(j - i - 1, k requires 0 <= k < j - i - 1 => (i, i + 1 + k))
  }

  /** Every pair that combinations yields before the first pair whose first index is i. */
  function PairsBefore(i: nat, n: nat): (r: seq<(nat, nat)>)
    requires i <= n
    ensures forall k :: 0 <= k < |r| ==> r[k].0 < i && r[k].0 < r[k].1 < n
  {
    if i == 0 then [] else PairsBefore(i - 1, n) + RowPairs(i - 1, n)
  }

  /** Every pair of indices below n that combinations yields, in its order. */
  function Pairs(n: nat): seq<(nat, nat)> {
    PairsBefore(n, n)
  }

  /** Strict lexicographic order on index pairs. */
  predicate LexLess(p: (nat, nat), q: (nat, nat)) {
    p.0 < q.0 || (p.0 == q.0 && p.1 < q.1)
  }

  lemma {:induction false} PairsBeforeCount(i: nat, n: nat)
    requires i <= n
    ensures 2 * |PairsBefore(i, n)| == i * (2 * n - i - 1)
  {
    if i > 0 {
      PairsBeforeCount(i - 1, n);
      assert |PairsBefore(i, n)| == |PairsBefore(i - 1, n)| + (n - i);
      assert (i - 1) * (2 * n - i) + 2 * (n - i) == i * (2 * n - i - 1);
    }
  }

  /** n records give exactly n * (n - 1) / 2 pairs. */
  lemma PairsCount(n: nat)
    ensures |Pairs(n)| == n * (n - 1) / 2
  {
    PairsBeforeCount(n, n);
  }

  lemma {:induction false} PairsBeforeSorted(i: nat, n: nat)
    requires i <= n
    ensures forall k1, k2 :: 0 <= k1 < k2 < |PairsBefore(i, n)| ==>
      LexLess(PairsBefore(i, n)[k1], PairsBefore(i, n)[k2])
  {
    if i > 0 {
      PairsBeforeSorted(i - 1, n);
    }
  }

  /** Pairs come in strictly increasing lexicographic order, so no pair is
      repeated, and every pair has its first index below its second, so there
      are no self-pairs and no pair appears in both orientations. */
  lemma PairsOrdered(n: nat)
    ensures forall k1, k2 :: 0 <= k1 < k2 < |Pairs(n)| ==> LexLess(Pairs(n)[k1], Pairs(n)[k2])
    ensures forall k1, k2 :: 0 <= k1 < |Pairs(n)| && 0 <= k2 < |Pairs(n)| && k1 != k2 ==>
      Pairs(n)[k1] != Pairs(n)[k2]
    ensures forall k :: 0 <= k < |Pairs(n)| ==> Pairs(n)[k].0 < Pairs(n)[k].1 < n
  {
    PairsBeforeSorted(n, n);
    var ps := Pairs(n);
    forall k1, k2 | 0 <= k1 < |ps| && 0 <= k2 < |ps| && k1 != k2
      ensures ps[k1] != ps[k2]
    {
      if k1 < k2 { assert LexLess(ps[k1], ps[k2]); } else { assert LexLess(ps[k2], ps[k1]); }
    }
  }

  lemma {:induction false} PairsBeforeComplete(i: nat, n: nat)
    requires i <= n
    ensures forall a: nat, b: nat :: a < i && a < b < n ==> (a, b) in PairsBefore(i, n)
  {
    if i > 0 {
      PairsBeforeComplete(i - 1, n);
      var row := RowPairs(i - 1, n);
      forall a: nat, b: nat | a < i && a < b < n
        ensures (a, b) in PairsBefore(i, n)
      {
        if a == i - 1 {
          assert row[b - a - 1] == (a, b);
        }
      }
    }
  }

  /** A pair of indices occurs in combinations order exactly when it is
      (i, j) with i < j < n. */
  lemma PairsComplete(n: nat)
    ensures forall a: nat, b: nat :: (a, b) in Pairs(n) <==> a < b < n
  {
    PairsBeforeComplete(n, n);
  }
}
