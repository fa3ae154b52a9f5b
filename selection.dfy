/** Threshold selection: the descending scan for a threshold whose match
    count falls in the target band, and the fallback that picks the threshold
    whose count is closest to the middle of the band. Thresholds are integer
    hundredths: t stands for the float t / 100. */
module Selection {
  import opened Scoring

  /** The highest and lowest thresholds the descending scan visits (0.99 and 0.30). */
  const ScanTop := 99
  const ScanBottom := 30
  /** The last threshold of the fallback's ascending grid, which runs from
      0.30 in steps of 0.01 up to but excluding 0.99. */
  const GridTop := 98

  /** The score a threshold of t hundredths stands for. */
  function Level(t: int): real {
    t as real / 100.0
  }

  /** How many of the four signals vote for a match at t: each score that
      reaches the threshold, and c4 when it holds. */
  function Votes(row: PairRow, t: int): (v: nat)
    ensures v <= 4
  {
    (if row.c1 >= Level(t) then 1 else 0) +
    (if row.c2 >= Level(t) then 1 else 0) +
    (if row.c3 >= Level(t) then 1 else 0) +
    (if row.c4 then 1 else 0)
  }

  /** A row is matched at t when at least two of its four votes hold. */
  predicate Matched(row: PairRow, t: int) {
    Votes(row, t) >= 2
  }

  /** The rows of the table matched at t, in table order, as the boolean
      mask selects them. */
  function Filter(rows: seq<PairRow>, t: int): (sel: seq<PairRow>)
    ensures |sel| <= |rows|
    ensures forall k :: 0 <= k < |sel| ==> Matched(sel[k], t)
  {
    if rows == [] then []
    else (if Matched(rows[0], t) then [rows[0]] else []) + Filter(rows[1..], t)
  }

  /** Filtering drops exactly the unmatched rows: each matched row of the
      table is kept as often as it occurs, and every other row is dropped. */
  lemma {:induction false} FilterMultiset(rows: seq<PairRow>, t: int)
    ensures forall x :: multiset(Filter(rows, t))[x] == if Matched(x, t) then multiset(rows)[x] else 0
  {
    if rows != [] {
      FilterMultiset(rows[1..], t);
      assert rows == [rows[0]] + rows[1..];
    }
  }

  /** The number of rows matched at t. */
  function MatchCount(rows: seq<PairRow>, t: int): nat {
    |Filter(rows, t)|
  }

  /** Filtering keeps table order: filtering a concatenation filters each part. */
  lemma {:induction false} FilterAppend(a: seq<PairRow>, b: seq<PairRow>, t: int)
    ensures Filter(a + b, t) == Filter(a, t) + Filter(b, t)
  {
    if a != [] {
      assert (a + b)[1..] == a[1..] + b;
      FilterAppend(a[1..], b, t);
    } else {
      assert a + b == b;
    }
  }

  /** Each vote that holds at t also holds at any lower t', so lowering the
      threshold never loses a vote. */
  lemma VotesMonotone(row: PairRow, t: int, t': int)
    requires t' <= t
    ensures Votes(row, t) <= Votes(row, t')
  {
    assert Level(t') <= Level(t);
  }

  /** A row matched at t is matched at every lower t'. */
  lemma MatchedMonotone(row: PairRow, t: int, t': int)
    requires t' <= t
    ensures Matched(row, t) ==> Matched(row, t')
  {
    VotesMonotone(row, t, t');
  }

  /** The rows matched at t are exactly the rows matched at a lower t' that
      are also matched at t, in the same order: lowering the threshold only
      adds rows. */
  lemma {:induction false} FilterNested(rows: seq<PairRow>, t: int, t': int)
    requires t' <= t
    ensures Filter(Filter(rows, t'), t) == Filter(rows, t)
  {
    if rows != [] {
      FilterNested(rows[1..], t, t');
      MatchedMonotone(rows[0], t, t');
      if Matched(rows[0], t') {
        var head := [rows[0]];
        assert Filter(rows, t') == head + Filter(rows[1..], t');
        FilterAppend(head, Filter(rows[1..], t'), t);
        assert head[1..] == [];
        assert Filter(head, t) == (if Matched(rows[0], t) then head else []) + Filter([], t);
      } else {
        assert Filter(rows, t') == [] + Filter(rows[1..], t') == Filter(rows[1..], t');
        assert Filter(rows, t) == [] + Filter(rows[1..], t) == Filter(rows[1..], t);
      }
    }
  }

  /** The match count never decreases as the threshold decreases. */
  lemma CountMonotone(rows: seq<PairRow>, t: int, t': int)
    requires t' <= t
    ensures MatchCount(rows, t) <= MatchCount(rows, t')
  {
    FilterNested(rows, t, t');
  }

  predicate InBand(count: nat, lo: int, hi: int) {
    lo <= count <= hi
  }

  /** t is where the descending scan stops: a visited threshold whose count
      is in the band while no higher visited threshold had one. */
  predicate IsScanStop(rows: seq<PairRow>, lo: int, hi: int, t: int) {
    ScanBottom <= t <= ScanTop && InBand(MatchCount(rows, t), lo, hi) &&
    forall u :: t < u <= ScanTop ==> !InBand(MatchCount(rows, u), lo, hi)
  }

  /** How far a count lies from the middle of the band; the fallback
      minimises it. */
  function Gap(count: nat, lo: int, hi: int): real {
    var d := count as real - (lo + hi) as real / 2.0;
    if d < 0.0 then -d else d
  }

  /** t is what the fallback picks: a grid threshold whose count is closest
      to the middle of the band, the smallest such one on a tie. */
  predicate IsFallbackChoice(rows: seq<PairRow>, lo: int, hi: int, t: int) {
    ScanBottom <= t <= GridTop &&
    (forall u :: ScanBottom <= u <= GridTop ==>
      Gap(MatchCount(rows, t), lo, hi) <= Gap(MatchCount(rows, u), lo, hi)) &&
    (forall u :: ScanBottom <= u < t ==>
      Gap(MatchCount(rows, t), lo, hi) < Gap(MatchCount(rows, u), lo, hi))
  }

  /** The threshold the script ends with: the scan's stop when it selected at
      least one row, and otherwise the fallback's choice. */
  predicate IsSelection(rows: seq<PairRow>, lo: int, hi: int, t: int) {
    (IsScanStop(rows, lo, hi, t) && MatchCount(rows, t) > 0) ||
    ((forall u :: ScanBottom <= u <= ScanTop && IsScanStop(rows, lo, hi, u) ==> MatchCount(rows, u) == 0) &&
     IsFallbackChoice(rows, lo, hi, t))
  }

  /** The scan stops at one threshold at most. */
  lemma ScanStopUnique(rows: seq<PairRow>, lo: int, hi: int, t1: int, t2: int)
    requires IsScanStop(rows, lo, hi, t1) && IsScanStop(rows, lo, hi, t2)
    ensures t1 == t2
  {
  }

  /** Since counts only grow as the threshold falls, every threshold above
      the stop had a count below the band, never above it. */
  lemma ScanStopFromBelow(rows: seq<PairRow>, lo: int, hi: int, t: int)
    requires IsScanStop(rows, lo, hi, t)
    ensures forall u :: t < u <= ScanTop ==> MatchCount(rows, u) < lo
  {
    forall u | t < u <= ScanTop
      ensures MatchCount(rows, u) < lo
    {
      CountMonotone(rows, u, t);
    }
  }

  /** A stop with no matched rows can only be the very first threshold 0.99
      (the band then contains 0); the fallback runs after it. */
  lemma EmptyStopIsFirst(rows: seq<PairRow>, lo: int, hi: int, t: int)
    requires IsScanStop(rows, lo, hi, t) && MatchCount(rows, t) == 0
    ensures t == ScanTop
  {
    if t < ScanTop {
      CountMonotone(rows, ScanTop, t);
      assert InBand(MatchCount(rows, ScanTop), lo, hi);
    }
  }

  lemma {:induction false} NoStopFrom(rows: seq<PairRow>, lo: int, hi: int, v: int)
    requires ScanBottom <= v <= ScanTop + 1
    requires forall u :: ScanBottom <= u <= ScanTop ==> !IsScanStop(rows, lo, hi, u)
    ensures forall u :: v <= u <= ScanTop ==> !InBand(MatchCount(rows, u), lo, hi)
    decreases ScanTop + 1 - v
  {
    if v <= ScanTop {
      NoStopFrom(rows, lo, hi, v + 1);
      assert !IsScanStop(rows, lo, hi, v);
    }
  }

  /** The scan has no stop exactly when no visited threshold has an in-band
      count, that is, when the loop runs down past 0.30. */
  lemma NoStopIffNoneInBand(rows: seq<PairRow>, lo: int, hi: int)
    ensures (forall u :: ScanBottom <= u <= ScanTop ==> !IsScanStop(rows, lo, hi, u)) <==>
            (forall u :: ScanBottom <= u <= ScanTop ==> !InBand(MatchCount(rows, u), lo, hi))
  {
    if forall u :: ScanBottom <= u <= ScanTop ==> !IsScanStop(rows, lo, hi, u) {
      NoStopFrom(rows, lo, hi, ScanBottom);
    }
  }

  /** If the scan stops at the lowest threshold 0.30, the fallback over the
      grid would choose 0.30 as well: every higher threshold has a count below
      the band, so farther from its middle than the in-band count at 0.30. */
  lemma BottomStopIsFallbackChoice(rows: seq<PairRow>, lo: int, hi: int)
    requires lo <= hi && IsScanStop(rows, lo, hi, ScanBottom)
    ensures IsFallbackChoice(rows, lo, hi, ScanBottom)
  {
    ScanStopFromBelow(rows, lo, hi, ScanBottom);
  }

  /** The fallback's tie-break makes its choice unique. */
  lemma FallbackChoiceUnique(rows: seq<PairRow>, lo: int, hi: int, t1: int, t2: int)
    requires IsFallbackChoice(rows, lo, hi, t1) && IsFallbackChoice(rows, lo, hi, t2)
    ensures t1 == t2
  {
    var g1, g2 := Gap(MatchCount(rows, t1), lo, hi), Gap(MatchCount(rows, t2), lo, hi);
    assert g1 <= g2 && g2 <= g1;
  }

  /** The data and the band determine the final threshold. */
  lemma SelectionUnique(rows: seq<PairRow>, lo: int, hi: int, t1: int, t2: int)
    requires IsSelection(rows, lo, hi, t1) && IsSelection(rows, lo, hi, t2)
    ensures t1 == t2
  {
    if IsScanStop(rows, lo, hi, t1) && MatchCount(rows, t1) > 0 {
      if IsScanStop(rows, lo, hi, t2) && MatchCount(rows, t2) > 0 {
        ScanStopUnique(rows, lo, hi, t1, t2);
      }
    } else if IsScanStop(rows, lo, hi, t2) && MatchCount(rows, t2) > 0 {
    } else {
      FallbackChoiceUnique(rows, lo, hi, t1, t2);
    }
  }

  /** With an empty table every count is 0, so the scan never selects a row
      and the fallback settles on the lowest grid threshold 0.30. */
  lemma EmptyTableSelectsBottom(lo: int, hi: int, t: int)
    requires IsSelection([], lo, hi, t)
    ensures t == ScanBottom
  {
    assert MatchCount([], t) == 0 && MatchCount([], ScanBottom) == 0;
  }

  /** The descending scan: from 0.99, one hundredth at a time, stop at the
      first threshold whose count is in the band and select its rows. It ends
      at 29, below 0.30, when no visited threshold had an in-band count. */
  method Scan(rows: seq<PairRow>, lo: int, hi: int) returns (threshold: int, selected: seq<PairRow>)
    ensures ScanBottom - 1 <= threshold <= ScanTop
    ensures threshold >= ScanBottom ==>
      IsScanStop(rows, lo, hi, threshold) && selected == Filter(rows, threshold)
    ensures threshold < ScanBottom ==>
      selected == [] && forall u :: ScanBottom <= u <= ScanTop ==> !InBand(MatchCount(rows, u), lo, hi)
  {
    threshold := ScanTop;
    selected := [];
    while threshold >= ScanBottom
      invariant ScanBottom - 1 <= threshold <= ScanTop
      invariant selected == []
      invariant forall u :: threshold < u <= ScanTop ==> !InBand(MatchCount(rows, u), lo, hi)
    {
      var filtered := Filter(rows, threshold);
      var count := |filtered|;
      if lo <= count <= hi {
        selected := filtered;
        break;
      }
      threshold := threshold - 1;
    }
  }

  /** The fallback: collect (t, count) for every grid threshold in ascending
      order, keep the first pair whose count is closest to the middle of the
      band, and return the rows matched there. */
  method Fallback(rows: seq<PairRow>, lo: int, hi: int) returns (best: int, selected: seq<PairRow>)
    ensures IsFallbackChoice(rows, lo, hi, best)
    ensures selected == Filter(rows, best)
  {
    var counts: seq<(int, nat)> := [];
    for t := ScanBottom to GridTop + 1
      invariant |counts| == t - ScanBottom
      invariant forall k :: 0 <= k < |counts| ==> counts[k] == (ScanBottom + k, MatchCount(rows, ScanBottom + k))
    {
      counts := counts + [(t, |Filter(rows, t)|)];
    }
    var m := 0;
    for k := 1 to |counts|
      invariant 0 <= m < k
      invariant forall q :: 0 <= q < k ==> Gap(counts[m].1, lo, hi) <= Gap(counts[q].1, lo, hi)
      invariant forall q :: 0 <= q < m ==> Gap(counts[m].1, lo, hi) < Gap(counts[q].1, lo, hi)
    {
      if Gap(counts[k].1, lo, hi) < Gap(counts[m].1, lo, hi) {
        m := k;
      }
    }
    best := counts[m].0;
    forall u | ScanBottom <= u <= GridTop
      ensures Gap(MatchCount(rows, best), lo, hi) <= Gap(MatchCount(rows, u), lo, hi)
    {
      assert counts[u - ScanBottom].1 == MatchCount(rows, u);
    }
    forall u | ScanBottom <= u < best
      ensures Gap(MatchCount(rows, best), lo, hi) < Gap(MatchCount(rows, u), lo, hi)
    {
      assert counts[u - ScanBottom].1 == MatchCount(rows, u);
    }
    selected := Filter(rows, best);
  }

  /** The whole selection stage: scan, and fall back when the scan selected
      nothing. The result is the rows matched at the final threshold. */
  method SelectPairs(rows: seq<PairRow>, lo: int, hi: int) returns (threshold: int, selected: seq<PairRow>)
    ensures ScanBottom <= threshold <= ScanTop
    ensures IsSelection(rows, lo, hi, threshold)
    ensures selected == Filter(rows, threshold)
  {
    threshold, selected := Scan(rows, lo, hi);
    if |selected| == 0 {
      forall u | IsScanStop(rows, lo, hi, u)
        ensures MatchCount(rows, u) == 0
      {
        ScanStopUnique(rows, lo, hi, u, threshold);
      }
      threshold, selected := Fallback(rows, lo, hi);
    }
  }
}
