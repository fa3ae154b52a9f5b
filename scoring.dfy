/** The all-pairs scoring stage: one row of four signals per 2-combination
    of the input rows. */
module Scoring {
  import opened Text
  import opened Normalize
  import opened Combinations

  /** rapidfuzz.fuzz.ratio, whose body is not part of this model. */
  type Similarity = (string, string) -> real

  /** The library's documented range: a percentage in [0, 100]. */
  ghost predicate SimBounded(sim: Similarity) {
    forall a, b :: 0.0 <= sim(a, b) <= 100.0
  }

  predicate InUnit(x: real) {
    0.0 <= x <= 1.0
  }

  /** One row of the scored table: both raw names, both normalised emails, the signals. */
  datatype PairRow = PairRow(
    name1: string, email1: string, name2: string, email2: string,
    c1: real, c2: real, c3: real, c4: bool)

  /** The c4 test, one direction: x's initial and x's last name both occur in y's local part. */
  predicate InitialAndLastIn(x: Identity, y: Identity) {
    IsSubstring(x.initial, y.prefix) && IsSubstring(x.last, y.prefix)
  }

  /** The row the loop body appends for the pair (a, b). The name columns
      hold the raw names and the email columns the normalised emails; with a
      similarity in [0, 100] the three scores lie in [0, 1]. */
  function ScorePair(a: seq<string>, b: seq<string>, u: Unicode, sim: Similarity): (row: PairRow)
    requires |a| >= 2 && |b| >= 2
    ensures row.name1 == a[0] && row.name2 == b[0]
    ensures row.email1 == Process(a, u).email && row.email2 == Process(b, u).email
    ensures SimBounded(sim) ==> InUnit(row.c1) && InUnit(row.c2) && InUnit(row.c3)
  {
    var pa, pb := Process(a, u), Process(b, u);
    var c31 := sim(pa.first, pb.first) / 100.0;
    var c32 := sim(pa.last, pb.last) / 100.0;
    PairRow(a[0], pa.email, b[0], pb.email,
            sim(pa.name, pb.name) / 100.0,
            sim(pa.prefix, pb.prefix) / 100.0,
            (c31 + c32) / 2.0,
            InitialAndLastIn(pa, pb) || InitialAndLastIn(pb, pa))
  }

  /** c3 is the mean of the first-name and the last-name similarity (each
      scaled to [0, 1]), so it lies between them. */
  lemma C3IsMean(a: seq<string>, b: seq<string>, u: Unicode, sim: Similarity)
    requires |a| >= 2 && |b| >= 2
    ensures var pa, pb := Process(a, u), Process(b, u);
            var f, l := sim(pa.first, pb.first) / 100.0, sim(pa.last, pb.last) / 100.0;
            var c3 := ScorePair(a, b, u, sim).c3;
            c3 + c3 == f + l && (f <= c3 <= l || l <= c3 <= f)
  {
  }

  /** c4 does not depend on which record of the pair comes first. */
  lemma C4Symmetric(a: seq<string>, b: seq<string>, u: Unicode, sim: Similarity)
    requires |a| >= 2 && |b| >= 2
    ensures ScorePair(a, b, u, sim).c4 == ScorePair(b, a, u, sim).c4
  {
  }

  /** The empty string is in every string, so a record whose initial and last
      name are both empty satisfies its half of c4 whatever the other record
      is; a record whose normalised name has no token at all is one. */
  lemma C4VacuousHalf(a: seq<string>, b: seq<string>, u: Unicode, sim: Similarity)
    requires |a| >= 2 && |b| >= 2
    ensures Process(a, u).initial == "" && Process(a, u).last == "" ==> ScorePair(a, b, u, sim).c4
    ensures Process(b, u).initial == "" && Process(b, u).last == "" ==> ScorePair(a, b, u, sim).c4
    ensures Split(Process(a, u).name) == [] ==> ScorePair(a, b, u, sim).c4
  {
    var pa, pb := Process(a, u), Process(b, u);
    assert IsSubstring("", pa.prefix) && IsSubstring("", pb.prefix);
  }

  /** process is only reached for rows when at least one pair exists; every
      row then needs a name and an email field. */
  predicate Processable(devs: seq<seq<string>>) {
    |devs| >= 2 ==> forall k :: 0 <= k < |devs| ==> |devs[k]| >= 2
  }

  /** A way of scoring two raw rows; it may demand something of them. */
  type Scorer = (seq<string>, seq<string>) --> PairRow

  /** ScorePair with the collaborators fixed, as a function value. */
  function PairScorer(u: Unicode, sim: Similarity): (score: Scorer)
    ensures forall a, b :: |a| >= 2 && |b| >= 2 ==> score.requires(a, b)
  {
    (a: seq<string>, b: seq<string>) requires |a| >= 2 && |b| >= 2 => ScorePair(a, b, u, sim)
  }

  /** score can take every pair of distinct rows of devs, the earlier one first. */
  ghost predicate ScoresAllPairs(devs: seq<seq<string>>, score: Scorer) {
    forall i, j :: 0 <= i < j < |devs| ==> score.requires(devs[i], devs[j])
  }

  /** Every pair in ps indexes two rows of an n-row input, first below second. */
  predicate PairsIn(ps: seq<(nat, nat)>, n: nat) {
    forall k :: 0 <= k < |ps| ==> ps[k].0 < ps[k].1 < n
  }

  /** The rows scored for the index pairs ps, in the order of ps. */
  function ScoreRows(devs: seq<seq<string>>, ps: seq<(nat, nat)>, score: Scorer): (rows: seq<PairRow>)
    requires PairsIn(ps, |devs|) && ScoresAllPairs(devs, score)
    ensures |rows| == |ps|
    ensures forall k :: 0 <= k < |ps| ==> rows[k] == score(devs[ps[k].0], devs[ps[k].1])
  {
    if ps == [] then []
    else
      var p := ps[|ps| - 1];
      ScoreRows(devs, ps[..|ps| - 1], score) + [score(devs[p.0], devs[p.1])]
  }

  lemma ScorableTable(devs: seq<seq<string>>, u: Unicode, sim: Similarity)
    requires Processable(devs)
    ensures PairsIn(Pairs(|devs|), |devs|) && ScoresAllPairs(devs, PairScorer(u, sim))
  {
  }

  /** The table the scoring loop builds: one row per pair in combinations order. */
  function ScoreTable(devs: seq<seq<string>>, u: Unicode, sim: Similarity): seq<PairRow>
    requires Processable(devs)
  {
    ScorableTable(devs, u, sim);
    ScoreRows(devs, Pairs(|devs|), PairScorer(u, sim))
  }

  /** The shape of the scored table for n rows: n * (n - 1) / 2 rows, row k
      being the pair Pairs(n)[k] = (i, j) with i < j, carrying the raw names
      of rows i and j, their normalised emails, and in [0, 1] scores. */
  lemma ScoreTableShape(devs: seq<seq<string>>, u: Unicode, sim: Similarity)
    requires Processable(devs)
    ensures var n, t := |devs|, ScoreTable(devs, u, sim);
            |t| == n * (n - 1) / 2 &&
            forall k :: 0 <= k < |t| ==>
              var (i, j) := Pairs(n)[k];
              i < j < n &&
              t[k].name1 == devs[i][0] && t[k].email1 == Process(devs[i], u).email &&
              t[k].name2 == devs[j][0] && t[k].email2 == Process(devs[j], u).email &&
              (SimBounded(sim) ==> InUnit(t[k].c1) && InUnit(t[k].c2) && InUnit(t[k].c3))
  {
    PairsCount(|devs|);
  }

  /** The scoring loop, for any way of scoring a pair: for each 2-combination
      (devs[i], devs[j]), in combinations order, append its score to rows. */
  method ScoreCombinations(devs: seq<seq<string>>, score: Scorer) returns (rows: seq<PairRow>)
    requires ScoresAllPairs(devs, score)
    ensures rows == ScoreRows(devs, Pairs(|devs|), score)
  {
    var pairs := Pairs(|devs|);
    rows := [];
    for k := 0 to |pairs|
      invariant rows == ScoreRows(devs, pairs[..k], score)
    {
      var (i, j) := pairs[k];
      assert pairs[..k + 1] == pairs[..k] + [(i, j)];
      rows := rows + [score(devs[i], devs[j])];
    }
    assert pairs[..|pairs|] == pairs;
  }

  /** The scoring stage of the script: rows holds, in combinations order, the
      row for every pair of input records. */
  method ScoreAll(devs: seq<seq<string>>, u: Unicode, sim: Similarity) returns (rows: seq<PairRow>)
    requires Processable(devs)
    ensures rows == ScoreTable(devs, u, sim)
  {
    ScorableTable(devs, u, sim);
    rows := ScoreCombinations(devs, PairScorer(u, sim));
  }
}
