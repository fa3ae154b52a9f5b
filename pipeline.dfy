/** The script end to end: score every pair of input records, then choose the
    threshold and the pairs it selects. */
module Pipeline {
  import opened Normalize
  import opened Scoring
  import opened Selection

  /** The target band for the number of selected pairs. */
  const MinPairs := 500
  const MaxPairs := 1000

  /** Scoring, the descending scan and, when the scan selected nothing, the
      fallback. rows is the scored table, threshold the final threshold in
      hundredths and selected the rows matched at it, in table order. */
  method Run(devs: seq<seq<string>>, u: Unicode, sim: Similarity)
    returns (rows: seq<PairRow>, threshold: int, selected: seq<PairRow>)
    requires Processable(devs)
    ensures rows == ScoreTable(devs, u, sim)
    ensures ScanBottom <= threshold <= ScanTop
    ensures IsSelection(rows, MinPairs, MaxPairs, threshold)
    ensures selected == Filter(rows, threshold)
  {
    rows := ScoreAll(devs, u, sim);
    threshold, selected := SelectPairs(rows, MinPairs, MaxPairs);
  }

  /** With the band [500, 1000] a scan stop always selects rows, so the
      selected count lands in the band exactly when the scan found the
      threshold; when the fallback runs, no threshold from 0.99 down to 0.30
      gives an in-band count, its own choice included. */
  lemma InBandIffScanned(rows: seq<PairRow>, t: int)
    requires IsSelection(rows, MinPairs, MaxPairs, t)
    ensures InBand(MatchCount(rows, t), MinPairs, MaxPairs) <==> IsScanStop(rows, MinPairs, MaxPairs, t)
    ensures !IsScanStop(rows, MinPairs, MaxPairs, t) ==>
      IsFallbackChoice(rows, MinPairs, MaxPairs, t) &&
      forall v :: ScanBottom <= v <= ScanTop ==> !InBand(MatchCount(rows, v), MinPairs, MaxPairs)
  {
    if !IsScanStop(rows, MinPairs, MaxPairs, t) {
      NoStopIffNoneInBand(rows, MinPairs, MaxPairs);
    }
  }
}
