# Developer de-duplication pairs, modelled in Dafny

`project1devs/project1developers.py` reads a table of developer records
(display name, email), scores every pair of records with four "Bird"
identity signals, and chooses a similarity threshold so that the number of
pairs matched at it falls in the band [MIN_PAIRS, MAX_PAIRS] = [500, 1000].
This project models that pipeline and proves what each stage promises.

- `Text` (text.dfy): the Python string operations the script relies on.
  These are `str.isspace` (exact code points), `str.split()`, `" ".join`,
  `str.strip()`, deletion of `string.punctuation`, and the substring test `in`.
- `Normalize` (normalize.dfy): `normalize_text` and `process`. A record
  becomes its normalised name, first and last token, first initial,
  normalised email and email local part.
- `Combinations` (combinations.dfy): the index pairs produced by
  `itertools.combinations(range(n), 2)`, in order.
- `Scoring` (scoring.dfy): the scoring loop, a single loop over the
  combinations. For each pair it appends the row `[a[0], email_a, b[0],
  email_b, c1, c2, c3, c4]`. The name columns hold the raw names; the email
  columns hold the stripped, lowercased emails.
- `Selection` (selection.dfy): the selection stage.
  - A row is matched at threshold t when at least two of `c1 >= t`,
    `c2 >= t`, `c3 >= t`, `c4` hold.
  - The scan descends from 0.99 to 0.30 and stops at the first threshold
    whose match count is in the band.
  - When the scan leaves the selection empty, a fallback picks, over the
    grid 0.30 .. 0.98, the threshold whose count is closest to the middle
    of the band, taking the first such threshold on a tie.
- `Pipeline` (pipeline.dfy): scoring followed by selection, with the
  band fixed at [500, 1000].

Thresholds are integer hundredths (`t` stands for `t / 100`), and scores
are `real`. The similarity `rapidfuzz.fuzz.ratio` is a function parameter
`sim`. Wherever a score bound needs it, `sim` is assumed to return values in
[0, 100]. The Unicode-table steps are a parameter `Unicode(fold, lower)`:
`fold` covers NFKD, dropping combining marks and `casefold`, and `lower` is
`str.lower`.

A record whose normalised name has no token at all gets an empty initial
and an empty last name. Since `"" in s` holds for every `s`, its half of
c4 holds against every other record. `Scoring.C4VacuousHalf` states this
behaviour of the script as written.

## Model

| member | source | states |
|---|---|---|
| Text.StripPunctuation | project1devs/project1developers.py:32 | the result has no character of `string.punctuation` and is no longer than the input |
| Text.StripPunctuationKeeps | project1devs/project1developers.py:32 | every character that is not punctuation keeps its multiplicity in the input |
| Text.StripPunctuationAppend | project1devs/project1developers.py:32 | deletion distributes over concatenation, so the kept characters stay in input order |
| Text.CollapseIsSqueeze | project1devs/project1developers.py:36 | `" ".join(s.split())` equals an independent one-pass definition: whitespace at the ends is dropped and every inner whitespace run becomes one ' ' |
| Text.SplitSpec | project1devs/project1developers.py:36 | the tokens of `s.split()` are non-empty and whitespace-free, and they are the only such list that joins with single spaces to the squeeze of s |
| Text.JoinWellSpaced | project1devs/project1developers.py:36 | joining whitespace-free tokens with single spaces gives a string with no whitespace at its ends and only single ' ' separators between non-space characters; it is empty exactly when there are no tokens |
| Text.CollapseWellSpaced | project1devs/project1developers.py:36 | `" ".join(s.split())` is well spaced for every s |
| Text.SplitJoin | project1devs/project1developers.py:36 | splitting a space-joined list of tokens gives back exactly those tokens |
| Text.CollapseIdempotent | project1devs/project1developers.py:36 | collapsing whitespace a second time leaves the string unchanged |
| Text.StripSpec | project1devs/project1developers.py:42 | `strip()` returns a slice of its input, everything cut off on either side is whitespace, the result has no whitespace at either end, and the input comes back unchanged exactly when it has no whitespace at its ends |
| Text.SubstringIffOccurs | project1devs/project1developers.py:63 | `needle in hay` holds exactly when needle occurs at some index of hay |
| Normalize.NormalizeText | project1devs/project1developers.py:29-36 | an empty name gives ""; the result is well spaced and a further whitespace collapse leaves it unchanged |
| Normalize.FirstAt | project1devs/project1developers.py:43 | the index of the first '@', or the length when there is none: no '@' before it, and an '@' at it |
| Normalize.LocalPartSpec | project1devs/project1developers.py:42-43 | the local part is a prefix of the email without '@'; when the email holds an '@', the first one follows the local part directly; otherwise the local part is the whole email |
| Normalize.Process | project1devs/project1developers.py:39-49 | the name is normalize_text of field 0, and the email is field 1 stripped then lowercased; prefix is the local part; first is "" iff the name has no token, else the first token; last is non-empty iff there are two or more tokens, and is then the final token; the initial is "" iff first is "", else first's first character; a row needs two fields |
| Combinations.PairsCount | project1devs/project1developers.py:54 | n records give exactly n(n-1)/2 pairs |
| Combinations.PairsOrdered | project1devs/project1developers.py:54 | the pairs are in strictly increasing lexicographic order (second index fastest), none repeats, and each is (i, j) with i < j < n, so there are no self-pairs |
| Combinations.PairsComplete | project1devs/project1developers.py:54 | (a, b) is among the pairs exactly when a < b < n |
| Scoring.ScorePair | project1devs/project1developers.py:55-65 | the row carries both raw names and both normalised emails; with a similarity in [0, 100], c1, c2 and c3 lie in [0, 1] |
| Scoring.C3IsMean | project1devs/project1developers.py:60-62 | c3 is the mean of the scaled first-name and last-name similarities, so it lies between them |
| Scoring.C4Symmetric | project1devs/project1developers.py:63 | c4 is unchanged when the two records swap places |
| Scoring.C4VacuousHalf | project1devs/project1developers.py:63 | a record with an empty initial and an empty last name makes c4 true whatever the other record is; so does a record whose normalised name has no token |
| Scoring.ScoreRows | project1devs/project1developers.py:54-65 | one row per index pair, in the order of the pairs, row k being the score of the records at pair k |
| Scoring.ScoreTableShape | project1devs/project1developers.py:53-65 | the table for n records has n(n-1)/2 rows; row k belongs to the k-th combination (i, j), i < j < n, and carries `devs[i][0]`, the email of i, `devs[j][0]`, the email of j, and scores in [0, 1] when the similarity is in [0, 100] |
| Scoring.ScoreCombinations | project1devs/project1developers.py:53-65 | the loop over the combinations appends exactly the scored rows, in combinations order |
| Scoring.ScoreAll | project1devs/project1developers.py:53-65 | the scoring stage produces the scored table for the input records; records need two fields only once a pair exists |
| Selection.VotesMonotone | project1devs/project1developers.py:77-82 | lowering the threshold never lowers `count_true` |
| Selection.Filter | project1devs/project1developers.py:83-84 | every selected row is matched at t, and there are no more selected rows than table rows |
| Selection.FilterMultiset | project1devs/project1developers.py:83-84 | the mask keeps each matched row as often as it occurs in the table and drops every unmatched one |
| Selection.FilterAppend | project1devs/project1developers.py:84 | masking keeps table order: masking a concatenation masks each part |
| Selection.MatchedMonotone | project1devs/project1developers.py:77-83 | a row matched at t is matched at every lower t' |
| Selection.FilterNested | project1devs/project1developers.py:77-85 | the rows matched at t are exactly the rows matched at a lower t' that are also matched at t, in the same order |
| Selection.CountMonotone | project1devs/project1developers.py:85 | the match count never decreases as the threshold decreases |
| Selection.ScanStopUnique | project1devs/project1developers.py:76-94 | the scan can stop at one threshold at most |
| Selection.ScanStopFromBelow | project1devs/project1developers.py:76-94 | every threshold the scan passed before stopping had a count below the band, never above it |
| Selection.EmptyStopIsFirst | project1devs/project1developers.py:89-97 | a stop that selects no rows can only be the first threshold 0.99, and the fallback then runs |
| Selection.NoStopIffNoneInBand | project1devs/project1developers.py:76-97 | the scan has no stop exactly when no threshold from 0.99 down to 0.30 has an in-band count |
| Selection.BottomStopIsFallbackChoice | project1devs/project1developers.py:76-115 | when the scan stops at 0.30 with lo <= hi, the fallback would choose 0.30 too, with the same rows |
| Selection.FallbackChoiceUnique | project1devs/project1developers.py:108 | the closest-to-the-middle choice, with ties to the smallest threshold, is unique |
| Selection.SelectionUnique | project1devs/project1developers.py:73-115 | the table and the band determine the final threshold |
| Selection.EmptyTableSelectsBottom | project1devs/project1developers.py:97-115 | with no pairs at all, the final threshold is 0.30 |
| Selection.Scan | project1devs/project1developers.py:73-94 | the loop stops at a threshold in [0.30, 0.99] with an in-band count and no in-band count above it, and selects exactly the rows matched there; otherwise it ends below 0.30 with nothing selected and no in-band count at any visited threshold |
| Selection.Fallback | project1devs/project1developers.py:98-115 | the chosen grid threshold minimises the distance of its count to the middle of the band, every smaller grid threshold is strictly farther, and the selection is exactly the rows matched at it |
| Selection.SelectPairs | project1devs/project1developers.py:73-115 | the final threshold is the scan's stop when that selected rows, and otherwise the fallback's choice; the selection is exactly the rows matched at it |
| Pipeline.Run | project1devs/project1developers.py:53-115 | the script's table is the scored table of the records; its final threshold and selection are as SelectPairs states, with the band [500, 1000] |
| Pipeline.InBandIffScanned | project1devs/project1developers.py:76-115 | with the band [500, 1000], the selected count is in the band exactly when the scan found the threshold; when the fallback chose it, no threshold from 0.99 down to 0.30 had an in-band count |

## Left out

- Reading the CSV file, creating the output directory, writing the raw and the selected tables, the timestamped file name and every `print`. They are I/O. The input is a sequence of records, each a sequence of fields, with the header row already dropped.
- The body of `rapidfuzz.fuzz.ratio`. It is a foreign library, so it is a parameter. Only its documented range [0, 100] is assumed, and only where a score bound needs it. Neither symmetry nor identity is assumed.
- NFKD decomposition, dropping combining marks, `casefold` and `str.lower`. They depend on the Unicode tables, so they are parameters.
- Normalize.NormalizeText: does not state that the output is free of punctuation. Punctuation is deleted before NFKD, and NFKD can produce ASCII punctuation again, for example from full-width forms.
- Floating-point thresholds. The model uses exact hundredths. In IEEE binary64 the script's thresholds differ from that in three ways.
  - Subtracting 0.01 from 0.99 sixty-nine times gives 0.2999999999999994. The scan therefore visits 0.99 down to 0.3099999999999994, 69 thresholds, and never 0.30 itself; the model's scan also visits 0.30. `Selection.BottomStopIsFallbackChoice` shows that a model stop at 0.30 ends with the threshold and rows the script's fallback picks.
  - From 0.93 down, every threshold the script's scan visits lies just below its hundredth (0.49999999999999956 for 0.50). A score within a rounding error below a hundredth votes in the script but not in the model.
  - `np.arange(0.3, 0.99, 0.01)` has ceil(0.69 / 0.01) = 69 elements, 0.30 to 0.98, as in the model. Some of its elements lie a rounding error above or below their hundredth, and that is not modelled either.
- pandas. The table is a sequence of rows, a boolean mask is `Filter`, and `selected.empty` is "no rows".
