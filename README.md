# EAPCET college predictor — verified model of the recommendation core

This project models in Dafny the decision logic of the EAPCET college
predictor: given a student's rank, reservation category, gender, region and
preferred district, it shortlists college/branch rows from a table of
historical cutoff ranks, scores each by how comfortably the rank clears the
cutoff, labels it Ambitious, Moderate or Safe, and sorts the shortlist by
score. A second operation looks up one college/branch and reports its
historical cutoff and the signed gap to the student's rank.

- `suitability.dfy` (module `Suitability`) models `suitability.py`:
  `CalculateSuitability` (0.0 for a cutoff the rank does not clear, otherwise
  `85 * (1 - min(gap / max_gap, 1)) + 15` clamped to [5, 95] and rounded to two
  places) and `ClassifyRisk` (thresholds 2000 and 10000), as pure functions
  over `real` and `int`, with lemmas for the bounds, the fixed points at gap 0
  and gap ≥ `max_gap`, and monotonicity.
- `college_predictor.dfy` (module `CollegePredictor`) models
  `college_predictor.py`. The table is a `seq<Record>`; a missing `DIST` is
  `None`. `RecommendColleges` is a method that runs the same stages as
  `recommend_colleges`: the profile filter, then the region filter unless the
  region is `NON-LOCAL`, then the district filter unless it is `All`, each a
  loop over the rows. It returns early on an empty selection. It then applies
  the 30000 ceiling, annotates each row with its gap, score and label, sorts
  by score from high to low, and keeps the first `topN` rows. It is proved
  against `Survivors`, an independent definition of the surviving rows in
  table order. The result is sorted and drawn from the survivors, it has
  length `min(topN, #survivors)`, and no survivor left out scores more than a
  kept row. Since the table is a sequence value, the operation cannot change
  it. `CheckAspiration` is a function: the first row matching institution,
  branch, category and gender gives the cutoff and the unclamped gap, and
  `None` means no row matches.
- `wrappers.dfy` (module `Wrappers`) holds the `Option` type.

Notes on the code's behaviour:
- The code sorts by score alone (college_predictor.py:55-58), with no
  secondary key and no stability guarantee. The model specifies sortedness,
  drawing from the survivors and the top-N property, and leaves the order of
  equal scores open.
- Because the ratio is capped at 1, the score for a cleared cutoff lies in
  [15, 95]; the lower clamp at 5 is never reached.
- A rank below 1 is excluded by the precondition of `RecommendColleges`.

## Model

| member | source | states |
|---|---|---|
| `Suitability.CalculateSuitability` | suitability.py:1-7 | the score is exactly 0.0 if and only if the cutoff is better than the rank (negative gap); for a cleared cutoff it lies in [15, 95] |
| `Suitability.Round2` | suitability.py:7 | rounding to two places gives a whole number of hundredths within half a hundredth of the input |
| `Suitability.Round2Monotone` | suitability.py:7 | rounding preserves order, so the rounded score stays monotone |
| `Suitability.Round2Exact` | suitability.py:7 | a value that is already a whole number of hundredths (95, 57.5, 15) is unchanged by rounding |
| `Suitability.RawScore` | suitability.py:5-6 | the unclamped score lies in [15, 100], is 100 at a gap of 0 and exactly 15 once the gap reaches max_gap |
| `Suitability.SuitabilityAtZeroGap` | suitability.py:5-7 | a gap of 0 scores 95: the raw 100 is cut by the upper clamp |
| `Suitability.SuitabilitySaturates` | suitability.py:5-7 | every gap of at least max_gap scores exactly 15, because the ratio saturates at 1 |
| `Suitability.SuitabilityMonotone` | suitability.py:2-7 | for a fixed rank and cleared cutoffs, a larger gap never scores higher |
| `Suitability.SuitabilityWithinHalfGap` | suitability.py:5-7 | a gap of at most half of max_gap scores at least 57.5 |
| `Suitability.ClassifyRisk` | suitability.py:10-16 | Ambitious exactly for gaps ≤ 2000, Moderate exactly for 2000 < gap ≤ 10000, Safe exactly for gaps > 10000: every gap gets one label |
| `Suitability.ClassifyRiskMonotone` | suitability.py:10-16 | a larger gap never gets a label earlier in Ambitious < Moderate < Safe |
| `CollegePredictor.Filter` | college_predictor.py:21-25 | boolean-mask selection keeps only rows the mask accepts and never grows the table |
| `CollegePredictor.KeepWhere` | college_predictor.py:21-33 | the row-by-row filter loop selects exactly the rows of `Filter`, in order |
| `CollegePredictor.FilterTwice` | college_predictor.py:28-33 | filtering an already filtered frame equals filtering once by both conditions |
| `CollegePredictor.FilterEmpty` | college_predictor.py:82-83 | a selection is empty exactly when no row satisfies its mask |
| `CollegePredictor.FilterFirst` | college_predictor.py:85 | the first selected row is the first row of the table that satisfies the mask |
| `CollegePredictor.EligibleRows` | college_predictor.py:21-33 | the eligible rows satisfy the profile filter and every region/district filter the query switches on |
| `CollegePredictor.EligibleAsFilter` | college_predictor.py:21-33 | the staged filters select exactly the eligible rows in table order |
| `CollegePredictor.FilterEligible` | college_predictor.py:21-33 | the category/gender/rank filter, then the region filter unless `NON-LOCAL`, then the district filter unless `All`, yield exactly the eligible rows (a missing district never matches) |
| `CollegePredictor.Annotate` | college_predictor.py:39-52 | an annotated row keeps its record, has `rank_gap == cutoff - rank`, a score that is the 0.0 sentinel exactly for a negative gap and otherwise lies in [15, 95], and the label `classify_risk(rank_gap)` |
| `CollegePredictor.AnnotateAll` | college_predictor.py:39-52 | one annotated row per input row, each carrying that row's gap, score and label |
| `CollegePredictor.AnnotateRows` | college_predictor.py:39-52 | the column-adding loop produces exactly the annotated rows |
| `CollegePredictor.Survivors` | college_predictor.py:21-52 | every row of the reference selection survives all filters and the ceiling and carries its own gap, score and label |
| `CollegePredictor.CeilingOfEligible` | college_predictor.py:39-42 | applying the 30000 ceiling to the eligible rows and annotating them gives exactly the reference selection |
| `CollegePredictor.SurvivorFacts` | college_predictor.py:21-52 | a surviving row has `rank_gap == cutoff - rank` with 0 ≤ gap ≤ 30000, a score in [57.5, 95] and the label `ClassifyRisk(rank_gap)` |
| `CollegePredictor.InsertByScore` | college_predictor.py:55-57 | insertion keeps the rows sorted by score and adds exactly the new row |
| `CollegePredictor.SortByScore` | college_predictor.py:55-57 | the sort returns a non-increasing permutation of its input |
| `CollegePredictor.SortedPrefixDominates` | college_predictor.py:55-58 | in a sorted frame, every row after the first k scores no more than each of the first k |
| `CollegePredictor.TopOfSorted` | college_predictor.py:55-58 | `head(top_n)` of the sorted survivors has length min(top_n, #survivors), is drawn from them, is sorted, and dominates every survivor left out |
| `CollegePredictor.RecommendColleges` | college_predictor.py:7-60 | the result has length min(top_n, #survivors), is drawn from the surviving rows (so it is empty when none survive), each row satisfies every filter and carries its own gap, score and label, it is sorted non-increasing by score, and no surviving row left out scores more than a returned row |
| `CollegePredictor.CheckAspiration` | college_predictor.py:63-91 | returns None exactly when no row matches institution, branch, category and gender; otherwise some first matching row in table order gives the cutoff and the signed, unclamped gap `cutoff - rank` |
| `CollegePredictor.FilterHeadIsFirst` | college_predictor.py:85 | a non-empty selection starts with the first row the mask accepts |
| `CollegePredictor.AspirationFirstMatch` | college_predictor.py:85-91 | when row k is the first match in table order, the lookup returns its cutoff and the signed gap `cutoff - rank`, unclamped |
| `CollegePredictor.AspirationIgnoresRegionAndDistrict` | college_predictor.py:75-80 | tables that differ only in region and district give the same lookup result |
| `CollegePredictor.ExampleRecommended` | college_predictor.py:39-52 | rank 20000 against a cutoff of 25000 survives with gap 5000, score 92.92 and label Moderate |
| `CollegePredictor.ExampleNotEligible` | college_predictor.py:21-25 | rank 30000 does not clear a cutoff of 25000, so nothing survives |
| `CollegePredictor.ExampleAspirationBehind` | college_predictor.py:85-91 | rank 26000 against a cutoff of 25000 is reported as gap -1000, not as an error |

The filter predicates `MatchesProfile`, `InRegion`, `InDistrict` and
`WithinCeiling` are the masks at college_predictor.py:21-25, 28-29, 32-33 and
42; `Eligible` and `Survives` combine them. The lemmas `RatioMonotone`,
`RatioAtMost`, `AnnotateAppend`, `InsertKeepsSorted` and `DrawnFromSurvivors`
are proof helpers for the members above; they state no promise of the source.

## Left out

- `Suitability.Round2`: Python's `round(x, 2)` works on binary floating point with ties to even. The model rounds exact reals to the nearest hundredth with halves rounded up. No floating-point behaviour is modelled.
- `CollegePredictor.SortByScore`: the pandas sort (college_predictor.py:55-58) is not stable and fixes no order among equal scores. The model sorts by stable insertion, but its contract, and that of `RecommendColleges`, promise only sortedness and a permutation. No order among equal scores is claimed.
- `CollegePredictor.RecommendColleges`: requires `userRank >= 1` and `topN >= 0`. A negative `top_n`, for which `head` drops rows from the end, is not modelled.
- `Suitability.CalculateSuitability`: requires `maxGap > 0`. The recommendation always uses the default 60000.
- The default arguments (`preferred_district="All"`, `top_n=15`, `max_gap=60000`) are not Dafny defaults. The caller supplies them, and `Annotate` passes `DefaultMaxGap`.
- DataFrame mechanics are not modelled: index labels, `.copy()`, column order, and the empty `pd.DataFrame()` returned early, which has no columns. An empty result is the empty sequence.
- Missing values are modelled only for `DIST`, as `None`. A missing rank, category or name in other columns is not modelled.
- The exact label strings, which include emoji, become the three constructors of `Risk`.
- app.py (Streamlit widgets, CSV loading and caching, display of the gap's sign) is not part of this model.
