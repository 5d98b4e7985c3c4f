/**
 * The recommendation engine and the aspiration lookup of the college
 * predictor, over an in-memory table of historical admission cutoffs.
 */
module CollegePredictor {

  import opened Wrappers
  import opened Suitability

  /** The region value that switches the region filter off. */
  const NonLocal: string := "NON-LOCAL"

  /** The district value that switches the district filter off. */
  const AllDistricts: string := "All"

  /** Rows whose cutoff exceeds the student's rank by more than this are dropped. */
  const RealismCeiling: int := 30000

  /** One row of the cutoff table; `district` is None where DIST is missing. */
  datatype Record = Record(
    institution: string,
    branchCode: string,
    district: Option<string>,
    region: string,
    category: string,
    gender: string,
    cutoffRank: int)

  /** The arguments of recommend_colleges apart from the table. */
  datatype Query = Query(
    userRank: int,
    category: string,
    gender: string,
    region: string,
    district: string,
    topN: int)

  /** A row of the recommendation with its added rank_gap, Suitability % and Chance columns. */
  datatype Recommendation = Recommendation(row: Record, rankGap: int, suitability: real, chance: Risk)

  /** What check_aspiration_college returns when a row matches. */
  datatype Aspiration = Aspiration(cutoff: int, rankGap: int)

  // ---------------------------------------------------------------------
  // Filtering a sequence, the model of boolean-mask row selection
  // ---------------------------------------------------------------------

  /** The elements of `s` that `keep` accepts, in their order in `s`. */
  function Filter(s: seq<Record>, keep: Record -> bool): (r: seq<Record>)
    ensures |r| <= |s|
    ensures forall i | 0 <= i < |r| :: keep(r[i])
  {
    if s == [] then []
    else
      (if keep(s[0]) then [s[0]] else []) + Filter(s[1..], keep)
  }

  lemma {:induction false} FilterAppend(a: seq<Record>, b: seq<Record>, keep: Record -> bool)
    ensures Filter(a + b, keep) == Filter(a, keep) + Filter(b, keep)
  {
    if a == [] {
      assert a + b == b;
    } else {
      assert (a + b)[1..] == a[1..] + b;
      FilterAppend(a[1..], b, keep);
    }
  }

  /** Filtering twice is filtering once by the conjunction. */
  lemma {:induction false} FilterTwice(s: seq<Record>, first: Record -> bool, second: Record -> bool, both: Record -> bool)
    requires forall x :: both(x) == (first(x) && second(x))
    ensures Filter(Filter(s, first), second) == Filter(s, both)
  {
    if s != [] {
      FilterTwice(s[1..], first, second, both);
      FilterAppend(if first(s[0]) then [s[0]] else [], Filter(s[1..], first), second);
    }
  }

  /** Filters that accept the same elements select the same sequence. */
  lemma {:induction false} FilterSame(s: seq<Record>, f: Record -> bool, g: Record -> bool)
    requires forall x :: f(x) == g(x)
    ensures Filter(s, f) == Filter(s, g)
  {
    if s != [] {
      FilterSame(s[1..], f, g);
    }
  }

  /** A filter selects nothing exactly when it accepts no element. */
  lemma {:induction false} FilterEmpty(s: seq<Record>, keep: Record -> bool)
    ensures Filter(s, keep) == [] <==> forall i | 0 <= i < |s| :: !keep(s[i])
  {
    if s != [] {
      FilterEmpty(s[1..], keep);
      assert forall i | 1 <= i < |s| :: s[i] == s[1..][i - 1];
    }
  }

  /** The first element a filter selects is the first element it accepts. */
  lemma {:induction false} FilterFirst(s: seq<Record>, keep: Record -> bool, k: int)
    requires 0 <= k < |s| && keep(s[k])
    requires forall j | 0 <= j < k :: !keep(s[j])
    ensures Filter(s, keep) != [] && Filter(s, keep)[0] == s[k]
  {
    if k > 0 {
      FilterFirst(s[1..], keep, k - 1);
    }
  }

  /** A non-empty selection starts with the first element the filter accepts. */
  lemma {:induction false} FilterHeadIsFirst(s: seq<Record>, keep: Record -> bool)
    requires Filter(s, keep) != []
    ensures exists k | 0 <= k < |s| && keep(s[k]) && forall j | 0 <= j < k :: !keep(s[j]) ::
      Filter(s, keep)[0] == s[k]
  {
    if !keep(s[0]) {
      FilterHeadIsFirst(s[1..], keep);
      var k :| 0 <= k < |s[1..]| && keep(s[1..][k]) && (forall j | 0 <= j < k :: !keep(s[1..][j]))
        && Filter(s[1..], keep)[0] == s[1..][k];
      assert forall j | 1 <= j < k + 1 :: s[j] == s[1..][j - 1];
      assert keep(s[k + 1]) && Filter(s, keep)[0] == s[k + 1];
    }
  }

  /** Filtering done step by step, as a loop over the rows. */
  method KeepWhere(rows: seq<Record>, keep: Record -> bool) returns (kept: seq<Record>)
    ensures kept == Filter(rows, keep)
  {
    kept := [];
    var i := 0;
    while i < |rows|
      invariant 0 <= i <= |rows|
      invariant kept == Filter(rows[..i], keep)
    {
      assert rows[..i + 1] == rows[..i] + [rows[i]];
      FilterAppend(rows[..i], [rows[i]], keep);
      if keep(rows[i]) {
        kept := kept + [rows[i]];
      }
      i := i + 1;
    }
    assert rows[..i] == rows;
  }

  // ---------------------------------------------------------------------
  // recommend_colleges
  // ---------------------------------------------------------------------

  /** Category and gender match exactly and the cutoff is not better than the student's rank. */
  predicate MatchesProfile(r: Record, q: Query)
  {
    r.category == q.category && r.gender == q.gender && r.cutoffRank >= q.userRank
  }

  predicate InRegion(r: Record, q: Query)
  {
    r.region == q.region
  }

  /** A missing district never equals a requested one. */
  predicate InDistrict(r: Record, q: Query)
  {
    r.district == Some(q.district)
  }

  predicate WithinCeiling(r: Record, q: Query)
  {
    r.cutoffRank - q.userRank <= RealismCeiling
  }

  /** The rows that pass the profile filter and the region and district filters the query switches on. */
  predicate Eligible(r: Record, q: Query)
  {
    && MatchesProfile(r, q)
    && (q.region != NonLocal ==> InRegion(r, q))
    && (q.district != AllDistricts ==> InDistrict(r, q))
  }

  /** The rows the recommendation is drawn from: the eligible ones within the realism ceiling. */
  predicate Survives(r: Record, q: Query)
  {
    Eligible(r, q) && WithinCeiling(r, q)
  }

  /** The eligible rows of the table, in table order. */
  function EligibleRows(table: seq<Record>, q: Query): (r: seq<Record>)
    ensures |r| <= |table|
    ensures forall i | 0 <= i < |r| :: Eligible(r[i], q)
  {
    if table == [] then []
    else (if Eligible(table[0], q) then [table[0]] else []) + EligibleRows(table[1..], q)
  }

  lemma {:induction false} EligibleAsFilter(table: seq<Record>, q: Query, keep: Record -> bool)
    requires forall r :: keep(r) == Eligible(r, q)
    ensures Filter(table, keep) == EligibleRows(table, q)
  {
    if table != [] {
      EligibleAsFilter(table[1..], q, keep);
    }
  }

  /**
   * A row with its rank_gap, its Suitability % against the default maximum
   * gap and its Chance label: the score is the 0.0 sentinel exactly when the
   * gap is negative and lies in [15, 95] otherwise.
   */
  function Annotate(r: Record, userRank: int): (a: Recommendation)
    ensures a.row == r && a.rankGap == r.cutoffRank - userRank
    ensures a.suitability == 0.0 <==> a.rankGap < 0
    ensures a.rankGap >= 0 ==> 15.0 <= a.suitability <= 95.0
    ensures a.chance == ClassifyRisk(a.rankGap)
  {
    var gap := r.cutoffRank - userRank;
    Recommendation(r, gap, CalculateSuitability(userRank, r.cutoffRank, DefaultMaxGap), ClassifyRisk(gap))
  }

  function AnnotateAll(rows: seq<Record>, userRank: int): (r: seq<Recommendation>)
    ensures |r| == |rows|
    ensures forall i | 0 <= i < |r| :: r[i] == Annotate(rows[i], userRank)
  {
    if rows == [] then [] else [Annotate(rows[0], userRank)] + AnnotateAll(rows[1..], userRank)
  }

  /**
   * Every surviving row of the table, annotated, in table order: the
   * reference the recommendation is specified against.
   */
  function Survivors(table: seq<Record>, q: Query): (r: seq<Recommendation>)
    ensures forall x | x in multiset(r) :: Survives(x.row, q) && x == Annotate(x.row, q.userRank)
  {
    if table == [] then []
    else
      (if Survives(table[0], q) then [Annotate(table[0], q.userRank)] else [])
      + Survivors(table[1..], q)
  }

  /** Applying the realism ceiling to the eligible rows and annotating them yields the survivors. */
  lemma {:induction false} CeilingOfEligible(table: seq<Record>, q: Query, keep: Record -> bool)
    requires forall r :: keep(r) == WithinCeiling(r, q)
    ensures AnnotateAll(Filter(EligibleRows(table, q), keep), q.userRank) == Survivors(table, q)
  {
    if table != [] {
      CeilingOfEligible(table[1..], q, keep);
      var head := if Eligible(table[0], q) then [table[0]] else [];
      FilterAppend(head, EligibleRows(table[1..], q), keep);
      var kept := Filter(head, keep);
      AnnotateAppend(kept, Filter(EligibleRows(table[1..], q), keep), q.userRank);
    }
  }

  lemma AnnotateAppend(a: seq<Record>, b: seq<Record>, userRank: int)
    ensures AnnotateAll(a + b, userRank) == AnnotateAll(a, userRank) + AnnotateAll(b, userRank)
  {
  }

  /**
   * What every recommended row carries: a gap in [0, 30000], a score of at
   * least 57.5 and at most 95, and the label of its gap.
   */
  lemma SurvivorFacts(r: Record, q: Query)
    requires Survives(r, q)
    ensures var a := Annotate(r, q.userRank);
      && 0 <= a.rankGap <= RealismCeiling
      && a.rankGap == r.cutoffRank - q.userRank
      && 57.5 <= a.suitability <= 95.0
      && a.chance == ClassifyRisk(a.rankGap)
  {
    SuitabilityWithinHalfGap(q.userRank, r.cutoffRank, DefaultMaxGap);
  }

  /** Non-increasing by score; the order among equal scores is left open. */
  predicate SortedByScore(s: seq<Recommendation>)
  {
    forall i, j | 0 <= i < j < |s| :: s[i].suitability >= s[j].suitability
  }

  /** The leading rows of a sorted sequence score at least as much as every row left behind. */
  lemma SortedPrefixDominates(s: seq<Recommendation>, k: int)
    requires SortedByScore(s) && 0 <= k <= |s|
    ensures forall x, i | x in multiset(s) - multiset(s[..k]) && 0 <= i < k :: x.suitability <= s[i].suitability
  {
    assert s == s[..k] + s[k..];
    assert multiset(s) - multiset(s[..k]) == multiset(s[k..]);
    forall x, i | x in multiset(s[k..]) && 0 <= i < k
      ensures x.suitability <= s[i].suitability
    {
      var j :| 0 <= j < |s[k..]| && s[k..][j] == x;
      assert s[k + j] == x;
    }
  }

  lemma InsertKeepsSorted(sorted: seq<Recommendation>, x: Recommendation, j: int)
    requires SortedByScore(sorted) && 0 <= j <= |sorted|
    requires forall k | 0 <= k < j :: sorted[k].suitability >= x.suitability
    requires j < |sorted| ==> sorted[j].suitability < x.suitability
    ensures SortedByScore(sorted[..j] + [x] + sorted[j..])
  {
    var t := sorted[..j] + [x] + sorted[j..];
    forall a, b | 0 <= a < b < |t|
      ensures t[a].suitability >= t[b].suitability
    {
      if b < j {
        assert t[a] == sorted[a] && t[b] == sorted[b];
      } else if b == j {
        assert t[a] == sorted[a];
      } else if a < j {
        assert t[a] == sorted[a] && t[b] == sorted[b - 1];
      } else if a == j {
        assert t[b] == sorted[b - 1];
      } else {
        assert t[a] == sorted[a - 1] && t[b] == sorted[b - 1];
      }
    }
  }

  /** Puts `x` into a sorted sequence after every row that scores at least as much. */
  method InsertByScore(sorted: seq<Recommendation>, x: Recommendation) returns (t: seq<Recommendation>)
    requires SortedByScore(sorted)
    ensures SortedByScore(t)
    ensures multiset(t) == multiset(sorted) + multiset{x}
  {
    var j := 0;
    while j < |sorted| && sorted[j].suitability >= x.suitability
      invariant 0 <= j <= |sorted|
      invariant forall k | 0 <= k < j :: sorted[k].suitability >= x.suitability
    {
      j := j + 1;
    }
    InsertKeepsSorted(sorted, x, j);
    t := sorted[..j] + [x] + sorted[j..];
    assert sorted == sorted[..j] + sorted[j..];
  }

  /** The sort_values step: a non-increasing rearrangement of the rows by score. */
  method SortByScore(s: seq<Recommendation>) returns (t: seq<Recommendation>)
    ensures SortedByScore(t)
    ensures multiset(t) == multiset(s)
  {
    t := [];
    var i := 0;
    while i < |s|
      invariant 0 <= i <= |s|
      invariant SortedByScore(t)
      invariant multiset(t) == multiset(s[..i])
    {
      assert s[..i + 1] == s[..i] + [s[i]];
      t := InsertByScore(t, s[i]);
      i := i + 1;
    }
    assert s[..i] == s;
  }

  /** Adds the rank_gap, Suitability % and Chance columns, row by row. */
  method AnnotateRows(rows: seq<Record>, userRank: int) returns (annotated: seq<Recommendation>)
    ensures annotated == AnnotateAll(rows, userRank)
  {
    annotated := [];
    var i := 0;
    while i < |rows|
      invariant 0 <= i <= |rows|
      invariant |annotated| == i
      invariant forall k | 0 <= k < i :: annotated[k] == Annotate(rows[k], userRank)
    {
      annotated := annotated + [Annotate(rows[i], userRank)];
      i := i + 1;
    }
  }

  function Min(a: int, b: int): int
  {
    if a <= b then a else b
  }

  /** The successive category/gender/rank, region and district filters of recommend_colleges. */
  method FilterEligible(table: seq<Record>, q: Query) returns (eligible: seq<Record>)
    ensures eligible == EligibleRows(table, q)
  {
    var byProfile := (r: Record) => MatchesProfile(r, q);
    eligible := KeepWhere(table, byProfile);
    ghost var passed := byProfile;

    if q.region != NonLocal {
      var byRegion := (r: Record) => InRegion(r, q);
      ghost var before := passed;
      passed := (r: Record) => before(r) && byRegion(r);
      FilterTwice(table, before, byRegion, passed);
      eligible := KeepWhere(eligible, byRegion);
    }

    if q.district != AllDistricts {
      var byDistrict := (r: Record) => InDistrict(r, q);
      ghost var before := passed;
      passed := (r: Record) => before(r) && byDistrict(r);
      FilterTwice(table, before, byDistrict, passed);
      eligible := KeepWhere(eligible, byDistrict);
    }

    EligibleAsFilter(table, q, passed);
  }

  /** Rows drawn from the survivors carry what every survivor carries. */
  lemma DrawnFromSurvivors(rows: seq<Recommendation>, survivors: seq<Recommendation>, q: Query)
    requires multiset(rows) <= multiset(survivors)
    requires forall x | x in multiset(survivors) :: Survives(x.row, q) && x == Annotate(x.row, q.userRank)
    ensures forall i | 0 <= i < |rows| :: Survives(rows[i].row, q) && rows[i] == Annotate(rows[i].row, q.userRank)
  {
    forall i | 0 <= i < |rows|
      ensures Survives(rows[i].row, q) && rows[i] == Annotate(rows[i].row, q.userRank)
    {
      assert rows[i] in multiset(rows);
    }
  }

  /**
   * The first `n` rows of a sorted arrangement of the survivors form a
   * top-n selection: drawn from the survivors, sorted, of the right length,
   * and scoring at least as much as every survivor left out.
   */
  lemma TopOfSorted(sorted: seq<Recommendation>, survivors: seq<Recommendation>, topN: int, n: int)
    requires SortedByScore(sorted) && multiset(sorted) == multiset(survivors)
    requires n == Min(topN, |sorted|) && 0 <= n
    ensures |sorted[..n]| == Min(topN, |survivors|)
    ensures multiset(sorted[..n]) <= multiset(survivors)
    ensures SortedByScore(sorted[..n])
    ensures forall x, i | x in multiset(survivors) - multiset(sorted[..n]) && 0 <= i < n ::
      x.suitability <= sorted[..n][i].suitability
  {
    assert |sorted| == |multiset(sorted)| == |survivors|;
    assert sorted == sorted[..n] + sorted[n..];
    SortedPrefixDominates(sorted, n);
  }

  /**
   * recommend_colleges: the surviving rows, scored and labelled, sorted by
   * score from high to low and cut to the first `topN`. The result holds
   * only surviving rows, as many as `topN` allows, and no surviving row
   * left out scores more than a row kept.
   */
  method RecommendColleges(table: seq<Record>, q: Query) returns (result: seq<Recommendation>)
    requires q.userRank >= 1 && q.topN >= 0
    ensures |result| == Min(q.topN, |Survivors(table, q)|)
    ensures multiset(result) <= multiset(Survivors(table, q))
    ensures forall i | 0 <= i < |result| :: Survives(result[i].row, q) && result[i] == Annotate(result[i].row, q.userRank)
    ensures SortedByScore(result)
    ensures forall x, i | x in multiset(Survivors(table, q)) - multiset(result) && 0 <= i < |result| ::
      x.suitability <= result[i].suitability
  {
    var eligible := FilterEligible(table, q);
    var byCeiling := (r: Record) => WithinCeiling(r, q);
    CeilingOfEligible(table, q, byCeiling);

    if |eligible| == 0 {
      assert Filter(eligible, byCeiling) == [];
      assert Survivors(table, q) == [];
      return [];
    }

    eligible := KeepWhere(eligible, byCeiling);

    if |eligible| == 0 {
      assert Survivors(table, q) == [];
      return [];
    }

    var annotated := AnnotateRows(eligible, q.userRank);
    var sorted := SortByScore(annotated);
    var n := Min(q.topN, |sorted|);
    TopOfSorted(sorted, Survivors(table, q), q.topN, n);
    result := sorted[..n];
    DrawnFromSurvivors(result, Survivors(table, q), q);
  }

  // ---------------------------------------------------------------------
  // check_aspiration_college
  // ---------------------------------------------------------------------

  /** Institution, branch, category and gender match exactly; region and district are not consulted. */
  predicate IsTarget(r: Record, collegeName: string, branchCode: string, category: string, gender: string)
  {
    r.institution == collegeName && r.branchCode == branchCode && r.category == category && r.gender == gender
  }

  /** Row `k` is the first row of the table that the lookup matches. */
  predicate IsFirstTarget(table: seq<Record>, k: int, collegeName: string, branchCode: string,
                          category: string, gender: string)
  {
    && 0 <= k < |table|
    && IsTarget(table[k], collegeName, branchCode, category, gender)
    && forall j | 0 <= j < k :: !IsTarget(table[j], collegeName, branchCode, category, gender)
  }

  /**
   * check_aspiration_college: None exactly when no row matches; otherwise
   * the cutoff of the first matching row in table order and the signed,
   * unclamped gap `cutoff - userRank`.
   */
  function CheckAspiration(table: seq<Record>, collegeName: string, branchCode: string, userRank: int,
                           category: string, gender: string): (found: Option<Aspiration>)
    ensures found.None?
        <==> forall i | 0 <= i < |table| :: !IsTarget(table[i], collegeName, branchCode, category, gender)
    ensures found.Some? ==>
      exists k | IsFirstTarget(table, k, collegeName, branchCode, category, gender) ::
        found.value == Aspiration(table[k].cutoffRank, table[k].cutoffRank - userRank)
  {
    var target := (r: Record) => IsTarget(r, collegeName, branchCode, category, gender);
    var matches := Filter(table, target);
    FilterEmpty(table, target);
    if |matches| == 0 then None
    else
      FilterHeadIsFirst(table, target);
      Some(Aspiration(matches[0].cutoffRank, matches[0].cutoffRank - userRank))
  }

  /** The lookup reports the first matching row's cutoff and the signed, unclamped gap to it. */
  lemma AspirationFirstMatch(table: seq<Record>, collegeName: string, branchCode: string, userRank: int,
                             category: string, gender: string, k: int)
    requires IsFirstTarget(table, k, collegeName, branchCode, category, gender)
    ensures CheckAspiration(table, collegeName, branchCode, userRank, category, gender)
         == Some(Aspiration(table[k].cutoffRank, table[k].cutoffRank - userRank))
  {
    var found := CheckAspiration(table, collegeName, branchCode, userRank, category, gender);
    var first :| IsFirstTarget(table, first, collegeName, branchCode, category, gender)
      && found.value == Aspiration(table[first].cutoffRank, table[first].cutoffRank - userRank);
    assert first == k;
  }

  /** Two rows that agree on everything the lookup reads. */
  predicate SameLookupKey(a: Record, b: Record)
  {
    && a.institution == b.institution
    && a.branchCode == b.branchCode
    && a.category == b.category
    && a.gender == b.gender
    && a.cutoffRank == b.cutoffRank
  }

  /** Region and district play no part in the lookup. */
  lemma AspirationIgnoresRegionAndDistrict(table: seq<Record>, other: seq<Record>, collegeName: string,
                                           branchCode: string, userRank: int, category: string, gender: string)
    requires |table| == |other|
    requires forall i | 0 <= i < |table| :: SameLookupKey(table[i], other[i])
    ensures CheckAspiration(table, collegeName, branchCode, userRank, category, gender)
         == CheckAspiration(other, collegeName, branchCode, userRank, category, gender)
  {
    if CheckAspiration(table, collegeName, branchCode, userRank, category, gender).Some? {
      var k :| IsFirstTarget(table, k, collegeName, branchCode, category, gender)
        && CheckAspiration(table, collegeName, branchCode, userRank, category, gender).value
           == Aspiration(table[k].cutoffRank, table[k].cutoffRank - userRank);
      assert IsFirstTarget(other, k, collegeName, branchCode, category, gender);
      AspirationFirstMatch(other, collegeName, branchCode, userRank, category, gender, k);
    }
  }

  // ---------------------------------------------------------------------
  // Worked examples
  // ---------------------------------------------------------------------

  const ExampleRow: Record := Record("X", "CSE", Some("D1"), "AU", "OC", "F", 25000)

  /** A rank of 20000 against a cutoff of 25000: gap 5000, score 92.92, Moderate. */
  lemma ExampleRecommended()
    ensures Survivors([ExampleRow], Query(20000, "OC", "F", "AU", AllDistricts, 15))
         == [Recommendation(ExampleRow, 5000, 92.92, Moderate)]
  {
    assert CalculateSuitability(20000, 25000, DefaultMaxGap) == 92.92;
  }

  /** A rank of 30000 does not clear a cutoff of 25000, so nothing is recommended. */
  lemma ExampleNotEligible()
    ensures Survivors([ExampleRow], Query(30000, "OC", "F", "AU", AllDistricts, 15)) == []
  {
  }

  /** The lookup reports a negative gap as it is. */
  lemma ExampleAspirationBehind()
    ensures CheckAspiration([ExampleRow], "X", "CSE", 26000, "OC", "F") == Some(Aspiration(25000, -1000))
  {
    AspirationFirstMatch([ExampleRow], "X", "CSE", 26000, "OC", "F", 0);
  }
}
