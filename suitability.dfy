/**
 * The suitability scorer and the risk classifier of the college predictor:
 * a rank gap (cutoff rank minus the student's rank) becomes a bounded
 * percentage score and one of three risk labels.
 */
module Suitability {

  /** The default `max_gap`: a gap this large or larger scores the minimum. */
  const DefaultMaxGap: int := 60000

  /** Gaps up to this are Ambitious. */
  const AmbitiousLimit: int := 2000

  /** Gaps above AmbitiousLimit and up to this are Moderate; larger ones are Safe. */
  const ModerateLimit: int := 10000

  /** The three chance labels, in order of increasing safety. */
  datatype Risk = Ambitious | Moderate | Safe

  /** Position of a label in the order Ambitious < Moderate < Safe. */
  function RiskLevel(risk: Risk): nat
  {
    match risk
    case Ambitious => 0
    case Moderate => 1
    case Safe => 2
  }

  function MinReal(x: real, y: real): real
  {
    if x <= y then x else y
  }

  function MaxReal(x: real, y: real): real
  {
    if x >= y then x else y
  }

  /**
   * Rounding to two decimal places, taken on exact reals with halves rounded
   * up. The result is a whole number of hundredths within half a hundredth
   * of the input.
   */
  function Round2(x: real): (r: real)
    ensures (r * 100.0).Floor as real == r * 100.0
    ensures x - 0.005 < r <= x + 0.005
  {
    ((x * 100.0 + 0.5).Floor as real) / 100.0
  }

  /** Rounding never reverses the order of two values. */
  lemma Round2Monotone(x: real, y: real)
    requires x <= y
    ensures Round2(x) <= Round2(y)
  {
    var a, b := x * 100.0 + 0.5, y * 100.0 + 0.5;
    assert a <= b;
    assert a.Floor <= b.Floor;
    assert a.Floor as real / 100.0 <= b.Floor as real / 100.0;
  }

  /** A value that already is a whole number of hundredths is left as it is. */
  lemma Round2Exact(hundredths: int)
    ensures Round2(hundredths as real / 100.0) == hundredths as real / 100.0
  {
    var x := hundredths as real / 100.0;
    assert x * 100.0 + 0.5 == hundredths as real + 0.5;
    assert (x * 100.0 + 0.5).Floor == hundredths;
  }

  /** The ratio `gap / maxGap` never decreases as the gap grows. */
  lemma RatioMonotone(gap1: int, gap2: int, maxGap: int)
    requires 0 <= gap1 <= gap2 && 0 < maxGap
    ensures gap1 as real / maxGap as real <= gap2 as real / maxGap as real
  {
    var m := maxGap as real;
    assert gap1 as real / m * m == gap1 as real;
    assert gap2 as real / m * m == gap2 as real;
    if gap1 as real / m > gap2 as real / m {
      assert (gap1 as real / m - gap2 as real / m) * m > 0.0;
    }
  }

  /** A gap of at most `bound` times `maxGap` has a ratio of at most `bound`. */
  lemma RatioAtMost(gap: int, maxGap: int, bound: real)
    requires 0 < maxGap && gap as real <= bound * maxGap as real
    ensures gap as real / maxGap as real <= bound
  {
    var m := maxGap as real;
    assert gap as real / m * m == gap as real;
    if gap as real / m > bound {
      assert (gap as real / m - bound) * m > 0.0;
    }
  }

  /**
   * The unclamped score `85 * (1 - min(gap / maxGap, 1)) + 15`: 100 at a gap
   * of 0, falling to 15 once the ratio saturates, and never outside [15, 100].
   */
  function RawScore(gap: int, maxGap: int): (r: real)
    requires 0 <= gap && 0 < maxGap
    ensures 15.0 <= r <= 100.0
    ensures gap == 0 ==> r == 100.0
    ensures gap >= maxGap ==> r == 15.0
  {
    RatioMonotone(0, gap, maxGap);
    RatioMonotone(maxGap, if gap >= maxGap then gap else maxGap, maxGap);
    var ratio := MinReal(gap as real / maxGap as real, 1.0);
    85.0 * (1.0 - ratio) + 15.0
  }

  /**
   * calculate_suitability: 0.0 is the sentinel for a cutoff the student's
   * rank does not clear; otherwise the raw score is clamped to [5, 95] and
   * rounded to two places, which keeps it in [15, 95].
   */
  function CalculateSuitability(userRank: int, cutoffRank: int, maxGap: int): (r: real)
    requires 0 < maxGap
    ensures cutoffRank < userRank <==> r == 0.0
    ensures cutoffRank >= userRank ==> 15.0 <= r <= 95.0
  {
    var gap := cutoffRank - userRank;
    if gap < 0 then 0.0
    else
      Round2Monotone(15.0, MinReal(MaxReal(RawScore(gap, maxGap), 5.0), 95.0));
      Round2Monotone(MinReal(MaxReal(RawScore(gap, maxGap), 5.0), 95.0), 95.0);
      Round2Exact(1500);
      Round2Exact(9500);
      Round2(MinReal(MaxReal(RawScore(gap, maxGap), 5.0), 95.0))
  }

  /** A cutoff equal to the student's rank scores 95: the raw 100 is clamped. */
  lemma SuitabilityAtZeroGap(userRank: int, maxGap: int)
    requires 0 < maxGap
    ensures CalculateSuitability(userRank, userRank, maxGap) == 95.0
  {
    Round2Exact(9500);
  }

  /** A gap of `maxGap` or more scores exactly 15: the ratio saturates at 1. */
  lemma SuitabilitySaturates(userRank: int, cutoffRank: int, maxGap: int)
    requires 0 < maxGap && cutoffRank - userRank >= maxGap
    ensures CalculateSuitability(userRank, cutoffRank, maxGap) == 15.0
  {
    var gap := cutoffRank - userRank;
    RatioMonotone(maxGap, gap, maxGap);
    assert maxGap as real / maxGap as real == 1.0;
    var c := MinReal(MaxReal(RawScore(gap, maxGap), 5.0), 95.0);
    assert c == 15.0;
    Round2Exact(1500);
  }

  /** For a fixed rank, a closer cutoff never scores lower than a farther one. */
  lemma SuitabilityMonotone(userRank: int, cutoff1: int, cutoff2: int, maxGap: int)
    requires 0 < maxGap && userRank <= cutoff1 <= cutoff2
    ensures CalculateSuitability(userRank, cutoff1, maxGap) >= CalculateSuitability(userRank, cutoff2, maxGap)
  {
    var gap1, gap2 := cutoff1 - userRank, cutoff2 - userRank;
    RatioMonotone(gap1, gap2, maxGap);
    var c1 := MinReal(MaxReal(RawScore(gap1, maxGap), 5.0), 95.0);
    var c2 := MinReal(MaxReal(RawScore(gap2, maxGap), 5.0), 95.0);
    assert c2 <= c1;
    Round2Monotone(c2, c1);
  }

  /** A gap of at most half of `maxGap` scores at least 57.5. */
  lemma SuitabilityWithinHalfGap(userRank: int, cutoffRank: int, maxGap: int)
    requires 0 < maxGap && 0 <= cutoffRank - userRank && 2 * (cutoffRank - userRank) <= maxGap
    ensures CalculateSuitability(userRank, cutoffRank, maxGap) >= 57.5
  {
    var gap := cutoffRank - userRank;
    RatioAtMost(gap, maxGap, 0.5);
    var c := MinReal(MaxReal(RawScore(gap, maxGap), 5.0), 95.0);
    assert c >= 57.5;
    Round2Exact(5750);
    Round2Monotone(57.5, c);
  }

  /**
   * classify_risk: Ambitious up to a gap of 2000, Moderate up to 10000,
   * Safe beyond; every gap, negative ones included, gets exactly one label.
   */
  function ClassifyRisk(rankGap: int): (r: Risk)
    ensures r == Ambitious <==> rankGap <= AmbitiousLimit
    ensures r == Moderate <==> AmbitiousLimit < rankGap <= ModerateLimit
    ensures r == Safe <==> ModerateLimit < rankGap
  {
    if rankGap <= AmbitiousLimit then Ambitious
    else if rankGap <= ModerateLimit then Moderate
    else Safe
  }

  /** A larger gap never gets a less safe label. */
  lemma ClassifyRiskMonotone(gap1: int, gap2: int)
    requires gap1 <= gap2
    ensures RiskLevel(ClassifyRisk(gap1)) <= RiskLevel(ClassifyRisk(gap2))
  {
  }
}
