// The risk scorer: a missing section weighs as much as two dangerous
// phrases, and two thresholds split the weighted total into three levels.

module RiskScorer {
  datatype RiskLevel = Low | Medium | High

  const HighThreshold: int := 10
  const MediumThreshold: int := 5

  /** The weighted number of issues. */
  function TotalIssues(dangerousCount: int, missingCount: int): int
  {
    dangerousCount + missingCount * 2
  }

  /** `calculate_risk_level`. */
  function CalculateRiskLevel(dangerousCount: int, missingCount: int): (r: RiskLevel)
    ensures r == High <==> dangerousCount + 2 * missingCount >= 10
    ensures r == Medium <==> 5 <= dangerousCount + 2 * missingCount < 10
    ensures r == Low <==> dangerousCount + 2 * missingCount < 5
  {
    var total := TotalIssues(dangerousCount, missingCount);
    if total >= HighThreshold then High
    else if total >= MediumThreshold then Medium
    else Low
  }

  /** The levels in increasing order of risk. */
  function Rank(r: RiskLevel): nat
  {
    match r
    case Low => 0
    case Medium => 1
    case High => 2
  }

  /** The level as the service reports it. */
  function Name(r: RiskLevel): (s: string)
    ensures |s| > 0
  {
    match r
    case Low => "LOW"
    case Medium => "MEDIUM"
    case High => "HIGH"
  }

  /** Distinct levels have distinct names, so the name determines the level. */
  lemma NameInjective(r1: RiskLevel, r2: RiskLevel)
    ensures Name(r1) == Name(r2) <==> r1 == r2
  {
    if r1 != r2 {
      assert Name(r1)[0] != Name(r2)[0];
    }
  }

  /** More issues of either kind never lower the level. */
  lemma Monotone(d1: int, m1: int, d2: int, m2: int)
    requires d1 <= d2 && m1 <= m2
    ensures Rank(CalculateRiskLevel(d1, m1)) <= Rank(CalculateRiskLevel(d2, m2))
  {
  }

  /** One missing section moves the total exactly as far as two dangerous
      phrases do. */
  lemma SectionWeighsTwoPhrases(d: int, m: int)
    ensures CalculateRiskLevel(d, m + 1) == CalculateRiskLevel(d + 2, m)
  {
  }

  /** Worked values: five missing sections alone, or ten phrases alone,
      give the highest level; two phrases with four missing sections reach
      it exactly; three missing sections, or three phrases and one missing
      section, give MEDIUM; four phrases alone stay LOW. */
  lemma Boundaries()
    ensures CalculateRiskLevel(0, 0) == Low
    ensures CalculateRiskLevel(4, 0) == Low
    ensures CalculateRiskLevel(2, 1) == Low
    ensures CalculateRiskLevel(5, 0) == Medium
    ensures CalculateRiskLevel(9, 0) == Medium
    ensures CalculateRiskLevel(0, 3) == Medium
    ensures CalculateRiskLevel(3, 1) == Medium
    ensures CalculateRiskLevel(10, 0) == High
    ensures CalculateRiskLevel(0, 5) == High
    ensures CalculateRiskLevel(2, 4) == High
  {
  }
}
