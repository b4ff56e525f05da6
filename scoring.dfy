/**
 * Scoring (assets/js/navigator.js, lines 7-16): the readiness total of an
 * agent's score map and the tier it falls in.
 */
module Scoring {
  import opened Wrappers

  /** One raw sub-score: a number, or a value that `Number` turns into NaN. */
  datatype Score = Num(n: int) | NonNumeric

  type ScoreMap = map<string, Score>

  /** The five dimensions that make up the total, in reduce order. */
  const DimensionKeys: seq<string> :=
    ["residency_hosting", "arabic_support", "deployment_model", "security_enterprise", "sector_fit"]

  /** What one key contributes to the total (line 8): its numeric value, where
      an absent map, an absent key and a non-numeric value all give 0. */
  function Dimension(scores: Option<ScoreMap>, k: string): int {
    match scores
    case None => 0
    case Some(m) =>
      if k !in m then 0
      else match m[k]
        case Num(n) => n
        case NonNumeric => 0
  }

  /** The sum over `keys`, folded from the left as the source's reduce does. */
  function SumOver(scores: Option<ScoreMap>, keys: seq<string>): int {
    if keys == [] then 0
    else SumOver(scores, keys[..|keys| - 1]) + Dimension(scores, keys[|keys| - 1])
  }

  /** `totalScore`. */
  function TotalScore(scores: Option<ScoreMap>): int {
    SumOver(scores, DimensionKeys)
  }

  /** The total is the sum of the five named dimensions. */
  lemma TotalIsSumOfDimensions(scores: Option<ScoreMap>)
    ensures TotalScore(scores)
         == Dimension(scores, "residency_hosting") + Dimension(scores, "arabic_support")
          + Dimension(scores, "deployment_model") + Dimension(scores, "security_enterprise")
          + Dimension(scores, "sector_fit")
  {
    var ks := DimensionKeys;
    assert SumOver(scores, ks[..1]) == Dimension(scores, ks[0]) by {
      assert ks[..1][..0] == [];
    }
    assert SumOver(scores, ks[..2]) == SumOver(scores, ks[..1]) + Dimension(scores, ks[1]) by {
      assert ks[..2][..1] == ks[..1];
    }
    assert SumOver(scores, ks[..3]) == SumOver(scores, ks[..2]) + Dimension(scores, ks[2]) by {
      assert ks[..3][..2] == ks[..2];
    }
    assert SumOver(scores, ks[..4]) == SumOver(scores, ks[..3]) + Dimension(scores, ks[3]) by {
      assert ks[..4][..3] == ks[..3];
    }
    assert SumOver(scores, ks) == SumOver(scores, ks[..4]) + Dimension(scores, ks[4]) by {
      assert ks[..|ks| - 1] == ks[..4];
    }
  }

  lemma {:induction false} SumOverAgrees(s1: Option<ScoreMap>, s2: Option<ScoreMap>, keys: seq<string>)
    requires forall k :: k in keys ==> Dimension(s1, k) == Dimension(s2, k)
    ensures SumOver(s1, keys) == SumOver(s2, keys)
  {
    if keys != [] {
      assert forall k :: k in keys[..|keys| - 1] ==> k in keys;
      SumOverAgrees(s1, s2, keys[..|keys| - 1]);
    }
  }

  /** Two score maps that agree on the five dimensions have the same total. */
  lemma TotalDependsOnlyOnDimensions(s1: Option<ScoreMap>, s2: Option<ScoreMap>)
    requires forall k :: k in DimensionKeys ==> Dimension(s1, k) == Dimension(s2, k)
    ensures TotalScore(s1) == TotalScore(s2)
  {
    SumOverAgrees(s1, s2, DimensionKeys);
  }

  /** A key outside the five, whatever its value, does not change the total. */
  lemma TotalIgnoresOtherKeys(m: ScoreMap, k: string, v: Score)
    requires k !in DimensionKeys
    ensures TotalScore(Some(m[k := v])) == TotalScore(Some(m))
  {
    TotalDependsOnlyOnDimensions(Some(m[k := v]), Some(m));
  }

  /** With every dimension on the nominal 0-5 scale the total is on 0-25. */
  lemma TotalBounds(scores: Option<ScoreMap>)
    requires forall k :: k in DimensionKeys ==> 0 <= Dimension(scores, k) <= 5
    ensures 0 <= TotalScore(scores) <= 25
  {
    TotalIsSumOfDimensions(scores);
  }

  /** A missing or empty score map totals 0, and a non-numeric dimension
      contributes nothing: a map with residency 5 and a non-numeric Arabic
      support score totals 5. */
  lemma TotalExamples()
    ensures TotalScore(None) == 0
    ensures TotalScore(Some(map[])) == 0
    ensures TotalScore(Some(map["residency_hosting" := Num(5), "arabic_support" := NonNumeric])) == 5
  {
    TotalIsSumOfDimensions(None);
    TotalIsSumOfDimensions(Some(map[]));
    TotalIsSumOfDimensions(Some(map["residency_hosting" := Num(5), "arabic_support" := NonNumeric]));
  }

  /** The qualitative readiness bucket. */
  datatype Tier = EnterpriseReady | Emerging | NotReady {

    /** The label shown on a card. */
    function Label(): string {
      match this
      case EnterpriseReady => "Enterprise-Ready"
      case Emerging => "Emerging"
      case NotReady => "Not Ready"
    }

    /** Position in the readiness order, lowest first. */
    function Rank(): nat {
      match this
      case NotReady => 0
      case Emerging => 1
      case EnterpriseReady => 2
    }
  }

  /** `tierFromTotal`: both thresholds are inclusive lower bounds. */
  function TierFromTotal(t: int): (r: Tier)
    ensures r == EnterpriseReady <==> 18 <= t
    ensures r == Emerging <==> 11 <= t < 18
    ensures r == NotReady <==> t < 11
  {
    if t >= 18 then EnterpriseReady
    else if t >= 11 then Emerging
    else NotReady
  }

  /** A higher total never yields a lower tier. */
  lemma TierMonotone(t1: int, t2: int)
    requires t1 <= t2
    ensures TierFromTotal(t1).Rank() <= TierFromTotal(t2).Rank()
  {
  }
}
