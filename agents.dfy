/**
 * The agent entry of the dataset: its fields as read from the JSON file, and
 * the object that the render pass annotates with `_total` and `_tier`.
 */
module Agents {
  import opened Wrappers
  import opened Scoring

  /** The compliance flags of `a.gcc`; an absent flag is `false`. */
  datatype Gcc = Gcc(uaeCompliant: bool, saudiCompliant: bool, qatarSovereignCloudCompatible: bool)

  /** The fields of one entry. Optional fields are `Option`s; `name` and
      `category` are plain strings. */
  datatype AgentRecord = AgentRecord(
    name: string,
    category: string,
    deployment: Option<seq<string>>,
    sectors: Option<seq<string>>,
    scores: Option<ScoreMap>,
    gcc: Option<Gcc>,
    badges: Option<seq<string>>,
    sentinelBrief: Option<string>,
    recommendedUseCase: Option<string>,
    website: Option<string>,
    profileUrl: Option<string>)
  {
    /** The deployment list, empty when absent. */
    function Deployments(): seq<string> {
      deployment.GetOr([])
    }

    /** The sector list, empty when absent. */
    function Sectors(): seq<string> {
      sectors.GetOr([])
    }

    /** The badge list, empty when absent. */
    function Badges(): seq<string> {
      badges.GetOr([])
    }
  }

  /** An entry as the page holds it: the record never changes, while every
      render pass overwrites `total` and `tier` (`_total`, `_tier`). */
  class Agent {
    const record: AgentRecord
    var total: int
    var tier: Tier

    /** The annotation slots start at 0 and `NotReady`; the page leaves them
        undefined until the first render pass writes them, and nothing reads
        them before that. */
    constructor (record: AgentRecord)
      ensures this.record == record && total == 0 && tier == NotReady
    {
      this.record := record;
      total := 0;
      tier := NotReady;
    }
  }

  /** The annotation that the filter pass writes into every entry it visits. */
  predicate Annotated(a: Agent)
    reads a
  {
    a.total == TotalScore(a.record.scores) && a.tier == TierFromTotal(a.total)
  }

  /** Every entry of `s` carries its annotation. */
  predicate AllAnnotated(s: seq<Agent>)
    reads s
  {
    forall k :: 0 <= k < |s| ==> Annotated(s[k])
  }
}
