/**
 * The predicate engine (assets/js/navigator.js, lines 36-44 and 47-73): the
 * control values of one render pass, the five criteria an agent must meet,
 * and the order-preserving selection of the agents that meet them all.
 */
module Predicates {
  import opened Wrappers
  import opened Text
  import opened Agents

  /** The values read from the six controls. For each selector the empty
      string is its "all" option. */
  datatype Criteria = Criteria(
    search: string,
    category: string,
    deployment: string,
    sector: string,
    compliance: string,
    sort: string)

  /** The state of the controls at the first render: nothing selected. */
  const NoCriteria := Criteria("", "", "", "", "", "")

  /** The query (line 47): the search text, trimmed and lower-cased. */
  function Query(search: string): string {
    Lower(Trim(search))
  }

  /** The fields searched, in order, before `.filter(Boolean)`; an absent
      brief or use case reads as the empty string, which the filter drops. */
  function HaystackParts(a: AgentRecord): seq<string> {
    [a.name, a.category] + a.Sectors() + a.Deployments()
      + [a.sentinelBrief.GetOr(""), a.recommendedUseCase.GetOr("")]
  }

  /** The lower-cased, space-joined text that the query is searched in. */
  function Haystack(a: AgentRecord): string {
    Lower(Join(NonEmpty(HaystackParts(a)), " "))
  }

  predicate TextMatches(a: AgentRecord, search: string) {
    var q := Query(search);
    q == [] || Contains(Haystack(a), q)
  }

  predicate CategoryMatches(a: AgentRecord, category: string) {
    category == [] || a.category == category
  }

  predicate DeploymentMatches(a: AgentRecord, deployment: string) {
    deployment == [] || deployment in a.Deployments()
  }

  predicate SectorMatches(a: AgentRecord, sector: string) {
    sector == [] || sector in a.Sectors()
  }

  /** `matchesCompliance`: the three recognised selectors test one flag each,
      an absent `gcc` object having every flag false; any other selector,
      the empty one included, lets every agent through. */
  function MatchesCompliance(a: AgentRecord, compliance: string): (r: bool)
    ensures compliance == "uae" ==> (r <==> a.gcc.Some? && a.gcc.value.uaeCompliant)
    ensures compliance == "saudi" ==> (r <==> a.gcc.Some? && a.gcc.value.saudiCompliant)
    ensures compliance == "qatar" ==> (r <==> a.gcc.Some? && a.gcc.value.qatarSovereignCloudCompatible)
    ensures compliance != "uae" && compliance != "saudi" && compliance != "qatar" ==> r
  {
    if compliance == [] then true
    else
      var gcc := a.gcc.GetOr(Gcc(false, false, false));
      if compliance == "uae" then gcc.uaeCompliant
      else if compliance == "saudi" then gcc.saudiCompliant
      else if compliance == "qatar" then gcc.qatarSovereignCloudCompatible
      else true
  }

  /** The filter callback's verdict: the conjunction of the five criteria. */
  predicate Matches(a: AgentRecord, c: Criteria) {
    && TextMatches(a, c.search)
    && CategoryMatches(a, c.category)
    && DeploymentMatches(a, c.deployment)
    && SectorMatches(a, c.sector)
    && MatchesCompliance(a, c.compliance)
  }

  /** `Array.prototype.filter` with a callback on the record: the entries the
      callback keeps, in their original order. */
  function Filter(s: seq<Agent>, keep: AgentRecord -> bool): seq<Agent> {
    if s == [] then []
    else
      var last := s[|s| - 1];
      Filter(s[..|s| - 1], keep) + (if keep(last.record) then [last] else [])
  }

  /** The callback `render` passes to `filter`, for one set of criteria. */
  function Verdict(c: Criteria): AgentRecord -> bool {
    r => Matches(r, c)
  }

  /** `agents.filter(...)`: the agents that match, in their original order. */
  function Select(agents: seq<Agent>, c: Criteria): seq<Agent> {
    Filter(agents, Verdict(c))
  }

  // ------------------------------------------------------------- filtering

  lemma {:induction false} FilterMembership(s: seq<Agent>, keep: AgentRecord -> bool, x: Agent)
    ensures x in Filter(s, keep) <==> x in s && keep(x.record)
  {
    if s != [] {
      var init, last := s[..|s| - 1], s[|s| - 1];
      FilterMembership(init, keep, x);
      assert Filter(s, keep) == Filter(init, keep) + (if keep(last.record) then [last] else []);
      assert s == init + [last];
      assert x in s <==> x in init || x == last;
    }
  }

  lemma FilterPrefix(s: seq<Agent>, i: int, keep: AgentRecord -> bool)
    requires 0 <= i < |s|
    ensures Filter(s[..i + 1], keep) == Filter(s[..i], keep) + (if keep(s[i].record) then [s[i]] else [])
  {
    assert s[..i + 1][..i] == s[..i];
  }

  /** The positions of the entries the callback keeps, in increasing order. */
  function Positions(s: seq<Agent>, keep: AgentRecord -> bool): (r: seq<int>)
    ensures forall k :: 0 <= k < |r| ==> 0 <= r[k] < |s|
  {
    if s == [] then []
    else
      var n := |s| - 1;
      Positions(s[..n], keep) + (if keep(s[n].record) then [n] else [])
  }

  lemma {:induction false} PositionsIncrease(s: seq<Agent>, keep: AgentRecord -> bool)
    ensures forall k, l :: 0 <= k < l < |Positions(s, keep)| ==> Positions(s, keep)[k] < Positions(s, keep)[l]
  {
    if s != [] {
      var n := |s| - 1;
      PositionsIncrease(s[..n], keep);
      var p := Positions(s[..n], keep);
      var r := Positions(s, keep);
      assert r == p + (if keep(s[n].record) then [n] else []);
      forall k, l | 0 <= k < l < |r| ensures r[k] < r[l] {
        if l < |p| {
          assert r[k] == p[k] && r[l] == p[l];
        } else {
          assert r[k] == p[k] < n && r[l] == n;
        }
      }
    }
  }

  lemma {:induction false} PositionsPick(s: seq<Agent>, keep: AgentRecord -> bool)
    ensures |Positions(s, keep)| == |Filter(s, keep)|
    ensures forall k :: 0 <= k < |Filter(s, keep)| ==> Filter(s, keep)[k] == s[Positions(s, keep)[k]]
  {
    if s != [] {
      var n := |s| - 1;
      var init := s[..n];
      PositionsPick(init, keep);
      var p, f := Positions(init, keep), Filter(init, keep);
      forall k | 0 <= k < |f| ensures Filter(s, keep)[k] == s[Positions(s, keep)[k]] {
        assert Filter(s, keep)[k] == f[k] && Positions(s, keep)[k] == p[k];
        assert s[p[k]] == init[p[k]];
      }
    }
  }

  lemma {:induction false} PositionsComplete(s: seq<Agent>, keep: AgentRecord -> bool)
    ensures forall j :: 0 <= j < |s| ==> (j in Positions(s, keep) <==> keep(s[j].record))
  {
    if s != [] {
      var n := |s| - 1;
      var init := s[..n];
      PositionsComplete(init, keep);
      var p := Positions(init, keep);
      assert n !in p;
      forall j | 0 <= j < n ensures j in Positions(s, keep) <==> keep(s[j].record) {
        assert s[j] == init[j];
        assert j in Positions(s, keep) <==> j in p;
      }
    }
  }

  lemma {:induction false} FilterKeepingAll(s: seq<Agent>, keep: AgentRecord -> bool)
    requires forall k :: 0 <= k < |s| ==> keep(s[k].record)
    ensures Filter(s, keep) == s
  {
    if s != [] {
      FilterKeepingAll(s[..|s| - 1], keep);
    }
  }

  // ------------------------------------------------------------- selection

  /** An agent is selected exactly when it is in the input and meets all five
      criteria. */
  lemma SelectMembership(agents: seq<Agent>, c: Criteria, x: Agent)
    ensures x in Select(agents, c) <==> x in agents && Matches(x.record, c)
  {
    FilterMembership(agents, Verdict(c), x);
  }

  /** Selecting from one more agent of the input selects that agent exactly
      when it matches. */
  lemma SelectPrefix(s: seq<Agent>, i: int, c: Criteria)
    requires 0 <= i < |s|
    ensures Select(s[..i + 1], c) == Select(s[..i], c) + (if Matches(s[i].record, c) then [s[i]] else [])
  {
    FilterPrefix(s, i, Verdict(c));
  }

  /** The selection is the input restricted to matching positions: `idx` lists
      those positions in increasing order, and every matching position is in
      it. */
  lemma SelectPositions(agents: seq<Agent>, c: Criteria) returns (idx: seq<int>)
    ensures |idx| == |Select(agents, c)|
    ensures forall k :: 0 <= k < |idx| ==> 0 <= idx[k] < |agents|
    ensures forall k, l :: 0 <= k < l < |idx| ==> idx[k] < idx[l]
    ensures forall k :: 0 <= k < |idx| ==> Select(agents, c)[k] == agents[idx[k]]
    ensures forall j :: 0 <= j < |agents| ==> (j in idx <==> Matches(agents[j].record, c))
  {
    idx := Positions(agents, Verdict(c));
    PositionsIncrease(agents, Verdict(c));
    PositionsPick(agents, Verdict(c));
    PositionsComplete(agents, Verdict(c));
  }

  /** With every criterion empty, every agent is kept, in order. */
  lemma SelectUnfiltered(agents: seq<Agent>, c: Criteria)
    requires c.search == [] && c.category == [] && c.deployment == [] && c.sector == []
    requires c.compliance == []
    ensures Select(agents, c) == agents
  {
    FilterKeepingAll(agents, Verdict(c));
  }

  /** The first render, with no control set, lists every agent in order. */
  lemma FirstRenderShowsAll(agents: seq<Agent>)
    ensures Select(agents, NoCriteria) == agents
  {
    SelectUnfiltered(agents, NoCriteria);
  }

  /** An empty criterion never rejects: clearing any of them keeps every agent
      that matched before. */
  lemma ClearingNeverRejects(a: AgentRecord, c: Criteria)
    requires Matches(a, c)
    ensures Matches(a, c.(search := []))
    ensures Matches(a, c.(category := []))
    ensures Matches(a, c.(deployment := []))
    ensures Matches(a, c.(sector := []))
    ensures Matches(a, c.(compliance := []))
  {
  }

  // ------------------------------------------------------------ text search

  /** A query of whitespace only filters nothing out. */
  lemma WhitespaceSearchMatches(a: AgentRecord, search: string)
    requires forall i :: 0 <= i < |search| ==> IsWhitespace(search[i])
    ensures TextMatches(a, search)
  {
    TrimAllWhitespace(search);
  }

  /** The search is case-insensitive: queries that lower-case alike select
      alike. */
  lemma SearchIgnoresCase(a: AgentRecord, s1: string, s2: string)
    requires Lower(s1) == Lower(s2)
    ensures TextMatches(a, s1) == TextMatches(a, s2)
  {
    TrimLowerCommute(s1);
    TrimLowerCommute(s2);
  }

  /** Every searched field is found by a query that lower-cases like it: the
      name, the category, each sector, each deployment, the brief and the
      recommended use case. */
  lemma SearchFindsAnyField(a: AgentRecord, p: string, search: string)
    requires || p == a.name || p == a.category || p in a.Sectors() || p in a.Deployments()
             || a.sentinelBrief == Some(p) || a.recommendedUseCase == Some(p)
    requires Lower(search) == Lower(p)
    ensures TextMatches(a, search)
  {
    SearchIgnoresCase(a, search, p);
    var parts := HaystackParts(a);
    assert p in parts;
    if p != [] {
      var joined := Join(NonEmpty(parts), " ");
      JoinContains(NonEmpty(parts), " ", p);
      ContainsTrim(p);
      ContainsTransitive(joined, p, Trim(p));
      ContainsLower(joined, Trim(p));
    }
  }

  /** Searching for an agent's own name, in any letter case, finds it; the
      query's trimming only shortens what is looked for. */
  lemma SearchFindsName(a: AgentRecord, search: string)
    requires Lower(search) == Lower(a.name)
    ensures TextMatches(a, search)
  {
    SearchFindsAnyField(a, a.name, search);
  }
}
