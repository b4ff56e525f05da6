/**
 * The render pass (assets/js/navigator.js, lines 46-125): annotate and filter
 * the agents, sort the rows, word the result count and build one card per row.
 */
module Render {
  import opened Scoring
  import opened Agents
  import opened Predicates
  import opened Sorting
  import opened Cards

  // ------------------------------------------------------------ the pass

  /** The first statements of the filter callback: `_total` and `_tier`
      are written from the record's scores. */
  method Annotate(a: Agent)
    modifies a
    ensures Annotated(a)
    ensures a.total == TotalScore(a.record.scores)
  {
    var t := TotalScore(a.record.scores);
    a.total := t;
    a.tier := TierFromTotal(t);
  }

  /** The callback's annotation of entry `i`, after entries `0..i-1` were
      annotated: afterwards the first `i + 1` entries are. An agent listed
      twice is annotated again with the same values; every other entry keeps
      its fields. */
  method AnnotateAt(agents: seq<Agent>, i: int)
    requires 0 <= i < |agents| && AllAnnotated(agents[..i])
    modifies agents[i]
    ensures AllAnnotated(agents[..i + 1])
  {
    var a := agents[i];
    ghost var done := agents[..i];
    label before:
    Annotate(a);
    forall k | 0 <= k < i ensures Annotated(done[k]) {
      if done[k] != a {
        assert old@before(Annotated(done[k]));
        assert done[k].total == old@before(done[k].total);
        assert done[k].tier == old@before(done[k].tier);
      }
    }
    assert agents[..i + 1] == done + [a];
  }

  /** The filter callback run over every agent: each one, kept or not, gets
      `_total` and `_tier`, and the kept ones are returned in order. The
      record itself is immutable. */
  method FilterAnnotate(agents: seq<Agent>, c: Criteria) returns (rows: seq<Agent>)
    modifies set k | 0 <= k < |agents| :: agents[k]
    ensures rows == Select(agents, c)
    ensures AllAnnotated(agents)
  {
    rows := [];
    var i := 0;
    while i < |agents|
      invariant 0 <= i <= |agents|
      invariant rows == Select(agents[..i], c)
      invariant AllAnnotated(agents[..i])
    {
      AnnotateAt(agents, i);
      var a := agents[i];
      SelectPrefix(agents, i, c);
      if Matches(a.record, c) {
        rows := rows + [a];
      }
      i := i + 1;
    }
    assert agents[..i] == agents;
  }

  /** The loop that appends one card per row to the emptied grid. */
  method BuildCards(rows: array<Agent>) returns (cards: seq<Card>)
    ensures cards == CardsOf(rows[..])
  {
    cards := [];
    for i := 0 to rows.Length
      invariant cards == CardsOf(rows[..i])
    {
      assert rows[..i + 1][..i] == rows[..i];
      cards := cards + [CardOf(rows[i])];
    }
    assert rows[..rows.Length] == rows[..];
  }

  /** Whatever order the rows end up in (the multiset and annotation facts
      `Render` ensures), each row is one of the input agents and carries its
      annotation. */
  lemma KeptRows(agents: seq<Agent>, c: Criteria, s: seq<Agent>)
    requires AllAnnotated(agents)
    requires multiset(s) == multiset(Select(agents, c))
    ensures forall k :: 0 <= k < |s| ==> s[k] in agents && Annotated(s[k])
  {
    forall k | 0 <= k < |s| ensures s[k] in agents && Annotated(s[k]) {
      assert s[k] in multiset(s);
      assert s[k] in Select(agents, c);
      SelectMembership(agents, c, s[k]);
    }
  }

  /** The first half of `render`: annotate and filter, then sort in place
      when the sort selector names a mode; otherwise the rows stay in input
      order. */
  method Arrange(agents: seq<Agent>, c: Criteria) returns (rows: array<Agent>)
    modifies set k | 0 <= k < |agents| :: agents[k]
    ensures fresh(rows)
    ensures AllAnnotated(agents)
    ensures multiset(rows[..]) == multiset(Select(agents, c))
    ensures ParseSort(c.sort).Some? ==> SortedBy(rows[..], ParseSort(c.sort).value)
    ensures ParseSort(c.sort).None? ==> rows[..] == Select(agents, c)
  {
    var kept := FilterAnnotate(agents, c);
    rows := new Agent[|kept|](k requires 0 <= k < |kept| => kept[k]);
    assert rows[..] == kept;
    label filtered:
    match ParseSort(c.sort) {
      case Some(mode) => SortRows(rows, mode);
      case None =>
    }
    // Sorting moves references inside the fresh array only.
    forall k | 0 <= k < |agents| ensures Annotated(agents[k]) {
      assert old@filtered(Annotated(agents[k]));
    }
  }

  /** `render`: arrange the rows, word the count and build the cards, which
      replace whatever was shown before. */
  method Render(agents: seq<Agent>, c: Criteria) returns (rows: array<Agent>, count: string, cards: seq<Card>)
    modifies set k | 0 <= k < |agents| :: agents[k]
    ensures fresh(rows)
    ensures AllAnnotated(agents)
    ensures multiset(rows[..]) == multiset(Select(agents, c))
    ensures ParseSort(c.sort).Some? ==> SortedBy(rows[..], ParseSort(c.sort).value)
    ensures ParseSort(c.sort).None? ==> rows[..] == Select(agents, c)
    ensures count == CountText(rows.Length)
    ensures cards == CardsOf(rows[..])
  {
    rows := Arrange(agents, c);
    count := CountText(rows.Length);
    cards := BuildCards(rows);
  }
}
