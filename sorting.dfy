/**
 * The sort engine (assets/js/navigator.js, lines 75-78): four comparators over
 * the annotated rows and the in-place sort of the filtered array.
 */
module Sorting {
  import opened Wrappers
  import opened Text
  import opened Agents

  datatype SortMode = ScoreDesc | ScoreAsc | NameAsc | NameDesc

  /** The value of the sort selector; any other value sorts nothing. */
  function ParseSort(s: string): (r: Option<SortMode>)
    ensures r == Some(ScoreDesc) <==> s == "score_desc"
    ensures r == Some(ScoreAsc) <==> s == "score_asc"
    ensures r == Some(NameAsc) <==> s == "name_asc"
    ensures r == Some(NameDesc) <==> s == "name_desc"
  {
    if s == "score_desc" then Some(ScoreDesc)
    else if s == "score_asc" then Some(ScoreAsc)
    else if s == "name_asc" then Some(NameAsc)
    else if s == "name_desc" then Some(NameDesc)
    else None
  }

  /** What the comparators look at: the annotated total and the name. */
  datatype Key = Key(total: int, name: string)

  function KeyOf(a: Agent): (r: Key)
    reads a
    ensures r.total == a.total && r.name == a.record.name
  {
    Key(a.total, a.record.name)
  }

  /** The keys of a row list, position by position. */
  function Keys(s: seq<Agent>): (r: seq<Key>)
    reads s
    ensures |r| == |s|
    ensures forall k :: 0 <= k < |s| ==> r[k] == KeyOf(s[k])
  {
    seq(|s|, k reads s requires 0 <= k < |s| => KeyOf(s[k]))
  }

  /** The comparator on keys: negative when `x` goes first. The score modes
      fall back to the name when the totals are equal (a zero difference is
      falsy). */
  function Order(mode: SortMode, x: Key, y: Key): int {
    match mode
    case ScoreDesc =>
      if y.total - x.total != 0 then y.total - x.total else Compare(x.name, y.name)
    case ScoreAsc =>
      if x.total - y.total != 0 then x.total - y.total else Compare(x.name, y.name)
    case NameAsc => Compare(x.name, y.name)
    case NameDesc => Compare(y.name, x.name)
  }

  /** The comparator handed to `rows.sort`. */
  function Cmp(mode: SortMode, x: Agent, y: Agent): int
    reads x, y
  {
    Order(mode, KeyOf(x), KeyOf(y))
  }

  /** Swapping the arguments negates every comparator. */
  lemma OrderAntisymmetric(mode: SortMode, x: Key, y: Key)
    ensures Order(mode, x, y) == -Order(mode, y, x)
  {
    CompareAntisymmetric(x.name, y.name);
  }

  /** "Goes no later than" is transitive in every mode. */
  lemma OrderTransitive(mode: SortMode, x: Key, y: Key, z: Key)
    requires Order(mode, x, y) <= 0 && Order(mode, y, z) <= 0
    ensures Order(mode, x, z) <= 0
  {
    match mode
    case NameDesc =>
      CompareTransitive(z.name, y.name, x.name);
    case _ =>
      if x.total == y.total == z.total || mode == NameAsc {
        CompareTransitive(x.name, y.name, z.name);
      }
  }

  /** No key would be moved before an earlier one by the comparator. */
  predicate Ordered(ks: seq<Key>, mode: SortMode) {
    forall i, j :: 0 <= i < j < |ks| ==> Order(mode, ks[i], ks[j]) <= 0
  }

  /** The rows are in comparator order. */
  predicate SortedBy(s: seq<Agent>, mode: SortMode)
    reads s
  {
    Ordered(Keys(s), mode)
  }

  /** What sortedness means for each mode: `score_desc` orders by
      non-increasing total and equal totals by ascending name, `score_asc`
      mirrors the totals, and the name modes order by name alone. */
  lemma SortedMeaning(s: seq<Agent>, mode: SortMode, i: int, j: int)
    requires SortedBy(s, mode) && 0 <= i < j < |s|
    ensures mode == ScoreDesc ==>
      s[i].total >= s[j].total
      && (s[i].total == s[j].total ==> Compare(s[i].record.name, s[j].record.name) <= 0)
    ensures mode == ScoreAsc ==>
      s[i].total <= s[j].total
      && (s[i].total == s[j].total ==> Compare(s[i].record.name, s[j].record.name) <= 0)
    ensures mode == NameAsc ==> Compare(s[i].record.name, s[j].record.name) <= 0
    ensures mode == NameDesc ==> Compare(s[j].record.name, s[i].record.name) <= 0
  {
    assert Order(mode, Keys(s)[i], Keys(s)[j]) <= 0;
  }

  /** The first `n` keys are in comparator order. */
  predicate SortedPrefix(ks: seq<Key>, mode: SortMode, n: int) {
    forall p, q :: 0 <= p < q < n && q < |ks| ==> Order(mode, ks[p], ks[q]) <= 0
  }

  /** While key `j` travels left through the first `i + 1` keys: every other
      pair among them is in order, and key `j` goes no later than the keys
      already passed. */
  predicate Inserting(ks: seq<Key>, mode: SortMode, i: int, j: int) {
    && 0 <= j <= i < |ks|
    && (forall p, q :: 0 <= p < q <= i && p != j && q != j ==> Order(mode, ks[p], ks[q]) <= 0)
    && (forall q :: j < q <= i ==> Order(mode, ks[j], ks[q]) <= 0)
  }

  lemma StartInserting(ks: seq<Key>, mode: SortMode, i: int)
    requires 0 <= i < |ks| && SortedPrefix(ks, mode, i)
    ensures Inserting(ks, mode, i, i)
  {
  }

  /** Swapping key `j` with an earlier key that should follow it keeps the
      insertion invariant one position further left. */
  lemma InsertingStep(ks: seq<Key>, mode: SortMode, i: int, j: int)
    requires Inserting(ks, mode, i, j) && j > 0 && Order(mode, ks[j - 1], ks[j]) > 0
    ensures Inserting(ks[j - 1 := ks[j]][j := ks[j - 1]], mode, i, j - 1)
  {
    var t := ks[j - 1 := ks[j]][j := ks[j - 1]];
    OrderAntisymmetric(mode, ks[j - 1], ks[j]);
    forall p, q | 0 <= p < q <= i && p != j - 1 && q != j - 1
      ensures Order(mode, t[p], t[q]) <= 0
    {
      if q == j {
        assert t[q] == ks[j - 1] && t[p] == ks[p];
      } else if p == j {
        assert t[p] == ks[j - 1] && t[q] == ks[q];
      } else {
        assert t[p] == ks[p] && t[q] == ks[q];
      }
    }
  }

  /** Once key `j` is no earlier than its left neighbour, the first `i + 1`
      keys are in order. */
  lemma StopInserting(ks: seq<Key>, mode: SortMode, i: int, j: int)
    requires Inserting(ks, mode, i, j)
    requires j == 0 || Order(mode, ks[j - 1], ks[j]) <= 0
    ensures SortedPrefix(ks, mode, i + 1)
  {
    forall p, q | 0 <= p < q < i + 1 && q < |ks| ensures Order(mode, ks[p], ks[q]) <= 0 {
      if q == j && p < j - 1 {
        OrderTransitive(mode, ks[p], ks[j - 1], ks[j]);
      }
    }
  }

  /** One step of insertion: row `j` changes places with its left
      neighbour. */
  method SwapBack(a: array<Agent>, mode: SortMode, i: int, j: int)
    requires Inserting(Keys(a[..]), mode, i, j) && j > 0 && Cmp(mode, a[j - 1], a[j]) > 0
    modifies a
    ensures Inserting(Keys(a[..]), mode, i, j - 1)
    ensures multiset(a[..]) == old(multiset(a[..]))
  {
    ghost var s := a[..];
    ghost var ks := Keys(s);
    InsertingStep(ks, mode, i, j);
    a[j - 1], a[j] := a[j], a[j - 1];
    assert a[..] == s[j - 1 := s[j]][j := s[j - 1]];
    assert Keys(a[..]) == ks[j - 1 := ks[j]][j := ks[j - 1]];
  }

  /** One pass of insertion sort: row `i` moves left past the rows that
      should follow it. */
  method InsertRow(a: array<Agent>, mode: SortMode, i: int)
    requires 0 <= i < a.Length && SortedPrefix(Keys(a[..]), mode, i)
    modifies a
    ensures SortedPrefix(Keys(a[..]), mode, i + 1)
    ensures multiset(a[..]) == old(multiset(a[..]))
  {
    StartInserting(Keys(a[..]), mode, i);
    var j := i;
    while j > 0 && Cmp(mode, a[j - 1], a[j]) > 0
      invariant Inserting(Keys(a[..]), mode, i, j)
      invariant multiset(a[..]) == old(multiset(a[..]))
    {
      SwapBack(a, mode, i, j);
      j := j - 1;
    }
    StopInserting(Keys(a[..]), mode, i, j);
  }

  /** `rows.sort(comparator)`: afterwards the rows are in comparator order and
      are the same rows as before. (The sort is insertion sort, which, like
      the engine's, is stable; stability is not stated.) */
  method SortRows(a: array<Agent>, mode: SortMode)
    modifies a
    ensures SortedBy(a[..], mode)
    ensures multiset(a[..]) == old(multiset(a[..]))
  {
    var i := 0;
    while i < a.Length
      invariant 0 <= i <= a.Length
      invariant SortedPrefix(Keys(a[..]), mode, i)
      invariant multiset(a[..]) == old(multiset(a[..]))
    {
      InsertRow(a, mode, i);
      i := i + 1;
    }
  }
}
