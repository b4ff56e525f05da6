/**
 * The filter index builder (assets/js/navigator.js, lines 18-25): the
 * distinct, non-empty, sorted option lists for the category, deployment and
 * sector selectors.
 */
module FilterOptions {
  import opened Text
  import opened Agents

  predicate Distinct(s: seq<string>) {
    forall i, j :: 0 <= i < j < |s| ==> s[i] != s[j]
  }

  /** Ordered by the comparator that `uniqueSorted` passes to `sort`. */
  predicate Sorted(s: seq<string>) {
    forall i, j :: 0 <= i < j < |s| ==> Compare(s[i], s[j]) <= 0
  }

  predicate StrictlySorted(s: seq<string>) {
    forall i, j :: 0 <= i < j < |s| ==> Compare(s[i], s[j]) < 0
  }

  /** `[...new Set(values)]`: each value once, at its first occurrence. */
  function Dedup(s: seq<string>): (r: seq<string>)
    ensures Distinct(r)
    ensures forall x :: x in r <==> x in s
  {
    if s == [] then []
    else
      var d := Dedup(s[..|s| - 1]);
      assert forall x :: x in s <==> x in s[..|s| - 1] || x == s[|s| - 1];
      if s[|s| - 1] in d then d else d + [s[|s| - 1]]
  }

  lemma {:induction false} NonEmptyDistinct(s: seq<string>)
    requires Distinct(s)
    ensures Distinct(NonEmpty(s))
  {
    if s != [] {
      NonEmptyDistinct(s[1..]);
      assert s[0] !in s[1..];
    }
  }

  /** `y` sorts no later than any element of `s`. */
  predicate LowerBound(y: string, s: seq<string>) {
    forall j :: 0 <= j < |s| ==> Compare(y, s[j]) <= 0
  }

  lemma SortedCons(y: string, s: seq<string>)
    requires LowerBound(y, s) && Sorted(s)
    ensures Sorted([y] + s)
  {
    var r := [y] + s;
    forall i, j | 0 <= i < j < |r| ensures Compare(r[i], r[j]) <= 0 {
      if i > 0 { assert r[i] == s[i - 1] && r[j] == s[j - 1]; }
      else { assert r[j] == s[j - 1]; }
    }
  }

  /** One step of insertion sort. */
  function Insert(x: string, s: seq<string>): (r: seq<string>)
    ensures multiset(r) == multiset(s) + multiset{x}
    ensures forall y :: y in r <==> y == x || y in s
  {
    if s == [] then [x]
    else if Compare(x, s[0]) <= 0 then [x] + s
    else
      assert s == [s[0]] + s[1..];
      [s[0]] + Insert(x, s[1..])
  }

  lemma {:induction false} InsertSorted(x: string, s: seq<string>)
    requires Sorted(s)
    ensures Sorted(Insert(x, s))
  {
    if s == [] {
    } else if Compare(x, s[0]) <= 0 {
      forall j | 0 <= j < |s| ensures Compare(x, s[j]) <= 0 {
        if j > 0 { CompareTransitive(x, s[0], s[j]); }
      }
      SortedCons(x, s);
    } else {
      var t := Insert(x, s[1..]);
      InsertSorted(x, s[1..]);
      CompareAntisymmetric(x, s[0]);
      forall j | 0 <= j < |t| ensures Compare(s[0], t[j]) <= 0 {
        assert t[j] in t;
        if t[j] != x {
          var k :| 0 <= k < |s[1..]| && s[1..][k] == t[j];
          assert s[k + 1] == t[j];
        }
      }
      SortedCons(s[0], t);
    }
  }

  /** The comparator sort of `uniqueSorted` (line 19), as insertion sort. */
  function SortStrings(s: seq<string>): (r: seq<string>)
    ensures Sorted(r)
    ensures multiset(r) == multiset(s)
  {
    if s == [] then []
    else
      var t := SortStrings(s[1..]);
      assert s == [s[0]] + s[1..];
      InsertSorted(s[0], t);
      Insert(s[0], t)
  }

  lemma {:induction false} DistinctCountsOnce(s: seq<string>, x: string)
    requires Distinct(s)
    ensures multiset(s)[x] <= 1
  {
    if s != [] {
      assert s == [s[0]] + s[1..];
      assert s[0] !in s[1..];
      DistinctCountsOnce(s[1..], x);
    }
  }

  lemma RepeatCountsTwice(s: seq<string>, i: int, j: int)
    requires 0 <= i < j < |s| && s[i] == s[j]
    ensures multiset(s)[s[i]] >= 2
  {
    assert s == s[..j] + [s[j]] + s[j + 1..];
    assert s[i] in s[..j];
  }

  /** A sorted permutation of a list without repeats is strictly sorted. */
  lemma SortedDistinctIsStrict(r: seq<string>, s: seq<string>)
    requires Sorted(r) && Distinct(s) && multiset(r) == multiset(s)
    ensures StrictlySorted(r)
  {
    forall i, j | 0 <= i < j < |r| ensures Compare(r[i], r[j]) < 0 {
      if r[i] == r[j] {
        RepeatCountsTwice(r, i, j);
        DistinctCountsOnce(s, r[i]);
      }
    }
  }

  /** `uniqueSorted`: strictly sorted (so without repeats), no empty value,
      and holding exactly the non-empty input values. */
  function UniqueSorted(values: seq<string>): (r: seq<string>)
    ensures StrictlySorted(r)
    ensures [] !in r
    ensures forall x :: x in r <==> x in values && x != []
  {
    var d := NonEmpty(Dedup(values));
    var r := SortStrings(d);
    NonEmptyDistinct(Dedup(values));
    SortedDistinctIsStrict(r, d);
    assert forall x :: x in r <==> x in multiset(d);
    assert forall x :: x in multiset(d) <==> x in d;
    r
  }

  /** In a strictly sorted list, the head is the only occurrence of itself
      and sorts before everything after it. */
  lemma StrictHead(a: seq<string>, x: string)
    requires StrictlySorted(a) && a != [] && x in a
    ensures x == a[0] || Compare(a[0], x) < 0
    ensures x in a[1..] <==> x != a[0]
  {
    var i :| 0 <= i < |a| && a[i] == x;
    if i > 0 {
      assert a[1..][i - 1] == x;
    }
    if x in a[1..] {
      var j :| 0 <= j < |a[1..]| && a[1..][j] == x;
      assert Compare(a[0], a[j + 1]) < 0;
    }
  }

  /** Two strictly sorted lists with the same values start alike. */
  lemma SameHead(a: seq<string>, b: seq<string>)
    requires StrictlySorted(a) && StrictlySorted(b) && a != [] && b != []
    requires forall x :: x in a <==> x in b
    ensures a[0] == b[0]
  {
    assert a[0] in a && b[0] in b;
    StrictHead(a, b[0]);
    StrictHead(b, a[0]);
    CompareAntisymmetric(a[0], b[0]);
  }

  /** Only one list is strictly sorted and holds a given set of values, so
      `uniqueSorted` does not depend on the sorting algorithm. */
  lemma {:induction false} StrictlySortedUnique(a: seq<string>, b: seq<string>)
    requires StrictlySorted(a) && StrictlySorted(b)
    requires forall x :: x in a <==> x in b
    ensures a == b
    decreases |a|
  {
    assert a != [] ==> a[0] in a;
    assert b != [] ==> b[0] in b;
    if a != [] && b != [] {
      SameHead(a, b);
      forall x ensures x in a[1..] <==> x in b[1..] {
        if x in a[1..] || x in b[1..] {
          assert x in a && x in b;
          StrictHead(a, x);
          StrictHead(b, x);
        }
      }
      StrictlySortedUnique(a[1..], b[1..]);
      assert a == [a[0]] + a[1..] && b == [b[0]] + b[1..];
    }
  }

  // ------------------------------------------------------------ buildFilters

  /** The category of every entry, in entry order (line 23). */
  function Categories(agents: seq<Agent>): (r: seq<string>)
    ensures forall x :: x in r <==> exists i :: 0 <= i < |agents| && agents[i].record.category == x
  {
    if agents == [] then []
    else
      var r := [agents[0].record.category] + Categories(agents[1..]);
      assert forall i :: 1 <= i < |agents| ==> agents[i] == agents[1..][i - 1];
      r
  }

  /** All entries' deployments, concatenated in entry order (line 24). */
  function AllDeployments(agents: seq<Agent>): (r: seq<string>)
    ensures forall x :: x in r <==> exists i :: 0 <= i < |agents| && x in agents[i].record.Deployments()
  {
    if agents == [] then []
    else
      var r := agents[0].record.Deployments() + AllDeployments(agents[1..]);
      assert forall i :: 1 <= i < |agents| ==> agents[i] == agents[1..][i - 1];
      r
  }

  /** All entries' sectors, concatenated in entry order (line 25). */
  function AllSectors(agents: seq<Agent>): (r: seq<string>)
    ensures forall x :: x in r <==> exists i :: 0 <= i < |agents| && x in agents[i].record.Sectors()
  {
    if agents == [] then []
    else
      var r := agents[0].record.Sectors() + AllSectors(agents[1..]);
      assert forall i :: 1 <= i < |agents| ==> agents[i] == agents[1..][i - 1];
      r
  }

  /** The three option lists, before they become `<option>` elements. */
  datatype Options = Options(categories: seq<string>, deployments: seq<string>, sectors: seq<string>)

  /** The option derivation of `buildFilters`: each list is strictly sorted and
      offers exactly the non-empty values some agent carries, so the implicit
      "all" choice (the empty value) is never among them. */
  function BuildFilters(agents: seq<Agent>): (r: Options)
    ensures StrictlySorted(r.categories) && StrictlySorted(r.deployments) && StrictlySorted(r.sectors)
    ensures forall x :: x in r.categories <==>
      x != [] && exists i :: 0 <= i < |agents| && agents[i].record.category == x
    ensures forall x :: x in r.deployments <==>
      x != [] && exists i :: 0 <= i < |agents| && x in agents[i].record.Deployments()
    ensures forall x :: x in r.sectors <==>
      x != [] && exists i :: 0 <= i < |agents| && x in agents[i].record.Sectors()
  {
    Options(UniqueSorted(Categories(agents)), UniqueSorted(AllDeployments(agents)), UniqueSorted(AllSectors(agents)))
  }
}
