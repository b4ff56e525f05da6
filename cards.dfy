/**
 * The render arithmetic and the card (assets/js/navigator.js, lines 5, 80 and
 * 85-125): clamping, the readiness percentage, the result-count wording, the
 * tag chips, the links and the escaped values of one card. A card is modelled
 * as the record of the values the HTML template interpolates, not as HTML.
 */
module Cards {
  import opened Wrappers
  import opened Text
  import opened Escape
  import opened Agents

  // ------------------------------------------------------------- arithmetic

  /** `clamp` (line 5): `n` pulled into the range from `lo` to `hi`. */
  function Clamp(n: int, lo: int, hi: int): (r: int)
    ensures lo <= r
    ensures lo <= hi ==> r <= hi
    ensures lo <= n <= hi ==> r == n
    ensures n < lo ==> r == lo
    ensures lo <= hi < n ==> r == hi
  {
    var m := if hi < n then hi else n;
    if m < lo then lo else m
  }

  /** `Math.round` on an exact value: halves round up. */
  function Round(x: real): int {
    (x + 0.5).Floor
  }

  /** For an integer total the rounded percentage of the 25-point scale is
      exactly four times the total. */
  lemma RoundedShareIsFourTimes(t: int)
    ensures Round(t as real / 25.0 * 100.0) == 4 * t
  {
    assert t as real / 25.0 * 100.0 == (4 * t) as real;
  }

  /** The width of the readiness bar (line 92): the total's rounded share of
      25, as a percentage, clamped to 0-100. */
  function Percent(t: int): int {
    Clamp(Round(t as real / 25.0 * 100.0), 0, 100)
  }

  /** The bar never leaves 0-100, is 4 points per total point on the nominal
      scale, and is full for any total of 25 or more. */
  lemma PercentBounds(t: int)
    ensures 0 <= Percent(t) <= 100
    ensures 0 <= t <= 25 ==> Percent(t) == 4 * t
    ensures 25 <= t ==> Percent(t) == 100
    ensures t <= 0 ==> Percent(t) == 0
  {
    RoundedShareIsFourTimes(t);
  }

  // ------------------------------------------------------------ count text

  predicate EndsWith(s: string, suffix: string) {
    |suffix| <= |s| && s[|s| - |suffix|..] == suffix
  }

  /** The count line (line 80): the number of rows in decimal, then the word
      "result", plural unless there is exactly one row. */
  function CountText(n: nat): string {
    NatToString(n) + " result" + (if n == 1 then "" else "s")
  }

  /** The count reads in the singular exactly for one result, in the plural
      otherwise, zero included. */
  lemma CountTextWording(n: nat)
    ensures EndsWith(CountText(n), " result") <==> n == 1
    ensures EndsWith(CountText(n), " results") <==> n != 1
  {
    var r := CountText(n);
    var d := NatToString(n);
    if n == 1 {
      assert r == d + " result";
      assert r[|r| - 7..] == " result";
      assert !EndsWith(r, " results") by {
        if |r| >= 8 { assert r[|r| - 1] == 't'; }
      }
    } else {
      assert r == d + " results";
      assert r[|r| - 8..] == " results";
      assert r[|r| - 7..] != " result" by { assert r[|r| - 1] == 's'; }
    }
  }

  /** The count text starts with the decimal numeral of `n`, followed by a
      space. */
  lemma CountTextNumeral(n: nat)
    ensures
      var k := |NatToString(n)|;
      && k < |CountText(n)|
      && CountText(n)[k] == ' '
      && (forall i :: 0 <= i < k ==> IsDigit(CountText(n)[i]))
      && ParseDecimal(CountText(n)[..k]) == n
  {
    var r := CountText(n);
    var k := |NatToString(n)|;
    assert r[..k] == NatToString(n);
    DecimalRoundTrip(n);
  }

  // ------------------------------------------------------------ card parts

  function Min(a: int, b: int): int {
    if a < b then a else b
  }

  /** `escapeHtml` applied to each element. */
  function EscapeAll(s: seq<string>): (r: seq<string>)
    ensures |r| == |s|
    ensures forall i :: 0 <= i < |s| ==> r[i] == EscapeHtml(s[i])
  {
    seq(|s|, i requires 0 <= i < |s| => EscapeHtml(s[i]))
  }

  /** The tag chips: the first three deployments, then the first three
      sectors (`slice(0, 3)` on each list). */
  function Tags(a: AgentRecord): seq<string> {
    EscapeAll(a.Deployments()[..Min(3, |a.Deployments()|)])
      + EscapeAll(a.Sectors()[..Min(3, |a.Sectors()|)])
  }

  /** At most three chips per group: one per leading deployment, then one per
      leading sector, in order. */
  lemma TagsCapped(a: AgentRecord)
    ensures
      var nd, ns := Min(3, |a.Deployments()|), Min(3, |a.Sectors()|);
      && |Tags(a)| == nd + ns <= 6
      && (forall i :: 0 <= i < nd ==> Tags(a)[i] == EscapeHtml(a.Deployments()[i]))
      && (forall i :: 0 <= i < ns ==> Tags(a)[nd + i] == EscapeHtml(a.Sectors()[i]))
  {
  }

  /** The "Profile" link target, present only for a truthy `profile_url`. */
  function ProfileLink(a: AgentRecord): (r: Option<string>)
    ensures r.Some? <==> a.profileUrl.Some? && a.profileUrl.value != []
    ensures r.Some? ==> r.value == EscapeAttr(a.profileUrl.value)
  {
    match a.profileUrl
    case Some(url) => if url == [] then None else Some(EscapeAttr(url))
    case None => None
  }

  /** The values interpolated into one card. `total` is the raw total, which
      is not clamped; only `percent` is. */
  datatype Card = Card(
    name: string,
    category: string,
    tier: string,
    badges: seq<string>,
    total: int,
    percent: int,
    brief: string,
    tags: seq<string>,
    website: string,
    profile: Option<string>)

  /** The card of one annotated row. */
  function CardOf(a: Agent): Card
    reads a
  {
    var r := a.record;
    Card(
      EscapeHtml(r.name),
      EscapeHtml(r.category),
      EscapeHtml(a.tier.Label()),
      EscapeAll(r.Badges()),
      a.total,
      Percent(a.total),
      EscapeHtml(r.sentinelBrief.GetOr("")),
      Tags(r),
      EscapeAttr(r.website.GetOr("")),
      ProfileLink(r))
  }

  /** The cards of a row list, one per row, in row order. */
  function CardsOf(s: seq<Agent>): seq<Card>
    reads s
  {
    if s == [] then [] else CardsOf(s[..|s| - 1]) + [CardOf(s[|s| - 1])]
  }

  lemma {:induction false} CardsOfLength(s: seq<Agent>)
    ensures |CardsOf(s)| == |s|
    decreases |s|
  {
    if s != [] {
      CardsOfLength(s[..|s| - 1]);
    }
  }

  /** Card `k` is the card of row `k`. */
  lemma {:induction false} CardsOfIndex(s: seq<Agent>, k: int)
    requires 0 <= k < |s|
    ensures |CardsOf(s)| == |s|
    ensures CardsOf(s)[k] == CardOf(s[k])
    decreases |s|
  {
    var init := s[..|s| - 1];
    assert CardsOf(s) == CardsOf(init) + [CardOf(s[|s| - 1])];
    if k < |s| - 1 {
      CardsOfIndex(init, k);
      assert init[k] == s[k];
    } else {
      CardsOfLength(init);
    }
  }

  /** Every tag chip is escaped text. */
  lemma TagsInert(r: AgentRecord)
    ensures forall i :: 0 <= i < |Tags(r)| ==> Inert(Tags(r)[i])
  {
    var d := EscapeAll(r.Deployments()[..Min(3, |r.Deployments()|)]);
    var e := EscapeAll(r.Sectors()[..Min(3, |r.Sectors()|)]);
    assert Tags(r) == d + e;
    forall i | 0 <= i < |d + e| ensures Inert((d + e)[i]) {
      if i < |d| {
        assert (d + e)[i] == d[i];
      } else {
        assert (d + e)[i] == e[i - |d|];
      }
    }
  }

  /** No text on a card can open markup or leave an attribute, whatever the
      record holds. */
  lemma CardIsInert(a: Agent)
    ensures var c := CardOf(a);
      && Inert(c.name) && Inert(c.category) && Inert(c.tier) && Inert(c.brief)
      && (forall i :: 0 <= i < |c.badges| ==> Inert(c.badges[i]))
      && (forall i :: 0 <= i < |c.tags| ==> Inert(c.tags[i]))
      && Inert(c.website) && '`' !in c.website
      && (c.profile.Some? ==> Inert(c.profile.value) && '`' !in c.profile.value)
  {
    var c := CardOf(a);
    TagsInert(a.record);
    assert c.tags == Tags(a.record);
    assert c.badges == EscapeAll(a.record.Badges());
  }

  /** A card shows the record's own text: read back, the escaped fields are
      the name, the category and the tier label, and the bar is the clamped
      percentage of the annotated total. */
  lemma CardShowsRecord(a: Agent)
    ensures Unescape(CardOf(a).name) == a.record.name
    ensures Unescape(CardOf(a).category) == a.record.category
    ensures Unescape(CardOf(a).tier) == a.tier.Label()
    ensures forall i :: 0 <= i < |a.record.Badges()| ==>
      Unescape(CardOf(a).badges[i]) == a.record.Badges()[i]
    ensures CardOf(a).total == a.total && 0 <= CardOf(a).percent <= 100
  {
    EscapeHtmlRoundTrip(a.record.name);
    EscapeHtmlRoundTrip(a.record.category);
    EscapeHtmlRoundTrip(a.tier.Label());
    forall i | 0 <= i < |a.record.Badges()|
      ensures Unescape(CardOf(a).badges[i]) == a.record.Badges()[i]
    {
      EscapeHtmlRoundTrip(a.record.Badges()[i]);
    }
    PercentBounds(a.total);
  }
}
