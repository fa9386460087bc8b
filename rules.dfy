/** The rules index of the rules page (src/components/Rules/Rules.tsx): every
    configured rule is given an anchor, the search box narrows the rules shown,
    and every rule shown carries a number of at least two digits. */
module Rules {
  import opened Text
  import opened Slug
  import opened RichText

  // ---------------------------------------------------------------------------
  // Rules and anchors
  // ---------------------------------------------------------------------------

  /** The `id` of a rule as the configuration can give it: a string or an
      integer. */
  datatype RuleId = TextId(text: string) | NumId(value: int)

  /** One configured rule; a field the entry lacks is `None`. An entry that is
      `null` reads the same as one with no fields (`r?.id`, `{ ...null }`). */
  datatype Rule = Rule(id: Option<RuleId>, title: Option<string>, description: Option<string>)

  /** A rule with the field `_anchor` added (`{ ...r, _anchor }`). */
  datatype IndexedRule = IndexedRule(rule: Rule, anchor: string)

  const AnchorPrefix: string := "regla-"

  /** The title used when a rule has none (`r?.title ?? 'regla'`). */
  const FallbackTitle: string := "regla"

  /** `r?.id` in a condition: an empty string and the number zero are false. */
  predicate IsTruthy(id: Option<RuleId>)
    ensures IsTruthy(id) ==> id.Some? && IdText(id.value) != []
    ensures id.Some? && id.value.TextId? ==> (IsTruthy(id) <==> IdText(id.value) != [])
  {
    match id
    case None => false
    case Some(TextId(t)) => t != []
    case Some(NumId(n)) => n != 0
  }

  /** `String(id)`. */
  function IdText(id: RuleId): (t: string)
    ensures id.TextId? ==> t == id.text
    ensures id.NumId? && id.value >= 0 ==> AllDigits(t) && ParseDecimal(t) == id.value
    ensures id.NumId? ==> t != []
  {
    match id
    case TextId(t) => t
    case NumId(n) => IntToDecimal(n)
  }

  /** What follows `"regla-"` in a rule's anchor: its id when that is truthy,
      and otherwise the slug of its title, or of `"regla"` when it has none. */
  function AnchorBase(r: Rule): (b: string)
    ensures IsTruthy(r.id) ==> b == IdText(r.id.value) && b != []
    ensures !IsTruthy(r.id) ==> forall i :: 0 <= i < |b| ==> IsSlugChar(b[i])
  {
    if IsTruthy(r.id) then IdText(r.id.value) else Slugify(r.title.GetOr(FallbackTitle))
  }

  /** The anchor of a rule: `regla-${base}`. Without a truthy id it is a
      fragment of a URL: nothing but lower-case letters, digits and dashes. */
  function Anchor(r: Rule): (a: string)
    ensures StartsWith(a, AnchorPrefix)
    ensures !IsTruthy(r.id) ==> forall i :: |AnchorPrefix| <= i < |a| ==> IsSlugChar(a[i])
  {
    AnchorPrefix + AnchorBase(r)
  }

  /** One prepared rule, `{ ...r, _anchor }`: the rule unchanged, with its
      anchor added. */
  function Indexed(r: Rule): (e: IndexedRule)
    ensures e.rule == r && e.anchor == Anchor(r)
    ensures StartsWith(e.anchor, AnchorPrefix)
  {
    IndexedRule(r, Anchor(r))
  }

  /** The prepared rules (`siteConfig.rules || []` mapped): one entry per rule,
      in order, each the rule unchanged with its anchor added. */
  function BuildIndex(rules: Option<seq<Rule>>): (index: seq<IndexedRule>)
    ensures rules.None? ==> index == []
    ensures rules.Some? ==> |index| == |rules.value|
    ensures rules.Some? ==> forall k :: 0 <= k < |index| ==>
      index[k].rule == rules.value[k] && index[k].anchor == Anchor(rules.value[k])
  {
    var list := rules.GetOr([]);
    seq(|list|, k requires 0 <= k < |list| => Indexed(list[k]))
  }

  /** A truthy id decides the anchor, whatever the title. */
  lemma AnchorOfId(r: Rule, title: Option<string>)
    requires IsTruthy(r.id)
    ensures Anchor(r) == AnchorPrefix + IdText(r.id.value)
    ensures Anchor(r.(title := title)) == Anchor(r)
  {}

  /** A positive numeric id can be read back from the anchor. */
  lemma AnchorOfNumericId(r: Rule, n: int)
    requires r.id == Some(NumId(n)) && n > 0
    ensures AllDigits(Anchor(r)[|AnchorPrefix|..])
    ensures ParseDecimal(Anchor(r)[|AnchorPrefix|..]) == n
  {
    assert Anchor(r)[|AnchorPrefix|..] == NatToDecimal(n);
    ParseNatToDecimal(n);
  }

  /** Without a truthy id, the anchor is the slug of the title, or of
      `"regla"` when the title is missing. */
  lemma AnchorOfTitle(r: Rule)
    requires !IsTruthy(r.id)
    ensures r.title.Some? ==> Anchor(r) == AnchorPrefix + Slugify(r.title.value)
    ensures r.title.None? ==> Anchor(r) == AnchorPrefix + Slugify(FallbackTitle)
  {}

  /** An untitled rule without an id is anchored at `"regla-regla"`. */
  lemma AnchorOfUntitled(r: Rule)
    requires !IsTruthy(r.id) && r.title.None?
    ensures Anchor(r) == AnchorPrefix + FallbackTitle
  {
    SlugifyRegla();
  }

  /** `??` keeps an empty title, whose slug is empty. */
  lemma AnchorOfEmptyTitle(r: Rule)
    requires !IsTruthy(r.id) && r.title == Some("")
    ensures Anchor(r) == "regla-"
  {
    SlugifyEmpty();
  }

  /** Titles that differ only in letter case give the same anchor. */
  lemma AnchorIgnoresTitleCase(r: Rule, title: string)
    requires !IsTruthy(r.id) && r.title == Some(title)
    ensures Anchor(r.(title := Some(Lower(title)))) == Anchor(r)
  {
    SlugifyIgnoresCase(title);
  }

  lemma AnchorOfSlugTitle(r: Rule)
    requires !IsTruthy(r.id) && r.title.Some?
    ensures Anchor(r.(title := Some(Slugify(r.title.value)))) == Anchor(r)
  {
    SlugifyIdempotent(r.title.value);
  }

  /** Anchors are not unique: two rules with the same title and no id share
      one. */
  lemma DuplicateAnchors()
    ensures var r := Rule(None, Some("A"), None);
      var index := BuildIndex(Some([r, r]));
      |index| == 2 && index[0].anchor == index[1].anchor == AnchorPrefix + "a"
  {
    SlugifyA();
  }

  lemma AnchorOfTextIdExample()
    ensures Anchor(Rule(Some(TextId("5")), Some("Robo"), None)) == "regla-5"
  {}

  lemma AnchorOfZeroIdExample()
    ensures Anchor(Rule(Some(NumId(0)), Some("A"), None)) == AnchorPrefix + "a"
  {
    SlugifyA();
  }

  lemma AnchorOfTitleExample()
    ensures Anchor(Rule(None, Some("No Combat Logging"), None)) == AnchorPrefix + "no-combat-logging"
  {
    SlugifyNoCombatLogging();
  }

  // ---------------------------------------------------------------------------
  // The search filter
  // ---------------------------------------------------------------------------

  /** `query.trim().toLowerCase()`. */
  function NormalizeQuery(query: string): (q: string)
    ensures q == [] <==> AllSpace(query)
    ensures forall i :: 0 <= i < |q| ==> !IsUpper(q[i])
  {
    TrimEmptyIffBlank(query);
    Lower(Trim(query))
  }

  /** `String(field ?? '').toLowerCase()`. */
  function SearchText(field: Option<string>): (t: string)
    ensures field.None? ==> t == []
    ensures |t| == |field.GetOr("")|
    ensures forall i :: 0 <= i < |t| ==> !IsUpper(t[i])
  {
    Lower(field.GetOr(""))
  }

  /** The test of the filter, for a query already normalized. */
  predicate Matches(r: Rule, q: string)
    ensures q == [] ==> Matches(r, q)
    ensures Matches(r, q) ==> |q| <= |SearchText(r.title)| || |q| <= |SearchText(r.description)|
  {
    Includes(SearchText(r.title), q) || Includes(SearchText(r.description), q)
  }

  /** `index.filter(r => Matches(r, q))`. */
  function KeepMatching(index: seq<IndexedRule>, q: string): (kept: seq<IndexedRule>)
    ensures |kept| <= |index|
    ensures forall k :: 0 <= k < |kept| ==> kept[k] in index && Matches(kept[k].rule, q)
    decreases |index|
  {
    if index == [] then []
    else
      var last := index[|index| - 1];
      KeepMatching(index[..|index| - 1], q) + (if Matches(last.rule, q) then [last] else [])
  }

  /** The rules shown for a search query: all of them when the normalized
      query is empty, the matching ones otherwise. */
  function Filter(index: seq<IndexedRule>, query: string): (shown: seq<IndexedRule>)
    ensures AllSpace(query) ==> shown == index
    ensures |shown| <= |index|
    ensures forall k :: 0 <= k < |shown| ==> shown[k] in index
  {
    var q := NormalizeQuery(query);
    if q == [] then index else KeepMatching(index, q)
  }

  /** The positions of the matching rules, in increasing order: a reference
      for what the filter keeps. */
  function MatchPositions(index: seq<IndexedRule>, q: string): (pos: seq<nat>)
    ensures forall j :: 0 <= j < |pos| ==> pos[j] < |index|
    ensures forall i, j :: 0 <= i < j < |pos| ==> pos[i] < pos[j]
    ensures forall k :: 0 <= k < |index| ==> (k in pos <==> Matches(index[k].rule, q))
    decreases |index|
  {
    if index == [] then []
    else
      var rest := MatchPositions(index[..|index| - 1], q);
      if Matches(index[|index| - 1].rule, q) then rest + [|index| - 1] else rest
  }

  /** The filter keeps exactly the rules at the matching positions, in the
      order of the index. */
  lemma {:induction false} KeepMatchingSelects(index: seq<IndexedRule>, q: string)
    ensures |KeepMatching(index, q)| == |MatchPositions(index, q)|
    ensures forall j :: 0 <= j < |KeepMatching(index, q)| ==>
      KeepMatching(index, q)[j] == index[MatchPositions(index, q)[j]]
    decreases |index|
  {
    if index != [] {
      var init := index[..|index| - 1];
      KeepMatchingSelects(init, q);
      SelectsLast(index, q);
    }
  }

  /** One step of the induction: the last rule is added to both or to
      neither. */
  lemma SelectsLast(index: seq<IndexedRule>, q: string)
    requires index != []
    requires var init := index[..|index| - 1];
      |KeepMatching(init, q)| == |MatchPositions(init, q)|
      && forall j :: 0 <= j < |KeepMatching(init, q)| ==>
        KeepMatching(init, q)[j] == init[MatchPositions(init, q)[j]]
    ensures |KeepMatching(index, q)| == |MatchPositions(index, q)|
    ensures forall j :: 0 <= j < |KeepMatching(index, q)| ==>
      KeepMatching(index, q)[j] == index[MatchPositions(index, q)[j]]
  {
    var init := index[..|index| - 1];
    var last := index[|index| - 1];
    var kept := KeepMatching(init, q);
    var pos := MatchPositions(init, q);
    forall j | 0 <= j < |pos| ensures init[pos[j]] == index[pos[j]] {}
    if Matches(last.rule, q) {
      assert KeepMatching(index, q) == kept + [last];
      assert MatchPositions(index, q) == pos + [|index| - 1];
    } else {
      assert KeepMatching(index, q) == kept;
      assert MatchPositions(index, q) == pos;
    }
  }

  /** A query of nothing but white space, the empty one included, shows every
      rule; any other query goes through the filter. */
  lemma FilterBlankQuery(index: seq<IndexedRule>, query: string)
    ensures NormalizeQuery(query) == [] <==> AllSpace(query)
    ensures AllSpace(query) ==> Filter(index, query) == index
  {
    TrimEmptyIffBlank(query);
  }

  /** For any other query, the rules shown are those of the index whose title
      or description contains the normalized query, in the order of the index. */
  lemma FilterSelects(index: seq<IndexedRule>, query: string)
    requires !AllSpace(query)
    ensures var shown := Filter(index, query);
      var pos := MatchPositions(index, NormalizeQuery(query));
      |shown| == |pos| && forall j :: 0 <= j < |shown| ==> shown[j] == index[pos[j]]
  {
    FilterBlankQuery(index, query);
    KeepMatchingSelects(index, NormalizeQuery(query));
  }

  /** A rule of the index is shown exactly when it matches. */
  lemma FilterMembership(index: seq<IndexedRule>, query: string, x: IndexedRule)
    requires !AllSpace(query)
    ensures x in Filter(index, query) <==> x in index && Matches(x.rule, NormalizeQuery(query))
  {
    var q := NormalizeQuery(query);
    FilterSelects(index, query);
    if x in index && Matches(x.rule, q) {
      var k :| 0 <= k < |index| && index[k] == x;
      var pos := MatchPositions(index, q);
      var j :| 0 <= j < |pos| && pos[j] == k;
      assert Filter(index, query)[j] == x;
    }
  }

  /** Filtering the shown rules again with the same query changes nothing. */
  lemma {:induction false} KeepMatchingIdempotent(index: seq<IndexedRule>, q: string)
    ensures KeepMatching(KeepMatching(index, q), q) == KeepMatching(index, q)
    decreases |index|
  {
    if index != [] {
      var init := index[..|index| - 1];
      var last := index[|index| - 1];
      var kept := KeepMatching(index, q);
      KeepMatchingIdempotent(init, q);
      if Matches(last.rule, q) {
        assert kept[..|kept| - 1] == KeepMatching(init, q);
      } else {
        assert kept == KeepMatching(init, q);
      }
    }
  }

  lemma FilterIdempotent(index: seq<IndexedRule>, query: string)
    ensures Filter(Filter(index, query), query) == Filter(index, query)
  {
    KeepMatchingIdempotent(index, NormalizeQuery(query));
  }

  /** Strings equal up to letter case begin with as much white space. */
  lemma LeadingSpaceUnderLower(s: string, t: string)
    requires Lower(s) == Lower(t)
    ensures LeadingSpace(s) == LeadingSpace(t)
    ensures TrailingSpace(s) == TrailingSpace(t)
  {
    assert |s| == |Lower(s)| == |t|;
    forall i | 0 <= i < |s| ensures IsSpace(s[i]) <==> IsSpace(t[i]) {
      assert Lower(s)[i] == Lower(t)[i];
      SpaceUnderLower(s[i], t[i]);
    }
  }

  lemma TrimUnderLower(s: string, t: string)
    requires Lower(s) == Lower(t)
    ensures Lower(Trim(s)) == Lower(Trim(t))
  {
    LeadingSpaceUnderLower(s, t);
    var l := LeadingSpace(s);
    LowerOfSuffix(s, l);
    LowerOfSuffix(t, l);
    LeadingSpaceUnderLower(s[l..], t[l..]);
    SameTrimUnderLower(s, t);
  }

  lemma LowerOfSuffix(s: string, l: nat)
    requires l <= |s|
    ensures Lower(s[l..]) == Lower(s)[l..]
  {}

  lemma SameTrimUnderLower(s: string, t: string)
    requires Lower(s) == Lower(t)
    requires |Trim(s)| == |Trim(t)| && LeadingSpace(s) == LeadingSpace(t)
    ensures Lower(Trim(s)) == Lower(Trim(t))
  {
    var l := LeadingSpace(s);
    var a := Trim(s);
    var b := Trim(t);
    forall i | 0 <= i < |a| ensures Lower(a)[i] == Lower(b)[i] {
      assert a[i] == s[l + i] && b[i] == t[l + i];
      assert Lower(s)[l + i] == Lower(t)[l + i];
    }
  }

  /** Queries that differ only in letter case show the same rules. */
  lemma FilterIgnoresCase(index: seq<IndexedRule>, q1: string, q2: string)
    requires Lower(q1) == Lower(q2)
    ensures Filter(index, q1) == Filter(index, q2)
  {
    TrimUnderLower(q1, q2);
  }

  /** White space around a query does not change the rules shown. */
  lemma FilterIgnoresPadding(index: seq<IndexedRule>, w1: string, query: string, w2: string)
    requires AllSpace(w1) && AllSpace(w2)
    ensures Filter(index, w1 + query + w2) == Filter(index, query)
  {
    TrimIgnoresPadding(w1, query, w2);
  }

  // ---------------------------------------------------------------------------
  // What the page shows
  // ---------------------------------------------------------------------------

  /** The number shown for the rule at position `i`:
      `String(i + 1).padStart(2, '0')`. It is at least two digits long, and it
      reads as `i + 1`. */
  function Label(i: nat): (l: string)
    ensures |l| >= 2 && AllDigits(l)
    ensures ParseDecimal(l) == i + 1
  {
    var d := NatToDecimal(i + 1);
    ParseNatToDecimal(i + 1);
    ParseLeadingZeros(|PadStart(d, 2, '0')| - |d|, d);
    assert PadStart(d, 2, '0') == Repeat('0', |PadStart(d, 2, '0')| - |d|) + d;
    PadStart(d, 2, '0')
  }

  /** Different positions are shown with different numbers. */
  lemma LabelInjective(i: nat, j: nat)
    requires Label(i) == Label(j)
    ensures i == j
  {}

  /** The first nine numbers are a zero and one digit; the others are the
      plain decimal numeral. */
  lemma LabelForm(i: nat)
    ensures i < 9 ==> Label(i) == ['0', DigitChar(i + 1)]
    ensures i >= 9 ==> Label(i) == NatToDecimal(i + 1)
  {
    if i >= 9 {
      assert NatToDecimal(i + 1) == NatToDecimal((i + 1) / 10) + [DigitChar((i + 1) % 10)];
    }
  }

  /** A link of the sidebar: its number, the fragment it points to and the
      title of the rule. */
  datatype NavEntry = NavEntry(number: string, href: string, title: Option<string>)

  /** A card of the content area: its number, its element id, the title and
      the blocks of the description (`String(rule.description || '')`). */
  datatype Card = Card(number: string, id: string, title: Option<string>, body: seq<Block>)

  /** The sidebar lists every rule, numbered over the whole index. */
  function Sidebar(index: seq<IndexedRule>): (nav: seq<NavEntry>)
    ensures |nav| == |index|
    ensures forall k :: 0 <= k < |nav| ==> nav[k].number == Label(k)
    ensures forall k :: 0 <= k < |nav| ==> AllDigits(nav[k].number) && ParseDecimal(nav[k].number) == k + 1
    ensures forall k :: 0 <= k < |nav| ==> nav[k].href == "#" + index[k].anchor
    ensures forall k :: 0 <= k < |nav| ==> nav[k].title == index[k].rule.title
  {
    seq(|index|, k requires 0 <= k < |index| =>
      NavEntry(Label(k), "#" + index[k].anchor, index[k].rule.title))
  }

  /** The card of the rule `r` shown at position `k`. */
  function CardOf(r: IndexedRule, k: nat): (c: Card)
    ensures c.number == Label(k)
    ensures AllDigits(c.number) && ParseDecimal(c.number) == k + 1
    ensures c.id == r.anchor && c.title == r.rule.title
    ensures c.body == Render(r.rule.description.GetOr(""))
  {
    Card(Label(k), r.anchor, r.rule.title, Render(r.rule.description.GetOr("")))
  }

  /** The cards for a list of shown rules, numbered over that list. */
  function Cards(shown: seq<IndexedRule>): (cards: seq<Card>)
    ensures |cards| == |shown|
    ensures forall k :: 0 <= k < |cards| ==> cards[k].number == Label(k)
    ensures forall k :: 0 <= k < |cards| ==>
      cards[k].id == shown[k].anchor && cards[k].title == shown[k].rule.title
      && cards[k].body == Render(shown[k].rule.description.GetOr(""))
  {
    seq(|shown|, k requires 0 <= k < |shown| => CardOf(shown[k], k))
  }

  /** The content area shows the filtered rules, numbered over what is shown. */
  function Content(index: seq<IndexedRule>, query: string): (cards: seq<Card>)
    ensures |cards| == |Filter(index, query)|
    ensures forall k :: 0 <= k < |cards| ==> cards[k].number == Label(k)
    ensures forall k :: 0 <= k < |cards| ==> AllDigits(cards[k].number) && ParseDecimal(cards[k].number) == k + 1
    ensures forall k :: 0 <= k < |cards| ==>
      var r := Filter(index, query)[k];
      cards[k].id == r.anchor && cards[k].title == r.rule.title
      && cards[k].body == Render(r.rule.description.GetOr(""))
  {
    Cards(Filter(index, query))
  }

  /** With a blank query, the content area shows every rule under the same
      number and anchor as its sidebar link. */
  lemma ContentMatchesSidebar(index: seq<IndexedRule>, query: string)
    requires AllSpace(query)
    ensures |Content(index, query)| == |Sidebar(index)|
    ensures forall k :: 0 <= k < |Sidebar(index)| ==>
      Content(index, query)[k].number == Sidebar(index)[k].number
      && "#" + Content(index, query)[k].id == Sidebar(index)[k].href
  {
    FilterBlankQuery(index, query);
  }

  // ---------------------------------------------------------------------------
  // A small index, searched
  // ---------------------------------------------------------------------------

  const PvpRule: Rule := Rule(Some(TextId("1")), Some("PvP Zones"), Some("x"))
  const CombateRule: Rule := Rule(Some(TextId("2")), Some("Regla 1"), Some("combate"))

  lemma SampleIndex()
    ensures BuildIndex(Some([PvpRule, CombateRule]))
      == [IndexedRule(PvpRule, "regla-1"), IndexedRule(CombateRule, "regla-2")]
  {
    var index := BuildIndex(Some([PvpRule, CombateRule]));
    AnchorOfId(PvpRule, PvpRule.title);
    AnchorOfId(CombateRule, CombateRule.title);
    assert IdText(TextId("1")) == "1" && IdText(TextId("2")) == "2";
    assert index[0] == IndexedRule(PvpRule, "regla-1");
    assert index[1] == IndexedRule(CombateRule, "regla-2");
  }

  lemma QueryPvp()
    ensures NormalizeQuery("PVP") == "pvp"
  {
    TrimOfTrimmed("PVP");
  }

  /** A query with white space in front normalizes as the rest does. */
  lemma NormalizePadded(w: string, q: string)
    requires AllSpace(w)
    ensures NormalizeQuery(w + q) == NormalizeQuery(q)
  {
    TrimIgnoresPadding(w, q, "");
    assert w + q + "" == w + q;
  }

  lemma QueryCombPlain()
    ensures NormalizeQuery("comb") == "comb"
  {
    TrimOfTrimmed("comb");
    LowerOfLower("comb");
  }

  lemma QueryComb()
    ensures NormalizeQuery(" comb") == "comb"
  {
    assert " " + "comb" == " comb";
    NormalizePadded(" ", "comb");
    QueryCombPlain();
  }

  /** The lower-cased fields of the two sample rules. */
  lemma SampleSearchText()
    ensures SearchText(PvpRule.title) == "pvp zones" && SearchText(PvpRule.description) == "x"
    ensures SearchText(CombateRule.title) == "regla 1" && SearchText(CombateRule.description) == "combate"
  {
    assert Lower("PvP Zones") == "pvp zones" && Lower("Regla 1") == "regla 1";
    LowerOfLower("x");
    LowerOfLower("combate");
  }

  lemma PvpMatchesPvp()
    ensures Matches(PvpRule, "pvp")
  {
    SampleSearchText();
    assert StartsWith("pvp zones", "pvp");
  }

  lemma CombateFieldsLackPvp()
    ensures !Includes("regla 1", "pvp") && !Includes("combate", "pvp")
  {
    IncludesNeedsFirst("regla 1", "pvp");
    IncludesNeedsFirst("combate", "pvp");
  }

  lemma MissesBoth(r: Rule, q: string, t: string, d: string)
    requires SearchText(r.title) == t && SearchText(r.description) == d
    requires !Includes(t, q) && !Includes(d, q)
    ensures !Matches(r, q)
  {}

  lemma CombateMissesPvp()
    ensures !Matches(CombateRule, "pvp")
  {
    SampleSearchText();
    CombateFieldsLackPvp();
    MissesBoth(CombateRule, "pvp", "regla 1", "combate");
  }

  lemma MatchesPvp()
    ensures Matches(PvpRule, "pvp") && !Matches(CombateRule, "pvp")
  {
    PvpMatchesPvp();
    CombateMissesPvp();
  }

  lemma PvpMissesComb()
    ensures !Matches(PvpRule, "comb")
  {
    SampleSearchText();
    IncludesNeedsFirst("pvp zones", "comb");
    IncludesNeedsFirst("x", "comb");
  }

  lemma CombateMatchesComb()
    ensures Matches(CombateRule, "comb")
  {
    SampleSearchText();
    assert StartsWith("combate", "comb");
  }

  lemma MatchesComb()
    ensures !Matches(PvpRule, "comb") && Matches(CombateRule, "comb")
  {
    PvpMissesComb();
    CombateMatchesComb();
  }

  /** The search ignores letter case: `"PVP"` finds the rule titled
      `"PvP Zones"`. */
  lemma FilterPvpExample(index: seq<IndexedRule>)
    requires index == BuildIndex(Some([PvpRule, CombateRule]))
    ensures Filter(index, "PVP") == [index[0]]
  {
    SampleIndex();
    QueryPvp();
    MatchesPvp();
    assert KeepMatching(index[..1], "pvp") == [index[0]];
  }

  /** A rule can be found by its description alone. */
  lemma FilterCombExample(index: seq<IndexedRule>)
    requires index == BuildIndex(Some([PvpRule, CombateRule]))
    ensures Filter(index, " comb") == [index[1]]
  {
    SampleIndex();
    QueryComb();
    MatchesComb();
    assert KeepMatching(index[..1], "comb") == [];
  }

  /** The content area numbers what it shows: the second rule of the sidebar,
      `"02"` there, is card `"01"` when it is the only match. */
  lemma ContentRenumbers(index: seq<IndexedRule>)
    requires index == BuildIndex(Some([PvpRule, CombateRule]))
    ensures Sidebar(index)[1].number == ['0', '2']
    ensures |Content(index, " comb")| == 1
    ensures Content(index, " comb")[0].number == ['0', '1']
    ensures Content(index, " comb")[0].id == Sidebar(index)[1].href[1..]
  {
    FilterCombExample(index);
    LabelForm(0);
    LabelForm(1);
  }
}
