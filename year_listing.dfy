/**
 * `_render_list` of the repair pass: the cards that survive the exclusion
 * filter and carry an all-digit year are rebuilt and grouped by year, and
 * the groups are listed newest first, each holding its cards in page order.
 */
module YearListing {
  import opened Strings
  import opened Seqs
  import opened RepairCards
  import opened CardRebuild
  import opened Markup

  /** `[c for c in cards if not _should_exclude(c)]`. */
  function Kept(cards: seq<Card>): (r: seq<Card>)
    ensures |r| <= |cards|
  {
    if cards == [] then []
    else
      var c := cards[|cards| - 1];
      Kept(cards[..|cards| - 1]) + (if ShouldExclude(c) then [] else [c])
  }

  /** A year that gets a group: all digits and not on the excluded list. */
  predicate GroupedYear(y: string) {
    IsDigits(y) && y !in ExcludeYears
  }

  /** The kept cards whose year gets a group, in order. */
  function Grouped(kept: seq<Card>): (r: seq<Card>)
    ensures |r| <= |kept|
  {
    if kept == [] then []
    else
      var c := kept[|kept| - 1];
      Grouped(kept[..|kept| - 1]) + (if GroupedYear(c.year) then [c] else [])
  }

  /** The cards that appear on the page. */
  function Listed(cards: seq<Card>): seq<Card> {
    Grouped(Kept(cards))
  }

  /** The cards of year `y`, in order. */
  function OfYear(cards: seq<Card>, y: string): (r: seq<Card>)
    ensures |r| <= |cards|
  {
    if cards == [] then []
    else
      var c := cards[|cards| - 1];
      OfYear(cards[..|cards| - 1], y) + (if c.year == y then [c] else [])
  }

  /** The year of every card, in order. */
  function Years(cards: seq<Card>): (r: seq<string>)
    ensures |r| == |cards|
    ensures forall i :: 0 <= i < |cards| ==> r[i] == cards[i].year
  {
    seq(|cards|, i requires 0 <= i < |cards| => cards[i].year)
  }

  /** `int(y)` for an all-digit year; anything else sorts below every year. */
  function YearValue(y: string): int {
    if IsDigits(y) then DigitsValue(y) else -1
  }

  /**
   * The card `rebuild_card` writes, with the pass's sources fixed. The list
   * functions below take the card view as a parameter: what they state
   * holds whatever each card is rebuilt into.
   */
  function ViewOf(src: Sources): Card -> CardView {
    c => RebuiltCard(c, src)
  }

  /** Every card's view, in order. */
  function Views(cards: seq<Card>, view: Card -> CardView): (r: seq<CardView>)
    ensures |r| == |cards|
  {
    if cards == [] then []
    else Views(cards[..|cards| - 1], view) + [view(cards[|cards| - 1])]
  }

  /** The group of each year of `ys` that has cards, in the order of `ys`. */
  function Groups(ys: seq<string>, listed: seq<Card>, view: Card -> CardView): seq<YearGroup> {
    if ys == [] then []
    else
      var y := ys[|ys| - 1];
      var views := Views(OfYear(listed, y), view);
      Groups(ys[..|ys| - 1], listed, view) + (if views == [] then [] else [YearGroup(y, views)])
  }

  /** The years of the page, newest first: the distinct years of the listed cards, stably sorted. */
  function PageYears(cards: seq<Card>): seq<string> {
    SortDesc(Distinct(Years(Listed(cards))), YearValue)
  }

  /** What `_render_list` emits, as year groups. */
  function RenderedList(cards: seq<Card>, view: Card -> CardView): seq<YearGroup> {
    Groups(PageYears(cards), Listed(cards), view)
  }

  // ---------------------------------------------------------------------
  // The loops
  // ---------------------------------------------------------------------

  lemma {:induction false} YearsSnoc(cards: seq<Card>, c: Card)
    ensures Years(cards + [c]) == Years(cards) + [c.year]
  {
  }

  lemma {:induction false} OfYearSnoc(cards: seq<Card>, c: Card, y: string)
    ensures c.year == y ==> OfYear(cards + [c], y) == OfYear(cards, y) + [c]
    ensures c.year != y ==> OfYear(cards + [c], y) == OfYear(cards, y)
  {
    assert (cards + [c])[..|cards|] == cards;
    assert OfYear(cards, y) + [] == OfYear(cards, y);
  }

  lemma {:induction false} ViewsSnoc(cards: seq<Card>, c: Card, view: Card -> CardView)
    ensures Views(cards + [c], view) == Views(cards, view) + [view(c)]
  {
    assert (cards + [c])[..|cards|] == cards;
  }

  lemma {:induction false} GroupedSnoc(kept: seq<Card>, c: Card)
    ensures GroupedYear(c.year) ==> Grouped(kept + [c]) == Grouped(kept) + [c]
    ensures !GroupedYear(c.year) ==> Grouped(kept + [c]) == Grouped(kept)
  {
    assert (kept + [c])[..|kept|] == kept;
    assert Grouped(kept) + [] == Grouped(kept);
  }

  lemma {:induction false} DistinctSnoc(s: seq<string>, x: string)
    ensures Distinct(s + [x]) == if x in Distinct(s) then Distinct(s) else Distinct(s) + [x]
  {
    assert (s + [x])[..|s|] == s;
  }

  /** The year dict and its key order after the cards `g` have been grouped. */
  ghost predicate Filled(g: seq<Card>, byYear: map<string, seq<CardView>>, order: seq<string>, view: Card -> CardView) {
    && order == Distinct(Years(g))
    && (forall y :: y in byYear <==> y in order)
    && (forall y :: y in byYear ==> byYear[y] == Views(OfYear(g, y), view))
  }

  /** `by_year.setdefault(y, []).append(v)`. */
  function AddView(byYear: map<string, seq<CardView>>, y: string, v: CardView): map<string, seq<CardView>> {
    byYear[y := (if y in byYear then byYear[y] else []) + [v]]
  }

  /** The dict's key order after `setdefault(y, ...)`. */
  function AddYear(order: seq<string>, byYear: map<string, seq<CardView>>, y: string): seq<string> {
    if y in byYear then order else order + [y]
  }

  /** Grouping one more card adds its rebuilt view to its year. */
  lemma {:induction false} FillStep(g: seq<Card>, c: Card, byYear: map<string, seq<CardView>>, order: seq<string>, view: Card -> CardView)
    requires Filled(g, byYear, order, view)
    ensures Filled(g + [c], AddView(byYear, c.year, view(c)), AddYear(order, byYear, c.year), view)
  {
    var y := c.year;
    var b := AddView(byYear, y, view(c));
    var o := AddYear(order, byYear, y);
    YearsSnoc(g, c);
    DistinctSnoc(Years(g), y);
    assert o == Distinct(Years(g + [c]));
    assert forall z :: z in b <==> z in o;
    FillViews(g, c, byYear, order, view);
  }

  lemma {:induction false} FillViews(g: seq<Card>, c: Card, byYear: map<string, seq<CardView>>, order: seq<string>, view: Card -> CardView)
    requires Filled(g, byYear, order, view)
    ensures var b := AddView(byYear, c.year, view(c));
      forall z :: z in b ==> b[z] == Views(OfYear(g + [c], z), view)
  {
    var b := AddView(byYear, c.year, view(c));
    forall z | z in b
      ensures b[z] == Views(OfYear(g + [c], z), view)
    {
      if z == c.year {
        OfYearSnoc(g, c, z);
        FillViewOfYear(g, c, byYear, order, view);
      } else {
        FillViewOther(g, c, byYear, order, view, z);
      }
    }
  }

  lemma {:induction false} FillViewOther(g: seq<Card>, c: Card, byYear: map<string, seq<CardView>>, order: seq<string>, view: Card -> CardView, z: string)
    requires Filled(g, byYear, order, view)
    requires z in byYear && z != c.year
    ensures byYear[z] == Views(OfYear(g + [c], z), view)
  {
    OfYearSnoc(g, c, z);
  }

  lemma {:induction false} FillViewOfYear(g: seq<Card>, c: Card, byYear: map<string, seq<CardView>>, order: seq<string>, view: Card -> CardView)
    requires Filled(g, byYear, order, view)
    ensures (if c.year in byYear then byYear[c.year] else []) + [view(c)]
      == Views(OfYear(g, c.year) + [c], view)
  {
    var y := c.year;
    if y !in byYear {
      OfYearNone(g, y);
    }
    ViewsSnoc(OfYear(g, y), c, view);
  }

  /** A year that no card has has no cards. */
  lemma {:induction false} OfYearNone(g: seq<Card>, y: string)
    requires y !in Distinct(Years(g))
    ensures OfYear(g, y) == []
  {
    DistinctProps(Years(g));
    if g != [] {
      var init := g[..|g| - 1];
      assert Years(init) == Years(g)[..|g| - 1];
      DistinctProps(Years(init));
      assert Years(g)[|g| - 1] == g[|g| - 1].year;
      OfYearNone(init, y);
    }
  }

  lemma {:induction false} GroupsSnoc(ys: seq<string>, y: string, listed: seq<Card>, view: Card -> CardView)
    ensures var views := Views(OfYear(listed, y), view);
      && (views != [] ==> Groups(ys + [y], listed, view) == Groups(ys, listed, view) + [YearGroup(y, views)])
      && (views == [] ==> Groups(ys + [y], listed, view) == Groups(ys, listed, view))
  {
    assert (ys + [y])[..|ys|] == ys;
    assert Groups(ys, listed, view) + [] == Groups(ys, listed, view);
  }

  /** One more kept card: skipped when its year gets no group, else added to its year. */
  lemma {:induction false} FillYearsStep(kept: seq<Card>, i: nat, byYear: map<string, seq<CardView>>, order: seq<string>, view: Card -> CardView)
    requires i < |kept| && Filled(Grouped(kept[..i]), byYear, order, view)
    ensures !GroupedYear(kept[i].year) ==> Filled(Grouped(kept[..i + 1]), byYear, order, view)
    ensures GroupedYear(kept[i].year) ==>
      Filled(Grouped(kept[..i + 1]), AddView(byYear, kept[i].year, view(kept[i])), AddYear(order, byYear, kept[i].year), view)
  {
    var c := kept[i];
    PrefixSnoc(kept, i);
    GroupedSnoc(kept[..i], c);
    if GroupedYear(c.year) {
      FillStep(Grouped(kept[..i]), c, byYear, order, view);
    }
  }

  /** The first loop of `_render_list`: the year dict and its key order, filled in card order. */
  method FillYears(kept: seq<Card>, src: Sources) returns (byYear: map<string, seq<CardView>>, order: seq<string>)
    ensures Filled(Grouped(kept), byYear, order, ViewOf(src))
  {
    byYear := map[];
    order := [];
    for i := 0 to |kept|
      invariant Filled(Grouped(kept[..i]), byYear, order, ViewOf(src))
    {
      var c := kept[i];
      FillYearsStep(kept, i, byYear, order, ViewOf(src));
      if c.year != [] && IsDigits(c.year) && c.year !in ExcludeYears {
        var view := RebuildView(c, src);
        var items := if c.year in byYear then byYear[c.year] else [];
        if c.year !in byYear {
          order := order + [c.year];
        }
        byYear := byYear[c.year := items + [view]];
      }
    }
    assert kept[..|kept|] == kept;
  }

  /** `rebuild_card` of one card. */
  method RebuildView(c: Card, src: Sources) returns (view: CardView)
    ensures view == ViewOf(src)(c)
  {
    view := RebuildCard(c, src);
  }

  /** The second loop of `_render_list`: one group per year of `years` that has cards. */
  method EmitGroups(years: seq<string>, byYear: map<string, seq<CardView>>, listed: seq<Card>, view: Card -> CardView)
    returns (groups: seq<YearGroup>)
    requires forall y :: y in years ==> y in byYear && byYear[y] == Views(OfYear(listed, y), view)
    ensures groups == Groups(years, listed, view)
  {
    groups := [];
    var j := 0;
    while j < |years|
      invariant 0 <= j <= |years|
      invariant groups == Groups(years[..j], listed, view)
    {
      var y := years[j];
      PrefixSnoc(years, j);
      GroupsSnoc(years[..j], y, listed, view);
      var items: seq<CardView> := if y in byYear then byYear[y] else [];
      if items != [] {
        groups := groups + [YearGroup(y, items)];
      }
      j := j + 1;
    }
    assert years[..j] == years;
  }

  /** `_render_list`: fills the year dict in card order, then emits the non-empty groups newest first. */
  method RenderList(cards: seq<Card>, src: Sources) returns (groups: seq<YearGroup>)
    ensures groups == RenderedList(cards, ViewOf(src))
  {
    var kept := Kept(cards);
    var byYear, order := FillYears(kept, src);
    var view := ViewOf(src);
    var years := SortDesc(order, YearValue);
    SortDescProps(order, YearValue);
    forall y | y in years
      ensures y in byYear && byYear[y] == Views(OfYear(Grouped(kept), y), view)
    {
      assert y in multiset(years);
    }
    groups := EmitGroups(years, byYear, Grouped(kept), view);
  }

  // ---------------------------------------------------------------------
  // What the page shows
  // ---------------------------------------------------------------------

  /** The cards of year `y` that reach the page, in the order of `cards`. */
  function CardsOfYear(cards: seq<Card>, y: string): (r: seq<Card>)
    ensures |r| <= |cards|
  {
    if cards == [] then []
    else
      var c := cards[|cards| - 1];
      CardsOfYear(cards[..|cards| - 1], y)
        + (if !ShouldExclude(c) && GroupedYear(c.year) && c.year == y then [c] else [])
  }

  lemma {:induction false} KeptSnoc(cards: seq<Card>, c: Card)
    ensures ShouldExclude(c) ==> Kept(cards + [c]) == Kept(cards)
    ensures !ShouldExclude(c) ==> Kept(cards + [c]) == Kept(cards) + [c]
  {
    assert (cards + [c])[..|cards|] == cards;
    assert Kept(cards) + [] == Kept(cards);
  }

  /** One more card is listed exactly when it is kept and its year is grouped. */
  lemma {:induction false} ListedSnoc(cards: seq<Card>, c: Card)
    ensures ShouldExclude(c) || !GroupedYear(c.year) ==> Listed(cards + [c]) == Listed(cards)
    ensures !ShouldExclude(c) && GroupedYear(c.year) ==> Listed(cards + [c]) == Listed(cards) + [c]
  {
    KeptSnoc(cards, c);
    GroupedSnoc(Kept(cards), c);
  }

  /** A card that is excluded, or whose year gets no group, leaves the page as it was. */
  lemma {:induction false} UnlistedCardIgnored(cards: seq<Card>, c: Card, view: Card -> CardView)
    requires ShouldExclude(c) || !GroupedYear(c.year)
    ensures RenderedList(cards + [c], view) == RenderedList(cards, view)
  {
    ListedSnoc(cards, c);
  }

  /** Every listed card is one of the input cards, kept, with a grouped year. */
  lemma {:induction false} ListedFacts(cards: seq<Card>)
    ensures forall c :: c in Listed(cards) ==> c in cards && !ShouldExclude(c) && GroupedYear(c.year)
    decreases |cards|
  {
    if cards != [] {
      var init, c := cards[..|cards| - 1], cards[|cards| - 1];
      PrefixSnoc(cards, |cards| - 1);
      assert cards[..|cards|] == cards;
      ListedFacts(init);
      ListedSnoc(init, c);
    }
  }

  /** A kept card with a grouped year is listed. */
  lemma {:induction false} ListedHas(cards: seq<Card>, i: nat)
    requires i < |cards| && !ShouldExclude(cards[i]) && GroupedYear(cards[i].year)
    ensures cards[i] in Listed(cards)
    decreases |cards|
  {
    var init, c := cards[..|cards| - 1], cards[|cards| - 1];
    PrefixSnoc(cards, |cards| - 1);
    assert cards[..|cards|] == cards;
    ListedSnoc(init, c);
    if i < |init| {
      assert init[i] == cards[i];
      ListedHas(init, i);
      assert Listed(init) <= Listed(cards);
    }
  }

  /** Grouping the listed cards by year picks the listed cards of that year. */
  lemma {:induction false} ListedOfYear(cards: seq<Card>, y: string)
    ensures OfYear(Listed(cards), y) == CardsOfYear(cards, y)
    decreases |cards|
  {
    if cards != [] {
      var init, c := cards[..|cards| - 1], cards[|cards| - 1];
      PrefixSnoc(cards, |cards| - 1);
      assert cards[..|cards|] == cards;
      ListedOfYear(init, y);
      ListedSnoc(init, c);
      OfYearSnoc(Listed(init), c, y);
      assert CardsOfYear(init, y) + [] == CardsOfYear(init, y);
    }
  }

  /** The cards of a year keep the order of the input, and all are kept cards of that year. */
  lemma {:induction false} CardsOfYearFacts(cards: seq<Card>, y: string)
    ensures IsSubsequence(CardsOfYear(cards, y), cards)
    ensures forall c :: c in CardsOfYear(cards, y) ==> !ShouldExclude(c) && GroupedYear(c.year) && c.year == y
    decreases |cards|
  {
    if cards != [] {
      var init, c := cards[..|cards| - 1], cards[|cards| - 1];
      var r := CardsOfYear(cards, y);
      CardsOfYearFacts(init, y);
      if !ShouldExclude(c) && GroupedYear(c.year) && c.year == y {
        assert r[..|r| - 1] == CardsOfYear(init, y);
      } else {
        assert r == CardsOfYear(init, y);
      }
    }
  }

  /** A listed card is among the cards of its year. */
  lemma {:induction false} CardsOfYearHas(cards: seq<Card>, i: nat)
    requires i < |cards| && !ShouldExclude(cards[i]) && GroupedYear(cards[i].year)
    ensures cards[i] in CardsOfYear(cards, cards[i].year)
  {
    ListedHas(cards, i);
    ListedOfYear(cards, cards[i].year);
    OfYearHas(Listed(cards), cards[i]);
  }

  lemma {:induction false} OfYearHas(g: seq<Card>, c: Card)
    requires c in g
    ensures c in OfYear(g, c.year)
    decreases |g|
  {
    var init := g[..|g| - 1];
    assert g == init + [g[|g| - 1]];
    OfYearSnoc(init, g[|g| - 1], c.year);
    if g[|g| - 1] != c {
      OfYearHas(init, c);
    }
  }

  /** Each group is a year of `ys` with its non-empty views. */
  lemma {:induction false} GroupsFacts(ys: seq<string>, listed: seq<Card>, view: Card -> CardView)
    ensures forall k :: 0 <= k < |Groups(ys, listed, view)| ==>
      var g := Groups(ys, listed, view)[k];
      g.year in ys && g.cards == Views(OfYear(listed, g.year), view) && g.cards != []
    decreases |ys|
  {
    if ys != [] {
      var init, y := ys[..|ys| - 1], ys[|ys| - 1];
      assert ys == init + [y];
      GroupsFacts(init, listed, view);
      GroupsSnoc(init, y, listed, view);
    }
  }

  /** Every year of `ys` that has cards gets a group. */
  lemma {:induction false} GroupsHas(ys: seq<string>, listed: seq<Card>, view: Card -> CardView, y: string)
    requires y in ys && OfYear(listed, y) != []
    ensures exists k :: 0 <= k < |Groups(ys, listed, view)| && Groups(ys, listed, view)[k].year == y
    decreases |ys|
  {
    var init, z := ys[..|ys| - 1], ys[|ys| - 1];
    assert ys == init + [z];
    GroupsSnoc(init, z, listed, view);
    var g, gi := Groups(ys, listed, view), Groups(init, listed, view);
    if z == y {
      assert |Views(OfYear(listed, y), view)| > 0;
      assert g == gi + [YearGroup(y, Views(OfYear(listed, y), view))];
      assert g[|gi|].year == y;
    } else {
      GroupsHas(init, listed, view, y);
      var k :| 0 <= k < |gi| && gi[k].year == y;
      assert g[..|gi|] == gi;
      assert g[k] == gi[k];
    }
  }

  /** The year of each group, in order. */
  function GroupYears(gs: seq<YearGroup>): (r: seq<string>)
    ensures |r| == |gs|
    ensures forall k :: 0 <= k < |gs| ==> r[k] == gs[k].year
  {
    seq(|gs|, k requires 0 <= k < |gs| => gs[k].year)
  }

  lemma {:induction false} GroupYearsSnoc(gs: seq<YearGroup>, g: YearGroup)
    ensures GroupYears(gs + [g]) == GroupYears(gs) + [g.year]
  {
  }

  lemma {:induction false} GroupYearsTail(r: seq<string>, s: seq<string>, y: string)
    requires IsSubsequence(r, s)
    ensures IsSubsequence(r, s + [y])
  {
    assert (s + [y])[..|s|] == s;
  }

  /** The groups' years appear in `ys`, in the order of `ys`. */
  lemma {:induction false} GroupYearsSub(ys: seq<string>, listed: seq<Card>, view: Card -> CardView)
    ensures IsSubsequence(GroupYears(Groups(ys, listed, view)), ys)
    decreases |ys|
  {
    if ys != [] {
      var init, y := ys[..|ys| - 1], ys[|ys| - 1];
      assert ys == init + [y];
      GroupYearsSub(init, listed, view);
      GroupsSnoc(init, y, listed, view);
      var g0 := Groups(init, listed, view);
      var views := Views(OfYear(listed, y), view);
      if views != [] {
        GroupYearsSnoc(g0, YearGroup(y, views));
      } else {
        GroupYearsTail(GroupYears(g0), init, y);
      }
    }
  }

  /** The page years are the years of the listed cards, each once, ranks never increasing. */
  lemma {:induction false} PageYearsFacts(cards: seq<Card>)
    ensures forall y :: y in PageYears(cards) <==> y in Years(Listed(cards))
    ensures SortedDesc(PageYears(cards), YearValue)
    ensures NoDup(PageYears(cards))
  {
    var d := Distinct(Years(Listed(cards)));
    DistinctProps(Years(Listed(cards)));
    SortDescProps(d, YearValue);
    NoDupPerm(d, PageYears(cards));
    forall y
      ensures y in PageYears(cards) <==> y in d
    {
      assert y in PageYears(cards) <==> y in multiset(PageYears(cards));
      assert y in d <==> y in multiset(d);
    }
  }

  /** The year groups of the page are listed newest first. */
  lemma {:induction false} RenderedOrdered(cards: seq<Card>, view: Card -> CardView)
    ensures forall i, j :: 0 <= i < j < |RenderedList(cards, view)| ==>
      YearValue(RenderedList(cards, view)[i].year) >= YearValue(RenderedList(cards, view)[j].year)
  {
    var gs := RenderedList(cards, view);
    PageYearsFacts(cards);
    GroupYearsSub(PageYears(cards), Listed(cards), view);
    SubsequenceSorted(GroupYears(gs), PageYears(cards), YearValue);
    assert forall k :: 0 <= k < |gs| ==> GroupYears(gs)[k] == gs[k].year;
  }

  /** Sorted four-digit years without repeats are strictly decreasing. */
  lemma {:induction false} FourDigitStrict(ys: seq<string>)
    requires SortedDesc(ys, YearValue) && NoDup(ys)
    requires forall y :: y in ys ==> IsDigits(y) && |y| == 4
    ensures StrictDesc(ys, YearValue)
  {
    forall i, j | 0 <= i < j < |ys|
      ensures YearValue(ys[i]) > YearValue(ys[j])
    {
      if DigitsValue(ys[i]) == DigitsValue(ys[j]) {
        DigitsValueInjective(ys[i], ys[j]);
      }
    }
  }

  /** With four-digit years on every dated card, no year is shown twice and the order is strict. */
  lemma {:induction false} RenderedStrict(cards: seq<Card>, view: Card -> CardView)
    requires forall i :: 0 <= i < |cards| ==> cards[i].year == [] || |cards[i].year| == 4
    ensures forall i, j :: 0 <= i < j < |RenderedList(cards, view)| ==>
      YearValue(RenderedList(cards, view)[i].year) > YearValue(RenderedList(cards, view)[j].year)
  {
    var ys := PageYears(cards);
    var gs := RenderedList(cards, view);
    PageYearsFacts(cards);
    ListedFacts(cards);
    forall y | y in ys
      ensures IsDigits(y) && |y| == 4
    {
      var l := Listed(cards);
      var m :| 0 <= m < |l| && Years(l)[m] == y;
      assert l[m] in l;
    }
    FourDigitStrict(ys);
    GroupYearsSub(ys, Listed(cards), view);
    SubsequenceStrict(GroupYears(gs), ys, YearValue);
    assert forall k :: 0 <= k < |gs| ==> GroupYears(gs)[k] == gs[k].year;
  }

  /**
   * Each group shows a grouped year and the rebuilt cards of that year that
   * survive exclusion, in page order; no group is empty.
   */
  lemma {:induction false} RenderedGroup(cards: seq<Card>, view: Card -> CardView, k: nat)
    requires k < |RenderedList(cards, view)|
    ensures var g := RenderedList(cards, view)[k];
      && GroupedYear(g.year)
      && g.cards == Views(CardsOfYear(cards, g.year), view)
      && g.cards != []
  {
    var g := RenderedList(cards, view)[k];
    GroupsFacts(PageYears(cards), Listed(cards), view);
    PageYearsFacts(cards);
    ListedFacts(cards);
    ListedOfYear(cards, g.year);
    var l := Listed(cards);
    var m :| 0 <= m < |l| && Years(l)[m] == g.year;
    assert l[m] in l;
  }

  /** A kept card with a grouped year has its year among the page years. */
  lemma {:induction false} YearOnPage(cards: seq<Card>, i: nat)
    requires i < |cards| && !ShouldExclude(cards[i]) && GroupedYear(cards[i].year)
    ensures cards[i].year in PageYears(cards)
  {
    var l := Listed(cards);
    ListedHas(cards, i);
    var m :| 0 <= m < |l| && l[m] == cards[i];
    assert Years(l)[m] == cards[i].year;
    PageYearsFacts(cards);
  }

  /** Every kept card with a grouped year has its year on the page. */
  lemma {:induction false} RenderedComplete(cards: seq<Card>, view: Card -> CardView, i: nat)
    requires i < |cards| && !ShouldExclude(cards[i]) && GroupedYear(cards[i].year)
    ensures exists k :: 0 <= k < |RenderedList(cards, view)| && RenderedList(cards, view)[k].year == cards[i].year
  {
    var y := cards[i].year;
    YearOnPage(cards, i);
    CardsOfYearHas(cards, i);
    ListedOfYear(cards, y);
    assert OfYear(Listed(cards), y) != [];
    GroupsHas(PageYears(cards), Listed(cards), view, y);
    assert RenderedList(cards, view) == Groups(PageYears(cards), Listed(cards), view);
  }
}
