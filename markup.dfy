/**
 * The publication card both scripts write into `publications.html`, as a
 * structured value rather than template text: the venue line, the badges,
 * the citation, the optional DOI line and the row of links.
 */
module Markup {
  import opened Wrappers

  /** One `<a href=...>label</a>` of a card's link row; `download` marks the BibTeX file link. */
  datatype Anchor = Anchor(text: string, href: string, download: bool)

  /** `<p class="pub-doi">DOI: <a href=href>text</a></p>`. */
  datatype DoiLine = DoiLine(text: string, href: string)

  /**
   * A rendered card. `yearBadge` and `mutedBadge` are "" when the badge is
   * not emitted.
   */
  datatype CardView = CardView(
    where: string,
    yearBadge: string,
    mutedBadge: string,
    cite: string,
    doiLine: Option<DoiLine>,
    links: seq<Anchor>)

  /** `<h3 class="pub-year">year</h3>` followed by its cards. */
  datatype YearGroup = YearGroup(year: string, cards: seq<CardView>)

  /**
   * The `{label: href}` dict a reader builds from a card's anchors: the href
   * of the last anchor with that text, "" when there is none.
   */
  function HrefOf(links: seq<Anchor>, text: string): (r: string)
  {
    if links == [] then ""
    else if links[|links| - 1].text == text then links[|links| - 1].href
    else HrefOf(links[..|links| - 1], text)
  }

  /** With no anchor carrying the text the lookup finds nothing. */
  lemma {:induction false} HrefOfMissing(links: seq<Anchor>, text: string)
    requires forall i :: 0 <= i < |links| ==> links[i].text != text
    ensures HrefOf(links, text) == ""
    decreases |links|
  {
    if links != [] {
      HrefOfMissing(links[..|links| - 1], text);
    }
  }

  /** The lookup returns the href of the last anchor carrying the text. */
  lemma {:induction false} HrefOfLast(links: seq<Anchor>, text: string, i: nat)
    requires i < |links| && links[i].text == text
    requires forall j :: i < j < |links| ==> links[j].text != text
    ensures HrefOf(links, text) == links[i].href
    decreases |links|
  {
    if i < |links| - 1 {
      var init := links[..|links| - 1];
      assert init[i] == links[i];
      HrefOfLast(init, text, i);
    }
  }
}
