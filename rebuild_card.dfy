/**
 * `rebuild_card` of the repair pass: a card read from the page is written
 * again with its text repaired, its quartile badge resolved, its links
 * de-duplicated, a paper link that is never empty, and a citation line
 * rebuilt from the full author list (read from the card's BibTeX file, or
 * from the best Crossref hit for its title).
 */
module CardRebuild {
  import opened Wrappers
  import opened Strings
  import opened RepairPublications
  import opened RepairCards
  import opened Bibtex
  import opened Crossref
  import opened Markup

  /**
   * What the pass looks up outside the card: the rank table scraped from the
   * group's page (normalised title to badge), the files of the site (path
   * to text, `None` when the file is missing or unreadable), and the
   * Crossref hits returned for a title query.
   */
  datatype Sources = Sources(
    rankMap: map<string, string>,
    files: string -> Option<string>,
    search: string -> seq<Item>)

  // ---------------------------------------------------------------------
  // Text repair
  // ---------------------------------------------------------------------

  /** `_fix_mojibake` as a function. */
  function Fixed(s: string): string {
    ApplyTable(s, MojibakeTable)
  }

  /** The card with its venue, citation, DOI text and badge repaired. */
  function FixedCard(c: Card): Card {
    c.(where := Fixed(c.where), cite := Fixed(c.cite), doi := if c.doi != [] then Fixed(c.doi) else [],
       badge := Fixed(c.badge))
  }

  // ---------------------------------------------------------------------
  // Badge
  // ---------------------------------------------------------------------

  const DoiRankOverrides: map<string, string> := map["10.1017/s0263574708004414" := "Q2"]

  const ManualRanks: map<string, string> := map[
    "dynamic delegation of behavior trees to enhance cooperation in robot teams" := "Q2",
    "towards a robotic intrusion prevention system combining security and safety in cognitive social robots" := "Q1",
    "open source robot localization for nonplanar environments" := "Q2",
    "a visual questioning answering approach to enhance robot localization in indoor environments" := "Q3",
    "regulated pure pursuit for robot path tracking" := "Q2",
    "an autonomous ground robot to support firefighters interventions in indoor emergencies" := "Q2"
  ]

  /** `m.get(key)` with a missing key read as "". */
  function Lookup(m: map<string, string>, key: string): (r: string)
    ensures key !in m ==> r == []
  {
    if key in m then m[key] else ""
  }

  /** The last year the rank table is trusted for. */
  const LastRankedYear: nat := 2022

  /** The rank table's badge for a card of `year`, when the year is all digits and at most 2022. */
  function RankHit(year: string, key: string, rankMap: map<string, string>): Option<string> {
    if IsDigits(year) && DigitsValue(year) <= LastRankedYear && key in rankMap then Some(rankMap[key]) else None
  }

  /**
   * The badge stated by precedence: a rank-table hit, else a curated title
   * override, else a DOI override, else the badge already on the card, else
   * "Q?"; a final "Q?" is dropped.
   */
  function BadgePrecedence(badge: string, doiOverride: string, manual: string, rankHit: Option<string>): string {
    var v :=
      if rankHit.Some? then rankHit.value
      else if manual != [] then manual
      else if doiOverride != [] then doiOverride
      else if badge != [] then badge
      else "Q?";
    if v == "Q?" then "" else v
  }

  /** The badge of a repaired card. */
  function ResolvedBadge(c: Card, rankMap: map<string, string>): string {
    var key := Norm(ExtractTitleFromCite(c.cite));
    BadgePrecedence(c.badge, Lookup(DoiRankOverrides, NormDoiForMatch(c.doi)), Lookup(ManualRanks, key),
      RankHit(c.year, key, rankMap))
  }

  /** The badge steps of `rebuild_card`, each later assignment overriding the earlier ones. */
  method ResolveBadge(c: Card, rankMap: map<string, string>) returns (badge: string)
    ensures badge == ResolvedBadge(c, rankMap)
  {
    badge := c.badge;
    if badge == [] {
      badge := "Q?";
    }
    var doiOverride := Lookup(DoiRankOverrides, NormDoiForMatch(c.doi));
    if doiOverride != [] {
      badge := doiOverride;
    }
    var key := Norm(ExtractTitleFromCite(c.cite));
    var manual := Lookup(ManualRanks, key);
    if manual != [] {
      badge := manual;
    }
    if IsDigits(c.year) && DigitsValue(c.year) <= LastRankedYear {
      if key in rankMap {
        badge := rankMap[key];
      }
    }
    if badge == "Q?" {
      badge := "";
    }
    assert A: badge == BadgePrecedence(c.badge, doiOverride, manual, RankHit(c.year, key, rankMap));
  }

  /** The placeholder "Q?" never reaches the page. */
  lemma {:induction false} BadgeNeverUnknown(badge: string, doiOverride: string, manual: string, rankHit: Option<string>)
    ensures BadgePrecedence(badge, doiOverride, manual, rankHit) != "Q?"
  {
  }

  /** A rank-table hit decides the badge, whatever the overrides say. */
  lemma {:induction false} RankHitWins(badge: string, doiOverride: string, manual: string, hit: string)
    requires hit != "Q?"
    ensures BadgePrecedence(badge, doiOverride, manual, Some(hit)) == hit
  {
  }

  /** Without a rank-table hit, the curated title override beats the DOI override and the old badge. */
  lemma {:induction false} ManualWins(badge: string, doiOverride: string, manual: string)
    requires manual != [] && manual != "Q?"
    ensures BadgePrecedence(badge, doiOverride, manual, None) == manual
  {
  }

  /** With neither a rank-table hit nor a title override, the DOI override beats the old badge. */
  lemma {:induction false} DoiOverrideWins(badge: string, doiOverride: string)
    requires doiOverride != [] && doiOverride != "Q?"
    ensures BadgePrecedence(badge, doiOverride, "", None) == doiOverride
  {
  }

  /** With no override at all the card keeps its badge, "Q?" and "" both becoming "". */
  lemma {:induction false} BadgeKept(badge: string)
    ensures BadgePrecedence(badge, "", "", None) == (if badge == "Q?" then "" else badge)
  {
  }

  /** For a card later than 2022, or without an all-digit year, the rank table is not consulted. */
  lemma {:induction false} RankMapIgnoredAfter2022(c: Card, rankMap: map<string, string>)
    requires !IsDigits(c.year) || DigitsValue(c.year) > LastRankedYear
    ensures ResolvedBadge(c, rankMap) == ResolvedBadge(c, map[])
  {
  }

  /** The Robotica paper of the DOI override gets "Q2" unless a title override or the rank table says otherwise. */
  lemma {:induction false} DoiOverrideApplies(c: Card, rankMap: map<string, string>)
    requires NormDoiForMatch(c.doi) == "10.1017/s0263574708004414"
    requires Norm(ExtractTitleFromCite(c.cite)) !in ManualRanks
    requires RankHit(c.year, Norm(ExtractTitleFromCite(c.cite)), rankMap).None?
    ensures ResolvedBadge(c, rankMap) == "Q2"
  {
  }

  // ---------------------------------------------------------------------
  // Links
  // ---------------------------------------------------------------------

  /**
   * The DOI hyperlink and the separate "Link" of a repaired card, by cases:
   * a landing page that is not a `https://doi.org/` URL takes over the DOI
   * hyperlink; a link that repeats the DOI URL, or is itself a DOI URL, is
   * dropped while there is a DOI hyperlink; otherwise both stay.
   */
  function ResolvedLinks(c: Card): (string, string) {
    if c.doi != [] && c.doiUrl != [] && c.linkUrl != [] && !(DoiUrlPrefix <= c.linkUrl) then
      (c.linkUrl, "")
    else if c.doiUrl != [] && c.linkUrl != [] && (Strip(c.linkUrl) == Strip(c.doiUrl) || DoiUrlPrefix <= c.linkUrl) then
      (c.doiUrl, "")
    else
      (c.doiUrl, c.linkUrl)
  }

  /** The link steps of `rebuild_card`. */
  method ResolveLinks(c: Card) returns (doiUrl: string, link: string)
    ensures (doiUrl, link) == ResolvedLinks(c)
  {
    link := c.linkUrl;
    doiUrl := c.doiUrl;
    if c.doi != [] && doiUrl != [] && link != [] && !(DoiUrlPrefix <= link) {
      doiUrl := link;
      link := "";
    }
    if doiUrl != [] && link != [] && Strip(link) == Strip(doiUrl) {
      link := "";
    }
    if doiUrl != [] && link != [] && DoiUrlPrefix <= link {
      link := "";
    }
  }

  /** While there is a DOI hyperlink, a surviving "Link" neither repeats it nor is a DOI URL. */
  lemma {:induction false} LinkNotRedundant(c: Card)
    requires ResolvedLinks(c).0 != [] && ResolvedLinks(c).1 != []
    ensures Strip(ResolvedLinks(c).1) != Strip(ResolvedLinks(c).0)
    ensures !(DoiUrlPrefix <= ResolvedLinks(c).1)
  {
    var r := ResolvedLinks(c);
    assert r.1 == c.linkUrl && r.0 == c.doiUrl;
  }

  /** A landing page beside a DOI becomes the DOI hyperlink and the separate link goes. */
  lemma {:induction false} LandingPageMoves(c: Card)
    requires c.doi != [] && c.doiUrl != [] && c.linkUrl != [] && !(DoiUrlPrefix <= c.linkUrl)
    ensures ResolvedLinks(c) == (c.linkUrl, "")
  {
  }

  /** The DOI hyperlink is only ever the card's own DOI URL or its landing page, and present iff the DOI URL was. */
  lemma {:induction false} LinksComeFromCard(c: Card)
    ensures ResolvedLinks(c).0 == c.doiUrl || ResolvedLinks(c).0 == c.linkUrl
    ensures ResolvedLinks(c).1 == c.linkUrl || ResolvedLinks(c).1 == []
    ensures ResolvedLinks(c).0 != [] <==> c.doiUrl != []
  {
  }

  /** The paper link: the card's own, else the resolved link, the original DOI URL, the Scholar page, or "#". */
  function PaperFor(c: Card, link: string): string {
    FirstNonEmpty([c.paperUrl, link, c.doiUrl, c.scholarUrl, "#"])
  }

  /** The paper link is never empty, and is the first entry of its fallback chain that is set. */
  lemma {:induction false} PaperNeverEmpty(c: Card, link: string)
    ensures PaperFor(c, link) != []
    ensures c.paperUrl != [] ==> PaperFor(c, link) == c.paperUrl
    ensures c.paperUrl == [] && link != [] ==> PaperFor(c, link) == link
    ensures c.paperUrl == [] && link == [] && c.doiUrl != [] ==> PaperFor(c, link) == c.doiUrl
    ensures c.paperUrl == [] && link == [] && c.doiUrl == [] && c.scholarUrl != [] ==> PaperFor(c, link) == c.scholarUrl
    ensures c.paperUrl == [] && link == [] && c.doiUrl == [] && c.scholarUrl == [] ==> PaperFor(c, link) == "#"
  {
    var xs := [c.paperUrl, link, c.doiUrl, c.scholarUrl, "#"];
    FirstNonEmptyEmpty(xs);
    assert xs[4] != [];
    if c.paperUrl != [] {
      FirstNonEmptyAt(xs, 0);
    } else if link != [] {
      FirstNonEmptyAt(xs, 1);
    } else if c.doiUrl != [] {
      FirstNonEmptyAt(xs, 2);
    } else if c.scholarUrl != [] {
      FirstNonEmptyAt(xs, 3);
    } else {
      FirstNonEmptyAt(xs, 4);
    }
  }

  // ---------------------------------------------------------------------
  // Authors and the citation line
  // ---------------------------------------------------------------------

  /** `_authors_from_bibtex_href`: the names of the card's BibTeX file, [] when there is no readable file. */
  function BibtexHrefAuthors(files: string -> Option<string>, href: string): seq<string> {
    match BibtexPath(href)
    case None => []
    case Some(path) =>
      match files(path)
      case None => []
      case Some(text) => BibAuthors(text)
  }

  /** The author list before repair: from BibTeX, else from the best Crossref hit for the title. */
  function AuthorList(c: Card, title: string, src: Sources): seq<string> {
    var bib := BibtexHrefAuthors(src.files, c.bibtexUrl);
    if bib != [] then bib
    else
      match BestMatch(Norm, title, c.year, src.search(title))
      case None => []
      case Some(it) => AuthorNames(it.authors)
  }

  /** Every name repaired. */
  function FixedAll(names: seq<string>): (r: seq<string>)
    ensures |r| == |names|
    ensures forall i :: 0 <= i < |names| ==> r[i] == Fixed(names[i])
  {
    seq(|names|, i requires 0 <= i < |names| => Fixed(names[i]))
  }

  /** The repair leaves a list of ASCII names as it is. */
  lemma {:induction false} FixedAllAscii(names: seq<string>)
    requires forall k, i :: 0 <= k < |names| && 0 <= i < |names[k]| ==> IsAscii(names[k][i])
    ensures FixedAll(names) == names
  {
    forall k | 0 <= k < |names|
      ensures Fixed(names[k]) == names[k]
    {
      FixMojibakeAscii(names[k]);
    }
  }

  /** The non-blank names of `_format_author_list`, whitespace cleaned. */
  function CleanNames(names: seq<string>): (r: seq<string>)
    ensures |r| <= |names|
  {
    if names == [] then []
    else
      var rest := CleanNames(names[1..]);
      if !IsBlank(names[0]) then [CleanSpaces(names[0])] + rest else rest
  }

  /** A name as the author list shows it: non-empty, with single spaces only between words. */
  predicate ShownName(s: string) {
    s != [] && IsCleanText(s)
  }

  lemma {:induction false} CleanName(n: string)
    requires !IsBlank(n)
    ensures ShownName(CleanSpaces(n))
  {
    CleanSpacesNonBlank(n);
    CleanSpacesShape(n);
  }

  /** Every listed name is non-empty clean text. */
  lemma {:induction false} CleanNamesShape(names: seq<string>)
    ensures forall i :: 0 <= i < |CleanNames(names)| ==> ShownName(CleanNames(names)[i])
  {
    if names != [] {
      CleanNamesShape(names[1..]);
      var rest := CleanNames(names[1..]);
      if !IsBlank(names[0]) {
        CleanName(names[0]);
        var r := [CleanSpaces(names[0])] + rest;
        assert CleanNames(names) == r;
        forall i | 0 <= i < |r|
          ensures ShownName(r[i])
        {
          if i > 0 {
            assert r[i] == rest[i - 1];
          }
        }
      }
    }
  }

  /** The list is empty exactly when every input name is blank. */
  lemma {:induction false} CleanNamesEmpty(names: seq<string>)
    ensures CleanNames(names) == [] <==> forall i :: 0 <= i < |names| ==> IsBlank(names[i])
  {
    if names != [] {
      CleanNamesEmpty(names[1..]);
      assert forall i :: 1 <= i < |names| ==> names[i] == names[1..][i - 1];
    }
  }

  /** `_format_author_list`. */
  function FormatAuthorList(names: seq<string>): string {
    Join(CleanNames(names), ", ")
  }

  /** The characters `strip(" ,")` removes. */
  const AuthorTrim: set<char> := {' ', ','}

  /** The author text of the citation line: the formatted list, else the one read from the old line, without "...". */
  function CiteAuthors(names: seq<string>, cite: string): string {
    var a := if names != [] then FormatAuthorList(names) else ExtractAuthorsFromCite(cite);
    if a != [] then StripChars(Replace(a, "...", ""), AuthorTrim) else a
  }

  /** The citation line: rebuilt when both an author text and a title are known, else kept. */
  function RebuiltCite(authors: string, title: string, c: Card): string {
    if authors != [] && title != [] then CiteLine(authors, title, c.where) else c.cite
  }

  /** The link row: Link and Scholar when known, BibTeX (a download, or "#"), Paper, and a "#" Video. */
  function LinkRow(link: string, scholar: string, bibtex: string, paper: string): seq<Anchor> {
    (if link != [] then [Anchor("Link", link, false)] else [])
    + (if scholar != [] then [Anchor("Scholar", scholar, false)] else [])
    + [if bibtex != [] then Anchor("BibTeX", bibtex, true) else Anchor("BibTeX", "#", false)]
    + [Anchor("Paper", paper, false), Anchor("Video", "#", false)]
  }

  /** The citation line of a repaired card `c`. */
  function CiteOf(c: Card, src: Sources): string {
    var title := ExtractTitleFromCite(c.cite);
    RebuiltCite(CiteAuthors(FixedAll(AuthorList(c, title, src)), c.cite), title, c)
  }

  /** The DOI line: shown when the card has a DOI and a DOI hyperlink. */
  function DoiLineOf(c: Card, doiUrl: string): Option<DoiLine> {
    if c.doi != [] && doiUrl != [] then Some(DoiLine(c.doi, doiUrl)) else None
  }

  /** The card `rebuild_card` writes. */
  function RebuiltCard(card: Card, src: Sources): CardView {
    var c := FixedCard(card);
    var links := ResolvedLinks(c);
    CardView(
      c.where,
      c.year,
      ResolvedBadge(c, src.rankMap),
      CiteOf(c, src),
      DoiLineOf(c, links.0),
      LinkRow(links.1, c.scholarUrl, c.bibtexUrl, PaperFor(c, links.1)))
  }

  /** `_authors_from_bibtex_href`, reading the file through `files`. */
  method AuthorsFromBibtexHref(files: string -> Option<string>, href: string) returns (names: seq<string>)
    ensures names == BibtexHrefAuthors(files, href)
  {
    var path := BibtexPath(href);
    if path.None? {
      return [];
    }
    var text := files(path.value);
    if text.None? {
      return [];
    }
    names := ParseBibtexAuthors(text.value);
  }

  /** `[_fix_mojibake(a) for a in names]`. */
  method FixNames(names: seq<string>) returns (out: seq<string>)
    ensures out == FixedAll(names)
  {
    out := [];
    var i := 0;
    while i < |names|
      invariant 0 <= i <= |names|
      invariant |out| == i
      invariant forall k :: 0 <= k < i ==> out[k] == Fixed(names[k])
    {
      var n := FixMojibake(names[i]);
      out := out + [n];
      i := i + 1;
    }
  }

  /** The text repairs of `rebuild_card`. */
  method RepairText(card: Card) returns (c: Card)
    ensures c == FixedCard(card)
  {
    var where := FixMojibake(card.where);
    var cite := FixMojibake(card.cite);
    var doi := "";
    if card.doi != [] {
      doi := FixMojibake(card.doi);
    }
    var badge := FixMojibake(card.badge);
    c := card.(where := where, cite := cite, doi := doi, badge := badge);
  }

  /** The author and citation steps of `rebuild_card`. */
  method RebuildCite(c: Card, src: Sources) returns (citeLine: string)
    ensures citeLine == CiteOf(c, src)
  {
    var title := ExtractTitleFromCite(c.cite);
    var names := AuthorsFromBibtexHref(src.files, c.bibtexUrl);
    if names == [] {
      var best := BestMatch(Norm, title, c.year, src.search(title));
      names := AuthorsFromCrossref(best);
    }
    assert names == AuthorList(c, title, src);
    names := FixNames(names);

    var citeAuthors := if names != [] then FormatAuthorList(names) else ExtractAuthorsFromCite(c.cite);
    if citeAuthors != [] {
      citeAuthors := StripChars(Replace(citeAuthors, "...", ""), AuthorTrim);
    }
    assert citeAuthors == CiteAuthors(names, c.cite);
    citeLine := c.cite;
    if citeAuthors != [] && title != [] {
      citeLine := CiteLine(citeAuthors, title, c.where);
    }
  }

  /** `rebuild_card`, step by step. */
  method RebuildCard(card: Card, src: Sources) returns (view: CardView)
    ensures view == RebuiltCard(card, src)
  {
    var c := RepairText(card);
    var badge := ResolveBadge(c, src.rankMap);
    var doiUrl, link := ResolveLinks(c);

    var paper := c.paperUrl;
    if paper == [] {
      paper := FirstNonEmpty([link, c.doiUrl, c.scholarUrl, "#"]);
    }
    assert paper == PaperFor(c, link);

    var citeLine := RebuildCite(c, src);

    var doiLine: Option<DoiLine> := None;
    if c.doi != [] && doiUrl != [] {
      doiLine := Some(DoiLine(c.doi, doiUrl));
    }
    view := CardView(c.where, c.year, badge, citeLine, doiLine, LinkRow(link, c.scholarUrl, c.bibtexUrl, paper));
  }

  // ---------------------------------------------------------------------
  // What a reader of the rebuilt card finds
  // ---------------------------------------------------------------------

  /**
   * Reading the link row back as the page reader does (label to href, last
   * wins) finds the Scholar page, the BibTeX file (or "#"), the paper link
   * and the surviving landing page.
   */
  lemma {:induction false} LinkRowReadBack(link: string, scholar: string, bibtex: string, paper: string)
    ensures HrefOf(LinkRow(link, scholar, bibtex, paper), "Link") == link
    ensures HrefOf(LinkRow(link, scholar, bibtex, paper), "Scholar") == scholar
    ensures HrefOf(LinkRow(link, scholar, bibtex, paper), "BibTeX") == (if bibtex != [] then bibtex else "#")
    ensures HrefOf(LinkRow(link, scholar, bibtex, paper), "Paper") == paper
  {
    var row := LinkRow(link, scholar, bibtex, paper);
    var n := |row|;
    assert row[n - 1].text == "Video" && row[n - 2].text == "Paper" && row[n - 3].text == "BibTeX";
    HrefOfLast(row, "Paper", n - 2);
    HrefOfLast(row, "BibTeX", n - 3);
    if scholar != [] {
      HrefOfLast(row, "Scholar", n - 4);
    } else {
      HrefOfMissing(row, "Scholar");
    }
    if link != [] {
      HrefOfLast(row, "Link", 0);
    } else {
      HrefOfMissing(row, "Link");
    }
  }

  /** Every rebuilt card carries a non-empty Paper link. */
  lemma {:induction false} RebuiltPaperLink(card: Card, src: Sources)
    ensures HrefOf(RebuiltCard(card, src).links, "Paper") != []
  {
    var c := FixedCard(card);
    var links := ResolvedLinks(c);
    LinkRowReadBack(links.1, c.scholarUrl, c.bibtexUrl, PaperFor(c, links.1));
    PaperNeverEmpty(c, links.1);
  }

  /**
   * Running the repair again reads the same title and author text back out
   * of the rebuilt citation line, so the title key the badge lookups use is
   * stable.
   */
  lemma {:induction false} RebuiltCiteReadBack(card: Card, src: Sources)
    requires var c := FixedCard(card);
      var title := ExtractTitleFromCite(c.cite);
      PlainAuthors(CiteAuthors(FixedAll(AuthorList(c, title, src)), c.cite)) && PlainTitle(title)
    ensures var c := FixedCard(card);
      var title := ExtractTitleFromCite(c.cite);
      && ExtractTitleFromCite(RebuiltCard(card, src).cite) == title
      && ExtractAuthorsFromCite(RebuiltCard(card, src).cite) == CiteAuthors(FixedAll(AuthorList(c, title, src)), c.cite)
  {
    var c := FixedCard(card);
    var title := ExtractTitleFromCite(c.cite);
    var authors := CiteAuthors(FixedAll(AuthorList(c, title, src)), c.cite);
    TitleRoundTrip(authors, title, c.where);
    AuthorsRoundTrip(authors, title, c.where);
  }
}
