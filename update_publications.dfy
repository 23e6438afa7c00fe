/**
 * The Scholar import pass: publications read from the profile are
 * deduplicated by (title, year), enriched with a landing page, a Crossref
 * DOI, a PDF link and a BibTeX file name, and written as year groups of
 * cards, newest first, with undated entries under "Unknown".
 */
module UpdatePublications {
  import opened Wrappers
  import opened Strings
  import opened Seqs
  import opened Crossref
  import opened Markup
  import Bibtex
  import RepairPublications
  import YearListing

  /** One row of the Scholar profile, its fields already extracted. */
  datatype Pub = Pub(title: string, authors: string, venue: string, year: string, scholarUrl: string)

  /**
   * A publication with what the lookups found; "" stands for a value the
   * lookups did not find.
   */
  datatype EnrichedPub = EnrichedPub(
    pub: Pub,
    linkUrl: string,
    doi: string,
    doiUrl: string,
    pdfUrl: string,
    bibFilename: string)

  // ---------------------------------------------------------------------
  // Deduplication
  // ---------------------------------------------------------------------

  /** The key two profile rows are the same publication by: case-folded title and year. */
  function PubKey(p: Pub): (string, string) {
    (Lower(p.title), p.year)
  }

  /**
   * The dedup loop of `fetch_scholar_publications`: a row whose key was
   * already seen is skipped.
   */
  method DedupPubs(pubs: seq<Pub>) returns (deduped: seq<Pub>)
    ensures deduped == Dedup(pubs, PubKey)
  {
    var seen: set<(string, string)> := {};
    deduped := [];
    var i := 0;
    while i < |pubs|
      invariant 0 <= i <= |pubs|
      invariant deduped == Dedup(pubs[..i], PubKey)
      invariant seen == Keys(pubs[..i], PubKey)
    {
      var p := pubs[i];
      var key := PubKey(p);
      PrefixSnoc(pubs, i);
      assert pubs[..i + 1][..i] == pubs[..i];
      KeysSnoc(pubs[..i], p, PubKey);
      if key in seen {
        i := i + 1;
        continue;
      }
      seen := seen + {key};
      deduped := deduped + [p];
      i := i + 1;
    }
    assert pubs[..i] == pubs;
  }

  /** Rows differing only in the letter case of their titles are one publication. */
  lemma {:induction false} PubKeyIgnoresCase(p: Pub)
    ensures PubKey(p.(title := Lower(p.title))) == PubKey(p)
  {
    LowerIdempotent(p.title);
  }

  // ---------------------------------------------------------------------
  // Scholar links
  // ---------------------------------------------------------------------

  const ScholarHost: string := "https://scholar.google.com"

  /**
   * `_abs_scholar_url`: `&amp;` entities decoded, and a site-relative link
   * made absolute on the Scholar host.
   */
  function AbsScholarUrl(href: string): (r: string)
    ensures "http" <= r
  {
    var h := Replace(href, "&amp;", "&");
    if "http" <= h then h else ScholarHost + h
  }

  /** An absolute link without entities is kept as it is. */
  lemma {:induction false} AbsScholarUrlAbsolute(href: string)
    requires "http" <= href && !IsInfix("&amp;", href)
    ensures AbsScholarUrl(href) == href
  {
    ReplaceAbsent(href, "&amp;", "&");
  }

  /** A relative link without entities is placed on the Scholar host. */
  lemma {:induction false} AbsScholarUrlRelative(path: string)
    requires !("http" <= path) && !IsInfix("&amp;", path)
    ensures AbsScholarUrl(path) == ScholarHost + path
  {
    ReplaceAbsent(path, "&amp;", "&");
  }

  /** A leading entity is decoded before the link is made absolute. */
  lemma {:induction false} AbsScholarUrlEntity(rest: string)
    requires !IsInfix("&amp;", rest)
    ensures AbsScholarUrl("&amp;" + rest) == ScholarHost + "&" + rest
  {
    ReplaceLeading("&amp;", rest, "&");
    ReplaceAbsent(rest, "&amp;", "&");
    assert ("&" + rest)[0] == '&';
  }

  // ---------------------------------------------------------------------
  // Title key and Crossref match
  // ---------------------------------------------------------------------

  /**
   * `_norm_title` of the import pass: case-folded, every run of characters
   * other than `a`-`z` and `0`-`9` turned into one space, trimmed.
   */
  function NormTitle(t: string): (r: string)
    ensures IsWordKey(r)
  {
    AlnumKey(Lower(t))
  }

  /** A title key is its own key. */
  lemma {:induction false} NormTitleIdempotent(t: string)
    ensures NormTitle(NormTitle(t)) == NormTitle(t)
  {
    var k := NormTitle(t);
    WordKeyNoUpper(k);
    LowerOfLowercase(k);
    AlnumKeyFixpoint(k);
  }

  /** Letter case does not matter to the key. */
  lemma {:induction false} NormTitleIgnoresCase(t: string)
    ensures NormTitle(Lower(t)) == NormTitle(t)
  {
    LowerIdempotent(t);
  }

  /** The letters and digits of the key are those of the lower-cased title, in order. */
  lemma {:induction false} NormTitleKeepsAlnum(t: string)
    ensures Keep(NormTitle(t), IsLowerAlnum) == Keep(Lower(t), IsLowerAlnum)
  {
    AlnumKeyKeeps(Lower(t));
  }

  /**
   * For a title without quote characters the two scripts' title keys agree;
   * with quotes they differ, since the repair pass deletes quotes and the
   * import pass turns them into word breaks.
   */
  lemma {:induction false} NormTitleAgreesWithNorm(t: string)
    requires forall i :: 0 <= i < |t| ==> !RepairPublications.IsQuote(t[i])
    ensures RepairPublications.Norm(t) == NormTitle(t)
  {
    var l := Lower(t);
    assert forall i :: 0 <= i < |l| ==> l[i] == LowerChar(t[i]);
    KeepAll(l, RepairPublications.IsNotQuote);
  }

  /** `crossref_best_match` once the search results are in hand. */
  function CrossrefBestMatch(title: string, year: string, items: seq<Item>): Option<Item> {
    BestMatch(NormTitle, title, year, items)
  }

  /** A hit with the query's own non-empty title key is always accepted. */
  lemma {:induction false} CrossrefExactTitle(title: string, year: string, items: seq<Item>, i: nat)
    requires i < |items| && NormTitle(items[i].title) == NormTitle(title) != []
    ensures CrossrefBestMatch(title, year, items).Some?
  {
    var k := NormTitle(title);
    assert IsLowerAlnum(k[0]);
    ExactTitleAccepted(NormTitle, title, year, items, i);
  }

  /** An accepted hit shares at least one title word with the query. */
  lemma {:induction false} CrossrefAcceptedSharesWord(title: string, year: string, items: seq<Item>)
    requires CrossrefBestMatch(title, year, items).Some?
    ensures WordSet(NormTitle(title)) * WordSet(NormTitle(CrossrefBestMatch(title, year, items).value.title)) != {}
  {
    AcceptedSharesWord(NormTitle, title, year, items);
  }

  // ---------------------------------------------------------------------
  // File names
  // ---------------------------------------------------------------------

  /** The characters `_sanitize_doi` keeps: `[a-z0-9._-]`. */
  predicate IsDoiFileChar(c: char) {
    IsLowerAlnum(c) || c == '.' || c == '_' || c == '-'
  }

  predicate IsNotDoiFileChar(c: char) { !IsDoiFileChar(c) }

  /**
   * `_sanitize_doi`: trimmed, lower-cased, the `doi.org` URL prefixes
   * deleted, slashes turned into underscores, and every run of other
   * characters outside `[a-z0-9._-]` turned into one underscore.
   */
  function SanitizeDoi(doi: string): (r: string)
    ensures forall i :: 0 <= i < |r| ==> IsDoiFileChar(r[i])
  {
    var s := Lower(Strip(doi));
    var s1 := Replace(s, RepairPublications.DoiUrlPrefix, "");
    var s2 := Replace(s1, RepairPublications.DoiUrlPrefixHttp, "");
    FileSafe(Replace(s2, "/", "_"))
  }

  /** `re.sub(r"[^a-z0-9._-]+", "_", s)`. */
  function FileSafe(s: string): (r: string)
    ensures forall i :: 0 <= i < |r| ==> IsDoiFileChar(r[i])
  {
    FileSafeChars(s);
    SubRuns(s, IsNotDoiFileChar, '_')
  }

  lemma {:induction false} FileSafeChars(s: string)
    ensures forall i :: 0 <= i < |SubRuns(s, IsNotDoiFileChar, '_')| ==> IsDoiFileChar(SubRuns(s, IsNotDoiFileChar, '_')[i])
  {
    var r := SubRuns(s, IsNotDoiFileChar, '_');
    SubRunsShape(s, IsNotDoiFileChar, '_');
    forall i | 0 <= i < |r|
      ensures IsDoiFileChar(r[i])
    {
      assert r[i] == '_' || !IsNotDoiFileChar(r[i]);
    }
  }

  /** A sanitised name holds no path separator. */
  lemma {:induction false} SanitizeDoiNoSlash(doi: string)
    ensures '/' !in SanitizeDoi(doi)
  {
  }

  lemma {:induction false} NotInfixByChar(sub: string, s: string, x: char)
    requires x in sub && x !in s
    ensures !IsInfix(sub, s)
  {
    if IsInfix(sub, s) {
      InfixChars(sub, s);
    }
  }

  /** Sanitising a sanitised name changes nothing. */
  lemma {:induction false} SanitizeDoiIdempotent(doi: string)
    ensures SanitizeDoi(SanitizeDoi(doi)) == SanitizeDoi(doi)
  {
    SanitizeSafe(SanitizeDoi(doi));
  }

  /** A name made of `[a-z0-9._-]` only is its own sanitised form. */
  lemma {:induction false} SanitizeSafe(r: string)
    requires forall i :: 0 <= i < |r| ==> IsDoiFileChar(r[i])
    ensures SanitizeDoi(r) == r
  {
    SafeIsPlain(r);
    LowerOfLowercase(r);
    ReplacesOfSafe(r);
    FileSafeOfSafe(r);
  }

  /** A safe name holds neither URL prefix nor a slash, so the replacements leave it alone. */
  lemma {:induction false} ReplacesOfSafe(r: string)
    requires forall i :: 0 <= i < |r| ==> IsDoiFileChar(r[i])
    ensures Replace(Replace(Replace(r, RepairPublications.DoiUrlPrefix, ""), RepairPublications.DoiUrlPrefixHttp, ""), "/", "_") == r
  {
    NoPrefixInSafe(r);
    ReplaceAbsent(r, RepairPublications.DoiUrlPrefix, "");
    ReplaceAbsent(r, RepairPublications.DoiUrlPrefixHttp, "");
    ReplaceAbsent(r, "/", "_");
  }

  /** A safe name has no space at its ends and no upper-case letter. */
  lemma {:induction false} SafeIsPlain(r: string)
    requires forall i :: 0 <= i < |r| ==> IsDoiFileChar(r[i])
    ensures IsStripped(r) && NoUpper(r)
  {
    assert forall x :: IsDoiFileChar(x) ==> !IsSpace(x) && !IsUpper(x);
  }

  lemma {:induction false} FileSafeOfSafe(r: string)
    requires forall i :: 0 <= i < |r| ==> IsDoiFileChar(r[i])
    ensures FileSafe(r) == r
  {
    SubRunsFixpoint(r, IsNotDoiFileChar, '_');
  }

  /** The URL prefixes hold a colon, which a safe name never does. */
  lemma {:induction false} NoPrefixInSafe(r: string)
    requires forall i :: 0 <= i < |r| ==> IsDoiFileChar(r[i])
    ensures !IsInfix(RepairPublications.DoiUrlPrefix, r)
    ensures !IsInfix(RepairPublications.DoiUrlPrefixHttp, r)
    ensures !IsInfix("/", r)
  {
    assert "/"[0] == '/';
    assert forall i :: 0 <= i < |r| ==> r[i] != '/';
    NotInfixByChar("/", r, '/');
    assert RepairPublications.DoiUrlPrefix[5] == ':';
    assert RepairPublications.DoiUrlPrefixHttp[4] == ':';
    NotInfixByChar(RepairPublications.DoiUrlPrefix, r, ':');
    NotInfixByChar(RepairPublications.DoiUrlPrefixHttp, r, ':');
  }

  /** A DOI given as its `https://doi.org/` URL gets the file name of the bare DOI. */
  lemma {:induction false} SanitizeDoiOfUrl(d: string)
    requires d != [] && IsStripped(d)
    ensures SanitizeDoi(RepairPublications.DoiUrlPrefix + d) == SanitizeDoi(d)
  {
    RepairPublications.LowerStripOfUrl(d);
    StripOfTrimmed(d);
    ReplaceLeading(RepairPublications.DoiUrlPrefix, Lower(d), "");
    assert [] + Replace(Lower(d), RepairPublications.DoiUrlPrefix, "")
      == Replace(Lower(d), RepairPublications.DoiUrlPrefix, "");
  }

  const SlugMax: nat := 80
  const SlugTrim: set<char> := {'-'}

  /**
   * `_slug`: the title key with hyphens for spaces, cut to 80 characters,
   * hyphens trimmed from both ends, and "pub" when nothing is left.
   */
  function Slug(s: string): (r: string)
    ensures r != [] && |r| <= SlugMax
    ensures r[0] != '-' && r[|r| - 1] != '-'
  {
    SlugOfKey(Replace(NormTitle(s), " ", "-"))
  }

  /** The cut, the trim and the "pub" default of `_slug`. */
  function SlugOfKey(k: string): (r: string)
    ensures r != [] && |r| <= SlugMax
    ensures r[0] != '-' && r[|r| - 1] != '-'
  {
    var cut := if |k| <= SlugMax then k else k[..SlugMax];
    var t := StripChars(cut, SlugTrim);
    if t == [] then "pub" else t
  }

  /** Cutting and trimming brings in no new characters. */
  lemma {:induction false} SlugOfKeyChars(k: string)
    requires forall x :: x in k ==> IsLowerAlnum(x) || x == '-'
    ensures forall x :: x in SlugOfKey(k) ==> IsLowerAlnum(x) || x == '-'
  {
    var cut := if |k| <= SlugMax then k else k[..SlugMax];
    assert forall x :: x in cut ==> x in k;
  }

  /** Replacing every occurrence of a character by another leaves none of it. */
  lemma {:induction false} ReplaceCharGone(s: string, c: char, d: char)
    requires c != d
    ensures c !in Replace(s, [c], [d])
    decreases |s|
  {
    if |s| >= 1 {
      ReplaceCharGone(s[1..], c, d);
    }
  }

  /** A title key with hyphens for spaces holds only letters, digits and hyphens. */
  lemma {:induction false} HyphenatedKey(n: string)
    requires IsWordKey(n)
    ensures forall x :: x in Replace(n, " ", "-") ==> IsLowerAlnum(x) || x == '-'
  {
    ReplaceChars(n, " ", "-");
    ReplaceCharGone(n, ' ', '-');
  }

  /** A slug is made of `a`-`z`, `0`-`9` and hyphens only. */
  lemma {:induction false} SlugChars(s: string)
    ensures forall x :: x in Slug(s) ==> IsLowerAlnum(x) || x == '-'
  {
    HyphenatedKey(NormTitle(s));
    SlugOfKeyChars(Replace(NormTitle(s), " ", "-"));
  }

  /** `_make_id_fallback`, with the ten hex digits of its SHA-1 given as `hash`. */
  function FallbackKey(p: Pub, hash: string): (r: string)
    ensures Slug(p.title) <= r
  {
    Slug(p.title) + "-" + (if p.year != [] then p.year else "noyear") + "-" + hash
  }

  // ---------------------------------------------------------------------
  // The PDF link
  // ---------------------------------------------------------------------

  /** The test a record link passes to be taken as the PDF. */
  predicate IsPdfLink(u: string) {
    u != [] && (EndsWith(Lower(u), ".pdf") || IsInfix("pdf", Lower(u)))
  }

  /** The `.pdf` suffix test is subsumed by the `pdf` substring test. */
  lemma {:induction false} PdfSuffixIsInfix(l: string)
    requires EndsWith(l, ".pdf")
    ensures IsInfix("pdf", l)
  {
    assert l[|l| - 3..] == l[|l| - 4..][1..];
    SuffixIsInfix(l, "pdf");
  }

  /** The position of the first link that passes the test. */
  function FirstPdf(urls: seq<string>): (r: Option<nat>)
    ensures r.Some? ==> r.value < |urls| && IsPdfLink(urls[r.value])
    ensures r.Some? ==> forall j :: 0 <= j < r.value ==> !IsPdfLink(urls[j])
    ensures r.None? ==> forall j :: 0 <= j < |urls| ==> !IsPdfLink(urls[j])
  {
    if urls == [] then None
    else if IsPdfLink(urls[0]) then Some(0)
    else match FirstPdf(urls[1..])
      case Some(i) => Some(i + 1)
      case None => None
  }

  /** The PDF link of a matched record: the first link that passes the test, else its first link. */
  function PdfChoice(urls: seq<string>): string {
    match FirstPdf(urls)
    case Some(i) => urls[i]
    case None => if urls != [] then urls[0] else ""
  }

  /** The PDF loop of `main`, which stops at the first link that passes the test. */
  method SelectPdf(urls: seq<string>) returns (pdf: string)
    ensures pdf == PdfChoice(urls)
  {
    pdf := "";
    var i := 0;
    while i < |urls|
      invariant 0 <= i <= |urls|
      invariant forall j :: 0 <= j < i ==> !IsPdfLink(urls[j])
      invariant pdf == ""
    {
      var u := urls[i];
      if u == [] {
        i := i + 1;
        continue;
      }
      var l := Lower(u);
      if EndsWith(l, ".pdf") || IsInfix("pdf", l) {
        pdf := u;
        break;
      }
      i := i + 1;
    }
    if pdf == [] && urls != [] {
      pdf := urls[0];
    }
  }

  /** The first link that passes the test is chosen. */
  lemma {:induction false} PdfChoiceFirst(urls: seq<string>, i: nat)
    requires i < |urls| && IsPdfLink(urls[i])
    requires forall j :: 0 <= j < i ==> !IsPdfLink(urls[j])
    ensures PdfChoice(urls) == urls[i]
  {
  }

  /** Without a link that passes the test, the first link is taken, or none. */
  lemma {:induction false} PdfChoiceFallback(urls: seq<string>)
    requires forall j :: 0 <= j < |urls| ==> !IsPdfLink(urls[j])
    ensures PdfChoice(urls) == (if urls == [] then "" else urls[0])
  {
  }

  /** When some link passes the test, the chosen one does too. */
  lemma {:induction false} PdfChoicePreferred(urls: seq<string>, i: nat)
    requires i < |urls| && IsPdfLink(urls[i])
    ensures IsPdfLink(PdfChoice(urls))
  {
  }

  // ---------------------------------------------------------------------
  // Enrichment
  // ---------------------------------------------------------------------

  /**
   * What `main` records for one publication, given the landing page read
   * from its Scholar page (`link`), the Crossref match, whether Crossref
   * served BibTeX for the DOI, and the fallback hash.
   */
  function Enriched(p: Pub, link: string, cr: Option<Item>, bibtexServed: bool, hash: string): EnrichedPub {
    var doi := if cr.Some? then cr.value.doi else "";
    var doiUrl := if doi != [] then RepairPublications.DoiUrlPrefix + doi else "";
    var pdf := if cr.Some? then PdfChoice(cr.value.linkUrls) else "";
    var stem := if doi != [] && bibtexServed then SanitizeDoi(doi) else FallbackKey(p, hash);
    EnrichedPub(p, link, doi, doiUrl, pdf, stem + ".bib")
  }

  /** The body of `main`'s loop, field by field. */
  method Enrich(p: Pub, link: string, cr: Option<Item>, bibtexServed: bool, hash: string) returns (ep: EnrichedPub)
    ensures ep == Enriched(p, link, cr, bibtexServed, hash)
  {
    ep := EnrichedPub(p, "", "", "", "", "");
    ep := ep.(linkUrl := link);
    if cr.Some? {
      var doi := cr.value.doi;
      if doi != [] {
        ep := ep.(doi := doi, doiUrl := RepairPublications.DoiUrlPrefix + doi);
      }
      var pdf := SelectPdf(cr.value.linkUrls);
      ep := ep.(pdfUrl := pdf);
    }
    var filename := "";
    var served := false;
    if ep.doi != [] {
      served := bibtexServed;
      filename := SanitizeDoi(ep.doi) + ".bib";
    }
    if !served {
      filename := FallbackKey(p, hash) + ".bib";
    }
    ep := ep.(bibFilename := filename);
  }

  /** The DOI URL is present exactly with a DOI, and is the DOI on the `doi.org` resolver. */
  lemma {:induction false} EnrichedDoi(p: Pub, link: string, cr: Option<Item>, bibtexServed: bool, hash: string)
    ensures var ep := Enriched(p, link, cr, bibtexServed, hash);
      && (ep.doiUrl != [] <==> ep.doi != [])
      && (ep.doi != [] ==> ep.doiUrl == RepairPublications.DoiUrlPrefix + ep.doi)
      && (cr.None? ==> ep.doi == [] && ep.pdfUrl == [])
  {
  }

  /**
   * Every publication gets a `.bib` file name: the sanitised DOI when
   * Crossref served BibTeX for it, else the fallback key.
   */
  lemma {:induction false} EnrichedBibName(p: Pub, link: string, cr: Option<Item>, bibtexServed: bool, hash: string)
    ensures var ep := Enriched(p, link, cr, bibtexServed, hash);
      && EndsWith(ep.bibFilename, ".bib")
      && (ep.doi != [] && bibtexServed ==> ep.bibFilename == SanitizeDoi(ep.doi) + ".bib" && '/' !in ep.bibFilename)
      && (ep.doi == [] || !bibtexServed ==> Slug(p.title) <= ep.bibFilename)
  {
    var doi := if cr.Some? then cr.value.doi else "";
    var stem := if doi != [] && bibtexServed then SanitizeDoi(doi) else FallbackKey(p, hash);
    var ep := Enriched(p, link, cr, bibtexServed, hash);
    assert ep.doi == doi && ep.bibFilename == stem + ".bib";
    BibSuffix(stem, Slug(p.title));
    if doi != [] && bibtexServed {
      SanitizeDoiNoSlash(doi);
    }
  }

  lemma {:induction false} BibSuffix(stem: string, t: string)
    ensures EndsWith(stem + ".bib", ".bib")
    ensures '/' !in stem ==> '/' !in stem + ".bib"
    ensures t <= stem ==> t <= stem + ".bib"
  {
    assert (stem + ".bib")[|stem|..] == ".bib";
    if t <= stem {
      assert (stem + ".bib")[..|t|] == stem[..|t|];
    }
  }

  // ---------------------------------------------------------------------
  // The page
  // ---------------------------------------------------------------------

  /** The group a publication is listed under. */
  function YearLabel(p: Pub): string {
    if p.year != [] then p.year else "Unknown"
  }

  /** The venue line: the venue, with the year added when it does not already appear. */
  function Where(p: Pub): string {
    if p.year != [] && !IsInfix(p.year, p.venue) then
      (if p.venue != [] then p.venue + ", " + p.year else p.year)
    else p.venue
  }

  /** The citation line: authors, quoted title, venue and year, whitespace collapsed. */
  function PubCite(p: Pub): string {
    CollapseWs(Strip(p.authors + ", “" + p.title + ",” " + p.venue + ", " + p.year + "."))
  }

  /** The Link target: the landing page, else the DOI URL, else the Scholar page. */
  function LinkUrl(ep: EnrichedPub): string {
    FirstNonEmpty([ep.linkUrl, ep.doiUrl, ep.pub.scholarUrl])
  }

  /** The Paper target: the PDF, else the Link target. */
  function PaperUrl(ep: EnrichedPub): string {
    FirstNonEmpty([ep.pdfUrl, LinkUrl(ep)])
  }

  /** The fallback chains pick the first known value, in the order of the page. */
  lemma {:induction false} LinkFallbacks(ep: EnrichedPub)
    ensures ep.linkUrl != [] ==> LinkUrl(ep) == ep.linkUrl
    ensures ep.linkUrl == [] && ep.doiUrl != [] ==> LinkUrl(ep) == ep.doiUrl
    ensures ep.linkUrl == [] && ep.doiUrl == [] ==> LinkUrl(ep) == ep.pub.scholarUrl
    ensures ep.pdfUrl != [] ==> PaperUrl(ep) == ep.pdfUrl
    ensures ep.pdfUrl == [] ==> PaperUrl(ep) == LinkUrl(ep)
    ensures ep.pub.scholarUrl != [] ==> LinkUrl(ep) != [] && PaperUrl(ep) != []
  {
    var xs := [ep.linkUrl, ep.doiUrl, ep.pub.scholarUrl];
    if ep.linkUrl != [] {
      FirstNonEmptyAt(xs, 0);
    } else if ep.doiUrl != [] {
      FirstNonEmptyAt(xs, 1);
    } else {
      FirstNonEmptyEmpty(xs);
      if ep.pub.scholarUrl != [] {
        FirstNonEmptyAt(xs, 2);
      }
    }
    var ys := [ep.pdfUrl, LinkUrl(ep)];
    if ep.pdfUrl != [] {
      FirstNonEmptyAt(ys, 0);
    } else {
      FirstNonEmptyEmpty(ys);
      if LinkUrl(ep) != [] {
        FirstNonEmptyAt(ys, 1);
      }
    }
  }

  const BibtexLabelAsWritten: string := "BiBTeX"
  const BibtexLabel: string := "BibTeX"

  /** The link row, with the label the BibTeX file link carries. */
  function PubLinks(ep: EnrichedPub, bibLabel: string): seq<Anchor> {
    [ Anchor("Link", LinkUrl(ep), false),
      Anchor("Scholar", ep.pub.scholarUrl, false),
      if ep.bibFilename != [] then Anchor(bibLabel, Bibtex.BibtexDir + ep.bibFilename, true)
      else Anchor(BibtexLabel, "#", false),
      Anchor("Paper", PaperUrl(ep), false),
      Anchor("Video", "#", false) ]
  }

  /** A card with a given BibTeX label. */
  function PubCardWith(ep: EnrichedPub, bibLabel: string): CardView {
    var p := ep.pub;
    CardView(
      Where(p),
      p.year,
      "Q?",
      PubCite(p),
      if ep.doi != [] && ep.doiUrl != [] then Some(DoiLine(ep.doi, ep.doiUrl)) else None,
      PubLinks(ep, bibLabel))
  }

  /** The card as the page writes it: the file link is labelled "BiBTeX". */
  function PubCardAsWritten(ep: EnrichedPub): CardView {
    PubCardWith(ep, BibtexLabelAsWritten)
  }

  /** The card with the file link labelled "BibTeX", as every other BibTeX link is. */
  function PubCard(ep: EnrichedPub): CardView {
    PubCardWith(ep, BibtexLabel)
  }

  /**
   * As written, a card with a BibTeX file shows no link labelled "BibTeX",
   * so a reader that looks the file up by that label finds nothing.
   */
  lemma {:induction false} BibtexLinkLostAsWritten(ep: EnrichedPub)
    requires ep.bibFilename != []
    ensures HrefOf(PubCardAsWritten(ep).links, BibtexLabel) == ""
  {
    CardLinks(ep, BibtexLabelAsWritten);
    RowLacksLabel(ep);
  }

  /** The link row of a card is `PubLinks` with that card's label. */
  lemma {:induction false} CardLinks(ep: EnrichedPub, bibLabel: string)
    ensures PubCardWith(ep, bibLabel).links == PubLinks(ep, bibLabel)
    ensures PubCardAsWritten(ep) == PubCardWith(ep, BibtexLabelAsWritten)
    ensures PubCard(ep) == PubCardWith(ep, BibtexLabel)
  {
  }

  /**
   * The card as written and the corrected card differ in one place only:
   * the label of the BibTeX file link, when there is a file.
   */
  lemma {:induction false} PubCardAsWrittenLabel(ep: EnrichedPub)
    ensures PubCardAsWritten(ep) == PubCard(ep).(links := PubLinks(ep, BibtexLabelAsWritten))
    ensures PubLinks(ep, BibtexLabelAsWritten)
      == PubLinks(ep, BibtexLabel)[2 := PubLinks(ep, BibtexLabel)[2].(text := FileLinkLabel(ep))]
  {
    CardLinks(ep, BibtexLabelAsWritten);
    LinksDifferInLabel(ep);
  }

  /** The label the written page gives the BibTeX link of this publication. */
  function FileLinkLabel(ep: EnrichedPub): string {
    if ep.bibFilename != [] then BibtexLabelAsWritten else BibtexLabel
  }

  lemma {:induction false} LinksDifferInLabel(ep: EnrichedPub)
    ensures PubLinks(ep, BibtexLabelAsWritten)
      == PubLinks(ep, BibtexLabel)[2 := PubLinks(ep, BibtexLabel)[2].(text := FileLinkLabel(ep))]
  {
  }

  lemma {:induction false} RowLacksLabel(ep: EnrichedPub)
    requires ep.bibFilename != []
    ensures HrefOf(PubLinks(ep, BibtexLabelAsWritten), BibtexLabel) == ""
  {
    var links := PubLinks(ep, BibtexLabelAsWritten);
    assert BibtexLabelAsWritten[2] != BibtexLabel[2];
    assert links[2].text == BibtexLabelAsWritten;
    forall i | 0 <= i < |links|
      ensures links[i].text != BibtexLabel
    {
      assert links[i].text in {"Link", "Scholar", BibtexLabelAsWritten, "Paper", "Video"};
    }
    HrefOfMissing(links, BibtexLabel);
  }

  /**
   * With the label corrected, a reader finds the file link under "BibTeX",
   * and it points into the BibTeX directory.
   */
  lemma {:induction false} BibtexLinkFound(ep: EnrichedPub)
    requires ep.bibFilename != []
    ensures HrefOf(PubCard(ep).links, BibtexLabel) == Bibtex.BibtexDir + ep.bibFilename
    ensures Bibtex.BibtexPath(HrefOf(PubCard(ep).links, BibtexLabel)) == Some(Bibtex.BibtexDir + ep.bibFilename)
  {
    CardLinks(ep, BibtexLabel);
    RowHasLabel(ep);
  }

  lemma {:induction false} RowHasLabel(ep: EnrichedPub)
    requires ep.bibFilename != []
    ensures HrefOf(PubLinks(ep, BibtexLabel), BibtexLabel) == Bibtex.BibtexDir + ep.bibFilename
    ensures Bibtex.BibtexPath(Bibtex.BibtexDir + ep.bibFilename) == Some(Bibtex.BibtexDir + ep.bibFilename)
  {
    var links := PubLinks(ep, BibtexLabel);
    HrefOfLast(links, BibtexLabel, 2);
    var h := Bibtex.BibtexDir + ep.bibFilename;
    assert h[0] == 'b';
    assert TrimLeft(h, c => c == '/') == h;
  }

  /** The Link, Scholar and Paper targets are read back from the card under their labels. */
  lemma {:induction false} PubCardReadBack(ep: EnrichedPub)
    ensures HrefOf(PubCard(ep).links, "Link") == LinkUrl(ep)
    ensures HrefOf(PubCard(ep).links, "Scholar") == ep.pub.scholarUrl
    ensures HrefOf(PubCard(ep).links, "Paper") == PaperUrl(ep)
  {
    CardLinks(ep, BibtexLabel);
    RowReadBack(ep);
  }

  lemma {:induction false} RowReadBack(ep: EnrichedPub)
    ensures HrefOf(PubLinks(ep, BibtexLabel), "Link") == LinkUrl(ep)
    ensures HrefOf(PubLinks(ep, BibtexLabel), "Scholar") == ep.pub.scholarUrl
    ensures HrefOf(PubLinks(ep, BibtexLabel), "Paper") == PaperUrl(ep)
  {
    var links := PubLinks(ep, BibtexLabel);
    HrefOfLast(links, "Link", 0);
    HrefOfLast(links, "Scholar", 1);
    HrefOfLast(links, "Paper", 3);
  }

  // ---------------------------------------------------------------------
  // Year groups
  // ---------------------------------------------------------------------

  /** The group label of every publication, in order. */
  function Labels(pubs: seq<EnrichedPub>): (r: seq<string>)
    ensures |r| == |pubs|
    ensures forall i :: 0 <= i < |pubs| ==> r[i] == YearLabel(pubs[i].pub)
  {
    seq(|pubs|, i requires 0 <= i < |pubs| => YearLabel(pubs[i].pub))
  }

  /** The publications listed under `y`, in order. */
  function InGroup(pubs: seq<EnrichedPub>, y: string): (r: seq<EnrichedPub>)
    ensures |r| <= |pubs|
  {
    if pubs == [] then []
    else
      var ep := pubs[|pubs| - 1];
      InGroup(pubs[..|pubs| - 1], y) + (if YearLabel(ep.pub) == y then [ep] else [])
  }

  /** The card of every publication, in order. */
  function PubCards(eps: seq<EnrichedPub>): (r: seq<CardView>)
    ensures |r| == |eps|
  {
    if eps == [] then [] else PubCards(eps[..|eps| - 1]) + [PubCard(eps[|eps| - 1])]
  }

  /** One group per label of `ys`, in that order. */
  function PageGroups(ys: seq<string>, pubs: seq<EnrichedPub>): (r: seq<YearGroup>)
    ensures |r| == |ys|
  {
    if ys == [] then []
    else
      var y := ys[|ys| - 1];
      PageGroups(ys[..|ys| - 1], pubs) + [YearGroup(y, PubCards(InGroup(pubs, y)))]
  }

  /** The labels of the page: distinct, in order of first appearance, stably sorted newest first. */
  function PageKeys(pubs: seq<EnrichedPub>): seq<string> {
    SortDesc(Distinct(Labels(pubs)), YearListing.YearValue)
  }

  /** What `build_publications_html` writes, as year groups. */
  function PublicationsPage(pubs: seq<EnrichedPub>): seq<YearGroup> {
    PageGroups(PageKeys(pubs), pubs)
  }

  lemma {:induction false} LabelsSnoc(pubs: seq<EnrichedPub>, ep: EnrichedPub)
    ensures Labels(pubs + [ep]) == Labels(pubs) + [YearLabel(ep.pub)]
  {
  }

  lemma {:induction false} InGroupSnoc(pubs: seq<EnrichedPub>, ep: EnrichedPub, y: string)
    ensures YearLabel(ep.pub) == y ==> InGroup(pubs + [ep], y) == InGroup(pubs, y) + [ep]
    ensures YearLabel(ep.pub) != y ==> InGroup(pubs + [ep], y) == InGroup(pubs, y)
  {
    assert (pubs + [ep])[..|pubs|] == pubs;
    assert InGroup(pubs, y) + [] == InGroup(pubs, y);
  }

  lemma {:induction false} PubCardsSnoc(eps: seq<EnrichedPub>, ep: EnrichedPub)
    ensures PubCards(eps + [ep]) == PubCards(eps) + [PubCard(ep)]
  {
    assert (eps + [ep])[..|eps|] == eps;
  }

  lemma {:induction false} PageGroupsSnoc(ys: seq<string>, y: string, pubs: seq<EnrichedPub>)
    ensures PageGroups(ys + [y], pubs) == PageGroups(ys, pubs) + [YearGroup(y, PubCards(InGroup(pubs, y)))]
  {
    assert (ys + [y])[..|ys|] == ys;
  }

  /** The groups dict and its key order after the publications `g` have been placed. */
  ghost predicate Bucketed(g: seq<EnrichedPub>, groups: map<string, seq<EnrichedPub>>, order: seq<string>) {
    && order == Distinct(Labels(g))
    && (forall y :: y in groups <==> y in order)
    && (forall y :: y in groups ==> groups[y] == InGroup(g, y))
  }

  /** A label no publication has has no publications. */
  lemma {:induction false} InGroupNone(g: seq<EnrichedPub>, y: string)
    requires y !in Distinct(Labels(g))
    ensures InGroup(g, y) == []
  {
    DistinctProps(Labels(g));
    if g != [] {
      var init := g[..|g| - 1];
      assert Labels(init) == Labels(g)[..|g| - 1];
      DistinctProps(Labels(init));
      assert Labels(g)[|g| - 1] == YearLabel(g[|g| - 1].pub);
      InGroupNone(init, y);
    }
  }

  lemma {:induction false} BucketOther(g: seq<EnrichedPub>, ep: EnrichedPub, groups: map<string, seq<EnrichedPub>>, order: seq<string>, z: string)
    requires Bucketed(g, groups, order)
    requires z in groups && z != YearLabel(ep.pub)
    ensures groups[z] == InGroup(g + [ep], z)
  {
    InGroupSnoc(g, ep, z);
  }

  lemma {:induction false} BucketOwn(g: seq<EnrichedPub>, ep: EnrichedPub, groups: map<string, seq<EnrichedPub>>, order: seq<string>)
    requires Bucketed(g, groups, order)
    ensures var y := YearLabel(ep.pub);
      (if y in groups then groups[y] else []) + [ep] == InGroup(g + [ep], y)
  {
    var y := YearLabel(ep.pub);
    if y !in groups {
      InGroupNone(g, y);
    }
    InGroupSnoc(g, ep, y);
  }

  /** Placing one more publication appends it to its label's list. */
  lemma {:induction false} BucketStep(g: seq<EnrichedPub>, ep: EnrichedPub, groups: map<string, seq<EnrichedPub>>, order: seq<string>)
    requires Bucketed(g, groups, order)
    ensures var y := YearLabel(ep.pub);
      Bucketed(g + [ep],
        groups[y := (if y in groups then groups[y] else []) + [ep]],
        if y in groups then order else order + [y])
  {
    var y := YearLabel(ep.pub);
    var b := groups[y := (if y in groups then groups[y] else []) + [ep]];
    var o := if y in groups then order else order + [y];
    LabelsSnoc(g, ep);
    YearListing.DistinctSnoc(Labels(g), y);
    assert o == Distinct(Labels(g + [ep]));
    assert forall z :: z in b <==> z in o;
    forall z | z in b
      ensures b[z] == InGroup(g + [ep], z)
    {
      if z == y {
        BucketOwn(g, ep, groups, order);
      } else {
        BucketOther(g, ep, groups, order, z);
      }
    }
  }

  /** The first loop of `build_publications_html`: `groups.setdefault(y, []).append(p)`. */
  method GroupPubs(pubs: seq<EnrichedPub>) returns (groups: map<string, seq<EnrichedPub>>, order: seq<string>)
    ensures Bucketed(pubs, groups, order)
  {
    groups := map[];
    order := [];
    var i := 0;
    while i < |pubs|
      invariant 0 <= i <= |pubs|
      invariant Bucketed(pubs[..i], groups, order)
    {
      var ep := pubs[i];
      PrefixSnoc(pubs, i);
      BucketStep(pubs[..i], ep, groups, order);
      var y := if ep.pub.year != [] then ep.pub.year else "Unknown";
      var items := if y in groups then groups[y] else [];
      if y !in groups {
        order := order + [y];
      }
      groups := groups[y := items + [ep]];
      i := i + 1;
    }
    assert pubs[..i] == pubs;
  }

  /** The inner loop: one card per publication of a group, in order. */
  method RenderCards(eps: seq<EnrichedPub>) returns (cards: seq<CardView>)
    ensures cards == PubCards(eps)
  {
    cards := [];
    var i := 0;
    while i < |eps|
      invariant 0 <= i <= |eps|
      invariant cards == PubCards(eps[..i])
    {
      PrefixSnoc(eps, i);
      PubCardsSnoc(eps[..i], eps[i]);
      cards := cards + [PubCard(eps[i])];
      i := i + 1;
    }
    assert eps[..i] == eps;
  }

  /** One `<h3>` heading and the cards under it. */
  method RenderGroup(y: string, eps: seq<EnrichedPub>) returns (group: YearGroup)
    ensures group == YearGroup(y, PubCards(eps))
  {
    var cards := RenderCards(eps);
    group := YearGroup(y, cards);
  }

  /** The outer loop: one group per key, in the order given. */
  method EmitPubGroups(keys: seq<string>, groups: map<string, seq<EnrichedPub>>, pubs: seq<EnrichedPub>)
    returns (page: seq<YearGroup>)
    requires forall y :: y in keys ==> y in groups && groups[y] == InGroup(pubs, y)
    ensures page == PageGroups(keys, pubs)
  {
    page := [];
    var j := 0;
    while j < |keys|
      invariant 0 <= j <= |keys|
      invariant page == PageGroups(keys[..j], pubs)
    {
      var y := keys[j];
      PrefixSnoc(keys, j);
      PageGroupsSnoc(keys[..j], y, pubs);
      var group := RenderGroup(y, groups[y]);
      page := page + [group];
      j := j + 1;
    }
    assert keys[..j] == keys;
  }

  /** `build_publications_html`: groups by label in order of appearance, then writes them newest first. */
  method BuildPublicationsHtml(pubs: seq<EnrichedPub>) returns (page: seq<YearGroup>)
    ensures page == PublicationsPage(pubs)
  {
    var groups, order := GroupPubs(pubs);
    var keys := SortDesc(order, YearListing.YearValue);
    SortDescProps(order, YearListing.YearValue);
    forall y | y in keys
      ensures y in groups && groups[y] == InGroup(pubs, y)
    {
      assert y in multiset(keys);
    }
    page := EmitPubGroups(keys, groups, pubs);
  }

  // ---------------------------------------------------------------------
  // What the page shows
  // ---------------------------------------------------------------------

  /** The page's group labels are exactly its keys, in order. */
  lemma {:induction false} PageGroupYears(ys: seq<string>, pubs: seq<EnrichedPub>)
    ensures YearListing.GroupYears(PageGroups(ys, pubs)) == ys
    decreases |ys|
  {
    if ys != [] {
      var init, y := ys[..|ys| - 1], ys[|ys| - 1];
      assert ys == init + [y];
      PageGroupYears(init, pubs);
      PageGroupsSnoc(init, y, pubs);
      YearListing.GroupYearsSnoc(PageGroups(init, pubs), YearGroup(y, PubCards(InGroup(pubs, y))));
    }
  }

  /** The page keys are the publications' labels, each once, ranks never increasing. */
  lemma {:induction false} PageKeysFacts(pubs: seq<EnrichedPub>)
    ensures forall y :: y in PageKeys(pubs) <==> y in Labels(pubs)
    ensures SortedDesc(PageKeys(pubs), YearListing.YearValue)
    ensures NoDup(PageKeys(pubs))
  {
    var d := Distinct(Labels(pubs));
    DistinctProps(Labels(pubs));
    SortDescProps(d, YearListing.YearValue);
    NoDupPerm(d, PageKeys(pubs));
    forall y
      ensures y in PageKeys(pubs) <==> y in d
    {
      assert y in PageKeys(pubs) <==> y in multiset(PageKeys(pubs));
      assert y in d <==> y in multiset(d);
    }
  }

  /**
   * The groups are listed newest first, no label twice, and every group
   * whose label is not a number (such as "Unknown") comes after every
   * numbered one.
   */
  lemma {:induction false} PageOrdered(pubs: seq<EnrichedPub>)
    ensures var page := PublicationsPage(pubs);
      forall i, j :: 0 <= i < j < |page| ==>
        && YearListing.YearValue(page[i].year) >= YearListing.YearValue(page[j].year)
        && page[i].year != page[j].year
        && (!IsDigits(page[i].year) ==> !IsDigits(page[j].year))
  {
    var page := PublicationsPage(pubs);
    var ys := PageKeys(pubs);
    PageKeysFacts(pubs);
    PageGroupYears(ys, pubs);
    forall i, j | 0 <= i < j < |page|
      ensures YearListing.YearValue(page[i].year) >= YearListing.YearValue(page[j].year)
      ensures page[i].year != page[j].year
    {
      assert page[i].year == ys[i] && page[j].year == ys[j];
    }
  }

  /** Each group holds the cards of the publications with its label, in input order, and is never empty. */
  lemma {:induction false} PageGroupContents(pubs: seq<EnrichedPub>, k: nat)
    requires k < |PublicationsPage(pubs)|
    ensures var g := PublicationsPage(pubs)[k];
      && g.cards == PubCards(InGroup(pubs, g.year))
      && g.cards != []
      && IsSubsequence(InGroup(pubs, g.year), pubs)
      && forall ep :: ep in InGroup(pubs, g.year) ==> YearLabel(ep.pub) == g.year
  {
    var ys := PageKeys(pubs);
    var page := PublicationsPage(pubs);
    PageKeysFacts(pubs);
    PageGroupYears(ys, pubs);
    var y := page[k].year;
    assert y == ys[k];
    PageGroupCards(ys, pubs, k);
    InGroupFacts(pubs, y);
    assert y in ys;
    assert y in Labels(pubs);
    var m :| 0 <= m < |pubs| && Labels(pubs)[m] == y;
    InGroupHas(pubs, pubs[m]);
  }

  lemma {:induction false} PageGroupCards(ys: seq<string>, pubs: seq<EnrichedPub>, k: nat)
    requires k < |ys|
    ensures PageGroups(ys, pubs)[k] == YearGroup(ys[k], PubCards(InGroup(pubs, ys[k])))
    decreases |ys|
  {
    var init, y := ys[..|ys| - 1], ys[|ys| - 1];
    assert ys == init + [y];
    PageGroupsSnoc(init, y, pubs);
    if k < |init| {
      PageGroupCards(init, pubs, k);
    }
  }

  lemma {:induction false} InGroupFacts(pubs: seq<EnrichedPub>, y: string)
    ensures IsSubsequence(InGroup(pubs, y), pubs)
    ensures forall ep :: ep in InGroup(pubs, y) ==> YearLabel(ep.pub) == y
    decreases |pubs|
  {
    if pubs != [] {
      var init, ep := pubs[..|pubs| - 1], pubs[|pubs| - 1];
      var r := InGroup(pubs, y);
      InGroupFacts(init, y);
      if YearLabel(ep.pub) == y {
        assert r[..|r| - 1] == InGroup(init, y);
      } else {
        assert r == InGroup(init, y);
      }
    }
  }

  lemma {:induction false} InGroupHas(pubs: seq<EnrichedPub>, ep: EnrichedPub)
    requires ep in pubs
    ensures ep in InGroup(pubs, YearLabel(ep.pub))
    decreases |pubs|
  {
    var init := pubs[..|pubs| - 1];
    assert pubs == init + [pubs[|pubs| - 1]];
    InGroupSnoc(init, pubs[|pubs| - 1], YearLabel(ep.pub));
    if pubs[|pubs| - 1] != ep {
      InGroupHas(init, ep);
    }
  }

  /**
   * Every publication is shown in the group of its year, an undated one in
   * the "Unknown" group.
   */
  lemma {:induction false} PageComplete(pubs: seq<EnrichedPub>, i: nat)
    requires i < |pubs|
    ensures exists k :: (0 <= k < |PublicationsPage(pubs)|
      && PublicationsPage(pubs)[k].year == YearLabel(pubs[i].pub)
      && pubs[i] in InGroup(pubs, PublicationsPage(pubs)[k].year))
    ensures pubs[i].pub.year == [] ==> YearLabel(pubs[i].pub) == "Unknown"
  {
    var k := KeyOf(pubs, i);
    var page := PublicationsPage(pubs);
    PageGroupCards(PageKeys(pubs), pubs, k);
    assert page[k].year == YearLabel(pubs[i].pub);
    InGroupHas(pubs, pubs[i]);
  }

  /** The position of a publication's label among the page keys. */
  lemma {:induction false} KeyOf(pubs: seq<EnrichedPub>, i: nat) returns (k: nat)
    requires i < |pubs|
    ensures k < |PageKeys(pubs)| && PageKeys(pubs)[k] == YearLabel(pubs[i].pub)
  {
    var ys := PageKeys(pubs);
    var y := YearLabel(pubs[i].pub);
    PageKeysFacts(pubs);
    assert Labels(pubs)[i] == y;
    assert y in Labels(pubs);
    assert y in ys;
    k :| 0 <= k < |ys| && ys[k] == y;
  }
}
