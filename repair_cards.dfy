/**
 * The publication cards of `publications.html` as the repair pass sees
 * them: the card record, the exclusion filter, and the title and author
 * list read back out of a citation line. Optional fields are "" when absent.
 */
module RepairCards {
  import opened Wrappers
  import opened Strings
  import opened RepairPublications

  /** One card, with the fields read out of the page. */
  datatype Card = Card(
    year: string,
    where: string,
    cite: string,
    doi: string,
    doiUrl: string,
    scholarUrl: string,
    bibtexUrl: string,
    linkUrl: string,
    paperUrl: string,
    badge: string)

  // ---------------------------------------------------------------------
  // Exclusion filter
  // ---------------------------------------------------------------------

  const ExcludeYears: set<string> := {"", "Unknown", "1978", "1991"}

  const ExcludeDois: set<string> := {
    "10.1201/9781420031393-49",
    "10.4995/thesis/10251/38902",
    "10.5565/rev/tradumatica.7",
    "10.1109/crv.2009.18",
    "10.1109/icip.2009.5413736",
    "10.1007/3-540-45603-1_54",
    "10.1093/med/9780198779117.001.0001",
    "10.1109/conielecomp.2011.5749380",
    "10.5772/7351",
    "10.2307/j.ctv2s0jcdb.240",
    "10.1109/sice.2008.4655047",
    "10.25100/peu.680.cap8",
    "10.1201/9781003289623",
    "10.5821/dissertation-2117-363911",
    "10.15332/dt.inv.2020.01681",
    "10.1109/case56687.2023.10260363",
    "10.1109/isoirs65690.2025.11168047"
  }

  const ExcludeSnippets: seq<string> := [
    "una perspectiva de la inteligencia artificial en su 50 aniversario: campus",
    "robotica. unileon. es, 2007",
    "constraints 2, 3, 2013",
    "planning. wiki-the ai planning & pddl wiki",
    "leading with depth: the impact of emotions and relationships on leadership, 2023"
  ]

  /** A non-empty DOI key on the exclusion list. */
  predicate DoiExcluded(key: string) {
    key != [] && key in ExcludeDois
  }

  /** The venue, citation and DOI text the snippets are searched in. */
  function FilterText(c: Card): string {
    NormTextForFilter(c.where + " " + c.cite + " " + c.doi)
  }

  /**
   * `_should_exclude`: an excluded year, an excluded DOI in any of its
   * spellings, or one of the known bad snippets in the card's text.
   */
  predicate ShouldExclude(c: Card) {
    || c.year in ExcludeYears
    || DoiExcluded(NormDoiForMatch(c.doi))
    || exists k :: 0 <= k < |ExcludeSnippets| && IsInfix(ExcludeSnippets[k], FilterText(c))
  }

  /** An excluded year drops the card whatever its other fields say. */
  lemma {:induction false} ExcludedYear(c: Card)
    requires c.year in ExcludeYears
    ensures ShouldExclude(c)
  {
  }

  /** An excluded DOI is caught when the card gives it as a `https://doi.org/` URL too. */
  lemma {:induction false} ExcludedDoiUrl(c: Card, d: string)
    requires d != [] && IsStripped(d) && DoiExcluded(NormDoiForMatch(d))
    requires c.doi == DoiUrlPrefix + d
    ensures ShouldExclude(c)
  {
    NormDoiOfUrl(d);
  }

  /** A card that passes the filter has a kept year, a kept DOI and none of the snippets. */
  lemma {:induction false} KeptCard(c: Card)
    requires !ShouldExclude(c)
    ensures c.year !in ExcludeYears && c.year != ""
    ensures !DoiExcluded(NormDoiForMatch(c.doi))
    ensures forall k :: 0 <= k < |ExcludeSnippets| ==> !IsInfix(ExcludeSnippets[k], FilterText(c))
  {
  }

  /** Letter case in the venue, citation and DOI does not change the verdict. */
  lemma {:induction false} ExcludeIgnoresCase(c: Card)
    ensures ShouldExclude(c.(where := Lower(c.where), cite := Lower(c.cite), doi := Lower(c.doi)))
      == ShouldExclude(c)
  {
    var l := c.(where := Lower(c.where), cite := Lower(c.cite), doi := Lower(c.doi));
    NormDoiIgnoresCase(c.doi);
    var t := c.where + " " + c.cite + " " + c.doi;
    LowerAppend(c.where, " ");
    LowerAppend(c.where + " ", c.cite);
    LowerAppend(c.where + " " + c.cite, " ");
    LowerAppend(c.where + " " + c.cite + " ", c.doi);
    assert Lower(" ") == " ";
    assert Lower(t) == l.where + " " + l.cite + " " + l.doi;
    NormTextIgnoresCase(t);
  }

  // ---------------------------------------------------------------------
  // Title and authors of a citation line
  // ---------------------------------------------------------------------

  predicate IsOpenQuote(c: char) { c == '\U{201C}' || c == '"' }

  predicate IsCloseQuote(c: char) { c == '\U{201D}' || c == '"' }

  /** The characters `strip(" ,.;")` removes from a title. */
  const TitleTrim: set<char> := {' ', ',', '.', ';'}

  /** The end of the `[^”"]+` run starting at `i`: the first closing quote, or the end. */
  function RunEnd(s: string, i: nat): (e: nat)
    requires i <= |s|
    ensures i <= e <= |s|
    ensures forall j :: i <= j < e ==> !IsCloseQuote(s[j])
    ensures e == |s| || IsCloseQuote(s[e])
    decreases |s| - i
  {
    if i < |s| && !IsCloseQuote(s[i]) then RunEnd(s, i + 1) else i
  }

  /** The group of `[“"]([^”"]+)[”"]` when the match starts at `i`. */
  function QuotedAt(s: string, i: nat): Option<string>
    requires i <= |s|
  {
    if i < |s| && IsOpenQuote(s[i]) then
      var e := RunEnd(s, i + 1);
      if i + 1 < e < |s| then Some(s[i + 1..e]) else None
    else None
  }

  /** `re.search`: the match with the leftmost start at or after `i`. */
  function FirstQuoted(s: string, i: nat): Option<string>
    requires i <= |s|
    decreases |s| - i
  {
    if i == |s| then None
    else if QuotedAt(s, i).Some? then QuotedAt(s, i)
    else FirstQuoted(s, i + 1)
  }

  /** `extract_title_from_cite`: the first quoted text, else the whole line, trimmed. */
  function ExtractTitleFromCite(cite: string): string {
    match FirstQuoted(cite, 0)
    case Some(t) => StripChars(Strip(t), TitleTrim)
    case None => StripChars(Strip(cite), TitleTrim)
  }

  /** The `,\s*[“"]` that ends the author list, tried at the comma position `j`. */
  predicate AuthorsStopAt(s: string, j: nat)
    requires j < |s|
  {
    s[j] == ',' && SkipSpace(s, j + 1) < |s| && IsOpenQuote(s[SkipSpace(s, j + 1)])
  }

  /** The lazy `^(.*?)` of `extract_authors_from_cite`: the first stop before any newline. */
  function AuthorsEnd(s: string, j: nat): (r: Option<nat>)
    requires j <= |s|
    ensures r.Some? ==> j <= r.value < |s| && AuthorsStopAt(s, r.value)
    ensures r.Some? ==> forall k :: j <= k <= r.value ==> s[k] != '\n'
    ensures r.Some? ==> forall k :: j <= k < r.value ==> !AuthorsStopAt(s, k)
    decreases |s| - j
  {
    if j == |s| || s[j] == '\n' then None
    else if AuthorsStopAt(s, j) then Some(j)
    else AuthorsEnd(s, j + 1)
  }

  /** `extract_authors_from_cite`: the text before the first `, “`, trimmed; "" when there is none. */
  function ExtractAuthorsFromCite(cite: string): string {
    match AuthorsEnd(cite, 0)
    case Some(j) => Strip(cite[..j])
    case None => ""
  }

  /** The IEEE-like line `rebuild_card` writes: `authors, “title,” where.`, trimmed. */
  function CiteLine(authors: string, title: string, where: string): string {
    Strip(authors + ", \U{201C}" + title + ",\U{201D} " + where + ".")
  }

  /** An author list the citation reader can find the end of: no opening quote, no newline. */
  predicate PlainAuthors(a: string) {
    a != [] && IsStripped(a) && forall i :: 0 <= i < |a| ==> !IsOpenQuote(a[i]) && a[i] != '\n'
  }

  /** A title the citation reader gives back unchanged. */
  predicate PlainTitle(t: string) {
    && t != [] && IsStripped(t)
    && t[0] !in TitleTrim && t[|t| - 1] !in TitleTrim
    && forall i :: 0 <= i < |t| ==> !IsCloseQuote(t[i])
  }

  lemma {:induction false} FirstQuotedSkip(s: string, i: nat, m: nat)
    requires i <= m <= |s|
    requires forall k :: i <= k < m ==> !IsOpenQuote(s[k])
    ensures FirstQuoted(s, i) == FirstQuoted(s, m)
    decreases m - i
  {
    if i < m {
      FirstQuotedSkip(s, i + 1, m);
    }
  }

  lemma {:induction false} RunEndAt(s: string, i: nat, e: nat)
    requires i <= e < |s| && IsCloseQuote(s[e])
    requires forall k :: i <= k < e ==> !IsCloseQuote(s[k])
    ensures RunEnd(s, i) == e
    decreases e - i
  {
    if i < e {
      RunEndAt(s, i + 1, e);
    }
  }

  lemma {:induction false} AuthorsEndAt(s: string, j: nat, e: nat)
    requires j <= e < |s| && s[e] != '\n' && AuthorsStopAt(s, e)
    requires forall k :: j <= k < e ==> s[k] != '\n' && !AuthorsStopAt(s, k)
    ensures AuthorsEnd(s, j) == Some(e)
    decreases e - j
  {
    if j < e {
      AuthorsEndAt(s, j + 1, e);
    }
  }

  /** The citation line before trimming. */
  function RawCiteLine(a: string, t: string, w: string): string {
    a + ", \U{201C}" + t + ",\U{201D} " + w + "."
  }

  /** Where the pieces of a citation line sit. */
  lemma {:induction false} RawCiteLineLayout(a: string, t: string, w: string)
    ensures var l := RawCiteLine(a, t, w);
      && |l| == |a| + |t| + |w| + 7
      && (forall k :: 0 <= k < |a| ==> l[k] == a[k])
      && l[|a|] == ',' && l[|a| + 1] == ' ' && l[|a| + 2] == '\U{201C}'
      && (forall k :: 0 <= k < |t| ==> l[|a| + 3 + k] == t[k])
      && l[|a| + 3 + |t|] == ',' && l[|a| + 4 + |t|] == '\U{201D}'
      && l[|l| - 1] == '.'
  {
  }

  /** A line that is not padded with whitespace is its own trimmed form. */
  lemma {:induction false} CiteLineRaw(a: string, t: string, w: string)
    requires PlainAuthors(a)
    ensures CiteLine(a, t, w) == RawCiteLine(a, t, w)
  {
    RawCiteLineLayout(a, t, w);
    StripOfTrimmed(RawCiteLine(a, t, w));
  }

  /**
   * The title reader on a line whose first opening quote is at `m` and is
   * followed by `t`, a comma and a closing quote.
   */
  lemma {:induction false} TitleFromLine(l: string, m: nat, t: string)
    requires PlainTitle(t)
    requires m + |t| + 2 < |l|
    requires forall k :: 0 <= k < m ==> !IsOpenQuote(l[k])
    requires IsOpenQuote(l[m])
    requires forall k :: 0 <= k < |t| ==> l[m + 1 + k] == t[k]
    requires l[m + 1 + |t|] == ',' && IsCloseQuote(l[m + 2 + |t|])
    ensures ExtractTitleFromCite(l) == t
  {
    var e := m + 2 + |t|;
    FirstQuotedSkip(l, 0, m);
    forall k | m + 1 <= k < e
      ensures !IsCloseQuote(l[k])
    {
      if k < m + 1 + |t| {
        assert l[k] == t[k - m - 1];
      }
    }
    RunEndAt(l, m + 1, e);
    assert l[m + 1..e] == t + ",";
    var q := t + ",";
    assert q[0] == t[0] && q[|q| - 1] == ',';
    StripOfTrimmed(q);
    StripCharsDropLast(t, ',', TitleTrim);
  }

  /** Reading the title back out of a rebuilt citation line gives the title that was written. */
  lemma {:induction false} TitleRoundTrip(a: string, t: string, w: string)
    requires PlainAuthors(a) && PlainTitle(t)
    ensures ExtractTitleFromCite(CiteLine(a, t, w)) == t
  {
    CiteLineRaw(a, t, w);
    TitleOfRaw(a, t, w);
  }

  lemma {:induction false} TitleOfRaw(a: string, t: string, w: string)
    requires PlainAuthors(a) && PlainTitle(t)
    ensures ExtractTitleFromCite(RawCiteLine(a, t, w)) == t
  {
    var l := RawCiteLine(a, t, w);
    RawCiteLineLayout(a, t, w);
    forall k | 0 <= k < |a| + 2
      ensures !IsOpenQuote(l[k])
    {
      if k < |a| {
        assert l[k] == a[k];
      }
    }
    assert IsOpenQuote(l[|a| + 2]) && IsCloseQuote(l[|a| + 4 + |t|]);
    TitleFromLine(l, |a| + 2, t);
  }

  /** The author reader on a line whose first `, “` after plain text is at `n`. */
  lemma {:induction false} AuthorsFromLine(l: string, n: nat)
    requires n + 2 < |l|
    requires forall k :: 0 <= k < n ==> !IsOpenQuote(l[k]) && l[k] != '\n'
    requires l[n] == ',' && l[n + 1] == ' ' && IsOpenQuote(l[n + 2])
    ensures ExtractAuthorsFromCite(l) == Strip(l[..n])
  {
    assert SkipSpace(l, n + 1) == n + 2 by {
      assert SkipSpace(l, n + 2) == n + 2;
    }
    forall k | 0 <= k < n
      ensures !AuthorsStopAt(l, k)
    {
      if l[k] == ',' {
        assert SkipSpace(l, k + 1) <= n;
      }
    }
    AuthorsEndAt(l, 0, n);
  }

  /** Reading the authors back out of a rebuilt citation line gives the list that was written. */
  lemma {:induction false} AuthorsRoundTrip(a: string, t: string, w: string)
    requires PlainAuthors(a)
    ensures ExtractAuthorsFromCite(CiteLine(a, t, w)) == a
  {
    CiteLineRaw(a, t, w);
    AuthorsOfRaw(a, t, w);
  }

  lemma {:induction false} AuthorsOfRaw(a: string, t: string, w: string)
    requires PlainAuthors(a)
    ensures ExtractAuthorsFromCite(RawCiteLine(a, t, w)) == a
  {
    RawCiteLineLayout(a, t, w);
    var l := RawCiteLine(a, t, w);
    AuthorsFromLine(l, |a|);
    assert l[..|a|] == a;
    StripOfTrimmed(a);
  }
}
