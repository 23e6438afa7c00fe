# Publication and project record reconciliation, in Dafny

This project models the record-reconciliation core of the three maintenance
scripts of an academic homepage:

- `tools/repair_publications.py` re-reads the publication cards of
  `publications.html` and repairs them. It fixes mojibake, drops excluded
  cards, resolves the quality badge by precedence, removes redundant links
  and rebuilds the citation line from the full author list. It then writes
  the cards back grouped by year, newest first.
- `tools/update_publications.py` imports the Google Scholar profile. It
  deduplicates rows by case-folded title and year, and looks up DOI, PDF
  and BibTeX through Crossref. It names each BibTeX file after the
  sanitised DOI or a slug-based fallback key, and writes the page grouped
  by year with undated entries under "Unknown".
- `tools/update_projects.py` lists the competitive projects. It parses
  `dd/mm/yy` dates, formats the year interval badge, splits the projects
  into ongoing and past against today's date, skips curated titles and
  attaches the "Web" link from the project link file.

What the scripts fetch or read is passed in as parameters:

- the rank table;
- the BibTeX files, as a function from path to text;
- the Crossref search hits for a title;
- the landing page read from Scholar;
- whether Crossref served BibTeX for a DOI;
- the SHA-1 digest;
- today's date;
- the parsed link file.

The pages are modelled as structured values (`Markup.CardView`,
`Markup.YearGroup`, `UpdateProjects.ProjectCard`), not as HTML text.
An optional string (`None`) is modelled as `""`, since every use in the
core is a truthiness test.

Modules, one per concern:

| module | file | covers |
|---|---|---|
| `Wrappers` | `wrappers.dfy` | `Option` |
| `Seqs` | `seqs.dfy` | filter, map, first-occurrence dedup, stable descending sort, dict building |
| `Strings` | `strings.dfy` | the Python `str` operations the scripts use: `strip`, `lower`, `split`, `replace`, `re.sub` over runs |
| `Markup` | `markup.dfy` | rendered cards and the label-to-href reading of a link row |
| `Crossref` | `crossref.dfy` | the Jaccard title matcher shared by both publication scripts |
| `RepairPublications` | `repair_publications.dfy` | the normalisers, mojibake repair and URL cleanup |
| `Bibtex` | `bibtex.dfy` | the BibTeX author-field parser |
| `RepairCards` | `repair_cards.dfy` | the card record, the exclusion filter and the citation-line readers |
| `CardRebuild` | `rebuild_card.dfy` | `rebuild_card` |
| `YearListing` | `year_listing.dfy` | `_render_list` |
| `UpdatePublications` | `update_publications.dfy` | the Scholar import pass |
| `UpdateProjects` | `update_projects.dfy` | the project page generator |

The loops of the scripts are `method`s with loop invariants. Each method
is proved equal to a specification function, and the properties are
lemmas about those functions.

Where the code and the site's documented intent differ, the model
follows the code. The exceptions are the two defects under "## Findings":
each is modelled as written and corrected, and the page-level members use
the corrected definition (listed under "## Left out").

- **Badge precedence.** The documented rule is that a curator's title
  override beats a rank-table hit. In the code, the comment at
  `tools/repair_publications.py:403` reads as if overrides come first,
  but the rank table is applied last (lines 409-413), so a rank-table hit
  wins (`CardRebuild.RankHitWins`).
- **Title keys.** The two publication scripts normalise titles
  differently: `_norm` deletes quotes, while `_norm_title` turns them into
  word breaks. The model keeps both (`RepairPublications.Norm`,
  `UpdatePublications.NormTitle`) and proves that they agree on titles
  without quotes.

The repair pass is meant to be idempotent. The model proves this for the
pieces a second pass reads back: the title key
(`RepairPublications.NormIdempotent`), and the citation line for plain
authors and titles (`CardRebuild.RebuiltCiteReadBack`). It does not claim
that repairing a whole card twice gives the same card.

## Model

| member | source | states |
|---|---|---|
| Markup.HrefOfMissing | tools/repair_publications.py:359-374 | a card with no anchor carrying a label gets no URL for it |
| Markup.HrefOfLast | tools/repair_publications.py:359-362 | the `{label: href}` dict keeps the href of the last anchor with that label |
| Crossref.YearText | tools/repair_publications.py:253-256 | the hit's year text is empty exactly when it has no issued year |
| Crossref.Jaccard | tools/repair_publications.py:249-251 | the overlap ratio lies in [0, 1] and is 0 exactly when the word sets are disjoint |
| Crossref.ScoreYearBonus | tools/repair_publications.py:253-258 | of two hits with the same normalised title, the one whose year equals the given query year scores exactly 0.08 more |
| Crossref.ScoreYearTie | tools/repair_publications.py:253-258 | without a query year, or with equal years, two hits with the same normalised title score the same |
| Crossref.ScoreParts | tools/repair_publications.py:244-258 | an untitled hit scores 0; otherwise the score is overlap plus bonus, between 0 and 1.08 |
| Crossref.BonusBelowThreshold | tools/repair_publications.py:244-261 | a hit reaching 0.35 has a title and shares a word with the query: the bonus alone never suffices |
| Crossref.ArgMaxFirst | tools/repair_publications.py:260 | `max` returns the first of the maximal scores |
| Crossref.BestMatchSpec | tools/repair_publications.py:238-263 | no match exactly when every hit scores below 0.35; otherwise the first hit of maximal score |
| Crossref.ExactTitleScore | tools/repair_publications.py:244-258 | a hit with the query's own title key scores at least 1 |
| Crossref.ExactTitleAccepted | tools/repair_publications.py:242-263 | a hit with the query's own title key makes the matcher accept |
| Crossref.AcceptedSharesWord | tools/repair_publications.py:260-263 | an accepted hit's title shares a word with the query |
| Crossref.JaccardSelf | tools/repair_publications.py:251 | a non-empty word set matched against itself scores 1 |
| Crossref.JaccardSymmetric | tools/repair_publications.py:251 | the overlap does not depend on which side is the query |
| Crossref.AuthorName | tools/repair_publications.py:277-279 | a display name has no surrounding whitespace |
| Crossref.AuthorNameIsStrip | tools/repair_publications.py:277-279 | the name is `(given.strip() + " " + family.strip()).strip()` |
| Crossref.AuthorNames | tools/repair_publications.py:273-281 | at most one name per author record, each non-empty and stripped |
| Crossref.AuthorsFromCrossref | tools/repair_publications.py:266-282 | no match gives no names; a match gives the non-empty names of its authors in order |
| RepairPublications.Norm | tools/repair_publications.py:91-96 | a title key holds only `a`-`z`, `0`-`9` and single spaces, with none at the ends |
| RepairPublications.NormIdempotent | tools/repair_publications.py:91-96 | a title key is its own key |
| RepairPublications.NormIgnoresCase | tools/repair_publications.py:93 | letter case does not change the key |
| RepairPublications.NormKeepsAlnum | tools/repair_publications.py:94-96 | the key keeps exactly the lower-cased letters and digits of the title, in order |
| RepairPublications.NormTextPlain | tools/repair_publications.py:99-104 | the filter text contains none of “ ” ’ –, so plain-spelled snippets are what it is searched for |
| RepairPublications.NormTextIgnoresQuoteStyle | tools/repair_publications.py:99-104 | a text and its copy with “ ” ’ – made plain give the same filter text |
| RepairPublications.NormTextForFilter | tools/repair_publications.py:99-104 | the filter text has no surrounding whitespace |
| RepairPublications.NormTextIgnoresCase | tools/repair_publications.py:101 | letter case does not change the filter text |
| RepairPublications.NormDoiForMatch | tools/repair_publications.py:107-109 | a missing DOI has the empty key |
| RepairPublications.NormDoiShape | tools/repair_publications.py:110-113 | a DOI key is lower case and never starts with the broken "0." form |
| RepairPublications.NormDoiIgnoresCase | tools/repair_publications.py:110 | letter case does not change the DOI key |
| RepairPublications.NormDoiOfUrl | tools/repair_publications.py:111 | a DOI written as its `https://doi.org/` URL has the key of the bare DOI |
| RepairPublications.FixMojibake | tools/repair_publications.py:145-151 | the result is the substitution table applied entry by entry, in table order |
| RepairPublications.ReplaceEach | tools/repair_publications.py:148-151 | the loop replaces each table entry over the whole text, in order |
| RepairPublications.MojibakeTableIsMarked | tools/repair_publications.py:117-142 | every pattern of the table is non-empty and holds a non-ASCII character |
| RepairPublications.ApplyTableAscii | tools/repair_publications.py:145-151 | a table of marked patterns never changes ASCII text |
| RepairPublications.FixMojibakeAscii | tools/repair_publications.py:145-151 | plain ASCII text passes the mojibake repair unchanged |
| RepairPublications.CleanUrl | tools/repair_publications.py:170-182 | no URL stays none; otherwise whitespace is removed, then unescaped until stable, four rounds at most |
| RepairPublications.UnescapedRounds | tools/repair_publications.py:177-181 | the cleanup is k ≤ 4 rounds of unescaping and stops early only at a fixed point |
| RepairPublications.CleanedUrlPlain | tools/repair_publications.py:173-175 | an entity-free URL only loses its whitespace |
| RepairPublications.CleanedUrlNoSpace | tools/repair_publications.py:170-182 | if unescaping never introduces whitespace, the cleaned URL holds none |
| Bibtex.BibtexPath | tools/repair_publications.py:185-192 | a resolved path always lies under `bibtex/` |
| Bibtex.BibtexPathSlash | tools/repair_publications.py:189 | leading slashes do not change the resolved path |
| Bibtex.FieldClose | tools/repair_publications.py:199 | the lazy field ends at the first `}` followed by optional whitespace and a comma |
| Bibtex.AccentedLetterBlocksKeyword | tools/repair_publications.py:199 | `\b` counts accented letters as word characters: `éauthor={X},` has no author field |
| Bibtex.AuthorFieldFirst | tools/repair_publications.py:199 | a one-line entry whose author field holds no `}` yields exactly that field |
| Bibtex.NonBlankParts | tools/repair_publications.py:204 | the kept parts are non-empty and stripped, no more than the input parts |
| Bibtex.GivenFirst | tools/repair_publications.py:210-213 | a stripped family name gives a stripped name |
| Bibtex.BibNameStripped | tools/repair_publications.py:206-215 | each converted part of a stripped part is stripped |
| Bibtex.ParseBibtexAuthors | tools/repair_publications.py:195-216 | the parser returns the converted non-blank `" and "` parts of the author field |
| Bibtex.ConvertParts | tools/repair_publications.py:205-216 | the loop converts every part, in order |
| Bibtex.NoFieldNoAuthors | tools/repair_publications.py:199-201 | no author field gives no names |
| Bibtex.BibAuthorsShape | tools/repair_publications.py:202-215 | one stripped name per non-blank part of the field |
| Bibtex.BibNameSwaps | tools/repair_publications.py:208-211 | "Family, Given" is written "Given Family" |
| Bibtex.BibNameFamilyOnly | tools/repair_publications.py:212-213 | "Family," with nothing after the comma is written "Family" |
| Bibtex.BibNameNoComma | tools/repair_publications.py:214-215 | a part without a comma is kept as it is |
| RepairCards.ExcludedYear | tools/repair_publications.py:155-156 | a card with an excluded year is dropped, whatever its other fields are |
| RepairCards.ExcludedDoiUrl | tools/repair_publications.py:158-160 | an excluded DOI is also caught when the card gives it as a `https://doi.org/` URL |
| RepairCards.KeptCard | tools/repair_publications.py:154-167 | a kept card has a non-excluded year, a non-excluded DOI and none of the snippets |
| RepairCards.ExcludeIgnoresCase | tools/repair_publications.py:154-167 | letter case in venue, citation and DOI does not change the verdict |
| RepairCards.RunEnd | tools/repair_publications.py:331 | the quoted run ends at the first closing quote or at the end |
| RepairCards.AuthorsEnd | tools/repair_publications.py:340 | the lazy author match ends at the first `, “` before any newline |
| RepairCards.TitleFromLine | tools/repair_publications.py:329-335 | the title reader returns the text inside the first quotes, trimmed of " ,.;" |
| RepairCards.TitleRoundTrip | tools/repair_publications.py:329-335 | the title read from a rebuilt citation line is the title written into it |
| RepairCards.AuthorsFromLine | tools/repair_publications.py:338-343 | the author reader returns the stripped text before the first `, “` |
| RepairCards.AuthorsRoundTrip | tools/repair_publications.py:338-343 | the authors read from a rebuilt citation line are the ones written into it |
| RepairCards.CiteLineRaw | tools/repair_publications.py:452 | a citation line built from stripped authors needs no further trimming |
| CardRebuild.Lookup | tools/repair_publications.py:399 | a missing key reads as no value |
| CardRebuild.ResolveBadge | tools/repair_publications.py:396-416 | the badge assignments give the badge stated by precedence |
| CardRebuild.BadgeNeverUnknown | tools/repair_publications.py:415-416 | the placeholder "Q?" never reaches the page |
| CardRebuild.RankHitWins | tools/repair_publications.py:409-413 | a rank-table hit decides the badge over both overrides |
| CardRebuild.ManualWins | tools/repair_publications.py:403-407 | without a rank-table hit, the title override beats the DOI override and the old badge |
| CardRebuild.DoiOverrideWins | tools/repair_publications.py:398-401 | with neither a hit nor a title override, the DOI override beats the old badge |
| CardRebuild.BadgeKept | tools/repair_publications.py:396 | with no override the card keeps its badge, "Q?" becoming "" |
| CardRebuild.RankMapIgnoredAfter2022 | tools/repair_publications.py:410 | a card later than 2022, or without an all-digit year, ignores the rank table |
| CardRebuild.DoiOverrideApplies | tools/repair_publications.py:72-74 | the overridden Robotica DOI gets "Q2" unless a title override or the rank table decides |
| CardRebuild.ResolveLinks | tools/repair_publications.py:418-432 | the link steps give the DOI hyperlink and link stated case by case |
| CardRebuild.LinkNotRedundant | tools/repair_publications.py:427-432 | beside a DOI hyperlink, a surviving link neither repeats it nor is a DOI URL |
| CardRebuild.LandingPageMoves | tools/repair_publications.py:423-425 | a landing page beside a DOI becomes the DOI hyperlink and the separate link goes |
| CardRebuild.LinksComeFromCard | tools/repair_publications.py:418-432 | both links come from the card; the DOI hyperlink exists exactly when the DOI URL did |
| CardRebuild.PaperNeverEmpty | tools/repair_publications.py:435-437 | the paper link is never empty and follows paper, link, DOI URL, Scholar, "#" |
| CardRebuild.FixedAllAscii | tools/repair_publications.py:444 | repairing the author names leaves a list of ASCII names unchanged |
| CardRebuild.CleanNames | tools/repair_publications.py:286 | the cleaned list has no more names than the input |
| CardRebuild.CleanNamesShape | tools/repair_publications.py:286 | every listed name is non-empty, single-spaced and stripped |
| CardRebuild.CleanNamesEmpty | tools/repair_publications.py:286 | the list is empty exactly when every input name is blank |
| CardRebuild.AuthorsFromBibtexHref | tools/repair_publications.py:219-227 | no path or no readable file gives no names; otherwise the names the file's parser returns |
| CardRebuild.FixNames | tools/repair_publications.py:444 | the loop repairs every name |
| CardRebuild.RepairText | tools/repair_publications.py:383-394 | venue, citation, DOI text and badge are repaired; all else is kept |
| CardRebuild.RebuildCite | tools/repair_publications.py:440-452 | the citation line comes from BibTeX authors, else Crossref authors, else the old line's authors |
| CardRebuild.RebuildCard | tools/repair_publications.py:382-486 | the rebuilt card has the repaired text, resolved badge, resolved links, paper fallback and rebuilt citation |
| CardRebuild.LinkRowReadBack | tools/repair_publications.py:472-483 | the link row read by label gives back Link, Scholar, BibTeX (or "#") and Paper |
| CardRebuild.RebuiltPaperLink | tools/repair_publications.py:481 | every rebuilt card carries a non-empty Paper link |
| CardRebuild.RebuiltCiteReadBack | tools/repair_publications.py:449-452 | a rebuilt line reads back to the same title and authors, so repeated repairs use the same title key |
| YearListing.Kept | tools/repair_publications.py:490 | filtering never adds cards |
| YearListing.Grouped | tools/repair_publications.py:493-497 | skipping cards without a grouped year never adds cards |
| YearListing.FillStep | tools/repair_publications.py:498 | `setdefault(...).append(...)` adds one card's view to its year and keeps the key order |
| YearListing.FillYears | tools/repair_publications.py:492-498 | the year dict maps each grouped year to its cards' views in input order; the key order is first appearance |
| YearListing.RebuildView | tools/repair_publications.py:498 | one card is rebuilt as `rebuild_card` does |
| YearListing.EmitGroups | tools/repair_publications.py:502-509 | one group per year in the given order, skipping years with no cards |
| YearListing.RenderList | tools/repair_publications.py:489-510 | the page is the groups of the listed cards, by page year |
| YearListing.UnlistedCardIgnored | tools/repair_publications.py:490-497 | an excluded card, or one whose year gets no group, leaves the page unchanged |
| YearListing.ListedFacts | tools/repair_publications.py:490-497 | every listed card is an input card, not excluded, with a grouped year |
| YearListing.ListedHas | tools/repair_publications.py:490-498 | every kept card with a grouped year is listed |
| YearListing.ListedOfYear | tools/repair_publications.py:498 | a year's entry holds exactly the listed cards of that year |
| YearListing.CardsOfYearFacts | tools/repair_publications.py:493-498 | a year's cards keep input order and are kept cards of that year |
| YearListing.GroupsFacts | tools/repair_publications.py:502-509 | each group is a page year with its non-empty list of views |
| YearListing.GroupsHas | tools/repair_publications.py:502-509 | every page year that has cards gets a group |
| YearListing.GroupYearsSub | tools/repair_publications.py:502 | the groups follow the order of the sorted years |
| YearListing.PageYearsFacts | tools/repair_publications.py:500 | the page years are the listed cards' years, each once, never increasing |
| YearListing.RenderedOrdered | tools/repair_publications.py:500-509 | year groups are listed newest first |
| YearListing.FourDigitStrict | tools/repair_publications.py:352 | distinct four-digit years sorted newest first are strictly decreasing |
| YearListing.RenderedStrict | tools/repair_publications.py:500-509 | with four-digit years on dated cards, the groups' years strictly decrease |
| YearListing.RenderedGroup | tools/repair_publications.py:498-509 | each group shows a grouped year and that year's kept cards, rebuilt, in input order; no group is empty |
| YearListing.YearOnPage | tools/repair_publications.py:493-500 | every kept card with a grouped year has its year among the page years |
| YearListing.RenderedComplete | tools/repair_publications.py:490-509 | every kept card with a grouped year has its year's group on the page |
| Seqs.DedupProps | tools/update_publications.py:120-128 | dedup keeps an order-preserving subsequence with each key once, by its first occurrence |
| Seqs.SortDescProps | tools/repair_publications.py:500 | sorting descending gives a sorted permutation of the input |
| Seqs.DictOfKeys | tools/update_projects.py:107-115 | a key is in the dict exactly when a kept entry has it, with that entry's value |
| Seqs.DictOfLastWins | tools/update_projects.py:114 | the last kept entry with a key decides its value |
| UpdatePublications.DedupPubs | tools/update_publications.py:120-128 | the loop with the `seen` set is first-occurrence dedup by (case-folded title, year) |
| UpdatePublications.PubKeyIgnoresCase | tools/update_publications.py:124 | rows differing only in title case share a key |
| UpdatePublications.AbsScholarUrl | tools/update_publications.py:68-72 | the result always starts with "http" |
| UpdatePublications.AbsScholarUrlAbsolute | tools/update_publications.py:70-71 | an absolute link without entities is kept as is |
| UpdatePublications.AbsScholarUrlRelative | tools/update_publications.py:72 | a relative link is placed on the Scholar host |
| UpdatePublications.AbsScholarUrlEntity | tools/update_publications.py:69 | `&amp;` is decoded before the link is made absolute |
| UpdatePublications.NormTitle | tools/update_publications.py:145-148 | a title key holds only `a`-`z`, `0`-`9` and single spaces, with none at the ends |
| UpdatePublications.NormTitleIdempotent | tools/update_publications.py:145-148 | a title key is its own key |
| UpdatePublications.NormTitleIgnoresCase | tools/update_publications.py:146 | letter case does not change the key |
| UpdatePublications.NormTitleKeepsAlnum | tools/update_publications.py:147-148 | the key keeps exactly the lower-cased letters and digits, in order |
| UpdatePublications.NormTitleAgreesWithNorm | tools/update_publications.py:145-148 | on titles without quote characters the two scripts' title keys agree |
| UpdatePublications.CrossrefExactTitle | tools/update_publications.py:163-186 | a hit with the query's own non-empty title key is accepted |
| UpdatePublications.CrossrefAcceptedSharesWord | tools/update_publications.py:165-186 | an accepted hit shares a title word with the query |
| UpdatePublications.SanitizeDoi | tools/update_publications.py:201-208 | a sanitised name holds only `[a-z0-9._-]` |
| UpdatePublications.FileSafe | tools/update_publications.py:207 | the substitution leaves only `[a-z0-9._-]` |
| UpdatePublications.SanitizeDoiNoSlash | tools/update_publications.py:206-207 | a sanitised name holds no path separator |
| UpdatePublications.SanitizeDoiIdempotent | tools/update_publications.py:201-208 | sanitising a sanitised name changes nothing |
| UpdatePublications.SanitizeSafe | tools/update_publications.py:201-208 | a name made of `[a-z0-9._-]` is its own sanitised form |
| UpdatePublications.SanitizeDoiOfUrl | tools/update_publications.py:204 | a DOI given as its `https://doi.org/` URL gets the bare DOI's file name |
| UpdatePublications.Slug | tools/update_publications.py:211-215 | a slug is non-empty, at most 80 characters, and has no hyphen at either end |
| UpdatePublications.SlugChars | tools/update_publications.py:211-215 | a slug holds only `a`-`z`, `0`-`9` and hyphens |
| UpdatePublications.FallbackKey | tools/update_publications.py:218-221 | the fallback key starts with the title's slug |
| UpdatePublications.FirstPdf | tools/update_publications.py:404-410 | the found link is the first that passes the PDF test; none means no link passes |
| UpdatePublications.SelectPdf | tools/update_publications.py:403-413 | the loop with its early break picks the first PDF-like link, else the first link |
| UpdatePublications.PdfChoiceFirst | tools/update_publications.py:404-410 | the first link passing the test is chosen |
| UpdatePublications.PdfChoiceFallback | tools/update_publications.py:411-413 | without a PDF-like link the first link is taken, or none |
| UpdatePublications.PdfChoicePreferred | tools/update_publications.py:408 | when some link passes the test, the chosen one does too |
| UpdatePublications.Enrich | tools/update_publications.py:389-436 | one loop body records the link, DOI, DOI URL, PDF and BibTeX file name |
| UpdatePublications.EnrichedDoi | tools/update_publications.py:397-401 | a DOI URL exists exactly with a DOI and is that DOI on `doi.org`; no match, no DOI or PDF |
| UpdatePublications.EnrichedBibName | tools/update_publications.py:416-436 | every publication gets a `.bib` name: the sanitised DOI if BibTeX was served, else the fallback key |
| UpdatePublications.LinkFallbacks | tools/update_publications.py:257-258 | Link is landing page, else DOI URL, else Scholar; Paper is PDF, else Link; both set when Scholar is |
| UpdatePublications.BibtexLinkLostAsWritten | tools/update_publications.py:282-285 | as written, no link on a card with a BibTeX file carries the label "BibTeX" |
| UpdatePublications.BibtexLinkFound | tools/update_publications.py:282-287 | with the label corrected, the "BibTeX" link points to the card's file under `bibtex/` |
| UpdatePublications.PubCardAsWrittenLabel | tools/update_publications.py:279-288 | the card as written differs from the corrected card only in the label of the BibTeX file link |
| UpdatePublications.PubCardReadBack | tools/update_publications.py:279-288 | the Link, Scholar and Paper targets read back from the card under their labels |
| UpdatePublications.GroupPubs | tools/update_publications.py:236-239 | each label maps to its publications in input order; the key order is first appearance |
| UpdatePublications.BucketStep | tools/update_publications.py:239 | placing one more publication appends it to its label's list |
| UpdatePublications.RenderCards | tools/update_publications.py:248-291 | one card per publication of a group, in order (corrected BibTeX label) |
| UpdatePublications.RenderGroup | tools/update_publications.py:246-292 | a group is its heading and its cards (corrected BibTeX label) |
| UpdatePublications.EmitPubGroups | tools/update_publications.py:245-292 | one group per key, in the sorted order (corrected BibTeX label) |
| UpdatePublications.BuildPublicationsHtml | tools/update_publications.py:235-294 | the page is the groups of the publications, by label, sorted newest first (corrected BibTeX label) |
| UpdatePublications.PageGroupYears | tools/update_publications.py:245-246 | the page's group labels are exactly the sorted keys |
| UpdatePublications.PageKeysFacts | tools/update_publications.py:241-245 | the keys are the publications' labels, each once, ranks never increasing |
| UpdatePublications.PageOrdered | tools/update_publications.py:241-245 | groups are newest first, no label repeats, and non-numeric labels such as "Unknown" come last |
| UpdatePublications.PageGroupContents | tools/update_publications.py:236-248 | each group holds its label's publications in input order and is never empty |
| UpdatePublications.PageComplete | tools/update_publications.py:237-248 | every publication appears in its year's group; an undated one under "Unknown" |
| UpdateProjects.StripTags | tools/update_projects.py:83-84 | the text is single-spaced and stripped, with its other characters kept in order |
| UpdateProjects.ProjectKeyShape | tools/update_projects.py:87-92 | a key is lower case, single-spaced, and has none of " .,:;" or tab/newline at its ends |
| UpdateProjects.ProjectKeyFixpoint | tools/update_projects.py:87-92 | a string already in key form is its own key |
| UpdateProjects.ProjectKeyIdempotent | tools/update_projects.py:87-92 | normalising twice is normalising once |
| UpdateProjects.ProjectKeyIgnoresCase | tools/update_projects.py:89 | titles differing only in case share a key |
| UpdateProjects.IntOfNat | tools/update_projects.py:145 | `int(str(n)) == n` |
| UpdateProjects.IntOfNoDigit | tools/update_projects.py:145 | `int` raises on text with no digit |
| UpdateProjects.DateFrom | tools/update_projects.py:148-151 | a date is built only for a valid calendar day, in the given year |
| UpdateProjects.ParseDateAsWritten | tools/update_projects.py:137-151 | the parser as written gives no date, a valid date, or an uncaught error |
| UpdateProjects.ParseDate | tools/update_projects.py:137-151 | the corrected parser only ever gives a valid date |
| UpdateProjects.ParseDateText | tools/update_projects.py:141-151 | `d/m/y` reads back as that date (years below 100 in the 2000s) when the day exists, else none |
| UpdateProjects.ParseDateBlank | tools/update_projects.py:138-140 | a blank field is no date |
| UpdateProjects.ParseDateAsWrittenRaises | tools/update_projects.py:144-145 | the written parser raises exactly on three parts with a non-integer year; otherwise it agrees with the corrected one |
| UpdateProjects.ParseDateNonNumericYear | tools/update_projects.py:145 | "1/1/xx" raises as written and gives no date once corrected |
| UpdateProjects.YearPartFacts | tools/update_projects.py:158 | a year part is empty exactly without a date, and otherwise is the year's digits |
| UpdateProjects.YearIntervalReadBack | tools/update_projects.py:154-163 | over the corrected parser: the badge is empty exactly when neither date parses; split at the dash it gives back the years that parse |
| UpdateProjects.YearIntervalAsWrittenAgrees | tools/update_projects.py:135-163 | the written `_year_interval` raises exactly when either date makes the written parser raise, and otherwise gives the corrected badge |
| UpdateProjects.IntervalReadBack | tools/update_projects.py:157-163 | "S–E", "S–", "–E" or "" by which dates exist, each side reading back as its year |
| UpdateProjects.SplitOngoingPast | tools/update_projects.py:196-212 | over the corrected parser: the loop builds the ongoing and the past lists as filters of the input |
| UpdateProjects.SplitStep | tools/update_projects.py:201-210 | each project extends exactly one of the two lists |
| UpdateProjects.SplitPartition | tools/update_projects.py:196-212 | the two lists partition the input as a multiset, each in input order |
| UpdateProjects.SplitMembers | tools/update_projects.py:202-210 | over the corrected parser: ongoing exactly when not forced and the end is missing, unparsable, or today or later; past otherwise |
| UpdateProjects.GoesPastAgrees | tools/update_projects.py:201-210 | wherever the written loop does not raise, each project goes to the same list as in the model |
| UpdateProjects.ForcedGoesPast | tools/update_projects.py:202-205 | a forced title is past and not ongoing, whatever its end date |
| UpdateProjects.LoadProjectLinks | tools/update_projects.py:107-115 | the loop builds the link dict from the usable entries in file order |
| UpdateProjects.LinksKeys | tools/update_projects.py:107-115 | a key is present exactly when a usable entry's title has that key; links are non-empty and stripped |
| UpdateProjects.LinksLastWins | tools/update_projects.py:114 | among entries sharing a key, the last usable one wins |
| UpdateProjects.RenderCompetitiveCards | tools/update_projects.py:219-247 | over the corrected parser: one card per project whose title is not excluded, in order |
| UpdateProjects.RenderCard | tools/update_projects.py:225-245 | over the corrected parser: the card of one project |
| UpdateProjects.ShownFacts | tools/update_projects.py:222-224 | a project gets a card exactly when its title key is not excluded; order is kept |
| UpdateProjects.CardBadge | tools/update_projects.py:225-231 | over the corrected parser: a card has a year badge exactly when its start or end date parses |
| UpdateProjects.CardWeb | tools/update_projects.py:240-244 | a card has a "Web" link exactly when a usable link entry has its title key; the link is the last such entry's |

## Left out

Parsing and fetching:
- HTTP: the Scholar, URJC, rank-page and Crossref fetches and the file reads and writes are not modelled. Their results are parameters: `CardRebuild.Sources`, the `link`, `cr`, `bibtexServed` and `hash` arguments of `UpdatePublications.Enrich`, the project list, the link-file entries and `today`.
- Regex scraping of raw HTML is not modelled. This covers `parse_cards`, `_parse_profile_rows`, the entry regex of `fetch_rank_map`, and `fetch_competitive_projects` with `_field_value` and `_ul_after_label`. Records start from already-extracted fields; only the label-to-href reading of a link row is kept (`Markup.HrefOf`).
- `html.unescape` is not modelled, and texts are taken to be entity-free. The exception is `_clean_url`, where unescaping is a function parameter. `_norm`, `_norm_text_for_filter`, `_norm_doi_for_match`, the project `_norm_title` and `_strip_tags` skip this step.
- `html.escape` of written text is not modelled: the cards carry the raw strings.
- The page templates are not modelled: the `<head>`/header/footer text, `write_publications_page` and the project page writer.
- `render_open_source_cards` and its fixed list are not modelled: they use no record logic.
- `UpdateProjects.StripTags`: the tag removal and the `<br>` rewrite of `_strip_tags` are not modelled, only its whitespace part.

String and number semantics:
- `str.casefold` and `str.lower` are modelled on Latin-1 only. Other case mappings, and multi-character folds such as "ß" to "ss", are not modelled.
- Bibtex.KeywordAt: the `\b` before `author` treats the Latin-1 letters and numerals as word characters, as Python does, but not the word characters beyond Latin-1.
- `str.isdigit` and `int` accept ASCII digits only in the model. Python also accepts other Unicode digits and `_` digit separators. Signs and surrounding whitespace are modelled.
- The match score uses exact reals (0.08 = 2/25, 0.35 = 7/20) instead of binary floats, so a score that rounds across 0.35 in Python is not modelled.
- `hashlib.sha1` in `_make_id_fallback` is a parameter (`hash`).
- The `isinstance` checks on Crossref records (an author list that is not a list, an author that is not a dict) are not modelled: `Crossref.Item` holds well-formed fields.
- `load_project_links`: a missing, unreadable or non-object file gives `{}` and is the caller's empty entry list. JSON keys are always strings, so only values are checked (`UpdateProjects.Json`).

Defects of the code, corrected in the page-level members:
- RenderCards: the cards are built with the "BibTeX" label, where tools/update_publications.py:284 writes "BiBTeX"; `UpdatePublications.PubCardAsWrittenLabel` shows this is the only difference.
- RenderGroup: its cards carry the corrected "BibTeX" label, as in RenderCards.
- EmitPubGroups: every emitted card carries the corrected "BibTeX" label, as in RenderCards.
- BuildPublicationsHtml: the page's cards carry the corrected "BibTeX" label, as in RenderCards.
- YearIntervalReadBack: it is stated over the corrected `ParseDate`. For a non-numeric year the written `_year_interval` raises ValueError instead; `UpdateProjects.YearIntervalAsWrittenAgrees` shows the two agree on every other input.
- SplitOngoingPast: it uses the corrected `ParseDate`, so an end date such as "1/1/xx" puts the project under ongoing, where the written loop raises ValueError; `UpdateProjects.GoesPastAgrees` shows the decisions agree wherever the written loop does not raise.
- SplitMembers: "unparsable end" includes a non-numeric year, on which the written loop raises instead, as in SplitOngoingPast.
- RenderCompetitiveCards: it renders a card where the written `_year_interval` raises on a non-numeric year, as in YearIntervalReadBack.
- RenderCard: its badge comes from the corrected interval, as in YearIntervalReadBack.
- CardBadge: it ties the badge to the corrected `ParseDate`, as in YearIntervalReadBack.

Side effects:
- The fallback BibTeX text and `write_bibtex_file` are not modelled: only the file name is (`UpdatePublications.EnrichedBibName`).
- `EnrichedPub` fields set in place in `main` are modelled as one value built field by field (`UpdatePublications.Enrich`).

## Findings

| source | as written | input that shows it | evidently intended | confidence | as-written member | corrected member |
|---|---|---|---|---|---|---|
| tools/update_publications.py:282-285 | the BibTeX file link is labelled "BiBTeX", while the repair pass looks the file up under "BibTeX" (tools/repair_publications.py:372) | any publication with a BibTeX file name: after import, the repair pass finds no BibTeX link and writes `#` | label the link "BibTeX", as the `#` placeholder on line 287 is | not executed; high | UpdatePublications.BibtexLinkLostAsWritten | UpdatePublications.BibtexLinkFound |
| tools/update_projects.py:145 | `int(y)` runs outside the `try`, so a non-numeric year raises `ValueError` and aborts the page build | end date "1/1/xx" (UpdateProjects.ParseDateNonNumericYear) | every malformed date gives `None`, like a bad day or month does | not executed; medium | UpdateProjects.ParseDateAsWritten | UpdateProjects.ParseDate |
