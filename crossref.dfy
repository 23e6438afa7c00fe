/**
 * The Crossref title matcher both publication scripts share: the candidates
 * of a `works?query.bibliographic=` search are scored by Jaccard overlap of
 * their normalised title words with the query's, plus a bonus of 0.08 for an
 * exact year match; the first best-scoring candidate is taken when it scores
 * at least 0.35. Scores are exact rationals (`real`), not binary floats.
 */
module Crossref {
  import opened Wrappers
  import opened Strings

  datatype Author = Author(given: string, family: string)

  /**
   * One search hit, reduced to the fields the scripts read. `title` is the
   * first entry of the record's title list ("" when it has none);
   * `issuedYear` is the first `issued.date-parts` entry, 0 when missing;
   * `doi` is "" when missing; `linkUrls` are the `URL`s of its `link` list.
   */
  datatype Item = Item(title: string, issuedYear: nat, authors: seq<Author>, doi: string, linkUrls: seq<string>)

  const YearBonus: real := 2.0 / 25.0
  const Threshold: real := 7.0 / 20.0

  /** `str(y)` of the issued year, or "" when there is none. */
  function YearText(it: Item): (r: string)
    ensures r == [] <==> it.issuedYear == 0
  {
    if it.issuedYear == 0 then "" else NatToString(it.issuedYear)
  }

  /** `set(s.split())`. */
  function WordSet(s: string): set<string> {
    set w | w in Words(s)
  }

  lemma {:induction false} SubsetCard<T>(a: set<T>, b: set<T>)
    requires a <= b
    ensures |a| <= |b|
    decreases |a|
  {
    if a != {} {
      var x :| x in a;
      SubsetCard(a - {x}, b - {x});
    }
  }

  /** `len(a & b) / max(1, len(a | b))`, a ratio in [0, 1]. */
  function Jaccard(a: set<string>, b: set<string>): (r: real)
    ensures 0.0 <= r <= 1.0
    ensures r == 0.0 <==> a * b == {}
  {
    SubsetCard(a * b, a + b);
    var union := if |a + b| < 1 then 1 else |a + b|;
    RatioBounds(|a * b|, union);
    (|a * b| as real) / (union as real)
  }

  lemma {:induction false} RatioBounds(n: nat, d: nat)
    requires 1 <= d && n <= d
    ensures 0.0 <= (n as real) / (d as real) <= 1.0
    ensures (n as real) / (d as real) == 0.0 <==> n == 0
  {
  }

  /** The year bonus: 0.08 exactly when the query year is given and equals the hit's. */
  function Bonus(year: string, it: Item): (r: real)
    ensures r == (if year != [] && YearText(it) == year then YearBonus else 0.0)
  {
    if year != [] && YearText(it) == year then YearBonus else 0.0
  }

  /** The score of one hit against the normalised query `want`. */
  function Score(norm: string -> string, want: string, year: string, it: Item): real
  {
    var cand := norm(it.title);
    if cand == [] then 0.0 else Jaccard(WordSet(want), WordSet(cand)) + Bonus(year, it)
  }

  /** What a score is made of: nothing for an untitled hit, else overlap plus bonus. */
  lemma {:induction false} ScoreParts(norm: string -> string, want: string, year: string, it: Item)
    ensures norm(it.title) == [] ==> Score(norm, want, year, it) == 0.0
    ensures norm(it.title) != [] ==>
      Score(norm, want, year, it) == Jaccard(WordSet(want), WordSet(norm(it.title))) + Bonus(year, it)
    ensures 0.0 <= Score(norm, want, year, it) <= 1.0 + YearBonus
  {
  }

  /**
   * What the year buys: of two hits with the same normalised title, the one
   * whose year equals the (given) query year scores exactly 0.08 more.
   */
  lemma {:induction false} ScoreYearBonus(norm: string -> string, want: string, year: string, a: Item, b: Item)
    requires norm(a.title) == norm(b.title) && norm(a.title) != []
    requires year != [] && YearText(a) == year && YearText(b) != year
    ensures Score(norm, want, year, a) == Score(norm, want, year, b) + YearBonus
  {
  }

  /** Without a query year, or when both years agree, the hits' scores tie. */
  lemma {:induction false} ScoreYearTie(norm: string -> string, want: string, year: string, a: Item, b: Item)
    requires norm(a.title) == norm(b.title)
    requires year == [] || YearText(a) == YearText(b)
    ensures Score(norm, want, year, a) == Score(norm, want, year, b)
  {
  }

  /** The year bonus alone never reaches the threshold: an accepted hit shares a title word. */
  lemma {:induction false} BonusBelowThreshold(norm: string -> string, want: string, year: string, it: Item)
    requires Score(norm, want, year, it) >= Threshold
    ensures norm(it.title) != []
    ensures WordSet(want) * WordSet(norm(it.title)) != {}
  {
  }

  function Scores(norm: string -> string, want: string, year: string, items: seq<Item>): (r: seq<real>)
    ensures |r| == |items|
    ensures forall i :: 0 <= i < |items| ==> r[i] == Score(norm, want, year, items[i])
  {
    seq(|items|, i requires 0 <= i < |items| => Score(norm, want, year, items[i]))
  }

  /**
   * The index `max(xs)` picks: scanning left to right, a later element
   * replaces the current best only when strictly greater, so it is the
   * first of the maximal elements.
   */
  function ArgMaxFirst(xs: seq<real>): (k: nat)
    requires xs != []
    ensures k < |xs|
    ensures forall j :: 0 <= j < |xs| ==> xs[j] <= xs[k]
    ensures forall j :: 0 <= j < k ==> xs[j] < xs[k]
  {
    if |xs| == 1 then 0
    else
      var k := ArgMaxFirst(xs[..|xs| - 1]);
      assert forall j :: 0 <= j < |xs| - 1 ==> xs[..|xs| - 1][j] == xs[j];
      if xs[|xs| - 1] > xs[k] then |xs| - 1 else k
  }

  /** `_crossref_best_match` / `crossref_best_match` once the search results are in hand. */
  function BestMatch(norm: string -> string, title: string, year: string, items: seq<Item>): Option<Item>
  {
    if items == [] then None
    else
      var want := norm(title);
      var best := items[ArgMaxFirst(Scores(norm, want, year, items))];
      if Score(norm, want, year, best) < Threshold then None else Some(best)
  }

  /**
   * The matcher accepts a hit exactly when some hit reaches the threshold,
   * and then returns the first hit of maximal score.
   */
  lemma {:induction false} BestMatchSpec(norm: string -> string, title: string, year: string, items: seq<Item>)
    ensures BestMatch(norm, title, year, items).None? <==>
      forall i :: 0 <= i < |items| ==> Score(norm, norm(title), year, items[i]) < Threshold
    ensures BestMatch(norm, title, year, items).Some? ==>
      exists k :: 0 <= k < |items| && BestMatch(norm, title, year, items).value == items[k]
        && Score(norm, norm(title), year, items[k]) >= Threshold
        && (forall j :: 0 <= j < |items| ==> Score(norm, norm(title), year, items[j]) <= Score(norm, norm(title), year, items[k]))
        && (forall j :: 0 <= j < k ==> Score(norm, norm(title), year, items[j]) < Score(norm, norm(title), year, items[k]))
  {
    if items != [] {
      var want := norm(title);
      var xs := Scores(norm, want, year, items);
      var k := ArgMaxFirst(xs);
      assert xs[k] == Score(norm, want, year, items[k]);
    }
  }

  /** A hit whose normalised title is the query's own scores at least 1. */
  lemma {:induction false} ExactTitleScore(norm: string -> string, want: string, year: string, it: Item)
    requires norm(it.title) == want
    requires want != [] && !IsSpace(want[0])
    ensures Score(norm, want, year, it) >= 1.0
  {
    assert WordSet(want) != {} by {
      WordsNonEmpty(want, 0);
      assert Words(want)[0] in WordSet(want);
    }
    JaccardSelf(WordSet(want));
  }

  /** A hit whose normalised title is the query's own is always accepted. */
  lemma {:induction false} ExactTitleAccepted(norm: string -> string, title: string, year: string, items: seq<Item>, i: nat)
    requires i < |items| && norm(items[i].title) == norm(title)
    requires norm(title) != [] && !IsSpace(norm(title)[0])
    ensures BestMatch(norm, title, year, items).Some?
  {
    ExactTitleScore(norm, norm(title), year, items[i]);
    BestMatchSpec(norm, title, year, items);
  }

  /** An accepted hit never has a title disjoint from the query's words. */
  lemma {:induction false} AcceptedSharesWord(norm: string -> string, title: string, year: string, items: seq<Item>)
    requires BestMatch(norm, title, year, items).Some?
    ensures WordSet(norm(title)) * WordSet(norm(BestMatch(norm, title, year, items).value.title)) != {}
  {
    BestMatchSpec(norm, title, year, items);
    var k :| 0 <= k < |items| && BestMatch(norm, title, year, items).value == items[k]
      && Score(norm, norm(title), year, items[k]) >= Threshold;
    BonusBelowThreshold(norm, norm(title), year, items[k]);
  }

  /** A non-empty word set matched against itself scores a full 1. */
  lemma {:induction false} JaccardSelf(a: set<string>)
    requires a != {}
    ensures Jaccard(a, a) == 1.0
  {
    assert a * a == a && a + a == a;
    var n := |a| as real;
    assert n > 0.0;
    assert n / n == 1.0;
  }

  /** Jaccard overlap does not depend on which side is the query. */
  lemma {:induction false} JaccardSymmetric(a: set<string>, b: set<string>)
    ensures Jaccard(a, b) == Jaccard(b, a)
  {
    assert a * b == b * a && a + b == b + a;
  }

  // ---------------------------------------------------------------------
  // Author names of a matched record
  // ---------------------------------------------------------------------

  /**
   * An author's display name: the stripped given and family names, joined
   * by one space when both are present.
   */
  function AuthorName(a: Author): (r: string)
    ensures IsStripped(r)
  {
    var g, f := Strip(a.given), Strip(a.family);
    if g == [] then f
    else if f == [] then g
    else
      JoinedStripped(g, f);
      g + " " + f
  }

  /** Two stripped, non-empty names joined by a space are still stripped. */
  lemma {:induction false} JoinedStripped(g: string, f: string)
    requires IsStripped(g) && IsStripped(f) && g != [] && f != []
    ensures IsStripped(g + " " + f)
  {
    var r := g + " " + f;
    assert r[0] == g[0] && r[|r| - 1] == f[|f| - 1];
  }

  /** `AuthorName` is `(given.strip() + " " + family.strip()).strip()`. */
  lemma {:induction false} AuthorNameIsStrip(a: Author)
    ensures AuthorName(a) == Strip(Strip(a.given) + " " + Strip(a.family))
  {
    JoinedNameStrip(Strip(a.given), Strip(a.family));
  }

  lemma {:induction false} JoinedNameStrip(g: string, f: string)
    requires IsStripped(g) && IsStripped(f)
    ensures Strip(g + " " + f) == (if g == [] then f else if f == [] then g else g + " " + f)
  {
    if g == [] {
      assert g + " " + f == " " + f;
      StripSpaceBefore(f);
    } else if f == [] {
      assert g + " " + f == g + " ";
      StripSpaceAfter(g);
    } else {
      JoinedStripped(g, f);
      StripOfTrimmed(g + " " + f);
    }
  }

  /** The non-empty author names of a record, in order, each without surrounding whitespace. */
  function AuthorNames(authors: seq<Author>): (names: seq<string>)
    ensures |names| <= |authors|
    ensures forall i :: 0 <= i < |names| ==> names[i] != [] && IsStripped(names[i])
  {
    if authors == [] then []
    else
      var n := AuthorName(authors[0]);
      var rest := AuthorNames(authors[1..]);
      if n != [] then
        assert forall i :: 0 < i <= |rest| ==> ([n] + rest)[i] == rest[i - 1];
        [n] + rest
      else rest
  }

  /** `_authors_from_crossref` given the matcher's answer. */
  method AuthorsFromCrossref(item: Option<Item>) returns (out: seq<string>)
    ensures item.None? ==> out == []
    ensures item.Some? ==> out == AuthorNames(item.value.authors)
  {
    out := [];
    if item.None? {
      return;
    }
    var authors := item.value.authors;
    var i := 0;
    while i < |authors|
      invariant 0 <= i <= |authors|
      invariant out + AuthorNames(authors[i..]) == AuthorNames(authors)
    {
      var name := AuthorName(authors[i]);
      AuthorNamesStep(authors, i, out);
      if name != [] {
        out := out + [name];
      }
      i := i + 1;
    }
    assert authors[i..] == [];
  }

  lemma {:induction false} AuthorNamesStep(authors: seq<Author>, i: nat, out: seq<string>)
    requires i < |authors|
    ensures out + AuthorNames(authors[i..]) ==
      out + (if AuthorName(authors[i]) != [] then [AuthorName(authors[i])] else []) + AuthorNames(authors[i + 1..])
  {
    var kept: seq<string> := if AuthorName(authors[i]) != [] then [AuthorName(authors[i])] else [];
    assert authors[i..][0] == authors[i] && authors[i..][1..] == authors[i + 1..];
    assert AuthorNames(authors[i..]) == kept + AuthorNames(authors[i + 1..]);
    assert out + (kept + AuthorNames(authors[i + 1..])) == out + kept + AuthorNames(authors[i + 1..]);
  }
}
