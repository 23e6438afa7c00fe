/**
 * The small BibTeX reader of the repair pass: where a card's BibTeX link
 * points, the `author={...},` field of the file, and the author names in
 * it, each turned from "Family, Given" into "Given Family".
 */
module Bibtex {
  import opened Wrappers
  import opened Strings
  import Seqs

  // ---------------------------------------------------------------------
  // The file a BibTeX link points to
  // ---------------------------------------------------------------------

  const BibtexDir: string := "bibtex/"

  /**
   * `_bibtex_path_from_href`: the link with its leading slashes removed,
   * when it lies under `bibtex/`; the path is given relative to the site.
   */
  function BibtexPath(href: string): (r: Option<string>)
    ensures r.Some? ==> BibtexDir <= r.value
  {
    if href == [] then None
    else
      var h := TrimLeft(href, c => c == '/');
      if BibtexDir <= h then Some(h) else None
  }

  /** Leading slashes do not change where a link points. */
  lemma {:induction false} BibtexPathSlash(h: string)
    ensures BibtexPath("/" + h) == BibtexPath(h)
  {
    var s := "/" + h;
    assert s[1..] == h;
    assert TrimLeft(s, c => c == '/') == TrimLeft(h, c => c == '/');
  }

  // ---------------------------------------------------------------------
  // The author field
  // ---------------------------------------------------------------------

  /**
   * `\w` of a `str` pattern on Latin-1: the underscore and the characters
   * `str.isalnum` accepts there, which are the ASCII letters and digits,
   * the accented letters, ª µ º, and the numerals ² ³ ¹ ¼ ½ ¾.
   */
  predicate IsWordChar(c: char) {
    || ('a' <= c <= 'z') || ('A' <= c <= 'Z') || IsDigit(c) || c == '_'
    || c == '\U{AA}' || c == '\U{B2}' || c == '\U{B3}' || c == '\U{B5}'
    || c == '\U{B9}' || c == '\U{BA}' || ('\U{BC}' <= c <= '\U{BE}')
    || ('\U{C0}' <= c <= '\U{FF}' && c != '\U{D7}' && c != '\U{F7}')
  }

  const Keyword: string := "author"
  const KeywordUpper: string := "AUTHOR"

  /** `\bauthor` matched without regard to case at position `p`. */
  predicate KeywordAt(t: string, p: nat) {
    && p + 6 <= |t|
    && (forall k :: 0 <= k < 6 ==> t[p + k] == Keyword[k] || t[p + k] == KeywordUpper[k])
    && (p == 0 || !IsWordChar(t[p - 1]))
  }

  /** `\}\s*,` at position `j`: the brace that closes the author field. */
  predicate ClosesAt(t: string, j: nat)
    requires j < |t|
  {
    t[j] == '}' && SkipSpace(t, j + 1) < |t| && t[SkipSpace(t, j + 1)] == ','
  }

  /** The lazy `(.*?)` of the field: the first closing brace at or after `j`. */
  function FieldClose(t: string, j: nat): (r: Option<nat>)
    requires j <= |t|
    ensures r.Some? ==> j <= r.value < |t| && ClosesAt(t, r.value)
    ensures r.Some? ==> forall k :: j <= k < r.value ==> !ClosesAt(t, k)
    ensures r.None? ==> forall k :: j <= k < |t| ==> !ClosesAt(t, k)
    decreases |t| - j
  {
    if j == |t| then None
    else if ClosesAt(t, j) then Some(j)
    else FieldClose(t, j + 1)
  }

  /** The field content when `\bauthor\s*=\s*\{(.*?)\}\s*,` matches at `p`. */
  function MatchAt(t: string, p: nat): Option<string> {
    if !KeywordAt(t, p) then None
    else
      var q1 := SkipSpace(t, p + 6);
      if q1 == |t| || t[q1] != '=' then None
      else
        var q2 := SkipSpace(t, q1 + 1);
        if q2 == |t| || t[q2] != '{' then None
        else
          match FieldClose(t, q2 + 1)
          case Some(e) => Some(t[q2 + 1..e])
          case None => None
  }

  /** `re.search`: the match starting leftmost at or after `p`. */
  function AuthorField(t: string, p: nat): Option<string>
    requires p <= |t|
    decreases |t| - p
  {
    if p == |t| then None
    else if MatchAt(t, p).Some? then MatchAt(t, p)
    else AuthorField(t, p + 1)
  }

  /** A one-line entry whose author field holds no closing brace yields exactly that field. */
  lemma {:induction false} AuthorFieldFirst(x: string, rest: string)
    requires forall i :: 0 <= i < |x| ==> x[i] != '}'
    ensures AuthorField("author={" + x + "}," + rest, 0) == Some(x)
  {
    var t := "author={" + x + "}," + rest;
    assert t[..6] == Keyword;
    assert KeywordAt(t, 0);
    assert t[6] == '=' && t[7] == '{';
    assert SkipSpace(t, 6) == 6;
    assert SkipSpace(t, 7) == 7;
    var e := 8 + |x|;
    assert t[e] == '}' && t[e + 1] == ',';
    assert SkipSpace(t, e + 1) == e + 1;
    assert forall k :: 8 <= k < e ==> t[k] == x[k - 8];
    FieldCloseAt(t, 8, e);
    assert t[8..e] == x;
  }

  /** An accented letter before `author` is a word character, so `\b` fails and no field is found. */
  lemma {:induction false} AccentedLetterBlocksKeyword()
    ensures AuthorField("\U{E9}author={X},", 0) == None
  {
    var t := "\U{E9}author={X},";
    assert t == ['\U{E9}', 'a', 'u', 't', 'h', 'o', 'r', '=', '{', 'X', '}', ','];
    assert !KeywordAt(t, 1);
    forall p | 0 <= p < |t| && p != 1
      ensures !KeywordAt(t, p)
    {
      if p + 6 <= |t| {
        assert t[p] != Keyword[0] && t[p] != KeywordUpper[0];
      }
    }
    var p := |t|;
    while p > 0
      invariant 0 <= p <= |t|
      invariant AuthorField(t, p) == None
    {
      p := p - 1;
    }
  }

  lemma {:induction false} FieldCloseAt(t: string, j: nat, e: nat)
    requires j <= e < |t| && ClosesAt(t, e)
    requires forall k :: j <= k < e ==> t[k] != '}'
    ensures FieldClose(t, j) == Some(e)
    decreases e - j
  {
    if j < e {
      FieldCloseAt(t, j + 1, e);
    }
  }

  // ---------------------------------------------------------------------
  // Author names
  // ---------------------------------------------------------------------

  const AndSep: string := " and "

  /** The parts of the field that are not blank, each trimmed. */
  function NonBlankParts(parts: seq<string>): (r: seq<string>)
    ensures |r| <= |parts|
    ensures forall i :: 0 <= i < |r| ==> r[i] != [] && IsStripped(r[i])
  {
    if parts == [] then []
    else
      var p := Strip(parts[0]);
      var rest := NonBlankParts(parts[1..]);
      if p != [] then
        assert forall i :: 0 < i <= |rest| ==> ([p] + rest)[i] == rest[i - 1];
        [p] + rest
      else rest
  }

  /** The position of the first `c` in `s`, if any. */
  function IndexOf(s: string, c: char): (r: Option<nat>)
    ensures r.Some? ==> r.value < |s| && s[r.value] == c && forall k :: 0 <= k < r.value ==> s[k] != c
    ensures r.None? ==> forall k :: 0 <= k < |s| ==> s[k] != c
  {
    if s == [] then None
    else if s[0] == c then Some(0)
    else match IndexOf(s[1..], c)
      case Some(i) => Some(i + 1)
      case None => None
  }

  /**
   * One author part: "Family, Given" becomes "Given Family", "Family," just
   * "Family", and a part without a comma stays as it is.
   */
  function BibName(p: string): string {
    match IndexOf(p, ',')
    case None => p
    case Some(i) => GivenFirst(Strip(p[..i]), Strip(p[i + 1..]))
  }

  /** The name written given name first, or the family name alone when there is no given name. */
  function GivenFirst(family: string, given: string): (r: string)
    ensures IsStripped(family) ==> IsStripped(r)
  {
    if given != [] then Strip(given + " " + family) else family
  }

  /** A trimmed part gives a trimmed name. */
  lemma {:induction false} BibNameStripped(p: string)
    requires IsStripped(p)
    ensures IsStripped(BibName(p))
  {
  }

  /** The names `_parse_bibtex_authors` returns for a file. */
  function BibAuthors(text: string): seq<string> {
    match AuthorField(text, 0)
    case None => []
    case Some(raw) => Seqs.Map(NonBlankParts(Split(Strip(raw), AndSep)), BibName)
  }

  /** `_parse_bibtex_authors`. */
  method ParseBibtexAuthors(text: string) returns (out: seq<string>)
    ensures out == BibAuthors(text)
  {
    var field := AuthorField(text, 0);
    if field.None? {
      return [];
    }
    var parts := NonBlankParts(Split(Strip(field.value), AndSep));
    out := ConvertParts(parts);
  }

  /** The loop of `_parse_bibtex_authors` over the non-blank parts of the field. */
  method ConvertParts(parts: seq<string>) returns (out: seq<string>)
    ensures out == Seqs.Map(parts, BibName)
  {
    out := [];
    var i := 0;
    while i < |parts|
      invariant 0 <= i <= |parts|
      invariant out == Seqs.Map(parts[..i], BibName)
    {
      var p := parts[i];
      var name: string;
      match IndexOf(p, ',') {
        case None =>
          name := p;
        case Some(c) =>
          var family := Strip(p[..c]);
          var given := Strip(p[c + 1..]);
          if given != [] {
            name := Strip(given + " " + family);
          } else {
            name := family;
          }
      }
      assert name == BibName(p);
      ConvertStep(parts, i, out);
      out := out + [name];
      i := i + 1;
    }
    assert parts[..i] == parts;
  }

  lemma {:induction false} ConvertStep(parts: seq<string>, i: nat, out: seq<string>)
    requires i < |parts| && out == Seqs.Map(parts[..i], BibName)
    ensures out + [BibName(parts[i])] == Seqs.Map(parts[..i + 1], BibName)
  {
    Seqs.PrefixSnoc(parts, i);
    Seqs.MapSnoc(parts[..i], BibName, parts[i]);
  }

  /** No author field, no names. */
  lemma {:induction false} NoFieldNoAuthors(text: string)
    requires AuthorField(text, 0).None?
    ensures BibAuthors(text) == []
  {
  }

  lemma {:induction false} BibNamesStripped(parts: seq<string>)
    requires forall i :: 0 <= i < |parts| ==> IsStripped(parts[i])
    ensures forall i :: 0 <= i < |parts| ==> IsStripped(Seqs.Map(parts, BibName)[i])
  {
    forall i | 0 <= i < |parts|
      ensures IsStripped(Seqs.Map(parts, BibName)[i])
    {
      BibNameStripped(parts[i]);
    }
  }

  /** Every name read from a file is trimmed, one per non-blank part of the field. */
  lemma {:induction false} BibAuthorsShape(text: string)
    ensures AuthorField(text, 0).Some? ==>
      |BibAuthors(text)| == |NonBlankParts(Split(Strip(AuthorField(text, 0).value), AndSep))|
    ensures forall i :: 0 <= i < |BibAuthors(text)| ==> IsStripped(BibAuthors(text)[i])
  {
    if AuthorField(text, 0).Some? {
      BibNamesStripped(NonBlankParts(Split(Strip(AuthorField(text, 0).value), AndSep)));
    }
  }

  /** "Family, Given" is written "Given Family". */
  lemma {:induction false} BibNameSwaps(family: string, given: string)
    requires family != [] && IsStripped(family) && forall k :: 0 <= k < |family| ==> family[k] != ','
    requires given != [] && IsStripped(given)
    ensures BibName(family + ", " + given) == given + " " + family
  {
    assert family + ", " + given == family + [','] + (" " + given);
    CommaSplit(family, " " + given);
    StripOfTrimmed(family);
    StripSpaceBefore(given);
    GivenFirstJoins(family, given);
  }

  /** The first comma of "family,rest" is the one after `family`. */
  lemma {:induction false} CommaSplit(family: string, rest: string)
    requires forall k :: 0 <= k < |family| ==> family[k] != ','
    ensures var p := family + [','] + rest;
      && IndexOf(p, ',') == Some(|family|)
      && p[..|family|] == family
      && p[|family| + 1..] == rest
  {
    var p := family + [','] + rest;
    assert forall k :: 0 <= k < |family| ==> p[k] == family[k];
    assert p[|family|] == ',';
    assert p[..|family|] == family;
    assert p[|family| + 1..] == rest;
  }

  lemma {:induction false} GivenFirstJoins(family: string, given: string)
    requires family != [] && IsStripped(family)
    requires given != [] && IsStripped(given)
    ensures GivenFirst(family, given) == given + " " + family
  {
    var r := given + " " + family;
    assert r[0] == given[0] && r[|r| - 1] == family[|family| - 1];
    StripOfTrimmed(r);
  }

  /** "Family," with nothing after the comma is written "Family". */
  lemma {:induction false} BibNameFamilyOnly(family: string)
    requires family != [] && IsStripped(family) && forall k :: 0 <= k < |family| ==> family[k] != ','
    ensures BibName(family + ",") == family
  {
    var p := family + ",";
    assert p[0] == family[0] && p[|p| - 1] == ',';
    assert forall k :: 0 <= k < |family| ==> p[k] == family[k];
    assert IndexOf(p, ',') == Some(|family|);
    assert p[..|family|] == family;
    assert p[|family| + 1..] == [];
    StripOfTrimmed(family);
  }

  /** A part without a comma is kept as it is. */
  lemma {:induction false} BibNameNoComma(p: string)
    requires IsStripped(p) && forall k :: 0 <= k < |p| ==> p[k] != ','
    ensures BibName(p) == p
  {
  }
}
