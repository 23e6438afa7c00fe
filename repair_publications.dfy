/**
 * The text normalisers of the publication repair pass: the title key the
 * badge tables are indexed by, the DOI key the exclusion list is indexed by,
 * the text the exclusion snippets are searched in, the mojibake repair table
 * and the URL cleanup. `html.unescape` is taken to leave its input unchanged
 * everywhere except in `CleanUrl`, where it is a parameter.
 */
module RepairPublications {
  import opened Strings
  import Seqs

  // ---------------------------------------------------------------------
  // Title key
  // ---------------------------------------------------------------------

  /** The quote characters `_norm` deletes before splitting into words: “ ” " '. */
  predicate IsQuote(c: char) {
    c == '\U{201C}' || c == '\U{201D}' || c == '"' || c == '\''
  }

  predicate IsNotQuote(c: char) { !IsQuote(c) }

  /**
   * `_norm`: case-folded, quotes deleted, every run of other characters than
   * `a`-`z` and `0`-`9` turned into one space, trimmed.
   */
  function Norm(s: string): (r: string)
    ensures IsWordKey(r)
  {
    AlnumKey(Keep(Lower(s), IsNotQuote))
  }

  /** A title key is its own key, so keys can be normalised again safely. */
  lemma {:induction false} NormIdempotent(s: string)
    ensures Norm(Norm(s)) == Norm(s)
  {
    var k := Norm(s);
    WordKeyNoUpper(k);
    LowerOfLowercase(k);
    WordKeyNoQuote(k);
    KeepAll(k, IsNotQuote);
    AlnumKeyFixpoint(k);
  }

  lemma {:induction false} WordKeyNoQuote(k: string)
    requires IsWordKey(k)
    ensures forall i :: 0 <= i < |k| ==> IsNotQuote(k[i])
  {
    forall i | 0 <= i < |k|
      ensures IsNotQuote(k[i])
    {
      assert IsLowerAlnum(k[i]) || k[i] == ' ';
    }
  }

  /** Key letters and digits are never quote characters. */
  lemma {:induction false} LowerAlnumNotQuote()
    ensures forall x :: IsLowerAlnum(x) ==> IsNotQuote(x)
  {
  }

  /** Letter case does not matter to the key. */
  lemma {:induction false} NormIgnoresCase(s: string)
    ensures Norm(Lower(s)) == Norm(s)
  {
    LowerIdempotent(s);
  }

  /** The letters and digits of the key are those of the lower-cased title, in order. */
  lemma {:induction false} NormKeepsAlnum(s: string)
    ensures Keep(Norm(s), IsLowerAlnum) == Keep(Lower(s), IsLowerAlnum)
  {
    var q := Keep(Lower(s), IsNotQuote);
    AlnumKeyKeeps(q);
    LowerAlnumNotQuote();
    KeepNested(Lower(s), IsNotQuote, IsLowerAlnum);
  }

  /** Filtering by `p` first loses nothing `q` keeps when every `q` character satisfies `p`. */
  lemma {:induction false} KeepNested(s: string, p: char -> bool, q: char -> bool)
    requires forall x :: q(x) ==> p(x)
    ensures Keep(Keep(s, p), q) == Keep(s, q)
    decreases |s|
  {
    if s != [] {
      KeepNested(s[1..], p, q);
      var h: string := if p(s[0]) then [s[0]] else [];
      KeepAppend(h, Keep(s[1..], p), q);
    }
  }

  // ---------------------------------------------------------------------
  // Exclusion text
  // ---------------------------------------------------------------------

  /** The typographic characters the filter text replaces by plain ones: “ ” ’ –. */
  function PlainChar(c: char): (r: char)
    ensures c == '\U{201C}' || c == '\U{201D}' ==> r == '"'
    ensures c == '\U{2019}' ==> r == '\''
    ensures c == '\U{2013}' ==> r == '-'
    ensures c != '\U{201C}' && c != '\U{201D}' && c != '\U{2019}' && c != '\U{2013}' ==> r == c
  {
    if c == '\U{201C}' || c == '\U{201D}' then '"'
    else if c == '\U{2019}' then '\''
    else if c == '\U{2013}' then '-'
    else c
  }

  /**
   * `_norm_text_for_filter`: case-folded, typographic quotes and the en dash
   * made plain, whitespace runs collapsed to one space, trimmed.
   */
  function NormTextForFilter(s: string): (r: string)
    ensures IsStripped(r)
  {
    Strip(CollapseWs(Seqs.Map(Lower(s), PlainChar)))
  }

  /** The typographic characters the filter text makes plain. */
  predicate IsTypographic(c: char) {
    c == '\U{201C}' || c == '\U{201D}' || c == '\U{2019}' || c == '\U{2013}'
  }

  /**
   * The filter text holds none of “ ” ’ –, so a snippet written with plain
   * quotes and hyphens is what the exclusion filter compares against.
   */
  lemma {:induction false} NormTextPlain(s: string)
    ensures forall i :: 0 <= i < |NormTextForFilter(s)| ==> !IsTypographic(NormTextForFilter(s)[i])
  {
    var m := Seqs.Map(Lower(s), PlainChar);
    assert forall x :: x in m ==> !IsTypographic(x);
    CleanSpacesPlain(m);
  }

  /** Collapsing and trimming whitespace brings in no typographic character. */
  lemma {:induction false} CleanSpacesPlain(m: string)
    requires forall x :: x in m ==> !IsTypographic(x)
    ensures forall i :: 0 <= i < |Strip(CollapseWs(m))| ==> !IsTypographic(Strip(CollapseWs(m))[i])
  {
    var c := CollapseWs(m);
    var r := Strip(c);
    SubRunsChars(m, IsSpace, ' ');
    var a := StripSlice(c);
    forall i | 0 <= i < |r|
      ensures !IsTypographic(r[i])
    {
      assert r[i] == c[a + i];
    }
  }

  /** Plain and typographic spellings of quotes and dashes give the same filter text. */
  lemma {:induction false} NormTextIgnoresQuoteStyle(s: string)
    ensures NormTextForFilter(Seqs.Map(s, PlainChar)) == NormTextForFilter(s)
  {
    var p := Seqs.Map(s, PlainChar);
    var x := Seqs.Map(Lower(p), PlainChar);
    var y := Seqs.Map(Lower(s), PlainChar);
    forall i | 0 <= i < |s|
      ensures x[i] == y[i]
    {
      assert Lower(s)[i] == LowerChar(s[i]);
      assert Lower(p)[i] == LowerChar(PlainChar(s[i]));
    }
    assert x == y;
  }

  /** Letter case does not matter to the filter text. */
  lemma {:induction false} NormTextIgnoresCase(s: string)
    ensures NormTextForFilter(Lower(s)) == NormTextForFilter(s)
  {
    LowerIdempotent(s);
  }

  // ---------------------------------------------------------------------
  // DOI key
  // ---------------------------------------------------------------------

  const DoiUrlPrefix: string := "https://doi.org/"
  const DoiUrlPrefixHttp: string := "http://doi.org/"

  /**
   * `_norm_doi_for_match`: trimmed, lower-cased, the `doi.org` URL prefixes
   * deleted wherever they occur, and a leading "0." (a DOI that lost its
   * "1") repaired to "10.".
   */
  function NormDoiForMatch(doi: string): (r: string)
    ensures doi == [] ==> r == []
  {
    if doi == [] then [] else DoiKey(Lower(Strip(doi)))
  }

  /** The prefix deletion and the "0." repair of `_norm_doi_for_match`. */
  function DoiKey(d: string): string {
    var e := Replace(Replace(d, DoiUrlPrefix, ""), DoiUrlPrefixHttp, "");
    if "0." <= e then "10." + e[2..] else e
  }

  /** The DOI key is lower case and never starts with the broken "0." form. */
  lemma {:induction false} NormDoiShape(doi: string)
    ensures NoUpper(NormDoiForMatch(doi))
    ensures !("0." <= NormDoiForMatch(doi))
  {
    if doi != [] {
      var d := Lower(Strip(doi));
      var e1 := Replace(d, DoiUrlPrefix, "");
      var e := Replace(e1, DoiUrlPrefixHttp, "");
      ReplaceNoUpper(d, DoiUrlPrefix, "");
      ReplaceNoUpper(e1, DoiUrlPrefixHttp, "");
      assert DoiKey(d) == if "0." <= e then "10." + e[2..] else e;
      if "0." <= e {
        RepairedDoiShape(e);
      }
    }
  }

  /** The "0." repair keeps a lower-case DOI lower case, and its result starts with "1". */
  lemma {:induction false} RepairedDoiShape(e: string)
    requires NoUpper(e) && "0." <= e
    ensures NoUpper("10." + e[2..]) && !("0." <= "10." + e[2..])
  {
    var r := "10." + e[2..];
    assert r[0] == '1';
    forall i | 0 <= i < |r|
      ensures !IsUpper(r[i])
    {
      if i >= 3 {
        assert r[i] == e[i - 1];
      }
    }
  }

  /** Letter case does not matter to the DOI key. */
  lemma {:induction false} NormDoiIgnoresCase(doi: string)
    ensures NormDoiForMatch(Lower(doi)) == NormDoiForMatch(doi)
  {
    if doi != [] {
      StripLower(doi);
      LowerIdempotent(Strip(doi));
    }
  }

  lemma {:induction false} LowerStripOfUrl(d: string)
    requires d != [] && IsStripped(d)
    ensures Lower(Strip(DoiUrlPrefix + d)) == DoiUrlPrefix + Lower(Strip(d))
  {
    var u := DoiUrlPrefix + d;
    assert IsStripped(u) by {
      assert u[0] == 'h' && u[|u| - 1] == d[|d| - 1];
    }
    StripOfTrimmed(u);
    StripOfTrimmed(d);
    LowerAppend(DoiUrlPrefix, d);
    DoiUrlPrefixIsLower();
  }

  lemma {:induction false} DoiUrlPrefixIsLower()
    ensures Lower(DoiUrlPrefix) == DoiUrlPrefix
  {
    assert NoUpper(DoiUrlPrefix);
    LowerOfLowercase(DoiUrlPrefix);
  }

  /** A DOI written as its `https://doi.org/` URL has the same key as the bare DOI. */
  lemma {:induction false} NormDoiOfUrl(d: string)
    requires d != [] && IsStripped(d)
    ensures NormDoiForMatch(DoiUrlPrefix + d) == NormDoiForMatch(d)
  {
    LowerStripOfUrl(d);
    DoiKeyOfUrl(Lower(Strip(d)));
  }

  lemma {:induction false} DoiKeyOfUrl(l: string)
    ensures DoiKey(DoiUrlPrefix + l) == DoiKey(l)
  {
    ReplaceLeading(DoiUrlPrefix, l, "");
    assert [] + Replace(l, DoiUrlPrefix, "") == Replace(l, DoiUrlPrefix, "");
  }

  // ---------------------------------------------------------------------
  // Mojibake
  // ---------------------------------------------------------------------

  /**
   * `_MOJIBAKE_REPL` in its iteration order: UTF-8 text that was decoded as
   * Latin-1 or CP1252, and the few spellings seen on the site.
   */
  const MojibakeTable: seq<(string, string)> := [
    ("\U{C3}\U{A1}", "\U{E1}"),
    ("\U{C3}\U{A9}", "\U{E9}"),
    ("\U{C3}\U{AD}", "\U{ED}"),
    ("\U{C3}\U{B3}", "\U{F3}"),
    ("\U{C3}\U{BA}", "\U{FA}"),
    ("\U{C3}\U{B1}", "\U{F1}"),
    ("\U{C3}\U{81}", "\U{C1}"),
    ("\U{C3}\U{89}", "\U{C9}"),
    ("\U{C3}\U{8D}", "\U{CD}"),
    ("\U{C3}\U{93}", "\U{D3}"),
    ("\U{C3}\U{9A}", "\U{DA}"),
    ("\U{C3}\U{91}", "\U{D1}"),
    ("\U{E2}\U{80}\U{93}", "\U{2013}"),
    ("\U{E2}\U{80}\U{94}", "\U{2014}"),
    ("\U{E2}\U{80}\U{9C}", "\U{201C}"),
    ("\U{E2}\U{80}\U{9D}", "\U{201D}"),
    ("\U{E2}\U{80}\U{99}", "\U{2019}"),
    ("Mart\U{C3}n", "Mart\U{ED}n"),
    ("Mart\U{C3}\U{AD}n", "Mart\U{ED}n"),
    ("Mart\U{221A}\U{2260}n", "Mart\U{ED}n"),
    ("M\U{C3}\U{BA}zquiz", "M\U{FA}zquiz"),
    ("Hern\U{E0}ndez", "Hern\U{E1}ndez")
  ]

  /** Every pattern of a substitution table is non-empty and holds a character outside ASCII. */
  predicate MarkedTable(t: seq<(string, string)>) {
    forall k :: 0 <= k < |t| ==> t[k].0 != [] && exists j :: 0 <= j < |t[k].0| && !IsAscii(t[k].0[j])
  }

  /** The table applied entry by entry, each entry a `str.replace` over the whole text. */
  function ApplyTable(s: string, t: seq<(string, string)>): string
    requires forall k :: 0 <= k < |t| ==> t[k].0 != []
  {
    if t == [] then s
    else Replace(ApplyTable(s, t[..|t| - 1]), t[|t| - 1].0, t[|t| - 1].1)
  }

  /** `_fix_mojibake`. */
  method FixMojibake(s: string) returns (out: string)
    ensures out == ApplyTable(s, MojibakeTable)
  {
    if s == [] {
      FixMojibakeAscii(s);
      return s;
    }
    MojibakeTableIsMarked();
    out := ReplaceEach(s, MojibakeTable);
  }

  /** The loop of `_fix_mojibake`: every entry of the table, in order, replaced over the whole text. */
  method ReplaceEach(s: string, table: seq<(string, string)>) returns (out: string)
    requires forall k :: 0 <= k < |table| ==> table[k].0 != []
    ensures out == ApplyTable(s, table)
  {
    out := s;
    var i := 0;
    while i < |table|
      invariant 0 <= i <= |table|
      invariant out == ApplyTable(s, table[..i])
    {
      assert table[..i + 1][..i] == table[..i];
      var (bad, good) := table[i];
      out := Replace(out, bad, good);
      i := i + 1;
    }
    assert table[..i] == table;
  }

  lemma {:induction false} MojibakeTableIsMarked()
    ensures MarkedTable(MojibakeTable)
  {
    var t := MojibakeTable;
    forall k | 0 <= k < |t|
      ensures t[k].0 != [] && exists j :: 0 <= j < |t[k].0| && !IsAscii(t[k].0[j])
    {
      var key := t[k].0;
      if k < 17 {
        assert !IsAscii(key[0]);
      } else if k < 20 {
        assert !IsAscii(key[4]);
      } else if k == 20 {
        assert !IsAscii(key[1]);
      } else {
        assert !IsAscii(key[4]);
      }
    }
  }

  /** Text made of ASCII characters only is never touched by a marked table. */
  lemma {:induction false} ApplyTableAscii(s: string, t: seq<(string, string)>)
    requires MarkedTable(t)
    requires forall i :: 0 <= i < |s| ==> IsAscii(s[i])
    ensures ApplyTable(s, t) == s
    decreases |t|
  {
    if t != [] {
      var init := t[..|t| - 1];
      assert forall k :: 0 <= k < |init| ==> init[k] == t[k];
      ApplyTableAscii(s, init);
      var key := t[|t| - 1].0;
      var j :| 0 <= j < |key| && !IsAscii(key[j]);
      NonAsciiNotInfix(key, s, j);
      ReplaceAbsent(s, key, t[|t| - 1].1);
    }
  }

  lemma {:induction false} NonAsciiNotInfix(key: string, s: string, j: nat)
    requires j < |key| && !IsAscii(key[j])
    requires forall i :: 0 <= i < |s| ==> IsAscii(s[i])
    ensures !IsInfix(key, s)
    decreases |s|
  {
    if s != [] {
      NonAsciiNotInfix(key, s[1..], j);
    }
    if j < |s| {
      assert IsAscii(s[j]);
    }
  }

  /** Plain ASCII text passes the mojibake repair unchanged. */
  lemma {:induction false} FixMojibakeAscii(s: string)
    requires forall i :: 0 <= i < |s| ==> IsAscii(s[i])
    ensures ApplyTable(s, MojibakeTable) == s
  {
    MojibakeTableAscii(s, MojibakeTable);
  }

  lemma {:induction false} MojibakeTableAscii(s: string, t: seq<(string, string)>)
    requires t == MojibakeTable
    requires forall i :: 0 <= i < |s| ==> IsAscii(s[i])
    ensures ApplyTable(s, t) == s
  {
    MojibakeTableIsMarked();
    ApplyTableAscii(s, t);
  }

  // ---------------------------------------------------------------------
  // URL cleanup
  // ---------------------------------------------------------------------


  /** `f` applied `k` times. */
  function Iterate(f: string -> string, w: string, k: nat): string
    decreases k
  {
    if k == 0 then w else Iterate(f, f(w), k - 1)
  }

  /** At most `n` rounds of `f`, stopping early at a fixed point. */
  function Unescaped(f: string -> string, w: string, n: nat): string
    decreases n
  {
    if n == 0 || f(w) == w then w else Unescaped(f, f(w), n - 1)
  }

  /** What `_clean_url` returns, "" standing for `None`. */
  function CleanedUrl(u: string, unescape: string -> string): string {
    if u == [] then [] else Unescaped(unescape, Keep(Strip(u), NotSpace), 4)
  }

  /**
   * `_clean_url`: every whitespace character removed, then `html.unescape`
   * applied until nothing changes, four rounds at most.
   */
  method CleanUrl(u: string, unescape: string -> string) returns (r: string)
    ensures r == CleanedUrl(u, unescape)
  {
    if u == [] {
      return [];
    }
    r := Keep(Strip(u), NotSpace);
    var i := 0;
    while i < 4
      invariant 0 <= i <= 4
      invariant Unescaped(unescape, r, 4 - i) == CleanedUrl(u, unescape)
    {
      var next := unescape(r);
      if next == r {
        break;
      }
      r := next;
      i := i + 1;
    }
  }

  /**
   * The cleanup is `k` rounds of unescaping for some `k` of at most four,
   * and stops early only at a fixed point.
   */
  lemma {:induction false} UnescapedRounds(f: string -> string, w: string, n: nat)
    ensures exists k :: (0 <= k <= n && Unescaped(f, w, n) == Iterate(f, w, k)
      && (k < n ==> f(Unescaped(f, w, n)) == Unescaped(f, w, n)))
    decreases n
  {
    if n == 0 || f(w) == w {
      assert Unescaped(f, w, n) == Iterate(f, w, 0);
    } else {
      UnescapedRounds(f, f(w), n - 1);
      var k :| 0 <= k <= n - 1 && Unescaped(f, f(w), n - 1) == Iterate(f, f(w), k)
        && (k < n - 1 ==> f(Unescaped(f, f(w), n - 1)) == Unescaped(f, f(w), n - 1));
      assert Iterate(f, w, k + 1) == Iterate(f, f(w), k);
    }
  }

  /** Text free of entities (unescaping changes nothing) is only stripped of its whitespace. */
  lemma {:induction false} CleanedUrlPlain(u: string, unescape: string -> string)
    requires u != []
    requires forall w :: unescape(w) == w
    ensures CleanedUrl(u, unescape) == Keep(u, NotSpace)
  {
    StripIsTrim(u);
    KeepOfTrim(u, IsSpace, NotSpace);
  }

  /** When unescaping never brings whitespace in, the cleaned URL holds none. */
  lemma {:induction false} CleanedUrlNoSpace(u: string, unescape: string -> string)
    requires forall w :: (forall i :: 0 <= i < |w| ==> NotSpace(w[i])) ==>
      (forall i :: 0 <= i < |unescape(w)| ==> NotSpace(unescape(w)[i]))
    ensures forall i :: 0 <= i < |CleanedUrl(u, unescape)| ==> NotSpace(CleanedUrl(u, unescape)[i])
  {
    if u != [] {
      UnescapedKeepsNoSpace(unescape, Keep(Strip(u), NotSpace), 4);
    }
  }

  lemma {:induction false} UnescapedKeepsNoSpace(f: string -> string, w: string, n: nat)
    requires forall w :: (forall i :: 0 <= i < |w| ==> NotSpace(w[i])) ==>
      (forall i :: 0 <= i < |f(w)| ==> NotSpace(f(w)[i]))
    requires forall i :: 0 <= i < |w| ==> NotSpace(w[i])
    ensures forall i :: 0 <= i < |Unescaped(f, w, n)| ==> NotSpace(Unescaped(f, w, n)[i])
    decreases n
  {
    if n > 0 && f(w) != w {
      UnescapedKeepsNoSpace(f, f(w), n - 1);
    }
  }
}
