/**
 * The Python `str` operations the three scripts rely on, on `seq<char>`.
 *
 * - `IsSpace` is `str.isspace()`, which is also what the regular-expression
 *   class `\s` and the argument-less `strip()` use.
 * - `lower()` and `casefold()` are modelled on the Latin-1 letters only
 *   (`A`-`Z` and `À`-`Þ` except `×`), each mapped 32 code points up.
 * - `SubRuns` is `re.sub(r"[class]+", c, s)` for a one-character replacement.
 * - `Replace`, `Split` and `Words` are `str.replace`, `str.split(sep)` and
 *   `str.split()`.
 */
module Strings {

  /** `str.isspace()` for one character. */
  predicate IsSpace(c: char) {
    || c == ' '
    || ('\t' <= c <= '\r')
    || ('\U{1C}' <= c <= '\U{1F}')
    || c == '\U{85}' || c == '\U{A0}' || c == '\U{1680}'
    || ('\U{2000}' <= c <= '\U{200A}')
    || c == '\U{2028}' || c == '\U{2029}' || c == '\U{202F}' || c == '\U{205F}' || c == '\U{3000}'
  }

  predicate IsDigit(c: char) { '0' <= c <= '9' }

  /** The upper-case letters of Latin-1, which `lower()` shifts by 32. */
  predicate IsUpper(c: char) {
    ('A' <= c <= 'Z') || ('\U{C0}' <= c <= '\U{DE}' && c != '\U{D7}')
  }

  /** The characters of a comparison key other than the space: `[a-z0-9]`. */
  predicate IsLowerAlnum(c: char) { ('a' <= c <= 'z') || IsDigit(c) }

  predicate IsNotLowerAlnum(c: char) { !IsLowerAlnum(c) }

  predicate IsAscii(c: char) { c <= '\U{7F}' }

  predicate NotSpace(c: char) { !IsSpace(c) }

  function LowerChar(c: char): (r: char)
    ensures !IsUpper(r)
    ensures !IsUpper(c) ==> r == c
    ensures IsSpace(r) == IsSpace(c)
  {
    if IsUpper(c) then (c as int + 32) as char else c
  }

  /** `s.lower()` / `s.casefold()` restricted to Latin-1 letters. */
  function Lower(s: string): (r: string)
    ensures |r| == |s|
    ensures forall i :: 0 <= i < |s| ==> r[i] == LowerChar(s[i])
  {
    seq(|s|, i requires 0 <= i < |s| => LowerChar(s[i]))
  }

  predicate NoUpper(s: string) {
    forall i :: 0 <= i < |s| ==> !IsUpper(s[i])
  }

  lemma {:induction false} LowerOfLowercase(s: string)
    requires NoUpper(s)
    ensures Lower(s) == s
  {
  }

  lemma {:induction false} LowerAppend(a: string, b: string)
    ensures Lower(a + b) == Lower(a) + Lower(b)
  {
  }

  /** Lower-casing twice is lower-casing once. */
  lemma {:induction false} LowerIdempotent(s: string)
    ensures Lower(Lower(s)) == Lower(s)
  {
    LowerOfLowercase(Lower(s));
  }

  /** Keeps the characters satisfying `p`, in order. */
  function Keep(s: string, p: char -> bool): (r: string)
    ensures |r| <= |s|
    ensures forall i :: 0 <= i < |r| ==> p(r[i])
  {
    if s == [] then [] else (if p(s[0]) then [s[0]] else []) + Keep(s[1..], p)
  }

  /** A string whose every character satisfies `p` is kept whole. */
  lemma {:induction false} KeepAll(s: string, p: char -> bool)
    requires forall i :: 0 <= i < |s| ==> p(s[i])
    ensures Keep(s, p) == s
    decreases |s|
  {
    if s != [] {
      KeepAll(s[1..], p);
    }
  }

  /** The longest prefix of `s` whose characters satisfy `p`. */
  function TakeWhile(s: string, p: char -> bool): (r: string)
    ensures r <= s
    ensures forall i :: 0 <= i < |r| ==> p(r[i])
    ensures |r| == |s| || !p(s[|r|])
  {
    if s != [] && p(s[0]) then [s[0]] + TakeWhile(s[1..], p) else []
  }

  /** `s.lstrip(chars)` where `p` says which characters are stripped. */
  function TrimLeft(s: string, p: char -> bool): (r: string)
    ensures |r| <= |s| && r == s[|s| - |r|..]
    ensures forall i :: 0 <= i < |s| - |r| ==> p(s[i])
    ensures r == [] || !p(r[0])
  {
    if s != [] && p(s[0]) then TrimLeft(s[1..], p) else s
  }

  /** `s.rstrip(chars)` where `p` says which characters are stripped. */
  function TrimRight(s: string, p: char -> bool): (r: string)
    ensures |r| <= |s| && r == s[..|r|]
    ensures forall i :: |r| <= i < |s| ==> p(s[i])
    ensures r == [] || !p(r[|r| - 1])
  {
    if s != [] && p(s[|s| - 1]) then TrimRight(s[..|s| - 1], p) else s
  }

  /** `s.strip(chars)`: no `p` character at either end. */
  function Trim(s: string, p: char -> bool): (r: string)
    ensures |r| <= |s|
    ensures r == [] || (!p(r[0]) && !p(r[|r| - 1]))
  {
    TrimRight(TrimLeft(s, p), p)
  }

  /** A string with no `p` character is left as it is. */
  lemma {:induction false} TrimNothing(s: string, p: char -> bool)
    requires forall i :: 0 <= i < |s| ==> !p(s[i])
    ensures Trim(s, p) == s
  {
    if s != [] {
      assert !p(s[0]) && !p(s[|s| - 1]);
      assert TrimLeft(s, p) == s;
      assert TrimRight(s, p) == s;
    }
  }

  /** What `Trim` keeps is a contiguous slice of its input. */
  lemma {:induction false} TrimSlice(s: string, p: char -> bool)
    ensures |s| - |TrimLeft(s, p)| + |Trim(s, p)| <= |s|
    ensures Trim(s, p) == s[|s| - |TrimLeft(s, p)|..|s| - |TrimLeft(s, p)| + |Trim(s, p)|]
  {
    var l := TrimLeft(s, p);
    var r := TrimRight(l, p);
    assert r == s[|s| - |l|..][..|r|] == s[|s| - |l|..|s| - |l| + |r|];
  }

  /** No whitespace at either end: what `strip()` leaves. */
  predicate IsStripped(s: string) {
    s == [] || (!IsSpace(s[0]) && !IsSpace(s[|s| - 1]))
  }

  /** `s.lstrip()`. */
  function StripLeft(s: string): (r: string)
    ensures |r| <= |s| && r == s[|s| - |r|..]
    ensures r == [] || !IsSpace(r[0])
  {
    if s != [] && IsSpace(s[0]) then StripLeft(s[1..]) else s
  }

  /** `s.rstrip()`. */
  function StripRight(s: string): (r: string)
    ensures |r| <= |s| && r == s[..|r|]
    ensures r == [] || !IsSpace(r[|r| - 1])
  {
    if s != [] && IsSpace(s[|s| - 1]) then StripRight(s[..|s| - 1]) else s
  }

  /** `s.strip()`. */
  function Strip(s: string): (r: string)
    ensures |r| <= |s|
    ensures IsStripped(r)
  {
    StripRight(StripLeft(s))
  }

  lemma {:induction false} StripLeftIsTrimLeft(s: string)
    ensures StripLeft(s) == TrimLeft(s, IsSpace)
    decreases |s|
  {
    if s != [] && IsSpace(s[0]) {
      StripLeftIsTrimLeft(s[1..]);
    }
  }

  lemma {:induction false} StripRightIsTrimRight(s: string)
    ensures StripRight(s) == TrimRight(s, IsSpace)
    decreases |s|
  {
    if s != [] && IsSpace(s[|s| - 1]) {
      StripRightIsTrimRight(s[..|s| - 1]);
    }
  }

  /** Nothing but whitespace: what `not s.strip()` tests. */
  predicate IsBlank(s: string) {
    forall i :: 0 <= i < |s| ==> IsSpace(s[i])
  }

  lemma {:induction false} StripLeftBlank(s: string)
    ensures StripLeft(s) == [] <==> IsBlank(s)
    decreases |s|
  {
    if s != [] && IsSpace(s[0]) {
      StripLeftBlank(s[1..]);
      assert forall i :: 1 <= i < |s| ==> s[i] == s[1..][i - 1];
    }
  }

  lemma {:induction false} StripRightKeepsFirst(s: string)
    requires s != [] && !IsSpace(s[0])
    ensures StripRight(s) != []
    decreases |s|
  {
    if |s| > 1 && IsSpace(s[|s| - 1]) {
      StripRightKeepsFirst(s[..|s| - 1]);
    }
  }

  /** `s.strip()` is empty exactly when `s` is blank. */
  lemma {:induction false} StripBlank(s: string)
    ensures Strip(s) == [] <==> IsBlank(s)
  {
    StripLeftBlank(s);
    var l := StripLeft(s);
    if l != [] {
      StripRightKeepsFirst(l);
    }
  }

  /** What `strip()` keeps is a contiguous slice of its input, starting at `a`. */
  lemma {:induction false} StripSlice(s: string) returns (a: nat)
    ensures a + |Strip(s)| <= |s|
    ensures Strip(s) == s[a..a + |Strip(s)|]
  {
    var l := StripLeft(s);
    var r := StripRight(l);
    a := |s| - |l|;
    assert l == s[a..];
    assert r == l[..|r|];
    assert r == s[a..a + |r|];
  }

  /** `strip()` is the general trim at the whitespace class, so the trim lemmas apply to it. */
  lemma {:induction false} StripIsTrim(s: string)
    ensures Strip(s) == Trim(s, IsSpace)
  {
    StripLeftIsTrimLeft(s);
    StripRightIsTrimRight(StripLeft(s));
  }

  lemma {:induction false} StripLeftLower(s: string)
    ensures StripLeft(Lower(s)) == Lower(StripLeft(s))
    decreases |s|
  {
    if s != [] && IsSpace(s[0]) {
      assert Lower(s)[1..] == Lower(s[1..]);
      StripLeftLower(s[1..]);
    }
  }

  lemma {:induction false} StripRightLower(s: string)
    ensures StripRight(Lower(s)) == Lower(StripRight(s))
    decreases |s|
  {
    if s != [] && IsSpace(s[|s| - 1]) {
      assert Lower(s)[..|s| - 1] == Lower(s[..|s| - 1]);
      StripRightLower(s[..|s| - 1]);
    }
  }

  /** Lower-casing keeps whitespace where it is, so it commutes with `strip()`. */
  lemma {:induction false} StripLower(s: string)
    ensures Strip(Lower(s)) == Lower(Strip(s))
  {
    StripLeftLower(s);
    StripRightLower(StripLeft(s));
  }

  /** Membership in a set of characters, as a test. */
  function InSet(chars: set<char>): char -> bool {
    c => c in chars
  }

  /** `s.strip(chars)` for a fixed set of characters. */
  function StripChars(s: string, chars: set<char>): (r: string)
    ensures |r| <= |s|
    ensures r == [] || (r[0] !in chars && r[|r| - 1] !in chars)
  {
    Trim(s, InSet(chars))
  }

  /** `strip(chars)` drops a trailing character of the set from an otherwise trimmed string. */
  lemma {:induction false} StripCharsDropLast(t: string, x: char, chars: set<char>)
    requires x in chars
    requires t != [] && t[0] !in chars && t[|t| - 1] !in chars
    ensures StripChars(t + [x], chars) == t
  {
    var s := t + [x];
    var p := InSet(chars);
    assert s[0] == t[0];
    assert !p(s[0]) && p(s[|s| - 1]) && !p(t[|t| - 1]);
    assert TrimLeft(s, p) == s;
    assert s[..|s| - 1] == t;
    assert TrimRight(t, p) == t;
    assert TrimRight(s, p) == t;
  }

  lemma {:induction false} StripOfTrimmed(s: string)
    requires IsStripped(s)
    ensures Strip(s) == s
  {
    if s != [] {
      assert StripLeft(s) == s;
    }
  }

  /** A space added in front of a stripped string is stripped away again. */
  lemma {:induction false} StripSpaceBefore(t: string)
    requires IsStripped(t)
    ensures Strip(" " + t) == t
  {
    var s := " " + t;
    assert s[1..] == t;
    assert StripLeft(s) == StripLeft(t);
    StripOfTrimmed(t);
  }

  /** A space added after a stripped string is stripped away again. */
  lemma {:induction false} StripSpaceAfter(t: string)
    requires IsStripped(t)
    ensures Strip(t + " ") == t
  {
    var s := t + " ";
    assert s[..|s| - 1] == t;
    if t != [] {
      assert s[0] == t[0];
      assert StripLeft(s) == s;
    }
    assert StripRight(s) == StripRight(t);
    StripOfTrimmed(t);
  }

  lemma {:induction false} StripCharsOfTrimmed(s: string, chars: set<char>)
    requires s == [] || (s[0] !in chars && s[|s| - 1] !in chars)
    ensures StripChars(s, chars) == s
  {
    if s != [] {
      var p := InSet(chars);
      assert !p(s[0]) && !p(s[|s| - 1]);
      assert TrimLeft(s, p) == s;
      assert TrimRight(s, p) == s;
    }
  }

  /** What `strip(chars)` keeps is a contiguous slice of its input, starting at `a`. */
  lemma {:induction false} StripCharsSlice(s: string, chars: set<char>) returns (a: nat)
    ensures a + |StripChars(s, chars)| <= |s|
    ensures StripChars(s, chars) == s[a..a + |StripChars(s, chars)|]
  {
    var p := InSet(chars);
    var l := TrimLeft(s, p);
    var r := TrimRight(l, p);
    a := |s| - |l|;
    assert StripChars(s, chars) == r;
    assert l == s[a..];
    assert r == l[..|r|];
    assert r == s[a..a + |r|];
  }

  /**
   * `re.sub(r"[class]+", c, s)` with `p` the class: every maximal run of
   * characters satisfying `p` becomes the single character `c`.
   */
  function SubRuns(s: string, p: char -> bool, c: char): (r: string)
    ensures |r| <= |s|
    decreases |s|
  {
    if s == [] then []
    else if p(s[0]) then [c] + SubRuns(TrimLeft(s, p), p, c)
    else [s[0]] + SubRuns(s[1..], p, c)
  }

  /** `re.sub(r"\s+", " ", s)`. */
  function CollapseWs(s: string): string {
    SubRuns(s, IsSpace, ' ')
  }

  /** `re.sub(r"\s+", " ", s).strip()`: whitespace runs made single spaces, ends trimmed. */
  function CleanSpaces(s: string): string {
    Strip(CollapseWs(s))
  }

  /** Whitespace only as single spaces. */
  predicate SingleSpaced(s: string) {
    && (forall i :: 0 <= i < |s| ==> IsSpace(s[i]) ==> s[i] == ' ')
    && (forall i :: 0 <= i < |s| - 1 ==> s[i] != ' ' || s[i + 1] != ' ')
  }

  /** Text whose only whitespace is single spaces between other characters. */
  predicate IsCleanText(s: string) {
    IsStripped(s) && SingleSpaced(s)
  }

  lemma {:induction false} SingleSpacedSlice(c: string, r: string, a: nat)
    requires SingleSpaced(c)
    requires a + |r| <= |c| && forall i :: 0 <= i < |r| ==> r[i] == c[a + i]
    ensures SingleSpaced(r)
  {
    forall i | 0 <= i < |r| - 1
      ensures r[i] != ' ' || r[i + 1] != ' '
    {
      assert r[i + 1] == c[a + i + 1];
    }
  }

  lemma {:induction false} CollapseWsSpaced(s: string)
    ensures SingleSpaced(CollapseWs(s))
  {
    var r := CollapseWs(s);
    SubRunsShape(s, IsSpace, ' ');
    assert IsSpace(' ');
    forall i | 0 <= i < |r| - 1
      ensures r[i] != ' ' || r[i + 1] != ' '
    {
      assert !IsSpace(r[i]) || !IsSpace(r[i + 1]);
    }
  }

  /** `CleanSpaces` leaves clean text. */
  lemma {:induction false} CleanSpacesShape(s: string)
    ensures IsCleanText(CleanSpaces(s))
  {
    CollapseWsSpaced(s);
    SingleSpacedStrip(CollapseWs(s));
  }

  lemma {:induction false} SingleSpacedStrip(c: string)
    requires SingleSpaced(c)
    ensures SingleSpaced(Strip(c))
  {
    var r := Strip(c);
    var a := StripSlice(c);
    forall i | 0 <= i < |r|
      ensures r[i] == c[a + i]
    {
    }
    SingleSpacedSlice(c, r, a);
  }

  /** `CleanSpaces` keeps every character that is not whitespace, in order. */
  lemma {:induction false} CleanSpacesKeeps(s: string)
    ensures Keep(CleanSpaces(s), NotSpace) == Keep(s, NotSpace)
  {
    var c := CollapseWs(s);
    SubRunsKeeps(s, IsSpace, ' ', NotSpace);
    StripIsTrim(c);
    KeepOfTrim(c, IsSpace, NotSpace);
  }

  /** A string that is not blank stays non-blank once its spaces are cleaned. */
  lemma {:induction false} CleanSpacesNonBlank(s: string)
    requires !IsBlank(s)
    ensures CleanSpaces(s) != []
  {
    CleanSpacesKeeps(s);
    StripBlank(s);
    StripIsTrim(s);
    KeepOfTrim(s, IsSpace, NotSpace);
    var t := Strip(s);
    assert Keep(t, NotSpace) != [] by {
      assert Keep(t, NotSpace) == [t[0]] + Keep(t[1..], NotSpace);
    }
  }

  /**
   * After `SubRuns`, every character is the replacement or outside the class,
   * and no two neighbours are both in the class.
   */
  lemma {:induction false} SubRunsShape(s: string, p: char -> bool, c: char)
    ensures var r := SubRuns(s, p, c);
      && (forall i :: 0 <= i < |r| ==> r[i] == c || !p(r[i]))
      && (forall i :: 0 <= i < |r| - 1 ==> !p(r[i]) || !p(r[i + 1]))
      && (s != [] && !p(s[0]) ==> r != [] && r[0] == s[0])
    decreases |s|
  {
    if s == [] {
    } else if p(s[0]) {
      var t := TrimLeft(s, p);
      SubRunsShape(t, p, c);
    } else {
      SubRunsShape(s[1..], p, c);
    }
  }

  /** A string whose class characters are all `c` and never adjacent is left unchanged. */
  lemma {:induction false} SubRunsFixpoint(s: string, p: char -> bool, c: char)
    requires forall i :: 0 <= i < |s| && p(s[i]) ==> s[i] == c
    requires forall i :: 0 <= i < |s| - 1 ==> !p(s[i]) || !p(s[i + 1])
    ensures SubRuns(s, p, c) == s
    decreases |s|
  {
    if s != [] {
      if p(s[0]) {
        assert TrimLeft(s, p) == s[1..] by {
          if |s| > 1 {
            assert !p(s[1]);
            assert TrimLeft(s[1..], p) == s[1..];
          }
        }
      }
      SubRunsFixpoint(s[1..], p, c);
    }
  }

  /** Every character `SubRuns` leaves is the replacement or a character of its input. */
  lemma {:induction false} SubRunsChars(s: string, p: char -> bool, c: char)
    ensures forall i :: 0 <= i < |SubRuns(s, p, c)| ==> SubRuns(s, p, c)[i] == c || SubRuns(s, p, c)[i] in s
    decreases |s|
  {
    if s == [] {
    } else if p(s[0]) {
      var t := TrimLeft(s, p);
      SubRunsChars(t, p, c);
      assert forall x :: x in t ==> x in s;
    } else {
      SubRunsChars(s[1..], p, c);
      assert forall x :: x in s[1..] ==> x in s;
    }
  }

  /** Collapsing whitespace brings in no capital letter. */
  lemma {:induction false} CollapseWsNoUpper(s: string)
    requires NoUpper(s)
    ensures NoUpper(CollapseWs(s))
  {
    var r := CollapseWs(s);
    SubRunsChars(s, IsSpace, ' ');
    forall i | 0 <= i < |r|
      ensures !IsUpper(r[i])
    {
      if r[i] != ' ' {
        assert r[i] in s;
        var j :| 0 <= j < |s| && s[j] == r[i];
      }
    }
  }

  /** The characters outside the class survive `SubRuns` in order. */
  lemma {:induction false} SubRunsKeeps(s: string, p: char -> bool, c: char, q: char -> bool)
    requires forall x :: q(x) ==> !p(x)
    requires !q(c)
    ensures Keep(SubRuns(s, p, c), q) == Keep(s, q)
    decreases |s|
  {
    if s == [] {
    } else if p(s[0]) {
      var t := TrimLeft(s, p);
      SubRunsKeeps(t, p, c, q);
      KeepOfSkipped(s, t, p, q);
    } else {
      SubRunsKeeps(s[1..], p, c, q);
    }
  }

  lemma {:induction false} KeepOfSkipped(s: string, t: string, p: char -> bool, q: char -> bool)
    requires forall x :: q(x) ==> !p(x)
    requires |t| <= |s| && t == s[|s| - |t|..]
    requires forall i :: 0 <= i < |s| - |t| ==> p(s[i])
    ensures Keep(s, q) == Keep(t, q)
    decreases |s|
  {
    if |s| != |t| {
      assert !q(s[0]);
      KeepOfSkipped(s[1..], t, p, q);
    } else {
      assert s == t;
    }
  }

  lemma {:induction false} KeepAppend(a: string, b: string, q: char -> bool)
    ensures Keep(a + b, q) == Keep(a, q) + Keep(b, q)
    decreases |a|
  {
    if a != [] {
      assert (a + b)[0] == a[0];
      assert (a + b)[1..] == a[1..] + b;
      KeepAppend(a[1..], b, q);
      var h: string := if q(a[0]) then [a[0]] else [];
      calc {
        Keep(a + b, q);
        h + Keep(a[1..] + b, q);
        h + (Keep(a[1..], q) + Keep(b, q));
        (h + Keep(a[1..], q)) + Keep(b, q);
        Keep(a, q) + Keep(b, q);
      }
    } else {
      assert a + b == b;
    }
  }

  lemma {:induction false} KeepNone(s: string, q: char -> bool)
    requires forall i :: 0 <= i < |s| ==> !q(s[i])
    ensures Keep(s, q) == []
    decreases |s|
  {
    if s != [] {
      KeepNone(s[1..], q);
    }
  }

  lemma {:induction false} KeepOfTrimRight(l: string, p: char -> bool, q: char -> bool)
    requires forall x :: q(x) ==> !p(x)
    ensures Keep(TrimRight(l, p), q) == Keep(l, q)
  {
    var r := TrimRight(l, p);
    var tail := l[|r|..];
    assert l == r + tail;
    KeepAppend(r, tail, q);
    forall i | 0 <= i < |tail| ensures !q(tail[i]) {
      assert tail[i] == l[|r| + i];
    }
    KeepNone(tail, q);
  }

  /** Stripping removes only characters outside `q`, so what `Keep(·, q)` sees is unchanged. */
  lemma {:induction false} KeepOfTrim(s: string, p: char -> bool, q: char -> bool)
    requires forall x :: q(x) ==> !p(x)
    ensures Keep(Trim(s, p), q) == Keep(s, q)
  {
    KeepOfSkipped(s, TrimLeft(s, p), p, q);
    KeepOfTrimRight(TrimLeft(s, p), p, q);
  }

  // ---------------------------------------------------------------------
  // Comparison keys
  // ---------------------------------------------------------------------

  /**
   * A comparison key: only `a`-`z`, `0`-`9` and single spaces, with no space
   * at either end.
   */
  predicate IsWordKey(s: string) {
    && (forall i :: 0 <= i < |s| ==> IsLowerAlnum(s[i]) || s[i] == ' ')
    && (forall i :: 0 <= i < |s| - 1 ==> s[i] != ' ' || s[i + 1] != ' ')
    && (s != [] ==> s[0] != ' ' && s[|s| - 1] != ' ')
  }

  /**
   * The tail both title normalisers share:
   * `re.sub(r"\s+", " ", re.sub(r"[^a-z0-9]+", " ", s)).strip()`.
   */
  function AlnumKey(s: string): (r: string)
    ensures IsWordKey(r)
  {
    AlnumKeyShape(s);
    Strip(CollapseWs(SubRuns(s, IsNotLowerAlnum, ' ')))
  }

  /** Letters, digits and single spaces: a comparison key before its ends are stripped. */
  predicate IsSpacedKey(s: string) {
    && (forall i :: 0 <= i < |s| ==> IsLowerAlnum(s[i]) || s[i] == ' ')
    && (forall i :: 0 <= i < |s| - 1 ==> s[i] != ' ' || s[i + 1] != ' ')
  }

  lemma {:induction false} AlnumKeyShape(s: string)
    ensures IsWordKey(Strip(CollapseWs(SubRuns(s, IsNotLowerAlnum, ' '))))
  {
    var spaced := SubRuns(s, IsNotLowerAlnum, ' ');
    SubRunsSpaced(s);
    SpacedKeyCollapse(spaced);
    SpacedKeyStrip(spaced);
  }

  /** Non-key characters replaced by single spaces leave a spaced key. */
  lemma {:induction false} SubRunsSpaced(s: string)
    ensures IsSpacedKey(SubRuns(s, IsNotLowerAlnum, ' '))
  {
    SubRunsShape(s, IsNotLowerAlnum, ' ');
  }

  lemma {:induction false} SpacedKeyCollapse(s: string)
    requires IsSpacedKey(s)
    ensures CollapseWs(s) == s
  {
    assert forall i :: 0 <= i < |s| && IsSpace(s[i]) ==> s[i] == ' ';
    SubRunsFixpoint(s, IsSpace, ' ');
  }

  lemma {:induction false} SpacedKeySlice(s: string, a: nat, b: nat)
    requires IsSpacedKey(s) && a <= b <= |s|
    ensures IsSpacedKey(s[a..b])
  {
    var r := s[a..b];
    forall i | 0 <= i < |r|
      ensures IsLowerAlnum(r[i]) || r[i] == ' '
    {
      assert r[i] == s[a + i];
    }
    forall i | 0 <= i < |r| - 1
      ensures r[i] != ' ' || r[i + 1] != ' '
    {
      assert r[i] == s[a + i] && r[i + 1] == s[a + i + 1];
    }
  }

  lemma {:induction false} SpacedKeyStrip(s: string)
    requires IsSpacedKey(s)
    ensures IsWordKey(Strip(s))
  {
    var l := StripLeft(s);
    SpacedKeySlice(s, |s| - |l|, |s|);
    assert l == s[|s| - |l|..|s|];
    SpacedKeySlice(l, 0, |StripRight(l)|);
    assert StripRight(l) == l[0..|StripRight(l)|];
  }

  /** A comparison key is its own key. */
  lemma {:induction false} AlnumKeyFixpoint(s: string)
    requires IsWordKey(s)
    ensures AlnumKey(s) == s
  {
    SubRunsFixpoint(s, IsNotLowerAlnum, ' ');
    SubRunsFixpoint(s, IsSpace, ' ');
    StripOfTrimmed(s);
  }

  /** The letters and digits of the key are those of the input, in order. */
  lemma {:induction false} AlnumKeyKeeps(s: string)
    ensures Keep(AlnumKey(s), IsLowerAlnum) == Keep(s, IsLowerAlnum)
  {
    AlnumKeyIsStrip(s);
    KeepAlnumOfStrip(SubRuns(s, IsNotLowerAlnum, ' '));
    KeepAlnumOfSpaced(s);
  }

  lemma {:induction false} KeepAlnumOfStrip(t: string)
    ensures Keep(Strip(t), IsLowerAlnum) == Keep(t, IsLowerAlnum)
  {
    LowerAlnumNotSpace();
    KeepOfStrip(t, IsLowerAlnum);
  }

  lemma {:induction false} KeepAlnumOfSpaced(s: string)
    ensures Keep(SubRuns(s, IsNotLowerAlnum, ' '), IsLowerAlnum) == Keep(s, IsLowerAlnum)
  {
    SubRunsKeeps(s, IsNotLowerAlnum, ' ', IsLowerAlnum);
  }

  /** Key letters and digits are never whitespace. */
  lemma {:induction false} LowerAlnumNotSpace()
    ensures forall x :: IsLowerAlnum(x) ==> !IsSpace(x)
  {
  }

  /** Once non-key characters are spaces, collapsing whitespace changes nothing: only the strip is left. */
  lemma {:induction false} AlnumKeyIsStrip(s: string)
    ensures AlnumKey(s) == Strip(SubRuns(s, IsNotLowerAlnum, ' '))
  {
    var spaced := SubRuns(s, IsNotLowerAlnum, ' ');
    SubRunsSpaced(s);
    SpacedKeyCollapse(spaced);
  }

  /** `strip()` removes only whitespace, so what `Keep(·, q)` sees is unchanged when `q` excludes it. */
  lemma {:induction false} KeepOfStrip(s: string, q: char -> bool)
    requires forall x :: q(x) ==> !IsSpace(x)
    ensures Keep(Strip(s), q) == Keep(s, q)
  {
    StripIsTrim(s);
    KeepOfTrim(s, IsSpace, q);
  }

  lemma {:induction false} WordKeyNoUpper(s: string)
    requires IsWordKey(s)
    ensures NoUpper(s)
  {
  }

  // ---------------------------------------------------------------------
  // Substrings, replace, split
  // ---------------------------------------------------------------------

  /** `sub in s` for strings. */
  predicate IsInfix(sub: string, s: string)
    decreases |s|
  {
    sub <= s || (s != [] && IsInfix(sub, s[1..]))
  }

  lemma {:induction false} InfixChars(sub: string, s: string)
    requires IsInfix(sub, s)
    ensures forall x :: x in sub ==> x in s
    decreases |s|
  {
    if !(sub <= s) {
      InfixChars(sub, s[1..]);
    }
  }

  predicate EndsWith(s: string, suffix: string) {
    |suffix| <= |s| && s[|s| - |suffix|..] == suffix
  }

  lemma {:induction false} SuffixIsInfix(s: string, suffix: string)
    requires EndsWith(s, suffix)
    ensures IsInfix(suffix, s)
    decreases |s|
  {
    if |s| > |suffix| {
      assert s[1..][|s| - 1 - |suffix|..] == suffix;
      SuffixIsInfix(s[1..], suffix);
    } else {
      assert s == suffix;
    }
  }

  /** `s.replace(pat, rep)`: left to right, non-overlapping. */
  function Replace(s: string, pat: string, rep: string): (r: string)
    requires pat != []
    decreases |s|
  {
    if |s| < |pat| then s
    else if pat <= s then rep + Replace(s[|pat|..], pat, rep)
    else [s[0]] + Replace(s[1..], pat, rep)
  }

  /** Replacing a pattern that does not occur changes nothing. */
  lemma {:induction false} ReplaceAbsent(s: string, pat: string, rep: string)
    requires pat != []
    requires !IsInfix(pat, s)
    ensures Replace(s, pat, rep) == s
    decreases |s|
  {
    if |s| >= |pat| {
      ReplaceAbsent(s[1..], pat, rep);
    }
  }

  /** A leading occurrence of the pattern is replaced first. */
  lemma {:induction false} ReplaceLeading(pat: string, s: string, rep: string)
    requires pat != []
    ensures Replace(pat + s, pat, rep) == rep + Replace(s, pat, rep)
  {
    assert pat <= pat + s;
    assert (pat + s)[|pat|..] == s;
  }

  /** Replacing within lower-case text by lower-case text leaves lower-case text. */
  lemma {:induction false} ReplaceNoUpper(s: string, pat: string, rep: string)
    requires pat != [] && NoUpper(s) && NoUpper(rep)
    ensures NoUpper(Replace(s, pat, rep))
    decreases |s|
  {
    if |s| >= |pat| {
      if pat <= s {
        ReplaceNoUpper(s[|pat|..], pat, rep);
      } else {
        ReplaceNoUpper(s[1..], pat, rep);
      }
    }
  }

  /** Every character of the result comes from the input or from the replacement. */
  lemma {:induction false} ReplaceChars(s: string, pat: string, rep: string)
    requires pat != []
    ensures forall x :: x in Replace(s, pat, rep) ==> x in s || x in rep
    decreases |s|
  {
    if |s| >= |pat| {
      if pat <= s {
        ReplaceChars(s[|pat|..], pat, rep);
      } else {
        ReplaceChars(s[1..], pat, rep);
      }
    }
  }

  /** `s.split(sep)` for a non-empty separator. */
  function Split(s: string, sep: string): (parts: seq<string>)
    requires sep != []
    ensures |parts| >= 1
    decreases |s|
  {
    if |s| < |sep| then [s]
    else if sep <= s then [[]] + Split(s[|sep|..], sep)
    else
      var rest := Split(s[1..], sep);
      [[s[0]] + rest[0]] + rest[1..]
  }

  /** `sep.join(parts)`. */
  function Join(parts: seq<string>, sep: string): string {
    if parts == [] then []
    else if |parts| == 1 then parts[0]
    else parts[0] + sep + Join(parts[1..], sep)
  }

  lemma {:induction false} JoinCons(a: string, rest: seq<string>, sep: string)
    requires |rest| >= 1
    ensures Join([a] + rest, sep) == a + sep + Join(rest, sep)
  {
    assert ([a] + rest)[1..] == rest;
  }

  /** Gluing a character to the first piece glues it to the joined string. */
  lemma {:induction false} JoinGlued(c: char, rest: seq<string>, sep: string)
    requires |rest| >= 1
    ensures Join([[c] + rest[0]] + rest[1..], sep) == [c] + Join(rest, sep)
  {
    if |rest| > 1 {
      JoinCons([c] + rest[0], rest[1..], sep);
      JoinCons(rest[0], rest[1..], sep);
      assert [rest[0]] + rest[1..] == rest;
    }
  }

  /** Joining the pieces of a split restores the string. */
  lemma {:induction false} SplitJoin(s: string, sep: string)
    requires sep != []
    ensures Join(Split(s, sep), sep) == s
    decreases |s|
  {
    if |s| >= |sep| {
      if sep <= s {
        SplitJoin(s[|sep|..], sep);
        SplitJoinAtSep(s, sep);
      } else {
        SplitJoin(s[1..], sep);
        SplitJoinPastChar(s, sep);
      }
    }
  }

  /** The step of `SplitJoin` where the string starts with the separator. */
  lemma {:induction false} SplitJoinAtSep(s: string, sep: string)
    requires sep != [] && |s| >= |sep| && sep <= s
    requires Join(Split(s[|sep|..], sep), sep) == s[|sep|..]
    ensures Join(Split(s, sep), sep) == s
  {
    var t := s[|sep|..];
    assert Split(s, sep) == [[]] + Split(t, sep);
    JoinCons([], Split(t, sep), sep);
    assert s[..|sep|] == sep;
    assert s == s[..|sep|] + t;
    assert [] + sep == sep;
  }

  /** The step of `SplitJoin` where the first character is not the start of a separator. */
  lemma {:induction false} SplitJoinPastChar(s: string, sep: string)
    requires sep != [] && |s| >= |sep| && !(sep <= s)
    requires Join(Split(s[1..], sep), sep) == s[1..]
    ensures Join(Split(s, sep), sep) == s
  {
    var t := s[1..];
    var rest := Split(t, sep);
    assert Split(s, sep) == [[s[0]] + rest[0]] + rest[1..];
    JoinGlued(s[0], rest, sep);
    assert [s[0]] + t == s;
  }

  /** No piece of a split contains the separator. */
  lemma {:induction false} SplitPiecesFree(s: string, sep: string)
    requires sep != []
    ensures forall k :: 0 <= k < |Split(s, sep)| ==> !IsInfix(sep, Split(s, sep)[k])
    decreases |s|
  {
    if |s| < |sep| {
      ShortNotInfix(sep, s);
    } else if sep <= s {
      SplitPiecesFree(s[|sep|..], sep);
      assert !IsInfix(sep, []);
    } else {
      var rest := Split(s[1..], sep);
      SplitPiecesFree(s[1..], sep);
      var first := [s[0]] + rest[0];
      SplitFirstIsPrefix(s[1..], sep);
      assert first <= s;
      assert !(sep <= first);
      assert first[1..] == rest[0];
    }
  }

  lemma {:induction false} SplitFirstIsPrefix(s: string, sep: string)
    requires sep != []
    ensures Split(s, sep)[0] <= s
    decreases |s|
  {
    if |s| >= |sep| && !(sep <= s) {
      SplitFirstIsPrefix(s[1..], sep);
    }
  }

  lemma {:induction false} ShortNotInfix(sub: string, s: string)
    requires |s| < |sub|
    ensures !IsInfix(sub, s)
    decreases |s|
  {
    if s != [] {
      ShortNotInfix(sub, s[1..]);
    }
  }

  /** A string without the separator character splits into itself alone. */
  lemma {:induction false} SplitCharFree(a: string, sep: char)
    requires forall i :: 0 <= i < |a| ==> a[i] != sep
    ensures Split(a, [sep]) == [a]
    decreases |a|
  {
    if a != [] {
      assert a[0] != sep;
      assert !([sep] <= a);
      SplitCharFree(a[1..], sep);
      assert [a[0]] + a[1..] == a;
    }
  }

  /** Splitting at the first separator character peels off the piece before it. */
  lemma {:induction false} SplitCharCons(a: string, sep: char, rest: string)
    requires forall i :: 0 <= i < |a| ==> a[i] != sep
    ensures Split(a + [sep] + rest, [sep]) == [a] + Split(rest, [sep])
    decreases |a|
  {
    var s := a + [sep] + rest;
    if a == [] {
      assert s == [sep] + rest;
      assert [sep] <= s;
      assert s[1..] == rest;
    } else {
      assert s[0] == a[0];
      assert !([sep] <= s);
      assert s[1..] == a[1..] + [sep] + rest;
      SplitCharCons(a[1..], sep, rest);
      assert [a[0]] + a[1..] == a;
    }
  }

  /** Where the regular expression `\s*` starting at `i` stops: the first non-whitespace position. */
  function SkipSpace(s: string, i: nat): (k: nat)
    requires i <= |s|
    ensures i <= k <= |s|
    ensures forall j :: i <= j < k ==> IsSpace(s[j])
    ensures k == |s| || !IsSpace(s[k])
    decreases |s| - i
  {
    if i < |s| && IsSpace(s[i]) then SkipSpace(s, i + 1) else i
  }

  /** `s.split()`: the maximal runs of non-whitespace characters. */
  function Words(s: string): (ws: seq<string>)
    ensures forall i :: 0 <= i < |ws| ==> ws[i] != []
    decreases |s|
  {
    if s == [] then []
    else if IsSpace(s[0]) then Words(s[1..])
    else
      var w := TakeWhile(s, NotSpace);
      assert w != [] by {
        assert NotSpace(s[0]);
      }
      [w] + Words(s[|w|..])
  }

  /** A string with a non-space character has at least one word. */
  lemma {:induction false} WordsNonEmpty(s: string, i: nat)
    requires i < |s| && !IsSpace(s[i])
    ensures Words(s) != []
    decreases |s|
  {
    if IsSpace(s[0]) {
      assert s[1..][i - 1] == s[i];
      WordsNonEmpty(s[1..], i - 1);
    }
  }

  // ---------------------------------------------------------------------
  // Integers as text
  // ---------------------------------------------------------------------

  function DigitValue(c: char): nat
    requires IsDigit(c)
  {
    (c as int) - ('0' as int)
  }

  /** The value of a string of ASCII digits, most significant first. */
  function DigitsValue(s: string): nat
    requires forall i :: 0 <= i < |s| ==> IsDigit(s[i])
  {
    if s == [] then 0 else DigitsValue(s[..|s| - 1]) * 10 + DigitValue(s[|s| - 1])
  }

  /** `str(n)` for a natural number. */
  function NatToString(n: nat): (r: string)
    ensures r != []
    ensures forall i :: 0 <= i < |r| ==> IsDigit(r[i])
  {
    if n < 10 then [('0' as int + n) as char]
    else NatToString(n / 10) + [('0' as int + n % 10) as char]
  }

  lemma {:induction false} NatToStringValue(n: nat)
    ensures DigitsValue(NatToString(n)) == n
  {
    if n >= 10 {
      NatToStringValue(n / 10);
      var s := NatToString(n);
      assert s[..|s| - 1] == NatToString(n / 10);
    }
  }

  lemma {:induction false} ShiftedDigits(x: nat, d: nat, y: nat, e: nat)
    requires d < 10 && e < 10 && x * 10 + d == y * 10 + e
    ensures x == y && d == e
  {
    assert (x - y) * 10 == e - d;
  }

  /** Two digit strings of the same length with the same value are the same string. */
  lemma {:induction false} DigitsValueInjective(a: string, b: string)
    requires forall i :: 0 <= i < |a| ==> IsDigit(a[i])
    requires forall i :: 0 <= i < |b| ==> IsDigit(b[i])
    requires |a| == |b| && DigitsValue(a) == DigitsValue(b)
    ensures a == b
  {
    if a != [] {
      var n := |a| - 1;
      ShiftedDigits(DigitsValue(a[..n]), DigitValue(a[n]), DigitsValue(b[..n]), DigitValue(b[n]));
      DigitsValueInjective(a[..n], b[..n]);
      assert a == a[..n] + [a[n]] && b == b[..n] + [b[n]];
    }
  }

  /** `s.isdigit()` restricted to ASCII digits. */
  predicate IsDigits(s: string) {
    s != [] && forall i :: 0 <= i < |s| ==> IsDigit(s[i])
  }

  // ---------------------------------------------------------------------
  // Fallback chains
  // ---------------------------------------------------------------------

  /** `a or b or ...` over optional strings: the first non-empty one, "" when all are empty. */
  function FirstNonEmpty(xs: seq<string>): string {
    if xs == [] then "" else if xs[0] != [] then xs[0] else FirstNonEmpty(xs[1..])
  }

  /** The chain yields the entry at `i` exactly when every earlier entry is empty and it is not. */
  lemma {:induction false} FirstNonEmptyAt(xs: seq<string>, i: nat)
    requires i < |xs| && xs[i] != []
    requires forall j :: 0 <= j < i ==> xs[j] == []
    ensures FirstNonEmpty(xs) == xs[i]
  {
    if i > 0 {
      FirstNonEmptyAt(xs[1..], i - 1);
    }
  }

  /** The chain is empty exactly when every entry is. */
  lemma {:induction false} FirstNonEmptyEmpty(xs: seq<string>)
    ensures FirstNonEmpty(xs) == [] <==> forall j :: 0 <= j < |xs| ==> xs[j] == []
  {
    if xs != [] && xs[0] == [] {
      FirstNonEmptyEmpty(xs[1..]);
      assert forall j :: 1 <= j < |xs| ==> xs[j] == xs[1..][j - 1];
    }
  }
}
