/**
 * The project page generator: the competitive projects scraped from the
 * university's staff page are split into ongoing and past by their end date,
 * matched against the curated exclusion and "force past" title lists and the
 * `project_links.json` link file by a normalised title, and rendered as cards
 * with a year-interval badge.
 *
 * The scraping itself is not modelled: a project arrives with its fields
 * already extracted. Today's date and the parsed link file are parameters.
 */
module UpdateProjects {
  import opened Wrappers
  import opened Strings
  import opened Seqs

  /** One row of the "Proyectos" tab; the dates are the page's `dd/mm/yyyy` text. */
  datatype CompetitiveProject = CompetitiveProject(
    title: string,
    start: string,
    end: string,
    funder: string,
    pis: seq<string>)

  /** The curated titles that get no card (already in normalised form). */
  const ExcludeTitles: set<string> := {
    "grupo de investigaci\U{F3}n de alto rendimiento en rob\U{F3}tica inteligente de la urjc",
    "rld -coresense",
    "rld aiplan4eu - upf4ros",
    "l\U{ED}nea de actuaci\U{F3}n n\U{BA} 3. departamento. teor\U{ED}a de la se\U{F1}al y comunicaciones",
    "rld -robmosys - center for advanced training on robotics and open source (act-ros)",
    "rld mocap4ros2",
    "robmosys-mros rld"
  }

  /** The titles that go to the past section whatever their end date says. */
  const ForcePastTitles: set<string> := {
    "ciberseguridad y seguridad en arquitecturas cognitivas para robots"
  }

  // ---------------------------------------------------------------------
  // Text of a scraped field, title key
  // ---------------------------------------------------------------------

  /**
   * `_strip_tags` once the tags are gone: whitespace runs become single
   * spaces and the ends are trimmed, and every other character stays, in order.
   */
  function StripTags(s: string): (r: string)
    ensures IsCleanText(r)
    ensures Keep(r, NotSpace) == Keep(s, NotSpace)
  {
    CleanSpacesShape(s);
    CleanSpacesKeeps(s);
    CleanSpaces(s)
  }

  /** The characters `_norm_title` strips from both ends after collapsing whitespace. */
  const TitleTrim: set<char> := {' ', '.', ',', ':', ';', '\t', '\n', '\r'}

  /**
   * What a title key looks like: no capital, whitespace only as single
   * spaces, and none of " .,:;" (or tab, newline, carriage return) at either end.
   */
  predicate IsProjectKey(s: string) {
    && NoUpper(s)
    && SingleSpaced(s)
    && (s == [] || (s[0] !in TitleTrim && s[|s| - 1] !in TitleTrim))
  }

  /** `_norm_title`: strip, lower-case, collapse whitespace, strip `TitleTrim`. */
  function ProjectKey(s: string): string
  {
    StripChars(CollapseWs(Lower(Strip(s))), TitleTrim)
  }

  /**
   * A key is lower-case, whitespace only as single spaces, and none of
   * `TitleTrim` at either end.
   */
  lemma {:induction false} ProjectKeyShape(s: string)
    ensures IsProjectKey(ProjectKey(s))
  {
    var c := CollapseWs(Lower(Strip(s)));
    CollapseWsNoUpper(Lower(Strip(s)));
    CollapseWsSpaced(Lower(Strip(s)));
    StripCharsKeepsShape(c, TitleTrim);
  }

  /** Stripping characters from the ends keeps a lower-case, single-spaced string so. */
  lemma {:induction false} StripCharsKeepsShape(c: string, chars: set<char>)
    requires NoUpper(c) && SingleSpaced(c)
    ensures NoUpper(StripChars(c, chars)) && SingleSpaced(StripChars(c, chars))
  {
    var r := StripChars(c, chars);
    var a := StripCharsSlice(c, chars);
    SingleSpacedSlice(c, r, a);
    forall i | 0 <= i < |r|
      ensures !IsUpper(r[i])
    {
      assert r[i] == c[a + i];
    }
  }

  /** A string already in key form is its own key. */
  lemma {:induction false} ProjectKeyFixpoint(s: string)
    requires IsProjectKey(s)
    ensures ProjectKey(s) == s
  {
    assert IsStripped(s) by {
      if s != [] {
        assert !IsSpace(s[0]) && !IsSpace(s[|s| - 1]);
      }
    }
    StripOfTrimmed(s);
    LowerOfLowercase(s);
    SubRunsFixpoint(s, IsSpace, ' ');
    StripCharsOfTrimmed(s, TitleTrim);
  }

  /** Normalising twice is normalising once, so a key file already in key form matches. */
  lemma {:induction false} ProjectKeyIdempotent(s: string)
    ensures ProjectKey(ProjectKey(s)) == ProjectKey(s)
  {
    ProjectKeyShape(s);
    ProjectKeyFixpoint(ProjectKey(s));
  }

  /** Titles that differ only in letter case have the same key. */
  lemma {:induction false} ProjectKeyIgnoresCase(s: string)
    ensures ProjectKey(Lower(s)) == ProjectKey(s)
  {
    StripLower(s);
    LowerIdempotent(Strip(s));
  }

  // ---------------------------------------------------------------------
  // Dates
  // ---------------------------------------------------------------------

  /**
   * `int(s)` on ASCII digits: surrounding whitespace and one leading sign
   * are accepted; None where Python raises ValueError.
   */
  function IntOf(s: string): Option<int>
  {
    var t := Strip(s);
    if t != [] && (t[0] == '+' || t[0] == '-') then
      var v: int := if IsDigits(t[1..]) then DigitsValue(t[1..]) else 0;
      if IsDigits(t[1..]) then Some(if t[0] == '-' then -v else v) else None
    else if IsDigits(t) then Some(DigitsValue(t))
    else None
  }

  /** `int(str(n)) == n`. */
  lemma {:induction false} IntOfNat(n: nat)
    ensures IntOf(NatToString(n)) == Some(n)
  {
    var t := NatToString(n);
    assert IsDigit(t[0]) && IsDigit(t[|t| - 1]);
    StripOfTrimmed(t);
    assert IsDigits(t);
    NatToStringValue(n);
  }

  /** `int(s)` raises on text with no digit at all, such as a word. */
  lemma {:induction false} IntOfNoDigit(s: string)
    requires forall i :: 0 <= i < |s| ==> !IsDigit(s[i])
    ensures IntOf(s) == None
  {
    var t := Strip(s);
    var a := StripSlice(s);
    forall i | 0 <= i < |t|
      ensures !IsDigit(t[i])
    {
      assert t[i] == s[a + i];
    }
    NoDigitNotDigits(t);
  }

  lemma {:induction false} NoDigitNotDigits(t: string)
    requires forall i :: 0 <= i < |t| ==> !IsDigit(t[i])
    ensures !IsDigits(t)
    ensures t != [] ==> !IsDigits(t[1..])
  {
    if t != [] {
      assert !IsDigit(t[0]);
    }
    if |t| > 1 {
      assert t[1..][0] == t[1];
    }
  }

  /** A `datetime.date`. */
  datatype Date = Date(year: int, month: int, day: int)

  predicate IsLeap(y: int) {
    y % 4 == 0 && (y % 100 != 0 || y % 400 == 0)
  }

  function DaysInMonth(y: int, m: int): int
    requires 1 <= m <= 12
  {
    if m == 2 then (if IsLeap(y) then 29 else 28)
    else if m == 4 || m == 6 || m == 9 || m == 11 then 30
    else 31
  }

  /** What `datetime.date(y, m, d)` accepts without raising. */
  predicate ValidDate(y: int, m: int, d: int) {
    1 <= y <= 9999 && 1 <= m <= 12 && 1 <= d <= DaysInMonth(y, m)
  }

  predicate IsDate(d: Date) {
    ValidDate(d.year, d.month, d.day)
  }

  /** `a < b` on dates: by year, then month, then day. */
  predicate Before(a: Date, b: Date) {
    a.year < b.year || (a.year == b.year && (a.month < b.month || (a.month == b.month && a.day < b.day)))
  }

  /** A two-digit (or smaller) year is taken to be in the 2000s. */
  function FullYear(y: int): int {
    if y < 100 then y + 2000 else y
  }

  /** The three outcomes of `_parse_date` as written: no date, a date, or an uncaught ValueError. */
  datatype DateOutcome = NoDate | ParsedDate(date: Date) | RaisesValueError

  /** `d/m/y` with a valid calendar day. */
  function DateFrom(y: int, m: Option<int>, d: Option<int>): (r: Option<Date>)
    ensures r.Some? ==> IsDate(r.value) && r.value.year == y
  {
    if m.Some? && d.Some? && ValidDate(y, m.value, d.value) then Some(Date(y, m.value, d.value)) else None
  }

  /**
   * `_parse_date` as written: the year is converted outside the `try`, so a
   * year that is not an integer raises instead of giving None.
   */
  function ParseDateAsWritten(s: string): (r: DateOutcome)
    ensures r.ParsedDate? ==> IsDate(r.date)
  {
    var t := Strip(s);
    if t == [] then NoDate
    else
      var parts := Split(t, "/");
      if |parts| != 3 then NoDate
      else
        match IntOf(parts[2])
        case None => RaisesValueError
        case Some(y) =>
          match DateFrom(FullYear(y), IntOf(parts[1]), IntOf(parts[0]))
          case Some(d) => ParsedDate(d)
          case None => NoDate
  }

  /**
   * `_parse_date` with the year conversion inside the `try`: every text
   * that is not a valid `d/m/y` date gives None.
   */
  function ParseDate(s: string): (r: Option<Date>)
    ensures r.Some? ==> IsDate(r.value)
  {
    var t := Strip(s);
    if t == [] then None
    else
      var parts := Split(t, "/");
      if |parts| != 3 then None
      else
        match IntOf(parts[2])
        case None => None
        case Some(y) => DateFrom(FullYear(y), IntOf(parts[1]), IntOf(parts[0]))
  }

  /** The text `d/m/y` of three numbers. */
  function DateText(d: nat, m: nat, y: nat): string {
    NatToString(d) + "/" + NatToString(m) + "/" + NatToString(y)
  }

  /** Three pieces with no `/` joined by `/` split back into those pieces. */
  lemma {:induction false} SplitThree(a: string, b: string, c: string)
    requires forall i :: 0 <= i < |a| ==> a[i] != '/'
    requires forall i :: 0 <= i < |b| ==> b[i] != '/'
    requires forall i :: 0 <= i < |c| ==> c[i] != '/'
    ensures Split(a + "/" + b + "/" + c, "/") == [a, b, c]
  {
    assert a + "/" + b + "/" + c == a + ['/'] + (b + ['/'] + c);
    SplitCharCons(a, '/', b + ['/'] + c);
    SplitCharCons(b, '/', c);
    SplitCharFree(c, '/');
  }

  /** The text of a date has no surrounding whitespace and splits into its three numbers. */
  lemma {:induction false} DateTextParts(d: nat, m: nat, y: nat)
    ensures Strip(DateText(d, m, y)) == DateText(d, m, y)
    ensures Split(DateText(d, m, y), "/") == [NatToString(d), NatToString(m), NatToString(y)]
  {
    var a, b, c := NatToString(d), NatToString(m), NatToString(y);
    var s := DateText(d, m, y);
    assert s[0] == a[0] && s[|s| - 1] == c[|c| - 1];
    assert IsDigit(s[0]) && IsDigit(s[|s| - 1]);
    StripOfTrimmed(s);
    SplitThree(a, b, c);
  }

  /**
   * Reading `d/m/y` back: the date when the day exists in that month of the
   * full year (years below 100 in the 2000s), None otherwise.
   */
  lemma {:induction false} ParseDateText(d: nat, m: nat, y: nat)
    ensures ParseDate(DateText(d, m, y))
      == if ValidDate(FullYear(y), m, d) then Some(Date(FullYear(y), m, d)) else None
  {
    var s := DateText(d, m, y);
    DateTextParts(d, m, y);
    assert s != [];
    var parts := Split(s, "/");
    IntOfNat(d);
    IntOfNat(m);
    IntOfNat(y);
    assert IntOf(parts[2]) == Some(y as int);
    assert ParseDate(s) == DateFrom(FullYear(y), IntOf(parts[1]), IntOf(parts[0]));
  }

  /** A blank date field is no date. */
  lemma {:induction false} ParseDateBlank(s: string)
    requires IsBlank(s)
    ensures ParseDate(s) == None && ParseDateAsWritten(s) == NoDate
  {
    StripBlank(s);
  }

  /**
   * The written parser raises exactly when the text has three `/` parts and
   * the last is not an integer; otherwise it agrees with `ParseDate`.
   */
  lemma {:induction false} ParseDateAsWrittenRaises(s: string)
    ensures ParseDateAsWritten(s) == RaisesValueError
      <==> (!IsBlank(s) && |Split(Strip(s), "/")| == 3 && IntOf(Split(Strip(s), "/")[2]).None?)
    ensures ParseDateAsWritten(s) != RaisesValueError
      ==> ParseDate(s) == (if ParseDateAsWritten(s).ParsedDate? then Some(ParseDateAsWritten(s).date) else None)
  {
    StripBlank(s);
  }

  /** "1/1/xx": the written parser raises, the corrected one gives None. */
  lemma {:induction false} ParseDateNonNumericYear()
    ensures ParseDateAsWritten("1/1/xx") == RaisesValueError
    ensures ParseDate("1/1/xx") == None
  {
    var s := "1/1/xx";
    assert s[0] == '1' && s[|s| - 1] == 'x';
    StripOfTrimmed(s);
    assert s == "1" + "/" + "1" + "/" + "xx";
    SplitThree("1", "1", "xx");
    IntOfNoDigit("xx");
  }

  // ---------------------------------------------------------------------
  // Year interval badge
  // ---------------------------------------------------------------------

  /** The en dash between the two years of the badge. */
  const Dash: char := '\U{2013}'

  /** `str(date.year)`, or "" for no date. */
  function YearPart(d: Option<Date>): string
    requires d.Some? ==> IsDate(d.value)
  {
    match d
    case Some(x) => NatToString(x.year)
    case None => ""
  }

  /** `_year_interval`: "S–E", "S–", "–E" or "" by which of the two dates parse. */
  function YearInterval(start: string, end: string): (r: string)
  {
    Interval(ParseDate(start), ParseDate(end))
  }

  /** The badge text for the two parsed dates. */
  function Interval(s: Option<Date>, e: Option<Date>): string
    requires s.Some? ==> IsDate(s.value)
    requires e.Some? ==> IsDate(e.value)
  {
    if s.None? && e.None? then "" else YearPart(s) + [Dash] + YearPart(e)
  }

  lemma {:induction false} YearPartFacts(d: Option<Date>)
    requires d.Some? ==> IsDate(d.value)
    ensures forall i :: 0 <= i < |YearPart(d)| ==> YearPart(d)[i] != Dash
    ensures YearPart(d) == [] <==> d.None?
    ensures d.Some? ==> IsDigits(YearPart(d)) && DigitsValue(YearPart(d)) == d.value.year
  {
    if d.Some? {
      NatToStringValue(d.value.year);
    }
  }

  /**
   * The badge is empty exactly when neither date parses; otherwise it reads
   * back, split at the dash, as the start year and the end year, each empty
   * when that date does not parse.
   */
  lemma {:induction false} YearIntervalReadBack(start: string, end: string)
    ensures YearInterval(start, end) == [] <==> ParseDate(start).None? && ParseDate(end).None?
    ensures YearInterval(start, end) != [] ==>
      var parts := Split(YearInterval(start, end), [Dash]);
      && |parts| == 2
      && (parts[0] == [] <==> ParseDate(start).None?)
      && (ParseDate(start).Some? ==> IsDigits(parts[0]) && DigitsValue(parts[0]) == ParseDate(start).value.year)
      && (parts[1] == [] <==> ParseDate(end).None?)
      && (ParseDate(end).Some? ==> IsDigits(parts[1]) && DigitsValue(parts[1]) == ParseDate(end).value.year)
  {
    IntervalReadBack(ParseDate(start), ParseDate(end));
  }

  /** A parse outcome that did not raise, as the date or None it stands for. */
  function OutcomeDate(o: DateOutcome): (r: Option<Date>)
    requires !o.RaisesValueError?
    requires o.ParsedDate? ==> IsDate(o.date)
    ensures r.Some? ==> IsDate(r.value)
  {
    if o.ParsedDate? then Some(o.date) else None
  }

  /**
   * `_year_interval` as written: None stands for the ValueError that the
   * written parser raises on either date, the start date being parsed first.
   */
  function YearIntervalAsWritten(start: string, end: string): Option<string> {
    var s := ParseDateAsWritten(start);
    if s.RaisesValueError? then None
    else
      var e := ParseDateAsWritten(end);
      if e.RaisesValueError? then None
      else Some(Interval(OutcomeDate(s), OutcomeDate(e)))
  }

  /**
   * The written `_year_interval` raises exactly when one of the two dates
   * makes the written parser raise; otherwise it gives the badge
   * `YearInterval` gives.
   */
  lemma {:induction false} YearIntervalAsWrittenAgrees(start: string, end: string)
    ensures YearIntervalAsWritten(start, end).None?
      <==> ParseDateAsWritten(start).RaisesValueError? || ParseDateAsWritten(end).RaisesValueError?
    ensures YearIntervalAsWritten(start, end).Some? ==> YearIntervalAsWritten(start, end).value == YearInterval(start, end)
  {
    ParseDateAsWrittenRaises(start);
    ParseDateAsWrittenRaises(end);
  }

  lemma {:induction false} IntervalReadBack(s: Option<Date>, e: Option<Date>)
    requires s.Some? ==> IsDate(s.value)
    requires e.Some? ==> IsDate(e.value)
    ensures Interval(s, e) == [] <==> s.None? && e.None?
    ensures Interval(s, e) != [] ==>
      var parts := Split(Interval(s, e), [Dash]);
      && |parts| == 2
      && (parts[0] == [] <==> s.None?)
      && (s.Some? ==> IsDigits(parts[0]) && DigitsValue(parts[0]) == s.value.year)
      && (parts[1] == [] <==> e.None?)
      && (e.Some? ==> IsDigits(parts[1]) && DigitsValue(parts[1]) == e.value.year)
  {
    if s.Some? || e.Some? {
      YearPartFacts(s);
      YearPartFacts(e);
      SplitCharCons(YearPart(s), Dash, YearPart(e));
      SplitCharFree(YearPart(e), Dash);
    }
  }

  // ---------------------------------------------------------------------
  // Ongoing and past
  // ---------------------------------------------------------------------

  /** A curated title that always goes to the past section. */
  predicate ForcedPast(p: CompetitiveProject) {
    ProjectKey(p.title) in ForcePastTitles
  }

  /** The end date parses and lies before today. */
  predicate Ended(p: CompetitiveProject, today: Date) {
    var e := ParseDate(p.end);
    e.Some? && Before(e.value, today)
  }

  predicate GoesPast(p: CompetitiveProject, today: Date) {
    ForcedPast(p) || Ended(p, today)
  }

  /** The test of the ongoing list. */
  function StaysOngoing(today: Date): CompetitiveProject -> bool {
    p => !GoesPast(p, today)
  }

  /** The test of the past list. */
  function MovesPast(today: Date): CompetitiveProject -> bool {
    p => GoesPast(p, today)
  }

  /** The written `split_ongoing_past` raises on this project: it is not forced and its end date raises. */
  predicate EndRaises(p: CompetitiveProject) {
    !ForcedPast(p) && ParseDateAsWritten(p.end).RaisesValueError?
  }

  /** The written decision for a project whose end date does not raise. */
  predicate GoesPastAsWritten(p: CompetitiveProject, today: Date)
    requires !EndRaises(p)
  {
    ForcedPast(p) || (ParseDateAsWritten(p.end).ParsedDate? && Before(ParseDateAsWritten(p.end).date, today))
  }

  /**
   * Wherever the written loop does not raise, it sends each project to the
   * same list as the model does.
   */
  lemma {:induction false} GoesPastAgrees(p: CompetitiveProject, today: Date)
    requires !EndRaises(p)
    ensures GoesPast(p, today) == GoesPastAsWritten(p, today)
  {
    ParseDateAsWrittenRaises(p.end);
  }

  /** The projects listed as ongoing, in input order. */
  function Ongoing(projects: seq<CompetitiveProject>, today: Date): seq<CompetitiveProject> {
    Filter(projects, StaysOngoing(today))
  }

  /** The projects listed as past, in input order. */
  function Past(projects: seq<CompetitiveProject>, today: Date): seq<CompetitiveProject> {
    Filter(projects, MovesPast(today))
  }

  /** `split_ongoing_past`, with today's date passed in. */
  method SplitOngoingPast(projects: seq<CompetitiveProject>, today: Date)
    returns (ongoing: seq<CompetitiveProject>, past: seq<CompetitiveProject>)
    ensures ongoing == Ongoing(projects, today)
    ensures past == Past(projects, today)
  {
    ongoing, past := [], [];
    for i := 0 to |projects|
      invariant ongoing == Ongoing(projects[..i], today)
      invariant past == Past(projects[..i], today)
    {
      var p := projects[i];
      SplitStep(projects, i, today);
      if ProjectKey(p.title) in ForcePastTitles {
        past := past + [p];
        continue;
      }
      var end := ParseDate(p.end);
      if end.None? || !Before(end.value, today) {
        ongoing := ongoing + [p];
      } else {
        past := past + [p];
      }
    }
    assert projects[..|projects|] == projects;
  }

  /** One more project extends exactly one of the two lists. */
  lemma {:induction false} SplitStep(projects: seq<CompetitiveProject>, i: nat, today: Date)
    requires i < |projects|
    ensures GoesPast(projects[i], today) ==>
      Ongoing(projects[..i + 1], today) == Ongoing(projects[..i], today)
      && Past(projects[..i + 1], today) == Past(projects[..i], today) + [projects[i]]
    ensures !GoesPast(projects[i], today) ==>
      Ongoing(projects[..i + 1], today) == Ongoing(projects[..i], today) + [projects[i]]
      && Past(projects[..i + 1], today) == Past(projects[..i], today)
  {
    var p := projects[i];
    PrefixSnoc(projects, i);
    FilterSnoc(projects[..i], StaysOngoing(today), p);
    FilterSnoc(projects[..i], MovesPast(today), p);
  }

  /**
   * Every project lands in exactly one of the two lists, and each list keeps
   * the input order.
   */
  lemma {:induction false} SplitPartition(projects: seq<CompetitiveProject>, today: Date)
    ensures multiset(Ongoing(projects, today)) + multiset(Past(projects, today)) == multiset(projects)
    ensures IsSubsequence(Ongoing(projects, today), projects)
    ensures IsSubsequence(Past(projects, today), projects)
  {
    FilterPartition(projects, StaysOngoing(today), MovesPast(today));
    FilterOrder(projects, StaysOngoing(today));
    FilterOrder(projects, MovesPast(today));
  }

  /**
   * A project is listed as ongoing exactly when its title is not forced to
   * the past and its end date is missing, does not parse, or is today or
   * later; it is listed as past exactly in the other cases.
   */
  lemma {:induction false} SplitMembers(projects: seq<CompetitiveProject>, today: Date, p: CompetitiveProject)
    ensures p in Ongoing(projects, today) <==>
      p in projects && !ForcedPast(p) && (ParseDate(p.end).None? || !Before(ParseDate(p.end).value, today))
    ensures p in Past(projects, today) <==> p in projects && GoesPast(p, today)
  {
    FilterMember(projects, StaysOngoing(today), p);
    FilterMember(projects, MovesPast(today), p);
  }

  /** A project with a forced title is in the past list and not in the ongoing one. */
  lemma {:induction false} ForcedGoesPast(projects: seq<CompetitiveProject>, today: Date, p: CompetitiveProject)
    requires p in projects && ProjectKey(p.title) in ForcePastTitles
    ensures p in Past(projects, today) && p !in Ongoing(projects, today)
  {
    SplitMembers(projects, today, p);
  }

  // ---------------------------------------------------------------------
  // Link file
  // ---------------------------------------------------------------------

  /** A value of the parsed JSON object: a string, or anything else. */
  datatype Json = JString(s: string) | JOther

  /** An entry the link file contributes: a string value that is not blank. */
  predicate Usable(e: (string, Json)) {
    e.1.JString? && !IsBlank(e.1.s)
  }

  /** The key an entry is stored under: its normalised title. */
  function LinkKey(e: (string, Json)): string {
    ProjectKey(e.0)
  }

  /** The link an entry stores: its stripped value. */
  function LinkValue(e: (string, Json)): string {
    if e.1.JString? then Strip(e.1.s) else ""
  }

  /** The dict `load_project_links` builds from the object's entries, in file order. */
  function Links(entries: seq<(string, Json)>): map<string, string> {
    DictOf(entries, Usable, LinkKey, LinkValue)
  }

  /** `load_project_links` once the file has been read as a JSON object. */
  method LoadProjectLinks(entries: seq<(string, Json)>) returns (out: map<string, string>)
    ensures out == Links(entries)
  {
    out := map[];
    for i := 0 to |entries|
      invariant out == Links(entries[..i])
    {
      var (k, raw) := entries[i];
      PrefixSnoc(entries, i);
      DictOfSnoc(entries[..i], Usable, LinkKey, LinkValue, entries[i]);
      if !raw.JString? {
        continue;
      }
      var v := Strip(raw.s);
      StripBlank(raw.s);
      if v == [] {
        continue;
      }
      out := out[ProjectKey(k) := v];
    }
    assert entries[..|entries|] == entries;
  }

  /**
   * A key is in the link dict exactly when a usable entry's title has that
   * key, and every stored link is non-empty and stripped.
   */
  lemma {:induction false} LinksKeys(entries: seq<(string, Json)>, key: string)
    ensures key in Links(entries) <==>
      exists i :: 0 <= i < |entries| && Usable(entries[i]) && ProjectKey(entries[i].0) == key
    ensures key in Links(entries) ==> Links(entries)[key] != [] && IsStripped(Links(entries)[key])
  {
    DictOfKeys(entries, Usable, LinkKey, LinkValue, key);
    if key in Links(entries) {
      var i :| 0 <= i < |entries| && Usable(entries[i]) && LinkKey(entries[i]) == key
        && LinkValue(entries[i]) == Links(entries)[key];
      StripBlank(entries[i].1.s);
    }
  }

  /** When several entries share a key, the last usable one wins. */
  lemma {:induction false} LinksLastWins(entries: seq<(string, Json)>, i: nat)
    requires i < |entries| && Usable(entries[i])
    requires forall j :: i < j < |entries| && Usable(entries[j]) ==> ProjectKey(entries[j].0) != ProjectKey(entries[i].0)
    ensures ProjectKey(entries[i].0) in Links(entries)
    ensures Links(entries)[ProjectKey(entries[i].0)] == Strip(entries[i].1.s)
  {
    DictOfLastWins(entries, Usable, LinkKey, LinkValue, i);
  }

  // ---------------------------------------------------------------------
  // Competitive project cards
  // ---------------------------------------------------------------------

  /**
   * One `<article class="card proj-card">`: the title, the optional year
   * badge, the optional investigators and funding lines and the optional
   * "Web" link.
   */
  datatype ProjectCard = ProjectCard(
    title: string,
    badge: Option<string>,
    investigators: Option<string>,
    funder: Option<string>,
    web: Option<string>)

  predicate Excluded(p: CompetitiveProject) {
    ProjectKey(p.title) in ExcludeTitles
  }

  /** The card of a project that is not excluded. */
  function Card(p: CompetitiveProject, links: map<string, string>): ProjectCard
  {
    var interval := YearInterval(p.start, p.end);
    var key := ProjectKey(p.title);
    ProjectCard(
      p.title,
      if interval != [] then Some(interval) else None,
      if p.pis != [] then Some(Join(p.pis, ", ")) else None,
      if p.funder != [] then Some(p.funder) else None,
      if key in links && links[key] != [] then Some(links[key]) else None)
  }

  /** The test of a project that gets a card. */
  function NotExcluded(p: CompetitiveProject): bool {
    !Excluded(p)
  }

  /** The projects that get a card, in input order. */
  function Shown(projects: seq<CompetitiveProject>): seq<CompetitiveProject> {
    Filter(projects, NotExcluded)
  }

  /** The card of each shown project, with the link dict fixed. */
  function CardWith(links: map<string, string>): CompetitiveProject -> ProjectCard {
    p => Card(p, links)
  }

  /** The cards of the shown projects, in order. */
  function CompetitiveCards(projects: seq<CompetitiveProject>, links: map<string, string>): seq<ProjectCard> {
    Map(Shown(projects), CardWith(links))
  }

  /** `render_competitive_cards`: one card per project that is not excluded, in order. */
  method RenderCompetitiveCards(projects: seq<CompetitiveProject>, links: map<string, string>)
    returns (cards: seq<ProjectCard>)
    ensures cards == CompetitiveCards(projects, links)
  {
    cards := [];
    for i := 0 to |projects|
      invariant cards == CompetitiveCards(projects[..i], links)
    {
      var p := projects[i];
      PrefixSnoc(projects, i);
      FilterSnoc(projects[..i], NotExcluded, p);
      if ProjectKey(p.title) in ExcludeTitles {
        assert Shown(projects[..i + 1]) == Shown(projects[..i]);
        continue;
      }
      assert Shown(projects[..i + 1]) == Shown(projects[..i]) + [p];
      var card := RenderCard(p, links);
      MapSnoc(Shown(projects[..i]), CardWith(links), p);
      assert CardWith(links)(p) == card;
      cards := cards + [card];
    }
    assert projects[..|projects|] == projects;
  }

  /** The `<article>` of one project. */
  method RenderCard(p: CompetitiveProject, links: map<string, string>) returns (card: ProjectCard)
    ensures card == Card(p, links)
  {
    var interval := YearInterval(p.start, p.end);
    var badge := if interval != [] then Some(interval) else None;
    var investigators := if p.pis != [] then Some(Join(p.pis, ", ")) else None;
    var funder := if p.funder != [] then Some(p.funder) else None;
    var key := ProjectKey(p.title);
    var web := None;
    if key in links && links[key] != [] {
      web := Some(links[key]);
    }
    card := ProjectCard(p.title, badge, investigators, funder, web);
  }

  /**
   * The projects with a card are exactly those whose title is not excluded,
   * in input order.
   */
  lemma {:induction false} ShownFacts(projects: seq<CompetitiveProject>, p: CompetitiveProject)
    ensures p in Shown(projects) <==> p in projects && ProjectKey(p.title) !in ExcludeTitles
    ensures IsSubsequence(Shown(projects), projects)
  {
    FilterMember(projects, NotExcluded, p);
    FilterOrder(projects, NotExcluded);
  }

  /** A card carries a year badge exactly when its start or its end date parses. */
  lemma {:induction false} CardBadge(p: CompetitiveProject, links: map<string, string>)
    ensures Card(p, links).badge.Some? <==> ParseDate(p.start).Some? || ParseDate(p.end).Some?
  {
    YearIntervalReadBack(p.start, p.end);
  }

  /**
   * With the links read from the link file, a card carries a "Web" link
   * exactly when some usable entry of the file has the project's title key,
   * and the link is the stripped value of the last such entry.
   */
  lemma {:induction false} CardWeb(entries: seq<(string, Json)>, p: CompetitiveProject)
    ensures Card(p, Links(entries)).web.Some? <==>
      exists i :: 0 <= i < |entries| && Usable(entries[i]) && ProjectKey(entries[i].0) == ProjectKey(p.title)
    ensures Card(p, Links(entries)).web.Some? ==> Card(p, Links(entries)).web.value == Links(entries)[ProjectKey(p.title)]
  {
    LinksKeys(entries, ProjectKey(p.title));
  }
}
