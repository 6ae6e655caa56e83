/**
  The pure parts of the quiz generator (generate_quiz.py): cleaning a school
  name, classifying a player's school against the table of NCAA Division I
  institutions, and the list of season labels.

  The table is given as a sequence of rows whose cells may be missing (a blank
  cell of the spreadsheet). The fuzzy matcher is a parameter: given a query and
  the candidate names it returns the best candidate and its score, or nothing.
 */
module Generator {
  import opened Optional
  import opened Text

  /** A spreadsheet cell: text, or a blank cell (not a string). */
  datatype Cell = Str(text: string) | Missing

  /** One row of the table of Division I institutions. */
  datatype Institution = Institution(official: Cell, common: Cell, conference: Cell)

  // ---------------------------------------------------------------------------
  // clean_name

  /** The rewrites of `clean_name` on a string, in order: lower-case, drop the
      "university of" prefixes, "at " and "the ", spell out "st", turn dashes
      into spaces, drop dots and brackets, and strip. */
  function CleanString(name: string): string
  {
    var s0 := Lower(name);
    var s1 := ReplaceAll(s0, "university of ", "");
    var s2 := ReplaceAll(s1, "univ. of ", "");
    var s3 := ReplaceAll(s2, "at ", "");
    var s4 := ReplaceAll(s3, "the ", "");
    var s5 := ReplaceAll(s4, "st.", "state");
    var s6 := ReplaceAll(s5, "st ", "state ");
    var s7 := ReplaceAll(s6, "state.", "state");
    var s8 := ReplaceAll(s7, "-", " ");
    var s9 := ReplaceAll(s8, ".", "");
    var s10 := ReplaceAll(s9, "(", "");
    var s11 := ReplaceAll(s10, ")", "");
    Strip(s11)
  }

  /** `clean_name`: a blank cell cleans to the empty string. */
  function CleanName(c: Cell): string
  {
    match c
    case Str(s) => CleanString(s)
    case Missing => ""
  }

  /** A character `clean_name` can leave behind: no upper-case letter, dot, dash or bracket. */
  predicate Clean(c: char)
  {
    !IsUpper(c) && c != '.' && c != '-' && c != '(' && c != ')'
  }

  lemma StripWithin(s: string)
    ensures forall c :: c in Strip(s) ==> c in s
  {
    var r := Strip(s);
    var a := LeadingSpace(s);
    var b := TextEnd(s, a, |s|);
    assert r == s[a..b];
    forall c | c in r
      ensures c in s
    {
      var k :| 0 <= k < |r| && r[k] == c;
      assert s[a + k] == c;
    }
  }

  lemma NoUpperWithin(s: string)
    requires NoUpper(s)
    ensures forall c :: c in s ==> !IsUpper(c)
  {
  }

  /** A cleaned name has no upper-case ASCII letter, no '.', '-', '(' or ')',
      and no white space at either end. */
  lemma CleanNameIsClean(c: Cell)
    ensures forall ch :: ch in CleanName(c) ==> Clean(ch)
    ensures CleanName(c) == [] || (!IsSpace(CleanName(c)[0]) && !IsSpace(CleanName(c)[|CleanName(c)| - 1]))
  {
    if c.Str? {
      var s0 := Lower(c.text);
      NoUpperWithin(s0);
      var s1 := ReplaceAll(s0, "university of ", "");
      var s2 := ReplaceAll(s1, "univ. of ", "");
      var s3 := ReplaceAll(s2, "at ", "");
      var s4 := ReplaceAll(s3, "the ", "");
      var s5 := ReplaceAll(s4, "st.", "state");
      var s6 := ReplaceAll(s5, "st ", "state ");
      var s7 := ReplaceAll(s6, "state.", "state");
      var s8 := ReplaceAll(s7, "-", " ");
      var s9 := ReplaceAll(s8, ".", "");
      var s10 := ReplaceAll(s9, "(", "");
      var s11 := ReplaceAll(s10, ")", "");
      assert forall ch :: ch in s7 ==> !IsUpper(ch);
      assert forall ch :: ch in s8 ==> !IsUpper(ch) && ch != '-';
      assert forall ch :: ch in s9 ==> !IsUpper(ch) && ch != '-' && ch != '.';
      assert forall ch :: ch in s11 ==> Clean(ch);
      StripWithin(s11);
    }
  }

  /** A blank cell cleans to the empty string. */
  lemma CleanMissing()
    ensures CleanName(Missing) == ""
  {
  }

  // ---------------------------------------------------------------------------
  // match_college_to_conf

  /** The fuzzy matcher: the best of `choices` for a query with its score in
      0..100, or nothing. */
  type Matcher = (string, seq<string>) -> Option<(string, real)>

  /** The matcher only ever answers with one of the choices it was given. */
  ghost predicate AnswersFromChoices(extract: Matcher)
  {
    forall q, choices :: extract(q, choices).Some? ==> extract(q, choices).value.0 in choices
  }

  /** How a player's school is classified: the name to show, the school type and the conference. */
  datatype Classification = Classification(school: Cell, schoolType: string, conference: Cell)

  /** The smallest score the fuzzy match must reach. */
  const Threshold: real := 85.0

  const HighSchoolWords: seq<string> := ["high", "prep", "academy", "charter", "school"]
  const InternationalWords: seq<string> := ["paris", "vasco", "canada", "real madrid", "bahamas", "belgrade",
    "france", "europe", "australia", "london", "international", "club"]

  /** One of `words` occurs in `s` (`any(w in s for w in words)`). */
  predicate MentionsAny(s: string, words: seq<string>)
  {
    exists i :: 0 <= i < |words| && Contains(s, words[i])
  }

  function CleanedOfficials(table: seq<Institution>): (col: seq<string>)
    ensures |col| == |table|
    ensures forall i :: 0 <= i < |table| ==> col[i] == CleanName(table[i].official)
  {
    seq(|table|, i requires 0 <= i < |table| => CleanName(table[i].official))
  }

  function CleanedCommons(table: seq<Institution>): (col: seq<string>)
    ensures |col| == |table|
    ensures forall i :: 0 <= i < |table| ==> col[i] == CleanName(table[i].common)
  {
    seq(|table|, i requires 0 <= i < |table| => CleanName(table[i].common))
  }

  /** The position of the first row whose cleaned name is `v` (`.iloc[0]` of the rows that match). */
  function FirstIndex(col: seq<string>, v: string): (i: nat)
    requires v in col
    ensures i < |col| && col[i] == v
    ensures forall j :: 0 <= j < i ==> col[j] != v
  {
    if col[0] == v then 0 else 1 + FirstIndex(col[1..], v)
  }

  /** A name that is empty, "unknown" or "none" (ignoring case and surrounding space). */
  predicate IsUnknown(raw: string)
  {
    raw == [] || Strip(Lower(raw)) in {"unknown", "none"}
  }

  /** The row the official-name match found, if it scores at least the threshold. */
  function OfficialHit(cleaned: string, table: seq<Institution>, extract: Matcher): (hit: Option<Institution>)
    requires AnswersFromChoices(extract)
    ensures hit.Some? ==> hit.value in table
    ensures hit.Some? <==> extract(cleaned, CleanedOfficials(table)).Some? && extract(cleaned, CleanedOfficials(table)).value.1 >= Threshold
  {
    var col := CleanedOfficials(table);
    var m := extract(cleaned, col);
    if m.Some? && m.value.1 >= Threshold then Some(table[FirstIndex(col, m.value.0)]) else None
  }

  /** The row the common-name match found, if it scores at least the threshold. */
  function CommonHit(cleaned: string, table: seq<Institution>, extract: Matcher): (hit: Option<Institution>)
    requires AnswersFromChoices(extract)
    ensures hit.Some? ==> hit.value in table
    ensures hit.Some? <==> extract(cleaned, CleanedCommons(table)).Some? && extract(cleaned, CleanedCommons(table)).value.1 >= Threshold
  {
    var col := CleanedCommons(table);
    var m := extract(cleaned, col);
    if m.Some? && m.value.1 >= Threshold then Some(table[FirstIndex(col, m.value.0)]) else None
  }

  /** `match_college_to_conf`: unknown names first, then the official-name
      match, then the common-name match, then the high-school words, then the
      international words, and "Other" for everything else. */
  function MatchCollegeToConf(raw: string, table: seq<Institution>, extract: Matcher): (r: Classification)
    requires AnswersFromChoices(extract)
    ensures r.schoolType in {"College", "High School", "International", "Other"}
    ensures r.schoolType != "College" ==> r.conference == Str("Other")
  {
    if IsUnknown(raw) then Classification(Str("Unknown"), "Other", Str("Other"))
    else
      var cleaned := CleanString(raw);
      match OfficialHit(cleaned, table, extract)
      case Some(row) => Classification(row.common, "College", row.conference)
      case None =>
        match CommonHit(cleaned, table, extract)
        case Some(row) => Classification(row.common, "College", row.conference)
        case None =>
          if MentionsAny(cleaned, HighSchoolWords) then Classification(Str(raw), "High School", Str("Other"))
          else if MentionsAny(cleaned, InternationalWords) then Classification(Str(raw), "International", Str("Other"))
          else Classification(Str(raw), "Other", Str("Other"))
  }

  /** An empty, "unknown" or "none" name is classified as unknown before any matching. */
  lemma UnknownFirst(raw: string, table: seq<Institution>, extract: Matcher)
    requires AnswersFromChoices(extract)
    requires raw == [] || Strip(Lower(raw)) == "unknown" || Strip(Lower(raw)) == "none"
    ensures MatchCollegeToConf(raw, table, extract) == Classification(Str("Unknown"), "Other", Str("Other"))
  {
  }

  /** An official-name match of at least 85 gives the first row with that
      cleaned official name, as a college with its common name and conference. */
  lemma OfficialMatchWins(raw: string, table: seq<Institution>, extract: Matcher)
    requires AnswersFromChoices(extract)
    requires !IsUnknown(raw)
    requires var m := extract(CleanString(raw), CleanedOfficials(table)); m.Some? && m.value.1 >= Threshold
    ensures var m := extract(CleanString(raw), CleanedOfficials(table));
      var i := FirstIndex(CleanedOfficials(table), m.value.0);
      && CleanName(table[i].official) == m.value.0
      && (forall j :: 0 <= j < i ==> CleanName(table[j].official) != m.value.0)
      && MatchCollegeToConf(raw, table, extract) == Classification(table[i].common, "College", table[i].conference)
  {
  }

  /** When the official-name match succeeds, the common-name list is not
      consulted: a matcher that answers the same official-name query gives the
      same result, whatever it answers otherwise. */
  lemma CommonNotConsulted(raw: string, table: seq<Institution>, e1: Matcher, e2: Matcher)
    requires AnswersFromChoices(e1) && AnswersFromChoices(e2)
    requires !IsUnknown(raw)
    requires OfficialHit(CleanString(raw), table, e1).Some?
    requires e1(CleanString(raw), CleanedOfficials(table)) == e2(CleanString(raw), CleanedOfficials(table))
    ensures MatchCollegeToConf(raw, table, e1) == MatchCollegeToConf(raw, table, e2)
  {
  }

  /** When the official-name match misses, a common-name match of at least 85
      gives the first row with that cleaned common name, as a college with its
      common name and conference. */
  lemma CommonMatchWins(raw: string, table: seq<Institution>, extract: Matcher)
    requires AnswersFromChoices(extract)
    requires !IsUnknown(raw)
    requires OfficialHit(CleanString(raw), table, extract).None?
    requires var m := extract(CleanString(raw), CleanedCommons(table)); m.Some? && m.value.1 >= Threshold
    ensures var m := extract(CleanString(raw), CleanedCommons(table));
      var i := FirstIndex(CleanedCommons(table), m.value.0);
      && CleanName(table[i].common) == m.value.0
      && (forall j :: 0 <= j < i ==> CleanName(table[j].common) != m.value.0)
      && MatchCollegeToConf(raw, table, extract) == Classification(table[i].common, "College", table[i].conference)
  {
  }

  /** With neither match at 85, the raw name is kept with conference "Other";
      a high-school word wins over an international word, and a name with
      neither is "Other". */
  lemma KeywordLadder(raw: string, table: seq<Institution>, extract: Matcher)
    requires AnswersFromChoices(extract)
    requires !IsUnknown(raw)
    requires OfficialHit(CleanString(raw), table, extract).None?
    requires CommonHit(CleanString(raw), table, extract).None?
    ensures var r := MatchCollegeToConf(raw, table, extract);
      var cleaned := CleanString(raw);
      && r.school == Str(raw) && r.conference == Str("Other")
      && (r.schoolType == "High School" <==> MentionsAny(cleaned, HighSchoolWords))
      && (r.schoolType == "International" <==>
            !MentionsAny(cleaned, HighSchoolWords) && MentionsAny(cleaned, InternationalWords))
      && (r.schoolType == "Other" <==>
            !MentionsAny(cleaned, HighSchoolWords) && !MentionsAny(cleaned, InternationalWords))
  {
  }

  // ---------------------------------------------------------------------------
  // Season labels

  /** The last two characters of `s`, or all of it when shorter (`s[-2:]`). */
  function LastTwo(s: string): (t: string)
    ensures |s| >= 2 ==> |t| == 2 && s == s[..|s| - 2] + t
  {
    if |s| >= 2 then s[|s| - 2..] else s
  }

  /** `f"{year}-{str(year+1)[-2:]}"`. */
  function SeasonLabel(year: nat): string
  {
    NatToString(year) + "-" + LastTwo(NatToString(year + 1))
  }

  lemma ParseTwoDigits(hi: nat, lo: nat)
    requires hi < 10 && lo < 10
    ensures ParseNat([DigitChar(hi), DigitChar(lo)]) == 10 * hi + lo
  {
    var t := [DigitChar(hi), DigitChar(lo)];
    assert t[..1] == [DigitChar(hi)];
    assert [DigitChar(hi)][..0] == [];
    DigitRoundTrip(hi);
    DigitRoundTrip(lo);
    assert ParseNat([DigitChar(hi)]) == 10 * ParseNat([]) + DigitValue(DigitChar(hi));
    assert ParseNat(t) == 10 * ParseNat(t[..1]) + DigitValue(DigitChar(lo));
  }

  lemma LastTwoDigits(n: nat)
    requires 1000 <= n <= 9999
    ensures LastTwo(NatToString(n)) == [DigitChar(n / 10 % 10), DigitChar(n % 10)]
    ensures ParseNat(LastTwo(NatToString(n))) == n % 100
  {
    FourDigits(n);
    var hi, lo := n / 10 % 10, n % 10;
    assert LastTwo(NatToString(n)) == [DigitChar(hi), DigitChar(lo)];
    ParseTwoDigits(hi, lo);
    TensAndUnits(n);
  }

  lemma TensAndUnits(n: nat)
    ensures n % 100 == 10 * (n / 10 % 10) + n % 10
  {
    var t, hi, lo := n / 10, n / 10 % 10, n % 10;
    assert n == 10 * t + lo;
    assert t == 10 * (t / 10) + hi;
    assert t / 10 == n / 100;
    assert n == 100 * (n / 100) + (10 * hi + lo);
  }

  /** The seasons the generator draws from: 2010-11 through 2023-24. */
  function Seasons(): (labels: seq<string>)
    ensures |labels| == 14
    ensures forall i :: 0 <= i < 14 ==> labels[i] == SeasonLabel(2010 + i)
  {
    seq(14, i requires 0 <= i < 14 => SeasonLabel(2010 + i))
  }

  /** A season label of a four-digit year reads back as the year, a dash, and
      the last two digits of the next year. */
  lemma SeasonLabelRoundTrip(year: nat)
    requires 1000 <= year <= 9998
    ensures var lbl := SeasonLabel(year);
      && |lbl| == 7 && lbl[4] == '-'
      && (forall i :: 0 <= i < 7 && i != 4 ==> '0' <= lbl[i] <= '9')
      && lbl[..4] == NatToString(year)
      && lbl[5..] == [DigitChar((year + 1) / 10 % 10), DigitChar((year + 1) % 10)]
      && ParseNat(lbl[..4]) == year
      && ParseNat(lbl[5..]) == (year + 1) % 100
  {
    var lbl := SeasonLabel(year);
    FourDigits(year);
    LastTwoDigits(year + 1);
    ParseNatToString(year);
    assert lbl[..4] == NatToString(year);
    assert lbl[5..] == LastTwo(NatToString(year + 1));
    forall i | 0 <= i < 7 && i != 4
      ensures '0' <= lbl[i] <= '9'
    {
      if i < 4 {
        assert lbl[i] == NatToString(year)[i];
      } else {
        assert lbl[i] == lbl[5..][i - 5];
      }
    }
  }

  /** The 2019 season is labelled "2019-20". */
  lemma SeasonExample()
    ensures Seasons()[9] == "2019-20"
  {
    assert NatToString(2) == "2";
    assert NatToString(20) == "20";
    assert NatToString(201) == "201";
    assert NatToString(2019) == "2019";
    assert NatToString(202) == "202";
    assert NatToString(2020) == "2020";
    assert LastTwo("2020") == "20";
  }
}
