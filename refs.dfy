/** Cross-reference extraction (`extract_related_rules`). Each of the seven
    regular expressions is a hand-written matcher that decides, at one position,
    what the `re` engine would match there (greedy or lazy as written, with the
    backtracking that can matter); `FindAll` scans positions left to right with
    `re.findall`'s non-overlapping semantics. */
module RuleRefs {
  import opened Text

  /** `\d{3}` at p */
  predicate ThreeDigitsAt(s: string, p: nat)
  {
    p + 3 <= |s| && IsDigit(s[p]) && IsDigit(s[p + 1]) && IsDigit(s[p + 2])
  }

  /** `[a-z]`, which IGNORECASE widens to `[A-Za-z]` */
  predicate LetterClass(c: char, ignoreCase: bool)
  {
    if ignoreCase then IsAlpha(c) else IsLower(c)
  }

  /** The literal `lit`, written in lower case, at p; under IGNORECASE an
      upper-case ASCII letter matches its lower-case form. */
  predicate LiteralAt(s: string, p: nat, lit: string, ignoreCase: bool)
  {
    p + |lit| <= |s| && (if ignoreCase then Lower(s[p..p + |lit|]) == lit else s[p..p + |lit|] == lit)
  }

  // ---------------------------------------------------------------------------
  // The canonical reference format `^\d{3}(?:\.\d+[a-z]?)?$`.

  /** What follows the dot: one or more digits and at most one lower-case letter. */
  predicate DottedTail(t: string)
  {
    t != [] && IsDigit(t[0])
    && (AllDigits(t) || (AllDigits(t[..|t| - 1]) && IsLower(t[|t| - 1])))
  }

  /** `\d{3}(?:\.\d+[a-z]?)?` matching the whole string: "702", "702.70", "702.70a". */
  predicate IsRefForm(x: string)
  {
    |x| >= 3 && AllDigits(x[..3]) && (|x| == 3 || (x[3] == '.' && DottedTail(x[4..])))
  }

  /** `re.match(r'^...$', x)`: Python's `$` also matches just before a final newline. */
  predicate MatchesRefPattern(x: string)
  {
    IsRefForm(x) || (x != [] && x[|x| - 1] == '\n' && IsRefForm(x[..|x| - 1]))
  }

  /** Every capture is non-empty and ends in a digit or a letter. */
  predicate RefLike(c: string)
  {
    c != [] && (IsDigit(c[|c| - 1]) || IsAlpha(c[|c| - 1]))
  }

  // ---------------------------------------------------------------------------
  // Building blocks.

  /** End of `\d{3}(?:\.\d+[a-z]?)?` at p: the optional part is taken whenever
      it can be, and backing off from it never helps the patterns that use it. */
  function RefEnd(s: string, p: nat, ignoreCase: bool): (e: nat)
    requires ThreeDigitsAt(s, p)
    ensures p + 3 <= e <= |s|
    ensures RefLike(s[p..e])
    ensures !ignoreCase ==> IsRefForm(s[p..e])
  {
    var q := p + 3;
    if q + 1 < |s| && s[q] == '.' && IsDigit(s[q + 1]) then
      var d := DigitRunEnd(s, q + 1);
      var e := if d < |s| && LetterClass(s[d], ignoreCase) then d + 1 else d;
      assert s[p..e][..3] == s[p..q] && s[p..e][3] == '.';
      var t := s[p..e][4..];
      assert t == s[q + 1..e];
      assert t[0] == s[q + 1];
      assert e == d ==> AllDigits(t);
      assert e != d ==> t[..|t| - 1] == s[q + 1..d] && AllDigits(t[..|t| - 1]);
      e
    else
      assert s[p..q][..3] == s[p..q];
      q
  }

  /** End of the case-sensitive `\d{3}\.\d+[a-z]?` at p, if it matches. */
  function DottedRefEnd(s: string, p: nat): (e: Option<nat>)
    requires p <= |s|
    ensures e.Some? ==> p + 5 <= e.value <= |s| && IsRefForm(s[p..e.value]) && '.' in s[p..e.value]
    ensures e.Some? <==> ThreeDigitsAt(s, p) && p + 4 < |s| && s[p + 3] == '.' && IsDigit(s[p + 4])
  {
    if ThreeDigitsAt(s, p) && p + 4 < |s| && s[p + 3] == '.' && IsDigit(s[p + 4]) then
      var e := RefEnd(s, p, false);
      assert s[p..e][3] == '.';
      Some(e)
    else None
  }

  /** After "see\s+": the optional "rule\s+", then the reference; returns where it starts. */
  function SeeTargetStart(s: string, q: nat): (r: Option<nat>)
    requires q <= |s|
    ensures r.Some? ==> q <= r.value <= |s| && ThreeDigitsAt(s, r.value)
  {
    if LiteralAt(s, q, "rule", true) && SpaceRunEnd(s, q + 4) > q + 4 && ThreeDigitsAt(s, SpaceRunEnd(s, q + 4)) then
      Some(SpaceRunEnd(s, q + 4))
    else if ThreeDigitsAt(s, q) then Some(q)
    else None
  }

  // ---------------------------------------------------------------------------
  // The seven patterns. Patterns 1-5 are compiled with IGNORECASE, 6 and 7 are not.

  datatype Pattern =
    | RuleRef        // rule\s+(REF)
    | RulesPair      // rules\s+(REF)(?:\s+and\s+|\s*,\s*)(REF)
    | SectionRef     // section\s+(\d+)
    | SeeRef         // see\s+(?:rule\s+)?(REF)
    | ParenSeeRef    // \(\s*see\s+(?:rule\s+)?(REF)\s*\)
    | SentenceStart  // (\d{3}\.\d+[a-z]?)\.?\s+[A-Z]
    | LetteredRange  // (\d{3}\.\d+[a-z]?)–[a-z]

  /** One match: the captured groups (two for `RulesPair`) and where it ends. */
  datatype Match = Match(caps: seq<string>, end: nat)

  predicate GoodMatch(s: string, p: nat, m: Match)
  {
    p < m.end <= |s| && forall c :: c in m.caps ==> RefLike(c)
  }

  function MatchRuleRef(s: string, p: nat): (m: Option<Match>)
    requires p <= |s|
    ensures m.Some? ==> GoodMatch(s, p, m.value) && |m.value.caps| == 1
  {
    if !LiteralAt(s, p, "rule", true) then None
    else
      var q := SpaceRunEnd(s, p + 4);
      if q == p + 4 || !ThreeDigitsAt(s, q) then None
      else
        var e := RefEnd(s, q, true);
        Some(Match([s[q..e]], e))
  }

  /** Where the second reference of "rules A and B" / "rules A, B" starts, given
      the end of the first: the alternative `\s+and\s+` is tried first and the
      engine falls back to `\s*,\s*` only when the first cannot complete. */
  function PairSecondStart(s: string, e1: nat): (r: Option<nat>)
    requires e1 <= |s|
    ensures r.Some? ==> e1 < r.value <= |s| && ThreeDigitsAt(s, r.value)
  {
    var a := SpaceRunEnd(s, e1);
    if a > e1 && LiteralAt(s, a, "and", true) && SpaceRunEnd(s, a + 3) > a + 3
       && ThreeDigitsAt(s, SpaceRunEnd(s, a + 3)) then
      Some(SpaceRunEnd(s, a + 3))
    else if a < |s| && s[a] == ',' && ThreeDigitsAt(s, SpaceRunEnd(s, a + 1)) then
      Some(SpaceRunEnd(s, a + 1))
    else None
  }

  function MatchRulesPair(s: string, p: nat): (m: Option<Match>)
    requires p <= |s|
    ensures m.Some? ==> GoodMatch(s, p, m.value) && |m.value.caps| == 2
  {
    if !LiteralAt(s, p, "rules", true) then None
    else
      var q := SpaceRunEnd(s, p + 5);
      if q == p + 5 || !ThreeDigitsAt(s, q) then None
      else
        var e1 := RefEnd(s, q, true);
        match PairSecondStart(s, e1)
        case None => None
        case Some(q2) =>
          var e2 := RefEnd(s, q2, true);
          Some(Match([s[q..e1], s[q2..e2]], e2))
  }

  function MatchSectionRef(s: string, p: nat): (m: Option<Match>)
    requires p <= |s|
    ensures m.Some? ==> GoodMatch(s, p, m.value) && |m.value.caps| == 1 && AllDigits(m.value.caps[0])
  {
    if !LiteralAt(s, p, "section", true) then None
    else
      var q := SpaceRunEnd(s, p + 7);
      if q == p + 7 || q == |s| || !IsDigit(s[q]) then None
      else
        var e := DigitRunEnd(s, q);
        Some(Match([s[q..e]], e))
  }

  function MatchSeeRef(s: string, p: nat): (m: Option<Match>)
    requires p <= |s|
    ensures m.Some? ==> GoodMatch(s, p, m.value) && |m.value.caps| == 1
  {
    if !LiteralAt(s, p, "see", true) then None
    else
      var q := SpaceRunEnd(s, p + 3);
      if q == p + 3 then None
      else match SeeTargetStart(s, q)
        case None => None
        case Some(r) =>
          var e := RefEnd(s, r, true);
          Some(Match([s[r..e]], e))
  }

  function MatchParenSeeRef(s: string, p: nat): (m: Option<Match>)
    requires p <= |s|
    ensures m.Some? ==> GoodMatch(s, p, m.value) && |m.value.caps| == 1
  {
    if p == |s| || s[p] != '(' then None
    else
      var a := SpaceRunEnd(s, p + 1);
      if !LiteralAt(s, a, "see", true) then None
      else
        var q := SpaceRunEnd(s, a + 3);
        if q == a + 3 then None
        else match SeeTargetStart(s, q)
          case None => None
          case Some(r) =>
            var e := RefEnd(s, r, true);
            var t := SpaceRunEnd(s, e);
            if t < |s| && s[t] == ')' then Some(Match([s[r..e]], t + 1)) else None
  }

  /** The sentence-start heuristic is case-sensitive: the reference must be
      followed by an optional dot, white space and a capital letter. */
  function MatchSentenceStart(s: string, p: nat): (m: Option<Match>)
    requires p <= |s|
    ensures m.Some? ==> GoodMatch(s, p, m.value) && |m.value.caps| == 1
    ensures m.Some? ==> IsRefForm(m.value.caps[0]) && m.value.caps[0] <= s[p..]
    ensures m.Some? ==> IsUpper(s[m.value.end - 1]) && IsSpace(s[m.value.end - 2])
  {
    match DottedRefEnd(s, p)
    case None => None
    case Some(e) =>
      var d := if e < |s| && s[e] == '.' then e + 1 else e;
      var w := SpaceRunEnd(s, d);
      if w > d && w < |s| && IsUpper(s[w]) then Some(Match([s[p..e]], w + 1)) else None
  }

  /** In a lettered range such as "701.3a–d" only the left end point is captured. */
  function MatchLetteredRange(s: string, p: nat): (m: Option<Match>)
    requires p <= |s|
    ensures m.Some? ==> GoodMatch(s, p, m.value) && |m.value.caps| == 1
    ensures m.Some? ==> p + 2 <= m.value.end
    ensures m.Some? ==> m.value.caps[0] == s[p..m.value.end - 2] && IsRefForm(m.value.caps[0])
    ensures m.Some? ==> s[m.value.end - 2] == EnDash && IsLower(s[m.value.end - 1])
  {
    match DottedRefEnd(s, p)
    case None => None
    case Some(e) =>
      if e + 1 < |s| && s[e] == EnDash && IsLower(s[e + 1]) then Some(Match([s[p..e]], e + 2)) else None
  }

  function MatchAt(pat: Pattern, s: string, p: nat): (m: Option<Match>)
    requires p <= |s|
    ensures m.Some? ==> GoodMatch(s, p, m.value)
  {
    match pat
    case RuleRef => MatchRuleRef(s, p)
    case RulesPair => MatchRulesPair(s, p)
    case SectionRef => MatchSectionRef(s, p)
    case SeeRef => MatchSeeRef(s, p)
    case ParenSeeRef => MatchParenSeeRef(s, p)
    case SentenceStart => MatchSentenceStart(s, p)
    case LetteredRange => MatchLetteredRange(s, p)
  }

  /** `re.findall` from position p: try each position in turn, and after a match
      resume where it ended. Pairs are flattened, as `related_rules.update(pair)` does. */
  function FindAll(pat: Pattern, s: string, p: nat): (r: seq<string>)
    requires p <= |s|
    ensures forall c :: c in r ==> RefLike(c)
    decreases |s| - p
  {
    if p == |s| then []
    else match MatchAt(pat, s, p)
      case Some(m) => m.caps + FindAll(pat, s, m.end)
      case None => FindAll(pat, s, p + 1)
  }

  /** The seven patterns, in the order the source applies them. */
  const Patterns: seq<Pattern> := [RuleRef, RulesPair, SectionRef, SeeRef, ParenSeeRef, SentenceStart, LetteredRange]

  /** What the patterns `pats` capture in `text`, one pattern after another. */
  function CapturesOf(pats: seq<Pattern>, text: string): (r: seq<string>)
    ensures forall c :: c in r ==> RefLike(c)
  {
    if pats == [] then [] else FindAll(pats[0], text, 0) + CapturesOf(pats[1..], text)
  }

  /** Everything the seven patterns capture in `text`. */
  function AllCaptures(text: string): (r: seq<string>)
    ensures forall c :: c in r ==> RefLike(c)
  {
    CapturesOf(Patterns, text)
  }

  /** `rule_ref.rstrip('.').rstrip(',')` */
  function Clean(c: string): string
  {
    RStripChar(RStripChar(c, '.'), ',')
  }

  lemma CleanKeepsCapture(c: string)
    requires RefLike(c)
    ensures Clean(c) == c
    ensures MatchesRefPattern(c) == IsRefForm(c)
  {
  }

  /** `extract_related_rules`: sorted, free of duplicates, every element in the
      canonical format, and exactly the canonical strings the patterns capture. */
  function ExtractRelatedRules(text: string): (r: seq<string>)
    ensures StrictlySorted(r)
    ensures forall x :: x in r ==> IsRefForm(x)
    ensures forall x :: x in r <==> x in AllCaptures(text) && IsRefForm(x)
  {
    var caps := AllCaptures(text);
    var cleaned := seq(|caps|, i requires 0 <= i < |caps| => Clean(caps[i]));
    assert forall i :: 0 <= i < |caps| ==> cleaned[i] == caps[i] by {
      forall i | 0 <= i < |caps| ensures cleaned[i] == caps[i] { CleanKeepsCapture(caps[i]); }
    }
    assert cleaned == caps;
    forall x | x in caps ensures MatchesRefPattern(x) == IsRefForm(x) { CleanKeepsCapture(x); }
    SortedUnique(Filter(MatchesRefPattern, cleaned))
  }

  // ---------------------------------------------------------------------------
  // Properties.

  /** No element of the result has two equal neighbours or repeats anywhere. */
  lemma ExtractedDistinct(text: string)
    ensures Distinct(ExtractRelatedRules(text))
  {
    var r := ExtractRelatedRules(text);
    forall i, j | 0 <= i < j < |r| ensures r[i] != r[j] { StrictlySortedDistinct(r, i, j); }
  }

  /** A digits-only capture such as the "1234" of "section 1234" is kept only
      when it has exactly three digits. */
  lemma DigitsOnlyCanonicalIffThree(x: string)
    requires AllDigits(x)
    ensures IsRefForm(x) <==> |x| == 3
  {
    if |x| > 3 { assert IsDigit(x[3]); }
  }

  /** "701.3a–d" yields only its left end point "701.3a". */
  lemma LetteredRangeLeftEndPoint()
    ensures MatchAt(LetteredRange, "701.3a\U{2013}d", 0) == Some(Match(["701.3a"], 8))
  {
    var s := "701.3a\U{2013}d";
    assert ThreeDigitsAt(s, 0) && s[3] == '.' && IsDigit(s[4]);
    assert DigitRunEnd(s, 5) == 5;
    assert RefEnd(s, 0, false) == 6;
    assert s[0..6] == "701.3a";
  }

  /** The sentence-start pattern is case-sensitive: after a dotted reference
      and one space, a lower-case letter gives no match and a capital one does. */
  lemma SentenceStartIsCaseSensitive(s: string, p: nat, e: nat)
    requires p <= |s| && DottedRefEnd(s, p) == Some(e)
    requires e + 2 < |s| && s[e] == ' ' && !IsSpace(s[e + 1])
    ensures IsLower(s[e + 1]) ==> MatchAt(SentenceStart, s, p).None?
    ensures IsUpper(s[e + 1]) ==> MatchAt(SentenceStart, s, p) == Some(Match([s[p..e]], e + 2))
  {
    assert SpaceRunEnd(s, e + 1) == e + 1;
    assert SpaceRunEnd(s, e) == e + 1;
  }
}
