/** The scans `process_rules_database` makes over the whole rules text: the
    effective date, the `DDD. title` section headers, the `DDD.D+. body` rule
    blocks, and the white-space clean-up of a rule's main text. */
module DocScan {
  import opened Text
  import RuleRefs

  // ---------------------------------------------------------------------------
  // `re.search(r"These rules are effective as of ([^\.]+)", text)`, group 1 stripped.

  const DatePrefix: string := "These rules are effective as of "

  /** The first `stop` at or after p, or the end: where a greedy run of
      characters other than `stop` (`[^\.]+`, or `.+` without DOTALL) ends. */
  function RunEnd(s: string, p: nat, stop: char): (e: nat)
    requires p <= |s|
    ensures p <= e <= |s|
    ensures forall k :: p <= k < e ==> s[k] != stop
    ensures e < |s| ==> s[e] == stop
    decreases |s| - p
  {
    if p < |s| && s[p] != stop then RunEnd(s, p + 1, stop) else p
  }

  /** The date that a match starting at p would give, if one starts there. */
  function DateAt(s: string, p: nat): (r: Option<string>)
    requires p <= |s|
    ensures r.Some? ==> '.' !in r.value
  {
    if DatePrefix <= s[p..] then
      var b := p + |DatePrefix|;
      var e := RunEnd(s, b, '.');
      if e > b then
        var d := Strip(s[b..e]);
        StripKeepsCharacters(s[b..e]);
        Some(d)
      else None
    else None
  }

  /** Where `re.search` finds its match: the leftmost start from p. */
  function FirstDateStart(s: string, p: nat): (k: Option<nat>)
    requires p <= |s|
    ensures k.Some? ==> p <= k.value <= |s| && DateAt(s, k.value).Some?
    ensures k.Some? ==> forall j :: p <= j < k.value ==> DateAt(s, j).None?
    ensures k.None? ==> forall j :: p <= j <= |s| ==> DateAt(s, j).None?
    decreases |s| - p
  {
    if DateAt(s, p).Some? then Some(p)
    else if p == |s| then None
    else FirstDateStart(s, p + 1)
  }

  /** The effective date: taken from the leftmost occurrence of the phrase that
      is followed by at least one character other than '.', up to the next '.'. */
  function EffectiveDate(text: string): (r: Option<string>)
    ensures r.Some? ==> '.' !in r.value
    ensures r.Some? ==> exists k :: 0 <= k <= |text| && DateAt(text, k) == r && forall j :: 0 <= j < k ==> DateAt(text, j).None?
    ensures r.None? <==> forall k :: 0 <= k <= |text| ==> DateAt(text, k).None?
  {
    match FirstDateStart(text, 0)
    case None => None
    case Some(k) => DateAt(text, k)
  }

  // ---------------------------------------------------------------------------
  // Lines, for the MULTILINE anchors.

  /** `^` under MULTILINE */
  predicate LineStart(s: string, p: nat)
  {
    p == 0 || (0 < p <= |s| && s[p - 1] == '\n')
  }

  /** The largest j with lo <= j < hi and s[j] != '\n', if any. */
  function LastNonNewline(s: string, lo: nat, hi: nat): (r: Option<nat>)
    requires lo <= hi <= |s|
    ensures r.Some? ==> lo <= r.value < hi && s[r.value] != '\n'
    ensures r.Some? ==> forall k :: r.value < k < hi ==> s[k] == '\n'
    ensures r.None? ==> forall k :: lo <= k < hi ==> s[k] == '\n'
    decreases hi - lo
  {
    if hi == lo then None
    else if s[hi - 1] != '\n' then Some(hi - 1)
    else LastNonNewline(s, lo, hi - 1)
  }

  // ---------------------------------------------------------------------------
  // Section headers: `^(\d{3})\.\s+(.+)$` with MULTILINE, title stripped.

  datatype SectionMatch = SectionMatch(id: string, title: string, end: nat)

  function MatchSection(s: string, p: nat): (m: Option<SectionMatch>)
    requires p <= |s|
    ensures m.Some? ==> LineStart(s, p) && RuleRefs.ThreeDigitsAt(s, p) && p + 4 < m.value.end <= |s|
    ensures m.Some? ==> m.value.id == s[p..p + 3] && s[p + 3] == '.' && IsSpace(s[p + 4])
    ensures m.Some? ==> m.value.end == |s| || s[m.value.end] == '\n'
  {
    if !(LineStart(s, p) && RuleRefs.ThreeDigitsAt(s, p) && p + 3 < |s| && s[p + 3] == '.') then None
    else
      var h := p + 4;
      var q := SpaceRunEnd(s, h);
      if q == h then None
      else if q < |s| then
        // `.+` runs to the end of the line and `$` holds there.
        var e := RunEnd(s, q, '\n');
        Some(SectionMatch(s[p..p + 3], Strip(s[q..e]), e))
      else
        // The white space runs to the end of the text: `\s+` gives characters
        // back until `.+` can take one that is not a newline.
        match LastNonNewline(s, h + 1, q)
        case None => None
        case Some(j) => Some(SectionMatch(s[p..p + 3], Strip(s[j..j + 1]), j + 1))
  }

  /** `section_pattern.finditer(text)` from position p. */
  function FindSections(s: string, p: nat): (r: seq<SectionMatch>)
    requires p <= |s|
    ensures forall i :: 0 <= i < |r| ==> |r[i].id| == 3 && AllDigits(r[i].id)
    decreases |s| - p
  {
    if p == |s| then []
    else match MatchSection(s, p)
      case Some(m) =>
        SectionIdDigits(s, p, m.id);
        var rest := FindSections(s, m.end);
        ConsIds(m, rest);
        [m] + rest
      case None => FindSections(s, p + 1)
  }

  lemma SectionIdDigits(s: string, p: nat, id: string)
    requires RuleRefs.ThreeDigitsAt(s, p) && id == s[p..p + 3]
    ensures |id| == 3 && AllDigits(id)
  {
    assert id[0] == s[p] && id[1] == s[p + 1] && id[2] == s[p + 2];
  }

  lemma ConsIds(m: SectionMatch, rest: seq<SectionMatch>)
    requires |m.id| == 3 && AllDigits(m.id)
    requires forall i :: 0 <= i < |rest| ==> |rest[i].id| == 3 && AllDigits(rest[i].id)
    ensures forall i :: 0 <= i < |[m] + rest| ==> |([m] + rest)[i].id| == 3 && AllDigits(([m] + rest)[i].id)
  {
    forall i | 0 < i < |[m] + rest| ensures ([m] + rest)[i] == rest[i - 1] { }
  }

  // ---------------------------------------------------------------------------
  // Rule blocks: `^(\d{3}\.\d+)\.\s+(.+?)(?=^\d{3}\.\d+\.|\Z)` with MULTILINE and DOTALL.

  /** A main rule id, `\d{3}\.\d+` as a whole: "702.70". */
  predicate RuleIdForm(x: string)
  {
    |x| >= 5 && AllDigits(x[..3]) && x[3] == '.' && AllDigits(x[4..])
  }

  /** `^\d{3}\.\d+\.` at e: where the lazy body of a rule block stops. */
  predicate RuleHeadAt(s: string, e: nat)
  {
    && LineStart(s, e) && RuleRefs.ThreeDigitsAt(s, e) && e + 4 < |s| && s[e + 3] == '.' && IsDigit(s[e + 4])
    && DigitRunEnd(s, e + 4) < |s| && s[DigitRunEnd(s, e + 4)] == '.'
  }

  function NextRuleStop(s: string, q: nat): (e: nat)
    requires 0 < q <= |s|
    ensures q <= e <= |s|
    ensures e == |s| || RuleHeadAt(s, e)
    ensures forall k :: q <= k < e ==> !RuleHeadAt(s, k)
    decreases |s| - q
  {
    if q == |s| || RuleHeadAt(s, q) then q else NextRuleStop(s, q + 1)
  }

  datatype RuleBlock = RuleBlock(id: string, body: string, end: nat)

  function MatchRuleBlock(s: string, p: nat): (m: Option<RuleBlock>)
    requires p <= |s|
    ensures m.Some? ==> RuleIdForm(m.value.id) && p < m.value.end <= |s|
    ensures m.Some? ==> RuleHeadAt(s, p) && m.value.id == s[p..DigitRunEnd(s, p + 4)]
    ensures m.Some? ==> m.value.end == |s| || RuleHeadAt(s, m.value.end)
  {
    if !RuleHeadAt(s, p) then None
    else
      var d := DigitRunEnd(s, p + 4);
      var id := s[p..d];
      assert RuleIdForm(id) by {
        assert id[..3] == s[p..p + 3];
        assert forall k :: 4 <= k < |id| ==> id[k] == s[p + k];
      }
      var h := d + 1;
      var q := SpaceRunEnd(s, h);
      if q == h then None
      else if q < |s| then
        var e := NextRuleStop(s, q + 1);
        Some(RuleBlock(id, s[q..e], e))
      else if q - h >= 2 then
        // The white space runs to the end: `\s+` gives one character back to `.+?`.
        Some(RuleBlock(id, s[q - 1..q], q))
      else None
  }

  /** `rule_pattern.finditer(text)` from position p. */
  function FindRuleBlocks(s: string, p: nat): (r: seq<RuleBlock>)
    requires p <= |s|
    ensures forall i :: 0 <= i < |r| ==> RuleIdForm(r[i].id)
    decreases |s| - p
  {
    if p == |s| then []
    else match MatchRuleBlock(s, p)
      case Some(m) => [m] + FindRuleBlocks(s, m.end)
      case None => FindRuleBlocks(s, p + 1)
  }

  // ---------------------------------------------------------------------------
  // Main-text clean-up: `re.sub(r'\n+', ' ', t)` and then `re.sub(r'\s+', ' ', t)`.

  /** No newline, and white space only as single blanks. */
  predicate NormalText(s: string)
  {
    && (forall i :: 0 <= i < |s| ==> IsSpace(s[i]) ==> s[i] == ' ')
    && (forall i :: 0 <= i < |s| - 1 ==> !(s[i] == ' ' && s[i + 1] == ' '))
  }

  function NewlineRunEnd(s: string, p: nat): (e: nat)
    requires p <= |s|
    ensures p <= e <= |s|
    ensures e < |s| ==> s[e] != '\n'
    decreases |s| - p
  {
    if p < |s| && s[p] == '\n' then NewlineRunEnd(s, p + 1) else p
  }

  /** `re.sub(r'\n+', ' ', s)` */
  function ReplaceNewlineRuns(s: string): (r: string)
    ensures '\n' !in r
    ensures |r| <= |s|
    ensures (forall i :: 0 <= i < |s| ==> s[i] != '\n') ==> r == s
    decreases |s|
  {
    if s == [] then []
    else if s[0] == '\n' then " " + ReplaceNewlineRuns(s[NewlineRunEnd(s, 0)..])
    else [s[0]] + ReplaceNewlineRuns(s[1..])
  }

  /** `re.sub(r'\s+', ' ', s)` */
  function CollapseSpaces(s: string): (r: string)
    ensures NormalText(r)
    ensures r != [] ==> s != [] && (IsSpace(r[0]) <==> IsSpace(s[0]))
    ensures '\n' !in s ==> '\n' !in r
    decreases |s|
  {
    if s == [] then []
    else if IsSpace(s[0]) then
      var rest := CollapseSpaces(s[SpaceRunEnd(s, 0)..]);
      assert rest != [] ==> !IsSpace(rest[0]);
      " " + rest
    else
      var rest := CollapseSpaces(s[1..]);
      [s[0]] + rest
  }

  /** The main text of a rule after both substitutions. */
  function CleanMainText(s: string): (r: string)
    ensures NormalText(r) && '\n' !in r
  {
    CollapseSpaces(ReplaceNewlineRuns(s))
  }

  /** The collapse changes nothing on text that is already normal, so cleaning twice
      is cleaning once. */
  lemma {:induction false} CollapseNormalIdentity(s: string)
    requires NormalText(s)
    ensures CollapseSpaces(s) == s
    decreases |s|
  {
    if s != [] {
      if IsSpace(s[0]) {
        assert SpaceRunEnd(s, 0) == 1 by {
          assert s[0] == ' ';
          if |s| > 1 { assert s[1] != ' '; assert !IsSpace(s[1]); }
        }
      }
      var t := s[1..];
      assert NormalText(t) by {
        assert forall i :: 0 <= i < |t| ==> t[i] == s[i + 1];
      }
      CollapseNormalIdentity(t);
    }
  }

  lemma CleanIdempotent(s: string)
    ensures CleanMainText(CleanMainText(s)) == CleanMainText(s)
  {
    var c := CleanMainText(s);
    assert ReplaceNewlineRuns(c) == c;
    CollapseNormalIdentity(c);
  }
}
