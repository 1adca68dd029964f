/** The glossary parser and the merge filter of `process_glossary`: the text is
    cut into entries at blank lines (`re.split(r'\n\s*\n', text)`), every entry
    gives a term and its definition or a "See X." redirect, and the merge keeps
    only the related rules that the rule table holds. */
module Glossary {
  import opened Text
  import opened OrderedMaps
  import opened RulesModel
  import RuleRefs

  // ---------------------------------------------------------------------------
  // `re.split(r'\n\s*\n', text)`

  /** s[p..e] is a string `\n\s*\n` matches: two newlines with only white space between. */
  predicate BlankRun(s: string, p: nat, e: nat)
  {
    p + 2 <= e <= |s| && s[p] == '\n' && s[e - 1] == '\n' && forall k :: p < k < e - 1 ==> IsSpace(s[k])
  }

  /** No blank line anywhere in s. */
  ghost predicate NoBlankLine(s: string)
  {
    forall p, e :: !BlankRun(s, p, e)
  }

  /** The last newline in s[lo..hi), if any. */
  function LastNewline(s: string, lo: nat, hi: nat): (r: Option<nat>)
    requires lo <= hi <= |s|
    ensures r.Some? ==> lo <= r.value < hi && s[r.value] == '\n'
    ensures r.Some? ==> forall k :: r.value < k < hi ==> s[k] != '\n'
    ensures r.None? ==> forall k :: lo <= k < hi ==> s[k] != '\n'
    decreases hi - lo
  {
    if hi == lo then None
    else if s[hi - 1] == '\n' then Some(hi - 1)
    else LastNewline(s, lo, hi - 1)
  }

  /** Where a match of `\n\s*\n` at p ends: the greedy `\s*` takes the whole
      run of white space after the first newline and gives back characters
      until the last newline in the run closes the match. */
  function BlankLineEnd(s: string, p: nat): (r: Option<nat>)
    requires p <= |s|
    ensures r.Some? ==> BlankRun(s, p, r.value)
    ensures r.Some? ==> forall e :: r.value < e <= |s| ==> !BlankRun(s, p, e)
    ensures r.None? ==> forall e :: !BlankRun(s, p, e)
  {
    if p < |s| && s[p] == '\n' then
      var q := SpaceRunEnd(s, p + 1);
      match LastNewline(s, p + 1, q)
      case None =>
        assert forall e :: !BlankRun(s, p, e) by {
          forall e: nat | BlankRun(s, p, e) ensures false {
            BlankRunWithinSpaces(s, p, e);
          }
        }
        None
      case Some(j) =>
        assert forall e :: j + 1 < e <= |s| ==> !BlankRun(s, p, e) by {
          forall e: nat | j + 1 < e <= |s| && BlankRun(s, p, e) ensures false {
            BlankRunWithinSpaces(s, p, e);
          }
        }
        Some(j + 1)
    else None
  }

  /** A blank-line match at p closes inside the white-space run after p. */
  lemma BlankRunWithinSpaces(s: string, p: nat, e: nat)
    requires BlankRun(s, p, e)
    ensures e <= SpaceRunEnd(s, p + 1)
  {
    assert forall k :: p < k < e ==> IsSpace(s[k]);
  }

  /** The pieces of `re.split` from p on, the current piece having started at a. */
  function SplitFrom(s: string, a: nat, p: nat): (r: seq<string>)
    requires a <= p <= |s|
    ensures |r| >= 1
    decreases |s| - p
  {
    if p == |s| then [s[a..]]
    else match BlankLineEnd(s, p)
      case Some(e) => [s[a..p]] + SplitFrom(s, e, e)
      case None => SplitFrom(s, a, p + 1)
  }

  /** The separators that `re.split` drops, matched in the same scan. */
  function SeparatorsFrom(s: string, a: nat, p: nat): (r: seq<string>)
    requires a <= p <= |s|
    ensures |r| == |SplitFrom(s, a, p)| - 1
    ensures forall i :: 0 <= i < |r| ==> BlankRun(r[i], 0, |r[i]|)
    decreases |s| - p
  {
    if p == |s| then []
    else match BlankLineEnd(s, p)
      case Some(e) =>
        assert BlankRun(s[p..e], 0, e - p) by {
          forall k | 0 < k < e - p - 1 ensures IsSpace(s[p..e][k]) { assert s[p..e][k] == s[p + k]; }
        }
        [s[p..e]] + SeparatorsFrom(s, e, e)
      case None => SeparatorsFrom(s, a, p + 1)
  }

  function SplitBlankLines(text: string): (r: seq<string>)
    ensures |r| >= 1
  {
    SplitFrom(text, 0, 0)
  }

  /** The pieces with the separators put back between them. */
  function Interleave(pieces: seq<string>, seps: seq<string>): string
    requires |pieces| == |seps| + 1
  {
    if seps == [] then pieces[0] else pieces[0] + seps[0] + Interleave(pieces[1..], seps[1..])
  }

  lemma {:induction false} SplitFromReassembles(s: string, a: nat, p: nat)
    requires a <= p <= |s|
    ensures Interleave(SplitFrom(s, a, p), SeparatorsFrom(s, a, p)) == s[a..]
    decreases |s| - p
  {
    if p < |s| {
      match BlankLineEnd(s, p)
      case Some(e) =>
        var ps, ss := SplitFrom(s, e, e), SeparatorsFrom(s, e, e);
        SplitFromReassembles(s, e, e);
        var ps', ss' := [s[a..p]] + ps, [s[p..e]] + ss;
        assert SplitFrom(s, a, p) == ps' && SeparatorsFrom(s, a, p) == ss';
        assert ps'[0] == s[a..p] && ps'[1..] == ps && ss'[0] == s[p..e] && ss'[1..] == ss;
        assert Interleave(ps', ss') == s[a..p] + s[p..e] + s[e..];
        assert s[a..] == s[a..p] + s[p..e] + s[e..];
      case None =>
        SplitFromReassembles(s, a, p + 1);
    }
  }

  /** Putting the blank-line separators back gives the text: the split loses nothing. */
  lemma SplitReassembles(text: string)
    ensures Interleave(SplitBlankLines(text), SeparatorsFrom(text, 0, 0)) == text
  {
    SplitFromReassembles(text, 0, 0);
  }

  lemma BlankRunInSlice(s: string, a: nat, b: nat, p: nat, e: nat)
    requires a <= b <= |s| && BlankRun(s[a..b], p, e)
    ensures BlankRun(s, a + p, a + e)
  {
    assert forall k :: a + p < k < a + e - 1 ==> s[k] == s[a..b][k - a];
  }

  lemma {:induction false} SplitFromNoBlankLine(s: string, a: nat, p: nat)
    requires a <= p <= |s|
    requires forall k, e :: a <= k < p ==> !BlankRun(s, k, e)
    ensures forall i :: 0 <= i < |SplitFrom(s, a, p)| ==> NoBlankLine(SplitFrom(s, a, p)[i])
    decreases |s| - p
  {
    var r := SplitFrom(s, a, p);
    if p == |s| {
      forall q, e | BlankRun(s[a..], q, e) ensures false { BlankRunInSlice(s, a, |s|, q, e); }
      assert NoBlankLine(r[0]);
    } else {
      match BlankLineEnd(s, p)
      case Some(e) =>
        forall q, e' | BlankRun(s[a..p], q, e') ensures false { BlankRunInSlice(s, a, p, q, e'); }
        SplitFromNoBlankLine(s, e, e);
      case None =>
        SplitFromNoBlankLine(s, a, p + 1);
    }
  }

  /** No entry that the split produces contains a blank line. */
  lemma EntriesHaveNoBlankLine(text: string)
    ensures forall i :: 0 <= i < |SplitBlankLines(text)| ==> NoBlankLine(SplitBlankLines(text)[i])
  {
    SplitFromNoBlankLine(text, 0, 0);
  }

  lemma {:induction false} NoBlankLineWholeFrom(s: string, p: nat)
    requires p <= |s| && NoBlankLine(s)
    ensures SplitFrom(s, 0, p) == [s]
    decreases |s| - p
  {
    if p < |s| { NoBlankLineWholeFrom(s, p + 1); }
  }

  /** A text without a blank line is one entry. */
  lemma NoBlankLineOneEntry(text: string)
    requires NoBlankLine(text)
    ensures SplitBlankLines(text) == [text]
  {
    NoBlankLineWholeFrom(text, 0);
  }

  // ---------------------------------------------------------------------------
  // One entry.

  /** `[line.strip() for line in lines if line.strip()]` */
  function StrippedLines(lines: seq<string>): (r: seq<string>)
    ensures forall i :: 0 <= i < |r| ==> r[i] != [] && !IsSpace(r[i][0]) && !IsSpace(r[i][|r[i]| - 1])
    ensures (forall i :: 0 <= i < |lines| ==> '\n' !in lines[i]) ==> forall i :: 0 <= i < |r| ==> '\n' !in r[i]
  {
    if lines == [] then []
    else
      var t := Strip(lines[0]);
      StripNoNewline(lines[0]);
      var b := forall i :: 0 <= i < |lines| ==> '\n' !in lines[i];
      TailLinesNoNewline(lines);
      var rest := StrippedLines(lines[1..]);
      StrippedCons(t, rest, b);
      (if t != [] then [t] else []) + rest
  }

  lemma StripNoNewline(s: string)
    ensures '\n' !in s ==> '\n' !in Strip(s)
  {
    StripKeepsCharacters(s);
  }

  lemma TailLinesNoNewline(lines: seq<string>)
    requires lines != []
    ensures (forall i :: 0 <= i < |lines| ==> '\n' !in lines[i]) ==>
      '\n' !in lines[0] && forall i :: 0 <= i < |lines[1..]| ==> '\n' !in lines[1..][i]
  {
    assert forall i :: 0 <= i < |lines| - 1 ==> lines[1..][i] == lines[i + 1];
  }

  lemma StrippedCons(t: string, rest: seq<string>, b: bool)
    requires t != [] ==> !IsSpace(t[0]) && !IsSpace(t[|t| - 1])
    requires forall i :: 0 <= i < |rest| ==> rest[i] != [] && !IsSpace(rest[i][0]) && !IsSpace(rest[i][|rest[i]| - 1])
    requires b ==> '\n' !in t && forall i :: 0 <= i < |rest| ==> '\n' !in rest[i]
    ensures var r := (if t != [] then [t] else []) + rest;
      && (forall i :: 0 <= i < |r| ==> r[i] != [] && !IsSpace(r[i][0]) && !IsSpace(r[i][|r[i]| - 1]))
      && (b ==> forall i :: 0 <= i < |r| ==> '\n' !in r[i])
  {
    var r := (if t != [] then [t] else []) + rest;
    if t != [] {
      forall i | 0 < i < |r| ensures r[i] == rest[i - 1] { }
    } else {
      assert r == rest;
    }
  }

  /** `s.split(sep)[1]` for a separator that occurs in s: the text between its
      first occurrence and the next one, or the end. */
  function SecondPart(s: string, sep: string): string
    requires Contains(sep, s)
  {
    var i := Find(sep, s).value;
    var rest := s[i + |sep|..];
    match Find(sep, rest)
    case None => rest
    case Some(j) => rest[..j]
  }

  /** What an entry says, before its record is built: a term with a
      definition, or a term redirecting to another. */
  datatype EntryParts =
    | DefinitionParts(term: string, definition: string)
    | RedirectParts(term: string, target: string)

  /** The lines of a stripped, non-empty entry; the first names the term. */
  function PartsOfLines(lines: seq<string>): (r: Option<EntryParts>)
    requires |lines| >= 1 && forall i :: 0 <= i < |lines| ==> '\n' !in lines[i]
    ensures r.Some? ==> r.value.term != []
  {
    var term := Strip(lines[0]);
    if "See " <= term && |lines| == 1 then None
    else
      var definition := JoinSpaces(StrippedLines(lines[1..]));
      if term != [] && definition != [] then Some(DefinitionParts(term, definition))
      else if term != [] && definition == [] && Contains("See ", term) then
        // `term` is stripped and has no newline, so `main_term` is `term`.
        var head := BeforeFirst(term, '\n');
        assert head == term by { StripKeepsCharacters(lines[0]); }
        var mainTerm := Strip(head);
        assert mainTerm == term by { StripIdempotent(lines[0]); }
        Some(RedirectParts(mainTerm, RStripChar(Strip(SecondPart(term, "See ")), '.')))
      else None
  }

  function PartsOf(entry: string): (r: Option<EntryParts>)
    ensures Strip(entry) == [] ==> r.None?
    ensures r.Some? ==> r.value.term != []
  {
    var body := Strip(entry);
    if body == [] then None else PartsOfLines(SplitOn(body, '\n'))
  }

  /** The key and the record of an entry: a definition carries the rule
      references extracted from it; a redirect reads "See X." and has none. */
  function Record(p: EntryParts): (r: (string, GlossaryEntry))
    ensures r.0 == Lower(r.1.term) && r.1.term == p.term
    ensures r.1.referenceTo.Some? <==> p.RedirectParts?
  {
    match p
    case DefinitionParts(term, definition) =>
      (Lower(term), GlossaryEntry(term, definition, None, RuleRefs.ExtractRelatedRules(definition)))
    case RedirectParts(term, target) =>
      (Lower(term), GlossaryEntry(term, "See " + target + ".", Some(Lower(target)), []))
  }

  /** What one entry adds to the glossary: its key and record, or nothing. */
  function EntryOf(entry: string): (r: Option<(string, GlossaryEntry)>)
    ensures Strip(entry) == [] ==> r.None?
    ensures r.Some? ==> r.value.0 == Lower(r.value.1.term) && r.value.1.term != []
  {
    match PartsOf(entry)
    case None => None
    case Some(p) => Some(Record(p))
  }

  lemma {:induction false} JoinSpacesNoNewline(parts: seq<string>)
    requires forall i :: 0 <= i < |parts| ==> '\n' !in parts[i]
    ensures '\n' !in JoinSpaces(parts)
  {
    if |parts| > 1 { JoinSpacesNoNewline(parts[1..]); }
  }

  lemma {:induction false} SplitOnLast(s: string, c: char)
    requires s != [] && s[|s| - 1] != c
    ensures var r := SplitOn(s, c); r[|r| - 1] != [] && r[|r| - 1][|r[|r| - 1]| - 1] == s[|s| - 1]
    decreases |s|
  {
    var head := BeforeFirst(s, c);
    if |head| == |s| {
      assert head == s;
    } else {
      var rest := s[|head| + 1..];
      assert |head| + 1 < |s|;
      assert rest[|rest| - 1] == s[|s| - 1];
      SplitOnLast(rest, c);
      SplitOnCons(s, c);
      LastOfCons(head, SplitOn(rest, c));
    }
  }

  /** The unfolding of `SplitOn` at its first separator. */
  lemma SplitOnCons(s: string, c: char)
    requires |BeforeFirst(s, c)| < |s|
    ensures SplitOn(s, c) == [BeforeFirst(s, c)] + SplitOn(s[|BeforeFirst(s, c)| + 1..], c)
  {
  }

  lemma LastOfCons<T>(x: T, t: seq<T>)
    requires t != []
    ensures ([x] + t)[|t|] == t[|t| - 1]
  {
  }

  lemma {:induction false} StrippedLinesOfLast(lines: seq<string>)
    requires lines != [] && Strip(lines[|lines| - 1]) != []
    ensures StrippedLines(lines) != []
  {
    if |lines| > 1 {
      assert lines[1..][|lines| - 2] == lines[|lines| - 1];
      StrippedLinesOfLast(lines[1..]);
    }
  }

  /** An entry that strips to nothing adds nothing. */
  lemma BlankEntrySkipped(entry: string)
    requires forall k :: 0 <= k < |entry| ==> IsSpace(entry[k])
    ensures EntryOf(entry).None?
  {
  }

  /** An entry of one line starting "See " is skipped. */
  lemma SeeLineSkipped(entry: string)
    requires '\n' !in Strip(entry) && "See " <= Strip(entry)
    ensures PartsOf(entry).None?
  {
    StripIdempotent(entry);
  }

  /** An entry of several lines is a definition: the term is the stripped first
      line, the definition the stripped non-blank lines after it joined by single
      spaces, never empty and on one line. */
  lemma MultiLineEntry(entry: string)
    requires '\n' in Strip(entry)
    ensures var lines := SplitOn(Strip(entry), '\n');
      var d := JoinSpaces(StrippedLines(lines[1..]));
      && PartsOf(entry) == Some(DefinitionParts(Strip(lines[0]), d))
      && d != [] && '\n' !in d && '\n' !in Strip(lines[0])
  {
    var body := Strip(entry);
    var lines := SplitOn(body, '\n');
    FirstLineNonBlank(body);
    LastLineNonBlank(body);
    DefinitionLines(lines);
    assert PartsOf(entry) == PartsOfLines(lines);
  }

  /** A text with a line break that does not start with white space splits into
      several lines, the first of which is not blank. */
  lemma FirstLineNonBlank(body: string)
    requires '\n' in body && !IsSpace(body[0])
    ensures var lines := SplitOn(body, '\n'); |lines| > 1 && Strip(lines[0]) != []
  {
    var lines := SplitOn(body, '\n');
    assert lines[0] == BeforeFirst(body, '\n');
    assert lines[0] != [] && lines[0][0] == body[0];
    assert |lines| > 1;
    StripNonBlank(lines[0], 0);
  }

  /** The last line of a text that does not end with white space is not blank. */
  lemma LastLineNonBlank(body: string)
    requires body != [] && !IsSpace(body[|body| - 1])
    ensures var lines := SplitOn(body, '\n'); Strip(lines[|lines| - 1]) != []
  {
    var lines := SplitOn(body, '\n');
    SplitOnLast(body, '\n');
    EndsLike(lines[|lines| - 1], body);
  }

  /** A string ending in the last character of a text that does not end with
      white space does not strip to nothing. */
  lemma EndsLike(x: string, y: string)
    requires x != [] && y != [] && x[|x| - 1] == y[|y| - 1] && !IsSpace(y[|y| - 1])
    ensures Strip(x) != []
  {
    StripNonBlank(x, |x| - 1);
  }

  lemma DefinitionLines(lines: seq<string>)
    requires |lines| > 1 && forall i :: 0 <= i < |lines| ==> '\n' !in lines[i]
    requires Strip(lines[0]) != [] && Strip(lines[|lines| - 1]) != []
    ensures var d := JoinSpaces(StrippedLines(lines[1..]));
      && PartsOfLines(lines) == Some(DefinitionParts(Strip(lines[0]), d))
      && d != [] && '\n' !in d && '\n' !in Strip(lines[0])
  {
    var rest := lines[1..];
    assert rest[|rest| - 1] == lines[|lines| - 1];
    StrippedLinesOfLast(rest);
    assert forall i :: 0 <= i < |rest| ==> '\n' !in rest[i];
    var parts := StrippedLines(rest);
    JoinSpacesNoNewline(parts);
    assert JoinSpaces(parts) != [] by { assert parts[0] != []; }
    StripKeepsCharacters(lines[0]);
  }

  /** The record of a definition holds the rule references its definition contains. */
  lemma DefinitionRecord(entry: string)
    requires '\n' in Strip(entry)
    ensures EntryOf(entry).Some?
    ensures var v := EntryOf(entry).value.1;
      v.referenceTo.None? && v.relatedRules == RuleRefs.ExtractRelatedRules(v.definition)
  {
    MultiLineEntry(entry);
  }

  /** A one-line entry (the only kind that can reach the redirect branch, since a
      later line always gives a definition) containing "See " past its start is a
      redirect whose term is the whole line; the target has no trailing period. */
  lemma OneLineRedirect(entry: string)
    requires '\n' !in Strip(entry) && Strip(entry) != []
    requires !("See " <= Strip(entry)) && Contains("See ", Strip(entry))
    ensures var body := Strip(entry);
      var x := RStripChar(Strip(SecondPart(body, "See ")), '.');
      && PartsOf(entry) == Some(RedirectParts(body, x))
      && (x == [] || x[|x| - 1] != '.')
  {
    var body := Strip(entry);
    StripIdempotent(entry);
    assert SplitOn(body, '\n') == [body];
    RedirectLine(body);
  }

  lemma RedirectLine(term: string)
    requires '\n' !in term && Strip(term) == term && term != []
    requires !("See " <= term) && Contains("See ", term)
    ensures PartsOfLines([term]) == Some(RedirectParts(term, RStripChar(Strip(SecondPart(term, "See ")), '.')))
  {
    var lines := [term];
    assert lines[0] == term && |lines| == 1;
    assert lines[1..] == [];
    assert StrippedLines(lines[1..]) == [];
    assert JoinSpaces(StrippedLines(lines[1..])) == [];
    assert BeforeFirst(term, '\n') == term;
  }

  /** A redirect entry is keyed by its lower-cased term and reads "See X."
      with a single final period, pointing at X lower-cased, with no related rules. */
  lemma RedirectRecord(term: string, x: string)
    requires x == [] || x[|x| - 1] != '.'
    ensures var r := Record(RedirectParts(term, x));
      && r.0 == Lower(term) && r.1.definition == "See " + x + "."
      && r.1.referenceTo == Some(Lower(x)) && r.1.relatedRules == []
      && (x == [] || r.1.definition[|r.1.definition| - 2] != '.')
  {
  }

  /** A one-line entry without "See " adds nothing: it has no definition. */
  lemma OneLineWithoutSee(entry: string)
    requires '\n' !in Strip(entry) && !Contains("See ", Strip(entry))
    ensures PartsOf(entry).None?
  {
    StripIdempotent(entry);
  }

  // ---------------------------------------------------------------------------
  // The glossary dictionary.

  /** What each entry gives, in order. */
  function Parsed(es: seq<string>): (r: seq<Option<(string, GlossaryEntry)>>)
    ensures |r| == |es| && forall i :: 0 <= i < |es| ==> r[i] == EntryOf(es[i])
  {
    seq(|es|, i requires 0 <= i < |es| => EntryOf(es[i]))
  }

  /** The dictionary after assigning the given records in order: `glossary_db[key] = ...`. */
  function Fill(ps: seq<Option<(string, GlossaryEntry)>>): (g: OMap<GlossaryEntry>)
    ensures g.Valid()
  {
    if ps == [] then Empty()
    else
      var g := Fill(ps[..|ps| - 1]);
      var r := ps[|ps| - 1];
      if r.Some? then g.Put(r.value.0, r.value.1) else g
  }

  /** The keys assigned, in order, repeats included. */
  function KeysOf(ps: seq<Option<(string, GlossaryEntry)>>): seq<string>
  {
    if ps == [] then []
    else
      var r := ps[|ps| - 1];
      KeysOf(ps[..|ps| - 1]) + (if r.Some? then [r.value.0] else [])
  }

  /** Record i is assigned and no later one has the same key. */
  predicate LastItem(ps: seq<Option<(string, GlossaryEntry)>>, i: nat)
  {
    && i < |ps| && ps[i].Some?
    && forall j :: i < j < |ps| ==> ps[j].None? || ps[j].value.0 != ps[i].value.0
  }

  /** The dictionary holds the keys in order of first assignment, each with the
      record of its last assignment. */
  lemma {:induction false} FillIs(ps: seq<Option<(string, GlossaryEntry)>>)
    ensures Fill(ps).keys == Dedup(KeysOf(ps))
    ensures forall k :: k in Fill(ps).vals <==> k in KeysOf(ps)
    ensures forall i :: 0 <= i < |ps| && LastItem(ps, i) ==>
      ps[i].value.0 in Fill(ps).vals && Fill(ps).vals[ps[i].value.0] == ps[i].value.1
  {
    if ps != [] {
      var n := |ps| - 1;
      var pre := ps[..n];
      FillIs(pre);
      var r := ps[n];
      var ks := KeysOf(pre);
      if r.Some? {
        assert KeysOf(ps) == ks + [r.value.0];
        assert (ks + [r.value.0])[..|ks|] == ks;
        assert Fill(ps) == Fill(pre).Put(r.value.0, r.value.1);
      } else {
        assert KeysOf(ps) == ks + [];
        assert ks + [] == ks;
        assert Fill(ps) == Fill(pre);
      }
      forall i | 0 <= i < |ps| && LastItem(ps, i)
        ensures ps[i].value.0 in Fill(ps).vals && Fill(ps).vals[ps[i].value.0] == ps[i].value.1
      {
        if i < n {
          assert LastItem(pre, i) by {
            forall j | i < j < n ensures pre[j] == ps[j] { }
          }
        }
      }
    }
  }

  lemma {:induction false} FillKeysAreTerms(ps: seq<Option<(string, GlossaryEntry)>>)
    requires forall i :: 0 <= i < |ps| && ps[i].Some? ==> ps[i].value.0 == Lower(ps[i].value.1.term)
    ensures forall k :: k in Fill(ps).vals ==> k == Lower(Fill(ps).vals[k].term)
  {
    if ps != [] {
      FillKeysAreTerms(ps[..|ps| - 1]);
    }
  }

  /** The glossary of a text. */
  function GlossaryOf(text: string): OMap<GlossaryEntry>
  {
    Fill(Parsed(SplitBlankLines(text)))
  }

  /** Every key of the glossary of the entries `es` is the lower-cased term of
      its record; the keys come in the order the entries first give them, each
      with the record of the last entry that gives it. */
  lemma GlossaryShape(es: seq<string>)
    ensures var g := Fill(Parsed(es)); var ps := Parsed(es);
      && (forall k :: k in g.vals ==> k == Lower(g.vals[k].term))
      && g.keys == Dedup(KeysOf(ps))
      && (forall i :: 0 <= i < |ps| && LastItem(ps, i) ==> ps[i].value.0 in g.vals && g.vals[ps[i].value.0] == ps[i].value.1)
  {
    var ps := Parsed(es);
    FillIs(ps);
    FillKeysAreTerms(ps);
  }

  /** The parse loop of `process_glossary`. */
  method ParseGlossary(text: string) returns (glossary: OMap<GlossaryEntry>)
    ensures glossary == GlossaryOf(text)
  {
    var entries := SplitBlankLines(text);
    ghost var ps := Parsed(entries);
    glossary := Empty();
    for i := 0 to |entries|
      invariant |ps| == |entries|
      invariant glossary == Fill(ps[..i])
    {
      var r := EntryOf(entries[i]);
      FillStep(ps, i);
      if r.Some? {
        glossary := glossary.Put(r.value.0, r.value.1);
      }
    }
    assert ps[..|ps|] == ps;
  }

  lemma FillStep(ps: seq<Option<(string, GlossaryEntry)>>, i: nat)
    requires i < |ps|
    ensures Fill(ps[..i + 1]) == if ps[i].Some? then Fill(ps[..i]).Put(ps[i].value.0, ps[i].value.1) else Fill(ps[..i])
  {
    assert ps[..i + 1][..i] == ps[..i];
  }

  // ---------------------------------------------------------------------------
  // The merge with a rules database.

  /** `[rule_id for rule_id in related if rule_id in rules]` */
  function Known(ruleIds: set<string>, related: seq<string>): seq<string>
  {
    Filter(x => x in ruleIds, related)
  }

  /** The same list comprehension, as a loop. */
  method KnownRules(ruleIds: set<string>, related: seq<string>) returns (verified: seq<string>)
    ensures verified == Known(ruleIds, related)
  {
    verified := [];
    for j := 0 to |related|
      invariant verified == Known(ruleIds, related[..j])
    {
      FilterSnoc(x => x in ruleIds, related[..j], related[j]);
      assert related[..j + 1] == related[..j] + [related[j]];
      if related[j] in ruleIds {
        verified := verified + [related[j]];
      }
    }
    assert related[..|related|] == related;
  }

  /** An entry once its related rules are checked against the rule ids. */
  function Merged(ruleIds: set<string>, v: GlossaryEntry): GlossaryEntry
  {
    v.(relatedRules := Known(ruleIds, v.relatedRules))
  }

  /** The loop over the glossary's keys: each entry is replaced by its merged form. */
  method MergeEntries(ruleIds: set<string>, glossary: OMap<GlossaryEntry>) returns (g: OMap<GlossaryEntry>)
    requires glossary.Valid()
    ensures g.Valid() && g.keys == glossary.keys && g.vals.Keys == glossary.vals.Keys
    ensures forall k :: k in glossary.vals ==> g.vals[k] == Merged(ruleIds, glossary.vals[k])
  {
    ghost var target := MergeTarget(ruleIds, glossary);
    g := glossary;
    for i := 0 to |glossary.keys|
      invariant UpdatedUpTo(glossary, target, i, g)
    {
      var k := glossary.keys[i];
      UpdateStep(glossary, target, i, g);
      var v := g.vals[k];
      var verified := KnownRules(ruleIds, v.relatedRules);
      MergedIsTarget(ruleIds, glossary, target, k, v, verified);
      g := g.Set(k, v.(relatedRules := verified));
    }
    UpdatedAll(glossary, target, g);
  }

  /** Every entry merged. */
  ghost function MergeTarget(ruleIds: set<string>, glossary: OMap<GlossaryEntry>): map<string, GlossaryEntry>
  {
    map k | k in glossary.vals :: Merged(ruleIds, glossary.vals[k])
  }

  lemma MergedIsTarget(ruleIds: set<string>, glossary: OMap<GlossaryEntry>, target: map<string, GlossaryEntry>,
                       k: string, v: GlossaryEntry, verified: seq<string>)
    requires target == MergeTarget(ruleIds, glossary)
    requires k in glossary.vals && v == glossary.vals[k] && verified == Known(ruleIds, v.relatedRules)
    ensures k in target && v.(relatedRules := verified) == target[k]
  {
  }

  /** The merge filter: every entry keeps its place and its fields, and its
      related rules become those the rule table holds, in their order. */
  method MergeGlossary(rulesDb: RulesDb, glossary: OMap<GlossaryEntry>) returns (r: RulesDb)
    requires glossary.Valid()
    ensures r == rulesDb.(glossary := r.glossary)
    ensures r.glossary.Some? && r.glossary.value.Valid()
    ensures r.glossary.value.keys == glossary.keys && r.glossary.value.vals.Keys == glossary.vals.Keys
    ensures forall k :: k in glossary.vals ==>
      r.glossary.value.vals[k] == Merged(rulesDb.rules.vals.Keys, glossary.vals[k])
  {
    var g := MergeEntries(rulesDb.rules.vals.Keys, glossary);
    r := rulesDb.(glossary := Some(g));
  }

  /** After the merge an entry's related rules are rule ids of the table, taken
      from its references before, and all of those that the table holds remain. */
  lemma MergedRelatedRules(ruleIds: set<string>, v: GlossaryEntry)
    ensures forall x :: x in Merged(ruleIds, v).relatedRules <==> x in v.relatedRules && x in ruleIds
    ensures Merged(ruleIds, v).term == v.term && Merged(ruleIds, v).definition == v.definition
    ensures Merged(ruleIds, v).referenceTo == v.referenceTo
  {
  }

  lemma {:induction false} FilterIdempotent<T(!new)>(f: T -> bool, s: seq<T>)
    ensures Filter(f, Filter(f, s)) == Filter(f, s)
  {
    if s != [] {
      var t := Filter(f, s[1..]);
      FilterIdempotent(f, s[1..]);
      if f(s[0]) {
        var u := [s[0]] + t;
        assert Filter(f, s) == u;
        assert u[0] == s[0] && u[1..] == t;
        assert Filter(f, u) == [s[0]] + Filter(f, t);
      } else {
        assert Filter(f, s) == t;
      }
    }
  }

  /** Merging against the same rule table a second time changes nothing. */
  lemma MergeIdempotent(ruleIds: set<string>, v: GlossaryEntry)
    ensures Merged(ruleIds, Merged(ruleIds, v)) == Merged(ruleIds, v)
  {
    FilterIdempotent(x => x in ruleIds, v.relatedRules);
    assert Known(ruleIds, Known(ruleIds, v.relatedRules)) == Known(ruleIds, v.relatedRules);
  }

  /** `process_glossary` returns the glossary alone, or the rules database with
      the merged glossary when one is given. */
  datatype GlossaryOutput = GlossaryOnly(glossary: OMap<GlossaryEntry>) | Combined(db: RulesDb)

  method ProcessGlossary(text: string, rulesDb: Option<RulesDb>) returns (out: GlossaryOutput)
    ensures rulesDb.None? ==> out == GlossaryOnly(GlossaryOf(text))
    ensures rulesDb.Some? ==> out.Combined? && out.db == rulesDb.value.(glossary := out.db.glossary)
    ensures rulesDb.Some? ==> var g := GlossaryOf(text);
      && out.db.glossary.Some? && out.db.glossary.value.keys == g.keys && out.db.glossary.value.vals.Keys == g.vals.Keys
      && forall k :: k in g.vals ==> out.db.glossary.value.vals[k] == Merged(rulesDb.value.rules.vals.Keys, g.vals[k])
  {
    var glossary := ParseGlossary(text);
    if rulesDb.None? {
      return GlossaryOnly(glossary);
    }
    var db := MergeGlossary(rulesDb.value, glossary);
    out := Combined(db);
  }
}
