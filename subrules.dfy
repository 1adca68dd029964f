/** Subrule splitting (`extract_subrules`): a rule block such as
    "Poisonous 702.70a Poisonous is ... 702.70b Multiple ..." holds the lead-in
    text of rule 702.70 followed by lettered subrules, found with
    `re.finditer(base + r'([a-z])\s+(.+?)(?=' + base + r'[a-z]|\Z)', text, re.DOTALL)`
    where `base` is the escaped rule id without a trailing dot. */
module Subrules {
  import opened Text
  import opened OrderedMaps
  import opened RulesModel
  import RuleRefs

  /** `{base}[a-z]` at k: where a header starts, and where a lazy body stops. */
  predicate HeaderAt(base: string, s: string, k: nat)
  {
    k + |base| < |s| && s[k..k + |base|] == base && IsLower(s[k + |base|])
  }

  /** The lazy `.+?` stops at the first position from q where the lookahead
      `(?={base}[a-z]|\Z)` holds. */
  function NextStop(base: string, s: string, q: nat): (r: nat)
    requires q <= |s|
    ensures q <= r <= |s|
    ensures r == |s| || HeaderAt(base, s, r)
    ensures forall k :: q <= k < r ==> !HeaderAt(base, s, k)
    decreases |s| - q
  {
    if q == |s| || HeaderAt(base, s, q) then q else NextStop(base, s, q + 1)
  }

  /** One `finditer` match: where it starts, the letter (group 1), the body
      (group 2, not yet stripped) and where it ends. */
  datatype Header = Header(start: nat, letter: char, body: string, end: nat)

  function MatchHeader(base: string, s: string, p: nat): (m: Option<Header>)
    requires p <= |s|
    ensures m.Some? ==> HeaderAt(base, s, p) && m.value.start == p && m.value.letter == s[p + |base|]
    ensures m.Some? ==> p + |base| + 1 < m.value.end <= |s|
    ensures m.Some? ==> m.value.body != [] && p + |base| + 1 + |m.value.body| <= m.value.end
    ensures m.Some? ==> m.value.body == s[m.value.end - |m.value.body|..m.value.end]
    ensures !HeaderAt(base, s, p) ==> m.None?
  {
    if !HeaderAt(base, s, p) then None
    else
      var h := p + |base| + 1;
      var q := SpaceRunEnd(s, h);
      if q == h then None
      else if q < |s| then
        var e := NextStop(base, s, q + 1);
        Some(Header(p, s[p + |base|], s[q..e], e))
      else if q - h >= 2 then
        // The white space runs to the end of the text: `\s+` gives one
        // character back so that `.+?` can match it.
        Some(Header(p, s[p + |base|], s[q - 1..q], q))
      else None
  }

  /** `re.finditer` from position p. */
  function FindHeaders(base: string, s: string, p: nat): (r: seq<Header>)
    requires p <= |s|
    ensures forall i :: 0 <= i < |r| ==> p <= r[i].start < |s| && MatchHeader(base, s, r[i].start) == Some(r[i])
    ensures forall i :: 0 <= i < |r| - 1 ==> r[i].end <= r[i + 1].start
    ensures forall i :: 0 <= i < |r| ==> IsLower(r[i].letter)
    ensures r != [] ==> forall k :: p <= k < r[0].start ==> MatchHeader(base, s, k).None?
    ensures r == [] ==> forall k :: p <= k <= |s| ==> MatchHeader(base, s, k).None?
    decreases |s| - p
  {
    if p == |s| then []
    else match MatchHeader(base, s, p)
      case Some(m) => [m] + FindHeaders(base, s, m.end)
      case None => FindHeaders(base, s, p + 1)
  }

  /** `rule_id.rstrip('.')` */
  function Base(ruleId: string): string
  {
    RStripChar(ruleId, '.')
  }

  /** The record built for one subrule; its section title is filled in by the compiler. */
  function SubruleRecord(ruleId: string, h: Header): Rule
  {
    var text := Strip(h.body);
    Rule(Base(ruleId) + [h.letter], text, SectionPart(ruleId), "",
         RuleRefs.ExtractRelatedRules(text), true, Some(Base(ruleId)), [])
  }

  /** What every subrule record promises: its id is the base followed by one
      lower-case letter, it is flagged as a subrule of the base, it lies in the
      section of `rule_id` up to its first dot, it has no subrules of its own,
      and its references are extracted from its stripped text. */
  predicate IsSubruleOf(ruleId: string, k: string, v: Rule)
  {
    var base := Base(ruleId);
    && v.id == k
    && |k| == |base| + 1 && k[..|base|] == base && IsLower(k[|base|])
    && v.isSubrule && v.parentRuleId == Some(base)
    && v.sectionId == SectionPart(ruleId) && v.sectionTitle == ""
    && v.subrules == []
    && v.text == Strip(v.text)
    && v.relatedRules == RuleRefs.ExtractRelatedRules(v.text)
  }

  /** The ids `base + letter` of the matches, in match order. */
  function SubIds(ruleId: string, hs: seq<Header>): (r: seq<string>)
    ensures |r| == |hs|
    ensures forall i :: 0 <= i < |hs| ==> r[i] == Base(ruleId) + [hs[i].letter]
  {
    seq(|hs|, i requires 0 <= i < |hs| => Base(ruleId) + [hs[i].letter])
  }

  lemma SubIdsSnoc(ruleId: string, hs: seq<Header>)
    requires hs != []
    ensures forall k :: k in SubIds(ruleId, hs) <==>
      k in SubIds(ruleId, hs[..|hs| - 1]) || k == Base(ruleId) + [hs[|hs| - 1].letter]
  {
    var a := SubIds(ruleId, hs);
    var b := SubIds(ruleId, hs[..|hs| - 1]);
    assert forall i :: 0 <= i < |b| ==> a[i] == b[i];
    assert a == b + [a[|hs| - 1]];
  }

  lemma SubruleRecordShape(ruleId: string, h: Header)
    requires IsLower(h.letter)
    ensures IsSubruleOf(ruleId, Base(ruleId) + [h.letter], SubruleRecord(ruleId, h))
  {
    StripIdempotent(h.body);
    assert (Base(ruleId) + [h.letter])[..|Base(ruleId)|] == Base(ruleId);
  }

  /** No later match than j has the letter of match j. */
  predicate LastOfLetter(hs: seq<Header>, j: nat)
  {
    j < |hs| && forall l :: j < l < |hs| ==> hs[l].letter != hs[j].letter
  }

  /** The subrule dictionary, filled in match order as the `for` loop does: the
      keys in order of first appearance, and under each key the record of the
      last match with that letter. */
  function Collect(ruleId: string, hs: seq<Header>): (m: OMap<Rule>)
    requires forall i :: 0 <= i < |hs| ==> IsLower(hs[i].letter)
    ensures m.Valid()
    ensures forall k :: k in m.vals ==> IsSubruleOf(ruleId, k, m.vals[k])
    ensures forall k :: k in m.vals <==> k in SubIds(ruleId, hs)
    ensures m.keys == Dedup(SubIds(ruleId, hs))
    ensures forall j :: 0 <= j < |hs| && LastOfLetter(hs, j) ==>
      Base(ruleId) + [hs[j].letter] in m.vals && m.vals[Base(ruleId) + [hs[j].letter]] == SubruleRecord(ruleId, hs[j])
  {
    if hs == [] then Empty()
    else
      var h := hs[|hs| - 1];
      var v := SubruleRecord(ruleId, h);
      var prev := Collect(ruleId, hs[..|hs| - 1]);
      CollectStep(ruleId, hs, prev, v);
      CollectKeysStep(ruleId, hs, prev, v);
      CollectLastStep(ruleId, hs, prev, v);
      prev.Put(v.id, v)
  }

  lemma CollectStep(ruleId: string, hs: seq<Header>, prev: OMap<Rule>, v: Rule)
    requires hs != [] && IsLower(hs[|hs| - 1].letter) && v == SubruleRecord(ruleId, hs[|hs| - 1])
    requires prev.Valid() && forall k :: k in prev.vals ==> IsSubruleOf(ruleId, k, prev.vals[k])
    requires forall k :: k in prev.vals <==> k in SubIds(ruleId, hs[..|hs| - 1])
    ensures var m := prev.Put(v.id, v);
      && m.Valid()
      && (forall k :: k in m.vals ==> IsSubruleOf(ruleId, k, m.vals[k]))
      && (forall k :: k in m.vals <==> k in SubIds(ruleId, hs))
  {
    CollectShapeStep(ruleId, hs, prev, v);
    CollectIdsStep(ruleId, hs, prev, v);
  }

  lemma CollectShapeStep(ruleId: string, hs: seq<Header>, prev: OMap<Rule>, v: Rule)
    requires hs != [] && IsLower(hs[|hs| - 1].letter) && v == SubruleRecord(ruleId, hs[|hs| - 1])
    requires prev.Valid() && forall k :: k in prev.vals ==> IsSubruleOf(ruleId, k, prev.vals[k])
    ensures var m := prev.Put(v.id, v); forall k :: k in m.vals ==> IsSubruleOf(ruleId, k, m.vals[k])
  {
    SubruleRecordShape(ruleId, hs[|hs| - 1]);
  }

  lemma CollectIdsStep(ruleId: string, hs: seq<Header>, prev: OMap<Rule>, v: Rule)
    requires hs != [] && v == SubruleRecord(ruleId, hs[|hs| - 1])
    requires prev.Valid() && forall k :: k in prev.vals <==> k in SubIds(ruleId, hs[..|hs| - 1])
    ensures var m := prev.Put(v.id, v); forall k :: k in m.vals <==> k in SubIds(ruleId, hs)
  {
    SubIdsSnoc(ruleId, hs);
  }

  /** Assigning the newest id keeps first-appearance order. */
  lemma CollectKeysStep(ruleId: string, hs: seq<Header>, prev: OMap<Rule>, v: Rule)
    requires hs != [] && v.id == Base(ruleId) + [hs[|hs| - 1].letter]
    requires prev.Valid() && prev.keys == Dedup(SubIds(ruleId, hs[..|hs| - 1]))
    ensures prev.Put(v.id, v).keys == Dedup(SubIds(ruleId, hs))
  {
    var ids := SubIds(ruleId, hs);
    assert ids[..|hs| - 1] == SubIds(ruleId, hs[..|hs| - 1]);
    assert ids[|hs| - 1] == v.id;
  }

  /** The newest match decides its own id, and the older ids keep their records. */
  lemma CollectLastStep(ruleId: string, hs: seq<Header>, prev: OMap<Rule>, v: Rule)
    requires hs != [] && v == SubruleRecord(ruleId, hs[|hs| - 1]) && prev.Valid()
    requires v.id == Base(ruleId) + [hs[|hs| - 1].letter]
    requires var p := hs[..|hs| - 1];
      forall j :: 0 <= j < |p| && LastOfLetter(p, j) ==>
        Base(ruleId) + [p[j].letter] in prev.vals && prev.vals[Base(ruleId) + [p[j].letter]] == SubruleRecord(ruleId, p[j])
    ensures var m := prev.Put(v.id, v);
      forall j :: 0 <= j < |hs| && LastOfLetter(hs, j) ==>
        Base(ruleId) + [hs[j].letter] in m.vals && m.vals[Base(ruleId) + [hs[j].letter]] == SubruleRecord(ruleId, hs[j])
  {
    var n := |hs| - 1;
    var p := hs[..n];
    forall j | 0 <= j < |hs| && LastOfLetter(hs, j)
      ensures Base(ruleId) + [hs[j].letter] in prev.Put(v.id, v).vals
      ensures prev.Put(v.id, v).vals[Base(ruleId) + [hs[j].letter]] == SubruleRecord(ruleId, hs[j])
    {
      if j < n {
        assert LastOfLetter(p, j) && p[j] == hs[j];
        OlderKept(Base(ruleId), hs[j].letter, hs[n].letter, prev, v, SubruleRecord(ruleId, hs[j]));
      } else {
        assert j == n;
        NewestSet(prev, v, Base(ruleId) + [hs[j].letter], SubruleRecord(ruleId, hs[j]));
      }
    }
  }

  lemma NewestSet(prev: OMap<Rule>, v: Rule, key: string, rec: Rule)
    requires prev.Valid() && key == v.id && v == rec
    ensures key in prev.Put(v.id, v).vals && prev.Put(v.id, v).vals[key] == rec
  {
  }

  /** Assigning the id `base + y` leaves the entry of `base + x` alone. */
  lemma OlderKept(base: string, x: char, y: char, prev: OMap<Rule>, v: Rule, rec: Rule)
    requires prev.Valid() && x != y && v.id == base + [y]
    requires base + [x] in prev.vals && prev.vals[base + [x]] == rec
    ensures base + [x] in prev.Put(v.id, v).vals && prev.Put(v.id, v).vals[base + [x]] == rec
  {
    assert (base + [x])[|base|] != (base + [y])[|base|];
  }

  /** `extract_subrules(rule_id, rule_text)`: the main text and the subrules. */
  function ExtractSubrules(ruleId: string, text: string): (r: (string, OMap<Rule>))
    ensures r.1.Valid()
    ensures forall k :: k in r.1.vals ==> IsSubruleOf(ruleId, k, r.1.vals[k])
    ensures r.1.vals == map[] <==> FindHeaders(Base(ruleId), text, 0) == []
    ensures var hs := FindHeaders(Base(ruleId), text, 0);
      && r.1.keys == Dedup(SubIds(ruleId, hs))
      && (forall j :: 0 <= j < |hs| && LastOfLetter(hs, j) ==>
            Base(ruleId) + [hs[j].letter] in r.1.vals
            && r.1.vals[Base(ruleId) + [hs[j].letter]] == SubruleRecord(ruleId, hs[j]))
  {
    var hs := FindHeaders(Base(ruleId), text, 0);
    if hs == [] then (text, Empty())
    else
      assert SubIds(ruleId, hs)[0] in Collect(ruleId, hs).vals;
      (Strip(text[..hs[0].start]), Collect(ruleId, hs))
  }

  // ---------------------------------------------------------------------------
  // Properties.

  /** Without an embedded `<base><letter>` header the text comes back unchanged
      and there are no subrules. */
  lemma {:induction false} NoHeaderUnchanged(ruleId: string, text: string)
    requires forall k :: 0 <= k <= |text| ==> !HeaderAt(Base(ruleId), text, k)
    ensures ExtractSubrules(ruleId, text) == (text, Empty())
  {
    NoHeaderNoMatch(Base(ruleId), text, 0);
  }

  lemma {:induction false} NoHeaderNoMatch(base: string, text: string, p: nat)
    requires p <= |text|
    requires forall k :: p <= k <= |text| ==> !HeaderAt(base, text, k)
    ensures FindHeaders(base, text, p) == []
    decreases |text| - p
  {
    if p < |text| { NoHeaderNoMatch(base, text, p + 1); }
  }

  /** With headers, the main text is the stripped text before the leftmost match. */
  lemma MainTextBeforeFirstHeader(ruleId: string, text: string)
    requires FindHeaders(Base(ruleId), text, 0) != []
    ensures exists k ::
      && 0 <= k < |text|
      && MatchHeader(Base(ruleId), text, k).Some?
      && (forall j :: 0 <= j < k ==> MatchHeader(Base(ruleId), text, j).None?)
      && ExtractSubrules(ruleId, text).0 == Strip(text[..k])
  {
    var hs := FindHeaders(Base(ruleId), text, 0);
    var k := hs[0].start;
    assert MatchHeader(Base(ruleId), text, k) == Some(hs[0]);
    assert ExtractSubrules(ruleId, text).0 == Strip(text[..k]);
  }

  /** Stated for a rule id that has no trailing dot, as every compiled one: the
      subrule ids are `rule_id` plus a letter and point back at `rule_id`. */
  lemma SubrulesPointAtRule(ruleId: string, text: string)
    requires ruleId != [] && ruleId[|ruleId| - 1] != '.'
    ensures forall k :: k in ExtractSubrules(ruleId, text).1.vals ==>
      var v := ExtractSubrules(ruleId, text).1.vals[k];
      && v.parentRuleId == Some(ruleId) && k[..|ruleId|] == ruleId && |k| == |ruleId| + 1
  {
  }
}
