/** What the rules service's read-only queries return, as functions of the
    loaded database: the id and keyword search (`search_rules`), the section
    and rule views (`get_section`, `get_rule`), the glossary search
    (`search_glossary`) and the commander view (`get_commander_rules`). The
    loops that compute them live in module RuleService; the properties the
    service promises are lemmas here. */
module Queries {
  import opened Text
  import opened OrderedMaps
  import opened RulesModel
  import RuleRefs
  import Compiler

  // ---------------------------------------------------------------------------
  // Limits and ranks.

  const SectionPreview: nat := 10     // `section["rules"][:10]`
  const MaxResults: nat := 15         // `[:15]` and the `len(results) >= 15` breaks
  const TitlePreview: nat := 5        // `if count >= 5: break`
  const FewResults: nat := 5          // `if len(results) < 5`
  const MainScanLimit: nat := 2000    // `list(main_rules.items())[:2000]`
  const SubruleScanLimit: nat := 1000 // `[...][:1000]`

  /** The relevances 3, 2, 1 and 0.5, doubled so that they are integers in the
      same order; a result without one counts as 0. */
  const IndexRank: nat := 6
  const TitleRank: nat := 4
  const MainTextRank: nat := 2
  const SubruleTextRank: nat := 1

  // ---------------------------------------------------------------------------
  // Result records (the JSON objects the service returns).

  /** `{"id", "text", "has_subrules", "subrule_count"}` */
  datatype RuleSummary = RuleSummary(id: string, text: string, hasSubrules: bool, subruleCount: nat)

  /** `{"id", "text"}` */
  datatype Brief = Brief(id: string, text: string)

  /** `{"id", "text", "is_subrule"}` */
  datatype RefBrief = RefBrief(id: string, text: string, isSubrule: bool)

  /** The pair of keys `"has_subrules"` and `"subrule_count"`. */
  datatype Counts = Counts(hasSubrules: bool, subruleCount: nat)

  /** One result of `search_rules`. An optional field is a key that only some
      results carry; `parentRuleId` holds `rule.get("parent_rule_id")`, which
      may itself be null. The `"type"` key is the constructor. */
  datatype Hit =
    | SectionHit(id: string, title: string, rules: seq<RuleSummary>, relevance: Option<nat>)
    | RuleHit(
        id: string, text: string, sectionId: string, sectionTitle: string,
        relatedRules: seq<string>, isSubrule: bool,
        counts: Option<Counts>,
        parentRuleId: Option<Option<string>>,
        subrules: Option<seq<Brief>>,
        relevance: Option<nat>)

  datatype SearchResult = DatabaseNotLoaded | Hits(hits: seq<Hit>)

  /** `-x.get("relevance", 0)` without the sign */
  function Rank(h: Hit): nat
  {
    if h.relevance.Some? then h.relevance.value else 0
  }

  function CountsOf(r: Rule): Counts
  {
    Counts(|r.subrules| > 0, |r.subrules|)
  }

  function Summary(k: string, r: Rule): RuleSummary
  {
    RuleSummary(k, r.text, |r.subrules| > 0, |r.subrules|)
  }

  /** Present in the table and not a subrule. */
  predicate IsMain(rules: map<string, Rule>, k: string)
  {
    k in rules && !rules[k].isSubrule
  }

  function MainTest(rules: map<string, Rule>): string -> bool
  {
    k => IsMain(rules, k)
  }

  function PresentTest(rules: map<string, Rule>): string -> bool
  {
    k => k in rules
  }

  // ---------------------------------------------------------------------------
  // Lists built by the `for rule_id in ...: if rule_id in self.db["rules"]` loops.

  /** The main rules among `ids`, in order, as summaries. */
  function MainSummaries(rules: map<string, Rule>, ids: seq<string>): (r: seq<RuleSummary>)
    ensures |r| <= |ids|
    ensures forall s :: s in r ==> s.id in ids && IsMain(rules, s.id) && s == Summary(s.id, rules[s.id])
  {
    if ids == [] then []
    else (if IsMain(rules, ids[0]) then [Summary(ids[0], rules[ids[0]])] else []) + MainSummaries(rules, ids[1..])
  }

  /** The rules among `ids` that exist, in order, as `{"id", "text"}`. */
  function Briefs(rules: map<string, Rule>, ids: seq<string>): (r: seq<Brief>)
    ensures |r| <= |ids|
    ensures forall b :: b in r ==> b.id in ids && b.id in rules && b.text == rules[b.id].text
  {
    if ids == [] then []
    else (if ids[0] in rules then [Brief(ids[0], rules[ids[0]].text)] else []) + Briefs(rules, ids[1..])
  }

  lemma {:induction false} MainSummariesExact(rules: map<string, Rule>, ids: seq<string>)
    ensures |MainSummaries(rules, ids)| == |Filter(MainTest(rules), ids)|
    ensures forall i :: 0 <= i < |MainSummaries(rules, ids)| ==>
      var k := Filter(MainTest(rules), ids)[i];
      IsMain(rules, k) && MainSummaries(rules, ids)[i] == Summary(k, rules[k])
  {
    if ids != [] {
      var k := ids[0];
      MainSummariesExact(rules, ids[1..]);
      PairsConcat(if IsMain(rules, k) then [k] else [], if IsMain(rules, k) then [Summary(k, rules[k])] else [],
                  Filter(MainTest(rules), ids[1..]), MainSummaries(rules, ids[1..]),
                  (x: string, h: RuleSummary) => IsMain(rules, x) && h == Summary(x, rules[x]));
      assert MainSummaries(rules, ids) == (if IsMain(rules, k) then [Summary(k, rules[k])] else []) + MainSummaries(rules, ids[1..]);
    }
  }

  /** Two lists paired position by position, joined to two others paired the
      same way, stay paired. */
  lemma PairsConcat<T, U>(fa: seq<T>, ra: seq<U>, fs: seq<T>, rs: seq<U>, p: (T, U) -> bool)
    requires |fa| == |ra| && forall i :: 0 <= i < |fa| ==> p(fa[i], ra[i])
    requires |fs| == |rs| && forall i :: 0 <= i < |fs| ==> p(fs[i], rs[i])
    ensures |ra + rs| == |fa + fs| && forall i :: 0 <= i < |fa + fs| ==> p((fa + fs)[i], (ra + rs)[i])
  {
    forall i | 0 <= i < |fa + fs| ensures p((fa + fs)[i], (ra + rs)[i]) {
      if i < |fa| {
        assert (fa + fs)[i] == fa[i] && (ra + rs)[i] == ra[i];
      } else {
        assert (fa + fs)[i] == fs[i - |fa|] && (ra + rs)[i] == rs[i - |fa|];
      }
    }
  }

  lemma {:induction false} BriefsExact(rules: map<string, Rule>, ids: seq<string>)
    ensures |Briefs(rules, ids)| == |Filter(PresentTest(rules), ids)|
    ensures forall i :: 0 <= i < |Briefs(rules, ids)| ==>
      var k := Filter(PresentTest(rules), ids)[i];
      k in rules && Briefs(rules, ids)[i] == Brief(k, rules[k].text)
  {
    if ids != [] {
      var k := ids[0];
      BriefsExact(rules, ids[1..]);
      PairsConcat(if k in rules then [k] else [], if k in rules then [Brief(k, rules[k].text)] else [],
                  Filter(PresentTest(rules), ids[1..]), Briefs(rules, ids[1..]),
                  (x: string, b: Brief) => x in rules && b == Brief(x, rules[x].text));
      assert Briefs(rules, ids) == (if k in rules then [Brief(k, rules[k].text)] else []) + Briefs(rules, ids[1..]);
    }
  }

  /** No brief at all exactly when none of the ids exists. */
  lemma {:induction false} BriefsEmpty(rules: map<string, Rule>, ids: seq<string>)
    ensures Briefs(rules, ids) == [] <==> forall k :: k in ids ==> k !in rules
  {
    if ids != [] {
      BriefsEmpty(rules, ids[1..]);
      assert forall k :: k in ids <==> k == ids[0] || k in ids[1..];
    }
  }

  // ---------------------------------------------------------------------------
  // `search_rules`, numeric branch.

  /** `re.match(r'^\d{3}(\.\d+[a-z]?)?$', query)` */
  predicate IdQuery(q: string)
  {
    RuleRefs.MatchesRefPattern(q)
  }

  /** The single result for a query naming a section: its first ten listed rules
      that are main rules. */
  function SectionQueryHit(rules: map<string, Rule>, q: string, s: Section): Hit
  {
    SectionHit(q, s.title, MainSummaries(rules, Take(s.rules, SectionPreview)), None)
  }

  /** The single result for a query naming a rule. */
  function ExactHit(rules: map<string, Rule>, q: string): Hit
    requires q in rules
  {
    var r := rules[q];
    var children := Briefs(rules, r.subrules);
    RuleHit(q, r.text, r.sectionId, r.sectionTitle, r.relatedRules, r.isSubrule, None,
            if r.isSubrule then Some(r.parentRuleId) else None,
            if !r.isSubrule && r.subrules != [] && children != [] then Some(children) else None,
            None)
  }

  /** A rule listed with `"has_subrules"` and `"subrule_count"`. */
  function ListedHit(k: string, r: Rule): Hit
  {
    RuleHit(k, r.text, r.sectionId, r.sectionTitle, r.relatedRules, r.isSubrule, Some(CountsOf(r)), None, None, None)
  }

  /** The prefix fallback keeps a rule whose id starts with the query, a subrule
      only when the query ends with the subrule's last character. */
  predicate PrefixWanted(rules: map<string, Rule>, q: string, k: string)
  {
    k in rules && q <= k && (!rules[k].isSubrule || (q != [] && k != [] && q[|q| - 1] == k[|k| - 1]))
  }

  function PrefixTest(rules: map<string, Rule>, q: string): string -> bool
  {
    k => PrefixWanted(rules, q, k)
  }

  /** Every kept rule of `ids`, in order, before the cut at fifteen. */
  function PrefixHits(rules: map<string, Rule>, q: string, ids: seq<string>): (r: seq<Hit>)
    ensures |r| <= |ids|
  {
    if ids == [] then []
    else (if PrefixWanted(rules, q, ids[0]) then [ListedHit(ids[0], rules[ids[0]])] else []) + PrefixHits(rules, q, ids[1..])
  }

  lemma {:induction false} PrefixHitsExact(rules: map<string, Rule>, q: string, ids: seq<string>)
    ensures |PrefixHits(rules, q, ids)| == |Filter(PrefixTest(rules, q), ids)|
    ensures forall i :: 0 <= i < |PrefixHits(rules, q, ids)| ==>
      var k := Filter(PrefixTest(rules, q), ids)[i];
      PrefixWanted(rules, q, k) && PrefixHits(rules, q, ids)[i] == ListedHit(k, rules[k])
  {
    if ids != [] {
      var k := ids[0];
      PrefixHitsExact(rules, q, ids[1..]);
      PairsConcat(if PrefixWanted(rules, q, k) then [k] else [], if PrefixWanted(rules, q, k) then [ListedHit(k, rules[k])] else [],
                  Filter(PrefixTest(rules, q), ids[1..]), PrefixHits(rules, q, ids[1..]),
                  (x: string, h: Hit) => PrefixWanted(rules, q, x) && h == ListedHit(x, rules[x]));
      assert PrefixHits(rules, q, ids) == (if PrefixWanted(rules, q, k) then [ListedHit(k, rules[k])] else []) + PrefixHits(rules, q, ids[1..]);
    }
  }

  function IdQueryHits(db: RulesDb, q: string): (r: seq<Hit>)
    requires db.Valid()
  {
    if Compiler.SectionIdPattern(q) && q in db.sections.vals then [SectionQueryHit(db.rules.vals, q, db.sections.vals[q])]
    else if q in db.rules.vals then [ExactHit(db.rules.vals, q)]
    else Take(PrefixHits(db.rules.vals, q, db.rules.keys), MaxResults)
  }

  // ---------------------------------------------------------------------------
  // `search_rules`, keyword branch.

  /** A keyword-index result. */
  function IndexHit(k: string, r: Rule): Hit
  {
    RuleHit(k, r.text, r.sectionId, r.sectionTitle, r.relatedRules, r.isSubrule, Some(CountsOf(r)),
            if r.isSubrule then Some(r.parentRuleId) else None, None, Some(IndexRank))
  }

  function IndexHits(rules: map<string, Rule>, ids: seq<string>): (r: seq<Hit>)
    ensures |r| <= |ids|
    ensures forall h :: h in r ==> Rank(h) == IndexRank
  {
    if ids == [] then []
    else (if ids[0] in rules then [IndexHit(ids[0], rules[ids[0]])] else []) + IndexHits(rules, ids[1..])
  }

  lemma {:induction false} IndexHitsExact(rules: map<string, Rule>, ids: seq<string>)
    ensures |IndexHits(rules, ids)| == |Filter(PresentTest(rules), ids)|
    ensures forall i :: 0 <= i < |IndexHits(rules, ids)| ==>
      var k := Filter(PresentTest(rules), ids)[i];
      k in rules && IndexHits(rules, ids)[i] == IndexHit(k, rules[k])
  {
    if ids != [] {
      var k := ids[0];
      IndexHitsExact(rules, ids[1..]);
      PairsConcat(if k in rules then [k] else [], if k in rules then [IndexHit(k, rules[k])] else [],
                  Filter(PresentTest(rules), ids[1..]), IndexHits(rules, ids[1..]),
                  (x: string, h: Hit) => x in rules && h == IndexHit(x, rules[x]));
      assert IndexHits(rules, ids) == (if k in rules then [IndexHit(k, rules[k])] else []) + IndexHits(rules, ids[1..]);
    }
  }

  /** The first fifteen ids the index lists for the query, if it lists any. */
  function IndexIds(db: RulesDb, q: string): (r: seq<string>)
    ensures |r| <= MaxResults
  {
    if db.keywordIndex.Some? && q in db.keywordIndex.value then Take(db.keywordIndex.value[q], MaxResults) else []
  }

  predicate TitleMatches(q: string, s: Section)
  {
    Contains(q, Lower(s.title))
  }

  /** A section whose title holds the query, with its first five main rules. */
  function TitleHit(rules: map<string, Rule>, k: string, s: Section): Hit
  {
    SectionHit(k, s.title, Take(MainSummaries(rules, s.rules), TitlePreview), Some(TitleRank))
  }

  function TitleHits(rules: map<string, Rule>, sections: map<string, Section>, q: string, sids: seq<string>): (r: seq<Hit>)
    requires forall k :: k in sids ==> k in sections
    ensures forall h :: h in r ==> h.SectionHit? && h.id in sids && h.id in sections && TitleMatches(q, sections[h.id])
    ensures forall h :: h in r ==> Rank(h) == TitleRank && |h.rules| <= TitlePreview
    ensures forall h, s :: h in r && s in h.rules ==> IsMain(rules, s.id)
  {
    if sids == [] then []
    else
      var k := sids[0];
      var s := sections[k];
      (if TitleMatches(q, s) then [TitleHit(rules, k, s)] else []) + TitleHits(rules, sections, q, sids[1..])
  }

  function TitleTest(sections: map<string, Section>, q: string): string -> bool
  {
    k => k in sections && TitleMatches(q, sections[k])
  }

  /** One title hit per section whose title holds the query, in section order. */
  lemma {:induction false} TitleHitsExact(rules: map<string, Rule>, sections: map<string, Section>, q: string, sids: seq<string>)
    requires forall k :: k in sids ==> k in sections
    ensures |TitleHits(rules, sections, q, sids)| == |Filter(TitleTest(sections, q), sids)|
    ensures forall i :: 0 <= i < |TitleHits(rules, sections, q, sids)| ==>
      var k := Filter(TitleTest(sections, q), sids)[i];
      k in sections && TitleHits(rules, sections, q, sids)[i] == TitleHit(rules, k, sections[k])
  {
    if sids != [] {
      var k := sids[0];
      var m := TitleMatches(q, sections[k]);
      assert forall x :: x in sids[1..] ==> x in sids;
      TitleHitsExact(rules, sections, q, sids[1..]);
      PairsConcat(if m then [k] else [], if m then [TitleHit(rules, k, sections[k])] else [],
                  Filter(TitleTest(sections, q), sids[1..]), TitleHits(rules, sections, q, sids[1..]),
                  (x: string, h: Hit) => x in sections && h == TitleHit(rules, x, sections[x]));
      assert TitleHits(rules, sections, q, sids) == (if m then [TitleHit(rules, k, sections[k])] else []) + TitleHits(rules, sections, q, sids[1..]);
    }
  }

  /** `any(r.get("id") == rule_id for r in results)` */
  predicate HasId(hs: seq<Hit>, k: string)
  {
    exists i :: 0 <= i < |hs| && hs[i].id == k
  }

  /** A full-text result: a main rule at rank 2 (with its counts), or a subrule at
      rank 1 (with its parent). */
  function TextHit(k: string, r: Rule, sub: bool): Hit
  {
    if sub then
      RuleHit(k, r.text, r.sectionId, r.sectionTitle, r.relatedRules, true, None, Some(r.parentRuleId), None, Some(SubruleTextRank))
    else
      RuleHit(k, r.text, r.sectionId, r.sectionTitle, r.relatedRules, false, Some(CountsOf(r)), None, None, Some(MainTextRank))
  }

  predicate TextMatches(q: string, r: Rule)
  {
    Contains(q, Lower(r.text))
  }

  /** The full-text scan over `ids`, appending to `acc` each rule whose lower-cased
      text holds the query and whose id no result has yet, and stopping as soon
      as fifteen results are reached. */
  function TextScan(rules: map<string, Rule>, q: string, ids: seq<string>, acc: seq<Hit>, sub: bool): (r: seq<Hit>)
    requires forall k :: k in ids ==> k in rules
    ensures acc <= r
    ensures |acc| < MaxResults ==> |r| <= MaxResults
    decreases |ids|
  {
    if ids == [] then acc
    else
      var k := ids[0];
      if TextMatches(q, rules[k]) && !HasId(acc, k) then
        var next := acc + [TextHit(k, rules[k], sub)];
        if |next| >= MaxResults then next else TextScan(rules, q, ids[1..], next, sub)
      else TextScan(rules, q, ids[1..], acc, sub)
  }

  /** The main rules in table order, at most 2000. */
  function MainScanIds(db: RulesDb): (r: seq<string>)
    requires db.Valid()
    ensures forall k :: k in r ==> IsMain(db.rules.vals, k)
  {
    Take(Filter(MainTest(db.rules.vals), db.rules.keys), MainScanLimit)
  }

  predicate IsSubruleIn(rules: map<string, Rule>, k: string)
  {
    k in rules && rules[k].isSubrule
  }

  function SubruleTest(rules: map<string, Rule>): string -> bool
  {
    k => IsSubruleIn(rules, k)
  }

  /** The subrules in table order, at most 1000. */
  function SubruleScanIds(db: RulesDb): (r: seq<string>)
    requires db.Valid()
    ensures forall k :: k in r ==> IsSubruleIn(db.rules.vals, k)
  {
    Take(Filter(SubruleTest(db.rules.vals), db.rules.keys), SubruleScanLimit)
  }

  /** Index hits and title hits, before any full-text scan. */
  function KeywordHits(db: RulesDb, q: string): seq<Hit>
    requires db.Valid()
  {
    IndexHits(db.rules.vals, IndexIds(db, q)) + TitleHits(db.rules.vals, db.sections.vals, q, db.sections.keys)
  }

  /** The results after the full-text scan of main rules, which runs only with
      fewer than five results. */
  function MainScanned(db: RulesDb, q: string): seq<Hit>
    requires db.Valid()
  {
    var a := KeywordHits(db, q);
    if |a| < FewResults then TextScan(db.rules.vals, q, MainScanIds(db), a, false) else a
  }

  /** All keyword-branch results before the sort: the scan of subrules runs
      (inside the first scan's branch) only with still fewer than five. */
  function KeywordCandidates(db: RulesDb, q: string): seq<Hit>
    requires db.Valid()
  {
    var a := KeywordHits(db, q);
    var b := MainScanned(db, q);
    if |a| < FewResults && |b| < FewResults then TextScan(db.rules.vals, q, SubruleScanIds(db), b, true) else b
  }

  // ---------------------------------------------------------------------------
  // `results.sort(key=lambda x: -x.get("relevance", 0))`: a stable sort by
  // non-increasing rank, written as the concatenation of the rank classes from
  // the highest down.

  /** The results of rank v, in order. */
  function Class(hs: seq<Hit>, v: nat): (r: seq<Hit>)
    ensures |r| <= |hs|
  {
    if hs == [] then [] else (if Rank(hs[0]) == v then [hs[0]] else []) + Class(hs[1..], v)
  }

  /** The results of rank at most v, in order. */
  function AtMost(hs: seq<Hit>, v: nat): (r: seq<Hit>)
  {
    if hs == [] then [] else (if Rank(hs[0]) <= v then [hs[0]] else []) + AtMost(hs[1..], v)
  }

  function SortFrom(hs: seq<Hit>, top: nat): (r: seq<Hit>)
    decreases top
  {
    Class(hs, top) + (if top == 0 then [] else SortFrom(hs, top - 1))
  }

  function RankSort(hs: seq<Hit>): seq<Hit>
  {
    SortFrom(hs, IndexRank)
  }

  predicate RanksAtMost(hs: seq<Hit>, top: nat)
  {
    forall i :: 0 <= i < |hs| ==> Rank(hs[i]) <= top
  }

  predicate RankOrdered(hs: seq<Hit>)
  {
    forall i, j :: 0 <= i < j < |hs| ==> Rank(hs[i]) >= Rank(hs[j])
  }

  function KeywordQueryHits(db: RulesDb, q: string): seq<Hit>
    requires db.Valid()
  {
    RankSort(KeywordCandidates(db, q))
  }

  // ---------------------------------------------------------------------------
  // `search_rules` as a whole.

  function SearchRules(db: Option<RulesDb>, query: string): (r: SearchResult)
    requires db.Some? ==> db.value.Valid()
    ensures r.DatabaseNotLoaded? <==> db.None?
    ensures r.Hits? ==> |r.hits| <= MaxResults
  {
    if db.None? then DatabaseNotLoaded
    else
      var q := Lower(query);
      var all := if IdQuery(q) then IdQueryHits(db.value, q) else KeywordQueryHits(db.value, q);
      Hits(Take(all, MaxResults))
  }

  // ---------------------------------------------------------------------------
  // `get_section`

  /** A rule in the section view; `subrules` is present whenever the rule lists
      any, even if none of them exists. */
  datatype RuleView = RuleView(
    id: string, text: string, relatedRules: seq<string>,
    hasSubrules: bool, subruleCount: nat,
    subrules: Option<seq<Brief>>)

  datatype SectionResult = SectionNotFound | SectionView(id: string, title: string, rules: seq<RuleView>)

  function ViewOf(rules: map<string, Rule>, k: string, r: Rule): RuleView
  {
    RuleView(k, r.text, r.relatedRules, |r.subrules| > 0, |r.subrules|,
             if r.subrules != [] then Some(Briefs(rules, r.subrules)) else None)
  }

  function SectionViews(rules: map<string, Rule>, ids: seq<string>): (r: seq<RuleView>)
    ensures |r| <= |ids|
  {
    if ids == [] then []
    else (if IsMain(rules, ids[0]) then [ViewOf(rules, ids[0], rules[ids[0]])] else []) + SectionViews(rules, ids[1..])
  }

  lemma {:induction false} SectionViewsExact(rules: map<string, Rule>, ids: seq<string>)
    ensures |SectionViews(rules, ids)| == |Filter(MainTest(rules), ids)|
    ensures forall i :: 0 <= i < |SectionViews(rules, ids)| ==>
      var k := Filter(MainTest(rules), ids)[i];
      IsMain(rules, k) && SectionViews(rules, ids)[i] == ViewOf(rules, k, rules[k])
  {
    if ids != [] {
      var k := ids[0];
      SectionViewsExact(rules, ids[1..]);
      PairsConcat(if IsMain(rules, k) then [k] else [], if IsMain(rules, k) then [ViewOf(rules, k, rules[k])] else [],
                  Filter(MainTest(rules), ids[1..]), SectionViews(rules, ids[1..]),
                  (x: string, v: RuleView) => IsMain(rules, x) && v == ViewOf(rules, x, rules[x]));
      assert SectionViews(rules, ids) == (if IsMain(rules, k) then [ViewOf(rules, k, rules[k])] else []) + SectionViews(rules, ids[1..]);
    }
  }

  function GetSection(db: Option<RulesDb>, sid: string): (r: SectionResult)
    ensures r.SectionNotFound? <==> db.None? || sid !in db.value.sections.vals
  {
    if db.None? || sid !in db.value.sections.vals then SectionNotFound
    else
      var s := db.value.sections.vals[sid];
      SectionView(sid, s.title, SectionViews(db.value.rules.vals, s.rules))
  }

  // ---------------------------------------------------------------------------
  // `get_rule`

  datatype RuleResult =
    | RuleNotFound
    | RuleDetail(
        id: string, text: string, sectionId: string, sectionTitle: string,
        relatedRules: seq<string>, isSubrule: bool,
        parentRule: Option<Brief>,
        siblingSubrules: Option<seq<Brief>>,
        subrules: Option<seq<Brief>>,
        referencedRules: Option<seq<RefBrief>>)

  /** The parent's other subrules that exist. */
  function Siblings(rules: map<string, Rule>, ids: seq<string>, self: string): (r: seq<Brief>)
    ensures forall b :: b in r ==> b.id != self && b.id in ids && b.id in rules && b.text == rules[b.id].text
  {
    if ids == [] then []
    else (if ids[0] != self && ids[0] in rules then [Brief(ids[0], rules[ids[0]].text)] else []) + Siblings(rules, ids[1..], self)
  }

  function RefBriefs(rules: map<string, Rule>, ids: seq<string>): (r: seq<RefBrief>)
    ensures |r| <= |ids|
  {
    if ids == [] then []
    else (if ids[0] in rules then [RefBrief(ids[0], rules[ids[0]].text, rules[ids[0]].isSubrule)] else []) + RefBriefs(rules, ids[1..])
  }

  lemma {:induction false} RefBriefsExact(rules: map<string, Rule>, ids: seq<string>)
    ensures |RefBriefs(rules, ids)| == |Filter(PresentTest(rules), ids)|
    ensures forall i :: 0 <= i < |RefBriefs(rules, ids)| ==>
      var k := Filter(PresentTest(rules), ids)[i];
      k in rules && RefBriefs(rules, ids)[i] == RefBrief(k, rules[k].text, rules[k].isSubrule)
  {
    if ids != [] {
      var k := ids[0];
      RefBriefsExact(rules, ids[1..]);
      PairsConcat(if k in rules then [k] else [], if k in rules then [RefBrief(k, rules[k].text, rules[k].isSubrule)] else [],
                  Filter(PresentTest(rules), ids[1..]), RefBriefs(rules, ids[1..]),
                  (x: string, b: RefBrief) => x in rules && b == RefBrief(x, rules[x].text, rules[x].isSubrule));
      assert RefBriefs(rules, ids) == (if k in rules then [RefBrief(k, rules[k].text, rules[k].isSubrule)] else []) + RefBriefs(rules, ids[1..]);
    }
  }

  /** `x if x else None` for the optional lists: `result[key] = x` only when `x` is non-empty. */
  function NonEmpty<T>(s: seq<T>): (r: Option<seq<T>>)
    ensures r.Some? <==> s != []
    ensures r.Some? ==> r.value == s
  {
    if s != [] then Some(s) else None
  }

  /** A subrule with a non-empty parent id takes the parent branch; otherwise a
      rule listing subrules takes the children branch. */
  predicate HasParentLink(r: Rule)
  {
    r.isSubrule && r.parentRuleId.Some? && r.parentRuleId.value != []
  }

  function GetRule(db: Option<RulesDb>, k: string): (res: RuleResult)
    ensures res.RuleNotFound? <==> db.None? || k !in db.value.rules.vals
  {
    if db.None? || k !in db.value.rules.vals then RuleNotFound
    else
      var rules := db.value.rules.vals;
      var r := rules[k];
      var refs := if r.relatedRules != [] then NonEmpty(RefBriefs(rules, r.relatedRules)) else None;
      if HasParentLink(r) then
        var p := r.parentRuleId.value;
        if p in rules then
          RuleDetail(k, r.text, r.sectionId, r.sectionTitle, r.relatedRules, r.isSubrule,
                     Some(Brief(p, rules[p].text)), NonEmpty(Siblings(rules, rules[p].subrules, k)), None, refs)
        else
          RuleDetail(k, r.text, r.sectionId, r.sectionTitle, r.relatedRules, r.isSubrule, None, None, None, refs)
      else
        var children := if r.subrules != [] then NonEmpty(Briefs(rules, r.subrules)) else None;
        RuleDetail(k, r.text, r.sectionId, r.sectionTitle, r.relatedRules, r.isSubrule, None, None, children, refs)
  }

  // ---------------------------------------------------------------------------
  // `search_glossary`

  /** A copy of the stored entry, with `"rule_references"` added when some of its
      related rules exist. */
  datatype GlossaryHit = GlossaryHit(entry: GlossaryEntry, ruleReferences: Option<seq<Brief>>)

  predicate GlossaryMatches(q: string, key: string, e: GlossaryEntry)
  {
    Contains(q, key) || Contains(q, Lower(e.definition))
  }

  function GlossaryTest(g: map<string, GlossaryEntry>, q: string): string -> bool
  {
    k => k in g && GlossaryMatches(q, k, g[k])
  }

  function GlossaryHitOf(rules: map<string, Rule>, e: GlossaryEntry): GlossaryHit
  {
    GlossaryHit(e, if e.relatedRules != [] then NonEmpty(Briefs(rules, e.relatedRules)) else None)
  }

  function GlossaryHits(g: map<string, GlossaryEntry>, rules: map<string, Rule>, q: string, keys: seq<string>): (r: seq<GlossaryHit>)
    requires forall k :: k in keys ==> k in g
    ensures |r| <= |keys|
  {
    if keys == [] then []
    else
      var k := keys[0];
      (if GlossaryMatches(q, k, g[k]) then [GlossaryHitOf(rules, g[k])] else []) + GlossaryHits(g, rules, q, keys[1..])
  }

  lemma {:induction false} GlossaryHitsExact(g: map<string, GlossaryEntry>, rules: map<string, Rule>, q: string, keys: seq<string>)
    requires forall k :: k in keys ==> k in g
    ensures |GlossaryHits(g, rules, q, keys)| == |Filter(GlossaryTest(g, q), keys)|
    ensures forall i :: 0 <= i < |GlossaryHits(g, rules, q, keys)| ==>
      var k := Filter(GlossaryTest(g, q), keys)[i];
      k in g && GlossaryMatches(q, k, g[k]) && GlossaryHits(g, rules, q, keys)[i] == GlossaryHitOf(rules, g[k])
  {
    if keys != [] {
      var k := keys[0];
      var m := GlossaryMatches(q, k, g[k]);
      GlossaryHitsExact(g, rules, q, keys[1..]);
      PairsConcat(if m then [k] else [], if m then [GlossaryHitOf(rules, g[k])] else [],
                  Filter(GlossaryTest(g, q), keys[1..]), GlossaryHits(g, rules, q, keys[1..]),
                  (x: string, h: GlossaryHit) => x in g && GlossaryMatches(q, x, g[x]) && h == GlossaryHitOf(rules, g[x]));
      assert Filter(GlossaryTest(g, q), keys) == (if m then [k] else []) + Filter(GlossaryTest(g, q), keys[1..]);
    }
  }

  function SearchGlossary(db: Option<RulesDb>, query: string): (r: seq<GlossaryHit>)
    requires db.Some? ==> db.value.Valid()
    ensures db.None? || db.value.glossary.None? ==> r == []
  {
    if db.None? || db.value.glossary.None? then []
    else
      var g := db.value.glossary.value;
      GlossaryHits(g.vals, db.value.rules.vals, Lower(query), g.keys)
  }

  // ---------------------------------------------------------------------------
  // `get_commander_rules`

  datatype CommanderRule = CommanderRule(id: string, text: string, sectionId: string, sectionTitle: string)

  /** The view of section 903, with `"additional_commander_rules"` set (even on the
      error object) when the list is non-empty. */
  datatype CommanderView = CommanderView(section: SectionResult, additionalRules: Option<seq<CommanderRule>>)

  const CommanderSection: string := "903"
  const CommanderKeyword: string := "commander"

  /** An indexed rule outside section 903 that is a main rule. */
  predicate CommanderWanted(rules: map<string, Rule>, k: string)
  {
    !(CommanderSection <= k) && IsMain(rules, k)
  }

  function CommanderTest(rules: map<string, Rule>): string -> bool
  {
    k => CommanderWanted(rules, k)
  }

  function CommanderExtras(rules: map<string, Rule>, ids: seq<string>): (r: seq<CommanderRule>)
    ensures |r| <= |ids|
  {
    if ids == [] then []
    else
      var k := ids[0];
      (if CommanderWanted(rules, k) then [CommanderRule(k, rules[k].text, rules[k].sectionId, rules[k].sectionTitle)] else [])
      + CommanderExtras(rules, ids[1..])
  }

  lemma {:induction false} CommanderExtrasExact(rules: map<string, Rule>, ids: seq<string>)
    ensures |CommanderExtras(rules, ids)| == |Filter(CommanderTest(rules), ids)|
    ensures forall i :: 0 <= i < |CommanderExtras(rules, ids)| ==>
      var k := Filter(CommanderTest(rules), ids)[i];
      CommanderWanted(rules, k) && CommanderExtras(rules, ids)[i] == CommanderRule(k, rules[k].text, rules[k].sectionId, rules[k].sectionTitle)
  {
    if ids != [] {
      var k := ids[0];
      CommanderExtrasExact(rules, ids[1..]);
      PairsConcat(if CommanderWanted(rules, k) then [k] else [], if CommanderWanted(rules, k) then [CommanderRule(k, rules[k].text, rules[k].sectionId, rules[k].sectionTitle)] else [],
                  Filter(CommanderTest(rules), ids[1..]), CommanderExtras(rules, ids[1..]),
                  (x: string, c: CommanderRule) => CommanderWanted(rules, x) && c == CommanderRule(x, rules[x].text, rules[x].sectionId, rules[x].sectionTitle));
      assert CommanderExtras(rules, ids) == (if CommanderWanted(rules, k) then [CommanderRule(k, rules[k].text, rules[k].sectionId, rules[k].sectionTitle)] else []) + CommanderExtras(rules, ids[1..]);
    }
  }

  function CommanderIds(db: RulesDb): seq<string>
  {
    if db.keywordIndex.Some? && CommanderKeyword in db.keywordIndex.value then db.keywordIndex.value[CommanderKeyword] else []
  }

  function CommanderRules(db: RulesDb): CommanderView
  {
    CommanderView(GetSection(Some(db), CommanderSection), NonEmpty(CommanderExtras(db.rules.vals, CommanderIds(db))))
  }

  // ---------------------------------------------------------------------------
  // The rank sort is stable, ordered and a permutation.

  lemma {:induction false} ClassConcat(a: seq<Hit>, b: seq<Hit>, v: nat)
    ensures Class(a + b, v) == Class(a, v) + Class(b, v)
  {
    if a == [] {
      assert a + b == b;
    } else {
      assert (a + b)[0] == a[0];
      assert (a + b)[1..] == a[1..] + b;
      ClassConcat(a[1..], b, v);
      var head := if Rank(a[0]) == v then [a[0]] else [];
      assert Class(a + b, v) == head + Class(a[1..] + b, v);
      assert Class(a, v) == head + Class(a[1..], v);
      Associative(head, Class(a[1..], v), Class(b, v));
    }
  }

  /** Taking one rank class out of another keeps it or empties it. */
  lemma {:induction false} ClassOfClass(hs: seq<Hit>, v: nat, w: nat)
    ensures Class(Class(hs, w), v) == if v == w then Class(hs, w) else []
  {
    if hs != [] {
      ClassOfClass(hs[1..], v, w);
      var head := if Rank(hs[0]) == w then [hs[0]] else [];
      ClassConcat(head, Class(hs[1..], w), v);
    }
  }

  lemma {:induction false} ClassOfNone(hs: seq<Hit>, v: nat)
    requires forall h :: h in hs ==> Rank(h) != v
    ensures Class(hs, v) == []
  {
    if hs != [] {
      ClassOfNone(hs[1..], v);
    }
  }

  lemma {:induction false} ClassOfAll(hs: seq<Hit>, v: nat)
    requires forall h :: h in hs ==> Rank(h) == v
    ensures Class(hs, v) == hs
  {
    if hs != [] {
      ClassOfAll(hs[1..], v);
    }
  }

  lemma {:induction false} SortFromStable(hs: seq<Hit>, top: nat, v: nat)
    ensures Class(SortFrom(hs, top), v) == if v <= top then Class(hs, v) else []
    decreases top
  {
    var rest := if top == 0 then [] else SortFrom(hs, top - 1);
    assert SortFrom(hs, top) == Class(hs, top) + rest;
    ClassConcat(Class(hs, top), rest, v);
    ClassOfClass(hs, v, top);
    if top > 0 {
      SortFromStable(hs, top - 1, v);
    }
  }

  lemma {:induction false} SortFromRanks(hs: seq<Hit>, top: nat)
    ensures RanksAtMost(SortFrom(hs, top), top)
    decreases top
  {
    if top > 0 {
      SortFromRanks(hs, top - 1);
      RanksStep(hs, top);
    } else {
      RanksBase(hs);
    }
  }

  lemma RanksBase(hs: seq<Hit>)
    ensures RanksAtMost(SortFrom(hs, 0), 0)
  {
    ClassRanks(hs, 0);
    assert SortFrom(hs, 0) == Class(hs, 0) + [];
  }

  lemma RanksStep(hs: seq<Hit>, top: nat)
    requires top > 0 && RanksAtMost(SortFrom(hs, top - 1), top - 1)
    ensures RanksAtMost(SortFrom(hs, top), top)
  {
    ClassRanks(hs, top);
    SortFromUnfold(hs, top);
    BoundsConcat(Class(hs, top), SortFrom(hs, top - 1), top, SortFrom(hs, top));
  }

  lemma {:induction false} ClassRanks(hs: seq<Hit>, v: nat)
    ensures forall k :: 0 <= k < |Class(hs, v)| ==> Rank(Class(hs, v)[k]) == v
  {
    if hs != [] {
      ClassRanks(hs[1..], v);
      var head := if Rank(hs[0]) == v then [hs[0]] else [];
      var tail := Class(hs[1..], v);
      assert Class(hs, v) == head + tail;
      forall k | 0 <= k < |head + tail| ensures Rank((head + tail)[k]) == v {
        if k < |head| { assert (head + tail)[k] == hs[0]; } else { assert (head + tail)[k] == tail[k - |head|]; }
      }
    }
  }

  lemma BoundsConcat(a: seq<Hit>, b: seq<Hit>, top: nat, r: seq<Hit>)
    requires top > 0
    requires forall k :: 0 <= k < |a| ==> Rank(a[k]) == top
    requires RanksAtMost(b, top - 1)
    requires r == a + b
    ensures RanksAtMost(r, top)
  {
    forall k | 0 <= k < |r| ensures Rank(r[k]) <= top {
      if k < |a| { assert r[k] == a[k]; } else { assert r[k] == b[k - |a|]; }
    }
  }

  /** Two ordered lists, all of the first ranked at least `top` and all of the
      second at most `top`, make an ordered list. */
  lemma OrderedConcat(a: seq<Hit>, b: seq<Hit>, top: nat, r: seq<Hit>)
    requires top > 0
    requires RankOrdered(a) && RankOrdered(b)
    requires forall k :: 0 <= k < |a| ==> Rank(a[k]) > top - 1
    requires RanksAtMost(b, top - 1)
    requires r == a + b
    ensures RankOrdered(r)
  {
    forall i, j | 0 <= i < j < |r| ensures Rank(r[i]) >= Rank(r[j]) {
      if j < |a| {
        assert r[i] == a[i] && r[j] == a[j];
      } else if i < |a| {
        assert r[i] == a[i] && r[j] == b[j - |a|];
      } else {
        assert r[i] == b[i - |a|] && r[j] == b[j - |a|];
      }
    }
  }

  lemma {:induction false} SortFromOrdered(hs: seq<Hit>, top: nat)
    ensures RankOrdered(SortFrom(hs, top))
    decreases top
  {
    if top > 0 {
      SortFromOrdered(hs, top - 1);
      SortFromRanks(hs, top - 1);
      OrderedStep(hs, top);
    } else {
      OrderedBase(hs);
    }
  }

  lemma OrderedBase(hs: seq<Hit>)
    ensures RankOrdered(SortFrom(hs, 0))
  {
    ClassOrdered(hs, 0);
    assert SortFrom(hs, 0) == Class(hs, 0) + [];
  }

  lemma OrderedStep(hs: seq<Hit>, top: nat)
    requires top > 0 && RankOrdered(SortFrom(hs, top - 1)) && RanksAtMost(SortFrom(hs, top - 1), top - 1)
    ensures RankOrdered(SortFrom(hs, top))
  {
    ClassOrdered(hs, top);
    SortFromUnfold(hs, top);
    OrderedConcat(Class(hs, top), SortFrom(hs, top - 1), top, SortFrom(hs, top));
  }

  lemma SortFromUnfold(hs: seq<Hit>, top: nat)
    ensures SortFrom(hs, top) == Class(hs, top) + (if top == 0 then [] else SortFrom(hs, top - 1))
  {
  }

  lemma ClassOrdered(hs: seq<Hit>, v: nat)
    ensures RankOrdered(Class(hs, v))
    ensures forall k :: 0 <= k < |Class(hs, v)| ==> Rank(Class(hs, v)[k]) > v - 1
  {
    ClassRanks(hs, v);
  }

  /** Each element falls in the class of its own rank or below it. */
  lemma {:induction false} SplitAtMost(hs: seq<Hit>, top: nat)
    requires top > 0
    ensures multiset(AtMost(hs, top)) == multiset(Class(hs, top)) + multiset(AtMost(hs, top - 1))
  {
    if hs != [] {
      SplitAtMost(hs[1..], top);
    }
  }

  lemma {:induction false} AtMostZero(hs: seq<Hit>)
    ensures AtMost(hs, 0) == Class(hs, 0)
  {
    if hs != [] {
      AtMostZero(hs[1..]);
    }
  }

  lemma {:induction false} AtMostAll(hs: seq<Hit>, top: nat)
    requires RanksAtMost(hs, top)
    ensures AtMost(hs, top) == hs
  {
    if hs != [] {
      assert RanksAtMost(hs[1..], top) by {
        forall i | 0 <= i < |hs| - 1 ensures Rank(hs[1..][i]) <= top { assert hs[1..][i] == hs[i + 1]; }
      }
      AtMostAll(hs[1..], top);
    }
  }

  lemma {:induction false} SortFromPermutes(hs: seq<Hit>, top: nat)
    ensures multiset(SortFrom(hs, top)) == multiset(AtMost(hs, top))
    decreases top
  {
    if top == 0 {
      AtMostZero(hs);
    } else {
      SortFromPermutes(hs, top - 1);
      SplitAtMost(hs, top);
    }
  }

  /** `results.sort(key=lambda x: -x.get("relevance", 0))` for ranks up to the
      highest: the result is ordered by non-increasing rank, each rank class keeps
      its relative order, and nothing is added or lost. */
  lemma RankSortIsStableSort(hs: seq<Hit>)
    requires RanksAtMost(hs, IndexRank)
    ensures RankOrdered(RankSort(hs))
    ensures forall v: nat :: Class(RankSort(hs), v) == Class(hs, v)
    ensures multiset(RankSort(hs)) == multiset(hs)
  {
    SortFromOrdered(hs, IndexRank);
    forall v: nat ensures Class(RankSort(hs), v) == Class(hs, v) {
      SortFromStable(hs, IndexRank, v);
      if v > IndexRank {
        ClassOfNone(hs, v);
      }
    }
    SortFromPermutes(hs, IndexRank);
    AtMostAll(hs, IndexRank);
  }

  /** A prefix of ranks above `top` does not change the classes from `top` down. */
  lemma {:induction false} SortFromSkipsHigher(p: seq<Hit>, s: seq<Hit>, top: nat)
    requires forall h :: h in p ==> Rank(h) > top
    ensures SortFrom(p + s, top) == SortFrom(s, top)
    decreases top
  {
    var rest := if top == 0 then [] else SortFrom(p + s, top - 1);
    var rest' := if top == 0 then [] else SortFrom(s, top - 1);
    assert SortFrom(p + s, top) == Class(p + s, top) + rest;
    assert SortFrom(s, top) == Class(s, top) + rest';
    ClassConcat(p, s, top);
    ClassOfNone(p, top);
    assert Class(p + s, top) == Class(s, top);
    if top > 0 {
      SortFromSkipsHigher(p, s, top - 1);
      assert rest == rest';
    }
  }

  /** Putting in front a result ranked at least as high as all the others puts it
      in front of the sorted list. */
  lemma {:induction false} SortFromCons(x: Hit, t: seq<Hit>, top: nat)
    requires Rank(x) <= top
    requires forall h :: h in t ==> Rank(h) <= Rank(x)
    ensures SortFrom([x] + t, top) == [x] + SortFrom(t, top)
    decreases top
  {
    if Rank(x) == top {
      ConsAtTop(x, t, top);
    } else {
      SortFromCons(x, t, top - 1);
      ConsBelowTop(x, t, top);
    }
  }

  lemma ConsAtTop(x: Hit, t: seq<Hit>, top: nat)
    requires Rank(x) == top
    ensures SortFrom([x] + t, top) == [x] + SortFrom(t, top)
  {
    var rest := if top == 0 then [] else SortFrom([x] + t, top - 1);
    var rest' := if top == 0 then [] else SortFrom(t, top - 1);
    assert SortFrom([x] + t, top) == Class([x] + t, top) + rest;
    assert SortFrom(t, top) == Class(t, top) + rest';
    ClassCons(x, t, top);
    if top > 0 {
      SortFromSkipsHigher([x], t, top - 1);
    }
    assert rest == rest';
    Associative([x], Class(t, top), rest');
  }

  lemma ConsBelowTop(x: Hit, t: seq<Hit>, top: nat)
    requires Rank(x) < top
    requires forall h :: h in t ==> Rank(h) <= Rank(x)
    requires SortFrom([x] + t, top - 1) == [x] + SortFrom(t, top - 1)
    ensures SortFrom([x] + t, top) == [x] + SortFrom(t, top)
  {
    var rest := SortFrom([x] + t, top - 1);
    var rest' := SortFrom(t, top - 1);
    assert SortFrom([x] + t, top) == Class([x] + t, top) + rest;
    assert SortFrom(t, top) == Class(t, top) + rest';
    ClassCons(x, t, top);
    ClassOfNone(t, top);
    assert Class([x] + t, top) == [] && Class(t, top) == [];
    assert [] + rest == rest && [] + rest' == rest';
  }

  lemma ClassCons(x: Hit, t: seq<Hit>, v: nat)
    ensures Class([x] + t, v) == (if Rank(x) == v then [x] else []) + Class(t, v)
  {
    assert ([x] + t)[0] == x && ([x] + t)[1..] == t;
  }

  lemma Associative<T>(a: seq<T>, b: seq<T>, c: seq<T>)
    ensures (a + b) + c == a + (b + c)
  {
  }

  lemma {:induction false} SortFromEmpty(top: nat)
    ensures SortFrom([], top) == []
  {
    if top > 0 {
      SortFromEmpty(top - 1);
    }
  }

  /** A list already in rank order is left as it is. */
  lemma {:induction false} SortFromOrderedIdentity(hs: seq<Hit>, top: nat)
    requires RankOrdered(hs) && RanksAtMost(hs, top)
    ensures SortFrom(hs, top) == hs
    decreases |hs|
  {
    if hs == [] {
      SortFromEmpty(top);
    } else {
      var t := hs[1..];
      OrderedTail(hs, top);
      SortFromOrderedIdentity(t, top);
      SortFromCons(hs[0], t, top);
      assert [hs[0]] + t == hs;
    }
  }

  /** The tail of an ordered list is ordered and ranked no higher than its head. */
  lemma OrderedTail(hs: seq<Hit>, top: nat)
    requires hs != [] && RankOrdered(hs) && RanksAtMost(hs, top)
    ensures RankOrdered(hs[1..]) && RanksAtMost(hs[1..], top) && Rank(hs[0]) <= top
    ensures forall h :: h in hs[1..] ==> Rank(h) <= Rank(hs[0])
  {
    var t := hs[1..];
    forall i | 0 <= i < |t| ensures t[i] == hs[i + 1] { }
    forall h | h in t ensures Rank(h) <= Rank(hs[0]) {
      var i :| 0 <= i < |t| && t[i] == h;
      assert t[i] == hs[i + 1];
    }
  }

  // ---------------------------------------------------------------------------
  // Properties of `search_rules`.

  /** A query that names a section passes the id pattern. */
  lemma SectionIdIsIdQuery(q: string)
    requires Compiler.SectionIdPattern(q)
    ensures IdQuery(q)
  {
    if |q| == 3 {
      assert q[..3] == q;
      assert RuleRefs.IsRefForm(q);
    } else {
      assert q[..|q| - 1][..3] == q[..3];
      assert RuleRefs.IsRefForm(q[..|q| - 1]);
    }
  }

  /** A 3-digit query naming a section gives that one section, listing the main
      rules among its first ten, in order, with their subrule counts. */
  lemma SectionQueryResult(db: RulesDb, query: string)
    requires db.Valid()
    requires Compiler.SectionIdPattern(Lower(query)) && Lower(query) in db.sections.vals
    ensures var q := Lower(query);
      var s := db.sections.vals[q];
      var r := SearchRules(Some(db), query);
      var f := Filter(MainTest(db.rules.vals), Take(s.rules, SectionPreview));
      && r.Hits? && |r.hits| == 1
      && r.hits[0].SectionHit? && r.hits[0].id == q && r.hits[0].title == s.title
      && |r.hits[0].rules| <= SectionPreview && |r.hits[0].rules| == |f|
      && (forall i :: 0 <= i < |f| ==> IsMain(db.rules.vals, f[i]) && r.hits[0].rules[i] == Summary(f[i], db.rules.vals[f[i]]))
      && (forall x :: x in r.hits[0].rules ==> x.hasSubrules == (x.subruleCount > 0))
  {
    var q := Lower(query);
    SectionIdIsIdQuery(q);
    var s := db.sections.vals[q];
    MainSummariesExact(db.rules.vals, Take(s.rules, SectionPreview));
    assert SearchRules(Some(db), query).hits == [SectionQueryHit(db.rules.vals, q, s)];
  }

  /** A query naming a rule gives that one rule; a subrule carries its parent id,
      and a main rule carries its existing children, in stored order, when it has
      any. */
  lemma ExactRuleResult(db: RulesDb, query: string)
    requires db.Valid()
    requires IdQuery(Lower(query))
    requires !(Compiler.SectionIdPattern(Lower(query)) && Lower(query) in db.sections.vals)
    requires Lower(query) in db.rules.vals
    ensures var q := Lower(query);
      var rules := db.rules.vals;
      var rule := rules[q];
      var r := SearchRules(Some(db), query);
      var f := Filter(PresentTest(rules), rule.subrules);
      && r.Hits? && |r.hits| == 1
      && r.hits[0].RuleHit? && r.hits[0].id == q && r.hits[0].text == rule.text
      && r.hits[0].counts.None? && r.hits[0].relevance.None?
      && (r.hits[0].parentRuleId.Some? <==> rule.isSubrule)
      && (r.hits[0].parentRuleId.Some? ==> r.hits[0].parentRuleId.value == rule.parentRuleId)
      && (r.hits[0].subrules.Some? <==> !rule.isSubrule && f != [])
      && (r.hits[0].subrules.Some? ==>
            |r.hits[0].subrules.value| == |f|
            && forall i :: 0 <= i < |f| ==> f[i] in rules && r.hits[0].subrules.value[i] == Brief(f[i], rules[f[i]].text))
  {
    var q := Lower(query);
    var rule := db.rules.vals[q];
    BriefsExact(db.rules.vals, rule.subrules);
    assert SearchRules(Some(db), query).hits == [ExactHit(db.rules.vals, q)];
  }

  /** The hits of an id-format query, before the final cut. */
  lemma IdBranch(db: RulesDb, query: string)
    requires db.Valid() && IdQuery(Lower(query))
    ensures SearchRules(Some(db), query) == Hits(Take(IdQueryHits(db, Lower(query)), MaxResults))
  {
  }

  /** Otherwise a query in the id format lists the first fifteen rules, in table
      order, whose id starts with the query, a subrule only if the query ends
      with the subrule's last character. */
  lemma PrefixFallbackResult(db: RulesDb, query: string)
    requires db.Valid()
    requires IdQuery(Lower(query))
    requires !(Compiler.SectionIdPattern(Lower(query)) && Lower(query) in db.sections.vals)
    requires Lower(query) !in db.rules.vals
    ensures var q := Lower(query);
      var rules := db.rules.vals;
      var r := SearchRules(Some(db), query);
      var f := Filter(PrefixTest(rules, q), db.rules.keys);
      && r.Hits?
      && |r.hits| == (if |f| < MaxResults then |f| else MaxResults)
      && (forall i :: 0 <= i < |r.hits| ==> PrefixWanted(rules, q, f[i]) && r.hits[i] == ListedHit(f[i], rules[f[i]]))
  {
    var q := Lower(query);
    var all := PrefixHits(db.rules.vals, q, db.rules.keys);
    PrefixHitsExact(db.rules.vals, q, db.rules.keys);
    IdBranch(db, query);
    assert IdQueryHits(db, q) == Take(all, MaxResults);
    assert Take(Take(all, MaxResults), MaxResults) == Take(all, MaxResults);
  }

  lemma PrefixListed(rules: map<string, Rule>, q: string, f: seq<string>, hits: seq<Hit>)
    requires q != [] && |hits| <= |f|
    requires forall i :: 0 <= i < |hits| ==> PrefixWanted(rules, q, f[i]) && hits[i] == ListedHit(f[i], rules[f[i]])
    ensures forall h :: h in hits ==>
      && h.RuleHit? && q <= h.id && h.id in rules
      && (rules[h.id].isSubrule ==> q[|q| - 1] == h.id[|h.id| - 1])
  {
    forall h | h in hits
      ensures h.RuleHit? && q <= h.id && h.id in rules && (rules[h.id].isSubrule ==> q[|q| - 1] == h.id[|h.id| - 1])
    {
      var i :| 0 <= i < |hits| && hits[i] == h;
      assert PrefixWanted(rules, q, f[i]);
    }
  }

  /** Every prefix-fallback hit is a rule whose id starts with the query. */
  lemma PrefixFallbackHits(db: RulesDb, query: string)
    requires db.Valid()
    requires IdQuery(Lower(query))
    requires !(Compiler.SectionIdPattern(Lower(query)) && Lower(query) in db.sections.vals)
    requires Lower(query) !in db.rules.vals
    ensures var q := Lower(query);
      var rules := db.rules.vals;
      forall h :: h in SearchRules(Some(db), query).hits ==>
        && h.RuleHit? && q <= h.id && h.id in rules
        && (rules[h.id].isSubrule ==> q[|q| - 1] == h.id[|h.id| - 1])
  {
    PrefixFallbackResult(db, query);
    PrefixListed(db.rules.vals, Lower(query), Filter(PrefixTest(db.rules.vals, Lower(query)), db.rules.keys), SearchRules(Some(db), query).hits);
  }

  /** What a scan over `ids` appended to `acc`, giving `r`: rules of `ids`
      whose text holds the query, each recorded as a text hit, none with an id
      already among the results before it. */
  ghost predicate ScanAdded(rules: map<string, Rule>, q: string, ids: seq<string>, acc: seq<Hit>, r: seq<Hit>, sub: bool)
  {
    forall j :: |acc| <= j < |r| ==>
      && r[j].id in ids && r[j].id in rules && TextMatches(q, rules[r[j].id])
      && r[j] == TextHit(r[j].id, rules[r[j].id], sub) && !HasId(r[..j], r[j].id)
  }

  lemma ScanAddedSkip(rules: map<string, Rule>, q: string, ids: seq<string>, acc: seq<Hit>, r: seq<Hit>, sub: bool)
    requires ids != [] && ScanAdded(rules, q, ids[1..], acc, r, sub)
    ensures ScanAdded(rules, q, ids, acc, r, sub)
  {
    assert forall x :: x in ids[1..] ==> x in ids;
  }

  lemma ScanAddedTake(rules: map<string, Rule>, q: string, ids: seq<string>, acc: seq<Hit>, r: seq<Hit>, sub: bool)
    requires ids != [] && ids[0] in rules && TextMatches(q, rules[ids[0]]) && !HasId(acc, ids[0])
    requires acc + [TextHit(ids[0], rules[ids[0]], sub)] <= r
    requires ScanAdded(rules, q, ids[1..], acc + [TextHit(ids[0], rules[ids[0]], sub)], r, sub)
    ensures ScanAdded(rules, q, ids, acc, r, sub)
  {
    var k := ids[0];
    var h := TextHit(k, rules[k], sub);
    var next := acc + [h];
    assert forall x :: x in ids[1..] ==> x in ids;
    assert r[|acc|] == next[|acc|] == h && h.id == k;
    assert r[..|acc|] == acc;
  }

  lemma {:induction false} TextScanAdds(rules: map<string, Rule>, q: string, ids: seq<string>, acc: seq<Hit>, sub: bool)
    requires forall k :: k in ids ==> k in rules
    ensures ScanAdded(rules, q, ids, acc, TextScan(rules, q, ids, acc, sub), sub)
    decreases |ids|
  {
    if ids != [] {
      var k := ids[0];
      var t := ids[1..];
      assert forall x :: x in t ==> x in ids;
      if TextMatches(q, rules[k]) && !HasId(acc, k) {
        var next := acc + [TextHit(k, rules[k], sub)];
        if |next| < MaxResults {
          TextScanAdds(rules, q, t, next, sub);
          ScanAddedTake(rules, q, ids, acc, TextScan(rules, q, t, next, sub), sub);
        } else {
          assert ScanAdded(rules, q, t, next, next, sub);
          ScanAddedTake(rules, q, ids, acc, next, sub);
        }
      } else {
        TextScanAdds(rules, q, t, acc, sub);
        ScanAddedSkip(rules, q, ids, acc, TextScan(rules, q, t, acc, sub), sub);
      }
    }
  }

  /** A rule whose text holds the query and whose id no result in acc has. */
  function NewMatchTest(rules: map<string, Rule>, q: string, acc: seq<Hit>): string -> bool
  {
    k => k in rules && TextMatches(q, rules[k]) && !HasId(acc, k)
  }

  /** A scan over ids from acc gave r: acc followed by a text hit for each id
      of ids, in order, whose rule's text holds the query and whose id acc does
      not have, cut off once there are fifteen results. */
  ghost predicate ScanExact(rules: map<string, Rule>, q: string, ids: seq<string>, acc: seq<Hit>, r: seq<Hit>, sub: bool)
  {
    var f := Filter(NewMatchTest(rules, q, acc), ids);
    && acc <= r
    && |r| == |acc| + (if |f| < MaxResults - |acc| then |f| else MaxResults - |acc|)
    && forall i :: 0 <= i < |r| - |acc| ==> f[i] in rules && r[|acc| + i] == TextHit(f[i], rules[f[i]], sub)
  }

  lemma HasIdSnoc(acc: seq<Hit>, h: Hit, x: string)
    ensures HasId(acc + [h], x) <==> HasId(acc, x) || h.id == x
  {
    if HasId(acc + [h], x) {
      var i :| 0 <= i < |acc + [h]| && (acc + [h])[i].id == x;
      if i < |acc| { assert acc[i] == (acc + [h])[i]; }
    }
    if HasId(acc, x) {
      var i :| 0 <= i < |acc| && acc[i].id == x;
      assert (acc + [h])[i] == acc[i];
    }
    if h.id == x { assert (acc + [h])[|acc|] == h; }
  }

  /** Adding a hit for k does not change which other ids are new. */
  lemma NewMatchSnoc(rules: map<string, Rule>, q: string, acc: seq<Hit>, h: Hit, t: seq<string>)
    requires h.id !in t
    ensures Filter(NewMatchTest(rules, q, acc + [h]), t) == Filter(NewMatchTest(rules, q, acc), t)
  {
    forall x | x in t ensures NewMatchTest(rules, q, acc + [h])(x) == NewMatchTest(rules, q, acc)(x) {
      HasIdSnoc(acc, h, x);
    }
    FilterSame(NewMatchTest(rules, q, acc + [h]), NewMatchTest(rules, q, acc), t);
  }

  /** Over distinct ids, the scan finds every new rule whose text holds the
      query, in scan order, until the results reach fifteen. */
  lemma {:induction false} TextScanExact(rules: map<string, Rule>, q: string, ids: seq<string>, acc: seq<Hit>, sub: bool)
    requires forall k :: k in ids ==> k in rules
    requires Distinct(ids) && |acc| < MaxResults
    ensures ScanExact(rules, q, ids, acc, TextScan(rules, q, ids, acc, sub), sub)
    decreases |ids|
  {
    if ids != [] {
      var k := ids[0];
      var t := ids[1..];
      DistinctTail(ids);
      if TextMatches(q, rules[k]) && !HasId(acc, k) {
        var next := acc + [TextHit(k, rules[k], sub)];
        if |next| < MaxResults {
          TextScanExact(rules, q, t, next, sub);
          ScanExactTake(rules, q, ids, acc, TextScan(rules, q, t, next, sub), sub);
        } else {
          ScanExactLast(rules, q, ids, acc, sub);
        }
      } else {
        TextScanExact(rules, q, t, acc, sub);
        ScanExactSkip(rules, q, ids, acc, TextScan(rules, q, t, acc, sub), sub);
      }
    }
  }

  lemma DistinctTail(ids: seq<string>)
    requires ids != [] && Distinct(ids)
    ensures Distinct(ids[1..]) && ids[0] !in ids[1..]
    ensures forall x :: x in ids[1..] ==> x in ids
  {
    var t := ids[1..];
    forall i, j | 0 <= i < j < |t| ensures t[i] != t[j] { assert t[i] == ids[i + 1] && t[j] == ids[j + 1]; }
    forall j | 0 <= j < |t| ensures t[j] != ids[0] { assert t[j] == ids[j + 1]; }
  }

  /** An id that is not a new match leaves the scan as it was. */
  lemma ScanExactSkip(rules: map<string, Rule>, q: string, ids: seq<string>, acc: seq<Hit>, r: seq<Hit>, sub: bool)
    requires ids != [] && ids[0] in rules && !(TextMatches(q, rules[ids[0]]) && !HasId(acc, ids[0]))
    requires ScanExact(rules, q, ids[1..], acc, r, sub)
    ensures ScanExact(rules, q, ids, acc, r, sub)
  {
    var test := NewMatchTest(rules, q, acc);
    assert Filter(test, ids) == Filter(test, ids[1..]);
  }

  /** The hit that makes fifteen ends the scan. */
  lemma ScanExactLast(rules: map<string, Rule>, q: string, ids: seq<string>, acc: seq<Hit>, sub: bool)
    requires ids != [] && ids[0] in rules && TextMatches(q, rules[ids[0]]) && !HasId(acc, ids[0])
    requires |acc| + 1 == MaxResults
    ensures ScanExact(rules, q, ids, acc, acc + [TextHit(ids[0], rules[ids[0]], sub)], sub)
  {
    var test := NewMatchTest(rules, q, acc);
    assert Filter(test, ids)[0] == ids[0];
  }

  /** A new match is appended, and the rest of the scan goes on from there. */
  lemma ScanExactTake(rules: map<string, Rule>, q: string, ids: seq<string>, acc: seq<Hit>, r: seq<Hit>, sub: bool)
    requires ids != [] && ids[0] !in ids[1..]
    requires ids[0] in rules && TextMatches(q, rules[ids[0]]) && !HasId(acc, ids[0])
    requires |acc| + 1 < MaxResults
    requires ScanExact(rules, q, ids[1..], acc + [TextHit(ids[0], rules[ids[0]], sub)], r, sub)
    ensures ScanExact(rules, q, ids, acc, r, sub)
  {
    var k := ids[0];
    var h := TextHit(k, rules[k], sub);
    NewMatchSnoc(rules, q, acc, h, ids[1..]);
    var g := Filter(NewMatchTest(rules, q, acc + [h]), ids[1..]);
    assert Filter(NewMatchTest(rules, q, acc), ids) == [k] + g;
    TakeShifted(rules, acc, h, r, g, sub);
  }

  /** Index arithmetic of ScanExactTake: r continues acc with h and then the
      hits for g, so it continues acc with the hits for h's id followed by g. */
  lemma TakeShifted(rules: map<string, Rule>, acc: seq<Hit>, h: Hit, r: seq<Hit>, g: seq<string>, sub: bool)
    requires |acc| + 1 < MaxResults && h.id in rules && h == TextHit(h.id, rules[h.id], sub)
    requires acc + [h] <= r
    requires |r| == |acc| + 1 + (if |g| < MaxResults - (|acc| + 1) then |g| else MaxResults - (|acc| + 1))
    requires forall i :: 0 <= i < |r| - (|acc| + 1) ==> g[i] in rules && r[|acc| + 1 + i] == TextHit(g[i], rules[g[i]], sub)
    ensures var f := [h.id] + g;
      && acc <= r
      && |r| == |acc| + (if |f| < MaxResults - |acc| then |f| else MaxResults - |acc|)
      && forall i :: 0 <= i < |r| - |acc| ==> f[i] in rules && r[|acc| + i] == TextHit(f[i], rules[f[i]], sub)
  {
    var f := [h.id] + g;
    assert r[..|acc|] == (acc + [h])[..|acc|] == acc;
    forall i | 0 <= i < |r| - |acc| ensures f[i] in rules && r[|acc| + i] == TextHit(f[i], rules[f[i]], sub) {
      if i == 0 { assert r[|acc|] == (acc + [h])[|acc|] == h; }
      else { assert f[i] == g[i - 1]; }
    }
  }

  /** The scan of main rules adds main-rule text hits with new ids. */
  lemma MainScanShape(db: RulesDb, q: string)
    requires db.Valid()
    ensures var rules := db.rules.vals;
      var a := KeywordHits(db, q);
      var b := MainScanned(db, q);
      && a <= b
      && (|a| >= FewResults ==> b == a)
      && (forall j :: |a| <= j < |b| ==>
            && b[j].RuleHit? && !b[j].isSubrule && Rank(b[j]) == MainTextRank
            && IsMain(rules, b[j].id) && TextMatches(q, rules[b[j].id]) && !HasId(b[..j], b[j].id))
  {
    var rules := db.rules.vals;
    var a := KeywordHits(db, q);
    if |a| < FewResults {
      var ids := MainScanIds(db);
      var b := TextScan(rules, q, ids, a, false);
      TextScanAdds(rules, q, ids, a, false);
      forall j | |a| <= j < |b|
        ensures b[j].RuleHit? && !b[j].isSubrule && Rank(b[j]) == MainTextRank
        ensures IsMain(rules, b[j].id) && TextMatches(q, rules[b[j].id]) && !HasId(b[..j], b[j].id)
      {
        var k := b[j].id;
        assert k in ids && b[j] == TextHit(k, rules[k], false);
      }
    }
  }

  /** The scan of subrules adds subrule text hits with new ids. */
  lemma SubScanShape(db: RulesDb, q: string)
    requires db.Valid()
    ensures var rules := db.rules.vals;
      var a := KeywordHits(db, q);
      var b := MainScanned(db, q);
      var c := KeywordCandidates(db, q);
      && b <= c
      && (|a| >= FewResults || |b| >= FewResults ==> c == b)
      && (forall j :: |b| <= j < |c| ==>
            && c[j].RuleHit? && c[j].isSubrule && Rank(c[j]) == SubruleTextRank
            && IsSubruleIn(rules, c[j].id) && TextMatches(q, rules[c[j].id]) && !HasId(c[..j], c[j].id))
  {
    var rules := db.rules.vals;
    var a := KeywordHits(db, q);
    var b := MainScanned(db, q);
    if |a| < FewResults && |b| < FewResults {
      var ids := SubruleScanIds(db);
      var c := TextScan(rules, q, ids, b, true);
      TextScanAdds(rules, q, ids, b, true);
      forall j | |b| <= j < |c|
        ensures c[j].RuleHit? && c[j].isSubrule && Rank(c[j]) == SubruleTextRank
        ensures IsSubruleIn(rules, c[j].id) && TextMatches(q, rules[c[j].id]) && !HasId(c[..j], c[j].id)
      {
        var k := c[j].id;
        assert k in ids && c[j] == TextHit(k, rules[k], true);
      }
    }
  }

  /** The keyword branch before the sort: index and title hits; then, only with
      fewer than five, main rules whose text holds the query; then, only with
      still fewer than five, subrules whose text holds it. No text hit repeats
      an id already in the results. */
  lemma KeywordCandidatesShape(db: RulesDb, q: string)
    requires db.Valid()
    ensures var rules := db.rules.vals;
      var a := KeywordHits(db, q);
      var b := MainScanned(db, q);
      var c := KeywordCandidates(db, q);
      && a <= b <= c
      && (|a| >= FewResults ==> c == a)
      && (|b| >= FewResults ==> c == b)
      && (forall j :: |a| <= j < |b| ==>
            && b[j].RuleHit? && !b[j].isSubrule && Rank(b[j]) == MainTextRank
            && IsMain(rules, b[j].id) && TextMatches(q, rules[b[j].id]) && !HasId(b[..j], b[j].id))
      && (forall j :: |b| <= j < |c| ==>
            && c[j].RuleHit? && c[j].isSubrule && Rank(c[j]) == SubruleTextRank
            && IsSubruleIn(rules, c[j].id) && TextMatches(q, rules[c[j].id]) && !HasId(c[..j], c[j].id))
    ensures TitlesFollow(db.rules.vals, db.sections.vals, IndexHits(db.rules.vals, IndexIds(db, q)),
                         Filter(TitleTest(db.sections.vals, q), db.sections.keys), KeywordHits(db, q))
    ensures var rules := db.rules.vals;
      var a := KeywordHits(db, q);
      var b := MainScanned(db, q);
      var c := KeywordCandidates(db, q);
      && (|a| < FewResults ==> ScanExact(rules, q, MainScanIds(db), a, b, false))
      && (|a| < FewResults && |b| < FewResults ==> ScanExact(rules, q, SubruleScanIds(db), b, c, true))
  {
    MainScanShape(db, q);
    SubScanShape(db, q);
    KeywordHitsExact(db, q);
    MainScanExact(db, q);
    SubScanExact(db, q);
  }

  /** `a` is `ih` followed by one title hit per section id in `ts`, in order. */
  ghost predicate TitlesFollow(rules: map<string, Rule>, sections: map<string, Section>, ih: seq<Hit>, ts: seq<string>, a: seq<Hit>)
  {
    && |a| == |ih| + |ts| && ih <= a
    && forall i :: 0 <= i < |ts| ==> ts[i] in sections && a[|ih| + i] == TitleHit(rules, ts[i], sections[ts[i]])
  }

  /** The title hits follow the index hits, one per matching section in section order. */
  lemma KeywordHitsExact(db: RulesDb, q: string)
    requires db.Valid()
    ensures TitlesFollow(db.rules.vals, db.sections.vals, IndexHits(db.rules.vals, IndexIds(db, q)),
                         Filter(TitleTest(db.sections.vals, q), db.sections.keys), KeywordHits(db, q))
  {
    var rules := db.rules.vals;
    var sections := db.sections.vals;
    TitleHitsExact(rules, sections, q, db.sections.keys);
    TitlesAfter(IndexHits(rules, IndexIds(db, q)), TitleHits(rules, sections, q, db.sections.keys),
                Filter(TitleTest(sections, q), db.sections.keys), rules, sections);
  }

  lemma TitlesAfter(ih: seq<Hit>, th: seq<Hit>, ts: seq<string>, rules: map<string, Rule>, sections: map<string, Section>)
    requires |th| == |ts|
    requires forall i :: 0 <= i < |th| ==> ts[i] in sections && th[i] == TitleHit(rules, ts[i], sections[ts[i]])
    ensures TitlesFollow(rules, sections, ih, ts, ih + th)
  {
    assert (ih + th)[..|ih|] == ih;
  }

  /** The ids the scans walk are distinct, as table keys are. */
  lemma ScanIdsDistinct(db: RulesDb)
    requires db.Valid()
    ensures Distinct(MainScanIds(db)) && Distinct(SubruleScanIds(db))
  {
    assert Distinct(db.rules.keys);
    FilterDistinct(MainTest(db.rules.vals), db.rules.keys);
    FilterDistinct(SubruleTest(db.rules.vals), db.rules.keys);
    TakeDistinct(Filter(MainTest(db.rules.vals), db.rules.keys), MainScanLimit);
    TakeDistinct(Filter(SubruleTest(db.rules.vals), db.rules.keys), SubruleScanLimit);
  }

  lemma TakeDistinct(s: seq<string>, n: nat)
    requires Distinct(s)
    ensures Distinct(Take(s, n))
  {
    var t := Take(s, n);
    forall i, j | 0 <= i < j < |t| ensures t[i] != t[j] { assert t[i] == s[i] && t[j] == s[j]; }
  }

  /** With fewer than five results, the main-rule scan adds exactly the first
      matching main rules with new ids, in table order, up to fifteen results. */
  lemma MainScanExact(db: RulesDb, q: string)
    requires db.Valid()
    ensures var a := KeywordHits(db, q);
      |a| < FewResults ==> ScanExact(db.rules.vals, q, MainScanIds(db), a, MainScanned(db, q), false)
  {
    var a := KeywordHits(db, q);
    if |a| < FewResults {
      ScanIdsDistinct(db);
      var ids := MainScanIds(db);
      assert forall k :: k in ids ==> k in db.rules.vals;
      TextScanExact(db.rules.vals, q, ids, a, false);
    }
  }

  /** With still fewer than five, the subrule scan adds exactly the first
      matching subrules with new ids, in table order, up to fifteen results. */
  lemma SubScanExact(db: RulesDb, q: string)
    requires db.Valid()
    ensures var a := KeywordHits(db, q);
      var b := MainScanned(db, q);
      |a| < FewResults && |b| < FewResults ==> ScanExact(db.rules.vals, q, SubruleScanIds(db), b, KeywordCandidates(db, q), true)
  {
    var a := KeywordHits(db, q);
    var b := MainScanned(db, q);
    if |a| < FewResults && |b| < FewResults {
      ScanIdsDistinct(db);
      var ids := SubruleScanIds(db);
      assert forall k :: k in ids ==> k in db.rules.vals;
      TextScanExact(db.rules.vals, q, ids, b, true);
    }
  }

  lemma IndexHitRanks(rules: map<string, Rule>, ids: seq<string>)
    ensures forall j :: 0 <= j < |IndexHits(rules, ids)| ==> Rank(IndexHits(rules, ids)[j]) == IndexRank
  {
    var r := IndexHits(rules, ids);
    forall j | 0 <= j < |r| ensures Rank(r[j]) == IndexRank { assert r[j] in r; }
  }

  lemma TitleHitRanks(rules: map<string, Rule>, sections: map<string, Section>, q: string, sids: seq<string>)
    requires forall k :: k in sids ==> k in sections
    ensures forall j :: 0 <= j < |TitleHits(rules, sections, q, sids)| ==> Rank(TitleHits(rules, sections, q, sids)[j]) == TitleRank
  {
    var r := TitleHits(rules, sections, q, sids);
    forall j | 0 <= j < |r| ensures Rank(r[j]) == TitleRank { assert r[j] in r; }
  }

  /** A list made of a run at each of the four ranks, highest first, is in rank
      order. */
  lemma FourRunsOrdered(c: seq<Hit>, n1: nat, n2: nat, n3: nat)
    requires n1 <= n2 <= n3 <= |c|
    requires forall j :: 0 <= j < n1 ==> Rank(c[j]) == IndexRank
    requires forall j :: n1 <= j < n2 ==> Rank(c[j]) == TitleRank
    requires forall j :: n2 <= j < n3 ==> Rank(c[j]) == MainTextRank
    requires forall j :: n3 <= j < |c| ==> Rank(c[j]) == SubruleTextRank
    ensures RankOrdered(c) && RanksAtMost(c, IndexRank)
  {
  }

  lemma RanksCarry(p: seq<Hit>, c: seq<Hit>, lo: nat, v: nat)
    requires p <= c && lo <= |p|
    requires forall j :: lo <= j < |p| ==> Rank(p[j]) == v
    ensures forall j :: lo <= j < |p| ==> Rank(c[j]) == v
  {
    forall j | lo <= j < |p| ensures Rank(c[j]) == v { assert c[j] == p[j]; }
  }

  lemma ConcatRanks(a: seq<Hit>, b: seq<Hit>, v: nat)
    requires forall j :: 0 <= j < |b| ==> Rank(b[j]) == v
    ensures forall j :: |a| <= j < |a + b| ==> Rank((a + b)[j]) == v
  {
    forall j | |a| <= j < |a + b| ensures Rank((a + b)[j]) == v { assert (a + b)[j] == b[j - |a|]; }
  }

  /** The candidates are already in rank order: index hits, title hits, main-rule
      text hits, subrule text hits. */
  lemma KeywordCandidatesOrdered(db: RulesDb, q: string)
    requires db.Valid()
    ensures RankOrdered(KeywordCandidates(db, q)) && RanksAtMost(KeywordCandidates(db, q), IndexRank)
  {
    var rules := db.rules.vals;
    var ih := IndexHits(rules, IndexIds(db, q));
    var th := TitleHits(rules, db.sections.vals, q, db.sections.keys);
    var a := KeywordHits(db, q);
    var b := MainScanned(db, q);
    var c := KeywordCandidates(db, q);
    MainScanShape(db, q);
    SubScanShape(db, q);
    assert a == ih + th;
    IndexHitRanks(rules, IndexIds(db, q));
    RanksCarry(ih, c, 0, IndexRank);
    TitleHitRanks(rules, db.sections.vals, q, db.sections.keys);
    ConcatRanks(ih, th, TitleRank);
    RanksCarry(a, c, |ih|, TitleRank);
    RanksCarry(b, c, |a|, MainTextRank);
    FourRunsOrdered(c, |ih|, |a|, |b|);
  }

  /** The sort in the keyword branch never changes the order of the results. */
  lemma KeywordSortKeepsOrder(db: RulesDb, q: string)
    requires db.Valid()
    ensures KeywordQueryHits(db, q) == KeywordCandidates(db, q)
    ensures RankOrdered(KeywordQueryHits(db, q))
  {
    KeywordCandidatesOrdered(db, q);
    SortFromOrderedIdentity(KeywordCandidates(db, q), IndexRank);
  }

  /** A keyword query lists at most fifteen results in non-increasing relevance,
      the first of them taken from the index's first fifteen ids. */
  lemma KeywordQueryResult(db: RulesDb, query: string)
    requires db.Valid()
    requires !IdQuery(Lower(query))
    ensures var q := Lower(query);
      var r := SearchRules(Some(db), query);
      && r.Hits? && RankOrdered(r.hits)
      && r.hits == Take(KeywordCandidates(db, q), MaxResults)
      && IndexHits(db.rules.vals, IndexIds(db, q)) <= r.hits
  {
    var q := Lower(query);
    KeywordSortKeepsOrder(db, q);
    var c := KeywordCandidates(db, q);
    assert SearchRules(Some(db), query).hits == Take(c, MaxResults);
    IndexHitsLead(db, q);
    TakeOrdered(c, MaxResults);
  }

  /** The index hits come first among the candidates, and there are at most
      fifteen of them. */
  lemma IndexHitsLead(db: RulesDb, q: string)
    requires db.Valid()
    ensures var ih := IndexHits(db.rules.vals, IndexIds(db, q));
      |ih| <= MaxResults && ih <= KeywordCandidates(db, q)
  {
    MainScanShape(db, q);
    SubScanShape(db, q);
    assert IndexHits(db.rules.vals, IndexIds(db, q)) <= KeywordHits(db, q);
  }

  lemma TakeOrdered(c: seq<Hit>, n: nat)
    requires RankOrdered(c)
    ensures RankOrdered(Take(c, n))
  {
    var t := Take(c, n);
    forall i, j | 0 <= i < j < |t| ensures Rank(t[i]) >= Rank(t[j]) { assert t[i] == c[i] && t[j] == c[j]; }
  }

  // ---------------------------------------------------------------------------
  // Properties of `get_section`, `get_rule`, `search_glossary` and
  // `get_commander_rules`.

  /** The empty filter: no element passes the test. */
  lemma FilterEmpty<T(!new)>(f: T -> bool, s: seq<T>)
    ensures Filter(f, s) == [] <==> forall x :: x in s ==> !f(x)
  {
    if Filter(f, s) != [] {
      assert Filter(f, s)[0] in Filter(f, s);
    }
  }

  /** A rule in the section view: its counts agree, and `subrules` is present
      exactly when the rule lists any, holding those that exist, in order. */
  lemma ViewOfShape(rules: map<string, Rule>, k: string, r: Rule)
    ensures var v := ViewOf(rules, k, r);
      var f := Filter(PresentTest(rules), r.subrules);
      && v.id == k && v.text == r.text && v.relatedRules == r.relatedRules
      && v.subruleCount == |r.subrules| && v.hasSubrules == (v.subruleCount > 0)
      && (v.subrules.Some? <==> r.subrules != [])
      && (v.subrules.Some? ==>
            |v.subrules.value| == |f|
            && forall i :: 0 <= i < |f| ==> f[i] in rules && v.subrules.value[i] == Brief(f[i], rules[f[i]].text))
  {
    BriefsExact(rules, r.subrules);
  }

  /** `get_section` lists, in the section's order, the view of each of its
      rules that exists and is not a subrule. */
  lemma SectionViewResult(db: RulesDb, sid: string)
    requires sid in db.sections.vals
    ensures var s := db.sections.vals[sid];
      var rules := db.rules.vals;
      var v := GetSection(Some(db), sid);
      var f := Filter(MainTest(rules), s.rules);
      && v.SectionView? && v.id == sid && v.title == s.title
      && |v.rules| == |f|
      && forall i :: 0 <= i < |f| ==> IsMain(rules, f[i]) && v.rules[i] == ViewOf(rules, f[i], rules[f[i]])
  {
    SectionViewsExact(db.rules.vals, db.sections.vals[sid].rules);
  }

  /** No sibling list: every other listed id is missing. */
  lemma {:induction false} SiblingsEmpty(rules: map<string, Rule>, ids: seq<string>, self: string)
    ensures Siblings(rules, ids, self) == [] <==> forall x :: x in ids ==> x == self || x !in rules
  {
    if ids != [] {
      SiblingsEmpty(rules, ids[1..], self);
      assert forall x :: x in ids <==> x == ids[0] || x in ids[1..];
    }
  }

  /** `get_rule` on a subrule with an existing parent: the parent and its other
      existing subrules, never the rule's own children. */
  lemma RuleDetailParent(db: RulesDb, k: string)
    requires k in db.rules.vals
    ensures var rules := db.rules.vals;
      var r := rules[k];
      var d := GetRule(Some(db), k);
      && d.RuleDetail? && d.id == k && d.text == r.text && d.sectionId == r.sectionId
      && d.sectionTitle == r.sectionTitle && d.relatedRules == r.relatedRules && d.isSubrule == r.isSubrule
      && (d.parentRule.Some? <==> HasParentLink(r) && r.parentRuleId.value in rules)
      && (d.parentRule.Some? ==>
            d.parentRule.value.id == r.parentRuleId.value && d.parentRule.value.text == rules[d.parentRule.value.id].text)
      && (d.siblingSubrules.Some? ==> d.parentRule.Some?)
      && (d.parentRule.Some? ==>
            (d.siblingSubrules.None? <==> forall x :: x in rules[d.parentRule.value.id].subrules ==> x == k || x !in rules))
      && (d.siblingSubrules.Some? ==> forall b :: b in d.siblingSubrules.value ==>
            b.id != k && b.id in rules[d.parentRule.value.id].subrules && b.id in rules && b.text == rules[b.id].text)
      && (d.subrules.Some? ==> !HasParentLink(r))
  {
    var rules := db.rules.vals;
    var r := rules[k];
    if HasParentLink(r) && r.parentRuleId.value in rules {
      SiblingsEmpty(rules, rules[r.parentRuleId.value].subrules, k);
    }
  }

  /** `get_rule` on any other rule: its existing children, in order, when it has
      any. */
  lemma RuleDetailChildren(db: RulesDb, k: string)
    requires k in db.rules.vals && !HasParentLink(db.rules.vals[k])
    ensures var rules := db.rules.vals;
      var r := rules[k];
      var d := GetRule(Some(db), k);
      var f := Filter(PresentTest(rules), r.subrules);
      && d.RuleDetail? && d.parentRule.None? && d.siblingSubrules.None?
      && (d.subrules.Some? <==> f != [])
      && (d.subrules.Some? ==>
            |d.subrules.value| == |f|
            && forall i :: 0 <= i < |f| ==> f[i] in rules && d.subrules.value[i] == Brief(f[i], rules[f[i]].text))
  {
    var r := db.rules.vals[k];
    BriefsExact(db.rules.vals, r.subrules);
    FilterEmpty(PresentTest(db.rules.vals), r.subrules);
    BriefsEmpty(db.rules.vals, r.subrules);
  }

  /** `referenced_rules` lists, in order, the related rules that exist, and is
      present exactly when one does. */
  lemma RuleDetailReferences(db: RulesDb, k: string)
    requires k in db.rules.vals
    ensures var rules := db.rules.vals;
      var r := rules[k];
      var d := GetRule(Some(db), k);
      var f := Filter(PresentTest(rules), r.relatedRules);
      && d.RuleDetail?
      && (d.referencedRules.Some? <==> f != [])
      && (d.referencedRules.Some? ==>
            |d.referencedRules.value| == |f|
            && forall i :: 0 <= i < |f| ==>
                 f[i] in rules && d.referencedRules.value[i] == RefBrief(f[i], rules[f[i]].text, rules[f[i]].isSubrule))
  {
    var rules := db.rules.vals;
    var r := rules[k];
    RefBriefsExact(rules, r.relatedRules);
    if r.relatedRules == [] {
      assert Filter(PresentTest(rules), r.relatedRules) == [];
    }
  }

  /** A glossary hit is a copy of the entry, with the existing related rules
      attached, in order, when there are some. */
  lemma GlossaryHitShape(rules: map<string, Rule>, e: GlossaryEntry)
    ensures var h := GlossaryHitOf(rules, e);
      var f := Filter(PresentTest(rules), e.relatedRules);
      && h.entry == e
      && (h.ruleReferences.Some? <==> f != [])
      && (h.ruleReferences.Some? ==>
            |h.ruleReferences.value| == |f|
            && forall i :: 0 <= i < |f| ==> f[i] in rules && h.ruleReferences.value[i] == Brief(f[i], rules[f[i]].text))
  {
    BriefsExact(rules, e.relatedRules);
    if e.relatedRules == [] {
      assert Filter(PresentTest(rules), e.relatedRules) == [];
    }
  }

  /** `search_glossary` returns, in glossary order, a hit for every term whose
      key or lower-cased definition holds the lower-cased query. */
  lemma GlossaryResult(db: RulesDb, query: string)
    requires db.Valid() && db.glossary.Some?
    ensures var g := db.glossary.value;
      var q := Lower(query);
      var r := SearchGlossary(Some(db), query);
      var f := Filter(GlossaryTest(g.vals, q), g.keys);
      && |r| == |f|
      && forall i :: 0 <= i < |f| ==>
           f[i] in g.vals && GlossaryMatches(q, f[i], g.vals[f[i]]) && r[i] == GlossaryHitOf(db.rules.vals, g.vals[f[i]])
  {
    var g := db.glossary.value;
    GlossaryHitsExact(g.vals, db.rules.vals, Lower(query), g.keys);
  }

  /** `get_commander_rules`: the view of section 903 and, when there are some,
      the indexed "commander" rules outside 903 that exist and are main rules,
      in index order. */
  lemma CommanderResult(db: RulesDb)
    ensures var v := CommanderRules(db);
      var rules := db.rules.vals;
      var f := Filter(CommanderTest(rules), CommanderIds(db));
      && v.section == GetSection(Some(db), CommanderSection)
      && (v.additionalRules.Some? <==> exists k :: k in CommanderIds(db) && CommanderWanted(rules, k))
      && (v.additionalRules.Some? ==>
            |v.additionalRules.value| == |f|
            && forall i :: 0 <= i < |f| ==>
                 && !(CommanderSection <= f[i]) && IsMain(rules, f[i])
                 && v.additionalRules.value[i] == CommanderRule(f[i], rules[f[i]].text, rules[f[i]].sectionId, rules[f[i]].sectionTitle))
  {
    var rules := db.rules.vals;
    CommanderExtrasExact(rules, CommanderIds(db));
    FilterEmpty(CommanderTest(rules), CommanderIds(db));
  }
}
