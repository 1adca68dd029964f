/** The rules service (`JsonRulesService`): the database it holds, its lazy
    load, and the loops behind each query. Every loop is proved to compute the
    matching function of module Queries, where the properties of the results
    are proved. Reading the JSON file is a parameter: a `LoadSource` says what
    opening and parsing it would give at the time of the call. */
module RuleService {
  import opened Text
  import opened OrderedMaps
  import opened RulesModel
  import Compiler
  import opened Queries

  /** What `os.path.exists` and `json.load` give for the database file. */
  datatype LoadSource = Missing | Unreadable | Parsed(db: RulesDb)

  /** The dictionaries `load_db` returns. */
  datatype LoadStatus = AlreadyLoaded | LoadedOk | DatabaseNotFound | LoadFailed

  /** The database after a lazy load: the one held, or else what the file gives. */
  function AfterLoad(db: Option<RulesDb>, src: LoadSource): (r: Option<RulesDb>)
    ensures db.Some? ==> r == db
    ensures db.None? ==> (r.Some? <==> src.Parsed?)
  {
    if db.Some? then db else if src.Parsed? then Some(src.db) else None
  }

  // ---------------------------------------------------------------------------
  // One step of each loop: the list function at `ids[i..]` unfolded once.

  lemma Shift<T>(out: seq<T>, h: seq<T>, rest: seq<T>, all: seq<T>)
    requires out + (h + rest) == all
    ensures (out + h) + rest == all
  {
    assert (out + h) + rest == out + (h + rest);
  }

  lemma SummariesAt(rules: map<string, Rule>, ids: seq<string>, i: nat)
    requires i < |ids|
    ensures MainSummaries(rules, ids[i..])
      == (if IsMain(rules, ids[i]) then [Summary(ids[i], rules[ids[i]])] else []) + MainSummaries(rules, ids[i + 1..])
  {
    assert ids[i..][1..] == ids[i + 1..];
  }

  lemma BriefsAt(rules: map<string, Rule>, ids: seq<string>, i: nat)
    requires i < |ids|
    ensures Briefs(rules, ids[i..])
      == (if ids[i] in rules then [Brief(ids[i], rules[ids[i]].text)] else []) + Briefs(rules, ids[i + 1..])
  {
    assert ids[i..][1..] == ids[i + 1..];
  }

  lemma PrefixAt(rules: map<string, Rule>, q: string, ids: seq<string>, i: nat)
    requires i < |ids|
    ensures PrefixHits(rules, q, ids[i..])
      == (if PrefixWanted(rules, q, ids[i]) then [ListedHit(ids[i], rules[ids[i]])] else []) + PrefixHits(rules, q, ids[i + 1..])
  {
    assert ids[i..][1..] == ids[i + 1..];
  }

  lemma IndexAt(rules: map<string, Rule>, ids: seq<string>, i: nat)
    requires i < |ids|
    ensures IndexHits(rules, ids[i..])
      == (if ids[i] in rules then [IndexHit(ids[i], rules[ids[i]])] else []) + IndexHits(rules, ids[i + 1..])
  {
    assert ids[i..][1..] == ids[i + 1..];
  }

  lemma TitlesAt(rules: map<string, Rule>, sections: map<string, Section>, q: string, sids: seq<string>, i: nat)
    requires i < |sids| && forall k :: k in sids ==> k in sections
    ensures forall k :: k in sids[i..] ==> k in sections
    ensures forall k :: k in sids[i + 1..] ==> k in sections
    ensures TitleHits(rules, sections, q, sids[i..])
      == (if TitleMatches(q, sections[sids[i]]) then [TitleHit(rules, sids[i], sections[sids[i]])] else [])
         + TitleHits(rules, sections, q, sids[i + 1..])
  {
    assert sids[i..][1..] == sids[i + 1..];
    assert forall k :: k in sids[i..] ==> k in sids;
    assert forall k :: k in sids[i + 1..] ==> k in sids;
  }

  lemma ViewsAt(rules: map<string, Rule>, ids: seq<string>, i: nat)
    requires i < |ids|
    ensures SectionViews(rules, ids[i..])
      == (if IsMain(rules, ids[i]) then [ViewOf(rules, ids[i], rules[ids[i]])] else []) + SectionViews(rules, ids[i + 1..])
  {
    assert ids[i..][1..] == ids[i + 1..];
  }

  lemma SiblingsAt(rules: map<string, Rule>, ids: seq<string>, self: string, i: nat)
    requires i < |ids|
    ensures Siblings(rules, ids[i..], self)
      == (if ids[i] != self && ids[i] in rules then [Brief(ids[i], rules[ids[i]].text)] else []) + Siblings(rules, ids[i + 1..], self)
  {
    assert ids[i..][1..] == ids[i + 1..];
  }

  lemma RefsAt(rules: map<string, Rule>, ids: seq<string>, i: nat)
    requires i < |ids|
    ensures RefBriefs(rules, ids[i..])
      == (if ids[i] in rules then [RefBrief(ids[i], rules[ids[i]].text, rules[ids[i]].isSubrule)] else [])
         + RefBriefs(rules, ids[i + 1..])
  {
    assert ids[i..][1..] == ids[i + 1..];
  }

  lemma GlossaryAt(g: map<string, GlossaryEntry>, rules: map<string, Rule>, q: string, keys: seq<string>, i: nat)
    requires i < |keys| && forall k :: k in keys ==> k in g
    ensures forall k :: k in keys[i..] ==> k in g
    ensures forall k :: k in keys[i + 1..] ==> k in g
    ensures GlossaryHits(g, rules, q, keys[i..])
      == (if GlossaryMatches(q, keys[i], g[keys[i]]) then [GlossaryHitOf(rules, g[keys[i]])] else [])
         + GlossaryHits(g, rules, q, keys[i + 1..])
  {
    assert keys[i..][1..] == keys[i + 1..];
    assert forall k :: k in keys[i..] ==> k in keys;
    assert forall k :: k in keys[i + 1..] ==> k in keys;
  }

  lemma CommanderAt(rules: map<string, Rule>, ids: seq<string>, i: nat)
    requires i < |ids|
    ensures CommanderExtras(rules, ids[i..])
      == (if CommanderWanted(rules, ids[i])
          then [CommanderRule(ids[i], rules[ids[i]].text, rules[ids[i]].sectionId, rules[ids[i]].sectionTitle)]
          else [])
         + CommanderExtras(rules, ids[i + 1..])
  {
    assert ids[i..][1..] == ids[i + 1..];
  }

  // ---------------------------------------------------------------------------
  // The loops of `search_rules`.

  /** `for rule_id in ids: if rule_id in rules and not is_subrule: append(summary)` */
  method SummaryList(rules: map<string, Rule>, ids: seq<string>) returns (out: seq<RuleSummary>)
    ensures out == MainSummaries(rules, ids)
  {
    out := [];
    for i := 0 to |ids|
      invariant out + MainSummaries(rules, ids[i..]) == MainSummaries(rules, ids)
    {
      var k := ids[i];
      ghost var before := out;
      ghost var h: seq<RuleSummary> := if IsMain(rules, k) then [Summary(k, rules[k])] else [];
      SummariesAt(rules, ids, i);
      if k in rules {
        var r := rules[k];
        if !r.isSubrule {
          out := out + [RuleSummary(k, r.text, |r.subrules| > 0, |r.subrules|)];
        }
      }
      assert out == before + h;
      Shift(before, h, MainSummaries(rules, ids[i + 1..]), MainSummaries(rules, ids));
    }
  }

  /** The same loop with `count += 1; if count >= 5: break`. */
  method TitleSummaryList(rules: map<string, Rule>, ids: seq<string>) returns (out: seq<RuleSummary>)
    ensures out == Take(MainSummaries(rules, ids), TitlePreview)
  {
    out := [];
    var count := 0;
    var i := 0;
    while i < |ids|
      invariant 0 <= i <= |ids| && count == |out| < TitlePreview
      invariant out + MainSummaries(rules, ids[i..]) == MainSummaries(rules, ids)
    {
      var k := ids[i];
      ghost var before := out;
      ghost var h: seq<RuleSummary> := if IsMain(rules, k) then [Summary(k, rules[k])] else [];
      SummariesAt(rules, ids, i);
      Shift(before, h, MainSummaries(rules, ids[i + 1..]), MainSummaries(rules, ids));
      if k in rules {
        var r := rules[k];
        if !r.isSubrule {
          out := out + [RuleSummary(k, r.text, |r.subrules| > 0, |r.subrules|)];
          count := count + 1;
          if count >= TitlePreview {
            assert out == before + h;
            return;
          }
        }
      }
      assert out == before + h;
      i := i + 1;
    }
    assert ids[i..] == [];
  }

  /** `for subrule_id in ids: if subrule_id in rules: append({"id", "text"})` */
  method BriefList(rules: map<string, Rule>, ids: seq<string>) returns (out: seq<Brief>)
    ensures out == Briefs(rules, ids)
  {
    out := [];
    for i := 0 to |ids|
      invariant out + Briefs(rules, ids[i..]) == Briefs(rules, ids)
    {
      var k := ids[i];
      ghost var before := out;
      ghost var h: seq<Brief> := if k in rules then [Brief(k, rules[k].text)] else [];
      BriefsAt(rules, ids, i);
      if k in rules {
        out := out + [Brief(k, rules[k].text)];
      }
      assert out == before + h;
      Shift(before, h, Briefs(rules, ids[i + 1..]), Briefs(rules, ids));
    }
  }

  /** The prefix fallback over `self.db["rules"].items()`, breaking at fifteen. */
  method PrefixList(rules: map<string, Rule>, q: string, keys: seq<string>) returns (out: seq<Hit>)
    requires forall k :: k in keys ==> k in rules
    ensures out == Take(PrefixHits(rules, q, keys), MaxResults)
  {
    out := [];
    var i := 0;
    while i < |keys|
      invariant 0 <= i <= |keys| && |out| < MaxResults
      invariant out + PrefixHits(rules, q, keys[i..]) == PrefixHits(rules, q, keys)
    {
      var k := keys[i];
      assert k in keys;
      ghost var before := out;
      ghost var h: seq<Hit> := if PrefixWanted(rules, q, k) then [ListedHit(k, rules[k])] else [];
      PrefixAt(rules, q, keys, i);
      Shift(before, h, PrefixHits(rules, q, keys[i + 1..]), PrefixHits(rules, q, keys));
      var r := rules[k];
      if q <= k {
        if !r.isSubrule || (q != [] && k != [] && q[|q| - 1] == k[|k| - 1]) {
          out := out + [RuleHit(k, r.text, r.sectionId, r.sectionTitle, r.relatedRules, r.isSubrule,
                                Some(Counts(|r.subrules| > 0, |r.subrules|)), None, None, None)];
        }
        assert out == before + h;
        if |out| >= MaxResults {
          return;
        }
      }
      assert out == before + h;
      i := i + 1;
    }
    assert keys[i..] == [];
  }

  /** The numeric branch: a section, an exact rule, or the prefix fallback. */
  method IdQueryList(db: RulesDb, q: string) returns (hits: seq<Hit>)
    requires db.Valid()
    ensures hits == IdQueryHits(db, q)
  {
    var rules := db.rules.vals;
    if Compiler.SectionIdPattern(q) && q in db.sections.vals {
      var s := db.sections.vals[q];
      var sectionRules := SummaryList(rules, Take(s.rules, SectionPreview));
      hits := [SectionHit(q, s.title, sectionRules, None)];
    } else if q in rules {
      var r := rules[q];
      var parent: Option<Option<string>> := None;
      var children: Option<seq<Brief>> := None;
      if r.isSubrule {
        parent := Some(r.parentRuleId);
      } else if r.subrules != [] {
        var subrules := BriefList(rules, r.subrules);
        if subrules != [] {
          children := Some(subrules);
        }
      }
      hits := [RuleHit(q, r.text, r.sectionId, r.sectionTitle, r.relatedRules, r.isSubrule, None, parent, children, None)];
    } else {
      hits := PrefixList(rules, q, db.rules.keys);
    }
  }

  /** `for rule_id in self.db["keyword_index"][query][:15]` */
  method IndexList(rules: map<string, Rule>, ids: seq<string>) returns (out: seq<Hit>)
    ensures out == IndexHits(rules, ids)
  {
    out := [];
    for i := 0 to |ids|
      invariant out + IndexHits(rules, ids[i..]) == IndexHits(rules, ids)
    {
      var k := ids[i];
      ghost var before := out;
      ghost var h: seq<Hit> := if k in rules then [IndexHit(k, rules[k])] else [];
      IndexAt(rules, ids, i);
      if k in rules {
        var r := rules[k];
        out := out + [RuleHit(k, r.text, r.sectionId, r.sectionTitle, r.relatedRules, r.isSubrule,
                              Some(Counts(|r.subrules| > 0, |r.subrules|)),
                              if r.isSubrule then Some(r.parentRuleId) else None, None, Some(IndexRank))];
      }
      assert out == before + h;
      Shift(before, h, IndexHits(rules, ids[i + 1..]), IndexHits(rules, ids));
    }
  }

  /** `for section_id, section in self.db["sections"].items()` */
  method TitleList(rules: map<string, Rule>, sections: map<string, Section>, q: string, sids: seq<string>)
    returns (out: seq<Hit>)
    requires forall k :: k in sids ==> k in sections
    ensures out == TitleHits(rules, sections, q, sids)
  {
    out := [];
    for i := 0 to |sids|
      invariant forall k :: k in sids[i..] ==> k in sections
      invariant out + TitleHits(rules, sections, q, sids[i..]) == TitleHits(rules, sections, q, sids)
    {
      var k := sids[i];
      TitlesAt(rules, sections, q, sids, i);
      var s := sections[k];
      ghost var before := out;
      ghost var h: seq<Hit> := if TitleMatches(q, s) then [TitleHit(rules, k, s)] else [];
      if Contains(q, Lower(s.title)) {
        var sectionRules := TitleSummaryList(rules, s.rules);
        out := out + [SectionHit(k, s.title, sectionRules, Some(TitleRank))];
      }
      assert out == before + h;
      Shift(before, h, TitleHits(rules, sections, q, sids[i + 1..]), TitleHits(rules, sections, q, sids));
    }
  }

  /** `any(r.get("id") == rule_id for r in results)` */
  method AnyWithId(hs: seq<Hit>, k: string) returns (found: bool)
    ensures found == HasId(hs, k)
  {
    found := false;
    for i := 0 to |hs|
      invariant found <==> exists j :: 0 <= j < i && hs[j].id == k
    {
      if hs[i].id == k {
        found := true;
      }
    }
  }

  /** A full-text scan: append each rule whose text holds the query and whose
      id is new, breaking at fifteen results. */
  method TextList(rules: map<string, Rule>, q: string, ids: seq<string>, acc: seq<Hit>, sub: bool)
    returns (out: seq<Hit>)
    requires forall k :: k in ids ==> k in rules
    ensures out == TextScan(rules, q, ids, acc, sub)
  {
    out := acc;
    var i := 0;
    while i < |ids|
      invariant 0 <= i <= |ids|
      invariant forall k :: k in ids[i..] ==> k in rules
      invariant TextScan(rules, q, ids[i..], out, sub) == TextScan(rules, q, ids, acc, sub)
    {
      assert ids[i..][1..] == ids[i + 1..];
      var k := ids[i];
      assert k in ids[i..];
      var r := rules[k];
      if Contains(q, Lower(r.text)) {
        var seen := AnyWithId(out, k);
        if !seen {
          out := out + [TextHit(k, r, sub)];
          if |out| >= MaxResults {
            return;
          }
        }
      }
      i := i + 1;
    }
  }

  /** The keyword branch: index hits, title hits, the two scans, the sort. */
  method KeywordList(db: RulesDb, q: string) returns (hits: seq<Hit>)
    requires db.Valid()
    ensures hits == KeywordQueryHits(db, q)
  {
    var rules := db.rules.vals;
    hits := IndexList(rules, IndexIds(db, q));
    var titled := TitleList(rules, db.sections.vals, q, db.sections.keys);
    hits := hits + titled;
    if |hits| < FewResults {
      hits := TextList(rules, q, MainScanIds(db), hits, false);
      if |hits| < FewResults {
        hits := TextList(rules, q, SubruleScanIds(db), hits, true);
      }
    }
    hits := RankSort(hits);
  }

  /** `search_rules` on a loaded database. */
  method SearchList(db: RulesDb, query: string) returns (hits: seq<Hit>)
    requires db.Valid()
    ensures Hits(hits) == Queries.SearchRules(Some(db), query)
  {
    var q := Lower(query);
    var all;
    if IdQuery(q) {
      all := IdQueryList(db, q);
    } else {
      all := KeywordList(db, q);
    }
    hits := Take(all, MaxResults);
  }

  // ---------------------------------------------------------------------------
  // The loops of `get_section`, `get_rule`, `search_glossary` and
  // `get_commander_rules`.

  /** `for rule_id in section["rules"]`: the view of each main rule. */
  method SectionViewList(rules: map<string, Rule>, ids: seq<string>) returns (out: seq<RuleView>)
    ensures out == SectionViews(rules, ids)
  {
    out := [];
    for i := 0 to |ids|
      invariant out + SectionViews(rules, ids[i..]) == SectionViews(rules, ids)
    {
      var k := ids[i];
      ghost var before := out;
      ghost var h: seq<RuleView> := if IsMain(rules, k) then [ViewOf(rules, k, rules[k])] else [];
      ViewsAt(rules, ids, i);
      if k in rules {
        var r := rules[k];
        if !r.isSubrule {
          var info := RuleView(k, r.text, r.relatedRules, |r.subrules| > 0, |r.subrules|, None);
          if r.subrules != [] {
            var subrules := BriefList(rules, r.subrules);
            info := info.(subrules := Some(subrules));
          }
          out := out + [info];
        }
      }
      assert out == before + h;
      Shift(before, h, SectionViews(rules, ids[i + 1..]), SectionViews(rules, ids));
    }
  }

  method SectionOf(db: RulesDb, sid: string) returns (res: SectionResult)
    ensures res == GetSection(Some(db), sid)
  {
    if sid !in db.sections.vals {
      res := SectionNotFound;
    } else {
      var s := db.sections.vals[sid];
      var sectionRules := SectionViewList(db.rules.vals, s.rules);
      res := SectionView(sid, s.title, sectionRules);
    }
  }

  /** `for sibling_id in parent_rule["subrules"]` */
  method SiblingList(rules: map<string, Rule>, ids: seq<string>, self: string) returns (out: seq<Brief>)
    ensures out == Siblings(rules, ids, self)
  {
    out := [];
    for i := 0 to |ids|
      invariant out + Siblings(rules, ids[i..], self) == Siblings(rules, ids, self)
    {
      var k := ids[i];
      ghost var before := out;
      ghost var h: seq<Brief> := if k != self && k in rules then [Brief(k, rules[k].text)] else [];
      SiblingsAt(rules, ids, self, i);
      if k != self && k in rules {
        out := out + [Brief(k, rules[k].text)];
      }
      assert out == before + h;
      Shift(before, h, Siblings(rules, ids[i + 1..], self), Siblings(rules, ids, self));
    }
  }

  /** `for ref_id in rule["related_rules"]` */
  method RefBriefList(rules: map<string, Rule>, ids: seq<string>) returns (out: seq<RefBrief>)
    ensures out == RefBriefs(rules, ids)
  {
    out := [];
    for i := 0 to |ids|
      invariant out + RefBriefs(rules, ids[i..]) == RefBriefs(rules, ids)
    {
      var k := ids[i];
      ghost var before := out;
      ghost var h: seq<RefBrief> := if k in rules then [RefBrief(k, rules[k].text, rules[k].isSubrule)] else [];
      RefsAt(rules, ids, i);
      if k in rules {
        out := out + [RefBrief(k, rules[k].text, rules[k].isSubrule)];
      }
      assert out == before + h;
      Shift(before, h, RefBriefs(rules, ids[i + 1..]), RefBriefs(rules, ids));
    }
  }

  method RuleOf(db: RulesDb, k: string) returns (res: RuleResult)
    ensures res == GetRule(Some(db), k)
  {
    var rules := db.rules.vals;
    if k !in rules {
      return RuleNotFound;
    }
    var r := rules[k];
    var parent: Option<Brief> := None;
    var siblings: Option<seq<Brief>> := None;
    var children: Option<seq<Brief>> := None;
    var refs: Option<seq<RefBrief>> := None;
    if HasParentLink(r) {
      var p := r.parentRuleId.value;
      if p in rules {
        parent := Some(Brief(p, rules[p].text));
        var sibs := SiblingList(rules, rules[p].subrules, k);
        if sibs != [] {
          siblings := Some(sibs);
        }
        assert siblings == NonEmpty(Siblings(rules, rules[p].subrules, k));
      }
    } else if r.subrules != [] {
      var subrules := BriefList(rules, r.subrules);
      if subrules != [] {
        children := Some(subrules);
      }
      assert children == NonEmpty(Briefs(rules, r.subrules));
    }
    if r.relatedRules != [] {
      var referenced := RefBriefList(rules, r.relatedRules);
      if referenced != [] {
        refs := Some(referenced);
      }
      assert refs == NonEmpty(RefBriefs(rules, r.relatedRules));
    }
    res := RuleDetail(k, r.text, r.sectionId, r.sectionTitle, r.relatedRules, r.isSubrule, parent, siblings, children, refs);
  }

  /** `for term_key, term_data in self.db["glossary"].items()` */
  method GlossaryList(g: map<string, GlossaryEntry>, rules: map<string, Rule>, q: string, keys: seq<string>)
    returns (out: seq<GlossaryHit>)
    requires forall k :: k in keys ==> k in g
    ensures out == GlossaryHits(g, rules, q, keys)
  {
    out := [];
    for i := 0 to |keys|
      invariant forall k :: k in keys[i..] ==> k in g
      invariant out + GlossaryHits(g, rules, q, keys[i..]) == GlossaryHits(g, rules, q, keys)
    {
      var k := keys[i];
      GlossaryAt(g, rules, q, keys, i);
      var e := g[k];
      ghost var before := out;
      ghost var h: seq<GlossaryHit> := if GlossaryMatches(q, k, e) then [GlossaryHitOf(rules, e)] else [];
      if Contains(q, k) || Contains(q, Lower(e.definition)) {
        var refs: Option<seq<Brief>> := None;
        if e.relatedRules != [] {
          var referenced := BriefList(rules, e.relatedRules);
          if referenced != [] {
            refs := Some(referenced);
          }
        }
        out := out + [GlossaryHit(e, refs)];
      }
      assert out == before + h;
      Shift(before, h, GlossaryHits(g, rules, q, keys[i + 1..]), GlossaryHits(g, rules, q, keys));
    }
  }

  method GlossaryOf(db: RulesDb, query: string) returns (hits: seq<GlossaryHit>)
    requires db.Valid()
    ensures hits == SearchGlossary(Some(db), query)
  {
    if db.glossary.None? {
      return [];
    }
    var g := db.glossary.value;
    hits := GlossaryList(g.vals, db.rules.vals, Lower(query), g.keys);
  }

  /** `for rule_id in self.db["keyword_index"]["commander"]` */
  method CommanderList(rules: map<string, Rule>, ids: seq<string>) returns (out: seq<CommanderRule>)
    ensures out == CommanderExtras(rules, ids)
  {
    out := [];
    for i := 0 to |ids|
      invariant out + CommanderExtras(rules, ids[i..]) == CommanderExtras(rules, ids)
    {
      var k := ids[i];
      ghost var before := out;
      ghost var h: seq<CommanderRule> :=
        if CommanderWanted(rules, k) then [CommanderRule(k, rules[k].text, rules[k].sectionId, rules[k].sectionTitle)] else [];
      CommanderAt(rules, ids, i);
      if !(CommanderSection <= k) && k in rules {
        var r := rules[k];
        if !r.isSubrule {
          out := out + [CommanderRule(k, r.text, r.sectionId, r.sectionTitle)];
        }
      }
      assert out == before + h;
      Shift(before, h, CommanderExtras(rules, ids[i + 1..]), CommanderExtras(rules, ids));
    }
  }

  // ---------------------------------------------------------------------------
  // The service object.

  class JsonRulesService {
    var db: Option<RulesDb>
    var isLoaded: bool

    /** `is_loaded` is set exactly when a database has been assigned. */
    ghost predicate Valid()
      reads this
    {
      (isLoaded <==> db.Some?) && (db.Some? ==> db.value.Valid())
    }

    constructor()
      ensures Valid() && db.None? && !isLoaded
    {
      db := None;
      isLoaded := false;
    }

    /** `load_db`: a no-op once loaded; otherwise the database is assigned, and
        only then marked loaded, when the file exists and parses. */
    method LoadDb(src: LoadSource) returns (status: LoadStatus)
      requires Valid() && (src.Parsed? ==> src.db.Valid())
      modifies this
      ensures Valid()
      ensures old(isLoaded) ==> status == AlreadyLoaded && db == old(db)
      ensures !old(isLoaded) && src.Missing? ==> status == DatabaseNotFound && db == old(db) && !isLoaded
      ensures !old(isLoaded) && src.Unreadable? ==> status == LoadFailed && db == old(db) && !isLoaded
      ensures !old(isLoaded) && src.Parsed? ==> status == LoadedOk && db == Some(src.db) && isLoaded
    {
      if isLoaded {
        return AlreadyLoaded;
      }
      match src
      case Missing =>
        status := DatabaseNotFound;
      case Unreadable =>
        status := LoadFailed;
      case Parsed(d) =>
        db := Some(d);
        isLoaded := true;
        status := LoadedOk;
    }

    /** `if not self.is_loaded: self.load_db()` */
    method EnsureLoaded(src: LoadSource)
      requires Valid() && (src.Parsed? ==> src.db.Valid())
      modifies this
      ensures Valid() && db == AfterLoad(old(db), src)
    {
      if !isLoaded {
        var _ := LoadDb(src);
      }
    }

    method SearchRules(query: string, src: LoadSource) returns (r: SearchResult)
      requires Valid() && (src.Parsed? ==> src.db.Valid())
      modifies this
      ensures Valid() && db == AfterLoad(old(db), src)
      ensures r == Queries.SearchRules(db, query)
    {
      EnsureLoaded(src);
      if db.None? {
        return DatabaseNotLoaded;
      }
      var hits := SearchList(db.value, query);
      r := Hits(hits);
    }

    method GetSection(sid: string, src: LoadSource) returns (r: SectionResult)
      requires Valid() && (src.Parsed? ==> src.db.Valid())
      modifies this
      ensures Valid() && db == AfterLoad(old(db), src)
      ensures r == Queries.GetSection(db, sid)
    {
      EnsureLoaded(src);
      if db.None? {
        return SectionNotFound;
      }
      r := SectionOf(db.value, sid);
    }

    method GetRule(k: string, src: LoadSource) returns (r: RuleResult)
      requires Valid() && (src.Parsed? ==> src.db.Valid())
      modifies this
      ensures Valid() && db == AfterLoad(old(db), src)
      ensures r == Queries.GetRule(db, k)
    {
      EnsureLoaded(src);
      if db.None? {
        return RuleNotFound;
      }
      r := RuleOf(db.value, k);
    }

    method SearchGlossary(query: string, src: LoadSource) returns (r: seq<GlossaryHit>)
      requires Valid() && (src.Parsed? ==> src.db.Valid())
      modifies this
      ensures Valid() && db == AfterLoad(old(db), src)
      ensures r == Queries.SearchGlossary(db, query)
    {
      EnsureLoaded(src);
      if db.None? {
        return [];
      }
      r := GlossaryOf(db.value, query);
    }

    /** `get_commander_rules`, which needs the database to be loaded: it reads
        `self.db` without checking it. */
    method GetCommanderRules(src: LoadSource) returns (r: CommanderView)
      requires Valid() && (src.Parsed? ==> src.db.Valid())
      requires isLoaded || src.Parsed?
      modifies this
      ensures Valid() && db == AfterLoad(old(db), src) && db.Some?
      ensures r == CommanderRules(db.value)
    {
      var section := GetSection(CommanderSection, src);
      EnsureLoaded(src);
      var extras := CommanderList(db.value.rules.vals, CommanderIds(db.value));
      r := CommanderView(section, if extras != [] then Some(extras) else None);
    }
  }
}
