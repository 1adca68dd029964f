/** The rules-text compiler (`process_rules_database` without its file I/O) and
    the reference verifier (`verify_rule_references`). */
module Compiler {
  import opened Text
  import opened OrderedMaps
  import opened RulesModel
  import RuleRefs
  import Subrules
  import opened DocScan
  import KeywordIndex

  const UnknownSection: string := "Unknown Section"

  /** `rules_db["sections"].get(section_id, {}).get("title", "Unknown Section")` */
  function TitleFor(sections: OMap<Section>, sid: string): string
  {
    if sid in sections.vals then sections.vals[sid].title else UnknownSection
  }

  // ---------------------------------------------------------------------------
  // The section table.

  function SectionIds(ms: seq<SectionMatch>): (r: seq<string>)
    ensures |r| == |ms| && forall i :: 0 <= i < |ms| ==> r[i] == ms[i].id
  {
    seq(|ms|, i requires 0 <= i < |ms| => ms[i].id)
  }

  /** No header of `ms` after a and before n has the id of header a. */
  predicate LastBefore(ms: seq<SectionMatch>, a: nat, n: nat)
  {
    a < n <= |ms| && forall b :: a < b < n ==> ms[b].id != ms[a].id
  }

  ghost predicate ScanInv(ms: seq<SectionMatch>, i: nat, sections: OMap<Section>)
    requires i <= |ms|
  {
    && sections.Valid()
    && sections.keys == Dedup(SectionIds(ms)[..i])
    && (forall k :: k in sections.vals ==> sections.vals[k].id == k && sections.vals[k].rules == [])
    && (forall a :: 0 <= a < i && LastBefore(ms, a, i) ==> sections.vals[ms[a].id].title == ms[a].title)
  }

  lemma ScanStep(ms: seq<SectionMatch>, i: nat, sections: OMap<Section>)
    requires i < |ms| && ScanInv(ms, i, sections)
    ensures var next := sections.Put(ms[i].id, Section(ms[i].id, ms[i].title, []));
      && next.Valid()
      && next.keys == Dedup(SectionIds(ms)[..i + 1])
      && (forall k :: k in next.vals ==> next.vals[k].id == k && next.vals[k].rules == [])
      && (forall a :: 0 <= a < i + 1 && LastBefore(ms, a, i + 1) ==> next.vals[ms[a].id].title == ms[a].title)
  {
    ScanKeysStep(ms, i, sections);
    forall a | 0 <= a < i ensures ms[a].id in sections.vals {
      assert SectionIds(ms)[..i][a] == ms[a].id;
    }
    ScanTitlesStep(ms, i, sections);
  }

  lemma ScanKeysStep(ms: seq<SectionMatch>, i: nat, sections: OMap<Section>)
    requires i < |ms| && sections.Valid() && sections.keys == Dedup(SectionIds(ms)[..i])
    ensures sections.Put(ms[i].id, Section(ms[i].id, ms[i].title, [])).keys == Dedup(SectionIds(ms)[..i + 1])
  {
    var ids := SectionIds(ms);
    assert ids[..i + 1][..i] == ids[..i];
    assert ids[..i + 1][i] == ms[i].id;
  }

  lemma ScanTitlesStep(ms: seq<SectionMatch>, i: nat, sections: OMap<Section>)
    requires i < |ms| && sections.Valid()
    requires forall a :: 0 <= a < i ==> ms[a].id in sections.vals
    requires forall a :: 0 <= a < i && LastBefore(ms, a, i) ==> sections.vals[ms[a].id].title == ms[a].title
    ensures var next := sections.Put(ms[i].id, Section(ms[i].id, ms[i].title, []));
      forall a :: 0 <= a < i + 1 && LastBefore(ms, a, i + 1) ==>
        ms[a].id in next.vals && next.vals[ms[a].id].title == ms[a].title
  {
    var next := sections.Put(ms[i].id, Section(ms[i].id, ms[i].title, []));
    forall a | 0 <= a < i + 1 && LastBefore(ms, a, i + 1)
      ensures ms[a].id in next.vals && next.vals[ms[a].id].title == ms[a].title
    {
      if a < i {
        assert LastBefore(ms, a, i) && ms[i].id != ms[a].id;
      }
    }
  }

  /** The section loop: one record per section id, in order of first appearance,
      holding the title of the last header with that id and no rules yet. */
  method ScanSections(ms: seq<SectionMatch>) returns (sections: OMap<Section>)
    ensures sections.Valid()
    ensures sections.keys == Dedup(SectionIds(ms))
    ensures forall k :: k in sections.vals ==> sections.vals[k].id == k && sections.vals[k].rules == []
    ensures forall a :: 0 <= a < |ms| && LastBefore(ms, a, |ms|) ==> sections.vals[ms[a].id].title == ms[a].title
  {
    sections := Empty();
    for i := 0 to |ms|
      invariant ScanInv(ms, i, sections)
    {
      ScanStep(ms, i, sections);
      var m := ms[i];
      sections := sections.Put(m.id, Section(m.id, m.title, []));
    }
    assert SectionIds(ms)[..|ms|] == SectionIds(ms);
  }

  // ---------------------------------------------------------------------------
  // The rule table and what every entry of it promises.

  /** c is k followed by one lower-case letter. */
  predicate SubKeyOf(c: string, k: string)
  {
    |c| == |k| + 1 && c[..|k|] == k && IsLower(c[|k|])
  }

  predicate MainOk(titles: OMap<Section>, k: string, v: Rule)
  {
    && v.id == k && !v.isSubrule && RuleIdForm(k) && v.parentRuleId.None?
    && v.sectionId == SectionPart(k) && v.sectionTitle == TitleFor(titles, SectionPart(k))
    && NormalText(v.text)
    && forall c :: c in v.subrules ==> SubKeyOf(c, k)
  }

  predicate SubOk(titles: OMap<Section>, c: string, v: Rule)
  {
    && v.id == c && v.isSubrule && |c| > 5 && RuleIdForm(c[..|c| - 1]) && IsLower(c[|c| - 1])
    && v.parentRuleId == Some(c[..|c| - 1])
    && v.sectionId == SectionPart(c) && v.sectionTitle == TitleFor(titles, SectionPart(c))
    && v.subrules == []
  }

  predicate EntryOk(titles: OMap<Section>, k: string, v: Rule)
  {
    if v.isSubrule then SubOk(titles, k, v) else MainOk(titles, k, v)
  }

  predicate TableOk(titles: OMap<Section>, rules: OMap<Rule>)
  {
    forall k :: k in rules.vals ==> EntryOk(titles, k, rules.vals[k])
  }

  /** Every child a main rule lists is in the table. */
  predicate Linked(rules: OMap<Rule>)
  {
    forall k, c :: k in rules.vals && !rules.vals[k].isSubrule && c in rules.vals[k].subrules ==> c in rules.vals
  }

  /** What a subrule record holds before the compiler sets its section title. */
  predicate SubShape(id: string, c: string, v: Rule)
  {
    && SubKeyOf(c, id) && v.id == c && v.isSubrule && v.parentRuleId == Some(id)
    && v.sectionId == SectionPart(id) && v.subrules == []
  }

  /** The block body stripped and split, and the main text cleaned. */
  function SplitBlock(b: RuleBlock): (r: (string, OMap<Rule>))
    requires RuleIdForm(b.id)
    ensures NormalText(r.0) && r.1.Valid()
    ensures forall c :: c in r.1.vals ==> SubShape(b.id, c, r.1.vals[c])
  {
    var ex := Subrules.ExtractSubrules(b.id, Strip(b.body));
    RuleIdHasDot(b.id);
    assert Subrules.Base(b.id) == b.id;
    assert forall c :: c in ex.1.vals ==> SubShape(b.id, c, ex.1.vals[c]) by {
      forall c | c in ex.1.vals ensures SubShape(b.id, c, ex.1.vals[c]) {
        assert Subrules.IsSubruleOf(b.id, c, ex.1.vals[c]);
      }
    }
    (CleanMainText(ex.0), ex.1)
  }

  /** The record `process_rules_database` stores for a rule block. */
  function MainRecord(titles: OMap<Section>, b: RuleBlock): (v: Rule)
    requires RuleIdForm(b.id)
    ensures MainOk(titles, b.id, v)
  {
    var parts := SplitBlock(b);
    Rule(b.id, parts.0, SectionPart(b.id), TitleFor(titles, SectionPart(b.id)),
         RuleRefs.ExtractRelatedRules(parts.0), false, None, parts.1.keys)
  }

  /** A split-out subrule record with the section title of rule `id`. */
  function SubRecord(titles: OMap<Section>, id: string, v: Rule): Rule
  {
    v.(sectionTitle := TitleFor(titles, SectionPart(id)))
  }

  /** The subrules split out of each block, in block order. */
  function Splits(bs: seq<RuleBlock>): (r: seq<OMap<Rule>>)
    requires forall a :: 0 <= a < |bs| ==> RuleIdForm(bs[a].id)
    ensures |r| == |bs| && forall a :: 0 <= a < |bs| ==> r[a] == SplitBlock(bs[a]).1
  {
    seq(|bs|, a requires 0 <= a < |bs| => SplitBlock(bs[a]).1)
  }

  /** The ids that storing the first n blocks assigns, where subs[a] holds the
      subrules of block a: each block's own id and its subrule ids. */
  function BlockKeys(bs: seq<RuleBlock>, subs: seq<OMap<Rule>>, n: nat): set<string>
    requires n <= |bs| == |subs|
  {
    if n == 0 then {} else BlockKeys(bs, subs, n - 1) + {bs[n - 1].id} + subs[n - 1].vals.Keys
  }

  lemma RuleIdHasDot(k: string)
    requires RuleIdForm(k)
    ensures '.' in k && IsDigit(k[|k| - 1]) && SectionPart(k) == k[..3]
  {
    assert k[3] == '.';
    assert IsDigit(k[4..][|k| - 5]);
    assert k == k[..3] + k[3..];
    BeforeFirst3(k);
  }

  lemma BeforeFirst3(k: string)
    requires |k| >= 4 && AllDigits(k[..3]) && k[3] == '.'
    ensures BeforeFirst(k, '.') == k[..3]
  {
    assert k[0] != '.' && k[1] != '.' && k[2] != '.';
    assert k[1..][1..][1..][0] == '.';
  }

  /** A subrule id lies in the section of its parent. */
  lemma SubKeySection(c: string, k: string)
    requires RuleIdForm(k) && SubKeyOf(c, k)
    ensures SectionPart(c) == SectionPart(k) && c[..|c| - 1] == k && RuleIdForm(c[..|c| - 1])
    ensures !RuleIdForm(c) && c != k
  {
    RuleIdHasDot(k);
    assert c == k + [c[|k|]];
    BeforeFirstAppend(k, [c[|k|]], '.');
    assert !IsDigit(c[|c| - 1]);
    if RuleIdForm(c) { RuleIdHasDot(c); }
  }

  lemma MainKeyIsNoSubKey(k: string, id: string)
    requires RuleIdForm(k) && RuleIdForm(id)
    ensures !SubKeyOf(k, id)
  {
    if SubKeyOf(k, id) { SubKeySection(k, id); }
  }

  /** Each main rule's listed children are subrule entries that point back at
      it and carry its section title. */
  lemma SubrulesAreLinkedEntries(titles: OMap<Section>, rules: OMap<Rule>, k: string, c: string)
    requires TableOk(titles, rules) && Linked(rules)
    requires k in rules.vals && !rules.vals[k].isSubrule && c in rules.vals[k].subrules
    ensures c in rules.vals && rules.vals[c].isSubrule && rules.vals[c].parentRuleId == Some(k)
    ensures rules.vals[c].sectionTitle == rules.vals[k].sectionTitle
  {
    assert MainOk(titles, k, rules.vals[k]);
    SubKeySection(c, k);
    assert EntryOk(titles, c, rules.vals[c]);
  }

  // ---------------------------------------------------------------------------
  // One iteration of the rule loop.

  /** `IdsInSection(bs, sid)`: the ids of the blocks in section sid, in order. */
  function IdsInSection(bs: seq<RuleBlock>, sid: string): (r: seq<string>)
    ensures forall x :: x in r ==> SectionPart(x) == sid && exists a :: 0 <= a < |bs| && bs[a].id == x
  {
    if bs == [] then []
    else
      var prev := IdsInSection(bs[..|bs| - 1], sid);
      var b := bs[|bs| - 1];
      assert forall x :: x in prev ==> exists a :: 0 <= a < |bs| && bs[a].id == x by {
        forall x | x in prev ensures exists a :: 0 <= a < |bs| && bs[a].id == x {
          var a :| 0 <= a < |bs| - 1 && bs[..|bs| - 1][a].id == x;
          assert bs[a].id == x;
        }
      }
      prev + (if SectionPart(b.id) == sid then [b.id] else [])
  }

  /** Same keys and titles: the rule loop appends to section lists only. */
  predicate SameTitles(a: OMap<Section>, b: OMap<Section>)
  {
    && a.vals.Keys == b.vals.Keys
    && (forall k :: k in a.vals ==> a.vals[k].title == b.vals[k].title)
  }

  lemma SameTitlesTitleFor(a: OMap<Section>, b: OMap<Section>, sid: string)
    requires SameTitles(a, b)
    ensures TitleFor(a, sid) == TitleFor(b, sid)
  {
  }

  lemma PutEntry(titles: OMap<Section>, rules: OMap<Rule>, k: string, v: Rule)
    requires rules.Valid() && TableOk(titles, rules) && EntryOk(titles, k, v)
    ensures TableOk(titles, rules.Put(k, v))
  {
  }

  lemma SubEntry(titles: OMap<Section>, id: string, c: string, w: Rule)
    requires RuleIdForm(id) && SubShape(id, c, w)
    ensures SubOk(titles, c, w.(sectionTitle := TitleFor(titles, SectionPart(id))))
  {
    SubKeySection(c, id);
  }

  /** What holds after the first j subrules are stored. */
  ghost predicate SubLoopInv(titles: OMap<Section>, rules: OMap<Rule>, id: string, subs: OMap<Rule>, title: string,
                       j: nat, cur: OMap<Rule>)
    requires j <= |subs.keys| && subs.Valid()
  {
    && cur.Valid() && TableOk(titles, cur)
    && (forall q :: 0 <= q < j ==> subs.keys[q] in cur.vals && cur.vals[subs.keys[q]] == subs.vals[subs.keys[q]].(sectionTitle := title))
    && (forall k :: k in rules.vals ==> k in cur.vals)
    && (forall k :: k in cur.vals ==> k in rules.vals || k in subs.keys)
    && (forall k :: k in rules.vals && k !in subs.keys ==> cur.vals[k] == rules.vals[k])
    && AddedInOrder(rules.keys, subs.keys, j, cur.keys)
  }

  lemma SubLoopStep(titles: OMap<Section>, rules: OMap<Rule>, id: string, subs: OMap<Rule>, title: string,
                    j: nat, cur: OMap<Rule>)
    requires RuleIdForm(id) && title == TitleFor(titles, SectionPart(id))
    requires subs.Valid() && j < |subs.keys|
    requires forall c :: c in subs.vals ==> SubShape(id, c, subs.vals[c])
    requires SubLoopInv(titles, rules, id, subs, title, j, cur)
    ensures SubLoopInv(titles, rules, id, subs, title, j + 1,
                       cur.Put(subs.keys[j], subs.vals[subs.keys[j]].(sectionTitle := title)))
  {
    var c := subs.keys[j];
    var v := subs.vals[c].(sectionTitle := title);
    SubEntry(titles, id, c, subs.vals[c]);
    PutEntry(titles, cur, c, v);
    SubSlotsStep(subs, title, j, cur);
  }

  lemma SubSlotsStep(subs: OMap<Rule>, title: string, j: nat, cur: OMap<Rule>)
    requires subs.Valid() && j < |subs.keys| && cur.Valid()
    requires forall q :: 0 <= q < j ==> subs.keys[q] in cur.vals && cur.vals[subs.keys[q]] == subs.vals[subs.keys[q]].(sectionTitle := title)
    ensures var next := cur.Put(subs.keys[j], subs.vals[subs.keys[j]].(sectionTitle := title));
      forall q :: 0 <= q < j + 1 ==> subs.keys[q] in next.vals && next.vals[subs.keys[q]] == subs.vals[subs.keys[q]].(sectionTitle := title)
  {
    var c := subs.keys[j];
    var next := cur.Put(c, subs.vals[c].(sectionTitle := title));
    forall q | 0 <= q < j + 1
      ensures subs.keys[q] in next.vals && next.vals[subs.keys[q]] == subs.vals[subs.keys[q]].(sectionTitle := title)
    {
      if q < j {
        assert subs.keys[q] != c;
      }
    }
  }

  /** The inner loop: each subrule gets the section title and is stored. */
  method AddSubrules(titles: OMap<Section>, rules: OMap<Rule>, id: string, subs: OMap<Rule>, title: string)
    returns (rules': OMap<Rule>)
    requires RuleIdForm(id) && title == TitleFor(titles, SectionPart(id))
    requires rules.Valid() && TableOk(titles, rules) && subs.Valid()
    requires forall c :: c in subs.vals ==> SubShape(id, c, subs.vals[c])
    ensures rules'.Valid() && TableOk(titles, rules')
    ensures forall c :: c in subs.keys ==> c in rules'.vals && rules'.vals[c] == subs.vals[c].(sectionTitle := title)
    ensures forall k :: k in rules.vals ==> k in rules'.vals
    ensures forall k :: k in rules'.vals <==> k in rules.vals || k in subs.keys
    ensures forall k :: k in rules.vals && k !in subs.keys ==> rules'.vals[k] == rules.vals[k]
    ensures rules'.keys == Dedup(rules.keys + subs.keys)
  {
    rules' := rules;
    for j := 0 to |subs.keys|
      invariant SubLoopInv(titles, rules, id, subs, title, j, rules')
    {
      SubLoopStep(titles, rules, id, subs, title, j, rules');
      var c := subs.keys[j];
      rules' := rules'.Put(c, subs.vals[c].(sectionTitle := title));
    }
    SubOrderDedup(rules.keys, subs.keys, rules'.keys);
  }

  lemma SubOrderDedup(keys: seq<string>, subKeys: seq<string>, cur: seq<string>)
    requires Distinct(keys) && AddedInOrder(keys, subKeys, |subKeys|, cur)
    ensures cur == Dedup(keys + subKeys)
  {
    AddedInOrderDedup(keys, subKeys, |subKeys|, cur);
    assert subKeys[..|subKeys|] == subKeys;
  }

  /** `cur` is the key order of a dictionary whose keys were `keys` after the
      first j of `subKeys` are assigned one after another. */
  ghost predicate AddedInOrder(keys: seq<string>, subKeys: seq<string>, j: nat, cur: seq<string>)
    requires j <= |subKeys|
    decreases j, 1
  {
    if j == 0 then cur == keys else AddedOneMore(keys, subKeys, j - 1, cur)
  }

  /** Assigning `subKeys[i]` after the first i: a key already present keeps
      its place, a new one goes last. */
  ghost predicate AddedOneMore(keys: seq<string>, subKeys: seq<string>, i: nat, cur: seq<string>)
    requires i < |subKeys|
    decreases i + 1, 0
  {
    exists prev ::
      && AddedInOrder(keys, subKeys, i, prev)
      && cur == (if subKeys[i] in prev then prev else prev + [subKeys[i]])
  }

  /** That order is the first-occurrence order of the old keys followed by the assigned ones. */
  lemma {:induction false} AddedInOrderDedup(keys: seq<string>, subKeys: seq<string>, j: nat, cur: seq<string>)
    requires Distinct(keys) && j <= |subKeys| && AddedInOrder(keys, subKeys, j, cur)
    ensures cur == Dedup(keys + subKeys[..j])
  {
    if j == 0 {
      AddedNoneDedup(keys, subKeys, cur);
    } else {
      var prev :| AddedInOrder(keys, subKeys, j - 1, prev)
        && cur == (if subKeys[j - 1] in prev then prev else prev + [subKeys[j - 1]]);
      AddedInOrderDedup(keys, subKeys, j - 1, prev);
      AddedOneDedup(keys, subKeys, j, prev, cur);
    }
  }

  /** Before any assignment the order is the old keys'. */
  lemma AddedNoneDedup(keys: seq<string>, subKeys: seq<string>, cur: seq<string>)
    requires Distinct(keys) && cur == keys
    ensures cur == Dedup(keys + subKeys[..0])
  {
    DedupDistinct(keys);
    assert keys + subKeys[..0] == keys;
  }

  /** One more assignment extends the first-occurrence order by one element. */
  lemma AddedOneDedup(keys: seq<string>, subKeys: seq<string>, j: nat, prev: seq<string>, cur: seq<string>)
    requires 0 < j <= |subKeys| && prev == Dedup(keys + subKeys[..j - 1])
    requires cur == if subKeys[j - 1] in prev then prev else prev + [subKeys[j - 1]]
    ensures cur == Dedup(keys + subKeys[..j])
  {
    assert keys + subKeys[..j] == keys + subKeys[..j - 1] + [subKeys[j - 1]];
    DedupSnoc(keys + subKeys[..j - 1], subKeys[j - 1]);
  }

  lemma PutDedup<V>(m: OMap<V>, xs: seq<string>, k: string, v: V)
    requires m.Valid() && m.keys == Dedup(xs)
    ensures m.Put(k, v).keys == Dedup(xs + [k])
  {
    assert (xs + [k])[..|xs|] == xs;
  }

  /** Stores a block's main rule and its subrules, and lists the rule in its section. */
  method AddRuleBlock(titles: OMap<Section>, sections: OMap<Section>, rules: OMap<Rule>, b: RuleBlock)
    returns (sections': OMap<Section>, rules': OMap<Rule>)
    requires RuleIdForm(b.id) && SameTitles(titles, sections)
    requires sections.Valid() && rules.Valid() && TableOk(titles, rules) && Linked(rules)
    ensures rules'.Valid() && TableOk(titles, rules') && Linked(rules')
    ensures b.id in rules'.vals && rules'.vals[b.id] == MainRecord(titles, b)
    ensures forall k :: k in rules.vals ==> k in rules'.vals
    ensures forall k :: k in rules.vals && !rules.vals[k].isSubrule && k != b.id ==> rules'.vals[k] == rules.vals[k]
    ensures sections' == AppendToSection(sections, b.id)
    ensures forall k :: k in rules'.vals <==> k in rules.vals || k == b.id || k in SplitBlock(b).1.vals
    ensures forall c :: c in SplitBlock(b).1.vals ==> rules'.vals[c] == SubRecord(titles, b.id, SplitBlock(b).1.vals[c])
    ensures forall k :: k in rules.vals && k != b.id && k !in SplitBlock(b).1.vals ==> rules'.vals[k] == rules.vals[k]
    ensures rules'.keys == Dedup(rules.keys + ([b.id] + SplitBlock(b).1.keys))
  {
    var sid := SectionPart(b.id);
    var title := if sid in sections.vals then sections.vals[sid].title else UnknownSection;
    SameTitlesTitleFor(titles, sections, sid);
    var parts := SplitBlock(b);
    var mainText := parts.0;
    var subs := parts.1;
    var related := RuleRefs.ExtractRelatedRules(mainText);
    var main := Rule(b.id, mainText, sid, title, related, false, None, subs.keys);
    assert main == MainRecord(titles, b);
    PutEntry(titles, rules, b.id, main);
    var withMain := rules.Put(b.id, main);
    sections' := sections;
    if sid in sections.vals {
      sections' := sections.Set(sid, sections.vals[sid].(rules := sections.vals[sid].rules + [b.id]));
    }
    rules' := AddSubrules(titles, withMain, b.id, subs, title);
    BlockStored(titles, rules, withMain, rules', b, subs, main);
    BlockSubsStored(titles, rules, withMain, rules', b, subs, main, title);
    BlockKeyOrder(rules, withMain, rules', b.id, main, subs.keys);
  }

  /** The block's id goes after the keys so far, and its subrule ids after it,
      each only if not already present. */
  lemma BlockKeyOrder(rules: OMap<Rule>, mid: OMap<Rule>, rules': OMap<Rule>, id: string, m: Rule, subKeys: seq<string>)
    requires rules.Valid() && mid == rules.Put(id, m) && rules'.keys == Dedup(mid.keys + subKeys)
    ensures rules'.keys == Dedup(rules.keys + ([id] + subKeys))
  {
    assert Distinct(rules.keys);
    DedupDistinct(rules.keys);
    PutDedup(rules, rules.keys, id, m);
    DedupAppend(rules.keys + [id], subKeys);
    DedupRegroup(rules.keys, id, subKeys);
  }

  /** What storing a block does to the ids other than the main rule's: its
      subrules are stored with its section title, and nothing else changes. */
  lemma BlockSubsStored(titles: OMap<Section>, rules: OMap<Rule>, mid: OMap<Rule>, rules': OMap<Rule>,
                        b: RuleBlock, subs: OMap<Rule>, m: Rule, title: string)
    requires RuleIdForm(b.id) && subs == SplitBlock(b).1 && title == TitleFor(titles, SectionPart(b.id))
    requires rules.Valid() && mid == rules.Put(b.id, m)
    requires forall c :: c in subs.keys ==> c in rules'.vals && rules'.vals[c] == subs.vals[c].(sectionTitle := title)
    requires forall k :: k in rules'.vals <==> k in mid.vals || k in subs.keys
    requires forall k :: k in mid.vals && k !in subs.keys ==> rules'.vals[k] == mid.vals[k]
    ensures forall k :: k in rules'.vals <==> k in rules.vals || k == b.id || k in SplitBlock(b).1.vals
    ensures forall c :: c in SplitBlock(b).1.vals ==> rules'.vals[c] == SubRecord(titles, b.id, SplitBlock(b).1.vals[c])
    ensures forall k :: k in rules.vals && k != b.id && k !in SplitBlock(b).1.vals ==> rules'.vals[k] == rules.vals[k]
  {
    assert subs.Valid();
  }

  /** `rules_db["sections"][section_id]["rules"].append(rule_id)` when the section exists. */
  function AppendToSection(sections: OMap<Section>, id: string): (r: OMap<Section>)
    ensures r.keys == sections.keys && r.vals.Keys == sections.vals.Keys
    ensures forall k :: k in sections.vals ==> (r.vals[k] ==
      if k == SectionPart(id) then sections.vals[k].(rules := sections.vals[k].rules + [id]) else sections.vals[k])
  {
    var sid := SectionPart(id);
    if sid in sections.vals then sections.Set(sid, sections.vals[sid].(rules := sections.vals[sid].rules + [id]))
    else sections
  }

  lemma BlockStored(titles: OMap<Section>, rules: OMap<Rule>, mid: OMap<Rule>, rules': OMap<Rule>, b: RuleBlock, subs: OMap<Rule>, m: Rule)
    requires RuleIdForm(b.id) && Linked(rules) && subs.Valid() && rules.Valid() && TableOk(titles, rules)
    requires forall c :: c in subs.vals ==> SubShape(b.id, c, subs.vals[c])
    requires mid == rules.Put(b.id, m) && m.subrules == subs.keys && !m.isSubrule
    requires forall c :: c in subs.keys ==> c in rules'.vals && rules'.vals[c].isSubrule
    requires forall k :: k in rules'.vals <==> k in mid.vals || k in subs.keys
    requires forall k :: k in mid.vals && k !in subs.keys ==> rules'.vals[k] == mid.vals[k]
    ensures Linked(rules')
    ensures b.id in rules'.vals && rules'.vals[b.id] == m
    ensures forall k :: k in rules.vals && !rules.vals[k].isSubrule && k != b.id ==> rules'.vals[k] == rules.vals[k]
  {
    assert !SubKeyOf(b.id, b.id);
    assert b.id !in subs.keys;
    BlockKeeps(titles, rules, mid, rules', b, subs, m);
    BlockLinked(rules, mid, rules', b, subs, m);
  }

  lemma BlockKeeps(titles: OMap<Section>, rules: OMap<Rule>, mid: OMap<Rule>, rules': OMap<Rule>, b: RuleBlock, subs: OMap<Rule>, m: Rule)
    requires RuleIdForm(b.id) && rules.Valid() && subs.Valid() && TableOk(titles, rules)
    requires forall c :: c in subs.vals ==> SubShape(b.id, c, subs.vals[c])
    requires mid == rules.Put(b.id, m)
    requires forall k :: k in mid.vals ==> k in rules'.vals
    requires forall k :: k in mid.vals && k !in subs.keys ==> rules'.vals[k] == mid.vals[k]
    ensures forall k :: k in rules.vals && !rules.vals[k].isSubrule && k != b.id ==> rules'.vals[k] == rules.vals[k]
  {
    forall k | k in rules.vals && !rules.vals[k].isSubrule && k != b.id
      ensures rules'.vals[k] == rules.vals[k]
    {
      assert MainOk(titles, k, rules.vals[k]);
      MainKeyIsNoSubKey(k, b.id);
      assert k !in subs.vals;
      assert k !in subs.keys;
      assert mid.vals[k] == rules.vals[k];
    }
  }

  lemma BlockLinked(rules: OMap<Rule>, mid: OMap<Rule>, rules': OMap<Rule>, b: RuleBlock, subs: OMap<Rule>, m: Rule)
    requires Linked(rules) && rules.Valid() && subs.Valid() && b.id !in subs.keys
    requires mid == rules.Put(b.id, m) && m.subrules == subs.keys && !m.isSubrule
    requires forall c :: c in subs.keys ==> c in rules'.vals && rules'.vals[c].isSubrule
    requires forall k :: k in rules'.vals <==> k in mid.vals || k in subs.keys
    requires forall k :: k in mid.vals && k !in subs.keys ==> rules'.vals[k] == mid.vals[k]
    ensures Linked(rules')
  {
    forall k, c | k in rules'.vals && !rules'.vals[k].isSubrule && c in rules'.vals[k].subrules
      ensures c in rules'.vals
    {
      assert k !in subs.keys;
      if k != b.id {
        assert k in rules.vals;
        assert rules'.vals[k] == rules.vals[k];
        assert c in rules.vals;
      }
    }
  }


  // ---------------------------------------------------------------------------
  // The rule loop.

  /** No block of bs after a and before n has the id of block a. */
  predicate LastBlockBefore(bs: seq<RuleBlock>, a: nat, n: nat)
  {
    a < n <= |bs| && forall c :: a < c < n ==> bs[c].id != bs[a].id
  }

  /** The sections after the first i blocks: each keeps its title and lists the
      ids of those blocks that lie in it, in order. */
  ghost predicate SectionsInv(s0: OMap<Section>, bs: seq<RuleBlock>, i: nat, sections: OMap<Section>)
    requires i <= |bs|
  {
    && sections.Valid() && sections.keys == s0.keys && sections.vals.Keys == s0.vals.Keys
    && (forall k :: k in sections.vals ==> sections.vals[k] == s0.vals[k].(rules := IdsInSection(bs[..i], k)))
  }

  /** Every id of the first i blocks is a main rule, and the last of those blocks
      with a given id decides its record; `recs[a]` is the record of block a. */
  ghost predicate BlocksInv(bs: seq<RuleBlock>, recs: seq<Rule>, i: nat, rules: OMap<Rule>)
    requires i <= |bs| == |recs|
  {
    && (forall a :: 0 <= a < i ==> bs[a].id in rules.vals && !rules.vals[bs[a].id].isSubrule)
    && (forall a :: 0 <= a < i && LastBlockBefore(bs, a, i) ==> rules.vals[bs[a].id] == recs[a])
  }

  lemma IdsInSectionSnoc(bs: seq<RuleBlock>, i: nat, k: string)
    requires i < |bs|
    ensures IdsInSection(bs[..i + 1], k) == IdsInSection(bs[..i], k) + (if SectionPart(bs[i].id) == k then [bs[i].id] else [])
  {
    assert bs[..i + 1][..i] == bs[..i];
  }

  lemma SectionsStep(s0: OMap<Section>, bs: seq<RuleBlock>, i: nat, sections: OMap<Section>)
    requires i < |bs| && SectionsInv(s0, bs, i, sections)
    ensures SectionsInv(s0, bs, i + 1, AppendToSection(sections, bs[i].id))
  {
    var next := AppendToSection(sections, bs[i].id);
    forall k | k in next.vals ensures next.vals[k] == s0.vals[k].(rules := IdsInSection(bs[..i + 1], k)) {
      IdsInSectionSnoc(bs, i, k);
    }
  }

  lemma BlocksStep(bs: seq<RuleBlock>, recs: seq<Rule>, i: nat, rules: OMap<Rule>, rules': OMap<Rule>)
    requires i < |bs| == |recs| && BlocksInv(bs, recs, i, rules)
    requires bs[i].id in rules'.vals && rules'.vals[bs[i].id] == recs[i] && !recs[i].isSubrule
    requires forall k :: k in rules.vals ==> k in rules'.vals
    requires forall k :: k in rules.vals && !rules.vals[k].isSubrule && k != bs[i].id ==> rules'.vals[k] == rules.vals[k]
    ensures BlocksInv(bs, recs, i + 1, rules')
  {
    var b := bs[i];
    forall a | 0 <= a < i + 1 ensures bs[a].id in rules'.vals && !rules'.vals[bs[a].id].isSubrule {
      if a < i && bs[a].id != b.id {
        assert rules'.vals[bs[a].id] == rules.vals[bs[a].id];
      }
    }
    forall a | 0 <= a < i + 1 && LastBlockBefore(bs, a, i + 1) ensures rules'.vals[bs[a].id] == recs[a] {
      if a < i {
        assert LastBlockBefore(bs, a, i) && bs[a].id != b.id;
        assert rules'.vals[bs[a].id] == rules.vals[bs[a].id];
      }
    }
  }

  /** Block a, one of the first n, has c among its subrules, and no later one
      of them does. */
  predicate LastSubBefore(subs: seq<OMap<Rule>>, a: int, c: string, n: int)
  {
    0 <= a < n <= |subs| && c in subs[a].vals && forall d :: a < d < n ==> c !in subs[d].vals
  }

  /** subs[a] holds subrules of block a: their ids are its id and a letter. */
  predicate SubsShaped(bs: seq<RuleBlock>, subs: seq<OMap<Rule>>)
  {
    && |bs| == |subs|
    && (forall a :: 0 <= a < |bs| ==> RuleIdForm(bs[a].id))
    && (forall a, c :: 0 <= a < |subs| && c in subs[a].vals ==> SubKeyOf(c, bs[a].id))
  }

  lemma SplitsShaped(bs: seq<RuleBlock>)
    requires forall a :: 0 <= a < |bs| ==> RuleIdForm(bs[a].id)
    ensures SubsShaped(bs, Splits(bs))
  {
    var subs := Splits(bs);
    forall a, c | 0 <= a < |subs| && c in subs[a].vals ensures SubKeyOf(c, bs[a].id) {
      assert SubShape(bs[a].id, c, SplitBlock(bs[a]).1.vals[c]);
    }
  }

  /** The rule table's keys are in the order the compiler first assigns them:
      each block's id, then its subrule ids in dictionary order; a key assigned
      again keeps its first place. */
  ghost predicate AssignedInOrder(bs: seq<RuleBlock>, rules: OMap<Rule>)
    requires forall a :: 0 <= a < |bs| ==> RuleIdForm(bs[a].id)
  {
    rules.keys == Dedup(AssignedIds(bs, Splits(bs), |bs|))
  }

  /** The ids the rule loop assigns over the first n blocks, in assignment
      order: each block's id, then its subrule ids in dictionary order. */
  function AssignedIds(bs: seq<RuleBlock>, subs: seq<OMap<Rule>>, n: nat): seq<string>
    requires n <= |bs| == |subs|
  {
    if n == 0 then [] else AssignedIds(bs, subs, n - 1) + ([bs[n - 1].id] + subs[n - 1].keys)
  }

  lemma OrderStep(bs: seq<RuleBlock>, subs: seq<OMap<Rule>>, i: nat, rules: OMap<Rule>, rules': OMap<Rule>)
    requires i < |bs| == |subs|
    requires rules.keys == Dedup(AssignedIds(bs, subs, i))
    requires rules'.keys == Dedup(rules.keys + ([bs[i].id] + subs[i].keys))
    ensures rules'.keys == Dedup(AssignedIds(bs, subs, i + 1))
  {
    DedupAppend(AssignedIds(bs, subs, i), [bs[i].id] + subs[i].keys);
  }

  /** After the first i blocks the table holds exactly their ids and their
      subrule ids, and each subrule id holds the record of the last of those
      blocks that split it out, with that block's section title. */
  ghost predicate SubsInv(bs: seq<RuleBlock>, subs: seq<OMap<Rule>>, titles: OMap<Section>, i: nat, rules: OMap<Rule>)
    requires i <= |bs| == |subs|
  {
    rules.vals.Keys == BlockKeys(bs, subs, i) && SubsStored(bs, subs, titles, i, rules)
  }

  ghost predicate SubsStored(bs: seq<RuleBlock>, subs: seq<OMap<Rule>>, titles: OMap<Section>, i: nat, rules: OMap<Rule>)
    requires i <= |bs| == |subs|
  {
    forall a, c {:trigger LastSubBefore(subs, a, c, i)} ::
      LastSubBefore(subs, a, c, i) ==> c in rules.vals && rules.vals[c] == SubRecord(titles, bs[a].id, subs[a].vals[c])
  }

  lemma SubsStep(bs: seq<RuleBlock>, subs: seq<OMap<Rule>>, titles: OMap<Section>, i: nat, rules: OMap<Rule>, rules': OMap<Rule>)
    requires i < |bs| && SubsShaped(bs, subs)
    requires SubsInv(bs, subs, titles, i, rules)
    requires forall k :: k in rules'.vals <==> k in rules.vals || k == bs[i].id || k in subs[i].vals
    requires forall c :: c in subs[i].vals ==> rules'.vals[c] == SubRecord(titles, bs[i].id, subs[i].vals[c])
    requires forall k :: k in rules.vals && k != bs[i].id && k !in subs[i].vals ==> rules'.vals[k] == rules.vals[k]
    ensures SubsInv(bs, subs, titles, i + 1, rules')
  {
    SubsKeysStep(bs, subs, i, rules, rules');
    assert BlockStep(bs[i], subs[i], titles, rules, rules');
    SubsValsStep(bs, subs, titles, i, rules, rules');
  }

  /** What storing block b with subrules sub does to the table: no id is lost,
      each subrule holds its record with b's section title, and every other
      entry but b's own is unchanged. */
  ghost predicate BlockStep(b: RuleBlock, sub: OMap<Rule>, titles: OMap<Section>, rules: OMap<Rule>, rules': OMap<Rule>)
  {
    && (forall k :: k in rules.vals ==> k in rules'.vals)
    && (forall c :: c in sub.vals ==> c in rules'.vals && rules'.vals[c] == SubRecord(titles, b.id, sub.vals[c]))
    && (forall k :: k in rules.vals && k != b.id && k !in sub.vals ==> rules'.vals[k] == rules.vals[k])
  }

  lemma SubsValsStep(bs: seq<RuleBlock>, subs: seq<OMap<Rule>>, titles: OMap<Section>, i: nat, rules: OMap<Rule>, rules': OMap<Rule>)
    requires i < |bs| && SubsShaped(bs, subs)
    requires SubsInv(bs, subs, titles, i, rules)
    requires BlockStep(bs[i], subs[i], titles, rules, rules')
    ensures forall a, c {:trigger LastSubBefore(subs, a, c, i + 1)} ::
      LastSubBefore(subs, a, c, i + 1) ==>
        c in rules'.vals && rules'.vals[c] == SubRecord(titles, bs[a].id, subs[a].vals[c])
  {
    forall a, c | LastSubBefore(subs, a, c, i + 1)
      ensures c in rules'.vals && rules'.vals[c] == SubRecord(titles, bs[a].id, subs[a].vals[c])
    {
      SubKept(bs, subs, titles, i, a, c, rules, rules');
    }
  }

  lemma SubsKeysStep(bs: seq<RuleBlock>, subs: seq<OMap<Rule>>, i: nat, rules: OMap<Rule>, rules': OMap<Rule>)
    requires i < |bs| == |subs|
    requires rules.vals.Keys == BlockKeys(bs, subs, i)
    requires forall k :: k in rules'.vals <==> k in rules.vals || k == bs[i].id || k in subs[i].vals
    ensures rules'.vals.Keys == BlockKeys(bs, subs, i + 1)
  {
  }

  /** After block i, a subrule holds the record of the last block that split it out. */
  lemma SubKept(bs: seq<RuleBlock>, subs: seq<OMap<Rule>>, titles: OMap<Section>, i: nat, a: int, c: string,
                rules: OMap<Rule>, rules': OMap<Rule>)
    requires i < |bs| && SubsShaped(bs, subs)
    requires LastSubBefore(subs, a, c, i + 1)
    requires SubsInv(bs, subs, titles, i, rules)
    requires BlockStep(bs[i], subs[i], titles, rules, rules')
    ensures c in rules'.vals && rules'.vals[c] == SubRecord(titles, bs[a].id, subs[a].vals[c])
  {
    if a < i {
      assert c !in subs[i].vals;
      assert LastSubBefore(subs, a, c, i);
      SubKeySection(c, bs[a].id);
    }
  }

  /** The rule loop of `process_rules_database` over the blocks bs, with the
      section table s0 built before it. */
  method BuildRuleTable(s0: OMap<Section>, bs: seq<RuleBlock>) returns (sections: OMap<Section>, rules: OMap<Rule>)
    requires s0.Valid() && forall k :: k in s0.vals ==> s0.vals[k].rules == []
    requires forall a :: 0 <= a < |bs| ==> RuleIdForm(bs[a].id)
    ensures SectionsInv(s0, bs, |bs|, sections)
    ensures rules.Valid() && TableOk(s0, rules) && Linked(rules)
    ensures forall a :: 0 <= a < |bs| ==> bs[a].id in rules.vals && !rules.vals[bs[a].id].isSubrule
    ensures forall a {:trigger LastBlockBefore(bs, a, |bs|)} :: 0 <= a < |bs| && LastBlockBefore(bs, a, |bs|) ==> rules.vals[bs[a].id] == MainRecord(s0, bs[a])
    ensures SubsInv(bs, Splits(bs), s0, |bs|, rules)
    ensures AssignedInOrder(bs, rules)
  {
    ghost var recs := seq(|bs|, a requires 0 <= a < |bs| => MainRecord(s0, bs[a]));
    ghost var subs := Splits(bs);
    SplitsShaped(bs);
    sections := s0;
    rules := Empty();
    for i := 0 to |bs|
      invariant SectionsInv(s0, bs, i, sections)
      invariant rules.Valid() && TableOk(s0, rules) && Linked(rules)
      invariant BlocksInv(bs, recs, i, rules)
      invariant SubsInv(bs, subs, s0, i, rules)
      invariant rules.keys == Dedup(AssignedIds(bs, subs, i))
    {
      SectionsStep(s0, bs, i, sections);
      ghost var before := rules;
      sections, rules := AddRuleBlock(s0, sections, rules, bs[i]);
      BlocksStep(bs, recs, i, before, rules);
      SubsStep(bs, subs, s0, i, before, rules);
      OrderStep(bs, subs, i, before, rules);
    }
  }

  // ---------------------------------------------------------------------------
  // `verify_rule_references`

  /** `re.match(r'^\d{3}$', x)`; `$` also matches before a final newline. */
  predicate SectionIdPattern(x: string)
  {
    (|x| == 3 && AllDigits(x)) || (|x| == 4 && AllDigits(x[..3]) && x[3] == '\n')
  }

  /** A reference the verifier keeps, given the sets of section ids and rule ids. */
  predicate ValidRef(sectionIds: set<string>, ruleIds: set<string>, x: string)
  {
    (SectionIdPattern(x) && x in sectionIds) || x in ruleIds
  }

  /** `sorted(set(verified))` for the verified part of `refs`. */
  function CheckedRefs(sectionIds: set<string>, ruleIds: set<string>, refs: seq<string>): (r: seq<string>)
    ensures StrictlySorted(r) && Distinct(r)
    ensures forall x :: x in r <==> x in refs && ValidRef(sectionIds, ruleIds, x)
  {
    var r := SortedUnique(Filter(x => ValidRef(sectionIds, ruleIds, x), refs));
    assert Distinct(r) by {
      forall i, j | 0 <= i < j < |r| ensures r[i] != r[j] { StrictlySortedDistinct(r, i, j); }
    }
    r
  }

  /** The references of one rule that survive: the inner loop of the verifier. */
  method VerifiedRefs(validSections: set<string>, validRules: set<string>, refs: seq<string>) returns (r: seq<string>)
    ensures r == CheckedRefs(validSections, validRules, refs)
  {
    var verified: seq<string> := [];
    for j := 0 to |refs|
      invariant verified == Filter(x => ValidRef(validSections, validRules, x), refs[..j])
    {
      var x := refs[j];
      FilterSnoc(x => ValidRef(validSections, validRules, x), refs[..j], x);
      assert refs[..j + 1] == refs[..j] + [x];
      if SectionIdPattern(x) && x in validSections {
        verified := verified + [x];
        continue;
      }
      if x in validRules {
        verified := verified + [x];
        continue;
      }
      // The section-expansion branch tests the condition already handled first,
      // so it is never taken.
      assert !(SectionIdPattern(x) && x in validSections);
    }
    assert refs[..|refs|] == refs;
    r := SortedUnique(verified);
  }

  /** The record of a rule once its references are checked. */
  function Checked(sectionIds: set<string>, ruleIds: set<string>, v: Rule): Rule
  {
    v.(relatedRules := CheckedRefs(sectionIds, ruleIds, v.relatedRules))
  }

  /** Only the `related_rules` fields change; each becomes its checked form
      against the ids present before the pass. */
  method VerifyRuleReferences(db: RulesDb) returns (r: RulesDb)
    requires db.rules.Valid()
    ensures r == db.(rules := r.rules)
    ensures r.rules.Valid() && r.rules.keys == db.rules.keys && r.rules.vals.Keys == db.rules.vals.Keys
    ensures forall k :: k in db.rules.vals ==>
      r.rules.vals[k] == Checked(db.sections.vals.Keys, db.rules.vals.Keys, db.rules.vals[k])
  {
    var validRules := db.rules.vals.Keys;
    var validSections := db.sections.vals.Keys;
    ghost var target := CheckTarget(validSections, validRules, db.rules);
    var rules := db.rules;
    for i := 0 to |db.rules.keys|
      invariant UpdatedUpTo(db.rules, target, i, rules)
    {
      var k := db.rules.keys[i];
      UpdateStep(db.rules, target, i, rules);
      var v := rules.vals[k];
      var refs := VerifiedRefs(validSections, validRules, v.relatedRules);
      CheckedIsTarget(validSections, validRules, db.rules, target, k, v, refs);
      rules := rules.Set(k, v.(relatedRules := refs));
    }
    UpdatedAll(db.rules, target, rules);
    r := db.(rules := rules);
  }

  /** Every rule checked. */
  ghost function CheckTarget(sectionIds: set<string>, ruleIds: set<string>, rules: OMap<Rule>): map<string, Rule>
  {
    map k | k in rules.vals :: Checked(sectionIds, ruleIds, rules.vals[k])
  }

  lemma CheckedIsTarget(sectionIds: set<string>, ruleIds: set<string>, rules: OMap<Rule>, target: map<string, Rule>,
                        k: string, v: Rule, refs: seq<string>)
    requires target == CheckTarget(sectionIds, ruleIds, rules)
    requires k in rules.vals && v == rules.vals[k] && refs == CheckedRefs(sectionIds, ruleIds, v.relatedRules)
    ensures k in target && v.(relatedRules := refs) == target[k]
  {
  }

  /** After verification, every reference is an existing rule or an existing
      section with a three-digit id, and is one of the references before. */
  lemma VerifiedRefsAreValid(db: RulesDb, k: string, x: string)
    requires k in db.rules.vals
    requires x in CheckedRefs(db.sections.vals.Keys, db.rules.vals.Keys, db.rules.vals[k].relatedRules)
    ensures x in db.rules.vals || (x in db.sections.vals && SectionIdPattern(x))
    ensures x in db.rules.vals[k].relatedRules
  {
  }

  // ---------------------------------------------------------------------------
  // `process_rules_database` without its file I/O.

  lemma TableOkSameTitles(a: OMap<Section>, b: OMap<Section>, rules: OMap<Rule>)
    requires SameTitles(a, b) && TableOk(a, rules)
    ensures TableOk(b, rules)
  {
    forall k | k in rules.vals ensures EntryOk(b, k, rules.vals[k]) {
      SameTitlesTitleFor(a, b, SectionPart(k));
    }
  }

  lemma MainRecordSameTitles(a: OMap<Section>, b: OMap<Section>, blk: RuleBlock)
    requires SameTitles(a, b) && RuleIdForm(blk.id)
    ensures MainRecord(a, blk) == MainRecord(b, blk)
  {
    SameTitlesTitleFor(a, b, SectionPart(blk.id));
  }

  /** Checking references changes no field that the table invariants speak of. */
  lemma CheckedKeepsTable(titles: OMap<Section>, rules: OMap<Rule>, rules': OMap<Rule>, sids: set<string>, rids: set<string>)
    requires TableOk(titles, rules) && Linked(rules) && rules'.vals.Keys == rules.vals.Keys
    requires forall k :: k in rules.vals ==> rules'.vals[k] == Checked(sids, rids, rules.vals[k])
    ensures TableOk(titles, rules') && Linked(rules')
  {
    forall k | k in rules'.vals ensures EntryOk(titles, k, rules'.vals[k]) {
      assert EntryOk(titles, k, rules.vals[k]);
    }
    forall k, c | k in rules'.vals && !rules'.vals[k].isSubrule && c in rules'.vals[k].subrules
      ensures c in rules'.vals
    {
      assert rules'.vals[k].subrules == rules.vals[k].subrules;
    }
  }

  /** Every block's rule is a main rule of the table, and the last block with a
      given id is the one whose record is stored. */
  ghost predicate MainsStored(bs: seq<RuleBlock>, sections: OMap<Section>, rules: OMap<Rule>)
    requires forall a :: 0 <= a < |bs| ==> RuleIdForm(bs[a].id)
  {
    && (forall a :: 0 <= a < |bs| ==> bs[a].id in rules.vals && !rules.vals[bs[a].id].isSubrule)
    && (forall a {:trigger LastBlockBefore(bs, a, |bs|)} :: 0 <= a < |bs| && LastBlockBefore(bs, a, |bs|) ==>
          rules.vals[bs[a].id] == MainRecord(sections, bs[a]))
  }

  lemma SubsRetitled(s0: OMap<Section>, bs: seq<RuleBlock>, subs: seq<OMap<Rule>>, sections: OMap<Section>, rules: OMap<Rule>)
    requires |bs| == |subs| && SubsInv(bs, subs, s0, |bs|, rules) && SameTitles(s0, sections)
    ensures SubsInv(bs, subs, sections, |bs|, rules)
  {
    forall a, c | LastSubBefore(subs, a, c, |bs|)
      ensures c in rules.vals && rules.vals[c] == SubRecord(sections, bs[a].id, subs[a].vals[c])
    {
      SameTitlesTitleFor(s0, sections, SectionPart(bs[a].id));
    }
  }

  /** The tables before reference checking: the sections in order of first
      appearance with the title of their last header and the ids of their rule
      blocks; every block's id a main rule, built by the last block with that id;
      every entry of the table in its shape. */
  method CompileTables(text: string) returns (sections: OMap<Section>, rules: OMap<Rule>)
    ensures sections.Valid() && rules.Valid()
    ensures var ms := FindSections(text, 0);
      && sections.keys == Dedup(SectionIds(ms))
      && (forall a :: 0 <= a < |ms| && LastBefore(ms, a, |ms|) ==> sections.vals[ms[a].id].title == ms[a].title)
    ensures var bs := FindRuleBlocks(text, 0);
      && (forall k :: k in sections.vals ==> sections.vals[k].id == k && sections.vals[k].rules == IdsInSection(bs, k))
      && MainsStored(bs, sections, rules)
      && SubsInv(bs, Splits(bs), sections, |bs|, rules)
      && AssignedInOrder(bs, rules)
    ensures TableOk(sections, rules) && Linked(rules)
  {
    var ms := FindSections(text, 0);
    var s0 := ScanSections(ms);
    var bs := FindRuleBlocks(text, 0);
    sections, rules := BuildRuleTable(s0, bs);
    assert bs[..|bs|] == bs;
    TablesRetitled(s0, bs, sections, rules);
    SubsRetitled(s0, bs, Splits(bs), sections, rules);
  }

  lemma TablesRetitled(s0: OMap<Section>, bs: seq<RuleBlock>, sections: OMap<Section>, rules: OMap<Rule>)
    requires forall a :: 0 <= a < |bs| ==> RuleIdForm(bs[a].id)
    requires SectionsInv(s0, bs, |bs|, sections) && TableOk(s0, rules)
    requires forall a :: 0 <= a < |bs| ==> bs[a].id in rules.vals
    requires forall a {:trigger LastBlockBefore(bs, a, |bs|)} :: 0 <= a < |bs| && LastBlockBefore(bs, a, |bs|) ==> rules.vals[bs[a].id] == MainRecord(s0, bs[a])
    ensures SameTitles(s0, sections) && TableOk(sections, rules)
    ensures forall a {:trigger LastBlockBefore(bs, a, |bs|)} :: 0 <= a < |bs| && LastBlockBefore(bs, a, |bs|) ==> rules.vals[bs[a].id] == MainRecord(sections, bs[a])
  {
    assert SameTitles(s0, sections);
    TableOkSameTitles(s0, sections, rules);
    forall a | 0 <= a < |bs| && LastBlockBefore(bs, a, |bs|) ensures rules.vals[bs[a].id] == MainRecord(sections, bs[a]) {
      MainRecordSameTitles(s0, sections, bs[a]);
    }
  }

  /** The compiled database: the tables above with every rule's references
      checked, so that only existing rules and sections remain, sorted; and the
      keyword index of the final rule table. */
  method CompileRulesDatabase(text: string) returns (db: RulesDb)
    ensures db.title == DatabaseTitle && db.effectiveDate == EffectiveDate(text) && db.glossary == Some(Empty())
    ensures db.Valid()
    ensures var ms := FindSections(text, 0);
      && db.sections.keys == Dedup(SectionIds(ms))
      && (forall a :: 0 <= a < |ms| && LastBefore(ms, a, |ms|) ==> db.sections.vals[ms[a].id].title == ms[a].title)
    ensures var bs := FindRuleBlocks(text, 0);
      && (forall k :: k in db.sections.vals ==> db.sections.vals[k].id == k && db.sections.vals[k].rules == IdsInSection(bs, k))
      && (forall a :: 0 <= a < |bs| ==> bs[a].id in db.rules.vals && !db.rules.vals[bs[a].id].isSubrule)
      && (forall a {:trigger LastBlockBefore(bs, a, |bs|)} :: 0 <= a < |bs| && LastBlockBefore(bs, a, |bs|) ==>
            db.rules.vals[bs[a].id] == Checked(db.sections.vals.Keys, db.rules.vals.Keys, MainRecord(db.sections, bs[a])))
    ensures SubrulesCompiled(FindRuleBlocks(text, 0), db.sections, db.rules)
    ensures AssignedInOrder(FindRuleBlocks(text, 0), db.rules)
    ensures TableOk(db.sections, db.rules) && Linked(db.rules)
    ensures forall k :: k in db.rules.vals ==> StrictlySorted(db.rules.vals[k].relatedRules)
    ensures forall k, x :: k in db.rules.vals && x in db.rules.vals[k].relatedRules ==>
      ValidRef(db.sections.vals.Keys, db.rules.vals.Keys, x)
    ensures db.keywordIndex == Some(KeywordIndex.IndexSpec(db.rules, KeywordIndex.MaxWordFrequency, KeywordIndex.MinWordLength))
  {
    var sections, rules := CompileTables(text);
    var db0 := RulesDb(DatabaseTitle, EffectiveDate(text), sections, rules, Some(Empty()), None);
    var db1 := VerifyRuleReferences(db0);
    CheckedFacts(FindRuleBlocks(text, 0), sections, rules, db1.rules);
    assert ChecksAll(sections.vals.Keys, rules, db1.rules);
    SubrulesChecked(FindRuleBlocks(text, 0), sections, rules, db1.rules);
    var index := KeywordIndex.BuildKeywordIndex(db1.rules, KeywordIndex.MaxWordFrequency, KeywordIndex.MinWordLength);
    db := RulesDb(db1.title, db1.effectiveDate, sections, db1.rules, db1.glossary, Some(index));
  }

  /** The rule table holds exactly the block ids and their subrule ids, and
      each subrule id holds the record of the last block that split it out,
      with that block's section title and its references checked. */
  ghost predicate SubrulesCompiled(bs: seq<RuleBlock>, sections: OMap<Section>, rules: OMap<Rule>)
    requires forall a :: 0 <= a < |bs| ==> RuleIdForm(bs[a].id)
  {
    var subs := Splits(bs);
    && rules.vals.Keys == BlockKeys(bs, subs, |bs|)
    && forall a, c {:trigger LastSubBefore(subs, a, c, |bs|)} ::
         LastSubBefore(subs, a, c, |bs|) ==>
           c in rules.vals && rules.vals[c] == Checked(sections.vals.Keys, rules.vals.Keys, SubRecord(sections, bs[a].id, subs[a].vals[c]))
  }

  lemma SubrulesChecked(bs: seq<RuleBlock>, sections: OMap<Section>, rules: OMap<Rule>, rules': OMap<Rule>)
    requires forall a :: 0 <= a < |bs| ==> RuleIdForm(bs[a].id)
    requires SubsInv(bs, Splits(bs), sections, |bs|, rules)
    requires ChecksAll(sections.vals.Keys, rules, rules')
    ensures SubrulesCompiled(bs, sections, rules')
  {
    CheckedSubs(bs, Splits(bs), sections, rules, rules');
  }

  lemma CheckedFacts(bs: seq<RuleBlock>, sections: OMap<Section>, rules: OMap<Rule>, rules': OMap<Rule>)
    requires forall a :: 0 <= a < |bs| ==> RuleIdForm(bs[a].id)
    requires TableOk(sections, rules) && Linked(rules)
    requires MainsStored(bs, sections, rules)
    requires rules'.vals.Keys == rules.vals.Keys
    requires forall k :: k in rules.vals ==> rules'.vals[k] == Checked(sections.vals.Keys, rules.vals.Keys, rules.vals[k])
    ensures TableOk(sections, rules') && Linked(rules')
    ensures forall a :: 0 <= a < |bs| ==> bs[a].id in rules'.vals && !rules'.vals[bs[a].id].isSubrule
    ensures forall a {:trigger LastBlockBefore(bs, a, |bs|)} :: 0 <= a < |bs| && LastBlockBefore(bs, a, |bs|) ==>
      rules'.vals[bs[a].id] == Checked(sections.vals.Keys, rules'.vals.Keys, MainRecord(sections, bs[a]))
    ensures forall k :: k in rules'.vals ==> StrictlySorted(rules'.vals[k].relatedRules)
    ensures forall k, x :: k in rules'.vals && x in rules'.vals[k].relatedRules ==>
      ValidRef(sections.vals.Keys, rules'.vals.Keys, x)
  {
    CheckedKeepsTable(sections, rules, rules', sections.vals.Keys, rules.vals.Keys);
  }

  /** Checking references checks each subrule entry. */
  lemma CheckedSubs(bs: seq<RuleBlock>, subs: seq<OMap<Rule>>, sections: OMap<Section>, rules: OMap<Rule>, rules': OMap<Rule>)
    requires |bs| == |subs| && SubsStored(bs, subs, sections, |bs|, rules)
    requires ChecksAll(sections.vals.Keys, rules, rules')
    ensures forall a, c {:trigger LastSubBefore(subs, a, c, |bs|)} ::
      LastSubBefore(subs, a, c, |bs|) ==>
        c in rules'.vals && rules'.vals[c] == Checked(sections.vals.Keys, rules'.vals.Keys, SubRecord(sections, bs[a].id, subs[a].vals[c]))
  {
    var f := (v: Rule) => Checked(sections.vals.Keys, rules.vals.Keys, v);
    SubsMapped(bs, subs, sections, rules, rules', f);
  }

  /** `rules'` is `rules` with every entry's references checked. */
  ghost predicate ChecksAll(sids: set<string>, rules: OMap<Rule>, rules': OMap<Rule>)
  {
    && rules'.vals.Keys == rules.vals.Keys
    && forall k :: k in rules.vals ==> rules'.vals[k] == Checked(sids, rules.vals.Keys, rules.vals[k])
  }

  /** Rewriting every entry with f rewrites each stored subrule record with f. */
  lemma SubsMapped(bs: seq<RuleBlock>, subs: seq<OMap<Rule>>, sections: OMap<Section>, rules: OMap<Rule>, rules': OMap<Rule>, f: Rule -> Rule)
    requires |bs| == |subs| && SubsStored(bs, subs, sections, |bs|, rules)
    requires rules'.vals.Keys == rules.vals.Keys
    requires forall k :: k in rules.vals ==> rules'.vals[k] == f(rules.vals[k])
    ensures forall a, c {:trigger LastSubBefore(subs, a, c, |bs|)} ::
      LastSubBefore(subs, a, c, |bs|) ==>
        c in rules'.vals && rules'.vals[c] == f(SubRecord(sections, bs[a].id, subs[a].vals[c]))
  {
  }
}
