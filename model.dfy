/** The records of the compiled rules database (the JSON snapshot). */
module RulesModel {
  import opened Text
  import opened OrderedMaps

  /** A rule or a lettered subrule. The constant `"type": "rule"` field is omitted. */
  datatype Rule = Rule(
    id: string,
    text: string,
    sectionId: string,
    sectionTitle: string,
    relatedRules: seq<string>,
    isSubrule: bool,
    parentRuleId: Option<string>,
    subrules: seq<string>)

  datatype Section = Section(id: string, title: string, rules: seq<string>)

  /** `referenceTo` is present only on "See X" redirect entries. */
  datatype GlossaryEntry = GlossaryEntry(
    term: string,
    definition: string,
    referenceTo: Option<string>,
    relatedRules: seq<string>)

  /** The snapshot. `glossary` and `keywordIndex` are optional keys in the JSON
      document; the query engine tests for them. The keyword index is only ever
      looked up, so its key order is not kept. */
  datatype RulesDb = RulesDb(
    title: string,
    effectiveDate: Option<string>,
    sections: OMap<Section>,
    rules: OMap<Rule>,
    glossary: Option<OMap<GlossaryEntry>>,
    keywordIndex: Option<map<string, seq<string>>>)
  {
    ghost predicate Valid()
    {
      sections.Valid() && rules.Valid() && (glossary.Some? ==> glossary.value.Valid())
    }
  }

  const DatabaseTitle: string := "Magic: The Gathering Comprehensive Rules"

  /** `rule_id.split('.')[0]` */
  function SectionPart(id: string): (r: string)
    ensures r <= id && '.' !in r
  {
    BeforeFirst(id, '.')
  }
}
