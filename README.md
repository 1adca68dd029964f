# Magic: The Gathering rules compiler and rules service, in Dafny

This project models the two parts of mtgHobbyApi that hold its logic:

- **The rules compiler** (`app/db/rulesTxtToJson.py`). It turns the plain-text
  Comprehensive Rules into a database:
  - the effective date;
  - a section table and a flat rule table;
  - lettered subrules split out of their rule blocks;
  - verified cross-references;
  - a bounded inverted keyword index;
  - a glossary, merged against the rule table.
- **The rules service** (`app/services/rule_service.py`). The class
  `JsonRulesService` loads that database lazily and answers five read-only
  queries: rule search, section view, rule view, glossary search and the
  Commander view.

Each regular expression is a hand-written scanner with the `re` module's own
semantics:
- the leftmost match wins, and `findall`/`finditer` never overlap matches;
- quantifiers are greedy or lazy exactly as written, with the backtracking that
  changes a result;
- MULTILINE `^` and `$` are modelled, and `$` also matches before a final newline;
- IGNORECASE widens `[a-z]`;
- `\d`, `\s`, `\w` and `\b` are the ASCII classes.

Python dictionaries are `OMap`s: a key sequence plus a map. Assigning an
existing key keeps its place, as a `dict` does. Every "first N" cut in the
service therefore follows the same order as the source.

Layout, one module per file:

| file | module | what it holds |
|---|---|---|
| text.dfy | Text | character classes, `lower`, `strip`, `split`, substring tests, `sorted(set(...))`, list helpers |
| omap.dfy | OrderedMaps | the insertion-ordered dictionary |
| model.dfy | RulesModel | rule, section, glossary entry and database records |
| refs.dfy | RuleRefs | `extract_related_rules`: the seven patterns, the format filter, the sort |
| subrules.dfy | Subrules | `extract_subrules` |
| docscan.dfy | DocScan | the document scans of `process_rules_database`, and its main-text clean-up |
| compiler.dfy | Compiler | the section and rule loops, `verify_rule_references`, the database build |
| keywords.dfy | KeywordIndex | `create_optimized_keyword_index`: both counting passes, and the index specified as a function |
| glossary.dfy | Glossary | `process_glossary`: the blank-line split, entry parsing, the parse loop, the merge |
| queries.dfy | Queries | what each query returns, as functions of the database, and the properties of those results |
| service.dfy | RuleService | the class `JsonRulesService` and the loops behind each query |

The stateful and loop-based parts are imperative Dafny. Each is proved equal to
a specification function, and the properties are proved about that function:
- the section loop, the rule loop and the reference verifier;
- both keyword-index passes;
- the glossary parse loop and the merge;
- every service loop.

The load step is stateful: `load_db` is a method on the class that changes only
`db` and `isLoaded`. The scanners and the reference extractor are pure
functions.

Some behaviours of the code are easy to miss. The model keeps each of them:

- **Section expansion never runs.** `verify_rule_references` has a branch that
  expands a bare three-digit section reference into the section's first rule
  (app/db/rulesTxtToJson.py:189-194). A section id that passes its test has
  already been kept by the earlier section-id branch, so the branch is dead.
  `Compiler.VerifiedRefs` asserts this at the branch.
- **Two-line redirects are definitions.** The comment at
  app/db/rulesTxtToJson.py:361 names the entry "Forestcycling" followed by
  "See Typecycling." on a second line. An entry with a second line always gets
  a definition, though, so it never reaches the redirect branch. Only a single
  line that contains "See " past its start becomes a redirect
  (`Glossary.OneLineRedirect`, `Glossary.MultiLineEntry`).
- **The last rule block runs to the end.** The text of the last rule block runs
  to the end of the document, because its lookahead accepts `\Z`.
- **Index hits and title hits are not compared.** Only the two full-text scans
  skip an id that is already in the results (app/services/rule_service.py:200
  and 226). An index hit and a title hit can therefore both appear.
- **The relevance sort changes nothing.** The results are already in
  non-increasing relevance when they reach the sort, so the sort never changes
  their order (`Queries.KeywordSortKeepsOrder`).
- **`referenced_rules` can be absent.** `get_rule` adds the key only when at
  least one related rule exists (app/services/rule_service.py:356-357).

## Model

| member | source | states |
|---|---|---|
| RuleRefs.ExtractRelatedRules | app/db/rulesTxtToJson.py:10-65 | The result is strictly sorted in Python string order, so it has no duplicates. Every element has the canonical form `DDD` or `DDD.D+[a-z]?`. An element is in the result exactly when one of the seven patterns captures it and it has that form. |
| RuleRefs.ExtractedDistinct | app/db/rulesTxtToJson.py:55-65 | No reference appears twice in the result. |
| RuleRefs.DigitsOnlyCanonicalIffThree | app/db/rulesTxtToJson.py:35-36 | A capture made only of digits, such as the "1234" of "section 1234", passes the format check exactly when it has three digits. |
| RuleRefs.LetteredRangeLeftEndPoint | app/db/rulesTxtToJson.py:50-52 | In "701.3a–d" the lettered-range pattern captures only the left end point "701.3a". |
| RuleRefs.SentenceStartIsCaseSensitive | app/db/rulesTxtToJson.py:46-48 | After a dotted reference and a space, a lower-case letter gives no sentence-start match and a capital letter gives one. The pattern has no IGNORECASE. |
| RuleRefs.CleanKeepsCapture | app/db/rulesTxtToJson.py:56-63 | Stripping '.' and ',' never changes a capture. For a capture, the anchored format check equals the canonical-form test. |
| RuleRefs.RefEnd | app/db/rulesTxtToJson.py:26 | The reference fragment spans at least three digits. It ends in a digit or a letter. Without IGNORECASE it is in canonical form. |
| RuleRefs.MatchRuleRef | app/db/rulesTxtToJson.py:26 | A match of `rule\s+(REF)` ends after the position it starts at. It captures one reference-like string. |
| RuleRefs.MatchRulesPair | app/db/rulesTxtToJson.py:30-32 | A match of "rules A and B" or "rules A, B" captures exactly two reference-like strings. |
| RuleRefs.MatchSectionRef | app/db/rulesTxtToJson.py:35 | A match of `section\s+(\d+)` captures one run of digits. |
| RuleRefs.MatchSeeRef | app/db/rulesTxtToJson.py:39 | A match of `see\s+(?:rule\s+)?(REF)` captures one reference-like string. |
| RuleRefs.MatchParenSeeRef | app/db/rulesTxtToJson.py:43 | A match of the parenthesised "see" pattern captures one reference-like string. |
| RuleRefs.MatchSentenceStart | app/db/rulesTxtToJson.py:47 | A match captures a canonical dotted reference at its start. The match ends in a capital letter that follows white space. |
| RuleRefs.MatchLetteredRange | app/db/rulesTxtToJson.py:51 | A match captures the canonical dotted reference just before an en dash, and an en dash and a lower-case letter close the match. |
| RuleRefs.FindAll | app/db/rulesTxtToJson.py:26-52 | Every string that `findall` collects for a pattern is non-empty and ends in a digit or a letter. |
| Text.SortedUnique | app/db/rulesTxtToJson.py:197 | `sorted(set(xs))` is strictly increasing and holds exactly the elements of `xs`. |
| Text.Strip | app/db/rulesTxtToJson.py:132 | `str.strip()` gives a slice of the input that neither starts nor ends with white space. An all-white-space input strips to empty. |
| OrderedMaps.OMap.Put | app/db/rulesTxtToJson.py:268 | Dictionary assignment: a new key goes last, an existing key keeps its place, and the value is replaced. |
| Subrules.NextStop | app/db/rulesTxtToJson.py:121 | The lazy subrule body stops at the first later `<base><letter>` header, or at the end of the text. |
| Subrules.MatchHeader | app/db/rulesTxtToJson.py:121 | A match starts at a `<base><letter>` header and captures that letter. Its body is non-empty and ends where the match ends. Where there is no header, there is no match. |
| Subrules.FindHeaders | app/db/rulesTxtToJson.py:124 | `finditer` gives matches in increasing, non-overlapping order, each the match at its own start. No match starts before the first one returned, and when none is returned no position matches. |
| Subrules.Collect | app/db/rulesTxtToJson.py:135-154 | The subrule dictionary has exactly the keys base+letter of the matches, in order of first appearance. Every record is a subrule of the rule. Under each key is the record of the last match with that letter. |
| Subrules.SubruleRecordShape | app/db/rulesTxtToJson.py:136-153 | Each subrule record has: id base+letter; `is_subrule` true; parent = base; section = `rule_id` up to its first dot; title empty; no children; stripped text and the references extracted from it. |
| Subrules.ExtractSubrules | app/db/rulesTxtToJson.py:100-156 | Every subrule satisfies the per-subrule shape. The dictionary is empty exactly when there is no match. Its keys are the match ids in order of first appearance, and each holds the record of the last match with its letter. |
| Subrules.NoHeaderUnchanged | app/db/rulesTxtToJson.py:124-128 | With no embedded header, the text comes back unchanged with an empty dictionary. |
| Subrules.MainTextBeforeFirstHeader | app/db/rulesTxtToJson.py:130-132 | With matches, the main text is the stripped text before the leftmost match. |
| Subrules.SubrulesPointAtRule | app/db/rulesTxtToJson.py:139-152 | For a rule id without a trailing dot, each subrule id is that id plus one letter, and the subrule points back at that id. |
| DocScan.EffectiveDate | app/db/rulesTxtToJson.py:229-231 | The date comes from the leftmost occurrence of the phrase that is followed by a character other than '.'. It holds no '.'. There is no date exactly when no position matches. |
| DocScan.MatchSection | app/db/rulesTxtToJson.py:234 | A section header starts a line with three digits, a dot and white space. Its match ends at a newline or at the end of the text. |
| DocScan.FindSections | app/db/rulesTxtToJson.py:235-236 | Every section id found is exactly three digits. |
| DocScan.NextRuleStop | app/db/rulesTxtToJson.py:247 | The lazy rule body stops at the first later line that starts with `DDD.D+.`, or at the end of the text. |
| DocScan.MatchRuleBlock | app/db/rulesTxtToJson.py:247 | A rule block starts at a rule head, and its id is the head's `DDD.D+`. It stops at the next head or at the end. |
| DocScan.FindRuleBlocks | app/db/rulesTxtToJson.py:249-250 | Every rule id found has the form `DDD.D+`. |
| DocScan.ReplaceNewlineRuns | app/db/rulesTxtToJson.py:261 | The result has no newline, and text without newlines is unchanged. |
| DocScan.CollapseSpaces | app/db/rulesTxtToJson.py:262 | The result has no newline and no run of two white-space characters. |
| DocScan.CleanMainText | app/db/rulesTxtToJson.py:261-262 | A cleaned main text has no newline, and its white space is single blanks. |
| DocScan.CollapseNormalIdentity | app/db/rulesTxtToJson.py:262 | The collapse leaves normal text unchanged. |
| DocScan.CleanIdempotent | app/db/rulesTxtToJson.py:261-262 | Cleaning twice is cleaning once. |
| Compiler.ScanSections | app/db/rulesTxtToJson.py:234-243 | There is one section per id, in order of first appearance. Each has the title of the last header with that id and an empty rule list. |
| Compiler.SplitBlock | app/db/rulesTxtToJson.py:251-262 | The cleaned main text is normal. Every subrule has the subrule shape for the block's id. |
| Compiler.MainRecord | app/db/rulesTxtToJson.py:250-278 | A main record is not a subrule and has no parent. Its section is the id before the first dot, and its title is from the section table or "Unknown Section". Its text is normal, and its children are its id plus one letter. |
| Compiler.SubKeySection | app/db/rulesTxtToJson.py:139-147 | A subrule id lies in its parent's section and is never itself a main rule id. |
| Compiler.AppendToSection | app/db/rulesTxtToJson.py:281-282 | Only the rule's own section, if it exists, gains the rule id at its end. The key order is unchanged. |
| Compiler.AddSubrules | app/db/rulesTxtToJson.py:285-288 | Each subrule is stored with the section title. The old keys remain, the new keys are the subrules, and every other entry is unchanged. The key order is the old keys followed by the subrule ids in dictionary order; a key already present keeps its place. |
| Compiler.AddRuleBlock | app/db/rulesTxtToJson.py:249-288 | The block's main record is stored and the table invariants are kept. No other main rule changes. The section lists gain the id. The new keys are the block id and its subrule ids. The key order is the old keys, then the block id, then its subrule ids in dictionary order, each new key appended and each existing key left in place. Each subrule of the block is stored with the section title, and every other entry is unchanged. |
| Compiler.BuildRuleTable | app/db/rulesTxtToJson.py:249-288 | Each section lists its blocks' ids in document order and keeps its title. Every block id is a main rule, built from the last block with that id. Every entry has its shape, and every listed child exists. The keys are exactly the block ids and their subrule ids. Each subrule id holds the record of the last block that split it out, with that block's section title. The keys are in order of first assignment: each block's id, then its subrule ids in dictionary order (`AssignedInOrder`). |
| Compiler.AddedInOrderDedup | app/db/rulesTxtToJson.py:285-288 | Assigning keys one after another to a dictionary, where a present key keeps its place and a new one goes last, gives the first-occurrence order of the old keys followed by the assigned ones. |
| Compiler.OrderStep | app/db/rulesTxtToJson.py:249-288 | Adding one more block extends the first-assignment order of the blocks so far by that block's id and subrule ids. |
| Compiler.BlockKeyOrder | app/db/rulesTxtToJson.py:268-288 | Storing the block id and then its subrules gives the old keys followed by the block id and its subrule ids, in first-occurrence order. |
| Compiler.SubsStep | app/db/rulesTxtToJson.py:249-288 | One more block keeps the loop's subrule invariant: the key set grows by the block's ids, and each subrule holds the record of the last block so far that split it out. |
| Compiler.SubrulesAreLinkedEntries | app/db/rulesTxtToJson.py:277-288 | Every child a main rule lists is a subrule entry that points back at the rule and has the same section title. |
| Compiler.CheckedRefs | app/db/rulesTxtToJson.py:174-197 | The checked references are strictly sorted and distinct. They are exactly the old references that are an existing rule id, or an existing section id of three digits. |
| Compiler.VerifiedRefs | app/db/rulesTxtToJson.py:174-197 | The inner loop with its three branches computes the checked references. |
| Compiler.VerifyRuleReferences | app/db/rulesTxtToJson.py:158-199 | Only the `related_rules` fields change: the keys, the key order and everything else stay. Each list becomes its checked form against the ids present before the pass. |
| Compiler.VerifiedRefsAreValid | app/db/rulesTxtToJson.py:169-197 | A kept reference is an existing rule, or an existing three-digit section, and was among the references before. |
| Compiler.CheckedKeepsTable | app/db/rulesTxtToJson.py:196-197 | Checking references breaks none of the table invariants. |
| Compiler.CompileTables | app/db/rulesTxtToJson.py:233-288 | These are the section and rule tables before the references are checked, with the facts listed for the loop and the table invariants. The subrule facts of the loop hold with the final section titles. The rule keys are in order of first assignment (`AssignedInOrder`). |
| Compiler.CompileRulesDatabase | app/db/rulesTxtToJson.py:217-294 | The metadata, the section order and titles, and section lists of main-rule ids in document order. Every block is a main rule with checked references. The rule keys are exactly the block ids and their subrule ids, in order of first assignment: each block's id, then its subrule ids in dictionary order (`AssignedInOrder`). Each subrule holds the record of the last block that split it out, with its section title set and its references checked. The table invariants hold. Every reference list is sorted and valid. The keyword index is the index of the final table. |
| Compiler.SubrulesChecked | app/db/rulesTxtToJson.py:158-199 | Checking references keeps the exact key set, and each stored subrule record becomes its checked form. |
| KeywordIndex.WordAt | app/db/rulesTxtToJson.py:84 | A word match is a run of at least n letters with `\b` at both ends. |
| KeywordIndex.WordSetShape | app/db/rulesTxtToJson.py:84 | Every word found in the lowered text has at least n letters, all alphabetic, none upper-case. |
| KeywordIndex.CountRuleWords | app/db/rulesTxtToJson.py:85-87 | Counting one rule's words adds one to each word that is not a stop word. |
| KeywordIndex.CountWords | app/db/rulesTxtToJson.py:81-87 | After the first pass, `word_count` holds each word that is not a stop word with the number of rules containing it. |
| KeywordIndex.IndexRuleWords | app/db/rulesTxtToJson.py:92-96 | One rule's words are indexed: the rule id is appended to each word that is not a stop word and not too frequent. |
| KeywordIndex.BuildKeywordIndex | app/db/rulesTxtToJson.py:67-98 | The two passes compute the specified index. |
| KeywordIndex.IndexKeyShape | app/db/rulesTxtToJson.py:84-95 | Every key is a lower-case alphabetic word of at least n letters, found in some rule's text, and not a stop word. |
| KeywordIndex.IndexMembership | app/db/rulesTxtToJson.py:82-96 | A rule is listed under w exactly when all three hold: its text contains w, w is not a stop word, and at most maxFreq rules contain w. |
| KeywordIndex.IndexListBounds | app/db/rulesTxtToJson.py:89-96 | Each list holds as many ids as rules contain the word, which is at most maxFreq. No id repeats. The ids are the containing rules in rule-table order. |
| Glossary.BlankLineEnd | app/db/rulesTxtToJson.py:331 | A `\n\s*\n` match ends at the last newline of the white-space run, and no longer match exists. Without a match, no blank run starts there. |
| Glossary.SeparatorsFrom | app/db/rulesTxtToJson.py:331 | Each separator dropped by the split is a blank run. There is one separator fewer than pieces. |
| Glossary.SplitReassembles | app/db/rulesTxtToJson.py:331 | Putting the dropped separators back between the entries gives the text. |
| Glossary.EntriesHaveNoBlankLine | app/db/rulesTxtToJson.py:331 | No entry contains a blank line. |
| Glossary.NoBlankLineOneEntry | app/db/rulesTxtToJson.py:331 | A text without a blank line is a single entry. |
| Glossary.StrippedLines | app/db/rulesTxtToJson.py:349 | Each kept line is non-empty, stripped at both ends, and free of newlines when its input was. |
| Glossary.PartsOf | app/db/rulesTxtToJson.py:334-369 | A blank entry gives nothing. Every term given is non-empty. |
| Glossary.Record | app/db/rulesTxtToJson.py:351-369 | The key is the lower-cased term. `reference_to` is present exactly for redirects. |
| Glossary.EntryOf | app/db/rulesTxtToJson.py:333-369 | A blank entry adds nothing. An entry that adds a record is keyed by its lower-cased non-empty term. |
| Glossary.BlankEntrySkipped | app/db/rulesTxtToJson.py:334-335 | An all-white-space entry adds nothing. |
| Glossary.SeeLineSkipped | app/db/rulesTxtToJson.py:346-347 | A one-line entry that starts with "See " is skipped. |
| Glossary.MultiLineEntry | app/db/rulesTxtToJson.py:338-359 | An entry of several lines is a definition: the term is the stripped first line. The definition is the stripped non-blank later lines joined by single spaces, and it is non-empty and on one line. |
| Glossary.DefinitionRecord | app/db/rulesTxtToJson.py:351-359 | A definition record has no `reference_to`. Its related rules are those extracted from its definition. |
| Glossary.OneLineRedirect | app/db/rulesTxtToJson.py:360-369 | A one-line entry that contains "See " past its start is a redirect. Its term is the whole line. Its target is `term.split("See ")[1]`: the text after the first "See ", up to a second "See " if there is one, stripped and with no trailing period. |
| Glossary.RedirectRecord | app/db/rulesTxtToJson.py:362-369 | A redirect is keyed by its lower-cased term and reads "See X." with one final period. It points at lower(X) and has no related rules. |
| Glossary.OneLineWithoutSee | app/db/rulesTxtToJson.py:349-369 | A one-line entry without "See " adds nothing, because it has no definition. |
| Glossary.Parsed | app/db/rulesTxtToJson.py:333-369 | Records are taken entry by entry, in order. |
| Glossary.FillIs | app/db/rulesTxtToJson.py:355-369 | The keys come in order of first assignment. Each key holds the record of its last assignment. |
| Glossary.GlossaryShape | app/db/rulesTxtToJson.py:328-369 | Every key is its record's lower-cased term. The glossary's key order and records are those of the assignments. |
| Glossary.ParseGlossary | app/db/rulesTxtToJson.py:328-369 | The parse loop builds the glossary of the text. |
| Glossary.KnownRules | app/db/rulesTxtToJson.py:382-386 | The loop keeps the ids the rule table holds, in order. |
| Glossary.MergeEntries | app/db/rulesTxtToJson.py:380-386 | Every entry keeps its key and place. Each is replaced by its merged form. |
| Glossary.MergeGlossary | app/db/rulesTxtToJson.py:371-386 | Only the database's glossary changes. It holds the same keys in the same order, each entry merged. |
| Glossary.MergedRelatedRules | app/db/rulesTxtToJson.py:380-386 | After the merge, an entry's related rules are exactly its old ones that the table holds. Term, definition and `reference_to` are unchanged. |
| Glossary.MergeIdempotent | app/db/rulesTxtToJson.py:380-386 | Merging twice against the same table is merging once. |
| Glossary.ProcessGlossary | app/db/rulesTxtToJson.py:328-394 | Without a rules database, the result is the parsed glossary. With one, it is that database with the merged glossary, and nothing else changes. |
| RuleService.AfterLoad | app/services/rule_service.py:13-41 | A loaded database stays as it is. Otherwise there is one exactly when the file exists and parses. |
| RuleService.JsonRulesService.constructor | app/services/rule_service.py:8-11 | The service starts with no database and not loaded. |
| RuleService.JsonRulesService.LoadDb | app/services/rule_service.py:13-41 | Once loaded, it reports "already loaded" and leaves `db` alone. A missing or unreadable file changes nothing. A parsed file is assigned, and only then is the service marked loaded. `is_loaded` always implies a database. |
| RuleService.JsonRulesService.EnsureLoaded | app/services/rule_service.py:45-46 | The lazy load prefix: the database afterwards is the one held, or the one the file gives. |
| RuleService.JsonRulesService.SearchRules | app/services/rule_service.py:43-246 | The lazy load, then the specified search result on the database held afterwards. |
| RuleService.SearchList | app/services/rule_service.py:51-246 | The search on a loaded database computes the specified result. |
| RuleService.IdQueryList | app/services/rule_service.py:55-132 | The numeric branch computes the section hit, the exact hit or the prefix hits. |
| RuleService.SummaryList | app/services/rule_service.py:61-72 | The loop lists the main rules of the given ids, in order. |
| RuleService.BriefList | app/services/rule_service.py:99-106 | The loop lists `{id, text}` for the given ids that exist, in order. |
| RuleService.PrefixList | app/services/rule_service.py:113-132 | The loop with its break at fifteen gives the first fifteen prefix hits. |
| RuleService.IndexList | app/services/rule_service.py:138-158 | The loop lists the index hits of the ids that exist. |
| RuleService.TitleList | app/services/rule_service.py:161-187 | The loop lists a title hit for every section whose title holds the query. |
| RuleService.TitleSummaryList | app/services/rule_service.py:164-179 | The counting loop with its break gives the first five main rules. |
| RuleService.AnyWithId | app/services/rule_service.py:200 | `any(...)` is true exactly when some result has the id. |
| RuleService.TextList | app/services/rule_service.py:197-241 | Each full-text loop, with its duplicate test and its break at fifteen, computes the specified scan. |
| RuleService.KeywordList | app/services/rule_service.py:135-244 | The keyword branch computes the specified candidates, sorted. |
| Queries.SearchRules | app/services/rule_service.py:43-246 | The result is "Database not loaded" exactly when there is no database. Otherwise there are at most fifteen results. |
| Queries.SectionQueryResult | app/services/rule_service.py:57-79 | A three-digit query naming a section gives exactly one section result. It lists the main rules among the section's first ten ids, in order, each with `has_subrules == (subrule_count > 0)`. |
| Queries.ExactRuleResult | app/services/rule_service.py:82-110 | An exact rule id gives exactly one rule result. `parent_rule_id` is present exactly for a subrule. `subrules` is present exactly for a main rule with an existing child, and holds those children in stored order. |
| Queries.PrefixFallbackResult | app/services/rule_service.py:113-132 | Otherwise the results are the first fifteen table entries, in order, whose id starts with the query. A subrule is included only if the query ends with its last character. |
| Queries.PrefixFallbackHits | app/services/rule_service.py:113-132 | Every prefix-fallback result is an existing rule whose id starts with the query. A subrule's last character is the query's last character. |
| Queries.IndexIds | app/services/rule_service.py:137-138 | At most fifteen ids are taken from the index. |
| Queries.IndexHits | app/services/rule_service.py:138-158 | Every index hit has relevance 3 (doubled: 6). |
| Queries.TitleHits | app/services/rule_service.py:161-187 | Every title hit is a section whose title holds the query, with relevance 2 and at most five rules, all of them main rules. |
| Queries.TitleHitsExact | app/services/rule_service.py:161-187 | The title hits are exactly one hit per section whose title holds the query, in section order. |
| Queries.TextScan | app/services/rule_service.py:197-241 | The scan only appends. Starting below fifteen, it ends with at most fifteen. |
| Queries.MainScanIds | app/services/rule_service.py:193-195 | The first scan covers main rules only. |
| Queries.SubruleScanIds | app/services/rule_service.py:220-221 | The second scan covers subrules only. |
| Queries.TextScanAdds | app/services/rule_service.py:197-216 | Everything a scan appends is a text hit for a scanned rule whose text holds the query. Its id is not among the results before it. |
| Queries.TextScanExact | app/services/rule_service.py:197-216 | Over distinct ids, a scan appends exactly the first matching rules whose id is not yet in the results, in scan order. It stops only at fifteen results. |
| Queries.KeywordCandidatesShape | app/services/rule_service.py:137-241 | Index hits come first, then one title hit per matching section in section order. Main-rule text hits (relevance 1) follow only if there were fewer than five results, and subrule text hits (relevance 0.5) only if there were still fewer than five. No text hit repeats an id. Each scan adds exactly the first matching rules with new ids, in table order, up to fifteen results. |
| Queries.KeywordCandidatesOrdered | app/services/rule_service.py:137-241 | Before the sort, the candidates are already in non-increasing relevance. |
| Queries.RankSortIsStableSort | app/services/rule_service.py:244 | The sort gives non-increasing relevance. Each relevance class keeps its order, and the result is a permutation. |
| Queries.SortFromOrderedIdentity | app/services/rule_service.py:244 | The sort leaves a list that is already in order unchanged. |
| Queries.KeywordSortKeepsOrder | app/services/rule_service.py:244 | In the keyword branch, the sort does not change the result. |
| Queries.KeywordQueryResult | app/services/rule_service.py:137-246 | A keyword query gives the first fifteen candidates, in non-increasing relevance. They start with the hits for the index's first fifteen ids. |
| Queries.MainSummariesExact | app/services/rule_service.py:61-72 | The summaries are exactly the main rules among the ids, in order, one for one. |
| Queries.BriefsExact | app/services/rule_service.py:99-106 | The briefs are exactly the ids that exist, in order, each with its text. |
| Queries.PrefixHitsExact | app/services/rule_service.py:114-128 | The prefix hits are exactly the wanted ids, in order. |
| Queries.IndexHitsExact | app/services/rule_service.py:138-158 | The index hits are exactly the existing ids, in order. |
| Queries.GetSection | app/services/rule_service.py:253-254 | The result is "Section not found" exactly when there is no database or the id is absent. |
| Queries.SectionViewResult | app/services/rule_service.py:256-290 | A section view lists, in the section's order, the view of each of its rules that exists and is not a subrule. |
| Queries.SectionViewsExact | app/services/rule_service.py:259-284 | The section views are exactly the main rules among the ids, in order. |
| Queries.ViewOfShape | app/services/rule_service.py:264-282 | A view's counts agree with each other. `subrules` is present exactly when the rule lists any, and holds the existing ones in order. |
| Queries.GetRule | app/services/rule_service.py:297-298 | The result is "Rule not found" exactly when there is no database or the id is absent. |
| Queries.RuleDetailParent | app/services/rule_service.py:300-330 | A rule view copies the rule's fields. `parent_rule` is present exactly for a subrule with an existing parent. `sibling_subrules` is present exactly when the parent has another existing child, and never holds the rule itself. |
| Queries.RuleDetailChildren | app/services/rule_service.py:332-343 | Any other rule shows its existing children, in stored order, exactly when it has some. |
| Queries.RuleDetailReferences | app/services/rule_service.py:345-357 | `referenced_rules` is present exactly when some related rule exists. It lists the existing ones in `related_rules` order. |
| Queries.Siblings | app/services/rule_service.py:321-328 | A sibling is another existing child of the parent, never the rule itself. |
| Queries.SiblingsEmpty | app/services/rule_service.py:321-330 | There are no siblings exactly when every other child of the parent is missing. |
| Queries.RefBriefsExact | app/services/rule_service.py:347-355 | The referenced rules are exactly the existing related ids, in order, each with its subrule flag. |
| Queries.NonEmpty | app/services/rule_service.py:329-330 | An optional key is present exactly when its list is non-empty, and it holds that list. |
| Queries.SearchGlossary | app/services/rule_service.py:366-367 | Without a database or a glossary, the result is []. |
| Queries.GlossaryResult | app/services/rule_service.py:369-393 | Results come in glossary order: one hit for each term whose key or lower-cased definition contains the lower-cased query. |
| Queries.GlossaryHitsExact | app/services/rule_service.py:373-391 | The hits are exactly the matching keys, in order. |
| Queries.GlossaryHitShape | app/services/rule_service.py:376-389 | A hit is an unchanged copy of the stored entry. `rule_references` is present exactly when some related rule exists, and lists those in order. |
| Queries.CommanderResult | app/services/rule_service.py:395-424 | The result is the section-903 view. `additional_commander_rules` is present exactly when one indexed "commander" rule is outside 903, exists and is a main rule. It lists those rules in index order. |
| Queries.CommanderExtrasExact | app/services/rule_service.py:403-419 | The extra rules are exactly the wanted indexed ids, in order. |
| RuleService.JsonRulesService.GetSection | app/services/rule_service.py:248-290 | The lazy load, then the specified section view. |
| RuleService.SectionOf | app/services/rule_service.py:253-290 | `get_section` on a loaded database computes the specified section result. |
| RuleService.SectionViewList | app/services/rule_service.py:259-284 | The loop lists the view of each main rule, in order. |
| RuleService.JsonRulesService.GetRule | app/services/rule_service.py:292-359 | The lazy load, then the specified rule view. |
| RuleService.RuleOf | app/services/rule_service.py:297-359 | `get_rule` on a loaded database computes the specified rule result. |
| RuleService.SiblingList | app/services/rule_service.py:321-328 | The loop lists the parent's other existing children. |
| RuleService.RefBriefList | app/services/rule_service.py:347-355 | The loop lists the related rules that exist. |
| RuleService.JsonRulesService.SearchGlossary | app/services/rule_service.py:361-393 | The lazy load, then the specified glossary hits. |
| RuleService.GlossaryOf | app/services/rule_service.py:366-393 | `search_glossary` on a loaded database computes the specified hits. |
| RuleService.GlossaryList | app/services/rule_service.py:373-391 | The loop lists a copy of each matching entry, with its existing references. |
| RuleService.JsonRulesService.GetCommanderRules | app/services/rule_service.py:395-424 | The lazy load, also inside `get_section("903")`, then the specified Commander view. |
| RuleService.CommanderList | app/services/rule_service.py:403-419 | The loop lists the indexed main rules outside 903. |

## Left out

**Outside what the model covers**
- File and JSON I/O (`open`, `json.load`, `json.dump`, `os.makedirs`, `os.path.exists`) is left out. The compiler takes the raw texts as parameters. `load_db` takes a `LoadSource` that says whether the file was missing, unreadable or parsed.
- JSON round-tripping of the database is library behaviour and is not modelled. So are documents that parse to something other than a database of the expected shape. The model's `RulesDb` is a typed record.
- Logging, `print`, and the statistics in `main()` (including the float average) are left out. `main()` itself and its fixed paths are left out too.
- The HTTP routes, the application setup, the card service and the download script are not part of this model. They forward parameters or do I/O.
- Text is ASCII, apart from the en dash of the lettered-range pattern. Unicode case folding and Unicode `\s`, `\w` and `\b` are not modelled.

**Representation choices**
- The relevances 3, 2, 1 and 0.5 are the integers 6, 4, 2 and 1, in the same order. A result without a relevance counts as 0.
- The nested `"metadata": {"title", "effective_date"}` object (app/db/rulesTxtToJson.py:219-222) is flattened into the `RulesDb` fields `title` and `effectiveDate`.
- The keyword index is a `map`, not an ordered dictionary. The service only looks words up in it, so its key order never matters.
- Python's `list.sort` is not modelled as an algorithm. `results.sort(key=...)` is the function `Queries.RankSort`, a concatenation of rank classes. Lemmas prove it is ordered, stable and a permutation.

**Contracts narrower than the source**
- RuleService.JsonRulesService.GetCommanderRules: requires that a database is held or the load succeeds. When loading fails, the source raises at `"keyword_index" in self.db`, and that exception is not modelled.
- RuleService.JsonRulesService.LoadDb: a loaded empty JSON object makes `not self.db` true in the source. The model has no empty database value, so it does not capture that case.
- KeywordIndex.BuildKeywordIndex: requires `min_word_length >= 1`. With 0 the word pattern would also match empty strings, and the only caller passes 3.
- RuleRefs.MatchRuleRef, RuleRefs.MatchRulesPair, RuleRefs.MatchSectionRef, RuleRefs.MatchSeeRef, RuleRefs.MatchParenSeeRef: their contracts give only the shape of a match. What each pattern matches is their body, and `RuleRefs.ExtractRelatedRules` states the extractor's properties.
