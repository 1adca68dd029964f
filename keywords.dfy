/** The bounded inverted keyword index (`create_optimized_keyword_index`): every
    word of at least `min_word_length` letters, found with
    `re.findall(r'\b[a-zA-Z]{n,}\b', text.lower())`, maps to the ids of the rules
    whose text contains it, unless it is a stop word or occurs in more than
    `max_word_frequency` rules. */
module KeywordIndex {
  import opened Text
  import opened OrderedMaps
  import opened RulesModel

  const MaxWordFrequency: nat := 300
  const MinWordLength: nat := 3

  /** The `common_words` that are never indexed. */
  predicate StopWord(w: string)
  {
    w in {
      "the", "and", "for", "that", "with", "this", "from", "have", "their",
      "when", "your", "you", "each", "may", "can", "any", "are", "its",
      "not", "one", "all", "card", "cards", "player", "players", "game",
      "spell", "spells", "ability", "abilities", "effect", "effects",
      "during", "until", "becomes", "become", "would", "instead", "rule",
      "see", "has", "other", "only", "some", "put", "time", "section"
    }
  }

  // ---------------------------------------------------------------------------
  // Word scanning.

  /** `\b` at p: a word character on exactly one side. */
  predicate Boundary(s: string, p: nat)
  {
    p <= |s| && ((0 < p && IsWordChar(s[p - 1])) != (p < |s| && IsWordChar(s[p])))
  }

  predicate AllAlpha(w: string) { forall i :: 0 <= i < |w| ==> IsAlpha(w[i]) }

  function LetterRunEnd(s: string, p: nat): (e: nat)
    requires p <= |s|
    ensures p <= e <= |s|
    ensures forall k :: p <= k < e ==> IsAlpha(s[k])
    ensures e < |s| ==> !IsAlpha(s[e])
    decreases |s| - p
  {
    if p < |s| && IsAlpha(s[p]) then LetterRunEnd(s, p + 1) else p
  }

  /** A word of at least n letters occupies s[p..e], with `\b` at both ends. */
  predicate WordSpan(s: string, p: nat, e: nat, n: nat)
  {
    p + n <= e <= |s| && (forall k :: p <= k < e ==> IsAlpha(s[k])) && Boundary(s, p) && Boundary(s, e)
  }

  /** `\b[a-zA-Z]{n,}\b` at p. Backing off the greedy letter run never helps:
      inside a run of letters there is no `\b`. */
  function WordAt(s: string, p: nat, n: nat): (e: Option<nat>)
    requires p <= |s| && n >= 1
    ensures e.Some? ==> WordSpan(s, p, e.value, n)
  {
    if !Boundary(s, p) then None
    else
      var e := LetterRunEnd(s, p);
      if e - p >= n && Boundary(s, e) then Some(e) else None
  }

  /** `re.findall` from p: the matched words, in order. */
  function FindWords(s: string, p: nat, n: nat): seq<string>
    requires p <= |s| && n >= 1
    decreases |s| - p
  {
    if p == |s| then []
    else match WordAt(s, p, n)
      case Some(e) => [s[p..e]] + FindWords(s, e, n)
      case None => FindWords(s, p + 1, n)
  }

  /** Each word found is a match at some position from p. */
  lemma {:induction false} FindWordsOccur(s: string, p: nat, n: nat, w: string) returns (q: nat)
    requires p <= |s| && n >= 1 && w in FindWords(s, p, n)
    ensures p <= q && q + |w| <= |s| && s[q..q + |w|] == w && WordSpan(s, q, q + |w|, n)
    decreases |s| - p
  {
    match WordAt(s, p, n)
    case Some(e) =>
      if w == s[p..e] { q := p; } else { q := FindWordsOccur(s, e, n, w); }
    case None =>
      q := FindWordsOccur(s, p + 1, n, w);
  }

  /** The word occupying a span is all letters, at least n of them, and has no
      upper-case letter when the text has none. */
  lemma SpanWord(s: string, a: nat, b: nat, n: nat)
    requires WordSpan(s, a, b, n)
    ensures |s[a..b]| >= n && AllAlpha(s[a..b])
    ensures NoUpper(s) ==> NoUpper(s[a..b])
  {
    assert forall i :: 0 <= i < b - a ==> s[a..b][i] == s[a + i];
  }

  /** `set(re.findall(rf'\b[a-zA-Z]{{{n},}}\b', text.lower()))` */
  function WordSet(text: string, n: nat): set<string>
    requires n >= 1
  {
    set w | w in FindWords(Lower(text), 0, n)
  }

  /** Each word of the set is a match in the lowered text. */
  lemma WordSetOccurs(text: string, n: nat, w: string) returns (q: nat)
    requires n >= 1 && w in WordSet(text, n)
    ensures q + |w| <= |text| && Lower(text)[q..q + |w|] == w && WordSpan(Lower(text), q, q + |w|, n)
  {
    q := FindWordsOccur(Lower(text), 0, n, w);
  }

  /** The words are runs of at least n letters with no upper-case letter. */
  lemma WordSetShape(text: string, n: nat, w: string)
    requires n >= 1 && w in WordSet(text, n)
    ensures |w| >= n && AllAlpha(w) && NoUpper(w)
  {
    var s := Lower(text);
    var q := WordSetOccurs(text, n, w);
    assert NoUpper(s);
    SpanWord(s, q, q + |w|, n);
  }

  // ---------------------------------------------------------------------------
  // The index as a function of the rule table.

  /** The word set of each rule, as both passes compute it. */
  function WordTable(rules: OMap<Rule>, n: nat): (t: map<string, set<string>>)
    requires n >= 1
    ensures t.Keys == rules.vals.Keys
  {
    map k | k in rules.vals :: WordSet(rules.vals[k].text, n)
  }

  function WordsOf(t: map<string, set<string>>, k: string): set<string>
  {
    if k in t then t[k] else {}
  }

  /** The number of rules among `ids` whose words include w. */
  function DocFreq(t: map<string, set<string>>, ids: seq<string>, w: string): nat
  {
    if ids == [] then 0
    else DocFreq(t, ids[..|ids| - 1], w) + (if w in WordsOf(t, ids[|ids| - 1]) then 1 else 0)
  }

  /** Every word of the rules among `ids`. */
  function Vocab(t: map<string, set<string>>, ids: seq<string>): set<string>
  {
    if ids == [] then {} else Vocab(t, ids[..|ids| - 1]) + WordsOf(t, ids[|ids| - 1])
  }

  /** The ids among `ids` whose words include w, in order. */
  function Postings(t: map<string, set<string>>, ids: seq<string>, w: string): (r: seq<string>)
    ensures forall k :: k in r <==> k in ids && w in WordsOf(t, k)
  {
    Filter(k => w in WordsOf(t, k), ids)
  }

  predicate Indexable(t: map<string, set<string>>, keys: seq<string>, w: string, maxFreq: nat)
  {
    !StopWord(w) && DocFreq(t, keys, w) <= maxFreq
  }

  /** What the index holds: each indexable word, with its postings. */
  function IndexOf(t: map<string, set<string>>, keys: seq<string>, maxFreq: nat): map<string, seq<string>>
  {
    map w | w in Vocab(t, keys) && Indexable(t, keys, w, maxFreq) :: Postings(t, keys, w)
  }

  function IndexSpec(rules: OMap<Rule>, maxFreq: nat, n: nat): map<string, seq<string>>
    requires n >= 1
  {
    IndexOf(WordTable(rules, n), rules.keys, maxFreq)
  }

  /** `word_count.get(w, 0)` after the first pass: how many rules contain w. */
  function Frequency(rules: OMap<Rule>, n: nat, w: string): nat
    requires n >= 1
  {
    DocFreq(WordTable(rules, n), rules.keys, w)
  }

  lemma {:induction false} VocabHasWordsOf(t: map<string, set<string>>, ids: seq<string>, i: nat, w: string)
    requires i < |ids| && w in WordsOf(t, ids[i])
    ensures w in Vocab(t, ids)
    decreases |ids|
  {
    if i < |ids| - 1 {
      assert ids[..|ids| - 1][i] == ids[i];
      VocabHasWordsOf(t, ids[..|ids| - 1], i, w);
    }
  }

  lemma {:induction false} VocabWitness(t: map<string, set<string>>, ids: seq<string>, w: string) returns (k: string)
    requires w in Vocab(t, ids)
    ensures k in ids && w in WordsOf(t, k)
    decreases |ids|
  {
    var last := ids[|ids| - 1];
    if w in WordsOf(t, last) {
      k := last;
    } else {
      k := VocabWitness(t, ids[..|ids| - 1], w);
    }
  }

  lemma {:induction false} DocFreqOutside(t: map<string, set<string>>, ids: seq<string>, w: string)
    requires w !in Vocab(t, ids)
    ensures DocFreq(t, ids, w) == 0
    decreases |ids|
  {
    if ids != [] { DocFreqOutside(t, ids[..|ids| - 1], w); }
  }

  lemma PostingsOutside(t: map<string, set<string>>, ids: seq<string>, w: string)
    requires w !in Vocab(t, ids)
    ensures Postings(t, ids, w) == []
  {
    var r := Postings(t, ids, w);
    if r != [] {
      assert r[0] in r;
      var i :| 0 <= i < |ids| && ids[i] == r[0];
      VocabHasWordsOf(t, ids, i, w);
    }
  }

  // ---------------------------------------------------------------------------
  // The two passes. Their loop states are described point by point, which is
  // what each step changes.

  /** `word_count` after the passes over the rules `prev`, and over the words
      `done` of the next rule. */
  ghost predicate CountsAfter(t: map<string, set<string>>, prev: seq<string>, done: set<string>, wc: map<string, nat>)
  {
    && (forall w :: w in wc <==> !StopWord(w) && (w in done || w in Vocab(t, prev)))
    && (forall w :: w in wc ==> wc[w] == DocFreq(t, prev, w) + (if w in done then 1 else 0))
  }

  /** One word of the current rule is counted. */
  lemma CountStep(t: map<string, set<string>>, prev: seq<string>, done: set<string>, w: string, wc: map<string, nat>)
    requires w !in done && CountsAfter(t, prev, done, wc)
    ensures CountsAfter(t, prev, done + {w}, if StopWord(w) then wc else wc[w := (if w in wc then wc[w] else 0) + 1])
  {
    if w !in Vocab(t, prev) { DocFreqOutside(t, prev, w); }
  }

  /** Once the words of `ids[i]` are counted, the counts cover `ids[..i + 1]`. */
  lemma CountsNext(t: map<string, set<string>>, ids: seq<string>, i: nat, wc: map<string, nat>)
    requires i < |ids| && CountsAfter(t, ids[..i], WordsOf(t, ids[i]), wc)
    ensures CountsAfter(t, ids[..i + 1], {}, wc)
  {
    assert ids[..i + 1][..i] == ids[..i];
  }

  /** The first pass's inner loop, over the words of one rule. */
  method CountRuleWords(ghost t: map<string, set<string>>, ghost prev: seq<string>, words: set<string>,
                        wordCount0: map<string, nat>) returns (wordCount: map<string, nat>)
    requires CountsAfter(t, prev, {}, wordCount0)
    ensures CountsAfter(t, prev, words, wordCount)
  {
    wordCount := wordCount0;
    var todo := words;
    while todo != {}
      invariant todo <= words
      invariant CountsAfter(t, prev, words - todo, wordCount)
      decreases |todo|
    {
      var w :| w in todo;
      CountStep(t, prev, words - todo, w, wordCount);
      if !StopWord(w) {
        wordCount := wordCount[w := (if w in wordCount then wordCount[w] else 0) + 1];
      }
      DoneGrows(words, todo, w);
      todo := todo - {w};
    }
    assert words - todo == words;
  }

  /** The first pass: `word_count` holds each word of the rules that is not a
      stop word, with the number of rules that contain it. */
  method CountWords(rules: OMap<Rule>, n: nat) returns (wordCount: map<string, nat>)
    requires rules.Valid() && n >= 1
    ensures CountsAfter(WordTable(rules, n), rules.keys, {}, wordCount)
  {
    ghost var t := WordTable(rules, n);
    wordCount := map[];
    for i := 0 to |rules.keys|
      invariant CountsAfter(t, rules.keys[..i], {}, wordCount)
    {
      var k := rules.keys[i];
      var words := WordSet(rules.vals[k].text, n);
      assert words == WordsOf(t, k);
      wordCount := CountRuleWords(t, rules.keys[..i], words, wordCount);
      CountsNext(t, rules.keys, i, wordCount);
    }
    assert rules.keys[..|rules.keys|] == rules.keys;
  }

  /** `keyword_index` after the second pass over the rules `prev`, and over the
      words `done` of the next rule k. */
  ghost predicate IndexAfter(t: map<string, set<string>>, keys: seq<string>, maxFreq: nat, prev: seq<string>, k: string,
                             done: set<string>, index: map<string, seq<string>>)
  {
    && (forall w :: w in index <==> Indexable(t, keys, w, maxFreq) && (w in done || w in Vocab(t, prev)))
    && (forall w :: w in index ==> index[w] == Postings(t, prev, w) + (if w in done then [k] else []))
  }

  /** One word of the current rule is indexed, or passed over. */
  lemma IndexStep(t: map<string, set<string>>, keys: seq<string>, maxFreq: nat, prev: seq<string>, k: string,
                  done: set<string>, w: string, index: map<string, seq<string>>, wc: map<string, nat>,
                  after: map<string, seq<string>>)
    requires w !in done && IndexAfter(t, keys, maxFreq, prev, k, done, index)
    requires CountsAfter(t, keys, {}, wc) && w in Vocab(t, keys)
    requires after == if !StopWord(w) && (if w in wc then wc[w] else 0) <= maxFreq
                       then index[w := (if w in index then index[w] else []) + [k]] else index
    ensures IndexAfter(t, keys, maxFreq, prev, k, done + {w}, after)
  {
    var g := !StopWord(w) && (if w in wc then wc[w] else 0) <= maxFreq;
    assert g == Indexable(t, keys, w, maxFreq);
    var before := if w in index then index[w] else [];
    assert g ==> before == Postings(t, prev, w) by {
      if w in index {
        assert index[w] == Postings(t, prev, w) + [];
      } else if g {
        PostingsOutside(t, prev, w);
      }
    }
    IndexStepKeys(t, keys, maxFreq, prev, k, done, w, index, g, after);
    IndexStepPostings(t, prev, k, done, w, index, g, before, after);
  }

  lemma IndexStepKeys(t: map<string, set<string>>, keys: seq<string>, maxFreq: nat, prev: seq<string>, k: string,
                      done: set<string>, w: string, index: map<string, seq<string>>, g: bool, after: map<string, seq<string>>)
    requires forall x :: x in index <==> Indexable(t, keys, x, maxFreq) && (x in done || x in Vocab(t, prev))
    requires g == Indexable(t, keys, w, maxFreq)
    requires after.Keys == if g then index.Keys + {w} else index.Keys
    ensures forall x :: x in after <==> Indexable(t, keys, x, maxFreq) && (x in done + {w} || x in Vocab(t, prev))
  {
    forall x ensures x in after <==> Indexable(t, keys, x, maxFreq) && (x in done + {w} || x in Vocab(t, prev)) {
      if x != w { assert x in after <==> x in index; }
    }
  }

  lemma IndexStepPostings(t: map<string, set<string>>, prev: seq<string>, k: string, done: set<string>, w: string,
                          index: map<string, seq<string>>, g: bool, before: seq<string>, after: map<string, seq<string>>)
    requires w !in done
    requires forall x :: x in index ==> index[x] == Postings(t, prev, x) + (if x in done then [k] else [])
    requires g ==> before == Postings(t, prev, w)
    requires !g ==> w !in index
    requires after == if g then index[w := before + [k]] else index
    ensures forall x :: x in after ==> after[x] == Postings(t, prev, x) + (if x in done + {w} then [k] else [])
  {
    forall x | x in after ensures after[x] == Postings(t, prev, x) + (if x in done + {w} then [k] else []) {
      if x != w { assert x in index && after[x] == index[x]; }
    }
  }

  /** Once the words of `ids[i]` are indexed, the index covers `ids[..i + 1]`. */
  lemma IndexNext(t: map<string, set<string>>, keys: seq<string>, maxFreq: nat, ids: seq<string>, i: nat,
                  index: map<string, seq<string>>)
    requires i < |ids| && IndexAfter(t, keys, maxFreq, ids[..i], ids[i], WordsOf(t, ids[i]), index)
    ensures IndexAfter(t, keys, maxFreq, ids[..i + 1], "", {}, index)
  {
    var prev := ids[..i];
    var k := ids[i];
    var next := ids[..i + 1];
    assert next[..i] == prev && next == prev + [k];
    assert Vocab(t, next) == Vocab(t, prev) + WordsOf(t, k);
    forall w: string ensures w in index <==> Indexable(t, keys, w, maxFreq) && w in Vocab(t, next) {
    }
    PostingsNext(t, prev, k, next, index);
  }

  lemma PostingsNext(t: map<string, set<string>>, prev: seq<string>, k: string, next: seq<string>,
                     index: map<string, seq<string>>)
    requires next == prev + [k]
    requires forall w :: w in index ==> index[w] == Postings(t, prev, w) + (if w in WordsOf(t, k) then [k] else [])
    ensures forall w :: w in index ==> index[w] == Postings(t, next, w) + []
  {
    forall w | w in index ensures index[w] == Postings(t, next, w) + [] {
      PostingsSnoc(t, prev, k, w);
    }
  }

  lemma PostingsSnoc(t: map<string, set<string>>, prev: seq<string>, k: string, w: string)
    ensures Postings(t, prev + [k], w) == Postings(t, prev, w) + (if w in WordsOf(t, k) then [k] else [])
  {
    FilterSnoc(x => w in WordsOf(t, x), prev, k);
  }

  /** The index after the second pass over all the rules. */
  lemma IndexIs(t: map<string, set<string>>, keys: seq<string>, maxFreq: nat, index: map<string, seq<string>>)
    requires IndexAfter(t, keys, maxFreq, keys, "", {}, index)
    ensures index == IndexOf(t, keys, maxFreq)
  {
    forall w | w in index ensures Postings(t, keys, w) + [] == Postings(t, keys, w) { }
  }

  /** The second pass's inner loop, over the words of the rule `keys[i]`. */
  method IndexRuleWords(ghost t: map<string, set<string>>, keys: seq<string>, maxFreq: nat, i: nat,
                        words: set<string>, wordCount: map<string, nat>, index0: map<string, seq<string>>)
    returns (index: map<string, seq<string>>)
    requires i < |keys| && words == WordsOf(t, keys[i]) && CountsAfter(t, keys, {}, wordCount)
    requires IndexAfter(t, keys, maxFreq, keys[..i], "", {}, index0)
    ensures IndexAfter(t, keys, maxFreq, keys[..i], keys[i], words, index)
  {
    index := index0;
    var k := keys[i];
    ghost var prev := keys[..i];
    var todo := words;
    while todo != {}
      invariant todo <= words
      invariant IndexAfter(t, keys, maxFreq, prev, k, words - todo, index)
      decreases |todo|
    {
      var w :| w in todo;
      VocabHasWordsOf(t, keys, i, w);
      ghost var before := index;
      if !StopWord(w) && (if w in wordCount then wordCount[w] else 0) <= maxFreq {
        index := index[w := (if w in index then index[w] else []) + [k]];
      }
      IndexStep(t, keys, maxFreq, prev, k, words - todo, w, before, wordCount, index);
      DoneGrows(words, todo, w);
      todo := todo - {w};
    }
    assert words - todo == words;
  }

  lemma DoneGrows(words: set<string>, todo: set<string>, w: string)
    requires w in todo && todo <= words
    ensures words - (todo - {w}) == (words - todo) + {w}
  {
  }

  /** `create_optimized_keyword_index(rules_db, maxFreq, n)`: both passes. */
  method BuildKeywordIndex(rules: OMap<Rule>, maxFreq: nat, n: nat) returns (index: map<string, seq<string>>)
    requires rules.Valid() && n >= 1
    ensures index == IndexSpec(rules, maxFreq, n)
  {
    ghost var t := WordTable(rules, n);
    var wordCount := CountWords(rules, n);
    index := map[];
    for i := 0 to |rules.keys|
      invariant IndexAfter(t, rules.keys, maxFreq, rules.keys[..i], "", {}, index)
    {
      var k := rules.keys[i];
      var words := WordSet(rules.vals[k].text, n);
      assert words == WordsOf(t, k);
      index := IndexRuleWords(t, rules.keys, maxFreq, i, words, wordCount, index);
      IndexNext(t, rules.keys, maxFreq, rules.keys, i, index);
    }
    assert rules.keys[..|rules.keys|] == rules.keys;
    IndexIs(t, rules.keys, maxFreq, index);
  }

  // ---------------------------------------------------------------------------
  // Properties of the index.

  /** Every key is a word of some rule's lowered text: at least n letters, none
      upper-case, delimited by `\b`; and it is not a stop word. */
  lemma IndexKeyShape(rules: OMap<Rule>, maxFreq: nat, n: nat, w: string)
    requires n >= 1 && w in IndexSpec(rules, maxFreq, n)
    ensures |w| >= n && AllAlpha(w) && NoUpper(w) && !StopWord(w)
    ensures exists k :: k in rules.vals && w in WordSet(rules.vals[k].text, n)
  {
    var k := VocabWitness(WordTable(rules, n), rules.keys, w);
    WordSetShape(rules.vals[k].text, n, w);
  }

  /** A rule of the table is listed under w exactly when its text contains w,
      w is not a stop word, and at most maxFreq rules contain w. */
  lemma IndexMembership(rules: OMap<Rule>, maxFreq: nat, n: nat, w: string, k: string)
    requires rules.Valid() && n >= 1 && k in rules.vals
    ensures (w in IndexSpec(rules, maxFreq, n) && k in IndexSpec(rules, maxFreq, n)[w]) <==>
      (w in WordSet(rules.vals[k].text, n) && !StopWord(w) && Frequency(rules, n, w) <= maxFreq)
  {
    var t := WordTable(rules, n);
    if w in WordsOf(t, k) {
      var i :| 0 <= i < |rules.keys| && rules.keys[i] == k;
      VocabHasWordsOf(t, rules.keys, i, w);
    }
  }

  lemma {:induction false} PostingsCount(t: map<string, set<string>>, ids: seq<string>, w: string)
    ensures |Postings(t, ids, w)| == DocFreq(t, ids, w)
    decreases |ids|
  {
    if ids != [] {
      var prev := ids[..|ids| - 1];
      var k := ids[|ids| - 1];
      assert ids == prev + [k];
      PostingsSnoc(t, prev, k, w);
      PostingsCount(t, prev, w);
    }
  }

  /** Each list holds exactly the rules that contain w, so at most maxFreq of
      them, each once, in rule-table order. */
  lemma IndexListBounds(rules: OMap<Rule>, maxFreq: nat, n: nat, w: string)
    requires rules.Valid() && n >= 1 && w in IndexSpec(rules, maxFreq, n)
    ensures |IndexSpec(rules, maxFreq, n)[w]| == Frequency(rules, n, w) <= maxFreq
    ensures Distinct(IndexSpec(rules, maxFreq, n)[w])
    ensures IndexSpec(rules, maxFreq, n)[w] == Filter(k => k in rules.vals && w in WordSet(rules.vals[k].text, n), rules.keys)
  {
    var t := WordTable(rules, n);
    PostingsCount(t, rules.keys, w);
    FilterDistinct(k => w in WordsOf(t, k), rules.keys);
    FilterSame(k => w in WordsOf(t, k), k => k in rules.vals && w in WordSet(rules.vals[k].text, n), rules.keys);
  }
}
