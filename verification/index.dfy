/** The package/spec index: `create_index` counts, per package key and
    per spec-string, the requirements read from a corpus; `popular_packages`
    sums the counts of each package. */
module Index {

  import opened Wrappers
  import opened Text
  import opened Streams
  import opened Requirements
  import opened Dicts

  /** `"{}{}".format(op, version)` for each spec, in parse order. */
  function SpecTexts(specs: seq<Spec>): (texts: seq<string>)
    ensures |texts| == |specs|
  {
    if |specs| == 0 then [] else [specs[0].op.Symbol() + specs[0].version] + SpecTexts(specs[1..])
  }

  /** `",".join(...)` of the spec texts: the key a requirement is counted
      under. The order is the parser's; nothing is sorted or normalised. */
  function SpecString(specs: seq<Spec>): string {
    Join(SpecTexts(specs), ",")
  }

  /** The spec-string is empty exactly for a requirement without specs, and
      otherwise starts with the first operator. */
  lemma SpecStringShape(specs: seq<Spec>)
    ensures SpecString(specs) == "" <==> specs == []
    ensures specs != [] ==> StartsWith(SpecString(specs), specs[0].op.Symbol())
  {
    if specs != [] {
      var texts := SpecTexts(specs);
      JoinStartsWith(texts, ",");
      assert texts[0] == specs[0].op.Symbol() + specs[0].version;
      assert StartsWith(texts[0], specs[0].op.Symbol());
    }
  }

  /** `{key: {spec_string: count}}` */
  type PackageIndex = Dict<string, Counter<string>>

  /** Every per-package dict has distinct keys. */
  predicate InnerDistinct(idx: PackageIndex) {
    |idx| == 0 || (DistinctKeys(idx[0].1) && InnerDistinct(idx[1..]))
  }

  /** The shape every index built here keeps: distinct keys at both levels. */
  predicate WellFormed(idx: PackageIndex) {
    DistinctKeys(idx) && InnerDistinct(idx)
  }

  /** `index.get(key, {})` */
  function Entry(idx: PackageIndex, key: string): Counter<string> {
    Find(idx, key).GetOr([])
  }

  /** `index[key][spec]`, taken as 0 where either key is missing. */
  function Occurrences(idx: PackageIndex, key: string, spec: string): nat {
    Get(Entry(idx, key), spec)
  }

  /** Every count in the index. */
  function IndexTotal(idx: PackageIndex): nat {
    if |idx| == 0 then 0 else Total(idx[0].1) + IndexTotal(idx[1..])
  }

  /** The entry of a key in a well-formed index has distinct keys. */
  lemma {:induction false} EntryDistinct(idx: PackageIndex, key: string)
    requires InnerDistinct(idx)
    ensures DistinctKeys(Entry(idx, key))
  {
    if |idx| > 0 && idx[0].0 != key {
      EntryDistinct(idx[1..], key);
    }
  }

  /** Replacing one package's dict keeps the inner dicts distinct when the
      new one is. */
  lemma {:induction false} InnerDistinctPut(idx: PackageIndex, key: string, c: Counter<string>)
    requires InnerDistinct(idx) && DistinctKeys(c)
    ensures InnerDistinct(Put(idx, key, c))
  {
    if |idx| > 0 && idx[0].0 != key {
      InnerDistinctPut(idx[1..], key, c);
      assert Put(idx, key, c)[1..] == Put(idx[1..], key, c);
    } else if |idx| > 0 {
      assert Put(idx, key, c)[1..] == idx[1..];
    }
  }

  /** Replacing one package's dict changes the grand total by the
      difference of the two dicts' totals. */
  lemma {:induction false} IndexTotalPut(idx: PackageIndex, key: string, c: Counter<string>)
    ensures IndexTotal(Put(idx, key, c)) + Total(Entry(idx, key)) == IndexTotal(idx) + Total(c)
  {
    if |idx| > 0 && idx[0].0 != key {
      IndexTotalPut(idx[1..], key, c);
      assert Put(idx, key, c)[1..] == Put(idx[1..], key, c);
    } else if |idx| > 0 {
      assert Put(idx, key, c)[1..] == idx[1..];
    }
  }

  /** The body of the loop over the requirements of a record: the count of
      the requirement's key and spec-string goes up by one and every other
      count stays as it was; only the requirement's key can join the index,
      only its spec-string can join that key's dict, and every other
      package's dict is left as it was. */
  function Record(idx: PackageIndex, req: Requirement): (r: PackageIndex)
    ensures forall key, spec ::
              Occurrences(r, key, spec) ==
              Occurrences(idx, key, spec) + (if key == req.key && spec == SpecString(req.specs) then 1 else 0)
    ensures forall key :: HasKey(r, key) <==> HasKey(idx, key) || key == req.key
    ensures forall key :: key != req.key ==> Entry(r, key) == Entry(idx, key)
    ensures forall spec ::
              HasKey(Entry(r, req.key), spec) <==> HasKey(Entry(idx, req.key), spec) || spec == SpecString(req.specs)
    ensures IndexTotal(r) == IndexTotal(idx) + 1
    ensures WellFormed(idx) ==> WellFormed(r)
  {
    var c := Add(Entry(idx, req.key), SpecString(req.specs), 1);
    IndexTotalPut(idx, req.key, c);
    assert WellFormed(idx) ==> WellFormed(Put(idx, req.key, c)) by {
      if WellFormed(idx) {
        EntryDistinct(idx, req.key);
        InnerDistinctPut(idx, req.key, c);
      }
    }
    Put(idx, req.key, c)
  }

  /** `for req in reqs: ...` */
  function RecordAll(idx: PackageIndex, reqs: seq<Requirement>): PackageIndex
    decreases |reqs|
  {
    if |reqs| == 0 then idx else RecordAll(Record(idx, reqs[0]), reqs[1..])
  }

  /** A data.json item: its `C_content` text, when it has one. */
  type Item = Option<string>

  /** The loop over the records of data.json from index `idx` on. */
  function BuildFrom(idx: PackageIndex, corpus: seq<Item>, parse: Parser): PackageIndex
    decreases |corpus|
  {
    if |corpus| == 0 then idx
    else
      var idx' := match corpus[0]
        case Some(content) => RecordAll(idx, ReadRequirements(Open(content), parse))
        case None => idx;
      BuildFrom(idx', corpus[1..], parse)
  }

  /** `create_index`, less the JSON reading and writing. */
  function CreateIndex(corpus: seq<Item>, parse: Parser): PackageIndex {
    BuildFrom([], corpus, parse)
  }

  /** Every requirement the records yield, in order. */
  function CorpusRequirements(corpus: seq<Item>, parse: Parser): seq<Requirement> {
    if |corpus| == 0 then []
    else
      (match corpus[0]
       case Some(content) => ReadRequirements(Open(content), parse)
       case None => [])
      + CorpusRequirements(corpus[1..], parse)
  }

  /** How many of `reqs` have this key and this spec-string. */
  function Matching(reqs: seq<Requirement>, key: string, spec: string): nat {
    if |reqs| == 0 then 0
    else (if reqs[0].key == key && SpecString(reqs[0].specs) == spec then 1 else 0) + Matching(reqs[1..], key, spec)
  }

  /** How many of `reqs` name this key with no version constraint. */
  function Unconstrained(reqs: seq<Requirement>, key: string): nat {
    if |reqs| == 0 then 0
    else (if reqs[0].key == key && reqs[0].specs == [] then 1 else 0) + Unconstrained(reqs[1..], key)
  }

  lemma {:induction false} MatchingAppend(a: seq<Requirement>, b: seq<Requirement>, key: string, spec: string)
    ensures Matching(a + b, key, spec) == Matching(a, key, spec) + Matching(b, key, spec)
  {
    if |a| > 0 {
      MatchingAppendCons(a, b, key, spec);
      MatchingAppend(a[1..], b, key, spec);
    } else {
      assert a + b == b;
    }
  }

  /** The first requirement of `a + b` is that of `a`, the rest are those
      of `a[1..] + b`. */
  lemma MatchingAppendCons(a: seq<Requirement>, b: seq<Requirement>, key: string, spec: string)
    requires |a| > 0
    ensures Matching(a + b, key, spec)
         == (if a[0].key == key && SpecString(a[0].specs) == spec then 1 else 0) + Matching(a[1..] + b, key, spec)
  {
    assert (a + b)[0] == a[0] && (a + b)[1..] == a[1..] + b;
  }

  /** Recording requirements one after another adds, for every key and
      spec-string, exactly the number of them that match. */
  lemma {:induction false} RecordAllCounts(idx: PackageIndex, reqs: seq<Requirement>, key: string, spec: string)
    ensures Occurrences(RecordAll(idx, reqs), key, spec) == Occurrences(idx, key, spec) + Matching(reqs, key, spec)
    ensures IndexTotal(RecordAll(idx, reqs)) == IndexTotal(idx) + |reqs|
    ensures WellFormed(idx) ==> WellFormed(RecordAll(idx, reqs))
    decreases |reqs|
  {
    if |reqs| > 0 {
      RecordAllCounts(Record(idx, reqs[0]), reqs[1..], key, spec);
    }
  }

  /** Building from a partial index adds the counts of the rest of the
      corpus. */
  lemma {:induction false} BuildFromCounts(idx: PackageIndex, corpus: seq<Item>, parse: Parser, key: string, spec: string)
    ensures var reqs := CorpusRequirements(corpus, parse);
      && Occurrences(BuildFrom(idx, corpus, parse), key, spec) == Occurrences(idx, key, spec) + Matching(reqs, key, spec)
      && IndexTotal(BuildFrom(idx, corpus, parse)) == IndexTotal(idx) + |reqs|
      && (WellFormed(idx) ==> WellFormed(BuildFrom(idx, corpus, parse)))
    decreases |corpus|
  {
    if |corpus| > 0 {
      var first := match corpus[0]
        case Some(content) => ReadRequirements(Open(content), parse)
        case None => [];
      var rest := CorpusRequirements(corpus[1..], parse);
      RecordAllCounts(idx, first, key, spec);
      var idx' := RecordAll(idx, first);
      BuildFromCounts(idx', corpus[1..], parse, key, spec);
      MatchingAppend(first, rest, key, spec);
    }
  }

  /** No count is lost or counted twice: `index[key][spec]` is the number
      of requirements in the corpus with that key and spec-string, the
      counts add up to the number of requirements, and both levels of the
      index have distinct keys. */
  lemma CreateIndexCounts(corpus: seq<Item>, parse: Parser, key: string, spec: string)
    ensures var idx := CreateIndex(corpus, parse);
      var reqs := CorpusRequirements(corpus, parse);
      && Occurrences(idx, key, spec) == Matching(reqs, key, spec)
      && IndexTotal(idx) == |reqs|
      && WellFormed(idx)
  {
    BuildFromCounts([], corpus, parse, key, spec);
  }

  /** Some requirement of `reqs` has this key. */
  predicate Mentions(reqs: seq<Requirement>, key: string) {
    |reqs| > 0 && (reqs[0].key == key || Mentions(reqs[1..], key))
  }

  lemma {:induction false} MentionsAppend(a: seq<Requirement>, b: seq<Requirement>, key: string)
    ensures Mentions(a + b, key) <==> Mentions(a, key) || Mentions(b, key)
  {
    if |a| > 0 {
      MentionsAppend(a[1..], b, key);
      assert (a + b)[1..] == a[1..] + b;
    } else {
      assert a + b == b;
    }
  }

  /** Recording requirements adds exactly their keys to the index, and to a
      key's dict exactly the spec-strings some of them have. */
  lemma {:induction false} RecordAllKeys(idx: PackageIndex, reqs: seq<Requirement>, key: string, spec: string)
    ensures HasKey(RecordAll(idx, reqs), key) <==> HasKey(idx, key) || Mentions(reqs, key)
    ensures HasKey(Entry(RecordAll(idx, reqs), key), spec) <==>
              HasKey(Entry(idx, key), spec) || Matching(reqs, key, spec) > 0
    decreases |reqs|
  {
    if |reqs| > 0 {
      RecordAllKeys(Record(idx, reqs[0]), reqs[1..], key, spec);
    }
  }

  /** Building from a partial index adds exactly the keys and spec-strings
      of the rest of the corpus. */
  lemma {:induction false} BuildFromKeys(idx: PackageIndex, corpus: seq<Item>, parse: Parser, key: string, spec: string)
    ensures var reqs := CorpusRequirements(corpus, parse);
      && (HasKey(BuildFrom(idx, corpus, parse), key) <==> HasKey(idx, key) || Mentions(reqs, key))
      && (HasKey(Entry(BuildFrom(idx, corpus, parse), key), spec) <==>
            HasKey(Entry(idx, key), spec) || Matching(reqs, key, spec) > 0)
    decreases |corpus|
  {
    if |corpus| > 0 {
      var first := match corpus[0]
        case Some(content) => ReadRequirements(Open(content), parse)
        case None => [];
      var rest := CorpusRequirements(corpus[1..], parse);
      RecordAllKeys(idx, first, key, spec);
      BuildFromKeys(RecordAll(idx, first), corpus[1..], parse, key, spec);
      MentionsAppend(first, rest, key);
      MatchingAppend(first, rest, key, spec);
    }
  }

  /** The index holds a package exactly when some requirement of the corpus
      names it, and a spec-string under it exactly when some requirement of
      that package has it: no key is present with a count of 0. */
  lemma CreateIndexKeys(corpus: seq<Item>, parse: Parser, key: string, spec: string)
    ensures var idx := CreateIndex(corpus, parse);
      var reqs := CorpusRequirements(corpus, parse);
      && (HasKey(idx, key) <==> Mentions(reqs, key))
      && (HasKey(Entry(idx, key), spec) <==> Matching(reqs, key, spec) > 0)
  {
    BuildFromKeys([], corpus, parse, key, spec);
  }

  /** Requirements counted under the empty spec-string are exactly those
      without a version constraint. */
  lemma {:induction false} MatchingEmptySpec(reqs: seq<Requirement>, key: string)
    ensures Matching(reqs, key, "") == Unconstrained(reqs, key)
  {
    if |reqs| > 0 {
      SpecStringShape(reqs[0].specs);
      MatchingEmptySpec(reqs[1..], key);
    }
  }

  /** `index[name][""]` counts the requirements of `name` that carry no
      version constraint. */
  lemma UnpinnedEntryCounts(corpus: seq<Item>, parse: Parser, key: string)
    ensures Occurrences(CreateIndex(corpus, parse), key, "") == Unconstrained(CorpusRequirements(corpus, parse), key)
  {
    CreateIndexCounts(corpus, parse, key, "");
    MatchingEmptySpec(CorpusRequirements(corpus, parse), key);
  }

  /** The loop of `popular_packages` from a partial counter on:
      `counter.update({pkg: sum(specs.values())})` for each package. */
  function PopularFrom(counter: Counter<string>, idx: PackageIndex): Counter<string>
    decreases |idx|
  {
    if |idx| == 0 then counter else PopularFrom(Add(counter, idx[0].0, Total(idx[0].1)), idx[1..])
  }

  /** `popular_packages`, less the JSON reading. */
  function PopularPackages(idx: PackageIndex): Counter<string> {
    PopularFrom([], idx)
  }

  /** Each package's popularity is the sum of its spec counts, and the
      popularities add up to every count in the index. */
  lemma {:induction false} PopularFromCounts(counter: Counter<string>, idx: PackageIndex, key: string)
    requires DistinctKeys(idx)
    ensures Get(PopularFrom(counter, idx), key) == Get(counter, key) + Total(Entry(idx, key))
    ensures Total(PopularFrom(counter, idx)) == Total(counter) + IndexTotal(idx)
    decreases |idx|
  {
    if |idx| > 0 {
      PopularFromCounts(Add(counter, idx[0].0, Total(idx[0].1)), idx[1..], key);
      if idx[0].0 == key {
        assert Find(idx[1..], key).None?;
      }
    }
  }

  /** What `popular_packages` reports for a package is the sum of its spec
      counts, the same `count` the package report starts from. */
  lemma PopularPackagesCounts(idx: PackageIndex, key: string)
    requires DistinctKeys(idx)
    ensures Get(PopularPackages(idx), key) == Total(Entry(idx, key))
    ensures Total(PopularPackages(idx)) == IndexTotal(idx)
  {
    PopularFromCounts([], idx, key);
  }
}
