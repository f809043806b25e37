/** The per-package report of `package_data`: spec kinds, the release each
    pinned spec resolves to, major-release buckets and the security split.
    The release list of the package index, the specifier matching of
    `SpecifierSet.contains` and the vulnerability lookup are parameters. */
module Report {

  import opened Wrappers
  import opened Text
  import opened Requirements
  import opened Dicts
  import opened Index
  import opened Streams

  /** The keys of the report's "specs" dict. */
  datatype SpecKind = Unpinned | Range | Pinned | Compatible | OtherSpec {

    /** The key as the report writes it. */
    function Name(): string {
      match this
      case Unpinned => "unpinned"
      case Range => "range"
      case Pinned => "pinned"
      case Compatible => "compatible"
      case OtherSpec => "unknown"
    }
  }

  /** The kind of a spec-string, decided on its first characters. */
  function KindOf(spec: string): SpecKind {
    if spec == "" then Unpinned
    else if StartsWith(spec, "==") then Pinned
    else if StartsWith(spec, "~=") then SpecKind.Compatible
    else if StartsWith(spec, "<") || StartsWith(spec, ">") || StartsWith(spec, "!=") then Range
    else OtherSpec
  }

  /** The kind a requirement's first operator gives it. */
  function OpKind(op: Op): SpecKind {
    match op
    case Equal => Pinned
    case Arbitrary => Pinned
    case Compatible => SpecKind.Compatible
    case NotEqual => Range
    case LessEq => Range
    case GreaterEq => Range
    case Less => Range
    case Greater => Range
  }

  /** The kind of a requirement: unpinned without specs, otherwise that of
      its first operator. */
  function RequirementKind(req: Requirement): SpecKind {
    if req.specs == [] then Unpinned else OpKind(req.specs[0].op)
  }

  /** A prefix of a prefix is a prefix. */
  lemma StartsWithTrans(s: string, p: string, q: string)
    requires StartsWith(s, p) && StartsWith(p, q)
    ensures StartsWith(s, q)
  {
    assert s[..|q|] == p[..|q|];
  }

  /** Only the first operator decides the kind of a spec-string the index
      holds, and no such spec-string is of the "unknown" kind. */
  lemma KindOfSpecString(specs: seq<Spec>)
    ensures KindOf(SpecString(specs)) == if specs == [] then Unpinned else OpKind(specs[0].op)
    ensures KindOf(SpecString(specs)) != OtherSpec
  {
    SpecStringShape(specs);
    if specs != [] {
      var s := SpecString(specs);
      var sym := specs[0].op.Symbol();
      assert s[..|sym|] == sym;
      match specs[0].op
      case Arbitrary => StartsWithTrans(s, "===", "==");
      case Less => assert s[0] == '<';
      case Greater => assert s[0] == '>';
      case _ => assert s[0] == sym[0] && s[1] == sym[1];
    }
  }

  /** Spec-strings of each kind, and one that fits none. */
  lemma KindOfExamples()
    ensures KindOf("==1.0") == Pinned && KindOf(">=2") == Range && KindOf("!=3") == Range
    ensures KindOf("~=1.4") == SpecKind.Compatible && KindOf("") == Unpinned && KindOf("1.0") == OtherSpec
  {
    assert "==1.0"[..2] == "==";
    assert ">=2"[..1] == ">" && ">=2"[0] != "=="[0] && ">=2"[0] != "~="[0];
    assert "!=3"[..2] == "!=" && "!=3"[0] != "=="[0] && "!=3"[0] != "~="[0] && "!=3"[0] != "<"[0] && "!=3"[0] != ">"[0];
    assert "~=1.4"[..2] == "~=" && "~=1.4"[0] != "=="[0];
    var s := "1.0";
    assert s[0] != "=="[0] && s[0] != "~="[0] && s[0] != "<"[0] && s[0] != ">"[0] && s[0] != "!="[0];
  }

  /** The "specs" dict before counting. */
  const InitialSpecCounts: Counter<SpecKind> :=
    [(Unpinned, 0), (Range, 0), (Pinned, 0), (SpecKind.Compatible, 0), (OtherSpec, 0)]

  /** The loop that counts the spec kinds. */
  function SpecCounts(item: Counter<string>): Counter<SpecKind> {
    Regroup(InitialSpecCounts, item, KindOf)
  }

  /** `SpecifierSet(spec).contains(release, prereleases=True)` */
  type Admits = (string, string) -> bool

  /** The key of the release bucket for specs that resolve to no release. */
  const UnknownRelease: string := "unknown"

  /** The releases a spec admits, in the order of the release list. */
  function Candidates(spec: string, releases: seq<string>, admits: Admits): (c: seq<string>)
    ensures forall x :: x in c <==> x in releases && admits(spec, x)
  {
    if |releases| == 0 then []
    else (if admits(spec, releases[0]) then [releases[0]] else []) + Candidates(spec, releases[1..], admits)
  }

  /** The release bucket a spec-string's count goes to: for a `==` spec the
      first admitted release, otherwise, or when no release is admitted,
      "unknown". */
  function ReleaseOf(spec: string, releases: seq<string>, admits: Admits): (r: string)
    ensures r == UnknownRelease || (StartsWith(spec, "==") && r in releases && admits(spec, r))
    ensures r == UnknownRelease && StartsWith(spec, "==") && UnknownRelease !in releases ==>
      forall x :: x in releases ==> !admits(spec, x)
  {
    if !StartsWith(spec, "==") then UnknownRelease
    else
      var candidates := Candidates(spec, releases, admits);
      if |candidates| > 0 then candidates[0] else UnknownRelease
  }

  /** `ReleaseOf` with the release list and the matcher fixed. */
  function ReleaseBucket(releases: seq<string>, admits: Admits): string -> string {
    spec => ReleaseOf(spec, releases, admits)
  }

  /** The list is in descending order under `atLeast`. */
  ghost predicate SortedDescending(rs: seq<string>, atLeast: (string, string) -> bool) {
    forall i, j :: 0 <= i < j < |rs| ==> atLeast(rs[i], rs[j])
  }

  /** The rest of a sorted list is sorted. */
  lemma SortedTail(rs: seq<string>, atLeast: (string, string) -> bool)
    requires |rs| > 0 && SortedDescending(rs, atLeast)
    ensures SortedDescending(rs[1..], atLeast)
  {
    var rest := rs[1..];
    forall i, j | 0 <= i < j < |rest|
      ensures atLeast(rest[i], rest[j])
    {
      assert rest[i] == rs[i + 1] && rest[j] == rs[j + 1];
    }
  }

  /** The head of a sorted list is at least every later element. */
  lemma SortedHead(rs: seq<string>, atLeast: (string, string) -> bool, x: string)
    requires |rs| > 0 && SortedDescending(rs, atLeast) && x in rs[1..]
    ensures atLeast(rs[0], x)
  {
    var k :| 0 <= k < |rs| - 1 && rs[1..][k] == x;
    assert rs[k + 1] == x;
  }

  /** A head at least every element of a sorted tail makes a sorted list. */
  lemma SortedCons(x: string, tail: seq<string>, atLeast: (string, string) -> bool)
    requires SortedDescending(tail, atLeast)
    requires forall y :: y in tail ==> atLeast(x, y)
    ensures SortedDescending([x] + tail, atLeast)
  {
    var c := [x] + tail;
    forall i, j | 0 <= i < j < |c|
      ensures atLeast(c[i], c[j])
    {
      assert c[j] == tail[j - 1];
      if i > 0 {
        assert c[i] == tail[i - 1];
      }
    }
  }

  /** The admitted releases keep the order of the release list; in
      particular, when that list is newest first, so are they. */
  lemma {:induction false} CandidatesSorted(spec: string, releases: seq<string>, admits: Admits, atLeast: (string, string) -> bool)
    requires SortedDescending(releases, atLeast)
    ensures SortedDescending(Candidates(spec, releases, admits), atLeast)
  {
    if |releases| > 0 {
      var rest := releases[1..];
      SortedTail(releases, atLeast);
      CandidatesSorted(spec, rest, admits, atLeast);
      var tail := Candidates(spec, rest, admits);
      if admits(spec, releases[0]) {
        forall y | y in tail
          ensures atLeast(releases[0], y)
        {
          SortedHead(releases, atLeast, y);
        }
        SortedCons(releases[0], tail, atLeast);
      }
    }
  }

  /** With the release list newest first, the release a pinned spec resolves
      to is at least as new as every release the spec admits. */
  lemma ResolvesToNewest(spec: string, releases: seq<string>, admits: Admits, atLeast: (string, string) -> bool, x: string)
    requires SortedDescending(releases, atLeast)
    requires StartsWith(spec, "==") && x in releases && admits(spec, x)
    ensures atLeast(ReleaseOf(spec, releases, admits), x) || ReleaseOf(spec, releases, admits) == x
  {
    var c := Candidates(spec, releases, admits);
    CandidatesSorted(spec, releases, admits, atLeast);
    assert x in c;
    var k :| 0 <= k < |c| && c[k] == x;
    if k > 0 {
      assert atLeast(c[0], c[k]);
    }
  }

  /** The "releases" dict before counting. */
  const InitialReleaseCounts: Counter<string> := [(UnknownRelease, 0)]

  /** The loop that sends each spec-string's count to its release bucket. */
  function ReleaseCounts(item: Counter<string>, releases: seq<string>, admits: Admits): Counter<string> {
    Regroup(InitialReleaseCounts, item, ReleaseBucket(releases, admits))
  }

  /** `".".join(release.split(".")[:2])` */
  function MajorOf(release: string): string {
    var parts := SplitOn(release, ".");
    Join(parts[..if |parts| < 2 then |parts| else 2], ".")
  }

  /** No two characters of `s` are dots. */
  predicate AtMostOneDot(s: string) {
    forall i, j :: 0 <= i < j < |s| ==> !(s[i] == '.' && s[j] == '.')
  }

  /** Where the first dot of `s` is, if it has one. */
  lemma FirstDot(s: string)
    ensures FirstOccurrence(s, ".").None? ==> '.' !in s
    ensures FirstOccurrence(s, ".").Some? ==>
      var i := FirstOccurrence(s, ".").value;
      i < |s| && s[i] == '.' && '.' !in s[..i]
  {
    ContainsChar(s, '.');
    match FirstOccurrence(s, ".")
    case None =>
    case Some(i) =>
      assert s[i..i + 1] == ".";
      forall j | 0 <= j < i
        ensures s[j] != '.'
      {
        NoEarlierOccurrence(s, ".", j);
        assert s[j..j + 1] == [s[j]];
      }
  }

  /** The first piece of `s.split(".")` is the text before the first dot. */
  lemma FirstPiece(s: string)
    ensures var p := SplitOn(s, ".")[0];
      && StartsWith(s, p)
      && '.' !in p
      && (|p| < |s| ==> s[|p|] == '.')
  {
    FirstDot(s);
    match FirstOccurrence(s, ".")
    case None =>
    case Some(k) =>
      assert SplitOn(s, ".")[0] == s[..k];
  }

  /** Two dot-free texts around one dot make a text with exactly one dot. */
  lemma OneDot(a: string, b: string)
    requires '.' !in a && '.' !in b
    ensures AtMostOneDot(a + "." + b) && '.' in a + "." + b
  {
    var s := a + "." + b;
    assert s[|a|] == '.';
    forall k | 0 <= k < |s| && k != |a|
      ensures s[k] != '.'
    {
      if k < |a| {
        assert s[k] == a[k];
      } else {
        assert s[k] == b[k - |a| - 1];
      }
    }
  }

  /** A release with a dot: its major release is the text before the
      first dot, a dot, and the first piece after it. */
  lemma MajorOfPieces(release: string, i: nat)
    requires FirstOccurrence(release, ".") == Some(i)
    ensures MajorOf(release) == release[..i] + "." + SplitOn(release[i + 1..], ".")[0]
  {
    var a := release[..i];
    var tail := SplitOn(release[i + 1..], ".");
    var parts := SplitOn(release, ".");
    assert parts == [a] + tail;
    assert parts[..2] == [a, tail[0]];
    JoinCons(a, [tail[0]], ".");
  }

  /** The major release is the release up to, not including, its second
      dot, or the whole release when it has fewer than two dots. */
  lemma MajorOfMeaning(release: string)
    ensures StartsWith(release, MajorOf(release))
    ensures AtMostOneDot(MajorOf(release))
    ensures |MajorOf(release)| < |release| ==> release[|MajorOf(release)|] == '.' && '.' in MajorOf(release)
  {
    FirstPiece(release);
    match FirstOccurrence(release, ".")
    case None =>
      assert SplitOn(release, ".") == [release];
    case Some(i) =>
      var a := release[..i];
      var rest := release[i + 1..];
      var b := SplitOn(rest, ".")[0];
      MajorOfPieces(release, i);
      CutAt(release, ".", i);
      FirstPiece(rest);
      OneDot(a, b);
      MajorPrefix(a, rest, b);
  }

  /** `a + "." + b` is a prefix of `a + "." + rest` when `b` is a prefix of
      `rest`, and is followed by a dot when `b` is followed by one. */
  lemma MajorPrefix(a: string, rest: string, b: string)
    requires StartsWith(rest, b)
    requires |b| < |rest| ==> rest[|b|] == '.'
    ensures StartsWith(a + "." + rest, a + "." + b)
    ensures |a + "." + b| < |a + "." + rest| ==> (a + "." + rest)[|a + "." + b|] == '.'
  {
    var s := a + "." + rest;
    assert s[..|a| + 1 + |b|] == a + "." + rest[..|b|];
  }

  /** A release with at most one dot is its own major release. */
  lemma MajorOfFixed(release: string)
    requires AtMostOneDot(release)
    ensures MajorOf(release) == release
  {
    MajorOfMeaning(release);
  }

  /** Taking the major release twice changes nothing, and "unknown" stays
      "unknown". */
  lemma MajorOfIdempotent(release: string)
    ensures MajorOf(MajorOf(release)) == MajorOf(release)
    ensures MajorOf(UnknownRelease) == UnknownRelease
  {
    MajorOfMeaning(release);
    MajorOfFixed(MajorOf(release));
    MajorOfFixed(UnknownRelease);
  }

  /** Release strings with fewer than two dots are their own major release;
      one with more is cut before its second dot. */
  lemma MajorOfExamples()
    ensures MajorOf("10") == "10" && MajorOf("1.11") == "1.11"
    ensures MajorOf("1.2.3") == "1.2"
  {
    MajorOfFixed("10");
    var s := "1.11";
    assert s[1] == '.' && s[0] != '.' && s[2] != '.' && s[3] != '.';
    MajorOfFixed(s);
    var t := "1.2.3";
    var p := t[..3];
    assert p == "1.2" && p[0] != '.' && p[1] == '.' && p[2] != '.';
    assert t[1] == '.' && t[3] == '.';
    MajorOfSecondDot(t, 3);
  }

  /** A release whose second dot is at `k` has the text before it as its
      major release. */
  lemma MajorOfSecondDot(release: string, k: nat)
    requires k < |release| && release[k] == '.'
    requires exists i :: 0 <= i < k && release[i] == '.'
    requires AtMostOneDot(release[..k])
    ensures MajorOf(release) == release[..k]
  {
    MajorOfMeaning(release);
    var m := MajorOf(release);
    var i :| 0 <= i < k && release[i] == '.';
    assert m == release[..|m|];
    // Only `i` holds a dot before `k`, so `m`, which holds a dot and is
    // followed by one, cannot end before `k`.
    forall j | 0 <= j < k && j != i
      ensures release[j] != '.'
    {
      assert release[..k][j] == release[j] && release[..k][i] == '.';
    }
  }

  /** The loop that folds release buckets into major-release buckets. */
  function MajorCounts(releaseCounts: Counter<string>): Counter<string> {
    Regroup([], releaseCounts, MajorOf)
  }

  /** The keys of the report's "security" dict. */
  datatype Safety = Secure | Insecure | Unresolved {

    /** The key as the report writes it. */
    function Name(): string {
      match this
      case Secure => "secure"
      case Insecure => "insecure"
      case Unresolved => "unknown"
    }
  }

  /** The vulnerability lookup: whether `safety` reports any known
      vulnerability for release `version` of package `name`. */
  type Vulnerable = (string, string) -> bool

  /** The "security" dict before counting. */
  const InitialSecurity: Counter<Safety> := [(Secure, 0), (Insecure, 0), (Unresolved, 0)]

  /** The security loop over the release buckets: the "unknown" bucket's
      count is assigned to the unknown status, every other release adds its
      count to insecure or secure by the lookup. */
  function SecurityFrom(acc: Counter<Safety>, releaseCounts: Counter<string>, name: string, vulnerable: Vulnerable): Counter<Safety>
    decreases |releaseCounts|
  {
    if |releaseCounts| == 0 then acc
    else
      var (release, count) := releaseCounts[0];
      var acc' :=
        if release == UnknownRelease then Put(acc, Unresolved, count)
        else if vulnerable(name, release) then Add(acc, Insecure, count)
        else Add(acc, Secure, count);
      SecurityFrom(acc', releaseCounts[1..], name, vulnerable)
  }

  /** The status a release bucket stands for. */
  function SafetyOf(name: string, vulnerable: Vulnerable): string -> Safety {
    release =>
      if release == UnknownRelease then Unresolved
      else if vulnerable(name, release) then Insecure
      else Secure
  }

  /** Since the release buckets have distinct keys, the one assignment to
      the unknown status acts as an addition to an empty count: the
      security loop is a regrouping of the release buckets by status. */
  lemma {:induction false} SecurityIsRegroup(acc: Counter<Safety>, releaseCounts: Counter<string>, name: string, vulnerable: Vulnerable)
    requires DistinctKeys(releaseCounts)
    requires HasKey(releaseCounts, UnknownRelease) ==> Get(acc, Unresolved) == 0
    ensures SecurityFrom(acc, releaseCounts, name, vulnerable) == Regroup(acc, releaseCounts, SafetyOf(name, vulnerable))
    decreases |releaseCounts|
  {
    if |releaseCounts| > 0 {
      var (release, count) := releaseCounts[0];
      var f := SafetyOf(name, vulnerable);
      var acc' := Add(acc, f(release), count);
      if release == UnknownRelease {
        assert Put(acc, Unresolved, count) == acc';
        assert !HasKey(releaseCounts[1..], UnknownRelease);
      }
      SecurityIsRegroup(acc', releaseCounts[1..], name, vulnerable);
    }
  }

  /** The report `package_data` builds, less the ordering of its dicts. */
  datatype PackageReport = PackageReport(
    count: nat,
    specs: Counter<SpecKind>,
    releases: Counter<string>,
    majorReleases: Counter<string>,
    security: Counter<Safety>)

  /** `package_data(name)`, with the index, the package's release list
      (newest first), the specifier matching and the vulnerability lookup
      as parameters. */
  function PackageData(idx: PackageIndex, name: string, releases: seq<string>, admits: Admits, vulnerable: Vulnerable): (r: PackageReport)
    ensures r.count == Total(Entry(idx, name))
    ensures Total(r.specs) == r.count
    ensures Total(r.releases) == r.count
    ensures Total(r.majorReleases) == r.count
    ensures Total(r.security) == r.count
    ensures Get(r.security, Unresolved) == Get(r.releases, UnknownRelease)
  {
    var item := Entry(idx, name);
    var releaseCounts := ReleaseCounts(item, releases, admits);
    var security := SecurityFrom(InitialSecurity, releaseCounts, name, vulnerable);
    assert DistinctKeys(InitialReleaseCounts);
    SecurityIsRegroup(InitialSecurity, releaseCounts, name, vulnerable);
    RegroupCounts(InitialSecurity, releaseCounts, SafetyOf(name, vulnerable), Unresolved);
    UnknownSafetySum(releaseCounts, name, vulnerable);
    PackageReport(
      Total(item),
      SpecCounts(item),
      releaseCounts,
      MajorCounts(releaseCounts),
      security)
  }

  /** What each bucket of the report holds: a spec kind, the counts of the
      package's spec-strings of that kind; a release, the counts of the
      spec-strings that resolve to it; a major release, the counts of the
      release buckets that fall in it; a status, the counts of the release
      buckets with that status. */
  lemma PackageDataBuckets(idx: PackageIndex, name: string, releases: seq<string>, admits: Admits, vulnerable: Vulnerable,
                           kind: SpecKind, release: string, major: string, status: Safety)
    ensures var r := PackageData(idx, name, releases, admits, vulnerable);
      var item := Entry(idx, name);
      && Get(r.specs, kind) == SumFor(item, KindOf, kind)
      && Get(r.releases, release) == SumFor(item, ReleaseBucket(releases, admits), release)
      && Get(r.majorReleases, major) == SumFor(r.releases, MajorOf, major)
      && Get(r.security, status) == SumFor(r.releases, SafetyOf(name, vulnerable), status)
  {
    var item := Entry(idx, name);
    var releaseCounts := ReleaseCounts(item, releases, admits);
    SpecBuckets(item, kind);
    ReleaseBuckets(item, releases, admits, release);
    RegroupCounts([], releaseCounts, MajorOf, major);
    SecurityBuckets(releaseCounts, name, vulnerable, status);
  }

  /** A spec kind holds the counts of the spec-strings of that kind. */
  lemma SpecBuckets(item: Counter<string>, kind: SpecKind)
    ensures Get(SpecCounts(item), kind) == SumFor(item, KindOf, kind)
  {
    RegroupCounts(InitialSpecCounts, item, KindOf, kind);
    InitialSpecCountsZero(kind);
  }

  /** A release holds the counts of the spec-strings that resolve to it. */
  lemma ReleaseBuckets(item: Counter<string>, releases: seq<string>, admits: Admits, release: string)
    ensures Get(ReleaseCounts(item, releases, admits), release) == SumFor(item, ReleaseBucket(releases, admits), release)
  {
    RegroupCounts(InitialReleaseCounts, item, ReleaseBucket(releases, admits), release);
    assert Get(InitialReleaseCounts, release) == 0;
  }

  /** A status holds the counts of the release buckets with that status. */
  lemma SecurityBuckets(releaseCounts: Counter<string>, name: string, vulnerable: Vulnerable, status: Safety)
    requires DistinctKeys(releaseCounts)
    ensures Get(SecurityFrom(InitialSecurity, releaseCounts, name, vulnerable), status)
         == SumFor(releaseCounts, SafetyOf(name, vulnerable), status)
  {
    SecurityIsRegroup(InitialSecurity, releaseCounts, name, vulnerable);
    RegroupCounts(InitialSecurity, releaseCounts, SafetyOf(name, vulnerable), status);
    assert InitialSecurity[0].1 == 0 && InitialSecurity[1..][0].1 == 0 && InitialSecurity[2..][0].1 == 0;
  }

  /** The unknown status collects exactly the count of the "unknown"
      release bucket, when that bucket appears once. */
  lemma {:induction false} UnknownSafetySum(releaseCounts: Counter<string>, name: string, vulnerable: Vulnerable)
    requires DistinctKeys(releaseCounts)
    ensures SumFor(releaseCounts, SafetyOf(name, vulnerable), Unresolved) == Get(releaseCounts, UnknownRelease)
  {
    if |releaseCounts| > 0 {
      UnknownSafetySum(releaseCounts[1..], name, vulnerable);
      if releaseCounts[0].0 == UnknownRelease {
        assert !HasKey(releaseCounts[1..], UnknownRelease);
      }
    }
  }

  /** The security loop and the major-release loop run over the release
      buckets sorted newest first; the counts they produce do not depend on
      that order. `sorted` is a reordering of the same entries, so its keys
      are as distinct as those of `releaseCounts`; both are required. */
  lemma ReleaseOrderIrrelevant(releaseCounts: Counter<string>, sorted: Counter<string>, name: string, vulnerable: Vulnerable, major: string, status: Safety)
    requires multiset(sorted) == multiset(releaseCounts)
    requires DistinctKeys(releaseCounts) && DistinctKeys(sorted)
    ensures Get(MajorCounts(sorted), major) == Get(MajorCounts(releaseCounts), major)
    ensures Get(SecurityFrom(InitialSecurity, sorted, name, vulnerable), status)
         == Get(SecurityFrom(InitialSecurity, releaseCounts, name, vulnerable), status)
  {
    RegroupIgnoresOrder([], sorted, releaseCounts, MajorOf, major);
    assert Get(InitialSecurity, Unresolved) == 0;
    SecurityIsRegroup(InitialSecurity, sorted, name, vulnerable);
    SecurityIsRegroup(InitialSecurity, releaseCounts, name, vulnerable);
    RegroupIgnoresOrder(InitialSecurity, sorted, releaseCounts, SafetyOf(name, vulnerable), status);
  }

  /** How many of `reqs` are for `key`. */
  function KeyCount(reqs: seq<Requirement>, key: string): nat {
    if |reqs| == 0 then 0
    else (if reqs[0].key == key then 1 else 0) + KeyCount(reqs[1..], key)
  }

  /** How many of `reqs` are for `key` and of kind `kind`. */
  function KindCount(reqs: seq<Requirement>, key: string, kind: SpecKind): nat {
    if |reqs| == 0 then 0
    else (if reqs[0].key == key && RequirementKind(reqs[0]) == kind then 1 else 0) + KindCount(reqs[1..], key, kind)
  }

  lemma {:induction false} CountsAppend(a: seq<Requirement>, b: seq<Requirement>, key: string, kind: SpecKind)
    ensures KeyCount(a + b, key) == KeyCount(a, key) + KeyCount(b, key)
    ensures KindCount(a + b, key, kind) == KindCount(a, key, kind) + KindCount(b, key, kind)
  {
    if |a| > 0 {
      CountsAppend(a[1..], b, key, kind);
      assert (a + b)[1..] == a[1..] + b;
    } else {
      assert a + b == b;
    }
  }

  /** No requirement is of the "unknown" kind. */
  lemma {:induction false} NoOtherKind(reqs: seq<Requirement>, key: string)
    ensures KindCount(reqs, key, OtherSpec) == 0
  {
    if |reqs| > 0 {
      NoOtherKind(reqs[1..], key);
    }
  }

  /** Recording a requirement adds one to its package's count and to the
      kind its first operator gives. */
  lemma RecordKinds(idx: PackageIndex, req: Requirement, key: string, kind: SpecKind)
    ensures Total(Entry(Record(idx, req), key)) == Total(Entry(idx, key)) + (if key == req.key then 1 else 0)
    ensures SumFor(Entry(Record(idx, req), key), KindOf, kind)
         == SumFor(Entry(idx, key), KindOf, kind) + (if key == req.key && RequirementKind(req) == kind then 1 else 0)
  {
    var spec := SpecString(req.specs);
    var c := Add(Entry(idx, req.key), spec, 1);
    assert Record(idx, req) == Put(idx, req.key, c);
    KindOfSpecString(req.specs);
    SumForAdd(Entry(idx, req.key), spec, 1, KindOf, kind);
  }

  lemma {:induction false} RecordAllKinds(idx: PackageIndex, reqs: seq<Requirement>, key: string, kind: SpecKind)
    ensures Total(Entry(RecordAll(idx, reqs), key)) == Total(Entry(idx, key)) + KeyCount(reqs, key)
    ensures SumFor(Entry(RecordAll(idx, reqs), key), KindOf, kind) == SumFor(Entry(idx, key), KindOf, kind) + KindCount(reqs, key, kind)
    decreases |reqs|
  {
    if |reqs| > 0 {
      RecordKinds(idx, reqs[0], key, kind);
      RecordAllKinds(Record(idx, reqs[0]), reqs[1..], key, kind);
    }
  }

  lemma {:induction false} BuildFromKinds(idx: PackageIndex, corpus: seq<Item>, parse: Parser, key: string, kind: SpecKind)
    ensures var reqs := CorpusRequirements(corpus, parse);
      var e := Entry(BuildFrom(idx, corpus, parse), key);
      && Total(e) == Total(Entry(idx, key)) + KeyCount(reqs, key)
      && SumFor(e, KindOf, kind) == SumFor(Entry(idx, key), KindOf, kind) + KindCount(reqs, key, kind)
    decreases |corpus|
  {
    if |corpus| > 0 {
      var first := match corpus[0]
        case Some(content) => ReadRequirements(Open(content), parse)
        case None => [];
      RecordAllKinds(idx, first, key, kind);
      BuildFromKinds(RecordAll(idx, first), corpus[1..], parse, key, kind);
      CountsAppend(first, CorpusRequirements(corpus[1..], parse), key, kind);
    }
  }

  /** On an index built from a corpus, a package's spec counts count each
      requirement for the package once, under the kind of its first
      operator. */
  lemma CorpusSpecCounts(corpus: seq<Item>, parse: Parser, name: string, kind: SpecKind)
    ensures var item := Entry(CreateIndex(corpus, parse), name);
      var reqs := CorpusRequirements(corpus, parse);
      && Total(item) == KeyCount(reqs, name)
      && Get(SpecCounts(item), kind) == KindCount(reqs, name, kind)
  {
    var item := Entry(CreateIndex(corpus, parse), name);
    BuildFromKinds([], corpus, parse, name, kind);
    RegroupCounts(InitialSpecCounts, item, KindOf, kind);
    InitialSpecCountsZero(kind);
  }

  /** Every kind starts at zero. */
  lemma InitialSpecCountsZero(kind: SpecKind)
    ensures Get(InitialSpecCounts, kind) == 0
  {
    assert InitialSpecCounts[0].1 == 0 && InitialSpecCounts[1..][0].1 == 0;
  }

  /** On an index built from a corpus, a package's report counts every
      requirement for the package once, puts each under the kind of its
      first operator (or "unpinned" without one), and never uses the
      "unknown" kind. */
  lemma CorpusReport(corpus: seq<Item>, parse: Parser, name: string, releases: seq<string>, admits: Admits, vulnerable: Vulnerable, kind: SpecKind)
    ensures var r := PackageData(CreateIndex(corpus, parse), name, releases, admits, vulnerable);
      var reqs := CorpusRequirements(corpus, parse);
      && r.count == KeyCount(reqs, name)
      && Get(r.specs, kind) == KindCount(reqs, name, kind)
      && Get(r.specs, OtherSpec) == 0
  {
    CorpusSpecCounts(corpus, parse, name, kind);
    CorpusSpecCounts(corpus, parse, name, OtherSpec);
    NoOtherKind(CorpusRequirements(corpus, parse), name);
  }

  /** The report's count is what `popular_packages` gives the package. */
  lemma ReportCountIsPopularity(idx: PackageIndex, name: string, releases: seq<string>, admits: Admits, vulnerable: Vulnerable)
    requires DistinctKeys(idx)
    ensures PackageData(idx, name, releases, admits, vulnerable).count == Get(PopularPackages(idx), name)
  {
    PopularPackagesCounts(idx, name);
  }
}
