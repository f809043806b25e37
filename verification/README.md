# github-requirements: requirements reading and package statistics in Dafny

The Python module `process.py` reads requirements-file snippets collected from
GitHub and builds two things:

- an index `{package key: {spec-string: count}}`;
- from that index, a per-package report with these parts:
  - spec kinds (unpinned, range, pinned, compatible, unknown);
  - the release each pinned spec resolves to;
  - major-release buckets;
  - a secure/insecure/unknown split.

This project models that logic as pure Dafny functions over immutable data and
proves what the counts mean.

Modules, in dependency order:

- `Wrappers` (wrappers.dfy): `Option`.
- `Text` (text.dfy): the string operations the module uses. They are
  `startswith`, `in`, `strip()` (with Python's `isspace` set), `replace(c, "")`,
  `split` and `join`. `startswith` and `in` are plain definitions. `strip()`
  is characterised by the whitespace runs it removes (`StripMeaning`).
  `replace(c, "")` is fixed by its effect on one character and on a
  concatenation (`RemoveAllChar`, `RemoveAllAppend`). `split` and `join`
  come with the round trip `Join(SplitOn(s, sep), sep) == s` (`JoinSplit`).
- `Streams` (streams.dfy): `io.StringIO` as a text and a read position. It
  models `readlines()` and the inner generator `iter_lines`.
- `Requirements` (requirements.dfy): `parse_line` and `read_requirements`. The
  requirement parser of `pkg_resources` is a parameter `string -> Option<seq<Requirement>>`.
  `None` stands for the `ValueError` the reader swallows.
- `Dicts` (dicts.dfy): Python dicts as insertion-ordered entry lists, and the
  `if k not in d: d[k] = 0; d[k] += n` idiom (`Add`). It also holds the
  generic "regroup counts by a key function" loop (`Regroup`) that
  `package_data` uses four times. Regrouped counts do not depend on the order
  of the entries.
- `Index` (index.dfy): `create_index` and `popular_packages`.
- `Report` (report.dfy): `package_data`.

Continuation lines: the loop at process.py:59-64 is written to append the
lines after a backslash-continued line to the parser input. It gets them from
`iter_lines`, which calls `readlines()` a second time on a `StringIO` the outer
loop has already read to its end, so it receives no lines. Each line is
therefore parsed on its own, with its backslashes removed. The model follows
the code: see `Requirements.ContinuationSeesNoLines` and
`Requirements.ReadRequirementsPerLine`.

## Model

| member | source | states |
|---|---|---|
| Text.StripMeaning | process.py:36 | `strip()` returns the text between a leading and a trailing run of whitespace, and that text neither starts nor ends with whitespace |
| Text.StripEmpty | process.py:36-39 | a stripped line is empty, and the line skipped as blank, exactly when it is all whitespace |
| Text.StripIdempotent | process.py:36 | stripping a stripped line changes nothing |
| Text.RemoveAll | process.py:57-58 | `replace("\\", "")` leaves no backslash and keeps every other character with its multiplicity |
| Text.RemoveAllChar | process.py:57-58 | on one character, `replace(c, "")` drops it if it is `c` and keeps it otherwise |
| Text.RemoveAllAppend | process.py:57-58 | `replace(c, "")` of a concatenation is the concatenation of the two results, so the kept characters keep their order |
| Text.FirstOccurrence | process.py:20 | the index found is an occurrence of the separator, and none is found exactly when the separator does not occur |
| Text.NoEarlierOccurrence | process.py:20 | the separator does not occur before the index `FirstOccurrence` finds |
| Text.SplitOnPieces | process.py:20 | no piece of `split(sep)` holds the separator |
| Text.SplitOnSingle | process.py:20 | `split(sep)` gives a single piece exactly when the separator does not occur, and that piece is the whole text |
| Text.JoinSplit | process.py:20 | joining the pieces of `split(sep)` with `sep` gives back the text |
| Text.LastPiece | process.py:20 | `split(sep)[-1]` holds no separator, is the whole text when there is no separator, and otherwise is what follows the last separator; this fixes the piece for separators that cannot overlap themselves, such as `#egg=` |
| Streams.SplitLinesShape | process.py:32 | every line `readlines()` returns is non-empty, holds a newline at most at its end, and ends with one unless it is the last |
| Streams.SplitLinesMeaning | process.py:32 | `readlines()` loses and adds nothing, and cuts exactly after each newline |
| Streams.ReadLinesExhausts | process.py:31-33 | after `readlines()` nothing remains, so a second `readlines()` returns no line |
| Requirements.Classify | process.py:36-53 | a stripped line is blank, a skipped directive, a file reference, or a candidate for parsing, in that order of precedence |
| Requirements.EggTrim | process.py:18-20 | an editable or URL line that contains `#egg=` is cut to the text after its last `#egg=`; any other line passes unchanged |
| Requirements.Single | process.py:65 | `req, = ...` yields a requirement exactly when the parser returned exactly one, and yields that one |
| Requirements.ParserInput | process.py:55-58 | the text handed to the parser holds no backslash; a line that is not an editable or URL line reaches the parser only stripped and without backslashes |
| Requirements.ContinuationSeesNoLines | process.py:59-64 | the continuation loop's `iter_lines(fh, num + 1)` receives no lines, whatever the line number |
| Requirements.ReadRequirementsPerLine | process.py:24-68 | `read_requirements` yields, in order, what each line yields on its own |
| Requirements.SkippedLinesYieldNothing | process.py:36-52 | blank lines, the eleven directive prefixes and `-r`/`--requirement` lines yield no requirement, whatever the parser says |
| Requirements.OtherLinesYieldTheSingleParse | process.py:53-68 | any other line yields a requirement exactly when the parser finds exactly one in its trimmed text |
| Dicts.Put | process.py:93-94 | assigning a key sets it and changes no other key, and distinct keys stay distinct |
| Dicts.Add | process.py:96-98 | the `not in` / `+=` idiom raises one count by `n`, leaves the others, and raises the total by `n` |
| Dicts.Regroup | process.py:186-190 | regrouping counts by a key function loses no count and keeps the initial keys |
| Dicts.RegroupKeys | process.py:186-189 | after regrouping, the keys are exactly the initial keys and the buckets some entry falls in, as for `major_releases` here and `releases` at lines 176-177 |
| Dicts.RegroupCounts | process.py:186-190 | each bucket receives exactly the counts whose keys the key function sends to it |
| Dicts.RegroupIgnoresOrder | process.py:183-191 | regrouping the same entries in any order fills every bucket alike |
| Index.SpecStringShape | process.py:95 | the spec-string is empty exactly for a requirement without specs, and otherwise starts with its first operator |
| Index.Record | process.py:92-98 | recording a requirement raises exactly the count of its key and spec-string by one; only its key can join the index, only its spec-string can join that key's dict, every other package's dict stays as it was, and both dict levels stay free of duplicate keys |
| Index.CreateIndexCounts | process.py:83-98 | `index[key][spec]` is the number of requirements in the corpus with that key and spec-string, and the counts add up to the number of requirements |
| Index.CreateIndexKeys | process.py:83-98 | the index holds a package exactly when some requirement of the corpus names it, and a spec-string under it exactly when some requirement of that package has it |
| Index.UnpinnedEntryCounts | process.py:95-98 | `index[key][""]` counts the requirements of that key without a version constraint |
| Index.PopularPackagesCounts | process.py:104-110 | a package's popularity is the sum of its spec counts, and the popularities add up to every count in the index |
| Report.KindOfSpecString | process.py:142-157 | an index spec-string's kind is decided by its first operator alone, and is never "unknown" |
| Report.KindOfExamples | process.py:142-157 | sample spec-strings of each kind, and one of none |
| Report.Candidates | process.py:168-171 | the candidates are exactly the releases the spec admits |
| Report.ReleaseOf | process.py:164-180 | a spec's count goes to "unknown" or to an admitted release; a `==` spec goes to "unknown" only when it admits no release (given no release is itself named "unknown") |
| Report.CandidatesSorted | process.py:168-173 | the candidates keep the order of the newest-first release list |
| Report.ResolvesToNewest | process.py:162-175 | a `==` spec resolves to a release at least as new as every release it admits |
| Report.MajorOfMeaning | process.py:187 | the major release is the release cut before its second dot, or the whole release when it has fewer than two dots |
| Report.MajorOfFixed | process.py:187 | a release with at most one dot is its own major release |
| Report.MajorOfIdempotent | process.py:186-190 | taking the major release twice changes nothing, and "unknown" stays "unknown" |
| Report.MajorOfSecondDot | process.py:187 | a release whose second dot is at `k` has the text before `k` as its major release |
| Report.MajorOfExamples | process.py:187 | "10" and "1.11" are their own major releases, and "1.2.3" has major release "1.2" |
| Report.SecurityIsRegroup | process.py:194-208 | since release keys are distinct, the one assignment to security "unknown" acts as an addition, so the loop regroups the release counts by status |
| Report.UnknownSafetySum | process.py:195-197 | security "unknown" collects exactly the count of the "unknown" release bucket |
| Report.SpecBuckets | process.py:121-157 | a spec kind holds the counts of the package's spec-strings of that kind |
| Report.ReleaseBuckets | process.py:160-180 | a release bucket holds the counts of the spec-strings that resolve to that release |
| Report.SecurityBuckets | process.py:193-208 | a status holds the counts of the release buckets with that status |
| Report.PackageDataBuckets | process.py:113-208 | each bucket of the report's four dicts holds exactly the counts that the source's loops send to it |
| Report.PackageData | process.py:113-208 | the report's count is the package's total, and the spec, release, major-release and security dicts each add up to it; security "unknown" equals releases "unknown" |
| Report.ReleaseOrderIrrelevant | process.py:183-208 | sorting the release dict before the major-release and security loops changes none of their counts |
| Report.CorpusReport | process.py:121-157 | on an index built from a corpus, the count is the package's number of requirements, each kind counts the requirements whose first operator gives it, and "unknown" stays 0 |
| Report.ReportCountIsPopularity | process.py:121 | the report's count is the package's popularity |

## Left out

- File and JSON I/O (`data.json`, `index.json`), `tqdm` and the JSON layout of records. A corpus is a sequence of records, each with its `C_content` text or without one. A `C_content` that is not a string is not modelled.
- `pkg_resources.parse_requirements` is a parameter. Its internals, and exceptions other than `ValueError`, are not modelled. A requirement is its `key` and its `(op, version)` specs in parser order.
- `requests.get` of the PyPI JSON and the sort at line 162 by `parse_version` are not modelled. The release list is a parameter assumed newest first. `Report.ResolvesToNewest` states the pick under that assumption for any ordering relation.
- Report.ReleaseOf: takes `candidates[0]` from the candidates in release-list order. The re-sort at line 173 is a stable sort of a list that `Report.CandidatesSorted` shows already in order, so it is left out.
- `SpecifierSet(spec).contains(release, prereleases=True)` is a parameter. `SpecifierSet` raising on a malformed spec-string is not modelled.
- `safety.check` and `safety.util.read_requirements` form the vulnerability lookup, which is a parameter `(name, release) -> bool`.
- The `OrderedDict` sorts at lines 183 and 191 order the report's output. The model iterates the release dict in insertion order and leaves output order out. `Report.ReleaseOrderIrrelevant` and `Dicts.RegroupIgnoresOrder` show the bucket counts are the same for any order, and `Dicts.TotalIgnoresOrder` shows the same for the totals.
- The text after the continuation loop (`line += "\n" + next_line`) only feeds a variable that is never read again, and the loop never receives a line. `Requirements.Continue` models the loop body that builds the parser input.
- `StringIO` newline translation: lines are cut after `'\n'` only, as a `StringIO` created with the default `newline` does.
- Python's `Counter` is modelled by the same entry list as a dict. `Counter.update` adds to a count, like `Dicts.Add`.
