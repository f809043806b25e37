/** The Python string operations the requirements processing relies on:
    `startswith`, `in`, `strip()`, `replace(c, "")`, `split(sep)` and
    `sep.join(parts)`, on strings as sequences of characters. */
module Text {

  import opened Wrappers

  /** `s.startswith(prefix)` */
  predicate StartsWith(s: string, prefix: string) {
    |prefix| <= |s| && s[..|prefix|] == prefix
  }

  /** `sep` occurs in `s` starting at index `i`. */
  predicate OccursAt(s: string, sep: string, i: nat) {
    i + |sep| <= |s| && s[i..i + |sep|] == sep
  }

  /** `sep in s` */
  predicate Contains(s: string, sep: string) {
    exists i :: 0 <= i <= |s| && OccursAt(s, sep, i)
  }

  /** A one-character needle occurs exactly when the character does. */
  lemma ContainsChar(s: string, c: char)
    ensures Contains(s, [c]) <==> c in s
  {
    if c in s {
      var i :| 0 <= i < |s| && s[i] == c;
      assert OccursAt(s, [c], i);
    }
    if Contains(s, [c]) {
      var i :| 0 <= i <= |s| && OccursAt(s, [c], i);
      assert s[i] == s[i..i + 1][0];
    }
  }

  /** The characters Python's `str.isspace()` accepts, which `strip()` removes. */
  predicate IsSpace(c: char) {
    || ('\t' <= c <= '\r')
    || ('\U{1C}' <= c <= '\U{1F}')
    || c == ' '
    || c == '\U{85}'
    || c == '\U{A0}'
    || c == '\U{1680}'
    || ('\U{2000}' <= c <= '\U{200A}')
    || c == '\U{2028}'
    || c == '\U{2029}'
    || c == '\U{202F}'
    || c == '\U{205F}'
    || c == '\U{3000}'
  }

  /** Every character of `s` is a space. */
  predicate AllSpace(s: string) {
    forall i :: 0 <= i < |s| ==> IsSpace(s[i])
  }

  /** `s.lstrip()` */
  function TrimStart(s: string): (r: string)
    ensures |r| <= |s|
  {
    if |s| > 0 && IsSpace(s[0]) then TrimStart(s[1..]) else s
  }

  /** `s.rstrip()` */
  function TrimEnd(s: string): (r: string)
    ensures |r| <= |s|
  {
    if |s| > 0 && IsSpace(s[|s| - 1]) then TrimEnd(s[..|s| - 1]) else s
  }

  /** `s.strip()` */
  function Strip(s: string): string {
    TrimEnd(TrimStart(s))
  }

  /** `lstrip()` removes exactly the leading run of spaces. */
  lemma {:induction false} TrimStartMeaning(s: string)
    ensures var r := TrimStart(s);
      && s == s[..|s| - |r|] + r
      && AllSpace(s[..|s| - |r|])
      && (r == [] || !IsSpace(r[0]))
  {
    if |s| > 0 && IsSpace(s[0]) {
      TrimStartMeaning(s[1..]);
      var r := TrimStart(s);
      LeadStep(s, r, |s| - 1 - |r|);
    }
  }

  /** One more leading space in front of a run of spaces and a text. */
  lemma LeadStep(s: string, r: string, m: nat)
    requires |s| > 0 && IsSpace(s[0])
    requires m <= |s| - 1 && s[1..] == s[1..][..m] + r && AllSpace(s[1..][..m])
    ensures s == s[..m + 1] + r && AllSpace(s[..m + 1])
  {
    assert s[..m + 1] == [s[0]] + s[1..][..m];
  }

  /** One more trailing space behind a text and a run of spaces. */
  lemma TrailStep(s: string, r: string)
    requires |s| > 0 && IsSpace(s[|s| - 1])
    requires var p := s[..|s| - 1];
      |r| <= |p| && p == r + p[|r|..] && AllSpace(p[|r|..])
    ensures s == r + s[|r|..] && AllSpace(s[|r|..])
  {
    var p := s[..|s| - 1];
    assert s[|r|..] == p[|r|..] + [s[|s| - 1]];
  }

  /** `rstrip()` removes exactly the trailing run of spaces. */
  lemma {:induction false} TrimEndMeaning(s: string)
    ensures var r := TrimEnd(s);
      && s == r + s[|r|..]
      && AllSpace(s[|r|..])
      && (r == [] || !IsSpace(r[|r| - 1]))
  {
    if |s| > 0 && IsSpace(s[|s| - 1]) {
      TrimEndMeaning(s[..|s| - 1]);
      TrailStep(s, TrimEnd(s));
    }
  }

  /** What `strip()` returns: `s` is that text between two runs of spaces,
      and the text neither starts nor ends with a space. */
  lemma StripMeaning(s: string)
    ensures var r := Strip(s);
      && (r == [] || (!IsSpace(r[0]) && !IsSpace(r[|r| - 1])))
      && exists lead, trail :: AllSpace(lead) && AllSpace(trail) && s == lead + r + trail
  {
    var t := TrimStart(s);
    var r := TrimEnd(t);
    TrimStartMeaning(s);
    TrimEndMeaning(t);
    var lead, trail := s[..|s| - |t|], t[|r|..];
    assert s == lead + r + trail;
    if r != [] {
      assert r[0] == t[0];
    }
  }

  /** `strip()` gives the empty string exactly when `s` is all spaces. */
  lemma StripEmpty(s: string)
    ensures Strip(s) == [] <==> AllSpace(s)
  {
    var r := Strip(s);
    StripMeaning(s);
    var lead, trail :| AllSpace(lead) && AllSpace(trail) && s == lead + r + trail;
    if r == [] {
      assert s == lead + trail;
    } else {
      assert s[|lead|] == r[0];
    }
  }

  /** Stripping twice changes nothing more. */
  lemma StripIdempotent(s: string)
    ensures Strip(Strip(s)) == Strip(s)
  {
    var r := Strip(s);
    StripMeaning(s);
    if r != [] {
      assert TrimStart(r) == r;
      assert TrimEnd(r) == r;
    }
  }

  /** `s.replace(c, "")` for a one-character `c`: every `c` removed, every
      other character kept. */
  function RemoveAll(s: string, c: char): (r: string)
    ensures c !in r
    ensures multiset(r) == multiset(s)[c := 0]
    ensures c !in s ==> r == s
  {
    if |s| == 0 then ""
    else
      assert s == [s[0]] + s[1..];
      (if s[0] == c then "" else [s[0]]) + RemoveAll(s[1..], c)
  }

  /** On one character, `replace(c, "")` drops it if it is `c` and keeps it
      otherwise. */
  lemma RemoveAllChar(x: char, c: char)
    ensures RemoveAll([x], c) == if x == c then "" else [x]
  {
    assert [x][1..] == "";
  }

  /** `replace(c, "")` on a non-empty text: its first character, dropped or
      kept, then the rest. */
  lemma RemoveAllCons(s: string, c: char)
    requires |s| > 0
    ensures RemoveAll(s, c) == (if s[0] == c then "" else [s[0]]) + RemoveAll(s[1..], c)
  {
  }

  /** The same, for a text that is `a + b` with `a` not empty. */
  lemma RemoveAllConsAppend(a: string, b: string, c: char)
    requires |a| > 0
    ensures RemoveAll(a + b, c) == (if a[0] == c then "" else [a[0]]) + RemoveAll(a[1..] + b, c)
  {
    assert (a + b)[0] == a[0] && (a + b)[1..] == a[1..] + b;
    RemoveAllCons(a + b, c);
  }

  /** `replace(c, "")` works piece by piece: together with `RemoveAllChar`
      this fixes the result, so the kept characters stay in their order. */
  lemma {:induction false} RemoveAllAppend(a: string, b: string, c: char)
    ensures RemoveAll(a + b, c) == RemoveAll(a, c) + RemoveAll(b, c)
    decreases |a|
  {
    if |a| == 0 {
      assert a + b == b;
    } else {
      RemoveAllConsAppend(a, b, c);
      RemoveAllAppend(a[1..], b, c);
      RemoveAllCons(a, c);
      ConcatAssoc(if a[0] == c then "" else [a[0]], RemoveAll(a[1..], c), RemoveAll(b, c));
    }
  }

  lemma ConcatAssoc(x: string, y: string, z: string)
    ensures x + (y + z) == (x + y) + z
  {
  }

  /** The first index at or after `i` at which `sep` occurs in `s`, if any. */
  function FindFrom(s: string, sep: string, i: nat): (r: Option<nat>)
    requires |sep| > 0
    ensures r.Some? ==> i <= r.value && OccursAt(s, sep, r.value)
    ensures r.None? ==> forall j: nat :: i <= j ==> !OccursAt(s, sep, j)
    decreases |s| - i
  {
    if |s| < i + |sep| then None
    else if OccursAt(s, sep, i) then Some(i)
    else FindFrom(s, sep, i + 1)
  }

  /** The first index at which `sep` occurs in `s`, if any. */
  function FirstOccurrence(s: string, sep: string): (r: Option<nat>)
    requires |sep| > 0
    ensures r.Some? ==> OccursAt(s, sep, r.value)
    ensures r.None? <==> !Contains(s, sep)
  {
    FindFrom(s, sep, 0)
  }

  /** A search from `i` skips no occurrence. */
  lemma {:induction false} NoEarlierFrom(s: string, sep: string, i: nat, j: nat)
    requires |sep| > 0 && FindFrom(s, sep, i).Some? && i <= j < FindFrom(s, sep, i).value
    ensures !OccursAt(s, sep, j)
    decreases |s| - i
  {
    if j > i {
      NoEarlierFrom(s, sep, i + 1, j);
    }
  }

  /** The occurrence found is the first: there is none before it. */
  lemma NoEarlierOccurrence(s: string, sep: string, j: nat)
    requires |sep| > 0 && FirstOccurrence(s, sep).Some? && j < FirstOccurrence(s, sep).value
    ensures !OccursAt(s, sep, j)
  {
    NoEarlierFrom(s, sep, 0, j);
  }

  /** `s.split(sep)`: the pieces between the occurrences of `sep`, found from
      left to right. */
  function SplitOn(s: string, sep: string): (parts: seq<string>)
    requires |sep| > 0
    ensures |parts| >= 1
    decreases |s|
  {
    match FirstOccurrence(s, sep)
    case None => [s]
    case Some(i) => [s[..i]] + SplitOn(s[i + |sep|..], sep)
  }

  /** Splitting at the first occurrence: the text before it, then the
      pieces of the text after it. */
  lemma SplitOnCons(s: string, sep: string, i: nat)
    requires |sep| > 0 && FirstOccurrence(s, sep) == Some(i)
    ensures SplitOn(s, sep) == [s[..i]] + SplitOn(s[i + |sep|..], sep)
  {
  }

  /** A text without the separator splits into itself alone, and a text
      with it into several pieces. */
  lemma SplitOnSingle(s: string, sep: string)
    requires |sep| > 0
    ensures |SplitOn(s, sep)| == 1 <==> !Contains(s, sep)
    ensures !Contains(s, sep) ==> SplitOn(s, sep) == [s]
  {
    match FirstOccurrence(s, sep)
    case None =>
    case Some(i) =>
      SplitOnCons(s, sep, i);
  }

  /** The text before the first occurrence holds no occurrence. */
  lemma BeforeFirst(s: string, sep: string, i: nat)
    requires |sep| > 0 && FirstOccurrence(s, sep) == Some(i)
    ensures !Contains(s[..i], sep)
  {
    forall j: nat | j + |sep| <= i
      ensures !OccursAt(s[..i], sep, j)
    {
      NoEarlierOccurrence(s, sep, j);
      assert s[..i][j..j + |sep|] == s[j..j + |sep|];
    }
  }

  /** No piece of `s.split(sep)` holds `sep`. */
  lemma {:induction false} SplitOnPieces(s: string, sep: string, k: nat)
    requires |sep| > 0 && k < |SplitOn(s, sep)|
    ensures !Contains(SplitOn(s, sep)[k], sep)
    decreases |s|
  {
    match FirstOccurrence(s, sep)
    case None =>
      assert SplitOn(s, sep) == [s];
    case Some(i) =>
      var tail := SplitOn(s[i + |sep|..], sep);
      SplitOnCons(s, sep, i);
      if k == 0 {
        BeforeFirst(s, sep, i);
      } else {
        SplitOnPieces(s[i + |sep|..], sep, k - 1);
      }
  }

  /** `sep.join(parts)` */
  function Join(parts: seq<string>, sep: string): string {
    if |parts| == 0 then ""
    else if |parts| == 1 then parts[0]
    else parts[0] + sep + Join(parts[1..], sep)
  }

  /** An occurrence of `sep` cuts `s` into the text before, `sep` and the text after. */
  lemma CutAt(s: string, sep: string, i: nat)
    requires OccursAt(s, sep, i)
    ensures s == s[..i] + sep + s[i + |sep|..]
  {
  }

  /** Joining a non-empty tail behind one more piece puts a separator between. */
  lemma JoinCons(head: string, tail: seq<string>, sep: string)
    requires |tail| > 0
    ensures Join([head] + tail, sep) == head + sep + Join(tail, sep)
  {
    assert ([head] + tail)[1..] == tail;
  }

  /** A joined text starts with its first piece. */
  lemma {:induction false} JoinStartsWith(parts: seq<string>, sep: string)
    requires |parts| > 0
    ensures StartsWith(Join(parts, sep), parts[0])
  {
    if |parts| > 1 {
      var rest := sep + Join(parts[1..], sep);
      assert Join(parts, sep) == parts[0] + rest;
      assert (parts[0] + rest)[..|parts[0]|] == parts[0];
    }
  }

  /** Splitting and joining with the same separator gives back the text. */
  lemma {:induction false} JoinSplit(s: string, sep: string)
    requires |sep| > 0
    ensures Join(SplitOn(s, sep), sep) == s
    decreases |s|
  {
    match FirstOccurrence(s, sep)
    case None =>
    case Some(i) =>
      var rest := s[i + |sep|..];
      SplitOnCons(s, sep, i);
      JoinSplit(rest, sep);
      JoinCons(s[..i], SplitOn(rest, sep), sep);
      CutAt(s, sep, i);
  }

  /** `parts[-1]` */
  function Last(parts: seq<string>): string
    requires |parts| > 0
  {
    parts[|parts| - 1]
  }

  /** A joined text is the join of all pieces but the last, the separator,
      and the last piece. */
  lemma {:induction false} JoinLast(parts: seq<string>, sep: string)
    requires |parts| >= 2
    ensures Join(parts, sep) == Join(parts[..|parts| - 1], sep) + sep + Last(parts)
  {
    var init := parts[..|parts| - 1];
    if |parts| == 2 {
      assert init == [parts[0]];
    } else {
      JoinLast(parts[1..], sep);
      assert parts[1..][..|parts| - 2] == init[1..];
      assert init == [parts[0]] + init[1..];
      JoinCons(parts[0], init[1..], sep);
    }
  }

  /** What follows a separator at the end of a text is its suffix. */
  lemma CutTail(s: string, front: string, sep: string, r: string)
    requires s == front + sep + r
    ensures |sep| + |r| <= |s| && s == s[..|s| - |sep| - |r|] + sep + r
  {
    assert s[..|s| - |sep| - |r|] == front;
  }

  /** `s.split(sep)[-1]` holds no `sep`. */
  lemma LastPieceClean(s: string, sep: string)
    requires |sep| > 0
    ensures !Contains(Last(SplitOn(s, sep)), sep)
  {
    SplitOnPieces(s, sep, |SplitOn(s, sep)| - 1);
  }

  /** When `s` holds `sep`, `s.split(sep)[-1]` is what follows its last
      occurrence. */
  lemma LastPieceTail(s: string, sep: string)
    requires |sep| > 0 && Contains(s, sep)
    ensures var r := Last(SplitOn(s, sep));
      |sep| + |r| <= |s| && s == s[..|s| - |sep| - |r|] + sep + r
  {
    var parts := SplitOn(s, sep);
    JoinSplit(s, sep);
    SplitOnSingle(s, sep);
    JoinLast(parts, sep);
    CutTail(s, Join(parts[..|parts| - 1], sep), sep, Last(parts));
  }

  /** `s.split(sep)[-1]` is the text after the last occurrence of `sep`: it
      holds no `sep`; it is all of `s` when `s` holds none, and otherwise `s`
      is some text, then `sep`, then it. These clauses fix the piece only for
      a separator that cannot overlap itself, such as "#egg=" and "."; for
      one like "aa" they also admit a shorter piece. */
  lemma LastPiece(s: string, sep: string)
    requires |sep| > 0
    ensures !Contains(Last(SplitOn(s, sep)), sep)
    ensures !Contains(s, sep) ==> Last(SplitOn(s, sep)) == s
    ensures Contains(s, sep) ==>
      var r := Last(SplitOn(s, sep));
      |sep| + |r| <= |s| && s == s[..|s| - |sep| - |r|] + sep + r
  {
    LastPieceClean(s, sep);
    SplitOnSingle(s, sep);
    if Contains(s, sep) {
      LastPieceTail(s, sep);
    }
  }
}
