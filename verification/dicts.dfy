/** Python dicts as the processing uses them: insertion-ordered entries with
    distinct keys, and dicts of counts updated in the source's
    `if k not in d: d[k] = 0` / `d[k] += n` idiom. */
module Dicts {

  import opened Wrappers

  /** A dict: its `(key, value)` entries in insertion order. */
  type Dict<K, V> = seq<(K, V)>

  /** A dict of counts. */
  type Counter<K> = Dict<K, nat>

  /** `k in d` */
  predicate HasKey<K(==), V>(d: Dict<K, V>, k: K) {
    |d| > 0 && (d[0].0 == k || HasKey(d[1..], k))
  }

  /** No key appears twice, as in every real dict. */
  predicate DistinctKeys<K(==), V>(d: Dict<K, V>) {
    |d| == 0 || (!HasKey(d[1..], d[0].0) && DistinctKeys(d[1..]))
  }

  /** `d.get(k)`: the value of the entry with key `k`, the first one should
      there be several. */
  function Find<K(==), V>(d: Dict<K, V>, k: K): (r: Option<V>)
    ensures r.Some? <==> HasKey(d, k)
  {
    if |d| == 0 then None
    else if d[0].0 == k then Some(d[0].1)
    else Find(d[1..], k)
  }

  /** `d[k] = v`: the value of an existing key replaced in place, a new key
      added at the end. */
  function Put<K(==,!new), V>(d: Dict<K, V>, k: K, v: V): (r: Dict<K, V>)
    ensures Find(r, k) == Some(v)
    ensures forall k' :: k' != k ==> Find(r, k') == Find(d, k')
    ensures forall k' :: HasKey(r, k') <==> HasKey(d, k') || k' == k
    ensures DistinctKeys(d) ==> DistinctKeys(r)
  {
    if |d| == 0 then [(k, v)]
    else if d[0].0 == k then
      assert ([(k, v)] + d[1..])[1..] == d[1..];
      [(k, v)] + d[1..]
    else
      var r := [d[0]] + Put(d[1..], k, v);
      assert r[1..] == Put(d[1..], k, v);
      r
  }

  /** `d.get(k, 0)` on a dict of counts. */
  function Get<K(==)>(c: Counter<K>, k: K): nat {
    Find(c, k).GetOr(0)
  }

  /** `sum(n for _, n in c.items())` */
  function Total<K>(c: Counter<K>): nat {
    if |c| == 0 then 0 else c[0].1 + Total(c[1..])
  }

  /** Setting a count changes the total by the difference. */
  lemma {:induction false} TotalPut<K(!new)>(c: Counter<K>, k: K, n: nat)
    ensures Total(Put(c, k, n)) + Get(c, k) == Total(c) + n
  {
    if |c| > 0 && c[0].0 != k {
      TotalPut(c[1..], k, n);
      assert Put(c, k, n)[1..] == Put(c[1..], k, n);
    } else if |c| > 0 {
      assert Put(c, k, n)[1..] == c[1..];
    }
  }

  /** `if k not in c: c[k] = 0` then `c[k] += n`: the count of `k` grows by
      `n`, every other count stays, and so the total grows by `n`. */
  function Add<K(==,!new)>(c: Counter<K>, k: K, n: nat): (r: Counter<K>)
    ensures Get(r, k) == Get(c, k) + n
    ensures forall k' :: k' != k ==> Get(r, k') == Get(c, k')
    ensures forall k' :: HasKey(r, k') <==> HasKey(c, k') || k' == k
    ensures Total(r) == Total(c) + n
    ensures DistinctKeys(c) ==> DistinctKeys(r)
  {
    var total: nat := Get(c, k) + n;
    TotalPut(c, k, total);
    Put(c, k, total)
  }

  /** The total of the counts whose keys `f` sends to `k`. */
  function SumFor<K, G(==)>(c: Counter<K>, f: K -> G, k: G): nat {
    if |c| == 0 then 0
    else (if f(c[0].0) == k then c[0].1 else 0) + SumFor(c[1..], f, k)
  }

  /** Setting a count changes the sum of its bucket by the difference, and
      no other bucket's. */
  lemma {:induction false} SumForPut<K(!new), G>(c: Counter<K>, k: K, n: nat, f: K -> G, g: G)
    ensures SumFor(Put(c, k, n), f, g) + (if f(k) == g then Get(c, k) else 0)
         == SumFor(c, f, g) + (if f(k) == g then n else 0)
  {
    if |c| > 0 && c[0].0 != k {
      SumForPut(c[1..], k, n, f, g);
      assert Put(c, k, n)[1..] == Put(c[1..], k, n);
    } else if |c| > 0 {
      assert Put(c, k, n)[1..] == c[1..];
    }
  }

  /** Adding to a count adds to the sum of its bucket only. */
  lemma SumForAdd<K(!new), G>(c: Counter<K>, k: K, n: nat, f: K -> G, g: G)
    ensures SumFor(Add(c, k, n), f, g) == SumFor(c, f, g) + (if f(k) == g then n else 0)
  {
    SumForPut(c, k, Get(c, k) + n, f, g);
  }

  /** The loop `for key, n in c.items(): acc[f(key)] += n` (with the
      `not in` initialisation): every count of `c` moves to the bucket its
      key falls in, and none is lost or counted twice. */
  function Regroup<K, G(==,!new)>(acc: Counter<G>, c: Counter<K>, f: K -> G): (r: Counter<G>)
    ensures Total(r) == Total(acc) + Total(c)
    ensures forall k :: HasKey(acc, k) ==> HasKey(r, k)
    ensures DistinctKeys(acc) ==> DistinctKeys(r)
    decreases |c|
  {
    if |c| == 0 then acc
    else Regroup(Add(acc, f(c[0].0), c[0].1), c[1..], f)
  }

  /** Each bucket ends up with what it held plus exactly the counts whose
      keys fall in it. */
  lemma {:induction false} RegroupCounts<K, G(!new)>(acc: Counter<G>, c: Counter<K>, f: K -> G, k: G)
    ensures Get(Regroup(acc, c, f), k) == Get(acc, k) + SumFor(c, f, k)
    decreases |c|
  {
    if |c| > 0 {
      RegroupCounts(Add(acc, f(c[0].0), c[0].1), c[1..], f, k);
    }
  }

  /** The keys after regrouping are the initial keys and the buckets the
      entries fall in, and no others. */
  lemma {:induction false} RegroupKeys<K, G(!new)>(acc: Counter<G>, c: Counter<K>, f: K -> G, k: G)
    ensures HasKey(Regroup(acc, c, f), k) <==> HasKey(acc, k) || exists i :: 0 <= i < |c| && f(c[i].0) == k
    decreases |c|
  {
    if |c| > 0 {
      var rest := c[1..];
      RegroupKeys(Add(acc, f(c[0].0), c[0].1), rest, f, k);
      if exists i :: 0 <= i < |c| && f(c[i].0) == k {
        var i :| 0 <= i < |c| && f(c[i].0) == k;
        if i > 0 {
          assert rest[i - 1] == c[i];
        }
      }
      if exists i :: 0 <= i < |rest| && f(rest[i].0) == k {
        var i :| 0 <= i < |rest| && f(rest[i].0) == k;
        assert c[i + 1] == rest[i];
      }
    }
  }

  /** Summing the pieces of a split dict sums the dict. */
  lemma {:induction false} SumForAppend<K, G>(a: Counter<K>, b: Counter<K>, f: K -> G, k: G)
    ensures SumFor(a + b, f, k) == SumFor(a, f, k) + SumFor(b, f, k)
  {
    if |a| > 0 {
      SumForAppend(a[1..], b, f, k);
      assert (a + b)[1..] == a[1..] + b;
    } else {
      assert a + b == b;
    }
  }

  /** Summing the pieces of a split dict sums the dict. */
  lemma {:induction false} TotalAppend<K>(a: Counter<K>, b: Counter<K>)
    ensures Total(a + b) == Total(a) + Total(b)
  {
    if |a| > 0 {
      TotalAppend(a[1..], b);
      assert (a + b)[1..] == a[1..] + b;
    } else {
      assert a + b == b;
    }
  }

  /** A dict is the entries before the `j`-th, that entry, and the entries after. */
  lemma CutEntry<K>(c: Counter<K>, j: nat)
    requires j < |c|
    ensures c == c[..j] + ([c[j]] + c[j + 1..])
  {
  }

  /** Taking one entry out of a dict takes its count out of the bucket sums. */
  lemma RemoveEntrySum<K, G>(c: Counter<K>, j: nat, f: K -> G, k: G)
    requires j < |c|
    ensures SumFor(c, f, k) == SumFor([c[j]], f, k) + SumFor(c[..j] + c[j + 1..], f, k)
  {
    var pre, x, post := c[..j], [c[j]], c[j + 1..];
    CutEntry(c, j);
    SumForAppend(pre, x + post, f, k);
    SumForAppend(x, post, f, k);
    SumForAppend(pre, post, f, k);
  }

  /** Taking one entry out of a dict takes its count out of the total. */
  lemma RemoveEntryTotal<K>(c: Counter<K>, j: nat)
    requires j < |c|
    ensures Total(c) == c[j].1 + Total(c[..j] + c[j + 1..])
  {
    var pre, x, post := c[..j], [c[j]], c[j + 1..];
    CutEntry(c, j);
    TotalAppend(pre, x + post);
    TotalAppend(x, post);
    TotalAppend(pre, post);
  }

  /** The entries left after taking out the `j`-th. */
  lemma MultisetWithout<T>(s: seq<T>, j: nat)
    requires j < |s|
    ensures multiset(s[..j] + s[j + 1..]) == multiset(s) - multiset{s[j]}
  {
    assert s == s[..j] + [s[j]] + s[j + 1..];
  }

  /** Another order of the same entries, with a first entry of `a` matched. */
  lemma MatchFirst<T>(a: seq<T>, b: seq<T>) returns (j: nat)
    requires |a| > 0 && multiset(a) == multiset(b)
    ensures j < |b| && b[j] == a[0]
    ensures multiset(a[1..]) == multiset(b[..j] + b[j + 1..])
  {
    MultisetHead(a);
    assert a[0] in multiset(b);
    j :| 0 <= j < |b| && b[j] == a[0];
    MultisetWithout(b, j);
  }

  /** The entries after the first. */
  lemma MultisetHead<T>(s: seq<T>)
    requires |s| > 0
    ensures s[0] in multiset(s)
    ensures multiset(s[1..]) == multiset(s) - multiset{s[0]}
  {
    assert s == [s[0]] + s[1..];
  }

  /** The bucket sums do not depend on the order of the entries: a dict
      whose entries are reordered, as sorting it into an `OrderedDict`
      does, has the same count in every bucket. */
  lemma {:induction false} SumForIgnoresOrder<K, G>(a: Counter<K>, b: Counter<K>, f: K -> G, k: G)
    requires multiset(a) == multiset(b)
    ensures SumFor(a, f, k) == SumFor(b, f, k)
    decreases |a|
  {
    if |a| == 0 {
      assert |b| == |multiset(b)| == 0;
    } else {
      var j := MatchFirst(a, b);
      SumForIgnoresOrder(a[1..], b[..j] + b[j + 1..], f, k);
      RemoveEntrySum(b, j, f, k);
    }
  }

  /** The total does not depend on the order of the entries either. */
  lemma {:induction false} TotalIgnoresOrder<K>(a: Counter<K>, b: Counter<K>)
    requires multiset(a) == multiset(b)
    ensures Total(a) == Total(b)
    decreases |a|
  {
    if |a| == 0 {
      assert |b| == |multiset(b)| == 0;
    } else {
      var j := MatchFirst(a, b);
      TotalIgnoresOrder(a[1..], b[..j] + b[j + 1..]);
      RemoveEntryTotal(b, j);
    }
  }

  /** Regrouping the same entries in any order fills every bucket alike. */
  lemma RegroupIgnoresOrder<K, G(!new)>(acc: Counter<G>, a: Counter<K>, b: Counter<K>, f: K -> G, k: G)
    requires multiset(a) == multiset(b)
    ensures Get(Regroup(acc, a, f), k) == Get(Regroup(acc, b, f), k)
  {
    RegroupCounts(acc, a, f, k);
    RegroupCounts(acc, b, f, k);
    SumForIgnoresOrder(a, b, f, k);
  }
}
