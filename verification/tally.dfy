/** Per-path bookkeeping over sequences of per-commit maps: the
    `defaultdict(int)` reading of a map, the sum of one path's values across
    commits, and the facts that such sums ignore the order of the commits. */
module Tally {

  /** `defaultdict(int)` lookup: a path with no entry reads as 0. */
  function Get(m: map<string, int>, p: string): int {
    if p in m then m[p] else 0
  }

  /** The sum of path `p`'s values over all the maps, 0 where it is absent. */
  function SumOf(ds: seq<map<string, int>>, p: string): int
    decreases |ds|
  {
    if |ds| == 0 then 0 else SumOf(ds[..|ds| - 1], p) + Get(ds[|ds| - 1], p)
  }

  /** Some map has an entry for `p`. */
  predicate Mentioned(ds: seq<map<string, int>>, p: string) {
    exists i :: 0 <= i < |ds| && p in ds[i]
  }

  /** Two maps say the same about `p`: both lack it, or both hold it with
      the same value. */
  predicate AgreeAt(m: map<string, int>, m': map<string, int>, p: string) {
    (p in m <==> p in m') && (p in m ==> m[p] == m'[p])
  }

  lemma {:induction false} SumOfConcat(a: seq<map<string, int>>, b: seq<map<string, int>>, p: string)
    ensures SumOf(a + b, p) == SumOf(a, p) + SumOf(b, p)
    decreases |b|
  {
    if |b| == 0 {
      assert a + b == a;
    } else {
      var ab := a + b;
      assert ab[..|ab| - 1] == a + b[..|b| - 1];
      assert ab[|ab| - 1] == b[|b| - 1];
      SumOfConcat(a, b[..|b| - 1], p);
    }
  }

  lemma SumOfSingle(d: map<string, int>, p: string)
    ensures SumOf([d], p) == Get(d, p)
  {
    assert [d][..0] == [];
  }

  /** Taking one map out of the middle takes out its share of the sum. */
  lemma SumOfRemove(b: seq<map<string, int>>, i: nat, p: string)
    requires i < |b|
    ensures SumOf(b, p) == SumOf(b[..i] + b[i + 1..], p) + Get(b[i], p)
  {
    assert b == b[..i] + [b[i]] + b[i + 1..];
    SumOfConcat(b[..i] + [b[i]], b[i + 1..], p);
    SumOfConcat(b[..i], [b[i]], p);
    SumOfSingle(b[i], p);
    SumOfConcat(b[..i], b[i + 1..], p);
  }

  lemma MultisetRemove(b: seq<map<string, int>>, i: nat)
    requires i < |b|
    ensures multiset(b[..i] + b[i + 1..]) == multiset(b) - multiset{b[i]}
  {
    assert b == b[..i] + [b[i]] + b[i + 1..];
  }

  /** A path's sum depends only on which maps there are, not their order. */
  lemma {:induction false} SumOfPermutation(a: seq<map<string, int>>, b: seq<map<string, int>>, p: string)
    requires multiset(a) == multiset(b)
    ensures SumOf(a, p) == SumOf(b, p)
    decreases |a|
  {
    if |a| == 0 {
      assert |multiset(b)| == 0;
    } else {
      var n := |a| - 1;
      MultisetRemove(a, n);
      assert a[..n] + a[n + 1..] == a[..n];
      assert a[n] in multiset(b);
      var i :| 0 <= i < |b| && b[i] == a[n];
      MultisetRemove(b, i);
      SumOfPermutation(a[..n], b[..i] + b[i + 1..], p);
      SumOfRemove(b, i, p);
    }
  }

  /** Whether some map mentions `p` does not depend on their order. */
  lemma MentionedPermutation(a: seq<map<string, int>>, b: seq<map<string, int>>, p: string)
    requires multiset(a) == multiset(b)
    ensures Mentioned(a, p) <==> Mentioned(b, p)
  {
    if Mentioned(a, p) {
      var i :| 0 <= i < |a| && p in a[i];
      assert a[i] in multiset(b);
    }
    if Mentioned(b, p) {
      var j :| 0 <= j < |b| && p in b[j];
      assert b[j] in multiset(a);
    }
  }

  lemma {:induction false} SumOfUnmentioned(deltas: seq<map<string, int>>, p: string)
    requires !Mentioned(deltas, p)
    ensures SumOf(deltas, p) == 0
    decreases |deltas|
  {
    if |deltas| > 0 {
      var n := |deltas| - 1;
      assert forall i :: 0 <= i < n ==> deltas[..n][i] == deltas[i];
      SumOfUnmentioned(deltas[..n], p);
    }
  }

  lemma AgreeEverywhere(m: map<string, int>, m': map<string, int>)
    requires forall p :: AgreeAt(m, m', p)
    ensures m == m'
  {
    forall p
      ensures p in m <==> p in m'
    {
      assert AgreeAt(m, m', p);
    }
    assert m.Keys == m'.Keys;
    forall p | p in m
      ensures m[p] == m'[p]
    {
      assert AgreeAt(m, m', p);
    }
  }

  /** `items` lists every entry of `delta` exactly once, in some order. */
  predicate Enumerates(items: seq<(string, int)>, delta: map<string, int>) {
    && (forall i, j :: 0 <= i < j < |items| ==> items[i].0 != items[j].0)
    && (forall i :: 0 <= i < |items| ==> items[i].0 in delta && delta[items[i].0] == items[i].1)
    && (forall p :: p in delta ==> exists i :: 0 <= i < |items| && items[i].0 == p)
  }

  lemma EnumeratesRest(items: seq<(string, int)>, delta: map<string, int>)
    requires |items| > 0 && Enumerates(items, delta)
    ensures Enumerates(items[1..], delta - {items[0].0})
  {
    var rest, q := items[1..], items[0].0;
    forall p | p in delta - {q}
      ensures exists i :: 0 <= i < |rest| && rest[i].0 == p
    {
      var i :| 0 <= i < |items| && items[i].0 == p;
      assert rest[i - 1].0 == p;
    }
    forall i | 0 <= i < |rest|
      ensures rest[i].0 in delta - {q}
    {
      assert items[i + 1].0 != items[0].0;
    }
  }
}
