/** Sequence vocabulary shared by the whole model: duplicate-freedom,
    order-preserving subsequences, and the `Array.prototype.filter` that
    every derived view of the catalog is built from. */
module Seqs {
  import opened Wrappers

  /** No value occurs twice (the shape of a JS `Set` kept in insertion order). */
  predicate NoDup<T(==)>(s: seq<T>) {
    forall i, j :: 0 <= i < j < |s| ==> s[i] != s[j]
  }

  lemma NoDupCons<T>(x: T, s: seq<T>)
    requires x !in s && NoDup(s)
    ensures NoDup([x] + s)
  {
    var r := [x] + s;
    forall i, j | 0 <= i < j < |r|
      ensures r[i] != r[j]
    {
      assert r[j] == s[j - 1];
      if i > 0 {
        assert r[i] == s[i - 1];
      }
    }
  }

  lemma NoDupSnoc<T>(s: seq<T>, x: T)
    requires x !in s && NoDup(s)
    ensures NoDup(s + [x])
  {
    var r := s + [x];
    forall i, j | 0 <= i < j < |r|
      ensures r[i] != r[j]
    {
      assert r[i] == s[i];
      if j < |s| {
        assert r[j] == s[j];
      }
    }
  }

  /** Position of the first occurrence of `x` in `s` (`indexOf`). */
  function FirstIndex<T(==)>(s: seq<T>, x: T): (i: nat)
    requires x in s
    ensures i < |s| && s[i] == x && x !in s[..i]
  {
    if s[0] == x then 0 else 1 + FirstIndex(s[1..], x)
  }

  /** `a` can be obtained from `b` by deleting elements, keeping the rest in order. */
  ghost predicate SubseqOf<T>(a: seq<T>, b: seq<T>)
    decreases |b|
  {
    if |a| == 0 then true
    else if |b| == 0 then false
    else (a[0] == b[0] && SubseqOf(a[1..], b[1..])) || SubseqOf(a, b[1..])
  }

  /** `Array.prototype.filter`: the elements of `s` satisfying `p`, in their
      original order. The lemmas below add multiplicity, order and
      duplicate-freedom. */
  function Filter<T(==,!new)>(p: T -> bool, s: seq<T>): (r: seq<T>)
    ensures |r| <= |s|
    ensures forall x :: x in r <==> x in s && p(x)
  {
    if |s| == 0 then []
    else
      assert s == [s[0]] + s[1..];
      if p(s[0]) then [s[0]] + Filter(p, s[1..]) else Filter(p, s[1..])
  }

  /** Every kept element is kept as often as it occurs; the others vanish. */
  lemma {:induction false} FilterCount<T(!new)>(p: T -> bool, s: seq<T>)
    ensures forall x :: multiset(Filter(p, s))[x] == if p(x) then multiset(s)[x] else 0
    decreases |s|
  {
    if |s| > 0 {
      FilterCount(p, s[1..]);
      assert s == [s[0]] + s[1..];
    }
  }

  /** The kept elements stay in their original order. */
  lemma {:induction false} FilterSubseq<T(!new)>(p: T -> bool, s: seq<T>)
    ensures SubseqOf(Filter(p, s), s)
    decreases |s|
  {
    if |s| > 0 {
      FilterSubseq(p, s[1..]);
      var r := Filter(p, s);
      if p(s[0]) {
        assert r[0] == s[0] && r[1..] == Filter(p, s[1..]);
      }
    }
  }

  /** Filtering a duplicate-free sequence keeps it duplicate-free. */
  lemma {:induction false} FilterNoDup<T(!new)>(p: T -> bool, s: seq<T>)
    requires NoDup(s)
    ensures NoDup(Filter(p, s))
    decreases |s|
  {
    if |s| > 0 {
      assert NoDup(s[1..]);
      FilterNoDup(p, s[1..]);
      if p(s[0]) {
        assert forall k :: 0 <= k < |s[1..]| ==> s[1..][k] == s[k + 1];
        NoDupCons(s[0], Filter(p, s[1..]));
      }
    }
  }

  /** When every element passes, nothing is removed. */
  lemma {:induction false} FilterKeepsAll<T(!new)>(p: T -> bool, s: seq<T>)
    requires forall x :: x in s ==> p(x)
    ensures Filter(p, s) == s
    decreases |s|
  {
    if |s| > 0 {
      assert s[0] in s;
      assert forall x :: x in s[1..] ==> x in s;
      FilterKeepsAll(p, s[1..]);
      assert s == [s[0]] + s[1..];
    }
  }

  /** One step of `Filter` on a sequence with a known head. */
  lemma FilterCons<T(!new)>(p: T -> bool, x: T, t: seq<T>)
    ensures Filter(p, [x] + t) == if p(x) then [x] + Filter(p, t) else Filter(p, t)
  {
    assert ([x] + t)[0] == x && ([x] + t)[1..] == t;
  }

  lemma {:induction false} FilterConcat<T(!new)>(p: T -> bool, a: seq<T>, b: seq<T>)
    ensures Filter(p, a + b) == Filter(p, a) + Filter(p, b)
    decreases |a|
  {
    if |a| == 0 {
      assert a + b == b;
    } else {
      assert (a + b)[1..] == a[1..] + b;
      FilterConcat(p, a[1..], b);
    }
  }

  /** Two predicates that agree on every element of `s` filter it identically. */
  lemma {:induction false} FilterCongruent<T(!new)>(p: T -> bool, q: T -> bool, s: seq<T>)
    requires forall x :: x in s ==> p(x) == q(x)
    ensures Filter(p, s) == Filter(q, s)
    decreases |s|
  {
    if |s| > 0 {
      FilterCongruent(p, q, s[1..]);
    }
  }

  /** Sum of the multisets of a sequence of sequences. */
  function MultisetUnion<T>(bs: seq<seq<T>>): (m: multiset<T>)
    ensures |bs| == 0 ==> m == multiset{}
  {
    if |bs| == 0 then multiset{} else multiset(bs[0]) + MultisetUnion(bs[1..])
  }

  /** Replacing every sequence by a rearrangement of it leaves the union
      unchanged. */
  lemma {:induction false} MultisetUnionPointwise<T>(a: seq<seq<T>>, b: seq<seq<T>>)
    requires |a| == |b|
    requires forall i :: 0 <= i < |a| ==> multiset(a[i]) == multiset(b[i])
    ensures MultisetUnion(a) == MultisetUnion(b)
    decreases |a|
  {
    if |a| > 0 {
      assert forall i :: 0 <= i < |a[1..]| ==> a[1..][i] == a[i + 1] && b[1..][i] == b[i + 1];
      MultisetUnionPointwise(a[1..], b[1..]);
    }
  }

  /** Keeps the elements whose key is `k`. */
  function HasKey<T, K(==)>(key: T -> K, k: K): T -> bool {
    x => key(x) == k
  }

  /** One bucket per key, in key order: bucket i holds the elements of `s`
      whose key is `keys[i]`, in their original order. */
  function Buckets<T(==,!new), K(==)>(key: T -> K, keys: seq<K>, s: seq<T>): (r: seq<seq<T>>)
    ensures |r| == |keys|
    ensures forall i :: 0 <= i < |keys| ==> forall x :: x in r[i] <==> x in s && key(x) == keys[i]
  {
    seq(|keys|, i requires 0 <= i < |keys| => Filter(HasKey(key, keys[i]), s))
  }

  /** Bucketing by a duplicate-free key list loses nothing and duplicates
      nothing: every element whose key is listed is counted exactly as often
      as it occurs in `s`, and no other element appears. */
  lemma {:induction false} BucketsPartition<T(!new), K>(key: T -> K, keys: seq<K>, s: seq<T>)
    requires NoDup(keys)
    ensures forall x :: MultisetUnion(Buckets(key, keys, s))[x] == if key(x) in keys then multiset(s)[x] else 0
    decreases |keys|
  {
    if |keys| > 0 {
      var bs := Buckets(key, keys, s);
      assert bs[1..] == Buckets(key, keys[1..], s);
      BucketsPartition(key, keys[1..], s);
      FilterCount(HasKey(key, keys[0]), s);
      forall x
        ensures MultisetUnion(bs)[x] == if key(x) in keys then multiset(s)[x] else 0
      {
        assert keys == [keys[0]] + keys[1..];
        assert keys[0] !in keys[1..];
        assert multiset(bs[0])[x] == if HasKey(key, keys[0])(x) then multiset(s)[x] else 0;
      }
    }
  }

  /** When every element's key is listed, the buckets are a permutation of the input. */
  lemma BucketsCover<T(!new), K>(key: T -> K, keys: seq<K>, s: seq<T>)
    requires NoDup(keys)
    requires forall x :: x in s ==> key(x) in keys
    ensures MultisetUnion(Buckets(key, keys, s)) == multiset(s)
  {
    BucketsPartition(key, keys, s);
    var m := MultisetUnion(Buckets(key, keys, s));
    forall x
      ensures m[x] == multiset(s)[x]
    {
      if x !in s {
        assert multiset(s)[x] == 0;
      }
    }
    assert m == multiset(s);
  }

  /** `s.map(f).filter(ok)` for a partial `f`: the defined results, in order. */
  function FilterMap<A, B>(f: A -> Option<B>, s: seq<A>): (r: seq<B>)
    ensures |r| <= |s|
  {
    if |s| == 0 then []
    else
      var rest := FilterMap(f, s[1..]);
      match f(s[0])
      case Some(y) => [y] + rest
      case None => rest
  }

  /** Some element of `s` is mapped by `f` to `y`. */
  ghost predicate Produces<A, B>(f: A -> Option<B>, s: seq<A>, y: B) {
    exists k :: 0 <= k < |s| && f(s[k]) == Some(y)
  }

  /** The results of `FilterMap` are exactly the defined images. */
  lemma {:induction false} FilterMapMembers<A, B>(f: A -> Option<B>, s: seq<A>)
    ensures forall y :: y in FilterMap(f, s) <==> Produces(f, s, y)
    decreases |s|
  {
    if |s| > 0 {
      FilterMapMembers(f, s[1..]);
      forall y
        ensures y in FilterMap(f, s) <==> Produces(f, s, y)
      {
        if Produces(f, s[1..], y) {
          var k :| 0 <= k < |s[1..]| && f(s[1..][k]) == Some(y);
          assert f(s[k + 1]) == Some(y);
        }
        if Produces(f, s, y) {
          var k :| 0 <= k < |s| && f(s[k]) == Some(y);
          if k > 0 {
            assert f(s[1..][k - 1]) == Some(y);
          }
        }
      }
    }
  }

  /** `FilterMap` works token by token: mapping a concatenation maps the
      parts and concatenates the results. */
  lemma {:induction false} FilterMapConcat<A, B>(f: A -> Option<B>, a: seq<A>, b: seq<A>)
    ensures FilterMap(f, a + b) == FilterMap(f, a) + FilterMap(f, b)
    decreases |a|
  {
    if |a| == 0 {
      assert a + b == b;
    } else {
      assert (a + b)[0] == a[0] && (a + b)[1..] == a[1..] + b;
      FilterMapConcat(f, a[1..], b);
    }
  }

  /** An element `f` does not map drops out, and the rest keep their order. */
  lemma FilterMapSkips<A, B>(f: A -> Option<B>, a: seq<A>, t: A, b: seq<A>)
    requires f(t).None?
    ensures FilterMap(f, a + [t] + b) == FilterMap(f, a) + FilterMap(f, b)
  {
    FilterMapConcat(f, a + [t], b);
    FilterMapConcat(f, a, [t]);
    assert FilterMap(f, [t]) == [];
  }

  /** Position of the first element of `s` that `f` maps to `y`; `|s|` when
      there is none. */
  function FirstProducer<A, B(==)>(f: A -> Option<B>, s: seq<A>, y: B): (k: nat)
    ensures k <= |s|
    ensures k < |s| ==> f(s[k]) == Some(y)
    ensures forall j :: 0 <= j < k ==> f(s[j]) != Some(y)
  {
    if |s| == 0 then 0
    else if f(s[0]) == Some(y) then 0
    else 1 + FirstProducer(f, s[1..], y)
  }

  /** `FilterMap` keeps the order of the elements it maps: of two results,
      the one whose first producer comes first is met first. */
  lemma {:induction false} FilterMapFirstOrder<A, B>(f: A -> Option<B>, s: seq<A>, x: B, y: B)
    requires x in FilterMap(f, s) && y in FilterMap(f, s)
    ensures FirstIndex(FilterMap(f, s), x) < FirstIndex(FilterMap(f, s), y)
        <==> FirstProducer(f, s, x) < FirstProducer(f, s, y)
    decreases |s|
  {
    var r := FilterMap(f, s);
    var rest := FilterMap(f, s[1..]);
    match f(s[0])
    case None =>
      assert r == rest;
      FilterMapFirstOrder(f, s[1..], x, y);
    case Some(z) =>
      assert r == [z] + rest && r[1..] == rest;
      if z != x && z != y {
        FilterMapFirstOrder(f, s[1..], x, y);
      }
  }

  /** When `f` is defined everywhere on `s`, nothing is dropped. */
  lemma {:induction false} FilterMapTotal<A, B>(f: A -> Option<B>, s: seq<A>, g: seq<B>)
    requires |g| == |s|
    requires forall k :: 0 <= k < |s| ==> f(s[k]) == Some(g[k])
    ensures FilterMap(f, s) == g
    decreases |s|
  {
    if |s| > 0 {
      FilterMapTotal(f, s[1..], g[1..]);
      assert g == [g[0]] + g[1..];
    }
  }
}
