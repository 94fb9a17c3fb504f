/** Grouping by key in a fixed key order, skipping keys that have no
    elements: the shape of "iterate over the known keys and render those
    whose bucket is non-empty". */
module Grouping {
  import opened Seqs

  /** The elements of one key. */
  datatype Group<K, T> = Group(key: K, members: seq<T>)

  function KeysOf<K, T>(gs: seq<Group<K, T>>): (r: seq<K>)
    ensures |r| == |gs|
    ensures forall i :: 0 <= i < |gs| ==> r[i] == gs[i].key
  {
    seq(|gs|, i requires 0 <= i < |gs| => gs[i].key)
  }

  function MembersOf<K, T>(gs: seq<Group<K, T>>): (r: seq<seq<T>>)
    ensures |r| == |gs|
    ensures forall i :: 0 <= i < |gs| ==> r[i] == gs[i].members
  {
    seq(|gs|, i requires 0 <= i < |gs| => gs[i].members)
  }

  /** `keys` is listed in strictly increasing `rank`. */
  predicate Ascending<K>(rank: K -> int, keys: seq<K>) {
    forall i, j :: 0 <= i < j < |keys| ==> rank(keys[i]) < rank(keys[j])
  }

  /** The elements whose key is `k`, in input order. */
  function Bucket<T(==,!new), K(==)>(key: T -> K, k: K, s: seq<T>): (r: seq<T>)
    ensures forall x :: x in r <==> x in s && key(x) == k
  {
    Filter(HasKey(key, k), s)
  }

  lemma BucketCount<T(!new), K>(key: T -> K, k: K, s: seq<T>, x: T)
    ensures multiset(Bucket(key, k, s))[x] == if key(x) == k then multiset(s)[x] else 0
  {
    FilterCount(HasKey(key, k), s);
    assert HasKey(key, k)(x) == (key(x) == k);
  }

  /** One group per key of `keys` that some element has, in `keys` order,
      holding that key's elements in their input order. */
  function GroupFrom<T(==,!new), K(==)>(key: T -> K, keys: seq<K>, s: seq<T>): (r: seq<Group<K, T>>)
    ensures |r| <= |keys|
  {
    if |keys| == 0 then []
    else
      var here := Bucket(key, keys[0], s);
      var rest := GroupFrom(key, keys[1..], s);
      if |here| > 0 then [Group(keys[0], here)] + rest else rest
  }

  /** Every group is non-empty, carries a listed key, and holds exactly the
      elements with that key, in input order. */
  lemma {:induction false} GroupFromMembers<T(!new), K>(key: T -> K, keys: seq<K>, s: seq<T>)
    ensures forall i :: 0 <= i < |GroupFrom(key, keys, s)| ==>
      && GroupFrom(key, keys, s)[i].key in keys
      && |GroupFrom(key, keys, s)[i].members| > 0
      && GroupFrom(key, keys, s)[i].members == Bucket(key, GroupFrom(key, keys, s)[i].key, s)
    decreases |keys|
  {
    if |keys| > 0 {
      GroupFromMembers(key, keys[1..], s);
      var r := GroupFrom(key, keys, s);
      var rest := GroupFrom(key, keys[1..], s);
      forall i | 0 <= i < |rest| ensures rest[i].key in keys {
        assert keys == [keys[0]] + keys[1..];
      }
    }
  }

  /** Unfolds one step of the keys of the groups. */
  lemma KeysStep<T(!new), K>(key: T -> K, keys: seq<K>, s: seq<T>)
    requires |keys| > 0
    ensures KeysOf(GroupFrom(key, keys, s))
         == (if |Bucket(key, keys[0], s)| > 0 then [keys[0]] else []) + KeysOf(GroupFrom(key, keys[1..], s))
  {
    var r := GroupFrom(key, keys, s);
    var rest := GroupFrom(key, keys[1..], s);
    var here := Bucket(key, keys[0], s);
    if |here| > 0 {
      assert r == [Group(keys[0], here)] + rest;
      var ks, kr := KeysOf(r), KeysOf(rest);
      assert |ks| == 1 + |kr|;
      forall i | 0 <= i < |ks| ensures ks[i] == ([keys[0]] + kr)[i] {
        if i > 0 {
          assert r[i] == rest[i - 1];
        }
      }
      assert ks == [keys[0]] + kr;
    } else {
      assert r == rest;
      assert [] + KeysOf(rest) == KeysOf(rest);
    }
  }

  /** Only listed keys get groups. */
  lemma {:induction false} KeysListed<T(!new), K>(key: T -> K, keys: seq<K>, s: seq<T>)
    ensures forall k :: k in KeysOf(GroupFrom(key, keys, s)) ==> k in keys
    decreases |keys|
  {
    if |keys| > 0 {
      KeysListed(key, keys[1..], s);
      KeysStep(key, keys, s);
      assert keys == [keys[0]] + keys[1..];
    }
  }

  /** Every listed key that some element has gets a group. */
  lemma {:induction false} GroupFromCovers<T(!new), K>(key: T -> K, keys: seq<K>, s: seq<T>, x: T)
    requires x in s && key(x) in keys
    ensures key(x) in KeysOf(GroupFrom(key, keys, s))
    decreases |keys|
  {
    KeysStep(key, keys, s);
    if key(x) == keys[0] {
      assert x in Bucket(key, keys[0], s);
    } else {
      assert keys == [keys[0]] + keys[1..];
      GroupFromCovers(key, keys[1..], s, x);
    }
  }

  /** No elements, no groups. */
  lemma {:induction false} GroupFromNothing<T(!new), K>(key: T -> K, keys: seq<K>, s: seq<T>)
    requires |s| == 0
    ensures GroupFrom(key, keys, s) == []
    decreases |keys|
  {
    if |keys| > 0 {
      GroupFromNothing(key, keys[1..], s);
    }
  }

  /** The groups come in key order: ascending keys give ascending groups. */
  lemma {:induction false} GroupFromAscending<T(!new), K>(key: T -> K, rank: K -> int, keys: seq<K>, s: seq<T>)
    requires Ascending(rank, keys)
    ensures Ascending(rank, KeysOf(GroupFrom(key, keys, s)))
    decreases |keys|
  {
    if |keys| > 0 {
      var later := KeysOf(GroupFrom(key, keys[1..], s));
      GroupFromAscending(key, rank, keys[1..], s);
      KeysListed(key, keys[1..], s);
      KeysStep(key, keys, s);
      if |Bucket(key, keys[0], s)| > 0 {
        RankBelowRest(rank, keys, later);
      }
    }
  }

  lemma RankBelowRest<K>(rank: K -> int, keys: seq<K>, later: seq<K>)
    requires |keys| > 0 && Ascending(rank, keys)
    requires Ascending(rank, later)
    requires forall k :: k in later ==> k in keys[1..]
    ensures Ascending(rank, [keys[0]] + later)
  {
    var r := [keys[0]] + later;
    forall i, j | 0 <= i < j < |r| ensures rank(r[i]) < rank(r[j]) {
      if i == 0 {
        assert r[j] == later[j - 1] && later[j - 1] in later;
        var k :| 0 <= k < |keys[1..]| && keys[1..][k] == r[j];
        assert keys[k + 1] == r[j];
      } else {
        assert r[i] == later[i - 1] && r[j] == later[j - 1];
      }
    }
  }

  /** Strictly increasing ranks never repeat a key. */
  lemma AscendingNoDup<K>(rank: K -> int, keys: seq<K>)
    requires Ascending(rank, keys)
    ensures NoDup(keys)
  {
  }

  lemma NoDupTail<K>(keys: seq<K>)
    requires |keys| > 0 && NoDup(keys)
    ensures NoDup(keys[1..]) && keys[0] !in keys[1..]
    ensures forall k :: k in keys <==> k == keys[0] || k in keys[1..]
  {
    assert keys == [keys[0]] + keys[1..];
  }

  /** Unfolds one step of the union of the groups' members. */
  lemma GroupFromUnion<T(!new), K>(key: T -> K, keys: seq<K>, s: seq<T>)
    requires |keys| > 0
    ensures MultisetUnion(MembersOf(GroupFrom(key, keys, s)))
         == multiset(Bucket(key, keys[0], s)) + MultisetUnion(MembersOf(GroupFrom(key, keys[1..], s)))
  {
    var r := GroupFrom(key, keys, s);
    var rest := GroupFrom(key, keys[1..], s);
    var here := Bucket(key, keys[0], s);
    if |here| > 0 {
      assert r == [Group(keys[0], here)] + rest;
      var ms, mr := MembersOf(r), MembersOf(rest);
      forall i | 0 <= i < |mr| ensures ms[1..][i] == mr[i] {
        assert r[i + 1] == rest[i];
      }
      assert ms[0] == here && ms[1..] == mr;
    } else {
      assert r == rest;
      assert multiset(here) == multiset{};
    }
  }

  /** The groups lose and duplicate nothing: every element whose key is
      listed is counted as often as it occurs, and no other element appears. */
  lemma {:induction false} GroupFromPartition<T(!new), K>(key: T -> K, keys: seq<K>, s: seq<T>, x: T)
    requires NoDup(keys)
    ensures MultisetUnion(MembersOf(GroupFrom(key, keys, s)))[x] == if key(x) in keys then multiset(s)[x] else 0
    decreases |keys|
  {
    if |keys| > 0 {
      NoDupTail(keys);
      GroupFromPartition(key, keys[1..], s, x);
      GroupFromUnion(key, keys, s);
      BucketCount(key, keys[0], s, x);
    }
  }
}
