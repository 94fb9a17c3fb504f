/** A stable insertion sort by an integer key, the behaviour of
    `Array.prototype.sort` with a comparator that compares keys (the
    ECMAScript sort is required to be stable). */
module Sorting {
  import opened Seqs

  predicate SortedBy<T>(key: T -> int, s: seq<T>) {
    forall i, j :: 0 <= i < j < |s| ==> key(s[i]) <= key(s[j])
  }

  /** Puts `c` in front of the first element of `s` whose key is not smaller
      than its own, so it follows every element with a smaller or equal key
      that it does not precede. */
  function InsertBy<T>(key: T -> int, c: T, s: seq<T>): (r: seq<T>)
    requires SortedBy(key, s)
    ensures SortedBy(key, r)
    ensures multiset(r) == multiset(s) + multiset{c}
    ensures |r| == |s| + 1
  {
    if |s| == 0 then [c]
    else if key(c) <= key(s[0]) then
      ConsSorted(key, c, s);
      [c] + s
    else
      var rest := InsertBy(key, c, s[1..]);
      assert s == [s[0]] + s[1..];
      InsertedAbove(key, c, s, rest);
      ConsSorted(key, s[0], rest);
      [s[0]] + rest
  }

  /** Prepending an element no larger than the first keeps a sequence sorted. */
  lemma ConsSorted<T>(key: T -> int, x: T, s: seq<T>)
    requires SortedBy(key, s)
    requires |s| == 0 || key(x) <= key(s[0])
    ensures SortedBy(key, [x] + s)
  {
    var r := [x] + s;
    forall i, j | 0 <= i < j < |r| ensures key(r[i]) <= key(r[j]) {
      if i == 0 {
        assert key(s[0]) <= key(s[j - 1]) || j == 1;
      }
    }
  }

  lemma InsertedAbove<T>(key: T -> int, c: T, s: seq<T>, rest: seq<T>)
    requires |s| > 0 && SortedBy(key, s) && key(s[0]) < key(c)
    requires multiset(rest) == multiset(s[1..]) + multiset{c} && |rest| > 0
    ensures key(s[0]) <= key(rest[0])
  {
    assert rest[0] in multiset(rest);
    if rest[0] != c {
      assert rest[0] in s[1..];
      var k :| 0 <= k < |s[1..]| && s[1..][k] == rest[0];
      assert s[k + 1] == rest[0];
    }
  }

  /** Sorts by `key`, inserting the elements back to front. */
  function SortBy<T>(key: T -> int, s: seq<T>): (r: seq<T>)
    ensures SortedBy(key, r)
    ensures multiset(r) == multiset(s)
    ensures |r| == |s|
  {
    if |s| == 0 then []
    else
      assert s == [s[0]] + s[1..];
      InsertBy(key, s[0], SortBy(key, s[1..]))
  }

  lemma {:induction false} InsertStable<T(!new)>(key: T -> int, c: T, s: seq<T>, k: int)
    requires SortedBy(key, s)
    ensures Filter(HasKey(key, k), InsertBy(key, c, s))
         == if key(c) == k then [c] + Filter(HasKey(key, k), s) else Filter(HasKey(key, k), s)
    decreases |s|
  {
    var p := HasKey(key, k);
    if |s| == 0 {
      FilterCons(p, c, []);
    } else if key(c) <= key(s[0]) {
      FilterCons(p, c, s);
    } else {
      InsertStable(key, c, s[1..], k);
      assert s == [s[0]] + s[1..];
      FilterCons(p, s[0], s[1..]);
      FilterCons(p, s[0], InsertBy(key, c, s[1..]));
    }
  }

  /** Stability: restricted to the elements of any one key, sorting changes
      nothing, so equal keys keep their input order. */
  lemma {:induction false} SortStable<T(!new)>(key: T -> int, s: seq<T>, k: int)
    ensures Filter(HasKey(key, k), SortBy(key, s)) == Filter(HasKey(key, k), s)
    decreases |s|
  {
    if |s| > 0 {
      SortStable(key, s[1..], k);
      InsertStable(key, s[0], SortBy(key, s[1..]), k);
    }
  }

  /** A sorted sequence is its own sort. */
  lemma {:induction false} SortSorted<T>(key: T -> int, s: seq<T>)
    requires SortedBy(key, s)
    ensures SortBy(key, s) == s
    decreases |s|
  {
    if |s| > 0 {
      SortSorted(key, s[1..]);
    }
  }
}
