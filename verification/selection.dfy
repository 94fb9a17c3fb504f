/** The selection: the ids of the courses a visitor picked (App.tsx). The
    source keeps them in a JS `Set`, whose iteration order is insertion
    order, and the share link is written in that order; so the selection is
    a duplicate-free sequence where adding appends and deleting removes in
    place. */
module Selection {
  import opened Seqs
  import opened Wrappers
  import opened Types

  /** `Set.prototype.add`: appends `id` unless it is already present. */
  function Add(sel: seq<int>, id: int): (r: seq<int>)
    ensures id in r
    ensures forall x :: x in r <==> x in sel || x == id
    ensures NoDup(sel) ==> NoDup(r)
    ensures id in sel ==> r == sel
    ensures id !in sel ==> |r| == |sel| + 1 && r[..|sel|] == sel && r[|sel|] == id
  {
    if id in sel then sel else sel + [id]
  }

  function IsNot(id: int): int -> bool {
    x => x != id
  }

  /** `Set.prototype.delete`: drops `id`, keeping the others in order. */
  function Remove(sel: seq<int>, id: int): (r: seq<int>)
    ensures id !in r
    ensures forall x :: x != id ==> (x in r <==> x in sel)
    ensures SubseqOf(r, sel)
    ensures multiset(r) == multiset(sel)[id := 0]
    ensures NoDup(sel) ==> NoDup(r)
    ensures id !in sel ==> r == sel
  {
    var r := Filter(IsNot(id), sel);
    FilterCount(IsNot(id), sel);
    FilterSubseq(IsNot(id), sel);
    assert multiset(r) == multiset(sel)[id := 0];
    assert NoDup(sel) ==> NoDup(r) by {
      if NoDup(sel) {
        FilterNoDup(IsNot(id), sel);
      }
    }
    assert id !in sel ==> r == sel by {
      if id !in sel {
        FilterKeepsAll(IsNot(id), sel);
      }
    }
    r
  }

  /** `handleCourseSelection`: a click on a course removes its id when it is
      selected and appends it otherwise. Exactly the membership of `id`
      flips; every other id stays as it was. */
  function Toggle(sel: seq<int>, id: int): (r: seq<int>)
    ensures id in r <==> id !in sel
    ensures forall x :: x != id ==> (x in r <==> x in sel)
    ensures NoDup(sel) ==> NoDup(r)
    ensures id !in sel ==> r == sel + [id]
    ensures id in sel ==> SubseqOf(r, sel) && multiset(r) == multiset(sel)[id := 0]
  {
    if id in sel then Remove(sel, id) else Add(sel, id)
  }

  /** Toggling the same id twice restores the selection's membership; when
      the id was not selected the sequence itself is restored. (When it was,
      it comes back at the end, so the share link order changes.) */
  lemma ToggleTwice(sel: seq<int>, id: int)
    ensures forall x :: x in Toggle(Toggle(sel, id), id) <==> x in sel
    ensures id !in sel ==> Toggle(Toggle(sel, id), id) == sel
  {
    if id !in sel {
      FilterConcat(IsNot(id), sel, [id]);
      FilterKeepsAll(IsNot(id), sel);
      assert Filter(IsNot(id), [id]) == [];
    }
  }

  /** `new Set(ids)`: adds the ids one by one, so each value is kept at its
      first occurrence and later repeats are dropped. */
  function Dedupe(ids: seq<int>): (r: seq<int>)
    ensures NoDup(r)
    ensures forall x :: x in r <==> x in ids
    ensures |r| <= |ids|
    ensures NoDup(ids) ==> r == ids
  {
    if |ids| == 0 then []
    else
      var init := ids[..|ids| - 1];
      assert ids == init + [ids[|ids| - 1]];
      Add(Dedupe(init), ids[|ids| - 1])
  }

  lemma FirstIndexOfPrefix(s: seq<int>, y: int, x: int)
    requires x in s
    ensures FirstIndex(s + [y], x) == FirstIndex(s, x)
  {
    if s[0] != x {
      assert (s + [y])[1..] == s[1..] + [y];
      FirstIndexOfPrefix(s[1..], y, x);
    }
  }

  /** `Dedupe` lists the distinct ids in the order of their first occurrence. */
  lemma {:induction false} DedupeFirstOccurrenceOrder(ids: seq<int>)
    ensures forall i, j :: 0 <= i < j < |Dedupe(ids)| ==>
              FirstIndex(ids, Dedupe(ids)[i]) < FirstIndex(ids, Dedupe(ids)[j])
    decreases |ids|
  {
    if |ids| > 0 {
      var init := ids[..|ids| - 1];
      var last := ids[|ids| - 1];
      assert ids == init + [last];
      DedupeFirstOccurrenceOrder(init);
      var d := Dedupe(init);
      FirstOrderExtends(init, last, d);
      if last !in init {
        FirstOrderAppends(init, last, d);
      }
    }
  }

  /** Deduplicating the defined results of `f` lists each value in the order
      of the first element of `s` mapped to it. */
  lemma DedupeFilterMapOrder<A>(f: A -> Option<int>, s: seq<A>)
    ensures forall i, j :: 0 <= i < |Dedupe(FilterMap(f, s))| && 0 <= j < |Dedupe(FilterMap(f, s))| ==>
      (i < j <==> FirstProducer(f, s, Dedupe(FilterMap(f, s))[i]) < FirstProducer(f, s, Dedupe(FilterMap(f, s))[j]))
  {
    var d := Dedupe(FilterMap(f, s));
    forall i, j | 0 <= i < |d| && 0 <= j < |d|
      ensures i < j <==> FirstProducer(f, s, d[i]) < FirstProducer(f, s, d[j])
    {
      DedupePairOrder(f, s, i, j);
    }
  }

  /** One pair of positions of the deduplicated results, compared by their
      first producers. */
  lemma DedupePairOrder<A>(f: A -> Option<int>, s: seq<A>, i: int, j: int)
    requires 0 <= i < |Dedupe(FilterMap(f, s))| && 0 <= j < |Dedupe(FilterMap(f, s))|
    ensures i < j <==> FirstProducer(f, s, Dedupe(FilterMap(f, s))[i]) < FirstProducer(f, s, Dedupe(FilterMap(f, s))[j])
  {
    var ids := FilterMap(f, s);
    var d := Dedupe(ids);
    DedupeFirstOccurrenceOrder(ids);
    assert d[i] in ids && d[j] in ids;
    FilterMapFirstOrder(f, s, d[i], d[j]);
    FilterMapFirstOrder(f, s, d[j], d[i]);
  }

  /** Appending to the ids moves no first occurrence of an earlier id. */
  lemma FirstOrderExtends(init: seq<int>, last: int, d: seq<int>)
    requires forall x :: x in d ==> x in init
    requires forall i, j :: 0 <= i < j < |d| ==> FirstIndex(init, d[i]) < FirstIndex(init, d[j])
    ensures forall i, j :: 0 <= i < j < |d| ==> FirstIndex(init + [last], d[i]) < FirstIndex(init + [last], d[j])
  {
    forall x | x in init
      ensures FirstIndex(init + [last], x) == FirstIndex(init, x)
    {
      FirstIndexOfPrefix(init, last, x);
    }
  }

  /** A new id first occurs after every earlier id. */
  lemma FirstOrderAppends(init: seq<int>, last: int, d: seq<int>)
    requires last !in init
    requires forall x :: x in d ==> x in init
    requires forall i, j :: 0 <= i < j < |d| ==> FirstIndex(init + [last], d[i]) < FirstIndex(init + [last], d[j])
    ensures forall i, j :: 0 <= i < j < |d + [last]| ==>
      FirstIndex(init + [last], (d + [last])[i]) < FirstIndex(init + [last], (d + [last])[j])
  {
    var ids := init + [last];
    assert FirstIndex(ids, last) == |init|;
    forall x | x in init
      ensures FirstIndex(ids, x) < |init|
    {
      FirstIndexOfPrefix(init, last, x);
    }
    var r := d + [last];
    forall i, j | 0 <= i < j < |r|
      ensures FirstIndex(ids, r[i]) < FirstIndex(ids, r[j])
    {
      assert r[i] == d[i] && d[i] in d;
      if j < |d| {
        assert r[j] == d[j];
      }
    }
  }

  function IdIn(sel: seq<int>): Course -> bool {
    (c: Course) => c.id in sel
  }

  /** `selectedCourses`: the catalog's courses whose id is selected, in
      catalog order. Selected ids with no course contribute nothing. */
  function SelectedCourses(catalog: seq<Course>, sel: seq<int>): (r: seq<Course>)
    ensures forall c :: c in r <==> c in catalog && c.id in sel
    ensures SubseqOf(r, catalog)
    ensures forall c :: c in catalog && c.id in sel ==> multiset(r)[c] == multiset(catalog)[c]
  {
    FilterCount(IdIn(sel), catalog);
    FilterSubseq(IdIn(sel), catalog);
    Filter(IdIn(sel), catalog)
  }

  /** The resolved courses depend only on which ids are selected, not on
      their order; and an id no course carries changes nothing. */
  lemma SelectedCoursesIgnoresOrderAndDangling(catalog: seq<Course>, a: seq<int>, b: seq<int>)
    requires forall c :: c in catalog ==> (c.id in a <==> c.id in b)
    ensures SelectedCourses(catalog, a) == SelectedCourses(catalog, b)
  {
    FilterCongruent(IdIn(a), IdIn(b), catalog);
  }

  /** A dangling id (no course has it) can be selected without trace. */
  lemma DanglingIdLeavesNoTrace(catalog: seq<Course>, sel: seq<int>, id: int)
    requires forall c :: c in catalog ==> c.id != id
    ensures SelectedCourses(catalog, Toggle(sel, id)) == SelectedCourses(catalog, sel)
    ensures forall c :: c in SelectedCourses(catalog, Toggle(sel, id)) ==> c.id != id
  {
    SelectedCoursesIgnoresOrderAndDangling(catalog, Toggle(sel, id), sel);
  }
}
