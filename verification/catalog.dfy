/** The admin's edits of the catalog (App.tsx `handleSaveCourse`,
    `handleDeleteCourse`). A saved form either replaces the records that
    carry its id or appends a new record under a freshly minted id. */
module Catalog {
  import opened Seqs
  import opened Wrappers
  import opened Strings
  import opened Types

  /** What the course form hands back: every field of a course, and the id
      of the course being edited when there is one. */
  datatype Draft = Draft(
    id: Option<int>,
    name: string,
    details: string,
    day: Day,
    timeSlot: TimeSlot,
    gradeLevel: GradeLevel)

  /** The record a draft becomes under a given id. */
  function WithId(d: Draft, id: int): (c: Course)
    ensures c.id == id && c.name == d.name && c.details == d.details
    ensures c.day == d.day && c.timeSlot == d.timeSlot && c.gradeLevel == d.gradeLevel
  {
    Course(id, d.name, d.details, d.day, d.timeSlot, d.gradeLevel)
  }

  /** The ids of the catalog, in catalog order. */
  function Ids(catalog: seq<Course>): (r: seq<int>)
    ensures |r| == |catalog|
    ensures forall i :: 0 <= i < |catalog| ==> r[i] == catalog[i].id
  {
    seq(|catalog|, i requires 0 <= i < |catalog| => catalog[i].id)
  }

  /** The form only submits a draft whose name is not blank. */
  predicate ValidDraft(d: Draft) {
    Trim(d.name) != ""
  }

  /** The catalog invariant the admin flow keeps: ids identify courses and
      every name is non-blank. */
  predicate WellFormed(catalog: seq<Course>) {
    NoDup(Ids(catalog)) && forall c :: c in catalog ==> Trim(c.name) != ""
  }

  /** Editing: every record whose id is `id` becomes `course`; all other
      records stay where they are, untouched. */
  function EditCourse(catalog: seq<Course>, id: int, course: Course): (r: seq<Course>)
    ensures |r| == |catalog|
    ensures forall i :: 0 <= i < |catalog| && catalog[i].id != id ==> r[i] == catalog[i]
    ensures forall i :: 0 <= i < |catalog| && catalog[i].id == id ==> r[i] == course
  {
    seq(|catalog|, i requires 0 <= i < |catalog| => if catalog[i].id == id then course else catalog[i])
  }

  /** Adding: the new record goes at the end. */
  function AddCourse(catalog: seq<Course>, course: Course): (r: seq<Course>)
    ensures |r| == |catalog| + 1 && r[..|catalog|] == catalog && r[|catalog|] == course
  {
    catalog + [course]
  }

  function IdIsNot(id: int): Course -> bool {
    (c: Course) => c.id != id
  }

  /** Deleting: exactly the records with id `id` go; the rest keep their order. */
  function DeleteCourse(catalog: seq<Course>, id: int): (r: seq<Course>)
    ensures forall c :: c in r <==> c in catalog && c.id != id
    ensures SubseqOf(r, catalog)
    ensures forall c: Course :: c.id != id ==> multiset(r)[c] == multiset(catalog)[c]
    ensures (forall c :: c in catalog ==> c.id != id) ==> r == catalog
  {
    FilterCount(IdIsNot(id), catalog);
    FilterSubseq(IdIsNot(id), catalog);
    assert (forall c :: c in catalog ==> c.id != id) ==> Filter(IdIsNot(id), catalog) == catalog by {
      if forall c :: c in catalog ==> c.id != id {
        FilterKeepsAll(IdIsNot(id), catalog);
      }
    }
    Filter(IdIsNot(id), catalog)
  }

  /** `handleSaveCourse`: a draft with a truthy id (present and non-zero)
      edits the records with that id; otherwise it is added under `freshId`,
      which the source mints from the clock. An id of 0 therefore counts as
      "new". */
  function SaveCourse(catalog: seq<Course>, d: Draft, freshId: int): (r: seq<Course>)
    ensures d.id.Some? && d.id.value != 0 ==> |r| == |catalog| && Ids(r) == Ids(catalog)
    ensures d.id.Some? && d.id.value != 0 ==>
      forall i :: 0 <= i < |catalog| && catalog[i].id == d.id.value ==> r[i] == WithId(d, d.id.value)
    ensures d.id.Some? && d.id.value != 0 ==>
      forall i :: 0 <= i < |catalog| && catalog[i].id != d.id.value ==> r[i] == catalog[i]
    ensures !(d.id.Some? && d.id.value != 0) ==> |r| == |catalog| + 1 && r[..|catalog|] == catalog && r[|catalog|] == WithId(d, freshId)
  {
    if d.id.Some? && d.id.value != 0 then
      var r := EditCourse(catalog, d.id.value, WithId(d, d.id.value));
      assert Ids(r) == Ids(catalog);
      r
    else AddCourse(catalog, WithId(d, freshId))
  }

  /** Editing a record and then deleting it leaves no trace of the edit. */
  lemma EditThenDelete(catalog: seq<Course>, id: int, course: Course)
    requires course.id == id
    ensures DeleteCourse(EditCourse(catalog, id, course), id) == DeleteCourse(catalog, id)
  {
    var e := EditCourse(catalog, id, course);
    EditThenDeleteFrom(catalog, e, id, course);
  }

  lemma {:induction false} EditThenDeleteFrom(catalog: seq<Course>, e: seq<Course>, id: int, course: Course)
    requires course.id == id && |e| == |catalog|
    requires forall i :: 0 <= i < |catalog| ==> e[i] == if catalog[i].id == id then course else catalog[i]
    ensures Filter(IdIsNot(id), e) == Filter(IdIsNot(id), catalog)
    decreases |catalog|
  {
    if |catalog| > 0 {
      EditThenDeleteFrom(catalog[1..], e[1..], id, course);
    }
  }

  /** Saving the same edit twice is the same as saving it once. */
  lemma EditIdempotent(catalog: seq<Course>, id: int, course: Course)
    requires course.id == id
    ensures EditCourse(EditCourse(catalog, id, course), id, course) == EditCourse(catalog, id, course)
  {
  }

  /** An edit whose id no record carries changes nothing. */
  lemma EditUnknownIdIsNoop(catalog: seq<Course>, id: int, course: Course)
    requires forall c :: c in catalog ==> c.id != id
    ensures EditCourse(catalog, id, course) == catalog
  {
    var r := EditCourse(catalog, id, course);
    forall i | 0 <= i < |catalog|
      ensures r[i] == catalog[i]
    {
      assert catalog[i] in catalog;
    }
  }

  /** Saving a valid draft under a fresh id keeps the catalog well formed. */
  lemma SavePreservesWellFormed(catalog: seq<Course>, d: Draft, freshId: int)
    requires WellFormed(catalog) && ValidDraft(d)
    requires freshId !in Ids(catalog)
    ensures WellFormed(SaveCourse(catalog, d, freshId))
  {
    if d.id.Some? && d.id.value != 0 {
      EditKeepsNames(catalog, d.id.value, WithId(d, d.id.value));
    } else {
      AddKeepsWellFormed(catalog, WithId(d, freshId));
    }
  }

  lemma EditKeepsNames(catalog: seq<Course>, id: int, course: Course)
    requires forall c :: c in catalog ==> Trim(c.name) != ""
    requires Trim(course.name) != ""
    ensures forall c :: c in EditCourse(catalog, id, course) ==> Trim(c.name) != ""
  {
    var r := EditCourse(catalog, id, course);
    forall c | c in r
      ensures Trim(c.name) != ""
    {
      var i :| 0 <= i < |r| && r[i] == c;
      if catalog[i].id != id {
        assert catalog[i] in catalog;
      }
    }
  }

  lemma AddKeepsWellFormed(catalog: seq<Course>, course: Course)
    requires WellFormed(catalog) && course.id !in Ids(catalog)
    requires Trim(course.name) != ""
    ensures WellFormed(AddCourse(catalog, course))
  {
    var r := AddCourse(catalog, course);
    assert r == catalog + [course];
    IdsSnoc(catalog, course);
    NoDupSnoc(Ids(catalog), course.id);
    forall c | c in r
      ensures Trim(c.name) != ""
    {
      assert c in catalog || c == course;
    }
  }

  lemma IdsSnoc(catalog: seq<Course>, course: Course)
    ensures Ids(catalog + [course]) == Ids(catalog) + [course.id]
  {
  }

  /** Deleting keeps the catalog well formed and retires the id. */
  lemma DeletePreservesWellFormed(catalog: seq<Course>, id: int)
    requires WellFormed(catalog)
    ensures WellFormed(DeleteCourse(catalog, id))
    ensures id !in Ids(DeleteCourse(catalog, id))
  {
    var r := DeleteCourse(catalog, id);
    DeleteIdsSubseq(catalog, id);
    assert forall k :: 0 <= k < |r| ==> r[k] in r;
  }

  lemma {:induction false} DeleteIdsSubseq(catalog: seq<Course>, id: int)
    requires NoDup(Ids(catalog))
    ensures NoDup(Ids(DeleteCourse(catalog, id)))
    decreases |catalog|
  {
    if |catalog| > 0 {
      var tail := catalog[1..];
      assert Ids(tail) == Ids(catalog)[1..];
      DeleteIdsSubseq(tail, id);
      var rest := DeleteCourse(tail, id);
      if catalog[0].id != id {
        var r := DeleteCourse(catalog, id);
        assert r == [catalog[0]] + rest;
        forall k | 0 <= k < |rest|
          ensures rest[k].id != catalog[0].id
        {
          HeadIdNotInTail(catalog, rest[k]);
        }
        IdsCons(catalog[0], rest);
      }
    }
  }

  lemma IdsCons(h: Course, rest: seq<Course>)
    requires NoDup(Ids(rest))
    requires forall k :: 0 <= k < |rest| ==> rest[k].id != h.id
    ensures NoDup(Ids([h] + rest))
  {
    var irest := Ids(rest);
    assert Ids([h] + rest) == [h.id] + irest;
    NoDupCons(h.id, irest);
  }

  lemma HeadIdNotInTail(catalog: seq<Course>, c: Course)
    requires |catalog| > 0 && NoDup(Ids(catalog))
    requires c in catalog[1..]
    ensures c.id != catalog[0].id
  {
    var j :| 0 <= j < |catalog[1..]| && catalog[1..][j] == c;
    assert Ids(catalog)[j + 1] == c.id;
  }
}
