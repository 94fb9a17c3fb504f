/** The browsing filter (App.tsx `filteredCourses`): four independent
    predicates over each course, combined with AND. */
module CourseFilter {
  import opened Seqs
  import opened Strings
  import opened Types

  /** A filter axis: `All` is the `'הכל'` ("everything") option, `Only(v)`
      keeps the courses whose field equals `v`. */
  datatype Choice<T> = All | Only(value: T)

  predicate Admits<T(==)>(choice: Choice<T>, v: T) {
    choice.All? || choice.value == v
  }

  /** The label of the "everything" option in the source's filter state. */
  const ALL_LABEL: string := "הכל"

  /** The source compares labels (`course.day === dayFilter`), the model
      compares days and periods: the two agree, because labels are read back
      to what they label, and the "everything" label is no day or period,
      so a wildcard is never mistaken for a value. */
  lemma AxesAsLabels(f: FilterState, c: Course)
    ensures Admits(f.day, c.day) <==> f.day.All? || DayLabel(f.day.value) == DayLabel(c.day)
    ensures Admits(f.time, c.timeSlot) <==> f.time.All? || SlotLabel(f.time.value) == SlotLabel(c.timeSlot)
    ensures ParseDay(ALL_LABEL).None? && ParseSlot(ALL_LABEL).None?
  {
    if f.day.Only? {
      DayLabelInjective(f.day.value, c.day);
    }
    if f.time.Only? {
      SlotLabelInjective(f.time.value, c.timeSlot);
    }
    AllLabelIsNoValue();
  }

  lemma DayLabelInjective(a: Day, b: Day)
    ensures DayLabel(a) == DayLabel(b) ==> a == b
  {
    var back := ParseDay(DayLabel(b));
  }

  lemma SlotLabelInjective(a: TimeSlot, b: TimeSlot)
    ensures SlotLabel(a) == SlotLabel(b) ==> a == b
  {
    var back := ParseSlot(SlotLabel(b));
  }

  lemma AllLabelIsNoValue()
    ensures ParseDay(ALL_LABEL).None? && ParseSlot(ALL_LABEL).None?
  {
    assert |ALL_LABEL| == 3;
  }

  /** The four filter fields. */
  datatype FilterState = FilterState(
    day: Choice<Day>,
    time: Choice<TimeSlot>,
    grade: Choice<GradeLevel>,
    query: string)

  /** The filter that keeps everything. */
  const NO_FILTER: FilterState := FilterState(All, All, All, "")

  /** The free-text test: an empty query matches everything; otherwise the
      lower-cased query must occur in the lower-cased name or details. */
  predicate SearchMatch(c: Course, query: string) {
    query == ""
    || Contains(Lower(c.name), Lower(query))
    || Contains(Lower(c.details), Lower(query))
  }

  /** The conjunction the source evaluates for every course. */
  predicate Accepts(f: FilterState, c: Course) {
    Admits(f.day, c.day) && Admits(f.time, c.timeSlot) && SearchMatch(c, f.query) && Admits(f.grade, c.gradeLevel)
  }

  function AcceptedBy(f: FilterState): Course -> bool {
    (c: Course) => Accepts(f, c)
  }

  /** `filteredCourses`: a course is shown iff its day, period and grade each
      match their filter (or the filter is "everything") and the search
      matches; the shown courses keep catalog order and multiplicity. */
  function FilteredCourses(courses: seq<Course>, f: FilterState): (r: seq<Course>)
    ensures forall c :: c in r <==>
      && c in courses
      && (f.day.All? || c.day == f.day.value)
      && (f.time.All? || c.timeSlot == f.time.value)
      && (f.grade.All? || c.gradeLevel == f.grade.value)
      && SearchMatch(c, f.query)
    ensures SubseqOf(r, courses)
    ensures forall c :: c in courses && Accepts(f, c) ==> multiset(r)[c] == multiset(courses)[c]
  {
    FilterCount(AcceptedBy(f), courses);
    FilterSubseq(AcceptedBy(f), courses);
    Filter(AcceptedBy(f), courses)
  }

  /** With every axis on "everything" and an empty search, the whole
      catalog is shown unchanged. */
  lemma NoFilterShowsAll(courses: seq<Course>)
    ensures FilteredCourses(courses, NO_FILTER) == courses
  {
    FilterKeepsAll(AcceptedBy(NO_FILTER), courses);
  }

  /** Case-insensitivity, stated independently of the lower-casing
      machinery: a non-empty query matches iff its lower-cased form occurs,
      at some position, in the lower-cased name or details. */
  lemma SearchMatchIff(c: Course, query: string)
    ensures SearchMatch(c, query) <==>
      query == ""
      || (exists i :: OccursAt(Lower(c.name), Lower(query), i))
      || (exists i :: OccursAt(Lower(c.details), Lower(query), i))
  {
    ContainsIff(Lower(c.name), Lower(query));
    ContainsIff(Lower(c.details), Lower(query));
  }

  /** The search ignores letter case in the query. */
  lemma SearchIgnoresQueryCase(c: Course, query: string)
    ensures SearchMatch(c, Lower(query)) == SearchMatch(c, query)
  {
    LowerIdempotent(query);
  }

  /** The empty-query shortcut is only a shortcut: the empty string occurs in
      every name, so the search would match anyway. */
  lemma EmptyQueryMatchesAnyway(c: Course)
    ensures Contains(Lower(c.name), Lower(""))
  {
    assert Lower("") <= Lower(c.name);
  }

  /** Filtering by all four axes at once equals filtering by one axis, then
      by the rest: the axes are independent and the order of applying them
      does not matter. */
  lemma {:induction false} AxesCompose(courses: seq<Course>, f: FilterState)
    ensures FilteredCourses(courses, f)
         == FilteredCourses(FilteredCourses(courses, f.(day := All)), NO_FILTER.(day := f.day))
    decreases |courses|
  {
    if |courses| > 0 {
      AxesCompose(courses[1..], f);
    }
  }
}
