/** The personal timetable (components/MyScheduleView.tsx): the selected
    courses grouped by day in `DAYS` order, days without courses left out,
    and each day's courses ordered by period. */
module MySchedule {
  import opened Seqs
  import opened Types
  import opened Wrappers
  import opened Sorting
  import opened Grouping

  /** The sort key of the personal timetable: the period's position. */
  function SlotOrder(c: Course): int {
    SlotIndex(c.timeSlot)
  }

  predicate SortedBySlot(s: seq<Course>) {
    forall i, j :: 0 <= i < j < |s| ==> SlotIndex(s[i].timeSlot) <= SlotIndex(s[j].timeSlot)
  }

  function OnSlot(t: TimeSlot): Course -> bool {
    (c: Course) => c.timeSlot == t
  }

  /** The comparator the source sorts with, `a.timeSlot.localeCompare(b.timeSlot)`,
      read as a plain comparison of the period labels: its sign is that of
      the difference of the periods' positions. */
  function SlotCompare(a: Course, b: Course): (r: int)
    ensures r < 0 <==> SlotIndex(a.timeSlot) < SlotIndex(b.timeSlot)
    ensures r == 0 <==> a.timeSlot == b.timeSlot
    ensures r > 0 <==> SlotIndex(b.timeSlot) < SlotIndex(a.timeSlot)
  {
    var la, lb := SlotLabel(a.timeSlot), SlotLabel(b.timeSlot);
    SlotLabelOrder(a.timeSlot, b.timeSlot);
    SlotLabelOrder(b.timeSlot, a.timeSlot);
    assert la == lb ==> ParseSlot(la) == Some(a.timeSlot) && ParseSlot(lb) == Some(b.timeSlot);
    if LexLess(la, lb) then -1 else if la == lb then 0 else 1
  }

  /** `.sort((a, b) => a.timeSlot.localeCompare(b.timeSlot))`: the courses
      ordered by period, each kept as often as it occurs. */
  function SortBySlot(s: seq<Course>): (r: seq<Course>)
    ensures SortedBySlot(r)
    ensures multiset(r) == multiset(s)
  {
    var r := SortBy(SlotOrder, s);
    assert forall i :: 0 <= i < |r| ==> SlotOrder(r[i]) == SlotIndex(r[i].timeSlot);
    r
  }

  /** The sort by period key puts the courses in the order the source's
      comparator asks for: no course is placed before one it compares below. */
  lemma SortBySlotFollowsCompare(s: seq<Course>)
    ensures forall i, j :: 0 <= i < j < |SortBySlot(s)| ==> SlotCompare(SortBySlot(s)[i], SortBySlot(s)[j]) <= 0
  {
    var r := SortBySlot(s);
    forall i, j | 0 <= i < j < |r|
      ensures SlotCompare(r[i], r[j]) <= 0
    {
      assert SlotIndex(r[i].timeSlot) <= SlotIndex(r[j].timeSlot);
    }
  }

  /** Stability: courses in the same period keep their input order; keeping
      only one period, the sorted and unsorted lists agree. */
  lemma SortBySlotStable(s: seq<Course>, t: TimeSlot)
    ensures Filter(OnSlot(t), SortBySlot(s)) == Filter(OnSlot(t), s)
  {
    var r := SortBySlot(s);
    SortStable(SlotOrder, s, SlotIndex(t));
    forall c: Course ensures OnSlot(t)(c) == HasKey(SlotOrder, SlotIndex(t))(c) {
      assert SlotOrder(c) == SlotIndex(t) ==> TIME_SLOTS[SlotIndex(t)] == c.timeSlot;
    }
    FilterCongruent(OnSlot(t), HasKey(SlotOrder, SlotIndex(t)), s);
    FilterCongruent(OnSlot(t), HasKey(SlotOrder, SlotIndex(t)), r);
  }

  /** One day of the personal timetable. */
  datatype DayGroup = DayGroup(day: Day, courses: seq<Course>)

  function DayOf(c: Course): Day {
    c.day
  }

  function DayRank(d: Day): int {
    DayIndex(d)
  }

  /** The days of the groups, in group order. */
  function DaysOf(gs: seq<DayGroup>): (r: seq<Day>)
    ensures |r| == |gs|
    ensures forall i :: 0 <= i < |gs| ==> r[i] == gs[i].day
  {
    seq(|gs|, i requires 0 <= i < |gs| => gs[i].day)
  }

  /** `groupedCourses`, rendered in `DAYS` order: the source reduces the
      selection into a day-indexed object and then walks `DAYS`, skipping
      days without courses; each day's courses are sorted by period. */
  function GroupByDay(selected: seq<Course>): (r: seq<DayGroup>)
    ensures |r| <= |DAYS|
  {
    var gs := GroupFrom(DayOf, DAYS, selected);
    seq(|gs|, i requires 0 <= i < |gs| => DayGroup(gs[i].key, SortBySlot(gs[i].members)))
  }

  lemma DaysAscending()
    ensures Ascending(DayRank, DAYS)
  {
    forall i, j | 0 <= i < j < |DAYS| ensures DayRank(DAYS[i]) < DayRank(DAYS[j]) {
      assert DayRank(DAYS[i]) == i && DayRank(DAYS[j]) == j;
    }
  }

  /** Every group is non-empty, sorted by period, and holds exactly the
      selected courses of its day, each as often as it was selected. */
  lemma GroupContents(selected: seq<Course>)
    ensures forall g :: g in GroupByDay(selected) ==>
      && |g.courses| > 0
      && SortedBySlot(g.courses)
      && (forall c :: c in g.courses <==> c in selected && c.day == g.day)
      && (forall c :: multiset(g.courses)[c] == if c.day == g.day then multiset(selected)[c] else 0)
  {
    var r := GroupByDay(selected);
    forall g | g in r
      ensures |g.courses| > 0 && SortedBySlot(g.courses)
      ensures forall c :: c in g.courses <==> c in selected && c.day == g.day
      ensures forall c :: multiset(g.courses)[c] == if c.day == g.day then multiset(selected)[c] else 0
    {
      var i :| 0 <= i < |r| && r[i] == g;
      GroupAt(selected, i);
    }
  }

  /** The contents of the `i`-th group. */
  lemma GroupAt(selected: seq<Course>, i: int)
    requires 0 <= i < |GroupByDay(selected)|
    ensures |GroupByDay(selected)[i].courses| > 0 && SortedBySlot(GroupByDay(selected)[i].courses)
    ensures forall c :: c in GroupByDay(selected)[i].courses <==> c in selected && c.day == GroupByDay(selected)[i].day
    ensures forall c :: multiset(GroupByDay(selected)[i].courses)[c] ==
                        if c.day == GroupByDay(selected)[i].day then multiset(selected)[c] else 0
  {
    var gs := GroupFrom(DayOf, DAYS, selected);
    var g := GroupByDay(selected)[i];
    GroupFromMembers(DayOf, DAYS, selected);
    assert g.courses == SortBySlot(gs[i].members) && g.day == gs[i].key;
    assert gs[i].members == Bucket(DayOf, g.day, selected);
    forall c ensures multiset(g.courses)[c] == if c.day == g.day then multiset(selected)[c] else 0 {
      BucketCount(DayOf, g.day, selected, c);
    }
    forall c ensures c in g.courses <==> c in selected && c.day == g.day {
      assert c in g.courses <==> c in multiset(gs[i].members);
    }
  }

  /** The groups come in ascending `DAYS` order. */
  lemma GroupOrder(selected: seq<Course>)
    ensures forall i, j :: 0 <= i < j < |GroupByDay(selected)| ==>
      DayIndex(GroupByDay(selected)[i].day) < DayIndex(GroupByDay(selected)[j].day)
  {
    DaysAscending();
    GroupFromAscending(DayOf, DayRank, DAYS, selected);
    var gs := GroupFrom(DayOf, DAYS, selected);
    assert forall i :: 0 <= i < |gs| ==> KeysOf(gs)[i] == GroupByDay(selected)[i].day;
  }

  /** A day has a group exactly when some selected course falls on it. */
  lemma GroupDays(selected: seq<Course>, d: Day)
    ensures d in DaysOf(GroupByDay(selected)) <==> exists c :: c in selected && c.day == d
  {
    var r := GroupByDay(selected);
    var gs := GroupFrom(DayOf, DAYS, selected);
    assert DaysOf(r) == KeysOf(gs);
    if d in KeysOf(gs) {
      KeyHasCourse(selected, d);
    }
    if c :| c in selected && c.day == d {
      assert DAYS[DayIndex(d)] == d;
      GroupFromCovers(DayOf, DAYS, selected, c);
    }
  }

  lemma KeyHasCourse(selected: seq<Course>, d: Day)
    requires d in KeysOf(GroupFrom(DayOf, DAYS, selected))
    ensures exists c :: c in selected && c.day == d
  {
    var gs := GroupFrom(DayOf, DAYS, selected);
    GroupFromMembers(DayOf, DAYS, selected);
    var i :| 0 <= i < |gs| && KeysOf(gs)[i] == d;
    var m := gs[i].members;
    assert m[0] in m && m == Bucket(DayOf, d, selected);
  }

  /** The courses of every group, group by group. */
  function CoursesOf(gs: seq<DayGroup>): (r: seq<seq<Course>>)
    ensures |r| == |gs|
    ensures forall i :: 0 <= i < |gs| ==> r[i] == gs[i].courses
  {
    seq(|gs|, i requires 0 <= i < |gs| => gs[i].courses)
  }

  /** Sorting each group keeps the union of the groups. */
  lemma SortedGroupsUnion(gs: seq<Group<Day, Course>>, r: seq<DayGroup>)
    requires |r| == |gs|
    requires forall i :: 0 <= i < |gs| ==> r[i].courses == SortBySlot(gs[i].members)
    ensures MultisetUnion(CoursesOf(r)) == MultisetUnion(MembersOf(gs))
  {
    var a, b := CoursesOf(r), MembersOf(gs);
    forall i | 0 <= i < |a|
      ensures multiset(a[i]) == multiset(b[i])
    {
      assert a[i] == SortBySlot(gs[i].members);
    }
    MultisetUnionPointwise(a, b);
  }

  /** Nothing is dropped or duplicated: the groups hold, together, exactly
      the selected courses, each as often as it was selected. */
  lemma GroupsPartitionSelection(selected: seq<Course>)
    ensures MultisetUnion(CoursesOf(GroupByDay(selected))) == multiset(selected)
  {
    var gs := GroupFrom(DayOf, DAYS, selected);
    SortedGroupsUnion(gs, GroupByDay(selected));
    DaysAscending();
    AscendingNoDup(DayRank, DAYS);
    forall c ensures MultisetUnion(MembersOf(gs))[c] == multiset(selected)[c] {
      GroupFromPartition(DayOf, DAYS, selected, c);
      assert DAYS[DayIndex(c.day)] == c.day;
    }
  }

  /** Within a day, courses of the same period keep their selection order. */
  lemma GroupKeepsSelectionOrderWithinSlot(selected: seq<Course>, i: nat, t: TimeSlot)
    requires i < |GroupByDay(selected)|
    ensures Filter(OnSlot(t), GroupByDay(selected)[i].courses)
         == Filter(OnSlot(t), Bucket(DayOf, GroupByDay(selected)[i].day, selected))
  {
    var gs := GroupFrom(DayOf, DAYS, selected);
    GroupFromMembers(DayOf, DAYS, selected);
    SortBySlotStable(gs[i].members, t);
  }

  /** No selected course means no groups: the empty-state message is shown
      and the share button hidden; any selected course means some group. */
  lemma EmptyIffNoSelection(selected: seq<Course>)
    ensures ShowsEmptyState(GroupByDay(selected)) <==> |selected| == 0
    ensures ShowsShareButton(GroupByDay(selected)) <==> |selected| > 0
  {
    var r := GroupByDay(selected);
    if |selected| > 0 {
      GroupDays(selected, selected[0].day);
      assert selected[0] in selected;
    } else {
      GroupFromNothing(DayOf, DAYS, selected);
    }
  }

  /** Whether the empty-state message replaces the timetable. */
  predicate ShowsEmptyState(groups: seq<DayGroup>) {
    |groups| == 0
  }

  /** Whether the share button is offered. */
  predicate ShowsShareButton(groups: seq<DayGroup>) {
    |groups| > 0
  }

  const TITLE_PREFIX: string := "המערכת של "
  const DEFAULT_TITLE: string := "המערכת שלי"

  /** The heading: "the timetable of <name>" when a name was entered,
      otherwise "my timetable". */
  function Title(studentName: string): (r: string)
    ensures studentName != "" ==>
      && |r| == |TITLE_PREFIX| + |studentName|
      && r[..|TITLE_PREFIX|] == TITLE_PREFIX
      && r[|TITLE_PREFIX|..] == studentName
    ensures studentName == "" ==> r == DEFAULT_TITLE
  {
    if studentName != "" then TITLE_PREFIX + studentName else DEFAULT_TITLE
  }

  /** Different names give different headings; in particular no name can
      produce the default heading. */
  lemma TitleInjective(a: string, b: string)
    requires Title(a) == Title(b)
    ensures a == b
  {
    assert |DEFAULT_TITLE| == |TITLE_PREFIX|;
    if a != "" && b != "" {
      assert a == Title(a)[|TITLE_PREFIX|..];
    }
  }
}
