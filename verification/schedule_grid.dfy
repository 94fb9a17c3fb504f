/** The weekly grid (components/ScheduleGrid.tsx): one row per period, one
    column per day, and in every cell a card for each shown course of that
    day and period, marked when its id is selected. */
module ScheduleGrid {
  import opened Seqs
  import opened Types
  import opened Selection
  import opened CourseFilter

  /** The (day, period) cell a course is drawn in. */
  function CellOf(c: Course): (Day, TimeSlot) {
    (c.day, c.timeSlot)
  }

  /** `coursesInCell`: the courses of one day and period, in list order. */
  function Cell(courses: seq<Course>, d: Day, t: TimeSlot): (r: seq<Course>)
    ensures forall c :: c in r <==> c in courses && c.day == d && c.timeSlot == t
    ensures SubseqOf(r, courses)
    ensures forall c: Course :: c.day == d && c.timeSlot == t ==> multiset(r)[c] == multiset(courses)[c]
  {
    var r := Filter(HasKey(CellOf, (d, t)), courses);
    FilterCount(HasKey(CellOf, (d, t)), courses);
    FilterSubseq(HasKey(CellOf, (d, t)), courses);
    CellKeyIff(d, t);
    r
  }

  lemma CellKeyIff(d: Day, t: TimeSlot)
    ensures forall c: Course :: HasKey(CellOf, (d, t))(c) <==> c.day == d && c.timeSlot == t
  {
    forall c: Course
      ensures HasKey(CellOf, (d, t))(c) <==> c.day == d && c.timeSlot == t
    {
      assert CellOf(c) == (c.day, c.timeSlot);
    }
  }

  /** One rendered course card. */
  datatype Card = Card(course: Course, isSelected: bool)

  /** The cards of a cell: one per course, in order, selected exactly when
      the selection holds the course's id. */
  function Cards(cell: seq<Course>, sel: seq<int>): (r: seq<Card>)
    ensures |r| == |cell|
    ensures forall i :: 0 <= i < |r| ==> r[i].course == cell[i]
    ensures forall i :: 0 <= i < |r| ==> (r[i].isSelected <==> cell[i].id in sel)
  {
    seq(|cell|, i requires 0 <= i < |cell| => Card(cell[i], cell[i].id in sel))
  }

  /** The grid body: row `i` is period `TIME_SLOTS[i]`, column `j` is day
      `DAYS[j]`. */
  function Grid(courses: seq<Course>, sel: seq<int>): (r: seq<seq<seq<Card>>>)
    ensures |r| == |TIME_SLOTS|
    ensures forall i :: 0 <= i < |r| ==> |r[i]| == |DAYS|
  {
    seq(|TIME_SLOTS|, i requires 0 <= i < |TIME_SLOTS| =>
      seq(|DAYS|, j requires 0 <= j < |DAYS| => Cards(Cell(courses, DAYS[j], TIME_SLOTS[i]), sel)))
  }

  /** A listed course has a card in the cell of row `i` and column `j`
      exactly when that row is its period and that column is its day: it is
      drawn once, in its own cell, and nowhere else. */
  lemma GridPlacement(courses: seq<Course>, sel: seq<int>, c: Course, i: int, j: int)
    requires c in courses && 0 <= i < |TIME_SLOTS| && 0 <= j < |DAYS|
    ensures (exists k :: 0 <= k < |Grid(courses, sel)[i][j]| && Grid(courses, sel)[i][j][k].course == c)
      <==> i == SlotIndex(c.timeSlot) && j == DayIndex(c.day)
  {
    var cell := Cell(courses, DAYS[j], TIME_SLOTS[i]);
    var cards := Grid(courses, sel)[i][j];
    assert cards == Cards(cell, sel);
    if i == SlotIndex(c.timeSlot) && j == DayIndex(c.day) {
      assert c in cell;
      var k :| 0 <= k < |cell| && cell[k] == c;
      assert cards[k].course == c;
    }
    if k :| 0 <= k < |cards| && cards[k].course == c {
      assert cell[k] == c && c in cell;
      SlotIndexInjective(TIME_SLOTS[i], c.timeSlot, i);
      DayIndexInjective(DAYS[j], c.day, j);
    }
  }

  lemma SlotIndexInjective(a: TimeSlot, b: TimeSlot, i: int)
    requires 0 <= i < |TIME_SLOTS| && a == TIME_SLOTS[i] && a == b
    ensures SlotIndex(b) == i
  {
  }

  lemma DayIndexInjective(a: Day, b: Day, j: int)
    requires 0 <= j < |DAYS| && a == DAYS[j] && a == b
    ensures DayIndex(b) == j
  {
  }

  /** The cells, read row by row, in the order the grid renders them. */
  function CellKeys(): (r: seq<(Day, TimeSlot)>)
    ensures |r| == |TIME_SLOTS| * |DAYS|
  {
    seq(|TIME_SLOTS| * |DAYS|, k requires 0 <= k < |TIME_SLOTS| * |DAYS| => (DAYS[k % |DAYS|], TIME_SLOTS[k / |DAYS|]))
  }

  /** The k-th cell sits in row `k / 5` and column `k % 5`. */
  lemma CellKeyPosition(k: int)
    requires 0 <= k < |CellKeys()|
    ensures DayIndex(CellKeys()[k].0) == k % |DAYS| && SlotIndex(CellKeys()[k].1) == k / |DAYS|
  {
    var ks := CellKeys();
    DayIndexInjective(DAYS[k % 5], ks[k].0, k % 5);
    SlotIndexInjective(TIME_SLOTS[k / 5], ks[k].1, k / 5);
  }

  /** Every cell is listed once, and every course has its cell listed. */
  lemma CellKeysComplete()
    ensures NoDup(CellKeys())
    ensures forall c: Course :: CellOf(c) in CellKeys()
  {
    var ks := CellKeys();
    forall a, b | 0 <= a < b < |ks| ensures ks[a] != ks[b] {
      CellKeyPosition(a);
      CellKeyPosition(b);
      assert a == (a / 5) * 5 + a % 5 && b == (b / 5) * 5 + b % 5;
    }
    forall c: Course ensures CellOf(c) in ks {
      var k := SlotIndex(c.timeSlot) * 5 + DayIndex(c.day);
      assert k % 5 == DayIndex(c.day) && k / 5 == SlotIndex(c.timeSlot);
      assert ks[k] == CellOf(c);
    }
  }

  /** The cell of the k-th key is the k-th bucket. */
  lemma CellsAreBuckets(courses: seq<Course>)
    ensures forall k :: 0 <= k < |CellKeys()| ==>
      Buckets(CellOf, CellKeys(), courses)[k] == Cell(courses, CellKeys()[k].0, CellKeys()[k].1)
  {
  }

  /** The cells, row by row. */
  function AllCells(courses: seq<Course>): (r: seq<seq<Course>>)
    ensures |r| == |CellKeys()|
  {
    var ks := CellKeys();
    seq(|ks|, k requires 0 <= k < |ks| => Cell(courses, ks[k].0, ks[k].1))
  }

  /** The grid shows every listed course exactly as often as it is listed:
      the cells, together, are a rearrangement of the list. */
  lemma CellsPartitionCourses(courses: seq<Course>)
    ensures MultisetUnion(AllCells(courses)) == multiset(courses)
  {
    CellKeysComplete();
    CellsAreBuckets(courses);
    assert AllCells(courses) == Buckets(CellOf, CellKeys(), courses);
    BucketsCover(CellOf, CellKeys(), courses);
  }

  /** Clicking a card toggles its id: afterwards exactly the cards carrying
      that id change their mark, in every cell. */
  lemma ToggleFlipsCards(cell: seq<Course>, sel: seq<int>, id: int)
    ensures forall i :: 0 <= i < |cell| ==>
      (Cards(cell, Toggle(sel, id))[i].isSelected != Cards(cell, sel)[i].isSelected <==> cell[i].id == id)
  {
  }

  /** The grid and the personal timetable agree: a card is marked exactly
      when its course is among the resolved selected courses. */
  lemma MarkedIffSelected(catalog: seq<Course>, f: FilterState, sel: seq<int>, d: Day, t: TimeSlot)
    ensures forall card :: card in Cards(Cell(FilteredCourses(catalog, f), d, t), sel) ==>
      (card.isSelected <==> card.course in SelectedCourses(catalog, sel))
  {
    var cell := Cell(FilteredCourses(catalog, f), d, t);
    var cards := Cards(cell, sel);
    forall card | card in cards
      ensures card.isSelected <==> card.course in SelectedCourses(catalog, sel)
    {
      var i :| 0 <= i < |cards| && cards[i] == card;
      assert cell[i] in cell;
    }
  }

  /** A course shows up in a cell of the browsing grid exactly when it is in
      the catalog, passes the filter, and has that cell's day and period. */
  lemma FilteredCell(catalog: seq<Course>, f: FilterState, d: Day, t: TimeSlot, c: Course)
    ensures c in Cell(FilteredCourses(catalog, f), d, t) <==>
      c in catalog && Accepts(f, c) && c.day == d && c.timeSlot == t
  {
  }
}
