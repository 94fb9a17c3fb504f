/** The domain of the timetable: weekdays, periods, grade bands and course
    records (types.ts), together with the ordered `DAYS` and `TIME_SLOTS`
    lists the components iterate over. */
module Types {
  import opened Seqs
  import opened Wrappers

  /** The five school days, Sunday to Thursday, in declaration order. */
  datatype Day = Rishon | Sheni | Shlishi | Revii | Hamishi

  /** The six periods of a school day, in declaration order. */
  datatype TimeSlot = Slot1 | Slot2 | Slot3 | Slot4 | Slot5 | Slot6

  /** A grade band. Its values live in a constants file that is not part of
      this model, so a band is known only by its label. */
  datatype GradeLevel = GradeLevel(band: string)

  /** One course offering. Several courses may share a (day, timeSlot) cell. */
  datatype Course = Course(
    id: int,
    name: string,
    details: string,
    day: Day,
    timeSlot: TimeSlot,
    gradeLevel: GradeLevel)

  /** The iteration order of the day columns; assumed to follow the order of
      the `Day` union. */
  const DAYS: seq<Day> := [Rishon, Sheni, Shlishi, Revii, Hamishi]

  /** The iteration order of the period rows; assumed to follow the order of
      the `TimeSlot` union. */
  const TIME_SLOTS: seq<TimeSlot> := [Slot1, Slot2, Slot3, Slot4, Slot5, Slot6]

  /** Position of a day in `DAYS`. */
  function DayIndex(d: Day): (i: nat)
    ensures i < |DAYS| && DAYS[i] == d
  {
    match d
    case Rishon => 0
    case Sheni => 1
    case Shlishi => 2
    case Revii => 3
    case Hamishi => 4
  }

  /** Position of a period in `TIME_SLOTS`; the sort key of the personal schedule. */
  function SlotIndex(t: TimeSlot): (i: nat)
    ensures i < |TIME_SLOTS| && TIME_SLOTS[i] == t
  {
    match t
    case Slot1 => 0
    case Slot2 => 1
    case Slot3 => 2
    case Slot4 => 3
    case Slot5 => 4
    case Slot6 => 5
  }

  /** The string a day has in the source's union type. */
  function DayLabel(d: Day): string {
    match d
    case Rishon => "ראשון"
    case Sheni => "שני"
    case Shlishi => "שלישי"
    case Revii => "רביעי"
    case Hamishi => "חמישי"
  }

  /** Common prefix of every period label ("hour "). */
  const SLOT_PREFIX: string := "שעה "

  /** The string a period has in the source's union type: the prefix followed
      by the period's number. */
  function SlotLabel(t: TimeSlot): string {
    SLOT_PREFIX + [('1' as int + SlotIndex(t)) as char]
  }

  /** Reads a day back from its label; `None` for any other string. */
  function ParseDay(s: string): (r: Option<Day>)
    ensures r.Some? ==> DayLabel(r.value) == s
    ensures forall d :: DayLabel(d) == s ==> r == Some(d)
  {
    if s == DayLabel(Rishon) then Some(Rishon)
    else if s == DayLabel(Sheni) then Some(Sheni)
    else if s == DayLabel(Shlishi) then Some(Shlishi)
    else if s == DayLabel(Revii) then Some(Revii)
    else if s == DayLabel(Hamishi) then Some(Hamishi)
    else None
  }

  /** Reads a period back from its label; `None` for any other string. */
  function ParseSlot(s: string): (r: Option<TimeSlot>)
    ensures r.Some? ==> SlotLabel(r.value) == s
    ensures forall t :: SlotLabel(t) == s ==> r == Some(t)
  {
    if |s| == |SLOT_PREFIX| + 1 && s[..|SLOT_PREFIX|] == SLOT_PREFIX && '1' <= s[|SLOT_PREFIX|] <= '6' then
      var r := Some(TIME_SLOTS[s[|SLOT_PREFIX|] as int - '1' as int]);
      assert s == SLOT_PREFIX + [s[|SLOT_PREFIX|]];
      r
    else None
  }

  /** `DAYS` lists every day exactly once, in ordinal order. */
  lemma DaysEnumerated()
    ensures |DAYS| == 5 && NoDup(DAYS)
    ensures forall d: Day :: d in DAYS
    ensures forall i :: 0 <= i < |DAYS| ==> DayIndex(DAYS[i]) == i
  {
    forall d: Day ensures d in DAYS {
      assert DAYS[DayIndex(d)] == d;
    }
  }

  /** `TIME_SLOTS` lists every period exactly once, in ordinal order. */
  lemma SlotsEnumerated()
    ensures |TIME_SLOTS| == 6 && NoDup(TIME_SLOTS)
    ensures forall t: TimeSlot :: t in TIME_SLOTS
    ensures forall i :: 0 <= i < |TIME_SLOTS| ==> SlotIndex(TIME_SLOTS[i]) == i
  {
    forall t: TimeSlot ensures t in TIME_SLOTS {
      assert TIME_SLOTS[SlotIndex(t)] == t;
    }
  }

  /** Lexicographic order on characters (code points). A plain JavaScript
      string comparison orders UTF-16 code units; the two agree on every
      string without characters above U+FFFF, the period labels included. */
  predicate LexLess(a: string, b: string) {
    if |a| == 0 then |b| > 0
    else if |b| == 0 then false
    else if a[0] != b[0] then a[0] < b[0]
    else LexLess(a[1..], b[1..])
  }

  lemma {:induction false} LexLessCommonPrefix(p: string, a: string, b: string)
    ensures LexLess(p + a, p + b) == LexLess(a, b)
    decreases |p|
  {
    if |p| > 0 {
      assert (p + a)[1..] == p[1..] + a;
      assert (p + b)[1..] == p[1..] + b;
      LexLessCommonPrefix(p[1..], a, b);
    } else {
      assert p + a == a && p + b == b;
    }
  }

  /** The period labels share a prefix and differ only in one trailing digit,
      so comparing the labels as strings orders them exactly as their
      ordinals: sorting by either gives the same order. */
  lemma SlotLabelOrder(a: TimeSlot, b: TimeSlot)
    ensures LexLess(SlotLabel(a), SlotLabel(b)) <==> SlotIndex(a) < SlotIndex(b)
  {
    var da := [('1' as int + SlotIndex(a)) as char];
    var db := [('1' as int + SlotIndex(b)) as char];
    LexLessCommonPrefix(SLOT_PREFIX, da, db);
  }
}
