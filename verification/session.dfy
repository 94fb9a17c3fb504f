/** The visitor's side of App.tsx put together: the selection, the link
    that mirrors it, and the two events that move them, the mount-time
    hydration and a click on a course card. Each event is followed by the
    write-back effect. */
module Session {
  import opened Seqs
  import opened Wrappers
  import opened Strings
  import opened Numbers
  import opened Types
  import opened Selection
  import opened ShareLink
  import opened MySchedule

  /** The selection and the `selected` parameter the location carries. */
  datatype State = State(sel: seq<int>, link: Option<string>)

  /** The link mirrors the selection. */
  predicate InSync(s: State) {
    NoDup(s.sel) && s.link == Encode(s.sel)
  }

  /** An event's outcome: the new state and whether a history entry was pushed. */
  datatype Step = Step(state: State, pushed: bool)

  /** The settled mount: hydrate from the link the page was opened with,
      then write back once. This is where the page comes to rest;
      `MountRun` below counts the history entries the effects push on the
      way there. */
  function Mount(link: Option<string>): (r: Step)
    ensures InSync(r.state)
    ensures r.pushed <==> link != Encode(r.state.sel)
  {
    var sel := Hydrate([], link);
    var w := WriteBack(link, sel);
    Step(State(sel, w.param), w.pushed)
  }

  /** A click on a course card: toggle its id, then write back. The link
      need not mirror the selection: the browser's Back button changes the
      address, and no `popstate` listener brings the selection along. */
  function Click(s: State, id: int): (r: Step)
    requires NoDup(s.sel)
    ensures InSync(r.state)
    ensures r.state.sel == Toggle(s.sel, id)
    ensures r.pushed <==> s.link != Encode(r.state.sel)
    ensures InSync(s) ==> r.pushed
  {
    var sel := Toggle(s.sel, id);
    assert (id in sel) != (id in s.sel);
    assert InSync(s) ==> Encode(sel) != s.link by {
      if InSync(s) && Encode(sel) == s.link {
        EncodeInjective(sel, s.sel);
      }
    }
    var w := WriteBack(s.link, sel);
    Step(State(sel, w.param), w.pushed)
  }

  /** After the Back button the address can already show the toggled
      selection; the click then pushes nothing. */
  lemma ClickAfterBack()
    ensures !Click(State([3, 7], Some("3")), 7).pushed
    ensures Click(State([3, 7], Some("3")), 7).state == State([3], Some("3"))
  {
    EncodeSingle(3);
    assert IntToString(3) == "3";
    assert Remove([3, 7], 7) == [3] by {
      assert [3, 7] == [3] + [7];
      FilterConcat(IsNot(7), [3], [7]);
    }
  }

  /** Under the settled mount, a link already in canonical form pushes
      nothing and is kept. */
  lemma MountCanonical(sel: seq<int>)
    requires NoDup(sel)
    ensures Mount(Encode(sel)) == Step(State(sel, Encode(sel)), false)
  {
    RoundTrip(sel);
  }

  /** Under the settled mount, a link listing an id twice is read as that id
      once and rewritten without the repeat. */
  lemma MountRewritesRepeats(i: int, value: string)
    requires value == IntToString(i) + [SEP] + IntToString(i)
    ensures Mount(Some(value)).state.sel == [i]
    ensures Mount(Some(value)).pushed
  {
    RepeatDecodes(i);
    EncodeSingle(i);
  }

  /** What the effects do on mount, counted push by push. The write-back
      effect first runs with the initial empty selection while the address
      still carries the parameter; hydration's new selection lands on the
      next render and runs the write-back again. A missing or empty
      parameter sets no selection, so there is no second run. */
  datatype MountTrace = MountTrace(state: State, pushes: nat)

  function MountRun(link: Option<string>): (r: MountTrace)
    ensures r.state == Mount(link).state
    ensures r.pushes == (if link.Some? then 1 else 0) + (if |r.state.sel| > 0 then 1 else 0)
  {
    var first := WriteBack(link, []);
    if link.Some? && link.value != "" then
      var sel := Decode(link.value);
      var second := WriteBack(first.param, sel);
      MountTrace(State(sel, second.param), (if first.pushed then 1 else 0) + (if second.pushed then 1 else 0))
    else
      MountTrace(State([], first.param), if first.pushed then 1 else 0)
  }

  /** A canonical link for a non-empty selection is pushed away and then
      pushed back: two history entries, where the settled mount has none. */
  lemma MountRunCanonical(sel: seq<int>)
    requires NoDup(sel) && |sel| > 0
    ensures MountRun(Encode(sel)) == MountTrace(State(sel, Encode(sel)), 2)
  {
    MountCanonical(sel);
  }

  lemma EncodeSingle(i: int)
    ensures Encode([i]) == Some(IntToString(i))
  {
    assert Numerals([i]) == [IntToString(i)];
  }

  lemma RepeatSplits(n: string)
    requires SEP !in n
    ensures Split(n + [SEP] + n, SEP) == [n, n]
  {
    SplitJoin([n, n], SEP);
    assert [n, n][1..] == [n];
  }

  lemma RepeatDecodes(i: int)
    ensures Decode(IntToString(i) + [SEP] + IntToString(i)) == [i]
  {
    var n := IntToString(i);
    RepeatSplits(n);
    assert Numerals([i, i]) == [n, n];
    ParseNumerals([i, i]);
    assert Dedupe([i, i]) == [i] by {
      assert [i, i][..1] == [i];
      assert [i][..0] == [];
    }
  }

  /** `hasSelection`: whether the "my timetable" button is enabled. */
  predicate HasSelection(s: State) {
    |s.sel| > 0
  }

  /** The button is enabled by ids alone, while the timetable lists only ids
      that resolve to courses: when no selected id names a course, the
      enabled button opens the empty-state message. */
  lemma DanglingSelectionOpensEmptyTimetable(catalog: seq<Course>, s: State)
    requires HasSelection(s)
    requires forall c :: c in catalog ==> c.id !in s.sel
    ensures ShowsEmptyState(GroupByDay(SelectedCourses(catalog, s.sel)))
  {
    var selected := SelectedCourses(catalog, s.sel);
    assert forall c :: c !in selected;
    assert multiset(selected) == multiset{};
    EmptyIffNoSelection(selected);
  }

  /** The timetable is non-empty exactly when some selected id names a course. */
  lemma TimetableShownIffResolvable(catalog: seq<Course>, sel: seq<int>)
    ensures ShowsShareButton(GroupByDay(SelectedCourses(catalog, sel))) <==>
      exists c :: c in catalog && c.id in sel
  {
    var selected := SelectedCourses(catalog, sel);
    EmptyIffNoSelection(selected);
    if |selected| > 0 {
      assert selected[0] in selected;
    }
  }
}
