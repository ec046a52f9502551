/** The logic of the roster screen (app/admin/components/SchedulesManagement.tsx):
    the shift and day tables, the conversions between a form and a roster
    row, the "substitutional" checkbox, and the grouping of the roster by
    day for display. Rendering, fetching and React state are not modelled. */
module SchedulesManagement {
  import opened Base
  import opened Text
  import opened Sorting
  import opened Entities
  import ScheduleRoutes

  datatype Shift = Shift(value: string, caption: string, startTime: string, endTime: string)

  /** `SHIFTS`: shift A runs 08:00-11:00, shift B 11:00-14:00. */
  const Shifts: seq<Shift> := [
    Shift("A", "Α΄ Βάρδια (08:00 - 11:00)", "08:00", "11:00"),
    Shift("B", "Β΄ Βάρδια (11:00 - 14:00)", "11:00", "14:00")
  ]

  datatype DayOption = DayOption(value: int, caption: string)

  /** `DAYS`: Monday to Saturday, then Sunday. */
  const Days: seq<DayOption> := [
    DayOption(1, "Δευτέρα"),
    DayOption(2, "Τρίτη"),
    DayOption(3, "Τετάρτη"),
    DayOption(4, "Πέμπτη"),
    DayOption(5, "Παρασκευή"),
    DayOption(6, "Σάββατο"),
    DayOption(0, "Κυριακή")
  ]

  /** The form's state. */
  datatype Form = Form(teacherId: string, locationId: string, isSubstitutional: bool, dayOfWeek: int, shift: string)

  /** The form after the "new entry" button or a successful save. */
  const EmptyForm := Form("", "", false, 1, "")

  // ---------------------------------------------------------------------
  // Shifts <-> times
  // ---------------------------------------------------------------------

  /** `SHIFTS.find(s => s.value === code)` */
  function ShiftByCode(code: string): Option<Shift> {
    Find(Shifts, (s: Shift) => s.value == code)
  }

  /** `SHIFTS.find(s => s.startTime === start && s.endTime === end)?.value || ""` */
  function ShiftOfTimes(start: string, end: string): string {
    match Find(Shifts, (s: Shift) => s.startTime == start && s.endTime == end)
    case Some(s) => s.value
    case None => ""
  }

  /** The shift tables: A and B are the only codes, with their fixed times. */
  lemma ShiftTable(code: string)
    ensures ShiftByCode(code).Some? <==> code == "A" || code == "B"
    ensures code == "A" ==>
      (ShiftByCode(code) == Some(Shifts[0]) && Shifts[0].startTime == "08:00" && Shifts[0].endTime == "11:00")
    ensures code == "B" ==>
      (ShiftByCode(code) == Some(Shifts[1]) && Shifts[1].startTime == "11:00" && Shifts[1].endTime == "14:00")
  {
    assert Shifts[1..] == [Shifts[1]] && Shifts[1..][1..] == [];
    assert Shifts[0].value == "A" && Shifts[1].value == "B";
  }

  /** Shift -> times -> shift is the identity, and a time pair that maps to a
      shift code is exactly that shift's pair; any other pair maps to "". */
  lemma ShiftRoundTrip(code: string, start: string, end: string)
    ensures ShiftByCode(code).Some? ==>
      ShiftOfTimes(ShiftByCode(code).value.startTime, ShiftByCode(code).value.endTime) == code
    ensures ShiftOfTimes(start, end) != "" ==>
      var s := ShiftByCode(ShiftOfTimes(start, end));
      s.Some? && s.value.startTime == start && s.value.endTime == end
    ensures ShiftOfTimes(start, end) == "" <==>
      !((start == "08:00" && end == "11:00") || (start == "11:00" && end == "14:00"))
  {
    ShiftTable(code);
    assert Shifts[1..] == [Shifts[1]] && Shifts[1..][1..] == [];
    assert "08:00" != "11:00";
    ShiftTable(ShiftOfTimes(start, end));
  }

  // ---------------------------------------------------------------------
  // Form <-> request and row
  // ---------------------------------------------------------------------

  /** The payload of `handleSubmit`; `None` when the form's shift is not a
      known code, in which case nothing is sent. */
  function SubmitPayload(form: Form): Option<ScheduleRoutes.ScheduleBody> {
    match ShiftByCode(form.shift)
    case None => None
    case Some(shift) =>
      Some(ScheduleRoutes.ScheduleBody(
        Str(form.teacherId), Str(form.locationId), Bool(form.isSubstitutional),
        Num(form.dayOfWeek), Str(shift.startTime), Str(shift.endTime)))
  }

  /** `handleEdit`: the form for an existing row. */
  function EditForm(s: Schedule): Form {
    Form(s.teacherId, match s.locationId case Some(l) => l case None => "",
         s.isSubstitutional, s.dayOfWeek, ShiftOfTimes(s.startTime, s.endTime))
  }

  /** The checkbox's `onChange`: ticking clears the location, unticking
      keeps it. */
  function ToggleSubstitutional(form: Form, checked: bool): (f: Form)
    ensures f.isSubstitutional == checked
    ensures checked ==> f.locationId == ""
    ensures !checked ==> f.locationId == form.locationId
    ensures f.teacherId == form.teacherId && f.dayOfWeek == form.dayOfWeek && f.shift == form.shift
  {
    form.(isSubstitutional := checked, locationId := if checked then "" else form.locationId)
  }

  /** A submitted form is created by `POST /api/schedules` exactly when a
      teacher is chosen and the entry is substitutional or has a location;
      the stored times are the chosen shift's, and a substitutional entry is
      stored without a location. */
  lemma SubmitThenCreate(form: Form)
    requires SubmitPayload(form).Some?
    ensures var r := ScheduleRoutes.Post(true, SubmitPayload(form).value);
      (r.Created? <==> form.teacherId != "" && (form.isSubstitutional || form.locationId != ""))
      && (r.Created? ==>
            r.value.startTime == Str(ShiftByCode(form.shift).value.startTime)
            && r.value.endTime == Str(ShiftByCode(form.shift).value.endTime)
            && r.value.teacherId == Str(form.teacherId)
            && r.value.dayOfWeek == Num(form.dayOfWeek)
            && r.value.isSubstitutional == Bool(form.isSubstitutional)
            && r.value.locationId == (if form.isSubstitutional then Null else Str(form.locationId)))
  {
    ShiftTable(form.shift);
    ScheduleRoutes.PostOutcomes(true, SubmitPayload(form).value);
  }

  /** Editing a row and saving it unchanged sends the row's own teacher,
      day and times when those times are a shift's; when they are not, the
      form has no shift and nothing is sent. A missing location becomes "". */
  lemma EditThenSubmit(s: Schedule)
    ensures EditForm(s).locationId == (if s.locationId.Some? then s.locationId.value else "")
    ensures SubmitPayload(EditForm(s)).Some? <==> ShiftOfTimes(s.startTime, s.endTime) != ""
    ensures SubmitPayload(EditForm(s)).Some? ==>
      var b := SubmitPayload(EditForm(s)).value;
      b.teacherId == Str(s.teacherId) && b.dayOfWeek == Num(s.dayOfWeek)
      && b.startTime == Str(s.startTime) && b.endTime == Str(s.endTime)
      && b.isSubstitutional == Bool(s.isSubstitutional)
  {
    ShiftRoundTrip(ShiftOfTimes(s.startTime, s.endTime), s.startTime, s.endTime);
    ShiftTable(ShiftOfTimes(s.startTime, s.endTime));
  }

  // ---------------------------------------------------------------------
  // Grouping by day
  // ---------------------------------------------------------------------

  /** The rows of day `d`, in input order. */
  function OnDay(schedules: seq<Schedule>, d: int): seq<Schedule> {
    Filter(schedules, (s: Schedule) => s.dayOfWeek == d)
  }

  /** The days that occur in the roster. */
  function DaysOf(schedules: seq<Schedule>): set<int> {
    set s | s in schedules :: s.dayOfWeek
  }

  /** What `getGroupedSchedules` builds: one group per day that occurs,
      holding that day's rows in input order. */
  function Grouped(schedules: seq<Schedule>): map<int, seq<Schedule>> {
    map d | d in DaysOf(schedules) :: OnDay(schedules, d)
  }

  /** A day that does not occur has no rows. */
  lemma OnDayEmpty(schedules: seq<Schedule>, d: int)
    requires d !in DaysOf(schedules)
    ensures OnDay(schedules, d) == []
  {
    assert forall x :: x in schedules ==> x.dayOfWeek in DaysOf(schedules);
    FilterKeepsNone(schedules, (s: Schedule) => s.dayOfWeek == d);
  }

  /** `groupedSchedules[d] || []` */
  function GroupOf(grouped: map<int, seq<Schedule>>, d: int): seq<Schedule> {
    if d in grouped then grouped[d] else []
  }

  lemma GroupedSnoc(schedules: seq<Schedule>, x: Schedule)
    ensures Grouped(schedules + [x]) ==
      Grouped(schedules)[x.dayOfWeek := GroupOf(Grouped(schedules), x.dayOfWeek) + [x]]
  {
    var g, g' := Grouped(schedules), Grouped(schedules + [x]);
    assert DaysOf(schedules + [x]) == DaysOf(schedules) + {x.dayOfWeek};
    forall d | d in g'
      ensures g'[d] == g[x.dayOfWeek := GroupOf(g, x.dayOfWeek) + [x]][d]
    {
      FilterSnoc(schedules, x, (s: Schedule) => s.dayOfWeek == d);
      if d !in DaysOf(schedules) {
        OnDayEmpty(schedules, d);
      }
    }
  }

  lemma GroupedEmpty()
    ensures Grouped([]) == map[]
  {
    assert DaysOf([]) == {};
  }

  /** The groups built row by row, as a fold over the roster. */
  function GroupRows(schedules: seq<Schedule>): map<int, seq<Schedule>> {
    if schedules == [] then map[]
    else
      var g, x := GroupRows(schedules[..|schedules| - 1]), schedules[|schedules| - 1];
      g[x.dayOfWeek := GroupOf(g, x.dayOfWeek) + [x]]
  }

  /** Building the groups row by row gives the closed form. */
  lemma {:induction false} GroupRowsIsGrouped(schedules: seq<Schedule>)
    ensures GroupRows(schedules) == Grouped(schedules)
  {
    if schedules == [] {
      GroupedEmpty();
    } else {
      var front, x := schedules[..|schedules| - 1], schedules[|schedules| - 1];
      GroupRowsIsGrouped(front);
      assert schedules == front + [x];
      GroupedSnoc(front, x);
    }
  }

  /** `getGroupedSchedules`: one pass over the roster that opens a group the
      first time a day is seen and appends each row to its day's group. */
  method GetGroupedSchedules(schedules: seq<Schedule>) returns (grouped: map<int, seq<Schedule>>)
    ensures grouped == Grouped(schedules)
  {
    grouped := map[];
    var i := 0;
    while i < |schedules|
      invariant 0 <= i <= |schedules|
      invariant grouped == GroupRows(schedules[..i])
    {
      var schedule := schedules[i];
      assert schedules[..i + 1][..i] == schedules[..i];
      ghost var next := grouped[schedule.dayOfWeek := GroupOf(grouped, schedule.dayOfWeek) + [schedule]];
      if schedule.dayOfWeek !in grouped {
        grouped := grouped[schedule.dayOfWeek := []];
      }
      grouped := grouped[schedule.dayOfWeek := grouped[schedule.dayOfWeek] + [schedule]];
      assert grouped == next;
      i := i + 1;
    }
    assert schedules[..i] == schedules;
    GroupRowsIsGrouped(schedules);
  }

  /** Each row is in exactly the group of its day, every group holds rows of
      its own day only, and appending rows appends to their groups, so a
      group keeps the input order. */
  lemma GroupMembership(schedules: seq<Schedule>, more: seq<Schedule>, d: int)
    ensures forall s :: s in schedules ==>
      s.dayOfWeek in Grouped(schedules) && s in Grouped(schedules)[s.dayOfWeek]
    ensures forall s :: s in GroupOf(Grouped(schedules), d) <==> s in schedules && s.dayOfWeek == d
    ensures GroupOf(Grouped(schedules + more), d) == GroupOf(Grouped(schedules), d) + GroupOf(Grouped(more), d)
  {
    FilterConcat(schedules, more, (s: Schedule) => s.dayOfWeek == d);
    if d !in DaysOf(schedules) { OnDayEmpty(schedules, d); }
    if d !in DaysOf(more) { OnDayEmpty(more, d); }
    if d !in DaysOf(schedules + more) { OnDayEmpty(schedules + more, d); }
  }

  /** Sum of the group sizes over a list of days. */
  function SizeOver(grouped: map<int, seq<Schedule>>, days: seq<int>): nat {
    if days == [] then 0 else |GroupOf(grouped, days[0])| + SizeOver(grouped, days[1..])
  }

  lemma {:induction false} SizeOverSnoc(schedules: seq<Schedule>, x: Schedule, days: seq<int>)
    requires forall i, j :: 0 <= i < j < |days| ==> days[i] != days[j]
    ensures SizeOver(Grouped(schedules + [x]), days)
      == SizeOver(Grouped(schedules), days) + (if x.dayOfWeek in days then 1 else 0)
  {
    if days != [] {
      GroupedSnoc(schedules, x);
      SizeOverSnoc(schedules, x, days[1..]);
      assert x.dayOfWeek in days <==> x.dayOfWeek == days[0] || x.dayOfWeek in days[1..];
      if x.dayOfWeek == days[0] { assert days[0] !in days[1..]; }
    }
  }

  /** The group sizes over distinct days that include every day of the
      roster add up to the roster's length: no row is lost or repeated. */
  lemma {:induction false} GroupSizesSum(schedules: seq<Schedule>, days: seq<int>)
    requires forall i, j :: 0 <= i < j < |days| ==> days[i] != days[j]
    requires forall s :: s in schedules ==> s.dayOfWeek in days
    ensures SizeOver(Grouped(schedules), days) == |schedules|
  {
    if schedules == [] {
      EmptySizeOver(days);
    } else {
      var front, last := schedules[..|schedules| - 1], schedules[|schedules| - 1];
      assert schedules == front + [last];
      GroupSizesSum(front, days);
      SizeOverSnoc(front, last, days);
    }
  }

  lemma {:induction false} EmptySizeOver(days: seq<int>)
    ensures SizeOver(Grouped([]), days) == 0
  {
    if days != [] { EmptySizeOver(days[1..]); }
  }

  /** The day numbers of the display table, in display order. */
  function DayValues(days: seq<DayOption>): (r: seq<int>)
    ensures |r| == |days| && forall i :: 0 <= i < |days| ==> r[i] == days[i].value
  {
    if days == [] then [] else [days[0].value] + DayValues(days[1..])
  }

  /** The display table lists Monday (1) to Saturday (6), then Sunday (0). */
  lemma DisplayedDayValues()
    ensures DayValues(Days) == [1, 2, 3, 4, 5, 6, 0]
  {
    var vs := DayValues(Days);
    assert vs[0] == 1 && vs[1] == 2 && vs[2] == 3 && vs[3] == 4;
    assert vs[4] == 5 && vs[5] == 6 && vs[6] == 0;
  }

  /** For a roster whose days are 0..6, the groups of the seven displayed
      days together hold every row once. */
  lemma DisplayedDaysCoverRoster(schedules: seq<Schedule>)
    requires forall s :: s in schedules ==> 0 <= s.dayOfWeek <= 6
    ensures SizeOver(Grouped(schedules), DayValues(Days)) == |schedules|
  {
    var vs := DayValues(Days);
    DisplayedDayValues();
    forall s | s in schedules ensures s.dayOfWeek in vs {
      assert s.dayOfWeek in {0, 1, 2, 3, 4, 5, 6};
    }
    GroupSizesSum(schedules, vs);
  }

  // ---------------------------------------------------------------------
  // The day-by-day display
  // ---------------------------------------------------------------------

  /** `a.startTime.localeCompare(b.startTime)` as an order. */
  predicate ByStart(a: Schedule, b: Schedule) {
    StrLe(a.startTime, b.startTime)
  }

  lemma ByStartIsTotalPreorder()
    ensures TotalPreorder(ByStart)
  {
    forall a: Schedule, b: Schedule ensures ByStart(a, b) || ByStart(b, a) {
      StrLeTotal(a.startTime, b.startTime);
    }
    forall a: Schedule, b: Schedule, c: Schedule | ByStart(a, b) && ByStart(b, c) ensures ByStart(a, c) {
      StrLeTransitive(a.startTime, b.startTime, c.startTime);
    }
  }

  datatype DaySection = DaySection(day: DayOption, entries: seq<Schedule>)

  /** The section of one day: the day's rows sorted by start time. */
  function Section(grouped: map<int, seq<Schedule>>, day: DayOption): (s: DaySection)
    ensures s.day == day && Sorted(s.entries, ByStart)
    ensures multiset(s.entries) == multiset(GroupOf(grouped, day.value))
  {
    ByStartIsTotalPreorder();
    DaySection(day, SortBy(GroupOf(grouped, day.value), ByStart))
  }

  /** The sections shown for `days`: one per day with rows, in table order,
      its rows sorted by start time. */
  function Sections(grouped: map<int, seq<Schedule>>, days: seq<DayOption>): (r: seq<DaySection>)
    ensures forall k :: 0 <= k < |r| ==>
      r[k].day in days && r[k].entries != []
      && Sorted(r[k].entries, ByStart)
      && multiset(r[k].entries) == multiset(GroupOf(grouped, r[k].day.value))
  {
    if days == [] then []
    else
      var rest := Sections(grouped, days[1..]);
      if GroupOf(grouped, days[0].value) == [] then rest
      else
        var first := Section(grouped, days[0]);
        assert |multiset(first.entries)| == |GroupOf(grouped, days[0].value)|;
        var r := [first] + rest;
        assert forall k :: 0 < k < |r| ==> r[k] == rest[k - 1];
        r
  }

  /** A day without rows gets no section. */
  lemma SectionsSkip(grouped: map<int, seq<Schedule>>, days: seq<DayOption>)
    requires days != [] && GroupOf(grouped, days[0].value) == []
    ensures Sections(grouped, days) == Sections(grouped, days[1..])
  {
  }

  /** A day with rows gets the first section, in front of the others. */
  lemma SectionsKeep(grouped: map<int, seq<Schedule>>, days: seq<DayOption>)
    requires days != [] && GroupOf(grouped, days[0].value) != []
    ensures Sections(grouped, days) == [Section(grouped, days[0])] + Sections(grouped, days[1..])
  {
  }

  /** Every day of the table whose group has rows gets a section. */
  lemma {:induction false} SectionsCoverDays(grouped: map<int, seq<Schedule>>, days: seq<DayOption>, d: DayOption)
    requires d in days && GroupOf(grouped, d.value) != []
    ensures exists k :: 0 <= k < |Sections(grouped, days)| && Sections(grouped, days)[k].day == d
  {
    var r, rest := Sections(grouped, days), Sections(grouped, days[1..]);
    var group := GroupOf(grouped, days[0].value);
    if group == [] {
      SectionsSkip(grouped, days);
    } else {
      SectionsKeep(grouped, days);
    }
    if d == days[0] {
      assert r[0].day == d;
    } else {
      assert d in days[1..];
      SectionsCoverDays(grouped, days[1..], d);
      var k :| 0 <= k < |rest| && rest[k].day == d;
      if group == [] {
        assert r[k].day == d;
      } else {
        assert r[k + 1] == rest[k];
      }
    }
  }

  /** The day of each section, in display order. */
  function SectionDays(r: seq<DaySection>): (ds: seq<DayOption>)
    ensures |ds| == |r| && forall k :: 0 <= k < |r| ==> ds[k] == r[k].day
  {
    if r == [] then [] else [r[0].day] + SectionDays(r[1..])
  }

  /** The sections follow the order of `days`, each day once, skipping
      exactly the days without rows. */
  lemma {:induction false} SectionsInTableOrder(grouped: map<int, seq<Schedule>>, days: seq<DayOption>)
    ensures SectionDays(Sections(grouped, days)) == Filter(days, (d: DayOption) => GroupOf(grouped, d.value) != [])
  {
    var keep := (d: DayOption) => GroupOf(grouped, d.value) != [];
    if days != [] {
      SectionsInTableOrder(grouped, days[1..]);
      assert Filter(days, keep) == (if keep(days[0]) then [days[0]] else []) + Filter(days[1..], keep);
      if GroupOf(grouped, days[0].value) == [] {
        SectionsSkip(grouped, days);
      } else {
        SectionsKeep(grouped, days);
        var r := Sections(grouped, days);
        assert r[1..] == Sections(grouped, days[1..]);
      }
    }
  }

  /** The display of the whole roster, Monday first and Sunday last. */
  function Display(grouped: map<int, seq<Schedule>>): seq<DaySection> {
    Sections(grouped, Days)
  }

  /** Each section of the display lists exactly the roster rows of its day,
      as many times as they occur, sorted by start time. */
  lemma DisplaySectionsAreDays(schedules: seq<Schedule>, k: nat)
    requires k < |Display(Grouped(schedules))|
    ensures var sec := Display(Grouped(schedules))[k];
      sec.day in Days && Sorted(sec.entries, ByStart)
      && multiset(sec.entries) == multiset(OnDay(schedules, sec.day.value))
      && forall x :: x in sec.entries <==> x in schedules && x.dayOfWeek == sec.day.value
  {
    var sec := Display(Grouped(schedules))[k];
    var d := sec.day.value;
    GroupMembership(schedules, [], d);
    if d !in DaysOf(schedules) { OnDayEmpty(schedules, d); }
    assert GroupOf(Grouped(schedules), d) == OnDay(schedules, d);
    forall x ensures x in sec.entries <==> x in GroupOf(Grouped(schedules), d) {
      assert x in sec.entries <==> x in multiset(sec.entries);
    }
  }

  /** Each day 0..6 has an entry in the display table. */
  lemma DayInTable(v: int) returns (d: DayOption)
    requires 0 <= v <= 6
    ensures d in Days && d.value == v
  {
    DisplayedDayValues();
    var vs := DayValues(Days);
    assert v in {0, 1, 2, 3, 4, 5, 6};
    assert v in vs;
    var i :| 0 <= i < |vs| && vs[i] == v;
    d := Days[i];
  }

  /** A row in the group of a table day is shown in that day's section. */
  lemma ShownInSection(grouped: map<int, seq<Schedule>>, d: DayOption, s: Schedule)
    requires d in Days && s in GroupOf(grouped, d.value)
    ensures exists k :: 0 <= k < |Display(grouped)| && Display(grouped)[k].day == d && s in Display(grouped)[k].entries
  {
    SectionsCoverDays(grouped, Days, d);
    var r := Display(grouped);
    var k :| 0 <= k < |r| && r[k].day == d;
    assert s in multiset(GroupOf(grouped, d.value));
    assert s in multiset(r[k].entries);
  }

  /** Every roster row on a day 0..6 is shown, in the section of its day. */
  lemma DisplayShowsRoster(schedules: seq<Schedule>, s: Schedule)
    requires s in schedules && 0 <= s.dayOfWeek <= 6
    ensures exists k :: (0 <= k < |Display(Grouped(schedules))|
      && Display(Grouped(schedules))[k].day.value == s.dayOfWeek
      && s in Display(Grouped(schedules))[k].entries)
  {
    var d := DayInTable(s.dayOfWeek);
    GroupMembership(schedules, [], s.dayOfWeek);
    ShownInSection(Grouped(schedules), d, s);
  }

  /** Submitting the form as reset after a save or by the "new entry"
      button sends nothing: its shift is "", which is no shift code. */
  lemma EmptyFormSendsNothing()
    ensures SubmitPayload(EmptyForm) == None
  {
    ShiftTable(EmptyForm.shift);
  }
}
