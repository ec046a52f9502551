/** The "who is on duty now" resolver behind `GET /api/schedules/current`
    (app/api/schedules/current/route.ts). Given the current day of the week,
    the "HH:MM" time and the "YYYY-MM-DD" date, it selects the roster slots
    active now, collects today's absences, and replaces each absent teacher
    by a teacher from the pool of substitutional teachers, taken round-robin
    with a counter that starts at zero on every request and advances once per
    substituted slot.

    The three database queries are inputs: `schedules` (all roster rows),
    `absences` (all absence rows) and `pool` (the rows of the distinct
    substitutional query, in whatever order the database returns them). */
module CurrentDuty {
  import opened Base
  import opened Text
  import opened Entities

  /** The clock reading in the school's time zone. */
  datatype Clock = Clock(day: int, time: string, date: string)

  /** What a substituted slot carries besides the new teacher. */
  datatype Cover = Cover(originalTeacher: Teacher, absenceReason: Option<string>)

  /** One entry of the response: the roster row as it was spread into the
      result (`...schedule`, so `slot.teacherId` still names the rostered
      teacher), the `teacher` key that may override it, the `isSubstitute`
      flag, and the `originalTeacher`/`absenceReason` keys of a substitution. */
  datatype Duty = Duty(slot: Schedule, teacher: Teacher, isSubstitute: bool, cover: Option<Cover>)

  // ---------------------------------------------------------------------
  // The three queries' filters and today's absence lookups
  // ---------------------------------------------------------------------

  /** The `where` clause of the roster query: a regular slot on today's day
      whose window contains the current time, both ends included. */
  predicate ActiveNow(s: Schedule, now: Clock) {
    s.dayOfWeek == now.day
    && StrLe(s.startTime, now.time)
    && StrLe(now.time, s.endTime)
    && !s.isSubstitutional
  }

  function Candidates(schedules: seq<Schedule>, now: Clock): seq<Schedule> {
    Filter(schedules, (s: Schedule) => ActiveNow(s, now))
  }

  function TodaysAbsences(absences: seq<Absence>, now: Clock): seq<Absence> {
    Filter(absences, (a: Absence) => a.date == now.date)
  }

  /** `new Set(todayAbsences.map(a => a.teacherId))` */
  function AbsentIds(absences: seq<Absence>): set<string> {
    set a | a in absences :: a.teacherId
  }

  /** `new Map(todayAbsences.map(a => [a.teacherId, a]))`: the entries are
      inserted in list order, so a later absence of a teacher replaces an
      earlier one. */
  function AbsenceMap(absences: seq<Absence>): (m: map<string, Absence>)
    ensures m.Keys == AbsentIds(absences)
    ensures forall t :: t in m ==> m[t] in absences && m[t].teacherId == t
  {
    if absences == [] then map[]
    else
      var front, last := absences[..|absences| - 1], absences[|absences| - 1];
      assert absences == front + [last];
      AbsenceMap(front)[last.teacherId := last]
  }

  /** When absence `i` is the last one of its teacher, the map holds it. */
  lemma {:induction false} LastAbsenceWins(absences: seq<Absence>, i: nat)
    requires i < |absences|
    requires forall j :: i < j < |absences| ==> absences[j].teacherId != absences[i].teacherId
    ensures absences[i].teacherId in AbsenceMap(absences)
    ensures AbsenceMap(absences)[absences[i].teacherId] == absences[i]
  {
    var n := |absences|;
    var front, last := absences[..n - 1], absences[n - 1];
    assert AbsenceMap(absences) == AbsenceMap(front)[last.teacherId := last];
    if i < n - 1 {
      assert front[i] == absences[i];
      assert last.teacherId != absences[i].teacherId;
      LastAbsenceWins(front, i);
    }
  }

  // ---------------------------------------------------------------------
  // The substitute pool
  // ---------------------------------------------------------------------

  /** What the `distinct: ['teacherId']` query over substitutional rows
      returns: substitutional rows, one per teacher, covering every teacher
      that has a substitutional row on any day at any time. */
  predicate IsSubstitutePool(pool: seq<Schedule>, schedules: seq<Schedule>) {
    (forall i :: 0 <= i < |pool| ==> pool[i] in schedules && pool[i].isSubstitutional)
    && DistinctTeachers(pool)
    && (forall s :: s in schedules && s.isSubstitutional ==> exists p :: p in pool && p.teacherId == s.teacherId)
  }

  /** The first row of each teacher not yet in `seen`, in input order. */
  function FirstPerTeacher(rows: seq<Schedule>, seen: set<string>): (r: seq<Schedule>)
    ensures forall x :: x in r ==> x in rows && x.teacherId !in seen
  {
    if rows == [] then []
    else if rows[0].teacherId in seen then FirstPerTeacher(rows[1..], seen)
    else [rows[0]] + FirstPerTeacher(rows[1..], seen + {rows[0].teacherId})
  }

  /** No teacher has two rows in `rows`. */
  predicate DistinctTeachers(rows: seq<Schedule>) {
    forall i, j :: 0 <= i < j < |rows| ==> rows[i].teacherId != rows[j].teacherId
  }

  /** Putting a row of a new teacher in front keeps the teachers distinct. */
  lemma ConsDistinct(x: Schedule, rest: seq<Schedule>)
    requires DistinctTeachers(rest)
    requires forall y :: y in rest ==> y.teacherId != x.teacherId
    ensures DistinctTeachers([x] + rest)
  {
    var r := [x] + rest;
    forall i, j | 0 <= i < j < |r| ensures r[i].teacherId != r[j].teacherId {
      assert r[j] == rest[j - 1] && rest[j - 1] in rest;
      if i > 0 { assert r[i] == rest[i - 1]; }
    }
  }

  /** No teacher appears twice in `FirstPerTeacher`. */
  lemma {:induction false} FirstPerTeacherDistinct(rows: seq<Schedule>, seen: set<string>)
    ensures DistinctTeachers(FirstPerTeacher(rows, seen))
  {
    if rows != [] {
      var seen' := seen + {rows[0].teacherId};
      if rows[0].teacherId in seen {
        FirstPerTeacherDistinct(rows[1..], seen);
      } else {
        FirstPerTeacherDistinct(rows[1..], seen');
        ConsDistinct(rows[0], FirstPerTeacher(rows[1..], seen'));
      }
    }
  }

  /** Every teacher of `rows` not in `seen` appears in `FirstPerTeacher`. */
  lemma {:induction false} FirstPerTeacherCovers(rows: seq<Schedule>, seen: set<string>, s: Schedule)
    requires s in rows && s.teacherId !in seen
    ensures exists x :: x in FirstPerTeacher(rows, seen) && x.teacherId == s.teacherId
  {
    if rows[0].teacherId in seen {
      FirstPerTeacherCovers(rows[1..], seen, s);
    } else if s.teacherId != rows[0].teacherId {
      FirstPerTeacherCovers(rows[1..], seen + {rows[0].teacherId}, s);
      var x :| x in FirstPerTeacher(rows[1..], seen + {rows[0].teacherId}) && x.teacherId == s.teacherId;
      assert x in FirstPerTeacher(rows, seen);
    } else {
      assert FirstPerTeacher(rows, seen)[0] == rows[0];
    }
  }

  /** One pool the database may return: the first substitutional row of each
      teacher. Any pool in another order serves the resolver equally. */
  function SubstitutePool(schedules: seq<Schedule>): (pool: seq<Schedule>)
    ensures IsSubstitutePool(pool, schedules)
  {
    var rows := Filter(schedules, (s: Schedule) => s.isSubstitutional);
    FirstPerTeacherDistinct(rows, {});
    forall s | s in schedules && s.isSubstitutional
      ensures exists p :: p in FirstPerTeacher(rows, {}) && p.teacherId == s.teacherId
    {
      FirstPerTeacherCovers(rows, {}, s);
    }
    FirstPerTeacher(rows, {})
  }

  // ---------------------------------------------------------------------
  // The slot pass
  // ---------------------------------------------------------------------

  /** Number of slots whose teacher is absent. */
  function AbsentCount(slots: seq<Schedule>, absent: set<string>): (n: nat)
    ensures n <= |slots|
  {
    if slots == [] then 0
    else AbsentCount(slots[..|slots| - 1], absent) + (if slots[|slots| - 1].teacherId in absent then 1 else 0)
  }

  lemma AbsentCountStep(slots: seq<Schedule>, absent: set<string>, i: nat)
    requires i < |slots|
    ensures AbsentCount(slots[..i + 1], absent) == AbsentCount(slots[..i], absent) + (if slots[i].teacherId in absent then 1 else 0)
  {
    assert slots[..i + 1][..i] == slots[..i];
  }

  /** How one slot is rewritten when the counter stands at `k`. */
  function ResolveSlot(s: Schedule, absent: set<string>, absences: map<string, Absence>,
                       pool: seq<Schedule>, k: nat): Duty
  {
    if s.teacherId in absent && |pool| > 0 then
      var reason := if s.teacherId in absences then absences[s.teacherId].reason else None;
      Duty(s, pool[k % |pool|].teacher, true, Some(Cover(s.teacher, reason)))
    else
      Duty(s, s.teacher, false, None)
  }

  /** The outcome of the slot pass in closed form: slot `i` is resolved with
      the counter equal to the number of absent-teacher slots before it. */
  function Resolution(slots: seq<Schedule>, absent: set<string>, absences: map<string, Absence>,
                      pool: seq<Schedule>): seq<Duty>
  {
    seq(|slots|, i requires 0 <= i < |slots| =>
      ResolveSlot(slots[i], absent, absences, pool, AbsentCount(slots[..i], absent)))
  }

  /** Resolving one more slot appends its entry, resolved with the count of
      absent-teacher slots before it. */
  lemma ResolutionSnoc(slots: seq<Schedule>, absent: set<string>, absences: map<string, Absence>,
                       pool: seq<Schedule>, n: nat)
    requires n < |slots|
    ensures Resolution(slots[..n + 1], absent, absences, pool)
      == Resolution(slots[..n], absent, absences, pool)
         + [ResolveSlot(slots[n], absent, absences, pool, AbsentCount(slots[..n], absent))]
  {
    var longer := slots[..n + 1];
    var r1, r0 := Resolution(longer, absent, absences, pool), Resolution(slots[..n], absent, absences, pool);
    var e := ResolveSlot(slots[n], absent, absences, pool, AbsentCount(slots[..n], absent));
    forall j | 0 <= j < n ensures r1[j] == r0[j] {
      assert longer[..j] == slots[..j] && slots[..n][..j] == slots[..j];
    }
    assert r1[n] == e by {
      assert longer[..n] == slots[..n];
    }
    assert r1 == r0 + [e];
  }

  /** The `schedules.map(...)` pass with its request-local
      `substitutionalIndex` counter. */
  method ResolveSlots(slots: seq<Schedule>, absent: set<string>, absences: map<string, Absence>,
                      pool: seq<Schedule>) returns (duties: seq<Duty>)
    ensures duties == Resolution(slots, absent, absences, pool)
  {
    var substitutionalIndex: nat := 0;
    duties := [];
    var i := 0;
    while i < |slots|
      invariant 0 <= i <= |slots|
      invariant duties == Resolution(slots[..i], absent, absences, pool)
      invariant substitutionalIndex == if |pool| > 0 then AbsentCount(slots[..i], absent) else 0
    {
      var schedule := slots[i];
      ghost var before := AbsentCount(slots[..i], absent);
      AbsentCountStep(slots, absent, i);
      ResolutionSnoc(slots, absent, absences, pool, i);
      var duty := Duty(schedule, schedule.teacher, false, None);
      if schedule.teacherId in absent {
        var absence := if schedule.teacherId in absences then Some(absences[schedule.teacherId]) else None;
        if |pool| > 0 {
          var substitute := pool[substitutionalIndex % |pool|];
          substitutionalIndex := substitutionalIndex + 1;
          var reason := if absence.Some? then absence.value.reason else None;
          duty := Duty(schedule, substitute.teacher, true, Some(Cover(schedule.teacher, reason)));
        }
      }
      assert duty == ResolveSlot(schedule, absent, absences, pool, before);
      duties := duties + [duty];
      i := i + 1;
    }
    assert slots[..i] == slots;
  }

  /** Everything the handler computes from its three query results: the
      specification of GetCurrent, which is the handler itself. */
  function OnDuty(now: Clock, schedules: seq<Schedule>, absences: seq<Absence>,
                  pool: seq<Schedule>): seq<Duty>
  {
    var today := TodaysAbsences(absences, now);
    Resolution(Candidates(schedules, now), AbsentIds(today), AbsenceMap(today), pool)
  }

  /** `GET /api/schedules/current` after the clock has been read; its slot
      pass is the ResolveSlots loop, and OnDuty is its specification. */
  method GetCurrent(now: Clock, schedules: seq<Schedule>, absences: seq<Absence>,
                    pool: seq<Schedule>) returns (duties: seq<Duty>)
    ensures duties == OnDuty(now, schedules, absences, pool)
  {
    var slots := Candidates(schedules, now);
    var todayAbsences := TodaysAbsences(absences, now);
    var absentTeacherIds := AbsentIds(todayAbsences);
    var absenceMap := AbsenceMap(todayAbsences);
    duties := ResolveSlots(slots, absentTeacherIds, absenceMap, pool);
  }

  // ---------------------------------------------------------------------
  // Properties of the slot pass
  // ---------------------------------------------------------------------

  /** Number of entries flagged `isSubstitute`. */
  function SubstitutedCount(duties: seq<Duty>): (n: nat)
    ensures n <= |duties|
  {
    if duties == [] then 0
    else SubstitutedCount(duties[..|duties| - 1]) + (if duties[|duties| - 1].isSubstitute then 1 else 0)
  }

  lemma SubstitutedCountStep(duties: seq<Duty>, k: nat)
    requires k < |duties|
    ensures SubstitutedCount(duties[..k + 1]) == SubstitutedCount(duties[..k]) + (if duties[k].isSubstitute then 1 else 0)
  {
    assert duties[..k + 1][..k] == duties[..k];
  }

  /** Counting flags over a longer prefix never gives less. */
  lemma {:induction false} SubstitutedCountMonotone(duties: seq<Duty>, a: nat, b: nat)
    requires a <= b <= |duties|
    ensures SubstitutedCount(duties[..a]) <= SubstitutedCount(duties[..b])
    decreases b - a
  {
    if a < b {
      SubstitutedCountStep(duties, a);
      SubstitutedCountMonotone(duties, a + 1, b);
    }
  }

  /** A substituted entry at `i` makes every later prefix count more. */
  lemma LaterCountsMore(duties: seq<Duty>, i: nat, j: nat)
    requires i < j <= |duties| && duties[i].isSubstitute
    ensures SubstitutedCount(duties[..i]) < SubstitutedCount(duties[..j])
  {
    SubstitutedCountStep(duties, i);
    SubstitutedCountMonotone(duties, i + 1, j);
  }

  /** With only unflagged entries after a flagged one at `i`, every prefix
      up to `j` counts exactly one more than the prefix before `i`. */
  lemma {:induction false} NoneBetween(duties: seq<Duty>, i: nat, j: nat)
    requires i < j <= |duties| && duties[i].isSubstitute
    requires forall k :: i < k < j ==> !duties[k].isSubstitute
    ensures SubstitutedCount(duties[..j]) == SubstitutedCount(duties[..i]) + 1
  {
    if j == i + 1 {
      SubstitutedCountStep(duties, i);
    } else {
      NoneBetween(duties, i, j - 1);
      SubstitutedCountStep(duties, j - 1);
    }
  }

  /** With a non-empty pool, the counter before slot `n` equals the number of
      substituted entries before it. */
  lemma {:induction false} CounterCountsSubstitutions(slots: seq<Schedule>, absent: set<string>,
                                                      absences: map<string, Absence>, pool: seq<Schedule>, n: nat)
    requires |pool| > 0 && n <= |slots|
    ensures SubstitutedCount(Resolution(slots, absent, absences, pool)[..n]) == AbsentCount(slots[..n], absent)
  {
    if n > 0 {
      var r := Resolution(slots, absent, absences, pool);
      CounterCountsSubstitutions(slots, absent, absences, pool, n - 1);
      SubstitutedCountStep(r, n - 1);
      AbsentCountStep(slots, absent, n - 1);
      SlotShape(slots, absent, absences, pool, n - 1);
    }
  }

  /** The slot pass keeps every candidate, in order, with its row unchanged;
      it flags exactly the slots of absent teachers when the pool is
      non-empty; an unflagged slot keeps its teacher and carries no
      substitution; a flagged one names the rostered teacher as original and
      the reason of the absence the map holds for them. */
  lemma SlotShape(slots: seq<Schedule>, absent: set<string>, absences: map<string, Absence>,
                  pool: seq<Schedule>, i: nat)
    requires i < |slots|
    ensures var r := Resolution(slots, absent, absences, pool);
      |r| == |slots|
      && r[i].slot == slots[i]
      && (r[i].isSubstitute <==> slots[i].teacherId in absent && |pool| > 0)
      && (!r[i].isSubstitute ==> r[i].teacher == slots[i].teacher && r[i].cover == None)
      && (r[i].isSubstitute && slots[i].teacherId in absences ==>
            r[i].cover == Some(Cover(slots[i].teacher, absences[slots[i].teacherId].reason)))
  {
  }

  /** Round-robin: the substituted entry with `k` substituted entries before
      it is covered by `pool[k % |pool|]`. In particular the first
      substituted entry of every call gets `pool[0]`. */
  lemma RoundRobin(slots: seq<Schedule>, absent: set<string>, absences: map<string, Absence>,
                   pool: seq<Schedule>, i: nat)
    requires i < |slots|
    requires Resolution(slots, absent, absences, pool)[i].isSubstitute
    ensures var r := Resolution(slots, absent, absences, pool);
      |pool| > 0 && r[i].teacher == pool[SubstitutedCount(r[..i]) % |pool|].teacher
  {
    CounterCountsSubstitutions(slots, absent, absences, pool, i);
  }

  /** Two substituted entries with none between them are covered by
      consecutive pool members, even when both belong to the same absent
      teacher: the counter advances per slot, not per absence. */
  lemma ConsecutiveSubstitutes(slots: seq<Schedule>, absent: set<string>, absences: map<string, Absence>,
                               pool: seq<Schedule>, i: nat, j: nat)
    requires i < j < |slots|
    requires var r := Resolution(slots, absent, absences, pool);
      r[i].isSubstitute && r[j].isSubstitute && forall k :: i < k < j ==> !r[k].isSubstitute
    ensures var r := Resolution(slots, absent, absences, pool);
      |pool| > 0 && r[j].teacher == pool[(SubstitutedCount(r[..i]) + 1) % |pool|].teacher
  {
    var r := Resolution(slots, absent, absences, pool);
    RoundRobin(slots, absent, absences, pool, j);
    NoneBetween(r, i, j);
  }

  /** Two substituted entries: the later one has seen more substitutions
      before it, and while there are no more absent-teacher slots than pool
      members both counts stay below the pool size. */
  lemma OrdinalsBelowPool(slots: seq<Schedule>, absent: set<string>, absences: map<string, Absence>,
                          pool: seq<Schedule>, i: nat, j: nat)
    requires |pool| > 0 && AbsentCount(slots, absent) <= |pool|
    requires i < j < |slots|
    requires var r := Resolution(slots, absent, absences, pool);
      r[i].isSubstitute && r[j].isSubstitute
    ensures var r := Resolution(slots, absent, absences, pool);
      SubstitutedCount(r[..i]) < SubstitutedCount(r[..j]) < |pool|
  {
    var r := Resolution(slots, absent, absences, pool);
    LaterCountsMore(r, i, j);
    LaterCountsMore(r, j, |r|);
    CounterCountsSubstitutions(slots, absent, absences, pool, |slots|);
    assert slots[..|slots|] == slots;
  }

  /** Pool rows of distinct teachers, joined with their teacher, name
      distinct teachers. */
  lemma PoolTeachersDistinct(pool: seq<Schedule>, a: nat, b: nat)
    requires DistinctTeachers(pool) && forall p :: p in pool ==> Joined(p)
    requires a < b < |pool|
    ensures pool[a].teacher != pool[b].teacher
  {
    assert pool[a] in pool && pool[b] in pool;
  }

  /** While there are no more absent-teacher slots than pool members, no two
      slots share a substitute. */
  lemma DistinctSubstitutes(slots: seq<Schedule>, absent: set<string>, absences: map<string, Absence>,
                            pool: seq<Schedule>, i: nat, j: nat)
    requires DistinctTeachers(pool) && forall p :: p in pool ==> Joined(p)
    requires AbsentCount(slots, absent) <= |pool|
    requires i < j < |slots|
    requires var r := Resolution(slots, absent, absences, pool);
      r[i].isSubstitute && r[j].isSubstitute
    ensures var r := Resolution(slots, absent, absences, pool);
      r[i].teacher != r[j].teacher
  {
    var r := Resolution(slots, absent, absences, pool);
    RoundRobin(slots, absent, absences, pool, i);
    RoundRobin(slots, absent, absences, pool, j);
    OrdinalsBelowPool(slots, absent, absences, pool, i, j);
    var ki, kj := SubstitutedCount(r[..i]), SubstitutedCount(r[..j]);
    SmallMod(ki, |pool|);
    SmallMod(kj, |pool|);
    PoolTeachersDistinct(pool, ki, kj);
  }

  lemma SmallMod(k: nat, n: nat)
    requires k < n
    ensures k % n == k
  {
  }

  /** With an empty pool nothing is substituted and nothing is dropped: the
      response is the candidate list with the rostered teachers. */
  lemma EmptyPoolKeepsRoster(slots: seq<Schedule>, absent: set<string>, absences: map<string, Absence>)
    ensures var r := Resolution(slots, absent, absences, []);
      |r| == |slots| && forall i :: 0 <= i < |slots| ==> r[i] == Duty(slots[i], slots[i].teacher, false, None)
  {
  }

  // ---------------------------------------------------------------------
  // Properties of the whole handler
  // ---------------------------------------------------------------------

  /** On well-formed "HH:MM" strings the roster filter is the chronological
      test "start <= now <= end", both ends included. */
  lemma ActiveNowChronological(s: Schedule, now: Clock)
    requires IsTime(s.startTime) && IsTime(s.endTime) && IsTime(now.time)
    ensures ActiveNow(s, now) <==>
      s.dayOfWeek == now.day && !s.isSubstitutional
      && Minutes(s.startTime) <= Minutes(now.time) <= Minutes(s.endTime)
  {
    TimeOrder(s.startTime, now.time);
    TimeOrder(now.time, s.endTime);
  }

  /** Every reported entry is a roster row active now. */
  lemma OnlyActiveSlots(now: Clock, schedules: seq<Schedule>, absences: seq<Absence>, pool: seq<Schedule>, i: nat)
    requires i < |OnDuty(now, schedules, absences, pool)|
    ensures var d := OnDuty(now, schedules, absences, pool)[i];
      d.slot in schedules && ActiveNow(d.slot, now)
  {
    var slots := Candidates(schedules, now);
    var today := TodaysAbsences(absences, now);
    SlotShape(slots, AbsentIds(today), AbsenceMap(today), pool, i);
    assert slots[i] in slots;
  }

  /** Every roster row active now is reported. */
  lemma ActiveSlotsReported(now: Clock, schedules: seq<Schedule>, absences: seq<Absence>, pool: seq<Schedule>,
                            s: Schedule)
    requires s in schedules && ActiveNow(s, now)
    ensures exists d :: d in OnDuty(now, schedules, absences, pool) && d.slot == s
  {
    var slots := Candidates(schedules, now);
    var today := TodaysAbsences(absences, now);
    var r := OnDuty(now, schedules, absences, pool);
    assert s in slots;
    var i :| 0 <= i < |slots| && slots[i] == s;
    SlotShape(slots, AbsentIds(today), AbsenceMap(today), pool, i);
    assert r[i] in r;
  }

  /** An entry is flagged exactly when its rostered teacher has an absence
      dated today and the pool is non-empty. */
  lemma SubstitutedIffAbsentToday(now: Clock, schedules: seq<Schedule>, absences: seq<Absence>,
                                  pool: seq<Schedule>, i: nat)
    requires i < |OnDuty(now, schedules, absences, pool)|
    ensures var d := OnDuty(now, schedules, absences, pool)[i];
      d.isSubstitute <==>
        |pool| > 0 && exists a :: a in absences && a.date == now.date && a.teacherId == d.slot.teacherId
  {
    var d := OnDuty(now, schedules, absences, pool)[i];
    var today := TodaysAbsences(absences, now);
    if d.isSubstitute {
      var a :| a in today && a.teacherId == d.slot.teacherId;
      assert a in absences && a.date == now.date;
    }
    if |pool| > 0 && exists a :: a in absences && a.date == now.date && a.teacherId == d.slot.teacherId {
      var a :| a in absences && a.date == now.date && a.teacherId == d.slot.teacherId;
      assert a in today;
    }
  }

  /** An absence dated today after position `j` belongs to another teacher
      than absence `j`, when `j` is its teacher's last absence today. */
  lemma LaterAbsenceOfToday(absences: seq<Absence>, now: Clock, j: nat, b: Absence)
    requires j < |absences|
    requires forall k :: j < k < |absences| && absences[k].date == now.date ==>
      absences[k].teacherId != absences[j].teacherId
    requires b in absences[j + 1..] && b.date == now.date
    ensures b.teacherId != absences[j].teacherId
  {
    var back := absences[j + 1..];
    var m :| 0 <= m < |back| && back[m] == b;
    assert absences[j + 1 + m] == b;
  }

  /** Today's absences split around absence `j`, which is dated today: the
      ones up to and including it, then today's absences after it. */
  lemma TodaySplit(absences: seq<Absence>, now: Clock, j: nat) returns (pre: seq<Absence>, post: seq<Absence>)
    requires j < |absences| && absences[j].date == now.date
    ensures TodaysAbsences(absences, now) == pre + post
    ensures |pre| > 0 && pre[|pre| - 1] == absences[j]
    ensures forall b :: b in post ==> b in absences[j + 1..] && b.date == now.date
  {
    var p := (a: Absence) => a.date == now.date;
    var front, back := absences[..j], absences[j + 1..];
    assert absences == front + [absences[j]] + back;
    FilterConcat(front + [absences[j]], back, p);
    FilterSnoc(front, absences[j], p);
    pre, post := Filter(front, p) + [absences[j]], Filter(back, p);
  }

  /** Today's absence map holds, for a teacher, their last absence dated
      today. */
  lemma MapHoldsLastOfToday(absences: seq<Absence>, now: Clock, j: nat)
    requires j < |absences| && absences[j].date == now.date
    requires forall k :: j < k < |absences| && absences[k].date == now.date ==>
      absences[k].teacherId != absences[j].teacherId
    ensures var m := AbsenceMap(TodaysAbsences(absences, now));
      absences[j].teacherId in m && m[absences[j].teacherId] == absences[j]
  {
    var today := TodaysAbsences(absences, now);
    var pre, post := TodaySplit(absences, now, j);
    var at := |pre| - 1;
    assert today[at] == absences[j];
    forall k | at < k < |today| ensures today[k].teacherId != today[at].teacherId {
      var b := post[k - |pre|];
      assert today[k] == b;
      assert b in post;
      LaterAbsenceOfToday(absences, now, j, b);
    }
    LastAbsenceWins(today, at);
  }

  /** When a teacher has several absences today, a substituted entry reports
      the reason of the last of them in the list. */
  lemma ReasonOfLastAbsence(now: Clock, schedules: seq<Schedule>, absences: seq<Absence>,
                            pool: seq<Schedule>, i: nat, j: nat)
    requires |pool| > 0
    requires i < |OnDuty(now, schedules, absences, pool)|
    requires j < |absences| && absences[j].date == now.date
    requires absences[j].teacherId == OnDuty(now, schedules, absences, pool)[i].slot.teacherId
    requires forall k :: j < k < |absences| && absences[k].date == now.date ==>
      absences[k].teacherId != absences[j].teacherId
    ensures var d := OnDuty(now, schedules, absences, pool)[i];
      d.isSubstitute && d.cover == Some(Cover(d.slot.teacher, absences[j].reason))
  {
    var slots := Candidates(schedules, now);
    var today := TodaysAbsences(absences, now);
    MapHoldsLastOfToday(absences, now, j);
    SlotShape(slots, AbsentIds(today), AbsenceMap(today), pool, i);
  }

  /** Every substitute is a teacher with a substitutional row, on any day and
      at any time; the pool is not filtered by today's absences. */
  lemma SubstituteFromPool(now: Clock, schedules: seq<Schedule>, absences: seq<Absence>,
                           pool: seq<Schedule>, i: nat)
    requires IsSubstitutePool(pool, schedules)
    requires i < |OnDuty(now, schedules, absences, pool)|
    requires OnDuty(now, schedules, absences, pool)[i].isSubstitute
    ensures exists s :: (s in schedules && s.isSubstitutional
                         && s.teacher == OnDuty(now, schedules, absences, pool)[i].teacher)
  {
    var slots := Candidates(schedules, now);
    var today := TodaysAbsences(absences, now);
    var r := OnDuty(now, schedules, absences, pool);
    assert r == Resolution(slots, AbsentIds(today), AbsenceMap(today), pool);
    RoundRobin(slots, AbsentIds(today), AbsenceMap(today), pool, i);
    var k := SubstitutedCount(r[..i]) % |pool|;
    var p := pool[k];
    assert p in schedules && p.isSubstitutional && p.teacher == r[i].teacher;
  }

  /** Of two rows, the one active now is the only candidate. */
  lemma OneActiveSlot(active: Schedule, other: Schedule, now: Clock)
    requires ActiveNow(active, now) && !ActiveNow(other, now)
    ensures Candidates([active, other], now) == [active]
  {
    var p := (s: Schedule) => ActiveNow(s, now);
    assert [active, other][1..] == [other] && [other][1..] == [];
    assert Filter([other], p) == [];
  }

  /** A worked scenario. Teacher A holds a Monday 10:00-10:15 duty at
      location X, teacher B has a substitutional row, and both A and B are
      absent on Monday 2025-03-03. At 10:05 that day the single entry is
      A's slot covered by B: the pool is not filtered by absences, so the
      substitute chosen may be absent too. */
  lemma AbsentSubstituteScenario()
    ensures
      var a, b := Teacher("a", "A"), Teacher("b", "B");
      var duty := Schedule("s1", "a", a, Some("x"), false, 1, "10:00", "10:15");
      var cover := Schedule("s2", "b", b, None, true, 3, "08:00", "11:00");
      var absences := [Absence("n1", "a", "2025-03-03", Some("ill")), Absence("n2", "b", "2025-03-03", None)];
      var now := Clock(1, "10:05", "2025-03-03");
      OnDuty(now, [duty, cover], absences, [cover])
        == [Duty(duty, b, true, Some(Cover(a, Some("ill"))))]
  {
    var a, b := Teacher("a", "A"), Teacher("b", "B");
    var duty := Schedule("s1", "a", a, Some("x"), false, 1, "10:00", "10:15");
    var cover := Schedule("s2", "b", b, None, true, 3, "08:00", "11:00");
    var absences := [Absence("n1", "a", "2025-03-03", Some("ill")), Absence("n2", "b", "2025-03-03", None)];
    var now := Clock(1, "10:05", "2025-03-03");
    assert ActiveNow(duty, now);
    OneActiveSlot(duty, cover, now);
    FilterKeepsAll(absences, (x: Absence) => x.date == now.date);
    var today := TodaysAbsences(absences, now);
    assert "a" in AbsentIds(today);
    LastAbsenceWins(absences, 0);
  }
}
