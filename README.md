# School duty roster: a Dafny model

The application keeps a weekly roster of teacher supervision duties ("εφημερίες"): which teacher watches which
location on which day of the week and between which "HH:MM" times. It also records absences, one teacher away
on one "YYYY-MM-DD" date. Its central computation answers "who is on duty right now". It takes the roster
rows active at the current day and time, sees which of their teachers are absent today, and replaces each
absent teacher by a teacher from the pool of substitutional teachers. The pool is walked round-robin with a
counter that starts at zero on every request and advances once per substituted slot.

This project models, in Dafny:

- `CurrentDuty`: the resolver behind `GET /api/schedules/current`.
  - The three database queries (roster rows, absence rows, the distinct substitutional rows) are inputs.
  - So is the clock reading (day, time, date).
  - The slot pass with its mutable counter is a method with a loop, proved equal to a closed-form definition.
  - Lemmas state what that definition promises.
- `ScheduleRoutes` and `AbsenceRoutes`: the validation and normalisation of `POST /api/schedules` and
  `POST /api/absences`, and the filtering and ordering of their `GET` listings.
  - Request bodies are JSON values, so that JavaScript falsiness (`!x`, `=== undefined`) is exact.
- `SchedulesManagement`: the logic of the roster admin screen.
  - the shift and day tables;
  - the shift ↔ time conversion when a form is submitted or a row is edited;
  - the "substitutional" checkbox that clears the location;
  - `getGroupedSchedules`, a method with a loop over a local map;
  - the day-by-day display.
- `Middleware`: the route gate's redirect decision and its path matcher.
- Supporting modules:
  - `Base`: Option, the JSON value type, filtering, responses.
  - `Text`: the character-code order on strings, with lemmas that it is chronological on zero-padded times and
    dates.
  - `Sorting`: an ordering by a comparison, standing for the database's `orderBy` and for `Array.prototype.sort`.
  - `Entities`: the stored rows.

Three consequences of the code are worth stating:

- The resolver never reads Substitution rows. When the pool is non-empty, every absent teacher's slot is covered
  from it. When the pool is empty, the slot keeps its rostered teacher, unflagged
  (`CurrentDuty.EmptyPoolKeepsRoster`).
- The round-robin counter advances once per substituted slot. Two substituted slots with no substituted slot
  between them get consecutive pool members, also when both belong to the same absent teacher
  (`CurrentDuty.ConsecutiveSubstitutes`).
- The pool is not filtered by today's absences, so an absent substitutional teacher can be chosen
  (`CurrentDuty.AbsentSubstituteScenario`).

## Model

| member | source | states |
|---|---|---|
| CurrentDuty.AbsenceMap | app/api/schedules/current/route.ts:82 | the keys are exactly the absent teacher ids of `new Set(...)` at line 81; every value is one of the listed absences, belonging to the teacher it is filed under |
| CurrentDuty.LastAbsenceWins | app/api/schedules/current/route.ts:82 | when an absence is its teacher's last in the list, the map holds that absence (later entries overwrite earlier ones) |
| CurrentDuty.MapHoldsLastOfToday | app/api/schedules/current/route.ts:60-82 | the map built from today's absences holds, for each teacher, their last absence dated today |
| CurrentDuty.SubstitutePool | app/api/schedules/current/route.ts:70-78 | the distinct query over substitutional rows can return a pool of substitutional rows, one per teacher, covering every teacher who has a substitutional row |
| CurrentDuty.FirstPerTeacherDistinct | app/api/schedules/current/route.ts:77 | keeping the first row per teacher never keeps two rows of one teacher |
| CurrentDuty.FirstPerTeacherCovers | app/api/schedules/current/route.ts:77 | keeping the first row per teacher keeps a row for every teacher present |
| CurrentDuty.ResolveSlots | app/api/schedules/current/route.ts:85-112 | the `map` pass with its `substitutionalIndex` counter yields, slot by slot, the closed-form resolution in which slot i is resolved with the counter equal to the number of absent-teacher slots before it |
| CurrentDuty.GetCurrent | app/api/schedules/current/route.ts:40-112 | the handler's result, from the three query results and the clock, is the resolution of the active slots against today's absences and the pool |
| CurrentDuty.CounterCountsSubstitutions | app/api/schedules/current/route.ts:85-96 | with a non-empty pool, the counter before a slot equals the number of substituted entries before it |
| CurrentDuty.SlotShape | app/api/schedules/current/route.ts:88-111 | one entry per slot, keeping the slot's row; flagged exactly when the teacher is absent and the pool is non-empty; an unflagged entry keeps its teacher and carries no cover; a flagged one records the rostered teacher and the mapped absence's reason |
| CurrentDuty.RoundRobin | app/api/schedules/current/route.ts:94-101 | a substituted entry with k substituted entries before it gets the teacher of pool member k modulo the pool size |
| CurrentDuty.ConsecutiveSubstitutes | app/api/schedules/current/route.ts:95-96 | two substituted entries with none between them get consecutive pool members, also when both belong to one absent teacher |
| CurrentDuty.DistinctSubstitutes | app/api/schedules/current/route.ts:95-96 | with a pool of distinct teachers and no more absent-teacher slots than pool members, no two entries get the same substitute |
| CurrentDuty.EmptyPoolKeepsRoster | app/api/schedules/current/route.ts:94-111 | with an empty pool every slot is returned with its rostered teacher, unflagged |
| CurrentDuty.ActiveNowChronological | app/api/schedules/current/route.ts:41-51 | on well-formed "HH:MM" strings the string filter `startTime <= now <= endTime` is the inclusive time-of-day window, on today's day, for regular rows only |
| CurrentDuty.OneActiveSlot | app/api/schedules/current/route.ts:41-57 | of two rows only the one active now is a candidate |
| CurrentDuty.OnlyActiveSlots | app/api/schedules/current/route.ts:41-88 | every reported entry is a roster row active now |
| CurrentDuty.ActiveSlotsReported | app/api/schedules/current/route.ts:41-88 | every roster row active now is reported |
| CurrentDuty.SubstitutedIffAbsentToday | app/api/schedules/current/route.ts:60-94 | an entry is flagged exactly when the pool is non-empty and its rostered teacher has an absence dated today |
| CurrentDuty.ReasonOfLastAbsence | app/api/schedules/current/route.ts:82-103 | a substituted entry carries the reason of its teacher's last absence dated today |
| CurrentDuty.SubstituteFromPool | app/api/schedules/current/route.ts:70-101 | every substitute is the teacher of some substitutional roster row |
| CurrentDuty.AbsentSubstituteScenario | app/api/schedules/current/route.ts:40-112 | A absent on a Monday with a 10:00-10:15 duty, B in the pool and also absent: at 10:05 the one entry is A's slot covered by B, with A as original teacher and A's reason |
| ScheduleRoutes.Post | app/api/schedules/route.ts:29-69 | 401 exactly without a session; a created record keeps the roster invariant (substitutional ⇒ no location; regular ⇒ a location and `false`) and the teacher, day and times sent |
| ScheduleRoutes.PostOutcomes | app/api/schedules/route.ts:31-52 | the outcome case by case: 401 first, then the required-fields error (which wins over the location error), then the location error, otherwise creation exactly when the fields are present and the entry is substitutional or has a location |
| ScheduleRoutes.StoredLocation | app/api/schedules/route.ts:57 | a substitutional entry is stored with a null location even when one was supplied; a regular entry keeps the location it was given |
| ScheduleRoutes.ByDayThenStartIsTotalPreorder | app/api/schedules/route.ts:17 | the day-then-start comparison is total and transitive |
| ScheduleRoutes.List | app/api/schedules/route.ts:5-20 | 401 without a session; otherwise all rows, as a permutation, sorted by day then start time |
| ScheduleRoutes.ListIsChronological | app/api/schedules/route.ts:17 | with well-formed start times the listing is in weekly chronological order |
| AbsenceRoutes.Post | app/api/absences/route.ts:39-68 | 401 exactly without a session; 400 exactly when teacher id or date is falsy; created with status 201 exactly when authenticated with a truthy teacher id and date, the record being the teacher, date and reason sent |
| AbsenceRoutes.NoDuplicateCheck | app/api/absences/route.ts:56-61 | the outcome does not depend on the absences already stored: a second absence of a teacher on one date is accepted |
| AbsenceRoutes.NewestFirstIsTotalPreorder | app/api/absences/route.ts:27 | the date-descending comparison is total and transitive |
| AbsenceRoutes.List | app/api/absences/route.ts:5-30 | 401 without a session; otherwise sorted newest first, a permutation of the rows of the given date, or of all rows when the date is missing or empty |
| AbsenceRoutes.ListByDate | app/api/absences/route.ts:13-17 | with a date, exactly the absences of that date are listed |
| AbsenceRoutes.ListIsReverseChronological | app/api/absences/route.ts:27 | with well-formed dates the listing is in reverse calendar order |
| SchedulesManagement.ShiftTable | app/admin/components/SchedulesManagement.tsx:37-40 | "A" and "B" are the only shift codes, with times 08:00-11:00 and 11:00-14:00 |
| SchedulesManagement.ShiftRoundTrip | app/admin/components/SchedulesManagement.tsx:93-131 | shift → times → shift is the identity; a time pair maps to a shift exactly when it is that shift's pair, and to "" otherwise |
| SchedulesManagement.ToggleSubstitutional | app/admin/components/SchedulesManagement.tsx:247-253 | ticking the checkbox sets the flag and clears the location; unticking keeps the location; nothing else changes |
| SchedulesManagement.SubmitThenCreate | app/admin/components/SchedulesManagement.tsx:93-103 | a submitted form is created by the POST handler exactly when a teacher is chosen and the entry is substitutional or has a location, with the chosen shift's times and a null location when substitutional |
| SchedulesManagement.EditThenSubmit | app/admin/components/SchedulesManagement.tsx:128-138 | editing a row fills the form with the row's teacher, day and flag, and "" for a missing location; saving it sends the row's own times exactly when they are a shift's pair |
| SchedulesManagement.OnDayEmpty | app/admin/components/SchedulesManagement.tsx:153-162 | a day that occurs in no row has no rows |
| SchedulesManagement.GroupedSnoc | app/admin/components/SchedulesManagement.tsx:155-159 | one more row appends it to its day's group, opening the group if needed, and changes no other group |
| SchedulesManagement.GroupRowsIsGrouped | app/admin/components/SchedulesManagement.tsx:153-162 | building the groups row by row gives one group per occurring day holding that day's rows in input order |
| SchedulesManagement.GetGroupedSchedules | app/admin/components/SchedulesManagement.tsx:153-162 | the `forEach` over the roster with the local `grouped` object returns one group per occurring day, holding that day's rows in input order |
| SchedulesManagement.GroupMembership | app/admin/components/SchedulesManagement.tsx:153-162 | every row is in its day's group; a group holds exactly the rows of its day; grouping a concatenation concatenates the groups |
| SchedulesManagement.GroupSizesSum | app/admin/components/SchedulesManagement.tsx:153-162 | over distinct days covering the roster, the group sizes add up to the roster size, so no row is lost or repeated |
| SchedulesManagement.DisplayedDayValues | app/admin/components/SchedulesManagement.tsx:27-35 | the display table lists days 1 to 6, then 0 |
| SchedulesManagement.DisplayedDaysCoverRoster | app/admin/components/SchedulesManagement.tsx:310-312 | for days 0..6 the displayed days' groups together hold every row once |
| SchedulesManagement.ByStartIsTotalPreorder | app/admin/components/SchedulesManagement.tsx:321 | the start-time comparison is total and transitive |
| SchedulesManagement.Section | app/admin/components/SchedulesManagement.tsx:311-321 | a day's section is its group, permuted and sorted by start time |
| SchedulesManagement.Sections | app/admin/components/SchedulesManagement.tsx:310-321 | every section shown is a table day with a non-empty group, sorted by start time and a permutation of that group |
| SchedulesManagement.SectionsCoverDays | app/admin/components/SchedulesManagement.tsx:310-312 | every table day whose group has rows gets a section |
| SchedulesManagement.SectionsInTableOrder | app/admin/components/SchedulesManagement.tsx:310-312 | the sections' days are the table's days in table order (Monday to Saturday, then Sunday), each once, with exactly the days without rows skipped |
| SchedulesManagement.DisplaySectionsAreDays | app/admin/components/SchedulesManagement.tsx:310-321 | each section of the display is a table day and lists exactly the roster rows of that day, each as often as it occurs, sorted by start time |
| SchedulesManagement.DisplayShowsRoster | app/admin/components/SchedulesManagement.tsx:310-321 | every roster row on a day 0..6 appears in the section of its day |
| SchedulesManagement.EmptyFormSendsNothing | app/admin/components/SchedulesManagement.tsx:115-121 | the form as reset has shift "", so submitting it sends nothing (the shift lookup at line 94 fails) |
| Middleware.Decide | middleware.ts:4-18 | redirect to /login exactly for an admin path without a session; redirect to /admin exactly for a login path with one; otherwise pass through |
| Middleware.PrefixesDisjoint | middleware.ts:6-7 | no path is both a login page and an admin page, so at most one redirect applies |
| Middleware.NoRedirectLoop | middleware.ts:6-17 | following a redirect with the session unchanged passes through |
| Middleware.PrefixNotSegment | middleware.ts:6-7 | the tests are plain prefix tests: "/administrator" is gated as an admin page, "/login-help" as a login page |
| Middleware.Gate | middleware.ts:4-22 | unmatched paths pass through; matched paths get the decision |
| Middleware.ApiNotGated | middleware.ts:21 | paths under /api, /_next/static and /_next/image are never gated |
| Middleware.FaviconWildcard | middleware.ts:21 | the unescaped `.` lets "/favicon" + any character + "ico" bypass the gate |
| Middleware.AdminPagesGated | middleware.ts:7-21 | every /admin path is matched, so a visitor without a session is sent to /login |
| Middleware.TargetsMatched | middleware.ts:10-21 | both redirect targets are matched and pass through after the redirect |
| Text.TimeOrder | app/api/schedules/current/route.ts:44-49 | comparing "HH:MM" strings as text compares them as times of day |
| Text.DateOrder | app/api/absences/route.ts:27 | comparing "YYYY-MM-DD" strings as text compares them as calendar dates |
| Sorting.SortBy | app/api/schedules/route.ts:17 | the ordering returned is sorted by the comparison and is a permutation of its input |

## Left out

- The time-zone derivation of day, time and date (app/api/schedules/current/route.ts:7-38). It calls `Intl`/`toLocaleString` with Europe/Athens. The clock reading is an input.
- The database. Query results are input sequences; `where` clauses are filters, and `orderBy` is an ordering by a comparison.
- The order of the distinct pool query is unspecified by the database. The pool is an input in whatever order it comes.
- CurrentDuty.GetCurrent: takes the pool as an input. The lemmas that speak about where substitutes come from require `IsSubstitutePool`, which is what the distinct query guarantees.
- ScheduleRoutes.List and AbsenceRoutes.List: rows with equal sort keys come in the order the insertion sort leaves them. The database's tie order is unspecified, and the contracts state only sortedness and permutation.
- SchedulesManagement.Sections: states sortedness and permutation of each section, not the stability of `Array.prototype.sort`. That the browser's sort reorders the group array in place is not modelled.
- The text order is comparison by character code. Database collation and `localeCompare`'s locale rules are not modelled; they agree with it on the ASCII digits and separators of times and dates.
- The 500 responses of every `catch` block.
- Authentication: `auth()` is reduced to whether a session was found.
- React state, rendering, `fetch` and the PUT and DELETE calls of the admin screen. The PUT handler for roster rows is not part of this model; as written it does not update `isSubstitutional`.
- The `include`d relations other than a schedule's teacher (location, substitutions). The response's `absenceReason` is `None` both when the reason is null and when it is absent.
- JSON numbers are integers. Floating-point values and NaN in request bodies are not modelled.
- The teacher and location routes (a session check and a non-empty name) and the substitutions route (a constant 400).
