/** `GET` and `POST /api/schedules` (app/api/schedules/route.ts): listing the
    weekly roster in day-then-time order, and validating and normalising a
    new roster entry before it is stored. Authentication is the boolean
    outcome of the session lookup; the store's create and findMany are the
    record handed to it and the rows it returns. */
module ScheduleRoutes {
  import opened Base
  import opened Text
  import opened Sorting
  import opened Entities

  /** The decoded JSON body of a `POST`; a missing key is `Undefined`. */
  datatype ScheduleBody = ScheduleBody(
    teacherId: Json,
    locationId: Json,
    isSubstitutional: Json,
    dayOfWeek: Json,
    startTime: Json,
    endTime: Json)

  /** The `data` record handed to the store's create. */
  datatype NewSchedule = NewSchedule(
    teacherId: Json,
    locationId: Json,
    isSubstitutional: Json,
    dayOfWeek: Json,
    startTime: Json,
    endTime: Json)

  const MissingFieldsError := "Required fields are missing"
  const MissingLocationError := "Location is required for non-substitutional schedules"

  /** The first check: teacher, start and end must be truthy, and the day
      must be present (so day 0, Sunday, passes). */
  predicate HasRequiredFields(body: ScheduleBody) {
    Truthy(body.teacherId) && body.dayOfWeek != Undefined && Truthy(body.startTime) && Truthy(body.endTime)
  }

  /** The roster invariant every stored record keeps: a substitutional entry
      has no location, a regular one has one and is marked `false`. */
  predicate LocationRule(data: NewSchedule) {
    (Truthy(data.isSubstitutional) ==> data.locationId == Null)
    && (!Truthy(data.isSubstitutional) ==> Truthy(data.locationId) && data.isSubstitutional == Bool(false))
  }

  /** `POST /api/schedules` */
  function Post(authenticated: bool, body: ScheduleBody): (r: Response<NewSchedule>)
    ensures r.Status() == 401 <==> !authenticated
    ensures r.Created? ==> r.Status() == 201 && LocationRule(r.value)
    ensures r.Created? ==>
      r.value.teacherId == body.teacherId && r.value.dayOfWeek == body.dayOfWeek
      && r.value.startTime == body.startTime && r.value.endTime == body.endTime
  {
    if !authenticated then Unauthorized
    else if !Truthy(body.teacherId) || body.dayOfWeek == Undefined
         || !Truthy(body.startTime) || !Truthy(body.endTime) then
      BadRequest(MissingFieldsError)
    else if !Truthy(body.isSubstitutional) && !Truthy(body.locationId) then
      BadRequest(MissingLocationError)
    else
      Created(NewSchedule(
        body.teacherId,
        if Truthy(body.isSubstitutional) then Null else body.locationId,
        if Truthy(body.isSubstitutional) then body.isSubstitutional else Bool(false),
        body.dayOfWeek,
        body.startTime,
        body.endTime))
  }

  /** The outcome of a `POST`, case by case: 401 before the body matters;
      then the required-fields error, which wins over the location error;
      then the location error for a regular entry without a location;
      otherwise the entry is created. */
  lemma PostOutcomes(authenticated: bool, body: ScheduleBody)
    ensures !authenticated ==> Post(authenticated, body) == Unauthorized
    ensures authenticated && !HasRequiredFields(body) ==>
      Post(authenticated, body) == BadRequest(MissingFieldsError)
    ensures authenticated && HasRequiredFields(body) && !Truthy(body.isSubstitutional) && !Truthy(body.locationId) ==>
      Post(authenticated, body) == BadRequest(MissingLocationError)
    ensures Post(authenticated, body).Created? <==>
      authenticated && HasRequiredFields(body) && (Truthy(body.isSubstitutional) || Truthy(body.locationId))
  {
  }

  /** A substitutional entry is stored without a location even when one was
      supplied, and a regular entry keeps the location it was given. */
  lemma StoredLocation(body: ScheduleBody)
    requires Post(true, body).Created?
    ensures Truthy(body.isSubstitutional) ==> Post(true, body).value.locationId == Null
    ensures !Truthy(body.isSubstitutional) ==> Post(true, body).value.locationId == body.locationId
  {
  }

  /** The `orderBy` of the listing: by day, then by start time. */
  predicate ByDayThenStart(a: Schedule, b: Schedule) {
    a.dayOfWeek < b.dayOfWeek || (a.dayOfWeek == b.dayOfWeek && StrLe(a.startTime, b.startTime))
  }

  lemma ByDayThenStartIsTotalPreorder()
    ensures TotalPreorder(ByDayThenStart)
  {
    forall a: Schedule, b: Schedule ensures ByDayThenStart(a, b) || ByDayThenStart(b, a) {
      StrLeTotal(a.startTime, b.startTime);
    }
    forall a: Schedule, b: Schedule, c: Schedule | ByDayThenStart(a, b) && ByDayThenStart(b, c)
      ensures ByDayThenStart(a, c)
    {
      if a.dayOfWeek == b.dayOfWeek == c.dayOfWeek {
        StrLeTransitive(a.startTime, b.startTime, c.startTime);
      }
    }
  }

  /** `GET /api/schedules`: every roster row, ordered by day then start. */
  function List(authenticated: bool, rows: seq<Schedule>): (r: Response<seq<Schedule>>)
    ensures r.Status() == 401 <==> !authenticated
    ensures authenticated ==> r.Ok? && Sorted(r.value, ByDayThenStart) && multiset(r.value) == multiset(rows)
  {
    if !authenticated then Unauthorized
    else
      ByDayThenStartIsTotalPreorder();
      Ok(SortBy(rows, ByDayThenStart))
  }

  /** With well-formed "HH:MM" start times, the listing is in weekly
      chronological order: by day, and within a day by time. */
  lemma ListIsChronological(rows: seq<Schedule>, i: nat, j: nat)
    requires forall s :: s in rows ==> IsTime(s.startTime)
    requires i < j < |rows|
    ensures var l := List(true, rows).value;
      IsTime(l[i].startTime) && IsTime(l[j].startTime)
      && (l[i].dayOfWeek < l[j].dayOfWeek
          || (l[i].dayOfWeek == l[j].dayOfWeek && Minutes(l[i].startTime) <= Minutes(l[j].startTime)))
  {
    var l := List(true, rows).value;
    assert l[i] in multiset(rows) && l[j] in multiset(rows);
    assert l[i] in rows && l[j] in rows;
    assert ByDayThenStart(l[i], l[j]);
    TimeOrder(l[i].startTime, l[j].startTime);
  }
}
