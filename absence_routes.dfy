/** `GET` and `POST /api/absences` (app/api/absences/route.ts): listing
    absences, optionally for one date, newest first; and recording a new
    absence. */
module AbsenceRoutes {
  import opened Base
  import opened Text
  import opened Sorting
  import opened Entities

  /** The decoded JSON body of a `POST`; a missing key is `Undefined`. */
  datatype AbsenceBody = AbsenceBody(teacherId: Json, date: Json, reason: Json)

  /** The `data` record handed to the store's create. */
  datatype NewAbsence = NewAbsence(teacherId: Json, date: Json, reason: Json)

  const MissingFieldsError := "Teacher ID and date are required"

  /** `POST /api/absences`. `existing` are the absences already stored: the
      handler never looks at them, so it neither rejects a second absence of
      a teacher on a date nor creates any substitution. */
  function Post(authenticated: bool, body: AbsenceBody, existing: seq<Absence>): (r: Response<NewAbsence>)
    ensures r.Status() == 401 <==> !authenticated
    ensures authenticated ==>
      (r.Status() == 400 <==> !Truthy(body.teacherId) || !Truthy(body.date))
    ensures r.Created? <==> authenticated && Truthy(body.teacherId) && Truthy(body.date)
    ensures r.Created? ==>
      r.Status() == 201 && r.value == NewAbsence(body.teacherId, body.date, body.reason)
  {
    if !authenticated then Unauthorized
    else if !Truthy(body.teacherId) || !Truthy(body.date) then BadRequest(MissingFieldsError)
    else Created(NewAbsence(body.teacherId, body.date, body.reason))
  }

  /** No duplicate check: the outcome is the same whatever is stored, in
      particular when the teacher already has an absence on that date. */
  lemma NoDuplicateCheck(authenticated: bool, body: AbsenceBody, existing: seq<Absence>)
    ensures Post(authenticated, body, existing) == Post(authenticated, body, [])
  {
  }

  /** `date ? { date } : {}`: a missing or empty `date` parameter lists
      every absence. */
  function DateWhere(date: Option<string>): (keep: Absence -> bool)
  {
    if date.Some? && date.value != "" then (a: Absence) => a.date == date.value
    else (a: Absence) => true
  }

  /** `orderBy: { date: "desc" }` */
  predicate NewestFirst(a: Absence, b: Absence) {
    StrLe(b.date, a.date)
  }

  lemma NewestFirstIsTotalPreorder()
    ensures TotalPreorder(NewestFirst)
  {
    forall a: Absence, b: Absence ensures NewestFirst(a, b) || NewestFirst(b, a) {
      StrLeTotal(a.date, b.date);
    }
    forall a: Absence, b: Absence, c: Absence | NewestFirst(a, b) && NewestFirst(b, c)
      ensures NewestFirst(a, c)
    {
      StrLeTransitive(c.date, b.date, a.date);
    }
  }

  /** `GET /api/absences[?date=...]` */
  function List(authenticated: bool, date: Option<string>, rows: seq<Absence>): (r: Response<seq<Absence>>)
    ensures r.Status() == 401 <==> !authenticated
    ensures authenticated ==> r.Ok? && Sorted(r.value, NewestFirst)
    ensures authenticated && date.Some? && date.value != "" ==>
      multiset(r.value) == multiset(Filter(rows, (a: Absence) => a.date == date.value))
    ensures authenticated && (date.None? || date == Some("")) ==> multiset(r.value) == multiset(rows)
  {
    if !authenticated then Unauthorized
    else
      NewestFirstIsTotalPreorder();
      if date.Some? && date.value != "" then
        Ok(SortBy(Filter(rows, DateWhere(date)), NewestFirst))
      else
        FilterKeepsAll(rows, DateWhere(date));
        Ok(SortBy(Filter(rows, DateWhere(date)), NewestFirst))
  }

  /** With a date given, exactly that date's absences are listed. */
  lemma ListByDate(date: string, rows: seq<Absence>)
    requires date != ""
    ensures forall a :: a in List(true, Some(date), rows).value <==> a in rows && a.date == date
  {
    var l := List(true, Some(date), rows).value;
    forall a ensures a in l <==> a in rows && a.date == date {
      assert a in l <==> a in multiset(l);
    }
  }

  /** On well-formed "YYYY-MM-DD" dates the listing is reverse calendar
      order. */
  lemma ListIsReverseChronological(date: Option<string>, rows: seq<Absence>, i: nat, j: nat)
    requires forall a :: a in rows ==> IsDate(a.date)
    requires i < j < |List(true, date, rows).value|
    ensures var l := List(true, date, rows).value;
      IsDate(l[i].date) && IsDate(l[j].date) && CalendarLe(l[j].date, l[i].date)
  {
    var l := List(true, date, rows).value;
    var kept := Filter(rows, DateWhere(date));
    assert multiset(l) == multiset(kept);
    assert l[i] in multiset(kept) && l[j] in multiset(kept);
    assert l[i] in rows && l[j] in rows;
    DateOrder(l[j].date, l[i].date);
  }
}
