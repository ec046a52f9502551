/** The stored records the handlers read, as the database returns them. */
module Entities {
  import opened Base

  /** A teacher row (the optional e-mail, phone and subject are not used by
      any of the modelled handlers). */
  datatype Teacher = Teacher(id: string, name: string)

  /** A weekly duty-roster row joined with its teacher (`include: { teacher:
      true }`). `dayOfWeek` is 0 for Sunday up to 6 for Saturday; the times
      are "HH:MM" strings. Substitutional rows carry no location. */
  datatype Schedule = Schedule(
    id: string,
    teacherId: string,
    teacher: Teacher,
    locationId: Option<string>,
    isSubstitutional: bool,
    dayOfWeek: int,
    startTime: string,
    endTime: string)

  /** An absence row: one teacher away on one "YYYY-MM-DD" date. */
  datatype Absence = Absence(id: string, teacherId: string, date: string, reason: Option<string>)

  /** The join the database performs: the included teacher is the one the
      row refers to. */
  predicate Joined(s: Schedule) {
    s.teacher.id == s.teacherId
  }
}
