/**
 * The attendance record of the `Attendance` collection: one document per
 * teacher and day, with optional check-in and check-out timestamps.
 * Timestamps are integer milliseconds of local time (module Calendar).
 */
module AttendanceSchema {

  datatype Option<T> = None | Some(value: T)

  /** Teacher identities are compared for equality only. */
  type TeacherId = string

  /** An `Attendance` document: `teacherId` and `date` are required,
      `checkIn` and `checkOut` may be absent. */
  datatype Record = Record(
    teacherId: TeacherId,
    date: int,
    checkIn: Option<int>,
    checkOut: Option<int>
  )
}
