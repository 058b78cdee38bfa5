# Teacher attendance: check-in/check-out and monthly reports

A Dafny model of the server core of a teacher attendance tracker. Teachers
post a check request (`type` is `checkIn` or `checkOut`). The server finds or
creates that teacher's `Attendance` record for the current local day, accepts
the request only inside a fixed hour window, writes the matching timestamp and
saves the record. A monthly report returns one teacher's records dated from
local midnight of the month's first day up to and including local midnight of
its last day, so a record dated later than 00:00 on the last day is not
returned; records written by a check request are always dated at midnight, so
the whole month of them is found. An admin report returns every record, and
only to admins.

Modules:

- `Calendar` (calendar.dfy) holds the clock and calendar arithmetic behind
  JavaScript's `Date` that the routes rely on. Times are integer milliseconds
  of local time. `Midnight` is `setHours(0, 0, 0, 0)` and `HourOf` is
  `getHours()`. Day numbers follow ECMA-262's DayFromYear and MakeDay, so
  `new Date(year, month, 0)` is modelled with the month overflowing into the
  year. The model also keeps the constructor's rule that reads a year from 0
  to 99 as 1900 + year (`FullYear`). The main results are these: consecutive
  years differ by the Gregorian year length; the cumulative month table agrees
  with the month lengths; and the closed range from the first to the last day
  of a month holds exactly that month's dates.
- `AttendanceSchema` (attendance_schema.dfy) defines the record:
  `teacherId`, `date`, and optional `checkIn` and `checkOut`.
- `AttendanceRoute` (attendance_route.dfy) models the `/check` handler.
  `AttendanceCollection` is the collection as a class whose `records` field
  the `Check` method updates. `CheckOutcome` is the same request as a pure
  function, and the lemmas are stated about it. An unsorted `findOne`
  promises no order among several matches; the model chooses the first
  matching record in stored order. `save()` writes a found record back in
  place and appends a new one.
- `ReportRoute` (report_route.dfy) models the `/monthly` and `/admin-report`
  handlers as functions of the collection's contents. Because they only take
  the contents as input, they cannot change the collection. That is how the
  model states that both handlers are read-only.

Behaviour of the code that the model keeps as written:

- The windows are inclusive at both ends: `hour <= 9` and `hour <= 15` accept
  07:00-09:59 and 13:00-15:59.
- There is no guard against a second check-in or a check-out without a
  check-in. A second check-in overwrites `checkIn`. A check-out on a day with
  no record creates a record that holds only `checkOut`.
- Every rejection, including one for an unknown `type`, is the same 400
  "Invalid check-in/check-out time".
- The monthly report returns the stored records as they are. The client's
  report view (client/src/components/Profile.jsx, lines 128 and 144) reads a
  `teacherName` wrapper and a per-record `status` that no server route
  produces, so neither is modelled.

## Model

| member | source | states |
|---|---|---|
| `Calendar.Midnight` | server/routes/attendance.js:10-11 | "today" is a local midnight, at most `now` and less than 24 hours before it |
| `Calendar.HourOf` | server/routes/attendance.js:19-20 | the hour is 0..23, and `now` lies within that hour of its day |
| `Calendar.InDayIffSameMidnight` | server/routes/attendance.js:13 | the lookup range `[today, today + 24h)` holds exactly the timestamps whose local midnight is `today` |
| `Calendar.DaysInMonth` | server/routes/report.js:11 | every month has 28 to 31 days |
| `Calendar.MonthStep` | server/routes/report.js:11 | the cumulative day table agrees with the month lengths, and the twelve months add up to 365 or, in a Gregorian leap year, 366 days |
| `Calendar.YearStep` | server/routes/report.js:10-11 | the day number of 1 January advances by the Gregorian year length from one year to the next |
| `Calendar.NextMonthStart` | server/routes/report.js:11 | day 0 of the next month (1 January of the next year after December) is the day after the month's last day |
| `Calendar.MonthsInOrder` | server/routes/report.js:15 | a month ends before any later month begins |
| `Calendar.MonthRangeIsMonth` | server/routes/report.js:10-15 | a valid date falls between the first and the last day of a month exactly when it is in that month |
| `AttendanceRoute.FindToday` | server/routes/attendance.js:13 | the lookup returns the first record of the teacher dated within today's 24 hours, or nothing when no such record exists |
| `AttendanceRoute.FirstMatchAt` | server/routes/attendance.js:13 | a matching record with no match before it is the one the lookup returns |
| `AttendanceRoute.CheckOutcome` | server/routes/attendance.js:15-30 | accepted iff `checkIn` at hour 7, 8 or 9 or `checkOut` at hour 13, 14 or 15; an accepted request answers "<type> recorded"; every other request gets 400 "Invalid check-in/check-out time" and leaves the store unchanged, so a record created for it is never saved; the store grows by at most one record |
| `AttendanceRoute.AttendanceCollection.Check` | server/routes/attendance.js:7-30 | the response and the new collection are those of `CheckOutcome` applied to the old collection |
| `AttendanceRoute.AttendanceCollection.Save` | server/routes/attendance.js:29 | a found record is written back at its position and a new one is appended |
| `AttendanceRoute.AcceptedWritesTodaysRecord` | server/routes/attendance.js:13-29 | an accepted request works on today's record, or creates one dated today's midnight with neither timestamp; a check-in sets only `checkIn := now` and a check-out only `checkOut := now`; a found record is written back at its own position with no record added, a created one is appended at the end; afterwards the day's lookup returns that record at that position |
| `AttendanceRoute.OnlyTodaysRecordChanges` | server/routes/attendance.js:13-29 | every stored record except the one the lookup found stays unchanged and in place, which covers records of other teachers and other days |
| `AttendanceRoute.CheckKeepsOnePerDay` | server/routes/attendance.js:13-29 | if the store has at most one record per teacher and local day before a request, it still does after it |
| `AttendanceRoute.RepeatedCheckInOverwrites` | server/routes/attendance.js:21-22 | a second in-window check-in on the same day is accepted, adds no record, and overwrites `checkIn` with the later time |
| `AttendanceRoute.CheckOutWithoutCheckIn` | server/routes/attendance.js:15-24 | an in-window check-out on a day with no record appends a record dated today's midnight that holds only `checkOut` |
| `AttendanceRoute.CheckInThenCheckOut` | server/routes/attendance.js:19-24 | a check-in at 08:00 and a check-out at 14:00 on the same day leave that day's record with both timestamps |
| `AttendanceRoute.ClockAt` | server/routes/attendance.js:10-20 | `h` hours after a local midnight, "today" is that midnight and the hour is `h` |
| `ReportRoute.Find` | server/routes/report.js:13-16 | the result holds exactly the stored records of the teacher dated in `[start, end]`, each as often as it is stored, and nothing else |
| `ReportRoute.AdminReport` | server/routes/report.js:26-30 | a role other than `admin` gets 403 "Access denied" and no data; `admin` gets every stored record |
| `ReportRoute.MonthBounds` | server/routes/report.js:10-11 | for a month 1..12 the start is midnight of day 1 and the end is midnight of the month's last day (Gregorian February, 31 December for month 12), and the start is not after the end |
| `ReportRoute.MonthlyHoldsExactlyTheMonth` | server/routes/report.js:10-16 | a stored record dated at the local midnight of a date is in the monthly report iff it is the requested teacher's and the date is in the requested year and month |
| `ReportRoute.MonthEdges` | server/routes/report.js:10-16 | for every year, a record on the month's last day is in the report, and one on the first day of the next month is not |
| `ReportRoute.CheckedDayInMonthlyReport` | server/routes/report.js:13-16 | for every year, after a check-in at 08:00 and a check-out at 14:00 on a day with no record, that month's report holds the day's record with both timestamps |
| `ReportRoute.CheckedDayStored` | server/routes/attendance.js:13-29 | a check-in at 08:00 and a check-out at 14:00 on a day with no record add exactly one record to the store, and the day's lookup then returns it, dated today's midnight with both timestamps |
| `ReportRoute.Monthly` | server/routes/report.js:7-18 | the `/monthly` result holds exactly the stored records of the requested teacher dated from `startDate` to `endDate`, both included |
| `ReportRoute.StartDate` | server/routes/report.js:10 | for a month 1..12, `startDate` is local midnight of day 1 of that month |
| `ReportRoute.EndDate` | server/routes/report.js:11 | for a month 1..12, `endDate` is local midnight of the month's last day |
| `Calendar.LocalDate` | server/routes/report.js:10-11 | `new Date(year, month, date)` with no time part is a local midnight |
| `Calendar.MakeDay` | server/routes/report.js:10-11 | for a 0-based month 0..11 the day number is that of the date in that month of that year |
| `Calendar.MakeDayCarries` | server/routes/report.js:11 | twelve months past a month is the same month of the next year, so month 12 with day 0 lands in December of the requested year |
| `Calendar.FullYear` | server/routes/report.js:10-11 | a year outside 0..99 is used as given; a year 0..99 is read as 1900 + year (a year of the 1900s with the same last two digits) |
| `Calendar.DayFromYear` | server/routes/report.js:10-11 | day 0 is 1 January 1970 and 1 January 2000 is day 10957 |
| `Calendar.DaysBeforeMonth` | server/routes/report.js:10-11 | the days before month `m` lie between 28 and 31 per month, and the twelve months make the year |
| `AttendanceRoute.Saved` | server/routes/attendance.js:29 | saving a found record writes it back at its position and keeps the length; saving a new record appends it; every other record stays as it was |
| `AttendanceRoute.TodaysRecord` | server/routes/attendance.js:13 | the lookup's result is a stored record of the teacher for today, and there is none exactly when no stored record matches |
| `AttendanceRoute.FoundOrCreated` | server/routes/attendance.js:13-17 | the record worked on is the teacher's and dated within today; it is a stored record, or a new one dated today's midnight with neither timestamp, made only when the lookup found nothing |
| `AttendanceRoute.IsTodays` | server/routes/attendance.js:13 | for a midnight `today`, a record matches the day's query iff it is the teacher's and its date has midnight `today` |
| `AttendanceRoute.CheckInWindow` | server/routes/attendance.js:21 | a check-in hour is accepted iff it is 7, 8 or 9 |
| `AttendanceRoute.CheckOutWindow` | server/routes/attendance.js:23 | a check-out hour is accepted iff it is 13, 14 or 15 |

## Left out

- HTTP routing, `authMiddleware`, the `res.status(...).json` plumbing and the 500 catch paths. A storage failure in `findOne`, `find` or `save` is not modelled.
- MongoDB I/O. `findOne`, `find` and `save` are operations on an in-memory sequence. The `populate('teacherId', 'name email')` join of the admin report is not modelled, so `AdminReport` returns the records without teacher names or emails.
- Time zones and daylight saving time. All times are local milliseconds, and a day is always 24 hours long.
- The handler reads the clock twice, for "today" and for `now`. The model reads it once, so a request that straddles midnight is not modelled.
- Query and body values arrive as strings. The model takes `year` and `month` as integers and `type` as a string, and leaves out non-numeric or missing values, which lead to an invalid `Date`. It also leaves out the range limit of `Date` (TimeClip at 8.64e15 ms either side of 1970, about years -271821 to 275760): outside it the source's `find` fails on an invalid date and answers 500, while `Monthly` still returns a result.
- Concurrent requests, including the race between `findOne` and `save`.
- The `fingerprint` field of the check request, which the handler ignores.
- `ReportRoute.Find`: the contract gives the result's contents with their multiplicities. It does not state that the result keeps the stored order.
- server/routes/auth.js (registration and login through bcrypt and JWT), server/models/Teacher.js (its embedded attendance list is not used by the routes), server/server.js, server/config/db.js and the client components are not part of this model.
