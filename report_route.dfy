/**
 * The report handlers: `GET /monthly` returns one teacher's records dated
 * from midnight of a month's first day to midnight of its last day, both
 * included, `GET /admin-report` returns every record to an admin.
 * Both read the collection and never write it: they are functions of its
 * contents.
 */
module ReportRoute {
  import opened AttendanceSchema
  import opened Calendar
  import AttendanceRoute

  /** `new Date(year, month - 1, 1)`: local midnight of day 1 of the 1-based
      `month`. */
  function StartDate(year: int, month: int): (start: int)
    ensures 1 <= month <= 12 ==> start == DayNumber(FullYear(year), month, 1) * DAY_MS
  {
    LocalDate(year, month - 1, 1)
  }

  /** `new Date(year, month, 0)`: day 0 of the following month, that is local
      midnight of the last day of `month`. */
  function EndDate(year: int, month: int): (end: int)
    ensures 1 <= month <= 12 ==>
      end == DayNumber(FullYear(year), month, DaysInMonth(FullYear(year), month)) * DAY_MS
  {
    assert 1 <= month <= 12 ==>
      MakeDay(FullYear(year), month, 0) == DayNumber(FullYear(year), month, DaysInMonth(FullYear(year), month)) by {
      if 1 <= month <= 12 {
        var y := FullYear(year);
        NextMonthStart(y, month);
        if month == 12 {
          DivUnique(month, 12, 1, 0);
        } else {
          DivUnique(month, 12, 0, month);
        }
      }
    }
    LocalDate(year, month, 0)
  }

  /** The query `{ teacherId, date: { $gte: start, $lte: end } }`. */
  predicate InReport(r: Record, teacherId: TeacherId, start: int, end: int)
  {
    r.teacherId == teacherId && start <= r.date <= end
  }

  /** `Attendance.find(query)`: the matching records, in stored order. */
  function Find(records: seq<Record>, teacherId: TeacherId, start: int, end: int): (found: seq<Record>)
    ensures |found| <= |records|
    ensures forall r :: r in found ==> InReport(r, teacherId, start, end)
    ensures forall r :: multiset(found)[r] == if InReport(r, teacherId, start, end) then multiset(records)[r] else 0
  {
    if records == [] then []
    else
      var rest := Find(records[1..], teacherId, start, end);
      assert records == [records[0]] + records[1..];
      if InReport(records[0], teacherId, start, end) then [records[0]] + rest else rest
  }

  /** `GET /monthly?teacherId&month&year`. */
  function Monthly(records: seq<Record>, teacherId: TeacherId, year: int, month: int): (report: seq<Record>)
    ensures forall r :: r in report <==>
      r in records && r.teacherId == teacherId && StartDate(year, month) <= r.date <= EndDate(year, month)
  {
    var found := Find(records, teacherId, StartDate(year, month), EndDate(year, month));
    assert forall r :: (r in found <==> multiset(found)[r] > 0);
    found
  }

  datatype AdminResponse =
    | AllRecords(records: seq<Record>)
    | Denied(status: int, msg: string)

  /** `GET /admin-report` for a caller with role `role`. */
  function AdminReport(role: string, records: seq<Record>): (resp: AdminResponse)
    ensures role != "admin" <==> resp == Denied(403, "Access denied")
    ensures role == "admin" <==> resp == AllRecords(records)
  {
    if role != "admin" then Denied(403, "Access denied") else AllRecords(records)
  }

  // ---------------------------------------------------------------------
  // Properties of the month bounds
  // ---------------------------------------------------------------------

  /** For a month 1..12 the bounds are local midnight of the first and of the
      last day of that month (February by the Gregorian leap rule; December
      ends on the 31st of the same year), so the start is not after the end. */
  lemma MonthBounds(year: int, month: int)
    requires 1 <= month <= 12
    ensures var y := FullYear(year);
      StartDate(year, month) == DayNumber(y, month, 1) * DAY_MS &&
      EndDate(year, month) == DayNumber(y, month, DaysInMonth(y, month)) * DAY_MS &&
      StartDate(year, month) <= EndDate(year, month)
  {
    var y := FullYear(year);
    ScaleOrder(DayNumber(y, month, 1), DayNumber(y, month, DaysInMonth(y, month)));
  }

  /** A record dated at local midnight of a real date (as check requests date
      them) appears in the monthly report exactly when it is the requested
      teacher's and the date is in the requested month. */
  lemma MonthlyHoldsExactlyTheMonth(records: seq<Record>, teacherId: TeacherId, year: int, month: int,
                                    r: Record, y: int, m: int, d: int)
    requires 1 <= month <= 12
    requires r in records
    requires ValidDate(y, m, d) && r.date == DayNumber(y, m, d) * DAY_MS
    ensures r in Monthly(records, teacherId, year, month) <==>
      r.teacherId == teacherId && y == FullYear(year) && m == month
  {
    var fy := FullYear(year);
    MonthBounds(year, month);
    MonthRangeIsMonth(fy, month, y, m, d);
    var lo, hi, k := DayNumber(fy, month, 1), DayNumber(fy, month, DaysInMonth(fy, month)), DayNumber(y, m, d);
    ScaleOrder(lo, k);
    ScaleOrder(k, hi);
    assert multiset(records)[r] > 0;
  }

  /** Multiplying by the length of a day keeps the order of day numbers. */
  lemma ScaleOrder(a: int, b: int)
    ensures a <= b <==> a * DAY_MS <= b * DAY_MS
  {
    if a > b {
      MulAtLeast(a - b, DAY_MS);
    }
  }

  /** The last day of the month is in the month's report, the first day of the
      next month is not. */
  lemma MonthEdges(records: seq<Record>, teacherId: TeacherId, year: int, month: int, last: Record, next: Record)
    requires 1 <= month <= 12
    requires last in records && next in records
    requires last.teacherId == teacherId && next.teacherId == teacherId
    requires var y := FullYear(year);
      last.date == DayNumber(y, month, DaysInMonth(y, month)) * DAY_MS
    requires var y := FullYear(year);
      next.date == (if month == 12 then DayNumber(y + 1, 1, 1) else DayNumber(y, month + 1, 1)) * DAY_MS
    ensures last in Monthly(records, teacherId, year, month)
    ensures next !in Monthly(records, teacherId, year, month)
  {
    var y := FullYear(year);
    MonthlyHoldsExactlyTheMonth(records, teacherId, year, month, last, y, month, DaysInMonth(y, month));
    if month == 12 {
      MonthlyHoldsExactlyTheMonth(records, teacherId, year, month, next, y + 1, 1, 1);
    } else {
      MonthlyHoldsExactlyTheMonth(records, teacherId, year, month, next, y, month + 1, 1);
    }
  }

  /** The collection after a check-in at 08:00 and a check-out at 14:00 on
      the day that starts at `today`. */
  function InAndOut(records: seq<Record>, teacherId: TeacherId, today: int): seq<Record>
  {
    var afterIn := AttendanceRoute.CheckOutcome(records, teacherId, "checkIn", today + 8 * HOUR_MS);
    AttendanceRoute.CheckOutcome(afterIn.records, teacherId, "checkOut", today + 14 * HOUR_MS).records
  }

  /** A check-in at 08:00 and a check-out at 14:00 on a day of the month with
      no record yet show up in that month's report as one record carrying both
      timestamps. */
  lemma CheckedDayInMonthlyReport(records: seq<Record>, teacherId: TeacherId, year: int, month: int, day: int, today: int)
    requires ValidDate(FullYear(year), month, day)
    requires today == DayNumber(FullYear(year), month, day) * DAY_MS
    requires AttendanceRoute.TodaysRecord(records, teacherId, today).None?
    ensures Record(teacherId, today, Some(today + 8 * HOUR_MS), Some(today + 14 * HOUR_MS))
      in Monthly(InAndOut(records, teacherId, today), teacherId, year, month)
  {
    var y := FullYear(year);
    assert today % DAY_MS == 0 by {
      DivUnique(today, DAY_MS, DayNumber(y, month, day), 0);
    }
    var r := Record(teacherId, today, Some(today + 8 * HOUR_MS), Some(today + 14 * HOUR_MS));
    CheckedDayStored(records, teacherId, today);
    MonthlyHoldsExactlyTheMonth(InAndOut(records, teacherId, today), teacherId, year, month, r, y, month, day);
  }

  /** A check-in at 08:00 and a check-out at 14:00 on a day that had no
      record add exactly one record, the day's record, holding both
      timestamps. */
  lemma CheckedDayStored(records: seq<Record>, teacherId: TeacherId, today: int)
    requires today % DAY_MS == 0
    requires AttendanceRoute.TodaysRecord(records, teacherId, today).None?
    ensures Record(teacherId, today, Some(today + 8 * HOUR_MS), Some(today + 14 * HOUR_MS))
      in InAndOut(records, teacherId, today)
    ensures |InAndOut(records, teacherId, today)| == |records| + 1
    ensures AttendanceRoute.TodaysRecord(InAndOut(records, teacherId, today), teacherId, today) ==
      Some(Record(teacherId, today, Some(today + 8 * HOUR_MS), Some(today + 14 * HOUR_MS)))
  {
    var arrive := today + 8 * HOUR_MS;
    AttendanceRoute.ClockAt(today, 8);
    AttendanceRoute.ClockAt(today, 14);
    var afterIn := AttendanceRoute.CheckOutcome(records, teacherId, "checkIn", arrive);
    AttendanceRoute.AcceptedWritesTodaysRecord(records, teacherId, "checkIn", arrive);
    AttendanceRoute.AcceptedWritesTodaysRecord(afterIn.records, teacherId, "checkOut", today + 14 * HOUR_MS);
  }
}
