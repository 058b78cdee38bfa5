/**
 * The `POST /check` handler: find or create the teacher's record for today,
 * let the request through only inside the hour window of its type, write the
 * matching timestamp and save the record.
 *
 * The `Attendance` collection is a sequence of records in insertion order;
 * `findOne` is taken to return the first match (an unsorted `findOne`
 * promises no order), saving a new record appends it and
 * saving a found record writes it back in place. The clock is the parameter
 * `now` (local milliseconds), read once per request.
 */
module AttendanceRoute {
  import opened AttendanceSchema
  import opened Calendar

  datatype Response =
    | Recorded(msg: string)               // 200 `${type} recorded`
    | Rejected(status: int, msg: string)  // 400 with a message

  const INVALID_TIME: string := "Invalid check-in/check-out time"

  /** The hours (inclusive at both ends) in which a check-in is accepted. */
  predicate CheckInWindow(hour: int)
    ensures CheckInWindow(hour) <==> hour in {7, 8, 9}
  {
    7 <= hour <= 9
  }

  /** The hours (inclusive at both ends) in which a check-out is accepted. */
  predicate CheckOutWindow(hour: int)
    ensures CheckOutWindow(hour) <==> hour in {13, 14, 15}
  {
    13 <= hour <= 15
  }

  /** The record is `teacherId`'s record for the day starting at `today`:
      the query `{ teacherId, date: { $gte: today, $lt: today + 24h } }`. */
  predicate IsTodays(r: Record, teacherId: TeacherId, today: int)
    ensures today % DAY_MS == 0 ==>
      (IsTodays(r, teacherId, today) <==> r.teacherId == teacherId && Midnight(r.date) == today)
  {
    assert today % DAY_MS == 0 ==> (InDay(r.date, today) <==> Midnight(r.date) == today) by {
      if today % DAY_MS == 0 {
        InDayIffSameMidnight(r.date, today);
      }
    }
    r.teacherId == teacherId && InDay(r.date, today)
  }

  /** `findOne`: the position of the first record matching the query. */
  function FindToday(records: seq<Record>, teacherId: TeacherId, today: int): (found: Option<nat>)
    ensures found.Some? ==>
      found.value < |records| && IsTodays(records[found.value], teacherId, today) &&
      forall k :: 0 <= k < found.value ==> !IsTodays(records[k], teacherId, today)
    ensures found.None? ==>
      forall k :: 0 <= k < |records| ==> !IsTodays(records[k], teacherId, today)
  {
    if |records| == 0 then None
    else if IsTodays(records[0], teacherId, today) then Some(0)
    else match FindToday(records[1..], teacherId, today)
      case None => None
      case Some(i) => Some(i + 1)
  }

  /** `attendance.save()`: a found record is written back at its position, a
      new one is appended. */
  function Saved(records: seq<Record>, found: Option<nat>, doc: Record): (saved: seq<Record>)
    requires found.Some? ==> found.value < |records|
    ensures |saved| == |records| + (if found.Some? then 0 else 1)
    ensures saved[if found.Some? then found.value else |records|] == doc
    ensures forall k :: 0 <= k < |records| && found != Some(k) ==> saved[k] == records[k]
  {
    if found.Some? then records[found.value := doc] else records + [doc]
  }

  /** The response to a check request and the collection after it. */
  datatype Outcome = Outcome(response: Response, records: seq<Record>)

  /** What the handler does, as a function of the collection before the
      request, the request's `teacherId` and `type`, and the clock. */
  function CheckOutcome(records: seq<Record>, teacherId: TeacherId, kind: string, now: int): (o: Outcome)
    ensures o.response.Recorded? <==>
      (kind == "checkIn" && HourOf(now) in {7, 8, 9}) ||
      (kind == "checkOut" && HourOf(now) in {13, 14, 15})
    ensures o.response.Recorded? ==> o.response.msg == kind + " recorded"
    ensures o.response.Rejected? ==>
      o.response == Rejected(400, INVALID_TIME) && o.records == records
    ensures |records| <= |o.records| <= |records| + 1
  {
    var today := Midnight(now);
    var found := FindToday(records, teacherId, today);
    var attendance := if found.Some? then records[found.value] else Record(teacherId, today, None, None);
    var hour := HourOf(now);
    if kind == "checkIn" && CheckInWindow(hour) then
      Outcome(Recorded(kind + " recorded"), Saved(records, found, attendance.(checkIn := Some(now))))
    else if kind == "checkOut" && CheckOutWindow(hour) then
      Outcome(Recorded(kind + " recorded"), Saved(records, found, attendance.(checkOut := Some(now))))
    else
      Outcome(Rejected(400, INVALID_TIME), records)
  }

  /** The record the day's lookup returns, if any. */
  function TodaysRecord(records: seq<Record>, teacherId: TeacherId, today: int): (r: Option<Record>)
    ensures r.Some? ==> r.value in records && IsTodays(r.value, teacherId, today)
    ensures r.None? <==> forall x :: x in records ==> !IsTodays(x, teacherId, today)
  {
    match FindToday(records, teacherId, today)
    case None => None
    case Some(i) => Some(records[i])
  }

  /** The record a request works on: the day's record, or a fresh one dated at
      today's midnight with neither timestamp. */
  function FoundOrCreated(records: seq<Record>, teacherId: TeacherId, today: int): (r: Record)
    ensures r.teacherId == teacherId && InDay(r.date, today)
    ensures r in records || r == Record(teacherId, today, None, None)
    ensures r !in records ==> TodaysRecord(records, teacherId, today).None?
  {
    match TodaysRecord(records, teacherId, today)
    case None => Record(teacherId, today, None, None)
    case Some(r) => r
  }

  // ---------------------------------------------------------------------
  // The collection as the handler updates it in place
  // ---------------------------------------------------------------------

  class AttendanceCollection {
    var records: seq<Record>

    constructor ()
      ensures records == []
    {
      records := [];
    }

    /** `POST /check` with body `{ teacherId, type }` at time `now`. */
    method Check(teacherId: TeacherId, kind: string, now: int) returns (response: Response)
      modifies this
      ensures Outcome(response, records) == CheckOutcome(old(records), teacherId, kind, now)
    {
      var today := Midnight(now);
      var found := FindToday(records, teacherId, today);
      var attendance: Record;
      if found.None? {
        attendance := Record(teacherId, today, None, None);
      } else {
        attendance := records[found.value];
      }

      var hour := HourOf(now);
      if kind == "checkIn" && CheckInWindow(hour) {
        attendance := attendance.(checkIn := Some(now));
      } else if kind == "checkOut" && CheckOutWindow(hour) {
        attendance := attendance.(checkOut := Some(now));
      } else {
        return Rejected(400, INVALID_TIME);
      }

      Save(found, attendance);
      response := Recorded(kind + " recorded");
    }

    /** `attendance.save()` on the document found at `found`, or on a new one. */
    method Save(found: Option<nat>, doc: Record)
      requires found.Some? ==> found.value < |records|
      modifies this
      ensures records == Saved(old(records), found, doc)
    {
      if found.Some? {
        records := records[found.value := doc];
      } else {
        records := records + [doc];
      }
    }
  }

  // ---------------------------------------------------------------------
  // Properties of a check request
  // ---------------------------------------------------------------------

  /** A successful request writes the day's record (found, or created at
      today's midnight): a check-in sets `checkIn := now` and a check-out sets
      `checkOut := now`, nothing else in it changes, and afterwards the day's
      lookup returns that written record. */
  lemma AcceptedWritesTodaysRecord(records: seq<Record>, teacherId: TeacherId, kind: string, now: int)
    requires CheckOutcome(records, teacherId, kind, now).response.Recorded?
    ensures var today := Midnight(now);
      var before := FoundOrCreated(records, teacherId, today);
      var after := CheckOutcome(records, teacherId, kind, now).records;
      before.teacherId == teacherId && InDay(before.date, today) &&
      (TodaysRecord(records, teacherId, today).None? ==> before.date == today) &&
      TodaysRecord(after, teacherId, today) ==
        Some(if kind == "checkIn" then before.(checkIn := Some(now))
             else before.(checkOut := Some(now)))
    ensures var today := Midnight(now);
      var found := FindToday(records, teacherId, today);
      var after := CheckOutcome(records, teacherId, kind, now).records;
      |after| == |records| + (if found.Some? then 0 else 1) &&
      FindToday(after, teacherId, today) == (if found.Some? then found else Some(|records|))
  {
    var today := Midnight(now);
    var found := FindToday(records, teacherId, today);
    var before := FoundOrCreated(records, teacherId, today);
    var after := CheckOutcome(records, teacherId, kind, now).records;
    var doc := if kind == "checkIn" then before.(checkIn := Some(now)) else before.(checkOut := Some(now));
    assert after == Saved(records, found, doc);
    var i := if found.Some? then found.value else |records|;
    assert after[i] == doc && IsTodays(doc, teacherId, today);
    assert forall k :: 0 <= k < i ==> after[k] == records[k];
    FirstMatchAt(after, teacherId, today, i);
  }

  /** The lookup returns position `i` when the record there matches and none
      before it does. */
  lemma {:induction false} FirstMatchAt(records: seq<Record>, teacherId: TeacherId, today: int, i: nat)
    requires i < |records| && IsTodays(records[i], teacherId, today)
    requires forall k :: 0 <= k < i ==> !IsTodays(records[k], teacherId, today)
    ensures FindToday(records, teacherId, today) == Some(i)
  {
    if i > 0 {
      FirstMatchAt(records[1..], teacherId, today, i - 1);
    }
  }

  /** Only the day's record is written: every record already stored other
      than the one the lookup found, in particular every record of another
      teacher or another day, is unchanged and stays where it was. */
  lemma OnlyTodaysRecordChanges(records: seq<Record>, teacherId: TeacherId, kind: string, now: int, k: nat)
    requires k < |records|
    requires FindToday(records, teacherId, Midnight(now)) != Some(k)
    ensures CheckOutcome(records, teacherId, kind, now).records[k] == records[k]
  {
  }

  /** The store keeps at most one record per teacher and local day. */
  predicate OnePerDay(records: seq<Record>)
  {
    forall i, j :: 0 <= i < j < |records| ==>
      records[i].teacherId != records[j].teacherId ||
      Midnight(records[i].date) != Midnight(records[j].date)
  }

  /** A check request keeps the store at one record per teacher and day. */
  lemma CheckKeepsOnePerDay(records: seq<Record>, teacherId: TeacherId, kind: string, now: int)
    requires OnePerDay(records)
    ensures OnePerDay(CheckOutcome(records, teacherId, kind, now).records)
  {
    var today := Midnight(now);
    var found := FindToday(records, teacherId, today);
    var after := CheckOutcome(records, teacherId, kind, now).records;
    if found.None? && after != records {
      var doc := after[|records|];
      assert doc.teacherId == teacherId && doc.date == today;
      forall k | 0 <= k < |records|
        ensures records[k].teacherId != doc.teacherId || Midnight(records[k].date) != Midnight(doc.date)
      {
        assert !IsTodays(records[k], teacherId, today);
        InDayIffSameMidnight(records[k].date, today);
        InDayIffSameMidnight(today, today);
      }
    }
  }

  /** There is no guard against a second check-in: a later in-window check-in
      on the same day overwrites `checkIn` of the same record and adds none. */
  lemma RepeatedCheckInOverwrites(records: seq<Record>, teacherId: TeacherId, first: int, second: int)
    requires Midnight(first) == Midnight(second)
    requires CheckInWindow(HourOf(first)) && CheckInWindow(HourOf(second))
    ensures var once := CheckOutcome(records, teacherId, "checkIn", first);
      var twice := CheckOutcome(once.records, teacherId, "checkIn", second);
      var today := Midnight(first);
      twice.response.Recorded? &&
      |twice.records| == |once.records| &&
      TodaysRecord(twice.records, teacherId, today) ==
        Some(FoundOrCreated(records, teacherId, today).(checkIn := Some(second)))
  {
    var today := Midnight(first);
    var once := CheckOutcome(records, teacherId, "checkIn", first);
    AcceptedWritesTodaysRecord(records, teacherId, "checkIn", first);
    AcceptedWritesTodaysRecord(once.records, teacherId, "checkIn", second);
  }

  /** There is no guard against a check-out without a check-in: on a day with
      no record, an in-window check-out appends a record holding only
      `checkOut`. */
  lemma CheckOutWithoutCheckIn(records: seq<Record>, teacherId: TeacherId, now: int)
    requires TodaysRecord(records, teacherId, Midnight(now)).None?
    requires CheckOutWindow(HourOf(now))
    ensures CheckOutcome(records, teacherId, "checkOut", now).records ==
      records + [Record(teacherId, Midnight(now), None, Some(now))]
  {
  }

  /** A check-in at 08:00 followed by a check-out at 14:00 on the same day
      leaves that day's record with both timestamps. */
  lemma CheckInThenCheckOut(records: seq<Record>, teacherId: TeacherId, today: int)
    requires today % DAY_MS == 0
    ensures var arrive := today + 8 * HOUR_MS;
      var leave := today + 14 * HOUR_MS;
      var afterIn := CheckOutcome(records, teacherId, "checkIn", arrive);
      var afterOut := CheckOutcome(afterIn.records, teacherId, "checkOut", leave);
      afterIn.response.Recorded? && afterOut.response.Recorded? &&
      TodaysRecord(afterOut.records, teacherId, today) ==
        Some(FoundOrCreated(records, teacherId, today).(checkIn := Some(arrive)).(checkOut := Some(leave)))
  {
    var arrive := today + 8 * HOUR_MS;
    var leave := today + 14 * HOUR_MS;
    ClockAt(today, 8);
    ClockAt(today, 14);
    var afterIn := CheckOutcome(records, teacherId, "checkIn", arrive);
    AcceptedWritesTodaysRecord(records, teacherId, "checkIn", arrive);
    AcceptedWritesTodaysRecord(afterIn.records, teacherId, "checkOut", leave);
  }

  /** `h` hours after a local midnight the clock reads hour `h` of that day. */
  lemma ClockAt(today: int, h: int)
    requires today % DAY_MS == 0 && 0 <= h < 24
    ensures Midnight(today + h * HOUR_MS) == today && HourOf(today + h * HOUR_MS) == h
  {
    var t := today + h * HOUR_MS;
    InDayIffSameMidnight(t, today);
    DivUnique(t % DAY_MS, HOUR_MS, h, 0);
  }
}
