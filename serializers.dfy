/** `BookingSerializer.validate` (users/serializers.py): the API's time-slot check. */
module Serializers {
  import opened Wrappers
  import opened Models

  /** The validated fields of a booking submitted to the API. */
  datatype BookingData = BookingData(
    user: int, master: Option<int>, service: int, date: int, time: Minute, status: string)

  /**
   * The overlap query: rows of the same service on the same date, other
   * than the excluded id, starting in `[start, end)` as times of day.
   */
  function Overlapping(rows: seq<Booking>, excluded: Option<int>, service: int, date: int, start: Minute, end: Minute): (r: seq<Booking>)
    ensures forall b :: b in r <==>
      b in rows && b.service == service && b.date == date && Some(b.id) != excluded && start <= b.time < end
  {
    if rows == [] then []
    else
      var rest := Overlapping(rows[1..], excluded, service, date, start, end);
      var b := rows[0];
      if b.service == service && b.date == date && Some(b.id) != excluded && start <= b.time < end
      then [b] + rest else rest
  }

  const AlreadyBookedMessage := "This time slot is already booked!"

  /**
   * `validate(data)`: `instance` is the booking being updated, or `None`
   * on create; `duration` is the duration of `data.service`.
   */
  function Validate(rows: seq<Booking>, instance: Option<Booking>, data: BookingData, duration: nat): (r: Result<BookingData>)
    ensures r.Ok? ==> r.value == data
    ensures r.Err? ==> r.message == AlreadyBookedMessage
    ensures data.time + duration < MinutesPerDay ==>
      (r.Err? <==> exists b :: b in rows && b.service == data.service && b.date == data.date &&
                               (instance.None? || b.id != instance.value.id) &&
                               data.time <= b.time < data.time + duration)
    ensures MinutesPerDay <= data.time + duration && duration <= MinutesPerDay ==> r == Ok(data)
  {
    var start := data.time;
    var end := WindowEnd(data.time, duration);
    var excluded := if instance.Some? then Some(instance.value.id) else None;
    var found := Overlapping(rows, excluded, data.service, data.date, start, end);
    if |found| > 0 then
      assert found[0] in found;
      Err(AlreadyBookedMessage)
    else Ok(data)
  }

  /** The master plays no part: changing only the submitted master does not change the verdict's kind. */
  lemma ValidateIgnoresMaster(rows: seq<Booking>, instance: Option<Booking>, data: BookingData, master: Option<int>, duration: nat)
    ensures Validate(rows, instance, data, duration).Err? == Validate(rows, instance, data.(master := master), duration).Err?
  {
  }

  /**
   * On update the edited row does not conflict with itself; the same row
   * submitted as a new booking (nothing excluded) does.
   */
  lemma ValidateExcludesInstance(row: Booking, duration: nat)
    requires 0 < duration && row.time + duration < MinutesPerDay
    ensures var data := BookingData(row.user, row.master, row.service, row.date, row.time, row.status);
            Validate([row], Some(row), data, duration) == Ok(data) &&
            Validate([row], None, data, duration).Err?
  {
    assert row in [row];
  }

  /** The serializer and `Booking.clean` give the same verdict on the same booking. */
  lemma ValidateAgreesWithClean(rows: seq<Booking>, instance: Option<Booking>, data: BookingData, duration: nat)
    ensures Validate(rows, instance, data, duration).Err? <==>
      Clean(rows, if instance.Some? then Some(instance.value.id) else None,
            data.service, data.date, data.time, duration).Fail?
  {
    var excluded := if instance.Some? then Some(instance.value.id) else None;
    var end := WindowEnd(data.time, duration);
    var found := Overlapping(rows, excluded, data.service, data.date, data.time, end);
    if |found| > 0 {
      assert found[0] in found;
      assert CleanCandidate(found[0], excluded, data.service, data.date, data.time, WindowEnd(data.time, duration));
    }
    if b :| b in rows && CleanCandidate(b, excluded, data.service, data.date, data.time, WindowEnd(data.time, duration)) {
      assert b in found;
    }
  }
}
