/**
 * The app checks booking conflicts in five places, with four different
 * rules: `Booking.clean` and the serializer look for a same-service start
 * inside the new window, `create_booking` for the same master at the same
 * exact start, the booking form for any same-service booking that day, and
 * the slot generator offers every grid time no same-service booking starts
 * at. These lemmas relate the rules to one another.
 */
module ConflictRules {
  import opened Wrappers
  import opened Models
  import opened Forms
  import opened Slots
  import opened BookingViews

  /**
   * The generator only avoids exact starts, so it offers a slot whose
   * window holds a later same-service start, and `clean` rejects that slot.
   */
  lemma OfferedSlotRejectedByClean(rows: seq<Booking>, service: int, date: int, duration: nat, t: Minute, b: Booking)
    requires Offered(rows, service, date, duration, t)
    requires b in rows && b.service == service && b.date == date && t < b.time < t + duration
    ensures Clean(rows, None, service, date, t, duration).Fail?
  {
    assert t + duration <= Closing;
  }

  /** Such a slot exists: a 60-minute service booked at 09:30 leaves 09:00 on offer, which `clean` refuses. */
  lemma OfferedSlotRejectedExample(b: Booking)
    requires b.time == Opening + Step
    ensures Offered([b], b.service, b.date, 60, Opening)
    ensures Clean([b], None, b.service, b.date, Opening, 60).Fail?
  {
    OfferedSlotRejectedByClean([b], b.service, b.date, 60, Opening, b);
  }

  /** A grid time the generator leaves out is one `clean` rejects for a new booking. */
  lemma TakenSlotRejectedByClean(rows: seq<Booking>, service: int, date: int, duration: nat, t: Minute)
    requires Taken(rows, service, date, t) && 0 < duration && t + duration < MinutesPerDay
    ensures Clean(rows, None, service, date, t, duration).Fail?
  {
    var b :| b in rows && b.service == service && b.date == date && b.time == t;
    assert Some(b.id) != None;
  }

  /** Whatever `clean` rejects, the booking form rejects too: its rule is coarser. */
  lemma CleanRejectionImpliesDateRejection(rows: seq<Booking>, selfId: Option<int>, service: int, date: int, time: Minute, duration: nat)
    requires Clean(rows, selfId, service, date, time, duration).Fail?
    ensures CleanBookingDate(rows, Some(service), date).Err?
  {
  }

  /** The converse fails: a same-day booking outside the window passes `clean` but not the form. */
  lemma DateRejectionWithoutCleanConflict(b: Booking, time: Minute, duration: nat)
    requires b.time < time && time + duration < MinutesPerDay
    ensures Clean([b], None, b.service, b.date, time, duration) == Pass
    ensures CleanBookingDate([b], Some(b.service), b.date).Err?
  {
    assert b in [b];
  }

  /**
   * `create_booking` only refuses the master's exact start, so a booking
   * overlapping the master's existing booking of the same service is created
   * even though `clean` would refuse it.
   */
  lemma CreateAcceptsOverlap(b: Booking, time: Minute, duration: nat)
    requires b.master.Some? && time < b.time < time + duration && time + duration < MinutesPerDay
    ensures !MasterBusy([b], b.master.value, b.date, time)
    ensures Clean([b], None, b.service, b.date, time, duration).Fail?
  {
    assert b in [b];
  }

  /** And the reverse: the master's exact start with another service is refused by `create_booking` only. */
  lemma CreateRefusesWhatCleanAllows(b: Booking, service: int, duration: nat)
    requires b.master.Some? && b.service != service
    ensures MasterBusy([b], b.master.value, b.date, b.time)
    ensures Clean([b], None, service, b.date, b.time, duration) == Pass
  {
    assert b in [b];
  }
}
