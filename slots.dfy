/**
 * The available-slots endpoint (the `available_slots` view routed by the
 * booking API): from 09:00 it steps in 30-minute increments while a
 * service of the requested duration still ends by 18:00, and keeps a start
 * time unless a booking of the same service on that date starts exactly then.
 */
module Slots {
  import opened Wrappers
  import opened Models

  const Opening := 9 * 60
  const Closing := 18 * 60
  const Step := 30

  /** A start time the generator visits and for which the service fits in working hours. */
  predicate OnGrid(t: int, duration: nat) {
    Opening <= t && t + duration <= Closing && (t - Opening) % Step == 0
  }

  /** The generator's only test: some booking of the service on that date starts exactly at `t`. */
  predicate Taken(rows: seq<Booking>, service: int, date: int, t: int) {
    exists b :: b in rows && b.service == service && b.date == date && b.time == t
  }

  /** A start time the endpoint offers. */
  predicate Offered(rows: seq<Booking>, service: int, date: int, duration: nat, t: int) {
    OnGrid(t, duration) && !Taken(rows, service, date, t)
  }

  /**
   * The stepping loop. The result is strictly increasing and holds exactly
   * the offered start times, so it is the ordered list of them.
   */
  method FreeSlots(rows: seq<Booking>, service: int, duration: nat, date: int) returns (slots: seq<Minute>)
    ensures forall k :: 0 <= k < |slots| ==> OnGrid(slots[k], duration)
    ensures forall k, l :: 0 <= k < l < |slots| ==> slots[k] < slots[l]
    ensures forall t :: OnGrid(t, duration) ==> (t in slots <==> !Taken(rows, service, date, t))
    ensures duration > Closing - Opening ==> slots == []
  {
    slots := [];
    var t := Opening;
    while t + duration <= Closing
      invariant Opening <= t && (t - Opening) % Step == 0
      invariant forall k :: 0 <= k < |slots| ==> OnGrid(slots[k], duration) && slots[k] < t
      invariant forall k, l :: 0 <= k < l < |slots| ==> slots[k] < slots[l]
      invariant duration > Closing - Opening ==> slots == []
      invariant forall u :: OnGrid(u, duration) && u < t ==> (u in slots <==> !Taken(rows, service, date, u))
      decreases Closing - t
    {
      if !Taken(rows, service, date, t) {
        slots := slots + [t];
      }
      t := t + Step;
    }
  }

  const MissingParameters := "service_id and date are required"
  const UnknownService := "Service matching query does not exist."

  /**
   * The endpoint: both query parameters are required (an empty one counts
   * as missing); an unknown service id is the unhandled lookup error.
   */
  method AvailableSlots(rows: seq<Booking>, services: map<int, Service>, serviceId: Option<int>, date: Option<int>)
    returns (r: Result<seq<Minute>>)
    ensures serviceId.None? || date.None? ==> r == Err(MissingParameters)
    ensures serviceId.Some? && date.Some? && serviceId.value !in services ==> r == Err(UnknownService)
    ensures r.Ok? <==> serviceId.Some? && date.Some? && serviceId.value in services
    ensures r.Ok? ==>
      var service := services[serviceId.value];
      (forall k, l :: 0 <= k < l < |r.value| ==> r.value[k] < r.value[l]) &&
      (forall t :: t in r.value <==> Offered(rows, serviceId.value, date.value, service.duration, t))
  {
    if serviceId.None? || date.None? {
      return Err(MissingParameters);
    }
    if serviceId.value !in services {
      return Err(UnknownService);
    }
    var service := services[serviceId.value];
    var slots := FreeSlots(rows, serviceId.value, service.duration, date.value);
    return Ok(slots);
  }

  /** The offered times never depend on which master the bookings belong to. */
  lemma OfferedIgnoresMaster(rows: seq<Booking>, other: seq<Booking>, service: int, date: int, duration: nat, t: int)
    requires SameButMasters(rows, other)
    ensures Offered(rows, service, date, duration, t) == Offered(other, service, date, duration, t)
  {
    if b :| b in rows && b.service == service && b.date == date && b.time == t {
      var i :| 0 <= i < |rows| && rows[i] == b;
      assert other[i] in other;
    }
    if b :| b in other && b.service == service && b.date == date && b.time == t {
      var i :| 0 <= i < |other| && other[i] == b;
      assert rows[i] in rows;
    }
  }

  /** A day with no bookings offers the whole grid: 09:00 and every half hour that still fits. */
  lemma EmptyDayOffersGrid(service: int, date: int, duration: nat, t: int)
    requires OnGrid(t, duration)
    ensures Offered([], service, date, duration, t)
  {
  }
}
