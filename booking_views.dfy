/**
 * The client booking endpoints (users/views.py): `create_booking` inserts
 * a pending booking after an exact (master, date, time) clash check, and
 * `cancel_booking` deletes a booking, and its review, unless it is dated
 * in the past.
 * Request bodies arrive already decoded; `today` stands for the clock.
 */
module BookingViews {
  import opened Wrappers
  import opened Models

  /** Python truthiness of a decoded JSON id: present and not 0. */
  predicate Truthy(id: Option<int>) {
    id.Some? && id.value != 0
  }

  /** `create_booking`'s clash query: a booking of this master on this date at exactly this time. */
  predicate MasterBusy(rows: seq<Booking>, master: int, date: int, time: Minute) {
    exists b :: b in rows && b.master == Some(master) && b.date == date && b.time == time
  }

  /** Every field of the request is present (an empty date or time string counts as absent). */
  predicate AllFieldsGiven(serviceId: Option<int>, masterId: Option<int>, date: Option<int>, time: Option<Minute>) {
    Truthy(serviceId) && Truthy(masterId) && date.Some? && time.Some?
  }

  const FieldsRequired := "All fields are required!"
  const NotFound := "Service or master not found!"
  const MasterBooked := "This master is already booked at the selected time!"
  const BookingCreated := "Booking successful, please check your email"
  const NoSalon := "'NoneType' object has no attribute 'name'"

  /**
   * The clash check is exactly what `unique_together` needs: a fresh row
   * with a master keeps the table's slots unique if and only if that
   * master has no booking at the same date and time.
   */
  lemma MasterBusyIffClash(rows: seq<Booking>, b: Booking)
    requires SlotsUnique(rows)
    requires b.master.Some? && forall a :: a in rows ==> a.id != b.id
    ensures SlotsUnique(rows + [b]) <==> !MasterBusy(rows, b.master.value, b.date, b.time)
  {
    if a :| a in rows && a.master == b.master && a.date == b.date && a.time == b.time {
      assert a in rows + [b] && b in rows + [b];
    }
  }

  /**
   * `create_booking` for user `user`; `services` holds the service ids that
   * exist and `masters` maps each existing master to its salon, if it has
   * one. The row is saved before the confirmation email is composed, and
   * composing it reads the salon's name: for a master without a salon that
   * fails with a server error, and the saved row stays.
   */
  method CreateBooking(db: BookingTable, services: set<int>, masters: map<int, Option<int>>, user: int,
                       serviceId: Option<int>, masterId: Option<int>, date: Option<int>, time: Option<Minute>)
    returns (reply: Reply)
    requires db.Valid()
    modifies db
    ensures db.Valid()
    ensures !AllFieldsGiven(serviceId, masterId, date, time) ==> reply == Reply(400, FieldsRequired)
    ensures (AllFieldsGiven(serviceId, masterId, date, time) &&
             (serviceId.value !in services || masterId.value !in masters))
            ==> reply == Reply(404, NotFound)
    ensures (AllFieldsGiven(serviceId, masterId, date, time) &&
             serviceId.value in services && masterId.value in masters &&
             MasterBusy(old(db.rows), masterId.value, date.value, time.value))
            ==> reply == Reply(400, MasterBooked)
    ensures db.rows != old(db.rows) <==>
      AllFieldsGiven(serviceId, masterId, date, time) &&
      serviceId.value in services && masterId.value in masters &&
      !MasterBusy(old(db.rows), masterId.value, date.value, time.value)
    ensures db.rows != old(db.rows) ==>
      db.rows == old(db.rows) + [Booking(old(db.nextId), user, Some(masterId.value), serviceId.value,
                                         date.value, time.value, Pending)] &&
      db.nextId == old(db.nextId) + 1 &&
      reply == (if masters[masterId.value].Some? then Reply(201, BookingCreated) else Reply(500, NoSalon))
    ensures reply.status == 201 <==> db.rows != old(db.rows) && masters[masterId.value].Some?
    ensures db.rows == old(db.rows) ==> unchanged(db)
  {
    if !AllFieldsGiven(serviceId, masterId, date, time) {
      return Reply(400, FieldsRequired);
    }
    if serviceId.value !in services || masterId.value !in masters {
      return Reply(404, NotFound);
    }
    if MasterBusy(db.rows, masterId.value, date.value, time.value) {
      return Reply(400, MasterBooked);
    }
    var booking := Booking(db.nextId, user, Some(masterId.value), serviceId.value, date.value, time.value, Pending);
    MasterBusyIffClash(db.rows, booking);
    db.rows := db.rows + [booking];
    db.nextId := db.nextId + 1;
    assert db.rows[|db.rows| - 1] == booking;
    if masters[masterId.value].None? {
      return Reply(500, NoSalon);
    }
    reply := Reply(201, BookingCreated);
  }

  /** A row left after deleting the row at `k` was in the table and has another id. */
  lemma RemoveAtKeepsOthersOnly(rows: seq<Booking>, k: nat, b: Booking)
    requires IdsDistinct(rows) && k < |rows| && b in rows[..k] + rows[k + 1..]
    ensures b in rows && b.id != rows[k].id
  {
    var rest := rows[..k] + rows[k + 1..];
    var m :| 0 <= m < |rest| && rest[m] == b;
    var n := if m < k then m else m + 1;
    assert rest[m] == rows[n] && n != k;
  }

  /** A row with another id than the row at `k` survives its deletion. */
  lemma RemoveAtKeepsOthers(rows: seq<Booking>, k: nat, b: Booking)
    requires k < |rows| && b in rows && b.id != rows[k].id
    ensures b in rows[..k] + rows[k + 1..]
  {
    var rest := rows[..k] + rows[k + 1..];
    var m :| 0 <= m < |rows| && rows[m] == b;
    assert m != k;
    assert rest[if m < k then m else m - 1] == b;
  }

  /** The rows left after deleting the row at `k` are exactly those with another id. */
  lemma RemoveAtMembers(rows: seq<Booking>, k: nat)
    requires IdsDistinct(rows) && k < |rows|
    ensures forall b :: b in rows[..k] + rows[k + 1..] <==> b in rows && b.id != rows[k].id
  {
    forall b | b in rows[..k] + rows[k + 1..] ensures b in rows && b.id != rows[k].id {
      RemoveAtKeepsOthersOnly(rows, k, b);
    }
    forall b | b in rows && b.id != rows[k].id ensures b in rows[..k] + rows[k + 1..] {
      RemoveAtKeepsOthers(rows, k, b);
    }
  }

  /** Deleting the row at `k` keeps the remaining ids distinct. */
  lemma RemoveAtDistinct(rows: seq<Booking>, k: nat)
    requires IdsDistinct(rows) && k < |rows|
    ensures IdsDistinct(rows[..k] + rows[k + 1..])
  {
    var rest := rows[..k] + rows[k + 1..];
    forall i, j | 0 <= i < j < |rest| ensures rest[i].id != rest[j].id {
      var i' := if i < k then i else i + 1;
      var j' := if j < k then j else j + 1;
      assert rest[i] == rows[i'] && rest[j] == rows[j'] && i' < j';
    }
  }

  /** Deleting the row at `k` keeps the table valid and removes exactly the rows with its id. */
  lemma RemoveAtKeepsValid(rows: seq<Booking>, nextId: int, k: nat)
    requires IdsDistinct(rows) && (forall b :: b in rows ==> b.id < nextId) && SlotsUnique(rows)
    requires k < |rows|
    ensures var rest := rows[..k] + rows[k + 1..];
      IdsDistinct(rest) && (forall b :: b in rest ==> b.id < nextId) && SlotsUnique(rest) &&
      (forall b :: b in rest <==> b in rows && b.id != rows[k].id)
  {
    RemoveAtMembers(rows, k);
    RemoveAtDistinct(rows, k);
  }

  const IdMissing := "Booking ID not provided!"
  const PastBooking := "Cannot cancel past booking!"
  const BookingMissing := "Booking not found"
  const BookingCanceled := "Booking canceled, notification sent!"

  /**
   * `cancel_booking`: a hard delete of the booking with the given id; the
   * review of that booking, if any, is deleted with it.
   */
  method CancelBooking(db: BookingTable, reviews: ReviewTable, bookingId: Option<int>, today: int) returns (reply: Reply)
    requires db.Valid() && reviews.Valid()
    modifies db, reviews
    ensures db.Valid() && reviews.Valid() && db.nextId == old(db.nextId)
    ensures !Truthy(bookingId) ==> reply == Reply(400, IdMissing)
    ensures Truthy(bookingId) && IndexOfId(old(db.rows), bookingId.value).None? ==> reply == Reply(404, BookingMissing)
    ensures (Truthy(bookingId) && IndexOfId(old(db.rows), bookingId.value).Some? &&
             old(db.rows)[IndexOfId(old(db.rows), bookingId.value).value].date < today)
            ==> reply == Reply(400, PastBooking)
    ensures reply.status == 200 <==>
      Truthy(bookingId) && IndexOfId(old(db.rows), bookingId.value).Some? &&
      old(db.rows)[IndexOfId(old(db.rows), bookingId.value).value].date >= today
    ensures reply.status == 200 ==>
      reply.message == BookingCanceled &&
      (forall b :: b in db.rows <==> b in old(db.rows) && b.id != bookingId.value) &&
      reviews.rows == ReviewsWithout(old(reviews.rows), bookingId.value) &&
      (forall r :: r in reviews.rows <==> r in old(reviews.rows) && r.booking != bookingId.value)
    ensures reply.status != 200 ==> unchanged(db) && unchanged(reviews)
    ensures forall b :: b in old(db.rows) && b.date < today ==> b in db.rows
  {
    if !Truthy(bookingId) {
      return Reply(400, IdMissing);
    }
    var found := IndexOfId(db.rows, bookingId.value);
    if found.None? {
      return Reply(404, BookingMissing);
    }
    var k := found.value;
    if db.rows[k].date < today {
      return Reply(400, PastBooking);
    }
    RemoveAtKeepsValid(db.rows, db.nextId, k);
    db.rows := db.rows[..k] + db.rows[k + 1..];
    ReviewsWithoutKeepsOne(reviews.rows, bookingId.value);
    reviews.rows := ReviewsWithout(reviews.rows, bookingId.value);
    reply := Reply(200, BookingCanceled);
  }
}
