/**
 * The records of the booking application (users/models.py): services,
 * bookings, reviews and user accounts, the table constraints the database
 * enforces, and `Booking.clean`, the model-level time-slot check.
 */
module Models {
  import opened Wrappers

  const MinutesPerDay := 1440

  /** A time of day (a `TimeField`), in minutes since midnight. */
  type Minute = t: int | 0 <= t < MinutesPerDay

  const Pending := "pending"
  const Confirmed := "confirmed"
  const Completed := "completed"
  const Canceled := "canceled"

  /** The declared choices of `Booking.status`, in declaration order. */
  const StatusChoices: seq<string> := [Pending, Confirmed, Completed, Canceled]

  /** The `max_length` of a booking's status column. */
  const StatusMaxLength := 50

  const CategoryChoices: seq<string> := ["hair", "nail", "massage"]

  /** A service; `price` is a count of the smallest currency unit. */
  datatype Service = Service(id: int, name: string, price: int, duration: nat, category: string)

  /**
   * A booking row. `master` is a nullable foreign key; `date` is a day
   * number. `status` is free text: the declared choices are not enforced
   * when a status is assigned and saved.
   */
  datatype Booking = Booking(
    id: int, user: int, master: Option<int>, service: int,
    date: int, time: Minute, status: string)

  /** A review row; `booking` is a one-to-one key. */
  datatype Review = Review(
    booking: int, user: int, service: Option<int>, master: Option<int>,
    rating: int, comment: string)

  /** A booking as the model builds it when time and status are left to their defaults. */
  function NewBooking(id: int, user: int, master: Option<int>, service: int, date: int): (b: Booking)
    ensures b.status in StatusChoices && b.status == StatusChoices[0]
    ensures b.time == 12 * 60
    ensures b.id == id && b.user == user && b.master == master && b.service == service && b.date == date
  {
    Booking(id, user, master, service, date, 720, Pending)
  }

  /** The declared rating choices of a review: 1 to 5. */
  predicate RatingChoice(rating: int) {
    1 <= rating <= 5
  }

  /**
   * The values an integer column of the database can hold. It depends on
   * the backend (a signed 64-bit integer in SQLite, 32-bit in PostgreSQL
   * and MySQL), so it is a parameter; storing a value outside it fails.
   */
  datatype ColumnRange = ColumnRange(lo: int, hi: int)

  predicate Fits(column: ColumnRange, value: int) {
    column.lo <= value <= column.hi
  }

  /** Row ids are unique, as a primary key makes them. */
  predicate IdsDistinct(rows: seq<Booking>) {
    forall i, j :: 0 <= i < j < |rows| ==> rows[i].id != rows[j].id
  }

  /**
   * `unique_together = (master, booking_date, booking_time)`: no two rows
   * share all three. Under SQL semantics a row whose master is NULL is
   * not constrained.
   */
  predicate SlotsUnique(rows: seq<Booking>) {
    forall a, b ::
      a in rows && b in rows && a.id != b.id && a.master.Some? && a.master == b.master && a.date == b.date
      ==> a.time != b.time
  }

  /** Where the row with primary key `id` sits, as `objects.get(id=...)` finds it. */
  function IndexOfId(rows: seq<Booking>, id: int): (r: Option<nat>)
    ensures r.Some? ==> r.value < |rows| && rows[r.value].id == id
    ensures r.None? <==> forall b :: b in rows ==> b.id != id
  {
    if rows == [] then None
    else if rows[0].id == id then Some(0)
    else
      var rest := IndexOfId(rows[1..], id);
      if rest.Some? then Some(rest.value + 1) else None
  }

  /** With unique ids, `get(id=...)` finds exactly the row that carries the id. */
  lemma IndexOfIdFinds(rows: seq<Booking>, b: Booking)
    requires IdsDistinct(rows) && b in rows
    ensures IndexOfId(rows, b.id).Some? && rows[IndexOfId(rows, b.id).value] == b
  {
    var m :| 0 <= m < |rows| && rows[m] == b;
  }

  /** The end of `[start, start + duration)` as a time of day: it wraps past midnight. */
  function WindowEnd(start: Minute, duration: nat): (end: Minute)
    ensures start + duration < MinutesPerDay ==> end == start + duration
    ensures MinutesPerDay <= start + duration < 2 * MinutesPerDay ==> end == start + duration - MinutesPerDay
  {
    (start + duration) % MinutesPerDay
  }

  /**
   * The query of `Booking.clean`: same service, same date, not the row
   * being cleaned, and a start time in `[start, end)` compared as times of day.
   */
  predicate CleanCandidate(b: Booking, selfId: Option<int>, service: int, date: int, start: Minute, end: Minute) {
    b.service == service && b.date == date && Some(b.id) != selfId &&
    start <= b.time < end
  }

  const SlotTakenMessage := "This time slot is already taken!"

  /**
   * `Booking.clean` for a booking of `service` on `date` at `time`, whose
   * service lasts `duration` minutes. `selfId` is the booking's own id, or
   * `None` while it is unsaved (then nothing is excluded).
   */
  function Clean(rows: seq<Booking>, selfId: Option<int>, service: int, date: int, time: Minute, duration: nat): (r: Outcome)
    ensures r.Fail? ==> r.message == SlotTakenMessage
    ensures r.Fail? ==> exists b :: b in rows && b.service == service && b.date == date && Some(b.id) != selfId
    ensures time + duration < MinutesPerDay ==>
      (r.Fail? <==> exists b :: b in rows && b.service == service && b.date == date &&
                                Some(b.id) != selfId && time <= b.time < time + duration)
    ensures MinutesPerDay <= time + duration && duration <= MinutesPerDay ==> r == Pass
  {
    var end := WindowEnd(time, duration);
    if exists b :: b in rows && CleanCandidate(b, selfId, service, date, time, end) then Fail(SlotTakenMessage)
    else Pass
  }

  /** The row being cleaned is never reported against itself, although its own start lies in its window. */
  lemma CleanExcludesItself(self: Booking, duration: nat)
    requires 0 < duration && self.time + duration < MinutesPerDay
    ensures Clean([self], Some(self.id), self.service, self.date, self.time, duration) == Pass
    ensures Clean([self], None, self.service, self.date, self.time, duration).Fail?
  {
    assert self in [self];
  }

  /** Two tables that differ only in the masters of their rows. */
  predicate SameButMasters(rows: seq<Booking>, other: seq<Booking>) {
    |rows| == |other| &&
    forall i :: 0 <= i < |rows| ==> other[i] == rows[i].(master := other[i].master)
  }

  /** `Booking.clean` never looks at the master: reassigning masters does not change its verdict. */
  lemma CleanIgnoresMaster(rows: seq<Booking>, other: seq<Booking>, selfId: Option<int>,
                           service: int, date: int, time: Minute, duration: nat)
    requires SameButMasters(rows, other)
    ensures Clean(rows, selfId, service, date, time, duration) == Clean(other, selfId, service, date, time, duration)
  {
    var end := WindowEnd(time, duration);
    if b :| b in rows && CleanCandidate(b, selfId, service, date, time, end) {
      var i :| 0 <= i < |rows| && rows[i] == b;
      assert other[i] in other && CleanCandidate(other[i], selfId, service, date, time, end);
    }
    if b :| b in other && CleanCandidate(b, selfId, service, date, time, end) {
      var i :| 0 <= i < |other| && other[i] == b;
      assert rows[i] in rows && CleanCandidate(rows[i], selfId, service, date, time, end);
    }
  }

  /**
   * Only starts inside the new window are detected: a booking of the same
   * service that began earlier and is still running at `time` is not reported.
   */
  lemma CleanMissesRunningBooking(earlier: Booking, time: Minute, duration: nat)
    requires earlier.time < time < earlier.time + duration
    requires time + duration < MinutesPerDay
    ensures Clean([earlier], None, earlier.service, earlier.date, time, duration) == Pass
  {
  }

  /** A different-service booking of the same master never conflicts. */
  lemma CleanIgnoresOtherServices(rows: seq<Booking>, selfId: Option<int>, service: int, date: int, time: Minute, duration: nat)
    requires forall b :: b in rows ==> b.service != service
    ensures Clean(rows, selfId, service, date, time, duration) == Pass
  {
  }

  /** The booking table: its rows and the next id the primary key will hand out. */
  class BookingTable {
    var rows: seq<Booking>
    var nextId: int

    /** Primary-key uniqueness, fresh ids, and `unique_together`. */
    ghost predicate Valid()
      reads this
    {
      IdsDistinct(rows) && (forall b :: b in rows ==> b.id < nextId) && SlotsUnique(rows)
    }

    constructor ()
      ensures Valid() && rows == [] && nextId == 1
    {
      rows := [];
      nextId := 1;
    }
  }

  /** No two reviews belong to the same booking. */
  predicate OneReviewPerBooking(rows: seq<Review>) {
    forall i, j :: 0 <= i < j < |rows| ==> rows[i].booking != rows[j].booking
  }

  /**
   * `on_delete=CASCADE` from a review to its booking: deleting booking `id`
   * deletes the reviews that belong to it and keeps the others, in order.
   */
  function ReviewsWithout(rows: seq<Review>, id: int): (r: seq<Review>)
    ensures forall x :: x in r <==> x in rows && x.booking != id
    ensures multiset(r) <= multiset(rows)
  {
    if rows == [] then []
    else
      assert rows == [rows[0]] + rows[1..];
      if rows[0].booking == id then ReviewsWithout(rows[1..], id)
      else [rows[0]] + ReviewsWithout(rows[1..], id)
  }

  /** In a table with one review per booking, the first review's booking has no other review. */
  lemma FirstReviewAlone(rows: seq<Review>)
    requires OneReviewPerBooking(rows) && rows != []
    ensures forall x :: x in rows[1..] ==> x.booking != rows[0].booking
  {
    forall x | x in rows[1..] ensures x.booking != rows[0].booking {
      var m :| 0 <= m < |rows[1..]| && rows[1..][m] == x;
      assert rows[m + 1] == x;
    }
  }

  /** Putting in front a review whose booking has no review yet keeps one review per booking. */
  lemma ConsKeepsOne(h: Review, rest: seq<Review>)
    requires OneReviewPerBooking(rest) && forall x :: x in rest ==> x.booking != h.booking
    ensures OneReviewPerBooking([h] + rest)
  {
    var r := [h] + rest;
    forall i, j | 0 <= i < j < |r| ensures r[i].booking != r[j].booking {
      if i == 0 {
        assert r[j] == rest[j - 1];
      } else {
        assert r[i] == rest[i - 1] && r[j] == rest[j - 1];
      }
    }
  }

  /** The cascade keeps a booking's review unique. */
  lemma {:induction false} ReviewsWithoutKeepsOne(rows: seq<Review>, id: int)
    requires OneReviewPerBooking(rows)
    ensures OneReviewPerBooking(ReviewsWithout(rows, id))
  {
    if rows != [] {
      assert OneReviewPerBooking(rows[1..]) by {
        forall i, j | 0 <= i < j < |rows[1..]| ensures rows[1..][i].booking != rows[1..][j].booking {
          assert rows[1..][i] == rows[i + 1] && rows[1..][j] == rows[j + 1];
        }
      }
      ReviewsWithoutKeepsOne(rows[1..], id);
      if rows[0].booking != id {
        FirstReviewAlone(rows);
        ConsKeepsOne(rows[0], ReviewsWithout(rows[1..], id));
      }
    }
  }

  /** The review table. */
  class ReviewTable {
    var rows: seq<Review>

    /** `OneToOneField(Booking)`: a booking has at most one review. */
    ghost predicate Valid()
      reads this
    {
      OneReviewPerBooking(rows)
    }

    constructor ()
      ensures Valid() && rows == []
    {
      rows := [];
    }
  }

  /** A user account's role fields: `role` (default "user") and `is_owner` (default false). */
  class UserAccount {
    var role: string
    var isOwner: bool

    constructor ()
      ensures role == "user" && !isOwner
    {
      role := "user";
      isOwner := false;
    }
  }

  /** The filter parameters of the service list; a numeric bound is `None` when left blank. */
  datatype FilterQuery = FilterQuery(
    category: string, priceMin: Option<int>, priceMax: Option<int>,
    durationMin: Option<int>, durationMax: Option<int>, sortBy: string)

  const SortChoices: seq<string> := ["price", "duration", "name"]

  /**
   * `ServiceFilterForm` as declared beside the models, the one the service
   * list uses: `category` is a required choice, so it must be one of the
   * categories; the bounds have no lower limit; `sort_by` is optional.
   */
  predicate LiveFilterFormValid(q: FilterQuery) {
    q.category in CategoryChoices && (q.sortBy == "" || q.sortBy in SortChoices)
  }
}
