/**
 * The owner's admin panel (admin_panel/views.py): the booking status
 * transition guard, the rating links mailed when a booking is completed,
 * the review created from such a link, the role flag update and the status
 * filter of the bookings page.
 */
module AdminViews {
  import opened Wrappers
  import opened Text
  import opened Models

  const CompletedMessage := "Cannot change a completed booking."
  const CanceledMessage := "Cannot change a canceled booking."
  const UnconfirmedMessage := "Booking must be confirmed before completing."
  const PastDateMessage := "Cannot confirm a booking with a past date."

  /**
   * The transitions the guard lets through, rule by rule: nothing leaves
   * `completed`; `completed` is reached only from `confirmed`; `confirmed`
   * is reached neither from `canceled` nor for a date before today. Any
   * other requested text, including none at all, passes.
   */
  predicate Permitted(current: string, requested: Option<string>, date: int, today: int) {
    current != Completed &&
    (requested == Some(Completed) ==> current == Confirmed) &&
    (requested == Some(Confirmed) ==> current != Canceled && date >= today)
  }

  /**
   * The ordered checks of `update_booking_status`: the message of the
   * first failing one, or `None` when all pass. `requested` is the posted
   * `status`, unchecked against the choices.
   */
  function StatusCheck(current: string, requested: Option<string>, date: int, today: int): (rejection: Option<string>)
    ensures rejection.None? <==> Permitted(current, requested, date, today)
    ensures current == Completed ==> rejection == Some(CompletedMessage)
    ensures current == Canceled && (requested == Some(Confirmed) || requested == Some(Completed)) ==>
      rejection == Some(CanceledMessage)
    ensures current != Completed && current != Canceled && requested == Some(Completed) ==>
      (rejection.None? <==> current == Confirmed) &&
      (rejection.Some? ==> rejection.value == UnconfirmedMessage)
    ensures current != Completed && current != Canceled && requested == Some(Confirmed) ==>
      (rejection.None? <==> date >= today) &&
      (rejection.Some? ==> rejection.value == PastDateMessage)
  {
    if current == Completed then Some(CompletedMessage)
    else if current == Canceled && requested in [Some(Confirmed), Some(Completed)] then Some(CanceledMessage)
    else if requested == Some(Completed) && current != Confirmed then Some(UnconfirmedMessage)
    else if requested == Some(Confirmed) && date < today then Some(PastDateMessage)
    else None
  }

  /** A canceled booking is not terminal: it can be set back to pending, or to any unlisted text. */
  lemma CanceledCanBeReopened(date: int, today: int, requested: string)
    requires requested != Confirmed && requested != Completed
    ensures StatusCheck(Canceled, Some(requested), date, today) == None
    ensures StatusCheck(Canceled, Some(Pending), date, today) == None
  {
  }

  /** The guard does not keep statuses within the declared choices. */
  lemma UnlistedStatusPasses(date: int, today: int)
    ensures StatusCheck(Pending, Some("archived"), date, today) == None && "archived" !in StatusChoices
  {
  }

  /** How a status update request ends. */
  datatype StatusOutcome =
    | BookingNotFound
    | NotPosted
    | Rejected(message: string)
    | Updated
    | SaveFailed  // the save fails: a NULL status, or a text too long for the column

  /** Changing one row's status keeps the table valid. */
  lemma SetStatusKeepsValid(rows: seq<Booking>, nextId: int, k: nat, status: string)
    requires IdsDistinct(rows) && (forall b :: b in rows ==> b.id < nextId) && SlotsUnique(rows)
    requires k < |rows|
    ensures var updated := rows[k := rows[k].(status := status)];
      IdsDistinct(updated) && (forall b :: b in updated ==> b.id < nextId) && SlotsUnique(updated)
  {
    var updated := rows[k := rows[k].(status := status)];
    forall a, b | a in updated && b in updated && a.id != b.id && a.master.Some? && a.master == b.master && a.date == b.date
      ensures a.time != b.time
    {
      var i :| 0 <= i < |updated| && updated[i] == a;
      var j :| 0 <= j < |updated| && updated[j] == b;
      assert rows[i] in rows && rows[j] in rows;
      assert rows[i].id == a.id && rows[i].master == a.master && rows[i].date == a.date && rows[i].time == a.time;
      assert rows[j].id == b.id && rows[j].master == b.master && rows[j].date == b.date && rows[j].time == b.time;
    }
  }

  /** Saving `status` fails: no text was posted, or the backend enforces the column's length and the text exceeds it. */
  predicate SaveFails(status: Option<string>, enforcesLength: bool) {
    status.None? || (enforcesLength && |status.value| > StatusMaxLength)
  }

  /** Every declared status fits the column, so saving one never fails, whatever the backend. */
  lemma DeclaredStatusSaves(status: string, enforcesLength: bool)
    requires status in StatusChoices
    ensures !SaveFails(Some(status), enforcesLength)
  {
  }

  /**
   * `update_booking_status`. On success the status becomes exactly the
   * requested text and nothing else changes. `reviewRequested` is the
   * review-request email, sent when `completed` passes the guard, before
   * the save. `enforcesLength` says whether the database backend refuses a
   * text longer than the column (PostgreSQL does, SQLite does not).
   */
  method UpdateBookingStatus(db: BookingTable, bookingId: int, isPost: bool, newStatus: Option<string>, today: int,
                             enforcesLength: bool)
    returns (outcome: StatusOutcome, reviewRequested: bool)
    requires db.Valid()
    modifies db
    ensures db.Valid() && db.nextId == old(db.nextId)
    ensures IndexOfId(old(db.rows), bookingId).None? ==> outcome == BookingNotFound
    ensures IndexOfId(old(db.rows), bookingId).Some? && !isPost ==> outcome == NotPosted
    ensures IndexOfId(old(db.rows), bookingId).Some? && isPost ==>
      var b := old(db.rows)[IndexOfId(old(db.rows), bookingId).value];
      var check := StatusCheck(b.status, newStatus, b.date, today);
      outcome == if check.Some? then Rejected(check.value)
                 else if SaveFails(newStatus, enforcesLength) then SaveFailed
                 else Updated
    ensures outcome == Updated ==>
      var k := IndexOfId(old(db.rows), bookingId).value;
      db.rows == old(db.rows)[k := old(db.rows)[k].(status := newStatus.value)]
    ensures outcome != Updated ==> unchanged(db)
    ensures outcome == Updated ==> |newStatus.value| <= StatusMaxLength || !enforcesLength
    ensures reviewRequested <==> (outcome == Updated || outcome == SaveFailed) && newStatus == Some(Completed)
  {
    reviewRequested := false;
    var found := IndexOfId(db.rows, bookingId);
    if found.None? {
      return BookingNotFound, false;
    }
    if !isPost {
      return NotPosted, false;
    }
    var k := found.value;
    var b := db.rows[k];
    var check := StatusCheck(b.status, newStatus, b.date, today);
    if check.Some? {
      return Rejected(check.value), false;
    }
    reviewRequested := newStatus == Some(Completed);
    if SaveFails(newStatus, enforcesLength) {
      return SaveFailed, reviewRequested;
    }
    SetStatusKeepsValid(db.rows, db.nextId, k, newStatus.value);
    db.rows := db.rows[k := b.(status := newStatus.value)];
    outcome := Updated;
  }

  /** The query parameters of a rating link; `None` when a parameter is absent. */
  datatype ReviewParams = ReviewParams(rating: Option<string>, masterId: Option<string>)

  /** `booking.master.id if booking.master else ""`. */
  function MasterIdText(master: Option<int>): string {
    if master.Some? then IntToString(master.value) else ""
  }

  const Star := "\U{2B50}"

  /** One line of the email: `⭐ {i} - {base_url}?rating={i}&master_id={master_id}`. */
  function LinkLine(baseUrl: string, p: ReviewParams): string
    requires p.rating.Some? && p.masterId.Some?
  {
    Star + " " + p.rating.value + " - " + baseUrl + "?rating=" + p.rating.value + "&master_id=" + p.masterId.value
  }

  /** The parameters of the five rating links of `send_review_request_email`. */
  function ReviewLinkParams(booking: Booking): (ps: seq<ReviewParams>)
    ensures |ps| == 5
    ensures forall i :: 0 <= i < 5 ==>
      ps[i].rating == Some(IntToString(i + 1)) && ps[i].masterId == Some(MasterIdText(booking.master))
  {
    var m := Some(MasterIdText(booking.master));
    [ReviewParams(Some("1"), m), ReviewParams(Some("2"), m), ReviewParams(Some("3"), m),
     ReviewParams(Some("4"), m), ReviewParams(Some("5"), m)]
  }

  /** The query string of a URL: the text after its first `?`, if it has one. */
  function QueryOf(url: string): Option<string> {
    if url == [] then None
    else if url[0] == '?' then Some(url[1..])
    else QueryOf(url[1..])
  }

  /** A URL whose path holds no `?` has exactly the query that follows it. */
  lemma {:induction false} QueryOfAfter(path: string, query: string)
    requires '?' !in path
    ensures QueryOf(path + "?" + query) == Some(query)
  {
    if path != [] {
      QueryOfAfter(path[1..], query);
      assert (path + "?" + query)[1..] == path[1..] + "?" + query;
    } else {
      assert ("?" + query)[1..] == query;
    }
  }

  /**
   * `request.GET.get(key)` over the `&`-separated pairs of a query: the
   * last pair whose name is `key` gives the value (a bare name gives "").
   */
  function Lookup(pairs: seq<string>, key: string): Option<string> {
    if pairs == [] then None
    else
      var last := pairs[|pairs| - 1];
      if StartsWith(last, key + "=") then Some(last[|key| + 1..])
      else if last == key then Some("")
      else Lookup(pairs[..|pairs| - 1], key)
  }

  /** The two parameters `submit_review_email` reads from a requested URL. */
  function ParamsOf(url: string): ReviewParams {
    var q := QueryOf(url);
    if q.None? then ReviewParams(None, None)
    else
      var pairs := Split(q.value, '&');
      ReviewParams(Lookup(pairs, "rating"), Lookup(pairs, "master_id"))
  }

  /** Integer text, or the empty master id, holds none of the URL's delimiters. */
  lemma NoDelimiters(s: string)
    requires s == "" || IntegerText(s)
    ensures '?' !in s && '&' !in s && '\n' !in s
  {
    if s != "" {
      forall c | c in s ensures c != '?' && c != '&' && c != '\n' {
        IntegerTextChars(s, c);
      }
    }
  }

  /** The pairs of a rendered query, `rating=r&master_id=m`. */
  lemma LinkPairs(r: string, m: string)
    requires '&' !in r && '&' !in m
    ensures Split("rating=" + r + "&master_id=" + m, '&') == ["rating=" + r, "master_id=" + m]
  {
    var first := "rating=" + r;
    var second := "master_id=" + m;
    assert '&' !in first && '&' !in second;
    assert "rating=" + r + "&master_id=" + m == first + ['&'] + second;
    SplitAfterPiece(first, '&', second);
    SplitWithoutSeparator(second, '&');
  }

  /** Looking both names up in the rendered pairs gives the rendered values. */
  lemma LinkLookups(r: string, m: string)
    ensures Lookup(["rating=" + r, "master_id=" + m], "rating") == Some(r)
    ensures Lookup(["rating=" + r, "master_id=" + m], "master_id") == Some(m)
  {
    var first := "rating=" + r;
    var second := "master_id=" + m;
    assert second[0] == 'm';
    assert !StartsWith(second, "rating" + "=");
    assert second != "rating";
    assert ["rating=" + r, "master_id=" + m][..1] == [first];
    assert StartsWith(first, "rating" + "=") && first[|"rating"| + 1..] == r;
    assert StartsWith(second, "master_id" + "=") && second[|"master_id"| + 1..] == m;
  }

  /** Reading a link line's query gives back the parameters it was rendered from. */
  lemma LinkLineRoundTrip(baseUrl: string, r: string, m: string)
    requires '?' !in baseUrl
    requires IntegerText(r) && (m == "" || IntegerText(m))
    ensures ParamsOf(LinkLine(baseUrl, ReviewParams(Some(r), Some(m)))) == ReviewParams(Some(r), Some(m))
  {
    NoDelimiters(r);
    NoDelimiters(m);
    var path := Star + " " + r + " - " + baseUrl;
    var query := "rating=" + r + "&master_id=" + m;
    assert LinkLine(baseUrl, ReviewParams(Some(r), Some(m))) == path + "?" + query;
    assert '?' !in path;
    QueryOfAfter(path, query);
    LinkPairs(r, m);
    LinkLookups(r, m);
  }

  /** The link lines of the email, rating 1 to 5 in that order. */
  function ReviewLinks(baseUrl: string, booking: Booking): (links: seq<string>)
    requires '?' !in baseUrl
    ensures |links| == 5
    ensures forall i :: 0 <= i < 5 ==> ParamsOf(links[i]) == ReviewLinkParams(booking)[i]
  {
    var ps := ReviewLinkParams(booking);
    var m := MasterIdText(booking.master);
    assert m == "" || IntegerText(m);
    forall i | 0 <= i < 5
      ensures ParamsOf(LinkLine(baseUrl, ps[i])) == ps[i]
    {
      LinkLineRoundTrip(baseUrl, IntToString(i + 1), m);
    }
    [LinkLine(baseUrl, ps[0]), LinkLine(baseUrl, ps[1]), LinkLine(baseUrl, ps[2]),
     LinkLine(baseUrl, ps[3]), LinkLine(baseUrl, ps[4])]
  }

  /** A link line holds a newline only if its base URL does. */
  lemma LinkLineOneLine(baseUrl: string, r: string, m: string)
    requires '\n' !in baseUrl
    requires IntegerText(r) && (m == "" || IntegerText(m))
    ensures '\n' !in LinkLine(baseUrl, ReviewParams(Some(r), Some(m)))
  {
    NoDelimiters(r);
    NoDelimiters(m);
  }

  /** `review_links`: the five lines joined with newlines; splitting the text gives the lines back. */
  function ReviewLinksText(baseUrl: string, booking: Booking): (text: string)
    requires '?' !in baseUrl && '\n' !in baseUrl
    ensures Split(text, '\n') == ReviewLinks(baseUrl, booking)
  {
    var links := ReviewLinks(baseUrl, booking);
    var m := MasterIdText(booking.master);
    assert m == "" || IntegerText(m);
    forall i | 0 <= i < 5 ensures '\n' !in links[i] {
      LinkLineOneLine(baseUrl, IntToString(i + 1), m);
    }
    SplitOfJoin(links, '\n');
    Join(links, '\n')
  }

  /** What `submit_review_email` does with a request: create a review, or answer with an error. */
  datatype EmailReviewDecision = Create(review: Review) | Refuse(reply: Reply)

  const InvalidRequest := "Invalid request."
  const NoBooking := "No Booking matches the given query."
  const NoMaster := "No Master matches the given query."
  const NotANumber := "invalid literal for int()"
  const OutOfRange := "integer out of range"
  const DuplicateReview := "UNIQUE constraint failed: review.booking_id"
  const EmailComment := "Rating from email"

  /** Some review already belongs to booking `id`. */
  predicate Reviewed(reviews: seq<Review>, id: int) {
    exists r :: r in reviews && r.booking == id
  }

  /** A master id that reads as an integer naming an existing master. */
  predicate MasterKnown(masters: set<int>, text: string) {
    ParseInt(text).Some? && ParseInt(text).value in masters
  }

  /** A parameter is truthy when it is present and not empty. */
  predicate Present(p: Option<string>) {
    p.Some? && p.value != ""
  }

  /**
   * `submit_review_email` for booking `bookingId`: both parameters must be
   * non-empty; the booking and then the master must exist (a master id
   * that is not a number fails before the lookup); the rating must read as
   * an integer that the database's integer column `column` can hold; the
   * booking must not have a review yet. Nothing checks that the master is
   * the booking's, nor that the rating is one of the choices.
   */
  function EmailReview(bookings: seq<Booking>, masters: set<int>, reviews: seq<Review>, column: ColumnRange,
                       bookingId: int, p: ReviewParams)
    : (d: EmailReviewDecision)
    ensures !Present(p.rating) || !Present(p.masterId) ==> d == Refuse(Reply(400, InvalidRequest))
    ensures Present(p.rating) && Present(p.masterId) && IndexOfId(bookings, bookingId).None? ==>
      d == Refuse(Reply(404, NoBooking))
    ensures (Present(p.rating) && Present(p.masterId) && IndexOfId(bookings, bookingId).Some? &&
      ParseInt(p.masterId.value).None?) ==> d == Refuse(Reply(500, NotANumber))
    ensures (Present(p.rating) && Present(p.masterId) && IndexOfId(bookings, bookingId).Some? &&
      ParseInt(p.masterId.value).Some? && ParseInt(p.masterId.value).value !in masters) ==>
      d == Refuse(Reply(404, NoMaster))
    ensures (Present(p.rating) && Present(p.masterId) && IndexOfId(bookings, bookingId).Some? &&
      MasterKnown(masters, p.masterId.value) && ParseInt(p.rating.value).None?) ==>
      d == Refuse(Reply(500, NotANumber))
    ensures (Present(p.rating) && Present(p.masterId) && IndexOfId(bookings, bookingId).Some? &&
      MasterKnown(masters, p.masterId.value) && ParseInt(p.rating.value).Some? &&
      !Fits(column, ParseInt(p.rating.value).value)) ==>
      d == Refuse(Reply(500, OutOfRange))
    ensures (Present(p.rating) && Present(p.masterId) && IndexOfId(bookings, bookingId).Some? &&
      MasterKnown(masters, p.masterId.value) && ParseInt(p.rating.value).Some? &&
      Fits(column, ParseInt(p.rating.value).value) && Reviewed(reviews, bookingId)) ==>
      d == Refuse(Reply(500, DuplicateReview))
    ensures d.Create? <==>
      Present(p.rating) && Present(p.masterId) && IndexOfId(bookings, bookingId).Some? &&
      MasterKnown(masters, p.masterId.value) && ParseInt(p.rating.value).Some? &&
      Fits(column, ParseInt(p.rating.value).value) && !Reviewed(reviews, bookingId)
    ensures d.Create? ==>
      exists b :: b in bookings && b.id == bookingId &&
        d.review == Review(bookingId, b.user, Some(b.service), ParseInt(p.masterId.value), d.review.rating, EmailComment) &&
        ParseInt(p.rating.value) == Some(d.review.rating)
    ensures d.Create? ==> d.review.master.Some? && d.review.master.value in masters
    ensures d.Create? ==> Fits(column, d.review.rating)
    ensures d.Create? ==> forall r :: r in reviews ==> r.booking != bookingId
  {
    if !Present(p.rating) || !Present(p.masterId) then Refuse(Reply(400, InvalidRequest))
    else
      var found := IndexOfId(bookings, bookingId);
      if found.None? then Refuse(Reply(404, NoBooking))
      else
        var booking := bookings[found.value];
        var masterId := ParseInt(p.masterId.value);
        if masterId.None? then Refuse(Reply(500, NotANumber))
        else if masterId.value !in masters then Refuse(Reply(404, NoMaster))
        else
          var rating := ParseInt(p.rating.value);
          if rating.None? then Refuse(Reply(500, NotANumber))
          else if !Fits(column, rating.value) then Refuse(Reply(500, OutOfRange))
          else if Reviewed(reviews, bookingId) then Refuse(Reply(500, DuplicateReview))
          else
            assert booking in bookings;
            Create(Review(bookingId, booking.user, Some(booking.service), masterId, rating.value, EmailComment))
  }

  /**
   * Following rating link `i` of a booking that has a master and no review
   * yet creates that booking's review with rating `i`, a valid choice, and
   * the booking's own master.
   */
  lemma EmailLinkCreatesReview(bookings: seq<Booking>, masters: set<int>, reviews: seq<Review>, column: ColumnRange,
                               booking: Booking, i: int)
    requires IdsDistinct(bookings) && booking in bookings
    requires booking.master.Some? && booking.master.value in masters
    requires forall r :: r in reviews ==> r.booking != booking.id
    requires Fits(column, 1) && Fits(column, 5)
    requires 1 <= i <= 5
    ensures var d := EmailReview(bookings, masters, reviews, column, booking.id, ReviewLinkParams(booking)[i - 1]);
      d.Create? && d.review.rating == i && RatingChoice(d.review.rating) &&
      d.review.master == booking.master && d.review.user == booking.user &&
      d.review.service == Some(booking.service) && d.review.booking == booking.id
  {
    IndexOfIdFinds(bookings, booking);
    ParseIntOfIntToString(i);
    ParseIntOfIntToString(booking.master.value);
  }

  /**
   * End to end: the request made by following line `i` of the email carries
   * the parameters read back from that line, and so creates the review.
   */
  lemma EmailLinkFollowed(baseUrl: string, bookings: seq<Booking>, masters: set<int>, reviews: seq<Review>,
                          column: ColumnRange, booking: Booking, i: int)
    requires '?' !in baseUrl
    requires IdsDistinct(bookings) && booking in bookings
    requires booking.master.Some? && booking.master.value in masters
    requires forall r :: r in reviews ==> r.booking != booking.id
    requires Fits(column, 1) && Fits(column, 5)
    requires 1 <= i <= 5
    ensures var d := EmailReview(bookings, masters, reviews, column, booking.id, ParamsOf(ReviewLinks(baseUrl, booking)[i - 1]));
      d.Create? && d.review.rating == i && d.review.master == booking.master && d.review.booking == booking.id
  {
    EmailLinkCreatesReview(bookings, masters, reviews, column, booking, i);
  }

  /** A booking without a master gets links with an empty `master_id`, which are always refused. */
  lemma EmailLinkWithoutMasterRefused(bookings: seq<Booking>, masters: set<int>, reviews: seq<Review>, column: ColumnRange,
                                      booking: Booking, i: int)
    requires booking.master.None? && 1 <= i <= 5
    ensures EmailReview(bookings, masters, reviews, column, booking.id, ReviewLinkParams(booking)[i - 1]) == Refuse(Reply(400, InvalidRequest))
  {
  }

  /** The email path stores whatever integer the link carries and the column holds: a rating of 9 is saved. */
  lemma EmailRatingNotChecked(bookings: seq<Booking>, masters: set<int>, column: ColumnRange, booking: Booking, master: int)
    requires IdsDistinct(bookings) && booking in bookings && master in masters && Fits(column, 9)
    ensures var d := EmailReview(bookings, masters, [], column, booking.id, ReviewParams(Some("9"), Some(IntToString(master))));
      d.Create? && d.review.rating == 9 && !RatingChoice(d.review.rating)
  {
    IndexOfIdFinds(bookings, booking);
    ParseIntOfIntToString(master);
    assert MasterKnown(masters, IntToString(master));
    assert ParseInt("9") == Some(9) by {
      assert AllDigits("9");
      assert "9"[..0] == "";
    }
  }

  /** A rating the column cannot hold is refused, and no review is created. */
  lemma EmailRatingOutOfRangeRefused(bookings: seq<Booking>, masters: set<int>, reviews: seq<Review>, column: ColumnRange,
                                     booking: Booking, master: int, rating: int)
    requires IdsDistinct(bookings) && booking in bookings && master in masters && !Fits(column, rating)
    ensures EmailReview(bookings, masters, reviews, column, booking.id, ReviewParams(Some(IntToString(rating)), Some(IntToString(master))))
      == Refuse(Reply(500, OutOfRange))
  {
    IndexOfIdFinds(bookings, booking);
    ParseIntOfIntToString(master);
    ParseIntOfIntToString(rating);
  }

  /** `submit_review_email`: inserts the decided review, or leaves the table as it was. */
  method SubmitReviewEmail(table: ReviewTable, bookings: seq<Booking>, masters: set<int>, column: ColumnRange,
                           bookingId: int, p: ReviewParams)
    returns (reply: Reply)
    requires table.Valid()
    modifies table
    ensures table.Valid()
    ensures var d := EmailReview(bookings, masters, old(table.rows), column, bookingId, p);
      if d.Create? then table.rows == old(table.rows) + [d.review] && reply == Reply(200, "Thank you for your review! \U{1F31F}")
      else unchanged(table) && reply == d.reply
  {
    var d := EmailReview(bookings, masters, table.rows, column, bookingId, p);
    if d.Refuse? {
      return d.reply;
    }
    assert forall r :: r in table.rows ==> r.booking != d.review.booking;
    table.rows := table.rows + [d.review];
    reply := Reply(200, "Thank you for your review! \U{1F31F}");
  }

  /**
   * `update_user_role` on the account found by id (`null` when none is):
   * a POST sets `is_owner` to whether the posted role is "owner"; the
   * `role` field itself is left as it was.
   */
  method UpdateUserRole(user: UserAccount?, isPost: bool, newRole: Option<string>) returns (reply: Reply)
    modifies if user != null then {user} else {}
    ensures user == null ==> reply.status == 404
    ensures user != null ==> reply == Reply(302, "manage_users")
    ensures user != null && isPost ==> user.isOwner == (newRole == Some("owner")) && user.role == old(user.role)
    ensures user != null && !isPost ==> unchanged(user)
  {
    if user == null {
      return Reply(404, "No CustomUser matches the given query.");
    }
    if isPost {
      user.isOwner := newRole == Some("owner");
    }
    reply := Reply(302, "manage_users");
  }

  /** The rows whose status is exactly `status`, in table order. */
  function WithStatus(rows: seq<Booking>, status: string): (r: seq<Booking>)
    ensures forall b :: b in r <==> b in rows && b.status == status
    ensures multiset(r) <= multiset(rows)
  {
    if rows == [] then []
    else
      assert rows == [rows[0]] + rows[1..];
      if rows[0].status == status then [rows[0]] + WithStatus(rows[1..], status)
      else WithStatus(rows[1..], status)
  }

  /** `manage_bookings`: every booking when no status is chosen, else those with that exact status. */
  function ManageBookings(rows: seq<Booking>, statusFilter: string): (r: seq<Booking>)
    ensures statusFilter == "" ==> r == rows
    ensures statusFilter != "" ==> forall b :: b in r <==> b in rows && b.status == statusFilter
    ensures multiset(r) <= multiset(rows)
  {
    if statusFilter != "" then WithStatus(rows, statusFilter) else rows
  }
}
