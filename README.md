# Service booking: a verified model of the scheduling core

This project models the booking core of a Django salon-booking application
in Dafny and proves properties of it. Clients book a service with a master
on a date and at a time of day. The salon owner moves bookings through the
statuses pending, confirmed, completed and canceled. A completed booking
triggers an email with five rating links, and each link creates a review.

The model covers:

- the records (`Service`, `Booking`, `Review`), their declared choices and
  defaults, and the table constraints: unique ids, `unique_together` on
  (master, date, time), and one review per booking (`models.dfy`);
- the four conflict rules, each kept separate:
  - `Booking.clean` (`models.dfy`) and the serializer's `validate`
    (`serializers.dfy`) look for a same-service booking that starts inside
    `[t, t + duration)`, with the end taken as a time of day;
  - `create_booking` looks for the same master at the same exact start
    (`booking_views.dfy`);
  - the booking form refuses any same-service booking on that date
    (`forms.dfy`);
  - the slot generator offers every grid time at which no same-service
    booking starts (`slots.dfy`);
  - `conflict_rules.dfy` proves how these rules relate to one another;
- booking creation and cancellation as updates of a booking table
  (`booking_views.dfy`);
- the admin panel: the ordered status-transition guard, the status
  update, the rating links, the review created from a link, the owner flag
  and the bookings filter (`admin_views.dfy`);
- the validators: the `+998` phone pattern, the filter forms, and the
  `service_list` filter-and-sort pipeline (`forms.dfy`, `service_list.dfy`);
- `getCSRFToken`, the browser-side cookie parser (`csrf.dfy`);
- Python's `int()` on request strings and integer formatting in the links
  (`text.dfy`).

Dates are day numbers. Times are minutes since midnight (`Minute`, 0 to
1439). Durations are natural numbers of minutes. `today` is a parameter.
Stores that the code updates in place are classes (`BookingTable`,
`ReviewTable`, `UserAccount`). Decisions are functions. The slot generator
and the cookie parser are methods with loops, proved against specification
functions.

Some behaviour of the code looks unintended. The model keeps it as
written and proves it:

- `Booking.clean` (users/models.py:134-155) and the serializer compare only
  start times, and only for the same service. They take the window end as
  a time of day, so a window of at most one day that crosses midnight
  finds nothing.
  `create_booking` (users/views.py:113) compares only the master's exact
  start. The lemmas in `ConflictRules` relate these rules.
- `update_booking_status` (admin_panel/views.py:71-73) refuses to move a
  canceled booking only to confirmed or completed. A canceled booking can
  go back to pending, or to any other text
  (`AdminViews.CanceledCanBeReopened`).
- `Review.rating` declares the choices 1 to 5 (users/models.py:166).
  `submit_review_email` stores `int(rating)` without a choice check
  (admin_panel/views.py:151), so any integer within the column's range is
  stored (`AdminViews.EmailRatingNotChecked`). A value outside that range
  is a server error, and no review is stored
  (`AdminViews.EmailRatingOutOfRangeRefused`).
- `Master.salon` may be null (users/models.py:77). `create_booking` saves
  the booking before it reads the salon's name for the email
  (users/views.py:116-140). For a master without a salon, the reply is a
  server error and the booking stays saved (`BookingViews.CreateBooking`).
- `service_list` uses the `ServiceFilterForm` defined in users/models.py,
  not the one in users/forms.py, because users/views.py:20 imports it from
  `.models`. That form requires a category and has no `min_value`. When
  the form is invalid, every service is listed unfiltered.

## Model

| member | source | states |
|---|---|---|
| Models.NewBooking | users/models.py:117-129 | a new booking's status is the first declared choice, `pending`; its time defaults to 12:00 |
| Models.IndexOfId | users/views.py:172 | a lookup by primary key finds a row with that id, and fails exactly when no row has it |
| Models.IndexOfIdFinds | users/views.py:172 | with unique ids the lookup finds exactly the row carrying the id |
| Models.WindowEnd | users/models.py:142-143 | the window end is the start plus the duration as a time of day, wrapping past midnight |
| Models.Clean | users/models.py:134-155 | without a wrap, rejects iff another same-service booking that day starts in `[t, t+duration)`; a window of at most one day that crosses midnight rejects nothing; a rejection always has a same-service, same-day witness |
| Models.CleanExcludesItself | users/models.py:149 | a saved booking is not reported against itself, but an unsaved one with the same start is |
| Models.CleanIgnoresMaster | users/models.py:146-148 | reassigning the masters of all rows never changes the verdict |
| Models.CleanIgnoresOtherServices | users/models.py:146-148 | bookings of other services never conflict |
| Models.CleanMissesRunningBooking | users/models.py:150-151 | a same-service booking that started earlier and is still running is not reported |
| Models.BookingTable.constructor | users/models.py:124-132 | an empty table satisfies unique ids and `unique_together` |
| Models.UserAccount.constructor | users/models.py:15-16 | a new account has role "user" and is not an owner |
| Models.ReviewTable.constructor | users/models.py:161-166 | an empty review table satisfies one review per booking |
| Serializers.Overlapping | users/serializers.py:22-28 | the query yields exactly the rows of that service and date, not the excluded id, starting in the window |
| Serializers.Validate | users/serializers.py:10-33 | returns the data unchanged or the error; without a wrap, rejects iff another same-service booking that day starts in the window; a wrapped window of a duration up to one day never rejects |
| Serializers.ValidateIgnoresMaster | users/serializers.py:22-24 | the master of the submitted data plays no part |
| Serializers.ValidateExcludesInstance | users/serializers.py:25 | on update the edited booking is excluded; on create nothing is |
| Serializers.ValidateAgreesWithClean | users/serializers.py:17-31 | the serializer rejects exactly when `Booking.clean` does for the same booking |
| Forms.PhoneRegexMeaning | users/forms.py:117 | the pattern matches iff the value is `+998` and nine digits, optionally followed by one final newline, as `$` allows |
| Forms.CleanPhoneNumber | users/forms.py:106-121 | accepts iff the pattern matches; an accepted number is returned unchanged, fits the 15-character field, and is exactly 13 characters unless it ends in a newline |
| Forms.CleanBookingDate | users/forms.py:80-88 | rejects iff a booking of that service exists on that date, whatever its time; otherwise returns the date |
| Forms.NegativeBoundRejected | users/forms.py:94-97 | a negative price or duration bound makes this filter form invalid |
| Forms.FilterFormsDisagree | users/forms.py:91-103 | this form and the one `service_list` uses disagree in both directions |
| Slots.FreeSlots | users/views.py:433-448 | every slot is on the 30-minute grid from 09:00 and ends by 18:00; slots strictly increase; a grid time is returned iff no same-service booking that day starts at it; a duration over 540 gives no slots |
| Slots.AvailableSlots | users/views.py:415-450 | both parameters are required; an unknown service is an error; otherwise the result is exactly the offered grid times, in increasing order |
| Slots.OfferedIgnoresMaster | users/views.py:441-445 | the offered times never depend on the masters of the bookings |
| Slots.EmptyDayOffersGrid | users/views.py:439-448 | with no bookings every grid time that fits is offered |
| BookingViews.MasterBusyIffClash | users/views.py:113 | the exact-start check refuses a new row iff appending it would break `unique_together` |
| BookingViews.CreateBooking | users/views.py:89-160 | a missing field gives 400, an unknown service or master 404, a master busy at that exact start 400, and none of these changes the table; otherwise exactly one pending booking with the requested fields is appended and the table constraints still hold; the reply is then 201 when the master has a salon and 500 when it has none, with the row kept |
| BookingViews.RemoveAtKeepsValid | users/views.py:184 | deleting one row keeps the constraints and removes exactly the rows with its id |
| BookingViews.CancelBooking | users/views.py:162-204 | a missing id gives 400, an unknown id 404, a past date 400, all without change to either table; otherwise exactly the booking with that id is removed, and so is its review while every other review stays; a booking dated before today is never removed |
| Models.ReviewsWithout | users/models.py:162 | the cascade keeps exactly the reviews of other bookings and adds none |
| Models.ReviewsWithoutKeepsOne | users/models.py:162 | the cascade keeps one review per booking |
| ServiceList.Where | users/views.py:274-293 | a query filter keeps exactly the rows meeting its condition, and adds none |
| ServiceList.SortBy | users/views.py:295-297 | `order_by` returns a permutation ordered ascending by the chosen key |
| ServiceList.Filtered | users/views.py:274-293 | the chained filters keep exactly the services meeting every given, non-zero bound |
| ServiceList.ServiceList | users/views.py:270-299 | an invalid form lists every service; a valid one lists exactly the services in the category and within every given bound, sorted ascending when a key is chosen; no service is added |
| ServiceList.ZeroPriceMaxIsNoBound | users/views.py:283-285 | a maximum price of 0 is falsy and filters nothing |
| AdminViews.StatusCheck | admin_panel/views.py:65-83 | passes iff the transition table allows it (nothing leaves completed; completed only from confirmed; confirmed neither from canceled nor for a past date); the first failing check picks the message |
| AdminViews.CanceledCanBeReopened | admin_panel/views.py:71-73 | from canceled, any request other than confirmed or completed passes |
| AdminViews.UnlistedStatusPasses | admin_panel/views.py:63-92 | a status outside the declared choices passes the guard |
| AdminViews.UpdateBookingStatus | admin_panel/views.py:58-95 | an unknown id, a non-POST request, a rejection, a missing status or, on a backend that enforces it, a status longer than the 50-character column changes nothing; otherwise exactly that booking's status becomes the requested text; the review email is sent exactly when completed passes the guard, before the save; the constraints still hold |
| AdminViews.DeclaredStatusSaves | users/models.py:118-129 | every declared status fits the 50-character column, so saving it never fails on any backend |
| AdminViews.ReviewLinkParams | admin_panel/views.py:103-110 | there are five links; link i carries rating i and the booking's master id, or an empty id when there is no master |
| AdminViews.QueryOfAfter | admin_panel/views.py:101-108 | a URL whose path holds no `?` has exactly the query written after it |
| AdminViews.LinkLineRoundTrip | admin_panel/views.py:108-136 | reading `rating` and `master_id` from a rendered line's query gives back the values it was rendered with |
| AdminViews.ReviewLinks | admin_panel/views.py:107-110 | there are five lines, and the parameters read back from line i are those of link i: rating i and the booking's master id |
| AdminViews.ReviewLinksText | admin_panel/views.py:107-110 | splitting the newline-joined text gives back the five lines |
| AdminViews.EmailReview | admin_panel/views.py:133-155 | a missing or empty parameter gives 400; then an unknown booking 404, a master id that is not an integer 500, an unknown master 404, a rating that is not an integer 500, a rating the database's integer column cannot hold 500, an already reviewed booking 500; a review is created iff none of these holds, and it belongs to the booking, with that booking's user and service, the master from the link, the rating read from the link and the comment "Rating from email" |
| AdminViews.EmailLinkCreatesReview | admin_panel/views.py:104-153 | following link i of a booking with a master and no review creates its review with rating i and the booking's own master |
| AdminViews.EmailLinkFollowed | admin_panel/views.py:104-153 | the request read from line i of the email creates the review with rating i and the booking's own master |
| AdminViews.EmailLinkWithoutMasterRefused | admin_panel/views.py:138-139 | the links of a booking without a master are always refused |
| AdminViews.EmailRatingNotChecked | admin_panel/views.py:151 | a rating outside 1 to 5 that the column holds is stored |
| AdminViews.EmailRatingOutOfRangeRefused | admin_panel/views.py:146-153 | a rating the column cannot hold gives 500 and creates no review |
| AdminViews.SubmitReviewEmail | admin_panel/views.py:133-155 | inserts the decided review or leaves the table unchanged, keeping one review per booking |
| AdminViews.UpdateUserRole | admin_panel/views.py:35-42 | a POST sets the owner flag to whether the posted role is "owner" and leaves the role field as it was; a GET changes nothing |
| AdminViews.WithStatus | admin_panel/views.py:51 | keeps exactly the bookings with that status |
| AdminViews.ManageBookings | admin_panel/views.py:48-55 | no status lists every booking; a status lists exactly the bookings with it |
| ConflictRules.OfferedSlotRejectedByClean | users/views.py:439-446 | a slot the generator offers is rejected by `clean` when a same-service booking starts later inside its window |
| ConflictRules.OfferedSlotRejectedExample | users/views.py:439-446 | a 60-minute service booked at 09:30 leaves 09:00 on offer, which `clean` rejects |
| ConflictRules.TakenSlotRejectedByClean | users/views.py:441-445 | a grid time the generator withholds is one `clean` rejects |
| ConflictRules.CleanRejectionImpliesDateRejection | users/forms.py:85 | whatever `clean` rejects, the booking form rejects too |
| ConflictRules.DateRejectionWithoutCleanConflict | users/forms.py:85-86 | the booking form rejects a same-day booking that `clean` accepts |
| ConflictRules.CreateAcceptsOverlap | users/views.py:113 | `create_booking` accepts a booking that overlaps the master's existing same-service booking, which `clean` rejects |
| ConflictRules.CreateRefusesWhatCleanAllows | users/views.py:113 | `create_booking` refuses the master's exact start with another service, which `clean` accepts |
| Text.Split | users/static/js/profile.js:4 | the pieces hold no separator, and there is at least one |
| Text.SplitJoin | users/static/js/profile.js:4 | joining the pieces back gives the cookie header |
| Text.SplitOfJoin | admin_panel/views.py:107 | splitting a join of separator-free pieces gives the pieces back |
| CsrfCookie.TrimStart | users/static/js/profile.js:7 | removes exactly the leading whitespace |
| CsrfCookie.TrimEnd | users/static/js/profile.js:7 | removes exactly the trailing whitespace |
| CsrfCookie.Trim | users/static/js/profile.js:7 | the result is the slice of the input left after removing whitespace before it and after it, and neither starts nor ends with whitespace |
| CsrfCookie.FirstMatch | users/static/js/profile.js:6-11 | finds the first trimmed piece starting with `csrftoken=`, or reports that none does |
| CsrfCookie.FirstMatchIgnoresLater | users/static/js/profile.js:10 | pieces after the first match never change the answer |
| CsrfCookie.TokenValue | users/static/js/profile.js:9 | the value after the prefix holds no `;` and keeps the piece's last character |
| CsrfCookie.PieceToken | users/static/js/profile.js:7-9 | the value taken from a matching piece holds no `;` and has no trailing whitespace |
| CsrfCookie.TokenIn | users/static/js/profile.js:6-13 | a token taken from the pieces holds no `;` and has no trailing whitespace |
| CsrfCookie.TokenOf | users/static/js/profile.js:2-14 | a returned token holds no `;` and has no trailing whitespace |
| CsrfCookie.GetCsrfToken | users/static/js/profile.js:2-14 | the loop returns exactly the token of the first matching piece, or null |
| CsrfCookie.LookalikeNameIgnored | users/static/js/profile.js:7-8 | a cookie named `xcsrftoken` is not taken |
| Text.IntToString | admin_panel/views.py:104-108 | integer formatting gives a non-empty optional sign followed by digits |
| Text.ParseInt | admin_panel/views.py:151 | `int()` succeeds iff the text is an optional sign followed by at least one ASCII digit; the value is the digits read in base 10, negated after `-` |
| Text.ParseIntOfIntToString | admin_panel/views.py:104-108 | reading back a formatted integer gives the integer |

## Left out

- Email: `send_mail` in every view, the message texts and `send_reminders.py` are I/O. The review request is a boolean result of `AdminViews.UpdateBookingStatus`.
- Accounts: registration, activation tokens, login, logout and profile editing are framework authentication.
- Access control: `login_required`, `owner_required` and `csrf_exempt` are framework wrappers. The caller of `create_booking` is a user id parameter.
- Transactions and races: the store is a single-threaded collection. The check-then-insert race in `create_booking` is not modelled.
- Averages: `top_masters` and `Master.average_rating` rely on floating-point averages.
- Case-insensitive search: `service_search` and the username filter of `manage_users` depend on collation and case folding.
- `CustomUser.clean` calls into the `phonenumbers` library, which is not part of this model.
- Date and time parsing and formatting (`strptime`, `strftime`): inputs are already parsed day numbers and minutes. The invalid-date replies are not modelled.
- Request decoding: JSON decode errors, wrong HTTP methods (405) and the catch-all exception handler of `cancel_booking` are not modelled.
- Dead code: the first `available_slots` and the first `CustomUserCreationForm` are shadowed by later definitions.
- UI: the DOM and fetch code in the JavaScript files, templates, `admin.py` and the URL configuration.
- Models.Clean: durations are taken as natural numbers, as the code never checks the sign. For a duration over one day only the witness of a rejection is stated.
- Slots.AvailableSlots: an unknown service id is an error result; in the code it is an unhandled lookup error.
- Text.ParseInt: surrounding whitespace, underscores and non-ASCII digits, which Python's `int()` accepts, are rejected.
- Forms.CleanPhoneNumber: `\d` is taken as an ASCII digit; Python's `\d` also matches other Unicode decimal digits.
- ServiceList.SortBy: names are ordered by code point, not by the database collation. The order of equal keys is a stable insertion order; the database leaves it unspecified.
- ServiceList.ServiceList: prices are integers in the smallest currency unit instead of decimals.
- AdminViews.EmailReview: the error texts of the 404 and 500 replies stand for the framework's error pages.
- AdminViews.ParamsOf: query values are not percent-decoded, and `+` is not read as a space; the rendered links contain neither.
- AdminViews.UpdateBookingStatus: the review email is sent before the status is saved, so a failing `send_mail` is a server error that leaves the status as it was; the model takes the email as always sent.
- AdminViews.EmailReview: the range of the rating column is a parameter, since the database backend is not part of this model.
- AdminViews.UpdateBookingStatus: whether the backend enforces the status column's length is a parameter, for the same reason.
- BookingViews.CreateBooking: a failure of `send_mail` after the row is saved is not modelled; the text of the 500 reply stands for the framework's error page.
- CsrfCookie.GetCsrfToken: `document.cookie` is a parameter.
