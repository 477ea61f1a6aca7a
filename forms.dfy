/**
 * Form-level checks (users/forms.py): the phone-number pattern of the
 * registration form, the booking form's date check and the bounds of the
 * service filter form declared there.
 */
module Forms {
  import opened Wrappers
  import opened Text
  import opened Models

  /** One position of a regular expression without repetition: a literal or `\d`. */
  datatype Token = Literal(c: char) | AnyDigit

  /** `\+998\d{9}` spelled out position by position. */
  const PhonePattern: seq<Token> := [
    Literal('+'), Literal('9'), Literal('9'), Literal('8'),
    AnyDigit, AnyDigit, AnyDigit, AnyDigit, AnyDigit, AnyDigit, AnyDigit, AnyDigit, AnyDigit]

  predicate TokenMatches(t: Token, c: char) {
    match t
    case Literal(x) => c == x
    case AnyDigit => IsDigit(c)
  }

  /** The tokens match a prefix of `s`, one character each. */
  function MatchesPrefix(tokens: seq<Token>, s: string): bool
    decreases |tokens|
  {
    if tokens == [] then true
    else |s| > 0 && TokenMatches(tokens[0], s[0]) && MatchesPrefix(tokens[1..], s[1..])
  }

  /** What Python's `$` accepts after the pattern: the end, or a single final newline. */
  predicate AtEnd(rest: string) {
    rest == "" || rest == "\n"
  }

  /** `re.compile(r'^\+998\d{9}$').match(s)` succeeds. */
  predicate PhoneRegexMatches(s: string) {
    |PhonePattern| <= |s| && MatchesPrefix(PhonePattern, s) && AtEnd(s[|PhonePattern|..])
  }

  /** An Uzbek number as a person reads it: "+998" followed by exactly nine digits. */
  predicate IsUzbekNumber(s: string) {
    |s| == 13 && StartsWith(s, "+998") && AllDigits(s[4..])
  }

  lemma {:induction false} MatchesPrefixAt(tokens: seq<Token>, s: string)
    ensures MatchesPrefix(tokens, s) <==>
      |tokens| <= |s| && forall i :: 0 <= i < |tokens| ==> TokenMatches(tokens[i], s[i])
    decreases |tokens|
  {
    if tokens != [] && |s| > 0 {
      MatchesPrefixAt(tokens[1..], s[1..]);
      if |tokens| <= |s| {
        assert forall i :: 0 <= i < |tokens| - 1 ==> tokens[1..][i] == tokens[i + 1] && s[1..][i] == s[i + 1];
        if forall i :: 1 <= i < |tokens| ==> TokenMatches(tokens[i], s[i]) {
          assert forall i :: 0 <= i < |tokens| - 1 ==> TokenMatches(tokens[1..][i], s[1..][i]);
        }
      }
    }
  }

  /** Position by position, the pattern asks for "+998" and then nine digits. */
  lemma PatternPositions(s: string)
    requires 13 <= |s|
    ensures (forall i :: 0 <= i < 13 ==> TokenMatches(PhonePattern[i], s[i])) <==>
      s[..4] == "+998" && forall i :: 4 <= i < 13 ==> IsDigit(s[i])
  {
    if s[..4] == "+998" {
      assert s[0] == '+' && s[1] == '9' && s[2] == '9' && s[3] == '8';
    }
    if forall i :: 0 <= i < 13 ==> TokenMatches(PhonePattern[i], s[i]) {
      assert TokenMatches(PhonePattern[0], s[0]) && TokenMatches(PhonePattern[1], s[1]);
      assert TokenMatches(PhonePattern[2], s[2]) && TokenMatches(PhonePattern[3], s[3]);
      assert s[..4] == [s[0], s[1], s[2], s[3]];
    }
  }

  lemma UzbekNumberPositions(t: string)
    requires |t| == 13
    ensures IsUzbekNumber(t) <==> t[..4] == "+998" && forall i :: 4 <= i < 13 ==> IsDigit(t[i])
  {
    assert forall i :: 4 <= i < 13 ==> t[4..][i - 4] == t[i];
  }

  /** The match, position by position, followed by what `$` allows. */
  lemma PhoneRegexPositions(s: string)
    ensures PhoneRegexMatches(s) <==>
      13 <= |s| && (forall i :: 0 <= i < 13 ==> TokenMatches(PhonePattern[i], s[i])) && AtEnd(s[13..])
  {
    MatchesPrefixAt(PhonePattern, s);
  }

  /** The pattern accepts exactly the Uzbek numbers, each possibly followed by one newline. */
  lemma PhoneRegexMeaning(s: string)
    ensures PhoneRegexMatches(s) <==>
      IsUzbekNumber(s) || (|s| == 14 && s[13] == '\n' && IsUzbekNumber(s[..13]))
  {
    PhoneRegexPositions(s);
    if |s| >= 13 {
      var t := s[..13];
      PatternPositions(s);
      UzbekNumberPositions(t);
      assert t[..4] == s[..4];
      assert forall i :: 4 <= i < 13 ==> t[i] == s[i];
      if |s| == 13 {
        assert s == t;
      } else if |s| == 14 {
        assert s[13..] == [s[13]];
      }
    }
  }

  const PhoneFormatMessage := "Incorrect phone format. Please use format: +998xxxxxxxxx"

  /** The field's `max_length`. */
  const PhoneMaxLength := 15

  /** `clean_phone_number` of the registration form: the value back, or a validation error. */
  function CleanPhoneNumber(phone: string): (r: Result<string>)
    ensures r.Ok? ==> r.value == phone
    ensures r.Err? ==> r.message == PhoneFormatMessage
    ensures r.Ok? <==> IsUzbekNumber(phone) || (|phone| == 14 && phone[13] == '\n' && IsUzbekNumber(phone[..13]))
    ensures r.Ok? ==> |phone| <= PhoneMaxLength
    ensures r.Ok? && (phone == [] || phone[|phone| - 1] != '\n') ==> |phone| == 13
  {
    PhoneRegexMeaning(phone);
    if PhoneRegexMatches(phone) then Ok(phone) else Err(PhoneFormatMessage)
  }

  const DateTakenMessage := "This slot is already booked!"

  /**
   * `BookingForm.clean_booking_date`: `service` is `None` when the service
   * field did not validate (its query then matches no row).
   */
  function CleanBookingDate(rows: seq<Booking>, service: Option<int>, date: int): (r: Result<int>)
    ensures r.Ok? ==> r.value == date
    ensures r.Err? ==> r.message == DateTakenMessage
    ensures r.Err? <==> service.Some? && exists b :: b in rows && b.service == service.value && b.date == date
  {
    if service.Some? && exists b :: b in rows && b.service == service.value && b.date == date
    then Err(DateTakenMessage)
    else Ok(date)
  }

  predicate NonNegative(bound: Option<int>) {
    bound.None? || bound.value >= 0
  }

  /**
   * `ServiceFilterForm` as declared in the forms module: an optional
   * category choice, bounds with `min_value=0`, an optional sort key.
   */
  predicate FilterFormValid(q: FilterQuery) {
    (q.category == "" || q.category in CategoryChoices) &&
    NonNegative(q.priceMin) && NonNegative(q.priceMax) &&
    NonNegative(q.durationMin) && NonNegative(q.durationMax) &&
    (q.sortBy == "" || q.sortBy in SortChoices)
  }

  /** `min_value=0`: a negative price or duration bound makes this form invalid. */
  lemma NegativeBoundRejected(q: FilterQuery)
    requires (q.priceMin.Some? && q.priceMin.value < 0) || (q.priceMax.Some? && q.priceMax.value < 0) ||
             (q.durationMin.Some? && q.durationMin.value < 0) || (q.durationMax.Some? && q.durationMax.value < 0)
    ensures !FilterFormValid(q)
  {
  }

  /**
   * The two filter forms disagree: this one refuses a negative bound that
   * the one the service list uses lets through, and accepts a blank
   * category that the other refuses.
   */
  lemma FilterFormsDisagree()
    ensures var q := FilterQuery("hair", Some(-1), None, None, None, "");
            !FilterFormValid(q) && LiveFilterFormValid(q)
    ensures var q := FilterQuery("", None, None, None, None, "");
            FilterFormValid(q) && !LiveFilterFormValid(q)
  {
    assert "hair" in CategoryChoices;
  }
}
