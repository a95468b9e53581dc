/**
 * The rental rules every rental creation goes through: date normalisation,
 * the 1..3 day window, pricing, and the availability check.
 *
 * A calendar date is its day ordinal, so `(end - start).days` is a difference
 * of ordinals. Every failure is a tagged error whose text is given by Message.
 */
module RentalService {
  import opened Wrappers

  /** The longest rental, in whole days. */
  const MaxRentalDays: int := 3

  /** A value handed in as a start or end date. */
  datatype DateLike =
    | Date(ordinal: int)                        // a calendar date
    | DateTime(ordinal: int, timeOfDay: nat)    // a timestamp: its date and the time since midnight
    | Other                                     // anything else

  /** A value handed in as a rate or a day count. */
  datatype Arg = Int(n: int) | NonInt

  /**
   * A bike-like value: the text of its `status` attribute if it has one,
   * and its entries (values by their text) if it is a dictionary.
   */
  datatype BikeLike = BikeLike(statusAttr: Option<string>, entries: Option<map<string, string>>)

  datatype Error =
    | InvalidInputKind(field: string)
    | EndNotAfterStart
    | DurationOutOfRange
    | RateNotInteger
    | RateNegative
    | DaysNotInteger
    | DaysNotPositive
    | DaysOverMax
    | MissingStatus

  /** The text each error is raised with. */
  function Message(e: Error): (m: string)
    ensures e.InvalidInputKind? ==> |e.field| <= |m| && m[..|e.field|] == e.field
  {
    match e
    case InvalidInputKind(field) => field + " must be a date or datetime instance"
    case EndNotAfterStart => "end_date must be after start_date"
    case DurationOutOfRange => "Rental duration must be between 1 and 3 days"
    case RateNotInteger => "rate_per_day_cents must be an integer"
    case RateNegative => "rate_per_day_cents must be zero or greater"
    case DaysNotInteger => "days must be an integer"
    case DaysNotPositive => "days must be greater than zero"
    case DaysOverMax => "days must not exceed 3"
    case MissingStatus => "bike must expose a '" + "status" + "' attribute or key"
  }

  /** `part` occurs in `s` starting at position `i`. */
  predicate OccursAt(s: string, part: string, i: nat)
  {
    i + |part| <= |s| && s[i..i + |part|] == part
  }

  predicate Contains(s: string, part: string)
  {
    exists i: nat | i <= |s| :: OccursAt(s, part, i)
  }

  /** The missing-status error says what is missing: its text mentions "status". */
  lemma MissingStatusMentionsStatus()
    ensures Contains(Message(MissingStatus), "status")
  {
    var prefix, suffix := "bike must expose a '", "' attribute or key";
    var m := Message(MissingStatus);
    assert m == prefix + "status" + suffix;
    assert m[|prefix|..|prefix| + 6] == "status";
    assert OccursAt(m, "status", |prefix|);
  }

  /** The calendar date a date-like value stands for; a timestamp loses its time of day. */
  function NormalizeDate(value: DateLike, field: string): (r: Result<int, Error>)
    ensures r.Failure? <==> value.Other?
    ensures r.Failure? ==> r.error == InvalidInputKind(field)
    ensures r.Success? ==> r.value == value.ordinal
  {
    match value
    case DateTime(ordinal, _) => Success(ordinal)
    case Date(ordinal) => Success(ordinal)
    case Other => Failure(InvalidInputKind(field))
  }

  /** Checks a rental window and returns its length in whole days. */
  function ValidateRange(start: DateLike, end: DateLike): (r: Result<int, Error>)
    ensures r.Success? <==>
      !start.Other? && !end.Other? && 1 <= end.ordinal - start.ordinal <= MaxRentalDays
    ensures r.Success? ==> r.value == end.ordinal - start.ordinal && 1 <= r.value <= MaxRentalDays
    ensures start.Other? ==> r == Failure(InvalidInputKind("start_date"))
    ensures !start.Other? && end.Other? ==> r == Failure(InvalidInputKind("end_date"))
  {
    var s :- NormalizeDate(start, "start_date");
    var e :- NormalizeDate(end, "end_date");
    var days := e - s;
    if days <= 0 then Failure(EndNotAfterStart)
    else if days > MaxRentalDays then Failure(DurationOutOfRange)
    else Success(days)
  }

  /** A zero-length or reversed window is refused as such, however long it is. */
  lemma ValidateRangeRejectsNonPositive(start: DateLike, end: DateLike)
    requires !start.Other? && !end.Other? && end.ordinal <= start.ordinal
    ensures ValidateRange(start, end) == Failure(EndNotAfterStart)
  {
  }

  /** A window longer than the cap is refused with the duration error. */
  lemma ValidateRangeRejectsTooLong(start: DateLike, end: DateLike)
    requires !start.Other? && !end.Other? && end.ordinal - start.ordinal > MaxRentalDays
    ensures ValidateRange(start, end) == Failure(DurationOutOfRange)
  {
  }

  /** The date a value normalises to, as a plain date value. */
  function CalendarDate(value: DateLike): (d: DateLike)
    ensures !d.DateTime?
    ensures d.Other? <==> value.Other?
    ensures !value.Other? ==> d.ordinal == value.ordinal
  {
    match value
    case DateTime(ordinal, _) => Date(ordinal)
    case _ => value
  }

  /** Timestamps are judged exactly like the dates they fall on. */
  lemma TimeOfDayIgnored(start: DateLike, end: DateLike)
    ensures ValidateRange(start, end) == ValidateRange(CalendarDate(start), CalendarDate(end))
  {
  }

  /** The total price of a rental, in cents. */
  function ComputeTotalPriceCents(rate: Arg, days: Arg): (r: Result<int, Error>)
    ensures r.Success? <==>
      rate.Int? && rate.n >= 0 && days.Int? && 1 <= days.n <= MaxRentalDays
    ensures r.Success? ==> r.value == rate.n * days.n
    ensures r.Success? ==> rate.n <= r.value <= MaxRentalDays * rate.n
  {
    if rate.NonInt? then Failure(RateNotInteger)
    else if rate.n < 0 then Failure(RateNegative)
    else if days.NonInt? then Failure(DaysNotInteger)
    else if days.n <= 0 then Failure(DaysNotPositive)
    else if days.n > MaxRentalDays then Failure(DaysOverMax)
    else Success(rate.n * days.n)
  }

  /**
   * The arguments are checked in a fixed order and the first violation is
   * the one reported: the rate's type, its sign, the days' type, their lower
   * bound, their upper bound.
   */
  lemma PriceErrorOrder(rate: Arg, days: Arg)
    ensures rate.NonInt? ==> ComputeTotalPriceCents(rate, days) == Failure(RateNotInteger)
    ensures rate.Int? && rate.n < 0 ==> ComputeTotalPriceCents(rate, days) == Failure(RateNegative)
    ensures rate.Int? && rate.n >= 0 && days.NonInt? ==>
      ComputeTotalPriceCents(rate, days) == Failure(DaysNotInteger)
    ensures rate.Int? && rate.n >= 0 && days.Int? && days.n <= 0 ==>
      ComputeTotalPriceCents(rate, days) == Failure(DaysNotPositive)
    ensures rate.Int? && rate.n >= 0 && days.Int? && days.n > MaxRentalDays ==>
      ComputeTotalPriceCents(rate, days) == Failure(DaysOverMax)
  {
  }

  /** A day count that passed the range check is always accepted for pricing. */
  lemma PricingAfterValidRange(start: DateLike, end: DateLike, rate: nat)
    requires ValidateRange(start, end).Success?
    ensures var days := end.ordinal - start.ordinal;
      ComputeTotalPriceCents(Int(rate), Int(ValidateRange(start, end).value)) == Success(rate * days)
  {
  }

  /** ASCII lowercasing of one character. */
  function LowerChar(c: char): (r: char)
    ensures !('A' <= r <= 'Z')
    ensures 'A' <= c <= 'Z' ==> r as int == c as int + 32
    ensures !('A' <= c <= 'Z') ==> r == c
  {
    if 'A' <= c <= 'Z' then (c as int - 'A' as int + 'a' as int) as char else c
  }

  /** ASCII lowercasing of a string. */
  function Lower(s: string): (r: string)
    ensures |r| == |s|
    ensures forall i :: 0 <= i < |s| ==> r[i] == LowerChar(s[i])
  {
    if s == [] then [] else [LowerChar(s[0])] + Lower(s[1..])
  }

  /** Two strings that differ at most in the case of their letters. */
  predicate EqualsIgnoringCase(s: string, t: string)
  {
    |s| == |t| && forall i :: 0 <= i < |s| ==> LowerChar(s[i]) == LowerChar(t[i])
  }

  /** Comparing a lowercased string with a lowercase one is comparing them ignoring case. */
  lemma LowerMatchesIgnoringCase(s: string, t: string)
    requires Lower(t) == t
    ensures Lower(s) == t <==> EqualsIgnoringCase(s, t)
  {
    if EqualsIgnoringCase(s, t) {
      forall i | 0 <= i < |s|
        ensures Lower(s)[i] == t[i]
      {
        assert Lower(t)[i] == LowerChar(t[i]);
      }
    }
  }

  /** The status of a bike-like value: its attribute first, its dictionary key second. */
  function ResolveStatus(bike: BikeLike): (r: Result<string, Error>)
    ensures bike.statusAttr.Some? ==> r == Success(bike.statusAttr.value)
    ensures bike.statusAttr.None? && bike.entries.Some? && "status" in bike.entries.value ==>
      r == Success(bike.entries.value["status"])
    ensures r.Failure? <==>
      bike.statusAttr.None? && (bike.entries.None? || "status" !in bike.entries.value)
    ensures r.Failure? ==> r.error == MissingStatus
  {
    if bike.statusAttr.Some? then Success(bike.statusAttr.value)
    else if bike.entries.Some? && "status" in bike.entries.value then Success(bike.entries.value["status"])
    else Failure(MissingStatus)
  }

  /**
   * Whether a bike can be rented over a window: the window is checked first,
   * then the status is compared with "available" ignoring case.
   */
  function IsBikeAvailable(bike: BikeLike, start: DateLike, end: DateLike): (r: Result<bool, Error>)
    ensures ValidateRange(start, end).Failure? ==> r == Failure(ValidateRange(start, end).error)
    ensures ValidateRange(start, end).Success? && ResolveStatus(bike).Failure? ==>
      r == Failure(MissingStatus)
    ensures r.Success? <==> ValidateRange(start, end).Success? && ResolveStatus(bike).Success?
    ensures r.Success? ==> (r.value <==> EqualsIgnoringCase(ResolveStatus(bike).value, "available"))
  {
    var _ :- ValidateRange(start, end);
    var status :- ResolveStatus(bike);
    LowerMatchesIgnoringCase(status, "available");
    Success(Lower(status) == "available")
  }

  /** The window scenarios the service's own tests exercise (ordinal 739038 is 2024-06-01). */
  lemma RangeScenarios()
    ensures ValidateRange(Date(739038), Date(739040)) == Success(2)
    ensures ValidateRange(DateTime(739038, 0), DateTime(739039, 0)) == Success(1)
    ensures ValidateRange(DateTime(739038, 0), DateTime(739041, 0)) == Success(3)
    ensures ValidateRange(Date(739038), Date(739038)) == Failure(EndNotAfterStart)
    ensures ValidateRange(Date(739039), Date(739038)) == Failure(EndNotAfterStart)
    ensures ValidateRange(Date(739038), Date(739042)) == Failure(DurationOutOfRange)
  {
  }

  /** The pricing scenarios the service's own tests exercise. */
  lemma PriceScenarios()
    ensures ComputeTotalPriceCents(Int(1500), Int(3)) == Success(4500)
    ensures ComputeTotalPriceCents(NonInt, Int(2)) == Failure(RateNotInteger)
    ensures ComputeTotalPriceCents(Int(-10), Int(2)) == Failure(RateNegative)
    ensures ComputeTotalPriceCents(Int(1500), Int(0)) == Failure(DaysNotPositive)
    ensures ComputeTotalPriceCents(Int(1500), Int(4)) == Failure(DaysOverMax)
  {
  }

  /** The availability scenarios the service's own tests exercise. */
  lemma AvailabilityScenarios()
    ensures IsBikeAvailable(BikeLike(Some("available"), None), Date(739038), Date(739039)) == Success(true)
    ensures IsBikeAvailable(BikeLike(None, Some(map["status" := "UNAVAILABLE"])), Date(739038), Date(739039))
      == Success(false)
    ensures IsBikeAvailable(BikeLike(None, None), Date(739038), Date(739039)) == Failure(MissingStatus)
    ensures IsBikeAvailable(BikeLike(Some("available"), None), Date(739038), Date(739042))
      == Failure(DurationOutOfRange)
  {
  }

  /** The status is matched ignoring case: "AVAILABLE" counts as available. */
  lemma {:induction false} UppercaseStatusScenario()
    ensures IsBikeAvailable(BikeLike(Some("AVAILABLE"), None), Date(739038), Date(739039)) == Success(true)
  {
    assert EqualsIgnoringCase("AVAILABLE", "available") by {
      forall i | 0 <= i < 9
        ensures LowerChar("AVAILABLE"[i]) == LowerChar("available"[i])
      {
      }
    }
  }
}
