/**
 * The request validator `VehicleValidation`: field defaults, the
 * non-negativity constraints on every distance, the range-order and
 * interval-order validators, and enum membership of the vehicle type.
 *
 * Pydantic validates every field in declaration order (range, intervals,
 * vehicle type) and raises one `ValidationError` listing each field that
 * failed; a field's own validator runs only when its element constraints
 * (`conint(ge=0)`) passed. Defaults are substituted without validation.
 */
module VehicleValidations {
  import opened Wrappers
  import opened VehicleData

  /** The caller's request: every field may be missing. */
  datatype RawRequest = RawRequest(
    distanceRange: Option<Span>,
    distanceIntervals: Option<seq<Span>>,
    vehicleType: Option<string>)

  /** The fields of a constructed `VehicleValidation`. */
  datatype VehicleValidation = VehicleValidation(
    distanceRange: Span,
    distanceIntervals: seq<Span>,
    vehicleType: Option<VehicleType>)

  predicate NonNegative(s: Span) {
    0 <= s.lo && 0 <= s.hi
  }

  /** A range may be degenerate: equal bounds are allowed. */
  predicate RangeValid(r: Span) {
    NonNegative(r) && r.lo <= r.hi
  }

  /** An interval must be strictly increasing: equal bounds are rejected. */
  predicate IntervalValid(iv: Span) {
    NonNegative(iv) && iv.lo < iv.hi
  }

  predicate IntervalsValid(ivs: seq<Span>) {
    forall i :: 0 <= i < |ivs| ==> IntervalValid(ivs[i])
  }

  predicate IsValid(v: VehicleValidation) {
    RangeValid(v.distanceRange) && IntervalsValid(v.distanceIntervals)
  }

  /** A `VehicleValidation` can only exist in a valid state. */
  type ValidRequest = v: VehicleValidation | IsValid(v)
    witness VehicleValidation(Span(0, 0), [], None)

  /** One failing field of a request, with the cause pydantic reports for it. */
  datatype FieldError =
    | RangeNegative(range: Span)
    | RangeOrder(range: Span)
    | IntervalNegative(index: nat, interval: Span)
    | IntervalOrder(index: nat, interval: Span)
    | UnknownVehicleType(value: string)
  {
    /** The field the error is about: 0 range, 1 intervals, 2 vehicle type. */
    function Field(): nat
    {
      match this
      case RangeNegative(_) => 0
      case RangeOrder(_) => 0
      case IntervalNegative(_, _) => 1
      case IntervalOrder(_, _) => 1
      case UnknownVehicleType(_) => 2
    }
  }

  /** Pydantic's single `ValidationError`, listing the failing fields in declaration order. */
  datatype ValidationError = ValidationError(errors: seq<FieldError>)

  /** Position of the first element satisfying `bad`. */
  function FirstIndex<T>(s: seq<T>, bad: T -> bool): (r: Option<nat>)
    ensures r.Some? ==> r.value < |s| && bad(s[r.value]) && forall j :: 0 <= j < r.value ==> !bad(s[j])
    ensures r.None? ==> forall j :: 0 <= j < |s| ==> !bad(s[j])
  {
    if |s| == 0 then None
    else if bad(s[0]) then Some(0)
    else match FirstIndex(s[1..], bad)
      case None => None
      case Some(i) => Some(i + 1)
  }

  /** The element constraints, then `check_distance_range`, on a supplied range. */
  function CheckRange(r: Span): (e: Option<FieldError>)
    ensures e.None? <==> RangeValid(r)
    ensures e == Some(RangeNegative(r)) <==> !NonNegative(r)
    ensures e == Some(RangeOrder(r)) <==> NonNegative(r) && r.lo > r.hi
  {
    if r.lo < 0 || r.hi < 0 then Some(RangeNegative(r))
    else if r.lo > r.hi then Some(RangeOrder(r))
    else None
  }

  /**
   * The element constraints on every interval, then `check_intervals`, which
   * stops at the first interval with `min >= max`.
   */
  function CheckIntervals(ivs: seq<Span>): (e: Option<FieldError>)
    ensures e.None? <==> IntervalsValid(ivs)
    ensures e.Some? && e.value.IntervalNegative? ==>
      && e.value.index < |ivs|
      && ivs[e.value.index] == e.value.interval
      && !NonNegative(e.value.interval)
      && forall j :: 0 <= j < e.value.index ==> NonNegative(ivs[j])
    ensures e.Some? && e.value.IntervalOrder? ==>
      && (forall j :: 0 <= j < |ivs| ==> NonNegative(ivs[j]))
      && e.value.index < |ivs|
      && ivs[e.value.index] == e.value.interval
      && e.value.interval.lo >= e.value.interval.hi
      && forall j :: 0 <= j < e.value.index ==> ivs[j].lo < ivs[j].hi
    ensures e.Some? ==> e.value.Field() == 1
  {
    match FirstIndex(ivs, (iv: Span) => !NonNegative(iv))
    case Some(i) => Some(IntervalNegative(i, ivs[i]))
    case None =>
      match FirstIndex(ivs, (iv: Span) => iv.lo >= iv.hi)
      case Some(i) => Some(IntervalOrder(i, ivs[i]))
      case None => None
  }

  /** Enum coercion of a supplied vehicle type. */
  function CheckVehicleType(s: string): (r: Result<VehicleType, FieldError>)
    ensures r.Success? <==> exists t: VehicleType :: t.Value() == s
    ensures r.Success? <==> FromValue(s).Some?
    ensures r.Success? ==> r.value.Value() == s
    ensures r.Failure? ==> r.error == UnknownVehicleType(s)
  {
    match FromValue(s)
    case Some(t) => Success(t)
    case None => Failure(UnknownVehicleType(s))
  }

  function ErrorList(e: Option<FieldError>): seq<FieldError>
  {
    match e
    case None => []
    case Some(x) => [x]
  }

  /** Every field of `raw` that is present satisfies its constraints. */
  predicate Acceptable(raw: RawRequest) {
    && (raw.distanceRange.Some? ==> RangeValid(raw.distanceRange.value))
    && (raw.distanceIntervals.Some? ==> IntervalsValid(raw.distanceIntervals.value))
    && (raw.vehicleType.Some? ==> FromValue(raw.vehicleType.value).Some?)
  }

  /** Field `f` of `raw` was supplied and violates its constraints. */
  predicate FieldFails(raw: RawRequest, f: nat) {
    if f == 0 then raw.distanceRange.Some? && !RangeValid(raw.distanceRange.value)
    else if f == 1 then raw.distanceIntervals.Some? && !IntervalsValid(raw.distanceIntervals.value)
    else f == 2 && raw.vehicleType.Some? && FromValue(raw.vehicleType.value).None?
  }

  /** `e` is a truthful report about the request `raw`. */
  predicate Explains(raw: RawRequest, e: FieldError) {
    match e
    case RangeNegative(r) => raw.distanceRange == Some(r) && !NonNegative(r)
    case RangeOrder(r) => raw.distanceRange == Some(r) && NonNegative(r) && r.lo > r.hi
    case IntervalNegative(i, iv) =>
      && raw.distanceIntervals.Some?
      && i < |raw.distanceIntervals.value|
      && raw.distanceIntervals.value[i] == iv
      && !NonNegative(iv)
    case IntervalOrder(i, iv) =>
      && raw.distanceIntervals.Some?
      && i < |raw.distanceIntervals.value|
      && raw.distanceIntervals.value[i] == iv
      && (forall j :: 0 <= j < |raw.distanceIntervals.value| ==> NonNegative(raw.distanceIntervals.value[j]))
      && iv.lo >= iv.hi
      && forall j :: 0 <= j < i ==> raw.distanceIntervals.value[j].lo < raw.distanceIntervals.value[j].hi
    case UnknownVehicleType(s) =>
      raw.vehicleType == Some(s) && FromValue(s).None?
  }

  /** The error reported for the range, if it was supplied and fails. */
  function RangeErrors(raw: RawRequest): (errors: seq<FieldError>)
    ensures |errors| <= 1
    ensures forall e :: e in errors ==> e.Field() == 0 && Explains(raw, e)
    ensures |errors| == 1 <==> FieldFails(raw, 0)
  {
    if raw.distanceRange.Some? then ErrorList(CheckRange(raw.distanceRange.value)) else []
  }

  /** The error reported for the interval list, if it was supplied and fails. */
  function IntervalErrors(raw: RawRequest): (errors: seq<FieldError>)
    ensures |errors| <= 1
    ensures forall e :: e in errors ==> e.Field() == 1 && Explains(raw, e)
    ensures |errors| == 1 <==> FieldFails(raw, 1)
  {
    if raw.distanceIntervals.Some? then ErrorList(CheckIntervals(raw.distanceIntervals.value)) else []
  }

  /** The error reported for the vehicle type, if it was supplied and is not a member. */
  function TypeErrors(raw: RawRequest): (errors: seq<FieldError>)
    ensures |errors| <= 1
    ensures forall e :: e in errors ==> e.Field() == 2 && Explains(raw, e)
    ensures |errors| == 1 <==> FieldFails(raw, 2)
  {
    if raw.vehicleType.Some? then
      match CheckVehicleType(raw.vehicleType.value)
      case Success(_) => []
      case Failure(e) => [e]
    else []
  }

  /**
   * All errors pydantic collects for `raw`: one per failing field, in
   * declaration order, each a truthful report.
   */
  function RequestErrors(raw: RawRequest): (errors: seq<FieldError>)
    ensures forall i, j :: 0 <= i < j < |errors| ==> errors[i].Field() < errors[j].Field()
    ensures forall e :: e in errors ==> Explains(raw, e)
    ensures forall f :: FieldFails(raw, f) ==> exists e :: e in errors && e.Field() == f
    ensures errors == [] <==> Acceptable(raw)
  {
    var a := RangeErrors(raw);
    var b := IntervalErrors(raw);
    var c := TypeErrors(raw);
    OrderedByField(a, b, c);
    ErrorsExplained(raw, a, b, c);
    ErrorsComplete(raw, a, b, c);
    ErrorsEmpty(raw, a, b, c);
    a + b + c
  }

  lemma ErrorsExplained(raw: RawRequest, a: seq<FieldError>, b: seq<FieldError>, c: seq<FieldError>)
    requires a == RangeErrors(raw) && b == IntervalErrors(raw) && c == TypeErrors(raw)
    ensures forall e :: e in a + b + c ==> Explains(raw, e)
  {
    forall e | e in a + b + c
      ensures Explains(raw, e)
    {
      assert e in a || e in b || e in c;
    }
  }

  lemma ErrorsComplete(raw: RawRequest, a: seq<FieldError>, b: seq<FieldError>, c: seq<FieldError>)
    requires a == RangeErrors(raw) && b == IntervalErrors(raw) && c == TypeErrors(raw)
    ensures forall f :: FieldFails(raw, f) ==> exists e :: e in a + b + c && e.Field() == f
  {
    forall f | FieldFails(raw, f)
      ensures exists e :: e in a + b + c && e.Field() == f
    {
      if f == 0 {
        assert a[0] in a + b + c;
      } else if f == 1 {
        assert b[0] in a + b + c;
      } else {
        assert c[0] in a + b + c;
      }
    }
  }

  lemma ErrorsEmpty(raw: RawRequest, a: seq<FieldError>, b: seq<FieldError>, c: seq<FieldError>)
    requires a == RangeErrors(raw) && b == IntervalErrors(raw) && c == TypeErrors(raw)
    ensures a + b + c == [] <==> Acceptable(raw)
  {
    assert a + b + c == [] <==> a == [] && b == [] && c == [];
    assert a == [] <==> !FieldFails(raw, 0);
    assert b == [] <==> !FieldFails(raw, 1);
    assert c == [] <==> !FieldFails(raw, 2);
  }

  /** At most one error for each of the fields 0, 1 and 2, concatenated in that order, are ordered by field. */
  lemma OrderedByField(a: seq<FieldError>, b: seq<FieldError>, c: seq<FieldError>)
    requires |a| <= 1 && |b| <= 1 && |c| <= 1
    requires forall e :: e in a ==> e.Field() == 0
    requires forall e :: e in b ==> e.Field() == 1
    requires forall e :: e in c ==> e.Field() == 2
    ensures forall i, j :: 0 <= i < j < |a + b + c| ==> (a + b + c)[i].Field() < (a + b + c)[j].Field()
  {
    var s := a + b + c;
    forall i, j | 0 <= i < j < |s|
      ensures s[i].Field() < s[j].Field()
    {
      assert s[i] in s && s[j] in s;
    }
  }

  /**
   * `VehicleValidation(**raw)`: substitutes the defaults for missing fields,
   * checks the supplied ones, and either builds the validated request from
   * the (defaulted) inputs unchanged or reports every failing field.
   */
  function Validate(raw: RawRequest): (r: Result<ValidRequest, ValidationError>)
    ensures r.Success? <==> Acceptable(raw)
    ensures r.Success? ==>
      && r.value.distanceRange == raw.distanceRange.OrDefault(DefaultRange)
      && r.value.distanceIntervals == raw.distanceIntervals.OrDefault(DefaultIntervals)
      && r.value.vehicleType.Some? == raw.vehicleType.Some?
      && (raw.vehicleType.Some? ==> r.value.vehicleType.value.Value() == raw.vehicleType.value)
    ensures r.Failure? ==>
      && |r.error.errors| > 0
      && (forall i, j :: 0 <= i < j < |r.error.errors| ==> r.error.errors[i].Field() < r.error.errors[j].Field())
      && (forall e :: e in r.error.errors ==> Explains(raw, e))
      && (forall f :: FieldFails(raw, f) ==> exists e :: e in r.error.errors && e.Field() == f)
  {
    var errors := RequestErrors(raw);
    if errors == [] then Success(Accepted(raw)) else Failure(ValidationError(errors))
  }

  /** The validated request built from an acceptable one: the supplied or defaulted fields, unchanged. */
  function Accepted(raw: RawRequest): (v: ValidRequest)
    requires Acceptable(raw)
    ensures v.distanceRange == raw.distanceRange.OrDefault(DefaultRange)
    ensures v.distanceIntervals == raw.distanceIntervals.OrDefault(DefaultIntervals)
    ensures v.vehicleType.Some? == raw.vehicleType.Some?
    ensures raw.vehicleType.Some? ==> v.vehicleType.value.Value() == raw.vehicleType.value
  {
    var range := raw.distanceRange.OrDefault(DefaultRange);
    var intervals := raw.distanceIntervals.OrDefault(DefaultIntervals);
    var vt := if raw.vehicleType.Some? then FromValue(raw.vehicleType.value) else None;
    assert RangeValid(range) && IntervalsValid(intervals) by {
      DefaultsValid();
    }
    VehicleValidation(range, intervals, vt)
  }

  /** The defaults would pass the validators they bypass. */
  lemma DefaultsValid()
    ensures RangeValid(DefaultRange) && CheckRange(DefaultRange).None?
    ensures IntervalsValid(DefaultIntervals) && CheckIntervals(DefaultIntervals).None?
  {
    DefaultIntervalsAreDeciles();
  }

  /** An empty request validates to the default range, the deciles and no vehicle filter. */
  lemma ValidateEmptyRequest()
    ensures Validate(RawRequest(None, None, None))
         == Success(VehicleValidation(DefaultRange, DefaultIntervals, None))
  {
  }

  /** A degenerate range such as `(5, 5)` is accepted. */
  lemma DegenerateRangeAccepted()
    ensures Validate(RawRequest(Some(Span(5, 5)), None, None)).Success?
  {
  }

  /**
   * A range with a negative bound, such as `(-100, 100)`, is rejected with
   * that one error when the other fields are fine.
   */
  lemma NegativeRangeRejected(r: Span, ivs: seq<Span>, vt: string)
    requires r.lo < 0 || r.hi < 0
    requires IntervalsValid(ivs) && FromValue(vt).Some?
    ensures Validate(RawRequest(Some(r), Some(ivs), Some(vt))) == Failure(ValidationError([RangeNegative(r)]))
  {
    var raw := RawRequest(Some(r), Some(ivs), Some(vt));
    TypeErrorsOf(raw);
    RejectedWith(raw, [RangeNegative(r)], [], [], [RangeNegative(r)]);
  }

  /** A request whose per-field reports concatenate to a nonempty `errs` is rejected with exactly `errs`. */
  lemma RejectedWith(raw: RawRequest, a: seq<FieldError>, b: seq<FieldError>, c: seq<FieldError>, errs: seq<FieldError>)
    requires RangeErrors(raw) == a && IntervalErrors(raw) == b && TypeErrors(raw) == c
    requires a + b + c == errs && errs != []
    ensures Validate(raw) == Failure(ValidationError(errs))
  {
  }

  /** The type report, given the outcome of the enum lookup. */
  lemma TypeErrorsOf(raw: RawRequest)
    requires raw.vehicleType.Some?
    ensures FromValue(raw.vehicleType.value).Some? ==> TypeErrors(raw) == []
    ensures FromValue(raw.vehicleType.value).None? ==> TypeErrors(raw) == [UnknownVehicleType(raw.vehicleType.value)]
  {
  }

  lemma CarIsMember()
    ensures FromValue("car") == Some(Car)
  {
  }

  /** A reversed range fails the order check. */
  lemma ReversedRangeRejected()
    ensures Validate(RawRequest(Some(Span(100, 0)), None, None))
         == Failure(ValidationError([RangeOrder(Span(100, 0))]))
  {
    assert RequestErrors(RawRequest(Some(Span(100, 0)), None, None)) == [RangeOrder(Span(100, 0))];
  }

  /**
   * `check_intervals` stops at the first interval with `min >= max`: when
   * every bound is non-negative, the order error names exactly that one.
   */
  lemma FirstOrderViolationReported(ivs: seq<Span>, k: nat)
    requires forall j :: 0 <= j < |ivs| ==> NonNegative(ivs[j])
    requires k < |ivs| && ivs[k].lo >= ivs[k].hi
    requires forall j :: 0 <= j < k ==> ivs[j].lo < ivs[j].hi
    ensures CheckIntervals(ivs) == Some(IntervalOrder(k, ivs[k]))
  {
    assert !IntervalValid(ivs[k]);
    var e := CheckIntervals(ivs);
    assert e.Some? && e.value.IntervalOrder?;
  }

  /** Of two intervals out of order, the first is the one reported. */
  lemma FirstBadIntervalNamed()
    ensures Validate(RawRequest(None, Some([Span(5, 5), Span(9, 1)]), None))
         == Failure(ValidationError([IntervalOrder(0, Span(5, 5))]))
  {
    var ivs := [Span(5, 5), Span(9, 1)];
    FirstOrderViolationReported(ivs, 0);
    assert RequestErrors(RawRequest(None, Some(ivs), None)) == [IntervalOrder(0, Span(5, 5))];
  }

  /** One interval with equal bounds, or with `min > max`, rejects the whole request. */
  lemma BadIntervalRejected()
    ensures Validate(RawRequest(None, Some([Span(1, 10), Span(50, 50)]), None))
         == Failure(ValidationError([IntervalOrder(1, Span(50, 50))]))
    ensures Validate(RawRequest(None, Some([Span(50, 49), Span(1, 10)]), None))
         == Failure(ValidationError([IntervalOrder(0, Span(50, 49))]))
  {
    var equal := RawRequest(None, Some([Span(1, 10), Span(50, 50)]), None);
    assert CheckIntervals(equal.distanceIntervals.value) == Some(IntervalOrder(1, Span(50, 50)));
    assert RequestErrors(equal) == [IntervalOrder(1, Span(50, 50))];
    var reversed := RawRequest(None, Some([Span(50, 49), Span(1, 10)]), None);
    assert CheckIntervals(reversed.distanceIntervals.value) == Some(IntervalOrder(0, Span(50, 49)));
    assert RequestErrors(reversed) == [IntervalOrder(0, Span(50, 49))];
  }

  /**
   * `"ski"` is not a vehicle type and `"car"` is: with a valid range and
   * interval list, the first is rejected with that one error and the second
   * is accepted as the car type.
   */
  lemma VehicleTypeMembership(r: Span, ivs: seq<Span>)
    requires RangeValid(r) && IntervalsValid(ivs)
    ensures Validate(RawRequest(Some(r), Some(ivs), Some("ski"))) == Failure(ValidationError([UnknownVehicleType("ski")]))
    ensures Validate(RawRequest(Some(r), Some(ivs), Some("car"))) == Success(VehicleValidation(r, ivs, Some(Car)))
  {
    var ski := RawRequest(Some(r), Some(ivs), Some("ski"));
    SkiIsNotMember();
    TypeErrorsOf(ski);
    RejectedWith(ski, [], [], [UnknownVehicleType("ski")], [UnknownVehicleType("ski")]);
    CarIsMember();
  }

  lemma SkiIsNotMember()
    ensures FromValue("ski") == None
  {
  }

  /** The three requests of the validation tests: the all-valid car request, the negative range, and `"ski"`. */
  lemma ValidationTestCases()
    ensures Validate(RawRequest(Some(Span(0, 100)), Some(DefaultIntervals), Some("car")))
         == Success(VehicleValidation(Span(0, 100), DefaultIntervals, Some(Car)))
    ensures Validate(RawRequest(Some(Span(-100, 100)), Some(DefaultIntervals), Some("car")))
         == Failure(ValidationError([RangeNegative(Span(-100, 100))]))
    ensures Validate(RawRequest(Some(Span(30, 100)), Some(DefaultIntervals), Some("ski")))
         == Failure(ValidationError([UnknownVehicleType("ski")]))
  {
    DefaultsValid();
    CarIsMember();
    VehicleTypeMembership(Span(0, 100), DefaultIntervals);
    NegativeRangeRejected(Span(-100, 100), DefaultIntervals, "car");
    VehicleTypeMembership(Span(30, 100), DefaultIntervals);
  }

  /** Intervals need not lie inside the range, be sorted, or be disjoint. */
  lemma NoOtherConstraints()
    ensures Validate(RawRequest(Some(Span(20, 80)), Some([Span(90, 95), Span(1, 50), Span(40, 60)]), None)).Success?
  {
  }

  /** Every failing field is reported, in declaration order. */
  lemma AllFailingFieldsReported()
    ensures Validate(RawRequest(Some(Span(9, 3)), Some([Span(7, 7)]), Some("Car")))
         == Failure(ValidationError([RangeOrder(Span(9, 3)), IntervalOrder(0, Span(7, 7)), UnknownVehicleType("Car")]))
  {
    var raw := RawRequest(Some(Span(9, 3)), Some([Span(7, 7)]), Some("Car"));
    assert CheckIntervals(raw.distanceIntervals.value) == Some(IntervalOrder(0, Span(7, 7)));
    assert FromValue("Car") == None;
    assert RequestErrors(raw) == [RangeOrder(Span(9, 3)), IntervalOrder(0, Span(7, 7)), UnknownVehicleType("Car")];
  }
}
