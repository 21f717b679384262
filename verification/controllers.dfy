/**
 * `VehicleControllers.get_vehicle_detection_stats`: construct the validated
 * request from the caller's fields, then hand it to the repository. A
 * rejected request never reaches the database.
 */
module Controllers {
  import opened Wrappers
  import opened Text
  import opened VehicleData
  import opened VehicleValidations
  import opened Queries
  import opened VehicleRepository

  /** What the controller can raise: the validator's error or the query manager's. */
  datatype StatsError = InvalidRequest(validation: ValidationError) | QueryFailed(execution: QueryExecutionError)

  function GetVehicleDetectionStats<Row>(raw: RawRequest, execute: (string, seq<Param>) -> ExecOutcome<Row>)
    : (r: Result<QueryResult<Row>, StatsError>)
    ensures (r.Failure? && r.error.InvalidRequest?) <==> !Acceptable(raw)
    ensures Acceptable(raw) ==>
      var q := CompileQuery(Validate(raw).value);
      && (r.Success? <==> execute(q.text, q.params).Returned?)
      && (r.Success? ==> r.value.data == execute(q.text, q.params).frame && Describes(r.value.metadata, r.value.data))
      && (r.Failure? ==> r.error == QueryFailed(QueryExecutionError(FailurePrefix + execute(q.text, q.params).cause)))
  {
    match Validate(raw)
    case Failure(e) => Failure(InvalidRequest(e))
    case Success(req) =>
      match DetectionStatistics(req, execute)
      case Failure(e) => Failure(QueryFailed(e))
      case Success(result) => Success(result)
  }

  /** A rejected request gives the same answer whatever the database would have done. */
  lemma RejectedRequestNeverQueries<Row>(
    raw: RawRequest,
    e1: (string, seq<Param>) -> ExecOutcome<Row>,
    e2: (string, seq<Param>) -> ExecOutcome<Row>)
    requires !Acceptable(raw)
    ensures GetVehicleDetectionStats(raw, e1) == GetVehicleDetectionStats(raw, e2)
    ensures GetVehicleDetectionStats(raw, e1) == Failure(InvalidRequest(Validate(raw).error))
  {
  }

  /** The request with every field left out. */
  const AllDefaults := RawRequest(None, None, None)

  /** The car request with range `(20, 80)` and nine intervals, two of which fall outside the range. */
  const CarScenario := RawRequest(
    Some(Span(20, 80)),
    Some([Span(1, 10), Span(11, 20), Span(21, 30), Span(31, 40), Span(41, 50),
          Span(61, 70), Span(71, 80), Span(81, 90), Span(91, 100)]),
    Some("car"))

  /** What validation makes of `AllDefaults`. */
  const DefaultRequest: ValidRequest := VehicleValidation(DefaultRange, DefaultIntervals, None)

  /** What validation makes of `CarScenario`. */
  const CarRequest: ValidRequest := VehicleValidation(Span(20, 80), CarScenario.distanceIntervals.value, Some(Car))

  /** With every field left out, all ten deciles become columns and only the range `(0, 100)` is bound. */
  lemma AllDefaultsStatement()
    ensures Validate(AllDefaults) == Success(DefaultRequest)
    ensures KeptIntervals(DefaultRequest.distanceRange, DefaultRequest.distanceIntervals) == DefaultIntervals
    ensures CompileQuery(DefaultRequest).params == [IntParam(0), IntParam(100)]
  {
    ValidateEmptyRequest();
    DefaultsKept();
  }

  /** Every default interval lies inside the default range. */
  lemma DefaultsKept()
    ensures KeptIntervals(DefaultRange, DefaultIntervals) == DefaultIntervals
  {
    DefaultIntervalsAreDeciles();
    KeptIntervalsAll(DefaultRange, DefaultIntervals);
  }

  /**
   * The car request validates as given, keeps `21-30, 31-40, 41-50, 61-70,
   * 71-80`, and binds the vehicle type before the two range bounds.
   */
  lemma CarScenarioStatement()
    ensures Validate(CarScenario) == Success(CarRequest)
    ensures KeptIntervals(CarRequest.distanceRange, CarRequest.distanceIntervals)
         == [Span(21, 30), Span(31, 40), Span(41, 50), Span(61, 70), Span(71, 80)]
    ensures CompileQuery(CarRequest).params == [TextParam("car"), IntParam(20), IntParam(80)]
  {
    CarScenarioValid();
    CarScenarioKept();
  }

  lemma CarScenarioValid()
    ensures Validate(CarScenario) == Success(CarRequest)
  {
    assert IntervalsValid(CarScenario.distanceIntervals.value);
    CarIsMember();
    assert Acceptable(CarScenario);
    var v := Validate(CarScenario).value;
    assert v.vehicleType.value.Value() == "car";
    FromValueOfValue(v.vehicleType.value);
  }

  lemma CarScenarioKept()
    ensures KeptIntervals(Span(20, 80), CarScenario.distanceIntervals.value)
         == [Span(21, 30), Span(31, 40), Span(41, 50), Span(61, 70), Span(71, 80)]
  {
    var range := Span(20, 80);
    var below := [Span(1, 10), Span(11, 20)];
    var inside := [Span(21, 30), Span(31, 40), Span(41, 50), Span(61, 70), Span(71, 80)];
    var above := [Span(81, 90), Span(91, 100)];
    assert CarScenario.distanceIntervals.value == below + inside + above;
    assert KeptIntervals(range, below) == [] by { KeptNone(range, below); }
    assert KeptIntervals(range, above) == [] by { KeptNone(range, above); }
    assert KeptIntervals(range, inside) == inside by { KeptIntervalsAll(range, inside); }
    KeptMiddle(range, below, inside, above);
  }

  /** The statement of the car request declares exactly the five kept column names, in order. */
  lemma CarScenarioColumnNames()
    ensures QuotedNames(CompileQuery(CarRequest).text) == ["21-30", "31-40", "41-50", "61-70", "71-80"]
  {
    CarScenarioKept();
    StatementColumnNames(CarRequest);
    CarScenarioLabels();
  }

  lemma CarScenarioLabels()
    ensures Labels([Span(21, 30), Span(31, 40), Span(41, 50), Span(61, 70), Span(71, 80)])
         == ["21-30", "31-40", "41-50", "61-70", "71-80"]
  {
    var kept := [Span(21, 30), Span(31, 40), Span(41, 50), Span(61, 70), Span(71, 80)];
    var names := ["21-30", "31-40", "41-50", "61-70", "71-80"];
    TwoDigitLabel(21, 30);
    TwoDigitLabel(31, 40);
    TwoDigitLabel(41, 50);
    TwoDigitLabel(61, 70);
    TwoDigitLabel(71, 80);
    forall i | 0 <= i < 5
      ensures Labels(kept)[i] == names[i]
    {
      LabelsAt(kept, i);
    }
  }

  /** The alias of an interval whose endpoints both have two digits. */
  lemma TwoDigitLabel(lo: nat, hi: nat)
    requires 10 <= lo < 100 && 10 <= hi < 100
    ensures Label(Span(lo, hi)) == [DigitChar(lo / 10), DigitChar(lo % 10), '-', DigitChar(hi / 10), DigitChar(hi % 10)]
  {
    assert NatToString(lo) == [DigitChar(lo / 10), DigitChar(lo % 10)];
    assert NatToString(hi) == [DigitChar(hi / 10), DigitChar(hi % 10)];
  }
}
