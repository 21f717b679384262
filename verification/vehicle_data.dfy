/**
 * The domain vocabulary: the closed set of vehicle types with their wire
 * strings, and the default distance range and decile intervals used when a
 * request leaves them out.
 */
module VehicleData {
  import opened Wrappers

  /** The vehicle types, in declaration order. */
  datatype VehicleType =
    | Car | Ignore | Trailer | Truck | Bicycle | Van
    | Bus | Scooter | Bike | Pickup | Trike
  {
    /**
     * The enum member's `.value`, the string stored in the table and bound
     * as a parameter: a non-empty lower-case word.
     */
    function Value(): (v: string)
      ensures |v| > 0 && forall i :: 0 <= i < |v| ==> 'a' <= v[i] <= 'z'
    {
      match this
      case Car => "car"
      case Ignore => "ignore"
      case Trailer => "trailer"
      case Truck => "truck"
      case Bicycle => "bicycle"
      case Van => "van"
      case Bus => "bus"
      case Scooter => "scooter"
      case Bike => "bike"
      case Pickup => "pickup"
      case Trike => "trike"
    }
  }

  /** Every member, in declaration order. */
  const AllTypes: seq<VehicleType> :=
    [Car, Ignore, Trailer, Truck, Bicycle, Van, Bus, Scooter, Bike, Pickup, Trike]

  /**
   * Enum lookup by value (`VehicleType(s)`): an exact, case-sensitive match
   * against the member values; any other string is not a member.
   */
  function FromValue(s: string): (r: Option<VehicleType>)
    ensures r.Some? ==> r.value.Value() == s
    ensures r.None? ==> forall t: VehicleType :: t.Value() != s
  {
    if s == "car" then Some(Car)
    else if s == "ignore" then Some(Ignore)
    else if s == "trailer" then Some(Trailer)
    else if s == "truck" then Some(Truck)
    else if s == "bicycle" then Some(Bicycle)
    else if s == "van" then Some(Van)
    else if s == "bus" then Some(Bus)
    else if s == "scooter" then Some(Scooter)
    else if s == "bike" then Some(Bike)
    else if s == "pickup" then Some(Pickup)
    else if s == "trike" then Some(Trike)
    else None
  }

  /** Looking up a member's own value gives back that member. */
  lemma FromValueOfValue(t: VehicleType)
    ensures FromValue(t.Value()) == Some(t)
  {
  }

  /** The enumeration has eleven members and no two share a value. */
  lemma ValuesDistinct()
    ensures |AllTypes| == 11
    ensures forall t: VehicleType :: t in AllTypes
    ensures forall i, j :: 0 <= i < j < |AllTypes| ==> AllTypes[i].Value() != AllTypes[j].Value()
  {
    forall t: VehicleType
      ensures t in AllTypes
    {
      match t
      case Car => assert AllTypes[0] == t;
      case Ignore => assert AllTypes[1] == t;
      case Trailer => assert AllTypes[2] == t;
      case Truck => assert AllTypes[3] == t;
      case Bicycle => assert AllTypes[4] == t;
      case Van => assert AllTypes[5] == t;
      case Bus => assert AllTypes[6] == t;
      case Scooter => assert AllTypes[7] == t;
      case Bike => assert AllTypes[8] == t;
      case Pickup => assert AllTypes[9] == t;
      case Trike => assert AllTypes[10] == t;
    }
    forall i, j | 0 <= i < j < |AllTypes|
      ensures AllTypes[i].Value() != AllTypes[j].Value()
    {
      FromValueOfValue(AllTypes[i]);
      FromValueOfValue(AllTypes[j]);
    }
  }

  /** A pair of distances: the range `(lo, hi)` or an interval `(min, max)`. */
  datatype Span = Span(lo: int, hi: int)

  /** `distance_range_default`. */
  const DefaultRange: Span := Span(0, 100)

  /** `distance_intervals_default`: the ten deciles of the default range. */
  const DefaultIntervals: seq<Span> := [
    Span(1, 10), Span(11, 20), Span(21, 30), Span(31, 40),
    Span(41, 50), Span(51, 60), Span(61, 70), Span(71, 80),
    Span(81, 90), Span(91, 100)
  ]

  /** The default range is an ordered pair of non-negative bounds. */
  lemma DefaultRangeWellFormed()
    ensures 0 <= DefaultRange.lo <= DefaultRange.hi
  {
  }

  /** The k-th default interval is `(10k + 1, 10k + 10)`. */
  lemma DefaultIntervalsAreDeciles()
    ensures |DefaultIntervals| == 10
    ensures forall k :: 0 <= k < 10 ==> DefaultIntervals[k] == Span(10 * k + 1, 10 * k + 10)
  {
  }
}
