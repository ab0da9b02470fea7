/**
 * A road between two cities as the route table stores it
 * (src/models/Route.java): which pairs of city ids it connects, the city
 * at its other end, and its one-line description.
 */
module Routes {
  import opened Wrappers

  /** A route; the Java `null` strings are `None`, unset ints are 0. */
  datatype Route = Route(
    id: int,
    fromCityId: int,
    fromCityName: Option<string>,
    toCityId: int,
    toCityName: Option<string>,
    distance: int,
    roadType: Option<string>,
    isBidirectional: bool)

  // ----- Constructors: all but the full one make the route bidirectional -----

  function DefaultRoute(): (r: Route)
    ensures r.isBidirectional
    ensures r.fromCityName.None? && r.toCityName.None? && r.roadType.None?
  {
    Route(0, 0, None, 0, None, 0, None, true)
  }

  function BasicRoute(fromCityId: int, toCityId: int, distance: int): (r: Route)
    ensures r.isBidirectional
    ensures r.fromCityId == fromCityId && r.toCityId == toCityId && r.distance == distance
  {
    Route(0, fromCityId, None, toCityId, None, distance, None, true)
  }

  function NamedRoute(fromCityId: int, fromCityName: string, toCityId: int, toCityName: string, distance: int): (r: Route)
    ensures r.isBidirectional
    ensures r.fromCityId == fromCityId && r.toCityId == toCityId && r.distance == distance
    ensures r.fromCityName == Some(fromCityName) && r.toCityName == Some(toCityName)
  {
    Route(0, fromCityId, Some(fromCityName), toCityId, Some(toCityName), distance, None, true)
  }

  // ----- Connectivity -----

  /**
   * `connectsCities`: a two-way route joins its endpoints in either order,
   * a one-way route only from its origin to its destination.
   */
  function ConnectsCities(r: Route, cityId1: int, cityId2: int): (b: bool)
    ensures r.isBidirectional ==> (b <==> {cityId1, cityId2} == {r.fromCityId, r.toCityId})
    ensures !r.isBidirectional ==> (b <==> cityId1 == r.fromCityId && cityId2 == r.toCityId)
  {
    if r.isBidirectional then
      (r.fromCityId == cityId1 && r.toCityId == cityId2) || (r.fromCityId == cityId2 && r.toCityId == cityId1)
    else
      r.fromCityId == cityId1 && r.toCityId == cityId2
  }

  /** The route can be entered at `cityId`: its origin, or its destination when it runs both ways. */
  predicate Enters(r: Route, cityId: int) {
    cityId == r.fromCityId || (r.isBidirectional && cityId == r.toCityId)
  }

  /**
   * `getOtherCity`: from the origin the route always leads to the
   * destination; from the destination it leads back only when two-way;
   * any other city gets -1.
   */
  function OtherCity(r: Route, cityId: int): (o: int)
    ensures Enters(r, cityId) ==> ConnectsCities(r, cityId, o)
    ensures !Enters(r, cityId) ==> o == -1
    ensures cityId == r.fromCityId ==> o == r.toCityId
  {
    if r.fromCityId == cityId then r.toCityId
    else if r.toCityId == cityId && r.isBidirectional then r.fromCityId
    else -1
  }

  /** A route connects `x` to `y` exactly when it can be entered at `x` and leads to `y`. */
  lemma ConnectsIffOther(r: Route, x: int, y: int)
    ensures ConnectsCities(r, x, y) <==> Enters(r, x) && OtherCity(r, x) == y
  {
  }

  /** On a two-way route, going to the other end twice comes back. */
  lemma OtherCityInvolution(r: Route, x: int)
    requires r.isBidirectional && Enters(r, x)
    ensures Enters(r, OtherCity(r, x))
    ensures OtherCity(r, OtherCity(r, x)) == x
  {
  }

  // ----- Description -----

  /** Java's rendering of a possibly-null string in a concatenation. */
  function NameText(name: Option<string>): string {
    if name.Some? then name.value else "null"
  }

  function Arrow(isBidirectional: bool): char {
    if isBidirectional then '\U{2194}' else '\U{2192}'
  }

  function DigitChar(d: nat): (c: char)
    requires d < 10
    ensures '0' <= c <= '9'
  {
    (('0' as int) + d) as char
  }

  predicate IsDigits(s: string) {
    forall i :: 0 <= i < |s| ==> '0' <= s[i] <= '9'
  }

  /** The decimal digits of `n`, without leading zeros. */
  function NatToDecimal(n: nat): (s: string)
    ensures |s| > 0 && IsDigits(s)
    ensures |s| > 1 ==> s[0] != '0'
    decreases n
  {
    if n < 10 then [DigitChar(n)] else NatToDecimal(n / 10) + [DigitChar(n % 10)]
  }

  /** `Integer.toString`: a minus sign for negative numbers, then the digits. */
  function IntToDecimal(n: int): (s: string)
    ensures |s| > 0
    ensures n < 0 <==> s[0] == '-'
  {
    if n < 0 then "-" + NatToDecimal(-n) else NatToDecimal(n)
  }

  /** The value of a string of decimal digits, as a reader of the description would take it. */
  function DigitsValue(s: string): nat
    requires IsDigits(s)
  {
    if |s| == 0 then 0 else DigitsValue(s[..|s| - 1]) * 10 + (s[|s| - 1] as int - '0' as int)
  }

  function ParseDecimal(s: string): int
    requires |s| > 0 && (s[0] == '-' || IsDigits(s)) && IsDigits(s[1..])
  {
    if s[0] == '-' then -(DigitsValue(s[1..]) as int) else DigitsValue(s)
  }

  lemma {:induction false} NatToDecimalRoundTrip(n: nat)
    ensures DigitsValue(NatToDecimal(n)) == n
    decreases n
  {
    if n >= 10 {
      var s := NatToDecimal(n);
      NatToDecimalRoundTrip(n / 10);
      assert s[..|s| - 1] == NatToDecimal(n / 10);
    }
  }

  /** The rendered number reads back as the number. */
  lemma IntToDecimalRoundTrip(n: int)
    ensures var s := IntToDecimal(n); |s| > 0 && (s[0] == '-' || IsDigits(s)) && IsDigits(s[1..])
    ensures ParseDecimal(IntToDecimal(n)) == n
  {
    var s := IntToDecimal(n);
    if n < 0 {
      assert s[1..] == NatToDecimal(-n);
      NatToDecimalRoundTrip(-n);
    } else {
      assert s == NatToDecimal(n);
      assert IsDigits(s[1..]) by {
        assert forall k :: 0 <= k < |s| - 1 ==> s[1..][k] == s[k + 1];
      }
      NatToDecimalRoundTrip(n);
    }
  }

  /**
   * `getRouteDescription`: the origin's name, a two-headed arrow for a
   * two-way route or a right arrow otherwise, the destination's name and
   * the distance in km in parentheses.
   */
  function RouteDescription(r: Route): (s: string)
    ensures var f := NameText(r.fromCityName);
      && |s| > |f| + 2
      && s[..|f|] == f
      && s[|f|..|f| + 3] == [' ', Arrow(r.isBidirectional), ' ']
    ensures (s[|NameText(r.fromCityName)| + 1] == '\U{2194}') <==> r.isBidirectional
    ensures var prefix := NameText(r.fromCityName) + [' ', Arrow(r.isBidirectional), ' '] + NameText(r.toCityName) + " (";
      && |s| == |prefix| + |IntToDecimal(r.distance)| + 4
      && s[..|prefix|] == prefix
      && s[|prefix|..|s| - 4] == IntToDecimal(r.distance)
      && s[|s| - 4..] == " km)"
  {
    var arrow := if r.isBidirectional then " \U{2194} " else " \U{2192} ";
    NameText(r.fromCityName) + arrow + NameText(r.toCityName) + " (" + IntToDecimal(r.distance) + " km)"
  }

  /** The distance can be read back from the description. */
  lemma DescriptionDistance(r: Route)
    ensures var s := RouteDescription(r); var d := |IntToDecimal(r.distance)|;
      && |s| >= d + 4
      && |s[|s| - 4 - d..|s| - 4]| > 0
      && (s[|s| - 4 - d] == '-' || IsDigits(s[|s| - 4 - d..|s| - 4]))
      && IsDigits(s[|s| - 3 - d..|s| - 4])
      && ParseDecimal(s[|s| - 4 - d..|s| - 4]) == r.distance
  {
    var s := RouteDescription(r);
    var d := |IntToDecimal(r.distance)|;
    assert s[|s| - 4 - d..|s| - 4] == IntToDecimal(r.distance);
    IntToDecimalRoundTrip(r.distance);
  }

  /** `equals`: two routes are the same route when their ids agree. */
  predicate SameRoute(a: Route, b: Route) {
    a.id == b.id
  }
}
