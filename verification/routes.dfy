/** Route planning on app/navigate/page.js: one routing request per travel profile, each either
    answered by the routing service or replaced by a straight-line estimate, and the summary of
    the active route. The service's answer and the square root are inputs to the model. */
module Routes {
  import opened JsSemantics
  import opened Data
  import Polyline

  /** A travel profile: service key, label, kg CO2 per km and the speed of the estimate. */
  datatype Profile = Profile(key: string, display: string, factor: real, fallbackSpeedKmh: real)

  /** What one routing request produced: the first route's length in metres, duration in
      seconds and encoded geometry; or failure of any kind (an HTTP error status, no route in
      the answer, a network error). */
  datatype ServiceResponse = Routed(distanceMeters: real, durationSeconds: real, encoded: string) | Failed

  /** One entry of the result list. The geometry is in units of 1e-5 degrees. */
  datatype RouteResult = RouteResult(
    profile: Profile, distanceKm: real, durationMin: real,
    geometry: seq<Polyline.Point>, emissions: real, fallback: bool)

  datatype Plan = Plan(routes: seq<RouteResult>, active: RouteResult)

  datatype Summary = Summary(distance: real, saved: real)

  const Profiles: seq<Profile> := [
    Profile("car", "Car", 0.21, 70.0),
    Profile("bike", "Bike", 0.0, 15.0),
    Profile("foot", "Walk", 0.0, 5.0)
  ]

  /** Kilometres per degree in the straight-line estimate. */
  const KmPerDegree: real := 111.0

  /** kg CO2 per km the summary assumes for the greener trip. */
  const SummaryGreenKgPerKm: real := 0.08

  /** The profiles' factors are those of the car baseline and the two zero-emission modes. */
  lemma ProfilesAgreeWithTables()
    ensures Profiles[0].factor == CarBaselineKgPerKm
    ensures Profiles[1].factor == CommuteEmissionFactors["bike"] == 0.0
    ensures Profiles[2].factor == CommuteEmissionFactors["walk"] == 0.0
    ensures forall i :: 0 <= i < |Profiles| ==> Profiles[i].fallbackSpeedKmh > 0.0
  {
  }

  /** `sqrt` returns the non-negative square root of `q`. */
  ghost predicate IsSqrtAt(sqrt: real -> real, q: real) {
    sqrt(q) >= 0.0 && sqrt(q) * sqrt(q) == q
  }

  /** Squared planar distance between two places, in square degrees. */
  function PlanarSquare(start: Coord, dest: Coord): real {
    (dest.lng - start.lng) * (dest.lng - start.lng) + (dest.lat - start.lat) * (dest.lat - start.lat)
  }

  /** The straight-line estimate: the planar distance in degrees times 111, not a great-circle
      distance. */
  function ApproxKm(start: Coord, dest: Coord, sqrt: real -> real): (km: real)
    ensures IsSqrtAt(sqrt, PlanarSquare(start, dest)) ==>
      km >= 0.0 && km * km == KmPerDegree * KmPerDegree * PlanarSquare(start, dest)
  {
    var root := sqrt(PlanarSquare(start, dest));
    ScaleSquare(root, PlanarSquare(start, dest));
    root * KmPerDegree
  }

  lemma ScaleSquare(root: real, q: real)
    ensures root >= 0.0 && root * root == q ==>
      root * KmPerDegree >= 0.0 && root * KmPerDegree * (root * KmPerDegree) == KmPerDegree * KmPerDegree * q
  {
    if root >= 0.0 && root * root == q {
      calc {
        root * KmPerDegree * (root * KmPerDegree);
        == (root * root) * (KmPerDegree * KmPerDegree);
        == q * (KmPerDegree * KmPerDegree);
      }
    }
  }

  /** The entry for one profile. An answer gives kilometres and minutes converted from metres and
      seconds and the decoded geometry; a failure gives the estimate, an empty geometry and the
      fallback flag. Either way emissions are distance times the profile's factor. */
  function RouteFor(p: Profile, response: ServiceResponse, approxKm: real): (r: RouteResult)
    requires p.fallbackSpeedKmh > 0.0
    ensures r.profile == p
    ensures r.emissions == r.distanceKm * p.factor
    ensures r.fallback <==> response.Failed?
    ensures response.Routed? ==>
      && r.distanceKm * 1000.0 == response.distanceMeters
      && r.durationMin * 60.0 == response.durationSeconds
      && r.geometry == Polyline.Decode(response.encoded)
      && (|r.geometry| == 0 <==> response.encoded == "")
    ensures response.Failed? ==>
      && r.distanceKm == approxKm && r.geometry == []
      && r.durationMin * p.fallbackSpeedKmh == approxKm * 60.0
  {
    match response
    case Routed(meters, seconds, encoded) =>
      var km := meters / 1000.0;
      RouteResult(p, km, seconds / 60.0, Polyline.Decode(encoded), km * p.factor, false)
    case Failed =>
      RouteResult(p, approxKm, approxKm / p.fallbackSpeedKmh * 60.0, [], approxKm * p.factor, true)
  }

  /** `findRoutes`: nothing without both endpoints; otherwise one entry per profile, in profile
      order, each built from that profile's own response, and the first entry active. */
  function FindRoutes(start: Option<Coord>, dest: Option<Coord>, responses: seq<ServiceResponse>,
                      sqrt: real -> real): (plan: Option<Plan>)
    requires |responses| == |Profiles|
    ensures plan.None? <==> start.None? || dest.None?
    ensures plan.Some? ==>
      && |plan.value.routes| == |Profiles|
      && plan.value.active == plan.value.routes[0]
      && forall i :: 0 <= i < |Profiles| ==>
           plan.value.routes[i] == RouteFor(Profiles[i], responses[i], ApproxKm(start.value, dest.value, sqrt))
  {
    ProfilesAgreeWithTables();
    if start.None? || dest.None? then None
    else
      var approxKm := ApproxKm(start.value, dest.value, sqrt);
      var routes := seq(|Profiles|, i requires 0 <= i < |Profiles| => RouteFor(Profiles[i], responses[i], approxKm));
      Some(Plan(routes, routes[0]))
  }

  /** One profile's failure never changes another profile's entry. */
  lemma ProfilesAreIsolated(start: Coord, dest: Coord, responses: seq<ServiceResponse>,
                            changed: seq<ServiceResponse>, sqrt: real -> real, i: nat)
    requires |responses| == |changed| == |Profiles| && i < |Profiles|
    requires responses[i] == changed[i]
    ensures FindRoutes(Some(start), Some(dest), responses, sqrt).value.routes[i]
         == FindRoutes(Some(start), Some(dest), changed, sqrt).value.routes[i]
  {
  }

  /** When every request fails, every profile reports the same estimated distance, and the slower
      profile the longer duration. */
  lemma AllFailedShareTheEstimate(start: Coord, dest: Coord, sqrt: real -> real)
    ensures var routes := FindRoutes(Some(start), Some(dest), [Failed, Failed, Failed], sqrt).value.routes;
      && (forall i :: 0 <= i < |routes| ==> routes[i].fallback && routes[i].distanceKm == ApproxKm(start, dest, sqrt))
      && (ApproxKm(start, dest, sqrt) >= 0.0 ==> routes[0].durationMin <= routes[1].durationMin <= routes[2].durationMin)
  {
    var km := ApproxKm(start, dest, sqrt);
    var routes := FindRoutes(Some(start), Some(dest), [Failed, Failed, Failed], sqrt).value.routes;
    assert routes[0].durationMin == km / 70.0 * 60.0;
    assert routes[1].durationMin == km / 15.0 * 60.0;
    assert routes[2].durationMin == km / 5.0 * 60.0;
  }

  /** The summary card: zeros without an active route; otherwise the active distance and the CO2
      saved by the greener trip, 0.13 kg per km and never negative. */
  function SummaryOf(active: Option<RouteResult>): (s: Summary)
    ensures active.None? ==> s == Summary(0.0, 0.0)
    ensures active.Some? ==> s.distance == active.value.distanceKm
    ensures s.saved >= 0.0
    ensures s.saved == (if s.distance >= 0.0 then 0.13 * s.distance else 0.0)
  {
    match active
    case None => Summary(0.0, 0.0)
    case Some(route) =>
      var distance := route.distanceKm;
      Summary(distance, Max(0.0, distance * CarBaselineKgPerKm - distance * SummaryGreenKgPerKm))
  }
}
