/** `optimizeRoute` of app/page.js: resolve two place names against the destination table,
    then choose between the direct leg and the best relay through one of two hubs. The distance
    between two places is a parameter; the program uses the haversine formula. */
module Optimizer {
  import opened JsSemantics
  import opened Data
  import Sorting

  /** A relay hub: a place plus the label shown for it. */
  datatype Hub = Hub(at: Coord, display: string)

  /** A way from start to destination: its length, the places it passes, and the hub if any. */
  datatype Candidate = Candidate(distance: real, path: seq<Coord>, via: Option<Hub>)

  /** The stored route: distance and saved CO2 as shown with two decimals. */
  datatype OptimizedRoute = OptimizedRoute(distance: real, savedKg: real, path: seq<Coord>, via: Option<Hub>)

  const DefaultStart: string := "Transit Hub"
  const DefaultDestination: string := "Eco Park"

  /** kg CO2 per km the summary line counts as saved against a car. */
  const SavedKgPerKm: real := 0.12

  /** City Center relabelled "City Hub", then Transit Hub. */
  const RelayHubs: seq<Hub> := [
    Hub(Destinations["City Center"], "City Hub"),
    Hub(Destinations["Transit Hub"], "Transit Hub")
  ]

  /** `destinations[name] || destinations[fallback]`: a known name resolves to its place, any
      other name to the fallback's place. */
  function ResolvePlace(name: string, fallback: string): (c: Coord)
    requires fallback in Destinations
    ensures c in Destinations.Values
    ensures name in Destinations ==> c == Destinations[name]
    ensures name !in Destinations ==> c == Destinations[fallback]
  {
    if name in Destinations then Destinations[name] else Destinations[fallback]
  }

  function ViaDistance(start: Coord, dest: Coord, h: Hub, dist: (Coord, Coord) -> real): real {
    dist(start, h.at) + dist(h.at, dest)
  }

  function ViaCandidate(start: Coord, dest: Coord, h: Hub, dist: (Coord, Coord) -> real): Candidate {
    Candidate(ViaDistance(start, dest, h, dist), [start, h.at, dest], Some(h))
  }

  /** `hubs.map(...)`: one relay candidate per hub, in hub order. */
  function Candidates(start: Coord, dest: Coord, hubs: seq<Hub>, dist: (Coord, Coord) -> real): (cs: seq<Candidate>)
    ensures |cs| == |hubs|
    ensures forall i :: 0 <= i < |hubs| ==> cs[i] == ViaCandidate(start, dest, hubs[i], dist)
  {
    seq(|hubs|, i requires 0 <= i < |hubs| => ViaCandidate(start, dest, hubs[i], dist))
  }

  function CandidateDistance(c: Candidate): real {
    c.distance
  }

  /** `.sort((a, b) => a.distance - b.distance)[0]`: the relay through the first hub, in list
      order, whose relay distance is least. */
  function BestVia(start: Coord, dest: Coord, hubs: seq<Hub>, dist: (Coord, Coord) -> real): (c: Candidate)
    requires |hubs| > 0
    ensures var k := Sorting.FirstMinIndex(Candidates(start, dest, hubs, dist), CandidateDistance);
      && k < |hubs|
      && c == ViaCandidate(start, dest, hubs[k], dist)
      && (forall j :: 0 <= j < |hubs| ==> c.distance <= ViaDistance(start, dest, hubs[j], dist))
      && (forall j :: 0 <= j < k ==> c.distance < ViaDistance(start, dest, hubs[j], dist))
  {
    var cs := Candidates(start, dest, hubs, dist);
    Sorting.SortHeadIsFirstMin(cs, CandidateDistance);
    var k := Sorting.FirstMinIndex(cs, CandidateDistance);
    assert forall j :: 0 <= j < |hubs| ==> CandidateDistance(cs[j]) == ViaDistance(start, dest, hubs[j], dist);
    Sorting.SortBy(cs, CandidateDistance)[0]
  }

  /** The direct leg unless some relay is strictly shorter; a tie keeps the direct leg. */
  function BestRoute(start: Coord, dest: Coord, hubs: seq<Hub>, dist: (Coord, Coord) -> real): (r: Candidate)
    requires |hubs| > 0
    ensures r.via.None? <==> dist(start, dest) <= BestVia(start, dest, hubs, dist).distance
    ensures r.via.None? ==> r.path == [start, dest] && r.distance == dist(start, dest)
    ensures r.via.Some? ==> r == BestVia(start, dest, hubs, dist) && r.distance < dist(start, dest)
    ensures r.via.Some? ==> r.via.value in hubs && r.path == [start, r.via.value.at, dest]
    ensures r.distance <= dist(start, dest)
    ensures forall h :: h in hubs ==> r.distance <= ViaDistance(start, dest, h, dist)
  {
    var direct := Candidate(dist(start, dest), [start, dest], None);
    var viaHub := BestVia(start, dest, hubs, dist);
    if direct.distance <= viaHub.distance then direct else viaHub
  }

  /** `optimizeRoute`: resolve the names with their fallbacks and store the best route, its
      distance and the saving shown to two decimals. */
  function OptimizeRoute(startName: string, destName: string, dist: (Coord, Coord) -> real): (r: OptimizedRoute)
    ensures var best := BestRoute(ResolvePlace(startName, DefaultStart), ResolvePlace(destName, DefaultDestination), RelayHubs, dist);
      && r.path == best.path && r.via == best.via
      && best.distance - 0.005 <= r.distance <= best.distance + 0.005
      && best.distance * SavedKgPerKm - 0.005 <= r.savedKg <= best.distance * SavedKgPerKm + 0.005
    ensures WholeCents(r.distance) && WholeCents(r.savedKg)
    ensures r.path[0] == ResolvePlace(startName, DefaultStart)
    ensures r.path[|r.path| - 1] == ResolvePlace(destName, DefaultDestination)
    ensures |r.path| == 2 <==> r.via.None?
  {
    HubAndFallbackNamesPresent();
    var start := ResolvePlace(startName, DefaultStart);
    var dest := ResolvePlace(destName, DefaultDestination);
    var best := BestRoute(start, dest, RelayHubs, dist);
    OptimizedRoute(Fixed2(best.distance), Fixed2(best.distance * SavedKgPerKm), best.path, best.via)
  }

  /** A relay that is exactly as long as the direct leg loses: colinear hubs never add a hop. */
  lemma TieKeepsDirect(start: Coord, dest: Coord, hubs: seq<Hub>, dist: (Coord, Coord) -> real)
    requires |hubs| > 0
    requires forall h :: h in hubs ==> dist(start, dest) <= ViaDistance(start, dest, h, dist)
    ensures BestRoute(start, dest, hubs, dist).via.None?
  {
    var c := BestVia(start, dest, hubs, dist);
    assert c.via.value in hubs;
  }

  /** With two hubs at equal relay distance, the one listed first is chosen. */
  lemma EqualRelaysPreferEarlierHub(start: Coord, dest: Coord, dist: (Coord, Coord) -> real)
    requires ViaDistance(start, dest, RelayHubs[0], dist) == ViaDistance(start, dest, RelayHubs[1], dist)
    ensures BestVia(start, dest, RelayHubs, dist).via == Some(RelayHubs[0])
  {
  }

  /** Unknown names plan the default trip from Transit Hub to Eco Park. */
  lemma UnknownNamesUseDefaults(startName: string, destName: string, dist: (Coord, Coord) -> real)
    requires startName !in Destinations && destName !in Destinations
    ensures OptimizeRoute(startName, destName, dist) == OptimizeRoute(DefaultStart, DefaultDestination, dist)
  {
  }
}
