/** The static tables of app/data.js. JavaScript object literals become Dafny maps; where the
    program iterates a table with `Object.entries`, the key order of the literal is kept as a
    separate sequence of keys. */
module Data {

  /** A point on the globe in degrees. */
  datatype Coord = Coord(lat: real, lng: real)

  /** One row of `transportFactors`: kg CO2 per km, fare per km, base fare and display label (`label`). */
  datatype Transport = Transport(emission: real, farePerKm: real, base: real, display: string)

  /** Car emissions per km, the baseline every "saved" figure is measured against. */
  const CarBaselineKgPerKm: real := 0.21

  const Destinations: map<string, Coord> := map[
    "Eco Park" := Coord(37.7749, -122.4194),
    "City Center" := Coord(37.784, -122.409),
    "University" := Coord(37.8715, -122.273),
    "River Walk" := Coord(37.768, -122.45),
    "Transit Hub" := Coord(37.8079, -122.4177),
    "Innovation Lab" := Coord(37.789, -122.391)
  ]

  const TransportFactors: map<string, Transport> := map[
    "bus" := Transport(0.08, 0.18, 0.5, "Bus"),
    "metro" := Transport(0.05, 0.22, 0.8, "Metro"),
    "rideshare" := Transport(0.18, 0.7, 1.5, "Ride-share"),
    "bike" := Transport(0.0, 0.0, 0.0, "Bike"),
    "walk" := Transport(0.0, 0.0, 0.0, "Walk")
  ]

  /** `Object.entries(transportFactors)` order. */
  const TransportOrder: seq<string> := ["bus", "metro", "rideshare", "bike", "walk"]

  const CommuteEmissionFactors: map<string, real> := map[
    "bus" := 0.08,
    "metro" := 0.05,
    "bike" := 0.0,
    "walk" := 0.0,
    "rideshare" := 0.18
  ]

  const ShipmentFactors: map<string, real> := map[
    "truck" := 0.12,
    "train" := 0.025,
    "ship" := 0.015,
    "air" := 0.6
  ]

  /** `Object.entries(shipmentFactors)` order. */
  const ShipmentOrder: seq<string> := ["truck", "train", "ship", "air"]

  ghost predicate ValidCoord(c: Coord) {
    -90.0 <= c.lat <= 90.0 && -180.0 <= c.lng <= 180.0
  }

  /** An iteration order lists every key of its table exactly once. */
  ghost predicate EnumeratesKeys<V>(order: seq<string>, m: map<string, V>) {
    && (forall i :: 0 <= i < |order| ==> order[i] in m)
    && (forall k :: k in m ==> k in order)
    && (forall i, j :: 0 <= i < j < |order| ==> order[i] != order[j])
  }

  lemma HubAndFallbackNamesPresent()
    ensures "Transit Hub" in Destinations && "Eco Park" in Destinations && "City Center" in Destinations
  {
  }

  lemma DestinationsAreValidCoords()
    ensures forall name :: name in Destinations ==> ValidCoord(Destinations[name])
  {
  }

  lemma CommuteFactorsMatchTransportTable()
    ensures forall k :: k in CommuteEmissionFactors && k in TransportFactors ==>
      CommuteEmissionFactors[k] == TransportFactors[k].emission
    ensures CommuteEmissionFactors.Keys == TransportFactors.Keys
  {
  }

  lemma CommuteFactorsBelowCarBaseline()
    ensures forall k :: k in CommuteEmissionFactors ==>
      0.0 <= CommuteEmissionFactors[k] < CarBaselineKgPerKm
  {
  }

  lemma ActiveModesAreFree()
    ensures TransportFactors["bike"] == Transport(0.0, 0.0, 0.0, "Bike")
    ensures TransportFactors["walk"] == Transport(0.0, 0.0, 0.0, "Walk")
  {
  }

  lemma ShipIsTheUniqueGreenestShipment()
    ensures forall k :: k in ShipmentFactors ==> ShipmentFactors[k] > 0.0
    ensures "ship" in ShipmentFactors
    ensures forall k :: k in ShipmentFactors && k != "ship" ==> ShipmentFactors["ship"] < ShipmentFactors[k]
  {
  }

  lemma OrdersEnumerateTables()
    ensures EnumeratesKeys(TransportOrder, TransportFactors)
    ensures EnumeratesKeys(ShipmentOrder, ShipmentFactors)
  {
  }
}
