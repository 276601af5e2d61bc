/** `calcShipment` of app/page.js: the CO2 of a shipment and a greener mode to suggest. */
module Shipment {
  import opened JsSemantics
  import opened Data
  import Sorting

  datatype Shipment = Shipment(weight: real, distance: real, mode: string)

  /** One `[mode, factor]` pair of `Object.entries(shipmentFactors)`. */
  type Entry = (string, real)

  /** `"Greener: <mode>"` or `"Already optimal"`. */
  datatype Suggestion = Greener(mode: string) | AlreadyOptimal

  datatype ShipResult = ShipResult(emission: real, alt: Suggestion)

  /** Factor used for a mode the table does not list. */
  const UnknownShipmentFactor: real := 0.1

  /** `shipmentFactors[mode] || 0.1`: a missing entry and, because 0 is falsy, a zero entry
      both fall back to 0.1. No listed factor is zero, so a listed mode keeps its own. */
  function ShipFactor(mode: string): (f: real)
    ensures mode in ShipmentFactors ==> f == ShipmentFactors[mode]
    ensures mode !in ShipmentFactors ==> f == UnknownShipmentFactor
  {
    if mode in ShipmentFactors && ShipmentFactors[mode] != 0.0 then ShipmentFactors[mode]
    else UnknownShipmentFactor
  }

  /** `Object.entries(shipmentFactors)`. */
  function Entries(): (es: seq<Entry>)
    ensures forall e :: e in es <==> e.0 in ShipmentFactors && e.1 == ShipmentFactors[e.0]
  {
    var es := seq(|ShipmentOrder|, i requires 0 <= i < |ShipmentOrder| => (ShipmentOrder[i], ShipmentFactors[ShipmentOrder[i]]));
    assert es == [("truck", 0.12), ("train", 0.025), ("ship", 0.015), ("air", 0.6)];
    es
  }

  function FactorOf(e: Entry): real {
    e.1
  }

  /** The entries sorted by factor, then the first one strictly below `factor`. Since the list
      is sorted, that is the greenest mode whenever the greenest mode beats `factor`. */
  function Alternative(factor: real): (alt: Suggestion)
    ensures alt == AlreadyOptimal <==> forall k :: k in ShipmentFactors ==> factor <= ShipmentFactors[k]
    ensures alt.Greener? ==>
      && alt.mode in ShipmentFactors
      && ShipmentFactors[alt.mode] < factor
      && forall k :: k in ShipmentFactors ==> ShipmentFactors[alt.mode] <= ShipmentFactors[k]
  {
    var sorted := Sorting.SortBy(Entries(), FactorOf);
    var below := (e: Entry) => e.1 < factor;
    SortedEntries(sorted);
    FirstBelowIsGreenest(sorted, factor, below);
    match Sorting.FindFirst(sorted, below)
    case Some(i) => Greener(sorted[i].0)
    case None => AlreadyOptimal
  }

  /** The sorted entries are the table's entries, least factor first. */
  lemma SortedEntries(sorted: seq<Entry>)
    requires sorted == Sorting.SortBy(Entries(), FactorOf)
    ensures Sorting.SortedBy(sorted, FactorOf)
    ensures forall e :: e in sorted <==> e.0 in ShipmentFactors && e.1 == ShipmentFactors[e.0]
    ensures |sorted| > 0
  {
    Sorting.SortBySorted(Entries(), FactorOf);
    Sorting.SortByPermutes(Entries(), FactorOf);
    forall e
      ensures e in sorted <==> e in Entries()
    {
      assert e in sorted <==> e in multiset(sorted);
    }
  }

  /** On a list sorted by factor, the first entry below `factor` is the head when the head is
      below it, and there is none otherwise. */
  lemma FirstBelowIsGreenest(sorted: seq<Entry>, factor: real, below: Entry -> bool)
    requires Sorting.SortedBy(sorted, FactorOf) && |sorted| > 0
    requires forall e :: e in sorted <==> e.0 in ShipmentFactors && e.1 == ShipmentFactors[e.0]
    requires forall e :: below(e) == (e.1 < factor)
    ensures Sorting.FindFirst(sorted, below).None? <==> forall k :: k in ShipmentFactors ==> factor <= ShipmentFactors[k]
    ensures Sorting.FindFirst(sorted, below).Some? ==>
      var e := sorted[Sorting.FindFirst(sorted, below).value];
      && e.0 in ShipmentFactors && ShipmentFactors[e.0] == e.1 && e.1 < factor
      && forall k :: k in ShipmentFactors ==> e.1 <= ShipmentFactors[k]
  {
    Sorting.HeadIsMinimum(sorted, sorted, FactorOf);
    forall k | k in ShipmentFactors
      ensures sorted[0].1 <= ShipmentFactors[k]
    {
      assert (k, ShipmentFactors[k]) in sorted;
    }
    var found := Sorting.FindFirst(sorted, below);
    if found.None? {
      assert !below(sorted[0]);
    }
    if forall k :: k in ShipmentFactors ==> factor <= ShipmentFactors[k] {
      forall j | 0 <= j < |sorted|
        ensures !below(sorted[j])
      {
        assert sorted[j] in sorted;
      }
    }
  }

  /** `calcShipment(s)`: emission in kg is weight x distance x factor / 1000, rounded to cents. */
  function CalcShipment(s: Shipment): (r: ShipResult)
    ensures var exact := s.weight * s.distance * ShipFactor(s.mode) / 1000.0;
      exact - 0.005 <= r.emission <= exact + 0.005
    ensures WholeCents(r.emission)
    ensures r.alt == Alternative(ShipFactor(s.mode))
  {
    var factor := ShipFactor(s.mode);
    ShipResult(Fixed2(s.weight * s.distance * factor / 1000.0), Alternative(factor))
  }

  /** Ship is the greenest listed mode: every other mode, listed or not, is pointed to it, and
      shipping by sea is already optimal. */
  lemma ShipIsSuggested(s: Shipment)
    ensures s.mode == "ship" ==> CalcShipment(s).alt == AlreadyOptimal
    ensures s.mode != "ship" ==> CalcShipment(s).alt == Greener("ship")
  {
    ShipIsTheUniqueGreenestShipment();
    var alt := CalcShipment(s).alt;
    if s.mode != "ship" {
      assert ShipmentFactors["ship"] < ShipFactor(s.mode);
      assert alt.Greener?;
      assert ShipmentFactors[alt.mode] <= ShipmentFactors["ship"];
    }
  }
}
