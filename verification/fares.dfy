/** `fareCards` of app/page.js: one card per row of `transportFactors`, priced for the current
    route distance, listed cheapest first. */
module Fares {
  import opened JsSemantics
  import opened Data
  import Sorting

  /** A card keeps the row's key and label, and its fare and emission as `toFixed(2)` values. */
  datatype Card = Card(key: string, display: string, fare: real, emission: real)

  /** The comparator reads the card's fare back with `parseFloat`. */
  function FareKey(c: Card): real {
    c.fare
  }

  /** The card of one transport row for a trip of `distance` km. */
  function CardFor(key: string, distance: real): (c: Card)
    requires key in TransportFactors
    ensures c.key == key && c.display == TransportFactors[key].display
  {
    var v := TransportFactors[key];
    Card(key, v.display, Fixed2(v.base + distance * v.farePerKm), Fixed2(distance * v.emission))
  }

  /** A card's fare is the row's base fare plus its per-km fare times the distance, and its
      emission the row's factor times the distance, each to the nearest cent. */
  lemma CardPrices(key: string, distance: real)
    requires key in TransportFactors
    ensures var v, c := TransportFactors[key], CardFor(key, distance);
      && v.base + distance * v.farePerKm - 0.005 <= c.fare <= v.base + distance * v.farePerKm + 0.005
      && distance * v.emission - 0.005 <= c.emission <= distance * v.emission + 0.005
      && WholeCents(c.fare) && WholeCents(c.emission)
  {
  }

  /** The cards in `Object.entries` order, before sorting. */
  function TableCards(distance: real): (cs: seq<Card>)
    ensures |cs| == |TransportOrder|
    ensures forall i :: 0 <= i < |cs| ==> cs[i] == CardFor(TransportOrder[i], distance)
  {
    seq(|TransportOrder|, i requires 0 <= i < |TransportOrder| => CardFor(TransportOrder[i], distance))
  }

  /** `fareCards` for a route of `routeDistance` km (`route.distance || 0`). */
  function FareCards(routeDistance: real): (cards: seq<Card>)
    ensures |cards| == |TransportOrder|
    ensures Sorting.SortedBy(cards, FareKey)
    ensures multiset(cards) == multiset(TableCards(routeDistance))
  {
    Sorting.SortByPermutes(TableCards(routeDistance), FareKey);
    Sorting.SortBySorted(TableCards(routeDistance), FareKey);
    Sorting.SortBy(TableCards(routeDistance), FareKey)
  }

  /** The sorted list holds exactly the priced rows of the table: every card is the card of a
      row, and every row has a card. */
  lemma CardsMatchTable(d: real)
    ensures forall c :: c in FareCards(d) ==> c.key in TransportFactors && c == CardFor(c.key, d)
    ensures forall k :: k in TransportFactors ==> exists c :: c in FareCards(d) && c.key == k
  {
    var cards := FareCards(d);
    var table := TableCards(d);
    forall c | c in cards
      ensures c.key in TransportFactors && c == CardFor(c.key, d)
    {
      assert c in multiset(cards);
      assert c in table;
    }
    OrdersEnumerateTables();
    forall k | k in TransportFactors
      ensures exists c :: c in cards && c.key == k
    {
      var i :| 0 <= i < |TransportOrder| && TransportOrder[i] == k;
      assert table[i] in multiset(table);
      assert table[i] in cards;
    }
  }

  /** For any non-negative distance the free modes come first, bike before walk as the table
      lists them, then bus, metro and ride-share. */
  lemma FareOrderForTrips(d: real)
    requires d >= 0.0
    ensures |FareCards(d)| == 5
    ensures FareCards(d)[0].key == "bike" && FareCards(d)[1].key == "walk"
    ensures FareCards(d)[2].key == "bus" && FareCards(d)[3].key == "metro" && FareCards(d)[4].key == "rideshare"
  {
    FareCardsInOrder(d);
  }

  lemma FareCardsInOrder(d: real)
    requires d >= 0.0
    ensures FareCards(d)
         == [CardFor("bike", d), CardFor("walk", d), CardFor("bus", d), CardFor("metro", d), CardFor("rideshare", d)]
  {
    TableCardsInOrder(d);
    TableFares(d);
    SortTableOrder(CardFor("bus", d), CardFor("metro", d), CardFor("rideshare", d), CardFor("bike", d), CardFor("walk", d));
  }

  lemma TableCardsInOrder(d: real)
    ensures TableCards(d)
         == [CardFor("bus", d), CardFor("metro", d), CardFor("rideshare", d), CardFor("bike", d), CardFor("walk", d)]
  {
  }

  lemma TableFares(d: real)
    requires d >= 0.0
    ensures CardFor("bike", d).fare == 0.0 && CardFor("walk", d).fare == 0.0
    ensures 0.0 < CardFor("bus", d).fare < CardFor("metro", d).fare < CardFor("rideshare", d).fare
  {
    Fixed2StrictlyMonotone(0.0, 0.5 + d * 0.18);
    Fixed2StrictlyMonotone(0.5 + d * 0.18, 0.8 + d * 0.22);
    Fixed2StrictlyMonotone(0.8 + d * 0.22, 1.5 + d * 0.7);
  }

  lemma SortRising(a: Card, b: Card, c: Card)
    requires a.fare < b.fare < c.fare
    ensures Sorting.SortBy([a, b, c], FareKey) == [a, b, c]
  {
    var k := FareKey;
    Sorting.SortBySnoc([], a, k);
    assert [] + [a] == [a];
    Sorting.SortBySnoc([a], b, k);
    Sorting.InsertAppends([a], b, k);
    assert [a] + [b] == [a, b];
    Sorting.SortBySnoc([a, b], c, k);
    Sorting.InsertAppends([a, b], c, k);
    assert [a, b] + [c] == [a, b, c];
  }

  lemma SortFreeFirst(bus: Card, metro: Card, ride: Card, bike: Card)
    requires bike.fare == 0.0 && 0.0 < bus.fare < metro.fare < ride.fare
    ensures Sorting.SortBy([bus, metro, ride, bike], FareKey) == [bike, bus, metro, ride]
  {
    var s3 := [bus, metro, ride];
    Sorting.SortBySnoc(s3, bike, FareKey);
    SortRising(bus, metro, ride);
    Sorting.InsertPrepends(s3, bike, FareKey);
    assert s3 + [bike] == [bus, metro, ride, bike];
    assert [bike] + s3 == [bike, bus, metro, ride];
  }

  lemma InsertSecondFree(bus: Card, metro: Card, ride: Card, bike: Card, walk: Card)
    requires bike.fare == 0.0 && walk.fare == 0.0 && 0.0 < bus.fare
    ensures Sorting.Insert([bike, bus, metro, ride], walk, FareKey) == [bike, walk, bus, metro, ride]
  {
    var s3 := [bus, metro, ride];
    Sorting.InsertSkipsHead([bike, bus, metro, ride], walk, FareKey);
    assert [bike, bus, metro, ride][1..] == s3;
    Sorting.InsertPrepends(s3, walk, FareKey);
    assert [bike] + ([walk] + s3) == [bike, walk, bus, metro, ride];
  }

  /** Sorting the table's cards when the free modes cost nothing and the others rise in fare. */
  lemma SortTableOrder(bus: Card, metro: Card, ride: Card, bike: Card, walk: Card)
    requires bike.fare == 0.0 && walk.fare == 0.0 && 0.0 < bus.fare < metro.fare < ride.fare
    ensures Sorting.SortBy([bus, metro, ride, bike, walk], FareKey) == [bike, walk, bus, metro, ride]
  {
    var s4 := [bus, metro, ride, bike];
    Sorting.SortBySnoc(s4, walk, FareKey);
    SortFreeFirst(bus, metro, ride, bike);
    InsertSecondFree(bus, metro, ride, bike, walk);
    assert s4 + [walk] == [bus, metro, ride, bike, walk];
  }
}
