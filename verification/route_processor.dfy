/** `processRoute` of the browser-driven script: for one route, look up the
    outbound price on each departure date and, only when that succeeded, the
    inbound price on the return date; a pair yields a priced round trip only
    when both prices are usable. The page lookup itself is an oracle. */
module RouteProcessor {
  import opened Wrappers
  import opened Calendar
  import opened DatePairs

  datatype Route = Route(from: string, to: string)

  /** One leg looked up: origin, destination and travel date. */
  datatype Leg = Leg(from: string, to: string, date: Date)

  /** A priced round trip. Amounts are in cents. */
  datatype Itinerary = Itinerary(
    from: string, to: string, depart: Date, ret: Date,
    priceTo: int, priceBack: int, total: int)

  /** `findFlightPrice` seen from outside: a price in cents, or `None` for the
      `null` it returns on any failure (and for a price text that parses to NaN). */
  type PriceLookup = Leg -> Option<int>

  /** JavaScript truthiness of a looked-up price: present and not zero. */
  predicate Usable(p: Option<int>) {
    p.Some? && p.value != 0
  }

  function Outbound(route: Route, pair: DatePair): Leg {
    Leg(route.from, route.to, pair.depart)
  }

  function Inbound(route: Route, pair: DatePair): Leg {
    Leg(route.to, route.from, pair.ret)
  }

  /** `r` is the round trip for `pair` on `route` that the lookup prices:
      route and dates copied, both prices usable, and the total their sum. */
  predicate PricedBy(route: Route, pair: DatePair, lookup: PriceLookup, r: Itinerary) {
    && r.from == route.from && r.to == route.to
    && r.depart == pair.depart && r.ret == pair.ret
    && lookup(Outbound(route, pair)) == Some(r.priceTo) && r.priceTo != 0
    && lookup(Inbound(route, pair)) == Some(r.priceBack) && r.priceBack != 0
    && r.total == r.priceTo + r.priceBack
  }

  /** What one iteration of the loop does: the legs it looks up, in order, and
      the record it pushes, if any. */
  datatype Step = Step(lookups: seq<Leg>, record: Option<Itinerary>)

  function ProcessPair(route: Route, pair: DatePair, lookup: PriceLookup): (s: Step)
    ensures s.lookups == if Usable(lookup(Outbound(route, pair)))
                         then [Outbound(route, pair), Inbound(route, pair)]
                         else [Outbound(route, pair)]
    ensures s.record.Some? <==> Usable(lookup(Outbound(route, pair))) && Usable(lookup(Inbound(route, pair)))
    ensures s.record.Some? ==> PricedBy(route, pair, lookup, s.record.value)
  {
    var priceTo := lookup(Outbound(route, pair));
    if !Usable(priceTo) then Step([Outbound(route, pair)], None)
    else
      var priceBack := lookup(Inbound(route, pair));
      var legs := [Outbound(route, pair), Inbound(route, pair)];
      if !Usable(priceBack) then Step(legs, None)
      else Step(legs, Some(Itinerary(route.from, route.to, pair.depart, pair.ret,
                                     priceTo.value, priceBack.value, priceTo.value + priceBack.value)))
  }

  /** The priced round trip a pair can give is unique. */
  lemma PricedByUnique(route: Route, pair: DatePair, lookup: PriceLookup, r: Itinerary, r': Itinerary)
    requires PricedBy(route, pair, lookup, r) && PricedBy(route, pair, lookup, r')
    ensures r == r'
  {
  }

  function Records(route: Route, pairs: seq<DatePair>, lookup: PriceLookup): seq<Option<Itinerary>> {
    seq(|pairs|, i requires 0 <= i < |pairs| => ProcessPair(route, pairs[i], lookup).record)
  }

  function LegLists(route: Route, pairs: seq<DatePair>, lookup: PriceLookup): seq<seq<Leg>> {
    seq(|pairs|, i requires 0 <= i < |pairs| => ProcessPair(route, pairs[i], lookup).lookups)
  }

  /** The records of a route, in date-pair order. */
  function RouteResults(route: Route, pairs: seq<DatePair>, lookup: PriceLookup): seq<Itinerary> {
    Somes(Records(route, pairs, lookup))
  }

  /** The number of pairs whose outbound price is usable (and so get an inbound lookup). */
  function OutboundHits(route: Route, pairs: seq<DatePair>, lookup: PriceLookup): nat {
    if pairs == [] then 0
    else OutboundHits(route, pairs[..|pairs| - 1], lookup)
         + (if Usable(lookup(Outbound(route, pairs[|pairs| - 1]))) then 1 else 0)
  }

  /** `processRoute(page, route, datePairs)`. */
  method ProcessRoute(route: Route, pairs: seq<DatePair>, lookup: PriceLookup)
    returns (results: seq<Itinerary>, legs: seq<Leg>)
    ensures results == RouteResults(route, pairs, lookup)
    ensures legs == Flatten(LegLists(route, pairs, lookup))
    ensures |legs| == |pairs| + OutboundHits(route, pairs, lookup)
  {
    results := [];
    legs := [];
    ghost var recs := Records(route, pairs, lookup);
    ghost var lists := LegLists(route, pairs, lookup);
    for i := 0 to |pairs|
      invariant results == Somes(recs[..i])
      invariant legs == Flatten(lists[..i])
    {
      SomesStep(recs, i);
      FlattenStep(lists, i);
      ghost var step := ProcessPair(route, pairs[i], lookup);
      assert recs[i] == step.record && lists[i] == step.lookups;
      var pair := pairs[i];
      var priceTo := lookup(Outbound(route, pair));
      legs := legs + [Outbound(route, pair)];
      if !Usable(priceTo) {
        assert step == Step([Outbound(route, pair)], None);
        continue;
      }
      var priceBack := lookup(Inbound(route, pair));
      legs := legs + [Inbound(route, pair)];
      if !Usable(priceBack) {
        assert step == Step([Outbound(route, pair), Inbound(route, pair)], None);
        continue;
      }
      var r := Itinerary(route.from, route.to, pair.depart, pair.ret,
                         priceTo.value, priceBack.value, priceTo.value + priceBack.value);
      assert step == Step([Outbound(route, pair), Inbound(route, pair)], Some(r));
      results := results + [r];
    }
    assert recs[..|pairs|] == recs;
    assert lists[..|pairs|] == lists;
    LegCount(route, pairs, lookup);
  }

  /** Each pair costs one lookup, plus one more when its outbound price is
      usable. */
  lemma {:induction false} LegCount(route: Route, pairs: seq<DatePair>, lookup: PriceLookup)
    ensures |Flatten(LegLists(route, pairs, lookup))| == |pairs| + OutboundHits(route, pairs, lookup)
    decreases |pairs|
  {
    if pairs != [] {
      var n := |pairs|;
      var lists := LegLists(route, pairs, lookup);
      assert lists[..n - 1] == LegLists(route, pairs[..n - 1], lookup);
      LegCount(route, pairs[..n - 1], lookup);
      FlattenStep(lists, n - 1);
      assert lists[..n] == lists;
    }
  }

  /** Every record comes from one of the pairs and is the one the lookup prices. */
  lemma RouteResultsSound(route: Route, pairs: seq<DatePair>, lookup: PriceLookup, r: Itinerary)
    requires r in RouteResults(route, pairs, lookup)
    ensures DatePair(r.depart, r.ret) in pairs
    ensures PricedBy(route, DatePair(r.depart, r.ret), lookup, r)
  {
    var recs := Records(route, pairs, lookup);
    SomesMember(recs, r);
    var i :| 0 <= i < |recs| && recs[i] == Some(r);
    assert DatePair(r.depart, r.ret) == pairs[i];
  }

  /** Every pair whose two prices are usable gives a record. */
  lemma {:induction false} RouteResultsComplete(route: Route, pairs: seq<DatePair>, lookup: PriceLookup, i: int)
    requires 0 <= i < |pairs|
    requires Usable(lookup(Outbound(route, pairs[i]))) && Usable(lookup(Inbound(route, pairs[i])))
    ensures ProcessPair(route, pairs[i], lookup).record.value in RouteResults(route, pairs, lookup)
    decreases |pairs|
  {
    var n := |pairs|;
    var recs := Records(route, pairs, lookup);
    assert recs[..n - 1] == Records(route, pairs[..n - 1], lookup);
    if i < n - 1 {
      RouteResultsComplete(route, pairs[..n - 1], lookup, i);
    }
  }

  /** With strictly increasing departures (as the generator produces), the
      records have strictly increasing departures too: at most one record per
      pair, in date-pair order. */
  lemma {:induction false} RouteResultsOrdered(route: Route, pairs: seq<DatePair>, lookup: PriceLookup)
    requires forall i, j :: 0 <= i < j < |pairs| ==> Before(pairs[i].depart, pairs[j].depart)
    ensures var rs := RouteResults(route, pairs, lookup);
            forall i, j :: 0 <= i < j < |rs| ==> Before(rs[i].depart, rs[j].depart)
    decreases |pairs|
  {
    if pairs != [] {
      var n := |pairs|;
      var init := pairs[..n - 1];
      var recs := Records(route, pairs, lookup);
      assert recs[..n - 1] == Records(route, init, lookup);
      RouteResultsOrdered(route, init, lookup);
      var head := RouteResults(route, init, lookup);
      forall r | r in head
        ensures Before(r.depart, pairs[n - 1].depart)
      {
        RouteResultsSound(route, init, lookup, r);
        var k :| 0 <= k < |init| && init[k] == DatePair(r.depart, r.ret);
      }
    }
  }

  /** All results: each route's records, route after route. */
  function AllResults(routes: seq<Route>, pairs: seq<DatePair>, lookup: PriceLookup): seq<Itinerary> {
    Flatten(seq(|routes|, i requires 0 <= i < |routes| => RouteResults(routes[i], pairs, lookup)))
  }

  /** Every collected record belongs to one of the configured routes. */
  lemma AllResultsSound(routes: seq<Route>, pairs: seq<DatePair>, lookup: PriceLookup, r: Itinerary)
    requires r in AllResults(routes, pairs, lookup)
    ensures Route(r.from, r.to) in routes
    ensures DatePair(r.depart, r.ret) in pairs
    ensures r.total == r.priceTo + r.priceBack
  {
    var parts := seq(|routes|, i requires 0 <= i < |routes| => RouteResults(routes[i], pairs, lookup));
    FlattenMember(parts, r);
    var i :| 0 <= i < |parts| && r in parts[i];
    RouteResultsSound(routes[i], pairs, lookup, r);
  }
}
