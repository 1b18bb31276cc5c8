/**
 * The route helpers of routing.py: swapping coordinate pairs, the sea-route
 * query and its conversion to nautical miles, the ETA, and the
 * least-recently-used memo in front of the sea-route library.
 *
 * The sea-route library itself is a parameter: a function from the query
 * (lon1, lat1, lon2, lat2, units) to the route's vertices and length.
 */
module Routing {
  import opened Wrappers

  /** A coordinate pair; routes are lists of (lon, lat) pairs. */
  type Pair = (real, real)

  /** `list_to_latlon`: each (lon, lat) pair turned into (lat, lon). */
  function ListToLatLon(ll: seq<Pair>): (r: seq<Pair>)
    ensures |r| == |ll|
    ensures forall i :: 0 <= i < |ll| ==> r[i].0 == ll[i].1 && r[i].1 == ll[i].0
  {
    seq(|ll|, i requires 0 <= i < |ll| => (ll[i].1, ll[i].0))
  }

  /** Swapping twice gives the original list back. */
  lemma ListToLatLonInvolution(ll: seq<Pair>)
    ensures ListToLatLon(ListToLatLon(ll)) == ll
  {
    var r := ListToLatLon(ListToLatLon(ll));
    assert forall i :: 0 <= i < |ll| ==> r[i] == ll[i];
  }

  /** The query the sea-route library answers: (lon1, lat1, lon2, lat2, units). */
  datatype RouteKey = RouteKey(lon1: real, lat1: real, lon2: real, lat2: real, units: string)

  /** What the library returns: the route's (lon, lat) vertices and its length in the requested units. */
  datatype SeaRoute = SeaRoute(coords: seq<Pair>, length: real)

  /** The sea-route library. */
  type Searoute = RouteKey -> SeaRoute

  /** Nautical miles per kilometre. */
  const NmPerKm: real := 0.539957

  function KmToNm(km: real): (nm: real)
    ensures nm / NmPerKm == km
  {
    km * NmPerKm
  }

  function NmToKm(nm: real): (km: real)
    ensures KmToNm(km) == nm
  {
    nm / NmPerKm
  }

  /** Converting to nautical miles and back gives the kilometres again, and the other way round. */
  lemma KmNmRoundTrip(km: real, nm: real)
    ensures NmToKm(KmToNm(km)) == km
    ensures KmToNm(NmToKm(nm)) == nm
  {
  }

  /** The answer of `compute_route`: vertices, kilometres, nautical miles. */
  datatype Leg = Leg(coords: seq<Pair>, km: real, nm: real)

  /** The query `compute_route` sends for a trip from A to B: longitude first, in kilometres. */
  function QueryFor(aLat: real, aLon: real, bLat: real, bLon: real): (k: RouteKey)
    ensures k.lon1 == aLon && k.lat1 == aLat && k.lon2 == bLon && k.lat2 == bLat && k.units == "km"
  {
    RouteKey(aLon, aLat, bLon, bLat, "km")
  }

  /** `compute_route`: the library's route from A to B with its length in km and in NM. */
  function ComputeRoute(route: Searoute, aLat: real, aLon: real, bLat: real, bLon: real): (leg: Leg)
    ensures leg.coords == route(QueryFor(aLat, aLon, bLat, bLon)).coords
    ensures leg.km == route(QueryFor(aLat, aLon, bLat, bLon)).length
    ensures NmToKm(leg.nm) == leg.km
  {
    var r := route(QueryFor(aLat, aLon, bLat, bLon));
    Leg(r.coords, r.length, KmToNm(r.length))
  }

  /** `eta_hours`: None when the speed is not positive, otherwise the hours the distance takes. */
  function EtaHours(distNm: real, speedKn: real): (h: Option<real>)
    ensures h.None? <==> speedKn <= 0.0
    ensures h.Some? ==> h.value * speedKn == distNm
  {
    if speedKn <= 0.0 then None else Some(distNm / speedKn)
  }

  /** `eta_hours(...) or 0.0`: a missing ETA and a zero ETA are both 0. */
  function EtaOrZero(distNm: real, speedKn: real): (h: real)
    ensures speedKn <= 0.0 ==> h == 0.0
    ensures speedKn > 0.0 ==> h * speedKn == distNm
  {
    EtaHours(distNm, speedKn).GetOr(0.0)
  }

  /** The ETA grows with the distance at a fixed positive speed. */
  lemma EtaMonotone(d1: real, d2: real, speedKn: real)
    requires speedKn > 0.0 && d1 <= d2
    ensures EtaOrZero(d1, speedKn) <= EtaOrZero(d2, speedKn)
  {
    assert EtaOrZero(d2, speedKn) - EtaOrZero(d1, speedKn) == (d2 - d1) / speedKn;
  }

  predicate Distinct(ks: seq<RouteKey>)
  {
    forall i, j :: 0 <= i < j < |ks| ==> ks[i] != ks[j]
  }

  /**
   * `maritime_route` behind `lru_cache(maxsize=4096)`: a table of answered
   * queries and their use order, least recently used first. A miss asks the
   * library and, when the table is full, evicts the least recently used
   * entry; a hit answers from the table and marks the query as most recent.
   */
  class RouteCache {
    const route: Searoute
    const maxSize: nat
    var memo: map<RouteKey, SeaRoute>
    var order: seq<RouteKey>

    /** Every stored answer is the library's answer; the use order lists each stored query once. */
    ghost predicate Valid()
      reads this
    {
      && (forall k :: k in memo ==> memo[k] == route(k))
      && (forall k :: k in memo <==> k in order)
      && Distinct(order)
      && |order| <= maxSize
    }

    /** An empty memo of `lru_cache(maxsize=4096)` in front of `route`. */
    constructor (route: Searoute)
      ensures Valid()
      ensures this.route == route && maxSize == 4096
      ensures memo == map[] && order == []
    {
      this.route := route;
      maxSize := 4096;
      memo := map[];
      order := [];
    }

    /** The use order without `key`. */
    static function Remove(order: seq<RouteKey>, key: RouteKey): (r: seq<RouteKey>)
      ensures forall k :: k in r <==> k in order && k != key
      ensures key !in order ==> r == order
    {
      if order == [] then []
      else
        var rest := Remove(order[1..], key);
        assert order == [order[0]] + order[1..];
        if order[0] == key then rest else [order[0]] + rest
    }

    /** Removing from a list without repeats leaves a list without repeats, one shorter when the key was there. */
    static lemma {:induction false} RemoveDistinct(order: seq<RouteKey>, key: RouteKey)
      requires Distinct(order)
      ensures Distinct(Remove(order, key))
      ensures key in order ==> |Remove(order, key)| == |order| - 1
    {
      if order != [] {
        DropFirst(order);
        RemoveDistinct(order[1..], key);
        if order[0] != key {
          ConsFresh(order[0], Remove(order[1..], key));
        }
      }
    }

    /** A key not in a list without repeats can go at its end. */
    static lemma AppendFresh(order: seq<RouteKey>, key: RouteKey)
      requires Distinct(order) && key !in order
      ensures Distinct(order + [key])
    {
      var r := order + [key];
      forall a, b | 0 <= a < b < |r| ensures r[a] != r[b] {
        if b == |order| {
          assert r[a] in order;
        }
      }
    }

    /** A key not in a list without repeats can go at its front. */
    static lemma ConsFresh(key: RouteKey, order: seq<RouteKey>)
      requires Distinct(order) && key !in order
      ensures Distinct([key] + order)
    {
      var r := [key] + order;
      forall a, b | 0 <= a < b < |r| ensures r[a] != r[b] {
        assert r[b] == order[b - 1];
        if a > 0 {
          assert r[a] == order[a - 1];
        }
      }
    }

    /** The oldest key of a list without repeats is not among the rest, which has no repeats either. */
    static lemma DropFirst(order: seq<RouteKey>)
      requires Distinct(order) && order != []
      ensures Distinct(order[1..]) && order[0] !in order[1..]
      ensures forall k :: k in order <==> k == order[0] || k in order[1..]
    {
      assert order == [order[0]] + order[1..];
    }

    /** `maritime_route(lon1, lat1, lon2, lat2, units)`. */
    method Query(key: RouteKey) returns (answer: SeaRoute)
      requires Valid() && maxSize > 0
      modifies this
      ensures Valid()
      ensures answer == route(key)
      ensures old(key in memo) ==> answer == old(memo[key])
      ensures old(key in memo) ==> memo == old(memo) && order == Remove(old(order), key) + [key]
      ensures old(key !in memo) && old(|order|) < maxSize ==>
        memo == old(memo)[key := answer] && order == old(order) + [key]
      ensures old(key !in memo) && old(|order|) == maxSize ==>
        memo == (old(memo) - {old(order[0])})[key := answer] && order == old(order[1..]) + [key]
    {
      if key in memo {
        RemoveDistinct(order, key);
        AppendFresh(Remove(order, key), key);
        answer := memo[key];
        order := Remove(order, key) + [key];
        return;
      }
      answer := route(key);
      if |order| == maxSize {
        DropFirst(order);
        memo := memo - {order[0]};
        order := order[1..];
      }
      AppendFresh(order, key);
      memo := memo[key := answer];
      order := order + [key];
    }
  }
}
