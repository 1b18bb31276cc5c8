/**
 * The piracy-risk count of risk.py: incidents inside the route's bounding
 * box, widened by one and a half times the buffer, are checked against the
 * buffered route line, and those inside the corridor are counted.
 *
 * The geometry library's "point lies within `buf` degrees of the route
 * line" is a parameter.
 */
module Risk {
  import opened Wrappers
  import opened PyText
  import Routing

  type Pair = Routing.Pair

  /** An incident row: its LON and LAT, None where the table holds NaN. */
  datatype Incident = Incident(lon: Option<real>, lat: Option<real>)

  /** The buffered-route test: route vertices (lon, lat), buffer in degrees, point (lon, lat). */
  type Corridor = (seq<Pair>, real, Pair) -> bool

  /** Kilometres per degree used to turn the buffer into degrees. */
  const KmPerDegree: real := 111.32

  /** `(1 / 111.32) * buffer_km`. */
  function BufferDegrees(bufferKm: real): (deg: real)
    ensures deg * KmPerDegree == bufferKm
  {
    (1.0 / KmPerDegree) * bufferKm
  }

  function Lons(route: seq<Pair>): (r: seq<real>)
    ensures |r| == |route| && forall i :: 0 <= i < |route| ==> r[i] == route[i].0
  {
    seq(|route|, i requires 0 <= i < |route| => route[i].0)
  }

  function Lats(route: seq<Pair>): (r: seq<real>)
    ensures |r| == |route| && forall i :: 0 <= i < |route| ==> r[i] == route[i].1
  {
    seq(|route|, i requires 0 <= i < |route| => route[i].1)
  }

  datatype Box = Box(minLon: real, maxLon: real, minLat: real, maxLat: real)

  /** The route's extent widened by 1.5 x the buffer on every side. */
  function BoxOf(route: seq<Pair>, buf: real): (b: Box)
    requires route != []
    ensures forall i :: 0 <= i < |route| ==> b.minLon + 1.5 * buf <= route[i].0 <= b.maxLon - 1.5 * buf
    ensures forall i :: 0 <= i < |route| ==> b.minLat + 1.5 * buf <= route[i].1 <= b.maxLat - 1.5 * buf
    ensures exists i :: 0 <= i < |route| && route[i].0 == b.minLon + 1.5 * buf
    ensures exists i :: 0 <= i < |route| && route[i].0 == b.maxLon - 1.5 * buf
    ensures exists i :: 0 <= i < |route| && route[i].1 == b.minLat + 1.5 * buf
    ensures exists i :: 0 <= i < |route| && route[i].1 == b.maxLat - 1.5 * buf
  {
    var lons := Lons(route);
    var lats := Lats(route);
    var b := Box(MinOf(lons) - buf * 1.5, MaxOf(lons) + buf * 1.5, MinOf(lats) - buf * 1.5, MaxOf(lats) + buf * 1.5);
    assert forall i :: 0 <= i < |route| ==> lons[i] in lons && lats[i] in lats;
    ExtremeAt(lons, MinOf(lons));
    ExtremeAt(lons, MaxOf(lons));
    ExtremeAt(lats, MinOf(lats));
    ExtremeAt(lats, MaxOf(lats));
    b
  }

  lemma ExtremeAt(xs: seq<real>, m: real)
    requires m in xs
    ensures exists i :: 0 <= i < |xs| && xs[i] == m
  {
  }

  /** `Series.between(lo, hi)`: inclusive at both ends, false for NaN. */
  predicate Between(v: Option<real>, lo: real, hi: real)
  {
    v.Some? && lo <= v.value <= hi
  }

  predicate InBox(inc: Incident, b: Box)
  {
    Between(inc.lon, b.minLon, b.maxLon) && Between(inc.lat, b.minLat, b.maxLat)
  }

  /** The incidents inside the box, in table order. */
  function Candidates(incidents: seq<Incident>, b: Box): (c: seq<Incident>)
    ensures |c| <= |incidents|
    ensures forall x :: x in c <==> x in incidents && InBox(x, b)
  {
    if incidents == [] then []
    else
      var rest := Candidates(incidents[1..], b);
      assert forall x :: x in incidents <==> x == incidents[0] || x in incidents[1..];
      if InBox(incidents[0], b) then [incidents[0]] + rest else rest
  }

  /** The candidates are the incidents filtered by the box, so they keep the table's order and repeats. */
  lemma {:induction false} CandidatesFiltered(incidents: seq<Incident>, b: Box)
    ensures Candidates(incidents, b) == Filter(incidents, x => InBox(x, b))
    decreases |incidents|
  {
    if incidents != [] {
      CandidatesFiltered(incidents[1..], b);
      FilterCons(incidents[0], incidents[1..], x => InBox(x, b));
      assert [incidents[0]] + incidents[1..] == incidents;
    }
  }

  /** A candidate whose coordinates convert and that lies in the corridor. */
  predicate Hit(inc: Incident, route: seq<Pair>, buf: real, inCorridor: Corridor)
  {
    inc.lon.Some? && inc.lat.Some? && inCorridor(route, buf, (inc.lon.value, inc.lat.value))
  }

  /** The number of hits among `cands`. */
  function HitCount(cands: seq<Incident>, route: seq<Pair>, buf: real, inCorridor: Corridor): nat
  {
    if cands == [] then 0
    else HitCount(cands[..|cands| - 1], route, buf, inCorridor) + (if Hit(cands[|cands| - 1], route, buf, inCorridor) then 1 else 0)
  }

  /** No more hits than candidates, and none at all when no candidate lies in the corridor. */
  lemma {:induction false} HitCountBounds(cands: seq<Incident>, route: seq<Pair>, buf: real, inCorridor: Corridor)
    ensures HitCount(cands, route, buf, inCorridor) <= |cands|
    ensures (forall x :: x in cands ==> !Hit(x, route, buf, inCorridor)) ==> HitCount(cands, route, buf, inCorridor) == 0
    ensures (forall x :: x in cands ==> Hit(x, route, buf, inCorridor)) ==> HitCount(cands, route, buf, inCorridor) == |cands|
  {
    if cands != [] {
      var init := cands[..|cands| - 1];
      assert forall x :: x in init ==> x in cands;
      HitCountBounds(init, route, buf, inCorridor);
    }
  }

  /** What `piracy_hits_along_route` returns for a route: (hits, total incidents), or Raised. */
  function PiracyCount(route: seq<Pair>, incidents: Option<seq<Incident>>, bufferKm: real, inCorridor: Corridor): Outcome<(nat, nat)>
  {
    if incidents.None? || incidents.value == [] then Done((0, 0))
    else if |route| < 2 then Raised
    else
      var buf := BufferDegrees(bufferKm);
      Done((HitCount(Candidates(incidents.value, BoxOf(route, buf)), route, buf, inCorridor), |incidents.value|))
  }

  /** `piracy_hits_along_route`: (hits, total incidents), or Raised when the route is too short for a line. */
  method PiracyHits(route: seq<Pair>, incidents: Option<seq<Incident>>, bufferKm: real, inCorridor: Corridor)
    returns (r: Outcome<(nat, nat)>)
    ensures incidents.None? || incidents == Some([]) ==> r == Done((0, 0))
    ensures incidents.Some? && incidents.value != [] && |route| < 2 ==> r == Raised
    ensures incidents.Some? && incidents.value != [] && |route| >= 2 ==>
      var buf := BufferDegrees(bufferKm);
      r == Done((HitCount(Candidates(incidents.value, BoxOf(route, buf)), route, buf, inCorridor), |incidents.value|))
    ensures r == PiracyCount(route, incidents, bufferKm, inCorridor)
  {
    if incidents.None? || incidents.value == [] {
      return Done((0, 0));
    }
    if |route| < 2 {
      return Raised;
    }
    var table := incidents.value;
    var buf := BufferDegrees(bufferKm);
    var total := |table|;
    var cand := Candidates(table, BoxOf(route, buf));
    var hits := 0;
    for i := 0 to |cand|
      invariant hits == HitCount(cand[..i], route, buf, inCorridor)
    {
      assert cand[..i + 1][..i] == cand[..i];
      var c := cand[i];
      if c.lon.None? || c.lat.None? {
        continue;
      }
      if inCorridor(route, buf, (c.lon.value, c.lat.value)) {
        hits := hits + 1;
      }
    }
    assert cand[..|cand|] == cand;
    return Done((hits, total));
  }

  /** 0 <= hits <= candidates <= total, and a route vertex incident is always a candidate. */
  lemma RiskBounds(route: seq<Pair>, incidents: seq<Incident>, bufferKm: real, inCorridor: Corridor)
    requires |route| >= 2 && bufferKm >= 0.0
    ensures var buf := BufferDegrees(bufferKm);
            var cand := Candidates(incidents, BoxOf(route, buf));
            HitCount(cand, route, buf, inCorridor) <= |cand| <= |incidents|
    ensures var b := BoxOf(route, BufferDegrees(bufferKm));
            forall x, i :: x in incidents && 0 <= i < |route| && x.lon == Some(route[i].0) && x.lat == Some(route[i].1) ==>
              x in Candidates(incidents, b)
  {
    var buf := BufferDegrees(bufferKm);
    HitCountBounds(Candidates(incidents, BoxOf(route, buf)), route, buf, inCorridor);
    assert buf >= 0.0;
  }
}
