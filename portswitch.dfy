/**
 * Smart PortSwitch (`evaluate_portswitch` in portswitch.py): given the
 * current route, rank alternative destination ports by a weighted score of
 * ETA, congestion wait, fuel cost and CO2.
 *
 * The great-circle distance, the sea-route library and the fuzzy string
 * scorer are parameters.
 */
module PortSwitch {
  import opened Wrappers
  import opened PyText
  import Canon
  import Coords
  import Gazetteer
  import Congestion
  import Routing
  import Voyage

  type Row = Gazetteer.Row
  type Pair = Routing.Pair

  /** Great-circle distance in nautical miles between (lat1, lon1) and (lat2, lon2). */
  type Distance = (real, real, real, real) -> real

  /** The fuzzy scorer: similarity of a query and a choice, 0 to 100. */
  type Scorer = (string, string) -> real

  /** The external services the evaluation relies on. */
  datatype Env = Env(route: Routing.Searoute, haversineNm: Distance, scorer: Scorer)

  /** The PortSwitch controls. */
  datatype Controls = Controls(
    sameCountryOnly: bool, radiusNm: real, fuzzyThreshold: real,
    wTime: real, wCong: real, wCost: real, wCo2: real)

  // ---------------------------------------------------------------- pool

  /** `s.replace(pat, "")`: every non-overlapping occurrence of `pat`, left to right, removed. */
  function RemoveAll(s: string, pat: string): (r: string)
    requires pat != []
    ensures |r| <= |s|
    decreases |s|
  {
    if |s| < |pat| then s
    else if s[..|pat|] == pat then RemoveAll(s[|pat|..], pat)
    else [s[0]] + RemoveAll(s[1..], pat)
  }

  /** A trailing pattern is removed and nothing else, when the text before it lacks the pattern and the
      pattern's last character occurs nowhere earlier in it (as with " (baseline)"), so no match can
      straddle the join. */
  lemma {:induction false} RemoveAllTrailing(s: string, pat: string)
    requires pat != [] && !Gazetteer.Contains(s, pat)
    requires forall i :: 0 <= i < |pat| - 1 ==> pat[i] != pat[|pat| - 1]
    ensures RemoveAll(s + pat, pat) == s
    decreases |s|
  {
    var t := s + pat;
    if s == [] {
      assert t[..|pat|] == pat && t[|pat|..] == [];
    } else {
      // a match at the front would lie in `s` or straddle the join, where `pat`'s last character is not
      if |s| < |pat| {
        assert t[|pat| - 1] == pat[|pat| - 1 - |s|];
      }
      assert t[..|pat|] != pat;
      assert !Gazetteer.Contains(s[1..], pat) by {
        if |s| >= |pat| { assert s[..|pat|] != pat; }
      }
      RemoveAllTrailing(s[1..], pat);
      assert t[1..] == s[1..] + pat;
      assert s == [s[0]] + s[1..];
    }
  }

  /** Text without the pattern is left alone. */
  lemma {:induction false} RemoveAllAbsent(s: string, pat: string)
    requires pat != [] && !Gazetteer.Contains(s, pat)
    ensures RemoveAll(s, pat) == s
    decreases |s|
  {
    if |s| >= |pat| {
      assert s[..|pat|] != pat;
      RemoveAllAbsent(s[1..], pat);
      assert s == [s[0]] + s[1..];
    }
  }

  const BaselineSuffix: string := " (baseline)"

  /** The label "<name> (baseline)" gives back the name, when the name does not itself hold the suffix. */
  lemma BaselineLabelDropped(name: string)
    requires !Gazetteer.Contains(name, BaselineSuffix)
    ensures RemoveAll(name + BaselineSuffix, BaselineSuffix) == name
  {
    RemoveAllTrailing(name, BaselineSuffix);
  }

  /** The normalised country of the baseline row, "Unknown" without a row or a country column. */
  function BaselineCountry(baselineRow: Option<Row>, countryCol: Option<string>): (c: string)
    ensures baselineRow.None? || countryCol.None? ==> c == "Unknown"
  {
    if baselineRow.Some? && countryCol.Some? then Gazetteer.NormCountry(Gazetteer.Get(baselineRow.value, countryCol.value))
    else "Unknown"
  }

  /** The list the pool starts from: the baseline country's ports, or every port. */
  function PoolBase(wpi: Gazetteer.Wpi, country: string, sameCountryOnly: bool): (base: seq<string>)
    ensures sameCountryOnly && wpi.countryCol.Some? && country in wpi.portsByCountry ==> base == wpi.portsByCountry[country]
    ensures sameCountryOnly && wpi.countryCol.Some? && country !in wpi.portsByCountry ==> base == []
    ensures !sameCountryOnly || wpi.countryCol.None? ==> base == wpi.mains
  {
    if sameCountryOnly && wpi.countryCol.Some? then
      if country in wpi.portsByCountry then wpi.portsByCountry[country] else []
    else wpi.mains
  }

  /** The candidate pool: the base list with the baseline destination appended when absent. */
  function Pool(base: seq<string>, baselineDest: string): (p: seq<string>)
    ensures baselineDest in p
    ensures forall x :: x in p <==> x in base || x == baselineDest
    ensures |base| <= |p| <= |base| + 1 && p[..|base|] == base
  {
    if baselineDest in base then base else base + [baselineDest]
  }

  // ---------------------------------------------------------------- radius filter

  /** Where port `p` lies: nothing without a row, Raised when its row's coordinates do not parse. */
  function Locate(p: string, rows: seq<Row>): (r: Outcome<Option<Pair>>)
    ensures r == Done(None) <==> Gazetteer.RowByMain(p, rows).None?
    ensures r == Raised <==> Gazetteer.RowByMain(p, rows).Some? && Coords.LatLonFromRow(Gazetteer.RowByMain(p, rows).value).None?
    ensures r.Done? && r.value.Some? ==> r.value == Coords.LatLonFromRow(Gazetteer.RowByMain(p, rows).value)
  {
    match Gazetteer.RowByMain(p, rows)
    case None => Done(None)
    case Some(rw) =>
      match Coords.LatLonFromRow(rw)
      case None => Raised
      case Some(pt) => Done(Some(pt))
  }

  /** `get_row_by_main` followed by `latlon_from_row`, for every port of the gazetteer `rows`. */
  function Located(rows: seq<Row>): string -> Outcome<Option<Pair>>
  {
    p => Locate(p, rows)
  }

  /** The lookup the loops below use, one port at a time. */
  type Locator = string -> Outcome<Option<Pair>>

  /** Whether the port at `pt` passes the radius test around `baseline`. */
  predicate WithinRadius(baseline: Pair, pt: Pair, radiusNm: real, dist: Distance)
  {
    radiusNm <= 0.0 || dist(baseline.0, baseline.1, pt.0, pt.1) <= radiusNm
  }

  /** The candidates the radius loop keeps, or Raised when a candidate's coordinates do not parse. */
  function RadiusFiltered(cands: seq<string>, locate: Locator, baseline: Pair, radiusNm: real, dist: Distance): Outcome<seq<string>>
  {
    if cands == [] then Done([])
    else
      match RadiusFiltered(cands[..|cands| - 1], locate, baseline, radiusNm, dist)
      case Raised => Raised
      case Done(kept) =>
        var p := cands[|cands| - 1];
        match locate(p)
        case Raised => Raised
        case Done(None) => Done(kept)
        case Done(Some(pt)) => if WithinRadius(baseline, pt, radiusNm, dist) then Done(kept + [p]) else Done(kept)
  }

  /** A candidate passes the filter: it has coordinates and they lie within the radius. */
  predicate Passes(p: string, locate: Locator, baseline: Pair, radiusNm: real, dist: Distance)
  {
    locate(p).Done? && locate(p).value.Some? && WithinRadius(baseline, locate(p).value.value, radiusNm, dist)
  }

  /** The filter keeps exactly the candidates that pass, in candidate order, and raises only for a candidate that raises. */
  lemma {:induction false} RadiusFilteredMembers(cands: seq<string>, locate: Locator, baseline: Pair, radiusNm: real, dist: Distance)
    ensures RadiusFiltered(cands, locate, baseline, radiusNm, dist).Done? ==>
      forall x :: x in RadiusFiltered(cands, locate, baseline, radiusNm, dist).value <==>
        x in cands && Passes(x, locate, baseline, radiusNm, dist)
    ensures RadiusFiltered(cands, locate, baseline, radiusNm, dist).Raised? <==> exists x :: x in cands && locate(x).Raised?
  {
    if cands != [] {
      var init := cands[..|cands| - 1];
      var p := cands[|cands| - 1];
      RadiusFilteredMembers(init, locate, baseline, radiusNm, dist);
      assert cands == init + [p];
      assert forall x :: x in cands <==> x in init || x == p;
    }
  }

  /** With a non-positive radius every candidate with coordinates is kept. */
  lemma NoRadiusKeepsAll(cands: seq<string>, locate: Locator, baseline: Pair, radiusNm: real, dist: Distance, x: string)
    requires radiusNm <= 0.0 && RadiusFiltered(cands, locate, baseline, radiusNm, dist).Done?
    requires x in cands && locate(x).Done? && locate(x).value.Some?
    ensures x in RadiusFiltered(cands, locate, baseline, radiusNm, dist).value
  {
    RadiusFilteredMembers(cands, locate, baseline, radiusNm, dist);
  }

  /** The radius loop over the candidates. */
  method FilterByRadius(cands: seq<string>, locate: Locator, baseline: Pair, radiusNm: real, dist: Distance)
    returns (r: Outcome<seq<string>>)
    ensures r == RadiusFiltered(cands, locate, baseline, radiusNm, dist)
  {
    var kept: seq<string> := [];
    for i := 0 to |cands|
      invariant RadiusFiltered(cands[..i], locate, baseline, radiusNm, dist) == Done(kept)
    {
      assert cands[..i + 1][..i] == cands[..i];
      var p := cands[i];
      var loc := locate(p);
      if loc.Raised? {
        RadiusFilteredMembers(cands, locate, baseline, radiusNm, dist);
        return Raised;
      }
      if loc.value.None? {
        continue;
      }
      var pt := loc.value.value;
      if radiusNm <= 0.0 || dist(baseline.0, baseline.1, pt.0, pt.1) <= radiusNm {
        kept := kept + [p];
      }
    }
    assert cands[..|cands|] == cands;
    return Done(kept);
  }

  /** `[p for p in cand_filtered if p != origin]`. */
  function DropName(xs: seq<string>, name: string): (r: seq<string>)
    ensures |r| <= |xs|
    ensures forall x :: x in r <==> x in xs && x != name
  {
    if xs == [] then []
    else
      var rest := DropName(xs[1..], name);
      assert forall x :: x in xs <==> x == xs[0] || x in xs[1..];
      if xs[0] == name then rest else [xs[0]] + rest
  }

  // ---------------------------------------------------------------- congestion resolver

  /** rapidfuzz `extractOne`: the first choice with the highest score. */
  function FirstMax(query: string, choices: seq<string>, scorer: Scorer): (r: Option<nat>)
    ensures r.None? <==> choices == []
    ensures r.Some? ==> r.value < |choices|
    ensures r.Some? ==> forall j :: 0 <= j < |choices| ==> scorer(query, choices[j]) <= scorer(query, choices[r.value])
    ensures r.Some? ==> forall j :: 0 <= j < r.value ==> scorer(query, choices[j]) < scorer(query, choices[r.value])
  {
    if choices == [] then None
    else
      var n := |choices| - 1;
      var b := FirstMax(query, choices[..n], scorer);
      assert forall j :: 0 <= j < n ==> choices[..n][j] == choices[j];
      if b.None? || scorer(query, choices[n]) > scorer(query, choices[b.value]) then Some(n) else b
  }

  /** Key `i` is the first of the best-scoring keys. */
  ghost predicate FirstBest(key: string, keys: seq<string>, i: int, scorer: Scorer)
  {
    && 0 <= i < |keys|
    && (forall j :: 0 <= j < |keys| ==> scorer(key, keys[j]) <= scorer(key, keys[i]))
    && (forall j :: 0 <= j < i ==> scorer(key, keys[j]) < scorer(key, keys[i]))
  }

  /** The fuzzy step: the best-scoring key, when it is non-empty and scores at least the threshold. */
  function FuzzyHit(key: string, cong: Congestion.Index, threshold: real, scorer: Scorer): (r: Option<string>)
    ensures r.Some? ==> r.value in cong.keys && scorer(key, r.value) >= threshold
    ensures r.Some? ==> forall c :: c in cong.keys ==> scorer(key, c) <= scorer(key, r.value)
    ensures r.Some? ==> cong.byName != map[] && r.value != "" && exists i :: FirstBest(key, cong.keys, i, scorer) && cong.keys[i] == r.value
    ensures cong.byName == map[] || cong.keys == [] ==> r.None?
  {
    if cong.byName == map[] then None
    else
      match FirstMax(key, cong.keys, scorer)
      case None => None
      case Some(i) =>
        var k := cong.keys[i];
        if k != "" && scorer(key, k) >= threshold then Some(k) else None
  }

  /** With data, the fuzzy step matches exactly when the first best-scoring key is non-empty and scores at least the threshold. */
  lemma FuzzyHitFirstBest(key: string, cong: Congestion.Index, threshold: real, scorer: Scorer, i: int)
    requires cong.byName != map[] && FirstBest(key, cong.keys, i, scorer)
    ensures var r := FuzzyHit(key, cong, threshold, scorer);
            (r.Some? <==> cong.keys[i] != "" && scorer(key, cong.keys[i]) >= threshold) && (r.Some? ==> r.value == cong.keys[i])
  {
    var m := FirstMax(key, cong.keys, scorer).value;
    assert FirstBest(key, cong.keys, m, scorer);
    // both are best, so they score alike, and neither can come strictly before the other
    assert scorer(key, cong.keys[i]) == scorer(key, cong.keys[m]);
    assert m == i;
  }

  /** The distance in km from (lat, lon) to a geo-table entry, as the resolver computes it. */
  function GeoKm(e: Congestion.GeoEntry, lat: real, lon: real, dist: Distance): real
  {
    dist(lat, lon, e.lat, e.lon) * 1.852
  }

  /** The initial "best distance" of the nearest-entry scan. */
  const Far: real := 1000000000000000000.0

  /** The entry the nearest-entry scan settles on: the first with the smallest distance below `Far`. */
  function Nearest(geo: seq<Congestion.GeoEntry>, lat: real, lon: real, dist: Distance): (r: Option<nat>)
    ensures r.Some? ==> r.value < |geo| && GeoKm(geo[r.value], lat, lon, dist) < Far
    ensures r.Some? ==> forall j :: 0 <= j < |geo| ==> GeoKm(geo[r.value], lat, lon, dist) <= GeoKm(geo[j], lat, lon, dist)
    ensures r.Some? ==> forall j :: 0 <= j < r.value ==> GeoKm(geo[j], lat, lon, dist) > GeoKm(geo[r.value], lat, lon, dist)
    ensures r.None? <==> forall j :: 0 <= j < |geo| ==> GeoKm(geo[j], lat, lon, dist) >= Far
  {
    if geo == [] then None
    else
      var n := |geo| - 1;
      var b := Nearest(geo[..n], lat, lon, dist);
      assert forall j :: 0 <= j < n ==> geo[..n][j] == geo[j];
      var bestD := if b.Some? then GeoKm(geo[b.value], lat, lon, dist) else Far;
      if GeoKm(geo[n], lat, lon, dist) < bestD then Some(n) else b
  }

  /** The geo-nearest loop over the table. */
  method NearestEntry(geo: seq<Congestion.GeoEntry>, lat: real, lon: real, dist: Distance) returns (best: Option<nat>, bestD: real)
    ensures best == Nearest(geo, lat, lon, dist)
    ensures best.Some? ==> bestD == GeoKm(geo[best.value], lat, lon, dist)
  {
    best := None;
    bestD := Far;
    for i := 0 to |geo|
      invariant best == Nearest(geo[..i], lat, lon, dist)
      invariant best.Some? ==> best.value < i && bestD == GeoKm(geo[best.value], lat, lon, dist)
      invariant best.None? ==> bestD == Far
    {
      assert geo[..i + 1][..i] == geo[..i];
      assert best.Some? ==> geo[..i + 1][best.value] == geo[best.value];
      var d := dist(lat, lon, geo[i].lat, geo[i].lon) * 1.852;
      if d < bestD {
        best := Some(i);
        bestD := d;
      }
    }
    assert geo[..|geo|] == geo;
  }

  /** The geo step: the wait of the nearest entry, when the radius is positive and the entry lies within it. */
  function GeoHit(cong: Congestion.Index, lat: real, lon: real, geoRadiusKm: real, dist: Distance): (r: Option<real>)
    ensures r.Some? ==> cong.geo.Some? && geoRadiusKm > 0.0
    ensures r.Some? ==> exists e :: e in cong.geo.value && r.value == e.wait && GeoKm(e, lat, lon, dist) <= geoRadiusKm
    ensures cong.geo.Some? && geoRadiusKm > 0.0 && Nearest(cong.geo.value, lat, lon, dist).Some? ==>
              var e := cong.geo.value[Nearest(cong.geo.value, lat, lon, dist).value];
              (r.Some? <==> GeoKm(e, lat, lon, dist) <= geoRadiusKm) && (r.Some? ==> r.value == e.wait)
  {
    if cong.geo.Some? && geoRadiusKm > 0.0 then
      var g := cong.geo.value;
      match Nearest(g, lat, lon, dist)
      case None => None
      case Some(i) => if GeoKm(g[i], lat, lon, dist) <= geoRadiusKm then Some(g[i].wait) else None
    else None
  }

  /** Some entry within a (finite) positive radius always yields a geo wait. */
  lemma GeoHitWithinRadius(cong: Congestion.Index, lat: real, lon: real, geoRadiusKm: real, dist: Distance, e: Congestion.GeoEntry)
    requires cong.geo.Some? && 0.0 < geoRadiusKm < Far
    requires e in cong.geo.value && GeoKm(e, lat, lon, dist) <= geoRadiusKm
    ensures GeoHit(cong, lat, lon, geoRadiusKm, dist).Some?
  {
    var g := cong.geo.value;
    var k :| 0 <= k < |g| && g[k] == e;
    assert Nearest(g, lat, lon, dist).Some?;
  }

  /** The geo-nearest step of the resolver. */
  method GeoNearest(cong: Congestion.Index, lat: real, lon: real, geoRadiusKm: real, dist: Distance) returns (w: Option<real>)
    ensures w == GeoHit(cong, lat, lon, geoRadiusKm, dist)
  {
    w := None;
    if cong.geo.Some? && geoRadiusKm > 0.0 {
      var g := cong.geo.value;
      var best, bestD := NearestEntry(g, lat, lon, dist);
      if best.Some? && bestD <= geoRadiusKm {
        w := Some(g[best.value].wait);
      }
    }
  }

  /** Where a resolved wait comes from. */
  datatype WaitSource = NoData | ViaAlias | Exact | Fuzzy | Geo | Default

  /** The step of the chain that answers for `key`: the first that applies. */
  function WaitStep(key: string, lat: real, lon: real, cong: Congestion.Index, alias: map<string, string>,
                    geoRadiusKm: real, threshold: real, env: Env): WaitSource
  {
    if cong.byName == map[] && cong.geo.None? then NoData
    else if key in alias && alias[key] in cong.byName then ViaAlias
    else if key in cong.byName then Exact
    else if FuzzyHit(key, cong, threshold, env.scorer).Some? then Fuzzy
    else if GeoHit(cong, lat, lon, geoRadiusKm, env.haversineNm).Some? then Geo
    else Default
  }

  /** The wait `resolve_wait_for_port` returns for canonical key `key` at (lat, lon). */
  function WaitFor(key: string, lat: real, lon: real, cong: Congestion.Index, alias: map<string, string>,
                   geoRadiusKm: real, threshold: real, env: Env): (w: real)
    requires cong.WellFormed()
  {
    match WaitStep(key, lat, lon, cong, alias, geoRadiusKm, threshold, env)
    case NoData => 0.0
    case ViaAlias => cong.byName[alias[key]]
    case Exact => cong.byName[key]
    case Fuzzy => cong.byName[FuzzyHit(key, cong, threshold, env.scorer).value]
    case Geo => GeoHit(cong, lat, lon, geoRadiusKm, env.haversineNm).value
    case Default => 0.0
  }

  /** A resolved wait is a stored wait of the index or of the geo table, or 0. */
  lemma WaitIsStored(key: string, lat: real, lon: real, cong: Congestion.Index, alias: map<string, string>,
                     geoRadiusKm: real, threshold: real, env: Env)
    requires cong.WellFormed()
    ensures var w := WaitFor(key, lat, lon, cong, alias, geoRadiusKm, threshold, env);
            w == 0.0 || (exists k :: k in cong.byName && cong.byName[k] == w)
            || (cong.geo.Some? && exists e :: e in cong.geo.value && e.wait == w)
  {
    var w := WaitFor(key, lat, lon, cong, alias, geoRadiusKm, threshold, env);
    match WaitStep(key, lat, lon, cong, alias, geoRadiusKm, threshold, env)
    case NoData =>
    case ViaAlias => assert cong.byName[alias[key]] == w;
    case Exact => assert cong.byName[key] == w;
    case Fuzzy =>
      var k := FuzzyHit(key, cong, threshold, env.scorer).value;
      assert cong.byName[k] == w;
    case Geo =>
    case Default =>
  }

  /** An alias whose target is in the index wins over an exact match of the key itself. */
  lemma AliasBeforeExact(key: string, lat: real, lon: real, cong: Congestion.Index, alias: map<string, string>,
                         geoRadiusKm: real, threshold: real, env: Env)
    requires cong.WellFormed() && (cong.byName != map[] || cong.geo.Some?)
    requires key in alias && alias[key] in cong.byName
    ensures WaitFor(key, lat, lon, cong, alias, geoRadiusKm, threshold, env) == cong.byName[alias[key]]
  {
  }

  /** Without congestion data every port waits 0. */
  lemma NoDataNoWait(key: string, lat: real, lon: real, cong: Congestion.Index, alias: map<string, string>,
                     geoRadiusKm: real, threshold: real, env: Env)
    requires cong.WellFormed() && cong.byName == map[] && cong.geo.None?
    ensures WaitFor(key, lat, lon, cong, alias, geoRadiusKm, threshold, env) == 0.0
  {
  }

  /** `resolve_wait_for_port`: the alias, exact, fuzzy and geo-nearest chain. */
  method ResolveWait(name: string, lat: real, lon: real, cong: Congestion.Index, alias: map<string, string>,
                     geoRadiusKm: real, threshold: real, env: Env) returns (w: real)
    requires cong.WellFormed()
    ensures w == WaitFor(Canon.CanonName(name), lat, lon, cong, alias, geoRadiusKm, threshold, env)
  {
    var key := Canon.CanonName(name);
    w := ResolveKey(key, lat, lon, cong, alias, geoRadiusKm, threshold, env);
  }

  /** The chain for the canonical key `key`. */
  method ResolveKey(key: string, lat: real, lon: real, cong: Congestion.Index, alias: map<string, string>,
                    geoRadiusKm: real, threshold: real, env: Env) returns (w: real)
    requires cong.WellFormed()
    ensures w == WaitFor(key, lat, lon, cong, alias, geoRadiusKm, threshold, env)
  {
    if cong.byName == map[] && cong.geo.None? {
      return 0.0;
    }
    if key in alias && alias[key] in cong.byName {
      return cong.byName[alias[key]];
    }
    if key in cong.byName {
      return cong.byName[key];
    }
    w := FuzzyOrGeo(key, lat, lon, cong, geoRadiusKm, threshold, env);
  }

  /** The last steps of the chain, for a key neither aliased nor stored: the fuzzy match, then the geo-nearest wait, then 0. */
  method FuzzyOrGeo(key: string, lat: real, lon: real, cong: Congestion.Index,
                    geoRadiusKm: real, threshold: real, env: Env) returns (w: real)
    requires cong.WellFormed()
    ensures var f := FuzzyHit(key, cong, threshold, env.scorer);
            var g := GeoHit(cong, lat, lon, geoRadiusKm, env.haversineNm);
            w == if f.Some? then cong.byName[f.value] else g.GetOr(0.0)
  {
    var fuzzy := FuzzyHit(key, cong, threshold, env.scorer);
    if fuzzy.Some? {
      return cong.byName[fuzzy.value];
    }
    var geo := GeoNearest(cong, lat, lon, geoRadiusKm, env.haversineNm);
    return geo.GetOr(0.0);
  }

  // ---------------------------------------------------------------- candidates

  /** One row of the results table. */
  datatype Candidate = Candidate(
    port: string, distanceNm: real, etaH: real, waitH: real, adjEtaH: real,
    fuelT: real, co2T: real, costUsd: real, coords: seq<Pair>)

  /** The results row for port `p` at `pt`, reached from `origin` (lat, lon), with wait `wait`. */
  function Assess(p: string, pt: Pair, origin: Pair, wait: real, ship: Voyage.Ship, env: Env): (c: Candidate)
    ensures c.port == p && c.waitH == wait && c.adjEtaH == c.etaH + c.waitH
    ensures c.coords == env.route(Routing.QueryFor(origin.0, origin.1, pt.0, pt.1)).coords
    ensures Routing.NmToKm(c.distanceNm) == env.route(Routing.QueryFor(origin.0, origin.1, pt.0, pt.1)).length
    ensures ship.speedKn <= 0.0 ==> c.etaH == 0.0
    ensures ship.speedKn > 0.0 ==> c.etaH * ship.speedKn == c.distanceNm
    ensures c.fuelT * 24.0 == ship.consTpd * c.adjEtaH
    ensures c.co2T == c.fuelT * ship.efCo2 && c.costUsd == c.fuelT * ship.fuelPrice
  {
    var leg := Routing.ComputeRoute(env.route, origin.0, origin.1, pt.0, pt.1);
    var eta := Routing.EtaOrZero(leg.nm, ship.speedKn);
    var f := Voyage.FootprintOf(ship, eta + wait);
    Candidate(p, leg.nm, eta, wait, eta + wait, f.fuel, f.co2, f.cost, leg.coords)
  }

  /** The congestion inputs of the evaluation. */
  datatype CongestionData = CongestionData(cong: Congestion.Index, alias: map<string, string>, geoRadiusKm: real)
  {
    ghost predicate Valid() { cong.WellFormed() }
  }

  /** The wait of port `p` at `pt` under the congestion inputs. */
  function WaitOf(p: string, pt: Pair, data: CongestionData, threshold: real, env: Env): real
    requires data.Valid()
  {
    WaitFor(Canon.CanonName(p), pt.0, pt.1, data.cong, data.alias, data.geoRadiusKm, threshold, env)
  }

  /** The results the candidate loop collects, or Raised when a candidate's coordinates do not parse. */
  function Assessed(cands: seq<string>, locate: Locator, origin: Pair, ship: Voyage.Ship, data: CongestionData,
                    threshold: real, env: Env): Outcome<seq<Candidate>>
    requires data.Valid()
  {
    if cands == [] then Done([])
    else
      match Assessed(cands[..|cands| - 1], locate, origin, ship, data, threshold, env)
      case Raised => Raised
      case Done(results) =>
        var p := cands[|cands| - 1];
        match locate(p)
        case Raised => Raised
        case Done(None) => Done(results)
        case Done(Some(pt)) => Done(results + [Assess(p, pt, origin, WaitOf(p, pt, data, threshold, env), ship, env)])
  }

  /** The results are the located candidates' rows, in candidate order, one per located candidate. */
  lemma {:induction false} AssessedPorts(cands: seq<string>, locate: Locator, origin: Pair, ship: Voyage.Ship,
                                         data: CongestionData, threshold: real, env: Env)
    requires data.Valid()
    ensures Assessed(cands, locate, origin, ship, data, threshold, env).Done? ==>
      var rs := Assessed(cands, locate, origin, ship, data, threshold, env).value;
      && |rs| <= |cands|
      && (forall c :: c in rs ==> c.port in cands && locate(c.port).Done? && locate(c.port).value.Some?)
      && (forall x :: x in cands && locate(x).Done? && locate(x).value.Some? ==> exists c :: c in rs && c.port == x)
    ensures Assessed(cands, locate, origin, ship, data, threshold, env).Raised? <==> exists x :: x in cands && locate(x).Raised?
  {
    if cands != [] {
      var init := cands[..|cands| - 1];
      var p := cands[|cands| - 1];
      AssessedPorts(init, locate, origin, ship, data, threshold, env);
      assert cands == init + [p];
      assert forall x :: x in cands <==> x in init || x == p;
      var prev := Assessed(init, locate, origin, ship, data, threshold, env);
      if prev.Done? && locate(p).Done? && locate(p).value.Some? {
        var c := Assess(p, locate(p).value.value, origin, WaitOf(p, locate(p).value.value, data, threshold, env), ship, env);
        assert c in prev.value + [c] && c.port == p;
      }
    }
  }

  /** The candidate loop. */
  method AssessAll(cands: seq<string>, locate: Locator, origin: Pair, ship: Voyage.Ship, data: CongestionData,
                   threshold: real, env: Env) returns (r: Outcome<seq<Candidate>>)
    requires data.Valid()
    ensures r == Assessed(cands, locate, origin, ship, data, threshold, env)
  {
    var results: seq<Candidate> := [];
    for i := 0 to |cands|
      invariant Assessed(cands[..i], locate, origin, ship, data, threshold, env) == Done(results)
    {
      assert cands[..i + 1][..i] == cands[..i];
      var p := cands[i];
      var loc := locate(p);
      if loc.Raised? {
        AssessedPorts(cands, locate, origin, ship, data, threshold, env);
        return Raised;
      }
      if loc.value.None? {
        continue;
      }
      var pt := loc.value.value;
      var w := ResolveWait(p, pt.0, pt.1, data.cong, data.alias, data.geoRadiusKm, threshold, env);
      results := results + [Assess(p, pt, origin, w, ship, env)];
    }
    assert cands[..|cands|] == cands;
    return Done(results);
  }

  // ---------------------------------------------------------------- scoring

  /** `a / r` lies in [0, 1] when 0 <= a <= r. */
  lemma DivUnit(a: real, r: real)
    requires 0.0 <= a <= r && r > 0.0
    ensures 0.0 <= a / r <= 1.0
  {
    var q := a / r;
    assert q * r == a;
  }

  /** Division by a positive number keeps the order. */
  lemma DivMonotone(a: real, b: real, r: real)
    requires a <= b && r > 0.0
    ensures a / r <= b / r
  {
    assert b / r - a / r == (b - a) / r;
    DivUnit(0.0, r);
    assert (b - a) / r * r == b - a;
  }

  /** `x` scaled to [0, 1] between `lo` and `hi`, 0 when they coincide. */
  function Norm(x: real, lo: real, hi: real): real
  {
    if hi - lo == 0.0 then 0.0 else (x - lo) / (hi - lo)
  }

  lemma NormAtHigh(lo: real, hi: real)
    requires lo < hi
    ensures Norm(hi, lo, hi) == 1.0
  {
    var r := hi - lo;
    assert 1.0 * r == r;
    assert r / r == 1.0;
  }

  /** `norm_col`: min-max normalisation, all zeros when the column is constant. */
  function NormCol(xs: seq<real>): (r: seq<real>)
    ensures |r| == |xs|
    ensures xs != [] ==> forall i :: 0 <= i < |xs| ==> r[i] == Norm(xs[i], MinOf(xs), MaxOf(xs))
  {
    if xs == [] then []
    else
      var lo := MinOf(xs);
      var hi := MaxOf(xs);
      seq(|xs|, i requires 0 <= i < |xs| => Norm(xs[i], lo, hi))
  }

  /** Every normalised value lies in [0, 1]. */
  lemma NormColBounds(xs: seq<real>)
    ensures forall i :: 0 <= i < |xs| ==> 0.0 <= NormCol(xs)[i] <= 1.0
  {
    if xs != [] {
      var lo := MinOf(xs);
      var hi := MaxOf(xs);
      forall i | 0 <= i < |xs| ensures 0.0 <= NormCol(xs)[i] <= 1.0 {
        assert xs[i] in xs;
        if hi - lo != 0.0 {
          DivUnit(xs[i] - lo, hi - lo);
        }
      }
    }
  }

  /** Normalisation keeps the order of the values. */
  lemma NormColMonotone(xs: seq<real>, i: nat, j: nat)
    requires i < |xs| && j < |xs| && xs[i] <= xs[j]
    ensures NormCol(xs)[i] <= NormCol(xs)[j]
  {
    var lo := MinOf(xs);
    var hi := MaxOf(xs);
    if hi - lo != 0.0 {
      assert xs[i] in xs;
      DivMonotone(xs[i] - lo, xs[j] - lo, hi - lo);
    }
  }

  /** A smallest value of the column maps to 0. */
  lemma NormColMin(xs: seq<real>, i: nat)
    requires i < |xs| && forall j :: 0 <= j < |xs| ==> xs[i] <= xs[j]
    ensures NormCol(xs)[i] == 0.0
  {
    var k :| 0 <= k < |xs| && xs[k] == MinOf(xs);
    assert xs[i] in xs && xs[i] <= xs[k];
    NormAtLow(MinOf(xs), MaxOf(xs));
  }

  lemma NormAtLow(lo: real, hi: real)
    ensures Norm(lo, lo, hi) == 0.0
  {
    if hi - lo != 0.0 {
      assert lo - lo == 0.0;
      assert 0.0 / (hi - lo) == 0.0;
    }
  }

  /** A largest value maps to 1 unless the column is constant. */
  lemma NormColMax(xs: seq<real>, i: nat, j: nat)
    requires i < |xs| && j < |xs| && xs[j] < xs[i]
    requires forall k :: 0 <= k < |xs| ==> xs[k] <= xs[i]
    ensures NormCol(xs)[i] == 1.0
  {
    var k :| 0 <= k < |xs| && xs[k] == MaxOf(xs);
    assert xs[i] in xs && xs[k] <= xs[i];
    assert xs[j] in xs;
    NormAtHigh(MinOf(xs), MaxOf(xs));
  }

  /** A constant column maps to zeros. */
  lemma NormColConstant(xs: seq<real>)
    requires forall i, j :: 0 <= i < |xs| && 0 <= j < |xs| ==> xs[i] == xs[j]
    ensures forall i :: 0 <= i < |xs| ==> NormCol(xs)[i] == 0.0
  {
    forall i | 0 <= i < |xs| ensures NormCol(xs)[i] == 0.0 {
      NormColMin(xs, i);
    }
  }

  /** A results row with its normalised metrics and score. */
  datatype Scored = Scored(c: Candidate, etaNorm: real, waitNorm: real, costNorm: real, co2Norm: real, score: real)

  function Etas(cs: seq<Candidate>): (r: seq<real>)
    ensures |r| == |cs| && forall i :: 0 <= i < |cs| ==> r[i] == cs[i].etaH
  {
    seq(|cs|, i requires 0 <= i < |cs| => cs[i].etaH)
  }

  function Waits(cs: seq<Candidate>): (r: seq<real>)
    ensures |r| == |cs| && forall i :: 0 <= i < |cs| ==> r[i] == cs[i].waitH
  {
    seq(|cs|, i requires 0 <= i < |cs| => cs[i].waitH)
  }

  function Costs(cs: seq<Candidate>): (r: seq<real>)
    ensures |r| == |cs| && forall i :: 0 <= i < |cs| ==> r[i] == cs[i].costUsd
  {
    seq(|cs|, i requires 0 <= i < |cs| => cs[i].costUsd)
  }

  function Co2s(cs: seq<Candidate>): (r: seq<real>)
    ensures |r| == |cs| && forall i :: 0 <= i < |cs| ==> r[i] == cs[i].co2T
  {
    seq(|cs|, i requires 0 <= i < |cs| => cs[i].co2T)
  }

  /** The weighted score of four normalised metrics. */
  function Score(etaN: real, waitN: real, costN: real, co2N: real, ctl: Controls): real
  {
    etaN * ctl.wTime + waitN * ctl.wCong + costN * ctl.wCost + co2N * ctl.wCo2
  }

  predicate NonNegativeWeights(ctl: Controls)
  {
    ctl.wTime >= 0.0 && ctl.wCong >= 0.0 && ctl.wCost >= 0.0 && ctl.wCo2 >= 0.0
  }

  /** Scaling by a non-negative weight keeps the order. */
  lemma MulMonotone(a: real, b: real, w: real)
    requires a <= b && w >= 0.0
    ensures a * w <= b * w
  {
    assert b * w - a * w == (b - a) * w;
  }

  /** With non-negative weights the score grows with each metric. */
  lemma ScoreMonotone(e1: real, w1: real, k1: real, o1: real, e2: real, w2: real, k2: real, o2: real, ctl: Controls)
    requires NonNegativeWeights(ctl) && e1 <= e2 && w1 <= w2 && k1 <= k2 && o1 <= o2
    ensures Score(e1, w1, k1, o1, ctl) <= Score(e2, w2, k2, o2, ctl)
  {
    MulMonotone(e1, e2, ctl.wTime);
    MulMonotone(w1, w2, ctl.wCong);
    MulMonotone(k1, k2, ctl.wCost);
    MulMonotone(o1, o2, ctl.wCo2);
    SumMonotone(e1 * ctl.wTime, w1 * ctl.wCong, k1 * ctl.wCost, o1 * ctl.wCo2,
      e2 * ctl.wTime, w2 * ctl.wCong, k2 * ctl.wCost, o2 * ctl.wCo2);
  }

  lemma SumMonotone(a1: real, b1: real, c1: real, d1: real, a2: real, b2: real, c2: real, d2: real)
    requires a1 <= a2 && b1 <= b2 && c1 <= c2 && d1 <= d2
    ensures a1 + b1 + c1 + d1 <= a2 + b2 + c2 + d2
  {
  }

  /** The results table with its normalised columns and scores, in results order. */
  function ScoreTable(cs: seq<Candidate>, ctl: Controls): (t: seq<Scored>)
    ensures |t| == |cs|
    ensures forall i :: 0 <= i < |cs| ==> t[i].c == cs[i]
    ensures forall i :: 0 <= i < |cs| ==>
      && t[i].etaNorm == NormCol(Etas(cs))[i] && t[i].waitNorm == NormCol(Waits(cs))[i]
      && t[i].costNorm == NormCol(Costs(cs))[i] && t[i].co2Norm == NormCol(Co2s(cs))[i]
    ensures forall i :: 0 <= i < |cs| ==> t[i].score == Score(t[i].etaNorm, t[i].waitNorm, t[i].costNorm, t[i].co2Norm, ctl)
  {
    var e := NormCol(Etas(cs));
    var w := NormCol(Waits(cs));
    var k := NormCol(Costs(cs));
    var o := NormCol(Co2s(cs));
    seq(|cs|, i requires 0 <= i < |cs| => Scored(cs[i], e[i], w[i], k[i], o[i], Score(e[i], w[i], k[i], o[i], ctl)))
  }

  /** With non-negative weights, each score lies between 0 and the sum of the weights. */
  lemma ScoreBounds(cs: seq<Candidate>, ctl: Controls, i: nat)
    requires i < |cs| && NonNegativeWeights(ctl)
    ensures 0.0 <= ScoreTable(cs, ctl)[i].score <= ctl.wTime + ctl.wCong + ctl.wCost + ctl.wCo2
  {
    var t := ScoreTable(cs, ctl)[i];
    NormColBounds(Etas(cs));
    NormColBounds(Waits(cs));
    NormColBounds(Costs(cs));
    NormColBounds(Co2s(cs));
    ScoreMonotone(0.0, 0.0, 0.0, 0.0, t.etaNorm, t.waitNorm, t.costNorm, t.co2Norm, ctl);
    ScoreMonotone(t.etaNorm, t.waitNorm, t.costNorm, t.co2Norm, 1.0, 1.0, 1.0, 1.0, ctl);
  }

  /** A candidate no worse on all four metrics never scores worse, whatever the non-negative weights. */
  lemma DominanceOrdersScores(cs: seq<Candidate>, ctl: Controls, i: nat, j: nat)
    requires i < |cs| && j < |cs| && NonNegativeWeights(ctl)
    requires cs[i].etaH <= cs[j].etaH && cs[i].waitH <= cs[j].waitH && cs[i].costUsd <= cs[j].costUsd && cs[i].co2T <= cs[j].co2T
    ensures ScoreTable(cs, ctl)[i].score <= ScoreTable(cs, ctl)[j].score
  {
    NormColMonotone(Etas(cs), i, j);
    NormColMonotone(Waits(cs), i, j);
    NormColMonotone(Costs(cs), i, j);
    NormColMonotone(Co2s(cs), i, j);
    var a := ScoreTable(cs, ctl)[i];
    var b := ScoreTable(cs, ctl)[j];
    ScoreMonotone(a.etaNorm, a.waitNorm, a.costNorm, a.co2Norm, b.etaNorm, b.waitNorm, b.costNorm, b.co2Norm, ctl);
  }

  // ---------------------------------------------------------------- ranking

  predicate SortedByScore(t: seq<Scored>)
  {
    forall i, j :: 0 <= i < j < |t| ==> t[i].score <= t[j].score
  }

  /** A row no worse than every row of a sorted table can go in front of it. */
  lemma ConsSorted(h: Scored, t: seq<Scored>)
    requires SortedByScore(t) && forall y :: y in t ==> h.score <= y.score
    ensures SortedByScore([h] + t)
  {
    var r := [h] + t;
    forall i, j | 0 <= i < j < |r| ensures r[i].score <= r[j].score {
      assert r[j] == t[j - 1];
      if i > 0 {
        assert r[i] == t[i - 1];
      }
    }
  }

  /** The first row of a sorted table scores no more than any later one. */
  lemma HeadBelowTail(t: seq<Scored>)
    requires SortedByScore(t) && t != []
    ensures forall y :: y in t[1..] ==> t[0].score <= y.score
  {
    forall y | y in t[1..]
      ensures t[0].score <= y.score
    {
      var k :| 0 <= k < |t| - 1 && t[1..][k] == y;
      assert t[k + 1] == y;
    }
  }

  /** `x` inserted into a sorted table after every row with a score not above its own. */
  function Insert(x: Scored, t: seq<Scored>): (r: seq<Scored>)
    requires SortedByScore(t)
    ensures |r| == |t| + 1
    ensures multiset(r) == multiset(t) + multiset{x}
    ensures forall y :: y in r ==> y == x || y in t
    ensures SortedByScore(r)
  {
    if t == [] then [x]
    else if t[0].score <= x.score then
      var rest := Insert(x, t[1..]);
      assert t == [t[0]] + t[1..];
      HeadBelowTail(t);
      ConsSorted(t[0], rest);
      [t[0]] + rest
    else
      ConsSorted(x, t);
      [x] + t
  }

  /** `sort_values("score")`: the table in ascending score order. */
  function SortByScore(t: seq<Scored>): (r: seq<Scored>)
    ensures |r| == |t| && SortedByScore(r) && multiset(r) == multiset(t)
  {
    if t == [] then []
    else
      assert t == [t[0]] + t[1..];
      Insert(t[0], SortByScore(t[1..]))
  }

  /** The first row of the sorted table has the smallest score of the table. */
  lemma BestIsMinimal(t: seq<Scored>)
    requires t != []
    ensures forall x :: x in t ==> SortByScore(t)[0].score <= x.score
  {
    var r := SortByScore(t);
    forall x | x in t ensures r[0].score <= x.score {
      assert x in multiset(r);
      var k :| 0 <= k < |r| && r[k] == x;
    }
  }

  /** The outcome: nothing to show, the ranked table and its best row, or an error the source raises. */
  datatype Evaluation = NoResult | Ranked(table: seq<Scored>, best: Scored) | Failed

  /** The ranking of a non-empty results list. */
  function Rank(results: seq<Candidate>, ctl: Controls): (e: Evaluation)
    ensures results == [] ==> e == NoResult
    ensures results != [] ==> e.Ranked? && |e.table| == |results| && e.best == e.table[0]
    ensures results != [] ==> SortedByScore(e.table) && multiset(e.table) == multiset(ScoreTable(results, ctl))
    ensures results != [] ==> forall x :: x in ScoreTable(results, ctl) ==> e.best.score <= x.score
  {
    if results == [] then NoResult
    else
      var t := SortByScore(ScoreTable(results, ctl));
      BestIsMinimal(ScoreTable(results, ctl));
      Ranked(t, t[0])
  }

  /** The inputs of the evaluation besides the route summary. */
  datatype Inputs = Inputs(wpi: Gazetteer.Wpi, ship: Voyage.Ship, data: CongestionData, ctl: Controls, env: Env)
  {
    ghost predicate Valid() { data.Valid() }
  }

  /** The destination with the " (baseline)" marker removed, used to find the baseline row. */
  function BaselineName(dest: string): string
  {
    RemoveAll(dest, BaselineSuffix)
  }

  /** The candidates after the radius filter: filtered around the baseline row, or the pool itself without one. */
  function Filtered(pool: seq<string>, baselineRow: Option<Row>, rows: seq<Row>, ctl: Controls, env: Env): Outcome<seq<string>>
  {
    match baselineRow
    case None => Done(pool)
    case Some(brow) =>
      match Coords.LatLonFromRow(brow)
      case None => Raised
      case Some(b) => RadiusFiltered(pool, Located(rows), b, ctl.radiusNm, env.haversineNm)
  }

  /** `evaluate_portswitch`, stage by stage. */
  function EvaluationOf(routeInfo: Option<Voyage.RouteInfo>, inp: Inputs): Evaluation
    requires inp.Valid()
  {
    if routeInfo.None? then NoResult
    else
      var ri := routeInfo.value;
      if ri.coords == [] then Failed
      else
        var origin := (ri.coords[0].1, ri.coords[0].0);
        var baselineRow := Gazetteer.RowByMain(BaselineName(ri.destination), inp.wpi.rows);
        var country := BaselineCountry(baselineRow, inp.wpi.countryCol);
        var pool := Pool(PoolBase(inp.wpi, country, inp.ctl.sameCountryOnly), ri.destination);
        match Filtered(pool, baselineRow, inp.wpi.rows, inp.ctl, inp.env)
        case Raised => Failed
        case Done(kept) =>
          var cands := DropName(kept, ri.origin);
          if cands == [] then NoResult
          else
            match Assessed(cands, Located(inp.wpi.rows), origin, inp.ship, inp.data, inp.ctl.fuzzyThreshold, inp.env)
            case Raised => Failed
            case Done(results) => Rank(results, inp.ctl)
  }

  /** `evaluate_portswitch`. */
  method Evaluate(routeInfo: Option<Voyage.RouteInfo>, inp: Inputs) returns (e: Evaluation)
    requires inp.Valid()
    ensures e == EvaluationOf(routeInfo, inp)
  {
    if routeInfo.None? {
      return NoResult;
    }
    var ri := routeInfo.value;
    if ri.coords == [] {
      return Failed;
    }
    var origin := (ri.coords[0].1, ri.coords[0].0);
    var baselineRow := Gazetteer.GetRowByMain(BaselineName(ri.destination), inp.wpi.rows);
    var country := BaselineCountry(baselineRow, inp.wpi.countryCol);
    var pool := Pool(PoolBase(inp.wpi, country, inp.ctl.sameCountryOnly), ri.destination);
    var kept: seq<string>;
    if baselineRow.Some? {
      var b := Coords.LatLonFromRow(baselineRow.value);
      if b.None? {
        return Failed;
      }
      var filtered := FilterByRadius(pool, Located(inp.wpi.rows), b.value, inp.ctl.radiusNm, inp.env.haversineNm);
      if filtered.Raised? {
        return Failed;
      }
      kept := filtered.value;
    } else {
      kept := pool;
    }
    var cands := DropName(kept, ri.origin);
    if cands == [] {
      return NoResult;
    }
    var results := AssessAll(cands, Located(inp.wpi.rows), origin, inp.ship, inp.data, inp.ctl.fuzzyThreshold, inp.env);
    if results.Raised? {
      return Failed;
    }
    return Rank(results.value, inp.ctl);
  }

  /** A ranked evaluation never offers the origin, is in ascending score order, and its best row has the least score. */
  lemma RankedProperties(routeInfo: Option<Voyage.RouteInfo>, inp: Inputs)
    requires inp.Valid()
    requires EvaluationOf(routeInfo, inp).Ranked?
    ensures var e := EvaluationOf(routeInfo, inp);
            && routeInfo.Some?
            && (forall x :: x in e.table ==> x.c.port != routeInfo.value.origin)
            && (forall x :: x in e.table ==> e.best.score <= x.score)
            && SortedByScore(e.table)
  {
    var ri := routeInfo.value;
    var origin := (ri.coords[0].1, ri.coords[0].0);
    var baselineRow := Gazetteer.RowByMain(BaselineName(ri.destination), inp.wpi.rows);
    var country := BaselineCountry(baselineRow, inp.wpi.countryCol);
    var pool := Pool(PoolBase(inp.wpi, country, inp.ctl.sameCountryOnly), ri.destination);
    var kept := Filtered(pool, baselineRow, inp.wpi.rows, inp.ctl, inp.env).value;
    var cands := DropName(kept, ri.origin);
    var results := Assessed(cands, Located(inp.wpi.rows), origin, inp.ship, inp.data, inp.ctl.fuzzyThreshold, inp.env).value;
    AssessedPorts(cands, Located(inp.wpi.rows), origin, inp.ship, inp.data, inp.ctl.fuzzyThreshold, inp.env);
    var e := Rank(results, inp.ctl);
    var st := ScoreTable(results, inp.ctl);
    forall x | x in e.table ensures x.c.port != ri.origin {
      assert x in multiset(st);
      var i :| 0 <= i < |st| && st[i] == x;
      assert x.c == results[i];
      assert results[i] in results;
    }
  }
}
