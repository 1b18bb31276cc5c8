/**
 * The fuel, CO2 and cost arithmetic shared by the route summary in app.py
 * and the candidate evaluation in portswitch.py: a voyage of some hours
 * burns the daily consumption for that many days, emits the emission
 * factor times the fuel and costs the fuel price times the fuel.
 */
module Voyage {
  import opened Wrappers
  import Routing

  /** The ship and fuel parameters the user sets. */
  datatype Ship = Ship(speedKn: real, consTpd: real, efCo2: real, fuelPrice: real)

  /** Fuel in tonnes, CO2 in tonnes, fuel cost in USD. */
  datatype Footprint = Footprint(fuel: real, co2: real, cost: real)

  /** The footprint of `hours` at sea: days = hours / 24, fuel = consumption x days. */
  function FootprintOf(ship: Ship, hours: real): (f: Footprint)
    ensures f.fuel * 24.0 == ship.consTpd * hours
    ensures f.co2 == f.fuel * ship.efCo2 && f.cost == f.fuel * ship.fuelPrice
  {
    var fuel := ship.consTpd * (hours / 24.0);
    Footprint(fuel, fuel * ship.efCo2, fuel * ship.fuelPrice)
  }

  /** Footprints add up: two stretches of time cost what their sum costs. */
  lemma FootprintAdditive(ship: Ship, h1: real, h2: real)
    ensures FootprintOf(ship, h1 + h2).fuel == FootprintOf(ship, h1).fuel + FootprintOf(ship, h2).fuel
    ensures FootprintOf(ship, h1 + h2).co2 == FootprintOf(ship, h1).co2 + FootprintOf(ship, h2).co2
    ensures FootprintOf(ship, h1 + h2).cost == FootprintOf(ship, h1).cost + FootprintOf(ship, h2).cost
  {
    var f1 := FootprintOf(ship, h1).fuel;
    var f2 := FootprintOf(ship, h2).fuel;
    var f := FootprintOf(ship, h1 + h2).fuel;
    assert f == f1 + f2;
    assert f * ship.efCo2 == f1 * ship.efCo2 + f2 * ship.efCo2;
    assert f * ship.fuelPrice == f1 * ship.fuelPrice + f2 * ship.fuelPrice;
  }

  /** With non-negative parameters, a longer voyage never burns, emits or costs less. */
  lemma FootprintMonotone(ship: Ship, h1: real, h2: real)
    requires ship.consTpd >= 0.0 && ship.efCo2 >= 0.0 && ship.fuelPrice >= 0.0 && h1 <= h2
    ensures FootprintOf(ship, h1).fuel <= FootprintOf(ship, h2).fuel
    ensures FootprintOf(ship, h1).co2 <= FootprintOf(ship, h2).co2
    ensures FootprintOf(ship, h1).cost <= FootprintOf(ship, h2).cost
  {
    FootprintAdditive(ship, h1, h2 - h1);
    var d := FootprintOf(ship, h2 - h1);
    assert d.fuel >= 0.0 && d.co2 >= 0.0 && d.cost >= 0.0;
  }

  /** The voyage footprint: its ETA (0 when the speed is not positive) priced as above. */
  function VoyageFootprint(ship: Ship, distNm: real): (f: Footprint)
    ensures ship.speedKn <= 0.0 ==> f == Footprint(0.0, 0.0, 0.0)
    ensures ship.speedKn > 0.0 ==> f.fuel * 24.0 * ship.speedKn == ship.consTpd * distNm
  {
    var h := Routing.EtaOrZero(distNm, ship.speedKn);
    var f := FootprintOf(ship, h);
    assert f.fuel * 24.0 * ship.speedKn == ship.consTpd * (h * ship.speedKn);
    f
  }

  /** 9000 NM at 18 kn on 30 t/day, factor 3.114 and $600/t: 500 h, 625 t fuel, 1946.25 t CO2, $375,000. */
  lemma WorkedExample()
    ensures Routing.EtaOrZero(9000.0, 18.0) == 500.0
    ensures VoyageFootprint(Ship(18.0, 30.0, 3.114, 600.0), 9000.0) == Footprint(625.0, 1946.25, 375000.0)
  {
    assert Routing.EtaOrZero(9000.0, 18.0) * 18.0 == 9000.0;
  }

  /** The smallest distance the intensity divides by. */
  const MinIntensityDistance: real := 0.000001

  /** `co2 * 1000 / max(dist_nm, 1e-6)`: kilograms of CO2 per nautical mile. */
  function Co2Intensity(co2: real, distNm: real): (r: real)
    ensures distNm >= MinIntensityDistance ==> r * distNm == co2 * 1000.0
    ensures distNm < MinIntensityDistance ==> r * MinIntensityDistance == co2 * 1000.0
  {
    var d := if distNm > MinIntensityDistance then distNm else MinIntensityDistance;
    co2 * 1000.0 / d
  }

  /** One leg of the route summary: its end points' names and its length. */
  datatype LegSummary = LegSummary(from: string, to: string, km: real, nm: real)

  /** The route summary the app keeps between reruns (`route_info`). */
  datatype RouteInfo = RouteInfo(
    origin: string, destination: string,
    distanceKm: real, distanceNm: real, etaHours: Option<real>,
    legs: seq<LegSummary>, riskHits: nat, totalIncidents: nat,
    coords: seq<Routing.Pair>, footprint: Footprint, co2Intensity: real)
}
