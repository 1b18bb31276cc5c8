/**
 * Route assembly in app.py: the path through the intermediate stops (with
 * the optional search over their orders), the legs' concatenation into one
 * vertex list with km and NM totals, the ETA, fuel, CO2, cost and piracy
 * summary, the alternate destination, and the "Choose Best Route" update of
 * the session's route summary.
 *
 * The sea-route library, the gazetteer lookup of a stop and the geometry
 * test of the piracy count are parameters.
 */
module App {
  import opened Wrappers
  import Routing
  import Voyage
  import Risk
  import PortSwitch

  type Pair = Routing.Pair

  /** A path point: (lat, lon, name). */
  datatype Point = Point(lat: real, lon: real, name: string)

  // ---------------------------------------------------------------- permutations

  /** `xs` without its element at `i`. */
  function RemoveAt(xs: seq<string>, i: nat): (r: seq<string>)
    requires i < |xs|
    ensures |r| == |xs| - 1
  {
    xs[..i] + xs[i + 1..]
  }

  /** Removing one position removes one occurrence of its element. */
  lemma RemoveAtMultiset(xs: seq<string>, i: nat)
    requires i < |xs|
    ensures multiset(RemoveAt(xs, i)) == multiset(xs) - multiset{xs[i]}
  {
    assert xs == xs[..i] + [xs[i]] + xs[i + 1..];
  }

  /** Every list of `ps` with `x` in front. */
  function Prepend(x: string, ps: seq<seq<string>>): (r: seq<seq<string>>)
    ensures |r| == |ps| && forall k :: 0 <= k < |ps| ==> r[k] == [x] + ps[k]
  {
    seq(|ps|, k requires 0 <= k < |ps| => [x] + ps[k])
  }

  /** `itertools.permutations(xs)`: every ordering, in lexicographic order of positions. */
  function Permutations(xs: seq<string>): seq<seq<string>>
    decreases |xs|, |xs| + 1
  {
    if xs == [] then [[]] else PermutationsFrom(xs, 0)
  }

  /** The orderings that start with `xs[i]`, then those that start with `xs[i + 1]`, and so on. */
  function PermutationsFrom(xs: seq<string>, i: nat): seq<seq<string>>
    requires i <= |xs|
    decreases |xs|, |xs| - i
  {
    if i == |xs| then [] else Prepend(xs[i], Permutations(RemoveAt(xs, i))) + PermutationsFrom(xs, i + 1)
  }

  /** Every ordering produced holds exactly the elements of `xs`. */
  lemma {:induction false} PermutationsSound(xs: seq<string>)
    ensures forall p :: p in Permutations(xs) ==> multiset(p) == multiset(xs)
    decreases |xs|, |xs| + 1
  {
    if xs != [] {
      PermutationsFromSound(xs, 0);
    }
  }

  lemma {:induction false} PermutationsFromSound(xs: seq<string>, i: nat)
    requires i <= |xs|
    ensures forall p :: p in PermutationsFrom(xs, i) ==> multiset(p) == multiset(xs)
    decreases |xs|, |xs| - i
  {
    if i < |xs| {
      var rest := RemoveAt(xs, i);
      RemoveAtMultiset(xs, i);
      PermutationsSound(rest);
      PermutationsFromSound(xs, i + 1);
      PrependKeeps(xs[i], Permutations(rest), multiset(rest));
    }
  }

  lemma PrependKeeps(x: string, ps: seq<seq<string>>, m: multiset<string>)
    requires forall p :: p in ps ==> multiset(p) == m
    ensures forall p :: p in Prepend(x, ps) ==> multiset(p) == multiset{x} + m
  {
    forall p | p in Prepend(x, ps) ensures multiset(p) == multiset{x} + m {
      var k :| 0 <= k < |ps| && Prepend(x, ps)[k] == p;
      assert ps[k] in ps;
    }
  }

  /** Every ordering of the elements of `xs` is produced. */
  lemma {:induction false} PermutationsComplete(xs: seq<string>, ys: seq<string>)
    requires multiset(ys) == multiset(xs)
    ensures ys in Permutations(xs)
    decreases |xs|
  {
    if xs == [] {
      assert |ys| == |multiset(ys)| == 0;
    } else {
      assert |ys| == |multiset(ys)| == |xs|;
      assert ys[0] in multiset(xs);
      var i :| 0 <= i < |xs| && xs[i] == ys[0];
      RemoveAtMultiset(xs, i);
      assert ys == [ys[0]] + ys[1..];
      assert multiset(ys[1..]) == multiset(RemoveAt(xs, i));
      PermutationsComplete(RemoveAt(xs, i), ys[1..]);
      PermutationsFromHas(xs, 0, i, ys[1..]);
    }
  }

  lemma {:induction false} PermutationsFromHas(xs: seq<string>, j: nat, i: nat, q: seq<string>)
    requires j <= i < |xs| && q in Permutations(RemoveAt(xs, i))
    ensures [xs[i]] + q in PermutationsFrom(xs, j)
    decreases i - j
  {
    if j < i {
      PermutationsFromHas(xs, j + 1, i, q);
    } else {
      var ps := Permutations(RemoveAt(xs, i));
      var k :| 0 <= k < |ps| && ps[k] == q;
      assert Prepend(xs[i], ps)[k] == [xs[i]] + q;
    }
  }

  /** n!, each factor applied as a repeated sum so that counting stays linear. */
  function Factorial(n: nat): nat
  {
    if n == 0 then 1 else Times(n, Factorial(n - 1))
  }

  /** n stops have n! orderings. */
  lemma {:induction false} PermutationsCount(xs: seq<string>)
    ensures |Permutations(xs)| == Factorial(|xs|)
    decreases |xs|, |xs| + 1
  {
    if xs != [] {
      PermutationsFromCount(xs, 0);
    }
  }

  lemma {:induction false} PermutationsFromCount(xs: seq<string>, i: nat)
    requires 0 < |xs| && i <= |xs|
    ensures |PermutationsFrom(xs, i)| == Times(|xs| - i, Factorial(|xs| - 1))
    decreases |xs|, |xs| - i
  {
    if i < |xs| {
      PermutationsCount(RemoveAt(xs, i));
      PermutationsFromCount(xs, i + 1);
      PermutationsFromLength(xs, i);
    }
  }

  lemma PermutationsFromLength(xs: seq<string>, i: nat)
    requires i < |xs|
    ensures |PermutationsFrom(xs, i)| == |Permutations(RemoveAt(xs, i))| + |PermutationsFrom(xs, i + 1)|
  {
  }

  /** `n * f` as repeated addition, one ordering block at a time. */
  function Times(n: nat, f: nat): nat
  {
    if n == 0 then 0 else f + Times(n - 1, f)
  }

  lemma {:induction false} TimesIsProduct(n: nat, f: nat)
    ensures Times(n, f) == n * f
  {
    if n > 0 {
      TimesIsProduct(n - 1, f);
      assert n * f == f + (n - 1) * f;
    }
  }

  lemma FactorialProduct(n: nat)
    requires n > 0
    ensures Factorial(n) == n * Factorial(n - 1)
  {
    TimesIsProduct(n, Factorial(n - 1));
  }

  // ---------------------------------------------------------------- resolving a candidate path

  /** The names the search tries for one ordering of the stops. */
  function Names(o: Point, perm: seq<string>, d: Point): (ns: seq<string>)
    ensures |ns| == |perm| + 2 && ns[0] == o.name && ns[|ns| - 1] == d.name
  {
    [o.name] + perm + [d.name]
  }

  /** One name of the path: the origin's or destination's point by name, otherwise its gazetteer coordinates. */
  function ResolveName(nm: string, o: Point, d: Point, locate: PortSwitch.Locator): (r: Outcome<Option<Point>>)
    ensures r.Done? && r.value.Some? ==> r.value.value.name == nm
    ensures nm == o.name ==> r == Done(Some(o))
    ensures nm != o.name && nm == d.name ==> r == Done(Some(d))
    ensures nm != o.name && nm != d.name ==>
              && (r.Raised? <==> locate(nm).Raised?)
              && (r == Done(None) <==> locate(nm) == Done(None))
              && (r.Done? && r.value.Some? ==> locate(nm) == Done(Some((r.value.value.lat, r.value.value.lon))))
  {
    if nm == o.name then Done(Some(o))
    else if nm == d.name then Done(Some(d))
    else
      match locate(nm)
      case Raised => Raised
      case Done(None) => Done(None)
      case Done(Some(pt)) => Done(Some(Point(pt.0, pt.1, nm)))
  }

  /** Name `k` is the first of `ns` that does not resolve to a point. */
  ghost predicate FirstUnresolved(ns: seq<string>, k: int, o: Point, d: Point, locate: PortSwitch.Locator)
  {
    && 0 <= k < |ns|
    && !(ResolveName(ns[k], o, d, locate).Done? && ResolveName(ns[k], o, d, locate).value.Some?)
    && forall i :: 0 <= i < k ==> ResolveName(ns[i], o, d, locate).Done? && ResolveName(ns[i], o, d, locate).value.Some?
  }

  /** The resolved path, None at the first name without a row, Raised when coordinates do not parse first. */
  function ResolveAll(ns: seq<string>, o: Point, d: Point, locate: PortSwitch.Locator): (r: Outcome<Option<seq<Point>>>)
    ensures r.Done? && r.value.Some? ==> |r.value.value| == |ns|
    ensures r.Done? && r.value.Some? ==> forall i :: 0 <= i < |ns| ==> r.value.value[i].name == ns[i]
    ensures r.Done? && r.value.Some? ==> forall i :: 0 <= i < |ns| ==> ResolveName(ns[i], o, d, locate) == Done(Some(r.value.value[i]))
  {
    if ns == [] then Done(Some([]))
    else
      var pre := ns[..|ns| - 1];
      match ResolveAll(pre, o, d, locate)
      case Raised => Raised
      case Done(None) => Done(None)
      case Done(Some(ps)) =>
        assert forall i :: 0 <= i < |pre| ==> pre[i] == ns[i];
        match ResolveName(ns[|ns| - 1], o, d, locate)
        case Raised => Raised
        case Done(None) => Done(None)
        case Done(Some(p)) => Done(Some(ps + [p]))
  }

  /** The path fails exactly when some name does not resolve, and the first such name decides how. */
  lemma {:induction false} ResolveAllFirstFailure(ns: seq<string>, o: Point, d: Point, locate: PortSwitch.Locator)
    ensures var r := ResolveAll(ns, o, d, locate);
            !(r.Done? && r.value.Some?) <==> exists k :: FirstUnresolved(ns, k, o, d, locate)
    ensures var r := ResolveAll(ns, o, d, locate);
            forall k :: FirstUnresolved(ns, k, o, d, locate) ==> (r.Raised? <==> ResolveName(ns[k], o, d, locate).Raised?)
  {
    if ns != [] {
      var pre := ns[..|ns| - 1];
      ResolveAllFirstFailure(pre, o, d, locate);
      assert forall i :: 0 <= i < |pre| ==> pre[i] == ns[i];
      assert forall k :: FirstUnresolved(pre, k, o, d, locate) ==> FirstUnresolved(ns, k, o, d, locate);
      var last := ResolveName(ns[|ns| - 1], o, d, locate);
      if ResolveAll(pre, o, d, locate).Done? && ResolveAll(pre, o, d, locate).value.Some? && !(last.Done? && last.value.Some?) {
        assert FirstUnresolved(ns, |ns| - 1, o, d, locate);
      }
    }
  }

  /** Once a prefix fails, the whole list fails the same way. */
  lemma {:induction false} ResolvePrefixFails(ns: seq<string>, k: nat, o: Point, d: Point, locate: PortSwitch.Locator)
    requires k <= |ns| && !(ResolveAll(ns[..k], o, d, locate).Done? && ResolveAll(ns[..k], o, d, locate).value.Some?)
    ensures ResolveAll(ns, o, d, locate) == ResolveAll(ns[..k], o, d, locate)
    decreases |ns| - k
  {
    if k < |ns| {
      assert ns[..k + 1][..k] == ns[..k];
      ResolvePrefixFails(ns, k + 1, o, d, locate);
    } else {
      assert ns[..k] == ns;
    }
  }

  /** The resolving loop over the names of one ordering. */
  method ResolvePath(ns: seq<string>, o: Point, d: Point, locate: PortSwitch.Locator) returns (r: Outcome<Option<seq<Point>>>)
    ensures r == ResolveAll(ns, o, d, locate)
  {
    var resolved: seq<Point> := [];
    for i := 0 to |ns|
      invariant ResolveAll(ns[..i], o, d, locate) == Done(Some(resolved))
    {
      assert ns[..i + 1][..i] == ns[..i];
      var nm := ns[i];
      if nm == o.name {
        resolved := resolved + [o];
        continue;
      }
      if nm == d.name {
        resolved := resolved + [d];
        continue;
      }
      var loc := locate(nm);
      if loc.Raised? {
        ResolvePrefixFails(ns, i + 1, o, d, locate);
        return Raised;
      }
      if loc.value.None? {
        ResolvePrefixFails(ns, i + 1, o, d, locate);
        return Done(None);
      }
      resolved := resolved + [Point(loc.value.value.0, loc.value.value.1, nm)];
    }
    assert ns[..|ns|] == ns;
    return Done(Some(resolved));
  }

  // ---------------------------------------------------------------- path length

  /** The route between two path points. */
  function LegOf(a: Point, b: Point, route: Routing.Searoute): Routing.Leg
  {
    Routing.ComputeRoute(route, a.lat, a.lon, b.lat, b.lon)
  }

  /** The NM total of the legs between consecutive points. */
  function PathNm(ps: seq<Point>, route: Routing.Searoute): real
  {
    if |ps| < 2 then 0.0
    else PathNm(ps[..|ps| - 1], route) + LegOf(ps[|ps| - 2], ps[|ps| - 1], route).nm
  }

  /** The NM-summing loop of the search. */
  method SumNm(ps: seq<Point>, route: Routing.Searoute) returns (total: real)
    ensures total == PathNm(ps, route)
  {
    total := 0.0;
    if |ps| == 0 {
      return;
    }
    for i := 0 to |ps| - 1
      invariant total == PathNm(ps[..i + 1], route)
    {
      var leg := Routing.ComputeRoute(route, ps[i].lat, ps[i].lon, ps[i + 1].lat, ps[i + 1].lon);
      assert ps[..i + 2][..i + 1] == ps[..i + 1];
      total := total + leg.nm;
    }
    assert ps[..|ps|] == ps;
  }

  // ---------------------------------------------------------------- the best ordering

  /** The winning ordering: its position among the orderings, its NM total and its path. */
  datatype Choice = Choice(index: nat, nm: real, path: seq<Point>)

  /** A resolved path's NM total. */
  predicate Resolves(t: Outcome<Option<seq<Point>>>)
  {
    t.Done? && t.value.Some?
  }

  /** The first ordering with the strictly smallest NM total among those that resolve; Raised at the first raise. */
  function BestOf(tries: seq<Outcome<Option<seq<Point>>>>, route: Routing.Searoute): (r: Outcome<Option<Choice>>)
    ensures r.Raised? <==> exists j :: 0 <= j < |tries| && tries[j].Raised?
    ensures r == Done(None) <==> forall j :: 0 <= j < |tries| ==> tries[j] == Done(None)
    ensures r.Done? && r.value.Some? ==>
      var c := r.value.value;
      && c.index < |tries| && tries[c.index] == Done(Some(c.path)) && c.nm == PathNm(c.path, route)
      && (forall j :: 0 <= j < |tries| && Resolves(tries[j]) ==> c.nm <= PathNm(tries[j].value.value, route))
      && (forall j :: 0 <= j < c.index && Resolves(tries[j]) ==> c.nm < PathNm(tries[j].value.value, route))
  {
    if tries == [] then Done(None)
    else
      var n := |tries| - 1;
      var prev := BestOf(tries[..n], route);
      assert forall j :: 0 <= j < n ==> tries[..n][j] == tries[j];
      BestStep(prev, tries[n], n, route)
  }

  /** One step of the search: ordering `n`, resolved as `t`, against the best so far. */
  function BestStep(prev: Outcome<Option<Choice>>, t: Outcome<Option<seq<Point>>>, n: nat, route: Routing.Searoute)
    : Outcome<Option<Choice>>
  {
    match prev
    case Raised => Raised
    case Done(b) =>
      match t
      case Raised => Raised
      case Done(None) => Done(b)
      case Done(Some(ps)) =>
        var s := PathNm(ps, route);
        if b.None? || s < b.value.nm then Done(Some(Choice(n, s, ps))) else Done(b)
  }

  /** The search over one more ordering is one more step. */
  lemma BestOfSnoc(tries: seq<Outcome<Option<seq<Point>>>>, i: nat, route: Routing.Searoute)
    requires i < |tries|
    ensures BestOf(tries[..i + 1], route) == BestStep(BestOf(tries[..i], route), tries[i], i, route)
  {
    assert tries[..i + 1][..i] == tries[..i];
  }

  /** The resolution of every ordering of the stops, in `itertools` order. */
  function Tries(perms: seq<seq<string>>, o: Point, d: Point, locate: PortSwitch.Locator): (ts: seq<Outcome<Option<seq<Point>>>>)
    ensures |ts| == |perms| && forall k :: 0 <= k < |perms| ==> ts[k] == ResolveAll(Names(o, perms[k], d), o, d, locate)
  {
    seq(|perms|, k requires 0 <= k < |perms| => ResolveAll(Names(o, perms[k], d), o, d, locate))
  }

  /** The search loop over the orderings of the stops. */
  method BestOrder(stops: seq<string>, o: Point, d: Point, locate: PortSwitch.Locator, route: Routing.Searoute)
    returns (r: Outcome<Option<seq<Point>>>)
    ensures var b := BestOf(Tries(Permutations(stops), o, d, locate), route);
            && (b.Raised? ==> r.Raised?)
            && (b == Done(None) ==> r == Done(None))
            && (b.Done? && b.value.Some? ==> r == Done(Some(b.value.value.path)))
  {
    var perms := Permutations(stops);
    ghost var tries := Tries(perms, o, d, locate);
    var best: Option<(real, seq<Point>)> := None;
    ghost var b: Outcome<Option<Choice>> := Done(None);
    for i := 0 to |perms|
      invariant b == BestOf(tries[..i], route) && b.Done?
      invariant best.None? <==> b.value.None?
      invariant best.Some? ==> best.value.0 == b.value.value.nm && best.value.1 == b.value.value.path
    {
      BestOfSnoc(tries, i, route);
      var resolved := ResolvePath(Names(o, perms[i], d), o, d, locate);
      if resolved.Raised? {
        assert tries[i].Raised?;
        BestRaisedAfter(tries, i + 1, route);
        return Raised;
      }
      b := BestStep(b, tries[i], i, route);
      if resolved.value.None? {
        continue;
      }
      var nmSum := SumNm(resolved.value.value, route);
      if best.None? || nmSum < best.value.0 {
        best := Some((nmSum, resolved.value.value));
      }
    }
    assert tries[..|perms|] == tries;
    if best.None? {
      return Done(None);
    }
    return Done(Some(best.value.1));
  }

  /** A raise among the orderings tried so far makes the whole search raise. */
  lemma BestRaisedAfter(tries: seq<Outcome<Option<seq<Point>>>>, k: nat, route: Routing.Searoute)
    requires 0 < k <= |tries| && tries[k - 1].Raised?
    ensures BestOf(tries, route).Raised?
  {
  }

  // ---------------------------------------------------------------- the chosen path

  /** Whether the stops are in play: list mode, some stops, and optimisation allowed. */
  datatype PathMode = PathMode(listMode: bool, allowOpt: bool, optimize: bool)

  /** The path the app builds: origin to destination without stops; the best ordering when optimising; else the origin alone. */
  function ChosenPath(o: Point, d: Point, stops: seq<string>, m: PathMode, locate: PortSwitch.Locator, route: Routing.Searoute)
    : (r: Outcome<seq<Point>>)
    ensures !(m.listMode && stops != [] && m.allowOpt) ==> r == Done([o, d])
    ensures m.listMode && stops != [] && m.allowOpt && !m.optimize ==> r == Done([o])
  {
    if m.listMode && stops != [] && m.allowOpt then
      if m.optimize then
        match BestOf(Tries(Permutations(stops), o, d, locate), route)
        case Raised => Raised
        case Done(None) => Done([o])
        case Done(Some(c)) => Done(c.path)
      else Done([o])
    else Done([o, d])
  }

  /** An optimised path runs from the origin through every stop once, in some order, to the destination. */
  lemma OptimisedPathShape(o: Point, d: Point, stops: seq<string>, locate: PortSwitch.Locator, route: Routing.Searoute)
    requires BestOf(Tries(Permutations(stops), o, d, locate), route).Done?
    requires BestOf(Tries(Permutations(stops), o, d, locate), route).value.Some?
    ensures var c := BestOf(Tries(Permutations(stops), o, d, locate), route).value.value;
            var perm := Permutations(stops)[c.index];
            && multiset(perm) == multiset(stops)
            && |c.path| == |stops| + 2
            && c.path[0] == o && (o.name != d.name ==> c.path[|c.path| - 1] == d)
            && forall i :: 0 < i < |c.path| - 1 ==> c.path[i].name == perm[i - 1]
  {
    var perms := Permutations(stops);
    var c := BestOf(Tries(perms, o, d, locate), route).value.value;
    var perm := perms[c.index];
    PermutationsSound(stops);
    assert perm in perms;
    assert |perm| == |multiset(perm)| == |stops|;
    PathOfOrdering(o, perm, d, locate, c.path);
  }

  /** A resolved ordering gives the origin, the stops in that order, and the destination. */
  lemma PathOfOrdering(o: Point, perm: seq<string>, d: Point, locate: PortSwitch.Locator, path: seq<Point>)
    requires ResolveAll(Names(o, perm, d), o, d, locate) == Done(Some(path))
    ensures |path| == |perm| + 2
    ensures path[0] == o && (o.name != d.name ==> path[|path| - 1] == d)
    ensures forall i :: 0 < i < |path| - 1 ==> path[i].name == perm[i - 1]
  {
    var ns := Names(o, perm, d);
    assert forall i :: 0 < i < |ns| - 1 ==> ns[i] == perm[i - 1];
    ResolveEnds(ns, o, d, locate);
  }

  /** A resolved name list starting with the origin's name and ending with the destination's gives their points there. */
  lemma ResolveEnds(ns: seq<string>, o: Point, d: Point, locate: PortSwitch.Locator)
    requires |ns| >= 2 && ns[0] == o.name && ns[|ns| - 1] == d.name
    requires Resolves(ResolveAll(ns, o, d, locate))
    ensures var ps := ResolveAll(ns, o, d, locate).value.value;
            ps[0] == o && (d.name != o.name ==> ps[|ps| - 1] == d)
  {
    var init := ns[..|ns| - 1];
    var ps := ResolveAll(ns, o, d, locate).value.value;
    var pinit := ResolveAll(init, o, d, locate).value.value;
    assert ps == pinit + [ResolveName(ns[|ns| - 1], o, d, locate).value.value];
    ResolveFirst(init, o, d, locate);
  }

  lemma {:induction false} ResolveFirst(ns: seq<string>, o: Point, d: Point, locate: PortSwitch.Locator)
    requires |ns| >= 1 && ns[0] == o.name && Resolves(ResolveAll(ns, o, d, locate))
    ensures ResolveAll(ns, o, d, locate).value.value[0] == o
  {
    if |ns| > 1 {
      var init := ns[..|ns| - 1];
      ResolveFirst(init, o, d, locate);
    } else {
      assert ns[..0] == [];
    }
  }

  /** The search as the app runs it, with the path rule around it. */
  method ChoosePath(o: Point, d: Point, stops: seq<string>, m: PathMode, locate: PortSwitch.Locator, route: Routing.Searoute)
    returns (r: Outcome<seq<Point>>)
    ensures r == ChosenPath(o, d, stops, m, locate, route)
  {
    if m.listMode && stops != [] && m.allowOpt {
      if m.optimize {
        var best := BestOrder(stops, o, d, locate, route);
        if best.Raised? {
          return Raised;
        }
        if best.value.None? {
          return Done([o]);
        }
        return Done(best.value.value);
      }
      return Done([o]);
    }
    return Done([o, d]);
  }

  // ---------------------------------------------------------------- assembling the route

  /** `coords[1:]`. */
  function Tail(cs: seq<Pair>): seq<Pair>
  {
    if cs == [] then [] else cs[1..]
  }

  /** The concatenated vertices, the km and NM totals and the leg summaries of a path. */
  datatype Assembly = Assembly(coords: seq<Pair>, km: real, nm: real, legs: seq<Voyage.LegSummary>)

  /** The route through the path's points, leg by leg. */
  function Assembled(path: seq<Point>, route: Routing.Searoute): (a: Assembly)
  {
    if |path| < 2 then Assembly([], 0.0, 0.0, [])
    else
      var prev := Assembled(path[..|path| - 1], route);
      var a := path[|path| - 2];
      var b := path[|path| - 1];
      var leg := LegOf(a, b, route);
      var cs := if |path| == 2 then leg.coords else Tail(leg.coords);
      Assembly(prev.coords + cs, prev.km + leg.km, prev.nm + leg.nm, prev.legs + [Voyage.LegSummary(a.name, b.name, leg.km, leg.nm)])
  }

  /** One leg summary per consecutive pair of points. */
  lemma {:induction false} AssembledLegCount(path: seq<Point>, route: Routing.Searoute)
    ensures |Assembled(path, route).legs| == if |path| < 2 then 0 else |path| - 1
  {
    if |path| >= 2 {
      AssembledLegCount(path[..|path| - 1], route);
    }
  }

  /** Leg summary `i` names points `i` and `i + 1` and carries that leg's lengths. */
  lemma {:induction false} AssembledLeg(path: seq<Point>, route: Routing.Searoute, i: nat)
    requires i + 1 < |path|
    ensures |Assembled(path, route).legs| == |path| - 1
    ensures Assembled(path, route).legs[i] ==
      Voyage.LegSummary(path[i].name, path[i + 1].name, LegOf(path[i], path[i + 1], route).km, LegOf(path[i], path[i + 1], route).nm)
  {
    AssembledLegCount(path, route);
    var init := path[..|path| - 1];
    AssembledLegCount(init, route);
    if i + 2 < |path| {
      AssembledLeg(init, route, i);
      assert init[i] == path[i] && init[i + 1] == path[i + 1];
    }
  }

  /** The NM total is the sum the search computed, and it is the km total in nautical miles. */
  lemma {:induction false} AssembledTotals(path: seq<Point>, route: Routing.Searoute)
    ensures Assembled(path, route).nm == PathNm(path, route)
    ensures Routing.NmToKm(Assembled(path, route).nm) == Assembled(path, route).km
  {
    if |path| >= 2 {
      var init := path[..|path| - 1];
      AssembledTotals(init, route);
      var leg := LegOf(path[|path| - 2], path[|path| - 1], route);
      assert Routing.KmToNm(leg.km) == leg.nm;
      assert Routing.KmToNm(Assembled(init, route).km) == Assembled(init, route).nm;
    }
  }

  /** The vertex list starts with the whole first leg. */
  lemma {:induction false} AssembledStart(path: seq<Point>, route: Routing.Searoute)
    requires |path| >= 2
    ensures LegOf(path[0], path[1], route).coords <= Assembled(path, route).coords
  {
    if |path| > 2 {
      var init := path[..|path| - 1];
      AssembledStart(init, route);
      assert init[0] == path[0] && init[1] == path[1];
    }
  }

  /** The vertex list ends with the last vertex of the last leg, when that leg has at least two. */
  lemma AssembledEnd(path: seq<Point>, route: Routing.Searoute)
    requires |path| >= 2
    ensures var last := LegOf(path[|path| - 2], path[|path| - 1], route).coords;
            |last| >= 2 ==> Assembled(path, route).coords[|Assembled(path, route).coords| - 1] == last[|last| - 1]
  {
    var last := LegOf(path[|path| - 2], path[|path| - 1], route).coords;
    var prev := Assembled(path[..|path| - 1], route).coords;
    var cs := if |path| == 2 then last else Tail(last);
    assert Assembled(path, route).coords == prev + cs;
    if |last| >= 2 {
      assert cs != [] && cs[|cs| - 1] == last[|last| - 1];
    }
  }

  /** The path with a single point, as left when stops are given without optimisation, has no legs and no vertices. */
  lemma SinglePointRoute(o: Point, route: Routing.Searoute)
    ensures Assembled([o], route) == Assembly([], 0.0, 0.0, [])
  {
  }

  /** The assembling loop. */
  method BuildRoute(path: seq<Point>, route: Routing.Searoute) returns (a: Assembly)
    ensures a == Assembled(path, route)
  {
    var coords: seq<Pair> := [];
    var km := 0.0;
    var nm := 0.0;
    var legs: seq<Voyage.LegSummary> := [];
    if |path| == 0 {
      return Assembly(coords, km, nm, legs);
    }
    for i := 0 to |path| - 1
      invariant Assembled(path[..i + 1], route) == Assembly(coords, km, nm, legs)
    {
      var a := path[i];
      var b := path[i + 1];
      var leg := Routing.ComputeRoute(route, a.lat, a.lon, b.lat, b.lon);
      assert path[..i + 2][..i + 1] == path[..i + 1];
      coords := coords + (if i == 0 then leg.coords else Tail(leg.coords));
      km := km + leg.km;
      nm := nm + leg.nm;
      legs := legs + [Voyage.LegSummary(a.name, b.name, leg.km, leg.nm)];
    }
    assert path[..|path|] == path;
    return Assembly(coords, km, nm, legs);
  }

  // ---------------------------------------------------------------- the summary

  /** The route summary: totals, ETA (None when the speed is not positive), footprint, intensity and piracy count. */
  function Summary(originName: string, destName: string, a: Assembly, ship: Voyage.Ship, risk: (nat, nat)): (ri: Voyage.RouteInfo)
    ensures ri.distanceKm == a.km && ri.distanceNm == a.nm && ri.coords == a.coords && ri.legs == a.legs
    ensures ri.etaHours == Routing.EtaHours(a.nm, ship.speedKn)
    ensures ri.footprint == Voyage.VoyageFootprint(ship, a.nm)
    ensures a.nm >= Voyage.MinIntensityDistance ==> ri.co2Intensity * a.nm == ri.footprint.co2 * 1000.0
    ensures ri.riskHits == risk.0 && ri.totalIncidents == risk.1
    ensures ri.origin == originName && ri.destination == destName
    ensures a.nm < Voyage.MinIntensityDistance ==> ri.co2Intensity * Voyage.MinIntensityDistance == ri.footprint.co2 * 1000.0
  {
    var eta := Routing.EtaHours(a.nm, ship.speedKn);
    var fp := Voyage.FootprintOf(ship, eta.GetOr(0.0));
    Voyage.RouteInfo(originName, destName, a.km, a.nm, eta, a.legs, risk.0, risk.1, a.coords, fp, Voyage.Co2Intensity(fp.co2, a.nm))
  }

  /** The alternate destination's summary. */
  datatype AltInfo = AltInfo(
    origin: string, destination: string, distanceKm: real, distanceNm: real,
    etaHours: Option<real>, coords: seq<Pair>, footprint: Voyage.Footprint)

  /** The alternate target: its name and (lon, lat). */
  datatype AltTarget = AltTarget(name: string, lon: real, lat: real)

  /** The alternate route from the origin, priced like the main one without a wait; None without a target. */
  function AltOf(originName: string, o: Point, target: Option<AltTarget>, ship: Voyage.Ship, route: Routing.Searoute): (alt: Option<AltInfo>)
    ensures target.None? <==> alt.None?
    ensures alt.Some? ==> alt.value.destination == target.value.name && alt.value.origin == originName
    ensures alt.Some? ==> Routing.NmToKm(alt.value.distanceNm) == alt.value.distanceKm
    ensures alt.Some? ==> alt.value.footprint == Voyage.VoyageFootprint(ship, alt.value.distanceNm)
    ensures alt.Some? ==> var leg := Routing.ComputeRoute(route, o.lat, o.lon, target.value.lat, target.value.lon);
                          && alt.value.coords == leg.coords && alt.value.distanceKm == leg.km && alt.value.distanceNm == leg.nm
                          && alt.value.etaHours == Routing.EtaHours(leg.nm, ship.speedKn)
  {
    match target
    case None => None
    case Some(t) =>
      var leg := Routing.ComputeRoute(route, o.lat, o.lon, t.lat, t.lon);
      var eta := Routing.EtaHours(leg.nm, ship.speedKn);
      Some(AltInfo(originName, t.name, leg.km, leg.nm, eta, leg.coords, Voyage.FootprintOf(ship, eta.GetOr(0.0))))
  }

  /** What one press of "Compute / Update" works from, once the end points are resolved. */
  datatype Request = Request(
    origin: Point, dest: Point, stops: seq<string>, mode: PathMode, alt: Option<AltTarget>,
    ship: Voyage.Ship, piracy: Option<seq<Risk.Incident>>, bufferKm: real)

  /** The services the computation calls. */
  datatype Services = Services(route: Routing.Searoute, locate: PortSwitch.Locator, corridor: Risk.Corridor)

  /** The destination name after the path is chosen: the optimised path's last point's, otherwise the request's. */
  function DestName(req: Request, path: seq<Point>): string
  {
    if req.mode.listMode && req.stops != [] && req.mode.allowOpt && req.mode.optimize && |path| >= 2 then path[|path| - 1].name
    else req.dest.name
  }

  /** The route summary and alternate summary one computation produces, or Raised. */
  function Computed(req: Request, svc: Services): Outcome<(Voyage.RouteInfo, Option<AltInfo>)>
  {
    match ChosenPath(req.origin, req.dest, req.stops, req.mode, svc.locate, svc.route)
    case Raised => Raised
    case Done(path) =>
      var a := Assembled(path, svc.route);
      match Risk.PiracyCount(a.coords, req.piracy, req.bufferKm, svc.corridor)
      case Raised => Raised
      case Done(risk) =>
        Done((Summary(req.origin.name, DestName(req, path), a, req.ship, risk),
              AltOf(req.origin.name, req.origin, req.alt, req.ship, svc.route)))
  }

  /** Stops chosen without optimisation leave a route with no legs, and a non-empty piracy table then raises. */
  lemma StopsWithoutOptimisation(req: Request, svc: Services)
    requires req.mode.listMode && req.stops != [] && req.mode.allowOpt && !req.mode.optimize
    ensures req.piracy.Some? && req.piracy.value != [] ==> Computed(req, svc).Raised?
    ensures req.piracy.None? ==> Computed(req, svc).Done? && Computed(req, svc).value.0.legs == []
                                 && Computed(req, svc).value.0.coords == [] && Computed(req, svc).value.0.distanceNm == 0.0
  {
  }

  /** Without stops the summary is the single leg from origin to destination. */
  lemma DirectRoute(req: Request, svc: Services)
    requires !(req.mode.listMode && req.stops != [] && req.mode.allowOpt)
    requires Computed(req, svc).Done?
    ensures var ri := Computed(req, svc).value.0;
            var leg := LegOf(req.origin, req.dest, svc.route);
            && ri.origin == req.origin.name && ri.destination == req.dest.name
            && ri.coords == leg.coords && ri.distanceKm == leg.km && ri.distanceNm == leg.nm
            && ri.legs == [Voyage.LegSummary(req.origin.name, req.dest.name, leg.km, leg.nm)]
  {
    var path := [req.origin, req.dest];
    assert path[..1] == [req.origin];
    var leg := LegOf(req.origin, req.dest, svc.route);
    assert Assembled(path, svc.route) == Assembly(leg.coords, leg.km, leg.nm, [Voyage.LegSummary(req.origin.name, req.dest.name, leg.km, leg.nm)]);
  }

  // ---------------------------------------------------------------- the session

  /** The summary with the best PortSwitch candidate's route and figures in place of the destination's. */
  function WithBest(ri: Voyage.RouteInfo, best: PortSwitch.Scored): (r: Voyage.RouteInfo)
    ensures r.destination == best.c.port && r.distanceNm == best.c.distanceNm
    ensures Routing.KmToNm(r.distanceKm) == best.c.distanceNm
    ensures r.etaHours == Some(best.c.adjEtaH) && r.coords == best.c.coords
    ensures r.footprint == Voyage.Footprint(best.c.fuelT, best.c.co2T, best.c.costUsd)
    ensures r.origin == ri.origin && r.legs == ri.legs && r.riskHits == ri.riskHits
    ensures r.totalIncidents == ri.totalIncidents && r.co2Intensity == ri.co2Intensity
  {
    ri.(destination := best.c.port, distanceKm := best.c.distanceNm / Routing.NmPerKm, distanceNm := best.c.distanceNm,
        etaHours := Some(best.c.adjEtaH), footprint := Voyage.Footprint(best.c.fuelT, best.c.co2T, best.c.costUsd),
        coords := best.c.coords)
  }

  /** After choosing a candidate, the summary's km is the sea-route length of the candidate's route. */
  lemma ChosenKmIsRouteLength(ri: Voyage.RouteInfo, p: string, pt: Pair, origin: Pair, wait: real, ship: Voyage.Ship,
                              env: PortSwitch.Env, s: PortSwitch.Scored)
    requires s.c == PortSwitch.Assess(p, pt, origin, wait, ship, env)
    ensures WithBest(ri, s).distanceKm == env.route(Routing.QueryFor(origin.0, origin.1, pt.0, pt.1)).length
    ensures WithBest(ri, s).coords == env.route(Routing.QueryFor(origin.0, origin.1, pt.0, pt.1)).coords
  {
    Routing.KmNmRoundTrip(env.route(Routing.QueryFor(origin.0, origin.1, pt.0, pt.1)).length, s.c.distanceNm);
  }

  /** The app's session state: the route summary and the alternate summary kept between reruns. */
  class Session {
    var routeInfo: Option<Voyage.RouteInfo>
    var altInfo: Option<AltInfo>

    constructor ()
      ensures routeInfo == None && altInfo == None
    {
      routeInfo := None;
      altInfo := None;
    }

    /** "Compute / Update": both summaries replaced, or nothing changed when the computation raises. */
    method Submit(req: Request, svc: Services) returns (ok: bool)
      modifies this
      ensures ok <==> Computed(req, svc).Done?
      ensures ok ==> routeInfo == Some(Computed(req, svc).value.0) && altInfo == Computed(req, svc).value.1
      ensures !ok ==> routeInfo == old(routeInfo) && altInfo == old(altInfo)
    {
      var path := ChoosePath(req.origin, req.dest, req.stops, req.mode, svc.locate, svc.route);
      if path.Raised? {
        return false;
      }
      var a := BuildRoute(path.value, svc.route);
      var risk := Risk.PiracyHits(a.coords, req.piracy, req.bufferKm, svc.corridor);
      if risk.Raised? {
        return false;
      }
      var dName := req.dest.name;
      if req.mode.listMode && req.stops != [] && req.mode.allowOpt && req.mode.optimize && |path.value| >= 2 {
        dName := path.value[|path.value| - 1].name;
      }
      routeInfo := Some(Summary(req.origin.name, dName, a, req.ship, risk.value));
      altInfo := AltOf(req.origin.name, req.origin, req.alt, req.ship, svc.route);
      return true;
    }

    /** "Choose Best Route": the summary takes the best candidate's destination, distance, ETA, footprint and route. */
    method ChooseBestRoute(best: PortSwitch.Scored)
      requires routeInfo.Some?
      modifies this
      ensures routeInfo == Some(WithBest(old(routeInfo.value), best))
      ensures altInfo == old(altInfo)
    {
      routeInfo := Some(WithBest(routeInfo.value, best));
    }
  }
}
