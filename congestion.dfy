/**
 * The congestion index and the alias map of data_sources.py, built from
 * CSV rows that have already been read into string-keyed maps.
 *
 * The congestion index maps the canonical port name of each row to its
 * waiting time in hours; a later row overwrites an earlier one with the
 * same key, and rows whose canonical name is empty are skipped. When the
 * table has latitude and longitude columns, the rows whose coordinates both
 * parse also form the geo table used for nearest-port lookups.
 */
module Congestion {
  import opened Wrappers
  import opened PyText
  import Canon
  import Gazetteer

  type Row = Gazetteer.Row

  const NameColumns: set<string> := {"port", "name", "port_name", "portname"}
  const WaitColumns: set<string> := {"waittime_hr", "wait_hr", "waithours", "wait_hours", "wait", "delay_hr", "delay_hours"}
  const LatColumns: set<string> := {"lat", "latitude", "y"}
  const LonColumns: set<string> := {"lon", "longitude", "x", "long", "lng"}

  /** The first column whose lower-cased name is one of `names`. */
  function FirstColumn(header: seq<string>, names: set<string>): (r: Option<string>)
    ensures r.None? <==> forall i :: 0 <= i < |header| ==> Lower(header[i]) !in names
    ensures r.Some? ==> exists i :: 0 <= i < |header| && header[i] == r.value && Lower(header[i]) in names
                                    && forall j :: 0 <= j < i ==> Lower(header[j]) !in names
  {
    if header == [] then None
    else if Lower(header[0]) in names then Some(header[0])
    else
      var r := FirstColumn(header[1..], names);
      assert r.Some? ==> exists i :: 0 <= i < |header| && header[i] == r.value && Lower(header[i]) in names
                                    && forall j :: 0 <= j < i ==> Lower(header[j]) !in names by {
        if r.Some? {
          var i :| 0 <= i < |header[1..]| && header[1..][i] == r.value && Lower(header[1..][i]) in names
                   && forall j :: 0 <= j < i ==> Lower(header[1..][j]) !in names;
          assert header[i + 1] == r.value;
          forall j | 0 <= j < i + 1 ensures Lower(header[j]) !in names {
            if j > 0 {
              assert header[j] == header[1..][j - 1];
            }
          }
        }
      }
      assert r.None? ==> forall i :: 0 <= i < |header| ==> Lower(header[i]) !in names by {
        if r.None? {
          forall i | 0 <= i < |header| ensures Lower(header[i]) !in names {
            if i > 0 {
              assert header[i] == header[1..][i - 1];
            }
          }
        }
      }
      r
  }

  /** The columns the loader looks for. */
  datatype Columns = Columns(name: string, wait: string, lat: Option<string>, lon: Option<string>)

  /** The text of a field as `astype(str)` gives it: a missing value reads "None". */
  function FieldText(r: Row, col: string): (t: string)
    ensures col !in r ==> t == "None"
  {
    if col in r then r[col] else "None"
  }

  /** `pd.to_numeric(..., errors="coerce").fillna(0.0)`: the number, or 0.0 when it does not parse. */
  function WaitValue(r: Row, col: string): (w: real)
    ensures col in r && ParseFloat(r[col]).Some? ==> w == ParseFloat(r[col]).value
    ensures col !in r || ParseFloat(r[col]).None? ==> w == 0.0
  {
    if col in r then ParseFloat(r[col]).GetOr(0.0) else 0.0
  }

  /** The canonical key of a row. */
  function KeyOf(r: Row, cols: Columns): string
  {
    Canon.CanonName(FieldText(r, cols.name))
  }

  /** The assignment a row makes to the index: none when its key is empty. */
  function CongestionEntry(r: Row, cols: Columns): (u: Option<(string, real)>)
    ensures u.Some? <==> KeyOf(r, cols) != ""
    ensures u.Some? ==> u.value == (KeyOf(r, cols), WaitValue(r, cols.wait))
  {
    var k := KeyOf(r, cols);
    if k == "" then None else Some((k, WaitValue(r, cols.wait)))
  }

  /** `f` applied to every element, in order. */
  function MapSeq<A, B>(xs: seq<A>, f: A -> B): (ys: seq<B>)
    ensures |ys| == |xs| && forall i :: 0 <= i < |xs| ==> ys[i] == f(xs[i])
  {
    if xs == [] then [] else MapSeq(xs[..|xs| - 1], f) + [f(xs[|xs| - 1])]
  }

  lemma MapSeqSnoc<A, B>(xs: seq<A>, i: nat, f: A -> B)
    requires i < |xs|
    ensures MapSeq(xs[..i + 1], f) == MapSeq(xs[..i], f) + [f(xs[i])]
  {
    assert xs[..i + 1][..i] == xs[..i];
  }

  function EntryOf(cols: Columns): Row -> Option<(string, real)>
  {
    r => CongestionEntry(r, cols)
  }

  /** The assignments of the rows, one per row. */
  function Updates(rows: seq<Row>, cols: Columns): (us: seq<Option<(string, real)>>)
    ensures |us| == |rows| && forall i :: 0 <= i < |rows| ==> us[i] == CongestionEntry(rows[i], cols)
  {
    MapSeq(rows, EntryOf(cols))
  }

  /** The index the `by_name[k] = wait` loop leaves after `rows`. */
  function ByName(rows: seq<Row>, cols: Columns): map<string, real>
  {
    Assign(Updates(rows, cols))
  }

  /** The index holds exactly the non-empty keys of the rows. */
  lemma ByNameKeys(rows: seq<Row>, cols: Columns)
    ensures "" !in ByName(rows, cols)
    ensures forall k :: k in ByName(rows, cols) <==> k != "" && exists i :: 0 <= i < |rows| && KeyOf(rows[i], cols) == k
  {
    AssignLastWins(Updates(rows, cols));
  }

  /** Each key holds the wait of the last row that has it: later rows overwrite earlier ones. */
  lemma ByNameLastWins(rows: seq<Row>, cols: Columns)
    ensures forall k :: k in ByName(rows, cols) ==>
      exists i :: 0 <= i < |rows| && KeyOf(rows[i], cols) == k && ByName(rows, cols)[k] == WaitValue(rows[i], cols.wait)
                  && forall j :: i < j < |rows| ==> KeyOf(rows[j], cols) != k
  {
    var us := Updates(rows, cols);
    AssignLastWins(us);
    ByNameKeys(rows, cols);
    forall k | k in ByName(rows, cols)
      ensures exists i :: 0 <= i < |rows| && KeyOf(rows[i], cols) == k && ByName(rows, cols)[k] == WaitValue(rows[i], cols.wait)
                          && forall j :: i < j < |rows| ==> KeyOf(rows[j], cols) != k
    {
      var i :| LastFor(us, k, i) && Assign(us)[k] == us[i].value.1;
      assert us[i] == CongestionEntry(rows[i], cols);
      forall j | i < j < |rows| ensures KeyOf(rows[j], cols) != k {
        assert !Sets(us[j], k) && us[j] == CongestionEntry(rows[j], cols);
      }
    }
  }

  /** The key order lists the keys of the index, each once. */
  lemma KeyOrderOfIndex(rows: seq<Row>, cols: Columns)
    ensures forall k :: k in ByName(rows, cols) <==> k in FirstOrder(Updates(rows, cols))
    ensures Distinct(FirstOrder(Updates(rows, cols)))
  {
    FirstOrderKeys(Updates(rows, cols));
  }

  /** The assignments in `xs` applied in order, skipping the absent ones. */
  function Assign<V>(xs: seq<Option<(string, V)>>): map<string, V>
  {
    if xs == [] then map[]
    else
      var m := Assign(xs[..|xs| - 1]);
      match xs[|xs| - 1]
      case Some((k, v)) => m[k := v]
      case None => m
  }

  /** The keys `xs` assigns, in order of first assignment: the iteration order of the dict. */
  function FirstOrder<V>(xs: seq<Option<(string, V)>>): seq<string>
  {
    if xs == [] then []
    else
      var ks := FirstOrder(xs[..|xs| - 1]);
      match xs[|xs| - 1]
      case Some((k, _)) => if k in ks then ks else ks + [k]
      case None => ks
  }

  predicate Sets<V>(x: Option<(string, V)>, k: string)
  {
    x.Some? && x.value.0 == k
  }

  /** Entry `i` is the last assignment to `k`. */
  ghost predicate LastFor<V>(xs: seq<Option<(string, V)>>, k: string, i: int)
  {
    0 <= i < |xs| && Sets(xs[i], k) && forall j :: i < j < |xs| ==> !Sets(xs[j], k)
  }

  lemma AssignSnoc<V>(xs: seq<Option<(string, V)>>, x: Option<(string, V)>)
    ensures Assign(xs + [x]) == if x.Some? then Assign(xs)[x.value.0 := x.value.1] else Assign(xs)
    ensures FirstOrder(xs + [x]) == if x.Some? && x.value.0 !in FirstOrder(xs) then FirstOrder(xs) + [x.value.0] else FirstOrder(xs)
  {
    assert (xs + [x])[..|xs|] == xs;
  }

  /** Each key holds the value of its last assignment, and only assigned keys are present. */
  lemma {:induction false} AssignLastWins<V>(xs: seq<Option<(string, V)>>)
    ensures forall k :: k in Assign(xs) <==> exists i :: 0 <= i < |xs| && Sets(xs[i], k)
    ensures forall k :: k in Assign(xs) ==> exists i :: LastFor(xs, k, i) && Assign(xs)[k] == xs[i].value.1
  {
    if xs != [] {
      var n := |xs| - 1;
      var init := xs[..n];
      AssignLastWins(init);
      assert init + [xs[n]] == xs;
      AssignSnoc(init, xs[n]);
      assert forall i :: 0 <= i < n ==> init[i] == xs[i];
      var m := Assign(xs);
      forall k | k in m
        ensures exists i :: LastFor(xs, k, i) && m[k] == xs[i].value.1
      {
        if Sets(xs[n], k) {
          assert LastFor(xs, k, n);
        } else {
          var i :| LastFor(init, k, i) && Assign(init)[k] == init[i].value.1;
          assert LastFor(xs, k, i);
        }
      }
    }
  }

  /** The key order lists each assigned key once. */
  lemma {:induction false} FirstOrderKeys<V>(xs: seq<Option<(string, V)>>)
    ensures forall k :: k in Assign(xs) <==> k in FirstOrder(xs)
    ensures Distinct(FirstOrder(xs))
  {
    if xs != [] {
      var n := |xs| - 1;
      FirstOrderKeys(xs[..n]);
      assert xs[..n] + [xs[n]] == xs;
      AssignSnoc(xs[..n], xs[n]);
    }
  }

  predicate Distinct(ks: seq<string>)
  {
    forall i, j :: 0 <= i < j < |ks| ==> ks[i] != ks[j]
  }

  /** A row of the geo table. */
  datatype GeoEntry = GeoEntry(name: string, wait: real, lat: real, lon: real)

  /** `float(x)` on a field, None for a missing value or text that does not parse. */
  function Num(r: Row, col: string): (v: Option<real>)
    ensures v.Some? ==> col in r && v == ParseFloat(r[col])
    ensures col in r ==> v == ParseFloat(r[col])
    ensures col !in r ==> v.None?
  {
    if col in r then ParseFloat(r[col]) else None
  }

  /** The geo-table entry of a row, when both coordinates parse. */
  function GeoOf(r: Row, cols: Columns, latCol: string, lonCol: string): (e: Option<GeoEntry>)
    ensures e.Some? <==> Num(r, latCol).Some? && Num(r, lonCol).Some?
    ensures e.Some? ==> e.value == GeoEntry(FieldText(r, cols.name), WaitValue(r, cols.wait),
                                            Num(r, latCol).value, Num(r, lonCol).value)
  {
    match (Num(r, latCol), Num(r, lonCol))
    case (Some(lat), Some(lon)) => Some(GeoEntry(FieldText(r, cols.name), WaitValue(r, cols.wait), lat, lon))
    case _ => None
  }

  /** The present values of `xs`, in order. */
  function Somes<T(==,!new)>(xs: seq<Option<T>>): (r: seq<T>)
    ensures |r| <= |xs|
    ensures forall e :: e in r <==> Some(e) in xs
  {
    if xs == [] then []
    else
      var r := Somes(xs[..|xs| - 1]);
      assert xs == xs[..|xs| - 1] + [xs[|xs| - 1]];
      match xs[|xs| - 1]
      case Some(e) => r + [e]
      case None => r
  }

  /** `dropna(subset=["__lat__", "__lon__"])`: the rows whose coordinates both parse, in row order. */
  function GeoTable(rows: seq<Row>, cols: Columns, latCol: string, lonCol: string): (g: seq<GeoEntry>)
    ensures |g| <= |rows|
    ensures forall e :: e in g <==> exists i :: 0 <= i < |rows| && GeoOf(rows[i], cols, latCol, lonCol) == Some(e)
  {
    Somes(MapSeq(rows, r => GeoOf(r, cols, latCol, lonCol)))
  }

  /** The congestion data: the index by canonical name, its key order and the optional geo table. */
  datatype Index = Index(byName: map<string, real>, keys: seq<string>, geo: Option<seq<GeoEntry>>)
  {
    /** The key order lists the keys of the index, each once. */
    ghost predicate WellFormed()
    {
      (forall k :: k in keys <==> k in byName) && Distinct(keys)
    }
  }

  const NoCongestion := Index(map[], [], None)

  /** The columns of a header, when it has a name column and a wait column. */
  function ColumnsOf(header: seq<string>): (c: Option<Columns>)
    ensures c.Some? <==> FirstColumn(header, NameColumns).Some? && FirstColumn(header, WaitColumns).Some?
  {
    match (FirstColumn(header, NameColumns), FirstColumn(header, WaitColumns))
    case (Some(n), Some(w)) => Some(Columns(n, w, FirstColumn(header, LatColumns), FirstColumn(header, LonColumns)))
    case _ => None
  }

  /**
   * `load_congestion_advanced` on rows already read: no rows or no
   * name/wait column give empty data; otherwise the index filled row by
   * row and, when both coordinate columns exist, the geo table.
   */
  method LoadCongestion(header: seq<string>, rows: seq<Row>) returns (idx: Index)
    ensures idx.WellFormed()
    ensures rows == [] || ColumnsOf(header).None? ==> idx == NoCongestion
    ensures rows != [] && ColumnsOf(header).Some? ==>
      var cols := ColumnsOf(header).value;
      && idx.byName == ByName(rows, cols)
      && idx.keys == FirstOrder(Updates(rows, cols))
      && (cols.lat.Some? && cols.lon.Some? ==> idx.geo == Some(GeoTable(rows, cols, cols.lat.value, cols.lon.value)))
      && (cols.lat.None? || cols.lon.None? ==> idx.geo.None?)
  {
    var c := ColumnsOf(header);
    if rows == [] || c.None? {
      return NoCongestion;
    }
    var cols := c.value;
    var byName: map<string, real> := map[];
    var keys: seq<string> := [];
    for i := 0 to |rows|
      invariant byName == ByName(rows[..i], cols)
      invariant keys == FirstOrder(Updates(rows[..i], cols))
    {
      MapSeqSnoc(rows, i, EntryOf(cols));
      AssignSnoc(Updates(rows[..i], cols), CongestionEntry(rows[i], cols));
      FirstOrderKeys(Updates(rows[..i], cols));
      var k := KeyOf(rows[i], cols);
      if k == "" {
        continue;
      }
      if k !in byName {
        keys := keys + [k];
      }
      byName := byName[k := WaitValue(rows[i], cols.wait)];
    }
    assert rows[..|rows|] == rows;
    KeyOrderOfIndex(rows, cols);
    var geo: Option<seq<GeoEntry>> := None;
    if cols.lat.Some? && cols.lon.Some? {
      geo := Some(GeoTable(rows, cols, cols.lat.value, cols.lon.value));
    }
    return Index(byName, keys, geo);
  }

  /** The alias-map entry of a row: both canonical names, when both are non-empty. */
  function AliasEntry(r: Row): (e: Option<(string, string)>)
    ensures e.Some? ==> e.value.0 != "" && e.value.1 != ""
  {
    var wpi := Canon.CanonName(Gazetteer.Get(r, "WPI_Name").GetOr(""));
    var src := Canon.CanonName(Gazetteer.Get(r, "Source_Name").GetOr(""));
    if wpi != "" && src != "" then Some((wpi, src)) else None
  }

  /** The assignments of the rows to the alias map, one per row. */
  function AliasUpdates(rows: seq<Row>): (us: seq<Option<(string, string)>>)
    ensures |us| == |rows| && forall i :: 0 <= i < |rows| ==> us[i] == AliasEntry(rows[i])
  {
    MapSeq(rows, AliasEntry)
  }

  /** The alias map the loop leaves after `rows`. */
  function Aliases(rows: seq<Row>): map<string, string>
  {
    Assign(AliasUpdates(rows))
  }

  /** Only non-empty names are mapped, each to the non-empty target of the last row naming it. */
  lemma AliasesLastWins(rows: seq<Row>)
    ensures forall k :: k in Aliases(rows) ==> k != "" && Aliases(rows)[k] != ""
    ensures forall k :: k in Aliases(rows) <==> exists i :: 0 <= i < |rows| && Sets(AliasEntry(rows[i]), k)
    ensures forall k :: k in Aliases(rows) ==>
      exists i :: 0 <= i < |rows| && Sets(AliasEntry(rows[i]), k) && Aliases(rows)[k] == AliasEntry(rows[i]).value.1
                  && forall j :: i < j < |rows| ==> !Sets(AliasEntry(rows[j]), k)
  {
    var us := AliasUpdates(rows);
    AssignLastWins(us);
    forall k | k in Aliases(rows)
      ensures k != "" && Aliases(rows)[k] != ""
      ensures exists i :: 0 <= i < |rows| && Sets(AliasEntry(rows[i]), k) && Aliases(rows)[k] == AliasEntry(rows[i]).value.1
                          && forall j :: i < j < |rows| ==> !Sets(AliasEntry(rows[j]), k)
    {
      var i :| LastFor(us, k, i) && Assign(us)[k] == us[i].value.1;
      assert Sets(AliasEntry(rows[i]), k);
    }
  }

  /** `load_alias_map` on rows already read: the `alias[wpi] = src` loop. */
  method LoadAliasMap(rows: seq<Row>) returns (alias: map<string, string>)
    ensures alias == Aliases(rows)
  {
    alias := map[];
    for i := 0 to |rows|
      invariant alias == Aliases(rows[..i])
    {
      MapSeqSnoc(rows, i, AliasEntry);
      AssignSnoc(AliasUpdates(rows[..i]), AliasEntry(rows[i]));
      var e := AliasEntry(rows[i]);
      if e.Some? {
        alias := alias[e.value.0 := e.value.1];
      }
    }
    assert rows[..|rows|] == rows;
  }
}
