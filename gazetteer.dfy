/**
 * The port gazetteer of data_sources.py: country-name normalisation, loading
 * the World Port Index rows into the list of port names and the per-country
 * index, and looking a port up by name.
 *
 * A row is a map from column name to text; a column missing from the map is
 * a field the CSV reader left as None.
 */
module Gazetteer {
  import opened Wrappers
  import opened PyText

  type Row = map<string, string>

  const MainPortName: string := "Main Port Name"

  /** `r.get(key)`. */
  function Get(r: Row, key: string): Option<string>
  {
    if key in r then Some(r[key]) else None
  }

  /** A row whose "Main Port Name" is present and non-empty. */
  predicate Named(r: Row)
  {
    MainPortName in r && r[MainPortName] != ""
  }

  /** A separator of `re.split(r"[(/,]| - ", ...)` starts at position `i`. */
  predicate SeparatorAt(s: string, i: nat)
    requires i < |s|
  {
    s[i] == '(' || s[i] == '/' || s[i] == ',' || (i + 3 <= |s| && s[i..i + 3] == " - ")
  }

  predicate NoSeparator(s: string)
  {
    forall i :: 0 <= i < |s| ==> !SeparatorAt(s, i)
  }

  /** The first piece of `re.split(r"[(/,]| - ", s)`: the text before the first separator. */
  function HeadBeforeSeparator(s: string): (r: string)
    ensures |r| <= |s| && r == s[..|r|]
    ensures NoSeparator(r)
    ensures |r| < |s| ==> SeparatorAt(s, |r|)
  {
    if s == [] || SeparatorAt(s, 0) then []
    else
      var t := HeadBeforeSeparator(s[1..]);
      HeadStep(s, t);
      [s[0]] + t
  }

  /** A separator at position `i > 0` is one at `i - 1` of the tail. */
  lemma SeparatorTail(s: string, i: nat)
    requires 1 <= i < |s|
    ensures SeparatorAt(s, i) <==> SeparatorAt(s[1..], i - 1)
  {
    if i + 3 <= |s| {
      assert s[i..i + 3] == s[1..][i - 1..i + 2];
    }
  }

  /** Putting back a first character that starts no separator keeps the head's properties. */
  lemma HeadStep(s: string, t: string)
    requires s != [] && !SeparatorAt(s, 0)
    requires |t| <= |s| - 1 && t == s[1..][..|t|] && NoSeparator(t)
    requires |t| < |s| - 1 ==> SeparatorAt(s[1..], |t|)
    ensures var r := [s[0]] + t;
            && |r| <= |s| && r == s[..|r|] && NoSeparator(r)
            && (|r| < |s| ==> SeparatorAt(s, |r|))
  {
    var r := [s[0]] + t;
    assert r == s[..|r|];
    assert r[1..] == t;
    forall i | 0 <= i < |r| ensures !SeparatorAt(r, i) {
      if i == 0 {
        if 3 <= |r| {
          assert r[0] == s[0] && r[1] == s[1] && r[2] == s[2];
          assert r[0..3] == [r[0], r[1], r[2]] && s[0..3] == [s[0], s[1], s[2]];
        }
      } else {
        SeparatorTail(r, i);
      }
    }
    if |r| < |s| {
      SeparatorTail(s, |r|);
    }
  }

  /**
   * `_norm_country`: "Unknown" for a missing value; otherwise the text
   * before the first "(", "/", "," or " - ", stripped and title-cased.
   */
  function NormCountry(c: Option<string>): (r: string)
    ensures c.None? ==> r == "Unknown"
  {
    match c
    case None => "Unknown"
    case Some(t) => Title(Strip(HeadBeforeSeparator(t)))
  }

  /** A piece of text without separators has none in any piece of it. */
  lemma NoSeparatorSlice(s: string, a: nat, b: nat)
    requires NoSeparator(s) && a <= b <= |s|
    ensures NoSeparator(s[a..b])
  {
    var t := s[a..b];
    forall i | 0 <= i < |t|
      ensures !SeparatorAt(t, i)
    {
      assert !SeparatorAt(s, a + i);
      assert t[i] == s[a + i];
      if i + 3 <= |t| {
        assert t[i + 1] == s[a + i + 1] && t[i + 2] == s[a + i + 2];
        assert t[i..i + 3] == s[a + i..a + i + 3];
      }
    }
  }

  /** A separator in the title-cased text was a separator before. */
  lemma TitleSeparator(s: string, i: nat)
    requires i < |s|
    ensures SeparatorAt(Title(s), i) ==> SeparatorAt(s, i)
  {
    var r := Title(s);
    if SeparatorAt(r, i) {
      TitleUncased(s, i);
      if i + 3 <= |r| && r[i..i + 3] == " - " {
        assert r[i..i + 3] == [r[i], r[i + 1], r[i + 2]];
        TitleUncased(s, i + 1);
        TitleUncased(s, i + 2);
        assert s[i..i + 3] == [s[i], s[i + 1], s[i + 2]];
      }
    }
  }

  /** Title-casing keeps every character without case. */
  lemma TitleUncased(s: string, k: nat)
    requires k < |s|
    ensures !IsCased(Title(s)[k]) ==> Title(s)[k] == s[k]
  {
  }

  /** Title-casing adds no separator. */
  lemma TitleKeepsNoSeparator(s: string)
    requires NoSeparator(s)
    ensures NoSeparator(Title(s))
  {
    forall i | 0 <= i < |Title(s)|
      ensures !SeparatorAt(Title(s), i)
    {
      TitleSeparator(s, i);
    }
  }

  lemma {:induction false} HeadOfNoSeparator(s: string)
    requires NoSeparator(s)
    ensures HeadBeforeSeparator(s) == s
  {
    var r := HeadBeforeSeparator(s);
    if |r| < |s| {
      assert false;
    }
  }

  /** Title-cased stripped text is still stripped. */
  lemma TitleKeepsStripped(s: string)
    requires s == [] || (!IsSpace(s[0]) && !IsSpace(s[|s| - 1]))
    ensures Strip(Title(s)) == Title(s)
  {
    var r := Title(s);
    if s != [] {
      assert IsCased(r[0]) || r[0] == s[0];
      assert IsCased(r[|r| - 1]) || r[|r| - 1] == s[|s| - 1];
    }
    StripTrimmed(r);
  }

  /** The stripped head of a text holds no separator. */
  lemma StrippedHeadNoSeparator(t: string)
    ensures NoSeparator(Strip(HeadBeforeSeparator(t)))
  {
    StrippedNoSeparator(HeadBeforeSeparator(t));
  }

  /** Stripping adds no separator. */
  lemma StrippedNoSeparator(h: string)
    requires NoSeparator(h)
    ensures NoSeparator(Strip(h))
  {
    var l := LStrip(h);
    NoSeparatorSlice(h, |h| - |l|, |h|);
    assert h[|h| - |l|..|h|] == l;
    var r := RStrip(l);
    NoSeparatorSlice(l, 0, |r|);
    assert Strip(h) == r;
  }

  /** A normalised country name is free of separators and of surrounding spaces. */
  lemma NormCountryShape(c: Option<string>)
    requires c.Some?
    ensures NoSeparator(NormCountry(c)) && Strip(NormCountry(c)) == NormCountry(c)
  {
    var st := Strip(HeadBeforeSeparator(c.value));
    StrippedHeadNoSeparator(c.value);
    TitleKeepsNoSeparator(st);
    TitleKeepsStripped(st);
  }

  lemma {:induction false} TitleOfLowerTail(s: string)
    requires forall i :: 0 <= i < |s| ==> IsLower(s[i])
    ensures TitleFrom(s, true) == s
  {
    if s != [] {
      TitleOfLowerTail(s[1..]);
    }
  }

  lemma UnknownIsNormal()
    ensures NormCountry(Some("Unknown")) == "Unknown"
  {
    var s := "Unknown";
    UnknownNoSeparator();
    HeadOfNoSeparator(s);
    StripTrimmed(s);
    UnknownTitled();
  }

  lemma UnknownNoSeparator()
    ensures NoSeparator("Unknown")
  {
    var s := "Unknown";
    forall i | 0 <= i < |s| ensures !SeparatorAt(s, i) {
      assert s[i] != '-';
      if i + 3 <= |s| {
        assert s[i..i + 3][1] == s[i + 1];
      }
    }
  }

  lemma UnknownTitled()
    ensures Title("Unknown") == "Unknown"
  {
    var s := "Unknown";
    TitleOfLowerTail(s[1..]);
    assert Title(s) == [UpperChar(s[0])] + TitleFrom(s[1..], true);
  }

  /** Normalising a normalised country name changes nothing. */
  lemma NormCountryIdempotent(c: Option<string>)
    ensures NormCountry(Some(NormCountry(c))) == NormCountry(c)
  {
    match c
    case None =>
      UnknownIsNormal();
    case Some(t) =>
      var r := NormCountry(c);
      NormCountryShape(c);
      HeadOfNoSeparator(r);
      TitleFromIdempotent(Strip(HeadBeforeSeparator(t)), false);
  }

  /** `sub in s` on strings: `sub` occurs somewhere in `s`. */
  predicate Contains(s: string, sub: string)
  {
    if |s| < |sub| then false else s[..|sub|] == sub || Contains(s[1..], sub)
  }

  /** The country column: the first column whose lower-cased name contains "country". */
  function CountryColumn(header: seq<string>): (r: Option<string>)
    ensures r.Some? ==> r.value in header && Contains(Lower(r.value), "country")
    ensures r.Some? ==> exists i :: 0 <= i < |header| && header[i] == r.value
                                    && forall j :: 0 <= j < i ==> !Contains(Lower(header[j]), "country")
    ensures r.None? ==> forall j :: 0 <= j < |header| ==> !Contains(Lower(header[j]), "country")
  {
    if header == [] then None
    else if Contains(Lower(header[0]), "country") then Some(header[0])
    else
      var r := CountryColumn(header[1..]);
      assert r.Some? ==> exists i :: 1 <= i < |header| && header[i] == r.value
                                    && forall j :: 0 <= j < i ==> !Contains(Lower(header[j]), "country") by {
        if r.Some? {
          var i :| 0 <= i < |header[1..]| && header[1..][i] == r.value
                   && forall j :: 0 <= j < i ==> !Contains(Lower(header[1..][j]), "country");
          assert header[i + 1] == r.value;
          forall j | 0 <= j < i + 1 ensures !Contains(Lower(header[j]), "country") {
            if j > 0 {
              assert header[j] == header[1..][j - 1];
            }
          }
        }
      }
      r
  }

  predicate HasRequiredColumns(header: seq<string>)
  {
    MainPortName in header && "Latitude" in header && "Longitude" in header
  }

  /** The loaded gazetteer: rows, sorted distinct port names, country column, ports per country. */
  datatype Wpi = Wpi(rows: seq<Row>, mains: seq<string>, countryCol: Option<string>, portsByCountry: map<string, seq<string>>)

  /** `n` is the main port name of some row. */
  ghost predicate IsMainOf(rows: seq<Row>, n: string)
  {
    exists i :: 0 <= i < |rows| && Named(rows[i]) && rows[i][MainPortName] == n
  }

  /** The normalised country of a row under the country column `cc`. */
  function CountryOf(r: Row, cc: string): string
  {
    NormCountry(Get(r, cc))
  }

  /** `n` is the port name of a row in country `k`. */
  ghost predicate InCountry(rows: seq<Row>, cc: string, k: string, n: string)
  {
    exists i :: 0 <= i < |rows| && RowIn(rows[i], cc, k, n)
  }

  /** Row `r` is named `n` and lies in country `k`. */
  predicate RowIn(r: Row, cc: string, k: string, n: string)
  {
    Named(r) && r[MainPortName] == n && CountryOf(r, cc) == k
  }

  /** The names of the named rows, in row order. */
  function MainNames(rows: seq<Row>): (r: seq<string>)
    ensures forall n :: n in r <==> IsMainOf(rows, n)
  {
    if rows == [] then []
    else
      var init := MainNames(rows[..|rows| - 1]);
      assert forall i :: 0 <= i < |rows| - 1 ==> rows[..|rows| - 1][i] == rows[i];
      var last := rows[|rows| - 1];
      if Named(last) then init + [last[MainPortName]] else init
  }

  /** The index of ports by country `load_wpi` promises. */
  ghost predicate PortsByCountry(rows: seq<Row>, cc: string, m: map<string, seq<string>>)
  {
    && (forall k :: k in m ==> m[k] != [] && StrictlySorted(m[k]))
    && (forall k, n :: k in m && n in m[k] <==> InCountry(rows, cc, k, n))
  }

  /**
   * `load_wpi`, after the CSV has been read: no rows or a missing required
   * column give the empty result; otherwise the rows, the sorted distinct
   * port names, the country column and, when there is one, the sorted
   * distinct port names per normalised country.
   */
  method LoadWpi(header: seq<string>, rows: seq<Row>) returns (w: Wpi)
    ensures rows == [] || !HasRequiredColumns(header) ==> w == Wpi([], [], None, map[])
    ensures rows != [] && HasRequiredColumns(header) ==>
      && w.rows == rows
      && w.countryCol == CountryColumn(header)
      && StrictlySorted(w.mains)
      && (forall n :: n in w.mains <==> IsMainOf(rows, n))
      && (w.countryCol.None? ==> w.portsByCountry == map[])
      && (w.countryCol.Some? ==> PortsByCountry(rows, w.countryCol.value, w.portsByCountry))
  {
    if rows == [] || !HasRequiredColumns(header) {
      return Wpi([], [], None, map[]);
    }
    var countryCol := CountryColumn(header);
    var mains := SortedSet(MainNames(rows));
    var byCountry: map<string, seq<string>> := map[];
    if countryCol.Some? {
      var grouped := GroupByCountry(rows, countryCol.value);
      GroupedMembers(rows, countryCol.value);
      byCountry := SortGroups(grouped);
    }
    return Wpi(rows, mains, countryCol, byCountry);
  }

  /** The names of each country's named rows, in row order: what the grouping loop builds. */
  function Grouped(rows: seq<Row>, cc: string): map<string, seq<string>>
  {
    if rows == [] then map[]
    else
      var m := Grouped(rows[..|rows| - 1], cc);
      var r := rows[|rows| - 1];
      if Named(r) then
        var c := CountryOf(r, cc);
        m[c := (if c in m then m[c] else []) + [r[MainPortName]]]
      else m
  }

  /** `n` is listed under country `k`. */
  ghost predicate Listed(m: map<string, seq<string>>, k: string, n: string)
  {
    k in m && n in m[k]
  }

  /** One more row adds its name under its country and nothing else; no list is empty. */
  lemma GroupedStep(init: seq<Row>, r: Row, cc: string)
    requires forall k :: k in Grouped(init, cc) ==> Grouped(init, cc)[k] != []
    ensures forall k :: k in Grouped(init + [r], cc) ==> Grouped(init + [r], cc)[k] != []
    ensures forall k, n :: Listed(Grouped(init + [r], cc), k, n) <==>
      (Listed(Grouped(init, cc), k, n) || (Named(r) && k == CountryOf(r, cc) && n == r[MainPortName]))
  {
    assert (init + [r])[..|init|] == init;
  }

  /** The grouping lists exactly the names of each country's rows, and no country with none. */
  lemma {:induction false} GroupedMembers(rows: seq<Row>, cc: string)
    ensures forall k :: k in Grouped(rows, cc) ==> Grouped(rows, cc)[k] != []
    ensures forall k, n :: Listed(Grouped(rows, cc), k, n) <==> InCountry(rows, cc, k, n)
  {
    if rows != [] {
      var i := |rows| - 1;
      GroupedMembers(rows[..i], cc);
      assert rows[..i] + [rows[i]] == rows;
      GroupedStep(rows[..i], rows[i], cc);
      InCountryExtend(rows, cc, i);
      assert rows[..i + 1] == rows;
    }
  }

  /** The `setdefault(c, []).append(name)` loop over the rows. */
  method GroupByCountry(rows: seq<Row>, cc: string) returns (m: map<string, seq<string>>)
    ensures m == Grouped(rows, cc)
  {
    m := map[];
    for i := 0 to |rows|
      invariant m == Grouped(rows[..i], cc)
    {
      assert rows[..i + 1][..i] == rows[..i];
      var r := rows[i];
      if Named(r) {
        var c := CountryOf(r, cc);
        var names := if c in m then m[c] else [];
        m := m[c := names + [r[MainPortName]]];
      }
    }
    assert rows[..|rows|] == rows;
  }

  /** The `sorted(set(...))` pass over every country: same countries, same names, each list sorted and distinct. */
  method SortGroups(m0: map<string, seq<string>>) returns (m: map<string, seq<string>>)
    ensures m.Keys == m0.Keys
    ensures forall k, n :: k in m ==> (n in m[k] <==> n in m0[k])
    ensures forall k :: k in m ==> StrictlySorted(m[k]) && (m[k] == [] <==> m0[k] == [])
  {
    m := m0;
    var keys := m.Keys;
    while keys != {}
      invariant keys <= m.Keys && m.Keys == m0.Keys
      invariant forall k, n :: k in m ==> (n in m[k] <==> n in m0[k])
      invariant forall k :: k in m ==> (m[k] == [] <==> m0[k] == [])
      invariant forall k :: k in m && k !in keys ==> StrictlySorted(m[k])
      decreases |keys|
    {
      var k :| k in keys;
      var sorted := SortedSet(m[k]);
      assert m[k] != [] ==> m[k][0] in sorted;
      assert sorted != [] ==> sorted[0] in m[k];
      m := m[k := sorted];
      keys := keys - {k};
    }
  }

  /** Row `i` joins the rows before it. */
  lemma InCountryExtend(rows: seq<Row>, cc: string, i: nat)
    requires i < |rows|
    ensures forall k, n :: InCountry(rows[..i + 1], cc, k, n) <==> (InCountry(rows[..i], cc, k, n) || RowIn(rows[i], cc, k, n))
  {
    assert rows[..i + 1] == rows[..i] + [rows[i]];
    forall k, n
      ensures InCountry(rows[..i] + [rows[i]], cc, k, n) <==> (InCountry(rows[..i], cc, k, n) || RowIn(rows[i], cc, k, n))
    {
      InCountrySnoc(rows[..i], rows[i], cc, k, n);
    }
  }

  lemma InCountrySnoc(init: seq<Row>, r: Row, cc: string, k: string, n: string)
    ensures InCountry(init + [r], cc, k, n) <==> (InCountry(init, cc, k, n) || RowIn(r, cc, k, n))
  {
    var a := init + [r];
    if InCountry(a, cc, k, n) {
      var j :| 0 <= j < |a| && RowIn(a[j], cc, k, n);
      if j < |init| {
        assert a[j] == init[j];
      }
    }
    if InCountry(init, cc, k, n) {
      var j :| 0 <= j < |init| && RowIn(init[j], cc, k, n);
      assert a[j] == init[j];
    }
    if RowIn(r, cc, k, n) {
      assert a[|init|] == r;
    }
  }

  /** A row carries the main port name `name`. */
  predicate HasMain(r: Row, name: string)
  {
    MainPortName in r && r[MainPortName] == name
  }

  /** The first row whose main port name is `name`. */
  function RowByMain(name: string, rows: seq<Row>): (r: Option<Row>)
    ensures r.Some? <==> exists i :: 0 <= i < |rows| && HasMain(rows[i], name)
    ensures r.Some? ==> exists i :: 0 <= i < |rows| && rows[i] == r.value && HasMain(rows[i], name)
                                    && forall j :: 0 <= j < i ==> !HasMain(rows[j], name)
  {
    if rows == [] then None
    else if HasMain(rows[0], name) then Some(rows[0])
    else
      var r := RowByMain(name, rows[1..]);
      assert (exists i :: 0 <= i < |rows| && HasMain(rows[i], name)) ==> exists i :: 0 <= i < |rows[1..]| && HasMain(rows[1..][i], name) by {
        if exists i :: 0 <= i < |rows| && HasMain(rows[i], name) {
          var i :| 0 <= i < |rows| && HasMain(rows[i], name);
          assert rows[1..][i - 1] == rows[i];
        }
      }
      assert r.Some? ==> exists i :: 0 <= i < |rows| && rows[i] == r.value && HasMain(rows[i], name)
                                    && forall j :: 0 <= j < i ==> !HasMain(rows[j], name) by {
        if r.Some? {
          var i :| 0 <= i < |rows[1..]| && rows[1..][i] == r.value && HasMain(rows[1..][i], name)
                   && forall j :: 0 <= j < i ==> !HasMain(rows[1..][j], name);
          assert rows[i + 1] == r.value;
          forall j | 0 <= j < i + 1 ensures !HasMain(rows[j], name) {
            if j > 0 {
              assert rows[j] == rows[1..][j - 1];
            }
          }
        }
      }
      r
  }

  /** `get_row_by_main`: the first row whose "Main Port Name" equals `name`. */
  method GetRowByMain(name: string, rows: seq<Row>) returns (r: Option<Row>)
    ensures r == RowByMain(name, rows)
    ensures r.Some? ==> HasMain(r.value, name)
  {
    for i := 0 to |rows|
      invariant forall j :: 0 <= j < i ==> !HasMain(rows[j], name)
    {
      if HasMain(rows[i], name) {
        FirstMatch(name, rows, i);
        return Some(rows[i]);
      }
    }
    NoMatch(name, rows);
    return None;
  }

  lemma FirstMatch(name: string, rows: seq<Row>, i: nat)
    requires i < |rows| && HasMain(rows[i], name)
    requires forall j :: 0 <= j < i ==> !HasMain(rows[j], name)
    ensures RowByMain(name, rows) == Some(rows[i])
  {
    var r := RowByMain(name, rows);
    var k :| 0 <= k < |rows| && rows[k] == r.value && HasMain(rows[k], name) && forall j :: 0 <= j < k ==> !HasMain(rows[j], name);
    assert k == i;
  }

  lemma NoMatch(name: string, rows: seq<Row>)
    requires forall j :: 0 <= j < |rows| ==> !HasMain(rows[j], name)
    ensures RowByMain(name, rows) == None
  {
  }
}
