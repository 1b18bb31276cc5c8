/**
 * Coordinate parsing of data_sources.py: degree-minute-second text with a
 * hemisphere letter, the tolerant per-cell parser used for incident tables,
 * the 0..360 longitude fix, the incident-table cleaner and the gazetteer's
 * `latlon_from_row`.
 *
 * Degree-minute-second text is read by the source's two regular
 * expressions, tried in order: `Pattern1` follows the first one with its
 * backtracking (greedy digit runs tried from the longest down, optional
 * parts tried taken before skipped), `Pattern2` the second one.
 */
module Coords {
  import opened Wrappers
  import opened PyText

  /** A table cell as pandas hands it over: missing (None or NaN), a number, or text. */
  datatype Cell = Missing | Num(x: real) | Text(s: string)

  /** The fields of a degree-minute-second coordinate. */
  datatype Dms = Dms(deg: nat, mins: nat, secs: real, hemi: char)

  predicate IsHemisphere(c: char)
  {
    c == 'N' || c == 'S' || c == 'E' || c == 'W'
  }

  /** South and west are the negative hemispheres. */
  predicate IsNegativeHemisphere(c: char)
  {
    c == 'S' || c == 'W'
  }

  function Abs(x: real): real
  {
    if x < 0.0 then -x else x
  }

  /** deg + min/60 + sec/3600, negated in the southern and western hemispheres. */
  function DmsValue(d: Dms): real
  {
    var dec := d.deg as real + d.mins as real / 60.0 + d.secs / 3600.0;
    if IsNegativeHemisphere(d.hemi) then -dec else dec
  }

  lemma DmsValueSign(d: Dms)
    requires d.secs >= 0.0
    ensures IsNegativeHemisphere(d.hemi) ==> DmsValue(d) <= 0.0
    ensures !IsNegativeHemisphere(d.hemi) ==> DmsValue(d) >= 0.0
    ensures Abs(DmsValue(d)) == d.deg as real + d.mins as real / 60.0 + d.secs / 3600.0
  {
  }

  /** The substitutions `_parse_dms` makes first: º becomes °, ’ becomes ' and ” becomes ". */
  function NormaliseMarks(s: string): (r: string)
    ensures |r| == |s|
    ensures forall i :: 0 <= i < |s| ==> (IsHemisphere(r[i]) <==> IsHemisphere(s[i]))
    ensures (forall i :: 0 <= i < |s| ==> s[i] != '\U{BA}' && s[i] != '\U{2019}' && s[i] != '\U{201D}') ==> r == s
  {
    seq(|s|, i requires 0 <= i < |s| =>
      if s[i] == '\U{BA}' then '\U{B0}'
      else if s[i] == '\U{2019}' then '\''
      else if s[i] == '\U{201D}' then '"'
      else s[i])
  }

  /** The first `k` characters of `t` are digits. */
  predicate DigitsUpTo(t: string, k: nat)
  {
    k <= |t| && forall i :: 0 <= i < k ==> IsDigit(t[i])
  }

  /** `\[\-\s°]`: what may stand between degrees and minutes in the first pattern. */
  predicate DegreeSep(c: char)
  {
    c == '-' || IsSpace(c) || c == '\U{B0}'
  }

  /** `[\-\s']`: what may stand between minutes and seconds in the first pattern. */
  predicate MinuteSep(c: char)
  {
    c == '-' || IsSpace(c) || c == '\''
  }

  /** A character other than a space is in `t` exactly when it is in `LStrip(t)`. */
  lemma InLStrip(t: string)
    ensures forall c :: !IsSpace(c) ==> (c in t <==> c in LStrip(t))
  {
    LStripDropsSpaces(t);
    var off := |t| - |LStrip(t)|;
    assert t == t[..off] + LStrip(t);
    assert forall i :: 0 <= i < off ==> IsSpace(t[..off][i]);
  }

  /** A character other than a digit is in `t` exactly when it is in what follows `k` leading digits. */
  lemma InAfterDigits(t: string, k: nat)
    requires DigitsUpTo(t, k)
    ensures forall c :: !IsDigit(c) ==> (c in t <==> c in t[k..])
  {
    assert t == t[..k] + t[k..];
    assert forall i :: 0 <= i < k ==> IsDigit(t[..k][i]);
  }

  /** A character other than the first is in `t` exactly when it is in the rest. */
  lemma InAfterFirst(t: string)
    requires t != []
    ensures forall c :: c != t[0] ==> (c in t <==> c in t[1..])
  {
    assert t == [t[0]] + t[1..];
  }

  /**
   * `\s*([NSEW])\s*$`, the end of both patterns: the hemisphere letter with
   * nothing but spaces around it. Such text holds no double quote.
   */
  function Hemisphere(t: string, deg: nat, mins: nat, secs: real): (r: Option<Dms>)
    ensures r.Some? ==> IsHemisphere(r.value.hemi) && r.value == Dms(deg, mins, secs, r.value.hemi)
    ensures r.Some? ==> r.value.hemi in t && '"' !in t
  {
    var u := LStrip(t);
    if u != [] && IsHemisphere(u[0]) && LStrip(u[1..]) == [] then
      InLStrip(t);
      InLStrip(u[1..]);
      assert u == [u[0]] + u[1..];
      Some(Dms(deg, mins, secs, u[0]))
    else None
  }

  // The first pattern is tried the way Python's backtracking matcher tries
  // it: a greedy `\d+` takes all the digits there are and then gives them
  // back one at a time, and an optional part is first taken and then left
  // out. The first way that reaches the end decides the groups.

  /** The first pattern from the digits after the point on: `k` of them, tried from the most down. */
  function P1FractionDigits(deg: nat, mins: nat, whole: nat, t: string, k: nat): (r: Option<Dms>)
    requires DigitsUpTo(t, k)
    ensures r.Some? ==> IsHemisphere(r.value.hemi) && r.value.secs >= 0.0
    ensures r.Some? ==> r.value.hemi in t && '"' !in t
    decreases k
  {
    if k == 0 then None
    else
      InAfterDigits(t, k);
      var r := Hemisphere(t[k..], deg, mins, whole as real + FractionValue(t[..k]));
      if r.Some? then r else P1FractionDigits(deg, mins, whole, t, k - 1)
  }

  /** The first pattern after the seconds' whole digits: `(?:\.\d+)?`, taken when it can be. */
  function P1Fraction(deg: nat, mins: nat, whole: nat, t: string): (r: Option<Dms>)
    ensures r.Some? ==> IsHemisphere(r.value.hemi) && r.value.secs >= 0.0
    ensures r.Some? ==> r.value.hemi in t && '"' !in t
  {
    var a := if t != [] && t[0] == '.' then P1FractionDigits(deg, mins, whole, t[1..], DigitRun(t[1..])) else None;
    if a.Some? then
      InAfterFirst(t);
      a
    else Hemisphere(t, deg, mins, whole as real)
  }

  /** The first pattern's seconds `(\d+(?:\.\d+)?)`: `k` whole digits of `t`, tried from the most down. */
  function P1Seconds(deg: nat, mins: nat, t: string, k: nat): (r: Option<Dms>)
    requires DigitsUpTo(t, k)
    ensures r.Some? ==> IsHemisphere(r.value.hemi) && r.value.secs >= 0.0
    ensures r.Some? ==> r.value.hemi in t && '"' !in t
    decreases k
  {
    if k == 0 then None
    else
      InAfterDigits(t, k);
      var r := P1Fraction(deg, mins, DigitsValue(t[..k]), t[k..]);
      if r.Some? then r else P1Seconds(deg, mins, t, k - 1)
  }

  /** The first pattern's `(?:[\-\s']?(...))?`: seconds after a separator, seconds directly, or no seconds. */
  function P1SecondsGroup(deg: nat, mins: nat, t: string): (r: Option<Dms>)
    ensures r.Some? ==> IsHemisphere(r.value.hemi) && r.value.secs >= 0.0
    ensures r.Some? ==> r.value.hemi in t && '"' !in t
  {
    var a := if t != [] && MinuteSep(t[0]) then P1Seconds(deg, mins, t[1..], DigitRun(t[1..])) else None;
    if a.Some? then
      InAfterFirst(t);
      a
    else
      var b := P1Seconds(deg, mins, t, DigitRun(t));
      if b.Some? then b else Hemisphere(t, deg, mins, 0.0)
  }

  /** The first pattern's minutes `(\d+)?`: `k` digits of `t`, tried from the most down, and at last none. */
  function P1Minutes(deg: nat, t: string, k: nat): (r: Option<Dms>)
    requires DigitsUpTo(t, k)
    ensures r.Some? ==> IsHemisphere(r.value.hemi) && r.value.secs >= 0.0
    ensures r.Some? ==> r.value.hemi in t && '"' !in t
    decreases k
  {
    if k == 0 then P1SecondsGroup(deg, 0, t)
    else
      InAfterDigits(t, k);
      var r := P1SecondsGroup(deg, DigitsValue(t[..k]), t[k..]);
      if r.Some? then r else P1Minutes(deg, t, k - 1)
  }

  /** The first pattern's `[\-\s°]?` after the degrees: with the separator, then without. */
  function P1AfterDegrees(deg: nat, t: string): (r: Option<Dms>)
    ensures r.Some? ==> IsHemisphere(r.value.hemi) && r.value.secs >= 0.0
    ensures r.Some? ==> r.value.hemi in t && '"' !in t
  {
    var a := if t != [] && DegreeSep(t[0]) then P1Minutes(deg, t[1..], DigitRun(t[1..])) else None;
    if a.Some? then
      InAfterFirst(t);
      a
    else P1Minutes(deg, t, DigitRun(t))
  }

  /** The first pattern's degrees `(\d+)`: `k` digits of `t`, tried from the most down. */
  function P1Degrees(t: string, k: nat): (r: Option<Dms>)
    requires DigitsUpTo(t, k)
    ensures r.Some? ==> IsHemisphere(r.value.hemi) && r.value.secs >= 0.0
    ensures r.Some? ==> r.value.hemi in t && '"' !in t
    decreases k
  {
    if k == 0 then None
    else
      InAfterDigits(t, k);
      var r := P1AfterDegrees(DigitsValue(t[..k]), t[k..]);
      if r.Some? then r else P1Degrees(t, k - 1)
  }

  /**
   * `^\s*(\d+)[\-\s°]?(\d+)?(?:[\-\s']?(\d+(?:\.\d+)?))?\s*([NSEW])\s*$`: the
   * compact pattern. A match never holds a double quote.
   */
  function Pattern1(s: string): (r: Option<Dms>)
    ensures r.Some? ==> IsHemisphere(r.value.hemi) && r.value.secs >= 0.0
    ensures r.Some? ==> r.value.hemi in s && '"' !in s
  {
    var t := LStrip(s);
    InLStrip(s);
    P1Degrees(t, DigitRun(t))
  }

  /**
   * The second pattern after the apostrophe and its spaces:
   * `(\d+(?:\.\d+)?)\s*\"?` and the hemisphere letter.
   */
  function P2Seconds(deg: nat, mins: nat, x: string): (r: Option<Dms>)
    ensures r.Some? ==> IsHemisphere(r.value.hemi) && r.value.secs >= 0.0
  {
    var n := DigitRun(x);
    if n == 0 then None
    else
      var whole := DigitsValue(x[..n]);
      var y := x[n..];
      var j := if y != [] && y[0] == '.' then DigitRun(y[1..]) else 0;
      var secs := if j > 0 then whole as real + FractionValue(y[1..][..j]) else whole as real;
      var z := LStrip(if j > 0 then y[1 + j..] else y);
      Hemisphere(if z != [] && z[0] == '"' then z[1..] else z, deg, mins, secs)
  }

  /**
   * `^\s*(\d+)\s*°\s*(\d+)?\s*(?:'\s*(\d+(?:\.\d+)?)\s*\"?)?\s*([NSEW])\s*$`:
   * the marked pattern. It has at most one way to match, so it is read
   * without backtracking: a digit group that stopped short would leave a
   * digit that nothing after it accepts, an apostrophe must be followed by
   * seconds, and a point by fraction digits.
   */
  function Pattern2(s: string): (r: Option<Dms>)
    ensures r.Some? ==> IsHemisphere(r.value.hemi) && r.value.secs >= 0.0
  {
    var t := LStrip(s);
    var n1 := DigitRun(t);
    if n1 == 0 then None
    else
      var u := LStrip(t[n1..]);
      if u == [] || u[0] != '\U{B0}' then None
      else
        var v := LStrip(u[1..]);
        var n2 := DigitRun(v);
        var w := LStrip(v[n2..]);
        var deg, mins := DigitsValue(t[..n1]), DigitsValue(v[..n2]);
        if w != [] && w[0] == '\'' then P2Seconds(deg, mins, LStrip(w[1..]))
        else Hemisphere(w, deg, mins, 0.0)
  }

  /** What follows position `k` of `t` is in `t`. */
  lemma DropIn(t: string, k: nat)
    requires k <= |t|
    ensures forall c :: c in t[k..] ==> c in t
  {
    forall c | c in t[k..]
      ensures c in t
    {
      var i :| 0 <= i < |t| - k && t[k..][i] == c;
      assert t[k + i] == c;
    }
  }

  /** What `lstrip` keeps is in the text. */
  lemma LStripIn(t: string)
    ensures forall c :: c in LStrip(t) ==> c in t
  {
    DropIn(t, |t| - |LStrip(t)|);
  }

  /** The hemisphere letter the marked pattern reads after the apostrophe is in its text. */
  lemma P2SecondsHemi(deg: nat, mins: nat, x: string)
    ensures var r := P2Seconds(deg, mins, x); r.Some? ==> r.value.hemi in x
  {
    var n := DigitRun(x);
    if n > 0 {
      var y := x[n..];
      var j := if y != [] && y[0] == '.' then DigitRun(y[1..]) else 0;
      var y2 := if j > 0 then y[1 + j..] else y;
      var z := LStrip(y2);
      var w := if z != [] && z[0] == '"' then z[1..] else z;
      if z != [] && z[0] == '"' {
        DropIn(z, 1);
      }
      LStripIn(y2);
      if j > 0 {
        DropIn(y, 1 + j);
      }
      DropIn(x, n);
    }
  }

  /** The hemisphere letter the marked pattern reads is in its text. */
  lemma Pattern2Hemi(s: string)
    ensures var r := Pattern2(s); r.Some? ==> r.value.hemi in s
  {
    var t := LStrip(s);
    var n1 := DigitRun(t);
    LStripIn(s);
    if n1 > 0 {
      DropIn(t, n1);
      var u := LStrip(t[n1..]);
      LStripIn(t[n1..]);
      if u != [] && u[0] == '\U{B0}' {
        DropIn(u, 1);
        var v := LStrip(u[1..]);
        LStripIn(u[1..]);
        var n2 := DigitRun(v);
        DropIn(v, n2);
        var w := LStrip(v[n2..]);
        LStripIn(v[n2..]);
        if w != [] && w[0] == '\'' {
          DropIn(w, 1);
          LStripIn(w[1..]);
          P2SecondsHemi(DigitsValue(t[..n1]), DigitsValue(v[..n2]), LStrip(w[1..]));
        }
      }
    }
  }

  /** `m = re.match(<compact>, s) or re.match(<marked>, s)`: the first pattern that matches decides. */
  function DmsMatch(s: string): (r: Option<Dms>)
    ensures r.Some? ==> IsHemisphere(r.value.hemi) && r.value.secs >= 0.0 && r.value.hemi in s
    ensures '"' in s ==> r == Pattern2(s)
  {
    var m := Pattern1(s);
    if m.Some? then m
    else
      Pattern2Hemi(s);
      Pattern2(s)
  }

  /** `_parse_dms(token)`: the signed decimal degrees of degree-minute-second text, or `None`. */
  function ParseDms(token: string): (r: Option<real>)
    ensures r.Some? ==> exists i :: 0 <= i < |token| && IsHemisphere(UpperChar(token[i]))
  {
    var st := Strip(token);
    var s := NormaliseMarks(Upper(st));
    match DmsMatch(s)
    case None => None
    case Some(d) =>
      HemisphereFromToken(token, d.hemi);
      Some(DmsValue(d))
  }

  /** A hemisphere letter of the normalised text comes from a letter of the token. */
  lemma HemisphereFromToken(token: string, c: char)
    requires IsHemisphere(c) && c in NormaliseMarks(Upper(Strip(token)))
    ensures exists i :: 0 <= i < |token| && IsHemisphere(UpperChar(token[i]))
  {
    var st := Strip(token);
    var u := Upper(st);
    var s := NormaliseMarks(u);
    var j :| 0 <= j < |s| && s[j] == c;
    assert IsHemisphere(u[j]);
    StripInside(token);
    var off := |token| - |LStrip(token)|;
    assert st[j] == token[off + j];
  }

  /** `str(s) + '"' + hemi`. */
  function SecondsText(secs: nat, hemi: char): string
  {
    NatText(secs) + ['"', hemi]
  }

  /** `str(m) + "'" + str(s) + '"' + hemi`. */
  function MinutesText(mins: nat, secs: nat, hemi: char): string
  {
    NatText(mins) + (['\''] + SecondsText(secs, hemi))
  }

  /** `str(d) + "°" + str(m) + "'" + str(s) + '"' + hemi`: the text `_parse_dms` is written for. */
  function DmsText(deg: nat, mins: nat, secs: nat, hemi: char): string
  {
    NatText(deg) + (['\U{B0}'] + MinutesText(mins, secs, hemi))
  }

  lemma {:induction false} DigitRunPrefix(ds: string, rest: string)
    requires AllDigits(ds)
    requires rest == [] || !IsDigit(rest[0])
    ensures DigitRun(ds + rest) == |ds|
  {
    if ds != [] {
      assert (ds + rest)[1..] == ds[1..] + rest;
      DigitRunPrefix(ds[1..], rest);
    }
  }

  /** A number followed by a mark: the digit run stops at the mark. */
  lemma NumberThenMark(ds: string, rest: string)
    requires AllDigits(ds) && ds != [] && rest != [] && !IsDigit(rest[0])
    ensures DigitRun(ds + rest) == |ds| && (ds + rest)[..|ds|] == ds && (ds + rest)[|ds|..] == rest
  {
    DigitRunPrefix(ds, rest);
  }

  /** Text that starts with neither a space nor a separator is left as it is by `lstrip`. */
  lemma LStripKeeps(t: string)
    requires t != [] && !IsSpace(t[0])
    ensures LStrip(t) == t
  {
  }

  /** The hemisphere letter alone closes the text. */
  lemma HemisphereAlone(deg: nat, mins: nat, secs: real, hemi: char)
    requires IsHemisphere(hemi)
    ensures Hemisphere([hemi], deg, mins, secs) == Some(Dms(deg, mins, secs, hemi))
  {
    LStripKeeps([hemi]);
    assert [hemi][1..] == [];
  }

  /** The marked pattern reads `S"H` as S seconds. */
  lemma P2SecondsText(deg: nat, mins: nat, secs: nat, hemi: char)
    requires IsHemisphere(hemi)
    ensures P2Seconds(deg, mins, SecondsText(secs, hemi)) == Some(Dms(deg, mins, secs as real, hemi))
  {
    var c := NatText(secs);
    var y: string := ['"', hemi];
    NumberThenMark(c, y);
    NatTextValue(secs);
    LStripKeeps(y);
    assert y[1..] == [hemi];
    HemisphereAlone(deg, mins, secs as real, hemi);
  }

  /** The marked pattern reads `M'S"H` after the degree sign. */
  lemma P2MinutesText(deg: nat, mins: nat, secs: nat, hemi: char)
    requires IsHemisphere(hemi)
    ensures var v := MinutesText(mins, secs, hemi);
            var w := v[DigitRun(v)..];
            && DigitsValue(v[..DigitRun(v)]) == mins && LStrip(w) == w && w != [] && w[0] == '\''
            && LStrip(w[1..]) == SecondsText(secs, hemi)
  {
    var b := NatText(mins);
    var w := ['\''] + SecondsText(secs, hemi);
    NumberThenMark(b, w);
    NatTextValue(mins);
    LStripKeeps(w);
    assert w[1..] == SecondsText(secs, hemi);
    LStripKeeps(SecondsText(secs, hemi));
  }

  /** The marked pattern reads back the fields of `D°M'S"H` text. */
  lemma Pattern2Text(deg: nat, mins: nat, secs: nat, hemi: char)
    requires IsHemisphere(hemi)
    ensures Pattern2(DmsText(deg, mins, secs, hemi)) == Some(Dms(deg, mins, secs as real, hemi))
  {
    var a := NatText(deg);
    var u := ['\U{B0}'] + MinutesText(mins, secs, hemi);
    var s := DmsText(deg, mins, secs, hemi);
    assert s == a + u;
    LStripKeeps(s);
    NumberThenMark(a, u);
    NatTextValue(deg);
    LStripKeeps(u);
    assert u[1..] == MinutesText(mins, secs, hemi);
    LStripKeeps(MinutesText(mins, secs, hemi));
    P2MinutesText(deg, mins, secs, hemi);
    P2SecondsText(deg, mins, secs, hemi);
  }

  /** `D°M'S"H` text holds a double quote, so the compact pattern never matches it. */
  lemma DmsTextQuoted(deg: nat, mins: nat, secs: nat, hemi: char)
    ensures '"' in DmsText(deg, mins, secs, hemi)
  {
    var a, b, c := NatText(deg), NatText(mins), NatText(secs);
    assert DmsText(deg, mins, secs, hemi)[|a| + 1 + |b| + 1 + |c|] == '"';
  }

  /** The digits and marks that precede the hemisphere letter. */
  predicate MarkChars(s: string)
  {
    forall i :: 0 <= i < |s| ==> IsDigit(s[i]) || s[i] == '\U{B0}' || s[i] == '\'' || s[i] == '"'
  }

  lemma MarkCharsConcat(x: string, y: string)
    requires MarkChars(x) && MarkChars(y)
    ensures MarkChars(x + y)
  {
    forall i | 0 <= i < |x + y|
      ensures var c := (x + y)[i]; IsDigit(c) || c == '\U{B0}' || c == '\'' || c == '"'
    {
      if i >= |x| {
        assert (x + y)[i] == y[i - |x|];
      }
    }
  }

  /** Everything but the hemisphere letter. */
  function DmsBody(deg: nat, mins: nat, secs: nat): string
  {
    NatText(deg) + (['\U{B0}'] + (NatText(mins) + (['\''] + (NatText(secs) + ['"']))))
  }

  lemma DmsBodyShape(deg: nat, mins: nat, secs: nat, hemi: char)
    ensures DmsText(deg, mins, secs, hemi) == DmsBody(deg, mins, secs) + [hemi]
    ensures MarkChars(DmsBody(deg, mins, secs)) && DmsBody(deg, mins, secs)[0] == NatText(deg)[0]
    ensures HasDmsMark(DmsBody(deg, mins, secs)) && HasDmsMark(DmsText(deg, mins, secs, hemi))
  {
    var a, b, c := NatText(deg), NatText(mins), NatText(secs);
    assert DmsBody(deg, mins, secs)[|a|] == '\U{B0}';
    assert DmsText(deg, mins, secs, hemi)[|a|] == '\U{B0}';
    assert c + ['"', hemi] == (c + ['"']) + [hemi];
    MarkCharsConcat(c, ['"']);
    MarkCharsConcat(['\''], c + ['"']);
    MarkCharsConcat(b, ['\''] + (c + ['"']));
    MarkCharsConcat(['\U{B0}'], b + (['\''] + (c + ['"'])));
    MarkCharsConcat(a, ['\U{B0}'] + (b + (['\''] + (c + ['"']))));
  }

  /** Stripping, upper-casing and normalising the marks leave such text as it is. */
  lemma NormaliseMarkChars(body: string, hemi: char)
    requires MarkChars(body) && body != [] && IsDigit(body[0]) && IsHemisphere(hemi)
    ensures NormaliseMarks(Upper(Strip(body + [hemi]))) == body + [hemi]
  {
    StripMarkChars(body, hemi);
    UpperMarkChars(body, hemi);
    KeepMarkChars(body, hemi);
  }

  lemma StripMarkChars(body: string, hemi: char)
    requires body != [] && IsDigit(body[0]) && IsHemisphere(hemi)
    ensures Strip(body + [hemi]) == body + [hemi]
  {
    var s := body + [hemi];
    assert !IsSpace(hemi);
    assert s[0] == body[0] && s[|s| - 1] == hemi;
    StripTrimmed(s);
  }

  lemma UpperMarkChars(body: string, hemi: char)
    requires MarkChars(body) && IsHemisphere(hemi)
    ensures Upper(body + [hemi]) == body + [hemi]
  {
    var s := body + [hemi];
    forall i | 0 <= i < |s|
      ensures UpperChar(s[i]) == s[i]
    {
      if i < |body| {
        assert s[i] == body[i];
      }
    }
  }

  lemma KeepMarkChars(body: string, hemi: char)
    requires MarkChars(body) && IsHemisphere(hemi)
    ensures NormaliseMarks(body + [hemi]) == body + [hemi]
  {
    var s := body + [hemi];
    forall i | 0 <= i < |s|
      ensures s[i] != '\U{BA}' && s[i] != '\U{2019}' && s[i] != '\U{201D}'
    {
      if i < |body| {
        assert s[i] == body[i];
      }
    }
  }

  /** `_parse_dms` reads back the degrees, minutes, seconds and hemisphere it is given. */
  lemma ParseDmsText(deg: nat, mins: nat, secs: nat, hemi: char)
    requires IsHemisphere(hemi)
    ensures ParseDms(DmsText(deg, mins, secs, hemi)) == Some(DmsValue(Dms(deg, mins, secs as real, hemi)))
  {
    DmsBodyShape(deg, mins, secs, hemi);
    NormaliseMarkChars(DmsBody(deg, mins, secs), hemi);
    DmsTextQuoted(deg, mins, secs, hemi);
    Pattern2Text(deg, mins, secs, hemi);
  }

  /** Degrees alone: missing minutes and seconds count as 0. */
  lemma ParseDegreesOnly(deg: nat, hemi: char)
    requires IsHemisphere(hemi)
    ensures ParseDms(NatText(deg) + [hemi]) == Some(DmsValue(Dms(deg, 0, 0.0, hemi)))
  {
    NormaliseMarkChars(NatText(deg), hemi);
    DegreesOnlyMatch(deg, hemi);
  }

  /** The compact pattern reads degrees and a hemisphere letter on its first try. */
  lemma DegreesOnlyMatch(deg: nat, hemi: char)
    requires IsHemisphere(hemi)
    ensures Pattern1(NatText(deg) + [hemi]) == Some(Dms(deg, 0, 0.0, hemi))
  {
    var a := NatText(deg);
    var s := a + [hemi];
    LStripKeeps(s);
    NumberThenMark(a, [hemi]);
    NatTextValue(deg);
    HemisphereAlone(deg, 0, 0.0, hemi);
    assert DigitRun([hemi]) == 0;
    assert P1SecondsGroup(deg, 0, [hemi]) == Some(Dms(deg, 0, 0.0, hemi));
    assert P1AfterDegrees(deg, [hemi]) == Some(Dms(deg, 0, 0.0, hemi));
  }

  // ---------------------------------------------------------------- two readings worked through

  lemma DigitsValue2(ds: string)
    requires |ds| == 2 && IsDigit(ds[0]) && IsDigit(ds[1])
    ensures DigitsValue(ds) == 10 * (ds[0] as int - '0' as int) + (ds[1] as int - '0' as int)
  {
    var one := ds[..1];
    assert one[..0] == [] && one[0] == ds[0];
    assert DigitsValue(one) == ds[0] as int - '0' as int;
    assert ds[..|ds| - 1] == one;
  }

  lemma DigitRunOf2(s: string)
    requires |s| > 2 && IsDigit(s[0]) && IsDigit(s[1]) && !IsDigit(s[2])
    ensures DigitRun(s) == 2
  {
    assert s[1..][1..] == s[2..];
  }

  lemma HemisphereNone(t: string, deg: nat, mins: nat, secs: real)
    requires t != [] && !IsSpace(t[0]) && !IsHemisphere(t[0])
    ensures Hemisphere(t, deg, mins, secs) == None
  {
    LStripKeeps(t);
  }

  lemma SecondsThirty(x: string)
    requires |x| == 3 && x[0] == '3' && x[1] == '0' && x[2] == 'N'
    ensures P1Seconds(12, 0, x, 2) == Some(Dms(12, 0, 30.0, 'N'))
  {
    assert x[2..] == ['N'];
    HemisphereAlone(12, 0, 30.0, 'N');
    DigitsValue2(x[..2]);
    assert P1Fraction(12, 0, 30, x[2..]) == Some(Dms(12, 0, 30.0, 'N'));
  }

  lemma SecondsGroupThirty(y: string)
    requires y == " 30N"
    ensures P1SecondsGroup(12, 0, y) == Some(Dms(12, 0, 30.0, 'N'))
  {
    SecondsThirty(y[1..]);
    DigitRunOf2(y[1..]);
  }

  lemma AfterDegreesThirty(z: string)
    requires z == "  30N"
    ensures P1AfterDegrees(12, z) == Some(Dms(12, 0, 30.0, 'N'))
  {
    SecondsGroupThirty(z[1..]);
    assert DigitRun(z[1..]) == 0;
  }

  /**
   * With two spaces between the numbers, the compact pattern takes the first
   * space as the degree-minute separator, leaves the minutes out and reads
   * the second number as seconds: "12  30N" is 12°0'30"N.
   */
  lemma TwoSpacesReadAsSeconds(s: string)
    requires s == "12  30N"
    ensures DmsMatch(s) == Some(Dms(12, 0, 30.0, 'N'))
  {
    AfterDegreesThirty(s[2..]);
    LStripKeeps(s);
    DigitRunOf2(s);
    DigitsValue2(s[..2]);
    assert Pattern1(s) == Some(Dms(12, 0, 30.0, 'N'));
  }

  /** In "12°30'N" no split of "30'N" leaves the compact pattern an ending it accepts: not "'N", ... */
  lemma NoSecondsAtApostrophe(s: string, deg: nat, mins: nat)
    requires s == "12\U{B0}30'N"
    ensures P1SecondsGroup(deg, mins, s[5..]) == None
  {
    HemisphereNone(s[5..], deg, mins, 0.0);
    assert s[5..][1..] == s[6..] && DigitRun(s[6..]) == 0;
  }

  /** ... nor "0'N", ... */
  lemma NoSecondsAtZero(s: string, deg: nat, mins: nat)
    requires s == "12\U{B0}30'N"
    ensures P1SecondsGroup(deg, mins, s[4..]) == None
  {
    HemisphereNone(s[5..], deg, mins, 0.0);
    HemisphereNone(s[4..], deg, mins, 0.0);
    assert s[4..][1..] == s[5..] && DigitRun(s[4..]) == 1 && DigitsValue(s[4..][..1]) == 0;
    assert P1Seconds(deg, mins, s[4..], 1) == None;
  }

  /** ... nor "30'N", ... */
  lemma NoSecondsAtThirty(s: string, deg: nat, mins: nat)
    requires s == "12\U{B0}30'N"
    ensures P1SecondsGroup(deg, mins, s[3..]) == None
  {
    HemisphereNone(s[5..], deg, mins, 30.0);
    HemisphereNone(s[4..], deg, mins, 3.0);
    HemisphereNone(s[3..], deg, mins, 0.0);
    DigitRunOf2(s[3..]);
    DigitsValue2(s[3..][..2]);
    assert s[3..][1..] == s[4..] && s[3..][2..] == s[5..] && DigitsValue(s[3..][..1]) == 3;
    assert P1Seconds(deg, mins, s[3..], 1) == None;
    assert P1Seconds(deg, mins, s[3..], 2) == None;
  }

  /** ... nor "°30'N", ... */
  lemma NoSecondsAtDegreeSign(s: string, deg: nat, mins: nat)
    requires s == "12\U{B0}30'N"
    ensures P1SecondsGroup(deg, mins, s[2..]) == None
  {
    HemisphereNone(s[2..], deg, mins, 0.0);
    assert DigitRun(s[2..]) == 0;
  }

  /** ... so degrees "12" lead nowhere, ... */
  lemma NoReadingFromTwelve(s: string)
    requires s == "12\U{B0}30'N"
    ensures P1AfterDegrees(12, s[2..]) == None
  {
    NoMinutesFromThirty(s);
    NoSecondsAtThirty(s, 12, 0);
    NoSecondsAtDegreeSign(s, 12, 0);
    assert s[2..][1..] == s[3..] && DigitRun(s[2..]) == 0;
  }

  /** Minutes read from "30'N" as "30", then "3", then left out, lead nowhere. */
  lemma NoMinutesFromThirty(s: string)
    requires s == "12\U{B0}30'N"
    ensures P1Minutes(12, s[3..], 2) == None
  {
    var t := s[3..];
    DigitRunOf2(t);
    NoSecondsAtThirty(s, 12, 0);
    assert P1Minutes(12, t, 0) == None;
    NoSecondsAtZero(s, 12, 3);
    assert t[1..] == s[4..] && DigitsValue(t[..1]) == 3;
    assert P1Minutes(12, t, 1) == None;
    NoSecondsAtApostrophe(s, 12, 30);
    DigitsValue2(t[..2]);
    assert t[2..] == s[5..];
  }

  /** ... nor do degrees "1", ... */
  lemma NoReadingFromOne(s: string)
    requires s == "12\U{B0}30'N"
    ensures P1AfterDegrees(1, s[1..]) == None
  {
    NoSecondsAtDegreeSign(s, 1, 2);
    HemisphereNone(s[2..], 1, 0, 2.0);
    HemisphereNone(s[1..], 1, 0, 0.0);
    assert s[1..][1..] == s[2..] && DigitRun(s[1..]) == 1 && DigitsValue(s[1..][..1]) == 2;
    assert P1Seconds(1, 0, s[1..], 1) == None;
    assert P1SecondsGroup(1, 0, s[1..]) == None;
  }

  /** ... and the compact pattern does not match. */
  lemma NoCompactReading(s: string)
    requires s == "12\U{B0}30'N"
    ensures Pattern1(s) == None
  {
    LStripKeeps(s);
    DigitRunOf2(s);
    assert DigitsValue(s[..1]) == 1 by {
      assert s[..1][..0] == [];
    }
    NoReadingFromOne(s);
    assert P1Degrees(s, 1) == None;
    DigitsValue2(s[..2]);
    NoReadingFromTwelve(s);
    assert P1Degrees(s, 2) == None;
  }

  /** How the marked pattern cuts "12°30'N": degrees and the degree sign, ... */
  lemma MarkedCutsDegrees(s: string)
    requires s == "12\U{B0}30'N"
    ensures LStrip(s) == s && DigitRun(s) == 2
    ensures LStrip(s[2..]) == s[2..] && s[2..] != [] && s[2..][0] == '\U{B0}' && s[2..][1..] == s[3..]
  {
    LStripKeeps(s);
    DigitRunOf2(s);
    LStripKeeps(s[2..]);
  }

  /** ... then minutes, the apostrophe and "N". */
  lemma MarkedCutsMinutes(s: string)
    requires s == "12\U{B0}30'N"
    ensures LStrip(s[3..]) == s[3..] && DigitRun(s[3..]) == 2 && s[3..][2..] == s[5..]
    ensures LStrip(s[5..]) == s[5..] && s[5..] != [] && s[5..][0] == '\'' && s[5..][1..] == s[6..]
    ensures LStrip(s[6..]) == s[6..] && DigitRun(s[6..]) == 0
  {
    LStripKeeps(s[3..]);
    DigitRunOf2(s[3..]);
    LStripKeeps(s[5..]);
    LStripKeeps(s[6..]);
  }

  /** The marked pattern, after "12°30'", finds no seconds before "N". */
  lemma NoMarkedReading(s: string)
    requires s == "12\U{B0}30'N"
    ensures Pattern2(s) == None
  {
    MarkedCutsDegrees(s);
    MarkedCutsMinutes(s);
  }

  /**
   * An apostrophe must be followed by seconds in both patterns, so
   * "12°30'N" is not degree-minute-second text.
   */
  lemma ApostropheNeedsSeconds(s: string)
    requires s == "12\U{B0}30'N"
    ensures ParseDms(s) == None
  {
    NoCompactReading(s);
    NoMarkedReading(s);
    assert DmsMatch(s) == None;
    MarksUnchanged(s);
  }

  lemma MarksUnchanged(s: string)
    requires s == "12\U{B0}30'N"
    ensures NormaliseMarks(Upper(Strip(s))) == s
  {
    assert s == s[..6] + ['N'];
    assert MarkChars(s[..6]);
    NormaliseMarkChars(s[..6], 'N');
  }

  /** The characters of the number group in the hemisphere-suffix pattern of `_to_float_coord_general`. */
  predicate NumberGroupChar(c: char)
  {
    IsDigit(c) || c in ".+-: \U{B0}'\"/"
  }

  /** The length of the leading run of number-group characters. */
  function NumberGroupRun(s: string): (n: nat)
    ensures n <= |s| && forall i :: 0 <= i < n ==> NumberGroupChar(s[i])
    ensures n == |s| || !NumberGroupChar(s[n])
  {
    if s != [] && NumberGroupChar(s[0]) then 1 + NumberGroupRun(s[1..]) else 0
  }

  /**
   * `re.match(r"^\s*([0-9.+\-: °'\"/]+)\s*([NSEW])\s*$", s, re.I)` on
   * stripped text: the number group and the upper-cased hemisphere letter.
   */
  function HemisphereSuffix(s: string): (r: Option<(string, char)>)
    ensures r.Some? ==> IsHemisphere(r.value.1) && r.value.0 != []
    ensures r.Some? ==> forall i :: 0 <= i < |r.value.0| ==> NumberGroupChar(r.value.0[i])
  {
    if s == [] || !IsHemisphere(UpperChar(s[|s| - 1])) then None
    else
      var body := s[..|s| - 1];
      var n := NumberGroupRun(body);
      if n > 0 && LStrip(body[n..]) == [] then Some((body[..n], UpperChar(s[|s| - 1]))) else None
  }

  /** Text holding '°' or ''' (the test `any(ch in s for ch in "°'")`). */
  predicate HasDmsMark(s: string)
  {
    '\U{B0}' in s || '\'' in s
  }

  /** The sign a hemisphere suffix forces: negative for S and W, positive otherwise. */
  function SignedByHemisphere(d: Option<real>, hemi: char): (r: Option<real>)
    ensures r.Some? <==> d.Some?
    ensures r.Some? ==> Abs(r.value) == Abs(d.value)
    ensures r.Some? && IsNegativeHemisphere(hemi) ==> r.value <= 0.0
    ensures r.Some? && !IsNegativeHemisphere(hemi) ==> r.value >= 0.0
  {
    if d.None? then None
    else if IsNegativeHemisphere(hemi) then Some(-Abs(d.value)) else Some(Abs(d.value))
  }

  /**
   * `_to_float_coord_general` AS WRITTEN. With a hemisphere suffix it hands
   * `_parse_dms` the number group WITHOUT the hemisphere letter, which
   * `_parse_dms` requires, so degree-minute-second text with a suffix is
   * never read (see `DmsSuffixLostAsWritten`).
   */
  function ToFloatCoordAsWritten(val: Cell): Option<real>
  {
    match val
    case Missing => None
    case Num(x) => Some(x)
    case Text(t) =>
      var s := Strip(t);
      match HemisphereSuffix(s)
      case Some((num, hemi)) =>
        var d := if HasDmsMark(num) then ParseDms(num) else None;
        SignedByHemisphere(if d.Some? then d else ParseFloat(num), hemi)
      case None =>
        if HasDmsMark(s) then ParseDms(s) else ParseFloat(s)
  }

  /**
   * `_to_float_coord_general` as intended: with a hemisphere suffix, degree-
   * minute-second text is parsed together with its hemisphere letter. A
   * missing cell gives `None`, a number passes through unchanged, and a
   * hemisphere suffix forces the sign.
   */
  function ToFloatCoord(val: Cell): (r: Option<real>)
    ensures val.Missing? ==> r == None
    ensures val.Num? ==> r == Some(val.x)
    ensures val.Text? && r.Some? && HemisphereSuffix(Strip(val.s)).Some? ==>
      var hemi := HemisphereSuffix(Strip(val.s)).value.1;
      (IsNegativeHemisphere(hemi) ==> r.value <= 0.0) && (!IsNegativeHemisphere(hemi) ==> r.value >= 0.0)
  {
    match val
    case Missing => None
    case Num(x) => Some(x)
    case Text(t) =>
      var s := Strip(t);
      match HemisphereSuffix(s)
      case Some((num, hemi)) =>
        var d := if HasDmsMark(num) then ParseDms(num + [hemi]) else None;
        SignedByHemisphere(if d.Some? then d else ParseFloat(num), hemi)
      case None =>
        if HasDmsMark(s) then ParseDms(s) else ParseFloat(s)
  }

  lemma {:induction false} NumberGroupRunAll(s: string)
    requires forall i :: 0 <= i < |s| ==> NumberGroupChar(s[i])
    ensures NumberGroupRun(s) == |s|
  {
    if s != [] {
      NumberGroupRunAll(s[1..]);
    }
  }

  /** Digits and marks followed by a hemisphere letter match the hemisphere-suffix pattern. */
  lemma HemisphereSuffixOf(body: string, hemi: char)
    requires MarkChars(body) && body != [] && IsHemisphere(hemi)
    ensures HemisphereSuffix(body + [hemi]) == Some((body, hemi))
  {
    assert forall i :: 0 <= i < |body| ==> NumberGroupChar(body[i]);
    HemisphereSuffixOfGroup(body, hemi);
  }

  /** Any run of number-group characters followed by a hemisphere letter matches the hemisphere-suffix pattern. */
  lemma HemisphereSuffixOfGroup(body: string, hemi: char)
    requires body != [] && IsHemisphere(hemi)
    requires forall i :: 0 <= i < |body| ==> NumberGroupChar(body[i])
    ensures HemisphereSuffix(body + [hemi]) == Some((body, hemi))
  {
    var s := body + [hemi];
    assert s[..|s| - 1] == body;
    assert UpperChar(hemi) == hemi;
    NumberGroupRunAll(body);
    assert body[..|body|] == body && body[|body|..] == [];
  }

  /** Text without a hemisphere letter is never degree-minute-second text. */
  lemma MarksAloneNoDms(body: string)
    requires MarkChars(body)
    ensures ParseDms(body) == None
  {
    NoHemisphereLetter(body);
    NoHemisphereNoDms(body);
  }

  lemma NoHemisphereLetter(body: string)
    requires MarkChars(body)
    ensures forall i :: 0 <= i < |body| ==> !IsHemisphere(UpperChar(body[i]))
  {
    forall i | 0 <= i < |body|
      ensures !IsHemisphere(UpperChar(body[i]))
    {
      assert !IsLower(body[i]);
    }
  }

  lemma NoHemisphereNoDms(token: string)
    requires forall i :: 0 <= i < |token| ==> !IsHemisphere(UpperChar(token[i]))
    ensures ParseDms(token) == None
  {
  }

  /** Text holding a degree sign or an apostrophe is not a decimal number. */
  lemma MarkedNoFloat(body: string)
    requires HasDmsMark(body)
    ensures ParseFloat(body) == None
  {
    var i :| 0 <= i < |body| && (body[i] == '\U{B0}' || body[i] == '\'');
    assert !FloatChar(body[i]);
  }

  /**
   * As written, digits and marks holding a degree sign or an apostrophe,
   * followed by a hemisphere letter, are dropped as unparseable.
   */
  lemma MarkedSuffixLostAsWritten(body: string, hemi: char)
    requires MarkChars(body) && body != [] && IsDigit(body[0]) && HasDmsMark(body) && IsHemisphere(hemi)
    ensures ToFloatCoordAsWritten(Text(body + [hemi])) == None
  {
    StripMarkChars(body, hemi);
    HemisphereSuffixOf(body, hemi);
    MarksAloneNoDms(body);
    MarkedNoFloat(body);
  }

  /** As written, "12°30'15"N"-style text in an incident table is dropped as unparseable. */
  lemma DmsSuffixLostAsWritten(deg: nat, mins: nat, secs: nat, hemi: char)
    requires IsHemisphere(hemi)
    ensures ToFloatCoordAsWritten(Text(DmsText(deg, mins, secs, hemi))) == None
  {
    DmsBodyShape(deg, mins, secs, hemi);
    MarkedSuffixLostAsWritten(DmsBody(deg, mins, secs), hemi);
  }

  /** As intended, the same text gives its signed decimal degrees. */
  lemma DmsSuffixRead(deg: nat, mins: nat, secs: nat, hemi: char)
    requires IsHemisphere(hemi)
    ensures ToFloatCoord(Text(DmsText(deg, mins, secs, hemi))) == Some(DmsValue(Dms(deg, mins, secs as real, hemi)))
  {
    DmsBodyShape(deg, mins, secs, hemi);
    ParseDmsText(deg, mins, secs, hemi);
    MarkedSuffixRead(DmsBody(deg, mins, secs), hemi, DmsValue(Dms(deg, mins, secs as real, hemi)));
    SignedDmsValue(Dms(deg, mins, secs as real, hemi));
  }

  /** Forcing the hemisphere's sign leaves a degree-minute-second value as it is. */
  lemma SignedDmsValue(d: Dms)
    requires d.secs >= 0.0
    ensures SignedByHemisphere(Some(DmsValue(d)), d.hemi) == Some(DmsValue(d))
  {
    DmsValueSign(d);
  }

  /** Marked text with a hemisphere suffix is read by `_parse_dms` on the whole text, then signed. */
  lemma MarkedSuffixRead(body: string, hemi: char, v: real)
    requires MarkChars(body) && body != [] && IsDigit(body[0]) && HasDmsMark(body) && IsHemisphere(hemi)
    requires ParseDms(body + [hemi]) == Some(v)
    ensures ToFloatCoord(Text(body + [hemi])) == SignedByHemisphere(Some(v), hemi)
  {
    StripMarkChars(body, hemi);
    HemisphereSuffixOf(body, hemi);
  }

  /** Digits and decimal points only. */
  predicate DecimalChars(s: string)
  {
    forall i :: 0 <= i < |s| ==> IsDigit(s[i]) || s[i] == '.'
  }

  /**
   * Decimal text with a hemisphere suffix (`12.5S`) is read by `float()` on
   * the number group and then signed by the hemisphere.
   */
  lemma DecimalSuffixRead(body: string, hemi: char)
    requires body != [] && IsDigit(body[0]) && DecimalChars(body) && IsHemisphere(hemi)
    ensures ToFloatCoord(Text(body + [hemi])) == SignedByHemisphere(ParseFloat(body), hemi)
  {
    StripMarkChars(body, hemi);
    DecimalSuffixSplit(body, hemi);
    DecimalCharsNoMark(body);
  }

  /** So decimal text `d` with a suffix reads as -|d| for S and W and as |d| for N and E. */
  lemma DecimalSuffixValue(body: string, hemi: char, v: real)
    requires body != [] && IsDigit(body[0]) && DecimalChars(body) && IsHemisphere(hemi)
    requires ParseFloat(body) == Some(v)
    ensures ToFloatCoord(Text(body + [hemi])) == Some(if IsNegativeHemisphere(hemi) then -Abs(v) else Abs(v))
  {
    DecimalSuffixRead(body, hemi);
  }

  /** Decimal text followed by a hemisphere letter splits before the letter. */
  lemma DecimalSuffixSplit(body: string, hemi: char)
    requires body != [] && DecimalChars(body) && IsHemisphere(hemi)
    ensures HemisphereSuffix(body + [hemi]) == Some((body, hemi))
  {
    assert forall i :: 0 <= i < |body| ==> NumberGroupChar(body[i]);
    HemisphereSuffixOfGroup(body, hemi);
  }

  /** Decimal text holds no degree sign and no apostrophe. */
  lemma DecimalCharsNoMark(body: string)
    requires DecimalChars(body)
    ensures !HasDmsMark(body)
  {
    forall i | 0 <= i < |body|
      ensures body[i] != '\U{B0}' && body[i] != '\''
    {
    }
  }

  /** "12.5S" reads as -12.5. */
  lemma TwelveFiveSouth(t: string)
    requires |t| == 5 && t[0] == '1' && t[1] == '2' && t[2] == '.' && t[3] == '5' && t[4] == 'S'
    ensures ToFloatCoord(Text(t)) == Some(-12.5)
  {
    var body := t[..4];
    TwelvePointFive(body);
    DecimalSuffixValue(body, 'S', 12.5);
    assert body + ['S'] == t;
  }

  /** `float("12.5")` is 12.5. */
  lemma TwelvePointFive(body: string)
    requires |body| == 4 && body[0] == '1' && body[1] == '2' && body[2] == '.' && body[3] == '5'
    ensures ParseFloat(body) == Some(12.5)
  {
    var whole, frac := body[..2], body[3..];
    assert body == whole + ['.'] + frac;
    PointNumber(whole, frac);
    assert DigitsValue(whole) == 12 by {
      assert DigitsValue(whole[..1]) == 1;
    }
    assert FractionValue(frac) == 0.5 by {
      assert DigitsValue(frac) == 5;
      assert Pow10(1) == 10;
    }
  }

  /** Without a hemisphere suffix, text without `°` or `'` is read by `float()` alone. */
  lemma UnsuffixedNumberRead(t: string)
    requires HemisphereSuffix(Strip(t)).None? && !HasDmsMark(Strip(t))
    ensures ToFloatCoord(Text(t)) == ParseFloat(Strip(t))
  {
  }

  /** Without a hemisphere suffix, text holding `°` or `'` is read by `_parse_dms` alone. */
  lemma UnsuffixedMarkedRead(t: string)
    requires HemisphereSuffix(Strip(t)).None? && HasDmsMark(Strip(t))
    ensures ToFloatCoord(Text(t)) == ParseDms(Strip(t))
  {
  }

  /** A natural number's text in an incident cell reads as that number. */
  lemma NaturalCellRead(n: nat)
    ensures ToFloatCoord(Text(NatText(n))) == Some(n as real)
  {
    var s := NatText(n);
    assert !IsSpace(s[0]) && !IsSpace(s[|s| - 1]);
    StripTrimmed(s);
    assert UpperChar(s[|s| - 1]) == s[|s| - 1];
    assert HemisphereSuffix(s).None?;
    assert !HasDmsMark(s) by {
      forall i | 0 <= i < |s|
        ensures s[i] != '\U{B0}' && s[i] != '\''
      {
      }
    }
    ParseFloatNatText(n);
  }

  /** `_fix_lon_360`: longitudes past 180 wrap by 360, those below -180 are rejected, the rest pass. */
  function FixLon360(lon: Option<real>): (r: Option<real>)
    ensures lon.None? ==> r.None?
    ensures lon.Some? && lon.value > 180.0 ==> r == Some(lon.value - 360.0)
    ensures lon.Some? && lon.value < -180.0 ==> r.None?
    ensures lon.Some? && -180.0 <= lon.value <= 180.0 ==> r == lon
  {
    match lon
    case None => None
    case Some(x) =>
      if x > 180.0 then Some(x - 360.0)
      else if x < -180.0 then None
      else Some(x)
  }

  /** An incident table: its column names in order and its rows by column name. */
  datatype Frame = Frame(columns: seq<string>, rows: seq<map<string, Cell>>)

  const LatAliases: set<string> := {"LAT", "Latitude", "latitude", "Lat", "LATITUDE", "Y", "y", "lat_dd"}
  const LonAliases: set<string> :=
    {"LON", "Longitude", "longitude", "Lon", "LONGITUDE", "X", "x", "lon_dd", "LONG", "long", "LNG", "lng"}

  /** The stripped form of the first column whose stripped name is an alias. */
  function FirstAliasKey(cols: seq<string>, aliases: set<string>): (r: Option<string>)
    ensures r.Some? ==> r.value in aliases && exists c :: c in cols && Strip(c) == r.value
    ensures r.None? ==> forall c :: c in cols ==> Strip(c) !in aliases
  {
    if cols == [] then None
    else if Strip(cols[0]) in aliases then Some(Strip(cols[0]))
    else
      var r := FirstAliasKey(cols[1..], aliases);
      assert forall c :: c in cols <==> c == cols[0] || c in cols[1..];
      r
  }

  /** The last column whose stripped name is `key`: the value `{c.strip(): c for c in columns}` keeps. */
  function LastWithStrip(cols: seq<string>, key: string): (r: Option<string>)
    ensures r.Some? ==> r.value in cols && Strip(r.value) == key
    ensures r.None? ==> forall c :: c in cols ==> Strip(c) != key
  {
    if cols == [] then None
    else
      var last := cols[|cols| - 1];
      if Strip(last) == key then Some(last)
      else
        var init := cols[..|cols| - 1];
        assert cols == init + [last];
        LastWithStrip(init, key)
  }

  /** `next((cols[c] for c in cols if c in ALIASES), None)`. */
  function AliasColumn(cols: seq<string>, aliases: set<string>): (r: Option<string>)
    ensures r.Some? ==> r.value in cols && Strip(r.value) in aliases
  {
    match FirstAliasKey(cols, aliases)
    case None => None
    case Some(k) => LastWithStrip(cols, k)
  }

  predicate StartsWith(s: string, prefix: string)
  {
    |prefix| <= |s| && s[..|prefix|] == prefix
  }

  /** The first column whose lower-cased name starts with one of `prefixes`. */
  function PrefixColumn(cols: seq<string>, prefixes: seq<string>): (r: Option<string>)
    ensures r.Some? ==> r.value in cols && exists p :: p in prefixes && StartsWith(Lower(r.value), p)
  {
    if cols == [] then None
    else if exists p :: p in prefixes && StartsWith(Lower(cols[0]), p) then Some(cols[0])
    else PrefixColumn(cols[1..], prefixes)
  }

  /** The latitude and longitude columns `clean_piracy_df` settles on. */
  function CoordColumns(cols: seq<string>): (Option<string>, Option<string>)
  {
    var lat := AliasColumn(cols, LatAliases);
    var lon := AliasColumn(cols, LonAliases);
    if lat.Some? && lon.Some? then (lat, lon)
    else
      (if lat.Some? then lat else PrefixColumn(cols, ["lat", "y"]),
       if lon.Some? then lon else PrefixColumn(cols, ["lon", "x", "long", "lng"]))
  }

  function CellAt(row: map<string, Cell>, col: string): Cell
  {
    if col in row then row[col] else Missing
  }

  predicate InRange(p: (real, real))
  {
    -90.0 <= p.0 <= 90.0 && -180.0 <= p.1 <= 180.0
  }

  /** The (LAT, LON) a row yields once both cells parse, the longitude is fixed and both are in range. */
  function RowPoint(row: map<string, Cell>, latCol: string, lonCol: string): (r: Option<(real, real)>)
    ensures r.Some? ==> InRange(r.value)
  {
    var lat := ToFloatCoord(CellAt(row, latCol));
    var lon := FixLon360(ToFloatCoord(CellAt(row, lonCol)));
    if lat.Some? && lon.Some? && InRange((lat.value, lon.value)) then Some((lat.value, lon.value)) else None
  }

  /** The points of the rows that yield one, in row order. */
  function RowPoints(rows: seq<map<string, Cell>>, latCol: string, lonCol: string): (r: seq<(real, real)>)
    ensures forall p :: p in r <==> exists row :: row in rows && RowPoint(row, latCol, lonCol) == Some(p)
    ensures forall p :: p in r ==> InRange(p)
  {
    if rows == [] then []
    else
      var last := RowPoint(rows[|rows| - 1], latCol, lonCol);
      var init := RowPoints(rows[..|rows| - 1], latCol, lonCol);
      LastSplit(rows);
      if last.Some? then init + [last.value] else init
  }

  /** A non-empty sequence holds what its front holds and its last element. */
  lemma LastSplit<T>(s: seq<T>)
    requires s != []
    ensures forall x :: x in s <==> x in s[..|s| - 1] || x == s[|s| - 1]
  {
    assert s == s[..|s| - 1] + [s[|s| - 1]];
  }

  /** `drop_duplicates()`: the first occurrence of each point, in order. */
  function Dedup(xs: seq<(real, real)>): (r: seq<(real, real)>)
    ensures forall x :: x in r <==> x in xs
    ensures forall i, j :: 0 <= i < j < |r| ==> r[i] != r[j]
  {
    if xs == [] then []
    else
      var d := Dedup(xs[..|xs| - 1]);
      assert forall x :: x in xs[..|xs| - 1] ==> x in xs;
      assert forall x :: x in xs ==> x in xs[..|xs| - 1] || x == xs[|xs| - 1];
      if xs[|xs| - 1] in d then d else d + [xs[|xs| - 1]]
  }

  /**
   * `clean_piracy_df`: the distinct in-range (LAT, LON) points of the
   * incident table; empty when there is no table, no row, no column, or no
   * latitude or longitude column can be identified.
   */
  function CleanPiracy(df: Option<Frame>): (r: seq<(real, real)>)
    ensures forall p :: p in r ==> InRange(p)
    ensures forall i, j :: 0 <= i < j < |r| ==> r[i] != r[j]
    ensures df.None? || df.value.rows == [] || df.value.columns == [] ==> r == []
    ensures df.Some? && df.value.rows != [] && df.value.columns != [] ==>
      var (lat, lon) := CoordColumns(df.value.columns);
      if lat.None? || lon.None? then r == []
      else forall p :: p in r <==> exists row :: row in df.value.rows && RowPoint(row, lat.value, lon.value) == Some(p)
  {
    if df.None? || df.value.rows == [] || df.value.columns == [] then []
    else
      var (lat, lon) := CoordColumns(df.value.columns);
      if lat.None? || lon.None? then []
      else
        Dedup(RowPoints(df.value.rows, lat.value, lon.value))
  }

  /** A digit, a comma and a digit start at position `i`: a match of `(\d),(\d)`. */
  predicate CommaAt(s: string, i: nat)
  {
    i + 2 < |s| && IsDigit(s[i]) && s[i + 1] == ',' && IsDigit(s[i + 2])
  }

  /** The replacement text `r"\\1.\\2"` produces: an escaped backslash is a literal one. */
  const LiteralReplacement: string := ['\\', '1', '.', '\\', '2']

  /**
   * `re.sub(r"(\d),(\d)", r"\\1.\\2", s)` AS WRITTEN: matches are taken
   * left to right without overlap, and each becomes the literal text
   * backslash, 1, point, backslash, 2 instead of its two digits around a point.
   */
  function CommaSubAsWritten(s: string): string
    decreases |s|
  {
    if CommaAt(s, 0) then LiteralReplacement + CommaSubAsWritten(s[3..])
    else if s == [] then []
    else [s[0]] + CommaSubAsWritten(s[1..])
  }

  /** Every character of the result comes from the text or from the replacement. */
  lemma {:induction false} CommaSubChars(s: string)
    ensures forall c :: c in CommaSubAsWritten(s) ==> c in s || c in LiteralReplacement
    decreases |s|
  {
    if CommaAt(s, 0) {
      CommaSubChars(s[3..]);
      assert forall c :: c in s[3..] ==> c in s;
    } else if s != [] {
      CommaSubChars(s[1..]);
      assert forall c :: c in s[1..] ==> c in s;
    }
  }

  /** The same substitution as intended: each digit-comma-digit becomes digit-point-digit. */
  function DecimalComma(s: string): (r: string)
    ensures |r| == |s|
    decreases |s|
  {
    if CommaAt(s, 0) then [s[0], '.', s[2]] + DecimalComma(s[3..])
    else if s == [] then []
    else [s[0]] + DecimalComma(s[1..])
  }

  /** The substitution only turns commas into points. */
  lemma {:induction false} DecimalCommaChars(s: string)
    ensures forall i :: 0 <= i < |s| ==> DecimalComma(s)[i] == s[i] || (s[i] == ',' && DecimalComma(s)[i] == '.')
    decreases |s|
  {
    if CommaAt(s, 0) {
      DecimalCommaChars(s[3..]);
    } else if s != [] {
      DecimalCommaChars(s[1..]);
    }
  }

  /** Text without a comma passes the substitution unchanged. */
  lemma CommaFreeKept(s: string)
    requires ',' !in s
    ensures DecimalComma(s) == s
  {
    DecimalCommaChars(s);
    var r := DecimalComma(s);
    forall i | 0 <= i < |s|
      ensures r[i] == s[i]
    {
      assert s[i] != ',';
    }
  }

  /** A match anywhere leaves a backslash in the text as written. */
  lemma {:induction false} BackslashAfterSub(s: string, i: nat)
    requires CommaAt(s, i)
    ensures '\\' in CommaSubAsWritten(s)
    decreases |s|
  {
    if CommaAt(s, 0) {
      assert CommaSubAsWritten(s)[0] == '\\';
    } else {
      assert CommaAt(s[1..], i - 1);
      BackslashAfterSub(s[1..], i - 1);
      assert CommaSubAsWritten(s) == [s[0]] + CommaSubAsWritten(s[1..]);
    }
  }

  /** Digits, a comma and digits become the same digits around a point. */
  lemma {:induction false} DecimalCommaOf(x: string, y: string)
    requires x != [] && AllDigits(x) && y != [] && AllDigits(y)
    ensures DecimalComma(x + [','] + y) == x + ['.'] + y
    decreases |x|
  {
    if |x| == 1 {
      CommaAfterDigit(x[0], y);
      assert x + [','] + y == [x[0], ','] + y;
      assert x + ['.'] + y == [x[0], '.'] + y;
    } else {
      DecimalCommaOf(x[1..], y);
      DigitBeforeComma(x, y);
    }
  }

  /** One digit, a comma and digits. */
  lemma CommaAfterDigit(d: char, y: string)
    requires IsDigit(d) && y != [] && AllDigits(y)
    ensures DecimalComma([d, ','] + y) == [d, '.'] + y
  {
    var s := [d, ','] + y;
    assert CommaAt(s, 0);
    assert s[3..] == y[1..];
    assert ',' !in y[1..] by {
      assert forall c :: c in y[1..] ==> IsDigit(c);
    }
    CommaFreeKept(y[1..]);
    assert [s[0], '.', s[2]] + y[1..] == [d, '.'] + y;
  }

  /** A leading digit followed by a digit is copied as it stands. */
  lemma DigitBeforeComma(x: string, y: string)
    requires |x| > 1 && AllDigits(x)
    ensures DecimalComma(x + [','] + y) == [x[0]] + DecimalComma(x[1..] + [','] + y)
    ensures [x[0]] + (x[1..] + ['.'] + y) == x + ['.'] + y
  {
    var s := x + [','] + y;
    assert s[1] == x[1];
    assert !CommaAt(s, 0);
    assert s[1..] == x[1..] + [','] + y;
  }

  /**
   * `_to_float_coord` of `latlon_from_row` AS WRITTEN: the substitution
   * garbles every decimal comma (see `DecimalCommaLostAsWritten`).
   */
  function GazetteerCoordAsWritten(val: string): Option<real>
  {
    var s := CommaSubAsWritten(Strip(val));
    match ParseFloat(s)
    case Some(v) => Some(v)
    case None => ParseDms(s)
  }

  /**
   * `_to_float_coord` of `latlon_from_row` as intended: the stripped text
   * with decimal commas turned into points, read as a decimal number, else
   * as degree-minute-second text, else an error (`None`).
   */
  function GazetteerCoord(val: string): Option<real>
  {
    var s := DecimalComma(Strip(val));
    match ParseFloat(s)
    case Some(v) => Some(v)
    case None => ParseDms(s)
  }

  /** As written, a gazetteer coordinate with a decimal comma (digits, ',', digits) is unsupported. */
  lemma DecimalCommaLostAsWritten(x: string, y: string)
    requires x != [] && AllDigits(x) && y != [] && AllDigits(y)
    ensures GazetteerCoordAsWritten(x + [','] + y) == None
  {
    var t := x + [','] + y;
    CommaNumberShape(x, y);
    DigitEndsStripped(t);
    BackslashAfterSub(t, |x| - 1);
    var s := CommaSubAsWritten(t);
    BackslashNoFloat(s);
    SubNoHemisphere(t);
    NoHemisphereNoDms(s);
    RejectedAsWritten(t, s);
  }

  /** Digits, a comma and digits: digit ends, a match at the comma, and only digits and the comma. */
  lemma CommaNumberShape(x: string, y: string)
    requires x != [] && AllDigits(x) && y != [] && AllDigits(y)
    ensures var t := x + [','] + y;
      IsDigit(t[0]) && IsDigit(t[|t| - 1]) && CommaAt(t, |x| - 1) &&
      forall c :: c in t ==> IsDigit(c) || c == ','
  {
    var t := x + [','] + y;
    assert t[0] == x[0] && t[|t| - 1] == y[|y| - 1];
    assert t[|x| - 1] == x[|x| - 1] && t[|x|] == ',' && t[|x| + 1] == y[0];
    forall c | c in t
      ensures IsDigit(c) || c == ','
    {
      var j :| 0 <= j < |t| && t[j] == c;
      if j < |x| {
        assert t[j] == x[j];
      } else if j > |x| {
        assert t[j] == y[j - |x| - 1];
      }
    }
  }

  /** A backslash is not a character `float()` accepts. */
  lemma BackslashNoFloat(s: string)
    requires '\\' in s
    ensures ParseFloat(s) == None
  {
    assert !FloatChar('\\');
  }

  /** Digits and commas carry no hemisphere letter after the substitution as written. */
  lemma SubNoHemisphere(t: string)
    requires forall c :: c in t ==> IsDigit(c) || c == ','
    ensures forall i :: 0 <= i < |CommaSubAsWritten(t)| ==> !IsHemisphere(UpperChar(CommaSubAsWritten(t)[i]))
  {
    CommaSubChars(t);
    var s := CommaSubAsWritten(t);
    forall i | 0 <= i < |s|
      ensures !IsHemisphere(UpperChar(s[i]))
    {
      assert s[i] in s;
    }
  }

  /** Text that neither reader accepts after the substitution is rejected. */
  lemma RejectedAsWritten(val: string, s: string)
    requires CommaSubAsWritten(Strip(val)) == s && ParseFloat(s) == None && ParseDms(s) == None
    ensures GazetteerCoordAsWritten(val) == None
  {
  }

  /** As intended, the same text reads as the whole part plus the fraction. */
  lemma DecimalCommaRead(val: string, x: string, y: string)
    requires x != [] && AllDigits(x) && y != [] && AllDigits(y) && val == x + [','] + y
    ensures GazetteerCoord(val) == Some(DigitsValue(x) as real + FractionValue(y))
  {
    PointNumber(x, y);
    CommaNumberNormalised(val, x, y);
    ReadAsFloat(val, x + ['.'] + y);
  }

  /** Digits, a comma and digits reach `float()` as the same digits around a point. */
  lemma CommaNumberNormalised(val: string, x: string, y: string)
    requires x != [] && AllDigits(x) && y != [] && AllDigits(y) && val == x + [','] + y
    ensures DecimalComma(Strip(val)) == x + ['.'] + y
  {
    assert val[0] == x[0] && val[|val| - 1] == y[|y| - 1];
    DigitEndsStripped(val);
    DecimalCommaOf(x, y);
  }

  /** A blank or empty cell is rejected: `float("")` fails and there is no hemisphere letter. */
  lemma BlankCoordRejected(val: string)
    requires forall i :: 0 <= i < |val| ==> IsSpace(val[i])
    ensures GazetteerCoord(val) == None
  {
    assert LStrip(val) == [];
    var s := DecimalComma(Strip(val));
    assert s == [];
    NoHemisphereNoDms(s);
  }

  /**
   * Minutes with an apostrophe but no seconds are neither a number nor
   * degree-minute-second text, so `latlon_from_row` fails on "12°30'N".
   */
  lemma ApostropheCoordRejected(s: string)
    requires s == "12\U{B0}30'N"
    ensures GazetteerCoord(s) == None
  {
    StripTrimmed(s);
    CommaFreeKept(s);
    assert HasDmsMark(s) by {
      assert s[2] == '\U{B0}';
    }
    MarkedNoFloat(s);
    ApostropheNeedsSeconds(s);
  }

  /** Text `float()` accepts after normalisation is read as that number. */
  lemma ReadAsFloat(val: string, s: string)
    requires DecimalComma(Strip(val)) == s && ParseFloat(s).Some?
    ensures GazetteerCoord(val) == ParseFloat(s)
  {
  }

  /** Digits, a point and digits are a decimal number for `float()`. */
  lemma PointNumber(x: string, y: string)
    requires x != [] && AllDigits(x) && y != [] && AllDigits(y)
    ensures ParseFloat(x + ['.'] + y) == Some(DigitsValue(x) as real + FractionValue(y))
  {
    var s := x + ['.'] + y;
    DigitEndsStripped(s);
    UnsignedPoint(x, y);
    assert !(s[0] == '+' || s[0] == '-');
    assert ParseSigned(s) == ParseUnsigned(s);
  }

  /** Text that starts and ends with a digit has nothing to strip. */
  lemma DigitEndsStripped(s: string)
    requires s != [] && IsDigit(s[0]) && IsDigit(s[|s| - 1])
    ensures Strip(s) == s
  {
    assert !IsSpace(s[0]) && !IsSpace(s[|s| - 1]);
    StripTrimmed(s);
  }

  /** Digits, a point and digits: the whole part plus the fraction. */
  lemma UnsignedPoint(x: string, y: string)
    requires x != [] && AllDigits(x) && y != [] && AllDigits(y)
    ensures ParseUnsigned(x + ['.'] + y) == Some(DigitsValue(x) as real + FractionValue(y))
  {
    PointShape(x, y);
    UnsignedWithPoint(x + ['.'] + y, x, y);
  }

  /** Digits, a point and digits: where the digit runs end. */
  lemma PointShape(x: string, y: string)
    requires x != [] && AllDigits(x) && y != [] && AllDigits(y)
    ensures var s := x + ['.'] + y;
      |x| < |s| && s[..|x|] == x && s[|x|] == '.' && s[|x| + 1..] == y && DigitRun(s) == |x| && DigitRun(y) == |y|
  {
    PointSlices(x, y);
    PointRun(x, y);
    DigitRunAll(y);
  }

  /** The parts of digits, a point and digits. */
  lemma PointSlices(x: string, y: string)
    ensures var s := x + ['.'] + y;
      |x| < |s| && s[..|x|] == x && s[|x|] == '.' && s[|x| + 1..] == y
  {
    var s := x + ['.'] + y;
    assert s[..|x|] == x;
    assert s[|x| + 1..] == y;
  }

  /** The leading digit run of digits, a point and digits stops at the point. */
  lemma PointRun(x: string, y: string)
    requires AllDigits(x)
    ensures DigitRun(x + ['.'] + y) == |x|
  {
    assert x + ['.'] + y == x + (['.'] + y);
    DigitRunPrefix(x, ['.'] + y);
  }

  /** A digit run up to a point, followed by digits to the end: the whole part plus the fraction. */
  lemma UnsignedWithPoint(s: string, x: string, y: string)
    requires x != [] && AllDigits(x) && AllDigits(y)
    requires |x| < |s| && s[..|x|] == x && s[|x|] == '.' && s[|x| + 1..] == y
    requires DigitRun(s) == |x| && DigitRun(y) == |y|
    ensures ParseUnsigned(s) == Some(DigitsValue(x) as real + FractionValue(y))
  {
    assert |y| == |s| - |x| - 1;
    assert DigitRun(s[|x| + 1..]) == |s| - |x| - 1;
  }

  /** "12,5" is unsupported as written. */
  lemma TwelveCommaFiveLost()
    ensures GazetteerCoordAsWritten("12,5") == None
  {
    assert "12,5" == "12" + [','] + "5";
    DecimalCommaLostAsWritten("12", "5");
  }

  /** "12,5" reads as 12.5 as intended. */
  lemma TwelveCommaFiveRead()
    ensures GazetteerCoord("12,5") == Some(12.5)
  {
    TwelveAndAHalfValue();
    DecimalCommaRead("12,5", "12", "5");
  }

  /** The whole part 12 and the fraction 5 make 12.5. */
  lemma TwelveAndAHalfValue()
    ensures DigitsValue("12") as real + FractionValue("5") == 12.5
  {
    assert DigitsValue("1") == 1;
    assert DigitsValue("12") == 12 by {
      assert "12"[..1] == "1";
    }
    assert DigitsValue("5") == 5;
    assert Pow10(1) == 10;
  }

  /** `r.get(key)` with a missing field read as empty text. */
  function Field(row: map<string, string>, key: string): string
  {
    if key in row then row[key] else ""
  }

  /**
   * `latlon_from_row`: the (lat, lon) of a gazetteer row; `None` stands for
   * the ValueError it raises when either field is unsupported.
   */
  function LatLonFromRow(row: map<string, string>): Option<(real, real)>
  {
    var lat := GazetteerCoord(Field(row, "Latitude"));
    var lon := GazetteerCoord(Field(row, "Longitude"));
    if lat.Some? && lon.Some? then Some((lat.value, lon.value)) else None
  }

  /** A row with plain decimal degrees gives them back. */
  lemma LatLonFromDecimalRow(row: map<string, string>, lat: nat, lon: nat)
    requires "Latitude" in row && row["Latitude"] == NatText(lat)
    requires "Longitude" in row && row["Longitude"] == NatText(lon)
    ensures LatLonFromRow(row) == Some((lat as real, lon as real))
  {
    DecimalCoord(lat);
    DecimalCoord(lon);
  }

  lemma DecimalCoord(n: nat)
    ensures GazetteerCoord(NatText(n)) == Some(n as real)
  {
    var s := NatText(n);
    assert !IsSpace(s[0]) && !IsSpace(s[|s| - 1]);
    StripTrimmed(s);
    CommaFreeKept(s);
    ParseFloatNatText(n);
  }

  /** A row with degree-minute-second text gives the signed decimal degrees. */
  lemma LatLonFromDmsRow(row: map<string, string>, lat: Dms, lon: Dms)
    requires IsHemisphere(lat.hemi) && IsHemisphere(lon.hemi) && lat.secs.Floor as real == lat.secs && lon.secs.Floor as real == lon.secs
    requires lat.secs >= 0.0 && lon.secs >= 0.0
    requires "Latitude" in row && row["Latitude"] == DmsText(lat.deg, lat.mins, lat.secs.Floor as nat, lat.hemi)
    requires "Longitude" in row && row["Longitude"] == DmsText(lon.deg, lon.mins, lon.secs.Floor as nat, lon.hemi)
    ensures LatLonFromRow(row) == Some((DmsValue(lat), DmsValue(lon)))
  {
    DmsCoord(lat.deg, lat.mins, lat.secs.Floor as nat, lat.hemi);
    DmsCoord(lon.deg, lon.mins, lon.secs.Floor as nat, lon.hemi);
  }

  lemma DmsCoord(deg: nat, mins: nat, secs: nat, hemi: char)
    requires IsHemisphere(hemi)
    ensures GazetteerCoord(DmsText(deg, mins, secs, hemi)) == Some(DmsValue(Dms(deg, mins, secs as real, hemi)))
  {
    var body := DmsBody(deg, mins, secs);
    var s := DmsText(deg, mins, secs, hemi);
    DmsBodyShape(deg, mins, secs, hemi);
    StripMarkChars(body, hemi);
    assert ',' !in s by {
      assert s == body + [hemi];
      forall i | 0 <= i < |s|
        ensures s[i] != ','
      {
        if i < |body| {
          assert s[i] == body[i];
        }
      }
    }
    CommaFreeKept(s);
    MarkedNoFloat(s);
    ParseDmsText(deg, mins, secs, hemi);
  }
}
