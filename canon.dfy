/**
 * The port-name canonicaliser `canon_name` of utils.py: strip accents,
 * lower-case, blank out parenthesised text, turn punctuation into spaces,
 * split into tokens, drop generic stopwords and re-join with single spaces.
 * The result is the join key between the port gazetteer and the congestion
 * and alias tables.
 */
module Canon {
  import opened Wrappers
  import opened PyText

  /** Generic words that never distinguish one port from another. */
  const Stopwords: set<string> :=
    {"port", "pelabuhan", "pel", "harbour", "harbor", "terminal", "marine", "maritime", "of", "the", "pt", "portos"}

  /** Python's `string.punctuation`: the printable ASCII characters that are neither letters, digits nor space. */
  predicate IsPunct(c: char)
  {
    ('!' <= c <= '/') || (':' <= c <= '@') || ('[' <= c <= '`') || ('{' <= c <= '~')
  }

  /** Combining marks: the characters `unicodedata.combining` reports as non-zero, by Unicode block. */
  predicate IsCombining(c: char)
  {
    || ('\U{0300}' <= c <= '\U{036F}') || ('\U{1AB0}' <= c <= '\U{1AFF}')
    || ('\U{1DC0}' <= c <= '\U{1DFF}') || ('\U{20D0}' <= c <= '\U{20FF}') || ('\U{FE20}' <= c <= '\U{FE2F}')
  }

  /** A character that can survive canonicalisation. */
  predicate CleanChar(c: char)
  {
    !IsPunct(c) && !IsUpper(c) && !IsCombining(c)
  }

  predicate AllClean(s: string)
  {
    forall i :: 0 <= i < |s| ==> CleanChar(s[i])
  }

  predicate NotCombining(c: char)
  {
    !IsCombining(c)
  }

  /** `_strip_accents` on already-decomposed text: drop every combining mark, keep the rest in order. */
  function StripAccents(s: string): (r: string)
    ensures forall i :: 0 <= i < |r| ==> !IsCombining(r[i]) && r[i] in s
    ensures forall i :: 0 <= i < |s| && !IsCombining(s[i]) ==> s[i] in r
    ensures (forall i :: 0 <= i < |s| ==> !IsCombining(s[i])) ==> r == s
  {
    FilterMembers(s, NotCombining);
    if forall i :: 0 <= i < |s| ==> NotCombining(s[i]) then
      FilterAll(s, NotCombining);
      Filter(s, NotCombining)
    else Filter(s, NotCombining)
  }

  /**
   * The offset in `s` of the first ')' when no newline comes before it: the
   * end of the shortest match of `.*?\)`, since `.` does not match a newline.
   */
  function CloseParen(s: string): (r: Option<nat>)
    ensures r.Some? ==> r.value < |s| && s[r.value] == ')'
    ensures r.Some? ==> forall k :: 0 <= k < r.value ==> s[k] != ')' && s[k] != '\n'
    ensures r.None? ==> forall k :: 0 <= k < |s| && s[k] == ')' ==> exists j :: 0 <= j < k && s[j] == '\n'
  {
    if s == [] then None
    else if s[0] == ')' then Some(0)
    else if s[0] == '\n' then None
    else
      match CloseParen(s[1..])
      case Some(k) => Some(k + 1)
      case None =>
        assert forall k :: 1 <= k < |s| && s[k] == ')' ==> s[1..][k - 1] == ')';
        None
  }

  /**
   * `re.sub(r"\(.*?\)", " ", s)`: scanning left to right, each '(' with a
   * later ')' on the same line is replaced, together with that nearest ')'
   * and everything between, by one space.
   */
  function DropParens(s: string): (r: string)
    ensures forall i :: 0 <= i < |r| ==> r[i] == ' ' || r[i] in s
    decreases |s|
  {
    if s == [] then []
    else if s[0] == '(' && CloseParen(s[1..]).Some? then
      var rest := s[CloseParen(s[1..]).value + 2..];
      var t := DropParens(rest);
      assert forall i :: 0 <= i < |t| && t[i] in rest ==> t[i] in s;
      " " + t
    else
      var t := DropParens(s[1..]);
      assert forall i :: 0 <= i < |t| && t[i] in s[1..] ==> t[i] in s;
      [s[0]] + t
  }

  /** Text without '(' has nothing to blank out. */
  lemma {:induction false} DropParensNoOpen(s: string)
    requires '(' !in s
    ensures DropParens(s) == s
  {
    if s != [] {
      DropParensNoOpen(s[1..]);
    }
  }

  /** A parenthesised part, up to the nearest ')', becomes one space; the text before it is kept. */
  lemma {:induction false} DropParensGroup(a: string, m: string, b: string)
    requires '(' !in a && ')' !in m && '\n' !in m
    ensures DropParens(a + "(" + m + ")" + b) == a + " " + DropParens(b)
  {
    var s := a + "(" + m + ")" + b;
    if a == [] {
      assert s[1..] == m + ")" + b;
      CloseParenAt(m, b);
      assert s[|m| + 2..] == b;
    } else {
      assert s[1..] == a[1..] + "(" + m + ")" + b;
      DropParensGroup(a[1..], m, b);
    }
  }

  lemma {:induction false} CloseParenAt(m: string, b: string)
    requires ')' !in m && '\n' !in m
    ensures CloseParen(m + ")" + b) == Some(|m|)
  {
    if m != [] {
      assert (m + ")" + b)[1..] == m[1..] + ")" + b;
      CloseParenAt(m[1..], b);
    }
  }

  /** Every punctuation character becomes a space. */
  function Depunct(s: string): (r: string)
    ensures |r| == |s|
    ensures forall i :: 0 <= i < |s| ==> r[i] == if IsPunct(s[i]) then ' ' else s[i]
  {
    seq(|s|, i requires 0 <= i < |s| => if IsPunct(s[i]) then ' ' else s[i])
  }

  /** The text that is split into tokens: the steps of utils.py before `split()`. */
  function Clean(s: string): (r: string)
    ensures AllClean(r)
  {
    var a := StripAccents(s);
    var l := Lower(a);
    assert forall i :: 0 <= i < |l| ==> !IsCombining(l[i]);
    var p := DropParens(l);
    assert forall i :: 0 <= i < |p| ==> !IsUpper(p[i]) && !IsCombining(p[i]) by {
      forall i | 0 <= i < |p| ensures !IsUpper(p[i]) && !IsCombining(p[i]) {
        if p[i] != ' ' {
          var j :| 0 <= j < |l| && l[j] == p[i];
        }
      }
    }
    Depunct(p)
  }

  /** The length of the leading non-space run of `s`. */
  function WordLen(s: string): (n: nat)
    ensures n <= |s| && NoSpace(s[..n])
    ensures n == |s| || IsSpace(s[n])
    ensures s != [] && !IsSpace(s[0]) ==> n > 0
  {
    if s != [] && !IsSpace(s[0]) then 1 + WordLen(s[1..]) else 0
  }

  /** `s.split()`: the maximal runs of non-space characters, in order. */
  function Words(s: string): (ws: seq<string>)
    ensures forall j :: 0 <= j < |ws| ==> ws[j] != [] && NoSpace(ws[j])
    ensures forall j, k :: 0 <= j < |ws| && 0 <= k < |ws[j]| ==> ws[j][k] in s
    decreases |s|
  {
    if s == [] then []
    else if IsSpace(s[0]) then
      var ws := Words(s[1..]);
      assert forall j, k :: 0 <= j < |ws| && 0 <= k < |ws[j]| && ws[j][k] in s[1..] ==> ws[j][k] in s;
      ws
    else
      var n := WordLen(s);
      var ws := Words(s[n..]);
      assert forall j, k :: 0 <= j < |ws| && 0 <= k < |ws[j]| && ws[j][k] in s[n..] ==> ws[j][k] in s;
      assert forall k :: 0 <= k < n ==> s[..n][k] in s;
      [s[..n]] + ws
  }

  /** A space ends the leading run: what follows it does not matter. */
  lemma {:induction false} WordLenBeforeSpace(a: string, c: char, b: string)
    requires IsSpace(c)
    ensures WordLen(a + [c] + b) == WordLen(a)
    decreases |a|
  {
    if a != [] && !IsSpace(a[0]) {
      WordLenBeforeSpace(a[1..], c, b);
      assert (a + [c] + b)[1..] == a[1..] + [c] + b;
    }
  }

  /** `split()` of two texts joined by a space is the words of the first followed by those of the second. */
  lemma {:induction false} WordsAtSpace(a: string, c: char, b: string)
    requires IsSpace(c)
    ensures Words(a + [c] + b) == Words(a) + Words(b)
    decreases |a|
  {
    var s := a + [c] + b;
    if a == [] {
      assert s[1..] == b;
    } else if IsSpace(a[0]) {
      WordsAtSpace(a[1..], c, b);
      assert s[1..] == a[1..] + [c] + b;
    } else {
      WordsAtSpace(a[WordLen(a)..], c, b);
      WordsAtSpaceStep(a, c, b);
    }
  }

  /** The step of `WordsAtSpace` for a text starting with a word: the word comes first on both sides. */
  lemma WordsAtSpaceStep(a: string, c: char, b: string)
    requires IsSpace(c) && a != [] && !IsSpace(a[0])
    requires Words(a[WordLen(a)..] + [c] + b) == Words(a[WordLen(a)..]) + Words(b)
    ensures Words(a + [c] + b) == Words(a) + Words(b)
  {
    var n := WordLen(a);
    FirstWordBeforeSpace(a, c, b);
    WordsFirst(a);
    AppendAssoc([a[..n]], Words(a[n..]), Words(b));
  }


  /** The first word of a text is also the first word once a space and more text follow it. */
  lemma FirstWordBeforeSpace(a: string, c: char, b: string)
    requires IsSpace(c) && a != [] && !IsSpace(a[0])
    ensures Words(a + [c] + b) == [a[..WordLen(a)]] + Words(a[WordLen(a)..] + [c] + b)
  {
    var s := a + [c] + b;
    var n := WordLen(a);
    WordLenBeforeSpace(a, c, b);
    assert s[..n] == a[..n] && s[n..] == a[n..] + [c] + b;
    WordsFirst(s);
  }

  /** A text starting with a non-space character splits into its leading run and the words of the rest. */
  lemma WordsFirst(s: string)
    requires s != [] && !IsSpace(s[0])
    ensures Words(s) == [s[..WordLen(s)]] + Words(s[WordLen(s)..])
  {
  }

  /** A non-empty text without spaces is one word. */
  lemma WordsOfWord(w: string)
    requires w != [] && NoSpace(w)
    ensures Words(w) == [w]
  {
    assert WordLen(w) == |w|;
    assert w[..|w|] == w && w[|w|..] == [];
  }

  /** Text made only of spaces has no words. */
  lemma {:induction false} WordsOfBlank(s: string)
    requires forall i :: 0 <= i < |s| ==> IsSpace(s[i])
    ensures Words(s) == []
    decreases |s|
  {
    if s != [] {
      WordsOfBlank(s[1..]);
    }
  }

  predicate NotStopword(w: string)
  {
    w !in Stopwords
  }

  /** The list comprehension of utils.py: keep the tokens that are not stopwords. */
  function DropStopwords(ws: seq<string>): (r: seq<string>)
    ensures forall j :: 0 <= j < |r| ==> r[j] in ws && r[j] !in Stopwords
    ensures forall j :: 0 <= j < |ws| && ws[j] !in Stopwords ==> ws[j] in r
    ensures (forall j :: 0 <= j < |ws| ==> ws[j] !in Stopwords) ==> r == ws
  {
    FilterMembers(ws, NotStopword);
    if forall j :: 0 <= j < |ws| ==> NotStopword(ws[j]) then
      FilterAll(ws, NotStopword);
      Filter(ws, NotStopword)
    else Filter(ws, NotStopword)
  }

  /** `" ".join(ws)`. */
  function Join(ws: seq<string>): string
  {
    if ws == [] then ""
    else if |ws| == 1 then ws[0]
    else ws[0] + " " + Join(ws[1..])
  }

  /** The tokens of `s` that survive canonicalisation. */
  function Tokens(s: string): seq<string>
  {
    DropStopwords(Words(Clean(s)))
  }

  /** `canon_name(s)`. */
  function CanonName(s: string): string
  {
    if s == "" then "" else Join(Tokens(s))
  }

  /** A token that canonicalisation keeps unchanged. */
  predicate GoodToken(w: string)
  {
    w != [] && NoSpace(w) && AllClean(w) && w !in Stopwords
  }

  predicate AllGood(ws: seq<string>)
  {
    forall j :: 0 <= j < |ws| ==> GoodToken(ws[j])
  }

  /** Canonical text: clean characters, no space other than ' ', single spaces between tokens, none at either end. */
  predicate Canonical(r: string)
  {
    && AllClean(r)
    && (forall i :: 0 <= i < |r| && IsSpace(r[i]) ==> r[i] == ' ')
    && (r == [] || (r[0] != ' ' && r[|r| - 1] != ' '))
    && (forall i :: 0 <= i < |r| - 1 ==> !(r[i] == ' ' && r[i + 1] == ' '))
  }

  lemma TokensGood(s: string)
    ensures AllGood(Tokens(s))
  {
    var c := Clean(s);
    var ws := Words(c);
    var ts := Tokens(s);
    forall j | 0 <= j < |ts| ensures GoodToken(ts[j]) {
      var w := ts[j];
      var k :| 0 <= k < |ws| && ws[k] == w;
      forall i | 0 <= i < |w| ensures CleanChar(w[i]) {
        var m :| 0 <= m < |c| && c[m] == w[i];
      }
    }
  }

  /** Joining good tokens gives canonical text. */
  lemma {:induction false} JoinCanonical(ws: seq<string>)
    requires AllGood(ws)
    ensures Canonical(Join(ws))
    ensures ws != [] ==> Join(ws) != []
  {
    if |ws| > 1 {
      JoinCanonical(ws[1..]);
      var j := Join(ws);
      var w := ws[0];
      var t := Join(ws[1..]);
      assert j == w + " " + t;
      forall i | 0 <= i < |j| ensures CleanChar(j[i]) && (IsSpace(j[i]) ==> j[i] == ' ') {
        if i < |w| {
          assert j[i] == w[i];
        } else if i > |w| {
          assert j[i] == t[i - |w| - 1];
        }
      }
      forall i | 0 <= i < |j| - 1 ensures !(j[i] == ' ' && j[i + 1] == ' ') {
        if i < |w| {
          assert j[i] == w[i];
        } else if i > |w| {
          assert j[i] == t[i - |w| - 1] && j[i + 1] == t[i - |w|];
        } else {
          assert j[i + 1] == t[0];
        }
      }
    }
  }

  /** A word followed by nothing or by a space is read as one word. */
  lemma {:induction false} WordLenOf(w: string, rest: string)
    requires NoSpace(w)
    requires rest == [] || IsSpace(rest[0])
    ensures WordLen(w + rest) == |w|
  {
    var s := w + rest;
    if w != [] {
      assert s[0] == w[0] && !IsSpace(s[0]);
      assert s[1..] == w[1..] + rest;
      assert NoSpace(w[1..]) by {
        assert forall i :: 0 <= i < |w| - 1 ==> w[1..][i] == w[i + 1];
      }
      WordLenOf(w[1..], rest);
    } else {
      assert s == rest;
    }
  }

  /** A leading word followed by nothing or by a space is split off first. */
  lemma WordsCons(w: string, rest: string)
    requires w != [] && NoSpace(w)
    requires rest == [] || IsSpace(rest[0])
    ensures Words(w + rest) == [w] + Words(rest)
  {
    var s := w + rest;
    WordLenOf(w, rest);
    assert s[0] == w[0] && !IsSpace(s[0]);
    assert s[..|w|] == w && s[|w|..] == rest;
  }

  /** Splitting joined tokens gives the tokens back. */
  lemma {:induction false} WordsOfJoin(ws: seq<string>)
    requires forall j :: 0 <= j < |ws| ==> ws[j] != [] && NoSpace(ws[j])
    ensures Words(Join(ws)) == ws
  {
    if |ws| == 1 {
      WordsCons(ws[0], []);
      assert ws[0] + [] == ws[0];
    } else if |ws| > 1 {
      var w := ws[0];
      var t := Join(ws[1..]);
      assert Join(ws) == w + (" " + t);
      WordsCons(w, " " + t);
      assert Words(" " + t) == Words(t) by {
        assert (" " + t)[1..] == t;
      }
      WordsOfJoin(ws[1..]);
    }
  }

  /** Canonicalisation output: clean characters, single-space separated tokens, no stopword token. */
  lemma CanonNameCanonical(s: string)
    ensures Canonical(CanonName(s))
    ensures forall w :: w in Words(CanonName(s)) ==> w !in Stopwords
    ensures s == "" ==> CanonName(s) == ""
  {
    if s != "" {
      TokensGood(s);
      JoinCanonical(Tokens(s));
      WordsOfJoin(Tokens(s));
    }
  }

  /** Canonical text passes unchanged through every step before `split()`. */
  lemma CleanCanonical(r: string)
    requires Canonical(r)
    ensures Clean(r) == r
  {
    CleanCharsKept(r);
    DropParensNoOpen(r);
    assert Clean(r) == Depunct(DropParens(Lower(StripAccents(r))));
  }

  /** Clean characters pass through accent stripping, lower-casing and punctuation blanking. */
  lemma CleanCharsKept(s: string)
    requires AllClean(s)
    ensures StripAccents(s) == s && Lower(s) == s && Depunct(s) == s && '(' !in s
  {
    assert forall i :: 0 <= i < |s| ==> !IsCombining(s[i]) && !IsUpper(s[i]) && !IsPunct(s[i]);
  }

  /** `canon_name(canon_name(x)) == canon_name(x)`. */
  lemma CanonNameIdempotent(s: string)
    ensures CanonName(CanonName(s)) == CanonName(s)
  {
    var r := CanonName(s);
    if r != "" {
      TokensGood(s);
      var ts := Tokens(s);
      JoinCanonical(ts);
      CleanCanonical(r);
      WordsOfJoin(ts);
      assert Words(Clean(r)) == ts;
      assert DropStopwords(ts) == ts;
    }
  }

  /** Text without punctuation or combining marks reaches `split()` merely lower-cased. */
  lemma CleanPlain(s: string)
    requires forall i :: 0 <= i < |s| ==> !IsCombining(s[i]) && !IsPunct(s[i])
    ensures Clean(s) == Lower(s)
  {
    var l := Lower(s);
    assert StripAccents(s) == s;
    LowerPlain(s);
    DropParensNoOpen(l);
    assert Depunct(l) == l;
  }

  /** Lower-casing keeps text free of punctuation and combining marks. */
  lemma LowerPlain(s: string)
    requires forall i :: 0 <= i < |s| ==> !IsCombining(s[i]) && !IsPunct(s[i])
    ensures forall i :: 0 <= i < |s| ==> !IsCombining(Lower(s)[i]) && !IsPunct(Lower(s)[i])
    ensures '(' !in Lower(s)
  {
  }

  lemma LowerPortOfRotterdam(s: string)
    requires s == "Port of Rotterdam"
    ensures Clean(s) == "port of rotterdam"
  {
    assert forall i :: 0 <= i < |s| ==> !IsCombining(s[i]) && !IsPunct(s[i]);
    CleanPlain(s);
    assert Lower(s) == "port of rotterdam" by {
      LowerLiteral(s);
    }
  }

  lemma LowerLiteral(s: string)
    requires s == "Port of Rotterdam"
    ensures Lower(s) == "port of rotterdam"
  {
  }

  lemma SplitPortOfRotterdam(l: string)
    requires l == "port of rotterdam"
    ensures Words(l) == ["port", "of", "rotterdam"]
  {
    assert l == Join(["port", "of", "rotterdam"]);
    WordsOfJoin(["port", "of", "rotterdam"]);
  }

  lemma DropPortOf(ws: seq<string>)
    requires ws == ["port", "of", "rotterdam"]
    ensures DropStopwords(ws) == ["rotterdam"]
  {
    assert !NotStopword(ws[0]) && !NotStopword(ws[1]) && NotStopword(ws[2]);
    FilterCons(ws[0], ws[1..], NotStopword);
    FilterCons(ws[1], ws[2..], NotStopword);
    FilterOne(ws[2], NotStopword);
    assert ws == [ws[0]] + ws[1..] && ws[1..] == [ws[1]] + ws[2..] && ws[2..] == [ws[2]];
    assert DropStopwords(ws) == Filter(ws, NotStopword);
  }

  /** "Port of Rotterdam" loses its two stopwords. */
  lemma PortOfRotterdam(s: string)
    requires s == "Port of Rotterdam"
    ensures CanonName(s) == "rotterdam"
  {
    LowerPortOfRotterdam(s);
    SplitPortOfRotterdam(Clean(s));
    DropPortOf(Words(Clean(s)));
  }

  lemma NoAccentsRotterdamPort(s: string)
    requires s == "ROTTERDAM (Port)"
    ensures StripAccents(s) == s
  {
    assert forall i :: 0 <= i < |s| ==> !IsCombining(s[i]);
  }

  lemma LowerRotterdamPort(s: string)
    requires s == "ROTTERDAM (Port)"
    ensures Lower(s) == "rotterdam (port)"
  {
  }

  lemma BlankRotterdamPort(l: string)
    requires l == "rotterdam (port)"
    ensures Depunct(DropParens(l)) == "rotterdam" + "  "
  {
    DropParensRotterdam(l);
    var d := "rotterdam  ";
    assert forall i :: 0 <= i < |d| ==> 'a' <= d[i] <= 'z' || d[i] == ' ';
    DepunctPlain(d);
  }

  lemma DepunctPlain(s: string)
    requires forall i :: 0 <= i < |s| ==> 'a' <= s[i] <= 'z' || s[i] == ' '
    ensures Depunct(s) == s
  {
  }

  lemma DropParensRotterdam(l: string)
    requires l == "rotterdam (port)"
    ensures DropParens(l) == "rotterdam  "
  {
    assert l == "rotterdam " + "(" + "port" + ")" + "";
    DropParensGroup("rotterdam ", "port", "");
  }

  lemma CleanRotterdamPort(s: string)
    requires s == "ROTTERDAM (Port)"
    ensures Clean(s) == "rotterdam" + "  "
  {
    NoAccentsRotterdamPort(s);
    LowerRotterdamPort(s);
    BlankRotterdamPort(Lower(s));
  }

  lemma SplitRotterdam(c: string)
    requires c == "rotterdam" + "  "
    ensures Words(c) == ["rotterdam"]
  {
    WordsCons("rotterdam", "  ");
    assert Words("  ") == [] by {
      assert "  "[1..] == " " && " "[1..] == [];
    }
  }

  lemma KeepRotterdam(ws: seq<string>)
    requires ws == ["rotterdam"]
    ensures DropStopwords(ws) == ["rotterdam"]
  {
  }

  /** "ROTTERDAM (Port)" loses its parenthesised part. */
  lemma RotterdamParenthesised(s: string)
    requires s == "ROTTERDAM (Port)"
    ensures CanonName(s) == "rotterdam"
  {
    CleanRotterdamPort(s);
    SplitRotterdam(Clean(s));
    KeepRotterdam(Words(Clean(s)));
  }

  /** The two spellings meet on one join key. */
  lemma RotterdamSpellingsAgree()
    ensures CanonName("Port of Rotterdam") == CanonName("ROTTERDAM (Port)") == "rotterdam"
  {
    PortOfRotterdam("Port of Rotterdam");
    RotterdamParenthesised("ROTTERDAM (Port)");
  }
}
