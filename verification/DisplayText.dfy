/**
 The text of one display string argument: the escaping that cDisplayString::strcatescaped()
 writes, the scan that doParse() makes, and exactly when the second undoes the first.
 */
module DisplayText {
  import opened Options

  /** opp_findclosequote(): where quote q closes in s, the text after the opening quote. */
  function CloseQuote(s: string, q: char): (r: Option<nat>)
    ensures r.Some? ==> r.value < |s| && s[r.value] == q
  {
    if s == "" then None
    else if s[0] == q then Some(0)
    else
      var skip := if s[0] == '\\' && |s| > 1 then 2 else 1;
      match CloseQuote(s[skip..], q)
      case None => None
      case Some(k) => Some(skip + k)
  }

  /** opp_findmatchingparen() for a brace: how much of s, the text after the opening brace, runs
      up to and including the brace that closes it. Quoted text is skipped. */
  function Braces(s: string, open: nat): (r: Option<nat>)
    requires open > 0
    ensures r.Some? ==> 0 < r.value <= |s|
  {
    if s == "" then None
    else if s[0] == '}' && open == 1 then Some(1)
    else if s[0] == '"' || s[0] == '\'' then
      match CloseQuote(s[1..], s[0])
      case None => None
      case Some(k) => Plus(k + 2, Braces(s[k + 2..], open))
    else
      Plus(1, Braces(s[1..], if s[0] == '{' then open + 1 else if s[0] == '}' then open - 1 else open))
  }

  function Plus(n: nat, r: Option<nat>): Option<nat>
  {
    match r
    case None => None
    case Some(m) => Some(n + m)
  }

  /** The length of the unit at the front of s: "$$", a "${...}" expression or one character.
      None stands for an expression that does not end. */
  function UnitLength(s: string): (r: Option<nat>)
    requires s != ""
    ensures r.Some? ==> 0 < r.value <= |s|
    ensures s[0] != '$' ==> r == Some(1)
  {
    if s[0] == '$' && |s| > 1 && s[1] == '$' then Some(2)
    else if s[0] == '$' && |s| > 1 && s[1] == '{' then Plus(2, Braces(s[2..], 1))
    else Some(1)
  }

  predicate Special(c: char)
  {
    c == ';' || c == ',' || c == '='
  }

  /** strcatescaped(); None when it throws. */
  function Escape(a: string): (r: Option<string>)
    ensures r.Some? && a != "" ==> r.value != "" && r.value[0] == if Special(a[0]) then '\\' else a[0]
  {
    if a == "" then Some("")
    else
      match UnitLength(a)
      case None => None
      case Some(n) =>
        match Escape(a[n..])
        case None => None
        case Some(e) => Some((if Special(a[0]) then ['\\', a[0]] else a[..n]) + e)
  }

  /** Text collected up to a separator or the end, and what remains; or the text collected up to an
      expression that does not end. */
  datatype Scan = Scanned(text: string, rest: string) | Unmatched(soFar: string)

  function Prepend(s: string, r: Scan): Scan
  {
    match r
    case Unmatched(t) => Unmatched(s + t)
    case Scanned(t, rest) => Scanned(s + t, rest)
  }

  /** What doParse() makes of an argument: it ends at the first unescaped ";" or ",". */
  function ScanArg(w: string): (r: Scan)
    ensures r.Scanned? ==> |r.rest| <= |w| && (r.rest == "" || r.rest[0] == ';' || r.rest[0] == ',')
  {
    if w == "" then Scanned("", "")
    else if w[0] == '\\' then (if |w| == 1 then Scanned("", "") else Prepend([w[1]], ScanArg(w[2..])))
    else if w[0] == ';' || w[0] == ',' then Scanned("", w)
    else
      match UnitLength(w)
      case None => Unmatched("")
      case Some(n) => Prepend(w[..n], ScanArg(w[n..]))
  }

  /** What doParse() makes of a tag name: it ends at the first unescaped ";" or "=". */
  function ScanName(w: string): (r: (string, string))
    ensures |r.1| <= |w| && (r.1 == "" || r.1[0] == ';' || r.1[0] == '=')
  {
    if w == "" then ("", "")
    else if w[0] == '\\' then
      if |w| == 1 then ("", "")
      else
        var r := ScanName(w[2..]);
        ([w[1]] + r.0, r.1)
    else if w[0] == ';' || w[0] == '=' then ("", w)
    else
      var r := ScanName(w[1..]);
      ([w[0]] + r.0, r.1)
  }

  /** An argument that survives: its expressions all end, and outside them every backslash stands
      directly before a "=". */
  predicate Survives(a: string)
  {
    a == "" ||
      (UnitLength(a).Some?
       && (a[0] == '\\' ==> |a| > 1 && a[1] == '=')
       && Survives(a[UnitLength(a).value..]))
  }

  /** In terms of positions, when no "$" is involved. */
  lemma {:induction false} SurvivesWithoutDollar(a: string)
    requires '$' !in a
    ensures Survives(a) <==> forall i :: 0 <= i < |a| && a[i] == '\\' ==> i + 1 < |a| && a[i + 1] == '='
  {
    if a != "" {
      var b := a[1..];
      SurvivesWithoutDollar(b);
      assert forall i :: 0 <= i < |b| ==> b[i] == a[i + 1];
      if forall i :: 0 <= i < |b| && b[i] == '\\' ==> i + 1 < |b| && b[i + 1] == '=' {
        forall i | 0 < i < |a| && a[i] == '\\'
          ensures i + 1 < |a| && a[i + 1] == '='
        {
          assert b[i - 1] == '\\';
        }
      }
    }
  }

  // ---------------------------------------------------------------- units are found again

  lemma {:induction false} CloseQuoteIsLocal(s: string, q: char, t: string)
    requires CloseQuote(s, q).Some?
    ensures CloseQuote(s[..CloseQuote(s, q).value + 1] + t, q) == CloseQuote(s, q)
  {
    if s[0] != q {
      var skip := if s[0] == '\\' && |s| > 1 then 2 else 1;
      var k := CloseQuote(s[skip..], q).value;
      CloseQuoteIsLocal(s[skip..], q, t);
      var u := s[..skip + k + 1] + t;
      assert u[skip..] == s[skip..][..k + 1] + t;
    }
  }

  lemma CutShort(s: string, n: nat, t: string, k: nat)
    requires k <= n <= |s| && n > 0
    ensures var u := s[..n] + t; u != "" && u[0] == s[0] && u[k..] == s[k..][..n - k] + t
  {
  }

  lemma {:induction false} BracesIsLocal(s: string, open: nat, t: string)
    requires open > 0 && Braces(s, open).Some?
    ensures Braces(s[..Braces(s, open).value] + t, open) == Braces(s, open)
  {
    var n := Braces(s, open).value;
    var u := s[..n] + t;
    CutShort(s, n, t, 1);
    if s[0] == '}' && open == 1 {
      assert Braces(u, open) == Some(1);
    } else if s[0] == '"' || s[0] == '\'' {
      var k := CloseQuote(s[1..], s[0]).value;
      BracesIsLocal(s[k + 2..], open, t);
      QuotedIsLocal(s, n, k, t);
      assert Braces(u, open) == Plus(k + 2, Braces(u[k + 2..], open));
    } else {
      var open' := if s[0] == '{' then open + 1 else if s[0] == '}' then open - 1 else open;
      BracesIsLocal(s[1..], open', t);
      assert Braces(u, open) == Plus(1, Braces(u[1..], open'));
    }
  }

  lemma QuotedIsLocal(s: string, n: nat, k: nat, t: string)
    requires k + 2 <= n <= |s| && CloseQuote(s[1..], s[0]) == Some(k)
    ensures CloseQuote((s[..n] + t)[1..], s[0]) == Some(k) && (s[..n] + t)[k + 2..] == s[k + 2..][..n - k - 2] + t
  {
    var rest := s[k + 2..n] + t;
    CloseQuoteIsLocal(s[1..], s[0], rest);
    CutShort(s, n, t, k + 2);
    QuoteCutShort(s, n, t, k);
  }

  lemma QuoteCutShort(s: string, n: nat, t: string, k: nat)
    requires k + 2 <= n <= |s|
    ensures (s[..n] + t)[1..] == s[1..][..k + 1] + (s[k + 2..n] + t)
  {
  }

  predicate Stops(tail: string)
  {
    tail == "" || tail[0] == ';' || tail[0] == ','
  }

  /** What follows a unit in the printed text cannot make it longer. */
  lemma UnitIsLocal(a: string, w: string)
    requires a != "" && UnitLength(a).Some?
    requires a[0] == '$' && UnitLength(a) == Some(1) ==> w == "" || (w[0] != '$' && w[0] != '{')
    ensures UnitLength(a[..UnitLength(a).value] + w) == UnitLength(a)
  {
    var n := UnitLength(a).value;
    var u := a[..n] + w;
    assert u[0] == a[0] && (n > 1 ==> u[1] == a[1]);
    if n > 1 && a[1] == '{' {
      ExpressionIsLocal(a, w);
    } else if n == 1 {
      assert |u| > 1 ==> u[1] == w[0];
    }
  }

  lemma ExpressionIsLocal(a: string, w: string)
    requires |a| > 1 && a[0] == '$' && a[1] == '{' && UnitLength(a).Some?
    ensures UnitLength(a[..UnitLength(a).value] + w) == UnitLength(a)
  {
    var n := UnitLength(a).value;
    BracesIsLocal(a[2..], 1, w);
    CutShort(a, n, w, 2);
    assert (a[..n] + w)[1] == a[1];
  }

  // ---------------------------------------------------------------- unfolding by units

  lemma ScanEscapedChar(c: char, w: string)
    ensures ScanArg(['\\', c] + w) == Prepend([c], ScanArg(w))
  {
    assert (['\\', c] + w)[2..] == w;
  }

  lemma ScanUnit(u: string, w: string)
    requires u != "" && u[0] != '\\' && u[0] != ';' && u[0] != ',' && UnitLength(u + w) == Some(|u|)
    ensures ScanArg(u + w) == Prepend(u, ScanArg(w))
  {
    assert (u + w)[..|u|] == u && (u + w)[|u|..] == w;
  }

  lemma EscapeUnfolds(a: string)
    requires a != "" && Escape(a).Some?
    ensures UnitLength(a).Some? && Escape(a[UnitLength(a).value..]).Some?
    ensures var n := UnitLength(a).value; var e := Escape(a[n..]).value;
            Escape(a).value == (if Special(a[0]) then ['\\', a[0]] + e else a[..n] + e)
  {
  }

  lemma FirstUnit(a: string, n: nat)
    requires a != "" && UnitLength(a) == Some(n)
    ensures a == a[..n] + a[n..] && (a[0] != '$' ==> n == 1 && a[..n] == [a[0]])
  {
  }

  /** How the parser reads the first unit of a printed argument, unless it is a backslash. */
  lemma ScanPrinted(a: string, tail: string)
    requires a != "" && a[0] != '\\' && Escape(a).Some? && Stops(tail)
    ensures UnitLength(a).Some? && Escape(a[UnitLength(a).value..]).Some?
    ensures var n := UnitLength(a).value;
            ScanArg(Escape(a).value + tail) == Prepend(a[..n], ScanArg(Escape(a[n..]).value + tail))
  {
    EscapeUnfolds(a);
    var n := UnitLength(a).value;
    var e := Escape(a[n..]).value;
    FirstUnit(a, n);
    if Special(a[0]) {
      ScanEscapedChar(a[0], e + tail);
      Associative(['\\', a[0]], e, tail);
    } else {
      ScanPrintedUnit(a, n, e, tail);
      Associative(a[..n], e, tail);
    }
  }

  lemma Associative(u: string, v: string, w: string)
    ensures u + v + w == u + (v + w)
  {
  }

  lemma ScanPrintedUnit(a: string, n: nat, e: string, tail: string)
    requires a != "" && a[0] != '\\' && !Special(a[0]) && Stops(tail)
    requires UnitLength(a) == Some(n) && Escape(a[n..]) == Some(e)
    ensures ScanArg(a[..n] + (e + tail)) == Prepend(a[..n], ScanArg(e + tail))
  {
    NextPrinted(a, n, tail);
    UnitIsLocal(a, e + tail);
    ScanUnit(a[..n], e + tail);
  }

  lemma NextPrinted(a: string, n: nat, tail: string)
    requires 0 < n <= |a| && UnitLength(a) == Some(n) && Stops(tail) && Escape(a[n..]).Some?
    ensures var w := Escape(a[n..]).value + tail;
            a[0] == '$' && n == 1 ==> w == "" || (w[0] != '$' && w[0] != '{')
  {
    var e := Escape(a[n..]).value;
    if n < |a| {
      assert (e + tail)[0] == e[0];
      assert a[n..][0] == a[n];
    } else {
      assert a[n..] == "" && e + tail == tail;
    }
  }

  lemma ScanAfterBackslash(a: string, tail: string)
    requires |a| > 1 && a[0] == '\\' && Escape(a).Some?
    ensures Escape(a[1..]).Some? && Escape(a[1..]).value != ""
    ensures var e := Escape(a[1..]).value;
            ScanArg(Escape(a).value + tail) == Prepend([e[0]], ScanArg(e[1..] + tail))
  {
    EscapeUnfolds(a);
    FirstUnit(a, 1);
    var e := Escape(a[1..]).value;
    FirstInFront(e, tail);
    ScanEscapedChar(e[0], e[1..] + tail);
  }

  lemma FirstInFront(e: string, tail: string)
    requires e != ""
    ensures ['\\'] + e + tail == ['\\', e[0]] + (e[1..] + tail)
  {
  }

  lemma SecondInFront(c: char, e: string, tail: string)
    ensures (['\\', c] + e)[0] == '\\' && (['\\', c] + e)[1..] + tail == [c] + (e + tail)
  {
  }

  lemma ScanBackslashSpecial(a: string, tail: string)
    requires |a| > 1 && a[0] == '\\' && Special(a[1]) && Escape(a).Some?
    ensures Escape(a[2..]).Some?
    ensures var r := ScanArg(Escape(a).value + tail);
            if a[1] == '=' then r == Prepend("\\", Prepend("=", ScanArg(Escape(a[2..]).value + tail)))
            else r.Scanned? && r.text == "\\"
  {
    ScanAfterBackslash(a, tail);
    EscapeUnfolds(a[1..]);
    assert a[1..][1..] == a[2..];
    var e2 := Escape(a[2..]).value;
    SecondInFront(a[1], e2, tail);
    if a[1] == '=' {
      ScanUnit("=", e2 + tail);
    }
  }

  lemma ScanTwoBackslashes(a: string, tail: string)
    requires |a| > 1 && a[0] == '\\' && a[1] == '\\' && Escape(a).Some?
    ensures Escape(a[2..]).Some?
    ensures ScanArg(Escape(a).value + tail) == Prepend("\\", ScanArg(Escape(a[2..]).value + tail))
  {
    ScanAfterBackslash(a, tail);
    EscapeUnfolds(a[1..]);
    FirstUnit(a[1..], 1);
    assert a[1..][1..] == a[2..];
    assert Escape(a[1..]).value[1..] == Escape(a[2..]).value;
  }

  lemma ScanLastBackslash(tail: string)
    requires Stops(tail)
    ensures Escape("\\") == Some("\\")
    ensures var r := ScanArg("\\" + tail); r.Scanned? ==> r.text == "" || r.text[0] != '\\'
  {
    var a := "\\";
    assert UnitLength(a) == Some(1) && a[1..] == "" && Escape(a[1..]) == Some("") && a[..1] + "" == a;
    if tail != "" {
      ScanEscapedChar(tail[0], tail[1..]);
      assert "\\" + tail == ['\\', tail[0]] + tail[1..];
    }
  }

  // ---------------------------------------------------------------- round trip of one argument

  lemma {:induction false} SurvivorComesBack(a: string, tail: string)
    requires Survives(a) && Stops(tail)
    ensures Escape(a).Some? && ScanArg(Escape(a).value + tail) == Scanned(a, tail)
    decreases |a|
  {
    if a == "" {
      assert "" + tail == tail;
    } else {
      var n := UnitLength(a).value;
      SurvivorComesBack(a[n..], tail);
      assert a == a[..n] + a[n..];
      if a[0] == '\\' {
        assert a[1..][1..] == a[2..];
        SurvivorComesBack(a[2..], tail);
        ScanBackslashSpecial(a, tail);
        assert a == "\\" + ("=" + a[2..]);
      } else {
        ScanPrinted(a, tail);
      }
    }
  }

  predicate AllBackslashes(p: string)
  {
    forall i :: 0 <= i < |p| ==> p[i] == '\\'
  }

  /** No argument that does not survive comes back; nor does any come back with backslashes
      added in front, which is what the induction needs. */
  lemma {:induction false} OnlySurvivorsComeBack(a: string, tail: string, p: string)
    requires Stops(tail) && AllBackslashes(p) && Escape(a).Some?
    ensures var r := ScanArg(Escape(a).value + tail);
            r.Scanned? && r.text == p + a ==> p == "" && Survives(a)
    decreases |a|
  {
    if a == "" {
      assert "" + tail == tail;
    } else if a[0] == '\\' {
      StartsWithBackslash(p, a);
      if |a| == 1 {
        assert a == "\\";
        ScanLastBackslash(tail);
      } else if a[1] == '=' {
        ScanBackslashSpecial(a, tail);
        OnlySurvivorsComeBack(a[2..], tail, "");
        EqualsComesBack(a, p, ScanArg(Escape(a[2..]).value + tail));
      } else if Special(a[1]) {
        ScanBackslashSpecial(a, tail);
      } else if a[1] == '\\' {
        ScanTwoBackslashes(a, tail);
        OneBackslashLess(a, p, ScanArg(Escape(a[2..]).value + tail));
        OnlySurvivorsComeBack(a[2..], tail, p + "\\");
      } else {
        ScanAfterBackslash(a, tail);
      }
    } else {
      ScanPrinted(a, tail);
      var n := UnitLength(a).value;
      OnlySurvivorsComeBack(a[n..], tail, "");
      CutFront(a, p, n, ScanArg(Escape(a[n..]).value + tail));
    }
  }

  lemma StartsWithBackslash(p: string, a: string)
    requires a != "" && a[0] == '\\' && AllBackslashes(p)
    ensures |p + a| == |p| + |a| && (p + a)[0] == '\\'
  {
  }

  lemma CutFront(a: string, p: string, n: nat, r: Scan)
    requires 0 < n <= |a| && a[0] != '\\' && AllBackslashes(p)
    ensures var r' := Prepend(a[..n], r);
            r'.Scanned? && r'.text == p + a ==> p == "" && r.text == "" + a[n..]
  {
    assert (p + a)[0] == if p == "" then a[0] else '\\';
    if r.Scanned? {
      var t := a[..n] + r.text;
      assert t[0] == a[0] && t[n..] == r.text;
      if t == p + a {
        assert p + a == a;
      }
    }
  }

  lemma EqualsCut(a: string, p: string, t: string)
    requires |a| > 1 && a[0] == '\\' && a[1] == '=' && AllBackslashes(p)
    requires "\\" + ("=" + t) == p + a
    ensures p == "" && t == a[2..]
  {
    var s := "\\" + ("=" + t);
    assert s[1] == '=' && s[2..] == t;
    assert (p + a)[1] == if p == "" then a[1] else '\\';
    assert "" + a == a;
  }

  lemma EqualsComesBack(a: string, p: string, r: Scan)
    requires |a| > 1 && a[0] == '\\' && a[1] == '=' && AllBackslashes(p)
    requires r.Scanned? && r.text == "" + a[2..] ==> Survives(a[2..])
    ensures var r' := Prepend("\\", Prepend("=", r));
            r'.Scanned? && r'.text == p + a ==> p == "" && Survives(a)
  {
    if r.Scanned? && "\\" + ("=" + r.text) == p + a {
      EqualsCut(a, p, r.text);
      assert "" + a[2..] == a[2..];
      assert a[1..][1..] == a[2..];
    }
  }

  lemma OneBackslashLess(a: string, p: string, r: Scan)
    requires |a| > 1 && a[0] == '\\' && a[1] == '\\' && AllBackslashes(p)
    ensures AllBackslashes(p + "\\") && p + "\\" != ""
    ensures var r' := Prepend("\\", r);
            r'.Scanned? && r'.text == p + a ==> r.text == p + "\\" + a[2..]
  {
    if r.Scanned? {
      var t := "\\" + r.text;
      assert t[1..] == r.text;
      assert (p + a)[1..] == p + "\\" + a[2..];
    }
  }

  /** An argument written out and read back is the same argument if and only if it survives. */
  lemma ArgumentRoundTrip(a: string, tail: string)
    requires Stops(tail)
    ensures Escape(a).Some? && ScanArg(Escape(a).value + tail) == Scanned(a, tail) <==> Survives(a)
  {
    if Survives(a) {
      SurvivorComesBack(a, tail);
    }
    if Escape(a).Some? {
      OnlySurvivorsComeBack(a, tail, "");
      assert "" + a == a;
    }
  }

  // ---------------------------------------------------------------- what is printed

  /** Without "$", printing goes character by character, and three of them get a backslash. */
  lemma {:induction false} PrintedByCharacter(a: string, b: string)
    requires '$' !in a
    ensures Escape(a).Some? && (Escape(b) == None ==> Escape(a + b) == None)
    ensures Escape(b).Some? ==> Escape(a + b) == Some(Escape(a).value + Escape(b).value)
  {
    if a == "" {
      assert a + b == b;
      assert Escape(b).Some? ==> "" + Escape(b).value == Escape(b).value;
    } else {
      PrintedByCharacter(a[1..], b);
      assert (a + b)[1..] == a[1..] + b && (a + b)[..1] == a[..1];
      if Escape(b).Some? {
        Associative(if Special(a[0]) then ['\\', a[0]] else a[..1], Escape(a[1..]).value, Escape(b).value);
      }
    }
  }

  lemma PrintedCharacter(c: char)
    requires c != '$'
    ensures Escape([c]) == Some(if c == ';' || c == ',' || c == '=' then ['\\', c] else [c])
  {
    assert [c][1..] == "" && [c][..1] + "" == [c] && ['\\', c] + "" == ['\\', c];
  }

  /** "$$" and an expression are copied as they stand. */
  lemma PrintedExpression(u: string, b: string)
    requires u != "" && u[0] == '$' && |u| > 1 && UnitLength(u + b) == Some(|u|)
    ensures Escape(u + b) == match Escape(b) case None => None case Some(e) => Some(u + e)
  {
    assert (u + b)[|u|..] == b && (u + b)[..|u|] == u;
  }

  /** No character of x means anything to the parser or the printer. */
  predicate IsPlain(x: string)
  {
    forall i :: 0 <= i < |x| ==> x[i] != '\\' && x[i] != '$' && x[i] != ';' && x[i] != ',' && x[i] != '='
  }

  lemma {:induction false} PlainPrintsAsItIs(x: string)
    requires IsPlain(x)
    ensures Escape(x) == Some(x) && Survives(x)
  {
    if x != "" {
      PlainPrintsAsItIs(x[1..]);
      assert x[..1] + x[1..] == x;
    }
  }
}
