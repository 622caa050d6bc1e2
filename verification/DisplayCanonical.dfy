/**
 When printing an argument or a tag name that was read gives the text that was read: a check on the
 text, exact for every text, also for an argument that stops within an expression.
 */
module DisplayCanonical {
  import opened Options
  import opened DisplayText
  import opened DisplayTables

  /** Outside expressions, an argument escapes every "=" and nothing but separators; two backslashes
      in a row stand only before a bare "=". */
  predicate CanonicalArg(w: string)
  {
    if w == "" || w[0] == ';' || w[0] == ',' then true
    else if w[0] == '\\' then
      |w| > 1 &&
      (if w[1] == '\\' then |w| > 2 && w[2] == '=' && CanonicalArg(w[3..]) else Special(w[1]) && CanonicalArg(w[2..]))
    else w[0] != '=' && UnitLength(w).Some? && CanonicalArg(w[UnitLength(w).value..])
  }

  /** The text of an argument as far as there is one; when reading stops at an expression that does
      not end, whatever follows in memory belongs to it. */
  function ArgText(w: string, junk: string): string
  {
    match ScanArg(w)
    case Scanned(t, _) => t
    case Unmatched(t) => t + junk
  }

  /** e is the printed form of a text, which together with the tail makes w. */
  predicate Prints(text: string, tail: string, w: string)
  {
    Escape(text).Some? && Escape(text).value + tail == w
  }

  /** k backslashes: how far the printed text has fallen behind what was read. */
  function Backslashes(k: nat): (s: string)
    ensures |s| == k && forall i :: 0 <= i < k ==> s[i] == '\\'
  {
    seq(k, _ => '\\')
  }

  lemma BackslashInFront(k: nat, w: string)
    ensures Backslashes(k) + (['\\'] + w) == Backslashes(k + 1) + w
    ensures Backslashes(k + 1) + w == ['\\'] + (Backslashes(k) + w)
    ensures Backslashes(0) + w == w
  {
  }

  // ---------------------------------------------------------------- the first unit of a printed text

  /** The first character printed. */
  lemma PrintsFirst(text: string, tail: string, w: string)
    requires Prints(text, tail, w) && text != ""
    ensures w != "" && w[0] == if Special(text[0]) then '\\' else text[0]
  {
  }

  /** A text of which nothing is printed. */
  lemma PrintsNothing(tail: string, w: string)
    ensures Prints("", tail, w) <==> tail == w
  {
    assert "" + tail == tail;
  }

  lemma PrintsUnit(u: string, text: string, tail: string, w: string)
    requires u != "" && UnitLength(u + text) == Some(|u|) && !Special(u[0])
    ensures Prints(u + text, tail, u + w) <==> Prints(text, tail, w)
  {
    var a := u + text;
    assert a[..|u|] == u && a[|u|..] == text;
    if Escape(text).Some? {
      var e := Escape(text).value;
      assert Escape(a) == Some(u + e);
      assert u + e + tail == u + (e + tail);
      SameFront(u, e + tail, w);
    }
  }

  lemma SameFront(u: string, v: string, w: string)
    ensures u + v == u + w <==> v == w
  {
    assert (u + v)[|u|..] == v && (u + w)[|u|..] == w;
  }

  lemma PrintsSpecial(c: char, text: string, tail: string, w: string)
    requires Special(c)
    ensures Prints([c] + text, tail, ['\\', c] + w) <==> Prints(text, tail, w)
  {
    var a := [c] + text;
    assert a[1..] == text;
    if Escape(text).Some? {
      var e := Escape(text).value;
      assert Escape(a) == Some(['\\', c] + e);
      assert ['\\', c] + e + tail == ['\\', c] + (e + tail);
      SameFront(['\\', c], e + tail, w);
    }
  }

  /** A special character is printed with its escape, so no other text begins with a backslash and a
      special one. */
  lemma PrintsEscaped(c: char, text: string, tail: string, w: string)
    requires Special(c) && Prints([c] + text, tail, w)
    ensures |w| > 1 && w[0] == '\\' && w[1] == c
  {
    var a := [c] + text;
    assert a[1..] == text;
    assert Escape(a) == Some(['\\', c] + Escape(text).value);
  }

  lemma PrintsBackslash(text: string, tail: string, w: string)
    ensures Prints("\\" + text, tail, "\\" + w) <==> Prints(text, tail, w)
  {
    PrintsUnit("\\", text, tail, w);
  }

  // ---------------------------------------------------------------- printing against what was read

  /** An escaped character that was read prints back if it is a special one and nothing is behind;
      an escaped backslash puts the printed text one more backslash behind. */
  lemma PairPrints(w: string, k: nat, text: string, tail: string)
    requires |w| > 1 && w[0] == '\\'
    ensures Prints([w[1]] + text, tail, Backslashes(k) + w) <==>
              if w[1] == '\\' then Prints(text, tail, Backslashes(k + 1) + w[2..])
              else k == 0 && Special(w[1]) && Prints(text, tail, w[2..])
  {
    var v := w[2..];
    if w[1] == '\\' {
      assert Backslashes(k) + w == "\\" + (Backslashes(k + 1) + v);
      PrintsBackslash(text, tail, Backslashes(k + 1) + v);
    } else if k == 0 && Special(w[1]) {
      assert Backslashes(0) + w == ['\\', w[1]] + v;
      PrintsSpecial(w[1], text, tail, v);
    } else {
      PairNeverPrints(w, k, text, tail);
    }
  }

  lemma PairNeverPrints(w: string, k: nat, text: string, tail: string)
    requires |w| > 1 && w[0] == '\\' && w[1] != '\\' && !(k == 0 && Special(w[1]))
    ensures !Prints([w[1]] + text, tail, Backslashes(k) + w)
  {
    var target := Backslashes(k) + w;
    assert target[0] == '\\' && (k > 0 ==> target[1] == '\\');
    if Prints([w[1]] + text, tail, target) {
      PrintsFirst([w[1]] + text, tail, target);
      PrintsEscaped(w[1], text, tail, target);
    }
  }

  /** A bare special character that was read prints back if exactly one backslash is behind. */
  lemma BarePrints(w: string, k: nat, text: string, tail: string)
    requires w != "" && Special(w[0])
    ensures Prints([w[0]] + text, tail, Backslashes(k) + w) <==> k == 1 && Prints(text, tail, w[1..])
  {
    if k == 1 {
      assert Backslashes(1) + w == ['\\', w[0]] + w[1..];
      PrintsSpecial(w[0], text, tail, w[1..]);
    } else {
      BareNeverPrints(w, k, text, tail);
    }
  }

  lemma BareNeverPrints(w: string, k: nat, text: string, tail: string)
    requires w != "" && Special(w[0]) && k != 1
    ensures !Prints([w[0]] + text, tail, Backslashes(k) + w)
  {
    var target := Backslashes(k) + w;
    assert k == 0 ==> target[0] == w[0];
    assert k > 1 ==> target[1] == '\\';
    if Prints([w[0]] + text, tail, target) {
      PrintsEscaped(w[0], text, tail, target);
    }
  }

  /** Any other character prints as itself, so nothing may be behind. */
  lemma OtherNeverPrints(w: string, k: nat, text: string, tail: string)
    requires w != "" && w[0] != '\\' && !Special(w[0]) && k > 0 && text != "" && text[0] == w[0]
    ensures !Prints(text, tail, Backslashes(k) + w)
  {
    assert (Backslashes(k) + w)[0] == '\\';
    if Prints(text, tail, Backslashes(k) + w) {
      PrintsFirst(text, tail, Backslashes(k) + w);
    }
  }

  lemma UnitPrints(w: string, n: nat, text: string, tail: string)
    requires w != "" && w[0] != '\\' && !Special(w[0]) && UnitLength(w) == Some(n)
    requires w[0] == '$' && n == 1 ==> text == "" || (text[0] != '$' && text[0] != '{')
    ensures Prints(w[..n] + text, tail, w) <==> Prints(text, tail, w[n..])
  {
    assert w == w[..n] + w[n..];
    UnitIsLocal(w, text);
    PrintsUnit(w[..n], text, tail, w[n..]);
  }

  /** A lone "$" before an escaped "$" or "{" becomes part of a longer unit. */
  lemma DollarMerges(w: string, text: string, tail: string)
    requires |w| > 1 && w[0] == '$' && w[1] == '\\' && text != "" && (text[0] == '$' || text[0] == '{')
    ensures !Prints("$" + text, tail, w)
  {
    var a := "$" + text;
    if Prints(a, tail, w) {
      EscapeUnfolds(a);
      MergedUnit(a, tail, w);
    }
  }

  lemma MergedUnit(a: string, tail: string, w: string)
    requires |a| > 1 && a[0] == '$' && (a[1] == '$' || a[1] == '{') && Prints(a, tail, w)
    ensures |w| > 1 && w[1] == a[1]
  {
    var n := UnitLength(a).value;
    assert Escape(a).value[..n] == a[..n];
  }

  /** No text is printed as an expression that does not end, whatever backslashes are in front. */
  lemma {:induction false} JunkNeverPrints(junk: string, k: nat, w: string, tail: string)
    requires w != "" && UnitLength(w) == None && Stops(tail)
    ensures !Prints(junk, tail, Backslashes(k) + w)
    decreases k
  {
    if junk == "" {
      PrintsNothing(tail, Backslashes(k) + w);
      assert (Backslashes(k) + w)[0] == if k > 0 then '\\' else '$';
    } else if Special(junk[0]) {
      SpecialNeverPrints(junk, k, w, tail);
    } else if k == 0 {
      BackslashInFront(0, w);
      if Prints(junk, tail, w) {
        PrintsFirst(junk, tail, w);
        ExpressionEnds(junk, tail, w);
      }
    } else {
      JunkNeverPrints(junk[1..], k - 1, w, tail);
      JunkBackslash(junk, k, w, tail);
    }
  }

  lemma SpecialNeverPrints(junk: string, k: nat, w: string, tail: string)
    requires w != "" && UnitLength(w) == None && junk != "" && Special(junk[0])
    ensures !Prints(junk, tail, Backslashes(k) + w)
  {
    var target, rest := Backslashes(k) + w, junk[1..];
    assert junk == [junk[0]] + rest;
    assert w[0] == '$' && |w| > 1 && w[1] == '{';
    assert target[1] == if k > 1 then '\\' else if k == 1 then '$' else '{';
    if Prints([junk[0]] + rest, tail, target) {
      PrintsEscaped(junk[0], rest, tail, target);
    }
  }

  lemma JunkBackslash(junk: string, k: nat, w: string, tail: string)
    requires k > 0 && junk != "" && !Special(junk[0]) && !Prints(junk[1..], tail, Backslashes(k - 1) + w)
    ensures !Prints(junk, tail, Backslashes(k) + w)
  {
    var rest := junk[1..];
    BackslashInFront(k - 1, w);
    if Prints(junk, tail, Backslashes(k) + w) {
      PrintsFirst(junk, tail, Backslashes(k) + w);
      assert junk == "\\" + rest;
      PrintsBackslash(rest, tail, Backslashes(k - 1) + w);
    }
  }

  lemma ExpressionEnds(a: string, tail: string, w: string)
    requires Prints(a, tail, w) && a != "" && a[0] == '$' && |w| > 1 && w[0] == '$' && w[1] == '{' && Stops(tail)
    ensures UnitLength(w).Some?
  {
    var n := UnitLength(a).value;
    var e := Escape(a[n..]).value;
    assert a[..n] + e + tail == a[..n] + (e + tail) == w;
    assert n == 1 ==> w[1] == (e + tail)[0];
    if n == 1 {
      NextPrinted(a, 1, tail);
    } else {
      assert w[1] == a[1];
      UnitIsLocal(a, e + tail);
    }
  }

  // ---------------------------------------------------------------- one argument

  lemma ArgTextUnfolds(w: string, junk: string)
    ensures w == "" || w[0] == ';' || w[0] == ',' || w == "\\" ==> ArgText(w, junk) == ""
    ensures |w| > 1 && w[0] == '\\' ==> ArgText(w, junk) == [w[1]] + ArgText(w[2..], junk)
    ensures w != "" && w[0] != '\\' && w[0] != ';' && w[0] != ',' ==>
              match UnitLength(w)
              case None => ArgText(w, junk) == junk
              case Some(n) => ArgText(w, junk) == w[..n] + ArgText(w[n..], junk)
  {
    if |w| > 1 && w[0] == '\\' {
      PrependText([w[1]], ScanArg(w[2..]), junk);
    } else if w != "" && w[0] != '\\' && w[0] != ';' && w[0] != ',' {
      match UnitLength(w)
      case None => assert "" + junk == junk;
      case Some(n) => PrependText(w[..n], ScanArg(w[n..]), junk);
    }
  }

  lemma PrependText(u: string, r: Scan, junk: string)
    ensures r.Unmatched? ==> Prepend(u, r).soFar + junk == u + (r.soFar + junk)
  {
  }

  /** What makes an argument that was read print back, and one that has fallen behind. */
  predicate Expected(w: string, k: nat, tail: string)
  {
    && ScanArg(w).Scanned? && tail == ScanArg(w).rest
    && (k == 0 ==> CanonicalArg(w))
    && (k == 1 ==> w != "" && w[0] == '=' && CanonicalArg(w[1..]))
    && k < 2
  }

  lemma ExpectedUnfolds(w: string, k: nat, tail: string)
    requires w != "" && w[0] != ';' && w[0] != ',' && Stops(tail)
    ensures |w| > 1 && w[0] == '\\' ==>
              (Expected(w, k, tail) <==> if w[1] == '\\' then Expected(w[2..], k + 1, tail)
                                         else k == 0 && Special(w[1]) && Expected(w[2..], 0, tail))
    ensures w[0] == '=' ==> (Expected(w, k, tail) <==> k == 1 && Expected(w[1..], 0, tail))
    ensures w[0] != '\\' && w[0] != '=' ==>
              (Expected(w, k, tail) <==> k == 0 && UnitLength(w).Some? && Expected(w[UnitLength(w).value..], 0, tail))
  {
    assert |w| > 2 ==> w[2..][1..] == w[3..] && w[2..][0] == w[2];
  }

  /** What was read of an argument prints back exactly if the text is canonical and reading came to
      its end; with backslashes in front, exactly as Expected says. */
  lemma {:induction false} ArgIsCanonical(w: string, k: nat, junk: string, tail: string)
    requires Stops(tail)
    ensures Prints(ArgText(w, junk), tail, Backslashes(k) + w) <==> Expected(w, k, tail)
    decreases |w|
  {
    ArgTextUnfolds(w, junk);
    if w == "" || w[0] == ';' || w[0] == ',' || w == "\\" {
      NothingPrints(w, k, tail);
    } else {
      ExpectedUnfolds(w, k, tail);
      if w[0] == '\\' {
        ArgIsCanonical(w[2..], if w[1] == '\\' then k + 1 else 0, junk, tail);
        PairPrints(w, k, ArgText(w[2..], junk), tail);
        BackslashInFront(0, w[2..]);
      } else if w[0] == '=' {
        ArgIsCanonical(w[1..], 0, junk, tail);
        assert w[..1] == [w[0]];
        BarePrints(w, k, ArgText(w[1..], junk), tail);
        BackslashInFront(0, w[1..]);
      } else if UnitLength(w) == None {
        JunkNeverPrints(junk, k, w, tail);
      } else if k > 0 {
        OtherNeverPrints(w, k, ArgText(w, junk), tail);
      } else {
        ArgIsCanonical(w[UnitLength(w).value..], 0, junk, tail);
        ArgUnitPrints(w, UnitLength(w).value, junk, tail);
      }
    }
  }

  lemma NothingPrints(w: string, k: nat, tail: string)
    requires (w == "" || w[0] == ';' || w[0] == ',' || w == "\\") && Stops(tail)
    ensures Prints("", tail, Backslashes(k) + w) <==> Expected(w, k, tail)
  {
    PrintsNothing(tail, Backslashes(k) + w);
    BackslashInFront(k, w);
    assert k > 0 ==> (Backslashes(k) + w)[0] == '\\';
  }

  lemma ArgUnitPrints(w: string, n: nat, junk: string, tail: string)
    requires w != "" && w[0] != '\\' && !Special(w[0]) && UnitLength(w) == Some(n)
    requires Prints(ArgText(w[n..], junk), tail, Backslashes(0) + w[n..]) <==> Expected(w[n..], 0, tail)
    ensures Prints(w[..n] + ArgText(w[n..], junk), tail, Backslashes(0) + w) <==> Expected(w[n..], 0, tail)
  {
    var text := ArgText(w[n..], junk);
    BackslashInFront(0, w);
    BackslashInFront(0, w[n..]);
    if w[0] == '$' && n == 1 && text != "" && (text[0] == '$' || text[0] == '{') {
      ArgTextUnfolds(w[1..], junk);
      assert w[..1] == "$";
      DollarMerges(w, text, tail);
    } else {
      UnitPrints(w, n, text, tail);
    }
  }

  /** An argument and what follows it. */
  lemma ArgPrintsBack(w: string, junk: string, tail: string)
    requires Stops(tail)
    ensures Prints(ArgText(w, junk), tail, w) <==> ScanArg(w).Scanned? && CanonicalArg(w) && tail == ScanArg(w).rest
  {
    BackslashInFront(0, w);
    ArgIsCanonical(w, 0, junk, tail);
  }

  // ---------------------------------------------------------------- one tag name

  /** A name is read character by character, so an expression is one only for the printer. */
  predicate Bare(u: string)
  {
    forall i :: 0 <= i < |u| ==> u[i] != '\\' && u[i] != ';' && u[i] != '='
  }

  /** Outside expressions, a name escapes every "," and nothing but separators; two backslashes in a
      row stand only before a bare ",". */
  predicate CanonicalName(w: string)
  {
    if w == "" || w[0] == ';' || w[0] == '=' then true
    else if w[0] == '\\' then
      |w| > 1 &&
      (if w[1] == '\\' then |w| > 2 && w[2] == ',' && CanonicalName(w[3..]) else Special(w[1]) && CanonicalName(w[2..]))
    else
      && w[0] != ',' && UnitLength(w).Some? && Bare(w[..UnitLength(w).value])
      && CanonicalName(w[UnitLength(w).value..])
  }

  function NameText(w: string): string
  {
    ScanName(w).0
  }

  predicate StopsName(tail: string)
  {
    tail == "" || tail[0] == ';' || tail[0] == '='
  }

  lemma NameTextUnfolds(w: string)
    ensures w == "" || w[0] == ';' || w[0] == '=' || w == "\\" ==> NameText(w) == ""
    ensures |w| > 1 && w[0] == '\\' ==> NameText(w) == [w[1]] + NameText(w[2..])
    ensures w != "" && w[0] != '\\' && w[0] != ';' && w[0] != '=' ==> NameText(w) == [w[0]] + NameText(w[1..])
  {
  }

  lemma {:induction false} BareIsRead(u: string, v: string)
    requires Bare(u)
    ensures ScanName(u + v) == (u + ScanName(v).0, ScanName(v).1)
  {
    if u == "" {
      assert u + v == v && u + ScanName(v).0 == ScanName(v).0;
    } else {
      BareIsRead(u[1..], v);
      assert (u + v)[1..] == u[1..] + v;
      assert u == [u[0]] + u[1..];
      assert [u[0]] + (u[1..] + ScanName(v).0) == u + ScanName(v).0;
    }
  }

  predicate ExpectedName(w: string, k: nat, tail: string)
  {
    && tail == ScanName(w).1
    && (k == 0 ==> CanonicalName(w))
    && (k == 1 ==> w != "" && w[0] == ',' && CanonicalName(w[1..]))
    && k < 2
  }

  lemma ExpectedNameUnfolds(w: string, k: nat, tail: string)
    requires w != "" && w[0] != ';' && w[0] != '=' && StopsName(tail)
    ensures |w| > 1 && w[0] == '\\' ==>
              (ExpectedName(w, k, tail) <==> if w[1] == '\\' then ExpectedName(w[2..], k + 1, tail)
                                             else k == 0 && Special(w[1]) && ExpectedName(w[2..], 0, tail))
    ensures w[0] == ',' ==> (ExpectedName(w, k, tail) <==> k == 1 && ExpectedName(w[1..], 0, tail))
    ensures w[0] != '\\' && w[0] != ',' ==>
              (ExpectedName(w, k, tail) <==>
                 k == 0 && UnitLength(w).Some? && Bare(w[..UnitLength(w).value]) && ExpectedName(w[UnitLength(w).value..], 0, tail))
  {
    assert |w| > 2 ==> w[2..][1..] == w[3..] && w[2..][0] == w[2];
    if w[0] != '\\' && w[0] != ',' && UnitLength(w).Some? && Bare(w[..UnitLength(w).value]) {
      BareIsRead(w[..UnitLength(w).value], w[UnitLength(w).value..]);
      assert w[..UnitLength(w).value] + w[UnitLength(w).value..] == w;
    }
  }

  /** What was read of a name prints back exactly if the text is canonical. */
  lemma {:induction false} NameIsCanonical(w: string, k: nat, tail: string)
    requires StopsName(tail)
    ensures Prints(NameText(w), tail, Backslashes(k) + w) <==> ExpectedName(w, k, tail)
    decreases |w|
  {
    NameTextUnfolds(w);
    if w == "" || w[0] == ';' || w[0] == '=' || w == "\\" {
      NoNamePrints(w, k, tail);
    } else {
      ExpectedNameUnfolds(w, k, tail);
      if w[0] == '\\' {
        NameIsCanonical(w[2..], if w[1] == '\\' then k + 1 else 0, tail);
        PairPrints(w, k, NameText(w[2..]), tail);
        BackslashInFront(0, w[2..]);
      } else if w[0] == ',' {
        NameIsCanonical(w[1..], 0, tail);
        BarePrints(w, k, NameText(w[1..]), tail);
        BackslashInFront(0, w[1..]);
      } else if k > 0 {
        OtherNeverPrints(w, k, NameText(w), tail);
      } else if UnitLength(w).Some? && Bare(w[..UnitLength(w).value]) {
        NameIsCanonical(w[UnitLength(w).value..], 0, tail);
        NameUnitPrints(w, UnitLength(w).value, tail);
      } else {
        ExpressionMustBeBare(w, tail);
        BackslashInFront(0, w);
      }
    }
  }

  lemma NoNamePrints(w: string, k: nat, tail: string)
    requires (w == "" || w[0] == ';' || w[0] == '=' || w == "\\") && StopsName(tail)
    ensures Prints("", tail, Backslashes(k) + w) <==> ExpectedName(w, k, tail)
  {
    PrintsNothing(tail, Backslashes(k) + w);
    BackslashInFront(k, w);
    assert k > 0 ==> (Backslashes(k) + w)[0] == '\\';
  }

  lemma NameUnitPrints(w: string, n: nat, tail: string)
    requires w != "" && w[0] != '\\' && !Special(w[0]) && UnitLength(w) == Some(n) && Bare(w[..n])
    requires Prints(NameText(w[n..]), tail, Backslashes(0) + w[n..]) <==> ExpectedName(w[n..], 0, tail)
    ensures Prints(NameText(w), tail, Backslashes(0) + w) <==> ExpectedName(w[n..], 0, tail)
  {
    var text := NameText(w[n..]);
    BareIsRead(w[..n], w[n..]);
    assert w[..n] + w[n..] == w;
    BackslashInFront(0, w);
    BackslashInFront(0, w[n..]);
    if w[0] == '$' && n == 1 && text != "" && (text[0] == '$' || text[0] == '{') {
      NameTextUnfolds(w[1..]);
      assert w[..1] == "$";
      NameDollarMerges(w, tail);
    } else {
      UnitPrints(w, n, text, tail);
    }
  }

  lemma NameDollarMerges(w: string, tail: string)
    requires w != "" && w[0] == '$' && UnitLength(w) == Some(1)
    requires var t := NameText(w[1..]); t != "" && (t[0] == '$' || t[0] == '{')
    ensures !Prints("$" + NameText(w[1..]), tail, w) && !ExpectedName(w[1..], 0, tail)
  {
    NameTextUnfolds(w[1..]);
    DollarMerges(w, NameText(w[1..]), tail);
  }

  // ---------------------------------------------------------------- expressions in names

  lemma {:induction false} BracesEndInBrace(s: string, open: nat)
    requires open > 0 && Braces(s, open).Some?
    ensures s[Braces(s, open).value - 1] == '}'
  {
    if s[0] == '}' && open == 1 {
    } else if s[0] == '"' || s[0] == '\'' {
      BracesEndInBrace(s[CloseQuote(s[1..], s[0]).value + 2..], open);
    } else {
      BracesEndInBrace(s[1..], if s[0] == '{' then open + 1 else if s[0] == '}' then open - 1 else open);
    }
  }

  /** If a name that has fallen behind agrees with its text, both are backslashes. */
  lemma {:induction false} BehindIsBackslashes(w: string, k: nat, n: nat)
    requires k > 0 && n <= |NameText(w)| && n <= k + |w| && NameText(w)[..n] == (Backslashes(k) + w)[..n]
    ensures forall i :: 0 <= i < n ==> NameText(w)[i] == '\\'
    decreases n
  {
    if n > 0 {
      var t, u := NameText(w), Backslashes(k) + w;
      assert t[0] == t[..n][0] == u[..n][0] == '\\';
      NameTextUnfolds(w);
      var t' := NameText(w[2..]);
      assert u[1..] == Backslashes(k + 1) + w[2..];
      assert t'[..n - 1] == t[..n][1..] == u[..n][1..] == u[1..][..n - 1];
      BehindIsBackslashes(w[2..], k + 1, n - 1);
    }
  }

  /** What a name and its text share is bare, up to a character that is no backslash. */
  lemma {:induction false} SharedIsBare(w: string, n: nat)
    requires 0 < n <= |NameText(w)| && n <= |w| && NameText(w)[..n] == w[..n] && w[n - 1] != '\\'
    ensures Bare(w[..n])
    decreases n
  {
    NameTextUnfolds(w);
    var t := NameText(w);
    assert t[0] == t[..n][0] == w[..n][0] == w[0];
    if w[0] == '\\' {
      var t' := NameText(w[2..]);
      assert w[1..] == Backslashes(1) + w[2..];
      assert t'[..n - 1] == t[..n][1..] == w[..n][1..] == w[1..][..n - 1];
      assert t'[n - 2] == t[n - 1] == t[..n][n - 1] == w[..n][n - 1];
      BehindIsBackslashes(w[2..], 1, n - 1);
    } else if n > 1 {
      var t' := NameText(w[1..]);
      assert t'[..n - 1] == t[..n][1..] == w[..n][1..] == w[1..][..n - 1];
      SharedIsBare(w[1..], n - 1);
      assert w[..n] == [w[0]] + w[1..][..n - 1];
    }
  }

  /** An expression in a name prints back only if reading takes it as it stands. */
  lemma ExpressionMustBeBare(w: string, tail: string)
    requires w != "" && w[0] != '\\' && !Special(w[0]) && StopsName(tail)
    requires !(UnitLength(w).Some? && Bare(w[..UnitLength(w).value]))
    ensures !Prints(NameText(w), tail, w)
  {
    NameTextUnfolds(w);
    NameTextUnfolds(w[1..]);
    assert w[0] == '$' && |w| > 1 && w[1] == '{';
    if Prints(NameText(w), tail, w) {
      var n := PrintedExpression(NameText(w), tail, w);
      SharedIsBare(w, n);
    }
  }

  lemma PrintedExpression(a: string, tail: string, w: string) returns (n: nat)
    requires Prints(a, tail, w) && |a| > 1 && a[0] == '$' && a[1] == '{'
    ensures 0 < n <= |a| && n <= |w| && a[..n] == w[..n] && w[n - 1] == '}' && UnitLength(w) == Some(n)
  {
    EscapeUnfolds(a);
    n := UnitLength(a).value;
    var e := Escape(a[n..]).value;
    Associative(a[..n], e, tail);
    assert w == a[..n] + (e + tail);
    UnitIsLocal(a, e + tail);
    BracesEndInBrace(a[2..], 1);
    assert a[n - 1] == a[2..][n - 3];
  }

  lemma NamePrintsBack(w: string, tail: string)
    requires StopsName(tail)
    ensures Prints(NameText(w), tail, w) <==> CanonicalName(w) && tail == ScanName(w).1
  {
    BackslashInFront(0, w);
    NameIsCanonical(w, 0, tail);
  }

  /** Of the names that are allowed, exactly those read as they stand, without any backslash, are
      canonical. */
  lemma LegalNameIsCanonical(w: string)
    requires LegalName(NameText(w))
    ensures CanonicalName(w) <==> NameText(w) + ScanName(w).1 == w
  {
    NamePrintsBack(w, ScanName(w).1);
    NameRoundTrip(NameText(w), "");
  }
}
