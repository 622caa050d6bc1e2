/**
 Tag tables and their text: what cDisplayString::assemble() prints, what doParse() reads, the
 single-pass loop that does the reading, and exactly when reading undoes printing.
 */
module DisplayTables {
  import opened Options
  import opened DisplayText

  const MAXARGS := 16

  /** An argument is None where the source has a null pointer, which reads as an empty string. */
  datatype Tag = Tag(name: string, args: seq<Option<string>>)

  datatype Error = UnmatchedBrace | TooManyArgs | MissingTagName | IllegalCharacter | EmptyTagName

  datatype Result<+T> = Ok(value: T) | Err(error: Error)

  function TextOf(a: Option<string>): string
  {
    match a
    case None => ""
    case Some(s) => s
  }

  predicate NameChar(c: char)
  {
    '0' <= c <= '9' || 'a' <= c <= 'z' || 'A' <= c <= 'Z' || c == ':'
  }

  predicate LegalName(name: string)
  {
    forall i :: 0 <= i < |name| ==> NameChar(name[i])
  }

  /** What every operation keeps: names are empty (redundant semicolons leave such tags) or have
      only legal characters, and there are at most 16 arguments. */
  predicate TagOk(t: Tag)
  {
    LegalName(t.name) && |t.args| <= MAXARGS
  }

  predicate TableOk(tags: seq<Tag>)
  {
    forall i :: 0 <= i < |tags| ==> TagOk(tags[i])
  }

  // ---------------------------------------------------------------- printing

  function Join(a: Option<string>, sep: string, b: Option<string>): Option<string>
  {
    if a.Some? && b.Some? then Some(a.value + sep + b.value) else None
  }

  function AssembleArgs(args: seq<Option<string>>): Option<string>
    requires args != []
  {
    if |args| == 1 then Escape(TextOf(args[0]))
    else Join(Escape(TextOf(args[0])), ",", AssembleArgs(args[1..]))
  }

  function AssembleTag(t: Tag): Option<string>
  {
    if t.args == [] then Escape(t.name) else Join(Escape(t.name), "=", AssembleArgs(t.args))
  }

  /** assemble(); None when it throws. */
  function Assemble(tags: seq<Tag>): Option<string>
  {
    if tags == [] then Some("")
    else if |tags| == 1 then AssembleTag(tags[0])
    else Join(AssembleTag(tags[0]), ";", Assemble(tags[1..]))
  }

  // ---------------------------------------------------------------- reading

  /** The tags read; or, when reading is given up, the error and the tags there are at that point. */
  datatype Reading = Read(tags: seq<Tag>) | Refused(error: Error, left: seq<Tag>)

  /** Reads one tag and all that follow it; done holds the tags before it. */
  function FromTag(done: seq<Tag>, w: string): (r: Reading)
    ensures r.Read? ==> |r.tags| > |done| && done <= r.tags
    decreases |w|, 2
  {
    var n := ScanName(w);
    AfterName(done, n.0, n.1)
  }

  function AfterName(done: seq<Tag>, name: string, rest: string): (r: Reading)
    requires rest == "" || rest[0] == ';' || rest[0] == '='
    ensures r.Read? ==> |r.tags| > |done| && done <= r.tags && r.tags[|done|].name == name
    ensures r.Read? ==> (r.tags[|done|].args == [] <==> rest == "" || rest[0] == ';')
    decreases |rest|, 1
  {
    if rest == "" then Read(done + [Tag(name, [])])
    else if rest[0] == ';' then
      var r := FromTag(done + [Tag(name, [])], rest[1..]);
      assert r.Read? ==> r.tags[|done|] == Tag(name, []);
      r
    else FromArg(done, name, [], rest[1..])
  }

  /** Reads the next argument of a tag; args holds those before it. */
  function FromArg(done: seq<Tag>, name: string, args: seq<Option<string>>, w: string): (r: Reading)
    ensures r.Read? ==> |r.tags| > |done| && done <= r.tags && r.tags[|done|].name == name
    ensures r.Read? ==> args < r.tags[|done|].args
    decreases |w|, 2
  {
    match ScanArg(w)
    case Unmatched(t) => Refused(UnmatchedBrace, done + [Tag(name, args + [Some(t)])])
    case Scanned(t, rest) => AfterArg(done, name, args + [Some(t)], rest)
  }

  function AfterArg(done: seq<Tag>, name: string, args: seq<Option<string>>, rest: string): (r: Reading)
    requires rest == "" || rest[0] == ';' || rest[0] == ','
    ensures r.Read? ==> |r.tags| > |done| && done <= r.tags && r.tags[|done|].name == name
    ensures r.Read? ==> args <= r.tags[|done|].args
    decreases |rest|, 1
  {
    if rest == "" then Read(done + [Tag(name, args)])
    else if rest[0] == ';' then
      var r := FromTag(done + [Tag(name, args)], rest[1..]);
      assert r.Read? ==> r.tags[|done|] == Tag(name, args);
      r
    else if |args| >= MAXARGS then Refused(TooManyArgs, done + [Tag(name, args)])
    else FromArg(done, name, args, rest[1..])
  }

  /** The check of the tag names that ends doParse(): the first offender decides. */
  function CheckNames(tags: seq<Tag>): Option<Error>
  {
    if tags == [] then None
    else if tags[0].name == "" && tags[0].args != [] then Some(MissingTagName)
    else if !LegalName(tags[0].name) then Some(IllegalCharacter)
    else CheckNames(tags[1..])
  }

  function Checked(tags: seq<Tag>): Reading
  {
    match CheckNames(tags)
    case Some(e) => Refused(e, tags)
    case None => Read(tags)
  }

  /** doParse(). */
  function Parse(w: string): Reading
  {
    if w == "" then Read([])
    else
      match FromTag([], w)
      case Refused(e, left) => Refused(e, left)
      case Read(tags) => Checked(tags)
  }

  // ---------------------------------------------------------------- the loop of doParse()

  /** The result from the middle of the text on: cur is the tag being read, and the last piece
      of it (the name while there are no arguments) is still growing. */
  function Resume(done: seq<Tag>, cur: Tag, w: string): Reading
  {
    if cur.args == [] then
      var n := ScanName(w);
      AfterName(done, cur.name + n.0, n.1)
    else
      match ScanArg(w)
      case Unmatched(t) => Refused(UnmatchedBrace, done + [Grow(cur, t)])
      case Scanned(t, rest) => AfterArg(done, cur.name, Grow(cur, t).args, rest)
  }

  /** cur with s appended to the piece being read. */
  function Grow(cur: Tag, s: string): Tag
  {
    if cur.args == [] then cur.(name := cur.name + s)
    else
      var last := |cur.args| - 1;
      cur.(args := cur.args[last := Some(TextOf(cur.args[last]) + s)])
  }

  lemma GrowTwice(cur: Tag, s: string, t: string)
    ensures Grow(Grow(cur, s), t) == Grow(cur, s + t)
  {
    assert cur.name + s + t == cur.name + (s + t);
    if cur.args != [] {
      var last := |cur.args| - 1;
      assert TextOf(cur.args[last]) + s + t == TextOf(cur.args[last]) + (s + t);
    }
  }

  lemma ResumeUnit(done: seq<Tag>, cur: Tag, w: string, s: string, w': string)
    requires cur.args == [] ==> ScanName(w) == (s + ScanName(w').0, ScanName(w').1)
    requires cur.args != [] ==> ScanArg(w) == Prepend(s, ScanArg(w'))
    ensures Resume(done, cur, w) == Resume(done, Grow(cur, s), w')
  {
    if cur.args == [] {
      GrowTwice(cur, s, ScanName(w').0);
    } else {
      GrowTwice(cur, s, match ScanArg(w') case Scanned(t, _) => t case Unmatched(t) => t);
    }
  }

  predicate Growing(cur: Tag)
  {
    cur.args == [] || cur.args[|cur.args| - 1].Some?
  }

  lemma GrowNothing(cur: Tag)
    requires Growing(cur)
    ensures Grow(cur, "") == cur
  {
    assert cur.name + "" == cur.name;
    if cur.args != [] {
      var last := |cur.args| - 1;
      assert TextOf(cur.args[last]) + "" == TextOf(cur.args[last]);
      assert cur.args[last := cur.args[last]] == cur.args;
    }
  }

  lemma StartTag(done: seq<Tag>, w: string)
    ensures FromTag(done, w) == Resume(done, Tag("", []), w)
  {
    assert "" + ScanName(w).0 == ScanName(w).0;
  }

  lemma AtSeparator(done: seq<Tag>, cur: Tag, w: string)
    requires w != "" && Growing(cur)
    ensures w[0] == ';' ==> Resume(done, cur, w) == Resume(done + [cur], Tag("", []), w[1..])
    ensures w[0] == '=' && cur.args == [] ==> Resume(done, cur, w) == Resume(done, Tag(cur.name, [Some("")]), w[1..])
    ensures w[0] == ',' && cur.args != [] ==>
              Resume(done, cur, w) == if |cur.args| >= MAXARGS then Refused(TooManyArgs, done + [cur])
                                      else Resume(done, Tag(cur.name, cur.args + [Some("")]), w[1..])
  {
    GrowNothing(cur);
    if w[0] == ';' {
      StartTag(done + [cur], w[1..]);
    } else if w[0] == '=' && cur.args == [] {
      NewArgument(done, cur.name, [], w[1..]);
      assert [] + [Some("")] == [Some("")];
    } else if w[0] == ',' && cur.args != [] {
      NewArgument(done, cur.name, cur.args, w[1..]);
    }
  }

  /** One iteration: how much text it consumes and what it does to the tags. */
  datatype Step = Step(done: seq<Tag>, cur: Tag, consumed: nat) | Fail(error: Error)

  method ParseStep(done: seq<Tag>, cur: Tag, w: string) returns (r: Step)
    requires w != "" && Growing(cur)
    ensures r.Step? ==> 0 < r.consumed <= |w| && Growing(r.cur)
    ensures r.Step? ==> Resume(done, cur, w) == Resume(r.done, r.cur, w[r.consumed..])
    ensures r.Fail? ==> Resume(done, cur, w) == Refused(r.error, done + [cur])
  {
    var inside := cur.args == [];
    AtSeparator(done, cur, w);
    if w[0] == '\\' {
      if |w| > 1 {
        ResumeUnit(done, cur, w, [w[1]], w[2..]);
        r := Step(done, Grow(cur, [w[1]]), 2);
      } else {
        assert w[1..] == "" && "" + "" == "";
        ResumeUnit(done, cur, w, "", w[1..]);
        GrowNothing(cur);
        r := Step(done, cur, 1);
      }
    } else if w[0] == ';' {
      r := Step(done + [cur], Tag("", []), 1);
    } else if w[0] == '$' && |w| > 1 && w[1] == '$' && !inside {
      ResumeUnit(done, cur, w, w[..2], w[2..]);
      r := Step(done, Grow(cur, w[..2]), 2);
    } else if w[0] == '$' && |w| > 1 && w[1] == '{' && !inside {
      match Braces(w[2..], 1) {
        case None =>
          GrowNothing(cur);
          r := Fail(UnmatchedBrace);
        case Some(n) =>
          ResumeUnit(done, cur, w, w[..n + 2], w[n + 2..]);
          r := Step(done, Grow(cur, w[..n + 2]), n + 2);
      }
    } else if w[0] == '=' && inside {
      r := Step(done, Tag(cur.name, [Some("")]), 1);
    } else if w[0] == ',' && !inside {
      if |cur.args| >= MAXARGS {
        r := Fail(TooManyArgs);
      } else {
        r := Step(done, Tag(cur.name, cur.args + [Some("")]), 1);
      }
    } else {
      assert w[..1] == [w[0]];
      ResumeUnit(done, cur, w, [w[0]], w[1..]);
      r := Step(done, Grow(cur, [w[0]]), 1);
    }
  }

  lemma NewArgument(done: seq<Tag>, name: string, args: seq<Option<string>>, w: string)
    ensures FromArg(done, name, args, w) == Resume(done, Tag(name, args + [Some("")]), w)
  {
    var t := match ScanArg(w) case Scanned(t, _) => t case Unmatched(t) => t;
    assert "" + t == t;
    assert (args + [Some("")])[|args| := Some(t)] == args + [Some(t)];
  }

  /** The single pass over the text, with the tags collected as it goes. */
  method DoParse(w: string) returns (r: Reading)
    ensures r == Parse(w)
  {
    if w == "" {
      return Read([]);
    }
    var done: seq<Tag>, cur := [], Tag("", []);
    var i := 0;
    StartTag([], w);
    while i < |w|
      invariant i <= |w| && Growing(cur) && Resume(done, cur, w[i..]) == FromTag([], w)
    {
      var step := ParseStep(done, cur, w[i..]);
      match step {
        case Fail(e) => return Refused(e, done + [cur]);
        case Step(done', cur', n) =>
          assert w[i..][n..] == w[i + n..];
          done, cur, i := done', cur', i + n;
      }
    }
    var tags := done + [cur];
    GrowNothing(cur);
    r := Read(tags);
    for k := 0 to |tags|
      invariant CheckNames(tags) == CheckNames(tags[k..])
    {
      if tags[k].name == "" && tags[k].args != [] {
        return Refused(MissingTagName, tags);
      }
      if !LegalName(tags[k].name) {
        return Refused(IllegalCharacter, tags);
      }
      assert tags[k..][1..] == tags[k + 1..];
    }
  }

  // ---------------------------------------------------------------- round trip

  predicate AllSurvive(args: seq<Option<string>>)
  {
    forall i :: 0 <= i < |args| ==> Survives(TextOf(args[i]))
  }

  /** The arguments as they read, null pointers as empty strings. */
  function PlainArgs(args: seq<Option<string>>): seq<Option<string>>
  {
    seq(|args|, i requires 0 <= i < |args| => Some(TextOf(args[i])))
  }

  function PlainTag(t: Tag): Tag
  {
    Tag(t.name, PlainArgs(t.args))
  }

  function Plain(tags: seq<Tag>): seq<Tag>
  {
    seq(|tags|, i requires 0 <= i < |tags| => PlainTag(tags[i]))
  }

  /** What stands behind the first argument in the printed text. */
  function Behind(args: seq<Option<string>>, tail: string): string
    requires args != [] && AssembleArgs(args).Some?
  {
    if |args| == 1 then tail else "," + (AssembleArgs(args[1..]).value + tail)
  }

  lemma PrintedArgs(args: seq<Option<string>>, tail: string)
    requires args != [] && AssembleArgs(args).Some?
    ensures Escape(TextOf(args[0])).Some?
    ensures AssembleArgs(args).value + tail == Escape(TextOf(args[0])).value + Behind(args, tail)
  {
    if |args| > 1 {
      FourParts(Escape(TextOf(args[0])).value, ",", AssembleArgs(args[1..]).value, tail);
    }
  }

  lemma FourParts(a: string, b: string, c: string, d: string)
    ensures a + b + c + d == a + (b + (c + d))
  {
  }

  lemma ArgsUnfold(before: seq<Option<string>>, args: seq<Option<string>>)
    requires args != []
    ensures before + [Some(TextOf(args[0]))] + PlainArgs(args[1..]) == before + PlainArgs(args)
    ensures AllSurvive(args) <==> Survives(TextOf(args[0])) && AllSurvive(args[1..])
  {
    assert args == [args[0]] + args[1..];
    assert PlainArgs(args) == [Some(TextOf(args[0]))] + PlainArgs(args[1..]);
  }

  lemma {:induction false} ArgsRoundTrip(
    done: seq<Tag>, name: string, before: seq<Option<string>>, args: seq<Option<string>>, tail: string)
    requires args != [] && |before| + |args| <= MAXARGS && AssembleArgs(args).Some?
    requires tail == "" || tail[0] == ';'
    ensures var r := FromArg(done, name, before, AssembleArgs(args).value + tail);
            && (AllSurvive(args) ==> r == AfterArg(done, name, before + PlainArgs(args), tail))
            && (r.Read? && r.tags[|done|].args == before + PlainArgs(args) ==> AllSurvive(args))
    decreases |args|
  {
    var a := TextOf(args[0]);
    PrintedArgs(args, tail);
    ArgsUnfold(before, args);
    ArgumentRoundTrip(a, Behind(args, tail));
    if !Survives(a) {
      OnlySurvivorsComeBack(a, Behind(args, tail), "");
      assert "" + a == a;
      FirstArgDiffers(done, name, before, args, AssembleArgs(args).value + tail);
    } else if |args| == 1 {
      assert PlainArgs(args[1..]) == [] && before + [Some(a)] + [] == before + [Some(a)];
    } else {
      assert Behind(args, tail)[1..] == AssembleArgs(args[1..]).value + tail;
      ArgsRoundTrip(done, name, before + [Some(a)], args[1..], tail);
    }
  }

  lemma FirstArgDiffers(
    done: seq<Tag>, name: string, before: seq<Option<string>>, args: seq<Option<string>>, w: string)
    requires args != []
    requires ScanArg(w).Scanned? ==> ScanArg(w).text != TextOf(args[0])
    ensures var r := FromArg(done, name, before, w);
            r.Read? ==> r.tags[|done|].args != before + PlainArgs(args)
  {
    var r := FromArg(done, name, before, w);
    if r.Read? {
      var got := before + [Some(ScanArg(w).text)];
      assert got <= r.tags[|done|].args;
      assert r.tags[|done|].args[|before|] == got[|before|];
      assert (before + PlainArgs(args))[|before|] == Some(TextOf(args[0]));
    }
  }

  lemma {:induction false} NameRoundTrip(name: string, rest: string)
    requires LegalName(name) && (rest == "" || rest[0] == ';' || rest[0] == '=')
    ensures Escape(name) == Some(name) && ScanName(name + rest) == (name, rest)
  {
    if name == "" {
      assert "" + rest == rest;
    } else {
      assert NameChar(name[0]);
      NameRoundTrip(name[1..], rest);
      NameUnfolds(name[0], name[1..], rest);
      assert name == [name[0]] + name[1..];
    }
  }

  lemma NameUnfolds(c: char, name: string, rest: string)
    requires NameChar(c) && Escape(name) == Some(name) && ScanName(name + rest) == (name, rest)
    ensures Escape([c] + name) == Some([c] + name) && ScanName([c] + name + rest) == ([c] + name, rest)
  {
    var a := [c] + name;
    assert UnitLength(a) == Some(1) && a[1..] == name && a[..1] == [c];
    NameCharRead(c, name + rest);
    Associative([c], name, rest);
  }

  lemma NameCharRead(c: char, w: string)
    requires NameChar(c)
    ensures ScanName([c] + w) == ([c] + ScanName(w).0, ScanName(w).1)
  {
    assert ([c] + w)[1..] == w;
  }

  lemma TagRoundTrip(done: seq<Tag>, t: Tag, tail: string)
    requires TagOk(t) && AssembleTag(t).Some? && (tail == "" || tail[0] == ';')
    ensures var r := FromTag(done, AssembleTag(t).value + tail);
            && (AllSurvive(t.args) ==> r == AfterTag(done + [PlainTag(t)], tail))
            && (r.Read? && r.tags[|done|] == PlainTag(t) ==> AllSurvive(t.args))
  {
    if t.args == [] {
      NameRoundTrip(t.name, tail);
      assert PlainTag(t) == Tag(t.name, []);
    } else {
      var w := AssembleArgs(t.args).value + tail;
      NameRoundTrip(t.name, "=" + w);
      PrintedTag(t, tail);
      assert ("=" + w)[1..] == w;
      ArgsRoundTrip(done, t.name, [], t.args, tail);
      assert [] + PlainArgs(t.args) == PlainArgs(t.args);
      assert FromTag(done, AssembleTag(t).value + tail) == FromArg(done, t.name, [], w);
    }
  }

  function AfterTag(done: seq<Tag>, tail: string): Reading
  {
    if tail == "" then Read(done) else FromTag(done, tail[1..])
  }

  lemma PrintedTag(t: Tag, tail: string)
    requires t.args != [] && AssembleTag(t).Some? && Escape(t.name) == Some(t.name)
    ensures AssembleArgs(t.args).Some?
    ensures AssembleTag(t).value + tail == t.name + ("=" + (AssembleArgs(t.args).value + tail))
  {
    FourParts(t.name, "=", AssembleArgs(t.args).value, tail);
  }

  lemma TableUnfolds(done: seq<Tag>, tags: seq<Tag>)
    requires tags != []
    ensures done + [PlainTag(tags[0])] + Plain(tags[1..]) == done + Plain(tags)
    ensures TableSurvives(tags) <==> AllSurvive(tags[0].args) && TableSurvives(tags[1..])
    ensures TableOk(tags) <==> TagOk(tags[0]) && TableOk(tags[1..])
  {
    assert tags == [tags[0]] + tags[1..];
    assert Plain(tags) == [PlainTag(tags[0])] + Plain(tags[1..]);
  }

  predicate TableSurvives(tags: seq<Tag>)
  {
    forall i :: 0 <= i < |tags| ==> AllSurvive(tags[i].args)
  }

  lemma PrintedTable(tags: seq<Tag>, tail: string)
    requires tags != [] && Assemble(tags).Some?
    requires tail == if |tags| == 1 then "" else ";" + Assemble(tags[1..]).value
    ensures AssembleTag(tags[0]).Some? && Assemble(tags).value == AssembleTag(tags[0]).value + tail
  {
  }

  lemma {:induction false} TagsRoundTrip(done: seq<Tag>, tags: seq<Tag>)
    requires tags != [] && TableOk(tags) && Assemble(tags).Some?
    ensures FromTag(done, Assemble(tags).value) == Read(done + Plain(tags)) <==> TableSurvives(tags)
    decreases |tags|
  {
    TableUnfolds(done, tags);
    var r := FromTag(done, Assemble(tags).value);
    assert (done + Plain(tags))[|done|] == PlainTag(tags[0]);
    var tail := if |tags| == 1 then "" else ";" + Assemble(tags[1..]).value;
    PrintedTable(tags, tail);
    TagRoundTrip(done, tags[0], tail);
    if |tags| == 1 {
      assert Plain(tags[1..]) == [] && done + [PlainTag(tags[0])] + [] == done + [PlainTag(tags[0])];
    } else {
      assert tail[1..] == Assemble(tags[1..]).value;
      TagsRoundTrip(done + [PlainTag(tags[0])], tags[1..]);
    }
  }

  lemma {:induction false} SurvivorsPrint(args: seq<Option<string>>)
    requires args != [] && AllSurvive(args)
    ensures AssembleArgs(args).Some?
  {
    SurvivorComesBack(TextOf(args[0]), "");
    if |args| > 1 {
      SurvivorsPrint(args[1..]);
    }
  }

  lemma {:induction false} TablePrints(tags: seq<Tag>)
    requires TableOk(tags) && TableSurvives(tags)
    ensures Assemble(tags).Some?
  {
    if tags != [] {
      assert TagOk(tags[0]);
      NameRoundTrip(tags[0].name, "");
      if tags[0].args != [] {
        SurvivorsPrint(tags[0].args);
      }
      TablePrints(tags[1..]);
    }
  }

  /** A tag without a name has no arguments. */
  predicate Named(t: Tag)
  {
    t.name == "" ==> t.args == []
  }

  predicate AllNamed(tags: seq<Tag>)
  {
    forall i :: 0 <= i < |tags| ==> Named(tags[i])
  }

  lemma {:induction false} NamesPass(tags: seq<Tag>)
    requires TableOk(tags)
    ensures CheckNames(tags) == if AllNamed(tags) then None else Some(MissingTagName)
  {
    if tags != [] {
      assert TagOk(tags[0]);
      NamesPass(tags[1..]);
      assert AllNamed(tags) <==> Named(tags[0]) && AllNamed(tags[1..]) by {
        assert tags == [tags[0]] + tags[1..];
      }
    }
  }

  lemma PlainKeepsNames(tags: seq<Tag>)
    ensures (TableOk(tags) <==> TableOk(Plain(tags))) && (AllNamed(tags) <==> AllNamed(Plain(tags)))
  {
    var p := Plain(tags);
    assert forall i :: 0 <= i < |tags| ==> (TagOk(p[i]) <==> TagOk(tags[i])) && (Named(p[i]) <==> Named(tags[i]));
    assert forall i :: 0 <= i < |tags| ==> p[i] == PlainTag(tags[i]);
  }

  lemma PrintsEmpty(tags: seq<Tag>)
    requires TableOk(tags) && Assemble(tags).Some?
    ensures Assemble(tags).value == "" <==> tags == [] || tags == [Tag("", [])]
  {
    if |tags| == 1 {
      assert TagOk(tags[0]);
      NameRoundTrip(tags[0].name, "");
    }
  }

  /** Reading what was printed gives the table back. */
  predicate RoundTrips(tags: seq<Tag>)
  {
    Assemble(tags).Some? && Parse(Assemble(tags).value) == Read(Plain(tags))
  }

  // ---------------------------------------------------------------- what reading yields

  predicate TextArgs(args: seq<Option<string>>)
  {
    |args| <= MAXARGS && forall i :: 0 <= i < |args| ==> args[i].Some?
  }

  ghost predicate TextTags(tags: seq<Tag>)
  {
    forall i :: 0 <= i < |tags| ==> TextArgs(tags[i].args)
  }

  lemma {:induction false} TagsHaveText(done: seq<Tag>, w: string)
    requires TextTags(done)
    ensures FromTag(done, w).Read? ==> TextTags(FromTag(done, w).tags)
    decreases |w|, 1
  {
    var n := ScanName(w);
    if n.1 != "" {
      if n.1[0] == ';' {
        TagsHaveText(done + [Tag(n.0, [])], n.1[1..]);
      } else {
        ArgsHaveText(done, n.0, [], n.1[1..]);
      }
    }
  }

  lemma {:induction false} ArgsHaveText(done: seq<Tag>, name: string, args: seq<Option<string>>, w: string)
    requires TextTags(done) && TextArgs(args) && |args| < MAXARGS
    ensures FromArg(done, name, args, w).Read? ==> TextTags(FromArg(done, name, args, w).tags)
    decreases |w|
  {
    var r := ScanArg(w);
    if r.Scanned? {
      var args' := args + [Some(r.text)];
      if r.rest != "" && r.rest[0] == ';' {
        TagsHaveText(done + [Tag(name, args')], r.rest[1..]);
      } else if r.rest != "" && |args'| < MAXARGS {
        ArgsHaveText(done, name, args', r.rest[1..]);
      }
    }
  }

  lemma {:induction false} NamesPassed(tags: seq<Tag>)
    requires TextTags(tags) && CheckNames(tags) == None
    ensures TableOk(tags) && AllNamed(tags)
  {
    if tags != [] {
      assert TextArgs(tags[0].args);
      assert forall i :: 0 <= i < |tags[1..]| ==> tags[1..][i] == tags[i + 1];
      NamesPassed(tags[1..]);
      TableUnfolds([], tags);
    }
  }

  /** What doParse() accepts is a table to which the round trip theorem applies, without arguments
      on nameless tags. */
  lemma ParsedTableIsOk(w: string)
    requires Parse(w).Read?
    ensures TableOk(Parse(w).tags) && AllNamed(Parse(w).tags) && Plain(Parse(w).tags) == Parse(w).tags
  {
    if w != "" {
      TagsHaveText([], w);
      NamesPassed(Parse(w).tags);
      var tags := Parse(w).tags;
      forall i | 0 <= i < |tags|
        ensures PlainTag(tags[i]) == tags[i]
      {
        assert TextArgs(tags[i].args);
      }
    }
  }

  // ---------------------------------------------------------------- the round trip theorem

  /** Of all tables there can be, the round trip holds for exactly those with legal names and at most
      16 arguments a tag whose arguments all survive, in which no nameless tag has arguments, and
      which are more than a lone nameless tag. */
  lemma RoundTripIffSurvives(tags: seq<Tag>)
    ensures RoundTrips(tags) <==> TableOk(tags) && TableSurvives(tags) && AllNamed(tags) && tags != [Tag("", [])]
  {
    if RoundTrips(tags) {
      ParsedTableIsOk(Assemble(tags).value);
    }
    PlainKeepsNames(tags);
    if TableOk(tags) {
      OkTableRoundTrip(tags);
    }
  }

  lemma OkTableRoundTrip(tags: seq<Tag>)
    requires TableOk(tags)
    ensures RoundTrips(tags) <==> TableSurvives(tags) && AllNamed(tags) && tags != [Tag("", [])]
  {
    if TableSurvives(tags) {
      TablePrints(tags);
    }
    PlainKeepsNames(tags);
    NamesPass(Plain(tags));
    if Assemble(tags).Some? {
      PrintsEmpty(tags);
      if tags != [] {
        TagsRoundTrip([], tags);
        assert [] + Plain(tags) == Plain(tags);
      }
    }
  }

  /** A backslash that ends an argument is lost: cdisplaystring.h documents "t=foo\\,bar\\;bs=\\\\"
      as one argument ending in a backslash, which does not come back from print and read. */
  lemma BackslashIsLost(head: string)
    requires '$' !in head
    ensures !RoundTrips([Tag("t", [Some(head + "\\")])])
  {
    var a := head + "\\";
    var tags := [Tag("t", [Some(a)])];
    SurvivesWithoutDollar(a);
    assert a[|a| - 1] == '\\';
    assert !AllSurvive(tags[0].args) by {
      assert tags[0].args[0] == Some(a);
    }
    RoundTripIffSurvives(tags);
  }

  lemma TwoArgumentsPrint(m: string, x: string, y: string)
    requires LegalName(m) && IsPlain(x) && IsPlain(y)
    ensures AssembleTag(Tag(m, [Some(x), Some(y)])) == Some(m + "=" + (x + "," + y))
  {
    PlainPrintsAsItIs(x);
    PlainPrintsAsItIs(y);
    NameRoundTrip(m, "");
    var args: seq<Option<string>> := [Some(x), Some(y)];
    assert args[1..] == [Some(y)];
    assert AssembleArgs(args[1..]) == Some(y);
    assert AssembleArgs(args) == Some(x + "," + y);
  }

  lemma OneArgumentPrints(n: string, z: string)
    requires LegalName(n) && IsPlain(z)
    ensures AssembleTag(Tag(n, [Some(z)])) == Some(n + "=" + z)
  {
    PlainPrintsAsItIs(z);
    NameRoundTrip(n, "");
  }

  /** What stands where in a text: tags are separated by ";", the name ends at "=", arguments are
      separated by ",", and all of them are read in that order. */
  lemma PlainTextReads(m: string, x: string, y: string, n: string, z: string)
    requires LegalName(m) && LegalName(n) && m != "" && n != "" && IsPlain(x) && IsPlain(y) && IsPlain(z)
    ensures var tags := [Tag(m, [Some(x), Some(y)]), Tag(n, [Some(z)])];
            var text := m + "=" + (x + "," + y) + ";" + (n + "=" + z);
            Assemble(tags) == Some(text) && Parse(text) == Read(tags)
  {
    var first, second := Tag(m, [Some(x), Some(y)]), Tag(n, [Some(z)]);
    TwoArgumentsPrint(m, x, y);
    OneArgumentPrints(n, z);
    TwoTagsPrint(first, second);
    PlainSurvives(x);
    PlainSurvives(y);
    PlainSurvives(z);
    TwoTagsComeBack(first, second);
  }

  lemma PlainSurvives(x: string)
    requires IsPlain(x)
    ensures Survives(TextOf(Some(x)))
  {
    PlainPrintsAsItIs(x);
  }

  lemma TwoTagsPrint(first: Tag, second: Tag)
    requires AssembleTag(first).Some? && AssembleTag(second).Some?
    ensures Assemble([first, second]) == Some(AssembleTag(first).value + ";" + AssembleTag(second).value)
  {
    assert [first, second][1..] == [second];
  }

  lemma TwoTagsComeBack(first: Tag, second: Tag)
    requires TagOk(first) && TagOk(second) && first.name != "" && second.name != ""
    requires AllSurvive(first.args) && AllSurvive(second.args)
    requires PlainTag(first) == first && PlainTag(second) == second
    ensures Assemble([first, second]).Some? && Parse(Assemble([first, second]).value) == Read([first, second])
  {
    var tags := [first, second];
    RoundTripIffSurvives(tags);
    assert Plain(tags) == tags;
  }
}
