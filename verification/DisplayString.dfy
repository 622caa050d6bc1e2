/**
 A display string object: its tag table edited in place, and the cached text with its flag; when the
 cached text is what assembling the tags would give, over whole runs of calls.
 */
module DisplayStrings {
  import opened Options
  import opened DisplayText
  import opened DisplayTables
  import opened DisplayCanonical
  import opened DisplayLeftovers
  import opened DisplayEdits

  // ---------------------------------------------------------------- the object

  /** The object's fields: its tags, the cached text and whether the cache is marked valid. */
  datatype View = View(tags: seq<Tag>, text: string, valid: bool)

  /** What the cache promises: a text marked valid is what assembling the tags would give. */
  predicate Fresh(v: View)
  {
    v.valid ==> Assemble(v.tags) == Some(v.text)
  }

  /** What str() returns; None when assembling throws. */
  function Shown(v: View): Option<string>
  {
    if v.valid then Some(v.text) else Assemble(v.tags)
  }

  /** The calls that read or change an object. A parse that stops at an expression that does not end
      leaves an argument that runs into whatever is in memory. */
  datatype Op =
    | Show
    | ParseThis(s: string, junk: string)
    | InsertNamed(name: string, at: int)
    | SetAt(tag: int, index: int, v: string)
    | SetNamed(name: string, index: int, v: string)
    | RemoveAt(tag: int)
    | UpdateBy(ds: seq<Tag>)

  /** What each call does to the object; a text that is not marked valid is nobody's concern. */
  predicate Does(v: View, op: Op, v': View)
  {
    match op
    case Show =>
      if v.valid then v' == v
      else v'.tags == v.tags && v'.valid == Assemble(v.tags).Some? && (v'.valid ==> Assemble(v.tags) == Some(v'.text))
    case ParseThis(s, junk) =>
      if Shown(v) == None || Shown(v) == Some(s) then v'.tags == v.tags && !v'.valid
      else if Parse(s).Read? then v'.tags == Parse(s).tags && !v'.valid
      else v' == View(Leftover(Parse(s), junk), s, true)
    case InsertNamed(name, at) =>
      (match InsertTag(v.tags, name, at)
       case Err(_) => v' == v
       case Ok((tags, _)) => v'.tags == tags && !v'.valid)
    case SetAt(i, j, x) =>
      v'.tags == (if 0 <= i < |v.tags| && 0 <= j < MAXARGS then SetArg(v.tags, i, j, x) else v.tags) && !v'.valid
    case SetNamed(name, j, x) =>
      if ArgByName(v.tags, name, j) == x then v' == v
      else
        (match FindOrInsert(v.tags, name)
         case Err(_) => v' == v
         case Ok((tags, i)) => v'.tags == (if 0 <= j < MAXARGS then SetArg(tags, i, j, x) else tags) && !v'.valid)
    case RemoveAt(i) =>
      v'.tags == (if 0 <= i < |v.tags| then Without(v.tags, i) else v.tags) && !v'.valid
    case UpdateBy(ds) =>
      var done := ApplyWrites(v.tags, Writes(ds));
      v'.tags == done.0 && if done.1.Some? then v'.text == v.text && v'.valid == v.valid else !v'.valid
  }

  /** The calls that leave a stale text marked valid: a parse that is refused, of a text that is not
      canonical; and an update that throws midway while a text is cached, after writes that changed
      what assembling gives. */
  predicate Spoils(v: View, op: Op)
  {
    match op
    case ParseThis(s, _) => Shown(v).Some? && Shown(v) != Some(s) && Parse(s).Refused? && !Canonical(s)
    case UpdateBy(ds) =>
      var done := ApplyWrites(v.tags, Writes(ds));
      done.1.Some? && v.valid && Assemble(done.0) != Assemble(v.tags)
    case _ => false
  }

  lemma StepStaysFresh(v: View, op: Op, v': View)
    requires Does(v, op, v') && Fresh(v)
    ensures Fresh(v') <==> !Spoils(v, op)
  {
    if op.ParseThis? {
      LeftPrintsBackIffCanonical(op.s, op.junk);
    }
  }

  /** No call ever leaves more than 16 arguments in a tag. */
  lemma StepKeepsFits(v: View, op: Op, v': View)
    requires Does(v, op, v') && Fits(v.tags)
    ensures Fits(v'.tags)
  {
    match op
    case Show =>
    case ParseThis(s, junk) => LeftoverFits(s, junk);
    case InsertNamed(name, at) => FindKeepsFits(v.tags, name, at);
    case SetAt(i, j, x) =>
      if 0 <= i < |v.tags| && 0 <= j < MAXARGS {
        SetArgKeepsFits(v.tags, i, j, x);
      }
    case SetNamed(name, j, x) =>
      FindKeepsFits(v.tags, name, 0);
      if FindOrInsert(v.tags, name).Ok? && 0 <= j < MAXARGS {
        var found := FindOrInsert(v.tags, name).value;
        SetArgKeepsFits(found.0, found.1, j, x);
      }
    case RemoveAt(_) =>
    case UpdateBy(ds) => WritesKeepFits(v.tags, Writes(ds));
  }

  /** An update does throw midway when the updating string has an argument on a nameless tag; here
      the empty text stays marked valid although the tag "a" has been written. */
  lemma UpdateMayThrowMidway(x: string)
    requires x != ""
    ensures Spoils(View([], "", true), UpdateBy([Tag("a", [Some("1")]), Tag("", [Some(x)])]))
  {
    var first, second := Tag("a", [Some("1")]), Tag("", [Some(x)]);
    WritesOfOne(first, "1", [second]);
    WritesOfOne(second, x, []);
    assert [first] + [second] == [first, second] && [second] + [] == [second];
    SecondWriteThrows(first, "1", x);
    PrintsEmpty([first]);
  }

  lemma SecondWriteThrows(first: Tag, v: string, x: string)
    requires first == Tag("a", [Some(v)]) && v != "" && v != "-" && x != ""
    ensures ApplyWrites([], [Write("a", 0, v)] + ([Write("", 0, x)] + Writes([]))) == ([first], Some(EmptyTagName))
  {
    var w1, w2 := Write("a", 0, v), Write("", 0, x);
    var ws := [w1] + ([w2] + Writes([]));
    FirstWrite("a", v);
    assert ws[0] == w1 && ws[1..] == [w2] && [w2][1..] == [];
    assert ApplyWrite([first], w2) == Err(EmptyTagName);
    assert ApplyWrites([first], [w2]) == ([first], Some(EmptyTagName));
  }

  lemma WritesOfOne(t: Tag, x: string, rest: seq<Tag>)
    requires t.args == [Some(x)]
    ensures Writes([t] + rest) == [Write(t.name, 0, x)] + Writes(rest)
  {
    assert ([t] + rest)[1..] == rest;
    var ws := TagWrites(t, 0);
    assert |ws| == 1 && ws[0] == Write(t.name, 0 + 0, TextOf(t.args[0 + 0]));
  }

  lemma FirstWrite(name: string, v: string)
    requires name != "" && LegalName(name) && v != ""
    ensures SetByName([], name, 0, v) == Ok([Tag(name, [Some(v)])])
  {
    FirstArgSet(v);
    var tags := Inserted([], 0, Tag(name, []));
    assert tags == [Tag(name, [])];
    assert FindOrInsert([], name) == Ok((tags, 0));
    assert SetArg(tags, 0, 0, v) == tags[0 := Tag(name, [Some(v)])] == [Tag(name, [Some(v)])];
  }

  ghost predicate Run(views: seq<View>, ops: seq<Op>)
  {
    |views| == |ops| + 1 && forall k :: 0 <= k < |ops| ==> Does(views[k], ops[k], views[k + 1])
  }

  ghost predicate FreshUpTo(views: seq<View>, n: nat)
    requires n < |views|
  {
    forall k :: 0 <= k <= n ==> Fresh(views[k])
  }

  ghost predicate NothingSpoils(views: seq<View>, ops: seq<Op>, n: nat)
    requires |views| == |ops| + 1 && n <= |ops|
  {
    forall k :: 0 <= k < n ==> !Spoils(views[k], ops[k])
  }

  lemma CallStaysFresh(views: seq<View>, ops: seq<Op>, k: nat)
    requires Run(views, ops) && k < |ops| && Fresh(views[k])
    ensures Fresh(views[k + 1]) <==> !Spoils(views[k], ops[k])
  {
    StepStaysFresh(views[k], ops[k], views[k + 1]);
  }

  /** Over any run of calls the text marked valid is at all times what assembling would give, if and
      only if it was so at the start and no call of the two kinds named spoils it. */
  lemma {:induction false} RunStaysFresh(views: seq<View>, ops: seq<Op>, n: nat)
    requires Run(views, ops) && n <= |ops|
    ensures FreshUpTo(views, n) <==> Fresh(views[0]) && NothingSpoils(views, ops, n)
  {
    if n > 0 {
      RunStaysFresh(views, ops, n - 1);
      if Fresh(views[n - 1]) {
        CallStaysFresh(views, ops, n - 1);
      }
      OneMoreCall(views, ops, n);
    }
  }

  lemma OneMoreCall(views: seq<View>, ops: seq<Op>, n: nat)
    requires |views| == |ops| + 1 && 0 < n <= |ops|
    ensures FreshUpTo(views, n) <==> FreshUpTo(views, n - 1) && Fresh(views[n])
    ensures NothingSpoils(views, ops, n) <==> NothingSpoils(views, ops, n - 1) && !Spoils(views[n - 1], ops[n - 1])
  {
  }

  /** The object as it is made from a text that parses: that text is kept as the cached one. */
  function FromTextView(s: string): View
    requires Parse(s).Read?
  {
    View(Parse(s).tags, s, true)
  }

  /** The text kept is what assembling gives if and only if it is canonical. */
  lemma FreshFromTextIffCanonical(s: string)
    requires Parse(s).Read?
    ensures Fresh(FromTextView(s)) <==> Canonical(s)
  {
    LeftPrintsBackIffCanonical(s, "");
  }

  /** A run that starts from a text. */
  lemma RunFromText(s: string, views: seq<View>, ops: seq<Op>)
    requires Parse(s).Read? && Run(views, ops) && views[0] == FromTextView(s)
    ensures FreshUpTo(views, |ops|) <==> Canonical(s) && NothingSpoils(views, ops, |ops|)
  {
    RunStaysFresh(views, ops, |ops|);
    FreshFromTextIffCanonical(s);
  }

  class DisplayString {
    var tags: seq<Tag>
    var assembledString: string
    var assembledStringValid: bool

    constructor ()
      ensures Now() == View([], "", true) && Fresh(Now())
    {
      tags, assembledString, assembledStringValid := [], "", true;
    }

    function Now(): View
      reads this
    {
      View(tags, assembledString, assembledStringValid)
    }

    /** The constructor from a text keeps that text as the cache, unlike parse(). */
    static method FromText(s: string) returns (r: Result<DisplayString>)
      ensures r.Ok? <==> Parse(s).Read?
      ensures r.Ok? ==> fresh(r.value) && r.value.Now() == FromTextView(s)
      ensures r.Ok? ==> (Fresh(r.value.Now()) <==> Canonical(s))
      ensures r.Err? ==> Parse(s).error == r.error
    {
      var parsed := DoParse(s);
      match parsed {
        case Refused(e, _) => return Err(e);
        case Read(tags) =>
          FreshFromTextIffCanonical(s);
          var d := new DisplayString();
          d.tags, d.assembledString := tags, s;
          return Ok(d);
      }
    }

    /** strcatescaped(): d with s appended in escaped form. */
    static method StrcatEscaped(d: string, s: string) returns (r: Option<string>)
      ensures r == Join(Some(d), "", Escape(s))
    {
      var out, i := d, 0;
      EscapedAtEnds(d, s, d);
      while i < |s|
        invariant i <= |s| && EscapedSoFar(d, s, out, i)
      {
        var n := UnitLength(s[i..]);
        if n == None {
          EscapeFails(d, s, out, i);
          return None;
        }
        NextEscaped(d, s, out, i, n.value);
        out := out + Piece(s[i..], n.value);
        i := i + n.value;
      }
      EscapedAtEnds(d, s, out);
      r := Some(out);
    }

    /** The loop of assemble() over the arguments of one tag. */
    static method AssembleArguments(d: string, args: seq<Option<string>>) returns (r: Option<string>)
      requires args != []
      ensures r == Join(Some(d), "", AssembleArgs(args))
    {
      r := StrcatEscaped(d, TextOf(args[0]));
      var i := 1;
      ArgsStep(d, "", args);
      assert d + "" == d;
      while i < |args| && r.Some?
        invariant 1 <= i <= |args|
        invariant Join(Some(d), "", AssembleArgs(args)) == MoreArgs(r, args[i..])
      {
        assert args[i..][1..] == args[i + 1..];
        ArgsStep(r.value, ",", args[i..]);
        r := StrcatEscaped(r.value + ",", TextOf(args[i]));
        i := i + 1;
      }
    }

    /** assemble(), which throws on an argument with an expression that does not end. */
    method DoAssemble() returns (r: Option<string>)
      ensures r == Assemble(tags)
    {
      if tags == [] {
        return Some("");
      }
      r := AssembleOne("", tags[0]);
      var i := 1;
      TagsStep("", "", tags);
      JoinNothing(Assemble(tags));
      assert "" + "" == "";
      while i < |tags| && r.Some?
        invariant 1 <= i <= |tags|
        invariant Assemble(tags) == MoreTags(r, tags[i..])
      {
        assert tags[i..][1..] == tags[i + 1..];
        TagsStep(r.value, ";", tags[i..]);
        r := AssembleOne(r.value + ";", tags[i]);
        i := i + 1;
      }
    }

    static method AssembleOne(d: string, t: Tag) returns (r: Option<string>)
      ensures r == Join(Some(d), "", AssembleTag(t))
    {
      r := StrcatEscaped(d, t.name);
      if r.Some? && t.args != [] {
        JoinSeparator(r.value, "=", AssembleArgs(t.args));
        JoinAssociates(Some(d), "", Escape(t.name), "=", AssembleArgs(t.args));
        r := AssembleArguments(r.value + "=", t.args);
      }
    }

    /** str(): the cached text if marked valid, else a fresh assembly, which then is cached. */
    method Str() returns (r: Option<string>)
      modifies this`assembledString, this`assembledStringValid
      ensures old(assembledStringValid) ==> Now() == old(Now()) && r == Some(old(assembledString))
      ensures !old(assembledStringValid) ==> r == Assemble(tags)
      ensures !old(assembledStringValid) && r.Some? ==> Now() == View(tags, r.value, true)
      ensures r == None ==> !assembledStringValid
      ensures Does(old(Now()), Show, Now())
    {
      if !assembledStringValid {
        r := DoAssemble();
        if r == None {
          assembledString := *;
          return;
        }
        assembledString, assembledStringValid := r.value, true;
      }
      r := Some(assembledString);
    }

    /** What an argument that was not terminated runs into. */
    static method WhateverFollows() returns (junk: string)
    {
      junk := *;
    }

    /** parse(). A text equal to what str() shows is not parsed again. A text that is refused
        stays behind as the cached text, marked valid, with the tags read up to then. */
    method ParseText(s: string) returns (err: Option<Error>)
      modifies this
      ensures exists junk: string :: Does(old(Now()), ParseThis(s, junk), Now())
      ensures err == if Shown(old(Now())) == None then Some(UnmatchedBrace)
                     else if Shown(old(Now())) == Some(s) || Parse(s).Read? then None
                     else Some(Parse(s).error)
    {
      ghost var before := Now();
      var shown := Str();
      if shown == None {
        assert Does(before, ParseThis(s, ""), Now());
        return Some(UnmatchedBrace);
      }
      if shown != Some(s) {
        assembledString := s;
        var r := DoParse(s);
        match r {
          case Refused(e, _) =>
            var junk := WhateverFollows();
            tags := Leftover(r, junk);
            assert Does(before, ParseThis(s, junk), Now());
            return Some(e);
          case Read(parsed) => tags := parsed;
        }
      }
      assembledStringValid := false;
      assert Does(before, ParseThis(s, ""), Now());
      err := None;
    }

    method GetTagIndex(name: string) returns (i: int)
      ensures i == TagIndex(tags, name)
    {
      for t := 0 to |tags|
        invariant TagIndex(tags, name) == if TagIndex(tags[t..], name) == -1 then -1 else TagIndex(tags[t..], name) + t
      {
        assert tags[t..][1..] == tags[t + 1..];
        if tags[t].name == name {
          return t;
        }
      }
      i := -1;
    }

    method DoInsertTag(name: string, at: int) returns (r: Result<nat>)
      modifies this`tags
      ensures var ins := InsertTag(old(tags), name, at);
              if ins.Ok? then tags == ins.value.0 && r == Ok(ins.value.1) else tags == old(tags) && r == Err(ins.error)
    {
      if name == "" {
        return Err(EmptyTagName);
      }
      for k := 0 to |name|
        invariant forall i :: 0 <= i < k ==> NameChar(name[i])
      {
        if !NameChar(name[k]) {
          return Err(IllegalCharacter);
        }
      }
      var t := GetTagIndex(name);
      if t != -1 {
        return Ok(t);
      }
      var k := if at < 0 then 0 else if at > |tags| then |tags| else at;
      tags := tags[..k] + [Tag(name, [])] + tags[k..];
      r := Ok(k);
    }

    /** insertTag(). */
    method Insert(name: string, at: int) returns (r: Result<nat>)
      modifies this
      ensures var ins := InsertTag(old(tags), name, at);
              if ins.Ok? then tags == ins.value.0 && r == Ok(ins.value.1) && !assembledStringValid
              else Now() == old(Now()) && r == Err(ins.error)
      ensures Does(old(Now()), InsertNamed(name, at), Now())
    {
      r := DoInsertTag(name, at);
      if r.Ok? {
        assembledStringValid := false;
      }
    }

    method DoSetTagArg(i: int, j: int, v: string) returns (ok: bool)
      modifies this`tags
      ensures ok <==> 0 <= i < |old(tags)| && 0 <= j < MAXARGS
      ensures tags == if ok then SetArg(old(tags), i, j, v) else old(tags)
    {
      if i < 0 || i >= |tags| || j < 0 || j >= MAXARGS {
        return false;
      }
      var args := Extended(tags[i].args, j);
      if TextOf(args[j]) == v {
        tags := tags[i := tags[i].(args := args)];
        return true;
      }
      args := args[j := Slot(v)];
      ghost var full := args;
      while args != [] && args[|args| - 1] == None
        invariant Trimmed(args) == Trimmed(full)
      {
        args := args[..|args| - 1];
      }
      if args == [] {
        tags := tags[..i] + tags[i + 1..];
      } else {
        tags := tags[i := tags[i].(args := args)];
      }
      ok := true;
    }

    /** setTagArg() by index. */
    method SetTagArg(i: int, j: int, v: string) returns (ok: bool)
      modifies this
      ensures ok <==> 0 <= i < |old(tags)| && 0 <= j < MAXARGS
      ensures Does(old(Now()), SetAt(i, j, v), Now())
    {
      ok := DoSetTagArg(i, j, v);
      assembledStringValid := false;
    }

    /** doSetTagArg() by name. */
    method DoSetByName(name: string, j: nat, v: string) returns (err: Option<Error>)
      modifies this`tags
      ensures match SetByName(old(tags), name, j, v)
              case Err(e) => err == Some(e) && tags == old(tags)
              case Ok(r) => err == None && tags == r
    {
      var i := GetTagIndex(name);
      err := None;
      if i == -1 {
        var r := DoInsertTag(name, 0);
        if r.Err? {
          return Some(r.error);
        }
        i := r.value;
      }
      var ok := DoSetTagArg(i, j, v);
    }

    /** setTagArg() by name: nothing happens when the argument already reads as v. */
    method SetTagArgByName(name: string, j: int, v: string) returns (r: Result<bool>)
      modifies this
      ensures Does(old(Now()), SetNamed(name, j, v), Now())
      ensures r == if ArgByName(old(tags), name, j) == v then Ok(false)
                   else match FindOrInsert(old(tags), name) case Err(e) => Err(e) case Ok(_) => Ok(0 <= j < MAXARGS)
    {
      var i := GetTagIndex(name);
      if Arg(tags, i, j) == v {
        return Ok(false);
      }
      if i == -1 {
        var ins := DoInsertTag(name, 0);
        if ins.Err? {
          return Err(ins.error);
        }
        i := ins.value;
      }
      var ok := DoSetTagArg(i, j, v);
      assembledStringValid := false;
      r := Ok(ok);
    }

    /** removeTag() by index. */
    method RemoveTag(i: int) returns (ok: bool)
      modifies this
      ensures ok <==> 0 <= i < |old(tags)|
      ensures Does(old(Now()), RemoveAt(i), Now())
    {
      ok := 0 <= i < |tags|;
      if ok {
        tags := tags[..i] + tags[i + 1..];
      }
      assembledStringValid := false;
    }

    /** updateWith(): writes the other string's arguments one by one, up to the first that throws, and
        then the flag is not touched. The final doParse(str()) finds the text that is shown and
        changes nothing, unless the text cannot be assembled. */
    method UpdateWith(ds: seq<Tag>) returns (err: Option<Error>)
      modifies this
      ensures Does(old(Now()), UpdateBy(ds), Now())
      ensures var failed := ApplyWrites(old(tags), Writes(ds)).1;
              err == if failed.Some? then failed
                     else if !old(assembledStringValid) && Assemble(tags) == None then Some(UnmatchedBrace) else None
    {
      err := WriteTags(ds);
      if err.Some? {
        return;
      }
      var shown := Str();
      if shown == None {
        return Some(UnmatchedBrace);
      }
      assembledStringValid := false;
    }

    method WriteTags(ds: seq<Tag>) returns (err: Option<Error>)
      modifies this`tags
      ensures (tags, err) == ApplyWrites(old(tags), Writes(ds))
    {
      ghost var goal := ApplyWrites(tags, Writes(ds));
      var i := 0;
      assert ds[0..] == ds;
      while i < |ds|
        invariant i <= |ds| && ApplyWrites(tags, Writes(ds[i..])) == goal
      {
        ghost var later := Writes(ds[i + 1..]);
        assert ds[i..][1..] == ds[i + 1..];
        err := UpdateWithTag(ds[i], later, goal);
        if err.Some? {
          return;
        }
        assert TagWrites(ds[i], |ds[i].args|) + later == later;
        i := i + 1;
      }
      err := None;
    }

    /** The arguments of one tag of the updating string. */
    method UpdateWithTag(t: Tag, ghost later: seq<Write>, ghost goal: (seq<Tag>, Option<Error>)) returns (err: Option<Error>)
      requires RemainingIs(tags, t, 0, later, goal)
      modifies this`tags
      ensures err.Some? ==> (tags, err) == goal
      ensures err == None ==> RemainingIs(tags, t, |t.args|, later, goal)
    {
      var j := 0;
      while j < |t.args|
        invariant j <= |t.args| && RemainingIs(tags, t, j, later, goal)
      {
        NextWrite(tags, t, j, later, goal);
        err := DoWrite(t.name, j, TextOf(t.args[j]));
        if err.Some? {
          return;
        }
        j := j + 1;
      }
      err := None;
    }

    method DoWrite(name: string, j: nat, arg: string) returns (err: Option<Error>)
      modifies this`tags
      ensures match ApplyWrite(old(tags), Write(name, j, arg))
              case Err(e) => err == Some(e) && tags == old(tags)
              case Ok(r) => err == None && tags == r
    {
      err := None;
      if arg == "-" {
        err := DoSetByName(name, j, "");
      } else if arg != "" {
        err := DoSetByName(name, j, arg);
      }
    }
  }

  ghost predicate RemainingIs(tags: seq<Tag>, t: Tag, j: nat, later: seq<Write>, goal: (seq<Tag>, Option<Error>))
    requires j <= |t.args|
  {
    ApplyWrites(tags, TagWrites(t, j) + later) == goal
  }

  lemma WritesUnfold(t: Tag, j: nat, later: seq<Write>)
    requires j < |t.args|
    ensures var now := TagWrites(t, j) + later;
            now != [] && now[0] == Write(t.name, j, TextOf(t.args[j])) && now[1..] == TagWrites(t, j + 1) + later
  {
    assert TagWrites(t, j)[1..] == TagWrites(t, j + 1);
  }

  lemma NextWrite(tags: seq<Tag>, t: Tag, j: nat, later: seq<Write>, goal: (seq<Tag>, Option<Error>))
    requires j < |t.args| && RemainingIs(tags, t, j, later, goal)
    ensures match ApplyWrite(tags, Write(t.name, j, TextOf(t.args[j])))
            case Err(e) => goal == (tags, Some(e))
            case Ok(r) => RemainingIs(r, t, j + 1, later, goal)
  {
    WritesUnfold(t, j, later);
  }

  lemma PieceOf(s: string, n: nat)
    requires s != "" && UnitLength(s) == Some(n)
    ensures (if Special(s[0]) then "\\" else "") + s[..n] == if Special(s[0]) then ['\\', s[0]] else s[..n]
  {
  }

  lemma Regroup(out: string, piece: string, e: string)
    ensures out + "" + (piece + e) == out + piece + "" + e
  {
  }

  lemma EscapeStep(out: string, s: string, piece: string, n: nat)
    requires s != "" && UnitLength(s) == Some(n)
    requires piece == (if Special(s[0]) then "\\" else "") + s[..n]
    ensures Join(Some(out), "", Escape(s)) == Join(Some(out + piece), "", Escape(s[n..]))
  {
    PieceOf(s, n);
    match Escape(s[n..])
    case None =>
      assert Escape(s) == None;
    case Some(e) =>
      assert Escape(s) == Some(piece + e);
      Regroup(out, piece, e);
  }

  predicate EscapedSoFar(d: string, s: string, out: string, i: nat)
    requires i <= |s|
  {
    Join(Some(d), "", Escape(s)) == Join(Some(out), "", Escape(s[i..]))
  }

  lemma EscapedAtEnds(d: string, s: string, out: string)
    ensures EscapedSoFar(d, s, d, 0)
    ensures EscapedSoFar(d, s, out, |s|) ==> Join(Some(d), "", Escape(s)) == Some(out)
  {
    assert s[0..] == s && s[|s|..] == "";
    assert out + "" + "" == out;
  }

  lemma EscapeFails(d: string, s: string, out: string, i: nat)
    requires i < |s| && EscapedSoFar(d, s, out, i) && UnitLength(s[i..]) == None
    ensures Join(Some(d), "", Escape(s)) == None
  {
    assert Escape(s[i..]) == None;
  }

  /** One unit of an argument, with its escape character if it needs one. */
  function Piece(s: string, n: nat): string
    requires s != "" && n <= |s|
  {
    (if Special(s[0]) then "\\" else "") + s[..n]
  }

  lemma NextEscaped(d: string, s: string, out: string, i: nat, n: nat)
    requires i < |s| && UnitLength(s[i..]) == Some(n) && EscapedSoFar(d, s, out, i)
    ensures EscapedSoFar(d, s, out + Piece(s[i..], n), i + n)
  {
    SuffixOfSuffix(s, i, n);
    EscapeStep(out, s[i..], Piece(s[i..], n), n);
  }

  lemma SuffixOfSuffix(s: string, i: nat, n: nat)
    requires i + n <= |s|
    ensures s[i..][n..] == s[i + n..] && s[i..][..n] == s[i..i + n]
  {
  }

  /** The text so far, with the remaining arguments behind it. */
  function MoreArgs(r: Option<string>, args: seq<Option<string>>): Option<string>
  {
    if args == [] then r else Join(r, ",", AssembleArgs(args))
  }

  function MoreTags(r: Option<string>, tags: seq<Tag>): Option<string>
  {
    if tags == [] then r else Join(r, ";", Assemble(tags))
  }

  lemma JoinAssociates(a: Option<string>, s: string, b: Option<string>, t: string, c: Option<string>)
    ensures Join(Join(a, s, b), t, c) == Join(a, s, Join(b, t, c))
  {
    if a.Some? && b.Some? && c.Some? {
      assert a.value + s + b.value + t + c.value == a.value + s + (b.value + t + c.value);
    }
  }

  lemma JoinSeparator(d: string, s: string, b: Option<string>)
    ensures Join(Some(d + s), "", b) == Join(Some(d), s, b)
  {
    if b.Some? {
      assert d + s + "" + b.value == d + s + b.value;
    }
  }

  lemma JoinNothing(b: Option<string>)
    ensures Join(Some(""), "", b) == b
  {
    if b.Some? {
      assert "" + "" + b.value == b.value;
    }
  }

  lemma ArgsStep(d: string, sep: string, args: seq<Option<string>>)
    requires args != []
    ensures Join(Some(d), sep, AssembleArgs(args)) == MoreArgs(Join(Some(d + sep), "", Escape(TextOf(args[0]))), args[1..])
  {
    var first := Escape(TextOf(args[0]));
    JoinSeparator(d, sep, first);
    if |args| > 1 {
      JoinAssociates(Some(d), sep, first, ",", AssembleArgs(args[1..]));
    }
  }

  lemma TagsStep(d: string, sep: string, tags: seq<Tag>)
    requires tags != []
    ensures Join(Some(d), sep, Assemble(tags)) == MoreTags(Join(Some(d + sep), "", AssembleTag(tags[0])), tags[1..])
  {
    var first := AssembleTag(tags[0]);
    JoinSeparator(d, sep, first);
    if |tags| > 1 {
      JoinAssociates(Some(d), sep, first, ";", Assemble(tags[1..]));
    }
  }
}
