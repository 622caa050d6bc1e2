/**
 What parsing leaves in the tag table, also when it is given up, and for which texts printing that
 table gives the text back.
 */
module DisplayLeftovers {
  import opened Options
  import opened DisplayText
  import opened DisplayTables
  import opened DisplayCanonical

  /** What is read of a tag's arguments from the count-th on, and the text of the tags behind it. */
  function ArgsLeft(w: string, count: nat, junk: string): (r: (seq<Option<string>>, Option<string>))
    ensures r.0 != [] && (r.1.Some? ==> |r.1.value| < |w|)
    decreases |w|
  {
    match ScanArg(w)
    case Unmatched(t) => ([Some(t + junk)], None)
    case Scanned(t, rest) =>
      if rest == "" then ([Some(t)], None)
      else if rest[0] == ';' then ([Some(t)], Some(rest[1..]))
      else if count >= MAXARGS then ([Some(t)], None)
      else
        var more := ArgsLeft(rest[1..], count + 1, junk);
        ([Some(t)] + more.0, more.1)
  }

  /** The tags there are when reading has come to its end or was given up. */
  function TagsLeft(w: string, junk: string): (r: seq<Tag>)
    ensures r != []
    decreases |w|
  {
    var (name, rest) := ScanName(w);
    if rest == "" then [Tag(name, [])]
    else if rest[0] == ';' then [Tag(name, [])] + TagsLeft(rest[1..], junk)
    else
      var (args, behind) := ArgsLeft(rest[1..], 1, junk);
      [Tag(name, args)] + (if behind.None? then [] else TagsLeft(behind.value, junk))
  }

  /** The last tag as it reads when an expression in it did not end. */
  function Leftover(r: Reading, junk: string): seq<Tag>
  {
    match r
    case Read(tags) => tags
    case Refused(e, left) =>
      if e == UnmatchedBrace && left != [] then left[|left| - 1 := Grow(left[|left| - 1], junk)] else left
  }

  lemma {:induction false} TagsLeftOver(done: seq<Tag>, w: string, junk: string)
    ensures Leftover(FromTag(done, w), junk) == done + TagsLeft(w, junk)
    decreases |w|, 1
  {
    var (name, rest) := ScanName(w);
    if rest != "" {
      if rest[0] == ';' {
        TagsLeftOver(done + [Tag(name, [])], rest[1..], junk);
        OneMoreTag(done, Tag(name, []), TagsLeft(rest[1..], junk));
      } else {
        ArgsLeftOver(done, name, [], rest[1..], junk);
        var (args, behind) := ArgsLeft(rest[1..], 1, junk);
        assert [] + args == args;
        OneMoreTag(done, Tag(name, args), MoreLeft(behind, junk));
      }
    }
  }

  lemma OneMoreTag(done: seq<Tag>, t: Tag, more: seq<Tag>)
    ensures done + [t] + more == done + ([t] + more)
  {
  }

  function MoreLeft(behind: Option<string>, junk: string): seq<Tag>
  {
    if behind.None? then [] else TagsLeft(behind.value, junk)
  }

  lemma {:induction false} ArgsLeftOver(done: seq<Tag>, name: string, args: seq<Option<string>>, w: string, junk: string)
    requires |args| < MAXARGS
    ensures var (more, behind) := ArgsLeft(w, |args| + 1, junk);
            Leftover(FromArg(done, name, args, w), junk) == done + [Tag(name, args + more)] + MoreLeft(behind, junk)
    decreases |w|, 0
  {
    match ScanArg(w)
    case Unmatched(t) => UnfinishedTag(done, name, args, t, junk);
    case Scanned(t, rest) =>
      var args' := args + [Some(t)];
      if rest == "" {
        NothingMore(done, Tag(name, args'));
      } else if rest[0] == ';' {
        TagsLeftOver(done + [Tag(name, args')], rest[1..], junk);
      } else if |args'| < MAXARGS {
        ArgsLeftOver(done, name, args', rest[1..], junk);
        OneMoreArg(args, t, ArgsLeft(rest[1..], |args'| + 1, junk).0);
      } else {
        NothingMore(done, Tag(name, args'));
      }
  }

  lemma OneMoreArg(args: seq<Option<string>>, t: string, more: seq<Option<string>>)
    ensures args + [Some(t)] + more == args + ([Some(t)] + more)
  {
  }

  lemma NothingMore(done: seq<Tag>, t: Tag)
    ensures done + [t] + [] == done + [t]
  {
  }

  lemma UnfinishedTag(done: seq<Tag>, name: string, args: seq<Option<string>>, t: string, junk: string)
    ensures Leftover(Refused(UnmatchedBrace, done + [Tag(name, args + [Some(t)])]), junk)
            == done + [Tag(name, args + [Some(t + junk)])] + []
  {
    assert (args + [Some(t)])[|args| := Some(t + junk)] == args + [Some(t + junk)];
  }

  /** The rest of a text, from an argument on, which is the count-th of its tag. */
  predicate CanonicalArgs(w: string, count: nat)
    decreases |w|
  {
    var r := ScanArg(w);
    && r.Scanned? && CanonicalArg(w)
    && (r.rest == "" || if r.rest[0] == ';' then CanonicalTags(r.rest[1..])
                        else count < MAXARGS && CanonicalArgs(r.rest[1..], count + 1))
  }

  predicate CanonicalTags(w: string)
    decreases |w|
  {
    var rest := ScanName(w).1;
    && CanonicalName(w)
    && (rest == "" || if rest[0] == ';' then CanonicalTags(rest[1..]) else CanonicalArgs(rest[1..], 1))
  }

  /** A check on a text, to be made before it is given to the class: every name and every argument
      is canonical, every expression ends, and no tag has more than 16 arguments. */
  predicate Canonical(s: string)
  {
    s == "" || CanonicalTags(s)
  }

  /** The printed form of the tags behind a tag, and of the arguments of a tag with those tags. */
  function Rest(tags: seq<Tag>): Option<string>
  {
    if tags == [] then Some("") else Join(Some(""), ";", Assemble(tags))
  }

  function ArgsAndRest(args: seq<Option<string>>, tags: seq<Tag>): Option<string>
    requires args != []
  {
    Join(AssembleArgs(args), "", Rest(tags))
  }

  /** The first of several pieces, followed by the rest. */
  lemma PieceAndRest(text: string, rest: Option<string>, w: string)
    ensures Join(Escape(text), "", rest) == Some(w) <==> rest.Some? && Prints(text, rest.value, w)
  {
    if Escape(text).Some? && rest.Some? {
      assert Escape(text).value + "" + rest.value == Escape(text).value + rest.value;
    }
  }

  lemma FiveParts(e: string, sep: string, x: string, z: string)
    ensures e + sep + x + "" + z == e + "" + ("" + sep + (x + "" + z))
  {
  }

  lemma ArgsAndRestUnfolds(t: string, args: seq<Option<string>>, tags: seq<Tag>)
    ensures var all := [Some(t)] + args;
            && ArgsAndRest(all, tags) == Join(Escape(t), "", if args == [] then Rest(tags) else Join(Some(""), ",", ArgsAndRest(args, tags)))
  {
    var all := [Some(t)] + args;
    assert all[1..] == args;
    if args != [] && Escape(t).Some? && AssembleArgs(args).Some? && Rest(tags).Some? {
      FiveParts(Escape(t).value, ",", AssembleArgs(args).value, Rest(tags).value);
    }
  }

  lemma TableAndRest(t: Tag, tags: seq<Tag>)
    ensures var printed := Assemble([t] + tags);
            printed == Join(Escape(t.name), "", if t.args == [] then Rest(tags) else Join(Some(""), "=", ArgsAndRest(t.args, tags)))
  {
    var all := [t] + tags;
    assert all[1..] == tags;
    TagAndRest(t, tags);
    if AssembleTag(t).Some? && Assemble(tags).Some? {
      var x, y := AssembleTag(t).value, Assemble(tags).value;
      assert x + ";" + y == x + "" + ("" + ";" + y);
      assert x + "" + "" == x;
    }
  }

  lemma TagAndRest(t: Tag, tags: seq<Tag>)
    ensures Join(AssembleTag(t), "", Rest(tags))
            == Join(Escape(t.name), "", if t.args == [] then Rest(tags) else Join(Some(""), "=", ArgsAndRest(t.args, tags)))
  {
    if t.args != [] && Escape(t.name).Some? && AssembleArgs(t.args).Some? && Rest(tags).Some? {
      FiveParts(Escape(t.name).value, "=", AssembleArgs(t.args).value, Rest(tags).value);
    }
  }

  lemma SeparatorThen(sep: string, more: Option<string>, w: string)
    requires |sep| == 1
    ensures Join(Some(""), sep, more) == Some(w) <==> w != "" && w[0] == sep[0] && more == Some(w[1..])
    ensures more.Some? ==> Join(Some(""), sep, more) == Some(sep + more.value)
  {
    if more.Some? {
      assert "" + sep + more.value == sep + more.value;
      assert (sep + more.value)[1..] == more.value;
    }
    assert w != "" && w[0] == sep[0] ==> w == sep + w[1..];
  }

  /** An argument with what is behind it prints back if it is canonical and what is behind prints
      back as what follows the argument. */
  lemma ArgAndRest(w: string, junk: string, rest: Option<string>)
    requires rest.Some? ==> Stops(rest.value)
    ensures Join(Escape(ArgText(w, junk)), "", rest) == Some(w) <==>
              ScanArg(w).Scanned? && CanonicalArg(w) && rest == Some(ScanArg(w).rest)
  {
    PieceAndRest(ArgText(w, junk), rest, w);
    if rest.Some? {
      ArgPrintsBack(w, junk, rest.value);
    }
  }

  lemma NameAndRest(w: string, rest: Option<string>)
    requires rest.Some? ==> StopsName(rest.value)
    ensures Join(Escape(NameText(w)), "", rest) == Some(w) <==> CanonicalName(w) && rest == Some(ScanName(w).1)
  {
    PieceAndRest(NameText(w), rest, w);
    if rest.Some? {
      NamePrintsBack(w, rest.value);
    }
  }

  lemma RestStops(tags: seq<Tag>)
    ensures Rest(tags).Some? ==> Stops(Rest(tags).value) && StopsName(Rest(tags).value)
    ensures Rest(tags) == Some("") <==> tags == []
  {
    SeparatorThen(";", Assemble(tags), "");
  }

  lemma {:induction false} ArgsPrintBack(w: string, count: nat, junk: string)
    ensures var (args, behind) := ArgsLeft(w, count, junk);
            ArgsAndRest(args, MoreLeft(behind, junk)) == Some(w) <==> CanonicalArgs(w, count)
    decreases |w|, 0
  {
    var t := ArgText(w, junk);
    var r := ScanArg(w);
    if r.Scanned? && r.rest != "" && r.rest[0] == ',' && count < MAXARGS {
      var (args, behind) := ArgsLeft(r.rest[1..], count + 1, junk);
      ArgsPrintBack(r.rest[1..], count + 1, junk);
      MoreArgsPrintBack(w, junk, args, MoreLeft(behind, junk));
    } else {
      var (args, behind) := ArgsLeft(w, count, junk);
      var more := MoreLeft(behind, junk);
      assert args == [Some(t)];
      if behind.Some? {
        TagsPrintBack(behind.value, junk);
      }
      LastArgPrintsBack(w, junk, more);
    }
  }

  lemma MoreArgsPrintBack(w: string, junk: string, args: seq<Option<string>>, more: seq<Tag>)
    requires args != []
    ensures ArgsAndRest([Some(ArgText(w, junk))] + args, more) == Some(w) <==>
              var r := ScanArg(w);
              && r.Scanned? && CanonicalArg(w) && r.rest != "" && r.rest[0] == ','
              && ArgsAndRest(args, more) == Some(r.rest[1..])
  {
    ArgsAndRestUnfolds(ArgText(w, junk), args, more);
    var rest := Join(Some(""), ",", ArgsAndRest(args, more));
    SeparatorThen(",", ArgsAndRest(args, more), if ScanArg(w).Scanned? then ScanArg(w).rest else "");
    ArgAndRest(w, junk, rest);
  }

  lemma LastArgPrintsBack(w: string, junk: string, more: seq<Tag>)
    ensures ArgsAndRest([Some(ArgText(w, junk))], more) == Some(w) <==>
              var r := ScanArg(w);
              && r.Scanned? && CanonicalArg(w)
              && if more == [] then r.rest == "" else r.rest != "" && r.rest[0] == ';' && Assemble(more) == Some(r.rest[1..])
  {
    ArgsAndRestUnfolds(ArgText(w, junk), [], more);
    assert [Some(ArgText(w, junk))] + [] == [Some(ArgText(w, junk))];
    RestStops(more);
    ArgAndRest(w, junk, Rest(more));
    SeparatorThen(";", Assemble(more), if ScanArg(w).Scanned? then ScanArg(w).rest else "");
  }

  /** The tags there are when reading ends, for whatever reason, print as the text that was read if and
      only if the text is canonical. */
  lemma {:induction false} TagsPrintBack(w: string, junk: string)
    ensures Assemble(TagsLeft(w, junk)) == Some(w) <==> CanonicalTags(w)
    decreases |w|, 1
  {
    var (name, rest) := ScanName(w);
    if rest != "" && rest[0] == '=' {
      var (args, behind) := ArgsLeft(rest[1..], 1, junk);
      ArgsPrintBack(rest[1..], 1, junk);
      TagWithArgsPrintsBack(w, args, MoreLeft(behind, junk));
    } else {
      var more := if rest == "" then [] else TagsLeft(rest[1..], junk);
      if rest != "" {
        TagsPrintBack(rest[1..], junk);
      }
      assert [Tag(name, [])] + [] == [Tag(name, [])];
      BareTagPrintsBack(w, more);
    }
  }

  lemma TagWithArgsPrintsBack(w: string, args: seq<Option<string>>, more: seq<Tag>)
    requires args != []
    ensures Assemble([Tag(NameText(w), args)] + more) == Some(w) <==>
              var rest := ScanName(w).1;
              CanonicalName(w) && rest != "" && rest[0] == '=' && ArgsAndRest(args, more) == Some(rest[1..])
  {
    TableAndRest(Tag(NameText(w), args), more);
    SeparatorThen("=", ArgsAndRest(args, more), ScanName(w).1);
    NameAndRest(w, Join(Some(""), "=", ArgsAndRest(args, more)));
  }

  lemma BareTagPrintsBack(w: string, more: seq<Tag>)
    ensures Assemble([Tag(NameText(w), [])] + more) == Some(w) <==>
              var rest := ScanName(w).1;
              && CanonicalName(w)
              && if more == [] then rest == "" else rest != "" && rest[0] == ';' && Assemble(more) == Some(rest[1..])
  {
    TableAndRest(Tag(NameText(w), []), more);
    RestStops(more);
    NameAndRest(w, Rest(more));
    SeparatorThen(";", Assemble(more), ScanName(w).1);
  }

  /** For every text: what parsing it leaves in the table, whether it was accepted or refused and
      whatever an unfinished expression runs into, prints as that text if and only if the text is
      canonical. */
  lemma LeftPrintsBackIffCanonical(s: string, junk: string)
    ensures Assemble(Leftover(Parse(s), junk)) == Some(s) <==> Canonical(s)
  {
    if s != "" {
      TagsLeftOver([], s, junk);
      assert [] + TagsLeft(s, junk) == TagsLeft(s, junk);
      CheckedLeaves(s, junk);
      TagsPrintBack(s, junk);
    }
  }

  lemma CheckedLeaves(s: string, junk: string)
    requires s != ""
    ensures Leftover(Parse(s), junk) == Leftover(FromTag([], s), junk)
  {
    match FromTag([], s)
    case Refused(_, _) =>
    case Read(tags) => NamesAreNoBraces(tags);
  }

  lemma {:induction false} NamesAreNoBraces(tags: seq<Tag>)
    ensures CheckNames(tags) != Some(UnmatchedBrace)
  {
    if tags != [] {
      NamesAreNoBraces(tags[1..]);
    }
  }

  // ---------------------------------------------------------------- at most 16 arguments

  /** No tag has more arguments than there is room for. */
  predicate Fits(tags: seq<Tag>)
  {
    forall i :: 0 <= i < |tags| ==> |tags[i].args| <= MAXARGS
  }

  lemma {:induction false} ArgsLeftFit(w: string, count: nat, junk: string)
    requires count <= MAXARGS
    ensures |ArgsLeft(w, count, junk).0| <= MAXARGS + 1 - count
    decreases |w|
  {
    var r := ScanArg(w);
    if r.Scanned? && r.rest != "" && r.rest[0] == ',' && count < MAXARGS {
      ArgsLeftFit(r.rest[1..], count + 1, junk);
    }
  }

  lemma {:induction false} TagsLeftFit(w: string, junk: string)
    ensures Fits(TagsLeft(w, junk))
    decreases |w|
  {
    var rest := ScanName(w).1;
    if rest != "" {
      if rest[0] == ';' {
        TagsLeftFit(rest[1..], junk);
      } else {
        ArgsLeftFit(rest[1..], 1, junk);
        var behind := ArgsLeft(rest[1..], 1, junk).1;
        if behind.Some? {
          TagsLeftFit(behind.value, junk);
        }
      }
    }
  }

  /** So it is after any parse, accepted or refused. */
  lemma LeftoverFits(s: string, junk: string)
    ensures Fits(Leftover(Parse(s), junk))
  {
    if s != "" {
      TagsLeftOver([], s, junk);
      CheckedLeaves(s, junk);
      TagsLeftFit(s, junk);
      assert [] + TagsLeft(s, junk) == TagsLeft(s, junk);
    }
  }
}
