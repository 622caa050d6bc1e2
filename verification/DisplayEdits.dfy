/**
 The edits of a tag table: setting an argument by index or by tag name, inserting and removing tags,
 and overriding one table's arguments with those of another.
 */
module DisplayEdits {
  import opened Options
  import opened DisplayText
  import opened DisplayTables
  import opened DisplayLeftovers

  // ---------------------------------------------------------------- the table, by index

  function TagIndex(tags: seq<Tag>, name: string): (i: int)
    ensures -1 <= i < |tags| && (i >= 0 ==> tags[i].name == name)
  {
    if tags == [] then -1
    else if tags[0].name == name then 0
    else
      var i := TagIndex(tags[1..], name);
      if i == -1 then -1 else i + 1
  }

  /** It is the first of that name, or there is none. */
  lemma {:induction false} TagIndexIsFirst(tags: seq<Tag>, name: string)
    ensures var i := TagIndex(tags, name);
            forall k :: 0 <= k < (if i == -1 then |tags| else i) ==> tags[k].name != name
  {
    if tags != [] {
      TagIndexIsFirst(tags[1..], name);
      assert forall k :: 0 < k < |tags| ==> tags[k] == tags[1..][k - 1];
    }
  }

  /** getTagArg(): indices out of range read as empty. */
  function Arg(tags: seq<Tag>, i: int, j: int): string
  {
    if 0 <= i < |tags| && 0 <= j < |tags[i].args| then TextOf(tags[i].args[j]) else ""
  }

  function Extended(args: seq<Option<string>>, j: nat): (r: seq<Option<string>>)
    ensures |r| == if j < |args| then |args| else j + 1
    ensures forall k :: 0 <= k < |r| ==> r[k] == if k < |args| then args[k] else None
  {
    args + seq(if j < |args| then 0 else j + 1 - |args|, _ => None)
  }

  function Trimmed(args: seq<Option<string>>): (r: seq<Option<string>>)
    ensures r <= args && (r == [] || r[|r| - 1].Some?)
    ensures forall k :: |r| <= k < |args| ==> args[k] == None
  {
    if args != [] && args[|args| - 1] == None then Trimmed(args[..|args| - 1]) else args
  }

  function Slot(v: string): Option<string>
  {
    if v == "" then None else Some(v)
  }

  function Without(tags: seq<Tag>, i: nat): (r: seq<Tag>)
    requires i < |tags|
    ensures |r| == |tags| - 1
  {
    tags[..i] + tags[i + 1..]
  }

  /** The arguments of a tag after doSetTagArg(). */
  function NewArgs(args: seq<Option<string>>, j: nat, v: string): seq<Option<string>>
  {
    var longer := Extended(args, j);
    if TextOf(longer[j]) == v then longer else Trimmed(longer[j := Slot(v)])
  }

  predicate Removes(tags: seq<Tag>, i: nat, j: nat, v: string)
    requires i < |tags|
  {
    TextOf(Extended(tags[i].args, j)[j]) != v && NewArgs(tags[i].args, j, v) == []
  }

  /** doSetTagArg(tagindex, index, value). */
  function SetArg(tags: seq<Tag>, i: nat, j: nat, v: string): seq<Tag>
    requires i < |tags|
  {
    if Removes(tags, i, j, v) then Without(tags, i)
    else tags[i := tags[i].(args := NewArgs(tags[i].args, j, v))]
  }

  function ArgAt(args: seq<Option<string>>, j: int): string
  {
    if 0 <= j < |args| then TextOf(args[j]) else ""
  }

  lemma NewArgsSets(args: seq<Option<string>>, j: nat, v: string)
    ensures forall m: int :: ArgAt(NewArgs(args, j, v), m) == if m == j then v else ArgAt(args, m)
    ensures TextOf(Extended(args, j)[j]) == ArgAt(args, j)
  {
    var longer := Extended(args, j);
    if TextOf(longer[j]) != v {
      var changed := longer[j := Slot(v)];
      var r := Trimmed(changed);
      forall m: int
        ensures ArgAt(r, m) == if m == j then v else ArgAt(args, m)
      {
        if 0 <= m < |changed| {
          assert changed[m] == if m == j then Slot(v) else longer[m];
          assert if m < |r| then r[m] == changed[m] else changed[m] == None;
        }
      }
    }
  }

  lemma TagVanishes(args: seq<Option<string>>, j: nat, v: string)
    ensures TextOf(Extended(args, j)[j]) != v && NewArgs(args, j, v) == [] <==>
              v == "" && ArgAt(args, j) != "" && forall m :: 0 <= m < |args| && m != j ==> args[m] == None
  {
    var longer := Extended(args, j);
    var changed := longer[j := Slot(v)];
    if TextOf(longer[j]) != v {
      var r := Trimmed(changed);
      if r == [] {
        assert changed[j] == None;
        assert forall m :: 0 <= m < |args| && m != j ==> changed[m] == args[m];
      } else {
        assert changed[|r| - 1] == r[|r| - 1];
      }
    }
  }

  /** Setting an argument changes that argument and no other, and removes the tag exactly when
      it clears the last one that is present. */
  lemma SetArgSets(tags: seq<Tag>, i: nat, j: nat, v: string)
    requires i < |tags|
    ensures !Removes(tags, i, j, v) ==>
              var r := SetArg(tags, i, j, v);
              && |r| == |tags| && (forall k :: 0 <= k < |r| ==> r[k].name == tags[k].name)
              && forall k, m: int :: Arg(r, k, m) == if k == i && m == j then v else Arg(tags, k, m)
    ensures Removes(tags, i, j, v) <==>
              v == "" && Arg(tags, i, j) != "" && forall m :: 0 <= m < |tags[i].args| && m != j ==> tags[i].args[m] == None
  {
    TagVanishes(tags[i].args, j, v);
    if !Removes(tags, i, j, v) {
      NewArgsSets(tags[i].args, j, v);
      var r := SetArg(tags, i, j, v);
      forall k, m: int
        ensures Arg(r, k, m) == if k == i && m == j then v else Arg(tags, k, m)
      {
        assert 0 <= k < |tags| ==> Arg(r, k, m) == ArgAt(r[k].args, m) && Arg(tags, k, m) == ArgAt(tags[k].args, m);
      }
    }
  }

  /** What is removed is that tag and no other. */
  lemma SetArgRemoves(tags: seq<Tag>, i: nat, j: nat, v: string)
    requires i < |tags| && Removes(tags, i, j, v)
    ensures var r := SetArg(tags, i, j, v); |r| == |tags| - 1 && r[..i] == tags[..i] && r[i..] == tags[i + 1..]
  {
  }

  /** The arguments a tag is left with. Setting one to what it reads already only makes room for it;
      otherwise those that are null are dropped from the end. */
  lemma NewArgsAre(args: seq<Option<string>>, j: nat, v: string)
    ensures var r := NewArgs(args, j, v);
            var room := if j < |args| then |args| else j + 1;
            if ArgAt(args, j) == v then
              |r| == room && forall k :: 0 <= k < room ==> r[k] == if k < |args| then args[k] else None
            else
              && |r| <= room && (r == [] || r[|r| - 1] != None)
              && forall k :: 0 <= k < room ==>
                   var x := if k == j then (if v == "" then None else Some(v)) else if k < |args| then args[k] else None;
                   if k < |r| then r[k] == x else x == None
  {
    var longer := Extended(args, j);
    var full := longer[j := Slot(v)];
    var r := NewArgs(args, j, v);
    if ArgAt(args, j) != v {
      assert r <= full;
      forall k | 0 <= k < |full|
        ensures var x := if k == j then (if v == "" then None else Some(v)) else if k < |args| then args[k] else None;
                if k < |r| then r[k] == x else x == None
      {
        assert full[k] == if k == j then Slot(v) else longer[k];
        assert k >= |r| ==> full[k] == None;
      }
    }
  }

  /** Setting an argument leaves no illegal name and no seventeenth argument behind. */
  lemma SetArgKeepsTableOk(tags: seq<Tag>, i: nat, j: nat, v: string)
    requires TableOk(tags) && i < |tags| && j < MAXARGS
    ensures TableOk(SetArg(tags, i, j, v))
  {
    assert TagOk(tags[i]);
    assert |NewArgs(tags[i].args, j, v)| <= MAXARGS;
  }

  /** It does give arguments to the nameless tags that redundant semicolons leave, after which the
      table no longer comes back from print and read. */
  lemma NamelessTagTakesArguments(tags: seq<Tag>, i: nat, x: string)
    requires i < |tags| && tags[i] == Tag("", []) && x != ""
    ensures SetArg(tags, i, 0, x)[i] == Tag("", [Some(x)]) && !RoundTrips(SetArg(tags, i, 0, x))
  {
    FirstArgSet(x);
    var r := SetArg(tags, i, 0, x);
    assert !Named(r[i]);
    RoundTripIffSurvives(r);
  }

  lemma FirstArgSet(x: string)
    requires x != ""
    ensures NewArgs([], 0, x) == [Some(x)]
  {
    var longer := Extended([], 0);
    assert longer == [None] && longer[0 := Slot(x)] == [Some(x)];
  }

  // ---------------------------------------------------------------- the table, by name

  /** A tag put at index k, which moves the tags behind it. */
  function Inserted(tags: seq<Tag>, k: nat, t: Tag): (r: seq<Tag>)
    requires k <= |tags|
    ensures |r| == |tags| + 1 && r[k] == t
  {
    tags[..k] + [t] + tags[k..]
  }

  /** doInsertTag(): the new table and the index of the tag. */
  function InsertTag(tags: seq<Tag>, name: string, at: int): (r: Result<(seq<Tag>, nat)>)
    ensures r.Ok? ==> r.value.1 < |r.value.0| && r.value.0[r.value.1].name == name
  {
    if name == "" then Err(EmptyTagName)
    else if !LegalName(name) then Err(IllegalCharacter)
    else if TagIndex(tags, name) != -1 then Ok((tags, TagIndex(tags, name)))
    else
      var k := if at < 0 then 0 else if at > |tags| then |tags| else at;
      Ok((Inserted(tags, k, Tag(name, [])), k))
  }

  /** The table that has the tag, and its index; a tag that is there is taken whatever its name. */
  function FindOrInsert(tags: seq<Tag>, name: string): (r: Result<(seq<Tag>, nat)>)
    ensures r.Ok? ==> r.value.1 < |r.value.0| && r.value.0[r.value.1].name == name
    ensures r.Err? <==> (name == "" || !LegalName(name)) && TagIndex(tags, name) == -1
  {
    if TagIndex(tags, name) != -1 then Ok((tags, TagIndex(tags, name))) else InsertTag(tags, name, 0)
  }

  function ArgByName(tags: seq<Tag>, name: string, j: int): string
  {
    Arg(tags, TagIndex(tags, name), j)
  }

  /** doSetTagArg(tagname, index, value), which throws when the tag can be neither found nor inserted. */
  function SetByName(tags: seq<Tag>, name: string, j: nat, v: string): Result<seq<Tag>>
  {
    match FindOrInsert(tags, name)
    case Err(e) => Err(e)
    case Ok((tags', i)) => Ok(if j < MAXARGS then SetArg(tags', i, j, v) else tags')
  }

  // What is found by name, in a table with one tag in front.

  function FirstNamed(tags: seq<Tag>, m: string): Option<Tag>
  {
    if tags == [] then None else if tags[0].name == m then Some(tags[0]) else FirstNamed(tags[1..], m)
  }

  lemma {:induction false} FirstNamedIs(tags: seq<Tag>, m: string)
    ensures FirstNamed(tags, m) == if TagIndex(tags, m) == -1 then None else Some(tags[TagIndex(tags, m)])
  {
    if tags != [] {
      FirstNamedIs(tags[1..], m);
    }
  }

  lemma SameArg(r: seq<Tag>, tags: seq<Tag>, m: string, k: int)
    requires FirstNamed(r, m) == FirstNamed(tags, m)
    ensures ArgByName(r, m, k) == ArgByName(tags, m, k)
  {
    FirstNamedIs(r, m);
    FirstNamedIs(tags, m);
  }

  lemma InFront(t: Tag, rest: seq<Tag>, m: string)
    ensures FirstNamed([t] + rest, m) == if t.name == m then Some(t) else FirstNamed(rest, m)
    ensures TagIndex([t] + rest, m) == if t.name == m then 0 else if TagIndex(rest, m) == -1 then -1 else TagIndex(rest, m) + 1
  {
    assert ([t] + rest)[1..] == rest;
  }

  /** A new tag lands at the index asked for, or at the nearest end, and the others keep their order; a
      tag that is there already stays where it is. */
  lemma InsertTagPlaces(tags: seq<Tag>, name: string, at: int)
    requires name != "" && LegalName(name)
    ensures var (r, i) := InsertTag(tags, name, at).value;
            if exists t :: t in tags && t.name == name then r == tags && tags[i].name == name
            else
              && i == (if at < 0 then 0 else if at > |tags| then |tags| else at)
              && |r| == |tags| + 1 && r[i] == Tag(name, []) && r[..i] == tags[..i] && r[i + 1..] == tags[i..]
  {
    TagIndexIsFirst(tags, name);
    if TagIndex(tags, name) >= 0 {
      assert tags[TagIndex(tags, name)] in tags;
    }
  }

  /** Inserting a tag changes no argument of any tag, by name. */
  lemma InsertTagInserts(tags: seq<Tag>, name: string, at: int, m: string, k: int)
    requires name != "" && LegalName(name)
    ensures var (r, i) := InsertTag(tags, name, at).value;
            && r[i].name == name && TagIndex(r, name) == i && (TableOk(tags) ==> TableOk(r))
            && ArgByName(r, m, k) == ArgByName(tags, m, k)
  {
    if TagIndex(tags, name) == -1 {
      var (r, i) := InsertTag(tags, name, at).value;
      InsertedFound(tags, i, Tag(name, []), m);
      InsertedFound(tags, i, Tag(name, []), name);
      FirstNamedIs(r, m);
      FirstNamedIs(tags, m);
    }
  }

  lemma {:induction false} InsertedFound(tags: seq<Tag>, i: nat, t: Tag, m: string)
    requires i <= |tags| && TagIndex(tags, t.name) == -1
    ensures var r := Inserted(tags, i, t);
            FirstNamed(r, m) == (if m == t.name then Some(t) else FirstNamed(tags, m)) && TagIndex(r, t.name) == i
  {
    if i == 0 {
      assert Inserted(tags, 0, t) == [t] + tags;
      InFront(t, tags, m);
      InFront(t, tags, t.name);
    } else {
      var first, rest := tags[0], tags[1..];
      assert tags == [first] + rest;
      InFront(first, rest, m);
      InFront(first, rest, t.name);
      InsertedFound(rest, i - 1, t, m);
      InsertedInFront(first, rest, i - 1, t);
      InFront(first, Inserted(rest, i - 1, t), m);
      InFront(first, Inserted(rest, i - 1, t), t.name);
    }
  }

  lemma InsertedInFront(t: Tag, rest: seq<Tag>, i: nat, new': Tag)
    requires i <= |rest|
    ensures Inserted([t] + rest, i + 1, new') == [t] + Inserted(rest, i, new')
  {
  }

  lemma WithoutInFront(t: Tag, rest: seq<Tag>, i: nat)
    requires i < |rest|
    ensures Without([t] + rest, i + 1) == [t] + Without(rest, i)
  {
  }

  /** Removing the first tag of a name brings the next one of that name to light. */
  lemma RemovedArg(tags: seq<Tag>, i: nat, m: string, k: int)
    requires i < |tags| && TagIndex(tags, tags[i].name) == i
    ensures ArgByName(Without(tags, i), m, k) == ArgByName(if m == tags[i].name then tags[i + 1..] else tags, m, k)
  {
    if m == tags[i].name {
      RemovedFirst(tags, i, m);
      SameArg(Without(tags, i), tags[i + 1..], m, k);
    } else {
      RemovedOther(tags, i, m);
      SameArg(Without(tags, i), tags, m, k);
    }
  }

  lemma {:induction false} RemovedFirst(tags: seq<Tag>, i: nat, m: string)
    requires i < |tags| && TagIndex(tags, m) == i
    ensures FirstNamed(Without(tags, i), m) == FirstNamed(tags[i + 1..], m)
  {
    if i == 0 {
      assert Without(tags, 0) == tags[1..];
    } else {
      var first, rest := tags[0], tags[1..];
      assert tags == [first] + rest && tags[i + 1..] == rest[i..];
      InFront(first, rest, m);
      RemovedFirst(rest, i - 1, m);
      WithoutInFront(first, rest, i - 1);
      InFront(first, Without(rest, i - 1), m);
    }
  }

  lemma {:induction false} RemovedOther(tags: seq<Tag>, i: nat, m: string)
    requires i < |tags| && m != tags[i].name
    ensures FirstNamed(Without(tags, i), m) == FirstNamed(tags, m)
  {
    var first, rest := tags[0], tags[1..];
    assert tags == [first] + rest;
    InFront(first, rest, m);
    if i == 0 {
      assert Without(tags, 0) == rest;
    } else {
      RemovedOther(rest, i - 1, m);
      WithoutInFront(first, rest, i - 1);
      InFront(first, Without(rest, i - 1), m);
    }
  }

  /** The write removes the first tag of the name: it clears the last argument that tag has. */
  predicate ClearsLast(tags: seq<Tag>, name: string, j: nat, v: string)
  {
    var i := TagIndex(tags, name);
    && i >= 0 && v == "" && Arg(tags, i, j) != ""
    && forall m :: 0 <= m < |tags[i].args| && m != j ==> tags[i].args[m] == None
  }

  predicate HasText(args: seq<Option<string>>)
  {
    exists k :: 0 <= k < |args| && TextOf(args[k]) != ""
  }

  /** A later tag of the same name, with some argument, comes to light in place of the removed one. */
  predicate Uncovers(tags: seq<Tag>, name: string, j: nat, v: string)
  {
    var i := TagIndex(tags, name);
    && ClearsLast(tags, name, j, v)
    && var next := TagIndex(tags[i + 1..], name);
       next >= 0 && HasText(tags[i + 1..][next].args)
  }

  /** What every argument of every tag reads after a write by name, whatever tags there are. */
  lemma SetByNameDoes(tags: seq<Tag>, name: string, j: nat, v: string, m: string, k: int)
    requires SetByName(tags, name, j, v).Ok? && j < MAXARGS
    ensures ArgByName(SetByName(tags, name, j, v).value, m, k)
            == if m == name && ClearsLast(tags, name, j, v) then ArgByName(tags[TagIndex(tags, name) + 1..], name, k)
               else if m == name && k == j then v
               else ArgByName(tags, m, k)
  {
    var found := FindOrInsert(tags, name).value;
    ClearsLastRemoves(tags, name, j, v);
    if TagIndex(tags, name) == -1 {
      InsertTagInserts(tags, name, 0, m, k);
      SetFoundDoes(found.0, found.1, name, j, v, m, k);
    } else {
      SetFoundDoes(tags, found.1, name, j, v, m, k);
    }
  }

  lemma SetFoundDoes(tags: seq<Tag>, i: nat, name: string, j: nat, v: string, m: string, k: int)
    requires i < |tags| && TagIndex(tags, name) == i
    ensures ArgByName(SetArg(tags, i, j, v), m, k)
            == if m == name && Removes(tags, i, j, v) then ArgByName(tags[i + 1..], name, k)
               else if m == name && k == j then v
               else ArgByName(tags, m, k)
  {
    SetArgSets(tags, i, j, v);
    if Removes(tags, i, j, v) {
      RemovedArg(tags, i, m, k);
    } else {
      SameNames(tags, SetArg(tags, i, j, v), m);
    }
  }

  lemma ClearsLastRemoves(tags: seq<Tag>, name: string, j: nat, v: string)
    requires FindOrInsert(tags, name).Ok?
    ensures var (tags', i) := FindOrInsert(tags, name).value;
            Removes(tags', i, j, v) <==> ClearsLast(tags, name, j, v)
  {
    var (tags', i) := FindOrInsert(tags, name).value;
    SetArgSets(tags', i, j, v);
  }

  /** The write is an assignment: that argument reads as the value, every other argument of every tag
      as before. */
  ghost predicate Assigns(tags: seq<Tag>, r: seq<Tag>, name: string, j: nat, v: string)
  {
    forall m: string, k: int :: ArgByName(r, m, k) == if m == name && k == j then v else ArgByName(tags, m, k)
  }

  /** setTagArg() by name is an assignment if and only if the write does not bring a later tag of the
      same name to light; in particular whenever names are unique. */
  lemma SetByNameSets(tags: seq<Tag>, name: string, j: nat, v: string)
    requires SetByName(tags, name, j, v).Ok? && j < MAXARGS
    ensures Assigns(tags, SetByName(tags, name, j, v).value, name, j, v) <==> !Uncovers(tags, name, j, v)
  {
    var r := SetByName(tags, name, j, v).value;
    if Uncovers(tags, name, j, v) {
      var k := UncoveredArg(tags, name, j, v);
      SetByNameDoes(tags, name, j, v, name, k);
      assert ArgByName(r, name, k) != if name == name && k == j then v else ArgByName(tags, name, k);
    } else {
      forall m: string, k: int
        ensures ArgByName(r, m, k) == if m == name && k == j then v else ArgByName(tags, m, k)
      {
        SetByNameDoes(tags, name, j, v, m, k);
        if m == name && ClearsLast(tags, name, j, v) {
          NothingUncovered(tags, name, j, v, k);
        }
      }
    }
  }

  lemma UncoveredArg(tags: seq<Tag>, name: string, j: nat, v: string) returns (k: int)
    requires Uncovers(tags, name, j, v)
    ensures ArgByName(tags[TagIndex(tags, name) + 1..], name, k) != if k == j then v else ArgByName(tags, name, k)
  {
    var i := TagIndex(tags, name);
    var next := TagIndex(tags[i + 1..], name);
    k :| 0 <= k < |tags[i + 1..][next].args| && TextOf(tags[i + 1..][next].args[k]) != "";
  }

  lemma NothingUncovered(tags: seq<Tag>, name: string, j: nat, v: string, k: int)
    requires ClearsLast(tags, name, j, v) && !Uncovers(tags, name, j, v)
    ensures ArgByName(tags[TagIndex(tags, name) + 1..], name, k) == ""
    ensures k != j ==> ArgByName(tags, name, k) == ""
  {
    var i := TagIndex(tags, name);
    var later := tags[i + 1..];
    if TagIndex(later, name) >= 0 {
      NoTextReadsEmpty(later[TagIndex(later, name)].args, k);
    }
    OthersReadEmpty(tags[i].args, j, k);
  }

  lemma NoTextReadsEmpty(args: seq<Option<string>>, k: int)
    requires !HasText(args)
    ensures ArgAt(args, k) == ""
  {
  }

  lemma OthersReadEmpty(args: seq<Option<string>>, j: nat, k: int)
    requires forall m :: 0 <= m < |args| && m != j ==> args[m] == None
    ensures k != j ==> ArgAt(args, k) == ""
  {
  }

  predicate UniqueNames(tags: seq<Tag>)
  {
    forall i, k :: 0 <= i < k < |tags| ==> tags[i].name != tags[k].name
  }

  lemma UniqueNeverUncovers(tags: seq<Tag>, name: string, j: nat, v: string)
    requires UniqueNames(tags)
    ensures !Uncovers(tags, name, j, v)
  {
  }

  /** A text can have a tag name twice: when argument 0 of the first is cleared, that of the second
      reads in its place, where nothing should. */
  lemma SecondTagComesToLight(name: string, x: string, y: string)
    requires name != "" && LegalName(name) && x != "" && y != "" && Survives(x) && Survives(y)
    ensures var tags := [Tag(name, [Some(x)]), Tag(name, [Some(y)])];
            && Assemble(tags).Some? && Parse(Assemble(tags).value) == Read(tags)
            && SetByName(tags, name, 0, "") == Ok([Tag(name, [Some(y)])])
            && ArgByName([Tag(name, [Some(y)])], name, 0) == y
  {
    var tags := [Tag(name, [Some(x)]), Tag(name, [Some(y)])];
    assert AllSurvive([Some(x)]) && AllSurvive([Some(y)]);
    RoundTripIffSurvives(tags);
    assert PlainTag(tags[0]) == tags[0] && PlainTag(tags[1]) == tags[1];
    assert Plain(tags) == tags;
    TagVanishes(tags[0].args, 0, "");
    assert Without(tags, 0) == [tags[1]];
  }

  lemma {:induction false} SameNames(tags: seq<Tag>, r: seq<Tag>, m: string)
    requires |r| == |tags| && forall k :: 0 <= k < |r| ==> r[k].name == tags[k].name
    ensures TagIndex(r, m) == TagIndex(tags, m)
  {
    if tags != [] {
      SameNames(tags[1..], r[1..], m);
    }
  }

  // ---------------------------------------------------------------- updateWith()

  /** One argument of the updating string, in the order in which they are applied. */
  datatype Write = Write(name: string, index: nat, arg: string)

  /** The writes of one tag, from argument j on. */
  function TagWrites(t: Tag, j: nat): seq<Write>
    requires j <= |t.args|
  {
    seq(|t.args| - j, k requires 0 <= k < |t.args| - j => Write(t.name, j + k, TextOf(t.args[j + k])))
  }

  function Writes(ds: seq<Tag>): seq<Write>
  {
    if ds == [] then []
    else TagWrites(ds[0], 0) + Writes(ds[1..])
  }

  /** "-" is the value that clears. */
  function ValueOf(w: Write): string
  {
    if w.arg == "-" then "" else w.arg
  }

  /** An empty argument leaves alone, anything else overwrites. */
  function ApplyWrite(tags: seq<Tag>, w: Write): Result<seq<Tag>>
  {
    if w.arg == "" then Ok(tags) else SetByName(tags, w.name, w.index, ValueOf(w))
  }

  /** All writes, up to the first that throws; the table as it is then, and the error. */
  function ApplyWrites(tags: seq<Tag>, ws: seq<Write>): (seq<Tag>, Option<Error>)
    decreases |ws|
  {
    if ws == [] then (tags, None)
    else
      match ApplyWrite(tags, ws[0])
      case Err(e) => (tags, Some(e))
      case Ok(tags') => ApplyWrites(tags', ws[1..])
  }

  /** What argument index of tag name reads after one write, and after all, if each is an assignment:
      the last one that is not empty wins. */
  function AfterWrite(w: Write, name: string, index: int, before: string): string
  {
    if w.name == name && w.index == index && w.arg != "" then ValueOf(w) else before
  }

  function AfterWrites(ws: seq<Write>, name: string, index: int, before: string): string
  {
    if ws == [] then before else AfterWrites(ws[1..], name, index, AfterWrite(ws[0], name, index, before))
  }

  predicate WriteUncovers(tags: seq<Tag>, w: Write)
  {
    w.arg != "" && Uncovers(tags, w.name, w.index, ValueOf(w))
  }

  /** On the way, no write brings a later tag of the same name to light. */
  predicate NeverUncovers(tags: seq<Tag>, ws: seq<Write>)
    decreases |ws|
  {
    ws == [] ||
      (&& !WriteUncovers(tags, ws[0])
       && (ApplyWrite(tags, ws[0]).Ok? ==> NeverUncovers(ApplyWrite(tags, ws[0]).value, ws[1..])))
  }

  /** The writes override argument by argument. */
  ghost predicate Overrides(tags: seq<Tag>, ws: seq<Write>)
  {
    forall m: string, k: int ::
      ArgByName(ApplyWrites(tags, ws).0, m, k) == AfterWrites(ws, m, k, ArgByName(tags, m, k))
  }

  /** They do so at every stage. */
  ghost predicate AlwaysOverrides(tags: seq<Tag>, ws: seq<Write>)
  {
    forall n :: 0 <= n <= |ws| ==> Overrides(tags, ws[..n])
  }

  predicate WritesFit(ws: seq<Write>)
  {
    forall i :: 0 <= i < |ws| ==> ws[i].index < MAXARGS
  }

  lemma WriteOverrides(tags: seq<Tag>, w: Write)
    requires ApplyWrite(tags, w).Ok? && w.index < MAXARGS
    ensures (forall m: string, k: int :: ArgByName(ApplyWrite(tags, w).value, m, k) == AfterWrite(w, m, k, ArgByName(tags, m, k)))
            <==> !WriteUncovers(tags, w)
  {
    if w.arg != "" {
      var r := ApplyWrite(tags, w).value;
      SetByNameSets(tags, w.name, w.index, ValueOf(w));
      assert forall m: string, k: int :: AfterWrite(w, m, k, ArgByName(tags, m, k))
                                         == if m == w.name && k == w.index then ValueOf(w) else ArgByName(tags, m, k);
      assert Assigns(tags, r, w.name, w.index, ValueOf(w)) <==>
             forall m: string, k: int :: ArgByName(r, m, k) == AfterWrite(w, m, k, ArgByName(tags, m, k));
    }
  }

  lemma OverridesNothing(tags: seq<Tag>, ws: seq<Write>)
    ensures Overrides(tags, ws[..0])
  {
  }

  lemma OneWriteFirst(tags: seq<Tag>, ws: seq<Write>, n: nat, m: string, k: int)
    requires 0 < n <= |ws| && ApplyWrite(tags, ws[0]).Ok?
    ensures ApplyWrites(tags, ws[..n]).0 == ApplyWrites(ApplyWrite(tags, ws[0]).value, ws[1..][..n - 1]).0
    ensures var before := ArgByName(tags, m, k);
            AfterWrites(ws[..n], m, k, before) == AfterWrites(ws[1..][..n - 1], m, k, AfterWrite(ws[0], m, k, before))
  {
    assert ws[..n][1..] == ws[1..][..n - 1];
  }

  /** updateWith() overrides argument by argument, at every stage and although tags come and go, if
      and only if no write on the way brings a later tag of the same name to light. */
  lemma {:induction false} UpdateOverrides(tags: seq<Tag>, ws: seq<Write>)
    requires WritesFit(ws) && ApplyWrites(tags, ws).1 == None
    ensures AlwaysOverrides(tags, ws) <==> NeverUncovers(tags, ws)
    decreases |ws|
  {
    OverridesNothing(tags, ws);
    if ws != [] {
      var tags' := ApplyWrite(tags, ws[0]).value;
      WriteOverrides(tags, ws[0]);
      UpdateOverrides(tags', ws[1..]);
      if WriteUncovers(tags, ws[0]) {
        FirstWriteFails(tags, ws);
      } else {
        FirstWriteOverrides(tags, ws);
      }
    }
  }

  lemma FirstWriteFails(tags: seq<Tag>, ws: seq<Write>)
    requires ws != [] && ApplyWrite(tags, ws[0]).Ok? && ws[0].index < MAXARGS && WriteUncovers(tags, ws[0])
    ensures !Overrides(tags, ws[..1])
  {
    WriteOverrides(tags, ws[0]);
    var tags' := ApplyWrite(tags, ws[0]).value;
    var m: string, k: int :| ArgByName(tags', m, k) != AfterWrite(ws[0], m, k, ArgByName(tags, m, k));
    OneWriteFirst(tags, ws, 1, m, k);
    assert ws[1..][..0] == [];
  }

  lemma FirstWriteOverrides(tags: seq<Tag>, ws: seq<Write>)
    requires ws != [] && ApplyWrite(tags, ws[0]).Ok? && ws[0].index < MAXARGS && !WriteUncovers(tags, ws[0])
    ensures AlwaysOverrides(tags, ws) <==> AlwaysOverrides(ApplyWrite(tags, ws[0]).value, ws[1..])
  {
    var tags' := ApplyWrite(tags, ws[0]).value;
    OverridesNothing(tags, ws);
    if AlwaysOverrides(tags, ws) {
      forall n | 0 <= n <= |ws[1..]|
        ensures Overrides(tags', ws[1..][..n])
      {
        assert Overrides(tags, ws[..n + 1]);
        StageShifts(tags, ws, n + 1);
      }
    }
    if AlwaysOverrides(tags', ws[1..]) {
      forall n | 0 < n <= |ws|
        ensures Overrides(tags, ws[..n])
      {
        assert Overrides(tags', ws[1..][..n - 1]);
        StageShifts(tags, ws, n);
      }
    }
  }

  lemma StageShifts(tags: seq<Tag>, ws: seq<Write>, n: nat)
    requires 0 < n <= |ws| && ApplyWrite(tags, ws[0]).Ok? && ws[0].index < MAXARGS && !WriteUncovers(tags, ws[0])
    ensures Overrides(tags, ws[..n]) <==> Overrides(ApplyWrite(tags, ws[0]).value, ws[1..][..n - 1])
  {
    var tags' := ApplyWrite(tags, ws[0]).value;
    WriteOverrides(tags, ws[0]);
    forall m: string, k: int
      ensures ArgByName(ApplyWrites(tags, ws[..n]).0, m, k) == AfterWrites(ws[..n], m, k, ArgByName(tags, m, k)) <==>
                ArgByName(ApplyWrites(tags', ws[1..][..n - 1]).0, m, k) == AfterWrites(ws[1..][..n - 1], m, k, ArgByName(tags', m, k))
    {
      OneWriteFirst(tags, ws, n, m, k);
    }
  }

  /** Unique names stay unique, and then nothing is ever brought to light. */
  lemma {:induction false} UniqueNamesNeverUncover(tags: seq<Tag>, ws: seq<Write>)
    requires UniqueNames(tags)
    ensures NeverUncovers(tags, ws)
    decreases |ws|
  {
    if ws != [] {
      var w := ws[0];
      UniqueNeverUncovers(tags, w.name, w.index, ValueOf(w));
      if ApplyWrite(tags, w).Ok? {
        WriteKeepsUnique(tags, w);
        UniqueNamesNeverUncover(ApplyWrite(tags, w).value, ws[1..]);
      }
    }
  }

  lemma WriteKeepsUnique(tags: seq<Tag>, w: Write)
    requires UniqueNames(tags) && ApplyWrite(tags, w).Ok?
    ensures UniqueNames(ApplyWrite(tags, w).value)
  {
    if w.arg != "" {
      var found := FindOrInsert(tags, w.name).value;
      InsertKeepsUnique(tags, w.name);
      if w.index < MAXARGS {
        SetKeepsUnique(found.0, found.1, w.index, ValueOf(w));
      }
    }
  }

  lemma InsertKeepsUnique(tags: seq<Tag>, name: string)
    requires UniqueNames(tags) && FindOrInsert(tags, name).Ok?
    ensures UniqueNames(FindOrInsert(tags, name).value.0)
  {
    var r := FindOrInsert(tags, name).value.0;
    if TagIndex(tags, name) == -1 {
      TagIndexIsFirst(tags, name);
      assert r == [Tag(name, [])] + tags;
      assert forall k :: 0 < k < |r| ==> r[k] == tags[k - 1];
    }
  }

  lemma SetKeepsUnique(tags: seq<Tag>, i: nat, j: nat, v: string)
    requires UniqueNames(tags) && i < |tags|
    ensures UniqueNames(SetArg(tags, i, j, v))
  {
    var r := SetArg(tags, i, j, v);
    if Removes(tags, i, j, v) {
      assert forall k :: 0 <= k < |r| ==> r[k] == tags[if k < i then k else k + 1];
    } else {
      assert forall k :: 0 <= k < |r| ==> r[k].name == tags[k].name;
    }
  }

  /** Only a write to a tag that can be neither found nor inserted throws: one with an empty or an
      illegal name. */
  lemma {:induction false} NamedWritesPass(tags: seq<Tag>, ws: seq<Write>)
    requires forall i :: 0 <= i < |ws| && ws[i].arg != "" ==> ws[i].name != "" && LegalName(ws[i].name)
    ensures ApplyWrites(tags, ws).1 == None
    decreases |ws|
  {
    if ws != [] {
      assert ApplyWrite(tags, ws[0]).Ok?;
      NamedWritesPass(ApplyWrite(tags, ws[0]).value, ws[1..]);
    }
  }

  lemma {:induction false} WritesOfTable(ds: seq<Tag>)
    ensures Fits(ds) ==> WritesFit(Writes(ds))
    ensures TableOk(ds) && AllNamed(ds) ==>
              forall i :: 0 <= i < |Writes(ds)| ==> Writes(ds)[i].name != "" && LegalName(Writes(ds)[i].name)
  {
    if ds != [] {
      WritesOfTable(ds[1..]);
      TailIsOk(ds);
    }
  }

  lemma TailIsOk(ds: seq<Tag>)
    requires ds != []
    ensures Fits(ds) ==> |ds[0].args| <= MAXARGS && Fits(ds[1..])
    ensures TableOk(ds) && AllNamed(ds) ==> TagOk(ds[0]) && Named(ds[0]) && TableOk(ds[1..]) && AllNamed(ds[1..])
  {
  }

  /** Updating with a text that parses never throws, and overrides if and only if nothing is brought to
      light; so it does if the names of the table that is updated are unique. */
  lemma UpdateWithText(tags: seq<Tag>, s: string)
    requires Parse(s).Read?
    ensures var ws := Writes(Parse(s).tags);
            && ApplyWrites(tags, ws).1 == None
            && (AlwaysOverrides(tags, ws) <==> NeverUncovers(tags, ws))
            && (UniqueNames(tags) ==> AlwaysOverrides(tags, ws))
  {
    var ws := Writes(Parse(s).tags);
    ParsedTableIsOk(s);
    LeftoverFits(s, "");
    WritesOfTable(Parse(s).tags);
    NamedWritesPass(tags, ws);
    UpdateOverrides(tags, ws);
    if UniqueNames(tags) {
      UniqueNamesNeverUncover(tags, ws);
    }
  }

  lemma SetArgKeepsFits(tags: seq<Tag>, i: nat, j: nat, v: string)
    requires Fits(tags) && i < |tags| && j < MAXARGS
    ensures Fits(SetArg(tags, i, j, v))
  {
    assert |NewArgs(tags[i].args, j, v)| <= MAXARGS;
  }

  lemma FindKeepsFits(tags: seq<Tag>, name: string, at: int)
    requires Fits(tags)
    ensures FindOrInsert(tags, name).Ok? ==> Fits(FindOrInsert(tags, name).value.0)
    ensures InsertTag(tags, name, at).Ok? ==> Fits(InsertTag(tags, name, at).value.0)
  {
  }

  lemma {:induction false} WritesKeepFits(tags: seq<Tag>, ws: seq<Write>)
    requires Fits(tags)
    ensures Fits(ApplyWrites(tags, ws).0)
    decreases |ws|
  {
    if ws != [] && ApplyWrite(tags, ws[0]).Ok? {
      if ws[0].arg != "" {
        FindKeepsFits(tags, ws[0].name, 0);
        var found := FindOrInsert(tags, ws[0].name).value;
        if ws[0].index < MAXARGS {
          SetArgKeepsFits(found.0, found.1, ws[0].index, ValueOf(ws[0]));
        }
      }
      WritesKeepFits(ApplyWrite(tags, ws[0]).value, ws[1..]);
    }
  }

  // ---------------------------------------------------------------- one table over another

  lemma {:induction false} AfterBoth(a: seq<Write>, b: seq<Write>, name: string, index: int, before: string)
    ensures AfterWrites(a + b, name, index, before) == AfterWrites(b, name, index, AfterWrites(a, name, index, before))
    decreases |a|
  {
    if a == [] {
      assert a + b == b;
    } else {
      assert (a + b)[1..] == a[1..] + b;
      AfterBoth(a[1..], b, name, index, AfterWrite(a[0], name, index, before));
    }
  }

  /** What an argument reads after one of the updating string has been applied to it. */
  function Overridden(before: string, over: string): string
  {
    if over == "" then before else if over == "-" then "" else over
  }

  lemma {:induction false} AfterTag(t: Tag, j: nat, name: string, index: int, before: string)
    requires j <= |t.args|
    ensures AfterWrites(TagWrites(t, j), name, index, before)
            == if t.name == name && j <= index < |t.args| then Overridden(before, TextOf(t.args[index])) else before
    decreases |t.args| - j
  {
    var ws := TagWrites(t, j);
    if j < |t.args| {
      assert ws[0] == Write(t.name, j, TextOf(t.args[j]));
      assert ws[1..] == TagWrites(t, j + 1);
      AfterTag(t, j + 1, name, index, AfterWrite(ws[0], name, index, before));
    }
  }

  lemma {:induction false} AfterTable(ds: seq<Tag>, name: string, index: nat, before: string)
    requires UniqueNames(ds)
    ensures AfterWrites(Writes(ds), name, index, before) == Overridden(before, ArgByName(ds, name, index))
  {
    if ds != [] {
      var rest := ds[1..];
      AfterBoth(TagWrites(ds[0], 0), Writes(rest), name, index, before);
      AfterTag(ds[0], 0, name, index, before);
      AfterTable(rest, name, index, AfterWrites(TagWrites(ds[0], 0), name, index, before));
      if ds[0].name == name {
        NotBehind(ds, name);
      }
    }
  }

  lemma NotBehind(ds: seq<Tag>, name: string)
    requires UniqueNames(ds) && ds != [] && ds[0].name == name
    ensures TagIndex(ds[1..], name) == -1
  {
  }

  /** updateWith(), from end to end, of a table by a text, both with unique names: every argument of every
      tag is the text's if that is not empty ("-" meaning empty), and else as before. */
  lemma UpdateIsOverride(tags: seq<Tag>, s: string, name: string, index: nat)
    requires Parse(s).Read? && UniqueNames(tags) && UniqueNames(Parse(s).tags)
    ensures var (r, err) := ApplyWrites(tags, Writes(Parse(s).tags));
            var over := ArgByName(Parse(s).tags, name, index);
            && err == None
            && ArgByName(r, name, index) == if over == "" then ArgByName(tags, name, index) else if over == "-" then "" else over
  {
    var ws := Writes(Parse(s).tags);
    UpdateWithText(tags, s);
    assert Overrides(tags, ws[..|ws|]);
    assert ws[..|ws|] == ws;
    AfterTable(Parse(s).tags, name, index, ArgByName(tags, name, index));
  }
}
