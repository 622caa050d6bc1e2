/**
 Emitting signals: cComponent::emit() and fire() with listeners that run arbitrary code inside
 receiveSignal(), including subscribing, unsubscribing and emitting in turn.
 */
module SignalFire {
  import opened Options
  import opened SignalTables
  import opened Signals

  const NOTIFICATION_STACK_SIZE := 64

  datatype Action =
    | DoSubscribe(x: Sub, listener: nat)
    | DoUnsubscribe(x: Sub, listener: nat)
    | DoDelete(listener: nat)        // destroys a listener
    | DoRelease(comp: nat)           // destroys a component
    | DoRegister(name: string)
    | DoEmit(comp: nat, signal: nat)
    | DoThrow

  /** A call made by user code, and whether the code around it catches exceptions. */
  datatype Call = Call(action: Action, caught: bool)

  /** User code: what a listener does when notified, given every notification so far, the
      current one last. */
  type Code = seq<Note> -> seq<Call>

  datatype Env = Env(net: Net, code: Code)

  /** fire(): notifies the listeners at component at, then those of its ancestors. */
  function Fire(env: Env, st: State, source: nat, at: nat, s: nat): (r: Res)
    requires IsTree(env.net) && Inv(st)
    ensures Inv(r.st) && Locked(st, r.st) && DeeperThan(st, r.st, |st.stack|)
    decreases NOTIFICATION_STACK_SIZE - |st.stack|, 0, Level(env.net, at)
  {
    var r := FireLocal(env, st, source, at, s);
    if r.err.Some? || at !in env.net.parent then r
    else
      var r' := Fire(env, r.st, source, env.net.parent[at], s);
      LockedIsTransitive(st, r.st, r'.st, |st.stack|);
      r'
  }

  function FireLocal(env: Env, st: State, source: nat, at: nat, s: nat): (r: Res)
    requires IsTree(env.net) && Inv(st)
    ensures Inv(r.st) && Locked(st, r.st) && DeeperThan(st, r.st, |st.stack|)
    decreases NOTIFICATION_STACK_SIZE - |st.stack|, 0, Level(env.net, at), 0
  {
    var x := Sub(at, s);
    if ListOf(st, x) == [] then Res(st, None)
    else if |st.stack| >= NOTIFICATION_STACK_SIZE then Res(st, Some(StackOverflow))
    else
      PushKeepsInv(st, x);
      var r := Notify(env, st.(stack := st.stack + [x]), source, x, 0);
      PopKeepsInv(st, r.st, x);
      // normal return: notificationSP--; exception: back to the old height, then rethrow
      if r.err == None then Res(r.st.(stack := r.st.stack[..|r.st.stack| - 1]), None)
      else Res(r.st.(stack := r.st.stack[..|st.stack|]), r.err)
  }

  /** The loop of fire() from index i on; the list is read anew each time, as the loop does. */
  function Notify(env: Env, st: State, source: nat, x: Sub, i: nat): (r: Res)
    requires IsTree(env.net) && Inv(st) && st.stack != [] && x in st.stack
    ensures Inv(r.st) && Locked(st, r.st) && DeeperThan(st, r.st, |st.stack| - 1)
    decreases NOTIFICATION_STACK_SIZE - |st.stack|, 3, |ListOf(st, x)| - i
  {
    var ls := ListOf(st, x);
    if i >= |ls| then Res(st, None)
    else
      var st1 := st.(log := st.log + [Note(x, source, ls[i], |st.stack|)]);
      LogKeepsInv(st, st1);
      var r := Exec(env, st1, env.code(st1.log));
      LockedIsTransitive(st, st1, r.st, |st.stack| - 1);
      if r.err.Some? then r
      else
        var r' := Notify(env, r.st, source, x, i + 1);
        LockedIsTransitive(st, r.st, r'.st, |st.stack| - 1);
        r'
  }

  /** A piece of user code: its calls in turn, until one throws and is not caught. */
  function Exec(env: Env, st: State, calls: seq<Call>): (r: Res)
    requires IsTree(env.net) && Inv(st)
    ensures Inv(r.st) && Locked(st, r.st) && DeeperThan(st, r.st, |st.stack|)
    decreases NOTIFICATION_STACK_SIZE - |st.stack|, 2, |calls|
  {
    if calls == [] then Res(st, None)
    else
      var r := Act(env, st, calls[0].action);
      if r.err.Some? && !calls[0].caught then r
      else
        var r' := Exec(env, r.st, calls[1..]);
        LockedIsTransitive(st, r.st, r'.st, |st.stack|);
        r'
  }

  function Act(env: Env, st: State, a: Action): (r: Res)
    requires IsTree(env.net) && Inv(st)
    ensures Inv(r.st) && Locked(st, r.st) && DeeperThan(st, r.st, |st.stack|)
    decreases NOTIFICATION_STACK_SIZE - |st.stack|, 1, 0
  {
    if !a.DoEmit? then Change(st, a)
    else if a.signal >= |st.counts| then Res(st, Some(InvalidSignal))
    else if MayHaveListeners(st, a.signal) then Fire(env, st, a.comp, a.comp, a.signal)
    else Res(st, None)
  }

  /** The calls that change the registry without notifying anyone. */
  function Change(st: State, a: Action): (r: Res)
    requires Inv(st) && !a.DoEmit?
    ensures Inv(r.st) && Locked(st, r.st) && r.st.log == st.log
  {
    match a
    case DoSubscribe(x, l) =>
      SubscribeKeepsInv(st, x, l);
      Subscribe(st, x, l)
    case DoUnsubscribe(x, l) =>
      UnsubscribeKeepsInv(st, x, l);
      Unsubscribe(st, x, l)
    case DoDelete(l) => UnsubscribeAll(st, l)
    case DoRelease(c) => ReleaseLocalListeners(st, c)
    case DoRegister(name) =>
      RegisterKeepsInv(st, name);
      Res(RegisterSignal(st, name).0, None)
    case DoThrow => Res(st, Some(UserError))
  }

  /** Notifications logged from st to st' were all made with a stack higher than h. */
  ghost predicate DeeperThan(st: State, st': State, h: int)
  {
    forall k :: |st.log| <= k < |st'.log| ==> st'.log[k].depth > h
  }

  lemma LockedIsTransitive(a: State, b: State, c: State, h: int)
    requires Locked(a, b) && Locked(b, c) && DeeperThan(a, b, h) && DeeperThan(b, c, h)
    ensures Locked(a, c) && DeeperThan(a, c, h)
  {
    assert forall k :: |a.log| <= k < |b.log| ==> c.log[k] == b.log[k];
  }

  lemma SameLists(st: State, st': State)
    requires st'.tables == st.tables && st'.subs == st.subs
    ensures forall x :: ListOf(st', x) == ListOf(st, x)
    ensures forall l :: SubsOf(st', l) == SubsOf(st, l)
    ensures Triples(st') == Triples(st)
  {
  }

  lemma PushKeepsInv(st: State, x: Sub)
    requires Inv(st) && ListOf(st, x) != [] && |st.stack| < 64
    ensures Inv(st.(stack := st.stack + [x]))
  {
    SameLists(st, st.(stack := st.stack + [x]));
  }

  lemma LogKeepsInv(st: State, st1: State)
    requires Inv(st) && st.log <= st1.log && st1 == st.(log := st1.log)
    ensures Inv(st1) && Locked(st, st1)
  {
    SameLists(st, st1);
  }

  /** Whether fire() returns or throws, the stack is back at its old height, with its old contents. */
  lemma PopKeepsInv(st: State, st': State, x: Sub)
    requires Inv(st') && Locked(st.(stack := st.stack + [x]), st')
    ensures var h := |st.stack|;
            && |st'.stack| == h + 1 && st'.stack[..h] == st.stack
            && Inv(st'.(stack := st.stack)) && Locked(st, st'.(stack := st.stack))
  {
    assert st'.stack == st.stack + [x];
    SameLists(st', st'.(stack := st.stack));
    SameLists(st, st.(stack := st.stack + [x]));
    assert forall y :: y in st.stack ==> y in st.stack + [x];
  }

  // ---------------------------------------------------------------- who gets notified

  /** The calls in a stretch of the log made with the stack at height d. */
  function AtDepth(log: seq<Note>, d: nat): seq<Note>
  {
    if log == [] then []
    else if log[0].depth == d then [log[0]] + AtDepth(log[1..], d)
    else AtDepth(log[1..], d)
  }

  lemma {:induction false} AtDepthConcat(a: seq<Note>, b: seq<Note>, d: nat)
    ensures AtDepth(a + b, d) == AtDepth(a, d) + AtDepth(b, d)
  {
    if a == [] {
      assert a + b == b;
    } else {
      assert (a + b)[1..] == a[1..] + b;
      AtDepthConcat(a[1..], b, d);
    }
  }

  lemma {:induction false} AtDepthOfDeeper(log: seq<Note>, d: nat)
    requires forall k :: 0 <= k < |log| ==> log[k].depth > d
    ensures AtDepth(log, d) == []
  {
    if log != [] {
      AtDepthOfDeeper(log[1..], d);
    }
  }

  function NotesFor(x: Sub, source: nat, ls: seq<nat>, d: nat): seq<Note>
  {
    seq(|ls|, k requires 0 <= k < |ls| => Note(x, source, ls[k], d))
  }

  /** The calls logged by going from st to st' with the stack at height d. */
  ghost function Own(st: State, st': State, d: nat): seq<Note>
    requires st.log <= st'.log
  {
    AtDepth(st'.log[|st.log|..], d)
  }

  lemma OwnConcat(a: State, b: State, c: State, d: nat)
    requires a.log <= b.log <= c.log
    ensures Own(a, c, d) == Own(a, b, d) + Own(b, c, d)
  {
    AtDepthConcat(b.log[|a.log|..], c.log[|b.log|..], d);
    assert c.log[|a.log|..] == b.log[|a.log|..] + c.log[|b.log|..];
  }

  lemma OwnOfDeeper(st: State, st': State, d: nat)
    requires st.log <= st'.log && DeeperThan(st, st', d)
    ensures Own(st, st', d) == []
  {
    AtDepthOfDeeper(st'.log[|st.log|..], d);
  }

  /** One round of the notification loop, which logs one call at its own height and ends the loop
      if the listener throws. */
  lemma NotifyUnfolds(env: Env, st: State, source: nat, x: Sub, i: nat) returns (st2: State)
    requires IsTree(env.net) && Inv(st) && st.stack != [] && x in st.stack && i < |ListOf(st, x)|
    ensures Inv(st2) && Locked(st, st2)
    ensures Own(st, st2, |st.stack|) == [Note(x, source, ListOf(st, x)[i], |st.stack|)]
    ensures var r := Notify(env, st, source, x, i);
            r == Notify(env, st2, source, x, i + 1) || (r.err.Some? && r.st == st2)
  {
    var note := Note(x, source, ListOf(st, x)[i], |st.stack|);
    var st1 := st.(log := st.log + [note]);
    LogKeepsInv(st, st1);
    var r := Exec(env, st1, env.code(st1.log));
    st2 := r.st;
    OwnOfDeeper(st1, st2, |st.stack|);
    OneMoreNote(st, st1, st2, note);
  }

  lemma NotesUnfold(x: Sub, source: nat, ls: seq<nat>, i: nat, d: nat)
    requires i < |ls|
    ensures NotesFor(x, source, ls[i..], d) == [Note(x, source, ls[i], d)] + NotesFor(x, source, ls[i + 1..], d)
  {
  }

  /** All of the calls due were made or, if an exception ended it, the first ones of them. */
  ghost predicate CallsMade(made: seq<Note>, due: seq<Note>, err: Option<Error>)
  {
    made <= due && (err == None ==> made == due)
  }

  lemma SamePrefix(a: seq<Note>, made: seq<Note>, due: seq<Note>, err: Option<Error>)
    requires CallsMade(made, due, err)
    ensures CallsMade(a + made, a + due, err)
  {
  }

  lemma EndsEarly(made: seq<Note>, due: seq<Note>, more: seq<Note>, err: Option<Error>)
    requires CallsMade(made, due, err) && err.Some?
    ensures CallsMade(made, due + more, err)
  {
  }

  /** Whatever the listeners do, including nested emits, the loop calls each listener of the list
      once, in list order, up to the first one that throws. */
  lemma {:induction false} NotifyCallsEachOnce(env: Env, st: State, source: nat, x: Sub, i: nat)
    requires IsTree(env.net) && Inv(st) && st.stack != [] && x in st.stack && i <= |ListOf(st, x)|
    ensures var r := Notify(env, st, source, x, i);
            CallsMade(Own(st, r.st, |st.stack|), NotesFor(x, source, ListOf(st, x)[i..], |st.stack|), r.err)
    decreases |ListOf(st, x)| - i
  {
    var r := Notify(env, st, source, x, i);
    if i == |ListOf(st, x)| {
      assert Own(st, st, |st.stack|) == [];
    } else {
      var st2 := NotifyUnfolds(env, st, source, x, i);
      var note := Note(x, source, ListOf(st, x)[i], |st.stack|);
      var later := NotesFor(x, source, ListOf(st, x)[i + 1..], |st.stack|);
      NotesUnfold(x, source, ListOf(st, x), i, |st.stack|);
      if r == Notify(env, st2, source, x, i + 1) {
        NotifyCallsEachOnce(env, st2, source, x, i + 1);
        OwnConcat(st, st2, r.st, |st.stack|);
        SamePrefix([note], Own(st2, r.st, |st.stack|), later, r.err);
      } else {
        EndsEarly([note], [note], later, r.err);
      }
    }
  }

  lemma OneMoreNote(st: State, st1: State, st2: State, note: Note)
    requires st1.log == st.log + [note] && st1.log <= st2.log && Own(st1, st2, note.depth) == []
    ensures Own(st, st2, note.depth) == [note]
  {
    OwnConcat(st, st1, st2, note.depth);
    assert st1.log[|st.log|..] == [note];
  }

  lemma FireLocalCallsEachOnce(env: Env, st: State, source: nat, at: nat, s: nat)
    requires IsTree(env.net) && Inv(st)
    ensures var r := FireLocal(env, st, source, at, s);
            CallsMade(Own(st, r.st, |st.stack| + 1),
                      NotesFor(Sub(at, s), source, ListOf(st, Sub(at, s)), |st.stack| + 1), r.err)
  {
    var x := Sub(at, s);
    if ListOf(st, x) != [] && |st.stack| < NOTIFICATION_STACK_SIZE {
      var pushed := st.(stack := st.stack + [x]);
      PushKeepsInv(st, x);
      SameLists(st, pushed);
      NotifyCallsEachOnce(env, pushed, source, x, 0);
      var r := Notify(env, pushed, source, x, 0);
      assert ListOf(pushed, x)[0..] == ListOf(st, x);
    } else {
      assert Own(st, st, |st.stack| + 1) == [];
    }
  }

  /** One call for every listener at the component and its ancestors: each list as it stands when
      the emit gets there (listeners further down may have changed it by then). */
  ghost function Expected(env: Env, st: State, source: nat, at: nat, s: nat): seq<Note>
    requires IsTree(env.net) && Inv(st)
    decreases Level(env.net, at)
  {
    NotesFor(Sub(at, s), source, ListOf(st, Sub(at, s)), |st.stack| + 1)
    + if at !in env.net.parent then []
      else Expected(env, FireLocal(env, st, source, at, s).st, source, env.net.parent[at], s)
  }

  lemma FireUnfolds(env: Env, st: State, source: nat, at: nat, s: nat)
    requires IsTree(env.net) && Inv(st)
    ensures var r := FireLocal(env, st, source, at, s);
            Fire(env, st, source, at, s) ==
              if r.err == None && at in env.net.parent then Fire(env, r.st, source, env.net.parent[at], s) else r
  {
  }

  lemma ExpectedUnfolds(env: Env, st: State, source: nat, at: nat, s: nat)
    requires IsTree(env.net) && Inv(st)
    ensures var here := NotesFor(Sub(at, s), source, ListOf(st, Sub(at, s)), |st.stack| + 1);
            Expected(env, st, source, at, s) ==
              if at !in env.net.parent then here
              else here + Expected(env, FireLocal(env, st, source, at, s).st, source, env.net.parent[at], s)
  {
  }

  /** An emit does what is due here and then goes on at the parent. */
  lemma FireGoesOn(env: Env, st: State, source: nat, at: nat, s: nat) returns (st1: State)
    requires IsTree(env.net) && Inv(st) && at in env.net.parent && FireLocal(env, st, source, at, s).err == None
    ensures Inv(st1) && st1.stack == st.stack
    ensures var d, r1 := |st.stack| + 1, Fire(env, st1, source, env.net.parent[at], s);
            CallsMade(Own(st1, r1.st, d), Expected(env, st1, source, env.net.parent[at], s), r1.err) ==>
            var r := Fire(env, st, source, at, s);
            CallsMade(Own(st, r.st, d), Expected(env, st, source, at, s), r.err)
  {
    FireUnfolds(env, st, source, at, s);
    FireLocalCallsEachOnce(env, st, source, at, s);
    ExpectedUnfolds(env, st, source, at, s);
    st1 := FireLocal(env, st, source, at, s).st;
    var d, r1 := |st.stack| + 1, Fire(env, st1, source, env.net.parent[at], s);
    OwnConcat(st, st1, r1.st, d);
    if CallsMade(Own(st1, r1.st, d), Expected(env, st1, source, env.net.parent[at], s), r1.err) {
      SamePrefix(NotesFor(Sub(at, s), source, ListOf(st, Sub(at, s)), d),
                 Own(st1, r1.st, d), Expected(env, st1, source, env.net.parent[at], s), r1.err);
    }
  }

  lemma FireStops(env: Env, st: State, source: nat, at: nat, s: nat)
    requires IsTree(env.net) && Inv(st)
    requires at !in env.net.parent || FireLocal(env, st, source, at, s).err.Some?
    ensures var r := Fire(env, st, source, at, s);
            CallsMade(Own(st, r.st, |st.stack| + 1), Expected(env, st, source, at, s), r.err)
  {
    FireUnfolds(env, st, source, at, s);
    FireLocalCallsEachOnce(env, st, source, at, s);
    ExpectedUnfolds(env, st, source, at, s);
    if at in env.net.parent {
      var r := FireLocal(env, st, source, at, s);
      EndsEarly(Own(st, r.st, |st.stack| + 1), NotesFor(Sub(at, s), source, ListOf(st, Sub(at, s)), |st.stack| + 1),
                Expected(env, r.st, source, env.net.parent[at], s), r.err);
    }
  }

  /** An emit makes the expected calls, each once and in order; if it throws, it has made the first
      ones of them. */
  lemma {:induction false} FireCallsEachOnce(env: Env, st: State, source: nat, at: nat, s: nat)
    requires IsTree(env.net) && Inv(st)
    ensures var r := Fire(env, st, source, at, s);
            CallsMade(Own(st, r.st, |st.stack| + 1), Expected(env, st, source, at, s), r.err)
    decreases Level(env.net, at)
  {
    if at in env.net.parent && FireLocal(env, st, source, at, s).err == None {
      var st1 := FireGoesOn(env, st, source, at, s);
      FireCallsEachOnce(env, st1, source, env.net.parent[at], s);
    } else {
      FireStops(env, st, source, at, s);
    }
  }

  // ---------------------------------------------------------------- listeners that do not resubscribe

  predicate IsQuiet(a: Action)
  {
    a.DoEmit? || a.DoRegister? || a.DoThrow?
  }

  /** User code that emits at will but leaves subscriptions alone. */
  ghost predicate QuietCode(code: Code)
  {
    forall log, k :: 0 <= k < |code(log)| ==> IsQuiet(code(log)[k].action)
  }

  ghost predicate SameSubscriptions(st: State, st': State)
  {
    forall x :: ListOf(st', x) == ListOf(st, x)
  }

  lemma {:induction false} QuietFire(env: Env, st: State, source: nat, at: nat, s: nat)
    requires IsTree(env.net) && Inv(st) && QuietCode(env.code)
    ensures SameSubscriptions(st, Fire(env, st, source, at, s).st)
    decreases NOTIFICATION_STACK_SIZE - |st.stack|, 0, Level(env.net, at)
  {
    QuietFireLocal(env, st, source, at, s);
    var r := FireLocal(env, st, source, at, s);
    if r.err == None && at in env.net.parent {
      QuietFire(env, r.st, source, env.net.parent[at], s);
    }
  }

  lemma {:induction false} QuietFireLocal(env: Env, st: State, source: nat, at: nat, s: nat)
    requires IsTree(env.net) && Inv(st) && QuietCode(env.code)
    ensures SameSubscriptions(st, FireLocal(env, st, source, at, s).st)
    decreases NOTIFICATION_STACK_SIZE - |st.stack|, 0, Level(env.net, at), 0
  {
    var x := Sub(at, s);
    if ListOf(st, x) != [] && |st.stack| < NOTIFICATION_STACK_SIZE {
      var pushed := st.(stack := st.stack + [x]);
      PushKeepsInv(st, x);
      SameLists(st, pushed);
      QuietNotify(env, pushed, source, x, 0);
      var r := Notify(env, pushed, source, x, 0);
      PopKeepsInv(st, r.st, x);
      SameLists(r.st, FireLocal(env, st, source, at, s).st);
    }
  }

  lemma {:induction false} QuietNotify(env: Env, st: State, source: nat, x: Sub, i: nat)
    requires IsTree(env.net) && Inv(st) && QuietCode(env.code) && st.stack != [] && x in st.stack
    ensures SameSubscriptions(st, Notify(env, st, source, x, i).st)
    decreases NOTIFICATION_STACK_SIZE - |st.stack|, 3, |ListOf(st, x)| - i
  {
    var ls := ListOf(st, x);
    if i < |ls| {
      var st1 := st.(log := st.log + [Note(x, source, ls[i], |st.stack|)]);
      LogKeepsInv(st, st1);
      SameLists(st, st1);
      QuietExec(env, st1, env.code(st1.log));
      var r := Exec(env, st1, env.code(st1.log));
      if r.err == None {
        QuietNotify(env, r.st, source, x, i + 1);
      }
    }
  }

  lemma {:induction false} QuietExec(env: Env, st: State, calls: seq<Call>)
    requires IsTree(env.net) && Inv(st) && QuietCode(env.code)
    requires forall k :: 0 <= k < |calls| ==> IsQuiet(calls[k].action)
    ensures SameSubscriptions(st, Exec(env, st, calls).st)
    decreases NOTIFICATION_STACK_SIZE - |st.stack|, 2, |calls|
  {
    if calls != [] {
      QuietAct(env, st, calls[0].action);
      var r := Act(env, st, calls[0].action);
      if r.err == None || calls[0].caught {
        QuietExec(env, r.st, calls[1..]);
      }
    }
  }

  lemma {:induction false} QuietAct(env: Env, st: State, a: Action)
    requires IsTree(env.net) && Inv(st) && QuietCode(env.code) && IsQuiet(a)
    ensures SameSubscriptions(st, Act(env, st, a).st)
    decreases NOTIFICATION_STACK_SIZE - |st.stack|, 1, 0
  {
    if a.DoEmit? && a.signal < |st.counts| && MayHaveListeners(st, a.signal) {
      QuietFire(env, st, a.comp, a.comp, a.signal);
    } else if a.DoRegister? {
      RegisterKeepsInv(st, a.name);
    }
  }

  /** One call for every subscription at the source and its ancestors, as of the start. */
  ghost function AllSubscribed(net: Net, st: State, source: nat, at: nat, s: nat, d: nat): seq<Note>
    requires IsTree(net)
    decreases Level(net, at)
  {
    NotesFor(Sub(at, s), source, ListOf(st, Sub(at, s)), d)
    + if at !in net.parent then [] else AllSubscribed(net, st, source, net.parent[at], s, d)
  }

  lemma {:induction false} ExpectedWhenQuiet(env: Env, st0: State, st: State, source: nat, at: nat, s: nat)
    requires IsTree(env.net) && Inv(st) && QuietCode(env.code)
    requires SameSubscriptions(st0, st) && |st.stack| == |st0.stack|
    ensures Expected(env, st, source, at, s) == AllSubscribed(env.net, st0, source, at, s, |st0.stack| + 1)
    decreases Level(env.net, at)
  {
    if at in env.net.parent {
      QuietFireLocal(env, st, source, at, s);
      ExpectedWhenQuiet(env, st0, FireLocal(env, st, source, at, s).st, source, env.net.parent[at], s);
    }
  }

  /** An emit() notifies every listener subscribed at the source or an ancestor exactly once per
      subscription, whatever those listeners emit in turn; if it throws, the first ones of them. */
  lemma EmitNotifiesEverySubscription(env: Env, st: State, source: nat, s: nat)
    requires IsTree(env.net) && Inv(st) && QuietCode(env.code) && s < |st.counts|
    ensures var r := Act(env, st, DoEmit(source, s));
            && CallsMade(Own(st, r.st, |st.stack| + 1),
                         AllSubscribed(env.net, st, source, source, s, |st.stack| + 1), r.err)
            && r.st.stack == st.stack
  {
    if MayHaveListeners(st, s) {
      FireCallsEachOnce(env, st, source, source, s);
      ExpectedWhenQuiet(env, st, st, source, source, s);
    } else {
      NobodySubscribed(env.net, st, source, source, s, |st.stack| + 1);
    }
  }

  lemma {:induction false} NobodySubscribed(net: Net, st: State, source: nat, at: nat, s: nat, d: nat)
    requires IsTree(net) && Inv(st) && s < |st.counts| && !MayHaveListeners(st, s)
    ensures AllSubscribed(net, st, source, at, s, d) == []
    decreases Level(net, at)
  {
    MayHaveListenersIsExact(st, s);
    assert ListOf(st, Sub(at, s)) == [];
    if at in net.parent {
      NobodySubscribed(net, st, source, net.parent[at], s, d);
    }
  }

  /** Once means once: the calls AllSubscribed lists are pairwise different, and there is one for
      listener l at component a exactly when a is the component or an ancestor and l is subscribed there. */
  lemma {:induction false} AllSubscribedIsExact(net: Net, st: State, source: nat, at: nat, s: nat, d: nat)
    requires IsTree(net) && Inv(st)
    ensures NoRepeats(AllSubscribed(net, st, source, at, s, d))
    ensures forall n :: n in AllSubscribed(net, st, source, at, s, d) <==>
              n.list.comp in Ancestors(net, at) && n.list.signal == s && n.source == source && n.depth == d
              && n.listener in ListOf(st, n.list)
    ensures forall a :: a in Ancestors(net, at) ==> a == at || Level(net, a) < Level(net, at)
    decreases Level(net, at)
  {
    var x := Sub(at, s);
    var here := NotesFor(x, source, ListOf(st, x), d);
    ListenersNoRepeats(TableOf(st, at), s);
    forall n
      ensures n in here <==> n.list == x && n.source == source && n.depth == d && n.listener in ListOf(st, x)
    {
      if n.list == x && n.source == source && n.depth == d && n.listener in ListOf(st, x) {
        var k :| 0 <= k < |ListOf(st, x)| && ListOf(st, x)[k] == n.listener;
        assert here[k] == n;
      }
    }
    if at in net.parent {
      AllSubscribedIsExact(net, st, source, net.parent[at], s, d);
      var rest := AllSubscribed(net, st, source, net.parent[at], s, d);
      forall i, j | 0 <= i < |here| && 0 <= j < |rest|
        ensures here[i] != rest[j]
      {
        assert rest[j] in rest;
      }
    }
  }

  /** A list on the notification stack cannot be changed, and the attempt leaves no trace. */
  lemma ChangeWhileFiringIsRefused(st: State, x: Sub, l: nat)
    requires Inv(st) && x in st.stack
    ensures Subscribe(st, x, l) == Res(st, Some(Firing)) && Unsubscribe(st, x, l) == Res(st, Some(Firing))
  {
  }

  /** Unbounded recursion of emits is cut off: on a full stack an emit with local listeners fails. */
  lemma FullStackStopsEmit(env: Env, st: State, source: nat, s: nat)
    requires IsTree(env.net) && Inv(st) && |st.stack| == NOTIFICATION_STACK_SIZE
    requires ListOf(st, Sub(source, s)) != []
    ensures Act(env, st, DoEmit(source, s)) == Res(st, Some(StackOverflow))
  {
    assert Sub(source, s).signal < |st.counts|;
    MayHaveListenersIsExact(st, s);
    assert FireLocal(env, st, source, source, s) == Res(st, Some(StackOverflow));
    assert Fire(env, st, source, source, s) == Res(st, Some(StackOverflow));
  }

  // ---------------------------------------------------------------- in which order, and to the end

  /** Of two calls for one list, the first is for the listener that comes first in it; of two others, the
      first is for the component that is lower in the tree. */
  ghost predicate InOrder(net: Net, st: State, a: Note, b: Note)
  {
    if a.list == b.list then
      exists k: nat, l: nat ::
        k < l < |ListOf(st, a.list)| && ListOf(st, a.list)[k] == a.listener && ListOf(st, a.list)[l] == b.listener
    else Level(net, a.list.comp) > Level(net, b.list.comp)
  }

  lemma {:induction false} CallsAreHigher(net: Net, st: State, source: nat, at: nat, s: nat, d: nat, j: nat)
    requires IsTree(net) && j < |AllSubscribed(net, st, source, at, s, d)|
    ensures Level(net, AllSubscribed(net, st, source, at, s, d)[j].list.comp) <= Level(net, at)
    decreases Level(net, at)
  {
    var n := |ListOf(st, Sub(at, s))|;
    if j >= n {
      CallsAreHigher(net, st, source, net.parent[at], s, d, j - n);
    }
  }

  /** The calls go up the tree: those for a component before those for its ancestors, and for one
      component in the order of its list. */
  lemma {:induction false} CallsGoUp(net: Net, st: State, source: nat, at: nat, s: nat, d: nat, i: nat, j: nat)
    requires IsTree(net) && i < j < |AllSubscribed(net, st, source, at, s, d)|
    ensures InOrder(net, st, AllSubscribed(net, st, source, at, s, d)[i], AllSubscribed(net, st, source, at, s, d)[j])
    decreases Level(net, at)
  {
    var x := Sub(at, s);
    var n, here := |ListOf(st, x)|, NotesFor(x, source, ListOf(st, x), d);
    if j < n {
      HereGoesUp(net, st, x, source, d, i, j);
    } else {
      var rest := AllSubscribed(net, st, source, net.parent[at], s, d);
      assert AllSubscribed(net, st, source, at, s, d) == here + rest;
      if i < n {
        CallsAreHigher(net, st, source, net.parent[at], s, d, j - n);
        assert here[i].list == x;
      } else {
        CallsGoUp(net, st, source, net.parent[at], s, d, i - n, j - n);
      }
    }
  }

  lemma HereGoesUp(net: Net, st: State, x: Sub, source: nat, d: nat, i: nat, j: nat)
    requires i < j < |ListOf(st, x)|
    ensures var here := NotesFor(x, source, ListOf(st, x), d); InOrder(net, st, here[i], here[j])
  {
    var ls := ListOf(st, x);
    assert ls[i] == NotesFor(x, source, ls, d)[i].listener && ls[j] == NotesFor(x, source, ls, d)[j].listener;
  }

  lemma NotifyThrows(env: Env, st: State, source: nat, x: Sub, note: Note)
    requires IsTree(env.net) && Inv(st) && st.stack != [] && x in st.stack && ListOf(st, x) != []
    requires note == Note(x, source, ListOf(st, x)[0], |st.stack|) && env.code(st.log + [note]) == [Call(DoThrow, false)]
    ensures Notify(env, st, source, x, 0) == Res(st.(log := st.log + [note]), Some(UserError))
  {
    var st1 := st.(log := st.log + [note]);
    LogKeepsInv(st, st1);
    assert Act(env, st1, DoThrow) == Res(st1, Some(UserError));
  }

  /** A listener that throws, and does not catch it, ends the emit at once: nobody else is called, and
      the exception reaches the caller. */
  lemma ThrowEndsEmit(env: Env, st: State, source: nat, s: nat, note: Note)
    requires IsTree(env.net) && Inv(st) && |st.stack| < NOTIFICATION_STACK_SIZE && ListOf(st, Sub(source, s)) != []
    requires note == Note(Sub(source, s), source, ListOf(st, Sub(source, s))[0], |st.stack| + 1)
    requires env.code(st.log + [note]) == [Call(DoThrow, false)]
    ensures Act(env, st, DoEmit(source, s)) == Res(st.(log := st.log + [note]), Some(UserError))
  {
    FireLocalThrows(env, st, source, s, note);
    assert Sub(source, s).signal < |st.counts|;
    MayHaveListenersIsExact(st, s);
    FireUnfolds(env, st, source, source, s);
  }

  lemma FireLocalThrows(env: Env, st: State, source: nat, s: nat, note: Note)
    requires IsTree(env.net) && Inv(st) && |st.stack| < NOTIFICATION_STACK_SIZE && ListOf(st, Sub(source, s)) != []
    requires note == Note(Sub(source, s), source, ListOf(st, Sub(source, s))[0], |st.stack| + 1)
    requires env.code(st.log + [note]) == [Call(DoThrow, false)]
    ensures FireLocal(env, st, source, source, s) == Res(st.(log := st.log + [note]), Some(UserError))
  {
    var x := Sub(source, s);
    var pushed := st.(stack := st.stack + [x]);
    PushKeepsInv(st, x);
    SameLists(st, pushed);
    NotifyThrows(env, pushed, source, x, note);
    assert (st.stack + [x])[..|st.stack|] == st.stack;
  }

  /** User code that catches whatever its calls throw. */
  ghost predicate CatchesAll(code: Code)
  {
    forall log, k :: 0 <= k < |code(log)| ==> code(log)[k].caught
  }

  lemma {:induction false} ExecCompletes(env: Env, st: State, calls: seq<Call>)
    requires IsTree(env.net) && Inv(st) && forall k :: 0 <= k < |calls| ==> calls[k].caught
    ensures Exec(env, st, calls).err == None
    decreases |calls|
  {
    if calls != [] {
      ExecCompletes(env, Act(env, st, calls[0].action).st, calls[1..]);
    }
  }

  lemma {:induction false} NotifyCompletes(env: Env, st: State, source: nat, x: Sub, i: nat)
    requires IsTree(env.net) && Inv(st) && st.stack != [] && x in st.stack && CatchesAll(env.code)
    ensures Notify(env, st, source, x, i).err == None
    decreases |ListOf(st, x)| - i
  {
    var ls := ListOf(st, x);
    if i < |ls| {
      var st1 := st.(log := st.log + [Note(x, source, ls[i], |st.stack|)]);
      LogKeepsInv(st, st1);
      ExecCompletes(env, st1, env.code(st1.log));
      NotifyCompletes(env, Exec(env, st1, env.code(st1.log)).st, source, x, i + 1);
    }
  }

  /** With listeners that catch everything, and some room on the stack, an emit never throws; so it
      makes all the calls that are due. */
  lemma {:induction false} FireCompletes(env: Env, st: State, source: nat, at: nat, s: nat)
    requires IsTree(env.net) && Inv(st) && CatchesAll(env.code) && |st.stack| < NOTIFICATION_STACK_SIZE
    ensures Fire(env, st, source, at, s).err == None
    decreases Level(env.net, at)
  {
    var x := Sub(at, s);
    if ListOf(st, x) != [] {
      PushKeepsInv(st, x);
      NotifyCompletes(env, st.(stack := st.stack + [x]), source, x, 0);
    }
    FireUnfolds(env, st, source, at, s);
    if at in env.net.parent {
      FireCompletes(env, FireLocal(env, st, source, at, s).st, source, env.net.parent[at], s);
    }
  }
}
