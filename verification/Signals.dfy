/**
 The signal registry as a whole: the signal tables of all components, the subscription vectors
 of all listeners, the name and count registrations, and the notification stack.
 */
module Signals {
  import opened Options
  import opened SignalTables

  /** A listener list is identified by its component and signal. */
  datatype Sub = Sub(comp: nat, signal: nat)

  datatype Error = InvalidSignal | Firing | AlreadySubscribed | StackOverflow | UserError

  /** A call's effect: the state it leaves, and the exception it throws, if any. */
  datatype Res = Res(st: State, err: Option<Error>)

  /** One receiveSignal() call: the list it is made for, the emitting component, the listener,
      and the height of the notification stack during the call. */
  datatype Note = Note(list: Sub, source: nat, listener: nat, depth: nat)

  datatype State = State(
    tables: map<nat, seq<Entry>>,
    subs: map<nat, seq<Sub>>,
    nameToId: map<string, nat>,
    idToName: map<nat, string>,
    counts: seq<int>,
    stack: seq<Sub>,
    log: seq<Note>)

  function TableOf(st: State, c: nat): seq<Entry>
  {
    if c in st.tables then st.tables[c] else []
  }

  function ListOf(st: State, x: Sub): seq<nat>
  {
    Listeners(TableOf(st, x.comp), x.signal)
  }

  function SubsOf(st: State, l: nat): seq<Sub>
  {
    if l in st.subs then st.subs[l] else []
  }

  function Drop(s: seq<Sub>, x: Sub): seq<Sub>
  {
    if s == [] then []
    else if s[0] == x then Drop(s[1..], x)
    else [s[0]] + Drop(s[1..], x)
  }

  // ---------------------------------------------------------------- operations

  function RegisterSignal(st: State, name: string): (State, nat)
  {
    if name in st.nameToId then (st, st.nameToId[name])
    else
      var id := |st.counts|;  // lastId + 1
      (st.(nameToId := st.nameToId[name := id], idToName := st.idToName[id := name], counts := st.counts + [0]), id)
  }

  function Subscribe(st: State, x: Sub, l: nat): Res
  {
    if x.signal >= |st.counts| then Res(st, Some(InvalidSignal))
    else if ListOf(st, x) != [] && x in st.stack then Res(st, Some(Firing))
    else if l in ListOf(st, x) then Res(st, Some(AlreadySubscribed))
    else
      Res(st.(tables := st.tables[x.comp := SetList(TableOf(st, x.comp), x.signal, ListOf(st, x) + [l])],
              counts := st.counts[x.signal := st.counts[x.signal] + 1],
              subs := st.subs[l := SubsOf(st, l) + [x]]), None)
  }

  function Unsubscribe(st: State, x: Sub, l: nat): Res
  {
    if x.signal >= |st.counts| then Res(st, Some(InvalidSignal))
    else if ListOf(st, x) == [] then Res(st, None)
    else if x in st.stack then Res(st, Some(Firing))
    else if l !in ListOf(st, x) then Res(st, None)
    else
      Res(st.(tables := st.tables[x.comp := SetList(TableOf(st, x.comp), x.signal, WithoutListener(ListOf(st, x), l))],
              counts := st.counts[x.signal := st.counts[x.signal] - 1],
              subs := st.subs[l := Drop(SubsOf(st, l), x)]), None)
  }

  function MayHaveListeners(st: State, s: nat): bool
    requires s < |st.counts|
  {
    st.counts[s] > 0
  }

  /** The module tree: each component's parent; a parent is one level above its children. */
  datatype Net = Net(parent: map<nat, nat>, level: map<nat, nat>)

  predicate IsTree(net: Net)
  {
    forall c :: c in net.parent ==>
      c in net.level && net.parent[c] in net.level && net.level[net.parent[c]] < net.level[c]
  }

  function Level(net: Net, c: nat): nat
  {
    if c in net.level then net.level[c] else 0
  }

  function HasListeners(net: Net, st: State, c: nat, s: nat): bool
    requires IsTree(net)
    decreases Level(net, c)
  {
    (exists i :: 0 <= i < |TableOf(st, c)| && TableOf(st, c)[i].signal == s)
    || (c in net.parent && HasListeners(net, st, net.parent[c], s))
  }

  // ---------------------------------------------------------------- invariant

  datatype Triple = Triple(comp: nat, signal: nat, listener: nat)

  /** Every entry of every listener list. */
  ghost function Triples(st: State): set<Triple>
  {
    set c, i, j | c in st.tables && 0 <= i < |st.tables[c]| && 0 <= j < |st.tables[c][i].listeners| ::
      Triple(c, st.tables[c][i].signal, st.tables[c][i].listeners[j])
  }

  ghost function ForSignal(ts: set<Triple>, s: nat): set<Triple>
  {
    set t | t in ts && t.signal == s
  }

  ghost predicate TablesOk(st: State)
  {
    forall c :: c in st.tables ==> Sorted(st.tables[c]) && ListsOk(st.tables[c])
  }

  /** A listener's subscriptions are the lists that contain it, each once. */
  ghost predicate Mirrored(st: State)
  {
    && (forall l :: NoRepeats(SubsOf(st, l)))
    && (forall l, x :: x in SubsOf(st, l) <==> l in ListOf(st, x))
  }

  ghost predicate CountsOk(st: State)
  {
    && (forall x :: ListOf(st, x) != [] ==> x.signal < |st.counts|)
    && (forall s :: 0 <= s < |st.counts| ==> st.counts[s] == |ForSignal(Triples(st), s)|)
  }

  /** Names and IDs are in one-to-one correspondence, IDs being 0 .. lastId. */
  ghost predicate NamesOk(st: State)
  {
    && (forall n :: n in st.nameToId ==>
          st.nameToId[n] < |st.counts| && st.nameToId[n] in st.idToName && st.idToName[st.nameToId[n]] == n)
    && (forall i :: i in st.idToName <==> 0 <= i < |st.counts|)
    && (forall i :: i in st.idToName ==> st.idToName[i] in st.nameToId && st.nameToId[st.idToName[i]] == i)
  }

  /** Lists being notified exist, and the stack has not overflowed. */
  ghost predicate StackOk(st: State)
  {
    |st.stack| <= 64 && forall x :: x in st.stack ==> ListOf(st, x) != []
  }

  ghost predicate Inv(st: State)
  {
    TablesOk(st) && Mirrored(st) && CountsOk(st) && NamesOk(st) && StackOk(st)
  }

  lemma TripleMembership(st: State, c: nat, s: nat, l: nat)
    requires TablesOk(st)
    ensures Triple(c, s, l) in Triples(st) <==> l in ListOf(st, Sub(c, s))
  {
    var t := TableOf(st, c);
    if Triple(c, s, l) in Triples(st) {
      var i, j :| c in st.tables && 0 <= i < |t| && 0 <= j < |t[i].listeners|
        && Triple(c, s, l) == Triple(c, t[i].signal, t[i].listeners[j]);
      ListenersAt(t, i);
    }
    if l in ListOf(st, Sub(c, s)) {
      var i := ListenersPresent(t, s);
      var j :| 0 <= j < |t[i].listeners| && t[i].listeners[j] == l;
      assert Triple(c, t[i].signal, t[i].listeners[j]) == Triple(c, s, l);
    }
  }

  lemma {:induction false} DropRemoves(s: seq<Sub>, x: Sub)
    requires NoRepeats(s)
    ensures NoRepeats(Drop(s, x))
    ensures forall y :: y in Drop(s, x) <==> y in s && y != x
  {
    if s != [] {
      assert s == [s[0]] + s[1..];
      DropRemoves(s[1..], x);
      var d := Drop(s[1..], x);
      forall i | 0 <= i < |d|
        ensures d[i] != s[0]
      {
        assert d[i] in s[1..];
      }
    }
  }

  /** Setting one list in one table changes that list only. */
  lemma SetOneList(st: State, x: Sub, ls: seq<nat>)
    requires TablesOk(st) && NoRepeats(ls)
    ensures var st' := st.(tables := st.tables[x.comp := SetList(TableOf(st, x.comp), x.signal, ls)]);
            TablesOk(st') && forall y :: ListOf(st', y) == if y == x then ls else ListOf(st, y)
  {
    SetListOk(TableOf(st, x.comp), x.signal, ls);
  }

  /** Adding or taking away one triple moves exactly one count by one. */
  lemma CountsMove(ts: set<Triple>, t: Triple, s: nat)
    requires t !in ts
    ensures |ForSignal(ts + {t}, s)| == |ForSignal(ts, s)| + (if s == t.signal then 1 else 0)
  {
    if s == t.signal {
      assert ForSignal(ts + {t}, s) == ForSignal(ts, s) + {t};
    } else {
      assert ForSignal(ts + {t}, s) == ForSignal(ts, s);
    }
  }

  lemma TriplesByLists(st: State, st': State, x: Sub, l: nat)
    requires TablesOk(st) && TablesOk(st')
    requires forall y :: y != x ==> ListOf(st', y) == ListOf(st, y)
    requires forall m :: m in ListOf(st', x) <==> m in ListOf(st, x) || m == l
    ensures Triples(st') == Triples(st) + {Triple(x.comp, x.signal, l)}
  {
    forall t: Triple
      ensures t in Triples(st') <==> t in Triples(st) + {Triple(x.comp, x.signal, l)}
    {
      TripleMembership(st, t.comp, t.signal, t.listener);
      TripleMembership(st', t.comp, t.signal, t.listener);
    }
  }

  // ---------------------------------------------------------------- steps keep the invariant

  /** What every operation leaves alone: the stack, and the lists on it. */
  ghost predicate Locked(st: State, st': State)
  {
    && st'.stack == st.stack && |st.counts| <= |st'.counts| && st.log <= st'.log
    && (forall x :: x in st.stack ==> ListOf(st', x) == ListOf(st, x))
  }

  lemma SubscribeLists(st: State, x: Sub, l: nat)
    requires TablesOk(st) && Subscribe(st, x, l).err == None
    ensures forall y :: ListOf(Subscribe(st, x, l).st, y) == if y == x then ListOf(st, x) + [l] else ListOf(st, y)
  {
    ListenersNoRepeats(TableOf(st, x.comp), x.signal);
    SetOneList(st, x, ListOf(st, x) + [l]);
  }

  lemma SubscribeMirrored(st: State, x: Sub, l: nat)
    requires TablesOk(st) && Mirrored(st) && Subscribe(st, x, l).err == None
    ensures Mirrored(Subscribe(st, x, l).st)
  {
    var st' := Subscribe(st, x, l).st;
    SubscribeLists(st, x, l);
    forall m
      ensures NoRepeats(SubsOf(st', m))
    {
      assert NoRepeats(SubsOf(st, m));
      assert m == l ==> x !in SubsOf(st, l);
    }
    forall m, y
      ensures y in SubsOf(st', m) <==> m in ListOf(st', y)
    {
      assert y in SubsOf(st, m) <==> m in ListOf(st, y);
    }
  }

  lemma UnsubscribeMirrored(st: State, x: Sub, l: nat)
    requires TablesOk(st) && Mirrored(st) && Unsubscribe(st, x, l).err == None && l in ListOf(st, x)
    ensures Mirrored(Unsubscribe(st, x, l).st)
  {
    var st' := Unsubscribe(st, x, l).st;
    var ls := WithoutListener(ListOf(st, x), l);
    ListenersNoRepeats(TableOf(st, x.comp), x.signal);
    WithoutListenerRemoves(ListOf(st, x), l);
    SetOneList(st, x, ls);
    assert NoRepeats(SubsOf(st, l));
    DropRemoves(SubsOf(st, l), x);
    forall m
      ensures NoRepeats(SubsOf(st', m))
      ensures forall y :: y in SubsOf(st', m) <==> m in ListOf(st', y)
    {
      assert NoRepeats(SubsOf(st, m));
      assert forall y :: y in SubsOf(st', m) <==> y in SubsOf(st, m) && !(m == l && y == x);
      assert forall y :: m in ListOf(st', y) <==> m in ListOf(st, y) && !(m == l && y == x);
    }
  }

  /** Which calls throw: an ID never given out, a list that is being notified, and, for subscribing, a
      listener that is there already. */
  lemma WhenChangesThrow(st: State, x: Sub, l: nat)
    requires Inv(st)
    ensures var r := Subscribe(st, x, l).err;
            && (r == Some(InvalidSignal) <==> x.signal >= |st.counts|)
            && (r == Some(Firing) <==> x in st.stack)
            && (r == Some(AlreadySubscribed) <==> l in ListOf(st, x) && x !in st.stack)
            && r != Some(StackOverflow) && r != Some(UserError)
    ensures var r := Unsubscribe(st, x, l).err;
            && (r == Some(InvalidSignal) <==> x.signal >= |st.counts|)
            && (r == Some(Firing) <==> x in st.stack)
            && (r.Some? ==> r == Some(InvalidSignal) || r == Some(Firing))
  {
  }

  lemma SubscribeKeepsInv(st: State, x: Sub, l: nat)
    requires Inv(st)
    ensures var r := Subscribe(st, x, l);
            && Inv(r.st) && Locked(st, r.st) && (r.err.Some? ==> r.st == st)
            && (r.err == None ==> ListOf(r.st, x) == ListOf(st, x) + [l])
            && (forall y :: y != x ==> ListOf(r.st, y) == ListOf(st, y))
  {
    var r := Subscribe(st, x, l);
    if r.err == None {
      var ls := ListOf(st, x) + [l];
      ListenersNoRepeats(TableOf(st, x.comp), x.signal);
      SetOneList(st, x, ls);
      TriplesByLists(st, r.st, x, l);
      TripleMembership(st, x.comp, x.signal, l);
      SubscribeMirrored(st, x, l);
      forall s | 0 <= s < |st.counts|
        ensures r.st.counts[s] == |ForSignal(Triples(r.st), s)|
      {
        CountsMove(Triples(st), Triple(x.comp, x.signal, l), s);
      }
    }
  }

  lemma UnsubscribeKeepsInv(st: State, x: Sub, l: nat)
    requires Inv(st)
    ensures var r := Unsubscribe(st, x, l);
            && Inv(r.st) && Locked(st, r.st) && (r.err.Some? ==> r.st == st)
            && (r.err == None ==> forall m :: m in ListOf(r.st, x) <==> m in ListOf(st, x) && m != l)
            && (forall y :: y != x ==> ListOf(r.st, y) == ListOf(st, y))
  {
    var r := Unsubscribe(st, x, l);
    if r.err == None && l in ListOf(st, x) {
      var ls := WithoutListener(ListOf(st, x), l);
      ListenersNoRepeats(TableOf(st, x.comp), x.signal);
      WithoutListenerRemoves(ListOf(st, x), l);
      SetOneList(st, x, ls);
      TriplesByLists(r.st, st, x, l);
      TripleMembership(r.st, x.comp, x.signal, l);
      UnsubscribeMirrored(st, x, l);
      forall s | 0 <= s < |st.counts|
        ensures r.st.counts[s] == |ForSignal(Triples(r.st), s)|
      {
        CountsMove(Triples(r.st), Triple(x.comp, x.signal, l), s);
      }
    }
  }

  lemma RegisterKeepsInv(st: State, name: string)
    requires Inv(st)
    ensures var (st', id) := RegisterSignal(st, name);
            && Inv(st') && Locked(st, st') && (forall x :: ListOf(st', x) == ListOf(st, x))
            && id < |st'.counts| && st'.idToName[id] == name && st'.nameToId[name] == id
            && (forall i :: i in st.idToName ==> st'.idToName[i] == st.idToName[i])
  {
    var (st', id) := RegisterSignal(st, name);
    if name !in st.nameToId {
      assert Triples(st') == Triples(st);
      assert forall l :: SubsOf(st', l) == SubsOf(st, l);
      assert forall x :: ListOf(st', x) == ListOf(st, x);
      forall t | t in ForSignal(Triples(st), id)
        ensures false
      {
        TripleMembership(st, t.comp, t.signal, t.listener);
      }
      assert ForSignal(Triples(st'), id) == {};
    }
  }

  // ---------------------------------------------------------------- destruction

  /** cComponent::releaseLocalListeners(): unsubscribes the first listener of the first list
      until the table is empty. An exception ends it. */
  function ReleaseLocalListeners(st: State, c: nat): (r: Res)
    requires Inv(st)
    ensures Inv(r.st) && Locked(st, r.st)
    ensures r.st.log == st.log && (r.err == None ==> TableOf(r.st, c) == [])
    ensures forall y: Sub :: y.comp != c ==> ListOf(r.st, y) == ListOf(st, y)
    decreases Triples(st)
  {
    var t := TableOf(st, c);
    if t == [] then Res(st, None)
    else
      var x := Sub(c, t[0].signal);
      var l := t[0].listeners[0];
      UnsubscribeKeepsInv(st, x, l);
      var r := Unsubscribe(st, x, l);
      ReleaseShrinks(st, x, l);
      if r.err.Some? then r else ReleaseLocalListeners(r.st, c)
  }

  lemma ReleaseShrinks(st: State, x: Sub, l: nat)
    requires Inv(st) && TableOf(st, x.comp) != [] && TableOf(st, x.comp)[0].signal == x.signal
    requires l == TableOf(st, x.comp)[0].listeners[0]
    ensures Unsubscribe(st, x, l).err == None ==> Triples(Unsubscribe(st, x, l).st) < Triples(st)
  {
    var r := Unsubscribe(st, x, l);
    UnsubscribeKeepsInv(st, x, l);
    ListenersAt(TableOf(st, x.comp), 0);
    assert l in ListOf(st, x);
    if r.err == None {
      ListenersNoRepeats(TableOf(st, x.comp), x.signal);
      WithoutListenerRemoves(ListOf(st, x), l);
      SetOneList(st, x, WithoutListener(ListOf(st, x), l));
      TriplesByLists(r.st, st, x, l);
      TripleMembership(r.st, x.comp, x.signal, l);
    }
  }

  lemma UnsubscribeShrinksSubs(st: State, x: Sub, l: nat)
    requires Inv(st)
    ensures var r := Unsubscribe(st, x, l);
            && (forall y :: y in SubsOf(r.st, l) ==> y in SubsOf(st, l))
            && (r.err == None ==> x !in SubsOf(r.st, l))
  {
    UnsubscribeKeepsInv(st, x, l);
    var r := Unsubscribe(st, x, l);
    forall y | y in SubsOf(r.st, l)
      ensures y in SubsOf(st, l)
    {
      assert l in ListOf(r.st, y);
    }
  }

  /** cIListener::unsubscribeAll() walks over a copy of the subscriptions vector. */
  function UnsubscribeEach(st: State, copy: seq<Sub>, l: nat): (r: Res)
    requires Inv(st)
    ensures Inv(r.st) && Locked(st, r.st)
    ensures r.st.log == st.log && (r.err == None ==> forall x :: x in copy ==> x !in SubsOf(r.st, l))
    ensures forall x :: x in SubsOf(r.st, l) ==> x in SubsOf(st, l)
    ensures forall m, x :: m != l ==> (m in ListOf(r.st, x) <==> m in ListOf(st, x))
    decreases copy
  {
    if copy == [] then Res(st, None)
    else
      UnsubscribeKeepsInv(st, copy[0], l);
      UnsubscribeShrinksSubs(st, copy[0], l);
      var r := Unsubscribe(st, copy[0], l);
      if r.err.Some? then r else UnsubscribeEach(r.st, copy[1..], l)
  }

  lemma HasMember(s: seq<Sub>)
    requires s != []
    ensures exists x :: x in s
  {
    assert s[0] in s;
  }

  lemma ClearedVectorKeepsInv(st: State, l: nat)
    requires Inv(st) && forall x :: x !in SubsOf(st, l)
    ensures var st' := st.(subs := st.subs[l := []]);
            && Inv(st') && Locked(st, st') && SubsOf(st', l) == [] && (forall x :: l !in ListOf(st', x))
            && forall x :: ListOf(st', x) == ListOf(st, x)
  {
    var st' := st.(subs := st.subs[l := []]);
    if SubsOf(st, l) != [] {
      HasMember(SubsOf(st, l));
    }
    assert forall m :: SubsOf(st', m) == SubsOf(st, m);
    assert forall x :: ListOf(st', x) == ListOf(st, x);
    assert Triples(st') == Triples(st);
  }

  /** After unsubscribeAll() no list anywhere names the listener, and every list has all the others
      that it had. */
  function UnsubscribeAll(st: State, l: nat): (r: Res)
    requires Inv(st)
    ensures Inv(r.st) && Locked(st, r.st) && r.st.log == st.log
    ensures r.err == None ==> SubsOf(r.st, l) == [] && forall x :: l !in ListOf(r.st, x)
    ensures forall m, x :: m != l ==> (m in ListOf(r.st, x) <==> m in ListOf(st, x))
  {
    var r := UnsubscribeEach(st, SubsOf(st, l), l);
    if r.err.Some? then r
    else
      ClearedVectorKeepsInv(r.st, l);
      Res(r.st.(subs := r.st.subs[l := []]), None)
  }

  // ---------------------------------------------------------------- queries

  /** c, its parent, its parent's parent, and so on up to the root. */
  function Ancestors(net: Net, c: nat): seq<nat>
    requires IsTree(net)
    decreases Level(net, c)
  {
    [c] + if c in net.parent then Ancestors(net, net.parent[c]) else []
  }

  /** hasListeners() is true exactly when some list at the component or an ancestor has a
      listener for the signal. */
  lemma {:induction false} HasListenersIsAncestorSearch(net: Net, st: State, c: nat, s: nat)
    requires IsTree(net) && Inv(st)
    ensures HasListeners(net, st, c, s) <==> exists a :: a in Ancestors(net, c) && ListOf(st, Sub(a, s)) != []
    decreases Level(net, c)
  {
    var t := TableOf(st, c);
    if ListOf(st, Sub(c, s)) != [] {
      var i := ListenersPresent(t, s);
      assert c in Ancestors(net, c);
    } else {
      forall i | 0 <= i < |t|
        ensures t[i].signal != s
      {
        ListenersAt(t, i);
      }
    }
    if c in net.parent {
      HasListenersIsAncestorSearch(net, st, net.parent[c], s);
      assert forall a :: a in Ancestors(net, net.parent[c]) ==> a in Ancestors(net, c);
    }
  }

  /** mayHaveListeners() is true exactly when the signal has a listener somewhere: it never
      denies a listener that an emit() from anywhere would have to notify. */
  lemma MayHaveListenersIsExact(st: State, s: nat)
    requires Inv(st) && s < |st.counts|
    ensures MayHaveListeners(st, s) <==> exists c :: ListOf(st, Sub(c, s)) != []
  {
    var ts := ForSignal(Triples(st), s);
    if ts != {} {
      var t :| t in ts;
      TripleMembership(st, t.comp, t.signal, t.listener);
      assert ListOf(st, Sub(t.comp, s)) != [];
    }
    forall c | ListOf(st, Sub(c, s)) != []
      ensures ts != {}
    {
      TripleMembership(st, c, s, ListOf(st, Sub(c, s))[0]);
      assert Triple(c, s, ListOf(st, Sub(c, s))[0]) in ts;
    }
  }

  lemma HasListenersImpliesMayHave(net: Net, st: State, c: nat, s: nat)
    requires IsTree(net) && Inv(st) && HasListeners(net, st, c, s)
    ensures s < |st.counts| && MayHaveListeners(st, s)
  {
    HasListenersIsAncestorSearch(net, st, c, s);
    var a :| a in Ancestors(net, c) && ListOf(st, Sub(a, s)) != [];
    assert Sub(a, s).signal < |st.counts|;
    MayHaveListenersIsExact(st, s);
  }

  /** The registry at program start. */
  lemma EmptyRegistry()
    ensures Inv(State(map[], map[], map[], map[], [], [], []))
  {
    var st := State(map[], map[], map[], map[], [], [], []);
    assert forall x :: ListOf(st, x) == [];
    assert forall l :: SubsOf(st, l) == [];
  }
}
