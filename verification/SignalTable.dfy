/**
 The signal table of one component: a vector of listener lists, one for each signal that has
 listeners here, ordered by signal ID.
 */
module SignalTables {

  /** SignalListenerList: the listeners of one signal at one component. */
  datatype Entry = Entry(signal: nat, listeners: seq<nat>)

  predicate NoRepeats<T(==)>(s: seq<T>)
  {
    forall i, j :: 0 <= i < j < |s| ==> s[i] != s[j]
  }

  /** SignalListenerList::gt is the sort order: descending, hence strictly so for distinct IDs. */
  predicate Sorted(t: seq<Entry>)
  {
    forall i, j :: 0 <= i < j < |t| ==> t[i].signal > t[j].signal
  }

  /** No list is empty and no list names a listener twice. */
  predicate ListsOk(t: seq<Entry>)
  {
    forall i :: 0 <= i < |t| ==> t[i].listeners != [] && NoRepeats(t[i].listeners)
  }

  /** The listeners that table t has for signal s. */
  function Listeners(t: seq<Entry>, s: nat): seq<nat>
  {
    if t == [] then []
    else if t[0].signal == s then t[0].listeners
    else Listeners(t[1..], s)
  }

  lemma {:induction false} ListenersAt(t: seq<Entry>, i: nat)
    requires Sorted(t) && i < |t|
    ensures Listeners(t, t[i].signal) == t[i].listeners
    decreases i
  {
    if i > 0 {
      ListenersAt(t[1..], i - 1);
    }
  }

  lemma {:induction false} ListenersOfAbsent(t: seq<Entry>, s: nat)
    requires forall i :: 0 <= i < |t| ==> t[i].signal != s
    ensures Listeners(t, s) == []
  {
    if t != [] {
      ListenersOfAbsent(t[1..], s);
    }
  }

  lemma {:induction false} ListenersPresent(t: seq<Entry>, s: nat) returns (i: nat)
    requires Listeners(t, s) != []
    ensures i < |t| && t[i].signal == s && t[i].listeners == Listeners(t, s)
  {
    if t[0].signal == s {
      i := 0;
    } else {
      i := ListenersPresent(t[1..], s);
      i := i + 1;
    }
  }

  lemma {:induction false} ListenersNoRepeats(t: seq<Entry>, s: nat)
    requires ListsOk(t)
    ensures NoRepeats(Listeners(t, s))
  {
    if Listeners(t, s) != [] {
      var i := ListenersPresent(t, s);
    }
  }

  /** A sorted table without empty lists is determined by what it says about each signal. */
  lemma {:induction false} TableIsExtensional(t: seq<Entry>, u: seq<Entry>)
    requires Sorted(t) && ListsOk(t) && Sorted(u) && ListsOk(u)
    requires forall s :: Listeners(t, s) == Listeners(u, s)
    ensures t == u
    decreases |t|
  {
    if u != [] {
      ListenersAt(u, 0);
      assert Listeners(t, u[0].signal) != [];
    }
    if t != [] {
      ListenersAt(t, 0);
      var i := ListenersPresent(u, t[0].signal);
      var j := ListenersPresent(t, u[0].signal);
      assert t[0] == u[0];
      forall s
        ensures Listeners(t[1..], s) == Listeners(u[1..], s)
      {
        if s == t[0].signal {
          ListenersOfAbsent(t[1..], s);
          ListenersOfAbsent(u[1..], s);
        } else {
          assert Listeners(t, s) == Listeners(u, s);
        }
      }
      TableIsExtensional(t[1..], u[1..]);
    }
  }

  /** t with the list for s set to ls; an empty list means no entry. */
  function SetList(t: seq<Entry>, s: nat, ls: seq<nat>): seq<Entry>
  {
    if t == [] || t[0].signal < s then (if ls == [] then t else [Entry(s, ls)] + t)
    else if t[0].signal == s then (if ls == [] then t[1..] else [Entry(s, ls)] + t[1..])
    else [t[0]] + SetList(t[1..], s, ls)
  }

  lemma {:induction false} SetListSorted(t: seq<Entry>, s: nat, ls: seq<nat>)
    requires Sorted(t)
    ensures Sorted(SetList(t, s, ls))
    ensures forall i :: 0 <= i < |SetList(t, s, ls)| ==>
              SetList(t, s, ls)[i] in t || SetList(t, s, ls)[i] == Entry(s, ls)
  {
    if t != [] && t[0].signal > s {
      SetListSorted(t[1..], s, ls);
    }
  }

  lemma {:induction false} SetListListeners(t: seq<Entry>, s: nat, ls: seq<nat>, x: nat)
    requires Sorted(t)
    ensures Listeners(SetList(t, s, ls), x) == if x == s then ls else Listeners(t, x)
  {
    if t == [] {
    } else if t[0].signal < s {
      ListenersOfAbsent(t, s);
    } else if t[0].signal == s {
      ListenersOfAbsent(t[1..], s);
    } else {
      SetListListeners(t[1..], s, ls, x);
    }
  }

  lemma SetListOk(t: seq<Entry>, s: nat, ls: seq<nat>)
    requires Sorted(t) && ListsOk(t) && NoRepeats(ls)
    ensures Sorted(SetList(t, s, ls)) && ListsOk(SetList(t, s, ls))
    ensures forall x :: Listeners(SetList(t, s, ls), x) == if x == s then ls else Listeners(t, x)
  {
    SetListSorted(t, s, ls);
    forall x
      ensures Listeners(SetList(t, s, ls), x) == if x == s then ls else Listeners(t, x)
    {
      SetListListeners(t, s, ls, x);
    }
    var u := SetList(t, s, ls);
    forall i | 0 <= i < |u|
      ensures u[i].listeners != [] && NoRepeats(u[i].listeners)
    {
      ListenersAt(u, i);
      if u[i].signal == s {
        SetListNotEmpty(t, s, ls, i);
      }
    }
  }

  lemma {:induction false} SetListNotEmpty(t: seq<Entry>, s: nat, ls: seq<nat>, i: nat)
    requires Sorted(t) && i < |SetList(t, s, ls)| && SetList(t, s, ls)[i].signal == s
    ensures ls != []
  {
    assert t != [] ==> forall k :: 0 <= k < |t[1..]| ==> t[1..][k].signal < t[0].signal;
    if t != [] && t[0].signal > s {
      SetListNotEmpty(t[1..], s, ls, i - 1);
    }
  }

  function IndexOf(ls: seq<nat>, l: nat): (k: nat)
    requires l in ls
    ensures k < |ls| && ls[k] == l
  {
    if ls[0] == l then 0 else 1 + IndexOf(ls[1..], l)
  }

  /** removeListener(): the last listener takes the place of the removed one. */
  function RemoveAt(ls: seq<nat>, k: nat): seq<nat>
    requires k < |ls|
  {
    ls[k := ls[|ls| - 1]][..|ls| - 1]
  }

  function WithoutListener(ls: seq<nat>, l: nat): seq<nat>
    requires l in ls
  {
    RemoveAt(ls, IndexOf(ls, l))
  }

  lemma WithoutListenerRemoves(ls: seq<nat>, l: nat)
    requires l in ls && NoRepeats(ls)
    ensures NoRepeats(WithoutListener(ls, l))
    ensures forall m :: m in WithoutListener(ls, l) <==> m in ls && m != l
    ensures |WithoutListener(ls, l)| == |ls| - 1
    ensures forall i :: 0 <= i < |ls| - 1 ==> WithoutListener(ls, l)[i] == if ls[i] == l then ls[|ls| - 1] else ls[i]
  {
    var k, r := IndexOf(ls, l), WithoutListener(ls, l);
    forall m | m in ls && m != l
      ensures m in r
    {
      var i :| 0 <= i < |ls| && ls[i] == m;
      assert r[if i == |ls| - 1 then k else i] == m;
    }
  }
}
