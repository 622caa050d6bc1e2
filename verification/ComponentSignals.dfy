/**
 A component's signal table updated in place: the linear search, the push_back-and-sort of a
 new entry, the swap-with-last removal of a listener and the erasure of an emptied list.
 */
module ComponentSignals {
  import opened SignalTables

  class Component {
    var signalTable: seq<Entry>

    constructor ()
      ensures signalTable == []
    {
      signalTable := [];
    }

    predicate Valid()
      reads this
    {
      Sorted(signalTable) && ListsOk(signalTable)
    }

    /** The index of the entry for s, or -1. */
    method FindListenerList(s: nat) returns (i: int)
      ensures -1 <= i < |signalTable|
      ensures i >= 0 ==> signalTable[i].signal == s
      ensures i == -1 ==> forall k :: 0 <= k < |signalTable| ==> signalTable[k].signal != s
    {
      for k := 0 to |signalTable|
        invariant forall j :: 0 <= j < k ==> signalTable[j].signal != s
      {
        if signalTable[k].signal == s {
          return k;
        }
      }
      i := -1;
    }

    /** Appends an empty entry for s and restores the order; j is where the entry ends up. */
    method CreateEntry(s: nat) returns (j: nat)
      requires Valid() && forall k :: 0 <= k < |signalTable| ==> signalTable[k].signal != s
      modifies this
      ensures j <= |old(signalTable)| && Sorted(signalTable)
      ensures signalTable == Placed(old(signalTable), j, Entry(s, []))
    {
      ghost var t, e := signalTable, Entry(s, []);
      PlacedAtEnd(t, e);
      signalTable := signalTable + [Entry(s, [])];
      j := |signalTable| - 1;
      while j > 0 && signalTable[j - 1].signal < s
        invariant 0 <= j <= |t| && signalTable == Placed(t, j, e)
        invariant forall a :: j <= a < |t| ==> t[a].signal < s
      {
        ExchangeMovesUp(t, j, e);
        signalTable := signalTable[j := signalTable[j - 1]][j - 1 := signalTable[j]];
        j := j - 1;
      }
      PlacedIsSorted(t, j, e);
    }

    /** findOrCreateListenerList(): what the table says about each signal is unchanged. */
    method FindOrCreateListenerList(s: nat) returns (i: nat)
      requires Valid()
      modifies this
      ensures Sorted(signalTable) && i < |signalTable| && signalTable[i].signal == s
      ensures signalTable[i].listeners == Listeners(old(signalTable), s)
      ensures forall k :: 0 <= k < |signalTable| && k != i ==> signalTable[k] in old(signalTable)
      ensures forall e :: e in old(signalTable) && e.signal != s ==> e in signalTable
    {
      var k := FindListenerList(s);
      if k >= 0 {
        ListenersAt(signalTable, k);
        i := k;
      } else {
        ListenersOfAbsent(signalTable, s);
        ghost var t := signalTable;
        i := CreateEntry(s);
        PlacedKeeps(t, i, Entry(s, []));
      }
    }

    /** addListener() for the list that subscribe() finds or creates: refused if l is in it,
        appended otherwise. */
    method AddListener(s: nat, l: nat) returns (ok: bool)
      requires Valid()
      modifies this
      ensures Valid() && ok == (l !in Listeners(old(signalTable), s))
      ensures signalTable == if ok then SetList(old(signalTable), s, Listeners(old(signalTable), s) + [l])
                             else old(signalTable)
    {
      ghost var t := signalTable;
      ListenersNoRepeats(t, s);
      var i := FindOrCreateListenerList(s);
      var ls := signalTable[i].listeners;
      ok := l !in ls;
      if ok {
        ghost var u := signalTable;
        signalTable := signalTable[i := Entry(s, ls + [l])];
        forall e | e in t && e.signal != s
          ensures e in signalTable
        {
          var k :| 0 <= k < |u| && u[k] == e;
          assert signalTable[k] == e;
        }
        SameAsSetList(t, s, ls + [l], signalTable, i);
      } else {
        SameAsSetList(t, s, ls, signalTable, i);
        SetListSame(t, s);
      }
    }

    /** The position of l in the list at index i, or -1. */
    method FindListener(i: nat, l: nat) returns (k: int)
      requires i < |signalTable|
      ensures -1 <= k < |signalTable[i].listeners|
      ensures k >= 0 ==> signalTable[i].listeners[k] == l
      ensures k == -1 <==> l !in signalTable[i].listeners
    {
      var ls := signalTable[i].listeners;
      for j := 0 to |ls|
        invariant l !in ls[..j]
      {
        if ls[j] == l {
          return j;
        }
      }
      assert ls[..|ls|] == ls;
      k := -1;
    }

    /** removeListener() and, for an emptied list, removeListenerList(). */
    method RemoveListener(s: nat, l: nat) returns (ok: bool)
      requires Valid()
      modifies this
      ensures Valid() && ok == (l in Listeners(old(signalTable), s))
      ensures !ok ==> signalTable == old(signalTable)
      ensures ok ==>
        signalTable == SetList(old(signalTable), s, WithoutListener(Listeners(old(signalTable), s), l))
    {
      ghost var t := signalTable;
      var i := FindListenerList(s);
      if i == -1 {
        ListenersOfAbsent(t, s);
        return false;
      }
      ListenersAt(t, i);
      var k := FindListener(i, l);
      if k == -1 {
        return false;
      }
      ok := true;
      var ls := RemoveAt(signalTable[i].listeners, k);
      assert k == IndexOf(signalTable[i].listeners, l);
      WithoutListenerRemoves(signalTable[i].listeners, l);
      if ls != [] {
        signalTable := signalTable[i := Entry(s, ls)];
        forall e | e in t && e.signal != s
          ensures e in signalTable
        {
          var j :| 0 <= j < |t| && t[j] == e;
          assert signalTable[j] == e;
        }
        SameAsSetList(t, s, ls, signalTable, i);
      } else {
        signalTable := signalTable[..i] + signalTable[i + 1..];
        ErasedIsSetList(t, i);
        ErasedIsOk(t, i);
      }
    }
  }

  /** The table with one more entry, at index j. */
  function Placed(t: seq<Entry>, j: nat, e: Entry): (r: seq<Entry>)
    requires j <= |t|
    ensures |r| == |t| + 1
    ensures forall k :: 0 <= k < |r| ==> r[k] == if k < j then t[k] else if k == j then e else t[k - 1]
  {
    t[..j] + [e] + t[j..]
  }

  lemma PlacedAtEnd(t: seq<Entry>, e: Entry)
    ensures Placed(t, |t|, e) == t + [e]
  {
  }

  lemma PlacedKeeps(t: seq<Entry>, j: nat, e: Entry)
    requires j <= |t|
    ensures forall x :: x in t ==> x in Placed(t, j, e)
    ensures forall k :: 0 <= k < |t| + 1 && k != j ==> Placed(t, j, e)[k] in t
  {
    forall x | x in t
      ensures x in Placed(t, j, e)
    {
      var k :| 0 <= k < |t| && t[k] == x;
      assert Placed(t, j, e)[if k < j then k else k + 1] == x;
    }
  }

  lemma ExchangeMovesUp(t: seq<Entry>, j: nat, e: Entry)
    requires 0 < j <= |t|
    ensures var u := Placed(t, j, e); u[j := u[j - 1]][j - 1 := u[j]] == Placed(t, j - 1, e)
  {
  }

  lemma PlacedIsSorted(t: seq<Entry>, j: nat, e: Entry)
    requires Sorted(t) && j <= |t| && (j > 0 ==> t[j - 1].signal > e.signal)
    requires forall a :: j <= a < |t| ==> t[a].signal < e.signal
    ensures Sorted(Placed(t, j, e))
  {
  }

  function Erased(t: seq<Entry>, i: nat): (r: seq<Entry>)
    requires i < |t|
    ensures |r| == |t| - 1 && forall k :: 0 <= k < |r| ==> r[k] == t[if k < i then k else k + 1]
  {
    t[..i] + t[i + 1..]
  }

  lemma ErasedUnfolds(t: seq<Entry>, i: nat)
    requires 0 < i < |t|
    ensures Erased(t, i) == [t[0]] + Erased(t[1..], i - 1)
  {
  }

  lemma ErasedFirst(t: seq<Entry>)
    requires t != []
    ensures Erased(t, 0) == t[1..]
  {
  }

  lemma {:induction false} ErasedIsSetList(t: seq<Entry>, i: nat)
    requires Sorted(t) && i < |t|
    ensures Erased(t, i) == SetList(t, t[i].signal, [])
  {
    if i == 0 {
      ErasedFirst(t);
    } else {
      ErasedUnfolds(t, i);
      ErasedIsSetList(t[1..], i - 1);
    }
  }

  lemma ErasedIsOk(t: seq<Entry>, i: nat)
    requires Sorted(t) && ListsOk(t) && i < |t|
    ensures Sorted(Erased(t, i)) && ListsOk(Erased(t, i))
  {
  }

  /** A sorted table that has the list ls for s at index i, and otherwise the entries of t. */
  lemma SameAsSetList(t: seq<Entry>, s: nat, ls: seq<nat>, u: seq<Entry>, i: nat)
    requires Sorted(t) && ListsOk(t) && Sorted(u) && i < |u| && u[i] == Entry(s, ls)
    requires ls != [] && NoRepeats(ls)
    requires forall k :: 0 <= k < |u| && k != i ==> u[k] in t
    requires forall e :: e in t && e.signal != s ==> e in u
    ensures u == SetList(t, s, ls) && ListsOk(u)
  {
    SetListOk(t, s, ls);
    forall x
      ensures Listeners(u, x) == Listeners(SetList(t, s, ls), x)
    {
      SameEntries(t, s, u, x, i);
    }
    TableIsExtensional(u, SetList(t, s, ls));
  }

  lemma SameEntries(t: seq<Entry>, s: nat, u: seq<Entry>, x: nat, i: nat)
    requires Sorted(t) && Sorted(u) && i < |u| && u[i].signal == s
    requires forall k :: 0 <= k < |u| && k != i ==> u[k] in t
    requires forall e :: e in t && e.signal != s ==> e in u
    ensures Listeners(u, x) == if x == s then u[i].listeners else Listeners(t, x)
  {
    ListenersAt(u, i);
    if x != s {
      if k :| 0 <= k < |u| && u[k].signal == x {
        ListenersAt(u, k);
        var j :| 0 <= j < |t| && t[j] == u[k];
        ListenersAt(t, j);
      } else {
        ListenersOfAbsent(u, x);
        ListenersOfAbsent(t, x);
      }
    }
  }

  lemma SetListSame(t: seq<Entry>, s: nat)
    requires Sorted(t) && ListsOk(t)
    ensures SetList(t, s, Listeners(t, s)) == t
  {
    ListenersNoRepeats(t, s);
    SetListOk(t, s, Listeners(t, s));
    TableIsExtensional(SetList(t, s, Listeners(t, s)), t);
  }
}
