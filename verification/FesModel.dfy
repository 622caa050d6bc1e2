/**
 The future event set as a value: what cEventHeap's operations do to the circular buffer (a
 sequence) and the heap (a set, since nothing outside the class sees the heap's layout).
 EventHeap.dfy proves that the imperative class does exactly this.
 */
module FesModel {
  import opened Events
  import opened Options

  datatype Fes = Fes(cb: seq<Key>, heap: set<Key>, count: nat, useCb: bool)

  ghost function ToSet(s: seq<Key>): set<Key>
  {
    set k | k in s
  }

  ghost function Contents(f: Fes): set<Key>
  {
    ToSet(f.cb) + f.heap
  }

  ghost predicate Ascending(s: seq<Key>)
  {
    forall i, j :: 0 <= i < j < |s| ==> Precedes(s[i], s[j])
  }

  ghost predicate IsLeast(k: Key, s: set<Key>)
  {
    k in s && forall x :: x in s && x != k ==> Precedes(k, x)
  }

  lemma {:induction false} LeastExists(s: set<Key>)
    requires s != {}
    ensures exists k :: IsLeast(k, s)
    decreases |s|
  {
    var x :| x in s;
    if s == {x} {
      assert IsLeast(x, s);
    } else {
      LeastExists(s - {x});
      var y :| IsLeast(y, s - {x});
      var k := if Precedes(x, y) then x else y;
      forall z | z in s && z != k
        ensures Precedes(k, z)
      {
        PrecedesIsStrictTotalOrder(x, y, z);
        assert z == x || z in s - {x};
      }
      assert IsLeast(k, s);
    }
  }

  ghost function Least(s: set<Key>): (k: Key)
    requires s != {}
    ensures IsLeast(k, s)
  {
    LeastExists(s);
    var k :| IsLeast(k, s);
    k
  }

  /** Every stored key is recognisable by its insertion number, which is below the counter. */
  ghost predicate WellFormed(f: Fes)
  {
    && (forall i, j :: 0 <= i < j < |f.cb| ==> f.cb[i] != f.cb[j])
    && (forall k :: k in f.cb ==> k !in f.heap)
    && (forall k :: k in Contents(f) ==> 0 <= k.order < f.count)
    && (forall a, b :: a in Contents(f) && b in Contents(f) && a.order == b.order ==> a == b)
  }

  // ---------------------------------------------------------------- operations

  ghost function HeapInsert(f: Fes, k: Key): Fes
  {
    f.(heap := f.heap + {k})
  }

  /** flushCb(): every buffered event goes to the heap. */
  ghost function FlushCb(f: Fes): Fes
  {
    f.(cb := [], heap := f.heap + ToSet(f.cb))
  }

  /** May an event for the current time with priority 0 go to the buffer? */
  ghost predicate AllLater(heap: set<Key>, now: int)
  {
    forall h :: h in heap ==> h.time > now
  }

  /** Where insert() puts the key k. */
  ghost function Place(f: Fes, k: Key, now: int): Fes
  {
    if !f.useCb then HeapInsert(f, k)
    else if k.time == now && k.priority == 0 && AllLater(f.heap, now) then f.(cb := f.cb + [k])
    else if k.time == now && k.priority < 0 then HeapInsert(FlushCb(f), k)
    else HeapInsert(f, k)
  }

  ghost function Insert(f: Fes, time: int, priority: int, now: int): Fes
  {
    Place(f.(count := f.count + 1), Key(time, priority, f.count), now)
  }

  ghost function PeekFirst(f: Fes): Option<Key>
  {
    if f.cb != [] then Some(f.cb[0])
    else if f.heap != {} then Some(Least(f.heap))
    else None
  }

  ghost function RemoveFirst(f: Fes): Fes
  {
    if f.cb != [] then f.(cb := f.cb[1..])
    else if f.heap != {} then f.(heap := f.heap - {Least(f.heap)})
    else f
  }

  ghost function PutBackFirst(f: Fes, k: Key): Fes
  {
    f.(cb := [k] + f.cb)
  }

  ghost function Without(s: seq<Key>, k: Key): seq<Key>
  {
    if s == [] then []
    else if s[0] == k then s[1..]
    else [s[0]] + Without(s[1..], k)
  }

  ghost function Remove(f: Fes, k: Key): Fes
  {
    if k in f.cb then f.(cb := Without(f.cb, k))
    else f.(heap := f.heap - {k})
  }

  // ---------------------------------------------------------------- well-formedness

  /** k carries the insertion number given out last, and nothing stored carries it. */
  ghost predicate NewStamp(f: Fes, k: Key)
  {
    f.count >= 1 && k.order == f.count - 1 && forall x :: x in Contents(f) ==> x.order < f.count - 1
  }

  lemma StampWellFormed(f: Fes, k: Key)
    requires WellFormed(f) && k.order == f.count
    ensures WellFormed(f.(count := f.count + 1)) && NewStamp(f.(count := f.count + 1), k)
  {
    assert Contents(f.(count := f.count + 1)) == Contents(f);
  }

  lemma HeapInsertWellFormed(f: Fes, k: Key)
    requires WellFormed(f) && NewStamp(f, k)
    ensures WellFormed(HeapInsert(f, k)) && k !in Contents(f)
  {
    assert Contents(HeapInsert(f, k)) == Contents(f) + {k};
  }

  lemma CbInsertWellFormed(f: Fes, k: Key)
    requires WellFormed(f) && NewStamp(f, k)
    ensures WellFormed(f.(cb := f.cb + [k])) && k !in Contents(f)
  {
    assert Contents(f.(cb := f.cb + [k])) == Contents(f) + {k};
  }

  lemma FlushCbWellFormed(f: Fes)
    requires WellFormed(f)
    ensures WellFormed(FlushCb(f)) && Contents(FlushCb(f)) == Contents(f)
  {
    assert Contents(FlushCb(f)) == Contents(f);
  }

  lemma FlushCbKeepsNewStamp(f: Fes, k: Key)
    requires NewStamp(f, k)
    ensures NewStamp(FlushCb(f), k)
  {
  }

  lemma RemovalWellFormed(f: Fes, g: Fes)
    requires WellFormed(f) && g.count == f.count
    requires (forall i, j :: 0 <= i < j < |g.cb| ==> g.cb[i] != g.cb[j])
    requires ToSet(g.cb) <= ToSet(f.cb) && g.heap <= f.heap
    ensures WellFormed(g)
  {
    assert forall k :: k in Contents(g) ==> k in Contents(f);
    forall k | k in g.cb
      ensures k !in g.heap
    {
      assert k in ToSet(f.cb);
    }
  }

  /** k may be put back: it is not stored, and no stored event has its insertion number. */
  ghost predicate MayPutBack(f: Fes, k: Key)
  {
    0 <= k.order < f.count && forall x :: x in Contents(f) ==> x.order != k.order
  }

  lemma PutBackWellFormed(f: Fes, k: Key)
    requires WellFormed(f) && MayPutBack(f, k)
    ensures WellFormed(PutBackFirst(f, k))
  {
    assert Contents(PutBackFirst(f, k)) == Contents(f) + {k};
  }

  lemma {:induction false} WithoutIsRemoval(s: seq<Key>, p: nat)
    requires p < |s| && forall i, j :: 0 <= i < j < |s| ==> s[i] != s[j]
    ensures Without(s, s[p]) == s[..p] + s[p + 1..]
  {
    if p == 0 {
      assert s[..0] + s[1..] == s[1..];
    } else {
      var t := s[1..];
      assert s[0] != s[p] && t[p - 1] == s[p];
      WithoutIsRemoval(t, p - 1);
      assert t[..p - 1] == s[1..p] && t[p..] == s[p + 1..];
      assert [s[0]] + s[1..p] == s[..p];
    }
  }

  lemma LeastIsUnique(k: Key, s: set<Key>)
    requires IsLeast(k, s)
    ensures Least(s) == k
  {
    PrecedesIsStrictTotalOrder(k, Least(s), k);
  }

  lemma RemoveFirstWellFormed(f: Fes)
    requires WellFormed(f)
    ensures WellFormed(RemoveFirst(f))
  {
    RemovalWellFormed(f, RemoveFirst(f));
  }

  lemma RemoveFromCbWellFormed(f: Fes, p: nat)
    requires WellFormed(f) && p < |f.cb|
    ensures var g := Remove(f, f.cb[p]);
            && WellFormed(g) && g == f.(cb := f.cb[..p] + f.cb[p + 1..])
            && forall k :: 0 <= k < |g.cb| ==> g.cb[k] == f.cb[if k < p then k else k + 1]
  {
    WithoutIsRemoval(f.cb, p);
    RemovalWellFormed(f, Remove(f, f.cb[p]));
  }
}
