/**
 What the future event set promises: removal in scheduling order. The buffer-plus-heap layout
 drains in that order exactly when it is Ordered, and insert() keeps it Ordered exactly when
 no buffered event has to wait for the new one.
 */
module FesTheory {
  import opened Events
  import opened FesModel
  import opened Options

  ghost predicate Ordered(f: Fes)
  {
    && Ascending(f.cb)
    && forall i, h :: 0 <= i < |f.cb| && h in f.heap ==> Precedes(f.cb[i], h)
  }

  /** The removal sequence: removeFirst() until the FES is empty. */
  ghost function Drain(f: Fes): seq<Key>
    decreases |f.cb| + |f.heap|
  {
    match PeekFirst(f)
    case None => []
    case Some(k) => [k] + Drain(RemoveFirst(f))
  }

  /** peekFirst() returns the event that precedes all others, wherever it is stored. */
  lemma FrontIsLeast(f: Fes)
    requires WellFormed(f) && Ordered(f)
    ensures PeekFirst(f) == None <==> Contents(f) == {}
    ensures PeekFirst(f).Some? ==> IsLeast(PeekFirst(f).value, Contents(f))
  {
    if f.cb != [] {
      assert f.cb[0] in ToSet(f.cb);
      forall x | x in Contents(f) && x != f.cb[0]
        ensures Precedes(f.cb[0], x)
      {
        if x in f.cb {
          var i :| 0 <= i < |f.cb| && f.cb[i] == x;
        }
      }
    } else {
      assert Contents(f) == f.heap;
    }
  }

  /** On the fields: what peekFirst() presents is due no later than anything stored; of what is due
      at the same time it has the smallest priority, and among equals it was inserted first. */
  lemma FrontIsDueFirst(f: Fes, x: Key)
    requires WellFormed(f) && Ordered(f) && PeekFirst(f).Some? && x in Contents(f)
    ensures var k := PeekFirst(f).value;
            && k.time <= x.time
            && (k.time == x.time ==> k.priority <= x.priority)
            && (k.time == x.time && k.priority == x.priority ==> k.order <= x.order)
  {
    FrontIsLeast(f);
  }

  /** The same of a whole listing in scheduling order. */
  lemma AscendingOnFields(s: seq<Key>, i: nat, j: nat)
    requires Ascending(s) && i < j < |s|
    ensures s[i].time <= s[j].time
    ensures s[i].time == s[j].time ==> s[i].priority <= s[j].priority
    ensures s[i].time == s[j].time && s[i].priority == s[j].priority ==> s[i].order < s[j].order
  {
    assert Precedes(s[i], s[j]);
  }

  lemma RemoveFirstTakesFront(f: Fes)
    requires WellFormed(f) && PeekFirst(f).Some?
    ensures PeekFirst(f).value in Contents(f)
    ensures Contents(RemoveFirst(f)) == Contents(f) - {PeekFirst(f).value}
    ensures WellFormed(RemoveFirst(f))
    ensures Ordered(f) ==> Ordered(RemoveFirst(f))
  {
    RemoveFirstWellFormed(f);
    var k := PeekFirst(f).value;
    if f.cb != [] {
      assert f.cb == [f.cb[0]] + f.cb[1..];
      assert ToSet(f.cb) == {k} + ToSet(f.cb[1..]);
    }
  }

  ghost predicate NoRepeats(s: seq<Key>)
  {
    forall i, j :: 0 <= i < j < |s| ==> s[i] != s[j]
  }

  lemma ConsListing(k: Key, s: seq<Key>)
    ensures ToSet([k] + s) == {k} + ToSet(s)
    ensures NoRepeats(s) && k !in ToSet(s) ==> NoRepeats([k] + s)
    ensures Ascending(s) && (forall x :: x in ToSet(s) ==> Precedes(k, x)) ==> Ascending([k] + s)
  {
    assert forall i :: 0 <= i < |s| ==> s[i] in ToSet(s);
  }

  /** Nothing is lost and nothing is duplicated. */
  lemma {:induction false} DrainListsContents(f: Fes)
    requires WellFormed(f)
    ensures ToSet(Drain(f)) == Contents(f)
    ensures NoRepeats(Drain(f))
    decreases |f.cb| + |f.heap|
  {
    if PeekFirst(f).Some? {
      RemoveFirstTakesFront(f);
      DrainListsContents(RemoveFirst(f));
      ListingInFront(f, Drain(RemoveFirst(f)));
    } else {
      EmptyListing(f);
    }
  }

  lemma EmptyListing(f: Fes)
    requires WellFormed(f) && PeekFirst(f) == None
    ensures Drain(f) == [] && Contents(f) == {}
  {
  }

  lemma ListingInFront(f: Fes, rest: seq<Key>)
    requires WellFormed(f) && PeekFirst(f).Some? && NoRepeats(rest) && ToSet(rest) == Contents(RemoveFirst(f))
    ensures var d := [PeekFirst(f).value] + rest; ToSet(d) == Contents(f) && NoRepeats(d)
  {
    RemoveFirstTakesFront(f);
    ConsListing(PeekFirst(f).value, rest);
  }

  lemma {:induction false} DrainStartsWithBuffer(f: Fes)
    ensures Drain(f) == f.cb + Drain(f.(cb := []))
    decreases |f.cb|
  {
    if f.cb != [] {
      DrainStartsWithBuffer(RemoveFirst(f));
      assert f.cb == [f.cb[0]] + f.cb[1..];
    } else {
      assert f.(cb := []) == f;
    }
  }

  lemma {:induction false} OrderedDrainsAscending(f: Fes)
    requires WellFormed(f) && Ordered(f)
    ensures Ascending(Drain(f))
    decreases |f.cb| + |f.heap|
  {
    if PeekFirst(f).Some? {
      FrontIsLeast(f);
      RemoveFirstTakesFront(f);
      OrderedDrainsAscending(RemoveFirst(f));
      DrainListsContents(RemoveFirst(f));
      ConsListing(PeekFirst(f).value, Drain(RemoveFirst(f)));
    }
  }

  /** The removal sequence is the sorted listing of the contents exactly when the FES is Ordered. */
  lemma DrainIsSortedIffOrdered(f: Fes)
    requires WellFormed(f)
    ensures Ascending(Drain(f)) <==> Ordered(f)
  {
    if Ordered(f) {
      OrderedDrainsAscending(f);
    }
    if Ascending(Drain(f)) {
      var g := f.(cb := []);
      DrainStartsWithBuffer(f);
      RemovalWellFormed(f, g);
      DrainListsContents(g);
      forall i, j | 0 <= i < j < |f.cb|
        ensures Precedes(f.cb[i], f.cb[j])
      {
        assert Drain(f)[i] == f.cb[i] && Drain(f)[j] == f.cb[j];
      }
      forall i, h | 0 <= i < |f.cb| && h in f.heap
        ensures Precedes(f.cb[i], h)
      {
        assert h in ToSet(Drain(g));
        var j :| 0 <= j < |Drain(g)| && Drain(g)[j] == h;
        assert Drain(f)[i] == f.cb[i] && Drain(f)[|f.cb| + j] == h;
      }
    }
  }

  lemma NonEmptyListing(t: seq<Key>)
    ensures t != [] ==> t[0] in ToSet(t)
  {
  }

  lemma FirstOfListing(s: seq<Key>, t: seq<Key>)
    requires Ascending(s) && Ascending(t) && ToSet(s) == ToSet(t) && s != []
    ensures t != [] && s[0] == t[0]
  {
    assert s[0] in ToSet(t);
    assert t[0] in ToSet(s);
    var i :| 0 <= i < |t| && t[i] == s[0];
    var j :| 0 <= j < |s| && s[j] == t[0];
    PrecedesIsStrictTotalOrder(s[0], t[0], s[0]);
  }

  /** A set of keys has one ascending listing, so "the" sorted list is well defined. */
  lemma {:induction false} AscendingListingIsUnique(s: seq<Key>, t: seq<Key>)
    requires Ascending(s) && Ascending(t) && ToSet(s) == ToSet(t)
    ensures s == t
    decreases |s|
  {
    NonEmptyListing(t);
    if s != [] {
      FirstOfListing(s, t);
      TailSet(s);
      TailSet(t);
      AscendingListingIsUnique(s[1..], t[1..]);
      assert s == [s[0]] + s[1..] && t == [t[0]] + t[1..];
    }
  }

  lemma TailSet(s: seq<Key>)
    requires s != [] && Ascending(s)
    ensures ToSet(s[1..]) == ToSet(s) - {s[0]}
  {
    forall k | k in s && k != s[0]
      ensures k in s[1..]
    {
      var i :| 0 <= i < |s| && s[i] == k;
      assert s[1..][i - 1] == k;
    }
    forall k | k in s[1..]
      ensures k != s[0] && k in s
    {
      var i :| 0 <= i < |s[1..]| && s[1..][i] == k;
      assert s[i + 1] == k;
      PrecedesIsStrictTotalOrder(s[0], k, k);
    }
  }

  // ---------------------------------------------------------------- insert

  /** insert() with these arguments empties the buffer first. */
  ghost predicate Flushes(f: Fes, time: int, priority: int, now: int)
  {
    f.useCb && time == now && priority < 0
  }

  /** No buffered event is due after the new one, or the buffer is flushed. */
  ghost predicate InsertIsSafe(f: Fes, time: int, priority: int, now: int)
  {
    Flushes(f, time, priority, now) || f.cb == []
    || !Precedes(Key(time, priority, f.count), f.cb[|f.cb| - 1])
  }

  lemma InsertAddsOne(f: Fes, time: int, priority: int, now: int)
    requires WellFormed(f)
    ensures var g, k := Insert(f, time, priority, now), Key(time, priority, f.count);
            WellFormed(g) && Contents(g) == Contents(f) + {k} && k !in Contents(f)
  {
    var k := Key(time, priority, f.count);
    var g := f.(count := f.count + 1);
    StampWellFormed(f, k);
    HeapInsertWellFormed(g, k);
    CbInsertWellFormed(g, k);
    FlushCbWellFormed(g);
    FlushCbKeepsNewStamp(g, k);
    HeapInsertWellFormed(FlushCb(g), k);
    assert Contents(g) == Contents(f);
    assert ToSet(g.cb + [k]) == ToSet(g.cb) + {k};
  }

  /** insert() preserves the order exactly when it is safe. */
  lemma InsertKeepsOrderIffSafe(f: Fes, time: int, priority: int, now: int)
    requires WellFormed(f) && Ordered(f)
    ensures Ordered(Insert(f, time, priority, now)) <==> InsertIsSafe(f, time, priority, now)
  {
    var k := Key(time, priority, f.count);
    var g := Insert(f, time, priority, now);
    if f.cb != [] && !Flushes(f, time, priority, now) {
      var last := f.cb[|f.cb| - 1];
      assert last in Contents(f);
      PrecedesIsStrictTotalOrder(last, k, last);
      if Ordered(g) {
        if g.cb == f.cb {
          assert k in g.heap && Precedes(g.cb[|f.cb| - 1], k);
        } else {
          assert g.cb == f.cb + [k] && Precedes(g.cb[|f.cb| - 1], g.cb[|f.cb|]);
        }
      }
      if InsertIsSafe(f, time, priority, now) {
        forall i | 0 <= i < |f.cb|
          ensures Precedes(f.cb[i], k)
        {
          PrecedesIsStrictTotalOrder(f.cb[i], last, k);
        }
      }
    }
  }

  /** Buffer contents as the class comment describes them: events for the current time. */
  ghost predicate HoldsOnlyNow(f: Fes, now: int)
  {
    forall k :: k in f.cb ==> k.time == now && k.priority == 0
  }

  /** With only current events buffered, and the buffer in use, inserting at or after the
      current time is always safe. */
  lemma InsertIsSafeIfOnlyNow(f: Fes, time: int, priority: int, now: int)
    requires WellFormed(f) && HoldsOnlyNow(f, now) && f.useCb && time >= now
    ensures InsertIsSafe(f, time, priority, now)
  {
    if f.cb != [] {
      assert f.cb[|f.cb| - 1] in Contents(f);
    }
  }

  // ---------------------------------------------------------------- undoing and rearranging

  /** putBackFirst() undoes removeFirst(): the removal sequence is as before, and so is the
      order; it suits any event that precedes everything stored, and only such an event. */
  lemma PutBackUndoesRemove(f: Fes)
    requires WellFormed(f) && Ordered(f) && PeekFirst(f).Some?
    ensures var k := PeekFirst(f).value;
            var g := PutBackFirst(RemoveFirst(f), k);
            MayPutBack(RemoveFirst(f), k) && WellFormed(g) && Ordered(g)
            && Contents(g) == Contents(f) && Drain(g) == Drain(f)
  {
    var k, h := PeekFirst(f).value, RemoveFirst(f);
    var g := PutBackFirst(h, k);
    FrontIsLeast(f);
    RemoveFirstTakesFront(f);
    assert forall x :: x in Contents(h) ==> x.order != k.order;
    PutBackWellFormed(h, k);
    PutBackKeepsOrderIffFirst(h, k);
    assert Contents(g) == Contents(h) + {k};
    assert RemoveFirst(g) == h;
  }

  lemma PutBackKeepsOrderIffFirst(f: Fes, k: Key)
    requires WellFormed(f) && Ordered(f)
    ensures Ordered(PutBackFirst(f, k)) <==> forall x :: x in Contents(f) ==> Precedes(k, x)
  {
    var g := PutBackFirst(f, k);
    if Ordered(g) {
      forall x | x in Contents(f)
        ensures Precedes(k, x)
      {
        if x in f.cb {
          var i :| 0 <= i < |f.cb| && f.cb[i] == x;
          assert g.cb[0] == k && g.cb[i + 1] == x;
        } else {
          assert g.cb[0] == k;
        }
      }
    }
    if forall x :: x in Contents(f) ==> Precedes(k, x) {
      forall i, j | 0 <= i < j < |g.cb|
        ensures Precedes(g.cb[i], g.cb[j])
      {
        assert g.cb[j] == f.cb[j - 1] && f.cb[j - 1] in Contents(f);
      }
    }
  }

  /** flushCb() changes nothing in the removal sequence. */
  lemma FlushKeepsDrain(f: Fes)
    requires WellFormed(f) && Ordered(f)
    ensures WellFormed(FlushCb(f)) && Ordered(FlushCb(f)) && Drain(FlushCb(f)) == Drain(f)
  {
    var g := FlushCb(f);
    FlushCbWellFormed(f);
    OrderedDrainsAscending(f);
    OrderedDrainsAscending(g);
    DrainListsContents(f);
    DrainListsContents(g);
    AscendingListingIsUnique(Drain(f), Drain(g));
  }

  /** Removing a given event takes it out and leaves the rest in order. */
  lemma RemoveKeepsOrder(f: Fes, k: Key)
    requires WellFormed(f) && k in Contents(f)
    ensures WellFormed(Remove(f, k)) && Contents(Remove(f, k)) == Contents(f) - {k}
    ensures Ordered(f) ==> Ordered(Remove(f, k))
  {
    if k in f.cb {
      RemoveFromBuffer(f, k);
    } else {
      RemovalWellFormed(f, Remove(f, k));
    }
  }

  lemma RemoveFromBuffer(f: Fes, k: Key)
    requires WellFormed(f) && k in f.cb
    ensures WellFormed(Remove(f, k)) && Contents(Remove(f, k)) == Contents(f) - {k}
    ensures Ordered(f) ==> Ordered(Remove(f, k))
  {
    var p :| 0 <= p < |f.cb| && f.cb[p] == k;
    RemoveFromCbWellFormed(f, p);
    SetWithout(f.cb, p);
    if Ordered(f) {
      GapKeepsOrder(f, Remove(f, k), p);
    }
  }

  lemma GapKeepsOrder(f: Fes, g: Fes, p: nat)
    requires Ordered(f) && p < |f.cb| && g.heap == f.heap && |g.cb| == |f.cb| - 1
    requires forall k :: 0 <= k < |g.cb| ==> g.cb[k] == f.cb[if k < p then k else k + 1]
    ensures Ordered(g)
  {
  }

  lemma SetWithout(s: seq<Key>, p: nat)
    requires NoRepeats(s) && p < |s|
    ensures ToSet(s[..p] + s[p + 1..]) == ToSet(s) - {s[p]}
  {
    var t := s[..p] + s[p + 1..];
    forall x | x in s && x != s[p]
      ensures x in t
    {
      var i :| 0 <= i < |s| && s[i] == x;
      assert t[if i < p then i else i - 1] == x;
    }
  }

  /** After sort(), get(0), get(1), ... is the removal sequence: the buffer's keys followed by the
      heap array's, when the latter lists the heap in ascending order. */
  lemma SortedListingIsDrain(f: Fes, heapKeys: seq<Key>)
    requires WellFormed(f) && Ordered(f) && Ascending(heapKeys) && ToSet(heapKeys) == f.heap
    ensures f.cb + heapKeys == Drain(f)
  {
    var listing := f.cb + heapKeys;
    forall i, j | 0 <= i < j < |listing|
      ensures Precedes(listing[i], listing[j])
    {
      if i < |f.cb| <= j {
        assert heapKeys[j - |f.cb|] in ToSet(heapKeys);
      }
    }
    assert ToSet(listing) == ToSet(f.cb) + ToSet(heapKeys);
    OrderedDrainsAscending(f);
    DrainListsContents(f);
    AscendingListingIsUnique(listing, Drain(f));
  }

  // ---------------------------------------------------------------- where it goes wrong

  /** The contract "undo for removeFirst()" does not protect against a later, earlier-timed
      insertion: an event for time 10 is taken at time 0 and put back, an event for time 5 is
      inserted, and the FES then presents the event for time 10 first. */
  lemma PutBackThenEarlierInsertIsOutOfOrder()
    ensures var empty := Fes([], {}, 0, true);
            var ten := Insert(empty, 10, 0, 0);
            var back := PutBackFirst(RemoveFirst(ten), Key(10, 0, 0));
            var both := Insert(back, 5, 0, 0);
            && PeekFirst(ten) == Some(Key(10, 0, 0)) && WellFormed(both)
            && Key(5, 0, 1) in Contents(both) && PeekFirst(both) == Some(Key(10, 0, 0))
            && !InsertIsSafe(back, 5, 0, 0) && !Ordered(both)
  {
    var empty := Fes([], {}, 0, true);
    var ten := Insert(empty, 10, 0, 0);
    assert ten.heap == {Key(10, 0, 0)};
    LeastIsUnique(Key(10, 0, 0), ten.heap);
    var back := PutBackFirst(RemoveFirst(ten), Key(10, 0, 0));
    assert back.cb == [Key(10, 0, 0)] && back.heap == {};
    var both := Insert(back, 5, 0, 0);
    assert both.cb == [Key(10, 0, 0)] && both.heap == {Key(5, 0, 1)};
    assert Contents(both) == {Key(10, 0, 0), Key(5, 0, 1)};
    assert !Precedes(both.cb[0], Key(5, 0, 1));
  }
}
