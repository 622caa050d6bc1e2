/**
 cEventHeap: the binary heap joined to a circular buffer, updated in place. Each method is
 proved against the operation of FesModel of the same name.
 */
module EventHeaps {
  import opened Events
  import opened Bits
  import opened FesModel
  import opened Options
  import HeapOrder
  import FesTheory

  ghost function EventSet(s: seq<Event>): set<Event>
  {
    set e | e in s
  }

  /** The events es are those of he and of ce. */
  ghost predicate AreStoredIn(es: set<Event>, he: set<Event>, ce: seq<Event>)
  {
    && (forall e :: e in es ==> e in he || e in ce)
    && (forall e :: e in he ==> e in es)
    && (forall e :: e in ce ==> e in es)
  }

  lemma EventSetStep(s: seq<Event>, k: nat)
    requires k < |s|
    ensures EventSet(s[..k + 1]) == EventSet(s[..k]) + {s[k]}
  {
  }

  /** The events of es by their keys. */
  ghost function ByKey(ks: seq<Key>, es: seq<Event>): (m: map<Key, Event>)
    requires |ks| == |es| && forall i, j :: 0 <= i < j < |ks| ==> ks[i] != ks[j]
    ensures forall k :: k in m <==> k in ks
    ensures forall i :: 0 <= i < |ks| ==> m[ks[i]] == es[i]
  {
    map i | 0 <= i < |ks| :: ks[i] := es[i]
  }

  /** (head + k) & (size - 1) for the positions that occur, without division. */
  function Slot(head: nat, k: nat, size: nat): nat
    requires head < size && k <= size
  {
    if head + k < size then head + k else head + k - size
  }

  /** Leaving out the element at p of a list without repetitions. */
  lemma ListWithout(s: seq<Event>, p: nat)
    requires p < |s| && forall k, l :: 0 <= k < l < |s| ==> s[k] != s[l]
    ensures var t := s[..p] + s[p + 1..];
            && s[p] !in t
            && (forall e :: e in t ==> e in s)
            && (forall e :: e in s && e != s[p] ==> e in t)
            && (forall k :: 0 <= k < |t| ==> t[k] == s[if k < p then k else k + 1])
  {
  }

  ghost function KeysOf(s: seq<Event>): (ks: seq<Key>)
    reads s
    ensures |ks| == |s| && forall i :: 0 <= i < |s| ==> ks[i] == s[i].SortKey()
  {
    seq(|s|, i requires 0 <= i < |s| reads s => s[i].SortKey())
  }

  ghost predicate AscendingKeys(ks: seq<Key>)
  {
    forall i, j :: 0 <= i < j < |ks| ==> Compare(ks[i], ks[j]) < 0
  }

  method InsertionPoint(r: seq<Event>, x: Event) returns (p: nat)
    ensures p <= |r| && forall i :: 0 <= i < p ==> Compare(KeysOf(r)[i], x.SortKey()) < 0
    ensures p < |r| ==> Compare(KeysOf(r)[p], x.SortKey()) >= 0
  {
    p := 0;
    while p < |r| && Compare(r[p].SortKey(), x.SortKey()) < 0
      invariant 0 <= p <= |r|
      invariant forall i :: 0 <= i < p ==> Compare(KeysOf(r)[i], x.SortKey()) < 0
    {
      p := p + 1;
    }
  }

  lemma Spliced(r: seq<Event>, p: nat, x: Event)
    requires p <= |r|
    ensures var t := r[..p] + [x] + r[p..];
            && multiset(t) == multiset(r) + multiset{x}
            && KeysOf(t) == KeysOf(r)[..p] + [x.SortKey()] + KeysOf(r)[p..]
  {
    assert r == r[..p] + r[p..];
  }

  method InsertSorted(r: seq<Event>, x: Event) returns (t: seq<Event>)
    requires AscendingKeys(KeysOf(r)) && x.SortKey() !in KeysOf(r)
    ensures AscendingKeys(KeysOf(t)) && multiset(t) == multiset(r) + multiset{x}
  {
    var p := InsertionPoint(r, x);
    InsertionKeepsOrder(KeysOf(r), p, x.SortKey());
    Spliced(r, p, x);
    t := r[..p] + [x] + r[p..];
  }

  /** What cEventHeap::sort() gets from the C library: a permutation in comparator order. */
  method QSort(a: seq<Event>) returns (r: seq<Event>)
    requires forall i, j :: 0 <= i < j < |a| ==> a[i].SortKey() != a[j].SortKey()
    ensures multiset(r) == multiset(a) && AscendingKeys(KeysOf(r))
  {
    r := [];
    for n := 0 to |a|
      invariant multiset(r) == multiset(a[..n]) && AscendingKeys(KeysOf(r))
    {
      assert a[..n + 1] == a[..n] + [a[n]];
      assert a[n].SortKey() !in KeysOf(r) by {
        forall i | 0 <= i < |r|
          ensures KeysOf(r)[i] != a[n].SortKey()
        {
          assert r[i] in multiset(a[..n]);
        }
      }
      r := InsertSorted(r, a[n]);
    }
    assert a[..|a|] == a;
  }

  class EventHeap {
    var heap: array<Event?>     // heap[0] is never used
    var heapLength: nat
    var heapCapacity: nat
    var insertCount: nat
    var cb: array<Event?>
    var cbsize: nat
    var cbhead: nat             // inclusive
    var cbtail: nat             // exclusive
    var useCb: bool

    ghost var heapEvents: set<Event>  // the events on the heap
    ghost var keys: seq<Key>          // keys[i] is the sort key of heap[i]
    ghost var cbEvents: seq<Event>    // the events in the buffer, oldest first
    ghost var onHeap: map<Key, Event> // the events on the heap by sort key
    ghost var fes: Fes                // the abstract value
    ghost var events: set<Event>      // all stored events

    // ------------------------------------------------------------ invariant

    /** The heap's slots, with back-pointers exact in both directions; slot j (0: none) is vacant. */
    ghost predicate SlotsAround(j: nat)
      reads this`heap, this`heapLength, this`heapEvents, this`keys, heap, heapEvents
    {
      && heapLength < heap.Length && |keys| == heapLength + 1
      && (forall i :: 1 <= i <= heapLength && i != j ==>
            heap[i] != null && heap[i] in heapEvents && heap[i].heapIndex == i && heap[i].SortKey() == keys[i])
      && (forall e :: e in heapEvents ==>
            1 <= e.heapIndex <= heapLength && e.heapIndex != j && heap[e.heapIndex] == e)
    }

    ghost predicate HeapOk()
      reads this`heap, this`heapLength, this`heapCapacity, this`heapEvents, this`keys
      reads heap, heapEvents
    {
      && 1 <= heapCapacity && heap.Length == heapCapacity + 1
      && SlotsAround(0) && HeapOrder.OrderedExcept(keys, 0)
    }

    /** The buffer's slots; full is allowed so that cbgrow()'s precondition can be stated. */
    ghost predicate CbSlots(full: bool)
      reads this`cb, this`cbsize, this`cbhead, this`cbtail, this`cbEvents
      reads cb, cbEvents`heapIndex
    {
      && PowerOfTwo(cbsize) && cb.Length == cbsize && cbhead < cbsize
      && (if full then |cbEvents| == cbsize else |cbEvents| < cbsize)
      && cbtail == Slot(cbhead, |cbEvents|, cbsize)
      && (forall k :: 0 <= k < |cbEvents| ==>
            var i := Slot(cbhead, k, cbsize);
            cb[i] == cbEvents[k] && cbEvents[k].heapIndex == -2 - i)
    }

    /** The heap part of the abstract value stands for the events he; a sort key identifies an
        event. */
    ghost predicate HeapStandsFor(he: set<Event>)
      reads this`fes, this`onHeap, he`arrivalTime, he`priority, he`insertOrder
    {
      && (forall e :: e in he ==>
            e.SortKey() in fes.heap && e.SortKey() in onHeap && onHeap[e.SortKey()] == e)
      && (forall k :: k in fes.heap ==>
            k in onHeap && onHeap[k] in he && onHeap[k].SortKey() == k)
    }

    /** The buffer part of the abstract value lists the keys of ce. */
    ghost predicate CbStandsFor(ce: seq<Event>)
      reads this`fes, ce`arrivalTime, ce`priority, ce`insertOrder
    {
      |fes.cb| == |ce| && forall k :: 0 <= k < |ce| ==> ce[k].SortKey() == fes.cb[k]
    }

    ghost predicate Represents(he: set<Event>, ce: seq<Event>)
      reads this`fes, this`onHeap, this`insertCount, this`useCb
      reads he`arrivalTime, he`priority, he`insertOrder, ce`arrivalTime, ce`priority, ce`insertOrder
    {
      && HeapStandsFor(he) && CbStandsFor(ce)
      && fes.count == insertCount && fes.useCb == useCb && WellFormed(fes)
    }

    /** Back-pointers are not part of the abstract value. */
    twostate lemma HeapValueKept(he: set<Event>)
      requires old(HeapStandsFor(he)) && fes.heap == old(fes).heap && onHeap == old(onHeap)
      requires forall e :: e in he ==> e.SortKey() == old(e.SortKey())
      ensures HeapStandsFor(he)
    {
    }

    twostate lemma CbValueKept(ce: seq<Event>)
      requires old(CbStandsFor(ce)) && fes.cb == old(fes).cb
      requires forall e :: e in ce ==> e.SortKey() == old(e.SortKey())
      ensures CbStandsFor(ce)
    {
    }

    /** Work on the heap's slots alone leaves the buffer as it was. */
    twostate lemma CbKept()
      requires old(CbSlots(false))
      requires cb == old(cb) && cb[..] == old(cb[..]) && cbsize == old(cbsize)
      requires cbhead == old(cbhead) && cbtail == old(cbtail) && cbEvents == old(cbEvents)
      requires forall e :: e in cbEvents ==> e.heapIndex == old(e.heapIndex)
      ensures CbSlots(false)
    {
    }

    /** Work on the buffer's slots alone leaves the heap as it was. */
    twostate lemma HeapKept()
      requires old(HeapOk())
      requires heap == old(heap) && heap[..] == old(heap[..]) && heapLength == old(heapLength)
      requires heapCapacity == old(heapCapacity) && heapEvents == old(heapEvents) && keys == old(keys)
      requires forall e :: e in heapEvents ==> e.heapIndex == old(e.heapIndex) && e.SortKey() == old(e.SortKey())
      ensures HeapOk()
    {
    }

    ghost predicate Valid()
      reads this, heap, cb, heapEvents, cbEvents
    {
      && heap != cb && HeapOk() && CbSlots(false) && Represents(heapEvents, cbEvents)
      && AreStoredIn(events, heapEvents, cbEvents)
    }

    /** With a capacity of zero the object is not fit for use: no doubling makes room in it. */
    constructor (initialCapacity: nat)
      ensures Valid() <==> initialCapacity >= 1
      ensures fresh(heap) && fresh(cb) && heapCapacity == initialCapacity
      ensures events == {} && fes == Fes([], {}, 0, true)
    {
      heapLength, heapCapacity, insertCount := 0, initialCapacity, 0;
      heap := new Event?[initialCapacity + 1];
      cbsize, cbhead, cbtail, useCb := 4, 0, 0, true;
      cb := new Event?[4];
      heapEvents, cbEvents, keys := {}, [], [Key(0, 0, 0)];
      onHeap, fes, events := map[], Fes([], {}, 0, true), {};
      new;
      assert PowerOfTwo(2);
    }

    // ------------------------------------------------------------ heap

    /** Doubles the heap array; same events in the same slots. */
    method GrowHeap()
      requires HeapOk() && heap != cb
      modifies this`heapCapacity, this`heap
      ensures HeapOk() && heap != cb && fresh(heap)
      ensures heapCapacity == 2 * old(heapCapacity)
    {
      var newHeap := new Event?[2 * heapCapacity + 1];
      for i := 1 to heapLength + 1
        modifies newHeap
        invariant forall k :: 1 <= k < i ==> newHeap[k] == heap[k]
      {
        newHeap[i] := heap[i];
      }
      heapCapacity := heapCapacity * 2;
      heap := newHeap;
    }

    /** Makes room for one more event: the last slot becomes vacant. */
    method OpenSlot(ghost k: Key)
      requires HeapOk() && heap != cb
      modifies this`heapLength, this`heapCapacity, this`heap, this`keys
      ensures heapLength == old(heapLength) + 1 <= heapCapacity && heap.Length == heapCapacity + 1
      ensures SlotsAround(heapLength) && keys == old(keys) + [k]
      ensures heap != cb && (heap == old(heap) || fresh(heap))
    {
      if heapLength + 1 > heapCapacity {
        GrowHeap();
      }
      heapLength := heapLength + 1;
      keys := keys + [k];
    }

    /** Moves the parent of the vacant slot into it. */
    method PullDown(j: nat)
      requires 2 <= j <= heapLength && SlotsAround(j)
      modifies heap, heapEvents`heapIndex, this`keys
      ensures SlotsAround(j / 2) && keys == old(keys)[j := old(keys)[j / 2]]
    {
      heap[j] := heap[j / 2];
      heap[j].heapIndex := j;
      keys := keys[j := keys[j / 2]];
    }

    /** Moves the vacant slot towards the root, from j0, until event fits in it. */
    method FindPlace(j0: nat, event: Event) returns (j: nat)
      requires 1 <= j0 <= heapLength && event !in heapEvents
      requires SlotsAround(j0) && HeapOrder.OrderedAround(keys, j0)
      modifies heap, heapEvents`heapIndex, this`keys
      ensures 1 <= j <= heapLength
      ensures SlotsAround(j) && HeapOrder.OrderedAround(keys, j)
      ensures j > 1 ==> !Precedes(event.SortKey(), keys[j / 2])
      ensures HeapOrder.AboveChildren(old(keys), j0, event.SortKey()) ==>
                HeapOrder.AboveChildren(keys, j, event.SortKey())
    {
      j := j0;
      while j > 1
        invariant 1 <= j <= heapLength
        invariant SlotsAround(j) && HeapOrder.OrderedAround(keys, j)
        invariant HeapOrder.AboveChildren(old(keys), j0, event.SortKey()) ==>
                    HeapOrder.AboveChildren(keys, j, event.SortKey())
      {
        var i := j / 2;
        if !Precedes(event.SortKey(), heap[i].SortKey()) {
          break;
        }
        HeapOrder.PullDown(keys, j, event.SortKey());
        PullDown(j);
        j := i;
      }
    }

    /** Puts event into the vacant slot j. */
    method FillSlot(j: nat, event: Event)
      requires 1 <= j <= heapLength && SlotsAround(j) && event !in heapEvents
      modifies heap, event`heapIndex, this`heapEvents, this`keys
      ensures SlotsAround(0) && keys == old(keys)[j := event.SortKey()]
      ensures heapEvents == old(heapEvents) + {event}
    {
      heap[j] := event;
      event.heapIndex := j;
      heapEvents := heapEvents + {event};
      keys := keys[j := event.SortKey()];
    }

    method HeapInsert(event: Event)
      requires HeapOk() && event !in heapEvents && heap != cb
      modifies this`heapLength, this`heapCapacity, this`heap, this`heapEvents, this`keys
      modifies heap, heapEvents`heapIndex, event`heapIndex
      ensures HeapOk() && heap != cb
      ensures heap == old(heap) || fresh(heap)
      ensures heapEvents == old(heapEvents) + {event}
    {
      HeapOrder.OpenAtEnd(keys, event.SortKey());
      OpenSlot(event.SortKey());
      var j := FindPlace(heapLength, event);
      HeapOrder.Fill(keys, j, event.SortKey());
      FillSlot(j, event);
    }

    /** Exchanges the events at i and j. */
    method SwapSlots(i: nat, j: nat)
      requires SlotsAround(0) && 1 <= i < j <= heapLength
      modifies heap, heapEvents`heapIndex, this`keys
      ensures SlotsAround(0) && keys == old(keys)[j := old(keys)[i]][i := old(keys)[j]]
    {
      var temp := heap[j];
      heap[j] := heap[i];
      heap[j].heapIndex := j;
      heap[i] := temp;
      heap[i].heapIndex := i;
      keys := keys[j := keys[i]][i := keys[j]];
    }

    /** The child of i that shiftup() compares it with. */
    method FirstChild(i: nat) returns (j: nat)
      requires 1 <= i && 2 * i <= heapLength && SlotsAround(0)
      requires HeapOrder.OrderedExcept(keys, i)
      ensures j <= heapLength && j / 2 == i && HeapOrder.AboveChildren(keys, i, keys[j])
      ensures !Precedes(keys[j], keys[i]) ==> HeapOrder.OrderedExcept(keys, 0)
    {
      j := 2 * i;
      if j < heapLength && Precedes(heap[j + 1].SortKey(), heap[j].SortKey()) {
        j := j + 1;
      }
      HeapOrder.SmallerChild(keys, i, j);
    }

    /** shiftup(): sinks the event at from until its children do not precede it. */
    method ShiftUp(from: nat)
      requires 1 <= from && SlotsAround(0)
      requires HeapOrder.OrderedExcept(keys, from) && HeapOrder.GrandchildrenOk(keys, from)
      modifies heap, heapEvents`heapIndex, this`keys
      ensures SlotsAround(0) && HeapOrder.OrderedExcept(keys, 0)
    {
      var i := from;
      while 2 * i <= heapLength
        invariant 1 <= i && SlotsAround(0)
        invariant HeapOrder.OrderedExcept(keys, i) && HeapOrder.GrandchildrenOk(keys, i)
        decreases heapLength - i
      {
        var j := FirstChild(i);
        if !Precedes(heap[j].SortKey(), heap[i].SortKey()) {
          return;
        }
        HeapOrder.SwapDown(keys, i, j);
        SwapSlots(i, j);
        i := j;
      }
      HeapOrder.LeafIsInOrder(keys, i);
    }

    // ------------------------------------------------------------ circular buffer

    ghost predicate DistinctEvents()
      reads this`cbEvents
    {
      forall k, l :: 0 <= k < l < |cbEvents| ==> cbEvents[k] != cbEvents[l]
    }

    /** Position k of the new buffer holds the kth oldest event. */
    ghost predicate CopiedTo(newcb: array<Event?>, k: nat)
      reads this`cbEvents, newcb, cbEvents`heapIndex
    {
      k < |cbEvents| && k < newcb.Length && newcb[k] == cbEvents[k] && cbEvents[k].heapIndex == -2 - k
    }

    method CopyOne(newcb: array<Event?>, i: nat)
      requires cbhead < cbsize == cb.Length == |cbEvents| && PowerOfTwo(cbsize) && DistinctEvents()
      requires newcb != cb && i < cbsize < newcb.Length && cb[Slot(cbhead, i, cbsize)] == cbEvents[i]
      requires forall k {:trigger CopiedTo(newcb, k)} :: 0 <= k < i ==> CopiedTo(newcb, k)
      modifies newcb, cbEvents`heapIndex
      ensures forall k {:trigger CopiedTo(newcb, k)} :: 0 <= k < i + 1 ==> CopiedTo(newcb, k)
    {
      var from := Wrap(cbhead + i, cbsize);
      newcb[i] := cb[from];
      newcb[i].heapIndex := -2 - i;
      forall k | 0 <= k < i
        ensures CopiedTo(newcb, k)
      {
        assert old(CopiedTo(newcb, k));
      }
    }

    /** The loop of cbgrow(): the events go to the start of newcb, oldest first. */
    method CopyCb(newcb: array<Event?>)
      requires CbSlots(true) && DistinctEvents() && newcb != cb && newcb.Length == 2 * cbsize
      modifies newcb, cbEvents`heapIndex
      ensures forall k {:trigger CopiedTo(newcb, k)} :: 0 <= k < cbsize ==> CopiedTo(newcb, k)
    {
      for i := 0 to cbsize
        invariant forall k {:trigger CopiedTo(newcb, k)} :: 0 <= k < i ==> CopiedTo(newcb, k)
      {
        assert cb[Slot(cbhead, i, cbsize)] == cbEvents[i];
        CopyOne(newcb, i);
      }
    }

    /** Doubles the full buffer; the sequence of events in it is unchanged. */
    method CbGrow()
      requires CbSlots(true)
      modifies this`cb, this`cbsize, this`cbhead, this`cbtail, cbEvents`heapIndex
      ensures CbSlots(false) && fresh(cb) && cbsize == 2 * old(cbsize)
    {
      var newsize := 2 * cbsize;
      TwicePowerOfTwo(cbsize);
      var newcb := new Event?[newsize];
      CopyCb(newcb);
      cb := newcb;
      forall k | 0 <= k < cbsize
        ensures newcb[k] == cbEvents[k] && cbEvents[k].heapIndex == -2 - k
      {
        assert CopiedTo(newcb, k);
      }
      cbhead := 0;
      cbtail := cbsize;
      cbsize := newsize;
    }

    method CbInsert(event: Event)
      requires CbSlots(false) && event !in cbEvents
      modifies this`cb, this`cbsize, this`cbhead, this`cbtail, this`cbEvents
      modifies cb, cbEvents`heapIndex, event`heapIndex
      ensures CbSlots(false) && cbEvents == old(cbEvents) + [event]
      ensures cb == old(cb) || fresh(cb)
    {
      cb[cbtail] := event;
      event.heapIndex := -2 - cbtail;
      cbtail := Wrap(cbtail + 1, cbsize);
      cbEvents := cbEvents + [event];
      if cbtail == cbhead {
        CbGrow();
      }
    }

    /** The loop of flushCb(). */
    method CopyCbToHeap()
      requires heap != cb && HeapOk() && CbSlots(false)
      modifies this`heapLength, this`heapCapacity, this`heap, this`heapEvents, this`keys
      modifies heap, heapEvents`heapIndex, cbEvents`heapIndex
      ensures heap != cb && HeapOk()
      ensures heap == old(heap) || fresh(heap)
      ensures heapEvents == old(heapEvents) + EventSet(cbEvents)
    {
      assert forall k, l :: 0 <= k < l < |cbEvents| ==> cbEvents[k] != cbEvents[l];
      var i := cbhead;
      ghost var k := 0;
      while i != cbtail
        invariant 0 <= k <= |cbEvents| && i == Slot(cbhead, k, cbsize)
        invariant heap != cb && HeapOk() && (heap == old(heap) || fresh(heap))
        invariant heapEvents == old(heapEvents) + EventSet(cbEvents[..k])
        invariant forall l :: k <= l < |cbEvents| ==> cbEvents[l] !in heapEvents
        decreases |cbEvents| - k
      {
        assert cb[i] == cbEvents[k];
        EventSetStep(cbEvents, k);
        HeapInsert(cb[i]);
        i := Wrap(i + 1, cbsize);
        k := k + 1;
      }
      assert cbEvents[..k] == cbEvents;
    }

    /** flushCb(): moves all buffered events onto the heap. */
    method FlushCb()
      requires heap != cb && HeapOk() && CbSlots(false)
      modifies this`heapLength, this`heapCapacity, this`heap, this`heapEvents, this`keys
      modifies this`cbtail, this`cbEvents
      modifies heap, heapEvents`heapIndex, cbEvents`heapIndex
      ensures heap != cb && HeapOk() && CbSlots(false) && cbEvents == []
      ensures heap == old(heap) || fresh(heap)
      ensures heapEvents == old(heapEvents) + EventSet(old(cbEvents))
    {
      CopyCbToHeap();
      cbtail := cbhead;
      cbEvents := [];
    }

    // ------------------------------------------------------------ FES operations

    /** The root of the heap is its first event. */
    lemma RootIsLeast()
      requires HeapOk() && Represents(heapEvents, cbEvents) && heapLength > 0
      ensures heap[1] in heapEvents && IsLeast(heap[1].SortKey(), fes.heap)
    {
      forall k | k in fes.heap
        ensures k != keys[1] ==> Precedes(keys[1], k)
      {
        HeapOrder.RootGoesFirst(keys, onHeap[k].heapIndex);
        PrecedesIsStrictTotalOrder(keys[1], k, k);
      }
    }

    method HeapStartsLater(now: int) returns (later: bool)
      requires HeapOk() && Represents(heapEvents, cbEvents)
      ensures later <==> AllLater(fes.heap, now)
    {
      later := heapLength == 0 || heap[1].arrivalTime > now;
      if heapLength > 0 {
        RootIsLeast();
      }
    }

    ghost method RecordOnHeap(event: Event, he: set<Event>)
      requires heap != cb && HeapOk() && CbSlots(false)
      requires heapEvents == he + {event} && event !in he && event !in cbEvents
      requires Represents(he, cbEvents) && NewStamp(fes, event.SortKey())
      requires AreStoredIn(events, he, cbEvents)
      modifies this`onHeap, this`fes, this`events
      ensures Valid() && fes == FesModel.HeapInsert(old(fes), event.SortKey())
      ensures events == old(events) + {event}
    {
      HeapInsertWellFormed(fes, event.SortKey());
      onHeap := onHeap[event.SortKey() := event];
      fes := FesModel.HeapInsert(fes, event.SortKey());
      events := events + {event};
    }

    /** The slots and back-pointers of an insertion on the heap. */
    method PutOnHeap(event: Event)
      requires Valid() && event !in events
      modifies this`heapLength, this`heapCapacity, this`heap, this`heapEvents, this`keys
      modifies heap, heapEvents`heapIndex, event`heapIndex
      ensures heap != cb && HeapOk() && CbSlots(false) && (heap == old(heap) || fresh(heap))
      ensures Represents(old(heapEvents), cbEvents) && heapEvents == old(heapEvents) + {event}
    {
      StoresAreApart();
      HeapInsert(event);
      CbKept();
      HeapValueKept(old(heapEvents));
      CbValueKept(cbEvents);
    }

    method InsertOnHeap(event: Event)
      requires Valid() && event !in events && NewStamp(fes, event.SortKey())
      modifies this`heapLength, this`heapCapacity, this`heap, this`heapEvents, this`keys
      modifies this`onHeap, this`fes, this`events
      modifies heap, events`heapIndex, event`heapIndex
      ensures Valid() && (heap == old(heap) || fresh(heap))
      ensures events == old(events) + {event}
      ensures fes == FesModel.HeapInsert(old(fes), event.SortKey())
    {
      PutOnHeap(event);
      RecordOnHeap(event, old(heapEvents));
    }

    ghost method RecordCb(g: Fes, ce: seq<Event>, es: set<Event>)
      requires heap != cb && HeapOk() && CbSlots(false) && Represents(heapEvents, ce)
      requires g == fes.(cb := g.cb) && WellFormed(g) && |g.cb| == |cbEvents|
      requires forall k :: 0 <= k < |cbEvents| ==> cbEvents[k].SortKey() == g.cb[k]
      requires AreStoredIn(es, heapEvents, cbEvents)
      modifies this`fes, this`events
      ensures Valid() && fes == g && events == es
    {
      fes := g;
      events := es;
    }

    /** The slots and back-pointers of an insertion into the buffer. */
    method PutAtEnd(event: Event)
      requires Valid() && event !in events
      modifies this`cb, this`cbsize, this`cbhead, this`cbtail, this`cbEvents
      modifies cb, cbEvents`heapIndex, event`heapIndex
      ensures heap != cb && HeapOk() && CbSlots(false) && (cb == old(cb) || fresh(cb))
      ensures Represents(heapEvents, old(cbEvents)) && cbEvents == old(cbEvents) + [event]
    {
      CbInsert(event);
      HeapKept();
    }

    method InsertInCb(event: Event)
      requires Valid() && event !in events && NewStamp(fes, event.SortKey())
      modifies this`cb, this`cbsize, this`cbhead, this`cbtail, this`cbEvents, this`fes
      modifies this`events, cb, events`heapIndex, event`heapIndex
      ensures Valid() && (cb == old(cb) || fresh(cb))
      ensures events == old(events) + {event}
      ensures fes == old(fes).(cb := old(fes).cb + [event.SortKey()])
    {
      CbInsertWellFormed(fes, event.SortKey());
      PutAtEnd(event);
      RecordCb(fes.(cb := fes.cb + [event.SortKey()]), old(cbEvents), events + {event});
    }

    ghost method RecordFlush(he: set<Event>, ce: seq<Event>)
      requires heap != cb && HeapOk() && CbSlots(false) && cbEvents == []
      requires Represents(he, ce) && heapEvents == he + EventSet(ce)
      requires AreStoredIn(events, he, ce)
      modifies this`onHeap, this`fes
      ensures Valid() && fes == FesModel.FlushCb(old(fes))
    {
      FlushCbWellFormed(fes);
      onHeap := onHeap + ByKey(fes.cb, ce);
      fes := FesModel.FlushCb(fes);
    }

    /** The slots and back-pointers of flushCb(), before the abstract value follows. */
    method FlushSlots()
      requires Valid()
      modifies this`heapLength, this`heapCapacity, this`heap, this`heapEvents, this`keys
      modifies this`cbtail, this`cbEvents, heap, events`heapIndex
      ensures heap != cb && HeapOk() && CbSlots(false) && (heap == old(heap) || fresh(heap))
      ensures heapEvents == old(heapEvents) + EventSet(old(cbEvents)) && cbEvents == []
      ensures Represents(old(heapEvents), old(cbEvents))
    {
      FlushCb();
      HeapValueKept(old(heapEvents));
      CbValueKept(old(cbEvents));
    }

    method Flush()
      requires Valid()
      modifies this`heapLength, this`heapCapacity, this`heap, this`heapEvents, this`keys
      modifies this`cbtail, this`cbEvents, this`onHeap, this`fes
      modifies heap, events`heapIndex
      ensures Valid() && (heap == old(heap) || fresh(heap))
      ensures fes == FesModel.FlushCb(old(fes))
    {
      FlushSlots();
      RecordFlush(old(heapEvents), old(cbEvents));
    }

    /** The back-pointer tells whether an event is stored here. */
    lemma UnscheduledIsNotStored(event: Event)
      requires Valid() && event.heapIndex == -1
      ensures event !in events
    {
    }

    method Stamp(event: Event)
      requires Valid() && !event.IsScheduled()
      modifies this`insertCount, this`fes, event`insertOrder
      ensures Valid() && event !in events && event.insertOrder == old(insertCount)
      ensures fes == old(fes).(count := old(fes).count + 1) && NewStamp(fes, event.SortKey())
    {
      UnscheduledIsNotStored(event);
      event.insertOrder := insertCount;
      StampWellFormed(fes, event.SortKey());
      insertCount := insertCount + 1;
      fes := fes.(count := fes.count + 1);
      HeapKept();
      CbKept();
      HeapValueKept(heapEvents);
      CbValueKept(cbEvents);
    }

    method InsertEither(event: Event, inCb: bool)
      requires Valid() && event !in events && NewStamp(fes, event.SortKey())
      modifies this, heap, cb, events`heapIndex, event`heapIndex
      ensures Valid() && (heap == old(heap) || fresh(heap)) && (cb == old(cb) || fresh(cb))
      ensures events == old(events) + {event}
      ensures fes == if inCb then old(fes).(cb := old(fes).cb + [event.SortKey()])
                     else FesModel.HeapInsert(old(fes), event.SortKey())
    {
      if inCb {
        InsertInCb(event);
      } else {
        InsertOnHeap(event);
      }
    }

    /** insert()'s choice between buffer and heap; flushes the buffer for a negative priority. */
    method IsEligible(event: Event, now: int) returns (eligible: bool)
      requires Valid() && event !in events && NewStamp(fes, event.SortKey())
      modifies this`heapLength, this`heapCapacity, this`heap, this`heapEvents, this`keys
      modifies this`cbtail, this`cbEvents, this`onHeap, this`fes
      modifies heap, events`heapIndex
      ensures Valid() && (heap == old(heap) || fresh(heap))
      ensures events == old(events) && NewStamp(fes, event.SortKey())
      ensures eligible <==> event.arrivalTime == now && event.priority == 0 && AllLater(old(fes).heap, now)
      ensures fes == if event.arrivalTime == now && event.priority < 0
                     then FesModel.FlushCb(old(fes)) else old(fes)
    {
      eligible := false;
      if event.arrivalTime == now {
        if event.priority == 0 {
          eligible := HeapStartsLater(now);
        } else if event.priority < 0 {
          FlushCbKeepsNewStamp(fes, event.SortKey());
          Flush();
        }
      }
    }

    method InsertStamped(event: Event, now: int)
      requires Valid() && event !in events && NewStamp(fes, event.SortKey())
      modifies this, heap, cb, events`heapIndex, event`heapIndex
      ensures Valid() && (heap == old(heap) || fresh(heap)) && (cb == old(cb) || fresh(cb))
      ensures events == old(events) + {event}
      ensures fes == FesModel.Place(old(fes), event.SortKey(), now)
    {
      if !useCb {
        InsertOnHeap(event);
      } else {
        var eligible := IsEligible(event, now);
        InsertEither(event, eligible);
      }
    }

    method Insert(event: Event, now: int)
      requires Valid() && !event.IsScheduled()
      modifies this, heap, cb, events`heapIndex, event`heapIndex, event`insertOrder
      ensures Valid() && (heap == old(heap) || fresh(heap)) && (cb == old(cb) || fresh(cb))
      ensures events == old(events) + {event} && event.insertOrder == old(fes).count
      ensures fes == FesModel.Insert(old(fes), event.arrivalTime, event.priority, now)
    {
      Stamp(event);
      InsertStamped(event, now);
    }

    // ------------------------------------------------------------ removal

    /** Event a is due no later than e; at the same time, with no greater priority; with the same
        priority, inserted no later. */
    ghost predicate DueFirst(a: Event, e: Event)
      reads a, e
    {
      && a.arrivalTime <= e.arrivalTime
      && (a.arrivalTime == e.arrivalTime ==> a.priority <= e.priority)
      && (a.arrivalTime == e.arrivalTime && a.priority == e.priority ==> a.insertOrder <= e.insertOrder)
    }

    lemma StoredKey(e: Event)
      requires Valid() && e in events
      ensures e.SortKey() in Contents(fes)
    {
      if e in cbEvents {
        var i :| 0 <= i < |cbEvents| && cbEvents[i] == e;
        assert fes.cb[i] == e.SortKey();
      }
    }

    lemma StoredKeys()
      requires Valid()
      ensures WellFormed(fes) && forall e :: e in events ==> e.SortKey() in Contents(fes)
    {
      forall e | e in events
        ensures e.SortKey() in Contents(fes)
      {
        StoredKey(e);
      }
    }

    method PeekFirst() returns (event: Event?)
      requires Valid()
      ensures event == null <==> FesModel.PeekFirst(fes) == None
      ensures event != null ==> event in events && FesModel.PeekFirst(fes) == Some(event.SortKey())
      ensures event != null && FesTheory.Ordered(fes) ==> forall e :: e in events ==> DueFirst(event, e)
    {
      if cbhead != cbtail {
        event := cb[cbhead];
        assert cb[Slot(cbhead, 0, cbsize)] == cbEvents[0];
      } else if heapLength != 0 {
        RootIsLeast();
        event := heap[1];
        LeastIsUnique(event.SortKey(), fes.heap);
      } else {
        event := null;
        assert heapEvents == {};
      }
      StoredKeys();
      if event != null && FesTheory.Ordered(fes) {
        FirstWasFirst(event, fes, events);
      }
    }

    /** heap[heapLength--] */
    method DropLast() returns (fill: Event)
      requires HeapOk() && heapLength > 0
      modifies this`heapLength, this`heapEvents, this`keys
      ensures HeapOk() && heapLength == old(heapLength) - 1
      ensures fill == old(heap[heapLength]) && fill in old(heapEvents)
      ensures heapEvents == old(heapEvents) - {fill}
    {
      fill := heap[heapLength];
      heapLength := heapLength - 1;
      heapEvents := heapEvents - {fill};
      HeapOrder.DropLast(keys);
      keys := keys[..heapLength + 1];
    }

    ghost method Vacate(event: Event)
      requires HeapOk() && event in heapEvents
      modifies this`heapEvents
      ensures 1 <= event.heapIndex <= heapLength
      ensures SlotsAround(event.heapIndex) && HeapOrder.OrderedAround(keys, event.heapIndex)
      ensures heapEvents == old(heapEvents) - {event}
    {
      HeapOrder.Vacate(keys, event.heapIndex);
      heapEvents := heapEvents - {event};
    }

    /** The vacant slot j gets fill, which then sinks to where it belongs. */
    method PlaceAndSink(j: nat, fill: Event)
      requires 1 <= j <= heapLength && heap.Length == heapCapacity + 1
      requires SlotsAround(j) && HeapOrder.OrderedAround(keys, j) && fill !in heapEvents
      requires j > 1 ==> !Precedes(fill.SortKey(), keys[j / 2])
      modifies this`heapEvents, this`keys, heap, heapEvents`heapIndex, fill`heapIndex
      ensures HeapOk() && heapEvents == old(heapEvents) + {fill}
    {
      HeapOrder.Fill(keys, j, fill.SortKey());
      FillSlot(j, fill);
      ShiftUp(j);
    }

    /** The vacant slot out gets fill, which then moves to where it belongs. */
    method Refill(out: nat, fill: Event)
      requires 1 <= out <= heapLength && heap.Length == heapCapacity + 1
      requires SlotsAround(out) && HeapOrder.OrderedAround(keys, out) && fill !in heapEvents
      modifies this`heapEvents, this`keys, heap, heapEvents`heapIndex, fill`heapIndex
      ensures HeapOk() && heapEvents == old(heapEvents) + {fill}
    {
      var j := FindPlace(out, fill);
      PlaceAndSink(j, fill);
    }

    /** remove() for an event on the heap. */
    method HeapRemove(event: Event)
      requires HeapOk() && event in heapEvents
      modifies this`heapLength, this`heapEvents, this`keys, heap, heapEvents`heapIndex
      ensures HeapOk() && heapEvents == old(heapEvents) - {event} && event.heapIndex == -1
    {
      var fill := DropLast();
      if fill != event {  // otherwise refilling would leave everything in place
        Vacate(event);
        Refill(event.heapIndex, fill);
      }
      event.heapIndex := -1;
    }

    /** removeFirst() for the heap: the last event replaces the root and sinks. */
    method HeapRemoveRoot() returns (event: Event)
      requires HeapOk() && heapLength > 0
      modifies this`heapLength, this`heapEvents, this`keys, heap, heapEvents`heapIndex
      ensures HeapOk() && event == old(heap[1]) && event in old(heapEvents)
      ensures heapEvents == old(heapEvents) - {event} && event.heapIndex == -1
    {
      event := heap[1];
      var fill := DropLast();
      if fill != event {
        Vacate(event);
        PlaceAndSink(1, fill);
      }
      event.heapIndex := -1;
    }

    ghost method RecordHeapRemoval(event: Event)
      requires heap != cb && HeapOk() && CbSlots(false)
      requires event !in heapEvents && event !in cbEvents && Represents(heapEvents + {event}, cbEvents)
      requires AreStoredIn(events, heapEvents + {event}, cbEvents)
      modifies this`fes, this`events
      ensures Valid() && events == old(events) - {event}
      ensures fes == old(fes).(heap := old(fes).heap - {event.SortKey()})
    {
      events := events - {event};
      RemovalWellFormed(fes, fes.(heap := fes.heap - {event.SortKey()}));
      fes := fes.(heap := fes.heap - {event.SortKey()});
      HeapKept();
      CbKept();
      CbValueKept(cbEvents);
    }

    method RemoveRoot() returns (event: Event)
      requires Valid() && heapLength > 0
      modifies this`heapLength, this`heapEvents, this`keys, this`fes, this`events
      modifies heap, events`heapIndex
      ensures Valid() && event in old(events) && events == old(events) - {event} && event.heapIndex == -1
      ensures fes == old(fes).(heap := old(fes).heap - {Least(old(fes).heap)})
      ensures event.SortKey() == Least(old(fes).heap)
    {
      RootIsLeast();
      LeastIsUnique(heap[1].SortKey(), fes.heap);
      assert heap[1] !in cbEvents;
      event := HeapRemoveRoot();
      CbKept();
      HeapValueKept(old(heapEvents));
      CbValueKept(cbEvents);
      assert heapEvents + {event} == old(heapEvents);
      RecordHeapRemoval(event);
    }

    method RemoveFromHeap(event: Event)
      requires Valid() && event in heapEvents
      modifies this`heapLength, this`heapEvents, this`keys, this`fes, this`events
      modifies heap, events`heapIndex
      ensures Valid() && events == old(events) - {event} && event.heapIndex == -1
      ensures fes == FesModel.Remove(old(fes), event.SortKey())
    {
      assert event !in cbEvents && event.SortKey() !in fes.cb;
      HeapRemove(event);
      CbKept();
      HeapValueKept(old(heapEvents));
      CbValueKept(cbEvents);
      assert heapEvents + {event} == old(heapEvents);
      RecordHeapRemoval(event);
    }

    /** removeFirst() for the buffer. */
    method CbRemoveFirst() returns (event: Event)
      requires CbSlots(false) && cbEvents != []
      modifies this`cbhead, this`cbEvents, cbEvents`heapIndex
      ensures CbSlots(false) && event == old(cbEvents)[0] && cbEvents == old(cbEvents)[1..]
      ensures event.heapIndex == -1
    {
      assert cb[Slot(cbhead, 0, cbsize)] == cbEvents[0];
      event := cb[cbhead];
      cbhead := Wrap(cbhead + 1, cbsize);
      event.heapIndex := -1;
      cbEvents := cbEvents[1..];
      assert forall k :: 0 <= k < |cbEvents| ==> Slot(cbhead, k, cbsize) == Slot(old(cbhead), k + 1, cbsize);
    }

    method RemoveCbHead() returns (event: Event)
      requires Valid() && cbEvents != []
      modifies this`cbhead, this`cbEvents, this`fes, this`events, events`heapIndex
      ensures Valid() && event in old(events) && events == old(events) - {event} && event.heapIndex == -1
      ensures fes == old(fes).(cb := old(fes).cb[1..]) && event.SortKey() == old(fes).cb[0]
    {
      event := CbRemoveFirst();
      HeapKept();
      HeapValueKept(heapEvents);
      CbValueKept(old(cbEvents));
      RemovalWellFormed(fes, fes.(cb := fes.cb[1..]));
      RecordCb(fes.(cb := fes.cb[1..]), old(cbEvents), events - {event});
    }

    method RemoveFirst() returns (event: Event?)
      requires Valid()
      modifies this`heapLength, this`heapEvents, this`keys, this`cbhead, this`cbEvents, this`fes, this`events
      modifies heap, events`heapIndex
      ensures Valid() && fes == FesModel.RemoveFirst(old(fes))
      ensures event == null <==> FesModel.PeekFirst(old(fes)) == None
      ensures event == null ==> events == old(events)
      ensures event != null ==>
        event in old(events) && events == old(events) - {event} && !event.IsScheduled()
        && FesModel.PeekFirst(old(fes)) == Some(event.SortKey())
      ensures event != null && FesTheory.Ordered(old(fes)) ==> forall e :: e in old(events) ==> DueFirst(event, e)
    {
      StoredKeys();
      event := TakeFirst();
      if event != null && FesTheory.Ordered(old(fes)) {
        FirstWasFirst(event, old(fes), old(events));
      }
    }

    lemma FirstWasFirst(event: Event, f: Fes, es: set<Event>)
      requires WellFormed(f) && FesTheory.Ordered(f) && FesModel.PeekFirst(f) == Some(event.SortKey())
      requires forall e :: e in es ==> e.SortKey() in Contents(f)
      ensures forall e :: e in es ==> DueFirst(event, e)
    {
      forall e | e in es
        ensures DueFirst(event, e)
      {
        FesTheory.FrontIsDueFirst(f, e.SortKey());
      }
    }

    method TakeFirst() returns (event: Event?)
      requires Valid()
      modifies this`heapLength, this`heapEvents, this`keys, this`cbhead, this`cbEvents, this`fes, this`events
      modifies heap, events`heapIndex
      ensures Valid() && fes == FesModel.RemoveFirst(old(fes))
      ensures event == null <==> FesModel.PeekFirst(old(fes)) == None
      ensures event == null ==> events == old(events)
      ensures event != null ==>
        event in old(events) && events == old(events) - {event} && !event.IsScheduled()
        && FesModel.PeekFirst(old(fes)) == Some(event.SortKey())
    {
      if cbhead != cbtail {
        event := RemoveCbHead();
      } else if heapLength > 0 {
        RootIsLeast();
        event := RemoveRoot();
      } else {
        event := null;
        assert heapEvents == {};
      }
    }

    /** Position k of the buffer holds, and is pointed back at by, the event e. */
    ghost predicate Holds(k: nat, e: Event)
      reads this`cb, this`cbsize, this`cbhead, cb, e
    {
      && cbhead < cbsize == cb.Length && k < cbsize
      && cb[Slot(cbhead, k, cbsize)] == e && e.heapIndex == -2 - Slot(cbhead, k, cbsize)
    }

    /** State of remove()'s loop: the events after position p and before q have moved down. */
    ghost predicate Shifted(p: nat, q: nat)
      reads this`cb, this`cbsize, this`cbhead, this`cbEvents, cb, cbEvents
    {
      && (forall k {:trigger Holds(k, cbEvents[k])} :: 0 <= k < p && k < |cbEvents| ==> Holds(k, cbEvents[k]))
      && (forall k, l {:trigger Holds(l, cbEvents[k])} :: p < k < q && k < |cbEvents| && l == k - 1 ==> Holds(l, cbEvents[k]))
      && (forall k {:trigger Holds(k, cbEvents[k])} :: q <= k < |cbEvents| ==> Holds(k, cbEvents[k]))
    }

    /** One step of remove()'s loop: the event at position q moves one slot down. */
    method MoveDown(to: nat, from: nat, ghost p: nat, ghost q: nat) returns (next: nat)
      requires p < q < |cbEvents| < cbsize == cb.Length && cbhead < cbsize
      requires to == Slot(cbhead, q - 1, cbsize) && from == Slot(cbhead, q, cbsize)
      requires PowerOfTwo(cbsize) && DistinctEvents() && Shifted(p, q)
      modifies cb, cbEvents`heapIndex
      ensures Shifted(p, q + 1) && next == Slot(cbhead, q + 1, cbsize)
    {
      assert Holds(q, cbEvents[q]);
      cb[to] := cb[from];
      cb[to].heapIndex := -2 - to;
      forall k | 0 <= k < p
        ensures Holds(k, cbEvents[k])
      {
        assert old(Holds(k, cbEvents[k]));
      }
      forall k | p < k < q + 1
        ensures Holds(k - 1, cbEvents[k])
      {
        if k < q {
          assert old(Holds(k - 1, cbEvents[k]));
        }
      }
      forall k | q + 1 <= k < |cbEvents|
        ensures Holds(k, cbEvents[k])
      {
        assert old(Holds(k, cbEvents[k]));
      }
      next := Wrap(from + 1, cbsize);
    }

    lemma NothingShiftedYet(p: nat)
      requires CbSlots(false) && p < |cbEvents|
      ensures Shifted(p, p + 1)
    {
      assert forall k :: 0 <= k < |cbEvents| ==> Holds(k, cbEvents[k]);
    }

    /** The loop of remove() for a buffered event at position p. */
    method CloseGap(i0: nat, ghost p: nat)
      requires CbSlots(false) && DistinctEvents()
      requires p < |cbEvents| && i0 == Slot(cbhead, p, cbsize)
      modifies cb, cbEvents`heapIndex
      ensures Shifted(p, |cbEvents|)
    {
      NothingShiftedYet(p);
      var i, iminus1 := i0, i0;
      i := Wrap(i + 1, cbsize);
      ghost var q := p + 1;
      while i != cbtail
        invariant p < q <= |cbEvents| && Shifted(p, q)
        invariant i == Slot(cbhead, q, cbsize) && iminus1 == Slot(cbhead, q - 1, cbsize)
        decreases |cbEvents| - q
      {
        var next := MoveDown(iminus1, i, p, q);
        iminus1, i := i, next;
        q := q + 1;
      }
    }

    /** remove() for a buffered event. */
    method CbRemove(event: Event, ghost p: nat)
      requires CbSlots(false) && p < |cbEvents| && cbEvents[p] == event
      modifies this`cbtail, this`cbEvents, cb, cbEvents`heapIndex
      ensures CbSlots(false) && cbEvents == old(cbEvents)[..p] + old(cbEvents)[p + 1..]
      ensures event.heapIndex == -1
    {
      CloseGap(-event.heapIndex - 2, p);
      cbtail := Wrap(cbtail - 1, cbsize);
      event.heapIndex := -1;
      DropFromList(p);
    }

    ghost method DropFromList(p: nat)
      requires PowerOfTwo(cbsize) && cb.Length == cbsize && cbhead < cbsize
      requires p < |cbEvents| < cbsize && cbtail == Slot(cbhead, |cbEvents| - 1, cbsize)
      requires Shifted(p, |cbEvents|)
      modifies this`cbEvents
      ensures CbSlots(false) && cbEvents == old(cbEvents)[..p] + old(cbEvents)[p + 1..]
    {
      ghost var new' := cbEvents[..p] + cbEvents[p + 1..];
      forall k | 0 <= k < |new'|
        ensures Holds(k, new'[k])
      {
        assert k < p ==> Holds(k, cbEvents[k]);
        assert k >= p ==> Holds(k, cbEvents[k + 1]);
      }
      cbEvents := new';
    }

    ghost method RecordCbRemoval(event: Event, p: nat, ce: seq<Event>)
      requires heap != cb && HeapOk() && CbSlots(false) && Represents(heapEvents, ce)
      requires p < |ce| && ce[p] == event && event !in heapEvents
      requires forall k, l :: 0 <= k < l < |ce| ==> ce[k] != ce[l]
      requires cbEvents == ce[..p] + ce[p + 1..] && AreStoredIn(events, heapEvents, ce)
      modifies this`fes, this`events
      ensures Valid() && events == old(events) - {event}
      ensures fes == FesModel.Remove(old(fes), event.SortKey())
    {
      ListWithout(ce, p);
      RemoveFromCbWellFormed(fes, p);
      RecordCb(FesModel.Remove(fes, event.SortKey()), ce, events - {event});
    }

    /** The signs of the back-pointers tell the two stores apart. */
    lemma StoresAreApart()
      requires HeapOk() && CbSlots(false)
      ensures forall e :: e in heapEvents ==> e !in cbEvents
    {
    }

    /** The slots and back-pointers of remove(), before the abstract value follows. */
    method TakeFromCb(event: Event, ghost p: nat)
      requires Valid() && p < |cbEvents| && cbEvents[p] == event
      modifies this`cbtail, this`cbEvents, cb, cbEvents`heapIndex
      ensures HeapOk() && CbSlots(false) && Represents(heapEvents, old(cbEvents))
      ensures cbEvents == old(cbEvents)[..p] + old(cbEvents)[p + 1..] && event.heapIndex == -1
    {
      StoresAreApart();
      CbRemove(event, p);
      HeapKept();
    }

    method RemoveFromCb(event: Event)
      requires Valid() && event in cbEvents
      modifies this`cbtail, this`cbEvents, this`fes, this`events, cb, events`heapIndex
      ensures Valid() && events == old(events) - {event} && event.heapIndex == -1
      ensures fes == FesModel.Remove(old(fes), event.SortKey())
    {
      ghost var p :| 0 <= p < |cbEvents| && cbEvents[p] == event;
      assert DistinctEvents() && event !in heapEvents;
      TakeFromCb(event, p);
      RecordCbRemoval(event, p, old(cbEvents));
    }

    /** Takes out the given event and no other; nothing happens if it is not scheduled. */
    method Remove(event: Event) returns (removed: Event?)
      requires Valid() && (event.IsScheduled() ==> event in events)
      modifies this`heapLength, this`heapEvents, this`keys, this`cbtail, this`cbEvents, this`fes, this`events
      modifies heap, cb, events`heapIndex
      ensures Valid() && !event.IsScheduled()
      ensures removed == if old(event.IsScheduled()) then event else null
      ensures events == old(events) - {event}
      ensures fes == if removed == null then old(fes) else FesModel.Remove(old(fes), event.SortKey())
    {
      if event.heapIndex == -1 {
        UnscheduledIsNotStored(event);
        return null;
      }
      if event.heapIndex < 0 {
        RemoveFromCb(event);
      } else {
        RemoveFromHeap(event);
      }
      removed := event;
    }

    // ------------------------------------------------------------ putting back

    method CbPutBack(event: Event)
      requires CbSlots(false) && event !in cbEvents
      modifies this`cb, this`cbsize, this`cbhead, this`cbtail, this`cbEvents
      modifies cb, cbEvents`heapIndex, event`heapIndex
      ensures CbSlots(false) && cbEvents == [event] + old(cbEvents)
      ensures cb == old(cb) || fresh(cb)
    {
      cbhead := Wrap(cbhead - 1, cbsize);
      cb[cbhead] := event;
      event.heapIndex := -2 - cbhead;
      assert forall k :: 0 <= k < |cbEvents| ==> Slot(cbhead, k + 1, cbsize) == Slot(old(cbhead), k, cbsize);
      cbEvents := [event] + cbEvents;
      if cbtail == cbhead {
        CbGrow();
      }
    }

    /** The slots and back-pointers of putBackFirst(), before the abstract value follows. */
    method PutInFront(event: Event)
      requires Valid() && event !in events
      modifies this`cb, this`cbsize, this`cbhead, this`cbtail, this`cbEvents
      modifies cb, cbEvents`heapIndex, event`heapIndex
      ensures heap != cb && HeapOk() && CbSlots(false) && (cb == old(cb) || fresh(cb))
      ensures Represents(heapEvents, old(cbEvents)) && cbEvents == [event] + old(cbEvents)
    {
      CbPutBack(event);
      HeapKept();
    }

    /** The event goes to the front of the buffer, whatever its time. */
    method PutBackFirst(event: Event)
      requires Valid() && !event.IsScheduled() && MayPutBack(fes, event.SortKey())
      modifies this`cb, this`cbsize, this`cbhead, this`cbtail, this`cbEvents, this`fes
      modifies this`events, cb, events`heapIndex, event`heapIndex
      ensures Valid() && (cb == old(cb) || fresh(cb)) && event.IsScheduled()
      ensures events == old(events) + {event}
      ensures fes == FesModel.PutBackFirst(old(fes), event.SortKey())
    {
      UnscheduledIsNotStored(event);
      PutBackWellFormed(fes, event.SortKey());
      PutInFront(event);
      assert event.heapIndex == -2 - Slot(cbhead, 0, cbsize);
      RecordCb(FesModel.PutBackFirst(fes, event.SortKey()), old(cbEvents), events + {event});
    }

    // ------------------------------------------------------------ random access

    method IsEmpty() returns (empty: bool)
      requires Valid()
      ensures empty <==> events == {}
    {
      empty := cbhead == cbtail && heapLength == 0;
      if heapLength > 0 {
        assert heap[1] in events;
      } else if cbhead != cbtail {
        assert cbEvents[0] in events;
      } else {
        assert heapEvents == {} && cbEvents == [];
      }
    }

    method CbLength() returns (n: nat)
      requires CbSlots(false)
      ensures n == |cbEvents|
    {
      n := Wrap(cbtail - cbhead, cbsize);
    }

    method GetLength() returns (n: nat)
      requires Valid()
      ensures n == |cbEvents| + heapLength
    {
      var c := CbLength();
      n := c + heapLength;
    }

    /** The kth event: the buffer first, then the heap array. */
    method Get(k: int) returns (event: Event?)
      requires Valid()
      ensures 0 <= k < |cbEvents| ==> event == cbEvents[k]
      ensures |cbEvents| <= k < |cbEvents| + heapLength ==>
        event != null && event in heapEvents && event.heapIndex == k - |cbEvents| + 1
        && event.SortKey() == keys[k - |cbEvents| + 1]
      ensures event == null <==> k < 0 || k >= |cbEvents| + heapLength
    {
      if k < 0 {
        return null;
      }
      var cblen := CbLength();
      if k < cblen {
        var at := Wrap(cbhead + k, cbsize);
        assert at == Slot(cbhead, k, cbsize);
        return cb[at];
      }
      if k - cblen >= heapLength {
        return null;
      }
      event := heap[k - cblen + 1];
    }

    /** The switch may only be thrown while the buffer is empty. */
    method SetUseCb(b: bool) returns (ok: bool)
      requires Valid()
      modifies this`useCb, this`fes
      ensures Valid() && ok == (cbEvents == [])
      ensures fes == if ok then old(fes).(useCb := b) else old(fes)
    {
      ok := cbhead == cbtail;
      if ok {
        useCb := b;
        fes := fes.(useCb := b);
        assert Contents(fes) == Contents(old(fes));
      }
    }

    /** The second loop of sort(). */
    method SetIndexes()
      requires heapLength < heap.Length
      requires forall i :: 1 <= i <= heapLength ==> heap[i] != null && heap[i] in heapEvents
      requires forall i, j :: 1 <= i < j <= heapLength ==> heap[i] != heap[j]
      modifies heapEvents`heapIndex
      ensures forall i {:trigger heap[i]} :: 1 <= i <= heapLength ==> heap[i].heapIndex == i
    {
      for i := 1 to heapLength + 1
        invariant forall k {:trigger heap[k]} :: 1 <= k < i ==> heap[k].heapIndex == k
      {
        heap[i].heapIndex := i;
      }
    }

    method Reindex(ghost r: seq<Event>)
      requires |r| == heapLength && heapLength < heap.Length && |keys| == heapLength + 1
      requires forall i :: 1 <= i <= heapLength ==> heap[i] == r[i - 1]
      requires forall i, j :: 0 <= i < j < |r| ==> r[i] != r[j]
      requires forall e :: e in heapEvents <==> e in r
      modifies heapEvents`heapIndex, this`keys
      ensures SlotsAround(0) && keys == [old(keys)[0]] + KeysOf(r)
    {
      SetIndexes();
      keys := [keys[0]] + KeysOf(r);
      forall e | e in heapEvents
        ensures 1 <= e.heapIndex <= heapLength && heap[e.heapIndex] == e
      {
        var i :| 0 <= i < |r| && r[i] == e;
        assert heap[i + 1] == e;
      }
    }

    method WriteBack(r: seq<Event>)
      requires |r| == heapLength < heap.Length
      modifies heap
      ensures forall i :: 1 <= i <= heapLength ==> heap[i] == r[i - 1]
    {
      for i := 1 to heapLength + 1
        invariant forall k :: 1 <= k < i ==> heap[k] == r[k - 1]
      {
        heap[i] := r[i - 1];
      }
    }

    /** qsort() on the heap array: its events in comparator order. */
    method SortedEvents() returns (r: seq<Event>)
      requires HeapOk() && HeapStandsFor(heapEvents)
      ensures |r| == heapLength && AscendingKeys(KeysOf(r))
      ensures forall e :: e in heapEvents <==> e in r
      ensures forall i, j :: 0 <= i < j < |r| ==> r[i] != r[j]
    {
      var a: seq<Event> := heap[1..heapLength + 1];
      forall i, j | 0 <= i < j < |a|
        ensures a[i].SortKey() != a[j].SortKey()
      {
        assert heap[i + 1] == onHeap[heap[i + 1].SortKey()] && heap[j + 1] == onHeap[heap[j + 1].SortKey()];
      }
      forall e | e in heapEvents
        ensures e in a
      {
        assert a[e.heapIndex - 1] == e;
      }
      r := QSort(a);
      SamePermutation(a, r);
      forall i, j | 0 <= i < j < |r|
        ensures r[i] != r[j]
      {
        assert Compare(KeysOf(r)[i], KeysOf(r)[j]) < 0;
      }
    }

    method SortHeap()
      requires HeapOk() && HeapStandsFor(heapEvents)
      modifies heap, heapEvents`heapIndex, this`keys
      ensures HeapOk() && AscendingKeys(keys[1..])
    {
      var r := SortedEvents();
      ghost var ks := KeysOf(r);
      HeapOrder.SortedIsHeap(keys[0], ks);
      WriteBack(r);
      Reindex(r);
      assert KeysOf(r) == ks == keys[1..];
    }

    /** Sorts the heap array; the abstract value is unchanged. */
    method Sort()
      requires Valid()
      modifies heap, events`heapIndex, this`keys
      ensures Valid() && AscendingKeys(keys[1..]) && ToSet(keys[1..]) == fes.heap
      ensures forall i, j {:trigger heap[i], heap[j]} :: 1 <= i < j <= heapLength ==>
                && heap[i].arrivalTime <= heap[j].arrivalTime
                && (heap[i].arrivalTime == heap[j].arrivalTime ==> heap[i].priority <= heap[j].priority)
                && (heap[i].arrivalTime == heap[j].arrivalTime && heap[i].priority == heap[j].priority ==>
                      heap[i].insertOrder < heap[j].insertOrder)
    {
      SortHeap();
      CbKept();
      HeapValueKept(heapEvents);
      CbValueKept(cbEvents);
      KeysAreHeap();
      SlotsInOrder();
    }

    lemma SlotsInOrder()
      requires HeapOk() && AscendingKeys(keys[1..])
      ensures forall i, j {:trigger heap[i], heap[j]} :: 1 <= i < j <= heapLength ==>
                && heap[i].arrivalTime <= heap[j].arrivalTime
                && (heap[i].arrivalTime == heap[j].arrivalTime ==> heap[i].priority <= heap[j].priority)
                && (heap[i].arrivalTime == heap[j].arrivalTime && heap[i].priority == heap[j].priority ==>
                      heap[i].insertOrder < heap[j].insertOrder)
    {
      forall i, j | 1 <= i < j <= heapLength
        ensures keys[i] != keys[j] && Compare(keys[i], keys[j]) < 0
      {
        assert Compare(keys[1..][i - 1], keys[1..][j - 1]) < 0;
      }
    }

    /** The keys in the heap array are those of the abstract heap. */
    lemma KeysAreHeap()
      requires HeapOk() && HeapStandsFor(heapEvents)
      ensures ToSet(keys[1..]) == fes.heap
    {
      forall k | k in fes.heap
        ensures k in keys[1..]
      {
        assert keys[1..][onHeap[k].heapIndex - 1] == k;
      }
      forall k | k in keys[1..]
        ensures k in fes.heap
      {
        var i :| 0 <= i < heapLength && keys[1..][i] == k;
        assert heap[i + 1] in heapEvents;
      }
    }
  }

  lemma SamePermutation(a: seq<Event>, r: seq<Event>)
    requires multiset(r) == multiset(a)
    ensures |r| == |a| && forall e :: e in r <==> e in a
  {
    assert |multiset(r)| == |multiset(a)|;
    forall e: Event
      ensures e in r <==> e in a
    {
      assert e in r <==> e in multiset(r);
    }
  }
}
