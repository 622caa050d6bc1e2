/**
 cEvent: the scheduling fields of an event and the scheduling order (arrival time, then
 priority, smaller first, then FES insertion order).
 */
module Events {

  /** The fields the scheduling order looks at. Times are raw simtime_t integers. */
  datatype Key = Key(time: int, priority: int, order: int)

  /** cEvent::shouldPrecede, branch by branch. */
  predicate Precedes(a: Key, b: Key)
  {
    if a.time < b.time then true
    else if a.time > b.time then false
    else if a.priority == b.priority then a.order < b.order
    else if a.priority < b.priority then true
    else if a.priority > b.priority then false
    else a.order < b.order
  }

  /** cEvent::compareBySchedulingOrder, the comparator handed to qsort(). */
  function Compare(a: Key, b: Key): int
  {
    if a.time < b.time then -1
    else if a.time > b.time then 1
    else
      var priorityDiff := a.priority - b.priority;
      if priorityDiff != 0 then priorityDiff
      else if a.order < b.order then -1 else 1
  }

  /** Strict total order on keys, and transitivity. */
  lemma PrecedesIsStrictTotalOrder(a: Key, b: Key, c: Key)
    ensures !Precedes(a, a)
    ensures Precedes(a, b) ==> !Precedes(b, a)
    ensures a != b ==> Precedes(a, b) || Precedes(b, a)
    ensures Precedes(a, b) && Precedes(b, c) ==> Precedes(a, c)
    ensures !Precedes(b, a) && !Precedes(c, b) ==> !Precedes(c, a)
  {
  }

  /** Which of two events goes first, on the fields: the earlier one; of those for the same time the
      one with the smaller priority; of those with the same priority the one inserted first. */
  lemma EarlierThenSmallerThenOlder(a: Key, b: Key)
    ensures Precedes(a, b) <==>
              && a.time <= b.time
              && (a.time == b.time ==> a.priority <= b.priority)
              && (a.time == b.time && a.priority == b.priority ==> a.order < b.order)
    ensures a != b ==> (Compare(a, b) < 0 <==>
              && a.time <= b.time
              && (a.time == b.time ==> a.priority <= b.priority)
              && (a.time == b.time && a.priority == b.priority ==> a.order < b.order))
  {
  }

  /** The comparator qsort() uses and the relation the heap uses are the same order: its sign
      says which of two different keys precedes, whichever way round they are passed. */
  lemma CompareAgreesWithPrecedes(a: Key, b: Key)
    requires a != b
    ensures Compare(a, b) < 0 <==> Precedes(a, b)
    ensures Compare(a, b) > 0 <==> Precedes(b, a)
    ensures Compare(a, b) < 0 <==> Compare(b, a) > 0
  {
  }

  /** A strictly ascending sequence stays so when k is inserted at the first position whose key
      does not compare below it. */
  lemma InsertionKeepsOrder(s: seq<Key>, p: nat, k: Key)
    requires forall i, j :: 0 <= i < j < |s| ==> Compare(s[i], s[j]) < 0
    requires p <= |s| && (forall i :: 0 <= i < p ==> Compare(s[i], k) < 0)
    requires p < |s| ==> s[p] != k && Compare(s[p], k) >= 0
    ensures var t := s[..p] + [k] + s[p..];
            forall i, j :: 0 <= i < j < |t| ==> Compare(t[i], t[j]) < 0
  {
    forall j | p <= j < |s|
      ensures Compare(k, s[j]) < 0
    {
      CompareAgreesWithPrecedes(s[p], k);
      if j > p {
        PrecedesIsStrictTotalOrder(k, s[p], s[j]);
      }
    }
  }

  class Event {
    var arrivalTime: int
    var priority: int
    var heapIndex: int    // -1: not in the FES; i >= 1: heap[i]; -2-i: cb[i]
    var insertOrder: int

    constructor (time: int, priority: int)
      ensures arrivalTime == time && this.priority == priority
      ensures heapIndex == -1 && insertOrder == -1
    {
      arrivalTime := time;
      this.priority := priority;
      heapIndex := -1;
      insertOrder := -1;
    }

    function SortKey(): Key
      reads this`arrivalTime, this`priority, this`insertOrder
    {
      Key(arrivalTime, priority, insertOrder)
    }

    predicate IsScheduled()
      reads this
    {
      heapIndex != -1
    }

    /** Refused, with nothing changed, while the event is in the FES. */
    method SetArrivalTime(t: int) returns (ok: bool)
      modifies this`arrivalTime
      ensures ok <==> !IsScheduled()
      ensures arrivalTime == if ok then t else old(arrivalTime)
    {
      ok := !IsScheduled();
      if ok {
        arrivalTime := t;
      }
    }

    /** Refused, with nothing changed, while the event is in the FES. */
    method SetSchedulingPriority(p: int) returns (ok: bool)
      modifies this`priority
      ensures ok <==> !IsScheduled()
      ensures priority == if ok then p else old(priority)
    {
      if IsScheduled() {
        return false;
      }
      priority := p;
      ok := true;
    }
  }
}
