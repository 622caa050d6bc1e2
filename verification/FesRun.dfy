/**
 Whole runs of the simulation kernel over the FES: scheduling, cancelling, taking the next
 event, putting it back, executing it (which moves the clock to its arrival time). Every run
 is shown to behave as one over a plain sorted list.
 */
module FesRun {
  import opened Events
  import opened FesModel
  import opened Options
  import opened FesTheory

  datatype Op =
    | Schedule(time: int, priority: int)
    | Cancel(key: Key)
    | Take
    | PutBack
    | Execute
    | SwitchCb(use: bool)

  /** done lists the events executed so far, oldest first. */
  datatype Sim = Sim(fes: Fes, now: int, taken: Option<Key>, done: seq<Key>)

  /** The reference: a list kept in scheduling order. */
  datatype Ref = Ref(list: seq<Key>, count: nat, now: int, taken: Option<Key>, done: seq<Key>)

  ghost function Start(): Sim
  {
    Sim(Fes([], {}, 0, true), 0, None, [])
  }

  /** What the kernel observes: nothing is scheduled in the past, and between taking an event and
      executing or putting it back nothing else happens. */
  ghost predicate Feasible(s: Sim, op: Op)
  {
    match op
    case Schedule(time, priority) => s.taken == None && time >= s.now
    case Cancel(key) => s.taken == None && key in Contents(s.fes)
    case Take => s.taken == None && PeekFirst(s.fes).Some?
    case PutBack => s.taken.Some?
    case Execute => s.taken.Some?
    case SwitchCb(_) => s.taken == None && s.fes.cb == []
  }

  /** And no event is scheduled ahead of one that sits in the buffer. */
  ghost predicate Legal(s: Sim, op: Op)
  {
    Feasible(s, op) && (op.Schedule? ==> InsertIsSafe(s.fes, op.time, op.priority, s.now))
  }

  ghost function Step(s: Sim, op: Op): Sim
    requires Feasible(s, op)
  {
    match op
    case Schedule(time, priority) => s.(fes := Insert(s.fes, time, priority, s.now))
    case Cancel(key) => s.(fes := Remove(s.fes, key))
    case Take => s.(fes := RemoveFirst(s.fes), taken := PeekFirst(s.fes))
    case PutBack => s.(fes := PutBackFirst(s.fes, s.taken.value), taken := None)
    case Execute => s.(now := s.taken.value.time, taken := None, done := s.done + [s.taken.value])
    case SwitchCb(use) => s.(fes := s.fes.(useCb := use))
  }

  ghost predicate LegalRun(s: Sim, ops: seq<Op>)
    decreases |ops|
  {
    ops == [] || (Legal(s, ops[0]) && LegalRun(Step(s, ops[0]), ops[1..]))
  }

  ghost function Run(s: Sim, ops: seq<Op>): Sim
    requires LegalRun(s, ops)
    decreases |ops|
  {
    if ops == [] then s else Run(Step(s, ops[0]), ops[1..])
  }

  // ---------------------------------------------------------------- reference machine

  ghost function InsertSorted(list: seq<Key>, k: Key): seq<Key>
  {
    if list == [] || Precedes(k, list[0]) then [k] + list
    else [list[0]] + InsertSorted(list[1..], k)
  }

  ghost function RefStep(r: Ref, op: Op): Ref
    requires op.Take? ==> r.list != []
    requires op.PutBack? || op.Execute? ==> r.taken.Some?
  {
    match op
    case Schedule(time, priority) =>
      r.(list := InsertSorted(r.list, Key(time, priority, r.count)), count := r.count + 1)
    case Cancel(key) => r.(list := Without(r.list, key))
    case Take => r.(list := r.list[1..], taken := Some(r.list[0]))
    case PutBack => r.(list := [r.taken.value] + r.list, taken := None)
    case Execute => r.(now := r.taken.value.time, taken := None, done := r.done + [r.taken.value])
    case SwitchCb(_) => r
  }

  ghost predicate RefRunsTo(r: Ref, ops: seq<Op>, r': Ref)
    decreases |ops|
  {
    if ops == [] then r == r'
    else
      && (ops[0].Take? ==> r.list != [])
      && (ops[0].PutBack? || ops[0].Execute? ==> r.taken.Some?)
      && RefRunsTo(RefStep(r, ops[0]), ops[1..], r')
  }

  lemma {:induction false} InsertSortedListing(list: seq<Key>, k: Key)
    requires Ascending(list) && k !in ToSet(list)
    ensures Ascending(InsertSorted(list, k)) && ToSet(InsertSorted(list, k)) == ToSet(list) + {k}
    decreases |list|
  {
    ConsListing(k, list);
    if list != [] {
      assert list == [list[0]] + list[1..];
      ConsListing(list[0], list[1..]);
      PrecedesIsStrictTotalOrder(k, list[0], k);
      if Precedes(k, list[0]) {
        forall x | x in ToSet(list)
          ensures Precedes(k, x)
        {
          var i :| 0 <= i < |list| && list[i] == x;
          PrecedesIsStrictTotalOrder(k, list[0], x);
        }
      } else {
        InsertSortedListing(list[1..], k);
        ConsListing(list[0], InsertSorted(list[1..], k));
        assert list[0] in ToSet(list);
        assert forall x :: x in ToSet(list[1..]) ==> Precedes(list[0], x);
      }
    }
  }

  lemma WithoutListing(list: seq<Key>, k: Key)
    requires Ascending(list) && k in ToSet(list)
    ensures Ascending(Without(list, k)) && ToSet(Without(list, k)) == ToSet(list) - {k}
  {
    var p :| 0 <= p < |list| && list[p] == k;
    assert NoRepeats(list) by {
      forall i, j | 0 <= i < j < |list|
        ensures list[i] != list[j]
      {
        PrecedesIsStrictTotalOrder(list[i], list[j], list[i]);
      }
    }
    WithoutIsRemoval(list, p);
    SetWithout(list, p);
    var t := list[..p] + list[p + 1..];
    forall i, j | 0 <= i < j < |t|
      ensures Precedes(t[i], t[j])
    {
      assert t[i] == list[if i < p then i else i + 1] && t[j] == list[if j < p then j else j + 1];
    }
  }

  // ---------------------------------------------------------------- invariant

  /** The buffer holds events for the current time, but its first may be one put back. */
  ghost predicate BufferInv(s: Sim)
  {
    && (forall i :: (if s.taken == None then 1 else 0) <= i < |s.fes.cb| ==>
          s.fes.cb[i].time == s.now && s.fes.cb[i].priority == 0)
    && (!s.fes.useCb ==> |s.fes.cb| <= if s.taken == None then 1 else 0)
  }

  ghost function Pending(s: Sim): set<Key>
  {
    Contents(s.fes) + (if s.taken == None then {} else {s.taken.value})
  }

  ghost predicate FesInv(s: Sim)
  {
    && WellFormed(s.fes) && Ordered(s.fes)
    && (forall k :: k in Pending(s) ==> k.time >= s.now && 0 <= k.order < s.fes.count)
    && (s.taken.Some? ==> forall k :: k in Contents(s.fes) ==>
          Precedes(s.taken.value, k) && k.order != s.taken.value.order)
  }

  /** d was executed before k gets its turn, and rightly so. */
  ghost predicate GoesBefore(d: Key, k: Key)
  {
    d.time < k.time || (d.time == k.time && (d.priority == k.priority ==> d.order < k.order))
  }

  ghost predicate HistoryInv(s: Sim)
  {
    && (forall i, j :: 0 <= i < j < |s.done| ==> GoesBefore(s.done[i], s.done[j]))
    && (forall i :: 0 <= i < |s.done| ==> s.done[i].time <= s.now && s.done[i].order < s.fes.count)
    && (forall i, k :: 0 <= i < |s.done| && k in Pending(s) ==> GoesBefore(s.done[i], k))
  }

  ghost predicate Inv(s: Sim)
  {
    BufferInv(s) && FesInv(s) && HistoryInv(s)
  }

  /** The reference list holds the same events, and the rest of the state is the same. */
  ghost predicate Refines(s: Sim, r: Ref)
  {
    && Ascending(r.list) && ToSet(r.list) == Contents(s.fes)
    && r.count == s.fes.count && r.now == s.now && r.taken == s.taken && r.done == s.done
  }

  lemma ScheduleStep(s: Sim, time: int, priority: int)
    requires Inv(s) && Legal(s, Schedule(time, priority))
    ensures Inv(Step(s, Schedule(time, priority)))
    ensures var k := Key(time, priority, s.fes.count);
            k !in Contents(s.fes)
            && Contents(Step(s, Schedule(time, priority)).fes) == Contents(s.fes) + {k}
  {
    InsertAddsOne(s.fes, time, priority, s.now);
    InsertKeepsOrderIffSafe(s.fes, time, priority, s.now);
  }

  lemma CancelStep(s: Sim, k: Key)
    requires Inv(s) && Legal(s, Cancel(k))
    ensures Inv(Step(s, Cancel(k)))
    ensures Contents(Step(s, Cancel(k)).fes) == Contents(s.fes) - {k}
  {
    RemoveKeepsOrder(s.fes, k);
    if k in s.fes.cb {
      var p :| 0 <= p < |s.fes.cb| && s.fes.cb[p] == k;
      RemoveFromCbWellFormed(s.fes, p);
    }
  }

  lemma TakeStep(s: Sim)
    requires Inv(s) && Legal(s, Take)
    ensures Inv(Step(s, Take)) && Pending(Step(s, Take)) == Contents(s.fes)
    ensures IsLeast(PeekFirst(s.fes).value, Contents(s.fes))
    ensures Contents(Step(s, Take).fes) == Contents(s.fes) - {PeekFirst(s.fes).value}
  {
    FrontIsLeast(s.fes);
    RemoveFirstTakesFront(s.fes);
  }

  lemma PutBackStep(s: Sim)
    requires Inv(s) && Legal(s, PutBack)
    ensures Inv(Step(s, PutBack))
    ensures Contents(Step(s, PutBack).fes) == Contents(s.fes) + {s.taken.value} == Pending(s)
  {
    var k := s.taken.value;
    PutBackWellFormed(s.fes, k);
    PutBackKeepsOrderIffFirst(s.fes, k);
    assert Contents(PutBackFirst(s.fes, k)) == Contents(s.fes) + {k};
  }

  lemma ExecuteStep(s: Sim)
    requires Inv(s) && Legal(s, Execute)
    ensures Inv(Step(s, Execute)) && s.now <= Step(s, Execute).now
    ensures s.fes.cb != [] ==> Step(s, Execute).now == s.now
  {
    var k := s.taken.value;
    if s.fes.cb != [] {
      assert s.fes.cb[0] in Contents(s.fes);
    }
    forall x | x in Contents(s.fes)
      ensures GoesBefore(k, x)
    {
      assert Precedes(k, x);
    }
  }

  lemma SwitchStep(s: Sim, use: bool)
    requires Inv(s) && Legal(s, SwitchCb(use))
    ensures Inv(Step(s, SwitchCb(use))) && Contents(Step(s, SwitchCb(use)).fes) == Contents(s.fes)
  {
    assert Contents(s.fes.(useCb := use)) == Contents(s.fes);
  }

  lemma StepKeepsInv(s: Sim, op: Op)
    requires Inv(s) && Legal(s, op)
    ensures Inv(Step(s, op))
  {
    match op
    case Schedule(time, priority) => ScheduleStep(s, time, priority);
    case Cancel(key) => CancelStep(s, key);
    case Take => TakeStep(s);
    case PutBack => PutBackStep(s);
    case Execute => ExecuteStep(s);
    case SwitchCb(use) => SwitchStep(s, use);
  }

  // ---------------------------------------------------------------- theorems

  lemma {:induction false} RunKeepsInv(s: Sim, ops: seq<Op>)
    requires Inv(s) && LegalRun(s, ops)
    ensures Inv(Run(s, ops))
    decreases |ops|
  {
    if ops != [] {
      StepKeepsInv(s, ops[0]);
      RunKeepsInv(Step(s, ops[0]), ops[1..]);
    }
  }

  /** In every reachable state peekFirst() shows the event that precedes all others across heap
      and buffer, and draining the FES would list its contents in scheduling order. */
  lemma ReachableStateIsOrdered(ops: seq<Op>)
    requires LegalRun(Start(), ops)
    ensures var f := Run(Start(), ops).fes;
            && WellFormed(f) && Ordered(f) && Ascending(Drain(f)) && ToSet(Drain(f)) == Contents(f)
            && (PeekFirst(f).Some? ==> IsLeast(PeekFirst(f).value, Contents(f)))
  {
    RunKeepsInv(Start(), ops);
    var f := Run(Start(), ops).fes;
    FrontIsLeast(f);
    OrderedDrainsAscending(f);
    DrainListsContents(f);
  }

  lemma StepRefines(s: Sim, op: Op, r: Ref)
    requires Inv(s) && Legal(s, op) && Refines(s, r)
    ensures (op.Take? ==> r.list != []) && (op.PutBack? || op.Execute? ==> r.taken.Some?)
    ensures Refines(Step(s, op), RefStep(r, op))
  {
    match op
    case Schedule(time, priority) =>
      ScheduleStep(s, time, priority);
      InsertSortedListing(r.list, Key(time, priority, r.count));
    case Cancel(key) =>
      CancelStep(s, key);
      WithoutListing(r.list, key);
    case Take =>
      TakeStep(s);
      var k := PeekFirst(s.fes).value;
      assert k in ToSet(r.list);
      assert r.list[0] in ToSet(r.list);
      PrecedesIsStrictTotalOrder(k, r.list[0], k);
      TailSet(r.list);
    case PutBack =>
      PutBackStep(s);
      ConsListing(s.taken.value, r.list);
    case Execute => ExecuteStep(s);
    case SwitchCb(use) => SwitchStep(s, use);
  }

  /** The refinement theorem: what buffer and heap do together over any run, a sorted list does,
      with the same events executed in the same order and the same clock. */
  lemma {:induction false} RunRefinesSortedList(s: Sim, ops: seq<Op>, r: Ref) returns (r': Ref)
    requires Inv(s) && LegalRun(s, ops) && Refines(s, r)
    ensures RefRunsTo(r, ops, r') && Refines(Run(s, ops), r')
    decreases |ops|
  {
    if ops == [] {
      r' := r;
    } else {
      StepRefines(s, ops[0], r);
      StepKeepsInv(s, ops[0]);
      r' := RunRefinesSortedList(Step(s, ops[0]), ops[1..], RefStep(r, ops[0]));
    }
  }

  /** In every reachable state peekFirst() shows an event that is due no later than any other stored;
      of those due at the same time it has the smallest priority, and of those with that priority
      it was inserted first. Draining the FES lists all of them that way. */
  lemma FirstIsDueFirst(ops: seq<Op>, x: Key)
    requires LegalRun(Start(), ops) && x in Contents(Run(Start(), ops).fes)
    ensures var first := PeekFirst(Run(Start(), ops).fes);
            && first.Some?
            && first.value.time <= x.time
            && (first.value.time == x.time ==> first.value.priority <= x.priority)
            && (first.value.time == x.time && first.value.priority == x.priority ==> first.value.order <= x.order)
  {
    RunKeepsInv(Start(), ops);
    FrontIsLeast(Run(Start(), ops).fes);
    FrontIsDueFirst(Run(Start(), ops).fes, x);
  }

  lemma DrainIsInDueOrder(ops: seq<Op>, i: nat, j: nat)
    requires LegalRun(Start(), ops) && i < j < |Drain(Run(Start(), ops).fes)|
    ensures var d := Drain(Run(Start(), ops).fes);
            && d[i].time <= d[j].time
            && (d[i].time == d[j].time ==> d[i].priority <= d[j].priority)
            && (d[i].time == d[j].time && d[i].priority == d[j].priority ==> d[i].order < d[j].order)
  {
    ReachableStateIsOrdered(ops);
    AscendingOnFields(Drain(Run(Start(), ops).fes), i, j);
  }

  /** An event is executed only when no event that is pending then is due earlier, or at the same
      time with a smaller priority, or with the same priority and inserted before. */
  lemma ExecutedWhenDue(ops: seq<Op>, x: Key)
    requires LegalRun(Start(), ops) && Run(Start(), ops).taken.Some?
    requires x in Contents(Run(Start(), ops).fes)
    ensures var s := Run(Start(), ops);
            var k := s.taken.value;
            && Step(s, Execute).done == s.done + [k]
            && k.time <= x.time
            && (k.time == x.time ==> k.priority <= x.priority)
            && (k.time == x.time && k.priority == x.priority ==> k.order < x.order)
  {
    RunKeepsInv(Start(), ops);
    assert Precedes(Run(Start(), ops).taken.value, x);
  }

  /** Executed events have non-decreasing times, and those with equal time and priority are
      executed in insertion order although the heap is not stable. */
  lemma ExecutionOrder(ops: seq<Op>, i: nat, j: nat)
    requires LegalRun(Start(), ops) && i < j < |Run(Start(), ops).done|
    ensures var done := Run(Start(), ops).done;
            && done[i].time <= done[j].time <= Run(Start(), ops).now
            && (done[i].time == done[j].time && done[i].priority == done[j].priority ==>
                  done[i].order < done[j].order)
  {
    RunKeepsInv(Start(), ops);
    var s := Run(Start(), ops);
    assert GoesBefore(s.done[i], s.done[j]);
  }

  /** The clock never goes back, and does not move while the buffer holds an event. */
  lemma ClockWaitsForBuffer(ops: seq<Op>)
    requires LegalRun(Start(), ops) && Run(Start(), ops).taken.Some?
    ensures var s := Run(Start(), ops);
            && s.now <= Step(s, Execute).now
            && (s.fes.cb != [] ==> Step(s, Execute).now == s.now)
  {
    RunKeepsInv(Start(), ops);
    ExecuteStep(Run(Start(), ops));
  }

  ghost predicate FeasibleRun(s: Sim, ops: seq<Op>)
    decreases |ops|
  {
    ops == [] || (Feasible(s, ops[0]) && FeasibleRun(Step(s, ops[0]), ops[1..]))
  }

  /** At every point of the run, removal would be in scheduling order. */
  ghost predicate OrderedThroughout(s: Sim, ops: seq<Op>)
    requires FeasibleRun(s, ops)
    decreases |ops|
  {
    Ascending(Drain(s.fes)) && (ops == [] || OrderedThroughout(Step(s, ops[0]), ops[1..]))
  }

  /** Legal runs are exactly those on which the FES keeps its promise throughout. */
  lemma {:induction false} OrderedThroughoutIffLegal(s: Sim, ops: seq<Op>)
    requires Inv(s) && FeasibleRun(s, ops)
    ensures OrderedThroughout(s, ops) <==> LegalRun(s, ops)
    decreases |ops|
  {
    DrainIsSortedIffOrdered(s.fes);
    if ops != [] {
      if Legal(s, ops[0]) {
        StepKeepsInv(s, ops[0]);
        OrderedThroughoutIffLegal(Step(s, ops[0]), ops[1..]);
      } else {
        UnsafeScheduleSpoilsOrder(s, ops[0].time, ops[0].priority);
      }
    }
  }

  lemma UnsafeScheduleSpoilsOrder(s: Sim, time: int, priority: int)
    requires Inv(s) && !InsertIsSafe(s.fes, time, priority, s.now)
    ensures !Ascending(Drain(Insert(s.fes, time, priority, s.now)))
  {
    InsertKeepsOrderIffSafe(s.fes, time, priority, s.now);
    InsertAddsOne(s.fes, time, priority, s.now);
    DrainIsSortedIffOrdered(Insert(s.fes, time, priority, s.now));
  }

  /** The second condition of Legal, seen from a reachable state: scheduling at or after the
      current time goes wrong exactly when the only buffered event is one that was put back and
      is due after the new one. */
  lemma ScheduleIsUnsafeIffAheadOfPutBack(ops: seq<Op>, time: int, priority: int)
    requires LegalRun(Start(), ops) && Run(Start(), ops).taken == None
    requires time >= Run(Start(), ops).now
    ensures var s := Run(Start(), ops);
            InsertIsSafe(s.fes, time, priority, s.now) <==>
            !(&& |s.fes.cb| == 1
              && Precedes(Key(time, priority, s.fes.count), s.fes.cb[0])
              && !Flushes(s.fes, time, priority, s.now))
  {
    RunKeepsInv(Start(), ops);
    var s := Run(Start(), ops);
    if s.fes.cb != [] {
      assert s.fes.cb[|s.fes.cb| - 1] in Contents(s.fes);
    }
  }

  ghost predicate NoPutBack(ops: seq<Op>)
  {
    forall i :: 0 <= i < |ops| ==> !ops[i].PutBack?
  }

  /** The buffer holds current events only, and none when it is not in use. */
  ghost predicate BufferIsCurrent(s: Sim)
  {
    HoldsOnlyNow(s.fes, s.now) && (!s.fes.useCb ==> s.fes.cb == [])
  }

  lemma CancelKeepsBufferCurrent(s: Sim, k: Key)
    requires Inv(s) && k in s.fes.cb && BufferIsCurrent(s)
    ensures BufferIsCurrent(s.(fes := Remove(s.fes, k)))
  {
    var p :| 0 <= p < |s.fes.cb| && s.fes.cb[p] == k;
    RemoveFromCbWellFormed(s.fes, p);
  }

  lemma StepKeepsBufferCurrent(s: Sim, op: Op)
    requires Inv(s) && Legal(s, op) && !op.PutBack? && BufferIsCurrent(s)
    ensures BufferIsCurrent(Step(s, op))
  {
    if op.Execute? {
      ExecuteStep(s);
    } else if op.Cancel? && op.key in s.fes.cb {
      CancelKeepsBufferCurrent(s, op.key);
    }
  }

  /** As long as nothing is put back, the buffer holds current events only. */
  lemma {:induction false} BufferHoldsOnlyNow(s: Sim, ops: seq<Op>)
    requires Inv(s) && LegalRun(s, ops) && NoPutBack(ops) && BufferIsCurrent(s)
    ensures BufferIsCurrent(Run(s, ops))
    decreases |ops|
  {
    if ops != [] {
      StepKeepsInv(s, ops[0]);
      StepKeepsBufferCurrent(s, ops[0]);
      BufferHoldsOnlyNow(Step(s, ops[0]), ops[1..]);
    }
  }

  /** So without putBackFirst() every schedule call for the present or the future is safe, and a
      run is legal as soon as nothing is scheduled in the past. */
  lemma WithoutPutBackScheduleIsSafe(ops: seq<Op>, time: int, priority: int)
    requires LegalRun(Start(), ops) && NoPutBack(ops)
    requires time >= Run(Start(), ops).now
    ensures var s := Run(Start(), ops); InsertIsSafe(s.fes, time, priority, s.now)
  {
    BufferHoldsOnlyNow(Start(), ops);
    RunKeepsInv(Start(), ops);
    var s := Run(Start(), ops);
    if s.fes.useCb {
      InsertIsSafeIfOnlyNow(s.fes, time, priority, s.now);
    }
  }
}
