# A model of the OMNeT++ simulation kernel's data structures, with proofs

This project models the stateful algorithms of the OMNeT++ 7 simulation kernel in Dafny and proves
what they are for. Each algorithm is written in the form the C++ source has (a class with the
source's fields, updated in place by methods with the source's loops and branches), proved against a
specification on plain values, and the promises of the documentation are then proved about that
specification, over all inputs and, where there is state, over all runs.

| part | files |
|---|---|
| Future event set: binary heap, circular buffer, back-pointers, whole runs | `Bits`, `Event`, `FesModel`, `HeapOrder`, `EventHeap`, `FesTheory`, `FesRun` |
| Signals: listener tables, subscriptions, counts, nested notification | `SignalTable`, `ComponentSignals`, `Signals`, `SignalFire` |
| Display strings: printer, single-pass parser, what refused texts leave behind, edits, cached text | `DisplayText`, `DisplayTable`, `DisplayCanonical`, `DisplayLeftovers`, `DisplayEdits`, `DisplayString` |
| Histograms: bins, range extension, merging, the default strategy | `HistogramModel`, `HistogramRange`, `HistogramRounding`, `HistogramLayout`, `EvenBins`, `HistogramReplay`, `StrategyModel`, `Histogram`, `DefaultStrategy` |
| Finite state machines: the loop behind `FSM_Switch` | `Fsm` |
| Transmission channel: the SINGLE, MULTI and UNCHECKED modes | `DatarateChannel` |
| Linear congruential generator: step, period, automatic seeds | `Lcg`, `LcgPowers`, `LcgPeriod`, `LcgSeeds` |
| Rotate-and-xor hash | `RotateXor`, `Hasher` |
| k-split: the grid tree, the values and number of its cells, its iterator | `KSplit`, `KSplitValues`, `KSplitCells`, `KSplitObject` |

`Options` holds the option type. `dafny verify dfyconfig.toml` checks the whole project.

## How the future event set is built up

`Events` gives the scheduling order on sort keys (arrival time, then priority, smaller first, then
insertion number). `FesModel.Fes` is the abstract value: the keys in the buffer, as a sequence, and
those on the heap, as a set. `EventHeaps.EventHeap` is the C++ class, with the arrays `heap` and `cb`
changed in place and the back-pointer `heapIndex` in each event; its `Valid()` says that every
event's back-pointer is exact in both directions, and each method's contract gives the new abstract
value. `FesTheory` is about that value: its removal sequence is the sorted listing of its contents
exactly when no buffered event is due after a later one (`Ordered`). `FesRun` is about runs of the
kernel and ends in a refinement: the pair of buffer and heap behaves as a sorted list.

## Where the code does not do what its documentation says

The code is modelled as it is. The members named give an input for which the promise breaks, the
exact condition under which it holds, or both.

- An event put back with `putBackFirst()` goes to the buffer even if it is due later, and an event
  scheduled afterwards for an earlier time then comes out too late
  (`FesTheory.PutBackThenEarlierInsertIsOutOfOrder`, `FesTheory.InsertKeepsOrderIffSafe`,
  `FesRun.ScheduleIsUnsafeIffAheadOfPutBack`); over whole runs nothing else goes wrong
  (`FesRun.OrderedThroughoutIffLegal`).
- A future event set made with a capacity of zero never gets room for an event
  (`EventHeaps.EventHeap.constructor`).
- `strcatescaped()` does not escape backslashes, so not every display string comes back from printing
  and parsing; the example in `cdisplaystring.h` with a literal backslash does not
  (`DisplayTables.RoundTripIffSurvives`, `DisplayTables.BackslashIsLost`). Nor does one in which
  `setTagArg()` by index has given an argument to the nameless tag of a redundant semicolon
  (`DisplayEdits.NamelessTagTakesArguments`).
- A display string may have several tags of one name. When `setTagArg()` or `updateWith()` clears the
  last argument of the first of them, the next one's arguments read in its place
  (`DisplayEdits.SetByNameSets`, `DisplayEdits.SecondTagComesToLight`, `DisplayEdits.UpdateOverrides`).
- The cached text of a display string made from a text is that text, and so is that of one which
  `parse()` refuses, with the tags read up to then. That is what assembling gives exactly for the texts
  called canonical (`DisplayLeftovers.LeftPrintsBackIffCanonical`). In arguments, outside `${...}`,
  these escape every `=`, nothing but separators, and have two backslashes in a row only before a bare
  `=`; in tag names that are accepted they have no backslash. An `updateWith()` that throws midway also
  leaves the cached text as it was (`DisplayStrings.UpdateMayThrowMidway`). Over runs these are the
  only ways to a stale text (`DisplayStrings.RunStaysFresh`).
- The last edge of uniform bins may be below the requested upper bound, because the range is shaved or
  because the edge is snapped to zero (`HistogramRange.LastEdgeReachesHi`,
  `HistogramRange.LastEdgeMissesHi`).
- `mergeBins()` is documented for multiples of the group size only; its code handles any number of
  bins, and the laws hold for it (`HistogramModel.MergeCommutesWithStream`).
- The default histogram strategy's final assertion fails exactly when a value with some weight lies
  outside the bins on a side where an infinite value has been counted; a weighted histogram may
  also throw because the strategy asks it for an overflow count
  (`DefaultStrategies.DefaultStrategy.CollectWeighted`).
- The check for an infinite loop in `FSM_Switch` fires after the 64th exit even if that exit went
  to a steady state (`Fsms.ProcessIsDisciplined`, `Fsms.Fsm.Switch`).
- An update of a transmission that gives neither duration nor remaining duration may leave a
  negative remaining duration (`DatarateChannels.UpdateIsConsistent`,
  `DatarateChannels.RemainingMayBeNegative`).
- In SINGLE mode the channel becomes free too early exactly when an update ends a transmission that
  was sent ahead of time while an earlier one is still on; only then can transmissions overlap
  (`DatarateChannels.SingleStaysHonestIffNeverTooEarly`,
  `DatarateChannels.NextPacketMayOverlapIffFreeTooEarly`, `DatarateChannels.UpdateAheadOverlaps`),
  and they need not (`DatarateChannels.TooEarlyMayBeHarmless`).
- In MULTI mode a discarded or refused packet leaves an empty record behind. An update at simulation
  time zero brings it to life, after which the channel may be busy with nothing sent
  (`DatarateChannels.DiscardedPacketMakesBusy`, `DatarateChannels.PhantomsStayIdleIffNotRevived`,
  `DatarateChannels.MultiIsTruthfulIffPhantomsOutlasted`).
- The linear congruential generator accepts seeds that are multiples of 2^31 - 1, on which it is
  stuck (`Lcgs.Lcg32.IntRand`); 256 stretches of 8,388,608 numbers are two numbers more than the
  period (`LcgSeeds.StretchesAreDisjoint`).
- k-split's totals are exact only for observations of weight one
  (`KSplitObjects.KSplit.InsertIntoGrids`). Its cell values then add up to the number of observations
  exactly if every grid has counted something since it was created; a range extended before the first
  observation leaves a grid that has not, whose cells have no value that is a number
  (`KSplitObjects.KSplit.BinsAddUp`, `KSplitObjects.KSplit.NewRootGrids`). Extending the range downward
  overwrites the link to the old root grid or writes outside of the cell array
  (`KSplitObjects.KSplit.NewRootGrids`).

## Model

| member | source | states |
|---|---|---|
| Bits.MaskIsModulo | src/sim/ceventheap.cc:36-37 | masking with size-1 is reduction modulo size when size is a power of two, for negative operands too |
| Bits.PowerOfTwoTest | src/sim/ceventheap.cc:354 | the test `(n & (n-1)) == 0` holds exactly for powers of two |
| Bits.Wrap | include/omnetpp/ceventheap.h:56-57 | the masked index lies in the buffer, and equals the index plus or minus the size in the three ranges that occur |
| Events.PrecedesIsStrictTotalOrder | src/sim/cevent.cc:102-110 | `shouldPrecede` is a strict total order on (time, priority, insertion number); "does not precede" is transitive |
| Events.CompareAgreesWithPrecedes | src/sim/cevent.cc:112-124 | the `qsort` comparator orders distinct keys exactly as `shouldPrecede` does, and is antisymmetric |
| Events.EarlierThenSmallerThenOlder | src/sim/cevent.cc:102-124 | on the fields: the earlier event goes first; at the same time the one with the smaller priority; with the same priority the one inserted first; `shouldPrecede` and the comparator alike |
| Events.Event.SetArrivalTime | include/omnetpp/cevent.h:73 | the arrival time changes exactly if the event is not in the FES |
| Events.Event.SetSchedulingPriority | src/sim/cevent.cc:95-100 | refused, with nothing changed, exactly while the event is in the FES |
| HeapOrder.PullDown | src/sim/ceventheap.cc:215-223 | moving the parent of a vacant heap slot into it keeps the order around the slot that is now vacant |
| HeapOrder.Fill | src/sim/ceventheap.cc:222 | filling the vacant slot with an event its parent does not follow gives a heap, up to the order below the slot |
| HeapOrder.SwapDown | src/sim/ceventheap.cc:256-261 | exchanging an event with its first child moves the only possible disorder to that child |
| HeapOrder.RootGoesFirst | src/sim/ceventheap.cc:267-270 | in a heap no event precedes the root |
| HeapOrder.SortedIsHeap | src/sim/ceventheap.cc:158-163 | a sorted array has the heap property |
| EventHeaps.EventHeap.constructor | src/sim/ceventheap.cc:58-63 | a new FES is empty and uses its buffer, and is fit for use if and only if its capacity is not zero, which no doubling changes |
| EventHeaps.EventHeap.GrowHeap | src/sim/ceventheap.cc:206-213 | doubling the heap array keeps every event in its slot, back-pointers included |
| EventHeaps.EventHeap.FindPlace | src/sim/ceventheap.cc:215-223 | the insertion loop ends at a vacant slot where the event is in order with its parent, all other order kept |
| EventHeaps.EventHeap.HeapInsert | src/sim/ceventheap.cc:204-223 | exactly that event is added; heap order and back-pointers hold afterwards |
| EventHeaps.EventHeap.ShiftUp | src/sim/ceventheap.cc:246-265 | sinking restores heap order from disorder below one slot, back-pointers kept exact |
| EventHeaps.EventHeap.CbGrow | src/sim/ceventheap.cc:225-237 | growth doubles the size and keeps the sequence of buffered events, with new back-pointers |
| EventHeaps.EventHeap.CbInsert | src/sim/ceventheap.cc:195-202 | the event is appended to the sequence of buffered events, with growth when the buffer is full |
| EventHeaps.EventHeap.CopyCbToHeap | src/sim/ceventheap.cc:241-242 | every buffered event gets onto the heap, and no other |
| EventHeaps.EventHeap.Flush | src/sim/ceventheap.cc:239-244 | `flushCb()` on the abstract value: buffer emptied, its events on the heap, invariant kept |
| EventHeaps.EventHeap.RootIsLeast | src/sim/ceventheap.cc:267-270 | the root is the event that precedes all others on the heap |
| EventHeaps.EventHeap.IsEligible | src/sim/ceventheap.cc:176-187 | an event is eligible for the buffer exactly if due now with priority 0 and all heap events are later; negative priority now flushes the buffer |
| EventHeaps.EventHeap.Insert | src/sim/ceventheap.cc:165-193 | insertion gives the next insertion number and puts the event where the specification says; the event is stored once, back-pointers exact |
| EventHeaps.EventHeap.PeekFirst | src/sim/ceventheap.cc:267-270 | the returned event is the stored one whose key the specification presents first; null exactly if the FES is empty; no stored event is due earlier, or at the same time with a smaller priority, or with the same priority and inserted before |
| EventHeaps.EventHeap.HeapRemove | src/sim/ceventheap.cc:312-331 | removal from the middle of the heap: the last event refills the hole upward or downward; exactly that event is gone |
| EventHeaps.EventHeap.HeapRemoveRoot | src/sim/ceventheap.cc:282-290 | the root is taken out, the last event replaces it and sinks, and exactly that event is gone |
| EventHeaps.EventHeap.CbRemoveFirst | src/sim/ceventheap.cc:274-281 | the oldest buffered event is taken out and the rest of the sequence is unchanged |
| EventHeaps.EventHeap.RemoveFirst | src/sim/ceventheap.cc:272-292 | takes out the event the specification presents first, and no other; null exactly if the FES is empty; the event taken is due first of all that were stored, by time, then smaller priority, then insertion |
| EventHeaps.EventHeap.CloseGap | src/sim/ceventheap.cc:306-309 | the shifting loop moves each later buffered event one position down, across the wrap, with its back-pointer |
| EventHeaps.EventHeap.CbRemove | src/sim/ceventheap.cc:300-311 | the sequence of buffered events loses exactly the given one |
| EventHeaps.EventHeap.Remove | src/sim/ceventheap.cc:294-332 | takes out the given event and no other, null exactly if it was not scheduled |
| EventHeaps.EventHeap.CbPutBack | src/sim/ceventheap.cc:334-344 | the event goes in front of the sequence of buffered events, with growth when the buffer gets full |
| EventHeaps.EventHeap.PutBackFirst | src/sim/ceventheap.cc:334-344 | the event becomes the first buffered one, whatever its time; nothing else changes |
| EventHeaps.EventHeap.IsEmpty | include/omnetpp/ceventheap.h:155 | true exactly if no event is stored |
| EventHeaps.EventHeap.GetLength | include/omnetpp/ceventheap.h:169 | the number of buffered events plus the number on the heap |
| EventHeaps.EventHeap.Get | src/sim/ceventheap.cc:141-156 | the buffered events come first, oldest first, then the heap array; null exactly outside of the range |
| EventHeaps.EventHeap.SetUseCb | include/omnetpp/ceventheap.h:67 | possible exactly while the buffer is empty |
| EventHeaps.EventHeap.Sort | src/sim/ceventheap.cc:158-163 | the heap array is left ascending by time, then priority, then insertion number, and a heap, with exact back-pointers; the abstract value is unchanged |
| EventHeaps.QSort | src/sim/ceventheap.cc:160 | the contract used for the library sort: a permutation in comparator order |
| FesTheory.FrontIsLeast | include/omnetpp/cfutureeventset.h:76-86 | the event presented first precedes all others across buffer and heap |
| FesTheory.DrainListsContents | src/sim/ceventheap.cc:272-292 | removing until empty yields every stored event once: nothing lost, nothing duplicated |
| FesTheory.DrainIsSortedIffOrdered | include/omnetpp/ceventheap.h:42-48 | the removal sequence is sorted exactly if buffered events are pairwise in order and ahead of the heap |
| FesTheory.AscendingListingIsUnique | src/sim/cevent.cc:102-110 | a set of events has one listing in scheduling order |
| FesTheory.InsertAddsOne | src/sim/ceventheap.cc:165-193 | insertion adds exactly the new event, which is distinguishable from all others |
| FesTheory.InsertKeepsOrderIffSafe | src/sim/ceventheap.cc:165-193 | insertion keeps the removal order right exactly if no buffered event is due after the new one or the buffer is flushed |
| FesTheory.PutBackUndoesRemove | include/omnetpp/ceventheap.h:141-144 | `putBackFirst()` undoes `removeFirst()`: same contents, same removal sequence |
| FesTheory.PutBackKeepsOrderIffFirst | include/omnetpp/ceventheap.h:141-144 | putting an event back keeps the removal order right exactly if the event precedes everything stored |
| FesTheory.FlushKeepsDrain | src/sim/ceventheap.cc:239-244 | flushing the buffer changes nothing in the removal sequence |
| FesTheory.RemoveKeepsOrder | src/sim/ceventheap.cc:294-332 | removing an event takes out that event only and keeps the removal order right |
| FesTheory.SortedListingIsDrain | include/omnetpp/ceventheap.h:171-183 | after `sort()`, `get(0)`, `get(1)`, ... list the events in the order in which they would be removed |
| FesTheory.PutBackThenEarlierInsertIsOutOfOrder | src/sim/ceventheap.cc:334-344 | a concrete sequence of calls after which the FES presents a later event first |
| FesRun.RunKeepsInv | include/omnetpp/ceventheap.h:25-31 | every legal step of every run keeps the invariant of buffer, heap, clock and history |
| FesRun.ReachableStateIsOrdered | include/omnetpp/ceventheap.h:42-48 | in every reachable state the removal sequence is the sorted listing of the contents |
| FesRun.FirstIsDueFirst | src/sim/cevent.cc:102-110 | in every reachable state the event presented first has the least time of all stored, of those with that time the smallest priority, and of those the smallest insertion number |
| FesRun.DrainIsInDueOrder | src/sim/ceventheap.cc:272-292 | so has each event of the removal sequence with respect to those after it |
| FesRun.ExecutedWhenDue | src/sim/ceventheap.cc:272-292 | over any run, an event is executed only when none that is pending is due earlier, or at the same time with a smaller priority, or with the same priority and inserted before |
| FesRun.RunRefinesSortedList | include/omnetpp/ceventheap.h:25-31 | over any legal run of schedule, cancel, take, put back and execute, buffer and heap do what a sorted list does, with the same events executed at the same clock |
| FesRun.ExecutionOrder | include/omnetpp/ceventheap.h:42 | executed events have non-decreasing times; with equal time and priority they come in insertion order |
| FesRun.OrderedThroughoutIffLegal | src/sim/ceventheap.cc:165-193 | over any run of schedule, cancel, take, put back and execute, the FES removes events in the right order at all times if and only if no event is scheduled ahead of one that was put back |
| FesRun.ClockWaitsForBuffer | include/omnetpp/ceventheap.h:25-31 | executing an event never moves the clock back, and does not move it while an event is buffered |
| FesRun.ScheduleIsUnsafeIffAheadOfPutBack | src/sim/ceventheap.cc:176-192 | in a reachable state, scheduling for now or later goes wrong exactly if the only buffered event is one put back that is due after the new one |
| FesRun.BufferHoldsOnlyNow | include/omnetpp/ceventheap.h:44-48 | as long as nothing is put back, the buffer holds only events for the current time with priority 0 |
| FesRun.WithoutPutBackScheduleIsSafe | src/sim/ceventheap.cc:165-193 | so without `putBackFirst()` every schedule call for the present or future keeps the order |
| SignalTables.TableIsExtensional | src/sim/ccomponent.cc:569-586 | a sorted table without empty lists is determined by what it says about each signal |
| SignalTables.SetListOk | src/sim/ccomponent.cc:569-586 | setting the list of one signal keeps the table sorted and free of empty lists, and changes no other list |
| SignalTables.WithoutListenerRemoves | src/sim/ccomponent.cc:476-488 | the swap with the last listener removes exactly the given one and moves no other but the last |
| ComponentSignals.Component.FindListenerList | src/sim/ccomponent.cc:555-567 | the index of the signal's entry, or -1 exactly if there is none |
| ComponentSignals.Component.CreateEntry | src/sim/ccomponent.cc:576-583 | appending and sorting puts the new entry at its place and moves no others |
| ComponentSignals.Component.FindOrCreateListenerList | src/sim/ccomponent.cc:569-586 | finds or creates the entry; what the table says about any signal is unchanged |
| ComponentSignals.Component.AddListener | src/sim/ccomponent.cc:758-762 | refused exactly if the listener is already in the list; otherwise appended to that list only |
| ComponentSignals.Component.RemoveListener | src/sim/ccomponent.cc:776-785 | removes exactly that listener, and the entry with the last one; nothing happens if it is not there |
| Signals.SubscribeKeepsInv | src/sim/ccomponent.cc:750-766 | subscribing keeps the whole registry consistent, changes that list only, leaves lists being notified alone, and has no effect if it throws |
| Signals.UnsubscribeKeepsInv | src/sim/ccomponent.cc:768-793 | the same for unsubscribing, after which the list has the listeners it had but that one |
| Signals.WhenChangesThrow | src/sim/ccomponent.cc:750-793 | subscribing and unsubscribing throw exactly for an unknown ID, for a list being notified and, when subscribing, for a listener that is there already |
| Signals.RegisterKeepsInv | src/sim/ccomponent.cc:510-529 | registering a signal keeps names and IDs in one-to-one correspondence and never changes an ID |
| Signals.ReleaseLocalListeners | src/sim/ccomponent.cc:835-854 | destroying a component empties its table, keeps the registry consistent and touches no other component's lists; the loop ends |
| Signals.UnsubscribeAll | src/sim/clistener.cc:30-36 | after destroying a listener no list anywhere names it, and every list has all the others it had |
| Signals.HasListenersIsAncestorSearch | src/sim/ccomponent.cc:638-651 | `hasListeners()` holds exactly if some ancestor-or-self has a listener for the signal |
| Signals.MayHaveListenersIsExact | src/sim/ccomponent.cc:629-636 | the count is positive exactly if some component has a listener for the signal |
| Signals.HasListenersImpliesMayHave | include/omnetpp/ccomponent.h:1053-1070 | `mayHaveListeners()` has no false negatives |
| Signals.EmptyRegistry | include/omnetpp/ccomponent.h:118-129 | the registry at program start satisfies the invariant |
| SignalFire.Fire | src/sim/ccomponent.cc:711-738 | emitting with listeners that run arbitrary code keeps the registry consistent and the notification stack and the lists on it unchanged, and ends |
| SignalFire.FireLocal | src/sim/ccomponent.cc:714-732 | the same for one component; the stack is back at its old height whether the call returns or throws |
| SignalFire.NotifyCallsEachOnce | src/sim/ccomponent.cc:724-725 | the loop calls each listener of the list once, in order, whatever the listeners do; a prefix of them if one throws |
| SignalFire.FireCallsEachOnce | src/sim/ccomponent.cc:711-738 | an emit calls each listener of the source and its ancestors once per subscription, as the lists stand when it gets there; if it ends by an exception, a prefix of those calls |
| SignalFire.EmitNotifiesEverySubscription | include/omnetpp/clistener.h:106-121 | with listeners that leave subscriptions alone, an emit calls exactly the subscriptions there were, or a prefix of them if it throws, and restores the stack |
| SignalFire.AllSubscribedIsExact | src/sim/ccomponent.cc:711-738 | those calls are without repetition and are one for each subscription at the source or an ancestor |
| SignalFire.CallsGoUp | src/sim/ccomponent.cc:711-738 | of two calls, the one for the component lower in the tree comes first, and for one component the one earlier in its list |
| SignalFire.ThrowEndsEmit | src/sim/ccomponent.cc:721-731 | a listener that throws ends the emit at once: nobody else is called and the exception reaches the caller |
| SignalFire.FireCompletes | src/sim/ccomponent.cc:711-738 | with listeners that catch what they call and room on the stack an emit never throws, so all calls due are made |
| SignalFire.ChangeWhileFiringIsRefused | src/sim/ccomponent.cc:593-605 | a list being notified cannot be changed, and the attempt leaves no trace |
| SignalFire.FullStackStopsEmit | src/sim/ccomponent.cc:718-719 | on a full notification stack an emit with local listeners throws and changes nothing |
| DisplayText.BracesIsLocal | src/common/stringutil.cc:1009-1036 | the matching brace depends only on the text up to it, quoted strings included |
| DisplayText.CloseQuoteIsLocal | src/common/stringutil.cc:64-72 | the closing quote depends only on the text up to it |
| DisplayText.UnitIsLocal | src/sim/cdisplaystring.cc:514-533 | what the printer copies as one unit (a character, `$$` or an expression) the parser takes as one unit too |
| DisplayText.SurvivesWithoutDollar | src/sim/cdisplaystring.cc:507-536 | without expressions, an argument survives exactly if every backslash stands directly before a "=" |
| DisplayText.PrintedByCharacter | src/sim/cdisplaystring.cc:514-533 | without "$", printing goes character by character |
| DisplayText.PrintedCharacter | src/sim/cdisplaystring.cc:526-530 | a character is printed as it is, but ";", "," and "=" after a backslash |
| DisplayText.PrintedExpression | src/sim/cdisplaystring.cc:514-525 | `$$` and an expression are copied as they stand |
| DisplayText.SurvivorComesBack | src/sim/cdisplaystring.cc:400-457 | a surviving argument, printed and scanned in any context, comes back |
| DisplayText.OnlySurvivorsComeBack | src/sim/cdisplaystring.cc:507-536 | no other argument comes back |
| DisplayText.ArgumentRoundTrip | src/sim/cdisplaystring.cc:507-536 | an argument comes back from printing and scanning if and only if it survives |
| DisplayTables.ParseStep | src/sim/cdisplaystring.cc:400-457 | one iteration of the parser's loop, stated by what remains to be read |
| DisplayTables.DoParse | src/sim/cdisplaystring.cc:373-473 | the single-pass loop computes the recursive reading of the text, with the same errors, and the same tags left in the table when it gives up |
| DisplayTables.TagRoundTrip | src/sim/cdisplaystring.cc:491-503 | a printed tag in front of more tags is read back as that tag exactly if all its arguments survive |
| DisplayTables.RoundTripIffSurvives | include/omnetpp/cdisplaystring.h:32-41 | of all tables, parsing the printed form gives back exactly those with legal names and at most 16 arguments a tag whose arguments all survive, in which no nameless tag has arguments, and which are more than a lone nameless tag |
| DisplayTables.PlainTextReads | include/omnetpp/cdisplaystring.h:32-41 | tags are separated by ";", the name ends at "=", arguments are separated by ",", and all are read and printed in that order |
| DisplayTables.BackslashIsLost | include/omnetpp/cdisplaystring.h:180-185 | an argument that ends in a backslash, such as the documented example, never comes back |
| DisplayTables.ParsedTableIsOk | src/sim/cdisplaystring.cc:460-472 | a parsed table has legal names, at most 16 arguments per tag, none of them null, and none on nameless tags |
| DisplayCanonical.ArgPrintsBack | src/sim/cdisplaystring.cc:507-536 | an argument as it was read prints as the text it was read from exactly if in that text, outside expressions, every "=" is escaped and nothing else but separators, two backslashes in a row stand only before a bare "=", and every expression ends; also when an unfinished expression runs into arbitrary memory |
| DisplayCanonical.NamePrintsBack | src/sim/cdisplaystring.cc:507-536 | the same for a tag name, which is read without regard to expressions but printed with it |
| DisplayCanonical.LegalNameIsCanonical | src/sim/cdisplaystring.cc:469-471 | of the names that are accepted, exactly those written without any backslash print as they were written |
| DisplayLeftovers.TagsLeftOver | src/sim/cdisplaystring.cc:373-457 | what parsing leaves in the table, accepted or refused at whatever point, is the tags of the text up to there |
| DisplayLeftovers.LeftPrintsBackIffCanonical | src/sim/cdisplaystring.cc:99-112 | for every text, accepted or refused, what parsing it leaves in the table prints as that text if and only if the text is canonical, a check on the text alone |
| DisplayLeftovers.LeftoverFits | src/sim/cdisplaystring.cc:445-446 | no parse, accepted or refused, leaves more than 16 arguments in a tag |
| DisplayEdits.SetArgSets | src/sim/cdisplaystring.cc:232-261 | setting an argument changes it and no other, and removes the tag exactly if it clears the last argument present |
| DisplayEdits.NewArgsAre | src/sim/cdisplaystring.cc:241-259 | the arguments a tag is left with: room made if it reads so already, else the null ones dropped from the end |
| DisplayEdits.SetArgRemoves | src/sim/cdisplaystring.cc:257-258 | a tag that becomes empty is removed, and no other |
| DisplayEdits.SetArgKeepsTableOk | src/sim/cdisplaystring.cc:232-261 | setting an argument leaves no illegal name and no seventeenth argument behind |
| DisplayEdits.NamelessTagTakesArguments | src/sim/cdisplaystring.cc:224-261 | setting an argument by index on the nameless tag of a redundant semicolon gives a table that no longer comes back from print and read |
| DisplayEdits.InsertTagInserts | src/sim/cdisplaystring.cc:271-310 | inserting a tag keeps the table legal and changes no argument of any tag, for any table |
| DisplayEdits.InsertTagPlaces | src/sim/cdisplaystring.cc:280-310 | a new tag lands at the index asked for or at the nearest end, the others keeping their order; one that is there stays where it is |
| DisplayEdits.SetByNameDoes | src/sim/cdisplaystring.cc:183-189 | what every argument of every tag reads after a write by name, repeated names included |
| DisplayEdits.SetByNameSets | src/sim/cdisplaystring.cc:183-189 | the write is an assignment, every other argument reading as before, if and only if it does not clear the last argument of the first of several tags of that name, the next of which has some argument |
| DisplayEdits.SecondTagComesToLight | src/sim/cdisplaystring.cc:255-260 | tables that the parser yields for which the write is not an assignment |
| DisplayEdits.UpdateOverrides | src/sim/cdisplaystring.cc:127-140 | an update that does not throw makes each argument the last non-empty one the other string gives for it, "-" meaning empty, else the old one, at every stage, if and only if no write brings a later tag of the same name to light |
| DisplayEdits.NamedWritesPass | src/sim/cdisplaystring.cc:273-278 | an update throws only for an argument given to an empty or illegal name |
| DisplayEdits.UpdateWithText | src/sim/cdisplaystring.cc:114-118 | so updating with a text that parses never throws, and overrides a table with unique names |
| DisplayEdits.UpdateIsOverride | src/sim/cdisplaystring.cc:127-140 | from end to end, with unique names: each argument is the one in the text if that is not empty, "-" meaning empty, and else as before |
| DisplayStrings.StepStaysFresh | src/sim/cdisplaystring.cc:66-68 | after any call on an object whose cached text is fresh it is fresh again, unless the call is a refused parse of a text that is not canonical, or an update that throws midway after changing what assembling gives |
| DisplayStrings.RunStaysFresh | include/omnetpp/cdisplaystring.h:85-86 | over any run of str(), parse(), insertTag(), setTagArg(), removeTag() and updateWith(), a text marked valid is at all times what assembling would give, if and only if it was at the start and no call of those two kinds occurs |
| DisplayStrings.FreshFromTextIffCanonical | src/sim/cdisplaystring.cc:32-35 | the text an object is made from and keeps as its cache is what assembling gives if and only if it is canonical |
| DisplayStrings.RunFromText | src/sim/cdisplaystring.cc:32-35 | both together, for a run that starts from a text |
| DisplayStrings.UpdateMayThrowMidway | src/sim/cdisplaystring.cc:120-125 | an update that throws midway and leaves a stale text marked valid |
| DisplayStrings.StepKeepsFits | src/sim/cdisplaystring.cc:232-240 | no call leaves more than 16 arguments in a tag |
| DisplayStrings.DisplayString.FromText | src/sim/cdisplaystring.cc:32-35 | accepts exactly the texts that parse, keeps the text itself as valid cache, and is fresh exactly if the text is canonical |
| DisplayStrings.DisplayString.StrcatEscaped | src/sim/cdisplaystring.cc:507-536 | appends the escaped argument, or throws exactly if an expression in it does not end |
| DisplayStrings.DisplayString.DoAssemble | src/sim/cdisplaystring.cc:491-504 | the loops print the recursive form of the table |
| DisplayStrings.DisplayString.Str | src/sim/cdisplaystring.cc:85-90 | shows the cached text if marked valid, else a fresh assembly, which is then cached |
| DisplayStrings.DisplayString.ParseText | src/sim/cdisplaystring.cc:92-112 | the new tags or the error; nothing is parsed if the text is the one shown; a refused text stays as valid cache with the tags read up to then |
| DisplayStrings.DisplayString.GetTagIndex | src/sim/cdisplaystring.cc:342-349 | the first tag of that name, or -1 |
| DisplayStrings.DisplayString.Insert | src/sim/cdisplaystring.cc:263-310 | the table with the tag inserted, its index, or the error with nothing changed; the cache is dropped |
| DisplayStrings.DisplayString.SetTagArg | src/sim/cdisplaystring.cc:224-261 | sets the argument exactly if both indices are valid; the cache is dropped |
| DisplayStrings.DisplayString.SetTagArgByName | src/sim/cdisplaystring.cc:169-181 | nothing happens if the argument already reads as the value; else the tag is found or inserted, and the argument set exactly if its index is valid, the inserted tag staying otherwise |
| DisplayStrings.DisplayString.RemoveTag | src/sim/cdisplaystring.cc:312-340 | removes exactly the tag at the index; the cache is dropped |
| DisplayStrings.DisplayString.UpdateWith | src/sim/cdisplaystring.cc:120-144 | applies the writes of the other string in order, up to the first that throws, which leaves the cache as it was; the final re-parse changes nothing, and throws exactly if the text must be assembled and cannot be |
| HistogramModel.UpperBoundSplits | src/sim/chistogram.cc:510 | on increasing edges the upper bound is the one position with no greater edge before and a greater one after |
| HistogramModel.CollectHits | src/sim/chistogram.cc:505-518 | the weight goes to the one bin whose half-open interval holds the value, or to the outliers of its side; the total grows by the weight |
| HistogramModel.CollectAllKeepsTotal | src/sim/chistogram.cc:505-518 | over any stream the total is all weight collected |
| HistogramModel.MergedEdgesIncrease | src/sim/chistogram.cc:476-484 | merging keeps edges strictly increasing |
| HistogramModel.MergedAround | include/omnetpp/chistogram.h:289-295 | merged bin k / g is the one that takes in bin k |
| HistogramModel.MergeKeepsTotal | src/sim/chistogram.cc:464-488 | merging keeps the histogram sane and its total, for any number of bins |
| HistogramModel.MergeCommutesWithStream | include/omnetpp/chistogram.h:289-295 | collecting any stream and then merging gives the same edges, values and outliers as merging first |
| HistogramModel.MergeIsCollectingEverything | src/sim/chistogram.cc:291-326 | adding up two histograms with the same bins is collecting both streams into one |
| HistogramRange.LastEdgeReachesHi | include/omnetpp/chistogram.h:254-260 | the exact condition under which the last edge made by createUniformBins() reaches the upper bound, one for an edge that is snapped to zero and one for the others; at worst it misses by less than 1e-10 of the range and a bin |
| HistogramRange.LastEdgeMissesHi | src/sim/chistogram.cc:361-370 | two ranges whose uniform bins end below the upper bound, one because the range is shaved and one because the edge is snapped |
| HistogramRange.UniformEdgeAt | src/sim/chistogram.cc:363-378 | edge i is i steps above the lower bound, or zero if that is within 1e-10 steps of zero |
| HistogramRange.UniformCountIsLeast | src/sim/chistogram.cc:361 | there are just enough steps to cover the range but for 1e-10 of it |
| HistogramRange.UniformEdgesIncrease | src/sim/chistogram.cc:363-378 | uniform edges are strictly increasing, the snapping of edges near zero included |
| HistogramRange.PrependKeepsTotal | src/sim/chistogram.cc:383-398 | new bins in front keep the histogram sane and its total |
| HistogramRange.AppendKeepsTotal | src/sim/chistogram.cc:400-415 | so do new bins at the end |
| HistogramRange.ExtendStopsExactly | include/omnetpp/chistogram.h:278-287 | extension ends, covering the value or at the maximum number of bins, keeps total, outliers and range, and is the identity for a covered value |
| HistogramRange.ExtendDownForm | src/sim/chistogram.cc:437-447 | extension downward adds zero bins of the given width in front and leaves the old ones as they are |
| HistogramRange.ExtendUpForm | src/sim/chistogram.cc:451-461 | extension upward adds zero bins of the given width at the end and leaves the old ones as they are |
| HistogramRounding.RoundToPowerOfTen | src/sim/chistogramstrategy.cc:224-261 | the result is a power of ten, within a factor of the square root of ten of the argument; both loops end |
| HistogramRounding.RoundToOneTwoFive | src/sim/chistogramstrategy.cc:263-283 | the result is 1, 2 or 5 times a power of ten, the nearest of the candidates, and at least a quarter of the argument |
| HistogramRounding.RoundedIsNearest | src/sim/chistogramstrategy.cc:263-283 | of all numbers 1, 2 or 5 times a power of ten the result is one nearest to the argument, and it is less than twice as large |
| EvenBins.ReduceMeetsLimit | src/sim/chistogramstrategy.cc:387-411 | reduction meets the limit, keeps bins of one width, the total and the outliers, and never shrinks the range |
| EvenBins.GroupsAreMinimal | src/sim/chistogramstrategy.cc:387-391 | with groups of one bin less there would be more bins than the limit |
| EvenBins.AllInOneIsOneBin | src/sim/chistogramstrategy.cc:413-447 | merging all bins leaves one bin that covers the old range, with the same total |
| EvenBins.OneBinSizeIs | src/sim/chistogramstrategy.cc:419-424 | the size of the one bin is the round number nearest to the wanted size, or the smallest multiple of it that the old range fits in |
| EvenBins.AllInOneShape | src/sim/chistogramstrategy.cc:426-447 | the one bin holds the sum of all, and lies between multiples of its size as tight around the old range as that allows, or begins or ends where the old bins did on a side with outliers |
| EvenBins.SnapBounds | src/sim/chistogramstrategy.cc:429-430 | snapping to multiples of the bin size moves an edge outward by less than one bin |
| HistogramLayout.UnitsCover | src/sim/chistogramstrategy.cc:311-343 | the first range covers all precollected values, in at most one more than four times the wanted number of bins |
| HistogramLayout.UniformCountOfUnits | src/sim/chistogram.cc:361 | counting bins is not disturbed by the shaving of the range, for any number of bins that fits an int |
| HistogramLayout.LayoutCovers | src/sim/chistogramstrategy.cc:311-353 | the first layout gives bins of one width that cover the data, so the extensions after it are no-ops |
| HistogramLayout.LayoutIs | src/sim/chistogramstrategy.cc:312-348 | the first bins reach a quarter of the width of the data beyond it, not below zero for data that are not negative, to the next multiple of the bin size; this is the 1-2-5 number nearest to an even share, rounded up for integers; for integers all edges are whole, else there are more than half as many bins as wanted |
| HistogramReplay.HoldsMerged | src/sim/chistogramstrategy.cc:409 | merging leaves the histogram that collecting everything into the merged bins gives |
| HistogramReplay.HoldsReduced | src/sim/chistogramstrategy.cc:387-411 | so does reducing the number of bins |
| HistogramReplay.HoldsAllInOne | src/sim/chistogramstrategy.cc:440-445 | so does merging all bins into one wider bin |
| HistogramReplay.CollationIsCollecting | src/sim/chistogramstrategy.cc:119-130 | adding a weight to a kept observation of the same value is as good as keeping another one |
| StrategyModel.ExtendToAchieves | src/sim/chistogramstrategy.cc:357-385 | the range is extended to the value exactly unless outliers on its side bar that; bins stay of one width, at most 3/2 of the target number unless nothing changes, total kept |
| StrategyModel.ExtendToIs | src/sim/chistogramstrategy.cc:357-385 | the steps of an extension: all bins become one exactly if the range up to the value is the target number of times as wide as they are; then just enough bins of that width are added; then bins are merged, in the smallest groups that meet the target, exactly if there are more than one and a half times the target |
| StrategyModel.ExtendToHolds | src/sim/chistogramstrategy.cc:357-385 | an extension never changes what the histogram holds: it is as if all had been collected into the new bins |
| Histograms.Histogram.FindUpperBound | src/sim/chistogram.cc:510 | binary search finds the number of edges not above the value, which `HistogramModel.UpperBoundSplits` characterises |
| Histograms.Histogram.CollectIntoHistogram | src/sim/chistogram.cc:505-518 | the weight goes where the specification of `HistogramModel.CollectHits` puts it, and nothing else changes |
| Histograms.Histogram.SetBinEdges | src/sim/chistogram.cc:339-352 | which of the errors is raised when, and the empty bins otherwise |
| Histograms.Histogram.CreateUniformBins | src/sim/chistogram.cc:354-381 | which of the errors is raised when, and uniform bins otherwise |
| Histograms.Histogram.PrependBins | src/sim/chistogram.cc:383-398 | which of the errors is raised when, and the bins put in front otherwise |
| Histograms.Histogram.AppendBins | src/sim/chistogram.cc:400-415 | which of the errors is raised when, and the bins added at the end otherwise |
| Histograms.Histogram.ExtendBinsTo | src/sim/chistogram.cc:417-462 | which of the errors is raised when, and otherwise the extension that `HistogramRange.ExtendStopsExactly` is about; both loops end |
| Histograms.Histogram.MergeBins | src/sim/chistogram.cc:464-488 | merging in place, while later bins are still to be read, computes the merged bins |
| Histograms.Histogram.MergeWith | src/sim/chistogram.cc:291-326 | which of the errors is raised when, and the sums of bins and outliers otherwise |
| DefaultStrategies.DefaultStrategy.constructor | include/omnetpp/chistogramstrategy.h:225-247 | a new strategy is in precollection with nothing seen and the source's limits, and consistent exactly if the hint for the number of bins is -1 or from 1 to 20,000 |
| DefaultStrategies.DefaultStrategy.Precollect | src/sim/chistogramstrategy.cc:115-147 | the kept values stand for everything seen, collated or not; it is enough exactly if the range has been the same 50 times in a row or more than 1000 values are kept |
| DefaultStrategies.DefaultStrategy.KeepValue | src/sim/chistogramstrategy.cc:119-137 | a whole number that is among the first ten kept values adds its weight there; anything else is kept as a new value |
| DefaultStrategies.DefaultStrategy.UseIntegers | src/sim/chistogramstrategy.cc:295-309 | bins are for integers exactly if asked for, or if that is left open and all kept values are whole and one is not zero |
| DefaultStrategies.DefaultStrategy.CreateBins | src/sim/chistogramstrategy.cc:285-355 | the first bins are empty, few, cover all precollected values, and are the layout that `HistogramLayout.LayoutIs` describes, for integers exactly if the kept values or the mode say so; without values, one bin from 0 to 1 |
| DefaultStrategies.DefaultStrategy.MoveValuesIntoHistogram | src/sim/chistogramstrategy.cc:149-156 | the bins hold the precollected values and none are kept |
| DefaultStrategies.DefaultStrategy.SetUpBins | src/sim/chistogramstrategy.cc:158-163 | from then on the bins hold all that was seen |
| DefaultStrategies.DefaultStrategy.ReduceNumBinsTo | src/sim/chistogramstrategy.cc:387-411 | in-place padding and merging compute the reduction that `EvenBins.ReduceMeetsLimit` is about |
| DefaultStrategies.DefaultStrategy.MergeAllBinsIntoOne | src/sim/chistogramstrategy.cc:413-447 | the four in-place changes leave the single bin that `EvenBins.AllInOneIsOneBin` is about; the error comes exactly if the statistic is weighted and underflows are counted, with nothing changed |
| DefaultStrategies.DefaultStrategy.ExtendBinsTo | src/sim/chistogramstrategy.cc:357-385 | the extension that `StrategyModel.ExtendToAchieves` is about, or the error in exactly the case named, with nothing changed |
| DefaultStrategies.DefaultStrategy.CollectWeighted | src/sim/chistogramstrategy.cc:201-222 | the histogram always is what collecting everything into the final bins would give; precollection ends when it is enough; number of bins bounded; the final assertion and the count error in exactly the cases named |
| DefaultStrategies.DefaultStrategy.Observe | src/sim/chistogram.cc:175-191 | an observation is recorded, in the precollected values, the bins or the counts for infinite values, or one of the errors comes in exactly the case named; weight kept, binned and counted as infinite always adds up to all weight given |
| DefaultStrategies.AfterCollecting | src/sim/chistogramstrategy.cc:217-221 | finite outliers arise exactly from values with some weight outside of the bins |
| Fsms.LabelsNeverCollide | include/omnetpp/cfsm.h:132-141 | case labels of (state, exit or enter) are pairwise different, negative states included, fit an int, and are what the switch computes |
| Fsms.Fsm.Switch | include/omnetpp/cfsm.h:83-90 | for arbitrary user code the single loop carries out the plain exit-then-enter process and ends; each enter is that of the state the exit code before it chose, each exit that of the transient state entered, and the final state and the throw are as the code of the last label says |
| Fsms.ProcessIsDisciplined | include/omnetpp/cfsm.h:34-41 | exit and enter alternate; the run ends normally only in a steady state it has entered, throws if enter code changes the state, and executes at most 127 labels, all of them exactly if the loop error or user code ends it there |
| Fsms.RunFollowsCode | include/omnetpp/cfsm.h:75-81 | over any run, label by label: an enter is that of the state that the exit code chose; an exit is that of the transient state just entered, left alone by its enter code |
| Fsms.RunEndsAsCodeSays | include/omnetpp/cfsm.h:83-90 | the final state is what the code of the last label returned, or the one it ran for if it threw, and which throw ends the run |
| DatarateChannels.UpdateIsConsistent | include/omnetpp/cdataratechannel.h:59-65 | an accepted update splits the duration into elapsed and remaining time and honours the options; when the remaining time is negative, and when it exceeds the duration |
| DatarateChannels.RemainingMayBeNegative | src/sim/cdataratechannel.cc:295-300 | an update without options that is left with a negative remaining time |
| DatarateChannels.NewPacketTakes | src/sim/cdataratechannel.cc:181-262 | how long a new packet is on the air: the duration given, else the one at the data rate; each failure, and discarding, exactly when |
| DatarateChannels.UpdateReaches | src/sim/cdataratechannel.cc:195-225 | which transmission an update is about and when it fails to find it unfinished |
| DatarateChannels.UpdateTakes | src/sim/cdataratechannel.cc:263-303 | each failure of an update exactly when, and what duration and remaining time it gets |
| DatarateChannels.FindIsFirst | src/sim/cdataratechannel.cc:213-220 | the search takes the first transmission with the ID, and only if that is unfinished |
| DatarateChannels.ProcessRecords | src/sim/cdataratechannel.cc:181-341 | what is on record afterwards: a new packet from its start for its duration, the end of the updated one moved, nothing else changed |
| DatarateChannels.WithListRemembers | src/sim/cdataratechannel.cc:328-340 | in MULTI mode the finished ones are forgotten and no others, and the finish time is the latest |
| DatarateChannels.LatestIsMaximum | src/sim/cdataratechannel.cc:330-340 | the finish time computed is the maximum of the known ones |
| DatarateChannels.PurgeKeepsLive | src/sim/cdataratechannel.cc:331-336 | the purge with swap-with-last takes away the finished transmissions and nothing else |
| DatarateChannels.BusyIsExact | src/sim/cdataratechannel.cc:142-147 | in MULTI mode the channel is busy exactly if some transmission is unfinished, finished ones having been purged or not |
| DatarateChannels.OverlapIsSharedInstant | include/omnetpp/cdataratechannel.h:36-38 | two transmissions overlap exactly if they share an instant on the air |
| DatarateChannels.StepStaysHonestIffNotTooEarly | src/sim/cdataratechannel.cc:181-341 | in SINGLE mode a send or update keeps the transmissions one after the other, and all of them over when the channel is free, exactly if it is not an update that ends the last one while an earlier one is still on |
| DatarateChannels.SingleStaysHonestIffNeverTooEarly | include/omnetpp/cdataratechannel.h:36-38 | the same over any run; and without such updates no two transmissions ever overlap |
| DatarateChannels.NextPacketMayOverlapIffFreeTooEarly | src/sim/cdataratechannel.cc:187-203 | the next packet can come to overlap with an earlier transmission exactly if the channel is free while one is still on |
| DatarateChannels.TooEarlyMayBeHarmless | src/sim/cdataratechannel.cc:187-203 | a run in which an update ends a transmission before its start and yet nothing overlaps |
| DatarateChannels.UpdateAheadOverlaps | src/sim/cdataratechannel.cc:187-203 | a run in SINGLE mode in which two transmissions overlap |
| DatarateChannels.MultiStepKeepsLatest | src/sim/cdataratechannel.cc:327-341 | in MULTI mode every step, failed and discarded ones included, keeps the finish time the maximum of the known transmissions |
| DatarateChannels.StubIsFoundAtTimeZero | src/sim/cdataratechannel.cc:205-219 | the record a discarded packet leaves behind can be updated only at time zero |
| DatarateChannels.RunKeepsKnown | src/sim/cdataratechannel.cc:181-341 | over any run in MULTI mode with a clock that does not go back, the list holds all unfinished transmissions accepted, as last updated, and the records of discarded or refused packets |
| DatarateChannels.SentIsLogged | src/sim/cdataratechannel.cc:256-260 | a new packet that is sent is logged as on the air from its start for its duration |
| DatarateChannels.MultiIsTruthfulIffPhantomsOutlasted | src/sim/cdataratechannel.cc:142-147 | after any such run, isBusy() is true exactly while some accepted transmission is unfinished, if and only if no record of a discarded or refused packet outlasts them all |
| DatarateChannels.PhantomsStayIdleIffNotRevived | src/sim/cdataratechannel.cc:205-219 | such a record is never unfinished unless it is updated at time zero |
| DatarateChannels.DiscardedPacketMakesBusy | src/sim/cdataratechannel.cc:205-219 | a discarded packet that is updated at time zero makes the channel busy with nothing sent |
| DatarateChannels.DatarateChannel.IsBusy | src/sim/cdataratechannel.cc:142-147 | in MULTI mode, true exactly if one of all transmissions ever accepted, as last updated, or a record of a discarded packet is unfinished; in SINGLE mode, if the last transmission is; unsupported in UNCHECKED mode |
| DatarateChannels.DatarateChannel.UpdateFinishTime | src/sim/cdataratechannel.cc:328-340 | one pass over the list purges and finds the maximum |
| DatarateChannels.DatarateChannel.ProcessPacket | src/sim/cdataratechannel.cc:181-354 | new state, duration, remaining duration or error as specified, in all three modes, with the log of all transmissions kept true; a new packet that is sent takes the duration given, else that at the data rate, and is on record from its start time for that long |
| Lcgs.StepIsInjective | include/omnetpp/clcg32.h:30-37 | the step permutes 1 .. 2^31-2 and fixes zero |
| Lcgs.IterateIsJump | include/omnetpp/clcg32.h:47-50 | n steps are one multiplication by 7^(5n), computed by repeated squaring |
| Lcgs.IterateInRange | include/omnetpp/clcg32.h:33 | the sequence never leaves 1 .. 2^31-2 |
| Lcgs.Lcg32.IntRand | src/sim/clcg32.cc:70-78 | for every 32-bit seed no intermediate value overflows and the new seed is 7^5 times the old one modulo 2^31-1; exactly the multiples of the modulus are stuck |
| LcgPeriod.OrderIsPeriod | include/omnetpp/clcg32.h:34 | 7^(5n) is 1 modulo 2^31-1 exactly for the multiples n of 2^31-2 |
| LcgPeriod.FullPeriod | include/omnetpp/clcg32.h:34 | from any start the sequence returns exactly at the multiples of 2^31-2 |
| LcgPeriod.EveryValueIsReached | include/omnetpp/clcg32.h:33-34 | and before that comes by every value |
| LcgSeeds.SeedsAreSpaced | include/omnetpp/clcg32.h:47-48 | automatic seed k is 8,388,608 k steps after seed 0 |
| LcgSeeds.StretchesAreDisjoint | include/omnetpp/clcg32.h:47-50 | stretches of 8,388,608 numbers from different seeds share no value, except the last two of the last stretch and the first two of the first |
| LcgSeeds.SelfTest | src/sim/clcg32.cc:61-68 | the published check value comes out, so the self-test never finds fault |
| RotateXor.ClosedForm | include/omnetpp/chasher.h:44-47 | merging n words into a value gives the value rotated n times xor each word rotated by its distance from the end modulo 32 |
| RotateXor.CollideIffDifferencesCancel | include/omnetpp/chasher.h:44-47 | streams of equal length collide exactly if their differences, so rotated, cancel |
| Hashers.BitsObeyLaws | include/omnetpp/chasher.h:44-47 | the 32-bit rotation and xor obey the laws the theory rests on, a full turn being 32 rotations |
| Hashers.RotationMovesUp | include/omnetpp/chasher.h:46-47 | every bit moves one place up and the top one to the bottom |
| Hashers.HashIsRotatedXor | include/omnetpp/chasher.h:44-47 | the hash is the xor of each word rotated by its distance from the end modulo 32 |
| Hashers.OneWordMatters | include/omnetpp/chasher.h:44-47 | streams that differ in exactly one word always hash differently |
| Hashers.ExchangeGoesUnnoticed | include/omnetpp/chasher.h:44-47 | exchanging two words a multiple of 32 places apart never changes the hash |
| Hashers.TrailingZeroIsNotNoticed | src/sim/chasher.cc:20-35 | a zero byte at the end of a block changes nothing unless the length is a multiple of four |
| Hashers.WordAt | src/sim/chasher.cc:20-36 | word i of a block is made of the four bytes from 4 i on, or as many as are left |
| Hashers.BytesOfWord | src/sim/chasher.cc:20-36 | byte i of them is byte i of the word from the bottom, and the rest is zero |
| Hashers.WordsOfLong | include/omnetpp/chasher.h:50-53 | a 64-bit value is its low and its high word |
| Hashers.Hasher.Reset | include/omnetpp/chasher.h:62 | the value is that of no words |
| Hashers.Hasher.AddWord | include/omnetpp/chasher.h:63-70 | the value is the hash of all words so far and the new one |
| Hashers.Hasher.AddLong | include/omnetpp/chasher.h:49-52 | adding 64 bits is adding the low word and then the high word |
| Hashers.Hasher.AddBytes | src/sim/chasher.cc:20-35 | adding a block is adding its little-endian words, the last one padded with zero bits |
| KSplits.SplitKeepsStructure | src/sim/cksplit.cc:370-399 | splitting a cell keeps parents, links and depths consistent |
| KSplits.SplitKeepsGaps | src/sim/cksplit.cc:370-399 | and the totals: the new grid inherits the cell's value as its mother share |
| KSplits.NewRootKeepsStructure | src/sim/cksplit.cc:415-447 | a new root grid keeps parents, links and depths consistent |
| KSplits.NewRootKeepsTotals | src/sim/cksplit.cc:429-435 | and every grid's total the sum of its cells, subgrids and mother share |
| KSplits.NewRootsLeaveGrids | src/sim/cksplit.cc:415-447 | doubling the range any number of times, upward or downward, leaves every grid where it was, with its cells |
| KSplits.BumpMovesGap | src/sim/cksplit.cc:315 | counting an observation in a grid moves the one missing observation from its parent to it |
| KSplits.TotalIsWeight | include/omnetpp/cksplit.h:54-61 | with exact totals the root total is the sum over the whole tree |
| KSplitValues.SharesAddUp | src/sim/cksplit.cc:514-528 | for any lambda, the shares of the inherited observations handed to the cells of a grid add up to what it inherited, provided something was counted in the grid itself |
| KSplitValues.CellsDivide | src/sim/cksplit.cc:489-529 | at every level, what a cell shows beyond its own observations is on the straight line, by lambda, between half of what the grid inherited and the part proportional to what was counted in the cell |
| KSplitValues.EvenDivision | src/sim/cksplit.cc:62-67 | with lambda 0, the default, each cell of a grid gets half |
| KSplitValues.ProportionalDivision | src/sim/cksplit.cc:526-528 | with lambda 1 what the cells get is to each other as what was counted in them |
| KSplitValues.GridSum | src/sim/cksplit.cc:489-529 | with values that hand on what each grid inherits, the cells in and below a grid add up to what the grid counted and inherited |
| KSplitValues.CellValuesAddUp | src/sim/cksplit.cc:489-529 | with exact whole totals, the values of all cells add up to the root total if and only if every grid has counted something since it was created, whatever the division criterion; otherwise some value is not a number |
| KSplitValues.HalfIsCut | src/sim/cksplit.cc:519-524 | an observation of weight one half of which no cell shows anything |
| KSplitValues.NewRootKeeps | src/sim/cksplit.cc:415-447 | a new root grid leaves all grids below it populated exactly if they were and something has been counted |
| KSplitCells.CellCount | src/sim/cksplit.cc:604-609 | there are as many cells as grids in the vector, counting its unused element |
| KSplitCells.CellsTileRange | src/sim/cksplit.cc:709-751 | the cells cover the range from left to right without gap or overlap |
| KSplitObjects.CellContains | src/sim/cksplit.cc:318-324 | the cell computed by division is the one that contains the value |
| KSplitObjects.KSplit.constructor | src/sim/cksplit.cc:248-263 | a new root grid is consistent, with exact totals and nothing taken in |
| KSplitObjects.KSplit.Descend | src/sim/cksplit.cc:314-336 | the search ends at the leaf cell that contains the value, by the edges that the cell is shown with, every grid on the way having counted it and nothing else changed |
| KSplitObjects.KSplit.SplitCell | src/sim/cksplit.cc:370-399 | the tree with the cell split, and one more cell |
| KSplitObjects.KSplit.InsertIntoGrids | src/sim/cksplit.cc:299-368 | the weight goes to the one leaf cell whose edges contain the value, which is split first exactly if splits are enabled, the criterion says so and the cell is wide enough; the root total is the number of observations so far, totals stay exact if and only if the weight is one, and every grid is populated afterwards if those below the root were before |
| KSplitObjects.KSplit.NewRootGrids | src/sim/cksplit.cc:415-475 | the range grows to take in the value and the loop ends; upward the value is counted and totals stay exact, but grids stay populated only if something was counted before; downward, in exactly the cases named, either the link to the old root is overwritten and the tree is a tree no more, or the increment leaves the array |
| KSplitObjects.ExtensionLeavesGrids | src/sim/cksplit.cc:415-475 | after an extension upward the old cells are where they were with what they held, and the observation is in the upper half |
| KSplitObjects.KSplit.BinsAddUp | src/sim/cksplit.cc:611-618 | over the whole life of the object, with weights of one: the values of all bins add up to the number of observations taken in, if and only if every grid is populated, which holds unless the range was extended before the first observation |
| KSplitObjects.KSplit.IteratorToCell | src/sim/cksplit.cc:572-602 | the loop reaches the cell of that number, which is the one at that place from left to right |
| KSplitObjects.KSplit.GetBinValue | src/sim/cksplit.cc:611-618 | the value of the cell at that place, dividing the inherited observations as `KSplitValues.CellsDivide` says, 0 beyond the last; the number of cells kept is the number of leaf cells |
| KSplitObjects.KSplit.GetBinEdge | src/sim/cksplit.cc:620-627 | the left edge of that cell, the end of the range beyond the last |
| KSplitObjects.KSplit.EdgesInOrder | src/sim/cksplit.cc:620-627 | the edges increase from one end of the range to the other, each cell ending where the next begins |
| KSplitObjects.Iterator.constructor | src/sim/cksplit.cc:697-707 | starts at the leftmost cell, at the lower end of the range, with all leaves ahead |
| KSplitObjects.Iterator.Next | src/sim/cksplit.cc:721-751 | moves to the next leaf from left to right, whose minimum is the old maximum; ends after the last, whose maximum is the end of the range |

## Left out

Of the modelled classes:

- FesRun.RunRefinesSortedList: for legal runs, which excludes scheduling in the past and scheduling ahead of an event that was put back; `FesRun.OrderedThroughoutIffLegal` shows the second exclusion to be exact.
- EventHeaps.EventHeap.Insert: the assertion against causality violations, which is compiled out of release builds, is not a branch of the model; the current simulation time is a parameter.
- EventHeaps.QSort: stands for the C library's `qsort()`, of which only the contract is used; its body is an insertion sort.
- Events.Event.SetArrivalTime: the assertion that the event is not scheduled is modelled as a refusal.
- Events: `priority` is a 16-bit integer in the source and `insertOrder` a 64-bit one; the model's integers are unbounded, so the counter never wraps.
- The future event set's `clear()`, copying, `checkHeap()` and the ownership of events.
- SignalFire.Fire: callbacks are functions of all notifications so far, given as lists of calls; what a listener does beside calling the signal API is not modelled. The registry is modelled on values; the table of one component is also a class (`ComponentSignals`).
- SignalFire.EmitNotifiesEverySubscription: for listeners that neither subscribe nor unsubscribe while being notified; without that, FireCallsEachOnce says what is called.
- Signals.SubscribeKeepsInv: signal IDs are not negative; the hooks `subscribedTo()` and `unsubscribedFrom()` do nothing.
- Signals: the mutex and signals of several threads, `checkSignals`, result recorders, `fireFinish()`.
- ComponentSignals.Component.CreateEntry: stands for `push_back()` and `std::sort()`; it inserts by exchanging neighbours.
- Display strings: notification of the owner, the shared character buffer that names and arguments point into (what an unfinished expression runs into there is arbitrary in the model), null arguments passed by callers, and `updateWith()` of an object by itself.
- DisplayText: characters are as in the source, one `char` each; the contents of `${...}` expressions are skipped and not evaluated.
- Histograms: IEEE floating point. Values, edges and weights are reals and infinities a case of their own, so the branches that guard against lost precision (repeated edges, `nextafter()`, denormals) do not occur; NaN does not occur.
- Histograms.Histogram.MergeWith: the other histogram is of the same class; the statistics of the base class, saving, loading and packing are not modelled.
- DefaultStrategies.DefaultStrategy.CollectWeighted: for a hint for the number of bins of -1 or from 1 to 20,000, for which the number of bins provably stays below the largest `int` at all times.
- DefaultStrategies.DefaultStrategy.Observe: weights are not negative; finite values may have any weight in `CollectWeighted`.
- The strategy's private switches `autoExtend`, `binMerging` and `maxNumBins`, which nothing sets, have their initial values.
- The other histogram strategies (fixed range, auto range) and the older precollection-based estimators.
- Fsms.Fsm.Switch: the printing of state names (`FSM_Print`) and the state's name.
- DatarateChannels.DatarateChannel.ProcessPacket: bit errors, propagation delay, emitted signals and the fields set in the packet; times are integers and the duration at the data rate is given with the packet.
- DatarateChannels: `forceTransmissionFinishTime()`, and changes of the mode while the channel is in use.
- Lcgs: `intRand(n)`, the conversions to `double`, and the reading of seeds from the configuration.
- Hashers: the textual form of a hash and its comparison.
- KSplits: gridv[] never needs expanding, the split criterion is an arbitrary function, and DISTRIBUTE_ON_CHILD_SPLIT is off, as in the source.
- KSplitObjects.KSplit.BinsAddUp: for observations of weight one; with other weights totals count observations and cells sum weights (`KSplitObjects.KSplit.InsertIntoGrids`), and fractions are cut off (`KSplitValues.HalfIsCut`).
- KSplitObjects.KSplit.NewRootGrids: the access outside of the array in a downward extension is where the model ends.
- KSplitObjects.KSplit.GetBinValue: cell numbers below zero, for which the source's loop does not end or leaves the tree.
- KSplitObjects.Iterator.Next: moving backward, and starting over from the end.
- k-split's precollection and the emptying of all grids at its end (`resetGrids()`).

Other parts of the repository that would mostly add easier members or rest on code outside of the
kernel: gate connection paths, modules and component lifecycle, parameters, message passing, NED and expression parsing, result recording, random variates,
the Mersenne Twister, canvas and figures, user interfaces, logging, configuration, parallel simulation.
