/**
 Transmission channels: keeping track of ongoing transmissions in the SINGLE, MULTI and UNCHECKED
 modes, and updating them.
 */
module DatarateChannels {
  import opened Options

  datatype Mode = SingleMode | MultiMode | UncheckedMode

  datatype Tx = Tx(startTime: int, finishTime: int, id: int)

  /** A packet, with the duration that the channel's data rate gives it, if there is a data rate. */
  datatype Packet = Packet(isUpdate: bool, id: int, atRate: Option<nat>)

  /** Simulation time is a 64-bit count; this value stands for an option that was not given. */
  const DURATION_UNSPEC := -1

  datatype SendOptions = SendOptions(duration: int, remaining: int)

  datatype Error =
    | Busy | OtherTransmission | MissedEnd | NotFound | NegativeDuration | NegativeRemaining
    | UnknownDuration | Underspecified | Inconsistent | TooShort

  datatype Result = Sent(duration: int, remaining: int) | Discarded | Failed(error: Error)

  /** singleTx, txList and channelFinishTime. */
  datatype State = State(single: Tx, list: seq<Tx>, finish: int)

  const IDLE := Tx(0, 0, -1)

  // ---------------------------------------------------------------- durations

  function NewTiming(o: SendOptions, atRate: Option<nat>): Result
  {
    if o.duration != DURATION_UNSPEC then
      if o.duration < 0 then Failed(NegativeDuration) else Sent(o.duration, o.duration)
    else if atRate.Some? then Sent(atRate.value, atRate.value)
    else Failed(UnknownDuration)
  }

  function UpdateTiming(o: SendOptions, atRate: Option<nat>, mode: Mode, elapsed: int): Result
  {
    var d, r := o.duration != DURATION_UNSPEC, o.remaining != DURATION_UNSPEC;
    if d && o.duration < 0 then Failed(NegativeDuration)
    else if r && o.remaining < 0 then Failed(NegativeRemaining)
    else if mode == UncheckedMode then (if !d || !r then Failed(Underspecified) else Sent(o.duration, o.remaining))
    else if d && r then
      if o.duration != elapsed + o.remaining then Failed(Inconsistent) else Sent(o.duration, o.remaining)
    else if d then
      if o.duration - elapsed < 0 then Failed(TooShort) else Sent(o.duration, o.duration - elapsed)
    else if r then Sent(elapsed + o.remaining, o.remaining)
    else if atRate.None? then Failed(UnknownDuration)
    else Sent(atRate.value, atRate.value - elapsed)
  }

  /** An accepted update in a mode that keeps track always splits the duration into elapsed and
      remaining time, and honours what the options give. The remaining time is not negative unless
      neither option was given and the data rate says the packet should be over by now; it is no
      longer than the duration exactly when the transmission has started. */
  lemma UpdateIsConsistent(o: SendOptions, atRate: Option<nat>, mode: Mode, elapsed: int)
    requires mode != UncheckedMode && UpdateTiming(o, atRate, mode, elapsed).Sent?
    ensures var r := UpdateTiming(o, atRate, mode, elapsed);
            && r.duration == elapsed + r.remaining
            && (o.duration != DURATION_UNSPEC ==> r.duration == o.duration)
            && (o.remaining != DURATION_UNSPEC ==> r.remaining == o.remaining)
            && (r.remaining >= 0 <==>
                  o.duration != DURATION_UNSPEC || o.remaining != DURATION_UNSPEC || atRate.value >= elapsed)
            && (r.remaining <= r.duration <==> elapsed >= 0)
            && (elapsed >= 0 ==> r.duration >= 0)
  {
  }

  /** The missing sanity check: a shorter packet sent as an update without options. */
  lemma RemainingMayBeNegative()
    ensures UpdateTiming(SendOptions(DURATION_UNSPEC, DURATION_UNSPEC), Some(2), SingleMode, 5) == Sent(2, -3)
  {
  }

  // ---------------------------------------------------------------- the list of transmissions

  /** The latest finish time, or zero. */
  function Latest(list: seq<Tx>): int
  {
    if list == [] then 0
    else
      var rest := Latest(list[..|list| - 1]);
      if list[|list| - 1].finishTime > rest then list[|list| - 1].finishTime else rest
  }

  lemma {:induction false} LatestIsMaximum(list: seq<Tx>)
    ensures Latest(list) >= 0 && forall tx :: tx in list ==> tx.finishTime <= Latest(list)
    ensures Latest(list) == 0 || exists tx :: tx in list && tx.finishTime == Latest(list)
  {
    if list != [] {
      var last := list[|list| - 1];
      LatestIsMaximum(list[..|list| - 1]);
      assert list == list[..|list| - 1] + [last];
      if last.finishTime > Latest(list[..|list| - 1]) {
        assert last in list;
      } else if Latest(list[..|list| - 1]) != 0 {
        var tx :| tx in list[..|list| - 1] && tx.finishTime == Latest(list[..|list| - 1]);
        assert tx in list;
      }
    }
  }

  /** The purge from index i on: an expired entry is overwritten by the last one. */
  function Purged(list: seq<Tx>, now: int, i: nat): seq<Tx>
    requires i <= |list|
    decreases |list| - i
  {
    if i == |list| then list
    else if list[i].finishTime < now then Purged(list[i := list[|list| - 1]][..|list| - 1], now, i)
    else Purged(list, now, i + 1)
  }

  lemma SwapOut(list: seq<Tx>, i: nat)
    requires i < |list|
    ensures multiset(list) == multiset(list[i := list[|list| - 1]][..|list| - 1]) + multiset{list[i]}
  {
    var n, last := |list| - 1, list[|list| - 1];
    if i == n {
      assert list == list[..n] + [last] && list[i := last][..n] == list[..n];
    } else {
      assert list == list[..i] + [list[i]] + list[i + 1..n] + [last];
      assert list[i := last][..n] == list[..i] + [last] + list[i + 1..n];
    }
  }

  /** The purge takes away the expired transmissions and nothing else. */
  lemma {:induction false} PurgeKeepsLive(list: seq<Tx>, now: int, i: nat)
    requires i <= |list| && forall k :: 0 <= k < i ==> list[k].finishTime >= now
    ensures forall tx: Tx :: multiset(Purged(list, now, i))[tx] == if tx.finishTime >= now then multiset(list)[tx] else 0
    decreases |list| - i
  {
    if i == |list| {
      forall tx: Tx | tx.finishTime < now
        ensures tx !in multiset(list)
      {
        assert tx !in list;
      }
    } else if list[i].finishTime < now {
      var shorter := list[i := list[|list| - 1]][..|list| - 1];
      PurgeKeepsLive(shorter, now, i);
      SwapOut(list, i);
    } else {
      PurgeKeepsLive(list, now, i + 1);
    }
  }

  /** Until the next send, the channel is busy exactly while some known transmission is unfinished,
      also when an update has just shortened the one that finished last. */
  lemma BusyIsExact(list: seq<Tx>, now: int, later: int)
    requires 0 <= now <= later
    ensures Latest(Purged(list, now, 0)) > later <==> exists tx :: tx in list && tx.finishTime > later
  {
    var kept := Purged(list, now, 0);
    PurgeKeepsLive(list, now, 0);
    LatestIsMaximum(kept);
    forall tx: Tx | tx.finishTime >= now
      ensures tx in list <==> tx in kept
    {
      assert multiset(kept)[tx] == multiset(list)[tx];
      assert tx in list <==> tx in multiset(list);
      assert tx in kept <==> tx in multiset(kept);
    }
    if Latest(kept) > later {
      var tx :| tx in kept && tx.finishTime == Latest(kept);
      assert tx in list;
    }
  }

  // ---------------------------------------------------------------- processPacket()

  /** Index of the first transmission with the ID, if that one has not finished. */
  function Find(list: seq<Tx>, id: int, now: int, i: nat): (r: Option<nat>)
    requires i <= |list|
    ensures r.Some? ==> i <= r.value < |list| && list[r.value].id == id && list[r.value].finishTime >= now
    decreases |list| - i
  {
    if i == |list| then None
    else if list[i].id == id then (if list[i].finishTime >= now then Some(i) else None)
    else Find(list, id, now, i + 1)
  }

  function ProcessSingle(st: State, disabled: bool, p: Packet, o: SendOptions, t: int): (State, Result)
  {
    if !p.isUpdate then
      if t < st.single.finishTime then (st, Failed(Busy))
      else if disabled then (st, Discarded)
      else
        var r := NewTiming(o, p.atRate);
        (if r.Sent? then State(Tx(t, t + r.duration, p.id), st.list, t + r.duration) else st, r)
    else if p.id != st.single.id then (st, Failed(OtherTransmission))
    else if t > st.single.finishTime then (st, Failed(MissedEnd))
    else
      var r := UpdateTiming(o, p.atRate, SingleMode, t - st.single.startTime);
      (if r.Sent? then State(st.single.(finishTime := t + r.remaining), st.list, t + r.remaining) else st, r)
  }

  function ProcessMulti(st: State, disabled: bool, p: Packet, o: SendOptions, t: int, now: int): (State, Result)
  {
    if !p.isUpdate then
      var stub := st.(list := st.list + [Tx(0, 0, p.id)]);
      if disabled then (stub, Discarded)
      else
        var r := NewTiming(o, p.atRate);
        (if r.Sent? then WithList(st, st.list + [Tx(t, t + r.duration, p.id)], now) else stub, r)
    else
      match Find(st.list, p.id, now, 0)
      case None => (st, Failed(NotFound))
      case Some(k) =>
        var r := UpdateTiming(o, p.atRate, MultiMode, t - st.list[k].startTime);
        (if r.Sent? then WithList(st, st.list[k := st.list[k].(finishTime := t + r.remaining)], now) else st, r)
  }

  function WithList(st: State, list: seq<Tx>, now: int): State
  {
    st.(list := Purged(list, now, 0), finish := Latest(Purged(list, now, 0)))
  }

  function ProcessUnchecked(disabled: bool, p: Packet, o: SendOptions): Result
  {
    if disabled && !p.isUpdate then Discarded
    else if p.isUpdate then UpdateTiming(o, p.atRate, UncheckedMode, 0)
    else NewTiming(o, p.atRate)
  }

  function Process(st: State, mode: Mode, disabled: bool, p: Packet, o: SendOptions, t: int, now: int): (State, Result)
  {
    match mode
    case SingleMode => ProcessSingle(st, disabled, p, o, t)
    case MultiMode => ProcessMulti(st, disabled, p, o, t, now)
    case UncheckedMode => (st, ProcessUnchecked(disabled, p, o))
  }

  // ---------------------------------------------------------------- what becomes of a packet

  /** The duration of a new packet: the one given, else the one at the data rate. */
  lemma NewPacketTakes(st: State, mode: Mode, disabled: bool, p: Packet, o: SendOptions, t: int, now: int)
    requires !p.isUpdate
    ensures var r := Process(st, mode, disabled, p, o, t, now).1;
            && (r == Failed(Busy) <==> mode == SingleMode && t < st.single.finishTime)
            && (r == Discarded <==> disabled && !(mode == SingleMode && t < st.single.finishTime))
            && (r != Failed(Busy) && r != Discarded ==>
                  && (r == Failed(NegativeDuration) <==> o.duration != DURATION_UNSPEC && o.duration < 0)
                  && (r == Failed(UnknownDuration) <==> o.duration == DURATION_UNSPEC && p.atRate == None)
                  && (o.duration >= 0 ==> r == Sent(o.duration, o.duration))
                  && (o.duration == DURATION_UNSPEC && p.atRate.Some? ==> r == Sent(p.atRate.value, p.atRate.value)))
  {
  }

  lemma NewPacketIfSent(st: State, mode: Mode, disabled: bool, p: Packet, o: SendOptions, t: int, now: int)
    ensures var r := Process(st, mode, disabled, p, o, t, now).1;
            !p.isUpdate && r.Sent? ==>
              && r.remaining == r.duration >= 0 && (o.duration == DURATION_UNSPEC ==> p.atRate.Some?)
              && r.duration == if o.duration != DURATION_UNSPEC then o.duration else p.atRate.value
  {
    if !p.isUpdate {
      NewPacketTakes(st, mode, disabled, p, o, t, now);
    }
  }

  /** What an update of a transmission started at the given time comes to, if it is accepted by the
      checks that go before. */
  lemma UpdateTakes(o: SendOptions, atRate: Option<nat>, mode: Mode, elapsed: int)
    ensures var r := UpdateTiming(o, atRate, mode, elapsed);
            var duration, remaining := o.duration != DURATION_UNSPEC, o.remaining != DURATION_UNSPEC;
            && (r == Failed(NegativeDuration) <==> duration && o.duration < 0)
            && (r == Failed(NegativeRemaining) <==> remaining && o.remaining < 0 && !(duration && o.duration < 0))
            && (!(duration && o.duration < 0) && !(remaining && o.remaining < 0) ==>
                  && (r == Failed(Underspecified) <==> mode == UncheckedMode && !(duration && remaining))
                  && (r == Failed(Inconsistent) <==>
                        mode != UncheckedMode && duration && remaining && o.duration != elapsed + o.remaining)
                  && (r == Failed(TooShort) <==> mode != UncheckedMode && duration && !remaining && o.duration < elapsed)
                  && (r == Failed(UnknownDuration) <==> mode != UncheckedMode && !duration && !remaining && atRate == None)
                  && (r.Sent? && duration ==> r.duration == o.duration)
                  && (r.Sent? && remaining ==> r.remaining == o.remaining)
                  && (r.Sent? && !duration && !remaining ==> r.duration == atRate.value)
                  && (r.Sent? && mode != UncheckedMode ==> r.duration == elapsed + r.remaining)
                  && (r.Failed? ==> r.error in {Underspecified, Inconsistent, TooShort, UnknownDuration}))
  {
  }

  /** An update reaches the one transmission that SINGLE mode keeps, or the first one that MULTI mode
      keeps under its ID, and has to find it unfinished. */
  lemma UpdateReaches(st: State, mode: Mode, disabled: bool, p: Packet, o: SendOptions, t: int, now: int)
    requires p.isUpdate
    ensures var r := Process(st, mode, disabled, p, o, t, now).1;
            && (r == Failed(OtherTransmission) <==> mode == SingleMode && p.id != st.single.id)
            && (r == Failed(MissedEnd) <==> mode == SingleMode && p.id == st.single.id && t > st.single.finishTime)
            && (r == Failed(NotFound) <==> mode == MultiMode && Find(st.list, p.id, now, 0) == None)
            && r != Discarded
            && (mode == SingleMode && p.id == st.single.id && t <= st.single.finishTime ==>
                  r == UpdateTiming(o, p.atRate, mode, t - st.single.startTime))
            && (mode == MultiMode && Find(st.list, p.id, now, 0).Some? ==>
                  r == UpdateTiming(o, p.atRate, mode, t - st.list[Find(st.list, p.id, now, 0).value].startTime))
            && (mode == UncheckedMode ==> r == UpdateTiming(o, p.atRate, mode, 0))
  {
  }

  lemma {:induction false} FindIsFirst(list: seq<Tx>, id: int, now: int, i: nat)
    requires i <= |list|
    ensures var k := Find(list, id, now, i);
            && (k.Some? ==> i <= k.value < |list| && list[k.value].id == id && list[k.value].finishTime >= now
                            && forall j :: i <= j < k.value ==> list[j].id != id)
            && (k == None ==> forall j :: i <= j < |list| && list[j].id == id && (forall l :: i <= l < j ==> list[l].id != id) ==>
                                list[j].finishTime < now)
    decreases |list| - i
  {
    if i < |list| && list[i].id != id {
      FindIsFirst(list, id, now, i + 1);
    }
  }

  /** What is on record afterwards. A new packet has its own record from its start time on; an update
      moves the end of the one it is about; nothing else changes, but MULTI mode forgets what has
      finished (WithList, see below), and keeps an empty record of a new packet that is not sent. */
  ghost predicate Recorded(st: State, mode: Mode, p: Packet, t: int, now: int, r: Result, st': State)
  {
    match mode
    case UncheckedMode => st' == st
    case SingleMode =>
      if !r.Sent? then st' == st
      else
        && st'.list == st.list && st'.finish == st'.single.finishTime
        && st'.single == if p.isUpdate then Tx(st.single.startTime, t + r.remaining, st.single.id) else Tx(t, t + r.duration, p.id)
    case MultiMode => st'.single == st.single && MultiRecorded(st, p, t, now, r, st')
  }

  ghost predicate MultiRecorded(st: State, p: Packet, t: int, now: int, r: Result, st': State)
  {
    if !r.Sent? then st' == if p.isUpdate then st else State(st.single, st.list + [Tx(0, 0, p.id)], st.finish)
    else if p.isUpdate then
      exists k ::
        && 0 <= k < |st.list| && st.list[k].id == p.id
        && st' == WithList(st, st.list[k := Tx(st.list[k].startTime, t + r.remaining, p.id)], now)
    else st' == WithList(st, st.list + [Tx(t, t + r.duration, p.id)], now)
  }

  /** The list without what has finished, and the latest finish time. */
  ghost predicate Remembered(list: seq<Tx>, now: int, st: State)
  {
    && (forall tx: Tx :: multiset(st.list)[tx] == if tx.finishTime >= now then multiset(list)[tx] else 0)
    && (forall tx :: tx in st.list ==> tx.finishTime <= st.finish)
    && (st.finish == 0 || exists tx :: tx in st.list && tx.finishTime == st.finish)
  }

  /** That is what is left on record. */
  lemma WithListRemembers(st: State, list: seq<Tx>, now: int)
    ensures Remembered(list, now, WithList(st, list, now))
  {
    PurgeKeepsLive(list, now, 0);
    LatestIsMaximum(Purged(list, now, 0));
  }

  lemma ProcessRecords(st: State, mode: Mode, disabled: bool, p: Packet, o: SendOptions, t: int, now: int)
    ensures var (st', r) := Process(st, mode, disabled, p, o, t, now); Recorded(st, mode, p, t, now, r, st')
  {
    match mode
    case UncheckedMode =>
    case SingleMode => SingleRecords(st, disabled, p, o, t, now);
    case MultiMode =>
      if p.isUpdate {
        MultiRecordsUpdate(st, disabled, p, o, t, now);
      } else {
        MultiRecordsNew(st, disabled, p, o, t, now);
      }
  }

  lemma SingleRecords(st: State, disabled: bool, p: Packet, o: SendOptions, t: int, now: int)
    ensures var (st', r) := ProcessSingle(st, disabled, p, o, t); Recorded(st, SingleMode, p, t, now, r, st')
  {
  }

  lemma MultiRecordsNew(st: State, disabled: bool, p: Packet, o: SendOptions, t: int, now: int)
    requires !p.isUpdate
    ensures var (st', r) := ProcessMulti(st, disabled, p, o, t, now); MultiRecorded(st, p, t, now, r, st') && st'.single == st.single
  {
  }

  lemma MultiRecordsUpdate(st: State, disabled: bool, p: Packet, o: SendOptions, t: int, now: int)
    requires p.isUpdate
    ensures var (st', r) := ProcessMulti(st, disabled, p, o, t, now); MultiRecorded(st, p, t, now, r, st') && st'.single == st.single
  {
    var f := Find(st.list, p.id, now, 0);
    if f.Some? {
      var k := f.value;
      var r := UpdateTiming(o, p.atRate, MultiMode, t - st.list[k].startTime);
      if r.Sent? {
        assert st.list[k].(finishTime := t + r.remaining) == Tx(st.list[k].startTime, t + r.remaining, p.id);
      }
    }
  }

  // ---------------------------------------------------------------- SINGLE mode over runs

  datatype Send = Send(p: Packet, o: SendOptions, t: int, disabled: bool)

  /** The channel after some sends, with all transmissions so far as they were last updated. */
  datatype Log = Log(st: State, all: seq<Tx>)

  function Step(g: Log, s: Send): Log
  {
    var (st', r) := ProcessSingle(g.st, s.disabled, s.p, s.o, s.t);
    if !r.Sent? then Log(st', g.all)
    else if !s.p.isUpdate || g.all == [] then Log(st', g.all + [st'.single])
    else Log(st', g.all[|g.all| - 1 := st'.single])
  }

  function RunSingle(g: Log, sends: seq<Send>): Log
    decreases |sends|
  {
    if sends == [] then g else RunSingle(Step(g, sends[0]), sends[1..])
  }

  predicate OnAir(tx: Tx, time: int)
  {
    tx.startTime <= time < tx.finishTime
  }

  predicate Nonempty(tx: Tx)
  {
    tx.startTime < tx.finishTime
  }

  predicate Overlap(a: Tx, b: Tx)
  {
    Nonempty(a) && Nonempty(b) && a.startTime < b.finishTime && b.startTime < a.finishTime
  }

  lemma OverlapIsSharedInstant(a: Tx, b: Tx)
    ensures Overlap(a, b) <==> exists time :: OnAir(a, time) && OnAir(b, time)
  {
    if Overlap(a, b) {
      var time := if a.startTime < b.startTime then b.startTime else a.startTime;
      assert OnAir(a, time) && OnAir(b, time);
    }
  }

  /** No two transmissions are on the air at the same time. */
  ghost predicate Exclusive(all: seq<Tx>)
  {
    forall i, j :: 0 <= i < j < |all| ==> !Overlap(all[i], all[j])
  }

  /** Each transmission starts when those before it are over. */
  ghost predicate Sequential(all: seq<Tx>)
  {
    forall i, j :: 0 <= i < j < |all| && Nonempty(all[i]) ==> all[i].finishTime <= all[j].startTime
  }

  lemma SequentialIsExclusive(all: seq<Tx>)
    requires Sequential(all)
    ensures Exclusive(all)
  {
  }

  lemma StepState(g: Log, s: Send)
    ensures Step(g, s).st == ProcessSingle(g.st, s.disabled, s.p, s.o, s.t).0
  {
  }

  /** The channel's record is the last transmission. */
  ghost predicate Linked(g: Log)
  {
    && g.st.finish == g.st.single.finishTime
    && g.st.single == if g.all == [] then IDLE else g.all[|g.all| - 1]
  }

  lemma StepKeepsLinked(g: Log, s: Send)
    requires Linked(g)
    ensures Linked(Step(g, s))
  {
  }

  /** The channel does not say it is free before all transmissions are over. */
  ghost predicate Honest(g: Log)
  {
    && Linked(g) && Sequential(g.all)
    && forall i :: 0 <= i < |g.all| && Nonempty(g.all[i]) ==> g.all[i].finishTime <= g.st.finish
  }

  /** send() refuses updates without an ID; only the first send could be an update of nothing. */
  predicate HasId(s: Send)
  {
    s.p.isUpdate ==> s.p.id != -1
  }

  /** An accepted update that gives only the remaining time, and ends the last transmission while an
      earlier one is still on; only possible if the last one was sent ahead of time. */
  ghost predicate EndsTooEarly(g: Log, s: Send)
  {
    && s.p.isUpdate && s.p.id == g.st.single.id && s.t <= g.st.single.finishTime
    && s.o.duration == DURATION_UNSPEC && s.o.remaining != DURATION_UNSPEC && s.o.remaining >= 0
    && exists i :: 0 <= i < |g.all| - 1 && Nonempty(g.all[i]) && g.all[i].finishTime > s.t + s.o.remaining
  }

  lemma StepStaysHonestIffNotTooEarly(g: Log, s: Send)
    requires Honest(g) && HasId(s)
    ensures Honest(Step(g, s)) <==> !EndsTooEarly(g, s)
  {
    if s.p.isUpdate {
      UpdateStaysHonest(g, s);
    }
  }

  lemma UpdateStaysHonest(g: Log, s: Send)
    requires Honest(g) && HasId(s) && s.p.isUpdate
    ensures Honest(Step(g, s)) <==> !EndsTooEarly(g, s)
  {
    var r := ProcessSingle(g.st, s.disabled, s.p, s.o, s.t).1;
    if r.Sent? {
      var all := Step(g, s).all;
      var end := s.t + r.remaining;
      assert all[|all| - 1] == g.st.single.(finishTime := end);
      assert end < g.st.single.startTime ==> s.o.duration == DURATION_UNSPEC && r.remaining == s.o.remaining;
      if EndsTooEarly(g, s) {
        var i :| 0 <= i < |g.all| - 1 && Nonempty(g.all[i]) && g.all[i].finishTime > end;
        assert all[i] == g.all[i];
      }
    }
  }

  ghost predicate HonestThroughout(g: Log, sends: seq<Send>)
    decreases |sends|
  {
    Honest(g) && (sends == [] || HonestThroughout(Step(g, sends[0]), sends[1..]))
  }

  ghost predicate NeverTooEarly(g: Log, sends: seq<Send>)
    decreases |sends|
  {
    sends == [] || (!EndsTooEarly(g, sends[0]) && NeverTooEarly(Step(g, sends[0]), sends[1..]))
  }

  ghost predicate NeverOverlaps(g: Log, sends: seq<Send>)
    decreases |sends|
  {
    Exclusive(g.all) && (sends == [] || NeverOverlaps(Step(g, sends[0]), sends[1..]))
  }

  /** Over any run of sends and updates the channel stays honest exactly if no update ends a
      transmission while an earlier one is on; and then no two transmissions ever overlap. */
  lemma {:induction false} SingleStaysHonestIffNeverTooEarly(g: Log, sends: seq<Send>)
    requires Honest(g) && forall k :: 0 <= k < |sends| ==> HasId(sends[k])
    ensures HonestThroughout(g, sends) <==> NeverTooEarly(g, sends)
    ensures NeverTooEarly(g, sends) ==> NeverOverlaps(g, sends)
    decreases |sends|
  {
    SequentialIsExclusive(g.all);
    if sends != [] {
      StepStaysHonestIffNotTooEarly(g, sends[0]);
      if !EndsTooEarly(g, sends[0]) {
        SingleStaysHonestIffNeverTooEarly(Step(g, sends[0]), sends[1..]);
      } else {
        NotHonestNow(Step(g, sends[0]), sends[1..]);
      }
    }
  }

  lemma NotHonestNow(g: Log, sends: seq<Send>)
    requires !Honest(g)
    ensures !HonestThroughout(g, sends)
  {
  }

  /** A send of a new packet that makes it overlap with an earlier transmission. */
  ghost predicate Collides(g: Log, s: Send)
  {
    !s.p.isUpdate && !Exclusive(Step(g, s).all)
  }

  /** In SINGLE mode two transmissions can come to overlap with the next packet exactly if the
      channel has become free while one of them is on. */
  lemma NextPacketMayOverlapIffFreeTooEarly(g: Log)
    requires Linked(g) && Sequential(g.all)
    ensures (exists s :: Collides(g, s)) <==>
            (exists i :: 0 <= i < |g.all| && Nonempty(g.all[i]) && g.all[i].finishTime > g.st.finish)
  {
    SequentialIsExclusive(g.all);
    if i :| 0 <= i < |g.all| && Nonempty(g.all[i]) && g.all[i].finishTime > g.st.finish {
      var t := if g.st.finish < g.all[i].startTime then g.all[i].startTime else g.st.finish;
      var s := Send(Packet(false, 0, Some(1)), SendOptions(DURATION_UNSPEC, DURATION_UNSPEC), t, false);
      var all := Step(g, s).all;
      assert all == g.all + [Tx(t, t + 1, 0)];
      assert Overlap(all[i], all[|all| - 1]);
      assert Collides(g, s);
    } else {
      forall s
        ensures !Collides(g, s)
      {
        NoCollision(g, s);
      }
    }
  }

  lemma NoCollision(g: Log, s: Send)
    requires Linked(g) && Exclusive(g.all)
    requires forall i :: 0 <= i < |g.all| && Nonempty(g.all[i]) ==> g.all[i].finishTime <= g.st.finish
    ensures !Collides(g, s)
  {
  }

  /** Ending a transmission too early does not always have consequences: here the next packet happens
      to be sent after the earlier transmission. */
  lemma TooEarlyMayBeHarmless()
    ensures var g := Log(State(Tx(10, 20, 2), [], 20), [Tx(0, 10, 1), Tx(10, 20, 2)]);
            var cut := Send(Packet(true, 2, None), SendOptions(DURATION_UNSPEC, 0), 3, false);
            var next := Send(Packet(false, 3, Some(10)), SendOptions(DURATION_UNSPEC, DURATION_UNSPEC), 10, false);
            && Honest(g) && EndsTooEarly(g, cut) && !Honest(Step(g, cut)) && NeverOverlaps(g, [cut, next])
  {
    var g := Log(State(Tx(10, 20, 2), [], 20), [Tx(0, 10, 1), Tx(10, 20, 2)]);
    var cut := Send(Packet(true, 2, None), SendOptions(DURATION_UNSPEC, 0), 3, false);
    var next := Send(Packet(false, 3, Some(10)), SendOptions(DURATION_UNSPEC, DURATION_UNSPEC), 10, false);
    assert Nonempty(g.all[0]) && g.all[0].finishTime > 3;
    var g1 := Step(g, cut);
    assert g1.all == [Tx(0, 10, 1), Tx(10, 3, 2)];
    var g2 := Step(g1, next);
    assert g2.all == [Tx(0, 10, 1), Tx(10, 3, 2), Tx(10, 20, 3)];
    assert g1.all[0].finishTime > g1.st.finish;
    assert [cut, next][1..] == [next] && [next][1..] == [];
    assert NeverOverlaps(g2, []);
    assert NeverOverlaps(g1, [next]);
  }

  /** Others do have consequences: a send ahead of time (for time 10) that is cut short before it starts
      (at 3) lets a third transmission (at 5) in while the first (0 to 10) is still going on. */
  lemma UpdateAheadOverlaps()
    ensures var unspec := SendOptions(DURATION_UNSPEC, DURATION_UNSPEC);
            var g := RunSingle(Log(State(IDLE, [], 0), []), [
                         Send(Packet(false, 1, Some(10)), unspec, 0, false),
                         Send(Packet(false, 2, Some(10)), unspec, 10, false),
                         Send(Packet(true, 2, Some(10)), SendOptions(DURATION_UNSPEC, 0), 3, false),
                         Send(Packet(false, 3, Some(10)), unspec, 5, false)]);
            |g.all| == 3 && g.all[0] == Tx(0, 10, 1) && g.all[2] == Tx(5, 15, 3) && !Exclusive(g.all)
  {
    var unspec := SendOptions(DURATION_UNSPEC, DURATION_UNSPEC);
    var s0 := Send(Packet(false, 1, Some(10)), unspec, 0, false);
    var s1 := Send(Packet(false, 2, Some(10)), unspec, 10, false);
    var s2 := Send(Packet(true, 2, Some(10)), SendOptions(DURATION_UNSPEC, 0), 3, false);
    var s3 := Send(Packet(false, 3, Some(10)), unspec, 5, false);
    var g0 := Log(State(IDLE, [], 0), []);
    var g1 := Step(g0, s0);
    assert g1 == Log(State(Tx(0, 10, 1), [], 10), [Tx(0, 10, 1)]);
    var g2 := Step(g1, s1);
    assert g2 == Log(State(Tx(10, 20, 2), [], 20), [Tx(0, 10, 1), Tx(10, 20, 2)]);
    var g3 := Step(g2, s2);
    assert g3 == Log(State(Tx(10, 3, 2), [], 3), [Tx(0, 10, 1), Tx(10, 3, 2)]);
    var g4 := Step(g3, s3);
    assert g4.all == [Tx(0, 10, 1), Tx(10, 3, 2), Tx(5, 15, 3)];
    assert Overlap(g4.all[0], g4.all[2]);
    RunUnfolds(g0, s0, [s1, s2, s3]);
    RunUnfolds(g1, s1, [s2, s3]);
    RunUnfolds(g2, s2, [s3]);
    RunUnfolds(g3, s3, []);
    assert [s0, s1, s2, s3] == [s0] + [s1, s2, s3] && [s1, s2, s3] == [s1] + [s2, s3] && [s2, s3] == [s2] + [s3] && [s3] == [s3] + [];
  }

  lemma RunUnfolds(g: Log, s: Send, rest: seq<Send>)
    ensures RunSingle(g, [s] + rest) == RunSingle(Step(g, s), rest)
  {
    assert ([s] + rest)[1..] == rest;
  }

  // ---------------------------------------------------------------- MULTI mode

  /** The channel's finish time is the maximum over the list, at all times. */
  ghost predicate MultiInv(st: State)
  {
    st.finish == Latest(st.list)
  }

  lemma ReplaceLast(list: seq<Tx>, x: Tx, y: Tx)
    ensures (list + [x])[|list| := y] == list + [y]
  {
  }

  lemma LatestOfStub(list: seq<Tx>, id: int)
    ensures Latest(list + [Tx(0, 0, id)]) == Latest(list)
  {
    LatestIsMaximum(list);
    assert (list + [Tx(0, 0, id)])[..|list|] == list;
  }

  /** Every step keeps that, failed and discarded ones included, although those leave an empty
      entry behind. */
  lemma MultiStepKeepsLatest(st: State, disabled: bool, p: Packet, o: SendOptions, t: int, now: int)
    requires MultiInv(st)
    ensures MultiInv(ProcessMulti(st, disabled, p, o, t, now).0)
  {
    LatestOfStub(st.list, p.id);
  }

  /** The entry left behind by a discarded packet can be updated as if it were a transmission, but
      only at simulation time zero, and only if no earlier transmission has its ID. */
  lemma {:induction false} StubIsFoundAtTimeZero(list: seq<Tx>, id: int, now: int, i: nat)
    requires i <= |list| && now >= 0 && forall k :: 0 <= k < |list| ==> list[k].id != id
    ensures Find(list + [Tx(0, 0, id)], id, now, i).Some? <==> now == 0
    decreases |list| - i
  {
    if i < |list| {
      StubIsFoundAtTimeZero(list, id, now, i + 1);
    }
  }

  /** A send and the simulation time at which it is made. */
  datatype TimedSend = TimedSend(send: Send, now: int)

  /** The channel after some sends, with all transmissions accepted so far as they were last updated
      and all records left behind by packets that were discarded or refused. */
  datatype MultiLog = MultiLog(st: State, sent: multiset<Tx>, phantom: multiset<Tx>)

  function MultiStep(g: MultiLog, s: TimedSend): MultiLog
  {
    var (st', r) := ProcessMulti(g.st, s.send.disabled, s.send.p, s.send.o, s.send.t, s.now);
    if !s.send.p.isUpdate then
      if r.Sent? then MultiLog(st', g.sent + multiset{Tx(s.send.t, s.send.t + r.duration, s.send.p.id)}, g.phantom)
      else MultiLog(st', g.sent, g.phantom + multiset{Tx(0, 0, s.send.p.id)})
    else if !r.Sent? then g.(st := st')
    else
      var before := g.st.list[Find(g.st.list, s.send.p.id, s.now, 0).value];
      var after := before.(finishTime := s.send.t + r.remaining);
      if before in g.sent then MultiLog(st', g.sent - multiset{before} + multiset{after}, g.phantom)
      else MultiLog(st', g.sent, g.phantom - multiset{before} + multiset{after})
  }

  /** The list has exactly the records that had not expired at the time of the last send. */
  ghost predicate Known(g: MultiLog, clock: int)
  {
    && MultiInv(g.st) && clock >= 0
    && forall tx: Tx :: tx.finishTime >= clock ==> multiset(g.st.list)[tx] == g.sent[tx] + g.phantom[tx]
  }

  lemma ReplaceAt(list: seq<Tx>, k: nat, tx: Tx)
    requires k < |list|
    ensures multiset(list[k := tx]) == multiset(list) - multiset{list[k]} + multiset{tx}
  {
  }

  lemma OneMore(list: seq<Tx>, tx: Tx)
    ensures multiset(list + [tx]) == multiset(list) + multiset{tx}
  {
  }

  lemma PurgedIsKnown(g: MultiLog, list: seq<Tx>, now: int)
    requires now >= 0 && g.st.list == Purged(list, now, 0) && g.st.finish == Latest(g.st.list)
    requires forall tx: Tx :: tx.finishTime >= now ==> multiset(list)[tx] == g.sent[tx] + g.phantom[tx]
    ensures Known(g, now)
  {
    PurgeKeepsLive(list, now, 0);
  }

  lemma NewPacketStep(g: MultiLog, s: TimedSend)
    requires !s.send.p.isUpdate
    ensures var r := ProcessMulti(g.st, s.send.disabled, s.send.p, s.send.o, s.send.t, s.now).1;
            MultiStep(g, s) ==
              if r.Sent? then
                var tx := Tx(s.send.t, s.send.t + r.duration, s.send.p.id);
                MultiLog(WithList(g.st, g.st.list + [tx], s.now), g.sent + multiset{tx}, g.phantom)
              else
                var stub := Tx(0, 0, s.send.p.id);
                MultiLog(g.st.(list := g.st.list + [stub]), g.sent, g.phantom + multiset{stub})
  {
  }

  lemma NewPacketKeepsKnown(g: MultiLog, s: TimedSend, clock: int)
    requires Known(g, clock) && s.now >= clock && !s.send.p.isUpdate
    ensures Known(MultiStep(g, s), s.now)
  {
    NewPacketStep(g, s);
    var r := ProcessMulti(g.st, s.send.disabled, s.send.p, s.send.o, s.send.t, s.now).1;
    if r.Sent? {
      var tx := Tx(s.send.t, s.send.t + r.duration, s.send.p.id);
      OneMore(g.st.list, tx);
      PurgedIsKnown(MultiStep(g, s), g.st.list + [tx], s.now);
    } else {
      OneMore(g.st.list, Tx(0, 0, s.send.p.id));
      LatestOfStub(g.st.list, s.send.p.id);
    }
  }

  /** The record that an accepted update finds, and what becomes of it. */
  function Updated(g: MultiLog, s: TimedSend): (r: Option<(nat, Tx)>)
    ensures r.Some? ==> r.value.0 < |g.st.list| && g.st.list[r.value.0].finishTime >= s.now
  {
    match Find(g.st.list, s.send.p.id, s.now, 0)
    case None => None
    case Some(k) =>
      var r := UpdateTiming(s.send.o, s.send.p.atRate, MultiMode, s.send.t - g.st.list[k].startTime);
      if r.Sent? then Some((k, g.st.list[k].(finishTime := s.send.t + r.remaining))) else None
  }

  lemma UpdateStep(g: MultiLog, s: TimedSend)
    requires s.send.p.isUpdate
    ensures MultiStep(g, s) ==
              match Updated(g, s)
              case None => g
              case Some((k, after)) =>
                var before := g.st.list[k];
                var st' := WithList(g.st, g.st.list[k := after], s.now);
                if before in g.sent then MultiLog(st', g.sent - multiset{before} + multiset{after}, g.phantom)
                else MultiLog(st', g.sent, g.phantom - multiset{before} + multiset{after})
  {
  }

  lemma UpdateKeepsKnown(g: MultiLog, s: TimedSend, clock: int)
    requires Known(g, clock) && s.now >= clock && s.send.p.isUpdate
    ensures Known(MultiStep(g, s), s.now)
  {
    UpdateStep(g, s);
    if Updated(g, s).Some? {
      var (k, after) := Updated(g, s).value;
      UpdatedIsKnown(g, MultiStep(g, s), k, after, clock, s.now);
    }
  }

  lemma UpdatedIsKnown(g: MultiLog, g': MultiLog, k: nat, after: Tx, clock: int, now: int)
    requires Known(g, clock) && now >= clock && k < |g.st.list| && g.st.list[k].finishTime >= now
    requires g'.st == WithList(g.st, g.st.list[k := after], now)
    requires var before := g.st.list[k];
             if before in g.sent then g'.sent == g.sent - multiset{before} + multiset{after} && g'.phantom == g.phantom
             else g'.sent == g.sent && g'.phantom == g.phantom - multiset{before} + multiset{after}
    ensures Known(g', now)
  {
    ReplaceAt(g.st.list, k, after);
    assert multiset(g.st.list)[g.st.list[k]] > 0;
    PurgedIsKnown(g', g.st.list[k := after], now);
  }

  /** A packet that is sent is logged as on the air from its start for its duration. */
  lemma SentIsLogged(g: MultiLog, s: TimedSend)
    ensures var r := ProcessMulti(g.st, s.send.disabled, s.send.p, s.send.o, s.send.t, s.now).1;
            !s.send.p.isUpdate && r.Sent? ==>
              MultiStep(g, s).sent == g.sent + multiset{Tx(s.send.t, s.send.t + r.duration, s.send.p.id)}
  {
  }

  lemma MultiStepState(g: MultiLog, s: TimedSend)
    ensures MultiStep(g, s).st == ProcessMulti(g.st, s.send.disabled, s.send.p, s.send.o, s.send.t, s.now).0
  {
  }

  lemma MultiStepKeepsKnown(g: MultiLog, s: TimedSend, clock: int)
    requires Known(g, clock) && s.now >= clock
    ensures Known(MultiStep(g, s), s.now)
  {
    if s.send.p.isUpdate {
      UpdateKeepsKnown(g, s, clock);
    } else {
      NewPacketKeepsKnown(g, s, clock);
    }
  }

  ghost predicate ClockOk(clock: int, sends: seq<TimedSend>)
    decreases |sends|
  {
    sends == [] || (sends[0].now >= clock && ClockOk(sends[0].now, sends[1..]))
  }

  function LastClock(clock: int, sends: seq<TimedSend>): int
    decreases |sends|
  {
    if sends == [] then clock else LastClock(sends[0].now, sends[1..])
  }

  function RunMulti(g: MultiLog, sends: seq<TimedSend>): MultiLog
    decreases |sends|
  {
    if sends == [] then g else RunMulti(MultiStep(g, sends[0]), sends[1..])
  }

  lemma {:induction false} RunKeepsKnown(g: MultiLog, sends: seq<TimedSend>, clock: int)
    requires Known(g, clock) && ClockOk(clock, sends)
    ensures Known(RunMulti(g, sends), LastClock(clock, sends))
    decreases |sends|
  {
    if sends != [] {
      MultiStepKeepsKnown(g, sends[0], clock);
      RunKeepsKnown(MultiStep(g, sends[0]), sends[1..], sends[0].now);
    }
  }

  /** isBusy(), at any time since the last send: some transmission, or a record left behind, is
      unfinished. */
  lemma BusyMeansUnfinished(g: MultiLog, clock: int, later: int)
    requires Known(g, clock) && later >= clock
    ensures g.st.finish > later <==> exists tx :: tx in g.sent + g.phantom && tx.finishTime > later
  {
    LatestIsMaximum(g.st.list);
    forall tx: Tx | tx.finishTime > later
      ensures tx in g.st.list <==> tx in g.sent + g.phantom
    {
      assert tx in g.st.list <==> tx in multiset(g.st.list);
    }
    if g.st.finish > later {
      var tx :| tx in g.st.list && tx.finishTime == g.st.finish;
      assert tx in g.sent + g.phantom;
    }
  }

  ghost predicate IsTruthful(g: MultiLog, later: int)
  {
    g.st.finish > later <==> exists tx :: tx in g.sent && tx.finishTime > later
  }

  /** Some transmission outlasts the record. */
  ghost predicate Outlasted(g: MultiLog, p: Tx)
  {
    exists tx :: tx in g.sent && tx.finishTime >= p.finishTime
  }

  /** Over any run in MULTI mode, with the clock never going back: the channel is busy exactly while
      some accepted transmission is unfinished, unless a record left behind outlasts them all. */
  lemma MultiIsTruthfulIffPhantomsOutlasted(g0: MultiLog, sends: seq<TimedSend>, clock0: int)
    requires Known(g0, clock0) && ClockOk(clock0, sends)
    ensures var g, clock := RunMulti(g0, sends), LastClock(clock0, sends);
            (forall later :: later >= clock ==> IsTruthful(g, later)) <==>
            (forall p :: p in g.phantom && p.finishTime > clock ==> Outlasted(g, p))
  {
    RunKeepsKnown(g0, sends, clock0);
    var g, clock := RunMulti(g0, sends), LastClock(clock0, sends);
    if forall later :: later >= clock ==> IsTruthful(g, later) {
      forall p | p in g.phantom && p.finishTime > clock
        ensures Outlasted(g, p)
      {
        BusyMeansUnfinished(g, clock, p.finishTime - 1);
        assert p in g.sent + g.phantom;
        assert IsTruthful(g, p.finishTime - 1);
      }
    }
    if forall p :: p in g.phantom && p.finishTime > clock ==> Outlasted(g, p) {
      forall later | later >= clock
        ensures IsTruthful(g, later)
      {
        TruthfulAt(g, clock, later);
      }
    }
  }

  lemma TruthfulAt(g: MultiLog, clock: int, later: int)
    requires Known(g, clock) && later >= clock
    requires forall p :: p in g.phantom && p.finishTime > clock ==> Outlasted(g, p)
    ensures IsTruthful(g, later)
  {
    BusyMeansUnfinished(g, clock, later);
    if tx :| tx in g.sent + g.phantom && tx.finishTime > later {
      if tx !in g.sent {
        assert Outlasted(g, tx);
        var other :| other in g.sent && other.finishTime >= tx.finishTime;
      }
    }
    if tx :| tx in g.sent && tx.finishTime > later {
      assert tx in g.sent + g.phantom;
    }
  }

  /** Records left behind are harmless as long as they are as they were left. */
  ghost predicate PhantomsIdle(g: MultiLog)
  {
    forall p :: p in g.phantom ==> p.startTime == 0 && p.finishTime == 0
  }

  /** An update, at time zero, of a packet that was discarded or refused. */
  predicate Revives(g: MultiLog, s: TimedSend)
  {
    s.send.p.isUpdate && s.now == 0 &&
    match Updated(g, s)
    case None => false
    case Some((k, after)) => g.st.list[k] !in g.sent && after.finishTime != 0
  }

  /** The exact step at which a record left behind comes to life. */
  lemma PhantomsStayIdleIffNotRevived(g: MultiLog, s: TimedSend, clock: int)
    requires Known(g, clock) && s.now >= clock && PhantomsIdle(g)
    ensures PhantomsIdle(MultiStep(g, s)) <==> !Revives(g, s)
  {
    if !s.send.p.isUpdate {
      NewPacketStep(g, s);
    } else {
      UpdateStep(g, s);
      if Updated(g, s).Some? {
        var (k, after) := Updated(g, s).value;
        PhantomUpdated(g, MultiStep(g, s), k, after, clock, s.now);
      }
    }
  }

  lemma PhantomUpdated(g: MultiLog, g': MultiLog, k: nat, after: Tx, clock: int, now: int)
    requires Known(g, clock) && now >= clock && PhantomsIdle(g)
    requires k < |g.st.list| && g.st.list[k].finishTime >= now && after == g.st.list[k].(finishTime := after.finishTime)
    requires if g.st.list[k] in g.sent then g'.phantom == g.phantom
             else g'.phantom == g.phantom - multiset{g.st.list[k]} + multiset{after}
    ensures PhantomsIdle(g') <==> (g.st.list[k] in g.sent || after.finishTime == 0)
    ensures g.st.list[k] !in g.sent ==> now == 0
  {
    var before := g.st.list[k];
    assert multiset(g.st.list)[before] > 0;
    if before !in g.sent {
      assert before in g.phantom;
      assert after in g'.phantom;
    }
  }

  /** A discarded packet that is updated at time zero makes the channel busy with nothing sent. */
  lemma DiscardedPacketMakesBusy()
    ensures var unspec := SendOptions(DURATION_UNSPEC, DURATION_UNSPEC);
            var g0 := MultiLog(State(IDLE, [], 0), multiset{}, multiset{});
            var g := RunMulti(g0, [TimedSend(Send(Packet(false, 7, Some(3)), unspec, 0, true), 0),
                                   TimedSend(Send(Packet(true, 7, Some(3)), unspec, 0, true), 0)]);
            g.sent == multiset{} && g.st.finish == 3
  {
    var unspec := SendOptions(DURATION_UNSPEC, DURATION_UNSPEC);
    var g0 := MultiLog(State(IDLE, [], 0), multiset{}, multiset{});
    var s0 := TimedSend(Send(Packet(false, 7, Some(3)), unspec, 0, true), 0);
    var s1 := TimedSend(Send(Packet(true, 7, Some(3)), unspec, 0, true), 0);
    var g1 := MultiStep(g0, s0);
    assert g1 == MultiLog(State(IDLE, [Tx(0, 0, 7)], 0), multiset{}, multiset{Tx(0, 0, 7)});
    assert Find(g1.st.list, 7, 0, 0) == Some(0);
    assert g1.st.list[0 := Tx(0, 3, 7)] == [Tx(0, 3, 7)];
    assert Purged([Tx(0, 3, 7)], 0, 0) == Purged([Tx(0, 3, 7)], 0, 1) == [Tx(0, 3, 7)];
    assert Latest([Tx(0, 3, 7)]) == 3 by {
      assert [Tx(0, 3, 7)][..0] == [];
    }
    assert [s0, s1][1..] == [s1] && [s1][1..] == [];
    assert RunMulti(g1, [s1]) == RunMulti(MultiStep(g1, s1), []);
  }

  // ---------------------------------------------------------------- the channel object

  class DatarateChannel {
    const mode: Mode
    var disabled: bool
    var singleTx: Tx
    var txList: seq<Tx>
    var channelFinishTime: int
    ghost var single: Log       // what was sent, in SINGLE mode
    ghost var multi: MultiLog   // what was sent, in MULTI mode
    ghost var clock: int        // simulation time of the last send

    /** The fields agree with what was sent. */
    ghost predicate Valid()
      reads this
    {
      && clock >= 0
      && (mode == SingleMode ==> single.st == Now() && Linked(single))
      && (mode == MultiMode ==> multi.st == Now() && Known(multi, clock))
    }

    constructor (mode: Mode)
      ensures Valid() && Now() == State(IDLE, [], 0) && this.mode == mode
      ensures single.all == [] && multi.sent == multi.phantom == multiset{} && clock == 0
    {
      this.mode, disabled, singleTx, txList, channelFinishTime := mode, false, IDLE, [], 0;
      single, multi, clock := Log(State(IDLE, [], 0), []), MultiLog(State(IDLE, [], 0), multiset{}, multiset{}), 0;
    }

    function Now(): State
      reads this`singleTx, this`txList, this`channelFinishTime
    {
      State(singleTx, txList, channelFinishTime)
    }

    /** In SINGLE mode whether the last transmission is unfinished, which in an honest run covers all
        of them; in MULTI mode whether any transmission, or record left behind, is unfinished. */
    method IsBusy(now: int) returns (r: Option<bool>)
      requires Valid() && now >= clock
      ensures r == None <==> mode == UncheckedMode
      ensures mode == SingleMode ==>
                r == Some(single.all != [] && single.all[|single.all| - 1].finishTime > now)
                && (Honest(single) && r == Some(false) ==>
                      forall i :: 0 <= i < |single.all| ==> !OnAir(single.all[i], now))
      ensures mode == MultiMode ==>
                r == Some(exists tx :: tx in multi.sent + multi.phantom && tx.finishTime > now)
                && (PhantomsIdle(multi) ==> r == Some(exists tx :: tx in multi.sent && tx.finishTime > now))
    {
      if mode == UncheckedMode {
        return None;
      }
      if mode == MultiMode {
        BusyMeansUnfinished(multi, clock, now);
        if PhantomsIdle(multi) {
          TruthfulAt(multi, clock, now);
        }
      }
      r := Some(channelFinishTime > now);
    }

    method FindUpdated(id: int, now: int) returns (k: Option<nat>)
      ensures k == Find(txList, id, now, 0)
    {
      for i := 0 to |txList|
        invariant Find(txList, id, now, 0) == Find(txList, id, now, i)
      {
        if id == txList[i].id {
          return if txList[i].finishTime >= now then Some(i) else None;
        }
      }
      k := None;
    }

    /** Finds the maximum finish time and purges expired transmissions in one pass. */
    method UpdateFinishTime(now: int)
      modifies this`txList, this`channelFinishTime
      ensures txList == Purged(old(txList), now, 0) && channelFinishTime == Latest(txList)
    {
      var tmax, i := 0, 0;
      while i < |txList|
        invariant 0 <= i <= |txList| && tmax == Latest(txList[..i])
        invariant Purged(txList, now, i) == Purged(old(txList), now, 0)
        decreases |txList| - i
      {
        if txList[i].finishTime < now {
          ghost var before := txList;
          txList := txList[i := txList[|txList| - 1]];
          txList := txList[..|txList| - 1];
          assert txList[..i] == before[..i];
        } else {
          assert txList[..i + 1][..i] == txList[..i];
          if txList[i].finishTime > tmax {
            tmax := txList[i].finishTime;
          }
          i := i + 1;
        }
      }
      assert txList[..i] == txList;
      channelFinishTime := tmax;
    }

    /** processPacket() for sending at time t, the current simulation time being now. */
    method ProcessPacket(p: Packet, o: SendOptions, t: int, now: int) returns (r: Result)
      requires Valid() && now >= clock
      modifies this
      ensures Valid() && clock == now && disabled == old(disabled)
      ensures (Now(), r) == Process(old(Now()), mode, disabled, p, o, t, now)
      ensures !p.isUpdate && r.Sent? ==>
                && r.remaining == r.duration >= 0
                && r.duration == (if o.duration != DURATION_UNSPEC then o.duration else p.atRate.value)
      ensures mode == SingleMode && !p.isUpdate && r.Sent? ==>
                singleTx == Tx(t, t + r.duration, p.id) && channelFinishTime == t + r.duration
      ensures mode == SingleMode ==> single == Step(old(single), Send(p, o, t, disabled))
      ensures mode == MultiMode ==> multi == MultiStep(old(multi), TimedSend(Send(p, o, t, disabled), now))
    {
      r := ProcessAndCheck(p, o, t, now);
      RecordSend(Send(p, o, t, disabled), now);
    }

    method ProcessAndCheck(p: Packet, o: SendOptions, t: int, now: int) returns (r: Result)
      modifies this`singleTx, this`txList, this`channelFinishTime
      ensures (Now(), r) == Process(old(Now()), mode, disabled, p, o, t, now)
      ensures !p.isUpdate && r.Sent? ==>
                && r.remaining == r.duration >= 0 && (o.duration == DURATION_UNSPEC ==> p.atRate.Some?)
                && r.duration == if o.duration != DURATION_UNSPEC then o.duration else p.atRate.value
      ensures mode == SingleMode && !p.isUpdate && r.Sent? ==>
                singleTx == Tx(t, t + r.duration, p.id) && channelFinishTime == t + r.duration
    {
      NewPacketIfSent(Now(), mode, disabled, p, o, t, now);
      r := DoProcess(p, o, t, now);
    }

    ghost method RecordSend(s: Send, now: int)
      requires clock >= 0 && now >= clock
      requires mode == SingleMode ==>
                 Linked(single) && Now() == ProcessSingle(single.st, s.disabled, s.p, s.o, s.t).0
      requires mode == MultiMode ==>
                 Known(multi, clock) && Now() == ProcessMulti(multi.st, s.disabled, s.p, s.o, s.t, now).0
      modifies this`single, this`multi, this`clock
      ensures Valid() && clock == now
      ensures mode == SingleMode ==> single == Step(old(single), s)
      ensures mode == MultiMode ==> multi == MultiStep(old(multi), TimedSend(s, now))
    {
      if mode == SingleMode {
        StepKeepsLinked(single, s);
        StepState(single, s);
        single := Step(single, s);
      } else if mode == MultiMode {
        MultiStepKeepsKnown(multi, TimedSend(s, now), clock);
        MultiStepState(multi, TimedSend(s, now));
        multi := MultiStep(multi, TimedSend(s, now));
      }
      clock := now;
    }

    /** The first part of processPacket(): the checks, and where the transmission is kept. */
    method Admit(p: Packet, t: int, now: int) returns (err: Option<Error>, index: nat)
      modifies this`txList
      ensures err.Some? || mode != MultiMode || p.isUpdate ==> txList == old(txList)
      ensures mode == SingleMode ==>
                err == if !p.isUpdate then (if t < singleTx.finishTime then Some(Busy) else None)
                       else if p.id != singleTx.id then Some(OtherTransmission)
                       else if t > singleTx.finishTime then Some(MissedEnd) else None
      ensures mode == MultiMode && !p.isUpdate ==>
                err == None && index == |old(txList)| && txList == old(txList) + [Tx(0, 0, p.id)]
      ensures mode == MultiMode && p.isUpdate ==>
                if err.Some? then err == Some(NotFound) && Find(txList, p.id, now, 0) == None
                else Find(txList, p.id, now, 0) == Some(index)
      ensures mode == UncheckedMode ==> err == None
    {
      index := 0;
      if mode == SingleMode {
        if !p.isUpdate {
          if t < singleTx.finishTime {
            return Some(Busy), index;
          }
        } else {
          if p.id != singleTx.id {
            return Some(OtherTransmission), index;
          }
          if t > singleTx.finishTime {
            return Some(MissedEnd), index;
          }
        }
      } else if mode == MultiMode {
        if !p.isUpdate {
          txList := txList + [Tx(0, 0, p.id)];
          index := |txList| - 1;
        } else {
          var k := FindUpdated(p.id, now);
          if k == None {
            return Some(NotFound), index;
          }
          index := k.value;
        }
      }
      err := None;
    }

    method DoProcess(p: Packet, o: SendOptions, t: int, now: int) returns (r: Result)
      modifies this`singleTx, this`txList, this`channelFinishTime
      ensures (Now(), r) == Process(old(Now()), mode, disabled, p, o, t, now)
    {
      var err, index := Admit(p, t, now);
      if err.Some? {
        return Failed(err.value);
      }
      if disabled && !p.isUpdate {
        return Discarded;
      }
      var tx := if mode == SingleMode then singleTx else if mode == MultiMode then txList[index] else IDLE;
      r := if p.isUpdate then UpdateTiming(o, p.atRate, mode, t - tx.startTime) else NewTiming(o, p.atRate);
      if r.Failed? {
        return;
      }
      ReplaceLast(old(txList), Tx(0, 0, p.id), Tx(t, t + r.duration, p.id));
      tx := if p.isUpdate then tx.(finishTime := t + r.remaining) else Tx(t, t + r.duration, p.id);
      if mode == SingleMode {
        singleTx, channelFinishTime := tx, tx.finishTime;
      } else if mode == MultiMode {
        txList := txList[index := tx];
        UpdateFinishTime(now);
      }
    }
  }
}
