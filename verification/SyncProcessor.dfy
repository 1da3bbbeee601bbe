/**
 The event loop of the sync processor, over its three maps and three counters.

 One method per arm of the loop. Every method states the new state of every inode
 as the matching step of UploadSlot on that inode's old slot, so an event touches
 the inode it is about and no other, whatever order the maps are iterated in.
 Sending on a channel is recorded in the ghost trace of the inode.
 */
module SyncProcessor {
  import opened Wrappers
  import opened UploadSlot

  datatype SyncMetrics = SyncMetrics(
    queueDepth: nat, inFlight: nat, failedCount: nat,
    totalUploaded: nat, totalFailed: nat, totalDeduplicated: nat)

  /** The maps of the loop, with the running tasks and the traces of all inodes. */
  datatype LoopState = LoopState(
    phase: Phase,
    pending: map<Ino, int>,
    inFlight: map<Ino, seq<Waiter>>,
    failed: map<Ino, FailedEntry>,
    tasks: map<Ino, nat>,
    traces: map<Ino, Trace>)

  function Lookup<V>(m: map<Ino, V>, ino: Ino): Option<V> {
    if ino in m then Some(m[ino]) else None
  }

  function SlotAt(s: LoopState, ino: Ino): Slot {
    Slot(s.phase, Lookup(s.pending, ino), Lookup(s.inFlight, ino), Lookup(s.failed, ino),
         TasksOf(s.tasks, ino), TraceOf(s.traces, ino))
  }

  function TasksOf(tasks: map<Ino, nat>, ino: Ino): nat {
    if ino in tasks then tasks[ino] else 0
  }

  function TraceOf(traces: map<Ino, Trace>, ino: Ino): Trace {
    if ino in traces then traces[ino] else []
  }

  /** Every slot satisfies the invariant of UploadSlot. */
  ghost predicate Sound(s: LoopState) {
    forall ino :: SlotInv(SlotAt(s, ino))
  }

  /** The invariant of the slots, read off the maps. */
  lemma SoundMaps(s: LoopState)
    requires Sound(s)
    ensures s.pending.Keys !! s.inFlight.Keys
    ensures forall ino :: ino in s.failed ==> 1 <= s.failed[ino].retryCount <= 9
    ensures !s.phase.Stopped? ==> forall ino :: SlotAt(s, ino).tasks == if ino in s.inFlight then 1 else 0
    ensures !s.phase.Running? ==> s.pending == map[]
    ensures s.phase.Stopped? ==> s.inFlight == map[]
  {
    forall ino
      ensures ino in s.pending ==> ino !in s.inFlight && s.phase.Running?
      ensures ino in s.failed ==> 1 <= s.failed[ino].retryCount <= 9
      ensures !s.phase.Stopped? ==> SlotAt(s, ino).tasks == if ino in s.inFlight then 1 else 0
      ensures ino in s.inFlight ==> !s.phase.Stopped?
    {
      assert SlotInv(SlotAt(s, ino));
    }
    if !s.phase.Running? {
      assert s.pending.Keys == {};
    }
    if s.phase.Stopped? {
      assert s.inFlight.Keys == {};
    }
  }

  /** `t` is `s` with the slot of one inode replaced and every other slot untouched. */
  ghost predicate Only(s: LoopState, t: LoopState, ino: Ino, slot: Slot) {
    && SlotAt(t, ino) == slot
    && forall i :: i != ino ==> SlotAt(t, i) == SlotAt(s, i)
  }

  /** The trace of `ino`, and no other, grew by `obs`. */
  ghost predicate Grew(before: map<Ino, Trace>, after: map<Ino, Trace>, ino: Ino, obs: Trace) {
    && TraceOf(after, ino) == TraceOf(before, ino) + obs
    && forall i :: i != ino ==> TraceOf(after, i) == TraceOf(before, i)
  }

  lemma GrewTwice(a: map<Ino, Trace>, b: map<Ino, Trace>, c: map<Ino, Trace>, ino: Ino, x: Trace, y: Trace)
    requires Grew(a, b, ino, x) && Grew(b, c, ino, y)
    ensures Grew(a, c, ino, x + y)
  {
  }

  lemma OnlyKeepsSound(s: LoopState, t: LoopState, ino: Ino, e: Event, debounce: nat)
    requires Sound(s) && Enabled(SlotAt(s, ino), e)
    requires Only(s, t, ino, Step(SlotAt(s, ino), e, debounce))
    ensures Sound(t)
  {
    StepKeepsSlotInv(SlotAt(s, ino), e, debounce);
    forall i ensures SlotInv(SlotAt(t, i)) {
      assert SlotInv(SlotAt(s, i));
    }
  }

  /** An event of the loop: about one inode, about all of them, or the recovery of some. */
  datatype LoopEvent = One(ino: Ino, event: Event) | All(event: Event) | Recovery(inodes: set<Ino>, now: int)

  /** What the methods of `Processor` ensure of the state before and after. */
  ghost predicate LoopStep(s: LoopState, e: LoopEvent, t: LoopState, debounce: nat) {
    match e
    case One(ino, event) => Enabled(SlotAt(s, ino), event) && Only(s, t, ino, Step(SlotAt(s, ino), event, debounce))
    case All(event) => forall i :: SlotSteps(SlotAt(s, i), event, SlotAt(t, i), debounce)
    case Recovery(inodes, now) =>
      forall i :: if i in inodes then SlotSteps(SlotAt(s, i), Recover(now), SlotAt(t, i), debounce)
        else SlotAt(t, i) == SlotAt(s, i)
  }

  predicate SlotSteps(s: Slot, e: Event, t: Slot, debounce: nat) {
    Enabled(s, e) && t == Step(s, e, debounce)
  }

  // One lemma per arm: what the maps become is the slot step, and keeps the invariant.

  lemma FlushOnly(s: LoopState, t: LoopState, ino: Ino, now: int, debounce: nat)
    requires Sound(s) && s.phase.Running?
    requires t == s.(traces := t.traces, pending := if ino in s.inFlight then s.pending else s.pending[ino := now])
    requires Grew(s.traces, t.traces, ino, [Requested])
    ensures Only(s, t, ino, OnFlush(SlotAt(s, ino), now)) && Sound(t)
  {
    OnlyKeepsSound(s, t, ino, Event.Flush(now), debounce);
  }

  lemma FlushSyncOnly(s: LoopState, t: LoopState, ino: Ino, w: Waiter, debounce: nat)
    requires Sound(s) && s.phase.Running? && Accepted(w) !in SlotAt(s, ino).trace
    requires t.phase == s.phase && t.failed == s.failed
    requires
      if ino in s.inFlight then
        && t.pending == s.pending && t.tasks == s.tasks
        && t.inFlight == s.inFlight[ino := s.inFlight[ino] + [w]]
        && Grew(s.traces, t.traces, ino, [Accepted(w)])
      else
        && t.pending == s.pending - {ino} && t.tasks == s.tasks[ino := TasksOf(s.tasks, ino) + 1]
        && t.inFlight == s.inFlight[ino := [w]]
        && Grew(s.traces, t.traces, ino, [Accepted(w), Spawned])
    ensures Only(s, t, ino, OnFlushSync(SlotAt(s, ino), w)) && Sound(t)
  {
    assert SlotInv(SlotAt(s, ino));
    var slot := OnFlushSync(SlotAt(s, ino), w);
    assert [] + [w] == [w];
    assert SlotAt(t, ino).waiters == slot.waiters;
    assert SlotAt(t, ino).trace == slot.trace;
    OnlyKeepsSound(s, t, ino, Event.FlushSync(w), debounce);
  }

  function FailedAfter(failed: map<Ino, FailedEntry>, ino: Ino, success: bool, now: int): map<Ino, FailedEntry> {
    var n := (if ino in failed then failed[ino].retryCount else 0) + 1;
    if success || n >= MAX_RETRIES then failed - {ino}
    else failed[ino := FailedEntry(n, now + BackoffMs(n))]
  }

  /** What a result makes of the failures, with the delays as they are. */
  lemma FailedAfterMeans(s: LoopState, ino: Ino, success: bool, now: int)
    requires Sound(s)
    ensures var n := if ino in s.failed then s.failed[ino].retryCount else 0;
      if success || n == 9 then FailedAfter(s.failed, ino, success, now) == s.failed - {ino}
      else n < 9 && FailedAfter(s.failed, ino, success, now) == s.failed[ino := FailedEntry(n + 1, now + DELAYS[n])]
  {
    assert SlotInv(SlotAt(s, ino));
    var n := if ino in s.failed then s.failed[ino].retryCount else 0;
    if n < 9 {
      BackoffIsTheDelay(n + 1);
    }
  }

  lemma ResultOnly(s: LoopState, t: LoopState, mid: map<Ino, Trace>, ino: Ino, success: bool, now: int, debounce: nat)
    requires Sound(s) && !s.phase.Stopped? && TasksOf(s.tasks, ino) > 0
    requires t.phase == s.phase && t.pending == s.pending
    requires t.inFlight == s.inFlight - {ino}
    requires t.tasks == s.tasks[ino := TasksOf(s.tasks, ino) - 1]
    requires t.failed == FailedAfter(s.failed, ino, success, now)
    requires Grew(s.traces, mid, ino, [Handled(success)] + Answers(Waiting(SlotAt(s, ino)), success))
    requires Grew(mid, t.traces, ino, Verdict(SlotAt(s, ino), success))
    ensures Only(s, t, ino, OnResult(SlotAt(s, ino), success, now)) && Sound(t)
    ensures LoopStep(s, One(ino, Event.Result(success, now)), t, debounce)
  {
    var slot := OnResult(SlotAt(s, ino), success, now);
    assert SlotAt(t, ino).trace == slot.trace;
    assert SlotAt(t, ino) == slot;
    OnlyKeepsSound(s, t, ino, Event.Result(success, now), debounce);
  }

  lemma SpawnPendingOnly(s: LoopState, t: LoopState, ino: Ino)
    requires ino !in s.inFlight
    requires t.phase == s.phase && t.failed == s.failed && t.pending == s.pending - {ino}
    requires t.inFlight == s.inFlight[ino := []] && t.tasks == s.tasks[ino := TasksOf(s.tasks, ino) + 1]
    requires Grew(s.traces, t.traces, ino, [Spawned])
    ensures Only(s, t, ino, SpawnPending(SlotAt(s, ino)))
  {
  }

  lemma AbandonOnly(s: LoopState, t: LoopState, ino: Ino)
    requires ino in s.inFlight && s.phase.Stopped?
    requires t == s.(inFlight := s.inFlight - {ino}, traces := t.traces)
    requires Grew(s.traces, t.traces, ino, [DeadlineHit] + Answers(Waiting(SlotAt(s, ino)), false))
    ensures Only(s, t, ino, OnDeadline(SlotAt(s, ino)))
  {
    assert SlotAt(t, ino).trace == OnDeadline(SlotAt(s, ino)).trace;
  }

  lemma AllStepKeepsSound(s: LoopState, t: LoopState, e: Event, debounce: nat)
    requires Sound(s) && forall i :: Enabled(SlotAt(s, i), e)
    requires forall i :: SlotAt(t, i) == Step(SlotAt(s, i), e, debounce)
    ensures Sound(t)
  {
    forall i ensures SlotInv(SlotAt(t, i)) {
      StepKeepsSlotInv(SlotAt(s, i), e, debounce);
    }
  }

  /** A writeback entry that start-up recovery schedules. */
  predicate Recoverable(entry: (string, string), driveId: string, inodes: map<string, Ino>) {
    entry.0 == driveId && !("local:" <= entry.1) && entry.1 in inodes
  }

  function RecoverableCount(entries: seq<(string, string)>, driveId: string, inodes: map<string, Ino>): nat {
    if entries == [] then 0
    else
      var last := |entries| - 1;
      RecoverableCount(entries[..last], driveId, inodes)
      + if Recoverable(entries[last], driveId, inodes) then 1 else 0
  }

  /** Their positions, one for each entry. */
  function RecoverableAt(entries: seq<(string, string)>, driveId: string, inodes: map<string, Ino>): set<int> {
    set i | 0 <= i < |entries| && Recoverable(entries[i], driveId, inodes)
  }

  lemma {:induction false} RecoverableCountIsTheNumber(entries: seq<(string, string)>, driveId: string,
                                                       inodes: map<string, Ino>)
    ensures RecoverableCount(entries, driveId, inodes) == |RecoverableAt(entries, driveId, inodes)|
    decreases |entries|
  {
    var at := RecoverableAt(entries, driveId, inodes);
    if entries == [] {
      assert at == {};
    } else {
      var n := |entries| - 1;
      RecoverableCountIsTheNumber(entries[..n], driveId, inodes);
      assert at == RecoverableAt(entries[..n], driveId, inodes)
        + if Recoverable(entries[n], driveId, inodes) then {n} else {};
    }
  }

  function RecoveredInodes(entries: seq<(string, string)>, driveId: string, inodes: map<string, Ino>): set<Ino> {
    set e | e in entries && Recoverable(e, driveId, inodes) :: inodes[e.1]
  }

  function RecoveredSlot(s: LoopState, i: Ino, recovered: set<Ino>, now: int): Slot {
    if i in recovered then OnRecover(SlotAt(s, i), now) else SlotAt(s, i)
  }

  function SpawnedSlot(s: LoopState, i: Ino, ready: set<Ino>): Slot {
    if i in ready then SpawnPending(SlotAt(s, i)) else SlotAt(s, i)
  }

  function AbandonedSlot(s: LoopState, i: Ino, abandoned: set<Ino>): Slot {
    if i in abandoned then OnDeadline(SlotAt(s, i)) else SlotAt(s, i).(phase := Stopped)
  }

  lemma RecoveredSnoc(entries: seq<(string, string)>, n: nat, driveId: string, inodes: map<string, Ino>)
    requires n < |entries|
    ensures RecoveredInodes(entries[..n + 1], driveId, inodes) == (
      RecoveredInodes(entries[..n], driveId, inodes)
      + if Recoverable(entries[n], driveId, inodes) then {inodes[entries[n].1]} else {})
    ensures RecoverableCount(entries[..n + 1], driveId, inodes) == (
      RecoverableCount(entries[..n], driveId, inodes) + if Recoverable(entries[n], driveId, inodes) then 1 else 0)
  {
    assert entries[..n + 1] == entries[..n] + [entries[n]];
    assert entries[..n + 1][..n] == entries[..n];
  }

  lemma ShutdownSlots(s: LoopState, mid: LoopState, ready: set<Ino>)
    requires Sound(s) && s.phase.Running? && mid.phase.Running? && ready == s.pending.Keys
    requires forall i :: SlotAt(mid, i) == SpawnedSlot(s, i, ready)
    ensures forall i :: SlotAt(mid.(phase := Draining), i) == OnShutdown(SlotAt(s, i))
    ensures Sound(mid.(phase := Draining))
  {
    var t := mid.(phase := Draining);
    forall i ensures SlotAt(t, i) == Step(SlotAt(s, i), Event.Shutdown, 0) {
      assert SlotAt(mid, i) == SpawnedSlot(s, i, ready);
      assert SlotAt(t, i) == SlotAt(mid, i).(phase := Draining);
    }
    AllStepKeepsSound(s, t, Event.Shutdown, 0);
  }

  lemma AbandonStep(s: LoopState, before: LoopState, after: LoopState, ino: Ino)
    requires ino in before.inFlight && ino in s.inFlight && after.inFlight == before.inFlight - {ino}
    requires forall i :: SlotAt(before, i) == AbandonedSlot(s, i, s.inFlight.Keys - before.inFlight.Keys)
    requires Only(before, after, ino, OnDeadline(SlotAt(before, ino)))
    ensures forall i :: SlotAt(after, i) == AbandonedSlot(s, i, s.inFlight.Keys - after.inFlight.Keys)
  {
    forall i ensures SlotAt(after, i) == AbandonedSlot(s, i, s.inFlight.Keys - after.inFlight.Keys) {
      assert SlotAt(before, i) == AbandonedSlot(s, i, s.inFlight.Keys - before.inFlight.Keys);
    }
  }

  lemma AbandonSlots(s: LoopState, t: LoopState)
    requires Sound(s) && s.phase.Draining? && t.phase.Stopped?
    requires forall i :: SlotAt(t, i) == AbandonedSlot(s, i, s.inFlight.Keys)
    ensures forall i :: SlotAt(t, i) == OnDeadline(SlotAt(s, i))
    ensures Sound(t)
  {
    forall i ensures SlotAt(t, i) == Step(SlotAt(s, i), Event.Deadline, 0) {
      assert SlotAt(t, i) == AbandonedSlot(s, i, s.inFlight.Keys);
    }
    AllStepKeepsSound(s, t, Event.Deadline, 0);
  }

  lemma RecoverStep(s: LoopState, before: LoopState, after: LoopState, ino: Ino, now: int)
    requires s.pending == map[]
    requires forall i :: SlotAt(before, i) == RecoveredSlot(s, i, before.pending.Keys, now)
    requires Only(before, after, ino, OnRecover(SlotAt(before, ino), now))
      && after.pending.Keys == before.pending.Keys + {ino}
    ensures forall i :: SlotAt(after, i) == RecoveredSlot(s, i, after.pending.Keys, now)
  {
    forall i ensures SlotAt(after, i) == RecoveredSlot(s, i, after.pending.Keys, now) {
      assert SlotAt(before, i) == RecoveredSlot(s, i, before.pending.Keys, now);
    }
  }

  lemma RecoverSlots(s: LoopState, t: LoopState, recovered: set<Ino>, now: int, debounce: nat)
    requires Sound(s) && s.phase.Running? && s.inFlight == map[]
    requires forall i :: SlotAt(t, i) == RecoveredSlot(s, i, recovered, now)
    ensures Sound(t) && LoopStep(s, Recovery(recovered, now), t, debounce)
  {
    forall i
      ensures SlotInv(SlotAt(t, i))
      ensures if i in recovered then SlotSteps(SlotAt(s, i), Recover(now), SlotAt(t, i), debounce)
        else SlotAt(t, i) == SlotAt(s, i)
    {
      assert SlotAt(t, i) == RecoveredSlot(s, i, recovered, now);
      assert SlotInv(SlotAt(s, i));
      StepKeepsSlotInv(SlotAt(s, i), Recover(now), debounce);
    }
  }

  lemma CloseSlots(s: LoopState, t: LoopState, debounce: nat)
    requires Sound(s) && s.phase.Running?
    requires t.phase.Stopped? && t.pending == map[] && t.inFlight == map[] && t.failed == map[] && t.tasks == s.tasks
    requires forall i :: TraceOf(t.traces, i) == OnClose(SlotAt(s, i)).trace
    ensures forall i :: SlotAt(t, i) == OnClose(SlotAt(s, i))
    ensures Sound(t) && LoopStep(s, All(Event.Close), t, debounce)
  {
    forall i ensures SlotSteps(SlotAt(s, i), Event.Close, SlotAt(t, i), debounce) {
    }
    AllStepKeepsSound(s, t, Event.Close, debounce);
  }

  // -------------------------------------------------------- runs of the loop

  ghost predicate LoopRun(states: seq<LoopState>, es: seq<LoopEvent>, debounce: nat)
    decreases |es|
  {
    && |states| == |es| + 1
    && (es != [] ==> LoopStep(states[0], es[0], states[1], debounce) && LoopRun(states[1..], es[1..], debounce))
  }

  /** What a run of the loop means to one inode. */
  function EventsOf(es: seq<LoopEvent>, ino: Ino): seq<Event>
    decreases |es|
  {
    if es == [] then [] else EventOf(es[0], ino) + EventsOf(es[1..], ino)
  }

  function EventOf(e: LoopEvent, ino: Ino): seq<Event> {
    match e
    case One(i, event) => if i == ino then [event] else []
    case All(event) => [event]
    case Recovery(inodes, now) => if ino in inodes then [Recover(now)] else []
  }

  lemma LoopStepIsSlotStep(s: LoopState, e: LoopEvent, t: LoopState, debounce: nat, ino: Ino)
    requires LoopStep(s, e, t, debounce)
    ensures if EventOf(e, ino) == [] then SlotAt(t, ino) == SlotAt(s, ino)
            else |EventOf(e, ino)| == 1 && SlotSteps(SlotAt(s, ino), EventOf(e, ino)[0], SlotAt(t, ino), debounce)
  {
  }

  /** The loop is the product of its slots: every run of it is, for each inode, a run of that inode's slot. */
  lemma {:induction false} LoopRunsAreSlotRuns(states: seq<LoopState>, es: seq<LoopEvent>, debounce: nat, ino: Ino)
    requires LoopRun(states, es, debounce)
    ensures IsRun(SlotAt(states[0], ino), EventsOf(es, ino), debounce, SlotAt(states[|es|], ino))
    decreases |es|
  {
    if es != [] {
      LoopStepIsSlotStep(states[0], es[0], states[1], debounce, ino);
      LoopRunsAreSlotRuns(states[1..], es[1..], debounce, ino);
      var first, rest := EventOf(es[0], ino), EventsOf(es[1..], ino);
      if first == [] {
        assert first + rest == rest;
      } else {
        assert (first + rest)[0] == first[0] && (first + rest)[1..] == rest;
      }
    }
  }

  /** Every run of the loop keeps the invariant, and with it what `SoundMaps` says of the maps. */
  lemma RunsKeepTheMapsSound(states: seq<LoopState>, es: seq<LoopEvent>, debounce: nat)
    requires LoopRun(states, es, debounce) && Sound(states[0])
    ensures var t := states[|es|];
      && Sound(t) && t.pending.Keys !! t.inFlight.Keys
      && (forall ino :: ino in t.failed ==> 1 <= t.failed[ino].retryCount <= 9)
      && (!t.phase.Stopped? ==> forall ino :: SlotAt(t, ino).tasks == if ino in t.inFlight then 1 else 0)
      && (!t.phase.Running? ==> t.pending == map[])
      && (t.phase.Stopped? ==> t.inFlight == map[])
  {
    forall ino ensures SlotInv(SlotAt(states[|es|], ino)) {
      LoopRunsAreSlotRuns(states, es, debounce, ino);
      assert SlotInv(SlotAt(states[0], ino));
      RunKeepsSlotInv(SlotAt(states[0], ino), EventsOf(es, ino), debounce, SlotAt(states[|es|], ino));
    }
    SoundMaps(states[|es|]);
  }

  /**
   Over every run of the loop, for every inode: each accepted waiter is attached or has
   been settled exactly once, and when the loop has ended every one is settled and
   nothing is pending or in flight.
   */
  lemma EveryWaiterIsSettledOnce(states: seq<LoopState>, es: seq<LoopEvent>, debounce: nat, ino: Ino, w: Waiter)
    requires LoopRun(states, es, debounce) && SlotAt(states[0], ino) == INITIAL
    ensures var t := SlotAt(states[|es|], ino);
      && Settlements(t.trace, w) <= Count(t.trace, Accepted(w)) <= 1
      && (Settlements(t.trace, w) == 1 <==> Accepted(w) in t.trace && w !in Waiting(t))
      && (t.phase.Stopped? ==> Settlements(t.trace, w) == Count(t.trace, Accepted(w)))
      && (t.phase.Stopped? ==> ino !in states[|es|].pending && ino !in states[|es|].inFlight)
  {
    LoopRunsAreSlotRuns(states, es, debounce, ino);
    WaitersSettledExactlyOnce(EventsOf(es, ino), debounce, SlotAt(states[|es|], ino), w);
  }

  /** Without new requests for it, an inode is uploaded at most ten more times, whatever the others do. */
  lemma AtMostTenUploadsEach(states: seq<LoopState>, es: seq<LoopEvent>, debounce: nat, ino: Ino)
    requires LoopRun(states, es, debounce) && Sound(states[0])
    requires forall e :: e in EventsOf(es, ino) ==> !IsRequest(e)
    ensures var s, t := SlotAt(states[0], ino), SlotAt(states[|es|], ino);
      Count(t.trace, Spawned) - Count(s.trace, Spawned) <= MAX_RETRIES
  {
    var s, t := SlotAt(states[0], ino), SlotAt(states[|es|], ino);
    LoopRunsAreSlotRuns(states, es, debounce, ino);
    assert SlotInv(s);
    AtMostTenAttempts(s, EventsOf(es, ino), debounce, t);
    RunKeepsSlotInv(s, EventsOf(es, ino), debounce, t);
    assert SpawnBudget(t) >= 0;
  }

  class Processor {
    const debounce: nat
    var phase: Phase
    var pending: map<Ino, int>
    var inFlight: map<Ino, seq<Waiter>>
    var failed: map<Ino, FailedEntry>
    var totalUploaded: nat
    var totalFailed: nat
    var totalDeduplicated: nat

    ghost var tasks: map<Ino, nat>
    ghost var traces: map<Ino, Trace>
    ghost var spawned: nat
    ghost var abandoned: nat

    ghost function State(): LoopState
      reads this
    {
      LoopState(phase, pending, inFlight, failed, tasks, traces)
    }

    /** Every upload ever started was handled, is in flight or was abandoned, exactly once. */
    ghost predicate Accounted()
      reads this
    {
      spawned == totalUploaded + totalFailed + |inFlight| + abandoned
    }

    ghost predicate Valid()
      reads this
    {
      Sound(State()) && Accounted()
    }

    constructor (debounce: nat)
      ensures Valid() && this.debounce == debounce
      ensures State() == LoopState(Running, map[], map[], map[], map[], map[])
      ensures forall ino :: SlotAt(State(), ino) == INITIAL
      ensures totalUploaded == totalFailed == totalDeduplicated == spawned == abandoned == 0
    {
      this.debounce := debounce;
      phase, pending, inFlight, failed := Running, map[], map[], map[];
      totalUploaded, totalFailed, totalDeduplicated := 0, 0, 0;
      tasks, traces, spawned, abandoned := map[], map[], 0, 0;
    }

    ghost method Record(ino: Ino, obs: Trace)
      modifies this`traces
      ensures Grew(old(traces), traces, ino, obs)
    {
      traces := traces[ino := TraceOf(traces, ino) + obs];
    }

    /** Answer the waiters in order. */
    method SendAll(ino: Ino, waiters: seq<Waiter>, flag: bool)
      modifies this`traces
      ensures Grew(old(traces), traces, ino, Answers(waiters, flag))
    {
      for n := 0 to |waiters|
        invariant Grew(old(traces), traces, ino, Answers(waiters, flag)[..n])
      {
        Record(ino, [Answered(waiters[n], flag)]);
        assert Answers(waiters, flag)[..n + 1] == Answers(waiters, flag)[..n] + [Answered(waiters[n], flag)];
      }
      assert Answers(waiters, flag)[..|waiters|] == Answers(waiters, flag);
    }

    method SpawnUpload(ino: Ino)
      requires ino !in inFlight && Accounted()
      modifies this`inFlight, this`tasks, this`traces, this`spawned
      ensures Accounted() && spawned == old(spawned) + 1
      ensures inFlight == old(inFlight)[ino := []]
      ensures tasks == old(tasks)[ino := TasksOf(old(tasks), ino) + 1]
      ensures Grew(old(traces), traces, ino, [Spawned])
    {
      inFlight := inFlight[ino := []];
      tasks := tasks[ino := TasksOf(tasks, ino) + 1];
      Record(ino, [Spawned]);
      spawned := spawned + 1;
    }

    /** Crash recovery, before the loop starts. */
    method RecoverPending(entries: seq<(string, string)>, driveId: string, inodes: map<string, Ino>, now: int)
      requires Valid() && phase.Running? && inFlight == map[] && pending == map[]
      modifies this`pending, this`traces, this`totalDeduplicated
      ensures LoopStep(old(State()), Recovery(pending.Keys, now), State(), debounce)
      ensures Valid()
      ensures pending.Keys == RecoveredInodes(entries, driveId, inodes)
      ensures forall i :: i in pending <==>
        exists e :: e in entries && e.0 == driveId && !("local:" <= e.1) && e.1 in inodes && inodes[e.1] == i
      ensures forall i :: SlotAt(State(), i) == RecoveredSlot(old(State()), i, pending.Keys, now)
      ensures |pending| + totalDeduplicated == old(totalDeduplicated) + RecoverableCount(entries, driveId, inodes)
    {
      RecoverEntries(entries, driveId, inodes, now);
      RecoverSlots(old(State()), State(), pending.Keys, now, debounce);
    }

    method RecoverEntries(entries: seq<(string, string)>, driveId: string, inodes: map<string, Ino>, now: int)
      requires pending == map[]
      modifies this`pending, this`traces, this`totalDeduplicated
      ensures pending.Keys == RecoveredInodes(entries, driveId, inodes)
      ensures forall i :: SlotAt(State(), i) == RecoveredSlot(old(State()), i, pending.Keys, now)
      ensures |pending| + totalDeduplicated == old(totalDeduplicated) + RecoverableCount(entries, driveId, inodes)
    {
      for n := 0 to |entries|
        invariant pending.Keys == RecoveredInodes(entries[..n], driveId, inodes)
        invariant forall i :: SlotAt(State(), i) == RecoveredSlot(old(State()), i, pending.Keys, now)
        invariant |pending| + totalDeduplicated ==
                  old(totalDeduplicated) + RecoverableCount(entries[..n], driveId, inodes)
      {
        RecoveredSnoc(entries, n, driveId, inodes);
        var entry := entries[n];
        if entry.0 == driveId && !("local:" <= entry.1) && entry.1 in inodes {
          ghost var before := State();
          RecoverOne(inodes[entry.1], now);
          RecoverStep(old(State()), before, State(), inodes[entry.1], now);
        }
      }
      assert entries[..|entries|] == entries;
    }

    method RecoverOne(ino: Ino, now: int)
      modifies this`pending, this`traces, this`totalDeduplicated
      ensures Only(old(State()), State(), ino, OnRecover(SlotAt(old(State()), ino), now))
      ensures pending.Keys == old(pending).Keys + {ino}
      ensures |pending| + totalDeduplicated == old(|pending| + totalDeduplicated) + 1
    {
      if ino in pending {
        totalDeduplicated := totalDeduplicated + 1;
      } else {
        pending := pending[ino := now];
        Record(ino, [Requested]);
      }
    }

    method Flush(ino: Ino, now: int)
      requires Valid() && phase.Running?
      modifies this`pending, this`traces, this`totalDeduplicated
      ensures LoopStep(old(State()), One(ino, Event.Flush(now)), State(), debounce)
      ensures Valid()
      ensures Only(old(State()), State(), ino, OnFlush(SlotAt(old(State()), ino), now))
      ensures totalDeduplicated == old(totalDeduplicated) + if old(ino in inFlight || ino in pending) then 1 else 0
    {
      if ino in inFlight {
        totalDeduplicated := totalDeduplicated + 1;
      } else {
        if ino in pending {
          totalDeduplicated := totalDeduplicated + 1;
        }
        pending := pending[ino := now];
      }
      Record(ino, [Requested]);
      FlushOnly(old(State()), State(), ino, now, debounce);
    }

    /** Attach the waiter to the upload in flight, which is started if there is none. */
    method Attach(ino: Ino, done: Waiter)
      requires Accounted()
      modifies this`pending, this`inFlight, this`tasks, this`traces, this`spawned
      ensures Accounted() && spawned == old(spawned) + if old(ino in inFlight) then 0 else 1
      ensures
        if old(ino in inFlight) then
          && pending == old(pending) && tasks == old(tasks)
          && inFlight == old(inFlight)[ino := old(inFlight)[ino] + [done]]
          && Grew(old(traces), traces, ino, [Accepted(done)])
        else
          && pending == old(pending) - {ino} && tasks == old(tasks)[ino := TasksOf(old(tasks), ino) + 1]
          && inFlight == old(inFlight)[ino := [done]]
          && Grew(old(traces), traces, ino, [Accepted(done), Spawned])
    {
      Record(ino, [Accepted(done)]);
      if ino !in inFlight {
        pending := pending - {ino};
        ghost var mid := traces;
        SpawnUpload(ino);
        GrewTwice(old(traces), mid, traces, ino, [Accepted(done)], [Spawned]);
        assert [Accepted(done)] + [Spawned] == [Accepted(done), Spawned];
      }
      inFlight := inFlight[ino := inFlight[ino] + [done]];
      assert [] + [done] == [done];
    }

    method FlushSync(ino: Ino, done: Waiter)
      requires Valid() && phase.Running? && Accepted(done) !in SlotAt(State(), ino).trace
      modifies this`pending, this`inFlight, this`tasks, this`traces, this`spawned
      ensures LoopStep(old(State()), One(ino, Event.FlushSync(done)), State(), debounce)
      ensures Valid()
      ensures Only(old(State()), State(), ino, OnFlushSync(SlotAt(old(State()), ino), done))
      ensures spawned == old(spawned) + if old(ino in inFlight) then 0 else 1
    {
      Attach(ino, done);
      FlushSyncOnly(old(State()), State(), ino, done, debounce);
    }

    /** Take `ino` out of flight and tell everyone waiting for it. */
    method Settle(ino: Ino, success: bool)
      modifies this`inFlight, this`traces
      ensures inFlight == old(inFlight) - {ino}
      ensures |inFlight| == old(|inFlight|) - if ino in old(inFlight) then 1 else 0
      ensures Grew(old(traces), traces, ino, [Handled(success)] + Answers(Waiting(SlotAt(old(State()), ino)), success))
    {
      var waiters := if ino in inFlight then inFlight[ino] else [];
      inFlight := inFlight - {ino};
      Record(ino, [Handled(success)]);
      ghost var mid := traces;
      SendAll(ino, waiters, success);
      GrewTwice(old(traces), mid, traces, ino, [Handled(success)], Answers(waiters, success));
    }

    /** Count the result and decide whether the inode is retried, given up or done. */
    method Judge(ino: Ino, success: bool, now: int)
      modifies this`failed, this`totalUploaded, this`totalFailed
      ensures failed == FailedAfter(old(failed), ino, success, now)
      ensures totalUploaded == old(totalUploaded) + if success then 1 else 0
      ensures totalFailed == old(totalFailed) + if success then 0 else 1
    {
      if success {
        totalUploaded := totalUploaded + 1;
        failed := failed - {ino};
      } else {
        totalFailed := totalFailed + 1;
        var retryCount := (if ino in failed then failed[ino].retryCount else 0) + 1;
        if retryCount >= MAX_RETRIES {
          failed := failed - {ino};
        } else {
          failed := failed[ino := FailedEntry(retryCount, now + BackoffMs(retryCount))];
        }
      }
    }

    method HandleResult(ino: Ino, success: bool, now: int)
      requires Valid() && !phase.Stopped? && SlotAt(State(), ino).tasks > 0
      modifies this`inFlight, this`failed, this`tasks, this`traces, this`totalUploaded, this`totalFailed
      ensures LoopStep(old(State()), One(ino, Event.Result(success, now)), State(), debounce)
      ensures Valid()
      ensures Only(old(State()), State(), ino, OnResult(SlotAt(old(State()), ino), success, now))
      ensures var n := if ino in old(failed) then old(failed)[ino].retryCount else 0;
        if success || n == 9 then failed == old(failed) - {ino}
        else n < 9 && failed == old(failed)[ino := FailedEntry(n + 1, now + DELAYS[n])]
      ensures totalUploaded == old(totalUploaded) + if success then 1 else 0
      ensures totalFailed == old(totalFailed) + if success then 0 else 1
    {
      assert ino in inFlight by { SoundMaps(State()); }
      FailedAfterMeans(State(), ino, success, now);
      ghost var mid := TakeResult(ino, success, now);
      ResultOnly(old(State()), State(), mid, ino, success, now, debounce);
    }

    method TakeResult(ino: Ino, success: bool, now: int) returns (ghost mid: map<Ino, Trace>)
      requires Accounted() && ino in inFlight && TasksOf(tasks, ino) > 0
      modifies this`inFlight, this`failed, this`tasks, this`traces, this`totalUploaded, this`totalFailed
      ensures Accounted() && inFlight == old(inFlight) - {ino}
      ensures failed == FailedAfter(old(failed), ino, success, now)
      ensures tasks == old(tasks)[ino := TasksOf(old(tasks), ino) - 1]
      ensures Grew(old(traces), mid, ino, [Handled(success)] + Answers(Waiting(SlotAt(old(State()), ino)), success))
      ensures Grew(mid, traces, ino, Verdict(SlotAt(old(State()), ino), success))
      ensures totalUploaded == old(totalUploaded) + if success then 1 else 0
      ensures totalFailed == old(totalFailed) + if success then 0 else 1
    {
      Settle(ino, success);
      mid := traces;
      Record(ino, Verdict(SlotAt(old(State()), ino), success));
      tasks := tasks[ino := TasksOf(tasks, ino) - 1];
      Judge(ino, success, now);
    }

    method Metrics() returns (m: SyncMetrics)
      ensures m == SyncMetrics(|pending|, |inFlight|, |failed|, totalUploaded, totalFailed, totalDeduplicated)
    {
      m := SyncMetrics(|pending|, |inFlight|, |failed|, totalUploaded, totalFailed, totalDeduplicated);
    }

    method SpawnPendingOne(ino: Ino)
      requires ino in pending && ino !in inFlight && Accounted()
      modifies this`pending, this`inFlight, this`tasks, this`traces, this`spawned
      ensures Accounted() && spawned == old(spawned) + 1
      ensures Only(old(State()), State(), ino, SpawnPending(SlotAt(old(State()), ino)))
    {
      pending := pending - {ino};
      if ino !in inFlight {
        SpawnUpload(ino);
      }
      SpawnPendingOnly(old(State()), State(), ino);
    }

    /** Spawn everything in `ready`; with nothing of it in flight, each inode is spawned once. */
    method SpawnReady(ready: set<Ino>)
      requires ready <= pending.Keys && ready !! inFlight.Keys && Accounted()
      modifies this`pending, this`inFlight, this`tasks, this`traces, this`spawned
      ensures Accounted() && spawned == old(spawned) + |ready|
      ensures forall i :: SlotAt(State(), i) == SpawnedSlot(old(State()), i, ready)
    {
      var rest := ready;
      while rest != {}
        invariant rest <= ready && Accounted()
        invariant spawned == old(spawned) + |ready| - |rest|
        invariant forall i :: SlotAt(State(), i) == SpawnedSlot(old(State()), i, ready - rest)
      {
        var ino :| ino in rest;
        assert SlotAt(State(), ino) == SlotAt(old(State()), ino);
        ghost var before := State();
        SpawnPendingOne(ino);
        rest := rest - {ino};
      }
      assert ready - {} == ready;
    }

    method Tick(now: int) returns (metrics: SyncMetrics)
      requires Valid() && phase.Running?
      modifies this`pending, this`inFlight, this`tasks, this`traces, this`spawned
      ensures LoopStep(old(State()), All(Event.Tick(now)), State(), debounce)
      ensures Valid()
      ensures forall i :: SlotAt(State(), i) == OnTick(SlotAt(old(State()), i), now, debounce)
      ensures metrics == SyncMetrics(|pending|, |inFlight|, |failed|, totalUploaded, totalFailed, totalDeduplicated)
    {
      var ready := set ino | ino in pending && Elapsed(now, pending[ino]) >= debounce;
      assert ready !! inFlight.Keys by { SoundMaps(State()); }
      SpawnReady(ready);
      RetryFailed(now);
      metrics := Metrics();
      AllStepKeepsSound(old(State()), State(), Event.Tick(now), debounce);
    }

    /** Put every failed inode whose backoff has passed back into `pending`, ready for the next tick. */
    method RetryFailed(now: int)
      modifies this`pending
      ensures forall i :: SlotAt(State(), i) == Retried(SlotAt(old(State()), i), now, debounce)
    {
      var retryable := set ino | ino in failed && now >= failed[ino].nextRetry;
      var rest := retryable;
      while rest != {}
        invariant rest <= retryable
        invariant forall i :: SlotAt(State(), i) == (
                              if i in retryable - rest then Retried(SlotAt(old(State()), i), now, debounce)
                              else SlotAt(old(State()), i))
      {
        var ino :| ino in rest;
        assert SlotAt(State(), ino) == SlotAt(old(State()), ino);
        rest := rest - {ino};
        if ino !in inFlight && ino !in pending {
          pending := pending[ino := now - debounce];
        }
      }
    }

    method Shutdown()
      requires Valid() && phase.Running?
      modifies this`phase, this`pending, this`inFlight, this`tasks, this`traces, this`spawned
      ensures LoopStep(old(State()), All(Event.Shutdown), State(), debounce)
      ensures Valid() && phase.Draining? && pending == map[]
      ensures forall i :: SlotAt(State(), i) == OnShutdown(SlotAt(old(State()), i))
    {
      assert pending.Keys !! inFlight.Keys by { SoundMaps(State()); }
      ghost var ready := pending.Keys;
      SpawnReady(pending.Keys);
      ghost var mid := State();
      phase := Draining;
      ShutdownSlots(old(State()), mid, ready);
      assert State() == mid.(phase := Draining);
      assert pending == map[] by { SoundMaps(State()); }
    }

    /** The drain ended before its deadline: every upload was handled. */
    method DrainEnd() returns (metrics: SyncMetrics)
      requires Valid() && phase.Draining? && inFlight == map[]
      modifies this`phase
      ensures LoopStep(old(State()), All(Event.DrainEnd), State(), debounce)
      ensures Valid() && phase.Stopped?
      ensures spawned == totalUploaded + totalFailed + abandoned
      ensures metrics == SyncMetrics(0, 0, |failed|, totalUploaded, totalFailed, totalDeduplicated)
      ensures forall i :: SlotAt(State(), i) == Step(SlotAt(old(State()), i), Event.DrainEnd, debounce)
    {
      SoundMaps(State());
      phase := Stopped;
      metrics := Metrics();
      AllStepKeepsSound(old(State()), State(), Event.DrainEnd, debounce);
    }

    /** Answer `false` to everyone waiting for `ino`, whose upload goes on unobserved. */
    method AbandonOne(ino: Ino)
      requires ino in inFlight && Accounted() && phase.Stopped?
      modifies this`inFlight, this`traces, this`abandoned
      ensures Accounted() && abandoned == old(abandoned) + 1 && inFlight == old(inFlight) - {ino}
      ensures Only(old(State()), State(), ino, OnDeadline(SlotAt(old(State()), ino)))
    {
      var waiters := inFlight[ino];
      inFlight := inFlight - {ino};
      abandoned := abandoned + 1;
      Record(ino, [DeadlineHit]);
      ghost var mid := traces;
      SendAll(ino, waiters, false);
      GrewTwice(old(traces), mid, traces, ino, [DeadlineHit], Answers(waiters, false));
      AbandonOnly(old(State()), State(), ino);
    }

    method DrainTimeout() returns (metrics: SyncMetrics)
      requires Valid() && phase.Draining?
      modifies this`phase, this`inFlight, this`traces, this`abandoned
      ensures LoopStep(old(State()), All(Event.Deadline), State(), debounce)
      ensures Valid() && phase.Stopped? && inFlight == map[]
      ensures forall i :: SlotAt(State(), i) == OnDeadline(SlotAt(old(State()), i))
      ensures abandoned == old(abandoned + |inFlight|)
      ensures metrics == SyncMetrics(0, 0, |failed|, totalUploaded, totalFailed, totalDeduplicated)
    {
      assert pending == map[] by { SoundMaps(State()); }
      phase := Stopped;
      AbandonAll(old(State()));
      AbandonSlots(old(State()), State());
      metrics := Metrics();
    }

    method AbandonAll(ghost s: LoopState)
      requires phase.Stopped? && Accounted() && State() == s.(phase := Stopped)
      modifies this`inFlight, this`traces, this`abandoned
      ensures Accounted() && inFlight == map[] && abandoned == old(abandoned + |inFlight|)
      ensures forall i :: SlotAt(State(), i) == AbandonedSlot(s, i, s.inFlight.Keys)
    {
      while inFlight != map[]
        invariant Accounted() && inFlight.Keys <= s.inFlight.Keys
        invariant abandoned + |inFlight| == old(abandoned + |inFlight|)
        invariant forall i :: SlotAt(State(), i) == AbandonedSlot(s, i, s.inFlight.Keys - inFlight.Keys)
        decreases |inFlight|
      {
        var ino :| ino in inFlight;
        assert SlotAt(State(), ino) == AbandonedSlot(s, ino, {});
        ghost var before := State();
        AbandonOne(ino);
        AbandonStep(s, before, State(), ino);
      }
      assert s.inFlight.Keys - {} == s.inFlight.Keys;
    }

    /** Every request sender is gone: the loop returns and its maps are dropped. */
    method Close()
      requires Valid() && phase.Running?
      modifies this`phase, this`pending, this`inFlight, this`failed, this`traces, this`abandoned
      ensures LoopStep(old(State()), All(Event.Close), State(), debounce)
      ensures Valid() && phase.Stopped?
      ensures forall i :: SlotAt(State(), i) == OnClose(SlotAt(old(State()), i))
      ensures abandoned == old(abandoned + |inFlight|)
    {
      abandoned := abandoned + |inFlight|;
      DropSenders();
      phase, pending, inFlight, failed := Stopped, map[], map[], map[];
      CloseSlots(old(State()), State(), debounce);
    }

    ghost method DropSenders()
      modifies this`traces
      ensures forall i :: TraceOf(traces, i) == OnClose(SlotAt(old(State()), i)).trace
    {
      traces := map i | i in traces.Keys + inFlight.Keys :: TraceOf(traces, i) + Drops(Waiting(SlotAt(State(), i)));
    }
  }
}
