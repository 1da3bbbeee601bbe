/**
 The life of one inode inside the sync processor.

 The processor keeps three maps keyed by inode. No event for one inode reads or
 writes the entries of another, so its state is a product of slots, one per
 inode. A slot holds that inode's entry in each map, the number of upload tasks
 still running for it and the trace of everything observable that happened to it.
 Module SyncProcessor proves that the loop over the maps moves every slot by the
 functions of this module. Times are in milliseconds.
 */
module UploadSlot {
  import opened Wrappers

  type Waiter = nat

  datatype FailedEntry = FailedEntry(retryCount: nat, nextRetry: int)

  datatype Phase = Running | Draining | Stopped

  datatype Observation =
    | Requested
    | Accepted(waiter: Waiter)
    | Spawned
    | Handled(success: bool)
    | Scheduled(delay: nat)
    | GaveUp
    | DeadlineHit
    | Answered(waiter: Waiter, flag: bool)
    | Dropped(waiter: Waiter)

  type Trace = seq<Observation>

  datatype Slot = Slot(
    phase: Phase,
    pendingSince: Option<int>,
    waiters: Option<seq<Waiter>>,
    failure: Option<FailedEntry>,
    tasks: nat,
    trace: Trace)

  const MAX_RETRIES: nat := 10

  const INITIAL := Slot(Running, None, None, None, 0, [])

  function Pow2(n: nat): (p: nat)
    ensures p >= 1
  {
    if n == 0 then 1 else 2 * Pow2(n - 1)
  }

  function BackoffMs(retryCount: nat): nat {
    1000 * Min(Pow2(retryCount), 30)
  }

  function Waiting(s: Slot): seq<Waiter> {
    if s.waiters.Some? then s.waiters.value else []
  }

  function Failures(s: Slot): nat {
    if s.failure.Some? then s.failure.value.retryCount else 0
  }

  function Answers(ws: seq<Waiter>, flag: bool): (obs: Trace)
    ensures |obs| == |ws| && forall i :: 0 <= i < |ws| ==> obs[i] == Answered(ws[i], flag)
  {
    if ws == [] then [] else [Answered(ws[0], flag)] + Answers(ws[1..], flag)
  }

  function Drops(ws: seq<Waiter>): (obs: Trace)
    ensures |obs| == |ws| && forall i :: 0 <= i < |ws| ==> obs[i] == Dropped(ws[i])
  {
    if ws == [] then [] else [Dropped(ws[0])] + Drops(ws[1..])
  }

  // ---------------------------------------------------------------- steps

  function Spawn(s: Slot): Slot {
    s.(waiters := Some([]), tasks := s.tasks + 1, trace := s.trace + [Spawned])
  }

  function SpawnPending(s: Slot): Slot {
    if s.waiters.None? then Spawn(s.(pendingSince := None)) else s.(pendingSince := None)
  }

  function OnFlush(s: Slot, now: int): Slot {
    var s := s.(trace := s.trace + [Requested]);
    if s.waiters.Some? then s else s.(pendingSince := Some(now))
  }

  function OnRecover(s: Slot, now: int): Slot {
    if s.pendingSince.Some? then s else s.(pendingSince := Some(now), trace := s.trace + [Requested])
  }

  function OnFlushSync(s: Slot, w: Waiter): Slot {
    var s := s.(trace := s.trace + [Accepted(w)]);
    var s := if s.waiters.Some? then s else Spawn(s.(pendingSince := None));
    s.(waiters := Some(s.waiters.value + [w]))
  }

  /** What a handled result leads to: nothing more, another attempt later, or the end. */
  function Verdict(s: Slot, success: bool): Trace {
    if success then []
    else if Failures(s) + 1 >= MAX_RETRIES then [GaveUp]
    else [Scheduled(BackoffMs(Failures(s) + 1))]
  }

  function OnResult(s: Slot, success: bool, now: int): Slot
    requires s.tasks > 0
  {
    var n := Failures(s) + 1;
    s.(waiters := None, tasks := s.tasks - 1,
       failure := if success || n >= MAX_RETRIES then None else Some(FailedEntry(n, now + BackoffMs(n))),
       trace := s.trace + [Handled(success)] + Answers(Waiting(s), success) + Verdict(s, success))
  }

  predicate Ripe(s: Slot, now: int, debounce: nat) {
    s.pendingSince.Some? && Elapsed(now, s.pendingSince.value) >= debounce
  }

  function Debounced(s: Slot, now: int, debounce: nat): Slot {
    if Ripe(s, now, debounce) then SpawnPending(s) else s
  }

  function Retried(s: Slot, now: int, debounce: nat): Slot {
    if s.failure.Some? && now >= s.failure.value.nextRetry && s.waiters.None? && s.pendingSince.None?
    then s.(pendingSince := Some(now - debounce)) else s
  }

  function OnTick(s: Slot, now: int, debounce: nat): Slot {
    Retried(Debounced(s, now, debounce), now, debounce)
  }

  function OnShutdown(s: Slot): Slot {
    (if s.pendingSince.Some? then SpawnPending(s) else s).(phase := Draining)
  }

  function OnDeadline(s: Slot): Slot {
    s.(phase := Stopped, waiters := None,
       trace := if s.waiters.Some? then s.trace + [DeadlineHit] + Answers(Waiting(s), false) else s.trace)
  }

  /** Every request sender is gone: the loop returns and drops all three maps. */
  function OnClose(s: Slot): Slot {
    s.(phase := Stopped, pendingSince := None, waiters := None, failure := None,
       trace := s.trace + Drops(Waiting(s)))
  }

  datatype Event =
    | Recover(now: int)
    | Flush(now: int)
    | FlushSync(waiter: Waiter)
    | Result(success: bool, now: int)
    | Tick(now: int)
    | Shutdown
    | Deadline
    | DrainEnd
    | Close

  predicate Enabled(s: Slot, e: Event) {
    match e
    case Recover(_) => s.phase.Running? && s.waiters.None?
    case FlushSync(w) => s.phase.Running? && Accepted(w) !in s.trace
    case Result(_, _) => !s.phase.Stopped? && s.tasks > 0
    case Deadline => s.phase.Draining?
    case DrainEnd => s.phase.Draining? && s.waiters.None?
    case _ => s.phase.Running?
  }

  function Step(s: Slot, e: Event, debounce: nat): Slot
    requires Enabled(s, e)
  {
    match e
    case Recover(now) => OnRecover(s, now)
    case Flush(now) => OnFlush(s, now)
    case FlushSync(w) => OnFlushSync(s, w)
    case Result(success, now) => OnResult(s, success, now)
    case Tick(now) => OnTick(s, now, debounce)
    case Shutdown => OnShutdown(s)
    case Deadline => OnDeadline(s)
    case DrainEnd => s.(phase := Stopped)
    case Close => OnClose(s)
  }

  ghost predicate IsRun(s: Slot, es: seq<Event>, debounce: nat, t: Slot)
    decreases |es|
  {
    if es == [] then s == t
    else Enabled(s, es[0]) && IsRun(Step(s, es[0], debounce), es[1..], debounce, t)
  }

  // ------------------------------------------------------- state invariant

  /** What holds of a slot in every reachable state. */
  predicate SlotInv(s: Slot) {
    && (s.pendingSince.Some? ==> s.waiters.None?)
    && (!s.phase.Stopped? ==> s.tasks == if s.waiters.Some? then 1 else 0)
    && (s.failure.Some? ==> 1 <= s.failure.value.retryCount < MAX_RETRIES)
    && (!s.phase.Running? ==> s.pendingSince.None?)
    && (s.phase.Stopped? ==> s.waiters.None?)
  }

  lemma StepKeepsSlotInv(s: Slot, e: Event, debounce: nat)
    requires SlotInv(s) && Enabled(s, e)
    ensures SlotInv(Step(s, e, debounce))
  {
  }

  lemma {:induction false} RunKeepsSlotInv(s: Slot, es: seq<Event>, debounce: nat, t: Slot)
    requires SlotInv(s) && IsRun(s, es, debounce, t)
    ensures SlotInv(t)
    decreases |es|
  {
    if es != [] {
      RunKeepsSlotInv(Step(s, es[0], debounce), es[1..], debounce, t);
    }
  }

  // --------------------------------------------------------------- waiters

  function Count(tr: Trace, o: Observation): nat {
    multiset(tr)[o]
  }

  function Settlements(tr: Trace, w: Waiter): nat {
    Count(tr, Answered(w, true)) + Count(tr, Answered(w, false)) + Count(tr, Dropped(w))
  }

  /** `w` was accepted at most once, and is still attached once or has been settled once. */
  predicate Balanced(s: Slot, w: Waiter) {
    && Count(s.trace, Accepted(w)) <= 1
    && Settlements(s.trace, w) + multiset(Waiting(s))[w] == Count(s.trace, Accepted(w))
  }

  lemma CountAppend(a: Trace, b: Trace, o: Observation)
    ensures Count(a + b, o) == Count(a, o) + Count(b, o)
  {
  }

  lemma {:induction false} CountAnswers(ws: seq<Waiter>, flag: bool, o: Observation)
    ensures Count(Answers(ws, flag), o) == if o.Answered? && o.flag == flag then multiset(ws)[o.waiter] else 0
  {
    if ws != [] {
      assert ws == [ws[0]] + ws[1..];
      CountAnswers(ws[1..], flag, o);
    }
  }

  lemma {:induction false} CountDrops(ws: seq<Waiter>, o: Observation)
    ensures Count(Drops(ws), o) == if o.Dropped? then multiset(ws)[o.waiter] else 0
  {
    if ws != [] {
      assert ws == [ws[0]] + ws[1..];
      CountDrops(ws[1..], o);
    }
  }

  /** Extending a trace by one observation adds one to that observation's count. */
  lemma CountSnoc(tr: Trace, o: Observation, p: Observation)
    ensures Count(tr + [o], p) == Count(tr, p) + if o == p then 1 else 0
  {
  }

  lemma ResultCount(s: Slot, success: bool, now: int, o: Observation)
    requires s.tasks > 0 && (o.Accepted? || o.Answered? || o.Dropped? || o.Spawned?)
    ensures Count(OnResult(s, success, now).trace, o) == Count(s.trace, o)
         + if o.Answered? && o.flag == success then multiset(Waiting(s))[o.waiter] else 0
  {
    var mid := s.trace + [Handled(success)];
    CountSnoc(s.trace, Handled(success), o);
    CountAppend(mid, Answers(Waiting(s), success), o);
    CountAnswers(Waiting(s), success, o);
    CountAppend(mid + Answers(Waiting(s), success), Verdict(s, success), o);
  }

  lemma ResultBalance(s: Slot, success: bool, now: int, w: Waiter)
    requires Balanced(s, w) && s.tasks > 0
    ensures Balanced(OnResult(s, success, now), w)
  {
    ResultCount(s, success, now, Accepted(w));
    ResultCount(s, success, now, Answered(w, true));
    ResultCount(s, success, now, Answered(w, false));
    ResultCount(s, success, now, Dropped(w));
  }

  lemma DeadlineBalance(s: Slot, w: Waiter)
    requires Balanced(s, w) && s.waiters.Some?
    ensures Balanced(OnDeadline(s), w)
  {
    var tail := Answers(Waiting(s), false);
    forall o | o in {Accepted(w), Answered(w, true), Answered(w, false), Dropped(w)}
      ensures Count(OnDeadline(s).trace, o) == Count(s.trace, o) + Count(tail, o)
    {
      CountSnoc(s.trace, DeadlineHit, o);
      CountAppend(s.trace + [DeadlineHit], tail, o);
    }
    CountAnswers(Waiting(s), false, Accepted(w));
    CountAnswers(Waiting(s), false, Answered(w, true));
    CountAnswers(Waiting(s), false, Answered(w, false));
    CountAnswers(Waiting(s), false, Dropped(w));
  }

  lemma CloseBalance(s: Slot, w: Waiter)
    requires Balanced(s, w)
    ensures Balanced(OnClose(s), w)
  {
    var tail := Drops(Waiting(s));
    forall o | o in {Accepted(w), Answered(w, true), Answered(w, false), Dropped(w)}
      ensures Count(OnClose(s).trace, o) == Count(s.trace, o) + Count(tail, o)
    {
      CountAppend(s.trace, tail, o);
    }
    CountDrops(Waiting(s), Accepted(w));
    CountDrops(Waiting(s), Answered(w, true));
    CountDrops(Waiting(s), Answered(w, false));
    CountDrops(Waiting(s), Dropped(w));
  }

  /** Requests without a waiter, and spawns, change nobody's balance. */
  lemma QuietBalance(s: Slot, t: Slot, o: Observation, w: Waiter)
    requires Balanced(s, w) && Waiting(t) == Waiting(s)
    requires t.trace == s.trace || (t.trace == s.trace + [o] && (o.Requested? || o.Spawned?))
    ensures Balanced(t, w)
  {
  }

  lemma FlushSyncBalance(s: Slot, v: Waiter, w: Waiter)
    requires Balanced(s, w) && Accepted(v) !in s.trace
    ensures Balanced(OnFlushSync(s, v), w)
  {
    forall o | o in {Accepted(w), Answered(w, true), Answered(w, false), Dropped(w)}
      ensures Count(OnFlushSync(s, v).trace, o) == Count(s.trace + [Accepted(v)], o)
    {
      CountSnoc(s.trace + [Accepted(v)], Spawned, o);
    }
    var t := OnFlushSync(s, v);
    assert Waiting(t) == Waiting(s) + [v];
  }

  lemma QuietStepBalance(s: Slot, e: Event, debounce: nat, w: Waiter)
    requires SlotInv(s) && Balanced(s, w) && Enabled(s, e)
    requires e.Recover? || e.Flush? || e.Tick? || e.Shutdown? || e.DrainEnd?
    ensures Balanced(Step(s, e, debounce), w)
  {
    var o := if e.Flush? || e.Recover? then Requested else Spawned;
    QuietBalance(s, Step(s, e, debounce), o, w);
  }

  lemma StepKeepsBalance(s: Slot, e: Event, debounce: nat, w: Waiter)
    requires SlotInv(s) && Balanced(s, w) && Enabled(s, e)
    ensures Balanced(Step(s, e, debounce), w)
  {
    match e
    case FlushSync(v) => FlushSyncBalance(s, v, w);
    case Result(success, now) => ResultBalance(s, success, now, w);
    case Deadline => if s.waiters.Some? { DeadlineBalance(s, w); }
    case Close => CloseBalance(s, w);
    case _ => QuietStepBalance(s, e, debounce, w);
  }

  lemma {:induction false} RunKeepsBalance(s: Slot, es: seq<Event>, debounce: nat, t: Slot, w: Waiter)
    requires SlotInv(s) && Balanced(s, w) && IsRun(s, es, debounce, t)
    ensures Balanced(t, w)
    decreases |es|
  {
    if es != [] {
      StepKeepsSlotInv(s, es[0], debounce);
      StepKeepsBalance(s, es[0], debounce, w);
      RunKeepsBalance(Step(s, es[0], debounce), es[1..], debounce, t, w);
    }
  }

  /**
   In every reachable state an accepted waiter is either attached to the upload in
   flight or has been settled, never both and never twice; once the processor has
   stopped, nothing is pending or in flight and every accepted waiter is settled.
   */
  lemma WaitersSettledExactlyOnce(es: seq<Event>, debounce: nat, t: Slot, w: Waiter)
    requires IsRun(INITIAL, es, debounce, t)
    ensures Settlements(t.trace, w) <= Count(t.trace, Accepted(w)) <= 1
    ensures Settlements(t.trace, w) == 1 <==> Accepted(w) in t.trace && w !in Waiting(t)
    ensures t.phase.Stopped? ==> t.pendingSince.None? && t.waiters.None?
    ensures t.phase.Stopped? ==> Settlements(t.trace, w) == Count(t.trace, Accepted(w))
  {
    RunKeepsSlotInv(INITIAL, es, debounce, t);
    RunKeepsBalance(INITIAL, es, debounce, t, w);
    assert Accepted(w) in t.trace <==> Accepted(w) in multiset(t.trace);
    assert w in Waiting(t) <==> w in multiset(Waiting(t));
  }

  // ------------------------------------------------- what an answer means

  /** The upload in flight is over: its result was handled, or the deadline was hit. */
  predicate EndsUpload(o: Observation) {
    o.Handled? || o.DeadlineHit?
  }

  predicate NoEnd(tr: Trace, from: nat, to: nat) {
    forall m :: from < m < to <= |tr| ==> !EndsUpload(tr[m])
  }

  /**
   Answer `j` was caused at `k`, by an upload result or by the deadline, and `k` is the
   first such event since `i` accepted the waiter.
   */
  predicate Cause(tr: Trace, i: nat, k: nat, j: nat) {
    && i < k < j < |tr| && tr[j].Answered?
    && tr[i] == Accepted(tr[j].waiter)
    && (tr[k] == Handled(tr[j].flag) || (tr[k] == DeadlineHit && !tr[j].flag))
    && (forall m :: k < m < j ==> tr[m].Answered?)
    && NoEnd(tr, i, k)
  }

  ghost predicate IsCaused(tr: Trace, j: nat) {
    exists i, k :: Cause(tr, i, k, j)
  }

  ghost predicate AllCaused(tr: Trace) {
    forall j :: 0 <= j < |tr| && tr[j].Answered? ==> IsCaused(tr, j)
  }

  /** The waiter was accepted at `i`, and no upload has ended since. */
  predicate AcceptedAt(tr: Trace, i: nat, w: Waiter) {
    i < |tr| && tr[i] == Accepted(w) && NoEnd(tr, i, |tr|)
  }

  ghost predicate IsAttached(tr: Trace, w: Waiter) {
    exists i :: AcceptedAt(tr, i, w)
  }

  ghost predicate AllAttached(s: Slot) {
    forall w :: w in Waiting(s) ==> IsAttached(s.trace, w)
  }

  lemma CauseExtends(tr: Trace, tail: Trace)
    requires AllCaused(tr)
    ensures forall j :: 0 <= j < |tr| && tr[j].Answered? ==> IsCaused(tr + tail, j)
  {
    forall j | 0 <= j < |tr| && tr[j].Answered?
      ensures IsCaused(tr + tail, j)
    {
      var i, k :| Cause(tr, i, k, j);
      assert Cause(tr + tail, i, k, j);
    }
  }

  /** Nothing but answers may carry new causes, so other observations can be appended freely. */
  lemma AppendQuiet(tr: Trace, tail: Trace)
    requires AllCaused(tr) && forall o :: o in tail ==> !o.Answered?
    ensures AllCaused(tr + tail)
  {
    CauseExtends(tr, tail);
    assert forall j :: |tr| <= j < |tr + tail| ==> (tr + tail)[j] in tail;
  }

  lemma NewAnswerIsCaused(tr: Trace, cause: Observation, ws: seq<Waiter>, flag: bool, n: nat)
    requires cause == Handled(flag) || (cause == DeadlineHit && !flag)
    requires n < |ws| && IsAttached(tr, ws[n])
    ensures IsCaused(tr + [cause] + Answers(ws, flag), |tr| + 1 + n)
  {
    var i :| AcceptedAt(tr, i, ws[n]);
    var all := tr + [cause] + Answers(ws, flag);
    assert forall m :: 0 <= m < |tr| ==> all[m] == tr[m];
    assert all[|tr|] == cause;
    assert all[|tr| + 1 + n] == Answers(ws, flag)[n];
    forall m | |tr| < m < |tr| + 1 + n
      ensures all[m].Answered?
    {
      assert all[m] == Answers(ws, flag)[m - |tr| - 1];
    }
    assert Cause(all, i, |tr|, |tr| + 1 + n);
  }

  lemma NewAnswersAreCaused(tr: Trace, cause: Observation, ws: seq<Waiter>, flag: bool)
    requires cause == Handled(flag) || (cause == DeadlineHit && !flag)
    requires forall w :: w in ws ==> IsAttached(tr, w)
    ensures forall j :: |tr| < j < |tr| + 1 + |ws| ==> IsCaused(tr + [cause] + Answers(ws, flag), j)
  {
    forall j | |tr| < j < |tr| + 1 + |ws| ensures IsCaused(tr + [cause] + Answers(ws, flag), j) {
      assert ws[j - |tr| - 1] in ws;
      NewAnswerIsCaused(tr, cause, ws, flag, j - |tr| - 1);
    }
  }

  lemma AppendAnswers(tr: Trace, cause: Observation, ws: seq<Waiter>, flag: bool)
    requires AllCaused(tr) && (forall w :: w in ws ==> IsAttached(tr, w))
    requires cause == Handled(flag) || (cause == DeadlineHit && !flag)
    ensures AllCaused(tr + [cause] + Answers(ws, flag))
  {
    var all := tr + [cause] + Answers(ws, flag);
    CauseExtends(tr, [cause] + Answers(ws, flag));
    NewAnswersAreCaused(tr, cause, ws, flag);
    assert all == tr + ([cause] + Answers(ws, flag));
    assert all[|tr|] == cause;
  }

  lemma StepKeepsCauses(s: Slot, e: Event, debounce: nat)
    requires AllCaused(s.trace) && AllAttached(s) && Enabled(s, e)
    ensures AllCaused(Step(s, e, debounce).trace)
  {
    match e
    case Result(success, now) =>
      AppendAnswers(s.trace, Handled(success), Waiting(s), success);
      AppendQuiet(s.trace + [Handled(success)] + Answers(Waiting(s), success), Verdict(s, success));
    case Deadline => if s.waiters.Some? { AppendAnswers(s.trace, DeadlineHit, Waiting(s), false); }
    case _ =>
      StepEmits(s, e, debounce);
      AppendQuiet(s.trace, Emitted(s, e, debounce));
  }

  lemma AttachedExtends(tr: Trace, tail: Trace, i: nat, w: Waiter)
    requires AcceptedAt(tr, i, w) && forall m :: 0 <= m < |tail| ==> !EndsUpload(tail[m])
    ensures AcceptedAt(tr + tail, i, w)
  {
  }

  lemma StepKeepsAttached(s: Slot, e: Event, debounce: nat)
    requires SlotInv(s) && AllAttached(s) && Enabled(s, e)
    ensures AllAttached(Step(s, e, debounce))
  {
    var t := Step(s, e, debounce);
    if !e.Result? && !e.Deadline? && !e.Close? {
      StepEmits(s, e, debounce);
      forall w | w in Waiting(t) ensures IsAttached(t.trace, w) {
        if w in Waiting(s) {
          var i :| AcceptedAt(s.trace, i, w);
          AttachedExtends(s.trace, Emitted(s, e, debounce), i, w);
        } else {
          assert e.FlushSync? && AcceptedAt(t.trace, |s.trace|, w);
        }
      }
    }
  }

  // ------------------------------------- when the answering upload was started

  /** As the trace tells it, an upload is in flight. */
  predicate Busy(tr: Trace) {
    tr != [] && (
      var front, last := tr[..|tr| - 1], tr[|tr| - 1];
      last.Spawned? || (!EndsUpload(last) && Busy(front)))
  }

  lemma BusySnoc(tr: Trace, o: Observation)
    ensures Busy(tr + [o]) <==> o.Spawned? || (!EndsUpload(o) && Busy(tr))
  {
    assert (tr + [o])[..|tr|] == tr;
  }

  lemma {:induction false} BusyUnaffected(tr: Trace, tail: Trace)
    requires forall m :: 0 <= m < |tail| ==> !EndsUpload(tail[m]) && !tail[m].Spawned?
    ensures Busy(tr + tail) <==> Busy(tr)
    decreases |tail|
  {
    if tail == [] {
      assert tr + tail == tr;
    } else {
      var n := |tail| - 1;
      assert tr + tail == (tr + tail[..n]) + [tail[n]];
      BusySnoc(tr + tail[..n], tail[n]);
      BusyUnaffected(tr, tail[..n]);
    }
  }

  /** An upload starts only where none is in flight, and at once where one is requested then. */
  predicate StartsRight(tr: Trace, i: nat)
    requires i < |tr|
  {
    && (tr[i].Spawned? ==> !Busy(tr[..i]))
    && (tr[i].Accepted? && !Busy(tr[..i]) ==> i + 1 < |tr| && tr[i + 1].Spawned?)
  }

  ghost predicate AllStartRight(tr: Trace) {
    forall i :: 0 <= i < |tr| ==> StartsRight(tr, i)
  }

  ghost predicate BusyInv(s: Slot) {
    AllStartRight(s.trace) && (!s.phase.Stopped? ==> (Busy(s.trace) <==> s.waiters.Some?))
  }

  lemma StartsExtend(tr: Trace, tail: Trace)
    requires AllStartRight(tr)
    requires forall i :: |tr| <= i < |tr + tail| ==> StartsRight(tr + tail, i)
    ensures AllStartRight(tr + tail)
  {
    forall i | 0 <= i < |tr + tail| ensures StartsRight(tr + tail, i) {
      if i < |tr| {
        assert (tr + tail)[..i] == tr[..i];
        assert StartsRight(tr, i);
      }
    }
  }

  /** Appending what starts and requests nothing. */
  lemma StartsUnaffected(tr: Trace, tail: Trace)
    requires AllStartRight(tr) && forall m :: 0 <= m < |tail| ==> !tail[m].Spawned? && !tail[m].Accepted?
    ensures AllStartRight(tr + tail)
  {
    StartsExtend(tr, tail);
  }

  lemma StartsOne(tr: Trace, o: Observation)
    requires AllStartRight(tr) && (o.Spawned? ==> !Busy(tr)) && (o.Accepted? ==> Busy(tr))
    ensures AllStartRight(tr + [o])
  {
    assert (tr + [o])[..|tr|] == tr;
    StartsExtend(tr, [o]);
  }

  lemma StartsTwo(tr: Trace, w: Waiter)
    requires AllStartRight(tr) && !Busy(tr)
    ensures AllStartRight(tr + [Accepted(w), Spawned]) && Busy(tr + [Accepted(w), Spawned])
  {
    var all := tr + [Accepted(w), Spawned];
    assert all[..|tr|] == tr && all[..|tr| + 1] == tr + [Accepted(w)];
    assert all == (tr + [Accepted(w)]) + [Spawned];
    BusySnoc(tr, Accepted(w));
    BusySnoc(tr + [Accepted(w)], Spawned);
    StartsExtend(tr, [Accepted(w), Spawned]);
  }

  lemma ResultKeepsBusy(s: Slot, success: bool, now: int)
    requires BusyInv(s) && s.tasks > 0
    ensures BusyInv(OnResult(s, success, now))
  {
    var tail := Answers(Waiting(s), success) + Verdict(s, success);
    assert OnResult(s, success, now).trace == s.trace + [Handled(success)] + tail;
    StartsOne(s.trace, Handled(success));
    StartsUnaffected(s.trace + [Handled(success)], tail);
    BusySnoc(s.trace, Handled(success));
    BusyUnaffected(s.trace + [Handled(success)], tail);
  }

  lemma SpawnKeepsBusy(s: Slot, e: Event, debounce: nat)
    requires SlotInv(s) && BusyInv(s) && Enabled(s, e) && (e.Tick? || e.Shutdown? || e.FlushSync?)
    ensures BusyInv(Step(s, e, debounce))
  {
    var tail := Emitted(s, e, debounce);
    StepEmits(s, e, debounce);
    if e.FlushSync? && s.waiters.None? {
      StartsTwo(s.trace, e.waiter);
    } else if tail != [] {
      StartsOne(s.trace, tail[0]);
      BusySnoc(s.trace, tail[0]);
    } else {
      assert s.trace + tail == s.trace;
    }
  }

  lemma StepKeepsBusy(s: Slot, e: Event, debounce: nat)
    requires SlotInv(s) && BusyInv(s) && Enabled(s, e)
    ensures BusyInv(Step(s, e, debounce))
  {
    match e
    case Result(success, now) => ResultKeepsBusy(s, success, now);
    case Tick(_) => SpawnKeepsBusy(s, e, debounce);
    case Shutdown => SpawnKeepsBusy(s, e, debounce);
    case FlushSync(_) => SpawnKeepsBusy(s, e, debounce);
    case Deadline =>
      StepEmits(s, e, debounce);
      StartsUnaffected(s.trace, Emitted(s, e, debounce));
    case _ =>
      StepEmits(s, e, debounce);
      StartsUnaffected(s.trace, Emitted(s, e, debounce));
      BusyUnaffected(s.trace, Emitted(s, e, debounce));
  }

  lemma {:induction false} RunKeepsCauses(s: Slot, es: seq<Event>, debounce: nat, t: Slot)
    requires SlotInv(s) && AllAttached(s) && AllCaused(s.trace) && BusyInv(s)
    requires IsRun(s, es, debounce, t)
    ensures AllCaused(t.trace) && BusyInv(t)
    decreases |es|
  {
    if es != [] {
      StepKeepsSlotInv(s, es[0], debounce);
      StepKeepsCauses(s, es[0], debounce);
      StepKeepsAttached(s, es[0], debounce);
      StepKeepsBusy(s, es[0], debounce);
      RunKeepsCauses(Step(s, es[0], debounce), es[1..], debounce, t);
    }
  }

  /** An upload was started between the two. */
  predicate StartedBetween(tr: Trace, i: nat, k: nat) {
    exists m :: i < m < k <= |tr| && tr[m].Spawned?
  }

  lemma {:induction false} StaysBusy(tr: Trace, i: nat, m: nat)
    requires i <= m <= |tr| && Busy(tr[..i]) && forall x :: i <= x < m ==> !EndsUpload(tr[x])
    ensures Busy(tr[..m])
    decreases m
  {
    if i < m {
      StaysBusy(tr, i, m - 1);
      assert tr[..m] == tr[..m - 1] + [tr[m - 1]];
      BusySnoc(tr[..m - 1], tr[m - 1]);
    }
  }

  lemma StartedExactlyWhenIdle(tr: Trace, i: nat, k: nat, j: nat)
    requires AllStartRight(tr) && Cause(tr, i, k, j)
    ensures StartedBetween(tr, i, k) <==> !Busy(tr[..i])
  {
    assert StartsRight(tr, i);
    if StartedBetween(tr, i, k) {
      var m :| i < m < k && tr[m].Spawned?;
      assert StartsRight(tr, m);
      if Busy(tr[..i]) {
        StaysBusy(tr, i, m);
      }
    }
  }

  /**
   An answer is the outcome of an upload of this inode that was handled after the
   waiter was accepted, or `false` at the shutdown deadline. The upload was also started
   after that exactly when none was in flight when the waiter was accepted.
   */
  lemma AnswersReportAnUpload(es: seq<Event>, debounce: nat, t: Slot, j: nat)
    requires IsRun(INITIAL, es, debounce, t)
    requires j < |t.trace| && t.trace[j].Answered?
    ensures exists i, k :: Cause(t.trace, i, k, j)
    ensures forall i: nat, k: nat :: Cause(t.trace, i, k, j) ==>
              (StartedBetween(t.trace, i, k) <==> !Busy(t.trace[..i]))
  {
    RunKeepsCauses(INITIAL, es, debounce, t);
    assert IsCaused(t.trace, j);
    forall i: nat, k: nat | Cause(t.trace, i, k, j)
      ensures StartedBetween(t.trace, i, k) <==> !Busy(t.trace[..i])
    {
      StartedExactlyWhenIdle(t.trace, i, k, j);
    }
  }

  // ------------------------------------------------ retries and quiescence

  predicate IsRequest(e: Event) {
    e.Recover? || e.Flush? || e.FlushSync?
  }

  /** Attempts that may still be made before the next result resets or ends the streak. */
  function Remaining(s: Slot): int {
    MAX_RETRIES - Failures(s)
  }

  function Measure(s: Slot): int {
    if s.phase.Stopped? then 0
    else if s.waiters.Some? then 3 * Remaining(s) - 2
    else if s.pendingSince.Some? then 3 * Remaining(s) - 1
    else if s.failure.Some? then 3 * Remaining(s)
    else 0
  }

  predicate Idle(s: Slot) {
    s.pendingSince.None? && s.waiters.None? && s.failure.None?
  }

  /** The entries of the three maps, which is all that decides what the loop does next. */
  function Entries(s: Slot): (Option<int>, Option<seq<Waiter>>, Option<FailedEntry>) {
    (s.pendingSince, s.waiters, s.failure)
  }

  lemma MeasureDecreases(s: Slot, e: Event, debounce: nat)
    requires SlotInv(s) && Enabled(s, e) && !IsRequest(e)
    ensures Measure(s) >= 0 && (Measure(s) == 0 <==> Idle(s))
    ensures Measure(Step(s, e, debounce)) <= Measure(s)
    ensures Entries(Step(s, e, debounce)) == Entries(s) || Measure(Step(s, e, debounce)) < Measure(s)
  {
  }

  function Moves(s: Slot, es: seq<Event>, debounce: nat): nat
    decreases |es|
  {
    if es == [] || !Enabled(s, es[0]) then 0
    else
      var t := Step(s, es[0], debounce);
      (if Entries(t) == Entries(s) then 0 else 1) + Moves(t, es[1..], debounce)
  }

  /** With no new request a slot can change at most `Measure` times, which is at most 29. */
  lemma {:induction false} MovesAreBounded(s: Slot, es: seq<Event>, debounce: nat, t: Slot)
    requires SlotInv(s) && IsRun(s, es, debounce, t)
    requires forall e :: e in es ==> !IsRequest(e)
    ensures Moves(s, es, debounce) + Measure(t) <= Measure(s) <= 29
    decreases |es|
  {
    if es == [] {
      MeasureIsSmall(s);
    } else {
      assert es[0] in es;
      MeasureDecreases(s, es[0], debounce);
      MeasureIsSmall(s);
      StepKeepsSlotInv(s, es[0], debounce);
      MovesAreBounded(Step(s, es[0], debounce), es[1..], debounce, t);
    }
  }

  lemma MeasureIsSmall(s: Slot)
    requires SlotInv(s)
    ensures 0 <= Measure(s) <= 29
  {
  }

  /**
   One fair round of the running loop for this slot: the upload in flight, if any, is
   handled with some outcome, and a tick runs no earlier than every deadline the slot holds.
   */
  function Round(s: Slot, success: bool, now: int, debounce: nat): Slot
    requires SlotInv(s) && s.phase.Running?
  {
    var t := if s.waiters.Some? then OnResult(s, success, now) else s;
    OnTick(t, Due(t, now, debounce), debounce)
  }

  function Due(s: Slot, now: int, debounce: nat): int {
    Max(now, Max(if s.pendingSince.Some? then s.pendingSince.value + debounce else now,
                 if s.failure.Some? then s.failure.value.nextRetry else now))
  }

  function Rounds(s: Slot, outcomes: seq<(bool, int)>, debounce: nat): Slot
    requires SlotInv(s) && s.phase.Running?
    decreases |outcomes|
  {
    if outcomes == [] then s
    else Rounds(Round(s, outcomes[0].0, outcomes[0].1, debounce), outcomes[1..], debounce)
  }

  lemma RoundDecreases(s: Slot, success: bool, now: int, debounce: nat)
    requires SlotInv(s) && s.phase.Running?
    ensures Idle(s) ==> Idle(Round(s, success, now, debounce))
    ensures !Idle(s) ==> 0 <= Measure(Round(s, success, now, debounce)) < Measure(s)
  {
    var e := Event.Result(success, now);
    if s.waiters.Some? {
      MeasureDecreases(s, e, debounce);
      StepKeepsSlotInv(s, e, debounce);
    }
    var t := if s.waiters.Some? then OnResult(s, success, now) else s;
    MeasureDecreases(t, Tick(Due(t, now, debounce)), debounce);
    MeasureIsSmall(Round(s, success, now, debounce));
  }

  /** Whatever the uploads answer, 29 fair rounds without a new request leave nothing to do. */
  lemma {:induction false} Quiesces(s: Slot, outcomes: seq<(bool, int)>, debounce: nat)
    requires SlotInv(s) && s.phase.Running? && |outcomes| >= Measure(s)
    ensures Idle(Rounds(s, outcomes, debounce))
    decreases |outcomes|
  {
    MeasureIsSmall(s);
    if outcomes != [] {
      RoundDecreases(s, outcomes[0].0, outcomes[0].1, debounce);
      Quiesces(Round(s, outcomes[0].0, outcomes[0].1, debounce), outcomes[1..], debounce);
    }
  }

  /** Uploads the slot may still start on its own. */
  function SpawnBudget(s: Slot): int {
    if s.phase.Stopped? then 0
    else if s.waiters.Some? then Remaining(s) - 1
    else if s.pendingSince.Some? || s.failure.Some? then Remaining(s)
    else 0
  }

  /** Without a new request a failing inode is tried at most ten times. */
  lemma {:induction false} AtMostTenAttempts(s: Slot, es: seq<Event>, debounce: nat, t: Slot)
    requires SlotInv(s) && IsRun(s, es, debounce, t)
    requires forall e :: e in es ==> !IsRequest(e)
    ensures Count(t.trace, Spawned) - Count(s.trace, Spawned) + SpawnBudget(t) <= SpawnBudget(s) <= MAX_RETRIES
    decreases |es|
  {
    if es != [] {
      assert es[0] in es;
      SpawnUsesBudget(s, es[0], debounce);
      StepKeepsSlotInv(s, es[0], debounce);
      AtMostTenAttempts(Step(s, es[0], debounce), es[1..], debounce, t);
    }
  }

  lemma SpawnsSnoc(tr: Trace)
    ensures Count(tr + [Spawned], Spawned) == Count(tr, Spawned) + 1
  {
  }

  lemma EndSpawnsNothing(s: Slot, e: Event, debounce: nat)
    requires Enabled(s, e) && (e.Deadline? || e.Close?)
    ensures Count(Step(s, e, debounce).trace, Spawned) == Count(s.trace, Spawned)
  {
    if e.Deadline? && s.waiters.Some? {
      CountSnoc(s.trace, DeadlineHit, Spawned);
      CountAppend(s.trace + [DeadlineHit], Answers(Waiting(s), false), Spawned);
      CountAnswers(Waiting(s), false, Spawned);
    } else if e.Close? {
      CountAppend(s.trace, Drops(Waiting(s)), Spawned);
      CountDrops(Waiting(s), Spawned);
    }
  }

  lemma TickUsesBudget(s: Slot, now: int, debounce: nat)
    requires SlotInv(s)
    ensures Count(OnTick(s, now, debounce).trace, Spawned) - Count(s.trace, Spawned)
         <= SpawnBudget(s) - SpawnBudget(OnTick(s, now, debounce))
  {
    SpawnsSnoc(s.trace);
    assert OnTick(s, now, debounce).trace == Debounced(s, now, debounce).trace;
  }

  lemma ShutdownUsesBudget(s: Slot)
    requires SlotInv(s) && s.phase.Running?
    ensures Count(OnShutdown(s).trace, Spawned) - Count(s.trace, Spawned)
         <= SpawnBudget(s) - SpawnBudget(OnShutdown(s))
  {
    SpawnsSnoc(s.trace);
  }

  lemma ResultUsesBudget(s: Slot, success: bool, now: int)
    requires SlotInv(s) && Enabled(s, Event.Result(success, now))
    ensures Count(OnResult(s, success, now).trace, Spawned) - Count(s.trace, Spawned)
         <= SpawnBudget(s) - SpawnBudget(OnResult(s, success, now))
  {
    ResultShrinksBudget(s, success, now);
    ResultCount(s, success, now, Spawned);
  }

  lemma ResultShrinksBudget(s: Slot, success: bool, now: int)
    requires SlotInv(s) && Enabled(s, Event.Result(success, now))
    ensures SpawnBudget(OnResult(s, success, now)) <= SpawnBudget(s)
  {
  }

  lemma SpawnUsesBudget(s: Slot, e: Event, debounce: nat)
    requires SlotInv(s) && Enabled(s, e) && !IsRequest(e)
    ensures Count(Step(s, e, debounce).trace, Spawned) - Count(s.trace, Spawned)
         <= SpawnBudget(s) - SpawnBudget(Step(s, e, debounce))
    ensures SpawnBudget(s) <= MAX_RETRIES
  {
    match e
    case Result(success, now) => ResultUsesBudget(s, success, now);
    case Tick(now) => TickUsesBudget(s, now, debounce);
    case Shutdown => ShutdownUsesBudget(s);
    case Deadline => EndSpawnsNothing(s, e, debounce);
    case Close => EndSpawnsNothing(s, e, debounce);
    case DrainEnd =>
  }

  // ------------------------------------------------- no request is lost

  /** A request leaves the inode waiting for an upload or joined to the one in flight. */
  predicate Served(s: Slot) {
    s.pendingSince.Some? || s.waiters.Some?
  }

  predicate Promises(s: Slot, t: Slot) {
    t.pendingSince.Some? || Count(t.trace, Spawned) > Count(s.trace, Spawned)
  }

  lemma SpawnsNeverShrink(s: Slot, e: Event, debounce: nat)
    requires Enabled(s, e)
    ensures Count(Step(s, e, debounce).trace, Spawned) >= Count(s.trace, Spawned)
  {
    var t := Step(s, e, debounce);
    assert |s.trace| <= |t.trace| && t.trace[..|s.trace|] == s.trace;
    assert t.trace == s.trace + t.trace[|s.trace|..];
    CountAppend(s.trace, t.trace[|s.trace|..], Spawned);
  }

  lemma PendingStepPromises(s: Slot, e: Event, debounce: nat)
    requires SlotInv(s) && Enabled(s, e) && s.pendingSince.Some? && !e.Close?
    ensures Promises(s, Step(s, e, debounce))
  {
    if e.FlushSync? {
      CountSnoc(s.trace, Accepted(e.waiter), Spawned);
      SpawnsSnoc(s.trace + [Accepted(e.waiter)]);
    } else {
      SpawnsSnoc(s.trace);
    }
  }

  lemma {:induction false} SpawnsGrowOverRuns(s: Slot, es: seq<Event>, debounce: nat, t: Slot)
    requires IsRun(s, es, debounce, t)
    ensures Count(t.trace, Spawned) >= Count(s.trace, Spawned)
    decreases |es|
  {
    if es != [] {
      SpawnsNeverShrink(s, es[0], debounce);
      SpawnsGrowOverRuns(Step(s, es[0], debounce), es[1..], debounce, t);
    }
  }

  /** Until every sender is gone, a pending inode stays pending until an upload of it is started. */
  lemma {:induction false} PendingIsNeverForgotten(s: Slot, es: seq<Event>, debounce: nat, t: Slot)
    requires SlotInv(s) && s.pendingSince.Some? && IsRun(s, es, debounce, t) && Close !in es
    ensures Promises(s, t)
    decreases |es|
  {
    if es != [] {
      var u := Step(s, es[0], debounce);
      PendingStepPromises(s, es[0], debounce);
      StepKeepsSlotInv(s, es[0], debounce);
      SpawnsNeverShrink(s, es[0], debounce);
      if u.pendingSince.Some? {
        PendingIsNeverForgotten(u, es[1..], debounce, t);
      } else {
        SpawnsGrowOverRuns(u, es[1..], debounce, t);
      }
    }
  }

  /**
   Every request is served, and a tick starts the debounced upload exactly when
   `debounce` milliseconds have passed since the latest request.
   */
  lemma RequestsAreServed(s: Slot, now: int, later: int, w: Waiter, debounce: nat)
    requires SlotInv(s) && s.phase.Running?
    ensures Served(OnFlush(s, now)) && w in Waiting(OnFlushSync(s, w))
    ensures s.waiters.None? ==> Served(OnRecover(s, now))
    ensures s.waiters.None? && later >= now ==>
      (OnTick(OnFlush(s, now), later, debounce).waiters.Some? <==> later - now >= debounce)
    ensures s.waiters.None? && s.pendingSince.None? && later >= now ==>
      (OnTick(OnRecover(s, now), later, debounce).waiters.Some? <==> later - now >= debounce)
  {
  }

  // --------------------------------------------------------- the backoffs

  /** The delays scheduled since the last success or the last time the inode was given up. */
  function Streak(tr: Trace): seq<nat> {
    if tr == [] then []
    else
      var front, last := tr[..|tr| - 1], tr[|tr| - 1];
      if last == Handled(true) || last.GaveUp? then []
      else if last.Scheduled? then Streak(front) + [last.delay]
      else Streak(front)
  }

  function Backoffs(n: nat): (b: seq<nat>)
    ensures |b| == n
  {
    if n == 0 then [] else Backoffs(n - 1) + [BackoffMs(n)]
  }

  function Sum(xs: seq<nat>): nat {
    if xs == [] then 0 else Sum(xs[..|xs| - 1]) + xs[|xs| - 1]
  }

  lemma StreakSnoc(tr: Trace, o: Observation)
    ensures Streak(tr + [o]) ==
      if o == Handled(true) || o.GaveUp? then []
      else if o.Scheduled? then Streak(tr) + [o.delay]
      else Streak(tr)
  {
    assert (tr + [o])[..|tr|] == tr;
  }

  /**
   The delays follow the failure count, and an inode is given up only after the
   nine backoffs of a full streak.
   */
  ghost predicate BackoffInv(s: Slot) {
    && (!s.phase.Stopped? ==> Streak(s.trace) == Backoffs(Failures(s)))
    && GivesUpAfterNine(s.trace)
  }

  ghost predicate GivesUpAfterNine(tr: Trace) {
    forall j :: 0 <= j < |tr| && tr[j].GaveUp? ==> Streak(tr[..j]) == Backoffs(9)
  }

  /** Observations that neither extend nor end a streak. */
  predicate Neutral(o: Observation) {
    !o.GaveUp? && !o.Scheduled? && o != Handled(true)
  }

  lemma {:induction false} NeutralKeepsStreak(tr: Trace, tail: Trace)
    requires forall i :: 0 <= i < |tail| ==> Neutral(tail[i])
    ensures Streak(tr + tail) == Streak(tr)
    decreases |tail|
  {
    if tail == [] {
      assert tr + tail == tr;
    } else {
      var n := |tail| - 1;
      assert tr + tail == (tr + tail[..n]) + [tail[n]];
      StreakSnoc(tr + tail[..n], tail[n]);
      NeutralKeepsStreak(tr, tail[..n]);
    }
  }

  lemma GivesUpExtends(tr: Trace, tail: Trace)
    requires GivesUpAfterNine(tr) && forall i :: 0 <= i < |tail| ==> !tail[i].GaveUp?
    ensures GivesUpAfterNine(tr + tail)
  {
    var all := tr + tail;
    forall j | 0 <= j < |all| && all[j].GaveUp?
      ensures Streak(all[..j]) == Backoffs(9)
    {
      assert all[..j] == tr[..j];
    }
  }

  lemma GivingUp(tr: Trace)
    requires GivesUpAfterNine(tr) && Streak(tr) == Backoffs(9)
    ensures GivesUpAfterNine(tr + [GaveUp])
  {
    var all := tr + [GaveUp];
    forall j | 0 <= j < |all| && all[j].GaveUp?
      ensures Streak(all[..j]) == Backoffs(9)
    {
      assert all[..j] == tr[..j];
      assert tr[..|tr|] == tr;
    }
  }

  lemma ResultKeepsBackoffs(s: Slot, success: bool, now: int)
    requires SlotInv(s) && BackoffInv(s) && Enabled(s, Event.Result(success, now))
    ensures BackoffInv(OnResult(s, success, now))
  {
    var mid := s.trace + [Handled(success)] + Answers(Waiting(s), success);
    NeutralKeepsStreak(s.trace + [Handled(success)], Answers(Waiting(s), success));
    StreakSnoc(s.trace, Handled(success));
    GivesUpExtends(s.trace, [Handled(success)]);
    GivesUpExtends(s.trace + [Handled(success)], Answers(Waiting(s), success));
    VerdictKeepsBackoffs(s, success, mid);
  }

  lemma VerdictKeepsBackoffs(s: Slot, success: bool, mid: Trace)
    requires SlotInv(s) && GivesUpAfterNine(mid)
    requires Streak(mid) == if success then [] else Backoffs(Failures(s))
    ensures GivesUpAfterNine(mid + Verdict(s, success))
    ensures Streak(mid + Verdict(s, success)) ==
      Backoffs(if success || Failures(s) + 1 >= MAX_RETRIES then 0 else Failures(s) + 1)
  {
    if success {
      assert mid + [] == mid;
    } else if Failures(s) + 1 >= MAX_RETRIES {
      StreakSnoc(mid, GaveUp);
      GivingUp(mid);
    } else {
      StreakSnoc(mid, Scheduled(BackoffMs(Failures(s) + 1)));
      GivesUpExtends(mid, [Scheduled(BackoffMs(Failures(s) + 1))]);
    }
  }

  /** What every other event adds to the trace. */
  function Emitted(s: Slot, e: Event, debounce: nat): Trace
    requires Enabled(s, e) && !e.Result?
  {
    match e
    case Recover(_) => if s.pendingSince.Some? then [] else [Requested]
    case Flush(_) => [Requested]
    case FlushSync(w) => if s.waiters.Some? then [Accepted(w)] else [Accepted(w), Spawned]
    case Tick(now) => if Ripe(s, now, debounce) && s.waiters.None? then [Spawned] else []
    case Shutdown => if s.pendingSince.Some? && s.waiters.None? then [Spawned] else []
    case Deadline => if s.waiters.Some? then [DeadlineHit] + Answers(Waiting(s), false) else []
    case DrainEnd => []
    case Close => Drops(Waiting(s))
  }

  lemma StepEmits(s: Slot, e: Event, debounce: nat)
    requires Enabled(s, e) && !e.Result?
    ensures Step(s, e, debounce).trace == s.trace + Emitted(s, e, debounce)
    ensures forall i :: 0 <= i < |Emitted(s, e, debounce)| ==> Neutral(Emitted(s, e, debounce)[i])
  {
  }

  lemma StepKeepsBackoffs(s: Slot, e: Event, debounce: nat)
    requires SlotInv(s) && BackoffInv(s) && Enabled(s, e)
    ensures BackoffInv(Step(s, e, debounce))
  {
    if e.Result? {
      ResultKeepsBackoffs(s, e.success, e.now);
    } else {
      StepEmits(s, e, debounce);
      NeutralKeepsStreak(s.trace, Emitted(s, e, debounce));
      GivesUpExtends(s.trace, Emitted(s, e, debounce));
      if !e.Close? {
        FailuresKept(s, e, debounce);
      }
    }
  }

  lemma FailuresKept(s: Slot, e: Event, debounce: nat)
    requires Enabled(s, e) && !e.Result? && !e.Close?
    ensures Step(s, e, debounce).failure == s.failure
  {
  }

  lemma {:induction false} RunKeepsBackoffs(s: Slot, es: seq<Event>, debounce: nat, t: Slot)
    requires SlotInv(s) && BackoffInv(s) && IsRun(s, es, debounce, t)
    ensures BackoffInv(t)
    decreases |es|
  {
    if es != [] {
      StepKeepsBackoffs(s, es[0], debounce);
      StepKeepsSlotInv(s, es[0], debounce);
      RunKeepsBackoffs(Step(s, es[0], debounce), es[1..], debounce, t);
    }
  }

  /** An inode is given up only after nine scheduled delays of 2, 4, 8, 16 and five times 30 seconds, 180 in all. */
  lemma GivingUpFollowsNineBackoffs(es: seq<Event>, debounce: nat, t: Slot, j: nat)
    requires IsRun(INITIAL, es, debounce, t)
    requires j < |t.trace| && t.trace[j].GaveUp?
    ensures Streak(t.trace[..j]) == [2_000, 4_000, 8_000, 16_000, 30_000, 30_000, 30_000, 30_000, 30_000]
    ensures Sum(Streak(t.trace[..j])) == 180_000
  {
    RunKeepsBackoffs(INITIAL, es, debounce, t);
    NineBackoffs();
  }

  lemma FourBackoffs()
    ensures Backoffs(4) == [2_000, 4_000, 8_000, 16_000] && Sum(Backoffs(4)) == 30_000
  {
    assert Pow2(1) == 2 && Pow2(2) == 4 && Pow2(3) == 8 && Pow2(4) == 16;
    assert Backoffs(2) == [2_000, 4_000];
    assert Sum([2_000]) == 2_000;
    assert Backoffs(4)[..3] == Backoffs(3) && Backoffs(3)[..2] == Backoffs(2) && Backoffs(2)[..1] == Backoffs(1);
    assert Sum(Backoffs(3)) == 14_000;
  }

  /** From the fifth backoff on, each is thirty seconds. */
  lemma LongBackoff(n: nat)
    requires n >= 5
    ensures Backoffs(n) == Backoffs(n - 1) + [30_000] && Sum(Backoffs(n)) == Sum(Backoffs(n - 1)) + 30_000
  {
    Pow2IsLarge(n);
    assert Backoffs(n)[..n - 1] == Backoffs(n - 1);
  }

  lemma {:induction false} Pow2IsLarge(n: nat)
    requires n >= 5
    ensures Pow2(n) >= 32
    decreases n
  {
    if n == 5 {
      assert Pow2(3) == 8;
    } else {
      Pow2IsLarge(n - 1);
    }
  }

  lemma NineBackoffs()
    ensures Backoffs(9) == [2_000, 4_000, 8_000, 16_000, 30_000, 30_000, 30_000, 30_000, 30_000]
    ensures Sum(Backoffs(9)) == 180_000
  {
    FourBackoffs();
    LongBackoff(5);
    LongBackoff(6);
    LongBackoff(7);
    LongBackoff(8);
    LongBackoff(9);
  }

  /** The nine delays, in milliseconds, that may follow a failed attempt. */
  const DELAYS: seq<nat> := [2_000, 4_000, 8_000, 16_000, 30_000, 30_000, 30_000, 30_000, 30_000]

  /** The backoff after `n` failures, and the next retry that goes with it. */
  lemma BackoffIsTheDelay(n: nat)
    requires 1 <= n <= 9
    ensures BackoffMs(n) == DELAYS[n - 1]
  {
    assert Pow2(0) == 1 && Pow2(1) == 2 && Pow2(2) == 4 && Pow2(3) == 8 && Pow2(4) == 16;
    if n >= 5 {
      Pow2IsLarge(n);
    }
  }

  /**
   The first nine failures in a row each set the next retry to the given delay after the
   result was handled, which is also the delay that is scheduled; the tenth gives the inode
   up, and a success forgets the failures.
   */
  lemma FailureSetsTheRetry(s: Slot, success: bool, now: int)
    requires SlotInv(s) && Enabled(s, Event.Result(success, now))
    ensures var t, n := OnResult(s, success, now), Failures(s);
      && t.trace != [] && (var last := t.trace[|t.trace| - 1];
        if success then t.failure == None && !last.Scheduled? && !last.GaveUp?
        else if n == 9 then t.failure == None && last == GaveUp
        else t.failure == Some(FailedEntry(n + 1, now + DELAYS[n])) && last == Scheduled(DELAYS[n]))
  {
    if !success && Failures(s) < 9 {
      BackoffIsTheDelay(Failures(s) + 1);
    }
    assert forall i :: 0 <= i < |Waiting(s)| ==> Answers(Waiting(s), success)[i].Answered?;
  }

  /** A failed inode that rests is taken up by a tick exactly from its next retry on, and spawned by the tick after. */
  lemma TickRetriesExactly(s: Slot, now: int, later: int, debounce: nat)
    requires SlotInv(s) && s.failure.Some? && s.pendingSince.None? && s.waiters.None?
    ensures OnTick(s, now, debounce).pendingSince.Some? <==> now >= s.failure.value.nextRetry
    ensures now < s.failure.value.nextRetry ==> OnTick(s, now, debounce) == s
    ensures s.failure.value.nextRetry <= now <= later ==>
      OnTick(OnTick(s, now, debounce), later, debounce).waiters == Some([])
  {
  }
}
