/**
 How long the sync processor goes on with a failing upload.

 Scheduled backoffs take time only while no request arrives during one: a Flush or
 FlushSync then starts the next attempt at once but keeps the failure count. Times are in
 milliseconds.
 */
module RetryTiming {
  import opened UploadSlot
  import opened Wrappers

  function TimeOf(e: Event): Option<int> {
    match e
    case Recover(now) => Some(now)
    case Flush(now) => Some(now)
    case Result(_, now) => Some(now)
    case Tick(now) => Some(now)
    case _ => None
  }

  function LastTime(es: seq<Event>, start: int): int
    decreases |es|
  {
    if es == [] then start
    else LastTime(es[1..], if TimeOf(es[0]).Some? then TimeOf(es[0]).value else start)
  }

  /** The clock readings of the events do not decrease, nor does the first fall before `start`. */
  predicate Ordered(es: seq<Event>, start: int)
    decreases |es|
  {
    es != [] ==>
      if TimeOf(es[0]).Some? then start <= TimeOf(es[0]).value && Ordered(es[1..], TimeOf(es[0]).value)
      else Ordered(es[1..], start)
  }

  /** When an event happens, as far as the clock readings tell. */
  function At(e: Event, last: int): int {
    if TimeOf(e).Some? then TimeOf(e).value else last
  }

  /**
   The next retry of a failing inode lies behind all backoffs so far, counted from its
   first failure, and it is neither pending nor in flight before that time.
   */
  predicate OnSchedule(s: Slot, first: int, last: int) {
    last >= first && (s.failure.Some? ==>
      && s.failure.value.nextRetry >= first + Sum(Backoffs(Failures(s)))
      && (Served(s) ==> last >= s.failure.value.nextRetry))
  }

  /** A request for a failing inode that is neither pending nor in flight, before its next retry. */
  predicate IsEarly(s: Slot, e: Event, last: int) {
    IsRequest(e) && s.failure.Some? && !Served(s) && At(e, last) < s.failure.value.nextRetry
  }

  /** Before its next retry a failing inode is taken up again by a request, and by nothing else. */
  lemma OnlyRequestsEndTheWait(s: Slot, e: Event, debounce: nat, last: int)
    requires SlotInv(s) && s.phase.Running? && s.failure.Some? && !Served(s) && Enabled(s, e)
    requires At(e, last) < s.failure.value.nextRetry
    ensures Served(Step(s, e, debounce)) <==> IsRequest(e)
  {
  }

  lemma BackoffsAddUp(n: nat)
    requires n > 0
    ensures Sum(Backoffs(n)) == Sum(Backoffs(n - 1)) + BackoffMs(n)
  {
    assert Backoffs(n)[..n - 1] == Backoffs(n - 1);
  }

  lemma ResultKeepsSchedule(s: Slot, success: bool, now: int, first: int, last: int)
    requires SlotInv(s) && Enabled(s, Event.Result(success, now)) && OnSchedule(s, first, last) && last <= now
    ensures OnSchedule(OnResult(s, success, now), first, now)
  {
    BackoffsAddUp(Failures(s) + 1);
    assert Sum(Backoffs(0)) == 0;
  }

  /** An event keeps the schedule exactly when it is no early request. */
  lemma StepKeepsScheduleExactly(s: Slot, e: Event, debounce: nat, first: int, last: int)
    requires SlotInv(s) && Enabled(s, e) && OnSchedule(s, first, last) && last <= At(e, last)
    ensures OnSchedule(Step(s, e, debounce), first, At(e, last)) <==> !IsEarly(s, e, last)
  {
    if e.Result? {
      ResultKeepsSchedule(s, e.success, e.now, first, last);
    }
  }

  predicate NoneEarly(s: Slot, es: seq<Event>, debounce: nat, last: int)
    decreases |es|
  {
    es != [] ==>
      && Enabled(s, es[0]) && !IsEarly(s, es[0], last)
      && NoneEarly(Step(s, es[0], debounce), es[1..], debounce, At(es[0], last))
  }

  predicate StaysOnSchedule(s: Slot, es: seq<Event>, debounce: nat, first: int, last: int)
    decreases |es|
  {
    && OnSchedule(s, first, last)
    && (es != [] ==>
          Enabled(s, es[0]) && StaysOnSchedule(Step(s, es[0], debounce), es[1..], debounce, first, At(es[0], last)))
  }

  /** A run keeps the schedule throughout exactly when no request in it is early. */
  lemma {:induction false} StaysOnScheduleExactly(s: Slot, es: seq<Event>, debounce: nat, t: Slot,
                                                  first: int, last: int)
    requires SlotInv(s) && IsRun(s, es, debounce, t) && OnSchedule(s, first, last) && Ordered(es, last)
    ensures StaysOnSchedule(s, es, debounce, first, last) <==> NoneEarly(s, es, debounce, last)
    decreases |es|
  {
    if es != [] {
      var u := Step(s, es[0], debounce);
      StepKeepsScheduleExactly(s, es[0], debounce, first, last);
      StepKeepsSlotInv(s, es[0], debounce);
      if OnSchedule(u, first, At(es[0], last)) {
        StaysOnScheduleExactly(u, es[1..], debounce, t, first, At(es[0], last));
      }
    }
  }

  lemma {:induction false} RunKeepsSchedule(s: Slot, es: seq<Event>, debounce: nat, t: Slot, first: int, last: int)
    requires SlotInv(s) && IsRun(s, es, debounce, t) && OnSchedule(s, first, last) && Ordered(es, last)
    requires NoneEarly(s, es, debounce, last)
    ensures SlotInv(t) && OnSchedule(t, first, LastTime(es, last))
    decreases |es|
  {
    if es != [] {
      StepKeepsScheduleExactly(s, es[0], debounce, first, last);
      StepKeepsSlotInv(s, es[0], debounce);
      RunKeepsSchedule(Step(s, es[0], debounce), es[1..], debounce, t, first, At(es[0], last));
    }
  }

  lemma FirstFailureIsOnSchedule(s: Slot, first: int, debounce: nat)
    requires SlotInv(s) && Enabled(s, Event.Result(false, first)) && Failures(s) == 0
    ensures SlotInv(OnResult(s, false, first)) && OnSchedule(OnResult(s, false, first), first, first)
  {
    StepKeepsSlotInv(s, Event.Result(false, first), debounce);
    BackoffsAddUp(1);
    assert Sum(Backoffs(0)) == 0;
  }

  /**
   With a clock that does not run backwards, and requests only for an inode that is pending
   or in flight or has waited out its backoff, an inode is given up no earlier than three
   minutes after the first failure of its streak.
   */
  lemma GivingUpTakesThreeMinutes(s: Slot, first: int, es: seq<Event>, debounce: nat, t: Slot, now: int)
    requires SlotInv(s) && Enabled(s, Event.Result(false, first)) && Failures(s) == 0
    requires IsRun(OnResult(s, false, first), es, debounce, t)
    requires Ordered(es, first) && LastTime(es, first) <= now
    requires NoneEarly(OnResult(s, false, first), es, debounce, first)
    requires Enabled(t, Event.Result(false, now)) && Verdict(t, false) == [GaveUp]
    ensures now >= first + 180_000
  {
    FirstFailureIsOnSchedule(s, first, debounce);
    RunKeepsSchedule(OnResult(s, false, first), es, debounce, t, first, first);
    LastAttemptIsLate(t, first, LastTime(es, first), now);
  }

  lemma SumOfNine(n: nat)
    requires n == 9
    ensures Sum(Backoffs(n)) == 180_000
  {
    NineBackoffs();
  }

  lemma LastAttemptIsLate(t: Slot, first: int, last: int, now: int)
    requires SlotInv(t) && OnSchedule(t, first, last) && last <= now
    requires Enabled(t, Event.Result(false, now)) && Verdict(t, false) == [GaveUp]
    ensures now >= first + 180_000
  {
    SumOfNine(Failures(t));
  }

  // ------------------------------------------------------- a prompt processor

  /** How late a retry is taken up and spawned by ticks, and how long its upload takes to fail. */
  datatype Lag = Lag(tick: nat, next: nat, upload: nat)

  function Total(lags: seq<Lag>): nat {
    if lags == [] then 0 else lags[0].tick + lags[0].next + lags[0].upload + Total(lags[1..])
  }

  function RoundEnd(due: int, lag: Lag): int {
    due + lag.tick + lag.next + lag.upload
  }

  function PromptRound(due: int, lag: Lag): seq<Event> {
    [Tick(due + lag.tick), Tick(due + lag.tick + lag.next), Event.Result(false, RoundEnd(due, lag))]
  }

  /** The attempts after `n` failures, the last of them handled at `now`. */
  function PromptRun(now: int, n: nat, lags: seq<Lag>): seq<Event>
    requires 1 <= n && n + |lags| <= 10
    decreases |lags|
  {
    if lags == [] then []
    else PromptRound(now + DELAYS[n - 1], lags[0]) + PromptRun(RoundEnd(now + DELAYS[n - 1], lags[0]), n + 1, lags[1..])
  }

  function DelaysFrom(n: nat): nat
    requires 1 <= n <= 10
    decreases 10 - n
  {
    if n == 10 then 0 else DELAYS[n - 1] + DelaysFrom(n + 1)
  }

  lemma AllDelays()
    ensures DelaysFrom(1) == 180_000
  {
    assert DelaysFrom(7) == 90_000;
    assert DelaysFrom(4) == 166_000;
  }

  /** Idle after `n` failures, the last of them at `now`. */
  predicate RestsAfter(s: Slot, n: nat, now: int) {
    && SlotInv(s) && s.phase.Running? && s.pendingSince.None? && s.waiters.None?
    && 1 <= n <= 9 && s.failure == Some(FailedEntry(n, now + DELAYS[n - 1]))
  }

  /** The two ticks of a round take the inode up and spawn it. */
  lemma PromptTicksSpawn(s: Slot, n: nat, now: int, lag: Lag, debounce: nat) returns (t: Slot, u: Slot)
    requires RestsAfter(s, n, now)
    ensures var due := now + DELAYS[n - 1];
      && t == OnTick(s, due + lag.tick, debounce) && u == OnTick(t, due + lag.tick + lag.next, debounce)
      && Enabled(s, Tick(due + lag.tick)) && Enabled(t, Tick(due + lag.tick + lag.next))
    ensures SlotInv(u) && u.phase.Running? && u.waiters == Some([]) && u.failure == s.failure
  {
    var due := now + DELAYS[n - 1];
    t := OnTick(s, due + lag.tick, debounce);
    u := OnTick(t, due + lag.tick + lag.next, debounce);
    TickRetriesExactly(s, due + lag.tick, due + lag.tick + lag.next, debounce);
    StepKeepsSlotInv(s, Tick(due + lag.tick), debounce);
    StepKeepsSlotInv(t, Tick(due + lag.tick + lag.next), debounce);
  }

  lemma PromptRoundFails(s: Slot, n: nat, now: int, lag: Lag, debounce: nat) returns (t: Slot, u: Slot, v: Slot)
    requires RestsAfter(s, n, now)
    ensures var due := now + DELAYS[n - 1];
      && t == OnTick(s, due + lag.tick, debounce) && u == OnTick(t, due + lag.tick + lag.next, debounce)
      && Enabled(s, Tick(due + lag.tick)) && Enabled(t, Tick(due + lag.tick + lag.next))
      && Enabled(u, Event.Result(false, RoundEnd(due, lag))) && v == OnResult(u, false, RoundEnd(due, lag))
      && (n < 9 ==> RestsAfter(v, n + 1, RoundEnd(due, lag)))
      && (n == 9 ==> v.trace != [] && v.trace[|v.trace| - 1] == GaveUp)
  {
    var due := now + DELAYS[n - 1];
    t, u := PromptTicksSpawn(s, n, now, lag, debounce);
    v := OnResult(u, false, RoundEnd(due, lag));
    StepKeepsSlotInv(u, Event.Result(false, RoundEnd(due, lag)), debounce);
    FailureSetsTheRetry(u, false, RoundEnd(due, lag));
  }

  lemma RunThreeMore(s: Slot, e: Event, t: Slot, f: Event, u: Slot, g: Event, v: Slot, rest: seq<Event>, w: Slot,
                     debounce: nat)
    requires Enabled(s, e) && t == Step(s, e, debounce) && Enabled(t, f) && u == Step(t, f, debounce)
    requires Enabled(u, g) && v == Step(u, g, debounce) && IsRun(v, rest, debounce, w)
    ensures IsRun(s, [e, f, g] + rest, debounce, w)
  {
    var es := [e, f, g] + rest;
    assert es[1..] == [f, g] + rest && es[1..][1..] == [g] + rest && es[1..][1..][1..] == rest;
    assert IsRun(u, es[1..][1..], debounce, w);
    assert IsRun(t, es[1..], debounce, w);
  }

  lemma PromptRunUnfolds(now: int, n: nat, lags: seq<Lag>)
    requires 1 <= n && n + |lags| <= 10 && lags != []
    ensures var due := now + DELAYS[n - 1];
      PromptRun(now, n, lags) ==
      [Tick(due + lags[0].tick), Tick(due + lags[0].tick + lags[0].next), Event.Result(false, RoundEnd(due, lags[0]))]
      + PromptRun(RoundEnd(due, lags[0]), n + 1, lags[1..])
  {
  }

  lemma {:induction false} PromptRestGivesUp(s: Slot, n: nat, now: int, lags: seq<Lag>, debounce: nat)
    returns (w: Slot)
    requires RestsAfter(s, n, now) && n + |lags| == 10
    ensures IsRun(s, PromptRun(now, n, lags), debounce, w)
    ensures w.trace != [] && w.trace[|w.trace| - 1] == GaveUp
    decreases |lags|
  {
    var due := now + DELAYS[n - 1];
    var t, u, v := PromptRoundFails(s, n, now, lags[0], debounce);
    if n == 9 {
      w := v;
      assert PromptRun(RoundEnd(due, lags[0]), 10, lags[1..]) == [];
    } else {
      w := PromptRestGivesUp(v, n + 1, RoundEnd(due, lags[0]), lags[1..], debounce);
    }
    PromptRunUnfolds(now, n, lags);
    RunThreeMore(s, Tick(due + lags[0].tick), t, Tick(due + lags[0].tick + lags[0].next), u,
                 Event.Result(false, RoundEnd(due, lags[0])), v,
                 PromptRun(RoundEnd(due, lags[0]), n + 1, lags[1..]), w, debounce);
  }

  lemma PromptRoundTakes(now: int, due: int, lag: Lag, rest: seq<Event>)
    requires now <= due
    ensures var es := PromptRound(due, lag) + rest;
      && LastTime(es, now) == LastTime(rest, RoundEnd(due, lag))
      && (Ordered(es, now) <==> Ordered(rest, RoundEnd(due, lag)))
  {
    var es, end := PromptRound(due, lag) + rest, RoundEnd(due, lag);
    assert es[1..] == [Tick(due + lag.tick + lag.next), Event.Result(false, end)] + rest;
    assert es[1..][1..] == [Event.Result(false, end)] + rest;
    assert es[1..][1..][1..] == rest;
    assert LastTime(es[1..][1..], due + lag.tick + lag.next) == LastTime(rest, end);
    assert LastTime(es[1..], due + lag.tick) == LastTime(rest, end);
    assert Ordered(es[1..][1..], due + lag.tick + lag.next) <==> Ordered(rest, end);
    assert Ordered(es[1..], due + lag.tick) <==> Ordered(rest, end);
  }

  lemma {:induction false} PromptRestTakes(n: nat, now: int, lags: seq<Lag>)
    requires 1 <= n && n + |lags| == 10
    ensures Ordered(PromptRun(now, n, lags), now)
    ensures LastTime(PromptRun(now, n, lags), now) == now + DelaysFrom(n) + Total(lags)
    decreases |lags|
  {
    if lags != [] {
      var due, end := now + DELAYS[n - 1], RoundEnd(now + DELAYS[n - 1], lags[0]);
      PromptRestTakes(n + 1, end, lags[1..]);
      PromptRoundTakes(now, due, lags[0], PromptRun(end, n + 1, lags[1..]));
    }
  }

  /**
   And no longer than that: where each retry is taken up and spawned by ticks as late as
   `lags` says, and fails as late as it says, the inode is given up exactly three minutes and
   all these lags after its first failure.
   */
  lemma PromptRunGivesUpOnTime(s: Slot, first: int, lags: seq<Lag>, debounce: nat) returns (t: Slot)
    requires SlotInv(s) && s.phase.Running? && Enabled(s, Event.Result(false, first)) && Failures(s) == 0
    requires |lags| == 9
    ensures var es := PromptRun(first, 1, lags);
      && IsRun(OnResult(s, false, first), es, debounce, t) && Ordered(es, first)
      && LastTime(es, first) == first + 180_000 + Total(lags)
      && t.trace != [] && t.trace[|t.trace| - 1] == GaveUp
  {
    StepKeepsSlotInv(s, Event.Result(false, first), debounce);
    FailureSetsTheRetry(s, false, first);
    t := PromptRestGivesUp(OnResult(s, false, first), 1, first, lags, debounce);
    PromptRestTakes(1, first, lags);
    AllDelays();
  }

  /** One request, one tick as soon as it is due, one failure. */
  function HurriedRound(now: int, debounce: nat): seq<Event> {
    [Event.Flush(now), Tick(now + debounce), Event.Result(false, now + debounce)]
  }

  function Hurried(now: int, debounce: nat, rounds: nat): seq<Event>
    decreases rounds
  {
    if rounds == 0 then [] else HurriedRound(now, debounce) + Hurried(now + debounce, debounce, rounds - 1)
  }

  /** Idle but for its failure count. */
  predicate Resting(s: Slot) {
    SlotInv(s) && s.phase.Running? && s.pendingSince.None? && s.waiters.None?
  }

  function AfterHurriedRound(s: Slot, now: int, debounce: nat): Slot
    requires Resting(s)
  {
    OnResult(OnTick(OnFlush(s, now), now + debounce, debounce), false, now + debounce)
  }

  lemma HurriedRoundFails(s: Slot, now: int, debounce: nat)
    requires Resting(s)
    ensures var u := AfterHurriedRound(s, now, debounce);
      && Resting(u)
      && (Failures(s) < 9 ==> Failures(u) == Failures(s) + 1)
      && (Failures(s) == 9 ==> u.trace != [] && u.trace[|u.trace| - 1] == GaveUp)
  {
  }

  lemma HurriedRoundRuns(s: Slot, now: int, debounce: nat, rest: seq<Event>, t: Slot)
    requires Resting(s) && IsRun(AfterHurriedRound(s, now, debounce), rest, debounce, t)
    ensures IsRun(s, HurriedRound(now, debounce) + rest, debounce, t)
  {
    var es := HurriedRound(now, debounce) + rest;
    assert es[1..] == [Tick(now + debounce), Event.Result(false, now + debounce)] + rest;
    assert es[1..][1..] == [Event.Result(false, now + debounce)] + rest;
    assert es[1..][1..][1..] == rest;
    var s1 := OnFlush(s, now);
    var s2 := OnTick(s1, now + debounce, debounce);
    assert IsRun(s2, es[1..][1..], debounce, t);
    assert IsRun(s1, es[1..], debounce, t);
  }

  lemma HurriedRoundTakes(now: int, debounce: nat, rest: seq<Event>)
    ensures var es := HurriedRound(now, debounce) + rest;
      && LastTime(es, now) == LastTime(rest, now + debounce)
      && (Ordered(es, now) <==> Ordered(rest, now + debounce))
  {
    var es := HurriedRound(now, debounce) + rest;
    assert es[1..] == [Tick(now + debounce), Event.Result(false, now + debounce)] + rest;
    assert es[1..][1..] == [Event.Result(false, now + debounce)] + rest;
    assert es[1..][1..][1..] == rest;
    assert LastTime(es[1..][1..], now + debounce) == LastTime(rest, now + debounce);
    assert LastTime(es[1..], now) == LastTime(es[1..][1..], now + debounce);
    assert Ordered(es[1..][1..], now + debounce) <==> Ordered(rest, now + debounce);
    assert Ordered(es[1..], now) <==> Ordered(es[1..][1..], now + debounce);
  }

  lemma HurriedRoundOnce(s: Slot, now: int, debounce: nat) returns (u: Slot)
    requires Resting(s)
    ensures Resting(u)
    ensures Failures(s) < 9 ==> Failures(u) == Failures(s) + 1
    ensures Failures(s) == 9 ==> u.trace != [] && u.trace[|u.trace| - 1] == GaveUp
    ensures forall rest, t :: IsRun(u, rest, debounce, t) ==> IsRun(s, HurriedRound(now, debounce) + rest, debounce, t)
  {
    u := AfterHurriedRound(s, now, debounce);
    HurriedRoundFails(s, now, debounce);
    forall rest, t | IsRun(u, rest, debounce, t) ensures IsRun(s, HurriedRound(now, debounce) + rest, debounce, t) {
      HurriedRoundRuns(s, now, debounce, rest, t);
    }
  }

  lemma {:induction false} HurriedGivesUp(s: Slot, now: int, debounce: nat, rounds: nat) returns (t: Slot)
    requires Resting(s) && rounds > 0 && Failures(s) + rounds == MAX_RETRIES
    ensures IsRun(s, Hurried(now, debounce, rounds), debounce, t)
    ensures t.trace != [] && t.trace[|t.trace| - 1] == GaveUp
    decreases rounds
  {
    var u := HurriedRoundOnce(s, now, debounce);
    if rounds == 1 {
      t := u;
      assert IsRun(u, Hurried(now + debounce, debounce, 0), debounce, t);
    } else {
      t := HurriedGivesUp(u, now + debounce, debounce, rounds - 1);
    }
  }

  lemma {:induction false} HurriedTakes(now: int, debounce: nat, rounds: nat)
    ensures Ordered(Hurried(now, debounce, rounds), now)
    ensures LastTime(Hurried(now, debounce, rounds), now) == now + rounds * debounce
    decreases rounds
  {
    if rounds > 0 {
      HurriedRoundTakes(now, debounce, Hurried(now + debounce, debounce, rounds - 1));
      HurriedTakes(now + debounce, debounce, rounds - 1);
      assert (rounds - 1) * debounce + debounce == rounds * debounce;
    }
  }

  /**
   Requests bypass the backoff but not the failure count: with one before each attempt an
   inode is given up after ten debounce intervals, instead of three minutes.
   */
  lemma RequestsCutTheWaitShort(debounce: nat) returns (t: Slot)
    ensures var es := Hurried(0, debounce, MAX_RETRIES);
      && IsRun(INITIAL, es, debounce, t) && Ordered(es, 0) && LastTime(es, 0) == 10 * debounce
      && t.trace != [] && t.trace[|t.trace| - 1] == GaveUp
  {
    t := HurriedGivesUp(INITIAL, 0, debounce, MAX_RETRIES);
    HurriedTakes(0, debounce, MAX_RETRIES);
  }
}
