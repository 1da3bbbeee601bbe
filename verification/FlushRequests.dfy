/**
 A request to flush an inode and wait, from its acceptance to its answer: the slot of the
 inode together with the upload that runs for it.

 An upload starts where the loop has spawned a task, and the loop handles its result when
 it is done. In between the user, the server and other requests go on as they like.
 */
module FlushRequests {
  import opened ByteSeqs
  import opened FileNames
  import opened UploadSlot
  import opened Wrappers
  import FP = FlushProtocol

  datatype System = System(slot: Slot, flush: FP.State)

  datatype Action = Loop(event: Event) | Finish(now: int) | Upload(step: FP.Event)

  /** The upload in flight takes its steps, and its result is handled once. */
  predicate MayHappen(s: System, a: Action) {
    match a
    case Loop(event) => !event.Result? && Enabled(s.slot, event)
    case Finish(now) => s.flush.pc.Done? && Enabled(s.slot, Event.Result(s.flush.pc.success, now))
    case Upload(step) =>
      FP.Enabled(s.flush, step)
      && (step.Flush? ==> !s.flush.pc.Done? && (s.flush.pc.Start? ==> s.slot.tasks > 0))
  }

  ghost function After(s: System, a: Action, debounce: nat): System
    requires MayHappen(s, a)
  {
    match a
    case Loop(event) => s.(slot := Step(s.slot, event, debounce))
    case Finish(now) => System(OnResult(s.slot, s.flush.pc.success, now), FP.FlushStep(s.flush, FP.Answer, "", ""))
    case Upload(step) => s.(flush := FP.Step(s.flush, step))
  }

  ghost predicate IsRun(s: System, actions: seq<Action>, debounce: nat, t: System)
    decreases |actions|
  {
    if actions == [] then s == t
    else MayHappen(s, actions[0]) && IsRun(After(s, actions[0], debounce), actions[1..], debounce, t)
  }

  /** The invariants of the two parts, and no upload where none is in flight. */
  ghost predicate SystemInv(s: System) {
    && SlotInv(s.slot) && FP.Inv(s.flush) && FP.WorksOnBound(s.flush)
    && (s.slot.tasks == 0 ==> s.flush.pc.Start?)
  }

  lemma AfterKeepsInv(s: System, a: Action, debounce: nat)
    requires SystemInv(s) && MayHappen(s, a)
    ensures SystemInv(After(s, a, debounce))
  {
    match a
    case Loop(event) =>
      StepKeepsSlotInv(s.slot, event, debounce);
      LoopKeepsTasks(s.slot, event, debounce);
    case Finish(now) =>
      StepKeepsSlotInv(s.slot, Event.Result(s.flush.pc.success, now), debounce);
      RestKeepsInv(s.flush);
    case Upload(step) =>
      FP.StepKeepsInv(s.flush, step);
      FP.StepKeepsBound(s.flush, step);
  }

  lemma RestKeepsInv(f: FP.State)
    requires FP.Inv(f) && f.pc.Done?
    ensures FP.Inv(FP.FlushStep(f, FP.Answer, "", ""))
  {
  }

  lemma LoopKeepsTasks(s: Slot, e: Event, debounce: nat)
    requires Enabled(s, e) && !e.Result?
    ensures Step(s, e, debounce).tasks >= s.tasks
  {
  }

  // -------------------------------------------- a request that starts an upload

  predicate IsPlain(meta: Option<FP.Meta>) {
    meta.Some? ==> !IsTransient(meta.value.name)
  }

  /** Neither a local write nor a discard, nor a rename to a transient name. */
  predicate LeavesFile(a: Action) {
    a.Upload? ==> !a.step.LocalWrite? && !a.step.LocalDiscard? && (a.step.Refresh? ==> IsPlain(a.step.meta))
  }

  predicate Holds(f: FP.State, id: FP.Id, content: Bytes) {
    id in f.entries && f.entries[id] == content
  }

  /** The server has stored the content since the upload began, as the file or as a conflict copy. */
  ghost predicate IsStored(f: FP.State, content: Bytes) {
    FP.Sent(f, content, false) || FP.Sent(f, content, true)
  }

  /** An upload that has yet to read the entry, or carries it, or has stored it. */
  ghost predicate UploadsIt(f: FP.State, id: FP.Id, content: Bytes) {
    match f.pc
    case Start => f.bound == Some(id) && Holds(f, id, content) && IsPlain(f.meta)
    case HaveId(i) => i == id && Holds(f, id, content) && IsPlain(f.meta)
    case HaveBytes(i, bytes) => i == id && bytes == content && Holds(f, id, content) && IsPlain(f.meta)
    case Cleaning(_, _, _) => false
    case Rereading(i, _) => i == id && Holds(f, id, content)
    case Done(success) => success ==> IsStored(f, content)
    case _ => f.pc.id == id && f.pc.bytes == content && Holds(f, id, content)
  }

  lemma ReadKeepsUploading(f: FP.State, e: FP.Event, id: FP.Id, content: Bytes)
    requires UploadsIt(f, id, content) && e.Flush?
    requires f.pc.Start? || f.pc.HaveId? || f.pc.HaveBytes? || f.pc.Checking? || f.pc.Rereading?
    ensures UploadsIt(FP.Step(f, e), id, content)
  {
  }

  lemma RemovalKeepsUploading(f: FP.State, e: FP.Event, id: FP.Id, content: Bytes)
    requires FP.Inv(f) && UploadsIt(f, id, content) && e.Flush? && (f.pc.Removing? || f.pc.RemovingLocked?)
    ensures UploadsIt(FP.Step(f, e), id, content)
  {
    FP.SentSurvives(f, FP.Step(f, e), content, f.pc.RemovingLocked?);
  }

  lemma PutKeepsUploading(f: FP.State, e: FP.Event, id: FP.Id, content: Bytes)
    requires UploadsIt(f, id, content) && e.Flush? && f.pc.Putting?
    ensures UploadsIt(FP.Step(f, e), id, content)
  {
    FP.PutKeepsEntries(f, e.reply, e.newId);
  }

  lemma CopyKeepsUploading(f: FP.State, e: FP.Event, id: FP.Id, content: Bytes)
    requires UploadsIt(f, id, content) && e.Flush? && (f.pc.Copying? || f.pc.CopyingLocked?)
    ensures UploadsIt(FP.Step(f, e), id, content)
  {
    var pc := f.pc;
    var ok := if pc.Copying? then FP.Putting(pc.id, pc.bytes, pc.meta, FP.Conflict)
              else FP.RemovingLocked(pc.id, pc.bytes);
    var target := FP.ByPath(pc.meta.parent, ConflictName(pc.meta.name, e.stamp));
    FP.UploadKeepsEntries(f, target, pc.bytes, e.reply, e.newId, ok, FP.Done(false));
  }

  lemma EnvironmentKeepsUploading(f: FP.State, e: FP.Event, id: FP.Id, content: Bytes)
    requires UploadsIt(f, id, content) && !e.Flush? && LeavesFile(Upload(e))
    ensures UploadsIt(FP.Step(f, e), id, content)
  {
    FP.SentSurvives(f, FP.Step(f, e), content, false);
    FP.SentSurvives(f, FP.Step(f, e), content, true);
  }

  lemma UploadKeepsUploading(f: FP.State, e: FP.Event, id: FP.Id, content: Bytes)
    requires FP.Inv(f) && UploadsIt(f, id, content) && LeavesFile(Upload(e)) && (e.Flush? ==> !f.pc.Done?)
    ensures UploadsIt(FP.Step(f, e), id, content)
  {
    if !e.Flush? {
      EnvironmentKeepsUploading(f, e, id, content);
    } else if f.pc.Removing? || f.pc.RemovingLocked? {
      RemovalKeepsUploading(f, e, id, content);
    } else if f.pc.Putting? {
      PutKeepsUploading(f, e, id, content);
    } else if f.pc.Copying? || f.pc.CopyingLocked? {
      CopyKeepsUploading(f, e, id, content);
    } else {
      ReadKeepsUploading(f, e, id, content);
    }
  }

  /** While `w` waits, the upload in flight is one of `content`. */
  ghost predicate WaitsForIt(s: System, w: Waiter, id: FP.Id, content: Bytes) {
    Accepted(w) in s.slot.trace && (w in Waiting(s.slot) ==> UploadsIt(s.flush, id, content))
  }

  lemma LoopKeepsWaiters(s: Slot, e: Event, debounce: nat, w: Waiter)
    requires Enabled(s, e) && Accepted(w) in s.trace
    ensures Accepted(w) in Step(s, e, debounce).trace
    ensures w in Waiting(Step(s, e, debounce)) ==> w in Waiting(s) && !e.Result?
  {
  }

  lemma AfterKeepsWaiting(s: System, a: Action, debounce: nat, w: Waiter, id: FP.Id, content: Bytes)
    requires SystemInv(s) && MayHappen(s, a) && LeavesFile(a) && WaitsForIt(s, w, id, content)
    ensures WaitsForIt(After(s, a, debounce), w, id, content)
  {
    match a
    case Loop(event) => LoopKeepsWaiters(s.slot, event, debounce, w);
    case Finish(now) => LoopKeepsWaiters(s.slot, Event.Result(s.flush.pc.success, now), debounce, w);
    case Upload(step) =>
      if w in Waiting(s.slot) {
        UploadKeepsUploading(s.flush, step, id, content);
      }
  }

  lemma {:induction false} RunKeepsWaiting(s: System, actions: seq<Action>, debounce: nat, t: System,
                                           w: Waiter, id: FP.Id, content: Bytes)
    requires SystemInv(s) && IsRun(s, actions, debounce, t) && WaitsForIt(s, w, id, content)
    requires forall a :: a in actions ==> LeavesFile(a)
    ensures SystemInv(t) && WaitsForIt(t, w, id, content)
    decreases |actions|
  {
    if actions != [] {
      var u := After(s, actions[0], debounce);
      AfterKeepsInv(s, actions[0], debounce);
      AfterKeepsWaiting(s, actions[0], debounce, w, id, content);
      RunKeepsWaiting(u, actions[1..], debounce, t, w, id, content);
    }
  }

  /**
   A request accepted while the upload in flight, or the one it starts, has yet to read the
   entry or carries it, for a file that the user leaves alone until the answer: if the
   result that answers it is a success, the server has stored what the writeback buffer held
   when the request was accepted.
   */
  lemma SuccessMeansStored(s: System, w: Waiter, actions: seq<Action>, debounce: nat, t: System, now: int,
                           id: FP.Id, content: Bytes)
    requires SystemInv(s) && MayHappen(s, Loop(FlushSync(w))) && UploadsIt(s.flush, id, content)
    requires IsRun(After(s, Loop(FlushSync(w)), debounce), actions, debounce, t)
    requires forall a :: a in actions ==> LeavesFile(a)
    requires w in Waiting(t.slot) && MayHappen(t, Finish(now)) && t.flush.pc.success
    ensures IsStored(t.flush, content)
    ensures Answered(w, true) in After(t, Finish(now), debounce).slot.trace
  {
    AfterKeepsInv(s, Loop(FlushSync(w)), debounce);
    RunKeepsWaiting(After(s, Loop(FlushSync(w)), debounce), actions, debounce, t, w, id, content);
    WaiterIsAnswered(t, w, debounce, now);
  }

  lemma WaiterIsAnswered(t: System, w: Waiter, debounce: nat, now: int)
    requires w in Waiting(t.slot) && MayHappen(t, Finish(now)) && t.flush.pc.success
    ensures Answered(w, true) in After(t, Finish(now), debounce).slot.trace
  {
    var i :| 0 <= i < |Waiting(t.slot)| && Waiting(t.slot)[i] == w;
    assert Answers(Waiting(t.slot), true)[i] == Answered(w, true);
    assert Answered(w, true) in Answers(Waiting(t.slot), true);
  }

  // ------------------------------------------- exactly when success means stored

  /** The upload will read the entry, or carries the content and will send it. */
  predicate Reads(pc: FP.Pc, content: Bytes) {
    pc.Start? || pc.HaveId? || pc.Rereading? || (FP.Carries(pc) && !pc.Cleaning? && pc.bytes == content)
  }

  /** The file turns out to be locked on the server, and the entry will be read once more. */
  predicate MeetsLock(s: System, a: Action) {
    a.Upload? && a.step.Flush? && a.step.reply.Locked? && s.flush.pc.Putting? && s.flush.pc.meta.parent != ""
  }

  ghost predicate MeetsLockInRun(s: System, actions: seq<Action>, debounce: nat)
    decreases |actions|
  {
    && actions != [] && MayHappen(s, actions[0])
    && (MeetsLock(s, actions[0]) || MeetsLockInRun(After(s, actions[0], debounce), actions[1..], debounce))
  }

  /** An upload that carries other bytes than the entry, or is over, and has not stored the entry. */
  ghost predicate Misses(f: FP.State, id: FP.Id, content: Bytes) {
    !IsStored(f, content) && match f.pc
      case Start => false
      case HaveId(_) => false
      case Rereading(_, _) => false
      case Cleaning(_, _, _) => true
      case Done(_) => true
      case Removing(_, bytes) => bytes != content
      case _ => f.pc.id == id && f.pc.bytes != content && Holds(f, id, content)
  }

  /** Only an upload of the content itself makes it stored. */
  lemma StoringOthers(f: FP.State, g: FP.State, content: Bytes)
    requires !IsStored(f, content) && g.began == f.began && f.history <= g.history
    requires |g.history| <= |f.history| + 1
    requires |g.history| > |f.history| ==>
      g.history[|f.history|].author.Remote? || g.history[|f.history|].content != content
    ensures !IsStored(g, content)
  {
    forall i: nat, copy: bool | f.began <= i ensures !FP.Stores(g.history, i, content, copy) {
      assert !FP.Stores(f.history, i, content, copy) by {
        if FP.Stores(f.history, i, content, copy) {
          assert FP.Sent(f, content, copy);
        }
      }
    }
  }

  lemma SilentMisses(f: FP.State, e: FP.Event, id: FP.Id, content: Bytes)
    requires Misses(f, id, content) && e.Flush? && FP.IsSilent(f.pc) && !f.pc.Done?
    ensures Misses(FP.Step(f, e), id, content)
  {
    StoringOthers(f, FP.Step(f, e), content);
  }

  lemma CopyMisses(f: FP.State, e: FP.Event, id: FP.Id, content: Bytes)
    requires Misses(f, id, content) && e.Flush? && (f.pc.Copying? || f.pc.CopyingLocked?)
    ensures Misses(FP.Step(f, e), id, content)
  {
    StoringOthers(f, FP.Step(f, e), content);
  }

  lemma PutMisses(f: FP.State, e: FP.Event, id: FP.Id, content: Bytes)
    requires Misses(f, id, content) && e.Flush? && f.pc.Putting?
    ensures
      if e.reply.Locked? && f.pc.meta.parent != "" then UploadsIt(FP.Step(f, e), id, content)
      else Misses(FP.Step(f, e), id, content)
  {
    if !(e.reply.Locked? && f.pc.meta.parent != "") {
      StoringOthers(f, FP.PutStep(f, e.reply, e.newId), content);
    }
  }

  lemma EnvironmentMisses(f: FP.State, e: FP.Event, id: FP.Id, content: Bytes)
    requires Misses(f, id, content) && !e.Flush? && LeavesFile(Upload(e))
    ensures Misses(FP.Step(f, e), id, content)
  {
    StoringOthers(f, FP.Step(f, e), content);
  }

  lemma UploadMisses(s: System, e: FP.Event, id: FP.Id, content: Bytes)
    requires Misses(s.flush, id, content) && LeavesFile(Upload(e)) && MayHappen(s, Upload(e))
    ensures
      if MeetsLock(s, Upload(e)) then UploadsIt(FP.Step(s.flush, e), id, content)
      else Misses(FP.Step(s.flush, e), id, content)
  {
    if !e.Flush? {
      EnvironmentMisses(s.flush, e, id, content);
    } else if s.flush.pc.Putting? {
      PutMisses(s.flush, e, id, content);
    } else if FP.IsSilent(s.flush.pc) {
      SilentMisses(s.flush, e, id, content);
    } else {
      CopyMisses(s.flush, e, id, content);
    }
  }

  /** Who waits at the end of a run has waited all along, for the same upload. */
  lemma {:induction false} HasWaited(s: System, actions: seq<Action>, debounce: nat, t: System, w: Waiter)
    requires IsRun(s, actions, debounce, t) && Accepted(w) in s.slot.trace && w in Waiting(t.slot)
    ensures w in Waiting(s.slot) && (actions != [] ==> !actions[0].Finish?)
    ensures actions != [] ==> Accepted(w) in After(s, actions[0], debounce).slot.trace
    decreases |actions|
  {
    if actions != [] {
      var u := After(s, actions[0], debounce);
      if actions[0].Loop? {
        LoopKeepsWaiters(s.slot, actions[0].event, debounce, w);
      } else if actions[0].Finish? {
        LoopKeepsWaiters(s.slot, Event.Result(s.flush.pc.success, actions[0].now), debounce, w);
      }
      HasWaited(u, actions[1..], debounce, t, w);
    }
  }

  /** What is stored once stays stored until the answer. */
  lemma {:induction false} StoredStays(s: System, actions: seq<Action>, debounce: nat, t: System, w: Waiter,
                                       content: Bytes)
    requires IsRun(s, actions, debounce, t) && Accepted(w) in s.slot.trace && w in Waiting(t.slot)
    requires IsStored(s.flush, content)
    ensures IsStored(t.flush, content)
    decreases |actions|
  {
    if actions != [] {
      var u := After(s, actions[0], debounce);
      HasWaited(s, actions, debounce, t, w);
      if actions[0].Upload? {
        FP.StepExtendsHistory(s.flush, actions[0].step);
        FP.SentSurvives(s.flush, u.flush, content, false);
        FP.SentSurvives(s.flush, u.flush, content, true);
      }
      StoredStays(u, actions[1..], debounce, t, w, content);
    }
  }

  lemma {:induction false} MissedUntilLocked(s: System, actions: seq<Action>, debounce: nat, t: System, w: Waiter,
                                             id: FP.Id, content: Bytes)
    requires SystemInv(s) && IsRun(s, actions, debounce, t) && forall a :: a in actions ==> LeavesFile(a)
    requires Accepted(w) in s.slot.trace && w in Waiting(t.slot) && t.flush.pc == FP.Done(true)
    requires Misses(s.flush, id, content)
    ensures IsStored(t.flush, content) <==> MeetsLockInRun(s, actions, debounce)
    decreases |actions|
  {
    if actions != [] {
      var u := After(s, actions[0], debounce);
      HasWaited(s, actions, debounce, t, w);
      AfterKeepsInv(s, actions[0], debounce);
      if actions[0].Upload? {
        UploadMisses(s, actions[0].step, id, content);
      }
      if MeetsLock(s, actions[0]) {
        RunKeepsWaiting(u, actions[1..], debounce, t, w, id, content);
      } else {
        MissedUntilLocked(u, actions[1..], debounce, t, w, id, content);
      }
    }
  }

  /** An upload that has failed has failed. */
  lemma {:induction false} DoneStays(s: System, actions: seq<Action>, debounce: nat, t: System, w: Waiter)
    requires IsRun(s, actions, debounce, t) && Accepted(w) in s.slot.trace && w in Waiting(t.slot)
    requires s.flush.pc.Done?
    ensures t.flush.pc == s.flush.pc
    decreases |actions|
  {
    if actions != [] {
      HasWaited(s, actions, debounce, t, w);
      DoneStays(After(s, actions[0], debounce), actions[1..], debounce, t, w);
    }
  }

  /**
   Whenever the request is accepted: if it is answered with success, the server has stored
   what the writeback buffer held then exactly when the upload had stored it already, had
   yet to read the entry or carried the same bytes, or met a lock and read the entry anew.
   */
  lemma SuccessMeansStoredExactly(s: System, w: Waiter, actions: seq<Action>, debounce: nat, t: System, now: int,
                                  id: FP.Id, content: Bytes)
    requires SystemInv(s) && MayHappen(s, Loop(FlushSync(w)))
    requires s.flush.bound == Some(id) && Holds(s.flush, id, content) && IsPlain(s.flush.meta)
    requires IsRun(After(s, Loop(FlushSync(w)), debounce), actions, debounce, t)
    requires forall a :: a in actions ==> LeavesFile(a)
    requires w in Waiting(t.slot) && MayHappen(t, Finish(now)) && t.flush.pc.success
    ensures IsStored(t.flush, content) <==>
            || IsStored(s.flush, content) || Reads(s.flush.pc, content)
            || MeetsLockInRun(After(s, Loop(FlushSync(w)), debounce), actions, debounce)
    ensures Answered(w, true) in After(t, Finish(now), debounce).slot.trace
  {
    var u := After(s, Loop(FlushSync(w)), debounce);
    AfterKeepsInv(s, Loop(FlushSync(w)), debounce);
    WaiterIsAnswered(t, w, debounce, now);
    if IsStored(s.flush, content) {
      StoredStays(u, actions, debounce, t, w, content);
    } else if UploadsIt(s.flush, id, content) {
      if s.flush.pc.Done? {
        DoneStays(u, actions, debounce, t, w);
      }
      RunKeepsWaiting(u, actions, debounce, t, w, id, content);
    } else {
      MissedUntilLocked(u, actions, debounce, t, w, id, content);
    }
  }

  // --------------------------------------- a request that joins an upload

  lemma OneMore(s: System, actions: seq<Action>, k: nat, debounce: nat, t: System) returns (u: System)
    requires k < |actions| && IsRun(s, actions[..k], debounce, t) && MayHappen(t, actions[k])
    ensures u == After(t, actions[k], debounce) && IsRun(s, actions[..k + 1], debounce, u)
  {
    u := After(t, actions[k], debounce);
    RunSnoc(s, actions[..k], debounce, t, actions[k]);
    assert actions[..k + 1] == actions[..k] + [actions[k]];
  }

  lemma {:induction false} RunSnoc(s: System, actions: seq<Action>, debounce: nat, t: System, a: Action)
    requires IsRun(s, actions, debounce, t) && MayHappen(t, a)
    ensures IsRun(s, actions + [a], debounce, After(t, a, debounce))
    decreases |actions|
  {
    if actions == [] {
      assert ([] + [a])[1..] == [];
    } else {
      assert (actions + [a])[1..] == actions[1..] + [a];
      RunSnoc(After(s, actions[0], debounce), actions[1..], debounce, t, a);
    }
  }

  /**
   An upload is started and reads the entry; the user writes again and asks for a flush,
   which joins the upload; the upload succeeds.
   */
  function Joining(w: Waiter, debounce: nat): seq<Action> {
    [Loop(Event.Flush(0)), Loop(Tick(debounce)), Upload(FP.QUIET), Upload(FP.QUIET), Upload(FP.LocalWrite([3], true)),
     Loop(FlushSync(w)), Upload(FP.QUIET), Upload(FP.QUIET), Upload(FP.QUIET), Upload(FP.QUIET), Finish(debounce + 1)]
  }

  const INITIALLY := System(INITIAL, FP.EDITED)

  const SPAWNED := INITIAL.(waiters := Some([]), tasks := 1, trace := [Requested, Spawned])

  function Joined(w: Waiter): Slot {
    SPAWNED.(waiters := Some([w]), trace := [Requested, Spawned, Accepted(w)])
  }

  lemma UploadIsStarted(w: Waiter, debounce: nat)
    ensures IsRun(INITIALLY, Joining(w, debounce)[..2], debounce, System(SPAWNED, FP.EDITED))
  {
    var actions := Joining(w, debounce);
    assert actions[..0] == [];
    var s := OneMore(INITIALLY, actions, 0, debounce, INITIALLY);
    var t := OneMore(INITIALLY, actions, 1, debounce, s);
    assert t == System(SPAWNED, FP.EDITED);
  }

  lemma EntryIsRead(w: Waiter, debounce: nat) returns (f: FP.State)
    ensures IsRun(INITIALLY, Joining(w, debounce)[..4], debounce, System(SPAWNED, f))
    ensures f == FP.Step(FP.Step(FP.EDITED, FP.QUIET), FP.QUIET) && f.pc.HaveBytes?
  {
    var s1, s2, s3, s4 := FP.ReadThenWrite();
    UploadIsStarted(w, debounce);
    var t := OneMore(INITIALLY, Joining(w, debounce), 2, debounce, System(SPAWNED, FP.EDITED));
    assert t == System(SPAWNED, s1);
    t := OneMore(INITIALLY, Joining(w, debounce), 3, debounce, t);
    f := s2;
  }

  lemma RequestJoins(w: Waiter)
    ensures Enabled(SPAWNED, FlushSync(w)) && OnFlushSync(SPAWNED, w) == Joined(w)
  {
    assert [Requested, Spawned] + [Accepted(w)] == [Requested, Spawned, Accepted(w)];
    assert [] + [w] == [w];
  }

  lemma UserWritesAndJoins(w: Waiter, debounce: nat) returns (f: FP.State)
    ensures IsRun(INITIALLY, Joining(w, debounce)[..6], debounce, System(Joined(w), f))
    ensures f == FP.Step(FP.Step(FP.Step(FP.EDITED, FP.QUIET), FP.QUIET), FP.LocalWrite([3], true)) && f.pc.HaveBytes?
  {
    var g := EntryIsRead(w, debounce);
    f := FP.Step(g, FP.LocalWrite([3], true));
    var t := OneMore(INITIALLY, Joining(w, debounce), 4, debounce, System(SPAWNED, g));
    assert t == System(SPAWNED, f);
    RequestJoins(w);
    t := OneMore(INITIALLY, Joining(w, debounce), 5, debounce, t);
    assert t == System(Joined(w), f);
  }

  ghost predicate Follows(f: FP.State, g: FP.State) {
    FP.Enabled(f, FP.QUIET) && !f.pc.Done? && g == FP.Step(f, FP.QUIET)
  }

  /** One step of the upload while the waiter waits. */
  lemma UploadGoesOn(w: Waiter, k: nat, debounce: nat, f: FP.State, g: FP.State)
    requires 6 <= k < 10 && IsRun(INITIALLY, Joining(w, debounce)[..k], debounce, System(Joined(w), f))
    requires Follows(f, g)
    ensures IsRun(INITIALLY, Joining(w, debounce)[..k + 1], debounce, System(Joined(w), g))
  {
    var t := OneMore(INITIALLY, Joining(w, debounce), k, debounce, System(Joined(w), f));
    assert t == System(Joined(w), g);
  }

  lemma FourStepsGoOn(w: Waiter, debounce: nat, f: FP.State, g: FP.State, h: FP.State, i: FP.State, j: FP.State)
    requires IsRun(INITIALLY, Joining(w, debounce)[..6], debounce, System(Joined(w), f))
    requires Follows(f, g) && Follows(g, h) && Follows(h, i) && Follows(i, j)
    ensures IsRun(INITIALLY, Joining(w, debounce)[..10], debounce, System(Joined(w), j))
  {
    UploadGoesOn(w, 6, debounce, f, g);
    UploadGoesOn(w, 7, debounce, g, h);
    UploadGoesOn(w, 8, debounce, h, i);
    UploadGoesOn(w, 9, debounce, i, j);
  }

  lemma UploadSucceeds(w: Waiter, debounce: nat) returns (f: FP.State)
    ensures IsRun(INITIALLY, Joining(w, debounce)[..10], debounce, System(Joined(w), f))
    ensures f.pc == FP.Done(true) && f.entries == map[]
    ensures f.server == map["A" := FP.ServerItem("P", "f", 2, [2])]
    ensures |f.history| == 1 && f.history[0].content == [2]
  {
    var s1, s2, s3, s4 := FP.ReadThenWrite();
    var s5, s6, s7, s8 := FP.UploadOf(s4);
    var g := UserWritesAndJoins(w, debounce);
    assert g == s3;
    FourStepsGoOn(w, debounce, g, s4, s5, s6, s7);
    f := s7;
  }

  /** The waiter is told that the flush succeeded; what the user had written is nowhere. */
  lemma JoinedRequestMayMissTheWrite(w: Waiter, debounce: nat) returns (t: System)
    ensures IsRun(INITIALLY, Joining(w, debounce), debounce, t)
    ensures t.slot.trace == [Requested, Spawned, Accepted(w), Handled(true), Answered(w, true)]
    ensures t.flush.entries == map[] && forall id :: id in t.flush.server ==> t.flush.server[id].content != [3]
    ensures forall i :: 0 <= i < |t.flush.history| ==> t.flush.history[i].content == [2]
  {
    var f := UploadSucceeds(w, debounce);
    t := OneMore(INITIALLY, Joining(w, debounce), 10, debounce, System(Joined(w), f));
    assert Joining(w, debounce)[..11] == Joining(w, debounce);
    assert Answers([w], true) == [Answered(w, true)];
  }
}
