/**
 Restart after a crash: what the writeback buffer still holds is what the sync
 processor uploads again.
 */
module CrashRecovery {
  import opened ByteSeqs
  import opened UploadSlot
  import opened Wrappers
  import PT = PersistTasks
  import SP = SyncProcessor
  import WB = Writeback

  /** `recover_pending`: every finished entry of the drive that has an inode becomes pending. */
  method Restart(buffer: WB.WriteBackBuffer, processor: SP.Processor, driveId: string, inodes: map<string, Ino>,
                 now: int)
    requires processor.Valid() && processor.phase.Running? && processor.inFlight == map[] && processor.pending == map[]
    modifies processor
    ensures processor.Valid() && processor.phase.Running?
    ensures forall ino :: ino in processor.pending <==> Expected(buffer.files, driveId, inodes, ino)
  {
    var entries := buffer.ListPending();
    processor.RecoverPending(entries, driveId, inodes, now);
    assert processor.phase.Running? by {
      assert SP.SlotAt(processor.State(), 0)
          == SP.RecoveredSlot(old(processor.State()), 0, processor.pending.Keys, now);
    }
    forall ino ensures ino in processor.pending <==> Expected(buffer.files, driveId, inodes, ino) {
      if Expected(buffer.files, driveId, inodes, ino) {
        var key: WB.Key :| key in WB.Listed(buffer.files) && SP.Recoverable(key, driveId, inodes)
          && inodes[key.1] == ino;
        assert key in entries;
      }
    }
  }

  /** Some finished entry of this drive, uploaded before, belongs to `ino`. */
  ghost predicate Expected(files: WB.Files, driveId: string, inodes: map<string, Ino>, ino: Ino) {
    exists key: WB.Key :: key in WB.Listed(files) && SP.Recoverable(key, driveId, inodes) && inodes[key.1] == ino
  }

  /**
   A write that started where no persist of its item was in progress and has returned is
   expected by every later restart, whatever happens to other items and whatever crashes or
   is interrupted, as long as the item itself is neither written nor removed.
   */
  lemma ReturnedWriteIsRecovered(s: WB.State, key: WB.Key, content: Bytes, es: seq<WB.Event>, t: WB.State,
                                 inodes: map<string, Ino>)
    requires WB.PlainId(key.1) && !("local:" <= key.1) && key.1 in inodes && WB.TasksOf(s, key) == map[]
    requires WB.IsQuietRun(WB.Step(s, WB.At(key, PT.Put(content))), es, t, key) && WB.Returned(es, key)
    ensures Expected(t.files, key.0, inodes, inodes[key.1]) && WB.Recovered(t, key) == Some(content)
  {
    WB.ReturnedWriteSurvives(s, key, content, es, t);
    assert SP.Recoverable(key, key.0, inodes);
  }

  /**
   A recovered inode is not forgotten: after every run in which the senders stay open it
   is still pending or an upload of it has been started.
   */
  lemma RecoveredIsUploaded(s: SP.LoopState, ino: Ino, now: int, es: seq<Event>, debounce: nat, t: Slot)
    requires SP.Sound(s) && s.phase.Running? && s.inFlight == map[]
    requires IsRun(OnRecover(SP.SlotAt(s, ino), now), es, debounce, t) && Close !in es
    ensures Promises(OnRecover(SP.SlotAt(s, ino), now), t)
  {
    assert SlotInv(SP.SlotAt(s, ino));
    StepKeepsSlotInv(SP.SlotAt(s, ino), Recover(now), debounce);
    PendingIsNeverForgotten(OnRecover(SP.SlotAt(s, ino), now), es, debounce, t);
  }
}
