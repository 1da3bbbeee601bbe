/**
 One upload of one inode against a server that other clients keep changing.

 `flush_inode_async` awaits between reading the writeback entry, checking the server's
 eTag, sending the content and removing the entry. Each piece between two awaits is one
 step here. Between any two steps the server may be edited remotely and the user may write
 again. The flush also persists the entry on the way, which changes no entry: what a persist
 leaves on disk is a step of the environment here, and PersistTasks has the steps it takes.
 Guarded requests follow the If-Match rule of section 13.1.1 of RFC 9110.
 */
module FlushProtocol {
  import opened Wrappers
  import opened ByteSeqs
  import opened FileNames

  type Id = string

  /** Uploads below this size address the file by parent and name, larger ones by id. */
  const SMALL_FILE_LIMIT: nat := 4 * 1024 * 1024

  datatype ServerItem = ServerItem(parent: Id, name: string, etag: nat, content: Bytes)

  datatype Meta = Meta(name: string, parent: Id, etag: Option<nat>)

  /** Why the content was sent the way it was. Only `Matched` sends an If-Match header. */
  datatype Why = Matched | NoEtag | NewFile | CheckFailed | Conflict

  datatype Author =
    | Remote
    | Copy
    | Original(why: Why, meta: Meta)

  /** One write the server applied: what it stored and which version, if any, it replaced. */
  datatype Write = Write(id: Id, content: Bytes, replaced: Option<nat>, author: Author)

  datatype Target = ByPath(parent: Id, name: string) | ById(id: Id)

  datatype Pc =
    | Start
    | HaveId(id: Id)
    | HaveBytes(id: Id, bytes: Bytes)
    | Cleaning(id: Id, bytes: Bytes, name: string)
    | Checking(id: Id, bytes: Bytes, meta: Meta)
    | Copying(id: Id, bytes: Bytes, meta: Meta)
    | Putting(id: Id, bytes: Bytes, meta: Meta, why: Why)
    | Removing(id: Id, bytes: Bytes)
    | Rereading(id: Id, meta: Meta)
    | CopyingLocked(id: Id, bytes: Bytes, meta: Meta)
    | RemovingLocked(id: Id, bytes: Bytes)
    | Done(success: bool)

  datatype State = State(
    server: map<Id, ServerItem>,
    nextEtag: nat,
    history: seq<Write>,
    entries: map<Id, Bytes>,
    files: map<Id, Bytes>,
    bound: Option<Id>,
    meta: Option<Meta>,
    pc: Pc,
    clean: bool,
    began: nat)

  // ---------------------------------------------------------------- server

  ghost function Resolve(server: map<Id, ServerItem>, target: Target): (r: Option<Id>)
    ensures r.Some? ==> r.value in server
  {
    match target
    case ById(id) => if id in server then Some(id) else None
    case ByPath(parent, name) =>
      if exists id :: id in server && server[id].parent == parent && server[id].name == name then
        var id :| id in server && server[id].parent == parent && server[id].name == name;
        Some(id)
      else None
  }

  datatype PutResult = Stored(id: Id) | PreconditionFailed | NotFound

  /** What the server answers: an If-Match request succeeds only against the version it names. */
  ghost function PutAnswer(s: State, target: Target, guard: Option<nat>, newId: Id): PutResult {
    var r := Resolve(s.server, target);
    if guard.Some? && (r.None? || s.server[r.value].etag != guard.value) then PreconditionFailed
    else if r.Some? then Stored(r.value)
    else if target.ByPath? && target.parent != "" then Stored(newId)
    else NotFound
  }

  /** The server stores `content` under `id` as a version nobody has seen before. */
  ghost function Store(s: State, id: Id, target: Target, content: Bytes, author: Author): State {
    var before := if id in s.server then Some(s.server[id].etag) else None;
    var item := if id in s.server then s.server[id].(etag := s.nextEtag, content := content)
                else ServerItem(if target.ByPath? then target.parent else "",
                                if target.ByPath? then target.name else "", s.nextEtag, content);
    s.(server := s.server[id := item], nextEtag := s.nextEtag + 1,
       history := s.history + [Write(id, content, before, author)])
  }

  // ----------------------------------------------------------- flush steps

  /** What the network does with the request of a step. */
  datatype Reply = Answer | Locked | Lost(applied: bool)

  predicate IsNew(id: Id) {
    "local:" <= id
  }

  function Guard(pc: Pc): Option<nat>
    requires pc.Putting?
  {
    if pc.why.Matched? then pc.meta.etag else None
  }

  function PutTarget(pc: Pc): Target
    requires pc.Putting?
  {
    if IsNew(pc.id) || |pc.bytes| < SMALL_FILE_LIMIT then ByPath(pc.meta.parent, pc.meta.name) else ById(pc.id)
  }

  function AfterMetadata(id: Id, bytes: Bytes, meta: Meta): Pc {
    if IsTransient(meta.name) then Cleaning(id, bytes, meta.name)
    else if IsNew(id) then Putting(id, bytes, meta, NewFile)
    else if meta.etag.None? then Putting(id, bytes, meta, NoEtag)
    else Checking(id, bytes, meta)
  }

  ghost function AfterCheck(s: State, pc: Pc, reply: Reply): Pc
    requires pc.Checking?
  {
    if !reply.Answer? || pc.id !in s.server then Putting(pc.id, pc.bytes, pc.meta, CheckFailed)
    else if Some(s.server[pc.id].etag) == pc.meta.etag then Putting(pc.id, pc.bytes, pc.meta, Matched)
    else if pc.meta.parent == "" then Putting(pc.id, pc.bytes, pc.meta, Conflict)
    else Copying(pc.id, pc.bytes, pc.meta)
  }

  /** Upload `content` and go on to `ok` if the server confirmed it, to `bad` otherwise. */
  ghost function Upload(s: State, target: Target, content: Bytes, author: Author, reply: Reply, newId: Id, ok: Pc,
                        bad: Pc): State {
    var answer := PutAnswer(s, target, None, newId);
    if answer.Stored? && (reply.Answer? || (reply.Lost? && reply.applied)) then
      Store(s, answer.id, target, content, author).(pc := if reply.Answer? then ok else bad)
    else s.(pc := bad)
  }

  function MetaOf(item: ServerItem): Meta {
    Meta(item.name, item.parent, Some(item.etag))
  }

  ghost function PutStep(s: State, reply: Reply, newId: Id): State
    requires s.pc.Putting?
  {
    var pc := s.pc;
    if IsNew(pc.id) && pc.meta.parent == "" then s.(pc := Done(false))
    else if reply.Locked? then s.(pc := if pc.meta.parent == "" then Done(false) else Rereading(pc.id, pc.meta))
    else
      var answer := PutAnswer(s, PutTarget(pc), Guard(pc), newId);
      if !answer.Stored? || (reply.Lost? && !reply.applied) then s.(pc := Done(false))
      else
        var t := Store(s, answer.id, PutTarget(pc), pc.bytes, Original(pc.why, pc.meta));
        if reply.Lost? then t.(pc := Done(false))
        else t.(pc := Removing(pc.id, pc.bytes),
                bound := if IsNew(pc.id) then Some(answer.id) else t.bound,
                meta := Some(MetaOf(t.server[answer.id])))
  }

  /**
   Removing drops the buffer first. Deleting the file can fail, and then what the file has
   is the entry again, which may be older; the flush ignores that.
   */
  function RemoveEntry(s: State, id: Id, reply: Reply): State {
    if reply.Answer? then s.(entries := s.entries - {id}, files := s.files - {id})
    else s.(entries := if id in s.files then s.entries[id := s.files[id]] else s.entries - {id})
  }

  ghost function FlushStep(s: State, reply: Reply, newId: Id, stamp: string): State {
    match s.pc
    case Start => s.(pc := if s.bound.Some? then HaveId(s.bound.value) else Done(true))
    case HaveId(id) =>
      if id in s.entries then s.(pc := HaveBytes(id, s.entries[id]), clean := true) else s.(pc := Done(true))
    case HaveBytes(id, bytes) =>
      s.(pc := if s.meta.Some? then AfterMetadata(id, bytes, s.meta.value) else Done(false))
    case Cleaning(id, _, _) => RemoveEntry(s, id, reply).(bound := None, pc := Done(true))
    case Checking(_, _, _) => s.(pc := AfterCheck(s, s.pc, reply))
    case Copying(id, bytes, meta) =>
      Upload(s, ByPath(meta.parent, ConflictName(meta.name, stamp)), bytes, Copy, reply, newId,
             Putting(id, bytes, meta, Conflict), Done(false))
    case Putting(_, _, _, _) => PutStep(s, reply, newId)
    case Removing(id, _) => RemoveEntry(s, id, reply).(pc := Done(true))
    case Rereading(id, meta) =>
      if id in s.entries then s.(pc := CopyingLocked(id, s.entries[id], meta), clean := true) else s.(pc := Done(false))
    case CopyingLocked(id, bytes, meta) =>
      Upload(s, ByPath(meta.parent, ConflictName(meta.name, stamp)), bytes, Copy, reply, newId,
             RemovingLocked(id, bytes), Done(false))
    case RemovingLocked(id, _) => RemoveEntry(s, id, reply).(pc := Done(true))
    case Done(_) => s.(pc := Start, began := |s.history|)
  }

  // ------------------------------------------------------------ interleaving

  datatype Event =
    | Flush(reply: Reply, newId: Id, stamp: string)
    | RemoteWrite(id: Id, parent: Id, name: string, content: Bytes)
    | RemoteMove(id: Id, parent: Id, name: string)
    | RemoteDelete(id: Id)
    | LocalWrite(content: Bytes, persisted: bool)
    | LocalDiscard
    | Persisted(content: Bytes)
    | Refresh(meta: Option<Meta>)

  /** Ids the server hands out are new and never temporary ones. */
  predicate Enabled(s: State, e: Event) {
    e.Flush? ==> e.newId !in s.server && !IsNew(e.newId)
  }

  ghost function Step(s: State, e: Event): State {
    match e
    case Flush(reply, newId, stamp) => FlushStep(s, reply, newId, stamp)
    case RemoteWrite(id, parent, name, content) => Store(s, id, ByPath(parent, name), content, Remote)
    case RemoteMove(id, parent, name) =>
      if id !in s.server then s
      else
        var moved := s.server[id].(parent := parent, name := name, etag := s.nextEtag);
        s.(server := s.server[id := moved], nextEtag := s.nextEtag + 1)
    case RemoteDelete(id) => s.(server := s.server - {id})
    case LocalWrite(content, persisted) =>
      if s.bound.Some? then
        s.(entries := s.entries[s.bound.value := content],
           files := if persisted then s.files[s.bound.value := content] else s.files,
           clean := s.clean && Carries(s.pc) && s.pc.id != s.bound.value)
      else s
    case LocalDiscard =>
      if s.bound.Some? then s.(entries := s.entries - {s.bound.value}, files := s.files - {s.bound.value}) else s
    case Persisted(content) =>
      if s.bound.Some? && s.bound.value in s.entries then s.(files := s.files[s.bound.value := content]) else s
    case Refresh(meta) => s.(meta := meta)
  }

  ghost predicate IsRun(s: State, es: seq<Event>, t: State)
    decreases |es|
  {
    if es == [] then s == t else Enabled(s, es[0]) && IsRun(Step(s, es[0]), es[1..], t)
  }

  predicate Initial(s: State) {
    s.history == [] && s.pc == Start && s.began == 0
  }

  // ------------------------------------------------------------- invariants

  predicate Carries(pc: Pc) {
    pc.HaveBytes? || pc.Cleaning? || pc.Checking? || pc.Copying? || pc.Putting?
    || pc.Removing? || pc.CopyingLocked? || pc.RemovingLocked?
  }

  /** Steps of the flush that send nothing. */
  predicate IsSilent(pc: Pc) {
    !pc.Putting? && !pc.Copying? && !pc.CopyingLocked?
  }

  /** While the user has not written since, the entry is what the flush carries. */
  predicate CarriedIsEntry(s: State) {
    Carries(s.pc) && s.clean && s.pc.id in s.entries ==> s.entries[s.pc.id] == s.pc.bytes
  }

  /** Write `i` was made by a flush and stored `content`, as a conflict copy or as the file itself. */
  predicate Stores(history: seq<Write>, i: nat, content: Bytes, copy: bool) {
    i < |history| && history[i].content == content
    && if copy then history[i].author.Copy? else history[i].author.Original?
  }

  ghost predicate Sent(s: State, content: Bytes, copy: bool) {
    exists i :: s.began <= i && Stores(s.history, i, content, copy)
  }

  ghost predicate SentBeforeRemoval(s: State) {
    && s.began <= |s.history|
    && (s.pc.Removing? ==> Sent(s, s.pc.bytes, false))
    && (s.pc.RemovingLocked? ==> Sent(s, s.pc.bytes, true))
    && (s.pc.Putting? && s.pc.why.Conflict? && s.pc.meta.parent != "" ==> Sent(s, s.pc.bytes, true))
  }

  predicate WellReasoned(s: State) {
    && (s.pc.Putting? && s.pc.why.Matched? ==> s.pc.meta.etag.Some?)
    && (s.pc.Cleaning? ==> IsTransient(s.pc.name))
  }

  /** An upload made after a matching check replaced exactly the version the cached eTag names. */
  predicate Guarded(w: Write) {
    w.author.Original? && w.author.why.Matched? ==> w.replaced.Some? && w.replaced == w.author.meta.etag
  }

  /** Content that overrode a conflicting version was first stored as a conflict copy. */
  ghost predicate Copied(history: seq<Write>, j: nat)
    requires j < |history|
  {
    var w := history[j];
    w.author.Original? && w.author.why.Conflict? && w.author.meta.parent != "" ==>
      exists i: nat :: i < j && Stores(history, i, w.content, true)
  }

  ghost predicate SoundHistory(history: seq<Write>) {
    forall j :: 0 <= j < |history| ==> Guarded(history[j]) && Copied(history, j)
  }

  ghost predicate Inv(s: State) {
    CarriedIsEntry(s) && SentBeforeRemoval(s) && WellReasoned(s) && SoundHistory(s.history)
  }

  lemma StoreKeepsHistory(s: State, id: Id, target: Target, content: Bytes, author: Author)
    requires SoundHistory(s.history)
    requires author.Original? && author.why.Matched? ==> id in s.server && author.meta.etag == Some(s.server[id].etag)
    requires author.Original? && author.why.Conflict? && author.meta.parent != "" ==> Sent(s, content, true)
    ensures SoundHistory(Store(s, id, target, content, author).history)
  {
    var h := Store(s, id, target, content, author).history;
    forall j | 0 <= j < |h|
      ensures Guarded(h[j]) && Copied(h, j)
    {
      CopiedSurvives(s.history, h, j);
      if j == |s.history| && author.Original? && author.why.Conflict? && author.meta.parent != "" {
        var i :| s.began <= i && Stores(s.history, i, content, true);
        assert Stores(h, i, content, true);
      }
    }
  }

  lemma CopiedSurvives(g: seq<Write>, h: seq<Write>, j: nat)
    requires SoundHistory(g) && g <= h
    ensures j < |g| ==> Guarded(h[j]) && Copied(h, j)
  {
    if j < |g| {
      assert Copied(g, j);
      var w := g[j];
      if w.author.Original? && w.author.why.Conflict? && w.author.meta.parent != "" {
        var i: nat :| i < j && Stores(g, i, w.content, true);
        assert Stores(h, i, w.content, true);
      }
    }
  }

  lemma SentSurvives(s: State, t: State, content: Bytes, copy: bool)
    requires t.began == s.began && s.history <= t.history
    ensures Sent(s, content, copy) ==> Sent(t, content, copy)
  {
    if Sent(s, content, copy) {
      var i :| s.began <= i && Stores(s.history, i, content, copy);
      assert Stores(t.history, i, content, copy);
    }
  }

  lemma PutExtendsHistory(s: State, reply: Reply, newId: Id)
    requires s.pc.Putting?
    ensures PutStep(s, reply, newId).began == s.began && s.history <= PutStep(s, reply, newId).history
  {
  }

  lemma CopyExtendsHistory(s: State, reply: Reply, newId: Id, stamp: string)
    requires s.pc.Copying? || s.pc.CopyingLocked?
    ensures FlushStep(s, reply, newId, stamp).began == s.began
    ensures s.history <= FlushStep(s, reply, newId, stamp).history
  {
  }

  lemma StepExtendsHistory(s: State, e: Event)
    requires !(e.Flush? && s.pc.Done?)
    ensures Step(s, e).began == s.began && s.history <= Step(s, e).history
  {
    if e.Flush? {
      if s.pc.Putting? {
        PutExtendsHistory(s, e.reply, e.newId);
      } else if !IsSilent(s.pc) {
        CopyExtendsHistory(s, e.reply, e.newId, e.stamp);
      }
    }
  }

  lemma StoreSends(s: State, id: Id, target: Target, content: Bytes, author: Author)
    requires s.began <= |s.history| && !author.Remote?
    ensures Sent(Store(s, id, target, content, author), content, author.Copy?)
  {
    assert Stores(Store(s, id, target, content, author).history, |s.history|, content, author.Copy?);
  }

  /** A conflict copy that the server confirmed is in the history, whatever it replaced. */
  lemma UploadKeepsHistory(s: State, target: Target, content: Bytes, reply: Reply, newId: Id, ok: Pc, bad: Pc)
    requires SoundHistory(s.history) && s.began <= |s.history| && ok != bad
    ensures var t := Upload(s, target, content, Copy, reply, newId, ok, bad);
      && SoundHistory(t.history) && t.began <= |t.history|
      && (t.pc == ok ==> Sent(t, content, true))
  {
    var answer := PutAnswer(s, target, None, newId);
    if answer.Stored? {
      StoreKeepsHistory(s, answer.id, target, content, Copy);
      StoreSends(s, answer.id, target, content, Copy);
    }
  }

  lemma CopyStepKeepsInv(s: State, e: Event)
    requires Inv(s) && Enabled(s, e) && e.Flush? && s.pc.Copying?
    ensures Inv(Step(s, e))
  {
    var pc := s.pc;
    UploadKeepsHistory(s, ByPath(pc.meta.parent, ConflictName(pc.meta.name, e.stamp)), pc.bytes, e.reply, e.newId,
                       Putting(pc.id, pc.bytes, pc.meta, Conflict), Done(false));
  }

  lemma CopyLockedStepKeepsInv(s: State, e: Event)
    requires Inv(s) && Enabled(s, e) && e.Flush? && s.pc.CopyingLocked?
    ensures Inv(Step(s, e))
  {
    var pc := s.pc;
    UploadKeepsHistory(s, ByPath(pc.meta.parent, ConflictName(pc.meta.name, e.stamp)), pc.bytes, e.reply, e.newId,
                       RemovingLocked(pc.id, pc.bytes), Done(false));
  }

  lemma PutKeepsHistory(s: State, reply: Reply, newId: Id)
    requires SoundHistory(s.history) && SentBeforeRemoval(s) && WellReasoned(s) && s.pc.Putting?
    ensures SoundHistory(PutStep(s, reply, newId).history) && SentBeforeRemoval(PutStep(s, reply, newId))
  {
    var pc := s.pc;
    var answer := PutAnswer(s, PutTarget(pc), Guard(pc), newId);
    var author := Original(pc.why, pc.meta);
    if answer.Stored? {
      StoreKeepsHistory(s, answer.id, PutTarget(pc), pc.bytes, author);
      StoreSends(s, answer.id, PutTarget(pc), pc.bytes, author);
    }
  }

  lemma PutKeepsInv(s: State, e: Event)
    requires Inv(s) && Enabled(s, e) && e.Flush? && s.pc.Putting?
    ensures Inv(Step(s, e))
  {
    PutKeepsHistory(s, e.reply, e.newId);
  }

  lemma CheckStepKeepsInv(s: State, e: Event)
    requires Inv(s) && Enabled(s, e) && e.Flush? && s.pc.Checking?
    ensures Inv(Step(s, e))
  {
  }

  lemma ReadStepKeepsInv(s: State, e: Event)
    requires Inv(s) && Enabled(s, e) && e.Flush? && (s.pc.HaveId? || s.pc.HaveBytes? || s.pc.Rereading?)
    ensures Inv(Step(s, e))
  {
  }

  lemma EndStepKeepsInv(s: State, e: Event)
    requires Inv(s) && Enabled(s, e) && e.Flush?
    requires s.pc.Start? || s.pc.Done? || s.pc.Cleaning? || s.pc.Removing? || s.pc.RemovingLocked?
    ensures Inv(Step(s, e))
  {
  }

  lemma EnvironmentKeepsInv(s: State, e: Event)
    requires Inv(s) && Enabled(s, e) && !e.Flush?
    ensures Inv(Step(s, e))
  {
    var t := Step(s, e);
    if e.RemoteWrite? {
      StoreKeepsHistory(s, e.id, ByPath(e.parent, e.name), e.content, Remote);
    }
    assert s.history <= t.history && t.began == s.began && t.pc == s.pc;
    if Carries(s.pc) {
      SentSurvives(s, t, s.pc.bytes, false);
      SentSurvives(s, t, s.pc.bytes, true);
    }
  }

  lemma StepKeepsInv(s: State, e: Event)
    requires Inv(s) && Enabled(s, e)
    ensures Inv(Step(s, e))
  {
    if !e.Flush? {
      EnvironmentKeepsInv(s, e);
    } else if s.pc.Copying? {
      CopyStepKeepsInv(s, e);
    } else if s.pc.CopyingLocked? {
      CopyLockedStepKeepsInv(s, e);
    } else if s.pc.Putting? {
      PutKeepsInv(s, e);
    } else if s.pc.Checking? {
      CheckStepKeepsInv(s, e);
    } else if s.pc.HaveId? || s.pc.HaveBytes? || s.pc.Rereading? {
      ReadStepKeepsInv(s, e);
    } else {
      EndStepKeepsInv(s, e);
    }
  }

  lemma {:induction false} RunKeepsInv(s: State, es: seq<Event>, t: State)
    requires Inv(s) && IsRun(s, es, t)
    ensures Inv(t)
    decreases |es|
  {
    if es != [] {
      StepKeepsInv(s, es[0]);
      RunKeepsInv(Step(s, es[0]), es[1..], t);
    }
  }

  /** Until its upload is confirmed a flush works on the item the inode is bound to. */
  predicate WorksOnBound(s: State) {
    s.pc.Start? || s.pc.Removing? || s.pc.Done? || s.bound == Some(s.pc.id)
  }

  lemma PutKeepsBound(s: State, reply: Reply, newId: Id)
    requires WorksOnBound(s) && s.pc.Putting?
    ensures WorksOnBound(PutStep(s, reply, newId))
  {
  }

  lemma CopyKeepsBound(s: State, reply: Reply, newId: Id, stamp: string)
    requires WorksOnBound(s) && (s.pc.Copying? || s.pc.CopyingLocked?)
    ensures WorksOnBound(FlushStep(s, reply, newId, stamp))
  {
  }

  lemma SilentKeepsBound(s: State, reply: Reply, newId: Id, stamp: string)
    requires WorksOnBound(s) && IsSilent(s.pc)
    ensures WorksOnBound(FlushStep(s, reply, newId, stamp))
  {
  }

  lemma StepKeepsBound(s: State, e: Event)
    requires WorksOnBound(s) && Enabled(s, e)
    ensures WorksOnBound(Step(s, e))
  {
    if e.Flush? {
      if s.pc.Putting? {
        PutKeepsBound(s, e.reply, e.newId);
      } else if IsSilent(s.pc) {
        SilentKeepsBound(s, e.reply, e.newId, e.stamp);
      } else {
        CopyKeepsBound(s, e.reply, e.newId, e.stamp);
      }
    }
  }

  // ----------------------------------------------------------- main results

  lemma UploadKeepsEntries(s: State, target: Target, content: Bytes, reply: Reply, newId: Id, ok: Pc, bad: Pc)
    ensures Upload(s, target, content, Copy, reply, newId, ok, bad).entries == s.entries
  {
  }

  lemma PutKeepsEntries(s: State, reply: Reply, newId: Id)
    requires s.pc.Putting?
    ensures PutStep(s, reply, newId).entries == s.entries
  {
  }

  /** The entry is taken away, or an older one takes its place. */
  predicate TakesAway(s: State, e: Event, id: Id, t: State) {
    && !e.LocalWrite? && !e.LocalDiscard?
    && id in s.entries && (id !in t.entries || t.entries[id] != s.entries[id])
  }

  /** Only the three removal steps of the flush, and the user, take an entry away or change it. */
  lemma OnlyRemovalStepsRemove(s: State, e: Event, id: Id)
    requires Enabled(s, e) && TakesAway(s, e, id, Step(s, e))
    ensures e.Flush? && (s.pc.Cleaning? || s.pc.Removing? || s.pc.RemovingLocked?) && s.pc.id == id
  {
    if e.Flush? && (s.pc.Copying? || s.pc.CopyingLocked?) {
      var target := ByPath(s.pc.meta.parent, ConflictName(s.pc.meta.name, e.stamp));
      var ok := if s.pc.Copying? then Putting(s.pc.id, s.pc.bytes, s.pc.meta, Conflict)
                else RemovingLocked(s.pc.id, s.pc.bytes);
      UploadKeepsEntries(s, target, s.pc.bytes, e.reply, e.newId, ok, Done(false));
    } else if e.Flush? && s.pc.Putting? {
      PutKeepsEntries(s, e.reply, e.newId);
    }
  }

  /**
   Whatever happens remotely in between, the flush takes an entry away, or lets an older
   file take its place, only when the server has stored exactly those bytes during this
   flush, as the file itself or, after a 423, as a conflict copy; or when the name is
   transient; or when the user wrote again after the flush had read the entry.
   */
  lemma RemovalIsSafe(s0: State, es: seq<Event>, s: State, e: Event, id: Id)
    requires Initial(s0) && IsRun(s0, es, s) && Enabled(s, e) && TakesAway(s, e, id, Step(s, e))
    ensures !s.clean || (s.pc.Cleaning? && IsTransient(s.pc.name))
         || Sent(s, s.entries[id], s.pc.RemovingLocked?)
  {
    RunKeepsInv(s0, es, s);
    OnlyRemovalStepsRemove(s, e, id);
  }

  /** A flush stores the file itself at most once, and then goes on to the removal or ends. */
  predicate OneUpload(s: State) {
    forall i :: 0 <= s.began <= i < |s.history| && s.history[i].author.Original? ==>
      s.pc.Done? || (s.pc.Removing? && s.history[i].content == s.pc.bytes)
  }

  lemma StoreKeepsOneUpload(s: State, id: Id, target: Target, content: Bytes, author: Author)
    requires OneUpload(s) && !author.Original?
    ensures OneUpload(Store(s, id, target, content, author))
  {
  }

  lemma PutKeepsOneUpload(s: State, reply: Reply, newId: Id)
    requires OneUpload(s) && s.pc.Putting?
    ensures OneUpload(PutStep(s, reply, newId))
  {
  }

  lemma CopyKeepsOneUpload(s: State, reply: Reply, newId: Id, stamp: string)
    requires OneUpload(s) && (s.pc.Copying? || s.pc.CopyingLocked?)
    ensures OneUpload(FlushStep(s, reply, newId, stamp))
  {
    var target := ByPath(s.pc.meta.parent, ConflictName(s.pc.meta.name, stamp));
    var answer := PutAnswer(s, target, None, newId);
    if answer.Stored? {
      StoreKeepsOneUpload(s, answer.id, target, s.pc.bytes, Copy);
    }
  }

  lemma SilentKeepsOneUpload(s: State, reply: Reply, newId: Id, stamp: string)
    requires OneUpload(s) && IsSilent(s.pc)
    ensures OneUpload(FlushStep(s, reply, newId, stamp))
  {
  }

  lemma StepKeepsOneUpload(s: State, e: Event)
    requires OneUpload(s) && Enabled(s, e)
    ensures OneUpload(Step(s, e))
  {
    match e
    case Flush(reply, newId, stamp) =>
      if IsSilent(s.pc) {
        SilentKeepsOneUpload(s, reply, newId, stamp);
      } else if s.pc.Putting? {
        PutKeepsOneUpload(s, reply, newId);
      } else {
        CopyKeepsOneUpload(s, reply, newId, stamp);
      }
    case RemoteWrite(id, parent, name, content) => StoreKeepsOneUpload(s, id, ByPath(parent, name), content, Remote);
    case _ =>
  }

  lemma {:induction false} RunKeepsOneUpload(s: State, es: seq<Event>, t: State)
    requires OneUpload(s) && IsRun(s, es, t)
    ensures OneUpload(t)
    decreases |es|
  {
    if es != [] {
      StepKeepsOneUpload(s, es[0]);
      RunKeepsOneUpload(Step(s, es[0]), es[1..], t);
    }
  }

  /**
   After a successful upload, removing the entry is safe exactly when the entry still
   equals what the flush read, which the code does not compare before it removes.
   */
  lemma RemovalIsSafeExactlyWhenTheEntryIsUnchanged(s0: State, es: seq<Event>, s: State)
    requires Initial(s0) && IsRun(s0, es, s) && s.pc.Removing? && s.pc.id in s.entries
    ensures Sent(s, s.entries[s.pc.id], false) <==> s.entries[s.pc.id] == s.pc.bytes
  {
    RunKeepsInv(s0, es, s);
    RunKeepsOneUpload(s0, es, s);
  }

  predicate IsCopy(s: State, i: nat) {
    s.began <= i < |s.history| && s.history[i].author.Copy?
  }

  /** A conflict copy of this flush that another one followed stored the content. */
  ghost predicate CopiedEarlier(s: State, content: Bytes) {
    exists i: nat, k: nat :: i < k && IsCopy(s, i) && IsCopy(s, k) && s.history[i].content == content
  }

  ghost predicate IsFollowed(s: State, i: nat) {
    exists k: nat :: i < k && IsCopy(s, k)
  }

  /** The last conflict copy of a flush that is about to remove the entry of a locked file holds what it carries. */
  ghost predicate LastCopyIsCarried(s: State) {
    s.pc.RemovingLocked? ==>
      forall i: nat :: IsCopy(s, i) && s.history[i].content != s.pc.bytes ==> IsFollowed(s, i)
  }

  lemma CopyGoesElsewhere(s: State, reply: Reply, newId: Id, stamp: string)
    requires s.pc.Copying?
    ensures !FlushStep(s, reply, newId, stamp).pc.RemovingLocked?
  {
  }

  lemma DecisionGoesElsewhere(s: State, reply: Reply, newId: Id, stamp: string)
    requires s.pc.HaveBytes? || s.pc.Checking?
    ensures !FlushStep(s, reply, newId, stamp).pc.RemovingLocked?
  {
  }

  lemma ReadGoesElsewhere(s: State, reply: Reply, newId: Id, stamp: string)
    requires s.pc.Start? || s.pc.HaveId? || s.pc.Rereading? || s.pc.Done?
    ensures !FlushStep(s, reply, newId, stamp).pc.RemovingLocked?
  {
  }

  lemma RemovalGoesElsewhere(s: State, reply: Reply, newId: Id, stamp: string)
    requires s.pc.Cleaning? || s.pc.Removing? || s.pc.RemovingLocked?
    ensures FlushStep(s, reply, newId, stamp).pc == Done(true)
  {
  }

  lemma PutGoesElsewhere(s: State, reply: Reply, newId: Id)
    requires s.pc.Putting?
    ensures !PutStep(s, reply, newId).pc.RemovingLocked?
  {
  }

  lemma UploadAppends(s: State, target: Target, content: Bytes, reply: Reply, newId: Id, ok: Pc, bad: Pc)
    requires ok != bad && s.began <= |s.history| && Upload(s, target, content, Copy, reply, newId, ok, bad).pc == ok
    ensures var t := Upload(s, target, content, Copy, reply, newId, ok, bad);
      t.began == s.began && IsCopy(t, |s.history|) && |t.history| == |s.history| + 1
      && t.history[|s.history|].content == content
  {
  }

  lemma LockedCopyIsCarried(s: State, e: Event)
    requires Enabled(s, e) && e.Flush? && s.pc.CopyingLocked? && s.began <= |s.history|
    ensures LastCopyIsCarried(Step(s, e))
  {
    var pc := s.pc;
    var ok := RemovingLocked(pc.id, pc.bytes);
    var target := ByPath(pc.meta.parent, ConflictName(pc.meta.name, e.stamp));
    var t := Upload(s, target, pc.bytes, Copy, e.reply, e.newId, ok, Done(false));
    if t.pc == ok {
      UploadAppends(s, target, pc.bytes, e.reply, e.newId, ok, Done(false));
    }
  }

  lemma EnvironmentKeepsLastCopy(s: State, e: Event)
    requires LastCopyIsCarried(s) && !e.Flush? && s.pc.RemovingLocked?
    ensures LastCopyIsCarried(Step(s, e))
  {
    var t := Step(s, e);
    assert t.pc == s.pc && t.began == s.began && s.history <= t.history;
    assert forall i: nat :: IsCopy(t, i) <==> IsCopy(s, i);
    forall i: nat | IsCopy(t, i) && t.history[i].content != t.pc.bytes ensures IsFollowed(t, i) {
      var k: nat :| i < k && IsCopy(s, k);
      assert IsCopy(t, k);
    }
  }

  lemma StepKeepsLastCopy(s: State, e: Event)
    requires Inv(s) && LastCopyIsCarried(s) && Enabled(s, e)
    ensures LastCopyIsCarried(Step(s, e))
  {
    if !e.Flush? {
      if s.pc.RemovingLocked? {
        EnvironmentKeepsLastCopy(s, e);
      }
    } else if s.pc.CopyingLocked? {
      LockedCopyIsCarried(s, e);
    } else if s.pc.Putting? {
      PutGoesElsewhere(s, e.reply, e.newId);
    } else if s.pc.Copying? {
      CopyGoesElsewhere(s, e.reply, e.newId, e.stamp);
    } else if s.pc.HaveBytes? || s.pc.Checking? {
      DecisionGoesElsewhere(s, e.reply, e.newId, e.stamp);
    } else if s.pc.Cleaning? || s.pc.Removing? || s.pc.RemovingLocked? {
      RemovalGoesElsewhere(s, e.reply, e.newId, e.stamp);
    } else {
      ReadGoesElsewhere(s, e.reply, e.newId, e.stamp);
    }
  }

  lemma {:induction false} RunKeepsLastCopy(s: State, es: seq<Event>, t: State)
    requires Inv(s) && LastCopyIsCarried(s) && IsRun(s, es, t)
    ensures LastCopyIsCarried(t)
    decreases |es|
  {
    if es != [] {
      StepKeepsInv(s, es[0]);
      StepKeepsLastCopy(s, es[0]);
      RunKeepsLastCopy(Step(s, es[0]), es[1..], t);
    }
  }

  /**
   After a 423, removing the entry is safe exactly when it still equals what was read for
   the conflict copy, or an earlier conflict copy of the same flush happens to hold it.
   */
  lemma LockedRemovalIsSafeExactly(s0: State, es: seq<Event>, s: State)
    requires Initial(s0) && IsRun(s0, es, s) && s.pc.RemovingLocked? && s.pc.id in s.entries
    ensures var entry := s.entries[s.pc.id];
      Sent(s, entry, true) <==> entry == s.pc.bytes || CopiedEarlier(s, entry)
  {
    RunKeepsInv(s0, es, s);
    RunKeepsLastCopy(s0, es, s);
    var entry := s.entries[s.pc.id];
    if Sent(s, entry, true) && entry != s.pc.bytes {
      var i: nat :| s.began <= i && Stores(s.history, i, entry, true);
      assert IsCopy(s, i);
    } else if CopiedEarlier(s, entry) {
      var i: nat, k: nat :| i < k && IsCopy(s, i) && IsCopy(s, k) && s.history[i].content == entry;
      assert Stores(s.history, i, entry, true);
    }
  }

  /** A guarded upload never replaces a version other than the one the cached metadata names. */
  lemma GuardedUploadsReplaceTheCachedVersion(s0: State, es: seq<Event>, s: State, j: nat)
    requires Initial(s0) && IsRun(s0, es, s) && j < |s.history|
    ensures Guarded(s.history[j]) && Copied(s.history, j)
  {
    RunKeepsInv(s0, es, s);
  }

  /** The server never hands out an eTag twice. */
  ghost predicate EtagsAreOld(s: State) {
    forall id :: id in s.server ==> s.server[id].etag < s.nextEtag
  }

  lemma StoreKeepsEtagsOld(s: State, id: Id, target: Target, content: Bytes, author: Author)
    requires EtagsAreOld(s)
    ensures EtagsAreOld(Store(s, id, target, content, author))
  {
  }

  lemma PutKeepsEtagsOld(s: State, reply: Reply, newId: Id)
    requires EtagsAreOld(s) && s.pc.Putting?
    ensures EtagsAreOld(PutStep(s, reply, newId))
  {
    var answer := PutAnswer(s, PutTarget(s.pc), Guard(s.pc), newId);
    if answer.Stored? {
      StoreKeepsEtagsOld(s, answer.id, PutTarget(s.pc), s.pc.bytes, Original(s.pc.why, s.pc.meta));
    }
  }

  lemma UploadKeepsEtagsOld(s: State, target: Target, content: Bytes, reply: Reply, newId: Id, ok: Pc, bad: Pc)
    requires EtagsAreOld(s)
    ensures EtagsAreOld(Upload(s, target, content, Copy, reply, newId, ok, bad))
  {
    var answer := PutAnswer(s, target, None, newId);
    if answer.Stored? {
      StoreKeepsEtagsOld(s, answer.id, target, content, Copy);
    }
  }

  lemma SilentKeepsServer(s: State, reply: Reply, newId: Id, stamp: string)
    requires IsSilent(s.pc)
    ensures var t := FlushStep(s, reply, newId, stamp); t.server == s.server && t.nextEtag == s.nextEtag
  {
    match s.pc
    case Start =>
    case HaveId(id) =>
    case HaveBytes(id, bytes) =>
    case Cleaning(id, bytes, name) => assert RemoveEntry(s, id, reply).server == s.server;
    case Removing(id, bytes) => assert RemoveEntry(s, id, reply).server == s.server;
    case RemovingLocked(id, bytes) => assert RemoveEntry(s, id, reply).server == s.server;
    case _ =>
  }

  lemma StepKeepsEtagsOld(s: State, e: Event)
    requires EtagsAreOld(s) && Enabled(s, e)
    ensures EtagsAreOld(Step(s, e))
  {
    match e
    case Flush(reply, newId, stamp) =>
      if s.pc.Putting? {
        PutKeepsEtagsOld(s, reply, newId);
      } else if s.pc.Copying? || s.pc.CopyingLocked? {
        var target := ByPath(s.pc.meta.parent, ConflictName(s.pc.meta.name, stamp));
        var ok := if s.pc.Copying? then Putting(s.pc.id, s.pc.bytes, s.pc.meta, Conflict)
                  else RemovingLocked(s.pc.id, s.pc.bytes);
        UploadKeepsEtagsOld(s, target, s.pc.bytes, reply, newId, ok, Done(false));
      } else {
        SilentKeepsServer(s, reply, newId, stamp);
      }
    case RemoteWrite(id, parent, name, content) => StoreKeepsEtagsOld(s, id, ByPath(parent, name), content, Remote);
    case _ =>
  }

  /**
   A version of the file that the cached metadata does not name is overwritten by the
   upload exactly when the upload carries no If-Match header: after a detected conflict,
   a failed check, or without a cached eTag. Otherwise the server is left alone.
   */
  lemma UnseenVersionsAreOverwrittenExactlyWhenUnguarded(s: State, e: Event, id: Id)
    requires EtagsAreOld(s) && s.pc.Putting? && e.Flush? && e.reply.Answer?
    requires s.pc.why.Matched? ==> s.pc.meta.etag.Some?
    requires !(IsNew(s.pc.id) && s.pc.meta.parent == "")
    requires Resolve(s.server, PutTarget(s.pc)) == Some(id) && Some(s.server[id].etag) != s.pc.meta.etag
    ensures s.pc.why != Matched <==> Step(s, e).server != s.server
    ensures s.pc.why != Matched ==>
      Step(s, e).server == s.server[id := s.server[id].(etag := s.nextEtag, content := s.pc.bytes)]
    ensures s.pc.why == Matched ==> Step(s, e).pc == Done(false) && Step(s, e).entries == s.entries
  {
    var t := Step(s, e);
    if s.pc.why != Matched {
      assert PutAnswer(s, PutTarget(s.pc), None, e.newId) == Stored(id);
      assert t.server[id].etag == s.nextEtag;
    }
  }

  function CopyTarget(pc: Pc, stamp: string): Target
    requires pc.Copying? || pc.CopyingLocked?
  {
    ByPath(pc.meta.parent, ConflictName(pc.meta.name, stamp))
  }

  lemma CopyStores(s: State, e: Event)
    requires Enabled(s, e) && e.Flush? && e.reply.Answer?
    requires (s.pc.Copying? || s.pc.CopyingLocked?) && s.pc.meta.parent != ""
    ensures var t, r := Step(s, e), Resolve(s.server, CopyTarget(s.pc, e.stamp));
      && (r.Some? ==> t.server == s.server[r.value := s.server[r.value].(etag := s.nextEtag, content := s.pc.bytes)])
      && (r.None? ==> t.server == s.server[e.newId := ServerItem(s.pc.meta.parent,
                                                                 ConflictName(s.pc.meta.name, e.stamp),
                                                                 s.nextEtag, s.pc.bytes)])
  {
  }

  /**
   Conflict copies carry no If-Match header either: a copy leaves every version on the
   server alone exactly when the server has no file of its name yet, and replaces that file
   otherwise. Names differ by the second only.
   */
  lemma CopiesKeepVersionsExactlyWhenNamesAreNew(s: State, e: Event)
    requires EtagsAreOld(s) && Enabled(s, e) && e.Flush? && e.reply.Answer?
    requires (s.pc.Copying? || s.pc.CopyingLocked?) && s.pc.meta.parent != ""
    ensures var t, r := Step(s, e), Resolve(s.server, CopyTarget(s.pc, e.stamp));
      && ((forall id :: id in s.server ==> id in t.server && t.server[id] == s.server[id]) <==> r == None)
      && (r.Some? ==> t.server == s.server[r.value := s.server[r.value].(etag := s.nextEtag, content := s.pc.bytes)])
      && (r.None? ==> t.server == s.server[e.newId := ServerItem(s.pc.meta.parent,
                                                                 ConflictName(s.pc.meta.name, e.stamp),
                                                                 s.nextEtag, s.pc.bytes)])
  {
    CopyStores(s, e);
    var t, r := Step(s, e), Resolve(s.server, CopyTarget(s.pc, e.stamp));
    if r.Some? {
      assert t.server[r.value].etag == s.nextEtag && s.server[r.value].etag < s.nextEtag;
    }
  }

  /** So the second copy of a file within one second, after a conflict and a 423, replaces the first. */
  lemma SecondCopyReplacesTheFirst(s: State, e: Event, u: State, f: Event)
    requires EtagsAreOld(s) && Enabled(s, e) && e.Flush? && e.reply.Answer?
    requires s.pc.Copying? && s.pc.meta.parent != "" && Resolve(s.server, CopyTarget(s.pc, e.stamp)) == None
    requires EtagsAreOld(u) && Enabled(u, f) && f.Flush? && f.reply.Answer? && f.stamp == e.stamp
    requires u.pc.CopyingLocked? && u.pc.meta == s.pc.meta && u.server == Step(s, e).server
    ensures Step(s, e).server[e.newId].content == s.pc.bytes
    ensures Step(u, f).server == u.server[e.newId := u.server[e.newId].(etag := u.nextEtag, content := u.pc.bytes)]
  {
    CopiesKeepVersionsExactlyWhenNamesAreNew(s, e);
    assert e.newId in u.server && u.server[e.newId].name == ConflictName(u.pc.meta.name, f.stamp);
    var r := Resolve(u.server, CopyTarget(u.pc, f.stamp));
    assert forall id :: id in s.server && s.server[id].parent == s.pc.meta.parent ==>
        s.server[id].name != ConflictName(s.pc.meta.name, e.stamp);
    CopiesKeepVersionsExactlyWhenNamesAreNew(u, f);
  }

  // ----------------------------------------------- the undisturbed upload

  /** The flush runs on its own and every request is answered. */
  ghost function Quiet(s: State, newId: Id, stamp: string, n: nat): State
    decreases n
  {
    if n == 0 then s else Quiet(FlushStep(s, Answer, newId, stamp), newId, stamp, n - 1)
  }

  /** An undisturbed flush of an existing file the server agrees about uploads the entry and clears it. */
  lemma QuietFlushUploads(s: State, newId: Id, stamp: string, id: Id, r: Id)
    requires s.pc == Start && s.bound == Some(id) && id in s.entries && !IsNew(id)
    requires s.meta.Some? && !IsTransient(s.meta.value.name)
    requires id in s.server && s.meta.value.etag == Some(s.server[id].etag)
    requires Resolve(s.server, PutTarget(Putting(id, s.entries[id], s.meta.value, Matched))) == Some(r)
    ensures var t := Quiet(s, newId, stamp, 6);
      if Some(s.server[r].etag) == s.meta.value.etag then
        && t.pc == Done(true) && t.entries == s.entries - {id}
        && t.server == s.server[r := s.server[r].(etag := s.nextEtag, content := s.entries[id])]
        && t.meta == Some(Meta(s.server[r].name, s.server[r].parent, Some(s.nextEtag)))
      else Quiet(s, newId, stamp, 5).pc == Done(false) && Quiet(s, newId, stamp, 5).entries == s.entries
  {
    var bytes, meta := s.entries[id], s.meta.value;
    var s1 := FlushStep(s, Answer, newId, stamp);
    var s2 := FlushStep(s1, Answer, newId, stamp);
    var s3 := FlushStep(s2, Answer, newId, stamp);
    var s4 := FlushStep(s3, Answer, newId, stamp);
    assert s4 == s.(clean := true, pc := Putting(id, bytes, meta, Matched));
    var s5 := FlushStep(s4, Answer, newId, stamp);
    var s6 := FlushStep(s5, Answer, newId, stamp);
    assert Quiet(s, newId, stamp, 6) == s6 by { Unroll(s, newId, stamp, s1, s2, s3, s4, s5, s6); }
    assert Quiet(s, newId, stamp, 5) == s5 by { Unroll(s, newId, stamp, s1, s2, s3, s4, s5, s6); }
  }

  lemma Unroll(s: State, newId: Id, stamp: string, s1: State, s2: State, s3: State, s4: State, s5: State, s6: State)
    requires s1 == FlushStep(s, Answer, newId, stamp) && s2 == FlushStep(s1, Answer, newId, stamp)
    requires s3 == FlushStep(s2, Answer, newId, stamp) && s4 == FlushStep(s3, Answer, newId, stamp)
    requires s5 == FlushStep(s4, Answer, newId, stamp) && s6 == FlushStep(s5, Answer, newId, stamp)
    ensures Quiet(s, newId, stamp, 5) == s5 && Quiet(s, newId, stamp, 6) == s6
  {
    assert Quiet(s5, newId, stamp, 0) == s5 && Quiet(s5, newId, stamp, 1) == s6;
    assert Quiet(s4, newId, stamp, 1) == s5 && Quiet(s4, newId, stamp, 2) == s6;
    assert Quiet(s3, newId, stamp, 2) == s5 && Quiet(s3, newId, stamp, 3) == s6;
    assert Quiet(s2, newId, stamp, 3) == s5 && Quiet(s2, newId, stamp, 4) == s6;
    assert Quiet(s1, newId, stamp, 4) == s5 && Quiet(s1, newId, stamp, 5) == s6;
  }

  /** An undisturbed flush of a new file creates it, gives its inode the server's id and clears the entry. */
  lemma QuietFlushCreates(s: State, newId: Id, stamp: string, id: Id)
    requires s.pc == Start && s.bound == Some(id) && id in s.entries && IsNew(id) && newId !in s.server
    requires s.meta.Some? && !IsTransient(s.meta.value.name) && s.meta.value.parent != ""
    requires Resolve(s.server, ByPath(s.meta.value.parent, s.meta.value.name)) == None
    ensures var t, meta := Quiet(s, newId, stamp, 5), s.meta.value;
      && t.pc == Done(true) && t.entries == s.entries - {id} && t.bound == Some(newId)
      && t.server == s.server[newId := ServerItem(meta.parent, meta.name, s.nextEtag, s.entries[id])]
      && t.meta == Some(Meta(meta.name, meta.parent, Some(s.nextEtag)))
  {
    var bytes, meta := s.entries[id], s.meta.value;
    var s1 := FlushStep(s, Answer, newId, stamp);
    var s2 := FlushStep(s1, Answer, newId, stamp);
    var s3 := FlushStep(s2, Answer, newId, stamp);
    assert s3 == s.(clean := true, pc := Putting(id, bytes, meta, NewFile));
    var s4 := FlushStep(s3, Answer, newId, stamp);
    var s5 := FlushStep(s4, Answer, newId, stamp);
    Unroll(s, newId, stamp, s1, s2, s3, s4, s5, FlushStep(s5, Answer, newId, stamp));
  }

  /** Where content goes: to the path if it is new or under 4 MiB, else to the id. */
  function Addressed(id: Id, bytes: Bytes, meta: Meta): Target {
    if "local:" <= id || |bytes| < 4_194_304 then ByPath(meta.parent, meta.name) else ById(id)
  }

  /**
   A flush that ended in success: whatever version is where the content goes has been
   replaced by it, or a new file has been made there, and the entry is gone.
   */
  ghost predicate Uploaded(s: State, id: Id, bytes: Bytes, meta: Meta, newId: Id, t: State) {
    var r := Resolve(s.server, Addressed(id, bytes, meta));
    var x := if r.Some? then r.value else newId;
    var item := if r.Some? then s.server[x].(etag := s.nextEtag, content := bytes)
                else ServerItem(meta.parent, meta.name, s.nextEtag, bytes);
    && t.pc == Done(true) && t.entries == s.entries - {id}
    && t.server == s.server[x := item] && t.meta == Some(Meta(item.name, item.parent, Some(s.nextEtag)))
    && t.bound == if "local:" <= id then Some(x) else s.bound
  }

  /** A flush that ended in failure, with nothing changed. */
  predicate GivenUp(s: State, t: State) {
    t.pc == Done(false) && t.entries == s.entries && t.server == s.server && t.meta == s.meta && t.bound == s.bound
  }

  /** There is a file to replace, or a folder to make one in. */
  ghost predicate CanStore(s: State, id: Id, bytes: Bytes, meta: Meta) {
    && !("local:" <= id && meta.parent == "")
    && (Resolve(s.server, Addressed(id, bytes, meta)).Some?
        || (Addressed(id, bytes, meta).ByPath? && meta.parent != ""))
  }

  lemma QuietTwice(s: State, newId: Id, stamp: string)
    ensures Quiet(s, newId, stamp, 1) == FlushStep(s, Answer, newId, stamp)
    ensures Quiet(s, newId, stamp, 2) == FlushStep(FlushStep(s, Answer, newId, stamp), Answer, newId, stamp)
  {
    var u := FlushStep(s, Answer, newId, stamp);
    assert Quiet(u, newId, stamp, 0) == u;
    assert Quiet(u, newId, stamp, 1) == Quiet(FlushStep(u, Answer, newId, stamp), newId, stamp, 0);
  }

  lemma UnguardedPutAnswer(s: State, newId: Id)
    requires s.pc.Putting? && s.pc.why != Matched
    ensures var target := Addressed(s.pc.id, s.pc.bytes, s.pc.meta);
      var r := Resolve(s.server, target);
      PutTarget(s.pc) == target
      && PutAnswer(s, target, Guard(s.pc), newId)
         == if r.Some? then Stored(r.value)
            else if target.ByPath? && target.parent != "" then Stored(newId) else NotFound
  {
  }

  lemma GuardedPutAnswer(s: State, newId: Id)
    requires s.pc.Putting? && s.pc.why == Matched && s.pc.meta.etag.Some?
    ensures var target := Addressed(s.pc.id, s.pc.bytes, s.pc.meta);
      var r := Resolve(s.server, target);
      PutTarget(s.pc) == target
      && PutAnswer(s, target, Guard(s.pc), newId)
         == if r.Some? && Some(s.server[r.value].etag) == s.pc.meta.etag then Stored(r.value) else PreconditionFailed
  {
  }

  lemma StoredIsUploaded(s: State, newId: Id, stamp: string)
    requires s.pc.Putting? && !("local:" <= s.pc.id && s.pc.meta.parent == "")
    requires PutTarget(s.pc) == Addressed(s.pc.id, s.pc.bytes, s.pc.meta)
    requires var r := Resolve(s.server, PutTarget(s.pc));
      && PutAnswer(s, PutTarget(s.pc), Guard(s.pc), newId) == Stored(if r.Some? then r.value else newId)
      && (r.None? ==> newId !in s.server && PutTarget(s.pc).ByPath?)
    ensures Uploaded(s, s.pc.id, s.pc.bytes, s.pc.meta, newId, Quiet(s, newId, stamp, 2))
  {
    QuietTwice(s, newId, stamp);
  }

  lemma NotStoredIsGivenUp(s: State, newId: Id, stamp: string)
    requires s.pc.Putting?
    requires ("local:" <= s.pc.id && s.pc.meta.parent == "")
             || !PutAnswer(s, PutTarget(s.pc), Guard(s.pc), newId).Stored?
    ensures GivenUp(s, Quiet(s, newId, stamp, 1))
  {
    QuietTwice(s, newId, stamp);
  }

  /** Without If-Match the content is stored, whatever is there, or the flush fails for want of a place. */
  lemma UnguardedPutStores(s: State, newId: Id, stamp: string)
    requires s.pc.Putting? && s.pc.why != Matched && newId !in s.server
    ensures var pc := s.pc;
      if CanStore(s, pc.id, pc.bytes, pc.meta) then
        Uploaded(s, pc.id, pc.bytes, pc.meta, newId, Quiet(s, newId, stamp, 2))
      else GivenUp(s, Quiet(s, newId, stamp, 1))
  {
    UnguardedPutAnswer(s, newId);
    if CanStore(s, s.pc.id, s.pc.bytes, s.pc.meta) {
      StoredIsUploaded(s, newId, stamp);
    } else {
      NotStoredIsGivenUp(s, newId, stamp);
    }
  }

  /** With If-Match it is stored exactly over the version that was checked. */
  lemma GuardedPutStoresExactly(s: State, newId: Id, stamp: string)
    requires s.pc.Putting? && s.pc.why == Matched && s.pc.meta.etag.Some? && !("local:" <= s.pc.id)
    ensures var pc, r := s.pc, Resolve(s.server, Addressed(s.pc.id, s.pc.bytes, s.pc.meta));
      if r.Some? && Some(s.server[r.value].etag) == pc.meta.etag then
        Uploaded(s, pc.id, pc.bytes, pc.meta, newId, Quiet(s, newId, stamp, 2))
      else GivenUp(s, Quiet(s, newId, stamp, 1))
  {
    GuardedPutAnswer(s, newId);
    if PutAnswer(s, PutTarget(s.pc), Guard(s.pc), newId).Stored? {
      StoredIsUploaded(s, newId, stamp);
    } else {
      NotStoredIsGivenUp(s, newId, stamp);
    }
  }

  /**
   When the check gets no answer, or the server does not have the file, the flush goes on
   without If-Match: the carried bytes are stored and the entry is cleared.
   */
  lemma FailedChecksStillUpload(s: State, reply: Reply, newId: Id, stamp: string)
    requires s.pc.Checking? && newId !in s.server && (!reply.Answer? || s.pc.id !in s.server)
    ensures var t, pc := FlushStep(s, reply, newId, stamp), s.pc;
      if CanStore(s, pc.id, pc.bytes, pc.meta) then
        Uploaded(s, pc.id, pc.bytes, pc.meta, newId, Quiet(t, newId, stamp, 2))
      else GivenUp(s, Quiet(t, newId, stamp, 1))
  {
    UnguardedPutStores(FlushStep(s, reply, newId, stamp), newId, stamp);
  }

  /** The start of a flush: what it carries when it has read entry and metadata. */
  lemma QuietStart(s: State, newId: Id, stamp: string, id: Id)
    requires s.pc == Start && s.bound == Some(id) && id in s.entries && s.meta.Some?
    ensures Quiet(s, newId, stamp, 3) == s.(clean := true, pc := AfterMetadata(id, s.entries[id], s.meta.value))
  {
    var s1 := FlushStep(s, Answer, newId, stamp);
    var s2 := FlushStep(s1, Answer, newId, stamp);
    var s3 := FlushStep(s2, Answer, newId, stamp);
    assert Quiet(s3, newId, stamp, 0) == s3;
    assert Quiet(s2, newId, stamp, 1) == s3;
    assert Quiet(s1, newId, stamp, 2) == s3;
  }

  lemma {:induction false} QuietAdds(s: State, newId: Id, stamp: string, m: nat, n: nat)
    ensures Quiet(s, newId, stamp, m + n) == Quiet(Quiet(s, newId, stamp, m), newId, stamp, n)
    decreases m
  {
    if m > 0 {
      QuietAdds(FlushStep(s, Answer, newId, stamp), newId, stamp, m - 1, n);
    }
  }

  /** A new file, and a file whose version is not cached, are not checked at all: their content is stored at once. */
  lemma UncheckedFlushUploads(s: State, newId: Id, stamp: string, id: Id)
    requires s.pc == Start && s.bound == Some(id) && id in s.entries && newId !in s.server
    requires s.meta.Some? && !IsTransient(s.meta.value.name) && ("local:" <= id || s.meta.value.etag == None)
    ensures var bytes, meta := s.entries[id], s.meta.value;
      if CanStore(s, id, bytes, meta) then Uploaded(s, id, bytes, meta, newId, Quiet(s, newId, stamp, 5))
      else GivenUp(s, Quiet(s, newId, stamp, 4))
  {
    var t := Quiet(s, newId, stamp, 3);
    QuietStart(s, newId, stamp, id);
    UnguardedPutStores(t, newId, stamp);
    QuietAdds(s, newId, stamp, 3, 1);
    QuietAdds(s, newId, stamp, 3, 2);
  }

  /** Any other file is checked first, with what the entry held. */
  lemma OthersAreChecked(s: State, newId: Id, stamp: string, id: Id)
    requires s.pc == Start && s.bound == Some(id) && id in s.entries && s.meta.Some?
    requires !IsTransient(s.meta.value.name) && !("local:" <= id) && s.meta.value.etag.Some?
    ensures Quiet(s, newId, stamp, 3) == s.(clean := true, pc := Checking(id, s.entries[id], s.meta.value))
  {
    QuietStart(s, newId, stamp, id);
  }

  /**
   A checked file that has another version on the server: its bytes first become a conflict
   copy in the same folder, if that is known, and then the file all the same.
   */
  lemma ConflictsAreCopiedAndOverwritten(s: State, copyId: Id, newId: Id, stamp: string)
    requires s.pc.Checking? && s.pc.id in s.server && Some(s.server[s.pc.id].etag) != s.pc.meta.etag
    requires Resolve(s.server, ByPath(s.pc.meta.parent, ConflictName(s.pc.meta.name, stamp))) == None
    requires copyId !in s.server && newId !in s.server && newId != copyId
    ensures var pc, t := s.pc, FlushStep(s, Answer, newId, stamp);
      var u := if pc.meta.parent == "" then t else FlushStep(t, Answer, copyId, stamp);
      var copy := ServerItem(pc.meta.parent, ConflictName(pc.meta.name, stamp), s.nextEtag, pc.bytes);
      && u.server == (if pc.meta.parent == "" then s.server else s.server[copyId := copy])
      && u.entries == s.entries
      && if CanStore(u, pc.id, pc.bytes, pc.meta) then
           Uploaded(u, pc.id, pc.bytes, pc.meta, newId, Quiet(u, newId, stamp, 2))
         else GivenUp(u, Quiet(u, newId, stamp, 1))
  {
    var t := FlushStep(s, Answer, newId, stamp);
    var u := if s.pc.meta.parent == "" then t else FlushStep(t, Answer, copyId, stamp);
    assert u.pc == Putting(s.pc.id, s.pc.bytes, s.pc.meta, Conflict);
    UnguardedPutStores(u, newId, stamp);
  }

  /** A request of the upload that fails ends the flush in failure and keeps the entry. */
  lemma FailedRequestsKeepTheEntry(s: State, reply: Reply, newId: Id, stamp: string)
    requires s.pc.Copying? || s.pc.CopyingLocked? || s.pc.Putting?
    requires reply.Lost? || (reply.Locked? && (!s.pc.Putting? || s.pc.meta.parent == ""))
    ensures var t := FlushStep(s, reply, newId, stamp);
      && t.pc == Done(false) && t.entries == s.entries && t.bound == s.bound && t.meta == s.meta
      && (t.server == s.server || (reply.Lost? && reply.applied))
  {
  }

  /** An inode without an item or an entry needs no flush; one without metadata fails; a transient file is dropped. */
  lemma FlushesWithoutUpload(s: State, newId: Id, stamp: string)
    requires s.pc == Start
    ensures s.bound.None? ==> Quiet(s, newId, stamp, 1) == s.(pc := Done(true))
    ensures s.bound.Some? && s.bound.value !in s.entries ==> Quiet(s, newId, stamp, 2) == s.(pc := Done(true))
    ensures s.bound.Some? && s.bound.value in s.entries && s.meta.None? ==> GivenUp(s, Quiet(s, newId, stamp, 3))
    ensures s.bound.Some? && s.bound.value in s.entries && s.meta.Some? && IsTransient(s.meta.value.name) ==>
      var t := Quiet(s, newId, stamp, 4);
      && t.pc == Done(true) && t.entries == s.entries - {s.bound.value} && t.bound == None
      && t.server == s.server && t.history == s.history
  {
    var s1 := FlushStep(s, Answer, newId, stamp);
    var s2 := FlushStep(s1, Answer, newId, stamp);
    var s3 := FlushStep(s2, Answer, newId, stamp);
    var s4 := FlushStep(s3, Answer, newId, stamp);
    assert Quiet(s4, newId, stamp, 0) == s4;
    assert Quiet(s3, newId, stamp, 0) == s3 && Quiet(s3, newId, stamp, 1) == s4;
    assert Quiet(s2, newId, stamp, 0) == s2 && Quiet(s2, newId, stamp, 1) == s3 && Quiet(s2, newId, stamp, 2) == s4;
    assert Quiet(s1, newId, stamp, 0) == s1 && Quiet(s1, newId, stamp, 1) == s2 && Quiet(s1, newId, stamp, 2) == s3;
    assert Quiet(s1, newId, stamp, 3) == s4;
  }

  /**
   When the file is locked on the server, the entry as it is then becomes a conflict copy
   beside the file, which is left alone, and the entry is cleared. Without an entry the flush
   fails.
   */
  lemma LockedFlushSavesACopy(s: State, newId: Id, stamp: string)
    requires s.pc.Putting? && s.pc.meta.parent != "" && newId !in s.server
    requires Resolve(s.server, ByPath(s.pc.meta.parent, ConflictName(s.pc.meta.name, stamp))) == None
    ensures s.pc.id !in s.entries ==>
      Quiet(FlushStep(s, Locked, newId, stamp), newId, stamp, 1) == s.(pc := Done(false))
    ensures s.pc.id in s.entries ==>
      var t, meta := Quiet(FlushStep(s, Locked, newId, stamp), newId, stamp, 3), s.pc.meta;
      && t.pc == Done(true) && t.entries == s.entries - {s.pc.id}
      && t.server == s.server[newId := ServerItem(meta.parent, ConflictName(meta.name, stamp),
                                                  s.nextEtag, s.entries[s.pc.id])]
  {
    var id, meta := s.pc.id, s.pc.meta;
    var s1 := FlushStep(s, Locked, newId, stamp);
    assert s1 == s.(pc := Rereading(id, meta));
    var s2 := FlushStep(s1, Answer, newId, stamp);
    assert Quiet(s2, newId, stamp, 0) == s2;
    assert Quiet(s1, newId, stamp, 1) == s2;
    var s3 := FlushStep(s2, Answer, newId, stamp);
    var s4 := FlushStep(s3, Answer, newId, stamp);
    assert Quiet(s4, newId, stamp, 0) == s4;
    assert Quiet(s3, newId, stamp, 1) == s4;
    assert Quiet(s2, newId, stamp, 2) == s4;
  }

  // -------------------------------------------------------- what can be lost

  lemma FourSteps(s: State, es: seq<Event>, s1: State, s2: State, s3: State, s4: State)
    requires |es| == 4 && Enabled(s, es[0]) && Enabled(s1, es[1]) && Enabled(s2, es[2]) && Enabled(s3, es[3])
    requires s1 == Step(s, es[0]) && s2 == Step(s1, es[1]) && s3 == Step(s2, es[2]) && s4 == Step(s3, es[3])
    ensures IsRun(s, es, s4)
  {
    assert IsRun(s4, es[4..], s4);
    assert es[3..][1..] == es[4..] && IsRun(s3, es[3..], s4);
    assert es[2..][1..] == es[3..] && IsRun(s2, es[2..], s4);
    assert es[1..][1..] == es[2..] && IsRun(s1, es[1..], s4);
  }

  lemma {:induction false} RunsCompose(s: State, es: seq<Event>, t: State, fs: seq<Event>, u: State)
    requires IsRun(s, es, t) && IsRun(t, fs, u)
    ensures IsRun(s, es + fs, u)
    decreases |es|
  {
    if es == [] {
      assert es + fs == fs;
    } else {
      assert (es + fs)[1..] == es[1..] + fs;
      RunsCompose(Step(s, es[0]), es[1..], t, fs, u);
    }
  }

  const QUIET := Flush(Answer, "n", "1")

  const CACHED := Meta("f", "P", Some(1))

  /** The client edited file A, which the server still has in the version the client knows. */
  const EDITED := State(map["A" := ServerItem("P", "f", 1, [1])], 2, [],
                        map["A" := [2]], map["A" := [2]], Some("A"), Some(CACHED), Start, true, 0)

  /** And has edited it once more since the flush read the entry. */
  const EDITED_AGAIN := EDITED.(entries := map["A" := [3]], files := map["A" := [3]], clean := false)

  /** Two flush steps read the entry, the user writes, and five more steps finish the upload. */
  const WRITE_DURING_FLUSH := [QUIET, QUIET, LocalWrite([3], true), QUIET] + [QUIET, QUIET, QUIET, QUIET]

  /**
   A write that lands between the flush's read and its removal is lost: the entry is
   gone and the server has only ever seen the older bytes.
   */
  lemma WriteDuringFlushIsLost() returns (t: State)
    ensures Initial(EDITED) && IsRun(EDITED, WRITE_DURING_FLUSH, t)
    ensures t.pc == Start && t.entries == map[]
    ensures forall i :: 0 <= i < |t.history| ==> t.history[i].content == [2]
    ensures forall id :: id in t.server ==> t.server[id].content != [3]
  {
    var s1, s2, s3, s4 := ReadThenWrite();
    var s5, s6, s7, s8 := UploadOf(s4);
    FourSteps(EDITED, [QUIET, QUIET, LocalWrite([3], true), QUIET], s1, s2, s3, s4);
    FourSteps(s4, [QUIET, QUIET, QUIET, QUIET], s5, s6, s7, s8);
    RunsCompose(EDITED, [QUIET, QUIET, LocalWrite([3], true), QUIET], s4, [QUIET, QUIET, QUIET, QUIET], s8);
    t := s8;
  }

  lemma ReadThenWrite() returns (s1: State, s2: State, s3: State, s4: State)
    ensures s1 == Step(EDITED, QUIET) && s2 == Step(s1, QUIET) && s3 == Step(s2, LocalWrite([3], true))
      && s4 == Step(s3, QUIET)
    ensures s4 == EDITED_AGAIN.(pc := Checking("A", [2], CACHED))
    ensures Enabled(EDITED, QUIET) && Enabled(s1, QUIET) && Enabled(s3, QUIET)
    ensures s1.pc.HaveId? && s2.pc.HaveBytes?
  {
    s1 := Step(EDITED, QUIET);
    s2 := Step(s1, QUIET);
    assert s2 == EDITED.(pc := HaveBytes("A", [2]));
    s3 := Step(s2, LocalWrite([3], true));
    assert s3 == EDITED_AGAIN.(pc := HaveBytes("A", [2]));
    s4 := Step(s3, QUIET);
    NotTransient();
  }

  lemma NotTransient()
    ensures !IsTransient("f") && !IsNew("A")
  {
    assert Lower("f") == "f";
  }

  lemma UploadOf(s: State) returns (s5: State, s6: State, s7: State, s8: State)
    requires s == EDITED_AGAIN.(pc := Checking("A", [2], CACHED))
    ensures s5 == Step(s, QUIET) && s6 == Step(s5, QUIET) && s7 == Step(s6, QUIET) && s8 == Step(s7, QUIET)
    ensures Enabled(s, QUIET) && Enabled(s5, QUIET) && Enabled(s6, QUIET) && Enabled(s7, QUIET)
    ensures s5.pc.Putting? && s6.pc.Removing? && s7.pc == Done(true) && s7.entries == map[]
    ensures s7.server == s8.server && s7.history == s8.history && s8.pc == Start && s8.entries == map[]
    ensures s8.server == map["A" := ServerItem("P", "f", 2, [2])]
    ensures |s8.history| == 1 && s8.history[0].content == [2]
  {
    s5, s6 := CheckAndPut(s);
    s7 := Step(s6, QUIET);
    s8 := Step(s7, QUIET);
  }

  lemma CheckAndPut(s: State) returns (t: State, u: State)
    requires s == EDITED_AGAIN.(pc := Checking("A", [2], CACHED))
    ensures t == Step(s, QUIET) && u == Step(t, QUIET) && Enabled(s, QUIET) && Enabled(t, QUIET)
    ensures t.pc.Putting? && u.pc == Removing("A", [2]) && u.entries == map["A" := [3]]
    ensures u.server == map["A" := ServerItem("P", "f", 2, [2])]
    ensures |u.history| == 1 && u.history[0].content == [2]
  {
    assert "A" in s.server && s.server["A"].parent == "P" && s.server["A"].name == "f";
    assert Resolve(s.server, ByPath("P", "f")) == Some("A");
    NotTransient();
    t := Step(s, QUIET);
    assert t == s.(pc := Putting("A", [2], CACHED, Matched));
    u := Step(t, QUIET);
  }

  /** The other client saved version 2 of file A while this client edited version 1. */
  const BOTH_EDITED := EDITED.(server := map["A" := ServerItem("P", "f", 2, [9])], nextEtag := 3,
                               pc := Checking("A", [2], CACHED))

  const QUIET2 := Flush(Answer, "m", "1")

  /**
   The conflict copy holds this client's bytes and so does the file afterwards: the
   other client's version is on the server no more, although the upload succeeded.
   */
  lemma ConflictDropsTheRemoteVersion() returns (t: State)
    ensures IsRun(BOTH_EDITED, [QUIET, QUIET, QUIET2, QUIET2], t) && t.pc == Done(true) && t.entries == map[]
    ensures t.server == map["A" := ServerItem("P", "f", 4, [2]), "n" := ServerItem("P", "f.conflict.1", 3, [2])]
    ensures forall id :: id in t.server ==> t.server[id].content != [9]
  {
    NotTransient();
    var s1 := Step(BOTH_EDITED, QUIET);
    var s2 := CopyOf(s1);
    var s3, s4 := OverwriteOf(s2);
    FourSteps(BOTH_EDITED, [QUIET, QUIET, QUIET2, QUIET2], s1, s2, s3, s4);
    t := s4;
  }

  lemma CopyOf(s: State) returns (t: State)
    requires s == BOTH_EDITED.(pc := Copying("A", [2], CACHED))
    ensures t == Step(s, QUIET) && Enabled(s, QUIET)
    ensures t == s.(server := map["A" := ServerItem("P", "f", 2, [9]), "n" := ServerItem("P", "f.conflict.1", 3, [2])],
                    nextEtag := 4, history := [Write("n", [2], None, Copy)], pc := Putting("A", [2], CACHED, Conflict))
  {
    assert LastIndexOf("f", '.') == 1;
    assert ConflictName("f", "1") == "f.conflict.1";
    assert "f.conflict.1" != "f" by { assert |"f.conflict.1"| != |"f"|; }
    assert Resolve(s.server, ByPath("P", "f.conflict.1")) == None;
    t := Step(s, QUIET);
  }

  lemma OverwriteOf(s: State) returns (t: State, u: State)
    requires s == BOTH_EDITED.(
      server := map["A" := ServerItem("P", "f", 2, [9]), "n" := ServerItem("P", "f.conflict.1", 3, [2])],
      nextEtag := 4, history := [Write("n", [2], None, Copy)], pc := Putting("A", [2], CACHED, Conflict))
    ensures t == Step(s, QUIET2) && u == Step(t, QUIET2) && Enabled(s, QUIET2) && Enabled(t, QUIET2)
    ensures u.pc == Done(true) && u.entries == map[]
    ensures u.server == map["A" := ServerItem("P", "f", 4, [2]), "n" := ServerItem("P", "f.conflict.1", 3, [2])]
  {
    assert "f.conflict.1" != "f" by { assert |"f.conflict.1"| != |"f"|; }
    assert "A" in s.server && s.server["A"].parent == "P" && s.server["A"].name == "f";
    assert Resolve(s.server, ByPath("P", "f")) == Some("A");
    t := Step(s, QUIET2);
    u := Step(t, QUIET2);
  }
}
