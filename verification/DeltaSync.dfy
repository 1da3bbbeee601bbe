/**
 Delta sync as a thread of many steps, interleaved with lookups, listings and local
 deletes that other threads make on the same tables.

 The sync collects a whole response before it applies it in one transaction, so an item
 may be deleted locally after the sync has looked at it. A local delete forgets the
 inode first and deletes the row in a later step. The ghost field `owner` remembers
 every inode handed out since the process started.
 */
module DeltaSync {
  import opened Wrappers
  import opened ItemRows
  import IT = InodeTable
  import SS = SqliteStore

  const TOMBSTONE_SECS: nat := 300

  /** What is left of a response, and what has been collected from it. */
  datatype Batch = Batch(driveId: string, rest: seq<DriveItem>, upserts: seq<SS.Upsert>, deletes: seq<string>,
                         link: string)

  datatype Pc = Idle | Waiting(driveId: string) | Collecting(batch: Batch) | Allocating(item: DriveItem, batch: Batch)

  datatype State = State(db: SS.Db, table: IT.Table, owner: map<Ino, string>, deleting: set<string>, pc: Pc)

  datatype Event =
    | Begin(driveId: string, now: int)
    | Respond(entries: seq<DriveItem>, link: string)
    | Fail
    | Collect
    | Assign
    | Apply
    | Lookup(id: string)
    | Store(inode: Ino, driveId: string, item: DriveItem, parent: Option<Ino>)
    | DeleteBegin(id: string)
    | DeleteEnd(driveId: string, id: string, now: int)
    | Forget(id: string)
    | Clear
    | SetRoot(id: string)
    | Reassign(inode: Ino, id: string)
    | Restart(pairs: seq<(Ino, string)>)

  // ----------------------------------------------------------------- steps

  function Allocate(s: State, id: string): State {
    s.(table := IT.OnAllocate(s.table, id), owner := s.owner[IT.Allocated(s.table, id) := id])
  }

  function AllocateMaybe(s: State, id: Option<string>): State {
    if id.Some? then Allocate(s, id.value) else s
  }

  /** The parent that the stored version of an item refers to. */
  function OldParent(items: Items, id: string): Option<string>
    requires UniqueIds(items)
  {
    var i := InodeOf(items, id);
    if i.Some? then items[i.value].item.parentId else None
  }

  /**
   Take one entry of the response: note a deletion, which comes without a name, skip a
   tombstoned item, or go on to assign an inode.
   */
  function CollectStep(s: State): State
    requires s.pc.Collecting? && s.pc.batch.rest != [] && UniqueIds(s.db.items)
  {
    var item, batch := s.pc.batch.rest[0], s.pc.batch.(rest := s.pc.batch.rest[1..]);
    if item.name == "" then
      Allocate(AllocateMaybe(s, OldParent(s.db.items, item.id)), item.id)
      .(pc := Collecting(batch.(deletes := batch.deletes + [item.id])))
    else if item.id in s.db.tombstones then s.(pc := Collecting(batch))
    else s.(pc := Allocating(item, batch))
  }

  function AssignStep(s: State): State
    requires s.pc.Allocating?
  {
    var item, batch := s.pc.item, s.pc.batch;
    var ino := IT.Allocated(s.table, item.id);
    var t := Allocate(s, item.id);
    var parent := if item.parentId.Some? then Some(IT.Allocated(t.table, item.parentId.value)) else None;
    var upserts := batch.upserts + [SS.Upsert(ino, item, parent)];
    AllocateMaybe(t, item.parentId).(pc := Collecting(batch.(upserts := upserts)))
  }

  /** The transaction an event runs on the tables, if any. Without a new token nothing is applied. */
  function DbEvent(s: State, e: Event): Option<SS.Event> {
    match e
    case Begin(driveId, now) => Some(SS.Purged(TOMBSTONE_SECS, now))
    case Apply =>
      if s.pc.Collecting? && s.pc.batch.link != "" then
        Some(SS.Applied(s.pc.batch.driveId, s.pc.batch.upserts, s.pc.batch.deletes, s.pc.batch.link))
      else None
    case Store(inode, driveId, item, parent) => Some(SS.Upserted(driveId, SS.Upsert(inode, item, parent)))
    case DeleteEnd(driveId, id, now) => Some(SS.DeletedLocally(driveId, id, now))
    case Forget(id) => Some(SS.Forgotten(id))
    case Clear => Some(SS.Cleared)
    case _ => None
  }

  /** `pairs` lists the stored items, as SQLite returns them, in any order. */
  ghost predicate Stored(db: SS.Db, pairs: seq<(Ino, string)>) {
    && IT.OneToOne(pairs)
    && (forall i :: 0 <= i < |pairs| ==> pairs[i].0 in db.items && db.items[pairs[i].0].item.id == pairs[i].1)
    && (forall ino :: ino in db.items ==> ino in IT.Inodes(pairs))
  }

  ghost function MaxInode(db: SS.Db): Ino {
    if db.items == map[] then 0 else Largest(db.items.Keys)
  }

  ghost function Largest(inos: set<Ino>): (m: Ino)
    requires inos != {}
    ensures m in inos && forall i :: i in inos ==> i <= m
  {
    var i :| i in inos;
    if inos == {i} then
      assert forall j :: j in inos ==> j == i;
      i
    else
      assert forall j :: j in inos ==> j == i || j in inos - {i};
      Max(i, Largest(inos - {i}))
  }

  ghost predicate Enabled(s: State, e: Event) {
    match e
    case Begin(_, _) => s.pc.Idle?
    case Respond(_, _) => s.pc.Waiting?
    case Fail => s.pc.Waiting?
    case Collect => s.pc.Collecting? && s.pc.batch.rest != []
    case Assign => s.pc.Allocating?
    case Apply => s.pc.Collecting? && s.pc.batch.rest == []
    case Store(inode, _, item, _) => inode in s.owner && s.owner[inode] == item.id
    case DeleteEnd(_, id, _) => id in s.deleting
    case SetRoot(id) =>
      Reassignable(s, IT.ROOT_INODE, id)
      && (IT.ROOT_INODE in s.table.inodeToItem ==> s.table.inodeToItem[IT.ROOT_INODE] == id)
    case Reassign(inode, id) => inode in s.table.inodeToItem && Reassignable(s, inode, id)
    case Restart(pairs) => Stored(s.db, pairs)
    case _ => true
  }

  function Held(pc: Pc): seq<SS.Upsert> {
    if pc.Collecting? || pc.Allocating? then pc.batch.upserts else []
  }

  /**
   The id is not bound to another inode, and neither a row nor a collected item has the
   inode under another id: true of a file created locally that only this client knows.
   */
  predicate Reassignable(s: State, inode: Ino, id: string) {
    && (id in s.table.itemToInode ==> s.table.itemToInode[id] == inode)
    && (inode in s.db.items ==> s.db.items[inode].item.id == id)
    && (forall i :: 0 <= i < |Held(s.pc)| && Held(s.pc)[i].inode == inode ==> Held(s.pc)[i].item.id == id)
  }

  function ReassignStep(s: State, inode: Ino, id: string): State {
    s.(table := IT.OnReassign(s.table, inode, id), owner := s.owner[inode := id])
  }

  function RootStep(s: State, id: string): State {
    s.(table := IT.OnSetRoot(s.table, id), owner := s.owner[IT.ROOT_INODE := id])
  }

  ghost function Threads(s: State, e: Event): State
    requires Enabled(s, e) && UniqueIds(s.db.items)
  {
    match e
    case Begin(driveId, _) => s.(pc := Waiting(driveId))
    case Respond(entries, link) => s.(pc := Collecting(Batch(s.pc.driveId, entries, [], [], link)))
    case Fail => s.(pc := Idle)
    case Collect => CollectStep(s)
    case Assign => AssignStep(s)
    case Apply => s.(pc := Idle)
    case Lookup(id) => Allocate(s, id)
    case DeleteBegin(id) => s.(table := IT.OnRemove(s.table, id), deleting := s.deleting + {id})
    case DeleteEnd(_, id, _) => s.(deleting := s.deleting - {id})
    case SetRoot(id) => RootStep(s, id)
    case Reassign(inode, id) => ReassignStep(s, inode, id)
    case Restart(pairs) => Restarted(s.db, pairs)
    case _ => s
  }

  /** A new process: the counter above the largest stored inode, the table seeded with the stored pairs. */
  ghost function Restarted(db: SS.Db, pairs: seq<(Ino, string)>): State {
    State(db, IT.SeedAll(IT.StartingAfter(MaxInode(db)), pairs),
          map ino | ino in db.items :: db.items[ino].item.id, {}, Idle)
  }

  ghost function Step(s: State, e: Event): (t: State)
    requires SS.Sound(s.db) && Enabled(s, e)
    ensures t.db == (if DbEvent(s, e).Some? then SS.After(s.db, DbEvent(s, e).value) else s.db)
  {
    Threads(s, e).(db := if DbEvent(s, e).Some? then SS.After(s.db, DbEvent(s, e).value) else s.db)
  }

  ghost predicate IsRun(s: State, es: seq<Event>, t: State)
    decreases |es|
  {
    SS.Sound(s.db) && if es == [] then s == t else Enabled(s, es[0]) && IsRun(Step(s, es[0]), es[1..], t)
  }

  lemma StepKeepsSound(s: State, e: Event)
    requires SS.Sound(s.db) && Enabled(s, e)
    ensures SS.Sound(Step(s, e).db)
  {
    if DbEvent(s, e).Some? {
      SS.StepKeepsDisjoint(s.db, DbEvent(s, e).value);
    }
  }

  // ----------------------------------------- deleted items do not come back

  predicate EndsTombstone(s: State, e: Event, id: string)
    requires UniqueIds(s.db.items)
  {
    DbEvent(s, e).Some? && SS.Ends(s.db, DbEvent(s, e).value, id)
  }

  ghost predicate EndsInRun(s: State, es: seq<Event>, id: string)
    decreases |es|
  {
    && es != [] && SS.Sound(s.db) && Enabled(s, es[0])
    && (EndsTombstone(s, es[0], id) || EndsInRun(Step(s, es[0]), es[1..], id))
  }

  /**
   Once an item is deleted locally, no interleaving of syncs, listings and other deletes
   brings its row back, even if the sync had collected the item before the delete, until
   the tombstone ends.
   */
  lemma {:induction false} DeletedItemsStayDeleted(s: State, es: seq<Event>, t: State, id: string)
    requires IsRun(s, es, t) && id in s.db.tombstones && !EndsInRun(s, es, id)
    ensures SS.Sound(t.db) && id in t.db.tombstones && InodeOf(t.db.items, id) == None
    decreases |es|
  {
    if es != [] {
      if DbEvent(s, es[0]).Some? {
        SS.TombstonesEndExactly(s.db, DbEvent(s, es[0]).value, id);
      }
      DeletedItemsStayDeleted(Step(s, es[0]), es[1..], t, id);
    }
  }

  // --------------------------------------------------- no inode ever clashes

  ghost predicate OwnedUpserts(owner: map<Ino, string>, us: seq<SS.Upsert>) {
    forall i :: 0 <= i < |us| ==> us[i].inode in owner && owner[us[i].inode] == us[i].item.id
  }

  ghost predicate OwnedRows(owner: map<Ino, string>, items: Items) {
    forall ino :: ino in items ==> ino in owner && owner[ino] == items[ino].item.id
  }

  ghost predicate OwnedTable(s: State) {
    && IT.Inverse(s.table) && IT.Ahead(s.table)
    && (forall ino :: ino in s.owner ==> ino < s.table.next)
    && (forall ino :: ino in s.table.inodeToItem ==> ino in s.owner && s.owner[ino] == s.table.inodeToItem[ino])
  }

  /** Every stored or collected pair of inode and id was handed out as such a pair. */
  ghost predicate Owned(s: State) {
    OwnedTable(s) && OwnedRows(s.owner, s.db.items) && OwnedUpserts(s.owner, Held(s.pc))
  }

  ghost predicate Extends(owner: map<Ino, string>, more: map<Ino, string>) {
    forall ino :: ino in owner ==> ino in more && more[ino] == owner[ino]
  }

  lemma AllocateKeepsOwned(s: State, id: string)
    requires OwnedTable(s)
    ensures OwnedTable(Allocate(s, id)) && Extends(s.owner, Allocate(s, id).owner)
    ensures Allocate(s, id).owner[IT.Allocated(s.table, id)] == id
    ensures Allocate(s, id).table.itemToInode[id] == IT.Allocated(s.table, id)
  {
    IT.AllocateKeeps(s.table, id);
    if id in s.table.itemToInode {
      assert s.table.inodeToItem[s.table.itemToInode[id]] == id;
    }
  }

  lemma {:induction false} NewInodesAreOwned(items: Items, tombstones: map<string, SS.Tombstone>, us: seq<SS.Upsert>,
                                             owner: map<Ino, string>, ino: Ino)
    requires UniqueIds(items) && OwnedUpserts(owner, us) && ino in SS.NewInodes(items, tombstones, us)
    ensures ino in owner && SS.FirstFor(us, owner[ino]).Some?
    decreases |us|
  {
    var n := |us| - 1;
    assert OwnedUpserts(owner, us[..n]);
    if ino in SS.NewInodes(items, tombstones, us[..n]) {
      NewInodesAreOwned(items, tombstones, us[..n], owner, ino);
    }
  }

  lemma {:induction false} OwnedIsClashFree(items: Items, tombstones: map<string, SS.Tombstone>, us: seq<SS.Upsert>,
                                            owner: map<Ino, string>)
    requires UniqueIds(items) && OwnedRows(owner, items) && OwnedUpserts(owner, us)
    ensures SS.ClashFree(items, tombstones, us)
    decreases |us|
  {
    if us != [] {
      var n := |us| - 1;
      assert OwnedUpserts(owner, us[..n]);
      OwnedIsClashFree(items, tombstones, us[..n], owner);
      if SS.Inserts(items, tombstones, us, n) && us[n].inode in SS.NewInodes(items, tombstones, us[..n]) {
        NewInodesAreOwned(items, tombstones, us[..n], owner, us[n].inode);
      }
    }
  }

  lemma UpsertsKeepOwnedRows(items: Items, tombstones: map<string, SS.Tombstone>, driveId: string, us: seq<SS.Upsert>,
                             owner: map<Ino, string>)
    requires UniqueIds(items) && OwnedRows(owner, items) && OwnedUpserts(owner, us)
    requires SS.UpsertAll(items, tombstones, driveId, us).Ok?
    ensures OwnedRows(owner, SS.UpsertAll(items, tombstones, driveId, us).value)
    decreases |us|
  {
    if us != [] {
      var n := |us| - 1;
      assert OwnedUpserts(owner, us[..n]);
      UpsertsKeepOwnedRows(items, tombstones, driveId, us[..n], owner);
    }
  }

  lemma DbKeepsOwnedRows(s: State, e: Event)
    requires SS.Sound(s.db) && Enabled(s, e) && Owned(s)
    ensures OwnedRows(s.owner, Step(s, e).db.items)
  {
    if e.Apply? && s.pc.batch.link != "" {
      OwnedIsClashFree(s.db.items, s.db.tombstones, s.pc.batch.upserts, s.owner);
      SS.CommitsExactlyWhenClashFree(s.db.items, s.db.tombstones, s.pc.batch.driveId, s.pc.batch.upserts);
      UpsertsKeepOwnedRows(s.db.items, s.db.tombstones, s.pc.batch.driveId, s.pc.batch.upserts, s.owner);
    }
  }

  lemma AllocateMaybeKeepsOwned(s: State, id: Option<string>)
    requires OwnedTable(s)
    ensures OwnedTable(AllocateMaybe(s, id)) && Extends(s.owner, AllocateMaybe(s, id).owner)
  {
    if id.Some? {
      AllocateKeepsOwned(s, id.value);
    }
  }

  lemma OwnedExtends(owner: map<Ino, string>, more: map<Ino, string>, items: Items, us: seq<SS.Upsert>)
    requires Extends(owner, more) && OwnedRows(owner, items) && OwnedUpserts(owner, us)
    ensures OwnedRows(more, items) && OwnedUpserts(more, us)
  {
  }

  lemma AllocateBothKeepsOwned(s: State, parent: Option<string>, id: string)
    requires Owned(s)
    ensures var t := Allocate(AllocateMaybe(s, parent), id); Owned(t) && Extends(s.owner, t.owner)
  {
    var t := AllocateMaybe(s, parent);
    AllocateMaybeKeepsOwned(s, parent);
    AllocateKeepsOwned(t, id);
    OwnedExtends(s.owner, t.owner, s.db.items, Held(s.pc));
    OwnedExtends(t.owner, Allocate(t, id).owner, s.db.items, Held(s.pc));
  }

  lemma SameHeldKeepsOwned(s: State, pc: Pc)
    requires Owned(s) && Held(pc) == Held(s.pc)
    ensures Owned(s.(pc := pc))
  {
  }

  lemma CollectKeepsOwned(s: State)
    requires Owned(s) && s.pc.Collecting? && s.pc.batch.rest != [] && UniqueIds(s.db.items)
    ensures Owned(CollectStep(s)) && Extends(s.owner, CollectStep(s).owner)
  {
    var item, pc := s.pc.batch.rest[0], CollectStep(s).pc;
    if item.name == "" {
      AllocateBothKeepsOwned(s, OldParent(s.db.items, item.id), item.id);
      SameHeldKeepsOwned(Allocate(AllocateMaybe(s, OldParent(s.db.items, item.id)), item.id), pc);
    } else {
      SameHeldKeepsOwned(s, pc);
    }
  }

  lemma AssignKeepsOwned(s: State)
    requires Owned(s) && s.pc.Allocating?
    ensures Owned(AssignStep(s)) && Extends(s.owner, AssignStep(s).owner)
  {
    var t := Allocate(s, s.pc.item.id);
    AllocateKeepsOwned(s, s.pc.item.id);
    AllocateMaybeKeepsOwned(t, s.pc.item.parentId);
    var u := AllocateMaybe(t, s.pc.item.parentId);
    OwnedExtends(s.owner, t.owner, s.db.items, Held(s.pc));
    OwnedExtends(t.owner, u.owner, s.db.items, Held(s.pc));
  }

  lemma RestartIsOwned(db: SS.Db, pairs: seq<(Ino, string)>)
    requires SS.Sound(db) && Stored(db, pairs)
    ensures Owned(Restarted(db, pairs))
  {
    var t := IT.StartingAfter(MaxInode(db));
    IT.SeedBinds(t, pairs);
    var u := IT.SeedAll(t, pairs);
    forall ino | ino in u.inodeToItem
      ensures ino in db.items && u.inodeToItem[ino] == db.items[ino].item.id
    {
      var i :| 0 <= i < |pairs| && pairs[i].0 == ino;
      assert IT.BoundTo(u, pairs[i].0, pairs[i].1);
    }
    forall ino | ino in db.items ensures ino <= MaxInode(db) {
      assert ino in db.items.Keys;
    }
  }

  /** Reassigning an inode keeps every pair owned exactly when the inode is reassignable. */
  lemma ReassignKeepsOwnedExactly(s: State, inode: Ino, id: string)
    requires Owned(s) && inode < s.table.next
    ensures Owned(ReassignStep(s, inode, id)) <==> Reassignable(s, inode, id)
  {
    IT.ReassignKeepsInverseExactly(s.table, inode, id);
    var t := ReassignStep(s, inode, id);
    assert Held(t.pc) == Held(s.pc) && t.owner[inode] == id;
  }

  /** Setting a root that is unbound, or bound already, is a reassignment. */
  lemma RootIsReassigned(s: State, id: string)
    requires Enabled(s, SetRoot(id))
    ensures RootStep(s, id) == ReassignStep(s, IT.ROOT_INODE, id)
  {
    assert IT.OnSetRoot(s.table, id).itemToInode == IT.OnReassign(s.table, IT.ROOT_INODE, id).itemToInode;
  }

  lemma ThreadsKeepOwned(s: State, e: Event)
    requires SS.Sound(s.db) && Enabled(s, e) && Owned(s)
    ensures Owned(Threads(s, e))
    ensures !e.Restart? && !e.Reassign? && !e.SetRoot? ==> Extends(s.owner, Threads(s, e).owner)
  {
    match e
    case Collect => CollectKeepsOwned(s);
    case Assign => AssignKeepsOwned(s);
    case Lookup(id) =>
      AllocateKeepsOwned(s, id);
      OwnedExtends(s.owner, Allocate(s, id).owner, s.db.items, Held(s.pc));
    case DeleteBegin(id) => IT.RemoveKeeps(s.table, id);
    case SetRoot(id) =>
      RootIsReassigned(s, id);
      ReassignKeepsOwnedExactly(s, IT.ROOT_INODE, id);
    case Reassign(inode, id) => ReassignKeepsOwnedExactly(s, inode, id);
    case Restart(pairs) => RestartIsOwned(s.db, pairs);
    case _ =>
  }

  lemma StepKeepsOwned(s: State, e: Event)
    requires SS.Sound(s.db) && Enabled(s, e) && Owned(s)
    ensures Owned(Step(s, e))
  {
    ThreadsKeepOwned(s, e);
    DbKeepsOwnedRows(s, e);
  }

  lemma {:induction false} RunKeepsOwned(s: State, es: seq<Event>, t: State)
    requires IsRun(s, es, t) && Owned(s)
    ensures SS.Sound(t.db) && Owned(t)
    decreases |es|
  {
    if es != [] {
      StepKeepsOwned(s, es[0]);
      RunKeepsOwned(Step(s, es[0]), es[1..], t);
    }
  }

  /**
   From any restart on, no upsert and no delta batch ever meets an inode that belongs to
   another item, and the two maps of the inode table stay inverse.
   */
  lemma NothingEverClashes(db: SS.Db, pairs: seq<(Ino, string)>, es: seq<Event>, t: State, e: Event)
    requires SS.Sound(db) && Stored(db, pairs) && IsRun(Restarted(db, pairs), es, t) && Enabled(t, e)
    ensures SS.Sound(t.db)
    ensures DbEvent(t, e).Some? ==> SS.Step(t.db, DbEvent(t, e).value).Ok?
    ensures IT.Inverse(t.table)
  {
    RestartIsOwned(db, pairs);
    RunKeepsOwned(Restarted(db, pairs), es, t);
    if e.Apply? && t.pc.batch.link != "" {
      OwnedIsClashFree(t.db.items, t.db.tombstones, t.pc.batch.upserts, t.owner);
      SS.CommitsExactlyWhenClashFree(t.db.items, t.db.tombstones, t.pc.batch.driveId, t.pc.batch.upserts);
    }
  }

  /**
   Giving the inode of a stored local file to its new server id breaks this: the next
   batch that names the server id fails, and with it every other change in that batch.
   */
  lemma ReassigningAStoredFileClashes()
    ensures var file := DriveItem("local:1", "f", 0, false, None, None);
      var db := SS.After(SS.EMPTY, SS.Upserted("d", SS.Upsert(2, file, None)));
      var table := IT.OnReassign(IT.OnAllocate(IT.StartingAfter(0), "local:1"), 2, "A");
      && IT.Inverse(table) && IT.Allocated(table, "A") == 2
      && SS.Step(db, SS.Applied("d", [SS.Upsert(2, file.(id := "A"), None)], [], "t")).Err?
  {
    var file := DriveItem("local:1", "f", 0, false, None, None);
    var db := SS.After(SS.EMPTY, SS.Upserted("d", SS.Upsert(2, file, None)));
    IT.AllocateKeeps(IT.StartingAfter(0), "local:1");
    IT.ReassignKeepsInverseExactly(IT.OnAllocate(IT.StartingAfter(0), "local:1"), 2, "A");
    assert db.items[2].item.id == "local:1";
    assert InodeOf(db.items, "A") == None;
    var us := [SS.Upsert(2, file.(id := "A"), None)];
    assert us[..0] == [];
    assert SS.UpsertAll(db.items, db.tombstones, "d", us[..0]) == Ok(db.items);
  }

  // ------------------------------------------------ the table and the rows agree

  predicate Mapped(s: State, ino: Ino, id: string) {
    id in s.table.itemToInode && s.table.itemToInode[id] == ino
  }

  /** A pair that may still be stored: the table has not forgotten it, or storing it has no lasting effect. */
  predicate Current(s: State, ino: Ino, id: string) {
    Mapped(s, ino, id) || id in s.deleting || id in s.db.tombstones
  }

  ghost predicate RowsAgree(s: State, items: Items) {
    forall ino :: ino in items ==> items[ino].item.id in s.deleting || Mapped(s, ino, items[ino].item.id)
  }

  ghost predicate AllCurrent(s: State, us: seq<SS.Upsert>) {
    forall i :: 0 <= i < |us| ==> Current(s, us[i].inode, us[i].item.id)
  }

  /** Except while an item is being deleted, its row has the inode the table gives it. */
  ghost predicate Agree(s: State) {
    RowsAgree(s, s.db.items) && AllCurrent(s, Held(s.pc))
  }

  /** The table has not forgotten the pair, or its item is being deleted. */
  predicate Lasting(s: State, ino: Ino, id: string) {
    Mapped(s, ino, id) || id in s.deleting
  }

  ghost predicate AllLasting(s: State, us: seq<SS.Upsert>, ids: set<string>) {
    forall i :: 0 <= i < |us| && us[i].item.id in ids ==> Lasting(s, us[i].inode, us[i].item.id)
  }

  ghost function HeldIds(s: State): set<string> {
    set i | 0 <= i < |Held(s.pc)| :: Held(s.pc)[i].item.id
  }

  /**
   A listing stores an inode that the table still gives the item, or where it makes no
   lasting row; a tombstone is not dropped by hand while a sync holds an inode for its
   item that the table has forgotten. Exact by `KeepsAgreeExactlyWhenOrderly`.
   */
  ghost predicate Orderly(s: State, e: Event)
    requires UniqueIds(s.db.items)
  {
    match e
    case Store(inode, _, item, _) => Current(s, inode, item.id) || InodeOf(s.db.items, item.id).Some?
    case Forget(id) => AllLasting(s, Held(s.pc), {id})
    case Clear => AllLasting(s, Held(s.pc), HeldIds(s))
    case _ => true
  }

  lemma AllocateKeepsAgree(s: State, id: string)
    requires IT.Inverse(s.table) && IT.Ahead(s.table)
    ensures var t := Allocate(s, id);
      && (RowsAgree(s, s.db.items) ==> RowsAgree(t, t.db.items))
      && (AllCurrent(s, Held(s.pc)) ==> AllCurrent(t, Held(t.pc)))
      && Mapped(t, IT.Allocated(s.table, id), id)
      && (forall ino, other :: Mapped(s, ino, other) ==> Mapped(t, ino, other))
  {
    assert forall ino, other :: Mapped(s, ino, other) ==> Mapped(Allocate(s, id), ino, other);
  }

  lemma AllocateMaybeKeepsAgree(s: State, id: Option<string>)
    requires IT.Inverse(s.table) && IT.Ahead(s.table)
    ensures var t := AllocateMaybe(s, id);
      && (RowsAgree(s, s.db.items) ==> RowsAgree(t, t.db.items))
      && (AllCurrent(s, Held(s.pc)) ==> AllCurrent(t, Held(t.pc)))
      && (forall ino, other :: Mapped(s, ino, other) ==> Mapped(t, ino, other))
  {
    if id.Some? {
      AllocateKeepsAgree(s, id.value);
    }
  }

  lemma {:induction false} UpsertsKeepAgree(s: State, items: Items, driveId: string, us: seq<SS.Upsert>)
    requires UniqueIds(items) && RowsAgree(s, items) && AllCurrent(s, us)
    requires SS.UpsertAll(items, s.db.tombstones, driveId, us).Ok?
    ensures RowsAgree(s, SS.UpsertAll(items, s.db.tombstones, driveId, us).value)
    decreases |us|
  {
    if us != [] {
      var n := |us| - 1;
      assert AllCurrent(s, us[..n]);
      UpsertsKeepAgree(s, items, driveId, us[..n]);
      assert Current(s, us[n].inode, us[n].item.id);
    }
  }

  lemma AllocateBothKeepsAgree(s: State, parent: Option<string>, id: string)
    requires Owned(s) && Agree(s)
    ensures Agree(Allocate(AllocateMaybe(s, parent), id))
  {
    AllocateMaybeKeepsAgree(s, parent);
    AllocateMaybeKeepsOwned(s, parent);
    AllocateKeepsAgree(AllocateMaybe(s, parent), id);
  }

  lemma CollectKeepsAgree(s: State)
    requires Owned(s) && Agree(s) && s.pc.Collecting? && s.pc.batch.rest != [] && UniqueIds(s.db.items)
    ensures Agree(CollectStep(s))
  {
    var id := s.pc.batch.rest[0].id;
    AllocateBothKeepsAgree(s, OldParent(s.db.items, id), id);
  }

  lemma AssignKeepsAgree(s: State)
    requires Owned(s) && Agree(s) && s.pc.Allocating?
    ensures Agree(AssignStep(s))
  {
    AllocateKeepsAgree(s, s.pc.item.id);
    AllocateKeepsOwned(s, s.pc.item.id);
    AllocateMaybeKeepsAgree(Allocate(s, s.pc.item.id), s.pc.item.parentId);
  }

  lemma RestartAgrees(db: SS.Db, pairs: seq<(Ino, string)>)
    requires SS.Sound(db) && Stored(db, pairs)
    ensures Agree(Restarted(db, pairs))
  {
    var t := IT.StartingAfter(MaxInode(db));
    IT.SeedBinds(t, pairs);
    var u := IT.SeedAll(t, pairs);
    forall ino | ino in db.items
      ensures db.items[ino].item.id in u.itemToInode && u.itemToInode[db.items[ino].item.id] == ino
    {
      var i :| 0 <= i < |pairs| && pairs[i].0 == ino;
      assert IT.BoundTo(u, pairs[i].0, pairs[i].1);
    }
  }

  lemma DeleteKeepsAgree(s: State, e: Event)
    requires SS.Sound(s.db) && Enabled(s, e) && Owned(s) && Agree(s) && (e.DeleteBegin? || e.DeleteEnd?)
    ensures Agree(Step(s, e))
  {
    if e.DeleteBegin? {
      IT.RemoveKeeps(s.table, e.id);
    }
  }

  lemma ApplyKeepsAgree(s: State)
    requires SS.Sound(s.db) && Enabled(s, Apply) && Agree(s)
    ensures Agree(Step(s, Apply))
  {
    if s.pc.batch.link != "" && SS.UpsertAll(s.db.items, s.db.tombstones, s.pc.batch.driveId, s.pc.batch.upserts).Ok? {
      UpsertsKeepAgree(s, s.db.items, s.pc.batch.driveId, s.pc.batch.upserts);
    }
  }

  lemma ReassignKeepsAgree(s: State, inode: Ino, id: string)
    requires SS.Sound(s.db) && Owned(s) && Agree(s) && Reassignable(s, inode, id)
    ensures Agree(ReassignStep(s, inode, id))
  {
    var t := ReassignStep(s, inode, id);
    assert forall ino, other :: Mapped(s, ino, other) && ino != inode ==> Mapped(t, ino, other);
    assert Mapped(t, inode, id);
  }

  /**
   Reassigning an inode that has a row under another id: if the new id is neither stored nor
   tombstoned, the next listing that stores the item fails, and it fails only then; if it is
   stored, its row no longer has the inode the table gives it.
   */
  lemma ReassigningAStoredInodeFailsExactly(s: State, inode: Ino, driveId: string, item: DriveItem)
    requires SS.Sound(s.db) && Owned(s) && inode < s.table.next
    requires inode in s.db.items && s.db.items[inode].item.id != item.id
    ensures var t, e := ReassignStep(s, inode, item.id), Store(inode, driveId, item, None);
      && Enabled(t, e)
      && (SS.Step(t.db, DbEvent(t, e).value).Err? <==>
            InodeOf(s.db.items, item.id).None? && item.id !in s.db.tombstones)
      && (InodeOf(s.db.items, item.id).Some? && item.id !in s.deleting ==> !Agree(t))
  {
    var t, stored := ReassignStep(s, inode, item.id), InodeOf(s.db.items, item.id);
    if stored.Some? {
      assert stored.value in t.db.items && !Mapped(t, stored.value, item.id);
    }
  }

  /** Storing a pair keeps the agreement exactly when the pair is current or the item has a row already. */
  lemma StoreKeepsAgreeExactly(s: State, e: Event)
    requires SS.Sound(s.db) && Owned(s) && Agree(s) && e.Store? && Enabled(s, e)
    ensures Agree(Step(s, e)) <==> Current(s, e.inode, e.item.id) || InodeOf(s.db.items, e.item.id).Some?
  {
    if !Current(s, e.inode, e.item.id) && InodeOf(s.db.items, e.item.id).None? {
      var t := Step(s, e);
      assert t.db.items[e.inode].item.id == e.item.id;
      assert !Mapped(t, e.inode, e.item.id);
    }
  }

  /** Dropping a tombstone by hand keeps it exactly when no forgotten inode is held for its item. */
  lemma ForgetKeepsAgreeExactly(s: State, id: string)
    requires SS.Sound(s.db) && Agree(s)
    ensures Agree(Step(s, Forget(id))) <==> AllLasting(s, Held(s.pc), {id})
  {
    var t := Step(s, Forget(id));
    assert forall i :: 0 <= i < |Held(s.pc)| ==> Current(s, Held(s.pc)[i].inode, Held(s.pc)[i].item.id);
    if Agree(t) {
      forall i | 0 <= i < |Held(s.pc)| && Held(s.pc)[i].item.id in {id}
        ensures Lasting(s, Held(s.pc)[i].inode, Held(s.pc)[i].item.id)
      {
        assert Current(t, Held(t.pc)[i].inode, Held(t.pc)[i].item.id);
      }
    }
  }

  /** Clearing the store keeps it exactly when no forgotten inode is held at all. */
  lemma ClearKeepsAgreeExactly(s: State)
    requires SS.Sound(s.db) && Agree(s)
    ensures Agree(Step(s, Clear)) <==> AllLasting(s, Held(s.pc), HeldIds(s))
  {
    var t := Step(s, Clear);
    if Agree(t) {
      forall i | 0 <= i < |Held(s.pc)| && Held(s.pc)[i].item.id in HeldIds(s)
        ensures Lasting(s, Held(s.pc)[i].inode, Held(s.pc)[i].item.id)
      {
        assert Current(t, Held(t.pc)[i].inode, Held(t.pc)[i].item.id);
      }
    }
  }

  lemma QuietKeepsAgree(s: State, e: Event)
    requires SS.Sound(s.db) && Enabled(s, e) && Agree(s)
    requires e.Begin? || e.Respond? || e.Fail?
    ensures Agree(Step(s, e))
  {
  }

  /** A step keeps rows and table in agreement exactly when it is orderly. */
  lemma KeepsAgreeExactlyWhenOrderly(s: State, e: Event)
    requires SS.Sound(s.db) && Enabled(s, e) && Owned(s) && Agree(s)
    ensures Agree(Step(s, e)) <==> Orderly(s, e)
  {
    match e
    case Collect => CollectKeepsAgree(s);
    case Assign => AssignKeepsAgree(s);
    case Apply => ApplyKeepsAgree(s);
    case Lookup(id) => AllocateKeepsAgree(s, id);
    case Store(_, _, _, _) => StoreKeepsAgreeExactly(s, e);
    case DeleteBegin(_) => DeleteKeepsAgree(s, e);
    case DeleteEnd(_, _, _) => DeleteKeepsAgree(s, e);
    case Forget(id) => ForgetKeepsAgreeExactly(s, id);
    case Clear => ClearKeepsAgreeExactly(s);
    case SetRoot(id) =>
      RootIsReassigned(s, id);
      ReassignKeepsAgree(s, IT.ROOT_INODE, id);
    case Reassign(inode, id) => ReassignKeepsAgree(s, inode, id);
    case Restart(pairs) => RestartAgrees(s.db, pairs);
    case _ => QuietKeepsAgree(s, e);
  }

  ghost predicate OrderlyRun(s: State, es: seq<Event>)
    decreases |es|
  {
    es != [] ==> SS.Sound(s.db) && Enabled(s, es[0]) && Orderly(s, es[0]) && OrderlyRun(Step(s, es[0]), es[1..])
  }

  lemma {:induction false} RunKeepsAgree(s: State, es: seq<Event>, t: State)
    requires IsRun(s, es, t) && OrderlyRun(s, es) && Owned(s) && Agree(s)
    ensures Agree(t)
    decreases |es|
  {
    if es != [] {
      KeepsAgreeExactlyWhenOrderly(s, es[0]);
      StepKeepsOwned(s, es[0]);
      RunKeepsAgree(Step(s, es[0]), es[1..], t);
    }
  }

  ghost predicate AgreesThroughout(s: State, es: seq<Event>)
    decreases |es|
  {
    Agree(s) && (es != [] ==> SS.Sound(s.db) && Enabled(s, es[0]) && AgreesThroughout(Step(s, es[0]), es[1..]))
  }

  /** Rows and table agree after every step of a run exactly when every step is orderly. */
  lemma {:induction false} AgreesThroughoutExactlyWhenOrderly(s: State, es: seq<Event>, t: State)
    requires IsRun(s, es, t) && Owned(s) && Agree(s)
    ensures AgreesThroughout(s, es) <==> OrderlyRun(s, es)
    decreases |es|
  {
    if es != [] {
      var u := Step(s, es[0]);
      KeepsAgreeExactlyWhenOrderly(s, es[0]);
      StepKeepsOwned(s, es[0]);
      if Agree(u) {
        AgreesThroughoutExactlyWhenOrderly(u, es[1..], t);
      }
    }
  }

  /**
   From any restart on, through listings, delta batches, deletes and reassignments, every
   row of an item that is not being deleted has the inode the table gives that item.
   */
  lemma RowsAgreeWithTheTable(db: SS.Db, pairs: seq<(Ino, string)>, es: seq<Event>, t: State, ino: Ino)
    requires SS.Sound(db) && Stored(db, pairs)
    requires IsRun(Restarted(db, pairs), es, t) && OrderlyRun(Restarted(db, pairs), es)
    requires ino in t.db.items && t.db.items[ino].item.id !in t.deleting
    ensures Mapped(t, ino, t.db.items[ino].item.id)
    ensures ino in t.table.inodeToItem && t.table.inodeToItem[ino] == t.db.items[ino].item.id
  {
    RestartIsOwned(db, pairs);
    RestartAgrees(db, pairs);
    RunKeepsOwned(Restarted(db, pairs), es, t);
    RunKeepsAgree(Restarted(db, pairs), es, t);
  }

  lemma {:induction false} RunSnoc(s: State, es: seq<Event>, t: State, e: Event)
    requires IsRun(s, es, t) && SS.Sound(t.db) && Enabled(t, e)
    ensures SS.Sound(Step(t, e).db) && IsRun(s, es + [e], Step(t, e))
    decreases |es|
  {
    StepKeepsSound(t, e);
    if es == [] {
      assert ([] + [e])[1..] == [];
    } else {
      assert (es + [e])[1..] == es[1..] + [e];
      RunSnoc(Step(s, es[0]), es[1..], t, e);
    }
  }

  // ------------------------------------------------------- a stale listing

  const FILE_A := DriveItem("A", "a", 0, false, None, None)

  const A_DELETED := DriveItem("A", "", 0, false, None, None)

  /** A listing looks item A up, A is deleted here, and a sync learns that the server has deleted it too. */
  const DELETED_MEANWHILE: seq<Event> := [
    Lookup("A"), DeleteBegin("A"), DeleteEnd("d", "A", 0),
    Begin("d", 1), Respond([A_DELETED], "t"), Collect, Apply]

  lemma OneMoreStep(s: State, es: seq<Event>, k: nat, t: State) returns (u: State)
    requires k < |es| && IsRun(s, es[..k], t) && SS.Sound(t.db) && Enabled(t, es[k])
    ensures u == Step(t, es[k]) && SS.Sound(u.db) && IsRun(s, es[..k + 1], u)
  {
    u := Step(t, es[k]);
    RunSnoc(s, es[..k], t, es[k]);
    assert es[..k + 1] == es[..k] + [es[k]];
  }

  const NOTHING := State(SS.EMPTY, IT.Table(map[], map[], 2), map[], {}, Idle)

  const A_IS_LOOKED_UP := State(SS.EMPTY, IT.Table(map[2 := "A"], map["A" := 2], 3), map[2 := "A"], {}, Idle)

  const A_IS_BEING_DELETED := State(SS.EMPTY, IT.Table(map[], map[], 3), map[2 := "A"], {"A"}, Idle)

  const A_IS_DELETED := State(SS.EMPTY.(tombstones := map["A" := SS.Tombstone("d", 0)]), IT.Table(map[], map[], 3),
                              map[2 := "A"], {}, Idle)

  lemma EmptyRestart()
    ensures Restarted(SS.EMPTY, []) == NOTHING && Stored(SS.EMPTY, []) && SS.Sound(NOTHING.db)
  {
  }

  lemma LookedUp()
    ensures IsRun(NOTHING, DELETED_MEANWHILE[..1], A_IS_LOOKED_UP) && SS.Sound(A_IS_LOOKED_UP.db)
  {
    assert DELETED_MEANWHILE[..0] == [];
    var s := OneMoreStep(NOTHING, DELETED_MEANWHILE, 0, NOTHING);
    assert s == A_IS_LOOKED_UP;
  }

  lemma BeingDeleted()
    ensures IsRun(NOTHING, DELETED_MEANWHILE[..2], A_IS_BEING_DELETED) && SS.Sound(A_IS_BEING_DELETED.db)
  {
    LookedUp();
    var s := OneMoreStep(NOTHING, DELETED_MEANWHILE, 1, A_IS_LOOKED_UP);
    assert s == A_IS_BEING_DELETED;
  }

  lemma DeletedHere()
    ensures IsRun(NOTHING, DELETED_MEANWHILE[..3], A_IS_DELETED) && SS.Sound(A_IS_DELETED.db)
  {
    BeingDeleted();
    var s := OneMoreStep(NOTHING, DELETED_MEANWHILE, 2, A_IS_BEING_DELETED);
    assert s.db.items == map[];
    assert s == A_IS_DELETED;
  }

  lemma SyncHearsOfIt() returns (t: State)
    ensures IsRun(NOTHING, DELETED_MEANWHILE[..5], t) && SS.Sound(t.db)
    ensures t == A_IS_DELETED.(pc := Collecting(Batch("d", [A_DELETED], [], [], "t")))
  {
    DeletedHere();
    var s := OneMoreStep(NOTHING, DELETED_MEANWHILE, 3, A_IS_DELETED);
    assert s == A_IS_DELETED.(pc := Waiting("d"));
    t := OneMoreStep(NOTHING, DELETED_MEANWHILE, 4, s);
  }

  lemma SyncCollectsIt() returns (t: State)
    ensures IsRun(NOTHING, DELETED_MEANWHILE[..6], t) && SS.Sound(t.db)
    ensures t.pc == Collecting(Batch("d", [], [], ["A"], "t")) && t.db == A_IS_DELETED.db && t.deleting == {}
    ensures t.table.itemToInode == map["A" := 3] && t.owner == map[2 := "A", 3 := "A"]
  {
    var s := SyncHearsOfIt();
    assert InodeOf(s.db.items, "A") == None;
    t := OneMoreStep(NOTHING, DELETED_MEANWHILE, 5, s);
  }

  lemma DeletedThere() returns (t: State)
    ensures IsRun(NOTHING, DELETED_MEANWHILE, t) && SS.Sound(t.db)
    ensures t.db.items == map[] && t.db.tombstones == map[] && t.deleting == {}
    ensures t.table.itemToInode == map["A" := 3] && t.owner == map[2 := "A", 3 := "A"]
  {
    var s := SyncCollectsIt();
    t := OneMoreStep(NOTHING, DELETED_MEANWHILE, 6, s);
    assert DELETED_MEANWHILE[..7] == DELETED_MEANWHILE;
  }

  /** The listing then stores A under the inode it got, while the table has given A another one. */
  lemma StaleListingDisagrees() returns (t: State, u: State)
    ensures IsRun(Restarted(SS.EMPTY, []), DELETED_MEANWHILE, t) && SS.Sound(t.db)
    ensures Enabled(t, Store(2, "d", FILE_A, None)) && u == Step(t, Store(2, "d", FILE_A, None))
    ensures 2 in u.db.items && u.db.items[2].item.id == "A" && "A" !in u.deleting
    ensures u.table.itemToInode == map["A" := 3]
  {
    EmptyRestart();
    t := DeletedThere();
    u := Step(t, Store(2, "d", FILE_A, None));
  }
}
