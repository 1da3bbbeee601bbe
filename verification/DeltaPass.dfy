/**
 One pass of delta sync as its code runs it, on the real store and inode table.

 Undisturbed, the pass is a run of the protocol of DeltaSync, and leaves every row as the
 response says. It also says whose cached content must go: the content of deleted items and
 of files with a new version.
 */
module DeltaPass {
  import opened DeltaSync
  import opened ItemRows
  import opened Wrappers
  import IT = InodeTable
  import SS = SqliteStore

  /** The stored version of a file has another eTag than `item`, and both have one. */
  predicate HasNewEtag(items: Items, item: DriveItem)
    requires UniqueIds(items)
  {
    var i := InodeOf(items, item.id);
    i.Some? && items[i.value].item.etag.Some? && item.etag.Some? && items[i.value].item.etag != item.etag
  }

  /** An entry that makes the sync drop the cached content of its item. */
  predicate Invalidates(db: SS.Db, item: DriveItem)
    requires UniqueIds(db.items)
  {
    item.name == "" || (item.id !in db.tombstones && !item.isFolder && HasNewEtag(db.items, item))
  }

  function Invalidated(db: SS.Db, entries: seq<DriveItem>): set<string>
    requires UniqueIds(db.items)
  {
    set i | 0 <= i < |entries| && Invalidates(db, entries[i]) :: entries[i].id
  }

  lemma InvalidatedSnoc(db: SS.Db, entries: seq<DriveItem>, n: nat)
    requires UniqueIds(db.items) && n < |entries|
    ensures Invalidated(db, entries[..n + 1]) ==
            Invalidated(db, entries[..n]) + if Invalidates(db, entries[n]) then {entries[n].id} else {}
  {
    assert forall i :: 0 <= i < n ==> entries[..n + 1][i] == entries[..n][i] == entries[i];
    assert entries[..n + 1][n] == entries[n];
    assert forall i :: 0 <= i < n + 1 && Invalidates(db, entries[..n + 1][i]) && i != n ==>
        Invalidates(db, entries[..n][i]);
  }

  /** A file that had a version before and has another one after. */
  predicate VersionChanged(before: Items, after: Items, id: string)
    requires UniqueIds(before) && UniqueIds(after)
  {
    var j := InodeOf(after, id);
    j.Some? && !after[j.value].item.isFolder && HasNewEtag(before, after[j.value].item)
  }

  /** The row is of that item, and both it and the entry have an eTag, but not the same. */
  predicate IsOtherVersion(items: Items, i: Ino, item: DriveItem) {
    && i in items && items[i].item.id == item.id
    && items[i].item.etag.Some? && item.etag.Some? && items[i].item.etag.value != item.etag.value
  }

  lemma NewEtagMeans(items: Items, item: DriveItem)
    requires UniqueIds(items)
    ensures HasNewEtag(items, item) <==> exists i: Ino :: IsOtherVersion(items, i, item)
  {
    if i: Ino :| IsOtherVersion(items, i, item) {
      assert InodeOf(items, item.id) == Some(i);
    } else if HasNewEtag(items, item) {
      assert IsOtherVersion(items, InodeOf(items, item.id).value, item);
    }
  }

  /** The content of every deleted item is dropped. */
  predicate DropsDeleted(entries: seq<DriveItem>, dropped: set<string>) {
    forall k :: 0 <= k < |entries| && entries[k].name == "" ==> entries[k].id in dropped
  }

  /** So is that of every file whose eTag in the table was another one before. */
  ghost predicate DropsChanged(before: Items, after: Items, dropped: set<string>) {
    forall i, j :: j in after && !after[j].item.isFolder && IsOtherVersion(before, i, after[j].item) ==>
      after[j].item.id in dropped
  }

  /** The entry deletes its item, or has another eTag than the stored file. */
  ghost predicate Justifies(before: Items, item: DriveItem) {
    item.name == "" || (!item.isFolder && exists i: Ino :: IsOtherVersion(before, i, item))
  }

  /** And no other: an entry for the item justifies it. */
  ghost predicate DropsOnly(before: Items, entries: seq<DriveItem>, dropped: set<string>) {
    forall id :: id in dropped ==>
      exists k :: 0 <= k < |entries| && entries[k].id == id && Justifies(before, entries[k])
  }

  lemma InvalidatedIsDropped(db: SS.Db, entries: seq<DriveItem>)
    requires UniqueIds(db.items)
    ensures DropsDeleted(entries, Invalidated(db, entries)) && DropsOnly(db.items, entries, Invalidated(db, entries))
  {
    forall id | id in Invalidated(db, entries)
      ensures exists k :: 0 <= k < |entries| && entries[k].id == id && Justifies(db.items, entries[k])
    {
      var k :| 0 <= k < |entries| && Invalidates(db, entries[k]) && entries[k].id == id;
      NewEtagMeans(db.items, entries[k]);
    }
  }

  lemma ChangedIsDropped(before: Items, after: Items, dropped: set<string>)
    requires UniqueIds(before) && UniqueIds(after)
    requires forall id :: VersionChanged(before, after, id) ==> id in dropped
    ensures DropsChanged(before, after, dropped)
  {
    forall i, j | j in after && !after[j].item.isFolder && IsOtherVersion(before, i, after[j].item)
      ensures after[j].item.id in dropped
    {
      NewEtagMeans(before, after[j].item);
      assert InodeOf(after, after[j].item.id) == Some(j);
      assert VersionChanged(before, after, after[j].item.id);
    }
  }

  predicate ComeFrom(us: seq<SS.Upsert>, db: SS.Db, entries: seq<DriveItem>) {
    forall k :: 0 <= k < |us| ==> us[k].item in entries && us[k].item.id !in db.tombstones
  }

  lemma {:induction false} LastIsInTheBatch(us: seq<SS.Upsert>, id: string) returns (k: nat)
    requires SS.LastFor(us, id).Some?
    ensures k < |us| && us[k] == SS.LastFor(us, id).value && us[k].item.id == id
    decreases |us|
  {
    if us[|us| - 1].item.id == id {
      k := |us| - 1;
    } else {
      k := LastIsInTheBatch(us[..|us| - 1], id);
    }
  }

  lemma ChangedVersionIsInvalidated(db: SS.Db, driveId: string, us: seq<SS.Upsert>, deleted: seq<string>,
                                      token: string, entries: seq<DriveItem>, id: string)
    requires UniqueIds(db.items) && ComeFrom(us, db, entries)
    requires SS.Step(db, SS.Applied(driveId, us, deleted, token)).Ok?
    requires VersionChanged(db.items, SS.Step(db, SS.Applied(driveId, us, deleted, token)).value.items, id)
    ensures id in Invalidated(db, entries)
  {
    SS.AppliedBatchMeans(db, driveId, us, deleted, token, id);
    var k := LastIsInTheBatch(us, id);
    var i :| 0 <= i < |entries| && entries[i] == us[k].item;
    assert Invalidates(db, entries[i]);
  }

  lemma SameRows(items: Items, dropped: set<string>)
    requires UniqueIds(items)
    ensures DropsChanged(items, items, dropped)
  {
  }

  /** No batch changes the eTag of a file in the table without its cached content being dropped. */
  lemma ChangedVersionsAreInvalidated(db: SS.Db, driveId: string, us: seq<SS.Upsert>, deleted: seq<string>,
                                      token: string, entries: seq<DriveItem>)
    requires UniqueIds(db.items) && ComeFrom(us, db, entries)
    requires SS.Step(db, SS.Applied(driveId, us, deleted, token)).Ok?
    ensures DropsChanged(db.items, SS.Step(db, SS.Applied(driveId, us, deleted, token)).value.items,
                         Invalidated(db, entries))
  {
    var after := SS.Step(db, SS.Applied(driveId, us, deleted, token)).value.items;
    forall id | VersionChanged(db.items, after, id) ensures id in Invalidated(db, entries) {
      ChangedVersionIsInvalidated(db, driveId, us, deleted, token, entries, id);
    }
    ChangedIsDropped(db.items, after, Invalidated(db, entries));
  }

  // -------------------------------------- what the pass makes of the response

  predicate Deletes(entries: seq<DriveItem>, id: string) {
    exists k :: 0 <= k < |entries| && entries[k].id == id && entries[k].name == ""
  }

  predicate IsLastNamed(entries: seq<DriveItem>, id: string, k: nat) {
    && k < |entries| && entries[k].id == id && entries[k].name != ""
    && forall j :: k < j < |entries| && entries[j].id == id ==> entries[j].name == ""
  }

  /** The last entry for the item that does not delete it. */
  function LastNamed(entries: seq<DriveItem>, id: string): (r: Option<DriveItem>)
    ensures r.Some? ==> exists k: nat :: IsLastNamed(entries, id, k) && entries[k] == r.value
    ensures r.None? ==> forall k :: 0 <= k < |entries| && entries[k].id == id ==> entries[k].name == ""
  {
    if entries == [] then None
    else
      var n: nat := |entries| - 1;
      if entries[n].id == id && entries[n].name != "" then
        assert IsLastNamed(entries, id, n);
        Some(entries[n])
      else
        assert forall k: nat :: IsLastNamed(entries[..n], id, k) ==> IsLastNamed(entries, id, k);
        LastNamed(entries[..n], id)
  }

  /** The inodes of the upsert are those of the table. */
  predicate UsesTable(u: SS.Upsert, t: IT.Table) {
    && u.item.id in t.itemToInode && t.itemToInode[u.item.id] == u.inode
    && (u.item.parentId.None? ==> u.parent.None?)
    && (u.item.parentId.Some? ==>
          u.item.parentId.value in t.itemToInode && u.parent == Some(t.itemToInode[u.item.parentId.value]))
  }

  ghost predicate Grows(t: IT.Table, u: IT.Table) {
    forall id :: id in t.itemToInode ==> id in u.itemToInode && u.itemToInode[id] == t.itemToInode[id]
  }

  /** The upserts collected for one item. */
  predicate Collects(us: seq<SS.Upsert>, tombstones: map<string, SS.Tombstone>, entries: seq<DriveItem>, id: string) {
    var u := SS.LastFor(us, id);
    if id in tombstones then u.None?
    else (u.Some? <==> LastNamed(entries, id).Some?) && (u.Some? ==> u.value.item == LastNamed(entries, id).value)
  }

  /** What has been collected from the entries. */
  ghost predicate IsBatch(us: seq<SS.Upsert>, deletes: seq<string>, tombstones: map<string, SS.Tombstone>,
                          entries: seq<DriveItem>, t: IT.Table) {
    && (forall k :: 0 <= k < |us| ==> UsesTable(us[k], t))
    && (forall id :: id in deletes <==> Deletes(entries, id))
    && forall id :: Collects(us, tombstones, entries, id)
  }

  lemma DeletesSnoc(entries: seq<DriveItem>, n: nat, id: string)
    requires n < |entries|
    ensures Deletes(entries[..n + 1], id) <==>
            Deletes(entries[..n], id) || (entries[n].id == id && entries[n].name == "")
  {
    assert entries[..n + 1][n] == entries[n];
    assert forall k :: 0 <= k < n ==> entries[..n + 1][k] == entries[..n][k];
  }

  lemma CollectsSnoc(us: seq<SS.Upsert>, tombstones: map<string, SS.Tombstone>, entries: seq<DriveItem>, n: nat,
                     upsert: Option<SS.Upsert>, id: string)
    requires n < |entries| && Collects(us, tombstones, entries[..n], id)
    requires upsert.Some? <==> entries[n].name != "" && entries[n].id !in tombstones
    requires upsert.Some? ==> upsert.value.item == entries[n]
    ensures Collects(Added(us, upsert), tombstones, entries[..n + 1], id)
  {
    assert entries[..n + 1][..n] == entries[..n];
    if upsert.Some? {
      assert (us + [upsert.value])[..|us|] == us;
    }
  }

  lemma BatchSnoc(us: seq<SS.Upsert>, deletes: seq<string>, tombstones: map<string, SS.Tombstone>,
                  entries: seq<DriveItem>, n: nat, upsert: Option<SS.Upsert>, t: IT.Table, u: IT.Table)
    requires n < |entries| && IsBatch(us, deletes, tombstones, entries[..n], t) && Grows(t, u)
    requires upsert.Some? <==> entries[n].name != "" && entries[n].id !in tombstones
    requires upsert.Some? ==> upsert.value.item == entries[n] && UsesTable(upsert.value, u)
    ensures IsBatch(Added(us, upsert), if entries[n].name == "" then deletes + [entries[n].id] else deletes,
                    tombstones, entries[..n + 1], u)
  {
    var all, gone := Added(us, upsert), if entries[n].name == "" then deletes + [entries[n].id] else deletes;
    var seen := entries[..n + 1];
    forall id ensures Collects(all, tombstones, seen, id) {
      CollectsSnoc(us, tombstones, entries, n, upsert, id);
    }
    forall id ensures id in gone <==> Deletes(seen, id) {
      DeletesSnoc(entries, n, id);
    }
  }

  /**
   The row of an item after the pass: none if an entry deletes it, the row it had if it has a
   tombstone or no entry, and otherwise its last entry, with the inodes of the table; a known
   item keeps its inode and its drive.
   */
  ghost predicate Reflects(before: Items, tombstones: map<string, SS.Tombstone>, driveId: string,
                           entries: seq<DriveItem>, t: IT.Table, after: Items, id: string)
    requires UniqueIds(before) && UniqueIds(after)
  {
    var stored, row, last := SS.RowOf(before, id), SS.RowOf(after, id), LastNamed(entries, id);
    if Deletes(entries, id) then row.None?
    else if id in tombstones || last.None? then row == stored
    else
      && row.Some? && row.value.1.item == last.value
      && (stored.Some? ==> row.value.0 == stored.value.0 && row.value.1.driveId == stored.value.1.driveId)
      && (stored.None? ==> id in t.itemToInode && row.value.0 == t.itemToInode[id] && row.value.1.driveId == driveId)
      && (last.value.parentId.None? ==> row.value.1.parent.None?)
      && (last.value.parentId.Some? ==>
            last.value.parentId.value in t.itemToInode
            && row.value.1.parent == Some(t.itemToInode[last.value.parentId.value]))
  }

  lemma {:induction false} FirstIsInTheBatch(us: seq<SS.Upsert>, id: string) returns (k: nat)
    requires SS.FirstFor(us, id).Some?
    ensures k < |us| && us[k] == SS.FirstFor(us, id).value && us[k].item.id == id
    decreases |us|
  {
    if SS.FirstFor(us[..|us| - 1], id).Some? {
      k := FirstIsInTheBatch(us[..|us| - 1], id);
    } else {
      k := |us| - 1;
    }
  }

  /** A batch that commits makes every row what the response says. */
  lemma BatchReflects(db: SS.Db, driveId: string, us: seq<SS.Upsert>, deletes: seq<string>, link: string,
                      entries: seq<DriveItem>, t: IT.Table, id: string)
    requires UniqueIds(db.items) && IsBatch(us, deletes, db.tombstones, entries, t)
    requires SS.Step(db, SS.Applied(driveId, us, deletes, link)).Ok?
    ensures Reflects(db.items, db.tombstones, driveId, entries, t,
                     SS.Step(db, SS.Applied(driveId, us, deletes, link)).value.items, id)
  {
    SS.AppliedBatchMeans(db, driveId, us, deletes, link, id);
    assert Collects(us, db.tombstones, entries, id);
    if SS.LastFor(us, id).Some? {
      var last := LastIsInTheBatch(us, id);
      var first := FirstIsInTheBatch(us, id);
      assert UsesTable(us[last], t) && UsesTable(us[first], t);
    }
  }

  function Added<T>(xs: seq<T>, x: Option<T>): seq<T> {
    if x.Some? then xs + [x.value] else xs
  }

  /** Allocating inodes is how the caches of a deleted item and its parent are found. */
  method NoteDeletion(store: SS.SqliteStore, table: IT.InodeTable, id: string)
    requires SS.Sound(store.View()) && IT.Inverse(table.View()) && IT.Ahead(table.View())
    modifies table
    ensures IT.Inverse(table.View()) && IT.Ahead(table.View())
    ensures var parent := OldParent(store.items, id);
      var t := if parent.Some? then IT.OnAllocate(old(table.View()), parent.value) else old(table.View());
      table.View() == IT.OnAllocate(t, id)
    ensures Grows(old(table.View()), table.View())
  {
    var stored := InodeOf(store.items, id);
    if stored.Some? && store.items[stored.value].item.parentId.Some? {
      var parentIno := table.Allocate(store.items[stored.value].item.parentId.value);
    }
    var ino := table.Allocate(id);
  }

  method AssignInode(table: IT.InodeTable, item: DriveItem) returns (u: SS.Upsert)
    requires IT.Inverse(table.View()) && IT.Ahead(table.View())
    modifies table
    ensures IT.Inverse(table.View()) && IT.Ahead(table.View())
    ensures var t := IT.OnAllocate(old(table.View()), item.id);
      && table.View() == (if item.parentId.Some? then IT.OnAllocate(t, item.parentId.value) else t)
      && u == SS.Upsert(IT.Allocated(old(table.View()), item.id), item,
                        if item.parentId.Some? then Some(IT.Allocated(t, item.parentId.value)) else None)
    ensures UsesTable(u, table.View()) && Grows(old(table.View()), table.View())
  {
    var ino := table.Allocate(item.id);
    var parent: Option<Ino> := None;
    if item.parentId.Some? {
      var p := table.Allocate(item.parentId.value);
      parent := Some(p);
    }
    u := SS.Upsert(ino, item, parent);
  }

  /** The store and the table are where the run from `s` has taken them. */
  ghost predicate Stands(store: SS.SqliteStore, table: IT.InodeTable, s: State, es: seq<Event>, t: State)
    reads store, table
  {
    && SS.Sound(store.View()) && IT.Inverse(table.View()) && IT.Ahead(table.View())
    && IsRun(s, es, t) && t.db == store.View() && t.table == table.View()
  }

  /** A deleted item: its id is noted for the batch. */
  method TakeDeletion(store: SS.SqliteStore, table: IT.InodeTable, item: DriveItem,
                      ghost s: State, ghost before: seq<Event>, ghost begun: State)
    returns (ghost es: seq<Event>, ghost t: State)
    requires Stands(store, table, s, before, begun) && begun.pc.Collecting?
    requires begun.pc.batch.rest != [] && begun.pc.batch.rest[0] == item && item.name == ""
    modifies table
    ensures Stands(store, table, s, es, t) && Grows(old(table.View()), table.View())
    ensures t.pc == Collecting(begun.pc.batch.(rest := begun.pc.batch.rest[1..],
                                               deletes := begun.pc.batch.deletes + [item.id]))
  {
    RunSnoc(s, before, begun, Collect);
    es, t := before + [Collect], Step(begun, Collect);
    NoteDeletion(store, table, item.id);
  }

  /** Any other item that has no tombstone: it gets its inode, and an upsert for the batch. */
  method TakeUpsert(store: SS.SqliteStore, table: IT.InodeTable, item: DriveItem,
                    ghost s: State, ghost before: seq<Event>, ghost begun: State)
    returns (u: SS.Upsert, ghost es: seq<Event>, ghost t: State)
    requires Stands(store, table, s, before, begun) && begun.pc.Allocating? && begun.pc.item == item
    modifies table
    ensures Stands(store, table, s, es, t) && u.item == item
    ensures UsesTable(u, table.View()) && Grows(old(table.View()), table.View())
    ensures t.pc == Collecting(begun.pc.batch.(upserts := begun.pc.batch.upserts + [u]))
  {
    RunSnoc(s, before, begun, Assign);
    es, t := before + [Assign], Step(begun, Assign);
    u := AssignInode(table, item);
  }

  /** One turn of the loop: a deletion is noted, a tombstoned item skipped, any other item gets its upsert. */
  method CollectOne(store: SS.SqliteStore, table: IT.InodeTable, item: DriveItem, ghost batch: Batch,
                    ghost s: State, ghost before: seq<Event>, ghost begun: State)
    returns (upsert: Option<SS.Upsert>, drops: bool, ghost es: seq<Event>, ghost t: State)
    requires Stands(store, table, s, before, begun)
    requires begun.pc == Collecting(batch) && batch.rest != [] && batch.rest[0] == item
    modifies table
    ensures Stands(store, table, s, es, t) && Grows(old(table.View()), table.View())
    ensures var deleted := if item.name == "" then Some(item.id) else None;
      t.pc == Collecting(batch.(rest := batch.rest[1..], upserts := Added(batch.upserts, upsert),
                                deletes := Added(batch.deletes, deleted)))
    ensures drops <==> Invalidates(store.View(), item)
    ensures upsert.Some? <==> item.name != "" && item.id !in store.tombstones
    ensures upsert.Some? ==> upsert.value.item == item && UsesTable(upsert.value, table.View())
  {
    upsert, drops := None, false;
    if item.name == "" {
      es, t := TakeDeletion(store, table, item, s, before, begun);
      drops := true;
    } else {
      RunSnoc(s, before, begun, Collect);
      es, t := before + [Collect], Step(begun, Collect);
      var tombstoned := store.IsTombstoned(item.id);
      if !tombstoned {
        drops := !item.isFolder && HasNewEtag(store.items, item);
        var u;
        u, es, t := TakeUpsert(store, table, item, s, es, t);
        upsert := Some(u);
      }
    }
  }

  /** The loop over the entries of a response. */
  method CollectEntries(store: SS.SqliteStore, table: IT.InodeTable, driveId: string, entries: seq<DriveItem>,
                        link: string, ghost s: State, ghost before: seq<Event>, ghost begun: State)
    returns (upserts: seq<SS.Upsert>, deletes: seq<string>, dropped: set<string>,
             ghost es: seq<Event>, ghost t: State)
    requires Stands(store, table, s, before, begun)
    requires begun.pc == Collecting(Batch(driveId, entries, [], [], link))
    modifies table
    ensures Stands(store, table, s, es, t)
    ensures t.pc == Collecting(Batch(driveId, [], upserts, deletes, link))
    ensures dropped == Invalidated(store.View(), entries) && ComeFrom(upserts, store.View(), entries)
    ensures DropsDeleted(entries, dropped) && DropsOnly(store.items, entries, dropped)
    ensures IsBatch(upserts, deletes, store.tombstones, entries, table.View())
  {
    es, t := before, begun;
    upserts, deletes, dropped := [], [], {};
    for n := 0 to |entries|
      invariant Stands(store, table, s, es, t)
      invariant t.pc == Collecting(Batch(driveId, entries[n..], upserts, deletes, link))
      invariant dropped == Invalidated(store.View(), entries[..n]) && ComeFrom(upserts, store.View(), entries)
      invariant IsBatch(upserts, deletes, store.tombstones, entries[..n], table.View())
    {
      InvalidatedSnoc(store.View(), entries, n);
      var item := entries[n];
      ghost var before := table.View();
      var upsert, drops;
      upsert, drops, es, t := CollectOne(store, table, item, t.pc.batch, s, es, t);
      BatchSnoc(upserts, deletes, store.tombstones, entries, n, upsert, before, table.View());
      upserts := Added(upserts, upsert);
      if item.name == "" {
        deletes := deletes + [item.id];
      }
      if drops {
        dropped := dropped + {item.id};
      }
    }
    assert entries[..|entries|] == entries;
    InvalidatedIsDropped(store.View(), entries);
  }

  /** The end of a response: the batch is applied with its link, and without one dropped. */
  method ApplyBatch(store: SS.SqliteStore, table: IT.InodeTable, driveId: string, upserts: seq<SS.Upsert>,
                    deletes: seq<string>, link: string, ghost entries: seq<DriveItem>,
                    ghost s: State, ghost before: seq<Event>, ghost begun: State)
    returns (ok: bool, ghost es: seq<Event>, ghost t: State)
    requires Stands(store, table, s, before, begun) && ComeFrom(upserts, store.View(), entries)
    requires begun.pc == Collecting(Batch(driveId, [], upserts, deletes, link))
    requires IsBatch(upserts, deletes, store.tombstones, entries, table.View())
    modifies store
    ensures Stands(store, table, s, es, t) && t.pc.Idle?
    ensures DropsChanged(old(store.items), store.items, Invalidated(old(store.View()), entries))
    ensures ok && link != "" ==> store.tokens == old(store.tokens)[driveId := link] && forall id ::
      Reflects(old(store.items), old(store.tombstones), driveId, entries, table.View(), store.items, id)
    ensures !ok || link == "" ==> store.View() == old(store.View())
    ensures Owned(s) ==> ok
  {
    ghost var db := store.View();
    SameRows(db.items, Invalidated(db, entries));
    RunSnoc(s, before, begun, Apply);
    es, t := before + [Apply], Step(begun, Apply);
    ok := true;
    if Owned(s) {
      RunKeepsOwned(s, before, begun);
      OwnedIsClashFree(db.items, db.tombstones, upserts, begun.owner);
    }
    if link != "" {
      ok := store.ApplyDelta(driveId, upserts, deletes, link);
      if ok {
        SS.CommitsExactlyWhenClashFree(db.items, db.tombstones, driveId, upserts);
        ChangedVersionsAreInvalidated(db, driveId, upserts, deletes, link, entries);
        forall id
          ensures Reflects(db.items, db.tombstones, driveId, entries, table.View(), store.items, id)
        {
          BatchReflects(db, driveId, upserts, deletes, link, entries, table.View(), id);
        }
      }
    }
  }

  ghost function PurgedDb(s: State, driveId: string, now: int): SS.Db
    requires SS.Sound(s.db) && s.pc.Idle?
  {
    Step(s, Begin(driveId, now)).db
  }

  /**
   `run_delta_sync`, undisturbed: a run of the steps above from Idle to Idle. `response` is
   missing when the request fails. `dropped` are the items whose disk content is removed.
   */
  method RunDeltaSync(store: SS.SqliteStore, table: IT.InodeTable, driveId: string, now: int,
                      response: Option<(seq<DriveItem>, string)>, ghost s: State)
    returns (ok: bool, dropped: set<string>, ghost es: seq<Event>, ghost t: State)
    requires SS.Sound(store.View()) && IT.Inverse(table.View()) && IT.Ahead(table.View())
    requires s.db == store.View() && s.table == table.View() && s.pc.Idle?
    modifies store, table
    ensures SS.Sound(store.View()) && IT.Inverse(table.View()) && IT.Ahead(table.View())
    ensures IsRun(s, es, t) && t.db == store.View() && t.table == table.View() && t.pc.Idle?
    ensures response.None? ==> !ok && dropped == {} && store.items == old(store.items)
    ensures response.Some? && Owned(s) ==> ok
    ensures response.Some? ==> dropped == Invalidated(PurgedDb(s, driveId, now), response.value.0)
    ensures response.Some? ==>
      DropsDeleted(response.value.0, dropped) && DropsOnly(old(store.items), response.value.0, dropped)
    ensures DropsChanged(old(store.items), store.items, dropped)
    ensures response.Some? && ok && response.value.1 != "" ==>
      && store.tokens == old(store.tokens)[driveId := response.value.1]
      && forall id :: Reflects(old(store.items), PurgedDb(s, driveId, now).tombstones, driveId, response.value.0,
                               table.View(), store.items, id)
    ensures !ok || (response.Some? && response.value.1 == "") ==>
      store.items == old(store.items) && store.tokens == old(store.tokens)
    ensures forall id :: id in PurgedDb(s, driveId, now).tombstones <==>
      id in old(store.tombstones) && now - old(store.tombstones)[id].deletedAt <= 300
  {
    SameRows(store.items, {});
    var removed := store.PurgeTombstonesOlderThan(TOMBSTONE_SECS, now);
    es, t := [], s;
    RunSnoc(s, es, t, Begin(driveId, now));
    es, t := es + [Begin(driveId, now)], Step(t, Begin(driveId, now));
    if response.None? {
      RunSnoc(s, es, t, Fail);
      es, t := es + [Fail], Step(t, Fail);
      return false, {}, es, t;
    }
    var entries, link := response.value.0, response.value.1;
    RunSnoc(s, es, t, Respond(entries, link));
    es, t := es + [Respond(entries, link)], Step(t, Respond(entries, link));
    var upserts, deletes;
    upserts, deletes, dropped, es, t := CollectEntries(store, table, driveId, entries, link, s, es, t);
    ok, es, t := ApplyBatch(store, table, driveId, upserts, deletes, link, entries, s, es, t);
  }
}
