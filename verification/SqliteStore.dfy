/**
 The metadata tables in SQLite: items, tombstones and delta tokens.

 Every method is one transaction: it either commits as a whole or leaves the tables
 as they were. A transaction fails only on an inode that already belongs to another
 item. Times are in seconds.
 */
module SqliteStore {
  import opened Wrappers
  import opened ItemRows

  datatype Tombstone = Tombstone(driveId: string, deletedAt: int)

  datatype Upsert = Upsert(inode: Ino, item: DriveItem, parent: Option<Ino>)

  datatype Db = Db(items: Items, tombstones: map<string, Tombstone>, tokens: map<string, string>)

  datatype DbError = InodeClash

  const EMPTY := Db(map[], map[], map[])

  ghost predicate Sound(db: Db) {
    UniqueIds(db.items) && Disjoint(db)
  }

  /** No item is both in the table and tombstoned. */
  ghost predicate Disjoint(db: Db) {
    forall i :: i in db.items ==> db.items[i].item.id !in db.tombstones
  }

  // -------------------------------------------------------- the statements

  /**
   `INSERT ... ON CONFLICT(item_id) DO UPDATE`: a known item keeps its inode and drive
   and takes everything else; a new item must not meet its inode in use.
   */
  function InsertRow(items: Items, driveId: string, u: Upsert): (r: Result<Items, DbError>)
    requires UniqueIds(items)
    ensures r.Ok? ==> UniqueIds(r.value)
  {
    var stored := InodeOf(items, u.item.id);
    if stored.Some? then Ok(items[stored.value := Row(items[stored.value].driveId, u.parent, u.item)])
    else if u.inode in items then Err(InodeClash)
    else Ok(items[u.inode := Row(driveId, u.parent, u.item)])
  }

  function DeleteRow(items: Items, id: string): (r: Items)
    requires UniqueIds(items)
    ensures UniqueIds(r) && InodeOf(r, id) == None
    ensures forall i :: i in r <==> i in items && items[i].item.id != id
    ensures forall i :: i in r ==> r[i] == items[i]
  {
    map i | i in items && items[i].item.id != id :: items[i]
  }

  function UpsertUnlessTombstoned(items: Items, tombstones: map<string, Tombstone>,
                                  driveId: string, u: Upsert): (r: Result<Items, DbError>)
    requires UniqueIds(items)
    ensures r.Ok? ==> UniqueIds(r.value)
  {
    if u.item.id in tombstones then Ok(items) else InsertRow(items, driveId, u)
  }

  function UpsertAll(items: Items, tombstones: map<string, Tombstone>,
                     driveId: string, us: seq<Upsert>): (r: Result<Items, DbError>)
    requires UniqueIds(items)
    ensures r.Ok? ==> UniqueIds(r.value)
  {
    if us == [] then Ok(items)
    else
      var n := |us| - 1;
      match UpsertAll(items, tombstones, driveId, us[..n])
      case Err(e) => Err(e)
      case Ok(before) => UpsertUnlessTombstoned(before, tombstones, driveId, us[n])
  }

  function DeleteAll(items: Items, ids: seq<string>): (r: Items)
    requires UniqueIds(items)
    ensures UniqueIds(r)
    ensures forall i :: i in r <==> i in items && items[i].item.id !in ids
    ensures forall i :: i in r ==> r[i] == items[i]
  {
    if ids == [] then items else DeleteRow(DeleteAll(items, ids[..|ids| - 1]), ids[|ids| - 1])
  }

  function Without(tombstones: map<string, Tombstone>, ids: seq<string>): map<string, Tombstone> {
    map id | id in tombstones && id !in ids :: tombstones[id]
  }

  // ----------------------------------------------------- the transactions

  datatype Event =
    | Upserted(driveId: string, upsert: Upsert)
    | Applied(driveId: string, upserts: seq<Upsert>, deleted: seq<string>, token: string)
    | Deleted(id: string)
    | DeletedChildren(parent: Ino)
    | DeletedLocally(driveId: string, id: string, now: int)
    | Forgotten(id: string)
    | Purged(secs: nat, now: int)
    | TokenSet(driveId: string, token: string)
    | Cleared

  function Step(db: Db, e: Event): (r: Result<Db, DbError>)
    requires UniqueIds(db.items)
    ensures r.Ok? ==> UniqueIds(r.value.items)
  {
    match e
    case Upserted(driveId, u) =>
      (match UpsertUnlessTombstoned(db.items, db.tombstones, driveId, u)
       case Ok(items) => Ok(db.(items := items))
       case Err(e) => Err(e))
    case Applied(driveId, us, deleted, token) =>
      (match UpsertAll(db.items, db.tombstones, driveId, us)
       case Ok(items) => Ok(Db(DeleteAll(items, deleted), Without(db.tombstones, deleted), db.tokens[driveId := token]))
       case Err(e) => Err(e))
    case Deleted(id) => Ok(db.(items := DeleteRow(db.items, id)))
    case DeletedChildren(parent) =>
      Ok(db.(items := map i | i in db.items && db.items[i].parent != Some(parent) :: db.items[i]))
    case DeletedLocally(driveId, id, now) =>
      Ok(db.(items := DeleteRow(db.items, id), tombstones := db.tombstones[id := Tombstone(driveId, now)]))
    case Forgotten(id) => Ok(db.(tombstones := db.tombstones - {id}))
    case Purged(secs, now) =>
      Ok(db.(tombstones :=
        map id | id in db.tombstones && db.tombstones[id].deletedAt >= now - secs :: db.tombstones[id]))
    case TokenSet(driveId, token) => Ok(db.(tokens := db.tokens[driveId := token]))
    case Cleared => Ok(EMPTY)
  }

  /** A failed transaction is rolled back. */
  function After(db: Db, e: Event): (t: Db)
    requires UniqueIds(db.items)
    ensures UniqueIds(t.items)
  {
    var r := Step(db, e);
    if r.Ok? then r.value else db
  }

  function Run(db: Db, es: seq<Event>): (t: Db)
    requires UniqueIds(db.items)
    ensures UniqueIds(t.items)
    decreases |es|
  {
    if es == [] then db else Run(After(db, es[0]), es[1..])
  }

  // ------------------------------------------------ tombstones hold in all runs

  lemma {:induction false} UpsertAllRespectsTombstones(items: Items, tombstones: map<string, Tombstone>,
                                                       driveId: string, us: seq<Upsert>)
    requires UniqueIds(items) && UpsertAll(items, tombstones, driveId, us).Ok?
    requires forall i :: i in items ==> items[i].item.id !in tombstones
    ensures var t := UpsertAll(items, tombstones, driveId, us).value;
      forall i :: i in t ==> t[i].item.id !in tombstones
    decreases |us|
  {
    if us != [] {
      UpsertAllRespectsTombstones(items, tombstones, driveId, us[..|us| - 1]);
    }
  }

  lemma StepKeepsDisjoint(db: Db, e: Event)
    requires Sound(db)
    ensures Sound(After(db, e))
  {
    match e
    case Applied(driveId, us, deleted, token) =>
      if UpsertAll(db.items, db.tombstones, driveId, us).Ok? {
        UpsertAllRespectsTombstones(db.items, db.tombstones, driveId, us);
      }
    case _ =>
  }

  lemma {:induction false} RunKeepsDisjoint(db: Db, es: seq<Event>)
    requires Sound(db)
    ensures Sound(Run(db, es))
    decreases |es|
  {
    if es != [] {
      StepKeepsDisjoint(db, es[0]);
      RunKeepsDisjoint(After(db, es[0]), es[1..]);
    }
  }

  /** The events that end a tombstone. */
  predicate Ends(db: Db, e: Event, id: string)
    requires UniqueIds(db.items)
  {
    match e
    case Applied(driveId, us, deleted, _) => id in deleted && UpsertAll(db.items, db.tombstones, driveId, us).Ok?
    case Forgotten(other) => other == id
    case Purged(secs, now) => id in db.tombstones && db.tombstones[id].deletedAt < now - secs
    case Cleared => true
    case _ => false
  }

  lemma TombstonesEndExactly(db: Db, e: Event, id: string)
    requires Sound(db) && id in db.tombstones
    ensures id !in After(db, e).tombstones <==> Ends(db, e, id)
  {
  }

  predicate EndsInRun(db: Db, es: seq<Event>, id: string)
    requires UniqueIds(db.items)
    decreases |es|
  {
    es != [] && (Ends(db, es[0], id) || EndsInRun(After(db, es[0]), es[1..], id))
  }

  /**
   A locally deleted item cannot come back: whatever upserts and delta batches follow,
   it has no row until the server confirms the deletion, a purge finds the tombstone too
   old, it is removed by name, or the store is cleared.
   */
  lemma {:induction false} DeletedItemsStayDeleted(db: Db, id: string, es: seq<Event>)
    requires Sound(db) && id in db.tombstones && !EndsInRun(db, es, id)
    ensures id in Run(db, es).tombstones && InodeOf(Run(db, es).items, id) == None
    decreases |es|
  {
    if es == [] {
      assert Disjoint(db);
    } else {
      StepKeepsDisjoint(db, es[0]);
      TombstonesEndExactly(db, es[0], id);
      DeletedItemsStayDeleted(After(db, es[0]), id, es[1..]);
    }
  }

  /** A purge spares every tombstone that is at most `secs` seconds old. */
  lemma YoungTombstonesSurvivePurges(db: Db, driveId: string, id: string, deletedAt: int, secs: nat, now: int)
    requires Sound(db) && now <= deletedAt + secs
    ensures var t := After(After(db, DeletedLocally(driveId, id, deletedAt)), Purged(secs, now));
      id in t.tombstones && InodeOf(t.items, id) == None
  {
    StepKeepsDisjoint(db, DeletedLocally(driveId, id, deletedAt));
    StepKeepsDisjoint(After(db, DeletedLocally(driveId, id, deletedAt)), Purged(secs, now));
  }

  // ------------------------------------------------------ what a batch means

  function RowOf(items: Items, id: string): Option<(Ino, Row)>
    requires UniqueIds(items)
  {
    var i := InodeOf(items, id);
    if i.Some? then Some((i.value, items[i.value])) else None
  }

  /** Tables with the same row for every id are the same. */
  lemma SameRowsSameItems(a: Items, b: Items)
    requires UniqueIds(a) && UniqueIds(b) && forall id :: RowOf(a, id) == RowOf(b, id)
    ensures a == b
  {
    forall i | i in a ensures i in b && a[i] == b[i] {
      assert RowOf(a, a[i].item.id) == Some((i, a[i]));
      assert RowOf(b, a[i].item.id) == Some((i, a[i]));
    }
    forall i | i in b ensures i in a {
      assert RowOf(b, b[i].item.id) == Some((i, b[i]));
      assert RowOf(a, b[i].item.id) == Some((i, b[i]));
    }
  }

  function FirstFor(us: seq<Upsert>, id: string): Option<Upsert> {
    if us == [] then None
    else
      var before := FirstFor(us[..|us| - 1], id);
      if before.Some? then before else if us[|us| - 1].item.id == id then Some(us[|us| - 1]) else None
  }

  function LastFor(us: seq<Upsert>, id: string): (u: Option<Upsert>)
    ensures u.Some? <==> FirstFor(us, id).Some?
  {
    if us == [] then None
    else if us[|us| - 1].item.id == id then Some(us[|us| - 1])
    else LastFor(us[..|us| - 1], id)
  }

  /**
   The row of `id` after the upserts of a batch: the last upsert wins, but a known item
   keeps its inode and drive, and a new one has the inode its first upsert came with.
   */
  function Expected(items: Items, tombstones: map<string, Tombstone>, driveId: string, us: seq<Upsert>,
                    id: string): Option<(Ino, Row)>
    requires UniqueIds(items)
  {
    var stored, last := RowOf(items, id), LastFor(us, id);
    if id in tombstones || last.None? then stored
    else if stored.Some? then Some((stored.value.0, Row(stored.value.1.driveId, last.value.parent, last.value.item)))
    else Some((FirstFor(us, id).value.inode, Row(driveId, last.value.parent, last.value.item)))
  }

  lemma InsertMeans(items: Items, driveId: string, u: Upsert, id: string)
    requires UniqueIds(items) && InsertRow(items, driveId, u).Ok?
    ensures RowOf(InsertRow(items, driveId, u).value, id) == (
      if id != u.item.id then RowOf(items, id)
      else if RowOf(items, id).Some? then
        var (ino, row) := RowOf(items, id).value;
        Some((ino, Row(row.driveId, u.parent, u.item)))
      else Some((u.inode, Row(driveId, u.parent, u.item))))
  {
    var t := InsertRow(items, driveId, u).value;
    var stored := InodeOf(items, u.item.id);
    var at := if stored.Some? then stored.value else u.inode;
    assert t[at].item.id == u.item.id;
    var i := InodeOf(items, id);
    if id != u.item.id && i.Some? {
      assert t[i.value] == items[i.value];
    }
  }

  /**
   An upsert gives a known item its new row at the inode and in the drive it already has, and a
   new one a row at the given inode; tombstoned items and all other rows stay as they are.
   */
  lemma UpsertedItemMeans(db: Db, driveId: string, u: Upsert, id: string)
    requires Sound(db)
    ensures Step(db, Upserted(driveId, u)).Err? <==>
      && u.item.id !in db.tombstones && u.inode in db.items
      && forall i :: i in db.items ==> db.items[i].item.id != u.item.id
    ensures var t, stored := After(db, Upserted(driveId, u)), RowOf(db.items, id);
      && t.tombstones == db.tombstones && t.tokens == db.tokens
      && (id != u.item.id || id in db.tombstones ==> RowOf(t.items, id) == stored)
      && (id == u.item.id && stored.Some? ==>
            RowOf(t.items, id) == Some((stored.value.0, Row(stored.value.1.driveId, u.parent, u.item))))
      && (id == u.item.id && stored.None? && id !in db.tombstones && u.inode !in db.items ==>
            RowOf(t.items, id) == Some((u.inode, Row(driveId, u.parent, u.item))))
  {
    if u.item.id !in db.tombstones && InsertRow(db.items, driveId, u).Ok? {
      InsertMeans(db.items, driveId, u, id);
    }
  }

  lemma {:induction false} UpsertAllMeans(items: Items, tombstones: map<string, Tombstone>, driveId: string,
                                          us: seq<Upsert>, id: string)
    requires UniqueIds(items) && UpsertAll(items, tombstones, driveId, us).Ok?
    ensures RowOf(UpsertAll(items, tombstones, driveId, us).value, id) == Expected(items, tombstones, driveId, us, id)
    decreases |us|
  {
    if us != [] {
      var n := |us| - 1;
      UpsertAllMeans(items, tombstones, driveId, us[..n], id);
      if us[n].item.id !in tombstones {
        InsertMeans(UpsertAll(items, tombstones, driveId, us[..n]).value, driveId, us[n], id);
      }
    }
  }

  lemma DeleteAllMeans(items: Items, ids: seq<string>, id: string)
    requires UniqueIds(items)
    ensures RowOf(DeleteAll(items, ids), id) == if id in ids then None else RowOf(items, id)
  {
    var i := InodeOf(items, id);
    if i.Some? && id !in ids {
      assert i.value in DeleteAll(items, ids);
    }
  }

  /** A batch that commits leaves exactly the expected row of every item that it does not delete, and the new token. */
  lemma AppliedBatchMeans(db: Db, driveId: string, us: seq<Upsert>, deleted: seq<string>, token: string, id: string)
    requires UniqueIds(db.items) && Step(db, Applied(driveId, us, deleted, token)).Ok?
    ensures var t := Step(db, Applied(driveId, us, deleted, token)).value;
      && RowOf(t.items, id) == (if id in deleted then None else Expected(db.items, db.tombstones, driveId, us, id))
      && (id in t.tombstones <==> id in db.tombstones && id !in deleted)
      && t.tokens == db.tokens[driveId := token]
  {
    UpsertAllMeans(db.items, db.tombstones, driveId, us, id);
    DeleteAllMeans(UpsertAll(db.items, db.tombstones, driveId, us).value, deleted, id);
  }

  // --------------------------------------------------- when a batch commits

  /** Upsert `n` of the batch makes a new row. */
  predicate Inserts(items: Items, tombstones: map<string, Tombstone>, us: seq<Upsert>, n: nat)
    requires UniqueIds(items) && n < |us|
  {
    && us[n].item.id !in tombstones
    && InodeOf(items, us[n].item.id).None?
    && FirstFor(us[..n], us[n].item.id).None?
  }

  /** The inodes of the new rows. */
  function NewInodes(items: Items, tombstones: map<string, Tombstone>, us: seq<Upsert>): set<Ino>
    requires UniqueIds(items)
  {
    if us == [] then {}
    else
      var n := |us| - 1;
      NewInodes(items, tombstones, us[..n]) + if Inserts(items, tombstones, us, n) then {us[n].inode} else {}
  }

  /** Every new row comes with an inode that is neither stored nor used by an earlier new row. */
  predicate ClashFree(items: Items, tombstones: map<string, Tombstone>, us: seq<Upsert>)
    requires UniqueIds(items)
  {
    us != [] ==>
      var n := |us| - 1;
      && ClashFree(items, tombstones, us[..n])
      && (Inserts(items, tombstones, us, n) ==>
            us[n].inode !in items && us[n].inode !in NewInodes(items, tombstones, us[..n]))
  }

  lemma {:induction false} CommitsExactlyWhenClashFree(items: Items, tombstones: map<string, Tombstone>,
                                                       driveId: string, us: seq<Upsert>)
    requires UniqueIds(items)
    ensures UpsertAll(items, tombstones, driveId, us).Ok? <==> ClashFree(items, tombstones, us)
    ensures UpsertAll(items, tombstones, driveId, us).Ok? ==>
      UpsertAll(items, tombstones, driveId, us).value.Keys == items.Keys + NewInodes(items, tombstones, us)
    decreases |us|
  {
    if us != [] {
      var n := |us| - 1;
      CommitsExactlyWhenClashFree(items, tombstones, driveId, us[..n]);
      if UpsertAll(items, tombstones, driveId, us[..n]).Ok? {
        UpsertAllMeans(items, tombstones, driveId, us[..n], us[n].item.id);
      }
    }
  }

  // ------------------------------------------------------------ idempotence

  /** Applying the same batch again leaves the items and the token as they are, whether or not it commits again. */
  lemma ApplyingTwiceChangesNothing(db: Db, driveId: string, us: seq<Upsert>, deleted: seq<string>, token: string)
    requires UniqueIds(db.items) && Step(db, Applied(driveId, us, deleted, token)).Ok?
    ensures var e := Applied(driveId, us, deleted, token);
      After(After(db, e), e).items == After(db, e).items && After(After(db, e), e).tokens == After(db, e).tokens
  {
    var e := Applied(driveId, us, deleted, token);
    var t := After(db, e);
    if Step(t, e).Ok? {
      var u := After(t, e);
      forall id ensures RowOf(u.items, id) == RowOf(t.items, id) {
        AppliedBatchMeans(db, driveId, us, deleted, token, id);
        AppliedBatchMeans(t, driveId, us, deleted, token, id);
      }
      SameRowsSameItems(u.items, t.items);
    }
  }

  // -------------------------------------------------------------- the class

  class SqliteStore {
    var items: Items
    var tombstones: map<string, Tombstone>
    var tokens: map<string, string>

    ghost function View(): Db
      reads this
    {
      Db(items, tombstones, tokens)
    }

    constructor ()
      ensures View() == EMPTY && Sound(View())
    {
      items, tombstones, tokens := map[], map[], map[];
    }

    method UpsertItem(inode: Ino, driveId: string, item: DriveItem, parent: Option<Ino>) returns (ok: bool)
      requires Sound(View())
      modifies this
      ensures View() == After(old(View()), Upserted(driveId, Upsert(inode, item, parent))) && Sound(View())
      ensures !ok <==> item.id !in tombstones && InodeOf(old(items), item.id).None? && inode in old(items)
    {
      StepKeepsDisjoint(View(), Upserted(driveId, Upsert(inode, item, parent)));
      if item.id in tombstones {
        return true;
      }
      var stored := InodeOf(items, item.id);
      if stored.Some? {
        items := items[stored.value := Row(items[stored.value].driveId, parent, item)];
      } else {
        if inode in items {
          return false;
        }
        items := items[inode := Row(driveId, parent, item)];
      }
      ok := true;
    }

    method DeleteItem(id: string)
      requires Sound(View())
      modifies this
      ensures View() == After(old(View()), Deleted(id)) && Sound(View())
      ensures forall i :: i in items <==> i in old(items) && old(items)[i].item.id != id
      ensures forall i :: i in items ==> items[i] == old(items)[i]
      ensures tombstones == old(tombstones) && tokens == old(tokens)
    {
      StepKeepsDisjoint(View(), Deleted(id));
      items := map i | i in items && items[i].item.id != id :: items[i];
    }

    method DeleteChildren(parent: Ino)
      requires Sound(View())
      modifies this
      ensures View() == After(old(View()), DeletedChildren(parent)) && Sound(View())
      ensures forall i :: i in items <==> i in old(items) && old(items)[i].parent != Some(parent)
      ensures forall i :: i in items ==> items[i] == old(items)[i]
      ensures tombstones == old(tombstones) && tokens == old(tokens)
    {
      StepKeepsDisjoint(View(), DeletedChildren(parent));
      items := map i | i in items && items[i].parent != Some(parent) :: items[i];
    }

    method DeleteWithTombstone(driveId: string, id: string, now: int)
      requires Sound(View())
      modifies this
      ensures View() == After(old(View()), DeletedLocally(driveId, id, now)) && Sound(View())
      ensures forall i :: i in items <==> i in old(items) && old(items)[i].item.id != id
      ensures forall i :: i in items ==> items[i] == old(items)[i]
      ensures tombstones == old(tombstones)[id := Tombstone(driveId, now)] && tokens == old(tokens)
    {
      StepKeepsDisjoint(View(), DeletedLocally(driveId, id, now));
      tombstones := tombstones[id := Tombstone(driveId, now)];
      items := map i | i in items && items[i].item.id != id :: items[i];
    }

    method IsTombstoned(id: string) returns (present: bool)
      requires Sound(View())
      ensures present <==> id in tombstones
      ensures present ==> InodeOf(items, id) == None
    {
      present := id in tombstones;
    }

    method RemoveTombstone(id: string)
      requires Sound(View())
      modifies this
      ensures View() == After(old(View()), Forgotten(id)) && Sound(View())
      ensures items == old(items) && tombstones == old(tombstones) - {id} && tokens == old(tokens)
    {
      StepKeepsDisjoint(View(), Forgotten(id));
      tombstones := tombstones - {id};
    }

    method PurgeTombstonesOlderThan(secs: nat, now: int) returns (removed: nat)
      requires Sound(View())
      modifies this
      ensures View() == After(old(View()), Purged(secs, now)) && Sound(View())
      ensures forall id :: id in tombstones <==> id in old(tombstones) && now - old(tombstones)[id].deletedAt <= secs
      ensures forall id :: id in tombstones ==> tombstones[id] == old(tombstones)[id]
      ensures items == old(items) && tokens == old(tokens)
      ensures removed + |tombstones| == |old(tombstones)|
    {
      StepKeepsDisjoint(View(), Purged(secs, now));
      var kept := map id | id in tombstones && tombstones[id].deletedAt >= now - secs :: tombstones[id];
      SubmapIsSmaller(kept, tombstones);
      removed := |tombstones| - |kept|;
      tombstones := kept;
    }

    method SetDeltaToken(driveId: string, token: string)
      requires Sound(View())
      modifies this
      ensures View() == After(old(View()), TokenSet(driveId, token)) && Sound(View())
      ensures items == old(items) && tombstones == old(tombstones) && tokens == old(tokens)[driveId := token]
    {
      StepKeepsDisjoint(View(), TokenSet(driveId, token));
      tokens := tokens[driveId := token];
    }

    method MaxInode() returns (max: Ino)
      ensures forall i :: i in items ==> i <= max
      ensures max == 0 || max in items
    {
      max := 0;
      var rest := items.Keys;
      while rest != {}
        invariant rest <= items.Keys && (max == 0 || max in items)
        invariant forall i :: i in items && i !in rest ==> i <= max
      {
        var i :| i in rest;
        rest := rest - {i};
        max := Max(max, i);
      }
    }

    method Clear()
      requires Sound(View())
      modifies this
      ensures View() == EMPTY && Sound(View())
      ensures items == map[] && tombstones == map[] && tokens == map[]
    {
      items, tombstones, tokens := map[], map[], map[];
    }

    /** One transaction: all of the batch and the token, or nothing. */
    method ApplyDelta(driveId: string, us: seq<Upsert>, deleted: seq<string>, token: string) returns (ok: bool)
      requires Sound(View())
      modifies this
      ensures View() == After(old(View()), Applied(driveId, us, deleted, token)) && Sound(View())
      ensures ok <==> ClashFree(old(items), old(tombstones), us)
      ensures !ok ==> View() == old(View())
    {
      StepKeepsDisjoint(View(), Applied(driveId, us, deleted, token));
      CommitsExactlyWhenClashFree(items, tombstones, driveId, us);
      var upserted := ApplyUpserts(driveId, us);
      if upserted.Err? {
        return false;
      }
      items := DeleteIds(upserted.value, deleted);
      tombstones := map id | id in tombstones && id !in deleted :: tombstones[id];
      tokens := tokens[driveId := token];
      ok := true;
    }

    method ApplyUpserts(driveId: string, us: seq<Upsert>) returns (r: Result<Items, DbError>)
      requires Sound(View())
      ensures r == UpsertAll(items, tombstones, driveId, us)
    {
      var work: Items := items;
      for n := 0 to |us|
        invariant UniqueIds(work) && UpsertAll(items, tombstones, driveId, us[..n]) == Ok(work)
      {
        assert us[..n + 1][..n] == us[..n];
        var u := us[n];
        if u.item.id in tombstones {
          continue;
        }
        var stored := InodeOf(work, u.item.id);
        if stored.Some? {
          work := work[stored.value := Row(work[stored.value].driveId, u.parent, u.item)];
        } else {
          if u.inode in work {
            ErrorsStay(items, tombstones, driveId, us, n + 1);
            return Err(InodeClash);
          }
          work := work[u.inode := Row(driveId, u.parent, u.item)];
        }
      }
      assert us[..|us|] == us;
      r := Ok(work);
    }
  }

  method DeleteIds(items: Items, ids: seq<string>) returns (r: Items)
    requires UniqueIds(items)
    ensures r == DeleteAll(items, ids)
  {
    r := items;
    for n := 0 to |ids|
      invariant r == DeleteAll(items, ids[..n])
    {
      assert ids[..n + 1][..n] == ids[..n];
      r := DeleteRow(r, ids[n]);
    }
    assert ids[..|ids|] == ids;
  }

  lemma {:induction false} ErrorsStay(items: Items, tombstones: map<string, Tombstone>, driveId: string,
                                      us: seq<Upsert>, n: nat)
    requires UniqueIds(items) && n <= |us| && UpsertAll(items, tombstones, driveId, us[..n]).Err?
    ensures UpsertAll(items, tombstones, driveId, us) == Err(InodeClash)
    decreases |us|
  {
    if n < |us| {
      assert us[..|us| - 1][..n] == us[..n];
      ErrorsStay(items, tombstones, driveId, us[..|us| - 1], n);
    } else {
      assert us[..n] == us;
      match UpsertAll(items, tombstones, driveId, us).error
      case InodeClash =>
    }
  }

  lemma SubmapIsSmaller<K, V>(a: map<K, V>, b: map<K, V>)
    requires a.Keys <= b.Keys
    ensures |a| <= |b|
  {
    SubsetIsSmaller(a.Keys, b.Keys);
    assert |a| == |a.Keys| && |b| == |b.Keys|;
  }

  lemma {:induction false} SubsetIsSmaller<K>(a: set<K>, b: set<K>)
    requires a <= b
    ensures |a| <= |b|
    decreases |a|
  {
    if a != {} {
      var k :| k in a;
      SubsetIsSmaller(a - {k}, b - {k});
    }
  }
}
