/**
 The inode table: two maps that should be inverse to each other, and a counter.

 The first part is the table as a value, with the exact conditions under which each
 operation keeps the maps inverse. The second part is the class.
 */
module InodeTable {
  import opened Wrappers

  const ROOT_INODE: Ino := 1

  datatype Table = Table(inodeToItem: map<Ino, string>, itemToInode: map<string, Ino>, next: Ino)

  /** The two maps are inverse to each other. */
  ghost predicate Inverse(t: Table) {
    && (forall ino :: ino in t.inodeToItem ==>
          t.inodeToItem[ino] in t.itemToInode && t.itemToInode[t.inodeToItem[ino]] == ino)
    && (forall id :: id in t.itemToInode ==>
          t.itemToInode[id] in t.inodeToItem && t.inodeToItem[t.itemToInode[id]] == id)
  }

  /** The counter is above every inode in the table, and above the root. */
  ghost predicate Ahead(t: Table) {
    t.next > ROOT_INODE && forall ino :: ino in t.inodeToItem ==> ino < t.next
  }

  function StartingAfter(maxExisting: Ino): Table {
    Table(map[], map[], Max(maxExisting, ROOT_INODE) + 1)
  }

  function Bind(t: Table, ino: Ino, id: string): Table {
    t.(inodeToItem := t.inodeToItem[ino := id], itemToInode := t.itemToInode[id := ino])
  }

  function SeedAll(t: Table, pairs: seq<(Ino, string)>): Table {
    if pairs == [] then t else Bind(SeedAll(t, pairs[..|pairs| - 1]), pairs[|pairs| - 1].0, pairs[|pairs| - 1].1)
  }

  function OnAllocate(t: Table, id: string): Table {
    if id in t.itemToInode then t else Bind(t, t.next, id).(next := t.next + 1)
  }

  function Allocated(t: Table, id: string): Ino {
    if id in t.itemToInode then t.itemToInode[id] else t.next
  }

  function OnRemove(t: Table, id: string): Table {
    if id in t.itemToInode then
      t.(inodeToItem := t.inodeToItem - {t.itemToInode[id]}, itemToInode := t.itemToInode - {id})
    else t
  }

  function OnReassign(t: Table, ino: Ino, id: string): Table {
    var freed := if ino in t.inodeToItem then t.(itemToInode := t.itemToInode - {t.inodeToItem[ino]}) else t;
    Bind(freed, ino, id)
  }

  function OnSetRoot(t: Table, id: string): Table {
    Bind(t, ROOT_INODE, id)
  }

  // ------------------------------------------------------------- invariants

  lemma AllocateKeeps(t: Table, id: string)
    requires Inverse(t) && Ahead(t)
    ensures Inverse(OnAllocate(t, id)) && Ahead(OnAllocate(t, id))
    ensures Allocated(t, id) in OnAllocate(t, id).inodeToItem && OnAllocate(t, id).itemToInode[id] == Allocated(t, id)
    ensures id !in t.itemToInode ==> Allocated(t, id) !in t.inodeToItem
  {
  }

  lemma RemoveKeeps(t: Table, id: string)
    requires Inverse(t) && Ahead(t)
    ensures Inverse(OnRemove(t, id)) && Ahead(OnRemove(t, id))
    ensures id !in OnRemove(t, id).itemToInode
  {
  }

  /** Binding a pair keeps the maps inverse exactly when neither side is bound to something else. */
  lemma BindKeepsInverseExactly(t: Table, ino: Ino, id: string)
    requires Inverse(t)
    ensures Inverse(Bind(t, ino, id)) <==>
            (id in t.itemToInode ==> t.itemToInode[id] == ino) && (ino in t.inodeToItem ==> t.inodeToItem[ino] == id)
  {
    var u := Bind(t, ino, id);
    if id in t.itemToInode && t.itemToInode[id] != ino {
      var other := t.itemToInode[id];
      assert other in u.inodeToItem && u.inodeToItem[other] == id && u.itemToInode[id] == ino;
    }
    if ino in t.inodeToItem && t.inodeToItem[ino] != id {
      var other := t.inodeToItem[ino];
      assert other in u.itemToInode && u.itemToInode[other] == ino && u.inodeToItem[ino] == id;
    }
  }

  /** `set_root` keeps the maps inverse exactly when neither the root inode nor the id is bound elsewhere. */
  lemma SetRootKeepsInverseExactly(t: Table, id: string)
    requires Inverse(t)
    ensures Inverse(OnSetRoot(t, id)) <==>
            && (id in t.itemToInode ==> t.itemToInode[id] == ROOT_INODE)
            && (ROOT_INODE in t.inodeToItem ==> t.inodeToItem[ROOT_INODE] == id)
  {
    BindKeepsInverseExactly(t, ROOT_INODE, id);
  }

  /** `reassign` keeps the maps inverse exactly when the new id is not bound to another inode. */
  lemma ReassignKeepsInverseExactly(t: Table, ino: Ino, id: string)
    requires Inverse(t)
    ensures Inverse(OnReassign(t, ino, id)) <==> (id in t.itemToInode ==> t.itemToInode[id] == ino)
  {
    var u := OnReassign(t, ino, id);
    if id in t.itemToInode && t.itemToInode[id] != ino {
      var other := t.itemToInode[id];
      assert other in u.inodeToItem && u.inodeToItem[other] == id && u.itemToInode[id] == ino;
    }
  }

  /** A file that gets its server id after a sync has already seen that id under another inode breaks the table. */
  lemma ReassignToASeenIdBreaksInverse()
    ensures var t := Table(map[2 := "local:1", 3 := "A"], map["local:1" := 2, "A" := 3], 4);
      Inverse(t) && !Inverse(OnReassign(t, 2, "A"))
  {
    var t := Table(map[2 := "local:1", 3 := "A"], map["local:1" := 2, "A" := 3], 4);
    ReassignKeepsInverseExactly(t, 2, "A");
  }

  ghost function Inodes(pairs: seq<(Ino, string)>): set<Ino> {
    set i | 0 <= i < |pairs| :: pairs[i].0
  }

  ghost function Ids(pairs: seq<(Ino, string)>): set<string> {
    set i | 0 <= i < |pairs| :: pairs[i].1
  }

  /** Pairs as SQLite stores them: no inode and no id twice. */
  ghost predicate OneToOne(pairs: seq<(Ino, string)>) {
    pairs != [] ==>
      var front, last := pairs[..|pairs| - 1], pairs[|pairs| - 1];
      OneToOne(front) && last.0 !in Inodes(front) && last.1 !in Ids(front)
  }

  /** `u` binds exactly the given pairs. */
  ghost predicate Binds(u: Table, pairs: seq<(Ino, string)>) {
    && Inverse(u)
    && u.inodeToItem.Keys == Inodes(pairs)
    && u.itemToInode.Keys == Ids(pairs)
    && forall i :: 0 <= i < |pairs| ==> BoundTo(u, pairs[i].0, pairs[i].1)
  }

  predicate BoundTo(u: Table, ino: Ino, id: string) {
    ino in u.inodeToItem && u.inodeToItem[ino] == id
  }

  lemma BindSnoc(u: Table, pairs: seq<(Ino, string)>, ino: Ino, id: string)
    requires Binds(u, pairs) && ino !in Inodes(pairs) && id !in Ids(pairs)
    ensures Binds(Bind(u, ino, id), pairs + [(ino, id)])
  {
    var all := pairs + [(ino, id)];
    BindKeepsInverseExactly(u, ino, id);
    assert all[|pairs|] == (ino, id);
    assert forall i :: 0 <= i < |pairs| ==> all[i] == pairs[i];
    assert Inodes(all) == Inodes(pairs) + {ino};
    assert Ids(all) == Ids(pairs) + {id};
    forall i | 0 <= i < |all| ensures BoundTo(Bind(u, ino, id), all[i].0, all[i].1) {
      if i < |pairs| {
        assert BoundTo(u, pairs[i].0, pairs[i].1);
      }
    }
  }

  /** Seeding a fresh table binds exactly the given pairs. */
  lemma {:induction false} SeedBinds(t: Table, pairs: seq<(Ino, string)>)
    requires t.inodeToItem == map[] && t.itemToInode == map[] && OneToOne(pairs)
    ensures Binds(SeedAll(t, pairs), pairs) && SeedAll(t, pairs).next == t.next
    decreases |pairs|
  {
    if pairs == [] {
      assert Inodes(pairs) == {} && Ids(pairs) == {};
    } else {
      var front, last := pairs[..|pairs| - 1], pairs[|pairs| - 1];
      SeedBinds(t, front);
      SeedSnoc(t, front, last);
      assert pairs == front + [last];
    }
  }

  lemma SeedSnoc(t: Table, front: seq<(Ino, string)>, last: (Ino, string))
    requires Binds(SeedAll(t, front), front) && last.0 !in Inodes(front) && last.1 !in Ids(front)
    ensures Binds(SeedAll(t, front + [last]), front + [last])
    ensures SeedAll(t, front + [last]).next == SeedAll(t, front).next
  {
    assert (front + [last])[..|front|] == front;
    BindSnoc(SeedAll(t, front), front, last.0, last.1);
  }

  /** A table resumed from storage is inverse, and its counter is above everything stored. */
  lemma ResumedTableIsSound(maxExisting: Ino, pairs: seq<(Ino, string)>)
    requires OneToOne(pairs) && forall i :: 0 <= i < |pairs| ==> pairs[i].0 <= maxExisting
    ensures Inverse(SeedAll(StartingAfter(maxExisting), pairs)) && Ahead(SeedAll(StartingAfter(maxExisting), pairs))
  {
    SeedBinds(StartingAfter(maxExisting), pairs);
  }

  // ------------------------------------------------------------------- runs

  datatype Event = Allocate(id: string) | Remove(id: string) | Reassign(ino: Ino, id: string) | SetRoot(id: string)

  function Step(t: Table, e: Event): Table {
    match e
    case Allocate(id) => OnAllocate(t, id)
    case Remove(id) => OnRemove(t, id)
    case Reassign(ino, id) => OnReassign(t, ino, id)
    case SetRoot(id) => OnSetRoot(t, id)
  }

  /** An inode that was handed out gets a free id, and the root its own: what keeps the maps inverse. */
  predicate Enabled(t: Table, e: Event) {
    match e
    case Reassign(ino, id) => ino < t.next && (id in t.itemToInode ==> t.itemToInode[id] == ino)
    case SetRoot(id) =>
      && (id in t.itemToInode ==> t.itemToInode[id] == ROOT_INODE)
      && (ROOT_INODE in t.inodeToItem ==> t.inodeToItem[ROOT_INODE] == id)
    case _ => true
  }

  function Run(t: Table, es: seq<Event>): Table
    decreases |es|
  {
    if es == [] then t else Run(Step(t, es[0]), es[1..])
  }

  predicate IsRun(t: Table, es: seq<Event>)
    decreases |es|
  {
    es != [] ==> Enabled(t, es[0]) && IsRun(Step(t, es[0]), es[1..])
  }

  lemma StepKeeps(t: Table, e: Event)
    requires Inverse(t) && Ahead(t) && Enabled(t, e)
    ensures Inverse(Step(t, e)) && Ahead(Step(t, e)) && Step(t, e).next >= t.next
  {
    match e
    case Allocate(id) => AllocateKeeps(t, id);
    case Remove(id) => RemoveKeeps(t, id);
    case Reassign(ino, id) => ReassignKeepsInverseExactly(t, ino, id);
    case SetRoot(id) => SetRootKeepsInverseExactly(t, id);
  }

  /** The inode is given to the id on purpose. */
  predicate Rebinds(es: seq<Event>, ino: Ino, id: string) {
    Reassign(ino, id) in es || (ino == ROOT_INODE && SetRoot(id) in es)
  }

  /** What a run does to the counter and to an inode once it is below the counter. */
  lemma {:induction false} RunKeeps(t: Table, es: seq<Event>, ino: Ino)
    requires Inverse(t) && Ahead(t) && IsRun(t, es) && ino < t.next
    ensures var u := Run(t, es);
      && Inverse(u) && Ahead(u) && u.next >= t.next
      && (ino in u.inodeToItem ==>
            BoundTo(t, ino, u.inodeToItem[ino]) || Rebinds(es, ino, u.inodeToItem[ino]))
    decreases |es|
  {
    if es != [] {
      StepKeeps(t, es[0]);
      RunKeeps(Step(t, es[0]), es[1..], ino);
      assert forall e :: e in es[1..] ==> e in es;
    }
  }

  /**
   Over every run of allocations, removals, reassignments and settings of the root the maps
   stay inverse, an inode is never handed out afresh twice, and it names another item than
   the one it was handed out for only where an event of the run gave it to that item.
   */
  lemma InodesAreNeverReused(t: Table, id: string, es: seq<Event>, other: string)
    requires Inverse(t) && Ahead(t) && IsRun(OnAllocate(t, id), es)
    ensures var u := Run(OnAllocate(t, id), es);
      && Inverse(u) && Ahead(u)
      && (Allocated(u, other) == Allocated(t, id) ==>
            other in u.itemToInode && (other == id || Rebinds(es, Allocated(t, id), other)))
  {
    AllocateKeeps(t, id);
    RunKeeps(OnAllocate(t, id), es, Allocated(t, id));
  }

  class InodeTable {
    var inodeToItem: map<Ino, string>
    var itemToInode: map<string, Ino>
    var nextInode: Ino

    ghost function View(): Table
      reads this
    {
      Table(inodeToItem, itemToInode, nextInode)
    }

    constructor NewStartingAfter(maxExisting: Ino)
      ensures View() == StartingAfter(maxExisting)
      ensures Inverse(View()) && Ahead(View()) && nextInode > maxExisting
    {
      inodeToItem, itemToInode := map[], map[];
      nextInode := (if maxExisting >= ROOT_INODE then maxExisting else ROOT_INODE) + 1;
    }

    method Seed(pairs: seq<(Ino, string)>)
      modifies this
      ensures View() == SeedAll(old(View()), pairs)
    {
      for i := 0 to |pairs|
        invariant View() == SeedAll(old(View()), pairs[..i])
      {
        inodeToItem := inodeToItem[pairs[i].0 := pairs[i].1];
        itemToInode := itemToInode[pairs[i].1 := pairs[i].0];
        assert pairs[..i + 1][..i] == pairs[..i];
      }
      assert pairs[..|pairs|] == pairs;
    }

    method Allocate(id: string) returns (ino: Ino)
      requires Inverse(View()) && Ahead(View())
      modifies this
      ensures View() == OnAllocate(old(View()), id) && ino == Allocated(old(View()), id)
      ensures Inverse(View()) && Ahead(View())
      ensures itemToInode[id] == ino && inodeToItem[ino] == id
      ensures id in old(itemToInode) ==> View() == old(View())
      ensures id !in old(itemToInode) ==>
        && ino == old(nextInode) && nextInode == ino + 1 && ino !in old(inodeToItem)
        && inodeToItem == old(inodeToItem)[ino := id] && itemToInode == old(itemToInode)[id := ino]
    {
      AllocateKeeps(View(), id);
      if id in itemToInode {
        return itemToInode[id];
      }
      ino := nextInode;
      nextInode := nextInode + 1;
      inodeToItem := inodeToItem[ino := id];
      itemToInode := itemToInode[id := ino];
    }

    method GetItemId(ino: Ino) returns (id: Option<string>)
      requires Inverse(View())
      ensures id.Some? <==> ino in inodeToItem
      ensures id.Some? ==> id.value in itemToInode && itemToInode[id.value] == ino
    {
      id := if ino in inodeToItem then Some(inodeToItem[ino]) else None;
    }

    method GetInode(id: string) returns (ino: Option<Ino>)
      requires Inverse(View())
      ensures ino.Some? <==> id in itemToInode
      ensures ino.Some? ==> ino.value in inodeToItem && inodeToItem[ino.value] == id
    {
      ino := if id in itemToInode then Some(itemToInode[id]) else None;
    }

    method RemoveByItemId(id: string)
      requires Inverse(View()) && Ahead(View())
      modifies this
      ensures View() == OnRemove(old(View()), id) && Inverse(View()) && Ahead(View())
      ensures id !in itemToInode && forall other :: other != id && other in old(itemToInode) ==>
                other in itemToInode && itemToInode[other] == old(itemToInode)[other]
      ensures itemToInode == old(itemToInode) - {id} && nextInode == old(nextInode)
    {
      RemoveKeeps(View(), id);
      if id in itemToInode {
        var ino := itemToInode[id];
        itemToInode := itemToInode - {id};
        inodeToItem := inodeToItem - {ino};
      }
    }

    method Reassign(ino: Ino, newId: string)
      modifies this
      ensures View() == OnReassign(old(View()), ino, newId)
      ensures old(Inverse(View())) ==>
        (Inverse(View()) <==> (newId in old(itemToInode) ==> old(itemToInode)[newId] == ino))
      ensures inodeToItem == old(inodeToItem)[ino := newId] && nextInode == old(nextInode)
      ensures newId in itemToInode && itemToInode[newId] == ino
      ensures forall id :: id != newId ==>
        (id in itemToInode <==> id in old(itemToInode) && !(ino in old(inodeToItem) && id == old(inodeToItem)[ino]))
        && (id in itemToInode ==> itemToInode[id] == old(itemToInode)[id])
    {
      if Inverse(View()) {
        ReassignKeepsInverseExactly(View(), ino, newId);
      }
      if ino in inodeToItem {
        itemToInode := itemToInode - {inodeToItem[ino]};
      }
      inodeToItem := inodeToItem[ino := newId];
      itemToInode := itemToInode[newId := ino];
    }

    method SetRoot(id: string)
      modifies this
      ensures View() == OnSetRoot(old(View()), id)
      ensures old(Inverse(View())) ==>
        (Inverse(View()) <==>
          && (id in old(itemToInode) ==> old(itemToInode)[id] == ROOT_INODE)
          && (ROOT_INODE in old(inodeToItem) ==> old(inodeToItem)[ROOT_INODE] == id))
      ensures inodeToItem == old(inodeToItem)[1 := id] && itemToInode == old(itemToInode)[id := 1]
      ensures nextInode == old(nextInode)
    {
      if Inverse(View()) {
        SetRootKeepsInverseExactly(View(), id);
      }
      inodeToItem := inodeToItem[ROOT_INODE := id];
      itemToInode := itemToInode[id := ROOT_INODE];
    }
  }
}
