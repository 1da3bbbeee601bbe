/** The `items` table: rows by inode, with unique item ids and parent links. */
module ItemRows {
  import opened Wrappers

  /** `parentId` is the id in the item's parent reference. */
  datatype DriveItem = DriveItem(
    id: string, name: string, size: int, isFolder: bool, etag: Option<string>, parentId: Option<string>)

  datatype Row = Row(driveId: string, parent: Option<Ino>, item: DriveItem)

  type Items = map<Ino, Row>

  /** The UNIQUE constraint on `item_id`. */
  ghost predicate UniqueIds(items: Items) {
    forall a, b :: a in items && b in items && items[a].item.id == items[b].item.id ==> a == b
  }

  function InodeOf(items: Items, id: string): (r: Option<Ino>)
    requires UniqueIds(items)
    ensures r.Some? ==> r.value in items && items[r.value].item.id == id
    ensures r.None? ==> forall i :: i in items ==> items[i].item.id != id
  {
    if exists i :: i in items && items[i].item.id == id then
      var i :| i in items && items[i].item.id == id;
      Some(i)
    else None
  }

  // ------------------------------------------------------------- ancestors

  /** The parent row, when it is in the table. */
  function ParentOf(items: Items, ino: Ino): Option<Ino> {
    if ino in items && items[ino].parent.Some? && items[ino].parent.value in items then items[ino].parent else None
  }

  /** `hops` steps up from `ino`. */
  function Ancestor(items: Items, ino: Ino, hops: nat): (a: Option<Ino>)
    ensures a.Some? ==> a.value in items
  {
    if hops == 0 then if ino in items then Some(ino) else None
    else
      var below := Ancestor(items, ino, hops - 1);
      if below.Some? then ParentOf(items, below.value) else None
  }

  /** No item has more than `depth` ancestors; in particular there are no cycles. */
  ghost predicate DepthAtMost(items: Items, depth: nat) {
    forall i :: i in items ==> Ancestor(items, i, depth + 1) == None
  }

  predicate Reaches(items: Items, ino: Ino, hops: nat, top: Ino) {
    Ancestor(items, ino, hops) == Some(top)
  }

  /** `ino` is `top` or a descendant of it. */
  ghost predicate Under(items: Items, ino: Ino, top: Ino) {
    exists hops :: Reaches(items, ino, hops, top)
  }

  /** The first hop can be taken first instead of last. */
  lemma {:induction false} AncestorOfParent(items: Items, ino: Ino, hops: nat)
    requires ParentOf(items, ino).Some?
    ensures Ancestor(items, ino, hops + 1) == Ancestor(items, ParentOf(items, ino).value, hops)
    decreases hops
  {
    if hops == 0 {
      assert Ancestor(items, ino, 0) == Some(ino);
    } else {
      AncestorOfParent(items, ino, hops - 1);
    }
  }

  lemma {:induction false} NoAncestorOfRoots(items: Items, ino: Ino, hops: nat)
    requires ParentOf(items, ino).None?
    ensures Ancestor(items, ino, hops + 1) == None
    decreases hops
  {
    if hops == 0 {
      assert Ancestor(items, ino, 0).Some? ==> Ancestor(items, ino, 0) == Some(ino);
    } else {
      NoAncestorOfRoots(items, ino, hops - 1);
    }
  }

  lemma {:induction false} AncestorsEnd(items: Items, ino: Ino, lo: nat, hi: nat)
    requires lo <= hi && Ancestor(items, ino, lo) == None
    ensures Ancestor(items, ino, hi) == None
    decreases hi
  {
    if lo < hi {
      AncestorsEnd(items, ino, lo, hi - 1);
    }
  }

  lemma HopsWithinDepth(items: Items, depth: nat, ino: Ino, hops: nat)
    requires DepthAtMost(items, depth)
    ensures Ancestor(items, ino, hops).Some? ==> hops <= depth
  {
    if hops > depth {
      AncestorsEnd(items, ino, if ino in items then depth + 1 else 0, hops);
    }
  }

  /** Hops add up. */
  lemma {:induction false} AncestorOfAncestor(items: Items, ino: Ino, first: nat, more: nat)
    requires Ancestor(items, ino, first).Some?
    ensures Ancestor(items, ino, first + more) == Ancestor(items, Ancestor(items, ino, first).value, more)
    decreases more
  {
    var mid := Ancestor(items, ino, first).value;
    if more == 0 {
      assert Ancestor(items, mid, 0) == Some(mid);
    } else {
      AncestorOfAncestor(items, ino, first, more - 1);
    }
  }

  /** Going round a cycle takes as many hops as one likes. */
  lemma {:induction false} CyclesGoOn(items: Items, a: Ino, length: nat, rounds: nat) returns (hops: nat)
    requires a in items && length > 0 && Ancestor(items, a, length) == Some(a)
    ensures hops >= rounds && Ancestor(items, a, hops) == Some(a)
    decreases rounds
  {
    if rounds == 0 {
      hops := 0;
    } else {
      var fewer := CyclesGoOn(items, a, length, rounds - 1);
      AncestorOfAncestor(items, a, fewer, length);
      hops := fewer + length;
    }
  }

  lemma NoCycles(items: Items, depth: nat, a: Ino, length: nat)
    requires DepthAtMost(items, depth) && a in items && length > 0
    ensures Ancestor(items, a, length) != Some(a)
  {
    if Ancestor(items, a, length) == Some(a) {
      var hops := CyclesGoOn(items, a, length, depth + 1);
      HopsWithinDepth(items, depth, a, hops);
    }
  }

  /** Without cycles, different numbers of hops lead to different ancestors. */
  lemma AncestorsDiffer(items: Items, depth: nat, ino: Ino, near: nat, far: nat)
    requires DepthAtMost(items, depth) && near < far
    requires Ancestor(items, ino, near).Some?
    ensures Ancestor(items, ino, near) != Ancestor(items, ino, far)
  {
    AncestorOfAncestor(items, ino, near, far - near);
    NoCycles(items, depth, Ancestor(items, ino, near).value, far - near);
  }
}
