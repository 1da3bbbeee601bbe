/**
 Offline pins: which cached items a pin protects, and how complete a pinned folder is.

 The eviction filter climbs from an item to its ancestors. The health report descends
 from the pinned item. Times are in seconds.
 */
module PinStore {
  import opened Wrappers
  import opened ItemRows

  /** Drive and item id. */
  type Key = (string, string)

  datatype PinRecord = PinRecord(pinnedAt: nat, expiresAt: nat)

  type Pins = map<Key, PinRecord>

  const MAX_HOPS: nat := 50

  predicate Live(pins: Pins, key: Key, now: nat) {
    key in pins && pins[key].expiresAt > now
  }

  function OnPin(pins: Pins, key: Key, ttl: nat, now: nat): Pins {
    pins[key := PinRecord(now, now + ttl)]
  }

  /** A missing pin is not refreshed. */
  function OnRefresh(pins: Pins, key: Key, ttl: nat, now: nat): Pins {
    if key in pins then pins[key := pins[key].(expiresAt := now + ttl)] else pins
  }

  function OnUnpin(pins: Pins, key: Key): Pins {
    pins - {key}
  }

  /** All pins but one are what they were. */
  ghost predicate OthersKept(before: Pins, after: Pins, key: Key) {
    forall k :: k != key ==> (k in after <==> k in before) && (k in before ==> after[k] == before[k])
  }

  predicate PinnedAbove(items: Items, pins: Pins, driveId: string, ino: Ino, hops: nat, now: nat) {
    var a := Ancestor(items, ino, hops);
    a.Some? && Live(pins, (driveId, items[a.value].item.id), now)
  }

  /** The item itself is pinned, or one of its first fifty ancestors is. */
  ghost predicate Protected(items: Items, pins: Pins, key: Key, now: nat)
    requires UniqueIds(items)
  {
    || Live(pins, key, now)
    || (InodeOf(items, key.1).Some?
        && exists hops :: 1 <= hops <= MAX_HOPS
                          && PinnedAbove(items, pins, key.0, InodeOf(items, key.1).value, hops, now))
  }

  // ------------------------------------------------------- the subtree below

  ghost function SubtreeOf(items: Items, id: string): set<Ino>
    requires UniqueIds(items)
  {
    set i | i in items && InodeOf(items, id).Some? && Under(items, i, InodeOf(items, id).value)
  }

  /** The files below a pinned item, which a folder pin promises to keep. */
  ghost function FilesBelow(items: Items, id: string): set<Ino>
    requires UniqueIds(items)
  {
    set i | i in SubtreeOf(items, id) && !items[i].item.isFolder && items[i].item.id != id
  }

  ghost function CachedBelow(items: Items, cached: set<Key>, key: Key): set<Ino>
    requires UniqueIds(items)
  {
    set i | i in FilesBelow(items, key.1) && (key.0, items[i].item.id) in cached
  }

  datatype Health = Health(totalFiles: nat, cachedFiles: nat)

  ghost function HealthOf(items: Items, cached: set<Key>, key: Key): Health
    requires UniqueIds(items)
  {
    Health(|FilesBelow(items, key.1)|, |CachedBelow(items, cached, key)|)
  }

  /** Some live pin of the drive is the item itself or has it in its subtree. */
  ghost predicate Covered(items: Items, pins: Pins, key: Key, now: nat)
    requires UniqueIds(items)
  {
    || Live(pins, key, now)
    || exists top :: Covers(items, pins, key, top, now)
  }

  ghost predicate Covers(items: Items, pins: Pins, key: Key, top: string, now: nat)
    requires UniqueIds(items)
  {
    && Live(pins, (key.0, top), now)
    && InodeOf(items, key.1).Some?
    && InodeOf(items, key.1).value in SubtreeOf(items, top)
  }

  lemma ProtectedIsCovered(items: Items, pins: Pins, key: Key, now: nat)
    requires UniqueIds(items) && Protected(items, pins, key, now)
    ensures Covered(items, pins, key, now)
  {
    if !Live(pins, key, now) {
      var ino := InodeOf(items, key.1).value;
      var hops :| 1 <= hops <= MAX_HOPS && PinnedAbove(items, pins, key.0, ino, hops, now);
      var a := Ancestor(items, ino, hops).value;
      assert Reaches(items, ino, hops, a);
      assert InodeOf(items, items[a].item.id) == Some(a);
      assert Covers(items, pins, key, items[a].item.id, now);
    }
  }

  /** A pin within fifty hops above the item is found. */
  lemma CoveredNearbyIsProtected(items: Items, pins: Pins, key: Key, top: string, hops: nat, now: nat)
    requires UniqueIds(items) && Live(pins, (key.0, top), now) && hops <= MAX_HOPS
    requires InodeOf(items, key.1).Some? && InodeOf(items, top).Some?
    requires Ancestor(items, InodeOf(items, key.1).value, hops) == InodeOf(items, top)
    ensures Protected(items, pins, key, now)
  {
    var ino := InodeOf(items, key.1).value;
    assert PinnedAbove(items, pins, key.0, ino, hops, now);
    if hops == 0 {
      assert items[ino].item.id == top == key.1;
    }
  }

  /** Climbing and descending agree about an item that has at most fifty ancestors, in any table. */
  lemma ClimbingAgreesForShallowItems(items: Items, pins: Pins, key: Key, now: nat)
    requires UniqueIds(items)
    requires InodeOf(items, key.1).Some? ==> Ancestor(items, InodeOf(items, key.1).value, MAX_HOPS + 1) == None
    ensures Protected(items, pins, key, now) <==> Covered(items, pins, key, now)
  {
    if Protected(items, pins, key, now) {
      ProtectedIsCovered(items, pins, key, now);
    } else if Covered(items, pins, key, now) {
      var top :| Covers(items, pins, key, top, now);
      var ino := InodeOf(items, key.1).value;
      var hops: nat :| Reaches(items, ino, hops, InodeOf(items, top).value);
      if hops > MAX_HOPS {
        AncestorsEnd(items, ino, MAX_HOPS + 1, hops);
      }
      CoveredNearbyIsProtected(items, pins, key, top, hops, now);
    }
  }

  /** Climbing and descending agree in every forest of depth at most fifty, cached or not, pinned or not. */
  lemma ClimbingAgreesWithDescending(items: Items, pins: Pins, key: Key, now: nat)
    requires UniqueIds(items) && DepthAtMost(items, MAX_HOPS)
    ensures Protected(items, pins, key, now) <==> Covered(items, pins, key, now)
  {
    ClimbingAgreesForShallowItems(items, pins, key, now);
  }

  /** A pin on one row only, alive at time zero. */
  function OnlyPin(items: Items, driveId: string, top: Ino): Pins
    requires top in items
  {
    map[(driveId, items[top].item.id) := PinRecord(0, 1)]
  }

  /** A pin more than fifty hops up covers the item but does not protect it. */
  lemma FarPinDoesNotProtect(items: Items, depth: nat, driveId: string, ino: Ino, hops: nat, top: Ino)
    requires UniqueIds(items) && DepthAtMost(items, depth) && ino in items
    requires hops > MAX_HOPS && Ancestor(items, ino, hops) == Some(top)
    ensures var pins, key := OnlyPin(items, driveId, top), (driveId, items[ino].item.id);
      Covered(items, pins, key, 0) && !Protected(items, pins, key, 0)
  {
    var pins, key: Key := OnlyPin(items, driveId, top), (driveId, items[ino].item.id);
    assert InodeOf(items, key.1) == Some(ino) && InodeOf(items, items[top].item.id) == Some(top);
    assert Reaches(items, ino, hops, top);
    assert Covers(items, pins, key, items[top].item.id, 0);
    assert Ancestor(items, ino, 0) == Some(ino);
    AncestorsDiffer(items, depth, ino, 0, hops);
    forall near | 1 <= near <= MAX_HOPS ensures !PinnedAbove(items, pins, driveId, ino, near, 0) {
      if Ancestor(items, ino, near).Some? {
        AncestorsDiffer(items, depth, ino, near, hops);
      }
    }
  }

  ghost predicate AlwaysAgree(items: Items, key: Key)
    requires UniqueIds(items)
  {
    forall pins, now :: Protected(items, pins, key, now) <==> Covered(items, pins, key, now)
  }

  /**
   In any table without cycles, however deep: climbing and descending agree about an item,
   whatever is pinned, exactly when it has no 51st ancestor.
   */
  lemma ClimbingAgreesExactly(items: Items, depth: nat, driveId: string, ino: Ino)
    requires UniqueIds(items) && DepthAtMost(items, depth) && ino in items
    ensures AlwaysAgree(items, (driveId, items[ino].item.id)) <==> Ancestor(items, ino, 51) == None
  {
    var key: Key := (driveId, items[ino].item.id);
    assert InodeOf(items, key.1) == Some(ino);
    var far := Ancestor(items, ino, MAX_HOPS + 1);
    if far == None {
      forall pins, now ensures Protected(items, pins, key, now) <==> Covered(items, pins, key, now) {
        ClimbingAgreesForShallowItems(items, pins, key, now);
      }
    } else {
      FarPinDoesNotProtect(items, depth, driveId, ino, MAX_HOPS + 1, far.value);
      assert Protected(items, OnlyPin(items, driveId, far.value), key, 0) !=
             Covered(items, OnlyPin(items, driveId, far.value), key, 0);
    }
  }

  /**
   The report of a pin counts the files strictly below the pinned item, and those of them
   that are in the cache under the drive of the pin.
   */
  lemma HealthCountsFilesBelow(items: Items, depth: nat, cached: set<Key>, key: Key, files: set<Ino>,
                               present: set<Ino>)
    requires UniqueIds(items) && DepthAtMost(items, depth)
    requires forall i :: i in files <==>
      && i in items && !items[i].item.isFolder
      && exists top, hops :: hops >= 1 && Reaches(items, i, hops, top) && items[top].item.id == key.1
    requires forall i :: i in present <==> i in files && (key.0, items[i].item.id) in cached
    ensures HealthOf(items, cached, key) == Health(|files|, |present|)
  {
    forall i ensures i in files <==> i in FilesBelow(items, key.1) {
      if top, hops :| hops >= 1 && Reaches(items, i, hops, top) && items[top].item.id == key.1 {
        assert InodeOf(items, key.1) == Some(top);
        assert i == top ==> Ancestor(items, i, 0) == Some(top);
        if i == top {
          NoCycles(items, depth, i, hops);
        }
      }
      if i in FilesBelow(items, key.1) {
        var top := InodeOf(items, key.1).value;
        var hops :| Reaches(items, i, hops, top);
        assert Ancestor(items, i, 0) == Some(i);
      }
    }
    assert files == FilesBelow(items, key.1);
    assert present == CachedBelow(items, cached, key);
  }

  // ------------------------------------------------- a table that is too deep

  function ChainId(i: nat): (id: string)
    ensures |id| == i
  {
    seq(i, _ => 'x')
  }

  /** Folders 0 to n - 1, each in the one before it, with a file n at the end. */
  function Chain(n: nat): Items {
    map i: nat | 0 <= i <= n ::
      Row("d", if i == 0 then None else Some(i - 1), DriveItem(ChainId(i), "n", 0, i < n, None, None))
  }

  /** What is needed of the chain, row by row. */
  ghost predicate IsChain(items: Items, n: nat) {
    && (forall i: Ino :: i in items <==> i <= n)
    && (forall i: Ino :: i in items ==> items[i].item.id == ChainId(i) && items[i].item.isFolder == (i < n))
    && (forall i: Ino :: i in items ==> items[i].parent == if i == 0 then None else Some(i - 1))
  }

  lemma ChainIsUnique(items: Items, n: nat)
    requires IsChain(items, n)
    ensures UniqueIds(items)
  {
    forall a, b | a in items && b in items && items[a].item.id == items[b].item.id
      ensures a == b
    {
      assert |ChainId(a)| == |ChainId(b)|;
    }
  }

  lemma ChainInode(items: Items, n: nat, i: Ino)
    requires IsChain(items, n) && UniqueIds(items) && i <= n
    ensures InodeOf(items, ChainId(i)) == Some(i)
  {
    assert items[i].item.id == ChainId(i);
  }

  lemma {:induction false} ChainAncestors(items: Items, n: nat, i: nat, hops: nat)
    requires IsChain(items, n) && hops <= i <= n
    ensures Ancestor(items, i, hops) == Some(i - hops)
    decreases hops
  {
    if hops > 0 {
      ChainAncestors(items, n, i, hops - 1);
    }
  }

  lemma ChainDepth(items: Items, n: nat)
    requires IsChain(items, n)
    ensures DepthAtMost(items, n)
  {
    forall i | i in items ensures Ancestor(items, i, n + 1) == None {
      ChainAncestors(items, n, i, i);
      assert ParentOf(items, 0) == None;
      AncestorsEnd(items, i, i + 1, n + 1);
    }
  }

  const TOP_PINNED: Pins := map[("d", "") := PinRecord(0, 1)]

  lemma ChainFiles(items: Items, n: nat)
    requires IsChain(items, n) && UniqueIds(items) && n > 0
    ensures FilesBelow(items, "") == {n}
  {
    assert ChainId(0) == "";
    ChainInode(items, n, 0);
    ChainAncestors(items, n, n, n);
    assert Reaches(items, n, n, 0);
    assert n in SubtreeOf(items, "");
    assert |ChainId(n)| > 0;
  }

  lemma ChainHealth(items: Items, n: nat)
    requires IsChain(items, n) && UniqueIds(items) && FilesBelow(items, "") == {n}
    ensures HealthOf(items, {("d", ChainId(n))}, ("d", "")) == Health(1, 1)
    ensures HealthOf(items, {}, ("d", "")) == Health(1, 0)
  {
    var key: Key := ("d", ChainId(n));
    assert items[n].item.id == ChainId(n);
    assert CachedBelow(items, {key}, ("d", "")) == {n};
    assert CachedBelow(items, {}, ("d", "")) == {};
  }

  /**
   Such tables exist: with the top folder of a chain of more than fifty pinned, health
   counts the file at its end, which eviction does not protect.
   */
  lemma DeeperTreesDisagree(n: nat)
    requires n > 50
    ensures UniqueIds(Chain(n)) && DepthAtMost(Chain(n), n)
    ensures var key := ("d", ChainId(n));
      && !Protected(Chain(n), TOP_PINNED, key, 0) && Covered(Chain(n), TOP_PINNED, key, 0)
      && HealthOf(Chain(n), {key}, ("d", "")) == Health(1, 1) && HealthOf(Chain(n), {}, ("d", "")) == Health(1, 0)
  {
    assert IsChain(Chain(n), n);
    ChainIsUnique(Chain(n), n);
    ChainDepth(Chain(n), n);
    ChainAncestors(Chain(n), n, n, n);
    assert Chain(n)[0].item.id == ChainId(0) == "" && Chain(n)[n].item.id == ChainId(n);
    FarPinDoesNotProtect(Chain(n), n, "d", n, n, 0);
    ChainFiles(Chain(n), n);
    ChainHealth(Chain(n), n);
  }

  // ------------------------------------------------------------- the store

  /** The rows whose parent is in `level`: one round of the recursive query. */
  function Children(items: Items, level: set<Ino>): set<Ino> {
    set c | c in items && items[c].parent.Some? && items[c].parent.value in level
  }

  /** The rows `hops` steps below `top`. */
  ghost function LevelBelow(items: Items, top: Ino, hops: nat): set<Ino> {
    set i | i in items && Reaches(items, i, hops, top)
  }

  lemma ChildrenAreTheNextLevel(items: Items, top: Ino, hops: nat)
    ensures Children(items, LevelBelow(items, top, hops)) == LevelBelow(items, top, hops + 1)
  {
    forall i | i in items
      ensures i in Children(items, LevelBelow(items, top, hops)) <==> i in LevelBelow(items, top, hops + 1)
    {
      if ParentOf(items, i).Some? {
        AncestorOfParent(items, i, hops);
      } else {
        NoAncestorOfRoots(items, i, hops);
      }
    }
  }

  ghost function LevelsBelow(items: Items, top: Ino, levels: nat): set<Ino> {
    if levels == 0 then {} else LevelsBelow(items, top, levels - 1) + LevelBelow(items, top, levels - 1)
  }

  ghost predicate ReachesWithin(items: Items, i: Ino, levels: nat, top: Ino) {
    exists hops: nat :: hops < levels && Reaches(items, i, hops, top)
  }

  lemma {:induction false} LevelsBelowAre(items: Items, top: Ino, levels: nat, i: Ino)
    ensures i in LevelsBelow(items, top, levels) <==> i in items && ReachesWithin(items, i, levels, top)
    decreases levels
  {
    if levels > 0 {
      LevelsBelowAre(items, top, levels - 1, i);
      assert ReachesWithin(items, i, levels, top) <==>
             ReachesWithin(items, i, levels - 1, top) || Reaches(items, i, levels - 1, top);
    }
  }

  lemma LevelsBelowAreTheSubtree(items: Items, top: Ino, levels: nat, depth: nat)
    requires DepthAtMost(items, depth) && levels > depth
    ensures forall i :: i in LevelsBelow(items, top, levels) <==> i in items && Under(items, i, top)
  {
    forall i ensures i in LevelsBelow(items, top, levels) <==> i in items && Under(items, i, top) {
      LevelsBelowAre(items, top, levels, i);
      UnderIsWithinDepth(items, i, top, levels, depth);
    }
  }

  lemma UnderIsWithinDepth(items: Items, i: Ino, top: Ino, levels: nat, depth: nat)
    requires DepthAtMost(items, depth) && levels > depth
    ensures Under(items, i, top) <==> ReachesWithin(items, i, levels, top)
  {
    if Under(items, i, top) {
      var hops :| Reaches(items, i, hops, top);
      HopsWithinDepth(items, depth, i, hops);
    }
  }

  lemma EmptyLevelIsLast(items: Items, top: Ino, levels: nat, more: nat)
    requires LevelBelow(items, top, levels) == {}
    ensures LevelsBelow(items, top, levels + more) == LevelsBelow(items, top, levels)
    ensures LevelBelow(items, top, levels + more) == {}
    decreases more
  {
    if more > 0 {
      EmptyLevelIsLast(items, top, levels, more - 1);
      ChildrenAreTheNextLevel(items, top, levels + more - 1);
    }
  }

  lemma TopLevel(items: Items, top: Ino)
    requires top in items
    ensures LevelBelow(items, top, 0) == {top}
  {
    assert forall i :: i in items ==> Ancestor(items, i, 0) == Some(i);
  }

  method Descend(items: Items, top: Ino, ghost depth: nat) returns (subtree: set<Ino>)
    requires top in items && DepthAtMost(items, depth)
    ensures forall i :: i in subtree <==> i in items && Under(items, i, top)
  {
    subtree := {};
    var level := {top};
    TopLevel(items, top);
    ghost var n := 0;
    while level != {}
      invariant level == LevelBelow(items, top, n)
      invariant subtree == LevelsBelow(items, top, n)
      decreases depth + 1 - n
    {
      LevelWithinDepth(items, top, n, depth);
      ChildrenAreTheNextLevel(items, top, n);
      subtree := subtree + level;
      level := Children(items, level);
      n := n + 1;
    }
    DescentIsComplete(items, top, n, depth);
  }

  lemma DescentIsComplete(items: Items, top: Ino, n: nat, depth: nat)
    requires DepthAtMost(items, depth) && LevelBelow(items, top, n) == {}
    ensures forall i :: i in LevelsBelow(items, top, n) <==> i in items && Under(items, i, top)
  {
    EmptyLevelIsLast(items, top, n, depth + 1);
    LevelsBelowAreTheSubtree(items, top, n + (depth + 1), depth);
  }

  lemma LevelWithinDepth(items: Items, top: Ino, n: nat, depth: nat)
    requires DepthAtMost(items, depth)
    ensures LevelBelow(items, top, n) != {} ==> n <= depth
  {
    if LevelBelow(items, top, n) != {} {
      var i :| i in LevelBelow(items, top, n);
      HopsWithinDepth(items, depth, i, n);
    }
  }

  /** The recursive query. On a cyclic table it would not end. */
  method Subtree(items: Items, id: string, ghost depth: nat) returns (subtree: set<Ino>)
    requires UniqueIds(items) && DepthAtMost(items, depth)
    ensures subtree == SubtreeOf(items, id)
  {
    subtree := {};
    var top := InodeOf(items, id);
    if top.Some? {
      subtree := Descend(items, top.value, depth);
    }
  }

  class Store {
    var pins: Pins

    constructor ()
      ensures pins == map[]
    {
      pins := map[];
    }

    /** The pin lives for `ttl` seconds from now, whatever it was before. */
    method Pin(key: Key, ttl: nat, now: nat)
      modifies this
      ensures key in pins && pins[key].pinnedAt == now && OthersKept(old(pins), pins, key)
      ensures forall t: nat :: Live(pins, key, t) <==> t < now + ttl
      ensures pins == OnPin(old(pins), key, ttl, now)
    {
      pins := pins[key := PinRecord(now, now + ttl)];
    }

    /**
     An existing pin lives for `ttl` seconds from now, and remembers when it was made; a
     missing one stays missing.
     */
    method UpdateExpiresAt(key: Key, ttl: nat, now: nat)
      modifies this
      ensures OthersKept(old(pins), pins, key) && (key in pins <==> key in old(pins))
      ensures key in pins ==> pins[key].pinnedAt == old(pins)[key].pinnedAt
      ensures forall t: nat :: Live(pins, key, t) <==> key in old(pins) && t < now + ttl
      ensures pins == OnRefresh(old(pins), key, ttl, now)
    {
      if key in pins {
        pins := pins[key := pins[key].(expiresAt := now + ttl)];
      }
    }

    /** The pin is never live again. */
    method Unpin(key: Key)
      modifies this
      ensures OthersKept(old(pins), pins, key)
      ensures forall t :: !Live(pins, key, t)
      ensures pins == OnUnpin(old(pins), key)
    {
      pins := pins - {key};
    }

    method IsPinned(key: Key, now: nat) returns (pinned: bool)
      ensures pinned <==> Live(pins, key, now)
    {
      pinned := key in pins && pins[key].expiresAt > now;
    }

    /** A pin is expired exactly when it is in the table and not live. */
    method ListExpired(now: nat) returns (expired: set<Key>)
      ensures forall key :: key in expired <==> key in pins && !Live(pins, key, now)
      ensures forall key :: key in expired <==> key in pins && pins[key].expiresAt <= now
    {
      expired := set key | key in pins && pins[key].expiresAt <= now;
    }

    /** The eviction filter. */
    method IsProtected(items: Items, key: Key, now: nat) returns (isProtected: bool)
      requires UniqueIds(items)
      ensures isProtected <==> Protected(items, pins, key, now)
    {
      var direct := IsPinned(key, now);
      if direct {
        return true;
      }
      var currentId := key.1;
      for hop := 0 to MAX_HOPS
        invariant InodeOf(items, key.1).None? ==> hop == 0 && currentId == key.1
        invariant InodeOf(items, key.1).Some? ==>
          Ancestor(items, InodeOf(items, key.1).value, hop) == InodeOf(items, currentId)
        invariant InodeOf(items, key.1).Some? ==> InodeOf(items, currentId).Some?
        invariant InodeOf(items, key.1).Some? ==>
          forall h :: 1 <= h <= hop ==> !PinnedAbove(items, pins, key.0, InodeOf(items, key.1).value, h, now)
      {
        var child := InodeOf(items, currentId);
        var parent := if child.Some? then ParentOf(items, child.value) else None;
        if parent.None? {
          if child.Some? {
            NoneAbove(items, key, hop, now);
          }
          return false;
        }
        var parentId := items[parent.value].item.id;
        assert InodeOf(items, parentId) == parent;
        var pinned := IsPinned((key.0, parentId), now);
        if pinned {
          assert PinnedAbove(items, pins, key.0, InodeOf(items, key.1).value, hop + 1, now);
          return true;
        }
        currentId := parentId;
      }
      return false;
    }

    lemma NoneAbove(items: Items, key: Key, hop: nat, now: nat)
      requires UniqueIds(items) && InodeOf(items, key.1).Some?
      requires Ancestor(items, InodeOf(items, key.1).value, hop + 1) == None
      ensures forall h :: hop < h ==> !PinnedAbove(items, pins, key.0, InodeOf(items, key.1).value, h, now)
    {
      forall h | hop < h ensures !PinnedAbove(items, pins, key.0, InodeOf(items, key.1).value, h, now) {
        AncestorsEnd(items, InodeOf(items, key.1).value, hop + 1, h);
      }
    }

    /** The report for one pin. */
    method HealthOfPin(items: Items, cached: set<Key>, key: Key, ghost depth: nat) returns (h: Health)
      requires UniqueIds(items) && DepthAtMost(items, depth)
      ensures h == HealthOf(items, cached, key)
    {
      var subtree := Subtree(items, key.1, depth);
      var files := set i | i in subtree && i in items && !items[i].item.isFolder && items[i].item.id != key.1;
      var present := set i | i in files && i in items && (key.0, items[i].item.id) in cached;
      assert files == FilesBelow(items, key.1);
      assert present == CachedBelow(items, cached, key);
      h := Health(|files|, |present|);
    }

    /** The report for every live pin, and for no other. */
    method Report(items: Items, cached: set<Key>, now: nat, ghost depth: nat) returns (report: map<Key, Health>)
      requires UniqueIds(items) && DepthAtMost(items, depth)
      ensures forall key :: key in report <==> Live(pins, key, now)
      ensures forall key :: key in report ==> report[key] == HealthOf(items, cached, key)
    {
      report := map[];
      var rest := set key | key in pins && pins[key].expiresAt > now;
      ghost var all := rest;
      while rest != {}
        invariant rest <= all
        invariant report.Keys == all - rest
        invariant forall key :: key in report ==> report[key] == HealthOf(items, cached, key)
      {
        var key :| key in rest;
        var h := HealthOfPin(items, cached, key, depth);
        report := report[key := h];
        rest := rest - {key};
      }
    }
  }

  /** While a pin lives, everything in its subtree with at most fifty ancestors is protected. */
  lemma PinProtectsItsSubtree(items: Items, pins: Pins, key: Key, id: string, now: nat)
    requires UniqueIds(items) && Live(pins, key, now)
    requires InodeOf(items, id).Some? && InodeOf(items, id).value in SubtreeOf(items, key.1)
    requires Ancestor(items, InodeOf(items, id).value, MAX_HOPS + 1) == None
    ensures Protected(items, pins, (key.0, id), now)
  {
    assert Covers(items, pins, (key.0, id), key.1, now);
    ClimbingAgreesForShallowItems(items, pins, (key.0, id), now);
  }

  /** The pin `top` reaches the item: it is pinned itself, or `top` is one of its first fifty ancestors. */
  ghost predicate PinReaches(items: Items, top: Key, key: Key)
    requires UniqueIds(items)
  {
    || top == key
    || (top.0 == key.0 && InodeOf(items, key.1).Some? && InodeOf(items, top.1).Some?
        && exists hops :: 1 <= hops <= MAX_HOPS
                          && Reaches(items, InodeOf(items, key.1).value, hops, InodeOf(items, top.1).value))
  }

  /** Protection is the union of what the live pins reach. */
  lemma ProtectedByAPin(items: Items, pins: Pins, key: Key, now: nat)
    requires UniqueIds(items)
    ensures Protected(items, pins, key, now) <==> exists top :: Live(pins, top, now) && PinReaches(items, top, key)
  {
    if Protected(items, pins, key, now) && !Live(pins, key, now) {
      var ino := InodeOf(items, key.1).value;
      var hops :| 1 <= hops <= MAX_HOPS && PinnedAbove(items, pins, key.0, ino, hops, now);
      var a := Ancestor(items, ino, hops).value;
      assert InodeOf(items, items[a].item.id) == Some(a);
      assert Reaches(items, ino, hops, a);
      assert PinReaches(items, (key.0, items[a].item.id), key);
    }
    if top :| Live(pins, top, now) && PinReaches(items, top, key) && top != key {
      var ino := InodeOf(items, key.1).value;
      var hops :| 1 <= hops <= MAX_HOPS && Reaches(items, ino, hops, InodeOf(items, top.1).value);
      assert PinnedAbove(items, pins, key.0, ino, hops, now);
    }
  }

  /** Changing one pin changes protection by what that pin reaches and by nothing else. */
  lemma OnePinChanges(items: Items, before: Pins, after: Pins, pin: Key, key: Key, t: nat)
    requires UniqueIds(items) && OthersKept(before, after, pin)
    ensures Protected(items, after, key, t) <==>
            Protected(items, before - {pin}, key, t) || (Live(after, pin, t) && PinReaches(items, pin, key))
  {
    var others := before - {pin};
    assert forall k :: k != pin ==> (Live(others, k, t) <==> Live(after, k, t));
    ProtectedByAPin(items, others, key, t);
    ProtectedByAPin(items, after, key, t);
  }

  /** Pinning protects exactly what the pin reaches, for exactly its time, beside what the other pins protect. */
  lemma PinningProtects(items: Items, pins: Pins, pin: Key, ttl: nat, now: nat, key: Key, t: nat)
    requires UniqueIds(items)
    ensures Protected(items, OnPin(pins, pin, ttl, now), key, t) <==>
            Protected(items, OnUnpin(pins, pin), key, t) || (t < now + ttl && PinReaches(items, pin, key))
  {
    OnePinChanges(items, pins, OnPin(pins, pin, ttl, now), pin, key, t);
  }

  /** Refreshing protects as pinning anew does, but only what was pinned. */
  lemma RefreshingProtects(items: Items, pins: Pins, pin: Key, ttl: nat, now: nat, key: Key, t: nat)
    requires UniqueIds(items)
    ensures Protected(items, OnRefresh(pins, pin, ttl, now), key, t) <==>
            Protected(items, if pin in pins then OnPin(pins, pin, ttl, now) else pins, key, t)
  {
    if pin in pins {
      OnePinChanges(items, pins, OnRefresh(pins, pin, ttl, now), pin, key, t);
      PinningProtects(items, pins, pin, ttl, now, key, t);
    }
  }

  /** Unpinning takes protection exactly from what no other live pin reaches. */
  lemma UnpinningUnprotects(items: Items, pins: Pins, pin: Key, key: Key, t: nat)
    requires UniqueIds(items)
    ensures Protected(items, OnUnpin(pins, pin), key, t) <==>
            exists top :: top != pin && Live(pins, top, t) && PinReaches(items, top, key)
    ensures Protected(items, pins, key, t) && !Protected(items, OnUnpin(pins, pin), key, t) ==>
            Live(pins, pin, t) && PinReaches(items, pin, key)
  {
    ProtectedByAPin(items, OnUnpin(pins, pin), key, t);
    ProtectedByAPin(items, pins, key, t);
    assert forall k :: Live(OnUnpin(pins, pin), k, t) <==> k != pin && Live(pins, k, t);
  }

  /** Without updates, protection only ends as time goes by. */
  lemma ProtectionFades(items: Items, pins: Pins, key: Key, now: nat, later: nat)
    requires UniqueIds(items) && now <= later && Protected(items, pins, key, later)
    ensures Protected(items, pins, key, now)
  {
    if !Live(pins, key, later) {
      var ino := InodeOf(items, key.1).value;
      var hops :| 1 <= hops <= MAX_HOPS && PinnedAbove(items, pins, key.0, ino, hops, later);
      assert PinnedAbove(items, pins, key.0, ino, hops, now);
    }
  }
}
