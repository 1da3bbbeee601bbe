/**
 Eviction with the filter that the cache manager wires in: which files of a pinned folder
 an eviction can take, and which it never takes.
 */
module PinnedEviction {
  import opened Wrappers
  import opened ItemRows
  import PS = PinStore
  import DC = DiskCache

  /** The filter asks about the n-th candidate at time `clock(n)`, when the pins are `pins(n)`. */
  ghost function PinFilter(items: Items, pins: nat -> PS.Pins, clock: nat -> nat): DC.Filter
    requires UniqueIds(items)
  {
    (n: nat, key: DC.Key) => PS.Protected(items, pins(n), key, clock(n))
  }

  /** One eviction, during which pins may come and go, and a pin. */
  datatype Eviction = Eviction(
    pins: nat -> PS.Pins, clock: nat -> nat, entries: DC.Entries, budget: nat, evicted: seq<DC.Key>, pin: PS.Key)

  ghost predicate Happens(items: Items, x: Eviction)
    requires UniqueIds(items)
  {
    DC.Evicts(x.entries, x.budget, PinFilter(items, x.pins, x.clock), x.evicted)
  }

  /** The pin is live each time the filter is asked. */
  ghost predicate StaysLive(x: Eviction) {
    forall n :: PS.Live(x.pins(n), x.pin, x.clock(n))
  }

  ghost function Before(items: Items, x: Eviction): set<Ino>
    requires UniqueIds(items)
  {
    PS.CachedBelow(items, x.entries.Keys, x.pin)
  }

  ghost function After(items: Items, x: Eviction): set<Ino>
    requires UniqueIds(items)
  {
    PS.CachedBelow(items, x.entries.Keys - DC.Set(x.evicted), x.pin)
  }

  /** What was evicted was below no pin when the filter was asked about it. */
  lemma EvictedWasUncovered(items: Items, x: Eviction, ino: Ino) returns (n: nat)
    requires UniqueIds(items) && Happens(items, x) && ino in items
    requires Ancestor(items, ino, PS.MAX_HOPS + 1) == None && (x.pin.0, items[ino].item.id) in x.evicted
    ensures !PS.Covered(items, x.pins(n), (x.pin.0, items[ino].item.id), x.clock(n))
  {
    var key: DC.Key := (x.pin.0, items[ino].item.id);
    n := DC.EvictedWasLetThrough(x.entries, x.budget, PinFilter(items, x.pins, x.clock), x.evicted, key);
    assert InodeOf(items, key.1) == Some(ino);
    PS.ClimbingAgreesForShallowItems(items, x.pins(n), key, x.clock(n));
  }

  /** No eviction takes a file with at most fifty ancestors from below a pin that is live each time it asks. */
  lemma ShallowFilesStay(items: Items, x: Eviction, ino: Ino)
    requires UniqueIds(items) && Happens(items, x) && StaysLive(x) && ino in Before(items, x)
    requires Ancestor(items, ino, PS.MAX_HOPS + 1) == None
    ensures ino in After(items, x)
  {
    var key: DC.Key := (x.pin.0, items[ino].item.id);
    assert InodeOf(items, key.1) == Some(ino);
    if key in x.evicted {
      var n := EvictedWasUncovered(items, x, ino);
      assert PS.Live(x.pins(n), x.pin, x.clock(n));
      assert PS.Covers(items, x.pins(n), key, x.pin.1, x.clock(n));
    }
  }

  /**
   For every forest of depth at most fifty, cache contents and budget, an eviction leaves
   the report of every pin that is live each time it asks as it was.
   */
  lemma EvictionKeepsPinnedFiles(items: Items, x: Eviction)
    requires UniqueIds(items) && DepthAtMost(items, PS.MAX_HOPS) && Happens(items, x) && StaysLive(x)
    ensures After(items, x) == Before(items, x)
    ensures PS.HealthOf(items, x.entries.Keys - DC.Set(x.evicted), x.pin) == PS.HealthOf(items, x.entries.Keys, x.pin)
  {
    forall ino | ino in Before(items, x) ensures ino in After(items, x) {
      ShallowFilesStay(items, x, ino);
    }
  }

  lemma SoleIsShortest(entries: DC.Entries, key: DC.Key, toFree: nat)
    requires key in entries && 0 < toFree <= entries[key].size
    ensures DC.IsShortestPrefix([key], [key], entries, toFree)
  {
    assert DC.SizeOf([key], entries) == entries[key].size && DC.SizeOf([key][..0], entries) == 0;
  }

  lemma SoleOrder(entries: DC.Entries, key: DC.Key)
    requires entries.Keys == {key}
    ensures DC.IsLruOrder([key], entries) && DC.TotalOf(entries) == entries[key].size
  {
    DC.TotalWithout(entries, key);
    assert entries - {key} == map[];
    assert DC.Set([key]) == {key};
  }

  /** A cache with one unprotected entry over budget loses it. */
  lemma SoleEntryIsEvicted(entries: DC.Entries, key: DC.Key, budget: nat, filter: DC.Filter)
    requires entries.Keys == {key} && 0 < budget < entries[key].size && !filter(0, key)
    ensures DC.Evicts(entries, budget, filter, [key])
  {
    var toFree := entries[key].size - budget;
    SoleOrder(entries, key);
    SoleIsShortest(entries, key, toFree);
    assert DC.Unprotected([key], filter) == [key] by {
      assert [key][..0] == [];
    }
    assert DC.EvictsInOrder([key], entries, filter, toFree, [key]);
  }

  /** Some eviction takes the cached file `ino` from below a live pin of the drive. */
  ghost predicate CanBeLost(items: Items, driveId: string, ino: Ino)
    requires UniqueIds(items)
  {
    exists x :: Loses(items, x, driveId, ino)
  }

  ghost predicate Loses(items: Items, x: Eviction, driveId: string, ino: Ino)
    requires UniqueIds(items)
  {
    Happens(items, x) && StaysLive(x) && x.pin.0 == driveId && ino in Before(items, x) && ino !in After(items, x)
  }

  /** The file alone in the cache, its only pin more than fifty hops up. */
  function FarPinned(items: Items, driveId: string, ino: Ino, top: Ino): Eviction
    requires ino in items && top in items
  {
    var key: DC.Key := (driveId, items[ino].item.id);
    Eviction(_ => PS.OnlyPin(items, driveId, top), _ => 0, map[key := DC.Entry(2, None, 0)], 1, [key],
             (driveId, items[top].item.id))
  }

  lemma DeepFileIsLost(items: Items, depth: nat, driveId: string, ino: Ino, hops: nat, top: Ino)
    requires UniqueIds(items) && DepthAtMost(items, depth) && ino in items && !items[ino].item.isFolder
    requires hops > PS.MAX_HOPS && Ancestor(items, ino, hops) == Some(top)
    ensures Loses(items, FarPinned(items, driveId, ino, top), driveId, ino)
  {
    var x := FarPinned(items, driveId, ino, top);
    var key: DC.Key := (driveId, items[ino].item.id);
    PS.FarPinDoesNotProtect(items, depth, driveId, ino, hops, top);
    SoleEntryIsEvicted(x.entries, key, 1, PinFilter(items, x.pins, x.clock));
    assert DC.Set([key]) == {key};
    assert Ancestor(items, ino, 0) == Some(ino);
    AncestorsDiffer(items, depth, ino, 0, hops);
    assert InodeOf(items, items[top].item.id) == Some(top);
    assert Reaches(items, ino, hops, top);
    assert ino in PS.SubtreeOf(items, items[top].item.id);
  }

  /**
   In any table without cycles, however deep: a file can be evicted from below a live pin
   exactly when it has a 51st ancestor.
   */
  lemma FilesCanBeLostExactly(items: Items, depth: nat, driveId: string, ino: Ino)
    requires UniqueIds(items) && DepthAtMost(items, depth) && ino in items && !items[ino].item.isFolder
    ensures CanBeLost(items, driveId, ino) <==> Ancestor(items, ino, 51).Some?
  {
    var far := Ancestor(items, ino, PS.MAX_HOPS + 1);
    if far.Some? {
      DeepFileIsLost(items, depth, driveId, ino, PS.MAX_HOPS + 1, far.value);
    } else if x :| Loses(items, x, driveId, ino) {
      ShallowFilesStay(items, x, ino);
    }
  }

  /** Such files exist: the only file of a pinned chain of folders, more than fifty levels down. */
  lemma DeepFilesAreEvicted(n: nat)
    requires n > 50
    ensures UniqueIds(PS.Chain(n))
    ensures var x := FarPinned(PS.Chain(n), "d", n, 0);
      && Loses(PS.Chain(n), x, "d", n)
      && PS.HealthOf(PS.Chain(n), x.entries.Keys, ("d", "")) == PS.Health(1, 1)
      && PS.HealthOf(PS.Chain(n), x.entries.Keys - DC.Set(x.evicted), ("d", "")) == PS.Health(1, 0)
  {
    PS.DeeperTreesDisagree(n);
    assert PS.IsChain(PS.Chain(n), n);
    PS.ChainAncestors(PS.Chain(n), n, n, n);
    DeepFileIsLost(PS.Chain(n), n, "d", n, n, 0);
    var key: DC.Key := ("d", PS.ChainId(n));
    var x := FarPinned(PS.Chain(n), "d", n, 0);
    assert x.entries.Keys == {key} && DC.Set(x.evicted) == {key};
    assert x.entries.Keys - {key} == {};
  }

  /** The file alone in the cache, its pin made when the filter has been asked once. */
  function LatePinned(items: Items, driveId: string, ino: Ino, id: string): Eviction
    requires ino in items
  {
    var key: DC.Key := (driveId, items[ino].item.id);
    Eviction(n => if n == 0 then map[] else map[(driveId, id) := PS.PinRecord(0, 1)], _ => 0,
             map[key := DC.Entry(2, None, 0)], 1, [key], (driveId, id))
  }

  lemma LoneFileGoes(items: Items, x: Eviction, ino: Ino)
    requires UniqueIds(items) && ino in items && ino in PS.FilesBelow(items, x.pin.1)
    requires x.entries.Keys == {(x.pin.0, items[ino].item.id)} && x.evicted == [(x.pin.0, items[ino].item.id)]
    ensures ino in Before(items, x) && ino !in After(items, x)
  {
    assert (x.pin.0, items[ino].item.id) in x.entries.Keys;
  }

  lemma UnpinnedAtFirst(items: Items, driveId: string, ino: Ino, id: string)
    requires UniqueIds(items) && ino in items
    ensures Happens(items, LatePinned(items, driveId, ino, id))
  {
    var x := LatePinned(items, driveId, ino, id);
    var key: DC.Key := (driveId, items[ino].item.id);
    assert x.pins(0) == map[] && !PS.Protected(items, map[], key, 0);
    SoleEntryIsEvicted(x.entries, key, 1, PinFilter(items, x.pins, x.clock));
  }

  /** A pin made when the eviction has asked about the file already comes too late, however shallow the file. */
  lemma LatePinLosesTheFile(items: Items, driveId: string, ino: Ino, id: string)
    requires UniqueIds(items) && ino in items && ino in PS.FilesBelow(items, id)
    ensures var x := LatePinned(items, driveId, ino, id);
      && Happens(items, x) && x.pin == (driveId, id)
      && (forall n :: n > 0 ==> PS.Live(x.pins(n), x.pin, x.clock(n)))
      && ino in Before(items, x) && ino !in After(items, x)
  {
    UnpinnedAtFirst(items, driveId, ino, id);
    LoneFileGoes(items, LatePinned(items, driveId, ino, id), ino);
  }
}
