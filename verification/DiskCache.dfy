/**
 The disk cache: content files, the tracker table, and eviction of the least recently
 used entries that no filter protects.

 Times are in seconds, so entries may tie; the tracker orders ties as it likes. File
 operations succeed here; a file whose deletion fails during eviction is not modelled.
 */
module DiskCache {
  import opened Wrappers
  import opened ByteSeqs

  /** Drive and item id. */
  type Key = (string, string)

  datatype Entry = Entry(size: nat, etag: Option<string>, lastAccess: nat)

  type Entries = map<Key, Entry>

  /** What the eviction filter answers when asked about the n-th candidate. */
  type Filter = (nat, Key) -> bool

  // ------------------------------------------------------------------ sizes

  ghost function TotalOf(entries: Entries): nat {
    if entries == map[] then 0
    else
      var key :| key in entries;
      entries[key].size + TotalOf(entries - {key})
  }

  lemma {:induction false} TotalWithout(entries: Entries, key: Key)
    requires key in entries
    ensures TotalOf(entries) == entries[key].size + TotalOf(entries - {key})
    decreases |entries|
  {
    var first :| first in entries && TotalOf(entries) == entries[first].size + TotalOf(entries - {first});
    if first != key {
      TotalWithout(entries - {first}, key);
      TotalWithout(entries - {key}, first);
      assert entries - {first} - {key} == entries - {key} - {first};
    }
  }

  function SizeOf(keys: seq<Key>, entries: Entries): nat
    requires forall k :: k in keys ==> k in entries
  {
    if keys == [] then 0 else SizeOf(keys[..|keys| - 1], entries) + entries[keys[|keys| - 1]].size
  }

  lemma SizeSnoc(keys: seq<Key>, key: Key, entries: Entries)
    requires key in entries && forall k :: k in keys ==> k in entries
    ensures forall k :: k in keys + [key] ==> k in entries
    ensures (keys + [key])[..|keys|] == keys
    ensures SizeOf(keys + [key], entries) == SizeOf(keys, entries) + entries[key].size
  {
    assert (keys + [key])[..|keys|] == keys;
  }

  predicate Distinct(keys: seq<Key>) {
    forall i, j :: 0 <= i < j < |keys| ==> keys[i] != keys[j]
  }

  ghost function Set(keys: seq<Key>): set<Key> {
    set k | k in keys
  }

  lemma {:induction false} TotalWithoutAll(entries: Entries, keys: seq<Key>)
    requires Distinct(keys) && forall k :: k in keys ==> k in entries
    ensures TotalOf(entries) == SizeOf(keys, entries) + TotalOf(entries - Set(keys))
    decreases |keys|
  {
    if keys == [] {
      assert entries - Set(keys) == entries;
    } else {
      var n := |keys| - 1;
      TotalWithoutAll(entries, keys[..n]);
      assert keys == keys[..n] + [keys[n]];
      assert Set(keys) == Set(keys[..n]) + {keys[n]};
      assert keys[n] in entries - Set(keys[..n]);
      TotalWithout(entries - Set(keys[..n]), keys[n]);
      assert entries - Set(keys[..n]) - {keys[n]} == entries - Set(keys);
    }
  }

  // --------------------------------------------------------------- the order

  /** `ORDER BY last_access ASC`: every entry once, the least recently used first. */
  ghost predicate IsLruOrder(order: seq<Key>, entries: Entries) {
    && Distinct(order)
    && Set(order) == entries.Keys
    && (forall i, j :: 0 <= i < j < |order| && order[i] in entries && order[j] in entries ==>
          entries[order[i]].lastAccess <= entries[order[j]].lastAccess)
  }

  lemma OldestExists(entries: Entries, keys: set<Key>)
    requires keys != {} && keys <= entries.Keys
    ensures exists k :: IsOldest(entries, keys, k)
    decreases |keys|
  {
    var k :| k in keys;
    if keys == {k} {
      assert IsOldest(entries, keys, k);
    } else {
      OldestExists(entries, keys - {k});
      var o :| IsOldest(entries, keys - {k}, o);
      assert IsOldest(entries, keys, if entries[k].lastAccess < entries[o].lastAccess then k else o);
    }
  }

  predicate IsOldest(entries: Entries, keys: set<Key>, k: Key) {
    k in keys && k in entries
    && forall o :: o in keys && o in entries ==> entries[k].lastAccess <= entries[o].lastAccess
  }

  /** The tracker query: ties come in any order. */
  method LruOrder(entries: Entries) returns (order: seq<Key>)
    ensures IsLruOrder(order, entries)
  {
    order := [];
    var rest := entries.Keys;
    while rest != {}
      invariant rest <= entries.Keys && Set(order) == entries.Keys - rest
      invariant Distinct(order)
      invariant forall i :: 0 <= i < |order| ==> order[i] in entries
      invariant forall i, k :: 0 <= i < |order| && k in rest ==> entries[order[i]].lastAccess <= entries[k].lastAccess
      invariant forall i, j :: 0 <= i < j < |order| ==> entries[order[i]].lastAccess <= entries[order[j]].lastAccess
    {
      OldestExists(entries, rest);
      var k :| k in rest && IsOldest(entries, rest, k);
      assert k !in order by {
        assert k !in Set(order);
      }
      assert Set(order + [k]) == Set(order) + {k};
      order := order + [k];
      rest := rest - {k};
    }
  }

  // --------------------------------------------------------- what is evicted

  /** The candidates the filter lets through, in order; candidate `i` is asked about as number `i`. */
  function Unprotected(order: seq<Key>, filter: Filter): (u: seq<Key>)
    ensures forall k :: k in u ==> k in order
  {
    if order == [] then []
    else
      var n := |order| - 1;
      Unprotected(order[..n], filter) + if filter(n, order[n]) then [] else [order[n]]
  }

  lemma NotYetEvicted(order: seq<Key>, filter: Filter, i: nat)
    requires Distinct(order) && i < |order|
    ensures order[i] !in Unprotected(order[..i], filter)
  {
    assert order[i] !in order[..i];
  }

  lemma {:induction false} UnprotectedIsDistinct(order: seq<Key>, filter: Filter)
    requires Distinct(order)
    ensures Distinct(Unprotected(order, filter))
    decreases |order|
  {
    if order != [] {
      UnprotectedIsDistinct(order[..|order| - 1], filter);
      NotYetEvicted(order, filter, |order| - 1);
    }
  }

  lemma {:induction false} UnprotectedHas(order: seq<Key>, filter: Filter, i: nat)
    requires i < |order| && !filter(i, order[i])
    ensures order[i] in Unprotected(order, filter)
    decreases |order|
  {
    if i < |order| - 1 {
      UnprotectedHas(order[..|order| - 1], filter, i);
    }
  }

  lemma {:induction false} UnprotectedGrows(order: seq<Key>, filter: Filter, n: nat)
    requires n <= |order|
    ensures Unprotected(order[..n], filter) <= Unprotected(order, filter)
    decreases |order|
  {
    if n == |order| {
      assert order[..n] == order;
    } else {
      assert order[..|order| - 1][..n] == order[..n];
      UnprotectedGrows(order[..|order| - 1], filter, n);
    }
  }

  /**
   `evicted` is the shortest prefix of the unprotected candidates that frees `toFree`
   bytes, or all of them when they do not.
   */
  ghost predicate IsShortestPrefix(evicted: seq<Key>, candidates: seq<Key>, entries: Entries, toFree: nat)
    requires forall k :: k in candidates ==> k in entries
  {
    && evicted <= candidates
    && (SizeOf(evicted, entries) >= toFree || evicted == candidates)
    && (evicted != [] ==> SizeOf(evicted[..|evicted| - 1], entries) < toFree)
  }

  ghost predicate EvictsInOrder(order: seq<Key>, entries: Entries, filter: Filter, toFree: nat, evicted: seq<Key>) {
    && IsLruOrder(order, entries)
    && (forall k :: k in order ==> k in entries)
    && IsShortestPrefix(evicted, Unprotected(order, filter), entries, toFree)
  }

  /** The eviction loop after `i` candidates. */
  ghost predicate Progress(order: seq<Key>, filter: Filter, entries: Entries, toFree: nat, i: nat, evicted: seq<Key>,
                           freed: nat) {
    && i <= |order|
    && evicted == Unprotected(order[..i], filter)
    && (forall k :: k in evicted ==> k in entries)
    && freed == SizeOf(evicted, entries)
    && (evicted != [] ==> SizeOf(evicted[..|evicted| - 1], entries) < toFree)
  }

  lemma ProgressStep(order: seq<Key>, filter: Filter, entries: Entries, toFree: nat, i: nat, evicted: seq<Key>,
                     freed: nat)
    requires Progress(order, filter, entries, toFree, i, evicted, freed) && i < |order| && freed < toFree
    requires Distinct(order) && order[i] in entries
    ensures order[i] !in evicted
    ensures if filter(i, order[i]) then Progress(order, filter, entries, toFree, i + 1, evicted, freed)
            else Progress(order, filter, entries, toFree, i + 1, evicted + [order[i]], freed + entries[order[i]].size)
  {
    assert order[..i + 1][..i] == order[..i];
    NotYetEvicted(order, filter, i);
    SizeSnoc(evicted, order[i], entries);
  }

  lemma ProgressEnds(order: seq<Key>, filter: Filter, entries: Entries, toFree: nat, i: nat, evicted: seq<Key>,
                     freed: nat)
    requires Progress(order, filter, entries, toFree, i, evicted, freed) && (i == |order| || freed >= toFree)
    requires forall k :: k in order ==> k in entries
    ensures IsShortestPrefix(evicted, Unprotected(order, filter), entries, toFree)
  {
    UnprotectedGrows(order, filter, i);
    assert i == |order| ==> order[..i] == order;
  }

  /** What one eviction may do. A budget of zero means there is none. */
  ghost predicate Evicts(entries: Entries, budget: nat, filter: Filter, evicted: seq<Key>) {
    if budget == 0 || TotalOf(entries) <= budget then evicted == []
    else EvictsToFree(entries, filter, TotalOf(entries) - budget, evicted)
  }

  ghost predicate EvictsToFree(entries: Entries, filter: Filter, toFree: nat, evicted: seq<Key>) {
    exists order :: EvictsInOrder(order, entries, filter, toFree, evicted)
  }

  lemma InOrder(order: seq<Key>, entries: Entries)
    requires IsLruOrder(order, entries)
    ensures forall k :: k in order <==> k in entries
  {
    assert forall k :: k in order <==> k in Set(order);
  }

  /** Nothing protected is ever evicted, whatever the sizes and the budget. */
  lemma {:induction false} EvictedWasUnprotected(order: seq<Key>, filter: Filter, key: Key)
    requires key in Unprotected(order, filter)
    ensures exists i :: 0 <= i < |order| && order[i] == key && !filter(i, key)
    decreases |order|
  {
    var n := |order| - 1;
    if key in Unprotected(order[..n], filter) {
      EvictedWasUnprotected(order[..n], filter, key);
      var i :| 0 <= i < n && order[..n][i] == key && !filter(i, key);
      assert order[i] == key;
    } else {
      assert order[n] == key && !filter(n, key);
    }
  }

  /**
   After an eviction with a positive budget and a fixed filter the cache is within budget,
   or everything left in it is protected.
   */
  lemma EvictionMeetsTheBudget(entries: Entries, budget: nat, isProtected: Key -> bool, evicted: seq<Key>)
    requires budget > 0 && Evicts(entries, budget, (n, key) => isProtected(key), evicted)
    ensures TotalOf(entries - Set(evicted)) <= budget || forall k :: k in entries - Set(evicted) ==> isProtected(k)
    ensures forall k :: k in evicted ==> k in entries && !isProtected(k)
  {
    var filter := (n, key) => isProtected(key);
    if TotalOf(entries) <= budget {
      assert entries - Set(evicted) == entries;
    } else {
      var order :| EvictsInOrder(order, entries, filter, TotalOf(entries) - budget, evicted);
      EvictedAreCandidates(order, entries, filter, evicted);
      if SizeOf(evicted, entries) >= TotalOf(entries) - budget {
        TotalWithoutAll(entries, evicted);
      } else {
        forall k | k in entries - Set(evicted) ensures isProtected(k) {
          InOrder(order, entries);
          var i :| 0 <= i < |order| && order[i] == k;
          if !isProtected(k) {
            UnprotectedHas(order, filter, i);
          }
        }
      }
      forall k | k in evicted ensures k in entries && !isProtected(k) {
        EvictedWasUnprotected(order, filter, k);
      }
    }
  }

  /**
   Eviction with a fixed filter goes from the least recently used on and stops as soon as it can:
   what it leaves among older entries is protected, without its last entry the cache would be over
   budget, and within budget, or without a budget, nothing goes.
   */
  lemma OldestGoFirstAndNoMore(entries: Entries, budget: nat, isProtected: Key -> bool, evicted: seq<Key>)
    requires Evicts(entries, budget, (n, key) => isProtected(key), evicted)
    ensures forall k, o :: k in evicted && k in entries && o in entries && o !in evicted ==>
      entries[o].lastAccess < entries[k].lastAccess ==> isProtected(o)
    ensures evicted != [] ==> budget > 0 && TotalOf(entries - Set(evicted[..|evicted| - 1])) > budget
  {
    if evicted != [] {
      var filter, toFree := (n, key) => isProtected(key), TotalOf(entries) - budget;
      assert EvictsToFree(entries, filter, toFree, evicted);
      var order :| EvictsInOrder(order, entries, filter, toFree, evicted);
      EvictedAreCandidates(order, entries, filter, evicted);
      var kept := evicted[..|evicted| - 1];
      assert forall k :: k in kept ==> k in evicted;
      TotalWithoutAll(entries, kept);
      forall k, o | k in evicted && k in entries && o in entries && o !in evicted
        ensures entries[o].lastAccess < entries[k].lastAccess ==> isProtected(o)
      {
        if entries[o].lastAccess < entries[k].lastAccess {
          OlderIsProtected(order, entries, isProtected, evicted, k, o);
        }
      }
    }
  }

  lemma OlderIsProtected(order: seq<Key>, entries: Entries, isProtected: Key -> bool, evicted: seq<Key>, k: Key,
                         o: Key)
    requires IsLruOrder(order, entries) && evicted <= Unprotected(order, (n, key) => isProtected(key))
    requires k in evicted && k in entries && o in entries && o !in evicted
    requires entries[o].lastAccess < entries[k].lastAccess
    ensures isProtected(o)
  {
    if !isProtected(o) {
      var filter: Filter := (n, key) => isProtected(key);
      InOrder(order, entries);
      var older: nat :| older < |order| && order[older] == o;
      var at: nat :| at < |evicted| && evicted[at] == k;
      assert forall i :: 0 <= i < |evicted| ==> Unprotected(order, filter)[i] == evicted[i];
      UnprotectedInOrder(order, filter, older, at);
    }
  }

  /** An unprotected candidate comes before every later one that the filter lets through. */
  lemma {:induction false} UnprotectedInOrder(order: seq<Key>, filter: Filter, older: nat, at: nat)
    requires Distinct(order) && older < |order| && !filter(older, order[older]) && at < |Unprotected(order, filter)|
    ensures (exists i :: 0 <= i < at && Unprotected(order, filter)[i] == order[older])
            || exists i :: 0 <= i <= older && order[i] == Unprotected(order, filter)[at]
    decreases |order|
  {
    var n := |order| - 1;
    var before := Unprotected(order[..n], filter);
    if older == n {
      assert Unprotected(order, filter)[at] in order;
    } else if at < |before| {
      UnprotectedInOrder(order[..n], filter, older, at);
      if i :| 0 <= i <= older && order[..n][i] == before[at] {
        assert order[i] == Unprotected(order, filter)[at];
      } else {
        var i :| 0 <= i < at && before[i] == order[older];
        assert Unprotected(order, filter)[i] == order[older];
      }
    } else {
      UnprotectedHas(order[..n], filter, older);
      var i :| 0 <= i < |before| && before[i] == order[older];
      assert Unprotected(order, filter)[i] == order[older];
    }
  }

  lemma EvictedAreCandidates(order: seq<Key>, entries: Entries, filter: Filter, evicted: seq<Key>)
    requires IsLruOrder(order, entries) && evicted <= Unprotected(order, filter)
    ensures Distinct(evicted)
    ensures forall k :: k in evicted ==> k in entries && k in Unprotected(order, filter)
  {
    InOrder(order, entries);
    UnprotectedIsDistinct(order, filter);
    var candidates := Unprotected(order, filter);
    forall i, j | 0 <= i < j < |evicted| ensures evicted[i] != evicted[j] {
      assert evicted[i] == candidates[i] && evicted[j] == candidates[j];
    }
    forall k | k in evicted ensures k in candidates {
      var i :| 0 <= i < |evicted| && evicted[i] == k;
      assert candidates[i] == k;
    }
  }

  /** Whatever one eviction takes, the filter let it through when it was asked. */
  lemma EvictedWasLetThrough(entries: Entries, budget: nat, filter: Filter, evicted: seq<Key>, key: Key)
    returns (n: nat)
    requires Evicts(entries, budget, filter, evicted) && key in evicted
    ensures !filter(n, key)
  {
    var toFree := TotalOf(entries) - budget;
    assert EvictsToFree(entries, filter, toFree, evicted);
    var order :| EvictsInOrder(order, entries, filter, toFree, evicted);
    EvictedAreCandidates(order, entries, filter, evicted);
    EvictedWasUnprotected(order, filter, key);
    var i: nat :| i < |order| && order[i] == key && !filter(i, key);
    n := i;
  }

  class DiskCache {
    var entries: Entries
    var files: map<Key, Bytes>
    var maxSize: nat

    /** Every tracked entry has its file, of the tracked size. */
    ghost predicate Valid()
      reads this
    {
      forall k :: k in entries ==> k in files && |files[k]| == entries[k].size
    }

    constructor (maxSize: nat)
      ensures Valid() && entries == map[] && files == map[] && this.maxSize == maxSize
    {
      entries, files := map[], map[];
      this.maxSize := maxSize;
    }

    method TotalSize() returns (total: nat)
      ensures total == TotalOf(entries)
    {
      total := 0;
      var rest := entries;
      while rest != map[]
        invariant total + TotalOf(rest) == TotalOf(entries)
        decreases |rest|
      {
        var k :| k in rest;
        TotalWithout(rest, k);
        total := total + rest[k].size;
        rest := rest - {k};
      }
    }

    /** Reading an entry makes it the most recently used. */
    method Get(key: Key, now: nat) returns (content: Option<Bytes>)
      requires Valid()
      modifies this`entries
      ensures Valid() && entries.Keys == old(entries).Keys
      ensures content == if key in files then Some(files[key]) else None
      ensures forall k :: k in entries ==>
        entries[k] == (if k == key then old(entries)[k].(lastAccess := now) else old(entries)[k])
    {
      if key !in files {
        return None;
      }
      if key in entries {
        entries := entries[key := entries[key].(lastAccess := now)];
      }
      content := Some(files[key]);
    }

    method Remove(key: Key)
      requires Valid()
      modifies this`entries, this`files
      ensures Valid() && entries == old(entries) - {key} && files == old(files) - {key}
    {
      files := files - {key};
      entries := entries - {key};
    }

    method Put(key: Key, content: Bytes, etag: Option<string>, now: nat, filter: Filter)
      returns (ghost evicted: seq<Key>)
      requires Valid()
      modifies this`entries, this`files
      ensures Valid()
      ensures var added := old(entries)[key := Entry(|content|, etag, now)];
        && entries == added - Set(evicted)
        && files == old(files)[key := content] - Set(evicted)
        && Evicts(added, maxSize, filter, evicted)
    {
      files := files[key := content];
      entries := entries[key := Entry(|content|, etag, now)];
      evicted := EvictIfNeeded(filter);
    }

    method EvictIfNeeded(filter: Filter) returns (ghost evicted: seq<Key>)
      requires Valid()
      modifies this`entries, this`files
      ensures Valid() && Evicts(old(entries), maxSize, filter, evicted)
      ensures entries == old(entries) - Set(evicted) && files == old(files) - Set(evicted)
    {
      evicted := [];
      if maxSize == 0 {
        return;
      }
      var total := TotalSize();
      if total <= maxSize {
        return;
      }
      var order := LruOrder(entries);
      InOrder(order, entries);
      evicted := EvictInOrder(order, filter, total - maxSize);
      assert EvictsInOrder(order, old(entries), filter, total - maxSize, evicted);
    }

    method EvictOne(key: Key, ghost allEntries: Entries, ghost allFiles: map<Key, Bytes>, ghost evicted: seq<Key>)
      returns (size: nat)
      requires Valid() && entries == allEntries - Set(evicted) && files == allFiles - Set(evicted)
      requires key in allEntries && key !in evicted
      modifies this`entries, this`files
      ensures Valid() && size == allEntries[key].size
      ensures entries == allEntries - Set(evicted + [key]) && files == allFiles - Set(evicted + [key])
    {
      size := entries[key].size;
      Remove(key);
      assert Set(evicted + [key]) == Set(evicted) + {key};
    }

    /** The eviction loop: candidates in order, until enough is freed. */
    method EvictInOrder(order: seq<Key>, filter: Filter, toFree: nat) returns (ghost evicted: seq<Key>)
      requires Valid() && toFree > 0 && Distinct(order) && forall k :: k in order ==> k in entries
      modifies this`entries, this`files
      ensures Valid()
      ensures IsShortestPrefix(evicted, Unprotected(order, filter), old(entries), toFree)
      ensures entries == old(entries) - Set(evicted) && files == old(files) - Set(evicted)
    {
      evicted := [];
      ghost var all := entries;
      var freed: nat, i: nat := 0, 0;
      while i < |order| && freed < toFree
        invariant Valid() && Progress(order, filter, all, toFree, i, evicted, freed)
        invariant entries == all - Set(evicted) && files == old(files) - Set(evicted)
      {
        var key := order[i];
        ProgressStep(order, filter, all, toFree, i, evicted, freed);
        if !filter(i, key) {
          var size := EvictOne(key, all, old(files), evicted);
          freed := freed + size;
          evicted := evicted + [key];
        }
        i := i + 1;
      }
      ProgressEnds(order, filter, all, toFree, i, evicted, freed);
    }
  }
}
