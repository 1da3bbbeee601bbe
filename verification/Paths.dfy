/**
 Paths of cached items: up from an item to its display path, and down from a path to
 the item.

 Going up follows parent references through the inode table. Going down looks a name up
 among the cached children of each folder, ignoring ASCII case; a folder that is found in
 SQLite gets a new entry in memory and loses the listing it had there. Fetching children
 from the server and entries that expire are not part of this model.
 */
module Paths {
  import opened Wrappers
  import opened FileNames
  import IT = InodeTable

  const ROOT := IT.ROOT_INODE

  const MAX_CLIMB: nat := 256

  datatype Node = Node(name: string, parentId: Option<string>)

  /** A child in SQLite: its id and what is stored of it. */
  datatype Row = Row(id: string, node: Node)

  /**
   `nodes` is what `lookup_item` finds, `memory` the part of it that is in memory, `table`
   the inode table. Folders list their children by name in memory, and in SQLite as rows.
   */
  datatype Cache = Cache(
    nodes: map<Ino, Node>,
    memory: map<Ino, Node>,
    table: IT.Table,
    listed: map<Ino, map<string, Ino>>,
    rows: map<Ino, seq<Row>>)

  // ----------------------------------------------------------------- strings

  /** `format!("/{}", segments.join("/"))` */
  function Joined(segments: seq<string>): string {
    "/" + Join(segments)
  }

  function Join(segments: seq<string>): string {
    if segments == [] then ""
    else if |segments| == 1 then segments[0]
    else segments[0] + "/" + Join(segments[1..])
  }

  /** The parts between slashes. */
  function Split(s: string): (parts: seq<string>)
    ensures parts != []
  {
    if s == "" then [""]
    else
      var rest := Split(s[1..]);
      if s[0] == '/' then [""] + rest else [[s[0]] + rest[0]] + rest[1..]
  }

  function NonEmpty(parts: seq<string>): seq<string> {
    if parts == [] then []
    else (if parts[0] == "" then [] else [parts[0]]) + NonEmpty(parts[1..])
  }

  function Components(path: string): seq<string> {
    NonEmpty(Split(path))
  }

  predicate IsSegment(s: string) {
    s != "" && '/' !in s
  }

  predicate AreSegments(parts: seq<string>) {
    forall i :: 0 <= i < |parts| ==> IsSegment(parts[i])
  }

  lemma {:induction false} SplitSegment(s: string, rest: string)
    requires '/' !in s
    ensures Split(s + "/" + rest) == [s] + Split(rest)
    ensures Split(s) == [s]
    decreases |s|
  {
    var all := s + "/" + rest;
    if s == "" {
      assert all == "/" + rest;
      assert all[1..] == rest;
    } else {
      assert all[1..] == s[1..] + "/" + rest;
      SplitSegment(s[1..], rest);
      assert [s[0]] + s[1..] == s;
    }
  }

  lemma {:induction false} SplitJoin(segments: seq<string>)
    requires segments != [] && AreSegments(segments)
    ensures Split(Join(segments)) == segments
    decreases |segments|
  {
    if |segments| == 1 {
      SplitSegment(segments[0], "");
    } else {
      SplitSegment(segments[0], Join(segments[1..]));
      SplitJoin(segments[1..]);
      assert Join(segments) == segments[0] + "/" + Join(segments[1..]);
    }
  }

  lemma {:induction false} NonEmptyKeepsSegments(segments: seq<string>)
    requires AreSegments(segments)
    ensures NonEmpty(segments) == segments
    decreases |segments|
  {
    if segments != [] {
      NonEmptyKeepsSegments(segments[1..]);
    }
  }

  /** A path taken apart gives the segments it was put together from. */
  lemma ComponentsOfJoined(segments: seq<string>)
    requires AreSegments(segments)
    ensures Components(Joined(segments)) == segments
  {
    if segments == [] {
      assert Joined(segments) == "" + "/" + "";
      SplitSegment("", "");
      assert Split(Joined(segments)) == ["", ""];
      assert ["", ""][1..] == [""] && [""][1..] == [];
    } else {
      SplitJoin(segments);
      assert Joined(segments) == "" + "/" + Join(segments);
      SplitSegment("", Join(segments));
      NonEmptyKeepsSegments(segments);
      assert ([""] + segments)[1..] == segments;
    }
  }

  lemma {:induction false} SplitBoth(a: string, b: string)
    ensures Split(a + "/" + b) == Split(a) + Split(b)
    decreases |a|
  {
    var all := a + "/" + b;
    if a == "" {
      assert all[1..] == b;
    } else {
      assert all[0] == a[0] && all[1..] == a[1..] + "/" + b;
      SplitBoth(a[1..], b);
    }
  }

  lemma {:induction false} NonEmptyBoth(a: seq<string>, b: seq<string>)
    ensures NonEmpty(a + b) == NonEmpty(a) + NonEmpty(b)
    decreases |a|
  {
    if a == [] {
      assert a + b == b;
    } else {
      assert (a + b)[0] == a[0] && (a + b)[1..] == a[1..] + b;
      NonEmptyBoth(a[1..], b);
    }
  }

  /** The components of any path: those of its parts in turn, where a part without slashes is one unless it is empty. */
  lemma ComponentsOfParts(a: string, b: string)
    ensures Components(a + "/" + b) == Components(a) + Components(b)
    ensures '/' !in a ==> Components(a) == if a == "" then [] else [a]
  {
    SplitBoth(a, b);
    NonEmptyBoth(Split(a), Split(b));
    if '/' !in a {
      SplitSegment(a, "");
      assert [a][1..] == [];
    }
  }

  // -------------------------------------------------------------- going up

  /** The names from just below the root down to `cur`, at most `safety` of them. */
  function Climb(nodes: map<Ino, Node>, inodeOf: map<string, Ino>, cur: Ino, safety: nat): seq<string>
    decreases safety
  {
    if cur == ROOT || safety == 0 || cur !in nodes then []
    else if nodes[cur].parentId.None? || nodes[cur].parentId.value !in inodeOf then [nodes[cur].name]
    else Climb(nodes, inodeOf, inodeOf[nodes[cur].parentId.value], safety - 1) + [nodes[cur].name]
  }

  function Reversed(s: seq<string>): (r: seq<string>)
    ensures |r| == |s|
  {
    if s == [] then [] else Reversed(s[1..]) + [s[0]]
  }

  lemma {:induction false} ReversedSnoc(s: seq<string>, x: string)
    ensures Reversed(s + [x]) == [x] + Reversed(s)
    decreases |s|
  {
    if s == [] {
      assert s + [x] == [x];
    } else {
      assert (s + [x])[1..] == s[1..] + [x];
      ReversedSnoc(s[1..], x);
    }
  }

  method Reverse(s: seq<string>) returns (r: seq<string>)
    ensures r == Reversed(s)
  {
    r := [];
    for i := 0 to |s|
      invariant r + [] == Reversed(s[..i])
    {
      assert s[..i + 1] == s[..i] + [s[i]];
      ReversedSnoc(s[..i], s[i]);
      r := [s[i]] + r;
    }
    assert s[..|s|] == s;
  }

  /** The climb itself, which collects names from below. */
  method CollectNames(c: Cache, start: Ino) returns (segments: seq<string>)
    ensures Reversed(segments) == Climb(c.nodes, c.table.itemToInode, start, MAX_CLIMB)
  {
    segments := [];
    var cur: Ino, safety: nat := start, MAX_CLIMB;
    while cur != ROOT && safety > 0
      invariant Climb(c.nodes, c.table.itemToInode, start, MAX_CLIMB)
             == Climb(c.nodes, c.table.itemToInode, cur, safety) + Reversed(segments)
      decreases safety
    {
      if cur !in c.nodes {
        break;
      }
      var item := c.nodes[cur];
      ReversedSnoc(segments, item.name);
      segments := segments + [item.name];
      if item.parentId.None? || item.parentId.value !in c.table.itemToInode {
        return;
      }
      cur := c.table.itemToInode[item.parentId.value];
      safety := safety - 1;
    }
  }

  method DisplayPathUnder(c: Cache, parent: Ino, name: string) returns (path: string)
    ensures path == Joined(Climb(c.nodes, c.table.itemToInode, parent, MAX_CLIMB) + [name])
  {
    var segments := CollectNames(c, parent);
    segments := Reverse(segments);
    path := Joined(segments + [name]);
  }

  function DisplayPath(c: Cache, ino: Ino): Option<string> {
    if ino == ROOT then Some("/")
    else if ino !in c.nodes || c.nodes[ino].parentId.None? then None
    else
      var pid := c.nodes[ino].parentId.value;
      var parent := if pid in c.table.itemToInode then c.table.itemToInode[pid] else ROOT;
      Some(Joined(Climb(c.nodes, c.table.itemToInode, parent, MAX_CLIMB) + [c.nodes[ino].name]))
  }

  method DisplayPathOf(c: Cache, ino: Ino) returns (path: Option<string>)
    ensures path == DisplayPath(c, ino)
    ensures path.Some? <==> ino == 1 || (ino in c.nodes && c.nodes[ino].parentId.Some?)
    ensures ino == 1 ==> path == Some("/")
  {
    if ino == ROOT {
      return Some("/");
    }
    if ino !in c.nodes || c.nodes[ino].parentId.None? {
      return None;
    }
    var pid := c.nodes[ino].parentId.value;
    var parent := if pid in c.table.itemToInode then c.table.itemToInode[pid] else ROOT;
    var p := DisplayPathUnder(c, parent, c.nodes[ino].name);
    path := Some(p);
  }

  lemma Regroup(a: seq<string>, x: string, b: seq<string>)
    ensures (a + [x]) + b == a + ([x] + b)
  {
  }

  /** The same climb by the sync processor, which asks memory only and tests for the root one step later. */
  method BuildUploadPath(c: Cache, item: Node) returns (path: string)
    ensures path == Joined(UploadClimb(c, item.parentId, MAX_CLIMB) + [item.name])
  {
    var segments: seq<string> := [];
    var curParentId: Option<string>, safety: nat := item.parentId, MAX_CLIMB;
    ghost var all := UploadClimb(c, item.parentId, MAX_CLIMB);
    while curParentId.Some? && safety > 0
      invariant safety <= MAX_CLIMB
      invariant all == UploadClimb(c, curParentId, safety) + Reversed(segments)
      decreases safety
    {
      var pid := curParentId.value;
      safety := safety - 1;
      if pid !in c.table.itemToInode || c.table.itemToInode[pid] == ROOT || c.table.itemToInode[pid] !in c.memory {
        curParentId := None;
      } else {
        var parent := c.memory[c.table.itemToInode[pid]];
        ReversedSnoc(segments, parent.name);
        Regroup(UploadClimb(c, parent.parentId, safety), parent.name, Reversed(segments));
        segments := segments + [parent.name];
        curParentId := parent.parentId;
      }
    }
    assert all == Reversed(segments);
    var up := Reverse(segments);
    path := Joined(up + [item.name]);
  }

  function UploadClimb(c: Cache, parentId: Option<string>, safety: nat): seq<string>
    decreases safety
  {
    if parentId.None? || safety == 0 || parentId.value !in c.table.itemToInode then []
    else
      var ino := c.table.itemToInode[parentId.value];
      if ino == ROOT || ino !in c.memory then []
      else UploadClimb(c, c.memory[ino].parentId, safety - 1) + [c.memory[ino].name]
  }

  lemma {:induction false} ClimbsAgree(c: Cache, parentId: string, safety: nat)
    requires c.memory == c.nodes
    ensures UploadClimb(c, Some(parentId), safety) ==
      if parentId !in c.table.itemToInode then []
      else Climb(c.nodes, c.table.itemToInode, c.table.itemToInode[parentId], safety)
    decreases safety
  {
    if safety > 0 && parentId in c.table.itemToInode {
      var ino := c.table.itemToInode[parentId];
      if ino != ROOT && ino in c.nodes && c.nodes[ino].parentId.Some? {
        ClimbsAgree(c, c.nodes[ino].parentId.value, safety - 1);
      }
    }
  }

  /** With everything in memory the two climbs give the same path, however deep the item is. */
  lemma UploadPathIsDisplayPath(c: Cache, ino: Ino)
    requires c.memory == c.nodes && ino in c.nodes && ino != ROOT && c.nodes[ino].parentId.Some?
    ensures DisplayPath(c, ino) ==
      Some(Joined(UploadClimb(c, c.nodes[ino].parentId, MAX_CLIMB) + [c.nodes[ino].name]))
  {
    ClimbsAgree(c, c.nodes[ino].parentId.value, MAX_CLIMB);
  }

  // ------------------------------------------------------------ going down

  predicate IsFirstMatch(rows: seq<Row>, name: string, i: nat) {
    && i < |rows| && NamesMatch(rows[i].node.name, name)
    && forall j :: 0 <= j < i ==> !NamesMatch(rows[j].node.name, name)
  }

  function FirstRow(rows: seq<Row>, name: string): (r: Option<Row>)
    ensures r.Some? ==> r.value in rows && NamesMatch(r.value.node.name, name)
    ensures r.None? ==> forall i :: 0 <= i < |rows| ==> !NamesMatch(rows[i].node.name, name)
    ensures r.Some? ==> exists i: nat :: IsFirstMatch(rows, name, i) && rows[i] == r.value
  {
    if rows == [] then None
    else if NamesMatch(rows[0].node.name, name) then
      assert IsFirstMatch(rows, name, 0);
      Some(rows[0])
    else
      var r := FirstRow(rows[1..], name);
      assert forall i :: 1 <= i < |rows| ==> rows[i] == rows[1..][i - 1];
      assert forall i: nat :: IsFirstMatch(rows[1..], name, i) ==> IsFirstMatch(rows, name, i + 1);
      r
  }

  function RowsOf(c: Cache, parent: Ino): seq<Row> {
    if parent in c.rows then c.rows[parent] else []
  }

  predicate Lists(c: Cache, parent: Ino, key: string, name: string) {
    parent in c.listed && key in c.listed[parent] && NamesMatch(key, name)
  }

  /** What a lookup finds, and the cache it leaves. */
  datatype Found = Found(ino: Option<Ino>, cache: Cache)

  /** `lookup_item` brings what it finds into memory. */
  function Remembered(c: Cache, ino: Ino): Cache
    requires ino in c.nodes
  {
    if ino in c.memory then c else c.(memory := c.memory[ino := c.nodes[ino]])
  }

  /** A child found in SQLite gets an inode and a new entry in memory, which has no listing. */
  function Inserted(c: Cache, row: Row): Cache {
    var ino := IT.Allocated(c.table, row.id);
    c.(table := IT.OnAllocate(c.table, row.id), nodes := c.nodes[ino := row.node],
       memory := c.memory[ino := row.node], listed := c.listed - {ino})
  }

  function FromRows(c: Cache, parent: Ino, name: string): Found {
    var row := FirstRow(RowsOf(c, parent), name);
    if row.None? then Found(None, c)
    else Found(Some(IT.Allocated(c.table, row.value.id)), Inserted(c, row.value))
  }

  /** The lookup where the listing offers `key` first. */
  function FromListing(c: Cache, parent: Ino, key: string, name: string): Found
    requires Lists(c, parent, key, name)
  {
    var child := c.listed[parent][key];
    if child in c.nodes then Found(Some(child), Remembered(c, child)) else FromRows(c, parent, name)
  }

  /** What `find_child` may find in the cache: a listing in memory is searched in any order. */
  ghost predicate MayFind(c: Cache, parent: Ino, name: string, f: Found) {
    if exists key :: Lists(c, parent, key, name) then
      exists key :: Lists(c, parent, key, name) && f == FromListing(c, parent, key, name)
    else f == FromRows(c, parent, name)
  }

  /** What may be found by looking the components up in turn, from the root. */
  ghost predicate MayWalk(c: Cache, components: seq<string>, f: Found)
    decreases |components|
  {
    if components == [] then f == Found(Some(ROOT), c)
    else
      var n := |components| - 1;
      exists m :: MayWalk(c, components[..n], m) && MayStep(m, components[n], f)
  }

  ghost predicate MayStep(m: Found, name: string, f: Found) {
    if m.ino.None? then f == m else MayFind(m.cache, m.ino.value, name, f)
  }

  /** The item found last is looked up once more. */
  function LookedUp(f: Found): Found {
    if f.ino.Some? && f.ino.value in f.cache.nodes then f.(cache := Remembered(f.cache, f.ino.value))
    else f.(ino := None)
  }

  ghost predicate MayResolve(c: Cache, components: seq<string>, f: Found) {
    exists w :: MayWalk(c, components, w) && f == LookedUp(w)
  }

  lemma {:induction false} LostStaysLost(c: Cache, components: seq<string>, n: nat, f: Found)
    requires n <= |components| && MayWalk(c, components[..n], f) && f.ino.None?
    ensures MayWalk(c, components, f)
    decreases |components| - n
  {
    if n == |components| {
      assert components[..n] == components;
    } else {
      assert components[..n + 1][..n] == components[..n];
      assert MayStep(f, components[n], f);
      LostStaysLost(c, components, n + 1, f);
    }
  }

  /** The lookups, which change the caches as they go. */
  class CoreOps {
    var cache: Cache

    method FindChild(parent: Ino, name: string) returns (r: Option<Ino>)
      modifies this
      ensures MayFind(old(cache), parent, name, Found(r, cache))
    {
      if parent in cache.listed {
        var matching := set key | key in cache.listed[parent] && NamesMatch(key, name);
        assert forall key :: Lists(cache, parent, key, name) <==> key in matching;
        if matching != {} {
          var key :| key in matching;
          assert Lists(cache, parent, key, name);
          var child := cache.listed[parent][key];
          if child in cache.nodes {
            cache := Remembered(cache, child);
            return Some(child);
          }
        }
      }
      var row := FirstRow(RowsOf(cache, parent), name);
      if row.None? {
        return None;
      }
      r := Some(IT.Allocated(cache.table, row.value.id));
      cache := Inserted(cache, row.value);
    }

    method Resolve(components: seq<string>) returns (r: Option<Ino>)
      modifies this
      ensures MayResolve(old(cache), components, Found(r, cache))
    {
      var current := ROOT;
      for n := 0 to |components|
        invariant MayWalk(old(cache), components[..n], Found(Some(current), cache))
      {
        ghost var before := Found(Some(current), cache);
        var child := FindChild(current, components[n]);
        assert components[..n + 1][..n] == components[..n];
        assert MayStep(before, components[n], Found(child, cache));
        assert MayWalk(old(cache), components[..n + 1], Found(child, cache));
        if child.None? {
          LostStaysLost(old(cache), components, n + 1, Found(None, cache));
          return None;
        }
        current := child.value;
      }
      assert components[..|components|] == components;
      assert MayWalk(old(cache), components, Found(Some(current), cache));
      r := None;
      if current in cache.nodes {
        cache := Remembered(cache, current);
        r := Some(current);
      }
    }
  }

  // ------------------------------------------------------- up and down again

  function ParentIno(c: Cache, ino: Ino): Option<Ino> {
    if ino in c.nodes && ino != ROOT && c.nodes[ino].parentId.Some?
      && c.nodes[ino].parentId.value in c.table.itemToInode
    then Some(c.table.itemToInode[c.nodes[ino].parentId.value])
    else None
  }

  predicate IsChild(c: Cache, parent: Ino, ino: Ino, name: string) {
    ino in c.nodes && ParentIno(c, ino) == Some(parent) && c.nodes[ino].name == name
  }

  predicate Siblings(c: Cache, a: Ino, b: Ino) {
    a in c.nodes && b in c.nodes && ParentIno(c, a).Some? && ParentIno(c, a) == ParentIno(c, b)
  }

  /** The row is the stored version of a child of `parent`. */
  predicate IsRow(c: Cache, parent: Ino, row: Row) {
    && row.id in c.table.itemToInode && IsChild(c, parent, c.table.itemToInode[row.id], row.node.name)
    && c.nodes[c.table.itemToInode[row.id]] == row.node
  }

  /** Folders list only their children, and siblings' names differ by more than case. */
  ghost predicate Consistent(c: Cache) {
    && ROOT in c.nodes
    && (forall p, name :: p in c.listed && name in c.listed[p] ==> IsChild(c, p, c.listed[p][name], name))
    && (forall p, i :: p in c.rows && 0 <= i < |c.rows[p]| ==> IsRow(c, p, c.rows[p][i]))
    && (forall a, b :: Siblings(c, a, b) && NamesMatch(c.nodes[a].name, c.nodes[b].name) ==> a == b)
  }

  /** Every item has its parent cached, up to the root. */
  ghost predicate AllHaveParents(c: Cache) {
    forall ino :: ino in c.nodes && ino != ROOT ==> HasParent(c, ino)
  }

  predicate HasParent(c: Cache, ino: Ino)
    requires ino in c.nodes
  {
    var p := ParentIno(c, ino);
    p.Some? && p.value in c.nodes && IsSegment(c.nodes[ino].name)
  }

  /** `ino` is the child of `parent` that goes by `name`, in any case. */
  predicate Names(c: Cache, parent: Ino, name: string, ino: Ino) {
    ino in c.nodes && ParentIno(c, ino) == Some(parent) && NamesMatch(c.nodes[ino].name, name)
  }

  predicate ListedUnder(c: Cache, parent: Ino, ino: Ino) {
    && ino in c.nodes && parent in c.listed && c.nodes[ino].name in c.listed[parent]
    && c.listed[parent][c.nodes[ino].name] == ino
  }

  predicate StoredUnder(c: Cache, parent: Ino, ino: Ino) {
    exists row :: row in RowsOf(c, parent) && row.id in c.table.itemToInode && c.table.itemToInode[row.id] == ino
  }

  /** Lookups leave a consistent cache as it is, but for listings they drop. */
  predicate Shrunk(c: Cache, d: Cache) {
    && d.nodes == c.nodes && d.table == c.table && d.rows == c.rows
    && forall p :: p in d.listed ==> p in c.listed && d.listed[p] == c.listed[p]
  }

  /** What a listing offers is the child of that name. */
  lemma ListingIsRight(c: Cache, parent: Ino, key: string, name: string)
    requires Consistent(c) && Lists(c, parent, key, name)
    ensures var f := FromListing(c, parent, key, name);
      && f.ino.Some? && Names(c, parent, name, f.ino.value) && ListedUnder(c, parent, f.ino.value)
      && Shrunk(c, f.cache) && f.cache.listed == c.listed
  {
    assert IsChild(c, parent, c.listed[parent][key], key);
  }

  /** And so is what the rows offer. */
  lemma RowIsRight(c: Cache, parent: Ino, name: string)
    requires Consistent(c) && FromRows(c, parent, name).ino.Some?
    ensures var f := FromRows(c, parent, name);
      && Names(c, parent, name, f.ino.value) && StoredUnder(c, parent, f.ino.value)
      && Shrunk(c, f.cache) && f.cache.listed == c.listed - {f.ino.value}
  {
    var row := FirstRow(RowsOf(c, parent), name).value;
    var i :| 0 <= i < |RowsOf(c, parent)| && RowsOf(c, parent)[i] == row;
    assert IsRow(c, parent, c.rows[parent][i]);
    assert c.nodes[c.table.itemToInode[row.id] := row.node] == c.nodes;
  }

  /** The row's item has its inode, old or new, is in memory as stored, and has no listing; all else is as it was. */
  predicate BroughtIn(c: Cache, f: Found, row: Row) {
    && f.ino.Some? && row.id in f.cache.table.itemToInode && f.cache.table.itemToInode[row.id] == f.ino.value
    && (row.id in c.table.itemToInode ==> f.cache.table == c.table)
    && f.cache.memory == c.memory[f.ino.value := row.node] && f.cache.nodes == c.nodes[f.ino.value := row.node]
    && f.cache.listed == c.listed - {f.ino.value} && f.cache.rows == c.rows
  }

  /** The lookup came to the rows: no listed name matches, or one that does is of an item that is not cached. */
  ghost predicate ComesToRows(c: Cache, parent: Ino, name: string) {
    (exists key :: Lists(c, parent, key, name) && c.listed[parent][key] !in c.nodes)
    || !exists key :: Lists(c, parent, key, name)
  }

  /**
   In any cache: a lookup returns a cached item that is listed under a matching name and is now in
   memory, or otherwise the first matching row, now in memory under its inode and without a listing,
   or nothing where no row matches.
   */
  lemma LookupIsRemembered(c: Cache, parent: Ino, name: string, f: Found)
    requires MayFind(c, parent, name, f)
    ensures
      || (exists key :: Lists(c, parent, key, name)
            && f.ino == Some(c.listed[parent][key]) && c.listed[parent][key] in c.nodes
            && f.cache.memory.Keys == c.memory.Keys + {c.listed[parent][key]}
            && f.cache.(memory := c.memory) == c)
      || (&& ComesToRows(c, parent, name) && f.ino.Some?
          && (exists i: nat :: IsFirstMatch(RowsOf(c, parent), name, i)
                && BroughtIn(c, f, RowsOf(c, parent)[i])))
      || (&& ComesToRows(c, parent, name) && f == Found(None, c)
          && forall i :: 0 <= i < |RowsOf(c, parent)| ==> !NamesMatch(RowsOf(c, parent)[i].node.name, name))
  {
    var rows := RowsOf(c, parent);
    var row := FirstRow(rows, name);
    if row.Some? {
      var i: nat :| IsFirstMatch(rows, name, i) && rows[i] == row.value;
      assert FromRows(c, parent, name).cache == Inserted(c, rows[i]);
    }
  }

  lemma FoundIsNamed(c: Cache, parent: Ino, name: string, f: Found)
    requires Consistent(c) && MayFind(c, parent, name, f)
    ensures Shrunk(c, f.cache) && (f.ino.None? ==> f.cache == c)
    ensures f.ino.Some? ==> var ino := f.ino.value;
      && Names(c, parent, name, ino) && (ListedUnder(c, parent, ino) || StoredUnder(c, parent, ino))
      && f.cache.listed == if ListedUnder(c, parent, ino) then c.listed else c.listed - {ino}
  {
    if key :| Lists(c, parent, key, name) && f == FromListing(c, parent, key, name) {
      ListingIsRight(c, parent, key, name);
    } else if f.ino.Some? {
      RowIsRight(c, parent, name);
      var stored := c.nodes[f.ino.value].name;
      assert !Lists(c, parent, stored, name);
    }
  }

  lemma NamedIsFound(c: Cache, parent: Ino, name: string, f: Found, ino: Ino)
    requires Consistent(c) && MayFind(c, parent, name, f) && Names(c, parent, name, ino)
    requires ListedUnder(c, parent, ino) || StoredUnder(c, parent, ino)
    ensures f.ino == Some(ino)
  {
    FoundIsNamed(c, parent, name, f);
    if ListedUnder(c, parent, ino) {
      assert Lists(c, parent, c.nodes[ino].name, name);
    }
    if key :| Lists(c, parent, key, name) && f == FromListing(c, parent, key, name) {
      ListingIsRight(c, parent, key, name);
    } else {
      var row :| row in RowsOf(c, parent) && row.id in c.table.itemToInode && c.table.itemToInode[row.id] == ino;
      var i :| 0 <= i < |RowsOf(c, parent)| && RowsOf(c, parent)[i] == row;
      assert IsRow(c, parent, c.rows[parent][i]);
    }
    assert Siblings(c, f.ino.value, ino);
  }

  /** The components name the ancestors of `ino` in turn, and `ino` last. */
  predicate Reaches(c: Cache, components: seq<string>, ino: Ino)
    decreases |components|
  {
    if components == [] then ino == ROOT
    else
      var n := |components| - 1;
      var p := ParentIno(c, ino);
      p.Some? && Names(c, p.value, components[n], ino) && Reaches(c, components[..n], p.value)
  }

  /** `ino` is `depth` levels below the root. */
  predicate AtDepth(c: Cache, ino: Ino, depth: nat)
    decreases depth
  {
    if depth == 0 then ino == ROOT
    else ParentIno(c, ino).Some? && AtDepth(c, ParentIno(c, ino).value, depth - 1)
  }

  lemma {:induction false} DepthIsUnique(c: Cache, ino: Ino, a: nat, b: nat)
    requires AtDepth(c, ino, a) && AtDepth(c, ino, b)
    ensures a == b
    decreases a
  {
    if a > 0 && b > 0 {
      DepthIsUnique(c, ParentIno(c, ino).value, a - 1, b - 1);
    }
  }

  lemma {:induction false} ReachedDepth(c: Cache, components: seq<string>, ino: Ino)
    requires Reaches(c, components, ino)
    ensures AtDepth(c, ino, |components|)
    decreases |components|
  {
    if components != [] {
      ReachedDepth(c, components[..|components| - 1], ParentIno(c, ino).value);
    }
  }

  /** Every item on the way down to `ino` is in the listing of its folder. */
  predicate AllListed(c: Cache, ino: Ino, depth: nat)
    decreases depth
  {
    depth == 0
    || (var p := ParentIno(c, ino); p.Some? && ListedUnder(c, p.value, ino) && AllListed(c, p.value, depth - 1))
  }

  /**
   The way down to `ino` is cached: each item on it is stored under its folder, or listed
   like everything above it. A folder that is only stored gets its listing dropped on the way.
   */
  predicate Cached(c: Cache, ino: Ino, depth: nat)
    decreases depth
  {
    depth == 0
    || (var p := ParentIno(c, ino);
        && p.Some? && Cached(c, p.value, depth - 1)
        && (StoredUnder(c, p.value, ino) || AllListed(c, ino, depth)))
  }

  /** Listings are dropped at depths up to `depth` only. */
  ghost predicate DroppedAbove(c: Cache, d: Cache, depth: nat) {
    forall p :: p in c.listed && p !in d.listed ==> exists k: nat :: k <= depth && AtDepth(c, p, k)
  }

  /** What a walk of `depth` lookups keeps. */
  ghost predicate WalkInv(c: Cache, f: Found, depth: nat) {
    && Shrunk(c, f.cache) && DroppedAbove(c, f.cache, depth)
    && (f.ino.Some? ==>
          && AtDepth(c, f.ino.value, depth)
          && (f.ino.value in f.cache.listed <==> f.ino.value in c.listed && AllListed(c, f.ino.value, depth)))
  }

  lemma ShrunkIsConsistent(c: Cache, d: Cache)
    requires Consistent(c) && Shrunk(c, d)
    ensures Consistent(d)
  {
    assert forall p, name :: p in d.listed && name in d.listed[p] ==> IsChild(c, p, c.listed[p][name], name);
    assert forall p, i :: p in d.rows && 0 <= i < |d.rows[p]| ==> IsRow(c, p, d.rows[p][i]);
    assert forall x, y :: Siblings(d, x, y) ==> Siblings(c, x, y);
  }

  /** What a walk knows of the folder it has reached. */
  lemma SeenFromHere(c: Cache, m: Found, depth: nat, ino: Ino)
    requires WalkInv(c, m, depth) && m.ino.Some? && ParentIno(c, ino) == m.ino
    ensures StoredUnder(m.cache, m.ino.value, ino) <==> StoredUnder(c, m.ino.value, ino)
    ensures ListedUnder(m.cache, m.ino.value, ino) <==> AllListed(c, ino, depth + 1)
  {
  }

  /** One lookup of a walk finds exactly the named child, if it is stored or listed all the way. */
  lemma StepIsExact(c: Cache, m: Found, name: string, f: Found, depth: nat, ino: Ino)
    requires Consistent(m.cache) && WalkInv(c, m, depth) && m.ino.Some? && MayFind(m.cache, m.ino.value, name, f)
    ensures f.ino == Some(ino) <==> (
              && Names(c, m.ino.value, name, ino)
              && (StoredUnder(c, m.ino.value, ino) || AllListed(c, ino, depth + 1)))
  {
    var p := m.ino.value;
    FoundIsNamed(m.cache, p, name, f);
    if ParentIno(c, ino) == m.ino {
      SeenFromHere(c, m, depth, ino);
      if Names(m.cache, p, name, ino) && (StoredUnder(m.cache, p, ino) || ListedUnder(m.cache, p, ino)) {
        NamedIsFound(m.cache, p, name, f, ino);
      }
    }
  }

  lemma NotDroppedBefore(c: Cache, m: Found, ino: Ino, depth: nat)
    requires DroppedAbove(c, m.cache, depth) && AtDepth(c, ino, depth + 1)
    ensures ino in c.listed ==> ino in m.cache.listed
  {
    if ino in c.listed && ino !in m.cache.listed {
      var k: nat :| k <= depth && AtDepth(c, ino, k);
      DepthIsUnique(c, ino, k, depth + 1);
    }
  }

  lemma DroppedDeeper(c: Cache, d: Cache, e: Cache, ino: Ino, depth: nat)
    requires DroppedAbove(c, d, depth) && AtDepth(c, ino, depth + 1)
    requires e.listed == d.listed || e.listed == d.listed - {ino}
    ensures DroppedAbove(c, e, depth + 1)
  {
    forall p | p in c.listed && p !in e.listed ensures exists k: nat :: k <= depth + 1 && AtDepth(c, p, k) {
      if p !in d.listed {
        var k: nat :| k <= depth && AtDepth(c, p, k);
        assert k <= depth + 1;
      } else {
        assert AtDepth(c, p, depth + 1);
      }
    }
  }

  lemma StepDown(c: Cache, m: Found, name: string, f: Found, depth: nat)
    requires Consistent(m.cache) && WalkInv(c, m, depth) && m.ino.Some?
    requires MayFind(m.cache, m.ino.value, name, f) && f.ino.Some?
    ensures WalkInv(c, f, depth + 1)
  {
    var ino := f.ino.value;
    FoundIsNamed(m.cache, m.ino.value, name, f);
    assert ParentIno(c, ino) == m.ino;
    SeenFromHere(c, m, depth, ino);
    NotDroppedBefore(c, m, ino, depth);
    DroppedDeeper(c, m.cache, f.cache, ino, depth);
  }

  lemma StepKeepsWalkInv(c: Cache, m: Found, name: string, f: Found, depth: nat)
    requires Consistent(m.cache) && WalkInv(c, m, depth) && MayStep(m, name, f)
    ensures WalkInv(c, f, depth + 1)
  {
    if f.ino.Some? {
      StepDown(c, m, name, f, depth);
    } else {
      if m.ino.Some? {
        FoundIsNamed(m.cache, m.ino.value, name, f);
      }
      assert forall p: Ino, k: nat :: k <= depth && AtDepth(c, p, k) ==> k <= depth + 1;
    }
  }

  /** The components name `ino`, and the way to it is cached. */
  predicate Leads(c: Cache, components: seq<string>, ino: Ino) {
    Reaches(c, components, ino) && Cached(c, ino, |components|)
  }

  lemma LeadsUnfolds(c: Cache, components: seq<string>, ino: Ino)
    requires components != []
    ensures var n := |components| - 1;
      var p := ParentIno(c, ino);
      Leads(c, components, ino) <==> (
        && p.Some? && Leads(c, components[..n], p.value) && Names(c, p.value, components[n], ino)
        && (StoredUnder(c, p.value, ino) || AllListed(c, ino, n + 1)))
  {
  }

  /**
   Walking down a consistent cache finds exactly the item that the components name, if the
   way to it is cached.
   */
  lemma {:induction false} WalkIsExact(c: Cache, components: seq<string>, f: Found, ino: Ino)
    requires Consistent(c) && MayWalk(c, components, f)
    ensures WalkInv(c, f, |components|)
    ensures f.ino == Some(ino) <==> Leads(c, components, ino)
    decreases |components|
  {
    if components != [] {
      var n := |components| - 1;
      var m :| MayWalk(c, components[..n], m) && MayStep(m, components[n], f);
      var p := ParentIno(c, ino);
      WalkIsExact(c, components[..n], m, if p.Some? then p.value else ROOT);
      ShrunkIsConsistent(c, m.cache);
      StepKeepsWalkInv(c, m, components[n], f, n);
      LeadsUnfolds(c, components, ino);
      if m.ino.Some? {
        StepIsExact(c, m, components[n], f, n, ino);
      }
    }
  }

  /** Where SQLite has every item below its folder, every way is cached. */
  lemma {:induction false} StoredIsCached(c: Cache, ino: Ino, depth: nat)
    requires AllHaveParents(c) && ino in c.nodes && AtDepth(c, ino, depth)
    requires forall i :: i in c.nodes && ParentIno(c, i).Some? ==> StoredUnder(c, ParentIno(c, i).value, i)
    ensures Cached(c, ino, depth)
    decreases depth
  {
    if depth > 0 {
      assert HasParent(c, ino);
      StoredIsCached(c, ParentIno(c, ino).value, depth - 1);
    }
  }

  lemma ClimbUnfolds(c: Cache, ino: Ino, safety: nat)
    requires ino in c.nodes && HasParent(c, ino) && safety > 0
    ensures Climb(c.nodes, c.table.itemToInode, ino, safety) ==
            Climb(c.nodes, c.table.itemToInode, ParentIno(c, ino).value, safety - 1) + [c.nodes[ino].name]
  {
  }

  lemma OneMoreSegment(c: Cache, above: seq<string>, ino: Ino)
    requires ino in c.nodes && HasParent(c, ino) && AreSegments(above)
    ensures AreSegments(above + [c.nodes[ino].name])
    ensures Reaches(c, above, ParentIno(c, ino).value) ==> Reaches(c, above + [c.nodes[ino].name], ino)
  {
    assert (above + [c.nodes[ino].name])[..|above|] == above;
  }

  /** The climb from an item collects one segment a level, up to its limit. */
  lemma {:induction false} ClimbCollects(c: Cache, ino: Ino, depth: nat, safety: nat)
    requires AllHaveParents(c) && ino in c.nodes && AtDepth(c, ino, depth)
    ensures var names := Climb(c.nodes, c.table.itemToInode, ino, safety);
      && |names| == Min(depth, safety) && AreSegments(names)
      && (depth <= safety ==> Reaches(c, names, ino))
    decreases depth
  {
    if depth > 0 && safety > 0 {
      assert HasParent(c, ino);
      var p := ParentIno(c, ino).value;
      ClimbCollects(c, p, depth - 1, safety - 1);
      ClimbUnfolds(c, ino, safety);
      OneMoreSegment(c, Climb(c.nodes, c.table.itemToInode, p, safety - 1), ino);
    }
  }

  lemma DisplayPathIsTheClimb(c: Cache, ino: Ino, depth: nat)
    requires AllHaveParents(c) && ino in c.nodes && AtDepth(c, ino, depth)
    ensures DisplayPath(c, ino) == Some(Joined(Climb(c.nodes, c.table.itemToInode, ino, MAX_CLIMB + 1)))
  {
    if depth > 0 {
      assert HasParent(c, ino);
    } else {
      assert "/" + "" == "/";
    }
  }

  /**
   Resolving the components of an item's display path gives the item back exactly when
   the item is at most 257 levels deep, as a longer path is cut off at the top, and the way
   down to it is cached.
   */
  lemma UpAndDownExactly(c: Cache, ino: Ino, depth: nat, f: Found)
    requires Consistent(c) && AllHaveParents(c) && ino in c.nodes && AtDepth(c, ino, depth)
    requires MayResolve(c, Components(DisplayPath(c, ino).value), f)
    ensures f.ino == Some(ino) <==> depth <= 257 && Cached(c, ino, depth)
  {
    DisplayPathIsTheClimb(c, ino, depth);
    ClimbCollects(c, ino, depth, MAX_CLIMB + 1);
    var names := Climb(c.nodes, c.table.itemToInode, ino, MAX_CLIMB + 1);
    ComponentsOfJoined(names);
    var w :| MayWalk(c, names, w) && f == LookedUp(w);
    WalkIsExact(c, names, w, ino);
    if depth > MAX_CLIMB + 1 && Reaches(c, names, ino) {
      ReachedDepth(c, names, ino);
      DepthIsUnique(c, ino, depth, |names|);
    }
  }

  /** Whatever the order of the listing, the lookup finds the same. */
  ghost predicate LookupIsUnique(c: Cache, parent: Ino, name: string) {
    forall f, g :: MayFind(c, parent, name, f) && MayFind(c, parent, name, g) ==> f.ino == g.ino
  }

  /** What the name `key` of a listing leads to: its child, or if that is not cached the first matching row. */
  function Target(c: Cache, parent: Ino, key: string, name: string): Option<Ino>
    requires parent in c.listed && key in c.listed[parent]
  {
    var child := c.listed[parent][key];
    if child in c.nodes then Some(child) else FromRows(c, parent, name).ino
  }

  /**
   A lookup has one possible result exactly when all names of the listing that match lead to
   the same item: where these are cached, exactly when they have the same inode.
   */
  lemma LookupIsUniqueExactly(c: Cache, parent: Ino, name: string)
    ensures LookupIsUnique(c, parent, name) <==>
      forall j, k :: Lists(c, parent, j, name) && Lists(c, parent, k, name) ==>
        Target(c, parent, j, name) == Target(c, parent, k, name)
    ensures (forall j :: Lists(c, parent, j, name) ==> c.listed[parent][j] in c.nodes) ==>
      (LookupIsUnique(c, parent, name) <==>
       forall j, k :: Lists(c, parent, j, name) && Lists(c, parent, k, name) ==>
         c.listed[parent][j] == c.listed[parent][k])
  {
    if LookupIsUnique(c, parent, name) {
      forall j, k | Lists(c, parent, j, name) && Lists(c, parent, k, name)
        ensures Target(c, parent, j, name) == Target(c, parent, k, name)
      {
        assert MayFind(c, parent, name, FromListing(c, parent, j, name));
        assert MayFind(c, parent, name, FromListing(c, parent, k, name));
      }
    }
  }

  /** Letter case does not matter on the way down. */
  lemma {:induction false} CaseIsIgnored(c: Cache, components: seq<string>, others: seq<string>, ino: Ino)
    requires |components| == |others| && Reaches(c, components, ino)
    requires forall i :: 0 <= i < |components| ==> NamesMatch(components[i], others[i])
    ensures Reaches(c, others, ino)
    decreases |components|
  {
    if components != [] {
      var n := |components| - 1;
      CaseIsIgnored(c, components[..n], others[..n], ParentIno(c, ino).value);
    }
  }
}
