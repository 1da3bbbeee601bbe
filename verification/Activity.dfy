/**
 The activity feed: which events it shows, and how it groups them.

 An event for a file is dropped when the same item and kind was shown within five
 seconds, as far back as 512 such events. Events in the same folder, less than two
 seconds apart, share a group. Times are in milliseconds and do not decrease; group ids
 are fresh.
 */
module Activity {
  import opened Wrappers
  import opened FileNames

  datatype Kind =
    | Created | Modified | Deleted
    | Renamed(oldName: string) | Moved(oldPath: string) | Conflict(conflictName: string)
    | Pinned | Unpinned

  datatype Source = Local | Remote | System

  datatype Input = Input(driveId: string, source: Source, kind: Kind, filePath: string, itemId: Option<string>)

  /** The kind without its details. */
  datatype Tag = Tag(name: string)

  datatype DedupKey = DedupKey(driveId: string, itemId: string, tag: Tag)

  datatype GroupKey = GroupKey(driveId: string, parentPath: string, source: Source, tag: Tag)

  const DEDUP_TTL: nat := 5_000

  const DEDUP_CAPACITY: nat := 512

  const GROUP_WINDOW: nat := 2_000

  function TagOf(kind: Kind): Tag {
    match kind
    case Created => Tag("created")
    case Modified => Tag("modified")
    case Deleted => Tag("deleted")
    case Renamed(_) => Tag("renamed")
    case Moved(_) => Tag("moved")
    case Conflict(_) => Tag("conflict")
    case Pinned => Tag("pinned")
    case Unpinned => Tag("unpinned")
  }

  /** The same kind, details aside. */
  predicate SameKind(a: Kind, b: Kind) {
    || (a.Created? && b.Created?) || (a.Modified? && b.Modified?) || (a.Deleted? && b.Deleted?)
    || (a.Renamed? && b.Renamed?) || (a.Moved? && b.Moved?) || (a.Conflict? && b.Conflict?)
    || (a.Pinned? && b.Pinned?) || (a.Unpinned? && b.Unpinned?)
  }

  /** Tags tell kinds apart, and forget nothing but their details. */
  lemma TagsTellKindsApart(a: Kind, b: Kind)
    ensures TagOf(a) == TagOf(b) <==> SameKind(a, b)
  {
    assert |"created"| == 7 && |"modified"| == 8 && |"deleted"| == 7 && |"renamed"| == 7 && |"moved"| == 5;
    assert |"conflict"| == 8 && |"pinned"| == 6 && |"unpinned"| == 8;
    assert "created"[0] != "deleted"[0] && "created"[0] != "renamed"[0] && "deleted"[0] != "renamed"[0];
    assert "modified"[0] != "conflict"[0] && "modified"[0] != "unpinned"[0] && "conflict"[0] != "unpinned"[0];
  }

  predicate IsDedupable(kind: Kind) {
    kind.Created? || kind.Modified? || kind.Deleted?
  }

  // -------------------------------------------------------------- file paths

  function FileNameOf(path: string): string {
    var p := LastIndexOf(path, '/');
    if p >= |path| - 1 then path else path[p + 1..]
  }

  function ParentPathOf(path: string): string {
    var p := LastIndexOf(path, '/');
    if p == 0 || p == |path| then "/" else path[..p]
  }

  /** A path put together from folder and name is taken apart again. */
  lemma PathsSplit(folder: string, name: string)
    requires name != "" && '/' !in name
    ensures FileNameOf(folder + "/" + name) == name
    ensures ParentPathOf(folder + "/" + name) == if folder == "" then "/" else folder
    ensures FileNameOf(name) == name && ParentPathOf(name) == "/"
    ensures FileNameOf(folder + "/") == folder + "/"
  {
    assert (folder + "/")[|folder|] == '/';
    assert LastIndexOf(folder + "/", '/') == |folder|;
    var path := folder + "/" + name;
    assert path[|folder|] == '/';
    assert forall i :: |folder| < i < |path| ==> path[i] == name[i - |folder| - 1];
    assert LastIndexOf(path, '/') == |folder|;
    assert LastIndexOf(name, '/') == |name|;
  }

  // ------------------------------------------------------- the state as a value

  datatype Stamp = Stamp(key: DedupKey, time: nat)

  datatype Group = Group(gid: string, lastSeen: nat)

  type Groups = map<GroupKey, Group>

  /** An event that was shown. */
  datatype Entry = Entry(input: Input, fileName: string, time: nat, gid: string)

  /** `log` is everything ever shown, and `now` the latest clock reading. */
  datatype Feed = Feed(queue: seq<Stamp>, groups: Groups, log: seq<Entry>, now: nat)

  const EMPTY := Feed([], map[], [], 0)

  function DedupKeyOf(input: Input): Option<DedupKey> {
    if input.itemId.Some? && IsDedupable(input.kind)
    then Some(DedupKey(input.driveId, input.itemId.value, TagOf(input.kind)))
    else None
  }

  function GroupKeyOf(input: Input): GroupKey {
    GroupKey(input.driveId, ParentPathOf(input.filePath), input.source, TagOf(input.kind))
  }

  function Purged(queue: seq<Stamp>, now: nat): seq<Stamp> {
    if queue != [] && Elapsed(now, queue[0].time) > DEDUP_TTL then Purged(queue[1..], now) else queue
  }

  function Inserted(queue: seq<Stamp>, stamp: Stamp): seq<Stamp> {
    (if |queue| >= DEDUP_CAPACITY then queue[1..] else queue) + [stamp]
  }

  predicate Holds(queue: seq<Stamp>, key: DedupKey) {
    exists i :: 0 <= i < |queue| && queue[i].key == key
  }

  function Retained(groups: Groups, now: nat): Groups {
    map k | k in groups && Elapsed(now, groups[k].lastSeen) <= GROUP_WINDOW :: groups[k]
  }

  function Assigned(groups: Groups, key: GroupKey, now: nat, newGid: string): string {
    var kept := Retained(groups, now);
    if key in kept then kept[key].gid else newGid
  }

  function Show(s: Feed, input: Input, now: nat, newGid: string): Feed {
    var key := GroupKeyOf(input);
    var gid := Assigned(s.groups, key, now, newGid);
    s.(groups := Retained(s.groups, now)[key := Group(gid, now)],
       log := s.log + [Entry(input, FileNameOf(input.filePath), now, gid)],
       now := now)
  }

  /** An event whose file is not transient. */
  function OnPassed(s: Feed, input: Input, now: nat, newGid: string): Feed {
    var key := DedupKeyOf(input);
    if key.None? then Show(s, input, now, newGid)
    else
      var queue := Purged(s.queue, now);
      if Holds(queue, key.value) then s.(queue := queue, now := now)
      else Show(s.(queue := Inserted(queue, Stamp(key.value, now))), input, now, newGid)
  }

  function OnRecord(s: Feed, input: Input, now: nat, newGid: string): Feed {
    if IsTransient(FileNameOf(input.filePath)) then s else OnPassed(s, input, now, newGid)
  }

  // --------------------------------------------------------- deduplication

  /** The events shown that take part in deduplication. */
  function Shown(log: seq<Entry>): seq<Stamp> {
    if log == [] then []
    else
      var last := log[|log| - 1];
      Shown(log[..|log| - 1])
      + if DedupKeyOf(last.input).Some? then [Stamp(DedupKeyOf(last.input).value, last.time)] else []
  }

  /** The same item and kind was shown less than five seconds ago, among the latest 512. */
  predicate Recent(shown: seq<Stamp>, key: DedupKey, now: nat) {
    exists k :: 0 <= k < |shown| && shown[k].key == key && Elapsed(now, shown[k].time) <= 5_000 && |shown| - k <= 512
  }

  /** Repeats within five seconds have at least 512 other events in between. */
  ghost predicate RepeatsAreRare(shown: seq<Stamp>) {
    forall i, j :: 0 <= i < j < |shown| && shown[i].key == shown[j].key ==>
      shown[j].time - shown[i].time > DEDUP_TTL || j - i > DEDUP_CAPACITY
  }

  predicate InOrder(shown: seq<Stamp>, now: nat) {
    && (forall i, j :: 0 <= i < j < |shown| ==> shown[i].time <= shown[j].time)
    && (forall i :: 0 <= i < |shown| ==> shown[i].time <= now)
  }

  /** The queue is the end of what was shown; everything before it is too old or too far back. */
  ghost predicate QueueInv(shown: seq<Stamp>, queue: seq<Stamp>, now: nat) {
    && |queue| <= |shown| && |queue| <= DEDUP_CAPACITY
    && queue == shown[|shown| - |queue|..]
    && InOrder(shown, now)
    && (forall k :: 0 <= k < |shown| - |queue| ==>
          Elapsed(now, shown[k].time) > DEDUP_TTL || |shown| - k > DEDUP_CAPACITY)
  }

  lemma {:induction false} PurgeKeepsQueueInv(shown: seq<Stamp>, queue: seq<Stamp>, before: nat, now: nat)
    requires QueueInv(shown, queue, before) && before <= now
    ensures QueueInv(shown, Purged(queue, now), now)
    ensures Purged(queue, now) != [] ==> Elapsed(now, Purged(queue, now)[0].time) <= DEDUP_TTL
    decreases |queue|
  {
    assert QueueInv(shown, queue, now);
    if queue != [] && Elapsed(now, queue[0].time) > DEDUP_TTL {
      var at := |shown| - |queue|;
      assert queue[0] == shown[at];
      assert queue[1..] == shown[at + 1..];
      PurgeKeepsQueueInv(shown, queue[1..], now, now);
    }
  }

  /** What the purged queue holds is what was shown recently, no more and no less. */
  lemma HeldExactlyWhenRecent(shown: seq<Stamp>, queue: seq<Stamp>, key: DedupKey, now: nat)
    requires QueueInv(shown, queue, now) && (queue != [] ==> Elapsed(now, queue[0].time) <= DEDUP_TTL)
    ensures Holds(queue, key) <==> Recent(shown, key, now)
  {
    if Holds(queue, key) {
      HeldIsRecent(shown, queue, key, now);
    }
    if Recent(shown, key, now) {
      RecentIsHeld(shown, queue, key, now);
    }
  }

  lemma HeldIsRecent(shown: seq<Stamp>, queue: seq<Stamp>, key: DedupKey, now: nat)
    requires QueueInv(shown, queue, now) && (queue != [] ==> Elapsed(now, queue[0].time) <= DEDUP_TTL)
    requires Holds(queue, key)
    ensures Recent(shown, key, now)
  {
    var at := |shown| - |queue|;
    var i :| 0 <= i < |queue| && queue[i].key == key;
    assert queue[0] == shown[at] && shown[at + i] == queue[i];
    assert shown[at].time <= shown[at + i].time;
  }

  lemma RecentIsHeld(shown: seq<Stamp>, queue: seq<Stamp>, key: DedupKey, now: nat)
    requires QueueInv(shown, queue, now) && Recent(shown, key, now)
    ensures Holds(queue, key)
  {
    var at := |shown| - |queue|;
    var k :| 0 <= k < |shown| && shown[k].key == key && Elapsed(now, shown[k].time) <= DEDUP_TTL
      && |shown| - k <= DEDUP_CAPACITY;
    assert k >= at;
    assert queue[k - at] == shown[k];
  }

  lemma InsertKeepsQueueInv(shown: seq<Stamp>, queue: seq<Stamp>, stamp: Stamp)
    requires QueueInv(shown, queue, stamp.time)
    ensures QueueInv(shown + [stamp], Inserted(queue, stamp), stamp.time)
  {
    var at := |shown| - |queue|;
    if |queue| >= DEDUP_CAPACITY {
      assert queue[1..] == shown[at + 1..];
      assert Inserted(queue, stamp) == (shown + [stamp])[at + 1..];
    } else {
      assert Inserted(queue, stamp) == (shown + [stamp])[at..];
    }
  }

  lemma NewKeepsRepeatsRare(shown: seq<Stamp>, stamp: Stamp)
    requires RepeatsAreRare(shown) && InOrder(shown, stamp.time) && !Recent(shown, stamp.key, stamp.time)
    ensures RepeatsAreRare(shown + [stamp])
  {
    var all := shown + [stamp];
    forall i, j | 0 <= i < j < |all| && all[i].key == all[j].key
      ensures all[j].time - all[i].time > DEDUP_TTL || j - i > DEDUP_CAPACITY
    {
      assert all[i] == shown[i];
      if j < |shown| {
        assert all[j] == shown[j];
      }
    }
  }

  // --------------------------------------------------------------- grouping

  function KeyAt(log: seq<Entry>, i: nat): GroupKey
    requires i < |log|
  {
    GroupKeyOf(log[i].input)
  }

  /** The last entry before `j` with the given group key. */
  function LatestBefore(log: seq<Entry>, j: nat, key: GroupKey): (r: Option<nat>)
    requires j <= |log|
    ensures r.Some? ==>
      r.value < j && KeyAt(log, r.value) == key && forall k :: r.value < k < j ==> KeyAt(log, k) != key
    ensures r.None? ==> forall k :: 0 <= k < j ==> KeyAt(log, k) != key
  {
    if j == 0 then None
    else if KeyAt(log, j - 1) == key then Some(j - 1)
    else LatestBefore(log, j - 1, key)
  }

  ghost predicate LogInOrder(log: seq<Entry>, now: nat) {
    && (forall i, j :: 0 <= i < j < |log| ==> log[i].time <= log[j].time)
    && (forall i :: 0 <= i < |log| ==> log[i].time <= now)
  }

  predicate GidIsNew(log: seq<Entry>, n: nat, gid: string)
    requires n <= |log|
  {
    forall i :: 0 <= i < n ==> log[i].gid != gid
  }

  /**
   An entry joins the group of the previous entry with its key when that is at most two
   seconds old, and starts a group of its own otherwise.
   */
  predicate GroupedRight(log: seq<Entry>, j: nat)
    requires j < |log|
  {
    var p := LatestBefore(log, j, KeyAt(log, j));
    if p.Some? && Elapsed(log[j].time, log[p.value].time) <= GROUP_WINDOW
    then log[j].gid == log[p.value].gid
    else GidIsNew(log, j, log[j].gid)
  }

  ghost predicate AllGroupedRight(log: seq<Entry>) {
    forall j :: 0 <= j < |log| ==> GroupedRight(log, j)
  }

  /** The open groups are those of the latest entry of each key; a key without one was last seen too long ago. */
  predicate GroupOf(log: seq<Entry>, groups: Groups, now: nat, key: GroupKey) {
    var p := LatestBefore(log, |log|, key);
    if p.None? then key !in groups
    else if key in groups then groups[key] == Group(log[p.value].gid, log[p.value].time)
    else Elapsed(now, log[p.value].time) > GROUP_WINDOW
  }

  ghost predicate GroupsInv(log: seq<Entry>, groups: Groups, now: nat) {
    && LogInOrder(log, now)
    && AllGroupedRight(log)
    && forall key :: GroupOf(log, groups, now, key)
  }

  lemma {:induction false} LatestIgnoresTheRest(log: seq<Entry>, e: Entry, j: nat, key: GroupKey)
    requires j <= |log|
    ensures LatestBefore(log + [e], j, key) == LatestBefore(log, j, key)
    decreases j
  {
    if j > 0 {
      assert KeyAt(log + [e], j - 1) == KeyAt(log, j - 1);
      LatestIgnoresTheRest(log, e, j - 1, key);
    }
  }

  lemma GroupedStaysRight(log: seq<Entry>, e: Entry, j: nat)
    requires j < |log| && GroupedRight(log, j)
    ensures GroupedRight(log + [e], j)
  {
    LatestIgnoresTheRest(log, e, j, KeyAt(log, j));
    assert forall i :: 0 <= i <= j ==> (log + [e])[i] == log[i];
  }

  lemma NewEntryIsGroupedRight(log: seq<Entry>, groups: Groups, before: nat, now: nat, e: Entry, newGid: string)
    requires GroupsInv(log, groups, before) && before <= now && GidIsNew(log, |log|, newGid)
    requires e.time == now && e.gid == Assigned(groups, GroupKeyOf(e.input), now, newGid)
    ensures GroupedRight(log + [e], |log|)
  {
    var key := GroupKeyOf(e.input);
    LatestIgnoresTheRest(log, e, |log|, key);
    assert GroupOf(log, groups, before, key);
    var p := LatestBefore(log, |log|, key);
    if p.Some? {
      assert (log + [e])[p.value] == log[p.value];
    }
    assert forall i :: 0 <= i < |log| ==> (log + [e])[i] == log[i];
  }

  lemma ShowKeepsGroups(s: Feed, input: Input, now: nat, newGid: string)
    requires GroupsInv(s.log, s.groups, s.now) && s.now <= now && GidIsNew(s.log, |s.log|, newGid)
    ensures var t := Show(s, input, now, newGid); GroupsInv(t.log, t.groups, t.now)
  {
    var t := Show(s, input, now, newGid);
    var e := t.log[|s.log|];
    NewEntryIsGroupedRight(s.log, s.groups, s.now, now, e, newGid);
    forall j | 0 <= j < |t.log| ensures GroupedRight(t.log, j) {
      if j < |s.log| {
        GroupedStaysRight(s.log, e, j);
      }
    }
    forall key ensures GroupOf(t.log, t.groups, t.now, key) {
      assert GroupOf(s.log, s.groups, s.now, key);
      NewEntryKeepsGroup(s.log, s.groups, s.now, now, e, key);
    }
  }

  lemma NewEntryKeepsGroup(log: seq<Entry>, groups: Groups, before: nat, now: nat, e: Entry, key: GroupKey)
    requires LogInOrder(log, before) && before <= now && e.time == now && GroupOf(log, groups, before, key)
    ensures GroupOf(log + [e], Retained(groups, now)[GroupKeyOf(e.input) := Group(e.gid, now)], now, key)
  {
    LatestIgnoresTheRest(log, e, |log|, key);
  }

  lemma LaterKeepsGroups(s: Feed, now: nat)
    requires GroupsInv(s.log, s.groups, s.now) && s.now <= now
    ensures GroupsInv(s.log, s.groups, now)
  {
    forall key ensures GroupOf(s.log, s.groups, now, key) {
      assert GroupOf(s.log, s.groups, s.now, key);
    }
  }

  /** From `i` on, every entry with its key up to `j` follows the previous one within two seconds. */
  predicate Burst(log: seq<Entry>, i: nat, j: nat)
    requires i <= j < |log|
  {
    && KeyAt(log, i) == KeyAt(log, j)
    && forall k :: i < k <= j && KeyAt(log, k) == KeyAt(log, i) ==> Follows(log, k)
  }

  predicate Follows(log: seq<Entry>, k: nat)
    requires k < |log|
  {
    var p := LatestBefore(log, k, KeyAt(log, k));
    p.Some? && Elapsed(log[k].time, log[p.value].time) <= 2_000
  }

  lemma BurstsExtend(log: seq<Entry>, i: nat, p: nat, j: nat)
    requires i <= p < j < |log| && Follows(log, j) && LatestBefore(log, j, KeyAt(log, j)) == Some(p)
    ensures Burst(log, i, j) <==> Burst(log, i, p)
  {
    assert KeyAt(log, p) == KeyAt(log, j);
    forall k | p < k <= j && KeyAt(log, k) == KeyAt(log, j) ensures k == j {
    }
  }

  /** Two entries are shown in one group exactly when they belong to one burst in one folder. */
  lemma {:induction false} GroupsAreBursts(log: seq<Entry>, i: nat, j: nat)
    requires AllGroupedRight(log) && i <= j < |log|
    ensures log[i].gid == log[j].gid <==> Burst(log, i, j)
    decreases j
  {
    assert GroupedRight(log, j);
    if i < j && Follows(log, j) {
      var p := LatestBefore(log, j, KeyAt(log, j)).value;
      if p < i {
        assert KeyAt(log, i) != KeyAt(log, j);
        OtherKeyOtherGroup(log, i, j);
      } else {
        GroupsAreBursts(log, i, p);
        BurstsExtend(log, i, p, j);
      }
    }
  }

  lemma {:induction false} OtherKeyOtherGroup(log: seq<Entry>, i: nat, j: nat)
    requires AllGroupedRight(log) && i < j < |log| && KeyAt(log, i) != KeyAt(log, j)
    ensures log[i].gid != log[j].gid
    decreases i + j
  {
    assert GroupedRight(log, j) && GroupedRight(log, i);
    if Follows(log, j) {
      var p := LatestBefore(log, j, KeyAt(log, j)).value;
      if p > i {
        OtherKeyOtherGroup(log, i, p);
      } else {
        OtherKeyOtherGroup(log, p, i);
      }
    }
  }

  // ------------------------------------------------------------------- runs

  ghost predicate Inv(s: Feed) {
    && QueueInv(Shown(s.log), s.queue, s.now)
    && RepeatsAreRare(Shown(s.log))
    && GroupsInv(s.log, s.groups, s.now)
  }

  lemma ShownSnoc(log: seq<Entry>, e: Entry)
    ensures Shown(log + [e]) ==
      Shown(log) + if DedupKeyOf(e.input).Some? then [Stamp(DedupKeyOf(e.input).value, e.time)] else []
  {
    assert (log + [e])[..|log|] == log;
  }

  lemma LaterKeepsQueue(shown: seq<Stamp>, queue: seq<Stamp>, before: nat, now: nat)
    requires QueueInv(shown, queue, before) && before <= now
    ensures QueueInv(shown, queue, now)
  {
  }

  lemma DedupKeeps(s: Feed, key: DedupKey, now: nat)
    requires QueueInv(Shown(s.log), s.queue, s.now) && RepeatsAreRare(Shown(s.log)) && s.now <= now
    ensures Holds(Purged(s.queue, now), key) <==> Recent(Shown(s.log), key, now)
    ensures QueueInv(Shown(s.log), Purged(s.queue, now), now)
    ensures var stamp := Stamp(key, now);
      !Recent(Shown(s.log), key, now) ==>
        && QueueInv(Shown(s.log) + [stamp], Inserted(Purged(s.queue, now), stamp), now)
        && RepeatsAreRare(Shown(s.log) + [stamp])
  {
    var shown, queue := Shown(s.log), Purged(s.queue, now);
    PurgeKeepsQueueInv(shown, s.queue, s.now, now);
    HeldExactlyWhenRecent(shown, queue, key, now);
    if !Recent(shown, key, now) {
      InsertKeepsQueueInv(shown, queue, Stamp(key, now));
      NewKeepsRepeatsRare(shown, Stamp(key, now));
    }
  }

  predicate Repeats(s: Feed, input: Input, now: nat) {
    DedupKeyOf(input).Some? && Recent(Shown(s.log), DedupKeyOf(input).value, now)
  }

  /** An event is dropped exactly when its file is transient or the same was shown recently. */
  predicate Drops(s: Feed, input: Input, now: nat) {
    IsTransient(FileNameOf(input.filePath)) || Repeats(s, input, now)
  }

  /** What recording an event does to the log. */
  ghost predicate Logs(s: Feed, input: Input, now: nat, dropped: bool, t: Feed) {
    if dropped then t.log == s.log
    else
      && |t.log| == |s.log| + 1 && t.log[..|s.log|] == s.log
      && t.log[|s.log|].input == input && t.log[|s.log|].time == now
      && t.log[|s.log|].fileName == FileNameOf(input.filePath)
  }

  lemma ShowIsRight(s: Feed, queue: seq<Stamp>, input: Input, now: nat, newGid: string, shown: seq<Stamp>)
    requires GroupsInv(s.log, s.groups, s.now) && s.now <= now && GidIsNew(s.log, |s.log|, newGid)
    requires shown == Shown(s.log) + if DedupKeyOf(input).Some? then [Stamp(DedupKeyOf(input).value, now)] else []
    requires QueueInv(shown, queue, now) && RepeatsAreRare(shown)
    ensures Inv(Show(s.(queue := queue), input, now, newGid))
  {
    ShowKeepsGroups(s.(queue := queue), input, now, newGid);
    var t := Show(s.(queue := queue), input, now, newGid);
    ShownSnoc(s.log, t.log[|s.log|]);
    assert Shown(t.log) == shown;
  }

  lemma PassedIsRight(s: Feed, input: Input, now: nat, newGid: string)
    requires Inv(s) && s.now <= now && GidIsNew(s.log, |s.log|, newGid)
    ensures Inv(OnPassed(s, input, now, newGid))
    ensures Logs(s, input, now, Repeats(s, input, now), OnPassed(s, input, now, newGid))
  {
    var key := DedupKeyOf(input);
    if key.None? {
      LaterKeepsQueue(Shown(s.log), s.queue, s.now, now);
      ShowIsRight(s, s.queue, input, now, newGid, Shown(s.log) + []);
    } else {
      DedupKeeps(s, key.value, now);
      if Recent(Shown(s.log), key.value, now) {
        LaterKeepsGroups(s, now);
      } else {
        var stamp := Stamp(key.value, now);
        ShowIsRight(s, Inserted(Purged(s.queue, now), stamp), input, now, newGid, Shown(s.log) + [stamp]);
      }
    }
  }

  lemma RecordIsRight(s: Feed, input: Input, now: nat, newGid: string)
    requires Inv(s) && s.now <= now && GidIsNew(s.log, |s.log|, newGid)
    ensures Inv(OnRecord(s, input, now, newGid))
    ensures Logs(s, input, now, Drops(s, input, now), OnRecord(s, input, now, newGid))
  {
    PassedIsRight(s, input, now, newGid);
  }

  datatype Call = Call(input: Input, now: nat, newGid: string)

  function Run(s: Feed, calls: seq<Call>): Feed
    decreases |calls|
  {
    if calls == [] then s else Run(OnRecord(s, calls[0].input, calls[0].now, calls[0].newGid), calls[1..])
  }

  /** Clocks do not run backwards, and new group ids have not been used before. */
  ghost predicate Timely(s: Feed, calls: seq<Call>)
    decreases |calls|
  {
    calls != [] ==>
      && s.now <= calls[0].now && GidIsNew(s.log, |s.log|, calls[0].newGid)
      && Timely(OnRecord(s, calls[0].input, calls[0].now, calls[0].newGid), calls[1..])
  }

  lemma {:induction false} RunKeepsInv(s: Feed, calls: seq<Call>)
    requires Inv(s) && Timely(s, calls)
    ensures Inv(Run(s, calls))
    decreases |calls|
  {
    if calls != [] {
      RecordIsRight(s, calls[0].input, calls[0].now, calls[0].newGid);
      RunKeepsInv(OnRecord(s, calls[0].input, calls[0].now, calls[0].newGid), calls[1..]);
    }
  }

  /**
   Over every run, the same item and kind is shown again within five seconds only after 512
   or more other such events.
   */
  lemma RepeatsAreRareInRuns(s: Feed, calls: seq<Call>, i: nat, j: nat)
    requires Inv(s) && Timely(s, calls) && i < j < |Shown(Run(s, calls).log)|
    ensures var shown := Shown(Run(s, calls).log);
      shown[i].key == shown[j].key && shown[j].time - shown[i].time <= 5_000 ==> j - i - 1 >= 512
  {
    RunKeepsInv(s, calls);
  }

  /** Over every run, two entries are in one group exactly when they belong to one burst. */
  lemma GroupsAreBurstsInRuns(s: Feed, calls: seq<Call>, i: nat, j: nat)
    requires Inv(s) && Timely(s, calls) && i <= j < |Run(s, calls).log|
    ensures var log := Run(s, calls).log; log[i].gid == log[j].gid <==> Burst(log, i, j)
  {
    RunKeepsInv(s, calls);
    GroupsAreBursts(Run(s, calls).log, i, j);
  }

  /** After every run, an event is shown exactly when its file is not transient and it is not a recent repeat. */
  lemma ShownExactlyWhenNew(s: Feed, calls: seq<Call>, input: Input, now: nat, newGid: string)
    requires Inv(s) && Timely(s, calls + [Call(input, now, newGid)])
    ensures var t := Run(s, calls); Logs(t, input, now, Drops(t, input, now), OnRecord(t, input, now, newGid))
  {
    TimelySplits(s, calls, Call(input, now, newGid));
    RunKeepsInv(s, calls);
    RecordIsRight(Run(s, calls), input, now, newGid);
  }

  /** The entry was a change of the same item, of the same kind. */
  predicate SameChange(e: Entry, input: Input) {
    && input.itemId.Some? && (input.kind.Created? || input.kind.Modified? || input.kind.Deleted?)
    && e.input.driveId == input.driveId && e.input.itemId == input.itemId && SameKind(e.input.kind, input.kind)
  }

  /** The event repeats entry `k`, at most five seconds later and with less than 512 such events in between. */
  predicate RepeatsEntry(log: seq<Entry>, k: nat, input: Input, now: nat) {
    k < |log| && SameChange(log[k], input) && Elapsed(now, log[k].time) <= 5_000 && |Shown(log[k + 1..])| < 512
  }

  lemma {:induction false} ShownOfBoth(a: seq<Entry>, b: seq<Entry>)
    ensures Shown(a + b) == Shown(a) + Shown(b)
    decreases |b|
  {
    if b == [] {
      assert a + b == a;
    } else {
      var n := |b| - 1;
      assert (a + b)[..|a| + n] == a + b[..n];
      ShownOfBoth(a, b[..n]);
    }
  }

  lemma ShownAround(before: seq<Entry>, e: Entry, after: seq<Entry>)
    requires DedupKeyOf(e.input).Some?
    ensures Shown(before + [e] + after) ==
            Shown(before) + [Stamp(DedupKeyOf(e.input).value, e.time)] + Shown(after)
  {
    ShownOfBoth(before + [e], after);
    ShownSnoc(before, e);
  }

  lemma ShownAt(log: seq<Entry>, k: nat)
    requires k < |log| && DedupKeyOf(log[k].input).Some?
    ensures |Shown(log)| == |Shown(log[..k])| + 1 + |Shown(log[k + 1..])|
    ensures Shown(log)[|Shown(log[..k])|] == Stamp(DedupKeyOf(log[k].input).value, log[k].time)
  {
    var before, e, after := log[..k], log[k], log[k + 1..];
    assert before + [e] + after == log;
    ShownAround(before, e, after);
  }

  lemma {:induction false} ShownIsLogged(log: seq<Entry>, i: nat) returns (k: nat)
    requires i < |Shown(log)|
    ensures k < |log| && i == |Shown(log[..k])|
    ensures DedupKeyOf(log[k].input) == Some(Shown(log)[i].key) && log[k].time == Shown(log)[i].time
    decreases |log|
  {
    var n := |log| - 1;
    if i < |Shown(log[..n])| {
      k := ShownIsLogged(log[..n], i);
      assert log[..n][..k] == log[..k];
    } else {
      k := n;
    }
  }

  lemma RecentIsRepeated(log: seq<Entry>, input: Input, now: nat) returns (k: nat)
    requires DedupKeyOf(input).Some? && Recent(Shown(log), DedupKeyOf(input).value, now)
    ensures RepeatsEntry(log, k, input, now)
  {
    var key, shown := DedupKeyOf(input).value, Shown(log);
    var i :| 0 <= i < |shown| && shown[i].key == key && Elapsed(now, shown[i].time) <= 5_000 && |shown| - i <= 512;
    k := ShownIsLogged(log, i);
    ShownAt(log, k);
    TagsTellKindsApart(log[k].input.kind, input.kind);
  }

  lemma RepeatedIsRecent(log: seq<Entry>, k: nat, input: Input, now: nat)
    requires RepeatsEntry(log, k, input, now)
    ensures DedupKeyOf(input).Some? && Recent(Shown(log), DedupKeyOf(input).value, now)
  {
    TagsTellKindsApart(log[k].input.kind, input.kind);
    ShownAt(log, k);
  }

  /**
   An event leaves the log as it is exactly when the name of its file is transient, or it
   repeats a creation, modification or deletion of the same item.
   */
  lemma DroppedExactly(s: Feed, folder: string, name: string, input: Input, now: nat, newGid: string)
    requires Inv(s) && s.now <= now && GidIsNew(s.log, |s.log|, newGid)
    requires name != "" && '/' !in name && input.filePath == folder + "/" + name
    ensures OnRecord(s, input, now, newGid).log == s.log <==>
            IsTransient(name) || exists k :: RepeatsEntry(s.log, k, input, now)
  {
    PathsSplit(folder, name);
    RecordIsRight(s, input, now, newGid);
    if Repeats(s, input, now) {
      var k := RecentIsRepeated(s.log, input, now);
    }
    if k: nat :| RepeatsEntry(s.log, k, input, now) {
      RepeatedIsRecent(s.log, k, input, now);
    }
  }

  /** Entries are grouped by drive, folder, source and kind. */
  lemma SameGroupKeyExactly(a: Input, b: Input)
    ensures GroupKeyOf(a) == GroupKeyOf(b) <==>
            && a.driveId == b.driveId && ParentPathOf(a.filePath) == ParentPathOf(b.filePath)
            && a.source == b.source && SameKind(a.kind, b.kind)
  {
    TagsTellKindsApart(a.kind, b.kind);
  }

  /**
   A change made here and then seen again by delta sync is shown once: after an event was
   shown, one for the same item and kind within five seconds is dropped, whatever its
   source and path.
   */
  lemma EchoIsDropped(s: Feed, first: Input, echo: Input, now: nat, later: nat, newGid: string)
    requires Inv(s) && s.now <= now <= later <= now + 5_000 && GidIsNew(s.log, |s.log|, newGid)
    requires !Drops(s, first, now) && first.itemId.Some?
    requires first.kind.Created? || first.kind.Modified? || first.kind.Deleted?
    requires echo.driveId == first.driveId && echo.itemId == first.itemId && echo.kind == first.kind
    ensures Drops(OnRecord(s, first, now, newGid), echo, later)
  {
    RecordIsRight(s, first, now, newGid);
    var t := OnRecord(s, first, now, newGid);
    var e := t.log[|s.log|];
    assert t.log == s.log + [e];
    ShownSnoc(s.log, e);
    var shown, key := Shown(t.log), DedupKeyOf(first).value;
    assert shown[|shown| - 1] == Stamp(key, now);
    assert Recent(shown, key, later);
  }

  lemma {:induction false} TimelySplits(s: Feed, calls: seq<Call>, last: Call)
    requires Timely(s, calls + [last])
    ensures Timely(s, calls) && Run(s, calls).now <= last.now
    ensures GidIsNew(Run(s, calls).log, |Run(s, calls).log|, last.newGid)
    decreases |calls|
  {
    if calls != [] {
      assert (calls + [last])[1..] == calls[1..] + [last];
      TimelySplits(OnRecord(s, calls[0].input, calls[0].now, calls[0].newGid), calls[1..], last);
    }
  }

  // ------------------------------------------------------------ the classes

  /** The map indexes exactly the keys of the queue, each of which occurs once. */
  ghost predicate Indexes(byKey: map<DedupKey, nat>, queue: seq<Stamp>) {
    && (forall i :: 0 <= i < |queue| ==> queue[i].key in byKey && byKey[queue[i].key] == queue[i].time)
    && (forall key :: key in byKey ==> Holds(queue, key))
    && (forall i, j :: 0 <= i < j < |queue| ==> queue[i].key != queue[j].key)
  }

  lemma PopKeepsIndex(byKey: map<DedupKey, nat>, queue: seq<Stamp>)
    requires Indexes(byKey, queue) && queue != []
    ensures Indexes(byKey - {queue[0].key}, queue[1..])
  {
    var rest, fewer := queue[1..], byKey - {queue[0].key};
    assert forall i :: 0 <= i < |rest| ==> rest[i] == queue[i + 1];
    forall key | key in fewer ensures Holds(rest, key) {
      assert Holds(queue, key);
      var i :| 0 <= i < |queue| && queue[i].key == key;
      assert rest[i - 1].key == key;
    }
  }

  lemma PushKeepsIndex(byKey: map<DedupKey, nat>, queue: seq<Stamp>, key: DedupKey, now: nat)
    requires Indexes(byKey, queue) && key !in byKey
    ensures Indexes(byKey[key := now], queue + [Stamp(key, now)])
  {
    var longer := queue + [Stamp(key, now)];
    forall k | k in byKey[key := now] ensures Holds(longer, k) {
      if k == key {
        assert longer[|queue|].key == key;
      } else {
        var i :| 0 <= i < |queue| && queue[i].key == k;
        assert longer[i].key == k;
      }
    }
  }

  class DedupState {
    var queue: seq<Stamp>
    var byKey: map<DedupKey, nat>

    ghost predicate Valid()
      reads this
    {
      Indexes(byKey, queue)
    }

    constructor ()
      ensures Valid() && queue == []
    {
      queue, byKey := [], map[];
    }

    method Contains(key: DedupKey) returns (found: bool)
      requires Valid()
      ensures found <==> Holds(queue, key)
    {
      found := key in byKey;
    }

    method PopFront()
      requires Valid() && queue != []
      modifies this
      ensures Valid() && queue == old(queue)[1..]
    {
      PopKeepsIndex(byKey, queue);
      var oldest := queue[0].key;
      queue := queue[1..];
      byKey := byKey - {oldest};
    }

    method Insert(key: DedupKey, now: nat)
      requires Valid() && !Holds(queue, key)
      modifies this
      ensures Valid() && queue == Inserted(old(queue), Stamp(key, now))
    {
      if |queue| >= DEDUP_CAPACITY {
        PopFront();
      }
      assert key !in byKey by {
        assert forall i :: 0 <= i < |queue| ==> queue[i] in old(queue);
      }
      PushKeepsIndex(byKey, queue, key, now);
      queue := queue + [Stamp(key, now)];
      byKey := byKey[key := now];
    }

    method PurgeExpired(now: nat)
      requires Valid()
      modifies this
      ensures Valid() && queue == Purged(old(queue), now)
    {
      while queue != []
        invariant Valid() && Purged(queue, now) == Purged(old(queue), now)
        decreases |queue|
      {
        if Elapsed(now, queue[0].time) <= DEDUP_TTL {
          break;
        }
        PopFront();
      }
    }
  }

  class GroupState {
    var byKey: Groups

    constructor ()
      ensures byKey == map[]
    {
      byKey := map[];
    }

    method Assign(key: GroupKey, now: nat, newGid: string) returns (gid: string)
      modifies this
      ensures gid == Assigned(old(byKey), key, now, newGid)
      ensures byKey == Retained(old(byKey), now)[key := Group(gid, now)]
    {
      byKey := map k | k in byKey && Elapsed(now, byKey[k].lastSeen) <= GROUP_WINDOW :: byKey[k];
      if key in byKey {
        gid := byKey[key].gid;
        byKey := byKey[key := byKey[key].(lastSeen := now)];
      } else {
        gid := newGid;
        byKey := byKey[key := Group(gid, now)];
      }
    }
  }

  class ActivityCollector {
    const dedup: DedupState
    const groups: GroupState

    /** What was sent on the channel, and the latest clock reading. */
    var log: seq<Entry>
    ghost var latest: nat

    ghost function View(): Feed
      reads this, dedup, groups
    {
      Feed(dedup.queue, groups.byKey, log, latest)
    }

    ghost predicate Valid()
      reads this, dedup, groups
    {
      dedup.Valid() && Inv(View())
    }

    constructor ()
      ensures Valid() && View() == EMPTY && fresh(dedup) && fresh(groups)
    {
      dedup := new DedupState();
      groups := new GroupState();
      log, latest := [], 0;
    }

    /** The dedup window: whether the event is new, which it is remembered to be. */
    method Admit(input: Input, now: nat) returns (isNew: bool)
      requires dedup.Valid()
      modifies dedup
      ensures dedup.Valid()
      ensures var key := DedupKeyOf(input);
        if key.None? then isNew && dedup.queue == old(dedup.queue)
        else
          var queue := Purged(old(dedup.queue), now);
          && (isNew <==> !Holds(queue, key.value))
          && dedup.queue == if isNew then Inserted(queue, Stamp(key.value, now)) else queue
    {
      if input.itemId.None? || !IsDedupable(input.kind) {
        return true;
      }
      var key := DedupKey(input.driveId, input.itemId.value, TagOf(input.kind));
      dedup.PurgeExpired(now);
      var found := dedup.Contains(key);
      if found {
        return false;
      }
      dedup.Insert(key, now);
      isNew := true;
    }

    method Process(input: Input, now: nat, newGid: string)
      requires dedup.Valid()
      modifies this, dedup, groups
      ensures dedup.Valid() && View() == OnRecord(old(View()), input, now, newGid)
    {
      var fileName := FileNameOf(input.filePath);
      if IsTransient(fileName) {
        return;
      }
      latest := now;
      var isNew := Admit(input, now);
      if !isNew {
        return;
      }
      var gid := groups.Assign(GroupKeyOf(input), now, newGid);
      log := log + [Entry(input, fileName, now, gid)];
    }

    /** Sends one entry, or none. */
    method Record(input: Input, now: nat, newGid: string)
      requires Valid() && latest <= now && GidIsNew(log, |log|, newGid)
      modifies this, dedup, groups
      ensures Valid() && View() == OnRecord(old(View()), input, now, newGid)
      ensures Logs(old(View()), input, now, Drops(old(View()), input, now), View())
    {
      RecordIsRight(View(), input, now, newGid);
      Process(input, now, newGid);
    }
  }
}
