/**
 The disk side of one item of the writeback buffer, with every persist of it a task.

 `persist` copies the buffer, writes the copy to a temporary file and renames that over the
 item's file, with an await before each step and no lock. The threads of the user and the
 upload of the item may persist it at the same time, and then share the temporary file. A
 task writes through the file it has opened, wherever that is renamed to meanwhile.
 */
module PersistTasks {
  import opened ByteSeqs
  import opened Wrappers

  /** Where the file that a task has opened is now; it may have been replaced or deleted. */
  datatype Place = Nowhere | AtTmp | AtFile

  /** A persist: the content it copied, and how much of it is written once the temporary file is open. */
  datatype Task = Task(content: Bytes, done: Option<nat>, at: Place)

  datatype Item = Item(buffer: Option<Bytes>, file: Option<Bytes>, tmp: Option<Bytes>, tasks: map<nat, Task>)

  datatype Event =
    | Put(content: Bytes)
    | Begin(task: nat)
    | Open(task: nat)
    | Progress(task: nat, n: nat)
    | Rename(task: nat, ok: bool)
    | Abort(task: nat)
    | Drop
    | Delete
    | Crash

  /** Bytes written at an offset; a gap before them reads as zeros. */
  function Overwrite(data: Bytes, offset: nat, chunk: Bytes): (r: Bytes)
    ensures chunk == [] ==> r == data
    ensures chunk != [] ==> |r| == Max(|data|, offset + |chunk|)
    ensures forall i :: 0 <= i < |r| ==>
      r[i] == if offset <= i < offset + |chunk| then chunk[i - offset] else if i < |data| then data[i] else 0
  {
    if chunk == [] then data else Splice(Resize(data, Max(|data|, offset + |chunk|)), offset, chunk)
  }

  // ------------------------------------------------------------------ steps

  function Rest(k: Task): Bytes
    requires k.done.Some? && k.done.value <= |k.content|
  {
    k.content[k.done.value..]
  }

  predicate Enabled(s: Item, e: Event) {
    match e
    case Begin(t) => t !in s.tasks
    case Open(t) => t in s.tasks && s.tasks[t].done.None?
    case Progress(t, n) => t in s.tasks && s.tasks[t].done.Some? && s.tasks[t].done.value + n <= |s.tasks[t].content|
    case Rename(t, _) => t in s.tasks && s.tasks[t].done == Some(|s.tasks[t].content|)
    case Abort(t) => t in s.tasks
    case _ => true
  }

  /** Without a buffer there is nothing to persist. */
  function OnBegin(s: Item, t: nat): Item {
    if s.buffer.Some? then s.(tasks := s.tasks[t := Task(s.buffer.value, None, Nowhere)]) else s
  }

  /** Opening creates the temporary file, or empties the one that is there. */
  function OnOpen(s: Item, t: nat): Item
    requires t in s.tasks
  {
    s.(tmp := Some([]), tasks := s.tasks[t := s.tasks[t].(done := Some(0), at := AtTmp)])
  }

  function Chunk(k: Task, n: nat): Bytes
    requires k.done.Some? && k.done.value + n <= |k.content|
  {
    k.content[k.done.value..k.done.value + n]
  }

  function Written(data: Option<Bytes>, k: Task, n: nat): Option<Bytes>
    requires k.done.Some? && k.done.value + n <= |k.content|
  {
    if data.Some? then Some(Overwrite(data.value, k.done.value, Chunk(k, n))) else None
  }

  function OnProgress(s: Item, t: nat, n: nat): Item
    requires Enabled(s, Progress(t, n))
  {
    var k := s.tasks[t];
    s.(tmp := if k.at.AtTmp? then Written(s.tmp, k, n) else s.tmp,
       file := if k.at.AtFile? then Written(s.file, k, n) else s.file,
       tasks := s.tasks[t := k.(done := Some(k.done.value + n))])
  }

  /** The temporary file becomes the item's file, and what was there is nowhere. */
  function Moved(at: Place): Place {
    if at.AtTmp? then AtFile else Nowhere
  }

  function MoveAll(tasks: map<nat, Task>): map<nat, Task> {
    map t | t in tasks :: tasks[t].(at := Moved(tasks[t].at))
  }

  function OnRename(s: Item, t: nat, ok: bool): Item {
    if ok && s.tmp.Some? then Item(s.buffer, s.tmp, None, MoveAll(s.tasks - {t})) else s.(tasks := s.tasks - {t})
  }

  function OnDelete(s: Item): Item {
    s.(file := None,
       tasks := map t | t in s.tasks :: if s.tasks[t].at.AtFile? then s.tasks[t].(at := Nowhere) else s.tasks[t])
  }

  function Step(s: Item, e: Event): Item
    requires Enabled(s, e)
  {
    match e
    case Put(content) => s.(buffer := Some(content))
    case Begin(t) => OnBegin(s, t)
    case Open(t) => OnOpen(s, t)
    case Progress(t, n) => OnProgress(s, t, n)
    case Rename(t, ok) => OnRename(s, t, ok)
    case Abort(t) => s.(tasks := s.tasks - {t})
    case Drop => s.(buffer := None)
    case Delete => OnDelete(s)
    case Crash => s.(buffer := None, tasks := map[])
  }

  predicate IsRun(s: Item, es: seq<Event>, t: Item)
    decreases |es|
  {
    if es == [] then s == t else Enabled(s, es[0]) && IsRun(Step(s, es[0]), es[1..], t)
  }

  predicate IsTask(s: Item, k: Task) {
    && (k.done.None? ==> k.at.Nowhere?)
    && (k.done.Some? ==> k.done.value <= |k.content|)
    && (k.at.AtTmp? ==> s.tmp.Some?)
    && (k.at.AtFile? ==> s.file.Some?)
  }

  predicate Inv(s: Item) {
    forall t :: t in s.tasks ==> IsTask(s, s.tasks[t])
  }

  lemma StepKeepsInv(s: Item, e: Event)
    requires Inv(s) && Enabled(s, e)
    ensures Inv(Step(s, e))
  {
    forall t | t in Step(s, e).tasks ensures IsTask(Step(s, e), Step(s, e).tasks[t]) {
      assert t in s.tasks ==> IsTask(s, s.tasks[t]);
    }
  }

  // ------------------------------------------- what keeps a content in place

  /** On disk the item holds `c`, and in memory nothing else. */
  predicate Settled(s: Item, c: Bytes) {
    s.file == Some(c) && (s.buffer.Some? ==> s.buffer.value == c)
  }

  /** The item is not written or removed, and is persisted again only where no persist is in progress. */
  predicate Leaves(s: Item, e: Event) {
    !e.Put? && !e.Drop? && !e.Delete? && (e.Begin? ==> s.tasks == map[])
  }

  ghost predicate IsQuietRun(s: Item, es: seq<Event>, t: Item)
    decreases |es|
  {
    if es == [] then s == t
    else Enabled(s, es[0]) && Leaves(s, es[0]) && IsQuietRun(Step(s, es[0]), es[1..], t)
  }

  /** After every such continuation the item still holds `c`. */
  ghost predicate Stays(s: Item, c: Bytes) {
    forall es, t :: IsQuietRun(s, es, t) ==> Settled(t, c)
  }

  predicate TmpIsHarmless(s: Item, c: Bytes) {
    s.tmp.Some? ==> s.tmp.value == c
  }

  /**
   What the task will do leaves `c` in place: it has copied `c` and opens the temporary file
   by itself, or what it has still to write turns what it writes to into `c`, and what it
   will rename is `c`.
   */
  predicate Fits(s: Item, t: nat, c: Bytes)
    requires t in s.tasks && IsTask(s, s.tasks[t])
  {
    var k := s.tasks[t];
    if k.done.None? then k.content == c && (c == [] || s.tasks.Keys == {t})
    else match k.at
      case AtTmp => Overwrite(s.tmp.value, k.done.value, Rest(k)) == c
      case AtFile => Overwrite(c, k.done.value, Rest(k)) == c && TmpIsHarmless(s, c)
      case Nowhere => TmpIsHarmless(s, c)
  }

  predicate Harmless(s: Item, c: Bytes)
    requires Inv(s)
  {
    forall t :: t in s.tasks ==> Fits(s, t, c)
  }

  /** Writing part of what fits leaves the rest to fit, for this task and any other. */
  lemma PartFits(data: Bytes, d: nat, rest: Bytes, n: nat, c: Bytes)
    requires n <= |rest| && Overwrite(data, d, rest) == c
    ensures Overwrite(Overwrite(data, d, rest[..n]), d + n, rest[n..]) == c
  {
  }

  lemma PartChangesNothing(data: Bytes, d: nat, rest: Bytes, n: nat, c: Bytes)
    requires n <= |rest| && Overwrite(data, d, rest) == c
    ensures Overwrite(c, d, rest[..n]) == c
  {
  }

  lemma OtherStillFits(data: Bytes, d: nat, rest: Bytes, d2: nat, rest2: Bytes, n: nat, c: Bytes)
    requires n <= |rest| && Overwrite(data, d, rest) == c && Overwrite(data, d2, rest2) == c
    ensures Overwrite(Overwrite(data, d, rest[..n]), d2, rest2) == c
  {
    var part := Overwrite(data, d, rest[..n]);
    if rest2 == [] {
      PartChangesNothing(data, d, rest, n, c);
    } else if n > 0 {
      var whole := Overwrite(part, d2, rest2);
      assert |whole| == |c|;
      forall i | 0 <= i < |c| ensures whole[i] == c[i] {
        OtherFitsAt(data, d, rest, d2, rest2, n, c, i);
      }
    }
  }

  lemma OtherFitsAt(data: Bytes, d: nat, rest: Bytes, d2: nat, rest2: Bytes, n: nat, c: Bytes, i: nat)
    requires 0 < n <= |rest| && rest2 != [] && i < |c|
    requires Overwrite(data, d, rest) == c && Overwrite(data, d2, rest2) == c
    ensures var whole := Overwrite(Overwrite(data, d, rest[..n]), d2, rest2); i < |whole| && whole[i] == c[i]
  {
    if d2 <= i < d2 + |rest2| {
    } else if d <= i < d + n {
      assert Overwrite(data, d, rest)[i] == rest[i - d];
    } else {
      assert Overwrite(data, d2, rest2)[i] == c[i];
    }
  }

  lemma BeginKeepsHarmless(s: Item, t: nat, c: Bytes)
    requires Inv(s) && Settled(s, c) && Harmless(s, c) && s.tasks == map[]
    ensures Inv(OnBegin(s, t)) && Settled(OnBegin(s, t), c) && Harmless(OnBegin(s, t), c)
  {
  }

  lemma OpenKeepsHarmless(s: Item, t: nat, c: Bytes)
    requires Inv(s) && Settled(s, c) && Harmless(s, c) && Enabled(s, Open(t))
    ensures Inv(OnOpen(s, t)) && Settled(OnOpen(s, t), c) && Harmless(OnOpen(s, t), c)
  {
    var u := OnOpen(s, t);
    StepKeepsInv(s, Open(t));
    assert Fits(s, t, c);
    forall i | i in u.tasks ensures Fits(u, i, c) {
      assert IsTask(s, s.tasks[i]) && Fits(s, i, c);
      if i == t {
        assert Rest(u.tasks[t]) == c;
      }
    }
  }

  lemma RestSplits(k: Task, n: nat)
    requires k.done.Some? && k.done.value + n <= |k.content|
    ensures Chunk(k, n) == Rest(k)[..n] && Rest(k.(done := Some(k.done.value + n))) == Rest(k)[n..]
  {
  }

  lemma OwnProgressFits(s: Item, t: nat, n: nat, c: Bytes)
    requires Inv(s) && Settled(s, c) && Harmless(s, c) && Enabled(s, Progress(t, n))
    requires Inv(OnProgress(s, t, n)) && OnProgress(s, t, n).file == s.file
    ensures Fits(OnProgress(s, t, n), t, c)
  {
    var k := s.tasks[t];
    assert Fits(s, t, c) && IsTask(s, k);
    RestSplits(k, n);
    assert OnProgress(s, t, n).tasks[t] == k.(done := Some(k.done.value + n));
    if k.at.AtTmp? {
      PartFits(s.tmp.value, k.done.value, Rest(k), n, c);
    } else if k.at.AtFile? {
      PartFits(c, k.done.value, Rest(k), n, c);
      PartChangesNothing(c, k.done.value, Rest(k), n, c);
    }
  }

  lemma OthersProgressFits(s: Item, t: nat, n: nat, i: nat, c: Bytes)
    requires Inv(s) && Harmless(s, c) && Enabled(s, Progress(t, n)) && i in s.tasks && i != t
    requires Inv(OnProgress(s, t, n))
    ensures Fits(OnProgress(s, t, n), i, c)
  {
    var k, m := s.tasks[t], s.tasks[i];
    assert Fits(s, t, c) && Fits(s, i, c) && IsTask(s, k) && IsTask(s, m);
    RestSplits(k, n);
    if k.at.AtTmp? {
      PartChangesNothing(s.tmp.value, k.done.value, Rest(k), n, c);
      if m.at.AtTmp? {
        OtherStillFits(s.tmp.value, k.done.value, Rest(k), m.done.value, Rest(m), n, c);
      }
    }
  }

  lemma ProgressKeepsFile(s: Item, t: nat, n: nat, c: Bytes)
    requires Inv(s) && Settled(s, c) && Harmless(s, c) && Enabled(s, Progress(t, n))
    ensures OnProgress(s, t, n).file == s.file
  {
    var k := s.tasks[t];
    assert Fits(s, t, c) && IsTask(s, k);
    if k.at.AtFile? {
      RestSplits(k, n);
      PartChangesNothing(c, k.done.value, Rest(k), n, c);
    }
  }

  lemma ProgressKeepsHarmless(s: Item, t: nat, n: nat, c: Bytes)
    requires Inv(s) && Settled(s, c) && Harmless(s, c) && Enabled(s, Progress(t, n))
    ensures var u := OnProgress(s, t, n); Inv(u) && Settled(u, c) && Harmless(u, c)
  {
    StepKeepsInv(s, Progress(t, n));
    ProgressKeepsFile(s, t, n, c);
    forall i | i in s.tasks ensures Fits(OnProgress(s, t, n), i, c) {
      if i == t {
        OwnProgressFits(s, t, n, c);
      } else {
        OthersProgressFits(s, t, n, i, c);
      }
    }
  }

  /** What a task may rename is `c`. */
  lemma ReadyToRename(s: Item, t: nat, c: Bytes)
    requires Inv(s) && Harmless(s, c) && Enabled(s, Rename(t, true))
    ensures TmpIsHarmless(s, c)
  {
    assert Fits(s, t, c) && IsTask(s, s.tasks[t]);
    assert Rest(s.tasks[t]) == [];
  }

  lemma RenameKeepsHarmless(s: Item, t: nat, ok: bool, c: Bytes)
    requires Inv(s) && Settled(s, c) && Harmless(s, c) && Enabled(s, Rename(t, ok))
    ensures var u := OnRename(s, t, ok); Inv(u) && Settled(u, c) && Harmless(u, c)
  {
    var u := OnRename(s, t, ok);
    StepKeepsInv(s, Rename(t, ok));
    ReadyToRename(s, t, c);
    forall i | i in u.tasks ensures Fits(u, i, c) {
      assert IsTask(s, s.tasks[i]) && Fits(s, i, c);
      assert t in s.tasks.Keys && i in s.tasks.Keys;
      if s.tasks[i].done.None? {
        assert c == [];
      }
    }
  }

  lemma AbortKeepsHarmless(s: Item, e: Event, c: Bytes)
    requires Inv(s) && Settled(s, c) && Harmless(s, c) && Enabled(s, e) && (e.Abort? || e.Crash?)
    ensures Inv(Step(s, e)) && Settled(Step(s, e), c) && Harmless(Step(s, e), c)
  {
    var u := Step(s, e);
    StepKeepsInv(s, e);
    forall i | i in u.tasks ensures Fits(u, i, c) {
      assert IsTask(s, s.tasks[i]) && Fits(s, i, c);
      assert e.task in s.tasks.Keys && i in s.tasks.Keys;
    }
  }

  lemma StepKeepsHarmless(s: Item, e: Event, c: Bytes)
    requires Inv(s) && Settled(s, c) && Harmless(s, c) && Enabled(s, e) && Leaves(s, e)
    ensures Inv(Step(s, e)) && Settled(Step(s, e), c) && Harmless(Step(s, e), c)
  {
    match e
    case Begin(t) => BeginKeepsHarmless(s, t, c);
    case Open(t) => OpenKeepsHarmless(s, t, c);
    case Progress(t, n) => ProgressKeepsHarmless(s, t, n, c);
    case Rename(t, ok) => RenameKeepsHarmless(s, t, ok, c);
    case Abort(_) => AbortKeepsHarmless(s, e, c);
    case Crash => AbortKeepsHarmless(s, e, c);
  }

  lemma {:induction false} RunKeepsHarmless(s: Item, es: seq<Event>, t: Item, c: Bytes)
    requires Inv(s) && Settled(s, c) && Harmless(s, c) && IsQuietRun(s, es, t)
    ensures Settled(t, c)
    decreases |es|
  {
    if es != [] {
      StepKeepsHarmless(s, es[0], c);
      RunKeepsHarmless(Step(s, es[0]), es[1..], t, c);
    }
  }

  // ------------------------------------------- what does not keep it in place

  lemma {:induction false} QuietSnoc(s: Item, es: seq<Event>, t: Item, e: Event)
    requires IsQuietRun(s, es, t) && Enabled(t, e) && Leaves(t, e)
    ensures IsQuietRun(s, es + [e], Step(t, e))
    decreases |es|
  {
    if es == [] {
      assert ([] + [e])[1..] == [];
    } else {
      assert (es + [e])[1..] == es[1..] + [e];
      QuietSnoc(Step(s, es[0]), es[1..], t, e);
    }
  }

  /** The task writes all it has still to write, from its place. */
  lemma WritesTheRest(s: Item, t: nat) returns (es: seq<Event>, u: Item)
    requires Inv(s) && t in s.tasks
    ensures IsQuietRun(s, es, u) && Inv(u) && Enabled(u, Rename(t, true)) && u.tasks.Keys == s.tasks.Keys
    ensures forall i :: i in s.tasks && i != t ==> u.tasks[i] == s.tasks[i]
    ensures var k := s.tasks[t];
      if k.done.None? then u.tmp == Some(k.content) && u.file == s.file
      else
        && u.tmp == (if k.at.AtTmp? then Some(Overwrite(s.tmp.value, k.done.value, Rest(k))) else s.tmp)
        && u.file == (if k.at.AtFile? then Some(Overwrite(s.file.value, k.done.value, Rest(k))) else s.file)
  {
    assert IsTask(s, s.tasks[t]);
    es, u := [], s;
    if s.tasks[t].done.None? {
      QuietSnoc(s, es, u, Open(t));
      StepKeepsInv(u, Open(t));
      es, u := es + [Open(t)], Step(u, Open(t));
      assert Overwrite([], 0, s.tasks[t].content) == s.tasks[t].content;
    }
    var k := u.tasks[t];
    var e := Progress(t, |Rest(k)|);
    assert Chunk(k, |Rest(k)|) == Rest(k);
    QuietSnoc(s, es, u, e);
    StepKeepsInv(u, e);
    es, u := es + [e], Step(u, e);
  }

  lemma RenamesTheRest(s: Item, t: nat) returns (es: seq<Event>, u: Item)
    requires Inv(s) && t in s.tasks
    ensures IsQuietRun(s, es, u)
    ensures var k := s.tasks[t];
      u.file ==
        if k.done.None? then Some(k.content)
        else if k.at.AtTmp? then Some(Overwrite(s.tmp.value, k.done.value, Rest(k)))
        else if s.tmp.Some? then s.tmp
        else if k.at.AtFile? then Some(Overwrite(s.file.value, k.done.value, Rest(k)))
        else s.file
  {
    assert IsTask(s, s.tasks[t]);
    es, u := WritesTheRest(s, t);
    QuietSnoc(s, es, u, Rename(t, true));
    es, u := es + [Rename(t, true)], Step(u, Rename(t, true));
  }

  /** One task is done with its content, another one opens the temporary file anew, and the first renames it. */
  lemma OverlapTears(s: Item, a: nat, b: nat) returns (es: seq<Event>, u: Item)
    requires Inv(s) && a in s.tasks && b in s.tasks && a != b && s.tasks[a].done.None?
    ensures IsQuietRun(s, es, u) && u.file == Some([])
  {
    es, u := WritesTheRest(s, b);
    QuietSnoc(s, es, u, Open(a));
    es, u := es + [Open(a)], Step(u, Open(a));
    QuietSnoc(s, es, u, Rename(b, true));
    es, u := es + [Rename(b, true)], Step(u, Rename(b, true));
  }

  /** A persist that begins while another one of the item is in progress may leave the file empty. */
  lemma SecondPersistTears(s: Item, t: nat) returns (es: seq<Event>, u: Item)
    requires Inv(s) && s.buffer.Some? && s.tasks != map[] && t !in s.tasks
    ensures IsQuietRun(OnBegin(s, t), es, u) && u.file == Some([])
  {
    var b :| b in s.tasks;
    StepKeepsInv(s, Begin(t));
    es, u := OverlapTears(OnBegin(s, t), t, b);
  }

  lemma MisfitUnsettles(s: Item, t: nat, c: Bytes) returns (es: seq<Event>, u: Item)
    requires Inv(s) && Settled(s, c) && t in s.tasks && !Fits(s, t, c)
    ensures IsQuietRun(s, es, u) && !Settled(u, c)
  {
    var k := s.tasks[t];
    assert IsTask(s, k);
    if k.done.None? && k.content == c {
      assert t in s.tasks.Keys;
      var b :| b in s.tasks && b != t;
      es, u := OverlapTears(s, t, b);
    } else if k.done.Some? && k.at.AtFile? && Overwrite(c, k.done.value, Rest(k)) != c {
      es, u := WritesTheRest(s, t);
    } else {
      es, u := RenamesTheRest(s, t);
    }
  }

  /**
   An item that holds `c` goes on holding it, whatever its persists in progress and its
   later ones do and wherever they are interrupted, exactly when each persist in progress is
   harmless.
   */
  lemma StaysExactly(s: Item, c: Bytes)
    requires Inv(s) && Settled(s, c)
    ensures Stays(s, c) <==> Harmless(s, c)
  {
    if Harmless(s, c) {
      forall es, t | IsQuietRun(s, es, t) ensures Settled(t, c) {
        RunKeepsHarmless(s, es, t, c);
      }
    } else {
      var t :| t in s.tasks && !Fits(s, t, c);
      var es, u := MisfitUnsettles(s, t, c);
    }
  }

  // ------------------------------------------------------ a write by itself

  /** The only persist in progress has copied `c`, and written the temporary file as far as it is. */
  predicate IsLone(s: Item, c: Bytes) {
    && (s.buffer.Some? ==> s.buffer.value == c)
    && (forall t :: t in s.tasks ==> s.tasks.Keys == {t} && IsWriting(s, s.tasks[t], c))
  }

  predicate IsWriting(s: Item, k: Task, c: Bytes) {
    && k.content == c
    && (k.done.Some? ==> k.at.AtTmp? && k.done.value <= |c| && s.tmp == Some(c[..k.done.value]))
  }

  ghost predicate Renames(es: seq<Event>) {
    exists t :: Rename(t, true) in es
  }

  lemma LoneProgress(s: Item, t: nat, n: nat, c: Bytes)
    requires IsLone(s, c) && Enabled(s, Progress(t, n))
    ensures IsLone(OnProgress(s, t, n), c) && OnProgress(s, t, n).file == s.file
  {
    var d := s.tasks[t].done.value;
    assert Overwrite(c[..d], d, c[d..d + n]) == c[..d + n];
  }

  lemma StepKeepsLone(s: Item, e: Event, c: Bytes)
    requires IsLone(s, c) && Enabled(s, e) && Leaves(s, e)
    ensures IsLone(Step(s, e), c)
    ensures Step(s, e).file == if e.Rename? && e.ok then Some(c) else s.file
  {
    match e
    case Progress(t, n) => LoneProgress(s, t, n, c);
    case Rename(t, ok) =>
      assert c[..|c|] == c;
      assert s.tasks.Keys - {t} == {};
    case Abort(t) => assert s.tasks.Keys - {t} == {};
    case _ =>
  }

  lemma {:induction false} LoneRun(s: Item, es: seq<Event>, t: Item, c: Bytes)
    requires IsLone(s, c) && IsQuietRun(s, es, t)
    ensures IsLone(t, c) && t.file == if Renames(es) then Some(c) else s.file
    decreases |es|
  {
    if es != [] {
      StepKeepsLone(s, es[0], c);
      LoneRun(Step(s, es[0]), es[1..], t, c);
      RenamesUnfolds(es);
    }
  }

  lemma RenamesUnfolds(es: seq<Event>)
    requires es != []
    ensures Renames(es) <==> (es[0].Rename? && es[0].ok) || Renames(es[1..])
  {
    assert es == [es[0]] + es[1..];
    if es[0].Rename? && es[0].ok {
      assert Rename(es[0].task, true) in es;
    } else if t :| Rename(t, true) in es[1..] {
      assert Rename(t, true) in es;
    }
  }

  /**
   A write that starts where no persist of the item is in progress, interrupted anywhere and
   followed by any crashes and further persists, leaves on disk the whole previous or the
   whole new content: the new one as soon as a rename of it has succeeded, for ever.
   */
  lemma WriteIsAllOrNothing(s: Item, c: Bytes, es: seq<Event>, t: Item)
    requires s.tasks == map[] && IsQuietRun(Step(s, Put(c)), es, t)
    ensures t.file == if Renames(es) then Some(c) else s.file
    ensures t.buffer.Some? ==> t.buffer.value == c
  {
    LoneRun(Step(s, Put(c)), es, t, c);
  }

  /** The item's file is never anything but what it was before the write, or what is written. */
  ghost predicate StaysWhole(s: Item, before: Option<Bytes>, c: Bytes) {
    forall es, t :: IsQuietRun(s, es, t) ==> t.file == before || t.file == Some(c)
  }

  /**
   And that takes it: where another persist of the item is in progress when the write
   begins its own, some interleaving of the two leaves an empty file, which neither the
   previous nor the new content need be.
   */
  lemma StaysWholeExactly(s: Item, c: Bytes, t: nat)
    requires Inv(s) && t !in s.tasks
    ensures var u := OnBegin(Step(s, Put(c)), t);
      && (s.tasks == map[] ==> StaysWhole(u, s.file, c))
      && (c != [] && s.file != Some([]) ==> (StaysWhole(u, s.file, c) <==> s.tasks == map[]))
  {
    var u := OnBegin(Step(s, Put(c)), t);
    if s.tasks == map[] {
      assert IsLone(u, c);
      forall es, v | IsQuietRun(u, es, v) ensures v.file == s.file || v.file == Some(c) {
        LoneRun(u, es, v, c);
      }
    } else {
      StepKeepsInv(s, Put(c));
      var es, v := SecondPersistTears(Step(s, Put(c)), t);
    }
  }

  // --------------------------------------------- an upload and a write at once

  lemma {:induction false} RunSnoc(s: Item, es: seq<Event>, t: Item, e: Event)
    requires IsRun(s, es, t) && Enabled(t, e)
    ensures IsRun(s, es + [e], Step(t, e))
    decreases |es|
  {
    if es == [] {
      assert ([] + [e])[1..] == [];
    } else {
      assert (es + [e])[1..] == es[1..] + [e];
      RunSnoc(Step(s, es[0]), es[1..], t, e);
    }
  }

  const NOTHING := Item(None, None, None, map[])

  /** The upload, task 1, has copied `a`; the user has written `b`, whose persist is task 2. */
  function BothBegun(a: Bytes, b: Bytes): Item {
    Item(Some(b), None, None, map[1 := Task(a, None, Nowhere), 2 := Task(b, None, Nowhere)])
  }

  function BothBegin(a: Bytes, b: Bytes): seq<Event> {
    [Put(a), Begin(1), Put(b), Begin(2)]
  }

  lemma Begins(a: Bytes, b: Bytes)
    ensures IsRun(NOTHING, BothBegin(a, b), BothBegun(a, b))
  {
    var s1 := Step(NOTHING, Put(a));
    var s2 := Step(s1, Begin(1));
    var s3 := Step(s2, Put(b));
    RunSnoc(NOTHING, [], NOTHING, Put(a));
    RunSnoc(NOTHING, [Put(a)], s1, Begin(1));
    RunSnoc(NOTHING, [Put(a), Begin(1)], s2, Put(b));
    RunSnoc(NOTHING, [Put(a), Begin(1), Put(b)], s3, Begin(2));
    assert [] + [Put(a)] == [Put(a)] && [Put(a)] + [Begin(1)] == [Put(a), Begin(1)];
    assert [Put(a), Begin(1)] + [Put(b)] == [Put(a), Begin(1), Put(b)];
    assert [Put(a), Begin(1), Put(b)] + [Begin(2)] == BothBegin(a, b);
    assert Step(s3, Begin(2)) == BothBegun(a, b);
  }

  lemma OpensAndWrites(u: Item, t: nat) returns (v: Item)
    requires t in u.tasks && u.tasks[t].done.None?
    ensures var content := u.tasks[t].content;
      && Enabled(u, Open(t)) && Enabled(Step(u, Open(t)), Progress(t, |content|))
      && v == Step(Step(u, Open(t)), Progress(t, |content|))
      && v == u.(tmp := Some(content), tasks := u.tasks[t := Task(content, Some(|content|), AtTmp)])
  {
    var content := u.tasks[t].content;
    var w := Step(u, Open(t));
    assert Overwrite([], 0, content) == content && content[0..|content|] == content;
    v := Step(w, Progress(t, |content|));
    assert w.tasks[t := Task(content, Some(|content|), AtTmp)] == u.tasks[t := Task(content, Some(|content|), AtTmp)];
  }

  lemma WritesAll(s: Item, before: seq<Event>, u: Item, t: nat) returns (v: Item)
    requires IsRun(s, before, u) && t in u.tasks && u.tasks[t].done.None?
    ensures IsRun(s, before + [Open(t), Progress(t, |u.tasks[t].content|)], v)
    ensures v == u.(tmp := Some(u.tasks[t].content),
                    tasks := u.tasks[t := Task(u.tasks[t].content, Some(|u.tasks[t].content|), AtTmp)])
  {
    var e := Progress(t, |u.tasks[t].content|);
    v := OpensAndWrites(u, t);
    RunSnoc(s, before, u, Open(t));
    RunSnoc(s, before + [Open(t)], Step(u, Open(t)), e);
    assert before + [Open(t)] + [e] == before + [Open(t), e];
  }

  /**
   The write of `b` has returned; then the upload goes on with its older copy, and after a
   crash the item has `a` again.
   */
  lemma LateRenameRestoresTheOld(a: Bytes, b: Bytes) returns (es: seq<Event>, t: Item, fs: seq<Event>, u: Item)
    ensures es == BothBegin(a, b) + [Open(2), Progress(2, |b|), Rename(2, true)]
    ensures IsRun(NOTHING, es, t) && t.file == t.buffer == Some(b)
    ensures fs == es + [Open(1), Progress(1, |a|)] + [Rename(1, true)] + [Crash]
    ensures IsRun(NOTHING, fs, u) && u.file == Some(a) && u.buffer == None
  {
    Begins(a, b);
    var v := WritesAll(NOTHING, BothBegin(a, b), BothBegun(a, b), 2);
    var begun := BothBegin(a, b) + [Open(2), Progress(2, |b|)];
    RunSnoc(NOTHING, begun, v, Rename(2, true));
    es, t := BothBegin(a, b) + [Open(2), Progress(2, |b|), Rename(2, true)], Step(v, Rename(2, true));
    assert begun + [Rename(2, true)] == es;
    var w := WritesAll(NOTHING, es, t, 1);
    fs := es + [Open(1), Progress(1, |a|)];
    RunSnoc(NOTHING, fs, w, Rename(1, true));
    RunSnoc(NOTHING, fs + [Rename(1, true)], Step(w, Rename(1, true)), Crash);
    u := Step(Step(w, Rename(1, true)), Crash);
    fs := fs + [Rename(1, true)] + [Crash];
  }

  /** The write of `b` returns, but what it has renamed is what the upload had written of `a` until then. */
  lemma EarlyRenameTears(a: Bytes, b: Bytes, n: nat) returns (es: seq<Event>, u: Item)
    requires n <= |a|
    ensures es == BothBegin(a, b) + [Open(2), Progress(2, |b|)] + [Open(1)] + [Progress(1, n)] + [Rename(2, true)]
                  + [Crash]
    ensures IsRun(NOTHING, es, u) && u.file == Some(a[..n]) && u.buffer == None
  {
    Begins(a, b);
    var v := WritesAll(NOTHING, BothBegin(a, b), BothBegun(a, b), 2);
    es := BothBegin(a, b) + [Open(2), Progress(2, |b|)];
    RunSnoc(NOTHING, es, v, Open(1));
    v, es := Step(v, Open(1)), es + [Open(1)];
    RunSnoc(NOTHING, es, v, Progress(1, n));
    v, es := Step(v, Progress(1, n)), es + [Progress(1, n)];
    assert Overwrite([], 0, a[0..n]) == a[..n];
    RunSnoc(NOTHING, es, v, Rename(2, true));
    v, es := Step(v, Rename(2, true)), es + [Rename(2, true)];
    RunSnoc(NOTHING, es, v, Crash);
    u, es := Step(v, Crash), es + [Crash];
  }
}
