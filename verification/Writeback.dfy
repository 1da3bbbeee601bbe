/**
 The writeback buffer: pending local writes, in memory and on disk.

 Files are a map from drive directory and file name to bytes, shared by all items. The
 persists of an item go on between the steps of everything else, as PersistTasks has them;
 that each item moves by the steps of that module, and by no others, is proved for ids that
 name files of their own. The class has the methods as they run undisturbed.
 */
module Writeback {
  import opened Wrappers
  import opened ByteSeqs
  import opened FileNames
  import PT = PersistTasks

  type Key = (string, string)

  type Files = map<Key, Bytes>

  // ------------------------------------------------------------ file names

  /** Colons are not allowed in Windows file names. */
  function Sanitize(id: string): string {
    if id == "" then ""
    else (if id[0] == ':' then "%3A" else [id[0]]) + Sanitize(id[1..])
  }

  function Unsanitize(name: string): string {
    if name == "" then ""
    else if "%3A" <= name then ":" + Unsanitize(name[3..])
    else [name[0]] + Unsanitize(name[1..])
  }

  predicate HasEscape(s: string) {
    s != "" && ("%3A" <= s || HasEscape(s[1..]))
  }

  /** `Path::with_extension("tmp")` on a file name. */
  function TmpName(name: string): string {
    var p := LastIndexOf(name, '.');
    if 0 < p < |name| then name[..p] + ".tmp" else name + ".tmp"
  }

  lemma SanitizedEscape(s: string)
    requires s != "" && s[0] == '%' && "%3A" <= [s[0]] + Sanitize(s[1..])
    ensures "%3A" <= s
  {
    var t := Sanitize(s[1..]);
    assert t[0] == ([s[0]] + t)[1] == '3' && t[1] == ([s[0]] + t)[2] == 'A';
    assert s[1] == '3';
    assert t == ['3'] + Sanitize(s[2..]) by { assert s[1..][1..] == s[2..]; }
    assert Sanitize(s[2..])[0] == t[1] == 'A';
    assert s[2] == 'A';
  }

  /** Sanitising is undone exactly for the ids that do not already contain an escape. */
  lemma {:induction false} SanitizeRoundTrip(id: string)
    ensures |Unsanitize(Sanitize(id))| <= |id|
    ensures Unsanitize(Sanitize(id)) == id <==> !HasEscape(id)
    decreases |id|
  {
    if id != "" {
      var name := Sanitize(id);
      if id[0] == ':' {
        assert name[3..] == Sanitize(id[1..]);
        SanitizeRoundTrip(id[1..]);
        assert id == ":" + id[1..];
      } else if "%3A" <= id {
        assert id[1..][1..] == id[2..] && id[2..][1..] == id[3..];
        assert Sanitize(id[2..]) == "A" + Sanitize(id[3..]);
        assert Sanitize(id[1..]) == "3" + Sanitize(id[2..]);
        assert name == "%3A" + Sanitize(id[3..]);
        assert name[3..] == Sanitize(id[3..]);
        SanitizeRoundTrip(id[3..]);
      } else {
        assert name == [id[0]] + Sanitize(id[1..]);
        if "%3A" <= name {
          SanitizedEscape(id);
        }
        assert name[1..] == Sanitize(id[1..]);
        SanitizeRoundTrip(id[1..]);
        assert id == [id[0]] + id[1..];
      }
    }
  }

  lemma {:induction false} SanitizeOfBoth(a: string, b: string)
    ensures Sanitize(a + b) == Sanitize(a) + Sanitize(b)
    decreases |a|
  {
    if a == "" {
      assert a + b == b;
    } else {
      assert (a + b)[0] == a[0] && (a + b)[1..] == a[1..] + b;
      SanitizeOfBoth(a[1..], b);
    }
  }

  lemma {:induction false} SanitizeKeeps(id: string)
    requires ':' !in id
    ensures Sanitize(id) == id
    decreases |id|
  {
    if id != "" {
      SanitizeKeeps(id[1..]);
    }
  }

  /** A name without colons is kept, and the next colon becomes an escape: so with every colon in turn. */
  lemma SanitizeExactly(id: string, rest: string)
    requires ':' !in id
    ensures Sanitize(id) == id && Sanitize(id + ":" + rest) == id + "%3A" + Sanitize(rest)
  {
    SanitizeKeeps(id);
    SanitizeOfBoth(id, ":");
    SanitizeOfBoth(id + ":", rest);
  }

  /** A sanitised name has no colon. */
  lemma {:induction false} SanitizedHasNoColon(id: string)
    ensures ':' !in Sanitize(id)
    decreases |id|
  {
    if id != "" {
      SanitizedHasNoColon(id[1..]);
    }
  }

  /** The temporary name has the extension `tmp` in place of the last one; a leading dot starts no extension. */
  lemma TmpNameExactly(stem: string, ext: string)
    requires '.' !in ext
    ensures TmpName(ext) == ext + ".tmp"
    ensures TmpName(stem + "." + ext) == if stem == "" then "." + ext + ".tmp" else stem + ".tmp"
  {
    LastIndexOfDot(stem, ext);
    var name := stem + "." + ext;
    assert name[..|stem|] == stem && 0 <= |stem| < |name|;
    assert stem == "" ==> name == "." + ext;
  }

  /** Ids that name one file of their own, distinct from every temporary file. */
  predicate PlainId(id: string) {
    id != "" && !HasEscape(id) && '.' !in id && '/' !in id && '\\' !in id
  }

  lemma {:induction false} SanitizeKeepsDots(id: string)
    requires '.' !in id
    ensures '.' !in Sanitize(id) && (id != "" ==> Sanitize(id) != "")
    decreases |id|
  {
    if id != "" {
      assert forall c :: c in id[1..] ==> c in id;
      SanitizeKeepsDots(id[1..]);
    }
  }

  lemma PlainTmpName(id: string)
    requires PlainId(id)
    ensures TmpName(Sanitize(id)) == Sanitize(id) + ".tmp"
    ensures '.' in TmpName(Sanitize(id)) && '.' !in Sanitize(id)
  {
    SanitizeKeepsDots(id);
    var n := Sanitize(id) + ".tmp";
    assert n[|Sanitize(id)|] == '.';
  }

  lemma SanitizeInjective(a: string, b: string)
    requires PlainId(a) && PlainId(b) && Sanitize(a) == Sanitize(b)
    ensures a == b
  {
    SanitizeRoundTrip(a);
    SanitizeRoundTrip(b);
  }

  // -------------------------------------------------------------- the state

  datatype State = State(buffers: map<Key, Bytes>, files: Files, tasks: map<Key, map<nat, PT.Task>>)

  const EMPTY := State(map[], map[], map[])

  function Path(key: Key): Key {
    (key.0, Sanitize(key.1))
  }

  function TmpPath(key: Key): Key {
    (key.0, TmpName(Sanitize(key.1)))
  }

  function Lookup(m: map<Key, Bytes>, key: Key): Option<Bytes> {
    if key in m then Some(m[key]) else None
  }

  function TasksOf(s: State, key: Key): map<nat, PT.Task> {
    if key in s.tasks then s.tasks[key] else map[]
  }

  /** What a fresh process reads for `key`. */
  function Recovered(s: State, key: Key): Option<Bytes> {
    Lookup(s.files, Path(key))
  }

  /** `read`: the buffer first, the file otherwise. */
  function Content(s: State, key: Key): Option<Bytes> {
    if key in s.buffers then Some(s.buffers[key]) else Recovered(s, key)
  }

  /** One item of the store. */
  function ItemOf(s: State, key: Key): PT.Item {
    PT.Item(Lookup(s.buffers, key), Lookup(s.files, Path(key)), Lookup(s.files, TmpPath(key)), TasksOf(s, key))
  }

  // ------------------------------------------------------------------ steps

  /** A step of one item, or the end of the process. */
  datatype Event = At(key: Key, event: PT.Event) | Crash

  predicate Enabled(s: State, e: Event) {
    e.At? ==> !e.event.Crash? && PT.Enabled(ItemOf(s, e.key), e.event)
  }

  function PlaceOf(key: Key, at: PT.Place): Option<Key> {
    match at
    case Nowhere => None
    case AtTmp => Some(TmpPath(key))
    case AtFile => Some(Path(key))
  }

  function FilesAfter(s: State, key: Key, e: PT.Event): Files
    requires PT.Enabled(ItemOf(s, key), e)
  {
    match e
    case Open(_) => s.files[TmpPath(key) := []]
    case Progress(t, n) =>
      var k := TasksOf(s, key)[t];
      var place := PlaceOf(key, k.at);
      if place.Some? && place.value in s.files then
        s.files[place.value := PT.Overwrite(s.files[place.value], k.done.value, PT.Chunk(k, n))]
      else s.files
    case Rename(_, ok) =>
      if ok && TmpPath(key) in s.files then (s.files - {TmpPath(key)})[Path(key) := s.files[TmpPath(key)]]
      else s.files
    case Delete => s.files - {Path(key)}
    case _ => s.files
  }

  function WithTasks(tasks: map<Key, map<nat, PT.Task>>, key: Key, own: map<nat, PT.Task>):
    map<Key, map<nat, PT.Task>>
  {
    if own == map[] then tasks - {key} else tasks[key := own]
  }

  function Step(s: State, e: Event): State
    requires Enabled(s, e)
  {
    match e
    case At(key, event) =>
      var item := PT.Step(ItemOf(s, key), event);
      State(if item.buffer.Some? then s.buffers[key := item.buffer.value] else s.buffers - {key},
            FilesAfter(s, key, event), WithTasks(s.tasks, key, item.tasks))
    case Crash => State(map[], s.files, map[])
  }

  predicate IsRun(s: State, es: seq<Event>, t: State)
    decreases |es|
  {
    if es == [] then s == t else Enabled(s, es[0]) && IsRun(Step(s, es[0]), es[1..], t)
  }

  /** The files of the two items have nothing to do with each other. */
  predicate Apart(key: Key, other: Key) {
    Path(key) != Path(other) && TmpPath(key) != Path(other) && Path(key) != TmpPath(other)
    && TmpPath(key) != TmpPath(other)
  }

  lemma DistinctPaths(key: Key, other: Key)
    requires PlainId(key.1) && PlainId(other.1)
    ensures Path(key) != TmpPath(key) && (key != other ==> Apart(key, other))
  {
    PlainTmpName(key.1);
    PlainTmpName(other.1);
    if key != other {
      if Path(key) == Path(other) {
        SanitizeInjective(key.1, other.1);
      }
      var m, n := Sanitize(key.1), Sanitize(other.1);
      if m + ".tmp" == n + ".tmp" {
        assert |m| == |n| && (m + ".tmp")[..|m|] == (n + ".tmp")[..|n|];
      }
    }
  }

  function FinishedOf(names: set<Key>): set<Key> {
    set f | f in names && !EndsWith(f.1, ".tmp")
  }

  function FinishedFiles(files: Files): set<Key> {
    FinishedOf(files.Keys)
  }

  function ListedOf(names: set<Key>): set<Key> {
    set f | f in FinishedOf(names) :: (f.0, Unsanitize(f.1))
  }

  function Listed(files: Files): set<Key> {
    ListedOf(files.Keys)
  }

  lemma FinishedGrows(names: set<Key>, f: Key)
    requires f !in names
    ensures FinishedOf(names + {f}) == FinishedOf(names) + (if EndsWith(f.1, ".tmp") then {} else {f})
    ensures |FinishedOf(names + {f})| == |FinishedOf(names)| + if EndsWith(f.1, ".tmp") then 0 else 1
    ensures ListedOf(names + {f}) == ListedOf(names) + (if EndsWith(f.1, ".tmp") then {} else {(f.0, Unsanitize(f.1))})
  {
    assert FinishedOf(names + {f}) == FinishedOf(names) + (if EndsWith(f.1, ".tmp") then {} else {f});
  }

  // -------------------------------------------------- the methods undisturbed

  /** Where a persist stops with an error, if it does. */
  datatype Fate = Completes | FailsToOpen | FailsWriting(n: nat) | FailsToRename

  /** The steps of a persist that nothing else comes between. */
  function PersistSteps(buffers: map<Key, Bytes>, key: Key, fate: Fate): seq<Event> {
    if key !in buffers then [At(key, PT.Begin(0))]
    else
      var length := |buffers[key]|;
      match fate
      case Completes =>
        [At(key, PT.Begin(0)), At(key, PT.Open(0)), At(key, PT.Progress(0, length)), At(key, PT.Rename(0, true))]
      case FailsToOpen => [At(key, PT.Begin(0)), At(key, PT.Abort(0))]
      case FailsWriting(n) =>
        [At(key, PT.Begin(0)), At(key, PT.Open(0)), At(key, PT.Progress(0, Min(n, length))), At(key, PT.Abort(0))]
      case FailsToRename =>
        [At(key, PT.Begin(0)), At(key, PT.Open(0)), At(key, PT.Progress(0, length)), At(key, PT.Rename(0, false))]
  }

  lemma {:induction false} RunsCompose(s: State, es: seq<Event>, t: State, fs: seq<Event>, u: State)
    requires IsRun(s, es, t) && IsRun(t, fs, u)
    ensures IsRun(s, es + fs, u)
    decreases |es|
  {
    if es == [] {
      assert es + fs == fs;
    } else {
      assert (es + fs)[1..] == es[1..] + fs;
      RunsCompose(Step(s, es[0]), es[1..], t, fs, u);
    }
  }

  lemma OneStep(s: State, e: Event)
    requires Enabled(s, e)
    ensures IsRun(s, [e], Step(s, e))
  {
    assert [e][1..] == [];
  }

  lemma TwoSteps(s: State, e: Event, f: Event)
    requires Enabled(s, e) && Enabled(Step(s, e), f)
    ensures IsRun(s, [e, f], Step(Step(s, e), f))
  {
    OneStep(s, e);
    OneStep(Step(s, e), f);
    RunsCompose(s, [e], Step(s, e), [f], Step(Step(s, e), f));
    assert [e] + [f] == [e, f];
  }

  function Persisting(s: State, key: Key, content: Bytes, done: Option<nat>, at: PT.Place): State {
    s.(tasks := map[key := map[0 := PT.Task(content, done, at)]])
  }

  lemma Copies(s: State, key: Key)
    requires s.tasks == map[] && key in s.buffers
    ensures Step(s, At(key, PT.Begin(0))) == Persisting(s, key, s.buffers[key], None, PT.Nowhere)
  {
    assert s.buffers[key := s.buffers[key]] == s.buffers;
    Advances(key, map[], map[0 := PT.Task(s.buffers[key], None, PT.Nowhere)]);
    assert TasksOf(s, key)[0 := PT.Task(s.buffers[key], None, PT.Nowhere)]
        == map[0 := PT.Task(s.buffers[key], None, PT.Nowhere)];
  }

  lemma Advances(key: Key, own: map<nat, PT.Task>, more: map<nat, PT.Task>)
    requires 0 in more
    ensures WithTasks(map[key := own], key, more) == map[key := more] && WithTasks(map[key := own], key, map[]) == map[]
  {
  }

  lemma Opens(s: State, key: Key)
    requires s.tasks == map[] && key in s.buffers
    ensures var content := s.buffers[key];
      var t := Persisting(s, key, content, None, PT.Nowhere);
      Enabled(t, At(key, PT.Open(0)))
      && Step(t, At(key, PT.Open(0)))
         == Persisting(s.(files := s.files[TmpPath(key) := []]), key, content, Some(0), PT.AtTmp)
  {
    var content := s.buffers[key];
    var t := Persisting(s, key, content, None, PT.Nowhere);
    var own, more := PT.Task(content, None, PT.Nowhere), PT.Task(content, Some(0), PT.AtTmp);
    assert s.buffers[key := content] == s.buffers;
    assert PT.Step(ItemOf(t, key), PT.Open(0)).tasks == map[0 := more];
    Advances(key, map[0 := own], map[0 := more]);
  }

  lemma Writes(s: State, key: Key, n: nat)
    requires s.tasks == map[] && key in s.buffers && n <= |s.buffers[key]|
    ensures var content := s.buffers[key];
      var u := Persisting(s.(files := s.files[TmpPath(key) := []]), key, content, Some(0), PT.AtTmp);
      Enabled(u, At(key, PT.Progress(0, n)))
      && Step(u, At(key, PT.Progress(0, n)))
         == Persisting(s.(files := s.files[TmpPath(key) := content[..n]]), key, content, Some(n), PT.AtTmp)
  {
    var content := s.buffers[key];
    var u := Persisting(s.(files := s.files[TmpPath(key) := []]), key, content, Some(0), PT.AtTmp);
    var own, more := PT.Task(content, Some(0), PT.AtTmp), PT.Task(content, Some(n), PT.AtTmp);
    assert s.buffers[key := content] == s.buffers;
    assert PT.Step(ItemOf(u, key), PT.Progress(0, n)).tasks == map[0 := more];
    Advances(key, map[0 := own], map[0 := more]);
    assert PT.Overwrite([], 0, content[0..n]) == content[..n];
    assert s.files[TmpPath(key) := []][TmpPath(key) := content[..n]] == s.files[TmpPath(key) := content[..n]];
  }

  lemma Ends(s: State, key: Key, n: nat, e: PT.Event)
    requires s.tasks == map[] && key in s.buffers && n <= |s.buffers[key]|
    requires e == PT.Abort(0) || (e.Rename? && e.task == 0 && n == |s.buffers[key]|)
    ensures var content := s.buffers[key];
      var files := s.files[TmpPath(key) := content[..n]];
      var t := Persisting(s.(files := files), key, content, Some(n), PT.AtTmp);
      Enabled(t, At(key, e)) && Step(t, At(key, e)) == s.(files := FilesAfter(t, key, e))
      && FilesAfter(t, key, e)
         == if e.Rename? && e.ok then (files - {TmpPath(key)})[Path(key) := content[..n]] else files
  {
    var content := s.buffers[key];
    var files := s.files[TmpPath(key) := content[..n]];
    var t := Persisting(s.(files := files), key, content, Some(n), PT.AtTmp);
    var own := PT.Task(content, Some(n), PT.AtTmp);
    assert s.buffers[key := content] == s.buffers;
    assert TasksOf(t, key) - {0} == map[];
    assert PT.Step(ItemOf(t, key), e).tasks == map[];
    Advances(key, map[0 := own], map[0 := own]);
  }

  /** The first steps of a persist: the copy is made and `n` bytes of it are in the temporary file. */
  lemma WritesTmp(s: State, key: Key, n: nat)
    requires s.tasks == map[] && key in s.buffers && n <= |s.buffers[key]|
    ensures var content := s.buffers[key];
      IsRun(s, [At(key, PT.Begin(0)), At(key, PT.Open(0)), At(key, PT.Progress(0, n))],
            Persisting(s.(files := s.files[TmpPath(key) := content[..n]]), key, content, Some(n), PT.AtTmp))
  {
    var content := s.buffers[key];
    var t := Persisting(s, key, content, None, PT.Nowhere);
    var u := Persisting(s.(files := s.files[TmpPath(key) := []]), key, content, Some(0), PT.AtTmp);
    var v := Persisting(s.(files := s.files[TmpPath(key) := content[..n]]), key, content, Some(n), PT.AtTmp);
    Copies(s, key);
    Opens(s, key);
    Writes(s, key, n);
    ThreeSteps(s, At(key, PT.Begin(0)), t, At(key, PT.Open(0)), u, At(key, PT.Progress(0, n)), v);
  }

  lemma ThreeSteps(s: State, e: Event, t: State, f: Event, u: State, g: Event, v: State)
    requires Enabled(s, e) && t == Step(s, e) && Enabled(t, f) && u == Step(t, f) && Enabled(u, g) && v == Step(u, g)
    ensures IsRun(s, [e, f, g], v)
  {
    assert [e, f, g][1..] == [f, g] && [f, g][1..] == [g];
    OneStep(u, g);
  }

  /** A whole persist, if its last step is the one given. */
  lemma EndsPersist(s: State, key: Key, n: nat, e: PT.Event)
    requires s.tasks == map[] && key in s.buffers && n <= |s.buffers[key]|
    requires e == PT.Abort(0) || (e.Rename? && e.task == 0 && n == |s.buffers[key]|)
    ensures var content := s.buffers[key];
      var files := s.files[TmpPath(key) := content[..n]];
      IsRun(s, [At(key, PT.Begin(0)), At(key, PT.Open(0)), At(key, PT.Progress(0, n)), At(key, e)],
            s.(files := if e.Rename? && e.ok then (files - {TmpPath(key)})[Path(key) := content[..n]] else files))
  {
    var content := s.buffers[key];
    var files := s.files[TmpPath(key) := content[..n]];
    var t := Persisting(s.(files := files), key, content, Some(n), PT.AtTmp);
    WritesTmp(s, key, n);
    Ends(s, key, n, e);
    OneStep(t, At(key, e));
    var es := [At(key, PT.Begin(0)), At(key, PT.Open(0)), At(key, PT.Progress(0, n))];
    RunsCompose(s, es, t, [At(key, e)], Step(t, At(key, e)));
    assert es + [At(key, e)] == [At(key, PT.Begin(0)), At(key, PT.Open(0)), At(key, PT.Progress(0, n)), At(key, e)];
  }

  lemma FailsAtOnce(s: State, key: Key)
    requires s.tasks == map[] && key in s.buffers
    ensures IsRun(s, [At(key, PT.Begin(0)), At(key, PT.Abort(0))], s)
  {
    var t := Persisting(s, key, s.buffers[key], None, PT.Nowhere);
    Copies(s, key);
    assert TasksOf(t, key) - {0} == map[];
    assert s.buffers[key := s.buffers[key]] == s.buffers;
    Advances(key, TasksOf(t, key), TasksOf(t, key));
    TwoSteps(s, At(key, PT.Begin(0)), At(key, PT.Abort(0)));
  }

  lemma {:induction false} RunsAreUnique(s: State, es: seq<Event>, t: State, u: State)
    requires IsRun(s, es, t) && IsRun(s, es, u)
    ensures t == u
    decreases |es|
  {
    if es != [] {
      RunsAreUnique(Step(s, es[0]), es[1..], t, u);
    }
  }

  class WriteBackBuffer {
    var buffers: map<Key, Bytes>
    var files: Files

    ghost function View(): State
      reads this
    {
      State(buffers, files, map[])
    }

    method Persist(key: Key, fate: Fate) returns (ok: bool)
      modifies this`files
      ensures IsRun(old(View()), PersistSteps(buffers, key, fate), View())
      ensures ok <==> fate.Completes? || key !in buffers
      ensures key !in buffers || fate.FailsToOpen? ==> files == old(files)
      ensures key in buffers && fate.Completes? ==>
        files == (old(files) - {TmpPath(key)})[(key.0, Sanitize(key.1)) := buffers[key]]
      ensures key in buffers && fate.FailsToRename? ==> files == old(files)[TmpPath(key) := buffers[key]]
      ensures key in buffers && fate.FailsWriting? ==>
        TmpPath(key) in files && files[TmpPath(key)] <= buffers[key]
        && files - {TmpPath(key)} == old(files) - {TmpPath(key)}
    {
      ghost var s := View();
      if key !in buffers {
        OneStep(s, At(key, PT.Begin(0)));
        assert Step(s, At(key, PT.Begin(0))) == s;
        return true;
      }
      var content := buffers[key];
      if fate.FailsToOpen? {
        FailsAtOnce(s, key);
        return false;
      }
      if fate.FailsWriting? {
        var n := Min(fate.n, |content|);
        EndsPersist(s, key, n, PT.Abort(0));
        files := files[TmpPath(key) := content[..n]];
        return false;
      }
      EndsPersist(s, key, |content|, PT.Rename(0, fate.Completes?));
      assert content[..|content|] == content;
      files := files[TmpPath(key) := content];
      if fate.FailsToRename? {
        return false;
      }
      files := (files - {TmpPath(key)})[Path(key) := content];
      return true;
    }

    method Write(key: Key, content: Bytes, fate: Fate) returns (ok: bool)
      modifies this
      ensures IsRun(old(View()), [At(key, PT.Put(content))] + PersistSteps(buffers, key, fate), View())
      ensures buffers == old(buffers)[key := content] && (ok <==> fate.Completes?)
      ensures ok ==> Recovered(View(), key) == Some(content)
    {
      ghost var s := View();
      buffers := buffers[key := content];
      OneStep(s, At(key, PT.Put(content)));
      ghost var t := View();
      ok := Persist(key, fate);
      RunsCompose(s, [At(key, PT.Put(content))], t, PersistSteps(buffers, key, fate), View());
      if ok {
        EndsPersist(t, key, |content|, PT.Rename(0, true));
        ghost var persisted :=
          (t.files[TmpPath(key) := content[..|content|]] - {TmpPath(key)})[Path(key) := content[..|content|]];
        assert content[..|content|] == content;
        RunsAreUnique(t, PersistSteps(buffers, key, fate), View(), t.(files := persisted));
      }
    }

    method Read(key: Key) returns (content: Option<Bytes>)
      ensures content == Content(View(), key)
      ensures key in buffers ==> content == Some(buffers[key])
      ensures key !in buffers ==> content == Lookup(files, (key.0, Sanitize(key.1)))
    {
      if key in buffers {
        return Some(buffers[key]);
      }
      content := if Path(key) in files then Some(files[Path(key)]) else None;
    }

    /** The buffer goes first; the file stays when deleting it fails. */
    method Remove(key: Key, fileDeleted: bool)
      modifies this
      ensures IsRun(old(View()), [At(key, PT.Drop)] + (if fileDeleted then [At(key, PT.Delete)] else []), View())
      ensures Content(View(), key) == if fileDeleted then None else Recovered(old(View()), key)
      ensures buffers == old(buffers) - {key}
      ensures files == if fileDeleted then old(files) - {(key.0, Sanitize(key.1))} else old(files)
    {
      ghost var s := View();
      buffers := buffers - {key};
      OneStep(s, At(key, PT.Drop));
      assert [At(key, PT.Drop)] + [] == [At(key, PT.Drop)];
      if fileDeleted {
        OneStep(View(), At(key, PT.Delete));
        RunsCompose(s, [At(key, PT.Drop)], View(), [At(key, PT.Delete)], Step(View(), At(key, PT.Delete)));
        files := files - {Path(key)};
      }
    }

    method HasPending(key: Key) returns (pending: bool)
      ensures pending <==> Content(View(), key).Some?
    {
      if key in buffers {
        return true;
      }
      pending := Path(key) in files;
    }

    /** The finished files of every drive directory, in directory order. */
    method ListPending() returns (pending: seq<Key>)
      ensures forall key :: key in pending <==> key in Listed(files)
      ensures forall key :: key in pending <==>
        exists file :: file in files && !EndsWith(file.1, ".tmp") && key == (file.0, Unsanitize(file.1))
      ensures |pending| == |FinishedFiles(files)|
    {
      pending := [];
      var rest := files.Keys;
      while rest != {}
        invariant rest <= files.Keys
        invariant forall key :: key in pending <==> key in ListedOf(files.Keys - rest)
        invariant |pending| == |FinishedOf(files.Keys - rest)|
      {
        var entry :| entry in rest;
        ghost var seen := files.Keys - rest;
        rest := rest - {entry};
        assert files.Keys - rest == seen + {entry};
        FinishedGrows(seen, entry);
        if !EndsWith(entry.1, ".tmp") {
          pending := pending + [(entry.0, Unsanitize(entry.1))];
        }
      }
      assert files.Keys - {} == files.Keys;
    }
  }

  lemma EndingHasDot(name: string)
    requires EndsWith(name, ".tmp")
    ensures '.' in name
  {
    assert name[|name| - 4] == name[|name| - 4..][0];
  }

  /** The file of an item is listed under that item's id exactly when the id has no escape and no `.tmp` ending. */
  lemma ListedExactly(files: Files, key: Key)
    requires Path(key) in files
    ensures Path(key) in FinishedFiles(files) && Unsanitize(Path(key).1) == key.1 <==>
            !HasEscape(key.1) && !EndsWith(Sanitize(key.1), ".tmp")
    ensures !HasEscape(key.1) && !EndsWith(Sanitize(key.1), ".tmp") ==> key in Listed(files)
    ensures PlainId(key.1) ==> key in Listed(files)
  {
    SanitizeRoundTrip(key.1);
    if PlainId(key.1) && EndsWith(Sanitize(key.1), ".tmp") {
      EndingHasDot(Sanitize(key.1));
      PlainTmpName(key.1);
      assert false;
    }
    if !HasEscape(key.1) && !EndsWith(Sanitize(key.1), ".tmp") {
      assert Path(key) in FinishedOf(files.Keys);
      assert (Path(key).0, Unsanitize(Path(key).1)) == key;
    }
  }

  // ------------------------------------------------ the store is its items

  predicate IsPlainEvent(e: Event) {
    e.At? ==> PlainId(e.key.1)
  }

  /** A step of an item is the step of PersistTasks, on that item and on no other. */
  lemma StepIsItemStep(s: State, key: Key, e: PT.Event, other: Key)
    requires Enabled(s, At(key, e)) && Path(key) != TmpPath(key)
    ensures ItemOf(Step(s, At(key, e)), key) == PT.Step(ItemOf(s, key), e)
    ensures other != key && Apart(key, other) ==> ItemOf(Step(s, At(key, e)), other) == ItemOf(s, other)
  {
    StepMovesItem(s, key, e);
    if other != key && Apart(key, other) {
      StepLeavesOthers(s, key, e, other);
    }
  }

  lemma StepMovesItem(s: State, key: Key, e: PT.Event)
    requires Enabled(s, At(key, e)) && Path(key) != TmpPath(key)
    ensures ItemOf(Step(s, At(key, e)), key) == PT.Step(ItemOf(s, key), e)
  {
  }

  lemma StepLeavesOthers(s: State, key: Key, e: PT.Event, other: Key)
    requires Enabled(s, At(key, e)) && other != key && Apart(key, other)
    ensures ItemOf(Step(s, At(key, e)), other) == ItemOf(s, other)
  {
  }

  /** What happens to one item. */
  function EventsOf(es: seq<Event>, key: Key): seq<PT.Event>
    decreases |es|
  {
    if es == [] then [] else EventOf(es[0], key) + EventsOf(es[1..], key)
  }

  function EventOf(e: Event, key: Key): seq<PT.Event> {
    if e.Crash? then [PT.Crash] else if e.key == key then [e.event] else []
  }

  /** The events of other items do not matter to this one. */
  predicate KeepsClear(e: Event, key: Key) {
    e.At? && e.key != key ==> Apart(e.key, key) && Path(e.key) != TmpPath(e.key)
  }

  lemma StepOfItem(s: State, e: Event, key: Key)
    requires Enabled(s, e) && Path(key) != TmpPath(key) && KeepsClear(e, key)
    ensures if EventOf(e, key) == [] then ItemOf(Step(s, e), key) == ItemOf(s, key)
            else |EventOf(e, key)| == 1 && PT.Enabled(ItemOf(s, key), EventOf(e, key)[0])
                 && ItemOf(Step(s, e), key) == PT.Step(ItemOf(s, key), EventOf(e, key)[0])
  {
    if e.At? {
      StepIsItemStep(s, e.key, e.event, key);
    }
  }

  /** The item is left alone, in the sense of PersistTasks. */
  ghost predicate IsQuietRun(s: State, es: seq<Event>, t: State, key: Key)
    decreases |es|
  {
    if es == [] then s == t
    else
      && Enabled(s, es[0]) && KeepsClear(es[0], key)
      && (es[0].At? && es[0].key == key ==> PT.Leaves(ItemOf(s, key), es[0].event))
      && IsQuietRun(Step(s, es[0]), es[1..], t, key)
  }

  /** Whatever happens to the others, an item goes through a run of its own. */
  lemma {:induction false} StoreRunsAreItemRuns(s: State, es: seq<Event>, t: State, key: Key)
    requires Path(key) != TmpPath(key) && IsQuietRun(s, es, t, key)
    ensures PT.IsQuietRun(ItemOf(s, key), EventsOf(es, key), ItemOf(t, key))
    decreases |es|
  {
    if es != [] {
      StepOfItem(s, es[0], key);
      StoreRunsAreItemRuns(Step(s, es[0]), es[1..], t, key);
      var first, rest := EventOf(es[0], key), EventsOf(es[1..], key);
      if first == [] {
        assert first + rest == rest;
      } else {
        assert (first + rest)[0] == first[0] && (first + rest)[1..] == rest;
      }
    }
  }

  // ------------------------------------------------------------ crash safety

  /** A persist of the item has renamed its copy. */
  ghost predicate Returned(es: seq<Event>, key: Key) {
    PT.Renames(EventsOf(es, key))
  }

  /**
   A write that starts where no persist of the item is in progress: wherever it stops, and
   whatever other items, crashes and later persists do, a restart finds the whole previous
   content, or the whole new one once it has returned.
   */
  lemma WriteIsCrashAtomic(s: State, key: Key, content: Bytes, es: seq<Event>, t: State)
    requires PlainId(key.1) && TasksOf(s, key) == map[]
    requires IsQuietRun(Step(s, At(key, PT.Put(content))), es, t, key)
    ensures Recovered(t, key) == if Returned(es, key) then Some(content) else Recovered(s, key)
    ensures key in t.buffers ==> t.buffers[key] == content
  {
    DistinctPaths(key, key);
    StepIsItemStep(s, key, PT.Put(content), key);
    StoreRunsAreItemRuns(Step(s, At(key, PT.Put(content))), es, t, key);
    PT.WriteIsAllOrNothing(ItemOf(s, key), content, EventsOf(es, key), ItemOf(t, key));
  }

  /** Once such a write has returned, it is read back and listed for recovery ever after. */
  lemma ReturnedWriteSurvives(s: State, key: Key, content: Bytes, es: seq<Event>, t: State)
    requires PlainId(key.1) && TasksOf(s, key) == map[]
    requires IsQuietRun(Step(s, At(key, PT.Put(content))), es, t, key) && Returned(es, key)
    ensures Content(t, key) == Recovered(t, key) == Some(content) && key in Listed(t.files)
  {
    WriteIsCrashAtomic(s, key, content, es, t);
    ListedExactly(t.files, key);
  }

  /** On disk the item holds `c`, and memory has nothing else for it. */
  predicate Settled(s: State, key: Key, c: Bytes) {
    PT.Settled(ItemOf(s, key), c)
  }

  /** And every run of an item is one of the store. */
  lemma {:induction false} ItemRunsAreStoreRuns(s: State, fs: seq<PT.Event>, item: PT.Item, key: Key)
    returns (es: seq<Event>, t: State)
    requires Path(key) != TmpPath(key) && PT.IsQuietRun(ItemOf(s, key), fs, item)
    ensures IsQuietRun(s, es, t, key) && ItemOf(t, key) == item
    decreases |fs|
  {
    if fs == [] {
      es, t := [], s;
    } else {
      var e := if fs[0].Crash? then Crash else At(key, fs[0]);
      StepOfItem(s, e, key);
      es, t := ItemRunsAreStoreRuns(Step(s, e), fs[1..], item, key);
      es := [e] + es;
    }
  }

  /** After every run of the store that leaves the item alone it still holds `c`. */
  ghost predicate Stays(s: State, key: Key, c: Bytes) {
    forall es, t :: IsQuietRun(s, es, t, key) ==> Settled(t, key, c)
  }

  /**
   An item that holds `c` goes on holding it exactly when each persist of it in progress is
   harmless: it has copied `c` and has the temporary file to itself, or what it has still to
   write and to rename is `c`.
   */
  lemma StaysExactly(s: State, key: Key, c: Bytes)
    requires PlainId(key.1) && PT.Inv(ItemOf(s, key)) && Settled(s, key, c)
    ensures Stays(s, key, c) <==> PT.Harmless(ItemOf(s, key), c)
  {
    DistinctPaths(key, key);
    PT.StaysExactly(ItemOf(s, key), c);
    if PT.Harmless(ItemOf(s, key), c) {
      forall es, t | IsQuietRun(s, es, t, key) ensures Settled(t, key, c) {
        StoreRunsAreItemRuns(s, es, t, key);
      }
    } else {
      assert !PT.Stays(ItemOf(s, key), c);
      var fs, item :| PT.IsQuietRun(ItemOf(s, key), fs, item) && !PT.Settled(item, c);
      var es, t := ItemRunsAreStoreRuns(s, fs, item, key);
      assert IsQuietRun(s, es, t, key) && !Settled(t, key, c);
    }
  }

  // ---------------------------------------------------- exactly the finished

  predicate OwnedBy(f: Key, key: Key) {
    PlainId(key.1) && (f == Path(key) || f == TmpPath(key))
  }

  /** Every file belongs to an item with a plain id, as its content or as its temporary file. */
  ghost predicate Owned(files: Files) {
    forall f :: f in files ==> exists key :: OwnedBy(f, key)
  }

  lemma GrowKeepsOwned(files: Files, grown: Files, key: Key)
    requires Owned(files) && PlainId(key.1)
    requires forall f :: f in grown ==> f in files || f == Path(key) || f == TmpPath(key)
    ensures Owned(grown)
  {
    forall f | f in grown
      ensures exists k :: OwnedBy(f, k)
    {
      if f !in files {
        assert OwnedBy(f, key);
      }
    }
  }

  lemma StepKeepsOwned(s: State, e: Event)
    requires Owned(s.files) && IsPlainEvent(e) && Enabled(s, e)
    ensures Owned(Step(s, e).files)
  {
    if e.At? {
      GrowKeepsOwned(s.files, Step(s, e).files, e.key);
    }
  }

  lemma {:induction false} RunKeepsOwned(s: State, es: seq<Event>, t: State)
    requires Owned(s.files) && IsRun(s, es, t) && forall e :: e in es ==> IsPlainEvent(e)
    ensures Owned(t.files)
    decreases |es|
  {
    if es != [] {
      assert es[0] in es;
      StepKeepsOwned(s, es[0]);
      RunKeepsOwned(Step(s, es[0]), es[1..], t);
    }
  }

  /** `list_pending` yields exactly the items whose content is on disk, and no unfinished one. */
  lemma ListsExactlyTheFinished(es: seq<Event>, t: State, key: Key)
    requires IsRun(EMPTY, es, t) && forall e :: e in es ==> IsPlainEvent(e)
    ensures key in Listed(t.files) <==> PlainId(key.1) && Recovered(t, key).Some?
  {
    RunKeepsOwned(EMPTY, es, t);
    if PlainId(key.1) && Path(key) in t.files {
      ListedExactly(t.files, key);
    }
    if key in Listed(t.files) {
      ListedIsPlain(t.files, key);
    }
  }

  lemma ListedIsPlain(files: Files, key: Key)
    requires Owned(files) && key in Listed(files)
    ensures PlainId(key.1) && Path(key) in files
  {
    var f: Key :| f in FinishedFiles(files) && (f.0, Unsanitize(f.1)) == key;
    assert f in FinishedFiles(files);
    assert f in FinishedOf(files.Keys) && f in files.Keys;
    var k :| OwnedBy(f, k);
    FinishedIsPath(f, k);
  }

  lemma FinishedIsPath(f: Key, key: Key)
    requires OwnedBy(f, key) && !EndsWith(f.1, ".tmp")
    ensures f == Path(key) && key == (f.0, Unsanitize(f.1))
  {
    PlainTmpName(key.1);
    var name := Sanitize(key.1);
    assert (name + ".tmp")[|name|..] == ".tmp";
    SanitizeRoundTrip(key.1);
  }

  // ------------------------------------------------------ without plain ids

  predicate OnlyOf(es: seq<Event>, key: Key) {
    forall e :: e in es ==> e.Crash? || e.key == key
  }

  /** No write to `key` by itself, wherever it stops, leaves `other` with anything but old or whole new content. */
  ghost predicate Untorn(key: Key, other: Key) {
    forall s: State, content: Bytes, es: seq<Event>, t: State ::
      s.tasks == map[] && OnlyOf(es, key) && IsQuietRun(Step(s, At(key, PT.Put(content))), es, t, key) ==>
        Recovered(t, other) == Recovered(s, other) || (Path(other) == Path(key) && Recovered(t, other) == Some(content))
  }

  lemma {:induction false} OthersStay(s: State, es: seq<Event>, t: State, key: Key, other: Key)
    requires OnlyOf(es, key) && IsQuietRun(s, es, t, key)
    requires Path(other) != Path(key) && Path(other) != TmpPath(key)
    ensures Recovered(t, other) == Recovered(s, other)
    decreases |es|
  {
    if es != [] {
      assert es[0] in es && forall e :: e in es[1..] ==> e in es;
      OthersStay(Step(s, es[0]), es[1..], t, key, other);
    }
  }

  lemma OpeningTears(key: Key, other: Key)
    requires TmpPath(key) == Path(other)
    ensures !Untorn(key, other)
  {
    var s := Step(EMPTY, At(key, PT.Put([7])));
    var t := Step(s, At(key, PT.Begin(0)));
    var u := Step(t, At(key, PT.Open(0)));
    var es := [At(key, PT.Begin(0)), At(key, PT.Open(0))];
    assert es[1..] == [At(key, PT.Open(0))] && es[1..][1..] == [];
    assert IsQuietRun(u, [], u, key);
    assert IsQuietRun(t, es[1..], u, key);
    assert IsQuietRun(s, es, u, key);
    assert Recovered(u, other) == Some([]) && Recovered(EMPTY, other) == None;
    assert OnlyOf(es, key);
  }

  /**
   Crash atomicity of a write by itself fails exactly when the temporary file of the item
   written is the file of the other item, or its own: ids such as `a` and `a.tmp`, or
   `a.tmp` alone.
   */
  lemma UntornExactly(key: Key, other: Key)
    ensures Untorn(key, other) <==> TmpPath(key) != Path(other)
  {
    if TmpPath(key) == Path(other) {
      OpeningTears(key, other);
    } else {
      forall s: State, content: Bytes, es: seq<Event>, t: State |
        s.tasks == map[] && OnlyOf(es, key) && IsQuietRun(Step(s, At(key, PT.Put(content))), es, t, key)
        ensures Recovered(t, other) == Recovered(s, other)
             || (Path(other) == Path(key) && Recovered(t, other) == Some(content))
      {
        var u := Step(s, At(key, PT.Put(content)));
        if Path(other) == Path(key) {
          StoreRunsAreItemRuns(u, es, t, key);
          PT.WriteIsAllOrNothing(ItemOf(s, key), content, EventsOf(es, key), ItemOf(t, key));
        } else {
          OthersStay(u, es, t, key, other);
        }
      }
    }
  }
}
