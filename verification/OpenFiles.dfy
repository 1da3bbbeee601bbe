/**
 Open file handles: an in-memory buffer, possibly still downloading, whose logical
 size may be smaller than the buffer.

 The first part gives each operation as a function on one handle and proves that a
 handle behaves like a plain byte file. The second part is the table of handles, whose
 methods apply those functions in place.
 */
module OpenFiles {
  import opened Wrappers
  import opened ByteSeqs
  import SB = StreamingBuffer

  type Fh = nat

  datatype DownloadState = Complete(data: Bytes) | Streaming(buffer: SB.Buffer)

  datatype OpenFile = OpenFile(ino: Ino, content: DownloadState, dirty: bool, stale: bool, logicalSize: Option<nat>)

  datatype VfsError = NotFound | IoError | StillWaiting

  // ------------------------------------------------------------ one handle

  /** `Vec::truncate` to the logical size, when there is one. */
  function Truncated(data: Bytes, logicalSize: Option<nat>): Bytes {
    if logicalSize.Some? then data[..Min(logicalSize.value, |data|)] else data
  }

  /** The bytes the handle stands for, and which a flush or release hands to writeback. */
  function Logical(f: OpenFile): Bytes
    requires f.content.Complete?
  {
    Truncated(f.content.data, f.logicalSize)
  }

  /** The size the file system reports for the handle. */
  function ReportedSize(f: OpenFile): nat {
    if f.logicalSize.Some? then f.logicalSize.value
    else match f.content
         case Complete(data) => |data|
         case Streaming(buffer) => buffer.totalSize
  }

  /** The buffer covers the logical size, and holds zeros beyond it. */
  predicate Tidy(f: OpenFile) {
    match f.content
    case Complete(data) =>
      f.logicalSize.Some? ==>
        && f.logicalSize.value <= |data|
        && forall i :: f.logicalSize.value <= i < |data| ==> data[i] == 0
    case Streaming(_) => !f.dirty && f.logicalSize.None?
  }

  function OnWrite(f: OpenFile, offset: nat, bytes: Bytes): OpenFile
    requires f.content.Complete?
  {
    var end := offset + |bytes|;
    var room := if |f.content.data| < end then Resize(f.content.data, end) else f.content.data;
    f.(content := Complete(Splice(room, offset, bytes)), dirty := true,
       logicalSize := if f.logicalSize.Some? then Some(Max(f.logicalSize.value, end)) else None)
  }

  function OnTruncate(f: OpenFile, size: nat): OpenFile
    requires f.content.Complete?
  {
    f.(content := Complete(Resize(f.content.data, size)), dirty := true, logicalSize := Some(size))
  }

  /** `ensure_buffer_capacity` */
  function OnReserve(f: OpenFile, capacity: nat): OpenFile
    requires f.content.Complete?
  {
    if |f.content.data| < capacity then f.(content := Complete(Resize(f.content.data, capacity))) else f
  }

  function OnRefresh(f: OpenFile, content: Bytes): OpenFile {
    f.(content := Complete(content), stale := false)
  }

  // --------------------------------------------------- the plain byte file

  /** Writing past the end fills the gap with zeros. */
  function PlainWrite(c: Bytes, offset: nat, bytes: Bytes): Bytes {
    Splice(Resize(c, Max(|c|, offset + |bytes|)), offset, bytes)
  }

  lemma WriteRefines(f: OpenFile, offset: nat, bytes: Bytes)
    requires f.content.Complete? && Tidy(f)
    ensures Tidy(OnWrite(f, offset, bytes))
    ensures Logical(OnWrite(f, offset, bytes)) == PlainWrite(Logical(f), offset, bytes)
    ensures var g := OnWrite(f, offset, bytes);
      g.dirty && g.ino == f.ino && g.stale == f.stale && (g.logicalSize.Some? <==> f.logicalSize.Some?)
  {
  }

  lemma TruncateRefines(f: OpenFile, size: nat)
    requires f.content.Complete? && Tidy(f)
    ensures Tidy(OnTruncate(f, size))
    ensures Logical(OnTruncate(f, size)) == Resize(Logical(f), size)
    ensures var g := OnTruncate(f, size); g.dirty && g.ino == f.ino && g.stale == f.stale && g.logicalSize == Some(size)
  {
  }

  /** Reserving room leaves the file alone exactly when a logical size is set or no room is needed. */
  lemma ReserveRefinesExactly(f: OpenFile, capacity: nat)
    requires f.content.Complete? && Tidy(f)
    ensures Tidy(OnReserve(f, capacity))
    ensures Logical(OnReserve(f, capacity)) == Logical(f) <==> f.logicalSize.Some? || capacity <= |f.content.data|
    ensures f.logicalSize.None? ==> Logical(OnReserve(f, capacity)) == Resize(Logical(f), Max(|Logical(f)|, capacity))
    ensures |OnReserve(f, capacity).content.data| >= capacity && OnReserve(f, capacity).(content := f.content) == f
  {
    if f.logicalSize.None? && capacity > |f.content.data| {
      assert |Logical(OnReserve(f, capacity))| == capacity;
    }
  }

  /**
   Refreshing a stale handle keeps its logical size, so the handle stands for the new
   content exactly when no logical size is set or the new content fits into it.
   */
  lemma RefreshShowsTheNewContentExactly(f: OpenFile, content: Bytes)
    ensures Logical(OnRefresh(f, content)) == content <==> f.logicalSize.None? || f.logicalSize.value >= |content|
    ensures ReportedSize(OnRefresh(f, content)) == |content| <==>
            f.logicalSize.None? || f.logicalSize.value == |content|
    ensures OnRefresh(f, content) == OpenFile(f.ino, Complete(content), f.dirty, false, f.logicalSize)
  {
    if f.logicalSize.Some? && f.logicalSize.value < |content| {
      assert |Logical(OnRefresh(f, content))| == f.logicalSize.value;
    }
  }

  lemma ReportsTheLength(f: OpenFile)
    requires f.content.Complete? && Tidy(f)
    ensures ReportedSize(f) == |Logical(f)|
  {
  }

  /** While the download of a file goes on its handle reports the size of the whole file, however much has arrived. */
  lemma StreamingReportsTheFile(content: Bytes, f: OpenFile)
    requires f.content.Streaming? && f.content.buffer.Valid() && SB.Faithful(content, f.content.buffer.View())
    ensures ReportedSize(f) == if f.logicalSize.Some? then f.logicalSize.value else |content|
  {
  }

  /** Reads go to the buffer, so room reserved past the logical end reads as zeros instead of as the end of the file. */
  lemma ReadsMatchExactly(f: OpenFile, offset: nat, size: nat)
    requires f.content.Complete? && Tidy(f)
    ensures Slice(f.content.data, offset, size) == Slice(Logical(f), offset, size) <==>
            || |f.content.data| == |Logical(f)|
            || offset + size <= |Logical(f)|
            || offset >= |f.content.data|
            || size == 0
  {
  }

  // ------------------------------------------------------ one whole session

  datatype Event =
    | Write(offset: nat, bytes: Bytes)
    | Truncate(size: nat)
    | Reserve(capacity: nat)
    | FlushBegin
    | FlushEnd
    | FlushFailed

  /** `saved` is what writeback was last given; `flushes` counts the flushes that await their upload. */
  datatype Session = Session(file: OpenFile, saved: Option<Bytes>, flushes: nat)

  function Opened(ino: Ino, content: Bytes): Session {
    Session(OpenFile(ino, Complete(content), false, false, None), None, 0)
  }

  /**
   Flushes of a clean handle do nothing. The dirty flag is cleared only once the upload has
   succeeded; a flush that fails or times out leaves it as it is.
   */
  function Step(s: Session, e: Event): Session
    requires s.file.content.Complete?
  {
    match e
    case Write(offset, bytes) => s.(file := OnWrite(s.file, offset, bytes))
    case Truncate(size) => s.(file := OnTruncate(s.file, size))
    case Reserve(capacity) => s.(file := OnReserve(s.file, capacity))
    case FlushBegin => if s.file.dirty then s.(saved := Some(Logical(s.file)), flushes := s.flushes + 1) else s
    case FlushEnd => if s.flushes > 0 then s.(file := s.file.(dirty := false), flushes := s.flushes - 1) else s
    case FlushFailed => if s.flushes > 0 then s.(flushes := s.flushes - 1) else s
  }

  function Run(s: Session, es: seq<Event>): (t: Session)
    requires s.file.content.Complete?
    ensures t.file.content.Complete?
    decreases |es|
  {
    if es == [] then s else Run(Step(s, es[0]), es[1..])
  }

  function PlainStep(c: Bytes, e: Event): Bytes {
    match e
    case Write(offset, bytes) => PlainWrite(c, offset, bytes)
    case Truncate(size) => Resize(c, size)
    case _ => c
  }

  function PlainRun(c: Bytes, es: seq<Event>): Bytes
    decreases |es|
  {
    if es == [] then c else PlainRun(PlainStep(c, es[0]), es[1..])
  }

  /**
   No flush succeeds after the file was changed behind its back, and room is reserved only
   behind a logical size or where there is room. `StaysPlainExactlyWhenAllowed` has that
   this is exact.
   */
  predicate Allowed(s: Session, e: Event)
    requires s.file.content.Complete?
  {
    && (e.FlushEnd? && s.flushes > 0 ==> s.saved == Some(Logical(s.file)))
    && (e.Reserve? ==> s.file.logicalSize.Some? || e.capacity <= |s.file.content.data|)
  }

  predicate AllowedRun(s: Session, es: seq<Event>)
    requires s.file.content.Complete?
    decreases |es|
  {
    es != [] ==> Allowed(s, es[0]) && AllowedRun(Step(s, es[0]), es[1..])
  }

  /** What writeback holds for the file once the handle is released. */
  function Released(s: Session): Option<Bytes>
    requires s.file.content.Complete?
  {
    if s.file.dirty then Some(Logical(s.file)) else s.saved
  }

  /** Nothing is lost: the file as it is now is either saved, or unsaved but marked, or untouched. */
  predicate Safe(s: Session, original: Bytes)
    requires s.file.content.Complete?
  {
    !s.file.dirty ==> if s.saved.Some? then s.saved.value == Logical(s.file) else Logical(s.file) == original
  }

  lemma StepIsPlain(s: Session, e: Event, original: Bytes)
    requires s.file.content.Complete? && Tidy(s.file) && Safe(s, original) && Allowed(s, e)
    ensures var t := Step(s, e); Tidy(t.file) && Safe(t, original) && Logical(t.file) == PlainStep(Logical(s.file), e)
  {
    match e
    case Write(offset, bytes) => WriteRefines(s.file, offset, bytes);
    case Truncate(size) => TruncateRefines(s.file, size);
    case Reserve(capacity) => ReserveRefinesExactly(s.file, capacity);
    case _ =>
  }

  lemma {:induction false} RunIsPlain(s: Session, es: seq<Event>, original: Bytes)
    requires s.file.content.Complete? && Tidy(s.file) && Safe(s, original) && AllowedRun(s, es)
    ensures var t := Run(s, es); Tidy(t.file) && Safe(t, original) && Logical(t.file) == PlainRun(Logical(s.file), es)
    decreases |es|
  {
    if es != [] {
      StepIsPlain(s, es[0], original);
      RunIsPlain(Step(s, es[0]), es[1..], original);
    }
  }

  predicate Changing(es: seq<Event>) {
    es != [] && (es[0].Write? || es[0].Truncate? || Changing(es[1..]))
  }

  lemma {:induction false} RunReleasesChanges(s: Session, es: seq<Event>)
    requires s.file.content.Complete? && (s.flushes > 0 ==> s.saved.Some?)
    ensures Released(Run(s, es)).Some? <==> Released(s).Some? || Changing(es)
    decreases |es|
  {
    if es != [] {
      RunReleasesChanges(Step(s, es[0]), es[1..]);
    }
  }

  /**
   Over every run of writes, truncates, reservations and flushes that succeed or fail, the
   handle stands for the plain file, reports its length, and releasing it leaves exactly
   those bytes in writeback, or nothing when it was never written to.
   */
  lemma SessionIsAPlainFile(ino: Ino, content: Bytes, es: seq<Event>)
    requires AllowedRun(Opened(ino, content), es)
    ensures var t := Run(Opened(ino, content), es);
      && Logical(t.file) == PlainRun(content, es)
      && ReportedSize(t.file) == |PlainRun(content, es)|
      && Released(t) == (if Changing(es) then Some(PlainRun(content, es)) else None)
      && (!Changing(es) ==> PlainRun(content, es) == content)
  {
    RunReleasesChanges(Opened(ino, content), es);
    RunIsPlain(Opened(ino, content), es, content);
    ReportsTheLength(Run(Opened(ino, content), es).file);
  }

  /** After every step of the run the handle stands for the plain file, and nothing is lost. */
  predicate StaysPlain(s: Session, es: seq<Event>, original: Bytes)
    requires s.file.content.Complete?
    decreases |es|
  {
    es != [] ==>
      var t := Step(s, es[0]);
      && Logical(t.file) == PlainStep(Logical(s.file), es[0]) && Safe(t, original)
      && StaysPlain(t, es[1..], original)
  }

  lemma StepIsPlainExactly(s: Session, e: Event, original: Bytes)
    requires s.file.content.Complete? && Tidy(s.file) && Safe(s, original) && (s.flushes > 0 ==> s.saved.Some?)
    ensures Allowed(s, e) <==> Logical(Step(s, e).file) == PlainStep(Logical(s.file), e) && Safe(Step(s, e), original)
    ensures Tidy(Step(s, e).file)
  {
    if Allowed(s, e) {
      StepIsPlain(s, e, original);
    } else if e.Reserve? {
      ReserveRefinesExactly(s.file, e.capacity);
    }
  }

  /**
   A session stands for the plain file after every step exactly when no flush succeeds after
   the file was changed behind its back, and room is reserved only behind a logical size or
   where there is room.
   */
  lemma {:induction false} StaysPlainExactlyWhenAllowed(s: Session, es: seq<Event>, original: Bytes)
    requires s.file.content.Complete? && Tidy(s.file) && Safe(s, original) && (s.flushes > 0 ==> s.saved.Some?)
    ensures StaysPlain(s, es, original) <==> AllowedRun(s, es)
    decreases |es|
  {
    if es != [] {
      StepIsPlainExactly(s, es[0], original);
      if Allowed(s, es[0]) {
        StaysPlainExactlyWhenAllowed(Step(s, es[0]), es[1..], original);
      }
    }
  }

  function InoSaved(saved: map<Ino, Bytes>, ino: Ino): Option<Bytes> {
    if ino in saved then Some(saved[ino]) else None
  }

  /** What truncating a file without an open handle makes of its writeback entry and its cached content. */
  function TruncatedClosed(saved: Option<Bytes>, cached: Option<Bytes>, size: nat): Bytes {
    Resize(if size == 0 then [] else if saved.Some? then saved.value else if cached.Some? then cached.value else [],
           size)
  }

  /** Unsaved bytes come before cached ones, and nothing is as good as zeros. */
  lemma ClosedTruncation(saved: Option<Bytes>, cached: Option<Bytes>, size: nat)
    ensures saved.Some? ==> TruncatedClosed(saved, cached, size) == Resize(saved.value, size)
    ensures saved.None? && cached.Some? ==> TruncatedClosed(saved, cached, size) == Resize(cached.value, size)
    ensures saved.None? && cached.None? ==> TruncatedClosed(saved, cached, size) == Zeros(size)
    ensures size == 0 ==> TruncatedClosed(saved, cached, size) == []
  {
    if size == 0 {
      assert saved.Some? ==> Resize(saved.value, 0) == [];
      assert cached.Some? ==> Resize(cached.value, 0) == [];
      assert Zeros(0) == [];
    } else {
      assert Resize([], size) == Zeros(size);
    }
  }

  /**
   Closing a file after any session and truncating it then is truncating the plain file: what
   was not saved is in writeback, and what was never written is still in the disk cache.
   */
  lemma TruncatingAfterASession(ino: Ino, content: Bytes, es: seq<Event>, size: nat)
    requires AllowedRun(Opened(ino, content), es)
    ensures TruncatedClosed(Released(Run(Opened(ino, content), es)), Some(content), size)
         == Resize(PlainRun(content, es), size)
  {
    SessionIsAPlainFile(ino, content, es);
    ClosedTruncation(Released(Run(Opened(ino, content), es)), Some(content), size);
  }

  /** A write that lands while a flush awaits its upload is gone once the handle is released. */
  lemma WriteDuringFlushIsLost()
    ensures var es := [Write(0, [1]), FlushBegin, Write(0, [2]), FlushEnd];
      var t := Run(Opened(1, [0]), es);
      PlainRun([0], es) == [2] && Logical(t.file) == [2] && Released(t) == Some([1])
  {
    var s1 := Step(Opened(1, [0]), Write(0, [1]));
    assert s1.file.content.data == [1];
    var s2 := Step(s1, FlushBegin);
    var s3 := Step(s2, Write(0, [2]));
    assert s3.file.content.data == [2];
    var s4 := Step(s3, FlushEnd);
    var es := [Write(0, [1]), FlushBegin, Write(0, [2]), FlushEnd];
    assert es[1..] == [FlushBegin, Write(0, [2]), FlushEnd];
    assert es[1..][1..] == [Write(0, [2]), FlushEnd] && es[1..][1..][1..] == [FlushEnd];
    assert Run(s3, [FlushEnd]) == s4 && Run(s2, [Write(0, [2]), FlushEnd]) == s4;
    assert PlainWrite([0], 0, [1]) == [1] && PlainWrite([1], 0, [2]) == [2];
    assert PlainRun([2], [FlushEnd]) == [2];
    assert PlainRun([1], [Write(0, [2]), FlushEnd]) == [2];
    assert PlainRun([1], [FlushBegin, Write(0, [2]), FlushEnd]) == [2];
  }

  /** After a flush that failed, later writes are not lost, nor is the truncation before it. */
  lemma FailedFlushKeepsTheFile(ino: Ino, content: Bytes, size: nat, offset: nat, bytes: Bytes)
    ensures var es := [Truncate(size), FlushBegin, Write(offset, bytes), FlushFailed];
      && AllowedRun(Opened(ino, content), es)
      && Released(Run(Opened(ino, content), es)) == Some(PlainWrite(Resize(content, size), offset, bytes))
  {
    var es := [Truncate(size), FlushBegin, Write(offset, bytes), FlushFailed];
    var s0 := Opened(ino, content);
    var s1 := Step(s0, es[0]);
    var s2 := Step(s1, es[1]);
    var s3 := Step(s2, es[2]);
    var s4 := Step(s3, es[3]);
    assert es[1..] == [FlushBegin, Write(offset, bytes), FlushFailed];
    assert es[1..][1..] == [Write(offset, bytes), FlushFailed] && es[1..][1..][1..] == [FlushFailed];
    assert Run(s3, [FlushFailed]) == s4 && AllowedRun(s3, [FlushFailed]);
    assert Run(s2, es[1..][1..]) == s4 && AllowedRun(s2, es[1..][1..]);
    assert Run(s1, es[1..]) == s4 && AllowedRun(s1, es[1..]);
    TruncateRefines(s0.file, size);
    WriteRefines(s2.file, offset, bytes);
  }

  /**
   A file truncated to one byte and flushed, changed remotely to three bytes and then
   written to at the front is saved as one byte.
   */
  lemma RefreshAfterTruncateCutsTheFile()
    ensures var f := OpenFile(1, Complete([7]), false, true, Some(1));
      Tidy(f) && Logical(OnWrite(OnRefresh(f, [7, 8, 9]), 0, [5])) == [5] && PlainWrite([7, 8, 9], 0, [5]) == [5, 8, 9]
  {
  }

  // --------------------------------------------------------------- the table

  ghost function Finished(content: DownloadState, batches: seq<seq<SB.Arrival>>): Result<Bytes, VfsError>
    reads if content.Streaming? then {content.buffer} else {}
  {
    match content
    case Complete(data) => Ok(data)
    case Streaming(buffer) => Finish(SB.WaitAndRead(buffer.View(), 0, buffer.totalSize, batches))
  }

  function Finish(r: SB.ReadResult): Result<Bytes, VfsError> {
    match r
    case Data(bytes) => Ok(bytes)
    case IoError => Err(IoError)
    case Waiting => Err(StillWaiting)
  }

  /** A completed download becomes the file, whatever arrived while waiting for it. */
  lemma FinishedIsTheFile(content: Bytes, buffer: SB.Buffer, batches: seq<seq<SB.Arrival>>)
    requires buffer.Valid() && SB.FaithfulRun(content, buffer.View(), batches)
    requires Finished(Streaming(buffer), batches).Ok?
    ensures Finished(Streaming(buffer), batches) == Ok(content)
  {
    SB.CompletesToTheFile(content, buffer.View(), batches);
  }

  class OpenFileTable {
    var files: map<Fh, OpenFile>
    var nextHandle: Fh

    /** What reading the writeback entry of each inode gives: its buffer is set even if the disk then fails. */
    var saved: map<Ino, Bytes>

    ghost function Buffers(): set<SB.Buffer>
      reads this
    {
      set fh | fh in files && files[fh].content.Streaming? :: files[fh].content.buffer
    }

    ghost predicate Valid()
      reads this, Buffers()
    {
      && (forall fh :: fh in files ==> fh < nextHandle)
      && (forall fh :: fh in files && files[fh].content.Streaming? ==> files[fh].content.buffer.Valid())
    }

    constructor ()
      ensures Valid() && files == map[] && saved == map[]
    {
      files, nextHandle, saved := map[], 1, map[];
    }

    method Insert(ino: Ino, content: DownloadState) returns (fh: Fh)
      requires Valid() && (content.Streaming? ==> content.buffer.Valid())
      modifies this`files, this`nextHandle
      ensures Valid() && fh !in old(files)
      ensures files == old(files)[fh := OpenFile(ino, content, false, false, None)]
    {
      fh := nextHandle;
      nextHandle := nextHandle + 1;
      files := files[fh := OpenFile(ino, content, false, false, None)];
    }

    /** Any handle of the inode. */
    method FindByIno(ino: Ino) returns (fh: Option<Fh>)
      ensures fh.Some? ==> fh.value in files && files[fh.value].ino == ino
      ensures fh.None? ==> forall h :: h in files ==> files[h].ino != ino
    {
      var matching := set h | h in files && files[h].ino == ino;
      if matching == {} {
        assert forall h :: h in files && files[h].ino == ino ==> h in matching;
        return None;
      }
      var h :| h in matching;
      fh := Some(h);
    }

    method ContentSizeByIno(ino: Ino) returns (size: Option<nat>)
      ensures size.None? <==> forall h :: h in files ==> files[h].ino != ino
      ensures size.Some? ==> exists h :: h in files && files[h].ino == ino && size.value == ReportedSize(files[h])
    {
      var fh := FindByIno(ino);
      size := if fh.Some? then Some(ReportedSize(files[fh.value])) else None;
    }

    method MarkStaleByIno(ino: Ino)
      requires Valid()
      modifies this`files
      ensures Valid() && files.Keys == old(files).Keys
      ensures forall fh :: fh in files ==>
        files[fh] == (if old(files)[fh].ino == ino then old(files)[fh].(stale := true) else old(files)[fh])
    {
      files := map fh | fh in files :: if files[fh].ino == ino then files[fh].(stale := true) else files[fh];
    }

    /** Wait for the download of one handle and make its content complete. */
    method EnsureComplete(fh: Fh, batches: seq<seq<SB.Arrival>>) returns (r: Result<Bytes, VfsError>)
      requires Valid() && fh in files
      modifies this`files, if files[fh].content.Streaming? then {files[fh].content.buffer} else {}
      ensures Valid() && r == old(Finished(files[fh].content, batches))
      ensures files == if r.Ok? then old(files)[fh := old(files)[fh].(content := Complete(r.value))] else old(files)
    {
      match files[fh].content
      case Complete(data) =>
        r := Ok(data);
      case Streaming(buffer) =>
        var read := buffer.Complete(batches);
        r := Finish(read);
        if r.Ok? {
          files := files[fh := files[fh].(content := Complete(r.value))];
        }
    }

    /** Write into a complete buffer; returns the size to report for the inode. */
    method WriteComplete(fh: Fh, offset: nat, data: Bytes) returns (reported: nat)
      requires fh in files && files[fh].content.Complete?
      modifies this`files
      ensures files == old(files)[fh := OnWrite(old(files)[fh], offset, data)]
      ensures reported == ReportedSize(OnWrite(old(files)[fh], offset, data))
    {
      var entry, end := files[fh], offset + |data|;
      var buf := entry.content.data;
      if |buf| < end {
        buf := Resize(buf, end);
      }
      buf := Splice(buf, offset, data);
      reported := |buf|;
      var logical := entry.logicalSize;
      if logical.Some? {
        reported := Max(logical.value, end);
        logical := Some(reported);
      }
      files := files[fh := entry.(content := Complete(buf), dirty := true, logicalSize := logical)];
    }

    /** Returns the number of bytes written and the size to report for the inode. */
    method WriteHandle(fh: Fh, offset: nat, data: Bytes, batches: seq<seq<SB.Arrival>>)
      returns (r: Result<nat, VfsError>, reported: nat)
      requires Valid()
      modifies this`files, if fh in files && files[fh].content.Streaming? then {files[fh].content.buffer} else {}
      ensures Valid()
      ensures fh !in old(files) ==> r == Err(NotFound)
      ensures fh in old(files) ==>
        var done := old(Finished(files[fh].content, batches));
        if done.Ok? then
          var f := OnWrite(old(files)[fh].(content := Complete(done.value)), offset, data);
          r == Ok(|data|) && reported == ReportedSize(f) && files == old(files)[fh := f]
        else r == Err(done.error)
      ensures r.Err? ==> files == old(files)
    {
      reported := 0;
      if fh !in files {
        return Err(NotFound), 0;
      }
      var done := EnsureComplete(fh, batches);
      if done.Err? {
        return Err(done.error), 0;
      }
      ghost var completed := files;
      reported := WriteComplete(fh, offset, data);
      assert completed[fh] == old(files)[fh].(content := Complete(done.value));
      r := Ok(|data|);
    }

    method TruncateHandle(fh: Fh, newSize: nat, batches: seq<seq<SB.Arrival>>) returns (r: Result<(), VfsError>)
      requires Valid() && fh in files
      modifies this`files, if files[fh].content.Streaming? then {files[fh].content.buffer} else {}
      ensures Valid()
      ensures var done := old(Finished(files[fh].content, batches));
        if done.Ok? then
          r == Ok(())
          && files == old(files)[fh := OnTruncate(old(files)[fh].(content := Complete(done.value)), newSize)]
        else r == Err(done.error) && files == old(files)
    {
      var done := EnsureComplete(fh, batches);
      if done.Err? {
        return Err(done.error);
      }
      files := files[fh := files[fh].(content := Complete(Resize(done.value, newSize)), dirty := true,
                                      logicalSize := Some(newSize))];
      r := Ok(());
    }

    /** Truncate or extend a file without an open handle, through writeback. */
    method TruncateClosed(ino: Ino, newSize: nat, hasItem: bool, diskOk: bool, cached: Option<Bytes>)
      returns (r: Result<(), VfsError>)
      modifies this`saved
      ensures !hasItem ==> r == Err(NotFound) && saved == old(saved)
      ensures hasItem ==> r == if diskOk then Ok(()) else Err(IoError)
      ensures hasItem && ino in old(saved) ==> saved == old(saved)[ino := Resize(old(saved)[ino], newSize)]
      ensures hasItem && ino !in old(saved) && cached.Some? ==>
        saved == old(saved)[ino := Resize(cached.value, newSize)]
      ensures hasItem && ino !in old(saved) && cached.None? ==> saved == old(saved)[ino := Zeros(newSize)]
      ensures saved == if hasItem then old(saved)[ino := TruncatedClosed(InoSaved(old(saved), ino), cached, newSize)]
                       else old(saved)
    {
      ClosedTruncation(InoSaved(saved, ino), cached, newSize);
      if !hasItem {
        return Err(NotFound);
      }
      var content: Bytes := [];
      if newSize != 0 {
        if ino in saved {
          content := saved[ino];
        } else if cached.Some? {
          content := cached.value;
        }
      }
      saved := saved[ino := Resize(content, newSize)];
      r := if diskOk then Ok(()) else Err(IoError);
    }

    /** Truncate or extend through any open handle of the inode, or through writeback when there is none. */
    method Truncate(ino: Ino, newSize: nat, hasItem: bool, diskOk: bool, cached: Option<Bytes>,
        batches: seq<seq<SB.Arrival>>)
      returns (r: Result<(), VfsError>, fh: Option<Fh>)
      requires Valid()
      modifies this`files, this`saved, Buffers()
      ensures Valid()
      ensures fh.None? ==>
        && (forall h :: h in files ==> files[h].ino != ino)
        && files == old(files)
        && (if hasItem then
              && saved == old(saved)[ino := TruncatedClosed(InoSaved(old(saved), ino), cached, newSize)]
              && r == if diskOk then Ok(()) else Err(IoError)
            else r == Err(NotFound) && saved == old(saved))
      ensures fh.None? && hasItem && ino in old(saved) ==>
        saved == old(saved)[ino := Resize(old(saved)[ino], newSize)]
      ensures fh.None? && hasItem && ino !in old(saved) && cached.Some? ==>
        saved == old(saved)[ino := Resize(cached.value, newSize)]
      ensures fh.None? && hasItem && ino !in old(saved) && cached.None? ==>
        saved == old(saved)[ino := Zeros(newSize)]
      ensures fh.Some? ==> fh.value in old(files) && old(files)[fh.value].ino == ino && saved == old(saved)
      ensures fh.Some? ==>
        var done := old(Finished(files[fh.value].content, batches));
        if done.Ok? then
          var f := OnTruncate(old(files)[fh.value].(content := Complete(done.value)), newSize);
          r == Ok(()) && files == old(files)[fh.value := f]
        else r == Err(done.error) && files == old(files)
    {
      fh := FindByIno(ino);
      if fh.None? {
        r := TruncateClosed(ino, newSize, hasItem, diskOk, cached);
        return;
      }
      r := TruncateHandle(fh.value, newSize, batches);
    }

    method ReserveHandle(fh: Fh, capacity: nat, batches: seq<seq<SB.Arrival>>) returns (r: Result<(), VfsError>)
      requires Valid() && fh in files
      modifies this`files, if files[fh].content.Streaming? then {files[fh].content.buffer} else {}
      ensures Valid()
      ensures var done := old(Finished(files[fh].content, batches));
        if done.Ok? then
          r == Ok(())
          && files == old(files)[fh := OnReserve(old(files)[fh].(content := Complete(done.value)), capacity)]
        else r == Err(done.error) && files == old(files)
    {
      var done := EnsureComplete(fh, batches);
      if done.Err? {
        return Err(done.error);
      }
      if |done.value| < capacity {
        files := files[fh := files[fh].(content := Complete(Resize(done.value, capacity)))];
      }
      r := Ok(());
    }

    /** `ensure_buffer_capacity`; without an open handle there is nothing to do. */
    method EnsureBufferCapacity(ino: Ino, capacity: nat, batches: seq<seq<SB.Arrival>>)
      returns (r: Result<(), VfsError>, fh: Option<Fh>)
      requires Valid()
      modifies this`files, Buffers()
      ensures Valid()
      ensures fh.None? ==> r == Ok(()) && files == old(files) && forall h :: h in files ==> files[h].ino != ino
      ensures fh.Some? ==> fh.value in old(files) && old(files)[fh.value].ino == ino
      ensures fh.Some? ==>
        var done := old(Finished(files[fh.value].content, batches));
        if done.Ok? then
          var f := old(files)[fh.value].(content := Complete(done.value));
          r == Ok(()) && files == old(files)[fh.value := OnReserve(f, capacity)]
        else r == Err(done.error) && files == old(files)
    {
      fh := FindByIno(ino);
      if fh.None? {
        return Ok(()), None;
      }
      r := ReserveHandle(fh.value, capacity, batches);
    }

    /**
     A flush up to the point where the upload is requested. Writeback now holds the
     logical bytes, in memory at least. `Ok(false)` means there was nothing to flush.
     */
    method FlushBegin(fh: Fh, hasItem: bool, diskOk: bool, batches: seq<seq<SB.Arrival>>)
      returns (r: Result<bool, VfsError>, given: bool)
      requires Valid()
      modifies this`files, this`saved
      modifies if fh in files && files[fh].content.Streaming? then {files[fh].content.buffer} else {}
      ensures Valid()
      ensures r == Err(NotFound) <==>
        || fh !in old(files)
        || (old(files)[fh].dirty && old(Finished(files[fh].content, batches)).Ok? && !hasItem)
      ensures r == Ok(false) <==> fh in old(files) && !old(files)[fh].dirty
      ensures given <==>
        fh in old(files) && old(files)[fh].dirty && old(Finished(files[fh].content, batches)).Ok? && hasItem
      ensures given ==>
        && fh in files && files[fh].content.Complete?
        && old(Finished(files[fh].content, batches)) == Ok(files[fh].content.data)
        && files == old(files)[fh := old(files)[fh].(content := files[fh].content)]
        && saved == old(saved)[files[fh].ino := Logical(files[fh])]
        && r == if diskOk then Ok(true) else Err(IoError)
      ensures !given ==> saved == old(saved)
    {
      given := false;
      if fh !in files {
        return Err(NotFound), false;
      }
      if !files[fh].dirty {
        return Ok(false), false;
      }
      var done := EnsureComplete(fh, batches);
      if done.Err? {
        return Err(done.error), false;
      }
      if !hasItem {
        return Err(NotFound), false;
      }
      saved := saved[files[fh].ino := Truncated(done.value, files[fh].logicalSize)];
      return if diskOk then Ok(true) else Err(IoError), true;
    }

    /** The upload succeeded: the handle, if it is still open, is clean. */
    method FlushEnd(fh: Fh)
      requires Valid()
      modifies this`files
      ensures Valid()
      ensures files == if fh in old(files) then old(files)[fh := old(files)[fh].(dirty := false)] else old(files)
    {
      if fh in files {
        files := files[fh := files[fh].(dirty := false)];
      }
    }

    method ReleaseFile(fh: Fh, hasItem: bool, diskOk: bool) returns (r: Result<(), VfsError>)
      requires Valid()
      modifies this`files, this`saved
      ensures Valid() && files == old(files) - {fh}
      ensures var given := fh in old(files) && old(files)[fh].dirty && hasItem && old(files)[fh].content.Complete?;
        saved == if given then old(saved)[old(files)[fh].ino := Logical(old(files)[fh])] else old(saved)
      ensures r.Ok? <==>
        || fh !in old(files)
        || !old(files)[fh].dirty
        || (hasItem && diskOk && old(files)[fh].content.Complete?)
      ensures fh in old(files) && Tidy(old(files)[fh]) && hasItem && diskOk ==> r.Ok?
    {
      if fh !in files {
        files := files - {fh};
        return Ok(());
      }
      var file := files[fh];
      files := files - {fh};
      if file.dirty {
        if !hasItem {
          return Err(NotFound);
        }
        if file.content.Streaming? {
          return Err(IoError);
        }
        saved := saved[file.ino := Truncated(file.content.data, file.logicalSize)];
        if !diskOk {
          return Err(IoError);
        }
      }
      r := Ok(());
    }

    /**
     A read of an open handle. `remote` is what re-reading a stale file would give and
     `answer` what a range request would.
     */
    method ReadHandle(fh: Fh, offset: nat, size: nat, remote: Result<Bytes, VfsError>, batches: seq<seq<SB.Arrival>>,
        answer: Option<Bytes>)
      returns (r: Result<Bytes, VfsError>)
      requires Valid()
      modifies this`files, if fh in files && files[fh].content.Streaming? then {files[fh].content.buffer} else {}
      ensures Valid()
      ensures fh !in old(files) ==> r == Err(NotFound) && files == old(files)
      ensures fh in old(files) ==>
        var f := old(files)[fh];
        if f.stale && !f.dirty then
          if remote.Ok? then
            r == Ok(Slice(remote.value, offset, size)) && files == old(files)[fh := OnRefresh(f, remote.value)]
          else r == Err(remote.error) && files == old(files)
        else
          && files == old(files)
          && match f.content
             case Complete(data) => r == Ok(Slice(data, offset, size))
             case Streaming(buffer) => r == old(Finish(SB.Reading(buffer.View(), offset, size, batches, answer)))
    {
      if fh !in files {
        return Err(NotFound);
      }
      if files[fh].stale && !files[fh].dirty {
        if remote.Err? {
          return Err(remote.error);
        }
        files := files[fh := OnRefresh(files[fh], remote.value)];
        return Ok(Slice(remote.value, offset, size));
      }
      match files[fh].content
      case Complete(data) =>
        r := Ok(Slice(data, offset, size));
      case Streaming(buffer) =>
        var read := buffer.Read(offset, size, batches, answer);
        r := Finish(read);
    }
  }
}
