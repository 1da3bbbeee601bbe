/**
 The in-memory buffer of a file that is still being downloaded.

 Chunks of 256 KiB hold what has arrived. The ghost field `received` is the flat
 byte string they stand for. Other tasks append while a reader waits: what they do
 arrives in batches, and a waiting reader looks at the buffer only between batches,
 because a watch channel keeps the latest value only.
 */
module StreamingBuffer {
  import opened Wrappers
  import opened ByteSeqs

  const CHUNK: nat := 256 * 1024

  const MAX_STREAMING_BUFFER_SIZE: nat := 256 * 1024 * 1024

  const RANDOM_ACCESS_THRESHOLD: nat := 2 * 1024 * 1024

  datatype Progress = InProgress(n: nat) | Done | Failed

  /** What the download task does to the buffer. */
  datatype Arrival = Chunk(data: Bytes) | EndOfStream | Broken

  datatype Stream = Stream(total: nat, received: Bytes, progress: Progress)

  // ----------------------------------------------------- the flat meaning

  function Deliver(s: Stream, a: Arrival): Stream {
    match a
    case Chunk(data) =>
      if s.progress.InProgress? then
        var received := s.received + data[..Max(0, Min(|data|, s.total - |s.received|))];
        s.(received := received, progress := InProgress(|received|))
      else s
    case EndOfStream => s.(progress := Done)
    case Broken => s.(progress := Failed)
  }

  function DeliverAll(s: Stream, arrivals: seq<Arrival>): Stream
    decreases |arrivals|
  {
    if arrivals == [] then s else DeliverAll(Deliver(s, arrivals[0]), arrivals[1..])
  }

  /** What a reader may see: what has arrived, filled up with zeros once the download is over. */
  function Visible(s: Stream): Bytes {
    if s.progress.InProgress? then s.received else Resize(s.received, s.total)
  }

  function Concat(parts: seq<Bytes>): Bytes {
    if parts == [] then [] else parts[0] + Concat(parts[1..])
  }

  function ChunksOf(parts: seq<Bytes>): (arrivals: seq<Arrival>)
    ensures |arrivals| == |parts| && forall i :: 0 <= i < |parts| ==> arrivals[i] == Chunk(parts[i])
  {
    seq(|parts|, i requires 0 <= i < |parts| => Chunk(parts[i]))
  }

  predicate WellFormed(s: Stream) {
    |s.received| <= s.total && (s.progress.InProgress? ==> s.progress.n == |s.received|)
  }

  /** However the download is cut into pieces, the buffer holds their concatenation, clipped to the file size. */
  lemma {:induction false} ReceivedIsTheConcatenation(s: Stream, parts: seq<Bytes>)
    requires WellFormed(s) && s.progress.InProgress?
    ensures var all, t := s.received + Concat(parts), DeliverAll(s, ChunksOf(parts));
      && WellFormed(t) && t.total == s.total && t.progress == InProgress(|t.received|)
      && t.received == all[..Min(|all|, s.total)]
    decreases |parts|
  {
    if parts != [] {
      assert ChunksOf(parts)[1..] == ChunksOf(parts[1..]);
      var u := Deliver(s, Chunk(parts[0]));
      ReceivedIsTheConcatenation(u, parts[1..]);
      assert s.received + Concat(parts) == (s.received + parts[0]) + Concat(parts[1..]);
    }
  }

  lemma {:induction false} DeliverAllKeepsWellFormed(s: Stream, arrivals: seq<Arrival>)
    requires WellFormed(s)
    ensures var t := DeliverAll(s, arrivals); WellFormed(t) && t.total == s.total && s.received <= t.received
    decreases |arrivals|
  {
    if arrivals != [] {
      DeliverAllKeepsWellFormed(Deliver(s, arrivals[0]), arrivals[1..]);
    }
  }

  /** The stream after the first `n` batches. */
  function After(s: Stream, batches: seq<seq<Arrival>>, n: nat): Stream
    requires n <= |batches|
  {
    if n == 0 then s else DeliverAll(After(s, batches, n - 1), batches[n - 1])
  }

  datatype Judgement = Ready | Error | Blocked

  /** What a reader that needs the first `needed` bytes makes of the stream. */
  function Judge(s: Stream, needed: nat): Judgement {
    match s.progress
    case InProgress(n) => if n >= needed then Ready else Blocked
    case Done => Ready
    case Failed => Error
  }

  /** The first look, from `n` on, that settles the matter, or the last one. */
  function WaitEnd(s: Stream, needed: nat, batches: seq<seq<Arrival>>, n: nat): (w: nat)
    requires n <= |batches|
    ensures n <= w <= |batches|
    ensures forall j :: n <= j < w ==> Judge(After(s, batches, j), needed).Blocked?
    ensures Judge(After(s, batches, w), needed).Blocked? ==> w == |batches|
    decreases |batches| - n
  {
    if n < |batches| && Judge(After(s, batches, n), needed).Blocked? then WaitEnd(s, needed, batches, n + 1) else n
  }

  datatype ReadResult = Data(bytes: Bytes) | IoError | Waiting

  /** What is read from the buffer one batch after the look at time `n`. */
  function ReadAfter(s: Stream, batches: seq<seq<Arrival>>, n: nat, offset: nat, size: nat): Bytes
    requires n <= |batches|
  {
    Slice(Visible(After(s, batches, Min(n + 1, |batches|))), offset, size)
  }

  /** Wait for the end of the range and, after one more batch, read it. */
  function WaitAndRead(s: Stream, offset: nat, size: nat, batches: seq<seq<Arrival>>): ReadResult {
    var w := WaitEnd(s, offset + size, batches, 0);
    match Judge(After(s, batches, w), offset + size)
    case Ready => Data(ReadAfter(s, batches, w, offset, size))
    case Error => IoError
    case Blocked => Waiting
  }

  function Downloaded(s: Stream): nat {
    match s.progress
    case InProgress(n) => n
    case Done => s.total
    case Failed => 0
  }

  /** A read of a streaming handle; `answer` is what a range request would return. */
  function Reading(s: Stream, offset: nat, size: nat, batches: seq<seq<Arrival>>, answer: Option<Bytes>): ReadResult {
    if Downloaded(s) >= offset + size then Data(ReadAfter(s, batches, 0, offset, size))
    else if offset <= Downloaded(s) + RANDOM_ACCESS_THRESHOLD then WaitAndRead(s, offset, size, batches)
    else if answer.Some? then Data(answer.value)
    else IoError
  }

  // ------------------------------------------------------- faithful streams

  /** The stream carries `content`: nothing else has arrived, and it is over only when all of it has. */
  predicate Faithful(content: Bytes, s: Stream) {
    && |content| == s.total
    && s.received <= content
    && (s.progress.Done? ==> s.received == content)
  }

  predicate FaithfulBatch(content: Bytes, s: Stream, arrivals: seq<Arrival>)
    decreases |arrivals|
  {
    Faithful(content, s) && (arrivals != [] ==> FaithfulBatch(content, Deliver(s, arrivals[0]), arrivals[1..]))
  }

  ghost predicate FaithfulRun(content: Bytes, s: Stream, batches: seq<seq<Arrival>>) {
    && Faithful(content, s)
    && forall n: nat :: n < |batches| ==> FaithfulBatch(content, After(s, batches, n), batches[n])
  }

  /** The range up to `needed` is settled: it has arrived, or everything has. */
  predicate Enough(content: Bytes, s: Stream, needed: nat) {
    |s.received| >= needed || s.received == content
  }

  lemma {:induction false} FaithfulEnd(content: Bytes, s: Stream, arrivals: seq<Arrival>, needed: nat)
    requires FaithfulBatch(content, s, arrivals)
    ensures Faithful(content, DeliverAll(s, arrivals))
    ensures Enough(content, s, needed) ==> Enough(content, DeliverAll(s, arrivals), needed)
    decreases |arrivals|
  {
    if arrivals != [] {
      FaithfulEnd(content, Deliver(s, arrivals[0]), arrivals[1..], needed);
    }
  }

  lemma {:induction false} FaithfulAfter(content: Bytes, s: Stream, batches: seq<seq<Arrival>>, n: nat)
    requires WellFormed(s) && FaithfulRun(content, s, batches) && n <= |batches|
    ensures Faithful(content, After(s, batches, n)) && WellFormed(After(s, batches, n))
    decreases n
  {
    if n > 0 {
      FaithfulAfter(content, s, batches, n - 1);
      FaithfulEnd(content, After(s, batches, n - 1), batches[n - 1], 0);
      DeliverAllKeepsWellFormed(After(s, batches, n - 1), batches[n - 1]);
    }
  }

  /** Once enough has arrived, whatever arrives next, the range reads as the file. */
  lemma ReadsTheRange(content: Bytes, s: Stream, batches: seq<seq<Arrival>>, n: nat, offset: nat, size: nat)
    requires WellFormed(s) && FaithfulRun(content, s, batches) && n <= |batches|
    requires Enough(content, After(s, batches, n), offset + size)
    ensures ReadAfter(s, batches, n, offset, size) == Slice(content, offset, size)
  {
    var m := Min(n + 1, |batches|);
    StaysEnough(content, s, batches, n, m, offset + size);
    SettledRange(content, After(s, batches, m), offset, size);
  }

  lemma StaysEnough(content: Bytes, s: Stream, batches: seq<seq<Arrival>>, n: nat, m: nat, needed: nat)
    requires WellFormed(s) && FaithfulRun(content, s, batches) && n <= m <= |batches| && m <= n + 1
    requires Enough(content, After(s, batches, n), needed)
    ensures WellFormed(After(s, batches, m)) && Faithful(content, After(s, batches, m))
    ensures Enough(content, After(s, batches, m), needed)
  {
    FaithfulAfter(content, s, batches, m);
    if m == n + 1 {
      FaithfulEnd(content, After(s, batches, n), batches[n], needed);
    }
  }

  lemma SettledRange(content: Bytes, s: Stream, offset: nat, size: nat)
    requires WellFormed(s) && Faithful(content, s) && Enough(content, s, offset + size)
    ensures Slice(Visible(s), offset, size) == Slice(content, offset, size)
  {
    var seen := Visible(s);
    assert forall i :: 0 <= i < |s.received| ==> seen[i] == s.received[i] == content[i];
    assert offset + size <= |s.received| || s.received == content;
    assert |Slice(seen, offset, size)| == |Slice(content, offset, size)|;
  }

  lemma JudgedReadyIsEnough(content: Bytes, s: Stream, needed: nat)
    requires WellFormed(s) && Faithful(content, s) && Judge(s, needed).Ready?
    ensures Enough(content, s, needed)
  {
  }

  lemma WaitAndReadReadsTheFile(content: Bytes, s: Stream, offset: nat, size: nat, batches: seq<seq<Arrival>>)
    requires WellFormed(s) && FaithfulRun(content, s, batches)
    ensures var r := WaitAndRead(s, offset, size, batches); r.Data? ==> r.bytes == Slice(content, offset, size)
  {
    var w := WaitEnd(s, offset + size, batches, 0);
    FaithfulAfter(content, s, batches, w);
    if Judge(After(s, batches, w), offset + size).Ready? {
      JudgedReadyIsEnough(content, After(s, batches, w), offset + size);
      ReadsTheRange(content, s, batches, w, offset, size);
    }
  }

  /**
   At every offset and size, and whatever arrives while it runs, a read of a streaming
   handle that succeeds returns the bytes a fully downloaded handle would return.
   */
  lemma ReadsTheFile(content: Bytes, s: Stream, offset: nat, size: nat, batches: seq<seq<Arrival>>,
                     answer: Option<Bytes>)
    requires WellFormed(s) && FaithfulRun(content, s, batches)
    requires answer.Some? ==> answer.value == Slice(content, offset, size)
    ensures var r := Reading(s, offset, size, batches, answer); r.Data? ==> r.bytes == Slice(content, offset, size)
  {
    if Downloaded(s) >= offset + size {
      DownloadedIsEnough(content, s, offset + size);
      ReadsTheRange(content, s, batches, 0, offset, size);
    } else if offset <= Downloaded(s) + RANDOM_ACCESS_THRESHOLD {
      WaitAndReadReadsTheFile(content, s, offset, size, batches);
    }
  }

  lemma DownloadedIsEnough(content: Bytes, s: Stream, needed: nat)
    requires WellFormed(s) && Faithful(content, s) && Downloaded(s) >= needed
    ensures Enough(content, s, needed)
  {
  }

  /** Completing the download yields the whole file. */
  lemma CompletesToTheFile(content: Bytes, s: Stream, batches: seq<seq<Arrival>>)
    requires WellFormed(s) && FaithfulRun(content, s, batches)
    ensures var r := WaitAndRead(s, 0, s.total, batches); r.Data? ==> r.bytes == content
  {
    WaitAndReadReadsTheFile(content, s, 0, s.total, batches);
    assert Slice(content, 0, s.total) == content;
  }

  /** A read fails only when the download or the range request did, and blocks only while bytes are missing. */
  lemma ReadsFailOnlyWithTheDownload(s: Stream, offset: nat, size: nat, batches: seq<seq<Arrival>>,
                                     answer: Option<Bytes>)
    ensures Reading(s, offset, size, batches, answer).IoError? && answer.Some? ==>
      exists n :: 0 <= n <= |batches| && After(s, batches, n).progress.Failed?
    ensures Reading(s, offset, size, batches, answer).Waiting? ==>
      var p := After(s, batches, |batches|).progress; p.InProgress? && p.n < offset + size
  {
    var w := WaitEnd(s, offset + size, batches, 0);
    assert Judge(After(s, batches, w), offset + size).Error? ==> After(s, batches, w).progress.Failed?;
  }

  /** How far the download is; a failed one is nowhere. */
  predicate IsFrontier(s: Stream, f: nat) {
    || s.progress == InProgress(f)
    || (s.progress == Done && f == s.total)
    || (s.progress == Failed && f == 0)
  }

  /** Nothing settles the read before look `n`. */
  ghost predicate Undecided(s: Stream, batches: seq<seq<Arrival>>, n: nat, needed: nat)
    requires n <= |batches|
  {
    forall j: nat :: j < n ==>
      var p := After(s, batches, j).progress; p.InProgress? && p.n < needed
  }

  ghost predicate FailsFirst(s: Stream, batches: seq<seq<Arrival>>, n: nat, needed: nat) {
    n <= |batches| && Undecided(s, batches, n, needed) && After(s, batches, n).progress.Failed?
  }

  lemma WaitEndDecides(s: Stream, batches: seq<seq<Arrival>>, needed: nat)
    ensures var w := WaitEnd(s, needed, batches, 0);
      && Undecided(s, batches, w, needed)
      && ((exists n :: FailsFirst(s, batches, n, needed)) <==> After(s, batches, w).progress.Failed?)
  {
    var w := WaitEnd(s, needed, batches, 0);
    assert Undecided(s, batches, w, needed);
    if After(s, batches, w).progress.Failed? {
      assert FailsFirst(s, batches, w, needed);
    } else {
      forall n: nat ensures !FailsFirst(s, batches, n, needed) {
        assert n < w ==> Judge(After(s, batches, n), needed).Blocked?;
        assert w < n <= |batches| ==> !Judge(After(s, batches, w), needed).Blocked?;
      }
    }
  }

  /** A range that has arrived, and an empty one at the start of any file, is read at once. */
  lemma ArrivedReadsReturnAtOnce(s: Stream, f: nat, offset: nat, size: nat, batches: seq<seq<Arrival>>,
                                 answer: Option<Bytes>)
    requires IsFrontier(s, f) && offset + size <= f
    ensures Reading(s, offset, size, batches, answer) == Data(ReadAfter(s, batches, 0, offset, size))
  {
  }

  /**
   A read that starts at most 2 MiB past the frontier uses the download and nothing else: it
   fails exactly when the download fails before the range has arrived, and waits exactly
   while it does neither.
   */
  lemma NearReadsUseTheDownload(s: Stream, f: nat, offset: nat, size: nat, batches: seq<seq<Arrival>>,
                                answer: Option<Bytes>)
    requires IsFrontier(s, f) && offset <= f + 2_097_152 && offset + size > 0
    ensures var r, needed := Reading(s, offset, size, batches, answer), offset + size;
      && r == Reading(s, offset, size, batches, None)
      && (r.IoError? <==> exists n :: FailsFirst(s, batches, n, needed))
      && (r.Waiting? <==>
            Undecided(s, batches, |batches|, needed)
            && (var p := After(s, batches, |batches|).progress; p.InProgress? && p.n < needed))
  {
    var needed := offset + size;
    WaitEndDecides(s, batches, needed);
    if Downloaded(s) >= needed {
      assert After(s, batches, 0) == s && !s.progress.Failed?;
      assert WaitEnd(s, needed, batches, 0) == 0;
    }
  }

  /**
   The end of the download settles a waiting read, and nothing arrives after it: a broken one
   fails the read, and a complete one fills it up with zeros.
   */
  lemma TheEndSettlesReads(s: Stream, f: nat, offset: nat, size: nat, data: Bytes, answer: Option<Bytes>)
    requires s.progress == InProgress(f) && offset <= f + 2_097_152 && f < offset + size
    ensures Reading(s, offset, size, [[Broken, Chunk(data)]], answer) == IoError
    ensures Reading(s, offset, size, [[EndOfStream, Chunk(data)]], answer)
         == Data(Slice(Resize(s.received, s.total), offset, size))
  {
    SettledByTheEnd(s, Broken, data);
    SettledByTheEnd(s, EndOfStream, data);
    assert After(s, [[Broken, Chunk(data)]], 0) == s == After(s, [[EndOfStream, Chunk(data)]], 0);
    WaitsOnce(s, offset + size, [[Broken, Chunk(data)]]);
    WaitsOnce(s, offset + size, [[EndOfStream, Chunk(data)]]);
  }

  lemma SettledByTheEnd(s: Stream, end: Arrival, data: Bytes)
    requires end.EndOfStream? || end.Broken?
    ensures DeliverAll(s, [end, Chunk(data)]) == s.(progress := if end.Broken? then Failed else Done)
    ensures After(s, [[end, Chunk(data)]], 1) == s.(progress := if end.Broken? then Failed else Done)
  {
    var t := Deliver(s, end);
    assert [end, Chunk(data)][1..] == [Chunk(data)] && [Chunk(data)][1..] == [];
    assert DeliverAll(t, [Chunk(data)]) == t;
    assert After(s, [[end, Chunk(data)]], 0) == s;
  }

  lemma WaitsOnce(s: Stream, needed: nat, batches: seq<seq<Arrival>>)
    requires |batches| == 1 && Judge(After(s, batches, 0), needed).Blocked?
    ensures WaitEnd(s, needed, batches, 0) == 1
  {
  }

  /** A read that starts farther out never waits: it returns what the range request does, and fails where that fails. */
  lemma FarReadsAskForTheRange(s: Stream, f: nat, offset: nat, size: nat, batches: seq<seq<Arrival>>,
                               answer: Option<Bytes>)
    requires IsFrontier(s, f) && offset > f + 2_097_152
    ensures Reading(s, offset, size, batches, answer) == if answer.Some? then Data(answer.value) else IoError
  {
  }

  /**
   A download that ends cleanly but early is served as if it were complete: readers get
   the right file exactly when all the bytes that never arrived are zero.
   */
  lemma ShortDownloadReadsAsZeros(content: Bytes, s: Stream)
    requires WellFormed(s) && s.progress.Done? && |content| == s.total && s.received <= content
    ensures Visible(s) == content <==> forall i :: |s.received| <= i < s.total ==> content[i] == 0
  {
    assert forall i :: 0 <= i < |s.received| ==> Visible(s)[i] == content[i];
    if Visible(s) == content {
      assert forall i :: |s.received| <= i < s.total ==> Visible(s)[i] == 0;
    }
  }

  // ------------------------------------------------------------ the chunks

  /** The piece of `flat` that chunk `k` holds: 256 KiB, or what is left of it. */
  function Piece(flat: Bytes, k: nat): (p: Bytes)
    requires k * CHUNK < |flat|
    ensures |p| == Min(CHUNK, |flat| - k * CHUNK)
  {
    flat[k * CHUNK..Min((k + 1) * CHUNK, |flat|)]
  }

  /** The chunk map stands for `flat`: no chunk is missing, none is superfluous. */
  ghost predicate Holds(chunks: map<nat, Bytes>, flat: Bytes) {
    && (forall k: nat :: k in chunks <==> k * CHUNK < |flat|)
    && (forall k: nat :: k in chunks ==> chunks[k] == Piece(flat, k))
  }

  /** `entry.resize` and `copy_from_slice` on one chunk. */
  function Patch(entry: Bytes, at: nat, piece: Bytes): Bytes {
    Splice(if |entry| < at + |piece| then Resize(entry, at + |piece|) else entry, at, piece)
  }

  /** One turn of the append loop, on the chunk `key` from position `at`. */
  function Put(chunks: map<nat, Bytes>, key: nat, at: nat, piece: Bytes): map<nat, Bytes> {
    chunks[key := Patch(if key in chunks then chunks[key] else [], at, piece)]
  }

  lemma PatchAppends(entry: Bytes, piece: Bytes)
    requires piece != []
    ensures Patch(entry, |entry|, piece) == entry + piece
  {
  }

  lemma PieceGrows(flat: Bytes, piece: Bytes, k: nat)
    requires k * CHUNK <= |flat| && 0 < |piece|
    ensures (k + 1) * CHUNK <= |flat| ==> Piece(flat + piece, k) == Piece(flat, k)
    ensures |flat| + |piece| <= (k + 1) * CHUNK ==> Piece(flat + piece, k) == flat[k * CHUNK..] + piece
  {
  }

  lemma EntryAt(chunks: map<nat, Bytes>, flat: Bytes, key: nat, at: nat)
    requires Holds(chunks, flat) && |flat| == key * CHUNK + at && at < CHUNK
    ensures (if key in chunks then chunks[key] else []) == flat[key * CHUNK..]
  {
    if key in chunks {
      assert chunks[key] == Piece(flat, key);
    }
  }

  lemma PutExtends(chunks: map<nat, Bytes>, flat: Bytes, key: nat, at: nat, piece: Bytes)
    requires Holds(chunks, flat) && |flat| == key * CHUNK + at && 0 < |piece| <= CHUNK - at
    ensures Holds(Put(chunks, key, at, piece), flat + piece)
  {
    EntryAt(chunks, flat, key, at);
    PatchAppends(flat[key * CHUNK..], piece);
    PieceGrows(flat, piece, key);
    var after, longer := Put(chunks, key, at, piece), flat + piece;
    assert after[key] == Piece(longer, key);
    forall k: nat | k != key
      ensures k in after <==> k * CHUNK < |longer|
      ensures k in after ==> after[k] == Piece(longer, k)
    {
      OtherPieces(chunks, flat, piece, key, at, k);
    }
  }

  lemma OtherPieces(chunks: map<nat, Bytes>, flat: Bytes, piece: Bytes, key: nat, at: nat, k: nat)
    requires Holds(chunks, flat) && |flat| == key * CHUNK + at && 0 < |piece| <= CHUNK - at && k != key
    ensures k in chunks <==> k * CHUNK < |flat + piece|
    ensures k in chunks ==> chunks[k] == Piece(flat + piece, k)
  {
    if k in chunks {
      PieceGrows(flat, piece, k);
    }
  }

  /** What `read_range` copies out of chunk `key`, if anything. */
  function Source(chunks: map<nat, Bytes>, key: nat, at: nat, copyLen: nat): Bytes {
    var chunk := if key in chunks then chunks[key] else [];
    var srcEnd := Min(at + copyLen, |chunk|);
    if at < srcEnd then chunk[at..srcEnd] else []
  }

  lemma SourceIsTheSlice(chunks: map<nat, Bytes>, flat: Bytes, key: nat, at: nat, copyLen: nat)
    requires Holds(chunks, flat) && copyLen <= CHUNK - at
    ensures Source(chunks, key, at, copyLen) == Slice(flat, key * CHUNK + at, copyLen)
  {
    if key in chunks {
      assert chunks[key] == Piece(flat, key);
    }
  }

  lemma SliceOfResized(flat: Bytes, total: nat, pos: nat, n: nat)
    requires |flat| <= total && pos + n <= total
    ensures var src := Slice(flat, pos, n); |src| <= n && src + Zeros(n - |src|) == Resize(flat, total)[pos..pos + n]
  {
  }

  lemma CopyStep(all: Bytes, offset: nat, pos: nat, end: nat, src: Bytes, copyLen: nat)
    requires offset <= pos && pos + copyLen <= end <= |all| && |src| <= copyLen
    requires src + Zeros(copyLen - |src|) == all[pos..pos + copyLen]
    ensures Splice(all[offset..pos] + Zeros(end - pos), pos - offset, src)
         == all[offset..pos + copyLen] + Zeros(end - pos - copyLen)
  {
    assert all[offset..pos] + all[pos..pos + copyLen] == all[offset..pos + copyLen];
    SpliceZeros(all[offset..pos], src, copyLen, end - pos);
  }

  lemma SpliceZeros(front: Bytes, src: Bytes, copyLen: nat, room: nat)
    requires |src| <= copyLen <= room
    ensures Splice(front + Zeros(room), |front|, src)
         == (front + (src + Zeros(copyLen - |src|))) + Zeros(room - copyLen)
  {
  }

  /** The chunk that byte `offset` falls into, and its position there. */
  method Locate(offset: nat) returns (key: nat, at: nat)
    ensures key * CHUNK + at == offset && at < CHUNK
  {
    key, at := offset / CHUNK, offset % CHUNK;
  }

  class Buffer {
    const totalSize: nat
    var chunks: map<nat, Bytes>
    var progress: Progress
    ghost var received: Bytes

    ghost function View(): Stream
      reads this
    {
      Stream(totalSize, received, progress)
    }

    ghost predicate Valid()
      reads this
    {
      WellFormed(View()) && Holds(chunks, received) && 0 < totalSize <= MAX_STREAMING_BUFFER_SIZE
    }

    constructor (totalSize: nat)
      requires 0 < totalSize <= MAX_STREAMING_BUFFER_SIZE
      ensures Valid() && View() == Stream(totalSize, [], InProgress(0))
    {
      this.totalSize := totalSize;
      chunks := map[];
      progress := InProgress(0);
      received := [];
    }

    method AppendChunk(data: Bytes)
      requires Valid()
      modifies this
      ensures Valid() && View() == Deliver(old(View()), Chunk(data))
      ensures var all := old(received) + data;
        received == if old(progress).InProgress? then all[..Min(|all|, totalSize)] else old(received)
      ensures progress == if old(progress).InProgress? then InProgress(|received|) else old(progress)
    {
      if !progress.InProgress? {
        return;
      }
      var current := progress.n;
      var maxEnd := Min(current + |data|, totalSize);
      var usable := data[..maxEnd - current];
      var offset, remaining := current, usable;
      while |remaining| > 0
        invariant progress == old(progress)
        invariant offset + |remaining| == maxEnd && offset == |received|
        invariant received + remaining == old(received) + usable
        invariant Holds(chunks, received)
        decreases |remaining|
      {
        var key, at := Locate(offset);
        var copyLen := Min(CHUNK - at, |remaining|);
        AppendPiece(key, at, remaining[..copyLen]);
        remaining := remaining[copyLen..];
        offset := offset + copyLen;
      }
      progress := InProgress(offset);
    }

    method AppendPiece(key: nat, at: nat, piece: Bytes)
      requires Holds(chunks, received) && |received| == key * CHUNK + at && 0 < |piece| <= CHUNK - at
      modifies this`chunks, this`received
      ensures received == old(received) + piece && Holds(chunks, received)
    {
      PutExtends(chunks, received, key, at, piece);
      chunks := Put(chunks, key, at, piece);
      received := received + piece;
    }

    method MarkDone()
      requires Valid()
      modifies this`progress
      ensures Valid() && View() == Deliver(old(View()), EndOfStream)
      ensures progress == Done
    {
      progress := Done;
    }

    method MarkFailed()
      requires Valid()
      modifies this`progress
      ensures Valid() && View() == Deliver(old(View()), Broken)
      ensures progress == Failed
    {
      progress := Failed;
    }

    /** What other tasks do to the buffer between two looks at it. */
    method Arrive(arrivals: seq<Arrival>)
      requires Valid()
      modifies this
      ensures Valid() && View() == DeliverAll(old(View()), arrivals)
    {
      for i := 0 to |arrivals|
        invariant Valid() && DeliverAll(View(), arrivals[i..]) == DeliverAll(old(View()), arrivals)
      {
        assert arrivals[i..][1..] == arrivals[i + 1..];
        match arrivals[i]
        case Chunk(data) => AppendChunk(data);
        case EndOfStream => MarkDone();
        case Broken => MarkFailed();
      }
    }

    method DownloadedBytes() returns (n: nat)
      requires Valid()
      ensures n == Downloaded(View()) && IsFrontier(View(), n)
    {
      match progress
      case InProgress(k) => n := k;
      case Done => n := totalSize;
      case Failed => n := 0;
    }

    /** Any offset and size are in range, and missing chunks read as zeros. */
    method ReadRange(offset: nat, size: nat) returns (result: Bytes)
      requires Valid()
      ensures result == Slice(Visible(View()), offset, size)
    {
      var downloaded := if progress.InProgress? then progress.n else totalSize;
      var end := Min(offset + size, downloaded);
      if offset >= end {
        return [];
      }
      ghost var all := Visible(View());
      assert all == Resize(received, downloaded);
      result := Zeros(end - offset);
      var pos, outPos := offset, 0;
      while pos < end
        invariant outPos == pos - offset && offset <= pos <= end
        invariant result == all[offset..pos] + Zeros(end - pos)
      {
        var src, copyLen := CopyFrom(pos, end, downloaded);
        CopyStep(all, offset, pos, end, src, copyLen);
        result := Splice(result, outPos, src);
        pos := pos + copyLen;
        outPos := outPos + copyLen;
      }
      assert result == all[offset..end];
    }

    /** One chunk's share of a read from `pos` to `end`, without the zeros it leaves as they are. */
    method CopyFrom(pos: nat, end: nat, downloaded: nat) returns (src: Bytes, copyLen: nat)
      requires Holds(chunks, received) && |received| <= downloaded && pos < end <= downloaded
      ensures 0 < copyLen <= end - pos && |src| <= copyLen
      ensures src + Zeros(copyLen - |src|) == Resize(received, downloaded)[pos..pos + copyLen]
    {
      var key, at := Locate(pos);
      copyLen := Min(CHUNK - at, end - pos);
      src := Source(chunks, key, at, copyLen);
      SourceIsTheSlice(chunks, received, key, at, copyLen);
      SliceOfResized(received, downloaded, pos, copyLen);
    }

    /** Wait until `needed` bytes have arrived or the download is over; `taken` batches arrive meanwhile. */
    method WaitForRange(needed: nat, batches: seq<seq<Arrival>>) returns (outcome: Judgement, taken: nat)
      requires Valid()
      modifies this
      ensures Valid() && taken == WaitEnd(old(View()), needed, batches, 0)
      ensures View() == After(old(View()), batches, taken)
      ensures outcome == Judge(View(), needed)
    {
      taken := 0;
      while true
        invariant Valid() && taken <= |batches|
        invariant View() == After(old(View()), batches, taken)
        invariant WaitEnd(old(View()), needed, batches, 0) == WaitEnd(old(View()), needed, batches, taken)
        decreases |batches| - taken
      {
        if progress.InProgress? && progress.n >= needed {
          return Ready, taken;
        }
        if progress.Done? {
          return Ready, taken;
        }
        if progress.Failed? {
          return Error, taken;
        }
        if taken == |batches| {
          return Blocked, taken;
        }
        Arrive(batches[taken]);
        taken := taken + 1;
      }
    }

    /** Let the next batch arrive, if there is one. */
    method ArriveNext(batches: seq<seq<Arrival>>, taken: nat, ghost s: Stream)
      requires Valid() && taken <= |batches| && View() == After(s, batches, taken)
      modifies this
      ensures Valid() && View() == After(s, batches, Min(taken + 1, |batches|))
    {
      if taken < |batches| {
        Arrive(batches[taken]);
      }
    }

    method ReadNext(offset: nat, size: nat, batches: seq<seq<Arrival>>, taken: nat, ghost s: Stream)
      returns (r: ReadResult)
      requires Valid() && taken <= |batches| && View() == After(s, batches, taken)
      modifies this
      ensures Valid() && r == Data(ReadAfter(s, batches, taken, offset, size))
    {
      ArriveNext(batches, taken, s);
      var data := ReadRange(offset, size);
      r := Data(data);
    }

    method WaitThenRead(offset: nat, size: nat, batches: seq<seq<Arrival>>) returns (r: ReadResult)
      requires Valid()
      modifies this
      ensures Valid() && r == WaitAndRead(old(View()), offset, size, batches)
    {
      var outcome, taken := WaitForRange(offset + size, batches);
      match outcome
      case Ready =>
        r := ReadNext(offset, size, batches, taken, old(View()));
      case Error => r := IoError;
      case Blocked => r := Waiting;
    }

    /** `ensure_complete`: wait for the whole file, then read it. */
    method Complete(batches: seq<seq<Arrival>>) returns (r: ReadResult)
      requires Valid()
      modifies this
      ensures Valid() && r == WaitAndRead(old(View()), 0, totalSize, batches)
    {
      r := WaitThenRead(0, totalSize, batches);
    }

    /** `read_handle` on a handle that is still streaming. */
    method Read(offset: nat, size: nat, batches: seq<seq<Arrival>>, answer: Option<Bytes>) returns (r: ReadResult)
      requires Valid()
      modifies this
      ensures Valid() && r == Reading(old(View()), offset, size, batches, answer)
    {
      var downloaded := DownloadedBytes();
      if downloaded >= offset + size {
        r := ReadNext(offset, size, batches, 0, View());
      } else if offset <= downloaded + RANDOM_ACCESS_THRESHOLD {
        r := WaitThenRead(offset, size, batches);
      } else {
        r := if answer.Some? then Data(answer.value) else IoError;
      }
    }
  }

  /** Empty files and files over 256 MiB are refused. */
  method Create(totalSize: nat) returns (buffer: Option<Buffer>)
    ensures buffer.Some? <==> 0 < totalSize <= 268_435_456
    ensures buffer.Some? ==> fresh(buffer.value) && buffer.value.Valid()
    ensures buffer.Some? ==> buffer.value.View() == Stream(totalSize, [], InProgress(0))
  {
    if totalSize == 0 || totalSize > MAX_STREAMING_BUFFER_SIZE {
      return None;
    }
    var b := new Buffer(totalSize);
    buffer := Some(b);
  }
}
