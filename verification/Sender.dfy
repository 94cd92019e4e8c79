/** The sending side of a file transfer (`BVFileTransferContext`): the worker loop that cuts
    a file into fixed-size, zero-padded chunks and writes one frame per chunk. */
module Sender {
  import opened Bytes
  import opened Wire

  const MAX_CHUNK: nat := 1048676
  /** Largest size whose last chunk still ends below 2^32: 4095 chunks of the largest size. */
  const LARGEST_SENDABLE: nat := 4095 * MAX_CHUNK

  /** `DetermineChunkSize`. The tests leave out 1000..1024 and the exact thresholds, which
      fall through to the largest chunk. */
  function ChunkSize(fsize: u32): (c: u32)
    ensures 64 <= c <= MAX_CHUNK
  {
    if fsize < 256 then 64
    else if fsize < 1000 then 256
    else if fsize > 1024 && fsize < 8000 then 512
    else if fsize > 8000 && fsize < 64000 then 4096
    else if fsize > 64000 && fsize < 256000 then 32768
    else if fsize > 256000 && fsize < 1000000 then 65536
    else if fsize > 1000000 && fsize < 5000000 then 524288
    else MAX_CHUNK
  }

  /** What one transfer is given: the file, the key of the accepted offer, the two names of
      the BEGIN frame, and the clock reading for each frame. */
  datatype Job = Job(content: seq<byte>, key: u32, service: Text, name: Text, clock: nat -> u64) {
    /** `file_size` narrowed to 32 bits. */
    function FileSize(): u32 {
      |content| % TWO32
    }

    function Chunk(): (c: u32)
      ensures 64 <= c <= MAX_CHUNK
    {
      ChunkSize(FileSize())
    }

    /** One read of the file at `off` into a zero-filled buffer of one chunk. */
    function Payload(off: nat): (r: seq<byte>)
      requires off <= |content|
      ensures |r| == Chunk()
    {
      Fit(content[off..], Chunk())
    }

    function Begin(): (r: seq<byte>)
      ensures |r| == FRAME_SIZE
    {
      BeginFrame(key, Chunk(), FileSize(), service, name, clock(0))
    }
  }

  /** What the worker does after BEGIN: the data frames it writes, the bytes it reads from
      the file, and whether it ever leaves its loop. */
  datatype Outcome = Outcome(frames: seq<DataFrame>, bytes: nat, stops: bool)

  /** The worker from file offset `off` on, `sent` being its 32-bit byte counter and `i` the
      number of frames already written. A short read that is not taken for the last chunk
      leaves the stream failed and the loop spinning for ever. */
  function Work(job: Job, off: nat, sent: u32, i: nat): (o: Outcome)
    requires off <= |job.content|
    ensures forall k :: 0 <= k < |o.frames| ==> |o.frames[k].payload| == job.Chunk()
    ensures forall k :: 0 <= k < |o.frames| - 1 ==> !o.frames[k].last
    decreases |job.content| - off
  {
    var csize := job.Chunk();
    var bytesRead := Min(csize, |job.content| - off);
    if bytesRead == 0 then Outcome([], 0, true)
    else
      var last := (sent + csize) % TWO32 >= job.FileSize();
      var frame := DataFrame(job.clock(i), last, job.Payload(off));
      if last then Outcome([frame], bytesRead, true)
      else if bytesRead < csize then Outcome([frame], bytesRead, false)
      else
        var rest := Work(job, off + csize, (sent + bytesRead) % TWO32, i + 1);
        Outcome([frame] + rest.frames, bytesRead + rest.bytes, rest.stops)
  }

  lemma WorkTurn(job: Job, off: nat, sent: u32, i: nat)
    requires off <= |job.content|
    ensures var csize := job.Chunk();
            var bytesRead := Min(csize, |job.content| - off);
            var frame := DataFrame(job.clock(i), (sent + csize) % TWO32 >= job.FileSize(), job.Payload(off));
            Work(job, off, sent, i) ==
            if bytesRead == 0 then Outcome([], 0, true)
            else if frame.last then Outcome([frame], bytesRead, true)
            else if bytesRead < csize then Outcome([frame], bytesRead, false)
            else
              var rest := Work(job, off + csize, (sent + bytesRead) % TWO32, i + 1);
              Outcome([frame] + rest.frames, bytesRead + rest.bytes, rest.stops)
  {
  }

  /** Everything one transfer writes. */
  function WireBytes(job: Job): seq<byte> {
    job.Begin() + DataBytes(job.key, Work(job, 0, 0, 1).frames)
  }

  // --------------------------------------------------------------- the worker itself

  datatype TransferState = FirstChunk | Ongoing | LastChunk

  class FileTransferContext {
    const job: Job
    var state: TransferState
    var csize: u32
    var bytesSent: u32
    var isRunning: bool
    /** Position in the file, and whether the stream is still usable. */
    var cursor: nat
    var streamGood: bool
    /** Frames written so far, their bytes, and the number of clock readings taken. */
    var frames: seq<DataFrame>
    var wire: seq<byte>
    var ticks: nat

    constructor (job: Job)
      ensures this.job == job && Fresh()
    {
      this.job := job;
      state, bytesSent, isRunning := FirstChunk, 0, true;
      csize := job.Chunk();
      cursor, streamGood, frames, wire, ticks := 0, true, [], [], 0;
    }

    ghost predicate Fresh()
      reads this
    {
      && state == FirstChunk && bytesSent == 0 && isRunning && csize == job.Chunk()
      && cursor == 0 && streamGood && frames == [] && wire == [] && ticks == 0
    }

    /** Between chunks: BEGIN and the frames so far are on the wire, and what is still to be
        written is what `Work` says of the current offset and counter. */
    ghost predicate Streaming()
      reads this
    {
      && state == Ongoing && csize == job.Chunk() && cursor <= |job.content|
      && wire == job.Begin() + DataBytes(job.key, frames)
      && ticks == |frames| + 1 && bytesSent == cursor % TWO32
      && var whole, rest := Work(job, 0, 0, 1), Work(job, cursor, bytesSent, ticks);
         if isRunning && streamGood then
           whole == Outcome(frames + rest.frames, cursor + rest.bytes, rest.stops)
         else
           whole == Outcome(frames, cursor, !isRunning)
    }

    method TransferNextChunk()
      requires isRunning && streamGood
      requires Fresh() || Streaming()
      modifies this
      ensures Streaming()
      ensures old(Fresh()) ==> isRunning && streamGood && cursor == 0
      ensures old(Streaming()) ==> !isRunning || !streamGood || cursor == old(cursor) + csize
    {
      if state == FirstChunk {
        TransferBegin();
      } else {
        TransferData();
      }
    }

    method TransferBegin()
      requires Fresh()
      modifies this
      ensures Streaming() && isRunning && streamGood && cursor == 0
    {
      hide ChunkSize, Work, BeginFrame, DataBytes;
      wire := wire + BeginFrame(job.key, csize, job.FileSize(), job.service, job.name, job.clock(ticks));
      state, ticks := Ongoing, ticks + 1;
      NoDataBytes(job.key);
      assert wire == job.Begin() + DataBytes(job.key, frames);
      assert frames + Work(job, 0, 0, 1).frames == Work(job, 0, 0, 1).frames;
    }

    method TransferData()
      requires isRunning && streamGood && Streaming()
      modifies this
      ensures Streaming()
      ensures !isRunning || !streamGood || cursor == old(cursor) + csize
    {
      hide ChunkSize, Work, Fit, BeginFrame, DataFrameBytes, DataBytes;
      WorkTurn(job, cursor, bytesSent, ticks);
      var buffer := Fit(job.content[cursor..], csize);
      var bytesRead := Min(csize, |job.content| - cursor);
      if bytesRead < csize { streamGood := false; }
      if bytesRead > 0 {
        var last := false;
        if state == Ongoing {
          if (bytesSent + csize) % TWO32 >= job.FileSize() { state := LastChunk; }
        }
        if state == LastChunk {
          last, state, isRunning := true, Ongoing, false;
        }
        Write(DataFrame(job.clock(ticks), last, buffer));
        AddWraps(cursor, bytesRead);
        bytesSent := (bytesSent + bytesRead) % TWO32;
        cursor := cursor + bytesRead;
        Assoc(old(frames), [frames[|frames| - 1]], Work(job, cursor, bytesSent, ticks).frames);
      } else {
        isRunning := false;
        assert frames + [] == frames;
      }
    }

    /** `WriteFileChunkSync` of one data frame on the session. */
    method Write(frame: DataFrame)
      requires wire == job.Begin() + DataBytes(job.key, frames)
      modifies `wire, `frames, `ticks
      ensures frames == old(frames) + [frame] && ticks == old(ticks) + 1
      ensures wire == job.Begin() + DataBytes(job.key, frames)
    {
      hide BeginFrame, DataFrameBytes, DataBytes;
      DataBytesSnoc(job.key, frames, frame);
      Assoc(job.Begin(), DataBytes(job.key, frames), DataFrameBytes(job.key, frame));
      frames, ticks := frames + [frame], ticks + 1;
      wire := wire + DataFrameBytes(job.key, frame);
    }

    /** `LaunchFileTransfer`. The original loop has no exit when the stream has failed while
        `isRunning` still holds; the model leaves the loop there with `isRunning` true. */
    method Launch()
      requires Fresh()
      modifies this
      ensures wire == WireBytes(job)
      ensures frames == Work(job, 0, 0, 1).frames
      ensures bytesSent == Work(job, 0, 0, 1).bytes % TWO32
      ensures isRunning <==> !Work(job, 0, 0, 1).stops
    {
      while isRunning && streamGood
        invariant Fresh() || Streaming()
        decreases state == FirstChunk, isRunning && streamGood, |job.content| - cursor
      {
        TransferNextChunk();
      }
    }
  }

  lemma AddWraps(a: nat, b: nat)
    ensures (a % TWO32 + b) % TWO32 == (a + b) % TWO32
  {
  }

  lemma NoDataBytes(key: u32)
    ensures DataBytes(key, []) == []
  {
  }

  lemma DataBytesSnoc(key: u32, a: seq<DataFrame>, f: DataFrame)
    ensures DataBytes(key, a + [f]) == DataBytes(key, a) + DataFrameBytes(key, f)
  {
    hide DataFrameBytes;
    var x, y := EncodedFrames(key, a), DataFrameBytes(key, f);
    assert EncodedFrames(key, a + [f]) == x + [y];
    FlattenAppend(x, [y]);
    assert Flatten([y]) == y + Flatten([y][1..]) == y;
  }

  // -------------------------------------------------------------- what the loop emits

  function Payloads(frames: seq<DataFrame>): seq<byte> {
    if frames == [] then [] else frames[0].payload + Payloads(frames[1..])
  }

  predicate EndsTransfer(frames: seq<DataFrame>) {
    frames != [] && frames[|frames| - 1].last
  }

  /** Number of chunks of size `c` needed for `n` bytes. */
  function CeilDiv(n: nat, c: nat): nat
    requires c > 0
  {
    (n + c - 1) / c
  }

  lemma CeilDivStep(n: nat, c: nat)
    requires 0 < c < n
    ensures CeilDiv(n, c) == CeilDiv(n - c, c) + 1
  {
    var m := n - c + (c - 1);
    assert m == c * (m / c) + m % c;
    assert c * (m / c + 1) == c * (m / c) + c;
    DivModUnique(m + c, c, m / c + 1, m % c);
  }

  lemma CeilDivOne(n: nat, c: nat)
    requires 0 < n <= c
    ensures CeilDiv(n, c) == 1
  {
    DivModUnique(n + c - 1, c, 1, n - 1);
  }

  /** One turn of the worker while `bytesSent + csize` does not wrap. */
  lemma WorkUnfold(job: Job, off: nat, i: nat)
    requires off < |job.content| < TWO32 && off + job.Chunk() < TWO32
    ensures var c, n := job.Chunk(), |job.content|;
            Work(job, off, off, i) ==
            if off + c >= n then Outcome([DataFrame(job.clock(i), true, job.Payload(off))], n - off, true)
            else
              var rest := Work(job, off + c, off + c, i + 1);
              Outcome([DataFrame(job.clock(i), false, job.Payload(off))] + rest.frames, c + rest.bytes, rest.stops)
  {
    hide ChunkSize, Fit;
    assert job.FileSize() == |job.content|;
    assert (off + job.Chunk()) % TWO32 == off + job.Chunk();
  }

  lemma PayloadsCons(f: DataFrame, rest: seq<DataFrame>)
    ensures Payloads([f] + rest) == f.payload + Payloads(rest)
  {
    assert ([f] + rest)[1..] == rest;
  }

  /** While every chunk ends below 2^32, the worker marks exactly the chunk that reaches the
      end of the file, and its payloads are the file padded to whole chunks. */
  lemma {:induction false} WorkComplete(job: Job, off: nat, i: nat)
    requires off < |job.content| && |job.content| <= LARGEST_SENDABLE
    requires Boundary(off, job.Chunk())
    ensures var o := Work(job, off, off, i);
            && o.stops && EndsTransfer(o.frames) && o.bytes == |job.content| - off
            && |o.frames| == CeilDiv(|job.content| - off, job.Chunk())
            && |job.content| - off <= |Payloads(o.frames)| < |job.content| - off + job.Chunk()
            && Payloads(o.frames) == Fit(job.content[off..], |Payloads(o.frames)|)
    decreases |job.content| - off
  {
    hide ChunkSize, Work, Fit, Boundary;
    var n, c := |job.content|, job.Chunk();
    NoWrap(n, off, c);
    WorkUnfold(job, off, i);
    if off + c >= n {
      CeilDivOne(n - off, c);
      PayloadsCons(DataFrame(job.clock(i), true, job.Payload(off)), []);
    } else {
      NextMultiple(off, c);
      WorkComplete(job, off + c, i + 1);
      CeilDivStep(n - off, c);
      PayloadsCons(DataFrame(job.clock(i), false, job.Payload(off)), Work(job, off + c, off + c, i + 1).frames);
      assert job.content[off..][c..] == job.content[off + c..];
      FitSplit(job.content[off..], c, |Payloads(Work(job, off + c, off + c, i + 1).frames)|);
    }
  }

  /** A chunk of size `c` begins here. */
  predicate Boundary(off: nat, c: nat)
    requires c > 0
  {
    off % c == 0
  }

  lemma NextMultiple(off: nat, c: nat)
    requires c > 0 && Boundary(off, c)
    ensures Boundary(off + c, c)
  {
    assert off == c * (off / c);
    DivModUnique(off + c, c, off / c + 1, 0);
  }

  /** `bytesSent + csize` stays below 2^32 for every sendable size. */
  lemma NoWrap(n: nat, off: nat, c: nat)
    requires off < n <= LARGEST_SENDABLE && c == ChunkSize(n) && Boundary(off, c)
    ensures off + c < TWO32
  {
    if c == MAX_CHUNK {
      assert off == MAX_CHUNK * (off / MAX_CHUNK);
    }
  }

  /** For every sendable size: the worker stops, writes ceil(size / chunk) data frames of
      which exactly the last is END, counts the whole file, and the payloads are the file
      followed by fewer zeros than a chunk. */
  lemma SenderCompletes(job: Job)
    requires 1 <= |job.content| <= LARGEST_SENDABLE
    ensures job.FileSize() == |job.content|
    ensures var o := Work(job, 0, 0, 1);
            && o.stops && EndsTransfer(o.frames) && o.bytes == |job.content|
            && |o.frames| == CeilDiv(|job.content|, job.Chunk())
            && (forall k :: 0 <= k < |o.frames| ==> (o.frames[k].last <==> k == |o.frames| - 1))
            && |Payloads(o.frames)| < |job.content| + job.Chunk()
            && job.content <= Payloads(o.frames)
            && (forall k :: |job.content| <= k < |Payloads(o.frames)| ==> Payloads(o.frames)[k] == 0)
  {
    hide ChunkSize, Work;
    WorkComplete(job, 0, 1);
    var p := Payloads(Work(job, 0, 0, 1).frames);
    assert job.content[0..] == job.content;
    assert p[..|job.content|] == job.content;
  }

  /** The chunk counter of the code agrees: after the last frame it has counted the file. */
  method SendWholeFile(job: Job) returns (context: FileTransferContext)
    requires 1 <= |job.content| <= LARGEST_SENDABLE
    ensures context.job == job && !context.isRunning && context.wire == WireBytes(job)
    ensures |context.frames| == CeilDiv(|job.content|, job.Chunk())
    ensures EndsTransfer(context.frames) && context.bytesSent == |job.content|
  {
    context := new FileTransferContext(job);
    context.Launch();
    SenderCompletes(job);
  }

  // --------------------------------------------------------------- sizes that do fail

  /** An empty file: BEGIN, and the worker stops without any data frame. */
  lemma EmptyFileSendsNoEnd(job: Job)
    requires job.content == []
    ensures Work(job, 0, 0, 1) == Outcome([], 0, true)
  {
  }

  lemma LargestChunk(job: Job)
    requires 5000000 <= |job.content| < TWO32
    ensures job.FileSize() == |job.content| && job.Chunk() == MAX_CHUNK
  {
  }

  /** Between the limit and 2^32 the counter wraps on the last chunk, which is sent as an
      ordinary chunk; no END follows and the worker never stops. */
  lemma {:induction false} WrappedNeverEnds(job: Job, off: nat, i: nat)
    requires LARGEST_SENDABLE < |job.content| < TWO32
    requires off <= LARGEST_SENDABLE && off % MAX_CHUNK == 0
    ensures var o := Work(job, off, off, i);
            !o.stops && !EndsTransfer(o.frames)
    decreases |job.content| - off
  {
    hide Work, Fit, ChunkSize;
    LargestChunk(job);
    WorkTurn(job, off, off, i);
    if off < LARGEST_SENDABLE {
      assert off == MAX_CHUNK * (off / MAX_CHUNK);
      WrappedNeverEnds(job, off + MAX_CHUNK, i + 1);
    }
  }

  /** A size announces itself truthfully and the transfer ends, exactly for 1 up to the
      limit; this holds or fails by the size alone. */
  lemma EndsExactlyWhenSendable(job: Job)
    ensures EndsTransfer(Work(job, 0, 0, 1).frames) && job.FileSize() == |job.content|
        <==> 1 <= |job.content| <= LARGEST_SENDABLE
  {
    if job.content == [] {
      EmptyFileSendsNoEnd(job);
    } else if |job.content| <= LARGEST_SENDABLE {
      SenderCompletes(job);
    } else if |job.content| < TWO32 {
      WrappedNeverEnds(job, 0, 1);
    }
  }

  /** One turn of the worker on such a file: every read fills its chunk. */
  lemma TruncatedTurn(job: Job, off: nat, i: nat)
    requires |job.content| >= TWO32 && off + job.Chunk() < TWO32
    ensures var c := job.Chunk();
            var frame := DataFrame(job.clock(i), off + c >= job.FileSize(), job.content[off..off + c]);
            Work(job, off, off, i) ==
            if frame.last then Outcome([frame], c, true)
            else
              var rest := Work(job, off + c, off + c, i + 1);
              Outcome([frame] + rest.frames, c + rest.bytes, rest.stops)
  {
    hide ChunkSize, Work, Fit;
    WorkTurn(job, off, off, i);
    FitCuts(job.content[off..], job.Chunk());
    assert job.content[off..][..job.Chunk()] == job.content[off..off + job.Chunk()];
    assert (off + job.Chunk()) % TWO32 == off + job.Chunk();
  }

  /** From 2^32 bytes on the size announced is what is left modulo 2^32, and the worker stops
      there: its payloads begin with exactly that many bytes of the file. */
  lemma {:induction false} WorkTruncated(job: Job, off: nat, i: nat)
    requires |job.content| >= TWO32 && 1 <= job.FileSize() <= LARGEST_SENDABLE
    requires off < job.FileSize() && Boundary(off, job.Chunk())
    ensures var o, n := Work(job, off, off, i), job.FileSize();
            && o.stops && EndsTransfer(o.frames)
            && n - off <= |Payloads(o.frames)| && Payloads(o.frames)[..n - off] == job.content[off..n]
    decreases job.FileSize() - off
  {
    hide ChunkSize, Work, Boundary, Payloads;
    var n, c := job.FileSize(), job.Chunk();
    NoWrap(n, off, c);
    TruncatedTurn(job, off, i);
    var part := job.content[off..off + c];
    if off + c >= n {
      PayloadsCons(DataFrame(job.clock(i), true, part), []);
      assert [DataFrame(job.clock(i), true, part)] + [] == [DataFrame(job.clock(i), true, part)];
      assert Payloads([]) == [] by { NoPayloads(); }
      assert part + [] == part && part[..n - off] == job.content[off..n];
    } else {
      NextMultiple(off, c);
      WorkTruncated(job, off + c, i + 1);
      PayloadsCons(DataFrame(job.clock(i), false, part), Work(job, off + c, off + c, i + 1).frames);
      assert job.content[off..n] == part + job.content[off + c..n];
    }
  }

  lemma NoPayloads()
    ensures Payloads([]) == []
  {
  }

  lemma FitCuts(s: seq<byte>, c: nat)
    requires c <= |s|
    ensures Fit(s, c) == s[..c]
  {
  }

  // ------------------------------------------------------------------- frame counts

  /** Frames the loop really emits: at most 16 below 5,000,000 bytes, at most 1908 up to
      2,000,000,000, at most 4095 for any sendable size. */
  lemma FrameCountBounds(job: Job)
    requires 1 <= |job.content| <= LARGEST_SENDABLE
    ensures var k := |Work(job, 0, 0, 1).frames|;
            && (|job.content| < 5000000 ==> k <= 16)
            && (|job.content| <= 2000000000 ==> k <= 1908)
            && k <= 4095
  {
    SenderCompletes(job);
    var n := |job.content|;
    if n < 256 { CeilDivBound(n, 64, 4); }
    else if n < 1000 { CeilDivBound(n, 256, 4); }
    else if 1024 < n < 8000 { CeilDivBound(n, 512, 16); }
    else if 8000 < n < 64000 { CeilDivBound(n, 4096, 16); }
    else if 64000 < n < 256000 { CeilDivBound(n, 32768, 8); }
    else if 256000 < n < 1000000 { CeilDivBound(n, 65536, 16); }
    else if 1000000 < n < 5000000 { CeilDivBound(n, 524288, 10); }
    else if n < 5000000 { CeilDivBound(n, MAX_CHUNK, 1); }
    else if n <= 2000000000 { CeilDivBound(n, MAX_CHUNK, 1908); }
    else { CeilDivBound(n, MAX_CHUNK, 4095); }
  }

  /** Exactly how many frames: for every size, `k` frames of the chunk size of its range just
      hold the file. The isolated sizes are the gaps of the table. */
  lemma FrameCountsExact(job: Job)
    requires 1 <= |job.content| <= LARGEST_SENDABLE
    ensures var n, k := |job.content|, |Work(job, 0, 0, 1).frames|;
            && (n < 256 ==> 64 * (k - 1) < n <= 64 * k)
            && (256 <= n < 1000 ==> 256 * (k - 1) < n <= 256 * k)
            && (1024 < n < 8000 ==> 512 * (k - 1) < n <= 512 * k)
            && (8000 < n < 64000 ==> 4096 * (k - 1) < n <= 4096 * k)
            && (64000 < n < 256000 ==> 32768 * (k - 1) < n <= 32768 * k)
            && (256000 < n < 1000000 ==> 65536 * (k - 1) < n <= 65536 * k)
            && (1000000 < n < 5000000 ==> 524288 * (k - 1) < n <= 524288 * k)
            && (1000 <= n <= 1024 || n in {8000, 64000, 256000, 1000000} || 5000000 <= n ==>
                  1048676 * (k - 1) < n <= 1048676 * k)
  {
    hide Work;
    SenderCompletes(job);
    CeilDivExact(|job.content|, job.Chunk());
  }

  lemma CeilDivExact(n: nat, c: nat)
    requires n > 0 && c > 0
    ensures c * (CeilDiv(n, c) - 1) < n <= c * CeilDiv(n, c)
  {
    var m := n + c - 1;
    assert m == c * (m / c) + m % c;
    assert c * (m / c - 1) == c * (m / c) - c;
  }

  /** Where chunk number `j` begins, and the work from there on. */
  function ChunkStart(job: Job, j: nat): nat {
    job.Chunk() * j
  }

  function FramesFrom(job: Job, j: nat): seq<DataFrame>
    requires ChunkStart(job, j) <= |job.content|
  {
    Work(job, ChunkStart(job, j), ChunkStart(job, j) % TWO32, j + 1).frames
  }

  lemma StartsOnChunk(job: Job, j: nat)
    ensures Boundary(ChunkStart(job, j), job.Chunk()) && ChunkStart(job, j + 1) == ChunkStart(job, j) + job.Chunk()
  {
    hide ChunkSize;
    DivModUnique(ChunkStart(job, j), job.Chunk(), j, 0);
  }

  lemma FirstFrame(job: Job, j: nat)
    requires |job.content| <= LARGEST_SENDABLE && ChunkStart(job, j) < |job.content|
    ensures var frames := FramesFrom(job, j);
            && frames != []
            && frames[0] == DataFrame(job.clock(j + 1), |frames| == 1, Fit(job.content[ChunkStart(job, j)..], job.Chunk()))
            && (|frames| > 1 ==> ChunkStart(job, j + 1) < |job.content| && frames[1..] == FramesFrom(job, j + 1))
  {
    hide ChunkSize, Work, Fit, ChunkStart, Boundary;
    var c, off := job.Chunk(), ChunkStart(job, j);
    StartsOnChunk(job, j);
    StartsOnChunk(job, j + 1);
    NoWrap(|job.content|, off, c);
    WorkUnfold(job, off, j + 1);
    if off + c < |job.content| {
      WorkComplete(job, off + c, j + 2);
    }
  }

  lemma {:induction false} FrameAt(job: Job, j: nat, k: nat)
    requires |job.content| <= LARGEST_SENDABLE && ChunkStart(job, j) < |job.content| && k < |FramesFrom(job, j)|
    ensures ChunkStart(job, j + k) < |job.content|
    ensures FramesFrom(job, j)[k] == DataFrame(job.clock(j + k + 1), k == |FramesFrom(job, j)| - 1,
                                               Fit(job.content[ChunkStart(job, j + k)..], job.Chunk()))
    decreases k
  {
    hide ChunkSize, FramesFrom, ChunkStart, Fit, LARGEST_SENDABLE;
    FirstFrame(job, j);
    if k > 0 {
      FrameAt(job, j + 1, k - 1);
      assert FramesFrom(job, j)[k] == FramesFrom(job, j)[1..][k - 1];
    }
  }

  /** The data frames of a transfer, one by one: each with its chunk of the file and its own clock
      reading, and END on the last alone. */
  lemma FramesExactly(job: Job, k: nat)
    requires 1 <= |job.content| <= LARGEST_SENDABLE && k < |Work(job, 0, 0, 1).frames|
    ensures var frames := Work(job, 0, 0, 1).frames;
            && job.Chunk() * k < |job.content|
            && frames[k] == DataFrame(job.clock(k + 1), k == |frames| - 1, Fit(job.content[job.Chunk() * k..], job.Chunk()))
  {
    hide Work, ChunkSize, Fit;
    assert ChunkStart(job, 0) == 0;
    FrameAt(job, 0, k);
  }

  /** Below 5,000,000 bytes exactly these sizes travel in one data frame. The isolated ones are
      the gaps of the table: they fall through to the largest chunk, although smaller and
      larger files are cut into several, so chunk size does not grow with file size. */
  lemma SingleFrameSizes(job: Job)
    requires 1 <= |job.content| < 5000000
    ensures |Work(job, 0, 0, 1).frames| == 1 <==>
            var n := |job.content|;
            n <= 64 || n == 256 || 1000 <= n <= 1024 || n in {8000, 64000, 256000, 1000000}
  {
    hide Work;
    SenderCompletes(job);
    var n, c := |job.content|, job.Chunk();
    if n <= c {
      CeilDivOne(n, c);
    } else {
      CeilDivStep(n, c);
      assert CeilDiv(n - c, c) >= 1 by { CeilDivPositive(n - c, c); }
    }
  }

  lemma CeilDivPositive(n: nat, c: nat)
    requires n > 0 && c > 0
    ensures CeilDiv(n, c) >= 1
  {
    var m := n + c - 1;
    assert m == c * (m / c) + m % c;
  }

  lemma CeilDivBound(n: nat, c: nat, k: nat)
    requires 0 < c && n <= c * k
    ensures CeilDiv(n, c) <= k
  {
    var m := n + c - 1;
    var q := m / c;
    assert m == c * q + m % c;
    assert c * (k + 1) == c * k + c;
    MulCancel(c, q, k + 1);
  }

  lemma MulCancel(c: nat, a: nat, b: nat)
    requires c * a < c * b
    ensures a < b
  {
  }
}
