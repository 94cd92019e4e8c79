/** The receiving session undoes the writers: for every script of frames and whole transfers
    it lands on every frame boundary and delivers exactly what was sent. */
module Stream {
  import opened Bytes
  import opened Wire
  import opened Sender
  import opened Session

  datatype Item =
    | Chat(text: Text, timestamp: u64)
    | Offer(key: u32, fsize: u32, service: Text, name: Text, timestamp: u64)
    | Answer(key: u32, accept: bool, timestamp: u64)
    | Transfer(job: Job)

  predicate TextFits(service: Text, name: Text) {
    var text := ServiceAndName(service, name);
    NUL !in text && |text| < FILE_TEXT_SIZE
  }

  /** The conditions under which one item is understood. */
  predicate Sendable(item: Item) {
    match item
    case Chat(text, _) => |text| > 2 ==> text[2] !in FILE_FRAME_TYPES
    case Offer(_, _, service, name, timestamp) => TextFits(service, name) && ClockClear(timestamp)
    case Answer(_, _, timestamp) => ClockClear(timestamp)
    case Transfer(job) => Startable(job) && 1 <= |job.content| <= LARGEST_SENDABLE
  }

  /** A transfer whose BEGIN frame is understood. */
  predicate Startable(job: Job) {
    TextFits(job.service, job.name) && ClockClear(job.clock(0))
  }

  /** What the sender writes for an item. */
  function Print(item: Item): seq<byte> {
    match item
    case Chat(text, timestamp) => ChatFrame(text, timestamp)
    case Offer(key, fsize, service, name, timestamp) => OfferFrame(key, fsize, service, name, timestamp)
    case Answer(key, accept, timestamp) => VerdictFrame(key, accept, timestamp)
    case Transfer(job) => WireBytes(job)
  }

  function PrintAll(items: seq<Item>): seq<byte> {
    if items == [] then [] else Print(items[0]) + PrintAll(items[1..])
  }

  function DataAction(job: Job, f: DataFrame): Action {
    var data := FileData(job.key, job.Chunk(), job.FileSize(), f.payload);
    if f.last then TransferEnd(data) else ChunkReceived(data)
  }

  function DataActions(job: Job, frames: seq<DataFrame>): (r: seq<Action>)
    ensures |r| == |frames|
  {
    seq(|frames|, i requires 0 <= i < |frames| => DataAction(job, frames[i]))
  }

  function TransferActions(job: Job): (r: seq<Action>)
    ensures r != []
  {
    [TransferBegin(FileData(job.key, job.Chunk(), job.FileSize(), ServiceAndName(job.service, job.name)))]
      + DataActions(job, Work(job, 0, 0, 1).frames)
  }

  /** What the receiver is meant to do on an item. */
  function Meaning(item: Item): seq<Action> {
    match item
    case Chat(text, timestamp) => [ChatIncoming(text[..Min(|text|, PAYLOAD_SIZE)], timestamp)]
    case Offer(key, fsize, service, name, _) => [FileOffered(FileData(key, 0, fsize, ServiceAndName(service, name)))]
    case Answer(key, accept, _) => [Verdict(key, accept)]
    case Transfer(job) => TransferActions(job)
  }

  function MeaningAll(items: seq<Item>): seq<Action> {
    if items == [] then [] else Meaning(items[0]) + MeaningAll(items[1..])
  }

  /** An established session between frames. */
  predicate Ready(s: Session) {
    s.state == Established && s.pending == [FrameRead]
  }

  // ------------------------------------------------------------------- single frames

  lemma ReceiveFrame(s: Session, frame: seq<byte>, rest: seq<byte>, present: set<Text>)
    requires Ready(s) && |frame| == FRAME_SIZE
    ensures Receive(s, frame + rest, present) == Receive(OnStandard(s.(pending := []), frame), rest, present)
  {
    hide OnStandard;
    var input := frame + rest;
    assert input[..FRAME_SIZE] == frame && input[FRAME_SIZE..] == rest;
  }

  lemma ChatUnderstood(s: Session, text: Text, timestamp: u64)
    requires Ready(s) && Sendable(Chat(text, timestamp))
    ensures OnStandard(s.(pending := []), ChatFrame(text, timestamp))
         == s.(log := s.log + Meaning(Chat(text, timestamp)))
  {
    hide GetFileHeader, ChatFrame, OnBegin, OnOffer;
    ChatFrameBytes(text, timestamp);
  }

  /** A file frame with a clear clock goes to the file half alone, with its header intact. */
  lemma FileFrameUnderstood(s: Session, h: FileHeader, payload: seq<byte>)
    requires h.msgType in FILE_FRAME_TYPES && ClockClear(h.timestamp)
    ensures var f := FileFrame(h, payload, FILE_TEXT_SIZE);
            && OnStandard(s, f) == OnFileFrame(s, f)
            && GetFileHeader(f) == h && f[12] == h.msgType
  {
    hide FileFrame, OnFileFrame, GetFileHeader;
    FileFrameRoundTrip(h, payload, FILE_TEXT_SIZE);
    FileDispatchExact(h, payload);
  }

  lemma AnswerUnderstood(s: Session, key: u32, accept: bool, timestamp: u64)
    requires Ready(s) && ClockClear(timestamp)
    ensures OnStandard(s.(pending := []), VerdictFrame(key, accept, timestamp))
         == s.(log := s.log + [Verdict(key, accept)])
  {
    hide FileFrame, OnStandard, GetFileHeader, OnBegin, OnOffer;
    FileFrameUnderstood(s.(pending := []),
      FileHeader(key, timestamp, if accept then FILE_ACCEPT else FILE_REJECT, 0), []);
  }

  lemma OfferUnderstood(s: Session, key: u32, fsize: u32, service: Text, name: Text, timestamp: u64)
    requires Ready(s) && TextFits(service, name) && ClockClear(timestamp)
    ensures OnStandard(s.(pending := []), OfferFrame(key, fsize, service, name, timestamp))
         == s.(log := s.log + Meaning(Offer(key, fsize, service, name, timestamp)))
  {
    hide FileFrame, OnStandard, GetFileHeader, CString;
    var h := FileHeader(key, timestamp, FILE_OFFER, fsize);
    var text := ServiceAndName(service, name);
    FileFrameUnderstood(s.(pending := []), h, text + [NUL]);
    FileTextExact(h, text);
  }

  /** The session after a BEGIN frame: sizes taken over, waiting for a chunk. */
  function Receiving(s: Session, job: Job): Session {
    var data := FileData(job.key, job.Chunk(), job.FileSize(), ServiceAndName(job.service, job.name));
    s.(csize := job.Chunk(), fsize := job.FileSize(), log := s.log + [TransferBegin(data)],
       pending := [ChunkRead(job.Chunk() + FILE_HEADER_SIZE)])
  }

  lemma BeginUnderstood(s: Session, job: Job)
    requires Ready(s) && Startable(job)
    ensures OnStandard(s.(pending := []), job.Begin()) == Receiving(s, job)
  {
    hide FileFrame, OnStandard, GetFileHeader, CString, ChunkSize, UnpackChunkSize, UnpackFileSize, PackSizes;
    var h := FileHeader(job.key, job.clock(0), FILE_TRANSFER_BEGIN, PackSizes(job.Chunk(), job.FileSize()));
    var text := ServiceAndName(job.service, job.name);
    FileFrameUnderstood(s.(pending := []), h, text + [NUL]);
    FileTextExact(h, text);
    SizesRoundTrip(job.Chunk(), job.FileSize());
  }

  // ------------------------------------------------------------------ runs of chunks

  /** The session after the data frames of a transfer. */
  function AfterData(s: Session, job: Job, frames: seq<DataFrame>): Session {
    s.(log := s.log + DataActions(job, frames),
       pending := if EndsTransfer(frames) then [FrameRead] else s.pending)
  }

  lemma ChunkUnderstood(s: Session, job: Job, f: DataFrame)
    requires s.csize == job.Chunk() && s.fsize == job.FileSize() && |f.payload| == s.csize
    requires s.pending == [ChunkRead(job.Chunk() + FILE_HEADER_SIZE)]
    ensures OnChunk(s.(pending := []), DataFrameBytes(job.key, f)) == AfterData(s, job, [f])
  {
    hide FileFrame, GetFileHeader, ChunkSize;
    FileFrameRoundTrip(DataHeader(job.key, f), f.payload, |f.payload|);
    assert Fit(f.payload, |f.payload|) == f.payload;
    assert DataActions(job, [f]) == [DataAction(job, f)];
  }

  lemma ReceiveChunk(s: Session, job: Job, f: DataFrame, rest: seq<byte>, present: set<Text>)
    requires s.csize == job.Chunk() && s.fsize == job.FileSize() && |f.payload| == s.csize
    requires s.pending == [ChunkRead(job.Chunk() + FILE_HEADER_SIZE)]
    ensures Receive(s, DataFrameBytes(job.key, f) + rest, present) == Receive(AfterData(s, job, [f]), rest, present)
  {
    hide DataFrameBytes, OnChunk, ChunkSize, AfterData;
    var frame := DataFrameBytes(job.key, f);
    var input := frame + rest;
    assert input[..|frame|] == frame && input[|frame|..] == rest;
    assert Fit(frame, |frame|) == frame;
    ChunkUnderstood(s, job, f);
  }

  /** Any run of data frames in which only the last may be END. */
  predicate DataRun(job: Job, frames: seq<DataFrame>) {
    && (forall i :: 0 <= i < |frames| ==> |frames[i].payload| == job.Chunk())
    && (forall i :: 0 <= i < |frames| - 1 ==> !frames[i].last)
  }

  lemma {:induction false} ReceiveData(s: Session, job: Job, frames: seq<DataFrame>, rest: seq<byte>, present: set<Text>)
    requires s.csize == job.Chunk() && s.fsize == job.FileSize()
    requires s.pending == [ChunkRead(job.Chunk() + FILE_HEADER_SIZE)]
    requires DataRun(job, frames)
    ensures Receive(s, DataBytes(job.key, frames) + rest, present)
         == Receive(AfterData(s, job, frames), rest, present)
    decreases |frames|
  {
    hide DataFrameBytes, OnChunk, ChunkSize, Receive;
    if frames == [] {
      assert DataBytes(job.key, []) + rest == rest;
      assert AfterData(s, job, []) == s;
    } else {
      var f, tail := frames[0], frames[1..];
      var encoded := EncodedFrames(job.key, frames);
      assert encoded[1..] == EncodedFrames(job.key, tail);
      Assoc(DataFrameBytes(job.key, f), DataBytes(job.key, tail), rest);
      ReceiveChunk(s, job, f, DataBytes(job.key, tail) + rest, present);
      assert DataActions(job, frames) == DataActions(job, [f]) + DataActions(job, tail);
      if tail == [] {
        assert DataBytes(job.key, []) + rest == rest;
        assert frames == [f];
      } else {
        ReceiveData(AfterData(s, job, [f]), job, tail, rest, present);
        Assoc(s.log, DataActions(job, [f]), DataActions(job, tail));
      }
    }
  }

  // -------------------------------------------------------------------- whole scripts

  /** A whole transfer, of any size: the session reads all of it, posts BEGIN and one event
      per data frame, and is back at frame level exactly if the sender wrote an END. */
  lemma ReceiveTransfer(s: Session, job: Job, rest: seq<byte>, present: set<Text>)
    requires Ready(s) && Startable(job)
    ensures Receive(s, WireBytes(job) + rest, present)
         == Receive(AfterData(Receiving(s, job), job, Work(job, 0, 0, 1).frames), rest, present)
  {
    hide OnStandard, Receive, ChunkSize, AfterData, Work, DataBytes;
    var frames := Work(job, 0, 0, 1).frames;
    Assoc(job.Begin(), DataBytes(job.key, frames), rest);
    ReceiveFrame(s, job.Begin(), DataBytes(job.key, frames) + rest, present);
    BeginUnderstood(s, job);
    ReceiveData(Receiving(s, job), job, frames, rest, present);
  }

  /** One item. */
  lemma ReceiveItem(s: Session, item: Item, rest: seq<byte>, present: set<Text>) returns (t: Session)
    requires Ready(s) && Sendable(item)
    ensures Ready(t) && t.log == s.log + Meaning(item)
    ensures Receive(s, Print(item) + rest, present) == Receive(t, rest, present)
  {
    hide OnStandard, Receive, ChunkSize, Work, ChatFrame, OfferFrame, VerdictFrame;
    match item {
      case Chat(text, timestamp) =>
        ReceiveFrame(s, Print(item), rest, present);
        ChatUnderstood(s, text, timestamp);
        t := s.(log := s.log + Meaning(item));
      case Offer(key, fsize, service, name, timestamp) =>
        ReceiveFrame(s, Print(item), rest, present);
        OfferUnderstood(s, key, fsize, service, name, timestamp);
        t := s.(log := s.log + Meaning(item));
      case Answer(key, accept, timestamp) =>
        ReceiveFrame(s, Print(item), rest, present);
        AnswerUnderstood(s, key, accept, timestamp);
        t := s.(log := s.log + Meaning(item));
      case Transfer(job) =>
        ReceiveTransfer(s, job, rest, present);
        SenderCompletes(job);
        t := AfterData(Receiving(s, job), job, Work(job, 0, 0, 1).frames);
        var begin := FileData(job.key, job.Chunk(), job.FileSize(), ServiceAndName(job.service, job.name));
        Assoc(s.log, [TransferBegin(begin)], DataActions(job, Work(job, 0, 0, 1).frames));
    }
  }

  /** For every script of chat lines, offers, answers and whole transfers in any order, the
      receiver consumes all its bytes, does exactly what the script means, in order, and is
      left between frames. */
  lemma {:induction false} ParserUndoesPrinter(s: Session, items: seq<Item>, present: set<Text>)
    requires Ready(s) && forall i :: 0 <= i < |items| ==> Sendable(items[i])
    ensures var (t, rest) := Receive(s, PrintAll(items), present);
            Ready(t) && rest == [] && t.log == s.log + MeaningAll(items)
    decreases |items|
  {
    hide Print, Meaning, Sendable;
    if items == [] {
      assert s.log + [] == s.log;
    } else {
      var t := ReceiveItem(s, items[0], PrintAll(items[1..]), present);
      ParserUndoesPrinter(t, items[1..], present);
      Assoc(s.log, Meaning(items[0]), MeaningAll(items[1..]));
    }
  }
}
