/** One TCP session (`BVTCPSession`): what it does with each 138-byte frame and each file
    chunk, which reads it leaves outstanding, and what it hands to the application. */
module Session {
  import opened Bytes
  import opened Wire

  datatype State = Unprepared | Established | Closed

  /** An outstanding `async_read`. */
  datatype Read = FrameRead | ChunkRead(bytes: nat)

  datatype FileData = FileData(correlationKey: u32, csize: u32, fsize: u32, fdata: seq<byte>)

  /** What a handler does besides changing the session, in order. The first five are messages
      pushed to the application's mailbox, the next three are calls and replies. `Overrun`
      stands for a text without terminator, where the original reads past its buffer. */
  datatype Action =
    | ChatIncoming(text: Text, timestamp: u64)
    | FileOffered(data: FileData)
    | TransferBegin(data: FileData)
    | ChunkReceived(data: FileData)
    | TransferEnd(data: FileData)
    | Verdict(key: u32, accept: bool)
    | ReplyHelloBack
    | Identified(name: Text, duplicate: bool)
    | Overrun

  datatype Session = Session(state: State, csize: u32, fsize: u32, pending: seq<Read>, log: seq<Action>) {
    function Did(a: Action): Session {
      this.(log := log + [a])
    }

    /** `StartReadingFrames`. */
    function ArmFrame(): Session {
      this.(pending := pending + [FrameRead])
    }

    /** `StartReadingChunks(csize + 21)`: the argument is narrowed to 32 bits, and nothing is
        read when it becomes zero. */
    function ArmChunk(): Session {
      if ChunkBytes() == 0 then this else this.(pending := pending + [ChunkRead(ChunkBytes())])
    }

    function ChunkBytes(): nat {
      (csize + FILE_HEADER_SIZE) % TWO32
    }
  }

  const FILE_FRAME_TYPES: set<byte> := {FILE_TRANSFER_BEGIN, FILE_OFFER, FILE_ACCEPT, FILE_REJECT}

  /** The two tests every established frame is put to: type at byte 9 and type at byte 12. */
  predicate LooksLikeChat(buf: seq<byte>)
    requires |buf| == FRAME_SIZE
  {
    buf[9] == CHATMESSAGE
  }

  predicate LooksLikeFile(buf: seq<byte>)
    requires |buf| == FRAME_SIZE
  {
    buf[12] in FILE_FRAME_TYPES
  }

  // ------------------------------------------------------------------ frame handlers

  /** A frame of the handshake. The HELLO check goes through a native struct, whose type
      field lies at offset 16, inside the payload. */
  function OnUnprepared(s: Session, buf: seq<byte>, present: set<Text>): Session
    requires |buf| == FRAME_SIZE
  {
    if buf[9] == HELLO then
      if buf[16] != HELLO then s else s.Did(ReplyHelloBack).ArmFrame()
    else if buf[9] == HELLOBACK then
      if buf[0] > 128 then s else
      var name := buf[MSG_HEADER_SIZE..MSG_HEADER_SIZE + buf[0]];
      if name in present then s.(state := Closed, pending := []).Did(Identified(name, true))
      else s.(state := Established).Did(Identified(name, false)).ArmFrame()
    else if buf[9] == CONFIRM_ESTABLISHED then s.(state := Established).ArmFrame()
    else s
  }

  function ChatText(buf: seq<byte>): Text
    requires |buf| == FRAME_SIZE
  {
    buf[MSG_HEADER_SIZE..MSG_HEADER_SIZE + Min(buf[0], PAYLOAD_SIZE)]
  }

  function OnChat(s: Session, buf: seq<byte>): Session
    requires |buf| == FRAME_SIZE
  {
    s.Did(ChatIncoming(ChatText(buf), GetMsgHeader(buf).timestamp)).ArmFrame()
  }

  function OnOffer(s: Session, buf: seq<byte>): Session
    requires |buf| == FRAME_SIZE
  {
    var h := GetFileHeader(buf);
    match CString(buf, FILE_HEADER_SIZE)
    case None => s.Did(Overrun)
    case Some(text) => s.Did(FileOffered(FileData(h.correlationKey, 0, h.metadata % TWO32, text))).ArmFrame()
  }

  function OnBegin(s: Session, buf: seq<byte>): Session
    requires |buf| == FRAME_SIZE
  {
    var h := GetFileHeader(buf);
    match CString(buf, FILE_HEADER_SIZE)
    case None => s.Did(Overrun)
    case Some(text) =>
      var c, n := UnpackChunkSize(h.metadata), UnpackFileSize(h.metadata);
      s.(csize := c, fsize := n).Did(TransferBegin(FileData(h.correlationKey, c, n, text))).ArmChunk()
  }

  function OnFileFrame(s: Session, buf: seq<byte>): Session
    requires |buf| == FRAME_SIZE
  {
    var key := GetFileHeader(buf).correlationKey;
    if buf[12] == FILE_TRANSFER_BEGIN then OnBegin(s, buf)
    else if buf[12] == FILE_OFFER then OnOffer(s, buf)
    else if buf[12] == FILE_ACCEPT then s.Did(Verdict(key, true)).ArmFrame()
    else if buf[12] == FILE_REJECT then s.Did(Verdict(key, false)).ArmFrame()
    else s
  }

  /** `OnReceiveStandardFrame`: both tests are applied, one after the other. */
  function OnStandard(s: Session, buf: seq<byte>): Session
    requires |buf| == FRAME_SIZE
  {
    OnFileFrame(if LooksLikeChat(buf) then OnChat(s, buf) else s, buf)
  }

  /** `ReadMessageFrameCallback`; `present` is the set of names the manager has sessions for. */
  function OnFrame(s: Session, buf: seq<byte>, present: set<Text>): Session
    requires |buf| == FRAME_SIZE
  {
    if s.state == Unprepared then OnUnprepared(s, buf, present) else OnStandard(s, buf)
  }

  /** `ReadFileChunkCallback`; `buf` is the whole file buffer, `csize + 21` bytes. */
  function OnChunk(s: Session, buf: seq<byte>): Session
    requires |buf| == s.csize + FILE_HEADER_SIZE
  {
    var h := GetFileHeader(buf);
    var data := FileData(h.correlationKey, s.csize, s.fsize, buf[FILE_HEADER_SIZE..]);
    if h.msgType == FILE_TRANSFER_CHUNK_SENT then s.Did(ChunkReceived(data)).ArmChunk()
    else if h.msgType == FILE_TRANSFER_END then s.Did(TransferEnd(data)).ArmFrame()
    else s.ArmChunk()
  }

  // ------------------------------------------------------------------- byte stream

  function ReadSize(r: Read): nat {
    match r
    case FrameRead => FRAME_SIZE
    case ChunkRead(n) => n
  }

  /** The one outstanding read can complete: the stream holds the bytes it asked for. */
  predicate CanRead(s: Session, input: seq<byte>) {
    |s.pending| == 1 && 0 < ReadSize(s.pending[0]) <= |input|
  }

  /** Completion of the outstanding read with the next bytes of the stream. */
  function Deliver(s: Session, input: seq<byte>, present: set<Text>): Session
    requires CanRead(s, input)
  {
    var idle := s.(pending := []);
    match s.pending[0]
    case FrameRead => OnFrame(idle, input[..FRAME_SIZE], present)
    case ChunkRead(n) => OnChunk(idle, Fit(input[..n], s.csize + FILE_HEADER_SIZE))
  }

  /** Runs the session on a byte stream until it needs bytes that have not arrived. */
  function Receive(s: Session, input: seq<byte>, present: set<Text>): (Session, seq<byte>)
    decreases |input|
  {
    if CanRead(s, input) then Receive(Deliver(s, input, present), input[ReadSize(s.pending[0])..], present)
    else (s, input)
  }

  // ----------------------------------------------------- exactly one outstanding read

  /** A live session waits for one thing, of the right length; a closed one for nothing. */
  predicate OneRead(s: Session) {
    if s.state == Closed then s.pending == []
    else s.pending == [FrameRead] || (s.pending == [ChunkRead(s.ChunkBytes())] && s.ChunkBytes() > 0)
  }

  /** The file half of a frame starts a new read: a verdict always does, an offer when its
      text is terminated, a BEGIN when moreover its chunk size does not wrap to nothing. */
  predicate FileHalfArms(buf: seq<byte>)
    requires |buf| == FRAME_SIZE
  {
    && LooksLikeFile(buf)
    && (buf[12] in {FILE_TRANSFER_BEGIN, FILE_OFFER} ==> CString(buf, FILE_HEADER_SIZE).Some?)
    && (buf[12] == FILE_TRANSFER_BEGIN ==>
          (UnpackChunkSize(GetFileHeader(buf).metadata) + FILE_HEADER_SIZE) % TWO32 != 0)
  }

  /** Frames a correct peer sends in the session's state. */
  predicate WellFormed(s: Session, buf: seq<byte>)
    requires |buf| == FRAME_SIZE
  {
    if s.state == Unprepared then
      || (buf[9] == HELLO && buf[16] == HELLO)
      || (buf[9] == HELLOBACK && buf[0] <= 128)
      || buf[9] == CONFIRM_ESTABLISHED
    else if LooksLikeChat(buf) then !LooksLikeFile(buf)
    else FileHalfArms(buf)
  }

  /** How many reads any 138 bytes leave behind, in every live state: none after a malformed
      handshake frame or on a closed duplicate, and otherwise one for the chat half plus one
      for the file half. A well-formed frame leaves exactly one, of the right length. */
  lemma FrameRearmsExactly(s: Session, buf: seq<byte>, present: set<Text>)
    requires |buf| == FRAME_SIZE && s.state != Closed
    ensures var t := OnFrame(s.(pending := []), buf, present);
            && (WellFormed(s, buf) ==> OneRead(t))
            && (s.state == Unprepared && !WellFormed(s, buf) ==> t == s.(pending := []))
            && (s.state == Established ==>
                  |t.pending| == (if LooksLikeChat(buf) then 1 else 0) + (if FileHalfArms(buf) then 1 else 0))
  {
    hide GetFileHeader, GetMsgHeader, CString;
  }

  /** Every chunk, whatever its type, leaves exactly one read. */
  lemma ChunkRearms(s: Session, buf: seq<byte>)
    requires |buf| == s.csize + FILE_HEADER_SIZE && s.state != Closed && s.ChunkBytes() > 0
    ensures OneRead(OnChunk(s.(pending := []), buf))
    ensures OnChunk(s.(pending := []), buf).pending == [FrameRead] <==> buf[12] == FILE_TRANSFER_END
  {
    assert [ChunkRead(s.ChunkBytes())][0] != [FrameRead][0];
  }

  /** Along a stream, every frame the session reads is well-formed. */
  predicate AllWellFormed(s: Session, input: seq<byte>, present: set<Text>)
    decreases |input|
  {
    CanRead(s, input) ==>
      && (s.pending[0] == FrameRead ==> WellFormed(s, input[..FRAME_SIZE]))
      && AllWellFormed(Deliver(s, input, present), input[ReadSize(s.pending[0])..], present)
  }

  /** Over every stream of well-formed frames and arbitrary chunks, in every state, there is
      always exactly one outstanding read, and none once the session is closed. */
  lemma {:induction false} ReceiveKeepsOneRead(s: Session, input: seq<byte>, present: set<Text>)
    requires OneRead(s) && AllWellFormed(s, input, present)
    ensures OneRead(Receive(s, input, present).0)
    decreases |input|
  {
    if CanRead(s, input) {
      var t := Deliver(s, input, present);
      match s.pending[0] {
        case FrameRead => FrameRearmsExactly(s, input[..FRAME_SIZE], present);
        case ChunkRead(n) => ChunkRearms(s, Fit(input[..n], s.csize + FILE_HEADER_SIZE));
      }
      ReceiveKeepsOneRead(t, input[ReadSize(s.pending[0])..], present);
    }
  }

  // ------------------------------------------------------------ unambiguous dispatch

  lemma ChatFrameBytes(text: Text, timestamp: u64)
    ensures var f := ChatFrame(text, timestamp);
            && f[9] == CHATMESSAGE && f[0] == Min(|text|, PAYLOAD_SIZE)
            && f[12] == (if |text| > 2 then text[2] else 0)
            && GetMsgHeader(f).timestamp == timestamp
            && ChatText(f) == text[..Min(|text|, PAYLOAD_SIZE)]
  {
    hide ToBytes, FromBytes;
    var f := ChatFrame(text, timestamp);
    var h := MsgHeader(Min(|text|, PAYLOAD_SIZE), timestamp, CHATMESSAGE);
    MsgFrameRoundTrip(h, Fit(text, PAYLOAD_SIZE));
    assert f[12] == f[MSG_HEADER_SIZE..][2];
    assert ChatText(f) == f[MSG_HEADER_SIZE..][..Min(|text|, PAYLOAD_SIZE)];
  }

  /** A chat frame always passes the chat test; it passes the file test as well exactly when
      its third character is one of the four file type codes. */
  lemma ChatDispatchExact(text: Text, timestamp: u64)
    ensures LooksLikeChat(ChatFrame(text, timestamp))
    ensures LooksLikeFile(ChatFrame(text, timestamp)) <==> |text| > 2 && text[2] in FILE_FRAME_TYPES
  {
    ChatFrameBytes(text, timestamp);
  }

  predicate ClockClear(timestamp: u64) {
    (timestamp / TWO40) % 256 != CHATMESSAGE
  }

  /** A file frame always passes the file test; it passes the chat test as well exactly when
      bits 40..47 of its timestamp spell the chat type. */
  lemma FileDispatchExact(h: FileHeader, payload: seq<byte>)
    requires h.msgType in FILE_FRAME_TYPES
    ensures LooksLikeFile(FileFrame(h, payload, FILE_TEXT_SIZE))
    ensures LooksLikeChat(FileFrame(h, payload, FILE_TEXT_SIZE)) <==> !ClockClear(h.timestamp)
  {
    FileFrameRoundTrip(h, payload, FILE_TEXT_SIZE);
    SixthByte(h.timestamp);
  }

  /** All clocks below `n` are clear if and only if `n` is at most 5 * 2^40, which a millisecond
      clock reaches in the year 2144. */
  lemma ClockClearExactly(n: nat)
    ensures (forall timestamp: u64 :: timestamp < n ==> ClockClear(timestamp)) <==> n <= 5 * TWO40
  {
    if n > 5 * TWO40 {
      assert !ClockClear(5 * TWO40);
    }
  }
}
