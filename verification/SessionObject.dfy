/** The session as the object it is in the program: buffers, counters and state updated in
    place by the read callbacks, each proved to do what `Session` says. */
module SessionObject {
  import opened Bytes
  import opened Wire
  import opened Session

  class TcpSession {
    var state: State
    var csize: u32
    var fsize: u32
    var totalBytesRead: nat
    var readBuf: seq<byte>
    var fileReadBuf: seq<byte>
    /** Outstanding reads and the actions taken, oldest first. */
    var pending: seq<Read>
    var log: seq<Action>

    ghost function View(): Session
      reads this
    {
      Session(state, csize, fsize, pending, log)
    }

    /** Between callbacks: counters are reset, and the buffer behind every outstanding read is
        allocated and large enough for it. */
    ghost predicate Valid()
      reads this
    {
      && totalBytesRead == 0
      && (if state == Closed then pending == [] else |readBuf| == FRAME_SIZE)
      && forall i :: 0 <= i < |pending| ==>
           match pending[i]
           case FrameRead => |readBuf| == FRAME_SIZE
           case ChunkRead(n) => n <= |fileReadBuf| == csize + FILE_HEADER_SIZE
    }

    constructor ()
      ensures Valid() && state == Unprepared && pending == [] && log == []
      ensures readBuf == Zeros(FRAME_SIZE) && fileReadBuf == Zeros(1)
    {
      state, csize, fsize, totalBytesRead := Unprepared, 0, 0, 0;
      readBuf, fileReadBuf := Zeros(FRAME_SIZE), Zeros(1);
      pending, log := [], [];
    }

    method StartReadingFrames()
      requires |readBuf| == FRAME_SIZE && totalBytesRead == 0
      modifies `pending
      ensures View() == old(View()).ArmFrame()
    {
      pending := pending + [FrameRead];
    }

    method StartReadingChunks()
      requires |fileReadBuf| == csize + FILE_HEADER_SIZE && totalBytesRead == 0
      modifies `pending
      ensures View() == old(View()).ArmChunk()
    {
      var requested := (csize + FILE_HEADER_SIZE) % TWO32;
      if requested == 0 { return; }
      pending := pending + [ChunkRead(requested)];
    }

    method ClearReadBuffer()
      modifies `readBuf, `totalBytesRead
      ensures readBuf == Zeros(FRAME_SIZE) && totalBytesRead == 0
    {
      readBuf, totalBytesRead := Zeros(FRAME_SIZE), 0;
    }

    method Close()
      requires totalBytesRead == 0
      modifies this
      ensures Valid() && View() == old(View()).(state := Closed, pending := [])
    {
      state, pending, readBuf := Closed, [], [];
    }

    method OnReceiveHelloFrame()
      requires Valid() && state == Unprepared && readBuf[9] == HELLO
      modifies this
      ensures Valid() && View() == OnUnprepared(old(View()), old(readBuf), {})
    {
      if readBuf[16] != HELLO { return; }
      log := log + [ReplyHelloBack];
      StartReadingFrames();
    }

    /** Identification: the manager either tables the session or closes it as a duplicate. */
    method OnReceiveHelloBackFrame(present: set<Text>)
      requires Valid() && state == Unprepared && readBuf[9] == HELLOBACK
      modifies this
      ensures Valid() && View() == OnUnprepared(old(View()), old(readBuf), present)
    {
      var dataLen := readBuf[0];
      if dataLen > 128 { return; }
      var name := readBuf[MSG_HEADER_SIZE..MSG_HEADER_SIZE + dataLen];
      log := log + [Identified(name, name in present)];
      if name !in present {
        state := Established;
        StartReadingFrames();
      } else {
        Close();
      }
    }

    method OnReceiveConfirmEstablished()
      requires Valid() && state == Unprepared
      modifies this
      ensures Valid() && View() == old(View()).(state := Established).ArmFrame()
    {
      state := Established;
      StartReadingFrames();
    }

    method OnReceiveFileOffer()
      requires Valid() && state == Established && readBuf[12] == FILE_OFFER
      modifies this
      ensures Valid() && View() == OnOffer(old(View()), old(readBuf))
    {
      hide GetFileHeader, CString;
      var h := GetFileHeader(readBuf);
      var text := GetFileText(readBuf);
      if text.None? {
        log := log + [Overrun];
        return;
      }
      log := log + [FileOffered(FileData(h.correlationKey, 0, h.metadata % TWO32, text.value))];
      StartReadingFrames();
    }

    method OnReceiveFileTransferBegin()
      requires Valid() && state == Established && readBuf[12] == FILE_TRANSFER_BEGIN
      requires forall i :: 0 <= i < |pending| ==> pending[i] == FrameRead
      modifies this
      ensures Valid() && View() == OnBegin(old(View()), old(readBuf))
    {
      hide GetFileHeader, CString;
      var h := GetFileHeader(readBuf);
      var text := GetFileText(readBuf);
      if text.None? {
        log := log + [Overrun];
        return;
      }
      csize, fsize := UnpackChunkSize(h.metadata), UnpackFileSize(h.metadata);
      log := log + [TransferBegin(FileData(h.correlationKey, csize, fsize, text.value))];
      ClearReadBuffer();
      fileReadBuf := Zeros(csize + FILE_HEADER_SIZE);
      StartReadingChunks();
    }

    method OnReceiveStandardFrame()
      requires Valid() && state == Established && pending == []
      modifies this
      ensures Valid() && View() == OnStandard(old(View()), old(readBuf))
    {
      hide GetFileHeader, GetMsgHeader, OnBegin, OnOffer;
      if readBuf[9] == CHATMESSAGE {
        log := log + [ChatIncoming(ChatText(readBuf), GetMsgHeader(readBuf).timestamp)];
        StartReadingFrames();
      }
      var key := GetFileHeader(readBuf).correlationKey;
      if readBuf[12] == FILE_TRANSFER_BEGIN {
        OnReceiveFileTransferBegin();
      } else if readBuf[12] == FILE_OFFER {
        OnReceiveFileOffer();
      } else if readBuf[12] == FILE_ACCEPT || readBuf[12] == FILE_REJECT {
        log := log + [Verdict(key, readBuf[12] == FILE_ACCEPT)];
        StartReadingFrames();
      }
    }

    /** A frame read completes: 138 bytes are in `readBuf`. */
    method ReadMessageFrameCallback(bytes: seq<byte>, present: set<Text>)
      requires Valid() && state != Closed && pending == [FrameRead] && |bytes| == FRAME_SIZE
      modifies this
      ensures Valid()
      ensures View() == Deliver(old(View()), bytes, present)
    {
      hide OnStandard;
      assert bytes[..FRAME_SIZE] == bytes;
      pending := [];
      readBuf, totalBytesRead := bytes, totalBytesRead + |bytes|;
      totalBytesRead := 0;
      if state == Unprepared {
        if readBuf[9] == HELLO {
          OnReceiveHelloFrame();
        } else if readBuf[9] == HELLOBACK {
          OnReceiveHelloBackFrame(present);
        } else if readBuf[9] == CONFIRM_ESTABLISHED {
          OnReceiveConfirmEstablished();
        }
      } else {
        OnReceiveStandardFrame();
      }
      if state != Closed {
        ClearReadBuffer();
      }
    }

    /** A chunk read completes: `|bytes|` bytes are at the start of `fileReadBuf`. */
    method ReadFileChunkCallback(bytes: seq<byte>)
      requires Valid() && state != Closed && |pending| == 1
      requires pending[0].ChunkRead? && |bytes| == pending[0].bytes > 0
      modifies this
      ensures Valid()
      ensures View() == Deliver(old(View()), bytes, {})
    {
      hide GetFileHeader;
      assert bytes[..|bytes|] == bytes;
      pending := [];
      fileReadBuf := Fit(bytes, |fileReadBuf|);
      var h := GetFileHeader(fileReadBuf);
      var data := FileData(h.correlationKey, csize, fsize, fileReadBuf[FILE_HEADER_SIZE..]);
      if h.msgType == FILE_TRANSFER_CHUNK_SENT {
        log := log + [ChunkReceived(data)];
      } else if h.msgType == FILE_TRANSFER_END {
        log := log + [TransferEnd(data)];
        fileReadBuf := Zeros(1);
        ClearReadBuffer();
        StartReadingFrames();
        return;
      }
      fileReadBuf := Zeros(csize + FILE_HEADER_SIZE);
      StartReadingChunks();
    }

    /** The event loop on a stream: each outstanding read is completed with the next bytes as
        long as they have arrived. */
    method Pump(input: seq<byte>, present: set<Text>) returns (rest: seq<byte>)
      requires Valid()
      modifies this
      ensures Valid()
      ensures (View(), rest) == Receive(old(View()), input, present)
    {
      hide Deliver;
      rest := input;
      while |pending| == 1 && 0 < ReadSize(pending[0]) <= |rest|
        invariant Valid()
        invariant Receive(View(), rest, present) == Receive(old(View()), input, present)
        decreases |rest|
      {
        var n := ReadSize(pending[0]);
        ghost var before := View();
        if pending[0] == FrameRead {
          ReadMessageFrameCallback(rest[..n], present);
        } else {
          ReadFileChunkCallback(rest[..n]);
        }
        DeliverPrefix(before, rest, present);
        rest := rest[n..];
      }
    }
  }

  /** A read sees only the bytes it asked for, and only HELLOBACK looks at the tables. */
  lemma DeliverPrefix(s: Session, input: seq<byte>, present: set<Text>)
    requires CanRead(s, input)
    ensures var n := ReadSize(s.pending[0]);
            && CanRead(s, input[..n])
            && Deliver(s, input[..n], present) == Deliver(s, input, present)
            && (s.pending[0].ChunkRead? ==> Deliver(s, input[..n], {}) == Deliver(s, input, present))
  {
    hide OnFrame, OnChunk;
    var n := ReadSize(s.pending[0]);
    assert input[..n][..n] == input[..n];
  }
}
