/** Frame formats of a session: the 10-byte message header, the 21-byte file header,
    and how both are written to and read from a frame. */
module Wire {
  import opened Bytes

  const FRAME_SIZE: nat := 138
  const MSG_HEADER_SIZE: nat := 10
  const PAYLOAD_SIZE: nat := 128
  const FILE_HEADER_SIZE: nat := 21
  const FILE_TEXT_SIZE: nat := FRAME_SIZE - FILE_HEADER_SIZE

  const HELLO: byte := 0
  const HELLOBACK: byte := 1
  const CONFIRM_ESTABLISHED: byte := 3
  const CHATMESSAGE: byte := 5
  const FILE_TRANSFER_BEGIN: byte := 6
  const FILE_TRANSFER_CHUNK_SENT: byte := 7
  const FILE_TRANSFER_END: byte := 8
  const FILE_OFFER: byte := 9
  const FILE_ACCEPT: byte := 10
  const FILE_REJECT: byte := 11

  datatype MsgHeader = MsgHeader(dataLen: byte, timestamp: u64, msgType: byte)

  datatype FileHeader = FileHeader(correlationKey: u32, timestamp: u64, msgType: byte, metadata: u64)

  /** Writer of message frames (`WriteMessageFrame`). */
  function MsgFrame(h: MsgHeader, payload: seq<byte>): (r: seq<byte>)
    requires |payload| == PAYLOAD_SIZE
    ensures |r| == FRAME_SIZE
  {
    [h.dataLen] + ToBytes(h.timestamp, 8) + [h.msgType] + payload
  }

  function U32At(buf: seq<byte>, at: nat): u32
    requires at + 4 <= |buf|
  {
    FromBytesBound(buf[at..at + 4]);
    PowersOf256();
    FromBytes(buf[at..at + 4])
  }

  function U64At(buf: seq<byte>, at: nat): u64
    requires at + 8 <= |buf|
  {
    FromBytesBound(buf[at..at + 8]);
    PowersOf256();
    FromBytes(buf[at..at + 8])
  }

  function GetMsgHeader(buf: seq<byte>): MsgHeader
    requires |buf| >= MSG_HEADER_SIZE
  {
    MsgHeader(buf[0], U64At(buf, 1), buf[9])
  }

  function FileHeaderBytes(h: FileHeader): (r: seq<byte>)
    ensures |r| == FILE_HEADER_SIZE
  {
    ToBytes(h.correlationKey, 4) + ToBytes(h.timestamp, 8) + [h.msgType] + ToBytes(h.metadata, 8)
  }

  /** Writer of file frames (`WriteFileChunkSync`): the payload is padded with zeros or cut
      to `payloadBytes`. */
  function FileFrame(h: FileHeader, payload: seq<byte>, payloadBytes: nat): (r: seq<byte>)
    ensures |r| == FILE_HEADER_SIZE + payloadBytes
  {
    FileHeaderBytes(h) + Fit(payload, payloadBytes)
  }

  function GetFileHeader(buf: seq<byte>): FileHeader
    requires |buf| >= FILE_HEADER_SIZE
  {
    FileHeader(U32At(buf, 0), U64At(buf, 4), buf[12], U64At(buf, 13))
  }

  lemma U32Field(buf: seq<byte>, at: nat, v: u32)
    requires at + 4 <= |buf| && buf[at..at + 4] == ToBytes(v, 4)
    ensures U32At(buf, at) == v
  {
    U32RoundTrip(v);
  }

  lemma U64Field(buf: seq<byte>, at: nat, v: u64)
    requires at + 8 <= |buf| && buf[at..at + 8] == ToBytes(v, 8)
    ensures U64At(buf, at) == v
  {
    U64RoundTrip(v);
  }

  /** Reading a written message frame gives back its header and payload. */
  lemma MsgFrameRoundTrip(h: MsgHeader, payload: seq<byte>)
    requires |payload| == PAYLOAD_SIZE
    ensures GetMsgHeader(MsgFrame(h, payload)) == h
    ensures MsgFrame(h, payload)[MSG_HEADER_SIZE..] == payload
  {
    var f := MsgFrame(h, payload);
    assert f[1..9] == ToBytes(h.timestamp, 8);
    U64Field(f, 1, h.timestamp);
  }

  lemma Slices(k: seq<byte>, t: seq<byte>, b: byte, m: seq<byte>, rest: seq<byte>)
    requires |k| == 4 && |t| == 8 && |m| == 8
    ensures var f := k + t + [b] + m + rest;
            f[0..4] == k && f[4..12] == t && f[12] == b && f[13..21] == m && f[21..] == rest
  {
  }

  /** Reading a written file frame gives back the header, and the payload padded or cut. */
  lemma FileFrameRoundTrip(h: FileHeader, payload: seq<byte>, n: nat)
    ensures GetFileHeader(FileFrame(h, payload, n)) == h
    ensures FileFrame(h, payload, n)[FILE_HEADER_SIZE..] == Fit(payload, n)
    ensures FileFrame(h, payload, n)[12] == h.msgType
    ensures FileFrame(h, payload, n)[9] == ToBytes(h.timestamp, 8)[5]
  {
    var f := FileFrame(h, payload, n);
    Slices(ToBytes(h.correlationKey, 4), ToBytes(h.timestamp, 8), h.msgType, ToBytes(h.metadata, 8), Fit(payload, n));
    U32Field(f, 0, h.correlationKey);
    U64Field(f, 4, h.timestamp);
    U64Field(f, 13, h.metadata);
    assert f[9] == f[4..12][5];
  }

  // ---------------------------------------------------------------- BEGIN metadata

  /** `(csize << 32) | fsize`: the two halves do not overlap, so the OR is a sum. */
  function PackSizes(csize: u32, fsize: u32): u64 {
    csize * TWO32 + fsize
  }

  /** `(metadata & 0xFFFFFFFF00000000) >> 32`. */
  function UnpackChunkSize(metadata: u64): u32 {
    metadata / TWO32
  }

  /** `(uint32_t)(metadata & 0x0000000FFFFFFFFF)`: a 36-bit mask, then a 32-bit cast. */
  function UnpackFileSize(metadata: u64): u32 {
    metadata % TWO36 % TWO32
  }

  lemma SizesRoundTrip(csize: u32, fsize: u32)
    ensures UnpackChunkSize(PackSizes(csize, fsize)) == csize
    ensures UnpackFileSize(PackSizes(csize, fsize)) == fsize
  {
    var m := PackSizes(csize, fsize);
    assert TWO36 == 16 * TWO32;
    assert m == TWO36 * (m / TWO36) + m % TWO36;
    assert m % TWO36 == TWO32 * (csize - 16 * (m / TWO36)) + fsize;
    DivModUnique(m, TWO32, csize, fsize);
    DivModUnique(m % TWO36, TWO32, csize - 16 * (m / TWO36), fsize);
  }

  /** The same on the machine words the code computes with: its shifts, masks and cast. */
  lemma SizesRoundTripBits(csize: bv64, fsize: bv64)
    requires csize <= 0xFFFF_FFFF && fsize <= 0xFFFF_FFFF
    ensures (((csize << 32) | fsize) & 0xFFFF_FFFF_0000_0000) >> 32 == csize
    ensures (((csize << 32) | fsize) & 0x0000_000F_FFFF_FFFF) & 0xFFFF_FFFF == fsize
  {
  }

  // ------------------------------------------------------- NUL-terminated file text

  /** The bytes of `buf` from `at` up to the first NUL; `None` when there is none, where
      the original pointer walks past the end of the frame. */
  function CString(buf: seq<byte>, at: nat): Option<Text>
    requires at <= |buf|
    decreases |buf| - at
  {
    if at == |buf| then None
    else if buf[at] == NUL then Some([])
    else
      match CString(buf, at + 1)
      case None => None
      case Some(t) => Some([buf[at]] + t)
  }

  /** `GetFileData(buf)`: collects the text of an OFFER or BEGIN frame. */
  method GetFileText(buf: seq<byte>) returns (r: Option<Text>)
    requires |buf| >= FILE_HEADER_SIZE
    ensures r == CString(buf, FILE_HEADER_SIZE)
  {
    var c := FILE_HEADER_SIZE;
    var text: Text := [];
    assert forall t: Text :: [] + t == t;
    while c < |buf| && buf[c] != NUL
      invariant FILE_HEADER_SIZE <= c <= |buf|
      invariant CString(buf, FILE_HEADER_SIZE) ==
                match CString(buf, c) case None => None case Some(t) => Some(text + t)
    {
      ghost var before := text;
      text := text + [buf[c]];
      c := c + 1;
      assert forall t: Text :: before + ([buf[c - 1]] + t) == text + t;
    }
    assert text + [] == text;
    r := if c < |buf| then Some(text) else None;
  }

  lemma {:induction false} CStringMeaning(buf: seq<byte>, at: nat, text: Text)
    requires at <= |buf| && NUL !in text
    requires at + |text| < |buf|
    requires buf[at..at + |text|] == text && buf[at + |text|] == NUL
    ensures CString(buf, at) == Some(text)
    decreases |text|
  {
    if text != [] {
      assert buf[at] == buf[at..at + |text|][0] == text[0];
      assert text[0] in text;
      assert buf[at + 1..at + 1 + |text[1..]|] == text[1..];
      CStringMeaning(buf, at + 1, text[1..]);
      assert text == [text[0]] + text[1..];
    }
  }

  lemma {:induction false} CStringOverrun(buf: seq<byte>, at: nat)
    requires at <= |buf| && forall i :: at <= i < |buf| ==> buf[i] != NUL
    ensures CString(buf, at) == None
    decreases |buf| - at
  {
    if at < |buf| {
      CStringOverrun(buf, at + 1);
    }
  }

  /** A text without NUL survives the frame exactly when it is shorter than the 117 bytes
      after the header; otherwise its terminator is cut off and the reader overruns. */
  lemma FileTextExact(h: FileHeader, text: Text)
    requires NUL !in text
    ensures var f := FileFrame(h, text + [NUL], FILE_TEXT_SIZE);
            CString(f, FILE_HEADER_SIZE) == if |text| < FILE_TEXT_SIZE then Some(text) else None
  {
    hide FileHeaderBytes, Fit;
    var f := FileFrame(h, text + [NUL], FILE_TEXT_SIZE);
    assert forall i :: FILE_HEADER_SIZE <= i < |f| ==>
      f[i] == Fit(text + [NUL], FILE_TEXT_SIZE)[i - FILE_HEADER_SIZE];
    if |text| < FILE_TEXT_SIZE {
      assert f[FILE_HEADER_SIZE..FILE_HEADER_SIZE + |text|] == text;
      CStringMeaning(f, FILE_HEADER_SIZE, text);
    } else {
      forall i | FILE_HEADER_SIZE <= i < |f|
        ensures f[i] != NUL
      {
        assert f[i] == text[i - FILE_HEADER_SIZE];
        assert text[i - FILE_HEADER_SIZE] in text;
      }
      CStringOverrun(f, FILE_HEADER_SIZE);
    }
  }

  // ------------------------------------------------------------------- frame writers

  /** `ConstructChatMessageFromInput` followed by `WriteMessageFrame`. */
  function ChatFrame(text: Text, timestamp: u64): (r: seq<byte>)
    ensures |r| == FRAME_SIZE
  {
    MsgFrame(MsgHeader(Min(|text|, PAYLOAD_SIZE), timestamp, CHATMESSAGE), Fit(text, PAYLOAD_SIZE))
  }

  function ServiceAndName(service: Text, name: Text): Text {
    service + [BAR] + name
  }

  /** `SendFileOffer`. */
  function OfferFrame(key: u32, fsize: u32, service: Text, name: Text, timestamp: u64): (r: seq<byte>)
    ensures |r| == FRAME_SIZE
  {
    FileFrame(FileHeader(key, timestamp, FILE_OFFER, fsize), ServiceAndName(service, name) + [NUL], FILE_TEXT_SIZE)
  }

  /** `SendFileControl`. */
  function VerdictFrame(key: u32, accept: bool, timestamp: u64): (r: seq<byte>)
    ensures |r| == FRAME_SIZE
  {
    FileFrame(FileHeader(key, timestamp, if accept then FILE_ACCEPT else FILE_REJECT, 0), [], FILE_TEXT_SIZE)
  }

  /** First frame of a transfer: sizes in the metadata, "service|name" in the text. */
  function BeginFrame(key: u32, csize: u32, fsize: u32, service: Text, name: Text, timestamp: u64): (r: seq<byte>)
    ensures |r| == FRAME_SIZE
  {
    FileFrame(FileHeader(key, timestamp, FILE_TRANSFER_BEGIN, PackSizes(csize, fsize)),
              ServiceAndName(service, name) + [NUL], FILE_TEXT_SIZE)
  }

  /** A data frame of a transfer; its payload is a whole chunk. */
  datatype DataFrame = DataFrame(timestamp: u64, last: bool, payload: seq<byte>)

  function DataHeader(key: u32, f: DataFrame): FileHeader {
    FileHeader(key, f.timestamp, if f.last then FILE_TRANSFER_END else FILE_TRANSFER_CHUNK_SENT, 0)
  }

  function DataFrameBytes(key: u32, f: DataFrame): (r: seq<byte>)
    ensures |r| == FILE_HEADER_SIZE + |f.payload|
  {
    FileFrame(DataHeader(key, f), f.payload, |f.payload|)
  }

  function EncodedFrames(key: u32, fs: seq<DataFrame>): (r: seq<seq<byte>>)
    ensures |r| == |fs|
    ensures forall i :: 0 <= i < |fs| ==> r[i] == DataFrameBytes(key, fs[i])
  {
    seq(|fs|, i requires 0 <= i < |fs| => DataFrameBytes(key, fs[i]))
  }

  function DataBytes(key: u32, fs: seq<DataFrame>): seq<byte> {
    Flatten(EncodedFrames(key, fs))
  }

  // -------------------------------------------------------------------- byte layout

  /** Where everything lies in a file frame, the two halves of the metadata included. */
  lemma FileFrameLayout(h: FileHeader, payload: seq<byte>, n: nat)
    ensures var f := FileFrame(h, payload, n);
            && f[0..4] == ToBytes(h.correlationKey, 4) && f[4..12] == ToBytes(h.timestamp, 8) && f[12] == h.msgType
            && f[13..17] == ToBytes(h.metadata % TWO32, 4) && f[17..21] == ToBytes(h.metadata / TWO32, 4)
            && f[21..] == Fit(payload, n)
  {
    hide ToBytes, Fit;
    var low, high := h.metadata % TWO32, h.metadata / TWO32;
    Slices(ToBytes(h.correlationKey, 4), ToBytes(h.timestamp, 8), h.msgType, ToBytes(h.metadata, 8), Fit(payload, n));
    PowersOf256();
    ToBytesHalves(low, high, 4, 4);
    assert h.metadata == high * Pow256(4) + low;
    var f := FileFrame(h, payload, n);
    assert f[13..17] == f[13..21][..4] && f[17..21] == f[13..21][4..];
  }

  /** A BEGIN frame as it goes out: the file size lies at 13 and the chunk size at 17. */
  lemma BeginOnTheWire(key: u32, csize: u32, fsize: u32, service: Text, name: Text, timestamp: u64)
    ensures var f := BeginFrame(key, csize, fsize, service, name, timestamp);
            && f[0..4] == ToBytes(key, 4) && f[4..12] == ToBytes(timestamp, 8) && f[12] == 6
            && f[13..17] == ToBytes(fsize, 4) && f[17..21] == ToBytes(csize, 4)
            && f[21..] == Fit(service + [124] + name + [0], 117)
  {
    hide ToBytes, FileFrame, Fit, PackSizes;
    LowBits(csize, fsize);
    FileFrameLayout(FileHeader(key, timestamp, FILE_TRANSFER_BEGIN, PackSizes(csize, fsize)),
                    ServiceAndName(service, name) + [NUL], FILE_TEXT_SIZE);
  }

  /** An OFFER frame. */
  lemma OfferOnTheWire(key: u32, fsize: u32, service: Text, name: Text, timestamp: u64)
    ensures var f := OfferFrame(key, fsize, service, name, timestamp);
            && f[0..4] == ToBytes(key, 4) && f[4..12] == ToBytes(timestamp, 8) && f[12] == 9
            && f[13..17] == ToBytes(fsize, 4) && f[17..21] == ToBytes(0, 4)
            && f[21..] == Fit(service + [124] + name + [0], 117)
  {
    hide ToBytes, FileFrame, Fit;
    FileFrameLayout(FileHeader(key, timestamp, FILE_OFFER, fsize), ServiceAndName(service, name) + [NUL], FILE_TEXT_SIZE);
  }

  /** An ACCEPT or REJECT frame. */
  lemma VerdictOnTheWire(key: u32, accept: bool, timestamp: u64)
    ensures var f := VerdictFrame(key, accept, timestamp);
            && f[0..4] == ToBytes(key, 4) && f[4..12] == ToBytes(timestamp, 8) && f[12] == (if accept then 10 else 11)
            && f[21..] == Zeros(117)
  {
    hide ToBytes, FileFrame;
    FileFrameLayout(FileHeader(key, timestamp, if accept then FILE_ACCEPT else FILE_REJECT, 0), [], FILE_TEXT_SIZE);
    assert Fit([], 117) == Zeros(117);
  }

  lemma LowBits(csize: u32, fsize: u32)
    ensures PackSizes(csize, fsize) % TWO32 == fsize && PackSizes(csize, fsize) / TWO32 == csize
  {
    DivModUnique(PackSizes(csize, fsize), TWO32, csize, fsize);
  }

  lemma DataOnTheWire(key: u32, f: DataFrame)
    ensures var b := DataFrameBytes(key, f);
            && b[0..4] == ToBytes(key, 4) && b[4..12] == ToBytes(f.timestamp, 8) && b[12] == (if f.last then 8 else 7)
            && b[21..] == f.payload
  {
    hide ToBytes, FileFrame;
    FileFrameLayout(DataHeader(key, f), f.payload, |f.payload|);
    assert Fit(f.payload, |f.payload|) == f.payload;
  }

  /** A chat frame as it goes out. */
  lemma ChatOnTheWire(text: Text, timestamp: u64)
    ensures var f := ChatFrame(text, timestamp);
            && f[0] == (if |text| < 128 then |text| else 128) && f[1..9] == ToBytes(timestamp, 8) && f[9] == 5
            && f[10..] == Fit(text, 128)
  {
    hide ToBytes, Fit;
  }
}
