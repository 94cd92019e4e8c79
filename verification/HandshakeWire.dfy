/** The handshake in bytes: its three frames, what a session makes of them, and that the steps
    of the handshake model are what the sessions do. */
module HandshakeWire {
  import opened Bytes
  import opened Wire
  import opened Tables
  import Session
  import Handshake

  /** HELLO and CONFIRM carry an all-zero payload and its full length. */
  function EmptyFrame(msgType: byte, timestamp: u64): (r: seq<byte>)
    ensures |r| == FRAME_SIZE
  {
    MsgFrame(MsgHeader(128, timestamp, msgType), Zeros(PAYLOAD_SIZE))
  }

  /** HELLOBACK carries the name and its length; the rest of the payload was never set. */
  function HelloBackFrame(name: Name, unset: seq<byte>, timestamp: u64): (r: seq<byte>)
    requires |name| + |unset| == PAYLOAD_SIZE
    ensures |r| == FRAME_SIZE
  {
    MsgFrame(MsgHeader(|name|, timestamp, HELLOBACK), name + unset)
  }

  lemma FrameFields(h: MsgHeader, payload: seq<byte>)
    requires |payload| == PAYLOAD_SIZE
    ensures var f := MsgFrame(h, payload);
            && f[0] == h.dataLen && f[9] == h.msgType && f[16] == payload[6]
            && f[MSG_HEADER_SIZE..] == payload
  {
    hide ToBytes;
  }

  /** A HELLO is answered exactly when byte 6 of its payload is zero, which is where the
      second, native-layout check of the type looks. */
  lemma HelloAnsweredExactly(s: Session.Session, payload: seq<byte>, timestamp: u64, present: set<Name>)
    requires s.state == Session.Unprepared && |payload| == PAYLOAD_SIZE
    ensures var t := Session.OnFrame(s, MsgFrame(MsgHeader(128, timestamp, HELLO), payload), present);
            t == if payload[6] == 0 then s.Did(Session.ReplyHelloBack).ArmFrame() else s
  {
    hide MsgFrame;
    FrameFields(MsgHeader(128, timestamp, HELLO), payload);
  }

  lemma EmptyFramesUnderstood(s: Session.Session, timestamp: u64, present: set<Name>)
    requires s.state == Session.Unprepared
    ensures Session.OnFrame(s, EmptyFrame(HELLO, timestamp), present) == s.Did(Session.ReplyHelloBack).ArmFrame()
    ensures Session.OnFrame(s, EmptyFrame(CONFIRM_ESTABLISHED, timestamp), present)
         == s.(state := Session.Established).ArmFrame()
  {
    hide MsgFrame;
    FrameFields(MsgHeader(128, timestamp, HELLO), Zeros(PAYLOAD_SIZE));
    FrameFields(MsgHeader(128, timestamp, CONFIRM_ESTABLISHED), Zeros(PAYLOAD_SIZE));
  }

  /** The name arrives whatever the unset bytes are. */
  lemma HelloBackUnderstood(s: Session.Session, name: Name, unset: seq<byte>, timestamp: u64, present: set<Name>)
    requires s.state == Session.Unprepared && |name| + |unset| == PAYLOAD_SIZE
    ensures var t := Session.OnFrame(s, HelloBackFrame(name, unset, timestamp), present);
            t == if name in present
                 then s.(state := Session.Closed, pending := []).Did(Session.Identified(name, true))
                 else s.(state := Session.Established).Did(Session.Identified(name, false)).ArmFrame()
  {
    hide MsgFrame;
    var f := HelloBackFrame(name, unset, timestamp);
    FrameFields(MsgHeader(|name|, timestamp, HELLOBACK), name + unset);
    assert f[MSG_HEADER_SIZE..MSG_HEADER_SIZE + |name|] == f[MSG_HEADER_SIZE..][..|name|] == name;
  }

  // ------------------------------------------------------- the model's steps in bytes

  function SideOf(state: Session.State): Handshake.Side {
    match state
    case Unprepared => Handshake.Unprepared
    case Established => Handshake.Established
    case Closed => Handshake.Closed
  }

  function Names(t: Tables): set<Name> {
    set id | id in t.sessions :: t.sessions[id].name
  }

  /** The dialer's session, given the frame of the message, goes where the step says, replies
      exactly if the step sends a HELLOBACK, and keeps one read outstanding. */
  lemma DialerStepInBytes(w: Handshake.World, c: nat, s: Session.Session, timestamp: u64, present: set<Name>)
    requires c < |w.conns| && w.conns[c].toDialer != [] && w.conns[c].dialing == Handshake.Unprepared
    requires s.state == Session.Unprepared && s.pending == [] && !w.conns[c].toDialer[0].HelloBack?
    ensures var k, k' := w.conns[c], Handshake.DoToDialer(w, c).conns[c];
            var msgType := if k.toDialer[0] == Handshake.Hello then HELLO else CONFIRM_ESTABLISHED;
            var t := Session.OnFrame(s, EmptyFrame(msgType, timestamp), present);
            && SideOf(t.state) == k'.dialing && t.pending == [Session.FrameRead]
            && t.log == s.log + (if |k'.toAcceptor| > |k.toAcceptor| then [Session.ReplyHelloBack] else [])
  {
    hide EmptyFrame, Session.OnFrame;
    EmptyFramesUnderstood(s, timestamp, present);
    assert s.log + [] == s.log;
  }

  /** The acceptor's session, given the HELLOBACK frame and the names its manager has tabled,
      ends where the step says, and closes without a read exactly on a duplicate. */
  lemma AcceptorStepInBytes(w: Handshake.World, c: nat, s: Session.Session, unset: seq<byte>, timestamp: u64)
    requires c < |w.conns| && w.conns[c].toAcceptor != [] && w.conns[c].acceptor in w.managers
    requires w.conns[c].accepting == Handshake.Unprepared && w.conns[c].toAcceptor[0].HelloBack?
    requires s.state == Session.Unprepared && s.pending == []
    requires |w.conns[c].toAcceptor[0].name| + |unset| == PAYLOAD_SIZE
    ensures var k, k' := w.conns[c], Handshake.DoToAcceptor(w, c).conns[c];
            var t := w.managers[k.acceptor].tables;
            var u := Session.OnFrame(s, HelloBackFrame(k.toAcceptor[0].name, unset, timestamp), Names(t));
            && SideOf(u.state) == k'.accepting
            && u.log == s.log + [Session.Identified(k.toAcceptor[0].name, Present(t, k.toAcceptor[0].name))]
            && u.pending == (if Present(t, k.toAcceptor[0].name) then [] else [Session.FrameRead])
  {
    hide HelloBackFrame, Session.OnFrame;
    var k := w.conns[c];
    HelloBackUnderstood(s, k.toAcceptor[0].name, unset, timestamp, Names(w.managers[k.acceptor].tables));
  }
}
