/** Several sessions reading their byte streams at the same time and posting to one mailbox. */
module Arrival {
  import opened Bytes
  import opened Wire
  import opened Sender
  import opened Session
  import opened Stream
  import opened EndToEnd
  import opened Interference
  import App

  /** A session and the bytes on their way to it. */
  datatype Reader = Reader(session: Session, input: seq<byte>)

  datatype Host = Host(readers: seq<Reader>, mail: seq<Action>)

  /** The outstanding read of session `i` completes, if its bytes have arrived, and its handler
      posts to the mailbox. */
  function Turn(h: Host, i: nat, present: set<Text>): Host {
    if i < |h.readers| && CanRead(h.readers[i].session, h.readers[i].input) then
      var r := h.readers[i];
      var t := Deliver(r.session, r.input, present);
      Host(h.readers[i := Reader(t, r.input[ReadSize(r.session.pending[0])..])],
           h.mail + if |r.session.log| <= |t.log| then t.log[|r.session.log|..] else [])
    else h
  }

  /** The sessions take turns in the given order. */
  function Turns(h: Host, order: seq<nat>, present: set<Text>): Host
    decreases |order|
  {
    if order == [] then h else Turns(Turn(h, order[0], present), order[1..], present)
  }

  /** Every session has read what was sent to it. */
  predicate AllRead(h: Host) {
    forall i :: 0 <= i < |h.readers| ==> !CanRead(h.readers[i].session, h.readers[i].input)
  }

  // ---------------------------------------------------------------------- one session

  lemma DeliverLogs(s: Session, input: seq<byte>, present: set<Text>)
    requires CanRead(s, input)
    ensures s.log <= Deliver(s, input, present).log
  {
    hide GetFileHeader, GetMsgHeader, CString, Fit;
  }

  lemma {:induction false} ReceiveLogs(s: Session, input: seq<byte>, present: set<Text>)
    ensures s.log <= Receive(s, input, present).0.log
    decreases |input|
  {
    hide Deliver;
    if CanRead(s, input) {
      DeliverLogs(s, input, present);
      ReceiveLogs(Deliver(s, input, present), input[ReadSize(s.pending[0])..], present);
    }
  }

  /** What the session is still going to post. */
  function Outstanding(r: Reader, present: set<Text>): seq<Action> {
    var end := Receive(r.session, r.input, present).0.log;
    if |r.session.log| <= |end| then end[|r.session.log|..] else []
  }

  /** A turn posts the first part of what was outstanding, and changes nothing else about how
      the session is going to end. */
  lemma TurnPosts(r: Reader, present: set<Text>) returns (posted: seq<Action>)
    requires CanRead(r.session, r.input)
    ensures var t := Deliver(r.session, r.input, present);
            var r' := Reader(t, r.input[ReadSize(r.session.pending[0])..]);
            && |r.session.log| <= |t.log| && posted == t.log[|r.session.log|..]
            && Outstanding(r, present) == posted + Outstanding(r', present)
            && Receive(r'.session, r'.input, present) == Receive(r.session, r.input, present)
  {
    hide Deliver;
    var t := Deliver(r.session, r.input, present);
    DeliverLogs(r.session, r.input, present);
    ReceiveLogs(t, r.input[ReadSize(r.session.pending[0])..], present);
    posted := t.log[|r.session.log|..];
  }

  // --------------------------------------------------------------------- the mailbox

  lemma {:induction false} OwnAppend(key: u32, a: seq<Action>, b: seq<Action>)
    ensures Own(key, a + b) == Own(key, a) + Own(key, b)
    decreases |a|
  {
    if a == [] {
      assert a + b == b;
    } else {
      OwnAppend(key, a[1..], b);
      assert (a + b)[1..] == a[1..] + b;
    }
  }

  lemma {:induction false} OwnAll(key: u32, acts: seq<Action>)
    requires AllBelong(acts, key)
    ensures Own(key, acts) == acts
    decreases |acts|
  {
    if acts != [] {
      OwnAll(key, acts[1..]);
    }
  }

  predicate DistinctKeys(jobs: seq<Job>) {
    forall i, j :: 0 <= i < j < |jobs| ==> jobs[i].key != jobs[j].key
  }

  /** What each session has posted and is going to post is its transfer, its bytes end as they
      were going to, and every message in the mailbox comes from one of the transfers. */
  ghost predicate HostInv(h: Host, starts: seq<Session>, jobs: seq<Job>, present: set<Text>) {
    && |h.readers| == |jobs| == |starts|
    && (forall i :: 0 <= i < |jobs| ==>
          && Own(jobs[i].key, h.mail) + Outstanding(h.readers[i], present) == TransferActions(jobs[i])
          && Receive(h.readers[i].session, h.readers[i].input, present)
             == Receive(starts[i], WireBytes(jobs[i]), present))
    && (forall k :: 0 <= k < |h.mail| ==>
          IsFileEvent(h.mail[k]) && exists i :: 0 <= i < |jobs| && jobs[i].key == h.mail[k].data.correlationKey)
  }

  lemma TurnKeeps(h: Host, i: nat, starts: seq<Session>, jobs: seq<Job>, present: set<Text>)
    requires HostInv(h, starts, jobs, present) && DistinctKeys(jobs)
    ensures HostInv(Turn(h, i, present), starts, jobs, present)
  {
    hide Receive, Deliver, TransferActions, Outstanding, Own, WireBytes;
    if i < |h.readers| && CanRead(h.readers[i].session, h.readers[i].input) {
      var h' := Turn(h, i, present);
      var posted := TurnPosts(h.readers[i], present);
      assert h'.mail == h.mail + posted;
      TransferActionsBelong(jobs[i]);
      var done := Own(jobs[i].key, h.mail);
      assert forall k :: 0 <= k < |posted| ==> posted[k] == TransferActions(jobs[i])[|done| + k];
      forall j | 0 <= j < |jobs|
        ensures Own(jobs[j].key, h'.mail) + Outstanding(h'.readers[j], present) == TransferActions(jobs[j])
      {
        OwnAppend(jobs[j].key, h.mail, posted);
        if j == i {
          OwnAll(jobs[i].key, posted);
          Assoc(done, posted, Outstanding(h'.readers[i], present));
        } else {
          NothingOwn(jobs[j].key, posted);
          assert Own(jobs[j].key, h.mail) + [] == Own(jobs[j].key, h.mail);
        }
      }
    }
  }

  lemma {:induction false} TurnsKeep(h: Host, order: seq<nat>, starts: seq<Session>, jobs: seq<Job>, present: set<Text>)
    requires HostInv(h, starts, jobs, present) && DistinctKeys(jobs)
    ensures HostInv(Turns(h, order, present), starts, jobs, present)
    decreases |order|
  {
    hide HostInv, Turn;
    if order != [] {
      TurnKeeps(h, order[0], starts, jobs, present);
      TurnsKeep(Turn(h, order[0], present), order[1..], starts, jobs, present);
    }
  }

  /** Each session established and idle, with a whole transfer on its way to it. */
  function Begun(starts: seq<Session>, jobs: seq<Job>): (h: Host)
    requires |starts| == |jobs|
    ensures |h.readers| == |jobs|
  {
    Host(seq(|jobs|, i requires 0 <= i < |jobs| => Reader(starts[i], WireBytes(jobs[i]))), [])
  }

  lemma BegunInv(starts: seq<Session>, jobs: seq<Job>, present: set<Text>)
    requires |starts| == |jobs|
    requires forall i :: 0 <= i < |jobs| ==> Ready(starts[i]) && Startable(jobs[i])
    ensures HostInv(Begun(starts, jobs), starts, jobs, present)
  {
    hide Receive, TransferActions, WireBytes, Ready, Startable;
    forall i | 0 <= i < |jobs|
      ensures Own(jobs[i].key, []) + Outstanding(Reader(starts[i], WireBytes(jobs[i])), present) == TransferActions(jobs[i])
    {
      WholeStream(starts[i], jobs[i], present);
    }
  }

  /** However many sessions read at the same time, in whatever order their reads complete: once
      all is read, the mailbox mixes the whole transfers, each in its own order. */
  lemma MailMixes(starts: seq<Session>, jobs: seq<Job>, order: seq<nat>, present: set<Text>)
    requires |starts| == |jobs| && DistinctKeys(jobs)
    requires forall i :: 0 <= i < |jobs| ==> Ready(starts[i]) && Startable(jobs[i])
    requires AllRead(Turns(Begun(starts, jobs), order, present))
    ensures var h := Turns(Begun(starts, jobs), order, present);
            && Mixes(h.mail, jobs) && |h.readers| == |jobs|
            && forall i :: 0 <= i < |jobs| ==>
                 h.readers[i].input == [] && h.readers[i].session == Receive(starts[i], WireBytes(jobs[i]), present).0
  {
    hide Turns, TransferActions, WireBytes, Ready, Startable, Own, CanRead, Deliver;
    BegunInv(starts, jobs, present);
    TurnsKeep(Begun(starts, jobs), order, starts, jobs, present);
    var h := Turns(Begun(starts, jobs), order, present);
    forall i | 0 <= i < |jobs|
      ensures Own(jobs[i].key, h.mail) == TransferActions(jobs[i])
      ensures h.readers[i].input == [] && h.readers[i].session == Receive(starts[i], WireBytes(jobs[i]), present).0
    {
      WholeStream(starts[i], jobs[i], present);
      assert Receive(h.readers[i].session, h.readers[i].input, present) == (h.readers[i].session, h.readers[i].input);
      assert Outstanding(h.readers[i], present) == [];
      assert Own(jobs[i].key, h.mail) + [] == Own(jobs[i].key, h.mail);
    }
  }

  /** Many files at once, from the bytes: any number of established sessions, each sent one file
      under its own key and to its own destination, their reads completing in any order; when
      all is read and handled, every file has arrived and every session is ready for more. */
  lemma ManyFilesArrive(root: Path, a: App.AppState, starts: seq<Session>, jobs: seq<Job>, order: seq<nat>, present: set<Text>)
    requires |starts| == |jobs| && Distinct(root, jobs) && !a.failed
    requires forall i :: 0 <= i < |jobs| ==> Ready(starts[i]) && Complete(root, a, jobs[i])
    requires AllRead(Turns(Begun(starts, jobs), order, present))
    ensures var h := Turns(Begun(starts, jobs), order, present);
            var b := App.HandleAll(root, a, h.mail);
            && !b.failed && |h.readers| == |jobs|
            && forall i :: 0 <= i < |jobs| ==>
                 Ready(h.readers[i].session) && App.Contents(b, Destination(root, jobs[i])) == jobs[i].content
  {
    hide Turns, Receive, App.HandleAll, Mixes, WireBytes, Work, App.PathFor, AllRead;
    MailMixes(starts, jobs, order, present);
    var h := Turns(Begun(starts, jobs), order, present);
    AllArriveIntact(root, a, h.mail, jobs);
    forall i | 0 <= i < |jobs|
      ensures Ready(h.readers[i].session)
    {
      WholeStream(starts[i], jobs[i], present);
      SenderCompletes(jobs[i]);
    }
  }

  // ------------------------------------------------------------------ orders that exist

  lemma {:induction false} TurnsAppend(h: Host, a: seq<nat>, b: seq<nat>, present: set<Text>)
    ensures Turns(h, a + b, present) == Turns(Turns(h, a, present), b, present)
    decreases |a|
  {
    hide Turn;
    if a == [] {
      assert a + b == b;
    } else {
      TurnsAppend(Turn(h, a[0], present), a[1..], b, present);
      assert (a + b)[1..] == a[1..] + b;
    }
  }

  lemma {:induction false} ReceiveStops(s: Session, input: seq<byte>, present: set<Text>)
    ensures !CanRead(Receive(s, input, present).0, Receive(s, input, present).1)
    decreases |input|
  {
    hide Deliver;
    if CanRead(s, input) {
      ReceiveStops(Deliver(s, input, present), input[ReadSize(s.pending[0])..], present);
    }
  }

  /** The host once session `i` has read all it can. */
  function Drained(h: Host, i: nat, present: set<Text>): Host
    requires i < |h.readers|
  {
    var (s, rest) := Receive(h.readers[i].session, h.readers[i].input, present);
    Host(h.readers[i := Reader(s, rest)], h.mail + Outstanding(h.readers[i], present))
  }

  /** Turns of one session bring it there. */
  lemma {:induction false} Drain(h: Host, i: nat, present: set<Text>) returns (order: seq<nat>)
    requires i < |h.readers|
    ensures Turns(h, order, present) == Drained(h, i, present)
    decreases |h.readers[i].input|
  {
    hide Deliver;
    var r := h.readers[i];
    if CanRead(r.session, r.input) {
      var posted := TurnPosts(r, present);
      var h' := Turn(h, i, present);
      var rest := Drain(h', i, present);
      order := [i] + rest;
      assert order[1..] == rest;
      Assoc(h.mail, posted, Outstanding(h'.readers[i], present));
    } else {
      order := [];
      assert Outstanding(r, present) == [];
      assert h.readers[i := r] == h.readers;
      assert h.mail + [] == h.mail;
    }
  }

  /** From every state there is an order of turns after which everything is read. */
  lemma {:induction false} CanAllBeRead(h: Host, k: nat, present: set<Text>) returns (order: seq<nat>)
    requires k <= |h.readers|
    requires forall i :: 0 <= i < k ==> !CanRead(h.readers[i].session, h.readers[i].input)
    ensures AllRead(Turns(h, order, present))
    decreases |h.readers| - k
  {
    hide CanRead, Receive, Outstanding;
    if k == |h.readers| {
      order := [];
    } else {
      ReceiveStops(h.readers[k].session, h.readers[k].input, present);
      var first := Drain(h, k, present);
      var rest := CanAllBeRead(Turns(h, first, present), k + 1, present);
      TurnsAppend(h, first, rest, present);
      order := first + rest;
    }
  }

  // ------------------------------------------------------------------------- equal keys

  /** The first turn of a session with a transfer on its way posts the BEGIN. */
  lemma FirstTurn(s: Session, job: Job, present: set<Text>)
    requires Ready(s) && Startable(job)
    ensures CanRead(s, WireBytes(job))
    ensures Deliver(s, WireBytes(job), present).log == s.log + [TransferActions(job)[0]]
  {
    hide OnStandard, ChunkSize, Work;
    assert WireBytes(job)[..FRAME_SIZE] == job.Begin();
    BeginUnderstood(s, job);
  }

  /** One turn of session `i`, whose transfer has not been touched yet. */
  lemma BeginTurn(h: Host, i: nat, job: Job, present: set<Text>)
    requires i < |h.readers| && h.readers[i].input == WireBytes(job) && Ready(h.readers[i].session) && Startable(job)
    ensures var h' := Turn(h, i, present);
            && |h'.readers| == |h.readers| && h'.mail == h.mail + [TransferActions(job)[0]]
            && (forall j :: 0 <= j < |h.readers| && j != i ==> h'.readers[j] == h.readers[j])
            && Outstanding(h'.readers[i], present) == TransferActions(job)[1..]
            && Receive(h'.readers[i].session, h'.readers[i].input, present)
               == Receive(h.readers[i].session, h.readers[i].input, present)
  {
    hide Deliver, Receive, CanRead, WireBytes, TransferActions, Ready, Startable;
    var r := h.readers[i];
    FirstTurn(r.session, job, present);
    WholeStream(r.session, job, present);
    var posted := TurnPosts(r, present);
    assert posted == [TransferActions(job)[0]];
    assert Outstanding(r, present) == TransferActions(job);
  }

  /** Two streams whose transfers have the same key: an order of reads that posts the messages in
      the order that fails. */
  lemma SameKeyFailsFromBytes(starts: seq<Session>, x: Job, y: Job, present: set<Text>) returns (order: seq<nat>)
    requires |starts| == 2 && Ready(starts[0]) && Ready(starts[1]) && Startable(x) && Startable(y)
    ensures AllRead(Turns(Begun(starts, [x, y]), order, present))
    ensures Turns(Begun(starts, [x, y]), order, present).mail == FailingOrder(x, y)
  {
    hide Turn, Receive, CanRead, Outstanding, WireBytes, TransferActions, Ready, Startable;
    var h0 := Begun(starts, [x, y]);
    BeginTurn(h0, 0, x, present);
    var h1 := Turn(h0, 0, present);
    BeginTurn(h1, 1, y, present);
    var h2 := Turn(h1, 1, present);
    assert Turns(h0, [0, 1], present) == h2 by { TwoTurns(h0, 0, 1, present); }
    var first := Drain(h2, 0, present);
    var h3 := Turns(h2, first, present);
    var second := Drain(h3, 1, present);
    TurnsAppend(h0, [0, 1], first, present);
    TurnsAppend(h0, [0, 1] + first, second, present);
    order := [0, 1] + first + second;
    var h4 := Turns(h0, order, present);
    ReceiveStops(h2.readers[0].session, h2.readers[0].input, present);
    ReceiveStops(h3.readers[1].session, h3.readers[1].input, present);
    var tx, ty := TransferActions(x), TransferActions(y);
    assert h2.mail == [tx[0], ty[0]];
    assert h4.mail == h2.mail + tx[1..] + ty[1..];
    Assoc(h2.mail, tx[1..], ty[1..]);
  }

  lemma TwoTurns(h: Host, i: nat, j: nat, present: set<Text>)
    ensures Turns(h, [i, j], present) == Turn(Turn(h, i, present), j, present)
  {
    hide Turn;
    var h' := Turn(h, i, present);
    assert [i, j][1..] == [j] && [j][1..] == [];
    assert Turns(h', [j], present) == Turns(Turn(h', j, present), [], present);
  }

  /** From the bytes, exactly: two files to different destinations, sent on two sessions, arrive
      in every order in which the reads may complete if and only if their keys differ. */
  lemma IntactFromBytesExactly(root: Path, a: App.AppState, starts: seq<Session>, x: Job, y: Job, present: set<Text>)
    requires |starts| == 2 && Ready(starts[0]) && Ready(starts[1])
    requires Complete(root, a, x) && Complete(root, a, y) && Destination(root, x) != Destination(root, y)
    ensures (forall order :: AllRead(Turns(Begun(starts, [x, y]), order, present)) ==>
               BothIntact(root, a, Turns(Begun(starts, [x, y]), order, present).mail, x, y))
        <==> x.key != y.key
  {
    hide Turns, App.HandleAll, AllRead, WireBytes, App.PathFor, FailingOrder, Ready;
    if x.key != y.key {
      forall order: seq<nat> | AllRead(Turns(Begun(starts, [x, y]), order, present))
        ensures BothIntact(root, a, Turns(Begun(starts, [x, y]), order, present).mail, x, y)
      {
        ManyFilesArrive(root, a, starts, [x, y], order, present);
        assert [x, y][0] == x && [x, y][1] == y;
      }
    } else {
      SameKeyFails(root, a, x, y);
      var order := SameKeyFailsFromBytes(starts, x, y, present);
      assert !BothIntact(root, a, Turns(Begun(starts, [x, y]), order, present).mail, x, y);
    }
  }
}
