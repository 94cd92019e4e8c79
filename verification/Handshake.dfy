/** Connection establishment among any number of peers: dialling, accepting, and the
    HELLO / HELLOBACK / CONFIRM_ESTABLISHED exchange, as interleaved steps. */
module Handshake {
  import opened Bytes
  import opened Tables

  /** One side of a connection: not yet up, abandoned by its owner, or a session's state. */
  datatype Side = Waiting | Abandoned | Unprepared | Established | Closed

  datatype Msg = Hello | HelloBack(name: Name) | Confirm

  /** A connection attempt with the numbers of the two issues it got its ids from, its two sides and the frames in flight. */
  datatype Conn = Conn(
    dialer: Name, acceptor: Name, dialNumber: nat, acceptNumber: nat,
    dialing: Side, accepting: Side, toDialer: seq<Msg>, toAcceptor: seq<Msg>)

  /** Events worth remembering, in the order in which they happened. */
  datatype Happening =
    | AcceptorTabled(conn: nat, name: Name)
    | DialerEstablished(conn: nat)

  datatype World = World(managers: map<Name, Manager>, conns: seq<Conn>, history: seq<Happening>)

  function Init(peers: set<Name>): World {
    World(map p | p in peers :: FRESH_MANAGER, [], [])
  }

  datatype Step =
    | Dial(p: Name, q: Name)
    | ConnectDone(c: nat, ok: bool)
    | AcceptDone(c: nat)
    | ToDialer(c: nat)
    | ToAcceptor(c: nat)
    | RemoveAt(p: Name, name: Name)
    | Break(c: nat)

  // ------------------------------------------------------------------------- steps

  /** A resolved peer is dialled if it is not a node yet, is larger, and has no session. */
  ghost predicate MayDial(w: World, p: Name, q: Name) {
    && p in w.managers && q in w.managers && q !in w.managers[p].nodes
    && Less(p, q) && !Present(w.managers[p].tables, q)
  }

  /** `HandleResolvedServices` at `p` for the discovered peer `q`. */
  ghost function DoDial(w: World, p: Name, q: Name): World
    requires MayDial(w, p, q)
  {
    var m := w.managers[p];
    w.(managers := w.managers[p := m.Issue().Note(q)],
       conns := w.conns + [Conn(p, q, m.issued, 0, Waiting, Waiting, [], [])])
  }

  /** `ConnectHandler` at the dialer: table the session unless the peer already has one. */
  ghost function DoConnect(w: World, c: nat, ok: bool): World
    requires c < |w.conns| && w.conns[c].dialer in w.managers
  {
    var k := w.conns[c];
    var m := w.managers[k.dialer];
    if !ok || Present(m.tables, k.acceptor) then w.(conns := w.conns[c := k.(dialing := Abandoned)])
    else
      w.(managers := w.managers[k.dialer := m.Table(k.dialNumber % ID_SPACE, Entry(c, k.acceptor))],
         conns := w.conns[c := k.(dialing := Unprepared)])
  }

  /** The accept handler: the session takes the reserved id and sends HELLO. */
  ghost function DoAccept(w: World, c: nat): World
    requires c < |w.conns| && w.conns[c].acceptor in w.managers
  {
    var k := w.conns[c];
    var m := w.managers[k.acceptor];
    w.(managers := w.managers[k.acceptor := m.Accept()],
       conns := w.conns[c := k.(accepting := Unprepared, acceptNumber := m.reserved, toDialer := k.toDialer + [Hello])])
  }

  /** The dialer's session reads a frame: HELLO is answered with its own name, CONFIRM makes
      it established; anything else, or in another state, has no effect here. */
  ghost function DoToDialer(w: World, c: nat): World
    requires c < |w.conns| && w.conns[c].toDialer != []
  {
    var k := w.conns[c];
    var msg := k.toDialer[0];
    var read := k.(toDialer := k.toDialer[1..]);
    if k.dialing == Unprepared && msg == Hello then
      w.(conns := w.conns[c := read.(toAcceptor := k.toAcceptor + [HelloBack(k.dialer)])])
    else if k.dialing == Unprepared && msg == Confirm then
      w.(conns := w.conns[c := read.(dialing := Established)], history := w.history + [DialerEstablished(c)])
    else w.(conns := w.conns[c := read])
  }

  /** The acceptor's session reads a frame: on HELLOBACK the manager tables it and confirms,
      or closes it as a duplicate (`HandleSessionIdentification`). */
  ghost function DoToAcceptor(w: World, c: nat): World
    requires c < |w.conns| && w.conns[c].toAcceptor != [] && w.conns[c].acceptor in w.managers
  {
    var k := w.conns[c];
    var msg := k.toAcceptor[0];
    var m := w.managers[k.acceptor];
    var read := k.(toAcceptor := k.toAcceptor[1..]);
    if k.accepting != Unprepared || !msg.HelloBack? then w.(conns := w.conns[c := read])
    else if Present(m.tables, msg.name) then w.(conns := w.conns[c := read.(accepting := Closed)])
    else
      World(w.managers[k.acceptor := m.Table(k.acceptNumber % ID_SPACE, Entry(c, msg.name)).Note(msg.name)],
            w.conns[c := read.(accepting := Established, toDialer := k.toDialer + [Confirm])],
            w.history + [AcceptorTabled(c, msg.name)])
  }

  /** One step of the network; a step that is not enabled changes nothing. A service that
      deregisters is forgotten as a node, and its session taken out of the tables only: the outstanding read keeps the object alive. */
  ghost function Next(w: World, step: Step): World {
    match step
    case Dial(p, q) =>
      if MayDial(w, p, q) then DoDial(w, p, q)
      else if p in w.managers then w.(managers := w.managers[p := w.managers[p].Note(q)])
      else w
    case ConnectDone(c, ok) =>
      if c < |w.conns| && w.conns[c].dialer in w.managers && w.conns[c].dialing == Waiting then DoConnect(w, c, ok) else w
    case AcceptDone(c) =>
      if c < |w.conns| && w.conns[c].acceptor in w.managers && w.conns[c].accepting == Waiting then DoAccept(w, c) else w
    case ToDialer(c) => if c < |w.conns| && w.conns[c].toDialer != [] then DoToDialer(w, c) else w
    case ToAcceptor(c) =>
      if c < |w.conns| && w.conns[c].toAcceptor != [] && w.conns[c].acceptor in w.managers then DoToAcceptor(w, c) else w
    case RemoveAt(p, name) =>
      if p in w.managers then
        w.(managers := w.managers[p := w.managers[p].Forget(name)])
      else w
    case Break(c) =>
      if c < |w.conns| then w.(conns := w.conns[c := w.conns[c].(toDialer := [], toAcceptor := [])]) else w
  }

  ghost function Run(w: World, steps: seq<Step>): World
    decreases |steps|
  {
    if steps == [] then w else Next(Run(w, steps[..|steps| - 1]), steps[|steps| - 1])
  }

  // --------------------------------------------------------------------- invariants

  /** The conversation on one connection: only the smaller name dialled it, the dialer gives
      its own name, and whatever confirms it, or has been confirmed by it, comes after the
      acceptor established and tabled it. */
  predicate ConnInv(k: Conn, c: nat, history: seq<Happening>) {
    && Less(k.dialer, k.acceptor)
    && (forall i :: 0 <= i < |k.toAcceptor| && k.toAcceptor[i].HelloBack? ==> k.toAcceptor[i].name == k.dialer)
    && (k.dialing == Established || Confirm in k.toDialer ==>
          k.accepting == Established && AcceptorTabled(c, k.dialer) in history)
  }

  predicate ConnsInv(w: World) {
    forall c :: 0 <= c < |w.conns| ==>
      && w.conns[c].dialer in w.managers && w.conns[c].acceptor in w.managers
      && ConnInv(w.conns[c], c, w.history)
  }

  /** The number of the issue at `p` that the connection got its id from. */
  function NumberAt(k: Conn, p: Name): Option<nat> {
    if k.dialer == p then Some(k.dialNumber)
    else if k.acceptor == p && k.accepting != Waiting then Some(k.acceptNumber)
    else None
  }

  /** The id by which manager `p` knows the connection. */
  function IdAt(k: Conn, p: Name): Option<nat> {
    match NumberAt(k, p)
    case None => None
    case Some(n) => Some(n % ID_SPACE)
  }

  /** Every number was issued once: to one connection, or to the accept in progress. Who never
      dialled has reserved the last number, who never accepted still the first. */
  predicate NumbersInv(w: World, p: Name)
    requires p in w.managers
  {
    var m := w.managers[p];
    && m.reserved < m.issued
    && (forall c :: 0 <= c < |w.conns| && NumberAt(w.conns[c], p).Some? ==>
          NumberAt(w.conns[c], p).value < m.issued && NumberAt(w.conns[c], p).value != m.reserved)
    && (forall c, d :: 0 <= c < d < |w.conns| && NumberAt(w.conns[c], p).Some? && NumberAt(w.conns[d], p).Some? ==>
          NumberAt(w.conns[c], p) != NumberAt(w.conns[d], p))
    && ((forall c :: 0 <= c < |w.conns| ==> w.conns[c].dialer != p) ==> m.reserved + 1 == m.issued)
    && ((forall c :: 0 <= c < |w.conns| ==> w.conns[c].acceptor != p) ==> m.reserved == 0)
  }

  /** No two connections of `p` have the same id. */
  predicate IdsDiffer(w: World, p: Name) {
    forall c, d :: 0 <= c < d < |w.conns| && IdAt(w.conns[c], p).Some? && IdAt(w.conns[d], p).Some? ==>
      IdAt(w.conns[c], p) != IdAt(w.conns[d], p)
  }

  /** The side of `p` has got as far as the table. */
  predicate Tabled(k: Conn, p: Name) {
    || (k.dialer == p && k.dialing in {Unprepared, Established})
    || (k.acceptor == p && k.accepting == Established)
  }

  /** Every table entry is a session of that peer, under its own id and the other's name. */
  predicate EntriesInv(w: World, p: Name)
    requires p in w.managers
  {
    var t := w.managers[p].tables;
    forall id :: id in t.sessions ==>
      var e := t.sessions[id];
      && e.conn < |w.conns| && IdAt(w.conns[e.conn], p) == Some(id) && Tabled(w.conns[e.conn], p)
      && e.name == (if w.conns[e.conn].dialer == p then w.conns[e.conn].acceptor else w.conns[e.conn].dialer)
  }

  predicate ManagerInv(w: World, p: Name)
    requires p in w.managers
  {
    NumbersInv(w, p) && (IdsDiffer(w, p) ==> Agree(w.managers[p].tables) && EntriesInv(w, p))
  }

  /** Who is established at the dialing side was tabled by the acceptor before that. */
  predicate HistoryInv(w: World) {
    && (forall j :: 0 <= j < |w.history| && w.history[j].DialerEstablished? ==>
          && w.history[j].conn < |w.conns|
          && AcceptorTabled(w.history[j].conn, w.conns[w.history[j].conn].dialer) in w.history[..j])
    && (forall c :: 0 <= c < |w.conns| && w.conns[c].dialing == Established ==> DialerEstablished(c) in w.history)
  }

  /** The tables of a manager are in order as long as it has used no id twice, whatever the
      others do. */
  predicate Inv(w: World) {
    ConnsInv(w) && HistoryInv(w) && forall p :: p in w.managers ==> ManagerInv(w, p)
  }

  // ------------------------------------------------- what one step does to one manager

  /** The connection looks to manager `p` as before: same ends, same id, tabled if it was. */
  predicate SameFor(k: Conn, k': Conn, p: Name) {
    && k'.dialer == k.dialer && k'.acceptor == k.acceptor && NumberAt(k', p) == NumberAt(k, p)
    && (Tabled(k, p) ==> Tabled(k', p))
  }

  /** Every connection looks to `p` as before, and its counters are the same. */
  lemma NumbersKept(w: World, v: World, p: Name)
    requires p in w.managers && p in v.managers && NumbersInv(w, p) && |v.conns| == |w.conns|
    requires v.managers[p].issued == w.managers[p].issued && v.managers[p].reserved == w.managers[p].reserved
    requires forall d :: 0 <= d < |w.conns| ==> SameFor(w.conns[d], v.conns[d], p)
    ensures NumbersInv(v, p) && (IdsDiffer(v, p) <==> IdsDiffer(w, p))
  {
    hide Tabled, NumberAt;
  }

  lemma ManagerUnaffected(w: World, v: World, p: Name, c: nat, k': Conn)
    requires p in w.managers && ManagerInv(w, p) && p in v.managers && v.managers[p] == w.managers[p]
    requires c < |w.conns| && v.conns == w.conns[c := k'] && SameFor(w.conns[c], k', p)
    ensures ManagerInv(v, p)
  {
    hide Agree, Tabled, NumberAt, NumbersInv, IdsDiffer;
    forall d | 0 <= d < |w.conns|
      ensures SameFor(w.conns[d], v.conns[d], p)
    {
    }
    NumbersKept(w, v, p);
  }

  /** A session is tabled at `p`: unless ids repeat, its id cannot be in the table yet. */
  lemma ManagerTables(w: World, v: World, p: Name, c: nat, k': Conn, id: nat, name: Name)
    requires p in w.managers && ManagerInv(w, p)
    requires c < |w.conns| && v.conns == w.conns[c := k'] && SameFor(w.conns[c], k', p)
    requires IdAt(k', p) == Some(id) && !Tabled(w.conns[c], p) && Tabled(k', p)
    requires name == (if k'.dialer == p then k'.acceptor else k'.dialer)
    requires !Present(w.managers[p].tables, name) && p in v.managers
    requires v.managers[p] == w.managers[p].Table(id, Entry(c, name)).(nodes := v.managers[p].nodes)
    ensures ManagerInv(v, p)
  {
    hide Agree, Tabled, NumberAt, Present, NumbersInv, IdsDiffer;
    forall d | 0 <= d < |w.conns|
      ensures SameFor(w.conns[d], v.conns[d], p)
    {
    }
    NumbersKept(w, v, p);
    if IdsDiffer(w, p) {
      IdIsFree(w, p, c, id);
      InsertAgreesExactly(w.managers[p].tables, id, Entry(c, name));
    }
  }

  lemma IdIsFree(w: World, p: Name, c: nat, id: nat)
    requires p in w.managers && IdsDiffer(w, p) && EntriesInv(w, p) && c < |w.conns|
    requires IdAt(w.conns[c], p) == Some(id) && !Tabled(w.conns[c], p)
    ensures id !in w.managers[p].tables.sessions
  {
    hide Tabled, IdAt;
  }

  // ------------------------------------------- what one step does to the connections

  /** One connection changes and keeps its own invariant; history only grows. */
  lemma ConnsKeep(w: World, v: World, c: nat, k': Conn)
    requires ConnsInv(w) && c < |w.conns| && v.conns == w.conns[c := k'] && v.managers.Keys == w.managers.Keys
    requires w.history <= v.history && ConnInv(k', c, v.history)
    requires k'.dialer == w.conns[c].dialer && k'.acceptor == w.conns[c].acceptor
    ensures ConnsInv(v)
  {
    forall d | 0 <= d < |v.conns|
      ensures v.conns[d].dialer in v.managers && v.conns[d].acceptor in v.managers && ConnInv(v.conns[d], d, v.history)
    {
      if d != c {
        assert ConnInv(w.conns[d], d, w.history);
      }
    }
  }

  /** Nothing new for the dialers. */
  lemma HistoryKeeps(w: World, v: World)
    requires HistoryInv(w) && |w.conns| <= |v.conns| && w.history <= v.history
    requires forall j :: |w.history| <= j < |v.history| ==> !v.history[j].DialerEstablished?
    requires forall c :: 0 <= c < |w.conns| ==> v.conns[c].dialer == w.conns[c].dialer
    requires forall c :: 0 <= c < |v.conns| && v.conns[c].dialing == Established ==>
               c < |w.conns| && w.conns[c].dialing == Established
    ensures HistoryInv(v)
  {
    assert forall j :: 0 <= j < |w.history| ==> v.history[..j] == w.history[..j] && v.history[j] == w.history[j];
  }

  // ------------------------------------------------------------------ preservation

  lemma DialKeeps(w: World, p: Name, q: Name)
    requires Inv(w) && MayDial(w, p, q)
    ensures Inv(DoDial(w, p, q))
  {
    hide ConnInv, ManagerInv, Present, Less;
    var v := DoDial(w, p, q);
    assert forall c :: 0 <= c < |w.conns| ==> v.conns[c] == w.conns[c];
    HistoryKeeps(w, v);
    DialedConnInv(w, p, q);
    forall r | r in v.managers
      ensures ManagerInv(v, r)
    {
      DialKeepsManager(w, p, q, r);
    }
  }

  lemma DialedConnInv(w: World, p: Name, q: Name)
    requires MayDial(w, p, q)
    ensures ConnInv(DoDial(w, p, q).conns[|w.conns|], |w.conns|, w.history)
  {
  }

  lemma DialKeepsManager(w: World, p: Name, q: Name, r: Name)
    requires MayDial(w, p, q) && r in w.managers && ManagerInv(w, r)
    ensures ManagerInv(DoDial(w, p, q), r)
  {
    hide Agree, Present, Tabled, EntriesInv;
    var v := DoDial(w, p, q);
    var n := |w.conns|;
    assert forall c :: 0 <= c < n ==> v.conns[c] == w.conns[c];
    assert v.managers[r].tables == w.managers[r].tables;
    assert NumberAt(v.conns[n], r) == (if r == p then Some(w.managers[p].issued) else None);
    assert v.conns[n].dialer == p;
    assert NumbersInv(v, r);
    if IdsDiffer(v, r) {
      assert IdsDiffer(w, r);
      EntriesGrow(w, v, r);
    }
  }

  lemma EntriesGrow(w: World, v: World, r: Name)
    requires r in w.managers && r in v.managers && v.managers[r].tables == w.managers[r].tables && EntriesInv(w, r)
    requires |w.conns| <= |v.conns| && forall c :: 0 <= c < |w.conns| ==> v.conns[c] == w.conns[c]
    ensures EntriesInv(v, r)
  {
    hide Tabled, IdAt;
  }

  /** A resolved service that is not dialled is noted. */
  lemma NoteKeeps(w: World, p: Name, q: Name)
    requires Inv(w) && p in w.managers
    ensures Inv(w.(managers := w.managers[p := w.managers[p].Note(q)]))
  {
    hide ConnInv, ManagerInv;
    var v := w.(managers := w.managers[p := w.managers[p].Note(q)]);
    HistoryKeeps(w, v);
    forall r | r in v.managers
      ensures ManagerInv(v, r)
    {
      NoteKeepsManager(w, v, r);
    }
  }

  lemma NoteKeepsManager(w: World, v: World, r: Name)
    requires r in w.managers && r in v.managers && ManagerInv(w, r) && v.conns == w.conns
    requires v.managers[r] == w.managers[r].(nodes := v.managers[r].nodes)
    ensures ManagerInv(v, r)
  {
    hide Tabled, NumberAt, Agree, NumbersInv, IdsDiffer, EntriesInv;
    NumbersKept(w, v, r);
    if IdsDiffer(w, r) {
      EntriesGrow(w, v, r);
    }
  }

  lemma ConnectKeeps(w: World, c: nat, ok: bool)
    requires Inv(w) && c < |w.conns| && w.conns[c].dialing == Waiting
    ensures Inv(DoConnect(w, c, ok))
  {
    hide ConnInv, ManagerInv, Present;
    var k := w.conns[c];
    var v := DoConnect(w, c, ok);
    ExactlyOneDials(k.dialer, k.acceptor);
    HistoryKeeps(w, v);
    ConnInvFraming(k, v.conns[c], c, w.history);
    ConnsKeep(w, v, c, v.conns[c]);
    forall p | p in v.managers
      ensures ManagerInv(v, p)
    {
      if p == k.dialer && v.conns[c].dialing == Unprepared {
        ManagerTables(w, v, p, c, v.conns[c], k.dialNumber % ID_SPACE, k.acceptor);
      } else {
        ManagerUnaffected(w, v, p, c, v.conns[c]);
      }
    }
  }

  /** Neither side reaches `Established` and no frame is sent. */
  lemma ConnInvFraming(k: Conn, k': Conn, c: nat, history: seq<Happening>)
    requires ConnInv(k, c, history) && k'.dialer == k.dialer && k'.acceptor == k.acceptor
    requires k'.accepting == k.accepting && (k'.dialing == Established ==> k.dialing == Established)
    requires k'.toAcceptor == k.toAcceptor && k'.toDialer == k.toDialer
    ensures ConnInv(k', c, history)
  {
  }

  lemma AcceptKeeps(w: World, c: nat)
    requires Inv(w) && c < |w.conns| && w.conns[c].accepting == Waiting
    ensures Inv(DoAccept(w, c))
  {
    hide ManagerInv;
    var k := w.conns[c];
    var v := DoAccept(w, c);
    ExactlyOneDials(k.dialer, k.acceptor);
    HistoryKeeps(w, v);
    assert ConnInv(v.conns[c], c, v.history) by { assert ConnInv(k, c, w.history); }
    ConnsKeep(w, v, c, v.conns[c]);
    forall p | p in v.managers
      ensures ManagerInv(v, p)
    {
      if p == k.acceptor {
        AcceptKeepsManager(w, c);
      } else {
        ManagerUnaffected(w, v, p, c, v.conns[c]);
      }
    }
  }

  lemma AcceptKeepsManager(w: World, c: nat)
    requires c < |w.conns| && w.conns[c].accepting == Waiting && w.conns[c].acceptor in w.managers
    requires ManagerInv(w, w.conns[c].acceptor) && w.conns[c].dialer != w.conns[c].acceptor
    ensures ManagerInv(DoAccept(w, c), w.conns[c].acceptor)
  {
    hide Agree;
    var p := w.conns[c].acceptor;
    var v := DoAccept(w, c);
    assert forall d :: 0 <= d < |w.conns| && d != c ==> v.conns[d] == w.conns[d];
    assert NumberAt(w.conns[c], p) == None && NumberAt(v.conns[c], p) == Some(w.managers[p].reserved);
    assert NumbersInv(v, p);
    assert IdsDiffer(v, p) ==> IdsDiffer(w, p);
  }

  lemma ToDialerKeeps(w: World, c: nat)
    requires Inv(w) && c < |w.conns| && w.conns[c].toDialer != []
    ensures Inv(DoToDialer(w, c))
  {
    hide ConnInv, ManagerInv, HistoryInv;
    var v := DoToDialer(w, c);
    ReadByDialer(w, c);
    ConnsKeep(w, v, c, v.conns[c]);
    ToDialerKeepsHistory(w, c);
    forall p | p in v.managers
      ensures ManagerInv(v, p)
    {
      ManagerUnaffected(w, v, p, c, v.conns[c]);
    }
  }

  lemma ToDialerKeepsHistory(w: World, c: nat)
    requires HistoryInv(w) && c < |w.conns| && w.conns[c].toDialer != [] && ConnInv(w.conns[c], c, w.history)
    ensures HistoryInv(DoToDialer(w, c))
  {
    hide ConnInv;
    var v := DoToDialer(w, c);
    ReadByDialer(w, c);
    if v.history == w.history {
      HistoryKeeps(w, v);
    } else {
      assert forall j :: 0 <= j < |w.history| ==> v.history[..j] == w.history[..j] && v.history[j] == w.history[j];
      assert v.history[..|w.history|] == w.history && v.history[|w.history|] == DialerEstablished(c);
    }
  }

  lemma ReadByDialer(w: World, c: nat)
    requires c < |w.conns| && w.conns[c].toDialer != [] && ConnInv(w.conns[c], c, w.history)
    ensures var v := DoToDialer(w, c);
            && ConnInv(v.conns[c], c, v.history)
            && (v.history != w.history ==> AcceptorTabled(c, w.conns[c].dialer) in w.history)
  {
    var k := w.conns[c];
    assert k.toDialer[0] in k.toDialer;
    assert forall m :: m in k.toDialer[1..] ==> m in k.toDialer;
  }

  lemma ToAcceptorKeeps(w: World, c: nat)
    requires Inv(w) && c < |w.conns| && w.conns[c].toAcceptor != []
    ensures Inv(DoToAcceptor(w, c))
  {
    hide ConnInv, ManagerInv, Present;
    var k := w.conns[c];
    var v := DoToAcceptor(w, c);
    ExactlyOneDials(k.dialer, k.acceptor);
    ReadByAcceptor(w, c);
    ConnsKeep(w, v, c, v.conns[c]);
    HistoryKeeps(w, v);
    forall p | p in v.managers
      ensures ManagerInv(v, p)
    {
      if p == k.acceptor && v.history != w.history {
        ManagerTables(w, v, p, c, v.conns[c], k.acceptNumber % ID_SPACE, k.dialer);
      } else {
        ManagerUnaffected(w, v, p, c, v.conns[c]);
      }
    }
  }

  lemma ReadByAcceptor(w: World, c: nat)
    requires c < |w.conns| && w.conns[c].toAcceptor != [] && w.conns[c].acceptor in w.managers
    requires ConnInv(w.conns[c], c, w.history)
    ensures var k := w.conns[c];
            var v := DoToAcceptor(w, c);
            && ConnInv(v.conns[c], c, v.history)
            && Less(k.dialer, k.acceptor)
            && (k.toAcceptor[0].HelloBack? ==> k.toAcceptor[0].name == k.dialer)
  {
    hide Present;
    var k := w.conns[c];
    var v := DoToAcceptor(w, c);
    assert forall i :: 0 <= i < |k.toAcceptor| - 1 ==> k.toAcceptor[1..][i] == k.toAcceptor[i + 1];
    if v.history != w.history {
      assert v.history[|w.history|] == AcceptorTabled(c, k.dialer);
    }
  }

  lemma RemoveKeeps(w: World, p: Name, name: Name)
    requires Inv(w) && p in w.managers
    ensures Inv(Next(w, RemoveAt(p, name)))
  {
    hide ConnInv, ManagerInv;
    var v := Next(w, RemoveAt(p, name));
    HistoryKeeps(w, v);
    forall r | r in v.managers
      ensures ManagerInv(v, r)
    {
      RemoveKeepsManager(w, p, name, r);
    }
  }

  lemma RemoveKeepsManager(w: World, p: Name, name: Name, r: Name)
    requires p in w.managers && r in w.managers && ManagerInv(w, r)
    ensures ManagerInv(Next(w, RemoveAt(p, name)), r)
  {
    hide Agree, Tabled, NumberAt, NumbersInv, IdsDiffer;
    NumbersKept(w, Next(w, RemoveAt(p, name)), r);
    if IdsDiffer(w, r) {
      RemoveAgrees(w.managers[r].tables, name);
    }
  }

  lemma BreakKeeps(w: World, c: nat)
    requires Inv(w) && c < |w.conns|
    ensures Inv(Next(w, Break(c)))
  {
    hide ManagerInv;
    var v := Next(w, Break(c));
    HistoryKeeps(w, v);
    assert ConnInv(v.conns[c], c, v.history) by { assert ConnInv(w.conns[c], c, w.history); }
    ConnsKeep(w, v, c, v.conns[c]);
    forall p | p in v.managers
      ensures ManagerInv(v, p)
    {
      ManagerUnaffected(w, v, p, c, v.conns[c]);
    }
  }

  lemma StepKeepsInv(w: World, step: Step)
    requires Inv(w)
    ensures Inv(Next(w, step))
  {
    hide Inv;
    if Next(w, step) != w {
      match step {
        case Dial(p, q) => if MayDial(w, p, q) { DialKeeps(w, p, q); } else { NoteKeeps(w, p, q); }
        case ConnectDone(c, ok) => ConnectKeeps(w, c, ok);
        case AcceptDone(c) => AcceptKeeps(w, c);
        case ToDialer(c) => ToDialerKeeps(w, c);
        case ToAcceptor(c) => ToAcceptorKeeps(w, c);
        case RemoveAt(p, name) => RemoveKeeps(w, p, name);
        case Break(c) => BreakKeeps(w, c);
      }
    }
  }

  // ------------------------------------------------------------------------ all runs

  lemma {:induction false} EveryRunKeepsInv(peers: set<Name>, steps: seq<Step>)
    ensures Inv(Run(Init(peers), steps))
    decreases |steps|
  {
    hide Inv, Next;
    if steps == [] {
      InitInv(peers);
    } else {
      EveryRunKeepsInv(peers, steps[..|steps| - 1]);
      StepKeepsInv(Run(Init(peers), steps[..|steps| - 1]), steps[|steps| - 1]);
    }
  }

  lemma InitInv(peers: set<Name>)
    ensures Inv(Init(peers))
  {
  }

  /** Handshake agreement, over every run of any number of peers: only the smaller name of a
      pair ever dials; and a dialer is established on a connection only if the acceptor
      established that same connection and tabled it under the dialer's name before. */
  lemma HandshakeAgreement(peers: set<Name>, steps: seq<Step>, c: nat)
    requires c < |Run(Init(peers), steps).conns|
    ensures var w := Run(Init(peers), steps);
            var k := w.conns[c];
            && Less(k.dialer, k.acceptor)
            && (k.dialing == Established ==>
                  && k.accepting == Established
                  && exists i, j :: 0 <= i < j < |w.history| &&
                       w.history[i] == AcceptorTabled(c, k.dialer) && w.history[j] == DialerEstablished(c))
  {
    hide ManagerInv, Run;
    EveryRunKeepsInv(peers, steps);
    var w := Run(Init(peers), steps);
    var k := w.conns[c];
    if k.dialing == Established {
      var j :| 0 <= j < |w.history| && w.history[j] == DialerEstablished(c);
      var i :| 0 <= i < j && w.history[..j][i] == AcceptorTabled(c, k.dialer);
      assert w.history[i] == AcceptorTabled(c, k.dialer);
    }
  }

  /** Table agreement, over every run: as long as a manager has used no id twice, its two tables
      are inverse, no name has two sessions, every tabled session belongs to this peer and
      carries the name at the other end, and `RemoveSession` never meets a stale mapping. */
  lemma TableAgreement(peers: set<Name>, steps: seq<Step>, p: Name, name: Name)
    requires p in Run(Init(peers), steps).managers && IdsDiffer(Run(Init(peers), steps), p)
    ensures var w := Run(Init(peers), steps);
            var t := w.managers[p].tables;
            && Agree(t) && EntriesInv(w, p)
            && (forall i, j :: i in t.sessions && j in t.sessions && t.sessions[i].name == t.sessions[j].name ==> i == j)
            && Remove(t, name).1 != StaleMapping
  {
    hide IdsDiffer, NumbersInv, Run;
    EveryRunKeepsInv(peers, steps);
    assert ManagerInv(Run(Init(peers), steps), p);
    RemoveAgrees(Run(Init(peers), steps).managers[p].tables, name);
  }

  /** The manager has not issued more ids than there are. */
  predicate WithinIds(w: World, p: Name) {
    p in w.managers && w.managers[p].issued <= ID_SPACE
  }

  lemma ModDiffers(a: nat, b: nat, n: nat)
    requires a < b < a + n
    ensures a % n != b % n
  {
    if a % n == b % n {
      assert a == n * (a / n) + a % n && b == n * (b / n) + b % n;
      assert n * (b / n - a / n) == n * (b / n) - n * (a / n);
      EuclidZero(n, b / n - a / n, a - b);
    }
  }

  /** Numbers within a window of 65536 give different ids. */
  lemma WindowDiffers(w: World, p: Name, low: nat)
    requires p in w.managers && NumbersInv(w, p)
    requires forall c :: 0 <= c < |w.conns| && NumberAt(w.conns[c], p).Some? ==>
               low <= NumberAt(w.conns[c], p).value < low + ID_SPACE
    ensures IdsDiffer(w, p)
  {
    hide NumberAt;
    forall c, d | 0 <= c < d < |w.conns| && IdAt(w.conns[c], p).Some? && IdAt(w.conns[d], p).Some?
      ensures IdAt(w.conns[c], p) != IdAt(w.conns[d], p)
    {
      var x, y := NumberAt(w.conns[c], p).value, NumberAt(w.conns[d], p).value;
      if x < y { ModDiffers(x, y, ID_SPACE); } else { ModDiffers(y, x, ID_SPACE); }
    }
  }

  lemma ManagerInOrder(w: World, p: Name)
    requires Inv(w) && p in w.managers
    ensures NumbersInv(w, p) && (IdsDiffer(w, p) ==> Agree(w.managers[p].tables) && EntriesInv(w, p))
  {
    assert ManagerInv(w, p);
  }

  /** A manager within its ids has used none twice. */
  lemma WithinIdsAgree(w: World, p: Name)
    requires Inv(w) && WithinIds(w, p)
    ensures IdsDiffer(w, p) && Agree(w.managers[p].tables) && EntriesInv(w, p)
  {
    hide Inv, Agree, EntriesInv, NumberAt, IdsDiffer;
    ManagerInOrder(w, p);
    WindowDiffers(w, p, 0);
  }

  // ------------------------------------------------------------------------- progress

  lemma RunSnoc(w: World, steps: seq<Step>, step: Step)
    ensures Run(w, steps + [step]) == Next(Run(w, steps), step)
  {
    assert (steps + [step])[..|steps|] == steps;
  }

  lemma RunTwo(w: World, steps: seq<Step>, s: Step, t: Step)
    ensures Run(w, steps + [s, t]) == Next(Next(Run(w, steps), s), t)
  {
    hide Next;
    RunSnoc(w, steps, s);
    RunSnoc(w, steps + [s], t);
    assert steps + [s, t] == steps + [s] + [t];
  }

  /** The dialer's manager after it tabled connection `c` to `q`. */
  function Dialled(m: Manager, c: nat, q: Name): Manager {
    m.Issue().Note(q).Table(m.issued % ID_SPACE, Entry(c, q))
  }

  /** The acceptor's manager after it tabled connection `c` from `p`. */
  function Taken(m: Manager, c: nat, p: Name): Manager {
    m.Accept().Table(m.reserved % ID_SPACE, Entry(c, p)).Note(p)
  }

  lemma ConnectionUp(w: World, p: Name, q: Name)
    requires MayDial(w, p, q)
    ensures var c := |w.conns|;
            var v := Next(Next(w, Dial(p, q)), ConnectDone(c, true));
            && v.conns == w.conns + [Conn(p, q, w.managers[p].issued, 0, Unprepared, Waiting, [], [])]
            && v.managers == w.managers[p := Dialled(w.managers[p], c, q)]
  {
    hide Less;
  }

  lemma HelloAnswered(w: World, c: nat)
    requires c < |w.conns| && w.conns[c].acceptor in w.managers && w.conns[c].accepting == Waiting
    requires w.conns[c].dialing == Unprepared && w.conns[c].toDialer == [] && w.conns[c].toAcceptor == []
    ensures var v := Next(Next(w, AcceptDone(c)), ToDialer(c));
            var k := w.conns[c];
            var m := w.managers[k.acceptor];
            && v.conns == w.conns[c := k.(accepting := Unprepared, acceptNumber := m.reserved,
                                          toAcceptor := [HelloBack(k.dialer)])]
            && v.managers == w.managers[k.acceptor := m.Accept()]
  {
    var u := DoAccept(w, c);
    var v := DoToDialer(u, c);
    assert u.conns[c].toDialer == [Hello] && [Hello][1..] == [];
    assert [] + [HelloBack(w.conns[c].dialer)] == [HelloBack(w.conns[c].dialer)];
    assert v.conns == w.conns[c := v.conns[c]];
    assert Next(Next(w, AcceptDone(c)), ToDialer(c)) == v;
  }

  lemma BothEstablished(w: World, c: nat)
    requires c < |w.conns| && w.conns[c].acceptor in w.managers
    requires w.conns[c].dialing == Unprepared && w.conns[c].accepting == Unprepared
    requires w.conns[c].toDialer == [] && w.conns[c].toAcceptor == [HelloBack(w.conns[c].dialer)]
    requires !Present(w.managers[w.conns[c].acceptor].tables, w.conns[c].dialer)
    ensures var v := Next(Next(w, ToAcceptor(c)), ToDialer(c));
            var k := w.conns[c];
            var m := w.managers[k.acceptor];
            && v.conns == w.conns[c := k.(dialing := Established, accepting := Established, toAcceptor := [])]
            && v.managers == w.managers[k.acceptor := m.Table(k.acceptNumber % ID_SPACE, Entry(c, k.dialer)).Note(k.dialer)]
  {
    hide Present;
    var u := DoToAcceptor(w, c);
    var v := DoToDialer(u, c);
    assert u.conns[c].toDialer == [Confirm] && [Confirm][1..] == [];
    assert w.conns[c].toAcceptor[1..] == [];
    assert v.conns[c] == w.conns[c].(dialing := Established, accepting := Established, toAcceptor := []);
    assert v.conns == w.conns[c := v.conns[c]];
    assert Next(Next(w, ToAcceptor(c)), ToDialer(c)) == v;
  }

  /** Connection `c` between `p` and `q`, up on both sides. */
  predicate UpBetween(k: Conn, p: Name, q: Name) {
    k.dialer == p && k.acceptor == q && k.dialing == Established && k.accepting == Established
  }

  /** Whenever, in any run, the smaller name may dial and neither has a session with the other,
      six more steps establish the connection on both sides, put it into both tables, note each
      peer as a node of the other, and change nothing else. So the agreement above is about connections that do come up. */
  lemma HandshakeCompletes(w0: World, steps: seq<Step>, p: Name, q: Name) returns (more: seq<Step>)
    requires MayDial(Run(w0, steps), p, q) && !Present(Run(w0, steps).managers[q].tables, p)
    ensures var u, v := Run(w0, steps), Run(w0, more);
            var c := |u.conns|;
            && |more| == |steps| + 6 && steps <= more
            && |v.conns| == c + 1 && v.conns[..c] == u.conns && UpBetween(v.conns[c], p, q)
            && v.managers == u.managers[p := Dialled(u.managers[p], c, q)][q := Taken(u.managers[q], c, p)]
  {
    hide Next, Less, Present, Run;
    ExactlyOneDials(p, q);
    var w := Run(w0, steps);
    var c := |w.conns|;
    ConnectionUp(w, p, q);
    RunTwo(w0, steps, Dial(p, q), ConnectDone(c, true));
    more := steps + [Dial(p, q), ConnectDone(c, true)];
    var w2 := Run(w0, more);
    HelloAnswered(w2, c);
    RunTwo(w0, more, AcceptDone(c), ToDialer(c));
    more := more + [AcceptDone(c), ToDialer(c)];
    var w4 := Run(w0, more);
    assert w4.managers[q].tables == w.managers[q].tables;
    BothEstablished(w4, c);
    RunTwo(w0, more, ToAcceptor(c), ToDialer(c));
    more := more + [ToAcceptor(c), ToDialer(c)];
  }

  lemma NoSteps(w: World)
    ensures Run(w, []) == w
  {
  }
}
