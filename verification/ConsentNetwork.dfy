/** Offers and verdicts among any number of peers, on top of the connections of `Handshake`.

    An offer travels on a session, but its prompt knows only the text "service|name"; the answer
    goes to whatever session the receiver's tables hold for the name read from that text, and
    whoever gets it looks at the bare key. A frame that was sent may arrive at any time, any
    number of times and in any order, which covers every schedule of the sessions. */
module ConsentNetwork {
  import opened Bytes
  import opened Tables
  import opened Consent
  import Wire
  import App
  import Handshake

  datatype OfferMsg = OfferMsg(conn: nat, from: Name, key: u32, text: Text)

  /** A prompt on a user's screen, and the offer it came from. */
  datatype Prompt = Prompt(at: Name, offer: OfferMsg) {
    /** Sender and file name as the prompt shows them. */
    function Shown(): (Text, Text) {
      App.SplitNames(offer.text)
    }
  }

  /** A verdict frame and the prompt it answers; the frame holds no more than key and verdict. */
  datatype VerdictMsg = VerdictMsg(conn: nat, prompt: Prompt, accept: bool)

  datatype Happening =
    | UserAccepted(at: Name, key: u32, sender: Name, fname: Text)
    | TransferStarted(sender: Name, conn: nat, key: u32, path: Path)

  /** On which connection a key was offered, and for which file. */
  datatype Made = Made(conn: nat, path: Path)

  datatype Net = Net(
    world: Handshake.World, desks: map<Name, Desk>, made: map<(Name, u32), Made>,
    offers: set<OfferMsg>, prompts: set<Prompt>, verdicts: set<VerdictMsg>, history: seq<Happening>)

  datatype Step =
    | Manage(step: Handshake.Step)
    | SendOffer(p: Name, to: Name, path: Path)
    | ShowPrompt(offer: OfferMsg)
    | Decide(prompt: Prompt, accept: bool)
    | TakeVerdict(verdict: VerdictMsg)

  function Initially(peers: set<Name>): Net {
    Net(Handshake.Init(peers), map p | p in peers :: Desk(0, map[], []), map[], {}, {}, {}, [])
  }

  /** The part of a path after its last slash. */
  function FileName(path: Path): Text {
    if path == [] || path[|path| - 1] == SLASH then []
    else FileName(path[..|path| - 1]) + [path[|path| - 1]]
  }

  function Other(k: Handshake.Conn, p: Name): Name {
    if k.dialer == p then k.acceptor else k.dialer
  }

  /** The side of `p` is established. */
  predicate Up(k: Handshake.Conn, p: Name) {
    (if k.dialer == p then k.dialing else k.accepting) == Handshake.Established
  }

  /** The text survives its frame. */
  predicate Fits(text: Text) {
    NUL !in text && |text| < Wire.FILE_TEXT_SIZE
  }

  /** The session a manager finds by name, if both tables have it. */
  function Lookup(t: Tables, name: Name): Option<nat> {
    if name in t.byName && t.byName[name] in t.sessions then Some(t.byName[name]) else None
  }

  // ------------------------------------------------------------------------------ steps

  /** The sender looks the session up by name, remembers the offer, and sends it. */
  function DoOffer(w: Net, p: Name, to: Name, path: Path): Net
    requires p in w.desks && p in w.world.managers && to in w.world.managers[p].tables.byName
  {
    var t, desk := w.world.managers[p].tables, w.desks[p];
    var sid, key := t.byName[to], desk.NextKey();
    var made := w.(desks := w.desks[p := Apply(desk, Offered(Offer(sid, path), sid in t.sessions))]);
    if sid !in t.sessions then made
    else
      var conn := t.sessions[sid].conn;
      made.(made := w.made[(p, key) := Made(conn, path)],
            offers := w.offers + {OfferMsg(conn, p, key, Wire.ServiceAndName(p, FileName(path)))})
  }

  /** The user decides; the verdict goes to the session tabled under the name that was shown. */
  function DoDecide(w: Net, prompt: Prompt, accept: bool): Net
    requires prompt.at in w.world.managers
  {
    var (sender, fname) := prompt.Shown();
    var t := w.world.managers[prompt.at].tables;
    w.(history := if accept then w.history + [UserAccepted(prompt.at, prompt.offer.key, sender, fname)] else w.history,
       verdicts := if Lookup(t, sender).None? then w.verdicts
                   else w.verdicts + {VerdictMsg(t.sessions[t.byName[sender]].conn, prompt, accept)})
  }

  /** A verdict reaches `p`, which looks for the key among its own offers. */
  function DoVerdict(w: Net, p: Name, key: u32, accept: bool): Net
    requires p in w.desks && p in w.world.managers
  {
    var t, desk := w.world.managers[p].tables, w.desks[p];
    var live := key in desk.pending && desk.pending[key].sid in t.sessions;
    var after := w.(desks := w.desks[p := Apply(desk, Verdict(key, accept, live))]);
    if accept && live then
      var offer := desk.pending[key];
      after.(history := w.history + [TransferStarted(p, t.sessions[offer.sid].conn, key, offer.path)])
    else after
  }

  ghost function Next(w: Net, step: Step): Net {
    match step
    case Manage(s) => w.(world := Handshake.Next(w.world, s))
    case SendOffer(p, to, path) =>
      if p in w.desks && p in w.world.managers && to in w.world.managers[p].tables.byName && FileName(path) != []
      then DoOffer(w, p, to, path) else w
    case ShowPrompt(o) =>
      if o in w.offers && o.conn < |w.world.conns| && Fits(o.text)
         && Up(w.world.conns[o.conn], Other(w.world.conns[o.conn], o.from))
      then w.(prompts := w.prompts + {Prompt(Other(w.world.conns[o.conn], o.from), o)}) else w
    case Decide(prompt, accept) =>
      if prompt in w.prompts && prompt.at in w.world.managers then DoDecide(w, prompt, accept) else w
    case TakeVerdict(v) =>
      if v in w.verdicts && v.conn < |w.world.conns| then
        var p := Other(w.world.conns[v.conn], v.prompt.at);
        if Up(w.world.conns[v.conn], p) && p in w.desks && p in w.world.managers
        then DoVerdict(w, p, v.prompt.offer.key, v.accept) else w
      else w
  }

  ghost function Runs(peers: set<Name>, steps: seq<Step>): Net
    decreases |steps|
  {
    if steps == [] then Initially(peers) else Next(Runs(peers, steps[..|steps| - 1]), steps[|steps| - 1])
  }

  /** No counter has wrapped: at most 65536 session ids and 2^32 offer keys at every peer. */
  ghost predicate Bounded(w: Net) {
    && (forall p :: p in w.world.managers ==> w.world.managers[p].issued <= ID_SPACE)
    && (forall p :: p in w.desks ==> w.desks[p].issued <= TWO32)
  }

  // ---------------------------------------------------------------------- the property

  /** A transfer has started only after the user at the other end of its connection accepted
      this key, from this sender, for this file. */
  predicate Consented(w: Net) {
    forall j :: 0 <= j < |w.history| && w.history[j].TransferStarted? ==>
      var s := w.history[j];
      && s.conn < |w.world.conns|
      && UserAccepted(Other(w.world.conns[s.conn], s.sender), s.key, s.sender, FileName(s.path)) in w.history[..j]
  }

  /** The sender a prompt shows for an offer of the peer `name`. */
  function ShownAs(name: Name): Name {
    App.SplitNames(Wire.ServiceAndName(name, [])).0
  }

  /** Some peer's name, cut at its bar, is the name of another peer, a third peer can be asked,
      and the name leaves room for a file name in the frame. */
  ghost predicate Confusable(peers: set<Name>) {
    exists a, b, r :: a in peers && b in peers && r in peers && Confuses(a, b, r)
  }

  predicate Confuses(a: Name, b: Name, r: Name) {
    ShownAs(b) == a && a != b && r != a && r != b && NUL !in b && |b| + 2 < Wire.FILE_TEXT_SIZE
  }

  lemma ShownIs(name: Name, fname: Text)
    ensures App.SplitNames(Wire.ServiceAndName(name, fname)).0 == ShownAs(name)
    ensures BAR !in name ==> App.SplitNames(Wire.ServiceAndName(name, fname)) == (name, fname)
    ensures BAR in name ==> BAR in App.SplitNames(Wire.ServiceAndName(name, fname)).1
    ensures ShownAs(name) == name <==> BAR !in name
  {
    if BAR !in name {
      App.SplitNamesRoundTrip(name, fname);
      App.SplitNamesRoundTrip(name, []);
    } else {
      var i := App.Find(name, BAR).value;
      App.FindIsFirst(name, BAR, i);
      forall tail: Text
        ensures App.SplitNames(Wire.ServiceAndName(name, tail)) == (name[..i], name[i + 1..] + [BAR] + tail)
      {
        var text := Wire.ServiceAndName(name, tail);
        assert text[..i] == name[..i] && text[i] == BAR && text[i + 1..] == name[i + 1..] + [BAR] + tail;
        App.FindIsFirst(text, BAR, i);
      }
      assert (name[i + 1..] + [BAR] + fname)[|name| - i - 1] == BAR;
    }
  }

  // ------------------------------------------------------------------------ invariants

  predicate IsEnd(k: Handshake.Conn, p: Name) {
    k.dialer == p || k.acceptor == p
  }

  predicate MadeInv(w: Net) {
    forall m :: m in w.made ==>
      && m.0 in w.desks && m.1 < w.desks[m.0].issued && w.made[m].conn < |w.world.conns|
      && IsEnd(w.world.conns[w.made[m].conn], m.0)
  }

  predicate PendingInv(w: Net) {
    forall p, k :: p in w.desks && k in w.desks[p].pending ==>
      && (p, k) in w.made && w.made[(p, k)].path == w.desks[p].pending[k].path
      && w.made[(p, k)].conn < |w.world.conns|
      && Handshake.IdAt(w.world.conns[w.made[(p, k)].conn], p) == Some(w.desks[p].pending[k].sid)
  }

  predicate OfferInv(w: Net, o: OfferMsg) {
    && (o.from, o.key) in w.made && w.made[(o.from, o.key)].conn == o.conn < |w.world.conns|
    && IsEnd(w.world.conns[o.conn], o.from)
    && FileName(w.made[(o.from, o.key)].path) != []
    && o.text == Wire.ServiceAndName(o.from, FileName(w.made[(o.from, o.key)].path))
  }

  predicate PromptInv(w: Net, pr: Prompt) {
    && OfferInv(w, pr.offer) && Fits(pr.offer.text)
    && pr.at == Other(w.world.conns[pr.offer.conn], pr.offer.from)
  }

  predicate VerdictInv(w: Net, v: VerdictMsg) {
    && PromptInv(w, v.prompt) && v.conn < |w.world.conns|
    && IsEnd(w.world.conns[v.conn], v.prompt.at)
    && Other(w.world.conns[v.conn], v.prompt.at) == v.prompt.Shown().0
    && (v.accept ==>
          UserAccepted(v.prompt.at, v.prompt.offer.key, v.prompt.Shown().0, v.prompt.Shown().1) in w.history)
  }

  ghost predicate FramesInv(w: Net) {
    && (forall o :: o in w.offers ==> OfferInv(w, o))
    && (forall pr :: pr in w.prompts ==> PromptInv(w, pr))
    && (forall v :: v in w.verdicts ==> VerdictInv(w, v))
  }

  ghost predicate Inv(w: Net, peers: set<Name>) {
    && w.desks.Keys == w.world.managers.Keys == peers
    && Handshake.Inv(w.world) && MadeInv(w) && PendingInv(w) && FramesInv(w) && Consented(w)
  }

  // ---------------------------------------------------------------------- preservation

  /** Connections keep their ends and their ids, and history and offers only grow. */
  ghost predicate Extends(w: Net, v: Net) {
    && |w.world.conns| <= |v.world.conns| && w.history <= v.history
    && (forall c :: 0 <= c < |w.world.conns| ==>
          && v.world.conns[c].dialer == w.world.conns[c].dialer
          && v.world.conns[c].acceptor == w.world.conns[c].acceptor)
    && (forall m :: m in w.made ==> m in v.made && v.made[m] == w.made[m])
  }

  lemma FramesKept(w: Net, v: Net)
    requires FramesInv(w) && Extends(w, v)
    ensures forall o :: o in w.offers ==> OfferInv(v, o)
    ensures forall pr :: pr in w.prompts ==> PromptInv(v, pr)
    ensures forall x :: x in w.verdicts ==> VerdictInv(v, x)
  {
    hide FileName, Wire.ServiceAndName, App.SplitNames, Fits;
    forall o | OfferInv(w, o)
      ensures OfferInv(v, o)
    {
      assert (o.from, o.key) in w.made;
    }
  }

  /** What has happened stays consented to while nothing starts. */
  lemma ConsentedKept(w: Net, v: Net)
    requires Consented(w) && Extends(w, v)
    requires forall j :: |w.history| <= j < |v.history| ==> !v.history[j].TransferStarted?
    ensures Consented(v)
  {
    hide FileName;
    assert forall j :: 0 <= j < |w.history| ==> v.history[..j] == w.history[..j] && v.history[j] == w.history[j];
  }

  lemma ConnsStable(w: Handshake.World, step: Handshake.Step)
    ensures var v := Handshake.Next(w, step);
            && |w.conns| <= |v.conns| && v.managers.Keys == w.managers.Keys
            && forall c :: 0 <= c < |w.conns| ==>
                 && v.conns[c].dialer == w.conns[c].dialer && v.conns[c].acceptor == w.conns[c].acceptor
                 && forall p :: Handshake.IdAt(w.conns[c], p).Some? ==>
                      Handshake.IdAt(v.conns[c], p) == Handshake.IdAt(w.conns[c], p)
  {
    hide Present, Less, Insert, Remove;
  }

  lemma ManageKeeps(w: Net, s: Handshake.Step, peers: set<Name>)
    requires Inv(w, peers)
    ensures Inv(Next(w, Manage(s)), peers)
  {
    hide Handshake.Inv, Handshake.Next, Handshake.IdAt, OfferInv, PromptInv, VerdictInv;
    var v := Next(w, Manage(s));
    Handshake.StepKeepsInv(w.world, s);
    ConnsStable(w.world, s);
    assert Extends(w, v);
    FramesKept(w, v);
    ConsentedKept(w, v);
  }

  /** In agreeing tables a name leads to a connection with the peer of that name. */
  lemma LookupFinds(w: Handshake.World, p: Name, name: Name)
    requires Handshake.Inv(w) && Handshake.WithinIds(w, p) && name in w.managers[p].tables.byName
    ensures var t := w.managers[p].tables;
            && Lookup(t, name) == Some(t.byName[name])
            && var conn := t.sessions[t.byName[name]].conn;
               && conn < |w.conns| && IsEnd(w.conns[conn], p) && Other(w.conns[conn], p) == name
               && Handshake.IdAt(w.conns[conn], p) == Some(t.byName[name])
  {
    hide Handshake.Inv, Handshake.IdsDiffer;
    Handshake.WithinIdsAgree(w, p);
  }

  /** The new offer: its key was never used, and its frame says what was offered where. */
  lemma OfferIsNew(w: Net, p: Name, to: Name, path: Path)
    requires MadeInv(w) && p in w.desks && p in w.world.managers && to in w.world.managers[p].tables.byName
    requires Handshake.Inv(w.world) && Handshake.WithinIds(w.world, p) && w.desks[p].issued < TWO32
    requires FileName(path) != []
    ensures var v, t := DoOffer(w, p, to, path), w.world.managers[p].tables;
            var key := w.desks[p].issued;
            && Lookup(t, to).Some? && (p, key) !in w.made
            && var conn := t.sessions[t.byName[to]].conn;
               && v == w.(desks := w.desks[p := Apply(w.desks[p], Offered(Offer(t.byName[to], path), true))],
                          made := w.made[(p, key) := Made(conn, path)],
                          offers := w.offers + {OfferMsg(conn, p, key, Wire.ServiceAndName(p, FileName(path)))})
               && OfferInv(v, OfferMsg(conn, p, key, Wire.ServiceAndName(p, FileName(path))))
               && Handshake.IdAt(w.world.conns[conn], p) == Some(t.byName[to])
  {
    hide Handshake.Inv, Handshake.IdAt, FileName, Wire.ServiceAndName, Other;
    LookupFinds(w.world, p, to);
  }

  lemma OfferKeepsMade(w: Net, p: Name, to: Name, path: Path)
    requires MadeInv(w) && p in w.desks && p in w.world.managers
    requires to in w.world.managers[p].tables.byName && FileName(path) != []
    requires Handshake.Inv(w.world) && Handshake.WithinIds(w.world, p) && w.desks[p].issued < TWO32
    ensures MadeInv(DoOffer(w, p, to, path))
  {
    hide Handshake.Inv, Handshake.IdAt, FileName, Wire.ServiceAndName, DoOffer, Handshake.WithinIds, Lookup;
    OfferIsNew(w, p, to, path);
  }

  lemma OfferKeepsPending(w: Net, p: Name, to: Name, path: Path)
    requires MadeInv(w) && PendingInv(w) && p in w.desks && p in w.world.managers
    requires to in w.world.managers[p].tables.byName && FileName(path) != []
    requires Handshake.Inv(w.world) && Handshake.WithinIds(w.world, p) && w.desks[p].issued < TWO32
    ensures PendingInv(DoOffer(w, p, to, path))
  {
    hide Handshake.Inv, Handshake.IdAt, FileName, Wire.ServiceAndName, DoOffer, Handshake.WithinIds, MadeInv, IsEnd;
    OfferIsNew(w, p, to, path);
  }

  lemma OfferKeeps(w: Net, p: Name, to: Name, path: Path, peers: set<Name>)
    requires Inv(w, peers) && p in peers && to in w.world.managers[p].tables.byName && FileName(path) != []
    requires Handshake.WithinIds(w.world, p) && w.desks[p].issued < TWO32
    ensures Inv(DoOffer(w, p, to, path), peers)
  {
    hide Handshake.Inv, Handshake.IdAt, Handshake.WithinIds, FileName, Wire.ServiceAndName;
    hide OfferInv, PromptInv, VerdictInv, DoOffer, MadeInv, PendingInv;
    var v := DoOffer(w, p, to, path);
    OfferKeepsMade(w, p, to, path);
    OfferKeepsPending(w, p, to, path);
    OfferIsNew(w, p, to, path);
    assert Extends(w, v);
    FramesKept(w, v);
    ConsentedKept(w, v);
  }

  lemma PromptKeeps(w: Net, o: OfferMsg, peers: set<Name>)
    requires Inv(w, peers)
    ensures Inv(Next(w, ShowPrompt(o)), peers)
  {
    hide Handshake.Inv, Handshake.IdAt, FileName, Wire.ServiceAndName, OfferInv, VerdictInv, Fits;
    var v := Next(w, ShowPrompt(o));
    assert Extends(w, v);
    FramesKept(w, v);
    ConsentedKept(w, v);
  }

  lemma DecideKeeps(w: Net, prompt: Prompt, accept: bool, peers: set<Name>)
    requires Inv(w, peers) && prompt in w.prompts && prompt.at in peers
    requires Handshake.WithinIds(w.world, prompt.at)
    ensures Inv(DoDecide(w, prompt, accept), peers)
  {
    hide Handshake.Inv, Handshake.IdAt, FileName, OfferInv, PromptInv, App.SplitNames;
    var v := DoDecide(w, prompt, accept);
    var sender := prompt.Shown().0;
    if sender in w.world.managers[prompt.at].tables.byName {
      LookupFinds(w.world, prompt.at, sender);
    }
    assert Extends(w, v);
    FramesKept(w, v);
    ConsentedKept(w, v);
  }

  /** A prompt that shows another peer than the one that caused it is a confusion. */
  lemma MisreadIsConfusion(p: Name, from: Name, at: Name, fname: Text)
    requires at != p && at != from && p != from && fname != [] && Fits(Wire.ServiceAndName(from, fname))
    requires App.SplitNames(Wire.ServiceAndName(from, fname)).0 == p
    ensures Confuses(p, from, at)
  {
    hide App.SplitNames;
    ShownIs(from, fname);
    var text := Wire.ServiceAndName(from, fname);
    assert forall i :: 0 <= i < |from| ==> text[i] == from[i];
    assert forall c :: c in from ==> c in text;
  }

  /** So without confusion it shows the peer that caused it, and its file. */
  lemma SenderIs(p: Name, from: Name, at: Name, fname: Text, peers: set<Name>)
    requires p in peers && from in peers && at in peers && at != p && at != from
    requires !Confusable(peers) && fname != [] && Fits(Wire.ServiceAndName(from, fname))
    requires App.SplitNames(Wire.ServiceAndName(from, fname)).0 == p
    ensures from == p && App.SplitNames(Wire.ServiceAndName(from, fname)) == (p, fname)
  {
    hide App.SplitNames, Confuses, ShownAs, Fits, Wire.ServiceAndName;
    ShownIs(from, fname);
    if from != p {
      MisreadIsConfusion(p, from, at, fname);
    }
  }

  lemma EndsDiffer(w: Handshake.World, c: nat)
    requires Handshake.Inv(w) && c < |w.conns|
    ensures w.conns[c].dialer != w.conns[c].acceptor
    ensures w.conns[c].dialer in w.managers && w.conns[c].acceptor in w.managers
  {
    assert Handshake.ConnInv(w.conns[c], c, w.history);
    ExactlyOneDials(w.conns[c].dialer, w.conns[c].acceptor);
  }

  /** A verdict that reaches `p` answers a prompt that `p` itself has caused, and which showed
      its name and its file. */
  lemma VerdictIsOwn(w: Net, verdict: VerdictMsg, peers: set<Name>)
    requires Handshake.Inv(w.world) && w.world.managers.Keys == peers && VerdictInv(w, verdict) && !Confusable(peers)
    ensures var p, o := Other(w.world.conns[verdict.conn], verdict.prompt.at), verdict.prompt.offer;
            && o.from == p && verdict.prompt.at == Other(w.world.conns[o.conn], p)
            && (p, o.key) in w.made && w.made[(p, o.key)].conn == o.conn
            && verdict.prompt.Shown() == (p, FileName(w.made[(p, o.key)].path))
  {
    hide FileName, Handshake.Inv, Confusable, App.SplitNames, Wire.ServiceAndName, Fits;
    var o := verdict.prompt.offer;
    EndsDiffer(w.world, verdict.conn);
    EndsDiffer(w.world, o.conn);
    SenderIs(Other(w.world.conns[verdict.conn], verdict.prompt.at), o.from, verdict.prompt.at,
             FileName(w.made[(o.from, o.key)].path), peers);
  }

  /** The session of a pending offer is the connection it was offered on. */
  lemma PendingConn(w: Net, p: Name, key: u32, peers: set<Name>)
    requires Inv(w, peers) && p in peers && key in w.desks[p].pending && Handshake.WithinIds(w.world, p)
    requires w.desks[p].pending[key].sid in w.world.managers[p].tables.sessions
    ensures (p, key) in w.made
    ensures w.world.managers[p].tables.sessions[w.desks[p].pending[key].sid].conn == w.made[(p, key)].conn
  {
    hide Handshake.Inv, Handshake.IdAt, Agree, FramesInv, Consented, MadeInv;
    Handshake.WithinIdsAgree(w.world, p);
  }

  /** A start on a verdict is consented to. */
  lemma StartConsented(w: Net, verdict: VerdictMsg, peers: set<Name>)
    requires Inv(w, peers) && !Confusable(peers) && verdict in w.verdicts && verdict.conn < |w.world.conns|
    requires Handshake.WithinIds(w.world, Other(w.world.conns[verdict.conn], verdict.prompt.at))
    requires verdict.accept
    ensures var p, key := Other(w.world.conns[verdict.conn], verdict.prompt.at), verdict.prompt.offer.key;
            var t, pending := w.world.managers[p].tables, w.desks[p].pending;
            key in pending && pending[key].sid in t.sessions ==>
              var conn := t.sessions[pending[key].sid].conn;
              && conn < |w.world.conns|
              && UserAccepted(Other(w.world.conns[conn], p), key, p, FileName(pending[key].path)) in w.history
  {
    hide Handshake.Inv, Handshake.IdAt, FileName, OfferInv, PromptInv, App.SplitNames, Confusable, Other, Consented;
    var p, key := Other(w.world.conns[verdict.conn], verdict.prompt.at), verdict.prompt.offer.key;
    if key in w.desks[p].pending && w.desks[p].pending[key].sid in w.world.managers[p].tables.sessions {
      VerdictIsOwn(w, verdict, peers);
      PendingConn(w, p, key, peers);
    }
  }

  lemma VerdictKeepsMade(w: Net, p: Name, key: u32, accept: bool)
    requires MadeInv(w) && PendingInv(w) && p in w.desks && p in w.world.managers
    ensures MadeInv(DoVerdict(w, p, key, accept)) && PendingInv(DoVerdict(w, p, key, accept))
  {
    hide Handshake.IdAt;
  }

  lemma VerdictKeeps(w: Net, verdict: VerdictMsg, peers: set<Name>)
    requires Inv(w, peers) && !Confusable(peers) && verdict in w.verdicts && verdict.conn < |w.world.conns|
    requires Handshake.WithinIds(w.world, Other(w.world.conns[verdict.conn], verdict.prompt.at))
    ensures var p := Other(w.world.conns[verdict.conn], verdict.prompt.at);
            Inv(DoVerdict(w, p, verdict.prompt.offer.key, verdict.accept), peers)
  {
    hide Handshake.Inv, FileName, OfferInv, PromptInv, VerdictInv, Confusable, Other, MadeInv, PendingInv, Apply;
    var p, key := Other(w.world.conns[verdict.conn], verdict.prompt.at), verdict.prompt.offer.key;
    var v := DoVerdict(w, p, key, verdict.accept);
    VerdictKeepsMade(w, p, key, verdict.accept);
    assert Extends(w, v);
    FramesKept(w, v);
    if v.history == w.history {
      ConsentedKept(w, v);
    } else {
      StartConsented(w, verdict, peers);
      assert v.history[..|w.history|] == w.history;
      assert forall j :: 0 <= j < |w.history| ==> v.history[..j] == w.history[..j] && v.history[j] == w.history[j];
    }
  }

  lemma StepKeeps(w: Net, step: Step, peers: set<Name>)
    requires Inv(w, peers) && !Confusable(peers) && Bounded(w) && Bounded(Next(w, step))
    ensures Inv(Next(w, step), peers)
  {
    hide Inv, Confusable, FileName;
    assert w.desks.Keys == w.world.managers.Keys == peers by { PeersOf(w, peers); }
    match step {
      case Manage(s) => ManageKeeps(w, s, peers);
      case SendOffer(p, to, path) =>
        if Next(w, step) != w {
          assert Next(w, step).desks[p].issued <= TWO32;
          OfferKeeps(w, p, to, path, peers);
        }
      case ShowPrompt(o) => PromptKeeps(w, o, peers);
      case Decide(prompt, accept) => if Next(w, step) != w { DecideKeeps(w, prompt, accept, peers); }
      case TakeVerdict(v) => if Next(w, step) != w { VerdictKeeps(w, v, peers); }
    }
  }

  lemma PeersOf(w: Net, peers: set<Name>)
    requires Inv(w, peers)
    ensures w.desks.Keys == w.world.managers.Keys == peers
  {
  }

  /** Counters only grow. */
  lemma BoundedBefore(w: Net, step: Step)
    requires Bounded(Next(w, step))
    ensures Bounded(w)
  {
    hide FileName, App.SplitNames, Present, Less, Fits;
    var v := Next(w, step);
    forall p | p in w.world.managers
      ensures w.world.managers[p].issued <= ID_SPACE
    {
      assert p in v.world.managers && w.world.managers[p].issued <= v.world.managers[p].issued;
    }
    forall p | p in w.desks
      ensures w.desks[p].issued <= TWO32
    {
      assert p in v.desks && w.desks[p].issued <= v.desks[p].issued;
    }
  }

  lemma StartInv(peers: set<Name>)
    ensures Inv(Initially(peers), peers)
  {
    hide Handshake.Inv;
    Handshake.InitInv(peers);
  }

  lemma {:induction false} EveryRunKeeps(peers: set<Name>, steps: seq<Step>)
    requires !Confusable(peers) && Bounded(Runs(peers, steps))
    ensures Inv(Runs(peers, steps), peers)
    decreases |steps|
  {
    hide Inv, Bounded, Next, Confusable;
    if steps == [] {
      StartInv(peers);
    } else {
      var before := Runs(peers, steps[..|steps| - 1]);
      BoundedBefore(before, steps[|steps| - 1]);
      EveryRunKeeps(peers, steps[..|steps| - 1]);
      StepKeeps(before, steps[|steps| - 1], peers);
    }
  }

  /** In every run of peers whose names cannot be confused, without wrapped counters, a transfer
      on a connection starts, and so its BEGIN and chunks leave, only after the user at the
      other end of that connection accepted that key, from that sender, for that file. */
  lemma NothingLeavesWithoutConsent(peers: set<Name>, steps: seq<Step>, j: nat)
    requires !Confusable(peers) && Bounded(Runs(peers, steps))
    requires j < |Runs(peers, steps).history| && Runs(peers, steps).history[j].TransferStarted?
    ensures var w := Runs(peers, steps);
            var s := w.history[j];
            && s.conn < |w.world.conns|
            && exists i :: 0 <= i < j &&
                 w.history[i] == UserAccepted(Other(w.world.conns[s.conn], s.sender), s.key, s.sender, FileName(s.path))
  {
    hide FileName, Runs, Handshake.Inv, FramesInv, MadeInv, PendingInv, Bounded, Confusable;
    EveryRunKeeps(peers, steps);
    var w := Runs(peers, steps);
    var s := w.history[j];
    var accepted := UserAccepted(Other(w.world.conns[s.conn], s.sender), s.key, s.sender, FileName(s.path));
    var i :| 0 <= i < j && w.history[..j][i] == accepted;
    assert w.history[i] == accepted;
  }

  /** Names without a bar cannot be confused. */
  lemma BarFreeSuffices(peers: set<Name>)
    requires forall p :: p in peers ==> BAR !in p
    ensures !Confusable(peers)
  {
    forall b | b in peers
      ensures ShownAs(b) == b
    {
      ShownIs(b, []);
    }
  }

  // ------------------------------------------------------------------ confused names

  lemma RunsSnoc(peers: set<Name>, steps: seq<Step>, step: Step)
    ensures Runs(peers, steps + [step]) == Next(Runs(peers, steps), step)
  {
    assert (steps + [step])[..|steps|] == steps;
  }

  /** Steps of the connections alone. */
  lemma {:induction false} ManagedRun(peers: set<Name>, hs: seq<Handshake.Step>) returns (steps: seq<Step>)
    ensures Runs(peers, steps) == Initially(peers).(world := Handshake.Run(Handshake.Init(peers), hs))
    decreases |hs|
  {
    hide Handshake.Next;
    if hs == [] {
      steps := [];
    } else {
      var before := ManagedRun(peers, hs[..|hs| - 1]);
      RunsSnoc(peers, before, Manage(hs[|hs| - 1]));
      steps := before + [Manage(hs[|hs| - 1])];
    }
  }

  /** Two peers have a session with each other in both tables. */
  predicate Linked(w: Handshake.World, p: Name, q: Name) {
    && p in w.managers && q in w.managers
    && q in w.managers[p].tables.byName && p in w.managers[q].tables.byName
  }

  /** Two peers that know nothing of each other. */
  ghost predicate Unlinked(w: Handshake.World, p: Name, q: Name) {
    && p in w.managers && q in w.managers && p != q
    && !Present(w.managers[p].tables, q) && !Present(w.managers[q].tables, p)
    && q !in w.managers[p].nodes && p !in w.managers[q].nodes
  }

  /** From `u` to `v` one connection between `p` and `q` has come up, and nothing else changed. */
  predicate NewLink(u: Handshake.World, v: Handshake.World, p: Name, q: Name) {
    && p in u.managers && q in u.managers && v.managers.Keys == u.managers.Keys && Linked(v, p, q)
    && (forall r :: r in u.managers && r != p && r != q ==> v.managers[r] == u.managers[r])
    && v.managers[p].tables.byName.Keys == u.managers[p].tables.byName.Keys + {q}
    && v.managers[q].tables.byName.Keys == u.managers[q].tables.byName.Keys + {p}
    && v.managers[p].nodes == u.managers[p].nodes + {q} && v.managers[q].nodes == u.managers[q].nodes + {p}
    && v.managers[p].issued == u.managers[p].issued + 1 && v.managers[q].issued == u.managers[q].issued + 1
    && |v.conns| == |u.conns| + 1 && v.conns[..|u.conns|] == u.conns
    && (Handshake.UpBetween(v.conns[|u.conns|], p, q) || Handshake.UpBetween(v.conns[|u.conns|], q, p))
  }

  /** Of two peers without a session the smaller dials, and they are connected. */
  lemma Connect(w0: Handshake.World, hs: seq<Handshake.Step>, p: Name, q: Name) returns (more: seq<Handshake.Step>)
    requires Unlinked(Handshake.Run(w0, hs), p, q)
    ensures NewLink(Handshake.Run(w0, hs), Handshake.Run(w0, more), p, q)
  {
    hide Handshake.Run, Present, Less;
    ExactlyOneDials(p, q);
    if Less(p, q) {
      more := Handshake.HandshakeCompletes(w0, hs, p, q);
    } else {
      more := Handshake.HandshakeCompletes(w0, hs, q, p);
    }
  }

  /** Both `a` and `b` connected to `r`, every connection up, every manager within its ids. */
  lemma BothConnected(peers: set<Name>, a: Name, b: Name, r: Name) returns (hs: seq<Handshake.Step>)
    requires {a, b, r} <= peers && a != b && r != a && r != b
    ensures var w := Handshake.Run(Handshake.Init(peers), hs);
            && w.managers.Keys == peers && Linked(w, a, r) && Linked(w, b, r)
            && (forall p :: p in w.managers ==> w.managers[p].issued <= 3)
            && (forall c :: 0 <= c < |w.conns| ==>
                  w.conns[c].dialing == Handshake.Established && w.conns[c].accepting == Handshake.Established)
  {
    hide Handshake.Run, Handshake.Inv, Less, Present;
    var w0 := Handshake.Init(peers);
    assert Handshake.Run(w0, []) == w0 by { Handshake.NoSteps(w0); }
    Handshake.EveryRunKeepsInv(peers, []);
    NotPresent(w0, a, r);
    NotPresent(w0, r, a);
    hs := Connect(w0, [], a, r);
    var w1 := Handshake.Run(w0, hs);
    Handshake.EveryRunKeepsInv(peers, hs);
    NotPresent(w1, r, b);
    NotPresent(w1, b, r);
    hs := Connect(w0, hs, b, r);
    var w2 := Handshake.Run(w0, hs);
    forall c | 0 <= c < |w2.conns|
      ensures w2.conns[c].dialing == Handshake.Established && w2.conns[c].accepting == Handshake.Established
    {
      if c < |w1.conns| { assert w2.conns[..|w1.conns|][c] == w2.conns[c]; }
    }
  }

  lemma NotPresent(w: Handshake.World, p: Name, name: Name)
    requires Handshake.Inv(w) && Handshake.WithinIds(w, p) && name !in w.managers[p].tables.byName
    ensures !Present(w.managers[p].tables, name)
  {
    Handshake.WithinIdsAgree(w, p);
    PresentMeansMapped(w.managers[p].tables, name);
  }

  /** The letter x, as the path of a file. */
  const X_FILE: Path := [120]

  lemma XName()
    ensures FileName(X_FILE) == X_FILE
  {
    assert FileName(X_FILE) == FileName(X_FILE[..0]) + [120];
  }

  /** The first offer of a peer, to a peer it is linked with. */
  lemma FirstOffer(w: Net, p: Name, to: Name)
    requires Handshake.Inv(w.world) && Handshake.WithinIds(w.world, p) && p in w.desks
    requires to in w.world.managers[p].tables.byName && w.desks[p] == Desk(0, map[], [])
    ensures var v, sid := Next(w, SendOffer(p, to, X_FILE)), w.world.managers[p].tables.byName[to];
            && sid in w.world.managers[p].tables.sessions
            && var conn := w.world.managers[p].tables.sessions[sid].conn;
               && conn < |w.world.conns| && Other(w.world.conns[conn], p) == to
               && v == w.(desks := w.desks[p := Desk(1, map[0 := Offer(sid, X_FILE)], [])],
                          made := w.made[(p, 0) := Made(conn, X_FILE)],
                          offers := w.offers + {OfferMsg(conn, p, 0, Wire.ServiceAndName(p, X_FILE))})
  {
    hide Handshake.Inv;
    XName();
    LookupFinds(w.world, p, to);
  }

  /** The prompt for the offer of `b` shows the name of `a`, and a file name with a bar. */
  lemma ConfusedPrompt(a: Name, b: Name, r: Name, conn: nat)
    requires Confuses(a, b, r)
    ensures var pr := Prompt(r, OfferMsg(conn, b, 0, Wire.ServiceAndName(b, X_FILE)));
            pr.Shown().0 == a && pr.Shown().1 != X_FILE && Fits(pr.offer.text)
  {
    hide App.SplitNames;
    ShownIs(b, X_FILE);
    var text := Wire.ServiceAndName(b, X_FILE);
    assert forall c :: c in text ==> c in b || c == BAR || c == 120;
  }

  /** `a` and `b` have each offered a file to `r` under their first key, and the prompt for the
      offer of `b` is on the screen. */
  ghost predicate Prompted(w: Net, peers: set<Name>, a: Name, b: Name, r: Name, pr: Prompt) {
    && w.world.managers.Keys == peers && w.desks.Keys == peers && Handshake.Inv(w.world)
    && Linked(w.world, a, r) && Linked(w.world, b, r)
    && (forall p :: p in peers ==> w.world.managers[p].issued <= 3 && w.desks[p].issued <= 1)
    && (forall c :: 0 <= c < |w.world.conns| ==>
          w.world.conns[c].dialing == Handshake.Established && w.world.conns[c].accepting == Handshake.Established)
    && w.desks[a] == Desk(1, map[0 := Offer(w.world.managers[a].tables.byName[r], X_FILE)], [])
    && pr in w.prompts && pr.at == r && pr.offer.key == 0 && pr.Shown().0 == a && pr.Shown().1 != X_FILE
    && w.history == []
  }

  lemma ConfusionPrompts(peers: set<Name>, a: Name, b: Name, r: Name) returns (steps: seq<Step>, pr: Prompt)
    requires {a, b, r} <= peers && Confuses(a, b, r)
    ensures Prompted(Runs(peers, steps), peers, a, b, r, pr)
  {
    hide Handshake.Run, Handshake.Inv, Runs, App.SplitNames, Wire.ServiceAndName, FileName, ShownAs, Less, Fits;
    var hs := BothConnected(peers, a, b, r);
    Handshake.EveryRunKeepsInv(peers, hs);
    steps := ManagedRun(peers, hs);
    var w0 := Runs(peers, steps);
    FirstOffer(w0, a, r);
    RunsSnoc(peers, steps, SendOffer(a, r, X_FILE));
    steps := steps + [SendOffer(a, r, X_FILE)];
    var w1 := Runs(peers, steps);
    FirstOffer(w1, b, r);
    RunsSnoc(peers, steps, SendOffer(b, r, X_FILE));
    steps := steps + [SendOffer(b, r, X_FILE)];
    var conn := Runs(peers, steps).made[(b, 0)].conn;
    var o := OfferMsg(conn, b, 0, Wire.ServiceAndName(b, X_FILE));
    pr := Prompt(r, o);
    ConfusedPrompt(a, b, r, conn);
    RunsSnoc(peers, steps, ShowPrompt(o));
    steps := steps + [ShowPrompt(o)];
  }

  /** Confused names: the user at `r` sees and accepts only the offer of `b`, which the prompt
      ascribes to `a`; the answer goes to `a`, whose own file starts although nobody has seen its
      offer. */
  lemma ConfusionStartsUnseen(peers: set<Name>, a: Name, b: Name, r: Name) returns (steps: seq<Step>)
    requires {a, b, r} <= peers && Confuses(a, b, r)
    ensures Bounded(Runs(peers, steps)) && !Consented(Runs(peers, steps))
  {
    hide Handshake.Run, Handshake.Inv, Runs, App.SplitNames, FileName, Less, Fits, Confuses;
    var pr: Prompt;
    steps, pr := ConfusionPrompts(peers, a, b, r);
    var w3 := Runs(peers, steps);
    LookupFinds(w3.world, r, a);
    LookupFinds(w3.world, a, r);
    var back := w3.world.managers[r].tables.sessions[w3.world.managers[r].tables.byName[a]].conn;
    RunsSnoc(peers, steps, Decide(pr, true));
    steps := steps + [Decide(pr, true)];
    assert VerdictMsg(back, pr, true) in Runs(peers, steps).verdicts;
    RunsSnoc(peers, steps, TakeVerdict(VerdictMsg(back, pr, true)));
    steps := steps + [TakeVerdict(VerdictMsg(back, pr, true))];
    var w5 := Runs(peers, steps);
    XName();
    assert w5.history == [UserAccepted(r, 0, a, pr.Shown().1), w5.history[1]];
    assert w5.history[1].TransferStarted? && w5.history[1].path == X_FILE;
    assert w5.history[..1] == [w5.history[0]];
  }

  /** Consent, exactly: for a set of peers, every run without wrapped counters starts only what
      was accepted if and only if no two of their names can be confused before a third. */
  lemma ConsentedExactly(peers: set<Name>)
    ensures (forall steps :: Bounded(Runs(peers, steps)) ==> Consented(Runs(peers, steps))) <==> !Confusable(peers)
  {
    hide Runs, Bounded, Consented, Confuses;
    if !Confusable(peers) {
      forall steps: seq<Step> | Bounded(Runs(peers, steps))
        ensures Consented(Runs(peers, steps))
      {
        EveryRunKeeps(peers, steps);
      }
    } else {
      var a, b, r :| a in peers && b in peers && r in peers && Confuses(a, b, r);
      var steps := ConfusionStartsUnseen(peers, a, b, r);
      assert Bounded(Runs(peers, steps)) && !Consented(Runs(peers, steps));
    }
  }

  // ------------------------------------------------------------------- every answer

  /** The last component of a path. */
  lemma {:induction false} FileNameIs(dir: Path, name: Text)
    requires SLASH !in name
    ensures FileName(name) == name && FileName(dir + [SLASH] + name) == name
    decreases |name|
  {
    if name == [] {
      assert dir + [SLASH] + name == dir + [SLASH];
    } else {
      var n := |name| - 1;
      FileNameIs(dir, name[..n]);
      var path := dir + [SLASH] + name;
      assert path[..|path| - 1] == dir + [SLASH] + name[..n];
      assert name == name[..n] + [name[n]];
    }
  }

  /** The session that `p` has tabled for `q` runs on a connection that is up at both ends. */
  predicate Reaches(w: Handshake.World, p: Name, q: Name) {
    && p in w.managers && Lookup(w.managers[p].tables, q).Some?
    && var conn := w.managers[p].tables.sessions[w.managers[p].tables.byName[q]].conn;
       conn < |w.conns| && Up(w.conns[conn], p) && Up(w.conns[conn], q)
  }

  /** What an answered offer leaves at its sender: no key pending, and a start exactly if the
      answer was yes. */
  function Answered(desk: Desk, offer: Offer, accept: bool): Desk {
    Desk(desk.issued + 1, desk.pending,
         if accept then desk.starts + [Consent.Start(desk.NextKey(), offer)] else desk.starts)
  }

  function AnswerHistory(p: Name, r: Name, conn: nat, key: u32, path: Path, accept: bool): seq<Happening> {
    if accept then [UserAccepted(r, key, p, FileName(path)), TransferStarted(p, conn, key, path)] else []
  }

  /** In whatever state the network is: a peer without a bar in its name offers a file to a peer it
      is connected with, the prompt comes up, and the user answers. For both answers the verdict
      leaves and reaches the sender; the offer is no longer pending, and the file starts on the
      connection it was offered on if and only if the user accepted. */
  lemma OfferIsAnswered(w: Net, p: Name, r: Name, path: Path, accept: bool, peers: set<Name>)
    returns (o: OfferMsg, v: VerdictMsg)
    requires Inv(w, peers) && p in peers && r in peers && Handshake.WithinIds(w.world, p) && Handshake.WithinIds(w.world, r)
    requires Reaches(w.world, p, r) && Reaches(w.world, r, p) && w.desks[p].issued < TWO32
    requires BAR !in p && FileName(path) != [] && Fits(Wire.ServiceAndName(p, FileName(path)))
    ensures var w1 := Next(w, SendOffer(p, r, path));
            var w2 := Next(w1, ShowPrompt(o));
            var w3 := Next(w2, Decide(Prompt(r, o), accept));
            var w4 := Next(w3, TakeVerdict(v));
            var t := w.world.managers[p].tables;
            var sid := t.byName[r];
            && v.prompt == Prompt(r, o) && v.accept == accept && v in w3.verdicts
            && w4.world == w.world
            && w4.desks == w.desks[p := Answered(w.desks[p], Offer(sid, path), accept)]
            && w4.history == w.history + AnswerHistory(p, r, t.sessions[sid].conn, w.desks[p].issued, path, accept)
  {
    hide Handshake.Inv, Handshake.IdAt, Handshake.WithinIds, FileName, Wire.ServiceAndName, App.SplitNames, Fits;
    hide OfferInv, PromptInv, VerdictInv, DoOffer, FramesInv, Consented;
    var key := w.desks[p].issued;
    var t := w.world.managers[p].tables;
    var conn := t.sessions[t.byName[r]].conn;
    OfferIsNew(w, p, r, path);
    LookupFinds(w.world, p, r);
    LookupFinds(w.world, r, p);
    KeyIsNew(w, p, peers);
    ShownIs(p, FileName(path));
    var w1 := Next(w, SendOffer(p, r, path));
    assert w1 == DoOffer(w, p, r, path);
    o := OfferMsg(conn, p, key, Wire.ServiceAndName(p, FileName(path)));
    var w2 := Next(w1, ShowPrompt(o));
    assert w2 == w1.(prompts := w1.prompts + {Prompt(r, o)});
    var back := w.world.managers[r].tables.sessions[w.world.managers[r].tables.byName[p]].conn;
    v := VerdictMsg(back, Prompt(r, o), accept);
    AnswerReturns(w2, p, r, o, v, path);
    var offer := Offer(t.byName[r], path);
    assert w2.desks[p] == Desk(key + 1, w.desks[p].pending[key := offer], w.desks[p].starts);
    assert w.desks[p].pending[key := offer] - {key} == w.desks[p].pending;
    assert w.desks[p := w2.desks[p]][p := Answered(w.desks[p], offer, accept)] == w.desks[p := Answered(w.desks[p], offer, accept)];
  }

  lemma KeyIsNew(w: Net, p: Name, peers: set<Name>)
    requires Inv(w, peers) && p in peers && w.desks[p].issued < TWO32
    ensures w.desks[p].issued !in w.desks[p].pending && w.desks[p].NextKey() == w.desks[p].issued
  {
    hide Handshake.Inv, Handshake.IdAt, FramesInv, Consented;
    var key: u32 := w.desks[p].issued;
    assert (p, key) !in w.made;
  }

  /** From the prompt on. */
  lemma AnswerReturns(w: Net, p: Name, r: Name, o: OfferMsg, v: VerdictMsg, path: Path)
    requires p in w.desks && p in w.world.managers && Prompt(r, o) in w.prompts && Reaches(w.world, r, p)
    requires Prompt(r, o).Shown() == (p, FileName(path)) && v.prompt == Prompt(r, o)
    requires v.conn == w.world.managers[r].tables.sessions[w.world.managers[r].tables.byName[p]].conn
    requires Other(w.world.conns[v.conn], r) == p && o.key in w.desks[p].pending
    requires w.desks[p].pending[o.key].sid in w.world.managers[p].tables.sessions && w.desks[p].pending[o.key].path == path
    ensures var w3 := Next(w, Decide(Prompt(r, o), v.accept));
            var w4 := Next(w3, TakeVerdict(v));
            var offer := w.desks[p].pending[o.key];
            && v in w3.verdicts && w4.world == w.world
            && w4.desks == w.desks[p := Desk(w.desks[p].issued, w.desks[p].pending - {o.key},
                 if v.accept then w.desks[p].starts + [Consent.Start(o.key, offer)] else w.desks[p].starts)]
            && w4.history == w.history
                 + AnswerHistory(p, r, w.world.managers[p].tables.sessions[offer.sid].conn, o.key, path, v.accept)
  {
    hide FileName, App.SplitNames;
    var w3 := Next(w, Decide(Prompt(r, o), v.accept));
    assert w3 == DoDecide(w, Prompt(r, o), v.accept);
    assert v in w3.verdicts;
    var w4 := Next(w3, TakeVerdict(v));
    assert w4 == DoVerdict(w3, p, o.key, v.accept);
  }

  /** From nothing: two peers meet, one offers a file, and the answer decides. */
  lemma FirstOfferIsAnswered(peers: set<Name>, p: Name, r: Name, path: Path, accept: bool) returns (steps: seq<Step>, conn: nat)
    requires p in peers && r in peers && p != r
    requires BAR !in p && FileName(path) != [] && Fits(Wire.ServiceAndName(p, FileName(path)))
    ensures var w := Runs(peers, steps);
            && p in w.desks && w.desks[p].pending == map[] && |w.desks[p].starts| == (if accept then 1 else 0)
            && w.history == AnswerHistory(p, r, conn, 0, path, accept)
  {
    hide Handshake.Run, Handshake.Inv, Runs, FileName, Wire.ServiceAndName, Fits, Present, Less, Next;
    var w0 := Handshake.Init(peers);
    assert Handshake.Run(w0, []) == w0 by { Handshake.NoSteps(w0); }
    Handshake.EveryRunKeepsInv(peers, []);
    NotPresent(w0, p, r);
    NotPresent(w0, r, p);
    var hs := Connect(w0, [], p, r);
    Handshake.EveryRunKeepsInv(peers, hs);
    steps := ManagedRun(peers, hs);
    var w := Runs(peers, steps);
    FreshInv(w, peers);
    OnlyConnection(w.world, p, r);
    conn := w.world.managers[p].tables.sessions[w.world.managers[p].tables.byName[r]].conn;
    var o, v := OfferIsAnswered(w, p, r, path, accept, peers);
    RunsSnoc(peers, steps, SendOffer(p, r, path));
    RunsSnoc(peers, steps + [SendOffer(p, r, path)], ShowPrompt(o));
    RunsSnoc(peers, steps + [SendOffer(p, r, path)] + [ShowPrompt(o)], Decide(Prompt(r, o), accept));
    RunsSnoc(peers, steps + [SendOffer(p, r, path)] + [ShowPrompt(o)] + [Decide(Prompt(r, o), accept)], TakeVerdict(v));
    steps := steps + [SendOffer(p, r, path)] + [ShowPrompt(o)] + [Decide(Prompt(r, o), accept)] + [TakeVerdict(v)];
    assert [] + AnswerHistory(p, r, conn, 0, path, accept) == AnswerHistory(p, r, conn, 0, path, accept);
  }

  lemma FreshInv(w: Net, peers: set<Name>)
    requires w == Initially(peers).(world := w.world) && w.world.managers.Keys == peers && Handshake.Inv(w.world)
    ensures Inv(w, peers)
  {
    hide Handshake.Inv;
  }

  lemma OnlyConnection(w: Handshake.World, p: Name, r: Name)
    requires Handshake.Inv(w) && Handshake.WithinIds(w, p) && Handshake.WithinIds(w, r) && Linked(w, p, r)
    requires forall c :: 0 <= c < |w.conns| ==> Handshake.UpBetween(w.conns[c], p, r) || Handshake.UpBetween(w.conns[c], r, p)
    ensures Reaches(w, p, r) && Reaches(w, r, p)
  {
    hide Handshake.Inv;
    LookupFinds(w, p, r);
    LookupFinds(w, r, p);
  }

  // -------------------------------------------------------------------- every start

  /** The desk of each peer goes through a history of its own offers and verdicts, so what is
      proved of those histories holds of every peer in the network. */
  lemma {:induction false} DeskHistory(peers: set<Name>, steps: seq<Step>, p: Name) returns (events: seq<Event>)
    requires p in peers
    ensures var w := Runs(peers, steps);
            && w.desks.Keys == peers && w.world.managers.Keys == peers
            && w.desks[p] == Run(events) && Offers(events) == w.desks[p].issued
    decreases |steps|
  {
    if steps == [] {
      events := [];
    } else {
      var before := DeskHistory(peers, steps[..|steps| - 1], p);
      var u, w := Runs(peers, steps[..|steps| - 1]), Runs(peers, steps);
      events := DeskStep(u, steps[|steps| - 1], p, before);
    }
  }

  lemma DeskStep(u: Net, step: Step, p: Name, before: seq<Event>) returns (events: seq<Event>)
    requires p in u.desks && u.desks.Keys == u.world.managers.Keys
    requires u.desks[p] == Run(before) && Offers(before) == u.desks[p].issued
    ensures var w := Next(u, step);
            && w.desks.Keys == u.desks.Keys && w.world.managers.Keys == u.world.managers.Keys
            && w.desks[p] == Run(events) && Offers(events) == w.desks[p].issued
  {
    hide Run, FileName, App.SplitNames, Fits, Handshake.Next, Offers;
    events := before;
    match step {
      case Manage(s) => ConnsStable(u.world, s);
      case SendOffer(q, to, path) =>
        if Next(u, step) != u && q == p {
          var t := u.world.managers[p].tables;
          var e := Offered(Offer(t.byName[to], path), t.byName[to] in t.sessions);
          RunSnoc(before, e);
          events := before + [e];
          IssuedCounts(events);
        }
      case ShowPrompt(_) =>
      case Decide(_, _) =>
      case TakeVerdict(v) =>
        if Next(u, step) != u && Other(u.world.conns[v.conn], v.prompt.at) == p {
          var t, key, pending := u.world.managers[p].tables, v.prompt.offer.key, u.desks[p].pending;
          var e := Verdict(key, v.accept, key in pending && pending[key].sid in t.sessions);
          RunSnoc(before, e);
          events := before + [e];
          IssuedCounts(events);
        }
    }
  }

  /** In every run without wrapped counters no peer starts a key twice. */
  lemma NoPeerStartsTwice(peers: set<Name>, steps: seq<Step>, p: Name)
    requires p in peers && Bounded(Runs(peers, steps))
    ensures p in Runs(peers, steps).desks && StartedOnce(Runs(peers, steps).desks[p])
  {
    hide Runs;
    var events := DeskHistory(peers, steps, p);
    EachKeyStartsAtMostOnce(events);
  }

  /** The starts of one peer that a history shows. */
  function StartsOf(h: seq<Happening>, p: Name): seq<(u32, Path)> {
    if h == [] then []
    else
      var rest, last := StartsOf(h[..|h| - 1], p), h[|h| - 1];
      if last.TransferStarted? && last.sender == p then rest + [(last.key, last.path)] else rest
  }

  lemma StartsSnoc(h: seq<Happening>, last: Happening, p: Name)
    ensures StartsOf(h + [last], p)
         == if last.TransferStarted? && last.sender == p then StartsOf(h, p) + [(last.key, last.path)] else StartsOf(h, p)
  {
    assert (h + [last])[..|h|] == h;
  }

  ghost predicate ShowsStarts(w: Net, p: Name) {
    && p in w.desks && |StartsOf(w.history, p)| == |w.desks[p].starts|
    && forall i :: 0 <= i < |w.desks[p].starts| ==>
         StartsOf(w.history, p)[i] == (w.desks[p].starts[i].key, w.desks[p].starts[i].offer.path)
  }

  /** Whatever a peer has started, the history shows, once each and in order. */
  lemma {:induction false} HistoryShowsEveryStart(peers: set<Name>, steps: seq<Step>, p: Name)
    requires p in peers
    ensures ShowsStarts(Runs(peers, steps), p)
    decreases |steps|
  {
    hide Next, StartsOf;
    if steps == [] {
      assert StartsOf([], p) == [] by { NoStarts(p); }
    } else {
      HistoryShowsEveryStart(peers, steps[..|steps| - 1], p);
      StartsStep(Runs(peers, steps[..|steps| - 1]), steps[|steps| - 1], p);
    }
  }

  lemma NoStarts(p: Name)
    ensures StartsOf([], p) == []
  {
  }

  lemma StartsStep(u: Net, step: Step, p: Name)
    requires ShowsStarts(u, p)
    ensures ShowsStarts(Next(u, step), p)
  {
    hide StartsOf, FileName, App.SplitNames, Fits, Handshake.Next;
    var w := Next(u, step);
    if w.history != u.history {
      assert w.history == u.history + [w.history[|u.history|]];
      StartsSnoc(u.history, w.history[|u.history|], p);
    }
  }
}
