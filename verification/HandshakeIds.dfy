/** How long the 16-bit session ids keep the tables in agreement, exactly, for every peer. */
module HandshakeIds {
  import opened Bytes
  import opened Tables
  import opened Handshake

  /** In this run, if `p` has issued at most `n` ids, its tables agree. */
  ghost predicate AgreesUpTo(peers: set<Name>, steps: seq<Step>, p: Name, n: nat) {
    var w := Run(Init(peers), steps);
    p in w.managers && w.managers[p].issued <= n ==> Agree(w.managers[p].tables)
  }

  /** There are peers on both sides of `p`. */
  ghost predicate TwoSided(peers: set<Name>, p: Name) {
    exists s, q :: s in peers && q in peers && Less(s, p) && Less(p, q)
  }

  /** There is at most one other peer. */
  predicate Alone(peers: set<Name>, p: Name) {
    forall x, y :: x in peers && y in peers && x != p && y != p ==> x == y
  }

  lemma {:induction false} PeersStay(peers: set<Name>, steps: seq<Step>)
    ensures Run(Init(peers), steps).managers.Keys == peers
    decreases |steps|
  {
    hide Less, Present;
    if steps != [] {
      PeersStay(peers, steps[..|steps| - 1]);
    }
  }

  // -------------------------------------------------------------- ids that do not repeat

  /** Who has no smaller peer never accepts, and never uses the number 0 it has reserved. Who has
      no larger one never dials, and the last number is always the reserved one. Either way one
      more id can be issued. */
  lemma OneSidedDiffers(w: World, p: Name)
    requires Inv(w) && p in w.managers && w.managers[p].issued <= ID_SPACE + 1
    requires (forall q :: q in w.managers ==> !Less(q, p)) || (forall q :: q in w.managers ==> !Less(p, q))
    ensures IdsDiffer(w, p)
  {
    hide Inv, Less, IdsDiffer, NumberAt, Agree, EntriesInv;
    ManagerInOrder(w, p);
    ConnsInOrder(w);
    if forall q :: q in w.managers ==> !Less(q, p) {
      assert forall c :: 0 <= c < |w.conns| ==> w.conns[c].acceptor != p;
      WindowDiffers(w, p, 1);
    } else {
      assert forall c :: 0 <= c < |w.conns| ==> w.conns[c].dialer != p;
      WindowDiffers(w, p, 0);
    }
  }

  lemma ConnsInOrder(w: World)
    requires Inv(w)
    ensures forall c :: 0 <= c < |w.conns| ==>
              && w.conns[c].dialer in w.managers && w.conns[c].acceptor in w.managers
              && Less(w.conns[c].dialer, w.conns[c].acceptor)
  {
    hide ManagerInv, HistoryInv, Less;
    assert forall c :: 0 <= c < |w.conns| ==> ConnInv(w.conns[c], c, w.history);
  }

  /** One other peer only: whatever ids are used, the tables hold at most its session. */
  predicate OneName(w: World, p: Name, q: Name) {
    && p in w.managers && Agree(w.managers[p].tables)
    && forall id :: id in w.managers[p].tables.sessions ==> w.managers[p].tables.sessions[id].name == q
  }

  lemma OneNameTabled(t: Tables, id: nat, e: Entry)
    requires Agree(t) && !Present(t, e.name) && forall i :: i in t.sessions ==> t.sessions[i].name == e.name
    ensures Agree(Insert(t, id, e)) && forall i :: i in Insert(t, id, e).sessions ==> Insert(t, id, e).sessions[i].name == e.name
  {
    InsertAgreesExactly(t, id, e);
  }

  lemma OneNameStep(w: World, step: Step, p: Name, q: Name)
    requires Inv(w) && OneName(w, p, q) && forall x :: x in w.managers ==> x == p || x == q
    ensures OneName(Next(w, step), p, q)
  {
    hide ManagerInv, HistoryInv, Agree, Present, Insert, Remove, Less;
    var t := w.managers[p].tables;
    match step {
      case ConnectDone(c, ok) =>
        if c < |w.conns| {
          EndsAre(w, c, p, q);
          var e := Entry(c, w.conns[c].acceptor);
          if w.conns[c].dialer == p && !Present(t, e.name) { OneNameTabled(t, w.conns[c].dialNumber % ID_SPACE, e); }
        }
      case ToAcceptor(c) =>
        if c < |w.conns| && w.conns[c].toAcceptor != [] && w.conns[c].toAcceptor[0].HelloBack? {
          EndsAre(w, c, p, q);
          var e := Entry(c, w.conns[c].toAcceptor[0].name);
          if w.conns[c].acceptor == p && !Present(t, e.name) { OneNameTabled(t, w.conns[c].acceptNumber % ID_SPACE, e); }
        }
      case RemoveAt(r, name) =>
        RemoveAgrees(t, name);
        assert Remove(t, name).0.sessions.Keys <= t.sessions.Keys && forall id :: id in Remove(t, name).0.sessions ==>
          Remove(t, name).0.sessions[id] == t.sessions[id] by { RemoveShrinks(t, name); }
      case _ =>
    }
  }

  lemma RemoveShrinks(t: Tables, name: Name)
    ensures var u := Remove(t, name).0;
            u.sessions.Keys <= t.sessions.Keys && forall id :: id in u.sessions ==> u.sessions[id] == t.sessions[id]
  {
  }

  /** Whoever is connected with `p` is `q`. */
  lemma EndsAre(w: World, c: nat, p: Name, q: Name)
    requires Inv(w) && c < |w.conns| && forall x :: x in w.managers ==> x == p || x == q
    ensures var k := w.conns[c];
            && (k.dialer == p ==> k.acceptor == q) && (k.acceptor == p ==> k.dialer == q)
            && (k.toAcceptor != [] && k.toAcceptor[0].HelloBack? ==> k.toAcceptor[0].name == k.dialer)
  {
    hide ManagerInv, HistoryInv;
    assert ConnInv(w.conns[c], c, w.history);
    ExactlyOneDials(w.conns[c].dialer, w.conns[c].acceptor);
  }

  lemma {:induction false} OneNameEveryRun(peers: set<Name>, steps: seq<Step>, p: Name, q: Name)
    requires p in peers && forall x :: x in peers ==> x == p || x == q
    ensures OneName(Run(Init(peers), steps), p, q)
    decreases |steps|
  {
    hide Next, Inv;
    if steps != [] {
      var before := steps[..|steps| - 1];
      OneNameEveryRun(peers, before, p, q);
      EveryRunKeepsInv(peers, before);
      PeersStay(peers, before);
      OneNameStep(Run(Init(peers), before), steps[|steps| - 1], p, q);
    }
  }

  // ------------------------------------------------------------------ ids that repeat

  /** Dials to `q` that fail, each after `q` has deregistered and registered again, use up `k`
      ids of `p` and leave everything else about it as it was. */
  lemma {:induction false} FailedDials(w: World, p: Name, q: Name, steps: seq<Step>, k: nat) returns (more: seq<Step>)
    requires MayDial(Run(w, steps), p, q) && q !in Run(w, steps).managers[p].tables.byName
    ensures var u, v := Run(w, steps), Run(w, more);
            && MayDial(v, p, q) && v.managers.Keys == u.managers.Keys
            && v.managers[p] == u.managers[p].(issued := u.managers[p].issued + k)
    decreases k
  {
    hide Less, Present;
    if k == 0 {
      more := steps;
    } else {
      var before := FailedDials(w, p, q, steps, k - 1);
      var u := Run(w, before);
      var c := |u.conns|;
      RunTwo(w, before, Dial(p, q), ConnectDone(c, false));
      RunSnoc(w, before + [Dial(p, q), ConnectDone(c, false)], RemoveAt(p, q));
      more := before + [Dial(p, q), ConnectDone(c, false)] + [RemoveAt(p, q)];
      assert u.managers[p].nodes + {q} - {q} == u.managers[p].nodes;
    }
  }

  /** Connections from `t` that break before it says who it is use up `k` ids of `p`, which has
      never dialled. */
  lemma {:induction false} BrokenAccepts(w: World, t: Name, p: Name, steps: seq<Step>, k: nat) returns (more: seq<Step>)
    requires MayDial(Run(w, steps), t, p) && p !in Run(w, steps).managers[t].tables.byName
    requires Run(w, steps).managers[p].reserved + 1 == Run(w, steps).managers[p].issued
    ensures var u, v := Run(w, steps), Run(w, more);
            && MayDial(v, t, p) && v.managers.Keys == u.managers.Keys && v.managers[t].tables == u.managers[t].tables
            && v.managers[p] == u.managers[p].(issued := u.managers[p].issued + k, reserved := u.managers[p].reserved + k)
    decreases k
  {
    hide Less, Present, Next;
    if k == 0 {
      more := steps;
    } else {
      var before := BrokenAccepts(w, t, p, steps, k - 1);
      var c := |Run(w, before).conns|;
      BrokenAccept(Run(w, before), t, p);
      RunTwo(w, before, Dial(t, p), AcceptDone(c));
      RunTwo(w, before + [Dial(t, p), AcceptDone(c)], ConnectDone(c, false), RemoveAt(t, p));
      more := before + [Dial(t, p), AcceptDone(c)] + [ConnectDone(c, false), RemoveAt(t, p)];
    }
  }

  lemma BrokenAccept(u: World, t: Name, p: Name)
    requires MayDial(u, t, p)
    ensures var c := |u.conns|;
            var v := Next(Next(Next(Next(u, Dial(t, p)), AcceptDone(c)), ConnectDone(c, false)), RemoveAt(t, p));
            && v.managers.Keys == u.managers.Keys && v.managers[p] == u.managers[p].Accept()
            && (p !in u.managers[t].tables.byName ==>
                  && v.managers[t].tables == u.managers[t].tables && v.managers[t].nodes == u.managers[t].nodes
                  && MayDial(v, t, p))
  {
    hide Present, Less;
    ExactlyOneDials(t, p);
    var c := |u.conns|;
    var u1 := DoDial(u, t, p);
    var u2 := DoAccept(u1, c);
    assert Next(Next(u, Dial(t, p)), AcceptDone(c)) == u2;
    var u3 := DoConnect(u2, c, false);
    assert Next(u2, ConnectDone(c, false)) == u3;
    assert u.managers[t].nodes + {p} - {p} == u.managers[t].nodes;
  }

  /** A successful dial tables the peer under the next id. */
  lemma DialAndConnect(w: World, steps: seq<Step>, p: Name, q: Name) returns (more: seq<Step>)
    requires MayDial(Run(w, steps), p, q)
    ensures var u, v := Run(w, steps), Run(w, more);
            && v.managers.Keys == u.managers.Keys
            && exists c :: v.managers[p] == Dialled(u.managers[p], c, q)
  {
    hide Next;
    var u := Run(w, steps);
    ConnectionUp(u, p, q);
    RunTwo(w, steps, Dial(p, q), ConnectDone(|u.conns|, true));
    more := steps + [Dial(p, q), ConnectDone(|u.conns|, true)];
  }

  /** Two names of `p` map to one session. */
  predicate Disagrees(w: World, p: Name, a: Name, b: Name, issued: nat) {
    && p in w.managers && w.managers[p].issued == issued
    && var t := w.managers[p].tables;
       !Agree(t) && a != b && a in t.byName && b in t.byName && t.byName[a] == t.byName[b]
  }

  /** With a smaller and a larger peer there is a run, at 65537 ids, after which the tables of
      `p` disagree: the session accepted under id 0 has been overwritten by the dial that got
      id 0 again. */
  lemma DisagreeBetween(peers: set<Name>, s: Name, p: Name, q: Name) returns (steps: seq<Step>)
    requires {s, p, q} <= peers && Less(s, p) && Less(p, q)
    ensures Disagrees(Run(Init(peers), steps), p, s, q, ID_SPACE + 1)
  {
    hide Next, Less, Run;
    var w0 := Init(peers);
    NoSteps(w0);
    ExactlyOneDials(s, p);
    ExactlyOneDials(p, q);
    steps := HandshakeCompletes(w0, [], s, p);
    var w1 := Run(w0, steps);
    assert w1.managers[p].tables == Insert(Tables(map[], map[]), 0, Entry(0, s)) && w1.managers[p].nodes == {s};
    assert MayDial(w1, p, q);
    steps := FailedDials(w0, p, q, steps, ID_SPACE - 2);
    steps := DialAndConnect(w0, steps, p, q);
    var t := Run(w0, steps).managers[p].tables;
    assert t.byName[s] == 0 && t.sessions[0].name == q;
  }

  /** With two larger peers, at 65538: the first dial had id 1, and so has the last. */
  lemma DisagreeBelow(peers: set<Name>, p: Name, q: Name, r: Name) returns (steps: seq<Step>)
    requires {p, q, r} <= peers && Less(p, q) && Less(p, r) && q != r
    ensures Disagrees(Run(Init(peers), steps), p, q, r, ID_SPACE + 2)
  {
    hide Next, Less, Run;
    var w0 := Init(peers);
    NoSteps(w0);
    steps := DialAndConnect(w0, [], p, q);
    var w1 := Run(w0, steps);
    assert exists c :: w1.managers[p].tables == Insert(Tables(map[], map[]), 1, Entry(c, q));
    assert w1.managers[p].nodes == {q} && MayDial(w1, p, r);
    steps := FailedDials(w0, p, r, steps, ID_SPACE - 1);
    steps := DialAndConnect(w0, steps, p, r);
    var t := Run(w0, steps).managers[p].tables;
    assert t.byName[q] == 1 && t.sessions[1].name == r;
  }

  /** With two smaller peers, at 65538: the first accept had id 0, and so has the last. */
  lemma DisagreeAbove(peers: set<Name>, s: Name, t: Name, p: Name) returns (steps: seq<Step>)
    requires {s, t, p} <= peers && Less(s, p) && Less(t, p) && s != t
    ensures Disagrees(Run(Init(peers), steps), p, s, t, ID_SPACE + 2)
  {
    hide Next, Less, Run;
    var w0 := Init(peers);
    NoSteps(w0);
    ExactlyOneDials(s, p);
    ExactlyOneDials(t, p);
    steps := HandshakeCompletes(w0, [], s, p);
    var w1 := Run(w0, steps);
    assert w1.managers[p].tables == Insert(Tables(map[], map[]), 0, Entry(0, s));
    assert MayDial(w1, t, p);
    steps := BrokenAccepts(w0, t, p, steps, ID_SPACE - 1);
    steps := HandshakeCompletes(w0, steps, t, p);
    var u := Run(w0, steps).managers[p].tables;
    assert u.byName[s] == 0 && u.sessions[0].name == t;
  }

  // ------------------------------------------------------------------- the exact limit

  lemma AgreesWithin(peers: set<Name>, steps: seq<Step>, p: Name, n: nat)
    requires p in peers && (n <= ID_SPACE || (n == ID_SPACE + 1 && !TwoSided(peers, p)))
    ensures AgreesUpTo(peers, steps, p, n)
  {
    hide Run, Agree, Less, IdsDiffer, NumbersInv, EntriesInv;
    var w := Run(Init(peers), steps);
    EveryRunKeepsInv(peers, steps);
    PeersStay(peers, steps);
    assert ManagerInv(w, p);
    if w.managers[p].issued <= ID_SPACE {
      WithinIdsAgree(w, p);
    } else if w.managers[p].issued <= n {
      OneSidedDiffers(w, p);
    }
  }

  /** The exact limit, for every peer of every network: its tables agree in every run in which it
      issues at most `n` ids if and only if there is at most one other peer, or `n` is at most
      65536, or `n` is 65537 and all the others are on one side of it. */
  lemma AgreeExactly(peers: set<Name>, p: Name, n: nat)
    requires p in peers
    ensures (forall steps :: AgreesUpTo(peers, steps, p, n))
        <==> Alone(peers, p) || n <= ID_SPACE || (n == ID_SPACE + 1 && !TwoSided(peers, p))
  {
    hide Run, Agree, Less;
    if Alone(peers, p) {
      var q :| q in peers && forall x :: x in peers ==> x == p || x == q;
      forall steps: seq<Step>
        ensures AgreesUpTo(peers, steps, p, n)
      {
        OneNameEveryRun(peers, steps, p, q);
      }
    } else if n <= ID_SPACE || (n == ID_SPACE + 1 && !TwoSided(peers, p)) {
      forall steps: seq<Step>
        ensures AgreesUpTo(peers, steps, p, n)
      {
        AgreesWithin(peers, steps, p, n);
      }
    } else {
      var steps := DisagreesBeyond(peers, p, n);
      assert !AgreesUpTo(peers, steps, p, n);
    }
  }

  lemma DisagreesBeyond(peers: set<Name>, p: Name, n: nat) returns (steps: seq<Step>)
    requires p in peers && !Alone(peers, p) && n > ID_SPACE && (n > ID_SPACE + 1 || TwoSided(peers, p))
    ensures !AgreesUpTo(peers, steps, p, n)
  {
    hide Run, Agree, Less;
    if TwoSided(peers, p) {
      var s, q :| s in peers && q in peers && Less(s, p) && Less(p, q);
      steps := DisagreeBetween(peers, s, p, q);
    } else {
      var x, y :| x in peers && y in peers && x != p && y != p && x != y;
      ExactlyOneDials(x, p);
      ExactlyOneDials(y, p);
      if Less(p, x) && Less(p, y) {
        steps := DisagreeBelow(peers, p, x, y);
      } else {
        steps := DisagreeAbove(peers, x, y, p);
      }
    }
  }
}
