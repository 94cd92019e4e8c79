/** The two session tables of the connection manager (`sessions_m`, `service_sessionid_m`),
    the rule that decides who dials, and the manager object that updates them. */
module Tables {
  import opened Bytes

  type Name = seq<byte>

  /** Session ids are 16 bits wide and wrap. */
  const ID_SPACE: nat := 65536

  /** `std::string` order. */
  predicate Less(a: Name, b: Name) {
    b != [] && (a == [] || a[0] < b[0] || (a[0] == b[0] && Less(a[1..], b[1..])))
  }

  /** The names agree up to `k`, where `a` ends or has the smaller byte. */
  predicate SmallerAt(a: Name, b: Name, k: nat) {
    k <= |a| && k < |b| && a[..k] == b[..k] && (k == |a| || a[k] < b[k])
  }

  /** The smaller name is the one that ends first, or has the smaller byte, where they differ. */
  lemma {:induction false} LessExactly(a: Name, b: Name)
    ensures Less(a, b) <==> exists k: nat :: SmallerAt(a, b, k)
  {
    if a == [] || b == [] || a[0] != b[0] {
      if Less(a, b) { assert SmallerAt(a, b, 0); }
      if k: nat :| SmallerAt(a, b, k) {
        assert k > 0 ==> a[..k][0] == b[..k][0];
      }
    } else {
      LessExactly(a[1..], b[1..]);
      if k: nat :| SmallerAt(a[1..], b[1..], k) {
        assert a[..k + 1] == [a[0]] + a[1..][..k] && b[..k + 1] == [b[0]] + b[1..][..k];
        assert SmallerAt(a, b, k + 1);
      }
      if k: nat :| SmallerAt(a, b, k) {
        assert k > 0;
        assert a[1..][..k - 1] == a[..k][1..] && b[1..][..k - 1] == b[..k][1..];
        assert SmallerAt(a[1..], b[1..], k - 1);
      }
    }
  }

  /** Glare avoidance rests on this: of two different names exactly one dials the other, and
      no peer dials itself. */
  lemma {:induction false} ExactlyOneDials(a: Name, b: Name)
    ensures a == b ==> !Less(a, b)
    ensures a != b ==> (Less(a, b) <==> !Less(b, a))
  {
    if a != [] && b != [] {
      ExactlyOneDials(a[1..], b[1..]);
      assert a == [a[0]] + a[1..] && b == [b[0]] + b[1..];
    }
  }

  /** A tabled session: the connection it runs on and the peer name it carries. */
  datatype Entry = Entry(conn: nat, name: Name)

  datatype Tables = Tables(sessions: map<nat, Entry>, byName: map<Name, nat>)

  /** The tables are inverse to each other. */
  predicate Agree(t: Tables) {
    && (forall n :: n in t.byName ==> t.byName[n] in t.sessions && t.sessions[t.byName[n]].name == n)
    && (forall id :: id in t.sessions ==> t.sessions[id].name in t.byName && t.byName[t.sessions[id].name] == id)
  }

  /** `IsSessionAlreadyPresent`: some session carries the name. */
  ghost predicate Present(t: Tables, name: Name) {
    exists id :: id in t.sessions && t.sessions[id].name == name
  }

  function Insert(t: Tables, id: nat, e: Entry): Tables {
    Tables(t.sessions[id := e], t.byName[e.name := id])
  }

  datatype Removal = NoMapping | StaleMapping | Removed

  /** `RemoveSession`, with the branch it takes. */
  function Remove(t: Tables, name: Name): (Tables, Removal) {
    if name !in t.byName then (t, NoMapping)
    else if t.byName[name] !in t.sessions then (t.(byName := t.byName - {name}), StaleMapping)
    else (Tables(t.sessions - {t.byName[name]}, t.byName - {name}), Removed)
  }

  lemma PresentMeansMapped(t: Tables, name: Name)
    requires Agree(t)
    ensures Present(t, name) <==> name in t.byName
  {
    if name in t.byName {
      var id := t.byName[name];
      assert id in t.sessions && t.sessions[id].name == name;
    }
  }

  /** Tabling a new name keeps the tables inverse exactly when its id is not in use: a reused
      id would leave the old name mapped to a session that carries another. */
  lemma InsertAgreesExactly(t: Tables, id: nat, e: Entry)
    requires Agree(t) && !Present(t, e.name)
    ensures Agree(Insert(t, id, e)) <==> id !in t.sessions
  {
    PresentMeansMapped(t, e.name);
    var u := Insert(t, id, e);
    if id in t.sessions {
      var former := t.sessions[id].name;
      assert former != e.name;
      assert u.byName[former] == id && u.sessions[id].name != former;
    }
  }

  /** From agreeing tables, removal never meets a stale mapping, and leaves agreeing tables in
      which exactly that name is gone. */
  lemma RemoveAgrees(t: Tables, name: Name)
    requires Agree(t)
    ensures var (u, how) := Remove(t, name);
            && how != StaleMapping && Agree(u)
            && u.byName == t.byName - {name}
            && (how == Removed <==> Present(t, name))
  {
    PresentMeansMapped(t, name);
  }

  // -------------------------------------------------------------- the manager's state

  /** Tables, how many ids have been issued, the number of the issue that the next accept has
      reserved, and the names in `nodesM`. The id of an issue is its number in 16 bits. */
  datatype Manager = Manager(tables: Tables, issued: nat, reserved: nat, nodes: set<Name>) {
    function Issue(): Manager {
      this.(issued := issued + 1)
    }

    /** An accept uses the reserved number and reserves another. */
    function Accept(): Manager {
      Issue().(reserved := issued)
    }

    function Note(name: Name): Manager {
      this.(nodes := nodes + {name})
    }

    function Table(id: nat, e: Entry): Manager {
      this.(tables := Insert(tables, id, e))
    }

    /** A service deregisters: its node is forgotten and its session removed. */
    function Forget(name: Name): Manager {
      this.(nodes := nodes - {name}, tables := Remove(tables, name).0)
    }
  }

  /** Whatever the tables: a deregistered name is neither a node nor mapped any more, nothing is
      new, and from agreeing tables exactly its own session is gone. */
  lemma DeregistrationForgets(m: Manager, name: Name)
    ensures var t, u := m.tables, m.Forget(name).tables;
            && m.Forget(name).nodes == m.nodes - {name} && u.byName == t.byName - {name}
            && (forall id :: id in u.sessions ==> id in t.sessions && u.sessions[id] == t.sessions[id])
            && (Agree(t) ==> forall id :: id in t.sessions ==> (id in u.sessions <==> t.sessions[id].name != name))
  {
  }

  const FRESH_MANAGER := Manager(Tables(map[], map[]), 1, 0, {})

  class ConnectionManager {
    const me: Name
    var currentSessionID: nat
    var acceptId: nat
    var sessions: map<nat, Entry>
    var byName: map<Name, nat>
    var nodes: set<Name>
    ghost var issued: nat
    ghost var reserved: nat

    ghost predicate Valid()
      reads this
    {
      currentSessionID == issued % ID_SPACE && acceptId == reserved % ID_SPACE
    }

    ghost function View(): Manager
      reads this
    {
      Manager(Tables(sessions, byName), issued, reserved, nodes)
    }

    /** Construction and `StartAcceptingConnections`: the first accept takes id 0. */
    constructor (me: Name)
      ensures Valid() && View() == FRESH_MANAGER && this.me == me
    {
      this.me := me;
      currentSessionID, acceptId, issued, reserved := 1, 0, 1, 0;
      sessions, byName, nodes := map[], map[], {};
    }

    method IssueId() returns (id: nat)
      requires Valid()
      modifies `currentSessionID, `issued
      ensures Valid() && id == old(issued) % ID_SPACE && View() == old(View()).Issue()
    {
      id := currentSessionID;
      currentSessionID := (currentSessionID + 1) % ID_SPACE;
      issued := issued + 1;
    }

    /** The search loop over all sessions. */
    method IsSessionAlreadyPresent(name: Name) returns (found: bool)
      ensures found <==> Present(View().tables, name)
    {
      found := false;
      var left := sessions.Keys;
      while left != {} && !found
        invariant left <= sessions.Keys
        invariant found ==> Present(View().tables, name)
        invariant !found ==> forall id :: id in sessions.Keys - left ==> sessions[id].name != name
        decreases left
      {
        var id :| id in left;
        if sessions[id].name == name { found := true; }
        left := left - {id};
      }
    }

    /** `InitiateSessionWithNode`: the larger name, and whoever has a session, does not dial. */
    method InitiateSessionWithNode(peer: Name) returns (dialled: Option<nat>)
      requires Valid()
      modifies `currentSessionID, `issued
      ensures Valid()
      ensures dialled.Some? <==> Less(me, peer) && !Present(old(View()).tables, peer)
      ensures View() == if dialled.Some? then old(View()).Issue() else old(View())
      ensures dialled.Some? ==> dialled.value == old(issued) % ID_SPACE
    {
      dialled := None;
      if !Less(me, peer) { return; }
      var present := IsSessionAlreadyPresent(peer);
      if present { return; }
      var id := IssueId();
      dialled := Some(id);
    }

    /** The end of `HandleResolvedServices`: a node that is known is left alone; any other is
        noted, and dialled if the manager decides so. */
    method HandleResolvedService(peer: Name) returns (dialled: Option<nat>)
      requires Valid()
      modifies `currentSessionID, `issued, `nodes
      ensures Valid()
      ensures dialled.Some? <==>
                peer !in old(View()).nodes && Less(me, peer) && !Present(old(View()).tables, peer)
      ensures View() == if dialled.Some? then old(View()).Issue().Note(peer) else old(View()).Note(peer)
      ensures dialled.Some? ==> dialled.value == old(issued) % ID_SPACE
    {
      dialled := None;
      if peer in nodes {
        assert nodes + {peer} == nodes;
        return;
      }
      dialled := InitiateSessionWithNode(peer);
      nodes := nodes + {peer};
    }

    /** `ConnectHandler` on success, and the tabling half of `HandleSessionIdentification`. */
    method TableUnlessPresent(id: nat, e: Entry) returns (tabled: bool)
      modifies `sessions, `byName
      ensures tabled <==> !Present(old(View()).tables, e.name)
      ensures View() == if tabled then old(View()).Table(id, e) else old(View())
    {
      var present := IsSessionAlreadyPresent(e.name);
      if present { return false; }
      sessions := sessions[id := e];
      byName := byName[e.name := id];
      tabled := true;
    }

    /** `HandleSessionIdentification`: a session that is tabled is noted as a node as well. */
    method HandleSessionIdentification(id: nat, e: Entry) returns (tabled: bool)
      modifies `sessions, `byName, `nodes
      ensures tabled <==> !Present(old(View()).tables, e.name)
      ensures View() == if tabled then old(View()).Table(id, e).Note(e.name) else old(View())
    {
      tabled := TableUnlessPresent(id, e);
      if tabled { nodes := nodes + {e.name}; }
    }

    /** A connection is accepted under the reserved id, and the next accept reserves another. */
    method Accepted() returns (id: nat)
      requires Valid()
      modifies `currentSessionID, `issued, `acceptId, `reserved
      ensures Valid() && id == old(reserved) % ID_SPACE && View() == old(View()).Accept()
    {
      id := acceptId;
      ghost var number := issued;
      var next := IssueId();
      acceptId, reserved := next, number;
    }

    method RemoveSession(name: Name) returns (how: Removal)
      modifies `sessions, `byName
      ensures (View().tables, how) == Remove(old(View()).tables, name)
      ensures View() == old(View()).(tables := View().tables)
    {
      if name !in byName { return NoMapping; }
      var id := byName[name];
      if id !in sessions {
        byName := byName - {name};
        return StaleMapping;
      }
      sessions := sessions - {id};
      byName := byName - {name};
      how := Removed;
    }

    /** `HandleServiceDeregistration` of one known service. */
    method HandleDeregistration(name: Name) returns (how: Removal)
      modifies `sessions, `byName, `nodes
      ensures how == Remove(old(View()).tables, name).1 && View() == old(View()).Forget(name)
    {
      nodes := nodes - {name};
      how := RemoveSession(name);
    }
  }
}
