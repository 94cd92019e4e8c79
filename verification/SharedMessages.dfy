/** Messages are shared: the broker puts the same object into every subscriber's mailbox, and
    whoever handles it first moves its data out. */
module SharedMessages {
  import opened Bytes
  import opened Broker

  /** The numbers of the messages that mailbox `id` receives, in order. */
  function Numbers(subs: map<Event, seq<Id>>, id: Id, msgs: seq<Msg>): (r: seq<nat>)
    ensures forall k :: 0 <= k < |r| ==> r[k] < |msgs| && Subscribed(subs, id, msgs[r[k]].event)
    ensures forall j, k :: 0 <= j < k < |r| ==> r[j] < r[k]
    ensures forall n: nat :: n < |msgs| && Subscribed(subs, id, msgs[n].event) ==> n in r
  {
    if msgs == [] then []
    else
      var n := |msgs| - 1;
      var rest := Numbers(subs, id, msgs[..n]);
      if Subscribed(subs, id, msgs[n].event) then rest + [n] else rest
  }

  function Arriving(msgs: seq<Msg>): (r: seq<Option<Msg>>)
    ensures |r| == |msgs|
  {
    seq(|msgs|, i requires 0 <= i < |msgs| => Some(msgs[i]))
  }

  lemma OwedStep(subs: map<Event, seq<Id>>, id: Id, msgs: seq<Msg>)
    requires msgs != []
    ensures var n := |msgs| - 1;
            var rest := Owed(subs, id, Arriving(msgs[..n]));
            Owed(subs, id, Arriving(msgs)) == if Subscribed(subs, id, msgs[n].event) then rest + [msgs[n]] else rest
  {
    hide Subscribed;
    var n := |msgs| - 1;
    assert Arriving(msgs)[..n] == Arriving(msgs[..n]);
  }

  lemma NumbersStep(subs: map<Event, seq<Id>>, id: Id, msgs: seq<Msg>)
    requires msgs != []
    ensures var n := |msgs| - 1;
            var rest := Numbers(subs, id, msgs[..n]);
            Numbers(subs, id, msgs) == if Subscribed(subs, id, msgs[n].event) then rest + [n] else rest
  {
  }

  /** They are the messages that the routing loop delivers. */
  lemma {:induction false} NumbersAreOwed(subs: map<Event, seq<Id>>, id: Id, msgs: seq<Msg>)
    ensures var r, owed := Numbers(subs, id, msgs), Owed(subs, id, Arriving(msgs));
            |r| == |owed| && forall k :: 0 <= k < |r| ==> msgs[r[k]] == owed[k]
    decreases |msgs|
  {
    if msgs != [] {
      hide Subscribed, Numbers, Owed, Arriving;
      var n := |msgs| - 1;
      NumbersAreOwed(subs, id, msgs[..n]);
      NumbersStep(subs, id, msgs);
      OwedStep(subs, id, msgs);
    }
  }

  /** A handler was called for a message, with its data or with none. */
  datatype Call = Call(id: Id, number: nat, data: bool)

  /** Mailboxes, the messages whose data has been moved out, and the calls so far. */
  datatype Mail = Mail(boxes: map<Id, seq<nat>>, taken: set<nat>, calls: seq<Call>)

  function Routed(attached: set<Id>, subs: map<Event, seq<Id>>, msgs: seq<Msg>): Mail {
    Mail(map id | id in attached :: Numbers(subs, id, msgs), {}, [])
  }

  /** The component `id` takes its next message and calls the handler with what is left of it. */
  function Handle(s: Mail, id: Id): Mail {
    if id !in s.boxes || s.boxes[id] == [] then s
    else
      var n := s.boxes[id][0];
      Mail(s.boxes[id := s.boxes[id][1..]], s.taken + {n}, s.calls + [Call(id, n, n !in s.taken)])
  }

  /** Components at work in this order. */
  function HandleAll(s: Mail, order: seq<Id>): Mail
    decreases |order|
  {
    if order == [] then s else HandleAll(Handle(s, order[0]), order[1..])
  }

  // ------------------------------------------------------------- who sees the data

  /** The data of a message goes to the first call, and to no other. */
  ghost predicate FirstSees(s: Mail) {
    && (forall n :: n in s.taken <==> exists i :: 0 <= i < |s.calls| && s.calls[i].number == n)
    && forall j :: 0 <= j < |s.calls| ==>
         (s.calls[j].data <==> forall i :: 0 <= i < j ==> s.calls[i].number != s.calls[j].number)
  }

  lemma HandleKeepsFirst(s: Mail, id: Id)
    requires FirstSees(s)
    ensures FirstSees(Handle(s, id))
  {
    if id in s.boxes && s.boxes[id] != [] {
      var t := Handle(s, id);
      var k := |s.calls|;
      assert forall i :: 0 <= i < k ==> t.calls[i] == s.calls[i];
      assert t.calls[k].number == s.boxes[id][0];
      forall n
        ensures n in t.taken <==> exists i :: 0 <= i < |t.calls| && t.calls[i].number == n
      {
        if n in s.taken {
          var i :| 0 <= i < k && s.calls[i].number == n;
          assert t.calls[i].number == n;
        }
      }
    }
  }

  /** In whatever order the components handle their mail, the data of each message goes to the
      component that handles it first, and to no other. */
  lemma {:induction false} DataGoesToTheFirst(s: Mail, order: seq<Id>)
    requires FirstSees(s)
    ensures FirstSees(HandleAll(s, order))
    decreases |order|
  {
    hide FirstSees, Handle;
    if order != [] {
      HandleKeepsFirst(s, order[0]);
      DataGoesToTheFirst(Handle(s, order[0]), order[1..]);
    }
  }

  // ------------------------------------------------------------ no message shared

  /** No message has two subscribers. */
  predicate Unshared(attached: set<Id>, subs: map<Event, seq<Id>>, msgs: seq<Msg>) {
    forall n, a, b :: 0 <= n < |msgs| && a in attached && b in attached && a != b ==>
      !(Subscribed(subs, a, msgs[n].event) && Subscribed(subs, b, msgs[n].event))
  }

  /** What is in a mailbox is subscribed, and in order. */
  predicate BoxInv(box: seq<nat>, id: Id, subs: map<Event, seq<Id>>, msgs: seq<Msg>) {
    && (forall k :: 0 <= k < |box| ==> box[k] < |msgs| && Subscribed(subs, id, msgs[box[k]].event))
    && (forall j, k :: 0 <= j < k < |box| ==> box[j] < box[k])
  }

  /** What was handled was subscribed, and is earlier than what is left in the mailbox. */
  predicate CallInv(c: Call, box: seq<nat>, subs: map<Event, seq<Id>>, msgs: seq<Msg>) {
    && c.number < |msgs| && Subscribed(subs, c.id, msgs[c.number].event)
    && forall k :: 0 <= k < |box| ==> c.number < box[k]
  }

  predicate BoxesInv(s: Mail, attached: set<Id>, subs: map<Event, seq<Id>>, msgs: seq<Msg>) {
    && s.boxes.Keys == attached
    && (forall id :: id in s.boxes ==> BoxInv(s.boxes[id], id, subs, msgs))
    && (forall i :: 0 <= i < |s.calls| ==>
          s.calls[i].id in s.boxes && CallInv(s.calls[i], s.boxes[s.calls[i].id], subs, msgs))
  }

  predicate AllSee(s: Mail) {
    forall j :: 0 <= j < |s.calls| ==> s.calls[j].data
  }

  lemma BoxStep(box: seq<nat>, id: Id, data: bool, subs: map<Event, seq<Id>>, msgs: seq<Msg>)
    requires box != [] && BoxInv(box, id, subs, msgs)
    ensures BoxInv(box[1..], id, subs, msgs) && CallInv(Call(id, box[0], data), box[1..], subs, msgs)
    ensures forall c :: CallInv(c, box, subs, msgs) ==> CallInv(c, box[1..], subs, msgs)
  {
    hide Subscribed;
  }

  lemma HandleKeepsBoxes(s: Mail, id: Id, attached: set<Id>, subs: map<Event, seq<Id>>, msgs: seq<Msg>)
    requires BoxesInv(s, attached, subs, msgs)
    ensures BoxesInv(Handle(s, id), attached, subs, msgs)
  {
    hide BoxInv, CallInv;
    if id in s.boxes && s.boxes[id] != [] {
      BoxStep(s.boxes[id], id, s.boxes[id][0] !in s.taken, subs, msgs);
    }
  }

  lemma HandleSees(s: Mail, id: Id, attached: set<Id>, subs: map<Event, seq<Id>>, msgs: seq<Msg>)
    requires BoxesInv(s, attached, subs, msgs) && Unshared(attached, subs, msgs) && FirstSees(s) && AllSee(s)
    ensures AllSee(Handle(s, id))
  {
    hide Subscribed;
    if id in s.boxes && s.boxes[id] != [] {
      NextIsFresh(s, id, attached, subs, msgs);
    }
  }

  lemma NextIsFresh(s: Mail, id: Id, attached: set<Id>, subs: map<Event, seq<Id>>, msgs: seq<Msg>)
    requires BoxesInv(s, attached, subs, msgs) && Unshared(attached, subs, msgs) && FirstSees(s)
    requires id in s.boxes && s.boxes[id] != []
    ensures s.boxes[id][0] !in s.taken
  {
    hide Subscribed;
    forall i | 0 <= i < |s.calls|
      ensures s.calls[i].number != s.boxes[id][0]
    {
      var c := s.calls[i];
      assert BoxInv(s.boxes[id], id, subs, msgs) && CallInv(c, s.boxes[c.id], subs, msgs);
      if c.id == id {
        assert c.number < s.boxes[id][0];
      } else {
        assert Subscribed(subs, c.id, msgs[c.number].event) && Subscribed(subs, id, msgs[s.boxes[id][0]].event);
      }
    }
  }

  lemma {:induction false} AllSeeKept(s: Mail, order: seq<Id>, attached: set<Id>, subs: map<Event, seq<Id>>, msgs: seq<Msg>)
    requires BoxesInv(s, attached, subs, msgs) && Unshared(attached, subs, msgs) && FirstSees(s) && AllSee(s)
    ensures AllSee(HandleAll(s, order))
    decreases |order|
  {
    hide BoxesInv, Unshared, FirstSees, AllSee, Handle;
    if order != [] {
      HandleSees(s, order[0], attached, subs, msgs);
      HandleKeepsBoxes(s, order[0], attached, subs, msgs);
      HandleKeepsFirst(s, order[0]);
      AllSeeKept(Handle(s, order[0]), order[1..], attached, subs, msgs);
    }
  }

  // --------------------------------------------------------------- a shared message

  lemma {:induction false} HandleAllAppend(s: Mail, a: seq<Id>, b: seq<Id>)
    ensures HandleAll(s, a + b) == HandleAll(HandleAll(s, a), b)
    decreases |a|
  {
    hide Handle;
    if a == [] {
      assert a + b == b;
    } else {
      HandleAllAppend(Handle(s, a[0]), a[1..], b);
      assert (a + b)[1..] == a[1..] + b;
    }
  }

  /** A component that handles its mail up to position `k` has called for the message there, and
      has found data exactly if nobody else had it before. */
  lemma {:induction false} HandleUpTo(s: Mail, id: Id, k: nat) returns (order: seq<Id>)
    requires id in s.boxes && k < |s.boxes[id]|
    requires forall i, j :: 0 <= i < j < |s.boxes[id]| ==> s.boxes[id][i] < s.boxes[id][j]
    ensures var t := HandleAll(s, order);
            && t.boxes.Keys == s.boxes.Keys && (forall x :: x in s.boxes && x != id ==> t.boxes[x] == s.boxes[x])
            && t.calls != [] && t.calls[|t.calls| - 1] == Call(id, s.boxes[id][k], s.boxes[id][k] !in s.taken)
            && s.boxes[id][k] in t.taken
    decreases k
  {
    var t := Handle(s, id);
    if k == 0 {
      order := [id];
      assert HandleAll(s, [id]) == HandleAll(t, []);
    } else {
      var rest := HandleUpTo(t, id, k - 1);
      order := [id] + rest;
      assert order[1..] == rest;
    }
  }

  /** Of two subscribers of one message, the second to handle it gets none of its data. */
  lemma SecondGetsNothing(attached: set<Id>, subs: map<Event, seq<Id>>, msgs: seq<Msg>, n: nat, a: Id, b: Id)
    returns (order: seq<Id>)
    requires n < |msgs| && a in attached && b in attached && a != b
    requires Subscribed(subs, a, msgs[n].event) && Subscribed(subs, b, msgs[n].event)
    ensures !AllSee(HandleAll(Routed(attached, subs, msgs), order))
  {
    hide Numbers, Subscribed;
    var s := Routed(attached, subs, msgs);
    var j :| 0 <= j < |s.boxes[a]| && s.boxes[a][j] == n;
    var k :| 0 <= k < |s.boxes[b]| && s.boxes[b][k] == n;
    var first := HandleUpTo(s, a, j);
    var second := HandleUpTo(HandleAll(s, first), b, k);
    HandleAllAppend(s, first, second);
    order := first + second;
  }

  /** Exactly: every handler sees the data of every message it is called for, in whatever order
      the components work, if and only if no message has two subscribers. */
  lemma EveryHandlerSeesExactly(attached: set<Id>, subs: map<Event, seq<Id>>, msgs: seq<Msg>)
    ensures (forall order :: AllSee(HandleAll(Routed(attached, subs, msgs), order))) <==> Unshared(attached, subs, msgs)
  {
    hide Numbers, Subscribed, HandleAll, AllSee;
    var s := Routed(attached, subs, msgs);
    if Unshared(attached, subs, msgs) {
      forall order: seq<Id>
        ensures AllSee(HandleAll(s, order))
      {
        NoCalls(s);
        AllSeeKept(s, order, attached, subs, msgs);
      }
    } else {
      var n, a, b :| 0 <= n < |msgs| && a in attached && b in attached && a != b &&
        Subscribed(subs, a, msgs[n].event) && Subscribed(subs, b, msgs[n].event);
      var order := SecondGetsNothing(attached, subs, msgs, n, a, b);
    }
  }

  lemma NoCalls(s: Mail)
    requires s.calls == [] && s.taken == {}
    ensures AllSee(s) && FirstSees(s)
  {
  }
}
