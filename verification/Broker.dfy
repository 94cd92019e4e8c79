/** The message broker (`BVBroker`): mailboxes at 8-bit subscriber ids, subscription lists per
    event, and the routing loop. */
module Broker {
  import opened Bytes

  type Id = byte
  type Event = nat

  const TERMINATE_ALL: Event := 13
  const SLOTS: nat := 256

  datatype Msg = Msg(event: Event, data: nat)

  /** Mailboxes of the attached components (an empty slot is a missing key), subscription
      lists, the 8-bit count of attached components, and the id to try next. */
  datatype State = State(boxes: map<Id, seq<Msg>>, subs: map<Event, seq<Id>>, count: byte, current: Id)

  const EMPTY := State(map[], map[], 0, 0)

  // --------------------------------------------------------------------- id allocation

  /** `CycleCurrentSubscriberId` from its `i`-th turn: the next free id after `start`, or
      `start` again after a full turn without one. */
  function CycleFrom(taken: set<Id>, start: Id, i: nat): (r: (Id, bool))
    requires i <= SLOTS
    ensures r.1 ==> r.0 !in taken
    ensures !r.1 ==> r.0 == start
    decreases SLOTS - i
  {
    if i == SLOTS then (start, false)
    else
      var id := (start + 1 + i) % SLOTS;
      if id !in taken then (id, true) else CycleFrom(taken, start, i + 1)
  }

  lemma CycleTurn(taken: set<Id>, start: Id, i: nat)
    requires i <= SLOTS
    ensures CycleFrom(taken, start, i) ==
            if i == SLOTS then (start, false)
            else if (start + 1 + i) % SLOTS !in taken then ((start + 1 + i) % SLOTS, true)
            else CycleFrom(taken, start, i + 1)
  {
  }

  lemma {:induction false} CycleMisses(taken: set<Id>, start: Id, i: nat, id: Id)
    requires i <= SLOTS && !CycleFrom(taken, start, i).1
    requires i <= (id - start - 1) % SLOTS
    ensures id in taken
    decreases SLOTS - i
  {
    var k := (id - start - 1) % SLOTS;
    if i < SLOTS && i < k {
      CycleMisses(taken, start, i + 1, id);
    } else {
      assert (start + 1 + k) % SLOTS == id;
    }
  }

  /** The search finds a slot exactly if there is one. */
  lemma CycleFindsExactly(taken: set<Id>, start: Id)
    ensures CycleFrom(taken, start, 0).1 <==> exists id: Id :: id !in taken
  {
    if !CycleFrom(taken, start, 0).1 {
      forall id: Id
        ensures id in taken
      {
        CycleMisses(taken, start, 0, id);
      }
    }
  }

  /** The id `n` places after `start`, in cyclic order. */
  function IdAfter(start: Id, n: nat): Id {
    (start + n) % SLOTS
  }

  lemma {:induction false} CycleNextFrom(taken: set<Id>, start: Id, i: nat, k: nat)
    requires i <= k < SLOTS && IdAfter(start, k + 1) !in taken
    requires forall j :: i < j <= k ==> IdAfter(start, j) in taken
    ensures CycleFrom(taken, start, i) == (IdAfter(start, k + 1), true)
    decreases k - i
  {
    if i < k {
      assert IdAfter(start, i + 1) in taken;
      CycleNextFrom(taken, start, i + 1, k);
    }
  }

  /** It is the first free slot after the current one, in cyclic order. */
  lemma CycleFindsNext(taken: set<Id>, start: Id, k: nat)
    requires 0 < k <= SLOTS && IdAfter(start, k) !in taken
    requires forall j :: 0 < j < k ==> IdAfter(start, j) in taken
    ensures CycleFrom(taken, start, 0) == (IdAfter(start, k), true)
  {
    CycleNextFrom(taken, start, 0, k - 1);
  }

  /** `Attach`: the new state and the id given to the component. The guard on the 8-bit
      counter compares it with 256. */
  function AttachSpec(s: State): (State, Option<Id>) {
    var (id, free) := if s.current in s.boxes then CycleFrom(s.boxes.Keys, s.current, 0) else (s.current, true);
    if s.count >= SLOTS || !free then (s, None)
    else
      var boxes := s.boxes[id := []];
      (State(boxes, s.subs, (s.count + 1) % SLOTS, CycleFrom(boxes.Keys, id, 0).0), Some(id))
  }

  // --------------------------------------------------------------- subscription lists

  predicate NoDuplicates(v: seq<Id>) {
    forall i, j :: 0 <= i < j < |v| ==> v[i] != v[j]
  }

  lemma {:induction false} WithoutKeepsNoDuplicates(v: seq<Id>, id: Id)
    requires NoDuplicates(v)
    ensures NoDuplicates(Without(v, id))
  {
    if v != [] {
      WithoutKeepsNoDuplicates(v[1..], id);
      var r := Without(v[1..], id);
      if v[0] != id {
        assert v[0] !in v[1..];
        forall i, j | 0 <= i < j < |[v[0]] + r|
          ensures ([v[0]] + r)[i] != ([v[0]] + r)[j]
        {
          if i == 0 { assert ([v[0]] + r)[j] in r; }
        }
      }
    }
  }

  function Listed(subs: map<Event, seq<Id>>, e: Event): seq<Id> {
    if e in subs then subs[e] else []
  }

  function AddOne(subs: map<Event, seq<Id>>, id: Id, e: Event): map<Event, seq<Id>> {
    if id in Listed(subs, e) then subs else subs[e := Listed(subs, e) + [id]]
  }

  function DropOne(subs: map<Event, seq<Id>>, id: Id, e: Event): map<Event, seq<Id>> {
    if e !in subs then subs
    else if Without(subs[e], id) == [] then subs - {e}
    else subs[e := Without(subs[e], id)]
  }

  function AddAll(subs: map<Event, seq<Id>>, id: Id, es: seq<Event>): map<Event, seq<Id>> {
    if es == [] then subs else AddOne(AddAll(subs, id, es[..|es| - 1]), id, es[|es| - 1])
  }

  function DropAll(subs: map<Event, seq<Id>>, id: Id, es: seq<Event>): map<Event, seq<Id>> {
    if es == [] then subs else DropOne(DropAll(subs, id, es[..|es| - 1]), id, es[|es| - 1])
  }

  function DropEverywhere(subs: map<Event, seq<Id>>, id: Id): map<Event, seq<Id>> {
    map e | e in subs && Without(subs[e], id) != [] :: Without(subs[e], id)
  }

  // ---------------------------------------------------------------------- operations

  datatype Op =
    | Attach
    | Detach(id: Id)
    | Subscribe(id: Id, events: seq<Event>)
    | Unsubscribe(id: Id, events: seq<Event>)

  function Apply(s: State, op: Op): State {
    match op
    case Attach => AttachSpec(s).0
    case Detach(id) =>
      if id !in s.boxes then s
      else State(s.boxes - {id}, DropEverywhere(s.subs, id), (s.count + 255) % SLOTS, s.current)
    case Subscribe(id, events) => if id !in s.boxes then s else s.(subs := AddAll(s.subs, id, events))
    case Unsubscribe(id, events) => s.(subs := DropAll(s.subs, id, events))
  }

  function ApplyAll(s: State, ops: seq<Op>): State
    decreases |ops|
  {
    if ops == [] then s else Apply(ApplyAll(s, ops[..|ops| - 1]), ops[|ops| - 1])
  }

  /** No list is empty or has duplicates, and every listed subscriber is attached. */
  predicate SubsInv(subs: map<Event, seq<Id>>, attached: set<Id>) {
    forall e :: e in subs ==> subs[e] != [] && NoDuplicates(subs[e]) && forall x :: x in subs[e] ==> x in attached
  }

  predicate Inv(s: State) {
    && s.count == |s.boxes| % SLOTS
    && SubsInv(s.subs, s.boxes.Keys)
  }

  lemma AddOneKeeps(subs: map<Event, seq<Id>>, id: Id, e: Event, attached: set<Id>)
    requires SubsInv(subs, attached) && id in attached
    ensures SubsInv(AddOne(subs, id, e), attached)
  {
  }

  lemma DropOneKeeps(subs: map<Event, seq<Id>>, id: Id, e: Event, attached: set<Id>)
    requires SubsInv(subs, attached)
    ensures SubsInv(DropOne(subs, id, e), attached)
  {
    if e in subs {
      WithoutKeepsNoDuplicates(subs[e], id);
    }
  }

  lemma {:induction false} AddAllKeeps(subs: map<Event, seq<Id>>, id: Id, es: seq<Event>, attached: set<Id>)
    requires SubsInv(subs, attached) && id in attached
    ensures SubsInv(AddAll(subs, id, es), attached)
  {
    if es != [] {
      AddAllKeeps(subs, id, es[..|es| - 1], attached);
      AddOneKeeps(AddAll(subs, id, es[..|es| - 1]), id, es[|es| - 1], attached);
    }
  }

  lemma {:induction false} DropAllKeeps(subs: map<Event, seq<Id>>, id: Id, es: seq<Event>, attached: set<Id>)
    requires SubsInv(subs, attached)
    ensures SubsInv(DropAll(subs, id, es), attached)
  {
    if es != [] {
      DropAllKeeps(subs, id, es[..|es| - 1], attached);
      DropOneKeeps(DropAll(subs, id, es[..|es| - 1]), id, es[|es| - 1], attached);
    }
  }

  lemma DropEverywhereKeeps(subs: map<Event, seq<Id>>, id: Id, attached: set<Id>)
    requires SubsInv(subs, attached)
    ensures SubsInv(DropEverywhere(subs, id), attached - {id})
  {
    forall e | e in DropEverywhere(subs, id)
      ensures NoDuplicates(DropEverywhere(subs, id)[e])
    {
      WithoutKeepsNoDuplicates(subs[e], id);
    }
  }

  lemma AddKey(boxes: map<Id, seq<Msg>>, id: Id)
    requires id !in boxes
    ensures |boxes[id := []]| == |boxes| + 1
  {
    assert boxes[id := []].Keys == boxes.Keys + {id};
  }

  lemma DropKey(boxes: map<Id, seq<Msg>>, id: Id)
    requires id in boxes
    ensures |boxes - {id}| == |boxes| - 1
  {
    assert (boxes - {id}).Keys == boxes.Keys - {id};
  }

  lemma AttachKeepsInv(s: State)
    requires Inv(s)
    ensures Inv(AttachSpec(s).0)
  {
    hide CycleFrom, SubsInv;
    var (t, id) := AttachSpec(s);
    if id.Some? {
      AddKey(s.boxes, id.value);
      MoreAttached(s.subs, s.boxes.Keys, t.boxes.Keys);
      assert t.count == (|s.boxes| + 1) % SLOTS by { CountUp(|s.boxes|); }
    }
  }

  lemma CountUp(n: nat)
    ensures (n % SLOTS + 1) % SLOTS == (n + 1) % SLOTS
  {
  }

  lemma CountDown(n: nat)
    requires n > 0
    ensures (n % SLOTS + 255) % SLOTS == (n - 1) % SLOTS
  {
  }

  lemma DetachKeepsInv(s: State, id: Id)
    requires Inv(s) && id in s.boxes
    ensures Inv(Apply(s, Detach(id)))
  {
    hide DropEverywhere, SubsInv, Without;
    DropKey(s.boxes, id);
    CountDown(|s.boxes|);
    DropEverywhereKeeps(s.subs, id, s.boxes.Keys);
    assert (s.boxes - {id}).Keys == s.boxes.Keys - {id};
  }

  lemma ApplyKeepsInv(s: State, op: Op)
    requires Inv(s)
    ensures Inv(Apply(s, op))
  {
    hide AttachSpec, DropEverywhere, AddAll, DropAll, SubsInv;
    match op {
      case Attach => AttachKeepsInv(s);
      case Detach(id) => if id in s.boxes { DetachKeepsInv(s, id); }
      case Subscribe(id, events) => if id in s.boxes { AddAllKeeps(s.subs, id, events, s.boxes.Keys); }
      case Unsubscribe(id, events) => DropAllKeeps(s.subs, id, events, s.boxes.Keys);
    }
  }

  lemma MoreAttached(subs: map<Event, seq<Id>>, a: set<Id>, b: set<Id>)
    requires SubsInv(subs, a) && a <= b
    ensures SubsInv(subs, b)
  {
  }

  /** Over every run of Attach, Detach, Subscribe and Unsubscribe: the counter equals the
      occupied slots modulo 256, every listed subscriber is attached, no list is empty and
      none holds a subscriber twice. */
  lemma {:induction false} EveryRunKeepsInv(ops: seq<Op>)
    ensures Inv(ApplyAll(EMPTY, ops))
    decreases |ops|
  {
    if ops != [] {
      EveryRunKeepsInv(ops[..|ops| - 1]);
      ApplyKeepsInv(ApplyAll(EMPTY, ops[..|ops| - 1]), ops[|ops| - 1]);
    }
  }

  /** In every state: Attach hands out only a free id and adds exactly that mailbox, empty; it
      fails exactly when all 256 slots are occupied, and never because of the counter. */
  lemma AttachExactly(s: State)
    ensures var (t, id) := AttachSpec(s);
            && (id.None? <==> forall x: Id :: x in s.boxes)
            && (id.None? ==> t == s)
            && (id.Some? ==> id.value !in s.boxes && t.boxes == s.boxes[id.value := []] && t.subs == s.subs)
            && (id.Some? && (exists x: Id :: x !in t.boxes) ==> t.current !in t.boxes)
  {
    CycleFindsExactly(s.boxes.Keys, s.current);
    var (t, id) := AttachSpec(s);
    if id.Some? {
      CycleFindsExactly(t.boxes.Keys, id.value);
      if x: Id :| x !in t.boxes {
        assert x !in t.boxes.Keys;
      }
    }
  }

  /** Which id Attach gives: the first free one from the current one on, in cyclic order. */
  lemma AttachGivesNext(s: State, k: nat)
    requires k < SLOTS && IdAfter(s.current, k) !in s.boxes
    requires forall j :: 0 <= j < k ==> IdAfter(s.current, j) in s.boxes
    ensures AttachSpec(s).1 == Some(IdAfter(s.current, k))
  {
    hide CycleFrom;
    assert IdAfter(s.current, 0) == s.current;
    if k > 0 {
      CycleFindsNext(s.boxes.Keys, s.current, k);
    }
  }

  function Attaches(n: nat): (r: seq<Op>)
    ensures |r| == n
  {
    if n == 0 then [] else Attaches(n - 1) + [Attach]
  }

  /** With the ids below `n` in use and `n` next, Attach gives `n`, and then `n + 1` is next. */
  lemma AttachCounts(s: State, n: nat)
    requires n < SLOTS && s.boxes.Keys == IdsBelow(n) && s.current == n && s.count < SLOTS
    ensures var (t, id) := AttachSpec(s);
            id == Some(n) && t.boxes.Keys == IdsBelow(n + 1) && (n + 1 < SLOTS ==> t.current == n + 1)
  {
    hide CycleFrom, IdsBelow;
    var boxes := s.boxes[n := []];
    assert boxes.Keys == IdsBelow(n + 1);
    if n + 1 < SLOTS {
      assert IdAfter(n, 1) == n + 1;
      CycleFindsNext(boxes.Keys, n, 1);
    }
  }

  /** On a fresh broker the components get the ids 0, 1, 2, up to 255. */
  lemma {:induction false} FirstIds(n: nat)
    requires n < SLOTS
    ensures var s := ApplyAll(EMPTY, Attaches(n));
            && s.boxes.Keys == IdsBelow(n) && s.current == n && AttachSpec(s).1 == Some(n)
    decreases n
  {
    hide AttachSpec, IdsBelow;
    var s := ApplyAll(EMPTY, Attaches(n));
    if n == 0 {
      assert IdsBelow(0) == {};
    } else {
      FirstIds(n - 1);
      assert Attaches(n)[..n - 1] == Attaches(n - 1);
      AttachCounts(ApplyAll(EMPTY, Attaches(n - 1)), n - 1);
    }
    AttachCounts(s, n);
  }

  /** What the operations do to the mailboxes: Detach takes away exactly one, and nothing but
      Attach and Detach touches them or the id to try next. */
  lemma BoxesExactly(s: State, op: Op)
    ensures var t := Apply(s, op);
            match op
            case Attach => AttachSpec(s).1.Some? ==> t.boxes.Keys == s.boxes.Keys + {AttachSpec(s).1.value}
            case Detach(id) =>
              && t.boxes.Keys == s.boxes.Keys - {id} && t.current == s.current
              && (forall x :: x in t.boxes ==> t.boxes[x] == s.boxes[x])
            case _ => t.boxes == s.boxes && t.current == s.current && t.count == s.count
  {
    hide CycleFrom, DropEverywhere, AddAll, DropAll;
  }

  /** Ids are 256 in number: when all slots are occupied the counter reads zero, so its guard,
      which waits for 256, could not have noticed. */
  lemma FullCounterReadsZero(s: State)
    requires Inv(s) && forall x: Id :: x in s.boxes
    ensures s.count == 0
  {
    hide SubsInv, IdsBelow;
    AllIds(SLOTS);
    assert s.boxes.Keys == IdsBelow(SLOTS);
  }

  function IdsBelow(n: nat): (r: set<Id>)
    requires n <= SLOTS
    ensures forall i: Id :: i in r <==> i < n
  {
    if n == 0 then {} else IdsBelow(n - 1) + {n - 1}
  }

  lemma {:induction false} AllIds(n: nat)
    requires n <= SLOTS
    ensures |IdsBelow(n)| == n
  {
    if n > 0 {
      AllIds(n - 1);
    }
  }

  // --------------------------------------------------------------------------- routing

  predicate Subscribed(subs: map<Event, seq<Id>>, id: Id, e: Event) {
    e in subs && id in subs[e]
  }

  lemma {:induction false} AddAllExactly(subs: map<Event, seq<Id>>, id: Id, es: seq<Event>, x: Id, e: Event)
    ensures Subscribed(AddAll(subs, id, es), x, e) <==> Subscribed(subs, x, e) || (x == id && e in es)
  {
    if es != [] {
      AddAllExactly(subs, id, es[..|es| - 1], x, e);
      assert es == es[..|es| - 1] + [es[|es| - 1]];
    }
  }

  lemma {:induction false} DropAllExactly(subs: map<Event, seq<Id>>, id: Id, es: seq<Event>, x: Id, e: Event)
    ensures Subscribed(DropAll(subs, id, es), x, e) <==> Subscribed(subs, x, e) && !(x == id && e in es)
  {
    if es != [] {
      DropAllExactly(subs, id, es[..|es| - 1], x, e);
      assert es == es[..|es| - 1] + [es[|es| - 1]];
    }
  }

  /** A list only grows at its end: who subscribed first is served first. */
  lemma {:induction false} SubscribersInOrder(subs: map<Event, seq<Id>>, id: Id, es: seq<Event>, e: Event)
    ensures var before, after := Listed(subs, e), Listed(AddAll(subs, id, es), e);
            after == if e in es && id !in before then before + [id] else before
  {
    if es != [] {
      SubscribersInOrder(subs, id, es[..|es| - 1], e);
      assert es == es[..|es| - 1] + [es[|es| - 1]];
    }
  }

  /** What the operations do to who hears what: Subscribe adds exactly the given events for an
      attached subscriber, Unsubscribe removes exactly those, Detach removes exactly that
      subscriber everywhere, and Attach changes no subscription. */
  lemma SubscriptionsExactly(s: State, op: Op, x: Id, e: Event)
    ensures Subscribed(Apply(s, op).subs, x, e) <==>
            match op
            case Attach => Subscribed(s.subs, x, e)
            case Detach(id) => Subscribed(s.subs, x, e) && !(x == id && id in s.boxes)
            case Subscribe(id, events) => Subscribed(s.subs, x, e) || (x == id && id in s.boxes && e in events)
            case Unsubscribe(id, events) => Subscribed(s.subs, x, e) && !(x == id && e in events)
  {
    hide AddAll, DropAll, CycleFrom;
    match op {
      case Attach =>
      case Detach(id) =>
      case Subscribe(id, events) => AddAllExactly(s.subs, id, events, x, e);
      case Unsubscribe(id, events) => DropAllExactly(s.subs, id, events, x, e);
    }
  }

  /** What mailbox `id` is owed from a sequence of messages: those it subscribes to, in order. */
  function Owed(subs: map<Event, seq<Id>>, id: Id, msgs: seq<Option<Msg>>): seq<Msg> {
    if msgs == [] then []
    else
      var rest := Owed(subs, id, msgs[..|msgs| - 1]);
      match msgs[|msgs| - 1]
      case None => rest
      case Some(m) => if Subscribed(subs, id, m.event) then rest + [m] else rest
  }

  /** Every mailbox with what it is owed appended. */
  function Delivered(boxes: map<Id, seq<Msg>>, subs: map<Event, seq<Id>>, msgs: seq<Option<Msg>>): map<Id, seq<Msg>> {
    map id | id in boxes :: boxes[id] + Owed(subs, id, msgs)
  }

  lemma OwedOne(subs: map<Event, seq<Id>>, id: Id, m: Option<Msg>)
    ensures Owed(subs, id, [m]) == if m.Some? && Subscribed(subs, id, m.value.event) then [m.value] else []
  {
    assert [m][..0] == [];
  }

  lemma DeliveredOne(boxes: map<Id, seq<Msg>>, subs: map<Event, seq<Id>>, m: Option<Msg>, after: map<Id, seq<Msg>>)
    requires after.Keys == boxes.Keys
    requires forall id :: id in boxes ==>
               after[id] == boxes[id] + if m.Some? && Subscribed(subs, id, m.value.event) then [m.value] else []
    ensures after == Delivered(boxes, subs, [m])
  {
    hide Subscribed, Owed;
    forall id | id in boxes
      ensures after[id] == boxes[id] + Owed(subs, id, [m])
    {
      OwedOne(subs, id, m);
    }
  }

  lemma DeliveredNothing(boxes: map<Id, seq<Msg>>, subs: map<Event, seq<Id>>)
    ensures Delivered(boxes, subs, []) == boxes && Delivered(boxes, subs, [None]) == boxes
  {
    assert forall id :: id in boxes ==> boxes[id] + [] == boxes[id];
    DeliveredOne(boxes, subs, None, boxes);
  }

  lemma DeliveredStep(boxes: map<Id, seq<Msg>>, subs: map<Event, seq<Id>>, msgs: seq<Option<Msg>>, n: nat)
    requires n < |msgs|
    ensures Delivered(Delivered(boxes, subs, msgs[..n]), subs, [msgs[n]]) == Delivered(boxes, subs, msgs[..n + 1])
  {
    forall id | id in boxes
      ensures boxes[id] + Owed(subs, id, msgs[..n]) + Owed(subs, id, [msgs[n]]) == boxes[id] + Owed(subs, id, msgs[..n + 1])
    {
      assert msgs[..n + 1][..n] == msgs[..n] && [msgs[n]][..0] == [];
      assert Owed(subs, id, msgs[..n + 1]) == Owed(subs, id, msgs[..n]) + Owed(subs, id, [msgs[n]]);
      Assoc(boxes[id], Owed(subs, id, msgs[..n]), Owed(subs, id, [msgs[n]]));
    }
  }

  predicate Terminates(m: Option<Msg>) {
    m.Some? && m.value.event == TERMINATE_ALL
  }

  /** The messages up to and including the first TERMINATE_ALL. */
  function UntilTerminate(msgs: seq<Option<Msg>>): seq<Option<Msg>> {
    if msgs == [] then []
    else if Terminates(msgs[0]) then [msgs[0]]
    else [msgs[0]] + UntilTerminate(msgs[1..])
  }

  lemma {:induction false} UntilTerminateMeaning(msgs: seq<Option<Msg>>, n: nat)
    requires n <= |msgs| && forall i :: 0 <= i < n - 1 ==> !Terminates(msgs[i])
    requires n == |msgs| || (n > 0 && Terminates(msgs[n - 1]))
    ensures UntilTerminate(msgs) == msgs[..n]
  {
    if n > 0 && !Terminates(msgs[0]) {
      assert n > 1 || msgs[1..] == [];
      UntilTerminateMeaning(msgs[1..], n - 1);
      assert msgs[..n] == [msgs[0]] + msgs[1..][..n - 1];
    }
  }

  class MessageBroker {
    var mailboxes: map<Id, seq<Msg>>
    var subs: map<Event, seq<Id>>
    var numOfSubscribersRegistered: byte
    var currentSubscriberId: Id
    var isRunning: bool

    ghost function View(): State
      reads this
    {
      State(mailboxes, subs, numOfSubscribersRegistered, currentSubscriberId)
    }

    constructor ()
      ensures View() == EMPTY && isRunning
    {
      mailboxes, subs, numOfSubscribersRegistered, currentSubscriberId, isRunning := map[], map[], 0, 0, true;
    }

    method CycleCurrentSubscriberId() returns (found: bool)
      modifies `currentSubscriberId
      ensures (currentSubscriberId, found) == CycleFrom(mailboxes.Keys, old(currentSubscriberId), 0)
    {
      hide CycleFrom;
      var start := currentSubscriberId;
      for i := 0 to SLOTS
        invariant currentSubscriberId == (start + i) % SLOTS
        invariant CycleFrom(mailboxes.Keys, start, 0) == CycleFrom(mailboxes.Keys, start, i)
      {
        CycleTurn(mailboxes.Keys, start, i);
        currentSubscriberId := (start + 1 + i) % SLOTS;
        if currentSubscriberId !in mailboxes { return true; }
      }
      CycleTurn(mailboxes.Keys, start, SLOTS);
      found := false;
    }

    method Attach() returns (id: Option<Id>)
      modifies this
      ensures (View(), id) == AttachSpec(old(View()))
      ensures isRunning == old(isRunning)
    {
      if numOfSubscribersRegistered as int >= SLOTS { return None; }
      if currentSubscriberId in mailboxes {
        var found := CycleCurrentSubscriberId();
        if !found { return None; }
      }
      id := Some(currentSubscriberId);
      mailboxes := mailboxes[currentSubscriberId := []];
      numOfSubscribersRegistered := (numOfSubscribersRegistered + 1) % SLOTS;
      var _ := CycleCurrentSubscriberId();
    }

    method Detach(id: Id) returns (ok: bool)
      modifies this
      ensures ok <==> id in old(mailboxes)
      ensures View() == Apply(old(View()), Op.Detach(id)) && isRunning == old(isRunning)
    {
      if id !in mailboxes { return false; }
      mailboxes := mailboxes - {id};
      numOfSubscribersRegistered := (numOfSubscribersRegistered + 255) % SLOTS;
      var left := subs.Keys;
      while left != {}
        modifies `subs
        invariant left <= subs.Keys <= old(subs).Keys
        invariant forall e :: e in left ==> subs[e] == old(subs)[e]
        invariant forall e :: e in old(subs) && e !in left ==>
                    if Without(old(subs)[e], id) == [] then e !in subs
                    else e in subs && subs[e] == Without(old(subs)[e], id)
        decreases left
      {
        var e :| e in left;
        left := left - {e};
        var vec := Without(subs[e], id);
        if vec == [] { subs := subs - {e}; } else { subs := subs[e := vec]; }
      }
      assert subs == DropEverywhere(old(subs), id);
      ok := true;
    }

    method Subscribe(id: Id, events: seq<Event>) returns (ok: bool)
      modifies `subs
      ensures ok <==> id in mailboxes
      ensures View() == Apply(old(View()), Op.Subscribe(id, events))
    {
      if id !in mailboxes { return false; }
      for i := 0 to |events|
        invariant subs == AddAll(old(subs), id, events[..i])
      {
        assert events[..i + 1][..i] == events[..i];
        var vec := if events[i] in subs then subs[events[i]] else [];
        if id !in vec { subs := subs[events[i] := vec + [id]]; }
      }
      assert events[..|events|] == events;
      ok := true;
    }

    method Unsubscribe(id: Id, events: seq<Event>)
      modifies `subs
      ensures View() == Apply(old(View()), Op.Unsubscribe(id, events))
    {
      for i := 0 to |events|
        invariant subs == DropAll(old(subs), id, events[..i])
      {
        assert events[..i + 1][..i] == events[..i];
        var e := events[i];
        if e in subs {
          var vec := Without(subs[e], id);
          if vec == [] { subs := subs - {e}; } else { subs := subs[e := vec]; }
        }
      }
      assert events[..|events|] == events;
    }

    /** Every subscriber of the event gets the message once; nobody else is touched. */
    method Route(msg: Msg)
      requires Inv(View())
      modifies `mailboxes
      ensures Inv(View()) && mailboxes == Delivered(old(mailboxes), subs, [Some(msg)])
    {
      if msg.event !in subs {
        assert forall id :: id in mailboxes ==> mailboxes[id] + [] == mailboxes[id];
        DeliveredOne(mailboxes, subs, Some(msg), mailboxes);
        return;
      }
      var subscribers := subs[msg.event];
      for i := 0 to |subscribers|
        invariant mailboxes.Keys == old(mailboxes).Keys
        invariant forall id :: id in mailboxes ==>
                    mailboxes[id] == old(mailboxes)[id] + if id in subscribers[..i] then [msg] else []
      {
        var id := subscribers[i];
        assert id !in subscribers[..i];
        assert forall x :: x in subscribers[..i + 1] <==> x in subscribers[..i] || x == id;
        if id in mailboxes {
          mailboxes := mailboxes[id := mailboxes[id] + [msg]];
        }
      }
      assert subscribers[..|subscribers|] == subscribers;
      DeliveredOne(old(mailboxes), subs, Some(msg), mailboxes);
    }

    /** `Run` on the messages that arrive: each mailbox receives exactly the messages, up to
        and including the first TERMINATE_ALL, whose event it subscribes to, once each and in
        order; and the loop has stopped exactly if there was a TERMINATE_ALL. */
    method Run(inbox: seq<Option<Msg>>)
      requires Inv(View()) && isRunning
      modifies `mailboxes, `isRunning
      ensures Inv(View()) && mailboxes == Delivered(old(mailboxes), subs, UntilTerminate(inbox))
      ensures !isRunning <==> exists i :: 0 <= i < |inbox| && Terminates(inbox[i])
    {
      hide SubsInv, UntilTerminate, Delivered;
      var n := 0;
      DeliveredNothing(mailboxes, subs);
      while isRunning && n < |inbox|
        invariant 0 <= n <= |inbox|
        invariant Inv(View()) && mailboxes == Delivered(old(mailboxes), subs, inbox[..n])
        invariant forall i :: 0 <= i < n - 1 ==> !Terminates(inbox[i])
        invariant isRunning <==> n == 0 || !Terminates(inbox[n - 1])
        decreases |inbox| - n
      {
        var next := inbox[n];
        DeliveredStep(old(mailboxes), subs, inbox, n);
        DeliveredNothing(mailboxes, subs);
        n := n + 1;
        if next.Some? {
          if next.value.event == TERMINATE_ALL { isRunning := false; }
          Route(next.value);
        }
      }
      UntilTerminateMeaning(inbox, n);
    }
  }
}
