/** The mailbox queue (`threadsafe_queue`): a linked list with a dummy last node, pushed to
    under a tail lock and popped from under a head lock, by any number of threads. Each step
    is one access to shared memory by one thread. */
module Queue {
  import opened Bytes

  type Thread = nat
  type Address = nat

  datatype Node<T> = Node(data: Option<T>, next: Option<Address>)

  /** Where a thread is. A pusher holds the tail lock from `HasTailLock` to `TailMoved`; a
      popper holds the head lock from `HasHeadLock` to `HeadMoved`; after that it reads the data
      of the node it took, which is item number `number`, and frees the node. `TailRead` remembers the tail it saw and how many items had been pushed by
      then. Waiting for data is reporting empty and trying again. */
  datatype Place<T> =
    | Idle
    | Allocated(value: T, node: Address)
    | HasTailLock(value: T, node: Address)
    | DataSet(value: T, node: Address)
    | Linked(value: T, node: Address)
    | TailMoved
    | HasHeadLock
    | TailRead(seen: Address, pushedThen: nat)
    | HeadTaken(taken: Address)
    | HeadMoved(taken: Address, number: nat)
    | Released(taken: Address, number: nat)

  /** Shared memory, the two locks, where every thread is, and the items pushed and popped so
      far. `head` is empty while a popper has moved it out. A thread not in `at` is idle. */
  datatype Queue<T> = Queue(
    nodes: map<Address, Node<T>>, head: Option<Address>, tail: Address,
    headLock: Option<Thread>, tailLock: Option<Thread>,
    at: map<Thread, Place<T>>, pushed: seq<T>, popped: seq<T>)

  function Create<T>(a: Address): Queue<T> {
    Queue(map[a := Node(None, None)], Some(a), a, None, None, map[], [], [])
  }

  function PlaceOf<T>(q: Queue<T>, t: Thread): Place<T> {
    if t in q.at then q.at[t] else Idle
  }

  function Goto<T>(q: Queue<T>, t: Thread, p: Place<T>): Queue<T> {
    q.(at := q.at[t := p])
  }

  // ------------------------------------------------------------------------- steps

  datatype Step<T> =
    | Allocate(value: T, node: Address)
    | LockTail
    | SetData
    | SetNext
    | MoveTail
    | UnlockTail
    | LockHead
    | ReadTail
    | ReportEmpty
    | TakeHead
    | AdvanceHead
    | UnlockHead
    | Free

  /** When thread `t` can take the step. Addresses are reused after they are freed. */
  predicate Enabled<T>(q: Queue<T>, t: Thread, s: Step<T>) {
    var p := PlaceOf(q, t);
    match s
    case Allocate(_, node) => p.Idle? && node !in q.nodes
    case LockTail => p.Allocated? && q.tailLock == None
    case SetData => p.HasTailLock? && q.tail in q.nodes
    case SetNext => p.DataSet? && q.tail in q.nodes
    case MoveTail => p.Linked?
    case UnlockTail => p.TailMoved?
    case LockHead => p.Idle? && q.headLock == None
    case ReadTail => p.HasHeadLock? && q.tailLock == None
    case ReportEmpty => p.TailRead? && q.head == Some(p.seen)
    case TakeHead => p.TailRead? && q.head.Some? && q.head != Some(p.seen)
    case AdvanceHead => p.HeadTaken? && p.taken in q.nodes && q.nodes[p.taken].data.Some?
    case UnlockHead => p.HeadMoved?
    case Free => p.Released?
  }

  function Next<T>(q: Queue<T>, t: Thread, s: Step<T>): Queue<T>
    requires Enabled(q, t, s)
  {
    var p := PlaceOf(q, t);
    match s
    case Allocate(value, node) => Goto(q.(nodes := q.nodes[node := Node(None, None)]), t, Allocated(value, node))
    case LockTail => Goto(q.(tailLock := Some(t)), t, HasTailLock(p.value, p.node))
    case SetData =>
      Goto(q.(nodes := q.nodes[q.tail := q.nodes[q.tail].(data := Some(p.value))]), t, DataSet(p.value, p.node))
    case SetNext =>
      Goto(q.(nodes := q.nodes[q.tail := q.nodes[q.tail].(next := Some(p.node))]), t, Linked(p.value, p.node))
    case MoveTail => Goto(q.(tail := p.node, pushed := q.pushed + [p.value]), t, TailMoved)
    case UnlockTail => Goto(q.(tailLock := None), t, Idle)
    case LockHead => Goto(q.(headLock := Some(t)), t, HasHeadLock)
    case ReadTail => Goto(q, t, TailRead(q.tail, |q.pushed|))
    case ReportEmpty => Goto(q.(headLock := None), t, Idle)
    case TakeHead => Goto(q.(head := None), t, HeadTaken(q.head.value))
    case AdvanceHead =>
      var n := q.nodes[p.taken];
      Goto(q.(head := n.next, popped := q.popped + [n.data.value]), t, HeadMoved(p.taken, |q.popped|))
    case UnlockHead => Goto(q.(headLock := None), t, Released(p.taken, p.number))
    case Free => Goto(q.(nodes := q.nodes - {p.taken}), t, Idle)
  }

  // --------------------------------------------------------------------- invariants

  predicate HoldsTail<T>(p: Place<T>) {
    p.HasTailLock? || p.DataSet? || p.Linked? || p.TailMoved?
  }

  predicate HoldsHead<T>(p: Place<T>) {
    p.HasHeadLock? || p.TailRead? || p.HeadTaken? || p.HeadMoved?
  }

  /** The node a thread owns and nobody else can reach: freshly allocated, or unlinked and
      about to be freed. */
  function OwnNode<T>(p: Place<T>): Option<Address> {
    match p
    case Allocated(_, n) => Some(n)
    case HasTailLock(_, n) => Some(n)
    case DataSet(_, n) => Some(n)
    case Linked(_, n) => Some(n)
    case HeadMoved(n, _) => Some(n)
    case Released(n, _) => Some(n)
    case _ => None
  }

  /** Locks are held by the threads that are between taking and releasing them. */
  ghost predicate LocksInv<T>(q: Queue<T>) {
    && (forall t: Thread :: HoldsTail(PlaceOf(q, t)) <==> q.tailLock == Some(t))
    && (forall t: Thread :: HoldsHead(PlaceOf(q, t)) <==> q.headLock == Some(t))
  }

  /** `chain` lists the nodes from the first linked one to the tail: distinct, joined by
      `next`, all but the tail filled with the items not yet popped. */
  ghost predicate ChainInv<T>(q: Queue<T>, chain: seq<Address>) {
    && chain != [] && chain[|chain| - 1] == q.tail
    && (forall i :: 0 <= i < |chain| ==> chain[i] in q.nodes)
    && (forall i, j :: 0 <= i < j < |chain| ==> chain[i] != chain[j])
    && |q.popped| + |chain| - 1 == |q.pushed| && q.popped <= q.pushed
    && (forall i :: 0 <= i < |chain| - 1 ==>
          q.nodes[chain[i]] == Node(Some(q.pushed[|q.popped| + i]), Some(chain[i + 1])))
  }

  /** What is true of a thread where it is: its private node is allocated and outside the
      chain; what a pusher has written is in the tail; the tail a popper saw is as many places
      down the chain as there were items then; the node it took is the first of two or more, and
      holds the popped item until it is freed. */
  ghost predicate PlaceInv<T>(q: Queue<T>, chain: seq<Address>, p: Place<T>) {
    && (OwnNode(p).Some? ==> OwnNode(p).value in q.nodes && OwnNode(p).value !in chain)
    && (p.DataSet? ==> q.tail in q.nodes && q.nodes[q.tail].data == Some(p.value))
    && (p.Linked? ==> q.tail in q.nodes && q.nodes[q.tail] == Node(Some(p.value), Some(p.node)))
    && (p.TailRead? ==> |q.popped| <= p.pushedThen && p.pushedThen - |q.popped| < |chain|
                        && chain[p.pushedThen - |q.popped|] == p.seen)
    && (p.HeadTaken? ==> |chain| >= 2 && p.taken == chain[0])
    && (p.HeadMoved? || p.Released? ==>
          p.taken in q.nodes && p.number < |q.popped| && q.nodes[p.taken].data == Some(q.popped[p.number]))
  }

  ghost predicate PlacesInv<T>(q: Queue<T>, chain: seq<Address>) {
    forall t: Thread :: PlaceInv(q, chain, PlaceOf(q, t))
  }

  ghost predicate PrivateInv<T>(q: Queue<T>) {
    forall t: Thread, u: Thread :: t != u && OwnNode(PlaceOf(q, t)).Some? ==>
      OwnNode(PlaceOf(q, t)) != OwnNode(PlaceOf(q, u))
  }

  /** Unless the popper in charge has taken it out, `head` is the first node of the chain. */
  predicate HeadInv<T>(q: Queue<T>, chain: seq<Address>) {
    if q.headLock.Some? && PlaceOf(q, q.headLock.value).HeadTaken? then q.head == None
    else chain != [] && q.head == Some(chain[0])
  }

  ghost predicate Inv<T>(q: Queue<T>, chain: seq<Address>) {
    LocksInv(q) && ChainInv(q, chain) && PlacesInv(q, chain) && PrivateInv(q) && HeadInv(q, chain)
  }

  // ------------------------------------------------------------------ preservation

  /** How a step changes the chain: a push extends it, a pop shortens it. */
  function NextChain<T>(q: Queue<T>, t: Thread, s: Step<T>, chain: seq<Address>): seq<Address>
    requires Enabled(q, t, s)
  {
    if s.MoveTail? then chain + [PlaceOf(q, t).node]
    else if s.AdvanceHead? && chain != [] then chain[1..]
    else chain
  }

  lemma PlacesAfter<T>(q: Queue<T>, t: Thread, s: Step<T>, u: Thread)
    requires Enabled(q, t, s) && u != t
    ensures PlaceOf(Next(q, t, s), u) == PlaceOf(q, u)
  {
  }

  lemma LocksKept<T>(q: Queue<T>, t: Thread, s: Step<T>)
    requires Enabled(q, t, s) && LocksInv(q)
    ensures LocksInv(Next(q, t, s))
  {
    var v := Next(q, t, s);
    assert HoldsTail(PlaceOf(q, t)) <==> q.tailLock == Some(t);
    assert HoldsHead(PlaceOf(q, t)) <==> q.headLock == Some(t);
    forall u: Thread
      ensures (HoldsTail(PlaceOf(v, u)) <==> v.tailLock == Some(u)) && (HoldsHead(PlaceOf(v, u)) <==> v.headLock == Some(u))
    {
      assert HoldsTail(PlaceOf(q, u)) <==> q.tailLock == Some(u);
      assert HoldsHead(PlaceOf(q, u)) <==> q.headLock == Some(u);
      if u != t { PlacesAfter(q, t, s, u); }
    }
  }

  lemma FirstNode<T>(q: Queue<T>, chain: seq<Address>)
    requires ChainInv(q, chain) && |chain| >= 2
    ensures |q.popped| < |q.pushed| && chain[0] in q.nodes && chain[0] != q.tail
    ensures q.nodes[chain[0]] == Node(Some(q.pushed[|q.popped|]), Some(chain[1]))
  {
    var i := 0;
    assert q.nodes[chain[i]] == Node(Some(q.pushed[|q.popped| + i]), Some(chain[i + 1]));
  }

  lemma ChainKept<T>(q: Queue<T>, t: Thread, s: Step<T>, chain: seq<Address>)
    requires Enabled(q, t, s) && ChainInv(q, chain) && PlaceInv(q, chain, PlaceOf(q, t))
    ensures ChainInv(Next(q, t, s), NextChain(q, t, s, chain))
  {
    var v := Next(q, t, s);
    if s.MoveTail? {
      var chain' := chain + [PlaceOf(q, t).node];
      assert forall i :: 0 <= i < |chain| ==> chain'[i] == chain[i];
    } else if s.AdvanceHead? {
      FirstNode(q, chain);
      assert v.popped == q.pushed[..|q.popped| + 1];
    }
  }

  lemma PrivateKept<T>(q: Queue<T>, t: Thread, s: Step<T>)
    requires Enabled(q, t, s) && PrivateInv(q)
    requires forall u: Thread :: OwnNode(PlaceOf(q, u)).Some? ==> OwnNode(PlaceOf(q, u)).value in q.nodes
    requires s.AdvanceHead? ==> forall u: Thread :: OwnNode(PlaceOf(q, u)) != Some(PlaceOf(q, t).taken)
    ensures PrivateInv(Next(q, t, s))
  {
    var v := Next(q, t, s);
    forall u: Thread | u != t
      ensures PlaceOf(v, u) == PlaceOf(q, u)
    {
      PlacesAfter(q, t, s, u);
    }
  }

  lemma OwnPlaceKept<T>(q: Queue<T>, t: Thread, s: Step<T>, chain: seq<Address>)
    requires Enabled(q, t, s) && ChainInv(q, chain) && PlaceInv(q, chain, PlaceOf(q, t)) && HeadInv(q, chain)
    requires HoldsHead(PlaceOf(q, t)) <==> q.headLock == Some(t)
    ensures PlaceInv(Next(q, t, s), NextChain(q, t, s, chain), PlaceOf(Next(q, t, s), t))
  {
    var v := Next(q, t, s);
    var p, p' := PlaceOf(q, t), PlaceOf(v, t);
  }

  lemma OtherPlaceKept<T>(q: Queue<T>, t: Thread, s: Step<T>, chain: seq<Address>, u: Thread)
    requires Enabled(q, t, s) && u != t && ChainInv(q, chain)
    requires PlaceInv(q, chain, PlaceOf(q, t)) && PlaceInv(q, chain, PlaceOf(q, u))
    requires !(HoldsHead(PlaceOf(q, t)) && HoldsHead(PlaceOf(q, u)))
    requires !(HoldsTail(PlaceOf(q, t)) && HoldsTail(PlaceOf(q, u)))
    requires OwnNode(PlaceOf(q, t)).Some? ==> OwnNode(PlaceOf(q, t)) != OwnNode(PlaceOf(q, u))
    ensures PlaceInv(Next(q, t, s), NextChain(q, t, s, chain), PlaceOf(Next(q, t, s), u))
  {
    PlacesAfter(q, t, s, u);
  }

  lemma HeadKept<T>(q: Queue<T>, t: Thread, s: Step<T>, chain: seq<Address>)
    requires Enabled(q, t, s) && ChainInv(q, chain) && PlaceInv(q, chain, PlaceOf(q, t)) && HeadInv(q, chain)
    requires LocksInv(q)
    ensures HeadInv(Next(q, t, s), NextChain(q, t, s, chain))
  {
    var v := Next(q, t, s);
    assert HoldsHead(PlaceOf(q, t)) <==> q.headLock == Some(t);
    if q.headLock.Some? && q.headLock.value != t {
      PlacesAfter(q, t, s, q.headLock.value);
    }
  }

  lemma StepKeepsInv<T>(q: Queue<T>, t: Thread, s: Step<T>, chain: seq<Address>)
    requires Enabled(q, t, s) && Inv(q, chain)
    ensures Inv(Next(q, t, s), NextChain(q, t, s, chain))
  {
    hide Enabled, Next, NextChain, ChainInv, PlaceInv, HeadInv;
    LocksKept(q, t, s);
    ChainKept(q, t, s, chain);
    HeadKept(q, t, s, chain);
    var v := Next(q, t, s);
    forall u: Thread
      ensures PlaceInv(v, NextChain(q, t, s, chain), PlaceOf(v, u))
    {
      assert PlaceInv(q, chain, PlaceOf(q, u)) && PlaceInv(q, chain, PlaceOf(q, t));
      if u == t {
        OwnPlaceKept(q, t, s, chain);
      } else {
        OtherPlaceKept(q, t, s, chain, u);
      }
    }
    PrivateNodes(q, t, s, chain);
    PrivateKept(q, t, s);
  }

  lemma PrivateNodes<T>(q: Queue<T>, t: Thread, s: Step<T>, chain: seq<Address>)
    requires Enabled(q, t, s) && Inv(q, chain)
    ensures forall u: Thread :: OwnNode(PlaceOf(q, u)).Some? ==> OwnNode(PlaceOf(q, u)).value in q.nodes
    ensures s.AdvanceHead? ==> forall u: Thread :: OwnNode(PlaceOf(q, u)) != Some(PlaceOf(q, t).taken)
  {
    forall u: Thread
      ensures OwnNode(PlaceOf(q, u)).Some? ==> OwnNode(PlaceOf(q, u)).value in q.nodes
      ensures s.AdvanceHead? ==> OwnNode(PlaceOf(q, u)) != Some(PlaceOf(q, t).taken)
    {
      assert PlaceInv(q, chain, PlaceOf(q, u)) && PlaceInv(q, chain, PlaceOf(q, t));
    }
  }

  // ------------------------------------------------------------------------ all runs

  /** A run: thread and step, one after the other, each enabled when it is taken. */
  ghost predicate IsRun<T>(q: Queue<T>, run: seq<(Thread, Step<T>)>, last: Queue<T>)
    decreases |run|
  {
    if run == [] then q == last
    else Enabled(q, run[0].0, run[0].1) && IsRun(Next(q, run[0].0, run[0].1), run[1..], last)
  }

  lemma {:induction false} RunKeepsInv<T>(q: Queue<T>, run: seq<(Thread, Step<T>)>, last: Queue<T>, chain: seq<Address>)
    returns (chain': seq<Address>)
    requires Inv(q, chain) && IsRun(q, run, last)
    ensures Inv(last, chain')
    decreases |run|
  {
    hide Inv, Enabled, Next, NextChain;
    if run == [] {
      chain' := chain;
    } else {
      StepKeepsInv(q, run[0].0, run[0].1, chain);
      chain' := RunKeepsInv(Next(q, run[0].0, run[0].1), run[1..], last, NextChain(q, run[0].0, run[0].1, chain));
    }
  }

  lemma CreateInv<T>(a: Address)
    ensures Inv(Create<T>(a), [a])
  {
    hide PlaceInv;
    var q := Create<T>(a);
    forall t: Thread
      ensures PlaceOf(q, t) == Idle && PlaceInv(q, [a], PlaceOf(q, t))
    {
      IdlePlace(q, [a]);
    }
  }

  lemma IdlePlace<T>(q: Queue<T>, chain: seq<Address>)
    ensures PlaceInv(q, chain, Idle)
  {
  }

  /** The items reachable from the first node, in order, up to the dummy. */
  ghost predicate LinkedItems<T>(q: Queue<T>, chain: seq<Address>, items: seq<T>) {
    && |chain| == |items| + 1 && chain[|items|] == q.tail
    && (forall i, j :: 0 <= i < j < |chain| ==> chain[i] != chain[j])
    && forall i :: 0 <= i < |items| ==>
         chain[i] in q.nodes && q.nodes[chain[i]] == Node(Some(items[i]), Some(chain[i + 1]))
  }

  /** `head` is the first node of the chain, or a popper has just moved that node out of it. */
  ghost predicate StartsChain<T>(q: Queue<T>, chain: seq<Address>) {
    chain != [] &&
    match q.head
    case Some(a) => a == chain[0]
    case None => exists t: Thread :: PlaceOf(q, t) == HeadTaken(chain[0])
  }

  /** Refinement of a plain sequence: at every moment of every interleaving of any number of
      pushers and poppers, the items popped so far followed by the items linked in memory
      from the head to the dummy are the items pushed so far, in push order. */
  lemma QueueIsFifo<T>(a: Address, run: seq<(Thread, Step<T>)>, q: Queue<T>)
    requires IsRun(Create(a), run, q)
    ensures exists chain, items ::
              StartsChain(q, chain) && LinkedItems(q, chain, items) && q.popped + items == q.pushed
  {
    hide PrivateInv, LocksInv;
    CreateInv<T>(a);
    var chain := RunKeepsInv(Create(a), run, q, [a]);
    if q.head.None? {
      assert PlaceInv(q, chain, PlaceOf(q, q.headLock.value));
    }
    assert StartsChain(q, chain);
    var items := q.pushed[|q.popped|..];
    assert LinkedItems(q, chain, items);
    assert q.popped + items == q.pushed;
  }

  /** The tail a popper decides on may be stale, but only in one direction: it reports empty
      exactly if everything pushed before its look had been popped, and otherwise it can take
      the head, a node that is filled, linked, and not the dummy. */
  lemma StaleTailIsHarmless<T>(a: Address, run: seq<(Thread, Step<T>)>, q: Queue<T>, t: Thread)
    requires IsRun(Create(a), run, q) && PlaceOf(q, t).TailRead?
    ensures q.head.Some? && PlaceOf(q, t).pushedThen <= |q.pushed|
    ensures Enabled(q, t, ReportEmpty) <==> |q.popped| == PlaceOf(q, t).pushedThen
    ensures Enabled(q, t, TakeHead) <==> |q.popped| < PlaceOf(q, t).pushedThen
    ensures Enabled(q, t, TakeHead) ==>
              && q.head.value in q.nodes && q.head.value != q.tail
              && |q.popped| < |q.pushed|
              && q.nodes[q.head.value].data == Some(q.pushed[|q.popped|]) && q.nodes[q.head.value].next.Some?
  {
    hide PrivateInv, IsRun;
    CreateInv<T>(a);
    var chain := RunKeepsInv(Create(a), run, q, [a]);
    assert PlaceInv(q, chain, PlaceOf(q, t));
    assert HoldsHead(PlaceOf(q, t)) <==> q.headLock == Some(t);
    if |chain| >= 2 { FirstNode(q, chain); }
  }

  /** No thread ever touches memory that is not there, and no popper reads a node while a
      pusher may be writing it: a pusher writes the tail, a popper reads what it took. After
      the head lock is released the node it took still holds the item it popped, and no other
      thread can reach the node it is going to free. */
  lemma NoBadAccess<T>(a: Address, run: seq<(Thread, Step<T>)>, q: Queue<T>, t: Thread, u: Thread)
    requires IsRun(Create(a), run, q)
    ensures PlaceOf(q, t).HasTailLock? ==> Enabled(q, t, SetData)
    ensures PlaceOf(q, t).DataSet? ==> Enabled(q, t, SetNext)
    ensures PlaceOf(q, t).HeadTaken? ==> Enabled(q, t, AdvanceHead) && q.nodes[PlaceOf(q, t).taken].next.Some?
    ensures PlaceOf(q, t).HeadTaken? && HoldsTail(PlaceOf(q, u)) ==> PlaceOf(q, t).taken != q.tail
    ensures PlaceOf(q, t).HeadMoved? || PlaceOf(q, t).Released? ==>
              var taken, number := PlaceOf(q, t).taken, PlaceOf(q, t).number;
              && taken in q.nodes && number < |q.popped| && q.nodes[taken].data == Some(q.popped[number])
              && taken != q.tail && q.head != Some(taken)
              && (u != t ==> OwnNode(PlaceOf(q, u)) != Some(taken))
              && (PlaceOf(q, u).TailRead? ==> PlaceOf(q, u).seen != taken)
              && (PlaceOf(q, u).HeadTaken? ==> PlaceOf(q, u).taken != taken)
  {
    hide LocksInv;
    CreateInv<T>(a);
    var chain := RunKeepsInv(Create(a), run, q, [a]);
    assert PlaceInv(q, chain, PlaceOf(q, t)) && PlaceInv(q, chain, PlaceOf(q, u));
    if |chain| >= 2 { FirstNode(q, chain); }
  }

  // ------------------------------------------------------------------------- progress

  lemma {:induction false} RunSnoc<T>(q: Queue<T>, run: seq<(Thread, Step<T>)>, last: Queue<T>, t: Thread, s: Step<T>)
    requires IsRun(q, run, last) && Enabled(last, t, s)
    ensures IsRun(q, run + [(t, s)], Next(last, t, s))
    decreases |run|
  {
    hide Enabled, Next;
    if run == [] {
      assert [] + [(t, s)] == [(t, s)] && [(t, s)][1..] == [];
    } else {
      RunSnoc(Next(q, run[0].0, run[0].1), run[1..], last, t, s);
      assert (run + [(t, s)])[1..] == run[1..] + [(t, s)];
    }
  }

  lemma EmptyRun<T>(q: Queue<T>)
    ensures IsRun(q, [], q)
  {
  }

  /** A push up to the point where its item is linked. */
  lemma PushLinks<T>(q: Queue<T>, t: Thread, value: T, node: Address) returns (steps: seq<(Thread, Step<T>)>, q': Queue<T>)
    requires PlaceOf(q, t).Idle? && q.tailLock == None && node !in q.nodes && q.tail in q.nodes
    ensures IsRun(q, steps, q') && |steps| == 4 && forall i :: 0 <= i < 4 ==> steps[i].0 == t
    ensures q'.pushed == q.pushed && q'.popped == q.popped && q'.headLock == q.headLock
    ensures PlaceOf(q', t) == Linked(value, node) && q'.nodes.Keys == q.nodes.Keys + {node}
  {
    hide IsRun;
    EmptyRun(q);
    var q1 := Next(q, t, Allocate(value, node));
    RunSnoc(q, [], q, t, Allocate(value, node));
    var q2 := Next(q1, t, LockTail);
    RunSnoc(q, [] + [(t, Allocate(value, node))], q1, t, LockTail);
    var q3 := Next(q2, t, SetData);
    RunSnoc(q, [] + [(t, Allocate(value, node))] + [(t, LockTail)], q2, t, SetData);
    q' := Next(q3, t, SetNext);
    RunSnoc(q, [] + [(t, Allocate(value, node))] + [(t, LockTail)] + [(t, SetData)], q3, t, SetNext);
    steps := [] + [(t, Allocate(value, node))] + [(t, LockTail)] + [(t, SetData)] + [(t, SetNext)];
  }

  /** A push, once it gets the tail lock and is not overtaken, runs to its end and appends its item. */
  lemma PushCompletes<T>(a: Address, run: seq<(Thread, Step<T>)>, q: Queue<T>, t: Thread, value: T, node: Address)
    returns (steps: seq<(Thread, Step<T>)>, last: Queue<T>)
    requires IsRun(Create(a), run, q) && PlaceOf(q, t).Idle? && q.tailLock == None && node !in q.nodes
    ensures IsRun(q, steps, last) && |steps| == 6 && forall i :: 0 <= i < 6 ==> steps[i].0 == t
    ensures last.pushed == q.pushed + [value] && last.popped == q.popped
    ensures last.nodes.Keys == q.nodes.Keys + {node} && last.tail == node
    ensures PlaceOf(last, t).Idle? && last.tailLock == None && last.headLock == q.headLock
  {
    TailIsThere(a, run, q);
    hide IsRun;
    var first, q4 := PushLinks(q, t, value, node);
    var q5 := Next(q4, t, MoveTail);
    RunSnoc(q, first, q4, t, MoveTail);
    last := Next(q5, t, UnlockTail);
    RunSnoc(q, first + [(t, MoveTail)], q5, t, UnlockTail);
    steps := first + [(t, MoveTail)] + [(t, UnlockTail)];
  }

  lemma TailIsThere<T>(a: Address, run: seq<(Thread, Step<T>)>, q: Queue<T>)
    requires IsRun(Create(a), run, q)
    ensures q.tail in q.nodes
  {
    hide PlacesInv, PrivateInv, LocksInv, HeadInv;
    CreateInv<T>(a);
    var chain := RunKeepsInv(Create(a), run, q, [a]);
  }

  /** With nobody in the way, the head is the first item or the dummy. */
  lemma QuietHead<T>(a: Address, run: seq<(Thread, Step<T>)>, q: Queue<T>)
    requires IsRun(Create(a), run, q) && q.headLock == None
    ensures |q.popped| <= |q.pushed| && q.head.Some? && (q.head == Some(q.tail) <==> |q.popped| == |q.pushed|)
    ensures |q.popped| < |q.pushed| ==>
              q.head.value in q.nodes && q.nodes[q.head.value].data == Some(q.pushed[|q.popped|])
  {
    hide PlacesInv, PrivateInv, LocksInv;
    CreateInv<T>(a);
    var chain := RunKeepsInv(Create(a), run, q, [a]);
    if |chain| >= 2 { FirstNode(q, chain); }
  }

  /** A popper looks: under the head lock it has seen the present tail. */
  lemma PopLooks<T>(q: Queue<T>, t: Thread) returns (steps: seq<(Thread, Step<T>)>, q': Queue<T>)
    requires PlaceOf(q, t).Idle? && q.headLock == None && q.tailLock == None
    ensures IsRun(q, steps, q') && |steps| == 2 && forall i :: 0 <= i < 2 ==> steps[i].0 == t
    ensures q'.pushed == q.pushed && q'.popped == q.popped && q'.nodes == q.nodes && q'.head == q.head
    ensures q'.tailLock == None && PlaceOf(q', t) == TailRead(q.tail, |q.pushed|)
  {
    hide IsRun;
    EmptyRun(q);
    var q1 := Next(q, t, LockHead);
    RunSnoc(q, [], q, t, LockHead);
    q' := Next(q1, t, ReadTail);
    RunSnoc(q, [] + [(t, LockHead)], q1, t, ReadTail);
    steps := [] + [(t, LockHead)] + [(t, ReadTail)];
  }

  /** From there it takes the head and frees it. */
  lemma PopTakes<T>(q0: Queue<T>, first: seq<(Thread, Step<T>)>, q: Queue<T>, t: Thread)
    returns (steps: seq<(Thread, Step<T>)>, last: Queue<T>)
    requires IsRun(q0, first, q) && (forall i :: 0 <= i < |first| ==> first[i].0 == t)
    requires PlaceOf(q, t).TailRead? && q.tailLock == None && q.head.Some? && q.head != Some(PlaceOf(q, t).seen)
    requires q.head.value in q.nodes && q.nodes[q.head.value].data.Some?
    ensures IsRun(q0, steps, last) && forall i :: 0 <= i < |steps| ==> steps[i].0 == t
    ensures last.pushed == q.pushed && last.popped == q.popped + [q.nodes[q.head.value].data.value]
    ensures last.nodes == q.nodes - {q.head.value}
    ensures PlaceOf(last, t).Idle? && last.headLock == None && last.tailLock == None
  {
    hide IsRun;
    var q3 := Next(q, t, TakeHead);
    RunSnoc(q0, first, q, t, TakeHead);
    var q4 := Next(q3, t, AdvanceHead);
    RunSnoc(q0, first + [(t, TakeHead)], q3, t, AdvanceHead);
    var q5 := Next(q4, t, UnlockHead);
    RunSnoc(q0, first + [(t, TakeHead)] + [(t, AdvanceHead)], q4, t, UnlockHead);
    last := Next(q5, t, Free);
    RunSnoc(q0, first + [(t, TakeHead)] + [(t, AdvanceHead)] + [(t, UnlockHead)], q5, t, Free);
    steps := first + [(t, TakeHead)] + [(t, AdvanceHead)] + [(t, UnlockHead)] + [(t, Free)];
  }

  /** A pop, with the locks free and not overtaken, runs to its end: it takes the oldest item and
      frees its node if there is one, and reports empty otherwise. */
  lemma PopCompletes<T>(a: Address, run: seq<(Thread, Step<T>)>, q: Queue<T>, t: Thread)
    returns (steps: seq<(Thread, Step<T>)>, last: Queue<T>)
    requires IsRun(Create(a), run, q) && PlaceOf(q, t).Idle? && q.headLock == None && q.tailLock == None
    ensures IsRun(q, steps, last) && forall i :: 0 <= i < |steps| ==> steps[i].0 == t
    ensures |q.popped| <= |q.pushed| && last.pushed == q.pushed
    ensures last.popped == if |q.popped| < |q.pushed| then q.popped + [q.pushed[|q.popped|]] else q.popped
    ensures q.head.Some? && last.nodes == if |q.popped| < |q.pushed| then q.nodes - {q.head.value} else q.nodes
    ensures PlaceOf(last, t).Idle? && last.headLock == None && last.tailLock == None
  {
    hide IsRun;
    QuietHead(a, run, q);
    var first, q2 := PopLooks(q, t);
    if q.head == Some(q.tail) {
      last := Next(q2, t, ReportEmpty);
      RunSnoc(q, first, q2, t, ReportEmpty);
      steps := first + [(t, ReportEmpty)];
    } else {
      steps, last := PopTakes(q, first, q2, t);
    }
  }
}
