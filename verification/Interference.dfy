/** Several incoming transfers at once: their events share one mailbox and one table keyed by
    the correlation key. */
module Interference {
  import opened Bytes
  import opened Wire
  import opened Sender
  import opened Session
  import opened Stream
  import opened EndToEnd
  import App

  predicate IsFileEvent(act: Action) {
    act.TransferBegin? || act.ChunkReceived? || act.TransferEnd?
  }

  predicate Belongs(act: Action, key: u32) {
    IsFileEvent(act) && act.data.correlationKey == key
  }

  /** The events of one key, in order. */
  function Own(key: u32, acts: seq<Action>): seq<Action> {
    if acts == [] then []
    else if Belongs(acts[0], key) then [acts[0]] + Own(key, acts[1..])
    else Own(key, acts[1..])
  }

  /** BEGINs of `key` go to `p`, and those of every other key go elsewhere. */
  predicate Separate(root: Path, acts: seq<Action>, key: u32, p: Path) {
    forall i :: 0 <= i < |acts| && acts[i].TransferBegin? ==>
      ((acts[i].data.correlationKey == key) <==> (App.DestinationOf(root, acts[i].data) == p))
  }

  /** The next event of `k` uses the table entry that is there, because it is no BEGIN. */
  predicate Continues(acts: seq<Action>, k: u32) {
    Own(k, acts) != [] && !Own(k, acts)[0].TransferBegin?
  }

  /** Among the table entries that are still used, `p` belongs to `key` alone. */
  predicate TableSeparate(root: Path, a: App.AppState, acts: seq<Action>, key: u32, p: Path) {
    forall k :: k in a.transfers && Continues(acts, k) ==> ((k == key) <==> (App.Target(root, a, k) == p))
  }

  /** The two runs agree on what concerns `key`. */
  predicate AgreeOn(a: App.AppState, b: App.AppState, key: u32, p: Path) {
    && a.disk == b.disk && !a.failed && !b.failed
    && (key in a.transfers <==> key in b.transfers)
    && (key in a.transfers ==> a.transfers[key] == b.transfers[key])
    && App.Contents(a, p) == App.Contents(b, p)
  }

  /** An event of key `k` takes its own turn, and everyone else's events wait as before. */
  lemma OwnTurn(acts: seq<Action>, k: u32)
    requires acts != []
    ensures if Belongs(acts[0], k) then Own(k, acts) == [acts[0]] + Own(k, acts[1..])
            else Own(k, acts) == Own(k, acts[1..]) && (Continues(acts, k) <==> Continues(acts[1..], k))
  {
  }

  /** One event of the mailbox, seen from `key`: another transfer's event changes nothing it
      can see, and its own event acts alike in both runs. */
  lemma EventSeparates(root: Path, a: App.AppState, b: App.AppState, acts: seq<Action>, key: u32, p: Path)
    requires acts != [] && AgreeOn(a, b, key, p) && TableSeparate(root, a, acts, key, p)
    requires Separate(root, acts, key, p) && !App.Handle(root, a, acts[0]).failed
    ensures TableSeparate(root, App.Handle(root, a, acts[0]), acts[1..], key, p)
    ensures if Belongs(acts[0], key) then AgreeOn(App.Handle(root, a, acts[0]), App.Handle(root, b, acts[0]), key, p)
            else AgreeOn(App.Handle(root, a, acts[0]), b, key, p)
  {
    hide App.PathFor, App.SplitNames, Fit, Own, Continues;
    var act := acts[0];
    if IsFileEvent(act) {
      OwnTurn(acts, act.data.correlationKey);
      if !act.TransferBegin? { UsesEntry(acts); }
    }
    var a' := App.Handle(root, a, act);
    forall k | k in a'.transfers && Continues(acts[1..], k)
      ensures (k == key) <==> (App.Target(root, a', k) == p)
    {
      OwnTurn(acts, k);
    }
  }

  lemma UsesEntry(acts: seq<Action>)
    requires acts != [] && IsFileEvent(acts[0]) && !acts[0].TransferBegin?
    ensures Continues(acts, acts[0].data.correlationKey)
  {
  }

  lemma {:induction false} RunsAgree(root: Path, a: App.AppState, b: App.AppState, acts: seq<Action>, key: u32, p: Path)
    requires AgreeOn(a, b, key, p) && TableSeparate(root, a, acts, key, p) && Separate(root, acts, key, p)
    requires !App.HandleAll(root, a, acts).failed
    ensures AgreeOn(App.HandleAll(root, a, acts), App.HandleAll(root, b, Own(key, acts)), key, p)
    decreases |acts|
  {
    hide App.Handle, AgreeOn, TableSeparate;
    if acts != [] {
      var a' := App.Handle(root, a, acts[0]);
      App.FailedSticks(root, a', acts[1..]);
      EventSeparates(root, a, b, acts, key, p);
      var own := Own(key, acts);
      if Belongs(acts[0], key) {
        assert own[0] == acts[0] && own[1..] == Own(key, acts[1..]);
        RunsAgree(root, a', App.Handle(root, b, acts[0]), acts[1..], key, p);
      } else {
        RunsAgree(root, a', b, acts[1..], key, p);
      }
    }
  }

  /** Non-interference: in any mailbox order of any number of transfers and other messages,
      what a transfer with its own key and destination leaves behind is what it would have
      left alone. Table entries that a BEGIN is going to replace do not matter. */
  lemma NonInterference(root: Path, a: App.AppState, acts: seq<Action>, key: u32, p: Path)
    requires !a.failed && TableSeparate(root, a, acts, key, p) && Separate(root, acts, key, p)
    requires !App.HandleAll(root, a, acts).failed
    ensures !App.HandleAll(root, a, Own(key, acts)).failed
    ensures App.Contents(App.HandleAll(root, a, acts), p) == App.Contents(App.HandleAll(root, a, Own(key, acts)), p)
  {
    hide App.HandleAll;
    RunsAgree(root, a, a, acts, key, p);
  }

  // ------------------------------------------------------ which orders fail, exactly

  predicate AllBelong(acts: seq<Action>, key: u32) {
    forall i :: 0 <= i < |acts| ==> Belongs(acts[i], key)
  }

  function Only(a: App.AppState, key: u32): map<u32, (Text, Text)> {
    if key in a.transfers then map[key := a.transfers[key]] else map[]
  }

  /** Whether a transfer's events fail depends only on its own table entry and the paths. */
  lemma {:induction false} FailureIsOwn(root: Path, a: App.AppState, b: App.AppState, x: seq<Action>, key: u32)
    requires AllBelong(x, key) && a.disk == b.disk && a.failed == b.failed
    requires Only(a, key) == Only(b, key)
    ensures App.HandleAll(root, a, x).failed == App.HandleAll(root, b, x).failed
    decreases |x|
  {
    hide App.PathFor, App.SplitNames, Fit;
    if x != [] {
      OnlyMeans(a, b, key);
      var a', b' := App.Handle(root, a, x[0]), App.Handle(root, b, x[0]);
      FailureIsOwn(root, a', b', x[1..], key);
    }
  }

  lemma OnlyMeans(a: App.AppState, b: App.AppState, key: u32)
    requires Only(a, key) == Only(b, key)
    ensures key in a.transfers <==> key in b.transfers
    ensures key in a.transfers ==> a.transfers[key] == b.transfers[key]
  {
    assert key in a.transfers <==> key in Only(a, key);
    assert key in b.transfers <==> key in Only(b, key);
  }

  lemma HandleAllUnfold(root: Path, a: App.AppState, acts: seq<Action>)
    requires acts != []
    ensures App.HandleAll(root, a, acts) == App.HandleAll(root, App.Handle(root, a, acts[0]), acts[1..])
  {
  }

  /** One event of `key` that does not fail changes nothing on which the success of the other
      transfers, or of the rest of its own, depends. */
  lemma OthersUnmoved(root: Path, a: App.AppState, acts: seq<Action>, key: u32)
    requires acts != [] && !a.failed && !App.Handle(root, a, acts[0]).failed
    ensures App.HandleAll(root, a, Own(key, acts)).failed
         == App.HandleAll(root, App.Handle(root, a, acts[0]), Own(key, acts[1..])).failed
  {
    hide App.PathFor, App.SplitNames, Fit, App.HandleAll;
    var own, rest := Own(key, acts), Own(key, acts[1..]);
    var b := App.Handle(root, a, acts[0]);
    if Belongs(acts[0], key) {
      assert own[0] == acts[0] && own[1..] == rest;
      HandleAllUnfold(root, a, own);
    } else {
      OwnBelongs(key, acts[1..]);
      assert Only(a, key) == Only(b, key);
      FailureIsOwn(root, a, b, rest, key);
    }
  }

  lemma {:induction false} OwnBelongs(key: u32, acts: seq<Action>)
    ensures AllBelong(Own(key, acts), key)
    ensures forall i :: 0 <= i < |acts| && Belongs(acts[i], key) ==> acts[i] in Own(key, acts)
    decreases |acts|
  {
    if acts != [] {
      OwnBelongs(key, acts[1..]);
      forall i | 0 <= i < |acts| && Belongs(acts[i], key)
        ensures acts[i] in Own(key, acts)
      {
        if i > 0 { assert acts[i] == acts[1..][i - 1]; }
      }
    }
  }

  predicate FailsAlone(root: Path, a: App.AppState, acts: seq<Action>, key: u32) {
    App.HandleAll(root, a, Own(key, acts)).failed
  }

  /** A mailbox order of any number of transfers fails if and only if the events of some key
      would fail on their own: sharing the mailbox adds no failure and hides none. */
  lemma {:induction false} FailsExactlyAlone(root: Path, a: App.AppState, acts: seq<Action>)
    requires !a.failed
    ensures App.HandleAll(root, a, acts).failed <==> exists key: u32 :: FailsAlone(root, a, acts, key)
    decreases |acts|
  {
    hide App.Handle;
    if acts != [] {
      var b := App.Handle(root, a, acts[0]);
      if b.failed {
        OnlyFileEventsFail(root, a, acts[0]);
        var key := acts[0].data.correlationKey;
        var own := Own(key, acts);
        assert own[0] == acts[0];
        App.FailedSticks(root, b, acts[1..]);
        App.FailedSticks(root, b, own[1..]);
        assert FailsAlone(root, a, acts, key);
      } else {
        FailsExactlyAlone(root, b, acts[1..]);
        forall key: u32
          ensures FailsAlone(root, a, acts, key) == FailsAlone(root, b, acts[1..], key)
        {
          OthersUnmoved(root, a, acts, key);
        }
      }
    }
  }

  lemma OnlyFileEventsFail(root: Path, a: App.AppState, act: Action)
    requires !a.failed && App.Handle(root, a, act).failed
    ensures IsFileEvent(act)
  {
  }

  // --------------------------------------------------- any number of whole transfers

  predicate Complete(root: Path, a: App.AppState, job: Job) {
    Receivable(root, a, job) && 1 <= |job.content| <= LARGEST_SENDABLE
  }

  lemma TransferActionsBelong(job: Job)
    ensures AllBelong(TransferActions(job), job.key)
    ensures forall i :: 0 < i < |TransferActions(job)| ==> !TransferActions(job)[i].TransferBegin?
  {
  }

  predicate Distinct(root: Path, jobs: seq<Job>) {
    forall i, j :: 0 <= i < j < |jobs| ==>
      jobs[i].key != jobs[j].key && Destination(root, jobs[i]) != Destination(root, jobs[j])
  }

  /** Different keys, and different pairs of sender and file name, are enough for plain names. */
  lemma PlainNamesDistinct(root: Path, jobs: seq<Job>)
    requires App.RootPath(root)
    requires forall i :: 0 <= i < |jobs| ==> App.Plain(jobs[i].service) && App.Plain(jobs[i].name)
    requires forall i, j :: 0 <= i < j < |jobs| ==>
               jobs[i].key != jobs[j].key && (jobs[i].service, jobs[i].name) != (jobs[j].service, jobs[j].name)
    ensures Distinct(root, jobs)
  {
    hide App.Plain, App.PathFor;
    forall i, j | 0 <= i < j < |jobs|
      ensures Destination(root, jobs[i]) != Destination(root, jobs[j])
    {
      App.PathsDiffer(root, jobs[i].service, jobs[i].name, jobs[j].service, jobs[j].name);
    }
  }

  /** `acts` mixes the events of these transfers, each in its own order, with other messages. */
  predicate Mixes(acts: seq<Action>, jobs: seq<Job>) {
    && (forall i :: 0 <= i < |jobs| ==> Own(jobs[i].key, acts) == TransferActions(jobs[i]))
    && (forall k :: 0 <= k < |acts| && IsFileEvent(acts[k]) ==>
          exists i :: 0 <= i < |jobs| && jobs[i].key == acts[k].data.correlationKey)
  }

  lemma {:induction false} NothingOwn(key: u32, acts: seq<Action>)
    requires forall k :: 0 <= k < |acts| ==> !Belongs(acts[k], key)
    ensures Own(key, acts) == []
    decreases |acts|
  {
    if acts != [] {
      NothingOwn(key, acts[1..]);
    }
  }

  /** Every BEGIN of the mix is the BEGIN of one of the transfers. */
  lemma BeginsAreOf(acts: seq<Action>, jobs: seq<Job>, k: nat) returns (i: nat)
    requires Mixes(acts, jobs) && k < |acts| && acts[k].TransferBegin?
    ensures i < |jobs| && acts[k] == TransferActions(jobs[i])[0]
  {
    hide TransferActions;
    i :| 0 <= i < |jobs| && jobs[i].key == acts[k].data.correlationKey;
    OwnBelongs(jobs[i].key, acts);
    TransferActionsBelong(jobs[i]);
    var own := TransferActions(jobs[i]);
    assert acts[k] in own;
    var m :| 0 <= m < |own| && own[m] == acts[k];
  }

  lemma BeginsSeparate(root: Path, acts: seq<Action>, jobs: seq<Job>, j: nat)
    requires Distinct(root, jobs) && Mixes(acts, jobs) && j < |jobs|
    requires forall i :: 0 <= i < |jobs| ==> BAR !in jobs[i].service
    ensures Separate(root, acts, jobs[j].key, Destination(root, jobs[j]))
  {
    hide App.SplitNames, App.PathFor, Work, ChunkSize, Own, Mixes;
    forall k | 0 <= k < |acts| && acts[k].TransferBegin?
      ensures (acts[k].data.correlationKey == jobs[j].key) <==> (App.DestinationOf(root, acts[k].data) == Destination(root, jobs[j]))
    {
      var i := BeginsAreOf(acts, jobs, k);
      App.SplitNamesRoundTrip(jobs[i].service, jobs[i].name);
      assert App.DestinationOf(root, acts[k].data) == Destination(root, jobs[i]);
    }
  }

  /** Whole transfers begin with their BEGIN, so no entry from before is used. */
  lemma NoneContinues(acts: seq<Action>, jobs: seq<Job>)
    requires Mixes(acts, jobs)
    ensures forall k: u32 :: !Continues(acts, k)
  {
    hide Own, Work, ChunkSize;
    forall k: u32
      ensures !Continues(acts, k)
    {
      if i :| 0 <= i < |jobs| && jobs[i].key == k {
        assert Own(k, acts)[0] == TransferActions(jobs[i])[0];
      } else {
        NothingOwn(k, acts);
      }
    }
  }

  /** Any number of complete transfers with pairwise distinct keys and destinations: whatever
      the order in which their events reach the mailbox and whatever the table held before,
      nothing fails and every file arrives. */
  lemma AllArriveIntact(root: Path, a: App.AppState, acts: seq<Action>, jobs: seq<Job>)
    requires !a.failed && Distinct(root, jobs) && Mixes(acts, jobs)
    requires forall i :: 0 <= i < |jobs| ==> Complete(root, a, jobs[i])
    ensures !App.HandleAll(root, a, acts).failed
    ensures forall i :: 0 <= i < |jobs| ==>
              App.Contents(App.HandleAll(root, a, acts), Destination(root, jobs[i])) == jobs[i].content
  {
    hide App.HandleAll, TransferActions, App.PathFor, Own;
    forall key: u32
      ensures !FailsAlone(root, a, acts, key)
    {
      if i :| 0 <= i < |jobs| && jobs[i].key == key {
        CompleteTransferHandled(root, a, jobs[i]);
      } else {
        NothingOwn(key, acts);
        App.FailedSticks(root, a, []);
      }
    }
    FailsExactlyAlone(root, a, acts);
    forall i | 0 <= i < |jobs|
      ensures App.Contents(App.HandleAll(root, a, acts), Destination(root, jobs[i])) == jobs[i].content
    {
      BeginsSeparate(root, acts, jobs, i);
      NoneContinues(acts, jobs);
      NonInterference(root, a, acts, jobs[i].key, Destination(root, jobs[i]));
      CompleteTransferHandled(root, a, jobs[i]);
    }
  }

  // -------------------------------------------------- two transfers, every interleaving

  /** `acts` is an interleaving of `x` and `y`. */
  ghost predicate Interleaves(acts: seq<Action>, x: seq<Action>, y: seq<Action>)
    decreases |acts|
  {
    if acts == [] then x == [] && y == []
    else
      || (x != [] && acts[0] == x[0] && Interleaves(acts[1..], x[1..], y))
      || (y != [] && acts[0] == y[0] && Interleaves(acts[1..], x, y[1..]))
  }

  lemma {:induction false} OwnOfInterleaving(acts: seq<Action>, x: seq<Action>, y: seq<Action>, kx: u32, ky: u32)
    requires Interleaves(acts, x, y) && AllBelong(x, kx) && AllBelong(y, ky) && kx != ky
    ensures Own(kx, acts) == x && Own(ky, acts) == y
    decreases |acts|
  {
    if acts != [] {
      if x != [] && acts[0] == x[0] && Interleaves(acts[1..], x[1..], y) {
        OwnOfInterleaving(acts[1..], x[1..], y, kx, ky);
        assert x == [x[0]] + x[1..];
      } else {
        OwnOfInterleaving(acts[1..], x, y[1..], kx, ky);
        assert y == [y[0]] + y[1..];
      }
    }
  }

  lemma {:induction false} InterleavingElements(acts: seq<Action>, x: seq<Action>, y: seq<Action>)
    requires Interleaves(acts, x, y)
    ensures forall i :: 0 <= i < |acts| ==> acts[i] in x || acts[i] in y
    decreases |acts|
  {
    if acts != [] {
      if x != [] && acts[0] == x[0] && Interleaves(acts[1..], x[1..], y) {
        InterleavingElements(acts[1..], x[1..], y);
      } else {
        InterleavingElements(acts[1..], x, y[1..]);
      }
      forall i | 0 <= i < |acts|
        ensures acts[i] in x || acts[i] in y
      {
        if i > 0 { assert acts[i] == acts[1..][i - 1]; }
      }
    }
  }

  /** Neither transfer is disturbed in this order of their events. */
  ghost predicate BothIntact(root: Path, a: App.AppState, acts: seq<Action>, x: Job, y: Job) {
    var b := App.HandleAll(root, a, acts);
    && !b.failed
    && App.Contents(b, Destination(root, x)) == x.content
    && App.Contents(b, Destination(root, y)) == y.content
  }

  lemma {:induction false} Concatenation(x: seq<Action>, y: seq<Action>)
    ensures Interleaves(x + y, x, y)
    decreases |x| + |y|
  {
    if x != [] {
      assert (x + y)[1..] == x[1..] + y;
      Concatenation(x[1..], y);
    } else if y != [] {
      assert x + y == y && (x + y)[1..] == x + y[1..];
      Concatenation(x, y[1..]);
    }
  }

  /** Distinct keys and destinations: every interleaving delivers both files. */
  lemma DistinctKeysSuffice(root: Path, a: App.AppState, acts: seq<Action>, x: Job, y: Job)
    requires Complete(root, a, x) && Complete(root, a, y)
    requires Destination(root, x) != Destination(root, y) && x.key != y.key
    requires Interleaves(acts, TransferActions(x), TransferActions(y))
    ensures BothIntact(root, a, acts, x, y)
  {
    hide App.HandleAll, TransferActions, Interleaves, App.PathFor, Own;
    var jobs := [x, y];
    TransferActionsBelong(x);
    TransferActionsBelong(y);
    OwnOfInterleaving(acts, TransferActions(x), TransferActions(y), x.key, y.key);
    InterleavingElements(acts, TransferActions(x), TransferActions(y));
    forall k | 0 <= k < |acts| && IsFileEvent(acts[k])
      ensures exists i :: 0 <= i < |jobs| && jobs[i].key == acts[k].data.correlationKey
    {
      assert jobs[0].key == acts[k].data.correlationKey || jobs[1].key == acts[k].data.correlationKey;
    }
    AllArriveIntact(root, a, acts, jobs);
    assert jobs[0] == x && jobs[1] == y;
  }

  /** Both BEGINs first, then the data of one and of the other. */
  function FailingOrder(x: Job, y: Job): seq<Action> {
    var tx, ty := TransferActions(x), TransferActions(y);
    [tx[0], ty[0]] + (tx[1..] + ty[1..])
  }

  /** Equal keys, as two senders counting from zero do produce: in that order the second BEGIN
      takes over the table entry, the first transfer's data goes to the second's file, and its
      END removes the entry the second transfer still needs. */
  lemma SameKeyFails(root: Path, a: App.AppState, x: Job, y: Job)
    requires Complete(root, a, x) && Complete(root, a, y) && x.key == y.key
    ensures Interleaves(FailingOrder(x, y), TransferActions(x), TransferActions(y))
    ensures App.HandleAll(root, a, FailingOrder(x, y)).failed
  {
    hide Work, ChunkSize, App.SplitNames, App.PathFor, Fit, Payloads;
    var tx, ty := TransferActions(x), TransferActions(y);
    var acts := FailingOrder(x, y);
    Concatenation(tx[1..], ty[1..]);
    assert acts[1..][1..] == tx[1..] + ty[1..];
    assert Interleaves(acts[1..][1..], tx[1..], ty[1..]);
    assert Interleaves(acts[1..], tx[1..], ty);

    App.SplitNamesRoundTrip(x.service, x.name);
    App.SplitNamesRoundTrip(y.service, y.name);
    SenderCompletes(x);
    SenderCompletes(y);
    var p := Destination(root, y);
    var b := App.Handle(root, App.Handle(root, a, acts[0]), acts[1]);
    assert tx[1..] == DataActions(x, Work(x, 0, 0, 1).frames);
    DataHandled(root, b, x, p, Work(x, 0, 0, 1).frames);
    App.HandleAllAppend(root, b, tx[1..], ty[1..]);
    var c := App.HandleAll(root, b, tx[1..]);
    assert x.key !in c.transfers;
    var d := App.Handle(root, c, ty[1..][0]);
    assert ty[1..][0] == DataAction(y, Work(y, 0, 0, 1).frames[0]);
    App.FailedSticks(root, d, ty[1..][1..]);
  }

  /** Two complete transfers with different destinations arrive intact in every order of their
      events if and only if their correlation keys differ. */
  lemma IntactInEveryOrderExactly(root: Path, a: App.AppState, x: Job, y: Job)
    requires Complete(root, a, x) && Complete(root, a, y)
    requires Destination(root, x) != Destination(root, y)
    ensures (forall acts :: Interleaves(acts, TransferActions(x), TransferActions(y)) ==> BothIntact(root, a, acts, x, y))
        <==> x.key != y.key
  {
    hide App.HandleAll, TransferActions, Interleaves, App.PathFor, FailingOrder;
    if x.key != y.key {
      forall acts | Interleaves(acts, TransferActions(x), TransferActions(y))
        ensures BothIntact(root, a, acts, x, y)
      {
        DistinctKeysSuffice(root, a, acts, x, y);
      }
    } else {
      SameKeyFails(root, a, x, y);
      assert !BothIntact(root, a, FailingOrder(x, y), x, y);
    }
  }
}
