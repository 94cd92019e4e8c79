/** Permission to send: offers, verdicts, and the start of a transfer
    (`InitiateFileTransferWithSession`, `SignalFileTransfer`). */
module Consent {
  import opened Bytes

  datatype Offer = Offer(sid: nat, path: Path)

  datatype Start = Start(key: u32, offer: Offer)

  /** Offers made so far, offers awaiting a verdict, and transfers started, oldest first. The
      key is a 32-bit counter shared by all sessions of this sender. */
  datatype Desk = Desk(issued: nat, pending: map<u32, Offer>, starts: seq<Start>) {
    function NextKey(): u32 {
      issued % TWO32
    }
  }

  /** What can happen; `live` says whether the session concerned is still in the table, where
      the original throws otherwise. */
  datatype Event =
    | Offered(offer: Offer, live: bool)
    | Verdict(key: u32, accept: bool, live: bool)

  function Apply(d: Desk, e: Event): Desk {
    match e
    case Offered(offer, _) => d.(issued := d.issued + 1, pending := d.pending[d.NextKey() := offer])
    case Verdict(key, accept, live) =>
      if key !in d.pending then d
      else
        var done := d.(pending := d.pending - {key});
        if accept && live then done.(starts := d.starts + [Start(key, d.pending[key])]) else done
  }

  function Run(events: seq<Event>): Desk
    decreases |events|
  {
    if events == [] then Desk(0, map[], []) else Apply(Run(events[..|events| - 1]), events[|events| - 1])
  }

  /** The same as an object that is updated in place. */
  class TransferDesk {
    var ftcid: u32
    var pendingOutgoing: map<u32, Offer>
    var started: seq<Start>
    ghost var issued: nat

    ghost predicate Valid()
      reads this
    {
      ftcid == issued % TWO32
    }

    ghost function View(): Desk
      reads this
    {
      Desk(issued, pendingOutgoing, started)
    }

    constructor ()
      ensures Valid() && View() == Run([])
    {
      ftcid, issued, pendingOutgoing, started := 0, 0, map[], [];
    }

    /** Remembers the offer, then sends it if the session exists. */
    method InitiateFileTransferWithSession(offer: Offer, sessions: set<nat>) returns (sent: Option<u32>)
      requires Valid()
      modifies this
      ensures Valid() && View() == Apply(old(View()), Offered(offer, offer.sid in sessions))
      ensures sent == if offer.sid in sessions then Some(old(ftcid)) else None
    {
      var key := ftcid;
      ftcid := (ftcid + 1) % TWO32;
      issued := issued + 1;
      pendingOutgoing := pendingOutgoing[key := offer];
      sent := if offer.sid in sessions then Some(key) else None;
    }

    method SignalFileTransfer(key: u32, accept: bool, sessions: set<nat>)
      requires Valid()
      modifies this
      ensures Valid()
      ensures View() == Apply(old(View()), Verdict(key, accept,
                key in old(pendingOutgoing) && old(pendingOutgoing)[key].sid in sessions))
    {
      if key !in pendingOutgoing { return; }
      var offer := pendingOutgoing[key];
      pendingOutgoing := pendingOutgoing - {key};
      if !accept { return; }
      if offer.sid !in sessions { return; }
      started := started + [Start(key, offer)];
    }
  }

  // ------------------------------------------------- what a run of events starts, exactly

  function Offers(events: seq<Event>): nat
    decreases |events|
  {
    if events == [] then 0
    else Offers(events[..|events| - 1]) + if events[|events| - 1].Offered? then 1 else 0
  }

  /** The `i`-th event made an offer, under key `k`. */
  predicate OfferAt(events: seq<Event>, i: nat, k: u32) {
    i < |events| && events[i].Offered? && Offers(events[..i]) == k
  }

  /** No verdict on `k` from `i` up to `n`. */
  predicate Undecided(events: seq<Event>, i: nat, n: nat, k: u32) {
    forall m :: i <= m < n <= |events| && events[m].Verdict? ==> events[m].key != k
  }

  /** Event `i` made the offer of `x`, event `j` was the first verdict on its key after that,
      and it was an ACCEPT while the session was live. */
  predicate Granted(events: seq<Event>, i: nat, j: nat, x: Start) {
    && i < j < |events| && OfferAt(events, i, x.key) && events[i].offer == x.offer
    && Undecided(events, i + 1, j, x.key) && events[j] == Verdict(x.key, true, true)
  }

  /** The offer of `k` awaits its verdict. */
  predicate Awaiting(events: seq<Event>, i: nat, k: u32): (awaiting: bool)
    ensures awaiting ==> i < |events| && events[i].Offered?
  {
    OfferAt(events, i, k) && Undecided(events, i + 1, |events|, k)
  }

  /** A key is pending exactly while its offer awaits a verdict. */
  ghost predicate PendingAt(events: seq<Event>, k: u32) {
    var d := Run(events);
    && (k in d.pending ==> exists i: nat :: Awaiting(events, i, k) && events[i].offer == d.pending[k])
    && (forall i: nat :: Awaiting(events, i, k) ==> k in d.pending)
  }

  ghost predicate StartedAt(events: seq<Event>, x: Start) {
    x in Run(events).starts <==> exists i: nat, j: nat :: Granted(events, i, j, x)
  }

  lemma {:induction false} OffersMonotone(events: seq<Event>, i: nat, j: nat)
    requires i <= j <= |events|
    ensures Offers(events[..i]) <= Offers(events[..j])
    ensures i < j && events[i].Offered? ==> Offers(events[..i]) < Offers(events[..j])
    decreases j
  {
    if i < j {
      assert events[..j][..j - 1] == events[..j - 1] && events[..j][j - 1] == events[j - 1];
      if i < j - 1 {
        OffersMonotone(events, i, j - 1);
      }
    }
  }

  /** Keys identify offers. */
  lemma KeyIsUnique(events: seq<Event>, i: nat, j: nat, k: u32)
    requires OfferAt(events, i, k) && OfferAt(events, j, k)
    ensures i == j
  {
    if i < j {
      OffersMonotone(events, i, j);
    } else if j < i {
      OffersMonotone(events, j, i);
    }
  }

  /** Looking at events before the last one. */
  lemma PrefixView(events: seq<Event>, i: nat, k: u32)
    requires events != [] && i < |events| - 1
    ensures var before := events[..|events| - 1];
            && (OfferAt(events, i, k) <==> OfferAt(before, i, k))
            && before[i] == events[i]
  {
    assert events[..|events| - 1][..i] == events[..i];
  }

  lemma {:induction false} IssuedCounts(events: seq<Event>)
    ensures Run(events).issued == Offers(events)
    decreases |events|
  {
    if events != [] {
      IssuedCounts(events[..|events| - 1]);
    }
  }

  /** How one more event changes which offers await a verdict. */
  lemma AwaitingStep(events: seq<Event>, i: nat, k: u32)
    requires events != []
    ensures var n := |events| - 1;
            var before, e := events[..n], events[n];
            Awaiting(events, i, k) <==>
              if i < n then Awaiting(before, i, k) && !(e.Verdict? && e.key == k)
              else i == n && e.Offered? && Offers(before) == k
  {
    var n := |events| - 1;
    assert forall m :: 0 <= m < n ==> events[..n][m] == events[m];
    if i < n {
      PrefixView(events, i, k);
      assert i + 1 <= n;
      assert Undecided(events, i + 1, n + 1, k) <==>
             (Undecided(events[..n], i + 1, n, k) && !(events[n].Verdict? && events[n].key == k));
    }
  }

  lemma NextKeyIsCount(events: seq<Event>)
    requires events != [] && events[|events| - 1].Offered? && Offers(events) <= TWO32
    ensures Run(events[..|events| - 1]).NextKey() == Offers(events[..|events| - 1])
  {
    IssuedCounts(events[..|events| - 1]);
  }

  lemma PendingStepAt(events: seq<Event>, k: u32)
    requires events != [] && Offers(events) <= TWO32 && PendingAt(events[..|events| - 1], k)
    ensures PendingAt(events, k)
  {
    hide Awaiting, Offers, Run;
    var n := |events| - 1;
    var before, e := events[..n], events[n];
    RunStep(events);
    if e.Offered? {
      NextKeyIsCount(events);
    }
    var d, d' := Run(before), Run(events);
    forall i: nat | Awaiting(events, i, k)
      ensures k in d'.pending
    {
      AwaitingStep(events, i, k);
    }
    if k in d'.pending {
      if e.Offered? && k == d.NextKey() {
        AwaitingStep(events, n, k);
      } else {
        var i: nat :| Awaiting(before, i, k) && before[i].offer == d.pending[k];
        AwaitingStep(events, i, k);
      }
    }
  }

  lemma RunStep(events: seq<Event>)
    requires events != []
    ensures Run(events) == Apply(Run(events[..|events| - 1]), events[|events| - 1])
  {
  }

  lemma AwaitingIsOffer(events: seq<Event>, i: nat, k: u32)
    requires Awaiting(events, i, k)
    ensures i < |events| && events[i].Offered? && OfferAt(events, i, k)
  {
  }

  lemma GrantedView(events: seq<Event>, i: nat, j: nat, x: Start)
    requires events != [] && j < |events| - 1
    ensures Granted(events, i, j, x) <==> Granted(events[..|events| - 1], i, j, x)
  {
    var before := events[..|events| - 1];
    assert forall m :: 0 <= m < |events| - 1 ==> before[m] == events[m];
    if i < j {
      PrefixView(events, i, x.key);
    }
  }

  /** The last event grants something exactly when it is an ACCEPT of a pending key. */
  lemma GrantedLast(events: seq<Event>, i: nat, x: Start)
    requires events != [] && i < |events| - 1
    ensures var n := |events| - 1;
            Granted(events, i, n, x) <==>
              (Awaiting(events[..n], i, x.key) && events[i].offer == x.offer && events[n] == Verdict(x.key, true, true))
  {
    var n := |events| - 1;
    PrefixView(events, i, x.key);
    assert forall m :: 0 <= m < n ==> events[..n][m] == events[m];
  }

  lemma StartedStepAt(events: seq<Event>, x: Start)
    requires events != [] && PendingAt(events[..|events| - 1], x.key) && StartedAt(events[..|events| - 1], x)
    ensures StartedAt(events, x)
  {
    hide Granted, Awaiting;
    var n := |events| - 1;
    var before, e := events[..n], events[n];
    var d, d' := Run(before), Run(events);
    forall i: nat, j: nat | Granted(events, i, j, x)
      ensures x in d'.starts
    {
      GrantedBounds(events, i, j, x);
      if j < n {
        GrantedView(events, i, j, x);
        assert x in d.starts;
      } else {
        GrantedLast(events, i, x);
        var i': nat :| Awaiting(before, i', x.key) && before[i'].offer == d.pending[x.key];
        AwaitingIsOffer(before, i, x.key);
        AwaitingIsOffer(before, i', x.key);
        KeyIsUnique(before, i, i', x.key);
        assert d'.starts[|d.starts|] == x;
      }
    }
    if x in d'.starts {
      if x in d.starts {
        var i: nat, j: nat :| Granted(before, i, j, x);
        GrantedBounds(before, i, j, x);
        GrantedView(events, i, j, x);
      } else {
        var i: nat :| Awaiting(before, i, x.key) && before[i].offer == d.pending[x.key];
        AwaitingIsOffer(before, i, x.key);
        GrantedLast(events, i, x);
      }
    }
  }

  lemma GrantedBounds(events: seq<Event>, i: nat, j: nat, x: Start)
    requires Granted(events, i, j, x)
    ensures i < j < |events| && events[i].Offered?
  {
  }

  lemma {:induction false} PendingEveryRun(events: seq<Event>, k: u32)
    requires Offers(events) <= TWO32
    ensures PendingAt(events, k)
    decreases |events|
  {
    if events != [] {
      PendingEveryRun(events[..|events| - 1], k);
      PendingStepAt(events, k);
    }
  }

  /** Consent over all runs: with at most 2^32 offers, a transfer of a key to a session is
      started if and only if that key was offered on that session and the first verdict on it
      afterwards was an ACCEPT. */
  lemma {:induction false} StartedExactlyWhenGranted(events: seq<Event>, x: Start)
    requires Offers(events) <= TWO32
    ensures x in Run(events).starts <==> exists i: nat, j: nat :: Granted(events, i, j, x)
    decreases |events|
  {
    if events != [] {
      PendingEveryRun(events[..|events| - 1], x.key);
      StartedExactlyWhenGranted(events[..|events| - 1], x);
      StartedStepAt(events, x);
    }
  }

  /** Each key starts at most once; a key that has started is no longer pending. */
  predicate StartedOnce(d: Desk) {
    && (forall i :: 0 <= i < |d.starts| ==> d.starts[i].key < d.issued && d.starts[i].key !in d.pending)
    && (forall k :: k in d.pending ==> k < d.issued)
    && (forall i, j :: 0 <= i < j < |d.starts| ==> d.starts[i].key != d.starts[j].key)
  }

  lemma {:induction false} EachKeyStartsAtMostOnce(events: seq<Event>)
    requires Offers(events) <= TWO32
    ensures StartedOnce(Run(events))
    decreases |events|
  {
    if events != [] {
      EachKeyStartsAtMostOnce(events[..|events| - 1]);
      IssuedCounts(events[..|events| - 1]);
    }
  }

  // ------------------------------------------------------------- beyond the key space

  function Repeat(e: Event, n: nat): (r: seq<Event>)
    ensures |r| == n
  {
    if n == 0 then [] else Repeat(e, n - 1) + [e]
  }

  lemma RunSnoc(events: seq<Event>, e: Event)
    ensures Run(events + [e]) == Apply(Run(events), e)
  {
    assert (events + [e])[..|events|] == events;
  }

  lemma {:induction false} ManyOffers(events: seq<Event>, o: Offer, n: nat)
    ensures var d := Run(events + Repeat(Offered(o, true), n));
            d.issued == Run(events).issued + n && d.starts == Run(events).starts
  {
    if n == 0 {
      assert events + [] == events;
    } else {
      ManyOffers(events, o, n - 1);
      var before := Repeat(Offered(o, true), n - 1);
      assert events + Repeat(Offered(o, true), n) == (events + before) + [Offered(o, true)];
      RunSnoc(events + before, Offered(o, true));
    }
  }

  /** Beyond the key space: for every number of offers above 2^32 there is a history in which
      key 0 starts twice, although each time on a fresh ACCEPT. */
  lemma KeyReuseStartsTwice(o: Offer, n: nat) returns (events: seq<Event>)
    requires n > TWO32
    ensures Offers(events) == n
    ensures Run(events).starts == [Start(0, o), Start(0, o)]
  {
    hide Run;
    var offer, accept := Offered(o, true), Verdict(0, true, true);
    assert Run([]) == Desk(0, map[], []) by { EmptyRun(); }
    RunSnoc([], offer);
    RunSnoc([] + [offer], accept);
    var first := [] + [offer] + [accept];
    assert Run(first).issued == 1 && Run(first).starts == [Start(0, o)];
    ManyOffers(first, o, TWO32 - 1);
    var middle := first + Repeat(offer, TWO32 - 1);
    RunSnoc(middle, offer);
    RunSnoc(middle + [offer], accept);
    var last := middle + [offer] + [accept];
    ManyOffers(last, o, n - TWO32 - 1);
    events := last + Repeat(offer, n - TWO32 - 1);
    IssuedCounts(events);
  }

  ghost predicate StartsOnceWith(events: seq<Event>, n: nat) {
    Offers(events) == n ==>
      var starts := Run(events).starts;
      forall i, j :: 0 <= i < j < |starts| ==> starts[i].key != starts[j].key
  }

  /** The bound is exact: every history with `n` offers starts each key at most once if and only
      if `n` is at most 2^32. */
  lemma StartsOnceExactlyUpToKeySpace(n: nat)
    ensures (forall events :: StartsOnceWith(events, n)) <==> n <= TWO32
  {
    hide Run, Offers;
    if n <= TWO32 {
      forall events: seq<Event>
        ensures StartsOnceWith(events, n)
      {
        if Offers(events) == n { EachKeyStartsAtMostOnce(events); }
      }
    } else {
      var events := KeyReuseStartsTwice(Offer(0, []), n);
      assert Run(events).starts[0].key == Run(events).starts[1].key;
      assert !StartsOnceWith(events, n);
    }
  }

  lemma EmptyRun()
    ensures Run([]) == Desk(0, map[], [])
  {
  }
}
