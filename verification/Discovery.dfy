/** From browse records to dialling, on Bonjour: the name read from a record is resolved, and only
    a name under which a peer is registered resolves; then the names are compared. The service
    type and domain are taken to be short and without spaces. */
module Discovery {
  import opened Bytes
  import opened Tables
  import opened Browse

  /** A peer's name as the others read it. */
  function Seen(name: Name): Name {
    Expected(name, SERVNAME)
  }

  /** The name comes through the record. */
  predicate Survives(name: Name) {
    |name| < SERVNAME && SPACE !in name
  }

  /** A name is read as itself if and only if it survives, and whatever is read survives. */
  lemma SurvivesExactly(name: Name)
    ensures Seen(name) == name <==> Survives(name)
    ensures Survives(Seen(name))
  {
    if Survives(name) {
      WithoutAbsent(name, SPACE);
    } else if |name| < SERVNAME {
      WithoutShortens(name, SPACE);
    }
  }

  lemma {:induction false} WithoutShortens(s: Text, c: byte)
    ensures |Without(s, c)| <= |s|
  {
    if s != [] {
      WithoutShortens(s[1..], c);
    }
  }

  // ------------------------------------------------------------------ what one peer dials

  /** The replies name a peer that is read as `n`. */
  predicate Listed(replies: seq<Reply>, n: Name) {
    exists j :: 0 <= j < |replies| && Seen(replies[j].serviceName) == n
  }

  /** `HandlePublishedServices` and `HandleResolvedServices` for one batch of browse callbacks at
      a peer that knows nobody yet: every new instance but its own is resolved, every resolved
      service that is not among the nodes is noted and, if its name is larger, dialled. */
  method DialDiscovered(me: Name, replies: seq<Reply>, registered: set<Name>) returns (dialled: seq<Name>)
    requires forall i :: 0 <= i < |replies| ==> WellTyped(replies[i])
    ensures forall n :: n in dialled <==> n in registered && Less(me, n) && Listed(Good(replies), n)
    ensures forall i, j :: 0 <= i < j < |dialled| ==> dialled[i] != dialled[j]
  {
    hide Good, Less, Expected;
    var instances := BrowseBatch(replies);
    var services: seq<Instance> := [];
    var nodes: set<Name> := {};
    dialled := [];
    assert !Less(me, me) by { ExactlyOneDials(me, me); }
    for i := 0 to |instances|
      invariant forall s :: s in services ==> s.serviceName in nodes || s.serviceName !in registered
      invariant forall n :: n in nodes <==> n in registered && n != me && Listed(Good(replies)[..i], n)
      invariant forall n :: n in dialled <==> n in nodes && Less(me, n)
      invariant forall j, k :: 0 <= j < k < |dialled| ==> dialled[j] != dialled[k]
    {
      var found := instances[i];
      ListedStep(Good(replies), i);
      if found !in services && found.serviceName != me {
        services := services + [found];
        var name := found.serviceName;
        if name in registered && name !in nodes {
          nodes := nodes + {name};
          if Less(me, name) { dialled := dialled + [name]; }
        }
      }
    }
    assert Good(replies)[..|instances|] == Good(replies);
  }

  lemma ListedStep(replies: seq<Reply>, i: nat)
    requires i < |replies|
    ensures forall n: Name :: Listed(replies[..i + 1], n) <==> Listed(replies[..i], n) || Seen(replies[i].serviceName) == n
  {
    hide Seen;
    forall n: Name
      ensures Listed(replies[..i + 1], n) <==> Listed(replies[..i], n) || Seen(replies[i].serviceName) == n
    {
      if Listed(replies[..i + 1], n) {
        var j :| 0 <= j < i + 1 && Seen(replies[..i + 1][j].serviceName) == n;
        assert j < i ==> replies[..i][j] == replies[j];
      }
      if Listed(replies[..i], n) {
        var j :| 0 <= j < i && Seen(replies[..i][j].serviceName) == n;
        assert replies[..i + 1][j] == replies[j];
      }
      assert replies[..i + 1][i] == replies[i];
    }
  }

  // ---------------------------------------------------------------- who dials whom

  /** In a network of these peers, `p` dials `q`: some peer is read as `q`, and `q` is the larger
      name and registered. */
  ghost predicate Dials(peers: set<Name>, p: Name, q: Name) {
    q in peers && Less(p, q) && exists r :: r in peers && Seen(r) == q
  }

  /** What the method above does when the records of all peers have come in. */
  lemma DialledAre(peers: set<Name>, replies: seq<Reply>, p: Name, q: Name)
    requires forall r :: r in peers <==> exists j :: 0 <= j < |replies| && replies[j].serviceName == r
    ensures Dials(peers, p, q) <==> q in peers && Less(p, q) && Listed(replies, q)
  {
    hide Seen, Less;
    if Listed(replies, q) {
      var j :| 0 <= j < |replies| && Seen(replies[j].serviceName) == q;
      assert replies[j].serviceName in peers;
    }
    if r :| r in peers && Seen(r) == q {
      var j :| 0 <= j < |replies| && replies[j].serviceName == r;
      assert Seen(replies[j].serviceName) == q;
    }
  }

  /** No record is read as a name that does not survive, so such a peer is never dialled; the
      others are dialled by every smaller peer. */
  lemma DialsExactly(peers: set<Name>, p: Name, q: Name)
    ensures Dials(peers, p, q) <==> q in peers && Survives(q) && Less(p, q)
  {
    hide Seen, Survives;
    SurvivesExactly(q);
    if Dials(peers, p, q) {
      var r :| r in peers && Seen(r) == q;
      SurvivesExactly(r);
    }
  }

  /** Of two peers exactly one dials the other if and only if the larger name survives; if it
      does not, neither dials. They never both dial. */
  lemma ExactlyOneDialsIff(peers: set<Name>, p: Name, q: Name)
    requires p in peers && q in peers && Less(p, q)
    ensures (Dials(peers, p, q) <==> !Dials(peers, q, p)) <==> Survives(q)
    ensures !Dials(peers, q, p)
  {
    ExactlyOneDials(p, q);
    DialsExactly(peers, p, q);
    DialsExactly(peers, q, p);
  }

  /** A whole network: in every pair exactly one peer dials if and only if every name survives,
      the smallest excepted. */
  lemma EveryPairDialsExactly(peers: set<Name>)
    ensures (forall p, q :: p in peers && q in peers && p != q ==> (Dials(peers, p, q) <==> !Dials(peers, q, p)))
        <==> (forall p, q :: p in peers && q in peers && Less(p, q) ==> Survives(q))
  {
    hide Dials, Survives, Less;
    forall p, q | p in peers && q in peers && Less(p, q)
      ensures p != q && ((Dials(peers, p, q) <==> !Dials(peers, q, p)) <==> Survives(q))
    {
      ExactlyOneDials(p, q);
      ExactlyOneDialsIff(peers, p, q);
    }
    forall p, q | p in peers && q in peers && p != q
      ensures Less(p, q) || Less(q, p)
    {
      ExactlyOneDials(p, q);
    }
  }
}
