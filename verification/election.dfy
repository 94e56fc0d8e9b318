/** The bully election of `brokers/broker.py`: `initiate_election` asks every
    peer with a higher `(host, port)` and, when none of them answers, calls
    `announce_coordinator`, which makes this broker the coordinator and tells
    every peer. The replies are an input: `answered` is the set of peers
    whose reply arrived before the five-second timeout. */
module Election {
  import opened Wrappers
  import opened Addresses
  import opened NodeState
  import Seqs

  datatype Message =
    | ElectionRequest(sender: Addr)          // {"type": "election", "sender": ...}
    | CoordinatorAnnouncement(sender: Addr)  // {"type": "coordinator", "sender": ...}

  datatype Envelope = Envelope(to: Addr, msg: Message)

  /** The peers that outrank `own`, in roster order. */
  function HigherPriority(peers: seq<Addr>, own: Addr): (higher: seq<Addr>)
    ensures forall p :: p in higher <==> p in peers && AddrLt(own, p)
    ensures Seqs.IsSubseq(higher, peers)
  {
    if |peers| == 0 then []
    else
      var rest := HigherPriority(peers[1..], own);
      assert peers == [peers[0]] + peers[1..];
      if AddrLt(own, peers[0]) then
        assert ([peers[0]] + rest)[1..] == rest;
        [peers[0]] + rest
      else
        assert |rest| == 0 || rest[0] != peers[0];
        rest
  }

  /** Each higher peer is asked as often as it is listed, and no other
      address is asked. */
  lemma {:induction false} HigherPriorityCounts(peers: seq<Addr>, own: Addr, p: Addr)
    ensures multiset(HigherPriority(peers, own))[p] == if AddrLt(own, p) then multiset(peers)[p] else 0
    decreases |peers|
  {
    if |peers| > 0 {
      HigherPriorityCounts(peers[1..], own, p);
      assert peers == [peers[0]] + peers[1..];
      assert multiset(peers) == multiset([peers[0]]) + multiset(peers[1..]);
    }
  }

  /** One message of the same kind to every address, in order. */
  function Broadcast(to: seq<Addr>, m: Message): (out: seq<Envelope>)
    ensures |out| == |to|
    ensures forall i :: 0 <= i < |out| ==> out[i].to == to[i] && out[i].msg == m
  {
    seq(|to|, i requires 0 <= i < |to| => Envelope(to[i], m))
  }

  /** Every listed address receives the broadcast message. */
  lemma BroadcastReaches(to: seq<Addr>, m: Message)
    ensures forall p :: p in to ==> Envelope(p, m) in Broadcast(to, m)
  {
    var out := Broadcast(to, m);
    forall p | p in to
      ensures Envelope(p, m) in out
    {
      var i :| 0 <= i < |to| && to[i] == p;
      assert out[i] == Envelope(p, m);
    }
  }

  /** No outranking peer replied to the election request. */
  predicate NoHigherAnswered(peers: seq<Addr>, own: Addr, answered: set<Addr>) {
    forall p :: p in peers && AddrLt(own, p) ==> p !in answered
  }

  datatype Outcome = Outcome(next: Broker, sent: seq<Envelope>)

  /** `announce_coordinator`: this broker becomes coordinator and sends one
      announcement to each peer, in roster order. */
  function AnnounceCoordinator(b: Broker): (o: Outcome)
    ensures o.next.isCoordinator && o.next.coordinator == Some(b.own)
    ensures o.next.own == b.own && o.next.peers == b.peers && o.next.lastHeartbeat == b.lastHeartbeat
    ensures |o.sent| == |b.peers|
    ensures forall i :: 0 <= i < |o.sent| ==> o.sent[i] == Envelope(b.peers[i], CoordinatorAnnouncement(b.own))
  {
    Outcome(b.(isCoordinator := true, coordinator := Some(b.own)),
            Broadcast(b.peers, CoordinatorAnnouncement(b.own)))
  }

  /** `initiate_election`: request every higher peer, then decide on the
      replies. */
  function InitiateElection(b: Broker, answered: set<Addr>): (o: Outcome)
    ensures o.next.own == b.own && o.next.peers == b.peers && o.next.lastHeartbeat == b.lastHeartbeat
    ensures NoHigherAnswered(b.peers, b.own, answered) ==>
              o.next.isCoordinator && o.next.coordinator == Some(b.own)
    ensures !NoHigherAnswered(b.peers, b.own, answered) ==> o.next == b
    ensures forall e :: e in o.sent ==> e.msg.sender == b.own && e.to in b.peers
    ensures forall e :: e in o.sent && e.msg.ElectionRequest? ==> AddrLt(b.own, e.to)
    ensures forall p :: p in b.peers && AddrLt(b.own, p) ==> Envelope(p, ElectionRequest(b.own)) in o.sent
    ensures forall p :: p in b.peers ==>
              (Envelope(p, CoordinatorAnnouncement(b.own)) in o.sent <==> NoHigherAnswered(b.peers, b.own, answered))
  {
    var higher := HigherPriority(b.peers, b.own);
    var requests := Broadcast(higher, ElectionRequest(b.own));
    BroadcastReaches(higher, ElectionRequest(b.own));
    if NoHigherAnswered(b.peers, b.own, answered) then
      var ann := AnnounceCoordinator(b);
      BroadcastReaches(b.peers, CoordinatorAnnouncement(b.own));
      Outcome(ann.next, requests + ann.sent)
    else
      Outcome(b, requests)
  }

  // ---------------------------------------------------------------------
  // The election in a fully connected cluster

  /** `peers` lists every other member of `cluster`, and nothing else. */
  ghost predicate ListsOthers(cluster: set<Addr>, own: Addr, peers: seq<Addr>) {
    forall p :: p in peers <==> p in cluster && p != own
  }

  /** One live broker's election when the live brokers answer and `w`
      outranks every other live broker. */
  lemma ElectionAt(b: Broker, cluster: set<Addr>, alive: set<Addr>, w: Addr)
    requires alive <= cluster && b.own in alive && w in alive
    requires forall n :: n in alive && n != w ==> AddrLt(n, w)
    requires ListsOthers(cluster, b.own, b.peers)
    requires !b.isCoordinator
    ensures InitiateElection(b, alive).next.isCoordinator <==> b.own == w
  {
    if b.own == w {
      forall p | p in b.peers && AddrLt(w, p)
        ensures p !in alive
      {
        AddrLtStrictTotal(p, w, p);
      }
    } else {
      assert w in b.peers && AddrLt(b.own, w);
      assert !NoHigherAnswered(b.peers, b.own, alive);
    }
  }

  /** In a cluster where every broker lists all the others and exactly the
      live ones answer, the election of any live broker `n` makes it
      coordinator exactly when it is `w`, the live broker with the highest
      `(host, port)` (`Addresses.HighestExists` shows one exists whenever a
      broker is alive): exactly one live broker ends up coordinator. */
  lemma HighestLiveBrokerWins(cluster: set<Addr>, alive: set<Addr>, brokers: map<Addr, Broker>, w: Addr, n: Addr)
    requires alive <= cluster
    requires forall m :: m in cluster ==> m in brokers && brokers[m].own == m
    requires forall m :: m in cluster ==> ListsOthers(cluster, m, brokers[m].peers)
    requires forall m :: m in alive ==> !brokers[m].isCoordinator
    requires w in alive && forall m :: m in alive && m != w ==> AddrLt(m, w)
    requires n in alive
    ensures InitiateElection(brokers[n], alive).next.isCoordinator <==> n == w
  {
    ElectionAt(brokers[n], cluster, alive, w);
  }
}
