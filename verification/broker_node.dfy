/** One broker of `brokers/broker.py` as a state machine: `Broker.__init__`
    builds the state, and each iteration of its background loops is one
    deterministic step. Socket I/O becomes inputs (a received datagram, the
    set of peers that answered an election) and outputs (the messages
    sent); `time.time()` becomes the integer `now`. */
module BrokerNode {
  import opened Wrappers
  import opened Addresses
  import opened Heartbeat
  import opened NodeState
  import opened Election
  import Roster

  /** `Broker.__init__`: the peers come from the roster file, the heartbeat
      map gets one clock reading per peer, and the broker starts as a
      follower with no known coordinator. */
  function Boot(own: Addr, roster: Option<string>, readings: seq<int>): (b: Broker)
    requires |readings| == |Roster.LoadPeers(roster, own)|
    ensures Valid(b)
    ensures b.own == own && b.peers == Roster.LoadPeers(roster, own)
    ensures b.coordinator == None && !b.isCoordinator
  {
    var peers := Roster.LoadPeers(roster, own);
    Broker(own, peers, InitHeartbeats(peers, readings), None, false)
  }

  /** One datagram taken by the heartbeat server's loop at clock `now`. */
  function Receive(b: Broker, d: Datagram, now: int): (b': Broker)
    ensures b'.own == b.own && b'.peers == b.peers
    ensures b'.coordinator == b.coordinator && b'.isCoordinator == b.isCoordinator
    ensures Valid(b) ==> Valid(b')
    ensures IsHeartbeatFrom(d, b.peers) ==> d.origin in b'.lastHeartbeat && b'.lastHeartbeat[d.origin] == now
    ensures forall p :: p in b.lastHeartbeat && p != d.origin ==>
              p in b'.lastHeartbeat && b'.lastHeartbeat[p] == b.lastHeartbeat[p]
    ensures !IsHeartbeatFrom(d, b.peers) ==> b' == b
  {
    b.(lastHeartbeat := Admit(b.lastHeartbeat, b.peers, d, now))
  }

  /** What one pass of `detect_failures` did at clock `now`: the peers it
      reported failed, whether it started an election, and the election's
      outcome (the unchanged broker and no messages when it did not). */
  datatype Scan = Scan(failed: set<Addr>, electionStarted: bool, next: Broker, sent: seq<Envelope>)

  /** One pass of `detect_failures`. A failed peer is only reported, unless
      it is the recorded coordinator, in which case an election runs with
      `answered` as the replies. At most one key equals the coordinator, so
      a pass starts at most one election. */
  function DetectFailures(b: Broker, now: int, answered: set<Addr>): (s: Scan)
    ensures forall p :: p in s.failed <==> p in b.lastHeartbeat && now - b.lastHeartbeat[p] > FailureThreshold
    ensures s.electionStarted <==> b.coordinator.Some? && b.coordinator.value in s.failed
    ensures s.next.lastHeartbeat == b.lastHeartbeat && s.next.peers == b.peers && s.next.own == b.own
    ensures !s.electionStarted ==> s.next == b && s.sent == []
    ensures s.electionStarted ==> Outcome(s.next, s.sent) == InitiateElection(b, answered)
  {
    var failed := Failed(b.lastHeartbeat, now);
    if b.coordinator.Some? && b.coordinator.value in failed then
      var o := InitiateElection(b, answered);
      Scan(failed, true, o.next, o.sent)
    else
      Scan(failed, false, b, [])
  }

  /** A broker that is its own coordinator never starts an election on a
      failure: its own address is not a key of the heartbeat map. */
  lemma SelfCoordinatorNeverReelects(b: Broker, now: int, answered: set<Addr>)
    requires Valid(b) && b.coordinator == Some(b.own)
    ensures !DetectFailures(b, now, answered).electionStarted
  {
  }

  // ---------------------------------------------------------------------
  // Runs of the modelled steps

  datatype Event =
    | StartElection(answered: set<Addr>)      // the election thread started by __init__
    | Arrive(d: Datagram, now: int)           // one iteration of start_heartbeat_server
    | Check(now: int, answered: set<Addr>)    // one iteration of detect_failures

  function Step(b: Broker, e: Event): Broker {
    match e
    case StartElection(answered) => InitiateElection(b, answered).next
    case Arrive(d, now) => Receive(b, d, now)
    case Check(now, answered) => DetectFailures(b, now, answered).next
  }

  function Run(b: Broker, events: seq<Event>): Broker
    decreases |events|
  {
    if |events| == 0 then b else Run(Step(b, events[0]), events[1..])
  }

  /** The coordinator fields as brokers/broker.py can set them: no
      coordinator yet, or this broker itself (only `announce_coordinator`
      writes them). */
  predicate CoordinatorIsSelfOrNone(b: Broker) {
    && (b.coordinator == None || b.coordinator == Some(b.own))
    && (b.isCoordinator <==> b.coordinator == Some(b.own))
  }

  lemma StepKeepsInvariant(b: Broker, e: Event)
    requires Valid(b) && CoordinatorIsSelfOrNone(b)
    ensures Valid(Step(b, e)) && CoordinatorIsSelfOrNone(Step(b, e))
    ensures Step(b, e).peers == b.peers && Step(b, e).own == b.own
  {
  }

  /** Every broker reached from `Boot` by the modelled steps keeps a
      well-formed heartbeat map and has no coordinator other than itself. */
  lemma {:induction false} RunKeepsInvariant(b: Broker, events: seq<Event>)
    requires Valid(b) && CoordinatorIsSelfOrNone(b)
    ensures Valid(Run(b, events)) && CoordinatorIsSelfOrNone(Run(b, events))
    ensures Run(b, events).peers == b.peers && Run(b, events).own == b.own
    decreases |events|
  {
    if |events| > 0 {
      StepKeepsInvariant(b, events[0]);
      RunKeepsInvariant(Step(b, events[0]), events[1..]);
    }
  }

  /** The coordinator-loss trigger of `detect_failures` never fires in a
      broker driven only by the steps above: the coordinator is either
      unknown or the broker itself, and neither is a key of the heartbeat
      map. Only a handler that records another broker's announcement could
      arm it, and that handler is not part of this model. */
  lemma CoordinatorLossNeedsAnnouncement(own: Addr, roster: Option<string>, readings: seq<int>,
                                         events: seq<Event>, now: int, answered: set<Addr>)
    requires |readings| == |Roster.LoadPeers(roster, own)|
    ensures !DetectFailures(Run(Boot(own, roster, readings), events), now, answered).electionStarted
  {
    RunKeepsInvariant(Boot(own, roster, readings), events);
  }

  // ---------------------------------------------------------------------
  // Heartbeats between two brokers

  /** The port the operating system gives the unbound client socket of
      `start_heartbeat_client` is never the broker's listening port, which
      the heartbeat server already holds; so the datagrams arrive from
      `(host, ephemeral)`. This is the source as written. */
  function UnboundClientOrigin(sender: Broker, ephemeral: int): (origin: Addr)
    requires ephemeral != sender.own.1
    ensures origin.0 == sender.own.0 && origin != sender.own
  {
    (sender.own.0, ephemeral)
  }

  /** The round of `sender` that is addressed to `receiver`, admitted at
      `now` with the given origin address. */
  function DeliverRound(round: seq<Outgoing>, receiver: Broker, origin: Addr, now: int): (r: Broker)
    ensures r.own == receiver.own && r.peers == receiver.peers
    ensures r.coordinator == receiver.coordinator && r.isCoordinator == receiver.isCoordinator
    decreases |round|
  {
    if |round| == 0 then receiver
    else
      var next := if round[0].to == receiver.own
                  then Receive(receiver, Datagram(Text(round[0].text), origin), now)
                  else receiver;
      DeliverRound(round[1..], next, origin, now)
  }

  /** As written: heartbeats from a configured peer are discarded, because
      their origin carries the ephemeral port rather than the listening
      port recorded in the roster. */
  lemma {:induction false} UnboundClientHeartbeatsIgnored(round: seq<Outgoing>, receiver: Broker, origin: Addr, now: int)
    requires origin !in receiver.peers
    ensures DeliverRound(round, receiver, origin, now) == receiver
    decreases |round|
  {
    if |round| > 0 {
      UnboundClientHeartbeatsIgnored(round[1..], receiver, origin, now);
    }
  }

  /** As written, for any two brokers: a whole heartbeat round of the
      unbound client leaves the receiver unchanged, so its entry for the
      sender never moves and the sender is reported failed once the
      threshold has passed since boot, however often it sends. The
      operating system never gives a socket a port another socket on the
      same host holds, and every roster address on the sender's host is held
      by that broker's heartbeat server; so the origin is no roster address
      of the receiver. */
  lemma UnboundClientRoundIgnored(sender: Broker, receiver: Broker, ephemeral: int, now: int)
    requires ephemeral != sender.own.1
    requires forall p :: p in receiver.peers && p.0 == sender.own.0 ==> p.1 != ephemeral
    ensures var r := DeliverRound(SendRound(sender.peers), receiver, UnboundClientOrigin(sender, ephemeral), now);
            && r == receiver
            && (sender.own in r.lastHeartbeat ==>
                  forall t :: t > receiver.lastHeartbeat[sender.own] + FailureThreshold ==>
                    sender.own in Failed(r.lastHeartbeat, t))
  {
    assert UnboundClientOrigin(sender, ephemeral) !in receiver.peers;
    UnboundClientHeartbeatsIgnored(SendRound(sender.peers), receiver, UnboundClientOrigin(sender, ephemeral), now);
  }

  /** The concrete case: brokers at 10.0.0.1:5001 and 10.0.0.2:5002 list each
      other, the client socket of the first gets port 40000, and the second
      never records a heartbeat from the first: after the round its state,
      and the first broker's timestamp in it, are unchanged. */
  lemma UnboundClientCounterexample()
    ensures var a := Broker(("10.0.0.1", 5001), [("10.0.0.2", 5002)], map[("10.0.0.2", 5002) := 0], None, false);
            var b := Broker(("10.0.0.2", 5002), [("10.0.0.1", 5001)], map[("10.0.0.1", 5001) := 0], None, false);
            a.own in b.peers &&
            DeliverRound(SendRound(a.peers), b, UnboundClientOrigin(a, 40000), 3) == b
  {
    var a := Broker(("10.0.0.1", 5001), [("10.0.0.2", 5002)], map[("10.0.0.2", 5002) := 0], None, false);
    var b := Broker(("10.0.0.2", 5002), [("10.0.0.1", 5001)], map[("10.0.0.1", 5001) := 0], None, false);
    var origin := UnboundClientOrigin(a, 40000);
    assert origin !in b.peers;
    UnboundClientHeartbeatsIgnored(SendRound(a.peers), b, origin, 3);
  }

  /** Intended: the heartbeat leaves from the broker's listening address, so
      one round from `sender` refreshes the receiver's entry for it, and the
      receiver does not consider it failed for the next threshold. */
  function HeartbeatOrigin(sender: Broker): Addr {
    sender.own
  }

  lemma {:induction false} DeliverRoundRefreshes(round: seq<Outgoing>, receiver: Broker, origin: Addr, now: int, i: nat)
    requires i < |round| && round[i].to == receiver.own && round[i].text == HeartbeatText
    requires origin in receiver.peers && Valid(receiver)
    ensures Valid(DeliverRound(round, receiver, origin, now))
    ensures DeliverRound(round, receiver, origin, now).lastHeartbeat[origin] == now
    decreases |round|
  {
    var next := if round[0].to == receiver.own
                then Receive(receiver, Datagram(Text(round[0].text), origin), now)
                else receiver;
    if i == 0 {
      DeliverRoundKeepsNow(round[1..], next, origin, now);
    } else {
      DeliverRoundRefreshes(round[1..], next, origin, now, i - 1);
    }
  }

  lemma {:induction false} DeliverRoundKeepsNow(round: seq<Outgoing>, receiver: Broker, origin: Addr, now: int)
    requires Valid(receiver) && origin in receiver.lastHeartbeat && receiver.lastHeartbeat[origin] == now
    ensures Valid(DeliverRound(round, receiver, origin, now))
    ensures DeliverRound(round, receiver, origin, now).lastHeartbeat[origin] == now
    decreases |round|
  {
    if |round| > 0 {
      var next := if round[0].to == receiver.own
                  then Receive(receiver, Datagram(Text(round[0].text), origin), now)
                  else receiver;
      DeliverRoundKeepsNow(round[1..], next, origin, now);
    }
  }

  /** Two brokers that list each other: a round of the sender, leaving from
      its listening address, refreshes the receiver's entry for it. */
  lemma HeartbeatRoundRefreshesPeer(sender: Broker, receiver: Broker, now: int)
    requires Valid(sender) && Valid(receiver)
    requires receiver.own in sender.peers && sender.own in receiver.peers
    ensures var r := DeliverRound(SendRound(sender.peers), receiver, HeartbeatOrigin(sender), now);
            Valid(r) && r.lastHeartbeat[sender.own] == now &&
            forall t :: t <= now + FailureThreshold ==> sender.own !in Failed(r.lastHeartbeat, t)
  {
    var round := SendRound(sender.peers);
    var i :| 0 <= i < |sender.peers| && sender.peers[i] == receiver.own;
    DeliverRoundRefreshes(round, receiver, sender.own, now, i);
  }
}
