/** The heartbeat failure detector shared by `brokers/broker.py` and
    `brokers/failure_detection.py`: a map from peer address to the time its
    last heartbeat arrived, the rule that admits a datagram as a heartbeat,
    the datagrams one send round emits, and the failure test. Time is an
    abstract integer clock in seconds; the source reads `time.time()`. */
module Heartbeat {
  import opened Addresses

  /** A peer silent for strictly longer than this many seconds has failed. */
  const FailureThreshold: int := 5

  /** The text every heartbeat datagram carries. */
  const HeartbeatText: string := "heartbeat"

  /** A received datagram: its payload after UTF-8 decoding, and the
      `(host, port)` the socket reports as its origin. */
  datatype Payload = Text(text: string) | Undecodable
  datatype Datagram = Datagram(payload: Payload, origin: Addr)

  /** A datagram one send round puts on the wire. */
  datatype Outgoing = Outgoing(to: Addr, text: string)

  /** Peer address to the clock reading of its last heartbeat. */
  type Heartbeats = map<Addr, int>

  /** `{peer: time.time() for peer in peers}`: `readings[i]` is the clock
      when the comprehension reaches `peers[i]`; a peer listed twice keeps
      its later reading. */
  function InitHeartbeats(peers: seq<Addr>, readings: seq<int>): (m: Heartbeats)
    requires |readings| == |peers|
    ensures m.Keys == PeerSet(peers)
    decreases |peers|
  {
    if |peers| == 0 then map[]
    else
      var n := |peers| - 1;
      assert peers == peers[..n] + [peers[n]];
      InitHeartbeats(peers[..n], readings[..n])[peers[n] := readings[n]]
  }

  /** Each peer's entry is the reading taken at its last occurrence. */
  lemma {:induction false} InitHeartbeatsLastWins(peers: seq<Addr>, readings: seq<int>, i: nat)
    requires |readings| == |peers| && i < |peers|
    requires peers[i] !in peers[i + 1..]
    ensures InitHeartbeats(peers, readings)[peers[i]] == readings[i]
    decreases |peers|
  {
    var n := |peers| - 1;
    if i < n {
      assert peers[n] in peers[i + 1..];
      assert peers[..n][i + 1..] == peers[i + 1..n];
      InitHeartbeatsLastWins(peers[..n], readings[..n], i);
    }
  }

  /** Every entry is one of the readings taken for that peer. */
  lemma {:induction false} InitHeartbeatsFromReadings(peers: seq<Addr>, readings: seq<int>, p: Addr)
    requires |readings| == |peers| && p in peers
    ensures exists i :: 0 <= i < |peers| && peers[i] == p && InitHeartbeats(peers, readings)[p] == readings[i]
    decreases |peers|
  {
    var n := |peers| - 1;
    if p != peers[n] {
      assert p in peers[..n] by {
        var j :| 0 <= j < |peers| && peers[j] == p;
        assert peers[..n][j] == p;
      }
      InitHeartbeatsFromReadings(peers[..n], readings[..n], p);
      var i :| 0 <= i < n && peers[..n][i] == p && InitHeartbeats(peers[..n], readings[..n])[p] == readings[..n][i];
      assert peers[i] == p;
    }
  }

  /** When the clock does not move during the comprehension, every peer
      starts with the same timestamp. */
  lemma InitHeartbeatsSameStart(peers: seq<Addr>, now: int)
    ensures var m := InitHeartbeats(peers, seq(|peers|, _ => now));
      m.Keys == PeerSet(peers) && forall p :: p in m ==> m[p] == now
  {
    var readings := seq(|peers|, _ => now);
    forall p | p in InitHeartbeats(peers, readings)
      ensures InitHeartbeats(peers, readings)[p] == now
    {
      InitHeartbeatsFromReadings(peers, readings, p);
    }
  }

  /** The acceptance rule of both heartbeat servers: only the exact text
      `heartbeat` from an address in the peer list counts. */
  predicate IsHeartbeatFrom(d: Datagram, peers: seq<Addr>) {
    d.payload == Text(HeartbeatText) && d.origin in peers
  }

  /** One datagram handled by the heartbeat server at clock `now`. */
  function Admit(m: Heartbeats, peers: seq<Addr>, d: Datagram, now: int): (m': Heartbeats)
    ensures IsHeartbeatFrom(d, peers) ==> d.origin in m' && m'[d.origin] == now
    ensures m'.Keys == m.Keys + (if IsHeartbeatFrom(d, peers) then {d.origin} else {})
    ensures forall p :: p in m && p != d.origin ==> m'[p] == m[p]
    ensures !IsHeartbeatFrom(d, peers) ==> m' == m
  {
    if IsHeartbeatFrom(d, peers) then m[d.origin := now] else m
  }

  /** Admission keeps the map's keys equal to the configured peers. */
  lemma AdmitKeepsPeerKeys(m: Heartbeats, peers: seq<Addr>, d: Datagram, now: int)
    requires m.Keys == PeerSet(peers)
    ensures Admit(m, peers, d, now).Keys == PeerSet(peers)
  {
  }

  /** One round of the heartbeat client: the text `heartbeat` to every
      configured peer, in list order; a failed send is logged and the round
      goes on, so every peer is addressed. */
  function SendRound(peers: seq<Addr>): (out: seq<Outgoing>)
    ensures |out| == |peers|
    ensures forall i :: 0 <= i < |out| ==> out[i].to == peers[i] && out[i].text == HeartbeatText
  {
    seq(|peers|, i requires 0 <= i < |peers| => Outgoing(peers[i], HeartbeatText))
  }

  /** The live peers: heard from within `FailureThreshold` seconds of
      `now`. */
  function Alive(m: Heartbeats, now: int): set<Addr> {
    set p | p in m && now - m[p] <= FailureThreshold
  }

  /** The peers `detect_failures` reports at clock `now`. */
  function Failed(m: Heartbeats, now: int): (failed: set<Addr>)
    ensures failed <= m.Keys
  {
    set p | p in m && now - m[p] > FailureThreshold
  }

  /** Every tracked peer is either alive or failed, never both. */
  lemma FailedIsNotAlive(m: Heartbeats, now: int)
    ensures Failed(m, now) == m.Keys - Alive(m, now)
    ensures Failed(m, now) !! Alive(m, now)
  {
  }

  /** Failure is sticky while no heartbeat arrives: a peer failed at one
      time is failed at every later time. */
  lemma FailedGrowsWithTime(m: Heartbeats, t1: int, t2: int)
    requires t1 <= t2
    ensures Failed(m, t1) <= Failed(m, t2)
  {
  }

  /** A heartbeat admitted at `t` keeps its sender alive up to and including
      `t + FailureThreshold` (the test is strict) and no longer. */
  lemma HeartbeatWindow(m: Heartbeats, peers: seq<Addr>, d: Datagram, t: int, now: int)
    requires IsHeartbeatFrom(d, peers)
    ensures d.origin in Failed(Admit(m, peers, d, t), now) <==> now > t + FailureThreshold
  {
  }
}
