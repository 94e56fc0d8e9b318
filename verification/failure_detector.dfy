/** The stand-alone failure detector of `brokers/failure_detection.py`: a
    broker identified by a number and a port, its peers given on the command
    line as `ip:port`, the same heartbeat map as `brokers/broker.py`, and a
    detection pass that only reports. */
module FailureDetector {
  import opened Wrappers
  import opened Addresses
  import opened Heartbeat
  import PyText
  import Roster

  datatype Detector = Detector(brokerId: int, brokerPort: int, peers: seq<Addr>, lastHeartbeat: Heartbeats)

  /** `Broker.__init__`: one heartbeat entry per configured peer. */
  function Create(brokerId: int, brokerPort: int, peers: seq<Addr>, readings: seq<int>): (d: Detector)
    requires |readings| == |peers|
    ensures d.brokerId == brokerId && d.brokerPort == brokerPort && d.peers == peers
    ensures d.lastHeartbeat.Keys == PeerSet(peers)
  {
    Detector(brokerId, brokerPort, peers, InitHeartbeats(peers, readings))
  }

  /** What the heartbeat server does with one datagram: record it, report it
      as unexpected, pass over it in silence, or report a receive error
      (the payload is not UTF-8 and `decode` raised). */
  datatype Receipt = Refreshed | Unexpected | Ignored | ReceiveError

  datatype Received = Received(next: Detector, receipt: Receipt)

  /** One iteration of `start_heartbeat_server`. */
  function Receive(d: Detector, g: Datagram, now: int): (r: Received)
    ensures r.receipt == Refreshed <==> IsHeartbeatFrom(g, d.peers)
    ensures r.receipt == Unexpected <==> g.payload.Text? && g.origin !in d.peers
    ensures r.receipt == Ignored <==> g.payload.Text? && g.payload.text != HeartbeatText && g.origin in d.peers
    ensures r.receipt == ReceiveError <==> g.payload.Undecodable?
    ensures r.next.lastHeartbeat == Admit(d.lastHeartbeat, d.peers, g, now)
    ensures r.next.brokerId == d.brokerId && r.next.brokerPort == d.brokerPort && r.next.peers == d.peers
    ensures r.receipt != Refreshed ==> r.next == d
  {
    match g.payload
    case Undecodable => Received(d, ReceiveError)
    case Text(message) =>
      if message == HeartbeatText && g.origin in d.peers then
        Received(d.(lastHeartbeat := d.lastHeartbeat[g.origin := now]), Refreshed)
      else if g.origin !in d.peers then Received(d, Unexpected)
      else Received(d, Ignored)
  }

  /** Receiving keeps the map's keys equal to the configured peers, whatever
      arrives. */
  lemma ReceiveKeepsPeerKeys(d: Detector, g: Datagram, now: int)
    requires d.lastHeartbeat.Keys == PeerSet(d.peers)
    ensures Receive(d, g, now).next.lastHeartbeat.Keys == PeerSet(d.peers)
  {
    AdmitKeepsPeerKeys(d.lastHeartbeat, d.peers, g, now);
  }

  /** One pass of `detect_failures`: the peers it prints as failed. The pass
      returns only this report; the detector state is not an output. */
  function Report(d: Detector, now: int): (failed: set<Addr>)
    ensures forall p :: p in failed <==> p in d.lastHeartbeat && now - d.lastHeartbeat[p] > FailureThreshold
  {
    Failed(d.lastHeartbeat, now)
  }

  /** One round of `start_heartbeat_client`. */
  function Round(d: Detector): (out: seq<Outgoing>)
    ensures |out| == |d.peers|
    ensures forall i :: 0 <= i < |out| ==> out[i] == Outgoing(d.peers[i], HeartbeatText)
  {
    SendRound(d.peers)
  }

  // ---------------------------------------------------------------------
  // The command line: BROKER_ID BROKER_PORT [PEER_IP:PEER_PORT ...]

  /** `Usage` is the message printed before `sys.exit(1)`; `Invalid(k)` is
      the `ValueError` raised while converting `argv[k]`. */
  datatype ArgError = Usage | Invalid(index: nat)

  datatype Config = Config(brokerId: int, brokerPort: int, peers: seq<Addr>)

  /** `argv[k]` converts without error: the two numbers, then `ip:port`. */
  predicate ArgValid(argv: seq<string>, k: nat)
    requires 1 <= k < |argv|
  {
    if k < 3 then PyText.ParseInt(argv[k]).Some?
    else Roster.ParseHostPort(argv[k], ':').Some?
  }

  /** The `for peer in sys.argv[3:]` loop, from position `k` of `argv` on. */
  function ParsePeerArgs(argv: seq<string>, k: nat): (r: Result<seq<Addr>, ArgError>)
    requires k <= |argv|
    ensures r.Ok? ==> (|r.value| == |argv| - k &&
                       forall i :: k <= i < |argv| ==> Roster.ParseHostPort(argv[i], ':') == Some(r.value[i - k]))
    ensures r.Err? ==> (r.error.Invalid? && k <= r.error.index < |argv| &&
                        Roster.ParseHostPort(argv[r.error.index], ':').None? &&
                        forall i :: k <= i < r.error.index ==> Roster.ParseHostPort(argv[i], ':').Some?)
    decreases |argv| - k
  {
    if k == |argv| then Ok([])
    else match Roster.ParseHostPort(argv[k], ':')
      case None => Err(Invalid(k))
      case Some(a) =>
        match ParsePeerArgs(argv, k + 1)
        case Err(e) => Err(e)
        case Ok(rest) => Ok([a] + rest)
  }

  /** The `__main__` block up to the construction of the broker. */
  function ParseArgs(argv: seq<string>): (r: Result<Config, ArgError>)
    ensures r == Err(Usage) <==> |argv| < 3
    ensures r.Err? && r.error.Invalid? ==> 1 <= r.error.index < |argv|
    ensures r.Ok? ==>
              && PyText.ParseInt(argv[1]) == Some(r.value.brokerId)
              && PyText.ParseInt(argv[2]) == Some(r.value.brokerPort)
              && |r.value.peers| == |argv| - 3
              && forall i :: 3 <= i < |argv| ==> Roster.ParseHostPort(argv[i], ':') == Some(r.value.peers[i - 3])
  {
    if |argv| < 3 then Err(Usage)
    else match PyText.ParseInt(argv[1])
      case None => Err(Invalid(1))
      case Some(id) =>
        match PyText.ParseInt(argv[2])
        case None => Err(Invalid(2))
        case Some(port) =>
          match ParsePeerArgs(argv, 3)
          case Err(e) => Err(e)
          case Ok(peers) => Ok(Config(id, port, peers))
  }

  /** The command line is accepted exactly when it has both numbers and every
      argument converts. */
  lemma ParseArgsAccepts(argv: seq<string>)
    ensures ParseArgs(argv).Ok? <==> |argv| >= 3 && forall k :: 1 <= k < |argv| ==> ArgValid(argv, k)
  {
    var r := ParseArgs(argv);
    if r.Err? && r.error.Invalid? {
      ParseArgsFirstInvalid(argv);
    }
  }

  /** A rejected argument is the first one, counting from `argv[1]`, that
      does not convert. */
  lemma ParseArgsFirstInvalid(argv: seq<string>)
    requires ParseArgs(argv).Err? && ParseArgs(argv).error.Invalid?
    ensures var k := ParseArgs(argv).error.index;
      1 <= k < |argv| && !ArgValid(argv, k) && forall j :: 1 <= j < k ==> ArgValid(argv, j)
  {
    if PyText.ParseInt(argv[1]).Some? && PyText.ParseInt(argv[2]).Some? {
      var e := ParsePeerArgs(argv, 3);
      assert e.Err? && ParseArgs(argv).error == e.error;
    }
  }

  /** The command line that starts a detector with the given settings. */
  function RenderArgs(program: string, c: Config): seq<string> {
    [program, PyText.ShowInt(c.brokerId), PyText.ShowInt(c.brokerPort)] +
      seq(|c.peers|, i requires 0 <= i < |c.peers| => c.peers[i].0 + ":" + PyText.ShowInt(c.peers[i].1))
  }

  lemma PeerArgParses(a: Addr)
    requires ':' !in a.0
    ensures Roster.ParseHostPort(a.0 + ":" + PyText.ShowInt(a.1), ':') == Some(a)
  {
    Roster.ParseHostPortOf(a, ':');
    assert a.0 + ":" + PyText.ShowInt(a.1) == a.0 + [':'] + PyText.ShowInt(a.1);
  }

  /** Arguments that all convert give their addresses, in order. */
  lemma {:induction false} ParsePeerArgsOf(argv: seq<string>, k: nat, peers: seq<Addr>)
    requires k <= |argv| && |peers| == |argv| - k
    requires forall i :: k <= i < |argv| ==> Roster.ParseHostPort(argv[i], ':') == Some(peers[i - k])
    ensures ParsePeerArgs(argv, k) == Ok(peers)
    decreases |argv| - k
  {
    if k < |argv| {
      ParsePeerArgsOf(argv, k + 1, peers[1..]);
      assert peers == [peers[0]] + peers[1..];
    }
  }

  /** Both numbers and all peers converting give the whole configuration. */
  lemma ParseArgsOf(argv: seq<string>, c: Config)
    requires |argv| >= 3
    requires PyText.ParseInt(argv[1]) == Some(c.brokerId) && PyText.ParseInt(argv[2]) == Some(c.brokerPort)
    requires ParsePeerArgs(argv, 3) == Ok(c.peers)
    ensures ParseArgs(argv) == Ok(c)
  {
  }

  lemma RenderedPeerParses(program: string, c: Config, i: nat)
    requires forall j :: 0 <= j < |c.peers| ==> ':' !in c.peers[j].0
    requires 3 <= i < |RenderArgs(program, c)|
    ensures Roster.ParseHostPort(RenderArgs(program, c)[i], ':') == Some(c.peers[i - 3])
  {
    PeerArgParses(c.peers[i - 3]);
  }

  lemma RenderedNumbersParse(program: string, c: Config)
    ensures PyText.ParseInt(RenderArgs(program, c)[1]) == Some(c.brokerId)
    ensures PyText.ParseInt(RenderArgs(program, c)[2]) == Some(c.brokerPort)
  {
    PyText.ParseShowInt(c.brokerId);
    PyText.ParseShowInt(c.brokerPort);
  }

  lemma RenderedPeersParse(program: string, c: Config)
    requires forall i :: 0 <= i < |c.peers| ==> ':' !in c.peers[i].0
    ensures ParsePeerArgs(RenderArgs(program, c), 3) == Ok(c.peers)
  {
    var argv := RenderArgs(program, c);
    forall i | 3 <= i < |argv|
      ensures Roster.ParseHostPort(argv[i], ':') == Some(c.peers[i - 3])
    {
      RenderedPeerParses(program, c, i);
    }
    ParsePeerArgsOf(argv, 3, c.peers);
  }

  /** Parsing the rendered command line gives back the settings, peers in
      argument order, for every host without a colon. */
  lemma ParseArgsRoundTrip(program: string, c: Config)
    requires forall i :: 0 <= i < |c.peers| ==> ':' !in c.peers[i].0
    ensures ParseArgs(RenderArgs(program, c)) == Ok(c)
  {
    RenderedNumbersParse(program, c);
    RenderedPeersParse(program, c);
    ParseArgsOf(RenderArgs(program, c), c);
  }
}
