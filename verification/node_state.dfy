/** The coordination state of one broker of `brokers/broker.py`: its own
    address, the peers read from the roster, the heartbeat map, and the two
    election fields `coordinator` and `isCoordinator`. Topics, subscribers
    and the database connection are not part of it. */
module NodeState {
  import opened Wrappers
  import opened Addresses
  import opened Heartbeat

  datatype Broker = Broker(
    own: Addr,
    peers: seq<Addr>,
    lastHeartbeat: Heartbeats,
    coordinator: Option<Addr>,
    isCoordinator: bool)

  /** What every broker built by `Broker.__init__` satisfies: its own address
      is not a peer, and the heartbeat map tracks exactly the peers. */
  predicate Valid(b: Broker) {
    b.own !in b.peers && b.lastHeartbeat.Keys == PeerSet(b.peers)
  }
}
