# Peer coordination of the StockMarket_PubSub brokers, in Dafny

This project models the peer-coordination logic of the brokers in
`brokers/broker.py` and `brokers/failure_detection.py`, and proves
properties of that model. The modelled logic has four parts:

- **Roster loading.** `load_peers` reads the roster CSV. It skips the
  header line and turns every `ip,port` row into the address
  `(ip, int(port))`. It drops the broker's own address. The first
  malformed row ends the loop.
- **Bully election.** `initiate_election` asks every peer whose `(host, port)`
  tuple is greater than the broker's own. When no reply arrives,
  `announce_coordinator` makes the broker coordinator and tells every peer.
- **Heartbeat failure detector.** A map holds each peer's last heartbeat
  time. A datagram is admitted only if it is the text `heartbeat` from a
  configured peer. A send round addresses every peer. A peer is failed when
  `now - last > FAILURE_THRESHOLD`. In `broker.py` a failure triggers a new
  election only if the failed peer is the recorded coordinator.
- **Stand-alone detector.** `failure_detection.py` runs the same heartbeat
  logic. It also reports unexpected senders and parses its command line,
  `BROKER_ID BROKER_PORT [PEER_IP:PEER_PORT ...]`.

Socket I/O is replaced by inputs and outputs:

- A received datagram is a decoded payload (`Text(s)`, or `Undecodable`
  when UTF-8 decoding raises) together with the `(host, port)` that
  `recvfrom` reports.
- The replies to an election are the set `answered` of peers whose reply
  arrived and decoded before the timeout.
- Messages a broker sends are returned as `Envelope`/`Outgoing` values.
- `time.time()` becomes an integer clock `now`, and the strict `>` of the
  failure test is kept.

The Python library behaviour the code relies on is modelled in
`pytext.dfy`:

- `str.strip()`, with Python's full whitespace set;
- `str.split(sep)`;
- `readlines()`;
- `int()` in base 10, with surrounding whitespace, an optional sign, and
  single underscores between digits. Unlike `strip()`, `int()` does not
  skip the information separators U+001C to U+001F, so a roster row such
  as `10.0.0.1,\x1c5001` ends `load_peers` and an argument such as
  `10.0.0.1:\x1c5001` makes `failure_detection.py` fail.

Python's tuple order on addresses is modelled in `addresses.dfy`.

Modules, one per file:

- `wrappers.dfy`: `Option`, `Result`.
- `seqs.dfy`: removing one value from a sequence; values up to the first
  `None`.
- `pytext.dfy`: the Python string and integer functions listed above.
- `addresses.dfy`: addresses and their election order.
- `roster.dfy`: `load_peers`, and `ip<sep>port` parsing.
- `heartbeat.dfy`: the heartbeat map rules. Both source files use these.
- `node_state.dfy`: the coordination state of a `broker.py` broker.
- `election.dfy`: `initiate_election` and `announce_coordinator`.
- `broker_node.dfy`: `Broker.__init__`, and one step of each background
  loop of `broker.py`. It also holds the reachable-state invariant and the
  heartbeat finding below.
- `failure_detector.dfy`: the `Broker` class and the `__main__` argument
  parsing of `failure_detection.py`.

## Model

| member | source | states |
|---|---|---|
| Roster.LoadPeers | brokers/broker.py:33-45 | The broker's own address is never among the loaded peers. A file that cannot be opened gives the empty list, with no error reaching the caller. |
| Roster.LoadRows | brokers/broker.py:39-42 | The rows after the header give at most one peer each, and never the broker's own address. |
| Roster.Collect | brokers/broker.py:39-45 | The loop over the parsed rows never appends the own address and appends at most one peer per row. |
| Roster.LoadRowsSpec | brokers/broker.py:36-45 | The result is exactly the addresses of the rows before the first malformed row, in file order, with every copy of the own address removed. |
| Roster.MalformedRowStops | brokers/broker.py:36-45 | A malformed row at position k makes the result equal to what the rows before k give. Nothing after it contributes, and the peers already appended are kept. |
| Roster.LoadPeersSkipsHeader | brokers/broker.py:38-39 | The first line is ignored whatever it contains. The peers are those of the lines after it. |
| Roster.LoadPeersRoundTrip | brokers/broker.py:33-45 | Writing a header and one `ip,port` row per address, then loading, gives back the addresses in order without the own address. This holds for every host without a comma, line break or leading whitespace. |
| Roster.RowParses | brokers/broker.py:40-42 | A written `ip,port` row with its line break parses back to `(ip, port)`. |
| Roster.ParseHostPort | brokers/broker.py:40-41 | `t.split(sep)` unpacked into host and port, then `int(port)`. Its meaning is stated by `Roster.ParseHostPortMeaning` (an if-and-only-if) and `Roster.ParseHostPortOf` (the round trip). It also serves brokers/failure_detection.py:89-90. |
| Roster.ParseRow | brokers/broker.py:40-41 | One roster row: `line.strip()` and then host/port parsing with `,`. Its meaning is stated by `Roster.ParseRowMeaning` and `Roster.RowParses`. |
| Roster.ParseRowMeaning | brokers/broker.py:40-41 | A row parses to `(h, p)` exactly when its stripped text is `h`, one comma and a text `int()` reads as `p`, with no other comma. |
| Roster.ParseHostPortMeaning | brokers/broker.py:40-41 | `host, port = t.split(sep)` followed by `int(port)` succeeds with `(h, p)` exactly when: `t` is `h`, one separator, and a text that `int()` reads as `p`; and `h` and that text hold no other separator. |
| Roster.ParseHostPortOf | brokers/failure_detection.py:89-90 | `host<sep>str(port)` parses back to `(host, port)` whenever the host is free of the separator. |
| Seqs.WithoutCounts | brokers/broker.py:41-42 | Dropping the own address removes exactly its copies. Every other address keeps its multiplicity. |
| Seqs.WithoutIsSubseq | brokers/broker.py:41-42 | The kept peers stay in file order. |
| Seqs.TakeSome | brokers/broker.py:36-45 | The values taken are those before the first failure, each the value at its own position, and the next entry is a failure. |
| PyText.ReadLines | brokers/broker.py:38 | The lines concatenate back to the text, and no line is empty. |
| PyText.ReadLinesBreaks | brokers/broker.py:38 | Lines break exactly at newlines: every line but the last ends with `\n`, and no line holds a `\n` before its last character. With the concatenation property this determines `readlines()`. |
| PyText.ReadLinesNoBreak | brokers/broker.py:38 | A non-empty text without a newline is read as a single line, as a last roster row without a trailing newline is. |
| PyText.ReadLinesCons | brokers/broker.py:38 | A line break ends the first line, which keeps the break. The remaining text is read the same way. |
| PyText.StripShape | brokers/broker.py:40 | `strip()` returns the middle of the text, which has no whitespace at either end. Only whitespace surrounds it. |
| PyText.Strip | brokers/broker.py:40 | `str.strip()` with Python's whitespace set. Its meaning is stated by `PyText.StripShape` (the result is the trimmed middle between whitespace margins) and `PyText.StripOf` (the converse). |
| PyText.StripOf | brokers/broker.py:40 | Stripping a trimmed text surrounded by whitespace gives that text back. |
| PyText.Split | brokers/broker.py:40 | `split(sep)` gives at least one piece, and joining the pieces with `sep` gives the text back. |
| PyText.SplitPiecesFree | brokers/broker.py:40 | No piece of `split(sep)` contains the separator. |
| PyText.SplitJoin | brokers/broker.py:40 | `split` inverts `join` on separator-free pieces. |
| PyText.SplitTwo | brokers/broker.py:40 | Unpacking into two names succeeds with `a` and `b` exactly when the text is `a`, one separator, and `b`, and neither part holds the separator. |
| PyText.ParseInt | brokers/broker.py:41 | `int(text)` in base 10. Its meaning is stated by `PyText.ParseIntMeaning` (surrounding whitespace other than U+001C to U+001F is ignored), `PyText.ParseIntInfoSeparator` and `PyText.ParseShowInt` (it inverts `str`). |
| PyText.ParseIntMeaning | brokers/broker.py:41 | `int()` of a trimmed text between whitespace margins fails when a margin holds one of U+001C to U+001F. Otherwise it is the signed digit reading of that text. |
| PyText.ParseIntInfoSeparator | brokers/broker.py:40-41 | `strip()` removes a leading U+001C, but `int()` fails on it: `int("\x1c5")` raises where `"\x1c5".strip()` is `"5"`. |
| PyText.ParseSignedNoInfoSeparator | brokers/broker.py:41 | A text read as a signed digit part holds no U+001C to U+001F. |
| PyText.ParseShowInt | brokers/broker.py:41 | `int(str(n)) == n` for every integer, negative ones included. The model has no digit-count limit; see "Left out". |
| Addresses.StrLtIsLexLess | brokers/broker.py:69 | The recursive string comparison is equivalent to the lexicographic definition: after the common prefix, `a` ends first or has the smaller code point. |
| Addresses.StrLtIrreflexive | brokers/broker.py:69 | No host compares below itself. |
| Addresses.StrLtTransitive | brokers/broker.py:69 | The host comparison is transitive. |
| Addresses.StrLtTotal | brokers/broker.py:69 | Two distinct hosts are always ordered. |
| Addresses.AddrLtStrictTotal | brokers/broker.py:69 | The tuple order on `(host, port)` is a strict total order. |
| Addresses.HighestExists | brokers/broker.py:67-70 | Every non-empty set of addresses has a member that outranks all the others. |
| Election.HigherPriority | brokers/broker.py:67-70 | An address is selected exactly when it is a peer that is greater than the own address. The selection is a subsequence of the peers, in roster order. |
| Election.HigherPriorityCounts | brokers/broker.py:67-70 | Each greater peer is asked as often as it is listed, and no other address is asked. |
| Election.Broadcast | brokers/broker.py:111-115 | One message per address, in list order, all with the same content. |
| Election.AnnounceCoordinator | brokers/broker.py:104-115 | The broker becomes coordinator and records itself as coordinator. Peers and heartbeats are unchanged. Exactly one coordinator announcement goes to each peer, in peer order. |
| Election.InitiateElection | brokers/broker.py:64-102 | With no reply from a greater peer, the broker is coordinator afterwards. This includes the case of no greater peer. Otherwise the state is unchanged. Every message is sent by the broker to a peer. Requests go to every greater peer and only to greater peers. Announcements go to each peer exactly when no greater peer replied. |
| Election.HighestLiveBrokerWins | brokers/broker.py:64-108 | In a cluster where every broker lists all the others and exactly the live brokers reply, a live broker's election makes it coordinator exactly when it is the highest live broker. So exactly one live broker becomes coordinator. |
| Heartbeat.InitHeartbeats | brokers/broker.py:24 | The map has exactly one key per configured peer. |
| Heartbeat.InitHeartbeatsLastWins | brokers/broker.py:24 | A peer's entry is the clock reading taken at its last occurrence in the list. |
| Heartbeat.InitHeartbeatsFromReadings | brokers/failure_detection.py:21 | Every entry is a reading taken for that peer. |
| Heartbeat.InitHeartbeatsSameStart | brokers/failure_detection.py:21 | When the clock does not move during the comprehension, every configured peer starts with the same timestamp. |
| Heartbeat.Admit | brokers/broker.py:127-129 | Only the text `heartbeat` from a configured peer sets that peer's entry to `now`. Every other entry is unchanged, and every other datagram changes nothing. |
| Heartbeat.AdmitKeepsPeerKeys | brokers/failure_detection.py:36-38 | Admission keeps the key set equal to the configured peers. |
| Heartbeat.SendRound | brokers/broker.py:137-143 | A round sends `heartbeat` to every configured peer once, in list order. |
| Heartbeat.Failed | brokers/broker.py:149-150 | Only tracked peers are reported failed. |
| Heartbeat.FailedIsNotAlive | brokers/broker.py:150 | Every tracked peer is either failed or alive within the threshold, never both. |
| Heartbeat.FailedGrowsWithTime | brokers/broker.py:150 | Without a new heartbeat, a peer that has failed stays failed at every later time. |
| Heartbeat.HeartbeatWindow | brokers/broker.py:150 | A heartbeat admitted at `t` keeps its sender unfailed up to and including `t + 5`, and failed strictly after. |
| BrokerNode.Boot | brokers/broker.py:13-24 | A new broker has the roster's peers without itself and one heartbeat entry per peer. It is not coordinator and knows no coordinator. |
| BrokerNode.Receive | brokers/broker.py:123-131 | A heartbeat from a configured peer refreshes only that peer's entry. Anything else leaves the broker unchanged. The election fields are never touched. |
| BrokerNode.DetectFailures | brokers/broker.py:145-154 | A peer is reported exactly when `now - last > 5`. An election runs exactly when the recorded coordinator is among the failed peers, and its outcome is that of `initiate_election`. Otherwise nothing changes and nothing is sent. |
| BrokerNode.SelfCoordinatorNeverReelects | brokers/broker.py:149-153 | A broker that is its own coordinator never starts an election on a failure. |
| BrokerNode.Step | brokers/broker.py:27-31 | One iteration of one of the threads `__init__` starts: the startup election, the heartbeat server, or `detect_failures`. What a step preserves is stated by `BrokerNode.StepKeepsInvariant`. |
| BrokerNode.Run | brokers/broker.py:27-31 | Any interleaving of those iterations. What a run preserves is stated by `BrokerNode.RunKeepsInvariant` and `BrokerNode.CoordinatorLossNeedsAnnouncement`. |
| BrokerNode.StepKeepsInvariant | brokers/broker.py:104-108 | Every modelled step keeps the heartbeat keys equal to the peers, and keeps the coordinator either unknown or the broker itself. |
| BrokerNode.RunKeepsInvariant | brokers/broker.py:104-108 | Any sequence of modelled steps keeps that invariant, the peers and the own address. |
| BrokerNode.CoordinatorLossNeedsAnnouncement | brokers/broker.py:152-153 | In every broker reached from `__init__` by the loops `__init__` starts, the coordinator-failure trigger never fires. |
| BrokerNode.DeliverRound | brokers/broker.py:137-139 | Delivering one round of heartbeats to a receiver leaves its own address, its peers and its election fields unchanged. |
| BrokerNode.UnboundClientHeartbeatsIgnored | brokers/broker.py:133-139 | As written: heartbeats whose origin is not a roster address change nothing at the receiver. |
| BrokerNode.UnboundClientRoundIgnored | brokers/broker.py:127-154 | As written, for any two brokers: a whole heartbeat round from the unbound client leaves the receiver unchanged. The receiver's entry for the sender never moves, so the sender is reported failed once 5 seconds have passed since that entry. |
| BrokerNode.UnboundClientCounterexample | brokers/broker.py:135-139 | As written: brokers 10.0.0.1:5001 and 10.0.0.2:5002 list each other, and the first broker's client sends from port 40000. The second broker never refreshes the first one's entry. |
| BrokerNode.HeartbeatOrigin | brokers/broker.py:133-139 | Corrected: the origin of a heartbeat is the sender's listening address. Its effect is stated by `BrokerNode.HeartbeatRoundRefreshesPeer`. |
| BrokerNode.HeartbeatRoundRefreshesPeer | brokers/broker.py:127-139 | Corrected: when heartbeats leave from the listening address, one round sets the receiver's entry for the sender to `now`. The sender is then not failed up to `now + 5`. |
| FailureDetector.Create | brokers/failure_detection.py:11-21 | The detector keeps its id, port and peers, with one heartbeat entry per peer. |
| FailureDetector.Receive | brokers/failure_detection.py:32-42 | A datagram is refreshed exactly when it is `heartbeat` from a peer. It is unexpected exactly when decoded and from a non-peer, and ignored exactly when it is other text from a peer. It is a receive error exactly when decoding fails. Only a refresh changes state. |
| FailureDetector.ReceiveKeepsPeerKeys | brokers/failure_detection.py:36-38 | Receiving keeps the key set equal to the configured peers. |
| FailureDetector.Report | brokers/failure_detection.py:63-67 | The reported peers are exactly those with `now - last > 5`. |
| FailureDetector.Round | brokers/failure_detection.py:50-57 | A round sends `heartbeat` to every configured peer once, in order. |
| FailureDetector.ParsePeerArgs | brokers/failure_detection.py:88-90 | Each `ip:port` argument becomes `(ip, int(port))`, in argument order. Otherwise the error names the first argument that does not convert. |
| FailureDetector.ParseArgs | brokers/failure_detection.py:79-90 | A usage error happens exactly when fewer than two arguments follow the program name. A successful parse holds the converted id, port and peers. |
| FailureDetector.ParseArgsAccepts | brokers/failure_detection.py:79-90 | The command line is accepted exactly when it has both numbers and every argument converts. |
| FailureDetector.ParseArgsFirstInvalid | brokers/failure_detection.py:85-90 | A rejected command line names the first argument, counting from `argv[1]`, that does not convert. |
| FailureDetector.PeerArgParses | brokers/failure_detection.py:89-90 | `ip:str(port)` parses back to `(ip, port)` for every host without a colon. |
| FailureDetector.ParsePeerArgsOf | brokers/failure_detection.py:88-90 | Arguments that all convert give their addresses, in order. |
| FailureDetector.ParseArgsRoundTrip | brokers/failure_detection.py:79-90 | Parsing a rendered command line gives back the id, the port and the peers, for hosts without a colon. |

## Left out

- Sockets: `socket`, `bind`, `connect`, `send`, `recv` and `recvfrom`. They are
  replaced by the inputs and outputs described above. The 1024-byte
  `recvfrom` buffer, which truncates longer datagrams, is not modelled.
  Neither are the `send_message` connection failures, which are logged and
  ignored.
- Threads, `thread.join`, the concurrent appends to `responses`,
  `time.sleep`, and the `running` flags. Each loop iteration is one atomic
  step, and `BrokerNode.Run` interleaves steps in any order. The five-second
  reply timeout is folded into the `answered` input.
- JSON encoding of election and coordinator messages. A reply that does not
  decode counts as no reply, which `answered` already expresses.
- Floating-point `time.time()`: an integer clock is used instead.
- The topic store, `init_database`, `start`, `handle_client`, and the
  argparse `__main__` of `broker.py`. `process_message` is called at
  brokers/broker.py:191, but `Broker` in brokers/broker.py defines no
  `process_message`, so receiving another broker's election or coordinator
  message is not modelled. In brokers/broker.py as written the call raises
  `AttributeError`, which
  `handle_client` catches before it closes the connection without a reply
  (brokers/broker.py:186-196). The electing broker's `recv` then returns
  an empty reply, `json.loads` fails on it, and nothing is appended to
  `responses` (brokers/broker.py:80-84). So `answered` is always empty in
  brokers/broker.py as written, and every broker's startup election makes it
  coordinator (`Election.InitiateElection` with `answered` empty).
  `Election.HighestLiveBrokerWins` describes the reply behaviour the
  election protocol relies on, which brokers/broker.py as written never
  produces.
- leaderElection/leaderElectionImpl.py, publishers/publisher.py,
  brokers/simple_broker.py, subscribers/subscriber.py and stock_data.py
  are not part of this model. They contain I/O and data generation, not
  coordination decisions.
- `failure_detection.py` binds the heartbeat server (line 29) and the
  client (line 49) to the same UDP port without `SO_REUSEADDR`. On common
  systems the second `bind` fails and that thread ends. Socket binding is
  outside the model, so both loops are modelled as running.
- Roster.LoadPeers: the text is taken after Python's universal-newline
  translation, so `\r\n` and `\r` arrive as `\n`. Byte decoding and
  encodings are not modelled.
- PyText.ParseInt: only the ASCII digits `0`-`9` are accepted. Python's
  `int()` also accepts other Unicode decimal digits, which the model
  rejects.
- PyText.ParseShowInt: CPython 3.11 and later (and the 3.7.14+
  backports) raise `ValueError` in `int()` and `str()` for more than 4300
  decimal digits by default. `ParseInt` accepts digit strings of any
  length, so the round trip is stated for every integer and that error
  path is not modelled. Port numbers and broker ids are far below the
  limit.
- Heartbeat.InitHeartbeatsSameStart: the code reads the clock once per peer,
  so "all peers start with the same timestamp" holds only when the clock
  does not move during the comprehension. In general each entry is the
  reading taken at that peer's last occurrence (`InitHeartbeatsLastWins`).
  Equal start times for all peers are not guaranteed, because the clock is
  read once per peer.
- BrokerNode.CoordinatorLossNeedsAnnouncement: the trigger cannot fire in
  brokers/broker.py as written. The lemma therefore says nothing about how a broker would
  behave after recording another broker's announcement.

## Findings

| source | as written | input that shows it | evidently intended | confidence | as-written member | corrected member |
|---|---|---|---|---|---|---|
| brokers/broker.py:133-139 | `start_heartbeat_client` sends from a UDP socket it never binds, so each datagram leaves from an ephemeral port. That port cannot be the listening port, which the heartbeat server holds. The receiver admits only origins equal to a roster address (line 127), so no heartbeat is ever recorded, and every peer is considered failed 5 s after start. | Brokers 10.0.0.1:5001 and 10.0.0.2:5002 list each other. The first broker's client socket is given port 40000. | Heartbeats are accepted from configured peers: they leave from, or are matched against, the sender's listening address. | not executed | BrokerNode.UnboundClientRoundIgnored, BrokerNode.UnboundClientCounterexample | BrokerNode.HeartbeatRoundRefreshesPeer |
