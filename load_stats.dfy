/** The load_stats metric set of module/connection/load_stats/load_stats.go:
    `connectionMetric` (dial the management interface, send `load-stats`,
    read and parse the reply into an event) and `MetricSet.Fetch` (one
    collection cycle over the configured ports).

    The network is a value: the addresses that have a listener and, for
    each, whether it takes our command and what it replies. A dial creates a
    fresh `Conn` over that reply. */
module LoadStats {
  import opened Bytes
  import opened Telnet
  import opened StatsParser

  /** The command written to the management interface, "load-stats\r\n". */
  const LoadStatsCommand: seq<byte> := [108, 111, 97, 100, 45, 115, 116, 97, 116, 115, 13, 10]
  /** "127.0.0.1" */
  const Loopback: seq<byte> := [49, 50, 55, 46, 48, 46, 48, 46, 49]
  /** "tcp" */
  const Tcp: seq<byte> := [116, 99, 112]
  const DialTimeoutSeconds: nat := 5

  /** `net.JoinHostPort(host, port)`: "host:port", with a host that holds
      a colon (IPv6) put in brackets. */
  function JoinHostPort(host: seq<byte>, port: seq<byte>): seq<byte>
  {
    if COLON in host then [LBRACKET] + host + [RBRACKET, COLON] + port
    else host + [COLON] + port
  }

  /** The joined address ends with ':' and the port; in front of that
      colon stands the host, bracketed when it holds a colon itself. */
  lemma JoinHostPortShape(host: seq<byte>, port: seq<byte>)
    ensures var r := JoinHostPort(host, port);
            |r| > |port| && r[|r| - |port|..] == port && r[|r| - |port| - 1] == COLON &&
            r[..|r| - |port| - 1] == if COLON in host then [LBRACKET] + host + [RBRACKET] else host
  {
  }

  /** The address `connectionMetric` dials for `port`. */
  function AddressOf(port: seq<byte>): (addr: seq<byte>)
    ensures addr == Loopback + [COLON] + port
  {
    JoinHostPort(Loopback, port)
  }

  /** What listens on one address: whether it accepts our write and every
      byte it sends back. */
  datatype Peer = Peer(acceptsWrite: bool, reply: seq<byte>)

  /** The arguments of one `net.DialTimeout` call. */
  datatype DialRequest = DialRequest(network: seq<byte>, address: seq<byte>, timeoutSeconds: nat)

  function DialOf(port: seq<byte>): DialRequest
  {
    DialRequest(Tcp, AddressOf(port), DialTimeoutSeconds)
  }

  /** The machine's loopback network, with a log of the dials made. */
  class Network {
    /** The addresses that have a listener. */
    const peers: map<seq<byte>, Peer>
    var dials: seq<DialRequest>

    constructor (peers: map<seq<byte>, Peer>)
      ensures this.peers == peers && dials == []
    {
      this.peers := peers;
      dials := [];
    }

    /** `net.DialTimeout(network, address, timeout)`: a new connection to the
        listener on `address`, or an error when there is none. */
    method DialTimeout(network: seq<byte>, address: seq<byte>, timeoutSeconds: nat)
      returns (conn: Conn?)
      modifies this
      ensures dials == old(dials) + [DialRequest(network, address, timeoutSeconds)]
      ensures conn == null <==> address !in peers
      ensures conn != null ==>
                fresh(conn) && conn.Valid() &&
                conn.reply == peers[address].reply && conn.writeOk == peers[address].acceptsWrite &&
                conn.pos == 0 && conn.written == [] && !conn.closed
    {
      dials := dials + [DialRequest(network, address, timeoutSeconds)];
      if address in peers {
        conn := new Conn(peers[address].reply, peers[address].acceptsWrite);
      } else {
        conn := null;
      }
    }
  }

  /** The two errors `connectionMetric` returns, named after the message
      each is wrapped with. */
  datatype MetricError = ConnectionError | WriteCommandError

  /** The `MetricSetFields` of the event `connectionMetric` builds. */
  datatype MetricEvent = MetricEvent(port: int, clients: int, bytesIn: int, bytesOut: int)

  /** How one `connectionMetric(port)` call ends: an error, an event, or an
      index-out-of-range panic in the parse. */
  datatype MetricOutcome = Failure(err: MetricError) | Success(event: MetricEvent) | Panic

  /** The outcome `connectionMetric` builds from a parse of the reply. */
  function OutcomeOfParse(port: seq<byte>, p: ParseResult): MetricOutcome
  {
    match p
    case IndexPanic => Panic
    case Parsed(st) => Success(MetricEvent(AtoiValue(port), st.clients, st.bytesIn, st.bytesOut))
  }

  /** What `connectionMetric(port)` yields on the network `peers`. */
  function MetricOf(port: seq<byte>, peers: map<seq<byte>, Peer>): MetricOutcome
  {
    var address := AddressOf(port);
    if address !in peers then Failure(ConnectionError)
    else if !peers[address].acceptsWrite then Failure(WriteCommandError)
    else OutcomeOfParse(port, ParseReply(ReadTelnetOf(peers[address].reply).out))
  }

  /** `connectionMetric(port)`. Dials `127.0.0.1:port` over TCP with a 5
      second timeout; on a dial or write error returns that error with no
      read. Otherwise reads the reply, closes the connection, and parses.
      The ghost result is the connection opened, if any: the command is
      written to it only, and it is closed only on the path that reads (the
      write-error path returns without closing it). */
  method ConnectionMetric(port: seq<byte>, net: Network) returns (outcome: MetricOutcome, ghost conn: Conn?)
    modifies net
    ensures net.dials == old(net.dials) + [DialOf(port)]
    ensures outcome == MetricOf(port, net.peers)
    ensures conn == null <==> AddressOf(port) !in net.peers
    ensures conn != null ==>
              fresh(conn) && conn.reply == net.peers[AddressOf(port)].reply &&
              conn.writeOk == net.peers[AddressOf(port)].acceptsWrite &&
              conn.written == (if conn.writeOk then LoadStatsCommand else []) &&
              conn.closed == conn.writeOk &&
              conn.pos == (if conn.writeOk then ReadTelnetOf(conn.reply).cursor else 0)
  {
    var address := JoinHostPort(Loopback, port);
    var c := net.DialTimeout(Tcp, address, DialTimeoutSeconds);
    conn := c;
    if c == null {
      return Failure(ConnectionError), conn;
    }
    var err := c.Write(LoadStatsCommand);
    if err {
      return Failure(WriteCommandError), conn;
    }
    var content := ReadTelnet(c);
    c.Close();
    var parsed := ParseReply(content);
    if parsed.IndexPanic? {
      return Panic, conn;
    }
    var givenPort := AtoiValue(port);
    outcome := Success(MetricEvent(givenPort, parsed.stats.clients, parsed.stats.bytesIn, parsed.stats.bytesOut));
  }

  // ---------------------------------------------------------------------
  // Fetch

  /** One call made on the reporter. */
  datatype Report = Errored(err: MetricError) | Emitted(event: MetricEvent)

  /** Whether the reporter, on its `k`-th event call, says it is still open:
      the scripted answer, and `true` once the script runs out. */
  function Accepts(answers: seq<bool>, k: nat): bool
  {
    k >= |answers| || answers[k]
  }

  /** The `mb.ReporterV2` given to `Fetch`: it records every call, and
      answers event calls from a script. */
  class Reporter {
    const answers: seq<bool>
    var log: seq<Report>
    var events: nat

    constructor (answers: seq<bool>)
      ensures this.answers == answers && log == [] && events == 0
    {
      this.answers := answers;
      log := [];
      events := 0;
    }

    /** `report.Error(err)`. */
    method Error(err: MetricError)
      modifies this
      ensures log == old(log) + [Errored(err)] && events == old(events)
    {
      log := log + [Errored(err)];
    }

    /** `report.Event(event)`: records the event and returns whether the
        reporter is still open. */
    method Event(event: MetricEvent) returns (isOpen: bool)
      modifies this
      ensures log == old(log) + [Emitted(event)] && events == old(events) + 1
      ensures isOpen == Accepts(answers, old(events))
    {
      isOpen := Accepts(answers, events);
      log := log + [Emitted(event)];
      events := events + 1;
    }
  }

  /** What a fetch cycle has done so far: the reporter's log and event
      count, and the network's dial log. */
  datatype FetchState = FetchState(reports: seq<Report>, events: nat, dials: seq<DialRequest>)

  /** How `Fetch` ends: it returns nil, or a panic in `connectionMetric`
      unwinds out of it. */
  datatype FetchEnd = ReturnedNil(st: FetchState) | Panicked(st: FetchState)

  /** What `connectionMetric` yields for each configured port, in order. */
  function Outcomes(ports: seq<seq<byte>>, peers: map<seq<byte>, Peer>): seq<MetricOutcome>
  {
    seq(|ports|, k requires 0 <= k < |ports| => MetricOf(ports[k], peers))
  }

  /** The state after attempting `port` with outcome `o`: the dial is
      logged, then the error or the event is reported. */
  function AfterAttempt(st: FetchState, port: seq<byte>, o: MetricOutcome): FetchState
  {
    var dialed := st.(dials := st.dials + [DialOf(port)]);
    match o
    case Panic => dialed
    case Failure(err) => dialed.(reports := dialed.reports + [Errored(err)])
    case Success(event) => dialed.(reports := dialed.reports + [Emitted(event)], events := st.events + 1)
  }

  /** Whether the loop goes on to the next port after outcome `o`: after an
      error, or after an event the reporter accepted. */
  predicate Continues(st: FetchState, o: MetricOutcome, answers: seq<bool>)
  {
    o.Failure? || (o.Success? && Accepts(answers, st.events))
  }

  /** The `Fetch` loop from port index `i` on, in state `st`, where the
      `k`-th port's `connectionMetric` call yields `outcomes[k]`. */
  function FetchLoop(ports: seq<seq<byte>>, outcomes: seq<MetricOutcome>, i: nat, answers: seq<bool>,
                     st: FetchState): FetchEnd
    requires |outcomes| == |ports| && i <= |ports|
    decreases |ports| - i
  {
    if i == |ports| then ReturnedNil(st)
    else
      var next := AfterAttempt(st, ports[i], outcomes[i]);
      if outcomes[i].Panic? then Panicked(next)
      else if Continues(st, outcomes[i], answers) then FetchLoop(ports, outcomes, i + 1, answers, next)
      else ReturnedNil(next)
  }

  /** One cycle of `Fetch` over `ports` on the network `peers`, from state
      `st`. */
  function FetchCycle(ports: seq<seq<byte>>, peers: map<seq<byte>, Peer>, answers: seq<bool>,
                      st: FetchState): FetchEnd
  {
    FetchLoop(ports, Outcomes(ports, peers), 0, answers, st)
  }

  /** `MetricSet.Fetch(report)` over the configured `ports`. */
  method Fetch(ports: seq<seq<byte>>, net: Network, report: Reporter) returns (end: FetchEnd)
    modifies net, report
    ensures end == FetchCycle(ports, net.peers, report.answers,
                              FetchState(old(report.log), old(report.events), old(net.dials)))
    ensures end.st == FetchState(report.log, report.events, net.dials)
  {
    ghost var outcomes := Outcomes(ports, net.peers);
    ghost var total := FetchLoop(ports, outcomes, 0, report.answers,
                                 FetchState(report.log, report.events, net.dials));
    for i := 0 to |ports|
      invariant FetchLoop(ports, outcomes, i, report.answers,
                          FetchState(report.log, report.events, net.dials)) == total
    {
      var port := ports[i];
      var outcome;
      ghost var conn;
      ghost var st := FetchState(report.log, report.events, net.dials);
      outcome, conn := ConnectionMetric(port, net);
      assert outcome == outcomes[i];
      if outcome.Panic? {
        return Panicked(FetchState(report.log, report.events, net.dials));
      }
      if outcome.Failure? {
        report.Error(outcome.err);
        assert FetchState(report.log, report.events, net.dials) == AfterAttempt(st, port, outcome);
        continue;
      }
      var isOpen := report.Event(outcome.event);
      assert FetchState(report.log, report.events, net.dials) == AfterAttempt(st, port, outcome);
      if !isOpen {
        return ReturnedNil(FetchState(report.log, report.events, net.dials));
      }
    }
    return ReturnedNil(FetchState(report.log, report.events, net.dials));
  }
}
