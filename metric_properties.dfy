/** What one `connectionMetric` call yields, stated about `MetricOf`, the
    function `LoadStats.ConnectionMetric` is proved to compute: which reply
    line is parsed, what a short or a truncated reply gives, and the outcome
    on a sample reply. */
module MetricProperties {
  import opened Bytes
  import opened Telnet
  import opened StatsParser
  import opened LoadStats

  /** The three ways a call can end, by what the peer on the address does:
      no listener gives the connection error, a refused write the write
      error, and otherwise the parse of what `readTelnet` returned decides.
      An event carries the port as `Atoi` reads it and three 64-bit
      counters. */
  lemma MetricOfCases(port: seq<byte>, peers: map<seq<byte>, Peer>)
    ensures MetricOf(port, peers).Failure? <==>
              AddressOf(port) !in peers || !peers[AddressOf(port)].acceptsWrite
    ensures MetricOf(port, peers) == Failure(ConnectionError) <==> AddressOf(port) !in peers
    ensures MetricOf(port, peers) == Failure(WriteCommandError) <==>
              AddressOf(port) in peers && !peers[AddressOf(port)].acceptsWrite
    ensures AddressOf(port) in peers && peers[AddressOf(port)].acceptsWrite ==>
              MetricOf(port, peers) == OutcomeOfParse(port, ParseReply(ReadTelnetOf(peers[AddressOf(port)].reply).out))
    ensures var o := MetricOf(port, peers);
            o.Success? ==>
              o.event.port == AtoiValue(port) &&
              MinInt64 <= o.event.clients <= MaxInt64 && MinInt64 <= o.event.bytesIn <= MaxInt64 &&
              MinInt64 <= o.event.bytesOut <= MaxInt64
  {
    var address := AddressOf(port);
    if address in peers && peers[address].acceptsWrite {
      assert MetricOf(port, peers) == OutcomeOfParse(port, ParseReply(ReadTelnetOf(peers[address].reply).out));
    }
  }

  /** A reply made of a header line, a data line and anything after: the
      data line alone decides the outcome, and what follows it is never
      looked at. */
  lemma MetricOfReplyLine(port: seq<byte>, peers: map<seq<byte>, Peer>,
                          header: seq<byte>, line: seq<byte>, rest: seq<byte>)
    requires AddressOf(port) in peers
    requires peers[AddressOf(port)] == Peer(true, header + [NL] + line + [NL] + rest)
    requires NL !in header && NL !in line
    ensures MetricOf(port, peers) == OutcomeOfParse(port, ParseReply(line))
  {
    var reply := header + [NL] + line + [NL] + rest;
    var i, j := |header|, |header| + 1 + |line|;
    assert reply[..i] == header && reply[i + 1..j] == line;
    TwoNewlines(reply, i, j);
    ParseReplyDropsLeadingSpace(NL, line);
    MetricOfCases(port, peers);
  }

  /** A reply that ends after the header line and part of a data line, with
      no second newline: the partial line is parsed as if it were complete;
      the early end is not reported as an error. */
  lemma MetricOfTruncatedReply(port: seq<byte>, peers: map<seq<byte>, Peer>,
                               header: seq<byte>, partial: seq<byte>)
    requires AddressOf(port) in peers
    requires peers[AddressOf(port)] == Peer(true, header + [NL] + partial)
    requires NL !in header && NL !in partial
    ensures MetricOf(port, peers) == OutcomeOfParse(port, ParseReply(partial))
  {
    var reply := header + [NL] + partial;
    var i := |header|;
    assert reply[..i] == header && reply[i + 1..] == partial;
    OneNewline(reply, i);
    ParseReplyDropsLeadingSpace(NL, partial);
    MetricOfCases(port, peers);
  }

  /** A reply with no newline at all leaves `readTelnet` with nothing, and
      parsing nothing is the index-out-of-range panic. */
  lemma MetricOfNoNewline(port: seq<byte>, peers: map<seq<byte>, Peer>)
    requires AddressOf(port) in peers && peers[AddressOf(port)].acceptsWrite
    requires NL !in peers[AddressOf(port)].reply
    ensures MetricOf(port, peers) == Panic
  {
    NoNewline(peers[AddressOf(port)].reply);
    assert TrimSpace([]) == [];
    assert Split([], COMMA) == [[]];
    MetricOfCases(port, peers);
  }

  /** A well-formed reply: the event carries the port as given and the
      three values of the data line, by position. */
  lemma MetricOfStatsLine(port: seq<byte>, peers: map<seq<byte>, Peer>,
                          header: seq<byte>, k0: seq<byte>, k1: seq<byte>, k2: seq<byte>,
                          n0: nat, n1: nat, n2: nat, extra: seq<seq<byte>>, rest: seq<byte>)
    requires WellFormedKeys(k0, k1, k2, extra) && n0 <= MaxInt64 && n1 <= MaxInt64 && n2 <= MaxInt64
    requires NL !in header && NL !in StatsLine(k0, k1, k2, n0, n1, n2, extra)
    requires AddressOf(port) in peers
    requires peers[AddressOf(port)] == Peer(true, header + [NL] + StatsLine(k0, k1, k2, n0, n1, n2, extra) + [NL] + rest)
    ensures MetricOf(port, peers) == Success(MetricEvent(AtoiValue(port), n0, n1, n2))
  {
    var line := StatsLine(k0, k1, k2, n0, n1, n2, extra);
    ParseReplyPositional([], k0, k1, k2, n0, n1, n2, extra, []);
    assert [] + line + [] == line;
    MetricOfReplyLine(port, peers, header, line, rest);
  }

  /** A sample exchange: on the reply
      "HEADER\nnclients=2,bytesin=10,bytesout=20,extra=1\nEND\n" the header is
      dropped, `extra` is ignored, and the event holds 2, 10 and 20. The
      literals are bound to variables with `:|`, so that the verifier does
      not unfold `Decimal` and `Join` on literal arguments; `SamplePieces`
      evaluates them step by step. */
  lemma MetricOfSampleReply(port: seq<byte>, peers: map<seq<byte>, Peer>)
    requires AddressOf(port) in peers
    requires peers[AddressOf(port)] ==
             Peer(true, [72, 69, 65, 68, 69, 82] + [NL]                             // "HEADER\n"
                        + [110, 99, 108, 105, 101, 110, 116, 115, 61, 50] + [COMMA]  // "nclients=2,"
                        + [98, 121, 116, 101, 115, 105, 110, 61, 49, 48] + [COMMA]   // "bytesin=10,"
                        + [98, 121, 116, 101, 115, 111, 117, 116, 61, 50, 48] + [COMMA]  // "bytesout=20,"
                        + [101, 120, 116, 114, 97, 61, 49] + [NL]                   // "extra=1\n"
                        + [69, 78, 68, 10])                                         // "END\n"
    ensures MetricOf(port, peers) == Success(MetricEvent(AtoiValue(port), 2, 10, 20))
  {
    var h: seq<byte> :| h == [72, 69, 65, 68, 69, 82];
    var k0: seq<byte> :| k0 == [110, 99, 108, 105, 101, 110, 116, 115];
    var k1: seq<byte> :| k1 == [98, 121, 116, 101, 115, 105, 110];
    var k2: seq<byte> :| k2 == [98, 121, 116, 101, 115, 111, 117, 116];
    var s3: seq<byte> :| s3 == [101, 120, 116, 114, 97, 61, 49];
    var e: seq<byte> :| e == [69, 78, 68, 10];
    var n0: nat :| n0 == 2;
    var n1: nat :| n1 == 10;
    var n2: nat :| n2 == 20;
    SamplePieces(h, k0, k1, k2, s3, e, n0, n1, n2);
    MetricOfFourSegments(port, peers, h, k0, k1, k2, n0, n1, n2, s3, e);
  }

  /** `MetricOfStatsLine` for a header, a line of four segments and the
      rest, the reply written out piece by piece. */
  lemma MetricOfFourSegments(port: seq<byte>, peers: map<seq<byte>, Peer>, h: seq<byte>,
                             k0: seq<byte>, k1: seq<byte>, k2: seq<byte>, n0: nat, n1: nat, n2: nat,
                             s3: seq<byte>, e: seq<byte>)
    requires WellFormedKeys(k0, k1, k2, [s3]) && n0 <= MaxInt64 && n1 <= MaxInt64 && n2 <= MaxInt64
    requires NL !in h && NL !in s3
    requires NL !in k0 + [EQ] + Decimal(n0) && NL !in k1 + [EQ] + Decimal(n1) && NL !in k2 + [EQ] + Decimal(n2)
    requires AddressOf(port) in peers
    requires peers[AddressOf(port)] ==
             Peer(true, h + [NL] + (k0 + [EQ] + Decimal(n0)) + [COMMA] + (k1 + [EQ] + Decimal(n1)) + [COMMA]
                        + (k2 + [EQ] + Decimal(n2)) + [COMMA] + s3 + [NL] + e)
    ensures MetricOf(port, peers) == Success(MetricEvent(AtoiValue(port), n0, n1, n2))
  {
    var s0, s1, s2 := k0 + [EQ] + Decimal(n0), k1 + [EQ] + Decimal(n1), k2 + [EQ] + Decimal(n2);
    JoinFour(s0, s1, s2, s3, COMMA);
    assert [s0, s1, s2] + [s3] == [s0, s1, s2, s3];
    var line := StatsLine(k0, k1, k2, n0, n1, n2, [s3]);
    assert line == s0 + [COMMA] + s1 + [COMMA] + s2 + [COMMA] + s3;
    ReplyOfPieces(h, s0, s1, s2, s3, e);
    NoNewlineInPieces(s0, s1, s2, s3);
    MetricOfStatsLine(port, peers, h, k0, k1, k2, n0, n1, n2, [s3], e);
  }

  /** The sample reply, regrouped as header, data line and the rest. */
  lemma ReplyOfPieces(h: seq<byte>, s0: seq<byte>, s1: seq<byte>, s2: seq<byte>, s3: seq<byte>, e: seq<byte>)
    ensures h + [NL] + s0 + [COMMA] + s1 + [COMMA] + s2 + [COMMA] + s3 + [NL] + e
            == h + [NL] + (s0 + [COMMA] + s1 + [COMMA] + s2 + [COMMA] + s3) + [NL] + e
  {
  }

  lemma NoNewlineInPieces(s0: seq<byte>, s1: seq<byte>, s2: seq<byte>, s3: seq<byte>)
    requires NL !in s0 && NL !in s1 && NL !in s2 && NL !in s3
    ensures NL !in s0 + [COMMA] + s1 + [COMMA] + s2 + [COMMA] + s3
  {
  }

  /** `Join` of four pieces, written out. */
  lemma JoinFour(s0: seq<byte>, s1: seq<byte>, s2: seq<byte>, s3: seq<byte>, sep: byte)
    ensures Join([s0, s1, s2, s3], sep) == s0 + [sep] + s1 + [sep] + s2 + [sep] + s3
  {
    var parts := [s0, s1, s2, s3];
    assert parts[1..] == [s1, s2, s3] && parts[1..][1..] == [s2, s3] && parts[1..][1..][1..] == [s3];
    assert Join([s3], sep) == s3;
    assert Join([s2, s3], sep) == s2 + [sep] + s3;
    assert Join([s1, s2, s3], sep) == s1 + [sep] + (s2 + [sep] + s3);
    assert Join(parts, sep) == s0 + [sep] + (s1 + [sep] + (s2 + [sep] + s3));
  }

  /** The pieces of the sample reply: its segments are "key=value" with
      keys fit for `StatsLine`, and no piece holds a newline. */
  lemma SamplePieces(h: seq<byte>, k0: seq<byte>, k1: seq<byte>, k2: seq<byte>, s3: seq<byte>,
                         e: seq<byte>, n0: nat, n1: nat, n2: nat)
    requires h == [72, 69, 65, 68, 69, 82]
    requires k0 == [110, 99, 108, 105, 101, 110, 116, 115] && k1 == [98, 121, 116, 101, 115, 105, 110]
    requires k2 == [98, 121, 116, 101, 115, 111, 117, 116] && s3 == [101, 120, 116, 114, 97, 61, 49]
    requires e == [69, 78, 68, 10] && n0 == 2 && n1 == 10 && n2 == 20
    ensures k0 + [EQ] + Decimal(n0) == [110, 99, 108, 105, 101, 110, 116, 115, 61, 50]
    ensures k1 + [EQ] + Decimal(n1) == [98, 121, 116, 101, 115, 105, 110, 61, 49, 48]
    ensures k2 + [EQ] + Decimal(n2) == [98, 121, 116, 101, 115, 111, 117, 116, 61, 50, 48]
    ensures WellFormedKeys(k0, k1, k2, [s3])
    ensures NL !in h && NL !in s3
    ensures NL !in k0 + [EQ] + Decimal(n0) && NL !in k1 + [EQ] + Decimal(n1) && NL !in k2 + [EQ] + Decimal(n2)
  {
    SampleDecimals(n0, n1, n2);
  }

  lemma SampleDecimals(n0: nat, n1: nat, n2: nat)
    requires n0 == 2 && n1 == 10 && n2 == 20
    ensures Decimal(n0) == [50] && Decimal(n1) == [49, 48] && Decimal(n2) == [50, 48]
  {
    assert Decimal(1) == [49] && Decimal(2) == [50];
  }
}
