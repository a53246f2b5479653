# openvpnbeat load_stats metric set

A Dafny model of the `load_stats` metric set of openvpnbeat. The metric set is a
Beats module that polls the OpenVPN management interface on `127.0.0.1`.

The modelled file is module/connection/load_stats/load_stats.go. It has three
parts, one Dafny module each:

- **`readTelnet`** (module `Telnet`). This reads the reply one byte at a time.
  It drops everything up to the first newline, gathers bytes from that newline
  on, and stops on the second newline or on the first failed read.
- **`connectionMetric`** (module `LoadStats`, with the parse in `StatsParser`).
  This dials `127.0.0.1:<port>` over TCP with a five-second timeout, writes
  `load-stats\r\n` and reads the reply. It closes the connection, trims the
  reply and splits it on `,`. The values of the first three segments, by
  position, become clients, bytes in and bytes out. Each value is the text
  between the segment's first and second `=` (or its end), read with
  `strconv.Atoi` and the error thrown away.
- **`MetricSet.Fetch`** (module `LoadStats`). This tries each configured port
  in order. A failing port is reported as an error and the loop goes on. An
  event is reported, and the cycle ends when the reporter says it is closed.

The modelled world:

- Text is `seq<byte>` (module `Bytes`), as a Go `string` is.
- The network is a `Network` object. It holds a map from address to `Peer`
  (whether the peer takes the write, and every byte it will send) and a log of
  the dials made.
- A connection is a `Conn` object. It holds the peer's bytes, a read cursor,
  the bytes written and a closed flag.
- The reporter is a `Reporter` object. It logs every `Error` and `Event` call
  and answers the `k`-th event call from a script. Once the script runs out it
  answers `true`.
- Two Go panics are values. `ParseReply` yields `IndexPanic` when
  `stats_fields[i]` or `Split(...)[1]` is out of range. `Fetch` then ends as
  `Panicked`, because nothing recovers the panic.

Each method is proved against a function of its inputs:

| method | function |
|---|---|
| `ReadTelnet` | `TelnetLoop` |
| `ConnectionMetric` | `MetricOf` |
| `Fetch` | `FetchLoop` |

The lemmas in `MetricProperties` and `FetchProperties` state what those
functions mean.

### Behaviour of the code worth knowing

- Fields are read by position, whatever their keys are called
  (`ParseReplyPositional`).
- A value that is not a number reads as 0. Digits past the unsigned 64-bit
  range read as the 64-bit bound, whatever follows them (`AtoiOfDigitsThen`).
- A reply with fewer than three comma-segments, or with a segment among the
  first three that has no `=`, panics (`ParseReply`, `MetricOfNoNewline`).
- A read that fails before the second newline returns what arrived so far, as
  a success (`MetricOfTruncatedReply`).
- There is no read deadline: the read loop waits as long as the peer keeps the
  connection open without sending a second newline.
- The write-error path returns without closing the connection
  (`ConnectionMetric`: `conn.closed == conn.writeOk`).

## Model

| member | source | states |
|---|---|---|
| Telnet.TelnetLoop | module/connection/load_stats/load_stats.go:140-151 | the reader loop from a given cursor, newline count and output: it consumes no byte past the reply, and appends at most one byte per byte consumed |
| Telnet.ReadTelnetOf | module/connection/load_stats/load_stats.go:135-153 | the reply read is empty or starts with the first newline and holds no other newline; no more bytes are consumed than the peer sent |
| Telnet.TwoNewlines | module/connection/load_stats/load_stats.go:140-151 | with the first two newlines at i and j, the result is "\n" followed by the bytes strictly between them, and exactly j+1 bytes are consumed |
| Telnet.OneNewline | module/connection/load_stats/load_stats.go:140-152 | with a single newline, the stream ends first and "\n" plus everything after it is returned; the whole reply is consumed |
| Telnet.NoNewline | module/connection/load_stats/load_stats.go:140-152 | with no newline, the result is empty and the whole reply is consumed |
| Telnet.IgnoresAfterSecondNewline | module/connection/load_stats/load_stats.go:142-147 | bytes after the second newline are never read and cannot change the result |
| Telnet.Conn.Read | module/connection/load_stats/load_stats.go:141 | a one-byte read takes the next byte of the reply and advances the cursor, or fails at the end and leaves cursor and buffer as they were |
| Telnet.Conn.Write | module/connection/load_stats/load_stats.go:110 | a write fails exactly when the peer refuses it; it then sends nothing, and otherwise sends all the bytes |
| Telnet.Conn.Close | module/connection/load_stats/load_stats.go:116 | the connection is closed afterwards |
| Telnet.ReadTelnet | module/connection/load_stats/load_stats.go:135-153 | the loop over a one-byte buffer returns exactly the result of the loop function from the connection's cursor, and leaves the cursor where that function says |
| StatsParser.TrimSpace | module/connection/load_stats/load_stats.go:118 | the result is empty exactly when the input is all white space; otherwise it starts and ends with a byte that is not white space |
| StatsParser.TrimSpaceOfPadded | module/connection/load_stats/load_stats.go:118 | white space around a core that starts and ends with non-space is removed, and the core is returned unchanged |
| StatsParser.TrimSpaceDropsLeadingSpace | module/connection/load_stats/load_stats.go:118 | one leading white-space byte does not change the trimmed result |
| StatsParser.Split | module/connection/load_stats/load_stats.go:119-122 | `strings.Split` with a one-byte separator: the maximal runs between separators; there is always at least one piece |
| StatsParser.SplitProperties | module/connection/load_stats/load_stats.go:119-122 | the pieces contain no separator, joining them with the separator gives the input back, and there is one piece exactly when the separator does not occur |
| StatsParser.SplitJoin | module/connection/load_stats/load_stats.go:119-122 | splitting separator-free pieces joined by the separator gives back the same pieces |
| StatsParser.Clamp64 | module/connection/load_stats/load_stats.go:120-123 | the result lies in the range of a 64-bit int and equals the input when the input does |
| StatsParser.AtoiValue | module/connection/load_stats/load_stats.go:120-123 | every result is a 64-bit int; a literal gives its value clamped to 64 bits; a non-literal gives 0 unless its leading digits pass the unsigned 64-bit range, which gives the bound on the side of the sign |
| StatsParser.AtoiOfDigitsThen | module/connection/load_stats/load_stats.go:120-123 | the digits of n after an optional sign, followed by text that does not start with a digit, read as 0 when n is in the unsigned 64-bit range and something follows, and as n (signed) clamped to 64 bits otherwise |
| StatsParser.AtoiOfDecimal | module/connection/load_stats/load_stats.go:120-123 | the decimal text of any 64-bit value, unsigned, with "+" or with "-", reads back as that value |
| StatsParser.Fields | module/connection/load_stats/load_stats.go:118-119 | the comma-segments of the trimmed reply; there is always at least one |
| StatsParser.HasValue | module/connection/load_stats/load_stats.go:120-122 | `Split(seg, "=")[1]` is in range exactly when the segment contains '=' |
| StatsParser.Value | module/connection/load_stats/load_stats.go:120-122 | `Split(seg, "=")[1]`, which holds no '=' |
| StatsParser.ParseReply | module/connection/load_stats/load_stats.go:118-122 | the parse succeeds exactly when the trimmed reply has at least three comma-segments and each of the first three contains '='; otherwise it panics; each counter is a 64-bit int |
| StatsParser.ParseReplyDropsLeadingSpace | module/connection/load_stats/load_stats.go:115-118 | the newline kept at the front of the reply does not change the parse |
| StatsParser.ValueOfSegment | module/connection/load_stats/load_stats.go:120-122 | the value of "key=value" or "key=value=..." is the text between the first '=' and the next '=' or the end |
| StatsParser.FieldsOfLine | module/connection/load_stats/load_stats.go:118-119 | the segments of a padded line are exactly its comma-separated pieces |
| StatsParser.ParseReplyPositional | module/connection/load_stats/load_stats.go:118-122 | for any keys without '=' or ',', any white-space padding and any extra segments (a trailing ',' included), the counters are the values of the first three segments; the only shapes left out are a first key starting with white space and a last segment ending in white space, which trimming would change |
| StatsParser.ParseReplyExample | module/connection/load_stats/load_stats.go:118-122 | "a=12,b=34,c=56" parses as 12, 34, 56, although no key is "nclients", "bytesin" or "bytesout" |
| LoadStats.JoinHostPort | module/connection/load_stats/load_stats.go:104 | `net.JoinHostPort`: host, ':' and port, a host holding a colon put in brackets |
| LoadStats.JoinHostPortShape | module/connection/load_stats/load_stats.go:104 | the joined address ends with ':' and the port, and before that colon stands the host, bracketed exactly when it holds a colon |
| LoadStats.AddressOf | module/connection/load_stats/load_stats.go:104 | the dialed address is "127.0.0.1:" followed by the port |
| LoadStats.Network.DialTimeout | module/connection/load_stats/load_stats.go:105-108 | one dial is logged; the result is a fresh open connection over that peer's reply and write answer, or an error exactly when nothing listens on the address |
| LoadStats.MetricOf | module/connection/load_stats/load_stats.go:95-133 | the outcome of `connectionMetric(port)` on a given network: connection error, write error, the index panic of the parse, or the event |
| LoadStats.ConnectionMetric | module/connection/load_stats/load_stats.go:95-133 | exactly one dial of tcp, the address and 5 seconds; the outcome is `MetricOf`'s; the connection's write answer is the peer's; only "load-stats\r\n" is written, and only when the peer takes it; the connection is closed and read exactly when the write succeeded |
| LoadStats.Reporter.Error | module/connection/load_stats/load_stats.go:82 | one error is appended to the reporter's log |
| LoadStats.Accepts | module/connection/load_stats/load_stats.go:85-86 | the reporter's answer to its k-th event call: the scripted one, and true past the script |
| LoadStats.Reporter.Event | module/connection/load_stats/load_stats.go:85 | one event is appended, and the result is the reporter's answer for that event |
| LoadStats.AfterAttempt | module/connection/load_stats/load_stats.go:79-85 | the state after one port: its dial logged, then its error or its event reported |
| LoadStats.Continues | module/connection/load_stats/load_stats.go:80-88 | the loop goes on after an error (`continue`) or after an accepted event, and stops after a refused one |
| LoadStats.FetchLoop | module/connection/load_stats/load_stats.go:78-91 | the `for` loop from port i on, given each port's outcome: a panic ends it, `continue` and an accepted event go on, a refused event returns nil, and the end of the ports returns nil |
| LoadStats.FetchCycle | module/connection/load_stats/load_stats.go:74-92 | one `Fetch` call: the loop over all ports from the first, each port's outcome being `MetricOf` on the network |
| LoadStats.Fetch | module/connection/load_stats/load_stats.go:74-92 | the loop ends in the state, and with the ending, that the cycle function gives for the configured ports, the network and the reporter's answers |
| MetricProperties.MetricOfCases | module/connection/load_stats/load_stats.go:105-132 | a connection error exactly when nothing listens, a write error exactly when the peer refuses the write, and otherwise the parse of the read reply; an event carries the port read by Atoi and three 64-bit counters |
| MetricProperties.MetricOfReplyLine | module/connection/load_stats/load_stats.go:115-122 | for a reply "header\nline\nrest", only the line is parsed, and the header and the rest have no effect |
| MetricProperties.MetricOfTruncatedReply | module/connection/load_stats/load_stats.go:115-122 | a reply cut off before its second newline is parsed from what arrived, and not reported as an error |
| MetricProperties.MetricOfNoNewline | module/connection/load_stats/load_stats.go:115-122 | a reply without a newline makes connectionMetric panic |
| MetricProperties.MetricOfStatsLine | module/connection/load_stats/load_stats.go:115-132 | a data line "k0=n0,k1=n1,k2=n2,..." after a header yields the event (port, n0, n1, n2) |
| MetricProperties.MetricOfSampleReply | module/connection/load_stats/load_stats.go:115-132 | the reply "HEADER\nnclients=2,bytesin=10,bytesout=20,extra=1\nEND\n" yields clients 2, bytes in 10 and bytes out 20 |
| FetchProperties.AfterAttemptAppends | module/connection/load_stats/load_stats.go:79-85 | one attempt appends exactly its dial and its report, and counts an event call exactly when it succeeded |
| FetchProperties.FetchVisitsInOrder | module/connection/load_stats/load_stats.go:78-91 | a prefix of the ports is dialed, in configured order, and the reports are one per tried port in the same order; nothing earlier is changed |
| FetchProperties.FetchStopReason | module/connection/load_stats/load_stats.go:78-91 | Fetch panics exactly when the last tried port panicked, and no earlier port did; every event before the last was accepted; a stop with ports left and no panic follows a refused event |
| FetchProperties.FetchVisitsAll | module/connection/load_stats/load_stats.go:78-91 | with no panic and a reporter that accepts everything, every port is tried and Fetch returns nil |
| FetchProperties.AllReportsPerPort | module/connection/load_stats/load_stats.go:80-85 | without panics, the k-th report is the k-th port's error or event |
| FetchProperties.FetchMiddlePortFails | module/connection/load_stats/load_stats.go:78-91 | a failing port between two good ones is reported as an error in its place, and the loop goes on to the third port |
| FetchProperties.FetchStopsOnRefusedEvent | module/connection/load_stats/load_stats.go:85-88 | a refused event ends the cycle at once with nil, and no later port is dialed |

## Left out

- Real sockets, time and the OS. The dial timeout is a recorded argument. Dial, write and read are driven by the `Peer` value.
- LoadStats.Network.DialTimeout: a peer answers the same on every dial, because `Network.peers` is fixed for the cycle. A port listed twice therefore gets the same reply and write answer both times, where a real listener may answer differently.
- Telnet.Conn.Read: one failed read stands for every read error (EOF, reset, timeout). A read that returns a byte together with an error, and a read that returns no byte and no error, are not modelled.
- Telnet.ReadTelnet: a peer that stays silent without closing makes the Go loop block forever. The model's peer sends a finite reply and then fails every read, so the model cannot show that hang.
- Telnet.Conn.Write: partial writes are not modelled; a write sends all or nothing.
- The error text built by `errors.Wrap` is not modelled. The two errors are the values `ConnectionError` and `WriteCommandError`.
- The `m.Logger().Errorf` call (line 81) only writes a log line, so it is left out.
- The event's `MetricSetFields` map is the record `MetricEvent(port, clients, bytesIn, bytesOut)`.
- Module registration, the config and `New` (lines 1-69) are outside the modelled core.
- StatsParser.TrimSpace: only ASCII white space (tab, newline, vertical tab, form feed, carriage return, space) is trimmed. Go also trims Unicode spaces and U+0085 and U+00A0.
- StatsParser.AtoiValue: a Go `int` is taken to be 64 bits wide.
- StatsParser.ParseReplyPositional: does not cover a first key that starts with white space, or a last segment that ends in white space. Trimming changes those segments; `ParseReply`'s own contract still covers such replies.
- A panic is the value `Panicked`. The Go runtime's unwinding, and any recovery above `Fetch`, are not modelled.
