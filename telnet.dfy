/** The management-interface connection and the `readTelnet` reply reader
    of module/connection/load_stats/load_stats.go.

    The socket is modelled as the bytes the peer will ever send (`reply`)
    plus a read cursor. A read at the end of `reply` fails: that stands for
    every read error (EOF, reset, ...). */
module Telnet {
  import opened Bytes

  /** Where the reader loop ends: the bytes accumulated in `out`, and the
      read cursor after the last read (one past the last byte consumed). */
  datatype ReadResult = ReadResult(out: seq<byte>, cursor: nat)

  /** The `readTelnet` loop over the reply `s`, in the state where the next
      read is at `pos`, the newline counter is `flag` and `out` has been
      accumulated. A read at `|s|` fails and ends the loop. A successful
      read bumps the counter on a newline; the loop ends when the counter
      reaches 2 (that byte is not appended); otherwise, while the counter is
      1, the byte is appended. */
  function TelnetLoop(s: seq<byte>, pos: nat, flag: nat, out: seq<byte>): (r: ReadResult)
    requires pos <= |s| && flag <= 1
    ensures pos <= r.cursor <= |s|
    ensures |r.out| <= |out| + r.cursor - pos
    decreases |s| - pos
  {
    if pos == |s| then ReadResult(out, pos)
    else
      var f := if s[pos] == NL then flag + 1 else flag;
      if f == 2 then ReadResult(out, pos + 1)
      else TelnetLoop(s, pos + 1, f, if f == 1 then out + [s[pos]] else out)
  }

  /** `readTelnet` on a fresh connection whose peer sends `s`. */
  function ReadTelnetOf(s: seq<byte>): (r: ReadResult)
    ensures r.cursor <= |s| && |r.out| <= r.cursor
    ensures r.out == [] || (r.out[0] == NL && NL !in r.out[1..])
  {
    NewlineShape(s, 0, 0, []);
    TelnetLoop(s, 0, 0, [])
  }

  /** `out` stays empty until the first newline, which is its first byte;
      no other newline is ever appended. */
  lemma {:induction false} NewlineShape(s: seq<byte>, pos: nat, flag: nat, out: seq<byte>)
    requires pos <= |s| && flag <= 1
    requires flag == 0 ==> out == []
    requires flag == 1 ==> out != [] && out[0] == NL && NL !in out[1..]
    ensures var r := TelnetLoop(s, pos, flag, out);
            r.out == [] || (r.out[0] == NL && NL !in r.out[1..])
    decreases |s| - pos
  {
    if pos < |s| {
      var f := if s[pos] == NL then flag + 1 else flag;
      if f == 1 {
        var out' := out + [s[pos]];
        assert out'[1..] == if flag == 0 then [] else out[1..] + [s[pos]];
        NewlineShape(s, pos + 1, f, out');
      } else if f == 0 {
        NewlineShape(s, pos + 1, f, out);
      }
    }
  }

  /** Bytes before the first newline are read and dropped. */
  lemma {:induction false} SkipUntilNewline(s: seq<byte>, pos: nat, k: nat)
    requires pos <= k <= |s| && NL !in s[pos..k]
    ensures TelnetLoop(s, pos, 0, []) == TelnetLoop(s, k, 0, [])
    decreases k - pos
  {
    if pos < k {
      assert s[pos] == s[pos..k][0];
      assert s[pos + 1..k] == s[pos..k][1..];
      SkipUntilNewline(s, pos + 1, k);
    }
  }

  /** After the first newline, non-newline bytes are read and appended. */
  lemma {:induction false} CollectUntilNewline(s: seq<byte>, pos: nat, k: nat, out: seq<byte>)
    requires pos <= k <= |s| && NL !in s[pos..k]
    ensures TelnetLoop(s, pos, 1, out) == TelnetLoop(s, k, 1, out + s[pos..k])
    decreases k - pos
  {
    if pos < k {
      assert s[pos] == s[pos..k][0];
      assert s[pos + 1..k] == s[pos..k][1..];
      CollectUntilNewline(s, pos + 1, k, out + [s[pos]]);
      assert (out + [s[pos]]) + s[pos + 1..k] == out + s[pos..k];
    } else {
      assert out + s[pos..k] == out;
    }
  }

  /** A reply with two newlines, at `i` and `j`, yields "\n" followed by
      exactly the bytes strictly between them, and the reader stops right
      after reading the second one: `j + 1` bytes are consumed. */
  lemma TwoNewlines(s: seq<byte>, i: nat, j: nat)
    requires i < j < |s| && s[i] == NL && s[j] == NL
    requires NL !in s[..i] && NL !in s[i + 1..j]
    ensures ReadTelnetOf(s) == ReadResult([NL] + s[i + 1..j], j + 1)
  {
    assert s[0..i] == s[..i];
    SkipUntilNewline(s, 0, i);
    assert [] + [s[i]] == [NL];
    assert TelnetLoop(s, i, 0, []) == TelnetLoop(s, i + 1, 1, [NL]);
    CollectUntilNewline(s, i + 1, j, [NL]);
  }

  /** A reply with a single newline, at `i`: the stream ends before a second
      newline, and what was accumulated ("\n" and every byte after it) is
      returned as a success; the whole reply is consumed. */
  lemma OneNewline(s: seq<byte>, i: nat)
    requires i < |s| && s[i] == NL
    requires NL !in s[..i] && NL !in s[i + 1..]
    ensures ReadTelnetOf(s) == ReadResult([NL] + s[i + 1..], |s|)
  {
    assert s[0..i] == s[..i];
    SkipUntilNewline(s, 0, i);
    assert s[i + 1..|s|] == s[i + 1..];
    assert [] + [s[i]] == [NL];
    assert TelnetLoop(s, i, 0, []) == TelnetLoop(s, i + 1, 1, [NL]);
    CollectUntilNewline(s, i + 1, |s|, [NL]);
  }

  /** A reply with no newline at all yields the empty string; the whole
      reply is consumed. */
  lemma NoNewline(s: seq<byte>)
    requires NL !in s
    ensures ReadTelnetOf(s) == ReadResult([], |s|)
  {
    assert s[0..|s|] == s;
    SkipUntilNewline(s, 0, |s|);
  }

  /** Whatever follows the second newline is never read, so it can never
      change the result. */
  lemma IgnoresAfterSecondNewline(s: seq<byte>, i: nat, j: nat, rest: seq<byte>)
    requires i < j < |s| && s[i] == NL && s[j] == NL
    requires NL !in s[..i] && NL !in s[i + 1..j]
    ensures ReadTelnetOf(s[..j + 1] + rest) == ReadTelnetOf(s)
  {
    var u := s[..j + 1] + rest;
    assert u[..i] == s[..i];
    assert u[i + 1..j] == s[i + 1..j];
    TwoNewlines(s, i, j);
    TwoNewlines(u, i, j);
  }

  /** One TCP connection to the management interface. */
  class Conn {
    /** Every byte the peer sends on this connection, in order. */
    const reply: seq<byte>
    /** Whether the peer accepts the command we write. */
    const writeOk: bool
    /** Read cursor: the bytes of `reply` consumed so far. */
    var pos: nat
    /** Everything written to the connection so far. */
    var written: seq<byte>
    var closed: bool

    ghost predicate Valid()
      reads this
    {
      pos <= |reply|
    }

    constructor (reply: seq<byte>, writeOk: bool)
      ensures Valid()
      ensures this.reply == reply && this.writeOk == writeOk
      ensures pos == 0 && written == [] && !closed
    {
      this.reply := reply;
      this.writeOk := writeOk;
      pos := 0;
      written := [];
      closed := false;
    }

    /** `conn.Read(buf)` with a one-byte buffer. On failure the buffer keeps
        whatever it held before. */
    method Read(buf: array<byte>) returns (err: bool)
      requires Valid() && buf.Length == 1
      modifies this`pos, buf
      ensures Valid()
      ensures err <==> old(pos) == |reply|
      ensures !err ==> pos == old(pos) + 1 && buf[0] == reply[old(pos)]
      ensures err ==> pos == old(pos) && buf[0] == old(buf[0])
    {
      err := pos == |reply|;
      if !err {
        buf[0] := reply[pos];
        pos := pos + 1;
      }
    }

    /** `conn.Write(b)`: all of `b` is sent, or nothing and an error. */
    method Write(b: seq<byte>) returns (err: bool)
      modifies this`written
      ensures err <==> !writeOk
      ensures written == if writeOk then old(written) + b else old(written)
    {
      err := !writeOk;
      if writeOk {
        written := written + b;
      }
    }

    method Close()
      modifies this`closed
      ensures closed
    {
      closed := true;
    }
  }

  /** `readTelnet(conn)`: reads one byte at a time; from the first newline on,
      every byte (that newline included) is appended to `out`; stops on the
      second newline (not appended) or on the first failed read. The buffer
      is not cleared between reads, so after a failed read the newline test
      sees the previous byte again; the loop stops either way. */
  method ReadTelnet(conn: Conn) returns (out: seq<byte>)
    requires conn.Valid()
    modifies conn`pos
    ensures conn.Valid()
    ensures ReadResult(out, conn.pos) == TelnetLoop(conn.reply, old(conn.pos), 0, [])
  {
    var recvData := new byte[1](_ => 0);
    var err := false;
    var flag: nat := 0;
    ghost var total := TelnetLoop(conn.reply, conn.pos, 0, []);
    out := [];
    while true
      invariant conn.Valid() && flag <= 1
      invariant TelnetLoop(conn.reply, conn.pos, flag, out) == total
      decreases |conn.reply| - conn.pos
    {
      err := conn.Read(recvData);
      if recvData[0] == NL {
        flag := flag + 1;
      }
      if flag == 2 || err {
        break;
      }
      if flag == 1 {
        out := out + [recvData[0]];
      }
    }
  }
}
