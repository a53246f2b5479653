/** The reply parsing of `connectionMetric` in
    module/connection/load_stats/load_stats.go, with the Go library
    functions it is built from: `strings.TrimSpace`, `strings.Split` and
    `strconv.Atoi`, each on bytes. */
module StatsParser {
  import opened Bytes

  // ---------------------------------------------------------------------
  // strings.TrimSpace

  /** The ASCII white space `strings.TrimSpace` removes. */
  predicate IsSpace(b: byte)
  {
    b == 9 || b == 10 || b == 11 || b == 12 || b == 13 || b == 32
  }

  predicate AllSpace(s: seq<byte>)
  {
    forall k :: 0 <= k < |s| ==> IsSpace(s[k])
  }

  /** The end of the run of white space that starts at `i`. */
  function SpaceRunEnd(s: seq<byte>, i: nat): (n: nat)
    requires i <= |s|
    ensures i <= n <= |s|
    ensures forall k :: i <= k < n ==> IsSpace(s[k])
    ensures n < |s| ==> !IsSpace(s[n])
    decreases |s| - i
  {
    if i == |s| || !IsSpace(s[i]) then i else SpaceRunEnd(s, i + 1)
  }

  /** The start of the run of white space that ends at `j`. */
  function SpaceRunStart(s: seq<byte>, j: nat): (n: nat)
    requires j <= |s|
    ensures n <= j
    ensures forall k :: n <= k < j ==> IsSpace(s[k])
    ensures n > 0 ==> !IsSpace(s[n - 1])
  {
    if j == 0 || !IsSpace(s[j - 1]) then j else SpaceRunStart(s, j - 1)
  }

  /** `strings.TrimSpace(s)`: `s` without its leading and trailing white
      space. */
  function TrimSpace(s: seq<byte>): (r: seq<byte>)
    ensures r == [] <==> AllSpace(s)
    ensures r != [] ==> !IsSpace(r[0]) && !IsSpace(r[|r| - 1])
  {
    var lo := SpaceRunEnd(s, 0);
    if lo == |s| then
      []
    else
      var hi := SpaceRunStart(s, |s|);
      assert !IsSpace(s[lo]);
      assert lo < hi;
      s[lo..hi]
  }

  /** The run of white space from `i` ends at `p` when everything in
      between is white space and the byte at `p` is not. */
  lemma SpaceRunEndIs(s: seq<byte>, i: nat, p: nat)
    requires i <= p <= |s|
    requires forall k :: i <= k < p ==> IsSpace(s[k])
    requires p < |s| ==> !IsSpace(s[p])
    ensures SpaceRunEnd(s, i) == p
  {
  }

  /** The mirror image of `SpaceRunEndIs`. */
  lemma SpaceRunStartIs(s: seq<byte>, j: nat, p: nat)
    requires p <= j <= |s|
    requires forall k :: p <= k < j ==> IsSpace(s[k])
    requires p > 0 ==> !IsSpace(s[p - 1])
    ensures SpaceRunStart(s, j) == p
  {
  }

  /** Trimming removes exactly the white space around a core that neither
      starts nor ends with white space. */
  lemma TrimSpaceOfPadded(pre: seq<byte>, core: seq<byte>, post: seq<byte>)
    requires AllSpace(pre) && AllSpace(post)
    requires core != [] && !IsSpace(core[0]) && !IsSpace(core[|core| - 1])
    ensures TrimSpace(pre + core + post) == core
  {
    var s := pre + core + post;
    var lo, hi := |pre|, |pre| + |core|;
    assert forall k :: 0 <= k < lo ==> s[k] == pre[k];
    assert s[lo] == core[0];
    SpaceRunEndIs(s, 0, lo);
    assert forall k :: hi <= k < |s| ==> s[k] == post[k - hi];
    assert s[hi - 1] == core[|core| - 1];
    SpaceRunStartIs(s, |s|, hi);
    assert s[lo..hi] == core;
  }

  /** A white-space byte in front changes nothing: `TrimSpace` drops it. */
  lemma TrimSpaceDropsLeadingSpace(b: byte, x: seq<byte>)
    requires IsSpace(b)
    ensures TrimSpace([b] + x) == TrimSpace(x)
  {
    var s := [b] + x;
    var lo := SpaceRunEnd(x, 0);
    RunEndAfterSpace(b, x);
    if lo < |x| {
      var hi := SpaceRunStart(x, |x|);
      RunStartAfterSpace(b, x);
      TrimSpaceBounds(x);
      TrimSpaceBounds(s);
      SliceOfCons(b, x, lo, hi);
    } else {
      TrimSpaceBounds(x);
      TrimSpaceBounds(s);
    }
  }

  /** `TrimSpace` in terms of the two runs of white space it cuts off. */
  lemma TrimSpaceBounds(s: seq<byte>)
    ensures SpaceRunEnd(s, 0) == |s| ==> TrimSpace(s) == []
    ensures SpaceRunEnd(s, 0) < |s| ==>
              SpaceRunEnd(s, 0) < SpaceRunStart(s, |s|) &&
              TrimSpace(s) == s[SpaceRunEnd(s, 0)..SpaceRunStart(s, |s|)]
  {
  }

  lemma RunEndAfterSpace(b: byte, x: seq<byte>)
    requires IsSpace(b)
    ensures SpaceRunEnd([b] + x, 0) == SpaceRunEnd(x, 0) + 1
  {
    var s := [b] + x;
    var lo := SpaceRunEnd(x, 0);
    assert forall k :: 0 < k <= |x| ==> s[k] == x[k - 1];
    SpaceRunEndIs(s, 0, lo + 1);
  }

  lemma RunStartAfterSpace(b: byte, x: seq<byte>)
    requires SpaceRunEnd(x, 0) < |x|
    ensures SpaceRunStart([b] + x, |x| + 1) == SpaceRunStart(x, |x|) + 1
  {
    var s := [b] + x;
    var hi := SpaceRunStart(x, |x|);
    assert !IsSpace(x[SpaceRunEnd(x, 0)]);
    assert hi > 0;
    assert forall k :: 0 < k <= |x| ==> s[k] == x[k - 1];
    SpaceRunStartIs(s, |s|, hi + 1);
  }

  lemma SliceOfCons(b: byte, x: seq<byte>, i: nat, j: nat)
    requires i <= j <= |x|
    ensures ([b] + x)[i + 1..j + 1] == x[i..j]
  {
  }

  // ---------------------------------------------------------------------
  // strings.Split with a one-byte separator

  /** The pieces `parts` written back out with `sep` between them. */
  function Join(parts: seq<seq<byte>>, sep: byte): (s: seq<byte>)
    requires |parts| >= 1
  {
    if |parts| == 1 then parts[0] else parts[0] + [sep] + Join(parts[1..], sep)
  }

  predicate NoneContains(parts: seq<seq<byte>>, sep: byte)
  {
    forall i :: 0 <= i < |parts| ==> sep !in parts[i]
  }

  /** `strings.Split(s, sep)`: the maximal runs of `s` between separators
      (`Split("", sep)` is one empty piece). */
  function Split(s: seq<byte>, sep: byte): (parts: seq<seq<byte>>)
    ensures |parts| >= 1
  {
    if s == [] then [[]]
    else
      var rest := Split(s[1..], sep);
      if s[0] == sep then [[]] + rest
      else [[s[0]] + rest[0]] + rest[1..]
  }

  /** The pieces contain no separator, joining them gives `s` back, and there
      is more than one piece exactly when `s` contains the separator. */
  lemma SplitProperties(s: seq<byte>, sep: byte)
    ensures var parts := Split(s, sep);
            NoneContains(parts, sep) && Join(parts, sep) == s && (|parts| == 1 <==> sep !in s)
  {
    SplitPiecesFree(s, sep);
    SplitJoinsBack(s, sep);
    SplitCount(s, sep);
  }

  lemma {:induction false} SplitPiecesFree(s: seq<byte>, sep: byte)
    ensures NoneContains(Split(s, sep), sep)
  {
    if s != [] {
      SplitPiecesFree(s[1..], sep);
      var rest := Split(s[1..], sep);
      var parts := Split(s, sep);
      if s[0] == sep {
        assert parts[1..] == rest;
      } else {
        assert parts[1..] == rest[1..];
        assert sep !in rest[0];
      }
    }
  }

  lemma {:induction false} SplitJoinsBack(s: seq<byte>, sep: byte)
    ensures Join(Split(s, sep), sep) == s
  {
    if s != [] {
      SplitJoinsBack(s[1..], sep);
      if s[0] == sep {
        JoinAfterSep(s, sep);
      } else {
        JoinAfterOther(s, sep);
      }
    }
  }

  lemma JoinAfterSep(s: seq<byte>, sep: byte)
    requires s != [] && s[0] == sep && Join(Split(s[1..], sep), sep) == s[1..]
    ensures Join(Split(s, sep), sep) == s
  {
    var rest := Split(s[1..], sep);
    var parts := Split(s, sep);
    assert parts == [[]] + rest;
    assert parts[1..] == rest;
    assert Join(parts, sep) == [] + [sep] + Join(rest, sep);
  }

  lemma JoinAfterOther(s: seq<byte>, sep: byte)
    requires s != [] && s[0] != sep && Join(Split(s[1..], sep), sep) == s[1..]
    ensures Join(Split(s, sep), sep) == s
  {
    var rest := Split(s[1..], sep);
    assert Split(s, sep) == [[s[0]] + rest[0]] + rest[1..];
    JoinConsFirst(s[0], rest, sep);
    assert [s[0]] + s[1..] == s;
  }

  /** Putting a byte in front of the first piece puts it in front of the
      joined text. */
  lemma JoinConsFirst(b: byte, parts: seq<seq<byte>>, sep: byte)
    requires |parts| >= 1
    ensures Join([[b] + parts[0]] + parts[1..], sep) == [b] + Join(parts, sep)
  {
    var q := [[b] + parts[0]] + parts[1..];
    if |parts| > 1 {
      assert q[1..] == parts[1..];
      assert Join(q, sep) == ([b] + parts[0]) + [sep] + Join(parts[1..], sep);
    }
  }

  lemma {:induction false} SplitCount(s: seq<byte>, sep: byte)
    ensures |Split(s, sep)| == 1 <==> sep !in s
  {
    if s != [] {
      SplitCount(s[1..], sep);
      assert s == [s[0]] + s[1..];
    }
  }

  /** Splitting undoes joining: pieces free of the separator come back
      exactly. */
  lemma {:induction false} SplitJoin(parts: seq<seq<byte>>, sep: byte)
    requires |parts| >= 1 && NoneContains(parts, sep)
    ensures Split(Join(parts, sep), sep) == parts
  {
    if |parts| == 1 {
      SplitWithoutSep(parts[0], sep);
    } else {
      SplitJoin(parts[1..], sep);
      SplitAfterSep(parts[0], Join(parts[1..], sep), sep);
    }
  }

  lemma {:induction false} SplitWithoutSep(a: seq<byte>, sep: byte)
    requires sep !in a
    ensures Split(a, sep) == [a]
  {
    if a != [] {
      SplitWithoutSep(a[1..], sep);
      assert a[0] != sep && [a[0]] + a[1..] == a;
    }
  }

  lemma {:induction false} SplitAfterSep(a: seq<byte>, b: seq<byte>, sep: byte)
    requires sep !in a
    ensures Split(a + [sep] + b, sep) == [a] + Split(b, sep)
  {
    var s := a + [sep] + b;
    if a == [] {
      assert s[1..] == b;
    } else {
      assert s[1..] == a[1..] + [sep] + b;
      SplitAfterSep(a[1..], b, sep);
      var rest := Split(s[1..], sep);
      assert rest == [a[1..]] + Split(b, sep);
      assert s[0] == a[0] && [a[0]] + a[1..] == a;
      assert Split(s, sep) == [[s[0]] + rest[0]] + rest[1..];
    }
  }

  // ---------------------------------------------------------------------
  // strconv.Atoi with the error discarded

  const MaxInt64: int := 0x7fff_ffff_ffff_ffff
  const MinInt64: int := -0x8000_0000_0000_0000
  const MaxUint64: int := 0xffff_ffff_ffff_ffff

  predicate IsDigit(b: byte)
  {
    48 <= b <= 57
  }

  predicate AllDigits(s: seq<byte>)
  {
    forall k :: 0 <= k < |s| ==> IsDigit(s[k])
  }

  /** `s` without its leading '+' or '-', if it has one. */
  function Unsigned(s: seq<byte>): (t: seq<byte>)
    ensures |t| <= |s|
  {
    if |s| > 0 && (s[0] == PLUS || s[0] == MINUS) then s[1..] else s
  }

  predicate IsNegative(s: seq<byte>)
  {
    |s| > 0 && s[0] == MINUS
  }

  /** The text `strconv.Atoi` accepts without error: an optional sign, then
      at least one decimal digit, and nothing else. */
  predicate IsIntLiteral(s: seq<byte>)
  {
    Unsigned(s) != [] && AllDigits(Unsigned(s))
  }

  /** The value of a string of decimal digits, most significant first. */
  function DigitsValue(d: seq<byte>): nat
    requires AllDigits(d)
  {
    if d == [] then 0
    else DigitsValue(d[..|d| - 1]) * 10 + (d[|d| - 1] as int - 48)
  }

  /** The end of the run of digits that starts at `i`. */
  function DigitRunEnd(t: seq<byte>, i: nat): (n: nat)
    requires i <= |t|
    ensures i <= n <= |t|
    ensures forall k :: i <= k < n ==> IsDigit(t[k])
    ensures n < |t| ==> !IsDigit(t[n])
    decreases |t| - i
  {
    if i == |t| || !IsDigit(t[i]) then i else DigitRunEnd(t, i + 1)
  }

  /** The run of digits from `i` ends at `p` when everything in between is
      a digit and the byte at `p` is not. */
  lemma DigitRunEndIs(t: seq<byte>, i: nat, p: nat)
    requires i <= p <= |t|
    requires forall k :: i <= k < p ==> IsDigit(t[k])
    requires p < |t| ==> !IsDigit(t[p])
    ensures DigitRunEnd(t, i) == p
  {
  }

  /** The value of the digits that follow the sign of `s`, up to the first
      byte that is not a digit. */
  function LeadingValue(s: seq<byte>): nat
  {
    var t := Unsigned(s);
    var n := DigitRunEnd(t, 0);
    assert AllDigits(t[..n]);
    DigitsValue(t[..n])
  }

  /** Clamps to the range of a 64-bit Go `int`, as `strconv.ParseInt`
      does on a range error. */
  function Clamp64(v: int): (r: int)
    ensures MinInt64 <= r <= MaxInt64
    ensures MinInt64 <= v <= MaxInt64 ==> r == v
  {
    if v > MaxInt64 then MaxInt64 else if v < MinInt64 then MinInt64 else v
  }

  /** `n, _ := strconv.Atoi(s)`. After the sign, the digits are read from
      left to right. As soon as their value leaves the unsigned 64-bit
      range the read stops with a range error, whose value is the bound of
      a 64-bit int on the side of the sign, whatever follows. A byte that is
      not a digit met before that is a syntax error, whose value is 0. A
      literal is its value clamped to 64 bits (the short-input fast path of
      `Atoi` agrees, since fewer than 19 digits stay in range). */
  function AtoiValue(s: seq<byte>): (r: int)
    ensures MinInt64 <= r <= MaxInt64
    ensures IsIntLiteral(s) ==>
              r == Clamp64(if IsNegative(s) then -(LeadingValue(s) as int) else LeadingValue(s))
    ensures !IsIntLiteral(s) && LeadingValue(s) <= MaxUint64 ==> r == 0
    ensures LeadingValue(s) > MaxUint64 ==> r == if IsNegative(s) then MinInt64 else MaxInt64
  {
    var t := Unsigned(s);
    var v := LeadingValue(s);
    if DigitRunEnd(t, 0) < |t| && v <= MaxUint64 then 0
    else Clamp64(if IsNegative(s) then -(v as int) else v)
  }

  /** The shortest decimal digits of `n`. */
  function Decimal(n: nat): (d: seq<byte>)
    ensures |d| >= 1 && AllDigits(d)
  {
    if n < 10 then [(48 + n) as byte]
    else Decimal(n / 10) + [(48 + n % 10) as byte]
  }

  lemma {:induction false} DigitsValueOfDecimal(n: nat)
    ensures DigitsValue(Decimal(n)) == n
  {
    var d := Decimal(n);
    if n >= 10 {
      assert d[..|d| - 1] == Decimal(n / 10);
      DigitsValueOfDecimal(n / 10);
    }
  }

  /** `Atoi` reads back the decimal text of any 64-bit value, with or
      without a sign. */
  lemma AtoiOfDecimal(n: nat)
    ensures n <= MaxInt64 ==> AtoiValue(Decimal(n)) == n
    ensures n <= MaxInt64 ==> AtoiValue([PLUS] + Decimal(n)) == n
    ensures n <= -MinInt64 ==> AtoiValue([MINUS] + Decimal(n)) == -(n as int)
  {
    var d := Decimal(n);
    assert AtoiValue(d) == Clamp64(n) by {
      AtoiOfDigitsThen([], n, []);
      assert [] + d + [] == d;
    }
    assert AtoiValue([PLUS] + d) == Clamp64(n) by {
      AtoiOfDigitsThen([PLUS], n, []);
      assert [PLUS] + d + [] == [PLUS] + d;
    }
    assert AtoiValue([MINUS] + d) == Clamp64(-(n as int)) by {
      AtoiOfDigitsThen([MINUS], n, []);
      assert [MINUS] + d + [] == [MINUS] + d;
    }
  }

  /** The digits of `n`, after an optional sign and before anything that
      does not start with a digit: when nothing follows, or when `n` is out
      of the unsigned 64-bit range, the result is `n` (with its sign)
      clamped to 64 bits; when something follows an in-range `n`, it is 0. */
  lemma AtoiOfDigitsThen(pre: seq<byte>, n: nat, rest: seq<byte>)
    requires pre == [] || pre == [PLUS] || pre == [MINUS]
    requires rest == [] || !IsDigit(rest[0])
    ensures AtoiValue(pre + Decimal(n) + rest) ==
            if rest != [] && n <= MaxUint64 then 0 else Clamp64(if pre == [MINUS] then -(n as int) else n)
  {
    var d := Decimal(n);
    PartsOfDigitsThen(pre, n, rest);
    AtoiValueIs(pre + d + rest, d + rest, |d|, n);
  }

  /** What `AtoiValue` reads of `pre + Decimal(n) + rest`: the text after
      the sign, where its digits end, their value, and the sign. */
  lemma PartsOfDigitsThen(pre: seq<byte>, n: nat, rest: seq<byte>)
    requires pre == [] || pre == [PLUS] || pre == [MINUS]
    requires rest == [] || !IsDigit(rest[0])
    ensures var s, t := pre + Decimal(n) + rest, Decimal(n) + rest;
            Unsigned(s) == t && (IsNegative(s) <==> pre == [MINUS]) &&
            DigitRunEnd(t, 0) == |Decimal(n)| && LeadingValue(s) == n
  {
    var d := Decimal(n);
    SignOfPrefixed(pre, d, rest);
    DigitRunOfDecimal(n, rest);
    DigitsValueOfDecimal(n);
    LeadingValueIs(pre + d + rest, d + rest, d);
  }

  /** The sign in front of digits is the one `Unsigned` strips and
      `IsNegative` sees. */
  lemma SignOfPrefixed(pre: seq<byte>, d: seq<byte>, rest: seq<byte>)
    requires pre == [] || pre == [PLUS] || pre == [MINUS]
    requires d != [] && IsDigit(d[0])
    ensures Unsigned(pre + d + rest) == d + rest
    ensures IsNegative(pre + d + rest) <==> pre == [MINUS]
  {
    var s := pre + d + rest;
    if pre == [] {
      assert s == d + rest && s[0] == d[0];
    } else {
      assert s[0] == pre[0] && s[1..] == d + rest;
    }
  }

  /** `LeadingValue` from the digits its definition finds. */
  lemma LeadingValueIs(s: seq<byte>, t: seq<byte>, d: seq<byte>)
    requires AllDigits(d) && Unsigned(s) == t && |d| <= |t| && DigitRunEnd(t, 0) == |d| && t[..|d|] == d
    ensures LeadingValue(s) == DigitsValue(d)
  {
  }

  /** `AtoiValue` from the parts its definition reads. */
  lemma AtoiValueIs(s: seq<byte>, t: seq<byte>, k: nat, v: nat)
    requires Unsigned(s) == t && k <= |t| && DigitRunEnd(t, 0) == k && LeadingValue(s) == v
    ensures AtoiValue(s) == if k < |t| && v <= MaxUint64 then 0 else Clamp64(if IsNegative(s) then -(v as int) else v)
  {
  }

  /** The leading digits of `Decimal(n) + rest` are those of `n`. */
  lemma DigitRunOfDecimal(n: nat, rest: seq<byte>)
    requires rest == [] || !IsDigit(rest[0])
    ensures DigitRunEnd(Decimal(n) + rest, 0) == |Decimal(n)|
    ensures (Decimal(n) + rest)[..|Decimal(n)|] == Decimal(n)
  {
    var d := Decimal(n);
    var t := d + rest;
    assert forall k :: 0 <= k < |d| ==> t[k] == d[k];
    DigitRunEndIs(t, 0, |d|);
  }

  // ---------------------------------------------------------------------
  // The load-stats reply

  /** The three counters, as read from the reply, by position. */
  datatype Stats = Stats(clients: int, bytesIn: int, bytesOut: int)

  /** The outcome of the parse lines: the counters, or the index-out-of-range
      panic that a short reply or a segment without '=' causes. */
  datatype ParseResult = Parsed(stats: Stats) | IndexPanic

  /** `strings.Split(strings.TrimSpace(content), ",")`. */
  function Fields(content: seq<byte>): (fields: seq<seq<byte>>)
    ensures |fields| >= 1
  {
    Split(TrimSpace(content), COMMA)
  }

  /** A segment carries an element `[1]` after splitting on '='. */
  function HasValue(seg: seq<byte>): (b: bool)
    ensures b <==> EQ in seg
  {
    SplitCount(seg, EQ);
    |Split(seg, EQ)| >= 2
  }

  /** `strings.Split(seg, "=")[1]`: the text between the first and the
      second '=' of the segment, or to its end. */
  function Value(seg: seq<byte>): (v: seq<byte>)
    requires HasValue(seg)
    ensures EQ !in v
  {
    SplitPiecesFree(seg, EQ);
    Split(seg, EQ)[1]
  }

  /** The parse: segments 0, 1 and 2 of the trimmed reply give clients,
      bytes in and bytes out, whatever their keys are called. It panics
      exactly when the trimmed reply has fewer than three comma-segments or
      one of the first three has no '='; each counter is a 64-bit int. */
  function ParseReply(content: seq<byte>): (r: ParseResult)
    ensures var fields := Fields(content);
            r.Parsed? <==> |fields| >= 3 && EQ in fields[0] && EQ in fields[1] && EQ in fields[2]
    ensures r.Parsed? ==>
              MinInt64 <= r.stats.clients <= MaxInt64 && MinInt64 <= r.stats.bytesIn <= MaxInt64 &&
              MinInt64 <= r.stats.bytesOut <= MaxInt64
  {
    var fields := Fields(content);
    if |fields| < 3 || !HasValue(fields[0]) || !HasValue(fields[1]) || !HasValue(fields[2]) then
      IndexPanic
    else
      Parsed(Stats(AtoiValue(Value(fields[0])), AtoiValue(Value(fields[1])), AtoiValue(Value(fields[2]))))
  }

  /** White space in front of the reply does not change the parse; in
      particular the newline `readTelnet` keeps in front of the line. */
  lemma ParseReplyDropsLeadingSpace(b: byte, content: seq<byte>)
    requires IsSpace(b)
    ensures ParseReply([b] + content) == ParseReply(content)
  {
    TrimSpaceDropsLeadingSpace(b, content);
  }

  /** The value of `key=value` or `key=value=...` is `value`. */
  lemma ValueOfSegment(key: seq<byte>, value: seq<byte>, rest: seq<byte>)
    requires EQ !in key && EQ !in value
    requires rest == [] || rest[0] == EQ
    ensures HasValue(key + [EQ] + value + rest) && Value(key + [EQ] + value + rest) == value
  {
    var seg := key + [EQ] + value + rest;
    if rest == [] {
      assert seg == key + [EQ] + value;
      SplitWithoutSep(value, EQ);
      SplitAfterSep(key, value, EQ);
    } else {
      assert seg == key + [EQ] + (value + [EQ] + rest[1..]);
      SplitAfterSep(value, rest[1..], EQ);
      SplitAfterSep(key, value + [EQ] + rest[1..], EQ);
    }
  }

  /** The segments of a reply line with white space around it are the
      comma-separated pieces of the line. */
  lemma FieldsOfLine(pre: seq<byte>, segs: seq<seq<byte>>, post: seq<byte>)
    requires |segs| >= 1 && NoneContains(segs, COMMA)
    requires AllSpace(pre) && AllSpace(post)
    requires var line := Join(segs, COMMA);
             line != [] && !IsSpace(line[0]) && !IsSpace(line[|line| - 1])
    ensures Fields(pre + Join(segs, COMMA) + post) == segs
  {
    TrimSpaceOfPadded(pre, Join(segs, COMMA), post);
    SplitJoin(segs, COMMA);
  }

  lemma DigitsHaveNoSeparator(d: seq<byte>)
    requires AllDigits(d) && d != []
    ensures COMMA !in d && EQ !in d && !IsSpace(d[|d| - 1])
  {
  }

  /** Keys that can stand in a `key=value` segment of a reply line (no
      '=' and no ','), a first key that does not start with white space, and
      further segments without ',' of which the last is empty (the line then
      ends in ',') or ends in a byte that is not white space. */
  predicate WellFormedKeys(k0: seq<byte>, k1: seq<byte>, k2: seq<byte>, extra: seq<seq<byte>>)
  {
    EQ !in k0 && EQ !in k1 && EQ !in k2 &&
    COMMA !in k0 && COMMA !in k1 && COMMA !in k2 && NoneContains(extra, COMMA) &&
    (k0 == [] || !IsSpace(k0[0])) &&
    (extra == [] || extra[|extra| - 1] == [] || !IsSpace(extra[|extra| - 1][|extra[|extra| - 1]| - 1]))
  }

  /** The reply line "k0=n0,k1=n1,k2=n2" followed by the segments `extra`. */
  function StatsLine(k0: seq<byte>, k1: seq<byte>, k2: seq<byte>, n0: nat, n1: nat, n2: nat,
                     extra: seq<seq<byte>>): seq<byte>
  {
    Join([k0 + [EQ] + Decimal(n0), k1 + [EQ] + Decimal(n1), k2 + [EQ] + Decimal(n2)] + extra, COMMA)
  }

  /** The counters of a reply line are read by position: the values of the
      first three segments, whatever the keys are called, with any further
      segments ignored and white space around the line trimmed. */
  lemma ParseReplyPositional(pre: seq<byte>, k0: seq<byte>, k1: seq<byte>, k2: seq<byte>,
                             n0: nat, n1: nat, n2: nat, extra: seq<seq<byte>>, post: seq<byte>)
    requires AllSpace(pre) && AllSpace(post) && WellFormedKeys(k0, k1, k2, extra)
    requires n0 <= MaxInt64 && n1 <= MaxInt64 && n2 <= MaxInt64
    ensures ParseReply(pre + StatsLine(k0, k1, k2, n0, n1, n2, extra) + post) == Parsed(Stats(n0, n1, n2))
  {
    var s0, s1, s2 := k0 + [EQ] + Decimal(n0), k1 + [EQ] + Decimal(n1), k2 + [EQ] + Decimal(n2);
    FieldsOfStatsLine(pre, k0, k1, k2, n0, n1, n2, extra, post);
    SegmentValue(k0, n0);
    SegmentValue(k1, n1);
    SegmentValue(k2, n2);
  }

  /** The value of "k=n" is `n`, read back by `Atoi`. */
  lemma SegmentValue(k: seq<byte>, n: nat)
    requires EQ !in k && n <= MaxInt64
    ensures HasValue(k + [EQ] + Decimal(n)) && AtoiValue(Value(k + [EQ] + Decimal(n))) == n
  {
    DigitsHaveNoSeparator(Decimal(n));
    assert k + [EQ] + Decimal(n) + [] == k + [EQ] + Decimal(n);
    ValueOfSegment(k, Decimal(n), []);
    AtoiOfDecimal(n);
  }

  /** The segments of a padded `StatsLine` are its three "k=n" pieces and
      the extra ones. */
  lemma FieldsOfStatsLine(pre: seq<byte>, k0: seq<byte>, k1: seq<byte>, k2: seq<byte>,
                          n0: nat, n1: nat, n2: nat, extra: seq<seq<byte>>, post: seq<byte>)
    requires AllSpace(pre) && AllSpace(post) && WellFormedKeys(k0, k1, k2, extra)
    ensures Fields(pre + StatsLine(k0, k1, k2, n0, n1, n2, extra) + post) ==
            [k0 + [EQ] + Decimal(n0), k1 + [EQ] + Decimal(n1), k2 + [EQ] + Decimal(n2)] + extra
  {
    var segs := [k0 + [EQ] + Decimal(n0), k1 + [EQ] + Decimal(n1), k2 + [EQ] + Decimal(n2)] + extra;
    StatsSegmentsFree(k0, k1, k2, n0, n1, n2, extra);
    StatsLineEnds(k0, k1, k2, n0, n1, n2, extra);
    FieldsOfLine(pre, segs, post);
  }

  lemma StatsSegmentsFree(k0: seq<byte>, k1: seq<byte>, k2: seq<byte>,
                          n0: nat, n1: nat, n2: nat, extra: seq<seq<byte>>)
    requires WellFormedKeys(k0, k1, k2, extra)
    ensures NoneContains([k0 + [EQ] + Decimal(n0), k1 + [EQ] + Decimal(n1), k2 + [EQ] + Decimal(n2)] + extra, COMMA)
  {
    var segs := [k0 + [EQ] + Decimal(n0), k1 + [EQ] + Decimal(n1), k2 + [EQ] + Decimal(n2)] + extra;
    DigitsHaveNoSeparator(Decimal(n0));
    DigitsHaveNoSeparator(Decimal(n1));
    DigitsHaveNoSeparator(Decimal(n2));
    forall i | 0 <= i < |segs| ensures COMMA !in segs[i] {
      if i >= 3 { assert segs[i] == extra[i - 3]; }
    }
  }

  /** A `StatsLine` starts and ends with a byte that is not white space. */
  lemma StatsLineEnds(k0: seq<byte>, k1: seq<byte>, k2: seq<byte>,
                      n0: nat, n1: nat, n2: nat, extra: seq<seq<byte>>)
    requires WellFormedKeys(k0, k1, k2, extra)
    ensures var line := StatsLine(k0, k1, k2, n0, n1, n2, extra);
            line != [] && !IsSpace(line[0]) && !IsSpace(line[|line| - 1])
  {
    var s0, s2 := k0 + [EQ] + Decimal(n0), k2 + [EQ] + Decimal(n2);
    var segs := [s0, k1 + [EQ] + Decimal(n1), s2] + extra;
    var last := segs[|segs| - 1];
    assert last == if extra == [] then s2 else extra[|extra| - 1];
    DigitsHaveNoSeparator(Decimal(n2));
    assert !IsSpace(s0[0]);
    JoinEnds(segs, COMMA);
    var line := Join(segs, COMMA);
    assert line[0] == line[..|s0|][0];
    if last == [] {
      JoinEndsInSeparator(segs, COMMA);
    } else {
      assert line[|line| - 1] == line[|line| - |last|..][|last| - 1];
    }
  }

  /** When the last piece is empty, the joined text ends with the separator. */
  lemma {:induction false} JoinEndsInSeparator(parts: seq<seq<byte>>, sep: byte)
    requires |parts| >= 2 && parts[|parts| - 1] == []
    ensures var s := Join(parts, sep); s != [] && s[|s| - 1] == sep
  {
    if |parts| > 2 {
      JoinEndsInSeparator(parts[1..], sep);
    } else {
      assert parts[1..] == [[]];
    }
  }

  /** Joining starts with the first piece and ends with the last one. */
  lemma {:induction false} JoinEnds(parts: seq<seq<byte>>, sep: byte)
    requires |parts| >= 1
    ensures var s := Join(parts, sep);
            |s| >= |parts[0]| && s[..|parts[0]|] == parts[0] &&
            |s| >= |parts[|parts| - 1]| && s[|s| - |parts[|parts| - 1]|..] == parts[|parts| - 1]
  {
    if |parts| > 1 {
      JoinEnds(parts[1..], sep);
    }
  }

  /** The reply "a=12,b=34,c=56" reads as 12, 34 and 56: the keys play no
      part. The literals are bound to variables with `:|`, so that the
      verifier does not unfold `Decimal` and `Join` on literal arguments;
      `ExampleSegments` and `ExampleLine` evaluate them step by step. */
  lemma ParseReplyExample(reply: seq<byte>)
    requires reply == [97, 61, 49, 50, 44, 98, 61, 51, 52, 44, 99, 61, 53, 54]  // "a=12,b=34,c=56"
    ensures ParseReply(reply) == Parsed(Stats(12, 34, 56))
  {
    var k0: seq<byte> :| k0 == [97];
    var k1: seq<byte> :| k1 == [98];
    var k2: seq<byte> :| k2 == [99];
    var n0: nat :| n0 == 12;
    var n1: nat :| n1 == 34;
    var n2: nat :| n2 == 56;
    ExampleSegments(n0, n1, n2);
    ParseReplyPositional([], k0, k1, k2, n0, n1, n2, [], []);
    ExampleLine(k0, k1, k2, Decimal(n0), Decimal(n1), Decimal(n2), reply);
  }

  lemma ExampleLine(k0: seq<byte>, k1: seq<byte>, k2: seq<byte>, d0: seq<byte>, d1: seq<byte>, d2: seq<byte>,
                    reply: seq<byte>)
    requires k0 == [97] && k1 == [98] && k2 == [99] && d0 == [49, 50] && d1 == [51, 52] && d2 == [53, 54]
    requires reply == [97, 61, 49, 50, 44, 98, 61, 51, 52, 44, 99, 61, 53, 54]
    ensures [] + Join([k0 + [EQ] + d0, k1 + [EQ] + d1, k2 + [EQ] + d2] + [], COMMA) + [] == reply
  {
    var s0, s1, s2 := k0 + [EQ] + d0, k1 + [EQ] + d1, k2 + [EQ] + d2;
    assert [s0, s1, s2] + [] == [s0, s1, s2];
    assert [s0, s1, s2][1..] == [s1, s2] && [s1, s2][1..] == [s2];
    assert s0 == [97, 61, 49, 50] && s1 == [98, 61, 51, 52] && s2 == [99, 61, 53, 54];
    assert Join([s2], COMMA) == s2;
    assert Join([s1, s2], COMMA) == s1 + [COMMA] + s2;
    assert Join([s0, s1, s2], COMMA) == s0 + [COMMA] + (s1 + [COMMA] + s2);
  }

  lemma ExampleSegments(n0: nat, n1: nat, n2: nat)
    requires n0 == 12 && n1 == 34 && n2 == 56
    ensures Decimal(n0) == [49, 50] && Decimal(n1) == [51, 52] && Decimal(n2) == [53, 54]
  {
    assert Decimal(1) == [49] && Decimal(3) == [51] && Decimal(5) == [53];
  }
}
