/** The cursor loops of a connection: parsing, draining and writing an array (f1srv/conn.go). */
module RespConn {
  import opened Bytes
  import opened Decimal
  import opened Rdb
  import opened Resp

  /** readIntLine. */
  method ReadIntLine(b: Bytes, start: nat) returns (r: Option<(int, nat)>)
    requires start <= |b|
    ensures r == IntLine(b, start)
  {
    hide ParseDigits, DigitsEnd, Wrap64;
    var i := start;
    var neg := i < |b| && b[i] == MINUS;
    if neg {
      i := i + 1;
    }
    ghost var s, n: nat := i, 0;
    var v, digits := 0, 0;
    NoDigits(b, s);
    while i < |b| && IsDigit(b[i])
      invariant s <= i <= |b| && digits == i - s && v == Wrap64(n)
      invariant DigitsEnd(b, i) == DigitsEnd(b, s) && ParseDigits(b[s..i]) == Some(n)
    {
      OneDigit(b, s, i, n);
      WrapTwice(n, b[i] - ZERO);
      v, n := Wrap64(v * 10 + (b[i] - ZERO)), n * 10 + (b[i] - ZERO);
      i := i + 1;
      digits := digits + 1;
    }
    DigitsStop(b, i);
    if i + 1 >= |b| || b[i] != CR || b[i + 1] != LF || (digits == 0 && !neg) {
      return None;
    }
    WrapTwice(n, 0);
    r := Some((if neg then Wrap64(-v) else v, i + 2));
  }

  lemma NoDigits(b: Bytes, s: nat)
    requires s <= |b|
    ensures ParseDigits(b[s..s]) == Some(0)
  {
    assert b[s..s] == [];
  }

  lemma OneDigit(b: Bytes, s: nat, i: nat, v: nat)
    requires s <= i < |b| && IsDigit(b[i]) && ParseDigits(b[s..i]) == Some(v)
    ensures ParseDigits(b[s..i + 1]) == Some(v * 10 + (b[i] - ZERO)) && DigitsEnd(b, i + 1) == DigitsEnd(b, i)
  {
    assert b[s..i + 1][..i - s] == b[s..i];
  }

  lemma DigitsStop(b: Bytes, i: nat)
    requires i <= |b| && (i < |b| ==> !IsDigit(b[i]))
    ensures DigitsEnd(b, i) == i
  {
  }

  /** What the bulks still to come add to those read. */
  function Onto(argv: seq<Bytes>, r: Verdict): (r': Verdict)
  {
    match r
    case Ok(more, n) => Ok(argv + more, n)
    case _ => r
  }

  lemma OntoOne(argv: seq<Bytes>, arg: Bytes, r: Verdict)
    ensures Onto(argv, Before(arg, r)) == Onto(argv + [arg], r)
  {
    if r.Ok? { assert argv + ([arg] + r.argv) == (argv + [arg]) + r.argv; }
  }

  lemma OntoNone(r: Verdict)
    ensures Onto([], r) == r
  {
    if r.Ok? { assert [] + r.argv == r.argv; }
  }

  /** The multibulk half of parse. */
  method ParseBulks(b: Bytes, start: nat, count: nat) returns (r: Verdict)
    requires start <= |b|
    ensures r == Bulks(b, start, count, false)
  {
    hide IntLine, Bulks, Wrap64;
    var argv: seq<Bytes>, i: nat, k: nat := [], start, 0;
    OntoNone(Bulks(b, start, count, false));
    while k < count
      invariant 0 <= k <= count && start <= i <= |b| && Onto(argv, Bulks(b, i, count - k, false)) == Bulks(b, start, count, false)
    {
      BulksStep(b, i, count - k);
      if i >= |b| {
        return NeedMore;
      }
      if b[i] != DOLLAR {
        return Bad;
      }
      var line := ReadIntLine(b, i + 1);
      if line.None? {
        return NeedMore;
      }
      var (blen, at) := line.value;
      if blen < 0 {
        OntoOne(argv, [], Bulks(b, at, count - k - 1, false));
        argv, i := argv + [[]], at;
      } else {
        if PastEnd(at, blen, false) {
          return Crash;
        }
        if at + blen + 2 > |b| {
          return NeedMore;
        }
        OntoOne(argv, b[at..at + blen], Bulks(b, at + blen + 2, count - k - 1, false));
        argv, i := argv + [b[at..at + blen]], at + blen + 2;
      }
      k := k + 1;
    }
    BulksNone(b, i);
    assert argv + [] == argv;
    r := Ok(argv, i);
  }

  lemma BulksNone(b: Bytes, i: nat)
    requires i <= |b|
    ensures Bulks(b, i, 0, false) == Ok([], i)
  {
  }

  lemma BulksStep(b: Bytes, i: nat, k: nat)
    requires i <= |b| && k > 0
    ensures Bulks(b, i, k, false) ==
            if i >= |b| then NeedMore
            else if b[i] != DOLLAR then Bad
            else if IntLine(b, i + 1).None? then NeedMore
            else
              var (len, at) := IntLine(b, i + 1).value;
              if len < 0 then Before([], Bulks(b, at, k - 1, false))
              else if PastEnd(at, len, false) then Crash
              else if at + len + 2 > |b| then NeedMore
              else Before(b[at..at + len], Bulks(b, at + len + 2, k - 1, false))
  {
    hide Line, Wrap64;
  }

  /** indexByte. */
  method FindByte(b: Bytes, c: Byte) returns (k: Option<nat>)
    ensures k == IndexOf(b, c, 0)
  {
    var i := 0;
    while i < |b|
      invariant 0 <= i <= |b| && IndexOf(b, c, 0) == IndexOf(b, c, i)
    {
      if b[i] == c {
        return Some(i);
      }
      i := i + 1;
    }
    k := None;
  }

  /** Split a line at its spaces. */
  method SplitWords(line: Bytes) returns (argv: seq<Bytes>)
    ensures argv == Words(line, 0)
  {
    argv := [];
    var i := 0;
    assert [] + Words(line, 0) == Words(line, 0);
    while i < |line|
      invariant 0 <= i <= |line| && argv + Words(line, i) == Words(line, 0)
      decreases |line| - i
    {
      ghost var i0 := i;
      while i < |line| && line[i] == SPACE
        invariant i0 <= i <= |line| && RunEnd(line, i, true) == RunEnd(line, i0, true)
      {
        i := i + 1;
      }
      if i >= |line| {
        assert Words(line, i0) == [];
        assert argv + [] == argv;
        return;
      }
      WordMoves(line, i0);
      var start := i;
      while i < |line| && line[i] != SPACE
        invariant start <= i <= |line| && RunEnd(line, i, false) == RunEnd(line, start, false)
      {
        i := i + 1;
      }
      assert Words(line, i0) == [line[start..i]] + Words(line, i);
      assert argv + ([line[start..i]] + Words(line, i)) == (argv + [line[start..i]]) + Words(line, i);
      argv := argv + [line[start..i]];
    }
    assert Words(line, i) == [];
    assert argv + [] == argv;
  }

  /** parse. */
  method Parse(b: Bytes) returns (r: Verdict)
    ensures r == Parsed(b)
  {
    hide Line, Bulks, Words, IndexOf, Wrap64;
    if |b| == 0 {
      return NeedMore;
    }
    if b[0] != STAR {
      var nl := FindByte(b, LF);
      if nl.None? {
        return NeedMore;
      }
      var argv := SplitWords(Trimmed(b, nl.value));
      return Ok(argv, nl.value + 1);
    }
    var line := ReadIntLine(b, 1);
    if line.None? {
      return NeedMore;
    }
    var (count, i) := line.value;
    if count <= 0 {
      return Ok([], i);
    }
    r := ParseBulks(b, i, count);
  }

  /** A connection's unread bytes and the commands it has run. */
  class Conn {
    var rbuf: Bytes
    var ran: seq<seq<Bytes>>

    constructor ()
      ensures rbuf == [] && ran == []
    {
      rbuf, ran := [], [];
    }

    /** drain: run every whole command, keep the rest. */
    method DrainBuffer() returns (end: End)
      modifies this
      ensures var d := Drain(old(rbuf));
              ran == old(ran) + d.commands && end == d.end && (end.Open? ==> rbuf == d.rest)
    {
      hide Drain, Parsed;
      var pos := 0;
      ghost var all, done: seq<seq<Bytes>> := Drain(rbuf), [];
      assert rbuf[0..] == rbuf && [] + all.commands == all.commands && ran + [] == ran;
      while true
        invariant 0 <= pos <= |rbuf| && rbuf == old(rbuf) && ran == old(ran) + done
        invariant var d := Drain(rbuf[pos..]); Alike(all, Drained(done + d.commands, d.rest, d.end))
        decreases |rbuf| - pos
      {
        var r := Parse(rbuf[pos..]);
        DrainIs(rbuf[pos..]);
        match r
        case NeedMore =>
          assert done + [] == done;
          rbuf := rbuf[pos..];
          return Open;
        case Bad =>
          assert done + [] == done;
          return Closed;
        case Crash =>
          assert done + [] == done;
          return Crashed;
        case Ok(argv, consumed) =>
          ghost var rest := Drain(rbuf[pos..][consumed..]);
          assert rbuf[pos..][consumed..] == rbuf[pos + consumed..];
          assert done + ([argv] + rest.commands) == (done + [argv]) + rest.commands;
          assert (old(ran) + done) + [argv] == old(ran) + (done + [argv]);
          ran := ran + [argv];
          done := done + [argv];
          pos := pos + consumed;
      }
    }

    /** A read: the new bytes join those left over. */
    method Feed(chunk: Bytes) returns (end: End)
      modifies this
      ensures var d := Drain(old(rbuf) + chunk);
              ran == old(ran) + d.commands && end == d.end && (end.Open? ==> rbuf == d.rest)
    {
      rbuf := rbuf + chunk;
      end := DrainBuffer();
    }

    /** A whole connection, read by read: it runs the commands of the stream in one piece. */
    method Serve(chunks: seq<Bytes>) returns (end: End)
      requires rbuf == [] && ran == []
      modifies this
      ensures var d := Drain(Joined(chunks, |chunks|)); ran == d.commands && end == d.end && (end.Open? ==> rbuf == d.rest)
    {
      hide Drain;
      end := Open;
      var k := 0;
      while k < |chunks|
        invariant 0 <= k <= |chunks|
        invariant Alike(Drained(ran, rbuf, end), Reads(chunks, k))
      {
        if end.Open? {
          end := Feed(chunks[k]);
        }
        k := k + 1;
      }
      ReadsAreWhole(chunks, |chunks|);
    }
  }

  /** declen. */
  method Declen(n: nat) returns (d: nat)
    ensures d == |Digits(n)|
  {
    if n < 10 {
      return 1;
    }
    d := 0;
    var v := n;
    while v > 0
      invariant v >= 0 && d + (if v == 0 then 0 else |Digits(v)|) == |Digits(n)|
    {
      d, v := d + 1, v / 10;
    }
  }

  /** putDecimal, at an offset of the buffer. */
  method PutDecimal(dst: array<Byte>, at: nat, n: nat) returns (w: nat)
    requires at + |Digits(n)| <= dst.Length
    modifies dst
    ensures w == |Digits(n)| && dst[at..at + w] == Digits(n)
    ensures dst[..at] == old(dst[..at])
  {
    if n < 10 {
      dst[at] := ZERO + n;
      assert dst[at..at + 1] == [ZERO + n];
      return 1;
    }
    w := Declen(n);
    var v, i := n, w;
    ghost var tail: Bytes := [];
    assert Digits(n) == Digits(v) + tail;
    while i > 0
      invariant 0 <= i <= w && v >= 0 && |tail| == w - i
      invariant i > 0 ==> Digits(n) == Digits(v) + tail && |Digits(v)| == i
      invariant i == 0 ==> Digits(n) == tail
      invariant dst[at + i..at + w] == tail && dst[..at] == old(dst[..at])
    {
      ghost var was := dst[at + i..at + w];
      DigitsLast(v, tail);
      i := i - 1;
      dst[at + i] := ZERO + v % 10;
      assert dst[at + i + 1..at + w] == was;
      assert dst[at + i..at + w] == [ZERO + v % 10] + was;
      tail := [ZERO + v % 10] + tail;
      v := v / 10;
    }
  }

  lemma DigitsLast(v: nat, tail: Bytes)
    ensures v < 10 ==> Digits(v) + tail == [ZERO + v % 10] + tail && |Digits(v)| == 1
    ensures v >= 10 ==> Digits(v) + tail == Digits(v / 10) + ([ZERO + v % 10] + tail) && |Digits(v)| == |Digits(v / 10)| + 1
  {
    if v >= 10 { assert Digits(v / 10) + [ZERO + v % 10] + tail == Digits(v / 10) + ([ZERO + v % 10] + tail); }
  }

  /** Some bytes copied into a buffer. */
  method Copy(dst: array<Byte>, at: nat, s: Bytes)
    requires at + |s| <= dst.Length
    modifies dst
    ensures dst[at..at + |s|] == s && dst[..at] == old(dst[..at])
  {
    var i := 0;
    while i < |s|
      invariant 0 <= i <= |s| && dst[at..at + i] == s[..i] && dst[..at] == old(dst[..at])
    {
      dst[at + i] := s[i];
      assert dst[at..at + i + 1] == dst[at..at + i] + [s[i]];
      i := i + 1;
    }
  }

  /** Bytes known up to p and written from there on. */
  lemma Grown(b: Bytes, p: nat, n: nat)
    requires p + n <= |b|
    ensures b[..p + n] == b[..p] + b[p..p + n]
  {
  }

  /** A tag, a length and a line ending. */
  method PutLine(dst: array<Byte>, at: nat, tag: Byte, n: nat) returns (p: nat)
    requires at + |Digits(n)| + 3 <= dst.Length
    modifies dst
    ensures p == at + |Digits(n)| + 3 && dst[..p] == old(dst[..at]) + ([tag] + Digits(n) + [CR, LF])
  {
    hide Digits;
    Copy(dst, at, [tag]);
    Grown(dst[..], at, 1);
    p := at + 1;
    var w := PutDecimal(dst, p, n);
    Grown(dst[..], p, w);
    p := p + w;
    Copy(dst, p, [CR, LF]);
    Grown(dst[..], p, 2);
    p := p + 2;
    Regroup(old(dst[..at]), [tag], Digits(n));
    Regroup(old(dst[..at]), [tag] + Digits(n), [CR, LF]);
  }

  method PutBulk(dst: array<Byte>, at: nat, b: Bytes) returns (p: nat)
    requires at + |Bulk(b)| <= dst.Length
    modifies dst
    ensures p == at + |Bulk(b)| && dst[..p] == old(dst[..at]) + Bulk(b)
  {
    hide Digits;
    p := PutLine(dst, at, DOLLAR, |b|);
    ghost var line := [DOLLAR] + Digits(|b|) + [CR, LF];
    Copy(dst, p, b);
    Grown(dst[..], p, |b|);
    p := p + |b|;
    Copy(dst, p, [CR, LF]);
    Grown(dst[..], p, 2);
    p := p + 2;
    Regroup(old(dst[..at]), line, b);
    Regroup(old(dst[..at]), line + b, [CR, LF]);
  }

  /** The exact size of an array reply. */
  method ArraySize(ms: seq<Bytes>) returns (total: nat)
    ensures total == |BulkArray(ms)|
  {
    hide Digits;
    var d := Declen(|ms|);
    total := 1 + d + 2;
    var k := 0;
    AllFirst(Bulk, ms[..0]);
    while k < |ms|
      invariant 0 <= k <= |ms| && total == |Header(|ms|)| + |All(Bulk, ms[..k])|
    {
      AllSnoc(Bulk, ms[..k], ms[k]);
      assert ms[..k + 1] == ms[..k] + [ms[k]];
      d := Declen(|ms[k]|);
      total := total + 1 + d + 2 + |ms[k]| + 2;
      k := k + 1;
    }
    assert ms[..k] == ms;
  }

  /** writeBulkArray: one exact buffer filled in place holds what a header and a writeBulk loop append. */
  method WriteBulkArray(out: Bytes, ms: seq<Bytes>) returns (res: Bytes)
    ensures res == out + BulkArray(ms)
  {
    hide Bulk, Header, Digits;
    var total := ArraySize(ms);
    var buf := new Byte[|out| + total](_ => 0);
    Copy(buf, 0, out);
    assert buf[..|out|] == buf[0..|out|] == out;
    HeaderIs(|ms|);
    var p := PutLine(buf, |out|, STAR, |ms|);
    var k := 0;
    AllFirst(Bulk, ms[..0]);
    assert out + (Header(|ms|) + []) == out + Header(|ms|);
    while k < |ms|
      invariant 0 <= k <= |ms| && buf.Length == |out| + |BulkArray(ms)|
      invariant p == |out| + |Header(|ms|)| + |All(Bulk, ms[..k])| <= buf.Length
      invariant buf[..p] == out + (Header(|ms|) + All(Bulk, ms[..k]))
    {
      AllSnoc(Bulk, ms[..k], ms[k]);
      assert ms[..k + 1] == ms[..k] + [ms[k]];
      Room(ms, k);
      Regroup(Header(|ms|), All(Bulk, ms[..k]), Bulk(ms[k]));
      Regroup(out, Header(|ms|) + All(Bulk, ms[..k]), Bulk(ms[k]));
      p := PutBulk(buf, p, ms[k]);
      k := k + 1;
    }
    assert ms[..k] == ms && buf[..p] == buf[..];
    res := buf[..];
  }

  lemma HeaderIs(n: nat)
    ensures Header(n) == [STAR] + Digits(n) + [CR, LF] && |Header(n)| == |Digits(n)| + 3
  {
  }

  /** The bulks still to write fit what is left of the buffer. */
  lemma {:induction false} Room(ms: seq<Bytes>, k: nat)
    requires k < |ms|
    ensures |All(Bulk, ms[..k])| + |Bulk(ms[k])| <= |All(Bulk, ms)|
    decreases |ms| - k
  {
    hide Bulk, All;
    AllSnoc(Bulk, ms[..k], ms[k]);
    assert ms[..k + 1] == ms[..k] + [ms[k]];
    if k + 1 < |ms| {
      Room(ms, k + 1);
    } else {
      assert ms[..k + 1] == ms;
    }
  }
}
