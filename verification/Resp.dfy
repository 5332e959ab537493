/** RESP2 framing: the parser, its verdicts as bytes arrive, and the array writer (f1srv/conn.go). */
module Resp {
  import opened Bytes
  import opened Decimal
  import opened Rdb

  const CR: Byte := 13
  const LF: Byte := 10
  const SPACE: Byte := 32
  const STAR: Byte := 42
  const DOLLAR: Byte := 36

  /** The verdict on the bytes at hand: wait, close the connection, bring the server down, or a command and
      the bytes it took. */
  datatype Verdict = NeedMore | Bad | Crash | Ok(argv: seq<Bytes>, consumed: nat)

  /** Past the digits from i on. */
  function DigitsEnd(b: Bytes, i: nat): (e: nat)
    requires i <= |b|
    ensures i <= e <= |b| && (forall k :: i <= k < e ==> IsDigit(b[k])) && (e < |b| ==> !IsDigit(b[e]))
    decreases |b| - i
  {
    if i < |b| && IsDigit(b[i]) then DigitsEnd(b, i + 1) else i
  }

  /** The integer written on a line from i on, and the index past the line. */
  function Line(b: Bytes, i: nat): (r: Option<(int, nat)>)
    requires i <= |b|
    ensures r.Some? ==> i + 3 <= r.value.1 <= |b|
  {
    var neg := i < |b| && b[i] == MINUS;
    var s := if neg then i + 1 else i;
    var e := DigitsEnd(b, s);
    if e + 1 >= |b| || b[e] != CR || b[e + 1] != LF || (e == s && !neg) then None
    else
      match ParseDigits(b[s..e])
      case None => None
      case Some(n) =>
        var v: int := n;
        Some((if neg then -v else v, e + 2))
  }

  /** readIntLine: the same line in an int64. */
  function IntLine(b: Bytes, i: nat): (r: Option<(int, nat)>)
    requires i <= |b|
    ensures r.Some? ==> i + 3 <= r.value.1 <= |b|
  {
    match Line(b, i)
    case None => None
    case Some((v, at)) => Some((Wrap64(v), at))
  }

  /** A number as the reader holds it: exactly, or in an int64. */
  function Held(v: int, wide: bool): (n: int)
  {
    if wide then v else Wrap64(v)
  }

  /** A bulk string whose end is past every int64 makes the bounds test pass and the slice panic. */
  predicate PastEnd(at: nat, len: int, wide: bool)
  {
    !wide && len >= 0 && at + len + 2 > INT64_MAX
  }

  /** k bulk strings from i on. */
  function Bulks(b: Bytes, i: nat, k: nat, wide: bool): (r: Verdict)
    requires i <= |b|
    ensures r.Ok? ==> i <= r.consumed <= |b| && |r.argv| == k
    decreases k
  {
    if k == 0 then Ok([], i)
    else if i >= |b| then NeedMore
    else if b[i] != DOLLAR then Bad
    else
      match Line(b, i + 1)
      case None => NeedMore
      case Some((v, at)) =>
        var len := Held(v, wide);
        if len < 0 then Before([], Bulks(b, at, k - 1, wide))
        else if PastEnd(at, len, wide) then Crash
        else if at + len + 2 > |b| then NeedMore
        else Before(b[at..at + len], Bulks(b, at + len + 2, k - 1, wide))
  }

  function Before(arg: Bytes, r: Verdict): (r': Verdict)
  {
    match r
    case Ok(argv, consumed) => Ok([arg] + argv, consumed)
    case _ => r
  }

  function IndexOf(b: Bytes, c: Byte, i: nat): (k: Option<nat>)
    requires i <= |b|
    ensures k.Some? ==> i <= k.value < |b| && b[k.value] == c
    decreases |b| - i
  {
    if i == |b| then None else if b[i] == c then Some(i) else IndexOf(b, c, i + 1)
  }

  /** Where the run of bytes that are (or are not) spaces from i on ends. */
  function RunEnd(line: Bytes, i: nat, spaces: bool): (e: nat)
    requires i <= |line|
    ensures i <= e <= |line|
    decreases |line| - i
  {
    if i < |line| && (line[i] == SPACE) == spaces then RunEnd(line, i + 1, spaces) else i
  }

  /** The words of a line. */
  function Words(line: Bytes, i: nat): (ws: seq<Bytes>)
    requires i <= |line|
    decreases |line| - i
  {
    var s := RunEnd(line, i, true);
    if s >= |line| then []
    else
      WordMoves(line, i);
      [line[s..RunEnd(line, s, false)]] + Words(line, RunEnd(line, s, false))
  }

  lemma RunStops(line: Bytes, i: nat, spaces: bool)
    requires i <= |line|
    ensures var e := RunEnd(line, i, spaces); e < |line| ==> (line[e] == SPACE) != spaces
    ensures i < |line| && (line[i] == SPACE) == spaces ==> RunEnd(line, i, spaces) > i
    decreases |line| - i
  {
    if i < |line| && (line[i] == SPACE) == spaces { RunStops(line, i + 1, spaces); }
  }

  lemma WordMoves(line: Bytes, i: nat)
    requires i <= |line| && RunEnd(line, i, true) < |line|
    ensures RunEnd(line, RunEnd(line, i, true), false) > i
  {
    RunStops(line, i, true);
    RunStops(line, RunEnd(line, i, true), false);
  }

  /** A line without its ending. */
  function Trimmed(b: Bytes, nl: nat): (line: Bytes)
    requires nl <= |b|
  {
    if nl > 0 && b[nl - 1] == CR then b[..nl - 1] else b[..nl]
  }

  /** One command off the front of the bytes, its numbers exact or in int64s. */
  function Judged(b: Bytes, wide: bool): (r: Verdict)
    ensures r.Ok? ==> 0 < r.consumed <= |b|
  {
    if |b| == 0 then NeedMore
    else if b[0] != STAR then
      match IndexOf(b, LF, 0)
      case None => NeedMore
      case Some(nl) => Ok(Words(Trimmed(b, nl), 0), nl + 1)
    else
      match Line(b, 1)
      case None => NeedMore
      case Some((v, i)) => if Held(v, wide) <= 0 then Ok([], i) else Bulks(b, i, Held(v, wide), wide)
  }

  /** parse. */
  function Parsed(b: Bytes): (r: Verdict)
    ensures r.Ok? ==> 0 < r.consumed <= |b|
  {
    Judged(b, false)
  }

  /* More bytes never change a verdict that was reached. */

  lemma {:induction false} DigitsEndStable(b: Bytes, more: Bytes, i: nat)
    requires i <= |b| && DigitsEnd(b, i) < |b|
    ensures DigitsEnd(b + more, i) == DigitsEnd(b, i)
    decreases |b| - i
  {
    if i < |b| && IsDigit(b[i]) { DigitsEndStable(b, more, i + 1); }
  }

  lemma LineStable(b: Bytes, more: Bytes, i: nat)
    requires i <= |b| && Line(b, i).Some?
    ensures Line(b + more, i) == Line(b, i)
  {
    hide ParseDigits;
    var s := if i < |b| && b[i] == MINUS then i + 1 else i;
    DigitsEndStable(b, more, s);
    var e := DigitsEnd(b, s);
    assert (b + more)[s..e] == b[s..e];
  }

  lemma {:induction false} BulksStable(b: Bytes, more: Bytes, i: nat, k: nat, wide: bool)
    requires i <= |b| && !Bulks(b, i, k, wide).NeedMore?
    ensures Bulks(b + more, i, k, wide) == Bulks(b, i, k, wide)
    decreases k
  {
    hide Line, Wrap64;
    if k > 0 && b[i] == DOLLAR {
      LineStable(b, more, i + 1);
      var (v, at) := Line(b, i + 1).value;
      var len := Held(v, wide);
      if len < 0 {
        BulksStable(b, more, at, k - 1, wide);
      } else if !PastEnd(at, len, wide) {
        BulksStable(b, more, at + len + 2, k - 1, wide);
        assert (b + more)[at..at + len] == b[at..at + len];
      }
    }
  }

  lemma {:induction false} IndexOfStable(b: Bytes, more: Bytes, c: Byte, i: nat)
    requires i <= |b| && IndexOf(b, c, i).Some?
    ensures IndexOf(b + more, c, i) == IndexOf(b, c, i)
    decreases |b| - i
  {
    if i < |b| && b[i] != c { IndexOfStable(b, more, c, i + 1); }
  }

  /** A command, an error or a crash, once seen, is what any longer input starts with. */
  lemma VerdictStable(b: Bytes, more: Bytes, wide: bool)
    requires !Judged(b, wide).NeedMore?
    ensures Judged(b + more, wide) == Judged(b, wide)
  {
    hide Line, Words, Bulks, IndexOf, Wrap64;
    if b[0] != STAR {
      IndexOfStable(b, more, LF, 0);
      var nl := IndexOf(b, LF, 0).value;
      assert (b + more)[..nl] == b[..nl];
      assert nl > 0 ==> (b + more)[..nl - 1] == b[..nl - 1];
    } else {
      LineStable(b, more, 1);
      var (v, i) := Line(b, 1).value;
      if Held(v, wide) > 0 { BulksStable(b, more, i, Held(v, wide), wide); }
    }
  }

  /* What the array writer writes, the parser reads. */

  /** writeBulk. */
  function Bulk(b: Bytes): (s: Bytes)
  {
    [DOLLAR] + Digits(|b|) + [CR, LF] + b + [CR, LF]
  }

  /** writeArrayHeader. */
  function Header(n: nat): (s: Bytes)
  {
    [STAR] + Digits(n) + [CR, LF]
  }

  /** A header, then one bulk string after another. */
  function BulkArray(ms: seq<Bytes>): (s: Bytes)
  {
    Header(|ms|) + All(Bulk, ms)
  }

  lemma {:induction false} DigitsEndIs(b: Bytes, i: nat, e: nat)
    requires i <= e < |b| && (forall k :: i <= k < e ==> IsDigit(b[k])) && !IsDigit(b[e])
    ensures DigitsEnd(b, i) == e
    decreases e - i
  {
    if i < e { DigitsEndIs(b, i + 1, e); }
  }

  /** A length line reads back. */
  lemma LineReads(pre: Bytes, n: nat, rest: Bytes)
    ensures Line(pre + (Digits(n) + [CR, LF] + rest), |pre|) == Some((n, |pre| + |Digits(n)| + 2))
  {
    hide Digits, ParseDigits, DigitsEnd;
    var ds := Digits(n);
    var b := pre + (ds + [CR, LF] + rest);
    var s, e := |pre|, |pre| + |ds|;
    assert forall k :: s <= k < e ==> b[k] == ds[k - s];
    assert b[e] == CR && b[e + 1] == LF;
    assert b[s] == ds[0] && IsDigit(b[s]) && b[s] != MINUS;
    DigitsEndIs(b, s, e);
    assert b[s..e] == ds;
    ParseDigitsOfDigits(n);
  }

  lemma BulkParts(pre: Bytes, m: Bytes, rest: Bytes)
    ensures pre + (Bulk(m) + rest) == (pre + [DOLLAR]) + (Digits(|m|) + [CR, LF] + (m + [CR, LF] + rest))
  {
    hide Digits;
    var d, ds, end := [DOLLAR], Digits(|m|), [CR, LF];
    var tail := m + end;
    Regroup(d + ds + end, m, end);
    Regroup(d, ds, end);
    Regroup(d, ds + end, tail);
    Regroup(d, ds + end + tail, rest);
    Regroup(ds + end, tail, rest);
    Regroup(pre, d, ds + end + (tail + rest));
  }

  lemma Regroup(a: Bytes, b: Bytes, c: Bytes)
    ensures a + b + c == a + (b + c)
  {
  }

  lemma {:induction false} BulksRead(pre: Bytes, ms: seq<Bytes>, rest: Bytes, wide: bool)
    requires wide || |pre + (All(Bulk, ms) + rest)| <= INT64_MAX
    ensures Bulks(pre + (All(Bulk, ms) + rest), |pre|, |ms|, wide) == Ok(ms, |pre| + |All(Bulk, ms)|)
    decreases |ms|
  {
    hide Digits, Line, Bulks, Bulk, All;
    if ms == [] {
      BulksOfNone(pre, rest, wide);
    } else {
      var m, more := ms[0], All(Bulk, ms[1..]) + rest;
      var at := |pre| + 1 + |Digits(|m|)| + 2;
      AllFirst(Bulk, ms);
      Regroup(Bulk(m), All(Bulk, ms[1..]), rest);
      Regroup(pre, Bulk(m), more);
      BulkParts(pre, m, more);
      LineReads(pre + [DOLLAR], |m|, m + [CR, LF] + more);
      BulkBody(pre, m, more);
      BulksRead(pre + Bulk(m), ms[1..], rest, wide);
      OneMore(pre + (All(Bulk, ms) + rest), |pre|, |ms|, |m|, at, wide);
      assert ms == [m] + ms[1..];
    }
  }

  lemma BulksOfNone(pre: Bytes, rest: Bytes, wide: bool)
    ensures Bulks(pre + (All(Bulk, []) + rest), |pre|, 0, wide) == Ok([], |pre| + |All(Bulk, [])|)
  {
  }

  lemma BulkBody(pre: Bytes, m: Bytes, more: Bytes)
    ensures var b, at := pre + (Bulk(m) + more), |pre| + 1 + |Digits(|m|)| + 2;
            && at + |m| + 2 == |pre| + |Bulk(m)| <= |b| && b[at..at + |m|] == m && b[|pre|] == DOLLAR
  {
    hide Digits;
    BulkParts(pre, m, more);
    var head, end := (pre + [DOLLAR]) + (Digits(|m|) + [CR, LF]), [CR, LF];
    Regroup(pre + [DOLLAR], Digits(|m|) + end, m + end + more);
    Regroup(m, end, more);
    InMiddle(head, m, end + more);
  }

  lemma InMiddle(a: Bytes, m: Bytes, c: Bytes)
    ensures (a + (m + c))[|a|..|a| + |m|] == m
  {
  }

  lemma OneMore(b: Bytes, i: nat, k: nat, len: nat, at: nat, wide: bool)
    requires i < |b| && b[i] == DOLLAR && k > 0 && Line(b, i + 1) == Some((len, at)) && at + len + 2 <= |b|
    requires wide || |b| <= INT64_MAX
    ensures Bulks(b, i, k, wide) == Before(b[at..at + len], Bulks(b, at + len + 2, k - 1, wide))
  {
    hide Line;
  }

  /** Parsing an array reply gives back its strings and takes all of its bytes. */
  lemma ArrayReads(ms: seq<Bytes>, rest: Bytes, wide: bool)
    requires wide || |BulkArray(ms) + rest| <= INT64_MAX
    ensures Judged(BulkArray(ms) + rest, wide) == Ok(ms, |BulkArray(ms)|)
  {
    hide Digits, Line, Bulks, All, Wrap64;
    var b, head := BulkArray(ms) + rest, Header(|ms|);
    assert b == [STAR] + (Digits(|ms|) + [CR, LF] + (All(Bulk, ms) + rest));
    LineReads([STAR], |ms|, All(Bulk, ms) + rest);
    CountFits(ms);
    if |ms| > 0 {
      assert b == head + (All(Bulk, ms) + rest);
      BulksRead(head, ms, rest, wide);
    } else {
      AllFirst(Bulk, ms);
    }
  }

  /** Each string takes at least a byte of the array. */
  lemma {:induction false} CountFits(ms: seq<Bytes>)
    ensures |ms| <= |All(Bulk, ms)|
  {
    hide Bulk;
    if ms != [] {
      CountFits(ms[1..]);
      AllFirst(Bulk, ms);
      assert |Bulk(ms[0])| >= 1 by { BulkBody([], ms[0], []); }
    }
  }

  /** A strict prefix of an array is never judged: the parser waits. */
  lemma PrefixWaits(ms: seq<Bytes>, n: nat, wide: bool)
    requires n < |BulkArray(ms)| && (wide || |BulkArray(ms)| <= INT64_MAX)
    ensures Judged(BulkArray(ms)[..n], wide) == NeedMore
  {
    hide Judged, BulkArray;
    var b := BulkArray(ms);
    assert b + [] == b && b[..n] + b[n..] == b;
    ArrayReads(ms, [], wide);
    if !Judged(b[..n], wide).NeedMore? { VerdictStable(b[..n], b[n..], wide); }
  }

  /* Read boundaries. */

  datatype End = Open | Closed | Crashed

  /** What a drain makes of some bytes: the commands, what is left, and how it ended. */
  datatype Drained = Drained(commands: seq<seq<Bytes>>, rest: Bytes, end: End)

  function Drain(b: Bytes): (d: Drained)
    decreases |b|
  {
    match Parsed(b)
    case NeedMore => Drained([], b, Open)
    case Bad => Drained([], b, Closed)
    case Crash => Drained([], b, Crashed)
    case Ok(argv, n) => Then(argv, Drain(b[n..]))
  }

  function Then(argv: seq<Bytes>, d: Drained): (d': Drained)
  {
    Drained([argv] + d.commands, d.rest, d.end)
  }

  /** A drain followed by the next bytes. */
  function Fed(d: Drained, more: Bytes): (d': Drained)
  {
    if !d.end.Open? then d
    else
      var next := Drain(d.rest + more);
      Drained(d.commands + next.commands, next.rest, next.end)
  }

  /** Two drains that tell a client the same. */
  predicate Alike(a: Drained, b: Drained)
  {
    a.commands == b.commands && a.end == b.end && (a.end.Open? ==> a.rest == b.rest)
  }

  lemma DrainIs(b: Bytes)
    ensures !Parsed(b).Ok? ==> Drain(b) == Drained([], b, if Parsed(b).NeedMore? then Open else if Parsed(b).Bad? then Closed else Crashed)
    ensures Parsed(b).Ok? ==> Drain(b) == Then(Parsed(b).argv, Drain(b[Parsed(b).consumed..]))
  {
    hide Parsed;
  }

  lemma ParsedStable(b: Bytes, more: Bytes)
    requires !Parsed(b).NeedMore?
    ensures Parsed(b + more) == Parsed(b)
  {
    VerdictStable(b, more, false);
  }

  /** Bytes split anywhere give the commands of the whole. */
  lemma {:induction false} SplitAnywhere(a: Bytes, b: Bytes)
    ensures Alike(Drain(a + b), Fed(Drain(a), b))
    decreases |a|
  {
    hide Parsed, Drain;
    DrainIs(a);
    DrainIs(a + b);
    if Parsed(a).NeedMore? {
      assert Drain(a) == Drained([], a, Open);
      assert [] + Drain(a + b).commands == Drain(a + b).commands;
      return;
    }
    ParsedStable(a, b);
    if Parsed(a).Ok? {
      var argv, n := Parsed(a).argv, Parsed(a).consumed;
      assert (a + b)[n..] == a[n..] + b;
      SplitAnywhere(a[n..], b);
      var d := Drain(a[n..]);
      if d.end.Open? {
        assert ([argv] + d.commands) + Drain(d.rest + b).commands == [argv] + (d.commands + Drain(d.rest + b).commands);
      }
    }
  }

  /** The first k reads, one after another. */
  function Reads(chunks: seq<Bytes>, k: nat): (d: Drained)
    requires k <= |chunks|
  {
    if k == 0 then Drained([], [], Open) else Fed(Reads(chunks, k - 1), chunks[k - 1])
  }

  function Joined(chunks: seq<Bytes>, k: nat): (b: Bytes)
    requires k <= |chunks|
  {
    if k == 0 then [] else Joined(chunks, k - 1) + chunks[k - 1]
  }

  /** However the stream is cut into reads, the commands are those of the stream in one piece. */
  lemma {:induction false} ReadsAreWhole(chunks: seq<Bytes>, k: nat)
    requires k <= |chunks|
    ensures Alike(Reads(chunks, k), Drain(Joined(chunks, k)))
  {
    hide Drain, Parsed;
    if k == 0 {
      assert Drain([]) == Drained([], [], Open) by { NothingDrained(); }
    } else {
      ReadsAreWhole(chunks, k - 1);
      SplitAnywhere(Joined(chunks, k - 1), chunks[k - 1]);
    }
  }

  lemma NothingDrained()
    ensures Drain([]) == Drained([], [], Open)
  {
  }
}
