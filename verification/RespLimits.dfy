/** How the parser's int64 arithmetic compares with the numbers a client wrote (f1srv/conn.go, readIntLine and
    parse): when it misreads a length, when it crashes, and when neither. */
module RespLimits {
  import opened Bytes
  import opened Decimal
  import opened Resp

  /** The length line of a bulk string at p. */
  function Next(b: Bytes, p: nat): (r: Option<(int, nat)>)
    requires p <= |b|
    ensures r.Some? ==> p < |b| && b[p] == DOLLAR && r == Line(b, p + 1)
  {
    if p < |b| && b[p] == DOLLAR then Line(b, p + 1) else None
  }

  /** A length that an int64 holds, or that says null either way, and whose string ends within an int64. */
  predicate Fits(v: int, at: nat)
  {
    (v == Wrap64(v) || (v < 0 && Wrap64(v) < 0)) && !PastEnd(at, Wrap64(v), false)
  }

  /** In int64 arithmetic the bounds test lets such a length through, and the slice it then takes is not one of
      the n bytes at hand; every other length is added up as written. */
  lemma PastEndPanics(at: nat, len: nat, n: nat)
    requires at <= n < INT64_MAX - 1 && len <= INT64_MAX
    ensures var end := Wrap64(at + len);
            if PastEnd(at, len, false) then Wrap64(end + 2) <= n && !(at <= end <= n) else Wrap64(end + 2) == at + len + 2
  {
    hide Wrap64;
    WrapTurns(at + len, -1);
    WrapTwice(at + len, 2);
    WrapTurns(at + len + 2, -1);
  }

  predicate LineFits(b: Bytes, p: nat)
    requires p <= |b|
  {
    Next(b, p).Some? ==> Fits(Next(b, p).value.0, Next(b, p).value.1)
  }

  /** The length line after j bulk strings makes the parser crash. */
  predicate LineCrashes(b: Bytes, p: nat)
    requires p <= |b|
  {
    Next(b, p).Some? && PastEnd(Next(b, p).value.1, Wrap64(Next(b, p).value.0), false)
  }

  /** Every length line the parser reaches fits. */
  ghost predicate BulksFit(b: Bytes, i: nat, k: nat)
    requires i <= |b|
  {
    forall j: nat :: j < k && Bulks(b, i, j, false).Ok? ==> LineFits(b, Bulks(b, i, j, false).consumed)
  }

  /** Some length line the parser reaches crashes it. */
  ghost predicate BulksCrash(b: Bytes, i: nat, k: nat)
    requires i <= |b|
  {
    exists j: nat :: j < k && Bulks(b, i, j, false).Ok? && LineCrashes(b, Bulks(b, i, j, false).consumed)
  }

  /** The first bulk string, where the parser gets past it. */
  function First(b: Bytes, i: nat): (r: Option<(Bytes, nat)>)
    requires i <= |b|
    ensures r.Some? ==> r.value.1 <= |b|
  {
    match Next(b, i)
    case None => None
    case Some((v, at)) =>
      var len := Wrap64(v);
      if len < 0 then Some(([], at))
      else if PastEnd(at, len, false) || at + len + 2 > |b| then None
      else Some((b[at..at + len], at + len + 2))
  }

  lemma FirstOf(b: Bytes, i: nat, k: nat)
    requires i <= |b| && k > 0
    ensures match First(b, i)
            case None => !Bulks(b, i, k, false).Ok? && (Bulks(b, i, k, false).Crash? <==> LineCrashes(b, i))
            case Some((arg, q)) => Bulks(b, i, k, false) == Before(arg, Bulks(b, q, k - 1, false)) && !LineCrashes(b, i)
  {
    hide Line, Wrap64;
  }

  lemma FitStep(b: Bytes, i: nat, k: nat)
    requires i <= |b| && k > 0
    ensures BulksFit(b, i, k)
       <==> LineFits(b, i) && (First(b, i).Some? ==> BulksFit(b, First(b, i).value.1, k - 1))
  {
    hide First, LineFits, Bulks, Before;
    StepBack(b, i, k);
    assert Bulks(b, i, 0, false) == Ok([], i) by { NoBulks(b, i); }
    if BulksFit(b, i, k) {
      assert LineFits(b, i);
      if First(b, i).Some? {
        var q := First(b, i).value.1;
        forall j: nat | j < k - 1 && Bulks(b, q, j, false).Ok? ensures LineFits(b, Bulks(b, q, j, false).consumed) {
          assert Bulks(b, i, j + 1, false).Ok?;
        }
      }
    }
    if LineFits(b, i) && (First(b, i).Some? ==> BulksFit(b, First(b, i).value.1, k - 1)) {
      forall j: nat | j < k && Bulks(b, i, j, false).Ok? ensures LineFits(b, Bulks(b, i, j, false).consumed) {
        if j > 0 { assert Bulks(b, First(b, i).value.1, j - 1, false).Ok?; }
      }
    }
  }

  lemma CrashStep(b: Bytes, i: nat, k: nat)
    requires i <= |b| && k > 0
    ensures BulksCrash(b, i, k)
       <==> LineCrashes(b, i) || (First(b, i).Some? && BulksCrash(b, First(b, i).value.1, k - 1))
  {
    hide First, LineCrashes, Bulks, Before;
    StepBack(b, i, k);
    assert Bulks(b, i, 0, false) == Ok([], i) by { NoBulks(b, i); }
    if BulksCrash(b, i, k) {
      var j: nat :| j < k && Bulks(b, i, j, false).Ok? && LineCrashes(b, Bulks(b, i, j, false).consumed);
      if j > 0 { assert Bulks(b, First(b, i).value.1, j - 1, false).Ok?; }
    }
    if First(b, i).Some? && BulksCrash(b, First(b, i).value.1, k - 1) {
      var q := First(b, i).value.1;
      var j: nat :| j < k - 1 && Bulks(b, q, j, false).Ok? && LineCrashes(b, Bulks(b, q, j, false).consumed);
      assert Bulks(b, i, j + 1, false).Ok?;
    }
  }

  lemma NoBulks(b: Bytes, i: nat)
    requires i <= |b|
    ensures Bulks(b, i, 0, false) == Ok([], i)
  {
  }

  /** Reading j + 1 strings is reading one and then j. */
  lemma StepBack(b: Bytes, i: nat, k: nat)
    requires i <= |b|
    ensures First(b, i).None? ==> forall j: nat :: 0 < j <= k ==> !Bulks(b, i, j, false).Ok?
    ensures First(b, i).Some? ==>
              forall j: nat {:trigger Bulks(b, First(b, i).value.1, j, false)} {:trigger Bulks(b, i, j + 1, false)} :: j < k ==>
                var r := Bulks(b, First(b, i).value.1, j, false);
                && (Bulks(b, i, j + 1, false).Ok? <==> r.Ok?)
                && (r.Ok? ==> Bulks(b, i, j + 1, false).consumed == r.consumed)
  {
    hide First, Bulks;
    forall j: nat | 0 < j <= k ensures First(b, i).None? ==> !Bulks(b, i, j, false).Ok? { FirstOf(b, i, j); }
    if First(b, i).Some? {
      forall j: nat | j < k ensures
          var r := Bulks(b, First(b, i).value.1, j, false);
          && (Bulks(b, i, j + 1, false).Ok? <==> r.Ok?)
          && (r.Ok? ==> Bulks(b, i, j + 1, false).consumed == r.consumed) {
        FirstOf(b, i, j + 1);
      }
    }
  }

  /** With every line fitting, the parser reads what was written. */
  lemma {:induction false} FitAgrees(b: Bytes, i: nat, k: nat)
    requires i <= |b| && BulksFit(b, i, k)
    ensures Bulks(b, i, k, false) == Bulks(b, i, k, true)
    decreases k
  {
    hide *;
    if k == 0 {
      NoneEither(b, i);
    } else {
      FitStep(b, i, k);
      FirstOf(b, i, k);
      FitFirst(b, i, k);
      if First(b, i).Some? { FitAgrees(b, First(b, i).value.1, k - 1); }
    }
  }

  lemma NoneEither(b: Bytes, i: nat)
    requires i <= |b|
    ensures Bulks(b, i, 0, false) == Bulks(b, i, 0, true)
  {
  }

  /** A line that fits is read the same way by both readers. */
  lemma FitFirst(b: Bytes, i: nat, k: nat)
    requires i <= |b| && k > 0 && LineFits(b, i)
    ensures First(b, i).None? ==> Bulks(b, i, k, true) == Bulks(b, i, k, false)
    ensures First(b, i).Some? ==> Bulks(b, i, k, true) == Before(First(b, i).value.0, Bulks(b, First(b, i).value.1, k - 1, true))
  {
    hide Line, Wrap64;
  }

  /** It crashes exactly at a length whose string would end past every int64. */
  lemma {:induction false} CrashExactly(b: Bytes, i: nat, k: nat)
    requires i <= |b|
    ensures Bulks(b, i, k, false).Crash? <==> BulksCrash(b, i, k)
    decreases k
  {
    hide First, LineCrashes, Bulks;
    if k == 0 {
      NoBulks(b, i);
    } else {
      CrashStep(b, i, k);
      FirstOf(b, i, k);
      if First(b, i).Some? { CrashExactly(b, First(b, i).value.1, k - 1); }
    }
  }

  /** A length line cannot run into another string's dollar sign. */
  lemma DollarEnds(b: Bytes, p: nat)
    requires p + 1 < |b| && b[p + 1] == DOLLAR
    ensures Line(b, p) == None
  {
  }

  /** Strings read from two places two bytes apart are never both whole. */
  lemma TwoApart(b: Bytes, at: nat, k: nat)
    requires at + 2 <= |b| && Bulks(b, at, k, true).Ok? && Bulks(b, at + 2, k, false).Ok?
    ensures Bulks(b, at, k, true).consumed != Bulks(b, at + 2, k, false).consumed
  {
    if k > 0 { DollarEnds(b, at + 1); }
  }

  /** Where both readers make out a string, what each has left to read. */
  lemma WideFirst(b: Bytes, i: nat, k: nat)
    requires i <= |b| && k > 0 && Bulks(b, i, k, true).Ok? && Next(b, i).Some?
    ensures var (v, at) := Next(b, i).value;
            if v < 0 then Bulks(b, i, k, true) == Before([], Bulks(b, at, k - 1, true))
            else at + v + 2 <= |b| && Bulks(b, i, k, true) == Before(b[at..at + v], Bulks(b, at + v + 2, k - 1, true))
  {
    hide Line;
  }

  lemma BeforeSame(x: Bytes, r: Verdict, y: Bytes, s: Verdict)
    requires Before(x, r).Ok? && Before(x, r) == Before(y, s)
    ensures x == y && r == s && r.Ok?
  {
    assert Before(x, r).argv[0] == x && Before(y, s).argv[0] == y;
    assert Before(x, r).argv[1..] == r.argv && Before(y, s).argv[1..] == s.argv;
  }

  lemma AgreedFirst(b: Bytes, i: nat, k: nat)
    requires i <= |b| <= INT64_MAX && k > 0 && Bulks(b, i, k, false).Ok? && Bulks(b, i, k, false) == Bulks(b, i, k, true)
    ensures First(b, i).Some? && LineFits(b, i)
    ensures var q := First(b, i).value.1; Bulks(b, q, k - 1, false).Ok? && Bulks(b, q, k - 1, false) == Bulks(b, q, k - 1, true)
  {
    hide *;
    FirstOf(b, i, k);
    assert First(b, i).Some?;
    NextOf(b, i);
    WideFirst(b, i, k);
    var (v, at) := Next(b, i).value;
    if v < 0 {
      BeforeSame(First(b, i).value.0, Bulks(b, First(b, i).value.1, k - 1, false), [], Bulks(b, at, k - 1, true));
      NullBoth(b, i, k);
    } else {
      BeforeSame(First(b, i).value.0, Bulks(b, First(b, i).value.1, k - 1, false), b[at..at + v], Bulks(b, at + v + 2, k - 1, true));
      SameLength(b, i);
    }
  }

  lemma NextOf(b: Bytes, i: nat)
    requires i <= |b| && First(b, i).Some?
    ensures Next(b, i).Some?
  {
  }

  lemma SameLength(b: Bytes, i: nat)
    requires i <= |b| <= INT64_MAX && First(b, i).Some? && Next(b, i).value.0 >= 0
    requires Next(b, i).value.1 + Next(b, i).value.0 + 2 <= |b|
    ensures LineFits(b, i) && First(b, i).value.1 == Next(b, i).value.1 + Next(b, i).value.0 + 2
  {
    hide Line, Wrap64;
  }

  lemma NullBoth(b: Bytes, i: nat, k: nat)
    requires i <= |b| && k > 0 && First(b, i).Some? && First(b, i).value.0 == [] && Next(b, i).value.0 < 0
    requires var q, at := First(b, i).value.1, Next(b, i).value.1;
             Bulks(b, q, k - 1, false).Ok? && Bulks(b, q, k - 1, false) == Bulks(b, at, k - 1, true)
    ensures LineFits(b, i) && First(b, i).value.1 == Next(b, i).value.1
  {
    hide Line, Wrap64, Bulks;
    if Wrap64(Next(b, i).value.0) >= 0 { TwoApart(b, Next(b, i).value.1, k - 1); }
  }

  /** A command the parser makes out is the one that was written only if every line fits. */
  lemma {:induction false} AgreedFit(b: Bytes, i: nat, k: nat)
    requires i <= |b| <= INT64_MAX && Bulks(b, i, k, false).Ok? && Bulks(b, i, k, false) == Bulks(b, i, k, true)
    ensures BulksFit(b, i, k)
    decreases k
  {
    hide Bulks, First, LineFits;
    if k > 0 {
      FitStep(b, i, k);
      AgreedFirst(b, i, k);
      AgreedFit(b, First(b, i).value.1, k - 1);
    }
  }

  /** A count that an int64 holds, or that says nothing follows either way. */
  predicate CountFits(v: int)
  {
    v == Wrap64(v) || (v <= 0 && Wrap64(v) <= 0)
  }

  /** Every number the parser reads off the front of the bytes fits. */
  ghost predicate Framed(b: Bytes)
  {
    b != [] && b[0] == STAR && Line(b, 1).Some? ==>
      var (v, i) := Line(b, 1).value;
      CountFits(v) && (Wrap64(v) > 0 ==> BulksFit(b, i, Wrap64(v)))
  }

  ghost predicate Crashes(b: Bytes)
  {
    b != [] && b[0] == STAR && Line(b, 1).Some? &&
      var (v, i) := Line(b, 1).value;
      Wrap64(v) > 0 && BulksCrash(b, i, Wrap64(v))
  }

  /** Bytes whose numbers all fit are judged as by a reader without limits. */
  lemma FramedAgrees(b: Bytes)
    requires Framed(b)
    ensures Parsed(b) == Judged(b, true)
  {
    hide Line, Bulks, Wrap64;
    if b != [] && b[0] == STAR && Line(b, 1).Some? {
      var (v, i) := Line(b, 1).value;
      if Wrap64(v) > 0 { FitAgrees(b, i, Wrap64(v)); }
    }
  }

  /** The command the server runs is the one the client wrote if and only if every number in it fits. */
  lemma CommandExact(b: Bytes)
    requires |b| <= INT64_MAX && Parsed(b).Ok?
    ensures Parsed(b) == Judged(b, true) <==> Framed(b)
  {
    hide Line, Bulks, Wrap64, BulksFit;
    if Framed(b) {
      FramedAgrees(b);
    } else if Parsed(b) == Judged(b, true) {
      var (v, i) := Line(b, 1).value;
      if Wrap64(v) > 0 && v > 0 { assert v == |Judged(b, true).argv| == Wrap64(v); }
      AgreedFit(b, i, Wrap64(v));
    }
  }

  /** The server goes down if and only if it reaches a length whose string would end past every int64. */
  lemma CrashExact(b: Bytes)
    ensures Parsed(b).Crash? <==> Crashes(b)
  {
    hide Line, Bulks, Wrap64, BulksCrash;
    if b != [] && b[0] == STAR && Line(b, 1).Some? {
      var (v, i) := Line(b, 1).value;
      if Wrap64(v) > 0 { CrashExactly(b, i, Wrap64(v)); }
    }
  }

  /** One string of a declared length, and some bytes. */
  function Declared(n: nat, rest: Bytes): (b: Bytes)
  {
    Header(1) + ([DOLLAR] + Digits(n) + [CR, LF] + rest)
  }

  lemma DeclaredReads(n: nat, rest: Bytes)
    ensures var b := Declared(n, rest); var i, at := |Header(1)|, |b| - |rest|;
            && b != [] && b[0] == STAR && Line(b, 1) == Some((1, i)) && i < at
            && b[i] == DOLLAR && Line(b, i + 1) == Some((n, at)) && b[at..] == rest
  {
    hide Digits, Line;
    var b, head := Declared(n, rest), Header(1);
    var line := Digits(n) + [CR, LF] + rest;
    assert b == [STAR] + (Digits(1) + [CR, LF] + ([DOLLAR] + Digits(n) + [CR, LF] + rest));
    LineReads([STAR], 1, [DOLLAR] + Digits(n) + [CR, LF] + rest);
    assert b == (head + [DOLLAR]) + line;
    LineReads(head + [DOLLAR], n, rest);
  }

  lemma DeclaredJudged(n: nat, rest: Bytes, wide: bool)
    ensures var b := Declared(n, rest); var at, len := |b| - |rest|, Held(n, wide);
            Judged(b, wide) == if len < 0 then Ok([[]], at)
                               else if PastEnd(at, len, wide) then Crash
                               else if len + 2 > |rest| then NeedMore
                               else Ok([rest[..len]], at + len + 2)
  {
    hide Line, Declared, Header, Wrap64;
    var b := Declared(n, rest);
    DeclaredReads(n, rest);
    var at, len := |b| - |rest|, Held(n, wide);
    assert Held(1, wide) == 1;
    assert Judged(b, wide) == Bulks(b, |Header(1)|, 1, wide);
    if 0 <= len && len + 2 <= |rest| { assert b[at..at + len] == b[at..][..len]; }
  }

  /** A declared length of 2^64 + 1 is taken for 1: the server runs a command nobody finished sending. */
  lemma LengthWraps()
    ensures var b := Declared(0x1_0000_0000_0000_0001, [120, CR, LF]);
            && Parsed(b) == Ok([[120]], |b|) && Judged(b, true) == NeedMore && !Framed(b)
  {
    hide Declared, Framed, Judged, Line;
    var n, rest := 0x1_0000_0000_0000_0001, [120, CR, LF];
    var b := Declared(n, rest);
    assert Held(n, false) == 1 && Held(n, true) == n;
    DeclaredReads(n, rest);
    DeclaredJudged(n, rest, false);
    DeclaredJudged(n, rest, true);
    assert rest[..1] == [120];
    assert |b| <= INT64_MAX by { Pow10Of19(); DeclaredLength(n, rest); }
    CommandExact(b);
  }

  lemma DeclaredLength(n: nat, rest: Bytes)
    requires n < Pow10(20)
    ensures |Declared(n, rest)| <= 40 + |rest|
  {
    DigitsWidth(n, 20);
    DigitsWidth(1, 1);
  }

  /** A declared length of 2^63 - 1 brings the server down, where a reader without limits would wait. */
  lemma LengthCrashes()
    ensures var b := Declared(INT64_MAX, []);
            Parsed(b) == Crash && Judged(b, true) == NeedMore && Crashes(b)
  {
    hide Declared, Judged, Crashes;
    assert Held(INT64_MAX, false) == INT64_MAX;
    DeclaredReads(INT64_MAX, []);
    DeclaredJudged(INT64_MAX, [], false);
    DeclaredJudged(INT64_MAX, [], true);
    CrashExact(Declared(INT64_MAX, []));
  }
}
