/** WATCH and EXEC over whole runs, said of the steps alone: what is written between a watch and its EXEC decides whether
    the queue runs (f1srv/multi.go). */
module WatchLaws {
  import opened Bytes
  import opened Watch
  import opened WatchRuns

  /** A step after which a connection watches nothing. */
  predicate LetsGo(s: Step, c: Bytes)
  {
    (s.Leave? || s.Unwatch? || s.Commit? || s.Abandon? || s.Reset?) && s.c == c
  }

  /** The server after n steps, and what it says to one. */
  ghost function At(r: Ref, steps: seq<Step>, n: nat): (r': Ref)
    requires n <= |steps|
  {
    After(r, steps, n).0
  }

  ghost function SaidTo(r: Ref, steps: seq<Step>, n: nat): (s: Said)
    requires n < |steps|
  {
    Next(At(r, steps, n), steps[n]).1
  }

  lemma {:induction false} SaidIs(r: Ref, steps: seq<Step>, m: nat, n: nat)
    requires m < n <= |steps|
    ensures |After(r, steps, n).1| == n && After(r, steps, n).1[m] == SaidTo(r, steps, m)
  {
    hide Next;
    SaidCount(r, steps, n - 1);
    if m < n - 1 { SaidIs(r, steps, m, n - 1); }
  }

  lemma {:induction false} SaidCount(r: Ref, steps: seq<Step>, n: nat)
    requires n <= |steps|
    ensures |After(r, steps, n).1| == n
  {
    hide Next;
    if n > 0 { SaidCount(r, steps, n - 1); }
  }

  lemma AtNext(r: Ref, steps: seq<Step>, n: nat)
    requires n < |steps|
    ensures At(r, steps, n + 1) == Next(At(r, steps, n), steps[n]).0
  {
    hide Next;
  }

  /** Every watch was placed before now. */
  ghost predicate Dated(r: Ref)
  {
    forall m :: m in r.marks ==> r.marks[m] <= |r.log|
  }

  /** A step only adds to what has been written, and places watches only now. */
  lemma {:induction false} MarkedKeeps(marks: Marks, c: Bytes, keys: seq<Bytes>, n: nat, at: nat, m: Mark)
    requires n <= |keys|
    ensures var after := MarkedAll(marks, c, keys, n, at);
            && (m in marks ==> m in after && after[m] == marks[m])
            && (m !in marks && m in after ==> m.1 == c && m.0 in keys && after[m] == at)
    ensures m.1 == c && m.0 in keys[..n] ==> m in MarkedAll(marks, c, keys, n, at)
  {
    if n > 0 {
      MarkedKeeps(marks, c, keys, n - 1, at, m);
      assert keys[..n] == keys[..n - 1] + [keys[n - 1]];
    }
  }

  type Mark = (Bytes, Bytes)

  lemma StepKeeps(r: Ref, s: Step, m: Mark)
    ensures var r' := Next(r, s).0;
            && r.log <= r'.log
            && (m in r.marks && !LetsGo(s, m.1) ==> m in r'.marks && r'.marks[m] == r.marks[m])
            && (m !in r.marks && m in r'.marks ==> r'.marks[m] == |r.log|)
            && (m in r.marks && m in r'.marks ==> r'.marks[m] == r.marks[m])
  {
    hide Clean, MarkedAll;
    if s.Watch? { MarkedKeeps(r.marks, s.c, s.keys, |s.keys|, |r.log|, m); }
  }

  lemma {:induction false} DatedStays(r: Ref, steps: seq<Step>, n: nat)
    requires Dated(r) && n <= |steps|
    ensures Dated(At(r, steps, n))
  {
    hide Next;
    if n > 0 {
      DatedStays(r, steps, n - 1);
      AtNext(r, steps, n - 1);
      var a, b := At(r, steps, n - 1), At(r, steps, n);
      forall m | m in b.marks ensures b.marks[m] <= |b.log| { StepKeeps(a, steps[n - 1], m); }
    }
  }

  /** A watch stays as it was placed until its connection lets go. */
  lemma {:induction false} WatchStays(r: Ref, steps: seq<Step>, i: nat, n: nat, m: Mark)
    requires i <= n <= |steps| && m in At(r, steps, i).marks && forall x :: i <= x < n ==> !LetsGo(steps[x], m.1)
    ensures m in At(r, steps, n).marks && At(r, steps, n).marks[m] == At(r, steps, i).marks[m]
    ensures At(r, steps, i).log <= At(r, steps, n).log
    decreases n - i
  {
    hide Next, After, At;
    if i < n {
      WatchStays(r, steps, i, n - 1, m);
      AtNext(r, steps, n - 1);
      StepKeeps(At(r, steps, n - 1), steps[n - 1], m);
    }
  }

  lemma {:induction false} LogGrows(r: Ref, steps: seq<Step>, i: nat, n: nat)
    requires i <= n <= |steps|
    ensures At(r, steps, i).log <= At(r, steps, n).log
    decreases n - i
  {
    hide Next, After, At;
    if i < n {
      LogGrows(r, steps, i, n - 1);
      AtNext(r, steps, n - 1);
      StepKeeps(At(r, steps, n - 1), steps[n - 1], ([], []));
    }
  }

  /** A key is watched, then flushed or written before EXEC: the queue does not run. */
  lemma WrittenStops(r: Ref, steps: seq<Step>, c: Bytes, k: Bytes, i: nat, l: nat, j: nat)
    requires Dated(r) && i <= l < j < |steps| && (k, c) in At(r, steps, i).marks
    requires forall x :: i <= x < j ==> !LetsGo(steps[x], c)
    requires steps[l] == Effect(Flushed) || (steps[l].Effect? && steps[l].e.Wrote? && k in steps[l].e.keys)
    requires steps[j].Commit? && steps[j].c == c
    ensures var said := SaidTo(r, steps, j); said.Result? ==> !said.outcome.Ran?
  {
    hide At, After;
    var m := (k, c);
    DatedStays(r, steps, i);
    WatchStays(r, steps, i, l, m);
    WatchStays(r, steps, i, j, m);
    AtNext(r, steps, l);
    LogGrows(r, steps, l + 1, j);
    var a, b, end := At(r, steps, l), At(r, steps, l + 1), At(r, steps, j);
    assert b.log == a.log + [steps[l].e];
    assert end.log[|a.log|] == steps[l].e;
    assert Touches(end.log[|a.log|], k);
    assert !Untouched(end.log, end.marks[m], k);
  }

  /** What a step writes. */
  function Writes(s: Step): (es: seq<Event>)
  {
    match s
    case Effect(e) => [e]
    case Commit(_, effects) => effects
    case _ => []
  }

  /** A write that names none of these keys. */
  ghost predicate Spares(e: Event, held: iset<Bytes>)
  {
    e.Wrote? && forall k :: k in e.keys ==> k !in held
  }

  lemma LogStep(r: Ref, s: Step)
    ensures Next(r, s).0.log == r.log || Next(r, s).0.log == r.log + Writes(s)
  {
    hide Clean, MarkedAll;
  }

  /** The watches and the writes since a connection had none. */
  lemma {:induction false} SparedSince(r: Ref, steps: seq<Step>, c: Bytes, held: iset<Bytes>, i: nat, n: nat)
    requires i <= n <= |steps| && forall k :: (k, c) !in At(r, steps, i).marks
    requires forall x, e :: i <= x < n && e in Writes(steps[x]) ==> Spares(e, held)
    ensures var a, b := At(r, steps, i), At(r, steps, n);
            && a.log <= b.log && (forall k :: (k, c) in b.marks ==> b.marks[(k, c)] >= |a.log|)
            && forall x :: |a.log| <= x < |b.log| ==> Spares(b.log[x], held)
    decreases n - i
  {
    hide Next, After, At, Spares, Writes;
    if i < n {
      SparedSince(r, steps, c, held, i, n - 1);
      AtNext(r, steps, n - 1);
      var a, p, b := At(r, steps, i), At(r, steps, n - 1), At(r, steps, n);
      LogStep(p, steps[n - 1]);
      forall k | (k, c) in b.marks ensures b.marks[(k, c)] >= |a.log| { StepKeeps(p, steps[n - 1], (k, c)); }
      forall x | |a.log| <= x < |b.log| ensures Spares(b.log[x], held) {
        if x >= |p.log| { assert b.log[x] in Writes(steps[n - 1]); }
      }
    }
  }

  /** A connection that watched nothing, and since then only writes to keys it does not watch at its EXEC: EXEC does not
      reply nil. */
  lemma SparedRuns(r: Ref, steps: seq<Step>, c: Bytes, i: nat, j: nat)
    requires i <= j < |steps| && (forall k :: (k, c) !in At(r, steps, i).marks)
    requires forall x, e :: i <= x < j && e in Writes(steps[x]) ==>
               Spares(e, iset k | (k, c) in At(r, steps, j).marks)
    requires steps[j].Commit? && steps[j].c == c
    ensures SaidTo(r, steps, j) != Result(NilArray)
  {
    hide After, At;
    var held := iset k | (k, c) in At(r, steps, j).marks;
    SparedSince(r, steps, c, held, i, j);
    var b := At(r, steps, j);
    forall k | (k, c) in b.marks ensures Untouched(b.log, b.marks[(k, c)], k) {
      assert k in held;
      forall x | b.marks[(k, c)] <= x < |b.log| ensures !Touches(b.log[x], k) {
        assert Spares(b.log[x], held);
      }
    }
  }

  /** A WATCH outside a transaction takes hold of all its keys at once. */
  lemma WatchHolds(r: Ref, c: Bytes, keys: seq<Bytes>, k: Bytes)
    requires c in r.sessions && !r.sessions[c].inMulti && k in keys
    ensures (k, c) in Next(r, Step.Watch(c, keys)).0.marks
  {
    MarkedKeeps(r.marks, c, keys, |keys|, |r.log|, (k, c));
    assert keys[..|keys|] == keys;
  }

  /** ... and each of these steps lets go of all of them. */
  lemma LetGo(r: Ref, s: Step, c: Bytes, k: Bytes)
    requires c in r.sessions && LetsGo(s, c) && ((s.Commit? || s.Abandon?) ==> r.sessions[c].inMulti)
    ensures (k, c) !in Next(r, s).0.marks
  {
    hide Clean;
  }

  /** WATCH, MULTI, a command, a flush by another, EXEC: nil. */
  lemma FlushedBetween(c: Bytes, k: Bytes, argv: seq<Bytes>)
    requires argv != []
    ensures var steps := [Join(c), Step.Watch(c, [k]), Begin(c), Enqueue(c, argv, true), Effect(Flushed), Commit(c, [])];
            SaidTo(Ref(map[], map[], []), steps, 5) == Result(NilArray)
  {
    var r := Ref(map[], map[], []);
    var steps := [Join(c), Step.Watch(c, [k]), Begin(c), Enqueue(c, argv, true), Effect(Flushed), Commit(c, [])];
    hide After, At, Clean, WithoutConn;
    assert At(r, steps, 0) == r by { NoSteps(r, steps); }
    AtNext(r, steps, 0);
    AtNext(r, steps, 1);
    AtNext(r, steps, 2);
    AtNext(r, steps, 3);
    AtNext(r, steps, 4);
    WatchHolds(At(r, steps, 1), c, [k], k);
    assert (k, c) in At(r, steps, 2).marks;
    WrittenStops(r, steps, c, k, 2, 4, 5);
  }

  lemma NoSteps(r: Ref, steps: seq<Step>)
    ensures At(r, steps, 0) == r
  {
  }

  /** A step that ends a connection's transaction or the connection. */
  predicate Ends(s: Step, c: Bytes)
  {
    (s.Leave? || s.Commit? || s.Abandon? || s.Reset?) && s.c == c
  }

  /** The commands a connection queues, in order, and whether one of them is unknown. */
  function Queued(steps: seq<Step>, c: Bytes): (q: (seq<seq<Bytes>>, bool))
  {
    if steps == [] then ([], false)
    else
      var (q, bad) := Queued(steps[..|steps| - 1], c);
      var s := steps[|steps| - 1];
      if s.Enqueue? && s.c == c && s.argv != [] then (if s.known then (q + [s.argv], bad) else (q, true)) else (q, bad)
  }

  /** One more step of a transaction that is open. */
  lemma QueueStep(r: Ref, s: Step, c: Bytes, was: Session)
    requires c in r.sessions && r.sessions[c] == was && was.inMulti && !Ends(s, c)
    ensures var r' := Next(r, s).0;
            && c in r'.sessions
            && r'.sessions[c] == (if s.Enqueue? && s.c == c && s.argv != [] then
                                    (if s.known then was.(queue := was.queue + [s.argv]) else was.(aborted := true))
                                  else was)
  {
    hide Clean, MarkedAll, WithoutConn;
  }

  /** Between MULTI and EXEC the queue is what was queued, in order. */
  lemma {:induction false} QueueIs(r: Ref, steps: seq<Step>, c: Bytes, i: nat, n: nat)
    requires i < n <= |steps| && steps[i] == Begin(c) && c in At(r, steps, i).sessions && !At(r, steps, i).sessions[c].inMulti
    requires forall x :: i < x < n ==> !Ends(steps[x], c)
    ensures var (q, bad) := Queued(steps[i + 1..n], c);
            c in At(r, steps, n).sessions && At(r, steps, n).sessions[c] == Session(true, bad, q)
    decreases n - i
  {
    hide Next, After, At;
    AtNext(r, steps, n - 1);
    if n == i + 1 {
      assert steps[i + 1..n] == [];
      BeginStep(At(r, steps, i), c);
    } else {
      QueueIs(r, steps, c, i, n - 1);
      assert steps[i + 1..n][..n - i - 2] == steps[i + 1..n - 1] && steps[i + 1..n][n - i - 2] == steps[n - 1];
      var (q, bad) := Queued(steps[i + 1..n - 1], c);
      QueueStep(At(r, steps, n - 1), steps[n - 1], c, Session(true, bad, q));
    }
  }

  lemma BeginStep(r: Ref, c: Bytes)
    requires c in r.sessions && !r.sessions[c].inMulti
    ensures c in Next(r, Begin(c)).0.sessions && Next(r, Begin(c)).0.sessions[c] == Session(true, false, [])
  {
  }

  /** EXEC runs exactly the commands queued since MULTI, in order, or replies nil; with an unknown one among them it
      does neither. */
  lemma ExecRuns(r: Ref, steps: seq<Step>, c: Bytes, i: nat, j: nat)
    requires i < j < |steps| && steps[i] == Begin(c) && c in At(r, steps, i).sessions && !At(r, steps, i).sessions[c].inMulti
    requires (forall x :: i < x < j ==> !Ends(steps[x], c)) && steps[j].Commit? && steps[j].c == c
    ensures var (q, bad) := Queued(steps[i + 1..j], c);
            var said := SaidTo(r, steps, j);
            if bad then said == Result(ExecAbort) else said == Result(NilArray) || said == Result(Ran(q))
  {
    hide After, At, Clean, Queued;
    QueueIs(r, steps, c, i, j);
  }
}
