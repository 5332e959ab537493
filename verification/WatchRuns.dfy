/** Whole runs of any number of connections against a reference without versions or counters: it remembers
    when each watch was placed and every write since (f1srv/multi.go). */
module WatchRuns {
  import opened Bytes
  import opened Watch

  datatype Session = Session(inMulti: bool, aborted: bool, queue: seq<seq<Bytes>>)

  datatype Ref = Ref(sessions: map<Bytes, Session>, marks: Marks, log: seq<Event>)

  const Fresh: Session := Session(false, false, [])

  /** A step of the server.  `effects` are the writes of the queued commands, if the queue runs. */
  datatype Step =
    | Join(c: Bytes)
    | Leave(c: Bytes)
    | Watch(c: Bytes, keys: seq<Bytes>)
    | Unwatch(c: Bytes)
    | Begin(c: Bytes)
    | Enqueue(c: Bytes, argv: seq<Bytes>, known: bool)
    | Commit(c: Bytes, effects: seq<Event>)
    | Abandon(c: Bytes)
    | Reset(c: Bytes)
    | Effect(e: Event)

  datatype Said = Silent | Refused | Done | Result(outcome: Outcome)

  /** No key the connection watches was written since it was watched. */
  ghost predicate Clean(r: Ref, c: Bytes)
  {
    forall k :: (k, c) in r.marks ==> Untouched(r.log, r.marks[(k, c)], k)
  }

  ghost function Forgotten(r: Ref, c: Bytes): (r': Ref)
  {
    Ref(r.sessions[c := Fresh], WithoutConn(r.marks, c), r.log)
  }

  /** What the reference makes of a step. */
  ghost function Next(r: Ref, s: Step): (res: (Ref, Said))
  {
    match s
    case Effect(e) => (r.(log := r.log + [e]), Silent)
    case Join(c) => if c in r.sessions then (r, Silent) else (r.(sessions := r.sessions[c := Fresh]), Silent)
    case Leave(c) =>
      if c !in r.sessions then (r, Silent) else (Ref(r.sessions - {c}, WithoutConn(r.marks, c), r.log), Silent)
    case Watch(c, keys) =>
      if c !in r.sessions then (r, Silent)
      else if r.sessions[c].inMulti then (r, Refused)
      else (r.(marks := MarkedAll(r.marks, c, keys, |keys|, |r.log|)), Done)
    case Unwatch(c) =>
      if c !in r.sessions then (r, Silent) else (r.(marks := WithoutConn(r.marks, c)), Done)
    case Begin(c) =>
      if c !in r.sessions then (r, Silent)
      else if r.sessions[c].inMulti then (r, Refused)
      else (r.(sessions := r.sessions[c := Session(true, false, [])]), Done)
    case Enqueue(c, argv, known) =>
      if c !in r.sessions || !r.sessions[c].inMulti || argv == [] then (r, Silent)
      else
        var was := r.sessions[c];
        (r.(sessions := r.sessions[c := if known then was.(queue := was.queue + [argv]) else was.(aborted := true)]),
         if known then Done else Refused)
    case Commit(c, effects) =>
      if c !in r.sessions then (r, Silent)
      else
        var was := r.sessions[c];
        if !was.inMulti then (r, Result(NoMulti))
        else if was.aborted then (Forgotten(r, c), Result(ExecAbort))
        else if !Clean(r, c) then (Forgotten(r, c), Result(NilArray))
        else (Forgotten(r, c).(log := r.log + effects), Result(Ran(was.queue)))
    case Abandon(c) =>
      if c !in r.sessions then (r, Silent)
      else if !r.sessions[c].inMulti then (r, Refused)
      else (Forgotten(r, c), Done)
    case Reset(c) => if c !in r.sessions then (r, Silent) else (Forgotten(r, c), Done)
  }

  /** The first n steps. */
  ghost function After(r: Ref, steps: seq<Step>, n: nat): (res: (Ref, seq<Said>))
    requires n <= |steps|
  {
    if n == 0 then (r, [])
    else
      var (mid, said) := After(r, steps, n - 1);
      var (r', one) := Next(mid, steps[n - 1]);
      (r', said + [one])
  }

  ghost function SessionsOf(conns: map<Bytes, Client>): (m: map<Bytes, Session>)
    ensures m.Keys == conns.Keys
    ensures forall c :: c in m ==> m[c] == Session(conns[c].inMulti, conns[c].aborted, conns[c].queue)
  {
    map c | c in conns :: Session(conns[c].inMulti, conns[c].aborted, conns[c].queue)
  }

  /** The reference a server stands for. */
  ghost function RefOf(w: Watches): (r: Ref)
    reads w
  {
    Ref(SessionsOf(w.conns), w.marks, w.log)
  }

  lemma SessionPut(conns: map<Bytes, Client>, c: Bytes, v: Client)
    ensures SessionsOf(conns[c := v]) == SessionsOf(conns)[c := Session(v.inMulti, v.aborted, v.queue)]
  {
  }

  lemma SessionLess(conns: map<Bytes, Client>, c: Bytes)
    ensures SessionsOf(conns - {c}) == SessionsOf(conns) - {c}
  {
  }

  lemma SessionSame(conns: map<Bytes, Client>, conns': map<Bytes, Client>, c: Bytes)
    requires c in conns && conns'.Keys == conns.Keys && (forall d :: d in conns && d != c ==> conns'[d] == conns[d])
    requires conns'[c] == conns[c].(watched := conns'[c].watched)
    ensures SessionsOf(conns') == SessionsOf(conns)
  {
  }

  /** The watch list names exactly the connection's marks. */
  lemma CleanIs(w: Watches, c: Bytes)
    requires w.Valid() && c in w.conns
    ensures forall i :: 0 <= i < |w.conns[c].watched| ==> (w.conns[c].watched[i].key, c) in w.marks
    ensures AllUntouched(w.log, w.marks, c, w.conns[c].watched) <==> Clean(RefOf(w), c)
  {
    hide Counted, Untouched;
    var ws := w.conns[c].watched;
    OwnMarks(w.table, w.log, w.marks, c, ws);
    if AllUntouched(w.log, w.marks, c, ws) {
      forall k | (k, c) in w.marks ensures Untouched(w.log, w.marks[(k, c)], k) {
        var i :| 0 <= i < |ws| && ws[i].key == k;
      }
    }
  }

  /** The writes of a transaction that ran. */
  method Apply(w: Watches, effects: seq<Event>)
    requires w.Valid()
    modifies w`table, w`log
    ensures w.Valid() && w.log == old(w.log) + effects
  {
    hide Watches.Valid;
    var i := 0;
    while i < |effects|
      invariant 0 <= i <= |effects| && w.Valid() && w.log == old(w.log) + effects[..i]
    {
      match effects[i] {
        case Wrote(keys) => w.Write(keys);
        case Flushed => w.Flush();
      }
      i := i + 1;
    }
  }

  /** EXEC, its queue included. */
  method CommitStep(w: Watches, c: Bytes, effects: seq<Event>) returns (said: Said)
    requires w.Valid() && c in w.conns
    modifies w
    ensures w.Valid() && (RefOf(w), said) == Next(old(RefOf(w)), Commit(c, effects))
  {
    hide Watches.Valid, SessionsOf, Untouched;
    CleanIs(w, c);
    SessionPut(w.conns, c, Client([], false, false, []));
    var outcome := w.Exec(c);
    if outcome.Ran? {
      Apply(w, effects);
    }
    said := Result(outcome);
  }

  method SessionStep(w: Watches, s: Step) returns (said: Said)
    requires w.Valid() && (s.Watch? || s.Unwatch? || s.Begin? || s.Enqueue?) && s.c in w.conns
    modifies w
    ensures w.Valid() && (RefOf(w), said) == Next(old(RefOf(w)), s)
  {
    hide Watches.Valid, SessionsOf, Untouched;
    ghost var conns := w.conns;
    match s
    case Watch(c, keys) =>
      var ok := w.WatchKeys(c, keys);
      SessionSame(conns, w.conns, c);
      said := if ok then Done else Refused;
    case Unwatch(c) =>
      w.UnwatchAll(c);
      SessionSame(conns, w.conns, c);
      said := Done;
    case Begin(c) =>
      SessionPut(conns, c, Client(conns[c].watched, true, false, []));
      var ok := w.Multi(c);
      said := if ok then Done else Refused;
    case Enqueue(c, argv, known) =>
      if !w.conns[c].inMulti || argv == [] {
        return Silent;
      }
      var was := conns[c];
      SessionPut(conns, c, if known then was.(queue := was.queue + [argv]) else was.(aborted := true));
      w.Queue(c, argv, known);
      said := if known then Done else Refused;
  }

  /** One step of the server. */
  method StepOne(w: Watches, s: Step) returns (said: Said)
    requires w.Valid()
    modifies w
    ensures w.Valid() && (RefOf(w), said) == Next(old(RefOf(w)), s)
  {
    hide Watches.Valid, SessionsOf, Untouched;
    ghost var conns := w.conns;
    said := Silent;
    match s
    case Effect(e) => Apply(w, [e]);
    case Join(c) =>
      if c !in w.conns {
        SessionPut(conns, c, Client([], false, false, []));
        w.Connect(c);
      }
    case Leave(c) =>
      if c in w.conns {
        SessionLess(conns, c);
        w.Disconnect(c);
      }
    case Commit(c, effects) =>
      if c in w.conns {
        said := CommitStep(w, c, effects);
      }
    case Abandon(c) =>
      if c in w.conns {
        SessionPut(conns, c, Client([], false, false, []));
        if w.conns[c].inMulti {
          w.Discard(c);
          said := Done;
        } else {
          said := Refused;
        }
      }
    case Reset(c) =>
      if c in w.conns {
        SessionPut(conns, c, Client([], false, false, []));
        w.Discard(c);
        said := Done;
      }
    case _ =>
      if s.c in w.conns {
        said := SessionStep(w, s);
      }
  }

  /** Every run, whatever the connections do and in whatever order: counters and snapshots stay exact, and
      every reply is the reference's.  In particular EXEC runs its queue just when nothing its connection
      watches was written since, even if others stopped watching the key and started again. */
  method Run(w: Watches, steps: seq<Step>) returns (said: seq<Said>)
    requires w.Valid()
    modifies w
    ensures w.Valid() && (RefOf(w), said) == After(old(RefOf(w)), steps, |steps|)
  {
    hide Watches.Valid, Next;
    said := [];
    var n := 0;
    while n < |steps|
      invariant 0 <= n <= |steps| && w.Valid() && (RefOf(w), said) == After(old(RefOf(w)), steps, n)
    {
      var one := StepOne(w, steps[n]);
      said := said + [one];
      n := n + 1;
    }
  }
}
