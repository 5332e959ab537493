/** The WATCH version table and EXEC (f1srv/multi.go). */
module Watch {
  import opened Bytes
  import opened HashCells
  import opened HashTally

  datatype Entry = Entry(ver: nat, refs: int)
  datatype Watched = Watched(key: Bytes, ver: nat)

  /** A connection: its watch list and its open transaction. */
  datatype Client = Client(watched: seq<Watched>, inMulti: bool, aborted: bool, queue: seq<seq<Bytes>>)

  /** A command that wrote: the keys it names, or every key. */
  datatype Event = Wrote(keys: seq<Bytes>) | Flushed

  datatype Outcome = NoMulti | ExecAbort | NilArray | Ran(queue: seq<seq<Bytes>>)

  predicate Touches(e: Event, k: Bytes)
  {
    e.Flushed? || k in e.keys
  }

  /** No write since step m names the key. */
  ghost predicate Untouched(log: seq<Event>, m: nat, k: Bytes)
  {
    forall j :: m <= j < |log| ==> !Touches(log[j], k)
  }

  lemma UntouchedStep(log: seq<Event>, m: nat, k: Bytes, e: Event)
    requires m <= |log|
    ensures Untouched(log + [e], m, k) <==> Untouched(log, m, k) && !Touches(e, k)
  {
    assert (log + [e])[|log|] == e;
    assert forall j :: m <= j < |log| ==> (log + [e])[j] == log[j];
  }

  ghost function RefsOf(table: map<Bytes, Entry>): (m: map<Bytes, int>)
    ensures forall k :: k in m <==> k in table
    ensures forall k :: k in m ==> m[k] == table[k].refs
  {
    map k | k in table :: table[k].refs
  }

  /** Watches are pairs of a key and a connection. */
  type Marks = map<Row, nat>

  /** The table counts, per key, the connections that watch it, and has an entry for no other key. */
  ghost predicate Counted(table: map<Bytes, Entry>, watching: int, marks: Marks)
  {
    Tally(RefsOf(table), marks.Keys, [], 0) && watching == |marks.Keys|
  }

  /** A connection's snapshots: one per key, its version behind the table's just when the key was written
      since. */
  ghost predicate Snapshots(table: map<Bytes, Entry>, log: seq<Event>, marks: Marks, c: Bytes, ws: seq<Watched>)
  {
    && (forall i, j :: 0 <= i < j < |ws| ==> ws[i].key != ws[j].key)
    && (forall i :: 0 <= i < |ws| ==> Snapshot(table, log, marks, c, ws[i]))
    && (forall k :: (k, c) in marks ==> exists i :: 0 <= i < |ws| && ws[i].key == k)
  }

  ghost predicate Snapshot(table: map<Bytes, Entry>, log: seq<Event>, marks: Marks, c: Bytes, w: Watched)
  {
    && (w.key, c) in marks && marks[(w.key, c)] <= |log|
    && w.key in table && w.ver <= table[w.key].ver
    && (w.ver == table[w.key].ver <==> Untouched(log, marks[(w.key, c)], w.key))
  }

  /** A watch of a key: the moment of the first one counts. */
  function Marked(marks: Marks, c: Bytes, key: Bytes, at: nat): (marks': Marks)
  {
    if (key, c) in marks then marks else marks[(key, c) := at]
  }

  /** ... of the first n keys. */
  function MarkedAll(marks: Marks, c: Bytes, keys: seq<Bytes>, n: nat, at: nat): (marks': Marks)
    requires n <= |keys|
  {
    if n == 0 then marks else Marked(MarkedAll(marks, c, keys, n - 1, at), c, keys[n - 1], at)
  }

  /** None of a connection's watched keys was written since it watched them. */
  ghost predicate AllUntouched(log: seq<Event>, marks: Marks, c: Bytes, ws: seq<Watched>)
    requires forall i :: 0 <= i < |ws| ==> (ws[i].key, c) in marks
  {
    forall i :: 0 <= i < |ws| ==> Untouched(log, marks[(ws[i].key, c)], ws[i].key)
  }

  lemma EntryHeld(table: map<Bytes, Entry>, watching: int, marks: Marks, k: Bytes)
    requires Counted(table, watching, marks)
    ensures k in table <==> exists c :: (k, c) in marks
    ensures k in table ==> table[k].refs >= 1
  {
    hide Tally;
    TallyAny(RefsOf(table), marks.Keys, [], k);
    HeaderMeans(RefsOf(table), marks.Keys, k);
    if k in table {
      var r :| r in marks.Keys && r.0 == k;
      assert (k, r.1) in marks;
      TallyPositive(RefsOf(table), marks.Keys, r);
    }
  }

  lemma RefsSet(table: map<Bytes, Entry>, k: Bytes, e: Entry)
    requires e.refs != 0
    ensures RefsOf(table[k := e]) == SetNum(RefsOf(table), k, e.refs)
  {
  }

  /** One more watcher of a key. */
  lemma CountWatch(table: map<Bytes, Entry>, watching: int, marks: Marks, r: Row, m: nat)
    requires Counted(table, watching, marks) && r !in marks
    ensures var e := if r.0 in table then table[r.0] else Entry(0, 0);
            Counted(table[r.0 := Entry(e.ver, e.refs + 1)], watching + 1, marks[r := m])
  {
    hide Tally, RefsOf, SetNum, Num;
    var e := if r.0 in table then table[r.0] else Entry(0, 0);
    EntryHeld(table, watching, marks, r.0);
    NumRefs(table, r.0);
    TallyMore(RefsOf(table), marks.Keys, r);
    RefsSet(table, r.0, Entry(e.ver, e.refs + 1));
    KeysPut(marks, r, m);
  }

  lemma NumRefs(table: map<Bytes, Entry>, k: Bytes)
    ensures Num(RefsOf(table), k) == if k in table then table[k].refs else 0
  {
  }

  /** The table when one watcher of a key leaves. */
  function Released(table: map<Bytes, Entry>, k: Bytes): (table': map<Bytes, Entry>)
  {
    if k !in table then table
    else
      var e := table[k].(refs := table[k].refs - 1);
      if e.refs <= 0 then table - {k} else table[k := e]
  }

  lemma CountUnwatch(table: map<Bytes, Entry>, watching: int, marks: Marks, r: Row)
    requires Counted(table, watching, marks) && r in marks
    ensures Counted(Released(table, r.0), watching - 1, marks - {r})
  {
    hide Tally, RefsOf, SetNum, Num;
    EntryHeld(table, watching, marks, r.0);
    NumRefs(table, r.0);
    TallyFewer(RefsOf(table), marks.Keys, r);
    RefsReleased(table, r.0);
    assert (marks - {r}).Keys == marks.Keys - {r};
  }

  lemma RefsReleased(table: map<Bytes, Entry>, k: Bytes)
    requires k in table && table[k].refs >= 1
    ensures RefsOf(Released(table, k)) == SetNum(RefsOf(table), k, table[k].refs - 1)
  {
  }

  /** The watches of every other connection. */
  ghost function WithoutConn(marks: Marks, c: Bytes): (m: Marks)
    ensures forall r :: r in m <==> r in marks && r.1 != c
    ensures forall r :: r in m ==> m[r] == marks[r]
  {
    map r | r in marks && r.1 != c :: marks[r]
  }

  lemma WithoutMore(marks: Marks, r: Row)
    ensures WithoutConn(marks - {r}, r.1) == WithoutConn(marks, r.1)
  {
  }

  lemma OwnMarks(table: map<Bytes, Entry>, log: seq<Event>, marks: Marks, c: Bytes, ws: seq<Watched>)
    requires Snapshots(table, log, marks, c, ws)
    ensures forall i :: 0 <= i < |ws| ==> (ws[i].key, c) in marks
    ensures forall i, j :: 0 <= i < j < |ws| ==> ws[i].key != ws[j].key
  {
  }

  lemma AllGone(table: map<Bytes, Entry>, log: seq<Event>, was: Marks, c: Bytes, ws: seq<Watched>, marks: Marks)
    requires Snapshots(table, log, was, c, ws) && marks.Keys <= was.Keys
    requires forall j :: 0 <= j < |ws| ==> (ws[j].key, c) !in marks
    ensures marks == WithoutConn(marks, c)
  {
    hide Snapshot;
    forall k | (k, c) in was ensures (k, c) !in marks {
      var i :| 0 <= i < |ws| && ws[i].key == k;
      assert (ws[i].key, c) !in marks;
    }
    assert forall r :: r in marks ==> r == (r.0, r.1);
  }

  /** One connection leaving a key costs no other watcher its snapshot. */
  lemma SnapshotsRelease(table: map<Bytes, Entry>, watching: int, log: seq<Event>, marks: Marks, c: Bytes, k: Bytes,
                         d: Bytes, ws: seq<Watched>)
    requires Counted(table, watching, marks) && (k, c) in marks && d != c && Snapshots(table, log, marks, d, ws)
    ensures Snapshots(Released(table, k), log, marks - {(k, c)}, d, ws)
  {
    hide Counted, Untouched;
    CountUnwatch(table, watching, marks, (k, c));
    var table', marks' := Released(table, k), marks - {(k, c)};
    forall i | 0 <= i < |ws| ensures Snapshot(table', log, marks', d, ws[i]) {
      assert Snapshot(table, log, marks, d, ws[i]);
      EntryHeld(table', watching - 1, marks', ws[i].key);
      assert (ws[i].key, d) in marks';
    }
  }

  /** The table after an event: versions of the keys it names have risen, nothing else has changed. */
  ghost predicate Bumped(was: map<Bytes, Entry>, now: map<Bytes, Entry>, e: Event)
  {
    && was.Keys == now.Keys
    && forall k :: k in was ==>
         now[k].refs == was[k].refs && was[k].ver <= now[k].ver && (was[k].ver == now[k].ver <==> !Touches(e, k))
  }

  lemma BumpOne(was: map<Bytes, Entry>, now: map<Bytes, Entry>, keys: seq<Bytes>, i: nat)
    requires i < |keys| && Bumped(was, now, Wrote(keys[..i]))
    ensures var k := keys[i];
            Bumped(was, if k in now then now[k := now[k].(ver := now[k].ver + 1)] else now, Wrote(keys[..i + 1]))
  {
    assert keys[..i + 1] == keys[..i] + [keys[i]];
  }

  lemma BumpNone(table: map<Bytes, Entry>)
    ensures Bumped(table, table, Wrote([]))
  {
  }

  /** With nobody watching the table is empty, so any event leaves it as it is. */
  lemma NobodyWatches(table: map<Bytes, Entry>, watching: int, marks: Marks, e: Event)
    requires Counted(table, watching, marks) && watching == 0
    ensures table == map[] && Bumped(table, table, e)
  {
    hide Tally;
    assert marks.Keys == {};
    forall k ensures k !in table { EntryHeld(table, watching, marks, k); }
  }

  /** An event leaves every snapshot true of the longer log. */
  lemma BumpKeeps(was: map<Bytes, Entry>, now: map<Bytes, Entry>, watching: int, log: seq<Event>, marks: Marks,
                  conns: map<Bytes, Client>, e: Event)
    requires Bumped(was, now, e) && Counted(was, watching, marks)
    requires forall c :: c in conns ==> Snapshots(was, log, marks, c, conns[c].watched)
    ensures Counted(now, watching, marks)
    ensures forall c :: c in conns ==> Snapshots(now, log + [e], marks, c, conns[c].watched)
  {
    hide Tally, Untouched;
    assert RefsOf(now) == RefsOf(was);
    forall c | c in conns ensures Snapshots(now, log + [e], marks, c, conns[c].watched) {
      var ws := conns[c].watched;
      assert Snapshots(was, log, marks, c, ws);
      forall i | 0 <= i < |ws| ensures Snapshot(now, log + [e], marks, c, ws[i]) {
        assert Snapshot(was, log, marks, c, ws[i]);
        UntouchedStep(log, marks[(ws[i].key, c)], ws[i].key, e);
      }
    }
  }

  class Watches {
    var table: map<Bytes, Entry>
    var watching: int
    var conns: map<Bytes, Client>
    ghost var log: seq<Event>     // every write so far
    ghost var marks: Marks        // when each watch was placed, as a position in the log

    ghost predicate Valid()
      reads this
    {
      && Counted(table, watching, marks)
      && (forall c :: c in conns ==> Snapshots(table, log, marks, c, conns[c].watched))
      && (forall r :: r in marks ==> r.1 in conns)
    }

    constructor ()
      ensures Valid() && conns == map[] && log == []
    {
      table, watching, conns, log, marks := map[], 0, map[], [], map[];
      new;
      assert forall k :: Of({}, k) == {};
    }

    /** watchDirty. */
    method WatchDirty(c: Bytes) returns (dirty: bool)
      requires Valid() && c in conns
      ensures dirty == !AllUntouched(log, marks, c, conns[c].watched)
    {
      hide Counted, Untouched;
      var ws := conns[c].watched;
      var i := 0;
      while i < |ws|
        invariant 0 <= i <= |ws|
        invariant forall j :: 0 <= j < i ==> Untouched(log, marks[(ws[j].key, c)], ws[j].key)
      {
        assert Snapshot(table, log, marks, c, ws[i]);
        if ws[i].key !in table || table[ws[i].key].ver != ws[i].ver {
          return true;
        }
        i := i + 1;
      }
      dirty := false;
    }

    /** A client connects. */
    method Connect(c: Bytes)
      requires Valid() && c !in conns
      modifies this`conns
      ensures Valid() && conns == old(conns)[c := Client([], false, false, [])]
    {
      hide Counted, Snapshot;
      conns := conns[c := Client([], false, false, [])];
    }

    /** watchKey: a key already watched keeps its first snapshot. */
    method WatchKey(c: Bytes, key: Bytes)
      requires Valid() && c in conns
      modifies this`table, this`watching, this`conns, this`marks
      ensures Valid() && conns.Keys == old(conns).Keys && (forall d :: d in conns && d != c ==> conns[d] == old(conns)[d])
      ensures conns[c] == old(conns)[c].(watched := conns[c].watched) && marks == Marked(old(marks), c, key, |log|)
    {
      hide Counted, Snapshots;
      var ws := conns[c].watched;
      OwnMarks(table, log, marks, c, ws);
      var i := 0;
      while i < |ws|
        invariant 0 <= i <= |ws| && forall j :: 0 <= j < i ==> ws[j].key != key
      {
        if ws[i].key == key {
          return;
        }
        i := i + 1;
      }
      assert (key, c) !in marks by { NotWatched(table, log, marks, c, ws, key); }
      AddWatch(c, key);
    }

    /** A first watch of a key by a connection. */
    method AddWatch(c: Bytes, key: Bytes)
      requires Valid() && c in conns && (key, c) !in marks
      modifies this`table, this`watching, this`conns, this`marks
      ensures Valid() && marks == old(marks)[(key, c) := |log|]
      ensures exists w :: conns == old(conns)[c := old(conns)[c].(watched := old(conns)[c].watched + [w])]
    {
      hide Counted, Snapshots;
      var e := if key in table then table[key] else Entry(0, 0);
      var e' := Entry(e.ver, e.refs + 1);
      CountWatch(table, watching, marks, (key, c), |log|);
      forall d | d in conns && d != c ensures Snapshots(table[key := e'], log, marks[(key, c) := |log|], d, conns[d].watched) {
        SnapshotsOther(table, log, marks, c, key, e', d, conns[d].watched);
      }
      SnapshotsOwn(table, log, marks, c, key, e', conns[c].watched);
      table := table[key := e'];
      watching := watching + 1;
      marks := marks[(key, c) := |log|];
      conns := conns[c := conns[c].(watched := conns[c].watched + [Watched(key, e.ver)])];
    }

    /** WATCH: refused inside a transaction. */
    method WatchKeys(c: Bytes, keys: seq<Bytes>) returns (ok: bool)
      requires Valid() && c in conns
      modifies this`table, this`watching, this`conns, this`marks
      ensures Valid() && conns.Keys == old(conns).Keys && ok == !old(conns)[c].inMulti
      ensures marks == if ok then MarkedAll(old(marks), c, keys, |keys|, |log|) else old(marks)
      ensures forall d :: d in conns && d != c ==> conns[d] == old(conns)[d]
      ensures conns[c] == old(conns)[c].(watched := conns[c].watched)
    {
      hide Valid;
      if conns[c].inMulti {
        return false;
      }
      var i := 0;
      while i < |keys|
        invariant 0 <= i <= |keys| && Valid() && conns.Keys == old(conns).Keys
        invariant marks == MarkedAll(old(marks), c, keys, i, |log|)
        invariant forall d :: d in conns && d != c ==> conns[d] == old(conns)[d]
        invariant conns[c] == old(conns)[c].(watched := conns[c].watched)
      {
        WatchKey(c, keys[i]);
        i := i + 1;
      }
      ok := true;
    }

    /** The other connections' snapshots hold, and the table counts the watches left. */
    ghost predicate Leaving(c: Bytes, gone: int)
      reads this
    {
      && Counted(table, watching - gone, marks)
      && (forall d :: d in conns && d != c ==> Snapshots(table, log, marks, d, conns[d].watched))
    }

    /** One key of a leaving connection's list. */
    method Release(c: Bytes, key: Bytes, ghost gone: int)
      requires Leaving(c, gone) && (key, c) in marks
      modifies this`table, this`marks
      ensures Leaving(c, gone + 1) && marks == old(marks) - {(key, c)}
    {
      hide Counted, Snapshots, Released;
      CountUnwatch(table, watching - gone, marks, (key, c));
      forall d | d in conns && d != c
        ensures Snapshots(Released(table, key), log, marks - {(key, c)}, d, conns[d].watched)
      {
        SnapshotsRelease(table, watching - gone, log, marks, c, key, d, conns[d].watched);
      }
      table := Released(table, key);
      marks := marks - {(key, c)};
    }

    /** unwatchAll. */
    method UnwatchAll(c: Bytes)
      requires Valid() && c in conns
      modifies this`table, this`watching, this`conns, this`marks
      ensures Valid() && conns == old(conns)[c := old(conns)[c].(watched := [])]
      ensures marks == WithoutConn(old(marks), c)
    {
      hide Counted, Snapshots, Leaving, WithoutConn;
      ghost var table0, marks0 := table, marks;
      var ws := conns[c].watched;
      OwnMarks(table, log, marks, c, ws);
      assert Leaving(c, 0) by { StartLeaving(c); }
      var i := 0;
      while i < |ws|
        invariant 0 <= i <= |ws| && conns == old(conns) && watching == old(watching) && Leaving(c, i)
        invariant forall j :: i <= j < |ws| ==> (ws[j].key, c) in marks
        invariant forall j :: 0 <= j < i ==> (ws[j].key, c) !in marks
        invariant WithoutConn(marks, c) == WithoutConn(old(marks), c) && marks.Keys <= old(marks).Keys
      {
        WithoutMore(marks, (ws[i].key, c));
        Release(c, ws[i].key, i);
        i := i + 1;
      }
      AllGone(table0, log, marks0, c, ws, marks);
      Left(c, |ws|);
      watching := watching - |ws|;
      conns := conns[c := conns[c].(watched := [])];
    }

    lemma StartLeaving(c: Bytes)
      requires Valid()
      ensures Leaving(c, 0)
    {
    }

    /** With its marks gone a connection's list may be emptied. */
    lemma Left(c: Bytes, gone: int)
      requires Leaving(c, gone) && c in conns && marks == WithoutConn(marks, c)
      ensures Counted(table, watching - gone, marks)
      ensures forall d :: d in conns && d != c ==> Snapshots(table, log, marks, d, conns[d].watched)
      ensures Snapshots(table, log, marks, c, [])
    {
    }

    /** signalWrites behind its gate: with nobody watching there is nothing to bump. */
    method Write(keys: seq<Bytes>)
      requires Valid()
      modifies this`table, this`log
      ensures Valid() && log == old(log) + [Wrote(keys)]
    {
      hide Counted, Untouched, Snapshots, Bumped;
      ghost var was := table;
      BumpNone(table);
      if watching != 0 {
        var i := 0;
        while i < |keys|
          invariant 0 <= i <= |keys| && log == old(log) && Bumped(was, table, Wrote(keys[..i]))
        {
          BumpOne(was, table, keys, i);
          if keys[i] in table {
            table := table[keys[i] := table[keys[i]].(ver := table[keys[i]].ver + 1)];
          }
          i := i + 1;
        }
        assert keys[..i] == keys;
      } else {
        NobodyWatches(table, watching, marks, Wrote(keys));
      }
      BumpKeeps(was, table, watching, log, marks, conns, Wrote(keys));
      log := log + [Wrote(keys)];
    }

    /** bumpAllWatched. */
    method Flush()
      requires Valid()
      modifies this`table, this`log
      ensures Valid() && log == old(log) + [Flushed]
    {
      hide Counted, Untouched;
      ghost var was := table;
      table := map k | k in table :: table[k].(ver := table[k].ver + 1);
      BumpKeeps(was, table, watching, log, marks, conns, Flushed);
      log := log + [Flushed];
    }

    /** The connection closes. */
    method Disconnect(c: Bytes)
      requires Valid() && c in conns
      modifies this`table, this`watching, this`conns, this`marks
      ensures Valid() && conns == old(conns) - {c} && marks == WithoutConn(old(marks), c)
    {
      hide Counted, Snapshots, WithoutConn;
      Discard(c);
      conns := conns - {c};
    }

    /** MULTI. */
    method Multi(c: Bytes) returns (ok: bool)
      requires Valid() && c in conns
      modifies this`conns
      ensures Valid() && ok == !old(conns)[c].inMulti
      ensures conns == if ok then old(conns)[c := Client(old(conns)[c].watched, true, false, [])] else old(conns)
    {
      hide Counted, Snapshot;
      ok := !conns[c].inMulti;
      if ok {
        conns := conns[c := Client(conns[c].watched, true, false, [])];
      }
    }

    /** queueCommand: an unknown command spoils the transaction. */
    method Queue(c: Bytes, argv: seq<Bytes>, known: bool)
      requires Valid() && c in conns && conns[c].inMulti && argv != []
      modifies this`conns
      ensures Valid()
      ensures var was := old(conns)[c];
              conns == old(conns)[c := if known then was.(queue := was.queue + [argv]) else was.(aborted := true)]
    {
      hide Counted, Snapshot;
      var was := conns[c];
      conns := conns[c := if known then was.(queue := was.queue + [argv]) else was.(aborted := true)];
    }

    /** EXEC: the queue runs exactly when it is whole and no watched key was written since it was watched,
        whoever else watched or unwatched it meanwhile. */
    method Exec(c: Bytes) returns (outcome: Outcome)
      requires Valid() && c in conns
      modifies this`table, this`watching, this`conns, this`marks
      ensures Valid() && forall i :: 0 <= i < |old(conns)[c].watched| ==> (old(conns)[c].watched[i].key, c) in old(marks)
      ensures var was := old(conns)[c];
              outcome ==
                if !was.inMulti then NoMulti
                else if was.aborted then ExecAbort
                else if AllUntouched(log, old(marks), c, was.watched) then Ran(was.queue)
                else NilArray
      ensures outcome.NoMulti? ==> conns == old(conns) && marks == old(marks)
      ensures !outcome.NoMulti? ==>
                conns == old(conns)[c := Client([], false, false, [])] && marks == WithoutConn(old(marks), c)
    {
      OwnMarks(table, log, marks, c, conns[c].watched);
      hide Valid, WithoutConn, AllUntouched;
      var was := conns[c];
      if !was.inMulti {
        return NoMulti;
      }
      if was.aborted {
        outcome := ExecAbort;
      } else {
        var dirty := WatchDirty(c);
        outcome := if dirty then NilArray else Ran(was.queue);
      }
      Discard(c);
    }

    /** DISCARD, RESET, and the teardown of a disconnect. */
    method Discard(c: Bytes)
      requires Valid() && c in conns
      modifies this`table, this`watching, this`conns, this`marks
      ensures Valid() && conns == old(conns)[c := Client([], false, false, [])] && marks == WithoutConn(old(marks), c)
    {
      hide Counted, Snapshots, WithoutConn;
      UnwatchAll(c);
      assert Snapshots(table, log, marks, c, conns[c].watched);
      conns := conns[c := Client([], false, false, [])];
    }
  }

  /** A new watch leaves every other connection's snapshots as they were. */
  lemma SnapshotsOther(table: map<Bytes, Entry>, log: seq<Event>, marks: Marks, c: Bytes, key: Bytes, e: Entry,
                       d: Bytes, ws: seq<Watched>)
    requires Snapshots(table, log, marks, d, ws) && d != c
    requires e.ver == if key in table then table[key].ver else 0
    ensures Snapshots(table[key := e], log, marks[(key, c) := |log|], d, ws)
  {
    hide Untouched;
    forall i | 0 <= i < |ws| ensures Snapshot(table[key := e], log, marks[(key, c) := |log|], d, ws[i]) {
      assert Snapshot(table, log, marks, d, ws[i]);
    }
  }

  /** ... and adds one to its own. */
  lemma SnapshotsOwn(table: map<Bytes, Entry>, log: seq<Event>, marks: Marks, c: Bytes, key: Bytes, e: Entry, ws: seq<Watched>)
    requires Snapshots(table, log, marks, c, ws) && (key, c) !in marks
    requires e.ver == if key in table then table[key].ver else 0
    ensures Snapshots(table[key := e], log, marks[(key, c) := |log|], c, ws + [Watched(key, e.ver)])
  {
    hide Untouched;
    var table', marks' := table[key := e], marks[(key, c) := |log|];
    var ws' := ws + [Watched(key, e.ver)];
    FreshMark(log, key);
    forall i | 0 <= i < |ws'| ensures Snapshot(table', log, marks', c, ws'[i]) && (i < |ws| ==> ws[i].key != key) {
      if i < |ws| { assert Snapshot(table, log, marks, c, ws[i]); }
    }
    hide Snapshot;
    forall k | (k, c) in marks' ensures exists i :: 0 <= i < |ws'| && ws'[i].key == k {
      if k == key {
        assert ws'[|ws|].key == k;
      } else {
        var i :| 0 <= i < |ws| && ws[i].key == k;
        assert ws'[i].key == k;
      }
    }
  }

  lemma NotWatched(table: map<Bytes, Entry>, log: seq<Event>, marks: Marks, c: Bytes, ws: seq<Watched>, key: Bytes)
    requires Snapshots(table, log, marks, c, ws) && forall j :: 0 <= j < |ws| ==> ws[j].key != key
    ensures (key, c) !in marks
  {
    hide Snapshot;
  }

  lemma FreshMark(log: seq<Event>, k: Bytes)
    ensures Untouched(log, |log|, k)
  {
  }
}
