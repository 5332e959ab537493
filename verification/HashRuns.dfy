/** Whole runs of hash commands mixed with RENAME, RENAMENX and COPY: the rows are always those the plain
    fields say, dead ones included, and the counters are exact until a command drifts (f1srv/hash.go, f1srv/hash_ttl.go,
    f1srv/rename.go, f1srv/copy.go). */
module HashRuns {
  import opened Bytes
  import opened HashCells
  import opened HashTally
  import opened HashStore
  import H = HashCommands
  import opened HashCarry
  import opened HashRename

  datatype Any =
    | OnHash(c: H.Command)
    | OnName(src: Bytes, dst: Bytes)
    | OnNewName(src: Bytes, dst: Bytes)
    | OnCopy(src: Bytes, dst: Bytes, replace: bool)

  datatype Said = Hash(a: Answer) | Name(o: Outcome)

  ghost function Exec(ks: Keyspace, a: Any, now: int): (r: (Keyspace, Said))
  {
    match a
    case OnHash(c) => var (cells, answer) := H.Exec(ks.0, ks.1, c, now); ((ks.0, cells), Hash(answer))
    case OnName(src, dst) => var (ks', o) := Renamed(ks.0, ks.1, src, dst); (ks', Name(o))
    case OnNewName(src, dst) => var (ks', o) := RenamedNew(ks.0, ks.1, src, dst); (ks', Name(o))
    case OnCopy(src, dst, replace) => var (ks', o) := Copied(ks.0, ks.1, src, dst, replace); (ks', Name(o))
  }

  /** The keyspace after the first n commands, and their replies. */
  ghost function After(ks: Keyspace, run: seq<(Any, int)>, n: nat): (r: (Keyspace, seq<Said>))
    requires n <= |run|
  {
    if n == 0 then (ks, [])
    else
      var (mid, said) := After(ks, run, n - 1);
      var (ks', one) := Exec(mid, run[n - 1].0, run[n - 1].1);
      (ks', said + [one])
  }

  /** Rows a run of field operations on h can add are h's. */
  lemma {:induction false} EachAdds(cells: HashCells.Cells, ops: seq<(Row, Op)>, now: int, h: Bytes, r: Row)
    requires forall i :: 0 <= i < |ops| ==> ops[i].0.0 == h
    ensures r in Each(cells, ops, now).0 ==> r in cells || r.0 == h
  {
    if ops != [] {
      var k := |ops| - 1;
      EachAdds(cells, ops[..k], now, h, r);
      var mid := Each(cells, ops[..k], now).0;
      hide OnCell, Each;
      assert Look(One(mid, ops[k].0, ops[k].1, now).0, r).Some? ==> r == ops[k].0 || Look(mid, r).Some?;
    }
  }

  lemma OneAdds(cells: HashCells.Cells, at: Row, op: Op, now: int, r: Row)
    ensures r in One(cells, at, op, now).0 ==> r in cells || (r == at && op.Put?)
  {
    assert Look(One(cells, at, op, now).0, r).Some? ==> r == at || Look(cells, r).Some?;
  }

  /** No hash command writes a field under a string's key. */
  lemma ExecApart(strings: set<Bytes>, cells: HashCells.Cells, c: H.Command, now: int)
    requires Apart(strings, cells)
    ensures Apart(strings, H.Exec(strings, cells, c, now).0)
  {
    hide Each, One, Sum, DeadOf, Of, Alive, FieldsOf, Touched, Landed, Same, Takes;
    forall r | r in H.Exec(strings, cells, c, now).0 ensures r.0 !in strings {
      match c
      case HSet(h, pairs) => EachAdds(cells, Touched(h, pairs), now, h, r);
      case HSetNx(at, v) => assert Look(H.Exec(strings, cells, c, now).0, r).Some? ==> r == at || Look(cells, r).Some?;
      case HGet(at) => OneAdds(cells, at, Get, now, r);
      case HExists(at) => OneAdds(cells, at, Exists, now, r);
      case HDel(h, fields) => EachAdds(cells, Same(h, fields, Delete), now, h, r);
      case HLen(h) =>
      case HGetAll(h) =>
      case HFields(h, fields, op) => EachAdds(cells, Same(h, fields, op), now, h, r);
      case HGetDel(h, fields) => EachAdds(cells, Same(h, fields, GetDelete), now, h, r);
      case Drop(h) =>
    }
  }

  /** A command that leaves a counter wrong: an HSET stopped after it has made a field, or a rename or a copy of a hash
      whose fields and header do not land together. */
  ghost predicate Drifts(ks: Keyspace, a: Any, now: int)
  {
    match a
    case OnHash(c) => H.Drifts(ks.0, ks.1, c, now)
    case OnName(src, dst) => Parts(ks.1, src, dst)
    case OnNewName(src, dst) => Parts(ks.1, src, dst) && !HashRename.Exists(ks.0, ks.1, dst)
    case OnCopy(src, dst, replace) => Parts(ks.1, src, dst) && (replace || !HashRename.Exists(ks.0, ks.1, dst))
  }

  /** One command on the rows: the counters are exact afterwards if and only if it does not drift. */
  method Step(s: Rows, a: Any, now: int) returns (said: Said)
    requires s.Valid() && Apart(s.strings, s.Cells()) && (a.OnHash? ==> H.Sendable(a.c))
    modifies s
    ensures Apart(s.strings, s.Cells())
    ensures s.Valid() <==> !Drifts((old(s.strings), old(s.Cells())), a, now)
    ensures ((s.strings, s.Cells()), said) == Exec((old(s.strings), old(s.Cells())), a, now)
  {
    hide Rows.Valid, Rows.Cells, Apart, H.Exec, H.Drifts, Renamed, RenamedNew, Copied, Parts, HashRename.Exists;
    match a
    case OnHash(c) =>
      ExecApart(s.strings, s.Cells(), c, now);
      var answer := H.Step(s, c, now);
      said := Hash(answer);
    case OnName(src, dst) => var o := Rename(s, src, dst); said := Name(o);
    case OnNewName(src, dst) => var o := RenameNx(s, src, dst); said := Name(o);
    case OnCopy(src, dst, replace) => var o := Copy(s, src, dst, replace); said := Name(o);
  }

  /** Every run in which no command drifts: exact counters, exact fields and deadlines, exact replies. */
  method Run(s: Rows, run: seq<(Any, int)>) returns (said: seq<Said>)
    requires s.Valid() && Apart(s.strings, s.Cells())
    requires forall i :: 0 <= i < |run| && run[i].0.OnHash? ==> H.Sendable(run[i].0.c)
    requires forall i :: 0 <= i < |run| ==> !Drifts(After((s.strings, s.Cells()), run, i).0, run[i].0, run[i].1)
    modifies s
    ensures s.Valid() && Apart(s.strings, s.Cells())
    ensures ((s.strings, s.Cells()), said) == After((old(s.strings), old(s.Cells())), run, |run|)
  {
    hide Rows.Valid, Rows.Cells, Apart, Exec, Drifts;
    said := [];
    var n := 0;
    while n < |run|
      invariant 0 <= n <= |run| && s.Valid() && Apart(s.strings, s.Cells())
      invariant ((s.strings, s.Cells()), said) == After((old(s.strings), old(s.Cells())), run, n)
    {
      var one := Step(s, run[n].0, run[n].1);
      said := said + [one];
      n := n + 1;
    }
  }

  /** Every row is one the store has taken. */
  ghost predicate Held(cells: HashCells.Cells)
  {
    forall r :: r in cells ==> Lands(r.0, r.1)
  }

  lemma {:induction false} EachHeld(cells: HashCells.Cells, ops: seq<(Row, Op)>, now: int)
    requires Held(cells) && forall i :: 0 <= i < |ops| && ops[i].1.Put? ==> Lands(ops[i].0.0, ops[i].0.1)
    ensures Held(Each(cells, ops, now).0)
  {
    hide Lands, One;
    if ops != [] {
      var k := |ops| - 1;
      EachHeld(cells, ops[..k], now);
      var mid := Each(cells, ops[..k], now).0;
      forall r | r in One(mid, ops[k].0, ops[k].1, now).0 ensures Lands(r.0, r.1) {
        OneAdds(mid, ops[k].0, ops[k].1, now, r);
      }
    }
  }

  lemma TouchedHeld(cells: HashCells.Cells, h: Bytes, pairs: seq<(Bytes, Bytes)>, now: int)
    requires Held(cells)
    ensures Held(Each(cells, Touched(h, pairs), now).0)
  {
    hide Held, Each, Lands, Landed;
    forall i | 0 <= i < |Touched(h, pairs)| && Touched(h, pairs)[i].1.Put?
      ensures Lands(Touched(h, pairs)[i].0.0, Touched(h, pairs)[i].0.1) {
      assert i < Landed(h, pairs);
      LandedAt(h, pairs, i);
    }
    EachHeld(cells, Touched(h, pairs), now);
  }

  lemma OneHeld(cells: HashCells.Cells, at: Row, op: Op, now: int)
    requires Held(cells) && !op.Put?
    ensures Held(One(cells, at, op, now).0)
  {
    hide One, Lands;
    forall r | r in One(cells, at, op, now).0 ensures Lands(r.0, r.1) { OneAdds(cells, at, op, now, r); }
  }

  lemma HashHeld(strings: set<Bytes>, cells: HashCells.Cells, c: H.Command, now: int)
    requires Held(cells) && H.Sendable(c)
    ensures Held(H.Exec(strings, cells, c, now).0)
  {
    hide Each, One, Sum, DeadOf, Of, Alive, FieldsOf, Touched, Landed, Same, Lands;
    match c
    case HSet(h, pairs) => TouchedHeld(cells, h, pairs, now);
    case HSetNx(at, v) =>
      forall r | r in SetNew(cells, at, v, now).0 ensures Lands(r.0, r.1) {
        assert Look(SetNew(cells, at, v, now).0, r).Some? ==> (r == at && Takes(at, v)) || Look(cells, r).Some?;
      }
    case HGet(at) => OneHeld(cells, at, Get, now);
    case HExists(at) => OneHeld(cells, at, Op.Exists, now);
    case HDel(h, fields) => EachHeld(cells, Same(h, fields, Delete), now);
    case HLen(h) =>
    case HGetAll(h) =>
    case HFields(h, fields, op) => EachHeld(cells, Same(h, fields, op), now);
    case HGetDel(h, fields) => EachHeld(cells, Same(h, fields, GetDelete), now);
    case Drop(h) =>
  }

  lemma ReplacedHeld(cells: HashCells.Cells, src: Bytes, dst: Bytes, del: bool)
    requires Held(cells) && src != dst
    ensures Held(Replaced(cells, src, dst, del))
  {
    hide Replaced, Lands;
    forall r | r in Replaced(cells, src, dst, del) ensures Lands(r.0, r.1) {
      ReplacedAt(cells, src, dst, del, r);
      assert Look(Replaced(cells, src, dst, del), r).Some?;
      if r.0 != dst { assert Look(cells, r).Some?; }
    }
  }

  /** No command makes a row that the store has not taken. */
  lemma ExecHeld(ks: Keyspace, a: Any, now: int)
    requires Held(ks.1) && (a.OnHash? ==> H.Sendable(a.c))
    ensures Held(Exec(ks, a, now).0.1)
  {
    hide Held, H.Exec, Replaced, NamesReplaced, HashRename.Exists;
    match a
    case OnHash(c) => HashHeld(ks.0, ks.1, c, now);
    case OnName(src, dst) => if src != dst { ReplacedHeld(ks.1, src, dst, true); }
    case OnNewName(src, dst) => if src != dst { ReplacedHeld(ks.1, src, dst, true); }
    case OnCopy(src, dst, replace) => if src != dst { ReplacedHeld(ks.1, src, dst, false); }
  }

  /** A command that fits the store whatever the keyspace: pairs that fit, and new names that are neither empty nor
      longer than the old. */
  predicate Fitting(a: Any)
  {
    match a
    case OnHash(c) => H.Sendable(c) && H.Fitting(c)
    case OnName(src, dst) => 0 < |dst| <= |src|
    case OnNewName(src, dst) => 0 < |dst| <= |src|
    case OnCopy(src, dst, _) => 0 < |dst| <= |src|
  }

  /** Every run of commands that fit, from rows the store holds, is one in which none drifts. */
  lemma {:induction false} FittingRun(ks: Keyspace, run: seq<(Any, int)>, n: nat)
    requires Held(ks.1) && n <= |run| && forall i :: 0 <= i < |run| ==> Fitting(run[i].0)
    ensures Held(After(ks, run, n).0.1) && (n < |run| ==> !Drifts(After(ks, run, n).0, run[n].0, run[n].1))
  {
    hide Held, Exec, Parts, H.Drifts, H.Fitting;
    if n > 0 {
      FittingRun(ks, run, n - 1);
      ExecHeld(After(ks, run, n - 1).0, run[n - 1].0, run[n - 1].1);
    }
    if n < |run| {
      FittingKeeps(After(ks, run, n).0, run[n].0, run[n].1);
    }
  }

  lemma FittingKeeps(ks: Keyspace, a: Any, now: int)
    requires Held(ks.1) && Fitting(a)
    ensures !Drifts(ks, a, now)
  {
    hide Parts, H.Drifts, H.Fitting, HashRename.Exists, Lands;
    match a
    case OnHash(c) => H.FittingKeeps(ks.0, ks.1, c, now);
    case OnName(src, dst) => ShorterKeeps(ks.1, src, dst);
    case OnNewName(src, dst) => ShorterKeeps(ks.1, src, dst);
    case OnCopy(src, dst, _) => ShorterKeeps(ks.1, src, dst);
  }
}
