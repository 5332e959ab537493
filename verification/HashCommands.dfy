/** Whole runs of hash commands against the live map (f1srv/hash.go, f1srv/hash_ttl.go). */
module HashCommands {
  import opened Bytes
  import opened HashCells
  import opened HashTally
  import opened HashStore
  import RowStore

  datatype Command =
    | HSet(h: Bytes, pairs: seq<(Bytes, Bytes)>)
    | HSetNx(r: Row, v: Bytes)
    | HGet(r: Row)
    | HExists(r: Row)
    | HDel(h: Bytes, fields: seq<Bytes>)
    | HLen(h: Bytes)
    | HGetAll(h: Bytes)
    | HFields(h: Bytes, fields: seq<Bytes>, op: Op)
    | HGetDel(h: Bytes, fields: seq<Bytes>)
    | Drop(h: Bytes)

  /** The hash a command is about. */
  function Key(c: Command): (h: Bytes)
  {
    match c
    case HSet(h, _) => h
    case HSetNx(r, _) => r.0
    case HGet(r) => r.0
    case HExists(r) => r.0
    case HDel(h, _) => h
    case HLen(h) => h
    case HGetAll(h) => h
    case HFields(h, _, _) => h
    case HGetDel(h, _) => h
    case Drop(h) => h
  }

  /** HEXPIRE, HPEXPIRETIME, HPERSIST and HGETEX share a shape. */
  predicate Sendable(c: Command)
  {
    c.HFields? ==> c.op.Expire? || c.op.Deadline? || c.op.Unexpire? || c.op.GetRetime?
  }

  /** Replies that count dead fields not yet reaped. */
  predicate CountsDead(c: Command)
  {
    c.HDel? || c.Drop?
  }

  /** What one command leaves and replies, on fields dead ones included. */
  ghost function Exec(strings: set<Bytes>, cells: HashCells.Cells, c: Command, now: int): (r: (HashCells.Cells, Answer))
  {
    match c
    case HSet(h, pairs) => if h in strings then (cells, WrongType) else SetAll(cells, h, pairs, now)
    case HSetNx(r, v) => if r.0 in strings then (cells, WrongType) else SetNew(cells, r, v, now)
    case HGet(r) => var (after, one) := One(cells, r, Get, now); (after, Replies([one]))
    case HExists(r) => var (after, one) := One(cells, r, Exists, now); (after, Replies([one]))
    case HDel(h, fields) => if h in strings then (cells, WrongType) else Deleted(cells, h, fields, now)
    case HLen(h) => (cells - DeadOf(cells, h, now), Count(|Of(Alive(cells, now).Keys, h)|))
    case HGetAll(h) =>
      if h in strings then (cells, WrongType)
      else (cells - DeadOf(cells, h, now), Pairs(|Of(Alive(cells, now).Keys, h)|, FieldsOf(Alive(cells, now), h)))
    case HFields(h, fields, op) =>
      if h in strings then (cells, WrongType)
      else var (after, rs) := Each(cells, Same(h, fields, op), now); (after, Replies(rs))
    case HGetDel(h, fields) =>
      if h in strings then (cells, WrongType)
      else var (after, rs) := Each(cells, Same(h, fields, GetDelete), now); (after, Replies(rs))
    case Drop(h) => (cells - Of(cells.Keys, h), Count(if Of(cells.Keys, h) == {} then 0 else 1))
  }

  /** A command that leaves a header row behind its fields: the store stopped it after it had made some. */
  predicate Drifts(strings: set<Bytes>, cells: HashCells.Cells, c: Command, now: int)
  {
    match c
    case HSet(h, pairs) => h !in strings && SetDrifts(cells, h, pairs, now)
    case HSetNx(r, v) => r.0 !in strings && NewDrifts(cells, r, v, now)
    case _ => false
  }

  /** An HSET and an HSETNX, too, go by the living fields alone. */
  lemma SetIgnoresDead(a: HashCells.Cells, b: HashCells.Cells, h: Bytes, pairs: seq<(Bytes, Bytes)>, now: int)
    requires Alive(a, now) == Alive(b, now)
    ensures Alive(SetAll(a, h, pairs, now).0, now) == Alive(SetAll(b, h, pairs, now).0, now)
    ensures SetAll(a, h, pairs, now).1 == SetAll(b, h, pairs, now).1
    ensures SetDrifts(a, h, pairs, now) == SetDrifts(b, h, pairs, now)
  {
    hide Each, Sum, Landed, Alive, Touched, Puts;
    EachIgnoresDead(a, b, Touched(h, pairs), now);
    EachIgnoresDead(a, b, Puts(h, pairs[..Landed(h, pairs)]), now);
  }

  lemma NewIgnoresDead(a: HashCells.Cells, b: HashCells.Cells, r: Row, v: Bytes, now: int)
    requires Alive(a, now) == Alive(b, now)
    ensures Alive(SetNew(a, r, v, now).0, now) == Alive(SetNew(b, r, v, now).0, now)
    ensures SetNew(a, r, v, now).1 == SetNew(b, r, v, now).1
    ensures NewDrifts(a, r, v, now) == NewDrifts(b, r, v, now)
  {
    hide With, Takes, Alive;
    AliveAt(a, now, r);
    AliveAt(b, now, r);
    var x, y := SetNew(a, r, v, now).0, SetNew(b, r, v, now).0;
    forall s ensures Look(Alive(x, now), s) == Look(Alive(y, now), s) {
      AliveAt(x, now, s);
      AliveAt(y, now, s);
      AliveAt(a, now, s);
      AliveAt(b, now, s);
    }
    SameCells(Alive(x, now), Alive(y, now));
  }

  /** A run of deletes leaves the same living fields whatever the dead ones. */
  lemma {:induction false} DeletesIgnoreDead(a: HashCells.Cells, b: HashCells.Cells, ops: seq<(Row, Op)>, now: int)
    requires Alive(a, now) == Alive(b, now)
    ensures Alive(Each(a, ops, now).0, now) == Alive(Each(b, ops, now).0, now)
  {
    hide One;
    if ops != [] {
      var k := |ops| - 1;
      DeletesIgnoreDead(a, b, ops[..k], now);
      OneIgnoresDead(Each(a, ops[..k], now).0, ops[k].0, ops[k].1, now);
      OneIgnoresDead(Each(b, ops[..k], now).0, ops[k].0, ops[k].1, now);
    }
  }

  lemma DropIgnoresDead(a: HashCells.Cells, b: HashCells.Cells, h: Bytes, now: int)
    requires Alive(a, now) == Alive(b, now)
    ensures Alive(a - Of(a.Keys, h), now) == Alive(b - Of(b.Keys, h), now)
  {
    forall r ensures Look(Alive(a - Of(a.Keys, h), now), r) == Look(Alive(b - Of(b.Keys, h), now), r) {
      AliveAt(a, now, r);
      AliveAt(b, now, r);
      AliveAt(a - Of(a.Keys, h), now, r);
      AliveAt(b - Of(b.Keys, h), now, r);
    }
    SameCells(Alive(a - Of(a.Keys, h), now), Alive(b - Of(b.Keys, h), now));
  }

  /** A command answers from the living fields alone, and what lives after it depends on them alone. */
  lemma ExecIgnoresDead(strings: set<Bytes>, a: HashCells.Cells, b: HashCells.Cells, c: Command, now: int)
    requires Alive(a, now) == Alive(b, now) && Sendable(c)
    ensures Alive(Exec(strings, a, c, now).0, now) == Alive(Exec(strings, b, c, now).0, now)
    ensures !CountsDead(c) ==> Exec(strings, a, c, now).1 == Exec(strings, b, c, now).1
  {
    hide Each, One, Sum, DeadOf, Of, Alive, FieldsOf, SetAll, SetNew, Same;
    match c
    case HSet(h, pairs) => SetIgnoresDead(a, b, h, pairs, now);
    case HSetNx(r, v) => NewIgnoresDead(a, b, r, v, now);
    case HGet(r) => OneIgnoresDead(a, r, Get, now); OneIgnoresDead(b, r, Get, now);
    case HExists(r) => OneIgnoresDead(a, r, Exists, now); OneIgnoresDead(b, r, Exists, now);
    case HDel(h, fields) => DeletesIgnoreDead(a, b, Same(h, fields, Delete), now);
    case HLen(h) => SweepKeeps(a, h, now); SweepKeeps(b, h, now);
    case HGetAll(h) => SweepKeeps(a, h, now); SweepKeeps(b, h, now);
    case HFields(h, fields, op) => EachIgnoresDead(a, b, Same(h, fields, op), now);
    case HGetDel(h, fields) => EachIgnoresDead(a, b, Same(h, fields, GetDelete), now);
    case Drop(h) => DropIgnoresDead(a, b, h, now);
  }

  /** A dead field among the first n named. */
  ghost predicate NamesDead(cells: HashCells.Cells, h: Bytes, fields: seq<Bytes>, now: int)
  {
    exists i :: 0 <= i < |fields| && (h, fields[i]) in cells && Dead(cells[(h, fields[i])], now)
  }

  /** What is left after some fields are deleted, in rows whatever their deadlines. */
  lemma {:induction false} DeletesLeave(cells: HashCells.Cells, h: Bytes, fields: seq<Bytes>, now: int, r: Row)
    ensures Look(Each(cells, Same(h, fields, Delete), now).0, r) == if r.0 == h && r.1 in fields then None else Look(cells, r)
  {
    var ops := Same(h, fields, Delete);
    if fields != [] {
      var k := |fields| - 1;
      DeletesLeave(cells, h, fields[..k], now, r);
      assert ops[..k] == Same(h, fields[..k], Delete);
      assert fields == fields[..k] + [fields[k]];
    }
  }

  lemma DeleteReply(cells: HashCells.Cells, r: Row, now: int)
    ensures One(cells, r, Delete, now).1 == Number(if Look(cells, r).Some? then 1 else 0)
  {
  }

  /** HDEL replies as the live map would just when no field it names is dead and unreaped; otherwise it
      counts too many. */
  lemma {:induction false} DeleteReplyExact(cells: HashCells.Cells, h: Bytes, fields: seq<Bytes>, now: int)
    ensures var mine, live := Deleted(cells, h, fields, now).1, Deleted(Alive(cells, now), h, fields, now).1;
            mine.n >= live.n && (mine == live <==> !NamesDead(cells, h, fields, now))
  {
    hide One, Alive, Each, Sum;
    var ops, live := Same(h, fields, Delete), Alive(cells, now);
    if fields == [] {
      assert ops == [];
      EachNone(cells, now);
      EachNone(live, now);
    } else {
      var k := |fields| - 1;
      var r := (h, fields[k]);
      DeleteReplyExact(cells, h, fields[..k], now);
      assert ops[..k] == Same(h, fields[..k], Delete) && ops[..k + 1] == ops;
      EachStep(cells, ops, k, now);
      EachStep(live, ops, k, now);
      DeletesLeave(cells, h, fields[..k], now, r);
      DeletesLeave(live, h, fields[..k], now, r);
      DeleteReply(Each(cells, ops[..k], now).0, r, now);
      DeleteReply(Each(live, ops[..k], now).0, r, now);
      AliveAt(cells, now, r);
      LastNamed(cells, h, fields, now);
    }
  }

  lemma LastNamed(cells: HashCells.Cells, h: Bytes, fields: seq<Bytes>, now: int)
    requires fields != []
    ensures var k := |fields| - 1; var r := (h, fields[k]);
            NamesDead(cells, h, fields, now) <==> NamesDead(cells, h, fields[..k], now) || (r in cells && Dead(cells[r], now))
    ensures var k := |fields| - 1; var r := (h, fields[k]);
            fields[k] in fields[..k] && r in cells && Dead(cells[r], now) ==> NamesDead(cells, h, fields[..k], now)
  {
    var k := |fields| - 1;
    if i :| 0 <= i < |fields| && (h, fields[i]) in cells && Dead(cells[(h, fields[i])], now) {
      if i < k { assert fields[..k][i] == fields[i]; }
    }
    if i :| 0 <= i < k && (h, fields[..k][i]) in cells && Dead(cells[(h, fields[..k][i])], now) {
      assert fields[i] == fields[..k][i];
    }
  }

  lemma OneDelete(cells: HashCells.Cells, ops: seq<(Row, Op)>, now: int)
    requires |ops| == 1 && One(cells, ops[0].0, ops[0].1, now).1.Number?
    ensures Sum(Each(cells, ops, now).1) == One(cells, ops[0].0, ops[0].1, now).1.n
  {
    hide One, Each, Sum;
    EachNone(cells, now);
    assert ops[..0] == [] && ops[..1] == ops;
    EachStep(cells, ops, 0, now);
    assert [] + [One(cells, ops[0].0, ops[0].1, now).1] == [One(cells, ops[0].0, ops[0].1, now).1];
  }

  /** A field past its deadline that nothing has touched: HDEL says one was deleted, the live map none. */
  lemma DeadFieldCounted(r: Row, v: Bytes)
    ensures var cells := map[r := Cell(v, Some(0))];
            && Alive(cells, 1) == map[]
            && Deleted(cells, r.0, [r.1], 1).1 == Count(1) && Deleted(Alive(cells, 1), r.0, [r.1], 1).1 == Count(0)
  {
    var cells := map[r := Cell(v, Some(0))];
    assert Alive(cells, 1) == map[];
    var ops := Same(r.0, [r.1], Delete);
    assert ops[0] == (r, Delete);
    OneDelete(cells, ops, 1);
    OneDelete(map[], ops, 1);
  }

  /** DEL replies as the live map would just when the hash is not one of dead fields only. */
  lemma DropReplyExact(strings: set<Bytes>, cells: HashCells.Cells, h: Bytes, now: int)
    ensures Exec(strings, cells, Drop(h), now).1 == Exec(strings, Alive(cells, now), Drop(h), now).1
       <==> !(Of(cells.Keys, h) != {} && Of(Alive(cells, now).Keys, h) == {})
  {
    assert Of(Alive(cells, now).Keys, h) <= Of(cells.Keys, h);
  }

  /** A hash of one field past its deadline: DEL says that the key was there, the live map that it was not. */
  lemma DeadHashDropped(r: Row, v: Bytes)
    ensures var cells := map[r := Cell(v, Some(0))];
            && Alive(cells, 1) == map[]
            && Exec({}, cells, Drop(r.0), 1).1 == Count(1) && Exec({}, Alive(cells, 1), Drop(r.0), 1).1 == Count(0)
  {
    var cells := map[r := Cell(v, Some(0))];
    assert r in Of(cells.Keys, r.0);
    assert Of(Alive(cells, 1).Keys, r.0) == {};
  }

  /** A reply that counts dead fields nothing has reaped. */
  ghost predicate Miscounts(strings: set<Bytes>, cells: HashCells.Cells, c: Command, now: int)
  {
    match c
    case HDel(h, fields) => h !in strings && NamesDead(cells, h, fields, now)
    case Drop(h) => Of(cells.Keys, h) != {} && Of(Alive(cells, now).Keys, h) == {}
    case _ => false
  }

  /** Every reply is the live map's just when it does not count dead fields. */
  lemma ReplyExact(strings: set<Bytes>, cells: HashCells.Cells, c: Command, now: int)
    requires Sendable(c)
    ensures Exec(strings, cells, c, now).1 == Exec(strings, Alive(cells, now), c, now).1 <==> !Miscounts(strings, cells, c, now)
  {
    hide Alive, Each, Sum, NamesDead, Of, SetAll, SetNew;
    match c
    case HDel(h, fields) => DeleteReplyExact(cells, h, fields, now);
    case Drop(h) => DropReplyExact(strings, cells, h, now);
    case _ =>
      AliveOnce(cells, now, now);
      ExecIgnoresDead(strings, cells, Alive(cells, now), c, now);
  }

  /** One command on the rows: the counters are exact afterwards if and only if it does not drift. */
  method Step(s: Rows, c: Command, now: int) returns (reply: Answer)
    requires s.Valid() && Sendable(c)
    modifies s`rows, s`index, s`ttl, s`hint, s`hfe, s`hdr
    ensures (s.Cells(), reply) == Exec(s.strings, old(s.Cells()), c, now)
    ensures s.Valid() <==> !Drifts(s.strings, old(s.Cells()), c, now)
  {
    hide Rows.Valid, Rows.Cells, Each, One, Sum, SetAll, SetNew, SetDrifts, NewDrifts, Of, Alive, DeadOf, FieldsOf;
    match c
    case HSet(h, pairs) => reply := s.HSet(h, pairs, now);
    case HSetNx(r, v) => reply := s.HSetNx(r, v, now);
    case HFields(h, fields, op) => reply := s.StepFields(h, fields, op, now);
    case HGetDel(h, fields) => reply := s.HGetDel(h, fields, now);
    case Drop(h) => reply := StepDrop(s, h);
    case _ => reply := StepExact(s, c, now);
  }

  /** The commands that are stated for headers that are behind, where none is. */
  method StepExact(s: Rows, c: Command, now: int) returns (reply: Answer)
    requires s.Valid() && (c.HGet? || c.HExists? || c.HDel? || c.HLen? || c.HGetAll?)
    modifies s`rows, s`index, s`ttl, s`hint, s`hfe, s`hdr
    ensures s.Valid() && (s.Cells(), reply) == Exec(s.strings, old(s.Cells()), c, now)
  {
    hide Rows.Valid, Rows.Lags, Rows.Cells, One, Deleted, Of, Alive, DeadOf, FieldsOf;
    ghost var h := Key(c);
    s.ValidLags(h);
    match c {
      case HGet(r) => var one := s.HGet(r, now, 0); reply := Replies([one]);
      case HExists(r) => var one := s.HExists(r, now, 0); reply := Replies([one]);
      case HDel(_, fields) => reply := s.HDel(c.h, fields, now, 0);
      case HLen(_) => reply := s.HLen(c.h, now, 0);
      case HGetAll(_) => reply := s.HGetAll(c.h, now, 0);
    }
    s.LagsNone(h, |Of(s.rows.Keys, h)|);
  }

  method StepDrop(s: Rows, h: Bytes) returns (reply: Answer)
    requires s.Valid()
    modifies s`rows, s`index, s`ttl, s`hint, s`hfe, s`hdr
    ensures s.Valid() && s.Cells() == old(s.Cells()) - Of(old(s.Cells()).Keys, h)
    ensures reply == Count(if Of(old(s.Cells()).Keys, h) == {} then 0 else 1)
  {
    hide Rows.Valid;
    assert s.Cells().Keys == s.rows.Keys;
    assert forall r :: r in s.rows && r.0 == h ==> r in Of(s.rows.Keys, h);
    var existed := s.Drop(h);
    reply := Count(if existed then 1 else 0);
  }

  /** The plain live map after the first n commands: the dead are gone before and after each. */
  ghost function LiveAfter(strings: set<Bytes>, cells: HashCells.Cells, cs: seq<(Command, int)>, n: nat): (r: HashCells.Cells)
    requires n <= |cs|
  {
    if n == 0 then cells
    else
      var (c, now) := cs[n - 1];
      Alive(Exec(strings, Alive(LiveAfter(strings, cells, cs, n - 1), now), c, now).0, now)
  }

  /** The fields after the first n commands, dead ones included. */
  ghost function RawAfter(strings: set<Bytes>, cells: HashCells.Cells, cs: seq<(Command, int)>, n: nat): (r: HashCells.Cells)
    requires n <= |cs|
  {
    if n == 0 then cells else Exec(strings, RawAfter(strings, cells, cs, n - 1), cs[n - 1].0, cs[n - 1].1).0
  }

  /** The n-th reply is the live map's just when it does not count dead fields. */
  ghost predicate LiveReply(strings: set<Bytes>, cells: HashCells.Cells, cs: seq<(Command, int)>, n: nat, reply: Answer)
    requires n < |cs|
  {
    var (c, now) := cs[n];
    var live := Alive(LiveAfter(strings, cells, cs, n), now);
    reply == Exec(strings, live, c, now).1 <==> !Miscounts(strings, RawAfter(strings, cells, cs, n), c, now)
  }

  lemma ReplyLive(strings: set<Bytes>, cells: HashCells.Cells, cs: seq<(Command, int)>, n: nat, from: Option<int>)
    requires n < |cs| && Sendable(cs[n].0) && (from.None? || from.value <= cs[n].1)
    requires SameLater(RawAfter(strings, cells, cs, n), LiveAfter(strings, cells, cs, n), from)
    ensures LiveReply(strings, cells, cs, n, Exec(strings, RawAfter(strings, cells, cs, n), cs[n].0, cs[n].1).1)
  {
    hide Exec, Alive, Miscounts;
    ReplyExact(strings, RawAfter(strings, cells, cs, n), cs[n].0, cs[n].1);
  }

  /** Every run of commands at times that do not fall, as long as none drifts: the counters stay exact, the living
      fields are those of the plain live map, and each reply is the live map's just when it does not count dead
      fields. */
  method Run(s: Rows, cs: seq<(Command, int)>) returns (replies: seq<Answer>)
    requires s.Valid() && forall i :: 0 <= i < |cs| ==> Sendable(cs[i].0)
    requires forall i :: 0 <= i < |cs| ==> !Drifts(s.strings, RawAfter(s.strings, s.Cells(), cs, i), cs[i].0, cs[i].1)
    requires forall i, j :: 0 <= i < j < |cs| ==> cs[i].1 <= cs[j].1
    modifies s`rows, s`index, s`ttl, s`hint, s`hfe, s`hdr
    ensures s.Valid() && |replies| == |cs|
    ensures forall t :: (cs == [] || cs[|cs| - 1].1 <= t) ==>
              Alive(s.Cells(), t) == Alive(LiveAfter(s.strings, old(s.Cells()), cs, |cs|), t)
    ensures s.Cells() == RawAfter(s.strings, old(s.Cells()), cs, |cs|)
    ensures forall i :: 0 <= i < |cs| ==> LiveReply(s.strings, old(s.Cells()), cs, i, replies[i])
  {
    hide Rows.Valid, Rows.Cells, Exec, Alive, LiveReply, SameLater, Drifts, LiveAfter, RawAfter, Sendable;
    replies := [];
    var n := 0;
    ghost var start := s.Cells();
    RunStarts(s.strings, start, cs);
    while n < |cs|
      invariant 0 <= n <= |cs| && |replies| == n && s.Valid() && s.strings == old(s.strings)
      invariant s.Cells() == RawAfter(s.strings, start, cs, n)
      invariant SameLater(s.Cells(), LiveAfter(s.strings, start, cs, n), From(cs, n))
      invariant forall i :: 0 <= i < n ==> LiveReply(s.strings, start, cs, i, replies[i])
    {
      RunStep(s.strings, start, cs, n);
      var reply := Step(s, cs[n].0, cs[n].1);
      replies := replies + [reply];
      n := n + 1;
    }
    SameAll(s.Cells(), LiveAfter(s.strings, start, cs, n), From(cs, n));
  }

  /** The time of the last of n commands. */
  function From(cs: seq<(Command, int)>, n: nat): (t: Option<int>)
    requires n <= |cs|
  {
    if n == 0 then None else Some(cs[n - 1].1)
  }

  lemma RunStarts(strings: set<Bytes>, cells: HashCells.Cells, cs: seq<(Command, int)>)
    ensures RawAfter(strings, cells, cs, 0) == LiveAfter(strings, cells, cs, 0) == cells && SameLater(cells, cells, From(cs, 0))
  {
  }

  /** One command further. */
  lemma RunStep(strings: set<Bytes>, cells: HashCells.Cells, cs: seq<(Command, int)>, n: nat)
    requires n < |cs| && Sendable(cs[n].0) && (n > 0 ==> cs[n - 1].1 <= cs[n].1)
    requires SameLater(RawAfter(strings, cells, cs, n), LiveAfter(strings, cells, cs, n), From(cs, n))
    ensures RawAfter(strings, cells, cs, n + 1) == Exec(strings, RawAfter(strings, cells, cs, n), cs[n].0, cs[n].1).0
    ensures SameLater(RawAfter(strings, cells, cs, n + 1), LiveAfter(strings, cells, cs, n + 1), From(cs, n + 1))
    ensures LiveReply(strings, cells, cs, n, Exec(strings, RawAfter(strings, cells, cs, n), cs[n].0, cs[n].1).1)
  {
    hide Exec, Alive, SameLater, LiveReply;
    ReplyLive(strings, cells, cs, n, From(cs, n));
    StepLater(strings, RawAfter(strings, cells, cs, n), LiveAfter(strings, cells, cs, n), From(cs, n), cs[n].0, cs[n].1);
  }

  lemma SameAll(a: HashCells.Cells, b: HashCells.Cells, from: Option<int>)
    requires SameLater(a, b, from)
    ensures forall t :: (from.None? || from.value <= t) ==> Alive(a, t) == Alive(b, t)
  {
  }

  /** Two sets of fields that look the same from some time on. */
  ghost predicate SameLater(a: HashCells.Cells, b: HashCells.Cells, from: Option<int>)
  {
    forall t :: (from.None? || from.value <= t) ==> Alive(a, t) == Alive(b, t)
  }

  lemma StepLater(strings: set<Bytes>, a: HashCells.Cells, b: HashCells.Cells, from: Option<int>, c: Command, now: int)
    requires SameLater(a, b, from) && (from.None? || from.value <= now) && Sendable(c)
    ensures var b' := Alive(b, now);
            && SameLater(Exec(strings, a, c, now).0, Alive(Exec(strings, b', c, now).0, now), Some(now))
            && Alive(a, now) == b'
  {
    hide Exec, Alive;
    var b' := Alive(b, now);
    assert Alive(a, now) == Alive(b, now);
    AliveOnce(b, now, now);
    ExecIgnoresDead(strings, a, b', c, now);
    var x, y := Exec(strings, a, c, now).0, Exec(strings, b', c, now).0;
    forall t | now <= t ensures Alive(x, t) == Alive(Alive(y, now), t) {
      AliveOnce(x, now, t);
      AliveOnce(y, now, t);
    }
  }

  /** Where no value and no row key is too long and no key is empty, no command drifts. */
  predicate Fitting(c: Command)
  {
    match c
    case HSet(h, pairs) => h != [] && Landed(h, pairs) == |pairs|
    case HSetNx(r, v) => r.0 != []
    case _ => true
  }

  lemma FittingKeeps(strings: set<Bytes>, cells: HashCells.Cells, c: Command, now: int)
    requires Fitting(c)
    ensures !Drifts(strings, cells, c, now)
  {
  }

  /** A field and then one whose value is too long, on an empty server: the error, and then HGET finds the first
      field, HLEN counts none, and HGETALL frames none and streams one. */
  method HeaderBehind(h: Bytes, a: Bytes, v: Bytes, b: Bytes, big: Bytes) returns (reply: Answer, got: Reply, len: Answer, all: Answer)
    requires h != [] && a != b && Takes((h, a), v) && !RowStore.Fits(big)
    ensures reply == Refused && got == Bulk(v) && len == Count(0) && all == Pairs(0, map[a := v])
  {
    hide Takes, Rows.Valid, Rows.Lags, View, Of, Alive, FieldsOf, DeadOf, One, SetAll, Landed, Made;
    var s := new Rows();
    TwoPairs(h, a, v, b, big);
    OneField(h, a, v);
    reply := s.HSet(h, [(a, v), (b, big)], 0);
    got := s.HGet((h, a), 0, -1);
    KeysOf(s.rows, s.ttl);
    len := s.HLen(h, 0, -1);
    KeysOf(s.rows, s.ttl);
    all := s.HGetAll(h, 0, -1);
  }

  lemma OneField(h: Bytes, a: Bytes, v: Bytes)
    ensures var cells := map[(h, a) := Cell(v, None)];
            && One(cells, (h, a), Get, 0) == (cells, Bulk(v))
            && Alive(cells, 0) == cells && cells - DeadOf(cells, h, 0) == cells
            && Of(cells.Keys, h) == {(h, a)} && FieldsOf(cells, h) == map[a := v]
  {
    var cells := map[(h, a) := Cell(v, None)];
    assert Alive(cells, 0) == cells && DeadOf(cells, h, 0) == {};
    WithSame(cells, (h, a));
    forall f ensures f in FieldsOf(cells, h) <==> f == a { }
  }

  /** A refused HSET of a field with a deadline: the error, and the deadline is gone. */
  lemma RefusedUntimes(h: Bytes, f: Bytes, v: Bytes, big: Bytes)
    requires !RowStore.Fits(big)
    ensures var timed, plain := map[(h, f) := Cell(v, Some(9))], map[(h, f) := Cell(v, None)];
            SetAll(timed, h, [(f, big)], 0) == (plain, Refused) && !SetDrifts(timed, h, [(f, big)], 0)
  {
    var timed, plain, pairs := map[(h, f) := Cell(v, Some(9))], map[(h, f) := Cell(v, None)], [(f, big)];
    assert !Takes((h, f), big);
    hide Takes;
    assert Landed(h, pairs) == 0;
    assert Puts(h, pairs[..0]) == [];
    EachNone(timed, 0);
    TouchedStopped(timed, h, pairs, 0);
    assert One(timed, (h, f), Unexpire, 0).0 == plain;
  }

  /** The store takes the first of two pairs. */
  lemma TwoLanded(h: Bytes, a: Bytes, v: Bytes, b: Bytes, big: Bytes)
    requires Takes((h, a), v) && !RowStore.Fits(big)
    ensures Landed(h, [(a, v), (b, big)]) == 1 && Puts(h, [(a, v), (b, big)][..1]) == [((h, a), HashCells.Put(v))]
  {
    var pairs := [(a, v), (b, big)];
    assert !Takes((h, b), big);
    hide Takes;
    assert pairs[1..] == [(b, big)] && Landed(h, [(b, big)]) == 0;
  }

  /** The first is written. */
  lemma TwoPut(r: Row, v: Bytes)
    ensures var mid := map[r := Cell(v, None)];
            Each(map[], [(r, HashCells.Put(v))], 0) == (mid, [Number(1)]) && Sum([Number(1)]) == 1
  {
    hide Each, Sum, One, With;
    var ops := [(r, HashCells.Put(v))];
    EachNone(map[], 0);
    assert ops[..0] == [] && ops[..1] == ops && [] + [Number(1)] == [Number(1)];
    EachStep(map[], ops, 0, 0);
    PutIs(map[], r, v, 0);
    WithNone(r, Cell(v, None));
  }

  lemma WithNone(r: Row, c: Cell)
    ensures With(map[], r, Some(c)) == map[r := c]
  {
  }

  /** The second stops the command and changes nothing. */
  lemma TwoStop(r: Row, v: Bytes, r': Row)
    requires r != r'
    ensures var mid := map[r := Cell(v, None)]; One(mid, r', Unexpire, 0).0 == mid
  {
    hide With;
    WithSame(map[r := Cell(v, None)], r');
  }

  lemma TwoPairs(h: Bytes, a: Bytes, v: Bytes, b: Bytes, big: Bytes)
    requires a != b && Takes((h, a), v) && !RowStore.Fits(big)
    ensures var pairs := [(a, v), (b, big)];
            && Landed(h, pairs) == 1 && Made(map[], h, pairs, 0) == 1
            && SetAll(map[], h, pairs, 0) == (map[(h, a) := Cell(v, None)], Refused)
  {
    hide Takes, Landed, Puts, Touched, Each, Sum, One;
    TwoLanded(h, a, v, b, big);
    TwoPut((h, a), v);
    TwoStop((h, a), v, (h, b));
    TouchedStopped(map[], h, [(a, v), (b, big)], 0);
  }

  /** The living and the dead fields settle every row and counter. */
  lemma Settled(a: Rows, b: Rows)
    requires a.Valid() && b.Valid() && a.Cells() == b.Cells()
    ensures a.rows == b.rows && a.ttl == b.ttl && a.index == b.index
    ensures a.hdr == b.hdr && a.hint == b.hint && a.hfe == b.hfe
  {
    hide Tally;
    ViewSettles(a.rows, a.ttl, b.rows, b.ttl);
    TallyUnique(a.hdr, b.hdr, a.rows.Keys);
    TallyUnique(a.hint, b.hint, a.ttl.Keys);
  }

  lemma ViewSettles(rows: map<Row, Bytes>, ttl: map<Row, int>, rows': map<Row, Bytes>, ttl': map<Row, int>)
    requires ttl.Keys <= rows.Keys && ttl'.Keys <= rows'.Keys && View(rows, ttl) == View(rows', ttl')
    ensures rows == rows' && ttl == ttl'
  {
    forall r ensures (r in rows <==> r in rows') && (r in ttl <==> r in ttl') {
      CellAt(rows, ttl, r);
      CellAt(rows', ttl', r);
    }
    forall r | r in rows ensures rows[r] == rows'[r] && (r in ttl ==> ttl[r] == ttl'[r]) {
      CellAt(rows, ttl, r);
      CellAt(rows', ttl', r);
    }
  }
}
