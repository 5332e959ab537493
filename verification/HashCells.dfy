/** What hash commands mean: fields with values and deadlines, seen at a moment in time
    (f1srv/hash.go, f1srv/hash_ttl.go). */
module HashCells {
  import opened Bytes

  /** A hash key and a field of it. */
  type Row = (Bytes, Bytes)

  datatype Cell = Cell(value: Bytes, deadline: Option<int>)

  type Cells = map<Row, Cell>

  datatype Reply = Nil | Number(n: int) | Bulk(v: Bytes)

  /** NX, XX, GT and LT. */
  datatype Condition = Always | Nx | Xx | Gt | Lt

  datatype Retime = Keep | Persist | At(ms: int)

  /** What one command does to one field. */
  datatype Op =
    | Put(v: Bytes)
    | Get
    | Exists
    | Delete
    | Expire(at: int, cond: Condition)
    | Deadline
    | Unexpire
    | GetDelete
    | GetRetime(retime: Retime)

  predicate Dead(c: Cell, now: int)
  {
    c.deadline.Some? && c.deadline.value <= now
  }

  /** The fields whose deadline is later than now. */
  ghost function Alive(cells: Cells, now: int): (live: Cells)
    ensures forall r :: r in live <==> r in cells && !Dead(cells[r], now)
    ensures forall r :: r in live ==> live[r] == cells[r]
  {
    map r | r in cells && !Dead(cells[r], now) :: cells[r]
  }

  /** hfeConditionMet: no deadline counts as an infinite one. */
  predicate Met(cond: Condition, deadline: Option<int>, at: int)
  {
    match cond
    case Always => true
    case Nx => deadline.None?
    case Xx => deadline.Some?
    case Gt => deadline.Some? && at > deadline.value
    case Lt => deadline.None? || at < deadline.value
  }

  /** One field under one command.  A dead field counts as missing, except that HDEL counts it. */
  function OnCell(c: Option<Cell>, op: Op, now: int): (res: (Option<Cell>, Reply))
  {
    var live := c.Some? && !Dead(c.value, now);
    var rest := if live then c else None;
    match op
    case Put(v) => (Some(Cell(v, None)), Number(if live then 0 else 1))
    case Get => (rest, if live then Bulk(c.value.value) else Nil)
    case Exists => (rest, Number(if live then 1 else 0))
    case Delete => (None, Number(if c.Some? then 1 else 0))
    case Expire(at, cond) =>
      if !live then (None, Number(-2))
      else if at <= now then (None, Number(2))
      else if !Met(cond, c.value.deadline, at) then (c, Number(0))
      else (Some(c.value.(deadline := Some(at))), Number(1))
    case Deadline =>
      (rest, Number(if !live then -2 else match c.value.deadline case None => -1 case Some(at) => at))
    case Unexpire =>
      if !live then (None, Number(-2))
      else (Some(c.value.(deadline := None)), Number(if c.value.deadline.None? then -1 else 1))
    case GetDelete => (None, if live then Bulk(c.value.value) else Nil)
    case GetRetime(retime) =>
      if !live then (None, Nil)
      else
        match retime
        case Keep => (c, Bulk(c.value.value))
        case Persist => (Some(c.value.(deadline := None)), Bulk(c.value.value))
        case At(ms) => (if ms <= now then None else Some(c.value.(deadline := Some(ms))), Bulk(c.value.value))
  }

  function Look<T>(m: map<Row, T>, r: Row): (v: Option<T>)
  {
    if r in m then Some(m[r]) else None
  }

  function With(cells: Cells, r: Row, c: Option<Cell>): (cells': Cells)
    ensures forall s :: Look(cells', s) == if s == r then c else Look(cells, s)
  {
    match c
    case None => cells - {r}
    case Some(cell) => cells[r := cell]
  }

  function One(cells: Cells, r: Row, op: Op, now: int): (res: (Cells, Reply))
  {
    var (c, reply) := OnCell(Look(cells, r), op, now);
    (With(cells, r, c), reply)
  }

  /** The fields of a command, one after another. */
  function Each(cells: Cells, ops: seq<(Row, Op)>, now: int): (res: (Cells, seq<Reply>))
  {
    if ops == [] then (cells, [])
    else
      var k := |ops| - 1;
      var (mid, replies) := Each(cells, ops[..k], now);
      var (after, reply) := One(mid, ops[k].0, ops[k].1, now);
      (after, replies + [reply])
  }

  function Seen(c: Option<Cell>, now: int): (c': Option<Cell>)
  {
    if c.Some? && Dead(c.value, now) then None else c
  }

  lemma CellIgnoresDead(c: Option<Cell>, op: Op, now: int)
    ensures Seen(OnCell(c, op, now).0, now) == Seen(OnCell(Seen(c, now), op, now).0, now)
    ensures !op.Delete? ==> OnCell(c, op, now).1 == OnCell(Seen(c, now), op, now).1
    ensures op.Delete? ==> (OnCell(c, op, now).1 == OnCell(Seen(c, now), op, now).1 <==> !(c.Some? && Dead(c.value, now)))
  {
  }

  lemma SameCells<T>(a: map<Row, T>, b: map<Row, T>)
    requires forall s :: Look(a, s) == Look(b, s)
    ensures a == b
  {
    forall s ensures s in a <==> s in b { assert Look(a, s) == Look(b, s); }
    forall s | s in a ensures a[s] == b[s] { assert Look(a, s) == Look(b, s); }
  }

  /** Dead fields make no difference to what a field command leaves alive, nor to its reply, HDEL's aside. */
  lemma OneIgnoresDead(cells: Cells, r: Row, op: Op, now: int)
    ensures Alive(One(cells, r, op, now).0, now) == Alive(One(Alive(cells, now), r, op, now).0, now)
    ensures !op.Delete? ==> One(cells, r, op, now).1 == One(Alive(cells, now), r, op, now).1
    ensures op.Delete? ==>
              (One(cells, r, op, now).1 == One(Alive(cells, now), r, op, now).1 <==> !(r in cells && Dead(cells[r], now)))
  {
    hide OnCell, With;
    var live := Alive(cells, now);
    var a, b := One(cells, r, op, now).0, One(live, r, op, now).0;
    assert Look(live, r) == Seen(Look(cells, r), now);
    CellIgnoresDead(Look(cells, r), op, now);
    forall s ensures Look(Alive(a, now), s) == Look(Alive(b, now), s) {
      AliveAt(a, now, s);
      AliveAt(b, now, s);
      AliveAt(cells, now, s);
    }
    SameCells(Alive(a, now), Alive(b, now));
  }

  lemma AliveAt(cells: Cells, now: int, s: Row)
    ensures Look(Alive(cells, now), s) == Seen(Look(cells, s), now)
  {
  }

  lemma AliveOnce(cells: Cells, now: int, later: int)
    requires now <= later
    ensures Alive(Alive(cells, now), later) == Alive(cells, later)
  {
  }

  /** ... and so for a run of them. */
  lemma {:induction false} EachIgnoresDead(a: Cells, b: Cells, ops: seq<(Row, Op)>, now: int)
    requires Alive(a, now) == Alive(b, now) && forall i :: 0 <= i < |ops| ==> !ops[i].1.Delete?
    ensures Alive(Each(a, ops, now).0, now) == Alive(Each(b, ops, now).0, now) && Each(a, ops, now).1 == Each(b, ops, now).1
  {
    hide One;
    if ops != [] {
      var k := |ops| - 1;
      EachIgnoresDead(a, b, ops[..k], now);
      var x, y := Each(a, ops[..k], now).0, Each(b, ops[..k], now).0;
      OneIgnoresDead(x, ops[k].0, ops[k].1, now);
      OneIgnoresDead(y, ops[k].0, ops[k].1, now);
    }
  }

  /** The dead fields of one hash. */
  ghost function DeadOf(cells: Cells, h: Bytes, now: int): (s: set<Row>)
    ensures forall r :: r in s <==> r in cells && r.0 == h && Dead(cells[r], now)
  {
    set r | r in cells && r.0 == h && Dead(cells[r], now)
  }

  /** Field to value, of one hash. */
  ghost function FieldsOf(cells: Cells, h: Bytes): (m: map<Bytes, Bytes>)
    ensures forall f :: f in m <==> (h, f) in cells
    ensures forall f :: f in m ==> m[f] == cells[(h, f)].value
  {
    map r | r in cells && r.0 == h :: r.1 := cells[r].value
  }

  /** The fields that value rows and deadline rows spell out, dead ones included. */
  ghost function View(rows: map<Row, Bytes>, ttl: map<Row, int>): (cells: Cells)
    ensures forall r :: r in cells <==> r in rows
    ensures forall r :: r in rows ==> cells[r] == Cell(rows[r], if r in ttl then Some(ttl[r]) else None)
  {
    map r | r in rows :: Cell(rows[r], if r in ttl then Some(ttl[r]) else None)
  }

  lemma KeysMinus<X, Y>(a: map<Row, X>, b: map<Row, Y>, r: Row)
    requires a.Keys <= b.Keys
    ensures (a - {r}).Keys == a.Keys - {r} && (b - {r}).Keys == b.Keys - {r} && (a - {r}).Keys <= (b - {r}).Keys
  {
  }

  lemma ViewRemoved(rows: map<Row, Bytes>, ttl: map<Row, int>, r: Row)
    ensures View(rows - {r}, ttl - {r}) == With(View(rows, ttl), r, None)
  {
  }

  lemma ViewPut(rows: map<Row, Bytes>, ttl: map<Row, int>, r: Row, v: Bytes)
    ensures View(rows[r := v], ttl - {r}) == With(View(rows, ttl), r, Some(Cell(v, None)))
  {
  }

  lemma ViewTimed(rows: map<Row, Bytes>, ttl: map<Row, int>, r: Row, at: int)
    requires r in rows
    ensures View(rows, ttl[r := at]) == With(View(rows, ttl), r, Some(View(rows, ttl)[r].(deadline := Some(at))))
  {
  }

  lemma ViewUntimed(rows: map<Row, Bytes>, ttl: map<Row, int>, r: Row)
    requires r in rows
    ensures View(rows, ttl - {r}) == With(View(rows, ttl), r, Some(View(rows, ttl)[r].(deadline := None)))
  {
  }

  lemma WithSame(cells: Cells, r: Row)
    ensures With(cells, r, Look(cells, r)) == cells
  {
    SameCells(With(cells, r, Look(cells, r)), cells);
  }

  lemma WithTwice(cells: Cells, r: Row, a: Option<Cell>, b: Option<Cell>)
    ensures With(With(cells, r, a), r, b) == With(cells, r, b)
  {
    SameCells(With(With(cells, r, a), r, b), With(cells, r, b));
  }

  lemma KeysPut<T>(m: map<Row, T>, r: Row, v: T)
    ensures m[r := v].Keys == m.Keys + {r} && (r in m ==> m[r := v].Keys == m.Keys)
    ensures r !in m ==> |m[r := v].Keys| == |m.Keys| + 1
  {
  }

  lemma KeysLess<T>(m: map<Row, T>, r: Row)
    ensures (m - {r}).Keys == m.Keys - {r}
    ensures |(m - {r}).Keys| == |m.Keys| - (if r in m then 1 else 0)
  {
  }

  lemma KeysMinusSet<T>(m: map<Row, T>, s: set<Row>)
    ensures (m - s).Keys == m.Keys - s
  {
  }

  /** A map without the rows a walk has dropped, those of `all` past `todo`. */
  function Walked<T>(m: map<Row, T>, all: set<Row>, todo: set<Row>): (m': map<Row, T>)
  {
    m - (all - todo)
  }

  lemma WalkStep<T>(m: map<Row, T>, all: set<Row>, todo: set<Row>, r: Row)
    requires todo <= all && r in todo
    ensures Walked(m, all, todo - {r}) == Walked(m, all, todo) - {r}
    ensures Walked(m, all, todo - {r}).Keys == Walked(m, all, todo).Keys - {r}
  {
    assert all - (todo - {r}) == (all - todo) + {r};
  }

  lemma WalkEnds<T>(m: map<Row, T>, all: set<Row>)
    ensures Walked(m, all, all) == m && Walked(m, all, {}) == m - all
  {
    assert all - all == {} && all - {} == all;
  }

  lemma ViewDropped(rows: map<Row, Bytes>, ttl: map<Row, int>, s: set<Row>)
    ensures View(rows - s, ttl - s) == View(rows, ttl) - s
  {
  }

  lemma KeysDropped(rows: map<Row, Bytes>, ttl: map<Row, int>, s: set<Row>)
    requires ttl.Keys <= rows.Keys
    ensures (rows - s).Keys == rows.Keys - s && (ttl - s).Keys <= (rows - s).Keys
  {
  }

  lemma SweptFields(cells: Cells, h: Bytes, now: int)
    ensures FieldsOf(cells - DeadOf(cells, h, now), h) == FieldsOf(Alive(cells, now), h)
  {
  }

  lemma KeysOf(rows: map<Row, Bytes>, ttl: map<Row, int>)
    ensures View(rows, ttl).Keys == rows.Keys
  {
  }

  lemma InView(rows: map<Row, Bytes>, ttl: map<Row, int>, cells: Cells, done: set<Row>, r: Row)
    requires View(rows, ttl) == cells - done && r in cells && r !in done
    ensures r in rows
  {
  }

  lemma MinusOne(cells: Cells, all: set<Row>, todo: set<Row>, r: Row)
    requires todo <= all && r in todo
    ensures With(cells - (all - todo), r, None) == cells - (all - (todo - {r}))
  {
    assert all - (todo - {r}) == (all - todo) + {r};
  }

  lemma CellAt(rows: map<Row, Bytes>, ttl: map<Row, int>, r: Row)
    ensures Look(View(rows, ttl), r)
         == if r in rows then Some(Cell(rows[r], if r in ttl then Some(ttl[r]) else None)) else None
  {
  }

  lemma DeadRow(rows: map<Row, Bytes>, ttl: map<Row, int>, r: Row, now: int)
    ensures r in View(rows, ttl) <==> r in rows
    ensures r in rows ==> (Dead(View(rows, ttl)[r], now) <==> r in ttl && ttl[r] <= now)
  {
  }

  lemma PutIs(cells: Cells, r: Row, v: Bytes, now: int)
    ensures One(cells, r, Put(v), now)
         == (With(cells, r, Some(Cell(v, None))), Number(if r in cells && !Dead(cells[r], now) then 0 else 1))
  {
  }

  /** Writing a row forgets whether it was there. */
  lemma PutSame(rows: map<Row, Bytes>, r: Row, v: Bytes)
    ensures (rows - {r})[r := v] == rows[r := v]
  {
  }
}
