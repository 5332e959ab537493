/** What a client can tell of a hash field's deadline, at every later time: the meaning of the field commands by their
    replies alone (f1srv/hash.go, f1srv/hash_ttl.go). */
module HashLaws {
  import opened Bytes
  import opened HashCells

  /** Whether HGET finds the field at a time, and with which value. */
  function Found(c: Option<Cell>, t: int): (v: Option<Bytes>)
  {
    match OnCell(c, Get, t).1
    case Bulk(v) => Some(v)
    case _ => None
  }

  /** HPEXPIRETIME at a time. */
  function Asked(c: Option<Cell>, t: int): (r: Reply)
  {
    OnCell(c, Deadline, t).1
  }

  /** A deadline before another, none being later than all. */
  predicate Sooner(a: Option<int>, b: Option<int>)
  {
    match a
    case None => false
    case Some(m) => match b case None => true case Some(n) => m < n
  }

  /** A field is there until its deadline and not from then on, and HPEXPIRETIME tells the deadline. */
  lemma UntilDeadline(v: Bytes, dl: Option<int>, t: int)
    ensures var c := Some(Cell(v, dl));
            && Found(c, t) == (match dl case None => Some(v) case Some(at) => if t < at then Some(v) else None)
            && Asked(c, t) == (match dl case None => Number(-1) case Some(at) => Number(if t < at then at else -2))
    ensures Found(None, t) == None && Asked(None, t) == Number(-2)
  {
  }

  /** Looking changes nothing that any later look can tell. */
  lemma LookingKeeps(c: Option<Cell>, op: Op, now: int, t: int)
    requires (op.Get? || op.Exists? || op.Deadline? || op == GetRetime(Keep)) && now <= t
    ensures var (c', r) := OnCell(c, op, now);
            && Found(c', t) == Found(c, t) && Asked(c', t) == Asked(c, t)
            && (op.Exists? ==> r == Number(if Found(c, now).Some? then 1 else 0))
            && (op.GetRetime? ==> r == OnCell(c, Get, now).1)
  {
  }

  /** HSET: the new value, for good; it counts a field that was not there. */
  lemma PutStays(c: Option<Cell>, v: Bytes, now: int, t: int)
    ensures var (c', r) := OnCell(c, Put(v), now);
            && Found(c', t) == Some(v) && Asked(c', t) == Number(-1)
            && r == Number(if Found(c, now).Some? then 0 else 1)
  {
  }

  /** HDEL and HGETDEL: gone at every time; HGETDEL replies what HGET would. */
  lemma GoneStays(c: Option<Cell>, now: int, t: int)
    ensures Found(OnCell(c, Delete, now).0, t) == None && Found(OnCell(c, GetDelete, now).0, t) == None
    ensures OnCell(c, GetDelete, now).1 == OnCell(c, Get, now).1
    ensures OnCell(c, Delete, now).1 == Number(if c.Some? then 1 else 0)
  {
  }

  /** HPERSIST and HGETEX PERSIST: a field that is there stays for good; the reply tells whether it had a deadline. */
  lemma PersistStays(c: Option<Cell>, now: int, t: int)
    ensures var (c', r) := OnCell(c, Unexpire, now);
            && Found(c', t) == Found(c, now) && (Found(c, now).Some? ==> Asked(c', t) == Number(-1))
            && r == Number(if Found(c, now) == None then -2 else if c.value.deadline == None then -1 else 1)
    ensures var (c', r) := OnCell(c, GetRetime(Persist), now);
            && Found(c', t) == Found(c, now) && (Found(c, now).Some? ==> Asked(c', t) == Number(-1))
            && r == OnCell(c, Get, now).1
  {
  }

  /** HEXPIRE without a condition and HGETEX with a time: a field that is there keeps its value until that time and no
      longer; a time that has come takes it away at once. */
  lemma ExpireTimes(c: Option<Cell>, at: int, now: int, t: int)
    requires now <= t
    ensures var (c', r) := OnCell(c, Expire(at, Always), now);
            && Found(c', t) == (if t < at then Found(c, now) else None)
            && (Found(c', t).Some? ==> Asked(c', t) == Number(at))
            && r == Number(if Found(c, now) == None then -2 else if at <= now then 2 else 1)
    ensures var (c', r) := OnCell(c, GetRetime(At(at)), now);
            && Found(c', t) == (if t < at then Found(c, now) else None)
            && (Found(c', t).Some? ==> Asked(c', t) == Number(at))
            && r == OnCell(c, Get, now).1
  {
  }

  /** What HEXPIRE makes of the deadline of a field that is there, for a time still to come: it moves there under reply
      1 or stays under reply 0.  GT leaves the later of the two and LT the earlier, each moving just when the new one
      is strictly so; NX moves exactly a field without a deadline, XX exactly one with. */
  predicate Reschedules(dl: Option<int>, dl': Option<int>, at: int, cond: Condition, r: Reply)
  {
    && ((dl' == Some(at) && r == Number(1)) || (dl' == dl && r == Number(0)))
    && match cond
       case Always => r == Number(1)
       case Nx => r == Number(1) <==> dl == None
       case Xx => r == Number(1) <==> dl != None
       case Gt => !Sooner(dl', dl) && !Sooner(dl', Some(at)) && (r == Number(1) <==> Sooner(dl, Some(at)))
       case Lt => !Sooner(dl, dl') && !Sooner(Some(at), dl') && (r == Number(1) <==> Sooner(Some(at), dl))
  }

  lemma Conditions(v: Bytes, dl: Option<int>, at: int, cond: Condition, now: int)
    requires (dl.None? || now < dl.value) && now < at
    ensures var (c', r) := OnCell(Some(Cell(v, dl)), Expire(at, cond), now);
            c'.Some? && c'.value.value == v && Reschedules(dl, c'.value.deadline, at, cond, r)
  {
  }

  /** A field that is not there takes no deadline, and one that is there no deadline in the past, whatever the
      condition. */
  lemma ConditionsAside(c: Option<Cell>, at: int, cond: Condition, now: int)
    ensures Found(c, now) == None ==> OnCell(c, Expire(at, cond), now) == (None, Number(-2))
    ensures Found(c, now).Some? && at <= now ==> OnCell(c, Expire(at, cond), now) == (None, Number(2))
  {
  }
}
