/** Results that span list commands: whole runs, and moves between two keys (f1srv/list.go). */
module ListCommands {
  import opened Bytes
  import opened ListSpec
  import opened ListCells
  import opened ListKeys
  import opened HotList

  /** One client command, or one retirement, on the three-part representation. */
  method Step(list: HotList, c: Command) returns (reply: Reply)
    requires list.Valid() && Sendable(c)
    modifies list.Foot()
    ensures list.Valid() && fresh(list.Foot() - old(list.Foot()))
    ensures (list.State(), reply) == ActOn(old(list.State()), c)
  {
    hide HotList.Valid, HotList.State, HotList.ReadView, HotList.EditView, HotList.Abs, PushIn, PipeIn, PopIn,
         InsertIn, RemIn, RotateIn, Retired, PosAt, ListSpec.LRange, Removed, FirstIndex;
    match c
    case PushC(run, atHead, requireExisting, room) => reply := list.Push(run, atHead, requireExisting, room);
    case PipeC(elems, bnd, atHead, requireExisting, room) =>
      var rs := list.PushCoalesced(elems, bnd, atHead, requireExisting, room);
      reply := Several(rs);
    case PopC(fromHead, count) => reply := list.Pop(fromHead, count);
    case RangeC(start, stop) => reply := list.LRange(start, stop);
    case PosC(target, rank, limit, maxlen) => reply := list.LPos(target, rank, limit, maxlen);
    case InsertC(pivot, val, before) => reply := list.LInsert(pivot, val, before);
    case RemC(victim, howMany) => reply := list.LRem(victim, howMany);
    case RotateC(from, to) => reply := list.Rotate(from, to);
    case Retire =>
      list.DrainEvict();
      reply := Nil;
  }

  /** A move on rows, which may empty the source. */
  method MoveCold(src: HotList, dst: HotList, fromHead: bool, toHead: bool) returns (reply: Reply)
    requires src.Valid() && dst.Valid() && src.Foot() !! dst.Foot() && !Fast(src.State(), fromHead)
    modifies src.Foot(), dst.Foot()
    ensures src.Valid() && dst.Valid() && src.Foot() !! dst.Foot()
    ensures src.Foot() <= old(src.Foot()) && dst.Foot() <= old(dst.Foot())
    ensures (src.State(), dst.State(), reply) == MoveIn(old(src.State()), old(dst.State()), fromHead, toHead)
  {
    hide HotList.Valid, HotList.State, Popped, PushIn, Retired, Fast;
    reply := src.PopEnd(fromHead);
    if reply.Bulk? {
      var pushed := dst.PushEnd(reply.v, toHead);
      if pushed.Refused? {
        reply := pushed;
      }
    }
  }

  /** A move through the windows, where the source's gives the element up; otherwise nothing happens. */
  method MoveHot(src: HotList, dst: HotList, fromHead: bool, toHead: bool) returns (reply: Option<Reply>)
    requires src.Valid() && dst.Valid() && src.Foot() !! dst.Foot()
    modifies src.Foot(), dst.Foot()
    ensures src.Valid() && dst.Valid() && src.Foot() !! dst.Foot()
    ensures fresh(src.Foot() - old(src.Foot())) && fresh(dst.Foot() - old(dst.Foot()))
    ensures reply.Some? <==> Fast(old(src.State()), fromHead)
    ensures reply.Some? ==>
              (src.State(), dst.State(), reply.value) == MoveIn(old(src.State()), old(dst.State()), fromHead, toHead)
    ensures reply.None? ==> src.State() == old(src.State()) && dst.State() == old(dst.State())
  {
    hide HotList.Valid, HotList.State, Popped, Fast, Admitted, PushIn, Retired;
    reply := None;
    var v := src.PopFast(fromHead);
    if v.Some? {
      dst.PushAdmitting(v.value, toHead);
      reply := Some(Bulk(v.value));
    }
  }

  /** LMOVE between two keys. */
  method Move(src: HotList, dst: HotList, fromHead: bool, toHead: bool) returns (reply: Reply)
    requires src.Valid() && dst.Valid() && src.Foot() !! dst.Foot()
    modifies src.Foot(), dst.Foot()
    ensures src.Valid() && dst.Valid() && src.Foot() !! dst.Foot()
    ensures fresh(src.Foot() - old(src.Foot())) && fresh(dst.Foot() - old(dst.Foot()))
    ensures (src.State(), dst.State(), reply) == MoveIn(old(src.State()), old(dst.State()), fromHead, toHead)
  {
    hide HotList.Valid, HotList.State, HotList.Foot, Fast, MoveIn;
    var fast := MoveHot(src, dst, fromHead, toHead);
    if fast.Some? {
      reply := fast.value;
    } else {
      reply := MoveCold(src, dst, fromHead, toHead);
    }
  }

  type Feet = map<Bytes, set<object>>

  /** Everything the lists are made of. */
  ghost function All(feet: Feet): (f: set<object>)
  {
    set k, o | k in feet && o in feet[k] :: o
  }

  ghost predicate Disjoint(feet: Feet)
  {
    forall j, k :: j in feet && k in feet && j != k ==> feet[j] !! feet[k]
  }

  lemma DisjointOne(feet: Feet, key: Bytes, a: set<object>)
    requires Disjoint(feet) && key in feet && forall k :: k in feet && k != key ==> feet[k] !! a
    ensures Disjoint(feet[key := a])
  {
  }

  lemma DisjointPair(feet: Feet, src: Bytes, dst: Bytes, a: set<object>, b: set<object>)
    requires Disjoint(feet) && src in feet && dst in feet && src != dst && a !! b
    requires forall k :: k in feet && k != src && k != dst ==> feet[k] !! a && feet[k] !! b
    ensures Disjoint(feet[src := a][dst := b])
  {
  }

  /** Valid lists that share no memory. */
  ghost predicate Apart(lists: map<Bytes, HotList>, feet: Feet)
    reads lists.Values, set k | k in lists && lists[k].win != null :: lists[k].win.ring, All(feet)
  {
    && feet.Keys == lists.Keys
    && (forall k :: k in lists ==> lists[k].Foot() == feet[k] && lists[k].Valid())
    && Disjoint(feet)
  }

  ghost function States(lists: map<Bytes, HotList>, feet: Feet): (cells: Cells)
    requires Apart(lists, feet)
    reads lists.Values, set k | k in lists && lists[k].win != null :: lists[k].win.ring, All(feet)
    ensures cells.Keys == lists.Keys && Sound(cells)
  {
    map k | k in lists :: lists[k].State()
  }

  /** Memory that grew by new objects only. */
  twostate predicate Grown(was: Feet, new feet: Feet)
  {
    was.Keys == feet.Keys && forall k :: k in feet ==> fresh(feet[k] - was[k])
  }

  lemma ApartIs(lists: map<Bytes, HotList>, feet: Feet)
    ensures Apart(lists, feet) <==>
              && feet.Keys == lists.Keys && Disjoint(feet)
              && forall k :: k in lists ==> lists[k].Foot() == feet[k] && lists[k].Valid()
  {
  }

  /** One command of one list leaves the others alone. */
  method StepOthers(lists: map<Bytes, HotList>, ghost feet: Feet, key: Bytes, c: Command) returns (reply: Reply)
    requires Apart(lists, feet) && Asks(On(key, c), lists.Keys)
    modifies feet[key]
    ensures lists[key].Valid() && fresh(lists[key].Foot() - feet[key])
    ensures (lists[key].State(), reply) == ActOn(old(lists[key].State()), c)
    ensures forall k :: k in lists && k != key ==>
              && lists[k].Valid() && lists[k].Foot() == feet[k] && lists[k].State() == old(lists[k].State())
              && feet[k] !! lists[key].Foot()
  {
    hide HotList.Valid, HotList.State, HotList.Foot, ActOn;
    reply := Step(lists[key], c);
    forall k | k in lists && k != key ensures lists[k].Foot() == feet[k] {
      assert feet[k] !! feet[key];
    }
  }

  method StepApart(lists: map<Bytes, HotList>, ghost feet: Feet, key: Bytes, c: Command) returns (reply: Reply, ghost feet': Feet)
    requires Apart(lists, feet) && Asks(On(key, c), lists.Keys)
    modifies feet[key]
    ensures feet.Keys == lists.Keys && key in feet' && feet' == feet[key := feet'[key]] && fresh(feet'[key] - feet[key])
    ensures Apart(lists, feet')
    ensures (lists[key].State(), reply) == ActOn(old(lists[key].State()), c)
    ensures forall k :: k in lists && k != key ==> lists[k].State() == old(lists[k].State())
  {
    hide HotList.Valid, HotList.State, HotList.Foot, ActOn, Disjoint;
    reply := StepOthers(lists, feet, key, c);
    DisjointOne(feet, key, lists[key].Foot());
    feet' := feet[key := lists[key].Foot()];
  }

  /** A move between two lists leaves the others alone. */
  method MoveOthers(lists: map<Bytes, HotList>, ghost feet: Feet, src: Bytes, dst: Bytes, fromHead: bool, toHead: bool)
    returns (reply: Reply)
    requires Apart(lists, feet) && src in lists && dst in lists && src != dst
    modifies feet[src], feet[dst]
    ensures lists[src].Valid() && lists[dst].Valid() && lists[src].Foot() !! lists[dst].Foot()
    ensures fresh(lists[src].Foot() - feet[src]) && fresh(lists[dst].Foot() - feet[dst])
    ensures (lists[src].State(), lists[dst].State(), reply) ==
            MoveIn(old(lists[src].State()), old(lists[dst].State()), fromHead, toHead)
    ensures forall k :: k in lists && k != src && k != dst ==>
              && lists[k].Valid() && lists[k].Foot() == feet[k] && lists[k].State() == old(lists[k].State())
              && feet[k] !! lists[src].Foot() && feet[k] !! lists[dst].Foot()
  {
    hide HotList.Valid, HotList.State, HotList.Foot, MoveIn;
    reply := Move(lists[src], lists[dst], fromHead, toHead);
    forall k | k in lists && k != src && k != dst ensures lists[k].Foot() == feet[k] {
      assert feet[k] !! feet[src] && feet[k] !! feet[dst];
    }
  }

  method MoveApart(lists: map<Bytes, HotList>, ghost feet: Feet, src: Bytes, dst: Bytes, fromHead: bool, toHead: bool)
    returns (reply: Reply, ghost feet': Feet)
    requires Apart(lists, feet) && src in lists && dst in lists && src != dst
    modifies feet[src], feet[dst]
    ensures feet.Keys == lists.Keys && src in feet' && dst in feet' && feet' == feet[src := feet'[src]][dst := feet'[dst]]
    ensures fresh(feet'[src] - feet[src]) && fresh(feet'[dst] - feet[dst])
    ensures Apart(lists, feet')
    ensures (lists[src].State(), lists[dst].State(), reply) ==
            MoveIn(old(lists[src].State()), old(lists[dst].State()), fromHead, toHead)
    ensures forall k :: k in lists && k != src && k != dst ==> lists[k].State() == old(lists[k].State())
  {
    hide HotList.Valid, HotList.State, HotList.Foot, MoveIn, Disjoint, Apart;
    ApartIs(lists, feet);
    reply := MoveOthers(lists, feet, src, dst, fromHead, toHead);
    DisjointPair(feet, src, dst, lists[src].Foot(), lists[dst].Foot());
    feet' := feet[src := lists[src].Foot()][dst := lists[dst].Foot()];
    ApartIs(lists, feet');
  }

  lemma StatesAre(lists: map<Bytes, HotList>, feet: Feet)
    requires Apart(lists, feet)
    ensures feet.Keys == lists.Keys && forall k :: k in lists ==> States(lists, feet)[k] == lists[k].State()
  {
  }

  lemma ActOnIs(was: Cells, now: Cells, key: Bytes, c: Command, reply: Reply)
    requires now.Keys == was.Keys && Asks(On(key, c), was.Keys) && (now[key], reply) == ActOn(was[key], c)
    requires forall k :: k in was && k != key ==> now[k] == was[k]
    ensures (now, reply) == Act(was, On(key, c))
  {
    hide ActOn;
    assert now == was[key := now[key]];
  }

  lemma ActBetweenIs(was: Cells, now: Cells, src: Bytes, dst: Bytes, fromHead: bool, toHead: bool, reply: Reply)
    requires now.Keys == was.Keys && Asks(Between(src, dst, fromHead, toHead), was.Keys)
    requires (now[src], now[dst], reply) == MoveIn(was[src], was[dst], fromHead, toHead)
    requires forall k :: k in was && k != src && k != dst ==> now[k] == was[k]
    ensures (now, reply) == Act(was, Between(src, dst, fromHead, toHead))
  {
    hide MoveIn;
    assert now == was[src := now[src]][dst := now[dst]];
  }

  /** One command of one list. */
  method ServeOn(lists: map<Bytes, HotList>, ghost feet: Feet, key: Bytes, c: Command) returns (reply: Reply, ghost feet': Feet)
    requires Apart(lists, feet) && Asks(On(key, c), lists.Keys)
    modifies All(feet)
    ensures Apart(lists, feet') && Grown(feet, feet')
    ensures (States(lists, feet'), reply) == Act(old(States(lists, feet)), On(key, c))
  {
    hide HotList.Valid, HotList.State, HotList.Foot, ActOn, States, Act, Apart;
    ghost var was := States(lists, feet);
    StatesAre(lists, feet);
    reply, feet' := StepApart(lists, feet, key, c);
    StatesAre(lists, feet');
    ActOnIs(was, States(lists, feet'), key, c, reply);
  }

  /** A move between two lists. */
  method ServeBetween(lists: map<Bytes, HotList>, ghost feet: Feet, src: Bytes, dst: Bytes, fromHead: bool, toHead: bool)
    returns (reply: Reply, ghost feet': Feet)
    requires Apart(lists, feet) && Asks(Between(src, dst, fromHead, toHead), lists.Keys)
    modifies All(feet)
    ensures Apart(lists, feet') && Grown(feet, feet')
    ensures (States(lists, feet'), reply) == Act(old(States(lists, feet)), Between(src, dst, fromHead, toHead))
  {
    hide HotList.Valid, HotList.State, HotList.Foot, MoveIn, States, Act, Apart;
    ghost var was := States(lists, feet);
    StatesAre(lists, feet);
    reply, feet' := MoveApart(lists, feet, src, dst, fromHead, toHead);
    StatesAre(lists, feet');
    ActBetweenIs(was, States(lists, feet'), src, dst, fromHead, toHead, reply);
  }

  /** One request. */
  method Serve(lists: map<Bytes, HotList>, ghost feet: Feet, q: Request) returns (reply: Reply, ghost feet': Feet)
    requires Apart(lists, feet) && Asks(q, lists.Keys)
    modifies All(feet)
    ensures Apart(lists, feet') && Grown(feet, feet')
    ensures (States(lists, feet'), reply) == Act(old(States(lists, feet)), q)
  {
    hide States, Apart, Act, All;
    match q
    case On(key, c) => reply, feet' := ServeOn(lists, feet, key, c);
    case Between(src, dst, fromHead, toHead) => reply, feet' := ServeBetween(lists, feet, src, dst, fromHead, toHead);
  }

  /** Every run of requests over any number of keys, with windows admitted and retired along the way, leaves and
      replies what the reference does. */
  method Run(lists: map<Bytes, HotList>, ghost feet0: Feet, qs: seq<Request>) returns (replies: seq<Reply>, ghost feet: Feet)
    requires Apart(lists, feet0) && forall q :: q in qs ==> Asks(q, lists.Keys)
    modifies All(feet0)
    ensures Apart(lists, feet) && Grown(feet0, feet)
    ensures (States(lists, feet), replies) == ActAll(old(States(lists, feet0)), qs)
  {
    hide Apart, States, Act, ActAll, Asks;
    replies, feet := [], feet0;
    var i := 0;
    ghost var cells := States(lists, feet0);
    RunNone(cells);
    assert qs[..0] == [];
    while i < |qs|
      invariant 0 <= i <= |qs|
      invariant Apart(lists, feet) && Grown(feet0, feet)
      invariant (States(lists, feet), replies) == ActAll(cells, qs[..i])
    {
      assert qs[..i + 1] == qs[..i] + [qs[i]];
      RunStep(cells, qs[..i], qs[i]);
      var reply;
      ghost var was := feet;
      label Before:
      reply, feet := Serve(lists, feet, qs[i]);
      forall k, o | k in feet && o in feet[k] && o !in feet0[k] ensures fresh(o) {
        if o !in was[k] {
          assert fresh@Before(o);
        }
      }
      replies := replies + [reply];
      i := i + 1;
    }
    assert qs[..|qs|] == qs;
  }
}
