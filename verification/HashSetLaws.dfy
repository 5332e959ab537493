/** HSET, HSETNX and HDEL as HGET finds their fields at every later time (f1srv/hash.go). */
module HashSetLaws {
  import opened Bytes
  import opened HashCells
  import opened HashLaws
  import opened HashStore
  import HashCommands

  /** The value last given to a field. */
  function Last(pairs: seq<(Bytes, Bytes)>, f: Bytes): (v: Option<Bytes>)
    ensures v.None? <==> forall i :: 0 <= i < |pairs| ==> pairs[i].0 != f
  {
    if pairs == [] then None
    else
      var k := |pairs| - 1;
      if pairs[k].0 == f then Some(pairs[k].1) else Last(pairs[..k], f)
  }

  function Names(pairs: seq<(Bytes, Bytes)>): (fields: seq<Bytes>)
    ensures |fields| == |pairs| && forall i :: 0 <= i < |pairs| ==> fields[i] == pairs[i].0
  {
    seq(|pairs|, i requires 0 <= i < |pairs| => pairs[i].0)
  }

  /** The fields named that HGET does not find. */
  function Fresh(cells: HashCells.Cells, h: Bytes, pairs: seq<(Bytes, Bytes)>, now: int): (s: set<Bytes>)
  {
    set f | f in Names(pairs) && Found(Look(cells, (h, f)), now) == None
  }

  lemma FreshStep(cells: HashCells.Cells, h: Bytes, pairs: seq<(Bytes, Bytes)>, now: int)
    requires pairs != []
    ensures var k := |pairs| - 1;
            var f, one := pairs[k].0, if Found(Look(cells, (h, pairs[k].0)), now) == None then 1 else 0;
            |Fresh(cells, h, pairs, now)| == |Fresh(cells, h, pairs[..k], now)| + (if Last(pairs[..k], f).None? then one else 0)
  {
    hide Found, Last, Names, Look;
    var k := |pairs| - 1;
    var f, before := pairs[k].0, Names(pairs[..k]);
    assert Names(pairs) == before + [f];
    assert f in before <==> Last(pairs[..k], f).Some? by { InNames(pairs[..k], f); }
    var s, s' := Fresh(cells, h, pairs[..k], now), Fresh(cells, h, pairs, now);
    if Found(Look(cells, (h, f)), now) == None {
      assert f in s <==> f in before;
      assert s' == s + {f};
    } else {
      assert s' == s;
    }
  }

  lemma InNames(pairs: seq<(Bytes, Bytes)>, f: Bytes)
    ensures f in Names(pairs) <==> Last(pairs, f).Some?
  {
    hide Last, Names;
    if Last(pairs, f).Some? {
      var i :| 0 <= i < |pairs| && pairs[i].0 == f;
      assert Names(pairs)[i] == f;
    }
  }

  /** Pairs written one after another: each field holds the value last given to it, for good; the replies sum to the
      number of fields that were not there. */
  lemma {:induction false} PutsLeave(cells: HashCells.Cells, h: Bytes, pairs: seq<(Bytes, Bytes)>, now: int)
    ensures var (after, replies) := Each(cells, Puts(h, pairs), now);
            && (forall r :: Look(after, r)
                         == if r.0 == h && Last(pairs, r.1).Some? then Some(Cell(Last(pairs, r.1).value, None)) else Look(cells, r))
            && Sum(replies) == |Fresh(cells, h, pairs, now)|
  {
    hide Each, Sum, One, Last, Fresh, Found;
    var ops := Puts(h, pairs);
    if pairs == [] {
      EachNone(cells, now);
      NoneFresh(cells, h, now);
    } else {
      var k := |pairs| - 1;
      PutsLeave(cells, h, pairs[..k], now);
      assert ops[..k] == Puts(h, pairs[..k]) && ops[..k + 1] == ops;
      EachStep(cells, ops, k, now);
      var mid := Each(cells, ops[..k], now).0;
      PutOne(mid, (h, pairs[k].0), pairs[k].1, now);
      FreshStep(cells, h, pairs, now);
      forall f ensures Last(pairs, f) == if f == pairs[k].0 then Some(pairs[k].1) else Last(pairs[..k], f) { LastStep(pairs, f); }
      FoundWhole(Last(pairs[..k], pairs[k].0), now);
    }
  }

  lemma NoneFresh(cells: HashCells.Cells, h: Bytes, now: int)
    ensures Fresh(cells, h, [], now) == {} && forall f :: Last([], f) == None
  {
  }

  lemma LastStep(pairs: seq<(Bytes, Bytes)>, f: Bytes)
    requires pairs != []
    ensures var k := |pairs| - 1; Last(pairs, f) == if f == pairs[k].0 then Some(pairs[k].1) else Last(pairs[..k], f)
  {
  }

  lemma FoundWhole(v: Option<Bytes>, now: int)
    ensures v.Some? ==> Found(Some(Cell(v.value, None)), now) == v
  {
  }

  lemma PutOne(cells: HashCells.Cells, r: Row, v: Bytes, now: int)
    ensures var (after, reply) := One(cells, r, Put(v), now);
            && (forall s :: Look(after, s) == if s == r then Some(Cell(v, None)) else Look(cells, s))
            && reply == Number(if Found(Look(cells, r), now) == None then 1 else 0)
  {
  }

  /** HSET of pairs the store takes: at every later time HGET finds each named field with the value last given to it
      and any other field as it was; the reply is the number of fields that were not there. */
  lemma SetFinds(cells: HashCells.Cells, h: Bytes, pairs: seq<(Bytes, Bytes)>, now: int, r: Row, t: int)
    requires h != [] && forall i :: 0 <= i < |pairs| ==> Takes((h, pairs[i].0), pairs[i].1)
    ensures var (after, reply) := SetAll(cells, h, pairs, now);
            && reply == Count(|Fresh(cells, h, pairs, now)|)
            && Found(Look(after, r), t) == if r.0 == h && Last(pairs, r.1).Some? then Last(pairs, r.1) else Found(Look(cells, r), t)
  {
    hide Takes, Puts, Each, Sum, Last, Fresh, Found;
    var k := Landed(h, pairs);
    assert pairs[..k] == pairs;
    TouchedAll(h, pairs);
    PutsLeave(cells, h, pairs, now);
    FoundWhole(Last(pairs, r.1), t);
  }

  /** HSET of which the store refuses a pair: the pairs before it are written, those from it on are not, and the
      command fails. */
  lemma SetStops(cells: HashCells.Cells, h: Bytes, pairs: seq<(Bytes, Bytes)>, k: nat, now: int, r: Row)
    requires k < |pairs| && !Takes((h, pairs[k].0), pairs[k].1)
    requires forall i :: 0 <= i < k ==> Takes((h, pairs[i].0), pairs[i].1)
    ensures var (after, reply) := SetAll(cells, h, pairs, now);
            && reply == Refused
            && Found(Look(after, r), now)
               == if r.0 == h && Last(pairs[..k], r.1).Some? then Last(pairs[..k], r.1) else Found(Look(cells, r), now)
  {
    hide Takes, Puts, Each, Sum, Last, Fresh, Found, One;
    assert Landed(h, pairs) == k;
    TouchedStopped(cells, h, pairs, now);
    PutsLeave(cells, h, pairs[..k], now);
    UntimedOne(Each(cells, Puts(h, pairs[..k]), now).0, (h, pairs[k].0), now, r);
    FoundWhole(Last(pairs[..k], r.1), now);
  }

  lemma UntimedOne(cells: HashCells.Cells, r: Row, now: int, s: Row)
    ensures Found(Look(One(cells, r, Unexpire, now).0, s), now) == Found(Look(cells, s), now)
  {
  }

  /** HSETNX writes exactly a field HGET does not find, and for good. */
  lemma NewFinds(cells: HashCells.Cells, r: Row, v: Bytes, now: int, s: Row, t: int)
    requires r.0 != [] && Takes(r, v) && now <= t
    ensures var (after, reply) := SetNew(cells, r, v, now);
            var isNew := Found(Look(cells, r), now) == None;
            && reply == Count(if isNew then 1 else 0)
            && Found(Look(after, s), t) == if s == r && isNew then Some(v) else Found(Look(cells, s), t)
  {
  }

  /** The fields named that have a row. */
  function Kept(cells: HashCells.Cells, h: Bytes, fields: seq<Bytes>): (s: set<Bytes>)
  {
    set f | f in fields && (h, f) in cells
  }

  lemma KeptStep(cells: HashCells.Cells, h: Bytes, fields: seq<Bytes>)
    requires fields != []
    ensures var k := |fields| - 1;
            var f := fields[k];
            |Kept(cells, h, fields)| == |Kept(cells, h, fields[..k])| + (if (h, f) in cells && f !in fields[..k] then 1 else 0)
  {
    var k := |fields| - 1;
    var f := fields[k];
    assert fields == fields[..k] + [f];
    var s, s' := Kept(cells, h, fields[..k]), Kept(cells, h, fields);
    if (h, f) in cells {
      assert f in s <==> f in fields[..k];
      assert s' == s + {f};
    } else {
      assert s' == s;
    }
  }

  /** HDEL replies the number of fields it takes away, each counted once however often it is named. */
  lemma {:induction false} DeleteCounts(cells: HashCells.Cells, h: Bytes, fields: seq<Bytes>, now: int)
    ensures Deleted(cells, h, fields, now).1 == Count(|Kept(cells, h, fields)|)
  {
    hide Each, Sum, One, Kept;
    var ops := Same(h, fields, Delete);
    if fields == [] {
      EachNone(cells, now);
      assert Kept(cells, h, []) == {} by { NoneKept(cells, h); }
    } else {
      var k := |fields| - 1;
      var r := (h, fields[k]);
      DeleteCounts(cells, h, fields[..k], now);
      assert ops[..k] == Same(h, fields[..k], Delete) && ops[..k + 1] == ops;
      EachStep(cells, ops, k, now);
      HashCommands.DeletesLeave(cells, h, fields[..k], now, r);
      HashCommands.DeleteReply(Each(cells, ops[..k], now).0, r, now);
      KeptStep(cells, h, fields);
    }
  }

  lemma NoneKept(cells: HashCells.Cells, h: Bytes)
    ensures Kept(cells, h, []) == {}
  {
  }
}
