/** Hash rows, their deadlines, and the counters kept beside them (f1srv/hash.go, f1srv/hash_ttl.go). */
module HashStore {
  import opened Bytes
  import opened HashCells
  import opened HashTally
  import HashLaws
  import opened Pipeline
  import RowKeys
  import RowStore

  /** `Refused` is the store's error for a key or a value that is too long. */
  datatype Answer = WrongType | Refused | Replies(rs: seq<Reply>) | Count(n: int) | Pairs(size: int, pairs: map<Bytes, Bytes>)

  /** The fields an HSET writes. */
  function Puts(h: Bytes, pairs: seq<(Bytes, Bytes)>): (ops: seq<(Row, Op)>)
    ensures |ops| == |pairs| && forall i :: 0 <= i < |pairs| ==> ops[i] == ((h, pairs[i].0), Put(pairs[i].1))
  {
    seq(|pairs|, i requires 0 <= i < |pairs| => ((h, pairs[i].0), Put(pairs[i].1)))
  }

  /** The store takes rows of this field under this key. */
  predicate Lands(h: Bytes, f: Bytes)
  {
    |RowKeys.Framed(h, f)| <= RowStore.KEY_MAX
  }

  lemma LandsIs(h: Bytes, f: Bytes)
    ensures Lands(h, f) <==> |RowKeys.Uvarint(|h|)| + |h| + |f| < 0x1_0000
  {
    RowKeys.FramedIs(h, f);
  }

  /** The store takes this field with this value. */
  predicate Takes(r: Row, v: Bytes)
  {
    Lands(r.0, r.1) && RowStore.Fits(v)
  }

  /** How many pairs the store takes before the first one it refuses. */
  function Landed(h: Bytes, pairs: seq<(Bytes, Bytes)>): (k: nat)
    ensures k <= |pairs| && (forall i :: 0 <= i < k ==> Takes((h, pairs[i].0), pairs[i].1))
    ensures k < |pairs| ==> !Takes((h, pairs[k].0), pairs[k].1)
  {
    if pairs == [] || !Takes((h, pairs[0].0), pairs[0].1) then 0 else 1 + Landed(h, pairs[1..])
  }

  /** The fields an HSET touches: those it writes and, when it is stopped, the refused one, which has lost its
      deadline by then. */
  function Touched(h: Bytes, pairs: seq<(Bytes, Bytes)>): (ops: seq<(Row, Op)>)
    ensures forall i :: 0 <= i < |ops| ==> ops[i].0.0 == h && !ops[i].1.Delete?
  {
    var k := Landed(h, pairs);
    Puts(h, pairs[..k]) + if k < |pairs| then [((h, pairs[k].0), Unexpire)] else []
  }

  /** How many fields an HSET makes. */
  function Made(cells: HashCells.Cells, h: Bytes, pairs: seq<(Bytes, Bytes)>, now: int): (n: int)
  {
    Sum(Each(cells, Puts(h, pairs[..Landed(h, pairs)]), now).1)
  }

  /** An HSET that ends without having counted the fields it made: the store refused a pair, or a header row under
      the empty key. */
  predicate SetDrifts(cells: HashCells.Cells, h: Bytes, pairs: seq<(Bytes, Bytes)>, now: int)
  {
    Made(cells, h, pairs, now) > 0 && (Landed(h, pairs) < |pairs| || h == [])
  }

  /** What an HSET leaves and replies. */
  function SetAll(cells: HashCells.Cells, h: Bytes, pairs: seq<(Bytes, Bytes)>, now: int): (r: (HashCells.Cells, Answer))
  {
    (Each(cells, Touched(h, pairs), now).0,
     if Landed(h, pairs) < |pairs| || SetDrifts(cells, h, pairs, now) then Refused else Count(Made(cells, h, pairs, now)))
  }

  /** The same of an HSETNX. */
  predicate NewDrifts(cells: HashCells.Cells, r: Row, v: Bytes, now: int)
  {
    r.0 == [] && Takes(r, v) && !(r in cells && !Dead(cells[r], now))
  }

  function SetNew(cells: HashCells.Cells, r: Row, v: Bytes, now: int): (res: (HashCells.Cells, Answer))
  {
    if r in cells && !Dead(cells[r], now) then (cells, Count(0))
    else if !Takes(r, v) then (With(cells, r, None), Refused)
    else (With(cells, r, Some(Cell(v, None))), if r.0 == [] then Refused else Count(1))
  }

  /** The sum of integer replies. */
  function Sum(replies: seq<Reply>): (n: int)
  {
    if replies == [] then 0
    else
      var k := |replies| - 1;
      Sum(replies[..k]) + (if replies[k].Number? then replies[k].n else 0)
  }

  lemma LandedAt(h: Bytes, pairs: seq<(Bytes, Bytes)>, i: nat)
    requires i <= Landed(h, pairs) && i < |pairs|
    ensures Takes((h, pairs[i].0), pairs[i].1) <==> i < Landed(h, pairs)
    ensures i < Landed(h, pairs) ==> Puts(h, pairs[..Landed(h, pairs)])[i] == ((h, pairs[i].0), HashCells.Put(pairs[i].1))
  {
    hide Takes;
  }

  lemma TouchedAll(h: Bytes, pairs: seq<(Bytes, Bytes)>)
    ensures Landed(h, pairs) == |pairs| ==> Touched(h, pairs) == Puts(h, pairs[..Landed(h, pairs)])
  {
    hide Takes, Landed, Puts;
  }

  lemma TouchedStopped(cells: HashCells.Cells, h: Bytes, pairs: seq<(Bytes, Bytes)>, now: int)
    requires Landed(h, pairs) < |pairs|
    ensures var k := Landed(h, pairs);
            Each(cells, Touched(h, pairs), now).0 == One(Each(cells, Puts(h, pairs[..k]), now).0, (h, pairs[k].0), Unexpire, now).0
  {
    hide Takes, Landed, Puts, Each, One;
    var k := Landed(h, pairs);
    var ops := Touched(h, pairs);
    assert ops[..k] == Puts(h, pairs[..k]) && ops[..k + 1] == ops && ops[k] == ((h, pairs[k].0), Unexpire);
    EachStep(cells, ops, k, now);
  }

  /** What a discarded deadline leaves of a field. */
  lemma Untimed(rows: map<Row, Bytes>, ttl: map<Row, int>, r: Row, now: int)
    ensures var dead := r in rows && Dead(View(rows, ttl)[r], now);
            View(if dead then rows - {r} else rows, ttl - {r}) == One(View(rows, ttl), r, Unexpire, now).0
  {
    var cells := View(rows, ttl);
    var a := View(if r in rows && Dead(cells[r], now) then rows - {r} else rows, ttl - {r});
    forall s ensures Look(a, s) == Look(One(cells, r, Unexpire, now).0, s) {
    }
    SameCells(a, One(cells, r, Unexpire, now).0);
  }

  lemma Absent(cells: HashCells.Cells, r: Row, now: int)
    ensures !(r in cells) ==> With(cells, r, None) == cells
  {
    WithSame(cells, r);
  }

  lemma EachNone(cells: HashCells.Cells, now: int)
    ensures Each(cells, [], now) == (cells, []) && Sum([]) == 0
  {
  }

  lemma EachStep(cells: HashCells.Cells, ops: seq<(Row, Op)>, i: nat, now: int)
    requires i < |ops|
    ensures var (mid, replies) := Each(cells, ops[..i], now);
            var (after, reply) := One(mid, ops[i].0, ops[i].1, now);
            && Each(cells, ops[..i + 1], now) == (after, replies + [reply])
            && Sum(replies + [reply]) == Sum(replies) + (if reply.Number? then reply.n else 0)
  {
    hide One;
    assert ops[..i + 1][..i] == ops[..i];
    var replies := Each(cells, ops[..i], now).1;
    var reply := One(Each(cells, ops[..i], now).0, ops[i].0, ops[i].1, now).1;
    assert (replies + [reply])[..|replies|] == replies;
  }

  /** What one HDEL leaves and replies. */
  function Deleted(cells: HashCells.Cells, h: Bytes, fields: seq<Bytes>, now: int): (r: (HashCells.Cells, Answer))
  {
    var (after, replies) := Each(cells, Same(h, fields, Delete), now);
    (after, Count(Sum(replies)))
  }

  /** The first k deletes of the pipeline, one command after another. */
  function DeletedRuns(cells: HashCells.Cells, h: Bytes, elems: seq<Bytes>, bnd: seq<int>, k: nat, now: int): (r: (HashCells.Cells, seq<Answer>))
    requires Boundaries(bnd, |elems|) && k <= |bnd|
  {
    if k == 0 then (cells, [])
    else
      var (mid, replies) := DeletedRuns(cells, h, elems, bnd, k - 1, now);
      var (after, reply) := Deleted(mid, h, elems[Start(bnd, k - 1)..bnd[k - 1]], now);
      (after, replies + [reply])
  }

  /** One operation on several fields of a hash. */
  function Same(h: Bytes, fields: seq<Bytes>, op: Op): (ops: seq<(Row, Op)>)
    ensures |ops| == |fields| && forall i :: 0 <= i < |fields| ==> ops[i] == ((h, fields[i]), op)
  {
    seq(|fields|, i requires 0 <= i < |fields| => ((h, fields[i]), op))
  }

  /** How far a header is behind once n rows are left, if it was d ahead: it never counts less than none. */
  function Behind(d: int, n: int): (d': int)
    ensures d <= 0 && n >= 0 ==> d' <= 0
  {
    if d < -n then -n else d
  }

  lemma BehindTwice(d: int, n: int, n': int)
    requires n' <= n
    ensures Behind(Behind(d, n), n') == Behind(d, n')
  {
  }

  lemma OfLess<T>(m: map<Row, T>, r: Row)
    requires r in m
    ensures |Of((m - {r}).Keys, r.0)| == |Of(m.Keys, r.0)| - 1
  {
    KeysLess(m, r);
    OfAdd(m.Keys - {r}, r, r.0);
    assert m.Keys == (m.Keys - {r}) + {r};
  }

  class Rows {
    var rows: map<Row, Bytes>       // field rows
    var index: set<Row>             // the ordered element index
    var ttl: map<Row, int>          // deadline rows
    var hdr: map<Bytes, int>        // header rows: fields per hash
    var hint: map<Bytes, int>       // hint rows: deadlines per hash
    var hfe: int                    // deadlines in the keyspace
    var strings: set<Bytes>         // keys that hold a string

    ghost function Cells(): (cells: HashCells.Cells)
      reads this
    {
      View(rows, ttl)
    }

    ghost predicate TtlOk()
      reads this`hint, this`ttl, this`hfe
    {
      Tally(hint, ttl.Keys, [], 0) && hfe == |ttl.Keys|
    }

    /** Every counter is exact, but for h's header, which is d ahead of its rows. */
    ghost predicate Ok(h: Bytes, d: int)
      reads this
    {
      TtlOk() && index == rows.Keys && ttl.Keys <= rows.Keys && Tally(hdr, rows.Keys, h, d)
    }

    ghost predicate Valid()
      reads this
    {
      Ok([], 0)
    }

    /** h's header is behind its rows by -d, and counts none at the least. */
    ghost predicate Lags(h: Bytes, d: int)
      reads this
    {
      Ok(h, d) && -|Of(rows.Keys, h)| <= d <= 0
    }

    constructor ()
      ensures Valid() && Cells() == map[] && strings == {}
    {
      rows, index, ttl, hdr, hint, hfe, strings := map[], {}, map[], map[], map[], 0, {};
      new;
      assert forall k :: Of({}, k) == {};
    }

    /** setFieldTTLLocked. */
    method SetFieldTtl(r: Row, at: int, ghost d: int)
      requires Ok(r.0, d) && r in rows
      modifies this`ttl, this`hint, this`hfe
      ensures Ok(r.0, d) && ttl == old(ttl)[r := at]
    {
      hide Tally, Num, SetNum;
      if r !in ttl {
        TallyMore(hint, ttl.Keys, r);
        hfe := hfe + 1;
        hint := SetNum(hint, r.0, Num(hint, r.0) + 1);
      }
      KeysPut(ttl, r, at);
      ttl := ttl[r := at];
    }

    /** clearFieldTTLLocked. */
    method ClearFieldTtl(r: Row) returns (had: bool)
      requires TtlOk()
      modifies this`ttl, this`hint, this`hfe
      ensures TtlOk() && had == (r in old(ttl)) && ttl == old(ttl) - {r}
    {
      hide Tally, Num, SetNum;
      had := r in ttl;
      if had {
        TallyFewer(hint, ttl.Keys, r);
        assert (ttl - {r}).Keys == ttl.Keys - {r};
        ttl := ttl - {r};
        hfe := hfe - 1;
        var n := Num(hint, r.0);
        if n > 0 {
          hint := SetNum(hint, r.0, n - 1);
        }
      } else {
        assert ttl - {r} == ttl;
      }
    }

    /** The value row and the index entry of a field go together. */
    method DeleteRow(r: Row, ghost d: int)
      requires Ok(r.0, d) && r in rows
      modifies this`rows, this`index
      ensures rows == old(rows) - {r} && index == rows.Keys && Tally(hdr, rows.Keys, r.0, d + 1)
    {
      hide Tally;
      TallyRemove(hdr, rows.Keys, r, d);
      assert (rows - {r}).Keys == rows.Keys - {r};
      rows := rows - {r};
      index := index - {r};
    }

    /** reapFieldLocked. */
    method ReapField(r: Row, ghost d: int)
      requires Ok(r.0, d) && r in rows && Num(hdr, r.0) >= 0
      modifies this`rows, this`index, this`ttl, this`hint, this`hfe, this`hdr
      ensures Ok(r.0, if old(Num(hdr, r.0)) >= 1 then d else d + 1)
      ensures Cells() == With(old(Cells()), r, None) && rows == old(rows) - {r} && ttl == old(ttl) - {r}
      ensures Num(hdr, r.0) == if old(Num(hdr, r.0)) >= 1 then old(Num(hdr, r.0)) - 1 else 0
    {
      hide Tally, Num, With, View, TtlOk;
      DeleteRow(r, d);
      assert TtlOk();
      var _ := ClearFieldTtl(r);
      KeysMinus(old(ttl), old(rows), r);
      ViewRemoved(old(rows), old(ttl), r);
      CountDown(r.0, d + 1);
    }

    /** One field fewer on the header, or no header. */
    method CountDown(h: Bytes, ghost d: int)
      requires Tally(hdr, rows.Keys, h, d) && Num(hdr, h) >= 0
      modifies this`hdr
      ensures Tally(hdr, rows.Keys, h, if old(Num(hdr, h)) >= 1 then d - 1 else d)
      ensures Num(hdr, h) == if old(Num(hdr, h)) >= 1 then old(Num(hdr, h)) - 1 else 0
    {
      hide Tally, Num, SetNum;
      var count := Num(hdr, h);
      TallySet(hdr, rows.Keys, h, d, if count <= 1 then 0 else count - 1);
      hdr := SetNum(hdr, h, if count <= 1 then 0 else count - 1);
    }

    /** A field is reaped while the header is behind. */
    method ReapLagging(r: Row, ghost d: int)
      requires Lags(r.0, d) && r in rows
      modifies this`rows, this`index, this`ttl, this`hint, this`hfe, this`hdr
      ensures Lags(r.0, Behind(d, |Of(rows.Keys, r.0)|)) && |Of(rows.Keys, r.0)| == |Of(old(rows).Keys, r.0)| - 1
      ensures Cells() == With(old(Cells()), r, None) && rows == old(rows) - {r} && ttl == old(ttl) - {r}
    {
      hide Tally, Num, With, View, TtlOk, Of;
      LagCount(r.0, d);
      assert |Of((rows - {r}).Keys, r.0)| == |Of(rows.Keys, r.0)| - 1 by { OfLess(rows, r); }
      ReapField(r, d);
    }

    /** fieldTTL. */
    function FieldTtl(r: Row): (at: Option<int>)
      reads this
    {
      if r in ttl then Some(ttl[r]) else None
    }

    /** hashHasFieldTTL: both gates. */
    predicate HasFieldTtl(h: Bytes)
      reads this
    {
      hfe != 0 && Num(hint, h) > 0
    }

    /** A closed gate means no deadlines to look at. */
    lemma GateSound(h: Bytes)
      requires TtlOk()
      ensures !HasFieldTtl(h) ==> forall r :: r in ttl ==> r.0 != h
      ensures hfe == 0 ==> ttl == map[]
    {
      hide Tally, Num;
      if hfe == 0 {
        assert ttl.Keys == {};
      } else if !HasFieldTtl(h) {
        TallyAny(hint, ttl.Keys, [], h);
        TallyAtLeast(hint, ttl.Keys, h);
        TallyZero(hint, ttl.Keys, h);
      }
    }

    /** hfieldExpired: reap a field whose deadline has passed. */
    method FieldExpired(r: Row, now: int, ghost d: int) returns (dead: bool)
      requires Lags(r.0, d)
      modifies this`rows, this`index, this`ttl, this`hint, this`hfe, this`hdr
      ensures Lags(r.0, Behind(d, |Of(rows.Keys, r.0)|)) && dead == (r in old(rows) && Dead(old(Cells())[r], now))
      ensures Cells() == if dead then With(old(Cells()), r, None) else old(Cells())
    {
      hide Tally, Num, With, View, Of;
      GateSound(r.0);
      if hfe == 0 {
        return false;
      }
      var at := FieldTtl(r);
      if at.None? || at.value > now {
        return false;
      }
      ReapLagging(r, d);
      dead := true;
    }

    /** HGET, whose reply is the field's however far the header is behind. */
    method HGet(r: Row, now: int, ghost d: int) returns (reply: Reply)
      requires Lags(r.0, d)
      modifies this`rows, this`index, this`ttl, this`hint, this`hfe, this`hdr
      ensures Lags(r.0, Behind(d, |Of(rows.Keys, r.0)|)) && (Cells(), reply) == One(old(Cells()), r, Get, now)
    {
      hide Tally, With, Lags;
      WithSame(Cells(), r);
      var dead := FieldExpired(r, now, d);
      if dead || r !in rows {
        reply := Nil;
      } else {
        reply := Bulk(rows[r]);
      }
    }

    /** HEXISTS. */
    method HExists(r: Row, now: int, ghost d: int) returns (reply: Reply)
      requires Lags(r.0, d)
      modifies this`rows, this`index, this`ttl, this`hint, this`hfe, this`hdr
      ensures Lags(r.0, Behind(d, |Of(rows.Keys, r.0)|)) && (Cells(), reply) == One(old(Cells()), r, Exists, now)
    {
      hide Tally, With, Lags;
      WithSame(Cells(), r);
      var dead := FieldExpired(r, now, d);
      reply := Number(if !dead && r in rows then 1 else 0);
    }

    /** In the middle of an HSET: the header is behind by the fields made so far, none of them timed, and
        a closed gate still means no deadlines. */
    ghost predicate Making(h: Bytes, made: set<Row>, hadTtl: bool)
      reads this
    {
      Ok(h, -|made|) && MadeHere(rows, ttl, h, made, hadTtl)
    }

    /** discardFieldTTLBeforeSet: a dead field goes, a live one only loses its deadline. */
    method DiscardTtl(r: Row, hadTtl: bool, now: int, ghost made: set<Row>)
      requires Making(r.0, made, hadTtl)
      modifies this`rows, this`index, this`ttl, this`hint, this`hfe, this`hdr
      ensures Ok(r.0, -|made|) && ttl == old(ttl) - {r} && Num(hdr, r.0) >= 0
      ensures var dead := r in old(rows) && Dead(old(Cells())[r], now);
              rows == if dead then old(rows) - {r} else old(rows)
    {
      hide Tally, Num, With, View, TtlOk, Of;
      DeadRow(rows, ttl, r, now);
      FewerCards(made, Of(rows.Keys, r.0));
      TallyIs(hdr, rows.Keys, r.0, -|made|);
      if !hadTtl || r !in ttl {
        assert ttl - {r} == ttl;
        return;
      }
      var at := ttl[r];
      if at <= now {
        MadeFewer(rows.Keys, made, r);
        ReapField(r, -|made|);
      } else {
        KeysMinus(ttl, rows, r);
        var _ := ClearFieldTtl(r);
      }
    }

    /** The value row and index entry of a field, new or not. */
    method WriteRow(r: Row, v: Bytes, ghost d: int) returns (isNew: bool)
      requires Ok(r.0, d)
      modifies this`rows, this`index
      ensures Ok(r.0, if isNew then d - 1 else d) && isNew == (r !in old(rows)) && rows == old(rows)[r := v]
    {
      hide Tally, TtlOk;
      isNew := r !in rows;
      KeysPut(rows, r, v);
      if isNew {
        TallyAdd(hdr, rows.Keys, r, d);
        index := index + {r};
      }
      rows := rows[r := v];
    }

    /** One field of an HSET; a refused one is left without the deadline it had. */
    method PutField(r: Row, v: Bytes, hadTtl: bool, now: int, ghost made: set<Row>)
      returns (ok: bool, isNew: bool, ghost made': set<Row>)
      requires Making(r.0, made, hadTtl)
      modifies this`rows, this`index, this`ttl, this`hint, this`hfe, this`hdr
      ensures ok == Takes(r, v) && |made'| == |made| + (if isNew then 1 else 0) && Num(hdr, r.0) >= 0
      ensures ok ==> Making(r.0, made', hadTtl) && (Cells(), Number(if isNew then 1 else 0)) == One(old(Cells()), r, HashCells.Put(v), now)
      ensures !ok ==> !isNew && Ok(r.0, -|made'|) && Cells() == One(old(Cells()), r, Unexpire, now).0
    {
      hide Tally, With, View, Ok, OnCell, Dead, MadeHere, Takes, Num;
      PutIs(Cells(), r, v, now);
      Untimed(rows, ttl, r, now);
      DeadRow(rows, ttl, r, now);
      ViewPut(rows, ttl, r, v);
      PutSame(rows, r, v);
      MadePut(rows, ttl, made, hadTtl, r, v);
      DiscardTtl(r, hadTtl, now, made);
      ok := Takes(r, v);
      if !ok {
        isNew, made' := false, made;
        return;
      }
      isNew := WriteRow(r, v, -|made|);
      made' := if isNew then made + {r} else made;
    }

    /** HSET: replies with the number of fields that were not alive before.  One that is stopped by a pair that the
        store refuses, or by its header row under the empty key, leaves the header behind by what it made. */
    method HSet(h: Bytes, pairs: seq<(Bytes, Bytes)>, now: int) returns (reply: Answer)
      requires Valid()
      modifies this`rows, this`index, this`ttl, this`hint, this`hfe, this`hdr
      ensures h in strings ==> Valid() && reply == WrongType && Cells() == old(Cells())
      ensures h !in strings ==> (Cells(), reply) == SetAll(old(Cells()), h, pairs, now)
      ensures h !in strings ==> Lags(h, if SetDrifts(old(Cells()), h, pairs, now) then -Made(old(Cells()), h, pairs, now) else 0)
      ensures Valid() <==> h in strings || !SetDrifts(old(Cells()), h, pairs, now)
    {
      hide Making, One, Valid, Ok, Lags, Of, Each, Sum, Puts, Landed, Takes, Num;
      if h in strings {
        return WrongType;
      }
      var hadTtl := HasFieldTtl(h);
      StartMaking(h);
      var created, stopped := PutFields(h, pairs, hadTtl, now);
      if stopped || (created > 0 && h == []) {
        reply := Refused;
      } else {
        if created > 0 {
          AddCount(h, -created, created);
        }
        reply := Count(created);
      }
      Drifted(h, if reply == Refused then -created else 0);
      LagsFrom(h, if reply == Refused then -created else 0);
    }

    lemma LagsFrom(h: Bytes, d: int)
      requires Ok(h, d) && d <= 0 && Num(hdr, h) >= 0
      ensures Lags(h, d)
    {
      hide Tally, Num, Of;
      TallyIs(hdr, rows.Keys, h, d);
    }

    /** The loop of an HSET, up to the first refused pair. */
    method PutFields(h: Bytes, pairs: seq<(Bytes, Bytes)>, hadTtl: bool, now: int)
      returns (created: int, stopped: bool)
      requires Making(h, {}, hadTtl) && Num(hdr, h) >= 0
      modifies this`rows, this`index, this`ttl, this`hint, this`hfe, this`hdr
      ensures stopped == (Landed(h, pairs) < |pairs|) && created == Made(old(Cells()), h, pairs, now) >= 0
      ensures Ok(h, -created) && Num(hdr, h) >= 0 && Cells() == Each(old(Cells()), Touched(h, pairs), now).0
    {
      hide Making, One, Valid, Ok, Of, Each, Sum, Puts, Landed, Takes, Touched, Num;
      ghost var k := Landed(h, pairs);
      ghost var ops := Puts(h, pairs[..k]);
      ghost var made: set<Row> := {};
      var i := 0;
      created := 0;
      assert ops[..0] == [];
      EachNone(Cells(), now);
      while i < |pairs|
        invariant 0 <= i <= k && created == |made| && Making(h, made, hadTtl) && Num(hdr, h) >= 0
        invariant Cells() == Each(old(Cells()), ops[..i], now).0 && created == Sum(Each(old(Cells()), ops[..i], now).1)
      {
        LandedAt(h, pairs, i);
        if i < k {
          EachStep(old(Cells()), ops, i, now);
        }
        var ok, isNew;
        ok, isNew, made := PutField((h, pairs[i].0), pairs[i].1, hadTtl, now, made);
        if !ok {
          assert ops[..i] == ops;
          TouchedStopped(old(Cells()), h, pairs, now);
          stopped := true;
          return;
        }
        created := if isNew then created + 1 else created;
        i := i + 1;
      }
      assert ops[..i] == ops;
      TouchedAll(h, pairs);
      StopMaking(h, made, hadTtl);
      stopped := false;
    }

    /** A header that is behind is not exact. */
    lemma Drifted(h: Bytes, d: int)
      requires Ok(h, d)
      ensures Valid() <==> d == 0
    {
      hide Tally;
      if d == 0 {
        OkIsValid(h);
      } else {
        TallyApart(hdr, rows.Keys, h, d);
      }
    }

    lemma StartMaking(h: Bytes)
      requires Valid()
      ensures Making(h, {}, HasFieldTtl(h)) && Num(hdr, h) >= 0
    {
      hide Tally, Of, Num;
      ValidIsOk(h);
      TallyIs(hdr, rows.Keys, h, 0);
      GateSound(h);
    }

    lemma StopMaking(h: Bytes, made: set<Row>, hadTtl: bool)
      requires Making(h, made, hadTtl)
      ensures Ok(h, -|made|)
    {
    }

    /** The header moves by n. */
    method AddCount(h: Bytes, ghost d: int, n: int)
      requires Ok(h, d)
      modifies this`hdr
      ensures Ok(h, d + n) && Num(hdr, h) == old(Num(hdr, h)) + n
    {
      hide Tally, Num, SetNum;
      TallySet(hdr, rows.Keys, h, d, Num(hdr, h) + n);
      hdr := SetNum(hdr, h, Num(hdr, h) + n);
    }

    lemma ValidIsOk(h: Bytes)
      requires Valid()
      ensures Ok(h, 0)
    {
      hide Tally;
      TallyAny(hdr, rows.Keys, [], h);
    }

    lemma ValidLags(h: Bytes)
      requires Valid()
      ensures Lags(h, 0)
    {
      hide Tally, Of;
      ValidIsOk(h);
    }

    lemma LagsNone(h: Bytes, n: nat)
      requires Lags(h, Behind(0, n))
      ensures Valid()
    {
      hide Tally, Of;
      OkIsValid(h);
    }

    lemma OkIsValid(h: Bytes)
      requires Ok(h, 0)
      ensures Valid()
    {
      hide Tally;
      TallyAny(hdr, rows.Keys, h, []);
    }

    /** HSETNX. */
    method HSetNx(r: Row, v: Bytes, now: int) returns (reply: Answer)
      requires Valid()
      modifies this`rows, this`index, this`ttl, this`hint, this`hfe, this`hdr
      ensures r.0 in strings ==> Valid() && reply == WrongType && Cells() == old(Cells())
      ensures r.0 !in strings ==> (Cells(), reply) == SetNew(old(Cells()), r, v, now)
      ensures r.0 !in strings ==> Ok(r.0, if NewDrifts(old(Cells()), r, v, now) then -1 else 0)
      ensures Valid() <==> r.0 in strings || !NewDrifts(old(Cells()), r, v, now)
    {
      hide Tally, With, View, TtlOk, Num, Of, Takes;
      if r.0 in strings {
        return WrongType;
      }
      ValidIsOk(r.0);
      GateSound(r.0);
      DeadRow(rows, ttl, r, now);
      WithSame(Cells(), r);
      if HasFieldTtl(r.0) && r in ttl && ttl[r] <= now {
        TallyPositive(hdr, rows.Keys, r);
        ReapField(r, 0);
      }
      if r in rows {
        OkIsValid(r.0);
        return Count(0);
      }
      if !Takes(r, v) {
        OkIsValid(r.0);
        Absent(old(Cells()), r, now);
        return Refused;
      }
      ViewPut(rows, ttl, r, v);
      WithTwice(old(Cells()), r, None, Some(Cell(v, None)));
      assert ttl - {r} == ttl;
      var _ := WriteRow(r, v, 0);
      if r.0 == [] {
        Drifted(r.0, -1);
        return Refused;
      }
      AddCount(r.0, -1, 1);
      OkIsValid(r.0);
      reply := Count(1);
    }

    /** One field of an HDEL. */
    method DeleteField(r: Row, hadTtl: bool, now: int, ghost d: int) returns (gone: bool)
      requires Ok(r.0, d) && (!hadTtl ==> r !in ttl)
      modifies this`rows, this`index, this`ttl, this`hint, this`hfe
      ensures Ok(r.0, if gone then d + 1 else d) && ttl == old(ttl) - {r}
      ensures (Cells(), Number(if gone then 1 else 0)) == One(old(Cells()), r, Delete, now)
    {
      hide Tally, With, View, TtlOk;
      ViewRemoved(rows, ttl, r);
      KeysMinus(ttl, rows, r);
      DeadRow(rows, ttl, r, now);
      gone := r in rows;
      if gone {
        DeleteRow(r, d);
        if hadTtl {
          var _ := ClearFieldTtl(r);
        }
      } else {
        assert rows - {r} == rows;
      }
      assert r !in ttl ==> ttl - {r} == ttl;
    }

    /** A closed gate still means no deadlines. */
    ghost predicate Gated(h: Bytes, hadTtl: bool)
      reads this`ttl
    {
      !hadTtl ==> forall r :: r in ttl ==> r.0 != h
    }

    /** The fields of one HDEL, in order; the header is left behind. */
    method DeleteRun(h: Bytes, fields: seq<Bytes>, hadTtl: bool, now: int, ghost d: int) returns (deleted: int)
      requires Ok(h, d) && Gated(h, hadTtl)
      modifies this`rows, this`index, this`ttl, this`hint, this`hfe
      ensures Ok(h, d + deleted) && Gated(h, hadTtl) && deleted >= 0
      ensures var (cells, replies) := Each(old(Cells()), Same(h, fields, Delete), now);
              Cells() == cells && deleted == Sum(replies)
    {
      hide One, Ok, Each, Sum, Same;
      ghost var ops := Same(h, fields, Delete);
      deleted := 0;
      var i := 0;
      assert ops[..0] == [];
      EachNone(Cells(), now);
      while i < |fields|
        invariant 0 <= i <= |fields| && Ok(h, d + deleted) && Gated(h, hadTtl) && deleted >= 0
        invariant Cells() == Each(old(Cells()), ops[..i], now).0 && deleted == Sum(Each(old(Cells()), ops[..i], now).1)
      {
        EachStep(old(Cells()), ops, i, now);
        var gone := DeleteField((h, fields[i]), hadTtl, now, d + deleted);
        deleted := if gone then deleted + 1 else deleted;
        i := i + 1;
      }
      assert ops[..i] == ops;
    }

    /** HDEL, whose reply counts the rows it deletes however far the header is behind. */
    method HDel(h: Bytes, fields: seq<Bytes>, now: int, ghost d: int) returns (reply: Answer)
      requires Lags(h, d)
      modifies this`rows, this`index, this`ttl, this`hint, this`hfe, this`hdr
      ensures Lags(h, Behind(d, |Of(rows.Keys, h)|))
      ensures h in strings ==> reply == WrongType && Cells() == old(Cells())
      ensures h !in strings ==> (Cells(), reply) == Deleted(old(Cells()), h, fields, now)
    {
      hide Each, Sum, Valid, Ok, Of, Num;
      if h in strings {
        return WrongType;
      }
      LagCount(h, d);
      OpenGate(h, d);
      var deleted := DeleteRun(h, fields, HasFieldTtl(h), now, d);
      LagCount(h, d + deleted);
      if deleted > 0 {
        CountOff(h, d + deleted, deleted);
      }
      reply := Count(deleted);
    }

    lemma LagCount(h: Bytes, d: int)
      requires Ok(h, d)
      ensures Num(hdr, h) == |Of(rows.Keys, h)| + d
    {
      hide Tally, Num, Of;
      TallyIs(hdr, rows.Keys, h, d);
    }

    /** n fields fewer on the header, or no header. */
    method CountOff(h: Bytes, ghost d: int, n: int)
      requires Ok(h, d)
      modifies this`hdr
      ensures Ok(h, d + (if Num(old(hdr), h) - n <= 0 then 0 else Num(old(hdr), h) - n) - Num(old(hdr), h))
    {
      hide Tally, Num, SetNum;
      var left := Num(hdr, h) - n;
      TallySet(hdr, rows.Keys, h, d, if left <= 0 then 0 else left);
      hdr := SetNum(hdr, h, if left <= 0 then 0 else left);
    }

    lemma OpenGate(h: Bytes, d: int)
      requires Ok(h, d)
      ensures Gated(h, HasFieldTtl(h))
    {
      hide Tally;
      GateSound(h);
    }

    /** A pipeline of same-key HDELs run as one: the rows and every reply are those of the commands one
        after another. */
    method HDelCoalesced(h: Bytes, elems: seq<Bytes>, bnd: seq<int>, now: int) returns (replies: seq<Answer>)
      requires Valid() && Boundaries(bnd, |elems|)
      modifies this`rows, this`index, this`ttl, this`hint, this`hfe, this`hdr
      ensures Valid()
      ensures h in strings ==> replies == seq(|bnd|, _ => WrongType) && Cells() == old(Cells())
      ensures h !in strings ==> (Cells(), replies) == DeletedRuns(old(Cells()), h, elems, bnd, |bnd|, now)
    {
      hide Each, Sum, Valid, Ok;
      if h in strings {
        return seq(|bnd|, _ => WrongType);
      }
      ValidIsOk(h);
      OpenGate(h, 0);
      var hadTtl := HasFieldTtl(h);
      replies := [];
      var total, k := 0, 0;
      while k < |bnd|
        invariant 0 <= k <= |bnd| && Ok(h, total) && Gated(h, hadTtl) && total >= 0
        invariant (Cells(), replies) == DeletedRuns(old(Cells()), h, elems, bnd, k, now)
      {
        var deleted := DeleteRun(h, elems[Start(bnd, k)..bnd[k]], hadTtl, now, total);
        replies := replies + [Count(deleted)];
        total := total + deleted;
        k := k + 1;
      }
      if total > 0 {
        AddCount(h, total, -total);
      }
      OkIsValid(h);
    }

    /** One field of HEXPIRE: missing, past-dated, refused, or set. */
    method ExpireField(r: Row, at: int, cond: Condition, now: int) returns (reply: Reply)
      requires Ok(r.0, 0)
      modifies this`rows, this`index, this`ttl, this`hint, this`hfe, this`hdr
      ensures Ok(r.0, 0) && (Cells(), reply) == One(old(Cells()), r, Expire(at, cond), now)
      ensures r in old(rows) && (r in old(ttl) ==> now < old(ttl)[r]) && now < at ==>
                rows == old(rows) && HashLaws.Reschedules(old(FieldTtl(r)), FieldTtl(r), at, cond, reply)
    {
      hide Tally, Num, With, View, TtlOk, Met, HashLaws.Reschedules;
      CellAt(rows, ttl, r);
      WithSame(Cells(), r);
      if r !in rows {
        return Number(-2);
      }
      TallyPositive(hdr, rows.Keys, r);
      var cur := FieldTtl(r);
      if cur.Some? && cur.value <= now {
        ReapField(r, 0);
        return Number(-2);
      }
      if at <= now {
        ReapField(r, 0);
        return Number(2);
      }
      HashLaws.Conditions(rows[r], cur, at, cond, now);
      if !Met(cond, cur, at) {
        return Number(0);
      }
      ViewTimed(rows, ttl, r, at);
      SetFieldTtl(r, at, 0);
      reply := Number(1);
    }

    /** One field of HPEXPIRETIME. */
    method DeadlineField(r: Row, now: int) returns (reply: Reply)
      requires Ok(r.0, 0)
      modifies this`rows, this`index, this`ttl, this`hint, this`hfe, this`hdr
      ensures Ok(r.0, 0) && (Cells(), reply) == One(old(Cells()), r, Deadline, now)
    {
      hide Tally, Num, With, View, TtlOk;
      CellAt(rows, ttl, r);
      WithSame(Cells(), r);
      if r !in rows {
        return Number(-2);
      }
      TallyPositive(hdr, rows.Keys, r);
      var cur := FieldTtl(r);
      if cur.Some? && cur.value <= now {
        ReapField(r, 0);
        return Number(-2);
      }
      reply := Number(if cur.None? then -1 else cur.value);
    }

    /** One field of HPERSIST. */
    method PersistField(r: Row, now: int) returns (reply: Reply)
      requires Ok(r.0, 0)
      modifies this`rows, this`index, this`ttl, this`hint, this`hfe, this`hdr
      ensures Ok(r.0, 0) && (Cells(), reply) == One(old(Cells()), r, Unexpire, now)
    {
      hide Tally, Num, With, View, TtlOk;
      CellAt(rows, ttl, r);
      WithSame(Cells(), r);
      if r !in rows {
        return Number(-2);
      }
      TallyPositive(hdr, rows.Keys, r);
      var cur := FieldTtl(r);
      if cur.Some? && cur.value <= now {
        ReapField(r, 0);
        return Number(-2);
      }
      if cur.None? {
        return Number(-1);
      }
      ViewUntimed(rows, ttl, r);
      KeysMinus(ttl, rows, r);
      var _ := ClearFieldTtl(r);
      reply := Number(1);
    }

    /** One field of HGETEX. */
    method GetExField(r: Row, retime: Retime, now: int) returns (reply: Reply)
      requires Ok(r.0, 0)
      modifies this`rows, this`index, this`ttl, this`hint, this`hfe, this`hdr
      ensures Ok(r.0, 0) && (Cells(), reply) == One(old(Cells()), r, GetRetime(retime), now)
    {
      hide Tally, Num, With, View, TtlOk;
      CellAt(rows, ttl, r);
      WithSame(Cells(), r);
      if r !in rows {
        return Nil;
      }
      TallyPositive(hdr, rows.Keys, r);
      var cur := FieldTtl(r);
      if cur.Some? && cur.value <= now {
        ReapField(r, 0);
        return Nil;
      }
      reply := Bulk(rows[r]);
      match retime
      case Keep =>
      case Persist =>
        ViewUntimed(rows, ttl, r);
        KeysMinus(ttl, rows, r);
        var _ := ClearFieldTtl(r);
      case At(ms) =>
        if ms <= now {
          ReapField(r, 0);
        } else {
          ViewTimed(rows, ttl, r, ms);
          SetFieldTtl(r, ms, 0);
        }
    }

    /** One field under a command that keeps every counter exact field by field. */
    method StepField(r: Row, op: Op, now: int) returns (reply: Reply)
      requires Ok(r.0, 0) && (op.Expire? || op.Deadline? || op.Unexpire? || op.GetRetime?)
      modifies this`rows, this`index, this`ttl, this`hint, this`hfe, this`hdr
      ensures Ok(r.0, 0) && (Cells(), reply) == One(old(Cells()), r, op, now)
    {
      hide Ok, One, View;
      if op.Expire? {
        reply := ExpireField(r, op.at, op.cond, now);
      } else if op.Deadline? {
        reply := DeadlineField(r, now);
      } else if op.Unexpire? {
        reply := PersistField(r, now);
      } else {
        reply := GetExField(r, op.retime, now);
      }
    }

    /** HEXPIRE, HPEXPIRETIME, HPERSIST and HGETEX: one reply per field. */
    method StepFields(h: Bytes, fields: seq<Bytes>, op: Op, now: int) returns (reply: Answer)
      requires Valid() && (op.Expire? || op.Deadline? || op.Unexpire? || op.GetRetime?)
      modifies this`rows, this`index, this`ttl, this`hint, this`hfe, this`hdr
      ensures Valid()
      ensures h in strings ==> reply == WrongType && Cells() == old(Cells())
      ensures h !in strings ==>
                var (cells, replies) := Each(old(Cells()), Same(h, fields, op), now); Cells() == cells && reply == Replies(replies)
    {
      hide One, Ok, Each, Same, Valid;
      if h in strings {
        return WrongType;
      }
      ValidIsOk(h);
      ghost var ops := Same(h, fields, op);
      var replies, i := [], 0;
      assert ops[..0] == [];
      EachNone(Cells(), now);
      while i < |fields|
        invariant 0 <= i <= |fields| && Ok(h, 0)
        invariant (Cells(), replies) == Each(old(Cells()), ops[..i], now)
      {
        EachStep(old(Cells()), ops, i, now);
        var one := StepField((h, fields[i]), op, now);
        replies := replies + [one];
        i := i + 1;
      }
      assert ops[..i] == ops;
      OkIsValid(h);
      reply := Replies(replies);
    }

    /** One field of HGETDEL; a dead field leaves the header at once, a live one when the command ends. */
    method GetDelField(r: Row, now: int, ghost d: int) returns (reply: Reply)
      requires Ok(r.0, d) && d >= 0
      modifies this`rows, this`index, this`ttl, this`hint, this`hfe, this`hdr
      ensures Ok(r.0, if reply.Bulk? then d + 1 else d)
      ensures (Cells(), reply) == One(old(Cells()), r, GetDelete, now)
    {
      hide Tally, Num, With, View, TtlOk, Of;
      CellAt(rows, ttl, r);
      WithSame(Cells(), r);
      ViewRemoved(rows, ttl, r);
      KeysMinus(ttl, rows, r);
      var cur := FieldTtl(r);
      if cur.Some? && cur.value <= now {
        MadeFewer(rows.Keys, {}, r);
        TallyIs(hdr, rows.Keys, r.0, d);
        ReapField(r, d);
        return Nil;
      }
      if r !in rows {
        return Nil;
      }
      reply := Bulk(rows[r]);
      DeleteRow(r, d);
      var _ := ClearFieldTtl(r);
    }

    /** HGETDEL. */
    method HGetDel(h: Bytes, fields: seq<Bytes>, now: int) returns (reply: Answer)
      requires Valid()
      modifies this`rows, this`index, this`ttl, this`hint, this`hfe, this`hdr
      ensures Valid()
      ensures h in strings ==> reply == WrongType && Cells() == old(Cells())
      ensures h !in strings ==>
                var (cells, replies) := Each(old(Cells()), Same(h, fields, GetDelete), now); Cells() == cells && reply == Replies(replies)
    {
      hide One, Ok, Each, Same, Valid;
      if h in strings {
        return WrongType;
      }
      ValidIsOk(h);
      ghost var ops := Same(h, fields, GetDelete);
      var replies, deleted, i := [], 0, 0;
      assert ops[..0] == [];
      EachNone(Cells(), now);
      while i < |fields|
        invariant 0 <= i <= |fields| && Ok(h, deleted) && deleted >= 0
        invariant (Cells(), replies) == Each(old(Cells()), ops[..i], now)
      {
        EachStep(old(Cells()), ops, i, now);
        var one := GetDelField((h, fields[i]), now, deleted);
        replies := replies + [one];
        deleted := if one.Bulk? then deleted + 1 else deleted;
        i := i + 1;
      }
      assert ops[..i] == ops;
      if deleted > 0 {
        AddCount(h, deleted, -deleted);
      }
      OkIsValid(h);
      reply := Replies(replies);
    }

    /** The expired fields found by a scan of the hash's index entries. */
    method CollectExpired(h: Bytes, now: int, ghost d: int) returns (expired: set<Row>)
      requires Ok(h, d)
      ensures expired == DeadOf(Cells(), h, now)
    {
      hide Tally, TtlOk;
      var todo := Of(index, h);
      expired := {};
      while todo != {}
        invariant todo <= Of(index, h) && expired == DeadOf(Cells(), h, now) - todo
        decreases |todo|
      {
        var r :| r in todo;
        if r in ttl && ttl[r] <= now {
          expired := expired + {r};
        }
        todo := todo - {r};
      }
    }

    /** reapHashExpiredLocked. */
    method ReapExpired(h: Bytes, now: int, ghost d: int)
      requires Lags(h, d)
      modifies this`rows, this`index, this`ttl, this`hint, this`hfe, this`hdr
      ensures Lags(h, Behind(d, |Of(rows.Keys, h)|)) && Cells() == old(Cells()) - DeadOf(old(Cells()), h, now)
    {
      hide Tally, TtlOk, View, Num, Of;
      NoneDead(h, now, d);
      if !HasFieldTtl(h) {
        return;
      }
      var expired := CollectExpired(h, now, d);
      ReapAll(h, expired, d);
    }

    /** Reap one expired field after another. */
    method ReapAll(h: Bytes, expired: set<Row>, ghost d: int)
      requires Lags(h, d) && expired <= Of(rows.Keys, h)
      modifies this`rows, this`index, this`ttl, this`hint, this`hfe, this`hdr
      ensures Lags(h, Behind(d, |Of(rows.Keys, h)|)) && Cells() == old(Cells()) - expired
    {
      hide Lags, View, With, Num, Of;
      ghost var cells := Cells();
      ghost var e := d;
      assert cells.Keys == rows.Keys by { KeysOf(rows, ttl); }
      LagsStill(h, d);
      var todo := expired;
      assert expired - todo == {} && cells - {} == cells;
      while todo != {}
        invariant Lags(h, e) && e == Behind(d, |Of(rows.Keys, h)|) && todo <= expired && Cells() == cells - (expired - todo)
        decreases |todo|
      {
        var r :| r in todo;
        InView(rows, ttl, cells, expired - todo, r);
        BehindTwice(d, |Of(rows.Keys, h)|, |Of(rows.Keys, h)| - 1);
        ReapLagging(r, e);
        e := Behind(e, |Of(rows.Keys, h)|);
        MinusOne(cells, expired, todo, r);
        todo := todo - {r};
      }
      assert expired - {} == expired;
    }

    lemma LagsStill(h: Bytes, d: int)
      requires Lags(h, d)
      ensures Behind(d, |Of(rows.Keys, h)|) == d
    {
    }

    lemma OkPositive(r: Row)
      requires Ok(r.0, 0) && r in rows
      ensures Num(hdr, r.0) >= 1
    {
      hide Tally;
      TallyPositive(hdr, rows.Keys, r);
    }

    /** Behind a closed gate nothing is dead. */
    lemma NoneDead(h: Bytes, now: int, d: int)
      requires Ok(h, d)
      ensures !HasFieldTtl(h) ==> Cells() - DeadOf(Cells(), h, now) == Cells()
    {
      hide Tally;
      GateSound(h);
      if !HasFieldTtl(h) {
        assert DeadOf(Cells(), h, now) == {};
      }
    }

    /** HLEN: the header, once the dead are gone, counts the living as far as it is not behind. */
    method HLen(h: Bytes, now: int, ghost d: int) returns (reply: Answer)
      requires Lags(h, d)
      modifies this`rows, this`index, this`ttl, this`hint, this`hfe, this`hdr
      ensures Lags(h, Behind(d, |Of(rows.Keys, h)|)) && Cells() == old(Cells()) - DeadOf(old(Cells()), h, now)
      ensures var n := |Of(Alive(old(Cells()), now).Keys, h)|; reply == Count(n + Behind(d, n))
    {
      hide Tally, TtlOk, Num, Of;
      NoneDead(h, now, d);
      if HasFieldTtl(h) {
        ReapExpired(h, now, d);
      }
      SweepKeeps(old(Cells()), h, now);
      LagCount(h, Behind(d, |Of(rows.Keys, h)|));
      assert rows.Keys == Cells().Keys;
      reply := Count(Num(hdr, h));
    }

    /** The fields and values a scan of the hash's index entries streams. */
    method ScanFields(h: Bytes) returns (pairs: map<Bytes, Bytes>)
      requires index == rows.Keys
      ensures pairs == FieldsOf(Cells(), h)
    {
      var todo := Of(index, h);
      pairs := map[];
      while todo != {}
        invariant todo <= Of(index, h)
        invariant forall f :: f in pairs <==> (h, f) in rows && (h, f) !in todo
        invariant forall f :: f in pairs ==> pairs[f] == rows[(h, f)]
        decreases |todo|
      {
        var r :| r in todo;
        pairs := pairs[r.1 := rows[r]];
        todo := todo - {r};
        assert r == (h, r.1);
      }
    }

    /** HGETALL streams the living; the framed size is theirs as far as the header is not behind. */
    method HGetAll(h: Bytes, now: int, ghost d: int) returns (reply: Answer)
      requires Lags(h, d)
      modifies this`rows, this`index, this`ttl, this`hint, this`hfe, this`hdr
      ensures Lags(h, Behind(d, |Of(rows.Keys, h)|))
      ensures h in strings ==> reply == WrongType && Cells() == old(Cells())
      ensures h !in strings ==> Cells() == old(Cells()) - DeadOf(old(Cells()), h, now)
      ensures h !in strings ==>
                var n := |Of(Alive(old(Cells()), now).Keys, h)|;
                reply == Pairs(n + Behind(d, n), FieldsOf(Alive(old(Cells()), now), h))
    {
      hide Tally, TtlOk, Num, Of, View;
      if h in strings {
        return WrongType;
      }
      NoneDead(h, now, d);
      GateSound(h);
      if hfe != 0 {
        ReapExpired(h, now, d);
      }
      SweepKeeps(old(Cells()), h, now);
      LagCount(h, Behind(d, |Of(rows.Keys, h)|));
      assert rows.Keys == Cells().Keys;
      var pairs := ScanFields(h);
      SweptFields(old(Cells()), h, now);
      reply := Pairs(Num(hdr, h), pairs);
    }

    /** The deadline rows of some fields go. */
    method DropDeadlines(all: set<Row>)
      requires hfe == |ttl.Keys|
      modifies this`ttl, this`hfe
      ensures ttl == old(ttl) - all && hfe == |ttl.Keys|
    {
      hide Walked;
      var todo := all;
      WalkEnds(ttl, all);
      while todo != {}
        invariant todo <= all && ttl == Walked(old(ttl), all, todo) && hfe == |ttl.Keys|
        decreases |todo|
      {
        var r :| r in todo;
        KeysLess(ttl, r);
        WalkStep(old(ttl), all, todo, r);
        hfe := if r in ttl then hfe - 1 else hfe;
        ttl := ttl - {r};
        todo := todo - {r};
      }
    }

    lemma NoneDropped(h: Bytes)
      requires !exists r :: r in ttl && r.0 == h
      ensures ttl - Of(rows.Keys, h) == ttl
    {
    }

    /** dropHashFieldTTLsLocked: the deadline rows of a hash go, and its hint with them. */
    method DropTtls(h: Bytes)
      requires Valid()
      modifies this`ttl, this`hint, this`hfe
      ensures TtlOk() && ttl == old(ttl) - Of(rows.Keys, h)
    {
      hide Tally, Num, Of;
      GateSound(h);
      TallyDrop(hint, ttl.Keys, rows.Keys, h);
      if !HasFieldTtl(h) {
        NoneDropped(h);
        return;
      }
      KeysMinusSet(ttl, Of(rows.Keys, h));
      DropDeadlines(Of(index, h));
      hint := hint - {h};
    }

    /** dropKeyLocked on a hash: every row of it goes. */
    method Drop(h: Bytes) returns (existed: bool)
      requires Valid()
      modifies this`rows, this`index, this`ttl, this`hint, this`hfe, this`hdr
      ensures Valid() && Cells() == old(Cells()) - Of(old(rows).Keys, h)
      ensures existed <==> exists r :: r in old(rows) && r.0 == h
    {
      hide Tally, Num, TtlOk;
      TallyAny(hdr, rows.Keys, [], h);
      HeaderMeans(hdr, rows.Keys, h);
      existed := h in hdr;
      if !existed {
        assert Of(rows.Keys, h) == {} && Cells() - {} == Cells();
        return;
      }
      DropTtls(h);
      DropRows(h);
      TallyDrop(hdr, old(rows).Keys, old(rows).Keys, h);
      hdr := hdr - {h};
      ViewDropped(old(rows), old(ttl), Of(old(rows).Keys, h));
      KeysDropped(old(rows), old(ttl), Of(old(rows).Keys, h));
    }

    /** dropCollIndex. */
    method DropRows(h: Bytes)
      requires index == rows.Keys
      modifies this`rows, this`index
      ensures rows == old(rows) - Of(old(rows).Keys, h) && index == rows.Keys
    {
      hide Of, Walked;
      var all := Of(index, h);
      var todo := all;
      WalkEnds(rows, all);
      while todo != {}
        invariant todo <= all && rows == Walked(old(rows), all, todo) && index == rows.Keys
        decreases |todo|
      {
        var r :| r in todo;
        WalkStep(old(rows), all, todo, r);
        rows := rows - {r};
        index := index - {r};
        todo := todo - {r};
      }
    }
  }
}
