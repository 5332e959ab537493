/** DUMP and RESTORE of a stream, its groups, consumers and pending entries (f1srv/dump.go). */
module StreamDump {
  import opened Bytes
  import opened Rdb
  import opened StreamNode

  datatype Pending = Pending(id: Id, consumer: Bytes, time: Int64, deliveries: U64)
  datatype Consumer = Consumer(name: Bytes, seen: Int64, active: Int64)
  datatype Group = Group(name: Bytes, lastId: Id, entriesRead: U64, pel: seq<Pending>, consumers: seq<Consumer>)
  datatype Stream = Stream(entries: seq<StreamEntry>, length: U64, lastId: Id, maxDeleted: Id, entriesAdded: U64,
                           groups: seq<Group>)

  /** A consumer and the pending identifiers it owns, as they are written. */
  datatype Row = Row(consumer: Consumer, owned: seq<Id>)

  /** One reader after another. */
  function Both<A, B>(p: Bytes -> Read<A>, q: Bytes -> Read<B>, b: Bytes): (r: Read<(A, B)>)
  {
    match p(b)
    case Fail => Fail
    case Got(x, rest) =>
      match q(rest)
      case Fail => Fail
      case Got(y, rest') => Got((x, y), rest')
  }

  lemma BothGet<A, B>(p: Bytes -> Read<A>, q: Bytes -> Read<B>, ea: Bytes, a: A, eb: Bytes, b: B, rest: Bytes)
    requires p(ea + (eb + rest)) == Got(a, eb + rest) && q(eb + rest) == Got(b, rest)
    ensures Both(p, q, (ea + eb) + rest) == Got((a, b), rest)
  {
    assert (ea + eb) + rest == ea + (eb + rest);
  }

  /** A count, then that many values. */
  function CountedRead<T>(get: Bytes -> Read<T>, b: Bytes): (r: Read<seq<T>>)
  {
    match ReadLen(b)
    case Fail => Fail
    case Got(n, rest) => Many(get, n, rest)
  }

  function CountedAll<T>(enc: T -> Bytes, xs: seq<T>): (b: Bytes)
  {
    Len(|xs|) + All(enc, xs)
  }

  lemma CountedGet<T>(get: Bytes -> Read<T>, enc: T -> Bytes, xs: seq<T>, rest: Bytes)
    requires |xs| < WORD && forall x :: x in xs ==> Undoes(get, enc, x)
    ensures CountedRead(get, CountedAll(enc, xs) + rest) == Got(xs, rest)
  {
    hide Len, ReadLen, Many, All, Undoes;
    assert CountedAll(enc, xs) + rest == Len(|xs|) + (All(enc, xs) + rest);
    LenRoundTrip(|xs|, All(enc, xs) + rest);
    ManyRoundTrip(get, enc, xs, rest);
  }

  /* Fixed-width identifiers and times. */

  function RawId(id: Id): (b: Bytes)
    ensures |b| == 16
  {
    Be(id.ms, 8) + Be(id.seqNo, 8)
  }

  function ReadRawId(b: Bytes): (r: Read<Id>)
  {
    if |b| < 16 then Fail
    else
      Pow256Values();
      FromBeBound(b[..8]);
      FromBeBound(b[8..16]);
      Got(Id(FromBe(b[..8]), FromBe(b[8..16])), b[16..])
  }

  lemma RawIdGet(id: Id, rest: Bytes)
    ensures ReadRawId(RawId(id) + rest) == Got(id, rest)
  {
    hide Be, FromBe;
    Pow256Values();
    BeRoundTrip(id.ms, 8);
    BeRoundTrip(id.seqNo, 8);
    var b := RawId(id) + rest;
    assert b[..8] == Be(id.ms, 8) && b[8..16] == Be(id.seqNo, 8) && b[16..] == rest;
  }

  function Ms(t: Int64): (b: Bytes)
    ensures |b| == 8
  {
    Le(ToUnsigned(t, WORD), 8)
  }

  function ReadMs(b: Bytes): (r: Read<Int64>)
  {
    if |b| < 8 then Fail
    else
      Pow256Values();
      FromLeBound(b[..8]);
      Got(ToSigned(FromLe(b[..8]), WORD), b[8..])
  }

  lemma MsGet(t: Int64, rest: Bytes)
    ensures ReadMs(Ms(t) + rest) == Got(t, rest)
  {
    hide Le, FromLe;
    Pow256Values();
    LeRoundTrip(ToUnsigned(t, WORD), 8);
    var b := Ms(t) + rest;
    assert b[..8] == Ms(t) && b[8..] == rest;
  }

  /* Identifiers as two lengths. */

  function IdLens(id: Id): (b: Bytes)
  {
    Len(id.ms) + Len(id.seqNo)
  }

  function ReadIdLens(b: Bytes): (r: Read<Id>)
  {
    match Both(ReadLen, ReadLen, b)
    case Fail => Fail
    case Got((ms, sq), rest) => Got(Id(ms, sq), rest)
  }

  lemma IdLensGet(id: Id, rest: Bytes)
    ensures ReadIdLens(IdLens(id) + rest) == Got(id, rest)
  {
    hide Len, ReadLen;
    LenRoundTrip(id.ms, Len(id.seqNo) + rest);
    LenRoundTrip(id.seqNo, rest);
    BothGet(ReadLen, ReadLen, Len(id.ms), id.ms, Len(id.seqNo), id.seqNo, rest);
  }

  /* Pending entries, the owner left to the consumers. */

  function Bare(p: Pending): (q: Pending) { p.(consumer := []) }

  function Pel(p: Pending): (b: Bytes)
  {
    RawId(p.id) + (Ms(p.time) + Len(p.deliveries))
  }

  function ReadDelivery(b: Bytes): (r: Read<(Int64, U64)>) { Both(ReadMs, ReadLen, b) }

  function ReadPel(b: Bytes): (r: Read<Pending>)
  {
    match Both(ReadRawId, ReadDelivery, b)
    case Fail => Fail
    case Got((id, (time, n)), rest) => Got(Pending(id, [], time, n), rest)
  }

  lemma PelGet(p: Pending, rest: Bytes)
    ensures ReadPel(Pel(p) + rest) == Got(Bare(p), rest)
  {
    hide RawId, ReadRawId, Ms, ReadMs, Len, ReadLen;
    var delivery := Ms(p.time) + Len(p.deliveries);
    RawIdGet(p.id, delivery + rest);
    MsGet(p.time, Len(p.deliveries) + rest);
    LenRoundTrip(p.deliveries, rest);
    BothGet(ReadMs, ReadLen, Ms(p.time), p.time, Len(p.deliveries), p.deliveries, rest);
    BothGet(ReadRawId, ReadDelivery, RawId(p.id), p.id, delivery, (p.time, p.deliveries), rest);
  }

  /* Consumers. */

  function Times(c: Consumer): (b: Bytes) { Ms(c.seen) + Ms(c.active) }

  function ReadTimes(b: Bytes): (r: Read<(Int64, Int64)>) { Both(ReadMs, ReadMs, b) }

  function ReadNamed(b: Bytes): (r: Read<(Bytes, (Int64, Int64))>) { Both(ReadStr, ReadTimes, b) }

  function ReadOwned(b: Bytes): (r: Read<seq<Id>>) { CountedRead(ReadRawId, b) }

  function RowBytes(r: Row): (b: Bytes)
  {
    (Str(r.consumer.name) + Times(r.consumer)) + CountedAll(RawId, r.owned)
  }

  function ReadRow(b: Bytes): (r: Read<Row>)
  {
    match Both(ReadNamed, ReadOwned, b)
    case Fail => Fail
    case Got(((name, (seen, active)), owned), rest) => Got(Row(Consumer(name, seen, active), owned), rest)
  }

  lemma NamedGet(c: Consumer, rest: Bytes)
    requires |c.name| < WORD
    ensures ReadNamed((Str(c.name) + Times(c)) + rest) == Got((c.name, (c.seen, c.active)), rest)
  {
    hide Ms, ReadMs, Str, ReadStr;
    StrRoundTrip(c.name, Times(c) + rest);
    MsGet(c.seen, Ms(c.active) + rest);
    MsGet(c.active, rest);
    BothGet(ReadMs, ReadMs, Ms(c.seen), c.seen, Ms(c.active), c.active, rest);
    BothGet(ReadStr, ReadTimes, Str(c.name), c.name, Times(c), (c.seen, c.active), rest);
  }

  lemma RowGet(r: Row, rest: Bytes)
    requires |r.consumer.name| < WORD && |r.owned| < WORD
    ensures ReadRow(RowBytes(r) + rest) == Got(r, rest)
  {
    hide Str, Times, RawId, ReadRawId, ReadNamed, CountedAll, CountedRead;
    var c, owned := r.consumer, CountedAll(RawId, r.owned);
    NamedGet(c, owned + rest);
    forall id | id in r.owned ensures Undoes(ReadRawId, RawId, id) { IdUndoes(id); }
    CountedGet(ReadRawId, RawId, r.owned, rest);
    BothGet(ReadNamed, ReadOwned, Str(c.name) + Times(c), (c.name, (c.seen, c.active)), owned, r.owned, rest);
  }

  lemma IdUndoes(id: Id)
    ensures Undoes(ReadRawId, RawId, id)
  {
    hide RawId, ReadRawId;
    forall rest: Bytes ensures ReadRawId(RawId(id) + rest) == Got(id, rest) { RawIdGet(id, rest); }
  }

  /* Owners. */

  /** The identifiers a consumer owns, in pending order. */
  function Owned(pel: seq<Pending>, name: Bytes): (ids: seq<Id>)
    ensures |ids| <= |pel|
  {
    if pel == [] then []
    else
      var k := |pel| - 1;
      Owned(pel[..k], name) + (if pel[k].consumer == name then [pel[k].id] else [])
  }

  function Rows(g: Group): (rows: seq<Row>)
    ensures |rows| == |g.consumers|
  {
    seq(|g.consumers|, i requires 0 <= i < |g.consumers| => Row(g.consumers[i], Owned(g.pel, g.consumers[i].name)))
  }

  /** The last position of a pending identifier. */
  function Place(pel: seq<Pending>, id: Id): (k: Option<nat>)
    ensures k.Some? ==> k.value < |pel| && pel[k.value].id == id
    ensures k.None? ==> forall i :: 0 <= i < |pel| ==> pel[i].id != id
  {
    if pel == [] then None
    else if pel[|pel| - 1].id == id then Some(|pel| - 1)
    else Place(pel[..|pel| - 1], id)
  }

  /** One consumer claims one identifier. */
  function Claim(pel: seq<Pending>, id: Id, name: Bytes): (pel': seq<Pending>)
    ensures |pel'| == |pel| && forall i :: 0 <= i < |pel| ==> pel'[i].id == pel[i].id
  {
    match Place(pel, id)
    case None => pel
    case Some(k) => pel[k := pel[k].(consumer := name)]
  }

  function Claims(pel: seq<Pending>, ids: seq<Id>, name: Bytes): (pel': seq<Pending>)
    ensures |pel'| == |pel| && forall i :: 0 <= i < |pel| ==> pel'[i].id == pel[i].id
  {
    if ids == [] then pel else Claim(Claims(pel, ids[..|ids| - 1], name), ids[|ids| - 1], name)
  }

  /** Every consumer claims what it owns. */
  function Resolve(pel: seq<Pending>, rows: seq<Row>): (pel': seq<Pending>)
    ensures |pel'| == |pel| && forall i :: 0 <= i < |pel| ==> pel'[i].id == pel[i].id
  {
    if rows == [] then pel
    else
      var k := |rows| - 1;
      Claims(Resolve(pel, rows[..k]), rows[k].owned, rows[k].consumer.name)
  }

  predicate DistinctIds(pel: seq<Pending>)
  {
    forall i, j :: 0 <= i < j < |pel| ==> pel[i].id != pel[j].id
  }

  lemma {:induction false} ClaimsMark(pel: seq<Pending>, ids: seq<Id>, name: Bytes, i: nat)
    requires DistinctIds(pel) && i < |pel|
    ensures Claims(pel, ids, name)[i] == if pel[i].id in ids then pel[i].(consumer := name) else pel[i]
  {
    if ids != [] {
      var k := |ids| - 1;
      ClaimsMark(pel, ids[..k], name, i);
      var mid := Claims(pel, ids[..k], name);
      assert ids == ids[..k] + [ids[k]];
      assert pel[i].id in ids <==> pel[i].id in ids[..k] || pel[i].id == ids[k];
      if mid[i].id == ids[k] {
        assert Place(mid, ids[k]).Some?;
        var p := Place(mid, ids[k]).value;
        assert p == i by { assert pel[p].id == pel[i].id; }
      }
    }
  }

  lemma {:induction false} OwnedIs(pel: seq<Pending>, name: Bytes, i: nat)
    requires DistinctIds(pel) && i < |pel|
    ensures pel[i].id in Owned(pel, name) <==> pel[i].consumer == name
  {
    var k := |pel| - 1;
    var rest := Owned(pel[..k], name);
    if i < k {
      OwnedIs(pel[..k], name, i);
      assert pel[i].id != pel[k].id;
    } else {
      OwnedFrom(pel[..k], name, pel[k].id);
    }
  }

  /** Only identifiers that occur are owned. */
  lemma {:induction false} OwnedFrom(pel: seq<Pending>, name: Bytes, id: Id)
    requires forall i :: 0 <= i < |pel| ==> pel[i].id != id
    ensures id !in Owned(pel, name)
  {
    if pel != [] { OwnedFrom(pel[..|pel| - 1], name, id); }
  }

  function Bares(pel: seq<Pending>): (b: seq<Pending>)
    ensures |b| == |pel| && forall i :: 0 <= i < |pel| ==> b[i] == Bare(pel[i])
  {
    seq(|pel|, i requires 0 <= i < |pel| => Bare(pel[i]))
  }

  /** One of the consumers has the name. */
  predicate Listed(rows: seq<Row>, name: Bytes)
  {
    rows != [] && (rows[|rows| - 1].consumer.name == name || Listed(rows[..|rows| - 1], name))
  }

  lemma {:induction false} ListedIs(rows: seq<Row>, name: Bytes)
    ensures Listed(rows, name) <==> exists j :: 0 <= j < |rows| && rows[j].consumer.name == name
  {
    if rows != [] {
      var k := |rows| - 1;
      ListedIs(rows[..k], name);
      if j :| 0 <= j < |rows[..k]| && rows[..k][j].consumer.name == name { assert rows[j].consumer.name == name; }
      if j :| 0 <= j < |rows| && rows[j].consumer.name == name { assert j < k ==> rows[..k][j].consumer.name == name; }
    }
  }

  /** A pending entry whose owner is listed has its owner back. */
  lemma {:induction false} ResolveMark(pel: seq<Pending>, rows: seq<Row>, i: nat)
    requires DistinctIds(pel) && i < |pel|
    requires forall j :: 0 <= j < |rows| ==> rows[j].owned == Owned(pel, rows[j].consumer.name)
    ensures Resolve(Bares(pel), rows)[i] == if Listed(rows, pel[i].consumer) then pel[i] else Bare(pel[i])
  {
    hide Claims, Owned;
    if rows != [] {
      var k := |rows| - 1;
      var before := Resolve(Bares(pel), rows[..k]);
      ResolveMark(pel, rows[..k], i);
      assert DistinctIds(before);
      ClaimsMark(before, rows[k].owned, rows[k].consumer.name, i);
      OwnedIs(pel, rows[k].consumer.name, i);
    }
  }

  /** An entry's owner is a listed consumer, or there is none. */
  predicate OwnersListed(g: Group)
  {
    forall i :: 0 <= i < |g.pel| ==>
                  g.pel[i].consumer == [] || exists j :: 0 <= j < |g.consumers| && g.consumers[j].name == g.pel[i].consumer
  }

  /** Owners come back exactly when they are listed. */
  lemma OwnersRoundTrip(g: Group)
    requires DistinctIds(g.pel)
    ensures Resolve(Bares(g.pel), Rows(g)) == g.pel <==> OwnersListed(g)
  {
    hide Resolve, Listed;
    var rows, back := Rows(g), Resolve(Bares(g.pel), Rows(g));
    forall i | 0 <= i < |g.pel|
      ensures back[i] == g.pel[i] <==>
              g.pel[i].consumer == [] || exists j :: 0 <= j < |g.consumers| && g.consumers[j].name == g.pel[i].consumer
    {
      ResolveMark(g.pel, rows, i);
      ListedIs(rows, g.pel[i].consumer);
      assert forall j :: 0 <= j < |g.consumers| ==> rows[j].consumer == g.consumers[j];
    }
  }

  /* Groups. */

  /** A pending entry of a group without consumers comes back without its owner. */
  lemma OwnerLost(g: Group, p: Pending)
    requires g.pel == [p] && g.consumers == [] && p.consumer != []
    ensures Resolve(Bares(g.pel), Rows(g)) == [Bare(p)] != g.pel
  {
    assert Rows(g) == [];
  }

  function GroupHead(g: Group): (b: Bytes)
  {
    Str(g.name) + (IdLens(g.lastId) + Len(g.entriesRead))
  }

  function GroupBytes(g: Group): (b: Bytes)
  {
    GroupHead(g) + (CountedAll(Pel, g.pel) + CountedAll(RowBytes, Rows(g)))
  }

  function ReadMarks(b: Bytes): (r: Read<(Id, U64)>) { Both(ReadIdLens, ReadLen, b) }

  function ReadHead(b: Bytes): (r: Read<(Bytes, (Id, U64))>) { Both(ReadStr, ReadMarks, b) }

  function ReadPels(b: Bytes): (r: Read<seq<Pending>>) { CountedRead(ReadPel, b) }

  function ReadRows(b: Bytes): (r: Read<seq<Row>>) { CountedRead(ReadRow, b) }

  function ReadLists(b: Bytes): (r: Read<(seq<Pending>, seq<Row>)>) { Both(ReadPels, ReadRows, b) }

  function ConsumersOf(rows: seq<Row>): (cs: seq<Consumer>)
    ensures |cs| == |rows| && forall i :: 0 <= i < |rows| ==> cs[i] == rows[i].consumer
  {
    seq(|rows|, i requires 0 <= i < |rows| => rows[i].consumer)
  }

  function ReadGroup(b: Bytes): (r: Read<Group>)
  {
    match Both(ReadHead, ReadLists, b)
    case Fail => Fail
    case Got(((name, (lastId, read)), (pel, rows)), rest) =>
      Got(Group(name, lastId, read, Resolve(pel, rows), ConsumersOf(rows)), rest)
  }

  /** A group of a size Go slices can have, with its pending entries distinct and owned by listed consumers. */
  predicate GroupFits(g: Group)
  {
    && |g.name| < WORD && |g.pel| < WORD && |g.consumers| < WORD
    && (forall i :: 0 <= i < |g.consumers| ==> |g.consumers[i].name| < WORD)
    && DistinctIds(g.pel) && OwnersListed(g)
  }

  lemma {:induction false} AllPelsBare(pel: seq<Pending>)
    ensures All(Pel, pel) == All(Pel, Bares(pel))
  {
    hide RawId, Ms, Len;
    if pel != [] {
      AllPelsBare(pel[1..]);
      assert Bares(pel)[1..] == Bares(pel[1..]);
    }
  }

  lemma PelsGet(pel: seq<Pending>, rest: Bytes)
    requires |pel| < WORD
    ensures ReadPels(CountedAll(Pel, pel) + rest) == Got(Bares(pel), rest)
  {
    hide Pel, ReadPel, All, CountedRead, Len;
    AllPelsBare(pel);
    assert CountedAll(Pel, pel) == CountedAll(Pel, Bares(pel));
    forall x | x in Bares(pel) ensures Undoes(ReadPel, Pel, x) { BareUndoes(x); }
    CountedGet(ReadPel, Pel, Bares(pel), rest);
  }

  lemma BareUndoes(p: Pending)
    requires p.consumer == []
    ensures Undoes(ReadPel, Pel, p)
  {
    hide Pel, ReadPel;
    assert Bare(p) == p;
    forall rest: Bytes ensures ReadPel(Pel(p) + rest) == Got(p, rest) { PelGet(p, rest); }
  }

  lemma RowsGet(rows: seq<Row>, rest: Bytes)
    requires |rows| < WORD && forall i :: 0 <= i < |rows| ==> |rows[i].consumer.name| < WORD && |rows[i].owned| < WORD
    ensures ReadRows(CountedAll(RowBytes, rows) + rest) == Got(rows, rest)
  {
    hide RowBytes, ReadRow, CountedAll, CountedRead;
    forall x | x in rows ensures Undoes(ReadRow, RowBytes, x) {
      forall more: Bytes ensures ReadRow(RowBytes(x) + more) == Got(x, more) { RowGet(x, more); }
    }
    CountedGet(ReadRow, RowBytes, rows, rest);
  }

  lemma HeadGet(g: Group, rest: Bytes)
    requires |g.name| < WORD
    ensures ReadHead(GroupHead(g) + rest) == Got((g.name, (g.lastId, g.entriesRead)), rest)
  {
    hide Str, ReadStr, IdLens, ReadIdLens, Len, ReadLen;
    var marks := IdLens(g.lastId) + Len(g.entriesRead);
    StrRoundTrip(g.name, marks + rest);
    IdLensGet(g.lastId, Len(g.entriesRead) + rest);
    LenRoundTrip(g.entriesRead, rest);
    BothGet(ReadIdLens, ReadLen, IdLens(g.lastId), g.lastId, Len(g.entriesRead), g.entriesRead, rest);
    BothGet(ReadStr, ReadMarks, Str(g.name), g.name, marks, (g.lastId, g.entriesRead), rest);
  }

  lemma GroupGet(g: Group, rest: Bytes)
    requires GroupFits(g)
    ensures ReadGroup(GroupBytes(g) + rest) == Got(g, rest)
  {
    hide GroupHead, ReadHead, CountedAll, ReadPels, ReadRows, Resolve, OwnersListed;
    var rows := Rows(g);
    var a, b := CountedAll(Pel, g.pel), CountedAll(RowBytes, rows);
    HeadGet(g, (a + b) + rest);
    PelsGet(g.pel, b + rest);
    RowsGet(rows, rest);
    BothGet(ReadPels, ReadRows, a, Bares(g.pel), b, rows, rest);
    BothGet(ReadHead, ReadLists, GroupHead(g), (g.name, (g.lastId, g.entriesRead)), a + b, (Bares(g.pel), rows), rest);
    OwnersRoundTrip(g);
    assert ConsumersOf(rows) == g.consumers;
  }

  lemma GroupUndoes(g: Group)
    requires GroupFits(g)
    ensures Undoes(ReadGroup, GroupBytes, g)
  {
    hide ReadGroup, GroupBytes, GroupFits;
    forall rest: Bytes ensures ReadGroup(GroupBytes(g) + rest) == Got(g, rest) { GroupGet(g, rest); }
  }

  /* Entries, one node each. */

  function NodeBytes(e: StreamEntry): (b: Bytes)
  {
    Str(RawId(e.id)) + Str(Node(e.fields))
  }

  function ReadKeyed(b: Bytes): (r: Read<(Bytes, Bytes)>) { Both(ReadStr, ReadStr, b) }

  /** A node: its key, and the entries its listpack holds. */
  function ReadEntries(b: Bytes): (r: Read<seq<StreamEntry>>)
  {
    match ReadKeyed(b)
    case Fail => Fail
    case Got((key, lp), rest) =>
      if |key| != 16 then Fail
      else
        match Parsed(ReadRawId(key).value, lp)
        case None => Fail
        case Some(es) => Got(es, rest)
  }

  predicate EntryFits(e: StreamEntry)
  {
    FieldsFit(e.fields) && |e.fields| % 2 == 0 && |Node(e.fields)| < WORD
  }

  lemma EntryGet(e: StreamEntry, rest: Bytes)
    requires EntryFits(e)
    ensures ReadEntries(NodeBytes(e) + rest) == Got([e], rest)
  {
    hide Str, ReadStr, RawId, Node, Parsed, FieldsFit, ReadRawId;
    var key, lp := RawId(e.id), Node(e.fields);
    StrRoundTrip(key, Str(lp) + rest);
    StrRoundTrip(lp, rest);
    BothGet(ReadStr, ReadStr, Str(key), key, Str(lp), lp, rest);
    RawIdGet(e.id, []);
    assert key + [] == key;
    NodeExact(e.id, e.fields);
  }

  /** The chunks of entries the nodes give back. */
  function Chunks(es: seq<StreamEntry>): (cs: seq<seq<StreamEntry>>)
    ensures |cs| == |es| && forall i :: 0 <= i < |es| ==> cs[i] == [es[i]]
  {
    seq(|es|, i requires 0 <= i < |es| => [es[i]])
  }

  function ChunkBytes(c: seq<StreamEntry>): (b: Bytes)
  {
    if |c| == 1 then NodeBytes(c[0]) else []
  }

  lemma {:induction false} AllChunks(es: seq<StreamEntry>)
    ensures All(NodeBytes, es) == All(ChunkBytes, Chunks(es))
  {
    hide NodeBytes;
    if es != [] {
      AllChunks(es[1..]);
      assert Chunks(es)[1..] == Chunks(es[1..]);
    }
  }

  lemma {:induction false} FlatChunks(es: seq<StreamEntry>)
    ensures Flatten(Chunks(es)) == es
  {
    if es != [] {
      var k := |es| - 1;
      FlatChunks(es[..k]);
      assert Chunks(es)[..k] == Chunks(es[..k]);
    }
  }

  lemma ChunkUndoes(c: seq<StreamEntry>)
    requires |c| == 1 && EntryFits(c[0])
    ensures Undoes(ReadEntries, ChunkBytes, c)
  {
    hide NodeBytes, ReadEntries, EntryFits;
    assert c == [c[0]];
    forall rest: Bytes ensures ReadEntries(ChunkBytes(c) + rest) == Got(c, rest) { EntryGet(c[0], rest); }
  }

  function ReadChunks(b: Bytes): (r: Read<seq<seq<StreamEntry>>>) { CountedRead(ReadEntries, b) }

  lemma ChunksGet(es: seq<StreamEntry>, rest: Bytes)
    requires |es| < WORD && forall e :: e in es ==> EntryFits(e)
    ensures ReadChunks(CountedAll(NodeBytes, es) + rest) == Got(Chunks(es), rest)
  {
    hide NodeBytes, ReadEntries, All, CountedRead, Len, EntryFits, ChunkBytes;
    AllChunks(es);
    assert CountedAll(NodeBytes, es) == CountedAll(ChunkBytes, Chunks(es));
    forall c | c in Chunks(es) ensures Undoes(ReadEntries, ChunkBytes, c) { ChunkUndoes(c); }
    CountedGet(ReadEntries, ChunkBytes, Chunks(es), rest);
  }

  /* The stream. */

  function FirstId(s: Stream): (id: Id)
  {
    if s.entries == [] then Id(0, 0) else s.entries[0].id
  }

  function Span(s: Stream): (b: Bytes) { Len(s.length) + IdLens(s.lastId) }

  function Edges(s: Stream): (b: Bytes) { IdLens(FirstId(s)) + IdLens(s.maxDeleted) }

  function Meta(s: Stream): (b: Bytes) { Span(s) + (Edges(s) + Len(s.entriesAdded)) }

  /** rdbDumpStream, past the type byte. */
  function StreamBytes(s: Stream): (b: Bytes)
  {
    CountedAll(NodeBytes, s.entries) + (Meta(s) + CountedAll(GroupBytes, s.groups))
  }

  function ReadSpan(b: Bytes): (r: Read<(U64, Id)>) { Both(ReadLen, ReadIdLens, b) }

  function ReadEdges(b: Bytes): (r: Read<(Id, Id)>) { Both(ReadIdLens, ReadIdLens, b) }

  function ReadAdded(b: Bytes): (r: Read<((Id, Id), U64)>) { Both(ReadEdges, ReadLen, b) }

  function ReadMeta(b: Bytes): (r: Read<((U64, Id), ((Id, Id), U64))>) { Both(ReadSpan, ReadAdded, b) }

  function ReadGroups(b: Bytes): (r: Read<seq<Group>>) { CountedRead(ReadGroup, b) }

  function ReadRest(b: Bytes): (r: Read<(((U64, Id), ((Id, Id), U64)), seq<Group>)>) { Both(ReadMeta, ReadGroups, b) }

  /** rdbLoadStream at type 21, past the type byte; the first identifier is read and dropped. */
  function ReadStream(b: Bytes): (r: Read<Stream>)
  {
    match Both(ReadChunks, ReadRest, b)
    case Fail => Fail
    case Got((chunks, (((length, lastId), ((_, maxDeleted), added)), groups)), rest) =>
      Got(Stream(Flatten(chunks), length, lastId, maxDeleted, added, groups), rest)
  }

  /** A stream whose length counts its entries, each of paired fields. */
  predicate StreamFits(s: Stream)
  {
    && |s.entries| < WORD && s.length == |s.entries| && (forall e :: e in s.entries ==> EntryFits(e))
    && |s.groups| < WORD && (forall g :: g in s.groups ==> GroupFits(g))
  }

  lemma SpanGet(s: Stream, rest: Bytes)
    ensures ReadSpan(Span(s) + rest) == Got((s.length, s.lastId), rest)
  {
    hide IdLens, ReadIdLens, Len, ReadLen;
    LenRoundTrip(s.length, IdLens(s.lastId) + rest);
    IdLensGet(s.lastId, rest);
    BothGet(ReadLen, ReadIdLens, Len(s.length), s.length, IdLens(s.lastId), s.lastId, rest);
  }

  lemma EdgesGet(s: Stream, rest: Bytes)
    ensures ReadEdges(Edges(s) + rest) == Got((FirstId(s), s.maxDeleted), rest)
  {
    hide IdLens, ReadIdLens;
    IdLensGet(FirstId(s), IdLens(s.maxDeleted) + rest);
    IdLensGet(s.maxDeleted, rest);
    BothGet(ReadIdLens, ReadIdLens, IdLens(FirstId(s)), FirstId(s), IdLens(s.maxDeleted), s.maxDeleted, rest);
  }

  lemma MetaGet(s: Stream, rest: Bytes)
    ensures ReadMeta(Meta(s) + rest) == Got(((s.length, s.lastId), ((FirstId(s), s.maxDeleted), s.entriesAdded)), rest)
  {
    hide Span, ReadSpan, Edges, ReadEdges, Len, ReadLen;
    var added := Edges(s) + Len(s.entriesAdded);
    SpanGet(s, added + rest);
    EdgesGet(s, Len(s.entriesAdded) + rest);
    LenRoundTrip(s.entriesAdded, rest);
    BothGet(ReadEdges, ReadLen, Edges(s), (FirstId(s), s.maxDeleted), Len(s.entriesAdded), s.entriesAdded, rest);
    BothGet(ReadSpan, ReadAdded, Span(s), (s.length, s.lastId), added, ((FirstId(s), s.maxDeleted), s.entriesAdded), rest);
  }

  lemma GroupsGet(groups: seq<Group>, rest: Bytes)
    requires |groups| < WORD && forall g :: g in groups ==> GroupFits(g)
    ensures ReadGroups(CountedAll(GroupBytes, groups) + rest) == Got(groups, rest)
  {
    hide GroupBytes, ReadGroup, CountedAll, CountedRead, GroupFits, Undoes;
    forall g | g in groups ensures Undoes(ReadGroup, GroupBytes, g) { GroupUndoes(g); }
    CountedGet(ReadGroup, GroupBytes, groups, rest);
  }

  /** Loading undoes dumping: entries, metadata, groups, consumers and the owners of pending entries. */
  lemma StreamRoundTrip(s: Stream, rest: Bytes)
    requires StreamFits(s)
    ensures ReadStream(StreamBytes(s) + rest) == Got(s, rest)
  {
    hide Meta, ReadMeta, CountedAll, ReadChunks, ReadGroups, EntryFits, GroupFits, Flatten;
    var nodes, groups := CountedAll(NodeBytes, s.entries), CountedAll(GroupBytes, s.groups);
    ChunksGet(s.entries, (Meta(s) + groups) + rest);
    MetaGet(s, groups + rest);
    GroupsGet(s.groups, rest);
    var meta := ((s.length, s.lastId), ((FirstId(s), s.maxDeleted), s.entriesAdded));
    BothGet(ReadMeta, ReadGroups, Meta(s), meta, groups, s.groups, rest);
    BothGet(ReadChunks, ReadRest, nodes, Chunks(s.entries), Meta(s) + groups, (meta, s.groups), rest);
    FlatChunks(s.entries);
  }
}
