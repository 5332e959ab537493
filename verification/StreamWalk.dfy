/** The loops that write a stream's dump and read it back (f1srv/dump.go). */
module StreamWalk {
  import opened Bytes
  import opened Rdb
  import opened StreamNode
  import opened StreamDump
  import opened Crc

  /** The pending identifiers one consumer owns. */
  method CollectOwned(pel: seq<Pending>, name: Bytes) returns (owned: seq<Id>)
    ensures owned == Owned(pel, name)
  {
    owned := [];
    var i := 0;
    assert pel[..0] == [];
    while i < |pel|
      invariant 0 <= i <= |pel| && owned == Owned(pel[..i], name)
    {
      assert pel[..i + 1][..i] == pel[..i];
      if pel[i].consumer == name {
        owned := owned + [pel[i].id];
      }
      i := i + 1;
    }
    assert pel[..i] == pel;
  }

  /** The consumers of a group, each with what it owns. */
  method AppendConsumers(payload0: Bytes, g: Group) returns (payload: Bytes)
    ensures payload == payload0 + All(RowBytes, Rows(g))
  {
    hide RowBytes, Owned;
    payload := payload0;
    var i := 0;
    ghost var rows := Rows(g);
    AllFirst(RowBytes, rows[..0]);
    while i < |g.consumers|
      invariant 0 <= i <= |g.consumers| && payload == payload0 + All(RowBytes, rows[..i])
    {
      var owned := CollectOwned(g.pel, g.consumers[i].name);
      AllSnoc(RowBytes, rows[..i], rows[i]);
      assert rows[..i + 1] == rows[..i] + [rows[i]];
      payload := payload + RowBytes(Row(g.consumers[i], owned));
      i := i + 1;
    }
    assert rows[..i] == rows;
  }

  method AppendGroup(payload0: Bytes, g: Group) returns (payload: Bytes)
    ensures payload == payload0 + GroupBytes(g)
  {
    hide GroupHead, All, Len, Rows;
    payload := payload0 + GroupHead(g) + Len(|g.pel|);
    payload := AppendAll(Pel, payload, g.pel);
    payload := payload + Len(|g.consumers|);
    payload := AppendConsumers(payload, g);
    assert payload == payload0 + (GroupHead(g) + ((Len(|g.pel|) + All(Pel, g.pel)) + (Len(|g.consumers|) + All(RowBytes, Rows(g)))));
    assert |Rows(g)| == |g.consumers|;
  }

  method AppendNodes(payload0: Bytes, es: seq<StreamEntry>) returns (payload: Bytes)
    requires forall e :: e in es ==> |e.fields| < INT64_MAX
    ensures payload == payload0 + All(NodeBytes, es)
  {
    hide Node, RawId, Str;
    payload := payload0;
    var i := 0;
    AllFirst(NodeBytes, es[..0]);
    while i < |es|
      invariant 0 <= i <= |es| && payload == payload0 + All(NodeBytes, es[..i])
    {
      var lp := BuildNode(es[i].fields);
      AllSnoc(NodeBytes, es[..i], es[i]);
      assert es[..i + 1] == es[..i] + [es[i]];
      payload := payload + Str(RawId(es[i].id)) + Str(lp);
      i := i + 1;
    }
    assert es[..i] == es;
  }

  method AppendGroups(payload0: Bytes, gs: seq<Group>) returns (payload: Bytes)
    ensures payload == payload0 + All(GroupBytes, gs)
  {
    hide GroupBytes;
    payload := payload0;
    var i := 0;
    AllFirst(GroupBytes, gs[..0]);
    while i < |gs|
      invariant 0 <= i <= |gs| && payload == payload0 + All(GroupBytes, gs[..i])
    {
      AllSnoc(GroupBytes, gs[..i], gs[i]);
      assert gs[..i + 1] == gs[..i] + [gs[i]];
      payload := AppendGroup(payload, gs[i]);
      i := i + 1;
    }
    assert gs[..i] == gs;
  }

  /** rdbDumpStream, past the type byte. */
  method BuildStream(s: Stream) returns (payload: Bytes)
    requires s.length == |s.entries| && forall e :: e in s.entries ==> |e.fields| < INT64_MAX
    ensures payload == StreamBytes(s)
  {
    hide All, Len, Meta;
    payload := Len(s.length);
    payload := AppendNodes(payload, s.entries);
    payload := payload + Meta(s) + Len(|s.groups|);
    payload := AppendGroups(payload, s.groups);
    assert payload == (Len(s.length) + All(NodeBytes, s.entries)) + (Meta(s) + (Len(|s.groups|) + All(GroupBytes, s.groups)));
  }

  method LoadRow(b: Bytes) returns (r: Read<Row>)
    ensures r == ReadRow(b)
  {
    hide ReadNamed, ReadLen, ReadRawId, Many;
    var named := ReadNamed(b);
    if named.Fail? {
      return Fail;
    }
    var count := ReadLen(named.rest);
    if count.Fail? {
      return Fail;
    }
    var owned := ReadAll(ReadRawId, count.value, count.rest);
    if owned.Fail? {
      return Fail;
    }
    var (name, (seen, active)) := named.value;
    r := Got(Row(Consumer(name, seen, active), owned.value), owned.rest);
  }

  method LoadRows(n: nat, b: Bytes) returns (r: Read<seq<Row>>)
    ensures r == Many(ReadRow, n, b)
  {
    hide ReadRow, Many;
    var rows, rest, i := [], b, 0;
    NothingExtends(Many(ReadRow, n, b));
    while i < n
      invariant 0 <= i <= n && Extend(rows, Many(ReadRow, n - i, rest)) == Many(ReadRow, n, b)
    {
      ManyStep(ReadRow, n - i, rest, rows);
      var row := LoadRow(rest);
      if row.Fail? {
        return Fail;
      }
      rows, rest, i := rows + [row.value], row.rest, i + 1;
    }
    NoneLeft(ReadRow, rest);
    assert rows + [] == rows;
    r := Got(rows, rest);
  }

  /** The index from pending identifier to position. */
  ghost predicate Indexes(index: map<Id, nat>, pel: seq<Pending>)
  {
    forall id :: match Place(pel, id) case None => id !in index case Some(k) => id in index && index[id] == k
  }

  method IndexPel(pel: seq<Pending>) returns (index: map<Id, nat>)
    ensures Indexes(index, pel)
  {
    index := map[];
    var i := 0;
    assert pel[..0] == [];
    while i < |pel|
      invariant 0 <= i <= |pel| && Indexes(index, pel[..i])
    {
      assert pel[..i + 1][..i] == pel[..i];
      index := index[pel[i].id := i];
      i := i + 1;
    }
    assert pel[..i] == pel;
  }

  lemma {:induction false} PlaceSame(a: seq<Pending>, b: seq<Pending>, id: Id)
    requires |a| == |b| && forall i :: 0 <= i < |a| ==> a[i].id == b[i].id
    ensures Place(a, id) == Place(b, id)
  {
    if a != [] { PlaceSame(a[..|a| - 1], b[..|b| - 1], id); }
  }

  lemma IndexSame(index: map<Id, nat>, a: seq<Pending>, b: seq<Pending>)
    requires Indexes(index, a) && |a| == |b| && forall i :: 0 <= i < |a| ==> a[i].id == b[i].id
    ensures Indexes(index, b)
  {
    hide Place;
    forall id ensures Place(a, id) == Place(b, id) { PlaceSame(a, b, id); }
  }

  /** One consumer's identifiers looked up and marked. */
  method MarkOwned(pel0: seq<Pending>, index: map<Id, nat>, ids: seq<Id>, name: Bytes) returns (pel: seq<Pending>)
    requires Indexes(index, pel0)
    ensures pel == Claims(pel0, ids, name)
  {
    hide Place, Indexes;
    pel := pel0;
    var k := 0;
    assert ids[..0] == [];
    while k < |ids|
      invariant 0 <= k <= |ids| && pel == Claims(pel0, ids[..k], name)
    {
      assert ids[..k + 1][..k] == ids[..k];
      IndexSame(index, pel0, pel);
      IndexAt(index, pel, ids[k]);
      if ids[k] in index {
        pel := pel[index[ids[k]] := pel[index[ids[k]]].(consumer := name)];
      }
      k := k + 1;
    }
    assert ids[..k] == ids;
  }

  lemma IndexAt(index: map<Id, nat>, pel: seq<Pending>, id: Id)
    requires Indexes(index, pel)
    ensures match Place(pel, id) case None => id !in index case Some(k) => id in index && index[id] == k
  {
  }

  /** Every consumer's identifiers resolved into the pending list. */
  method ResolveOwners(pel0: seq<Pending>, rows: seq<Row>) returns (pel: seq<Pending>)
    ensures pel == Resolve(pel0, rows)
  {
    hide Claims, Indexes;
    var index := IndexPel(pel0);
    pel := pel0;
    var i := 0;
    assert rows[..0] == [];
    while i < |rows|
      invariant 0 <= i <= |rows| && pel == Resolve(pel0, rows[..i])
    {
      assert rows[..i + 1][..i] == rows[..i];
      IndexSame(index, pel0, pel);
      pel := MarkOwned(pel, index, rows[i].owned, rows[i].consumer.name);
      i := i + 1;
    }
    assert rows[..i] == rows;
  }

  method LoadGroup(b: Bytes) returns (r: Read<Group>)
    ensures r == ReadGroup(b)
  {
    hide ReadHead, ReadLen, ReadPel, ReadRow, Many, Resolve;
    var head := ReadHead(b);
    if head.Fail? {
      return Fail;
    }
    var nPel := ReadLen(head.rest);
    if nPel.Fail? {
      return Fail;
    }
    var pel := ReadAll(ReadPel, nPel.value, nPel.rest);
    if pel.Fail? {
      return Fail;
    }
    var nCons := ReadLen(pel.rest);
    if nCons.Fail? {
      return Fail;
    }
    var rows := LoadRows(nCons.value, nCons.rest);
    if rows.Fail? {
      return Fail;
    }
    var owned := ResolveOwners(pel.value, rows.value);
    var (name, (lastId, read)) := head.value;
    r := Got(Group(name, lastId, read, owned, ConsumersOf(rows.value)), rows.rest);
  }

  method LoadGroups(n: nat, b: Bytes) returns (r: Read<seq<Group>>)
    ensures r == Many(ReadGroup, n, b)
  {
    hide ReadGroup, Many;
    var groups, rest, i := [], b, 0;
    NothingExtends(Many(ReadGroup, n, b));
    while i < n
      invariant 0 <= i <= n && Extend(groups, Many(ReadGroup, n - i, rest)) == Many(ReadGroup, n, b)
    {
      ManyStep(ReadGroup, n - i, rest, groups);
      var g := LoadGroup(rest);
      if g.Fail? {
        return Fail;
      }
      groups, rest, i := groups + [g.value], g.rest, i + 1;
    }
    NoneLeft(ReadGroup, rest);
    assert groups + [] == groups;
    r := Got(groups, rest);
  }

  method LoadEntries(b: Bytes) returns (r: Read<seq<StreamEntry>>)
    ensures r == ReadEntries(b)
  {
    hide ReadKeyed, ReadRawId, Parsed;
    var keyed := ReadKeyed(b);
    if keyed.Fail? {
      return Fail;
    }
    var (key, lp) := keyed.value;
    if |key| != 16 {
      return Fail;
    }
    RawIdReads(key);
    var es := ParseNode(ReadRawId(key).value, lp);
    r := if es.None? then Fail else Got(es.value, keyed.rest);
  }

  lemma RawIdReads(key: Bytes)
    requires |key| == 16
    ensures ReadRawId(key).Got?
  {
  }

  /** The nodes of a stream, their entries in one log. */
  method LoadNodes(n: nat, b: Bytes) returns (r: Read<seq<StreamEntry>>)
    ensures match Many(ReadEntries, n, b) case Fail => r == Fail case Got(chunks, rest) => r == Got(Flatten(chunks), rest)
  {
    hide ReadEntries, Many;
    var entries, rest, i := [], b, 0;
    ghost var chunks: seq<seq<StreamEntry>> := [];
    NothingExtends(Many(ReadEntries, n, b));
    while i < n
      invariant 0 <= i <= n && entries == Flatten(chunks)
      invariant Extend(chunks, Many(ReadEntries, n - i, rest)) == Many(ReadEntries, n, b)
    {
      ManyStep(ReadEntries, n - i, rest, chunks);
      var es := LoadEntries(rest);
      if es.Fail? {
        return Fail;
      }
      chunks := chunks + [es.value];
      assert chunks[..|chunks| - 1] + [es.value] == chunks;
      entries, rest, i := entries + es.value, es.rest, i + 1;
    }
    NoneLeft(ReadEntries, rest);
    assert chunks + [] == chunks;
    r := Got(entries, rest);
  }

  /** rdbLoadStream at type 21, past the type byte. */
  method LoadStream(b: Bytes) returns (r: Read<Stream>)
    ensures r == ReadStream(b)
  {
    hide ReadLen, ReadEntries, ReadGroup, Many, Flatten, ReadMeta;
    var nNodes := ReadLen(b);
    if nNodes.Fail? {
      return Fail;
    }
    var entries := LoadNodes(nNodes.value, nNodes.rest);
    if entries.Fail? {
      return Fail;
    }
    var meta := ReadMeta(entries.rest);
    if meta.Fail? {
      return Fail;
    }
    var nGroups := ReadLen(meta.rest);
    if nGroups.Fail? {
      return Fail;
    }
    var groups := LoadGroups(nGroups.value, nGroups.rest);
    if groups.Fail? {
      return Fail;
    }
    var ((length, lastId), ((_, maxDeleted), added)) := meta.value;
    r := Got(Stream(entries.value, length, lastId, maxDeleted, added, groups.value), groups.rest);
  }

  /** RESTORE undoes DUMP for a stream: the footer is accepted and the whole stream comes back. */
  lemma RestoreUndoesDump(s: Stream)
    requires StreamFits(s)
    ensures var body := [0x15] + StreamBytes(s);
            CheckFooter(Seal(body)) == Some(body) && ReadStream(body[1..]) == Got(s, [])
  {
    hide StreamBytes, ReadStream, Seal, CheckFooter, StreamFits;
    var body := [0x15] + StreamBytes(s);
    StreamRoundTrip(s, []);
    assert StreamBytes(s) + [] == StreamBytes(s) == body[1..];
    assert |StreamBytes(s)| >= 1 by { StreamNonEmpty(s); }
    SealPasses(body);
  }

  lemma StreamNonEmpty(s: Stream)
    ensures |StreamBytes(s)| >= 1
  {
    hide All, Meta;
    assert |Len(|s.entries|)| >= 1;
  }
}
