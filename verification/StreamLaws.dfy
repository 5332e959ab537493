/** The bytes of a stream's dump, field after field in the order they are written, and what RESTORE makes of the nodes
    that other servers write (f1srv/dump.go). */
module StreamLaws {
  import opened Bytes
  import opened Decimal
  import opened Rdb
  import opened Listpack
  import opened FormatLaws
  import opened StreamNode
  import opened StreamDump
  import DumpLaws

  /** What a dump writes one after another: lengths, strings, sixteen-byte identifiers and eight-byte times. */
  datatype Token = Count(n: U64) | Text(s: Bytes) | Ident(id: Id) | Time(t: Int64)

  function Spell(t: Token): (b: Bytes)
  {
    match t
    case Count(n) => Len(n)
    case Text(s) => Str(s)
    case Ident(id) => RawId(id)
    case Time(t) => Ms(t)
  }

  /** Identifiers have their most significant byte first, times their least. */
  lemma FixedAre(id: Id, t: Int64)
    ensures Big(RawId(id)[..8], id.ms, 8) && Big(RawId(id)[8..], id.seqNo, 8) && Little(Ms(t), t, 8)
  {
    hide Be, Le, Big, Little;
    Pow256Values();
    BeIsBig(id.ms, 8);
    BeIsBig(id.seqNo, 8);
    assert RawId(id)[..8] == Be(id.ms, 8) && RawId(id)[8..] == Be(id.seqNo, 8);
    LeIsLittle(t, Pow256(8), 8);
  }

  function Each<T>(f: T -> seq<Token>, xs: seq<T>): (ts: seq<Token>)
  {
    if xs == [] then [] else f(xs[0]) + Each(f, xs[1..])
  }

  function IdTokens(id: Id): (ts: seq<Token>) { [Count(id.ms), Count(id.seqNo)] }

  function EntryTokens(e: StreamEntry): (ts: seq<Token>) { [Text(RawId(e.id)), Text(Node(e.fields))] }

  function PendingTokens(p: Pending): (ts: seq<Token>) { [Ident(p.id), Time(p.time), Count(p.deliveries)] }

  /** The pending identifiers of a consumer, in pending order. */
  function OwnedTokens(pel: seq<Pending>, name: Bytes): (ts: seq<Token>)
    ensures |ts| <= |pel|
  {
    if pel == [] then [] else (if pel[0].consumer == name then [Ident(pel[0].id)] else []) + OwnedTokens(pel[1..], name)
  }

  function ConsumerTokens(g: Group, c: Consumer): (ts: seq<Token>)
    requires |g.pel| < WORD
  {
    var owned := OwnedTokens(g.pel, c.name);
    [Text(c.name), Time(c.seen), Time(c.active), Count(|owned|)] + owned
  }

  function ConsumersTokens(g: Group, k: nat): (ts: seq<Token>)
    requires |g.pel| < WORD && k <= |g.consumers|
  {
    if k == 0 then [] else ConsumersTokens(g, k - 1) + ConsumerTokens(g, g.consumers[k - 1])
  }

  function GroupTokens(g: Group): (ts: seq<Token>)
  {
    if |g.pel| >= WORD || |g.consumers| >= WORD then []
    else
      [Text(g.name)] + IdTokens(g.lastId) + [Count(g.entriesRead), Count(|g.pel|)] + Each(PendingTokens, g.pel)
      + [Count(|g.consumers|)] + ConsumersTokens(g, |g.consumers|)
  }

  function StreamTokens(s: Stream): (ts: seq<Token>)
    requires |s.entries| < WORD && |s.groups| < WORD
  {
    var first := if s.entries == [] then Id(0, 0) else s.entries[0].id;
    [Count(|s.entries|)] + Each(EntryTokens, s.entries)
    + [Count(s.length)] + IdTokens(s.lastId) + IdTokens(first) + IdTokens(s.maxDeleted) + [Count(s.entriesAdded)]
    + [Count(|s.groups|)] + Each(GroupTokens, s.groups)
  }

  lemma SpellConcat(a: seq<Token>, b: seq<Token>)
    ensures All(Spell, a + b) == All(Spell, a) + All(Spell, b)
  {
    hide Spell;
    DumpLaws.AllIs(Spell, a, b);
  }

  lemma SpellOne(t: Token)
    ensures All(Spell, [t]) == Spell(t)
  {
    hide Spell;
    DumpLaws.AllIs(Spell, [t], []);
  }

  lemma SpellTwo(a: Token, b: Token)
    ensures All(Spell, [a, b]) == Spell(a) + Spell(b)
  {
    hide Spell, All;
    assert [a, b] == [a] + [b];
    SpellConcat([a], [b]);
    SpellOne(a);
    SpellOne(b);
  }

  /** Values each of which is spelled by its tokens are so together. */
  lemma {:induction false} EachSpells<T>(enc: T -> Bytes, f: T -> seq<Token>, xs: seq<T>)
    requires forall x :: x in xs ==> enc(x) == All(Spell, f(x))
    ensures All(enc, xs) == All(Spell, Each(f, xs))
  {
    hide Spell;
    if xs != [] {
      EachSpells(enc, f, xs[1..]);
      SpellConcat(f(xs[0]), Each(f, xs[1..]));
    }
  }

  lemma IdSpells(id: Id)
    ensures IdLens(id) == All(Spell, IdTokens(id))
  {
    hide Len, All;
    SpellTwo(Count(id.ms), Count(id.seqNo));
  }

  lemma EntrySpells(e: StreamEntry)
    ensures NodeBytes(e) == All(Spell, EntryTokens(e))
  {
    hide Str, All, RawId, Node;
    SpellTwo(Text(RawId(e.id)), Text(Node(e.fields)));
  }

  lemma PendingSpells(p: Pending)
    ensures Pel(p) == All(Spell, PendingTokens(p))
  {
    hide Len, All, RawId, Ms;
    var a, b, c := Ident(p.id), Time(p.time), Count(p.deliveries);
    assert [a, b, c] == [a] + [b, c];
    SpellConcat([a], [b, c]);
    SpellOne(a);
    SpellTwo(b, c);
  }

  lemma {:induction false} OwnedSpells(pel: seq<Pending>, name: Bytes)
    ensures |OwnedTokens(pel, name)| == |Owned(pel, name)|
    ensures All(Spell, OwnedTokens(pel, name)) == All(RawId, Owned(pel, name))
  {
    hide RawId;
    if pel != [] {
      var rest, own := Owned(pel[1..], name), if pel[0].consumer == name then [pel[0].id] else [];
      OwnedSpells(pel[1..], name);
      OwnedFront(pel, name);
      if pel[0].consumer == name {
        SpellConcat([Ident(pel[0].id)], OwnedTokens(pel[1..], name));
        SpellOne(Ident(pel[0].id));
        DumpLaws.AllIs(RawId, own, rest);
      } else {
        assert [] + OwnedTokens(pel[1..], name) == OwnedTokens(pel[1..], name) && [] + rest == rest;
      }
    }
  }

  function Mine(p: Pending, name: Bytes): (ids: seq<Id>)
  {
    if p.consumer == name then [p.id] else []
  }

  lemma OwnedLast(pel: seq<Pending>, name: Bytes)
    requires pel != []
    ensures Owned(pel, name) == Owned(pel[..|pel| - 1], name) + Mine(pel[|pel| - 1], name)
  {
  }

  lemma {:induction false} OwnedFront(pel: seq<Pending>, name: Bytes)
    requires pel != []
    ensures Owned(pel, name) == Mine(pel[0], name) + Owned(pel[1..], name)
  {
    hide Owned, Mine;
    var k := |pel| - 1;
    OwnedLast(pel, name);
    if k == 0 {
      assert Owned([], name) == [] by { NoneOwned(name); }
      assert pel[..0] == [] && pel[1..] == [] && [] + Mine(pel[0], name) == Mine(pel[0], name) + [];
    } else {
      OwnedFront(pel[..k], name);
      OwnedLast(pel[1..], name);
      assert pel[..k][1..] == pel[1..][..k - 1] && pel[..k][0] == pel[0] && pel[1..][k - 1] == pel[k];
      Associated(Mine(pel[0], name), Owned(pel[1..][..k - 1], name), Mine(pel[k], name));
    }
  }

  lemma NoneOwned(name: Bytes)
    ensures Owned([], name) == []
  {
  }

  lemma Associated<T>(a: seq<T>, b: seq<T>, c: seq<T>)
    ensures (a + b) + c == a + (b + c)
  {
  }

  lemma ConsumerSpells(g: Group, c: Consumer)
    requires |g.pel| < WORD
    ensures RowBytes(Row(c, Owned(g.pel, c.name))) == All(Spell, ConsumerTokens(g, c))
  {
    hide Str, Len, All, RawId, Ms, OwnedTokens, Owned;
    var owned := OwnedTokens(g.pel, c.name);
    OwnedSpells(g.pel, c.name);
    var a, b, x, y := Text(c.name), Time(c.seen), Time(c.active), Count(|owned|);
    assert [a, b, x, y] == [a, b] + [x, y];
    SpellConcat([a, b] + [x, y], owned);
    SpellConcat([a, b], [x, y]);
    SpellTwo(a, b);
    SpellTwo(x, y);
    var ids := All(RawId, Owned(g.pel, c.name));
    assert ((Str(c.name) + Ms(c.seen)) + (Ms(c.active) + Len(|owned|))) + ids
        == (Str(c.name) + (Ms(c.seen) + Ms(c.active))) + (Len(|owned|) + ids);
  }

  lemma {:induction false} ConsumersSpell(g: Group, k: nat)
    requires |g.pel| < WORD && k <= |g.consumers|
    ensures All(RowBytes, Rows(g)[..k]) == All(Spell, ConsumersTokens(g, k))
  {
    hide RowBytes, Spell, ConsumerTokens;
    if k == 0 {
      assert Rows(g)[..0] == [];
    } else {
      ConsumersSpell(g, k - 1);
      ConsumerSpells(g, g.consumers[k - 1]);
      assert Rows(g)[..k] == Rows(g)[..k - 1] + [Rows(g)[k - 1]];
      AllSnoc(RowBytes, Rows(g)[..k - 1], Rows(g)[k - 1]);
      SpellConcat(ConsumersTokens(g, k - 1), ConsumerTokens(g, g.consumers[k - 1]));
    }
  }

  lemma GroupSpells(g: Group)
    requires |g.pel| < WORD && |g.consumers| < WORD
    ensures GroupBytes(g) == All(Spell, GroupTokens(g))
  {
    hide Str, Len, All, IdLens, IdTokens, RowBytes, Pel, PendingTokens, Each, ConsumersTokens;
    var name, id, two := [Text(g.name)], IdTokens(g.lastId), [Count(g.entriesRead), Count(|g.pel|)];
    var pel, n, cs := Each(PendingTokens, g.pel), [Count(|g.consumers|)], ConsumersTokens(g, |g.consumers|);
    SpellConcat(name + id + two + pel + n, cs);
    SpellConcat(name + id + two + pel, n);
    SpellConcat(name + id + two, pel);
    SpellConcat(name + id, two);
    SpellConcat(name, id);
    SpellOne(Text(g.name));
    IdSpells(g.lastId);
    SpellTwo(Count(g.entriesRead), Count(|g.pel|));
    SpellOne(Count(|g.consumers|));
    forall p | p in g.pel ensures Pel(p) == All(Spell, PendingTokens(p)) { PendingSpells(p); }
    EachSpells(Pel, PendingTokens, g.pel);
    ConsumersSpell(g, |g.consumers|);
    assert Rows(g)[..|g.consumers|] == Rows(g);
    Regrouped(Str(g.name), IdLens(g.lastId), Len(g.entriesRead), Len(|g.pel|), All(Pel, g.pel), Len(|g.consumers|), All(RowBytes, Rows(g)));
  }

  lemma Regrouped(a: Bytes, b: Bytes, c: Bytes, d: Bytes, e: Bytes, f: Bytes, g: Bytes)
    ensures (a + (b + c)) + ((d + e) + (f + g)) == ((((a + b) + (c + d)) + e) + f) + g
  {
  }

  /** The dump of a stream: every field once, in this order. */
  lemma StreamSpells(s: Stream)
    requires StreamFits(s)
    ensures StreamBytes(s) == All(Spell, StreamTokens(s))
  {
    hide Str, Len, All, IdLens, IdTokens, NodeBytes, EntryTokens, GroupBytes, GroupTokens, Each, GroupFits, EntryFits;
    var a, es := [Count(|s.entries|)], Each(EntryTokens, s.entries);
    var l, last, first, del := [Count(s.length)], IdTokens(s.lastId), IdTokens(FirstId(s)), IdTokens(s.maxDeleted);
    var added, n, gs := [Count(s.entriesAdded)], [Count(|s.groups|)], Each(GroupTokens, s.groups);
    SpellConcat(a + es + l + last + first + del + added + n, gs);
    SpellConcat(a + es + l + last + first + del + added, n);
    SpellConcat(a + es + l + last + first + del, added);
    SpellConcat(a + es + l + last + first, del);
    SpellConcat(a + es + l + last, first);
    SpellConcat(a + es + l, last);
    SpellConcat(a + es, l);
    SpellConcat(a, es);
    SpellOne(Count(|s.entries|));
    SpellOne(Count(s.length));
    SpellOne(Count(s.entriesAdded));
    SpellOne(Count(|s.groups|));
    IdSpells(s.lastId);
    IdSpells(FirstId(s));
    IdSpells(s.maxDeleted);
    forall e | e in s.entries ensures NodeBytes(e) == All(Spell, EntryTokens(e)) { EntrySpells(e); }
    EachSpells(NodeBytes, EntryTokens, s.entries);
    forall g | g in s.groups ensures GroupBytes(g) == All(Spell, GroupTokens(g)) { GroupSized(g); GroupSpells(g); }
    EachSpells(GroupBytes, GroupTokens, s.groups);
    Rejoined(Len(|s.entries|), All(NodeBytes, s.entries), Len(s.length), IdLens(s.lastId), IdLens(FirstId(s)), IdLens(s.maxDeleted),
             Len(s.entriesAdded), Len(|s.groups|), All(GroupBytes, s.groups));
  }

  lemma GroupSized(g: Group)
    requires GroupFits(g)
    ensures |g.pel| < WORD && |g.consumers| < WORD
  {
  }

  lemma Rejoined(a: Bytes, b: Bytes, c: Bytes, d: Bytes, e: Bytes, f: Bytes, g: Bytes, h: Bytes, i: Bytes)
    ensures (a + b) + (((c + d) + ((e + f) + g)) + (h + i)) == (((((((a + b) + c) + d) + e) + f) + g) + h) + i
  {
  }
}
