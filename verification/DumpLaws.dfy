/** The bytes of a dump, type by type, and what RESTORE makes of the encodings that other servers write
    (f1srv/dump.go). */
module DumpLaws {
  import opened Bytes
  import opened ListSize
  import opened Rdb
  import opened Listpack
  import opened Dump

  /** A dump is a type byte, for collections a count, and the strings; a list is one packed node. */
  lemma BodyIs(v: Value)
    ensures match v
            case Text(s) => Body(v) == [0x00] + Str(s)
            case Set(es) => Body(v) == [0x02] + Len(|es|) + All(Str, es)
            case Hash(es) => Body(v) == [0x04] + Len(|es| / 2) + All(Str, es)
            case Zset(ms) => Body(v) == [0x05] + Len(|ms|) + All(Member, ms)
            case List(es) => Body(v) == [0x12, 1, 2] + Str(Pack(All(Entry, es), |es|))
  {
    hide Str, All, Pack;
    if v.List? {
      assert Len(1) == [1] && Len(2) == [2];
    }
  }

  lemma MemberIs(m: Scored)
    ensures Member(m) == Str(m.member) + m.score
  {
  }

  lemma {:induction false} AllIs<T>(enc: T -> Bytes, xs: seq<T>, ys: seq<T>)
    ensures All(enc, xs + ys) == All(enc, xs) + All(enc, ys)
    ensures forall x :: All(enc, [x]) == enc(x)
  {
    forall x ensures All(enc, [x]) == enc(x) {
      assert [x][1..] == [] && enc(x) + [] == enc(x);
    }
    if xs == [] {
      assert xs + ys == ys;
    } else {
      AllIs(enc, xs[1..], ys);
      assert (xs + ys)[1..] == xs[1..] + ys;
    }
  }

  /* The encodings of other servers. */

  lemma PackedIs(es: seq<Bytes>, count: nat)
    requires (forall e :: e in es ==> |e| < ELEMENT_MAX) && |Pack(All(Entry, es), count)| < WORD
    ensures Packed(Str(Pack(All(Entry, es), count))) == Some(es)
  {
    hide ReadStr, Str, Decoded, Pack, All;
    var lp := Pack(All(Entry, es), count);
    PackRoundTrip(es, count);
    StrRoundTrip(lp, []);
    assert Str(lp) + [] == Str(lp);
  }

  /** A hash and a set as listpacks, and a list as plain strings. */
  lemma LoadKin(es: seq<Bytes>, count: nat)
    requires |es| < WORD && (forall e :: e in es ==> |e| < ELEMENT_MAX) && |Pack(All(Entry, es), count)| < WORD
    ensures var lp := Str(Pack(All(Entry, es), count));
            && Load([0x10] + lp) == (if |es| % 2 == 0 then Some(Hash(es)) else None)
            && Load([0x14] + lp) == Some(Set(es))
    ensures Load([0x01] + Len(|es|) + All(Str, es)) == Some(List(es))
  {
    hide Packed, Str, Pack, All, Counted, ReadStr, Flatten, Len;
    var lp := Str(Pack(All(Entry, es), count));
    PackedIs(es, count);
    TypedBody(0x10, lp);
    TypedBody(0x14, lp);
    forall e | e in es ensures Undoes(ReadStr, Str, e) { StrUndoes(e); }
    CountedUndoes(ReadStr, Str, 1, |es|, es);
    var plain := Len(|es|) + All(Str, es);
    TypedBody(0x01, plain);
    assert [0x01] + Len(|es|) + All(Str, es) == [0x01] + plain;
  }

  /** A node of a quicklist, as any server writes it. */
  datatype Node = Plain(e: Bytes) | Several(es: seq<Bytes>)

  function NodeBytes(n: Node): (b: Bytes)
  {
    match n
    case Plain(e) => Len(1) + Str(e)
    case Several(es) => Len(2) + Str(Pack(All(Entry, es), |es|))
  }

  predicate NodeFits(n: Node)
  {
    match n
    case Plain(e) => |e| < WORD
    case Several(es) => (forall e :: e in es ==> |e| < ELEMENT_MAX) && |Pack(All(Entry, es), |es|)| < WORD
  }

  function Held(n: Node): (es: seq<Bytes>)
  {
    match n case Plain(e) => [e] case Several(es) => es
  }

  function AllHeld(ns: seq<Node>): (es: seq<Bytes>)
  {
    if ns == [] then [] else AllHeld(ns[..|ns| - 1]) + Held(ns[|ns| - 1])
  }

  function Parts(ns: seq<Node>): (ps: seq<seq<Bytes>>)
    ensures |ps| == |ns| && forall i :: 0 <= i < |ns| ==> ps[i] == Held(ns[i])
  {
    seq(|ns|, i requires 0 <= i < |ns| => Held(ns[i]))
  }

  lemma NodeGet(n: Node, rest: Bytes)
    requires NodeFits(n)
    ensures ReadNode(NodeBytes(n) + rest) == Got(Held(n), rest)
  {
    hide ReadLen, Len, ReadStr, Str, Decoded, Pack, All;
    var tag, blob := if n.Plain? then 1 else 2, if n.Plain? then n.e else Pack(All(Entry, n.es), |n.es|);
    assert NodeBytes(n) + rest == Len(tag) + (Str(blob) + rest);
    LenRoundTrip(tag, Str(blob) + rest);
    StrRoundTrip(blob, rest);
    if n.Several? { PackRoundTrip(n.es, |n.es|); }
  }

  lemma {:induction false} NodesGet(ns: seq<Node>, rest: Bytes)
    requires forall n :: n in ns ==> NodeFits(n)
    ensures Many(ReadNode, |ns|, All(NodeBytes, ns) + rest) == Got(Parts(ns), rest)
  {
    hide ReadNode, NodeBytes, NodeFits;
    if ns == [] {
      assert All(NodeBytes, ns) + rest == rest;
    } else {
      var more := All(NodeBytes, ns[1..]) + rest;
      NodesGet(ns[1..], rest);
      NodeGet(ns[0], more);
      assert All(NodeBytes, ns) + rest == NodeBytes(ns[0]) + more;
      assert Parts(ns) == [Held(ns[0])] + Parts(ns[1..]);
    }
  }

  lemma {:induction false} FlattenParts(ns: seq<Node>)
    ensures Flatten(Parts(ns)) == AllHeld(ns)
  {
    if ns != [] {
      var k := |ns| - 1;
      FlattenParts(ns[..k]);
      assert Parts(ns)[..k] == Parts(ns[..k]);
    }
  }

  lemma CountedNodes(ns: seq<Node>)
    requires |ns| < WORD && forall n :: n in ns ==> NodeFits(n)
    ensures Counted(ReadNode, 1, Len(|ns|) + All(NodeBytes, ns)) == Some(Parts(ns))
  {
    hide ReadLen, Len, ReadNode, NodeBytes, NodeFits, All, Many, Parts;
    var all := All(NodeBytes, ns);
    LenRoundTrip(|ns|, all);
    NodesGet(ns, []);
    assert all + [] == all;
    assert (1 * |ns|) % WORD == |ns|;
  }

  lemma AsQuicklist(body: Bytes)
    ensures Load([0x12] + body) == match Counted(ReadNode, 1, body) case None => None case Some(ps) => Some(List(Flatten(ps)))
  {
    hide Counted, Flatten, Packed, ReadStr;
    TypedBody(0x12, body);
  }

  /** A list in any number of nodes, plain and packed ones mixed, is the elements of the nodes in turn. */
  lemma QuicklistLoads(ns: seq<Node>)
    requires |ns| < WORD && forall n :: n in ns ==> NodeFits(n)
    ensures Load([0x12] + Len(|ns|) + All(NodeBytes, ns)) == Some(List(AllHeld(ns)))
  {
    hide *;
    var body := Len(|ns|) + All(NodeBytes, ns);
    assert [0x12] + Len(|ns|) + All(NodeBytes, ns) == [0x12] + body;
    AsQuicklist(body);
    CountedNodes(ns);
    FlattenParts(ns);
  }
}
