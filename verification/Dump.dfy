/** DUMP and RESTORE of strings, hashes, sets, sorted sets and lists (f1srv/dump.go). */
module Dump {
  import opened Bytes
  import opened ListSize
  import opened Rdb
  import opened Listpack
  import opened Crc

  const TYPE_STRING: Byte := 0x00
  const TYPE_LIST: Byte := 0x01
  const TYPE_SET: Byte := 0x02
  const TYPE_HASH: Byte := 0x04
  const TYPE_ZSET2: Byte := 0x05
  const TYPE_HASH_LISTPACK: Byte := 0x10
  const TYPE_QUICKLIST2: Byte := 0x12
  const TYPE_SET_LISTPACK: Byte := 0x14
  const NODE_PLAIN: nat := 1
  const NODE_PACKED: nat := 2

  /** A sorted-set member and the eight bytes of its score. */
  datatype Scored = Scored(member: Bytes, score: Bytes)

  /** A value; a hash is its fields and values in turn. */
  datatype Value =
    | Text(str: Bytes)
    | Hash(elems: seq<Bytes>)
    | Set(elems: seq<Bytes>)
    | List(elems: seq<Bytes>)
    | Zset(members: seq<Scored>)

  /** A value of a size a Go slice can have. */
  predicate Fits(v: Value)
  {
    match v
    case Text(str) => |str| < WORD
    case Hash(elems) => |elems| % 2 == 0 && |elems| < WORD && forall e :: e in elems ==> |e| < WORD
    case Set(elems) => |elems| < WORD && forall e :: e in elems ==> |e| < WORD
    case List(elems) => ListBytes(elems) < WORD && forall e :: e in elems ==> |e| < ELEMENT_MAX
    case Zset(members) => |members| < WORD && forall m :: m in members ==> |m.member| < WORD && |m.score| == 8
  }

  function Member(m: Scored): (b: Bytes)
  {
    Str(m.member) + m.score
  }

  /** The body of a dump: a type byte and the type's encoding. */
  function Body(v: Value): (b: Bytes)
    ensures |b| >= 2
  {
    match v
    case Text(str) => StrNonEmpty(str); [TYPE_STRING] + Str(str)
    case Hash(elems) => LenNonEmpty(|elems| / 2); [TYPE_HASH] + Len(|elems| / 2) + All(Str, elems)
    case Set(elems) => LenNonEmpty(|elems|); [TYPE_SET] + Len(|elems|) + All(Str, elems)
    case List(elems) =>
      LenNonEmpty(1);
      [TYPE_QUICKLIST2] + Len(1) + Len(NODE_PACKED) + Str(Pack(All(Entry, elems), |elems|))
    case Zset(members) => LenNonEmpty(|members|); [TYPE_ZSET2] + Len(|members|) + All(Member, members)
  }

  lemma LenNonEmpty(n: nat)
    ensures |Len(n)| >= 1
  {
  }

  lemma StrNonEmpty(s: Bytes)
    ensures |Str(s)| >= 1
  {
    LenNonEmpty(|s|);
  }

  /** The walks that build a body. */
  method Build(v: Value) returns (b: Bytes)
    ensures b == Body(v)
  {
    hide Str, Len, All, Entry;
    match v
    case Text(str) => b := [TYPE_STRING] + Str(str);
    case Hash(elems) => b := AppendAll(Str, [TYPE_HASH] + Len(|elems| / 2), elems);
    case Set(elems) => b := AppendAll(Str, [TYPE_SET] + Len(|elems|), elems);
    case List(elems) =>
      var entries := AppendAll(Entry, [], elems);
      assert [] + All(Entry, elems) == All(Entry, elems);
      b := [TYPE_QUICKLIST2] + Len(1) + Len(NODE_PACKED) + Str(Pack(entries, |elems|));
    case Zset(members) => b := AppendAll(Member, [TYPE_ZSET2] + Len(|members|), members);
  }

  function ReadMember(b: Bytes): (r: Read<Scored>)
  {
    match ReadStr(b)
    case Fail => Fail
    case Got(m, rest) => if |rest| < 8 then Fail else Got(Scored(m, rest[..8]), rest[8..])
  }

  /** One node of a quicklist: a value by itself, or a listpack of them. */
  function ReadNode(b: Bytes): (r: Read<seq<Bytes>>)
  {
    match ReadLen(b)
    case Fail => Fail
    case Got(container, rest) =>
      match ReadStr(rest)
      case Fail => Fail
      case Got(blob, rest') =>
        if container == NODE_PLAIN then Got([blob], rest')
        else if container == NODE_PACKED then
          match Decoded(blob)
          case None => Fail
          case Some(part) => Got(part, rest')
        else Fail
  }

  /** A count, then that many values, or `per` times as many in 64-bit arithmetic. */
  function Counted<T>(get: Bytes -> Read<T>, per: nat, b: Bytes): (r: Option<seq<T>>)
  {
    match ReadLen(b)
    case Fail => None
    case Got(n, rest) => Whole(Many(get, (per * n) % WORD, rest))
  }

  function Whole<T>(r: Read<seq<T>>): (xs: Option<seq<T>>)
  {
    match r case Fail => None case Got(xs, _) => Some(xs)
  }

  /** A hash body as its count declares it. */
  function Declared(b: Bytes): (r: Option<seq<Bytes>>)
  {
    match ReadLen(b)
    case Fail => None
    case Got(n, rest) => Whole(Many(ReadStr, 2 * n, rest))
  }

  /** A string takes some bytes, so that no body holds more strings than bytes. */
  lemma {:induction false} ManyFit(n: nat, b: Bytes)
    ensures Many(ReadStr, n, b).Got? ==> n + |Many(ReadStr, n, b).rest| <= |b|
  {
    if n > 0 && ReadStr(b).Got? {
      StrShorter(b);
      ManyFit(n - 1, ReadStr(b).rest);
    }
  }

  lemma StrShorter(b: Bytes)
    ensures ReadStr(b).Got? ==> |ReadStr(b).rest| < |b|
  {
    hide FromBe, FromLe;
  }

  /** A hash is read as its count declares it if and only if twice the count stays below 2^64, or the strings that
      the product wraps to do not all parse either. */
  lemma CountExact(b: Bytes)
    requires |b| < WORD
    ensures Counted(ReadStr, 2, b) == Declared(b) <==>
            match ReadLen(b)
            case Fail => true
            case Got(n, rest) => 2 * n < WORD || Many(ReadStr, 2 * n - WORD, rest) == Fail
  {
    hide ReadStr, Many;
    LenShorter(b);
    match ReadLen(b)
    case Fail =>
    case Got(n, rest) =>
      hide ReadLen;
      if 2 * n < WORD {
        assert (2 * n) % WORD == 2 * n;
      } else {
        assert (2 * n) % WORD == 2 * n - WORD;
        ManyFit(2 * n, rest);
      }
  }

  lemma LenShorter(b: Bytes)
    ensures ReadLen(b).Got? ==> |ReadLen(b).rest| <= |b|
  {
    hide FromBe;
  }

  /** A hash body that declares 2^63 fields and holds none: it loads as an empty hash. */
  lemma CountWraps()
    ensures Load([TYPE_HASH] + Len(WORD / 2)) == Some(Hash([])) && Declared(Len(WORD / 2)) == None
  {
    hide Len, ReadLen, Many, ReadStr, Flatten, Packed;
    LenRoundTrip(WORD / 2, []);
    var b := Len(WORD / 2);
    assert b + [] == b;
    TypedBody(TYPE_HASH, b);
    NoneLeft(ReadStr, []);
    ManyFit(WORD, []);
  }

  /** A listpack stored as a string. */
  function Packed(b: Bytes): (r: Option<seq<Bytes>>)
  {
    match ReadStr(b)
    case Fail => None
    case Got(lp, _) => Decoded(lp)
  }

  /** rdbLoadValue, on the types the walks above write and their listpack and plain-list kin. */
  function Load(b: Bytes): (v: Option<Value>)
  {
    if |b| < 1 then None
    else
      var t, rest := b[0], b[1..];
      if t == TYPE_STRING then
        (match ReadStr(rest) case Fail => None case Got(s, _) => Some(Text(s)))
      else if t == TYPE_HASH then
        (match Counted(ReadStr, 2, rest) case None => None case Some(es) => Some(Hash(es)))
      else if t == TYPE_HASH_LISTPACK then
        (match Packed(rest) case None => None case Some(es) => if |es| % 2 != 0 then None else Some(Hash(es)))
      else if t == TYPE_SET then
        (match Counted(ReadStr, 1, rest) case None => None case Some(es) => Some(Set(es)))
      else if t == TYPE_SET_LISTPACK then
        (match Packed(rest) case None => None case Some(es) => Some(Set(es)))
      else if t == TYPE_LIST then
        (match Counted(ReadStr, 1, rest) case None => None case Some(es) => Some(List(es)))
      else if t == TYPE_QUICKLIST2 then
        (match Counted(ReadNode, 1, rest) case None => None case Some(parts) => Some(List(Flatten(parts))))
      else if t == TYPE_ZSET2 then
        (match Counted(ReadMember, 1, rest) case None => None case Some(ms) => Some(Zset(ms)))
      else None
  }

  lemma StrUndoes(x: Bytes)
    requires |x| < WORD
    ensures Undoes(ReadStr, Str, x)
  {
    hide ReadStr, Str;
    forall rest: Bytes ensures ReadStr(Str(x) + rest) == Got(x, rest) { StrRoundTrip(x, rest); }
  }

  lemma MemberUndoes(x: Scored)
    requires |x.member| < WORD && |x.score| == 8
    ensures Undoes(ReadMember, Member, x)
  {
    hide ReadStr, Str;
    forall rest: Bytes ensures ReadMember(Member(x) + rest) == Got(x, rest) {
      assert Member(x) + rest == Str(x.member) + (x.score + rest);
      StrRoundTrip(x.member, x.score + rest);
      assert (x.score + rest)[..8] == x.score && (x.score + rest)[8..] == rest;
    }
  }

  lemma CountedUndoes<T>(get: Bytes -> Read<T>, enc: T -> Bytes, per: nat, n: nat, xs: seq<T>)
    requires n < WORD && per * n == |xs| < WORD && forall x :: x in xs ==> Undoes(get, enc, x)
    ensures Counted(get, per, Len(n) + All(enc, xs)) == Some(xs)
  {
    hide ReadLen, Len, Many, All, Undoes;
    assert (per * n) % WORD == |xs|;
    LenRoundTrip(n, All(enc, xs));
    ManyRoundTrip(get, enc, xs, []);
    assert All(enc, xs) + [] == All(enc, xs);
  }

  lemma NodeComesBack(lp: Bytes, elems: seq<Bytes>)
    requires |lp| < WORD && Decoded(lp) == Some(elems)
    ensures ReadNode(Len(NODE_PACKED) + Str(lp)) == Got(elems, [])
  {
    hide ReadLen, Len, ReadStr, Str, Decoded;
    LenRoundTrip(NODE_PACKED, Str(lp));
    StrRoundTrip(lp, []);
    assert Str(lp) + [] == Str(lp);
  }

  lemma NodeUndoes(elems: seq<Bytes>)
    requires ListBytes(elems) < WORD && forall e :: e in elems ==> |e| < ELEMENT_MAX
    ensures var lp := Pack(All(Entry, elems), |elems|);
            Counted(ReadNode, 1, Len(1) + Len(NODE_PACKED) + Str(lp)) == Some([elems])
  {
    hide ReadLen, ReadNode, Len, Str, Decoded, Pack, ListBytes, Many, All;
    var lp := Pack(All(Entry, elems), |elems|);
    PackTakes(elems);
    PackRoundTrip(elems, |elems|);
    NodeComesBack(lp, elems);
    var node := Len(NODE_PACKED) + Str(lp);
    LenRoundTrip(1, node);
    assert Len(1) + Len(NODE_PACKED) + Str(lp) == Len(1) + node;
    OneOf(ReadNode, node, elems, []);
  }

  lemma OneOf<T>(get: Bytes -> Read<T>, b: Bytes, x: T, rest: Bytes)
    requires get(b) == Got(x, rest)
    ensures Many(get, 1, b) == Got([x], rest)
  {
    assert Many(get, 0, rest) == Got([], rest) && [x] + [] == [x];
  }

  lemma TypedBody(t: Byte, rest: Bytes)
    ensures ([t] + rest)[0] == t && ([t] + rest)[1..] == rest
  {
  }

  lemma LoadUndoesList(elems: seq<Bytes>)
    requires Fits(List(elems))
    ensures Load(Body(List(elems))) == Some(List(elems))
  {
    hide Counted, ReadStr, Str, Len, All, Pack, ListBytes;
    NodeUndoes(elems);
    FlattenOne(elems);
    var node := Str(Pack(All(Entry, elems), |elems|));
    assert [TYPE_QUICKLIST2] + Len(1) + Len(NODE_PACKED) + node == [TYPE_QUICKLIST2] + (Len(1) + Len(NODE_PACKED) + node);
    TypedBody(TYPE_QUICKLIST2, Len(1) + Len(NODE_PACKED) + node);
  }

  lemma LoadUndoesStrings(v: Value)
    requires Fits(v) && (v.Hash? || v.Set?)
    ensures Load(Body(v)) == Some(v)
  {
    hide Counted, ReadStr, Str, Len, All, Undoes, Flatten;
    var n := if v.Hash? then |v.elems| / 2 else |v.elems|;
    forall x | x in v.elems ensures Undoes(ReadStr, Str, x) { StrUndoes(x); }
    CountedUndoes(ReadStr, Str, if v.Hash? then 2 else 1, n, v.elems);
    var t := if v.Hash? then TYPE_HASH else TYPE_SET;
    assert [t] + Len(n) + All(Str, v.elems) == [t] + (Len(n) + All(Str, v.elems));
    TypedBody(t, Len(n) + All(Str, v.elems));
  }

  lemma LoadUndoesZset(members: seq<Scored>)
    requires Fits(Zset(members))
    ensures Load(Body(Zset(members))) == Some(Zset(members))
  {
    hide Counted, ReadMember, Member, Len, All, Undoes, Flatten;
    forall x | x in members ensures Undoes(ReadMember, Member, x) { MemberUndoes(x); }
    CountedUndoes(ReadMember, Member, 1, |members|, members);
    var rest := Len(|members|) + All(Member, members);
    assert [TYPE_ZSET2] + Len(|members|) + All(Member, members) == [TYPE_ZSET2] + rest;
    TypedBody(TYPE_ZSET2, rest);
  }

  /** Loading undoes dumping, for every value of every type. */
  lemma LoadUndoesBody(v: Value)
    requires Fits(v)
    ensures Load(Body(v)) == Some(v)
  {
    if v.Text? {
      hide ReadStr, Str;
      StrRoundTrip(v.str, []);
      assert Str(v.str) + [] == Str(v.str);
      TypedBody(TYPE_STRING, Str(v.str));
    } else {
      hide Load, Body;
      match v
      case List(elems) => LoadUndoesList(elems);
      case Zset(members) => LoadUndoesZset(members);
      case _ => LoadUndoesStrings(v);
    }
  }

  lemma FlattenOne<T>(s: seq<T>)
    ensures Flatten([s]) == s
  {
    assert [s][..0] == [];
    assert Flatten<T>([]) + s == s;
  }

  /** RESTORE undoes DUMP: the footer is accepted and the value comes back. */
  lemma RestoreUndoesDump(v: Value)
    requires Fits(v)
    ensures CheckFooter(Seal(Body(v))) == Some(Body(v)) && Load(Body(v)) == Some(v)
  {
    hide Body, Seal, CheckFooter, Load;
    SealPasses(Body(v));
    LoadUndoesBody(v);
  }

  method LoadCounted<T>(get: Bytes -> Read<T>, per: nat, b: Bytes) returns (r: Option<seq<T>>)
    ensures r == Counted(get, per, b)
  {
    hide ReadLen, Many;
    match ReadLen(b)
    case Fail => r := None;
    case Got(n, rest) =>
      var xs := ReadAll(get, (per * n) % WORD, rest);
      r := if xs.Fail? then None else Some(xs.value);
  }

  method LoadNode(b: Bytes) returns (r: Read<seq<Bytes>>)
    ensures r == ReadNode(b)
  {
    hide ReadLen, ReadStr, Decoded;
    match ReadLen(b)
    case Fail => r := Fail;
    case Got(container, rest) =>
      match ReadStr(rest)
      case Fail => r := Fail;
      case Got(blob, rest') =>
        if container == NODE_PLAIN {
          r := Got([blob], rest');
        } else if container == NODE_PACKED {
          var part := Decode(blob);
          r := if part.None? then Fail else Got(part.value, rest');
        } else {
          r := Fail;
        }
  }

  /** rdbLoadQuicklist2: the elements flatten across nodes. */
  method LoadQuicklist(b: Bytes) returns (r: Option<seq<Bytes>>)
    ensures r == match Counted(ReadNode, 1, b) case None => None case Some(parts) => Some(Flatten(parts))
  {
    hide ReadLen, ReadNode, Many;
    var count := ReadLen(b);
    if count.Fail? {
      return None;
    }
    var n, rest, i := count.value, count.rest, 0;
    ghost var parts: seq<seq<Bytes>> := [];
    var elems := [];
    NothingExtends(Many(ReadNode, n, rest));
    while i < n
      invariant 0 <= i <= n && elems == Flatten(parts)
      invariant Extend(parts, Many(ReadNode, n - i, rest)) == Many(ReadNode, n, count.rest)
    {
      ManyStep(ReadNode, n - i, rest, parts);
      var node := LoadNode(rest);
      if node.Fail? {
        return None;
      }
      parts := parts + [node.value];
      assert parts[..|parts| - 1] + [node.value] == parts;
      elems := elems + node.value;
      rest := node.rest;
      i := i + 1;
    }
    NoneLeft(ReadNode, rest);
    assert parts + [] == parts;
    r := Some(elems);
  }

  /** rdbLoadValue. */
  method LoadValue(b: Bytes) returns (v: Option<Value>)
    ensures v == Load(b)
  {
    hide ReadStr, Counted, Flatten, Decoded;
    if |b| < 1 {
      return None;
    }
    var t, rest := b[0], b[1..];
    var es: Option<seq<Bytes>>;
    if t == TYPE_STRING {
      var s := ReadStr(rest);
      return if s.Fail? then None else Some(Text(s.value));
    } else if t == TYPE_ZSET2 {
      var ms := LoadCounted(ReadMember, 1, rest);
      return if ms.None? then None else Some(Zset(ms.value));
    } else if t == TYPE_QUICKLIST2 {
      es := LoadQuicklist(rest);
      return if es.None? then None else Some(List(es.value));
    } else if t == TYPE_HASH_LISTPACK || t == TYPE_SET_LISTPACK {
      var lp := ReadStr(rest);
      if lp.Fail? {
        return None;
      }
      es := Decode(lp.value);
    } else if t == TYPE_HASH || t == TYPE_SET || t == TYPE_LIST {
      es := LoadCounted(ReadStr, if t == TYPE_HASH then 2 else 1, rest);
    } else {
      return None;
    }
    if es.None? {
      v := None;
    } else if t == TYPE_HASH || t == TYPE_HASH_LISTPACK {
      v := if t == TYPE_HASH_LISTPACK && |es.value| % 2 != 0 then None else Some(Hash(es.value));
    } else if t == TYPE_LIST {
      v := Some(List(es.value));
    } else {
      v := Some(Set(es.value));
    }
  }
}
