/** The listpack node of a stream entry (f1srv/dump.go). */
module StreamNode {
  import opened Bytes
  import opened Decimal
  import opened Rdb
  import opened Listpack

  datatype Id = Id(ms: U64, seqNo: U64)
  datatype StreamEntry = StreamEntry(id: Id, fields: seq<Bytes>)

  const ITEM_SAME_FIELDS: int := 2

  /** Every other field, from the first (names) or the second (values). */
  function Names(fields: seq<Bytes>): (s: seq<Bytes>)
    ensures |s| == |fields| / 2
  {
    seq(|fields| / 2, i requires 0 <= i < |fields| / 2 => fields[2 * i])
  }

  function Values(fields: seq<Bytes>): (s: seq<Bytes>)
    ensures |s| == |fields| / 2
  {
    seq(|fields| / 2, i requires 0 <= i < |fields| / 2 => fields[2 * i + 1])
  }

  /** Names and values in turn. */
  function Weave(names: seq<Bytes>, values: seq<Bytes>): (fields: seq<Bytes>)
    requires |names| == |values|
    ensures |fields| == 2 * |names|
    ensures forall i :: 0 <= i < |fields| ==> fields[i] == if i % 2 == 0 then names[i / 2] else values[i / 2]
  {
    seq(2 * |names|, i requires 0 <= i < 2 * |names| => if i % 2 == 0 then names[i / 2] else values[i / 2])
  }

  /** The master entry, then the one item that shares its fields. */
  function Master(fields: seq<Bytes>): (els: seq<Bytes>)
  {
    [FormatInt(1), FormatInt(0), FormatInt(|fields| / 2)] + Names(fields) + [FormatInt(0)]
  }

  function Item(fields: seq<Bytes>): (els: seq<Bytes>)
  {
    [FormatInt(ITEM_SAME_FIELDS), FormatInt(0), FormatInt(0)] + Values(fields) + [FormatInt(|fields| / 2 + 3)]
  }

  function Node(fields: seq<Bytes>): (lp: Bytes)
  {
    Pack(All(Entry, Master(fields) + Item(fields)), 2 * (|fields| / 2) + 8)
  }

  /** lpAppendIntVal. */
  function IntEntry(v: int): (b: Bytes)
    requires INT64_MIN <= v <= INT64_MAX
  {
    IntForm(v) + Backlen(|IntForm(v)|)
  }

  /** An integer written as such is its decimal text written as an element. */
  lemma IntEntryIs(v: int)
    requires INT64_MIN <= v <= INT64_MAX
    ensures IntEntry(v) == Entry(FormatInt(v))
  {
    TryIntegerExact(FormatInt(v), v);
  }

  lemma {:induction false} AllConcat<T>(enc: T -> Bytes, a: seq<T>, b: seq<T>)
    ensures All(enc, a + b) == All(enc, a) + All(enc, b)
  {
    if a == [] {
      assert a + b == b;
    } else {
      AllConcat(enc, a[1..], b);
      assert (a + b)[1..] == a[1..] + b;
    }
  }

  /** buildStreamEntryListpack. */
  method BuildNode(fields: seq<Bytes>) returns (lp: Bytes)
    requires |fields| < INT64_MAX
    ensures lp == Node(fields)
  {
    hide Entry, IntEntry, FormatInt, Pack, All;
    var m := |fields| / 2;
    ghost var els: seq<Bytes> := [];
    AllFirst(Entry, els);
    lp := [];
    lp, els := AppendInt(lp, els, 1);
    lp, els := AppendInt(lp, els, 0);
    lp, els := AppendInt(lp, els, m);
    lp, els := AppendEntries(lp, els, Names(fields));
    lp, els := AppendInt(lp, els, 0);
    assert els == Master(fields);
    lp, els := AppendInt(lp, els, ITEM_SAME_FIELDS);
    lp, els := AppendInt(lp, els, 0);
    lp, els := AppendInt(lp, els, 0);
    lp, els := AppendEntries(lp, els, Values(fields));
    lp, els := AppendInt(lp, els, m + 3);
    assert els == Master(fields) + Item(fields);
    lp := Pack(lp, 2 * m + 8);
  }

  method AppendInt(lp: Bytes, ghost els: seq<Bytes>, v: int) returns (lp': Bytes, ghost els': seq<Bytes>)
    requires lp == All(Entry, els) && INT64_MIN <= v <= INT64_MAX
    ensures els' == els + [FormatInt(v)] && lp' == All(Entry, els')
  {
    hide Entry, IntEntry, FormatInt;
    IntEntryIs(v);
    AllSnoc(Entry, els, FormatInt(v));
    lp', els' := lp + IntEntry(v), els + [FormatInt(v)];
  }

  method AppendEntries(lp: Bytes, ghost els: seq<Bytes>, es: seq<Bytes>) returns (lp': Bytes, ghost els': seq<Bytes>)
    requires lp == All(Entry, els)
    ensures els' == els + es && lp' == All(Entry, els')
  {
    hide Entry;
    lp' := AppendAll(Entry, lp, es);
    els' := els + es;
    AllConcat(Entry, els, es);
  }

  /** The integer at position p. */
  function IntAt(els: seq<Bytes>, p: nat): (v: Option<int>)
    ensures v.Some? ==> p < |els| && INT64_MIN <= v.value <= INT64_MAX
  {
    if p < |els| then ParseInt64(els[p]) else None
  }

  /** Bit k of a flag word in two's complement. */
  predicate Flag(flags: int, k: nat)
    requires k <= 1
  {
    if k == 0 then flags % 2 == 1 else flags / 2 % 2 == 1
  }

  /** An item's fields and the position after them. */
  function ItemFields(els: seq<Bytes>, p: nat, same: bool, names: seq<Bytes>): (r: Option<(seq<Bytes>, nat)>)
    ensures r.Some? ==> r.value.1 >= p
  {
    if same then
      var q := p + |names|;
      if q > |els| then None else Some((Weave(names, els[p..q]), q))
    else
      match IntAt(els, p)
      case None => None
      case Some(nf) =>
        if nf < 0 || p + 1 + 2 * nf > |els| then None
        else Some((els[p + 1..p + 1 + 2 * nf], p + 1 + 2 * nf))
  }

  /** The live entries among the next n items. */
  function Items(els: seq<Bytes>, p: nat, n: nat, master: Id, names: seq<Bytes>): (r: Option<seq<StreamEntry>>)
    decreases n
  {
    if n == 0 then Some([])
    else if IntAt(els, p).None? || IntAt(els, p + 1).None? || IntAt(els, p + 2).None? then None
    else
      var flags, ms, sq := IntAt(els, p).value, IntAt(els, p + 1).value, IntAt(els, p + 2).value;
      match ItemFields(els, p + 3, Flag(flags, 1), names)
      case None => None
      case Some((fields, q)) =>
        if q >= |els| then None
        else
          match Items(els, q + 1, n - 1, master, names)
          case None => None
          case Some(more) =>
            if Flag(flags, 0) then Some(more)
            else Some([StreamEntry(Id((master.ms + ms) % WORD, (master.seqNo + sq) % WORD), fields)] + more)
  }

  /** parseStreamNode. */
  function Parsed(master: Id, lp: Bytes): (r: Option<seq<StreamEntry>>)
  {
    match Decoded(lp)
    case None => None
    case Some(els) =>
      if |els| < 4 || IntAt(els, 0).None? || IntAt(els, 1).None? || IntAt(els, 2).None? then None
      else
        var count, deleted, nFields := IntAt(els, 0).value, IntAt(els, 1).value, IntAt(els, 2).value;
        if count < 0 || deleted < 0 || nFields < 0 || 4 + nFields > |els| then None
        else
          // A total past the int64 range wraps to a negative bound: no items.
          Items(els, 4 + nFields, if count + deleted > INT64_MAX then 0 else count + deleted, master, els[3..3 + nFields])
  }

  lemma Woven(fields: seq<Bytes>)
    ensures Weave(Names(fields), Values(fields)) == fields[..2 * (|fields| / 2)]
  {
  }

  lemma NodeIndexes(fields: seq<Bytes>)
    ensures var els, m := Master(fields) + Item(fields), |fields| / 2;
            && |els| == 2 * m + 8
            && els[0] == FormatInt(1) && els[1] == FormatInt(0) && els[2] == FormatInt(m)
            && els[3..3 + m] == Names(fields)
            && els[4 + m] == FormatInt(ITEM_SAME_FIELDS) && els[5 + m] == FormatInt(0) && els[6 + m] == FormatInt(0)
            && els[7 + m..7 + 2 * m] == Values(fields)
  {
    hide FormatInt, Names, Values;
    var m := |fields| / 2;
    var els := Master(fields) + Item(fields);
    assert Master(fields)[3..3 + m] == Names(fields);
    assert Item(fields)[3..3 + m] == Values(fields);
    assert els[3..3 + m] == Master(fields)[3..3 + m];
    assert els[7 + m..7 + 2 * m] == Item(fields)[3..3 + m];
  }

  /** Small enough for a listpack. */
  predicate FieldsFit(fields: seq<Bytes>)
  {
    |fields| < INT64_MAX && forall f :: f in fields ==> |f| < ELEMENT_MAX
  }

  lemma {:induction false} ShortText(n: nat)
    requires n <= INT64_MAX
    ensures |FormatInt(n)| < ELEMENT_MAX
  {
    Pow10Of19();
    DigitsWidth(n, 19);
  }

  lemma ElementsFit(fields: seq<Bytes>)
    requires FieldsFit(fields)
    ensures forall e :: e in Master(fields) + Item(fields) ==> |e| < ELEMENT_MAX
  {
    hide FormatInt;
    ShortText(0);
    ShortText(1);
    ShortText(2);
    ShortText(|fields| / 2);
    ShortText(|fields| / 2 + 3);
    assert forall i :: 0 <= i < |fields| / 2 ==> fields[2 * i] in fields && fields[2 * i + 1] in fields;
  }

  /** Parsing a built node gives the entry back, less an odd field at the end. */
  lemma NodeRoundTrip(id: Id, fields: seq<Bytes>)
    requires FieldsFit(fields)
    ensures Parsed(id, Node(fields)) == Some([StreamEntry(id, fields[..2 * (|fields| / 2)])])
  {
    hide FormatInt, Decoded, Weave, Names, Values, Master, Item, Pack, All, Items, ItemFields, IntAt, FieldsFit;
    var els, m := Master(fields) + Item(fields), |fields| / 2;
    ElementsFit(fields);
    PackRoundTrip(els, 2 * m + 8);
    NodeIndexes(fields);
    NodeInts(fields);
    Woven(fields);
    SharedFields(els, 7 + m, els[3..3 + m], Values(fields));
    LastItem(els, 4 + m, id, els[3..3 + m], Weave(els[3..3 + m], Values(fields)), 7 + 2 * m);
  }

  lemma NodeInts(fields: seq<Bytes>)
    requires FieldsFit(fields)
    ensures var els, m := Master(fields) + Item(fields), |fields| / 2;
            && IntAt(els, 0) == Some(1) && IntAt(els, 1) == Some(0) && IntAt(els, 2) == Some(m)
            && IntAt(els, 4 + m) == Some(ITEM_SAME_FIELDS) && IntAt(els, 5 + m) == Some(0) && IntAt(els, 6 + m) == Some(0)
  {
    hide FormatInt, ParseInt64, Names, Values, Master, Item;
    NodeIndexes(fields);
    ParseOfFormat(0);
    ParseOfFormat(1);
    ParseOfFormat(|fields| / 2);
    ParseOfFormat(ITEM_SAME_FIELDS);
  }

  lemma SharedFields(els: seq<Bytes>, p: nat, names: seq<Bytes>, values: seq<Bytes>)
    requires |values| == |names| && p + |names| <= |els| && els[p..p + |names|] == values
    ensures ItemFields(els, p, true, names) == Some((Weave(names, values), p + |names|))
  {
  }

  lemma LastItem(els: seq<Bytes>, p: nat, id: Id, names: seq<Bytes>, fields: seq<Bytes>, q: nat)
    requires q < |els|
    requires IntAt(els, p) == Some(ITEM_SAME_FIELDS) && IntAt(els, p + 1) == Some(0) && IntAt(els, p + 2) == Some(0)
    requires ItemFields(els, p + 3, true, names) == Some((fields, q))
    ensures Items(els, p, 1, id, names) == Some([StreamEntry(id, fields)])
  {
    hide IntAt, ItemFields;
    assert Items(els, q + 1, 0, id, names) == Some([]);
    assert [StreamEntry(id, fields)] + [] == [StreamEntry(id, fields)];
  }

  /** The round trip is exact just when the fields pair up. */
  lemma NodeExact(id: Id, fields: seq<Bytes>)
    requires FieldsFit(fields)
    ensures Parsed(id, Node(fields)) == Some([StreamEntry(id, fields)]) <==> |fields| % 2 == 0
  {
    hide Parsed, Node;
    NodeRoundTrip(id, fields);
    var kept := fields[..2 * (|fields| / 2)];
    assert |fields| % 2 == 0 ==> kept == fields;
    assert [StreamEntry(id, kept)][0] == StreamEntry(id, kept);
    assert [StreamEntry(id, fields)][0] == StreamEntry(id, fields);
  }

  /** A single field has no value to go with it and is lost.  XADD refuses such a list, so this is a fact about the
      two functions and not about any stream the server holds. */
  lemma OddFieldLost(id: Id, field: Bytes)
    requires |field| < ELEMENT_MAX
    ensures Parsed(id, Node([field])) == Some([StreamEntry(id, [])])
  {
    hide Parsed, Node;
    NodeRoundTrip(id, [field]);
    assert [field][..2 * (|[field]| / 2)] == [];
  }

  /** Names and values in turn, one pair at a time. */
  method WeaveFields(names: seq<Bytes>, values: seq<Bytes>) returns (fields: seq<Bytes>)
    requires |names| == |values|
    ensures fields == Weave(names, values)
  {
    fields := [];
    var j := 0;
    while j < |names|
      invariant 0 <= j <= |names| && |fields| == 2 * j
      invariant forall i :: 0 <= i < 2 * j ==> fields[i] == if i % 2 == 0 then names[i / 2] else values[i / 2]
    {
      fields := fields + [names[j], values[j]];
      j := j + 1;
    }
  }

  method ParseFields(els: seq<Bytes>, p: nat, same: bool, names: seq<Bytes>) returns (r: Option<(seq<Bytes>, nat)>)
    ensures r == ItemFields(els, p, same, names)
  {
    hide Weave, ParseInt64;
    if same {
      var q := p + |names|;
      if q > |els| {
        return None;
      }
      var fields := WeaveFields(names, els[p..q]);
      return Some((fields, q));
    }
    var nf := IntAt(els, p);
    if nf.None? || nf.value < 0 || p + 1 + 2 * nf.value > |els| {
      return None;
    }
    r := Some((els[p + 1..p + 1 + 2 * nf.value], p + 1 + 2 * nf.value));
  }

  function Added(out: seq<StreamEntry>, more: Option<seq<StreamEntry>>): (r: Option<seq<StreamEntry>>)
  {
    match more
    case None => None
    case Some(es) => Some(out + es)
  }

  lemma ItemsStep(els: seq<Bytes>, p: nat, n: nat, master: Id, names: seq<Bytes>, out: seq<StreamEntry>)
    requires n > 0
    requires IntAt(els, p).Some? && IntAt(els, p + 1).Some? && IntAt(els, p + 2).Some?
    ensures var flags, ms, sq := IntAt(els, p).value, IntAt(els, p + 1).value, IntAt(els, p + 2).value;
            match ItemFields(els, p + 3, Flag(flags, 1), names)
            case None => Items(els, p, n, master, names) == None
            case Some((fields, q)) =>
              var e := StreamEntry(Id((master.ms + ms) % WORD, (master.seqNo + sq) % WORD), fields);
              if q >= |els| then Items(els, p, n, master, names) == None
              else Added(out, Items(els, p, n, master, names))
                   == Added(if Flag(flags, 0) then out else out + [e], Items(els, q + 1, n - 1, master, names))
  {
    hide IntAt, ItemFields;
    var flags, ms, sq := IntAt(els, p).value, IntAt(els, p + 1).value, IntAt(els, p + 2).value;
    var f := ItemFields(els, p + 3, Flag(flags, 1), names);
    if f.Some? && f.value.1 < |els| {
      var e := StreamEntry(Id((master.ms + ms) % WORD, (master.seqNo + sq) % WORD), f.value.0);
      var more := Items(els, f.value.1 + 1, n - 1, master, names);
      if more.Some? { assert out + ([e] + more.value) == (out + [e]) + more.value; }
    }
  }

  lemma ItemsFail(els: seq<Bytes>, p: nat, n: nat, master: Id, names: seq<Bytes>)
    requires n > 0 && (IntAt(els, p).None? || IntAt(els, p + 1).None? || IntAt(els, p + 2).None?)
    ensures Items(els, p, n, master, names) == None
  {
  }

  lemma NoItems(els: seq<Bytes>, p: nat, master: Id, names: seq<Bytes>, out: seq<StreamEntry>)
    ensures Added(out, Items(els, p, 0, master, names)) == Some(out)
  {
    assert out + [] == out;
  }

  /** The items of a node, deleted ones skipped. */
  method ParseItems(els: seq<Bytes>, p0: nat, total: nat, master: Id, names: seq<Bytes>)
    returns (r: Option<seq<StreamEntry>>)
    ensures r == Items(els, p0, total, master, names)
  {
    hide Items, ItemFields, ParseInt64;
    var p: nat, i: nat := p0, 0;
    var out: seq<StreamEntry> := [];
    ghost var all := Items(els, p0, total, master, names);
    assert Added([], all) == all by { if all.Some? { assert [] + all.value == all.value; } }
    while i < total
      invariant 0 <= i <= total && Added(out, Items(els, p, total - i, master, names)) == all
    {
      var flags, ms, sq := IntAt(els, p), IntAt(els, p + 1), IntAt(els, p + 2);
      if flags.None? || ms.None? || sq.None? {
        ItemsFail(els, p, total - i, master, names);
        return None;
      }
      ItemsStep(els, p, total - i, master, names, out);
      var f := ParseFields(els, p + 3, Flag(flags.value, 1), names);
      if f.None? || f.value.1 >= |els| {
        return None;
      }
      if !Flag(flags.value, 0) {
        out := out + [StreamEntry(Id((master.ms + ms.value) % WORD, (master.seqNo + sq.value) % WORD), f.value.0)];
      }
      p, i := f.value.1 + 1, i + 1;
    }
    NoItems(els, p, master, names, out);
    r := Some(out);
  }

  method ParseNode(master: Id, lp: Bytes) returns (r: Option<seq<StreamEntry>>)
    ensures r == Parsed(master, lp)
  {
    hide Items, Decoded, ParseInt64;
    var decoded := Decode(lp);
    if decoded.None? || |decoded.value| < 4 {
      return None;
    }
    var els := decoded.value;
    var count, deleted, nFields := IntAt(els, 0), IntAt(els, 1), IntAt(els, 2);
    if count.None? || count.value < 0 || deleted.None? || deleted.value < 0 || nFields.None? || nFields.value < 0
       || 4 + nFields.value > |els| {
      return None;
    }
    var total := count.value + deleted.value;
    r := ParseItems(els, 4 + nFields.value, if total > INT64_MAX then 0 else total, master, els[3..3 + nFields.value]);
  }
}
