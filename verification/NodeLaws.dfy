/** Stream nodes as any server may write them: several items, deleted ones among them, with the master's fields or their
    own, at identifiers relative to the node's (f1srv/dump.go, parseStreamNode). */
module NodeLaws {
  import opened Bytes
  import opened Decimal
  import opened Rdb
  import opened Listpack
  import opened StreamNode

  /** An item: whether it is deleted, its distance from the node's identifier, and its values under the master's names or
      names and values of its own in turn. */
  datatype Wire = Wire(gone: bool, ms: Int64, sq: Int64, same: bool, fields: seq<Bytes>)

  predicate Fits(w: Wire, names: seq<Bytes>)
  {
    |w.fields| < INT64_MAX && if w.same then |w.fields| == |names| else |w.fields| % 2 == 0
  }

  /** Bit 0 says deleted, bit 1 same fields. */
  function Flags(w: Wire): (f: int)
  {
    (if w.gone then 1 else 0) + (if w.same then 2 else 0)
  }

  /** The elements of an item: flags, distances, fields, and how many elements that was. */
  function Elements(w: Wire): (els: seq<Bytes>)
  {
    [FormatInt(Flags(w)), FormatInt(w.ms), FormatInt(w.sq)]
    + (if w.same then w.fields else [FormatInt(|w.fields| / 2)] + w.fields)
    + [FormatInt(|w.fields| + if w.same then 3 else 4)]
  }

  function AllElements(ws: seq<Wire>): (els: seq<Bytes>)
  {
    if ws == [] then [] else Elements(ws[0]) + AllElements(ws[1..])
  }

  /** What an item stands for. */
  function Entry(master: Id, names: seq<Bytes>, w: Wire): (e: StreamEntry)
    requires Fits(w, names)
  {
    StreamEntry(Id((master.ms + w.ms) % WORD, (master.seqNo + w.sq) % WORD), if w.same then Weave(names, w.fields) else w.fields)
  }

  function Live(master: Id, names: seq<Bytes>, ws: seq<Wire>): (es: seq<StreamEntry>)
    requires forall w :: w in ws ==> Fits(w, names)
  {
    if ws == [] then []
    else (if ws[0].gone then [] else [Entry(master, names, ws[0])]) + Live(master, names, ws[1..])
  }

  function Deleted(ws: seq<Wire>): (n: nat)
    ensures n <= |ws|
  {
    if ws == [] then 0 else (if ws[0].gone then 1 else 0) + Deleted(ws[1..])
  }

  lemma FlagsAre(w: Wire)
    ensures Flag(Flags(w), 0) == w.gone && Flag(Flags(w), 1) == w.same
  {
  }

  lemma Within<T>(s: seq<T>, p: nat, n: nat, a: nat, b: nat)
    requires p + n <= |s| && a <= b <= n
    ensures s[p + a..p + b] == s[p..p + n][a..b]
  {
    var x, y := s[p + a..p + b], s[p..p + n][a..b];
    assert |x| == |y| == b - a;
    forall i | 0 <= i < b - a ensures x[i] == y[i] {
      assert x[i] == s[p + (a + i)] && y[i] == s[p..p + n][a + i];
    }
  }

  lemma Starts<T>(s: seq<T>, p: nat, item: seq<T>)
    requires |item| >= 4 && p + |item| <= |s| && s[p..p + |item|] == item
    ensures s[p] == item[0] && s[p + 1] == item[1] && s[p + 2] == item[2] && s[p + 3] == item[3]
  {
  }

  lemma ItemStarts(w: Wire)
    ensures var item := Elements(w);
            && |item| == |w.fields| + (if w.same then 4 else 5)
            && item[0] == FormatInt(Flags(w)) && item[1] == FormatInt(w.ms) && item[2] == FormatInt(w.sq)
            && (w.same ==> item[3..3 + |w.fields|] == w.fields)
            && (!w.same ==> item[3] == FormatInt(|w.fields| / 2) && item[4..4 + |w.fields|] == w.fields)
  {
    hide FormatInt, Flags;
  }

  /** Reading the first item off the front: its flags and distances ... */
  lemma NumbersRead(els: seq<Bytes>, p: nat, w: Wire)
    requires p + |Elements(w)| <= |els| && els[p..p + |Elements(w)|] == Elements(w)
    ensures IntAt(els, p) == Some(Flags(w)) && IntAt(els, p + 1) == Some(w.ms) && IntAt(els, p + 2) == Some(w.sq)
  {
    hide FormatInt, ParseInt64, Elements;
    ItemStarts(w);
    Starts(els, p, Elements(w));
    ParseOfFormat(Flags(w));
    ParseOfFormat(w.ms);
    ParseOfFormat(w.sq);
  }

  /** ... and its fields. */
  lemma FieldsRead(els: seq<Bytes>, p: nat, w: Wire, names: seq<Bytes>)
    requires Fits(w, names) && p + |Elements(w)| <= |els| && els[p..p + |Elements(w)|] == Elements(w)
    ensures ItemFields(els, p + 3, w.same, names)
         == Some((if w.same then Weave(names, w.fields) else w.fields, p + |Elements(w)| - 1))
  {
    hide FormatInt, ParseInt64, Elements, Weave, ItemFields, IntAt;
    ItemStarts(w);
    if w.same {
      SameFields(els, p + 3, names);
      Within(els, p, |Elements(w)|, 3, 3 + |w.fields|);
    } else {
      var half := |w.fields| / 2;
      Starts(els, p, Elements(w));
      NumberAt(els, p + 3, half);
      OwnFields(els, p + 3, half, names);
      Within(els, p, |Elements(w)|, 4, 4 + 2 * half);
    }
  }

  lemma NumberAt(els: seq<Bytes>, p: nat, n: Int64)
    requires p < |els| && els[p] == FormatInt(n)
    ensures IntAt(els, p) == Some(n)
  {
    ParseOfFormat(n);
  }

  lemma SameFields(els: seq<Bytes>, p: nat, names: seq<Bytes>)
    requires p + |names| <= |els|
    ensures ItemFields(els, p, true, names) == Some((Weave(names, els[p..p + |names|]), p + |names|))
  {
  }

  lemma OwnFields(els: seq<Bytes>, p: nat, n: nat, names: seq<Bytes>)
    requires IntAt(els, p) == Some(n) && p + 1 + 2 * n <= |els|
    ensures ItemFields(els, p, false, names) == Some((els[p + 1..p + 1 + 2 * n], p + 1 + 2 * n))
  {
    hide IntAt;
  }

  lemma {:induction false} ItemsRead(els: seq<Bytes>, p: nat, ws: seq<Wire>, master: Id, names: seq<Bytes>)
    requires forall w :: w in ws ==> Fits(w, names)
    requires p <= |els| && AllElements(ws) <= els[p..]
    ensures Items(els, p, |ws|, master, names) == Some(Live(master, names, ws))
    decreases |ws|
  {
    hide Elements, Fits, IntAt, ItemFields, Flags, Flag, Weave;
    if ws != [] {
      var w := ws[0];
      var q := p + |Elements(w)|;
      assert Elements(w) == AllElements(ws)[..|Elements(w)|];
      assert els[p..q] == els[p..][..|Elements(w)|] == Elements(w);
      assert els[q..] == els[p..][|Elements(w)|..];
      NumbersRead(els, p, w);
      FieldsRead(els, p, w, names);
      FlagsAre(w);
      NonEmpty(w);
      ItemsRead(els, q, ws[1..], master, names);
      assert [] + Live(master, names, ws[1..]) == Live(master, names, ws[1..]);
    }
  }

  lemma NonEmpty(w: Wire)
    ensures |Elements(w)| >= 4
  {
  }

  /** The elements of a node: live and deleted items, the master's names, a zero, the items. */
  function NodeElements(names: seq<Bytes>, ws: seq<Wire>): (els: seq<Bytes>)
  {
    [FormatInt(|ws| - Deleted(ws)), FormatInt(Deleted(ws)), FormatInt(|names|)] + names + [FormatInt(0)] + AllElements(ws)
  }

  /** Every node reads as its live items, in order. */
  lemma NodeReads(master: Id, names: seq<Bytes>, ws: seq<Wire>, count: nat)
    requires |ws| <= INT64_MAX && |names| <= INT64_MAX && forall w :: w in ws ==> Fits(w, names)
    requires forall e :: e in NodeElements(names, ws) ==> |e| < ELEMENT_MAX
    ensures Parsed(master, Pack(All(Listpack.Entry, NodeElements(names, ws)), count)) == Some(Live(master, names, ws))
  {
    hide Decoded, Pack, All, Items, Deleted, Live, Fits, IntAt, NodeElements;
    PackRoundTrip(NodeElements(names, ws), count);
    NodeStarts(names, ws);
    ItemsRead(NodeElements(names, ws), 4 + |names|, ws, master, names);
  }

  lemma NodeStarts(names: seq<Bytes>, ws: seq<Wire>)
    requires |ws| <= INT64_MAX && |names| <= INT64_MAX
    ensures var els, m := NodeElements(names, ws), |names|;
            && |els| >= 4 + m && els[3..3 + m] == names && els[4 + m..] == AllElements(ws)
            && IntAt(els, 0) == Some(|ws| - Deleted(ws)) && IntAt(els, 1) == Some(Deleted(ws)) && IntAt(els, 2) == Some(m)
  {
    hide FormatInt, ParseInt64, Deleted, AllElements;
    var els, m := NodeElements(names, ws), |names|;
    ParseOfFormat(|ws| - Deleted(ws));
    ParseOfFormat(Deleted(ws));
    ParseOfFormat(m);
    assert els[0] == FormatInt(|ws| - Deleted(ws)) && els[1] == FormatInt(Deleted(ws)) && els[2] == FormatInt(m);
  }

  /** The one item this server writes to a node: the node's own identifier, and the fields split into names and
      values. */
  lemma NodeWrites(fields: seq<Bytes>)
    ensures var names, values := Names(fields), Values(fields);
            && (forall i :: 0 <= i < |fields| / 2 ==> names[i] == fields[2 * i] && values[i] == fields[2 * i + 1])
            && Master(fields) + Item(fields) == NodeElements(names, [Wire(false, 0, 0, true, values)])
  {
    hide FormatInt;
    var w := Wire(false, 0, 0, true, Values(fields));
    assert [w][1..] == [] && AllElements([w]) == Elements(w) + [] == Elements(w);
    assert Deleted([w]) == 0;
  }
}
