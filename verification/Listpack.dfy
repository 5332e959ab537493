/** The listpack printer and parser (f1srv/dump.go). */
module Listpack {
  import opened Bytes
  import opened Decimal
  import opened ListSize
  import opened Rdb

  const TERMINATOR: Byte := 0xFF
  const ELEMENT_MAX: int := 0x1_0000_0000

  /** lpAppendInt: the smallest of the six integer forms. */
  function IntForm(v: int): (b: Bytes)
    requires INT64_MIN <= v <= INT64_MAX
  {
    if 0 <= v <= 127 then [v]
    else if -4096 <= v <= 4095 then
      var u := ToUnsigned(v, 0x2000);
      [0xC0 + u / 256, u % 256]
    else if -32768 <= v <= 32767 then [0xF1] + Le(ToUnsigned(v, 0x1_0000), 2)
    else if -8388608 <= v <= 8388607 then [0xF2] + Le(ToUnsigned(v, 0x100_0000), 3)
    else if -2147483648 <= v <= 2147483647 then [0xF3] + Le(ToUnsigned(v, 0x1_0000_0000), 4)
    else [0xF4] + Le(ToUnsigned(v, WORD), 8)
  }

  /** lpAppendStr: a length in six, twelve or thirty-two bits, and the bytes. */
  function StrForm(e: Bytes): (b: Bytes)
  {
    if |e| < 64 then [0x80 + |e|] + e
    else if |e| < 4096 then [0xE0 + |e| / 256, |e| % 256] + e
    else [0xF0] + Le(|e|, 4) + e
  }

  /** An element's encoding: the integer form for the text of an int64. */
  function Form(e: Bytes): (b: Bytes)
  {
    match TryInteger(e)
    case Some(v) => IntForm(v)
    case None => StrForm(e)
  }

  /** lpAppendBacklen: groups of seven bits, the high bit set on all but the first. */
  function Backlen(l: nat): (b: Bytes)
    ensures |b| == BacklenSize(l)
  {
    if l <= 127 then [l]
    else if l < 16384 then [l / 128, l % 128 + 128]
    else if l < 2097152 then [l / 16384, l / 128 % 128 + 128, l % 128 + 128]
    else if l < 268435456 then [l / 2097152, l / 16384 % 128 + 128, l / 128 % 128 + 128, l % 128 + 128]
    else [l / 268435456 % 256, l / 2097152 % 128 + 128, l / 16384 % 128 + 128, l / 128 % 128 + 128, l % 128 + 128]
  }

  /** lpAppendEntry. */
  function Entry(e: Bytes): (b: Bytes)
  {
    Form(e) + Backlen(|Form(e)|)
  }

  /** The value at the front of some bytes and how many bytes its encoding takes, before its back-length. */
  datatype Element = Bad | Element(text: Bytes, size: nat)

  /** lpGet. */
  function Get(b: Bytes): (r: Element)
    ensures r.Element? ==> 1 <= r.size <= |b|
  {
    if |b| < 1 then Bad
    else if b[0] < 0x80 then Element(FormatInt(b[0]), 1)
    else if b[0] < 0xC0 then Take(b, 1, b[0] - 0x80)
    else if b[0] < 0xE0 then
      (if |b| < 2 then Bad else Element(FormatInt(ToSigned(Wide(b[0] - 0xC0, b[1]), 0x2000)), 2))
    else if b[0] < 0xF0 then
      (if |b| < 2 then Bad else Take(b, 2, Wide(b[0] - 0xE0, b[1])))
    else if b[0] == 0xF0 then
      (if |b| < 5 then Bad else Take(b, 5, FromLe(b[1..5])))
    else if b[0] == 0xF1 then
      (if |b| < 3 then Bad else Element(FormatInt(ToSigned(FromLe(b[1..3]), 0x1_0000)), 3))
    else if b[0] == 0xF2 then
      (if |b| < 4 then Bad else Element(FormatInt(ToSigned(FromLe(b[1..4]), 0x100_0000)), 4))
    else if b[0] == 0xF3 then
      (if |b| < 5 then Bad else Element(FormatInt(ToSigned(FromLe(b[1..5]), 0x1_0000_0000)), 5))
    else if b[0] == 0xF4 then
      (if |b| < 9 then Bad else Element(FormatInt(ToSigned(FromLe(b[1..9]), WORD)), 9))
    else Bad
  }

  function Wide(high: int, low: Byte): (n: nat)
    requires 0 <= high
  {
    high * 256 + low
  }

  /** The n bytes after the first k. */
  function Take(b: Bytes, k: nat, n: nat): (r: Element)
    requires 1 <= k <= |b|
    ensures r.Element? ==> 1 <= r.size <= |b|
  {
    if |b| < k + n then Bad else Element(b[k..k + n], k + n)
  }

  /** The bytes the accounting of a list charges for an element are those its entry takes. */
  lemma EntryTakes(e: Bytes)
    requires |e| < ELEMENT_MAX
    ensures |Form(e)| == EncodingSize(e) && |Entry(e)| == EntrySize(e)
  {
    hide Le, Digits;
  }

  lemma TaggedForm(tag: Byte, body: Bytes, rest: Bytes)
    ensures var b := [tag] + body + rest;
            |b| >= 1 + |body| && b[0] == tag && b[1..1 + |body|] == body
  {
  }

  lemma IntComesBack(v: int, rest: Bytes)
    requires INT64_MIN <= v <= INT64_MAX
    ensures IntForm(v)[0] != TERMINATOR && Get(IntForm(v) + rest) == Element(FormatInt(v), |IntForm(v)|)
  {
    hide Le, FromLe, FormatInt, Take;
    Pow256Values();
    if 0 <= v <= 127 {
    } else if -4096 <= v <= 4095 {
      var u := ToUnsigned(v, 0x2000);
      assert Wide(u / 256, u % 256) == u;
    } else if -32768 <= v <= 32767 {
      LeRoundTrip(ToUnsigned(v, 0x1_0000), 2);
      TaggedForm(0xF1, Le(ToUnsigned(v, 0x1_0000), 2), rest);
    } else if -8388608 <= v <= 8388607 {
      LeRoundTrip(ToUnsigned(v, 0x100_0000), 3);
      TaggedForm(0xF2, Le(ToUnsigned(v, 0x100_0000), 3), rest);
    } else if -2147483648 <= v <= 2147483647 {
      LeRoundTrip(ToUnsigned(v, 0x1_0000_0000), 4);
      TaggedForm(0xF3, Le(ToUnsigned(v, 0x1_0000_0000), 4), rest);
    } else {
      LeRoundTrip(ToUnsigned(v, WORD), 8);
      TaggedForm(0xF4, Le(ToUnsigned(v, WORD), 8), rest);
    }
  }

  lemma TakeOf(head: Bytes, e: Bytes, rest: Bytes)
    requires |head| >= 1
    ensures Take(head + e + rest, |head|, |e|) == Element(e, |head| + |e|)
  {
    assert (head + e + rest)[|head|..|head| + |e|] == e;
  }

  lemma StrComesBack(e: Bytes, rest: Bytes)
    requires |e| < ELEMENT_MAX
    ensures StrForm(e)[0] != TERMINATOR && Get(StrForm(e) + rest) == Element(e, |StrForm(e)|)
  {
    hide Le, FromLe, Take;
    Pow256Values();
    if |e| < 64 {
      TakeOf([0x80 + |e|], e, rest);
    } else if |e| < 4096 {
      assert Wide(|e| / 256, |e| % 256) == |e|;
      TakeOf([0xE0 + |e| / 256, |e| % 256], e, rest);
    } else {
      LeRoundTrip(|e|, 4);
      var head := [0xF0] + Le(|e|, 4);
      TakeOf(head, e, rest);
      assert (head + e + rest)[1..5] == Le(|e|, 4);
    }
  }

  /** Reading undoes writing on every element, and no entry starts like the end of the listpack. */
  lemma FormComesBack(e: Bytes, rest: Bytes)
    requires |e| < ELEMENT_MAX
    ensures Form(e) != [] && Form(e)[0] != TERMINATOR && Get(Form(e) + rest) == Element(e, |Form(e)|)
  {
    hide IntForm, StrForm, Get;
    if TryInteger(e).Some? {
      IntComesBack(TryInteger(e).value, rest);
    } else {
      StrComesBack(e, rest);
    }
  }

  /** The elements from the front of some entries up to the terminator. */
  function Elements(b: Bytes): (r: Option<seq<Bytes>>)
    decreases |b|
  {
    if b == [] then None
    else if b[0] == TERMINATOR then Some([])
    else
      match Get(b)
      case Bad => None
      case Element(text, size) =>
        var n := size + BacklenSize(size);
        if n > |b| then None
        else
          match Elements(b[n..])
          case None => None
          case Some(more) => Some([text] + more)
  }

  /** lpDecode: past a header of six bytes. */
  function Decoded(b: Bytes): (r: Option<seq<Bytes>>)
  {
    if |b| < 7 then None else Elements(b[6..])
  }

  method Decode(b: Bytes) returns (r: Option<seq<Bytes>>)
    ensures r == Decoded(b)
  {
    hide Elements, Get;
    if |b| < 7 {
      return None;
    }
    var p, out := 6, [];
    assert Prepend(out, Elements(b[6..])) == Elements(b[6..]) by { PrependNothing(Elements(b[6..])); }
    while p < |b|
      invariant 6 <= p
      invariant (if p <= |b| then Prepend(out, Elements(b[p..])) else None) == Elements(b[6..])
      decreases |b| - p
    {
      ElementsStep(b[p..], out);
      if b[p] == TERMINATOR {
        return Some(out);
      }
      match Get(b[p..]) {
        case Bad => return None;
        case Element(text, size) =>
          var n := size + BacklenSize(size);
          assert p + n <= |b| ==> b[p..][n..] == b[p + n..];
          out := out + [text];
          p := p + n;
      }
    }
    if p == |b| { assert b[p..] == [] && Elements(b[p..]) == None by { ElementsOfNothing(); } }
    r := None;
  }

  lemma ElementsOfNothing()
    ensures Elements([]) == None
  {
  }

  function Prepend(out: seq<Bytes>, r: Option<seq<Bytes>>): (r': Option<seq<Bytes>>)
  {
    match r
    case None => None
    case Some(more) => Some(out + more)
  }

  lemma PrependNothing(r: Option<seq<Bytes>>)
    ensures Prepend([], r) == r
  {
    if r.Some? { assert [] + r.value == r.value; }
  }

  /** One entry further. */
  lemma Unfold(b: Bytes)
    requires b != [] && b[0] != TERMINATOR
    ensures Get(b).Bad? ==> Elements(b) == None
    ensures Get(b).Element? ==>
              var n := Get(b).size + BacklenSize(Get(b).size);
              Elements(b) == if n > |b| then None else Prepend([Get(b).text], Elements(b[n..]))
  {
    hide Get, BacklenSize;
  }

  lemma AtTerminator(b: Bytes)
    requires b != [] && b[0] == TERMINATOR
    ensures Elements(b) == Some([])
  {
  }

  lemma ElementsStep(b: Bytes, out: seq<Bytes>)
    requires b != []
    ensures b[0] == TERMINATOR ==> Prepend(out, Elements(b)) == Some(out)
    ensures b[0] != TERMINATOR && Get(b).Bad? ==> Prepend(out, Elements(b)) == None
    ensures b[0] != TERMINATOR && Get(b).Element? ==>
              var n := Get(b).size + BacklenSize(Get(b).size);
              Prepend(out, Elements(b)) == if n > |b| then None else Prepend(out + [Get(b).text], Elements(b[n..]))
  {
    hide Get, Elements, BacklenSize;
    if b[0] == TERMINATOR {
      AtTerminator(b);
      assert out + [] == out;
    } else {
      Unfold(b);
      if Get(b).Element? {
        var n := Get(b).size + BacklenSize(Get(b).size);
        if n <= |b| { PrependTwice(out, Get(b).text, Elements(b[n..])); }
      }
    }
  }

  lemma PrependTwice(out: seq<Bytes>, x: Bytes, r: Option<seq<Bytes>>)
    ensures Prepend(out, Prepend([x], r)) == Prepend(out + [x], r)
  {
    if r.Some? { assert out + ([x] + r.value) == (out + [x]) + r.value; }
  }

  /** Entries written one after another, then the terminator. */
  lemma {:induction false} ElementsOfEntries(es: seq<Bytes>, rest: Bytes)
    requires forall e :: e in es ==> |e| < ELEMENT_MAX
    ensures Elements(All(Entry, es) + [TERMINATOR] + rest) == Some(es)
  {
    hide Get, Form, Backlen, BacklenSize, Elements, All;
    AllFirst(Entry, es);
    if es == [] {
      ElementsEnd(rest);
      assert All(Entry, es) + [TERMINATOR] + rest == [TERMINATOR] + rest;
    } else {
      var e, more := es[0], All(Entry, es[1..]) + [TERMINATOR] + rest;
      var f, l := Form(e), Backlen(|Form(e)|);
      ElementsOfEntries(es[1..], rest);
      FormComesBack(e, l + more);
      FirstEntry(All(Entry, es[1..]), f, l, rest);
      Unfold(f + (l + more));
      assert (f + (l + more))[|f| + |l|..] == more;
      assert es == [e] + es[1..];
    }
  }

  lemma ElementsEnd(rest: Bytes)
    ensures Elements([TERMINATOR] + rest) == Some([])
  {
  }

  lemma FirstEntry(all: Bytes, f: Bytes, l: Bytes, rest: Bytes)
    ensures (f + l) + all + [TERMINATOR] + rest == f + (l + (all + [TERMINATOR] + rest))
  {
  }

  /** The listpack of a run of entries: total length, count, entries, terminator. */
  function Pack(entries: Bytes, count: nat): (b: Bytes)
  {
    var n := 7 + |entries|;
    Le(n, 4) + Le(if count > 0xFFFF then 0xFFFF else count, 2) + entries + [TERMINATOR]
  }

  /** Unpacking undoes packing. */
  lemma PackRoundTrip(es: seq<Bytes>, count: nat)
    requires forall e :: e in es ==> |e| < ELEMENT_MAX
    ensures Decoded(Pack(All(Entry, es), count)) == Some(es)
  {
    hide Elements, All, Le;
    var b := Pack(All(Entry, es), count);
    assert b[6..] == All(Entry, es) + [TERMINATOR] + [];
    ElementsOfEntries(es, []);
  }

  lemma {:induction false} EntriesTake(es: seq<Bytes>)
    requires forall e :: e in es ==> |e| < ELEMENT_MAX
    ensures |All(Entry, es)| == EntryBytes(es)
  {
    hide Entry, EntrySize;
    if es != [] {
      var k := |es| - 1;
      EntriesTake(es[..k]);
      assert es == es[..k] + [es[k]];
      AllSnoc(Entry, es[..k], es[k]);
      ListBytesConcat(es[..k], [es[k]]);
      EntryBytesOfOne(es[k]);
      EntryTakes(es[k]);
    }
  }

  /** The running size of a list is the byte length of the listpack its dump builds. */
  lemma PackTakes(es: seq<Bytes>)
    requires forall e :: e in es ==> |e| < ELEMENT_MAX
    ensures |Pack(All(Entry, es), |es|)| == ListBytes(es)
  {
    EntriesTake(es);
  }

  /** A listpack is never the text of an integer: it ends in a byte that is no digit. */
  lemma PackIsText(entries: Bytes, count: nat)
    ensures IntEncode(Pack(entries, count)) == None
  {
    var b := Pack(entries, count);
    assert b[|b| - 1] == TERMINATOR;
    if ParseInt64(b).Some? { LastDigit(b); }
  }

  lemma LastDigit(b: Bytes)
    requires |b| > 1 && ParseInt64(b).Some?
    ensures IsDigit(b[|b| - 1])
  {
    var digits := if b[0] == MINUS || b[0] == PLUS then b[1..] else b;
    assert digits[|digits| - 1] == b[|b| - 1];
  }
}
