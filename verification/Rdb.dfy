/** RDB lengths and strings (f1srv/dump.go). */
module Rdb {
  import opened Bytes
  import opened Decimal

  /** A value read off the front of some bytes, and what is left of them. */
  datatype Read<+T> = Fail | Got(value: T, rest: Bytes)

  const WORD: int := 0x1_0000_0000_0000_0000

  type U64 = n: int | 0 <= n < WORD
  type Int64 = n: int | INT64_MIN <= n <= INT64_MAX

  /** rdbAppendLen. */
  function Len(n: nat): (b: Bytes)
  {
    if n < 64 then [n]
    else if n < 16384 then [n / 256 + 64, n % 256]
    else if n <= 0xffff_ffff then [0x80] + Be(n, 4)
    else [0x81] + Be(n, 8)
  }

  function PairLen(b0: Byte, b1: Byte): (n: nat)
    requires b0 >= 64
  {
    var high: int := b0 - 64;
    high * 256 + b1
  }

  /** rdbReadLen. */
  function ReadLen(b: Bytes): (r: Read<U64>)
  {
    Pow256Values();
    if |b| < 1 then Fail
    else if b[0] < 64 then Got(b[0], b[1..])
    else if b[0] < 128 then (if |b| < 2 then Fail else Got(PairLen(b[0], b[1]), b[2..]))
    else if b[0] == 0x80 then (if |b| < 5 then Fail else FromBeBound(b[1..5]); Got(FromBe(b[1..5]), b[5..]))
    else if b[0] == 0x81 then (if |b| < 9 then Fail else FromBeBound(b[1..9]); Got(FromBe(b[1..9]), b[9..]))
    else Fail
  }

  /** A tag, k bytes, and what follows. */
  lemma Tagged(tag: Byte, body: Bytes, rest: Bytes)
    ensures var b := [tag] + body + rest;
            |b| >= 1 + |body| && b[0] == tag && b[1..1 + |body|] == body && b[1 + |body|..] == rest
  {
  }

  lemma LenRoundTrip(n: nat, rest: Bytes)
    requires n < WORD
    ensures ReadLen(Len(n) + rest) == Got(n, rest)
  {
    hide Be, FromBe;
    Pow256Values();
    var b := Len(n) + rest;
    if n < 64 {
      assert b[1..] == rest;
    } else if n < 16384 {
      assert b[2..] == rest;
    } else if n <= 0xffff_ffff {
      BeRoundTrip(n, 4);
      Tagged(0x80, Be(n, 4), rest);
    } else {
      BeRoundTrip(n, 8);
      Tagged(0x81, Be(n, 8), rest);
    }
  }

  /** rdbIntEncode: the canonical text of a 32-bit integer. */
  function IntEncode(val: Bytes): (e: Option<Bytes>)
  {
    if |val| == 0 || |val| > 11 then None
    else
      match ParseInt64(val)
      case None => None
      case Some(n) =>
        if FormatInt(n) != val then None
        else if -128 <= n <= 127 then Some([0xC0, ToUnsigned(n, 0x100)])
        else if -32768 <= n <= 32767 then Some([0xC1] + Le(ToUnsigned(n, 0x1_0000), 2))
        else if -2147483648 <= n <= 2147483647 then Some([0xC2] + Le(ToUnsigned(n, 0x1_0000_0000), 4))
        else None
  }

  /** rdbAppendString. */
  function Str(val: Bytes): (b: Bytes)
  {
    match IntEncode(val)
    case Some(e) => e
    case None => Len(|val|) + val
  }

  /** rdbReadString, but for the compressed form. */
  function ReadStr(b: Bytes): (r: Read<Bytes>)
  {
    if |b| < 1 then Fail
    else if b[0] < 192 then
      match ReadLen(b)
      case Fail => Fail
      case Got(n, rest) => if |rest| < n then Fail else Got(rest[..n], rest[n..])
    else if b[0] == 0xC0 then
      (if |b| < 2 then Fail else Got(FormatInt(ToSigned(b[1], 0x100)), b[2..]))
    else if b[0] == 0xC1 then
      (if |b| < 3 then Fail else Got(FormatInt(ToSigned(FromLe(b[1..3]), 0x1_0000)), b[3..]))
    else if b[0] == 0xC2 then
      (if |b| < 5 then Fail else Got(FormatInt(ToSigned(FromLe(b[1..5]), 0x1_0000_0000)), b[5..]))
    else Fail
  }

  lemma IntRoundTrip(val: Bytes, rest: Bytes)
    requires IntEncode(val).Some?
    ensures ReadStr(IntEncode(val).value + rest) == Got(val, rest)
  {
    hide Le, FromLe, FormatInt, ParseInt64;
    Pow256Values();
    var n := ParseInt64(val).value;
    if -128 <= n <= 127 {
      assert ([0xC0, ToUnsigned(n, 0x100)] + rest)[2..] == rest;
    } else if -32768 <= n <= 32767 {
      LeRoundTrip(ToUnsigned(n, 0x1_0000), 2);
      Tagged(0xC1, Le(ToUnsigned(n, 0x1_0000), 2), rest);
    } else {
      LeRoundTrip(ToUnsigned(n, 0x1_0000_0000), 4);
      Tagged(0xC2, Le(ToUnsigned(n, 0x1_0000_0000), 4), rest);
    }
  }

  lemma LenFirst(n: nat, rest: Bytes)
    ensures Len(n) + rest != [] && (Len(n) + rest)[0] < 192
  {
    hide Be;
  }

  /** Every string comes back, whether it was written as text or as an integer. */
  lemma StrRoundTrip(val: Bytes, rest: Bytes)
    requires |val| < WORD
    ensures ReadStr(Str(val) + rest) == Got(val, rest)
  {
    hide IntEncode, Len, ReadLen;
    if IntEncode(val).Some? {
      IntRoundTrip(val, rest);
    } else {
      assert Str(val) + rest == Len(|val|) + (val + rest);
      LenFirst(|val|, val + rest);
      LenRoundTrip(|val|, val + rest);
      assert (val + rest)[..|val|] == val && (val + rest)[|val|..] == rest;
    }
  }

  /** The encodings of a run of values, one after another. */
  function All<T>(enc: T -> Bytes, xs: seq<T>): (b: Bytes)
  {
    if xs == [] then [] else enc(xs[0]) + All(enc, xs[1..])
  }

  lemma AllFirst<T>(enc: T -> Bytes, xs: seq<T>)
    ensures xs == [] ==> All(enc, xs) == []
    ensures xs != [] ==> All(enc, xs) == enc(xs[0]) + All(enc, xs[1..])
  {
  }

  /** Read n values, one after another. */
  function Many<T>(get: Bytes -> Read<T>, n: nat, b: Bytes): (r: Read<seq<T>>)
  {
    if n == 0 then Got([], b)
    else
      match get(b)
      case Fail => Fail
      case Got(x, rest) =>
        match Many(get, n - 1, rest)
        case Fail => Fail
        case Got(xs, rest') => Got([x] + xs, rest')
  }

  /** A reader undoes a writer on one value, whatever follows it. */
  ghost predicate Undoes<T>(get: Bytes -> Read<T>, enc: T -> Bytes, x: T)
  {
    forall rest: Bytes {:trigger enc(x) + rest} :: get(enc(x) + rest) == Got(x, rest)
  }

  /** ... and then on a run of them. */
  lemma {:induction false} ManyRoundTrip<T>(get: Bytes -> Read<T>, enc: T -> Bytes, xs: seq<T>, rest: Bytes)
    requires forall x :: x in xs ==> Undoes(get, enc, x)
    ensures Many(get, |xs|, All(enc, xs) + rest) == Got(xs, rest)
  {
    if xs == [] {
      assert All(enc, xs) + rest == rest;
    } else {
      var more := All(enc, xs[1..]) + rest;
      ManyRoundTrip(get, enc, xs[1..], rest);
      assert All(enc, xs) + rest == enc(xs[0]) + more;
      assert Undoes(get, enc, xs[0]);
      assert get(enc(xs[0]) + more) == Got(xs[0], more);
      assert xs == [xs[0]] + xs[1..];
    }
  }

  lemma {:induction false} AllSnoc<T>(enc: T -> Bytes, xs: seq<T>, x: T)
    ensures All(enc, xs + [x]) == All(enc, xs) + enc(x)
  {
    if xs == [] {
      assert [x][1..] == [] && xs + [x] == [x];
      assert All(enc, [x]) == enc(x) + [] == enc(x);
    } else {
      AllSnoc(enc, xs[1..], x);
      assert (xs + [x])[1..] == xs[1..] + [x];
    }
  }

  /** The dump walks: append one encoding after another. */
  method AppendAll<T>(enc: T -> Bytes, payload0: Bytes, xs: seq<T>) returns (payload: Bytes)
    ensures payload == payload0 + All(enc, xs)
  {
    payload := payload0;
    var i := 0;
    while i < |xs|
      invariant 0 <= i <= |xs| && payload == payload0 + All(enc, xs[..i])
    {
      AllSnoc(enc, xs[..i], xs[i]);
      assert xs[..i + 1] == xs[..i] + [xs[i]];
      payload := payload + enc(xs[i]);
      i := i + 1;
    }
    assert xs[..i] == xs;
  }

  /** What the rest of a read adds to what has been read. */
  function Extend<T>(out: seq<T>, more: Read<seq<T>>): (r: Read<seq<T>>)
  {
    match more
    case Fail => Fail
    case Got(xs, rest) => Got(out + xs, rest)
  }

  lemma ManyStep<T>(get: Bytes -> Read<T>, n: nat, b: Bytes, out: seq<T>)
    requires n > 0
    ensures match get(b)
            case Fail => Extend(out, Many(get, n, b)) == Fail
            case Got(x, rest) => Extend(out, Many(get, n, b)) == Extend(out + [x], Many(get, n - 1, rest))
  {
    if get(b).Got? && Many(get, n - 1, get(b).rest).Got? {
      var x, xs := get(b).value, Many(get, n - 1, get(b).rest).value;
      assert out + ([x] + xs) == (out + [x]) + xs;
    }
  }

  /** The load walks: read one value after another, stopping at the first that does not parse. */
  method ReadAll<T>(get: Bytes -> Read<T>, n: nat, b: Bytes) returns (r: Read<seq<T>>)
    ensures r == Many(get, n, b)
  {
    hide Many;
    var out, rest, i := [], b, 0;
    assert Extend(out, Many(get, n, b)) == Many(get, n, b) by { NothingExtends(Many(get, n, b)); }
    while i < n
      invariant 0 <= i <= n && Extend(out, Many(get, n - i, rest)) == Many(get, n, b)
    {
      ManyStep(get, n - i, rest, out);
      match get(rest) {
        case Fail => return Fail;
        case Got(x, more) => out, rest := out + [x], more;
      }
      i := i + 1;
    }
    assert Many(get, 0, rest) == Got([], rest) by { NoneLeft(get, rest); }
    assert out + [] == out;
    r := Got(out, rest);
  }

  lemma NothingExtends<T>(r: Read<seq<T>>)
    ensures Extend([], r) == r
  {
    if r.Got? { assert [] + r.value == r.value; }
  }

  lemma NoneLeft<T>(get: Bytes -> Read<T>, b: Bytes)
    ensures Many(get, 0, b) == Got([], b)
  {
  }

  function Flatten<T>(parts: seq<seq<T>>): (s: seq<T>)
  {
    if parts == [] then [] else Flatten(parts[..|parts| - 1]) + parts[|parts| - 1]
  }
}
