/** The bytes of listpacks and of integers inside RDB strings, said by arithmetic and not by the functions that write and
    read them (f1srv/dump.go). */
module ListpackLaws {
  import opened Bytes
  import opened Decimal
  import opened ListSize
  import opened Rdb
  import opened Listpack
  import opened FormatLaws

  /** rdbReadString of arbitrary bytes that start with a length. */
  lemma ReadTextIs(b: Bytes)
    requires b != [] && b[0] < 192
    ensures ReadStr(b) == match ReadLen(b)
                          case Fail => Fail
                          case Got(n, rest) => if |rest| < n then Fail else Got(rest[..n], rest[n..])
  {
  }

  /** ... and of bytes that start with one of the other tags: the text of the integer held by the next one, two or four
      bytes, and nothing else. */
  lemma ReadIntIs(b: Bytes) returns (v: int)
    requires b != [] && b[0] >= 192
    ensures b[0] > 0xC2 ==> ReadStr(b) == Fail
    ensures b[0] <= 0xC2 ==>
              var k := if b[0] == 0xC0 then 1 else if b[0] == 0xC1 then 2 else 4;
              if |b| < 1 + k then ReadStr(b) == Fail
              else ReadStr(b) == Got(FormatInt(v), b[1 + k..]) && Little(b[1..1 + k], v, k) && 0 <= 2 * v + Pow256(k) < 2 * Pow256(k)
  {
    hide FromLe, FormatInt, Little, ReadLen;
    Pow256Values();
    var k := if b[0] == 0xC0 then 1 else if b[0] == 0xC1 then 2 else 4;
    v := 0;
    if b[0] <= 0xC2 && |b| >= 1 + k {
      FromIsLittle(b[1..1 + k], Pow256(k));
      v := ToSigned(FromLe(b[1..1 + k]), Pow256(k));
      if k == 1 { OneByte(b[1]); assert b[1..2] == [b[1]]; }
    }
  }

  lemma OneByte(x: Byte)
    ensures FromLe([x]) == x
  {
    assert [x][1..] == [];
  }

  /** lpAppendInt: seven bits, thirteen behind 110, or a tag and two, three, four or eight bytes, the first form that
      holds the number. */
  lemma IntFormIs(v: int)
    requires INT64_MIN <= v <= INT64_MAX
    ensures var b := IntForm(v);
            if 0 <= v < 128 then b == [v]
            else if -4096 <= v < 4096 then |b| == 2 && var b0: int, b1: int := b[0], b[1]; 256 * b0 + b1 == 0xC000 + v % 8192
            else
              var k := if -0x8000 <= v < 0x8000 then 2 else if -0x80_0000 <= v < 0x80_0000 then 3
                       else if -0x8000_0000 <= v < 0x8000_0000 then 4 else 8;
              && |b| == 1 + k && Little(b[1..], v, k)
              && b[0] == (if k == 2 then 0xF1 else if k == 3 then 0xF2 else if k == 4 then 0xF3 else 0xF4)
  {
    hide Le, Little;
    Pow256Values();
    if !(-4096 <= v < 4096) {
      var k := if -0x8000 <= v < 0x8000 then 2 else if -0x80_0000 <= v < 0x80_0000 then 3
               else if -0x8000_0000 <= v < 0x8000_0000 then 4 else 8;
      LeIsLittle(v, Pow256(k), k);
      assert IntForm(v)[1..] == Le(ToUnsigned(v, Pow256(k)), k);
    } else {
      assert v % 8192 == ToUnsigned(v, 8192);
    }
  }

  /** lpAppendStr: a length of six bits behind 10, twelve behind 1110, or thirty-two behind 0xF0 least significant byte
      first, and then the text. */
  lemma StrFormIs(e: Bytes)
    requires |e| < ELEMENT_MAX
    ensures var b, n := StrForm(e), |e|;
            if n < 64 then b == [0x80 + n] + e
            else if n < 4096 then |b| == 2 + n && b[2..] == e && var b0: int, b1: int := b[0], b[1]; 256 * b0 + b1 == 0xE000 + n
            else |b| == 5 + n && b[0] == 0xF0 && Little(b[1..5], n, 4) && b[5..] == e
  {
    hide Le, Little;
    Pow256Values();
    LeIsLittle(|e|, Pow256(4), 4);
    if |e| >= 4096 {
      assert StrForm(e)[1..5] == Le(|e|, 4);
    }
  }

  /** An element takes an integer form just when it is the text of an int64. */
  lemma FormIs(e: Bytes, v: int)
    ensures INT64_MIN <= v <= INT64_MAX && e == FormatInt(v) ==> Form(e) == IntForm(v)
    ensures (forall w :: INT64_MIN <= w <= INT64_MAX ==> e != FormatInt(w)) ==> Form(e) == StrForm(e)
  {
    hide FormatInt, IntForm, StrForm, TryInteger;
    TryIntegerExact(e, v);
    if TryInteger(e).Some? { TryIntegerExact(e, TryInteger(e).value); }
  }

  /** A back-length read from its last byte, seven bits at a time. */
  function FromBack(b: Bytes): (n: nat)
  {
    if b == [] then 0 else b[|b| - 1] % 128 + 128 * FromBack(b[..|b| - 1])
  }

  /** lpAppendBacklen: as many groups of seven bits as the number needs, the high bit set on all but the first byte, so
      that a reader coming from behind knows where to stop. */
  lemma {:induction false} BacklenIs(l: nat)
    requires l < 0x8_0000_0000
    ensures var b := Backlen(l);
            && FromBack(b) == l && b != [] && b[0] < 128 && (forall i :: 1 <= i < |b| ==> b[i] >= 128)
            && |b| == (if l < 0x80 then 1 else if l < 0x4000 then 2 else if l < 0x20_0000 then 3 else if l < 0x1000_0000 then 4 else 5)
  {
    if l < 128 {
      assert [l][..0] == [];
    } else {
      BacklenIs(l / 128);
      BacklenMore(l);
      hide Backlen;
      assert (Backlen(l / 128) + [l % 128 + 128])[..|Backlen(l / 128)|] == Backlen(l / 128);
    }
  }

  lemma BacklenMore(l: nat)
    requires 128 <= l < 0x8_0000_0000
    ensures Backlen(l) == Backlen(l / 128) + [l % 128 + 128]
  {
    assert l / 16384 == l / 128 / 128 && l / 2097152 == l / 128 / 16384 && l / 268435456 == l / 128 / 2097152;
  }

  /** lpGet of arbitrary bytes: the text of the integer, or the text, that the first byte announces. */
  lemma GetTextIs(b: Bytes)
    requires b != [] && (0x80 <= b[0] < 0xC0 || 0xE0 <= b[0] <= 0xF0)
    ensures var k := if b[0] < 0xC0 then 1 else if b[0] < 0xF0 then 2 else 5;
            if |b| < k then Get(b) == Bad
            else
              var n := if k == 1 then b[0] - 0x80 else if k == 2 then 256 * (b[0] - 0xE0) + b[1] else FromLe(b[1..5]);
              && Get(b) == (if |b| < k + n then Bad else Element(b[k..k + n], k + n))
              && (k == 5 ==> Little(b[1..5], n, 4))
  {
    hide FromLe, Little;
    Pow256Values();
    if b[0] == 0xF0 && |b| >= 5 {
      LeOfFrom(b[1..5]);
      FromLeBound(b[1..5]);
      LeIsLittle(FromLe(b[1..5]), Pow256(4), 4);
    }
  }

  lemma GetIntIs(b: Bytes) returns (v: int)
    requires b != [] && (b[0] < 0x80 || 0xC0 <= b[0] < 0xE0 || b[0] > 0xF0)
    ensures b[0] < 0x80 ==> v == b[0] && Get(b) == Element(FormatInt(v), 1)
    ensures 0xC0 <= b[0] < 0xE0 ==>
              if |b| < 2 then Get(b) == Bad
              else Get(b) == Element(FormatInt(v), 2) && -4096 <= v < 4096 && var b0: int, b1: int := b[0], b[1]; 256 * b0 + b1 == 0xC000 + v % 8192
    ensures 0xF1 <= b[0] <= 0xF4 ==>
              var k := if b[0] == 0xF1 then 2 else if b[0] == 0xF2 then 3 else if b[0] == 0xF3 then 4 else 8;
              if |b| < 1 + k then Get(b) == Bad
              else Get(b) == Element(FormatInt(v), 1 + k) && Little(b[1..1 + k], v, k) && 0 <= 2 * v + Pow256(k) < 2 * Pow256(k)
    ensures b[0] > 0xF4 ==> Get(b) == Bad
  {
    hide FromLe, FormatInt, Little;
    Pow256Values();
    v := b[0];
    if 0xC0 <= b[0] < 0xE0 && |b| >= 2 {
      v := ToSigned(Wide(b[0] - 0xC0, b[1]), 0x2000);
    } else if 0xF1 <= b[0] <= 0xF4 {
      var k := if b[0] == 0xF1 then 2 else if b[0] == 0xF2 then 3 else if b[0] == 0xF3 then 4 else 8;
      if |b| >= 1 + k {
        FromIsLittle(b[1..1 + k], Pow256(k));
        v := ToSigned(FromLe(b[1..1 + k]), Pow256(k));
      }
    }
  }

  /** A listpack: its length in four bytes and its count in two, least significant first, the count capped; the entries;
      0xFF. */
  lemma PackIs(entries: Bytes, count: nat)
    requires |entries| + 7 < 0x1_0000_0000
    ensures var b := Pack(entries, count);
            && |b| == |entries| + 7 && Little(b[..4], |b|, 4) && Little(b[4..6], if count > 65535 then 65535 else count, 2)
            && b[6..|b| - 1] == entries && b[|b| - 1] == 0xFF
  {
    hide Le, Little;
    Pow256Values();
    var b, c := Pack(entries, count), if count > 65535 then 65535 else count;
    LeIsLittle(7 + |entries|, Pow256(4), 4);
    LeIsLittle(c, Pow256(2), 2);
    assert b[..4] == Le(7 + |entries|, 4) && b[4..6] == Le(c, 2);
  }
}
