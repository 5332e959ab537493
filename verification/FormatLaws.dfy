/** The bytes of decimal text, RDB lengths and strings, and listpacks, said by arithmetic and not by the functions that
    write and read them (f1srv/dump.go). */
module FormatLaws {
  import opened Bytes
  import opened Decimal
  import opened ListSize
  import opened Rdb
  import opened Listpack

  /* Decimal text. */

  /** The text of a natural number has no leading zero and digit i of k is the quotient by 10^(k-1-i) modulo ten. */
  lemma {:induction false} DigitsAre(n: nat)
    ensures var k := |Digits(n)|;
            && (n == 0 ==> k == 1) && (n > 0 ==> Pow10(k - 1) <= n < Pow10(k))
            && forall i :: 0 <= i < k ==> Digits(n)[i] == 48 + n / Pow10(k - 1 - i) % 10
  {
    var k := |Digits(n)|;
    if n >= 10 {
      DigitsAre(n / 10);
      forall i | 0 <= i < k ensures Digits(n)[i] == 48 + n / Pow10(k - 1 - i) % 10 {
        if i < k - 1 {
          assert Digits(n)[i] == Digits(n / 10)[i];
          DivTen(n, Pow10(k - 2 - i));
        }
      }
    }
  }

  lemma DivTen(n: nat, b: nat)
    requires b >= 1
    ensures n / 10 / b == n / (10 * b)
  {
    Division.DivBy(n, 10, b);
  }

  lemma FormatIs(v: int)
    ensures FormatInt(v) == if v < 0 then [45] + Digits(-v) else Digits(v)
  {
  }

  /** A plus sign before digits makes no difference, and a minus sign negates, within the int64s. */
  lemma SignsParse(n: nat)
    ensures ParseInt64([43] + Digits(n)) == if n <= INT64_MAX then Some(n) else None
    ensures var v: int := n; ParseInt64([45] + Digits(n)) == if v <= INT64_MAX + 1 then Some(-v) else None
  {
    ParseDigitsOfDigits(n);
    assert ([43] + Digits(n))[1..] == Digits(n) && ([45] + Digits(n))[1..] == Digits(n);
  }

  /* Numbers in bytes. */

  /** The low k bytes of n, most significant first. */
  ghost predicate Big(b: Bytes, n: nat, k: nat)
  {
    |b| == k && forall i :: 0 <= i < k ==> b[i] == n / Pow256(k - 1 - i) % 256
  }

  /** The low k bytes of a number in two's complement, least significant first. */
  ghost predicate Little(b: Bytes, v: int, k: nat)
  {
    |b| == k && forall i :: 0 <= i < k ==> b[i] == v % Pow256(k) / Pow256(i) % 256
  }

  lemma BeIsBig(n: nat, k: nat)
    ensures Big(Be(n, k), n, k)
  {
    hide Be;
    forall i | 0 <= i < k ensures Be(n, k)[i] == n / Pow256(k - 1 - i) % 256 { BeAt(n, k, i); }
  }

  lemma FromIsBig(b: Bytes)
    ensures Big(b, FromBe(b), |b|) && FromBe(b) < Pow256(|b|)
  {
    BeOfFrom(b);
    BeIsBig(FromBe(b), |b|);
    FromBeBound(b);
  }

  lemma LeBytes(u: nat, k: nat)
    ensures forall i :: 0 <= i < k ==> Le(u, k)[i] == u / Pow256(i) % 256
  {
    hide Le, Pow256;
    forall i | 0 <= i < k ensures Le(u, k)[i] == u / Pow256(i) % 256 { LeAt(u, k, i); }
  }

  lemma UnsignedIs(v: int, m: int)
    requires m > 0 && -m <= v < m
    ensures ToUnsigned(v, m) == v % m
  {
    Modulo(if v < 0 then v + m else v, m);
    if v < 0 { ModuloTurn(v, m); }
  }

  lemma Modulo(n: nat, m: int)
    requires n < m
    ensures n % m == n
  {
  }

  lemma ModuloTurn(v: int, m: int)
    requires m > 0 && -m <= v < 0
    ensures v % m == v + m
  {
    var q, r := v / m, v % m;
    assert v == q * m + r;
    Signs(q, m);
    assert q == -1;
  }

  lemma Signs(q: int, m: int)
    requires m > 0
    ensures q >= 0 ==> q * m >= 0
    ensures q <= -2 ==> q * m <= -2 * m
  {
    if q <= -2 { assert (q + 2) * m <= 0; }
  }

  lemma LeIsLittle(v: int, m: int, k: nat)
    requires m == Pow256(k) && -m <= v < m
    ensures Little(Le(ToUnsigned(v, m), k), v, k)
  {
    hide Le, Pow256, ToUnsigned;
    UnsignedIs(v, m);
    LeBytes(ToUnsigned(v, m), k);
  }

  /** What a signed read of some bytes yields is the number of that width they hold. */
  lemma FromIsLittle(b: Bytes, m: int)
    requires m == Pow256(|b|)
    ensures var v := ToSigned(FromLe(b), m); -m <= 2 * v < m && Little(b, v, |b|)
  {
    hide Le, FromLe, Pow256;
    var v := ToSigned(FromLe(b), m);
    FromLeBound(b);
    LeOfFrom(b);
    LeIsLittle(v, m, |b|);
  }

  /* Lengths. */

  /** rdbAppendLen: six bits, fourteen bits behind 01, and thirty-two or sixty-four behind 0x80 and 0x81, all with the
      most significant byte first. */
  lemma LenIs(n: nat)
    requires n < WORD
    ensures n < 64 ==> Len(n) == [n]
    ensures 64 <= n < 16384 ==> |Len(n)| == 2 && var b0: int, b1: int := Len(n)[0], Len(n)[1]; 256 * b0 + b1 == 0x4000 + n
    ensures 16384 <= n < 0x1_0000_0000 ==> |Len(n)| == 5 && Len(n)[0] == 0x80 && Big(Len(n)[1..], n, 4)
    ensures 0x1_0000_0000 <= n ==> |Len(n)| == 9 && Len(n)[0] == 0x81 && Big(Len(n)[1..], n, 8)
  {
    hide Be, Big;
    BeIsBig(n, 4);
    BeIsBig(n, 8);
    assert ([0x80] + Be(n, 4))[1..] == Be(n, 4) && ([0x81] + Be(n, 8))[1..] == Be(n, 8);
  }

  /** rdbReadLen of arbitrary bytes. */
  lemma ReadLenIs(b: Bytes)
    ensures b == [] ==> ReadLen(b) == Fail
    ensures b != [] && b[0] < 64 ==> ReadLen(b) == Got(b[0], b[1..])
    ensures b != [] && 64 <= b[0] < 128 ==>
              if |b| < 2 then ReadLen(b) == Fail
              else ReadLen(b).Got? && ReadLen(b).rest == b[2..] &&
                   var b0: int, b1: int := b[0], b[1]; 0x4000 + ReadLen(b).value == 256 * b0 + b1
    ensures b != [] && (b[0] == 0x80 || b[0] == 0x81) ==>
              var k := if b[0] == 0x80 then 4 else 8;
              if |b| < 1 + k then ReadLen(b) == Fail
              else ReadLen(b).Got? && ReadLen(b).rest == b[1 + k..] && ReadLen(b).value < Pow256(k) && Big(b[1..1 + k], ReadLen(b).value, k)
    ensures b != [] && b[0] > 0x81 ==> ReadLen(b) == Fail
  {
    hide FromBe, Big, Pow256;
    if |b| >= 5 { FromIsBig(b[1..5]); }
    if |b| >= 9 { FromIsBig(b[1..9]); }
  }

  /** rdbIntEncode: the decimal texts of 32-bit integers are written as a tag and one, two or four bytes, the fewest
      that hold the number; nothing else is. */
  lemma IntEncodeIs(v: int)
    requires -0x8000_0000 <= v < 0x8000_0000
    ensures var k := if -128 <= v < 128 then 1 else if -32768 <= v < 32768 then 2 else 4;
            var e := IntEncode(FormatInt(v));
            && e.Some? && |e.value| == 1 + k && e.value[0] == (if k == 1 then 0xC0 else if k == 2 then 0xC1 else 0xC2)
            && Little(e.value[1..], v, k)
  {
    hide FormatInt, ParseInt64, Le;
    Pow256Values();
    ShortInt(v);
    ParseOfFormat(v);
    if -128 <= v < 128 {
      assert Pow256(0) == 1 && v % 256 / 1 % 256 == v % 256;
    } else if -32768 <= v < 32768 {
      LeIsLittle(v, 0x1_0000, 2);
      assert IntEncode(FormatInt(v)).value[1..] == Le(ToUnsigned(v, 0x1_0000), 2);
    } else {
      LeIsLittle(v, 0x1_0000_0000, 4);
      assert IntEncode(FormatInt(v)).value[1..] == Le(ToUnsigned(v, 0x1_0000_0000), 4);
    }
  }

  lemma ShortInt(v: int)
    requires -0x8000_0000 <= v < 0x8000_0000
    ensures 1 <= |FormatInt(v)| <= 11
  {
    Pow10Of19();
    DigitsWidth(if v < 0 then -v else v, 10);
  }

  lemma OtherText(val: Bytes)
    requires forall v :: -0x8000_0000 <= v < 0x8000_0000 ==> FormatInt(v) != val
    ensures IntEncode(val) == None && Str(val) == Len(|val|) + val
  {
    hide FormatInt, ParseInt64, Le;
  }
}
