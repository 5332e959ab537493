/** The checksum of a dump as a division of polynomials, and the bytes of its footer (f1srv/dump.go). */
module CrcLaws {
  import opened Bytes
  import opened Words
  import C = Crc

  /** The Jones polynomial, the coefficient of x^i at place i and that of x^64 left out. */
  const JONES: Bits := BitsOf(0xad93d23594c935a9, 64)

  /** One step of long division: the remainder times x plus the next bit of the message times x^64, less the divisor if
      that has a term x^64. */
  function Divide(rem: Bits, bit: bool): (rem': Bits)
    requires |rem| == 64
    ensures |rem'| == 64
  {
    if rem[63] != bit then Xor(Shl(rem, 1), JONES) else Shl(rem, 1)
  }

  function DivideAll(rem: Bits, message: Bits): (rem': Bits)
    requires |rem| == 64
    ensures |rem'| == 64
    decreases |message|
  {
    if message == [] then rem else DivideAll(Divide(rem, message[0]), message[1..])
  }

  /** The bits of a message, each byte's lowest first. */
  function MessageBits(data: Bytes): (m: Bits)
    ensures |m| == 8 * |data|
  {
    if data == [] then [] else BitsOf(data[0], 8) + MessageBits(data[1..])
  }

  /** A bit added to the lowest place. */
  function With(c: Bits, bit: bool): (c': Bits)
    requires |c| == 64
    ensures |c'| == 64
  {
    c[0 := c[0] != bit]
  }

  /** The checksum's step is a step of the division, seen in the mirror. */
  lemma StepDivides(c: Bits, bit: bool)
    requires |c| == 64
    ensures C.Mirror(C.Bit(With(c, bit))) == Divide(C.Mirror(c), bit)
  {
    hide BitsOf;
    var d := With(c, bit);
    var left, right := C.Mirror(C.Bit(d)), Divide(C.Mirror(c), bit);
    assert C.Mirror(c)[63] == c[0];
    forall j | 0 <= j < 64 ensures left[j] == right[j] {
      assert Shr(d, 1)[63 - j] == (if j == 0 then false else d[64 - j]);
      assert Shl(C.Mirror(c), 1)[j] == (if j == 0 then false else C.Mirror(c)[j - 1]);
      assert C.Rp()[63 - j] == JONES[j];
    }
  }

  /** Bits folded in together go in one by one. */
  lemma {:induction false} StepsOneByOne(c: Bits, bits: Bits)
    requires |c| == 64 && |bits| <= 64
    ensures C.Mirror(C.Steps(Xor(c, bits + Off(64 - |bits|)), |bits|)) == DivideAll(C.Mirror(c), bits)
    decreases |bits|
  {
    hide C.Bit, Divide, C.Mirror;
    if bits == [] {
      assert Xor(c, [] + Off(64)) == c;
    } else {
      var rest := bits[1..];
      var w := bits + Off(64 - |bits|);
      var next := C.Bit(With(c, bits[0]));
      FirstOut(c, bits);
      assert C.Bit(Xor(c, w)) == Xor(next, rest + Off(64 - |rest|));
      StepDivides(c, bits[0]);
      StepsOneByOne(next, rest);
    }
  }

  lemma FirstOut(c: Bits, bits: Bits)
    requires |c| == 64 && 0 < |bits| <= 64
    ensures C.Bit(Xor(c, bits + Off(64 - |bits|))) == Xor(C.Bit(With(c, bits[0])), bits[1..] + Off(65 - |bits|))
  {
    hide C.Rp;
    var w := bits + Off(64 - |bits|);
    var left, right := C.Bit(Xor(c, w)), Xor(C.Bit(With(c, bits[0])), bits[1..] + Off(65 - |bits|));
    forall j | 0 <= j < 64 ensures left[j] == right[j] {
      assert Shr(Xor(c, w), 1)[j] == (if j < 63 then c[j + 1] != w[j + 1] else false);
      assert Shr(With(c, bits[0]), 1)[j] == (if j < 63 then c[j + 1] else false);
    }
  }

  lemma {:induction false} DivideConcat(rem: Bits, a: Bits, b: Bits)
    requires |rem| == 64
    ensures DivideAll(rem, a + b) == DivideAll(DivideAll(rem, a), b)
    decreases |a|
  {
    hide Divide;
    if a == [] {
      assert a + b == b;
    } else {
      assert (a + b)[1..] == a[1..] + b;
      DivideConcat(Divide(rem, a[0]), a[1..], b);
    }
  }

  /** The checksum is the remainder of the message, times x^64, by the Jones polynomial, read in the mirror. */
  lemma {:induction false} CrcDivides(c: Bits, data: Bytes)
    requires |c| == 64
    ensures C.Mirror(C.Crc(c, data)) == DivideAll(C.Mirror(c), MessageBits(data))
    decreases |data|
  {
    hide C.Mirror, C.Steps, Divide, BitsOf;
    if data != [] {
      StepsOneByOne(c, BitsOf(data[0], 8));
      CrcDivides(C.Fold(c, data[0]), data[1..]);
      DivideConcat(C.Mirror(c), BitsOf(data[0], 8), MessageBits(data[1..]));
    }
  }

  /** The footer: version 11 in two bytes and the checksum of all before it in eight, least significant first. */
  lemma SealIs(payload: Bytes)
    ensures var b := C.Seal(payload);
            && |b| == |payload| + 10 && b[..|payload| + 2] == payload + [11, 0]
            && MessageBits(b[|payload| + 2..]) == C.Crc(Off(64), payload + [11, 0])
  {
    hide C.Crc, C.BytesOf;
    var w := C.Crc(Off(64), payload + [11, 0]);
    WordIs(w, 8);
    assert C.Seal(payload)[|payload| + 2..] == C.BytesOf(w, 8);
  }

  lemma {:induction false} WordIs(w: Bits, k: nat)
    requires |w| == 8 * k
    ensures MessageBits(C.BytesOf(w, k)) == w
  {
    hide BitsOf, Value;
    if k > 0 {
      WordIs(w[8..], k - 1);
      BitsOfValue(w[..8]);
      assert C.BytesOf(w, k)[1..] == C.BytesOf(w[8..], k - 1);
      assert w == w[..8] + w[8..];
    }
  }

  /** A footer is accepted just for versions 1 to 80 and the right checksum. */
  lemma FooterIs(payload: Bytes, lo: Byte, hi: Byte, sum: Bytes)
    requires |payload| >= 2 && |sum| == 8
    ensures var low: int, high: int := lo, hi;
            C.CheckFooter(payload + [lo, hi] + sum) ==
            (if 1 <= low + 256 * high <= 80 && MessageBits(sum) == C.Crc(Off(64), payload + [lo, hi]) then Some(payload) else None)
  {
    hide C.Crc, C.WordOf, MessageBits, Off;
    FooterParts(payload, lo, hi, sum);
    SameWord(sum);
  }

  lemma FooterParts(payload: Bytes, lo: Byte, hi: Byte, sum: Bytes)
    requires |sum| == 8
    ensures var b, n := payload + [lo, hi] + sum, |payload| + 10;
            && |b| == n && b[..n - 8] == payload + [lo, hi] && b[n - 8..] == sum && b[..n - 10] == payload
            && b[n - 10] == lo && b[n - 9] == hi
  {
  }

  lemma {:induction false} SameWord(b: Bytes)
    ensures C.WordOf(b) == MessageBits(b)
  {
    hide BitsOf;
    if b != [] { SameWord(b[1..]); }
  }
}
