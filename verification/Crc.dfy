/** The CRC-64 of a dump, its table, and the footer that seals a dump (f1srv/dump.go). */
module Crc {
  import opened Bytes
  import opened Powers
  import opened Words

  const POLY: nat := 0xad93d23594c935a9

  /** Bit i of the word becomes bit 63 - i. */
  function Mirror(v: Bits): (r: Bits)
    requires |v| == 64
    ensures |r| == 64 && forall j :: 0 <= j < 64 ==> r[j] == v[63 - j]
  {
    seq(64, j requires 0 <= j < 64 => v[63 - j])
  }

  /** crc64Reflect. */
  method Reflect(v: Bits) returns (r: Bits)
    requires |v| == 64
    ensures r == Mirror(v)
  {
    r := Off(64);
    for i := 0 to 64
      invariant |r| == 64 && forall j :: 0 <= j < 64 ==> r[j] == (63 - j < i && v[63 - j])
    {
      if v[i] {
        r := r[63 - i := true];
      }
    }
  }

  /** The reflected polynomial. */
  function Rp(): (rp: Bits)
    ensures |rp| == 64
  {
    Mirror(BitsOf(POLY, 64))
  }

  lemma LowBit(n: nat, k: nat)
    requires k > 0
    ensures BitsOf(n, k)[0] == (n % 2 == 1)
  {
  }

  /** The polynomial is odd, so its reflection has the top bit: a step can be undone. */
  lemma RpTop()
    ensures Rp()[63]
  {
    hide BitsOf;
    LowBit(POLY, 64);
  }

  /** One bit of the reflected CRC. */
  function Bit(c: Bits): (c': Bits)
    requires |c| == 64
    ensures |c'| == 64
  {
    if c[0] then Xor(Shr(c, 1), Rp()) else Shr(c, 1)
  }

  function Steps(c: Bits, k: nat): (c': Bits)
    requires |c| == 64
    ensures |c'| == 64
    decreases k
  {
    if k == 0 then c else Steps(Bit(c), k - 1)
  }

  lemma BitXor(a: Bits, b: Bits)
    requires |a| == |b| == 64
    ensures Bit(Xor(a, b)) == Xor(Bit(a), Bit(b))
  {
    hide Rp;
  }

  lemma BitInjective(a: Bits, b: Bits)
    requires |a| == |b| == 64 && Bit(a) == Bit(b)
    ensures a == b
  {
    RpTop();
    hide Rp;
    assert Bit(a)[63] == a[0] && Bit(b)[63] == b[0];
    forall i | 1 <= i < 64 ensures a[i] == b[i] {
      assert Bit(a)[i - 1] == Bit(b)[i - 1];
      assert Shr(a, 1)[i - 1] == a[i] && Shr(b, 1)[i - 1] == b[i];
    }
  }

  lemma {:induction false} StepsXor(a: Bits, b: Bits, k: nat)
    requires |a| == |b| == 64
    ensures Steps(Xor(a, b), k) == Xor(Steps(a, k), Steps(b, k))
    decreases k
  {
    hide Bit, Xor;
    if k > 0 {
      BitXor(a, b);
      StepsXor(Bit(a), Bit(b), k - 1);
    }
  }

  lemma {:induction false} StepsInjective(a: Bits, b: Bits, k: nat)
    requires |a| == |b| == 64 && Steps(a, k) == Steps(b, k)
    ensures a == b
    decreases k
  {
    hide Bit;
    if k > 0 {
      StepsInjective(Bit(a), Bit(b), k - 1);
      BitInjective(a, b);
    }
  }

  /** Zero low bits shift out without a trace. */
  lemma {:induction false} StepsOfHigh(c: Bits, k: nat)
    requires |c| == 64 && k <= 64 && forall i :: 0 <= i < k ==> !c[i]
    ensures Steps(c, k) == Shr(c, k)
    decreases k
  {
    if k > 0 {
      hide Rp, Xor;
      assert Bit(c) == Shr(c, 1);
      StepsOfHigh(Shr(c, 1), k - 1);
      assert Shr(Shr(c, 1), k - 1) == Shr(c, k);
    } else {
      assert Shr(c, 0) == c;
    }
  }

  function ByteWord(b: Byte): (w: Bits)
    ensures |w| == 64
  {
    BitsOf(b, 8) + Off(56)
  }

  /** The reference: a byte folded in, then eight single-bit steps. */
  function Fold(c: Bits, b: Byte): (c': Bits)
    requires |c| == 64
    ensures |c'| == 64
  {
    Steps(Xor(c, ByteWord(b)), 8)
  }

  /** One bit of the CRC taken back: the top bit says whether the polynomial went in. */
  function UnBit(c: Bits): (c': Bits)
    requires |c| == 64
    ensures |c'| == 64
  {
    [c[63]] + (if c[63] then Xor(c, Rp()) else c)[..63]
  }

  lemma BitUndoes(c: Bits)
    requires |c| == 64
    ensures Bit(UnBit(c)) == c
  {
    RpTop();
    hide Rp;
    var d := UnBit(c);
    var e := if c[63] then Xor(c, Rp()) else c;
    assert forall i :: 0 <= i < 63 ==> Shr(d, 1)[i] == e[i];
    assert !Shr(d, 1)[63];
    forall i | 0 <= i < 64 ensures Bit(d)[i] == c[i] {
    }
  }

  function UnSteps(c: Bits, k: nat): (c': Bits)
    requires |c| == 64
    ensures |c'| == 64
  {
    if k == 0 then c else UnBit(UnSteps(c, k - 1))
  }

  lemma {:induction false} StepsUndo(c: Bits, k: nat)
    requires |c| == 64
    ensures Steps(UnSteps(c, k), k) == c
  {
    hide Bit, UnBit;
    if k > 0 {
      BitUndoes(UnSteps(c, k - 1));
      StepsUndo(c, k - 1);
    }
  }

  /** A byte taken back out. */
  function Unfold(c: Bits, b: Byte): (c': Bits)
    requires |c| == 64
    ensures |c'| == 64
  {
    Xor(UnSteps(c, 8), ByteWord(b))
  }

  /** Folding a byte in is a bijection on the state: taking it back out undoes it, both ways around. */
  lemma FoldBijective(c: Bits, b: Byte)
    requires |c| == 64
    ensures Fold(Unfold(c, b), b) == c && Unfold(Fold(c, b), b) == c
  {
    hide Steps, UnSteps, ByteWord;
    var w := ByteWord(b);
    XorTwice(UnSteps(c, 8), w);
    StepsUndo(c, 8);
    var x := Xor(c, w);
    StepsUndo(Steps(x, 8), 8);
    StepsInjective(UnSteps(Steps(x, 8), 8), x, 8);
    XorTwice(c, w);
  }

  lemma XorTwice(a: Bits, b: Bits)
    requires |a| == |b|
    ensures Xor(Xor(a, b), b) == a
  {
  }

  /** One table entry: eight single-bit steps of the reflected polynomial. */
  method TableEntry(n: Byte, rp: Bits) returns (crc: Bits)
    requires rp == Mirror(BitsOf(POLY, 64))
    ensures crc == Steps(ByteWord(n), 8)
  {
    hide BitsOf, Mirror;
    crc := ByteWord(n);
    for k := 0 to 8
      invariant |crc| == 64 && Steps(crc, 8 - k) == Steps(ByteWord(n), 8)
    {
      crc := if crc[0] then Xor(Shr(crc, 1), rp) else Shr(crc, 1);
    }
  }

  /** The table at init: eight steps from every byte. */
  method BuildTable() returns (table: array<Bits>)
    ensures fresh(table) && table.Length == 256 && forall n: Byte :: 0 <= n < 256 ==> table[n] == Steps(ByteWord(n), 8)
  {
    hide BitsOf, Mirror, Steps, ByteWord;
    var rp := Reflect(BitsOf(POLY, 64));
    table := new Bits[256](_ => []);
    var n := 0;
    while n < 256
      invariant 0 <= n <= 256
      invariant forall m: Byte :: 0 <= m < n ==> table[m] == Steps(ByteWord(m), 8)
    {
      var crc := TableEntry(n, rp);
      table[n] := crc;
      n := n + 1;
    }
  }

  /** The table index for a byte. */
  function Index(c: Bits, b: Byte): (n: Byte)
    requires |c| == 64
  {
    var low := Xor(c[..8], BitsOf(b, 8));
    BitsOfValue(low);
    assert Pow2(8) == 256;
    Value(low)
  }

  /** One table lookup is eight single-bit steps. */
  lemma TableStep(c: Bits, b: Byte)
    requires |c| == 64
    ensures Xor(Steps(ByteWord(Index(c, b)), 8), Shr(c, 8)) == Fold(c, b)
  {
    hide Bit, BitsOf, Value, Steps;
    var low := Xor(c[..8], BitsOf(b, 8));
    BitsOfValue(low);
    var high := Off(8) + c[8..];
    assert Xor(c, ByteWord(b)) == Xor(ByteWord(Index(c, b)), high);
    StepsXor(ByteWord(Index(c, b)), high, 8);
    StepsOfHigh(high, 8);
    assert Shr(high, 8) == Shr(c, 8);
  }

  function Crc(c: Bits, data: Bytes): (c': Bits)
    requires |c| == 64
    ensures |c'| == 64
    decreases |data|
  {
    if data == [] then c else Crc(Fold(c, data[0]), data[1..])
  }

  /** crc64: the table-driven checksum is the bit-at-a-time one. */
  method Crc64(table: array<Bits>, seed: Bits, data: Bytes) returns (crc: Bits)
    requires table.Length == 256 && forall n: Byte :: 0 <= n < 256 ==> table[n] == Steps(ByteWord(n), 8)
    requires |seed| == 64
    ensures crc == Crc(seed, data)
  {
    hide Steps, Index, Fold, ByteWord;
    crc := seed;
    var i := 0;
    assert data[0..] == data;
    while i < |data|
      invariant 0 <= i <= |data| && |crc| == 64 && Crc(crc, data[i..]) == Crc(seed, data)
    {
      TableStep(crc, data[i]);
      assert data[i..][1..] == data[i + 1..];
      crc := Xor(table[Index(crc, data[i])], Shr(crc, 8));
      i := i + 1;
    }
  }

  lemma FoldInjective(c: Bits, d: Bits, b: Byte)
    requires |c| == |d| == 64 && Fold(c, b) == Fold(d, b)
    ensures c == d
  {
    hide Steps;
    StepsInjective(Xor(c, ByteWord(b)), Xor(d, ByteWord(b)), 8);
    assert forall i :: 0 <= i < 64 ==> Xor(c, ByteWord(b))[i] == Xor(d, ByteWord(b))[i];
  }

  lemma FoldSeparates(c: Bits, a: Byte, b: Byte)
    requires |c| == 64 && Fold(c, a) == Fold(c, b)
    ensures a == b
  {
    hide Steps, BitsOf;
    StepsInjective(Xor(c, ByteWord(a)), Xor(c, ByteWord(b)), 8);
    assert forall i :: 0 <= i < 64 ==> Xor(c, ByteWord(a))[i] == Xor(c, ByteWord(b))[i];
    assert ByteWord(a)[..8] == BitsOf(a, 8) && ByteWord(b)[..8] == BitsOf(b, 8);
    assert ByteWord(a) == ByteWord(b);
    assert Pow2(8) == 256;
    ValueOfBits(a, 8);
    ValueOfBits(b, 8);
  }

  lemma {:induction false} CrcInjective(c: Bits, d: Bits, data: Bytes)
    requires |c| == |d| == 64 && c != d
    ensures Crc(c, data) != Crc(d, data)
    decreases |data|
  {
    hide Fold;
    if data != [] {
      if Fold(c, data[0]) == Fold(d, data[0]) { FoldInjective(c, d, data[0]); }
      CrcInjective(Fold(c, data[0]), Fold(d, data[0]), data[1..]);
    }
  }

  /** Two strings that differ in exactly one byte have different checksums. */
  lemma {:induction false} CrcSeparates(c: Bits, a: Bytes, b: Bytes, k: nat)
    requires |c| == 64 && |a| == |b| && k < |a| && a[k] != b[k]
    requires forall i :: 0 <= i < |a| && i != k ==> a[i] == b[i]
    ensures Crc(c, a) != Crc(c, b)
    decreases |a|
  {
    hide Fold;
    if k == 0 {
      if Fold(c, a[0]) == Fold(c, b[0]) { FoldSeparates(c, a[0], b[0]); }
      assert a[1..] == b[1..];
      CrcInjective(Fold(c, a[0]), Fold(c, b[0]), a[1..]);
    } else {
      CrcSeparates(Fold(c, a[0]), a[1..], b[1..], k - 1);
    }
  }

  const ZERO_WORD: Bits := Off(64)

  /** Eight bytes, lowest first, as a word. */
  function WordOf(b: Bytes): (w: Bits)
  {
    if b == [] then [] else BitsOf(b[0], 8) + WordOf(b[1..])
  }

  function BytesOf(w: Bits, k: nat): (b: Bytes)
    requires |w| == 8 * k
    ensures |b| == k
  {
    if k == 0 then []
    else
      BitsOfValue(w[..8]);
      assert Pow2(8) == 256;
      [Value(w[..8])] + BytesOf(w[8..], k - 1)
  }

  lemma {:induction false} WordRoundTrip(w: Bits, k: nat)
    requires |w| == 8 * k
    ensures WordOf(BytesOf(w, k)) == w
  {
    if k > 0 {
      hide BitsOf, Value, WordOf;
      WordRoundTrip(w[8..], k - 1);
      BitsOfValue(w[..8]);
      var b := BytesOf(w, k);
      assert b[1..] == BytesOf(w[8..], k - 1);
      WordFirst(b);
      assert w == w[..8] + w[8..];
    }
  }

  lemma WordFirst(b: Bytes)
    requires b != []
    ensures WordOf(b) == BitsOf(b[0], 8) + WordOf(b[1..])
  {
  }

  lemma {:induction false} WordSeparates(a: Bytes, b: Bytes, k: nat)
    requires |a| == |b| && k < |a| && a[k] != b[k]
    ensures WordOf(a) != WordOf(b)
    decreases |a|
  {
    hide BitsOf, Value, WordOf;
    WordFirst(a);
    WordFirst(b);
    if WordOf(a) == WordOf(b) {
      assert BitsOf(a[0], 8) == WordOf(a)[..8] == WordOf(b)[..8] == BitsOf(b[0], 8);
      assert WordOf(a[1..]) == WordOf(a)[8..] == WordOf(b)[8..] == WordOf(b[1..]);
      if k > 0 {
        WordSeparates(a[1..], b[1..], k - 1);
      } else {
        assert Pow2(8) == 256;
        ValueOfBits(a[0], 8);
        ValueOfBits(b[0], 8);
      }
    }
  }

  const RDB_VERSION: nat := 11
  const RDB_MAX_LOAD_VERSION: nat := 80

  /** rdbSeal: the version, and the checksum of everything before it. */
  function Seal(payload: Bytes): (blob: Bytes)
  {
    var versioned := payload + [RDB_VERSION % 256, RDB_VERSION / 256];
    versioned + BytesOf(Crc(ZERO_WORD, versioned), 8)
  }

  /** rdbCheckFooter: the body, when version and checksum hold. */
  function CheckFooter(blob: Bytes): (body: Option<Bytes>)
  {
    var n := |blob|;
    if n < 12 then None
    else
      var low: int, high: int := blob[n - 10], blob[n - 9];
      var ver := low + 256 * high;
      if ver == 0 || ver > RDB_MAX_LOAD_VERSION then None
      else if Crc(ZERO_WORD, blob[..n - 8]) != WordOf(blob[n - 8..]) then None
      else Some(blob[..n - 10])
  }

  /** A sealed dump passes, and gives its payload back. */
  lemma SealPasses(payload: Bytes)
    requires |payload| >= 2
    ensures CheckFooter(Seal(payload)) == Some(payload)
  {
    hide Crc, WordOf, BytesOf;
    var versioned := payload + [RDB_VERSION % 256, RDB_VERSION / 256];
    var sum := BytesOf(Crc(ZERO_WORD, versioned), 8);
    var blob := versioned + sum;
    var n := |blob|;
    assert blob[..n - 8] == versioned && blob[n - 8..] == sum && blob[..n - 10] == payload;
    assert blob[n - 10] == 11 && blob[n - 9] == 0;
    WordRoundTrip(Crc(ZERO_WORD, versioned), 8);
  }

  /** A dump that passes stops passing when any one byte of it changes: value, version or checksum. */
  lemma OneByteRejected(blob: Bytes, other: Bytes, k: nat)
    requires CheckFooter(blob).Some? && |other| == |blob| && k < |blob| && other[k] != blob[k]
    requires forall i :: 0 <= i < |blob| && i != k ==> other[i] == blob[i]
    ensures CheckFooter(other) == None
  {
    hide Crc, WordOf;
    var n := |blob|;
    if k < n - 8 {
      CrcSeparates(ZERO_WORD, blob[..n - 8], other[..n - 8], k);
      assert other[n - 8..] == blob[n - 8..];
    } else {
      assert other[..n - 8] == blob[..n - 8];
      WordSeparates(blob[n - 8..], other[n - 8..], k - (n - 8));
    }
  }
}
