/** Moves between geohash cells, by carries across interleaved bits, and score boxes (f1srv/geo.go). */
module GeoCells {
  import opened Digits
  import opened Powers
  import opened Division
  import opened Words
  import opened Geo

  /** Two bits at a time: the lower and upper bit of each operand. */
  lemma BothDigit(m: nat, b0: nat, b1: nat, n: nat, c0: nat, c1: nat)
    requires b0 <= 1 && b1 <= 1 && c0 <= 1 && c1 <= 1
    ensures Both(4 * m + 2 * b1 + b0, 4 * n + 2 * c1 + c0)
         == 4 * Both(m, n) + (if b1 == 1 && c1 == 1 then 2 else 0) + (if b0 == 1 && c0 == 1 then 1 else 0)
  {
    hide Both;
    BothBit(2 * m + b1, b0, 2 * n + c1, c0);
    BothBit(m, b1, n, c1);
  }

  lemma EitherDigit(m: nat, b0: nat, b1: nat, n: nat, c0: nat, c1: nat)
    requires b0 <= 1 && b1 <= 1 && c0 <= 1 && c1 <= 1
    ensures Either(4 * m + 2 * b1 + b0, 4 * n + 2 * c1 + c0)
         == 4 * Either(m, n) + (if b1 == 1 || c1 == 1 then 2 else 0) + (if b0 == 1 || c0 == 1 then 1 else 0)
  {
    hide Either;
    EitherBit(2 * m + b1, b0, 2 * n + c1, c0);
    EitherBit(m, b1, n, c1);
  }

  /** The low k bits of n, two places each. */
  function Sp(n: nat, k: nat): (z: nat)
  {
    if k == 0 then 0 else Low(n) + 4 * Sp(Rest(n), k - 1)
  }

  /** k pairs of bits 01: 0x5555... cut to 2k bits. */
  function Fives(k: nat): (n: nat)
  {
    if k == 0 then 0 else 1 + 4 * Fives(k - 1)
  }

  /** A coordinate's bits at its place: the even bits, or the odd. */
  function Place(odd: bool, n: nat): (z: nat)
    ensures z >= n
  {
    if odd then 2 * n else n
  }

  lemma PlaceSum(odd: bool, b: nat, s: nat)
    ensures Place(odd, b + 4 * s) == Place(odd, b) + 4 * Place(odd, s) && Place(odd, 0) == 0
  {
  }

  /** A cell: latitude in the even bits, longitude in the odd. */
  function Morton(lat: nat, lon: nat, k: nat): (z: nat)
  {
    Sp(lat, k) + 2 * Sp(lon, k)
  }

  lemma SpStep(n: nat, k: nat)
    requires k > 0
    ensures Sp(n, k) == Low(n) + 4 * Sp(Rest(n), k - 1) && Fives(k) == 1 + 4 * Fives(k - 1)
  {
  }

  lemma SpNone(n: nat)
    ensures Sp(n, 0) == 0 && Fives(0) == 0
  {
  }

  /** Masking a cell leaves one coordinate. */
  lemma {:induction false} BothMorton(lat: nat, lon: nat, k: nat, n: nat, odd: bool)
    requires k <= n
    ensures Both(Morton(lat, lon, k), Place(odd, Fives(n))) == Place(odd, Sp(if odd then lon else lat, k))
  {
    hide Both, Low, Rest, Sp, Fives;
    if k == 0 {
      SpNone(lat);
      SpNone(lon);
      BothZero(0, Place(odd, Fives(n)));
    } else {
      SpStep(lat, k);
      SpStep(lon, k);
      SpStep(lon, n);
      var m, f := Morton(Rest(lat), Rest(lon), k - 1), Place(odd, Fives(n - 1));
      BothDigit(m, Low(lat), Low(lon), f, if odd then 0 else 1, if odd then 1 else 0);
      BothMorton(Rest(lat), Rest(lon), k - 1, n - 1, odd);
    }
  }

  /** Two coordinates join into a cell. */
  lemma {:induction false} EitherMorton(lat: nat, lon: nat, k: nat)
    ensures Either(2 * Sp(lon, k), Sp(lat, k)) == Morton(lat, lon, k)
    ensures Either(Sp(lat, k), 2 * Sp(lon, k)) == Morton(lat, lon, k)
  {
    hide Low, Rest, Sp, Either;
    if k == 0 {
      SpNone(lat);
      SpNone(lon);
      assert Either(0, 0) == 0 by { EitherZero(0); }
    } else {
      SpStep(lat, k);
      SpStep(lon, k);
      var x, y := Sp(Rest(lat), k - 1), 2 * Sp(Rest(lon), k - 1);
      EitherDigit(y, 0, Low(lon), x, Low(lat), 0);
      EitherDigit(x, Low(lat), 0, y, 0, Low(lon));
      EitherMorton(Rest(lat), Rest(lon), k - 1);
    }
  }

  /** Adding c to a number with k bits, wrapping. */
  function Plus(n: nat, c: nat, k: nat): (m: nat) { (n + c) % Pow2(k) }

  lemma PlusParts(n: nat, c: nat, k: nat)
    requires k > 0 && c <= 1
    ensures var carry := if Low(n) == 1 then c else 0;
            && Low(Plus(n, c, k)) == (if c == 1 then 1 - Low(n) else Low(n))
            && Rest(Plus(n, c, k)) == Plus(Rest(n), carry, k - 1)
  {
    var h, carry := Pow2(k - 1), if Low(n) == 1 then c else 0;
    Parts(n);
    hide Low, Rest;
    ModTwice(Rest(n) + carry, if c == 1 then 1 - Low(n) else Low(n), h);
    PartsUnique((Rest(n) + carry) % h, if c == 1 then 1 - Low(n) else Low(n));
  }

  lemma ModTwice(s: nat, b: nat, h: nat)
    requires h >= 1 && b <= 1
    ensures (2 * s + b) % (2 * h) == 2 * (s % h) + b
  {
    var q, r := s / h, s % h;
    DivBounds(s, h);
    assert s == q * h + r;
    assert q * (2 * h) == 2 * (q * h);
    DivUnique(q, 2 * r + b, 2 * h);
  }

  /** Adding through the gaps: the other coordinate's ones carry along. */
  lemma {:induction false} AddThrough(n: nat, k: nat, odd: bool, c: nat)
    requires c <= 1
    ensures Both(Place(odd, Sp(n, k)) + Place(!odd, Fives(k)) + c, Place(odd, Fives(k))) == Place(odd, Sp(Plus(n, c, k), k))
  {
    hide Low, Rest, Plus, Both, Sp, Fives;
    if k == 0 {
      SpNone(n);
      SpNone(Plus(n, c, k));
      BothZero(c, 0);
    } else {
      SpStep(n, k);
      SpStep(Plus(n, c, k), k);
      var carry := if Low(n) == 1 then c else 0;
      var rest := Place(odd, Sp(Rest(n), k - 1)) + Place(!odd, Fives(k - 1)) + carry;
      var bit := if c == 1 then 1 - Low(n) else Low(n);
      var other := if odd then 1 - c else if c == 1 && Low(n) == 1 then 0 else 1;
      PlusParts(n, c, k);
      AddThrough(Rest(n), k - 1, odd, carry);
      if odd {
        BothDigit(rest, other, bit, Place(odd, Fives(k - 1)), 0, 1);
      } else {
        BothDigit(rest, bit, other, Place(odd, Fives(k - 1)), 1, 0);
      }
    }
  }

  lemma {:induction false} SpPositive(n: nat, k: nat)
    requires 0 < n < Pow2(k)
    ensures k > 0 && Sp(n, k) > 0
  {
    Parts(n);
    if Low(n) == 0 { SpPositive(Rest(n), k - 1); }
  }

  lemma LessParts(n: nat)
    requires n > 0
    ensures Low(n) == 1 ==> Low(n - 1) == 0 && Rest(n - 1) == Rest(n)
    ensures Low(n) == 0 ==> Low(n - 1) == 1 && Rest(n) > 0 && Rest(n - 1) == Rest(n) - 1
  {
    Parts(n);
    if Low(n) == 1 { PartsUnique(Rest(n), 0); } else { PartsUnique(Rest(n) - 1, 1); }
  }

  /** Taking one away borrows through the zeros. */
  lemma {:induction false} TakeThrough(n: nat, k: nat, odd: bool)
    requires 0 < n < Pow2(k)
    ensures Sp(n, k) > 0
    ensures Both(Place(odd, Sp(n, k)) - 1, Place(odd, Fives(k))) == Place(odd, Sp(n - 1, k))
  {
    SpPositive(n, k);
    HalfBelow(n, k);
    LessParts(n);
    hide Both, Fives, Place, Low, Rest, Sp;
    if Low(n) == 1 {
      TakeLow(n, k, odd);
    } else {
      TakeThrough(Rest(n), k - 1, odd);
      TakeBorrow(n, k, odd);
    }
  }

  lemma TakeLow(n: nat, k: nat, odd: bool)
    requires k > 0 && Low(n) == 1 && n > 0 && Sp(n, k) > 0
    ensures Both(Place(odd, Sp(n, k)) - 1, Place(odd, Fives(k))) == Place(odd, Sp(n - 1, k))
  {
    hide Both, Fives, Place, Low, Rest, Sp;
    LessParts(n);
    SpStep(n, k);
    SpStep(n - 1, k);
    PlaceSum(odd, 0, Sp(Rest(n), k - 1));
    BothOwn(Rest(n), k - 1, odd);
    TakeFromOne(odd, Sp(Rest(n), k - 1), Fives(k - 1));
  }

  lemma TakeBorrow(n: nat, k: nat, odd: bool)
    requires k > 0 && Low(n) == 0 && n > 0 && Rest(n) > 0 && Sp(n, k) > 0 && Sp(Rest(n), k - 1) > 0
    requires Both(Place(odd, Sp(Rest(n), k - 1)) - 1, Place(odd, Fives(k - 1))) == Place(odd, Sp(Rest(n) - 1, k - 1))
    ensures Both(Place(odd, Sp(n, k)) - 1, Place(odd, Fives(k))) == Place(odd, Sp(n - 1, k))
  {
    hide Both, Fives, Place, Low, Rest, Sp;
    LessParts(n);
    SpStep(n, k);
    SpStep(n - 1, k);
    PlaceSum(odd, 1, Sp(Rest(n) - 1, k - 1));
    TakeFromZero(odd, Sp(Rest(n), k - 1), Fives(k - 1));
  }

  lemma BothOwn(n: nat, k: nat, odd: bool)
    ensures Both(Place(odd, Sp(n, k)), Place(odd, Fives(k))) == Place(odd, Sp(n, k))
  {
    hide Both, Fives, Sp;
    SpZero(k);
    BothMorton(if odd then 0 else n, if odd then n else 0, k, k, odd);
  }

  lemma TakeFromOne(odd: bool, s: nat, f: nat)
    ensures Both(Place(odd, 1 + 4 * s) - 1, Place(odd, 1 + 4 * f)) == 4 * Both(Place(odd, s), Place(odd, f))
  {
    hide Both;
    if odd { BothDigit(2 * s, 1, 0, 2 * f, 0, 1); } else { BothDigit(s, 0, 0, f, 1, 0); }
  }

  lemma TakeFromZero(odd: bool, s: nat, f: nat)
    requires s > 0
    ensures Both(Place(odd, 0 + 4 * s) - 1, Place(odd, 1 + 4 * f)) == Place(odd, 1) + 4 * Both(Place(odd, s) - 1, Place(odd, f))
  {
    hide Both;
    if odd { BothDigit(2 * s - 1, 1, 1, 2 * f, 0, 1); } else { BothDigit(s - 1, 1, 1, f, 1, 0); }
  }

  lemma HalfBelow(n: nat, k: nat)
    requires k > 0 && n < Pow2(k)
    ensures Rest(n) < Pow2(k - 1)
  {
    Parts(n);
  }

  lemma {:induction false} SpZero(k: nat)
    ensures Sp(0, k) == 0
  {
    if k > 0 {
      assert Rest(0) == 0 && Low(0) == 0;
      SpZero(k - 1);
    }
  }

  const WORD: nat := 0x1_0000_0000_0000_0000

  function Pow4(k: nat): (p: nat)
    ensures p >= 1
  {
    if k == 0 then 1 else 4 * Pow4(k - 1)
  }

  lemma TimesFour(a: nat, b: nat)
    ensures 4 * (a * b) == a * (4 * b)
  {
  }

  /** A word with 2k bits kept: the high bits shifted out. */
  lemma {:induction false} FivesHigh(k: nat, j: nat)
    ensures Fives(k + j) == Fives(k) * Pow4(j) + Fives(j) && 3 * Fives(j) < Pow4(j)
  {
    if j > 0 {
      FivesHigh(k, j - 1);
      TimesFour(Fives(k), Pow4(j - 1));
    }
  }

  /** The masks of a step: 0x5555... and 0xAAAA... shifted down to 2k bits. */
  lemma MaskShift(k: nat)
    requires k <= 32
    ensures Fives(32) / Pow4(32 - k) == Fives(k) && 2 * Fives(32) / Pow4(32 - k) == 2 * Fives(k)
  {
    hide Fives, Pow4;
    var j := 32 - k;
    FivesHigh(k, j);
    DivUnique(Fives(k), Fives(j), Pow4(j));
    assert 2 * Fives(32) == (2 * Fives(k)) * Pow4(j) + 2 * Fives(j) by {
      assert (2 * Fives(k)) * Pow4(j) == 2 * (Fives(k) * Pow4(j));
    }
    DivUnique(2 * Fives(k), 2 * Fives(j), Pow4(j));
  }

  /** Bits past the mask do not matter. */
  lemma {:induction false} BothMod(x: nat, k: nat, n: nat, odd: bool)
    requires k <= n
    ensures Both(x % Pow4(n), Place(odd, Fives(k))) == Both(x, Place(odd, Fives(k)))
  {
    hide Both, Low, Rest, Fives, Pow4;
    if k == 0 {
      SpNone(0);
      BothZero(x, 0);
      BothZero(x % Pow4(n), 0);
    } else {
      var m, b1, b0 := FourParts(x);
      ModFour(m, b1, b0, n);
      SpStep(0, k);
      BothMod(m, k - 1, n - 1, odd);
      var f := Fives(k - 1);
      if odd {
        BothDigit(m, b0, b1, 2 * f, 0, 1);
        BothDigit(m % Pow4(n - 1), b0, b1, 2 * f, 0, 1);
      } else {
        BothDigit(m, b0, b1, f, 1, 0);
        BothDigit(m % Pow4(n - 1), b0, b1, f, 1, 0);
      }
    }
  }

  lemma FourParts(x: nat) returns (m: nat, b1: nat, b0: nat)
    ensures x == 4 * m + 2 * b1 + b0 && b1 <= 1 && b0 <= 1 && (x > 0 ==> m < x)
  {
    Parts(x);
    Parts(Rest(x));
    m, b1, b0 := Rest(Rest(x)), Low(Rest(x)), Low(x);
  }

  lemma ModFour(m: nat, b1: nat, b0: nat, n: nat)
    requires n > 0 && b1 <= 1 && b0 <= 1
    ensures (4 * m + 2 * b1 + b0) % Pow4(n) == 4 * (m % Pow4(n - 1)) + 2 * b1 + b0
  {
    var h := Pow4(n - 1);
    ModTwice(m, b1, h);
    ModTwice(2 * m + b1, b0, 2 * h);
  }

  lemma WordIs()
    ensures Pow4(32) == WORD
  {
    assert Pow4(4) == 256;
    assert Pow4(8) == 256 * Pow4(4);
    assert Pow4(12) == 256 * Pow4(8) && Pow4(16) == 256 * Pow4(12);
    assert Pow4(20) == 256 * Pow4(16) && Pow4(24) == 256 * Pow4(20);
    assert Pow4(28) == 256 * Pow4(24) && Pow4(32) == 256 * Pow4(28);
  }

  /** A mask shifted down to a step's bits; a sum in a 64-bit word. */
  function Shifted(mask: nat, step: nat): (m: nat)
    requires step <= 32
  {
    Div(mask, Pow4(32 - step))
  }

  function Wrapped(x: int): (w: nat) { x % WORD }

  /** geohashMoveX and geohashMoveY on the bits: the longitude lies in the odd bits, the latitude in the even. */
  function Moved(bits: nat, step: nat, odd: bool, up: bool): (bits': nat)
    requires step <= 32
  {
    var mine, other := Both(bits, Place(odd, Fives(32))), Both(bits, Place(!odd, Fives(32)));
    var zz := Shifted(Place(!odd, Fives(32)), step);
    var sum := if up then Wrapped(mine + (zz + 1)) else Wrapped(Either(mine, zz) - (zz + 1));
    Either(Both(sum, Shifted(Place(odd, Fives(32)), step)), other)
  }

  /** A step along one coordinate, round the torus. */
  function Stepped(n: nat, k: nat, up: bool): (m: nat)
  {
    if up then Plus(n, 1, k) else if n == 0 then Pow2(k) - 1 else n - 1
  }

  lemma StepUp(n: nat, p: nat)
    requires n < p
    ensures (n + 1) % p == if n + 1 == p then 0 else n + 1
  {
    if n + 1 == p { DivUnique(1, 0, p); } else { DivUnique(0, n + 1, p); }
  }

  lemma SteppedBelow(n: nat, k: nat, up: bool)
    requires n < Pow2(k)
    ensures Stepped(n, k, up) < Pow2(k)
    ensures Stepped(Stepped(n, k, up), k, !up) == n
  {
    var p := Pow2(k);
    hide Pow2;
    StepUp(if up then n else Stepped(n, k, false), p);
  }

  lemma {:induction false} OnesSp(k: nat)
    ensures Sp(Pow2(k) - 1, k) == Fives(k)
  {
    if k > 0 {
      PartsUnique(Pow2(k - 1) - 1, 1);
      OnesSp(k - 1);
    }
  }

  lemma {:induction false} BothOnes(k: nat, n: nat, odd: bool)
    requires k <= n
    ensures Both(Pow4(n) - 1, Place(odd, Fives(k))) == Place(odd, Fives(k))
  {
    if k == 0 {
      BothZero(Pow4(n) - 1, 0);
    } else {
      BothOnes(k - 1, n - 1, odd);
      BothOnesStep(k - 1, n - 1, odd);
    }
  }

  lemma BothOnesStep(k: nat, n: nat, odd: bool)
    requires Both(Pow4(n) - 1, Place(odd, Fives(k))) == Place(odd, Fives(k))
    ensures Both(Pow4(n + 1) - 1, Place(odd, Fives(k + 1))) == Place(odd, Fives(k + 1))
  {
    var f, m := Fives(k), Pow4(n) - 1;
    assert Pow4(n + 1) == 4 * Pow4(n) && Fives(k + 1) == 4 * f + 1;
    hide Both, Fives, Pow4;
    assert Pow4(n + 1) - 1 == 4 * m + 2 + 1;
    if odd { BothDigit(m, 1, 1, 2 * f, 0, 1); } else { BothDigit(m, 1, 1, f, 1, 0); }
  }

  lemma ShiftedIs(odd: bool, k: nat)
    requires k <= 32
    ensures Shifted(Place(odd, Fives(32)), k) == Place(odd, Fives(k))
  {
    hide Fives, Pow4;
    MaskShift(k);
  }

  lemma WrappedMask(x: nat, k: nat, odd: bool)
    requires k <= 32
    ensures Both(Wrapped(x), Place(odd, Fives(k))) == Both(x, Place(odd, Fives(k)))
  {
    hide Both, Fives, Pow4;
    WordIs();
    BothMod(x, k, 32, odd);
  }

  /** The moved coordinate, before it joins the other. */
  lemma MovedUp(n: nat, k: nat, odd: bool)
    requires k <= 32
    ensures var mine, zz := Place(odd, Sp(n, k)), Place(!odd, Fives(k));
            Both(Wrapped(mine + (zz + 1)), Place(odd, Fives(k))) == Place(odd, Sp(Stepped(n, k, true), k))
  {
    hide Both, Fives, Sp, Place, Plus, Wrapped;
    var mine, zz := Place(odd, Sp(n, k)), Place(!odd, Fives(k));
    WrappedMask(mine + (zz + 1), k, odd);
    AddThrough(n, k, odd, 1);
    assert mine + (zz + 1) == mine + zz + 1;
  }

  lemma MovedDown(n: nat, k: nat, odd: bool)
    requires k <= 32 && n < Pow2(k)
    ensures var mine, zz := Place(odd, Sp(n, k)), Place(!odd, Fives(k));
            Both(Wrapped(Either(mine, zz) - (zz + 1)), Place(odd, Fives(k))) == Place(odd, Sp(Stepped(n, k, false), k))
  {
    hide Both, Fives, Sp, Either, Pow2;
    var mine, zz := Place(odd, Sp(n, k)), Place(!odd, Fives(k));
    OnesSp(k);
    EitherMorton(if odd then Pow2(k) - 1 else n, if odd then n else Pow2(k) - 1, k);
    assert Either(mine, zz) == mine + zz;
    if n == 0 {
      SpZero(k);
      hide Pow4;
      WordIs();
      BothOnes(k, 32, odd);
    } else {
      SpPositive(n, k);
      TakeThrough(n, k, odd);
      WrappedMask(mine - 1, k, odd);
    }
  }

  /** A move changes one coordinate by one, round the torus, and leaves the other. */
  lemma MovedIs(lat: nat, lon: nat, k: nat, odd: bool, up: bool)
    requires k <= 32 && lat < Pow2(k) && lon < Pow2(k)
    ensures Moved(Morton(lat, lon, k), k, odd, up)
         == if odd then Morton(lat, Stepped(lon, k, up), k) else Morton(Stepped(lat, k, up), lon, k)
  {
    hide Both, Fives, Sp, Either, Pow2, Morton, Stepped, Shifted, Wrapped;
    BothMorton(lat, lon, k, 32, odd);
    BothMorton(lat, lon, k, 32, !odd);
    ShiftedIs(odd, k);
    ShiftedIs(!odd, k);
    var n := if odd then lon else lat;
    MovedUp(n, k, odd);
    MovedDown(n, k, odd);
    var m := Stepped(n, k, up);
    EitherMorton(if odd then lat else m, if odd then m else lon, k);
  }

  /** Opposite moves cancel. */
  lemma MovesCancel(lat: nat, lon: nat, k: nat, odd: bool, up: bool)
    requires k <= 32 && lat < Pow2(k) && lon < Pow2(k)
    ensures Moved(Moved(Morton(lat, lon, k), k, odd, up), k, odd, !up) == Morton(lat, lon, k)
  {
    hide Moved, Morton, Stepped, Pow2;
    var n := if odd then lon else lat;
    SteppedBelow(n, k, up);
    MovedIs(lat, lon, k, odd, up);
    var m := Stepped(n, k, up);
    MovedIs(if odd then lat else m, if odd then m else lon, k, odd, !up);
  }

  /** A cell and its precision. */
  class GeoHash {
    var bits: nat
    var step: nat

    constructor (bits: nat, step: nat)
      ensures this.bits == bits && this.step == step
    {
      this.bits, this.step := bits, step;
    }

    /** geohashMoveX. */
    method MoveX(d: int)
      requires step <= 32
      modifies this`bits
      ensures bits == if d == 0 then old(bits) else Moved(old(bits), step, true, d > 0)
    {
      if d != 0 { bits := Moved(bits, step, true, d > 0); }
    }

    /** geohashMoveY. */
    method MoveY(d: int)
      requires step <= 32
      modifies this`bits
      ensures bits == if d == 0 then old(bits) else Moved(old(bits), step, false, d > 0)
    {
      if d != 0 { bits := Moved(bits, step, false, d > 0); }
    }
  }

  /** A coordinate one up, one down, or where it was. */
  function Shift(n: nat, k: nat, d: int): (m: nat)
  {
    if d == 0 then n else Stepped(n, k, d > 0)
  }

  /** One of the eight neighbours: the cell beside a cell of the torus. */
  method Neighbor(lat: nat, lon: nat, step: nat, dx: int, dy: int) returns (h: GeoHash)
    requires step <= 32 && lat < Pow2(step) && lon < Pow2(step)
    ensures fresh(h) && h.step == step && h.bits == Morton(Shift(lat, step, dy), Shift(lon, step, dx), step)
  {
    hide Moved, Morton, Stepped, Pow2;
    h := new GeoHash(Morton(lat, lon, step), step);
    h.MoveX(dx);
    SteppedBelow(lon, step, dx > 0);
    MovedIs(lat, lon, step, true, dx > 0);
    var lon' := Shift(lon, step, dx);
    h.MoveY(dy);
    MovedIs(lat, lon', step, false, dy > 0);
  }

  /** The eight cells round a cell. */
  datatype Around = Around(east: GeoHash, west: GeoHash, south: GeoHash, north: GeoHash,
                           northWest: GeoHash, northEast: GeoHash, southEast: GeoHash, southWest: GeoHash)

  /** geohashNeighbors. */
  method Neighbors(lat: nat, lon: nat, step: nat) returns (n: Around)
    requires step <= 32 && lat < Pow2(step) && lon < Pow2(step)
    ensures var up, down, right, left :=
              Stepped(lat, step, true), Stepped(lat, step, false), Stepped(lon, step, true), Stepped(lon, step, false);
            && n.east.bits == Morton(lat, right, step) && n.west.bits == Morton(lat, left, step)
            && n.south.bits == Morton(down, lon, step) && n.north.bits == Morton(up, lon, step)
            && n.northWest.bits == Morton(up, left, step) && n.northEast.bits == Morton(up, right, step)
            && n.southEast.bits == Morton(down, right, step) && n.southWest.bits == Morton(down, left, step)
  {
    hide Morton, Stepped, Pow2;
    var east := Neighbor(lat, lon, step, 1, 0);
    var west := Neighbor(lat, lon, step, -1, 0);
    var south := Neighbor(lat, lon, step, 0, -1);
    var north := Neighbor(lat, lon, step, 0, 1);
    var northWest := Neighbor(lat, lon, step, -1, 1);
    var northEast := Neighbor(lat, lon, step, 1, 1);
    var southEast := Neighbor(lat, lon, step, 1, -1);
    var southWest := Neighbor(lat, lon, step, -1, -1);
    n := Around(east, west, south, north, northWest, northEast, southEast, southWest);
  }

  /** geohashAlign52Bits. */
  function Align(bits: nat, step: nat): (score: nat)
    requires step <= 26
  {
    bits * Pow4(26 - step)
  }

  /** scoresOfGeoHashBox: a score lies in the box exactly when its top 2 * step bits are the cell's. */
  lemma BoxIs(bits: nat, step: nat, score: nat)
    requires step <= 26
    ensures Align(bits, step) <= score < Align(bits + 1, step) <==> score / Pow4(26 - step) == bits
  {
    hide Pow4;
    var p := Pow4(26 - step);
    assert (bits + 1) * p == bits * p + p;
    DivBounds(score, p);
    if bits * p <= score < (bits + 1) * p {
      DivAtLeast(score, p, bits);
      DivLess(score, p, bits + 1);
    }
  }

  /** The interleaved word is the cell: the bit tricks and the arithmetic agree. */
  lemma InterleaveIsMorton(lat: nat, lon: nat)
    requires lat < Pow2(32) && lon < Pow2(32)
    ensures Value(Interleave(BitsOf(lat, 32), BitsOf(lon, 32))) == Morton(lat, lon, 32)
  {
    hide Interleave, BitsOf, Pow2;
    InterleaveIs(BitsOf(lat, 32), BitsOf(lon, 32));
    ValueMorton(Interleave(BitsOf(lat, 32), BitsOf(lon, 32)), lat, lon, 32);
  }

  lemma {:induction false} ValueMorton(w: Bits, lat: nat, lon: nat, k: nat)
    requires |w| == 2 * k
    requires forall p :: 0 <= p < 2 * k ==> w[p] == if p % 2 == 0 then BitsOf(lat, k)[p / 2] else BitsOf(lon, k)[p / 2]
    ensures Value(w) == Morton(lat, lon, k)
  {
    if k > 0 {
      var v := w[2..];
      var a, b := BitsOf(lat, k), BitsOf(lon, k);
      var a', b' := BitsOf(Rest(lat), k - 1), BitsOf(Rest(lon), k - 1);
      assert a[1..] == a' && b[1..] == b';
      forall p | 0 <= p < 2 * (k - 1) ensures v[p] == if p % 2 == 0 then a'[p / 2] else b'[p / 2] {
        assert (p + 2) / 2 == p / 2 + 1 && (p + 2) % 2 == p % 2;
        assert v[p] == w[p + 2];
      }
      ValueMorton(v, Rest(lat), Rest(lon), k - 1);
      assert w[1..][1..] == v;
      assert w[0] == (Low(lat) == 1) && w[1] == (Low(lon) == 1);
    }
  }
}
