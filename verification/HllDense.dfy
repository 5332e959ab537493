/** The packed array of six-bit registers of a dense HyperLogLog (f1srv/hll.go). */
module HllDense {
  import opened Bytes

  const REGISTERS: int := 16384
  const REGISTER_MAX: int := 63
  const DENSE_BYTES: int := 12288

  /** A register value per index. */
  type Vector = seq<int>

  predicate Packed(reg: Bytes)
  {
    |reg| == DENSE_BYTES
  }

  /** The first byte a register touches, and the bits of it that belong to earlier registers. */
  function FirstByte(regnum: int): (b: int) { regnum * 6 / 8 }

  /** Two to the number of bits of the first byte below the register. */
  function Below(regnum: int): (p: int)
    requires 0 <= regnum
    ensures p == 1 || p == 4 || p == 16 || p == 64
  {
    var fb := regnum * 6 % 8;
    if fb == 0 then 1 else if fb == 2 then 4 else if fb == 4 then 16 else 64
  }

  /** The six bits of a register: the first byte shifted down by its lower neighbours, and as many low
      bits of the second byte as the six still lack. */
  function Joined(b0: Byte, b1: Byte, p: int): (v: int)
    requires p == 1 || p == 4 || p == 16 || p == 64
    ensures 0 <= v <= REGISTER_MAX
  {
    if p == 1 then b0 % 64
    else if p == 4 then b0 / 4
    else if p == 16 then b0 / 16 + b1 % 4 * 16
    else b0 / 64 + b1 % 16 * 4
  }

  /** hllDenseGetRegister. */
  function Get(reg: Bytes, regnum: int): (v: int)
    requires Packed(reg) && 0 <= regnum < REGISTERS
    ensures 0 <= v <= REGISTER_MAX
  {
    var b := FirstByte(regnum);
    var p := Below(regnum);
    var b1: Byte := if b + 1 < |reg| then reg[b + 1] else 0;
    Joined(reg[b], b1, p)
  }

  /** The low byte with the register's bits replaced. */
  function LowByte(was: Byte, v: int, p: int): (b: Byte)
    requires 0 <= v <= REGISTER_MAX && (p == 1 || p == 4 || p == 16 || p == 64)
  {
    if p == 1 then was / 64 * 64 + v
    else if p == 4 then was % 4 + v * 4
    else if p == 16 then was % 16 + v % 16 * 16
    else was % 64 + v % 4 * 64
  }

  /** The high byte with the register's spilled bits replaced. */
  function HighByte(was: Byte, v: int, p: int): (b: Byte)
    requires 0 <= v <= REGISTER_MAX && (p == 1 || p == 4 || p == 16 || p == 64)
  {
    if p == 16 then was / 4 * 4 + v / 16
    else if p == 64 then was / 16 * 16 + v / 4
    else was
  }

  /** hllDenseSetRegister. */
  function Set(reg: Bytes, regnum: int, v: int): (reg': Bytes)
    requires Packed(reg) && 0 <= regnum < REGISTERS && 0 <= v <= REGISTER_MAX
    ensures Packed(reg')
  {
    var b := FirstByte(regnum);
    var p := Below(regnum);
    var low := reg[b := LowByte(reg[b], v, p)];
    if b + 1 < |reg| then low[b + 1 := HighByte(low[b + 1], v, p)] else low
  }

  /** The vector a packed array stands for. */
  function Unpack(reg: Bytes): (r: Vector)
    requires Packed(reg)
    ensures |r| == REGISTERS
    ensures forall i :: 0 <= i < REGISTERS ==> r[i] == Get(reg, i)
  {
    seq(REGISTERS, i requires 0 <= i < REGISTERS => Get(reg, i))
  }

  /** Registers sit four to three bytes. */
  lemma Place(regnum: int)
    requires 0 <= regnum < REGISTERS
    ensures var g := regnum / 4;
            match regnum % 4
            case 0 => FirstByte(regnum) == 3 * g && Below(regnum) == 1
            case 1 => FirstByte(regnum) == 3 * g && Below(regnum) == 64
            case 2 => FirstByte(regnum) == 3 * g + 1 && Below(regnum) == 16
            case _ => FirstByte(regnum) == 3 * g + 2 && Below(regnum) == 4
  {
    var g, k := regnum / 4, regnum % 4;
    assert regnum * 6 == 24 * g + 6 * k;
  }

  /** A register read off the three bytes of its group. */
  function InGroup(b0: Byte, b1: Byte, b2: Byte, k: int): (v: int)
  {
    if k == 0 then b0 % 64
    else if k == 1 then b0 / 64 + b1 % 16 * 4
    else if k == 2 then b1 / 16 + b2 % 4 * 16
    else b2 / 4
  }

  lemma GetInGroup(reg: Bytes, i: int)
    requires Packed(reg) && 0 <= i < REGISTERS
    ensures Get(reg, i) == InGroup(reg[i / 4 * 3], reg[i / 4 * 3 + 1], reg[i / 4 * 3 + 2], i % 4)
  {
    hide FirstByte, Below;
    Place(i);
  }

  /** The bytes of a group after one of its registers is written. */
  function GroupSet(b0: Byte, b1: Byte, b2: Byte, k: int, v: int): (b: (Byte, Byte, Byte))
    requires 0 <= v <= REGISTER_MAX && 0 <= k < 4
  {
    if k == 0 then (LowByte(b0, v, 1), b1, b2)
    else if k == 1 then (LowByte(b0, v, 64), HighByte(b1, v, 64), b2)
    else if k == 2 then (b0, LowByte(b1, v, 16), HighByte(b2, v, 16))
    else (b0, b1, LowByte(b2, v, 4))
  }

  lemma GroupSetUpdates(b0: Byte, b1: Byte, b2: Byte, k: int, v: int, j: int)
    requires 0 <= v <= REGISTER_MAX && 0 <= k < 4 && 0 <= j < 4
    ensures var b := GroupSet(b0, b1, b2, k, v);
            InGroup(b.0, b.1, b.2, j) == if j == k then v else InGroup(b0, b1, b2, j)
  {
    if k == 0 {
      assert (b0 / 64 * 64 + v) / 64 == b0 / 64;
    } else if k == 1 {
      assert (b0 % 64 + v % 4 * 64) / 64 == v % 4;
      assert (b1 / 16 * 16 + v / 4) / 16 == b1 / 16;
    } else if k == 2 {
      assert (b1 % 16 + v % 16 * 16) / 16 == v % 16;
      assert (b2 / 4 * 4 + v / 16) / 4 == b2 / 4;
    }
  }

  /** A write stays within the group. */
  lemma SetInGroup(reg: Bytes, r: int, v: int)
    requires Packed(reg) && 0 <= r < REGISTERS && 0 <= v <= REGISTER_MAX
    ensures var g := r / 4 * 3; var reg' := Set(reg, r, v);
            && (forall j :: 0 <= j < DENSE_BYTES && !(g <= j < g + 3) ==> reg'[j] == reg[j])
            && (reg'[g], reg'[g + 1], reg'[g + 2]) == GroupSet(reg[g], reg[g + 1], reg[g + 2], r % 4, v)
  {
    hide FirstByte, Below, LowByte;
    Place(r);
  }

  /** Writing a register changes that register and no other. */
  lemma SetUpdates(reg: Bytes, r: int, v: int)
    requires Packed(reg) && 0 <= r < REGISTERS && 0 <= v <= REGISTER_MAX
    ensures Unpack(Set(reg, r, v)) == Unpack(reg)[r := v]
  {
    hide Get, Set, InGroup, GroupSet;
    var reg' := Set(reg, r, v);
    forall i | 0 <= i < REGISTERS
      ensures Get(reg', i) == if i == r then v else Get(reg, i)
    {
      GetInGroup(reg, i);
      GetInGroup(reg', i);
      SetInGroup(reg, r, v);
      var g := r / 4 * 3;
      GroupSetUpdates(reg[g], reg[g + 1], reg[g + 2], r % 4, v, i % 4);
    }
  }

  /** The all-zero array holds all-zero registers. */
  lemma UnpackZero(reg: Bytes)
    requires Packed(reg) && forall j :: 0 <= j < |reg| ==> reg[j] == 0
    ensures forall i :: 0 <= i < REGISTERS ==> Unpack(reg)[i] == 0
  {
    hide Get;
    forall i | 0 <= i < REGISTERS ensures Get(reg, i) == 0 { GetInGroup(reg, i); }
  }
}
