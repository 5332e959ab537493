/** The bytes of a HyperLogLog, said without the functions that read and write them (f1srv/hll.go). */
module HllLaws {
  import opened Bytes
  import opened HllDense
  import opened HllSparse
  import opened Hll
  import opened HllCommands

  /** Four registers of six bits are three bytes of eight, lowest first: as numbers the two are equal. */
  lemma GroupIs(reg: Bytes, g: nat)
    requires Packed(reg) && 4 * g + 3 < REGISTERS
    ensures var b0: int, b1: int, b2: int := reg[3 * g], reg[3 * g + 1], reg[3 * g + 2];
            b0 + 256 * b1 + 65536 * b2 ==
            Get(reg, 4 * g) + 64 * Get(reg, 4 * g + 1) + 4096 * Get(reg, 4 * g + 2) + 262144 * Get(reg, 4 * g + 3)
  {
    hide Get;
    GetInGroup(reg, 4 * g);
    GetInGroup(reg, 4 * g + 1);
    GetInGroup(reg, 4 * g + 2);
    GetInGroup(reg, 4 * g + 3);
  }

  /** Eight bits a byte and six a register: that is all a dense sketch holds behind its header. */
  lemma DenseIs(blob: Bytes)
    requires |blob| >= 16 && blob[4] == 0
    ensures Tagged(blob) <==> blob[..4] == [72, 89, 76, 76] && 8 * (|blob| - 16) == 6 * 16384
  {
  }

  /** A count past the int64s is replied as the int64 it is congruent to. */
  lemma SignedIs(n: Word)
    ensures var v := Signed(n); INT64_MIN <= v <= INT64_MAX && (v == n || v == n - 0x1_0000_0000_0000_0000)
  {
  }

  /** The three opcodes: a short run of zeros, a long one, and a run of one value. */
  lemma OpcodesAre(h: nat, low: Byte, v: int, n: int)
    requires h < 64 && 1 <= v <= 32 && 1 <= n <= 4
    ensures Whole([h]) && Expand([h]) == seq(h + 1, _ => 0)
    ensures Whole([64 + h, low]) && Expand([64 + h, low]) == seq(256 * h + low + 1, _ => 0)
    ensures var op := 128 + 4 * (v - 1) + (n - 1); Whole([op]) && Expand([op]) == seq(n, _ => v)
  {
    var op := 128 + 4 * (v - 1) + (n - 1);
    assert [h][1..] == [] && [op][1..] == [] && [64 + h, low][2..] == [];
    Nothing();
  }

  /** A new sketch in its eighteen bytes. */
  lemma CreateIs()
    ensures Create() == [72, 89, 76, 76, 1, 0, 0, 0, 0, 0, 0, 0, 0, 0, 0, 0, 0x7f, 0xff]
  {
    assert Zeros(11) == [0, 0, 0, 0, 0, 0, 0, 0, 0, 0, 0];
  }

  /** The cached cardinality is eight bytes, least significant first, and valid while the top bit is clear. */
  lemma CacheIs(blob: Bytes, card: Word, i: nat)
    requires |blob| >= 16 && i < 8
    ensures WriteCache(blob, card)[8 + i] == card / Pow256(i) % 256
    ensures CacheValid(WriteCache(blob, card)) <==> card < 0x8000_0000_0000_0000
    ensures CacheValid(blob) <==> blob[15] / 128 == 0
    ensures Invalidate(blob) == blob[15 := blob[15] % 128 + 128]
  {
    hide Le;
    LeAt(card, 8, i);
    LeAt(card, 8, 7);
    Pow256Of7();
    assert WriteCache(blob, card)[8 + i] == Le(card, 8)[i] && WriteCache(blob, card)[15] == Le(card, 8)[7];
    assert blob[15] >= 128 ==> blob[15 := blob[15]] == blob;
  }

  lemma Pow256Of7()
    ensures Pow256(7) == 0x100_0000_0000_0000
  {
    Pow256Values();
    assert Pow256(8) == 256 * Pow256(7);
  }
}
