/**
 * Coils are single bits packed sixteen to a register of the slave's table:
 * coil number a lives in bit a % 16 of register a / 16. The engine computes
 * the coil number of the c-th coil of a request as a uint16_t sum and the
 * register index as a uint8_t, and packs coils into frame bytes least
 * significant bit first (function codes 1, 2 and 15).
 */
module Coils {
  import opened Bits

  /** Register index of the c-th coil of a run starting at coil s (uint16_t sum, uint8_t index). */
  function CoilRegister(s: u16, c: nat): u8 {
    ((s + c) % 0x1_0000 / 16) % 0x100
  }

  /** Bit number of the c-th coil of a run starting at coil s. */
  function CoilBit(s: u16, c: nat): nat {
    (s + c) % 16
  }

  /** The position in a run starting at s of the coil stored in bit b of register r. */
  function CoilOffset(s: u16, r: u8, b: nat): nat {
    (16 * r + b - s) % 0x1000
  }

  /** Within a run of fewer than 4096 coils, CoilOffset finds the one coil stored at a register bit. */
  lemma CoilOffsetInverse(s: u16, c: nat, r: u8, b: nat)
    requires c < 0x1000 && b < 16
    ensures (CoilRegister(s, c) == r && CoilBit(s, c) == b) <==> c == CoilOffset(s, r, b)
  {
    CoilNumberMod(s + c);
    var t := (s + c) % 0x1000;
    DivMod(t, 16, t / 16, t % 16);
    if t == 16 * r + b {
      DivMod(t, 16, r, b);
    }
    assert (t / 16 == r && t % 16 == b) <==> t == 16 * r + b;
    ModShift(s, c, 16 * r + b);
  }

  /** Adding c to s hits m modulo 0x1000 exactly when c is m - s modulo 0x1000. */
  lemma ModShift(s: int, c: nat, m: nat)
    requires c < 0x1000 && m < 0x1000
    ensures (s + c) % 0x1000 == m <==> c == (m - s) % 0x1000
  {
    var j, k := (m - s) / 0x1000, (m - s) % 0x1000;
    assert m - s == 0x1000 * j + k;
    if c == k {
      DivMod(s + c, 0x1000, -j, m);
    }
    if (s + c) % 0x1000 == m {
      var a := (s + c) / 0x1000;
      assert s + c == 0x1000 * a + m;
      DivMod(c, 0x1000, a + j, k);
      DivMod(c, 0x1000, 0, c);
    }
  }

  /** The bit of a coil is the same whether the coil number wraps at 16 bits or not. */
  lemma CoilBitWrap(x: nat)
    ensures (x % 0x1_0000) % 16 == x % 16
  {
    var m := x % 0x1_0000;
    DivMod(x, 16, 0x1000 * (x / 0x1_0000) + m / 16, m % 16);
  }

  /** Register and bit of a coil number depend only on the coil number modulo 4096. */
  lemma CoilNumberMod(x: nat)
    ensures ((x % 0x1_0000) / 16) % 0x100 == (x % 0x1000) / 16
    ensures x % 16 == (x % 0x1000) % 16
  {
    var q, t := x / 0x1000, x % 0x1000;
    var q1, q0 := q / 16, q % 16;
    var lo := 0x1000 * q0 + t;
    DivMod(x, 0x1_0000, q1, lo);
    DivMod(lo, 16, 0x100 * q0 + t / 16, t % 16);
    DivMod(0x100 * q0 + t / 16, 0x100, q0, t / 16);
    DivMod(x, 16, 0x100 * q + t / 16, t % 16);
  }

  /** Every coil of a run of q coils from s lies in a register of a table of n registers. */
  predicate CoilsFit(n: nat, s: u16, q: nat) {
    forall c :: 0 <= c < q ==> CoilRegister(s, c) < n
  }

  /** The c-th coil of a run starting at s, read from the register table. */
  function Coil(regs: seq<u16>, s: u16, c: nat): bool
    requires CoilRegister(s, c) < |regs|
  {
    BitRead(regs[CoilRegister(s, c)], CoilBit(s, c))
  }

  /** Number of frame bytes that carry q coils. */
  function CoilByteCount(q: nat): nat {
    if q % 8 == 0 then q / 8 else q / 8 + 1
  }

  /** A frame byte whose bit j is bits[j]; bits past the end are 0. */
  function PackBits(bits: seq<bool>): (r: u8)
    requires |bits| <= 8
    ensures forall j: nat :: BitRead(r, j) == (j < |bits| && bits[j])
  {
    assert Pow2(8) == 0x100;
    PackByteBits(bits, 0);
    assert Pow2(|bits|) <= Pow2(8) by { Pow2Monotone(|bits|, 8); }
    forall j: nat ensures BitRead(PackByte(bits), j) == (j < |bits| && bits[j]) {
      PackByteBits(bits, j);
    }
    PackByte(bits)
  }

  lemma {:induction false} Pow2Monotone(m: nat, n: nat)
    requires m <= n
    ensures Pow2(m) <= Pow2(n)
    decreases n
  {
    if m < n {
      Pow2Monotone(m, n - 1);
    }
  }

  /** The coils of the k-th frame byte of a run of q coils. */
  function ByteCoils(regs: seq<u16>, s: u16, q: nat, k: nat): (bits: seq<bool>)
    requires k < CoilByteCount(q) && CoilsFit(|regs|, s, q)
    ensures |bits| <= 8
  {
    var m := if q - 8 * k < 8 then q - 8 * k else 8;
    seq(m, j requires 0 <= j < m => Coil(regs, s, 8 * k + j))
  }

  /** The data bytes of a read-coils reply: q coils from s, least significant bit first, padded with 0. */
  function CoilBytes(regs: seq<u16>, s: u16, q: nat): (bytes: seq<u8>)
    requires CoilsFit(|regs|, s, q)
    ensures |bytes| == CoilByteCount(q)
  {
    seq(CoilByteCount(q), k requires 0 <= k < CoilByteCount(q) => PackBits(ByteCoils(regs, s, q, k)))
  }

  /**
   * Bit j of data byte k of a read-coils reply is coil 8k + j of the run, and
   * the padding bits of the last byte are 0.
   */
  lemma CoilBytesBit(regs: seq<u16>, s: u16, q: nat, k: nat, j: nat)
    requires CoilsFit(|regs|, s, q) && k < CoilByteCount(q) && j < 8
    ensures BitRead(CoilBytes(regs, s, q)[k], j) == (8 * k + j < q && Coil(regs, s, 8 * k + j))
  {
    var bits := ByteCoils(regs, s, q, k);
    assert CoilBytes(regs, s, q)[k] == PackBits(bits);
  }

  /**
   * The register table after writing coil values vs, in order, to a run
   * starting at s. A coil whose register lies past the table is skipped;
   * the slave only writes runs that CoilsFit keeps inside the table.
   */
  function WriteCoils(regs: seq<u16>, s: u16, vs: seq<bool>): (r: seq<u16>)
    ensures |r| == |regs|
    decreases |vs|
  {
    if |vs| == 0 then regs
    else
      var c := |vs| - 1;
      var prev := WriteCoils(regs, s, vs[..c]);
      if CoilRegister(s, c) < |prev| then
        prev[CoilRegister(s, c) := BitWrite16(prev[CoilRegister(s, c)], CoilBit(s, c), vs[c])]
      else prev
  }

  /** Writing one more coil of the run updates one bit of the table written so far. */
  lemma WriteCoilsSnoc(regs: seq<u16>, s: u16, vs: seq<bool>, c: nat)
    requires CoilsFit(|regs|, s, |vs|) && c < |vs|
    ensures var prev := WriteCoils(regs, s, vs[..c]);
      WriteCoils(regs, s, vs[..c + 1])
        == prev[CoilRegister(s, c) := BitWrite16(prev[CoilRegister(s, c)], CoilBit(s, c), vs[c])]
  {
    assert vs[..c + 1][..c] == vs[..c];
  }

  /**
   * After writing a run of fewer than 4096 coils, each register bit holds the
   * value written to the coil stored there, and its old value when no coil of
   * the run is stored there.
   */
  lemma {:induction false} WriteCoilsBit(regs: seq<u16>, s: u16, vs: seq<bool>, r: nat, b: nat)
    requires CoilsFit(|regs|, s, |vs|) && |vs| <= 0x1000
    requires r < |regs| && b < 16
    ensures BitRead(WriteCoils(regs, s, vs)[r], b)
         == if r < 0x100 && CoilOffset(s, r, b) < |vs| then vs[CoilOffset(s, r, b)] else BitRead(regs[r], b)
    decreases |vs|
  {
    if |vs| > 0 {
      var c := |vs| - 1;
      var prev := WriteCoils(regs, s, vs[..c]);
      WriteCoilsBit(regs, s, vs[..c], r, b);
      CoilOffsetInverse(s, c, CoilRegister(s, c), CoilBit(s, c));
      if r < 0x100 {
        CoilOffsetInverse(s, c, r, b);
      }
    }
  }

  /** A register that no coil of the run is stored in keeps its value. */
  lemma WriteCoilsUntouched(regs: seq<u16>, s: u16, vs: seq<bool>, r: nat)
    requires CoilsFit(|regs|, s, |vs|) && |vs| <= 0x1000 && r < |regs|
    requires forall c :: 0 <= c < |vs| ==> CoilRegister(s, c) != r
    ensures WriteCoils(regs, s, vs)[r] == regs[r]
  {
    var w := WriteCoils(regs, s, vs);
    forall b | 0 <= b < 16 ensures BitRead(w[r], b) == BitRead(regs[r], b) {
      WriteCoilsBit(regs, s, vs, r, b);
      if r < 0x100 && CoilOffset(s, r, b) < |vs| {
        CoilOffsetInverse(s, CoilOffset(s, r, b), r, b);
      }
    }
    assert Pow2(8) == 0x100;
    assert Pow2(12) == 0x1000;
    assert Pow2(16) == 0x1_0000;
    BitsDetermine(w[r], regs[r], 16);
  }

  /** The first c coils of the run are packed: bit d % 8 of byte d / 8 is coil d. */
  predicate BitsPacked(data: seq<u8>, regs: seq<u16>, s: u16, q: nat, c: nat)
    requires CoilsFit(|regs|, s, q) && |data| == CoilByteCount(q) && c <= q
  {
    forall d :: 0 <= d < c ==> BitRead(data[d / 8], d % 8) == Coil(regs, s, d)
  }

  /** The bits of the last byte past the end of the run are 0. */
  predicate PaddingClear(data: seq<u8>, q: nat)
    requires |data| == CoilByteCount(q)
  {
    q % 8 != 0 ==> forall j: nat :: q % 8 <= j < 8 ==> !BitRead(data[q / 8], j)
  }

  /** Setting bit c % 8 of byte c / 8 to coil c packs one more coil and keeps the padding clear. */
  lemma PackBitStep(data: seq<u8>, regs: seq<u16>, s: u16, q: nat, c: nat)
    requires CoilsFit(|regs|, s, q) && |data| == CoilByteCount(q) && c < q
    requires BitsPacked(data, regs, s, q, c) && PaddingClear(data, q)
    ensures c / 8 < |data|
    ensures var next := data[c / 8 := BitWrite8(data[c / 8], c % 8, Coil(regs, s, c))];
      BitsPacked(next, regs, s, q, c + 1) && PaddingClear(next, q)
  {
    DivMod(q, 8, q / 8, q % 8);
    DivMod(c, 8, c / 8, c % 8);
    var next := data[c / 8 := BitWrite8(data[c / 8], c % 8, Coil(regs, s, c))];
    forall d | 0 <= d < c + 1 ensures BitRead(next[d / 8], d % 8) == Coil(regs, s, d) {
      DivMod(d, 8, d / 8, d % 8);
    }
    if q % 8 != 0 && c / 8 == q / 8 {
      assert c % 8 < q % 8;
    }
  }

  /**
   * Bytes whose bit c % 8 of byte c / 8 is coil c for every coil of the run,
   * and whose padding bits are 0, are the data bytes of the read-coils reply.
   */
  lemma CoilBytesFromBits(data: seq<u8>, regs: seq<u16>, s: u16, q: nat)
    requires CoilsFit(|regs|, s, q) && |data| == CoilByteCount(q)
    requires BitsPacked(data, regs, s, q, q) && PaddingClear(data, q)
    ensures data == CoilBytes(regs, s, q)
  {
    var bytes := CoilBytes(regs, s, q);
    forall k | 0 <= k < |data| ensures data[k] == bytes[k] {
      CoilByteFromBits(data, regs, s, q, k);
    }
  }

  /** One byte of CoilBytesFromBits: its eight bits determine it. */
  lemma CoilByteFromBits(data: seq<u8>, regs: seq<u16>, s: u16, q: nat, k: nat)
    requires CoilsFit(|regs|, s, q) && |data| == CoilByteCount(q) && k < |data|
    requires BitsPacked(data, regs, s, q, q) && PaddingClear(data, q)
    ensures data[k] == CoilBytes(regs, s, q)[k]
  {
    var x, y := data[k], CoilBytes(regs, s, q)[k];
    forall j | 0 <= j < 8 ensures BitRead(x, j) == BitRead(y, j) {
      CoilBytesBit(regs, s, q, k, j);
      DivMod(8 * k + j, 8, k, j);
      if 8 * k + j >= q {
        DivMod(q, 8, k, q - 8 * k);
      }
    }
    assert Pow2(8) == 0x100;
    BitsDetermine(x, y, 8);
  }
}
