/**
 * CRC-16/MODBUS as the engine computes it: initial register 0xFFFF, each
 * byte xored into the low half, then eight right shifts that xor in the
 * reflected polynomial 0xA001 whenever a 1 is shifted out, no final xor.
 * The engine returns the register with its two bytes swapped, so that the
 * high byte of the returned value is the byte sent first on the wire.
 * The register is an unsigned integer and the C bit operators are written
 * out: x & 1 is x % 2, x >> 1 is x / 2 and x ^ y is Xor(x, y).
 */
module Crc {
  import opened Bits

  /** The reflected generator polynomial of CRC-16/MODBUS. */
  const Poly: u16 := 0xA001

  /** One shift of the CRC register. */
  function Step(c: u16): u16 {
    if c % 2 == 1 then Xor16(c / 2, Poly) else c / 2
  }

  /** Exclusive or of two 16-bit values, which stays within 16 bits. */
  function Xor16(a: u16, b: u16): (r: u16)
    ensures r == Xor(a, b)
  {
    Pow2Sixteen();
    XorBelow(a, b, 16);
    Xor(a, b)
  }

  /** Exclusive or of two bytes. */
  function Xor8(a: u8, b: u8): (r: u8)
    ensures r == Xor(a, b)
  {
    assert Pow2(8) == 0x100;
    XorBelow(a, b, 8);
    Xor(a, b)
  }

  /** n shifts of the CRC register. */
  function Shifts(c: u16, n: nat): u16
    decreases n
  {
    if n == 0 then c else Shifts(Step(c), n - 1)
  }

  /** One more step after n steps. */
  lemma {:induction false} ShiftsSnoc(c: u16, n: nat)
    ensures Shifts(c, n + 1) == Step(Shifts(c, n))
    decreases n
  {
    if n > 0 {
      ShiftsSnoc(Step(c), n - 1);
    }
  }

  /** The register after one message byte. */
  function Update(c: u16, b: u8): u16 {
    Shifts(Xor16(c, b), 8)
  }

  /** The register after the bytes of s, starting from c. */
  function CrcFrom(c: u16, s: seq<u8>): u16
    decreases |s|
  {
    if |s| == 0 then c else CrcFrom(Update(c, s[0]), s[1..])
  }

  /** The CRC register over a whole message. */
  function Register(s: seq<u8>): u16 {
    CrcFrom(0xFFFF, s)
  }

  /** Exchange the two bytes of a 16-bit value. */
  function Swap(c: u16): u16 {
    Word(LowByte(c), HighByte(c))
  }

  /** The value calcCRC returns for a message: the register with its bytes exchanged. */
  function Crc16(s: seq<u8>): u16 {
    Swap(Register(s))
  }

  /** A message followed by its CRC as the engine appends it: high byte of Crc16 first. */
  function AppendCrc(s: seq<u8>): (f: seq<u8>)
    ensures |f| == |s| + 2 && f[..|s|] == s
  {
    s + [HighByte(Crc16(s)), LowByte(Crc16(s))]
  }

  /** The CRC test both validators apply to a received frame of n bytes. */
  predicate CrcOk(f: seq<u8>)
    requires |f| >= 2
  {
    Word(f[|f| - 2], f[|f| - 1]) == Crc16(f[..|f| - 2])
  }

  /** A frame the engine has appended a CRC to passes the CRC test of the receiving side. */
  lemma AppendCrcOk(s: seq<u8>)
    ensures CrcOk(AppendCrc(s))
  {
    var f := AppendCrc(s);
    assert f[..|f| - 2] == s;
    WordBytes(Crc16(s), 0, 0);
  }

  /** A frame passes the CRC test exactly when it is its first n - 2 bytes with their CRC appended. */
  lemma CrcOkExactly(f: seq<u8>)
    requires |f| >= 2
    ensures CrcOk(f) <==> f == AppendCrc(f[..|f| - 2])
  {
    var m := f[..|f| - 2];
    TrailingWord(f, Crc16(m));
  }

  /** The last two bytes of f spell c high byte first exactly when f ends with the bytes of c. */
  lemma TrailingWord(f: seq<u8>, c: u16)
    requires |f| >= 2
    ensures Word(f[|f| - 2], f[|f| - 1]) == c <==> f == f[..|f| - 2] + [HighByte(c), LowByte(c)]
  {
    var n := |f|;
    assert f == f[..n - 2] + [f[n - 2], f[n - 1]];
    WordBytes(c, f[n - 2], f[n - 1]);
  }

  /**
   * The CRC is sent low-order byte of the register first, as the serial-line
   * specification of Modbus prescribes.
   */
  lemma WireOrder(s: seq<u8>)
    ensures HighByte(Crc16(s)) == LowByte(Register(s))
    ensures LowByte(Crc16(s)) == HighByte(Register(s))
  {
    WordBytes(0, LowByte(Register(s)), HighByte(Register(s)));
  }

  /** The CRC of a concatenation continues from the CRC of its first part. */
  lemma {:induction false} CrcFromConcat(c: u16, a: seq<u8>, b: seq<u8>)
    ensures CrcFrom(c, a + b) == CrcFrom(CrcFrom(c, a), b)
    decreases |a|
  {
    if |a| > 0 {
      assert (a + b)[0] == a[0] && (a + b)[1..] == a[1..] + b;
      CrcFromConcat(Update(c, a[0]), a[1..], b);
    } else {
      assert a + b == b;
    }
  }

  lemma Pow2Sixteen()
    ensures Pow2(16) == 0x1_0000
  {
    assert Pow2(8) == 0x100;
    assert Pow2(12) == 0x1000;
  }

  /** Bit k of a shifted register: bit k + 1 of the old one, flipped by the polynomial when a 1 was shifted out. */
  lemma StepBit(c: u16, k: nat)
    ensures BitRead(Step(c), k) == (BitRead(c, k + 1) != (BitRead(c, 0) && BitRead(Poly, k)))
  {
    assert BitRead(c, k + 1) == BitRead(c / 2, k);
    if c % 2 == 1 {
      XorBit(c / 2, Poly, k);
    }
  }

  /** A shift is linear over exclusive or. */
  lemma StepXor(a: u16, b: u16)
    ensures Step(Xor16(a, b)) == Xor16(Step(a), Step(b))
  {
    Pow2Sixteen();
    var x := Xor16(a, b);
    forall k | 0 <= k < 16
      ensures BitRead(Step(x), k) == BitRead(Xor16(Step(a), Step(b)), k)
    {
      StepBit(x, k);
      StepBit(a, k);
      StepBit(b, k);
      XorBit(a, b, k + 1);
      XorBit(a, b, 0);
      XorBit(Step(a), Step(b), k);
    }
    BitsDetermine(Step(x), Xor16(Step(a), Step(b)), 16);
  }

  /** A shift never clears a non-zero register. */
  lemma StepNonZero(a: u16)
    requires a != 0
    ensures Step(a) != 0
  {
    if a % 2 == 1 {
      Pow2Sixteen();
      XorZero(a / 2, Poly, 16);
    }
  }

  lemma {:induction false} ShiftsXor(a: u16, b: u16, n: nat)
    ensures Shifts(Xor16(a, b), n) == Xor16(Shifts(a, n), Shifts(b, n))
    decreases n
  {
    if n > 0 {
      StepXor(a, b);
      ShiftsXor(Step(a), Step(b), n - 1);
    }
  }

  lemma {:induction false} ShiftsNonZero(a: u16, n: nat)
    requires a != 0
    ensures Shifts(a, n) != 0
    decreases n
  {
    if n > 0 {
      StepNonZero(a);
      ShiftsNonZero(Step(a), n - 1);
    }
  }

  /** Registers that differ by a non-zero d before one more byte differ by d shifted eight times after it. */
  lemma UpdateXor(c: u16, d: u16, x: u8)
    ensures Xor16(Update(c, x), Update(d, x)) == Shifts(Xor16(c, d), 8)
  {
    Pow2Sixteen();
    XorCancel(c, d, x, 16);
    ShiftsXor(Xor16(c, x), Xor16(d, x), 8);
  }

  /** Two registers that differ before a run of bytes still differ after it. */
  lemma {:induction false} CrcFromDistinct(c: u16, d: u16, s: seq<u8>)
    requires c != d
    ensures CrcFrom(c, s) != CrcFrom(d, s)
    decreases |s|
  {
    if |s| > 0 {
      Pow2Sixteen();
      XorZero(c, d, 16);
      ShiftsNonZero(Xor16(c, d), 8);
      UpdateXor(c, d, s[0]);
      XorZero(Update(c, s[0]), Update(d, s[0]), 16);
      CrcFromDistinct(Update(c, s[0]), Update(d, s[0]), s[1..]);
    }
  }

  /** Different bytes move one register to different registers. */
  lemma UpdateDistinct(c: u16, x: u8, y: u8)
    requires x != y
    ensures Update(c, x) != Update(c, y)
  {
    Pow2Sixteen();
    XorCancel(x, y, c, 16);
    XorCancel(c, x, c, 16);
    XorCancel(c, y, c, 16);
    assert Xor16(Xor16(c, x), Xor16(c, y)) == Xor16(x, y);
    XorZero(x, y, 16);
    ShiftsXor(Xor16(c, x), Xor16(c, y), 8);
    ShiftsNonZero(Xor16(x, y), 8);
    XorZero(Update(c, x), Update(c, y), 16);
  }

  /**
   * Error detection: a frame whose CRC was appended by the sender fails the
   * receiver's CRC test when any single message byte was changed in transit.
   */
  lemma DetectsByteError(s: seq<u8>, k: nat, y: u8)
    requires k < |s| && y != s[k]
    ensures !CrcOk(AppendCrc(s)[k := y])
  {
    var t := s[k := y];
    var f := AppendCrc(s)[k := y];
    assert f == t + [HighByte(Crc16(s)), LowByte(Crc16(s))];
    RegisterDetects(s, k, y);
    var rs, rt := Register(s), Register(t);
    WordBytes(rs, 0, 0);
    WordBytes(rt, 0, 0);
    WordBytes(Crc16(s), LowByte(rs), HighByte(rs));
    WordBytes(Crc16(t), LowByte(rt), HighByte(rt));
  }

  /** The CRC register tells apart two messages that differ in one byte. */
  lemma RegisterDetects(s: seq<u8>, k: nat, y: u8)
    requires k < |s| && y != s[k]
    ensures Register(s) != Register(s[k := y])
  {
    var t := s[k := y];
    assert s == s[..k] + [s[k]] + s[k + 1..];
    assert t == s[..k] + [y] + s[k + 1..];
    var c := CrcFrom(0xFFFF, s[..k]);
    CrcFromConcat(0xFFFF, s[..k] + [s[k]], s[k + 1..]);
    CrcFromConcat(0xFFFF, s[..k], [s[k]]);
    CrcFromConcat(0xFFFF, s[..k] + [y], s[k + 1..]);
    CrcFromConcat(0xFFFF, s[..k], [y]);
    UpdateDistinct(c, s[k], y);
    CrcFromDistinct(Update(c, s[k]), Update(c, y), s[k + 1..]);
  }


  /**
   * The byte swap at the end of calcCRC, ((c << 8) | (c >> 8)) & 0xFFFF: the
   * operands of | have no bit in common, so | adds them.
   */
  lemma SwapArithmetic(c: u16)
    ensures (c * 0x100 + c / 0x100) % 0x1_0000 == Swap(c)
  {
    var h, l := c / 0x100, c % 0x100;
    DivMod(c * 0x100 + h, 0x1_0000, h, l * 0x100 + h);
  }
}
