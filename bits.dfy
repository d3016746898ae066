/**
 * Fixed-width unsigned integers and the Arduino byte and bit helpers the
 * Modbus engine is written with: word(), highByte(), lowByte(), bitRead()
 * and bitWrite(), plus the big-endian register/byte conversions the
 * register function codes use on the wire.
 */
module Bits {

  /** uint8_t, uint16_t and uint32_t as ranges of the mathematical integers. */
  type u8 = x: int | 0 <= x < 0x100
  type u16 = x: int | 0 <= x < 0x1_0000
  type u32 = x: int | 0 <= x < 0x1_0000_0000

  /** Truncating conversions, as C performs them on assignment to a narrower unsigned type. */
  function ToU8(x: int): (r: u8)
    ensures 0 <= x < 0x100 ==> r == x
  {
    x % 0x100
  }

  function ToU16(x: int): (r: u16)
    ensures 0 <= x < 0x1_0000 ==> r == x
  {
    x % 0x1_0000
  }

  /** Reinterpret a uint8_t as the int8_t the engine returns to its caller. */
  function ToInt8(x: u8): (r: int)
    ensures -128 <= r < 128
    ensures r % 0x100 == x
  {
    if x < 0x80 then x else x - 0x100
  }

  /** uint16_t increment with wrap-around (the engine's message and error counters). */
  function Inc16(x: u16): (r: u16)
    ensures r == if x == 0xFFFF then 0 else x + 1
  {
    (x + 1) % 0x1_0000
  }

  /** Arduino word(h, l). */
  function Word(hi: u8, lo: u8): u16 {
    hi * 0x100 + lo
  }

  /** Arduino highByte(w) and lowByte(w). */
  function HighByte(w: u16): u8 {
    w / 0x100
  }

  function LowByte(w: u16): u8 {
    w % 0x100
  }

  /** Splitting a word into its two bytes and joining them again loses nothing, in both directions. */
  lemma WordBytes(w: u16, hi: u8, lo: u8)
    ensures Word(HighByte(w), LowByte(w)) == w
    ensures HighByte(Word(hi, lo)) == hi && LowByte(Word(hi, lo)) == lo
  {
  }

  /** Euclidean division is determined by its quotient and remainder. */
  lemma DivMod(x: int, m: int, a: int, b: int)
    requires m > 0 && 0 <= b < m && x == m * a + b
    ensures x / m == a && x % m == b
  {
    var q, r := x / m, x % m;
    assert m * (a - q) == r - b;
    if a > q {
      MulAtLeast(m, a - q);
    } else if a < q {
      MulAtLeast(m, q - a);
    }
  }

  /** Counting bits into bytes: the next bit either follows in the same byte or starts the next one. */
  lemma NextBit(c: nat)
    ensures c % 8 < 7 ==> (c + 1) / 8 == c / 8 && (c + 1) % 8 == c % 8 + 1
    ensures c % 8 == 7 ==> (c + 1) / 8 == c / 8 + 1 && (c + 1) % 8 == 0
  {
    if c % 8 < 7 {
      DivMod(c + 1, 8, c / 8, c % 8 + 1);
    } else {
      DivMod(c + 1, 8, c / 8 + 1, 0);
    }
  }

  lemma {:induction false} MulAtLeast(m: int, k: int)
    requires m > 0 && k >= 1
    ensures m * k >= m
    decreases k
  {
    assert m * k == m + m * (k - 1);
    if k > 1 {
      MulAtLeast(m, k - 1);
    }
  }

  function Pow2(n: nat): (r: nat)
    ensures r >= 1
  {
    if n == 0 then 1 else 2 * Pow2(n - 1)
  }

  /** Arduino bitRead(x, k): bit k of x, bit 0 being the least significant. */
  function BitRead(x: nat, k: nat): bool {
    if k == 0 then x % 2 == 1 else BitRead(x / 2, k - 1)
  }

  /** Arduino bitWrite(x, k, v): x with bit k set to v and every other bit kept. */
  function BitWrite(x: nat, k: nat, v: bool): nat {
    if k == 0 then x - x % 2 + (if v then 1 else 0)
    else 2 * BitWrite(x / 2, k - 1, v) + x % 2
  }

  /** bitWrite changes exactly the bit it names. */
  lemma {:induction false} BitReadWrite(x: nat, k: nat, v: bool, j: nat)
    ensures BitRead(BitWrite(x, k, v), j) == if j == k then v else BitRead(x, j)
  {
    var y := BitWrite(x, k, v);
    if k == 0 {
      assert y / 2 == x / 2;
      if j > 0 {
        assert BitRead(y, j) == BitRead(y / 2, j - 1);
      }
    } else {
      var z := BitWrite(x / 2, k - 1, v);
      assert y == 2 * z + x % 2;
      assert y % 2 == x % 2 && y / 2 == z;
      if j > 0 {
        BitReadWrite(x / 2, k - 1, v, j - 1);
      }
    }
  }

  /** bitWrite keeps a value of n bits within n bits when the bit it writes is one of them. */
  lemma {:induction false} BitWriteBelow(x: nat, k: nat, v: bool, n: nat)
    requires x < Pow2(n) && k < n
    ensures BitWrite(x, k, v) < Pow2(n)
  {
    if k == 0 {
      assert Pow2(n) == 2 * Pow2(n - 1);
    } else {
      BitWriteBelow(x / 2, k - 1, v, n - 1);
    }
  }

  /** Two values of n bits that agree on every one of those bits are equal. */
  lemma {:induction false} BitsDetermine(x: nat, y: nat, n: nat)
    requires x < Pow2(n) && y < Pow2(n)
    requires forall j :: 0 <= j < n ==> BitRead(x, j) == BitRead(y, j)
    ensures x == y
  {
    if n > 0 {
      assert BitRead(x, 0) == BitRead(y, 0);
      forall j | 0 <= j < n - 1
        ensures BitRead(x / 2, j) == BitRead(y / 2, j)
      {
        assert BitRead(x, j + 1) == BitRead(y, j + 1);
      }
      BitsDetermine(x / 2, y / 2, n - 1);
    }
  }

  /** Bits at or above n of a value below 2^n are clear. */
  lemma {:induction false} BitReadAbove(x: nat, n: nat, j: nat)
    requires x < Pow2(n) && n <= j
    ensures !BitRead(x, j)
  {
    if j == 0 {
    } else if n == 0 {
      assert x == 0;
      BitReadAbove(x / 2, 0, j - 1);
    } else {
      BitReadAbove(x / 2, n - 1, j - 1);
    }
  }

  /** bitWrite on a uint16_t register, with bit numbers 0..15. */
  function BitWrite16(w: u16, k: nat, v: bool): (r: u16)
    requires k < 16
    ensures forall j :: BitRead(r, j) == if j == k then v else BitRead(w, j)
  {
    assert Pow2(8) == 0x100;
    assert Pow2(12) == 0x1000;
    assert Pow2(16) == 0x1_0000;
    BitWriteBelow(w, k, v, 16);
    forall j ensures BitRead(BitWrite(w, k, v), j) == if j == k then v else BitRead(w, j) {
      BitReadWrite(w, k, v, j);
    }
    BitWrite(w, k, v)
  }

  /** bitWrite on a uint8_t frame byte, with bit numbers 0..7. */
  function BitWrite8(b: u8, k: nat, v: bool): (r: u8)
    requires k < 8
    ensures forall j :: BitRead(r, j) == if j == k then v else BitRead(b, j)
  {
    assert Pow2(8) == 0x100;
    BitWriteBelow(b, k, v, 8);
    forall j ensures BitRead(BitWrite(b, k, v), j) == if j == k then v else BitRead(b, j) {
      BitReadWrite(b, k, v, j);
    }
    BitWrite(b, k, v)
  }

  /** The bits of hi * 2^m + lo, for lo below 2^m: first the m bits of lo, then those of hi. */
  lemma {:induction false} BitReadConcat(hi: nat, lo: nat, m: nat, j: nat)
    requires lo < Pow2(m)
    ensures BitRead(hi * Pow2(m) + lo, j) == if j < m then BitRead(lo, j) else BitRead(hi, j - m)
  {
    if m == 0 {
      assert lo == 0;
    } else {
      var p := Pow2(m - 1);
      var t := hi * p;
      assert hi * Pow2(m) == 2 * t;
      var x := 2 * t + lo;
      assert x % 2 == lo % 2;
      assert x / 2 == t + lo / 2;
      assert lo / 2 < p;
      if j > 0 {
        BitReadConcat(hi, lo / 2, m - 1, j - 1);
      }
    }
  }

  /** Bit j of word(hi, lo) is bit j of lo below 8 and bit j - 8 of hi from 8 on. */
  lemma WordBit(hi: u8, lo: u8, j: nat)
    ensures BitRead(Word(hi, lo), j) == if j < 8 then BitRead(lo, j) else BitRead(hi, j - 8)
  {
    assert Pow2(8) == 0x100;
    BitReadConcat(hi, lo, 8, j);
  }

  /** The byte whose bit j is bits[j] (least significant bit first); bits past the end are 0. */
  function PackByte(bits: seq<bool>): nat {
    if |bits| == 0 then 0 else 2 * PackByte(bits[1..]) + (if bits[0] then 1 else 0)
  }

  lemma {:induction false} PackByteBits(bits: seq<bool>, j: nat)
    ensures PackByte(bits) < Pow2(|bits|)
    ensures BitRead(PackByte(bits), j) == (j < |bits| && bits[j])
  {
    if |bits| == 0 {
      BitReadAbove(0, 0, j);
    } else {
      var rest, bit := PackByte(bits[1..]), if bits[0] then 1 else 0;
      var x := PackByte(bits);
      assert x == 2 * rest + bit;
      DivMod(x, 2, rest, bit);
      if j > 0 {
        PackByteBits(bits[1..], j - 1);
        assert BitRead(x, j) == BitRead(rest, j - 1);
        assert j < |bits| ==> bits[1..][j - 1] == bits[j];
      } else {
        PackByteBits(bits[1..], 0);
      }
    }
  }

  /** C's bitwise exclusive or (^) on unsigned values. */
  function Xor(a: nat, b: nat): nat
    decreases a + b
  {
    if a == 0 && b == 0 then 0
    else 2 * Xor(a / 2, b / 2) + (if a % 2 == b % 2 then 0 else 1)
  }

  /** Each bit of a ^ b is set exactly when the two operands differ in it. */
  lemma {:induction false} XorBit(a: nat, b: nat, k: nat)
    ensures BitRead(Xor(a, b), k) == (BitRead(a, k) != BitRead(b, k))
    decreases k
  {
    var x := Xor(a, b);
    assert x % 2 == (if a % 2 == b % 2 then 0 else 1) && x / 2 == Xor(a / 2, b / 2);
    if k > 0 {
      XorBit(a / 2, b / 2, k - 1);
    }
  }

  /** ^ keeps values of n bits within n bits. */
  lemma {:induction false} XorBelow(a: nat, b: nat, n: nat)
    requires a < Pow2(n) && b < Pow2(n)
    ensures Xor(a, b) < Pow2(n)
    decreases n
  {
    if n > 0 && !(a == 0 && b == 0) {
      XorBelow(a / 2, b / 2, n - 1);
    }
  }

  /** The value 0 has no bit set. */
  lemma ZeroBits(k: nat)
    ensures !BitRead(0, k)
  {
    BitReadAbove(0, 0, k);
  }

  /** Two n-bit values are equal exactly when their exclusive or is 0. */
  lemma XorZero(a: nat, b: nat, n: nat)
    requires a < Pow2(n) && b < Pow2(n)
    ensures Xor(a, b) == 0 <==> a == b
  {
    if Xor(a, b) == 0 {
      forall j | 0 <= j < n ensures BitRead(a, j) == BitRead(b, j) {
        XorBit(a, b, j);
        ZeroBits(j);
      }
      BitsDetermine(a, b, n);
    }
    if a == b {
      XorBelow(a, b, n);
      forall j | 0 <= j < n ensures BitRead(Xor(a, b), j) == BitRead(0, j) {
        XorBit(a, b, j);
        ZeroBits(j);
      }
      assert 0 < Pow2(n);
      BitsDetermine(Xor(a, b), 0, n);
    }
  }

  /** A common operand cancels: (a ^ z) ^ (b ^ z) == a ^ b, and ^ commutes. */
  lemma XorCancel(a: nat, b: nat, z: nat, n: nat)
    requires a < Pow2(n) && b < Pow2(n) && z < Pow2(n)
    ensures Xor(Xor(a, z), Xor(b, z)) == Xor(a, b) == Xor(b, a)
  {
    XorBelow(a, z, n);
    XorBelow(b, z, n);
    XorBelow(Xor(a, z), Xor(b, z), n);
    XorBelow(a, b, n);
    XorBelow(b, a, n);
    forall j | 0 <= j < n ensures BitRead(Xor(Xor(a, z), Xor(b, z)), j) == BitRead(Xor(a, b), j) {
      XorBit(Xor(a, z), Xor(b, z), j);
      XorBit(a, z, j);
      XorBit(b, z, j);
      XorBit(a, b, j);
    }
    BitsDetermine(Xor(Xor(a, z), Xor(b, z)), Xor(a, b), n);
    forall j | 0 <= j < n ensures BitRead(Xor(a, b), j) == BitRead(Xor(b, a), j) {
      XorBit(a, b, j);
      XorBit(b, a, j);
    }
    BitsDetermine(Xor(a, b), Xor(b, a), n);
  }

  /** Registers to bytes, each register high byte first (the register payload of function codes 3, 4 and 16). */
  function WordsToBytes(ws: seq<u16>): (bs: seq<u8>)
    ensures |bs| == 2 * |ws|
  {
    seq(2 * |ws|, i requires 0 <= i < 2 * |ws| =>
      if i % 2 == 0 then HighByte(ws[i / 2]) else LowByte(ws[i / 2]))
  }

  /** Bytes to registers, two bytes per register, high byte first. */
  function BytesToWords(bs: seq<u8>): (ws: seq<u16>)
    ensures |ws| == |bs| / 2
  {
    seq(|bs| / 2, i requires 0 <= i < |bs| / 2 => Word(bs[2 * i], bs[2 * i + 1]))
  }

  /** Reading back the bytes of a register sequence gives the registers. */
  lemma WordsBytesRoundTrip(ws: seq<u16>)
    ensures BytesToWords(WordsToBytes(ws)) == ws
  {
    var bs := WordsToBytes(ws);
    var ws' := BytesToWords(bs);
    forall i | 0 <= i < |ws| ensures ws'[i] == ws[i] {
      DivMod(2 * i, 2, i, 0);
      DivMod(2 * i + 1, 2, i, 1);
      assert bs[2 * i] == HighByte(ws[i]) && bs[2 * i + 1] == LowByte(ws[i]);
      WordBytes(ws[i], 0, 0);
    }
  }

  /** One more register adds its two bytes, high byte first. */
  lemma WordsToBytesSnoc(ws: seq<u16>, w: u16)
    ensures WordsToBytes(ws + [w]) == WordsToBytes(ws) + [HighByte(w), LowByte(w)]
  {
    var a, b := WordsToBytes(ws + [w]), WordsToBytes(ws) + [HighByte(w), LowByte(w)];
    forall i | 0 <= i < |a| ensures a[i] == b[i] {
      if i < 2 * |ws| {
        assert (ws + [w])[i / 2] == ws[i / 2];
      } else {
        assert (ws + [w])[i / 2] == w;
      }
    }
  }
}
