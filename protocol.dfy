/**
 * The frames the engine builds and accepts, as functions of the 64-byte
 * frame buffer. A received frame of n bytes occupies the first n bytes of
 * the buffer; the rest of the buffer still holds older bytes, which the
 * function 15 and 16 processors can read. Offsets follow the engine's
 * MESSAGE enumeration: 0 slave id, 1 function code, 2-3 address, 4-5
 * quantity (or value), 6 byte count.
 */
module Protocol {
  import opened Bits
  import opened Crc
  import opened Coils

  const MaxBuffer: nat := 64
  const ResponseSize: nat := 6
  const ExceptionSize: nat := 3

  /** Exception codes a slave sends, and NO_REPLY, the code of a frame answered with silence. */
  const NoReply: u8 := 255
  const ExcFuncCode: u8 := 1
  const ExcAddrRange: u8 := 2

  /** Error results of the poll methods. */
  const ErrBuffOverflow: int := -3
  /** ERR_EXCEPTION (-5) as the uint8_t that validateAnswer returns. */
  const ErrException: u8 := 251

  /** Master states. */
  const ComIdle: u8 := 0
  const ComWaiting: u8 := 1

  /** The function codes of fctsupported, in its order. */
  const FunctionCodes: seq<u8> := [1, 2, 3, 4, 5, 6, 15, 16]

  predicate Supported(f: u8) {
    f in FunctionCodes
  }

  /** A prefix of bytes written over the start of a buffer. */
  function Overlay(prefix: seq<u8>, base: seq<u8>): (r: seq<u8>)
    requires |prefix| <= |base|
    ensures |r| == |base| && r[..|prefix|] == prefix && r[|prefix|..] == base[|prefix|..]
  {
    prefix + base[|prefix|..]
  }

  /** Overlaying a prefix hides every difference between two buffers under it. */
  lemma OverlayAgrees(prefix: seq<u8>, x: seq<u8>, y: seq<u8>)
    requires |prefix| <= |x| == |y| && x[|prefix|..] == y[|prefix|..]
    ensures Overlay(prefix, x) == Overlay(prefix, y)
  {
  }

  /** Writing bytes h and l at positions n and n + 1 overlays the first n bytes followed by h and l. */
  lemma TwoBytesWritten(pre: seq<u8>, n: nat, h: u8, l: u8, post: seq<u8>)
    requires n + 2 <= |pre| && post == pre[n := h][n + 1 := l]
    ensures post[..n + 2] == pre[..n] + [h, l] && post == Overlay(pre[..n] + [h, l], pre)
  {
    assert post[..n + 2] == pre[..n] + [h, l];
  }

  // ---------------------------------------------------------------- requests

  /** A master query: slave id, function code, first address, number of coils or registers, and the master's register image. */
  datatype Telegram = Telegram(id: u8, fct: u8, address: u16, quantity: u16, registers: array<u16>)

  /** Byte count of a function 15 request as query computes it: uint8_t arithmetic on whole words of coils. */
  function Fc15ByteCount(q: u16): u8 {
    var regsNo := (q / 16) % 0x100;
    var bytesNo := (2 * regsNo) % 0x100;
    if q % 16 != 0 then ToU8(bytesNo + 1) else bytesNo
  }

  /**
   * What query needs: a supported function code, the registers it reads
   * from the master's image (n is the image's length), and a frame that
   * leaves room for the CRC in the 64-byte buffer.
   */
  predicate RequestFits(t: Telegram, n: nat) {
    Supported(t.fct)
    && (t.fct == 5 || t.fct == 6 ==> n >= 1)
    && (t.fct == 15 ==> (Fc15ByteCount(t.quantity) + 1) / 2 <= n && 7 + Fc15ByteCount(t.quantity) + 2 <= MaxBuffer)
    && (t.fct == 16 ==> t.quantity <= n && 7 + 2 * t.quantity + 2 <= MaxBuffer)
  }

  /** The request frame query builds for t, before the CRC; regs is the content of t.registers. */
  function Request(t: Telegram, regs: seq<u16>): (r: seq<u8>)
    requires RequestFits(t, |regs|)
    ensures |r| + 2 <= MaxBuffer
  {
    var header := [t.id, t.fct, HighByte(t.address), LowByte(t.address)];
    var quantity := [HighByte(t.quantity), LowByte(t.quantity)];
    if t.fct == 5 then
      header + [if regs[0] > 0 then 0xFF else 0, 0]
    else if t.fct == 6 then
      header + [HighByte(regs[0]), LowByte(regs[0])]
    else if t.fct == 15 then
      header + RequestFc15Tail(t, regs)
    else if t.fct == 16 then
      header + RequestFc16Tail(t, regs)
    else
      header + quantity
  }

  /** A function 15 request after its header: quantity, query's byte count, and that many bytes of the registers, high byte first. */
  function RequestFc15Tail(t: Telegram, regs: seq<u16>): seq<u8>
    requires RequestFits(t, |regs|) && t.fct == 15
  {
    var n := Fc15ByteCount(t.quantity);
    [HighByte(t.quantity), LowByte(t.quantity), n] + WordsToBytes(regs[..(n + 1) / 2])[..n]
  }

  /** A function 16 request after its header: quantity, byte count, and the registers, high byte first. */
  function RequestFc16Tail(t: Telegram, regs: seq<u16>): seq<u8>
    requires RequestFits(t, |regs|) && t.fct == 16
  {
    [HighByte(t.quantity), LowByte(t.quantity), ToU8(2 * t.quantity)] + WordsToBytes(regs[..t.quantity])
  }

  /**
   * The fields of a request read back: id, function code and address for
   * every code, the quantity for all but 5 and 6, the value for 6, the coil
   * state for 5, and for 16 the byte count and the registers themselves.
   */
  lemma RequestLayout(t: Telegram, regs: seq<u16>)
    requires RequestFits(t, |regs|)
    ensures var f := Request(t, regs);
      && |f| >= 6 && f[0] == t.id && f[1] == t.fct && Word(f[2], f[3]) == t.address
      && (t.fct != 5 && t.fct != 6 ==> Word(f[4], f[5]) == t.quantity)
      && (t.fct <= 4 ==> |f| == 6)
      && (t.fct == 5 ==> |f| == 6 && Word(f[4], f[5]) == if regs[0] > 0 then 0xFF00 else 0)
      && (t.fct == 6 ==> |f| == 6 && Word(f[4], f[5]) == regs[0])
      && (t.fct == 15 ==> |f| == 7 + Fc15ByteCount(t.quantity) && f[6] == Fc15ByteCount(t.quantity))
      && (t.fct == 16 ==> |f| == 7 + 2 * t.quantity && f[6] == (2 * t.quantity) % 0x100
                          && BytesToWords(f[7..]) == regs[..t.quantity])
  {
    var f := Request(t, regs);
    WordBytes(t.address, 0, 0);
    WordBytes(t.quantity, 0, 0);
    if t.fct == 6 {
      WordBytes(regs[0], 0, 0);
    } else if t.fct == 16 {
      assert f[7..] == WordsToBytes(regs[..t.quantity]);
      WordsBytesRoundTrip(regs[..t.quantity]);
    }
  }

  /**
   * The master's function 15 byte count is the number of bytes the coils
   * need, ceil(q / 8), exactly when q % 16 is at most 8; otherwise it is one
   * byte short.
   */
  lemma Fc15ByteCountShort(q: u16)
    requires q < 2048
    ensures Fc15ByteCount(q) == CoilByteCount(q) <==> q % 16 <= 8
    ensures q % 16 > 8 ==> Fc15ByteCount(q) + 1 == CoilByteCount(q)
  {
    var a, r := q / 16, q % 16;
    assert a < 128 && a % 0x100 == a && (2 * a) % 0x100 == 2 * a;
    DivMod(q, 8, 2 * a + r / 8, r % 8);
    assert Fc15ByteCount(q) == if r != 0 then 2 * a + 1 else 2 * a;
  }

  /**
   * For every quantity, query's function 15 byte count is the count the
   * coils need, less one when q % 16 exceeds 8, truncated to uint8_t.
   */
  lemma Fc15ByteCountWraps(q: u16)
    ensures Fc15ByteCount(q) as int == (CoilByteCount(q) - (if q % 16 > 8 then 1 else 0)) % 0x100
  {
    var a, r := q / 16, q % 16;
    var e := if r != 0 then 1 else 0;
    DivMod(q, 8, 2 * a + r / 8, r % 8);
    assert CoilByteCount(q) - (if r > 8 then 1 else 0) == 2 * a + e;
    var m := a % 0x100;
    DivMod(2 * a, 0x100, a / 0x100 * 2 + (2 * m) / 0x100, (2 * m) % 0x100);
    var lo := (2 * m) % 0x100;
    DivMod(lo + e, 0x100, (lo + e) / 0x100, (lo + e) % 0x100);
    DivMod(2 * a + e, 0x100, (2 * a) / 0x100 + (lo + e) / 0x100, (lo + e) % 0x100);
  }

  // ------------------------------------------------------ fields of a frame

  function Start(b: seq<u8>): u16
    requires |b| == MaxBuffer
  {
    Word(b[2], b[3])
  }

  function Quantity(b: seq<u8>): u16
    requires |b| == MaxBuffer
  {
    Word(b[4], b[5])
  }

  /** Truncated to uint8_t, the start address and the quantity keep only their low bytes. */
  lemma ShortFields(b: seq<u8>)
    requires |b| == MaxBuffer
    ensures Start(b) % 0x100 == b[3] && Quantity(b) % 0x100 == b[5]
  {
    var s, q := Start(b), Quantity(b);
    DivMod(s, 0x100, b[2], b[3]);
    DivMod(q, 0x100, b[4], b[5]);
  }

  /** The CRC test on the first n bytes of the buffer. */
  predicate FrameCrcOk(b: seq<u8>, n: nat)
    requires |b| == MaxBuffer && 2 <= n <= MaxBuffer
  {
    CrcOk(b[..n])
  }

  // ---------------------------------------------------- slave validation

  /**
   * The address test of validateRequest for a supported function code: the
   * register count is computed in uint16_t, truncated to uint8_t and compared
   * with the table size. Coils are counted in whole registers.
   */
  function RangeCode(f: u8, s: u16, q: u16, size: u8): (code: u8)
    ensures code == 0 || code == ExcAddrRange
  {
    var regs :=
      if f == 1 || f == 2 || f == 15 then (s / 16 + q / 16) % 0x1_0000
      else if f == 5 then s / 16
      else if f == 6 then s
      else if f == 3 || f == 4 || f == 16 then (s + q) % 0x1_0000
      else 0;
    if regs % 0x100 > size then ExcAddrRange else 0
  }

  /**
   * Where no truncation intervenes, the address test accepts exactly the
   * requests whose last register index is at most the table size: start +
   * quantity for registers, whole registers of coils for coil runs, the
   * coil's register for function 5 and the register itself for function 6.
   */
  lemma RangeCodeWithin(f: u8, s: u16, q: u16, size: u8)
    ensures var code := RangeCode(f, s, q, size);
      && ((f == 3 || f == 4 || f == 16) && s as int + q < 0x100 ==> (code == 0 <==> s as int + q <= size))
      && ((f == 1 || f == 2 || f == 15) && s / 16 + q / 16 < 0x100 ==> (code == 0 <==> s / 16 + q / 16 <= size))
      && (f == 5 && s < 0x1000 ==> (code == 0 <==> s / 16 <= size))
      && (f == 6 && s < 0x100 ==> (code == 0 <==> s <= size))
      && (!Supported(f) ==> code == 0)
  {
    if f == 3 || f == 4 || f == 16 {
      if s as int + q < 0x100 {
        assert (s as int + q) % 0x1_0000 == s as int + q;
        assert ((s as int + q) % 0x1_0000) % 0x100 == s as int + q;
      }
    } else if f == 1 || f == 2 || f == 15 {
      if s / 16 + q / 16 < 0x100 {
        assert (s / 16 + q / 16) % 0x1_0000 == s / 16 + q / 16;
        assert ((s / 16 + q / 16) % 0x1_0000) % 0x100 == s / 16 + q / 16;
      }
    } else if f == 5 {
      if s < 0x1000 {
        assert (s / 16) % 0x100 == s / 16;
      }
    } else if f == 6 {
      if s < 0x100 {
        assert s % 0x100 == s;
      }
    }
  }

  /** validateRequest: the CRC first, then the function code, then the address range. */
  function RequestCheck(b: seq<u8>, n: nat, size: u8): (code: u8)
    requires |b| == MaxBuffer && 2 <= n <= MaxBuffer
    ensures code == 0 <==> FrameCrcOk(b, n) && Supported(b[1]) && RangeCode(b[1], Start(b), Quantity(b), size) == 0
    ensures code == NoReply <==> !FrameCrcOk(b, n)
  {
    if !FrameCrcOk(b, n) then NoReply
    else if !Supported(b[1]) then ExcFuncCode
    else RangeCode(b[1], Start(b), Quantity(b), size)
  }

  /** The exception reply of buildException, before the CRC. */
  function ExceptionReply(id: u8, fct: u8, code: u8): (r: seq<u8>)
    ensures |r| == ExceptionSize && r[0] == id && r[2] == code
    ensures r[1] == ToU8(fct + 0x80) && (fct < 0x80 ==> r[1] - 0x80 == fct)
  {
    [id, ToU8(fct + 0x80), code]
  }

  /** The range test admits a single-register write to address size, one register past a table of size registers. */
  lemma RegisterWritePastEnd(size: u8, q: u16)
    ensures RangeCode(6, size, q, size) == 0
  {
    DivMod(size, 0x100, 0, size);
  }

  /**
   * Coils are counted in whole registers, and the quantity is divided by 16
   * apart from the start: a two-coil read from the last bit of the last
   * register passes the test and reaches register size, past the table.
   */
  lemma CoilReadPastEnd(size: u8)
    requires size > 0
    ensures RangeCode(1, 16 * size - 1, 2, size) == 0 && CoilRegister(16 * size - 1, 1) == size
  {
    var s := 16 * size - 1;
    DivMod(s, 16, size - 1, 15);
    DivMod(2, 16, 0, 2);
    DivMod(size - 1, 0x1_0000, 0, size - 1);
    DivMod(size - 1, 0x100, 0, size - 1);
    DivMod(s + 1, 0x1_0000, 0, s + 1);
    DivMod(s + 1, 16, size, 0);
    DivMod(size, 0x100, 0, size);
  }

  // ---------------------------------------------------- slave processing

  /*
   * The processors of functions 3, 4, 6 and 16 truncate the start address
   * and the quantity to uint8_t, which keeps their low bytes b[3] and b[5]
   * (ShortFields); the definitions below use those bytes.
   */

  /** A read-coils request whose coils lie in a table of n registers and whose reply fits the buffer. */
  predicate CoilsReadFit(b: seq<u8>, n: nat)
    requires |b| == MaxBuffer
  {
    CoilsFit(n, Start(b), Quantity(b)) && 5 + CoilByteCount(Quantity(b)) <= MaxBuffer
  }

  /** A read-registers request whose run lies in the table, with a uint8_t loop counter that ends, and whose reply fits. */
  predicate RegistersReadFit(b: seq<u8>, n: nat)
    requires |b| == MaxBuffer
  {
    b[3] as int + b[5] <= 0xFF && b[3] as int + b[5] <= n && 5 + 2 * b[5] <= MaxBuffer
  }

  /** A write-coils request whose coils lie in the table and whose data bytes lie in the buffer. */
  predicate CoilsWriteFit(b: seq<u8>, n: nat)
    requires |b| == MaxBuffer
  {
    CoilsFit(n, Start(b), Quantity(b)) && 7 + CoilByteCount(Quantity(b)) <= MaxBuffer
  }

  /** A write-registers request whose run lies in the table and whose data bytes lie in the buffer. */
  predicate RegistersWriteFit(b: seq<u8>, n: nat)
    requires |b| == MaxBuffer
  {
    b[3] as int + b[5] <= n && 7 + 2 * b[5] <= MaxBuffer
  }

  /** What the processor of a valid request touches lies inside the frame buffer and the register table of n registers. */
  predicate ServiceFits(b: seq<u8>, n: nat)
    requires |b| == MaxBuffer
  {
    var f := b[1];
    (f == 1 || f == 2 ==> CoilsReadFit(b, n))
    && (f == 3 || f == 4 ==> RegistersReadFit(b, n))
    && (f == 5 ==> (Start(b) / 16) % 0x100 < n)
    && (f == 6 ==> b[3] < n)
    && (f == 15 ==> CoilsWriteFit(b, n))
    && (f == 16 ==> RegistersWriteFit(b, n))
  }

  /** The read-coils reply of process_FC1: the request's id and function, the byte count, then the coils eight to a byte. */
  function CoilsReply(b: seq<u8>, regs: seq<u16>): (r: seq<u8>)
    requires |b| == MaxBuffer && CoilsReadFit(b, |regs|)
  {
    b[..2] + [CoilByteCount(Quantity(b))] + CoilBytes(regs, Start(b), Quantity(b))
  }

  /** The read-registers reply of process_FC3: the byte count 2Q in uint8_t, then the registers high byte first. */
  function RegistersReply(b: seq<u8>, regs: seq<u16>): (r: seq<u8>)
    requires |b| == MaxBuffer && RegistersReadFit(b, |regs|)
  {
    b[..2] + [b[5] as int * 2 % 0x100] + WordsToBytes(regs[b[3] .. b[3] as int + b[5]])
  }

  /** The reply of process_FC16: the request header with the quantity bytes [0, Q]. */
  function RegistersWrittenReply(b: seq<u8>): (r: seq<u8>)
    requires |b| == MaxBuffer
  {
    b[..4] + [0, b[5]]
  }

  /** The reply a slave sends to a valid request, before the CRC; the single writes and the coil write echo the first six bytes. */
  function Reply(b: seq<u8>, regs: seq<u16>): (r: seq<u8>)
    requires |b| == MaxBuffer && Supported(b[1]) && ServiceFits(b, |regs|)
    ensures 3 <= |r| <= MaxBuffer - 2 && r[..2] == b[..2]
  {
    var f := b[1];
    if f == 1 || f == 2 then CoilsReply(b, regs)
    else if f == 3 || f == 4 then RegistersReply(b, regs)
    else if f == 16 then RegistersWrittenReply(b)
    else b[..ResponseSize]
  }

  /** Coil values of a function 15 request: coil c is bit c % 8 of data byte c / 8. */
  function CoilValues(b: seq<u8>, q: nat): (vs: seq<bool>)
    requires |b| == MaxBuffer && 7 + CoilByteCount(q) <= MaxBuffer
    ensures |vs| == q
  {
    seq(q, c requires 0 <= c < q => BitRead(b[7 + c / 8], c % 8))
  }

  /** The table after the registers start .. start + |data| / 2 take the big-endian words of data. */
  function WriteRegisters(regs: seq<u16>, start: nat, data: seq<u8>): (r: seq<u16>)
    requires start + |data| / 2 <= |regs|
    ensures |r| == |regs|
  {
    seq(|regs|, k requires 0 <= k < |regs| => WrittenRegister(regs, start, data, k))
  }

  function WrittenRegister(regs: seq<u16>, start: nat, data: seq<u8>, k: nat): u16
    requires start + |data| / 2 <= |regs| && k < |regs|
  {
    if start <= k < start + |data| / 2 then Word(data[2 * (k - start)], data[2 * (k - start) + 1]) else regs[k]
  }

  /** process_FC5: bit Start % 16 of register Start / 16, truncated to uint8_t, becomes b[4] == 0xFF. */
  function ForceCoil(b: seq<u8>, regs: seq<u16>): (r: seq<u16>)
    requires |b| == MaxBuffer && (Start(b) / 16) % 0x100 < |regs|
  {
    var k := (Start(b) / 16) % 0x100;
    regs[k := BitWrite16(regs[k], Start(b) % 16, b[4] == 0xFF)]
  }

  /** process_FC6: register b[3] takes the word in bytes 4 and 5. */
  function WriteRegister(b: seq<u8>, regs: seq<u16>): (r: seq<u16>)
    requires |b| == MaxBuffer && b[3] < |regs|
  {
    regs[b[3] := Word(b[4], b[5])]
  }

  /** process_FC15: the coils of the run take the request's data bits. */
  function ForceCoils(b: seq<u8>, regs: seq<u16>): (r: seq<u16>)
    requires |b| == MaxBuffer && CoilsWriteFit(b, |regs|)
  {
    WriteCoils(regs, Start(b), CoilValues(b, Quantity(b)))
  }

  /** process_FC16: registers b[3] .. b[3] + b[5] take the request's data words. */
  function PresetRegisters(b: seq<u8>, regs: seq<u16>): (r: seq<u16>)
    requires |b| == MaxBuffer && RegistersWriteFit(b, |regs|)
  {
    WriteRegisters(regs, b[3], b[7 .. 7 + 2 * b[5]])
  }

  /** The register table after the slave served a valid request. */
  function Effect(b: seq<u8>, regs: seq<u16>): (r: seq<u16>)
    requires |b| == MaxBuffer && Supported(b[1]) && ServiceFits(b, |regs|)
    ensures |r| == |regs|
  {
    var f := b[1];
    if f == 5 then ForceCoil(b, regs)
    else if f == 6 then WriteRegister(b, regs)
    else if f == 15 then ForceCoils(b, regs)
    else if f == 16 then PresetRegisters(b, regs)
    else regs
  }

  /**
   * Reads leave the table alone; a single write changes one register, in
   * one bit for a coil; a multiple-register write changes only its run.
   */
  lemma EffectTouchesOnlyTarget(b: seq<u8>, regs: seq<u16>, k: nat)
    requires |b| == MaxBuffer && Supported(b[1]) && ServiceFits(b, |regs|) && k < |regs|
    ensures var f, s, r := b[1], Start(b), Effect(b, regs);
      && (f <= 4 ==> r == regs)
      && (f == 5 && k != (s / 16) % 0x100 ==> r[k] == regs[k])
      && (f == 5 ==> (forall j: nat :: j < 16 ==>
                        (BitRead(r[(s / 16) % 0x100], j) == if j == s % 16 then b[4] == 0xFF else BitRead(regs[(s / 16) % 0x100], j))))
      && (f == 6 ==> r[k] == if k == b[3] then Word(b[4], b[5]) else regs[k])
      && (f == 16 ==> r[k] == if b[3] <= k < b[3] as int + b[5] then Word(b[7 + 2 * (k - b[3])], b[8 + 2 * (k - b[3])]) else regs[k])
  {
    var f := b[1];
    if f == 5 {
      ForceCoilTouches(b, regs, k);
    } else if f == 16 {
      PresetTouches(b, regs, k);
    }
  }

  /** process_FC5 changes one bit of one register. */
  lemma ForceCoilTouches(b: seq<u8>, regs: seq<u16>, k: nat)
    requires |b| == MaxBuffer && (Start(b) / 16) % 0x100 < |regs| && k < |regs|
    ensures var s, r := Start(b), ForceCoil(b, regs);
      && (k != (s / 16) % 0x100 ==> r[k] == regs[k])
      && (forall j: nat :: j < 16 ==>
            (BitRead(r[(s / 16) % 0x100], j) == if j == s % 16 then b[4] == 0xFF else BitRead(regs[(s / 16) % 0x100], j)))
  {
  }

  /** process_FC16 writes the registers of its run from the frame's words and keeps the others. */
  lemma PresetTouches(b: seq<u8>, regs: seq<u16>, k: nat)
    requires |b| == MaxBuffer && RegistersWriteFit(b, |regs|) && k < |regs|
    ensures PresetRegisters(b, regs)[k] == if b[3] <= k < b[3] as int + b[5] then Word(b[7 + 2 * (k - b[3])], b[8 + 2 * (k - b[3])]) else regs[k]
  {
  }

  /**
   * A function 15 write stores in each register bit the coil value the
   * request carries for it, and leaves the bits of other coils alone.
   */
  lemma WriteCoilsEffect(b: seq<u8>, regs: seq<u16>, r: nat, j: nat)
    requires |b| == MaxBuffer && b[1] == 15 && ServiceFits(b, |regs|) && r < |regs| && j < 16
    ensures var s, q := Start(b), Quantity(b);
      BitRead(Effect(b, regs)[r], j) ==
        if r < 0x100 && CoilOffset(s, r, j) < q
        then BitRead(b[7 + CoilOffset(s, r, j) / 8], CoilOffset(s, r, j) % 8)
        else BitRead(regs[r], j)
  {
    var s, q := Start(b), Quantity(b);
    var vs := CoilValues(b, q);
    assert Effect(b, regs) == WriteCoils(regs, s, vs);
    WriteCoilsBit(regs, s, vs, r, j);
    if r < 0x100 && CoilOffset(s, r, j) < q {
      assert vs[CoilOffset(s, r, j)] == BitRead(b[7 + CoilOffset(s, r, j) / 8], CoilOffset(s, r, j) % 8);
    }
  }

  // ---------------------------------------------------- master validation

  /** The shortest answer the master's poll passes to validateAnswer; a shorter frame is dropped unchecked. */
  const LeastAnswer: nat := 6

  /**
   * What the master's poll returns for a received frame of n bytes when
   * frames shorter than least bytes are dropped unchecked: the byte count
   * for a dropped frame and for a good answer, and otherwise the code of
   * validateAnswer read back through int8_t (NO_REPLY is -1, ERR_EXCEPTION
   * is -5).
   */
  function MasterCode(b: seq<u8>, n: nat, least: nat): int
    requires |b| == MaxBuffer && 2 <= least && n < MaxBuffer
  {
    if n < least then n
    else if AnswerCheck(b, n) != 0 then ToInt8(AnswerCheck(b, n))
    else n
  }

  /** validateAnswer: the CRC first, then the exception flag of the function code, then the function code. */
  function AnswerCheck(b: seq<u8>, n: nat): (code: u8)
    requires |b| == MaxBuffer && 2 <= n <= MaxBuffer
    ensures code == 0 <==> FrameCrcOk(b, n) && b[1] < 0x80 && Supported(b[1])
    ensures code == NoReply <==> !FrameCrcOk(b, n)
    ensures code == ErrException <==> FrameCrcOk(b, n) && b[1] >= 0x80
  {
    if !FrameCrcOk(b, n) then NoReply
    else if b[1] >= 0x80 then ErrException
    else if !Supported(b[1]) then ExcFuncCode
    else 0
  }

  // ---------------------------------------------------- master decoding

  /** What the decoder of an answer writes lies inside the frame buffer and the master's image of n registers. */
  predicate DecodeFits(b: seq<u8>, n: nat)
    requires |b| == MaxBuffer
  {
    (b[1] == 1 || b[1] == 2 ==> 3 + b[2] <= MaxBuffer && (b[2] + 1) / 2 <= n)
    && (b[1] == 3 || b[1] == 4 ==> 3 + 2 * (b[2] / 2) <= MaxBuffer && b[2] / 2 <= n)
  }

  /** get_FC1: data byte i becomes the low (i even) or high (i odd) half of register i / 2. */
  function Fc1Decode(regs: seq<u16>, b: seq<u8>): (r: seq<u16>)
    requires |b| == MaxBuffer && 3 + b[2] <= MaxBuffer && (b[2] + 1) / 2 <= |regs|
    ensures |r| == |regs|
  {
    seq(|regs|, k requires 0 <= k < |regs| =>
      if 2 * k < b[2] then Word(if 2 * k + 1 < b[2] then b[4 + 2 * k] else HighByte(regs[k]), b[3 + 2 * k])
      else regs[k])
  }

  /** get_FC3: the byte count / 2 big-endian words of the answer, into the first registers. */
  function Fc3Decode(regs: seq<u16>, b: seq<u8>): (r: seq<u16>)
    requires |b| == MaxBuffer && 3 + 2 * (b[2] / 2) <= MaxBuffer && b[2] / 2 <= |regs|
    ensures |r| == |regs|
  {
    WriteRegisters(regs, 0, b[3 .. 3 + 2 * (b[2] / 2)])
  }

  /** The master's image after a valid answer. */
  function Decode(regs: seq<u16>, b: seq<u8>): (r: seq<u16>)
    requires |b| == MaxBuffer && DecodeFits(b, |regs|)
    ensures |r| == |regs|
  {
    if b[1] == 1 || b[1] == 2 then Fc1Decode(regs, b)
    else if b[1] == 3 || b[1] == 4 then Fc3Decode(regs, b)
    else regs
  }
}
