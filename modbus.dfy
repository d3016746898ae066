/**
 * The Modbus RTU engine: one object that is either the master (id 0) or a
 * slave (id 1..247), with a 64-byte frame buffer it builds and receives
 * frames in. The serial port is two fields: rx, the bytes waiting to be
 * read, and tx, every frame written so far. The millisecond clock is the
 * parameter now of the methods that read it.
 */
module ModbusRtu {
  import opened Bits
  import opened Crc
  import opened Coils
  import opened Timing
  import opened Protocol

  /** validateRequest and validateAnswer: look the function code up in fctsupported. */
  method IsSupported(f: u8) returns (supported: bool)
    ensures supported <==> Supported(f)
  {
    supported := false;
    var i := 0;
    while i < |FunctionCodes|
      invariant 0 <= i <= |FunctionCodes|
      invariant f !in FunctionCodes[..i]
    {
      if FunctionCodes[i] == f {
        supported := true;
        break;
      }
      i := i + 1;
    }
    assert !supported ==> FunctionCodes[..i] == FunctionCodes;
  }

  /** The register and bit that hold a coil, as process_FC5 computes them. */
  method CoilAddress(coil: u16) returns (register: u8, bit: u8)
    ensures bit < 16 && register as int * 16 + bit == coil % 0x1000
  {
    register := (coil / 16) % 0x100;
    bit := coil % 16;
    var hi := coil / 16;
    assert coil == 16 * hi + bit && hi == 0x100 * (hi / 0x100) + register;
    DivMod(coil, 0x1000, hi / 0x100, register as int * 16 + bit);
  }

  /** The register and bit that hold coil c of a run from start, in uint16_t and uint8_t arithmetic as the coil loops compute them. */
  method CoilLocation(start: u16, c: nat) returns (register: u8, bit: u8)
    ensures register == CoilRegister(start, c) && bit == CoilBit(start, c)
  {
    var coil := (start + c) % 0x1_0000;
    register := (coil / 16) % 0x100;
    bit := coil % 16;
    CoilBitWrap(start + c);
  }

  /** (uint8_t) word(hi, lo): a word truncated to uint8_t keeps its low byte. */
  method WordToU8(hi: u8, lo: u8) returns (r: u8)
    ensures r == lo
  {
    WordBytes(0, hi, lo);
    r := LowByte(Word(hi, lo));
  }

  /** The byte count of process_FC1, in uint8_t arithmetic: whole bytes of coils, plus one for a partial byte. */
  method CoilBytesNo(q: u16) returns (bytesNo: u8)
    requires CoilByteCount(q) < 0x100
    ensures bytesNo == CoilByteCount(q)
  {
    bytesNo := (q / 8) % 0x100;
    if q % 8 != 0 {
      bytesNo := ToU8(bytesNo + 1);
    }
  }

  /** The byte count of a function 15 query, in uint8_t arithmetic: two bytes per whole word of coils, plus one for a partial word. */
  method Fc15BytesNo(q: u16) returns (bytesNo: u8)
    ensures bytesNo as int == (CoilByteCount(q) - (if q % 16 > 8 then 1 else 0)) % 0x100
  {
    var regsNo := (q / 16) % 0x100;
    bytesNo := regsNo * 2 % 0x100;
    if q % 16 != 0 {
      bytesNo := ToU8(bytesNo + 1);
      regsNo := ToU8(regsNo + 1);
    }
    Fc15ByteCountWraps(q);
  }

  /** The address test of validateRequest, on the function code, start address and quantity of a request. */
  method RangeException(f: u8, s: u16, q: u16, size: u8) returns (code: u8)
    ensures code == RangeCode(f, s, q, size)
    ensures (f == 3 || f == 4 || f == 16) && s as int + q < 0x100 ==> (code == 0 <==> s as int + q <= size)
    ensures (f == 1 || f == 2 || f == 15) && s / 16 + q / 16 < 0x100 ==> (code == 0 <==> s / 16 + q / 16 <= size)
    ensures f == 5 && s < 0x1000 ==> (code == 0 <==> s / 16 <= size)
    ensures f == 6 && s < 0x100 ==> (code == 0 <==> s <= size)
    ensures !Supported(f) ==> code == 0
  {
    var regs: int := 0;
    if f == 1 || f == 2 || f == 15 {
      regs := s / 16;
      regs := (regs + q / 16) % 0x1_0000;
    } else if f == 5 {
      regs := s / 16;
    } else if f == 6 {
      regs := s;
    } else if f == 3 || f == 4 || f == 16 {
      regs := (s + q) % 0x1_0000;
    }
    RangeCodeWithin(f, s, q, size);
    if regs % 0x100 > size {
      return ExcAddrRange;
    }
    return 0;
  }

  /** The inner loop of calcCRC: eight shifts of the register, each followed by an xor with 0xA001 when a 1 bit fell out. */
  method ShiftByte(c: u16) returns (temp: u16)
    ensures temp == Shifts(c, 8)
  {
    temp := c;
    var j := 1;
    while j <= 8
      invariant 1 <= j <= 9
      invariant temp == Shifts(c, j - 1)
    {
      ShiftsSnoc(c, j - 1);
      var flag := temp % 2;
      temp := temp / 2;
      if flag == 1 {
        temp := Xor16(temp, Poly);
      }
      j := j + 1;
    }
  }

  /**
   * What a slave's poll needs of the bytes waiting on the port: a frame
   * small enough for the buffer, and a valid request in it that its
   * processor can serve within the buffer and the register table.
   */
  predicate SlaveFits(rx: seq<u8>, buf: seq<u8>, id: u8, size: u8, n: nat) {
    |rx| <= MaxBuffer && |buf| == MaxBuffer
    && (7 <= |rx| < MaxBuffer && rx[0] == id && RequestCheck(Overlay(rx, buf), |rx|, size) == 0
        ==> ServiceFits(Overlay(rx, buf), n))
  }

  /** What the master's poll needs: a frame small enough for the buffer, and a valid answer in it that fits the master's image. */
  predicate MasterFits(rx: seq<u8>, buf: seq<u8>, n: nat) {
    |rx| <= MaxBuffer && |buf| == MaxBuffer
    && (LeastAnswer <= |rx| < MaxBuffer && AnswerCheck(Overlay(rx, buf), |rx|) == 0 ==> DecodeFits(Overlay(rx, buf), n))
  }

  class Modbus {
    /** 0 for the master, 1..247 for a slave. */
    var id: u8
    /** ComIdle or ComWaiting (master only). */
    var state: u8
    var lastError: u8
    const buffer: array<u8>
    var bufferSize: u8
    /** The byte count the previous poll saw on the port. */
    var lastRec: u8
    /** The register table the last query or slave poll named. */
    var registers: array<u16>
    var regSize: u8
    var inCnt: u16
    var outCnt: u16
    var errCnt: u16
    /** The watchdog period in milliseconds. */
    var timeOut: u16
    /** When lastRec was recorded. */
    var time: u32
    /** When the last frame was sent, or the slave last served a valid request. */
    var timeOutStart: u32
    var answerId: u8
    /** Bytes waiting on the serial port. */
    var rx: seq<u8>
    /** Frames written to the serial port, oldest first. */
    var tx: seq<seq<u8>>

    predicate Valid()
      reads this
    {
      buffer.Length == MaxBuffer && bufferSize <= MaxBuffer
    }

    /** An engine with node address id, a watchdog of 1000 ms, and a quiet port. */
    constructor(id: u8)
      ensures Valid() && fresh(buffer)
      ensures this.id == id && timeOut == 1000 && state == ComIdle
      ensures bufferSize == 0 && lastRec == 0 && inCnt == 0 && outCnt == 0 && errCnt == 0
      ensures rx == [] && tx == []
      ensures lastError == 0 && answerId == 0 && time == 0 && timeOutStart == 0
      ensures fresh(registers) && registers.Length == 0 && regSize == 0
    {
      this.id := id;
      timeOut := 1000;
      state := ComIdle;
      lastError := 0;
      buffer := new u8[MaxBuffer](_ => 0);
      bufferSize := 0;
      lastRec := 0;
      registers := new u16[0];
      regSize := 0;
      inCnt, outCnt, errCnt := 0, 0, 0;
      time, timeOutStart := 0, 0;
      answerId := 0;
      rx, tx := [], [];
    }

    /** setID: only slave addresses 1..247 are taken. */
    method SetId(newId: u8)
      modifies this`id
      ensures id == if 1 <= newId <= 247 then newId else old(id)
    {
      if newId != 0 && newId <= 247 {
        id := newId;
      }
    }

    method SetTimeOut(t: u16)
      modifies this`timeOut
      ensures timeOut == t
    {
      timeOut := t;
    }

    /** getTimeOutState: more than timeOut milliseconds since timeOutStart, by unsigned 32-bit subtraction. */
    function TimeOutState(now: u32): bool
      reads this
    {
      TimedOut(now, timeOutStart, timeOut)
    }

    /** getTimeOutState turns true exactly when more than timeOut milliseconds have passed since timeOutStart, across a clock wrap too. */
    lemma TimeOutStateAfter(d: nat)
      requires d < Wrap
      ensures TimeOutState(Later(timeOutStart, d)) <==> d > timeOut
    {
      WatchdogFires(timeOutStart, d, timeOut);
    }

    /** calcCRC: the CRC-16/MODBUS of the first length bytes of the buffer, bytes swapped. */
    method CalcCrc(length: u8) returns (crc: u16)
      requires Valid() && length <= MaxBuffer
      ensures crc == Crc16(buffer[..length])
    {
      var temp: u16 := 0xFFFF;
      var i := 0;
      assert buffer[0..length] == buffer[..length];
      while i < length
        invariant 0 <= i <= length
        invariant CrcFrom(temp, buffer[i..length]) == Register(buffer[..length])
      {
        assert buffer[i..length][1..] == buffer[i + 1..length];
        temp := Xor16(temp, buffer[i]);
        temp := ShiftByte(temp);
        i := i + 1;
      }
      SwapArithmetic(temp);
      crc := (temp * 0x100 + temp / 0x100) % 0x1_0000;
    }

    /** sendTxBuffer: append the CRC, high byte of calcCRC first, write the frame, and restart the watchdog. */
    method SendTxBuffer(now: u32)
      requires Valid() && bufferSize + 2 <= MaxBuffer
      modifies buffer, this`bufferSize, this`timeOutStart, this`outCnt, this`tx
      ensures tx == old(tx) + [AppendCrc(old(buffer[..bufferSize]))]
      ensures buffer[..] == Overlay(AppendCrc(old(buffer[..bufferSize])), old(buffer[..]))
      ensures bufferSize == 0 && timeOutStart == now && outCnt == Inc16(old(outCnt))
    {
      ghost var pre: seq<u8>, n := buffer[..], bufferSize;
      var crc := CalcCrc(bufferSize);
      buffer[bufferSize] := crc / 0x100;
      bufferSize := bufferSize + 1;
      buffer[bufferSize] := crc % 0x100;
      bufferSize := bufferSize + 1;
      ghost var post: seq<u8> := pre[n := HighByte(crc)][n + 1 := LowByte(crc)];
      assert buffer[..] == post;
      TwoBytesWritten(pre, n, HighByte(crc), LowByte(crc), post);
      assert AppendCrc(pre[..n]) == pre[..n] + [HighByte(crc), LowByte(crc)];
      tx := tx + [buffer[..bufferSize]];
      bufferSize := 0;
      timeOutStart := now;
      outCnt := Inc16(outCnt);
    }

    /**
     * The common end of every process_FC* method: the reply built in the
     * buffer over the request base is sent, and its length with the CRC
     * is returned.
     */
    method SendReply(now: u32, ghost reply: seq<u8>, ghost base: seq<u8>) returns (r: int)
      requires Valid() && |reply| + 2 <= MaxBuffer && |base| == MaxBuffer
      requires buffer[..bufferSize] == reply && buffer[bufferSize..] == base[bufferSize..]
      modifies buffer, this`bufferSize, this`timeOutStart, this`outCnt, this`tx
      ensures Sent(reply, base, old(tx), old(outCnt))
      ensures r == |reply| + 2
      ensures timeOutStart == now
    {
      ghost var pre := buffer[..];
      r := bufferSize + 2;
      SendTxBuffer(now);
      OverlayAgrees(AppendCrc(reply), pre, base);
    }

    /**
     * query, master only: send the request t describes and wait for the
     * answer. A slave gets -2, a master still waiting -1, a telegram for
     * the broadcast address or an address past 247 gets -3, and none of
     * these touches the engine. Otherwise the request frame and its CRC are
     * sent, the master remembers t.registers as the image the answer goes
     * into, and it waits.
     */
    method Query(t: Telegram, now: u32) returns (r: int)
      requires Valid()
      requires id == 0 && state == ComIdle && 1 <= t.id <= 247 ==> RequestFits(t, t.registers.Length)
      modifies buffer, this`bufferSize, this`timeOutStart, this`outCnt, this`tx
      modifies this`registers, this`state, this`lastError
      ensures r == if old(id) != 0 then -2 else if old(state) != ComIdle then -1
                   else if t.id == 0 || t.id > 247 then -3 else 0
      ensures r != 0 ==> unchanged(this) && unchanged(buffer)
      ensures r == 0 ==>
        && tx == old(tx) + [AppendCrc(Request(t, t.registers[..]))]
        && buffer[..] == Overlay(AppendCrc(Request(t, t.registers[..])), old(buffer[..]))
        && registers == t.registers && state == ComWaiting && lastError == 0
        && bufferSize == 0 && timeOutStart == now && outCnt == Inc16(old(outCnt))
    {
      if id != 0 {
        return -2;
      }
      if state != ComIdle {
        return -1;
      }
      if t.id == 0 || t.id > 247 {
        return -3;
      }
      registers := t.registers;
      ghost var base := buffer[..];
      BuildRequest(t);
      ghost var built := buffer[..];
      SendTxBuffer(now);
      OverlayAgrees(AppendCrc(Request(t, t.registers[..])), built, base);
      state := ComWaiting;
      lastError := 0;
      r := 0;
    }

    /** The frame query builds for t, up to the CRC, over the bytes of t.registers. */
    method BuildRequest(t: Telegram)
      requires Valid() && RequestFits(t, t.registers.Length)
      modifies buffer, this`bufferSize
      ensures bufferSize + 2 <= MaxBuffer && buffer[..bufferSize] == Request(t, t.registers[..])
      ensures buffer[bufferSize..] == old(buffer[..])[bufferSize..]
    {
      ghost var base := buffer[..];
      ghost var header := [t.id, t.fct, HighByte(t.address), LowByte(t.address)];
      ghost var quantity := [HighByte(t.quantity), LowByte(t.quantity)];
      ghost var frame: seq<u8>;
      buffer[0] := t.id;
      buffer[1] := t.fct;
      buffer[2] := HighByte(t.address);
      buffer[3] := LowByte(t.address);
      if t.fct == 5 {
        buffer[4] := if t.registers[0] > 0 then 0xFF else 0;
        buffer[5] := 0;
        bufferSize := 6;
        frame := header + [buffer[4], 0];
        assert buffer[..bufferSize] == frame;
        assert buffer[bufferSize..] == base[bufferSize..];
      } else if t.fct == 6 {
        buffer[4] := HighByte(t.registers[0]);
        buffer[5] := LowByte(t.registers[0]);
        bufferSize := 6;
        frame := header + [buffer[4], buffer[5]];
        assert buffer[..bufferSize] == frame;
        assert buffer[bufferSize..] == base[bufferSize..];
      } else if t.fct == 15 {
        assert buffer[..4] == header;
        BuildFc15Request(t);
        frame := header + RequestFc15Tail(t, t.registers[..]);
      } else if t.fct == 16 {
        assert buffer[..4] == header;
        BuildFc16Request(t);
        frame := header + RequestFc16Tail(t, t.registers[..]);
      } else {
        buffer[4] := HighByte(t.quantity);
        buffer[5] := LowByte(t.quantity);
        bufferSize := 6;
        frame := header + quantity;
        assert buffer[..bufferSize] == frame;
        assert buffer[bufferSize..] == base[bufferSize..];
      }
      assert frame == Request(t, t.registers[..]);
    }

    /** The function 15 case of query: quantity, byte count and the coil bytes after the 4-byte header. */
    method BuildFc15Request(t: Telegram)
      requires Valid() && t.fct == 15 && RequestFits(t, t.registers.Length)
      modifies buffer, this`bufferSize
      ensures bufferSize + 2 <= MaxBuffer && buffer[..bufferSize] == old(buffer[..4]) + RequestFc15Tail(t, t.registers[..])
      ensures buffer[bufferSize..] == old(buffer[..])[bufferSize..]
    {
      ghost var base := buffer[..];
      var bytesNo := Fc15BytesNo(t.quantity);
      Fc15ByteCountWraps(t.quantity);
      buffer[4] := HighByte(t.quantity);
      buffer[5] := LowByte(t.quantity);
      buffer[6] := bytesNo;
      bufferSize := 7;
      assert buffer[..7] == base[..4] + [HighByte(t.quantity), LowByte(t.quantity), bytesNo];
      ghost var mid := buffer[..];
      CopyWordBytes(t.registers, bytesNo);
      assert buffer[bufferSize..] == mid[bufferSize..] == base[bufferSize..];
    }

    /** The function 16 case of query: quantity, byte count and the registers after the 4-byte header. */
    method BuildFc16Request(t: Telegram)
      requires Valid() && t.fct == 16 && RequestFits(t, t.registers.Length)
      modifies buffer, this`bufferSize
      ensures bufferSize + 2 <= MaxBuffer && buffer[..bufferSize] == old(buffer[..4]) + RequestFc16Tail(t, t.registers[..])
      ensures buffer[bufferSize..] == old(buffer[..])[bufferSize..]
    {
      ghost var base := buffer[..];
      buffer[4] := HighByte(t.quantity);
      buffer[5] := LowByte(t.quantity);
      buffer[6] := ToU8(2 * t.quantity);
      bufferSize := 7;
      assert buffer[..7] == base[..4] + [HighByte(t.quantity), LowByte(t.quantity), ToU8(2 * t.quantity)];
      ghost var mid := buffer[..];
      CopyRegisters(t.registers, 0, t.quantity as u8);
      assert buffer[bufferSize..] == mid[bufferSize..] == base[bufferSize..];
    }

    /**
     * The byte loop of a function 15 query: n bytes taken from the words of
     * regs, high byte first, so that an odd count ends on a high byte.
     */
    method CopyWordBytes(regs: array<u16>, n: u8)
      requires Valid() && (n + 1) / 2 <= regs.Length && bufferSize + n + 2 <= MaxBuffer
      modifies buffer, this`bufferSize
      ensures bufferSize == old(bufferSize) + n
      ensures buffer[..bufferSize] == old(buffer[..bufferSize]) + WordsToBytes(regs[..(n + 1) / 2])[..n]
      ensures forall k :: bufferSize <= k < MaxBuffer ==> buffer[k] == old(buffer[k])
    {
      ghost var head := buffer[..bufferSize];
      ghost var size0 := bufferSize;
      ghost var bytes := WordsToBytes(regs[..(n + 1) / 2]);
      var i := 0;
      while i < n
        invariant 0 <= i <= n && bufferSize == size0 + i
        invariant buffer[..bufferSize] == head + bytes[..i]
        invariant forall k :: bufferSize <= k < MaxBuffer ==> buffer[k] == old(buffer[k])
      {
        ghost var done := buffer[..bufferSize];
        if i % 2 == 1 {
          buffer[bufferSize] := LowByte(regs[i / 2]);
        } else {
          buffer[bufferSize] := HighByte(regs[i / 2]);
        }
        assert buffer[bufferSize] == bytes[i];
        bufferSize := bufferSize + 1;
        assert buffer[..bufferSize] == done + [bytes[i]];
        assert bytes[..i + 1] == bytes[..i] + [bytes[i]];
        i := i + 1;
      }
    }

    /** getRxBuffer: move every waiting byte into the buffer; 64 or more bytes overflow it. */
    method GetRxBuffer() returns (r: int)
      requires Valid() && |rx| <= MaxBuffer
      modifies buffer, this`bufferSize, this`rx, this`inCnt, this`errCnt
      ensures buffer[..] == Overlay(old(rx), old(buffer[..]))
      ensures bufferSize == |old(rx)| && rx == [] && inCnt == Inc16(old(inCnt))
      ensures |old(rx)| >= MaxBuffer ==> r == ErrBuffOverflow && errCnt == Inc16(old(errCnt))
      ensures |old(rx)| < MaxBuffer ==> r == |old(rx)| && errCnt == old(errCnt)
    {
      var overflow := false;
      bufferSize := 0;
      while |rx| > 0
        invariant bufferSize <= MaxBuffer && bufferSize + |rx| == |old(rx)|
        invariant rx == old(rx)[bufferSize..]
        invariant forall k :: 0 <= k < MaxBuffer ==> buffer[k] == if k < bufferSize then old(rx)[k] else old(buffer[k])
        invariant overflow <==> bufferSize >= MaxBuffer
        modifies buffer, this`bufferSize, this`rx
        decreases |rx|
      {
        ghost var n, arrived := bufferSize, old(rx);
        assert rx[1..] == arrived[n + 1..];
        buffer[bufferSize] := rx[0];
        rx := rx[1..];
        bufferSize := bufferSize + 1;
        if bufferSize >= MaxBuffer {
          overflow := true;
        }
      }
      assert buffer[..] == Overlay(old(rx), old(buffer[..]));
      inCnt := Inc16(inCnt);
      if overflow {
        errCnt := Inc16(errCnt);
        return ErrBuffOverflow;
      }
      return bufferSize;
    }

    /** validateRequest: the slave's checks of the received frame, against the table size regSize. */
    method ValidateRequest() returns (code: u8)
      requires Valid() && 2 <= bufferSize
      modifies this`errCnt
      ensures code == RequestCheck(buffer[..], bufferSize, regSize)
      ensures errCnt == if code == NoReply || code == ExcFuncCode then Inc16(old(errCnt)) else old(errCnt)
    {
      var msgCrc := Word(buffer[bufferSize - 2], buffer[bufferSize - 1]);
      var crc := CalcCrc(bufferSize - 2);
      assert buffer[..bufferSize][..bufferSize - 2] == buffer[..bufferSize - 2];
      if crc != msgCrc {
        errCnt := Inc16(errCnt);
        return NoReply;
      }
      var supported := IsSupported(buffer[1]);
      if !supported {
        errCnt := Inc16(errCnt);
        return ExcFuncCode;
      }
      code := RangeException(buffer[1], Word(buffer[2], buffer[3]), Word(buffer[4], buffer[5]), regSize);
    }

    /** validateAnswer: the master's checks of the received frame. */
    method ValidateAnswer() returns (code: u8)
      requires Valid() && 2 <= bufferSize
      modifies this`errCnt
      ensures code == AnswerCheck(buffer[..], bufferSize)
      ensures errCnt == if code == 0 then old(errCnt) else Inc16(old(errCnt))
    {
      var msgCrc := Word(buffer[bufferSize - 2], buffer[bufferSize - 1]);
      var crc := CalcCrc(bufferSize - 2);
      assert buffer[..bufferSize][..bufferSize - 2] == buffer[..bufferSize - 2];
      ghost var crcOk := FrameCrcOk(buffer[..], bufferSize);
      assert crcOk <==> crc == msgCrc;
      if crc != msgCrc {
        errCnt := Inc16(errCnt);
        return NoReply;
      }
      assert AnswerCheck(buffer[..], bufferSize) == if buffer[1] >= 0x80 then ErrException else if !Supported(buffer[1]) then ExcFuncCode else 0;
      if buffer[1] >= 0x80 {
        errCnt := Inc16(errCnt);
        return ErrException;
      }
      var supported := IsSupported(buffer[1]);
      if !supported {
        errCnt := Inc16(errCnt);
        return ExcFuncCode;
      }
      return 0;
    }

    /** buildException: the exception reply, over the start of the request. */
    method BuildException(code: u8)
      requires Valid()
      modifies buffer, this`bufferSize
      ensures buffer[..] == Overlay(ExceptionReply(id, old(buffer[1]), code), old(buffer[..]))
      ensures bufferSize == ExceptionSize
    {
      var f: int := buffer[1];
      buffer[0] := id;
      buffer[1] := ToU8(f + 0x80);
      buffer[2] := code;
      bufferSize := ExceptionSize;
    }

    /** get_FC1: answer byte i into the low (i even) or high (i odd) half of register i / 2 of the master's image. */
    method GetFc1()
      requires Valid() && 3 + buffer[2] <= MaxBuffer && (buffer[2] + 1) / 2 <= registers.Length
      modifies registers
      ensures registers[..] == Fc1Decode(old(registers[..]), buffer[..])
    {
      var i: u8 := 0;
      while i < buffer[2]
        invariant i <= buffer[2]
        invariant forall k :: 0 <= k < registers.Length ==>
          (registers[k] == if 2 * k < i then Word(if 2 * k + 1 < i then buffer[4 + 2 * k] else HighByte(old(registers[k])), buffer[3 + 2 * k])
                           else old(registers[k]))
      {
        var w := registers[i / 2];
        if i % 2 == 1 {
          WordBytes(w, HighByte(old(registers[i / 2])), buffer[i + 2]);
          registers[i / 2] := Word(buffer[i + 3], LowByte(w));
        } else {
          WordBytes(w, 0, 0);
          registers[i / 2] := Word(HighByte(w), buffer[i + 3]);
        }
        i := i + 1;
      }
    }

    /** get_FC3: the byte count / 2 big-endian words of the answer into the first registers of the master's image. */
    method GetFc3()
      requires Valid() && 3 + 2 * (buffer[2] / 2) <= MaxBuffer && buffer[2] / 2 <= registers.Length
      modifies registers
      ensures registers[..] == Fc3Decode(old(registers[..]), buffer[..])
    {
      var byte: u8 := 3;
      var i: u8 := 0;
      while i < buffer[2] / 2
        invariant i <= buffer[2] / 2 && byte == 3 + 2 * i
        invariant forall k :: 0 <= k < registers.Length ==>
          (registers[k] == if k < i then Word(buffer[3 + 2 * k], buffer[4 + 2 * k]) else old(registers[k]))
      {
        registers[i] := Word(buffer[byte], buffer[byte + 1]);
        byte := byte + 2;
        i := i + 1;
      }
    }

    /**
     * poll, master side. The watchdog comes first: more than timeOut
     * milliseconds after the last request, the master gives up (NoReply,
     * one more error) whether or not an answer is on its way. Otherwise
     * bytes are taken only once their count has stood still for T35
     * milliseconds; the frame is then read, checked and decoded.
     */
    method PollMaster(now: u32) returns (r: int)
      requires Valid() && MasterFits(rx, buffer[..], registers.Length)
      modifies buffer, registers, this`bufferSize, this`rx, this`inCnt, this`errCnt
      modifies this`answerId, this`state, this`lastError, this`lastRec, this`time
      ensures var arrival := Arrive(|old(rx)|, old(lastRec), now, old(time));
        && (TimedOut(now, old(timeOutStart), old(timeOut)) ==>
              r == 0 && state == ComIdle && lastError == NoReply && errCnt == Inc16(old(errCnt))
              && answerId == 0 && rx == old(rx) && lastRec == old(lastRec) && time == old(time)
              && inCnt == old(inCnt) && bufferSize == old(bufferSize) && unchanged(buffer, registers))
        && (!TimedOut(now, old(timeOutStart), old(timeOut)) && arrival != Ready ==>
              r == 0 && state == old(state) && lastError == old(lastError) && errCnt == old(errCnt)
              && answerId == 0 && rx == old(rx) && inCnt == old(inCnt) && bufferSize == old(bufferSize)
              && (arrival == Growing ==> lastRec == |old(rx)| && time == now)
              && (arrival != Growing ==> lastRec == old(lastRec) && time == old(time))
              && unchanged(buffer, registers))
        && (!TimedOut(now, old(timeOutStart), old(timeOut)) && arrival == Ready ==>
              lastRec == 0 && state == ComIdle && lastError == old(lastError) && time == old(time)
              && inCnt == Inc16(old(inCnt))
              && Answered(old(rx), old(buffer[..]), old(registers[..]), old(errCnt), r))
    {
      answerId := 0;
      var current := |rx|;
      if TimedOut(now, timeOutStart, timeOut) {
        state := ComIdle;
        lastError := NoReply;
        errCnt := Inc16(errCnt);
        return 0;
      }
      if current == 0 {
        return 0;
      }
      if current != lastRec {
        lastRec := current;
        time := now;
        return 0;
      }
      if Elapsed(now, time) < T35 {
        return 0;
      }
      lastRec := 0;
      r := TakeAnswer();
    }

    /**
     * What the master makes of a frame rx received over buffer base, with
     * image regs and error count errors before it: the engine state after
     * it, and r, the result of poll.
     */
    ghost predicate Answered(rx0: seq<u8>, base: seq<u8>, regs: seq<u16>, errors: u16, r: int)
      requires |rx0| <= MaxBuffer && |base| == MaxBuffer && MasterFits(rx0, base, |regs|)
      reads this, buffer, registers
    {
      var frame, n := Overlay(rx0, base), |rx0|;
      && buffer[..] == frame && bufferSize == n && rx == []
      && (n >= MaxBuffer ==>
            r == ErrBuffOverflow && errCnt == Inc16(Inc16(errors)) && answerId == 0 && registers[..] == regs)
      && (n < MaxBuffer ==> r == MasterCode(frame, n, LeastAnswer))
      && (n < LeastAnswer ==>
            errCnt == Inc16(errors) && answerId == 0 && registers[..] == regs)
      && (LeastAnswer <= n < MaxBuffer && AnswerCheck(frame, n) != 0 ==>
            errCnt == Inc16(errors) && answerId == 0 && registers[..] == regs)
      && (LeastAnswer <= n < MaxBuffer && AnswerCheck(frame, n) == 0 ==>
            errCnt == errors && answerId == frame[0] && registers[..] == Decode(regs, frame))
    }

    /**
     * An exception reply is five bytes with its CRC, one short of the
     * shortest answer the master's poll checks: poll drops it unchecked,
     * counts an error and returns 5, and never reports ERR_EXCEPTION.
     */
    lemma ExceptionReplyDropped(id: u8, fct: u8, code: u8, base: seq<u8>, regs: seq<u16>, errors: u16, r: int)
      requires |base| == MaxBuffer && MasterFits(AppendCrc(ExceptionReply(id, fct, code)), base, |regs|)
      requires Answered(AppendCrc(ExceptionReply(id, fct, code)), base, regs, errors, r)
      ensures r == ExceptionSize + 2 && r != ToInt8(ErrException)
      ensures errCnt == Inc16(errors) && answerId == 0 && registers[..] == regs
    {
    }

    /** The second half of the master's poll: read the frame, check it, and decode a good answer into the image. */
    method TakeAnswer() returns (r: int)
      requires Valid() && MasterFits(rx, buffer[..], registers.Length) && answerId == 0
      modifies buffer, registers, this`bufferSize, this`rx, this`inCnt, this`errCnt, this`answerId, this`state
      ensures state == ComIdle && inCnt == Inc16(old(inCnt))
      ensures Answered(old(rx), old(buffer[..]), old(registers[..]), old(errCnt), r)
    {
      ghost var regs := registers[..];
      var received := GetRxBuffer();
      if received < LeastAnswer as int {
        state := ComIdle;
        errCnt := Inc16(errCnt);
        return received;
      }
      var exception := ValidateAnswer();
      if exception != 0 {
        state := ComIdle;
        return ToInt8(exception);
      }
      answerId := buffer[0];
      if buffer[1] == 1 || buffer[1] == 2 {
        GetFc1();
      } else if buffer[1] == 3 || buffer[1] == 4 {
        GetFc3();
      }
      state := ComIdle;
      return bufferSize;
    }

    /**
     * poll(regs, size), slave side: regs and size become the register
     * table. Bytes are taken only once their count has stood still for T35
     * milliseconds; the frame is then read, and a request for this slave
     * is checked and served.
     */
    method PollSlave(regs: array<u16>, size: u8, now: u32) returns (r: int)
      requires Valid() && SlaveFits(rx, buffer[..], id, size, regs.Length)
      modifies regs, buffer, this`registers, this`regSize, this`bufferSize, this`rx, this`inCnt, this`errCnt
      modifies this`lastError, this`lastRec, this`time, this`timeOutStart, this`outCnt, this`tx
      ensures registers == regs && regSize == size
      ensures var arrival := Arrive(|old(rx)|, old(lastRec), now, old(time));
        && (arrival != Ready ==>
              r == 0 && rx == old(rx) && tx == old(tx) && lastError == old(lastError) && errCnt == old(errCnt)
              && inCnt == old(inCnt) && outCnt == old(outCnt) && timeOutStart == old(timeOutStart)
              && bufferSize == old(bufferSize)
              && (arrival == Growing ==> lastRec == |old(rx)| && time == now)
              && (arrival != Growing ==> lastRec == old(lastRec) && time == old(time))
              && unchanged(buffer, regs))
        && (arrival == Ready ==>
              lastRec == 0 && inCnt == Inc16(old(inCnt)) && time == old(time)
              && Served(old(rx), old(buffer[..]), old(regs[..]), regs, size, old(errCnt), old(tx), old(outCnt),
                        old(timeOutStart), now, r))
    {
      registers := regs;
      regSize := size;
      var current := |rx|;
      if current == 0 {
        return 0;
      }
      if current != lastRec {
        lastRec := current;
        time := now;
        return 0;
      }
      if Elapsed(now, time) < T35 {
        return 0;
      }
      lastRec := 0;
      r := ServeRequest(regs, now);
    }

    /**
     * What the slave makes of a frame rx0 received over buffer base, with
     * table regs (regs0 before it) of size entries, error count errors,
     * frames sent and out-count outs, and watchdog start start: r is the
     * result of poll. A frame too short, too long or for another node is
     * dropped; any other frame is checked and answered.
     */
    ghost predicate Served(rx0: seq<u8>, base: seq<u8>, regs0: seq<u16>, regs: array<u16>, size: u8, errors: u16,
                           sent: seq<seq<u8>>, outs: u16, start: u32, now: u32, r: int)
      requires |rx0| <= MaxBuffer && |base| == MaxBuffer && SlaveFits(rx0, base, id, size, |regs0|)
      reads this, buffer, regs
    {
      var frame, n := Overlay(rx0, base), |rx0|;
      && rx == []
      && (n >= MaxBuffer ==>
            r == ErrBuffOverflow && lastError == ToU8(ErrBuffOverflow) && errCnt == Inc16(errors)
            && Ignored(frame, n, regs0, regs, sent, outs, start))
      && (n < 7 ==>
            r == n && lastError == n && errCnt == errors && Ignored(frame, n, regs0, regs, sent, outs, start))
      && (7 <= n < MaxBuffer && frame[0] != id ==>
            r == 0 && lastError == n && errCnt == errors && Ignored(frame, n, regs0, regs, sent, outs, start))
      && (7 <= n < MaxBuffer && frame[0] == id ==>
            Handled(frame, n, regs0, regs, size, errors, sent, outs, start, now, r))
    }

    /**
     * What the slave makes of a request frame of n bytes for it: a bad CRC
     * is dropped and counted, any other failed check gets an exception
     * reply, and a valid request is served.
     */
    ghost predicate Handled(frame: seq<u8>, n: nat, regs0: seq<u16>, regs: array<u16>, size: u8, errors: u16,
                             sent: seq<seq<u8>>, outs: u16, start: u32, now: u32, r: int)
      requires |frame| == MaxBuffer && 7 <= n < MaxBuffer
      requires RequestCheck(frame, n, size) == 0 ==> ServiceFits(frame, |regs0|)
      reads this, buffer, regs
    {
      var code := RequestCheck(frame, n, size);
      && (code == NoReply ==>
            r == -1 && lastError == NoReply && errCnt == Inc16(errors)
            && Ignored(frame, n, regs0, regs, sent, outs, start))
      && (code != NoReply && code != 0 ==>
            r == code && lastError == code
            && errCnt == (if code == ExcFuncCode then Inc16(errors) else errors)
            && regs[..] == regs0 && timeOutStart == now
            && Sent(ExceptionReply(id, frame[1], code), frame, sent, outs))
      && (code == 0 ==> Done(frame, regs0, regs, errors, sent, outs, now, r))
    }

    /** A valid request served: the table took its effect, and the reply went out. */
    ghost predicate Done(frame: seq<u8>, regs0: seq<u16>, regs: array<u16>, errors: u16,
                         sent: seq<seq<u8>>, outs: u16, now: u32, r: int)
      requires |frame| == MaxBuffer && Supported(frame[1]) && ServiceFits(frame, |regs0|)
      reads this`lastError, this`errCnt, this`timeOutStart, this`tx, this`bufferSize, this`outCnt, buffer, regs
    {
      r == |Reply(frame, regs0)| + 2 && lastError == 0 && errCnt == errors
      && regs[..] == Effect(frame, regs0) && timeOutStart == now
      && Sent(Reply(frame, regs0), frame, sent, outs)
    }

    /** A dropped frame: it stays in the buffer, and nothing is sent or written. */
    ghost predicate Ignored(frame: seq<u8>, n: nat, regs0: seq<u16>, regs: array<u16>, sent: seq<seq<u8>>, outs: u16, start: u32)
      reads this`bufferSize, this`tx, this`outCnt, this`timeOutStart, buffer, regs
    {
      buffer[..] == frame && bufferSize == n && regs[..] == regs0 && tx == sent && outCnt == outs && timeOutStart == start
    }

    /** A reply sent: it and its CRC went out, written over the frame in the buffer. */
    ghost predicate Sent(reply: seq<u8>, frame: seq<u8>, sent: seq<seq<u8>>, outs: u16)
      requires |reply| + 2 <= |frame|
      reads this`tx, this`bufferSize, this`outCnt, buffer
    {
      tx == sent + [AppendCrc(reply)] && buffer[..] == Overlay(AppendCrc(reply), frame)
      && bufferSize == 0 && outCnt == Inc16(outs)
    }

    /** The second half of the slave's poll: read the frame, and answer it if it is a request for this node. */
    method ServeRequest(regs: array<u16>, now: u32) returns (r: int)
      requires Valid() && SlaveFits(rx, buffer[..], id, regSize, regs.Length)
      modifies regs, buffer, this`bufferSize, this`rx, this`inCnt, this`errCnt
      modifies this`lastError, this`timeOutStart, this`outCnt, this`tx
      ensures inCnt == Inc16(old(inCnt))
      ensures Served(old(rx), old(buffer[..]), old(regs[..]), regs, regSize, old(errCnt), old(tx), old(outCnt),
                     old(timeOutStart), now, r)
    {
      ghost var regs0, sent, outs, start := regs[..], tx, outCnt, timeOutStart;
      var received := GetRxBuffer();
      ghost var frame, n := buffer[..], bufferSize;
      assert Ignored(frame, n, regs0, regs, sent, outs, start);
      lastError := ToU8(received);
      if received < 7 {
        return received;
      }
      if buffer[0] != id {
        return 0;
      }
      r := AnswerRequest(regs, now);
    }

    /** The checks of the slave's poll on a request for this node, and the answer: an exception, or the request served. */
    method AnswerRequest(regs: array<u16>, now: u32) returns (r: int)
      requires Valid() && 7 <= bufferSize < MaxBuffer
      requires RequestCheck(buffer[..], bufferSize, regSize) == 0 ==> ServiceFits(buffer[..], regs.Length)
      modifies regs, buffer, this`bufferSize, this`errCnt, this`lastError, this`timeOutStart, this`outCnt, this`tx
      ensures Handled(old(buffer[..]), old(bufferSize), old(regs[..]), regs, regSize, old(errCnt), old(tx), old(outCnt),
                      old(timeOutStart), now, r)
    {
      var exception := ValidateRequest();
      if exception > 0 {
        r := Refuse(exception, now);
        return;
      }
      r := Serve(regs, now);
    }

    /** A request that failed a check: silence for a bad CRC, an exception reply otherwise; the code is recorded and returned. */
    method Refuse(code: u8, now: u32) returns (r: int)
      requires Valid() && code != 0
      modifies buffer, this`bufferSize, this`timeOutStart, this`outCnt, this`tx, this`lastError
      ensures lastError == code && r == ToInt8(code)
      ensures code == NoReply ==>
        unchanged(buffer) && bufferSize == old(bufferSize) && tx == old(tx) && outCnt == old(outCnt)
        && timeOutStart == old(timeOutStart)
      ensures code != NoReply ==>
        Sent(ExceptionReply(id, old(buffer[1]), code), old(buffer[..]), old(tx), old(outCnt)) && timeOutStart == now
    {
      if code != NoReply {
        SendException(code, now);
      }
      lastError := code;
      return ToInt8(code);
    }

    /** A request that passed every check: the watchdog restarts, the error clears, and the request is processed. */
    method Serve(regs: array<u16>, now: u32) returns (r: int)
      requires Valid() && Supported(buffer[1]) && ServiceFits(buffer[..], regs.Length)
      modifies regs, buffer, this`bufferSize, this`lastError, this`timeOutStart, this`outCnt, this`tx
      ensures Done(old(buffer[..]), old(regs[..]), regs, old(errCnt), old(tx), old(outCnt), now, r)
    {
      ghost var b, rs := buffer[..], regs[..];
      timeOutStart := now;
      lastError := 0;
      assert buffer[..] == b && regs[..] == rs;
      r := Process(regs, now);
    }

    /** The exception branch of the slave's poll: buildException, then sendTxBuffer. */
    method SendException(code: u8, now: u32)
      requires Valid()
      modifies buffer, this`bufferSize, this`timeOutStart, this`outCnt, this`tx
      ensures Sent(ExceptionReply(id, old(buffer[1]), code), old(buffer[..]), old(tx), old(outCnt))
      ensures timeOutStart == now
    {
      ghost var frame := buffer[..];
      ghost var reply := ExceptionReply(id, buffer[1], code);
      BuildException(code);
      assert buffer[..bufferSize] == reply;
      ghost var built := buffer[..];
      SendTxBuffer(now);
      OverlayAgrees(AppendCrc(reply), built, frame);
    }

    /**
     * The switch at the end of the slave's poll: a valid request goes to
     * the processor of its function code, which changes the table and
     * sends the reply.
     */
    method Process(regs: array<u16>, now: u32) returns (r: int)
      requires Valid() && Supported(buffer[1]) && ServiceFits(buffer[..], regs.Length)
      modifies regs, buffer, this`bufferSize, this`timeOutStart, this`outCnt, this`tx
      ensures regs[..] == Effect(old(buffer[..]), old(regs[..]))
      ensures Sent(Reply(old(buffer[..]), old(regs[..])), old(buffer[..]), old(tx), old(outCnt))
      ensures r == |Reply(old(buffer[..]), old(regs[..]))| + 2
      ensures timeOutStart == now
    {
      ghost var b, regs0 := buffer[..], regs[..];
      var f := buffer[1];
      if f == 1 || f == 2 {
        r := ProcessFc1(regs, now);
        assert Reply(b, regs0) == CoilsReply(b, regs0);
      } else if f == 3 || f == 4 {
        r := ProcessFc3(regs, now);
        assert Reply(b, regs0) == RegistersReply(b, regs0);
      } else if f == 5 {
        r := ProcessFc5(regs, now);
        assert Reply(b, regs0) == b[..ResponseSize];
      } else if f == 6 {
        r := ProcessFc6(regs, now);
        assert Reply(b, regs0) == b[..ResponseSize];
      } else if f == 15 {
        r := ProcessFc15(regs, now);
        assert Reply(b, regs0) == b[..ResponseSize];
      } else {
        assert f == 16;
        r := ProcessFc16(regs, now);
        assert Reply(b, regs0) == RegistersWrittenReply(b);
      }
    }

    /** process_FC1 (functions 1 and 2): reply with the requested coils packed eight to a byte, least significant bit first. */
    method ProcessFc1(regs: array<u16>, now: u32) returns (r: int)
      requires Valid() && CoilsReadFit(buffer[..], regs.Length)
      modifies buffer, this`bufferSize, this`timeOutStart, this`outCnt, this`tx
      ensures Sent(CoilsReply(old(buffer[..]), regs[..]), old(buffer[..]), old(tx), old(outCnt))
      ensures r == 5 + CoilByteCount(Quantity(old(buffer[..])))
      ensures timeOutStart == now
    {
      ghost var b := buffer[..];
      ghost var reply := CoilsReply(b, regs[..]);
      var start := Word(buffer[2], buffer[3]);
      var q := Word(buffer[4], buffer[5]);
      assert start == Start(b) && q == Quantity(b);
      var bytesNo := CoilBytesNo(q);
      buffer[2] := bytesNo;
      bufferSize := 3;
      buffer[bufferSize + bytesNo - 1] := 0;
      PackCoils(regs, start, q, bytesNo);
      if q % 8 != 0 {
        bufferSize := bufferSize + 1;
      }
      assert buffer[..bufferSize] == reply by {
        assert buffer[..2] == b[..2] && buffer[2] == CoilByteCount(q);
        assert buffer[..bufferSize] == buffer[..2] + [buffer[2]] + buffer[3 .. 3 + bytesNo];
      }
      assert buffer[bufferSize..] == b[bufferSize..];
      r := SendReply(now, reply, b);
    }

    /** process_FC3 (functions 3 and 4): reply with the requested registers, high byte first; start and quantity are truncated to uint8_t. */
    method ProcessFc3(regs: array<u16>, now: u32) returns (r: int)
      requires Valid() && RegistersReadFit(buffer[..], regs.Length)
      modifies buffer, this`bufferSize, this`timeOutStart, this`outCnt, this`tx
      ensures Sent(RegistersReply(old(buffer[..]), regs[..]), old(buffer[..]), old(tx), old(outCnt))
      ensures r == 5 + 2 * old(buffer[5])
      ensures timeOutStart == now
    {
      ghost var b := buffer[..];
      ghost var reply := RegistersReply(b, regs[..]);
      var start := WordToU8(buffer[2], buffer[3]);
      var regsNo := WordToU8(buffer[4], buffer[5]);
      buffer[2] := regsNo * 2 % 0x100;
      bufferSize := 3;
      ghost var head := buffer[..3];
      assert head == reply[..3];
      CopyRegisters(regs, start, regsNo);
      assert buffer[..bufferSize] == head + WordsToBytes(regs[start .. start + regsNo]) == reply;
      assert buffer[bufferSize..] == b[bufferSize..];
      r := SendReply(now, reply, b);
    }

    /**
     * The register loops of process_FC3 and of a function 16 query:
     * registers start .. start + regsNo are appended to the frame, high
     * byte first.
     */
    method CopyRegisters(regs: array<u16>, start: u8, regsNo: u8)
      requires Valid() && start + regsNo <= 0xFF && start + regsNo <= regs.Length
      requires bufferSize + 2 * regsNo + 2 <= MaxBuffer
      modifies buffer, this`bufferSize
      ensures bufferSize == old(bufferSize) + 2 * regsNo
      ensures buffer[..bufferSize] == old(buffer[..bufferSize]) + WordsToBytes(regs[start .. start + regsNo])
      ensures forall k :: bufferSize <= k < MaxBuffer ==> buffer[k] == old(buffer[k])
    {
      ghost var head := buffer[..bufferSize];
      ghost var size0 := bufferSize;
      var i := start;
      while i < start + regsNo
        invariant start <= i <= start + regsNo && bufferSize == size0 + 2 * (i - start)
        invariant buffer[..bufferSize] == head + WordsToBytes(regs[start .. i])
        invariant forall k :: bufferSize <= k < MaxBuffer ==> buffer[k] == old(buffer[k])
        modifies buffer, this`bufferSize
      {
        ghost var done := buffer[..bufferSize];
        buffer[bufferSize] := HighByte(regs[i]);
        bufferSize := bufferSize + 1;
        buffer[bufferSize] := LowByte(regs[i]);
        bufferSize := bufferSize + 1;
        assert buffer[..bufferSize] == done + [HighByte(regs[i]), LowByte(regs[i])];
        assert regs[start .. i + 1] == regs[start .. i] + [regs[i]];
        WordsToBytesSnoc(regs[start .. i], regs[i]);
        i := i + 1;
      }
    }

    /** process_FC5: force bit addr % 16 of register addr / 16 (truncated to uint8_t) to buf[4] == 0xFF; the reply echoes the request. */
    method ProcessFc5(regs: array<u16>, now: u32) returns (r: int)
      requires Valid() && (Start(buffer[..]) / 16) % 0x100 < regs.Length
      modifies regs, buffer, this`bufferSize, this`timeOutStart, this`outCnt, this`tx
      ensures regs[..] == ForceCoil(old(buffer[..]), old(regs[..]))
      ensures Sent(old(buffer[..ResponseSize]), old(buffer[..]), old(tx), old(outCnt))
      ensures r == ResponseSize + 2
      ensures timeOutStart == now
    {
      ghost var b := buffer[..];
      var coil := Word(buffer[2], buffer[3]);
      assert coil == Start(b);
      var register, bit := CoilAddress(coil);
      assert register == (coil / 16) % 0x100 && bit == coil % 16 by {
        DivMod(coil % 0x1000, 16, register, bit);
        CoilNumberMod(coil);
        assert coil % 0x1_0000 == coil;
      }
      regs[register] := BitWrite16(regs[register], bit, buffer[4] == 0xFF);
      bufferSize := ResponseSize;
      r := SendReply(now, b[..ResponseSize], b);
    }

    /** process_FC6: write one register, its address truncated to uint8_t; the reply echoes the request. */
    method ProcessFc6(regs: array<u16>, now: u32) returns (r: int)
      requires Valid() && buffer[3] < regs.Length
      modifies regs, buffer, this`bufferSize, this`timeOutStart, this`outCnt, this`tx
      ensures regs[..] == WriteRegister(old(buffer[..]), old(regs[..]))
      ensures Sent(old(buffer[..ResponseSize]), old(buffer[..]), old(tx), old(outCnt))
      ensures r == ResponseSize + 2
      ensures timeOutStart == now
    {
      ghost var b := buffer[..];
      var add := WordToU8(buffer[2], buffer[3]);
      var value := Word(buffer[4], buffer[5]);
      regs[add] := value;
      bufferSize := ResponseSize;
      r := SendReply(now, b[..ResponseSize], b);
    }

    /** process_FC15: coil c takes bit c % 8 of request byte 7 + c / 8; the reply echoes the request. */
    method ProcessFc15(regs: array<u16>, now: u32) returns (r: int)
      requires Valid() && CoilsWriteFit(buffer[..], regs.Length)
      modifies regs, buffer, this`bufferSize, this`timeOutStart, this`outCnt, this`tx
      ensures regs[..] == ForceCoils(old(buffer[..]), old(regs[..]))
      ensures Sent(old(buffer[..ResponseSize]), old(buffer[..]), old(tx), old(outCnt))
      ensures r == ResponseSize + 2
      ensures timeOutStart == now
    {
      ghost var b := buffer[..];
      var start := Word(buffer[2], buffer[3]);
      var q := Word(buffer[4], buffer[5]);
      assert start == Start(b) && q == Quantity(b);
      UnpackCoils(regs, start, q);
      bufferSize := ResponseSize;
      r := SendReply(now, b[..ResponseSize], b);
    }

    /** The coil loop of process_FC15. */
    method UnpackCoils(regs: array<u16>, start: u16, q: u16)
      requires Valid() && CoilsFit(regs.Length, start, q) && 7 + CoilByteCount(q) <= MaxBuffer
      modifies regs
      ensures regs[..] == WriteCoils(old(regs[..]), start, CoilValues(buffer[..], q))
    {
      ghost var vs, r0 := CoilValues(buffer[..], q), regs[..];
      var bitsNo: u8 := 0;
      var frameByte: u8 := 7;
      var c := 0;
      while c < q
        invariant 0 <= c <= q && frameByte == 7 + c / 8 && bitsNo == c % 8
        invariant regs[..] == WriteCoils(r0, start, vs[..c])
      {
        var register, bit := CoilLocation(start, c);
        var value := BitRead(buffer[frameByte], bitsNo);
        assert value == vs[c];
        ghost var prev := regs[..];
        regs[register] := BitWrite16(regs[register], bit, value);
        assert regs[..] == prev[register := BitWrite16(prev[register], bit, value)];
        WriteCoilsSnoc(r0, start, vs, c);
        NextBit(c);
        bitsNo := bitsNo + 1;
        if bitsNo > 7 {
          bitsNo := 0;
          frameByte := frameByte + 1;
        }
        c := c + 1;
      }
      assert vs[..q] == vs;
    }

    /** process_FC16: write the run of registers from the request, start and quantity truncated to uint8_t; the reply carries the quantity as [0, quantity]. */
    method ProcessFc16(regs: array<u16>, now: u32) returns (r: int)
      requires Valid() && RegistersWriteFit(buffer[..], regs.Length)
      modifies regs, buffer, this`bufferSize, this`timeOutStart, this`outCnt, this`tx
      ensures regs[..] == PresetRegisters(old(buffer[..]), old(regs[..]))
      ensures Sent(RegistersWrittenReply(old(buffer[..])), old(buffer[..]), old(tx), old(outCnt))
      ensures r == ResponseSize + 2
      ensures timeOutStart == now
    {
      ghost var b := buffer[..];
      var start := WordToU8(buffer[2], buffer[3]);
      var regsNo := WordToU8(buffer[4], buffer[5]);
      buffer[4] := 0;
      buffer[5] := regsNo;
      bufferSize := ResponseSize;
      assert buffer[7 .. 7 + 2 * regsNo] == b[7 .. 7 + 2 * regsNo];
      WriteWords(regs, start, regsNo);
      assert regs[..] == PresetRegisters(b, old(regs[..]));
      assert buffer[..bufferSize] == RegistersWrittenReply(b);
      assert buffer[bufferSize..] == b[bufferSize..];
      r := SendReply(now, RegistersWrittenReply(b), b);
    }

    /** The register loop of process_FC16: register start + i takes the big-endian word at request bytes 7 + 2i and 8 + 2i. */
    method WriteWords(regs: array<u16>, start: u8, regsNo: u8)
      requires Valid() && start + regsNo <= regs.Length && 7 + 2 * regsNo <= MaxBuffer
      modifies regs
      ensures regs[..] == WriteRegisters(old(regs[..]), start, buffer[7 .. 7 + 2 * regsNo])
    {
      var i: u8 := 0;
      while i < regsNo
        invariant i <= regsNo
        invariant forall k :: 0 <= k < regs.Length ==>
          (regs[k] == if start <= k < start + i then Word(buffer[7 + 2 * (k - start)], buffer[8 + 2 * (k - start)]) else old(regs[k]))
      {
        var temp := Word(buffer[7 + i * 2], buffer[8 + i * 2]);
        regs[start + i] := temp;
        i := i + 1;
      }
    }

    /**
     * The coil loop of process_FC1: bit c % 8 of reply byte 3 + c / 8 takes
     * coil c; the last byte was cleared first, so its padding bits stay 0.
     */
    method PackCoils(regs: array<u16>, start: u16, q: u16, bytesNo: u8)
      requires Valid() && bufferSize == 3 && bytesNo == CoilByteCount(q) && 3 + bytesNo <= MaxBuffer
      requires CoilsFit(regs.Length, start, q)
      requires q % 8 != 0 ==> buffer[3 + q / 8] == 0
      modifies buffer, this`bufferSize
      ensures bufferSize == 3 + q / 8 && buffer[3 .. 3 + bytesNo] == CoilBytes(regs[..], start, q)
      ensures forall k :: 0 <= k < MaxBuffer && !(3 <= k < 3 + bytesNo) ==> buffer[k] == old(buffer[k])
    {
      ghost var pre := buffer[..];
      if q % 8 != 0 {
        forall j: nat ensures !BitRead(0, j) {
          ZeroBits(j);
        }
      }
      var bitsNo: u8 := 0;
      var c := 0;
      ghost var data: seq<u8> := pre[3 .. 3 + bytesNo];
      while c < q
        invariant 0 <= c <= q && 3 <= bufferSize && bitsNo < 8 && c == 8 * (bufferSize - 3) + bitsNo && |data| == bytesNo
        invariant forall k :: 0 <= k < MaxBuffer ==> buffer[k] == if 3 <= k < 3 + bytesNo then data[k - 3] else pre[k]
        invariant BitsPacked(data, regs[..], start, q, c)
        invariant PaddingClear(data, q)
        modifies buffer, this`bufferSize
      {
        var register, bit := CoilLocation(start, c);
        DivMod(c, 8, bufferSize - 3, bitsNo);
        PackBitStep(data, regs[..], start, q, c);
        buffer[bufferSize] := BitWrite8(buffer[bufferSize], bitsNo, BitRead(regs[register], bit));
        data := data[c / 8 := BitWrite8(data[c / 8], c % 8, Coil(regs[..], start, c))];
        bitsNo := bitsNo + 1;
        if bitsNo > 7 {
          bitsNo := 0;
          bufferSize := bufferSize + 1;
        }
        c := c + 1;
      }
      DivMod(q, 8, bufferSize - 3, bitsNo);
      assert buffer[3 .. 3 + bytesNo] == data;
      CoilBytesFromBits(buffer[3 .. 3 + bytesNo], regs[..], start, q);
    }
  }
}
