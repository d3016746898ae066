/**
 * The two roles of the engine against each other: a frame one side sends
 * is what the other side receives, written over whatever its buffer held
 * (Overlay of the frame with its CRC). These lemmas follow a query from the
 * master's buffer through the slave's checks and processors, and the reply
 * back through the master's checks and decoders.
 */
module Exchange {
  import opened Bits
  import opened Crc
  import opened Coils
  import opened Protocol

  /** The frame a receiver holds after a message s and its CRC arrived over base. */
  function Received(s: seq<u8>, base: seq<u8>): (f: seq<u8>)
    requires |s| + 2 <= MaxBuffer && |base| == MaxBuffer
    ensures |f| == MaxBuffer && f[..|s|] == s
  {
    var f := Overlay(AppendCrc(s), base);
    assert f[..|s|] == AppendCrc(s)[..|s|];
    f
  }

  /** A receive buffer f whose first bytes are the message s. */
  predicate Holds(f: seq<u8>, s: seq<u8>) {
    |f| == MaxBuffer && |s| + 2 <= MaxBuffer && f[..|s|] == s
  }

  /** A receive buffer f holding the message s followed by a CRC that checks. */
  predicate Carries(f: seq<u8>, s: seq<u8>) {
    Holds(f, s) && FrameCrcOk(f, |s| + 2)
  }

  /** Whatever the receiver's buffer held, a frame sent with its CRC arrives whole and passes the receiver's CRC test. */
  lemma ReceivedCarries(s: seq<u8>, base: seq<u8>)
    requires |s| + 2 <= MaxBuffer && |base| == MaxBuffer
    ensures Carries(Received(s, base), s)
  {
    var f := Received(s, base);
    assert f[..|s| + 2] == AppendCrc(s);
    AppendCrcOk(s);
  }

  /**
   * Every request query builds reaches the slave addressed to t.id with
   * its function code and address intact, passes the CRC and function code
   * tests of validateRequest, and can be refused only by the address test.
   */
  lemma RequestAccepted(t: Telegram, regs: seq<u16>, f: seq<u8>, size: u8)
    requires RequestFits(t, |regs|) && Carries(f, Request(t, regs))
    ensures 8 <= |Request(t, regs)| + 2
    ensures f[0] == t.id && f[1] == t.fct && Start(f) == t.address
    ensures t.fct != 5 && t.fct != 6 ==> Quantity(f) == t.quantity
    ensures RequestCheck(f, |Request(t, regs)| + 2, size) == RangeCode(t.fct, t.address, Quantity(f), size)
  {
    assert |Request(t, regs)| >= 6;
    RequestHead(t, regs, f);
    if t.fct != 5 && t.fct != 6 {
      RequestQuantity(t, regs, f);
    }
  }

  /** Writing a block of register bytes replaces exactly the registers the block covers. */
  lemma WriteRegistersSplice(table: seq<u16>, a: nat, data: seq<u8>)
    requires a + |data| / 2 <= |table|
    ensures WriteRegisters(table, a, data) == table[..a] + BytesToWords(data) + table[a + |data| / 2..]
  {
    var r, expected := WriteRegisters(table, a, data), table[..a] + BytesToWords(data) + table[a + |data| / 2..];
    forall k | 0 <= k < |table| ensures r[k] == expected[k] {
      if a <= k < a + |data| / 2 {
        assert r[k] == BytesToWords(data)[k - a];
      }
    }
  }

  /** The header of a request as the slave reads it: slave id, function code and start address, whole in uint8_t below 256. */
  lemma RequestHead(t: Telegram, regs: seq<u16>, f: seq<u8>)
    requires RequestFits(t, |regs|) && Holds(f, Request(t, regs))
    ensures f[..4] == Request(t, regs)[..4] && f[0] == t.id && f[1] == t.fct && Start(f) == t.address
    ensures t.address < 0x100 ==> f[3] == t.address
  {
    var header := [t.id, t.fct, HighByte(t.address), LowByte(t.address)];
    assert f[..4] == Request(t, regs)[..4] == header by {
      var s := Request(t, regs);
      assert s[..4] == header;
      assert f[..|s|] == s;
    }
    assert f[0] == t.id && f[1] == t.fct && f[2] == HighByte(t.address) && f[3] == LowByte(t.address);
    WordBytes(t.address, 0, 0);
  }

  /** The quantity field of a request other than a single write, whole in uint8_t below 256. */
  lemma RequestQuantity(t: Telegram, regs: seq<u16>, f: seq<u8>)
    requires RequestFits(t, |regs|) && t.fct != 5 && t.fct != 6 && Holds(f, Request(t, regs))
    ensures Quantity(f) == t.quantity && (t.quantity < 0x100 ==> f[5] == t.quantity)
  {
    var s := Request(t, regs);
    assert s[4..6] == [HighByte(t.quantity), LowByte(t.quantity)];
    assert f[4..6] == s[4..6] by {
      assert f[..|s|] == s;
    }
    WordBytes(t.quantity, 0, 0);
  }

  /** A single write, function 5 or 6, is six bytes long and arrives whole. */
  lemma SingleWrite(t: Telegram, regs: seq<u16>, f: seq<u8>)
    requires RequestFits(t, |regs|) && (t.fct == 5 || t.fct == 6) && Holds(f, Request(t, regs))
    ensures f[..ResponseSize] == Request(t, regs)
    ensures t.fct == 5 ==> f[4] == (if regs[0] > 0 then 0xFF else 0)
    ensures t.fct == 6 ==> Word(f[4], f[5]) == regs[0]
  {
    var s := Request(t, regs);
    assert |s| == 6 && f[..6] == s;
    WordBytes(regs[0], 0, 0);
  }

  /** The data of a function 16 request as the slave reads it from its buffer. */
  lemma Fc16Data(t: Telegram, regs: seq<u16>, f: seq<u8>)
    requires RequestFits(t, |regs|) && t.fct == 16 && Holds(f, Request(t, regs))
    ensures 7 + 2 * t.quantity <= MaxBuffer
    ensures f[7 .. 7 + 2 * t.quantity] == WordsToBytes(regs[..t.quantity])
  {
    var s := Request(t, regs);
    var a, q := t.address, t.quantity;
    assert s == [t.id, t.fct, HighByte(a), LowByte(a)] + [HighByte(q), LowByte(q), ToU8(2 * q)] + WordsToBytes(regs[..q]);
    assert f[7 .. 7 + 2 * q] == s[7..] by {
      assert f[..|s|] == s;
    }
  }

  /** A function 16 request carrying the bytes of words at register a writes exactly those registers. */
  lemma Fc16Preset(f: seq<u8>, a: u8, words: seq<u16>, table: seq<u16>)
    requires |f| == MaxBuffer && f[3] == a && f[5] == |words| && 7 + 2 * |words| <= MaxBuffer
    requires f[7 .. 7 + 2 * |words|] == WordsToBytes(words) && a as int + |words| <= |table|
    ensures RegistersWriteFit(f, |table|)
    ensures PresetRegisters(f, table) == table[..a] + words + table[a as int + |words|..]
  {
    WordsBytesRoundTrip(words);
    WriteRegistersSplice(table, a, WordsToBytes(words));
  }

  /**
   * Function 16 end to end: for a first register below 256 (the slave
   * keeps only the low byte of the address), the slave's table takes the
   * master's registers 0 .. Q - 1 at the address and nothing else changes,
   * and the reply echoes the request's header with the quantity [0, Q].
   */
  lemma WriteRegistersExchange(t: Telegram, regs: seq<u16>, f: seq<u8>, table: seq<u16>)
    requires RequestFits(t, |regs|) && t.fct == 16 && Holds(f, Request(t, regs))
    requires t.address < 0x100 && t.address + t.quantity <= |table|
    ensures RegistersWriteFit(f, |table|)
    ensures PresetRegisters(f, table) == table[..t.address] + regs[..t.quantity] + table[t.address + t.quantity..]
    ensures RegistersWrittenReply(f) == Request(t, regs)[..4] + [0, t.quantity]
  {
    RequestHead(t, regs, f);
    RequestQuantity(t, regs, f);
    Fc16Data(t, regs, f);
    Fc16Preset(f, t.address as u8, regs[..t.quantity], table);
  }

  /** The fields of a read-registers reply as the master reads them from its buffer. */
  lemma RegistersReplyFields(b: seq<u8>, table: seq<u16>, g: seq<u8>)
    requires |b| == MaxBuffer && RegistersReadFit(b, |table|) && Holds(g, RegistersReply(b, table))
    ensures g[1] == b[1] && g[2] == 2 * b[5] && 3 + 2 * b[5] <= MaxBuffer
    ensures g[3 .. 3 + 2 * b[5]] == WordsToBytes(table[b[3] .. b[3] as int + b[5]])
  {
    var r := RegistersReply(b, table);
    assert g[..|r|] == r;
    assert g[3 .. 3 + 2 * b[5]] == r[3..];
  }

  /** An answer to function 3 or 4 carrying the bytes of words puts those words first in the master's image. */
  lemma Fc3Decoded(g: seq<u8>, words: seq<u16>, image: seq<u16>)
    requires |g| == MaxBuffer && (g[1] == 3 || g[1] == 4) && |words| <= |image|
    requires g[2] == 2 * |words| && 3 + 2 * |words| <= MaxBuffer && g[3 .. 3 + 2 * |words|] == WordsToBytes(words)
    ensures DecodeFits(g, |image|)
    ensures Decode(image, g) == words + image[|words|..]
  {
    var data := WordsToBytes(words);
    assert Decode(image, g) == WriteRegisters(image, 0, data) by {
      assert g[2] / 2 == |words|;
    }
    WordsBytesRoundTrip(words);
    WriteRegistersSplice(image, 0, data);
    assert image[..0] + words == words;
  }

  /**
   * Functions 3 and 4, from the slave's reply to the master's image: the
   * master's first Q registers become the slave's registers Start .. Start + Q - 1
   * and the rest of its image is kept.
   */
  lemma RegistersReplyDecoded(b: seq<u8>, table: seq<u16>, g: seq<u8>, image: seq<u16>)
    requires |b| == MaxBuffer && (b[1] == 3 || b[1] == 4) && RegistersReadFit(b, |table|)
    requires Holds(g, RegistersReply(b, table)) && b[5] <= |image|
    ensures DecodeFits(g, |image|)
    ensures Decode(image, g) == table[b[3] .. b[3] as int + b[5]] + image[b[5]..]
  {
    RegistersReplyFields(b, table, g);
    Fc3Decoded(g, table[b[3] .. b[3] as int + b[5]], image);
  }

  /**
   * Functions 3 and 4 end to end: when the run lies in the slave's table
   * and below register 256, the master's first Q registers end up holding
   * the slave's registers at the requested address.
   */
  lemma ReadRegistersExchange(t: Telegram, regs: seq<u16>, f: seq<u8>, table: seq<u16>, g: seq<u8>, image: seq<u16>)
    requires RequestFits(t, |regs|) && (t.fct == 3 || t.fct == 4) && Holds(f, Request(t, regs))
    requires t.address + t.quantity <= 0xFF && t.address + t.quantity <= |table| && 5 + 2 * t.quantity <= MaxBuffer
    ensures RegistersReadFit(f, |table|)
    ensures Holds(g, RegistersReply(f, table)) && t.quantity <= |image| ==>
      DecodeFits(g, |image|) && Decode(image, g) == table[t.address .. t.address + t.quantity] + image[t.quantity..]
  {
    assert f[1] == t.fct && f[3] == t.address && f[5] == t.quantity by {
      RequestHead(t, regs, f);
      RequestQuantity(t, regs, f);
    }
    if Holds(g, RegistersReply(f, table)) && t.quantity <= |image| {
      RegistersReplyDecoded(f, table, g, image);
    }
  }

  /**
   * Function 6 end to end: for an address below 256 inside the slave's
   * table, the slave's register at the address takes the master's register
   * 0, nothing else changes, and the reply is the request itself.
   */
  lemma WriteRegisterExchange(t: Telegram, regs: seq<u16>, f: seq<u8>, table: seq<u16>)
    requires RequestFits(t, |regs|) && t.fct == 6 && Holds(f, Request(t, regs))
    requires t.address < 0x100 && t.address < |table|
    ensures f[3] < |table| && WriteRegister(f, table) == table[t.address := regs[0]]
    ensures f[..ResponseSize] == Request(t, regs)
  {
    RequestHead(t, regs, f);
    SingleWrite(t, regs, f);
  }

  /**
   * Function 5 end to end: for a coil whose register lies in the slave's
   * table, that coil becomes whether the master's register 0 is non-zero,
   * every other bit of the table is kept, and the reply is the request
   * itself.
   */
  lemma ForceCoilExchange(t: Telegram, regs: seq<u16>, f: seq<u8>, table: seq<u16>)
    requires RequestFits(t, |regs|) && t.fct == 5 && Holds(f, Request(t, regs))
    requires t.address / 16 < |table| && t.address / 16 < 0x100
    ensures (Start(f) / 16) % 0x100 == t.address / 16
    ensures var r := ForceCoil(f, table);
      && BitRead(r[t.address / 16], t.address % 16) == (regs[0] > 0)
      && (forall j :: j != t.address % 16 ==> BitRead(r[t.address / 16], j) == BitRead(table[t.address / 16], j))
      && (forall k :: 0 <= k < |table| && k != t.address / 16 ==> r[k] == table[k])
    ensures f[..ResponseSize] == Request(t, regs)
  {
    RequestHead(t, regs, f);
    SingleWrite(t, regs, f);
    DivMod(t.address / 16, 0x100, 0, t.address / 16);
  }

  /** The fields of a read-coils reply as the master reads them from its buffer. */
  lemma CoilsReplyFields(b: seq<u8>, table: seq<u16>, g: seq<u8>)
    requires |b| == MaxBuffer && CoilsReadFit(b, |table|) && Holds(g, CoilsReply(b, table))
    ensures g[1] == b[1] && g[2] == CoilByteCount(Quantity(b)) && 3 + g[2] <= MaxBuffer
    ensures g[3 .. 3 + g[2]] == CoilBytes(table, Start(b), Quantity(b))
  {
    var r := CoilsReply(b, table);
    assert g[..|r|] == r;
    assert g[3 .. 3 + g[2]] == r[3..];
  }

  /** get_FC1 puts data byte i into the low (i even) or high (i odd) byte of register i / 2 of the master's image. */
  lemma Fc1DecodedByte(g: seq<u8>, image: seq<u16>, i: nat)
    requires |g| == MaxBuffer && 3 + g[2] <= MaxBuffer && (g[2] + 1) / 2 <= |image| && i < g[2]
    ensures if i % 2 == 0 then LowByte(Fc1Decode(image, g)[i / 2]) == g[3 + i] else HighByte(Fc1Decode(image, g)[i / 2]) == g[3 + i]
  {
    var k := i / 2;
    var w := Fc1Decode(image, g)[k];
    if i % 2 == 0 {
      var hi := if 2 * k + 1 < g[2] then g[4 + 2 * k] else HighByte(image[k]);
      assert i == 2 * k && w == Word(hi, g[3 + i]);
      WordBytes(0, hi, g[3 + i]);
    } else {
      assert i == 2 * k + 1 && w == Word(g[3 + i], g[3 + 2 * k]);
      WordBytes(0, g[3 + i], g[3 + 2 * k]);
    }
  }

  /** Bit j of the low byte of a register is bit j of the register, bit j of its high byte is bit 8 + j. */
  lemma ByteBit(w: u16, j: nat)
    ensures j < 8 ==> BitRead(LowByte(w), j) == BitRead(w, j)
    ensures BitRead(HighByte(w), j) == BitRead(w, 8 + j)
  {
    WordBytes(w, 0, 0);
    WordBit(HighByte(w), LowByte(w), j);
    WordBit(HighByte(w), LowByte(w), 8 + j);
  }

  /** Coil c sits in bit c % 8 of byte c / 8, which the master stores in bit c % 16 of register c / 16. */
  lemma CoilPosition(c: nat)
    ensures c / 8 / 2 == c / 16 && 8 * (c / 8 % 2) + c % 8 == c % 16
  {
    var a, r := c / 16, c % 16;
    DivMod(c, 8, 2 * a + r / 8, r % 8);
    DivMod(2 * a + r / 8, 2, a, r / 8);
  }

  /** get_FC1 puts bit c % 8 of data byte c / 8 of an answer into bit c % 16 of register c / 16 of the master's image. */
  lemma Fc1DecodedBit(g: seq<u8>, image: seq<u16>, c: nat)
    requires |g| == MaxBuffer && (g[1] == 1 || g[1] == 2) && 3 + g[2] <= MaxBuffer && (g[2] + 1) / 2 <= |image|
    requires c / 8 < g[2]
    ensures DecodeFits(g, |image|)
    ensures BitRead(Decode(image, g)[c / 16], c % 16) == BitRead(g[3 + c / 8], c % 8)
  {
    var i, j := c / 8, c % 8;
    CoilPosition(c);
    Fc1DecodedByte(g, image, i);
    ByteBit(Fc1Decode(image, g)[i / 2], j);
  }

  /** Coil c = 8 i + j of a run is bit j of data byte i of a read-coils reply. */
  lemma CoilBytesCoilAt(table: seq<u16>, s: u16, q: nat, c: nat, i: nat, j: nat)
    requires CoilsFit(|table|, s, q) && c < q && c == 8 * i + j && j < 8 && i < CoilByteCount(q)
    ensures BitRead(CoilBytes(table, s, q)[i], j) == Coil(table, s, c)
  {
    CoilBytesBit(table, s, q, i, j);
    assert Coil(table, s, 8 * i + j) == Coil(table, s, c);
  }

  /** In the data bytes of a read-coils reply, coil c of the run is bit c % 8 of byte c / 8. */
  lemma CoilBytesCoil(table: seq<u16>, s: u16, q: nat, c: nat)
    requires CoilsFit(|table|, s, q) && c < q
    ensures c / 8 < CoilByteCount(q) && BitRead(CoilBytes(table, s, q)[c / 8], c % 8) == Coil(table, s, c)
  {
    var i, j := c / 8, c % 8;
    assert c == 8 * i + j && i < CoilByteCount(q) by {
      DivMod(c, 8, i, j);
    }
    CoilBytesCoilAt(table, s, q, c, i, j);
  }

  /**
   * Functions 1 and 2 end to end: when the run lies in the slave's table
   * and its reply fits the buffer, every coil c of the run ends up in bit
   * c % 16 of the master's register c / 16.
   */
  lemma ReadCoilsExchange(t: Telegram, regs: seq<u16>, f: seq<u8>, table: seq<u16>, g: seq<u8>, image: seq<u16>)
    requires RequestFits(t, |regs|) && (t.fct == 1 || t.fct == 2) && Holds(f, Request(t, regs))
    requires CoilsFit(|table|, t.address, t.quantity) && 5 + CoilByteCount(t.quantity) <= MaxBuffer
    ensures CoilsReadFit(f, |table|)
    ensures Holds(g, CoilsReply(f, table)) && (CoilByteCount(t.quantity) + 1) / 2 <= |image| ==>
      && DecodeFits(g, |image|)
      && forall c :: 0 <= c < t.quantity ==> BitRead(Decode(image, g)[c / 16], c % 16) == Coil(table, t.address, c)
  {
    assert f[1] == t.fct && Start(f) == t.address && Quantity(f) == t.quantity by {
      RequestHead(t, regs, f);
      RequestQuantity(t, regs, f);
    }
    if Holds(g, CoilsReply(f, table)) && (CoilByteCount(t.quantity) + 1) / 2 <= |image| {
      CoilsReplyFields(f, table, g);
      forall c | 0 <= c < t.quantity
        ensures BitRead(Decode(image, g)[c / 16], c % 16) == Coil(table, t.address, c)
      {
        CoilBytesCoil(table, t.address, t.quantity, c);
        assert g[3 + c / 8] == CoilBytes(table, t.address, t.quantity)[c / 8];
        Fc1DecodedBit(g, image, c);
      }
    }
  }

  /** Every reply a slave sends for a valid request passes the master's checks in validateAnswer. */
  lemma ReplyAccepted(b: seq<u8>, table: seq<u16>, g: seq<u8>)
    requires |b| == MaxBuffer && Supported(b[1]) && ServiceFits(b, |table|) && Carries(g, Reply(b, table))
    ensures g[0] == b[0] && g[1] == b[1] && AnswerCheck(g, |Reply(b, table)| + 2) == 0
  {
    var r := Reply(b, table);
    assert g[0] == b[0] && g[1] == b[1] by {
      assert g[..|r|] == r && r[..2] == b[..2];
      assert g[0] == r[0] && g[1] == r[1];
    }
    assert b[1] < 0x80;
  }

  /**
   * The master's intake with the shortest answer set to the length of an
   * exception reply with its CRC: an exception reply received whole is
   * then reported as ERR_EXCEPTION, -5 through int8_t, whatever the
   * exception code. With the threshold of six bytes poll uses, the same
   * frame yields the byte count 5.
   */
  lemma ExceptionSeen(id: u8, fct: u8, code: u8, g: seq<u8>)
    requires fct < 0x80 && Carries(g, ExceptionReply(id, fct, code))
    ensures MasterCode(g, ExceptionSize + 2, ExceptionSize + 2) == ToInt8(ErrException) == -5
    ensures MasterCode(g, ExceptionSize + 2, LeastAnswer) == ExceptionSize + 2
  {
    var r := ExceptionReply(id, fct, code);
    assert g[1] == r[1] by {
      assert g[..|r|] == r;
    }
  }
}
