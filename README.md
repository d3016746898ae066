# Modbus RTU engine of the smart FRAM board

This project models the Modbus RTU engine of `smart_fram/ETT_ModbusRTU.h`, the
`Modbus` class that a sketch runs either as the bus master or as a slave.
The model covers the following:

- the CRC-16/MODBUS check and the order in which its bytes are sent;
- how a frame is received and sent: the 64-byte buffer, the serial port's
  receive queue and the list of frames written to the port;
- the 3.5-character silence (T35) that ends a frame, and the master's
  reply watchdog, both on the wrapping 32-bit millisecond clock;
- the master's `query` and `poll()`: building a request, and checking and
  decoding the answer into the master's register image;
- the slave's `poll(regs, size)`: checking a request, the exception replies,
  and the six function processors (1/2, 3/4, 5, 6, 15, 16) over the register
  table.

The class keeps the source's state as fields. These are the id, the master
state, the last error, the counters, the watchdog start, the answer id, the
byte buffer (an `array`) and the register table (an `array`). Every method
that changes state is proved against specification functions on sequences.
The main ones:

- `Protocol.RequestCheck` and `Protocol.AnswerCheck`: what validation returns;
- `Protocol.Request`: the frame a query sends;
- `Protocol.Reply`: the frame a slave answers with;
- `Protocol.Effect`: what a request does to the register table;
- `Protocol.Decode`: what an answer does to the master's image.

The `Exchange` module joins the two roles. Take a request that the master
builds, send it with its CRC, and have the slave receive it. The slave then
accepts it, writes or reads exactly the registers and coils the telegram
names, and sends a reply. The master accepts that reply and decodes it to
those same values.

The serial port and the clock appear as values. `rx` is the sequence of bytes
waiting on the port, `tx` the frames written so far, and `now` the reading of
`millis()` passed to each call that uses it. C's `uint8_t`, `uint16_t` and
`uint32_t` are integer ranges. Every truncation the source performs is
written out, including the `uint8_t` register index of `process_FC3`,
`process_FC6` and `process_FC16`, the wrap-around of the 16-bit counters,
and the `uint8_t` codes that both `poll` methods return through `int8_t`
(`NO_REPLY`, 255, comes back as -1).

Modules:

- `Bits`: bytes, words, `bitRead`/`bitWrite`, and XOR;
- `Crc`: `calcCRC`;
- `Coils`: coil numbering and packing;
- `Timing`: the clock;
- `Protocol`: frames, validation, replies and effects;
- `ModbusRtu`: the class;
- `Exchange`: master-slave round trips.

## Model

| member | source | states |
|---|---|---|
| Bits.ToInt8 | smart_fram/ETT_ModbusRTU.h:1113-1115 | a `uint8_t` count returned through `int8_t` is the value in -128..127 congruent to it modulo 256 |
| Bits.Inc16 | smart_fram/ETT_ModbusRTU.h:852 | a 16-bit counter increment wraps 0xFFFF to 0 and otherwise adds one |
| Bits.WordBytes | smart_fram/ETT_ModbusRTU.h:1136-1142 | splitting a register into `highByte`/`lowByte` and joining them with `word` loses nothing, in both directions |
| Bits.BitReadWrite | smart_fram/ETT_ModbusRTU.h:1168-1172 | `bitWrite(x, k, v)` makes bit k equal to v and leaves every other bit as it was |
| Bits.BitWrite16 | smart_fram/ETT_ModbusRTU.h:1238-1241 | writing a coil bit into a 16-bit register keeps it 16 bits wide, sets that bit and keeps all others |
| Bits.BitWrite8 | smart_fram/ETT_ModbusRTU.h:1097-1101 | writing a coil bit into a frame byte keeps it a byte, sets that bit and keeps all others |
| Bits.WordBit | smart_fram/ETT_ModbusRTU.h:1036-1040 | bit j of `word(hi, lo)` is bit j of lo below 8 and bit j-8 of hi from 8 up |
| Bits.BitReadConcat | smart_fram/ETT_ModbusRTU.h:1036-1040 | the bits of hi*2^m+lo are those of lo below m and those of hi above |
| Bits.PackByteBits | smart_fram/ETT_ModbusRTU.h:1097-1108 | a byte packed from up to eight coil values has exactly those values as its low bits and zeros above |
| Bits.XorBit | smart_fram/ETT_ModbusRTU.h:869-875 | the exclusive or of the CRC register with a byte or with 0xA001 flips exactly the bits set in the second operand |
| Bits.XorZero | smart_fram/ETT_ModbusRTU.h:869 | the exclusive or of two values below 2^n is zero exactly when they are equal |
| Bits.WordsBytesRoundTrip | smart_fram/ETT_ModbusRTU.h:1281-1285 | registers sent high byte first, as query and process_FC3 send them, read back as the same registers |
| Bits.WordsToBytesSnoc | smart_fram/ETT_ModbusRTU.h:1136-1141 | one more register adds its high byte and then its low byte to the end of the byte image |
| Crc.Xor16 | smart_fram/ETT_ModbusRTU.h:875 | the exclusive or of two 16-bit values is again a 16-bit value |
| Crc.AppendCrcOk | smart_fram/ETT_ModbusRTU.h:812-817 | a message followed by the two bytes `sendTxBuffer` appends always passes the receiver's CRC test |
| Crc.CrcOkExactly | smart_fram/ETT_ModbusRTU.h:899-905 | a frame passes the CRC test exactly when it is its first n-2 bytes followed by the CRC the sender appends |
| Crc.TrailingWord | smart_fram/ETT_ModbusRTU.h:899-900 | the last two bytes read as a word equal c exactly when they are c's high and low bytes |
| Crc.WireOrder | smart_fram/ETT_ModbusRTU.h:879-886 | after the byte swap in `calcCRC`, the low byte of the CRC register goes out first and the high byte second |
| Crc.SwapArithmetic | smart_fram/ETT_ModbusRTU.h:880-882 | the shift-and-or of `calcCRC` equals exchanging the register's two bytes |
| Crc.Crc16 | smart_fram/ETT_ModbusRTU.h:863-887 | the value `calcCRC` returns: the CRC-16/MODBUS register (reflected polynomial 0xA001, start 0xFFFF, no final xor) with its bytes exchanged; its properties are the `Crc` lemmas below and `ModbusRtu.Modbus.CalcCrc` |
| Crc.CrcFromConcat | smart_fram/ETT_ModbusRTU.h:867-877 | the CRC loop over a+b equals the loop over b started from the register left by a |
| Crc.ShiftsSnoc | smart_fram/ETT_ModbusRTU.h:870-876 | n+1 shift steps are n steps followed by one more, the order the inner loop runs them in |
| Crc.StepXor | smart_fram/ETT_ModbusRTU.h:870-876 | one shift-and-conditional-xor step is linear over exclusive or |
| Crc.StepNonZero | smart_fram/ETT_ModbusRTU.h:870-876 | one step never maps a non-zero register to zero |
| Crc.ShiftsXor | smart_fram/ETT_ModbusRTU.h:870-876 | any number of steps is linear over exclusive or |
| Crc.UpdateXor | smart_fram/ETT_ModbusRTU.h:869-876 | two registers updated with the same byte differ by the eight-step image of their difference |
| Crc.CrcFromDistinct | smart_fram/ETT_ModbusRTU.h:867-877 | two different registers stay different after any common run of bytes |
| Crc.UpdateDistinct | smart_fram/ETT_ModbusRTU.h:869-876 | updating one register with two different bytes gives two different registers |
| Crc.RegisterDetects | smart_fram/ETT_ModbusRTU.h:863-877 | changing any one byte of a message changes its CRC register |
| Crc.DetectsByteError | smart_fram/ETT_ModbusRTU.h:899-905 | a frame sent with its CRC and then corrupted in any one message byte fails the receiver's CRC test |
| Coils.CoilOffsetInverse | smart_fram/ETT_ModbusRTU.h:1093-1095 | within a run of fewer than 4096 coils, coil c of a run is stored at register bit (r, b) exactly when c is the offset computed from (r, b) |
| Coils.PackBits | smart_fram/ETT_ModbusRTU.h:1097-1101 | the packed frame byte has bit j equal to coil j of its group of eight, and 0 past the group's end |
| Coils.CoilBytesBit | smart_fram/ETT_ModbusRTU.h:1082-1109 | bit j of reply byte k is coil 8k+j of the requested run when that coil is inside the run, and 0 otherwise |
| Coils.CoilBytes | smart_fram/ETT_ModbusRTU.h:1082-1109 | the reply of `process_FC1` carries ceil(q/8) data bytes; their bits are stated by `Coils.CoilBytesBit` |
| Coils.WriteCoils | smart_fram/ETT_ModbusRTU.h:1230-1248 | forcing a run of coils keeps the table's length; the bits it writes are stated by `Coils.WriteCoilsBit` |
| Coils.WriteCoilsSnoc | smart_fram/ETT_ModbusRTU.h:1230-1241 | forcing one more coil writes its value into its register's bit on top of the coils already forced |
| Coils.WriteCoilsBit | smart_fram/ETT_ModbusRTU.h:1230-1248 | after function 15, a register bit holds the frame's value for the coil stored there when that coil is in the run, and its old value otherwise |
| Coils.WriteCoilsUntouched | smart_fram/ETT_ModbusRTU.h:1230-1248 | a register that holds none of the run's coils is left unchanged |
| Coils.PackBitStep | smart_fram/ETT_ModbusRTU.h:1097-1108 | one iteration of the `process_FC1` loop extends the packed prefix by one coil and keeps the padding bits clear |
| Coils.CoilBytesFromBits | smart_fram/ETT_ModbusRTU.h:1082-1112 | the bytes left after the loop are the reply's coil bytes |
| Timing.Elapsed | smart_fram/ETT_ModbusRTU.h:571 | unsigned 32-bit subtraction gives now-since, or now+2^32-since after a wrap |
| Timing.ElapsedLater | smart_fram/ETT_ModbusRTU.h:588 | any interval shorter than the counter's period is measured exactly, across a wrap too |
| Timing.Arrive | smart_fram/ETT_ModbusRTU.h:582-588 | the silence test both polls share (also lines 664-670), as four outcomes; what they mean over time is proved in `Timing.SilenceDelimits` |
| Timing.WatchdogFires | smart_fram/ETT_ModbusRTU.h:571-577 | the master's watchdog (`getTimeOutState` too) fires exactly when more than timeOut milliseconds have passed |
| Timing.SilenceDelimits | smart_fram/ETT_ModbusRTU.h:579-588 | a frame is taken exactly when the byte count is unchanged and T35 or more milliseconds have passed, and never while the count changes |
| Protocol.Overlay | smart_fram/ETT_ModbusRTU.h:762-771 | bytes read into the buffer replace its first bytes and leave the rest as it was |
| Protocol.OverlayAgrees | smart_fram/ETT_ModbusRTU.h:762-771 | what the buffer held under the written prefix does not matter |
| Protocol.TwoBytesWritten | smart_fram/ETT_ModbusRTU.h:813-817 | writing the two CRC bytes after the first n bytes lays the message and its CRC over the buffer |
| Protocol.Request | smart_fram/ETT_ModbusRTU.h:471-541 | every request query builds leaves room for its CRC in the 64-byte buffer |
| Protocol.RequestLayout | smart_fram/ETT_ModbusRTU.h:471-541 | a request carries id, function, start and quantity (or value) in place; function 5 sends 0xFF00 or 0; function 16 carries the byte count and the registers high byte first |
| Protocol.Fc15ByteCountShort | smart_fram/ETT_ModbusRTU.h:500-511 | the byte count query puts in a function 15 request equals the count the coils need exactly when q mod 16 <= 8, and is one short otherwise |
| Protocol.Fc15ByteCountWraps | smart_fram/ETT_ModbusRTU.h:504-508 | for every quantity, query's function 15 byte count is ceil(q/8), less one when q mod 16 exceeds 8, truncated to `uint8_t` |
| Protocol.ShortFields | smart_fram/ETT_ModbusRTU.h:1128-1129 | the `uint8_t` start and count the processors take from a word are its low byte |
| Protocol.RangeCode | smart_fram/ETT_ModbusRTU.h:923-958 | the range check answers 0 or `EXC_ADDR_RANGE`, nothing else |
| Protocol.RangeCodeWithin | smart_fram/ETT_ModbusRTU.h:923-958 | where no truncation intervenes, the range check accepts exactly when the request's last register index is at most the table size, per function |
| Protocol.RequestCheck | smart_fram/ETT_ModbusRTU.h:896-959 | a request is accepted exactly when its CRC holds, its function is supported and the range check passes; `NO_REPLY` exactly when the CRC fails |
| Protocol.ExceptionReply | smart_fram/ETT_ModbusRTU.h:1011-1019 | an exception reply has the slave's id, the function code plus 0x80 (recoverable when below 0x80) and the exception code |
| Protocol.RegisterWritePastEnd | smart_fram/ETT_ModbusRTU.h:943-946 | a function 6 request for register index size passes the range check, one past the table |
| Protocol.CoilReadPastEnd | smart_fram/ETT_ModbusRTU.h:928-934 | a function 1 request whose coils reach register index size passes the range check |
| Protocol.Reply | smart_fram/ETT_ModbusRTU.h:697-723 | every reply keeps the request's id and function and fits the buffer with its CRC |
| Protocol.CoilValues | smart_fram/ETT_ModbusRTU.h:1230-1236 | a function 15 request yields one value per coil it names |
| Protocol.WriteRegisters | smart_fram/ETT_ModbusRTU.h:1281-1285 | writing registers from frame bytes keeps the table's length |
| Protocol.Effect | smart_fram/ETT_ModbusRTU.h:697-723 | no request changes the table's length |
| Protocol.EffectTouchesOnlyTarget | smart_fram/ETT_ModbusRTU.h:1157-1290 | reads change nothing; function 5 changes only the one coil bit it names; function 6 changes only the register named by the start's low byte; function 16 writes the registers from the start's low byte on, count given by the quantity's low byte, each from two frame bytes high byte first, and keeps the rest |
| Protocol.ForceCoilTouches | smart_fram/ETT_ModbusRTU.h:1157-1172 | function 5 sets the coil's bit to on exactly when the value's high byte is 0xFF, and keeps every other bit and register |
| Protocol.PresetTouches | smart_fram/ETT_ModbusRTU.h:1266-1285 | function 16 replaces exactly the registers of its run by the words of the frame and keeps the others |
| Protocol.WriteCoilsEffect | smart_fram/ETT_ModbusRTU.h:1216-1248 | after function 15 each register bit holds the frame bit of the coil stored there, or its old value when no coil of the run is stored there |
| Protocol.AnswerCheck | smart_fram/ETT_ModbusRTU.h:968-1003 | an answer is accepted exactly when its CRC holds, the exception bit is clear and the function is supported; `NO_REPLY` exactly on a CRC failure; `ERR_EXCEPTION` exactly on a good CRC with the exception bit set |
| Protocol.Fc1Decode | smart_fram/ETT_ModbusRTU.h:1028-1043 | decoding coil bytes into the master's image keeps its length |
| Protocol.Fc3Decode | smart_fram/ETT_ModbusRTU.h:1051-1061 | decoding register bytes into the master's image keeps its length |
| Protocol.Decode | smart_fram/ETT_ModbusRTU.h:615-636 | no answer changes the length of the master's image |
| ModbusRtu.IsSupported | smart_fram/ETT_ModbusRTU.h:907-921 | the lookup in `fctsupported` answers true exactly for the eight supported function codes |
| ModbusRtu.CoilAddress | smart_fram/ETT_ModbusRTU.h:1161-1165 | the register and bit found for a coil place it: register times 16 plus bit is the coil number mod 4096, with the bit below 16, so coil numbers 4096 apart share a place |
| ModbusRtu.CoilLocation | smart_fram/ETT_ModbusRTU.h:1093-1095 | coil c of a run is found at the 16-bit sum's register and bit |
| ModbusRtu.WordToU8 | smart_fram/ETT_ModbusRTU.h:1128-1129 | a word stored in a `uint8_t` keeps its low byte |
| ModbusRtu.CoilBytesNo | smart_fram/ETT_ModbusRTU.h:1082-1083 | the reply byte count is the number of coils divided by 8, rounded up |
| ModbusRtu.Fc15BytesNo | smart_fram/ETT_ModbusRTU.h:504-508 | the byte count query sends is the number of bytes the coils need, ceil(q/8), less one when q mod 16 exceeds 8, truncated to `uint8_t` |
| ModbusRtu.ShiftByte | smart_fram/ETT_ModbusRTU.h:870-876 | the inner loop of `calcCRC`, eight shifts each followed by an xor with 0xA001 when a 1 bit falls out, yields the register the CRC definition gives after eight steps |
| ModbusRtu.RangeException | smart_fram/ETT_ModbusRTU.h:923-958 | where no truncation intervenes, a request passes exactly when its last register index is at most the table size: start+quantity for functions 3, 4 and 16, whole registers of coils for 1, 2 and 15, the coil's register for 5, the register for 6; an unsupported code passes |
| ModbusRtu.Modbus.constructor | smart_fram/ETT_ModbusRTU.h:741-747 | a new engine has the given id, a 1000 ms timeout, an idle state, zero counters, an empty port and an empty buffer; the last error, answer id, both times and the table size start at 0, and the register table is a new empty array |
| ModbusRtu.Modbus.SetId | smart_fram/ETT_ModbusRTU.h:309-315 | the id changes only to a value from 1 to 247 |
| ModbusRtu.Modbus.SetTimeOut | smart_fram/ETT_ModbusRTU.h:367-370 | the watchdog period becomes the given value |
| ModbusRtu.Modbus.TimeOutStateAfter | smart_fram/ETT_ModbusRTU.h:380-383 | `getTimeOutState` is true exactly when more than timeOut milliseconds have passed since the watchdog start, across a clock wrap too |
| ModbusRtu.Modbus.CalcCrc | smart_fram/ETT_ModbusRTU.h:863-887 | the loop computes the byte-swapped CRC-16/MODBUS of the buffer's first length bytes |
| ModbusRtu.Modbus.SendTxBuffer | smart_fram/ETT_ModbusRTU.h:808-854 | the message and its CRC are written to the port and over the buffer; the size is reset, the watchdog restarts and the output count is incremented |
| ModbusRtu.Modbus.SendReply | smart_fram/ETT_ModbusRTU.h:1143-1146 | a processor's reply is sent with its CRC and it returns the reply's length with the CRC |
| ModbusRtu.Modbus.Query | smart_fram/ETT_ModbusRTU.h:461-547 | a slave engine returns -2, a busy master -1, and a bad slave id -3, each changing nothing; otherwise the request for the telegram goes out with its CRC and the master waits |
| ModbusRtu.Modbus.BuildRequest | smart_fram/ETT_ModbusRTU.h:471-541 | the buffer's first bytes become the telegram's request frame and the rest is kept |
| ModbusRtu.Modbus.BuildFc15Request | smart_fram/ETT_ModbusRTU.h:500-526 | after the header come the quantity, the byte count query computes and that many bytes of the register image, each register high byte first |
| ModbusRtu.Modbus.BuildFc16Request | smart_fram/ETT_ModbusRTU.h:528-541 | after the header come the quantity, byte count and registers, high byte first |
| ModbusRtu.Modbus.CopyWordBytes | smart_fram/ETT_ModbusRTU.h:514-525 | the loop appends the first n bytes of the register image, each register high byte first, and keeps the buffer past them |
| ModbusRtu.Modbus.GetRxBuffer | smart_fram/ETT_ModbusRTU.h:756-794 | the waiting bytes replace the buffer's first bytes and the port is drained; an overflow returns `ERR_BUFF_OVERFLOW` and counts an error |
| ModbusRtu.Modbus.ValidateRequest | smart_fram/ETT_ModbusRTU.h:896-959 | returns the request check's code and counts an error exactly on a CRC failure or an unsupported function |
| ModbusRtu.Modbus.ValidateAnswer | smart_fram/ETT_ModbusRTU.h:968-1003 | returns the answer check's code and counts an error exactly when the code is not 0 |
| ModbusRtu.Modbus.BuildException | smart_fram/ETT_ModbusRTU.h:1011-1019 | the buffer starts with the exception reply for the request's function and the size is 3 |
| ModbusRtu.Modbus.GetFc1 | smart_fram/ETT_ModbusRTU.h:1028-1043 | the master's image receives the answer's coil bytes, two to a register, low byte first |
| ModbusRtu.Modbus.GetFc3 | smart_fram/ETT_ModbusRTU.h:1051-1061 | the master's image receives the answer's registers, each from a high and a low byte |
| ModbusRtu.Modbus.PollMaster | smart_fram/ETT_ModbusRTU.h:563-639 | the watchdog ends a wait with `NO_REPLY` and one more error, touching nothing else; a frame still arriving only records its count and time; a complete frame is counted, read, checked and decoded into the image, the answer id is set only for a valid answer, and a failed check returns its code through `int8_t` (-1, -5 or 1) |
| ModbusRtu.Modbus.TakeAnswer | smart_fram/ETT_ModbusRTU.h:590-638 | a frame under six bytes or a failed check counts an error and leaves the image; a failed check returns validateAnswer's code through `int8_t`; a valid answer is decoded and its length returned |
| ModbusRtu.Modbus.ExceptionReplyDropped | smart_fram/ETT_ModbusRTU.h:593-598 | a slave's exception reply, five bytes with its CRC, is dropped by the master's poll as too short: it returns 5, counts one error and leaves the image and answer id, never `ERR_EXCEPTION` |
| ModbusRtu.Modbus.PollSlave | smart_fram/ETT_ModbusRTU.h:654-729 | a frame still arriving only records its count and time and changes no counter, buffer or table; a complete frame is counted and read; one too short or for another node is ignored; otherwise the request is handled |
| ModbusRtu.Modbus.ServeRequest | smart_fram/ETT_ModbusRTU.h:672-728 | a frame for this node is dropped on a bad CRC, answered with an exception on a failed check, and otherwise served |
| ModbusRtu.Modbus.AnswerRequest | smart_fram/ETT_ModbusRTU.h:681-728 | a bad CRC sends nothing and returns -1; any other failed check sends the exception reply and returns its code; a valid request takes its effect and its reply is sent |
| ModbusRtu.Modbus.Refuse | smart_fram/ETT_ModbusRTU.h:682-691 | `NO_REPLY` sends nothing; any other code sends the exception reply; both record the code as the last error |
| ModbusRtu.Modbus.Serve | smart_fram/ETT_ModbusRTU.h:693-728 | a valid request restarts the watchdog, clears the last error, takes its effect on the table and sends its reply |
| ModbusRtu.Modbus.SendException | smart_fram/ETT_ModbusRTU.h:686-687 | the exception reply for the request goes out with its CRC |
| ModbusRtu.Modbus.Process | smart_fram/ETT_ModbusRTU.h:697-723 | the dispatch gives every supported function the table effect and the reply its processor has |
| ModbusRtu.Modbus.ProcessFc1 | smart_fram/ETT_ModbusRTU.h:1071-1116 | the reply carries the byte count and the requested coils packed eight to a byte, and the returned length counts the CRC |
| ModbusRtu.Modbus.PackCoils | smart_fram/ETT_ModbusRTU.h:1086-1109 | the loop leaves exactly the packed coil bytes after the header and keeps the rest of the buffer |
| ModbusRtu.Modbus.ProcessFc3 | smart_fram/ETT_ModbusRTU.h:1126-1147 | the reply carries twice the count and the requested registers, high byte first |
| ModbusRtu.Modbus.CopyRegisters | smart_fram/ETT_ModbusRTU.h:1136-1142 | the loop appends the registers' bytes, high byte first, and keeps the buffer past them |
| ModbusRtu.Modbus.ProcessFc5 | smart_fram/ETT_ModbusRTU.h:1157-1181 | the named coil bit takes the request's value and the request's first six bytes are echoed |
| ModbusRtu.Modbus.ProcessFc6 | smart_fram/ETT_ModbusRTU.h:1191-1206 | the named register takes the request's value and the request's first six bytes are echoed |
| ModbusRtu.Modbus.ProcessFc15 | smart_fram/ETT_ModbusRTU.h:1216-1256 | the named coils take the frame's bits and the request's first six bytes are echoed |
| ModbusRtu.Modbus.UnpackCoils | smart_fram/ETT_ModbusRTU.h:1228-1248 | the loop writes each coil of the run from its frame bit, in order |
| ModbusRtu.Modbus.ProcessFc16 | smart_fram/ETT_ModbusRTU.h:1266-1290 | the named registers take the frame's words and the reply is the header with the register count |
| ModbusRtu.Modbus.WriteWords | smart_fram/ETT_ModbusRTU.h:1281-1285 | the loop writes each named register from its two frame bytes |
| Exchange.Received | smart_fram/ETT_ModbusRTU.h:762-771 | a frame read from the port fills the buffer with the message in front |
| Exchange.ReceivedCarries | smart_fram/ETT_ModbusRTU.h:808-817 | a frame sent with its CRC arrives whole and passes the receiver's CRC test, whatever the buffer held before |
| Exchange.RequestAccepted | smart_fram/ETT_ModbusRTU.h:896-959 | a received request shows the telegram's id, function, start and quantity, and validation reduces to the range check |
| Exchange.RequestHead | smart_fram/ETT_ModbusRTU.h:472-475 | a received request starts with the telegram's id, function and start address |
| Exchange.RequestQuantity | smart_fram/ETT_ModbusRTU.h:483-484 | a received request carries the telegram's quantity |
| Exchange.SingleWrite | smart_fram/ETT_ModbusRTU.h:487-498 | a function 5 request carries 0xFF exactly for a non-zero value; a function 6 request carries the register value |
| Exchange.Fc16Data | smart_fram/ETT_ModbusRTU.h:532-540 | a function 16 request carries the master's registers, high byte first |
| Exchange.WriteRegistersSplice | smart_fram/ETT_ModbusRTU.h:1281-1285 | writing registers from bytes replaces exactly the slice they cover |
| Exchange.Fc16Preset | smart_fram/ETT_ModbusRTU.h:1268-1285 | the slave's function 16 puts the frame's words into the table at the start and keeps the rest |
| Exchange.WriteRegistersExchange | smart_fram/ETT_ModbusRTU.h:1266-1290 | after a function 16 exchange the slave's table holds the master's registers at the telegram's address, the rest unchanged, and the reply echoes the header with the count |
| Exchange.RegistersReplyFields | smart_fram/ETT_ModbusRTU.h:1133-1142 | a function 3 reply carries twice the count and the requested registers, high byte first |
| Exchange.Fc3Decoded | smart_fram/ETT_ModbusRTU.h:1051-1061 | the master decodes register bytes into the front of its image and keeps the rest |
| Exchange.RegistersReplyDecoded | smart_fram/ETT_ModbusRTU.h:1051-1061 | decoding a function 3 reply puts the requested table slice into the front of the master's image |
| Exchange.ReadRegistersExchange | smart_fram/ETT_ModbusRTU.h:1126-1147 | after a function 3 or 4 exchange the master's image starts with the slave's registers from the telegram's address |
| Exchange.WriteRegisterExchange | smart_fram/ETT_ModbusRTU.h:1191-1206 | after a function 6 exchange the slave's register at the address holds the master's value, the rest unchanged, and the reply echoes the request |
| Exchange.ForceCoilExchange | smart_fram/ETT_ModbusRTU.h:1157-1181 | after a function 5 exchange the named coil is on exactly when the master's value is non-zero, every other bit and register is unchanged, and the reply echoes the request |
| Exchange.CoilsReplyFields | smart_fram/ETT_ModbusRTU.h:1082-1112 | a function 1 reply carries the byte count and the packed coils |
| Exchange.Fc1DecodedByte | smart_fram/ETT_ModbusRTU.h:1034-1041 | answer byte i lands in the low byte of register i/2 when i is even and in its high byte when odd |
| Exchange.ByteBit | smart_fram/ETT_ModbusRTU.h:1036-1040 | the bits of a register's low and high bytes are its bits 0-7 and 8-15 |
| Exchange.Fc1DecodedBit | smart_fram/ETT_ModbusRTU.h:1028-1043 | coil c of the answer lands in bit c mod 16 of register c/16 of the master's image |
| Exchange.CoilBytesCoil | smart_fram/ETT_ModbusRTU.h:1091-1101 | bit c mod 8 of reply byte c/8 is coil c of the run |
| Exchange.ReadCoilsExchange | smart_fram/ETT_ModbusRTU.h:1071-1116 | after a function 1 or 2 exchange, bit c mod 16 of register c/16 of the master's image is coil c of the slave's run, for each requested coil |
| Exchange.ReplyAccepted | smart_fram/ETT_ModbusRTU.h:968-1003 | every reply a slave sends passes the master's answer check and carries the request's id and function |
| Exchange.ExceptionSeen | smart_fram/ETT_ModbusRTU.h:593-606 | with the shortest checked answer lowered to five bytes, an exception reply received whole reaches the master as `ERR_EXCEPTION` (-5); with the six bytes `poll` uses it yields 5 |

## Left out

- Pins and timing delays: the RS-485 transmit-enable pin, `flush`, the 1500 µs delays and the `u32overTime` busy wait in `sendTxBuffer` have no effect on the frames, so they are left out.
- Draining the port after a send (lines 839-842) is not modelled. It runs only with a transmit-enable pin, and it discards the node's own echo, which the model's port never holds.
- `begin`, the constructors that take a serial port, and the getters (`getID`, `getInCnt` and the like) are not modelled. They only store a port or return a field.
- `main.py` is not part of this model.
- ModbusRtu.Modbus.Query: requires `RequestFits` for a valid call, which includes a supported function code. With an unsupported code, the source sends whatever stale bytes the buffer size still counts. The model leaves that case out.
- ModbusRtu.Modbus.Query: the round trip of a function 15 request to a slave is not proved. The source marks that branch as unfinished. It writes each register's high byte first, so coils 0-7 of a register reach the slave as coils 8-15. Its byte count is also one short when the quantity mod 16 exceeds 8 (`Protocol.Fc15ByteCountShort`). The slave reads the frame as coil bits, so the two roles do not agree.
- ModbusRtu.Modbus.PollSlave: requires that a request which passes validation lies inside the register table (`SlaveFits`). The source's range check lets some requests through that reach one register past the table (`Protocol.RegisterWritePastEnd`, `Protocol.CoilReadPastEnd`). C gives that write no meaning, so the model does not follow it.
- Coils.WriteCoils: a coil whose register lies past the table is skipped. The source would write past its array there, but the slave only forces runs that `SlaveFits` keeps inside the table, so the case never arises in the model.
- ModbusRtu.Modbus.PollMaster: requires that a valid answer fits the master's image (`MasterFits`). The source writes past the image otherwise.
- ModbusRtu.Modbus.GetRxBuffer: the port holds at most 64 bytes, so the buffer index stays inside the array. The source's serial buffer has no such bound.
- The clock is a parameter `now`. `millis()` may return a different value between two calls in the same poll, but the model reads it once per call.
- Concurrency (an interrupt filling the port during a poll) is not modelled.

## Findings

| source | as written | input that shows it | evidently intended | confidence | as-written member | corrected member |
|---|---|---|---|---|---|---|
| smart_fram/ETT_ModbusRTU.h:593-598 | the master's `poll()` drops every frame under six bytes before `validateAnswer`, so its `ERR_EXCEPTION` branch (lines 979-984) can never fire for a real exception reply | an exception reply from slave 1 to function 3 with code 2, the five bytes 01 83 02 and its CRC: `poll()` returns 5 and counts an error | a slave's exception reply is reported as `ERR_EXCEPTION` (-5), so the shortest checked answer should be five bytes | medium, not executed | ModbusRtu.Modbus.ExceptionReplyDropped | Exchange.ExceptionSeen |

`ModbusRtu.Modbus.PollMaster` keeps the source's six-byte threshold (`Protocol.LeastAnswer`), because it models the code as written. `Protocol.MasterCode` gives the master's result for any threshold, and `Exchange.ExceptionSeen` proves the intended report with a threshold of five. A zero-quantity answer to function 1 or 3 is also five bytes and is dropped the same way.
