# Sensirion SCD4x / SGP40 transaction layer, in Dafny

This project models the protocol core of a Rust driver crate for two Sensirion
gas sensors on an I2C bus: the SCD4x CO2 sensor family (address 0x62) and the
SGP40 VOC sensor (address 0x59). It then proves properties of that model.

- `sensirion.dfy` (module `Sensirion`, from `src/sensirion.rs`) holds the
  shared transaction layer:
  - the CRC-8 checksum over a 2-byte word (initial value 0xFF, polynomial 0x31,
    eight shift steps per byte, computed on `bv8` so that `<<` drops the high
    bit as Rust's `u8` shift does);
  - the check of a 3-byte wire word;
  - the three error kinds (`InvalidResponse`, `InvalidCrc`, `I2c`);
  - the write-then-read transactions that return one word or three words.
  `Crc`, `ReadWord` and `ReadThreeWords` are imperative methods, as in the
  source: the nested loop of the checksum, and a buffer filled by the bus and
  then checked chunk by chunk. Each method is proved equal to a specification
  function (`Checksum`, `WordCommand`, `ThreeWordsCommand`), and the properties
  are proved about those functions.
- `scd4x.dfy` (module `Scd4x`, from `src/scd4x/mod.rs`) holds the
  data-ready status, serial number, split self-test and sensor variant.
- `sgp40.dfy` (module `Sgp40`, from `src/sgp40/mod.rs`) holds the self-test
  and the serial number.
- `debug_utils.dfy` (module `DebugUtils`, from `src/debug_utils.rs`) holds the
  mock bus of the unit tests. It is used only to restate those tests as lemmas.

**The bus.** It is an external capability. It is modelled as an oracle,
`Bus<E>`: a total function from a `Transaction` to a `BusReply<E>`. A
transaction is an address plus a sequence of `Write(bytes)` / `Read(count)`
operations. The reply is either `Transport(e)`, where `e` is an opaque error of
type `E`, or `Delivered(bytes)`. The subset type requires a delivered reply to
hold exactly as many bytes as the reads ask for. In the source this holds
because its buffers have a fixed size. Every driver contract says what the
operation returns for *whatever* the bus answers to the one transaction it
issues. The contract names that transaction exactly: address, opcode bytes,
and the number of bytes read.

**Reconciling the source revision.** `src/scd4x/mod.rs` and `src/sgp40/mod.rs`
call `one_word_command`, `three_words_command`, `send_command` and
`read_response_word`, but `src/sensirion.rs` defines only `read_word` and
`read_three_words`. The model resolves the four calls this way:
- `one_word_command` is `read_word` (`WordCommand`).
- `three_words_command` is `read_three_words` (`ThreeWordsCommand`).
- `send_command` is a write of the opcode alone, with no checksum step
  (`Command`, `SendCommand`).
- `read_response_word` is a read of one wire word with no write before it. It
  is checked and decoded like `read_word` (`ResponseWord`, `ReadResponseWord`).

`src/sgp40/mod.rs:24` names the opcode `EXECUTE_SELF_TEST`, but the table at
`src/sgp40/commands.rs:5` calls it `CMD_EXECUTE_SELF_TEST` (0x28 0x0E).
Likewise `src/sgp40/mod.rs:37` names `GET_SERIAL_NUMBER`, which
`src/sgp40/commands.rs` does not define; its entry at line 3 is
`CMD_GET_SERIAL_NUMBER` (0x36 0x82). The model uses those table entries.

The crate's `Error` (src/sensirion.rs:6-13) has exactly three variants, and so
does the model's. The SGP40 raw-signal opcode 0x26 0x02
(`src/sgp40/commands.rs:6`) is not used by any modelled operation.

## Model

| member | source | states |
|---|---|---|
| `Sensirion.Crc` | src/sensirion.rs:40-56 | the nested loop returns the checksum of the two bytes: start at 0xFF, xor in b0, eight shift/xor-0x31 steps, then the same for b1 |
| `Sensirion.CrcOverPair` | src/sensirion.rs:41-55 | folding the loop over a 2-byte input gives the two-byte checksum, with the bytes taken in order |
| `Sensirion.StepsInjective` | src/sensirion.rs:46-52 | any number of shift steps maps distinct register values to distinct values |
| `Sensirion.CrcByteInjective` | src/sensirion.rs:43-53 | folding in one byte is injective in the byte when the register is fixed, and in the register when the byte is fixed |
| `Sensirion.ChecksumInjective` | src/sensirion.rs:40-56 | with either data byte fixed, distinct values of the other byte give distinct checksums |
| `Sensirion.CheckCrc` | src/sensirion.rs:58-64 | a wire word passes exactly when the checksum of its first two bytes equals its third byte; otherwise the error is InvalidCrc |
| `Sensirion.CheckCrcRoundTrip` | src/sensirion.rs:58-64 | every word sent with its own checksum passes the check |
| `Sensirion.SingleByteCorruptionRejected` | src/sensirion.rs:58-64 | a valid wire word changed in exactly one byte (data or checksum) fails with InvalidCrc, so every single-bit flip is caught |
| `Sensirion.TestCrc` | src/sensirion.rs:107-117 | BE EF 92 passes; BE 01 92 fails with InvalidCrc |
| `Sensirion.Transfer` | src/sensirion.rs:71 | a bus call either wraps the transport error as I2c, or fills the buffer with exactly the delivered bytes |
| `Sensirion.BigEndianRoundTrip` | src/sensirion.rs:74 | a decoded word gives back its high and low bytes, and every word is the decoding of its two bytes |
| `Sensirion.DecodeWords` | src/sensirion.rs:81-89 | decoding n chunks succeeds exactly when every chunk's checksum is valid; it then yields the n big-endian words in order, and otherwise InvalidCrc |
| `Sensirion.Response` | src/sensirion.rs:77-90 | a transport error is reported as I2c before any checksum is looked at; InvalidCrc comes only from a delivered reply with a bad chunk; the layer never reports both, and never InvalidResponse |
| `Sensirion.WordCommand` | src/sensirion.rs:68-75 | writes the opcode and reads 3 bytes; yields (r0<<8)\|r1 when the checksum holds, InvalidCrc with no value when it does not, and I2c on a transport error |
| `Sensirion.ThreeWordsCommand` | src/sensirion.rs:77-90 | writes the opcode and reads 9 bytes; any failing chunk (bytes 0-2, 3-5, 6-8) yields InvalidCrc; otherwise the words be(r0,r1), be(r3,r4), be(r6,r7) |
| `Sensirion.ResponseWord` | src/scd4x/mod.rs:72 | reads 3 bytes with no write before them, then checks and decodes them like read_word |
| `Sensirion.Command` | src/scd4x/mod.rs:67 | writes the opcode alone; it fails only with the bus's own error, never a checksum error |
| `Sensirion.ReadWord` | src/sensirion.rs:68-75 | the buffer-and-check_crc implementation returns exactly `WordCommand` |
| `Sensirion.ReadThreeWords` | src/sensirion.rs:77-90 | the implementation that fills a buffer and then loops over its chunks returns exactly `ThreeWordsCommand` |
| `Sensirion.ReadResponseWord` | src/scd4x/mod.rs:71-75 | the buffer implementation of the read-only word returns exactly `ResponseWord` |
| `Sensirion.SendCommand` | src/scd4x/mod.rs:66-69 | the write-only transaction returns exactly `Command` |
| `Sensirion.TestThreeWords` | src/sensirion.rs:77-90 | the response 01 F4 33 66 67 A2 5E B9 3C decodes to the words 0x01F4, 0x6667, 0x5EB9 |
| `DebugUtils.DummyReply` | src/debug_utils.rs:24-53 | the mock's answer always honours the bus contract (it delivers exactly the bytes read) |
| `DebugUtils.DummyBusAnswers` | src/debug_utils.rs:31-49 | the mock delivers its response to Write+Read and to Read alone when the length matches, and accepts Write alone |
| `Scd4x.New` | src/scd4x/mod.rs:29-33 | the driver talks to address 0x62 on the given bus |
| `Scd4x.GetDataReadyStatus` | src/scd4x/mod.rs:37-44 | in one Write(E4 B8)+Read(3) at the chip's address: ready iff the checksum holds and the 11 low bits are not all zero (low 3 bits of the first byte, or the second byte); bus and checksum errors are returned unchanged |
| `Scd4x.DataReadyIgnoresTopBits` | src/scd4x/mod.rs:43 | bits 11-15 never affect readiness; 0x0001 is ready and 0x8000 is not |
| `Scd4x.GetSerialNumber` | src/scd4x/mod.rs:47-53 | in one Write(36 82)+Read(9): if all three checksums hold, the serial number is the six data bytes in wire order as a 48-bit number; otherwise InvalidCrc or the bus error |
| `Scd4x.SerialNumberRoundTrip` | src/scd4x/mod.rs:52 | w0<<32 \| w1<<16 \| w2 is below 2^48; each word is recovered by shift and mask; every value below 2^48 is the serial number of its three words |
| `Scd4x.StartSelfTest` | src/scd4x/mod.rs:66-69 | performs exactly one Write(36 39) and nothing else; returns unit on success and the bus error otherwise |
| `Scd4x.ReadSelfTestResult` | src/scd4x/mod.rs:71-75 | in one Read(3) with no write: passed iff the checksum holds and the word is 0 |
| `Scd4x.GetSensorVariant` | src/scd4x/mod.rs:78-89 | in one Write(20 2F)+Read(3): a top nibble of 0000, 0001 or 0101 gives SCD40, SCD41 or SCD43; any other nibble gives InvalidResponse; transaction errors come first and are returned unchanged |
| `Scd4x.VariantRoundTrip` | src/scd4x/mod.rs:83-88 | a status word whose top nibble is a variant's decodes to that variant, whatever its low 12 bits |
| `Scd4x.VariantDecoding` | src/scd4x/mod.rs:83-88 | a decoded variant is the one whose nibble the word carries; InvalidResponse is returned exactly when the word carries no variant's nibble |
| `Scd4x.TransactionErrorsPropagate` | src/scd4x/mod.rs:37-89 | every transaction-layer error of every operation is returned unchanged, and no decoding happens |
| `Scd4x.TestReadSelfTestResult` | src/scd4x/mod.rs:149-167 | on the mock bus, 00 00 81 gives Ok(true) and 14 40 51 gives Ok(false) |
| `Scd4x.TestGetSerialNumber` | src/scd4x/mod.rs:169-177 | on the mock bus, f8 96 31 9f 07 c2 3b be 89 gives 273325796834238 |
| `Scd4x.TestGetDataReadyStatus` | src/scd4x/mod.rs:179-197 | on the mock bus, 00 01 b0 gives Ok(true) and 80 00 a2 gives Ok(false) |
| `Scd4x.TestGetSensorVariant` | src/scd4x/mod.rs:199-233 | on the mock bus, 04 40 3f gives SCD40, 14 40 51 gives SCD41 and 54 41 e9 gives SCD43 |
| `Scd4x.TestStartSelfTest` | src/debug_utils.rs:49 | start_self_test succeeds on a mock bus that accepts a Write alone |
| `Sgp40.New` | src/sgp40/mod.rs:15-19 | the driver talks to address 0x59 on the given bus |
| `Sgp40.SelfTest` | src/sgp40/mod.rs:23-31 | in one Write(28 0E)+Read(3): after a valid checksum, a first byte of 0xD4 gives Ok(true), 0x4B gives Ok(false) and any other value gives InvalidResponse; the low data byte is never consulted |
| `Sgp40.SelfTestDecoding` | src/sgp40/mod.rs:26-30 | the word built from a status byte decodes to that outcome, whatever its low byte; a decoded outcome's top byte is its status byte; InvalidResponse comes exactly from the other top bytes |
| `Sgp40.SelfTestIgnoresLowByte` | src/sgp40/mod.rs:26 | two result words with the same top byte give the same outcome |
| `Sgp40.GetSerialNumber` | src/sgp40/mod.rs:34-40 | in one Write(36 82)+Read(9): the six data bytes in wire order when all three checksums hold |
| `Sgp40.SerialNumberAgrees` | src/sgp40/mod.rs:39 | the SGP40 formula is the SCD4x formula, and the result fits in 48 bits |
| `Sgp40.TransactionErrorsPropagate` | src/sgp40/mod.rs:23-40 | transaction-layer errors of both operations are returned unchanged |
| `Sgp40.TestSelfTest` | src/sgp40/mod.rs:26-30 | on the mock bus, D4 00 C6 gives Ok(true), 4B 00 12 gives Ok(false) and 00 00 81 gives InvalidResponse |

## Left out

- `perform_self_test` (src/scd4x/mod.rs:57-64) is async and awaits a 10-second timer. Only its two halves, `StartSelfTest` and `ReadSelfTestResult`, are modelled.
- The bus is stateless: its answer depends on the transaction alone. So the model does not connect a self-test result to an earlier start. It only covers every possible answer to each transaction.
- The embedded_hal `I2c` implementation and its `write_read`/`write`/`read` are foreign code. They are modelled only as the abstract `Bus` oracle.
- Sensirion.Transfer: says nothing about the buffer after a transport error, because embedded_hal promises nothing there and the source never reads it.
- The mapping of errors to `embedded_hal::i2c::ErrorKind` (src/sensirion.rs:16-26) and the `thiserror` messages (src/sensirion.rs:8-13) are library glue and text, so they are left out.
- `fmt::Display for Variant` (src/scd4x/mod.rs:17-21) is formatting, so it is left out.
- The test module's own mock bus (src/scd4x/mod.rs:110-147) is not modelled separately. It differs from src/debug_utils.rs only by refusing a Write alone, and the model uses the debug_utils.rs mock.
- The sensor address is a `u8`. The 7-bit range of I2C addresses is not enforced, and the source does not enforce it either.
- The opcode tables (src/scd4x/commands.rs, src/sgp40/commands.rs) are not modelled as tables. Only the opcodes these operations send are transcribed.
- Measurement, temperature offset, altitude, pressure, forced recalibration, automatic self-calibration, single-shot, power modes, heater-off and raw-signal operations are not modelled. The source defines only their opcodes and implements no operation for them.
- src/lib.rs is module wiring, so it is left out.
