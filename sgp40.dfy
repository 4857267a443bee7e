/**
 * The SGP40 VOC sensor driver (src/sgp40/mod.rs): self-test and serial
 * number, each one transaction of the Sensirion layer followed by a match
 * or a shift.
 */
module Sgp40 {
  import opened Sensirion
  import Scd4x
  import DebugUtils

  /** The chip's fixed I2C address. */
  const ADDR: byte := 0x59

  // The opcodes these operations send (src/sgp40/commands.rs).
  const CMD_GET_SERIAL_NUMBER: Cmd := [0x36, 0x82]
  const CMD_EXECUTE_SELF_TEST: Cmd := [0x28, 0x0E]

  /** The self-test's top byte when every check passed, and when one failed. */
  const SELF_TEST_PASSED: byte := 0xD4
  const SELF_TEST_FAILED: byte := 0x4B

  datatype SGP40<E> = SGP40(sensor: Sensor<E>)

  /** SGP40::new: the driver talks to address 0x59 on the given bus. */
  function New<E>(bus: Bus<E>): (dev: SGP40<E>)
    ensures dev.sensor.bus == bus && dev.sensor.addr == 0x59
  {
    SGP40(Sensor(bus, ADDR))
  }

  /** The self-test outcome carried by the top byte of the result word. */
  function SelfTestOutcome<E>(result: word): Result<bool, E> {
    var top := result >> 8;
    if top == SELF_TEST_PASSED as word then Ok(true)
    else if top == SELF_TEST_FAILED as word then Ok(false)
    else Err(InvalidResponse)
  }

  /** The serial number from its three words, most significant first. */
  function SerialNumber(w0: word, w1: word, w2: word): bv64 {
    ((w0 as bv64) << 32) | ((w1 as bv64) << 16) | (w2 as bv64)
  }

  /** SGP40::self_test: only the first data byte of the reply decides. */
  function SelfTest<E>(dev: SGP40<E>): (r: Result<bool, E>)
    ensures match dev.sensor.bus(WriteRead(dev.sensor.addr, [0x28, 0x0E], 3))
            case Transport(e) => r == Err(I2c(e))
            case Delivered(d) =>
              |d| == 3 &&
              r == if !ChunkValid(d, 0) then Err(InvalidCrc)
                   else if d[0] == 0xD4 then Ok(true)
                   else if d[0] == 0x4B then Ok(false)
                   else Err(InvalidResponse)
  {
    match WordCommand(dev.sensor, CMD_EXECUTE_SELF_TEST)
    case Ok(result) => SelfTestOutcome(result)
    case Err(e) => Err(e)
  }

  /** SGP40::get_serial_number: the six data bytes of the three words, in wire order. */
  function GetSerialNumber<E>(dev: SGP40<E>): (r: Result<bv64, E>)
    ensures match dev.sensor.bus(WriteRead(dev.sensor.addr, [0x36, 0x82], 9))
            case Transport(e) => r == Err(I2c(e))
            case Delivered(d) =>
              |d| == 9 &&
              r == if ChunkValid(d, 0) && ChunkValid(d, 1) && ChunkValid(d, 2)
                   then Ok(((d[0] as bv64) << 40) | ((d[1] as bv64) << 32) | ((d[3] as bv64) << 24)
                           | ((d[4] as bv64) << 16) | ((d[6] as bv64) << 8) | (d[7] as bv64))
                   else Err(InvalidCrc)
  {
    match ThreeWordsCommand(dev.sensor, CMD_GET_SERIAL_NUMBER)
    case Ok(words) => Ok(SerialNumber(words[0], words[1], words[2]))
    case Err(e) => Err(e)
  }

  // ---------------------------------------------------------------------------
  // Properties.

  /** The top byte reporting a given outcome. */
  ghost function StatusByte(passed: bool): byte {
    if passed then SELF_TEST_PASSED else SELF_TEST_FAILED
  }

  /** A result word decodes to the outcome its top byte reports, whatever
    * its low byte; any other top byte is InvalidResponse. */
  lemma SelfTestDecoding<E>(passed: bool, lo: byte, result: word)
    ensures SelfTestOutcome<E>(BigEndian(StatusByte(passed), lo)) == Ok(passed)
    ensures SelfTestOutcome<E>(result).Ok? ==>
      (result >> 8) as byte == StatusByte(SelfTestOutcome<E>(result).value)
    ensures SelfTestOutcome<E>(result).Err? <==>
      (result >> 8) as byte != SELF_TEST_PASSED && (result >> 8) as byte != SELF_TEST_FAILED
    ensures SelfTestOutcome<E>(result).Err? ==> SelfTestOutcome<E>(result).error == InvalidResponse
  {
  }

  /** The low byte of the result word is ignored. */
  lemma SelfTestIgnoresLowByte<E>(a: word, b: word)
    requires a >> 8 == b >> 8
    ensures SelfTestOutcome<E>(a) == SelfTestOutcome<E>(b)
  {
  }

  /** The serial number is assembled exactly as the SCD4x driver does it,
    * and so fits in 48 bits. */
  lemma SerialNumberAgrees(w0: word, w1: word, w2: word)
    ensures SerialNumber(w0, w1, w2) == Scd4x.SerialNumber(w0, w1, w2)
    ensures SerialNumber(w0, w1, w2) < 1 << 48
  {
  }

  /** Every error of the transaction layer is returned unchanged, without any decoding. */
  lemma TransactionErrorsPropagate<E>(dev: SGP40<E>)
    ensures WordCommand(dev.sensor, CMD_EXECUTE_SELF_TEST).Err? ==>
      SelfTest(dev) == Err(WordCommand(dev.sensor, CMD_EXECUTE_SELF_TEST).error)
    ensures ThreeWordsCommand(dev.sensor, CMD_GET_SERIAL_NUMBER).Err? ==>
      GetSerialNumber(dev) == Err(ThreeWordsCommand(dev.sensor, CMD_GET_SERIAL_NUMBER).error)
  {
  }

  /** Self-test on the mock bus: a passing, a failing and an unrecognised reply. */
  lemma TestSelfTest()
    ensures SelfTest(New(DebugUtils.DummyBus([0xD4, 0x00, 0xC6]))) == Ok(true)
    ensures SelfTest(New(DebugUtils.DummyBus([0x4B, 0x00, 0x12]))) == Ok(false)
    ensures SelfTest(New(DebugUtils.DummyBus([0x00, 0x00, 0x81]))) == Err(InvalidResponse)
  {
  }
}
