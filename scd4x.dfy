/**
 * The SCD4x CO2 sensor driver (src/scd4x/mod.rs): each operation is one
 * transaction of the Sensirion layer followed by a mask, a shift or a
 * match on the validated word.
 */
module Scd4x {
  import opened Sensirion
  import DebugUtils

  /** The chip's fixed I2C address. */
  const ADDR: byte := 0x62

  // The opcodes these operations send (src/scd4x/commands.rs).
  const GET_DATA_READY_STATUS: Cmd := [0xE4, 0xB8]
  const GET_SERIAL_NUMBER: Cmd := [0x36, 0x82]
  const PERFORM_SELF_TEST: Cmd := [0x36, 0x39]
  const GET_SENSOR_VARIANT: Cmd := [0x20, 0x2F]

  datatype Variant = SCD40 | SCD41 | SCD43

  datatype SCD4x<E> = SCD4x(sensor: Sensor<E>)

  /** SCD4x::new: the driver talks to address 0x62 on the given bus. */
  function New<E>(bus: Bus<E>): (dev: SCD4x<E>)
    ensures dev.sensor.bus == bus && dev.sensor.addr == 0x62
  {
    SCD4x(Sensor(bus, ADDR))
  }

  // ---------------------------------------------------------------------------
  // Decoding of validated words.

  /** Data is ready unless the 11 least significant bits are all zero. */
  function DataReady(status: word): bool {
    status & 0x7FF != 0
  }

  /** The 48-bit serial number from its three words, most significant first. */
  function SerialNumber(w0: word, w1: word, w2: word): bv64 {
    ((w0 as bv64) << 32) | ((w1 as bv64) << 16) | (w2 as bv64)
  }

  function SelfTestPassed(status: word): bool {
    status == 0
  }

  /** The variant is named by the top four bits of the status word. */
  function VariantOf<E>(status: word): Result<Variant, E> {
    var nibble := status >> 12;
    if nibble == 0x0 then Ok(SCD40)
    else if nibble == 0x1 then Ok(SCD41)
    else if nibble == 0x5 then Ok(SCD43)
    else Err(InvalidResponse)
  }

  // ---------------------------------------------------------------------------
  // Operations. Each contract says what the operation returns for whatever
  // the bus answers to the one transaction it issues.

  /** SCD4x::get_data_ready_status. */
  function GetDataReadyStatus<E>(dev: SCD4x<E>): (r: Result<bool, E>)
    ensures match dev.sensor.bus(WriteRead(dev.sensor.addr, [0xE4, 0xB8], 3))
            case Transport(e) => r == Err(I2c(e))
            case Delivered(d) =>
              |d| == 3 &&
              r == if ChunkValid(d, 0) then Ok(d[0] & 0x07 != 0 || d[1] != 0) else Err(InvalidCrc)
  {
    match WordCommand(dev.sensor, GET_DATA_READY_STATUS)
    case Ok(status) => Ok(DataReady(status))
    case Err(e) => Err(e)
  }

  /** SCD4x::get_serial_number: the six data bytes of the three words, in wire order. */
  function GetSerialNumber<E>(dev: SCD4x<E>): (r: Result<bv64, E>)
    ensures match dev.sensor.bus(WriteRead(dev.sensor.addr, [0x36, 0x82], 9))
            case Transport(e) => r == Err(I2c(e))
            case Delivered(d) =>
              |d| == 9 &&
              r == if ChunkValid(d, 0) && ChunkValid(d, 1) && ChunkValid(d, 2)
                   then Ok(((d[0] as bv64) << 40) | ((d[1] as bv64) << 32) | ((d[3] as bv64) << 24)
                           | ((d[4] as bv64) << 16) | ((d[6] as bv64) << 8) | (d[7] as bv64))
                   else Err(InvalidCrc)
  {
    match ThreeWordsCommand(dev.sensor, GET_SERIAL_NUMBER)
    case Ok(words) => Ok(SerialNumber(words[0], words[1], words[2]))
    case Err(e) => Err(e)
  }

  /** SCD4x::start_self_test: writes the opcode 0x36 0x39 and nothing else. */
  function StartSelfTest<E>(dev: SCD4x<E>): (r: Result<(), E>)
    ensures match dev.sensor.bus(WriteOnly(dev.sensor.addr, [0x36, 0x39]))
            case Transport(e) => r == Err(I2c(e))
            case Delivered(_) => r == Ok(())
  {
    match Command(dev.sensor, PERFORM_SELF_TEST)
    case Ok(_) => Ok(())
    case Err(e) => Err(e)
  }

  /** SCD4x::read_self_test_result: a read alone, since the opcode was sent
    * by StartSelfTest; the test passed iff both data bytes are zero. */
  function ReadSelfTestResult<E>(dev: SCD4x<E>): (r: Result<bool, E>)
    ensures match dev.sensor.bus(ReadOnly(dev.sensor.addr, 3))
            case Transport(e) => r == Err(I2c(e))
            case Delivered(d) =>
              |d| == 3 &&
              r == if ChunkValid(d, 0) then Ok(d[0] == 0 && d[1] == 0) else Err(InvalidCrc)
  {
    match ResponseWord(dev.sensor)
    case Ok(status) => Ok(SelfTestPassed(status))
    case Err(e) => Err(e)
  }

  /** SCD4x::get_sensor_variant: decided by the top nibble of the first byte. */
  function GetSensorVariant<E>(dev: SCD4x<E>): (r: Result<Variant, E>)
    ensures match dev.sensor.bus(WriteRead(dev.sensor.addr, [0x20, 0x2F], 3))
            case Transport(e) => r == Err(I2c(e))
            case Delivered(d) =>
              |d| == 3 &&
              r == if !ChunkValid(d, 0) then Err(InvalidCrc)
                   else if d[0] >> 4 == 0x0 then Ok(SCD40)
                   else if d[0] >> 4 == 0x1 then Ok(SCD41)
                   else if d[0] >> 4 == 0x5 then Ok(SCD43)
                   else Err(InvalidResponse)
  {
    match WordCommand(dev.sensor, GET_SENSOR_VARIANT)
    case Ok(status) => VariantOf(status)
    case Err(e) => Err(e)
  }

  // ---------------------------------------------------------------------------
  // Properties of the decoding.

  /** Bits 11 to 15 of the status word never matter; 0x0001 is ready and
    * 0x8000 is not. */
  lemma DataReadyIgnoresTopBits(status: word, top: word)
    ensures DataReady(status ^ (top << 11)) == DataReady(status)
    ensures DataReady(0x0001) && !DataReady(0x8000)
  {
  }

  /** The top four bits of each variant's status word. */
  ghost function Nibble(v: Variant): word {
    match v
    case SCD40 => 0x0
    case SCD41 => 0x1
    case SCD43 => 0x5
  }

  /** Decoding recovers the variant whatever the low 12 bits are. */
  lemma VariantRoundTrip<E>(v: Variant, low: word)
    requires low < 0x1000
    ensures VariantOf<E>((Nibble(v) << 12) | low) == Ok(v)
  {
  }

  /** A status word decodes to the variant whose nibble it carries, and to
    * InvalidResponse exactly when it carries none. */
  lemma VariantDecoding<E>(status: word)
    ensures VariantOf<E>(status).Ok? ==> Nibble(VariantOf<E>(status).value) == status >> 12
    ensures VariantOf<E>(status).Err? <==> forall v :: Nibble(v) != status >> 12
    ensures VariantOf<E>(status).Err? ==> VariantOf<E>(status).error == InvalidResponse
  {
  }

  /** Splits a serial number back into its three words. */
  ghost function SerialWords(serial: bv64): (word, word, word) {
    (((serial >> 32) & 0xFFFF) as word, ((serial >> 16) & 0xFFFF) as word, (serial & 0xFFFF) as word)
  }

  /** A serial number is below 2^48; its words are recovered by shift and
    * mask, and every value below 2^48 is the serial number of its words. */
  lemma SerialNumberRoundTrip(w0: word, w1: word, w2: word, serial: bv64)
    ensures SerialNumber(w0, w1, w2) < 1 << 48
    ensures SerialWords(SerialNumber(w0, w1, w2)) == (w0, w1, w2)
    ensures serial < 1 << 48 ==>
      var (s0, s1, s2) := SerialWords(serial); SerialNumber(s0, s1, s2) == serial
  {
  }

  /** Every error of the transaction layer is returned unchanged, without any decoding. */
  lemma TransactionErrorsPropagate<E>(dev: SCD4x<E>)
    ensures WordCommand(dev.sensor, GET_DATA_READY_STATUS).Err? ==>
      GetDataReadyStatus(dev) == Err(WordCommand(dev.sensor, GET_DATA_READY_STATUS).error)
    ensures ThreeWordsCommand(dev.sensor, GET_SERIAL_NUMBER).Err? ==>
      GetSerialNumber(dev) == Err(ThreeWordsCommand(dev.sensor, GET_SERIAL_NUMBER).error)
    ensures Command(dev.sensor, PERFORM_SELF_TEST).Err? ==>
      StartSelfTest(dev) == Err(Command(dev.sensor, PERFORM_SELF_TEST).error)
    ensures ResponseWord(dev.sensor).Err? ==>
      ReadSelfTestResult(dev) == Err(ResponseWord(dev.sensor).error)
    ensures WordCommand(dev.sensor, GET_SENSOR_VARIANT).Err? ==>
      GetSensorVariant(dev) == Err(WordCommand(dev.sensor, GET_SENSOR_VARIANT).error)
  {
  }

  // ---------------------------------------------------------------------------
  // The source's unit tests, on the mock bus.

  lemma TestReadSelfTestResult()
    ensures ReadSelfTestResult(New(DebugUtils.DummyBus([0x00, 0x00, 0x81]))) == Ok(true)
    ensures ReadSelfTestResult(New(DebugUtils.DummyBus([0x14, 0x40, 0x51]))) == Ok(false)
  {
  }

  lemma TestGetSerialNumber()
    ensures GetSerialNumber(New(DebugUtils.DummyBus([0xF8, 0x96, 0x31, 0x9F, 0x07, 0xC2, 0x3B, 0xBE, 0x89])))
            == Ok(273325796834238)
  {
    var response: seq<byte> := [0xF8, 0x96, 0x31, 0x9F, 0x07, 0xC2, 0x3B, 0xBE, 0x89];
    DebugUtils.DummyBusAnswers(response, ADDR, GET_SERIAL_NUMBER);
    assert ChunkValid(response, 0) && ChunkValid(response, 1) && ChunkValid(response, 2);
  }

  lemma TestGetDataReadyStatus()
    ensures GetDataReadyStatus(New(DebugUtils.DummyBus([0x00, 0x01, 0xB0]))) == Ok(true)
    ensures GetDataReadyStatus(New(DebugUtils.DummyBus([0x80, 0x00, 0xA2]))) == Ok(false)
  {
  }

  lemma TestGetSensorVariant()
    ensures GetSensorVariant(New(DebugUtils.DummyBus([0x04, 0x40, 0x3F]))) == Ok(SCD40)
    ensures GetSensorVariant(New(DebugUtils.DummyBus([0x14, 0x40, 0x51]))) == Ok(SCD41)
    ensures GetSensorVariant(New(DebugUtils.DummyBus([0x54, 0x41, 0xE9]))) == Ok(SCD43)
  {
  }

  /** start_self_test succeeds on a bus that accepts the write. */
  lemma TestStartSelfTest()
    ensures StartSelfTest(New(DebugUtils.DummyBus([]))) == Ok(())
  {
  }
}
