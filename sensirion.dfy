/**
 * The Sensirion transaction layer shared by the SCD4x and SGP40 drivers
 * (src/sensirion.rs): the CRC-8 checksum protecting every 16-bit wire word,
 * the error model, the abstract I2C bus, and the transactions that write an
 * opcode and read back checksummed words.
 */
module Sensirion {

  type byte = bv8
  type word = bv16

  /** A command opcode: exactly two bytes, sent high byte first. */
  type Cmd = s: seq<byte> | |s| == 2 witness [0, 0]

  /** A wire word: two data bytes followed by their checksum byte. */
  type WireWord = s: seq<byte> | |s| == 3 witness [0, 0, 0]

  /** The failures a driver operation reports; `E` is the bus's own, opaque error. */
  datatype Error<E> = InvalidResponse | InvalidCrc | I2c(cause: E)

  datatype Result<T, E> = Ok(value: T) | Err(error: Error<E>)

  // ---------------------------------------------------------------------------
  // Checksum: CRC-8, polynomial 0x31, initial value 0xFF (Sensirion SGP40
  // datasheet, section 4.6).

  const CRC_INIT: byte := 0xFF
  const CRC_POLYNOMIAL: byte := 0x31

  /** One shift step of the checksum register. `<<` on a bv8 drops the bit
    * shifted out, exactly as the source's shift of a `u8` does. */
  function Step(c: byte): byte {
    if c & 0x80 != 0 then (c << 1) ^ CRC_POLYNOMIAL else c << 1
  }

  /** `k` shift steps. */
  function Steps(c: byte, k: nat): byte {
    if k == 0 then c else Step(Steps(c, k - 1))
  }

  /** Folds one data byte into the register: xor it in, then eight steps. */
  function CrcByte(acc: byte, b: byte): byte {
    Steps(acc ^ b, 8)
  }

  /** The register after folding in the bytes of `data`, in order, from 0xFF. */
  function CrcOver(data: seq<byte>): byte {
    if data == [] then CRC_INIT
    else CrcByte(CrcOver(data[..|data| - 1]), data[|data| - 1])
  }

  /** The checksum of a 2-byte word: b0 is folded in first, then b1. */
  function Checksum(b0: byte, b1: byte): byte {
    CrcByte(CrcByte(CRC_INIT, b0), b1)
  }

  /** The loop's fold over a 2-byte word is the checksum of its bytes. */
  lemma CrcOverPair(b0: byte, b1: byte)
    ensures CrcOver([b0, b1]) == Checksum(b0, b1)
  {
    assert [b0, b1][..1] == [b0];
    assert [b0][..0] == [];
    assert CrcOver([b0]) == CrcByte(CRC_INIT, b0);
  }

  /** Sensor::crc: the nested loop over the two bytes and eight steps each. */
  method Crc(data: seq<byte>) returns (crc: byte)
    requires |data| == 2
    ensures crc == Checksum(data[0], data[1])
  {
    crc := CRC_INIT;
    for i := 0 to |data|
      invariant crc == CrcOver(data[..i])
    {
      crc := crc ^ data[i];
      ghost var start := crc;
      for j := 0 to 8
        invariant crc == Steps(start, j)
      {
        if crc & 0x80 != 0 {
          crc := (crc << 1) ^ CRC_POLYNOMIAL;
        } else {
          crc := crc << 1;
        }
      }
      assert data[..i + 1][..i] == data[..i];
    }
    assert data[..|data|] == [data[0], data[1]];
    CrcOverPair(data[0], data[1]);
  }

  lemma StepInjective(a: byte, b: byte)
    requires Step(a) == Step(b)
    ensures a == b
  {
  }

  lemma {:induction false} StepsInjective(a: byte, b: byte, k: nat)
    requires Steps(a, k) == Steps(b, k)
    ensures a == b
  {
    if k > 0 {
      StepInjective(Steps(a, k - 1), Steps(b, k - 1));
      StepsInjective(a, b, k - 1);
    }
  }

  lemma XorCancel(x: byte, y: byte, x': byte, y': byte)
    requires x ^ y == x' ^ y'
    ensures x == x' ==> y == y'
    ensures y == y' ==> x == x'
  {
  }

  /** Folding in a byte is injective in the byte and in the register. */
  lemma CrcByteInjective(acc: byte, acc': byte, b: byte, b': byte)
    requires CrcByte(acc, b) == CrcByte(acc', b')
    ensures acc == acc' ==> b == b'
    ensures b == b' ==> acc == acc'
  {
    StepsInjective(acc ^ b, acc' ^ b', 8);
    XorCancel(acc, b, acc', b');
  }

  /** With either data byte fixed, distinct values of the other byte have
    * distinct checksums. */
  lemma ChecksumInjective(b0: byte, b1: byte, c0: byte, c1: byte)
    requires Checksum(b0, b1) == Checksum(c0, c1)
    ensures b0 == c0 ==> b1 == c1
    ensures b1 == c1 ==> b0 == c0
  {
    CrcByteInjective(CrcByte(CRC_INIT, b0), CrcByte(CRC_INIT, c0), b1, c1);
    if b1 == c1 {
      CrcByteInjective(CRC_INIT, CRC_INIT, b0, c0);
    }
  }

  /** Sensor::check_crc. */
  function CheckCrc<E>(data: WireWord): (r: Result<(), E>)
    ensures r.Ok? <==> Checksum(data[0], data[1]) == data[2]
    ensures r.Err? ==> r.error == InvalidCrc
  {
    if Checksum(data[0], data[1]) != data[2] then Err(InvalidCrc) else Ok(())
  }

  /** A word sent with its own checksum always passes the check. */
  lemma CheckCrcRoundTrip<E>(b0: byte, b1: byte)
    ensures CheckCrc<E>([b0, b1, Checksum(b0, b1)]) == Ok(())
  {
  }

  /** A valid wire word corrupted in exactly one of its three bytes is
    * rejected with InvalidCrc; a single flipped bit is such a corruption. */
  lemma SingleByteCorruptionRejected<E>(w: WireWord, w': WireWord, i: nat)
    requires CheckCrc<E>(w).Ok?
    requires i < 3 && w'[i] != w[i]
    requires forall j :: 0 <= j < 3 && j != i ==> w'[j] == w[j]
    ensures CheckCrc<E>(w') == Err(InvalidCrc)
  {
    if i != 2 {
      assert w'[2] == w[2];
      if Checksum(w'[0], w'[1]) == w'[2] {
        ChecksumInjective(w[0], w[1], w'[0], w'[1]);
        assert false;
      }
    }
  }

  /** The source's unit test: 0xBE 0xEF has checksum 0x92, and changing the
    * second byte to 0x01 is caught. */
  lemma TestCrc<E>()
    ensures CheckCrc<E>([0xBE, 0xEF, 0x92]) == Ok(())
    ensures CheckCrc<E>([0xBE, 0x01, 0x92]) == Err(InvalidCrc)
  {
  }

  // ---------------------------------------------------------------------------
  // The bus: an externally supplied capability. A transaction is a sequence
  // of operations on one address; the bus answers with its own error or with
  // the bytes read, concatenated over the Read operations.

  datatype Operation = Write(bytes: seq<byte>) | Read(count: nat)

  datatype Transaction = Transaction(address: byte, ops: seq<Operation>)

  datatype BusReply<E> = Transport(cause: E) | Delivered(data: seq<byte>)

  /** The number of bytes the Read operations of `ops` ask for. */
  function ReadLength(ops: seq<Operation>): nat {
    if ops == [] then 0
    else (if ops[0].Read? then ops[0].count else 0) + ReadLength(ops[1..])
  }

  /** A delivered reply fills exactly the buffers the transaction reads into. */
  predicate Honours<E>(t: Transaction, reply: BusReply<E>) {
    reply.Delivered? ==> |reply.data| == ReadLength(t.ops)
  }

  /** The bus as an oracle: any answer at all, as long as a successful read
    * delivers exactly the requested number of bytes. */
  type Bus<E> = b: Transaction -> BusReply<E> | forall t :: Honours(t, b(t))
    witness (t: Transaction) => Delivered(seq(ReadLength(t.ops), i => 0 as byte))

  /** Sensor: a bus and the 7-bit address of the chip on it. */
  datatype Sensor<E> = Sensor(bus: Bus<E>, addr: byte)

  /** The three transaction shapes the drivers use. */
  function WriteRead(addr: byte, cmd: Cmd, n: nat): Transaction {
    Transaction(addr, [Write(cmd), Read(n)])
  }

  function ReadOnly(addr: byte, n: nat): Transaction {
    Transaction(addr, [Read(n)])
  }

  function WriteOnly(addr: byte, cmd: Cmd): Transaction {
    Transaction(addr, [Write(cmd)])
  }

  /** Each shape reads exactly the bytes of its Read operation. */
  lemma WriteReadLength(addr: byte, cmd: Cmd, n: nat)
    ensures ReadLength(WriteRead(addr, cmd, n).ops) == n
  {
    assert WriteRead(addr, cmd, n).ops[1..] == [Read(n)];
    ReadOnlyLength(addr, n);
  }

  lemma ReadOnlyLength(addr: byte, n: nat)
    ensures ReadLength(ReadOnly(addr, n).ops) == n
  {
    assert [Read(n)][1..] == [];
  }

  lemma WriteOnlyLength(addr: byte, cmd: Cmd)
    ensures ReadLength(WriteOnly(addr, cmd).ops) == 0
  {
    assert [Write(cmd)][1..] == [];
  }

  /** The bus call itself: on success the buffer holds the delivered bytes;
    * a transport error is wrapped as I2c. */
  method Transfer<E>(bus: Bus<E>, t: Transaction, buffer: array<byte>) returns (status: Result<(), E>)
    requires buffer.Length == ReadLength(t.ops)
    modifies buffer
    ensures bus(t).Transport? ==> status == Err(I2c(bus(t).cause))
    ensures bus(t).Delivered? ==> status == Ok(()) && buffer[..] == bus(t).data
  {
    match bus(t) {
      case Transport(e) =>
        status := Err(I2c(e));
      case Delivered(data) =>
        forall i | 0 <= i < buffer.Length {
          buffer[i] := data[i];
        }
        status := Ok(());
    }
  }

  // ---------------------------------------------------------------------------
  // Words.

  /** u16::from_be_bytes. */
  function BigEndian(hi: byte, lo: byte): word {
    ((hi as word) << 8) | (lo as word)
  }

  /** Both bytes are recovered from the word, and every word is some pair. */
  lemma BigEndianRoundTrip(hi: byte, lo: byte, w: word)
    ensures (BigEndian(hi, lo) >> 8) as byte == hi
    ensures (BigEndian(hi, lo) & 0xFF) as byte == lo
    ensures BigEndian((w >> 8) as byte, (w & 0xFF) as byte) == w
  {
  }

  /** The k-th 3-byte chunk of `data` carries a correct checksum. */
  predicate ChunkValid(data: seq<byte>, k: nat)
    requires 3 * k + 3 <= |data|
  {
    Checksum(data[3 * k], data[3 * k + 1]) == data[3 * k + 2]
  }

  /** The value carried by the k-th chunk. */
  function WordAt(data: seq<byte>, k: nat): word
    requires 3 * k + 3 <= |data|
  {
    BigEndian(data[3 * k], data[3 * k + 1])
  }

  lemma ChunkShift(data: seq<byte>, k: nat)
    requires 3 * k + 6 <= |data|
    ensures ChunkValid(data[3..], k) == ChunkValid(data, k + 1)
    ensures WordAt(data[3..], k) == WordAt(data, k + 1)
  {
  }

  /** Reference decoding of n wire words: the first chunk whose checksum
    * fails makes the whole response InvalidCrc; otherwise the words in order. */
  function DecodeWords<E>(data: seq<byte>, n: nat): (r: Result<seq<word>, E>)
    requires |data| == 3 * n
    ensures r.Ok? <==> forall k :: 0 <= k < n ==> ChunkValid(data, k)
    ensures r.Ok? ==> |r.value| == n && forall k :: 0 <= k < n ==> r.value[k] == WordAt(data, k)
    ensures r.Err? ==> r.error == InvalidCrc
    decreases n
  {
    if n == 0 then Ok([])
    else if !ChunkValid(data, 0) then Err(InvalidCrc)
    else
      var rest := DecodeWords<E>(data[3..], n - 1);
      forall k | 0 <= k < n - 1
        ensures ChunkValid(data[3..], k) == ChunkValid(data, k + 1)
        ensures WordAt(data[3..], k) == WordAt(data, k + 1)
      {
        ChunkShift(data, k);
      }
      assert forall k :: 1 <= k < n ==>
        ChunkValid(data, k) == ChunkValid(data[3..], k - 1) && WordAt(data, k) == WordAt(data[3..], k - 1);
      match rest
      case Ok(ws) => Ok([WordAt(data, 0)] + ws)
      case Err(e) =>
        assert exists k :: 0 <= k < n - 1 && !ChunkValid(data[3..], k);
        Err(e)
  }

  /** What a transaction reading n words yields for a given bus reply. */
  function Response<E>(reply: BusReply<E>, n: nat): (r: Result<seq<word>, E>)
    requires reply.Delivered? ==> |reply.data| == 3 * n
    ensures reply.Transport? ==> r == Err(I2c(reply.cause))
    ensures r.Err? && r.error.I2c? ==> reply.Transport?
    ensures r.Ok? <==> reply.Delivered? && forall k :: 0 <= k < n ==> ChunkValid(reply.data, k)
    ensures r == Err(InvalidCrc) <==> reply.Delivered? && exists k :: 0 <= k < n && !ChunkValid(reply.data, k)
    ensures r.Ok? ==> |r.value| == n && forall k :: 0 <= k < n ==> r.value[k] == WordAt(reply.data, k)
    ensures r != Err(InvalidResponse)
  {
    match reply
    case Transport(e) => Err(I2c(e))
    case Delivered(data) => DecodeWords(data, n)
  }

  /** The only word of a one-word response. */
  function SingleWord<E>(r: Result<seq<word>, E>): Result<word, E>
    requires r.Ok? ==> |r.value| == 1
  {
    match r
    case Ok(ws) => Ok(ws[0])
    case Err(e) => Err(e)
  }

  /** What read_word (called one_word_command by the drivers) returns: write
    * the opcode, read one wire word, check it, decode it. */
  function WordCommand<E>(sensor: Sensor<E>, cmd: Cmd): (r: Result<word, E>)
    ensures match sensor.bus(WriteRead(sensor.addr, cmd, 3))
            case Transport(e) => r == Err(I2c(e))
            case Delivered(d) => |d| == 3 && r == if ChunkValid(d, 0) then Ok(WordAt(d, 0)) else Err(InvalidCrc)
  {
    WriteReadLength(sensor.addr, cmd, 3);
    SingleWord(Response(sensor.bus(WriteRead(sensor.addr, cmd, 3)), 1))
  }

  /** What read_three_words (called three_words_command by the drivers)
    * returns: all three chunks are checked before any word is decoded. */
  function ThreeWordsCommand<E>(sensor: Sensor<E>, cmd: Cmd): (r: Result<seq<word>, E>)
    ensures match sensor.bus(WriteRead(sensor.addr, cmd, 9))
            case Transport(e) => r == Err(I2c(e))
            case Delivered(d) =>
              |d| == 9 &&
              r == if ChunkValid(d, 0) && ChunkValid(d, 1) && ChunkValid(d, 2)
                   then Ok([WordAt(d, 0), WordAt(d, 1), WordAt(d, 2)])
                   else Err(InvalidCrc)
  {
    WriteReadLength(sensor.addr, cmd, 9);
    var r := Response(sensor.bus(WriteRead(sensor.addr, cmd, 9)), 3);
    assert r.Ok? ==> r.value == [r.value[0], r.value[1], r.value[2]];
    r
  }

  /** What read_response_word returns: a read of one wire word with no
    * preceding write, checked and decoded like read_word. */
  function ResponseWord<E>(sensor: Sensor<E>): (r: Result<word, E>)
    ensures match sensor.bus(ReadOnly(sensor.addr, 3))
            case Transport(e) => r == Err(I2c(e))
            case Delivered(d) => |d| == 3 && r == if ChunkValid(d, 0) then Ok(WordAt(d, 0)) else Err(InvalidCrc)
  {
    ReadOnlyLength(sensor.addr, 3);
    SingleWord(Response(sensor.bus(ReadOnly(sensor.addr, 3)), 1))
  }

  /** What send_command returns: a write of the opcode alone; no checksum is
    * involved, so the only possible failure is the bus's own. */
  function Command<E>(sensor: Sensor<E>, cmd: Cmd): (r: Result<(), E>)
    ensures r.Ok? <==> sensor.bus(WriteOnly(sensor.addr, cmd)).Delivered?
    ensures r.Err? ==> r.error == I2c(sensor.bus(WriteOnly(sensor.addr, cmd)).cause)
  {
    match sensor.bus(WriteOnly(sensor.addr, cmd))
    case Transport(e) => Err(I2c(e))
    case Delivered(_) => Ok(())
  }

  // ---------------------------------------------------------------------------
  // The transactions as the source runs them: a buffer filled by the bus,
  // then the checksum of every chunk, then the decoding.

  /** Sensor::read_word. */
  method ReadWord<E>(sensor: Sensor<E>, cmd: Cmd) returns (r: Result<word, E>)
    ensures r == WordCommand(sensor, cmd)
  {
    WriteReadLength(sensor.addr, cmd, 3);
    var result := new byte[3];
    var status := Transfer(sensor.bus, WriteRead(sensor.addr, cmd, 3), result);
    if status.Err? {
      return Err(status.error);
    }
    var check := CheckCrc<E>(result[..]);
    if check.Err? {
      return Err(check.error);
    }
    r := Ok(BigEndian(result[0], result[1]));
  }

  /** Sensor::read_three_words. */
  method ReadThreeWords<E>(sensor: Sensor<E>, cmd: Cmd) returns (r: Result<seq<word>, E>)
    ensures r == ThreeWordsCommand(sensor, cmd)
  {
    WriteReadLength(sensor.addr, cmd, 9);
    var result := new byte[9];
    var status := Transfer(sensor.bus, WriteRead(sensor.addr, cmd, 9), result);
    if status.Err? {
      return Err(status.error);
    }
    ghost var data := result[..];
    for k := 0 to 3
      invariant result[..] == data
      invariant forall j :: 0 <= j < k ==> ChunkValid(data, j)
    {
      var check := CheckCrc<E>(result[3 * k..3 * k + 3]);
      if check.Err? {
        return Err(check.error);
      }
    }
    r := Ok([BigEndian(result[0], result[1]), BigEndian(result[3], result[4]), BigEndian(result[6], result[7])]);
  }

  /** The read-only counterpart of read_word that the SCD4x driver calls
    * read_response_word. */
  method ReadResponseWord<E>(sensor: Sensor<E>) returns (r: Result<word, E>)
    ensures r == ResponseWord(sensor)
  {
    ReadOnlyLength(sensor.addr, 3);
    var result := new byte[3];
    var status := Transfer(sensor.bus, ReadOnly(sensor.addr, 3), result);
    if status.Err? {
      return Err(status.error);
    }
    var check := CheckCrc<E>(result[..]);
    if check.Err? {
      return Err(check.error);
    }
    r := Ok(BigEndian(result[0], result[1]));
  }

  /** The write-only transaction the SCD4x driver calls send_command. */
  method SendCommand<E>(sensor: Sensor<E>, cmd: Cmd) returns (r: Result<(), E>)
    ensures r == Command(sensor, cmd)
  {
    WriteOnlyLength(sensor.addr, cmd);
    var nothing := new byte[0];
    r := Transfer(sensor.bus, WriteOnly(sensor.addr, cmd), nothing);
  }

  /** An example three-word response in which every word carries a correct
    * checksum. */
  lemma TestThreeWords<E>()
    ensures Response<E>(Delivered([0x01, 0xF4, 0x33, 0x66, 0x67, 0xA2, 0x5E, 0xB9, 0x3C]), 3)
            == Ok([0x01F4, 0x6667, 0x5EB9])
  {
    var d: seq<byte> := [0x01, 0xF4, 0x33, 0x66, 0x67, 0xA2, 0x5E, 0xB9, 0x3C];
    assert ChunkValid(d, 0) && ChunkValid(d, 1) && ChunkValid(d, 2);
    var r := Response<E>(Delivered(d), 3);
    assert r.value == [WordAt(d, 0), WordAt(d, 1), WordAt(d, 2)];
  }
}
