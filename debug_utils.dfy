/**
 * The mock bus of the unit tests (src/debug_utils.rs): it answers every
 * Write+Read and every Read alone with one fixed response, provided the
 * read asks for exactly that many bytes, and accepts every Write alone.
 */
module DebugUtils {
  import opened Sensirion

  datatype DummyError = InvalidTest

  /** The mock's answer to one transaction. */
  function DummyReply(response: seq<byte>, t: Transaction): (r: BusReply<DummyError>)
    ensures Honours(t, r)
    ensures r.Delivered? ==> r.data == response || r.data == []
  {
    var ops := t.ops;
    if |ops| == 2 && ops[0].Write? && ops[1].Read? then
      assert ops[1..] == [ops[1]] && ops[1..][1..] == [];
      assert ReadLength(ops[1..]) == ops[1].count + ReadLength([]);
      if ops[1].count != |response| then Transport(InvalidTest) else Delivered(response)
    else if |ops| == 1 && ops[0].Read? then
      assert ops[1..] == [];
      if ops[0].count != |response| then Transport(InvalidTest) else Delivered(response)
    else if |ops| == 1 && ops[0].Write? then
      assert ops[1..] == [];
      Delivered([])
    else
      Transport(InvalidTest)
  }

  function DummyBus(response: seq<byte>): Bus<DummyError> {
    t => DummyReply(response, t)
  }

  /** The mock delivers its response to a read of the right length, whether or not an opcode is written first. */
  lemma DummyBusAnswers(response: seq<byte>, addr: byte, cmd: Cmd)
    ensures DummyBus(response)(WriteRead(addr, cmd, |response|)) == Delivered(response)
    ensures DummyBus(response)(ReadOnly(addr, |response|)) == Delivered(response)
    ensures DummyBus(response)(WriteOnly(addr, cmd)) == Delivered([])
  {
  }
}
