/** The shared motor atomics of firmware/src/motors.rs, each function run without interruption. */
module Motors {
  import opened Bytes

  /** `[left as u16][right as u16]` in one word. */
  function Pack(left: i16, right: i16): u32 { I16Bits(left) * 0x1_0000 + I16Bits(right) }

  function Unpack(packed: u32): (i16, i16) { (BitsI16(packed / 0x1_0000), BitsI16(packed % 0x1_0000)) }

  /** Packing loses nothing, negative speeds included. */
  lemma PackRoundTrip(left: i16, right: i16)
    ensures Unpack(Pack(left, right)) == (left, right)
  {}

  /** Every word is a packed pair. */
  lemma UnpackRoundTrip(packed: u32)
    ensures Pack(Unpack(packed).0, Unpack(packed).1) == packed
  {}

  /** The left speed is in the high half of the word, the right one in the low half. */
  lemma PackLayout(left: i16, right: i16)
    ensures (Pack(left, right) / 0x1_0000 - left) % 0x1_0000 == 0
    ensures (Pack(left, right) - right) % 0x1_0000 == 0
  {}

  class MotorBridge {
    var command: u32
    var enabled: bool

    constructor ()
      ensures command == 0 && enabled
    {
      command, enabled := 0, true;
    }

    method StoreMotorCommand(left: i16, right: i16) returns (ok: bool)
      modifies this
      ensures ok == old(enabled) && enabled == old(enabled)
      ensures command == if ok then Pack(left, right) else old(command)
    {
      if !enabled {
        return false;
      }
      command := I16Bits(left) * 0x1_0000 + I16Bits(right);
      ok := true;
    }

    method LoadMotorCommand() returns (left: i16, right: i16)
      ensures (left, right) == Unpack(command)
    {
      left, right := BitsI16(command / 0x1_0000), BitsI16(command % 0x1_0000);
    }

    method SetMotorEnabled(enable: bool)
      modifies this
      ensures enabled == enable
      ensures command == if enable then old(command) else 0
    {
      enabled := enable;
      if !enable {
        command := 0;
      }
    }
  }
}
