/** Addresses and special ports shared by the switch, its programs and the controller. */
module Packets {
  import opened Words

  type mac = s: seq<byte> | |s| == 6 witness [0, 0, 0, 0, 0, 0]

  const FLOOD: u32 := 0xffff_fffd
  const CONTROLLER: u32 := 0xffff_fffe
  const DROP: u32 := 0xffff_ffff

  /** The group bit: broadcast or multicast. */
  predicate Group(m: mac) { m[0] % 2 == 1 }

  /** It is the lowest bit of the first byte. */
  lemma {:induction false} GroupIsLowBit(m: mac)
    ensures Group(m) <==> Bitwise(BitAnd, m[0], 1) == 1
  {
    AndMask(m[0], 1);
    assert Pow2(1) == 2;
  }
}
