/** Network layer packets. */
module Packets {
  const BCAST_ADDR := 65535

  type SignedByte = i: int | -128 <= i < 128

  /** What a signed byte makes of an integer. */
  function Wrapped(x: int): SignedByte {
    (x + 128) % 256 - 128
  }

  /** x-- on a signed byte. */
  function Decremented(x: SignedByte): SignedByte {
    if x == -128 then 127 else x - 1
  }

  /** kind is the type byte of the program. */
  datatype Packet = Packet(
    src: nat, dest: nat, prevHop: nat, nextHop: nat, ttl: SignedByte, kind: nat, length: SignedByte,
    prio: SignedByte, data: seq<nat>)

  /** initialise_nw_packet. */
  function Blank(p: Packet): Packet {
    p.(src := 0, dest := 0, ttl := 0, kind := 0xFF, length := 0, prio := 0,
       data := seq(|p.data|, i => 0))
  }
}
