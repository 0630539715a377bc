/** The scalar types of the router (include/types.h) and the few records every part shares. */
module Types {

  type u8 = x: int | 0 <= x < 0x100
  type u16 = x: int | 0 <= x < 0x1_0000
  type u32 = x: int | 0 <= x < 0x1_0000_0000

  datatype Option<+T> = None | Some(value: T)

  /** A hardware address: ETH_ALEN bytes. */
  type Mac = m: seq<u8> | |m| == 6 witness [0, 0, 0, 0, 0, 0]

  const ZERO_MAC: Mac := [0, 0, 0, 0, 0, 0]

  /** The part of iface_info_t the router reads while it forwards. */
  datatype Iface = Iface(ip: u32, mac: Mac)

  /** A frame: Ethernet header, then the payload. */
  type Packet = seq<u8>

  lemma Regroup<A>(a: seq<A>, b: seq<A>, c: seq<A>)
    ensures (a + b) + c == a + (b + c)
  {
  }
}
