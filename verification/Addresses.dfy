/** IPv6 addresses as 128-bit numbers, and the address classes the daemon tests for. */
module Addresses {
  type Byte = x: int | 0 <= x < 256

  const ADDR_LIMIT: nat := 0x1_0000_0000_0000_0000_0000_0000_0000_0000

  type Addr = x: int | 0 <= x < ADDR_LIMIT

  /** The unspecified address `::`, used as "any source". */
  const ANY: Addr := 0

  /** The first two bytes of an address. */
  function Byte0(a: Addr): Byte {
    a / 0x100_0000_0000_0000_0000_0000_0000_0000
  }

  function Byte1(a: Addr): Byte {
    a / 0x1_0000_0000_0000_0000_0000_0000_0000 % 256
  }

  predicate IsMulticast(a: Addr) {
    Byte0(a) == 0xff
  }

  predicate IsMcNodeLocal(a: Addr) {
    IsMulticast(a) && Byte1(a) % 16 == 1
  }

  predicate IsMcLinkLocal(a: Addr) {
    IsMulticast(a) && Byte1(a) % 16 == 2
  }

  /** fe80::/10 */
  predicate IsLinkLocal(a: Addr) {
    Byte0(a) == 0xfe && Byte1(a) / 64 == 2
  }

  /** Node-local and link-local groups are never stored and never routed. */
  predicate IsLocalGroup(a: Addr) {
    IsMcNodeLocal(a) || IsMcLinkLocal(a)
  }
}
