/** Page arithmetic on virtual addresses (src/memory/address/virt.rs). */
module Address {
  const PAGE_SIZE: nat := 4096

  /** One past the last canonical address of the lower (user) half of Sv39. */
  const USER_END: nat := 0x40_0000_0000

  /** One past the last user page number. */
  const USER_VPNS: nat := 0x400_0000

  // The share segment, src/consts/address_space.rs.
  const SHARE_BEG: nat := 0x4_0000_0000
  const SHARE_END: nat := 0x6_0000_0000

  function Floor(a: nat): nat { a - a % PAGE_SIZE }

  function Ceil(a: nat): nat { Floor(a + PAGE_SIZE - 1) }

  function RoundUp(a: nat): nat { Floor(a) + PAGE_SIZE }

  predicate Aligned(a: nat) { a % PAGE_SIZE == 0 }

  function VpnDown(a: nat): nat { a / PAGE_SIZE }

  /** First page visited by `iter_vpn` on a range that begins at `start`. */
  function VpnLo(start: nat): nat { Floor(start) / PAGE_SIZE }

  /** One past the last page visited by `iter_vpn` on a range that ends at `end`. */
  function VpnHi(end: nat): nat { Ceil(end) / PAGE_SIZE }

  predicate InShare(v: nat) { SHARE_BEG <= v * PAGE_SIZE < SHARE_END }

  /** `iter_vpn` visits exactly the pages that share an address with the range. */
  lemma VpnRangeMeets(start: nat, end: nat, v: nat)
    requires start < end
    ensures VpnLo(start) <= v < VpnHi(end) <==>
            exists a :: start <= a < end && VpnDown(a) == v
  {
    if VpnLo(start) <= v < VpnHi(end) {
      var a := if v * PAGE_SIZE < start then start else v * PAGE_SIZE;
      assert start <= a < end && VpnDown(a) == v;
    }
  }

  /** For a page-aligned start those are the pages whose first address lies in the range. */
  lemma AlignedRangePages(start: nat, end: nat, v: nat)
    requires Aligned(start)
    ensures VpnLo(start) <= v < VpnHi(end) <==> start <= v * PAGE_SIZE < end
  {
  }
}
