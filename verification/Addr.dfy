/** Kernel addresses: the direct map of physical memory and the page arithmetic of
    kernel/include/vmem.h and kernel/include/kmem.h. */
module Addr {
  const PAGE_SIZE := 0x1000
  const VA_KERNEL_BEGIN := 0xFFFF_FFC0_0000_0000
  const PMA_LIMIT := 0x40_0000_0000 // 2^64 - VA_KERNEL_BEGIN

  /** `va & ~VA_KERNEL_BEGIN` */
  function Va2Pa(va: nat): nat {
    va % PMA_LIMIT
  }

  /** `pa | VA_KERNEL_BEGIN`, for a physical address below 2^38. */
  function Pa2Va(pa: nat): nat
    requires pa < PMA_LIMIT
  {
    VA_KERNEL_BEGIN + pa
  }

  /** Kernel address of physical page `ppn`. */
  function PageVa(ppn: nat): nat
    requires ppn * PAGE_SIZE < PMA_LIMIT
  {
    Pa2Va(ppn * PAGE_SIZE)
  }

  function PpnOf(va: nat): nat {
    Va2Pa(va) / PAGE_SIZE
  }

  /** Page addresses are aligned and name their page. */
  lemma PageVaRoundTrip(ppn: nat)
    requires ppn * PAGE_SIZE < PMA_LIMIT
    ensures PageVa(ppn) % PAGE_SIZE == 0 && PpnOf(PageVa(ppn)) == ppn
  {
  }
}
