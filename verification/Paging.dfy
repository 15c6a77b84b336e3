/** Layout constants and the arithmetic of 32-bit paging words (kernel/include/memory.h, misc.h).
    Words are modelled as natural numbers.  A directory or table word is
    `frame * 4096 + flags`; `MaskedWords` states that the masks and shifts of the
    C macros are exactly these divisions on 32-bit values.
 */
module Paging {
  const PAGE_SIZE: nat := 4096
  const ENTRIES: nat := 1024
  const KERNEL_BASE: nat := 0xC000_0000
  const KHEAP_START: nat := 0xC040_0000
  const KHEAP_END: nat := 0xE000_0000

  // The kernel heap covers directory entries 769 up to, not including, 896.
  const KHEAP_PAGES: nat := 130048
  const KHEAP_FIRST_PDE: nat := 769
  const KHEAP_LIMIT_PDE: nat := 896
  // User mappings live below directory entry 768.
  const USER_LIMIT_PDE: nat := 768

  const KERNEL_FLAGS: nat := 3
  const USER_FLAGS: nat := 7

  // Page numbers: a page number v stands for the virtual address v * PAGE_SIZE.
  const KHEAP_FIRST_PAGE: nat := KHEAP_FIRST_PDE * ENTRIES
  const USER_LIMIT_PAGE: nat := USER_LIMIT_PDE * ENTRIES

  // A word that names a frame, and the frame it names.
  function Word(frame: nat, flags: nat): nat { frame * PAGE_SIZE + flags }
  function FrameOf(word: nat): nat { word / PAGE_SIZE }

  function PdeIndex(page: nat): nat { page / ENTRIES }
  function PteIndex(page: nat): nat { page % ENTRIES }

  function AlignDown4k(addr: nat): nat { addr / PAGE_SIZE * PAGE_SIZE }

  // misc.h adds 0xFFF in 32 bits, so addresses in the last page wrap to 0.
  function AlignUp4k(addr: nat): nat { (addr + 0xFFF) % 0x1_0000_0000 / PAGE_SIZE * PAGE_SIZE }

  function PagesRequired(len: nat): nat { (len + PAGE_SIZE - 1) % 0x1_0000_0000 / PAGE_SIZE }

  // The pages a length is counted as where no 32-bit sum is formed.
  function PagesFor(len: nat): nat { len / PAGE_SIZE + if len % PAGE_SIZE > 0 then 1 else 0 }

  /** The masks and shifts of the C macros are divisions by powers of two. */
  lemma MaskedWords(a: bv32, flags: bv32)
    requires flags < 4096
    ensures a & 0xFFFF_F000 == (a / 4096) * 4096
    ensures (a & 0xFFFF_F000) | flags == (a / 4096) * 4096 + flags
    ensures ((a & 0xFFFF_F000) | flags) / 4096 == a / 4096
    ensures (a >> 22) & 0x3FF == a / 0x40_0000
    ensures (a >> 12) & 0x3FF == (a / 4096) % 1024
  {
  }

  /** Rounding up lands on the least page boundary not below the address, except that an
      address in the last page of the 32-bit space wraps to zero. */
  lemma AlignUpIsLeast(addr: nat)
    requires addr < 0x1_0000_0000
    ensures AlignUp4k(addr) % PAGE_SIZE == 0
    ensures addr <= 0xFFFF_F000 <==> addr <= AlignUp4k(addr)
    ensures addr <= 0xFFFF_F000 ==> AlignUp4k(addr) < addr + PAGE_SIZE
    ensures addr > 0xFFFF_F000 ==> AlignUp4k(addr) == 0
  {
  }

  /** A length takes the fewest pages that hold it, except that pages_required counts none for lengths in
      the last page of the 32-bit space; rounding down gives the greatest boundary. */
  lemma PagesAreTight(len: nat)
    requires len < 0x1_0000_0000
    ensures len <= PagesFor(len) * 4096 < len + 4096
    ensures PagesRequired(len) == if len <= 0xFFFF_F000 then PagesFor(len) else 0
    ensures AlignDown4k(len) % 4096 == 0 && AlignDown4k(len) <= len < AlignDown4k(len) + 4096
  {
  }
}
