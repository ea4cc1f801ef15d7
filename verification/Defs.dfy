/** The constants and address macros of defs.h, in 64-bit arithmetic. */
module Defs {
  import opened Bits

  const PGSIZE: Word := 0x1000
  const PHY_START: Word := 0x8000_0000
  const PHY_SIZE: Word := 0x800_0000
  const PHY_END: Word := PHY_START + PHY_SIZE
  const OPENSBI_SIZE: Word := 0x20_0000
  const VM_START: Word := 0xffff_ffe0_0000_0000
  const PA2VA_OFFSET: Word := VM_START - PHY_START
  const USER_END: Word := 0x40_0000_0000

  /** Slots of the task table, idle's included. */
  const NR_TASKS: nat := 16

  function Wrap(x: int): Word { x % TWO_64 }

  function Va2Pa(x: Word): Word { Wrap(x - PA2VA_OFFSET) }

  function Pa2Va(x: Word): Word { Wrap(x + PA2VA_OFFSET) }

  function Pfn2Phys(x: Word): Word { Wrap(Wrap(x * 0x1000) + PHY_START) }

  function Phys2Pfn(x: Word): Word { Wrap(x - PHY_START) / 0x1000 }

  function PgRoundDown(a: Word): Word { a / 0x1000 * 0x1000 }

  function PgRoundUp(a: Word): Word { Wrap(a + 0xfff) / 0x1000 * 0x1000 }

  function PgNum(a: Word): Word { a / 0x1000 }

  /** Page numbers whose direct-map address fits below 2^64. */
  const MAX_PAGES: nat := 0x200_0000

  /** The kernel virtual address of page pfn. */
  function Kva(pfn: nat): (va: Word)
    requires pfn < MAX_PAGES
  { VM_START + 0x1000 * pfn }

  /** The page a kernel address points into, and whether it is a page start. */
  function PfnOf(va: Word): nat
    requires va >= VM_START
  { (va - VM_START) / 0x1000 }

  predicate IsPage(va: Word) { va >= VM_START && va == VM_START + 0x1000 * PfnOf(va) }

  /** Page numbers survive the trip through addresses and back, and 0 is not
      an address of any page. */
  lemma PageAddressRoundTrip(pfn: nat, off: nat)
    requires pfn < MAX_PAGES && off < 0x1000
    ensures Pa2Va(Pfn2Phys(pfn)) == Kva(pfn) != 0
    ensures Va2Pa(Kva(pfn) + off) == PHY_START + 0x1000 * pfn + off
    ensures Phys2Pfn(Va2Pa(Kva(pfn) + off)) == pfn == PfnOf(Kva(pfn) + off)
    ensures IsPage(Kva(pfn)) && PfnOf(Kva(pfn)) == pfn
  {
    assert Kva(pfn) + off - PA2VA_OFFSET == PHY_START + 0x1000 * pfn + off;
  }
}
