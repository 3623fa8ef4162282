/** Addresses and pages of a 32-bit kernel (threads/vaddr.h).  Masks of low bits are remainders and
    masks of high bits multiples, as addresses are natural numbers here. */
module Vaddr {
  const PGSIZE := 4096
  /** Where kernel memory starts, and user memory ends. */
  const PHYS_BASE := 0xC000_0000
  const ADDRESS_END := 0x1_0000_0000

  function PgOfs(va: nat): (ofs: nat) ensures ofs < PGSIZE { va % PGSIZE }
  function PgNo(va: nat): nat { va / PGSIZE }
  function RoundDown(va: nat): nat { va - va % PGSIZE }

  predicate IsUser(va: nat) { va < PHYS_BASE }

  /** The kernel address of a physical one, and back. */
  function Ptov(paddr: nat): nat
    requires paddr < PHYS_BASE
  {
    paddr + PHYS_BASE
  }

  function Vtop(va: nat): nat
    requires !IsUser(va)
  {
    va - PHYS_BASE
  }

  /** An address is in exactly one page, at one offset. */
  lemma PageOf(page: nat, ofs: nat)
    requires page % PGSIZE == 0 && ofs < PGSIZE
    ensures PgOfs(page + ofs) == ofs && RoundDown(page + ofs) == page && PgNo(page + ofs) == PgNo(page)
  {}

  lemma RoundDownIsPage(va: nat)
    ensures RoundDown(va) % PGSIZE == 0 && RoundDown(va) <= va < RoundDown(va) + PGSIZE
    ensures RoundDown(va) == PGSIZE * PgNo(va) && va == RoundDown(va) + PgOfs(va)
  {}
}
