/**
 * Page geometry of the physical memory manager (src/arch/i386/mm/pmm.h):
 * the frame size, the mask that aligns a physical address down to its frame,
 * and the physical load address of the kernel.
 */
module PageAlign {
  import opened Types
  import Bitwise

  /** PMM_PAGE_SIZE: bytes per physical frame */
  const PMM_PAGE_SIZE: u32 := 0x1000

  /** PHY_PAGE_MASK: all address bits above the in-frame offset */
  const PHY_PAGE_MASK: u32 := 0xFFFF_F000

  /** RAM_KERNEL_START: physical address at which the kernel is loaded */
  const RAM_KERNEL_START: u32 := 0x10_0000

  /**
   * `addr & PHY_PAGE_MASK`: the start of the frame that contains `addr`,
   * that is, `addr` rounded down to a multiple of PMM_PAGE_SIZE.
   */
  function PageAlignDown(addr: u32): (r: u32)
    ensures r as int == addr as int - addr as int % PMM_PAGE_SIZE as int
    ensures r as int == PMM_PAGE_SIZE as int * (addr as int / PMM_PAGE_SIZE as int)
    ensures r <= addr
    ensures (addr - r) < PMM_PAGE_SIZE
  {
    MaskClearsOffset(addr as nat);
    Bitwise.And(addr as nat, PHY_PAGE_MASK as nat, 32) as u32
  }

  /** The mask clears the twelve offset bits and keeps the twenty frame-number bits. */
  lemma MaskClearsOffset(a: nat)
    requires a < 0x1_0000_0000
    ensures Bitwise.And(a, PHY_PAGE_MASK as nat, 32) == a - a % 0x1000
    ensures a - a % 0x1000 == 0x1000 * (a / 0x1000)
  {
    var mask := PHY_PAGE_MASK as nat;
    Bitwise.Pow2Values();
    MaskShape();
    Bitwise.AndLowBitsClear(a, mask, 32, 12);
    var hi := Bitwise.Shr(a, 12);
    assert Bitwise.And(a, mask, 32) == Bitwise.Shl(Bitwise.And(hi, 0xF_FFFF, 20), 12);
    Bitwise.ShrIsDiv(a, 12);
    assert hi == a / 0x1000 && hi < 0x10_0000;
    Bitwise.AndAllOnes(hi, 20);
    assert Bitwise.And(hi, 0xF_FFFF, 20) == hi;
    Bitwise.ShlIsMul(hi, 12);
    ScaleByPageSize(hi, Bitwise.Pow2(12));
    Bitwise.DivMod(a, 0x1000);
  }

  lemma ScaleByPageSize(x: int, p: int)
    requires p == 0x1000
    ensures x * p == 0x1000 * x
  {
  }

  /** PHY_PAGE_MASK has its twelve low bits clear and twenty one-bits above them. */
  lemma MaskShape()
    ensures Bitwise.LowBitsClear(PHY_PAGE_MASK as nat, 12)
    ensures Bitwise.Shr(PHY_PAGE_MASK as nat, 12) == 0xF_FFFF
  {
  }

  /** The mask is exactly the complement of the in-frame offset bits. */
  lemma MaskMatchesPageSize()
    ensures PHY_PAGE_MASK as int + (PMM_PAGE_SIZE as int - 1) == U32_MAX as int
    ensures PMM_PAGE_SIZE as int == Bitwise.Pow2(12)
  {
    Bitwise.Pow2Values();
  }

  /** The aligned address is a multiple of the frame size. */
  lemma PageAlignDownIsMultiple(addr: u32)
    ensures PageAlignDown(addr) as int % PMM_PAGE_SIZE as int == 0
  {
    Bitwise.DivUnique(PageAlignDown(addr) as int, 0x1000, addr as int / 0x1000, 0);
  }

  /** Aligning an aligned address changes nothing, so aligning twice is aligning once. */
  lemma PageAlignDownIdempotent(addr: u32)
    ensures PageAlignDown(PageAlignDown(addr)) == PageAlignDown(addr)
  {
    PageAlignDownIsMultiple(addr);
  }

  /** An address is its own frame start exactly when it is a multiple of the frame size. */
  lemma PageAlignDownFixedPoints(addr: u32)
    ensures PageAlignDown(addr) == addr <==> addr as int % PMM_PAGE_SIZE as int == 0
  {
  }

  /** No frame boundary lies strictly between the aligned address and the address. */
  lemma PageAlignDownIsGreatest(addr: u32, b: u32)
    requires b as int % PMM_PAGE_SIZE as int == 0 && b <= addr
    ensures b <= PageAlignDown(addr)
  {
    var qa, qb := addr as int / 0x1000, b as int / 0x1000;
    MaskClearsOffset(addr as nat);
    Bitwise.DivMod(addr as int, 0x1000);
    Bitwise.DivMod(b as int, 0x1000);
    FrameNumbersOrdered(qa, qb, addr as int);
  }

  /** A multiple of 0x1000 that is at most `a` is at most the last multiple at or below `a`. */
  lemma FrameNumbersOrdered(qa: int, qb: int, a: int)
    requires 0x1000 * qa <= a < 0x1000 * qa + 0x1000 && 0x1000 * qb <= a
    ensures qb <= qa
  {
  }

  /** The kernel's load address starts a frame. */
  lemma KernelStartIsAligned()
    ensures PageAlignDown(RAM_KERNEL_START) == RAM_KERNEL_START
  {
  }
}
