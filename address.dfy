/**
 * Address arithmetic of the paging simulator: the configuration constants,
 * the split of a logical address into page number and offset (with C++'s
 * truncating `/` and `%`), the physical-address formula and the random
 * address generator with its random draw taken as a parameter.
 */
module Address {

  /** Bytes per page. */
  const PAGE_SIZE: int := 256
  /** Bytes per frame; deliberately larger than a page. */
  const FRAME_SIZE: int := 1024
  /** Pages of logical memory (entries of the page/frame table). */
  const NUM_PAGES: int := 1024
  /** Frames of physical memory. */
  const NUM_FRAMES: int := 8

  /** A C++ `int`. */
  type Int32 = x: int | -0x8000_0000 <= x <= 0x7fff_ffff

  /**
   * C++ `logicalAddress / PAGE_SIZE`: the quotient truncated toward zero.
   * Dafny's `/` rounds toward negative infinity, so negative addresses are
   * handled on their absolute value.
   */
  function PageNumber(logicalAddress: int): (p: int)
    ensures 0 <= logicalAddress ==> p * PAGE_SIZE <= logicalAddress < p * PAGE_SIZE + PAGE_SIZE
    ensures logicalAddress < 0 ==> p * PAGE_SIZE - PAGE_SIZE < logicalAddress <= p * PAGE_SIZE
  {
    if logicalAddress >= 0 then logicalAddress / PAGE_SIZE
    else -((-logicalAddress) / PAGE_SIZE)
  }

  /** C++ `logicalAddress % PAGE_SIZE`: the remainder takes the sign of the address. */
  function Offset(logicalAddress: int): (o: int)
    ensures PageNumber(logicalAddress) * PAGE_SIZE + o == logicalAddress
    ensures 0 <= logicalAddress ==> 0 <= o
    ensures logicalAddress < 0 ==> o <= 0
  {
    if logicalAddress >= 0 then logicalAddress % PAGE_SIZE
    else -((-logicalAddress) % PAGE_SIZE)
  }

  /** Base of `frame` plus `offset`. */
  function PhysicalAddress(frame: int, offset: int): (a: int)
    ensures 0 <= offset < FRAME_SIZE ==> a / FRAME_SIZE == frame && a % FRAME_SIZE == offset
  {
    frame * FRAME_SIZE + offset
  }

  /** `rand() % (NUM_PAGES * PAGE_SIZE)`, with the value `rand()` returned as `draw`. */
  function GenerateLogicalAddress(draw: nat): (a: Int32)
    ensures 0 <= a < NUM_PAGES * PAGE_SIZE
    ensures draw < NUM_PAGES * PAGE_SIZE ==> a == draw
  {
    draw % (NUM_PAGES * PAGE_SIZE)
  }

  /**
   * Page number and offset put back together give the address again, for
   * every address; the offset lies in [0, PAGE_SIZE) exactly when the
   * address is not negative, and otherwise in (-PAGE_SIZE, 0].
   */
  lemma SplitRoundTrip(logicalAddress: int)
    ensures PageNumber(logicalAddress) * PAGE_SIZE + Offset(logicalAddress) == logicalAddress
    ensures 0 <= logicalAddress ==> 0 <= Offset(logicalAddress) < PAGE_SIZE
    ensures logicalAddress < 0 ==> -PAGE_SIZE < Offset(logicalAddress) <= 0
  {
  }

  /**
   * The page number is a valid table index exactly for the addresses of
   * logical memory: it is never negative from -PAGE_SIZE + 1 upwards, and it
   * is below NUM_PAGES exactly below NUM_PAGES * PAGE_SIZE.
   */
  lemma PageNumberRange(logicalAddress: int)
    ensures 0 <= PageNumber(logicalAddress) <==> -PAGE_SIZE < logicalAddress
    ensures PageNumber(logicalAddress) < NUM_PAGES <==> logicalAddress < NUM_PAGES * PAGE_SIZE
  {
  }

  /**
   * Every generated address has a page number inside the table and an offset
   * inside the page, so the "Invalid Page Number" branch is never taken.
   */
  lemma GeneratedAddressValid(draw: nat)
    ensures 0 <= PageNumber(GenerateLogicalAddress(draw)) < NUM_PAGES
    ensures 0 <= Offset(GenerateLogicalAddress(draw)) < PAGE_SIZE
  {
  }

  /**
   * For an existing frame and an in-page offset, the physical address lies in
   * physical memory and decodes back to the frame and the offset: the frame
   * is the quotient by FRAME_SIZE, the offset the remainder.
   */
  lemma PhysicalAddressDecode(frame: int, offset: int)
    requires 0 <= frame < NUM_FRAMES
    requires 0 <= offset < PAGE_SIZE
    ensures PhysicalAddress(frame, offset) / FRAME_SIZE == frame
    ensures PhysicalAddress(frame, offset) % FRAME_SIZE == offset
    ensures 0 <= PhysicalAddress(frame, offset) <= (NUM_FRAMES - 1) * FRAME_SIZE + PAGE_SIZE - 1
    ensures PhysicalAddress(frame, offset) < NUM_FRAMES * FRAME_SIZE
  {
  }

  /** Distinct (frame, offset) pairs in range never share a physical address. */
  lemma PhysicalAddressInjective(frame1: int, offset1: int, frame2: int, offset2: int)
    requires 0 <= frame1 < NUM_FRAMES && 0 <= offset1 < PAGE_SIZE
    requires 0 <= frame2 < NUM_FRAMES && 0 <= offset2 < PAGE_SIZE
    requires PhysicalAddress(frame1, offset1) == PhysicalAddress(frame2, offset2)
    ensures frame1 == frame2 && offset1 == offset2
  {
  }
}
