/** Virtual and physical addresses, and how they are packed into words
    (addr.h, addr_mng.c).

    Shifts and masks are written as products, quotients and remainders by powers of
    two, and the source's `|`, which only ever joins bits that do not overlap, as a sum.
    The lemmas at the end justify this on bit vectors. */
module Addresses {

  const PAGE_SIZE := 0x1000           // 1 << PAGE_OFFSET
  const PAGE_COUNT := 0x10_0000_0000  // 1 << VIRT_PAGE_NUM
  const VIRT_SPACE := 0x1_0000_0000_0000
  const TWO_32 := 0x1_0000_0000
  const TWO_64 := 0x1_0000_0000_0000_0000

  // The widths of the bit fields and of the C integer types.
  type Bits9 = x: int | 0 <= x < 0x200
  type Bits12 = x: int | 0 <= x < 0x1000
  type Bits16 = x: int | 0 <= x < 0x1_0000
  type Bits20 = x: int | 0 <= x < 0x10_0000
  type Vpn = x: int | 0 <= x < 0x10_0000_0000
  type Word = x: int | 0 <= x < 0x1_0000_0000
  type Word64 = x: int | 0 <= x < 0x1_0000_0000_0000_0000

  datatype VirtAddr = VirtAddr(reserved: Bits16, pgd: Bits9, pud: Bits9, pmd: Bits9, pte: Bits9, offset: Bits12)

  datatype PhyAddr = PhyAddr(page: Bits20, offset: Bits12)

  /** virt_addr_t_to_virtual_page_number */
  function PageNumber(va: VirtAddr): Vpn {
    va.pgd * 0x800_0000 + va.pud * 0x4_0000 + va.pmd * 0x200 + va.pte
  }

  /** virt_addr_t_to_uint64_t */
  function ToWord64(va: VirtAddr): Word64 {
    PageNumber(va) * PAGE_SIZE + va.offset
  }

  /** The address that init_virt_addr64 leaves behind. */
  function FromWord64(x: Word64): VirtAddr {
    VirtAddr(0,
             (x / 0x80_0000_0000) % 0x200,
             (x / 0x4000_0000) % 0x200,
             (x / 0x20_0000) % 0x200,
             (x / 0x1000) % 0x200,
             x % 0x1000)
  }

  /** The address that init_phy_addr leaves behind. The mask is one bit wider than the
      field it feeds; the field then drops that bit. */
  function ToPhyAddr(pageBegin: Word, offset: Bits12): PhyAddr {
    PhyAddr(((pageBegin / PAGE_SIZE) % 0x20_0000) % 0x10_0000, offset)
  }

  /** paddr_to_uint32_t */
  function PhyToWord(pa: PhyAddr): Word {
    pa.page * PAGE_SIZE + pa.offset
  }

  /** A virt_addr_t in memory, filled field by field. */
  class VirtAddrCell {
    var reserved: Bits16
    var pgd: Bits9
    var pud: Bits9
    var pmd: Bits9
    var pte: Bits9
    var offset: Bits12

    function Value(): VirtAddr
      reads this
    {
      VirtAddr(reserved, pgd, pud, pmd, pte, offset)
    }

    /** A zeroed address. */
    constructor Zero()
      ensures Value() == VirtAddr(0, 0, 0, 0, 0, 0)
    {
      reserved, pgd, pud, pmd, pte, offset := 0, 0, 0, 0, 0, 0;
    }

    /** init_virt_addr. The parameters are 16 bits wide, so each may overflow its field;
        one that does leaves the whole address as it was. */
    method Init(pgdEntry: Bits16, pudEntry: Bits16, pmdEntry: Bits16, pteEntry: Bits16, pageOffset: Bits16)
      returns (ok: bool)
      modifies this
      ensures ok <==> (&& pgdEntry <= 511 && pudEntry <= 511 && pmdEntry <= 511 && pteEntry <= 511
                       && pageOffset <= 4095)
      ensures ok ==> && reserved == 0 && pgd == pgdEntry && pud == pudEntry && pmd == pmdEntry && pte == pteEntry
                     && offset == pageOffset
      ensures !ok ==> Value() == old(Value())
    {
      ok := pgdEntry <= 511 && pudEntry <= 511 && pmdEntry <= 511 && pteEntry <= 511 && pageOffset <= 4095;
      if ok {
        reserved := 0;
        pgd := pgdEntry;
        pud := pudEntry;
        pmd := pmdEntry;
        pte := pteEntry;
        offset := pageOffset;
      }
    }

    /** init_virt_addr64. It always succeeds. The fields are the digits of the low 48 bits,
        at bits 39, 30, 21, 12 and 0. */
    method Init64(x: Word64) returns (ok: bool)
      modifies this
      ensures ok && Value() == FromWord64(x)
      ensures x % 0x1_0000_0000_0000
           == pgd * 0x80_0000_0000 + pud * 0x4000_0000 + pmd * 0x20_0000 + pte * 0x1000 + offset
    {
      UnpackThenPack(x);
      ok := Init((x / 0x80_0000_0000) % 512, (x / 0x4000_0000) % 512, (x / 0x20_0000) % 512, (x / 0x1000) % 512,
                 x % 4096);
    }
  }

  /** A phy_addr_t in memory. */
  class PhyAddrCell {
    var page: Bits20
    var offset: Bits12

    function Value(): PhyAddr
      reads this
    {
      PhyAddr(page, offset)
    }

    /** init_phy_addr. An offset of more than 12 bits leaves the address as it was. */
    method Init(pageBegin: Word, pageOffset: Word) returns (ok: bool)
      modifies this
      ensures ok <==> pageOffset <= 4095
      ensures ok ==> Value() == ToPhyAddr(pageBegin, pageOffset)
      ensures ok ==> page == pageBegin / 4096 && offset == pageOffset
      ensures !ok ==> Value() == old(Value())
    {
      ok := pageOffset <= 4095;
      if ok {
        offset := pageOffset;
        page := ((pageBegin / 4096) % 0x20_0000) % 0x10_0000;
      }
    }
  }

  /** Where the fields are in a packed address: bits 39, 30, 21, 12 and 0. */
  lemma PackedFields(va: VirtAddr)
    ensures ToWord64(va)
         == va.pgd * 0x80_0000_0000 + va.pud * 0x4000_0000 + va.pmd * 0x20_0000 + va.pte * 0x1000 + va.offset
  {
  }

  /** A packed physical address has its page above bit 12 and its offset below. */
  lemma PhyPackedFields(pa: PhyAddr)
    ensures PhyToWord(pa) / 4096 == pa.page && PhyToWord(pa) % 4096 == pa.offset
  {
  }

  /** The mask of init_phy_addr and its field lose nothing of a 32-bit page address: page
      and offset recombine to the address rounded down to its page, plus the offset. */
  lemma PhyAddrRecombines(pageBegin: Word, offset: Bits12)
    ensures PhyToWord(ToPhyAddr(pageBegin, offset)) == pageBegin - pageBegin % 4096 + offset
  {
  }

  /** Unpacking what was packed gives the address back, with its reserved bits cleared;
      so the round trip is the identity exactly on addresses without reserved bits. */
  lemma PackThenUnpack(va: VirtAddr)
    ensures FromWord64(ToWord64(va)) == va.(reserved := 0)
    ensures FromWord64(ToWord64(va)) == va <==> va.reserved == 0
  {
    var x := ToWord64(va);
    assert x % 0x1000 == va.offset && x / 0x1000 == PageNumber(va);
    Digits(va);
    ShiftInSteps(x);
  }

  /** Packing what was unpacked keeps the low 48 bits. */
  lemma UnpackThenPack(x: Word64)
    ensures ToWord64(FromWord64(x)) == x % VIRT_SPACE
  {
    PageNumberOfWord(x);
    SplitWord(x);
  }

  /** The low 48 bits are 36 bits of page number and 12 bits of offset. */
  lemma SplitWord(x: Word64)
    ensures x % VIRT_SPACE == (x / 0x1000) % PAGE_COUNT * 0x1000 + x % 0x1000
  {
    var page := (x / 0x1000) % PAGE_COUNT;
    Quotient(x, VIRT_SPACE, x / 0x1000 / PAGE_COUNT, page * 0x1000 + x % 0x1000);
  }

  /** A 36-bit remainder, written in base 512. */
  lemma BaseDigits(p: nat)
    ensures p % PAGE_COUNT
         == ((p / 0x800_0000) % 0x200) * 0x800_0000 + ((p / 0x4_0000) % 0x200) * 0x4_0000
            + ((p / 0x200) % 0x200) * 0x200 + p % 0x200
  {
    var p1 := p / 0x200;
    var p2 := p1 / 0x200;
    var p3 := p2 / 0x200;
    var p4 := p3 / 0x200;
    Quotient(p, 0x4_0000, p2, p1 % 0x200 * 0x200 + p % 0x200);
    Quotient(p, 0x800_0000, p3, p2 % 0x200 * 0x4_0000 + p1 % 0x200 * 0x200 + p % 0x200);
    Quotient(p, PAGE_COUNT, p4, p3 % 0x200 * 0x800_0000 + p2 % 0x200 * 0x4_0000 + p1 % 0x200 * 0x200 + p % 0x200);
  }

  /** The page number of an unpacked address is its bits 12 to 47. */
  lemma PageNumberOfWord(x: Word64)
    ensures PageNumber(FromWord64(x)) == (x / 0x1000) % PAGE_COUNT
  {
    ShiftInSteps(x);
    BaseDigits(x / 0x1000);
  }

  /** The table indices are the base-512 digits of the page number. */
  lemma Digits(va: VirtAddr)
    ensures va.pgd == PageNumber(va) / 0x800_0000
    ensures va.pud == (PageNumber(va) / 0x4_0000) % 0x200
    ensures va.pmd == (PageNumber(va) / 0x200) % 0x200
    ensures va.pte == PageNumber(va) % 0x200
  {
    var v := PageNumber(va);
    var top := va.pgd * 0x4_0000 + va.pud * 0x200 + va.pmd;
    Quotient(v, 0x800_0000, va.pgd, va.pud * 0x4_0000 + va.pmd * 0x200 + va.pte);
    Quotient(v, 0x4_0000, va.pgd * 0x200 + va.pud, va.pmd * 0x200 + va.pte);
    Quotient(v, 0x200, top, va.pte);
    Quotient(va.pgd * 0x200 + va.pud, 0x200, va.pgd, va.pud);
    Quotient(top, 0x200, va.pgd * 0x200 + va.pud, va.pmd);
  }

  /** Quotient and remainder are unique. */
  lemma Quotient(x: nat, d: nat, q: nat, r: nat)
    requires r < d && x == q * d + r
    ensures x / d == q && x % d == r
  {
    var p, rest := x / d, x % d;
    assert x == p * d + rest;
    SameQuotient(p, rest, q, r, d);
  }

  lemma SameQuotient(p: nat, r: nat, p': nat, r': nat, d: nat)
    requires r < d && r' < d && p * d + r == p' * d + r'
    ensures p == p'
  {
    if p < p' {
      NextMultiple(p, p', d);
    } else if p' < p {
      NextMultiple(p', p, d);
    }
  }

  lemma NextMultiple(p: nat, p': nat, d: nat)
    requires p < p'
    ensures p * d + d <= p' * d
  {
    Multiple(p' - p, d);
    assert (p' - p) * d == p' * d - p * d;
  }

  lemma {:induction false} Multiple(k: nat, d: nat)
    requires k > 0
    ensures k * d >= d
  {
    if k > 1 {
      Multiple(k - 1, d);
      assert k * d == (k - 1) * d + d;
    }
  }

  /** Addresses on one page have the same four table indices. */
  lemma SamePageSameIndices(a: VirtAddr, b: VirtAddr)
    ensures PageNumber(a) == PageNumber(b) <==> a.pgd == b.pgd && a.pud == b.pud && a.pmd == b.pmd && a.pte == b.pte
  {
    Digits(a);
    Digits(b);
  }

  /** Shifting by 12 and then by a multiple of 9 is one shift. */
  lemma ShiftInSteps(x: Word64)
    ensures x / 0x20_0000 == x / 0x1000 / 0x200
    ensures x / 0x4000_0000 == x / 0x1000 / 0x4_0000
    ensures x / 0x80_0000_0000 == x / 0x1000 / 0x800_0000
  {
  }

  // ----------------------------------------------------------------------- bit vectors

  /** The fields of a virtual address. */
  lemma OrOfDisjointFieldsIsSum(pgd: bv64, pud: bv64, pmd: bv64, pte: bv64, offset: bv64)
    requires pgd < 0x200 && pud < 0x200 && pmd < 0x200 && pte < 0x200 && offset < 0x1000
    ensures (pgd << 27) | (pud << 18) | (pmd << 9) | pte == (pgd << 27) + (pud << 18) + (pmd << 9) + pte
    ensures (((pgd << 27) | (pud << 18) | (pmd << 9) | pte) << 12) | offset
         == (((pgd << 27) + (pud << 18) + (pmd << 9) + pte) << 12) + offset
  {
  }

  /** The page and offset of a physical address, and a hexadecimal digit shifted into a
      word of 32 or 64 bits. */
  lemma OrAfterShiftIsSum(page: bv32, offset: bv32, data: bv32, addr: bv64, digit32: bv32, digit64: bv64)
    requires offset < 0x1000 && digit32 < 16 && digit64 < 16
    ensures (page << 12) | offset == (page << 12) + offset
    ensures (data << 4) | digit32 == (data << 4) + digit32
    ensures (addr << 4) | digit64 == (addr << 4) + digit64
  {
  }

  /** Masks of one less than a power of two are remainders. */
  lemma MaskIsRemainder(x: bv64, tag: bv32)
    ensures x & 511 == x % 0x200 && x & 4095 == x % 0x1000
    ensures tag & 3 == tag % 4
  {
  }
}
