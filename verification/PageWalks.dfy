/** The four-level page walk (page_walk.c): the reference both TLB designs cache. */
module PageWalks {
  import opened Addresses

  /** Memory by word index. It does not change while addresses are translated. */
  type Memory = nat -> Word

  /** read_page_entry: tables are addressed in bytes, entries are 4-byte words. */
  function ReadPageEntry(mem: Memory, pageStart: Word, index: Bits9): Word {
    mem(pageStart / 4 + index)
  }

  /** The page table entry that a walk ends at. */
  function LastEntry(mem: Memory, va: VirtAddr): Word {
    var pgd := ReadPageEntry(mem, 0, va.pgd);
    var pud := ReadPageEntry(mem, pgd, va.pud);
    var pmd := ReadPageEntry(mem, pud, va.pmd);
    ReadPageEntry(mem, pmd, va.pte)
  }

  /** page_walk */
  function PageWalk(mem: Memory, va: VirtAddr): PhyAddr {
    ToPhyAddr(LastEntry(mem, va), va.offset)
  }

  /** page_walk, writing its result through a pointer. It cannot fail: the offset of an
      address always fits. */
  method PageWalkInto(mem: Memory, va: VirtAddr, paddr: PhyAddrCell) returns (ok: bool)
    modifies paddr
    ensures ok && paddr.Value() == PageWalk(mem, va)
    ensures paddr.page == mem(mem(mem(mem(va.pgd) / 4 + va.pud) / 4 + va.pmd) / 4 + va.pte) / 4096
    ensures paddr.offset == va.offset
  {
    var pgd := ReadPageEntry(mem, 0, va.pgd);
    var pud := ReadPageEntry(mem, pgd, va.pud);
    var pmd := ReadPageEntry(mem, pud, va.pmd);
    var pte := ReadPageEntry(mem, pmd, va.pte);
    ok := paddr.Init(pte, va.offset);
  }

  /** The words that a walk reads, by byte address: each table starts at the entry before
      it, rounded down to a word, and has an entry every four bytes. */
  lemma WalkReadsWords(mem: Memory, va: VirtAddr, second: nat, third: nat, fourth: nat)
    requires 4 * second == mem(va.pgd) - mem(va.pgd) % 4 + 4 * va.pud
    requires 4 * third == mem(second) - mem(second) % 4 + 4 * va.pmd
    requires 4 * fourth == mem(third) - mem(third) % 4 + 4 * va.pte
    ensures PageWalk(mem, va) == PhyAddr(mem(fourth) / 4096, va.offset)
  {
    assert second == mem(va.pgd) / 4 + va.pud;
    assert third == mem(second) / 4 + va.pmd;
    assert fourth == mem(third) / 4 + va.pte;
  }

  /** The same translation as a radix tree descent over the digits of the page number,
      the most significant first, `level` levels deep. */
  function Descend(mem: Memory, vpn: nat, level: nat): Word {
    if level == 0 then 0
    else ReadPageEntry(mem, Descend(mem, vpn / 512, level - 1), vpn % 512)
  }

  /** The physical page a virtual page is mapped to. */
  function Translate(mem: Memory, vpn: Vpn): Bits20 {
    Descend(mem, vpn, 4) / PAGE_SIZE
  }

  /** A walk depends on the page number and the offset alone, which is what makes it
      sound to cache walks by page number. */
  lemma WalkByPageNumber(mem: Memory, va: VirtAddr)
    ensures LastEntry(mem, va) == Descend(mem, PageNumber(va), 4)
    ensures PageWalk(mem, va) == PhyAddr(Translate(mem, PageNumber(va)), va.offset)
  {
    Digits(va);
    var v := PageNumber(va);
    assert v / 512 / 512 == v / 0x4_0000 && v / 0x4_0000 / 512 == v / 0x800_0000;
    assert Descend(mem, v / 0x800_0000, 1) == ReadPageEntry(mem, 0, va.pgd);
    assert Descend(mem, v / 0x4_0000, 2) == ReadPageEntry(mem, Descend(mem, v / 0x800_0000, 1), va.pud);
    assert Descend(mem, v / 512, 3) == ReadPageEntry(mem, Descend(mem, v / 0x4_0000, 2), va.pmd);
  }

  /** Addresses on one page are translated to one physical page. */
  lemma SamePageSameWalk(mem: Memory, a: VirtAddr, b: VirtAddr)
    requires PageNumber(a) == PageNumber(b)
    ensures PageWalk(mem, a) == PageWalk(mem, b).(offset := a.offset)
  {
    SamePageSameIndices(a, b);
  }

  /** As a 32-bit word, the result is the last entry rounded down to a page, plus the
      offset. */
  lemma WalkRecombines(mem: Memory, va: VirtAddr)
    ensures PhyToWord(PageWalk(mem, va)) == LastEntry(mem, va) - LastEntry(mem, va) % 4096 + va.offset
  {
    PhyAddrRecombines(LastEntry(mem, va), va.offset);
  }

  /** Every address was answered as the page walk answers it. */
  ghost predicate Walked(mem: Memory, vas: seq<VirtAddr>, paddrs: seq<PhyAddr>) {
    |paddrs| == |vas| && forall i :: 0 <= i < |vas| ==> paddrs[i] == PageWalk(mem, vas[i])
  }

  lemma WalkedExtends(mem: Memory, vas: seq<VirtAddr>, i: nat, paddrs: seq<PhyAddr>)
    requires i < |vas| && Walked(mem, vas[..i], paddrs)
    ensures Walked(mem, vas[..i + 1], paddrs + [PageWalk(mem, vas[i])])
  {
  }
}
