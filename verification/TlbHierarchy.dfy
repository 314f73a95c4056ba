/** The two-level TLB hierarchy (tlb_hrchy.h, tlb_hrchy_mng.c): two direct-mapped L1
    TLBs of 16 lines, for instructions and for data, over one L2 TLB of 64 lines. */
module TlbHierarchy {
  import opened Options
  import opened Addresses
  import opened MemAccess
  import opened PageWalks

  datatype Kind = L1Itlb | L1Dtlb | L2Tlb

  datatype Entry = Entry(tag: Word, page: Bits20, v: bool)

  const L1_LINES := 16
  const L2_LINES := 64
  const ZERO_ENTRY := Entry(0, 0, false)

  function Zeros(n: nat): seq<Entry> {
    seq(n, _ => ZERO_ENTRY)
  }

  type L1Lines = s: seq<Entry> | |s| == 16 witness Zeros(16)
  type L2Lines = s: seq<Entry> | |s| == 64 witness Zeros(64)

  /** The three TLBs, as values. */
  datatype Tlbs = Tlbs(itlb: L1Lines, dtlb: L1Lines, l2: L2Lines)

  function Flushed(): Tlbs {
    Tlbs(Zeros(L1_LINES), Zeros(L1_LINES), Zeros(L2_LINES))
  }

  function LineCount(kind: Kind): nat {
    if kind.L2Tlb? then L2_LINES else L1_LINES
  }

  /** The line a page goes to. */
  function LineOf(kind: Kind, vpn: Vpn): nat {
    if kind.L2Tlb? then vpn % 64 else vpn % 16
  }

  /** What is left of the page number, in a uint32_t. */
  function TagOf(kind: Kind, vpn: Vpn): Word {
    (if kind.L2Tlb? then vpn / 64 else vpn / 16) % TWO_32
  }

  /** The tag as the bit field keeps it: 32 bits in L1, 30 bits in L2. */
  function StoredTag(kind: Kind, tag: Word): Word {
    if kind.L2Tlb? then tag % 0x4000_0000 else tag
  }

  function EntryFor(kind: Kind, vpn: Vpn, page: Bits20): Entry {
    Entry(StoredTag(kind, TagOf(kind, vpn)), page, true)
  }

  /** The translation a TLB gives for a page, if it has one. */
  function Lookup(kind: Kind, lines: seq<Entry>, vpn: Vpn): Option<Bits20>
    requires |lines| == LineCount(kind)
  {
    var e := lines[LineOf(kind, vpn)];
    if e.v && e.tag == TagOf(kind, vpn) then Some(e.page) else None
  }

  function Fill(kind: Kind, lines: seq<Entry>, vpn: Vpn, page: Bits20): (r: seq<Entry>)
    requires |lines| == LineCount(kind)
    ensures |r| == |lines|
  {
    lines[LineOf(kind, vpn) := EntryFor(kind, vpn, page)]
  }

  /** An entry written to a line, its tag cut to the tag field. */
  function Inserted(kind: Kind, lines: seq<Entry>, line: nat, entry: Entry): seq<Entry>
    requires |lines| == LineCount(kind) && line < LineCount(kind)
  {
    lines[line := entry.(tag := StoredTag(kind, entry.tag))]
  }

  /** What a miss on `vpn` does to the L1 TLB it was not looked up in: the two low tag
      bits of the line are compared with the two high bits of the L2 line. */
  function Invalidate(lines: L1Lines, vpn: Vpn): L1Lines {
    var i := vpn % 16;
    if lines[i].tag % 4 == (vpn % 64) / 16 then lines[i := lines[i].(v := false)] else lines
  }

  function L1Kind(access: Access): Kind {
    if access.Instruction? then L1Itlb else L1Dtlb
  }

  function Other(access: Access): Access {
    if access.Instruction? then Data else Instruction
  }

  function L1Of(s: Tlbs, access: Access): L1Lines {
    if access.Instruction? then s.itlb else s.dtlb
  }

  /** Both L1 TLBs, the one for `access` first. */
  function WithL1s(access: Access, own: L1Lines, other: L1Lines, l2: L2Lines): Tlbs {
    if access.Instruction? then Tlbs(own, other, l2) else Tlbs(other, own, l2)
  }

  datatype Outcome = Outcome(state: Tlbs, paddr: PhyAddr, hit: bool)

  /** tlb_search */
  function Search(mem: Memory, s: Tlbs, access: Access, va: VirtAddr): Outcome {
    var vpn := PageNumber(va);
    var own := L1Of(s, access);
    var other := L1Of(s, Other(access));
    match Lookup(L1Kind(access), own, vpn)
    case Some(page) => Outcome(s, PhyAddr(page, va.offset), true)
    case None =>
      match Lookup(L2Tlb, s.l2, vpn)
      case Some(page) =>
        Outcome(WithL1s(access, Fill(L1Kind(access), own, vpn, page), other, s.l2), PhyAddr(page, va.offset), true)
      case None =>
        var paddr := PageWalk(mem, va);
        Outcome(WithL1s(access, Fill(L1Kind(access), own, vpn, paddr.page), Invalidate(other, vpn),
                        Fill(L2Tlb, s.l2, vpn, paddr.page)),
                paddr, false)
  }

  // ------------------------------------------------------------------ the C functions

  /** tlb_flush: memset to zero. */
  method TlbFlush(tlb: array<Entry>, kind: Kind)
    requires tlb.Length == LineCount(kind)
    modifies tlb
    ensures tlb[..] == Zeros(LineCount(kind))
    ensures forall i :: 0 <= i < tlb.Length ==> tlb[i] == Entry(0, 0, false)
  {
    for i := 0 to tlb.Length
      invariant forall k :: 0 <= k < i ==> tlb[k] == ZERO_ENTRY
    {
      tlb[i] := ZERO_ENTRY;
    }
  }

  /** tlb_entry_init. Inserted at the line of its page into any TLB, the entry answers for
      that page. */
  method TlbEntryInit(va: VirtAddr, paddr: PhyAddr, kind: Kind) returns (entry: Entry)
    ensures entry == EntryFor(kind, PageNumber(va), paddr.page)
    ensures entry == Entry(PageNumber(va) / (if kind.L2Tlb? then 64 else 16), paddr.page, true)
    ensures forall lines :: |lines| == LineCount(kind) ==>
              var inserted := Inserted(kind, lines, LineOf(kind, PageNumber(va)), entry);
              Lookup(kind, inserted, PageNumber(va)) == Some(paddr.page)
  {
    var vpn := PageNumber(va);
    var tag: nat;
    match kind {
      case L1Itlb => tag := vpn / 16;
      case L1Dtlb => tag := vpn / 16;
      case L2Tlb => tag := vpn / 64;
    }
    entry := Entry(tag, paddr.page, true);
    TagWidth(vpn);
    assert entry == EntryFor(kind, vpn, paddr.page);
    EntryIsFound(kind, vpn, paddr.page);
  }

  /** tlb_insert */
  method TlbInsert(line: nat, entry: Entry, tlb: array<Entry>, kind: Kind) returns (ok: bool)
    requires tlb.Length == LineCount(kind)
    modifies tlb
    ensures ok <==> line < if kind.L2Tlb? then 64 else 16
    ensures tlb[..] == if ok then Inserted(kind, old(tlb[..]), line, entry) else old(tlb[..])
    ensures ok ==> tlb[line] == if kind.L2Tlb? then entry.(tag := entry.tag % 0x4000_0000) else entry
    ensures forall i :: 0 <= i < tlb.Length && i != line ==> tlb[i] == old(tlb[i])
  {
    ok := line < LineCount(kind);
    if ok {
      tlb[line] := Entry(StoredTag(kind, entry.tag), entry.page, entry.v);
    }
  }

  /** tlb_hit. `before` is what *paddr held; a miss leaves it there. */
  method TlbHit(va: VirtAddr, before: PhyAddr, tlb: array<Entry>, kind: Kind) returns (hit: bool, paddr: PhyAddr)
    requires tlb.Length == LineCount(kind)
    ensures hit <==> Lookup(kind, tlb[..], PageNumber(va)).Some?
    ensures var v, n := PageNumber(va), if kind.L2Tlb? then 64 else 16;
            hit <==> tlb[v % n] == Entry(v / n, tlb[v % n].page, true)
    ensures paddr == if hit then PhyAddr(Lookup(kind, tlb[..], PageNumber(va)).value, va.offset) else before
  {
    paddr := before;
    hit := false;
    var vpn := PageNumber(va);
    var line := LineOf(kind, vpn);
    var tag := TagOf(kind, vpn);
    TagWidth(vpn);
    if tlb[line].v && tlb[line].tag == tag {
      paddr := PhyAddr(tlb[line].page, va.offset);
      hit := true;
    }
  }

  /** The three arrays, read as one value. */
  ghost function State(itlb: array<Entry>, dtlb: array<Entry>, l2: array<Entry>): Tlbs
    requires itlb.Length == dtlb.Length == L1_LINES && l2.Length == L2_LINES
    reads itlb, dtlb, l2
  {
    Tlbs(itlb[..], dtlb[..], l2[..])
  }

  /** tlb_search, in place on the three TLBs. */
  method TlbSearch(mem: Memory, va: VirtAddr, before: PhyAddr, access: Access,
                   itlb: array<Entry>, dtlb: array<Entry>, l2: array<Entry>)
    returns (paddr: PhyAddr, hit: bool)
    requires itlb.Length == dtlb.Length == L1_LINES && l2.Length == L2_LINES
    requires itlb != dtlb
    modifies itlb, dtlb, l2
    ensures Outcome(State(itlb, dtlb, l2), paddr, hit) == Search(mem, old(State(itlb, dtlb, l2)), access, va)
    // The same on the arrays. It hits if the page is in its own L1 or in L2, and afterwards
    // its own L1 has the translation.
    ensures var v := PageNumber(va);
            var own := if access.Instruction? then itlb else dtlb;
            && (hit <==> || old(own[v % 16]) == Entry(v / 16, old(own[v % 16]).page, true)
                         || old(l2[v % 64]) == Entry(v / 64, old(l2[v % 64]).page, true))
            && own[..] == old(own[..])[v % 16 := Entry(v / 16, paddr.page, true)] && paddr.offset == va.offset
    // A hit takes the translation from there, and changes nothing else.
    ensures var v := PageNumber(va);
            var own, other := if access.Instruction? then itlb else dtlb, if access.Instruction? then dtlb else itlb;
            hit ==> && (own[..] == old(own[..]) || old(l2[v % 64]) == Entry(v / 64, paddr.page, true))
                    && other[..] == old(other[..]) && l2[..] == old(l2[..])
    // A miss takes it from the walk and puts it in L2 too, and invalidates the line of the
    // other L1 if its page had the same L2 line.
    ensures var v := PageNumber(va);
            var other := if access.Instruction? then dtlb else itlb;
            var line := old(other[v % 16]);
            !hit ==> && paddr == PageWalk(mem, va)
                     && l2[..] == old(l2[..])[v % 64 := Entry(v / 64, paddr.page, true)]
                     && other[..] == old(other[..])[v % 16 := line.(v := line.v && line.tag % 4 != v / 16 % 4)]
  {
    ghost var s := State(itlb, dtlb, l2);
    SearchOnLines(mem, s, access, va);
    var own, kind := dtlb, L1Dtlb;
    if access.Instruction? {
      own, kind := itlb, L1Itlb;
    }
    hit, paddr := TlbHit(va, before, own, kind);
    if hit {
      return;
    }

    var vpn := PageNumber(va);
    TagWidth(vpn);
    var index1 := vpn % L1_LINES;
    var tag1 := vpn / 16;
    var ok;
    hit, paddr := TlbHit(va, paddr, l2, L2Tlb);
    if hit {
      ok := TlbInsert(index1, Entry(tag1, paddr.page, true), own, kind);
      assert own[..] == Fill(kind, L1Of(s, access), vpn, paddr.page);
      return;
    }

    paddr := PageWalk(mem, va);
    var tag2 := vpn / 64;
    var index2 := vpn % L2_LINES;
    ok := TlbInsert(index2, Entry(tag2, paddr.page, true), l2, L2Tlb);
    assert l2[..] == Fill(L2Tlb, s.l2, vpn, paddr.page);

    var highBits := index2 / 16;
    ok := TlbInsert(index1, Entry(tag1, paddr.page, true), own, kind);
    assert own[..] == Fill(kind, L1Of(s, access), vpn, paddr.page);
    if access.Instruction? {
      if dtlb[index1].tag % 4 == highBits {
        dtlb[index1] := dtlb[index1].(v := false);
      }
      assert dtlb[..] == Invalidate(s.dtlb, vpn);
    } else {
      if itlb[index1].tag % 4 == highBits {
        itlb[index1] := itlb[index1].(v := false);
      }
      assert itlb[..] == Invalidate(s.itlb, vpn);
    }
  }

  // --------------------------------------------------------- lines seen through Lookup

  /** Line and tag together determine the page, and no tag overflows its field. */
  lemma LineAndTagDeterminePage(kind: Kind, v: Vpn, w: Vpn)
    ensures LineOf(kind, v) == LineOf(kind, w) && TagOf(kind, v) == TagOf(kind, w) ==> v == w
    ensures StoredTag(kind, TagOf(kind, v)) == TagOf(kind, v)
  {
    if kind.L2Tlb? {
      TagWidth(v);
      TagWidth(w);
      assert v == v / 64 * 64 + v % 64 && w == w / 64 * 64 + w % 64;
    } else {
      TagWidth(v);
      TagWidth(w);
      assert v == v / 16 * 16 + v % 16 && w == w / 16 * 16 + w % 16;
    }
  }

  /** A page number of 36 bits leaves 32 tag bits in L1 and 30 in L2. */
  lemma TagWidth(v: Vpn)
    ensures v / 16 < TWO_32 && (v / 16) % TWO_32 == v / 16
    ensures v / 64 < 0x4000_0000 && (v / 64) % TWO_32 == v / 64 && (v / 64) % 0x4000_0000 == v / 64
  {
  }

  /** Filling a line makes its page known and forgets every other page of the line. */
  lemma LookupAfterFill(kind: Kind, lines: seq<Entry>, v: Vpn, page: Bits20, w: Vpn)
    requires |lines| == LineCount(kind)
    ensures Lookup(kind, Fill(kind, lines, v, page), w)
         == if w == v then Some(page) else if LineOf(kind, w) == LineOf(kind, v) then None else Lookup(kind, lines, w)
  {
    LineAndTagDeterminePage(kind, v, w);
  }

  /** One search, line by line. */
  lemma SearchOnLines(mem: Memory, s: Tlbs, access: Access, va: VirtAddr)
    ensures var v, o := PageNumber(va), Search(mem, s, access, va);
            var own, own' := if access.Instruction? then s.itlb else s.dtlb,
                             if access.Instruction? then o.state.itlb else o.state.dtlb;
            var other, other' := if access.Instruction? then s.dtlb else s.itlb,
                                 if access.Instruction? then o.state.dtlb else o.state.itlb;
            var line := other[v % 16];
            && (o.hit <==> || own[v % 16] == Entry(v / 16, own[v % 16].page, true)
                           || s.l2[v % 64] == Entry(v / 64, s.l2[v % 64].page, true))
            && own' == own[v % 16 := Entry(v / 16, o.paddr.page, true)] && o.paddr.offset == va.offset
            && (o.hit ==> && (own' == own || s.l2[v % 64] == Entry(v / 64, o.paddr.page, true))
                          && other' == other && o.state.l2 == s.l2)
            && (!o.hit ==> && o.paddr == PageWalk(mem, va)
                           && o.state.l2 == s.l2[v % 64 := Entry(v / 64, o.paddr.page, true)]
                           && other' == other[v % 16 := line.(v := line.v && line.tag % 4 != v / 16 % 4)])
  {
    var v := PageNumber(va);
    TagWidth(v);
    L2LineBits(v);
  }

  /** A TLB translates a page by one line: the page number modulo the lines, and the rest as
      its tag. */
  lemma LookupOnLine(kind: Kind, lines: seq<Entry>, v: Vpn, page: Bits20)
    requires |lines| == LineCount(kind)
    ensures Lookup(kind, lines, v) == Some(page)
       <==> var n := if kind.L2Tlb? then 64 else 16; |lines| == n && lines[v % n] == Entry(v / n, page, true)
  {
    TagWidth(v);
  }

  /** The two-bit comparison drops exactly the pages that share an L2 line with `v`. */
  lemma LookupAfterInvalidate(kind: Kind, lines: L1Lines, v: Vpn, w: Vpn)
    requires !kind.L2Tlb?
    ensures Lookup(kind, Invalidate(lines, v), w) == if w % 64 == v % 64 then None else Lookup(kind, lines, w)
  {
    TagWidth(w);
    L2LineBits(v);
    L2LineBits(w);
  }

  /** The L2 line is the two low bits of the L1 tag, then the L1 line. */
  lemma L2LineBits(v: Vpn)
    ensures v % 64 == v / 16 % 4 * 16 + v % 16
    ensures v % 64 / 16 == v / 16 % 4 && v % 64 % 16 == v % 16
  {
    var high := v / 16 % 4;
    Quotient(v, 64, v / 16 / 4, high * 16 + v % 16);
    Quotient(v % 64, 16, high, v % 16);
  }

  /** An entry made for a page and inserted at that page's line is found there. */
  lemma EntryIsFound(kind: Kind, v: Vpn, page: Bits20)
    ensures forall lines :: |lines| == LineCount(kind) ==>
              Lookup(kind, Inserted(kind, lines, LineOf(kind, v), EntryFor(kind, v, page)), v) == Some(page)
  {
    LineAndTagDeterminePage(kind, v, v);
  }

  // ---------------------------------------------------------------------- invariants

  /** Whatever an L1 TLB translates, L2 translates to the same page. */
  ghost predicate Inclusive(s: Tlbs) {
    forall a: Access, v: Vpn :: Lookup(L1Kind(a), L1Of(s, a), v).Some? ==>
      Lookup(L2Tlb, s.l2, v) == Lookup(L1Kind(a), L1Of(s, a), v)
  }

  /** What L2 translates, it translates as the page walk does. */
  ghost predicate Sound(mem: Memory, s: Tlbs) {
    forall v: Vpn :: Lookup(L2Tlb, s.l2, v).Some? ==> Lookup(L2Tlb, s.l2, v) == Some(Translate(mem, v))
  }

  ghost predicate Inv(mem: Memory, s: Tlbs) {
    Inclusive(s) && Sound(mem, s)
  }

  predicate SameL1Line(v: Vpn, w: Vpn) {
    v % 16 == w % 16
  }

  predicate SameL2Line(v: Vpn, w: Vpn) {
    v % 64 == w % 64
  }

  lemma SameL2LineSameL1Line(v: Vpn, w: Vpn)
    ensures SameL2Line(v, w) ==> SameL1Line(v, w)
  {
    L2LineBits(v);
    L2LineBits(w);
  }

  /** What a search for page `v` changes, seen at the page `w`: `v` is known to L2 and to
      its own L1; each of these forgets what shared its line; the other L1 forgets what
      lost its L2 line. */
  ghost predicate Follows(mem: Memory, s: Tlbs, access: Access, v: Vpn, s': Tlbs, w: Vpn) {
    && Lookup(L2Tlb, s'.l2, w)
       == (if w == v then Some(Translate(mem, v)) else if SameL2Line(v, w) then None else Lookup(L2Tlb, s.l2, w))
    && Lookup(L1Kind(access), L1Of(s', access), w)
       == (if w == v then Some(Translate(mem, v)) else if SameL1Line(v, w) then None
           else Lookup(L1Kind(access), L1Of(s, access), w))
    && Lookup(L1Kind(Other(access)), L1Of(s', Other(access)), w)
       == (if SameL2Line(v, w) && w != v then None else Lookup(L1Kind(Other(access)), L1Of(s, Other(access)), w))
  }

  /** Everything one search does, whichever of the three paths it takes. */
  lemma SearchLaw(mem: Memory, s: Tlbs, access: Access, va: VirtAddr, w: Vpn)
    requires Inv(mem, s)
    ensures var v := PageNumber(va);
            var o := Search(mem, s, access, va);
            && o.paddr == PageWalk(mem, va)
            && o.hit == Lookup(L2Tlb, s.l2, v).Some?
            && Follows(mem, s, access, v, o.state, w)
  {
    var v := PageNumber(va);
    WalkByPageNumber(mem, va);
    var own, other := L1Of(s, access), L1Of(s, Other(access));
    var kind := L1Kind(access);
    LineAndTagDeterminePage(L2Tlb, v, w);
    LineAndTagDeterminePage(kind, v, w);
    if Lookup(L2Tlb, s.l2, v).Some? {
      var page := Lookup(L2Tlb, s.l2, v).value;
      LookupAfterFill(kind, own, v, page, w);
      assert SameL2Line(v, w) && w != v ==> Lookup(L2Tlb, s.l2, w) == None;
    } else {
      var page := PageWalk(mem, va).page;
      LookupAfterFill(kind, own, v, page, w);
      LookupAfterFill(L2Tlb, s.l2, v, page, w);
      LookupAfterInvalidate(L1Kind(Other(access)), other, v, w);
      assert Lookup(kind, own, v) == None && Lookup(L1Kind(Other(access)), other, v) == None;
    }
  }

  lemma FlushedInv(mem: Memory)
    ensures Inv(mem, Flushed())
    ensures forall v: Vpn :: Lookup(L2Tlb, Flushed().l2, v) == None
    ensures forall a: Access, v: Vpn :: Lookup(L1Kind(a), L1Of(Flushed(), a), v) == None
  {
  }

  lemma LawKeepsInclusion(mem: Memory, s: Tlbs, access: Access, v: Vpn, s': Tlbs, a: Access, w: Vpn)
    requires Inv(mem, s)
    requires Follows(mem, s, access, v, s', w)
    ensures Lookup(L1Kind(a), L1Of(s', a), w).Some? ==>
              Lookup(L2Tlb, s'.l2, w) == Lookup(L1Kind(a), L1Of(s', a), w)
  {
    assert a == access || a == Other(access);
    if Lookup(L1Kind(a), L1Of(s', a), w).Some? && w != v {
      assert Lookup(L1Kind(a), L1Of(s, a), w).Some?;
      SameL2LineSameL1Line(v, w);
      assert !SameL2Line(v, w);
    } else if w == v && a != access {
      assert Lookup(L1Kind(a), L1Of(s, a), w) == Lookup(L1Kind(a), L1Of(s', a), w);
    }
  }

  /** Every search keeps inclusion and soundness. */
  lemma SearchKeepsInv(mem: Memory, s: Tlbs, access: Access, va: VirtAddr)
    requires Inv(mem, s)
    ensures Inv(mem, Search(mem, s, access, va).state)
  {
    var s' := Search(mem, s, access, va).state;
    forall w: Vpn
      ensures Lookup(L2Tlb, s'.l2, w).Some? ==> Lookup(L2Tlb, s'.l2, w) == Some(Translate(mem, w))
    {
      SearchLaw(mem, s, access, va, w);
    }
    forall a: Access, w: Vpn
      ensures Lookup(L1Kind(a), L1Of(s', a), w).Some? ==>
                Lookup(L2Tlb, s'.l2, w) == Lookup(L1Kind(a), L1Of(s', a), w)
    {
      SearchLaw(mem, s, access, va, w);
      LawKeepsInclusion(mem, s, access, PageNumber(va), s', a, w);
    }
  }

  /** Inclusion line by line: a valid L1 line is backed by the L2 line whose index is its
      two low tag bits followed by its own index, and whose tag is the rest. */
  lemma InclusionByLine(mem: Memory, s: Tlbs, a: Access, i: nat)
    requires Inv(mem, s)
    requires i < L1_LINES && L1Of(s, a)[i].v
    ensures var e := L1Of(s, a)[i];
            s.l2[e.tag % 4 * 16 + i] == Entry(e.tag / 4, e.page, true)
  {
    var e := L1Of(s, a)[i];
    var v: Vpn := e.tag * 16 + i;
    assert v / 16 == e.tag && v % 16 == i;
    TagWidth(v);
    assert Lookup(L1Kind(a), L1Of(s, a), v) == Some(e.page);
    assert v / 64 == e.tag / 4 && v % 64 == e.tag % 4 * 16 + i;
    assert Lookup(L2Tlb, s.l2, v) == Some(e.page);
  }
}
