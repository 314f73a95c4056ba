/** Whole runs of the two-level TLB hierarchy: from flushed TLBs, which accesses hit and
    what each TLB holds, in terms of the trace of requests alone. */
module TlbHierarchyRuns {
  import opened Options
  import opened Addresses
  import opened MemAccess
  import opened PageWalks
  import opened TlbHierarchy
  import opened Sequences

  datatype Request = Request(access: Access, va: VirtAddr)

  type Trace = seq<Request>

  function Page(r: Request): Vpn {
    PageNumber(r.va)
  }

  /** The addresses of a trace of requests. */
  function AddressesOf(t: Trace): seq<VirtAddr> {
    seq(|t|, i requires 0 <= i < |t| => t[i].va)
  }

  /** The TLBs after a trace of searches. */
  function Run(mem: Memory, t: Trace): Tlbs {
    if t == [] then Flushed()
    else Search(mem, Run(mem, Init(t)), Last(t).access, Last(t).va).state
  }

  /** Does a request hit when it comes after the trace `t`? */
  function HitAfter(mem: Memory, t: Trace, r: Request): bool {
    Search(mem, Run(mem, t), r.access, r.va).hit
  }

  // -------------------------------------------------------- what the trace alone says

  /** Request `k` is the last one that went to the L2 line of page `w`. */
  ghost predicate LastOnLine(t: Trace, w: Vpn, k: nat) {
    && k < |t| && SameL2Line(Page(t[k]), w)
    && forall m :: k < m < |t| ==> !SameL2Line(Page(t[m]), w)
  }

  /** The last request of either kind with this page number modulo 64 was for `w` itself. */
  ghost predicate MostRecentOnLine(t: Trace, w: Vpn) {
    exists k: nat :: LastOnLine(t, w, k) && Page(t[k]) == w
  }

  /** A request that leaves page `w` in the L1 TLB of kind `a`: it does not want its L1
      line, and it does not want its L2 line either, unless it is for `w`. */
  predicate Spares(r: Request, a: Access, w: Vpn) {
    && (r.access == a ==> !SameL1Line(Page(r), w))
    && (SameL2Line(Page(r), w) ==> Page(r) == w)
  }

  /** Request `k` brought page `w` to the L1 TLB of kind `a`, and it was spared since. */
  ghost predicate HeldSince(t: Trace, a: Access, w: Vpn, k: nat) {
    && k < |t| && t[k].access == a && Page(t[k]) == w
    && forall m :: k < m < |t| ==> Spares(t[m], a, w)
  }

  ghost predicate HeldByL1(t: Trace, a: Access, w: Vpn) {
    exists k: nat :: HeldSince(t, a, w, k)
  }

  lemma MostRecentOnLineStep(t: Trace, w: Vpn)
    requires t != []
    ensures MostRecentOnLine(t, w) <==>
            (if SameL2Line(Page(Last(t)), w) then Page(Last(t)) == w else MostRecentOnLine(Init(t), w))
  {
    if MostRecentOnLine(t, w) {
      var k: nat :| LastOnLine(t, w, k) && Page(t[k]) == w;
      assert k < |t| - 1 ==> LastOnLine(Init(t), w, k);
    }
    if Page(Last(t)) == w {
      assert LastOnLine(t, w, |t| - 1);
    } else if !SameL2Line(Page(Last(t)), w) && MostRecentOnLine(Init(t), w) {
      var k: nat :| LastOnLine(Init(t), w, k) && Page(Init(t)[k]) == w;
      assert LastOnLine(t, w, k);
    }
  }

  lemma HeldByL1Step(t: Trace, a: Access, w: Vpn)
    requires t != []
    ensures HeldByL1(t, a, w) <==>
            (Last(t).access == a && Page(Last(t)) == w) || (HeldByL1(Init(t), a, w) && Spares(Last(t), a, w))
  {
    if HeldByL1(t, a, w) {
      var k: nat :| HeldSince(t, a, w, k);
      assert k < |t| - 1 ==> HeldSince(Init(t), a, w, k) && Spares(t[|t| - 1], a, w);
    }
    if Last(t).access == a && Page(Last(t)) == w {
      assert HeldSince(t, a, w, |t| - 1);
    } else if HeldByL1(Init(t), a, w) && Spares(Last(t), a, w) {
      var k: nat :| HeldSince(Init(t), a, w, k);
      assert HeldSince(t, a, w, k);
    }
  }

  // --------------------------------------------------------------------- main results

  lemma {:induction false} ReachableInv(mem: Memory, t: Trace)
    ensures Inv(mem, Run(mem, t))
  {
    if t == [] {
      FlushedInv(mem);
    } else {
      ReachableInv(mem, Init(t));
      SearchKeepsInv(mem, Run(mem, Init(t)), Last(t).access, Last(t).va);
    }
  }

  /** The last search of a run, seen at the page `w`. */
  lemma RunLaw(mem: Memory, t: Trace, w: Vpn)
    requires t != []
    ensures Follows(mem, Run(mem, Init(t)), Last(t).access, Page(Last(t)), Run(mem, t), w)
  {
    ReachableInv(mem, Init(t));
    SearchLaw(mem, Run(mem, Init(t)), Last(t).access, Last(t).va, w);
  }

  /** The effect of a search on either L1 TLB, in one formula. */
  lemma L1Law(mem: Memory, s: Tlbs, r: Request, s': Tlbs, a: Access, w: Vpn)
    requires Follows(mem, s, r.access, Page(r), s', w)
    ensures Lookup(L1Kind(a), L1Of(s', a), w)
         == if r.access == a && Page(r) == w then Some(Translate(mem, w))
            else if !Spares(r, a, w) then None
            else Lookup(L1Kind(a), L1Of(s, a), w)
  {
    SameL2LineSameL1Line(Page(r), w);
    assert a == r.access || a == Other(r.access);
  }

  /** What L2 holds after a run, page by page: `w` is held exactly when the last request
      on its line was for `w`, and then with the translation of the page walk. */
  lemma {:induction false} L2Contents(mem: Memory, t: Trace, w: Vpn)
    ensures Lookup(L2Tlb, Run(mem, t).l2, w) == if MostRecentOnLine(t, w) then Some(Translate(mem, w)) else None
  {
    if t == [] {
      FlushedInv(mem);
    } else {
      L2Contents(mem, Init(t), w);
      MostRecentOnLineStep(t, w);
      RunLaw(mem, t, w);
    }
  }

  /** What each L1 TLB holds after a run: `w` exactly when it is the last page of that
      kind on its L1 line and no other page has since taken its L2 line. */
  lemma {:induction false} L1Contents(mem: Memory, t: Trace, a: Access, w: Vpn)
    ensures Lookup(L1Kind(a), L1Of(Run(mem, t), a), w)
         == if HeldByL1(t, a, w) then Some(Translate(mem, w)) else None
  {
    if t == [] {
      FlushedInv(mem);
    } else {
      L1Contents(mem, Init(t), a, w);
      HeldByL1Step(t, a, w);
      RunLaw(mem, t, w);
      L1Law(mem, Run(mem, Init(t)), Last(t), Run(mem, t), a, w);
    }
  }

  /** A request hits exactly when the last request of either kind with the same page
      number modulo 64 was for the same page. */
  lemma HitExactly(mem: Memory, t: Trace, r: Request)
    ensures HitAfter(mem, t, r) <==> MostRecentOnLine(t, Page(r))
  {
    ReachableInv(mem, t);
    L2Contents(mem, t, Page(r));
    SearchLaw(mem, Run(mem, t), r.access, r.va, Page(r));
  }

  /** Every search returns the address of the page walk, from whichever level. */
  lemma Transparent(mem: Memory, t: Trace, r: Request)
    ensures Search(mem, Run(mem, t), r.access, r.va).paddr == PageWalk(mem, r.va)
  {
    ReachableInv(mem, t);
    SearchLaw(mem, Run(mem, t), r.access, r.va, Page(r));
  }

  // -------------------------------------------------------- the hierarchy as one table

  /** A search in a lone direct-mapped TLB of 64 lines, with no L1 in front. */
  function LoneSearch(mem: Memory, lines: L2Lines, va: VirtAddr): (L2Lines, bool) {
    if Lookup(L2Tlb, lines, PageNumber(va)).Some? then (lines, true)
    else (Fill(L2Tlb, lines, PageNumber(va), PageWalk(mem, va).page), false)
  }

  function LoneRun(mem: Memory, t: Trace): L2Lines {
    if t == [] then Flushed().l2 else LoneSearch(mem, LoneRun(mem, Init(t)), Last(t).va).0
  }

  /** The L1 TLBs never change what L2 holds, line for line, nor what hits: the hierarchy
      behaves as its L2 alone, in spite of the L1 hits that L2 does not see. */
  lemma {:induction false} HierarchyIsLoneTlb(mem: Memory, t: Trace, r: Request)
    ensures Run(mem, t).l2 == LoneRun(mem, t)
    ensures HitAfter(mem, t, r) == LoneSearch(mem, LoneRun(mem, t), r.va).1
  {
    if t != [] {
      HierarchyIsLoneTlb(mem, Init(t), Last(t));
    }
    ReachableInv(mem, t);
    SearchLaw(mem, Run(mem, t), r.access, r.va, Page(r));
  }

  // ------------------------------------------------------------------------ the driver

  lemma NextSearch(mem: Memory, t: Trace, i: nat)
    requires i < |t|
    ensures var o := Search(mem, Run(mem, t[..i]), t[i].access, t[i].va);
            && o.state == Run(mem, t[..i + 1])
            && o.paddr == PageWalk(mem, t[i].va)
            && (o.hit <==> MostRecentOnLine(t[..i], Page(t[i])))
  {
    Transparent(mem, t[..i], t[i]);
    HitExactly(mem, t[..i], t[i]);
    assert Init(t[..i + 1]) == t[..i];
  }

  /** The hits and misses of a whole run. */
  ghost function HitTrace(t: Trace): (hits: seq<bool>)
    ensures |hits| == |t|
  {
    if t == [] then [] else HitTrace(Init(t)) + [MostRecentOnLine(Init(t), Page(Last(t)))]
  }

  lemma {:induction false} HitTraceAt(t: Trace, i: nat)
    requires i < |t|
    ensures HitTrace(t)[i] <==> MostRecentOnLine(t[..i], Page(t[i]))
  {
    if i < |t| - 1 {
      HitTraceAt(Init(t), i);
      assert Init(t)[..i] == t[..i];
    }
  }

  lemma HitTraceExtends(t: Trace, i: nat)
    requires i < |t|
    ensures HitTrace(t[..i + 1]) == HitTrace(t[..i]) + [MostRecentOnLine(t[..i], Page(t[i]))]
  {
    assert Init(t[..i + 1]) == t[..i];
  }

  /** One turn of the driver's loop. What each array then holds follows from the requests
      made so far. */
  method DriveLine(mem: Memory, t: Trace, i: nat, before: PhyAddr,
                   itlb: array<Entry>, dtlb: array<Entry>, l2: array<Entry>)
    returns (paddr: PhyAddr, hit: bool)
    requires i < |t|
    requires itlb.Length == dtlb.Length == L1_LINES && l2.Length == L2_LINES && itlb != dtlb
    requires State(itlb, dtlb, l2) == Run(mem, t[..i])
    modifies itlb, dtlb, l2
    ensures State(itlb, dtlb, l2) == Run(mem, t[..i + 1])
    ensures paddr == PageWalk(mem, t[i].va)
    ensures hit <==> MostRecentOnLine(t[..i], Page(t[i]))
    ensures forall w: Vpn ::
              && Lookup(L1Itlb, itlb[..], w)
                 == (if HeldByL1(t[..i + 1], Instruction, w) then Some(Translate(mem, w)) else None)
              && Lookup(L1Dtlb, dtlb[..], w)
                 == (if HeldByL1(t[..i + 1], Data, w) then Some(Translate(mem, w)) else None)
              && Lookup(L2Tlb, l2[..], w)
                 == (if MostRecentOnLine(t[..i + 1], w) then Some(Translate(mem, w)) else None)
  {
    paddr, hit := TlbSearch(mem, t[i].va, before, t[i].access, itlb, dtlb, l2);
    NextSearch(mem, t, i);
    Contents(mem, t[..i + 1]);
  }

  /** What each of the three TLBs holds after a run. */
  lemma Contents(mem: Memory, t: Trace)
    ensures var s := Run(mem, t);
            forall w: Vpn ::
              && Lookup(L1Itlb, s.itlb, w) == (if HeldByL1(t, Instruction, w) then Some(Translate(mem, w)) else None)
              && Lookup(L1Dtlb, s.dtlb, w) == (if HeldByL1(t, Data, w) then Some(Translate(mem, w)) else None)
              && Lookup(L2Tlb, s.l2, w) == (if MostRecentOnLine(t, w) then Some(Translate(mem, w)) else None)
  {
    forall w: Vpn
      ensures Lookup(L1Itlb, Run(mem, t).itlb, w)
           == if HeldByL1(t, Instruction, w) then Some(Translate(mem, w)) else None
      ensures Lookup(L1Dtlb, Run(mem, t).dtlb, w)
           == if HeldByL1(t, Data, w) then Some(Translate(mem, w)) else None
      ensures Lookup(L2Tlb, Run(mem, t).l2, w)
           == if MostRecentOnLine(t, w) then Some(Translate(mem, w)) else None
    {
      L1Contents(mem, t, Instruction, w);
      L1Contents(mem, t, Data, w);
      L2Contents(mem, t, w);
    }
  }

  /** The driver's three TLBs, flushed. */
  method FlushedTlbs() returns (itlb: array<Entry>, dtlb: array<Entry>, l2: array<Entry>)
    ensures fresh(itlb) && fresh(dtlb) && fresh(l2) && itlb != dtlb
    ensures itlb.Length == dtlb.Length == L1_LINES && l2.Length == L2_LINES
    ensures State(itlb, dtlb, l2) == Flushed()
    ensures forall i :: 0 <= i < 16 ==> itlb[i] == dtlb[i] == Entry(0, 0, false)
    ensures forall i :: 0 <= i < 64 ==> l2[i] == Entry(0, 0, false)
  {
    itlb, dtlb := new Entry[L1_LINES](_ => ZERO_ENTRY), new Entry[L1_LINES](_ => ZERO_ENTRY);
    l2 := new Entry[L2_LINES](_ => ZERO_ENTRY);
    TlbFlush(itlb, L1Itlb);
    TlbFlush(dtlb, L1Dtlb);
    TlbFlush(l2, L2Tlb);
  }

  /** The loop of the hierarchy's driver: flush, then search once per program line,
      reporting each physical address and whether it hit. */
  method Drive(mem: Memory, t: Trace) returns (paddrs: seq<PhyAddr>, hits: seq<bool>)
    ensures |paddrs| == |hits| == |t|
    ensures forall i :: 0 <= i < |t| ==> paddrs[i] == PageWalk(mem, t[i].va)
    ensures forall i :: 0 <= i < |t| ==> (hits[i] <==> MostRecentOnLine(t[..i], Page(t[i])))
  {
    var itlb, dtlb, l2 := FlushedTlbs();
    paddrs, hits := [], [];
    var paddr := PhyAddr(0, 0);
    for i := 0 to |t|
      invariant State(itlb, dtlb, l2) == Run(mem, t[..i])
      invariant Walked(mem, AddressesOf(t)[..i], paddrs)
      invariant hits == HitTrace(t[..i])
    {
      var hit;
      paddr, hit := DriveLine(mem, t, i, paddr, itlb, dtlb, l2);
      HitTraceExtends(t, i);
      WalkedExtends(mem, AddressesOf(t), i, paddrs);
      paddrs, hits := paddrs + [paddr], hits + [hit];
    }
    assert t[..|t|] == t && AddressesOf(t)[..|t|] == AddressesOf(t);
    forall i | 0 <= i < |t|
      ensures hits[i] <==> MostRecentOnLine(t[..i], Page(t[i]))
    {
      HitTraceAt(t, i);
    }
  }
}
