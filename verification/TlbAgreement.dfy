/** The two TLB designs against each other: whatever each was used for before, they give
    the same physical address. */
module TlbAgreement {
  import opened Addresses
  import opened PageWalks
  import H = TlbHierarchy
  import HRuns = TlbHierarchyRuns
  import A = AssocTlb
  import ARuns = AssocTlbRuns
  import LruStack

  /** On one memory, after any two runs, a search in the hierarchy and a search in the
      associative TLB agree with each other and with the page walk. */
  lemma DesignsAgree(mem: Memory, t: HRuns.Trace, r: HRuns.Request, n: nat, u: ARuns.Trace)
    requires n > 0
    ensures H.Search(mem, HRuns.Run(mem, t), r.access, r.va).paddr
         == A.Search(mem, ARuns.Run(mem, n, u), r.va).paddr
         == PageWalk(mem, r.va)
  {
    HRuns.Transparent(mem, t, r);
    ARuns.Transparent(mem, n, u, r.va);
  }

  /** Addresses of one page give one physical page, in either design, at any two moments. */
  lemma SamePageSameAnswer(mem: Memory, t: HRuns.Trace, r: HRuns.Request, n: nat, u: ARuns.Trace, va: VirtAddr)
    requires n > 0 && PageNumber(r.va) == PageNumber(va)
    ensures H.Search(mem, HRuns.Run(mem, t), r.access, r.va).paddr.page
         == A.Search(mem, ARuns.Run(mem, n, u), va).paddr.page
  {
    DesignsAgree(mem, t, r, n, u);
    ARuns.Transparent(mem, n, u, va);
    SamePageSameWalk(mem, r.va, va);
  }

  /** As long as a trace uses no more distinct pages than the associative TLB has lines,
      that TLB hits wherever the hierarchy hits: it has no conflict misses. */
  lemma AssocHitsWithinCapacity(mem: Memory, t: HRuns.Trace, r: HRuns.Request, n: nat)
    requires n > 0
    requires |LruStack.Distinct(ARuns.PageTrace(HRuns.AddressesOf(t)))| <= n
    ensures HRuns.HitAfter(mem, t, r) ==> ARuns.HitAfter(mem, n, HRuns.AddressesOf(t), r.va)
  {
    if HRuns.HitAfter(mem, t, r) {
      HRuns.HitExactly(mem, t, r);
      AccessedBefore(t, HRuns.Page(r));
      var pages := ARuns.PageTrace(HRuns.AddressesOf(t));
      ARuns.HitOnHeld(mem, n, HRuns.AddressesOf(t), r.va);
      LruStack.WithinCapacity(pages, HRuns.Page(r), n);
    }
  }

  lemma AccessedBefore(t: HRuns.Trace, v: Vpn)
    requires HRuns.MostRecentOnLine(t, v)
    ensures v in ARuns.PageTrace(HRuns.AddressesOf(t))
  {
    var k: nat :| HRuns.LastOnLine(t, v, k) && HRuns.Page(t[k]) == v;
    assert ARuns.PageTrace(HRuns.AddressesOf(t))[k] == v;
  }
}
