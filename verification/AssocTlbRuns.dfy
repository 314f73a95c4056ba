/** Whole runs of the fully-associative TLB, for any number of lines: it is the
    least-recently-used stack of the pages accessed. */
module AssocTlbRuns {
  import opened Addresses
  import opened PageWalks
  import opened LinkedList
  import opened LruStack
  import opened Sequences
  import opened AssocTlb
  import opened AssocTlbInvariant

  type Trace = seq<VirtAddr>

  /** The pages of a trace of addresses. */
  function PageTrace(t: Trace): seq<Vpn> {
    seq(|t|, i requires 0 <= i < |t| => PageNumber(t[i]))
  }

  lemma PageTraceConcat(t: Trace, u: Trace)
    ensures PageTrace(t + u) == PageTrace(t) + PageTrace(u)
  {
  }

  lemma PageTraceTake(t: Trace, i: nat)
    requires i <= |t|
    ensures PageTrace(t)[..i] == PageTrace(t[..i])
  {
  }

  /** The driver's initial state: every line number in the list, every line flushed. */
  function Start(n: nat): State {
    State(Numbers(n), seq(n, _ => ZERO_ENTRY))
  }

  /** The TLB of `n` lines after a trace of searches. */
  function Run(mem: Memory, n: nat, t: Trace): (s: State)
    requires n > 0
    ensures |s.order| == |s.lines| == n && InRange(s.order, n)
  {
    if t == [] then Start(n)
    else
      var s := Run(mem, n, Init(t));
      TouchInRange(s.order, n, Victim(s, PageNumber(Last(t))));
      TouchInRange(s.order, n, 0);
      Search(mem, s, Last(t)).state
  }

  lemma TouchInRange(order: seq<nat>, n: nat, i: nat)
    requires InRange(order, n) && i < |order|
    ensures |Touch(order, i)| == |order| && InRange(Touch(order, i), n)
  {
  }

  /** Does an access hit when it comes after the trace `t`? */
  function HitAfter(mem: Memory, n: nat, t: Trace, va: VirtAddr): bool
    requires n > 0
  {
    Search(mem, Run(mem, n, t), va).hit
  }

  /** The pages that the TLB holds after a trace, the most recently used first. */
  function PagesAfter(mem: Memory, n: nat, t: Trace): seq<Vpn>
    requires n > 0
  {
    Pages(Run(mem, n, t).order, Run(mem, n, t).lines)
  }

  // --------------------------------------------------------------------- main results

  lemma StartInv(mem: Memory, n: nat)
    requires n > 0
    ensures Inv(mem, Start(n)) && Pages(Start(n).order, Start(n).lines) == []
  {
    var s := Start(n);
    forall x: nat | x < n
      ensures x in s.order
    {
      assert s.order[x] == x;
    }
    NoPages(s.order, s.lines);
  }

  lemma {:induction false} NoPages(order: seq<nat>, lines: seq<Entry>)
    requires InRange(order, |lines|) && forall x :: 0 <= x < |lines| ==> !lines[x].v
    ensures Pages(order, lines) == []
  {
    if order != [] {
      NoPages(order[..|order| - 1], lines);
    }
  }

  lemma {:induction false} ReachableInv(mem: Memory, n: nat, t: Trace)
    requires n > 0
    ensures Inv(mem, Run(mem, n, t))
  {
    if t == [] {
      StartInv(mem, n);
    } else {
      ReachableInv(mem, n, Init(t));
      SearchKeepsInv(mem, Run(mem, n, Init(t)), Last(t));
    }
  }

  /** The last search of a run is an access to the stack before it. */
  lemma LastOnStack(mem: Memory, n: nat, t: Trace)
    requires n > 0 && t != []
    ensures PagesAfter(mem, n, t) == Access(PagesAfter(mem, n, Init(t)), PageNumber(Last(t)), n)
  {
    ReachableInv(mem, n, Init(t));
    SearchOnStack(mem, Run(mem, n, Init(t)), Last(t));
  }

  /** After any run, the list read from back to front over the valid lines gives the
      distinct pages accessed, the most recent first, cut to the number of lines. */
  lemma {:induction false} RunIsLru(mem: Memory, n: nat, t: Trace)
    requires n > 0
    ensures PagesAfter(mem, n, t) == Held(PageTrace(t), n)
  {
    if t == [] {
      StartInv(mem, n);
    } else {
      RunIsLru(mem, n, Init(t));
      LastOnStack(mem, n, t);
      AccessHeld(PageTrace(Init(t)), PageNumber(Last(t)), n);
      PageTraceTake(t, |t| - 1);
      assert PageTrace(t) == PageTrace(t)[..|t| - 1] + [PageNumber(Last(t))];
    }
  }

  lemma HitOnHeld(mem: Memory, n: nat, t: Trace, va: VirtAddr)
    requires n > 0
    ensures HitAfter(mem, n, t, va) <==> PageNumber(va) in Held(PageTrace(t), n)
  {
    ReachableInv(mem, n, t);
    SearchOnStack(mem, Run(mem, n, t), va);
    RunIsLru(mem, n, t);
  }

  /** The page was accessed before, and fewer than `n` distinct other pages since. */
  ghost predicate RecentlyUsed(pages: seq<Vpn>, v: Vpn, n: nat) {
    exists k: nat :: LastAccess(pages, v, k) && |Distinct(pages[k + 1..])| < n
  }

  /** An access hits exactly when its page was recently used. */
  lemma HitExactly(mem: Memory, n: nat, t: Trace, va: VirtAddr)
    requires n > 0
    ensures HitAfter(mem, n, t, va) <==> RecentlyUsed(PageTrace(t), PageNumber(va), n)
  {
    HitOnHeld(mem, n, t, va);
    HeldExactly(PageTrace(t), PageNumber(va), n);
  }

  /** Every search returns the address of the page walk, hit or miss. */
  lemma Transparent(mem: Memory, n: nat, t: Trace, va: VirtAddr)
    requires n > 0
    ensures Search(mem, Run(mem, n, t), va).paddr == PageWalk(mem, va)
  {
    ReachableInv(mem, n, t);
    SearchKeepsInv(mem, Run(mem, n, t), va);
  }

  /** More lines never hurt: what a smaller TLB holds, and what hits in it, a larger one
      holds and hits on the same trace. */
  lemma MoreLinesHoldMore(mem: Memory, n: nat, m: nat, t: Trace, va: VirtAddr)
    requires 0 < n <= m
    ensures PagesAfter(mem, n, t) <= PagesAfter(mem, m, t)
    ensures HitAfter(mem, n, t, va) ==> HitAfter(mem, m, t, va)
  {
    RunIsLru(mem, n, t);
    RunIsLru(mem, m, t);
    StackProperty(PageTrace(t), n, m);
    HitOnHeld(mem, n, t, va);
    HitOnHeld(mem, m, t, va);
  }

  /** The misses in the stretch `u` of a run, after the trace `t`. */
  function MissCount(mem: Memory, n: nat, t: Trace, u: Trace): nat
    requires n > 0
  {
    if u == [] then 0
    else MissCount(mem, n, t, Init(u)) + if HitAfter(mem, n, t + Init(u), Last(u)) then 0 else 1
  }

  lemma {:induction false} MissCountOnStack(mem: Memory, n: nat, t: Trace, u: Trace)
    requires n > 0
    ensures MissCount(mem, n, t, u) == Misses(PageTrace(t), PageTrace(u), n)
  {
    if u != [] {
      MissCountOnStack(mem, n, t, Init(u));
      HitOnHeld(mem, n, t + Init(u), Last(u));
      PageTraceConcat(t, Init(u));
      PageTraceTake(u, |u| - 1);
    }
  }

  /** No earlier run makes a stretch miss more than it does from the flushed TLB. */
  lemma WarmStartMissesLess(mem: Memory, n: nat, t: Trace, u: Trace)
    requires n > 0
    ensures MissCount(mem, n, t, u) <= MissCount(mem, n, [], u)
  {
    MissCountOnStack(mem, n, t, u);
    MissCountOnStack(mem, n, [], u);
    WarmMissesLess(PageTrace(t), PageTrace(u), n);
  }

  /** A stretch of at most `n` distinct pages, from any reachable state, misses at most
      once per page: later accesses to a page of the stretch hit. */
  lemma MissesPerStretch(mem: Memory, n: nat, t: Trace, u: Trace)
    requires n > 0 && |Distinct(PageTrace(u))| <= n
    ensures MissCount(mem, n, t, u) <= |Distinct(PageTrace(u))|
    ensures forall i, j :: 0 <= i < j < |u| && PageNumber(u[i]) == PageNumber(u[j]) ==>
              HitAfter(mem, n, t + u[..j], u[j])
  {
    MissCountOnStack(mem, n, t, u);
    MissBound(PageTrace(t), PageTrace(u), n);
    forall i, j | 0 <= i < j < |u| && PageNumber(u[i]) == PageNumber(u[j])
      ensures HitAfter(mem, n, t + u[..j], u[j])
    {
      LaterAccessHits(mem, n, t, u, i, j);
    }
  }

  lemma LaterAccessHits(mem: Memory, n: nat, t: Trace, u: Trace, i: nat, j: nat)
    requires n > 0 && |Distinct(PageTrace(u))| <= n
    requires i < j < |u| && PageNumber(u[i]) == PageNumber(u[j])
    ensures HitAfter(mem, n, t + u[..j], u[j])
  {
    var pages := PageTrace(u);
    assert pages[..j][i] == pages[j];
    RepeatHits(PageTrace(t), pages, j, n);
    PageTraceTake(u, j);
    PageTraceConcat(t, u[..j]);
    HitOnHeld(mem, n, t + u[..j], u[j]);
  }

  /** From the flushed TLB, every distinct page misses once; there are no other misses
      while the pages fit in the lines. */
  lemma ColdStart(mem: Memory, n: nat, u: Trace)
    requires n > 0
    ensures MissCount(mem, n, [], u) >= |Distinct(PageTrace(u))|
    ensures |Distinct(PageTrace(u))| <= n ==> MissCount(mem, n, [], u) == |Distinct(PageTrace(u))|
  {
    MissCountOnStack(mem, n, [], u);
    ColdMisses(PageTrace(u), n);
  }

  /** The lines while the pages fit: line `x` holds the page that came as number `x`, the
      others are as they were flushed, and the list names these first, in order. */
  ghost predicate Filled(mem: Memory, s: State, seen: seq<Vpn>, n: nat) {
    && |seen| <= n == |s.order| == |s.lines|
    && (forall x :: 0 <= x < |seen| ==> s.lines[x] == Entry(seen[x], Translate(mem, seen[x]), true))
    && (forall x :: |seen| <= x < n ==> s.lines[x] == Entry(0, 0, false))
    && (forall i :: 0 <= i < n - |seen| ==> s.order[i] == |seen| + i)
  }

  /** The i-th new page goes to line i, in the order that the driver pushed the lines. */
  lemma {:induction false} NewPagesInOrder(mem: Memory, n: nat, t: Trace)
    requires n > 0 && |Distinct(PageTrace(t))| <= n
    ensures Filled(mem, Run(mem, n, t), FirstSeen(PageTrace(t)), n)
    ensures var lines, seen := Run(mem, n, t).lines, FirstSeen(PageTrace(t));
            && (forall x :: 0 <= x < |seen| ==> lines[x] == Entry(seen[x], Translate(mem, seen[x]), true))
            && (forall x :: |seen| <= x < n ==> lines[x] == Entry(0, 0, false))
  {
    var pages := PageTrace(t);
    FirstSeenPages(pages);
    if t != [] {
      var before, v := PageTrace(Init(t)), PageNumber(Last(t));
      assert pages == before + [v] && Init(pages) == before;
      DistinctGrows(pages);
      NewPagesInOrder(mem, n, Init(t));
      ReachableInv(mem, n, Init(t));
      FirstSeenPages(before);
      var s := Run(mem, n, Init(t));
      if v in before {
        OldPageKeepsFilled(mem, n, s, FirstSeen(before), Last(t));
      } else {
        NewPageFills(mem, n, s, FirstSeen(before), Last(t));
      }
    }
  }

  lemma OldPageKeepsFilled(mem: Memory, n: nat, s: State, seen: seq<Vpn>, va: VirtAddr)
    requires Inv(mem, s) && Filled(mem, s, seen, n) && PageNumber(va) in seen
    ensures Filled(mem, Search(mem, s, va).state, seen, n)
  {
    var v := PageNumber(va);
    var x :| 0 <= x < |seen| && seen[x] == v;
    assert Matches(s.lines, x, v);
    FindsEveryPage(mem, s, v);
    FoundEntry(s.order, s.lines, v);
    var p := Find(s.order, s.lines, v);
    assert forall i :: 0 <= i < n - |seen| ==> !s.lines[s.order[i]].v;
    forall i | 0 <= i < n - |seen|
      ensures Touch(s.order, p)[i] == |seen| + i
    {
      TouchAt(s.order, p, i);
    }
  }

  lemma NewPageFills(mem: Memory, n: nat, s: State, seen: seq<Vpn>, va: VirtAddr)
    requires Inv(mem, s) && Filled(mem, s, seen, n) && PageNumber(va) !in seen && |seen| < n
    ensures Filled(mem, Search(mem, s, va).state, seen + [PageNumber(va)], n)
  {
    var v := PageNumber(va);
    FindsEveryPage(mem, s, v);
    forall x | 0 <= x < n
      ensures !Matches(s.lines, x, v)
    {
      assert x < |seen| ==> s.lines[x].tag == seen[x] && seen[x] in seen;
    }
    WalkByPageNumber(mem, va);
    forall i | 0 <= i < n - |seen| - 1
      ensures Touch(s.order, 0)[i] == |seen| + 1 + i
    {
      TouchAt(s.order, 0, i);
    }
  }

  /** More lines never miss more often. */
  lemma {:induction false} MoreLinesMissLess(mem: Memory, n: nat, m: nat, t: Trace, u: Trace)
    requires 0 < n <= m
    ensures MissCount(mem, m, t, u) <= MissCount(mem, n, t, u)
  {
    if u != [] {
      MoreLinesMissLess(mem, n, m, t, Init(u));
      MoreLinesHoldMore(mem, n, m, t + Init(u), Last(u));
    }
  }

  // ------------------------------------------------------------------------ the driver

  /** The hits and misses of a whole run. */
  ghost function HitTrace(t: Trace, n: nat): (hits: seq<bool>)
    ensures |hits| == |t|
  {
    if t == [] then []
    else HitTrace(Init(t), n) + [RecentlyUsed(PageTrace(Init(t)), PageNumber(Last(t)), n)]
  }

  lemma {:induction false} HitTraceAt(t: Trace, n: nat, i: nat)
    requires i < |t|
    ensures HitTrace(t, n)[i] <==> RecentlyUsed(PageTrace(t[..i]), PageNumber(t[i]), n)
  {
    if i < |t| - 1 {
      HitTraceAt(Init(t), n, i);
      assert Init(t)[..i] == t[..i];
    }
  }

  /** The driver's TLB and list: flushed, and the line numbers pushed in order. */
  method StartUp(n: nat) returns (tlb: array<Entry>, ll: List, ghost spine: set<Node>)
    requires n > 0
    ensures fresh(tlb) && fresh(ll) && fresh(spine) && ll.Within(spine)
    ensures Usable(tlb, ll) && tlb.Length == n && StateOf(tlb, ll) == Start(n)
    ensures |ll.nodes| == n
    ensures forall i :: 0 <= i < n ==> ll.nodes[i].value == i && tlb[i] == Entry(0, 0, false)
  {
    tlb := new Entry[n](_ => ZERO_ENTRY);
    TlbFlush(tlb);
    ll := new List();
    spine := {};
    for line := 0 to n
      invariant fresh(ll) && fresh(spine) && ll.Within(spine) && ll.Valid()
      invariant ll.Values() == Numbers(line)
      invariant forall x :: 0 <= x < n ==> tlb[x] == ZERO_ENTRY
    {
      var node := ll.PushBack(line);
      spine := spine + {node};
      NumbersExtend(line);
    }
    assert tlb[..] == Start(n).lines;
  }

  /** The list that pushing the numbers below `n` makes. */
  function Numbers(n: nat): (s: seq<nat>)
    ensures |s| == n && forall i :: 0 <= i < n ==> s[i] == i
  {
    seq(n, i => i)
  }

  lemma NumbersExtend(n: nat)
    ensures Numbers(n) + [n] == Numbers(n + 1)
  {
  }

  lemma NextSearch(mem: Memory, n: nat, t: Trace, i: nat)
    requires n > 0 && i < |t|
    ensures var o := Search(mem, Run(mem, n, t[..i]), t[i]);
            && o.state == Run(mem, n, t[..i + 1])
            && o.paddr == PageWalk(mem, t[i])
            && (o.hit <==> RecentlyUsed(PageTrace(t[..i]), PageNumber(t[i]), n))
  {
    Transparent(mem, n, t[..i], t[i]);
    HitExactly(mem, n, t[..i], t[i]);
    assert Init(t[..i + 1]) == t[..i];
  }

  lemma HitTraceExtends(t: Trace, n: nat, i: nat)
    requires i < |t|
    ensures HitTrace(t[..i + 1], n) == HitTrace(t[..i], n) + [RecentlyUsed(PageTrace(t[..i]), PageNumber(t[i]), n)]
  {
    assert Init(t[..i + 1]) == t[..i];
  }

  /** One turn of the driver's loop. */
  method DriveLine(mem: Memory, t: Trace, i: nat, before: PhyAddr, tlb: array<Entry>, ll: List, ghost spine: set<Node>)
    returns (paddr: PhyAddr, hit: bool)
    requires i < |t| && Usable(tlb, ll) && tlb.Length > 0 && ll.Within(spine)
    requires StateOf(tlb, ll) == Run(mem, tlb.Length, t[..i])
    modifies tlb, ll, spine
    ensures Usable(tlb, ll) && ll.Within(spine)
    ensures StateOf(tlb, ll) == Run(mem, tlb.Length, t[..i + 1])
    ensures paddr == PageWalk(mem, t[i])
    ensures hit <==> RecentlyUsed(PageTrace(t[..i]), PageNumber(t[i]), tlb.Length)
  {
    TouchStaysIn(ll.nodes, Victim(StateOf(tlb, ll), PageNumber(t[i])), spine);
    NextSearch(mem, tlb.Length, t, i);
    paddr, hit := TlbSearch(mem, t[i], before, tlb, ll);
  }

  /** The driver of the fully-associative TLB: set up, then search once per program line. */
  method Drive(mem: Memory, n: nat, t: Trace) returns (paddrs: seq<PhyAddr>, hits: seq<bool>)
    requires n > 0
    ensures |paddrs| == |hits| == |t|
    ensures forall i :: 0 <= i < |t| ==> paddrs[i] == PageWalk(mem, t[i])
    ensures forall i :: 0 <= i < |t| ==> (hits[i] <==> RecentlyUsed(PageTrace(t[..i]), PageNumber(t[i]), n))
  {
    var tlb, ll, spine := StartUp(n);
    paddrs, hits := [], [];
    var paddr := PhyAddr(0, 0);
    for i := 0 to |t|
      invariant Usable(tlb, ll) && ll.Within(spine) && StateOf(tlb, ll) == Run(mem, n, t[..i])
      invariant Walked(mem, t[..i], paddrs) && hits == HitTrace(t[..i], n)
    {
      var hit;
      paddr, hit := DriveLine(mem, t, i, paddr, tlb, ll, spine);
      HitTraceExtends(t, n, i);
      WalkedExtends(mem, t, i, paddrs);
      paddrs, hits := paddrs + [paddr], hits + [hit];
    }
    assert t[..|t|] == t;
    forall i | 0 <= i < |t|
      ensures hits[i] <==> RecentlyUsed(PageTrace(t[..i]), PageNumber(t[i]), n)
    {
      HitTraceAt(t, n, i);
    }
  }
}
