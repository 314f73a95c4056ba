/** The fully-associative TLB (tlb.h, tlb_mng.c). A linked list of line numbers keeps the
    lines in order of use, the least recently used first. The number of lines, 128 in
    the source, is any number above zero here. */
module AssocTlb {
  import opened Addresses
  import opened PageWalks
  import opened LinkedList

  datatype Entry = Entry(tag: Vpn, page: Bits20, v: bool)

  const ZERO_ENTRY := Entry(0, 0, false)

  /** The list, as line numbers from front to back, and the lines. */
  datatype State = State(order: seq<nat>, lines: seq<Entry>)

  datatype Outcome = Outcome(state: State, paddr: PhyAddr, hit: bool)

  /** The list names lines that exist. */
  ghost predicate InRange(order: seq<nat>, n: nat) {
    forall i :: 0 <= i < |order| ==> order[i] < n
  }

  function Matches(lines: seq<Entry>, line: nat, vpn: Vpn): bool
    requires line < |lines|
  {
    lines[line].tag == vpn && lines[line].v
  }

  /** The position in the list, scanned from its back, of a valid line for the page; -1
      when there is none. */
  function Find(order: seq<nat>, lines: seq<Entry>, vpn: Vpn): (p: int)
    requires InRange(order, |lines|)
    ensures -1 <= p < |order|
  {
    if order == [] then -1
    else if Matches(lines, order[|order| - 1], vpn) then |order| - 1
    else Find(order[..|order| - 1], lines, vpn)
  }

  /** The scan finds the last line that matches, and misses only if none does. */
  lemma {:induction false} FindLast(order: seq<nat>, lines: seq<Entry>, vpn: Vpn)
    requires InRange(order, |lines|)
    ensures var p := Find(order, lines, vpn);
            && (p >= 0 ==> Matches(lines, order[p], vpn))
            && forall i :: p < i < |order| ==> !Matches(lines, order[i], vpn)
  {
    if order != [] && !Matches(lines, order[|order| - 1], vpn) {
      FindLast(order[..|order| - 1], lines, vpn);
    }
  }

  lemma FindIs(order: seq<nat>, lines: seq<Entry>, vpn: Vpn, p: int)
    requires InRange(order, |lines|) && -1 <= p < |order|
    requires p >= 0 ==> Matches(lines, order[p], vpn)
    requires forall i :: p < i < |order| ==> !Matches(lines, order[i], vpn)
    ensures Find(order, lines, vpn) == p
  {
    FindLast(order, lines, vpn);
  }

  /** So it succeeds if and only if the list names a valid line with the page as its tag. */
  lemma FindSome(order: seq<nat>, lines: seq<Entry>, vpn: Vpn)
    requires InRange(order, |lines|)
    ensures Find(order, lines, vpn) >= 0
       <==> exists i :: 0 <= i < |order| && lines[order[i]].v && lines[order[i]].tag == vpn
  {
    FindLast(order, lines, vpn);
  }

  lemma FoundEntry(order: seq<nat>, lines: seq<Entry>, vpn: Vpn)
    requires InRange(order, |lines|) && Find(order, lines, vpn) >= 0
    ensures var e := lines[order[Find(order, lines, vpn)]]; e == Entry(vpn, e.page, true)
  {
    FindLast(order, lines, vpn);
  }

  /** The position in the list of the node that a search moves to the back. */
  function Victim(s: State, vpn: Vpn): (p: nat)
    requires InRange(s.order, |s.lines|) && s.order != []
    ensures p < |s.order|
  {
    var p := Find(s.order, s.lines, vpn);
    if p >= 0 then p else 0
  }

  /** tlb_search */
  function Search(mem: Memory, s: State, va: VirtAddr): Outcome
    requires InRange(s.order, |s.lines|) && s.order != []
  {
    var p := Find(s.order, s.lines, PageNumber(va));
    if p >= 0 then
      Outcome(State(Touch(s.order, p), s.lines), PhyAddr(s.lines[s.order[p]].page, va.offset), true)
    else
      var paddr := PageWalk(mem, va);
      Outcome(State(Touch(s.order, 0), s.lines[s.order[0] := Entry(PageNumber(va), paddr.page, true)]), paddr, false)
  }

  // ------------------------------------------------------------------ the C functions

  ghost function StateOf(tlb: array<Entry>, ll: List): State
    reads tlb, ll
  {
    State(ll.Values(), tlb[..])
  }

  /** What the C functions need of their callers: a well-formed list of lines that exist. */
  ghost predicate Usable(tlb: array<Entry>, ll: List)
    reads tlb, ll, ll.nodes
  {
    ll.Valid() && InRange(ll.Values(), tlb.Length)
  }

  /** tlb_entry_init */
  method TlbEntryInit(va: VirtAddr, paddr: PhyAddr) returns (entry: Entry)
    ensures entry.v && entry.page == paddr.page
    ensures forall other: VirtAddr :: entry.tag == PageNumber(other) <==> PageNumber(va) == PageNumber(other)
  {
    entry := Entry(PageNumber(va), paddr.page, true);
  }

  /** tlb_flush */
  method TlbFlush(tlb: array<Entry>)
    modifies tlb
    ensures forall i :: 0 <= i < tlb.Length ==> tlb[i] == Entry(0, 0, false)
  {
    for i := 0 to tlb.Length
      invariant forall k :: 0 <= k < i ==> tlb[k] == ZERO_ENTRY
    {
      tlb[i] := ZERO_ENTRY;
    }
  }

  /** tlb_insert */
  method TlbInsert(line: nat, entry: Entry, tlb: array<Entry>) returns (ok: bool)
    modifies tlb
    ensures ok <==> line < tlb.Length
    ensures tlb[..] == if ok then old(tlb[..])[line := entry] else old(tlb[..])
  {
    ok := line < tlb.Length;
    if ok {
      tlb[line] := entry;
    }
  }

  /** tlb_hit: a walk over the list from its back. `before` is what *paddr held. */
  method TlbHit(va: VirtAddr, before: PhyAddr, tlb: array<Entry>, ll: List) returns (hit: bool, paddr: PhyAddr)
    requires Usable(tlb, ll)
    modifies ll, ll.nodes
    ensures ll.Valid()
    ensures var s := old(StateOf(tlb, ll));
            var p := Find(s.order, s.lines, PageNumber(va));
            && hit == (p >= 0)
            && paddr == (if hit then PhyAddr(s.lines[s.order[p]].page, va.offset) else before)
            && ll.nodes == (if hit then Touch(old(ll.nodes), p) else old(ll.nodes))
  {
    var vpn := PageNumber(va);
    ghost var order, lines := ll.Values(), tlb[..];
    var node := ll.back;
    ghost var i := |order| - 1;
    while node != null
      invariant -1 <= i < |order| && node == if i >= 0 then ll.nodes[i] else null
      invariant forall k :: i < k < |order| ==> !Matches(lines, order[k], vpn)
      decreases i
    {
      if tlb[node.value].tag == vpn && tlb[node.value].v {
        FindIs(order, lines, vpn, i);
        paddr := PhyAddr(tlb[node.value].page, va.offset);
        ll.MoveBack(node, i);
        return true, paddr;
      }
      node := node.previous;
      i := i - 1;
    }
    FindIs(order, lines, vpn, -1);
    return false, before;
  }

  /** The end of tlb_search: the line at the front of the list takes the entry and becomes
      the most recently used. */
  method Replace(entry: Entry, tlb: array<Entry>, ll: List)
    requires Usable(tlb, ll) && ll.nodes != []
    modifies tlb, ll, ll.nodes
    ensures ll.Valid() && ll.nodes == Touch(old(ll.nodes), 0) && ll.back == old(ll.front)
    ensures ll.back != null && ll.back.value < tlb.Length && tlb[..] == old(tlb[..])[ll.back.value := entry]
    ensures var s := old(StateOf(tlb, ll));
            StateOf(tlb, ll) == State(Touch(s.order, 0), s.lines[s.order[0] := entry])
  {
    tlb[ll.front.value] := entry;
    ll.MoveBack(ll.front, 0);
  }

  /** tlb_search: on a miss the line at the front of the list is overwritten and moved to
      the back. */
  method TlbSearch(mem: Memory, va: VirtAddr, before: PhyAddr, tlb: array<Entry>, ll: List)
    returns (paddr: PhyAddr, hit: bool)
    requires Usable(tlb, ll) && ll.nodes != []
    modifies tlb, ll, ll.nodes
    ensures ll.Valid() && ll.nodes == Touch(old(ll.nodes), Victim(old(StateOf(tlb, ll)), PageNumber(va)))
    ensures Outcome(StateOf(tlb, ll), paddr, hit) == Search(mem, old(StateOf(tlb, ll)), va)
    // On array and list: afterwards the node at the back names a valid line for the page.
    ensures ll.back != null && ll.back.value < tlb.Length && paddr.offset == va.offset
    ensures tlb[ll.back.value] == Entry(PageNumber(va), paddr.page, true)
    // A hit changes no line; a miss overwrites the line that the node at the front named.
    ensures hit ==> tlb[..] == old(tlb[..])
    ensures !hit ==> && paddr == PageWalk(mem, va) && ll.back == old(ll.front)
                     && tlb[..] == old(tlb[..])[ll.back.value := Entry(PageNumber(va), paddr.page, true)]
  {
    ghost var nodes, s := ll.nodes, StateOf(tlb, ll);
    ghost var p := Find(s.order, s.lines, PageNumber(va));
    hit, paddr := TlbHit(va, before, tlb, ll);
    if hit {
      ValuesOfTouched(nodes, p);
      TouchAt(nodes, p, |nodes| - 1);
      FoundEntry(s.order, s.lines, PageNumber(va));
      assert StateOf(tlb, ll) == State(Touch(s.order, p), s.lines);
    } else {
      paddr := PageWalk(mem, va);
      var entry := TlbEntryInit(va, paddr);
      assert entry.tag == PageNumber(va);
      Replace(entry, tlb, ll);
    }
  }
}
