/** What every search in the fully-associative TLB keeps, and how a search looks to the
    abstract least-recently-used stack. */
module AssocTlbInvariant {
  import opened Addresses
  import opened PageWalks
  import opened LinkedList
  import opened LruStack
  import opened Sequences
  import opened AssocTlb

  /** The list is a permutation of the line numbers. */
  ghost predicate Permutation(order: seq<nat>, n: nat) {
    && |order| == n && InRange(order, n)
    && (forall i, j :: 0 <= i < j < n ==> order[i] != order[j])
    && (forall x: nat :: x < n ==> x in order)
  }

  /** The invalid lines come first in the list, so they are used up first. */
  ghost predicate InvalidFirst(order: seq<nat>, lines: seq<Entry>)
    requires InRange(order, |lines|)
  {
    forall i, j :: 0 <= i < j < |order| && lines[order[i]].v ==> lines[order[j]].v
  }

  ghost predicate OneLinePerPage(lines: seq<Entry>) {
    forall x, y :: 0 <= x < y < |lines| && lines[x].v && lines[y].v ==> lines[x].tag != lines[y].tag
  }

  /** Valid lines translate as the page walk does. */
  ghost predicate Sound(mem: Memory, lines: seq<Entry>) {
    forall x :: 0 <= x < |lines| && lines[x].v ==> lines[x].page == Translate(mem, lines[x].tag)
  }

  ghost predicate Inv(mem: Memory, s: State) {
    && s.lines != [] && Permutation(s.order, |s.lines|)
    && InvalidFirst(s.order, s.lines) && OneLinePerPage(s.lines) && Sound(mem, s.lines)
  }

  /** The page of one line, if it is valid. */
  function PageOf(lines: seq<Entry>, x: nat): seq<Vpn>
    requires x < |lines|
  {
    if lines[x].v then [lines[x].tag] else []
  }

  /** The pages of the valid lines, from the back of the list to its front. */
  function Pages(order: seq<nat>, lines: seq<Entry>): seq<Vpn>
    requires InRange(order, |lines|)
  {
    if order == [] then []
    else PageOf(lines, order[|order| - 1]) + Pages(order[..|order| - 1], lines)
  }

  // ----------------------------------------------------------------- finding a line

  lemma FindsEveryPage(mem: Memory, s: State, vpn: Vpn)
    requires Inv(mem, s)
    ensures Find(s.order, s.lines, vpn) >= 0 <==> exists x :: 0 <= x < |s.lines| && Matches(s.lines, x, vpn)
  {
    FindLast(s.order, s.lines, vpn);
    if x :| 0 <= x < |s.lines| && Matches(s.lines, x, vpn) {
      assert x in s.order;
    }
  }

  // ------------------------------------------------------------------- moving a line

  lemma TouchKeepsMembers<T>(s: seq<T>, i: nat)
    requires i < |s|
    ensures |Touch(s, i)| == |s| && forall x :: x in Touch(s, i) <==> x in s
  {
    assert s == s[..i] + [s[i]] + s[i + 1..];
  }

  lemma TouchKeepsPermutation(order: seq<nat>, n: nat, i: nat)
    requires Permutation(order, n) && i < n
    ensures Permutation(Touch(order, i), n)
  {
    TouchKeepsMembers(order, i);
    forall j, k | 0 <= j < k < n
      ensures Touch(order, i)[j] != Touch(order, i)[k]
    {
      TouchAt(order, i, j);
      TouchAt(order, i, k);
    }
    forall k | 0 <= k < n
      ensures Touch(order, i)[k] < n
    {
      TouchAt(order, i, k);
    }
  }

  /** Moving a line to the back keeps the invalid lines in front, if it is valid by then
      and the other lines did not change. */
  lemma TouchKeepsInvalidFirst(order: seq<nat>, lines: seq<Entry>, lines': seq<Entry>, i: nat)
    requires |lines'| == |lines| && Permutation(order, |lines|) && i < |order|
    requires InvalidFirst(order, lines) && lines'[order[i]].v
    requires forall x :: 0 <= x < |lines| && x != order[i] ==> lines'[x] == lines[x]
    ensures Permutation(Touch(order, i), |lines|) && InvalidFirst(Touch(order, i), lines')
  {
    TouchKeepsPermutation(order, |lines|, i);
    var touched := Touch(order, i);
    forall j, k | 0 <= j < k < |touched| && lines'[touched[j]].v
      ensures lines'[touched[k]].v
    {
      TouchAt(order, i, j);
      TouchAt(order, i, k);
    }
  }

  /** Every search keeps the invariant and returns the address of the page walk. */
  lemma SearchKeepsInv(mem: Memory, s: State, va: VirtAddr)
    requires Inv(mem, s)
    ensures var o := Search(mem, s, va);
            Inv(mem, o.state) && |o.state.lines| == |s.lines| && o.paddr == PageWalk(mem, va)
  {
    var vpn := PageNumber(va);
    FindLast(s.order, s.lines, vpn);
    FindsEveryPage(mem, s, vpn);
    WalkByPageNumber(mem, va);
    var p := Victim(s, vpn);
    forall x | 0 <= x < |s.lines| && !Search(mem, s, va).hit && s.lines[x].v
      ensures s.lines[x].tag != vpn
    {
      assert !Matches(s.lines, x, vpn);
    }
    TouchKeepsInvalidFirst(s.order, s.lines, Search(mem, s, va).state.lines, p);
  }

  // ------------------------------------------------------------- the abstract stack

  lemma PagesSnoc(order: seq<nat>, x: nat, lines: seq<Entry>)
    requires InRange(order, |lines|) && x < |lines|
    ensures InRange(order + [x], |lines|) && Pages(order + [x], lines) == PageOf(lines, x) + Pages(order, lines)
  {
    assert (order + [x])[..|order|] == order;
  }

  lemma {:induction false} PagesConcat(a: seq<nat>, b: seq<nat>, lines: seq<Entry>)
    requires InRange(a, |lines|) && InRange(b, |lines|)
    ensures InRange(a + b, |lines|) && Pages(a + b, lines) == Pages(b, lines) + Pages(a, lines)
  {
    if b == [] {
      assert a + b == a;
    } else {
      var b', x := b[..|b| - 1], b[|b| - 1];
      assert b' + [x] == b;
      PagesConcat(a, b', lines);
      PagesConcatSnoc(a, b', x, lines);
    }
  }

  lemma PagesConcatSnoc(a: seq<nat>, b: seq<nat>, x: nat, lines: seq<Entry>)
    requires InRange(a, |lines|) && InRange(b, |lines|) && InRange(a + b, |lines|) && x < |lines|
    requires Pages(a + b, lines) == Pages(b, lines) + Pages(a, lines)
    ensures InRange(b + [x], |lines|) && InRange(a + (b + [x]), |lines|)
    ensures Pages(a + (b + [x]), lines) == Pages(b + [x], lines) + Pages(a, lines)
  {
    PagesSnoc(a + b, x, lines);
    PagesSnoc(b, x, lines);
    ConcatAssociative(a, b, [x]);
    ConcatAssociative(PageOf(lines, x), Pages(b, lines), Pages(a, lines));
  }

  lemma SplitAt<T>(s: seq<T>, i: nat)
    requires i < |s|
    ensures s == s[..i] + [s[i]] + s[i + 1..]
  {
  }

  /** Splitting the list at a node splits the stack, in the other order. */
  lemma PagesAround(order: seq<nat>, lines: seq<Entry>, i: nat)
    requires InRange(order, |lines|) && i < |order|
    ensures var a, x, b := order[..i], order[i], order[i + 1..];
            && InRange(a, |lines|) && InRange(b, |lines|) && InRange(Touch(order, i), |lines|)
            && Pages(order, lines) == Pages(b, lines) + (PageOf(lines, x) + Pages(a, lines))
            && Pages(Touch(order, i), lines) == PageOf(lines, x) + (Pages(b, lines) + Pages(a, lines))
  {
    var a, x, b := order[..i], order[i], order[i + 1..];
    PagesSnoc(a, x, lines);
    PagesConcat(a + [x], b, lines);
    SplitAt(order, i);
    PagesConcat(a, b, lines);
    PagesSnoc(a + b, x, lines);
  }

  lemma {:induction false} PagesFrame(order: seq<nat>, lines: seq<Entry>, x: nat, e: Entry)
    requires InRange(order, |lines|) && x < |lines| && x !in order
    ensures Pages(order, lines[x := e]) == Pages(order, lines)
  {
    if order != [] {
      PagesFrame(order[..|order| - 1], lines, x, e);
    }
  }

  /** Some line of the list matches. */
  ghost predicate SomeMatches(order: seq<nat>, lines: seq<Entry>, vpn: Vpn)
    requires InRange(order, |lines|)
  {
    exists i :: 0 <= i < |order| && Matches(lines, order[i], vpn)
  }

  lemma SomeMatchesSnoc(order: seq<nat>, x: nat, lines: seq<Entry>, vpn: Vpn)
    requires InRange(order, |lines|) && InRange(order + [x], |lines|) && x < |lines|
    ensures SomeMatches(order + [x], lines, vpn) <==> Matches(lines, x, vpn) || SomeMatches(order, lines, vpn)
  {
    var longer := order + [x];
    if SomeMatches(longer, lines, vpn) {
      var i :| 0 <= i < |longer| && Matches(lines, longer[i], vpn);
      assert i < |order| ==> longer[i] == order[i];
    }
    if Matches(lines, x, vpn) {
      assert longer[|order|] == x;
    } else if SomeMatches(order, lines, vpn) {
      var i :| 0 <= i < |order| && Matches(lines, order[i], vpn);
      assert longer[i] == order[i];
    }
  }

  lemma {:induction false} PagesMembers(order: seq<nat>, lines: seq<Entry>, vpn: Vpn)
    requires InRange(order, |lines|)
    ensures vpn in Pages(order, lines) <==> SomeMatches(order, lines, vpn)
  {
    if order != [] {
      var front, x := order[..|order| - 1], order[|order| - 1];
      PagesMembers(front, lines, vpn);
      assert order == front + [x];
      SomeMatchesSnoc(front, x, lines, vpn);
    }
  }

  lemma {:induction false} PagesSize(order: seq<nat>, lines: seq<Entry>)
    requires InRange(order, |lines|)
    ensures |Pages(order, lines)| <= |order|
    ensures (forall i :: 0 <= i < |order| ==> lines[order[i]].v) ==> |Pages(order, lines)| == |order|
  {
    if order != [] {
      PagesSize(order[..|order| - 1], lines);
    }
  }

  /** A hit moves the page to the top of the stack. */
  lemma HitOnStack(mem: Memory, s: State, va: VirtAddr)
    requires Inv(mem, s) && Find(s.order, s.lines, PageNumber(va)) >= 0
    ensures var s' := Search(mem, s, va).state;
            InRange(s'.order, |s'.lines|)
            && Pages(s'.order, s'.lines) == Access(Pages(s.order, s.lines), PageNumber(va), |s.lines|)
  {
    var vpn := PageNumber(va);
    var p := Find(s.order, s.lines, vpn);
    var a, b := s.order[..p], s.order[p + 1..];
    FindLast(s.order, s.lines, vpn);
    PagesAround(s.order, s.lines, p);
    PagesMembers(a, s.lines, vpn);
    PagesMembers(b, s.lines, vpn);
    PagesSize(a, s.lines);
    PagesSize(b, s.lines);
    AccessInside(Pages(b, s.lines), vpn, Pages(a, s.lines), |s.lines|);
  }

  /** An access to a page inside the stack. */
  lemma AccessInside<T>(above: seq<T>, v: T, below: seq<T>, n: nat)
    requires v !in above && v !in below && |above| + |below| < n
    ensures Access(above + ([v] + below), v, n) == [v] + (above + below)
  {
    RemoveConcat(above, [v] + below, v);
    RemoveCons(v, below, v);
    RemoveAbsent(above, v);
    RemoveAbsent(below, v);
  }

  /** A miss puts the page on top; the bottom page goes exactly when every line is valid. */
  lemma MissOnStack(mem: Memory, s: State, va: VirtAddr)
    requires Inv(mem, s) && Find(s.order, s.lines, PageNumber(va)) < 0
    ensures var s' := Search(mem, s, va).state;
            InRange(s'.order, |s'.lines|)
            && Pages(s'.order, s'.lines) == Access(Pages(s.order, s.lines), PageNumber(va), |s.lines|)
  {
    var vpn := PageNumber(va);
    var x, rest := s.order[0], s.order[1..];
    ReplacedPages(s.order, s.lines, Entry(vpn, PageWalk(mem, va).page, true));
    FindLast(s.order, s.lines, vpn);
    PagesMembers(s.order, s.lines, vpn);
    PagesSize(rest, s.lines);
    AccessOutside(Pages(rest, s.lines), PageOf(s.lines, x), vpn, |s.lines|);
  }

  /** An access to a page that is not on the stack; a full stack loses its last page. */
  lemma AccessOutside<T>(kept: seq<T>, bottom: seq<T>, v: T, n: nat)
    requires n > 0 && v !in kept + bottom
    requires |kept| == n - 1 || (|kept| < n - 1 && bottom == [])
    ensures Access(kept + bottom, v, n) == [v] + kept
  {
    RemoveAbsent(kept + bottom, v);
    TakeCons(v, kept + bottom, n);
    TakeAll(kept, bottom, n - 1);
  }

  lemma FrontOnlyOnce(order: seq<nat>, n: nat)
    requires Permutation(order, n) && order != []
    ensures order[0] !in order[1..]
  {
    assert forall i :: 0 <= i < |order| - 1 ==> order[1..][i] == order[i + 1];
  }

  /** Overwriting the front line and moving it to the back. */
  lemma ReplacedPages(order: seq<nat>, lines: seq<Entry>, e: Entry)
    requires Permutation(order, |lines|) && order != [] && e.v
    ensures var x, rest := order[0], order[1..];
            && InRange(rest, |lines|) && InRange(Touch(order, 0), |lines|)
            && Pages(order, lines) == Pages(rest, lines) + PageOf(lines, x)
            && Pages(Touch(order, 0), lines[x := e]) == [e.tag] + Pages(rest, lines)
  {
    var x, rest := order[0], order[1..];
    assert [] + [x] == [x] && order == [x] + rest && Touch(order, 0) == rest + [x];
    PagesSnoc([], x, lines);
    PagesConcat([x], rest, lines);
    assert PageOf(lines, x) + [] == PageOf(lines, x);
    PagesSnoc(rest, x, lines[x := e]);
    FrontOnlyOnce(order, |lines|);
    PagesFrame(rest, lines, x, e);
  }

  lemma TakeAll<T>(a: seq<T>, b: seq<T>, n: nat)
    requires |a| == n || (|a| < n && b == [])
    ensures Take(a + b, n) == a
  {
    assert |a| == n ==> (a + b)[..n] == a;
  }

  /** A search is an access to the stack. It hits exactly when the page is on it. */
  lemma SearchOnStack(mem: Memory, s: State, va: VirtAddr)
    requires Inv(mem, s)
    ensures var o := Search(mem, s, va);
            && InRange(o.state.order, |o.state.lines|)
            && Pages(o.state.order, o.state.lines) == Access(Pages(s.order, s.lines), PageNumber(va), |s.lines|)
            && (o.hit <==> PageNumber(va) in Pages(s.order, s.lines))
  {
    FindLast(s.order, s.lines, PageNumber(va));
    PagesMembers(s.order, s.lines, PageNumber(va));
    if Find(s.order, s.lines, PageNumber(va)) >= 0 {
      HitOnStack(mem, s, va);
    } else {
      MissOnStack(mem, s, va);
    }
  }

  /** While some line is unused, no translation is evicted. */
  lemma UnusedLinesFirst(mem: Memory, s: State, va: VirtAddr, x: nat, v: Vpn)
    requires Inv(mem, s) && x < |s.lines| && !s.lines[x].v
    requires v in Pages(s.order, s.lines)
    ensures var s' := Search(mem, s, va).state;
            InRange(s'.order, |s'.lines|) && v in Pages(s'.order, s'.lines)
  {
    SearchOnStack(mem, s, va);
    var stack, vpn := Pages(s.order, s.lines), PageNumber(va);
    RemoveMembers(stack, vpn);
    NotFull(mem, s, x);
    RemoveSize(stack, vpn);
  }

  lemma NotFull(mem: Memory, s: State, x: nat)
    requires Inv(mem, s) && x < |s.lines| && !s.lines[x].v
    ensures |Pages(s.order, s.lines)| < |s.lines|
  {
    var rest := s.order[1..];
    assert x in s.order;
    var i :| 0 <= i < |s.order| && s.order[i] == x;
    assert !s.lines[s.order[0]].v;
    assert s.order == [s.order[0]] + rest && [] + [s.order[0]] == [s.order[0]];
    PagesSnoc([], s.order[0], s.lines);
    PagesConcat([s.order[0]], rest, s.lines);
    PagesSize(rest, s.lines);
  }

  lemma {:induction false} RemoveSize<T>(s: seq<T>, v: T)
    ensures |Remove(s, v)| <= |s|
  {
    if s != [] {
      RemoveSize(s[1..], v);
    }
  }
}
