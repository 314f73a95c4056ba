/** The primitives of the set-associative caches (cache.h, cache_mng.c, lru.h): flushing,
    making an entry, inserting it and looking a block up, in place on one flat array. */
module Caches {
  import opened Options
  import opened Addresses
  import opened PageWalks

  /** The shape of a cache. The source has three: two of 4 ways by 64 lines and one of 8
      ways by 512 lines. Its tag shift is the logarithm of 16 times the lines. */
  datatype Geometry = Geometry(ways: nat, lines: nat) {
    predicate Valid() {
      0 < ways < HIT_WAY_MISS && 0 < lines < HIT_INDEX_MISS
    }
  }

  const L1_ICACHE := Geometry(4, 64)
  const L1_DCACHE := Geometry(4, 64)
  const L2_CACHE := Geometry(8, 512)

  const LINE_BYTES := 16
  const HIT_WAY_MISS: nat := 255
  const HIT_INDEX_MISS: nat := 0xFFFF

  datatype Entry = Entry(v: bool, age: nat, tag: nat, line: seq<Word>)

  const ZERO_ENTRY := Entry(false, 0, 0, [0, 0, 0, 0])

  /** Memory in lines of four words. */
  function Block(pa: Word): nat {
    pa / LINE_BYTES
  }

  function Words(mem: Memory, block: nat): (line: seq<Word>)
    ensures |line| == 4 && forall k :: 0 <= k < 4 ==> line[k] == mem(4 * block + k)
  {
    [mem(4 * block), mem(4 * block + 1), mem(4 * block + 2), mem(4 * block + 3)]
  }

  function IndexOf(g: Geometry, pa: Word): nat
    requires g.Valid()
  {
    (pa / LINE_BYTES) % g.lines
  }

  function TagOf(g: Geometry, pa: Word): nat
    requires g.Valid()
  {
    pa / (LINE_BYTES * g.lines)
  }

  ghost predicate Sized(g: Geometry, cache: seq<Entry>) {
    g.Valid() && |cache| == g.lines * g.ways
  }

  /** cache_entry: where way `way` of line `index` is in the array. */
  function At(g: Geometry, index: nat, way: nat): (at: nat)
    requires index < g.lines && way < g.ways
    ensures at < g.lines * g.ways
  {
    AtBound(index, way, g.lines, g.ways);
    index * g.ways + way
  }

  lemma AtBound(index: nat, way: nat, lines: nat, ways: nat)
    requires index < lines && way < ways
    ensures index * ways + way < lines * ways
  {
    NextMultiple(index, lines, ways);
  }

  lemma AtInjective(g: Geometry, i: nat, w: nat, j: nat, u: nat)
    requires i < g.lines && w < g.ways && j < g.lines && u < g.ways
    ensures At(g, i, w) == At(g, j, u) <==> i == j && w == u
  {
    Quotient(At(g, i, w), g.ways, i, w);
    Quotient(At(g, j, u), g.ways, j, u);
  }

  /** The array is laid out line by line: the ways of a line are neighbours, and the first
      way of the next line comes after the last one. */
  lemma AtRowMajor(g: Geometry, index: nat, way: nat)
    requires index < g.lines && way < g.ways
    ensures At(g, 0, 0) == 0
    ensures way + 1 < g.ways ==> At(g, index, way + 1) == At(g, index, way) + 1
    ensures way + 1 == g.ways && index + 1 < g.lines ==> At(g, index + 1, 0) == At(g, index, way) + 1
  {
    assert (index + 1) * g.ways == index * g.ways + g.ways;
  }

  function Slot(g: Geometry, cache: seq<Entry>, index: nat, way: nat): Entry
    requires Sized(g, cache) && index < g.lines && way < g.ways
  {
    cache[At(g, index, way)]
  }

  /** The search of cache_hit, from way `way` on: it gives up at the first invalid way. */
  function FindWay(g: Geometry, cache: seq<Entry>, index: nat, tag: nat, way: nat): (r: Option<nat>)
    requires Sized(g, cache) && index < g.lines && way <= g.ways
    ensures r.Some? ==> way <= r.value < g.ways
    decreases g.ways - way
  {
    if way == g.ways || !Slot(g, cache, index, way).v then None
    else if Slot(g, cache, index, way).tag == tag then Some(way)
    else FindWay(g, cache, index, tag, way + 1)
  }

  function Find(g: Geometry, cache: seq<Entry>, pa: Word): (r: Option<nat>)
    requires Sized(g, cache)
    ensures r.Some? ==> r.value < g.ways
  {
    FindWay(g, cache, IndexOf(g, pa), TagOf(g, pa), 0)
  }

  /** What LRU_age_update leaves when way `way` was hit. The age of that way is reset in the
      first turn of the loop already, so no way but the first can grow older. */
  function Aged(g: Geometry, cache: seq<Entry>, index: nat, way: nat): (r: seq<Entry>)
    requires Sized(g, cache) && index < g.lines && way < g.ways
    ensures |r| == |cache|
  {
    var first, hit := At(g, index, 0), At(g, index, way);
    var older := if cache[first].age < cache[hit].age then cache[first := cache[first].(age := cache[first].age + 1)]
                 else cache;
    older[hit := older[hit].(age := 0)]
  }

  // ------------------------------------------------------------------ the C functions

  /** cache_flush */
  method CacheFlush(g: Geometry, cache: array<Entry>)
    requires g.Valid() && cache.Length == g.lines * g.ways
    modifies cache
    ensures forall i :: 0 <= i < cache.Length ==> cache[i] == Entry(false, 0, 0, [0, 0, 0, 0])
  {
    for i := 0 to cache.Length
      invariant forall k :: 0 <= k < i ==> cache[k] == ZERO_ENTRY
    {
      cache[i] := ZERO_ENTRY;
    }
  }

  /** cache_entry_init: an entry for the block at an aligned address. */
  method CacheEntryInit(g: Geometry, mem: Memory, paddr: PhyAddr) returns (ok: bool, entry: Entry)
    requires g.Valid()
    ensures ok <==> PhyToWord(paddr) % 16 == 0
    ensures ok ==> entry == Entry(true, 0, TagOf(g, PhyToWord(paddr)), Words(mem, Block(PhyToWord(paddr))))
    ensures ok ==> entry.tag == PhyToWord(paddr) / (16 * g.lines) && |entry.line| == 4
    ensures ok ==> forall k :: 0 <= k < 4 ==> entry.line[k] == mem(PhyToWord(paddr) / 4 + k)
  {
    var pa := PhyToWord(paddr);
    entry := ZERO_ENTRY;
    if pa % LINE_BYTES != 0 {
      return false, entry;
    }
    var line := [];
    var start := (pa - pa % LINE_BYTES) / 4;
    assert start == 4 * Block(pa);
    for i := 0 to 4
      invariant |line| == i && forall k :: 0 <= k < i ==> line[k] == mem(start + k)
    {
      line := line + [mem(start + i)];
    }
    return true, Entry(true, 0, TagOf(g, pa), line);
  }

  /** cache_insert */
  method CacheInsert(g: Geometry, index: nat, way: nat, entry: Entry, cache: array<Entry>) returns (ok: bool)
    requires g.Valid() && cache.Length == g.lines * g.ways
    modifies cache
    ensures ok <==> way < g.ways && index < g.lines
    ensures cache[..] == if ok then old(cache[..])[At(g, index, way) := entry] else old(cache[..])
  {
    ok := way < g.ways && index < g.lines;
    if ok {
      var at := At(g, index, way);
      cache[at] := entry;
    }
  }

  /** LRU_age_update */
  method AgeUpdate(g: Geometry, cache: array<Entry>, way: nat, index: nat)
    requires g.Valid() && cache.Length == g.lines * g.ways && index < g.lines && way < g.ways
    modifies cache
    ensures cache[..] == Aged(g, old(cache[..]), index, way)
  {
    ghost var s := cache[..];
    var hit := At(g, index, way);
    for turn := 0 to g.ways
      invariant cache[..] == if turn == 0 then s else Aged(g, s, index, way)
      invariant turn > 0 ==> cache[hit].age == 0
    {
      var at := At(g, index, turn);
      if cache[at].age < cache[hit].age {
        cache[at] := cache[at].(age := cache[at].age + 1);
      }
      cache[hit] := cache[hit].(age := 0);
    }
  }

  /** cache_hit. `before` is what *p_line pointed to. */
  method CacheHit(g: Geometry, cache: array<Entry>, paddr: PhyAddr, before: seq<Word>)
    returns (line: seq<Word>, hitWay: nat, hitIndex: nat)
    requires g.Valid() && cache.Length == g.lines * g.ways
    modifies cache
    ensures var s, pa := old(cache[..]), PhyToWord(paddr);
            match Find(g, s, pa)
            case Some(way) =>
              && hitWay == way && hitIndex == IndexOf(g, pa) && line == Slot(g, s, hitIndex, way).line
              && cache[..] == Aged(g, s, hitIndex, way)
            case None => hitWay == 255 && hitIndex == 0xFFFF && line == before && cache[..] == s
    // In terms of the array: the way that hits is the first with the tag, after valid ones.
    ensures var s, pa := old(cache[..]), PhyToWord(paddr);
            hitWay != 255 ==>
              && hitWay < g.ways && hitIndex == pa / 16 % g.lines
              && s[At(g, hitIndex, hitWay)] == Entry(true, s[At(g, hitIndex, hitWay)].age, pa / (16 * g.lines), line)
              && forall u :: 0 <= u < hitWay ==>
                   s[At(g, hitIndex, u)].v && s[At(g, hitIndex, u)].tag != pa / (16 * g.lines)
    // On a miss, a valid way with the tag can only come after an invalid way.
    ensures var s, pa := old(cache[..]), PhyToWord(paddr);
            hitWay == 255 ==>
              forall w :: 0 <= w < g.ways && s[At(g, pa / 16 % g.lines, w)].v
                          && s[At(g, pa / 16 % g.lines, w)].tag == pa / (16 * g.lines) ==>
                exists u :: 0 <= u < w && !s[At(g, pa / 16 % g.lines, u)].v
  {
    var pa := PhyToWord(paddr);
    hitWay, hitIndex, line := HIT_WAY_MISS, HIT_INDEX_MISS, before;
    var index, tag := IndexOf(g, pa), TagOf(g, pa);
    for way := 0 to g.ways
      invariant cache[..] == old(cache[..])
      invariant hitWay == HIT_WAY_MISS && hitIndex == HIT_INDEX_MISS && line == before
      invariant Find(g, cache[..], pa) == FindWay(g, cache[..], index, tag, way)
      invariant forall u :: 0 <= u < way ==> cache[At(g, index, u)].v && cache[At(g, index, u)].tag != tag
    {
      var at := At(g, index, way);
      assert cache[..][at] == cache[at];
      if !cache[at].v {
        return;
      } else if cache[at].tag == tag {
        hitWay, hitIndex, line := way, index, cache[at].line;
        AgeUpdate(g, cache, way, index);
        return;
      }
    }
  }
}
