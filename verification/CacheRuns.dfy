/** A cache that is filled by its own primitives, over whole runs: which lookups hit, and
    that what they return is what memory holds. */
module CacheRuns {
  import opened Options
  import opened Addresses
  import opened PageWalks
  import opened Caches
  import opened Sequences

  // ----------------------------------------------------------------- blocks and slots

  /** Index and tag of an address are those of its block; together they give it back. */
  lemma BlockParts(g: Geometry, pa: Word)
    requires g.Valid()
    ensures IndexOf(g, pa) == Block(pa) % g.lines && TagOf(g, pa) == Block(pa) / g.lines
    ensures TagOf(g, pa) * g.lines + IndexOf(g, pa) == Block(pa)
  {
    var b := Block(pa);
    var q, s := b / g.lines, b % g.lines;
    assert b == q * g.lines + s;
    NextMultiple(s, g.lines, LINE_BYTES);
    assert pa == q * (LINE_BYTES * g.lines) + (s * LINE_BYTES + pa % LINE_BYTES);
    Quotient(pa, LINE_BYTES * g.lines, q, s * LINE_BYTES + pa % LINE_BYTES);
  }

  /** The three caches of the source: 4 ways and 64 lines, or 8 ways and 512 lines, in all
      4 and 64 KiB. Index and tag are what the shifts and the bit fields make of an address. */
  lemma SourceGeometries(pa: Word)
    ensures L1_ICACHE.Valid() && L1_DCACHE.Valid() && L2_CACHE.Valid()
    ensures L1_ICACHE == L1_DCACHE && L1_ICACHE.ways == 4 && L1_ICACHE.lines * 4 * 16 == 4 * 1024
    ensures L2_CACHE.ways == 8 && L2_CACHE.lines * 8 * 16 == 64 * 1024
    ensures IndexOf(L1_ICACHE, pa) == pa / 16 % 64 && IndexOf(L2_CACHE, pa) == pa / 16 % 512
    ensures TagOf(L1_ICACHE, pa) == TagOf(L1_DCACHE, pa) == pa / 0x400 < 0x40_0000
    ensures TagOf(L2_CACHE, pa) == pa / 0x2000 < 0x8_0000
  {
  }

  lemma SlotAfter(g: Geometry, c: seq<Entry>, i: nat, w: nat, e: Entry, j: nat, u: nat)
    requires Sized(g, c) && i < g.lines && w < g.ways && j < g.lines && u < g.ways
    ensures Slot(g, c[At(g, i, w) := e], j, u) == if j == i && u == w then e else Slot(g, c, j, u)
  {
    AtInjective(g, i, w, j, u);
  }

  /** A lookup changes nothing but ages, and those only in its own set: the way that hit
      becomes the youngest, the first way may become one older, no other way changes. */
  lemma OnlyAges(g: Geometry, c: seq<Entry>, i: nat, w: nat, j: nat, u: nat)
    requires Sized(g, c) && i < g.lines && w < g.ways && j < g.lines && u < g.ways
    ensures var before, after := Slot(g, c, j, u), Slot(g, Aged(g, c, i, w), j, u);
            && after == before.(age := after.age)
            && (j == i && u == w ==> after.age == 0)
            && (j != i || (u != w && u != 0) ==> after == before)
            && (j == i && u == 0 && w != 0 ==>
                  after.age == before.age + if before.age < Slot(g, c, i, w).age then 1 else 0)
  {
    AtInjective(g, i, w, j, u);
    AtInjective(g, i, 0, j, u);
    AtInjective(g, i, 0, i, w);
  }

  // ------------------------------------------------------------------------ invariant

  /** In every set the valid ways come first, and hold different blocks. */
  ghost predicate Packed(g: Geometry, c: seq<Entry>)
    requires Sized(g, c)
  {
    forall i, u, w :: 0 <= i < g.lines && 0 <= u < w < g.ways && Slot(g, c, i, w).v ==>
      Slot(g, c, i, u).v && Slot(g, c, i, u).tag != Slot(g, c, i, w).tag
  }

  /** Valid entries hold the words that memory has for their block. */
  ghost predicate Faithful(g: Geometry, mem: Memory, c: seq<Entry>)
    requires Sized(g, c)
  {
    forall i, w :: 0 <= i < g.lines && 0 <= w < g.ways && Slot(g, c, i, w).v ==>
      Slot(g, c, i, w).line == Words(mem, Slot(g, c, i, w).tag * g.lines + i)
  }

  ghost predicate Inv(g: Geometry, mem: Memory, c: seq<Entry>) {
    Sized(g, c) && Packed(g, c) && Faithful(g, mem, c)
  }

  /** Way `w` of a block's set holds the block. */
  ghost predicate Holds(g: Geometry, c: seq<Entry>, block: nat, w: nat)
    requires Sized(g, c) && w < g.ways
  {
    Slot(g, c, block % g.lines, w).v && Slot(g, c, block % g.lines, w).tag == block / g.lines
  }

  ghost predicate Cached(g: Geometry, c: seq<Entry>, block: nat)
    requires Sized(g, c)
  {
    exists w: nat :: w < g.ways && Holds(g, c, block, w)
  }

  lemma {:induction false} FindWayFinds(g: Geometry, c: seq<Entry>, i: nat, tag: nat, way: nat)
    requires Sized(g, c) && Packed(g, c) && i < g.lines && way <= g.ways
    ensures match FindWay(g, c, i, tag, way)
            case Some(w) => Slot(g, c, i, w).v && Slot(g, c, i, w).tag == tag
            case None => forall w :: way <= w < g.ways ==> !(Slot(g, c, i, w).v && Slot(g, c, i, w).tag == tag)
    decreases g.ways - way
  {
    if way < g.ways && Slot(g, c, i, way).v && Slot(g, c, i, way).tag != tag {
      FindWayFinds(g, c, i, tag, way + 1);
    }
  }

  /** The search of cache_hit, in any state: way `w` has the tag, and every way before it is
      valid and has another. */
  ghost predicate FoundAt(g: Geometry, c: seq<Entry>, i: nat, tag: nat, way: nat, w: nat)
    requires Sized(g, c) && i < g.lines && way <= w < g.ways
  {
    && Slot(g, c, i, w).v && Slot(g, c, i, w).tag == tag
    && forall u :: way <= u < w ==> Slot(g, c, i, u).v && Slot(g, c, i, u).tag != tag
  }

  lemma {:induction false} FindWayExactly(g: Geometry, c: seq<Entry>, i: nat, tag: nat, way: nat)
    requires Sized(g, c) && i < g.lines && way <= g.ways
    ensures forall w: nat :: way <= w < g.ways ==>
              (FindWay(g, c, i, tag, way) == Some(w) <==> FoundAt(g, c, i, tag, way, w))
    decreases g.ways - way
  {
    if way < g.ways && Slot(g, c, i, way).v && Slot(g, c, i, way).tag != tag {
      FindWayExactly(g, c, i, tag, way + 1);
    }
  }

  /** A lookup hits exactly when the block is cached, and the line it finds holds the words
      of memory. */
  lemma LookupFinds(g: Geometry, mem: Memory, c: seq<Entry>, pa: Word)
    requires Inv(g, mem, c)
    ensures Find(g, c, pa).Some? <==> Cached(g, c, Block(pa))
    ensures Find(g, c, pa).Some? ==>
              Slot(g, c, IndexOf(g, pa), Find(g, c, pa).value).line == Words(mem, Block(pa))
  {
    BlockParts(g, pa);
    FindWayFinds(g, c, IndexOf(g, pa), TagOf(g, pa), 0);
    if Find(g, c, pa).Some? {
      assert Holds(g, c, Block(pa), Find(g, c, pa).value);
    } else {
      assert forall w: nat :: w < g.ways ==> !Holds(g, c, Block(pa), w);
    }
  }

  lemma LookupKeeps(g: Geometry, mem: Memory, c: seq<Entry>, i: nat, w: nat)
    requires Inv(g, mem, c) && i < g.lines && w < g.ways
    ensures Inv(g, mem, Aged(g, c, i, w))
  {
    var d := Aged(g, c, i, w);
    forall j, u | 0 <= j < g.lines && 0 <= u < g.ways
      ensures Slot(g, d, j, u) == Slot(g, c, j, u).(age := Slot(g, d, j, u).age)
    {
      OnlyAges(g, c, i, w, j, u);
    }
  }

  /** The entry that cache_entry_init makes for an address. */
  function NewEntry(g: Geometry, mem: Memory, pa: Word): Entry
    requires g.Valid()
  {
    Entry(true, 0, TagOf(g, pa), Words(mem, Block(pa)))
  }

  /** Where a block may be put: it is not cached yet, and the way is valid, or the first
      that is not. */
  ghost predicate MayInsert(g: Geometry, c: seq<Entry>, pa: Word, way: nat)
    requires Sized(g, c)
  {
    && way < g.ways && !Cached(g, c, Block(pa))
    && (Slot(g, c, IndexOf(g, pa), way).v || forall u :: 0 <= u < way ==> Slot(g, c, IndexOf(g, pa), u).v)
  }

  lemma InsertKeeps(g: Geometry, mem: Memory, c: seq<Entry>, pa: Word, way: nat)
    requires Inv(g, mem, c) && MayInsert(g, c, pa, way)
    ensures Inv(g, mem, c[At(g, IndexOf(g, pa), way) := NewEntry(g, mem, pa)])
  {
    var i, e := IndexOf(g, pa), NewEntry(g, mem, pa);
    var d := c[At(g, i, way) := e];
    BlockParts(g, pa);
    forall j, u | 0 <= j < g.lines && 0 <= u < g.ways
      ensures Slot(g, d, j, u) == if j == i && u == way then e else Slot(g, c, j, u)
    {
      SlotAfter(g, c, i, way, e, j, u);
    }
    forall u | 0 <= u < g.ways && Slot(g, c, i, u).v
      ensures Slot(g, c, i, u).tag != e.tag
    {
      assert !Holds(g, c, Block(pa), u);
    }
  }

  // ------------------------------------------------------------------------------ runs

  datatype Op = Insert(pa: Word, way: nat) | Lookup(pa: Word)

  function Flushed(g: Geometry): (c: seq<Entry>)
    requires g.Valid()
    ensures Sized(g, c)
  {
    seq(g.lines * g.ways, _ => ZERO_ENTRY)
  }

  /** One operation: make an entry and insert it at its own index, or look an address up.
      An unaligned address or a way that does not exist is refused. */
  function Step(g: Geometry, mem: Memory, c: seq<Entry>, op: Op): (d: seq<Entry>)
    requires Sized(g, c)
    ensures Sized(g, d)
  {
    match op
    case Insert(pa, way) =>
      if pa % LINE_BYTES == 0 && way < g.ways then c[At(g, IndexOf(g, pa), way) := NewEntry(g, mem, pa)] else c
    case Lookup(pa) =>
      match Find(g, c, pa)
      case Some(way) => Aged(g, c, IndexOf(g, pa), way)
      case None => c
  }

  function Run(g: Geometry, mem: Memory, ops: seq<Op>): (c: seq<Entry>)
    requires g.Valid()
    ensures Sized(g, c)
  {
    if ops == [] then Flushed(g) else Step(g, mem, Run(g, mem, Init(ops)), Last(ops))
  }

  /** Every insertion of the run is of an aligned block that may go where it is put. */
  ghost predicate Disciplined(g: Geometry, mem: Memory, ops: seq<Op>)
    requires g.Valid()
  {
    ops == [] || (
      && Disciplined(g, mem, Init(ops))
      && (Last(ops).Insert? ==>
            Last(ops).pa % LINE_BYTES == 0 && MayInsert(g, Run(g, mem, Init(ops)), Last(ops).pa, Last(ops).way)))
  }

  lemma {:induction false} ReachableInv(g: Geometry, mem: Memory, ops: seq<Op>)
    requires g.Valid() && Disciplined(g, mem, ops)
    ensures Inv(g, mem, Run(g, mem, ops))
  {
    if ops != [] {
      ReachableInv(g, mem, Init(ops));
      var c := Run(g, mem, Init(ops));
      match Last(ops) {
        case Insert(pa, way) => InsertKeeps(g, mem, c, pa, way);
        case Lookup(pa) =>
          if Find(g, c, pa).Some? {
            LookupKeeps(g, mem, c, IndexOf(g, pa), Find(g, c, pa).value);
          }
      }
    }
  }

  /** The block last put into a way of a set, according to the operations alone. */
  function LastInsert(g: Geometry, ops: seq<Op>, i: nat, w: nat): Option<nat>
    requires g.Valid()
  {
    if ops == [] then None
    else if Last(ops).Insert? && Last(ops).pa % LINE_BYTES == 0 && Last(ops).way == w && IndexOf(g, Last(ops).pa) == i
    then Some(Block(Last(ops).pa))
    else LastInsert(g, Init(ops), i, w)
  }

  /** What a slot holds after any run, disciplined or not: it is valid exactly when some
      block was put there, and then it has the tag and the words of the last one. */
  lemma {:induction false} SlotIsLastInsert(g: Geometry, mem: Memory, ops: seq<Op>, i: nat, w: nat)
    requires g.Valid() && i < g.lines && w < g.ways
    ensures var e := Slot(g, Run(g, mem, ops), i, w);
            match LastInsert(g, ops, i, w)
            case None => !e.v
            case Some(b) => e.v && b % g.lines == i && e.tag == b / g.lines && e.line == Words(mem, b)
  {
    if ops != [] {
      SlotIsLastInsert(g, mem, Init(ops), i, w);
      var c := Run(g, mem, Init(ops));
      match Last(ops) {
        case Insert(pa, way) =>
          BlockParts(g, pa);
          if way < g.ways {
            SlotAfter(g, c, IndexOf(g, pa), way, NewEntry(g, mem, pa), i, w);
          }
        case Lookup(pa) =>
          if Find(g, c, pa).Some? {
            OnlyAges(g, c, IndexOf(g, pa), Find(g, c, pa).value, i, w);
          }
      }
    }
  }

  /** A way holds a block exactly when that block was put there last. */
  lemma HoldsLastInsert(g: Geometry, mem: Memory, ops: seq<Op>, b: nat, w: nat)
    requires g.Valid() && w < g.ways
    ensures Holds(g, Run(g, mem, ops), b, w) <==> LastInsert(g, ops, b % g.lines, w) == Some(b)
  {
    SlotIsLastInsert(g, mem, ops, b % g.lines, w);
    if LastInsert(g, ops, b % g.lines, w).Some? {
      SameBlock(g, b, LastInsert(g, ops, b % g.lines, w).value);
    }
  }

  /** Index and tag identify a block. */
  lemma SameBlock(g: Geometry, a: nat, b: nat)
    requires g.Valid()
    ensures a == b <==> a % g.lines == b % g.lines && a / g.lines == b / g.lines
  {
    assert a == a / g.lines * g.lines + a % g.lines && b == b / g.lines * g.lines + b % g.lines;
  }

  /** A block was the last one put into some way of its set, and every way before that one
      was used. */
  ghost predicate Present(g: Geometry, ops: seq<Op>, b: nat)
    requires g.Valid()
  {
    exists w: nat :: w < g.ways && PresentAt(g, ops, b, w)
  }

  ghost predicate PresentAt(g: Geometry, ops: seq<Op>, b: nat, w: nat)
    requires g.Valid()
  {
    && LastPutAt(g, ops, b, w)
    && forall u: nat :: u < w ==> LastInsert(g, ops, b % g.lines, u).Some?
  }

  ghost predicate LastPutAt(g: Geometry, ops: seq<Op>, b: nat, w: nat)
    requires g.Valid()
  {
    LastInsert(g, ops, b % g.lines, w) == Some(b)
  }

  /** After any run of insertions and lookups, a lookup hits exactly when the block is
      present, and then it returns the four words that memory has there, each in its place.
      This covers blocks that were inserted again, and unused ways between used ones, which
      the search does not get past. */
  lemma LookupAgreesWithMemory(g: Geometry, mem: Memory, ops: seq<Op>, pa: Word)
    requires g.Valid()
    ensures var c := Run(g, mem, ops);
            var r := Find(g, c, pa);
            && (r.Some? <==> Present(g, ops, pa / 16))
            && (r.Some? ==> var line := Slot(g, c, IndexOf(g, pa), r.value).line;
                            && |line| == 4 && (forall k :: 0 <= k < 4 ==> line[k] == mem(pa / 16 * 4 + k))
                            && line[pa / 4 % 4] == mem(pa / 4))
  {
    LookupFindsWords(g, mem, ops, pa);
    WordOfBlock(mem, pa);
  }

  lemma LookupFindsWords(g: Geometry, mem: Memory, ops: seq<Op>, pa: Word)
    requires g.Valid()
    ensures var c := Run(g, mem, ops);
            var r := Find(g, c, pa);
            && (r.Some? <==> Present(g, ops, Block(pa)))
            && (r.Some? ==> Slot(g, c, IndexOf(g, pa), r.value).line == Words(mem, Block(pa)))
  {
    var c, b, i := Run(g, mem, ops), Block(pa), IndexOf(g, pa);
    BlockParts(g, pa);
    FindWayExactly(g, c, i, TagOf(g, pa), 0);
    forall w: nat | w < g.ways
      ensures Holds(g, c, b, w) <==> LastInsert(g, ops, i, w) == Some(b)
      ensures Slot(g, c, i, w).v <==> LastInsert(g, ops, i, w).Some?
      ensures Holds(g, c, b, w) ==> Slot(g, c, i, w).line == Words(mem, b)
    {
      HoldsLastInsert(g, mem, ops, b, w);
      SlotIsLastInsert(g, mem, ops, i, w);
    }
    if Find(g, c, pa).Some? {
      var w := Find(g, c, pa).value;
      assert FoundAt(g, c, i, TagOf(g, pa), 0, w) && Holds(g, c, b, w);
      assert PresentAt(g, ops, b, w);
    }
    if Present(g, ops, b) {
      var w: nat :| w < g.ways && PresentAt(g, ops, b, w);
      FirstHolder(g, c, i, TagOf(g, pa), 0, w);
    }
  }

  /** A word of memory is found in its block at its place. */
  lemma WordOfBlock(mem: Memory, pa: Word)
    ensures Words(mem, Block(pa))[pa / 4 % 4] == mem(pa / 4)
  {
    assert pa / 4 == 4 * Block(pa) + pa / 4 % 4;
  }

  /** If some way matches and no way before it is invalid, the search succeeds. */
  lemma {:induction false} FirstHolder(g: Geometry, c: seq<Entry>, i: nat, tag: nat, way: nat, w: nat)
    requires Sized(g, c) && i < g.lines && way <= w < g.ways
    requires Slot(g, c, i, w).v && Slot(g, c, i, w).tag == tag && forall u :: way <= u < w ==> Slot(g, c, i, u).v
    ensures FindWay(g, c, i, tag, way).Some?
    decreases w - way
  {
    if Slot(g, c, i, way).tag != tag {
      FirstHolder(g, c, i, tag, way + 1, w);
    }
  }

  /** In a disciplined run there are no unused ways before used ones: a block is found
      exactly when it was put somewhere and its way not reused since. */
  lemma DisciplinedPresence(g: Geometry, mem: Memory, ops: seq<Op>, b: nat)
    requires g.Valid() && Disciplined(g, mem, ops)
    ensures Present(g, ops, b) <==> exists w: nat :: w < g.ways && LastPutAt(g, ops, b, w)
  {
    if w: nat :| w < g.ways && LastPutAt(g, ops, b, w) {
      forall u: nat | u < w
        ensures LastInsert(g, ops, b % g.lines, u).Some?
      {
        EarlierWaysUsed(g, mem, ops, b % g.lines, u, w);
      }
      assert PresentAt(g, ops, b, w);
    }
  }

  lemma EarlierWaysUsed(g: Geometry, mem: Memory, ops: seq<Op>, i: nat, u: nat, w: nat)
    requires g.Valid() && Disciplined(g, mem, ops)
    requires i < g.lines && u < w < g.ways && LastInsert(g, ops, i, w).Some?
    ensures LastInsert(g, ops, i, u).Some?
  {
    ReachableInv(g, mem, ops);
    SlotIsLastInsert(g, mem, ops, i, w);
    SlotIsLastInsert(g, mem, ops, i, u);
    assert Slot(g, Run(g, mem, ops), i, w).v;
  }

  // ------------------------------------------------------------------------------ ages

  /** Ages never leave zero: entries are made with age zero, and a lookup among equal ages
      makes no way older. So over any run the first-way clause of OnlyAges does not fire,
      and ages never tell which block was used last. */
  lemma {:induction false} AgesStayZero(g: Geometry, mem: Memory, ops: seq<Op>, i: nat, w: nat)
    requires g.Valid() && i < g.lines && w < g.ways
    ensures Slot(g, Run(g, mem, ops), i, w).age == 0
  {
    if ops != [] {
      AgesStayZero(g, mem, Init(ops), i, w);
      var c := Run(g, mem, Init(ops));
      match Last(ops) {
        case Insert(pa, way) =>
          if way < g.ways {
            SlotAfter(g, c, IndexOf(g, pa), way, NewEntry(g, mem, pa), i, w);
          }
        case Lookup(pa) =>
          if Find(g, c, pa).Some? {
            var way := Find(g, c, pa).value;
            AgesStayZero(g, mem, Init(ops), IndexOf(g, pa), way);
            OnlyAges(g, c, IndexOf(g, pa), way, i, w);
          }
      }
    }
  }

  /** The age an LRU update would give: every way younger than the one that hit grows one
      older, and that one becomes the youngest. */
  function LruAge(g: Geometry, c: seq<Entry>, i: nat, w: nat, u: nat): nat
    requires Sized(g, c) && i < g.lines && w < g.ways && u < g.ways
  {
    var age := Slot(g, c, i, u).age;
    if u == w then 0 else if age < Slot(g, c, i, w).age then age + 1 else age
  }

  /** From any ages, the update is the LRU update exactly when no way, other than the first
      and the one that hit, was younger than the one that hit. */
  lemma AgeUpdateIsLru(g: Geometry, c: seq<Entry>, i: nat, w: nat)
    requires Sized(g, c) && i < g.lines && w < g.ways
    ensures (forall u :: 0 <= u < g.ways ==> Slot(g, Aged(g, c, i, w), i, u).age == LruAge(g, c, i, w, u))
       <==> (forall u :: 0 < u < g.ways && u != w ==> Slot(g, c, i, u).age >= Slot(g, c, i, w).age)
  {
    forall u | 0 <= u < g.ways
      ensures Slot(g, Aged(g, c, i, w), i, u).age == LruAge(g, c, i, w, u)
         <==> (0 < u && u != w ==> Slot(g, c, i, u).age >= Slot(g, c, i, w).age)
    {
      OnlyAges(g, c, i, w, i, u);
    }
  }

  /** The instruction cache with one entry of age 1, in the last way of set 0: a hit there
      leaves the second way at age 0, where LRU makes it older. */
  lemma AgeUpdateIsNotLru(mem: Memory)
    ensures var c := Flushed(L1_ICACHE)[3 := NewEntry(L1_ICACHE, mem, 0xC00).(age := 1)];
            && Slot(L1_ICACHE, c, 0, 3) == Entry(true, 1, 3, Words(mem, 0xC0))
            && Slot(L1_ICACHE, Aged(L1_ICACHE, c, 0, 3), 0, 1).age == 0
            && LruAge(L1_ICACHE, c, 0, 3, 1) == 1
  {
    SourceGeometries(0xC00);
  }

  // ------------------------------------------------------------------------ the C code

  /** What the operations of a run should answer. Insertions have no answer. */
  ghost function Answers(g: Geometry, mem: Memory, ops: seq<Op>): (answers: seq<Option<seq<Word>>>)
    requires g.Valid()
    ensures |answers| == |ops|
  {
    if ops == [] then [] else Answers(g, mem, Init(ops)) + [Answer(g, mem, Init(ops), Last(ops))]
  }

  ghost function Answer(g: Geometry, mem: Memory, before: seq<Op>, op: Op): Option<seq<Word>>
    requires g.Valid()
  {
    if op.Lookup? && Present(g, before, Block(op.pa)) then Some(Words(mem, Block(op.pa))) else None
  }

  /** In terms of memory, word by word. */
  lemma {:induction false} AnswersAt(g: Geometry, mem: Memory, ops: seq<Op>, k: nat)
    requires g.Valid() && k < |ops|
    ensures var answer := Answers(g, mem, ops)[k];
            && (answer.Some? <==> ops[k].Lookup? && Present(g, ops[..k], ops[k].pa / 16))
            && (answer.Some? ==>
                  var line, pa := answer.value, ops[k].pa;
                  && |line| == 4 && (forall j :: 0 <= j < 4 ==> line[j] == mem(pa / 16 * 4 + j))
                  && line[pa / 4 % 4] == mem(pa / 4))
  {
    if k < |ops| - 1 {
      AnswersAt(g, mem, Init(ops), k);
      assert Init(ops)[..k] == ops[..k];
    } else {
      WordOfBlock(mem, ops[k].pa);
    }
  }

  function PhyAddrOf(pa: Word): (r: PhyAddr)
    ensures PhyToWord(r) == pa
  {
    PhyAddr(pa / PAGE_SIZE, pa % PAGE_SIZE)
  }

  /** One operation on the array. */
  method Perform(g: Geometry, mem: Memory, op: Op, cache: array<Entry>) returns (answer: Option<seq<Word>>)
    requires g.Valid() && cache.Length == g.lines * g.ways
    modifies cache
    ensures cache[..] == Step(g, mem, old(cache[..]), op)
    ensures op.Insert? ==> answer == None
    ensures op.Lookup? ==> var s := old(cache[..]);
                           match Find(g, s, op.pa)
                           case Some(way) => answer == Some(Slot(g, s, IndexOf(g, op.pa), way).line)
                           case None => answer == None
  {
    answer := None;
    match op {
      case Insert(pa, way) =>
        var ok, entry := CacheEntryInit(g, mem, PhyAddrOf(pa));
        if ok {
          ok := CacheInsert(g, IndexOf(g, pa), way, entry, cache);
        }
      case Lookup(pa) =>
        var line, hitWay, hitIndex := CacheHit(g, cache, PhyAddrOf(pa), []);
        if hitWay != HIT_WAY_MISS {
          answer := Some(line);
        }
    }
  }

  /** One operation of a run, on the array. */
  method PerformNext(g: Geometry, mem: Memory, ops: seq<Op>, k: nat, cache: array<Entry>)
    returns (answer: Option<seq<Word>>)
    requires g.Valid() && k < |ops| && cache.Length == g.lines * g.ways
    requires cache[..] == Run(g, mem, ops[..k])
    modifies cache
    ensures cache[..] == Run(g, mem, ops[..k + 1])
    ensures answer == Answer(g, mem, ops[..k], ops[k])
  {
    assert Init(ops[..k + 1]) == ops[..k];
    answer := Perform(g, mem, ops[k], cache);
    if ops[k].Lookup? {
      LookupFindsWords(g, mem, ops[..k], ops[k].pa);
    }
  }

  lemma AnswersExtend(g: Geometry, mem: Memory, ops: seq<Op>, k: nat)
    requires g.Valid() && k < |ops|
    ensures Answers(g, mem, ops[..k + 1]) == Answers(g, mem, ops[..k]) + [Answer(g, mem, ops[..k], ops[k])]
  {
    assert Init(ops[..k + 1]) == ops[..k];
  }

  /** Flush, then perform the operations one by one. */
  method PerformAll(g: Geometry, mem: Memory, ops: seq<Op>) returns (answers: seq<Option<seq<Word>>>)
    requires g.Valid()
    ensures answers == Answers(g, mem, ops)
  {
    var cache := new Entry[g.lines * g.ways](_ => ZERO_ENTRY);
    CacheFlush(g, cache);
    assert cache[..] == Flushed(g);
    answers := [];
    for k := 0 to |ops|
      invariant cache[..] == Run(g, mem, ops[..k])
      invariant answers == Answers(g, mem, ops[..k])
    {
      var answer := PerformNext(g, mem, ops, k, cache);
      AnswersExtend(g, mem, ops, k);
      answers := answers + [answer];
    }
    assert ops[..|ops|] == ops;
  }
}
