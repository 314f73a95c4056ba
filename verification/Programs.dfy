/** The growable array behind a program (commands.h, commands.c): program_init,
    program_add_command and program_shrink. */
module Programs {
  import opened Addresses
  import opened Commands
  import CommandsRoundTrip
  import opened CommandGrammar
  import opened Sequences

  const INIT_ALLOCATED := 10

  /** The checks of program_add_command. The last one tests the offset twice: `%` and `*`
      bind alike, so its second half is the first again, times four. */
  predicate Acceptable(c: Command) {
    && (c.size == WORD_SIZE || c.size == 1)
    && !(c.kind.Instruction? && c.size != WORD_SIZE)
    && !(c.order.WRITE? && c.kind.Instruction?)
    && (c.va.offset % 8 == 0 || (c.va.offset % 8) * WORD_SIZE == 0)
  }

  /** How full a program is, and how many commands reallocation has moved in all. */
  datatype Size = Size(lines: nat, capacity: nat, moved: nat)

  /** The growth loop. */
  function Grow(s: Size): (r: Size)
    requires s.capacity > 0
    ensures r.lines == s.lines < r.capacity && r.capacity >= s.capacity
    decreases s.lines - s.capacity
  {
    if s.lines >= s.capacity then Grow(Size(s.lines, s.capacity * 2, s.moved + s.lines)) else s
  }

  function AfterAdd(s: Size): Size
    requires s.capacity > 0
  {
    var g := Grow(s);
    g.(lines := g.lines + 1)
  }

  function AfterShrink(s: Size): Size {
    if s.lines <= 10 then s else Size(s.lines, s.lines, s.moved + s.lines)
  }

  class Program {
    var listing: array<Command>
    var nbLines: nat
    var capacity: nat
    ghost var moved: nat

    ghost predicate Valid()
      reads this
    {
      listing.Length == capacity && nbLines <= capacity && capacity >= INIT_ALLOCATED
    }

    ghost function Lines(): seq<Command>
      requires Valid()
      reads this, listing
    {
      listing[..nbLines]
    }

    ghost function State(): Size
      reads this
    {
      Size(nbLines, capacity, moved)
    }

    /** program_init */
    constructor ()
      ensures Valid() && fresh(listing) && Lines() == [] && State() == Size(0, INIT_ALLOCATED, 0)
      ensures nbLines == 0 && capacity == listing.Length == 10
    {
      nbLines := 0;
      capacity := INIT_ALLOCATED;
      listing := new Command[INIT_ALLOCATED](_ => BLANK);
      moved := 0;
    }

    /** realloc to a new size: the commands move to a new block. */
    method Reallocate(size: nat)
      requires nbLines <= listing.Length && nbLines <= size
      modifies this`listing, this`moved
      ensures fresh(listing) && listing.Length == size
      ensures listing[..nbLines] == old(listing[..nbLines]) && moved == old(moved) + nbLines
    {
      var block := new Command[size](_ => BLANK);
      for i := 0 to nbLines
        invariant listing == old(listing) && moved == old(moved)
        invariant block[..i] == listing[..i]
      {
        block[i] := listing[i];
      }
      listing := block;
      moved := moved + nbLines;
    }

    /** program_add_command: the command is appended, or refused and nothing changes. */
    method Add(command: Command) returns (ok: bool)
      requires Valid()
      modifies this, listing
      ensures Valid() && (listing == old(listing) || fresh(listing))
      ensures ok <==> Acceptable(command)
      ensures ok <==> && command.va.offset % 8 == 0
                      && (command.size == 4 || (command.size == 1 && command.kind.Data?))
                      && !(command.order.WRITE? && command.kind.Instruction?)
      ensures Lines() == if ok then old(Lines()) + [command] else old(Lines())
      ensures State() == if ok then AfterAdd(old(State())) else old(State())
      ensures var full := old(nbLines == capacity);
              && capacity == listing.Length == old(capacity) * (if ok && full then 2 else 1)
              && nbLines == old(nbLines) + (if ok then 1 else 0)
              && moved == old(moved) + (if ok && full then old(nbLines) else 0)
      ensures listing[..old(nbLines)] == old(listing[..nbLines])
      ensures ok ==> listing[old(nbLines)] == command
    {
      ok := Acceptable(command);
      if !ok {
        return;
      }
      GrowsAtMostOnce(State());
      while nbLines >= capacity
        invariant nbLines == old(nbLines) && listing.Length == capacity >= INIT_ALLOCATED
        invariant nbLines <= capacity && listing[..nbLines] == old(Lines())
        invariant listing == old(listing) || fresh(listing)
        invariant Grow(State()) == Grow(old(State()))
        decreases nbLines - capacity
      {
        capacity := capacity * 2;
        Reallocate(capacity);
      }
      listing[nbLines] := command;
      nbLines := nbLines + 1;
    }

    /** program_shrink */
    method Shrink()
      requires Valid()
      modifies this
      ensures Valid() && (listing == old(listing) || fresh(listing))
      ensures Lines() == old(Lines()) && State() == AfterShrink(old(State()))
      ensures nbLines == old(nbLines) && listing[..nbLines] == old(listing[..nbLines])
      ensures capacity == listing.Length == if old(nbLines) > 10 then old(nbLines) else old(capacity)
      ensures moved == old(moved) + if old(nbLines) > 10 then old(nbLines) else 0
    {
      if !(nbLines <= 10) {
        capacity := nbLines;
        Reallocate(capacity);
      }
    }
  }

  // --------------------------------------------------------- any sequence of operations

  datatype Op = AddOp(command: Command) | ShrinkOp

  /** The accepted commands, in order. */
  function Accepted(ops: seq<Op>): seq<Command> {
    if ops == [] then []
    else
      Accepted(Init(ops)) + if Last(ops).AddOp? && Acceptable(Last(ops).command) then [Last(ops).command] else []
  }

  function Step(s: Size, op: Op): Size
    requires s.capacity > 0
  {
    match op
    case AddOp(c) => if Acceptable(c) then AfterAdd(s) else s
    case ShrinkOp => AfterShrink(s)
  }

  function SizeAfter(ops: seq<Op>): (s: Size)
    ensures s.capacity > 0
  {
    if ops == [] then Size(0, INIT_ALLOCATED, 0) else Step(SizeAfter(Init(ops)), Last(ops))
  }

  /** The lines there were each time a shrink reallocated, summed up. */
  function ShrunkLines(ops: seq<Op>): nat {
    if ops == [] then 0
    else ShrunkLines(Init(ops)) + if Last(ops).ShrinkOp? && SizeAfter(Init(ops)).lines > 10
                                  then SizeAfter(Init(ops)).lines else 0
  }

  /** One step of growth doubles once: the loop never needs a second turn. */
  lemma GrowsAtMostOnce(s: Size)
    requires s.lines <= s.capacity && s.capacity > 0
    ensures Grow(s) == if s.lines == s.capacity then Size(s.lines, s.capacity * 2, s.moved + s.lines) else s
  {
  }

  /** The array is never more than half empty, but for its first ten slots; and what was
      moved is paid for by the slots gained, plus twice the lines of each shrink. */
  lemma {:induction false} Amortised(ops: seq<Op>)
    ensures var s := SizeAfter(ops);
            && s.lines == |Accepted(ops)|
            && s.lines <= s.capacity && s.capacity >= INIT_ALLOCATED
            && (s.capacity == INIT_ALLOCATED || s.capacity < 2 * s.lines)
            && s.moved <= s.capacity - INIT_ALLOCATED + 2 * ShrunkLines(ops)
  {
    if ops != [] {
      Amortised(Init(ops));
      GrowsAtMostOnce(SizeAfter(Init(ops)));
    }
  }

  /** A shrink gives all spare slots back, and the first ten are never given back. */
  lemma ShrinkFits(ops: seq<Op>)
    ensures var s := SizeAfter(ops + [ShrinkOp]);
            && s.lines == |Accepted(ops)|
            && (s.lines > 10 ==> s.capacity == s.lines)
            && (s.lines <= 10 ==> s.capacity == SizeAfter(ops).capacity)
  {
    Amortised(ops);
    assert Init(ops + [ShrinkOp]) == ops;
  }

  function Doubled(slots: nat, times: nat): nat {
    if times == 0 then slots else 2 * Doubled(slots, times - 1)
  }

  /** With adds only, the slots are ten, doubled as often as the accepted commands need and
      no more. */
  lemma {:induction false} AddsDouble(ops: seq<Op>) returns (times: nat)
    requires forall i :: 0 <= i < |ops| ==> ops[i].AddOp?
    ensures SizeAfter(ops).capacity == Doubled(10, times) >= |Accepted(ops)|
    ensures times > 0 ==> Doubled(10, times - 1) < |Accepted(ops)|
  {
    Amortised(ops);
    if ops == [] {
      times := 0;
    } else {
      times := AddsDouble(Init(ops));
      Amortised(Init(ops));
      GrowsAtMostOnce(SizeAfter(Init(ops)));
      if SizeAfter(ops).capacity != SizeAfter(Init(ops)).capacity {
        times := times + 1;
      }
    }
  }

  /** Over any sequence of operations, moves are linear in the lines added and shrunk. */
  lemma MovesAreLinear(ops: seq<Op>)
    requires Accepted(ops) != []
    ensures SizeAfter(ops).moved < 2 * |Accepted(ops)| + 2 * ShrunkLines(ops)
  {
    Amortised(ops);
  }

  /** With adds only, n accepted commands cost fewer than 2n moves in all. */
  lemma {:induction false} AddsMoveFewerThanTwice(ops: seq<Op>)
    requires Accepted(ops) != [] && forall i :: 0 <= i < |ops| ==> ops[i].AddOp?
    ensures SizeAfter(ops).moved < 2 * |Accepted(ops)|
  {
    MovesAreLinear(ops);
    NoShrinks(ops);
  }

  lemma {:induction false} NoShrinks(ops: seq<Op>)
    requires forall i :: 0 <= i < |ops| ==> ops[i].AddOp?
    ensures ShrunkLines(ops) == 0
  {
    if ops != [] {
      NoShrinks(Init(ops));
    }
  }

  /** One operation of a sequence. */
  method PerformNext(ops: seq<Op>, i: nat, program: Program)
    requires i < |ops| && program.Valid()
    requires program.Lines() == Accepted(ops[..i]) && program.State() == SizeAfter(ops[..i])
    modifies program, program.listing
    ensures program.Valid() && (program.listing == old(program.listing) || fresh(program.listing))
    ensures program.Lines() == Accepted(ops[..i + 1]) && program.State() == SizeAfter(ops[..i + 1])
  {
    assert Init(ops[..i + 1]) == ops[..i];
    match ops[i] {
      case AddOp(c) => var ok := program.Add(c);
      case ShrinkOp => program.Shrink();
    }
  }

  /** The class follows these functions over any sequence of operations. */
  method PerformAll(ops: seq<Op>) returns (lines: seq<Command>, capacity: nat)
    ensures lines == Accepted(ops)
    ensures capacity == SizeAfter(ops).capacity
    ensures ops != [] && Last(ops).ShrinkOp? && |lines| > 10 ==> capacity == |lines|
  {
    var program := new Program();
    for i := 0 to |ops|
      invariant fresh(program) && program.Valid() && fresh(program.listing)
      invariant program.Lines() == Accepted(ops[..i]) && program.State() == SizeAfter(ops[..i])
    {
      PerformNext(ops, i, program);
    }
    assert ops[..|ops|] == ops;
    if ops != [] && Last(ops).ShrinkOp? {
      ShrinkFits(Init(ops));
      assert ops == Init(ops) + [ShrinkOp];
    }
    return program.listing[..program.nbLines], program.capacity;
  }

  // ------------------------------------------------------- what is read, added again

  function AddAll(cs: seq<Command>): seq<Op> {
    seq(|cs|, i requires 0 <= i < |cs| => AddOp(cs[i]))
  }

  /** program_add_command is stricter than program_read: of the commands that can be read
      it takes those whose page offset is a multiple of eight. */
  lemma ReadableAcceptable(c: Command)
    requires CommandsRoundTrip.WellFormed(c)
    ensures Acceptable(c) <==> c.va.offset % 8 == 0
  {
  }

  /** In terms of the text: every valid line is read, and the command is refused unless the
      last character of its address counts as 0 or 8. */
  lemma ReadableButRefused(line: Line)
    requires line.Valid()
    ensures var p := ReadProgram(line.TextOn(""));
            && p.Good? && p.value == [line.Meaning()]
            && (Acceptable(line.Meaning()) <==> HexDigit(line.address[15]) % 8 == 0)
  {
    OneLineReads(line);
    CommandsRoundTrip.AcceptedIsWellFormed(line.TextOn(""));
    assert [line.Meaning()][0] == line.Meaning();
    ReadableAcceptable(line.Meaning());
    LastCharDecidesEights(line.address);
  }

  /** The last character alone decides whether an address is a multiple of eight. */
  lemma LastCharDecidesEights(chars: string)
    requires |chars| == ADDRESS_DIGITS
    ensures AddressOf(chars).offset % 8 == HexDigit(chars[15]) % 8
  {
    FoldStaysAWord(0, chars);
    assert chars == chars[..15] + [chars[15]];
    CommandsRoundTrip.FoldSnoc(0, chars[..15], chars[15], TWO_64);
    EightsOfShift(Fold(0, chars[..15], TWO_64) % 0x1000_0000_0000_0000, HexDigit(chars[15]));
  }

  lemma EightsOfShift(shifted: nat, digit: nat)
    requires digit < 16
    ensures (shifted * 16 + digit) % 0x1000 % 8 == digit % 8
  {
    var x := shifted * 16 + digit;
    Quotient(x, 8, shifted * 2 + digit / 8, digit % 8);
    Quotient(x, 8, x / 0x1000 * 0x200 + x % 0x1000 / 8, x % 0x1000 % 8);
  }

  /** So the third line of the repository's first test program, "R DB", eight blanks and
      this address, can be read but not added, and so with any other gaps. */
  lemma TestLineRefused(line: Line)
    requires line.Valid() && line.order.READ? && line.kind.Data? && line.size == 1
    requires line.address == "0000000040200002"
    ensures var p := ReadProgram(line.TextOn(""));
            p.Good? && p.value == [line.Meaning()] && !Acceptable(line.Meaning())
  {
    ReadableButRefused(line);
    assert line.address[15] == '2';
  }

  lemma {:induction false} AddingAccepts(cs: seq<Command>)
    requires CommandsRoundTrip.AllWellFormed(cs)
    ensures |Accepted(AddAll(cs))| <= |cs|
    ensures Accepted(AddAll(cs)) == cs <==> forall i :: 0 <= i < |cs| ==> cs[i].va.offset % 8 == 0
  {
    if cs != [] {
      var front := cs[..|cs| - 1];
      assert Init(AddAll(cs)) == AddAll(front);
      AddingAccepts(front);
      ReadableAcceptable(cs[|cs| - 1]);
      assert cs == front + [cs[|cs| - 1]];
    }
  }

  /** Adding the commands of a program that was read gives the same program exactly when
      all its offsets are multiples of eight. */
  lemma ReadThenAdd(text: string)
    requires ReadProgram(text).Good?
    ensures var cs := ReadProgram(text).value;
            Accepted(AddAll(cs)) == cs <==> forall i :: 0 <= i < |cs| ==> cs[i].va.offset % 8 == 0
  {
    CommandsRoundTrip.AcceptedIsWellFormed(text);
    AddingAccepts(ReadProgram(text).value);
  }
}
