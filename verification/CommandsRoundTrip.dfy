/** Printing a program and reading it back, and the freedom of layout in between. */
module CommandsRoundTrip {
  import opened Addresses
  import opened Sequences
  import opened Streams
  import opened Commands
  import opened CommandGrammar

  /** What a program line can say: reads carry no data, instructions are only read, and as
      words; the reserved bits of an address are not written down. */
  predicate WellFormed(c: Command) {
    && (c.size == WORD_SIZE || c.size == 1)
    && (c.order.READ? ==> c.data == 0)
    && (c.kind.Instruction? ==> c.order.READ? && c.size == WORD_SIZE)
    && c.va.reserved == 0
  }

  predicate AllWellFormed(cs: seq<Command>) {
    forall i :: 0 <= i < |cs| ==> WellFormed(cs[i])
  }

  // ------------------------------------------------------------------------ hexadecimal

  lemma HexCharIsDigit(d: nat)
    requires d < 16
    ensures HexDigit(HexChar(d)) == d && !IsSpace(HexChar(d))
  {
  }

  lemma {:induction false} FoldSnoc(acc: nat, s: string, c: char, m: WordValues)
    ensures Fold(acc, s + [c], m) == Shift(Fold(acc, s, m), c, m)
    decreases |s|
  {
    if s == "" {
      assert "" + [c] == [c];
      assert Fold(Shift(acc, c, m), "", m) == Shift(acc, c, m);
    } else {
      assert (s + [c])[1..] == s[1..] + [c];
      FoldSnoc(Shift(acc, s[0], m), s[1..], c, m);
    }
  }

  lemma ShiftOfLastDigit(v: nat, m: WordValues)
    requires v < m
    ensures Shift(v / 16, HexChar(v % 16), m) == v
  {
    HexCharIsDigit(v % 16);
    assert v / 16 < if m == TWO_32 then 0x1000_0000 else 0x1000_0000_0000_0000;
  }

  /** Printed digits stand for the number printed. */
  lemma {:induction false} FoldOfHex(v: nat, width: nat, m: WordValues)
    requires v < m
    ensures Fold(0, Hex(v, width), m) == v
    decreases v, width
  {
    if v != 0 || width != 0 {
      var front := Hex(v / 16, if width > 0 then width - 1 else 0);
      FoldOfHex(v / 16, if width > 0 then width - 1 else 0, m);
      FoldSnoc(0, front, HexChar(v % 16), m);
      ShiftOfLastDigit(v, m);
    }
  }

  lemma {:induction false} HexHasNoBlanks(v: nat, width: nat)
    ensures NoBlanks(Hex(v, width))
    decreases v, width
  {
    if v != 0 || width != 0 {
      HexHasNoBlanks(v / 16, if width > 0 then width - 1 else 0);
      HexCharIsDigit(v % 16);
    }
  }

  function Pow16(n: nat): nat {
    if n == 0 then 1 else 16 * Pow16(n - 1)
  }

  lemma Pow16Values()
    ensures Pow16(8) == 0x1_0000_0000 && Pow16(16) == 0x1_0000_0000_0000_0000
  {
    assert Pow16(4) == 0x1_0000;
    assert Pow16(12) == 0x1_0000_0000_0000;
  }

  /** A number is printed in no more digits than it has, and no fewer than `width`. */
  lemma {:induction false} HexLength(v: nat, width: nat, n: nat)
    requires v < Pow16(n) && width <= n
    ensures width <= |Hex(v, width)| <= n
    decreases v, width
  {
    if v != 0 || width != 0 {
      HexLength(v / 16, if width > 0 then width - 1 else 0, n - 1);
    }
  }

  /** The number that digits stand for. */
  function Number(s: string): nat {
    if s == "" then 0 else Number(s[..|s| - 1]) * 16 + HexDigit(s[|s| - 1])
  }

  /** Printing is the only way to write a number in upper-case digits of a given count:
      any such text is the print of its number. */
  lemma {:induction false} HexOfNumber(s: string)
    requires forall i :: 0 <= i < |s| ==> IsUpperHex(s[i])
    ensures Hex(Number(s), |s|) == s
  {
    if s != "" {
      var front, last := s[..|s| - 1], s[|s| - 1];
      HexOfNumber(front);
      assert HexChar(HexDigit(last)) == last;
      Quotient(Number(s), 16, Number(front), HexDigit(last));
      assert s == front + [last];
    }
  }

  // ------------------------------------------------------------ a command as it is laid out

  /** The line that a command is written as. */
  function LineOf(c: Command, g: Layout): Line {
    Line(c.order, Gap(g.first, false), c.kind, c.size, Gap(g.second, false),
         Hex(c.data, g.digits), Gap(g.third, false), Hex(ToWord64(c.va), ADDRESS_DIGITS))
  }

  /** A well-formed command is written as a valid line, which means that command. */
  lemma LineOfMeans(c: Command, g: Layout)
    requires WellFormed(c) && g.Valid()
    ensures LineOf(c, g).Valid() && LineOf(c, g).Meaning() == c
  {
    Pow16Values();
    HexLength(c.data, g.digits, 8);
    HexLength(ToWord64(c.va), ADDRESS_DIGITS, ADDRESS_DIGITS);
    HexHasNoBlanks(c.data, g.digits);
    FoldOfHex(c.data, g.digits, TWO_32);
    FoldOfHex(ToWord64(c.va), ADDRESS_DIGITS, TWO_64);
    PackThenUnpack(c.va);
  }

  lemma LayOutIsLine(c: Command, g: Layout, s: string)
    ensures LayOut(c, g) + s == LineOf(c, g).TextOn(s)
  {
    var digits := Hex(ToWord64(c.va), 16);
    ConcatAssociative(digits, "\n", s);
    ConcatAssociative("@0x", digits + "\n", s);
    ConcatAssociative(g.third, AddressText(c.va), s);
    ConcatAssociative(DataText(c, g.digits), g.third + AddressText(c.va), s);
    ConcatAssociative("0x", Hex(c.data, g.digits), g.third + (AddressText(c.va) + s));
    ConcatAssociative(g.second, AfterType(c, g), s);
    ConcatAssociative(TypeWord(c.kind, c.size), g.second + AfterType(c, g), s);
    ConcatAssociative(g.first, TypeWord(c.kind, c.size) + (g.second + AfterType(c, g)), s);
    ConcatAssociative([OrderToChar(c.order)], AfterOrder(c, g), s);
  }

  /** A program, each line in its own layout. */
  function LayOutAll(cs: seq<Command>, gs: seq<Layout>): string
    requires |cs| == |gs|
  {
    if cs == [] then "" else LayOut(cs[0], gs[0]) + LayOutAll(cs[1..], gs[1..])
  }

  function LinesOf(cs: seq<Command>, gs: seq<Layout>): (lines: seq<Line>)
    requires |cs| == |gs|
    ensures |lines| == |cs| && forall i :: 0 <= i < |cs| ==> lines[i] == LineOf(cs[i], gs[i])
  {
    seq(|cs|, i requires 0 <= i < |cs| => LineOf(cs[i], gs[i]))
  }

  /** The first commands laid out are lines, and the others the text after them. */
  lemma {:induction false} LayOutAllSplits(cs: seq<Command>, gs: seq<Layout>, k: nat)
    requires |cs| == |gs| && k <= |cs|
    ensures LayOutAll(cs, gs) == ProgramOn(LinesOf(cs[..k], gs[..k]), LayOutAll(cs[k..], gs[k..]))
    decreases k
  {
    if k == 0 {
      assert cs[0..] == cs && gs[0..] == gs;
    } else {
      var rest := LayOutAll(cs[1..], gs[1..]);
      LayOutIsLine(cs[0], gs[0], rest);
      LayOutAllSplits(cs[1..], gs[1..], k - 1);
      TailSplits(cs, k);
      TailSplits(gs, k);
      LinesOfTail(cs[..k], gs[..k]);
    }
  }

  lemma TailSplits<T>(s: seq<T>, k: nat)
    requires 0 < k <= |s|
    ensures s[1..][..k - 1] == s[..k][1..] && s[1..][k - 1..] == s[k..]
  {
  }

  lemma LinesOfTail(cs: seq<Command>, gs: seq<Layout>)
    requires |cs| == |gs| > 0
    ensures LinesOf(cs, gs)[1..] == LinesOf(cs[1..], gs[1..])
  {
  }

  /** What program_read has room for. */
  function FirstHundred(cs: seq<Command>): (first: seq<Command>)
    ensures first <= cs && |first| == if |cs| <= 100 then |cs| else 100
  {
    if |cs| <= MAX_COMMANDS then cs else cs[..MAX_COMMANDS]
  }

  /** The layout does not matter: with any gaps, and with data in any number of digits up
      to eight, a well-formed program reads as its first hundred commands. */
  lemma LayoutInsensitive(cs: seq<Command>, gs: seq<Layout>)
    requires |cs| == |gs| && AllWellFormed(cs) && forall i :: 0 <= i < |gs| ==> gs[i].Valid()
    ensures var p := ReadProgram(LayOutAll(cs, gs));
            p.Good? && p.value == FirstHundred(cs)
  {
    var k := |FirstHundred(cs)|;
    var lines := LinesOf(cs[..k], gs[..k]);
    LayOutAllSplits(cs, gs, k);
    forall i | 0 <= i < k
      ensures lines[i].Valid() && lines[i].Meaning() == cs[i]
    {
      LineOfMeans(cs[i], gs[i]);
    }
    ProgramReads(LayOutAll(cs, gs), lines, LayOutAll(cs[k..], gs[k..]));
    assert Meanings(lines) == FirstHundred(cs);
  }

  // ------------------------------------------------------------------------ round trips

  function StandardAll(cs: seq<Command>): (gs: seq<Layout>)
    ensures |gs| == |cs| && forall i :: 0 <= i < |cs| ==> gs[i] == Standard(cs[i])
  {
    seq(|cs|, i requires 0 <= i < |cs| => Standard(cs[i]))
  }

  lemma {:induction false} PrintIsLayOutAll(cs: seq<Command>)
    ensures PrintProgram(cs) == LayOutAll(cs, StandardAll(cs))
  {
    if cs != [] {
      PrintIsLayOutAll(cs[1..]);
      assert StandardAll(cs)[1..] == StandardAll(cs[1..]);
    }
  }

  /** What is printed reads back. */
  lemma PrintThenRead(cs: seq<Command>)
    requires AllWellFormed(cs)
    ensures var p := ReadProgram(PrintProgram(cs));
            p.Good? && p.value == FirstHundred(cs)
  {
    PrintIsLayOutAll(cs);
    LayoutInsensitive(cs, StandardAll(cs));
  }

  /** Whatever the parser accepts, it accepts as a well-formed program of at most a hundred
      commands. */
  lemma AcceptedIsWellFormed(text: string)
    ensures var p := ReadProgram(text); p.Good? ==> AllWellFormed(p.value) && |p.value| <= 100
  {
    if ReadProgram(text).Good? {
      var lines, rest := LoopParts(text, []);
      ProgramReads(text, lines, rest);
    }
  }

  /** The round trip is the identity on exactly the well-formed programs of at most a
      hundred commands. */
  lemma RoundTripExactly(cs: seq<Command>)
    ensures (var p := ReadProgram(PrintProgram(cs)); p.Good? && p.value == cs)
       <==> (AllWellFormed(cs) && |cs| <= 100)
  {
    AcceptedIsWellFormed(PrintProgram(cs));
    if AllWellFormed(cs) {
      PrintThenRead(cs);
    }
  }

  /** Printing an accepted text normalises it: the print reads as the same program, and
      printing that changes nothing more. */
  lemma PrintNormalises(text: string)
    requires ReadProgram(text).Good?
    ensures var cs := ReadProgram(text).value;
            var again := ReadProgram(PrintProgram(cs));
            again.Good? && again.value == cs && PrintProgram(again.value) == PrintProgram(cs)
  {
    AcceptedIsWellFormed(text);
    PrintThenRead(ReadProgram(text).value);
  }

  /** A program that prints alike is alike: no two well-formed programs of at most a
      hundred commands share a text. */
  lemma PrintInjective(cs: seq<Command>, ds: seq<Command>)
    requires AllWellFormed(cs) && AllWellFormed(ds) && |cs| <= 100 && |ds| <= 100
    requires PrintProgram(cs) == PrintProgram(ds)
    ensures cs == ds
  {
    PrintThenRead(cs);
    PrintThenRead(ds);
  }
}
