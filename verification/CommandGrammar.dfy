/** The texts that program_read accepts, exactly, and what they mean (commands.c). A text
    is accepted if and only if it is made of the lines described here, and it is read as
    the commands they mean. The parser is no validator: the places of digits may hold
    almost any characters. */
module CommandGrammar {
  import opened Addresses
  import opened MemAccess
  import opened Sequences
  import opened Streams
  import opened Commands

  /** A text read on. */
  function On(s: string): Input {
    Input(s, false)
  }

  lemma GetcOn(c: char, s: string)
    ensures Getc(On([c] + s)) == (c, On(s))
  {
    assert ([c] + s)[1..] == s;
  }

  // ------------------------------------------------------------------------------ gaps

  /** The number of blanks at the start of a text. */
  function Blanks(s: string): (n: nat)
    ensures n <= |s|
    ensures forall i :: 0 <= i < n ==> IsSpace(s[i])
    ensures n < |s| ==> !IsSpace(s[n])
  {
    if s != "" && IsSpace(s[0]) then 1 + Blanks(s[1..]) else 0
  }

  /** What next_char leaves to read of the text after the blanks. A character 0xFF is not
      pushed back, as it looks like EOF, and so it is lost. */
  function Resume(s: string): Input {
    if s == "" then Input("", true) else if s[0] == EOF_CHAR then On(s[1..]) else On(s)
  }

  lemma {:induction false} SkipExactly(s: string, skipped: int)
    requires skipped >= -1
    ensures SkipSpaces(On(s), skipped)
         == if skipped + 1 + Blanks(s) == 0 then Bad else Good((), Resume(s[Blanks(s)..]))
    decreases |s|
  {
    if s != "" && IsSpace(s[0]) {
      SkipExactly(s[1..], skipped + 1);
      assert s[Blanks(s)..] == s[1..][Blanks(s[1..])..];
    } else {
      assert s[0..] == s;
      assert s != "" ==> [s[0]] + s[1..] == s;
    }
  }

  /** next_char asks for at least one blank, skips them all, and loses one 0xFF after them. */
  lemma NextCharExactly(s: string)
    ensures NextChar(On(s)) == if Blanks(s) == 0 then Bad else Good((), Resume(s[Blanks(s)..]))
  {
    SkipExactly(s, -1);
  }

  /** Blanks between two words, and whether a 0xFF is lost after them. */
  datatype Gap = Gap(blanks: string, lost: bool) {
    predicate Valid() {
      blanks != "" && forall i :: 0 <= i < |blanks| ==> IsSpace(blanks[i])
    }

    /** The gap, followed by some text. */
    function On(s: string): string {
      blanks + if lost then [EOF_CHAR] + s else s
    }
  }

  predicate IsWord(s: string) {
    s != "" && !IsSpace(s[0]) && s[0] != EOF_CHAR
  }

  lemma {:induction false} BlanksBefore(blanks: string, s: string)
    requires forall i :: 0 <= i < |blanks| ==> IsSpace(blanks[i])
    requires s != "" && !IsSpace(s[0])
    ensures Blanks(blanks + s) == |blanks|
  {
    if blanks == "" {
      assert blanks + s == s;
    } else {
      assert (blanks + s)[1..] == blanks[1..] + s;
      BlanksBefore(blanks[1..], s);
    }
  }

  /** A gap before a word is skipped, however long it is and whatever blanks it is of; if a
      0xFF is lost in it, anything may follow. */
  lemma NextCharSkipsGap(g: Gap, s: string)
    requires g.Valid() && (g.lost || IsWord(s))
    ensures NextChar(On(g.On(s))) == Good((), On(s))
  {
    var next := if g.lost then [EOF_CHAR] + s else s;
    BlanksBefore(g.blanks, next);
    NextCharExactly(g.On(s));
    assert g.On(s)[|g.blanks|..] == next;
    assert ([EOF_CHAR] + s)[1..] == s;
  }

  /** At the end of the text there is nothing more to read. */
  lemma NothingAtEnd(s: string)
    requires NextChar(On(s)).Good? && NextChar(On(s)).input.eof
    ensures Getc(NextChar(On(s)).input).0 == EOF_CHAR
  {
    NextCharExactly(s);
  }

  /** Conversely, wherever next_char succeeds before the end of the text, there is a gap. */
  lemma GapParts(s: string) returns (g: Gap, rest: string)
    requires NextChar(On(s)).Good? && !NextChar(On(s)).input.eof
    ensures g.Valid() && s == g.On(rest) && NextChar(On(s)).input == On(rest)
  {
    NextCharExactly(s);
    var n := Blanks(s);
    g := Gap(s[..n], s[n..] != "" && s[n] == EOF_CHAR);
    rest := NextChar(On(s)).input.rest;
    assert s == s[..n] + s[n..];
    assert g.lost ==> s[n..] == [EOF_CHAR] + rest;
  }

  // ---------------------------------------------------------------------------- digits

  /** A text of digits shifted into a word of `m` values, one after the other. */
  function Fold(acc: nat, s: string, m: WordValues): nat
    decreases |s|
  {
    if s == "" then acc else Fold(Shift(acc, s[0], m), s[1..], m)
  }

  lemma {:induction false} FoldStaysAWord(acc: Word64, s: string)
    ensures Fold(acc, s, TWO_64) < TWO_64
    decreases |s|
  {
    if s != "" {
      FoldStaysAWord(Shift64(acc, s[0]), s[1..]);
    }
  }

  lemma {:induction false} FoldStaysAWord32(acc: Word, s: string)
    ensures Fold(acc, s, TWO_32) < TWO_32
    decreases |s|
  {
    if s != "" {
      FoldStaysAWord32(Shift32(acc, s[0]), s[1..]);
    }
  }

  /** The address and the data that characters are taken for. */
  function AddressOf(chars: string): VirtAddr {
    FoldStaysAWord(0, chars);
    FromWord64(Fold(0, chars, TWO_64))
  }

  function DataOf(chars: string): Word {
    FoldStaysAWord32(0, chars);
    Fold(0, chars, TWO_32)
  }

  // ------------------------------------------------------------------------- addresses

  /** An address of sixteen characters, followed by some text. */
  function AddressOn(chars: string, s: string): string {
    "@0x" + (chars + (['\n'] + s))
  }

  lemma AddressMarkExactly(s: string)
    ensures AddressMark(On(s)).Good? <==> "@0x" <= s
    ensures "@0x" <= s ==> AddressMark(On(s)).input == On(s[3..])
  {
    if |s| >= 3 {
      assert s == [s[0]] + ([s[1]] + ([s[2]] + s[3..]));
      GetcOn(s[0], [s[1]] + ([s[2]] + s[3..]));
      GetcOn(s[1], [s[2]] + s[3..]);
      GetcOn(s[2], s[3..]);
      assert s[..3] == [s[0], s[1], s[2]];
    }
  }

  /** The digit loop of an address takes the next characters, whatever they are. Past the
      end it goes on with EOF. */
  lemma {:induction false} HexRunTakes(i: Input, addr: Word64, n: nat)
    ensures var (value, after) := HexRun(i, addr, n);
            && after == (if n <= |i.rest| then Input(i.rest[n..], i.eof) else Input("", true))
            && (n <= |i.rest| ==> value == Fold(addr, i.rest[..n], TWO_64))
    decreases n
  {
    if n > 0 {
      HexRunTakes(Getc(i).1, Shift64(addr, Getc(i).0), n - 1);
      if n <= |i.rest| {
        assert i.rest[..n][1..] == i.rest[1..][..n - 1];
      }
    }
  }

  /** An address is accepted if and only if it starts with "@0x" and the sixteenth character
      after that is followed by the end of the line. The sixteen may be anything. */
  lemma AddressAcceptedExactly(s: string)
    ensures ReadAddress(On(s)).Good? <==> "@0x" <= s && |s| >= 20 && s[19] == '\n'
    ensures ReadAddress(On(s)).Good? ==> ReadAddress(On(s)) == Good(AddressOf(s[3..19]), On(s[20..]))
  {
    AddressMarkExactly(s);
    if "@0x" <= s {
      HexRunTakes(On(s[3..]), 0, ADDRESS_DIGITS);
      if |s| >= 20 {
        SliceOfRest(s, 3, 16);
        SliceOfRest(s, 19, 1);
      }
    }
  }

  lemma AddressReads(chars: string, s: string)
    requires |chars| == ADDRESS_DIGITS
    ensures ReadAddress(On(AddressOn(chars, s))) == Good(AddressOf(chars), On(s))
  {
    var t := AddressOn(chars, s);
    AddressAcceptedExactly(t);
    assert t[3..19] == chars && t[20..] == s;
  }

  lemma AddressParts(s: string) returns (chars: string, rest: string)
    requires ReadAddress(On(s)).Good?
    ensures |chars| == ADDRESS_DIGITS && s == AddressOn(chars, rest)
  {
    AddressAcceptedExactly(s);
    chars, rest := s[3..19], s[20..];
  }

  // ------------------------------------------------------------------------------ data

  predicate NoBlanks(s: string) {
    forall i :: 0 <= i < |s| ==> !IsSpace(s[i])
  }

  /** How many characters there are before the first blank, or the end. */
  function WordLength(s: string): (n: nat)
    ensures n <= |s| && NoBlanks(s[..n])
    ensures n < |s| ==> IsSpace(s[n])
  {
    if s == "" || IsSpace(s[0]) then 0 else 1 + WordLength(s[1..])
  }

  lemma {:induction false} WordLengthOf(word: string, s: string)
    requires NoBlanks(word) && s != "" && IsSpace(s[0])
    ensures WordLength(word + s) == |word|
  {
    if word == "" {
      assert word + s == s;
    } else {
      assert (word + s)[1..] == word[1..] + s;
      WordLengthOf(word[1..], s);
    }
  }

  lemma DataMarkExactly(s: string)
    ensures DataMark(On(s)).Good? <==> "0x" <= s
    ensures "0x" <= s ==> DataMark(On(s)).input == On(s[2..])
  {
    if |s| >= 2 {
      assert s == [s[0]] + ([s[1]] + s[2..]);
      GetcOn(s[0], [s[1]] + s[2..]);
      GetcOn(s[1], s[2..]);
      assert s[..2] == [s[0], s[1]];
    }
  }

  lemma DataRunStep(i: Input, num: char, data: Word, bits: nat)
    requires !IsSpace(num) && !i.eof
    ensures DataRun(i, num, data, bits) == DataRun(Getc(i).1, Getc(i).0, Shift32(data, num), bits + 4)
  {
  }

  /** The digit loop of the data takes the characters up to a blank, whatever they are. */
  lemma {:induction false} DataRunTakes(data: Word, bits: nat, s: string)
    ensures var n := WordLength(s);
            var (first, after) := Getc(On(s));
            DataRun(after, first, data, bits)
            == (Fold(data, s[..n], TWO_32), bits + 4 * n, if n < |s| then s[n] else EOF_CHAR,
                if n < |s| then On(s[n + 1..]) else Input("", true))
    decreases |s|
  {
    if s != "" && !IsSpace(s[0]) {
      var n := WordLength(s);
      DataRunStep(On(s[1..]), s[0], data, bits);
      DataRunTakes(Shift32(data, s[0]), bits + 4, s[1..]);
      assert s[..n][1..] == s[1..][..n - 1];
      assert n < |s| ==> s[1..][n..] == s[n + 1..];
    }
  }

  /** Data is accepted if and only if it starts with "0x" and at most eight characters come
      before the next blank or the end. They may be anything, or missing. The blank is left
      to read. */
  lemma DataAcceptedExactly(s: string)
    ensures ReadData(On(s)).Good? <==> "0x" <= s && WordLength(s[2..]) <= 8
    ensures ReadData(On(s)).Good? ==>
              var n := 2 + WordLength(s[2..]);
              ReadData(On(s)) == Good(DataOf(s[2..n]), if n < |s| then On(s[n..]) else Input("", true))
  {
    DataMarkExactly(s);
    if "0x" <= s {
      var t, n := s[2..], WordLength(s[2..]);
      DataRunTakes(0, 0, t);
      assert t[..n] == s[2..n + 2];
      assert n < |t| ==> [t[n]] + t[n + 1..] == s[n + 2..];
    }
  }

  lemma DataReads(chars: string, s: string)
    requires NoBlanks(chars) && |chars| <= 8 && s != "" && IsSpace(s[0])
    ensures ReadData(On("0x" + (chars + s))) == Good(DataOf(chars), On(s))
  {
    var t := "0x" + (chars + s);
    assert t[2..] == chars + s;
    WordLengthOf(chars, s);
    DataAcceptedExactly(t);
    assert t[2..2 + |chars|] == chars && t[2 + |chars|..] == s;
  }

  lemma DataParts(s: string) returns (chars: string, rest: string)
    requires ReadData(On(s)).Good? && !ReadData(On(s)).input.eof
    ensures NoBlanks(chars) && |chars| <= 8 && s == "0x" + (chars + rest)
    ensures ReadData(On(s)) == Good(DataOf(chars), On(rest))
  {
    DataAcceptedExactly(s);
    var n := 2 + WordLength(s[2..]);
    chars, rest := s[2..n], s[n..];
    assert s == s[..2] + (s[2..n] + s[n..]);
  }

  // ------------------------------------------------------------------------------ types

  predicate IsType(kind: Access, size: nat) {
    size == WORD_SIZE || (size == 1 && kind.Data?)
  }

  lemma TypeReads(kind: Access, size: nat, s: string)
    requires IsType(kind, size)
    ensures ReadType(On(TypeWord(kind, size) + s)) == Good((kind, size), On(s))
    ensures kind.Data? ==> WriteType(On(TypeWord(kind, size) + s)) == Good(size, On(s))
  {
    if kind.Instruction? {
      GetcOn('I', s);
    } else {
      assert TypeWord(kind, size) + s == ['D'] + ([SizeToChar(size)] + s);
      GetcOn('D', [SizeToChar(size)] + s);
      GetcOn(SizeToChar(size), s);
    }
  }

  lemma WriteTypeParts(s: string) returns (size: nat, rest: string)
    requires WriteType(On(s)).Good?
    ensures IsType(Data, size) && s == TypeWord(Data, size) + rest && WriteType(On(s)).input == On(rest)
  {
    size, rest := WriteType(On(s)).value, s[2..];
    assert s == ['D'] + ([s[1]] + rest);
    GetcOn('D', [s[1]] + rest);
    GetcOn(s[1], rest);
    assert SizeToChar(size) == s[1];
  }

  lemma ReadTypeParts(s: string) returns (kind: Access, size: nat, rest: string)
    requires ReadType(On(s)).Good?
    ensures IsType(kind, size) && s == TypeWord(kind, size) + rest && ReadType(On(s)).input == On(rest)
  {
    if s[0] == 'D' {
      kind := Data;
      size, rest := WriteTypeParts(s);
    } else {
      kind, size, rest := Instruction, WORD_SIZE, s[1..];
    }
  }

  // ------------------------------------------------------------------------------ lines

  /** A line: the words of a command and the gaps between them. The last gap and the data
      matter to writes only. */
  datatype Line = Line(order: Order, first: Gap, kind: Access, size: nat, second: Gap,
                       data: string, third: Gap, address: string)
  {
    predicate Valid() {
      && first.Valid() && second.Valid() && |address| == ADDRESS_DIGITS && IsType(kind, size)
      && (order.WRITE? ==> kind.Data? && third.Valid() && NoBlanks(data) && |data| <= 8)
    }

    /** The command that the line is read as. */
    function Meaning(): Command {
      Command(order, kind, size, if order.WRITE? then DataOf(data) else 0, AddressOf(address))
    }

    /** The last words of the line, followed by some text. */
    function OperandsOn(s: string): string {
      if order.READ? then AddressOn(address, s) else "0x" + (data + third.On(AddressOn(address, s)))
    }

    /** The line after its first letter, followed by some text. */
    function BodyOn(s: string): string {
      first.On(TypeWord(kind, size) + second.On(OperandsOn(s)))
    }

    /** The line, followed by some text. */
    function TextOn(s: string): string {
      [OrderToChar(order)] + BodyOn(s)
    }
  }

  lemma GapStartsBlank(g: Gap, s: string)
    requires g.Valid()
    ensures g.On(s) != "" && IsSpace(g.On(s)[0])
  {
  }

  lemma ReadReads(line: Line, s: string)
    requires line.Valid() && line.order.READ?
    ensures ReadProcedure(On(line.BodyOn(s))) == Good(line.Meaning(), On(s))
  {
    var operands := line.OperandsOn(s);
    var afterType := line.second.On(operands);
    NextCharSkipsGap(line.first, TypeWord(line.kind, line.size) + afterType);
    TypeReads(line.kind, line.size, afterType);
    NextCharSkipsGap(line.second, operands);
    AddressReads(line.address, s);
  }

  lemma WriteReads(line: Line, s: string)
    requires line.Valid() && line.order.WRITE?
    ensures WriteProcedure(On(line.BodyOn(s))) == Good(line.Meaning(), On(s))
  {
    var address := AddressOn(line.address, s);
    var operands := line.OperandsOn(s);
    var afterType := line.second.On(operands);
    NextCharSkipsGap(line.first, TypeWord(line.kind, line.size) + afterType);
    TypeReads(line.kind, line.size, afterType);
    NextCharSkipsGap(line.second, operands);
    GapStartsBlank(line.third, address);
    DataReads(line.data, line.third.On(address));
    NextCharSkipsGap(line.third, address);
    AddressReads(line.address, s);
  }

  /** Every valid line is read completely, whatever follows it, as the command it means. */
  lemma LineReads(line: Line, s: string)
    requires line.Valid()
    ensures ReadLine(OrderToChar(line.order), On(line.BodyOn(s))) == Good(line.Meaning(), On(s))
  {
    if line.order.READ? {
      ReadReads(line, s);
    } else {
      WriteReads(line, s);
    }
  }

  /** A gap that something can be read after. */
  lemma GapBefore(s: string) returns (g: Gap, rest: string)
    requires NextChar(On(s)).Good? && Getc(NextChar(On(s)).input).0 != EOF_CHAR
    ensures g.Valid() && s == g.On(rest) && NextChar(On(s)).input == On(rest)
  {
    if NextChar(On(s)).input.eof {
      NothingAtEnd(s);
    }
    g, rest := GapParts(s);
  }

  /** Whatever read_procedure accepts is the body of a valid line. */
  lemma ReadParts(s: string) returns (line: Line, rest: string)
    requires ReadProcedure(On(s)).Good?
    ensures line.Valid() && line.order.READ? && s == line.BodyOn(rest)
  {
    var first, fromType := GapBefore(s);
    var kind, size, afterType := ReadTypeParts(fromType);
    var second, operands := GapBefore(afterType);
    var address;
    address, rest := AddressParts(operands);
    line := Line(READ, first, kind, size, second, "", first, address);
  }

  lemma OperandParts(s: string) returns (data: string, third: Gap, address: string, rest: string)
    requires WriteOperands(On(s)).Good?
    ensures NoBlanks(data) && |data| <= 8 && third.Valid() && |address| == ADDRESS_DIGITS
    ensures s == "0x" + (data + third.On(AddressOn(address, rest)))
  {
    var afterData, fromAddress;
    data, afterData := DataParts(s);
    third, fromAddress := GapBefore(afterData);
    address, rest := AddressParts(fromAddress);
  }

  /** Whatever write_procedure accepts is the body of a valid line. */
  lemma WriteParts(s: string) returns (line: Line, rest: string)
    requires WriteProcedure(On(s)).Good?
    ensures line.Valid() && line.order.WRITE? && s == line.BodyOn(rest)
  {
    var first, fromType := GapBefore(s);
    var size, afterType := WriteTypeParts(fromType);
    var second, operands := GapBefore(afterType);
    var data, third, address;
    data, third, address, rest := OperandParts(operands);
    line := Line(WRITE, first, Data, size, second, data, third, address);
  }

  // --------------------------------------------------------------------------- programs

  predicate AllValid(lines: seq<Line>) {
    forall i :: 0 <= i < |lines| ==> lines[i].Valid()
  }

  /** The lines one after the other, followed by some text. */
  function ProgramOn(lines: seq<Line>, s: string): string {
    if lines == [] then s else lines[0].TextOn(ProgramOn(lines[1..], s))
  }

  function Meanings(lines: seq<Line>): (cs: seq<Command>)
    ensures |cs| == |lines| && forall i :: 0 <= i < |lines| ==> cs[i] == lines[i].Meaning()
  {
    if lines == [] then [] else [lines[0].Meaning()] + Meanings(lines[1..])
  }

  /** A program ends with the text, or with its hundredth command. */
  predicate Ends(commands: nat, s: string) {
    commands == MAX_COMMANDS || (commands < MAX_COMMANDS && s == "")
  }

  lemma LoopEnds(s: string, sofar: seq<Command>)
    requires Ends(|sofar|, s)
    ensures var p := ReadLoop(On(s), sofar); p.Good? && p.value == sofar
  {
  }

  lemma LoopReadsLine(line: Line, s: string, sofar: seq<Command>)
    requires line.Valid() && |sofar| < MAX_COMMANDS
    ensures ReadLoop(On(line.TextOn(s)), sofar) == ReadLoop(On(s), sofar + [line.Meaning()])
  {
    GetcOn(OrderToChar(line.order), line.BodyOn(s));
    LineReads(line, s);
  }

  lemma {:induction false} LoopReads(lines: seq<Line>, s: string, sofar: seq<Command>)
    requires AllValid(lines) && Ends(|sofar| + |lines|, s)
    ensures var p := ReadLoop(On(ProgramOn(lines, s)), sofar); p.Good? && p.value == sofar + Meanings(lines)
    decreases |lines|
  {
    if lines == [] {
      LoopEnds(s, sofar);
      assert sofar + [] == sofar;
    } else {
      LoopReadsLine(lines[0], ProgramOn(lines[1..], s), sofar);
      LoopReads(lines[1..], s, sofar + [lines[0].Meaning()]);
      ConcatAssociative(sofar, [lines[0].Meaning()], Meanings(lines[1..]));
    }
  }

  /** This line, and what is left of the text after it. */
  ghost predicate IsLine(first: char, s: string, line: Line, rest: string) {
    line.Valid() && first == OrderToChar(line.order) && s == line.BodyOn(rest)
  }

  lemma LineParts(first: char, s: string) returns (line: Line, rest: string)
    requires ReadLine(first, On(s)).Good?
    ensures IsLine(first, s, line, rest)
  {
    if first == 'R' {
      line, rest := ReadParts(s);
    } else {
      line, rest := WriteParts(s);
    }
  }

  /** The procedures for the rest of a line accept it if and only if it is a valid line, of
      reads or of writes as its first letter says, and stop right after it. */
  lemma LineAcceptedExactly(first: char, s: string, c: Command, after: Input)
    ensures ReadLine(first, On(s)) == Good(c, after)
       <==> exists line: Line, rest: string ::
              IsLine(first, s, line, rest) && c == line.Meaning() && after == On(rest)
  {
    if ReadLine(first, On(s)).Good? {
      var line, rest := LineParts(first, s);
      LineReads(line, rest);
      assert IsLine(first, s, line, rest);
    }
    forall line: Line, rest: string | IsLine(first, s, line, rest)
      ensures ReadLine(first, On(s)) == Good(line.Meaning(), On(rest))
    {
      LineReads(line, rest);
    }
  }

  /** A line that the loop accepts. */
  lemma LoopSplits(s: string, sofar: seq<Command>) returns (line: Line, after: string)
    requires ReadLoop(On(s), sofar).Good? && s != "" && |sofar| < MAX_COMMANDS
    ensures line.Valid() && s == line.TextOn(after)
    ensures ReadLoop(On(s), sofar) == ReadLoop(On(after), sofar + [line.Meaning()])
  {
    line, after := LineParts(s[0], s[1..]);
    assert s == [s[0]] + s[1..];
    LoopReadsLine(line, after, sofar);
  }

  lemma {:induction false} LoopParts(s: string, sofar: seq<Command>) returns (lines: seq<Line>, rest: string)
    requires ReadLoop(On(s), sofar).Good? && |sofar| <= MAX_COMMANDS
    ensures AllValid(lines) && Ends(|sofar| + |lines|, rest) && s == ProgramOn(lines, rest)
    decreases MAX_COMMANDS - |sofar|
  {
    if s == "" || |sofar| == MAX_COMMANDS {
      lines, rest := [], s;
    } else {
      var line, after := LoopSplits(s, sofar);
      lines, rest := LoopParts(after, sofar + [line.Meaning()]);
      assert ([line] + lines)[1..] == lines;
      lines := [line] + lines;
    }
  }

  /** These lines, and what is left of the text after them, make a program. */
  ghost predicate IsProgram(text: string, lines: seq<Line>, rest: string) {
    AllValid(lines) && Ends(|lines|, rest) && text == ProgramOn(lines, rest)
  }

  /** program_read accepts a text as these commands if and only if it is made of valid
      lines that mean them: fewer than a hundred and nothing else, or a hundred and any
      text after them. */
  lemma AcceptedExactly(text: string, cs: seq<Command>)
    ensures (var p := ReadProgram(text); p.Good? && p.value == cs)
       <==> exists lines: seq<Line>, rest: string :: IsProgram(text, lines, rest) && cs == Meanings(lines)
  {
    if ReadProgram(text).Good? {
      var lines, rest := LoopParts(text, []);
      ProgramReads(text, lines, rest);
      assert IsProgram(text, lines, rest);
    }
    forall lines: seq<Line>, rest: string | IsProgram(text, lines, rest)
      ensures ReadProgram(text).Good? && ReadProgram(text).value == Meanings(lines)
    {
      ProgramReads(text, lines, rest);
    }
  }

  lemma ProgramReads(text: string, lines: seq<Line>, rest: string)
    requires IsProgram(text, lines, rest)
    ensures ReadProgram(text).Good? && ReadProgram(text).value == Meanings(lines)
  {
    LoopReads(lines, rest, []);
    assert [] + Meanings(lines) == Meanings(lines);
  }

  // ---------------------------------------------------------------------- no validator

  /** A program of one line. */
  lemma OneLineReads(line: Line)
    requires line.Valid()
    ensures ReadProgram(line.TextOn("")).Good? && ReadProgram(line.TextOn("")).value == [line.Meaning()]
  {
    assert [line][1..] == [];
    ProgramReads(line.TextOn(""), [line], "");
  }

  predicate IsUpperHex(c: char) {
    '0' <= c <= '9' || 'A' <= c <= 'F'
  }

  /** A character as the parser takes it: what is no digit is a 3. */
  function Repaired(s: string): (r: string)
    ensures |r| == |s|
  {
    seq(|s|, i requires 0 <= i < |s| => if IsUpperHex(s[i]) then s[i] else '3')
  }

  lemma {:induction false} RepairedFolds(acc: nat, s: string, m: WordValues)
    ensures Fold(acc, Repaired(s), m) == Fold(acc, s, m)
    decreases |s|
  {
    if s != "" {
      assert Repaired(s)[1..] == Repaired(s[1..]);
      assert HexDigit(Repaired(s)[0]) == HexDigit(s[0]);
      RepairedFolds(Shift(acc, s[0], m), s[1..], m);
    }
  }

  /** Whatever stands for digits in a line is read as if each character that is no digit
      were a 3. */
  lemma NonDigitsAreThrees(line: Line)
    ensures line.(data := Repaired(line.data), address := Repaired(line.address)).Meaning() == line.Meaning()
  {
    RepairedFolds(0, line.data, TWO_32);
    RepairedFolds(0, line.address, TWO_64);
  }

  /** An instruction fetch, with single blanks. */
  function Fetch(lost: bool, address: string): Line {
    Line(READ, Gap(" ", lost), Instruction, WORD_SIZE, Gap(" ", false), "", Gap(" ", false), address)
  }

  /** For one, an address of sixteen question marks is accepted. */
  lemma AcceptsWithoutDigits()
    ensures var line := Fetch(false, seq(ADDRESS_DIGITS, _ => '?'));
            && (forall i :: 0 <= i < |line.address| ==> !IsUpperHex(line.address[i]))
            && ReadProgram(line.TextOn("")).Good?
  {
    OneLineReads(Fetch(false, seq(ADDRESS_DIGITS, _ => '?')));
  }

  /** And a 0xFF after the first gap is lost: the line is read as if it were not there. */
  lemma LosesAByte(address: string)
    requires |address| == ADDRESS_DIGITS
    ensures var text := "R" + (" " + ("\U{FF}" + ("I" + (" " + AddressOn(address, "")))));
            && ReadProgram(text).Good?
            && ReadProgram(text).value == [Command(READ, Instruction, WORD_SIZE, 0, AddressOf(address))]
  {
    OneLineReads(Fetch(true, address));
  }

  /** And after a hundred commands, anything is accepted. */
  lemma AnythingAfterAHundred(lines: seq<Line>, s: string)
    requires AllValid(lines) && |lines| == 100
    ensures ReadProgram(ProgramOn(lines, s)).Good? && ReadProgram(ProgramOn(lines, s)).value == Meanings(lines)
  {
    ProgramReads(ProgramOn(lines, s), lines, s);
  }
}
