/** Programs of memory accesses as text (commands.h, commands.c): program_read and the
    procedures it is made of, and program_print. */
module Commands {
  import opened Addresses
  import opened MemAccess
  import opened Sequences
  import opened Streams

  datatype Order = READ | WRITE

  datatype Command = Command(order: Order, kind: Access, size: nat, data: Word, va: VirtAddr)

  const WORD_SIZE := 4
  const MAX_COMMANDS := 100
  const ADDRESS_DIGITS: nat := 16

  /** Every error of the parser is ERR_BAD_PARAMETER. */
  datatype Parsed<+T> = Bad | Good(value: T, input: Input)

  // ------------------------------------------------------------------ reading, as values

  /** hex_char_to_int. It returns its error code, 3, as if it were the digit. */
  function HexDigit(c: char): (d: nat)
    ensures d < 16
  {
    if '0' <= c <= '9' then c as int - '0' as int
    else if 'A' <= c <= 'F' then c as int - 'A' as int + 10
    else 3
  }

  /** The number of values of a word. */
  type WordValues = m: nat | m == TWO_32 || m == TWO_64 witness TWO_32

  /** A hexadecimal digit shifted into a word of `m` values. The shift drops the four high
      bits and clears the four low ones, which the digit is or-ed into. */
  function Shift(acc: nat, c: char, m: WordValues): nat {
    (if m == TWO_32 then acc % 0x1000_0000 else acc % 0x1000_0000_0000_0000) * 16 + HexDigit(c)
  }

  function Shift32(data: Word, c: char): Word {
    Shift(data, c, TWO_32)
  }

  function Shift64(addr: Word64, c: char): Word64 {
    Shift(addr, c, TWO_64)
  }

  /** next_char, after `skipped + 1` blanks. */
  function SkipSpaces(i: Input, skipped: int): Parsed<()>
    decreases |i.rest|
  {
    if i.eof then Bad
    else
      var (c, i') := Getc(i);
      if IsSpace(c) then SkipSpaces(i', skipped + 1)
      else if skipped + 1 == 0 then Bad
      else Good((), Unget(c, i'))
  }

  function NextChar(i: Input): Parsed<()> {
    SkipSpaces(i, -1)
  }

  /** word_or_byte */
  function WordOrByte(i: Input): Parsed<nat> {
    var (c, i') := Getc(i);
    if c == 'W' then Good(WORD_SIZE, i') else if c == 'B' then Good(1, i') else Bad
  }

  /** The digit loop of address_procedure, in 64 bits. */
  function HexRun(i: Input, addr: Word64, n: nat): (Word64, Input)
    decreases n, |i.rest|
  {
    if n == 0 then (addr, i)
    else
      var (c, i') := Getc(i);
      HexRun(i', Shift64(addr, c), n - 1)
  }

  /** The start of address_procedure: "@0x". */
  function AddressMark(i: Input): Parsed<()> {
    var (at, i1) := Getc(i);
    var (zero, i2) := Getc(i1);
    var (x, i3) := Getc(i2);
    if at == '@' && zero == '0' && x == 'x' then Good((), i3) else Bad
  }

  /** address_procedure */
  function ReadAddress(i: Input): Parsed<VirtAddr> {
    var mark := AddressMark(i);
    if mark.Bad? then Bad
    else
      var (addr, i1) := HexRun(mark.input, 0, ADDRESS_DIGITS);
      var (end, i2) := Getc(i1);
      if end == '\n' then Good(FromWord64(addr), i2) else Bad
  }

  /** What read_procedure reads before the address. */
  function ReadType(i: Input): Parsed<(Access, nat)> {
    var (t, i1) := Getc(i);
    if t == 'I' then Good((Instruction, WORD_SIZE), i1)
    else if t == 'D' then
      var size := WordOrByte(i1);
      if size.Bad? then Bad else Good((Data, size.value), size.input)
    else Bad
  }

  /** read_procedure */
  function ReadProcedure(i: Input): Parsed<Command> {
    var gap := NextChar(i);
    if gap.Bad? then Bad
    else
      var what := ReadType(gap.input);
      if what.Bad? then Bad
      else
        var gap2 := NextChar(what.input);
        if gap2.Bad? then Bad
        else
          var va := ReadAddress(gap2.input);
          if va.Bad? then Bad else Good(Command(READ, what.value.0, what.value.1, 0, va.value), va.input)
  }

  /** The digit loop of write_procedure: `num` was read last, `bits` counts four bits a
      digit. The value is kept in 32 bits. */
  function DataRun(i: Input, num: char, data: Word, bits: nat): (Word, nat, char, Input)
    decreases |i.rest|, if i.eof then 0 else 1
  {
    if !IsSpace(num) && !i.eof then
      var (c, i') := Getc(i);
      DataRun(i', c, Shift32(data, num), bits + 4)
    else (data, bits, num, i)
  }

  /** "0x", with something after it. */
  function DataMark(i: Input): Parsed<()> {
    var (zero, i1) := Getc(i);
    var (x, i2) := Getc(i1);
    if zero == '0' && x == 'x' && !i2.eof then Good((), i2) else Bad
  }

  /** The data of a write: "0x", digits, and the blank that ends them, pushed back. */
  function ReadData(i: Input): Parsed<Word> {
    var mark := DataMark(i);
    if mark.Bad? then Bad
    else
      var (num, i1) := Getc(mark.input);
      var (data, bits, last, i2) := DataRun(i1, num, 0, 0);
      if bits <= 32 then Good(data, Unget(last, i2)) else Bad
  }

  /** What write_procedure reads before the data: it takes no instructions. */
  function WriteType(i: Input): Parsed<nat> {
    var (t, i1) := Getc(i);
    if t == 'D' then WordOrByte(i1) else Bad
  }

  /** The end of write_procedure: data and address. */
  function WriteOperands(i: Input): Parsed<(Word, VirtAddr)> {
    var data := ReadData(i);
    if data.Bad? then Bad
    else
      var gap := NextChar(data.input);
      if gap.Bad? then Bad
      else
        var va := ReadAddress(gap.input);
        if va.Bad? then Bad else Good((data.value, va.value), va.input)
  }

  /** write_procedure */
  function WriteProcedure(i: Input): Parsed<Command> {
    var gap := NextChar(i);
    if gap.Bad? then Bad
    else
      var size := WriteType(gap.input);
      if size.Bad? then Bad
      else
        var gap2 := NextChar(size.input);
        if gap2.Bad? then Bad
        else
          var operands := WriteOperands(gap2.input);
          if operands.Bad? then Bad
          else Good(Command(WRITE, Data, size.value, operands.value.0, operands.value.1), operands.input)
  }

  /** A line of program_read, after its first character. */
  function ReadLine(c: char, i: Input): Parsed<Command> {
    if c == 'R' then ReadProcedure(i) else if c == 'W' then WriteProcedure(i) else Bad
  }

  /** The loop of program_read, after the commands read so far. */
  function ReadLoop(i: Input, sofar: seq<Command>): Parsed<seq<Command>>
    decreases MAX_COMMANDS - |sofar|
  {
    if i.eof || |sofar| >= MAX_COMMANDS then Good(sofar, i)
    else
      var (c, i') := Getc(i);
      if i'.eof then Good(sofar, i')
      else
        var line := ReadLine(c, i');
        if line.Bad? then Bad else ReadLoop(line.input, sofar + [line.value])
  }

  /** program_read */
  function ReadProgram(text: string): Parsed<seq<Command>> {
    ReadLoop(Input(text, false), [])
  }

  // ------------------------------------------------------------ reading, as the C does

  /** What a procedure reports, against what it should have read. */
  ghost predicate Reports<T>(ok: bool, value: T, after: Input, expected: Parsed<T>) {
    && ok == expected.Good?
    && (ok ==> value == expected.value && after == expected.input)
  }

  method DoNextChar(file: File) returns (ok: bool)
    requires file.Valid()
    modifies file
    ensures file.Valid() && Reports(ok, (), file.Rest(), NextChar(old(file.Rest())))
  {
    var skipped := -1;
    var c := ' ';
    while IsSpace(c)
      invariant file.Valid() && skipped >= -1
      invariant IsSpace(c) ==> NextChar(old(file.Rest())) == SkipSpaces(file.Rest(), skipped)
      invariant !IsSpace(c) ==>
                  NextChar(old(file.Rest()))
                  == if skipped == 0 then Bad else Good((), Unget(c, file.Rest()))
      invariant !IsSpace(c) && c != EOF_CHAR ==> file.pos > 0 && file.text[file.pos - 1] == c
      decreases |file.text| - file.pos, IsSpace(c)
    {
      if file.eof {
        return false;
      }
      c := file.Fgetc();
      skipped := skipped + 1;
    }
    file.Ungetc(c);
    return skipped != 0;
  }

  method DoWordOrByte(file: File) returns (ok: bool, size: nat)
    requires file.Valid()
    modifies file
    ensures file.Valid() && Reports(ok, size, file.Rest(), WordOrByte(old(file.Rest())))
    ensures var rest := old(file.Rest()).rest;
            && (ok <==> rest != "" && (rest[0] == 'W' || rest[0] == 'B'))
            && (ok ==> size == if rest[0] == 'W' then 4 else 1)
  {
    size := 0;
    var c := file.Fgetc();
    if !(c == 'W' || c == 'B') {
      return false, size;
    }
    if c == 'B' {
      size := 1;
    } else {
      size := WORD_SIZE;
    }
    ok := true;
  }

  method DoHexRun(file: File) returns (addr: Word64)
    requires file.Valid()
    modifies file
    ensures file.Valid() && (addr, file.Rest()) == HexRun(old(file.Rest()), 0, ADDRESS_DIGITS)
  {
    addr := 0;
    for i := 0 to ADDRESS_DIGITS
      invariant file.Valid()
      invariant HexRun(old(file.Rest()), 0, ADDRESS_DIGITS) == HexRun(file.Rest(), addr, ADDRESS_DIGITS - i)
    {
      var c := file.Fgetc();
      addr := Shift64(addr, c);
    }
  }

  method DoAddressMark(file: File) returns (ok: bool)
    requires file.Valid()
    modifies file
    ensures file.Valid() && Reports(ok, (), file.Rest(), AddressMark(old(file.Rest())))
  {
    var c := file.Fgetc();
    if c != '@' {
      return false;
    }
    c := file.Fgetc();
    if c != '0' {
      return false;
    }
    c := file.Fgetc();
    return c == 'x';
  }

  method DoReadAddress(file: File) returns (ok: bool, va: VirtAddr)
    requires file.Valid()
    modifies file
    ensures file.Valid() && Reports(ok, va, file.Rest(), ReadAddress(old(file.Rest())))
  {
    va := BLANK.va;
    ok := DoAddressMark(file);
    if !ok {
      return;
    }
    var addr := DoHexRun(file);
    var c := file.Fgetc();
    if c != '\n' {
      return false, va;
    }
    var cell := new VirtAddrCell.Zero();
    ok := cell.Init64(addr);
    va := cell.Value();
  }

  /** A zeroed command, as calloc leaves it. */
  const BLANK := Command(READ, Instruction, 0, 0, VirtAddr(0, 0, 0, 0, 0, 0))

  method DoReadProcedure(file: File) returns (ok: bool, command: Command)
    requires file.Valid()
    modifies file
    ensures file.Valid() && Reports(ok, command, file.Rest(), ReadProcedure(old(file.Rest())))
  {
    command := BLANK.(order := READ);
    ok := DoNextChar(file);
    if !ok {
      return;
    }
    var t := file.Fgetc();
    if !(t == 'I' || t == 'D') {
      return false, command;
    }
    if t == 'D' {
      var size;
      ok, size := DoWordOrByte(file);
      if !ok {
        return;
      }
      command := command.(kind := Data, size := size);
    } else {
      command := command.(kind := Instruction, size := WORD_SIZE);
    }
    ok := DoNextChar(file);
    if !ok {
      return;
    }
    command := command.(data := 0);
    var va;
    ok, va := DoReadAddress(file);
    command := command.(va := va);
  }

  method DoDataMark(file: File) returns (ok: bool)
    requires file.Valid()
    modifies file
    ensures file.Valid() && Reports(ok, (), file.Rest(), DataMark(old(file.Rest())))
  {
    var c := file.Fgetc();
    if c != '0' {
      return false;
    }
    c := file.Fgetc();
    return c == 'x' && !file.eof;
  }

  method DoDataRun(file: File) returns (data: Word, bits: nat, num: char)
    requires file.Valid()
    modifies file
    ensures file.Valid() && (num != EOF_CHAR ==> file.pos > 0 && file.text[file.pos - 1] == num)
    ensures var (first, after) := Getc(old(file.Rest()));
            (data, bits, num, file.Rest()) == DataRun(after, first, 0, 0)
  {
    data, bits := 0, 0;
    num := file.Fgetc();
    ghost var start, first := file.Rest(), num;
    while !IsSpace(num) && !file.eof
      invariant file.Valid() && (num != EOF_CHAR ==> file.pos > 0 && file.text[file.pos - 1] == num)
      invariant DataRun(start, first, 0, 0) == DataRun(file.Rest(), num, data, bits)
      decreases |file.text| - file.pos, !file.eof
    {
      data := Shift32(data, num);
      bits := bits + 4;
      num := file.Fgetc();
    }
  }

  method DoReadData(file: File) returns (ok: bool, data: Word)
    requires file.Valid()
    modifies file
    ensures file.Valid() && Reports(ok, data, file.Rest(), ReadData(old(file.Rest())))
  {
    data := 0;
    ok := DoDataMark(file);
    if !ok {
      return;
    }
    var bits, num;
    data, bits, num := DoDataRun(file);
    if !(bits <= 32) {
      return false, data;
    }
    file.Ungetc(num);
  }

  /** The end of write_procedure. */
  method DoWriteOperands(file: File) returns (ok: bool, data: Word, va: VirtAddr)
    requires file.Valid()
    modifies file
    ensures file.Valid() && Reports(ok, (data, va), file.Rest(), WriteOperands(old(file.Rest())))
  {
    va := BLANK.va;
    ok, data := DoReadData(file);
    if !ok {
      return;
    }
    ok := DoNextChar(file);
    if !ok {
      return;
    }
    ok, va := DoReadAddress(file);
  }

  method DoWriteProcedure(file: File) returns (ok: bool, command: Command)
    requires file.Valid()
    modifies file
    ensures file.Valid() && Reports(ok, command, file.Rest(), WriteProcedure(old(file.Rest())))
  {
    command := BLANK.(order := WRITE);
    ok := DoNextChar(file);
    if !ok {
      return;
    }
    var t := file.Fgetc();
    if t != 'D' {
      return false, command;
    }
    var size, data, va;
    ok, size := DoWordOrByte(file);
    command := command.(kind := Data, size := size);
    if !ok {
      return;
    }
    ok := DoNextChar(file);
    if !ok {
      return;
    }
    ok, data, va := DoWriteOperands(file);
    command := command.(data := data, va := va);
  }

  /** program_read, of a file with this text. A rejected program has no lines. */
  method DoReadProgram(text: string) returns (ok: bool, listing: seq<Command>)
    ensures ok == ReadProgram(text).Good?
    ensures listing == if ok then ReadProgram(text).value else []
  {
    var file := new File(text);
    listing := [];
    while !file.eof && |listing| < MAX_COMMANDS
      invariant fresh(file) && file.Valid()
      invariant ReadProgram(text) == ReadLoop(file.Rest(), listing)
      decreases MAX_COMMANDS - |listing|, !file.eof
    {
      var c := file.Fgetc();
      if !file.eof {
        var command;
        if c == 'R' {
          ok, command := DoReadProcedure(file);
        } else if c == 'W' {
          ok, command := DoWriteProcedure(file);
        } else {
          return false, [];
        }
        if !ok {
          return false, [];
        }
        listing := listing + [command];
      }
    }
    ok := true;
  }

  // -------------------------------------------------------------------------- printing

  /** order_to_char */
  function OrderToChar(order: Order): char {
    match order
    case READ => 'R'
    case WRITE => 'W'
  }

  /** type_to_char */
  function TypeToChar(kind: Access): char {
    match kind
    case Data => 'D'
    case Instruction => 'I'
  }

  /** size_to_char. For any other size it returns its error code. */
  function SizeToChar(size: nat): char {
    if size == WORD_SIZE then 'W' else if size == 1 then 'B' else '\U{03}'
  }

  function HexChar(d: nat): char
    requires d < 16
  {
    if d < 10 then ('0' as int + d) as char else ('A' as int + (d - 10)) as char
  }

  /** printf's %0<width>X: upper-case digits, padded with zeros. */
  function Hex(v: nat, width: nat): string
    decreases v, width
  {
    if v == 0 && width == 0 then ""
    else Hex(v / 16, if width > 0 then width - 1 else 0) + [HexChar(v % 16)]
  }

  /** A non-empty run of blanks. */
  predicate IsGap(g: string) {
    g != "" && forall i :: 0 <= i < |g| ==> IsSpace(g[i])
  }

  /** How a line is laid out: its gaps, and the least number of digits for its data. The
      last gap and the digits matter to writes only. */
  datatype Layout = Layout(first: string, second: string, third: string, digits: nat) {
    predicate Valid() {
      IsGap(first) && IsGap(second) && IsGap(third) && digits <= 8
    }
  }

  /** The layout that program_print uses. */
  function Standard(c: Command): Layout {
    Layout(" ", " ", " ", if c.size == WORD_SIZE then 8 else 2)
  }

  function AddressText(va: VirtAddr): string {
    "@0x" + (Hex(ToWord64(va), 16) + "\n")
  }

  function DataText(c: Command, digits: nat): string {
    "0x" + Hex(c.data, digits)
  }

  /** The word for what is accessed. */
  function TypeWord(kind: Access, size: nat): string {
    if kind.Data? then [TypeToChar(kind), SizeToChar(size)] else [TypeToChar(kind)]
  }

  function AfterType(c: Command, g: Layout): string {
    if c.order.WRITE? then DataText(c, g.digits) + (g.third + AddressText(c.va)) else AddressText(c.va)
  }

  function AfterOrder(c: Command, g: Layout): string {
    g.first + (TypeWord(c.kind, c.size) + (g.second + AfterType(c, g)))
  }

  /** A command written in a given layout. */
  function LayOut(c: Command, g: Layout): string {
    [OrderToChar(c.order)] + AfterOrder(c, g)
  }

  /** A line of program_print. */
  function PrintCommand(c: Command): string {
    LayOut(c, Standard(c))
  }

  function PrintProgram(listing: seq<Command>): string {
    if listing == [] then "" else PrintCommand(listing[0]) + PrintProgram(listing[1..])
  }

  /** The whole line of a command that reads. */
  lemma PrintedRead(c: Command)
    requires c.order.READ?
    ensures var line, address := PrintCommand(c), "@0x" + Hex(ToWord64(c.va), 16) + "\n";
            && (c.kind.Instruction? ==> line == "R I " + address)
            && (c.kind.Data? && c.size == 4 ==> line == "R DW " + address)
            && (c.kind.Data? && c.size == 1 ==> line == "R DB " + address)
  {
    var address := AddressText(c.va);
    ConcatAssociative("@0x", Hex(ToWord64(c.va), 16), "\n");
    assert PrintCommand(c) == "R" + (" " + (TypeWord(c.kind, c.size) + (" " + address)));
    ConcatAssociative(TypeWord(c.kind, c.size), " ", address);
    ConcatAssociative(" ", TypeWord(c.kind, c.size) + " ", address);
    ConcatAssociative("R", " " + (TypeWord(c.kind, c.size) + " "), address);
  }

  /** The whole line of a command that writes: data in 8 digits for words, and in 2, or in
      as many as it has, for bytes. */
  lemma PrintedWrite(c: Command)
    requires c.order.WRITE? && c.kind.Data?
    ensures var line, address := PrintCommand(c), "@0x" + Hex(ToWord64(c.va), 16) + "\n";
            && (c.size == 4 ==> line == "W DW 0x" + Hex(c.data, 8) + (" " + address))
            && (c.size == 1 ==> line == "W DB 0x" + Hex(c.data, 2) + (" " + address))
  {
    var address := AddressText(c.va);
    var t, digits := TypeWord(c.kind, c.size), Hex(c.data, if c.size == 4 then 8 else 2);
    ConcatAssociative("@0x", Hex(ToWord64(c.va), 16), "\n");
    assert PrintCommand(c) == "W" + (" " + (t + (" " + (("0x" + digits) + (" " + address)))));
    WriteWords(t, digits, " " + address);
    assert "W " + "DW" + " 0x" == "W DW 0x" && "W " + "DB" + " 0x" == "W DB 0x";
  }

  lemma WriteWords(t: string, digits: string, rest: string)
    ensures "W" + (" " + (t + (" " + (("0x" + digits) + rest)))) == ("W " + t + " 0x") + digits + rest
  {
    ConcatAssociative("0x", digits, rest);
    ConcatAssociative(" ", "0x", digits + rest);
    ConcatAssociative(t, " 0x", digits + rest);
    ConcatAssociative(" ", t + " 0x", digits + rest);
    ConcatAssociative("W", " " + (t + " 0x"), digits + rest);
    ConcatAssociative("W", " ", t + " 0x");
    ConcatAssociative("W ", t, " 0x");
    ConcatAssociative("W " + t + " 0x", digits, rest);
  }

  /** The body of program_print's loop: piece by piece, it writes the words of the command
      with single blanks between them. */
  method DoPrintCommand(command: Command) returns (line: string)
    ensures line == LayOut(command, Standard(command))
    ensures var address := "@0x" + Hex(ToWord64(command.va), 16) + "\n";
            && (command.order.READ? && command.kind.Instruction? ==> line == "R I " + address)
            && (command.order.READ? && command.kind.Data? && command.size == 4 ==> line == "R DW " + address)
            && (command.order.READ? && command.kind.Data? && command.size == 1 ==> line == "R DB " + address)
            && (command.order.WRITE? && command.kind.Data? && command.size == 4 ==>
                  line == "W DW 0x" + Hex(command.data, 8) + (" " + address))
            && (command.order.WRITE? && command.kind.Data? && command.size == 1 ==>
                  line == "W DB 0x" + Hex(command.data, 2) + (" " + address))
  {
    line := [OrderToChar(command.order)] + " ";
    line := line + [TypeToChar(command.kind)];
    if command.kind == Data {
      line := line + [SizeToChar(command.size)];
    }
    ghost var prefix, typed := [OrderToChar(command.order)] + " ", line;
    assert typed == prefix + TypeWord(command.kind, command.size);
    line := line + " ";
    if command.order == WRITE {
      if command.size == WORD_SIZE {
        line := line + ("0x" + Hex(command.data, 8) + " ");
      } else {
        line := line + ("0x" + Hex(command.data, 2) + " ");
      }
    }
    line := line + ("@0x" + Hex(ToWord64(command.va), 16) + "\n");
    PiecesAreLayOut(command, typed, line);
    if command.order.READ? {
      PrintedRead(command);
    } else if command.kind.Data? {
      PrintedWrite(command);
    }
  }

  lemma PiecesAreLayOut(c: Command, typed: string, line: string)
    requires typed == ([OrderToChar(c.order)] + " ") + TypeWord(c.kind, c.size)
    requires var data := "0x" + Hex(c.data, Standard(c).digits) + " ";
             var words := if c.order.WRITE? then (typed + " ") + data else typed + " ";
             line == words + ("@0x" + Hex(ToWord64(c.va), 16) + "\n")
    ensures line == LayOut(c, Standard(c))
  {
    var o, t, rest := [OrderToChar(c.order)], TypeWord(c.kind, c.size), AfterType(c, Standard(c));
    ConcatAssociative("@0x", Hex(ToWord64(c.va), 16), "\n");
    ConcatAssociative(DataText(c, Standard(c).digits), " ", AddressText(c.va));
    ConcatAssociative(typed + " ", DataText(c, Standard(c).digits) + " ", AddressText(c.va));
    assert line == (typed + " ") + rest;
    ConcatAssociative(typed, " ", rest);
    ConcatAssociative(o + " ", t, " " + rest);
    ConcatAssociative(o, " ", t + (" " + rest));
  }

  /** program_print */
  method DoPrintProgram(listing: seq<Command>) returns (output: string)
    ensures output == PrintProgram(listing)
  {
    output := "";
    for i := 0 to |listing|
      invariant output + PrintProgram(listing[i..]) == PrintProgram(listing)
    {
      var line := DoPrintCommand(listing[i]);
      assert listing[i..][1..] == listing[i + 1..];
      ConcatAssociative(output, line, PrintProgram(listing[i + 1..]));
      output := output + line;
    }
  }
}
