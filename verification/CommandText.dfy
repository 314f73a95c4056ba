/** The text of programs letter by letter: what program_print writes (commands.c), and what
    the words that program_read accepts look like. */
module CommandText {
  import opened Addresses
  import opened Streams
  import opened Commands
  import opened CommandGrammar
  import opened CommandsRoundTrip

  // ------------------------------------------------------------------ characters

  /** The sixteen digits that are read, and what the error code makes of all others. */
  lemma HexDigitValues(c: char)
    ensures forall d :: 0 <= d < 16 ==> HexDigit("0123456789ABCDEF"[d]) == d
    ensures c !in "0123456789ABCDEF" ==> HexDigit(c) == 3
  {
    var digits := "0123456789ABCDEF";
    assert forall d :: 0 <= d < 10 ==> digits[d] as int == '0' as int + d;
    assert forall d :: 10 <= d < 16 ==> digits[d] as int == 'A' as int + d - 10;
    if '0' <= c <= '9' {
      assert digits[c as int - '0' as int] == c;
    } else if 'A' <= c <= 'F' {
      assert digits[c as int - 'A' as int + 10] == c;
    }
  }

  /** The blanks are the characters 9 to 13 and 32. */
  lemma BlankCodes(c: char)
    ensures IsSpace(c) <==> 9 <= c as int <= 13 || c as int == 32
  {
  }

  // ------------------------------------------------------------------ hexadecimal

  lemma QuotientInSteps(v: nat, p: nat)
    requires p > 0
    ensures v / 16 / p == v / (16 * p)
  {
    var q, r := v / 16 / p, v / 16 % p;
    assert v / 16 == q * p + r;
    assert v == q * (16 * p) + (16 * r + v % 16);
    Quotient(v, 16 * p, q, 16 * r + v % 16);
  }

  lemma {:induction false} Pow16Positive(n: nat)
    ensures Pow16(n) > 0
  {
    if n > 0 {
      Pow16Positive(n - 1);
    }
  }

  /** Each character of a printed number is the digit of its place. */
  lemma {:induction false} HexAt(v: nat, width: nat, k: nat)
    requires k < |Hex(v, width)|
    ensures Pow16(|Hex(v, width)| - 1 - k) > 0
    ensures Hex(v, width)[k] == "0123456789ABCDEF"[v / Pow16(|Hex(v, width)| - 1 - k) % 16]
    decreases v, width
  {
    var place := |Hex(v, width)| - 1 - k;
    Pow16Positive(place);
    if place > 0 {
      HexAt(v / 16, if width > 0 then width - 1 else 0, k);
      QuotientInSteps(v, Pow16(place - 1));
    } else {
      HexCharAt(v % 16);
    }
  }

  lemma HexCharAt(d: nat)
    requires d < 16
    ensures HexChar(d) == "0123456789ABCDEF"[d]
  {
    HexDigitValues('0');
  }

  /** A number is printed in the least digits that hold it, and no fewer than `width`. */
  lemma {:induction false} HexLengthExactly(v: nat, width: nat)
    ensures var n := |Hex(v, width)|;
            && n >= width && v < Pow16(n) && (n > width ==> v >= Pow16(n - 1))
    decreases v, width
  {
    if v != 0 || width != 0 {
      HexLengthExactly(v / 16, if width > 0 then width - 1 else 0);
    }
  }

  // ------------------------------------------------------------------ printed lines

  /** So words are printed in lines of one length, and bytes too unless they hold more. */
  lemma PrintedLength(c: Command)
    ensures c.order.READ? && c.kind.Instruction? ==> |PrintCommand(c)| == 24
    ensures c.order.READ? && c.kind.Data? && (c.size == 4 || c.size == 1) ==> |PrintCommand(c)| == 25
    ensures c.order.WRITE? && c.kind.Data? && c.size == 4 ==> |PrintCommand(c)| == 36
    ensures c.order.WRITE? && c.kind.Data? && c.size == 1 ==>
              && |PrintCommand(c)| == 28 + |Hex(c.data, 2)| && (c.data < 0x100 ==> |Hex(c.data, 2)| == 2)
  {
    Pow16Values();
    HexLength(ToWord64(c.va), 16, 16);
    HexLength(c.data, 8, 8);
    assert Pow16(2) == 0x100;
    if c.data < 0x100 {
      HexLength(c.data, 2, 2);
    }
    if c.order.READ? {
      PrintedRead(c);
    } else if c.kind.Data? {
      PrintedWrite(c);
    }
  }

  // ------------------------------------------------------------------ accepted lines

  lemma GapText(g: Gap, s: string)
    ensures g.On(s) == g.blanks + (if g.lost then "\U{FF}" else "") + s
  {
  }

  /** The words of an accepted line, and the command they mean. */
  lemma LineText(line: Line, s: string)
    requires line.Valid()
    ensures var word := if line.kind.Instruction? then "I" else if line.size == 4 then "DW" else "DB";
            var address := "@0x" + (line.address + ("\n" + s));
            line.TextOn(s)
            == if line.order.READ? then "R" + line.first.On(word + line.second.On(address))
               else "W" + line.first.On(word + line.second.On("0x" + (line.data + line.third.On(address))))
    ensures line.size == 4 || (line.size == 1 && line.kind.Data?)
    ensures |line.address| == 16 && (line.order.WRITE? ==> line.kind.Data? && |line.data| <= 8)
    ensures var c := line.Meaning();
            && c.order == line.order && c.kind == line.kind && c.size == line.size
            && c.data == (if line.order.WRITE? then DataOf(line.data) else 0) && c.va == AddressOf(line.address)
  {
  }

  /** Digits stand for the numbers that are printed so. */
  lemma DigitsMean(data: Word, width: nat, x: Word64)
    requires width <= 8
    ensures |Hex(data, width)| <= 8 && DataOf(Hex(data, width)) == data
    ensures |Hex(x, 16)| == 16 && AddressOf(Hex(x, 16)) == FromWord64(x)
  {
    Pow16Values();
    HexLength(data, width, 8);
    HexLength(x, 16, 16);
    FoldOfHex(data, width, TWO_32);
    FoldOfHex(x, 16, TWO_64);
  }
}
