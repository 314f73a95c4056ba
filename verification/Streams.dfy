/** The C stream a program is read from: a text, a cursor and an end-of-file flag.

    A C `char` is a Dafny `char` below 256. Reading past the end yields (char) EOF, which
    is the character 0xFF, so that ungetc cannot tell a byte 0xFF from the end. */
module Streams {

  const EOF_CHAR: char := '\U{FF}'

  /** A stream as a value: what is left to read, and the flag. */
  datatype Input = Input(rest: string, eof: bool)

  /** fgetc */
  function Getc(i: Input): (char, Input) {
    if i.rest == "" then (EOF_CHAR, Input("", true)) else (i.rest[0], Input(i.rest[1..], i.eof))
  }

  /** ungetc: pushing back EOF does nothing; anything else clears the flag. */
  function Unget(c: char, i: Input): Input {
    if c == EOF_CHAR then i else Input([c] + i.rest, false)
  }

  /** isspace, in the C locale. */
  predicate IsSpace(c: char) {
    c == ' ' || c == '\t' || c == '\n' || c == '\U{0B}' || c == '\U{0C}' || c == '\r'
  }

  class File {
    const text: string
    var pos: nat
    var eof: bool

    ghost predicate Valid()
      reads this
    {
      pos <= |text|
    }

    ghost function Rest(): Input
      requires Valid()
      reads this
    {
      Input(text[pos..], eof)
    }

    /** fopen, on a file with this text. */
    constructor (text: string)
      ensures Valid() && Rest() == Input(text, false)
      ensures this.text == text && pos == 0 && !eof
    {
      this.text := text;
      pos := 0;
      eof := false;
    }

    method Fgetc() returns (c: char)
      requires Valid()
      modifies this
      ensures Valid() && (c, Rest()) == Getc(old(Rest()))
      ensures c != EOF_CHAR ==> pos > 0 && text[pos - 1] == c
      ensures if old(pos) < |text| then c == text[old(pos)] && pos == old(pos) + 1 && eof == old(eof)
              else c == '\U{FF}' && pos == old(pos) && eof
    {
      if pos == |text| {
        eof := true;
        c := EOF_CHAR;
      } else {
        c := text[pos];
        pos := pos + 1;
      }
    }

    /** ungetc, of the character read last. */
    method Ungetc(c: char)
      requires Valid() && (c != EOF_CHAR ==> pos > 0 && text[pos - 1] == c)
      modifies this
      ensures Valid() && Rest() == Unget(c, old(Rest()))
      ensures if c == '\U{FF}' then pos == old(pos) && eof == old(eof) else pos == old(pos) - 1 && !eof
    {
      if c != EOF_CHAR {
        pos := pos - 1;
        eof := false;
      }
    }
  }
}
