/** The text of a list of numbers as print_list writes it (list.c). */
module ListText {

  function DigitChar(d: nat): char
    requires d < 10
  {
    ('0' as int + d) as char
  }

  /** printf's %u */
  function Decimal(n: nat): (s: string)
    ensures s != ""
  {
    if n < 10 then [DigitChar(n)] else Decimal(n / 10) + [DigitChar(n % 10)]
  }

  /** The values, each with what follows it: a comma and a blank, or the closing
      parenthesis. There is no parenthesis if there are no values. */
  function Items(values: seq<nat>): string {
    if values == [] then ""
    else Decimal(values[0]) + ((if |values| == 1 then ")" else ", ") + Items(values[1..]))
  }

  function Text(values: seq<nat>): string {
    "(" + Items(values)
  }

  /** The digits of a number: the last one is its remainder by ten. */
  lemma DecimalDigits(n: nat)
    ensures var s := Decimal(n);
            && s[|s| - 1] as int == 48 + n % 10
            && s[..|s| - 1] == if n < 10 then "" else Decimal(n / 10)
  {
  }

  /** Parentheses around the numbers, and a comma and a blank between any two. An empty
      list is not closed. */
  lemma TextPieces(v: nat, rest: seq<nat>)
    ensures Text([]) == "(" && Text([v]) == "(" + Decimal(v) + ")"
    ensures rest != [] ==> Text([v] + rest) == "(" + Decimal(v) + ", " + Text(rest)[1..]
  {
    assert [v][1..] == [] && ([v] + rest)[1..] == rest;
    assert Text(rest)[1..] == Items(rest);
    assert Items([v]) == Decimal(v) + (")" + "");
  }

  // --------------------------------------------------------- the text gives the values

  predicate IsDigit(c: char) {
    '0' <= c <= '9'
  }

  function Value(s: string): int {
    if s == "" then 0 else Value(s[..|s| - 1]) * 10 + (s[|s| - 1] as int - '0' as int)
  }

  lemma {:induction false} DecimalReads(n: nat)
    ensures Value(Decimal(n)) == n
    ensures forall i :: 0 <= i < |Decimal(n)| ==> IsDigit(Decimal(n)[i])
  {
    if n >= 10 {
      DecimalReads(n / 10);
      assert Decimal(n)[..|Decimal(n)| - 1] == Decimal(n / 10);
    } else {
      assert Decimal(n)[..0] == "";
    }
  }

  /** How many digits a text starts with. */
  function Digits(s: string): nat {
    if s == "" || !IsDigit(s[0]) then 0 else 1 + Digits(s[1..])
  }

  lemma {:induction false} DigitsBefore(digits: string, s: string)
    requires forall i :: 0 <= i < |digits| ==> IsDigit(digits[i])
    requires s != "" && !IsDigit(s[0])
    ensures Digits(digits + s) == |digits|
  {
    if digits == "" {
      assert digits + s == s;
    } else {
      assert (digits + s)[1..] == digits[1..] + s;
      DigitsBefore(digits[1..], s);
    }
  }

  /** A number ends where its digits end. */
  lemma NumbersAlike(m: nat, n: nat, s: string, t: string)
    requires s != "" && !IsDigit(s[0]) && t != "" && !IsDigit(t[0])
    requires Decimal(m) + s == Decimal(n) + t
    ensures m == n && s == t
  {
    DecimalReads(m);
    DecimalReads(n);
    DigitsBefore(Decimal(m), s);
    DigitsBefore(Decimal(n), t);
    var k := |Decimal(m)|;
    assert Decimal(m) == (Decimal(m) + s)[..k] && Decimal(n) == (Decimal(n) + t)[..k];
    assert s == (Decimal(m) + s)[k..] && t == (Decimal(n) + t)[k..];
  }

  lemma {:induction false} ItemsInjective(a: seq<nat>, b: seq<nat>)
    requires Items(a) == Items(b)
    ensures a == b
  {
    if a != [] && b != [] {
      var s := (if |a| == 1 then ")" else ", ") + Items(a[1..]);
      var t := (if |b| == 1 then ")" else ", ") + Items(b[1..]);
      NumbersAlike(a[0], b[0], s, t);
      assert |a| > 1 ==> s[0] == ',' && s[2..] == Items(a[1..]);
      assert |b| > 1 ==> t[0] == ',' && t[2..] == Items(b[1..]);
      assert |a| == 1 <==> |b| == 1;
      if |a| > 1 {
        ItemsInjective(a[1..], b[1..]);
      }
      assert a == [a[0]] + a[1..] && b == [b[0]] + b[1..];
    }
  }

  /** Lists that print alike hold the same values in the same order. */
  lemma TextInjective(a: seq<nat>, b: seq<nat>)
    requires Text(a) == Text(b)
    ensures a == b
  {
    assert Items(a) == Text(a)[1..] && Items(b) == Text(b)[1..];
    ItemsInjective(a, b);
  }
}
