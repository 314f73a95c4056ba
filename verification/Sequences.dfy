/** Small things about sequences that several components share. */
module Sequences {

  /** All but the last element. */
  function Init<T>(t: seq<T>): seq<T>
    requires t != []
  {
    t[..|t| - 1]
  }

  function Last<T>(t: seq<T>): T
    requires t != []
  {
    t[|t| - 1]
  }

  lemma SliceOfRest<T>(s: seq<T>, i: nat, n: nat)
    requires i + n <= |s|
    ensures s[i..][..n] == s[i..i + n] && s[i..][n..] == s[i + n..]
  {
  }

  /** The solver is slow to see this among other terms. */
  lemma ConcatAssociative<T>(a: seq<T>, b: seq<T>, c: seq<T>)
    ensures (a + b) + c == a + (b + c)
  {
  }
}
