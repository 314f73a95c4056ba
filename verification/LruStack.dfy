/** The abstract least-recently-used stack: the pages accessed, most recent first, cut
    to the number of lines. It knows nothing of TLB lines or list nodes. */
module LruStack {
  import opened Sequences

  function Distinct<T>(s: seq<T>): set<T> {
    set x | x in s
  }

  ghost predicate NoRepeats<T>(s: seq<T>) {
    s == [] || (s[0] !in s[1..] && NoRepeats(s[1..]))
  }

  function Take<T>(s: seq<T>, n: nat): seq<T> {
    if |s| <= n then s else s[..n]
  }

  function Remove<T(==)>(s: seq<T>, v: T): seq<T> {
    if s == [] then [] else (if s[0] == v then [] else [s[0]]) + Remove(s[1..], v)
  }

  function Without<T(==)>(s: seq<T>, gone: seq<T>): seq<T> {
    if s == [] then [] else (if s[0] in gone then [] else [s[0]]) + Without(s[1..], gone)
  }

  /** One access to a stack of at most `n` pages. */
  function Access<T(==)>(stack: seq<T>, v: T, n: nat): seq<T> {
    Take([v] + Remove(stack, v), n)
  }

  /** The distinct pages of a trace, most recent first. */
  function Recent<T(==)>(t: seq<T>): seq<T> {
    if t == [] then [] else [Last(t)] + Remove(Recent(Init(t)), Last(t))
  }

  /** What a stack of `n` pages holds after a trace. */
  function Held<T(==)>(t: seq<T>, n: nat): seq<T> {
    Take(Recent(t), n)
  }

  /** The distinct pages of a trace, in the order of their first accesses. */
  function FirstSeen<T(==)>(t: seq<T>): seq<T> {
    if t == [] then []
    else if Last(t) in Init(t) then FirstSeen(Init(t))
    else FirstSeen(Init(t)) + [Last(t)]
  }

  lemma {:induction false} FirstSeenPages<T>(t: seq<T>)
    ensures forall x :: x in FirstSeen(t) <==> x in t
    ensures |FirstSeen(t)| == |Distinct(t)|
  {
    if t != [] {
      FirstSeenPages(Init(t));
      DistinctGrows(t);
      assert t == Init(t) + [Last(t)];
    }
  }

  // ------------------------------------------------------------------ removing pages

  lemma {:induction false} RemoveMembers<T>(s: seq<T>, v: T)
    ensures forall x :: x in Remove(s, v) <==> x in s && x != v
  {
    if s != [] {
      RemoveMembers(s[1..], v);
    }
  }

  lemma {:induction false} RemoveAbsent<T>(s: seq<T>, v: T)
    requires v !in s
    ensures Remove(s, v) == s
  {
    if s != [] {
      RemoveAbsent(s[1..], v);
    }
  }

  lemma {:induction false} RemoveKeepsNoRepeats<T>(s: seq<T>, v: T)
    requires NoRepeats(s)
    ensures NoRepeats(Remove(s, v))
  {
    if s != [] {
      RemoveMembers(s[1..], v);
      RemoveKeepsNoRepeats(s[1..], v);
      var rest := Remove(s[1..], v);
      assert [] + rest == rest && ([s[0]] + rest)[1..] == rest;
    }
  }

  lemma {:induction false} RemoveConcat<T>(a: seq<T>, b: seq<T>, v: T)
    ensures Remove(a + b, v) == Remove(a, v) + Remove(b, v)
  {
    if a == [] {
      assert a + b == b;
    } else {
      RemoveConcat(a[1..], b, v);
      RemoveConsConcat(a[0], a[1..], b, v);
      assert a == [a[0]] + a[1..];
    }
  }

  lemma RemoveConsConcat<T>(x: T, a: seq<T>, b: seq<T>, v: T)
    requires Remove(a + b, v) == Remove(a, v) + Remove(b, v)
    ensures Remove([x] + a + b, v) == Remove([x] + a, v) + Remove(b, v)
  {
    RemoveCons(x, a + b, v);
    RemoveCons(x, a, v);
    ConcatAssociative([x], a, b);
    ConcatAssociative([x], Remove(a, v), Remove(b, v));
  }

  /** Cutting the stack before an access or after it makes no difference. */
  lemma {:induction false} RemoveTake<T>(s: seq<T>, v: T, n: nat)
    requires NoRepeats(s)
    ensures Take(Remove(Take(s, n + 1), v), n) == Take(Remove(s, v), n)
  {
    if s != [] {
      TakeCons(s[0], s[1..], n + 1);
      assert s == [s[0]] + s[1..];
      RemoveCons(s[0], s[1..], v);
      RemoveCons(s[0], Take(s[1..], n), v);
      if s[0] == v {
        RemoveAbsent(s[1..], v);
        RemoveAbsent(Take(s[1..], n), v);
      } else if n > 0 {
        RemoveTake(s[1..], v, n - 1);
        TakeCons(s[0], Remove(s[1..], v), n);
        TakeCons(s[0], Remove(Take(s[1..], n), v), n);
      }
    }
  }

  lemma TakeCons<T>(x: T, s: seq<T>, n: nat)
    requires n > 0
    ensures Take([x] + s, n) == [x] + Take(s, n - 1)
  {
  }

  lemma RemoveCons<T>(x: T, s: seq<T>, v: T)
    ensures Remove([x] + s, v) == if x == v then Remove(s, v) else [x] + Remove(s, v)
  {
    assert ([x] + s)[1..] == s;
  }

  // -------------------------------------------------------------------- recent pages

  lemma {:induction false} RecentPages<T>(t: seq<T>)
    ensures NoRepeats(Recent(t))
    ensures forall x :: x in Recent(t) <==> x in t
  {
    if t != [] {
      RecentPages(Init(t));
      RemoveKeepsNoRepeats(Recent(Init(t)), Last(t));
      RemoveMembers(Recent(Init(t)), Last(t));
      assert t == Init(t) + [Last(t)];
      assert Recent(t)[1..] == Remove(Recent(Init(t)), Last(t));
    }
  }

  /** A stack that is cut at every access holds the first `n` recent pages. */
  lemma AccessHeld<T>(t: seq<T>, v: T, n: nat)
    requires n > 0
    ensures Access(Held(t, n), v, n) == Held(t + [v], n)
  {
    RecentPages(t);
    RemoveTake(Recent(t), v, n - 1);
    assert Init(t + [v]) == t;
    var kept, all := Remove(Held(t, n), v), Remove(Recent(t), v);
    TakeCons(v, kept, n);
    TakeCons(v, all, n);
  }

  lemma {:induction false} NoRepeatsSize<T>(s: seq<T>)
    requires NoRepeats(s)
    ensures |Distinct(s)| == |s|
  {
    if s != [] {
      NoRepeatsSize(s[1..]);
      assert Distinct(s) == {s[0]} + Distinct(s[1..]);
    }
  }

  lemma {:induction false} WithoutMore<T>(s: seq<T>, gone: seq<T>, v: T)
    ensures Without(s, gone + [v]) == Remove(Without(s, gone), v)
  {
    if s != [] {
      WithoutMore(s[1..], gone, v);
      RemoveConcat(if s[0] in gone then [] else [s[0]], Without(s[1..], gone), v);
    }
  }

  lemma {:induction false} WithoutNone<T>(s: seq<T>)
    ensures Without(s, []) == s
  {
    if s != [] {
      WithoutNone(s[1..]);
    }
  }

  /** Later pages come first; earlier ones follow unless they were accessed again. */
  lemma {:induction false} RecentConcat<T>(a: seq<T>, b: seq<T>)
    ensures Recent(a + b) == Recent(b) + Without(Recent(a), b)
  {
    if b == [] {
      WithoutNone(Recent(a));
      assert a + b == a;
    } else {
      RecentConcat(a, Init(b));
      assert Init(a + b) == a + Init(b) && b == Init(b) + [Last(b)];
      WithoutMore(Recent(a), Init(b), Last(b));
      RemoveConcat(Recent(Init(b)), Without(Recent(a), Init(b)), Last(b));
    }
  }

  /** `k` is the last access to `v`. */
  ghost predicate LastAccess<T>(t: seq<T>, v: T, k: nat) {
    k < |t| && t[k] == v && v !in t[k + 1..]
  }

  lemma LastAccessExists<T>(t: seq<T>, v: T) returns (k: nat)
    requires v in t
    ensures LastAccess(t, v, k)
  {
    k := |t| - 1;
    while t[k] != v
      invariant k < |t| && v !in t[k + 1..]
      invariant v in t[..k + 1]
      decreases k
    {
      assert t[k..] == [t[k]] + t[k + 1..] && t[..k + 1] == t[..k] + [t[k]];
      k := k - 1;
    }
  }

  /** How deep a page lies is the number of other pages accessed since. */
  lemma Depth<T>(t: seq<T>, v: T, k: nat)
    requires LastAccess(t, v, k)
    ensures var d := |Distinct(t[k + 1..])|; d < |Recent(t)| && Recent(t)[d] == v
  {
    var a, b := t[..k], t[k + 1..];
    assert t == a + [v] + b;
    RecentConcat(a + [v], b);
    RecentPages(b);
    NoRepeatsSize(Recent(b));
    assert Distinct(Recent(b)) == Distinct(b);
    assert Init(a + [v]) == a;
    assert Without(Recent(a + [v]), b)[0] == v;
  }

  /** A page is held exactly when it was accessed and fewer than `n` distinct other pages
      were accessed since. */
  lemma HeldExactly<T>(t: seq<T>, v: T, n: nat)
    ensures v in Held(t, n) <==> exists k: nat :: LastAccess(t, v, k) && |Distinct(t[k + 1..])| < n
  {
    RecentPages(t);
    if v in t {
      var k := LastAccessExists(t, v);
      HeldAtDepth(t, v, k, n);
      OnlyLastAccess(t, v, k);
    }
  }

  lemma HeldAtDepth<T>(t: seq<T>, v: T, k: nat, n: nat)
    requires LastAccess(t, v, k)
    ensures v in Held(t, n) <==> |Distinct(t[k + 1..])| < n
  {
    RecentPages(t);
    Depth(t, v, k);
    HeldWithin(Recent(t), |Distinct(t[k + 1..])|, n);
  }

  lemma DropMembers<T>(t: seq<T>)
    ensures forall i, j :: 0 <= i <= j < |t| ==> t[j] in t[i..]
  {
    forall i, j | 0 <= i <= j < |t|
      ensures t[j] in t[i..]
    {
      assert t[i..][j - i] == t[j];
    }
  }

  lemma OnlyLastAccess<T>(t: seq<T>, v: T, k: nat)
    requires LastAccess(t, v, k)
    ensures forall j: nat :: LastAccess(t, v, j) ==> j == k
  {
    DropMembers(t);
  }

  /** Without repeats, a cut keeps an element exactly when it lies before the cut. */
  lemma {:induction false} HeldWithin<T>(s: seq<T>, i: nat, n: nat)
    requires NoRepeats(s) && i < |s|
    ensures s[i] in Take(s, n) <==> i < n
  {
    if n > 0 {
      assert Take(s, n) == [s[0]] + Take(s[1..], n - 1);
      if i > 0 {
        HeldWithin(s[1..], i - 1, n - 1);
      }
    }
  }

  /** The stack property: what fewer lines hold, more lines hold. */
  lemma StackProperty<T>(t: seq<T>, n: nat, m: nat)
    requires n <= m
    ensures Held(t, n) <= Held(t, m)
  {
  }

  /** Nothing is ever dropped while the distinct pages fit. */
  lemma WithinCapacity<T>(t: seq<T>, v: T, n: nat)
    requires |Distinct(t)| <= n
    ensures v in Held(t, n) <==> v in t
  {
    RecentPages(t);
    NoRepeatsSize(Recent(t));
    assert Distinct(Recent(t)) == Distinct(t);
  }

  // -------------------------------------------------------------------------- misses

  /** The number of misses in the stretch `u` of a run, after the trace `t`. */
  function Misses<T(==)>(t: seq<T>, u: seq<T>, n: nat): nat {
    if u == [] then 0
    else Misses(t, Init(u), n) + if Last(u) in Held(t + Init(u), n) then 0 else 1
  }

  /** Whatever came before, a stretch holds what it would hold from an empty stack. */
  lemma WarmHolds<T>(t: seq<T>, u: seq<T>, v: T, n: nat)
    requires v in Held(u, n)
    ensures v in Held(t + u, n)
  {
    HeldExactly(u, v, n);
    var j: nat :| LastAccess(u, v, j) && |Distinct(u[j + 1..])| < n;
    assert (t + u)[|t| + j + 1..] == u[j + 1..];
    assert LastAccess(t + u, v, |t| + j);
    HeldExactly(t + u, v, n);
  }

  /** A warm start never misses more than a cold one, over any stretch. */
  lemma {:induction false} WarmMissesLess<T>(t: seq<T>, u: seq<T>, n: nat)
    ensures Misses(t, u, n) <= Misses([], u, n)
  {
    if u != [] {
      WarmMissesLess(t, Init(u), n);
      assert [] + Init(u) == Init(u);
      if Last(u) in Held(Init(u), n) {
        WarmHolds(t, Init(u), Last(u), n);
      }
    }
  }

  /** In a stretch of at most `n` distinct pages, a page accessed before in the stretch
      is a hit, whatever came before the stretch. */
  lemma RepeatHits<T>(t: seq<T>, u: seq<T>, i: nat, n: nat)
    requires i < |u| && u[i] in u[..i] && |Distinct(u)| <= n
    ensures u[i] in Held(t + u[..i], n)
  {
    Smaller(Distinct(u[..i]), Distinct(u));
    WithinCapacity(u[..i], u[i], n);
    WarmHolds(t, u[..i], u[i], n);
  }

  lemma {:induction false} Smaller<T>(a: set<T>, b: set<T>)
    requires a <= b
    ensures |a| <= |b|
  {
    assert b == a + (b - a);
  }

  /** The distinct pages grow by one exactly when the last page is new. */
  lemma DistinctGrows<T>(u: seq<T>)
    requires u != []
    ensures |Distinct(u)| == |Distinct(Init(u))| + if Last(u) in Init(u) then 0 else 1
  {
    assert u == Init(u) + [Last(u)];
    assert Distinct(u) == Distinct(Init(u)) + {Last(u)};
    if Last(u) in Init(u) {
      assert Distinct(u) == Distinct(Init(u));
    }
  }

  /** From an empty stack, the first access to a page always misses; so there are at least
      as many misses as distinct pages, and exactly as many while these fit. */
  lemma {:induction false} ColdMisses<T>(u: seq<T>, n: nat)
    ensures Misses([], u, n) >= |Distinct(u)|
    ensures |Distinct(u)| <= n ==> Misses([], u, n) == |Distinct(u)|
  {
    if u != [] {
      assert [] + Init(u) == Init(u);
      DistinctGrows(u);
      ColdMisses(Init(u), n);
      RecentPages(Init(u));
      if |Distinct(u)| <= n {
        WithinCapacity(Init(u), Last(u), n);
      }
    }
  }

  /** So a stretch of at most `n` distinct pages misses at most once per page. */
  lemma MissBound<T>(t: seq<T>, u: seq<T>, n: nat)
    requires |Distinct(u)| <= n
    ensures Misses(t, u, n) <= |Distinct(u)|
  {
    WarmMissesLess(t, u, n);
    ColdMisses(u, n);
  }
}
