/** `fyshuffle`. The random numbers are a parameter: `draws[n]` is the index drawn when n elements are left. */
module Shuffle {

  ghost predicate Draws(draws: seq<nat>, len: nat) {
    |draws| > len && forall n | 1 < n <= len :: draws[n] < n
  }

  function Swapped<T>(s: seq<T>, i: nat, j: nat): (r: seq<T>)
    requires i < |s| && j < |s|
    ensures |r| == |s| && multiset(r) == multiset(s)
  {
    s[i := s[j]][j := s[i]]
  }

  /** What is left to do with the first n elements. */
  function Shuffled(s: seq<int>, n: nat, draws: seq<nat>): (r: seq<int>)
    requires n <= |s| && Draws(draws, n)
    ensures |r| == |s| && multiset(r) == multiset(s)
    decreases n
  {
    if n <= 1 then s else Shuffled(Swapped(s, n - 1, draws[n]), n - 1, draws)
  }

  lemma ShuffleStep(s: seq<int>, n: nat, draws: seq<nat>)
    requires n <= |s| && Draws(draws, n)
    ensures Shuffled(s, n, draws)
         == if n <= 1 then s else Shuffled(Swapped(s, n - 1, draws[n]), n - 1, draws)
  {
  }

  method FyShuffle(a: array<int>, draws: seq<nat>)
    requires Draws(draws, a.Length)
    modifies a
    ensures a[..] == Shuffled(old(a[..]), a.Length, draws)
    ensures multiset(a[..]) == multiset(old(a[..]))
  {
    var n := a.Length;
    while n > 1
      invariant 0 <= n <= a.Length
      invariant Draws(draws, n) && Shuffled(a[..], n, draws) == Shuffled(old(a[..]), a.Length, draws)
    {
      ghost var before := a[..];
      var r := draws[n];
      n := n - 1;
      a[n], a[r] := a[r], a[n];
      assert a[..] == Swapped(before, n, r);
    }
  }

  lemma {:induction false} SameDraws(s: seq<int>, n: nat, d: seq<nat>, e: seq<nat>)
    requires n <= |s| && Draws(d, n) && Draws(e, n) && d[..n + 1] == e[..n + 1]
    ensures Shuffled(s, n, d) == Shuffled(s, n, e)
    decreases n
  {
    if n > 1 {
      assert d[n] == d[..n + 1][n] && e[n] == e[..n + 1][n];
      assert d[..n] == d[..n + 1][..n] && e[..n] == e[..n + 1][..n];
      SameDraws(Swapped(s, n - 1, d[n]), n - 1, d, e);
    }
  }

  /** Where the element that p wants last is now, and what the swap leaves to do. */
  lemma Fetch(s: seq<int>, p: seq<int>) returns (r: nat)
    requires s != [] && |s| == |p| && multiset(s) == multiset(p)
    ensures r < |s| && s[r] == p[|p| - 1]
    ensures multiset(Swapped(s, |s| - 1, r)[..|s| - 1]) == multiset(p[..|p| - 1])
  {
    r := Place(s, p);
    var n := |s| - 1;
    var t := Swapped(s, n, r);
    SameInit(t, p);
  }

  lemma SameInit(s: seq<int>, t: seq<int>)
    requires s != [] && |s| == |t| && s[|s| - 1] == t[|t| - 1] && multiset(s) == multiset(t)
    ensures multiset(s[..|s| - 1]) == multiset(t[..|t| - 1])
  {
    WithoutLast(s);
    WithoutLast(t);
  }

  lemma Place(s: seq<int>, p: seq<int>) returns (r: nat)
    requires p != [] && multiset(s) == multiset(p)
    ensures r < |s| && s[r] == p[|p| - 1]
  {
    assert p[|p| - 1] in multiset(s);
    assert p[|p| - 1] in s;
    r :| 0 <= r < |s| && s[r] == p[|p| - 1];
  }

  lemma WithoutLast(s: seq<int>)
    requires s != []
    ensures multiset(s[..|s| - 1]) == multiset(s) - multiset{s[|s| - 1]}
  {
    assert s == s[..|s| - 1] + [s[|s| - 1]];
  }

  lemma FetchPrefix(s: seq<int>, p: seq<int>, n: nat) returns (r: nat)
    requires 1 <= n <= |s| == |p| && s[n..] == p[n..] && multiset(s[..n]) == multiset(p[..n])
    ensures r < n
    ensures Swapped(s, n - 1, r)[n - 1..] == p[n - 1..]
    ensures multiset(Swapped(s, n - 1, r)[..n - 1]) == multiset(p[..n - 1])
  {
    r := Fetch(s[..n], p[..n]);
    var t := Swapped(s, n - 1, r);
    assert t[..n - 1] == Swapped(s[..n], n - 1, r)[..n - 1];
    assert p[..n][..n - 1] == p[..n - 1];
    assert p[n - 1..] == [p[n - 1]] + p[n..];
    assert t[n - 1..] == [t[n - 1]] + s[n..];
  }

  /** Every order can come out, so what depends on the order does depend on chance. */
  lemma {:induction false} EveryOrder(s: seq<int>, p: seq<int>, n: nat) returns (draws: seq<nat>)
    requires n <= |s| == |p| && s[n..] == p[n..] && multiset(s[..n]) == multiset(p[..n])
    ensures Draws(draws, n) && |draws| == n + 1 && Shuffled(s, n, draws) == p
    decreases n
  {
    hide Shuffled, Swapped;
    if n <= 1 {
      draws := seq(n + 1, _ => 0);
      Single(s, p, n);
      ShuffleStep(s, n, draws);
    } else {
      var r := FetchPrefix(s, p, n);
      var t := Swapped(s, n - 1, r);
      var rest := EveryOrder(t, p, n - 1);
      draws := rest + [r];
      assert draws[..n] == rest[..n];
      SameDraws(t, n - 1, draws, rest);
      ShuffleStep(s, n, draws);
    }
  }

  lemma Single(s: seq<int>, p: seq<int>, n: nat)
    requires n <= 1 && n <= |s| == |p| && s[n..] == p[n..] && multiset(s[..n]) == multiset(p[..n])
    ensures s == p
  {
    if n == 1 {
      assert s[..1] == [s[0]] && p[..1] == [p[0]];
      assert s[0] in multiset(p[..1]);
    }
    assert s == s[..n] + s[n..] && p == p[..n] + p[n..];
  }

  // ---- orders of the numbers below n ----

  function Identity(n: nat): seq<int> {
    seq(n, i => i)
  }

  predicate Permutes(order: seq<int>, n: nat) {
    multiset(order) == multiset(Identity(n))
  }

  lemma PermutesMembers(order: seq<int>, n: nat)
    requires Permutes(order, n)
    ensures |order| == n && forall i :: i in order <==> 0 <= i < n
  {
    var id := Identity(n);
    assert |multiset(order)| == |multiset(id)|;
    forall i ensures i in order <==> 0 <= i < n {
      assert i in multiset(order) <==> i in multiset(id);
      assert i in id <==> 0 <= i < n by {
        if 0 <= i < n {
          assert id[i] == i;
        }
      }
    }
  }

  lemma {:induction false} IdentityOnce(n: nat, x: int)
    ensures multiset(Identity(n))[x] == if 0 <= x < n then 1 else 0
  {
    if n > 0 {
      IdentityOnce(n - 1, x);
      assert Identity(n) == Identity(n - 1) + [n - 1];
    }
  }
}
