/** Laws about duplicate-free lists, permutations and sums, shared by the two fan-out protocols. */
module Sequences {

  ghost predicate Distinct<T(!new)>(s: seq<T>) {
    forall i, j | 0 <= i < j < |s| :: s[i] != s[j]
  }

  function Map<A, B>(f: A -> B, s: seq<A>): (r: seq<B>)
    ensures |r| == |s| && forall i | 0 <= i < |s| :: r[i] == f(s[i])
  {
    seq(|s|, i requires 0 <= i < |s| => f(s[i]))
  }

  function Sum(s: seq<nat>): nat {
    if s == [] then 0 else s[0] + Sum(s[1..])
  }

  lemma {:induction false} SumUpdate(s: seq<nat>, i: nat, x: nat)
    requires i < |s|
    ensures Sum(s[i := x]) == Sum(s) - s[i] + x
  {
    if i == 0 {
      assert s[i := x][1..] == s[1..];
    } else {
      SumUpdate(s[1..], i - 1, x);
      assert s[i := x][1..] == s[1..][i - 1 := x];
    }
  }

  lemma MapAppend<A, B>(f: A -> B, a: seq<A>, b: seq<A>)
    ensures Map(f, a + b) == Map(f, a) + Map(f, b)
  {
  }

  function Without<T>(s: seq<T>, k: nat): seq<T>
    requires k < |s|
  {
    s[..k] + s[k + 1..]
  }

  lemma WithoutMembers<T(!new)>(s: seq<T>, k: nat)
    requires k < |s| && Distinct(s)
    ensures Distinct(Without(s, k))
    ensures forall y :: y in Without(s, k) <==> y in s && y != s[k]
  {
    var r := Without(s, k);
    assert forall j | 0 <= j < |r| :: r[j] == s[if j < k then j else j + 1];
    forall y | y in s && y != s[k] ensures y in r {
      var j :| 0 <= j < |s| && s[j] == y;
      assert r[if j < k then j else j - 1] == y;
    }
  }

  lemma MapWithout<A, B>(f: A -> B, s: seq<A>, k: nat)
    requires k < |s|
    ensures multiset(Map(f, s)) == multiset(Map(f, Without(s, k))) + multiset{f(s[k])}
  {
    var front, back := s[..k], s[k + 1..];
    assert s == front + ([s[k]] + back);
    MapAppend(f, front, [s[k]] + back);
    MapAppend(f, [s[k]], back);
    MapAppend(f, front, back);
    assert Map(f, [s[k]]) == [f(s[k])];
  }

  // Two duplicate-free lists of the same elements are permutations of each other, also after mapping.
  lemma {:induction false} SameElements<A(!new), B>(f: A -> B, a: seq<A>, b: seq<A>)
    requires Distinct(a) && Distinct(b)
    requires forall x :: x in a <==> x in b
    ensures |a| == |b| && multiset(Map(f, a)) == multiset(Map(f, b))
    decreases |a| + |b|, |b|
  {
    if a == [] {
      if b != [] { SameElements(f, b, a); }
      return;
    }
    assert a[0] in b;
    var k :| 0 <= k < |b| && b[k] == a[0];
    WithoutMembers(a, 0);
    WithoutMembers(b, k);
    MapWithout(f, a, 0);
    MapWithout(f, b, k);
    SameElements(f, Without(a, 0), Without(b, k));
  }

  // `r` is what `s` holds at `positions`: increasing, and exactly those of the elements with `keep`.
  ghost predicate Picks<T(!new)>(s: seq<T>, keep: T -> bool, positions: seq<nat>, r: seq<T>) {
    && |r| == |positions|
    && (forall i | 0 <= i < |positions| :: positions[i] < |s| && r[i] == s[positions[i]])
    && (forall i, j | 0 <= i < j < |positions| :: positions[i] < positions[j])
    && (forall n: nat | n < |s| :: n in positions <==> keep(s[n]))
  }

  lemma PicksKept<T(!new)>(s: seq<T>, keep: T -> bool, positions: seq<nat>, r: seq<T>)
    requires s != [] && keep(s[|s| - 1]) && Picks(s[..|s| - 1], keep, positions, r)
    ensures Picks(s, keep, positions + [|s| - 1], r + [s[|s| - 1]])
  {
    var m, more := |s| - 1, positions + [|s| - 1];
    forall n: nat | n < |s| ensures n in more <==> keep(s[n]) {
      if n < m { assert s[..m][n] == s[n] && (n in more <==> n in positions); }
    }
  }

  lemma PicksSkipped<T(!new)>(s: seq<T>, keep: T -> bool, positions: seq<nat>, r: seq<T>)
    requires s != [] && !keep(s[|s| - 1]) && Picks(s[..|s| - 1], keep, positions, r)
    ensures Picks(s, keep, positions, r)
  {
    var m := |s| - 1;
    forall n: nat | n < |s| ensures n in positions <==> keep(s[n]) {
      if n < m { assert s[..m][n] == s[n]; }
    }
  }

  function UpTo(n: nat): (s: seq<nat>)
    ensures |s| == n && forall i | 0 <= i < n :: s[i] == i
  {
    seq(n, i requires 0 <= i < n => i)
  }

  lemma InUpTo(n: nat)
    ensures Distinct(UpTo(n)) && forall i: nat :: i in UpTo(n) <==> i < n
  {
    forall i: nat | i < n ensures i in UpTo(n) { assert UpTo(n)[i] == i; }
  }

  lemma {:induction false} Pigeonhole(s: seq<nat>, n: nat)
    requires Distinct(s) && |s| == n && forall i <- s :: i < n
    ensures forall i | 0 <= i < n :: i in s
  {
    if n == 0 { return; }
    if n - 1 in s {
      var k :| 0 <= k < n && s[k] == n - 1;
      WithoutMembers(s, k);
      Pigeonhole(Without(s, k), n - 1);
    } else {
      forall i <- s ensures i < n - 1 {}
      TooMany(s, n - 1);
    }
  }

  lemma {:induction false} TooMany(s: seq<nat>, n: nat)
    requires Distinct(s) && forall i <- s :: i < n
    ensures |s| <= n
  {
    if s == [] { return; }
    assert s[0] in s;
    if n - 1 in s {
      var k :| 0 <= k < |s| && s[k] == n - 1;
      WithoutMembers(s, k);
      TooMany(Without(s, k), n - 1);
    } else {
      TooMany(s, n - 1);
    }
  }
}
