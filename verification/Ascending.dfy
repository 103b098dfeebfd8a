/** Strictly ascending sequences of numbers. */
module Ascending {

  ghost predicate IsAscending(s: seq<int>) {
    forall i, j :: 0 <= i < j < |s| ==> s[i] < s[j]
  }

  lemma AllButLast(s: seq<int>, x: int)
    requires IsAscending(s) && s != []
    ensures x in s[..|s| - 1] <==> x in s && x != s[|s| - 1]
    ensures x in s ==> x <= s[|s| - 1]
  {
    var n := |s| - 1;
    assert s == s[..n] + [s[n]];
    if x in s[..n] {
      var i :| 0 <= i < n && s[..n][i] == x;
      assert s[i] == x;
    }
  }

  lemma SomeElement(s: seq<int>)
    ensures s != [] ==> exists x :: x in s
  {
    if s != [] { var x := s[0]; assert x in s; }
  }

  /** An ascending sequence is determined by the set of its elements. */
  lemma {:induction false} AscendingUnique(a: seq<int>, b: seq<int>)
    requires IsAscending(a) && IsAscending(b)
    requires forall x :: x in a <==> x in b
    ensures a == b
    decreases |a|
  {
    if a == [] || b == [] {
      SomeElement(a);
      SomeElement(b);
    } else {
      var n, m := |a| - 1, |b| - 1;
      AllButLast(a, b[m]);
      AllButLast(b, a[n]);
      forall x ensures x in a[..n] <==> x in b[..m] {
        AllButLast(a, x);
        AllButLast(b, x);
      }
      AscendingUnique(a[..n], b[..m]);
      assert a == a[..n] + [a[n]] && b == b[..m] + [b[m]];
    }
  }

  ghost function Elements<T(!new)>(s: seq<T>): (r: set<T>) {
    set x | x in s
  }

  lemma ElementsAppend<T(!new)>(s: seq<T>, x: T)
    ensures Elements(s + [x]) == Elements(s) + {x}
  {
  }

  lemma AscendingAppend(s: seq<int>, x: int)
    requires IsAscending(s) && forall y :: y in s ==> y < x
    ensures IsAscending(s + [x])
  {
    forall i | 0 <= i < |s| ensures s[i] < x { assert s[i] in s; }
  }

  /** The least element of a set that is not empty. */
  method Least(s: set<nat>) returns (m: nat)
    requires s != {}
    ensures m in s && forall x :: x in s ==> m <= x
  {
    m :| m in s;
    var rest := s - {m};
    while rest != {}
      invariant m in s && rest <= s && forall x :: x in s && x !in rest ==> m <= x
      decreases |rest|
    {
      var x :| x in rest;
      rest := rest - {x};
      if x < m { m := x; }
    }
  }

  // ----- positions -----

  /** The positions below `n` that have the property, in order. */
  function Positions(n: nat, p: nat -> bool): (r: seq<nat>) {
    if n == 0 then [] else Positions(n - 1, p) + if p(n - 1) then [n - 1] else []
  }

  lemma {:induction false} PositionsAscend(n: nat, p: nat -> bool)
    ensures IsAscending(Positions(n, p))
    ensures forall j :: 0 <= j < |Positions(n, p)| ==> Positions(n, p)[j] < n && p(Positions(n, p)[j])
  {
    if n > 0 { PositionsAscend(n - 1, p); }
  }

  lemma {:induction false} PositionsHave(n: nat, p: nat -> bool, i: nat)
    ensures i in Positions(n, p) <==> i < n && p(i)
  {
    if n > 0 { PositionsHave(n - 1, p, i); }
  }

  /** The positions are exactly those with the property, ascending. */
  lemma PositionsAre(n: nat, p: nat -> bool)
    ensures IsAscending(Positions(n, p))
    ensures forall i: nat :: i in Positions(n, p) <==> i < n && p(i)
  {
    PositionsAscend(n, p);
    forall i: nat ensures i in Positions(n, p) <==> i < n && p(i) { PositionsHave(n, p, i); }
  }
}
