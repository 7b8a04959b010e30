/** Sums over the threads of a system, one step of one thread at a time. */
module Counting {

  ghost function Sum<T>(s: seq<T>, f: T -> int): int {
    if s == [] then 0 else f(s[0]) + Sum(s[1..], f)
  }

  lemma {:induction false} SumUpdate<T>(s: seq<T>, i: nat, x: T, f: T -> int)
    requires i < |s|
    ensures Sum(s[i := x], f) == Sum(s, f) - f(s[i]) + f(x)
  {
    var u := s[i := x];
    if i == 0 {
      assert u[1..] == s[1..];
    } else {
      assert u[1..] == s[1..][i - 1 := x];
      SumUpdate(s[1..], i - 1, x, f);
    }
  }

  /** A sum of values at least 0 is at least each of them. */
  lemma {:induction false} SumAtLeast<T>(s: seq<T>, f: T -> int)
    requires forall i :: 0 <= i < |s| ==> f(s[i]) >= 0
    ensures Sum(s, f) >= 0
    ensures forall i :: 0 <= i < |s| ==> Sum(s, f) >= f(s[i])
  {
    if s != [] {
      SumAtLeast(s[1..], f);
      forall i | 0 <= i < |s|
        ensures Sum(s, f) >= f(s[i])
      {
        if i > 0 { assert s[i] == s[1..][i - 1]; }
      }
    }
  }

  lemma {:induction false} SumOrdered<T>(s: seq<T>, f: T -> int, g: T -> int)
    requires forall i :: 0 <= i < |s| ==> f(s[i]) <= g(s[i])
    ensures Sum(s, f) <= Sum(s, g)
  {
    if s != [] {
      SumOrdered(s[1..], f, g);
    }
  }

  lemma {:induction false} SumAdds<T>(s: seq<T>, f: T -> int, g: T -> int, h: T -> int)
    requires forall i :: 0 <= i < |s| ==> f(s[i]) + g(s[i]) == h(s[i])
    ensures Sum(s, f) + Sum(s, g) == Sum(s, h)
  {
    if s != [] {
      SumAdds(s[1..], f, g, h);
    }
  }

  lemma {:induction false} SumConstant<T>(s: seq<T>, f: T -> int, c: int)
    requires forall i :: 0 <= i < |s| ==> f(s[i]) == c
    ensures Sum(s, f) == c * |s|
  {
    if s != [] {
      SumConstant(s[1..], f, c);
    }
  }

  /** A sum other than 0 has a term other than 0. */
  lemma {:induction false} SumWitness<T>(s: seq<T>, f: T -> int) returns (i: nat)
    requires Sum(s, f) != 0
    ensures i < |s| && f(s[i]) != 0
  {
    if f(s[0]) != 0 {
      i := 0;
    } else {
      i := SumWitness(s[1..], f);
      i := i + 1;
    }
  }

  /** A sum of values at least 0 is at least any two of them together. */
  lemma {:induction false} SumAtLeastTwo<T>(s: seq<T>, f: T -> int, i: nat, j: nat)
    requires forall k :: 0 <= k < |s| ==> f(s[k]) >= 0
    requires i < j < |s|
    ensures Sum(s, f) >= f(s[i]) + f(s[j])
  {
    SumAtLeast(s[1..], f);
    assert s[j] == s[1..][j - 1];
    if i > 0 {
      SumAtLeastTwo(s[1..], f, i - 1, j - 1);
    }
  }

  /** With only one term other than 0, the sum is that term. */
  lemma {:induction false} SumSingle<T>(s: seq<T>, f: T -> int, i: nat)
    requires i < |s| && forall k :: 0 <= k < |s| && k != i ==> f(s[k]) == 0
    ensures Sum(s, f) == f(s[i])
  {
    if i == 0 {
      forall k | 0 <= k < |s[1..]|
        ensures f(s[1..][k]) == 0
      {
        assert s[1..][k] == s[k + 1];
      }
      SumConstant(s[1..], f, 0);
    } else {
      forall k | 0 <= k < |s[1..]| && k != i - 1
        ensures f(s[1..][k]) == 0
      {
        assert s[1..][k] == s[k + 1];
      }
      SumSingle(s[1..], f, i - 1);
      assert f(s[0]) == 0;
    }
  }

  /** Terms of at most 1, one of them 0 or less, do not add up to their number. */
  lemma SumBelowLength<T>(s: seq<T>, f: T -> int, i: nat)
    requires i < |s| && f(s[i]) <= 0 && forall k :: 0 <= k < |s| ==> f(s[k]) <= 1
    ensures Sum(s, f) < |s|
  {
    var gap := x => 1 - f(x);
    SumAtLeast(s, gap);
    SumAdds(s, f, gap, x => 1);
    SumConstant(s, x => 1, 1);
  }

  lemma {:induction false} SumPointwise<T>(s: seq<T>, u: seq<T>, f: T -> int)
    requires |s| == |u| && forall i :: 0 <= i < |s| ==> f(s[i]) <= f(u[i])
    ensures Sum(s, f) <= Sum(u, f)
  {
    if s != [] {
      SumPointwise(s[1..], u[1..], f);
    }
  }
}
