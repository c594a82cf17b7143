/** Sums over a sequence, for counting threads by where they are. */
module Counting {
  function Sum<T>(s: seq<T>, f: T -> nat): nat {
    if s == [] then 0 else f(s[0]) + Sum(s[1..], f)
  }

  lemma {:induction false} SumUpdate<T>(s: seq<T>, i: nat, x: T, f: T -> nat)
    requires i < |s|
    ensures Sum(s[i := x], f) + f(s[i]) == Sum(s, f) + f(x)
  {
    if i == 0 {
      assert s[0 := x][1..] == s[1..];
    } else {
      assert s[i := x][1..] == s[1..][i - 1 := x];
      SumUpdate(s[1..], i - 1, x, f);
    }
  }

  /** Every summand is at most the sum. */
  lemma {:induction false} SumAtLeast<T>(s: seq<T>, i: nat, f: T -> nat)
    requires i < |s|
    ensures Sum(s, f) >= f(s[i])
  {
    if i > 0 {
      SumAtLeast(s[1..], i - 1, f);
    }
  }

  /** A sum that is not 0 has a summand that is not 0. */
  lemma {:induction false} SumWitness<T>(s: seq<T>, f: T -> nat) returns (i: nat)
    requires Sum(s, f) > 0
    ensures i < |s| && f(s[i]) > 0
  {
    if f(s[0]) > 0 {
      i := 0;
    } else {
      i := SumWitness(s[1..], f);
      i := i + 1;
    }
  }

  lemma SumAtMost<T(!new)>(s: seq<T>, f: T -> nat, bound: nat)
    requires forall x :: f(x) <= bound
    ensures Sum(s, f) <= |s| * bound
  {
  }

  lemma SumOfConstant<T>(n: nat, x: T, f: T -> nat)
    ensures Sum(seq(n, _ => x), f) == n * f(x)
  {
    if n > 0 {
      assert seq(n, _ => x)[1..] == seq(n - 1, _ => x);
      SumOfConstant(n - 1, x, f);
    }
  }
}
