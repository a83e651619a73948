/** Sums over a sequence, and what updating one element does to them. */
module Sums {

  function Sum<T>(f: T -> int, s: seq<T>): int
  {
    if s == [] then 0 else Sum(f, s[..|s| - 1]) + f(s[|s| - 1])
  }

  lemma {:induction false} SumUpdate<T>(f: T -> int, s: seq<T>, k: nat, x: T)
    requires k < |s|
    ensures Sum(f, s[k := x]) == Sum(f, s) - f(s[k]) + f(x)
  {
    var last := |s| - 1;
    if k == last {
      assert s[k := x][..last] == s[..last];
    } else {
      SumUpdate(f, s[..last], k, x);
      assert s[k := x][..last] == s[..last][k := x];
    }
  }

  lemma {:induction false} SumIsNatural<T>(f: T -> int, s: seq<T>)
    requires forall x :: f(x) >= 0
    ensures Sum(f, s) >= 0
  {
    if s != [] {
      SumIsNatural(f, s[..|s| - 1]);
    }
  }

  lemma {:induction false} SumOfZeros<T>(f: T -> int, s: seq<T>)
    requires forall x :: x in s ==> f(x) == 0
    ensures Sum(f, s) == 0
  {
    if s != [] {
      SumOfZeros(f, s[..|s| - 1]);
    }
  }
}
