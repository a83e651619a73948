/** The wrap-around of fixed-width arithmetic. */
module Residues {

  /** x brought into the m values of a word. */
  function Wrap(x: int, m: int): int
    requires 0 < m
  {
    x % m
  }

  lemma MultiplesAreFarApart(k: int, m: int)
    requires 0 < m
    ensures k == 0 || k * m >= m || k * m <= -m
  {
    if k >= 1 {
      assert (k - 1) * m >= 0;
    } else if k <= -1 {
      assert (k + 1) * m <= 0;
    }
  }

  /** What fits the word stays as it is, and everything fits the word after wrapping. */
  lemma WrapsIntoTheWord(x: int, m: int)
    requires 0 < m
    ensures 0 <= Wrap(x, m) < m
    ensures Wrap(x, m) == x <==> 0 <= x < m
  {
  }

  /** Whole turns, and nothing else, wrap to the same value. */
  lemma WrapsAlike(x: int, y: int, m: int)
    requires 0 < m
    ensures Wrap(x, m) == Wrap(y, m) <==> exists k :: x - y == k * m
  {
    var k := x / m - y / m;
    assert x - y == k * m + (x % m - y % m);
    assert x % m == y % m ==> x - y == k * m;
    forall j | x - y == j * m
      ensures x % m == y % m
    {
      MultiplesAreFarApart(j - k, m);
      assert (j - k) * m == j * m - k * m;
    }
  }

  /** Wrapping before adding changes nothing. */
  lemma AddAfterWrapping(x: int, d: int, m: int)
    requires 0 < m
    ensures Wrap(Wrap(x, m) + d, m) == Wrap(x + d, m)
  {
    assert Wrap(x, m) + d - (x + d) == -(x / m) * m;
    WrapsAlike(Wrap(x, m) + d, x + d, m);
  }

  /** Numbers less than m apart wrap to different values. */
  lemma CloseNumbersDiffer(x: int, y: int, m: int)
    requires 0 < m && -m < x - y < m && Wrap(x, m) == Wrap(y, m)
    ensures x == y
  {
    WrapsAlike(x, y, m);
    var k :| x - y == k * m;
    MultiplesAreFarApart(k, m);
  }
}
