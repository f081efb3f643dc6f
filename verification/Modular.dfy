/** Remainders by a variable modulus. */
module Modular {

  lemma {:induction false} MultiplesApart(x: int, y: int, d: int)
    requires x < y && 0 < d
    ensures x * d + d <= y * d
    decreases y - x
  {
    if x + 1 == y {
      assert y * d == x * d + d;
    } else {
      MultiplesApart(x, y - 1, d);
      assert (y - 1) * d + d == y * d;
    }
  }

  lemma DivisionUnique(a: int, d: int, q: int, r: int)
    requires 0 < d && 0 <= r < d && a == q * d + r
    ensures a % d == r && a / d == q
  {
    assert a == a / d * d + a % d;
    if q < a / d {
      MultiplesApart(q, a / d, d);
    } else if a / d < q {
      MultiplesApart(a / d, q, d);
    }
  }

  lemma Successor(a: int, d: int)
    requires 0 < d
    ensures (a % d + 1) % d == (a + 1) % d
  {
    assert a == a / d * d + a % d;
    if a % d + 1 < d {
      DivisionUnique(a + 1, d, a / d, a % d + 1);
      DivisionUnique(a % d + 1, d, 0, a % d + 1);
    } else {
      DivisionUnique(a + 1, d, a / d + 1, 0);
      DivisionUnique(a % d + 1, d, 1, 0);
    }
  }

  lemma AddModulus(a: int, d: int)
    requires 0 < d
    ensures (a + d) % d == a % d
  {
    assert a == a / d * d + a % d;
    DivisionUnique(a + d, d, a / d + 1, a % d);
  }

  lemma SameResidue(a: int, b: int, d: int)
    requires a <= b && 0 < d && a % d == b % d
    ensures b == a || b == a + d || b > a + d
  {
    assert a == a / d * d + a % d && b == b / d * d + b % d;
    if a / d < b / d {
      MultiplesApart(a / d, b / d, d);
    } else if b / d < a / d {
      MultiplesApart(b / d, a / d, d);
    }
  }

  lemma ResidueDifference(a: int, b: int, d: int)
    requires 0 < d && a <= b < a + d
    ensures (b % d - a % d) % d == b - a
  {
    assert a == a / d * d + a % d && b == b / d * d + b % d;
    DivisionUnique(b % d - a % d, d, a / d - b / d, b - a);
  }
}
