/** Multiplication, floor and ceiling division as functions that proofs see only through their laws.
    They are stated by recursion, so that a definition that multiplies or divides does not bring
    nonlinear arithmetic into every proof that mentions it; TimesIs and FloorIs say that they are
    the built-in operations, and rounding arguments go through the two adjoints. */
module Rounding {

  function Times(a: int, b: int): (product: int)
    ensures 0 <= a && 0 <= b ==> 0 <= product
    decreases if a < 0 then -a else a
  {
    if a == 0 then 0
    else if a > 0 then b + Times(a - 1, b)
    else Times(a + 1, b) - b
  }

  function Floor(a: nat, d: nat): (quotient: nat)
    requires d > 0
    ensures quotient <= a
  {
    if a < d then 0 else 1 + Floor(a - d, d)
  }

  function Ceil(a: nat, d: nat): (quotient: nat)
    requires d > 0
    ensures quotient <= a
  {
    CeilWithin(a, d);
    Floor(a + d - 1, d)
  }

  function Remainder(a: nat, d: nat): int
    requires d > 0
  {
    a - Times(Floor(a, d), d)
  }

  function Min(a: int, b: int): int {
    if a <= b then a else b
  }

  lemma {:induction false} TimesIs(a: int, b: int)
    ensures Times(a, b) == a * b
    decreases if a < 0 then -a else a
  {
    if a > 0 {
      TimesIs(a - 1, b);
    } else if a < 0 {
      TimesIs(a + 1, b);
    }
  }

  lemma {:induction false} FloorBounds(a: nat, d: nat)
    requires d > 0
    ensures Floor(a, d) * d <= a < Floor(a, d) * d + d
  {
    if a >= d {
      FloorBounds(a - d, d);
    }
  }

  lemma FloorIs(a: nat, d: nat)
    requires d > 0
    ensures Floor(a, d) == a / d && Remainder(a, d) == a % d
  {
    FloorBounds(a, d);
    DivModUnique(a, d, Floor(a, d), a - Floor(a, d) * d);
    TimesIs(Floor(a, d), d);
  }

  lemma TimesCommutes(a: int, b: int)
    ensures Times(a, b) == Times(b, a)
  {
    TimesIs(a, b);
    TimesIs(b, a);
  }

  lemma MulMono(a: int, b: int, c: nat)
    requires a <= b
    ensures a * c <= b * c
  {
  }

  lemma ProductPositive(a: nat, b: nat)
    requires a > 0 && b > 0
    ensures a * b > 0
  {
    MulMono(1, a, b);
  }

  /** Products keep the order of their factors. */
  lemma ProductsOrdered(a: nat, b: nat, c: nat, d: nat)
    requires a <= c && b <= d
    ensures a * b <= c * d
  {
    MulMono(a, c, b);
    MulMono(b, d, c);
    assert b * c == c * b && d * c == c * d;
  }

  lemma TimesMono(a: nat, b: nat, c: nat, d: nat)
    requires a <= c && b <= d
    ensures Times(a, b) <= Times(c, d)
  {
    ProductsOrdered(a, b, c, d);
    TimesIs(a, b);
    TimesIs(c, d);
  }

  /** A positive factor cancels from an inequality. */
  lemma Cancel(a: int, b: int, c: nat)
    requires c > 0
    ensures a * c <= b * c <==> a <= b
  {
    if a > b {
      MulMono(b + 1, a, c);
      assert (b + 1) * c == b * c + c;
    } else {
      MulMono(a, b, c);
    }
  }

  lemma TimesAdds(a: int, b: int, c: int)
    ensures Times(a + b, c) == Times(a, c) + Times(b, c)
  {
    TimesIs(a, c);
    TimesIs(b, c);
    TimesIs(a + b, c);
    assert (a + b) * c == a * c + b * c;
  }

  lemma TimesCancel(a: int, b: int, c: nat)
    requires c > 0
    ensures Times(a, c) <= Times(b, c) <==> a <= b
  {
    TimesIs(a, c);
    TimesIs(b, c);
    Cancel(a, b, c);
  }

  /** Floor(a, d) is the largest q with q * d <= a. */
  lemma FloorAdjoint(a: nat, d: nat, q: nat)
    requires d > 0
    ensures q <= Floor(a, d) <==> q * d <= a
  {
    var f := Floor(a, d);
    FloorBounds(a, d);
    if q <= f {
      MulMono(q, f, d);
    } else {
      MulMono(f + 1, q, d);
      assert (f + 1) * d == f * d + d;
    }
  }

  lemma CeilWithin(a: nat, d: nat)
    requires d > 0
    ensures Floor(a + d - 1, d) <= a
  {
    FloorAdjoint(a + d - 1, d, a + 1);
    assert (a + 1) * d == a * d + d;
    MulMono(1, d, a);
    assert 1 * a == a && d * a == a * d;
  }

  /** Ceil(a, d) is the smallest q with a <= q * d. */
  lemma CeilAdjoint(a: nat, d: nat, q: nat)
    requires d > 0
    ensures Ceil(a, d) <= q <==> a <= q * d
  {
    FloorAdjoint(a + d - 1, d, q + 1);
    assert (q + 1) * d == q * d + d;
  }

  /** Ceil(a, d) is sandwiched: multiplied back, it overshoots a by less than d. */
  lemma CeilBounds(a: nat, d: nat)
    requires d > 0
    ensures a <= Ceil(a, d) * d < a + d
  {
    var c := Ceil(a, d);
    CeilAdjoint(a, d, c);
    if c > 0 {
      CeilAdjoint(a, d, c - 1);
      assert (c - 1) * d == c * d - d;
    }
  }

  /** A ceiling and a floor are positive exactly when there is something to round. */
  lemma CeilPositive(a: nat, d: nat)
    requires d > 0
    ensures Ceil(a, d) > 0 <==> a > 0
    ensures Floor(a, d) > 0 <==> a >= d
  {
    CeilAdjoint(a, d, 0);
    FloorAdjoint(a, d, 1);
  }

  /** A quotient and a remainder in range are the ones that division gives. */
  lemma DivModUnique(v: int, m: nat, q: int, r: nat)
    requires v == q * m + r && r < m
    ensures v / m == q && v % m == r
  {
    var q', r' := v / m, v % m;
    assert (q - q') * m == r' - r;
    if q > q' {
      MulMono(1, q - q', m);
    } else if q < q' {
      MulMono(q - q', -1, m);
    }
  }

  /** Remainders may be taken before adding or subtracting. */
  lemma ModAddSub(a: int, b: int, m: nat)
    requires m > 0
    ensures (a % m + b % m) % m == (a + b) % m
    ensures (a % m - b % m) % m == (a - b) % m
  {
    var qa, qb, ra, rb := a / m, b / m, a % m, b % m;
    var sum, difference := (ra + rb) / m, (ra - rb) / m;
    assert (qa + qb + sum) * m == qa * m + qb * m + sum * m;
    DivModUnique(a + b, m, qa + qb + sum, (ra + rb) % m);
    assert (qa - qb + difference) * m == qa * m - qb * m + difference * m;
    DivModUnique(a - b, m, qa - qb + difference, (ra - rb) % m);
  }

  /** Squaring keeps the order of naturals both ways. */
  lemma SquareOrder(a: nat, b: nat)
    ensures a <= b <==> a * a <= b * b
  {
    if a <= b {
      MulMono(a, b, a);
      MulMono(a, b, b);
    } else {
      MulMono(b, a, b);
      assert a * a == b * a + (a - b) * a;
      assert (a - b) * a > 0;
    }
  }
}
