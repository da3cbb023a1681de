/** Ceiling division with its special case for small dividends, and the integer square root. */
module Math {
  import opened Checked
  import opened Rounding

  /** What the ceiling division returns.  A floored quotient of zero is rounded to the nearest
      integer, ties upward, with divisor 0; otherwise the quotient is the true ceiling, and an
      inexact division also returns the ceiling of the dividend over that quotient. */
  function CeilDivResult(n: u128, d: u128): Result<(u128, u128)> {
    if d == 0 then Err(NoValue)
    else if n < d then
      if 2 * n > U128_MAX then Err(NoValue)
      else if 2 * n >= d then Ok((1, 0))
      else Ok((0, 0))
    else if Remainder(n, d) == 0 then Ok((Floor(n, d), d))
    else
      QuotientBelow(n, d);
      Ok((Floor(n, d) + 1, Ceil(n, Floor(n, d) + 1)))
  }

  lemma QuotientBelow(n: nat, d: nat)
    requires d > 0 && Remainder(n, d) != 0
    ensures Floor(n, d) < n
  {
    FloorAdjoint(n, d, n);
    TimesIs(Floor(n, d), d);
    if d > 1 && n > 0 {
      MulMono(2, d, n);
    }
    assert n * 1 == n;
  }

  method CheckedCeilDiv(n: u128, d: u128) returns (r: Result<(u128, u128)>)
    ensures r == CeilDivResult(n, d)
  {
    var rhs := d;
    var quotient :- CheckedDiv(n, rhs);
    CeilPositive(n, d);
    if quotient == 0 {
      TimesIs(n, 2);
      var twice :- CheckedMul(n, 2);
      if twice >= rhs {
        return Ok((1, 0));
      } else {
        return Ok((0, 0));
      }
    }
    FloorIs(n, d);
    var remainder := n % rhs;
    if remainder > 0 {
      QuotientBelow(n, d);
      quotient := quotient + 1;
      rhs := LeastDivisorFor(n, quotient);
    }
    return Ok((quotient, rhs));
  }

  /** The smallest divisor that keeps the quotient of n within q, from a division and a remainder. */
  method LeastDivisorFor(n: u128, q: u128) returns (rhs: u128)
    requires q > 0
    ensures rhs == Ceil(n, q)
  {
    FloorIs(n, q);
    CeilOfParts(n, q);
    rhs := n / q;
    var remainder := n % q;
    if remainder > 0 {
      rhs := rhs + 1;
    }
  }

  /** The ceiling computed as the source does: the floor, plus one on a remainder. */
  lemma CeilOfParts(n: nat, d: nat)
    requires d > 0
    ensures Ceil(n, d) == if Remainder(n, d) > 0 then Floor(n, d) + 1 else Floor(n, d)
    ensures 0 <= Remainder(n, d)
  {
    var q := Floor(n, d);
    FloorBounds(n, d);
    TimesIs(q, d);
    CeilFromRemainder(n, d, q, n - q * d);
  }

  lemma CeilFromRemainder(n: nat, d: nat, q: nat, r: nat)
    requires n == q * d + r && r < d
    ensures Ceil(n, d) == if r > 0 then q + 1 else q
  {
    CeilAdjoint(n, d, q);
    CeilAdjoint(n, d, q + 1);
    assert (q + 1) * d == q * d + d;
    if r == 0 && q > 0 {
      CeilAdjoint(n, d, q - 1);
      assert (q - 1) * d == q * d - d;
    }
  }

  /** When the floored quotient is at least 1 the first result is the true ceiling and the second
      is the least divisor with that ceiling; it never exceeds the divisor given. */
  lemma LeastDivisor(n: u128, d: u128)
    requires 0 < d <= n
    ensures CeilDivResult(n, d).Ok?
    ensures var (q, least) := CeilDivResult(n, d).value;
            && q == Ceil(n, d)
            && 0 < least <= d
            && Ceil(n, least) == q
            && (forall e: nat {:trigger Ceil(n, e)} :: 0 < e < least ==> Ceil(n, e) > q)
  {
    CeilOfParts(n, d);
    CeilPositive(n, d);
    var q := CeilDivResult(n, d).value.0;
    if Remainder(n, d) == 0 {
      ExactDivision(n, d);
    }
    CeilingIsLeast(n, d, q, CeilDivResult(n, d).value.1);
  }

  /** In an exact division the divisor is itself the quotient by the quotient. */
  lemma ExactDivision(n: nat, d: nat)
    requires 0 < d <= n && Remainder(n, d) == 0 && Floor(n, d) > 0
    ensures Ceil(n, Floor(n, d)) == d
  {
    var q := Floor(n, d);
    TimesIs(q, d);
    CeilAdjoint(n, q, d);
    CeilAdjoint(n, q, d - 1);
    assert d * q == n && (d - 1) * q == n - q;
  }

  /** The ceiling of the dividend over its quotient is the least divisor that keeps the quotient. */
  lemma CeilingIsLeast(n: nat, d: nat, q: nat, least: nat)
    requires 0 < d <= n && q > 0 && q == Ceil(n, d) && least == Ceil(n, q)
    ensures 0 < least <= d && Ceil(n, least) == q
    ensures forall e: nat {:trigger Ceil(n, e)} :: 0 < e < least ==> Ceil(n, e) > q
  {
    CeilPositive(n, q);
    CeilSwap(n, d, q);
    CeilSwap(n, least, q);
    CeilAntitone(n, least, d);
    forall e: nat | 0 < e < least
      ensures Ceil(n, e) > q
    {
      CeilSwap(n, e, q);
    }
  }

  /** Ceilings trade places: a divisor gives a quotient within q exactly when it is itself at
      least the quotient by q. */
  lemma CeilSwap(n: nat, e: nat, q: nat)
    requires e > 0 && q > 0
    ensures Ceil(n, e) <= q <==> Ceil(n, q) <= e
  {
    CeilAdjoint(n, e, q);
    CeilAdjoint(n, q, e);
    assert q * e == e * q;
  }

  lemma CeilAntitone(n: nat, small: nat, large: nat)
    requires 0 < small <= large
    ensures Ceil(n, large) <= Ceil(n, small)
  {
    var c := Ceil(n, small);
    CeilAdjoint(n, small, c);
    CeilAdjoint(n, large, c);
    MulMono(small, large, c);
    assert c * small == small * c && c * large == large * c;
  }

  /** The first result against the true ceiling, for every dividend whose double fits: they agree
      except for a positive dividend below half the divisor, which is answered 0 and not 1. */
  lemma SmallQuotientQuirk(n: u128, d: u128)
    requires d > 0 && CeilDivResult(n, d).Ok?
    ensures CeilDivResult(n, d).value.0 == Ceil(n, d) <==> n == 0 || 2 * n >= d
    ensures CeilDivResult(n, d).value.0 == 0 <==> 2 * n < d
    ensures CeilDivResult(n, d).value.0 != 0 ==> CeilDivResult(n, d).value.0 == Ceil(n, d)
  {
    CeilPositive(n, d);
    if d <= n {
      LeastDivisor(n, d);
    } else {
      CeilAdjoint(n, d, 1);
    }
  }

  /** Newton's iteration for the floor of the square root, from a guess above it. */
  method IntegerSqrt(n: u128) returns (root: nat)
    ensures root == Sqrt(n)
  {
    if n <= 1 {
      SqrtLargest(n, n);
      SqrtLargest(n, n + 1);
      return n;
    }
    root := Guess(n);
    SqrtLargest(n, root);
    SqrtLargest(n, 1);
    while true
      invariant 0 < Sqrt(n) <= root
      decreases root
    {
      var x := (root + n / root) / 2;
      SqrtLargest(n, Sqrt(n));
      NewtonStaysAbove(n, Sqrt(n), root);
      if x >= root {
        NewtonStops(n, root);
        return;
      }
      root := x;
    }
  }

  /** A power of two whose square exceeds n. */
  method Guess(n: nat) returns (g: nat)
    ensures g > 0 && g * g > n
  {
    g := 1;
    while g * g <= n
      invariant g > 0
      decreases n - g
    {
      MulMono(1, g, g);
      g := 2 * g;
    }
  }

  lemma ArithmeticGeometric(t: int, p: int)
    ensures (2 * t - p) * p <= t * t
  {
    assert (t - p) * (t - p) >= 0;
    assert t * t - (2 * t - p) * p == (t - p) * (t - p);
  }

  lemma NewtonStaysAbove(n: nat, target: nat, p: nat)
    requires p > 0 && target * target <= n
    ensures target <= (p + n / p) / 2
  {
    if p <= 2 * target {
      ArithmeticGeometric(target, p);
      FloorIs(n, p);
      FloorAdjoint(n, p, 2 * target - p);
      assert n / p >= 2 * target - p;
    }
  }

  /** Newton's iteration stops descending only at the root. */
  lemma NewtonStops(n: nat, p: nat)
    requires 0 < p && Sqrt(n) <= p
    requires (p + n / p) / 2 >= p
    ensures p == Sqrt(n)
  {
    FloorIs(n, p);
    FloorAdjoint(n, p, p);
    SqrtLargest(n, p);
  }

  /** The floor of the square root. */
  function Sqrt(n: nat): nat {
    if n == 0 then 0
    else
      var root := Sqrt(n - 1);
      if (root + 1) * (root + 1) <= n then root + 1 else root
  }

  lemma {:induction false} SqrtBounds(n: nat)
    ensures Sqrt(n) * Sqrt(n) <= n < (Sqrt(n) + 1) * (Sqrt(n) + 1)
  {
    if n > 0 {
      SqrtBounds(n - 1);
      SqrtStep(n, Sqrt(n - 1), Sqrt(n));
    }
  }

  lemma SqrtStep(n: nat, before: nat, root: nat)
    requires n > 0 && before * before <= n - 1 < (before + 1) * (before + 1)
    requires root == if (before + 1) * (before + 1) <= n then before + 1 else before
    ensures root * root <= n < (root + 1) * (root + 1)
  {
    assert (before + 2) * (before + 2) == (before + 1) * (before + 1) + 2 * before + 3;
  }

  /** The floored root is the largest number whose square is within n. */
  lemma SqrtLargest(n: nat, root: nat)
    ensures root <= Sqrt(n) <==> root * root <= n
  {
    SqrtBounds(n);
    if root <= Sqrt(n) {
      SquareOrder(root, Sqrt(n));
    } else {
      SquareOrder(Sqrt(n) + 1, root);
    }
  }
}
