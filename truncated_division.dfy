/**
 The integer division of C++. For `T = int`, `Size<T>::operator/` divides with the
 built-in `/` of C++, which truncates toward zero; Dafny's `/` on `int` is Euclidean.
 This module gives the C++ operator, a specification of it that does not mention how
 it is computed, and the proof that the two agree.
 */
module TruncatedDivision {

  function Abs(a: int): nat {
    if a < 0 then -a else a
  }

  /** `q` is a quotient of `a / b` rounded toward zero: the remainder `a - q * b` is
      smaller than `b` in magnitude and, when it is not zero, has the sign of `a`. */
  predicate IsTruncQuotient(a: int, b: int, q: int) {
    && b != 0
    && var r := a - q * b;
       Abs(r) < Abs(b) && (r == 0 || (r < 0 <==> a < 0))
  }

  /** `a / b` as C++ computes it on signed integers. */
  function TruncDiv(a: int, b: int): (q: int)
    requires b != 0
    ensures IsTruncQuotient(a, b, q)
    ensures Abs(q) == Abs(a) / Abs(b) && Abs(q) <= Abs(a)
    ensures q == 0 || ((q < 0) <==> ((a < 0) != (b < 0)))
  {
    var m, R := Abs(a) / Abs(b), Abs(a) % Abs(b);
    EuclideanParts(Abs(a), Abs(b));
    var q := if (a < 0) == (b < 0) then m else -m;
    SignedMagnitudeQuotient(a, b, m, R, q);
    q
  }

  /** Dafny's `/` and `%` on natural numbers: quotient and remainder. */
  lemma EuclideanParts(n: nat, d: nat)
    requires d >= 1
    ensures n / d >= 0 && 0 <= n % d < d && n == (n / d) * d + n % d
  {
  }

  /** The quotient `m` of the magnitudes, given the sign of the exact quotient, leaves
      the remainder `R` of the magnitudes, carrying the sign of `a`. */
  lemma SignedMagnitudeQuotient(a: int, b: int, m: int, R: int, q: int)
    requires b != 0 && m >= 0 && 0 <= R < Abs(b) && Abs(a) == m * Abs(b) + R
    requires q == if (a < 0) == (b < 0) then m else -m
    ensures IsTruncQuotient(a, b, q) && Abs(q) == m && m <= Abs(a)
    ensures q == 0 || ((q < 0) <==> ((a < 0) != (b < 0)))
  {
    var B: int := Abs(b);
    AtLeastFactor(m, B);
    NegatedProduct(m, B);
    if a >= 0 && b > 0 {
      assert a - q * b == R;
    } else if a >= 0 {
      assert q * b == (-m) * (-B) == m * B;
      assert a - q * b == R;
    } else if b > 0 {
      assert q * b == (-m) * B == -(m * B);
      assert a - q * b == -R;
    } else {
      assert q * b == m * (-B) == -(m * B);
      assert a - q * b == -R;
    }
  }

  /** Negating a factor negates the product. */
  lemma NegatedProduct(x: int, y: int)
    ensures (-x) * y == -(x * y) && x * (-y) == -(x * y) && (-x) * (-y) == x * y
  {
  }

  /** A natural number times a positive factor is at least the number. */
  lemma {:induction false} AtLeastFactor(m: nat, d: int)
    requires d >= 1
    ensures m * d >= m
  {
    if m > 0 {
      assert m * d == (m - 1) * d + d;
      AtLeastFactor(m - 1, d);
    }
  }

  /** A non-zero multiple of `b` is at least as large as `b` in magnitude. */
  lemma {:induction false} MultipleMagnitude(k: int, b: int)
    requires k != 0
    ensures Abs(k * b) >= Abs(b)
    decreases if k < 0 then -k + 1 else k
  {
    if k < 0 {
      assert k * b == -((-k) * b);
      MultipleMagnitude(-k, b);
    } else if k > 1 {
      assert k * b == (k - 1) * b + b;
      MultipleMagnitude(k - 1, b);
    }
  }

  /** At most one quotient satisfies the specification. */
  lemma TruncQuotientUnique(a: int, b: int, q1: int, q2: int)
    requires IsTruncQuotient(a, b, q1) && IsTruncQuotient(a, b, q2)
    ensures q1 == q2
  {
    var r1, r2 := a - q1 * b, a - q2 * b;
    assert (q2 - q1) * b == r1 - r2;
    assert Abs(r1 - r2) < Abs(b);
    if q1 != q2 {
      MultipleMagnitude(q2 - q1, b);
    }
  }

  /** Every division by a non-zero divisor has a quotient rounded toward zero. */
  lemma TruncQuotientExists(a: int, b: int)
    requires b != 0
    ensures exists q :: IsTruncQuotient(a, b, q)
  {
    assert IsTruncQuotient(a, b, TruncDiv(a, b));
  }

  /** `TruncDiv` is exactly the quotient the specification describes. */
  lemma TruncDivCharacterised(a: int, b: int, q: int)
    requires b != 0
    ensures IsTruncQuotient(a, b, q) <==> q == TruncDiv(a, b)
  {
    if IsTruncQuotient(a, b, q) {
      TruncQuotientUnique(a, b, q, TruncDiv(a, b));
    }
  }

  /** Truncation is symmetric about zero: negating either operand negates the quotient. */
  lemma TruncDivNegate(a: int, b: int)
    requires b != 0
    ensures TruncDiv(-a, b) == -TruncDiv(a, b)
    ensures TruncDiv(a, -b) == -TruncDiv(a, b)
  {
    var q := TruncDiv(a, b);
    NegatedProduct(q, b);
    assert -a - (-q) * b == -(a - q * b);
    assert IsTruncQuotient(-a, b, -q);
    TruncQuotientUnique(-a, b, -q, TruncDiv(-a, b));
    assert a - (-q) * (-b) == a - q * b;
    assert IsTruncQuotient(a, -b, -q);
    TruncQuotientUnique(a, -b, -q, TruncDiv(a, -b));
  }

  /** Against Dafny's Euclidean `/` for a positive divisor: the two agree unless the
      dividend is negative and not a multiple of the divisor, where C++ rounds up to
      one more than Dafny (C++ gives -7 / 2 == -3, Dafny -4). */
  lemma TruncDivVersusEuclidean(a: int, b: int)
    requires b > 0
    ensures TruncDiv(a, b) == if a >= 0 || a % b == 0 then a / b else a / b + 1
  {
    var e, m := a / b, a % b;
    assert a == e * b + m && 0 <= m < b;
    if a >= 0 || m == 0 {
      assert a - e * b == m;
      assert IsTruncQuotient(a, b, e);
      TruncQuotientUnique(a, b, e, TruncDiv(a, b));
    } else {
      assert (e + 1) * b == e * b + b;
      assert a - (e + 1) * b == m - b;
      assert IsTruncQuotient(a, b, e + 1);
      TruncQuotientUnique(a, b, e + 1, TruncDiv(a, b));
    }
  }
}
