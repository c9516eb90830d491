/** Natural-number facts shared by the big-endian byte conversions, the
    bit masks of dynamic truncation and the base-26 code alphabet: powers,
    bitwise AND, and how division and remainder by a product split into two
    steps. */
module Arith {

  /** b raised to the e-th power. */
  function Pow(b: nat, e: nat): (r: nat)
    ensures b > 0 ==> r > 0
  {
    if e == 0 then 1 else b * Pow(b, e - 1)
  }

  /** Powers add their exponents. */
  lemma {:induction false} PowAdd(b: nat, x: nat, y: nat)
    ensures Pow(b, x + y) == Pow(b, x) * Pow(b, y)
  {
    if y > 0 {
      PowAdd(b, x, y - 1);
      calc {
        Pow(b, x + y);
        b * Pow(b, x + y - 1);
        b * (Pow(b, x) * Pow(b, y - 1));
        Pow(b, x) * (b * Pow(b, y - 1));
        Pow(b, x) * Pow(b, y);
      }
    }
  }

  /** Bitwise AND of two naturals, one binary digit at a time from the least
      significant; the result has no bit that b lacks, so it is at most b. */
  function BitAnd(a: nat, b: nat): (r: nat)
    ensures r <= b
  {
    if a == 0 || b == 0 then 0
    else 2 * BitAnd(a / 2, b / 2) + (if a % 2 == 1 && b % 2 == 1 then 1 else 0)
  }

  /** Masking with k one-bits, 2^k - 1, keeps the value modulo 2^k. */
  lemma {:induction false} BitAndLowMask(a: nat, k: nat)
    ensures BitAnd(a, Pow(2, k) - 1) == a % Pow(2, k)
  {
    if k == 0 {
    } else if a == 0 {
      DivModUnique(0, Pow(2, k), 0, 0);
    } else {
      var h := Pow(2, k - 1);
      BitAndOddMask(a, h);
      BitAndLowMask(a / 2, k - 1);
      DivModSplit(a, 2, h);
      calc {
        BitAnd(a, Pow(2, k) - 1);
        BitAnd(a, 2 * h - 1);
        2 * BitAnd(a / 2, h - 1) + a % 2;
        2 * ((a / 2) % h) + a % 2;
        a % (2 * h);
        a % Pow(2, k);
      }
    }
  }

  /** One step of masking with an odd mask 2h - 1: the lowest bit of a is
      kept and the rest is masked with h - 1. */
  lemma BitAndOddMask(a: nat, h: nat)
    requires 0 < a && 0 < h
    ensures BitAnd(a, 2 * h - 1) == 2 * BitAnd(a / 2, h - 1) + a % 2
  {
    var m := 2 * h - 1;
    assert m % 2 == 1 && m / 2 == h - 1;
  }

  /** Euclidean division is determined by its defining equation. */
  lemma DivModUnique(n: nat, d: nat, q: nat, r: nat)
    requires 0 < d && r < d && n == q * d + r
    ensures n / d == q && n % d == r
  {
    var q', r' := n / d, n % d;
    assert n == q' * d + r';
    if q < q' {
      var k := q' - q;
      assert k * d == r - r' by {
        assert q' * d == (q + k) * d == q * d + k * d;
      }
      MulAtLeast(k, d);
    } else if q' < q {
      var k := q - q';
      assert k * d == r' - r by {
        assert q * d == (q' + k) * d == q' * d + k * d;
      }
      MulAtLeast(k, d);
    }
  }

  /** A positive multiple of d is at least d. */
  lemma MulAtLeast(k: nat, d: nat)
    requires 0 < k
    ensures k * d >= d
  {
    assert k * d == (k - 1) * d + d;
  }

  /** Dividing by b and then by m is dividing by b * m, and the remainder
      modulo b * m is made of the remainder modulo b and the next digit. */
  lemma DivModSplit(n: nat, b: nat, m: nat)
    requires 0 < b && 0 < m
    ensures (n / b) / m == n / (b * m)
    ensures n % (b * m) == n % b + b * ((n / b) % m)
  {
    var q1, r1 := n / b, n % b;
    var q2, r2 := q1 / m, q1 % m;
    Regroup(n, b, m, q1, r1, q2, r2);
    DivModUnique(n, b * m, q2, b * r2 + r1);
  }

  /** The two-step quotient and remainder, recombined over b * m. */
  lemma Regroup(n: nat, b: nat, m: nat, q1: nat, r1: nat, q2: nat, r2: nat)
    requires n == q1 * b + r1 && r1 < b
    requires q1 == q2 * m + r2 && r2 < m
    ensures n == q2 * (b * m) + (b * r2 + r1)
    ensures b * r2 + r1 < b * m
  {
    assert q1 * b == q2 * (b * m) + b * r2 by {
      calc {
        q1 * b;
        (q2 * m + r2) * b;
        (q2 * m) * b + r2 * b;
        q2 * (b * m) + b * r2;
      }
    }
    MulMonotone(b, r2, m - 1);
    assert b * (m - 1) == b * m - b;
  }

  /** Multiplying by a natural keeps the order. */
  lemma MulMonotone(x: nat, y: nat, z: nat)
    requires y <= z
    ensures x * y <= x * z
  {
    assert x * z == x * y + x * (z - y);
  }
}
