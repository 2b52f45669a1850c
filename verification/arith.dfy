/** Natural powers and the uniqueness of Euclidean division, used by the byte
    packing and base-26 proofs. */
module Arith {

  function Pow(b: nat, e: nat): (r: nat)
    ensures b > 0 ==> r > 0
  {
    if e == 0 then 1 else b * Pow(b, e - 1)
  }

  /** Quotient and remainder are determined by `n == q * d + r` with `0 <= r < d`. */
  lemma DivModUnique(n: int, d: int, q: int, r: int)
    requires 0 < d && 0 <= r < d
    requires n == q * d + r
    ensures n / d == q && n % d == r
  {
    var q0, r0 := n / d, n % d;
    assert n == q0 * d + r0;
    if q > q0 {
      assert (q - q0) * d >= d by { MulMonotone(q - q0, 1, d); }
      assert false;
    } else if q < q0 {
      assert (q0 - q) * d >= d by { MulMonotone(q0 - q, 1, d); }
      assert false;
    }
  }

  lemma MulMonotone(a: int, b: int, d: int)
    requires a >= b && d >= 0
    ensures a * d >= b * d
  {
  }

  /** Peeling the lowest digit off a remainder: `(n / b) % m` and `n % b` together
      give `n % (b * m)`. */
  lemma ModOfProduct(n: nat, b: nat, m: nat)
    requires 0 < b && 0 < m
    ensures n % (b * m) == (n / b) % m * b + n % b
  {
    var q := n / b;
    var hi := q / m;
    var lo := q % m * b + n % b;
    assert n == hi * (b * m) + lo by {
      assert q == hi * m + q % m;
      assert n == q * b + n % b;
      calc {
        n;
        == (hi * m + q % m) * b + n % b;
        == hi * (b * m) + (q % m * b + n % b);
      }
    }
    assert lo < b * m by {
      assert q % m <= m - 1;
      MulMonotone(m - 1, q % m, b);
      assert q % m * b <= (m - 1) * b;
    }
    DivModUnique(n, b * m, hi, lo);
  }

  /** Appending a byte to a big-endian number scales the leading part by 256. */
  lemma ShiftByte(x: int, p: int, v: int, last: int)
    ensures (x * p + v) * 256 + last == x * (256 * p) + (v * 256 + last)
  {
  }
}
