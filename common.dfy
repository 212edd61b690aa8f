/** Small shared vocabulary: optional values, byte truncation and C arithmetic. */
module Common {

  datatype Option<T> = None | Some(value: T)

  /** C's conversion of an `int` to `unsigned char`: keep the low eight bits. */
  function ToByte(v: int): bv8
  {
    (v % 256) as bv8
  }

  /** The byte `n`, counted up from zero in `bv8` arithmetic. */
  function ByteOf(n: nat): bv8
    requires n < 256
  {
    if n == 0 then 0 else ByteOf(n - 1) + 1
  }

  lemma {:induction false} ByteOfValue(n: nat)
    requires n < 256
    ensures ByteOf(n) as int == n
  {
    if n > 0 {
      ByteOfValue(n - 1);
      var b := ByteOf(n - 1);
      assert (b + 1) as int == b as int + 1;
    }
  }

  /** A value that fits a byte survives the conversion to `bv8` and back. */
  lemma ByteValue(n: int)
    requires 0 <= n < 256
    ensures (n as bv8) as int == n
  {
    ByteOfValue(n);
    var b := ByteOf(n);
    assert (b as int) as bv8 == b;
  }

  /** `1 << n` on unbounded integers. */
  function Pow2(n: nat): (p: nat)
    ensures p >= 1
  {
    if n == 0 then 1 else 2 * Pow2(n - 1)
  }

  /** Absolute value, as C's `abs`. */
  function Abs(v: int): (r: nat)
    ensures r == v || r == -v
  {
    if v < 0 then -v else v
  }

  function Min(a: int, b: int): (r: int)
    ensures r <= a && r <= b && (r == a || r == b)
  {
    if a < b then a else b
  }

  function Max(a: int, b: int): (r: int)
    ensures r >= a && r >= b && (r == a || r == b)
  {
    if a > b then a else b
  }
  /**
   * C's integer division, which truncates toward zero (Dafny's `/` is
   * Euclidean; the two agree when neither operand is negative).
   */
  function CDiv(a: int, b: int): (q: int)
    requires b != 0
    ensures a >= 0 && b > 0 ==> q == a / b
  {
    var n: int, d: int := Abs(a), Abs(b);
    if (a < 0) == (b < 0) then n / d else -(n / d)
  }

  /**
   * CDiv truncates: the remainder it leaves is smaller than the divisor
   * in magnitude and is never of the opposite sign to the dividend.
   */
  lemma CDivRemainder(a: int, b: int)
    requires b != 0
    ensures Abs(a - CDiv(a, b) * b) < Abs(b)
    ensures a - CDiv(a, b) * b == 0 || (a - CDiv(a, b) * b < 0) == (a < 0)
  {
    var n: int, d: int := Abs(a), Abs(b);
    var k, r := n / d, n % d;
    assert n == k * d + r && 0 <= r < d;
    var q := CDiv(a, b);
    if a >= 0 && b > 0 {
      assert a - q * b == r;
    } else if a < 0 && b < 0 {
      assert q == k && a == -n && b == -d;
      assert a - q * b == -r;
    } else if a >= 0 {
      assert q == -k && a == n && b == -d;
      assert a - q * b == r;
    } else {
      assert q == -k && a == -n && b == d;
      assert a - q * b == -r;
    }
  }

  /** The pixel count of a non-empty raster is positive. */
  lemma PositiveProduct(a: int, b: int)
    requires a > 0 && b > 0
    ensures a * b > 0
  {
  }

  /** Block `k` of width `r` lies inside `n` when `k` is below the count of whole blocks. */
  lemma BlockFits(k: int, r: int, n: int)
    requires r >= 1 && n >= 0 && 0 <= k < n / r
    ensures 0 <= k * r && k * r + r <= n
  {
    var q := n / r;
    assert n == q * r + n % r;
    assert (q - (k + 1)) * r >= 0;
  }

  /** A product with a positive factor is negative only when the other factor is. */
  lemma NegativeFactor(a: int, r: int)
    requires r >= 1 && a * r < 0
    ensures a < 0
  {
  }

  /** A product with a positive factor is positive only when the other factor is. */
  lemma PositiveFactor(a: int, r: int)
    requires r >= 1 && a * r > 0
    ensures a > 0
  {
  }

  /** A quotient of a number below `k` divisors is below `k`. */
  lemma QuotientBelow(t: int, a: int, k: int)
    requires a >= 1 && 0 <= t < k * a
    ensures 0 <= t / a < k
  {
    var q, m := t / a, t % a;
    assert t == q * a + m && 0 <= m < a;
    assert (q - k) * a == q * a - k * a;
    NegativeFactor(q - k, a);
    assert (q + 1) * a == q * a + a;
    PositiveFactor(q + 1, a);
  }

  /** The next multiple of `r` after `k * r`. */
  lemma NextMultiple(k: int, r: int)
    ensures (k + 1) * r == k * r + r
  {
  }

  /** Multiplying by a positive factor keeps the order. */
  lemma ScaleOrder(a: int, b: int, r: int)
    requires r >= 1
    ensures a * r < b * r <==> a < b
  {
    assert (b - a) * r == b * r - a * r;
    if a * r < b * r {
      PositiveFactor(b - a, r);
    } else {
      assert (a - b) * r == a * r - b * r;
      assert (a - b) * r >= 0;
    }
  }

  /** The whole-block count is the one multiple that leaves less than a block over. */
  lemma FloorUnique(c: int, r: int, n: int)
    requires r >= 1 && 0 <= c && c * r <= n < c * r + r
    ensures c == n / r
  {
    var q, m := n / r, n % r;
    assert n == q * r + m && 0 <= m < r;
    assert (c - q - 1) * r == c * r - q * r - r;
    NegativeFactor(c - q - 1, r);
    assert (q - c - 1) * r == q * r - c * r - r;
    NegativeFactor(q - c - 1, r);
  }
}
