/** Minimum, maximum, and division facts for a divisor that is not a literal. */
module Arithmetic {
  function Max(a: int, b: int): int {
    if a < b then b else a
  }

  function Min(a: int, b: int): int {
    if a < b then a else b
  }

  lemma MultipleBound(d: int, n: int)
    requires n > 0
    ensures d >= 1 ==> d * n >= n
    ensures d <= -1 ==> d * n <= -n
  {
  }

  lemma QuotientUnique(x: int, n: int, q: int, r: int)
    requires n > 0 && x == q * n + r && 0 <= r < n
    ensures x / n == q && x % n == r
  {
    assert (q - x / n) * n == x % n - r;
    MultipleBound(q - x / n, n);
  }

  lemma QuotientStep(x: int, n: int)
    requires n > 0
    ensures (x + 1) / n == x / n + if (x + 1) % n == 0 then 1 else 0
  {
    var q, r := x / n, x % n;
    if r + 1 < n {
      QuotientUnique(x + 1, n, q, r + 1);
    } else {
      QuotientUnique(x + 1, n, q + 1, 0);
    }
  }

  lemma QuotientMonotone(x: int, y: int, n: int)
    requires n > 0 && x <= y
    ensures x / n <= y / n
  {
    assert (x / n - y / n) * n == x - x % n - y + y % n;
    MultipleBound(x / n - y / n, n);
  }

  lemma Congruent(a: int, b: int, n: int)
    requires n > 0
    ensures a % n == b % n <==> (a - b) % n == 0
  {
    var p, q := a / n, b / n;
    if a % n == b % n {
      QuotientUnique(a - b, n, p - q, 0);
    }
    if (a - b) % n == 0 {
      var k := (a - b) / n;
      assert a == (q + k) * n + b % n;
      QuotientUnique(a, n, q + k, b % n);
    }
  }

  /** Adding the divisor changes no remainder. */
  lemma RemainderShift(x: int, n: int)
    requires n > 0
    ensures (x + n) % n == x % n
  {
    QuotientUnique(x + n, n, x / n + 1, x % n);
  }

  lemma RemainderSmall(x: int, n: int)
    requires 0 <= x < n
    ensures x % n == x && x / n == 0
  {
    QuotientUnique(x, n, 0, x);
  }

  lemma RemainderInside(a: int, b: int, n: int)
    requires n > 0
    ensures (a % n + b) % n == (a + b) % n
  {
    var r := (a % n + b) % n;
    QuotientUnique(a + b, n, a / n + (a % n + b) / n, r);
  }

  lemma RemainderNext(x: int, r: int, y: int, n: int)
    requires n > 0 && r == x % n && y == x + 1
    ensures (r + 1) % n == y % n
  {
    RemainderInside(x, 1, n);
  }
}
