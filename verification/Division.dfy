/** Quotients and remainders by an arbitrary positive number: positions in blocks and in a ring. */
module Division {

  /** A block size or a ring size. */
  type Size = n: nat | n > 0 witness 1

  /** Only one quotient and remainder describe x. */
  lemma Unique(n: Size, x: int, q: int, r: int)
    requires x == n * q + r && 0 <= r < n
    ensures x / n == q && x % n == r
  {
    var d := q - x / n;
    assert x == n * (x / n) + x % n;
    assert n * d == x % n - r by { Distribute(n, q, x / n); }
    if d > 0 {
      AtLeast(n, d);
      assert false;
    } else if d < 0 {
      AtLeast(n, -d);
      Distribute(n, 0, d);
      assert false;
    }
  }

  lemma Distribute(n: int, a: int, b: int)
    ensures n * (a - b) == n * a - n * b
  {
  }

  lemma {:induction false} AtLeast(n: int, d: int)
    requires n > 0 && d > 0
    ensures n * d >= n
    decreases d
  {
    if d > 1 {
      Distribute(n, d, 1);
      AtLeast(n, d - 1);
    }
  }

  lemma Grows(n: Size, a: int, b: int)
    requires a <= b
    ensures n * a <= n * b
    ensures a < b ==> n * a + n <= n * b
  {
    if a < b {
      Distribute(n, b, a);
      AtLeast(n, b - a);
    }
  }

  /** The remainder of a number below 2n. */
  lemma Below(n: Size, x: nat)
    requires x < n + n
    ensures x % n == if x < n then x else x - n
  {
    if x < n {
      Unique(n, x, 0, x);
    } else {
      Unique(n, x, 1, x - n);
    }
  }

  /** Remainders can be taken before a sum. */
  lemma RemainderOfSum(n: Size, a: nat, b: nat)
    ensures (a % n + b) % n == (a + b) % n
  {
    var q, r := (a % n + b) / n, (a % n + b) % n;
    assert a == n * (a / n) + a % n && a % n + b == n * q + r;
    Distribute(n, a / n, -q);
    Unique(n, a + b, a / n + q, r);
  }

  /** One step further. */
  lemma Successor(n: Size, x: nat)
    ensures if x % n + 1 < n then (x + 1) / n == x / n && (x + 1) % n == x % n + 1
            else (x + 1) / n == x / n + 1 && (x + 1) % n == 0
  {
    assert x == n * (x / n) + x % n;
    if x % n + 1 < n {
      Unique(n, x + 1, x / n, x % n + 1);
    } else {
      assert n * (x / n + 1) == n * (x / n) + n by { Distribute(n, x / n, -1); }
      Unique(n, x + 1, x / n + 1, 0);
    }
  }

  /** Numbers less than n apart have different remainders. */
  lemma Apart(n: Size, a: nat, b: nat)
    requires a < b < a + n
    ensures a % n != b % n
  {
    var p, q := a / n, b / n;
    if a % n == b % n {
      assert a == n * p + a % n && b == n * q + b % n;
      Distribute(n, q, p);
      Distribute(n, p, q);
      if q > p {
        AtLeast(n, q - p);
      } else if q < p {
        AtLeast(n, p - q);
      }
      assert false;
    }
  }
}
