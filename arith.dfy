/** Facts about Euclidean division on naturals that the index arithmetic of the model needs. */
module Arith {

  lemma MulMonotone(x: int, y: int, c: nat)
    requires x <= y
    ensures x * c <= y * c
  {
    var d := y - x;
    assert y * c == x * c + d * c;
  }

  /** Quotient and remainder are determined by `a == q * d + r` with `0 <= r < d`. */
  lemma DivModUnique(a: int, d: int, q: int, r: int)
    requires d > 0 && 0 <= r < d && a == q * d + r
    ensures a / d == q && a % d == r
  {
    var q', r' := a / d, a % d;
    assert a == q' * d + r';
    MulSign(q - q', d);
    assert (q - q') * d == r' - r;
  }

  lemma MulSign(x: int, d: int)
    requires d > 0
    ensures x >= 1 ==> x * d >= d
    ensures x <= -1 ==> x * d <= -d
  {
    if x >= 1 {
      MulMonotone(1, x, d);
    } else if x <= -1 {
      MulMonotone(x, -1, d);
    }
  }

  lemma DivAddMultiple(a: nat, b: nat, d: nat)
    requires d > 0
    ensures (a * d + b) / d == a + b / d
    ensures (a * d + b) % d == b % d
  {
    assert b == (b / d) * d + b % d;
    assert a * d + b == (a + b / d) * d + b % d;
    DivModUnique(a * d + b, d, a + b / d, b % d);
  }

  /** Quotient and remainder one divisor further on. */
  lemma DivModStep(k: nat, n: nat)
    requires 0 < n <= k
    ensures k / n == (k - n) / n + 1 && k % n == (k - n) % n
  {
    DivAddMultiple(1, k - n, n);
  }

  /** Dividing first by `t` and then reducing modulo `n` can ignore a multiple of `m * n * t`. */
  lemma DigitOfRemainder(k: nat, m: nat, n: nat, t: nat)
    requires m > 0 && n > 0 && t > 0
    ensures ((k % (m * n * t)) / t) % n == (k / t) % n
  {
    var s := m * n * t;
    var q, r := k / s, k % s;
    var a := q * m;
    assert q * s == (a * n) * t;
    DigitOfShifted(k, a, n, t, r);
  }

  lemma DigitOfShifted(k: nat, a: nat, n: nat, t: nat, r: nat)
    requires n > 0 && t > 0 && k == (a * n) * t + r
    ensures (r / t) % n == (k / t) % n
  {
    DivAddMultiple(a * n, r, t);
    DivAddMultiple(a, r / t, n);
  }

  lemma ModSmall(x: int, n: int)
    requires 0 <= x < n
    ensures x % n == x
  {
    DivModUnique(x, n, 0, x);
  }

  /** Stepping forward modulo `n` from below `n` wraps only from `n - 1`. */
  lemma ModOfSuccessor(i: nat, n: nat)
    requires i < n
    ensures (i + 1) % n == if i + 1 < n then i + 1 else 0
  {
    if i + 1 < n {
      ModSmall(i + 1, n);
    } else {
      DivModUnique(i + 1, n, 1, 0);
    }
  }

  function Pow2(k: nat): (r: nat)
    ensures r >= 1
  {
    if k == 0 then 1 else 2 * Pow2(k - 1)
  }

  ghost predicate IsPowerOfTwo(n: int)
  {
    exists k: nat :: Pow2(k) == n
  }

  lemma {:induction false} Pow2Add(a: nat, b: nat)
    ensures Pow2(a + b) == Pow2(a) * Pow2(b)
  {
    if a > 0 {
      Pow2Add(a - 1, b);
      assert Pow2(a + b) == 2 * Pow2(a - 1 + b);
      assert 2 * (Pow2(a - 1) * Pow2(b)) == (2 * Pow2(a - 1)) * Pow2(b);
    }
  }

  lemma {:induction false} Pow2Grows(a: nat, b: nat)
    requires a < b
    ensures Pow2(a) < Pow2(b)
  {
    if a + 1 < b {
      Pow2Grows(a, b - 1);
    }
  }

  lemma OddTimesOdd(d: int, q: int)
    ensures d % 2 == 1 && q % 2 == 1 ==> (d * q) % 2 == 1
  {
    if d % 2 == 1 && q % 2 == 1 {
      var a, b := d / 2, q / 2;
      assert d == 2 * a + 1 && q == 2 * b + 1;
      assert d * q == 2 * (2 * a * b + a + b) + 1;
      DivModUnique(d * q, 2, 2 * a * b + a + b, 1);
    }
  }

  /** The only divisors of a power of two are powers of two. */
  lemma {:induction false} DivisorOfPow2(d: nat, q: nat, k: nat)
    requires d * q == Pow2(k)
    ensures IsPowerOfTwo(d)
  {
    if k == 0 {
      assert d * q == 1;
      MulSign(q, d);
      assert d == 1 && Pow2(0) == d;
    } else if d % 2 == 0 {
      var h := d / 2;
      assert d == 2 * h;
      assert h * q * 2 == Pow2(k - 1) * 2;
      assert h * q == Pow2(k - 1);
      DivisorOfPow2(h, q, k - 1);
      var j: nat :| Pow2(j) == h;
      assert Pow2(j + 1) == d;
    } else {
      DivAddMultiple(Pow2(k - 1), 0, 2);
      OddTimesOdd(d, q);
      assert q % 2 == 0;
      var h := q / 2;
      assert q == 2 * h;
      assert d * h * 2 == Pow2(k - 1) * 2;
      DivisorOfPow2(d, h, k - 1);
    }
  }

  /**
   * `2^w - 1` leaves the remainder `n - 1` modulo `n` exactly when `n` is a power of two
   * (no larger than `2^w`).
   */
  lemma AllOnesRemainder(w: nat, n: nat)
    requires 1 <= n <= Pow2(w)
    ensures (Pow2(w) - 1) % n == n - 1 <==> IsPowerOfTwo(n)
  {
    if (Pow2(w) - 1) % n == n - 1 {
      AllOnesRemainderOnlyPow2(w, n);
    }
    if IsPowerOfTwo(n) {
      AllOnesRemainderOfPow2(w, n);
    }
  }

  lemma AllOnesRemainderOnlyPow2(w: nat, n: nat)
    requires 1 <= n && (Pow2(w) - 1) % n == n - 1
    ensures IsPowerOfTwo(n)
  {
    var m := Pow2(w);
    SuccessorOfLastRemainder(m - 1, n);
    DivisorOfPow2(n, (m - 1) / n + 1, w);
  }

  /** A number leaving the largest remainder modulo `n` is one short of a multiple of `n`. */
  lemma SuccessorOfLastRemainder(x: int, n: int)
    requires n >= 1 && x % n == n - 1
    ensures n * (x / n + 1) == x + 1
  {
    var q := x / n;
    assert x == q * n + (n - 1);
    assert n * (q + 1) == q * n + n;
  }

  lemma AllOnesRemainderOfPow2(w: nat, n: nat)
    requires 1 <= n <= Pow2(w) && IsPowerOfTwo(n)
    ensures (Pow2(w) - 1) % n == n - 1
  {
    var k: nat :| Pow2(k) == n;
    assert k <= w by {
      if k > w {
        Pow2Grows(w, k);
      }
    }
    Pow2Add(k, w - k);
    assert k + (w - k) == w;
    PredecessorOfMultiple(Pow2(w), n, Pow2(w - k));
  }

  lemma PredecessorOfMultiple(m: int, n: int, q: int)
    requires n >= 1 && q >= 1 && m == n * q
    ensures (m - 1) % n == n - 1
  {
    assert m - 1 == (q - 1) * n + (n - 1);
    DivModUnique(m - 1, n, q - 1, n - 1);
  }

  /** Dividing by `a` and then by `b` is dividing by their product. */
  lemma DivideTwice(x: real, a: real, b: real)
    requires a > 0.0 && b > 0.0
    ensures (x / a) / b == x / (a * b)
  {
    var q := x / a;
    assert q * a == x;
    assert (q / b) * (a * b) == q * a;
  }
}
