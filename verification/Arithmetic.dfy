/** Division by a positive number, stated once for the modules that shift, wrap or count days. */
module Arithmetic {

  /** Division and remainder of C for a positive divisor: towards zero. */
  function Quot(a: int, b: int): int
    requires b > 0
  {
    if a >= 0 then a / b else -(-a / b)
  }

  function Rem(a: int, b: int): int
    requires b > 0
  {
    a - b * Quot(a, b)
  }

  lemma MulAtLeast(d: int, w: int)
    requires w > 0
    ensures d >= 1 ==> d * w >= w
    ensures d <= -1 ==> d * w <= -w
  {
  }

  lemma DivUnique(x: int, w: int, q: int, r: int)
    requires w > 0 && x == q * w + r && 0 <= r < w
    ensures x / w == q && x % w == r
  {
    var d := x / w - q;
    assert d * w == r - x % w by {
      assert x == w * (x / w) + x % w;
      assert d * w == (x / w) * w - q * w;
    }
    MulAtLeast(d, w);
  }

  /** Whole multiples of the divisor pass through a division. */
  lemma DivAdd(q: int, r: int, w: int)
    requires w > 0
    ensures (q * w + r) / w == q + r / w
    ensures (q * w + r) % w == r % w
  {
    assert q * w + r == (q + r / w) * w + r % w by {
      assert r == w * (r / w) + r % w;
      assert (q + r / w) * w == q * w + (r / w) * w;
    }
    DivUnique(q * w + r, w, q + r / w, r % w);
  }

  /** A quotient grows by one exactly at the multiples of the divisor. */
  lemma DivStep(x: int, w: int)
    requires w > 1
    ensures (x + 1) / w == x / w + (if (x + 1) % w == 0 then 1 else 0)
  {
    if x % w == w - 1 {
      DivUnique(x + 1, w, x / w + 1, 0);
    } else {
      DivUnique(x + 1, w, x / w, x % w + 1);
    }
  }

  /** Reducing modulo a multiple of w * n does not disturb the digit x / w % n. */
  lemma DigitOfMod(x: nat, w: nat, k: nat, n: nat, m: nat)
    requires w > 0 && n > 0 && m > 0 && k == n * m
    ensures w * k > 0
    ensures x % (w * k) / w % n == x / w % n
  {
    var q, r := x / (w * k), x % (w * k);
    assert x == q * (w * k) + r;
    assert q * (w * k) == (q * k) * w;
    DivAdd(q * k, r, w);
    assert q * k == (q * m) * n;
    DivAdd(q * m, r / w, n);
  }

  /** Above a multiple of w * n * c, the digit at w is the digit of the remainder. */
  lemma DigitAbove(x: nat, d: nat, w: nat, n: nat, c: nat)
    requires w > 0 && n > 0 && c > 0 && x % (w * n * c) == 0
    ensures (x + d) / w % n == d / w % n
  {
    var k := x / (w * n * c);
    assert x == (k * c * n) * w;
    DivAdd(k * c * n, d, w);
    DivAdd(k * c, d / w, n);
  }
}
