/** Powers of two, the division facts the bit-level proofs rely on, and regrouping of concatenations. */
module Arith {

  /** 2^n. */
  function Pow2(n: nat): (r: nat)
    ensures r >= 1
  {
    if n == 0 then 1 else 2 * Pow2(n - 1)
  }

  /** The widths the codecs use. */
  lemma Pow2Widths()
    ensures Pow2(8) == 0x100 && Pow2(16) == 0x1_0000 && Pow2(32) == 0x1_0000_0000
  {
    assert Pow2(4) == 16;
    assert Pow2(8) == 0x100;
    assert Pow2(12) == 0x1000;
    assert Pow2(16) == 0x1_0000;
    assert Pow2(20) == 0x10_0000;
    assert Pow2(24) == 0x100_0000;
    assert Pow2(28) == 0x1000_0000;
  }

  lemma {:induction false} Pow2Monotone(m: nat, n: nat)
    requires m <= n
    ensures Pow2(m) <= Pow2(n)
    decreases n - m
  {
    if m < n {
      Pow2Monotone(m + 1, n);
    }
  }

  lemma MulNonneg(a: int, b: int)
    requires a >= 0 && b >= 0
    ensures a * b >= 0
  {
  }

  lemma MulSucc(n: int, v: int)
    ensures (n + 1) * v == n * v + v
  {
  }

  /** Quotient and remainder are unique. */
  lemma DivUnique(c: int, d: int, q: int, r: int)
    requires d > 0 && 0 <= r < d && c == q * d + r
    ensures c / d == q && c % d == r
  {
    var q0 := c / d;
    if q > q0 {
      MulNonneg(q - q0 - 1, d);
    } else if q < q0 {
      MulNonneg(q0 - q - 1, d);
    }
  }

  /** Halving, then dividing by `d`, is dividing by `2 * d`. */
  lemma DivDiv(c: nat, d: nat)
    requires d >= 1
    ensures c / 2 / d == c / (2 * d)
    ensures c % (2 * d) == 2 * ((c / 2) % d) + c % 2
  {
    var h := c / 2;
    var q := h / d;
    var r := h % d;
    assert h == q * d + r;
    assert c == 2 * h + c % 2;
    assert c == q * (2 * d) + (2 * r + c % 2);
    DivUnique(c, 2 * d, q, 2 * r + c % 2);
  }

  /** Bit `n` of `c` extends the remainder modulo 2^n to the remainder modulo 2^(n+1). */
  lemma ModPow2Step(c: nat, n: nat)
    ensures c % Pow2(n + 1) == c % Pow2(n) + ((c / Pow2(n)) % 2) * Pow2(n)
  {
    var d := Pow2(n);
    var q := c / d;
    var r := c % d;
    var b := q % 2;
    assert q == 2 * (q / 2) + b;
    assert c == q * d + r;
    assert c == (q / 2) * (2 * d) + (b * d + r) by {
      assert q * d == (2 * (q / 2) + b) * d == (q / 2) * (2 * d) + b * d;
    }
    assert b * d <= d;
    DivUnique(c, 2 * d, q / 2, b * d + r);
  }

  /** A number below 2^n is its own remainder modulo 2^n. */
  lemma ModPow2Small(c: nat, n: nat)
    requires c < Pow2(n)
    ensures c % Pow2(n) == c
  {
    DivUnique(c, Pow2(n), 0, c);
  }

  /** Regrouping a concatenation of three pieces. */
  lemma ConcatAssoc<T>(a: seq<T>, b: seq<T>, c: seq<T>)
    ensures a + b + c == a + (b + c)
  {
  }
}
