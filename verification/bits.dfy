/**
 * JavaScript's bitwise operators on the values the decoder applies them to.
 *
 * JavaScript's `&`, `|`, `>>` and `<<` convert their operands to 32-bit
 * signed integers. Every operand in the decoder is a non-negative integer
 * below 2^23 and every shift stays below bit 31, so on those values the
 * operators coincide with the bitwise operations on natural numbers defined
 * here. The lemmas translate masks, shifts and disjoint ORs into arithmetic.
 */
module Bits {

  function Pow2(k: nat): (r: nat)
    ensures r >= 1
  {
    if k == 0 then 1 else 2 * Pow2(k - 1)
  }

  /** `a & b`, bit by bit from the least significant end. */
  function And(a: nat, b: nat): (r: nat)
    ensures r <= a && r <= b
    decreases a
  {
    if a == 0 || b == 0 then 0
    else 2 * And(a / 2, b / 2) + (if a % 2 == 1 && b % 2 == 1 then 1 else 0)
  }

  /** `a | b`, bit by bit from the least significant end. */
  function Or(a: nat, b: nat): (r: nat)
    ensures a <= r && b <= r && r <= a + b
    decreases a + b
  {
    if a == 0 then b
    else if b == 0 then a
    else 2 * Or(a / 2, b / 2) + (if a % 2 == 1 || b % 2 == 1 then 1 else 0)
  }

  /** `a >> n` for a non-negative `a`: `n` halvings, which is division by `2^n`. */
  function Shr(a: nat, n: nat): (r: nat)
    ensures r == a / Pow2(n)
  {
    if n == 0 then a
    else
      DivTwice(a, n - 1);
      Shr(a / 2, n - 1)
  }

  /** `a << n` for results that stay below 2^31. */
  function Shl(a: nat, n: nat): nat {
    a * Pow2(n)
  }

  lemma {:induction false} Pow2Add(j: nat, k: nat)
    ensures Pow2(j + k) == Pow2(j) * Pow2(k)
    decreases j
  {
    if j > 0 {
      Pow2Add(j - 1, k);
    }
  }

  lemma {:induction false} Pow2StrictlyMonotone(j: nat, k: nat)
    ensures j < k <==> Pow2(j) < Pow2(k)
    decreases k
  {
    if k > 0 {
      Pow2StrictlyMonotone(if j == 0 then 0 else j - 1, k - 1);
    }
  }

  /** Splitting off the lowest bit: `x / 2^(k+1) == (x / 2) / 2^k`. */
  lemma DivTwice(x: nat, k: nat)
    ensures x / Pow2(k + 1) == (x / 2) / Pow2(k)
    ensures x % Pow2(k + 1) == 2 * ((x / 2) % Pow2(k)) + x % 2
  {
    var p := Pow2(k);
    var q := (x / 2) / p;
    var s := (x / 2) % p;
    assert x / 2 == q * p + s;
    assert x == (q * p + s) * 2 + x % 2;
    assert x == q * (2 * p) + (2 * s + x % 2);
    assert 0 <= 2 * s + x % 2 < 2 * p;
    DivModUnique(x, 2 * p, q, 2 * s + x % 2);
  }

  lemma MulAtLeast(a: int, d: int)
    requires a >= 1 && d >= 0
    ensures a * d >= d
  {
    assert a * d == (a - 1) * d + d;
  }

  lemma DivModUnique(x: nat, d: nat, q: nat, s: nat)
    requires d > 0 && s < d && x == q * d + s
    ensures x / d == q && x % d == s
  {
    var q' := x / d;
    var s' := x % d;
    assert x == q' * d + s';
    if q' < q {
      assert q * d == q' * d + (q - q') * d;
      MulAtLeast(q - q', d);
    } else if q' > q {
      assert q' * d == q * d + (q' - q) * d;
      MulAtLeast(q' - q, d);
    }
  }

  /** Masking with `2^k - 1` keeps the `k` low bits. */
  lemma {:induction false} AndLowMask(x: nat, k: nat)
    ensures And(x, Pow2(k) - 1) == x % Pow2(k)
    decreases k
  {
    if k == 0 {
      assert Pow2(k) == 1;
    } else if x == 0 {
      assert And(x, Pow2(k) - 1) == 0;
    } else {
      var p := Pow2(k - 1);
      var m := Pow2(k) - 1;
      assert m / 2 == p - 1 && m % 2 == 1 by {
        assert m == 2 * (p - 1) + 1;
      }
      assert And(x, m) == 2 * And(x / 2, p - 1) + x % 2;
      assert And(x / 2, p - 1) == (x / 2) % p by {
        AndLowMask(x / 2, k - 1);
      }
      assert x % Pow2(k) == 2 * ((x / 2) % p) + x % 2 by {
        DivTwice(x, k - 1);
      }
    }
  }

  /** An even mask ignores bit 0 of `x`: `x & 2m == (x >> 1 & m) << 1`. */
  lemma AndEven(x: nat, m: nat)
    ensures And(x, 2 * m) == 2 * And(x / 2, m)
  {
    if x != 0 && m != 0 {
      assert (2 * m) / 2 == m && (2 * m) % 2 == 0;
      assert And(x, 2 * m) == 2 * And(x / 2, m) + 0;
    }
  }

  /** Bit `k` of `x` is set exactly when `x & 2^k` is non-zero. */
  lemma {:induction false} BitTest(x: nat, k: nat)
    ensures And(x, Pow2(k)) != 0 <==> (x / Pow2(k)) % 2 == 1
    decreases k
  {
    if k == 0 {
      AndLowMask(x, 1);
    } else {
      AndEven(x, Pow2(k - 1));
      BitTest(x / 2, k - 1);
      DivTwice(x, k - 1);
    }
  }

  /** `x & 0x0c` keeps bits 2 and 3 of `x`. */
  lemma AndBits2To3(x: nat)
    ensures And(x, 0x0c) == ((x / 4) % 4) * 4
  {
    var x1 := x / 2;
    var x2 := x1 / 2;
    assert x2 == x / 4;
    assert And(x2, 3) == x2 % 4 by {
      AndLowMask(x2, 2);
      assert Pow2(2) == 4;
    }
    assert And(x1, 6) == 2 * (x2 % 4) by { AndEven(x1, 3); }
    assert And(x, 12) == 4 * (x2 % 4) by { AndEven(x, 6); }
  }

  /** `x & 0xf0` keeps the high nibble of a byte. */
  lemma AndHighNibble(x: nat)
    requires x < 256
    ensures And(x, 0xf0) == (x / 16) * 16
  {
    var x1 := x / 2;
    var x2 := x1 / 2;
    var x3 := x2 / 2;
    var x4 := x3 / 2;
    assert x4 == x / 16;
    assert And(x4, 15) == x4 by {
      AndLowMask(x4, 4);
      assert Pow2(4) == 16;
    }
    assert And(x3, 30) == 2 * x4 by { AndEven(x3, 15); }
    assert And(x2, 60) == 4 * x4 by { AndEven(x2, 30); }
    assert And(x1, 120) == 8 * x4 by { AndEven(x1, 60); }
    assert And(x, 240) == 16 * x4 by { AndEven(x, 120); }
  }

  lemma {:induction false} OrCommutes(a: nat, b: nat)
    ensures Or(a, b) == Or(b, a)
    decreases a + b
  {
    if a != 0 && b != 0 {
      OrCommutes(a / 2, b / 2);
    }
  }

  /** When the bits of `a` all lie above bit `k` and `b < 2^k`, OR is addition. */
  lemma {:induction false} OrDisjoint(a: nat, b: nat, k: nat)
    requires a % Pow2(k) == 0 && b < Pow2(k)
    ensures Or(a, b) == a + b && Or(b, a) == a + b
    decreases k
  {
    OrCommutes(a, b);
    if k > 0 && a != 0 && b != 0 {
      DivTwice(a, k - 1);
      assert b / 2 < Pow2(k - 1);
      OrDisjoint(a / 2, b / 2, k - 1);
    }
  }
}
