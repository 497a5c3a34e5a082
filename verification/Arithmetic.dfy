/** Division, divisibility and powers of two: the arithmetic the driver models share. */
module Arithmetic {

  // ----- machine integers -----------------------------------------------------------------

  const TWO_16: nat := 0x1_0000
  const TWO_32: nat := 0x1_0000_0000
  const TWO_64: nat := 0x1_0000_0000_0000_0000

  /** The value an unsigned 64-bit register keeps of n. */
  function Wrap64(n: nat): nat { n % TWO_64 }

  /** The value an unsigned 32-bit register keeps of n. */
  function Wrap32(n: nat): nat { n % TWO_32 }

  lemma Wrap32Sum(a: nat, b: nat)
    ensures Wrap32(Wrap32(a) + b) == Wrap32(a + b)
  {
  }

  lemma Wrap64Sum(a: nat, b: nat)
    ensures Wrap64(Wrap64(a) + b) == Wrap64(a + b)
  {
  }

  function Min(a: int, b: int): int { if a < b then a else b }

  function Max(a: int, b: int): int { if a < b then b else a }

  /** The rounded-up quotient the sources write as (n + d - 1) / d. */
  function CeilDiv(n: nat, d: nat): nat
    requires d > 0
  {
    (n + d - 1) / d
  }

  // ----- multiplication and division ------------------------------------------------------

  lemma MulMono(a: int, b: int, c: nat)
    requires a <= b
    ensures a * c <= b * c
  {
  }

  lemma DivModUnique(n: int, d: int, q: int, r: int)
    requires 0 <= r < d && n == d * q + r
    ensures n / d == q && n % d == r
  {
    var p := n / d;
    assert n == d * p + n % d;
    assert d * (p - q) == r - n % d;
    SmallMultiple(d, p - q);
  }

  lemma SmallMultiple(d: int, k: int)
    requires -d < d * k < d
    ensures k == 0
  {
  }

  lemma DivLess(n: nat, d: nat, q: nat)
    requires 0 < d && n < d * q
    ensures n / d < q
  {
  }

  lemma CeilDivExact(n: nat, d: nat)
    requires d > 0 && n % d == 0
    ensures CeilDiv(n, d) == n / d
  {
    DivModUnique(n + d - 1, d, n / d, d - 1);
  }

  // ----- divisibility ---------------------------------------------------------------------

  predicate Divides(d: nat, n: nat) {
    d > 0 && n % d == 0
  }

  lemma DividesIntro(d: nat, n: nat, k: nat)
    requires d > 0 && n == d * k
    ensures Divides(d, n) && n / d == k
  {
    DivModUnique(n, d, k, 0);
  }

  lemma DividesElim(d: nat, n: nat) returns (k: nat)
    requires Divides(d, n)
    ensures n == d * k && k == n / d
  {
    k := n / d;
  }

  lemma DividesLe(d: nat, n: nat)
    requires Divides(d, n) && n > 0
    ensures d <= n
  {
    var k := DividesElim(d, n);
    MulMono(1, k, d);
  }

  lemma DividesTrans(a: nat, b: nat, c: nat)
    requires Divides(a, b) && Divides(b, c)
    ensures Divides(a, c)
  {
    var i := DividesElim(a, b);
    var j := DividesElim(b, c);
    assert c == a * (i * j);
    DividesIntro(a, c, i * j);
  }

  lemma DividesSum(d: nat, a: nat, b: nat)
    requires Divides(d, a) && Divides(d, b)
    ensures Divides(d, a + b)
  {
    var i := DividesElim(d, a);
    var j := DividesElim(d, b);
    DividesIntro(d, a + b, i + j);
  }

  lemma DividesMultiple(d: nat, a: nat, k: nat)
    requires Divides(d, a)
    ensures Divides(d, a * k)
  {
    var i := DividesElim(d, a);
    assert a * k == d * (i * k);
    DividesIntro(d, a * k, i * k);
  }

  lemma FactorDivides(a: nat, b: nat, n: nat)
    requires a > 0 && b > 0 && Divides(a * b, n)
    ensures Divides(a, n)
  {
    var k := DividesElim(a * b, n);
    assert n == a * (b * k);
    DividesIntro(a, n, b * k);
  }

  // ----- powers of two --------------------------------------------------------------------

  predicate IsPow2(n: nat) {
    n == 1 || (n > 1 && n % 2 == 0 && IsPow2(n / 2))
  }

  /** Of two powers of two the smaller divides the larger, and the quotient is one as well. */
  lemma {:induction false} Pow2Divides(a: nat, b: nat)
    requires IsPow2(a) && IsPow2(b) && a <= b
    ensures Divides(a, b) && IsPow2(b / a)
  {
    if a == 1 {
      assert b % 1 == 0 && b / 1 == b;
    } else {
      Pow2Divides(a / 2, b / 2);
      var k := DividesElim(a / 2, b / 2);
      assert a == 2 * (a / 2) && b == 2 * (b / 2);
      assert b == a * k;
      DividesIntro(a, b, k);
    }
  }

  lemma {:induction false} Pow2Product(a: nat, b: nat)
    requires IsPow2(a) && IsPow2(b)
    ensures IsPow2(a * b)
  {
    if a > 1 {
      Pow2Product(a / 2, b);
      assert a == 2 * (a / 2);
      assert a * b == 2 * ((a / 2) * b);
      assert (a * b) / 2 == (a / 2) * b;
      MulMono(1, (a / 2) * b, 2);
    }
  }

  /** Two powers of two with b < a satisfy 2b <= a. */
  lemma {:induction false} Pow2Gap(a: nat, b: nat)
    requires IsPow2(a) && IsPow2(b) && b < a
    ensures 2 * b <= a
  {
    if b > 1 {
      Pow2Gap(a / 2, b / 2);
    }
  }
}
