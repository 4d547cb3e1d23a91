/** Powers and the bitwise operators of unsigned words, on the numbers they stand for. */
module Bits {

  function Pow(b: nat, n: nat): (p: nat)
    ensures b > 0 ==> p > 0
  {
    if n == 0 then 1 else b * Pow(b, n - 1)
  }

  lemma {:induction false} PowSum(b: nat, m: nat, n: nat)
    ensures Pow(b, m + n) == Pow(b, m) * Pow(b, n)
    decreases m
  {
    if m > 0 {
      PowSum(b, m - 1, n);
      assert Pow(b, m + n) == b * Pow(b, (m - 1) + n) && Pow(b, m) == b * Pow(b, m - 1);
      hide Pow;
      Reorder(b, Pow(b, m - 1), Pow(b, n));
    }
  }

  lemma Reorder(a: nat, b: nat, c: nat)
    ensures a * (b * c) == (a * b) * c
  {
  }

  lemma Regroup(a: nat, b: nat, p: nat, q: nat)
    ensures (a * b) * (p * q) == (a * p) * (b * q)
  {
  }

  lemma {:induction false} PowOfProduct(a: nat, b: nat, n: nat)
    ensures Pow(a * b, n) == Pow(a, n) * Pow(b, n)
  {
    if n > 0 {
      PowOfProduct(a, b, n - 1);
      Regroup(a, b, Pow(a, n - 1), Pow(b, n - 1));
    }
  }

  lemma {:induction false} PowGrows(b: nat, m: nat, n: nat)
    requires b > 0 && m <= n
    ensures Pow(b, m) <= Pow(b, n)
  {
    if m < n {
      PowGrows(b, m, n - 1);
      var p := Pow(b, n - 1);
      assert p <= b * p;
    }
  }

  lemma PowersOfTwo()
    ensures Pow(2, 32) == 0x1_0000_0000 && Pow(2, 64) == 0x1_0000_0000_0000_0000
  {
    assert Pow(2, 8) == 256;
    hide Pow;
    PowSum(2, 8, 8);
    assert Pow(2, 16) == 65536;
    PowSum(2, 16, 16);
    PowSum(2, 32, 32);
  }

  function BitAnd(a: nat, b: nat): nat {
    if a == 0 || b == 0 then 0
    else (if a % 2 == 1 && b % 2 == 1 then 1 else 0) + 2 * BitAnd(a / 2, b / 2)
  }

  function BitOr(a: nat, b: nat): nat {
    if a == 0 then b
    else if b == 0 then a
    else (if a % 2 == 1 || b % 2 == 1 then 1 else 0) + 2 * BitOr(a / 2, b / 2)
  }

  lemma HalfOfModulo(a: nat, p: nat)
    requires p > 0
    ensures a % (2 * p) == a % 2 + 2 * (a / 2 % p)
  {
    var q, r := a / 2 / p, a / 2 % p;
    assert a / 2 == q * p + r;
    assert a == a % 2 + 2 * (q * p + r);
    assert a == q * (2 * p) + (a % 2 + 2 * r);
    UniqueRemainder(a, 2 * p, q, a % 2 + 2 * r);
  }

  lemma UniqueRemainder(a: nat, m: nat, q: nat, r: nat)
    requires a == q * m + r && r < m
    ensures a / m == q && a % m == r
  {
    var q', r' := a / m, a % m;
    assert a == q' * m + r';
    if q > q' {
      MoreIsLarger(q, q', m);
    } else if q < q' {
      MoreIsLarger(q', q, m);
    }
  }

  lemma MoreIsLarger(x: nat, y: nat, m: nat)
    requires x > y
    ensures x * m >= y * m + m
  {
    assert x * m == (x - 1) * m + m;
    if x - 1 > y {
      MoreIsLarger(x - 1, y, m);
    }
  }

  /** A mask of `k` ones keeps the remainder modulo `2^k`. */
  lemma {:induction false} AndMask(a: nat, k: nat)
    ensures BitAnd(a, Pow(2, k) - 1) == a % Pow(2, k)
    decreases k
  {
    if k > 0 {
      var p := Pow(2, k - 1);
      HalfOfModulo(a, p);
      AndMask(a / 2, k - 1);
      var mask := 2 * p - 1;
      assert mask / 2 == p - 1 && mask % 2 == 1;
      if a == 0 {
        UniqueRemainder(0, 2 * p, 0, 0);
      }
    }
  }

  lemma DoubleProduct(a: nat, p: nat)
    ensures a * (2 * p) == 2 * (a * p)
  {
  }

  lemma OrOfEven(high: nat, b: nat)
    ensures BitOr(2 * high, b) == b % 2 + 2 * BitOr(high, b / 2)
  {
  }

  /** Words with no common bit: one ends where the other begins. */
  lemma OrNothing(a: nat)
    ensures BitOr(a, 0) == a
  {
  }

  lemma {:induction false} OrDisjoint(a: nat, b: nat, k: nat)
    requires b < Pow(2, k)
    ensures BitOr(a * Pow(2, k), b) == a * Pow(2, k) + b
    decreases k
  {
    OrNothing(a);
    hide BitOr;
    if k == 0 {
      assert Pow(2, 0) == 1 && b == 0;
    } else {
      var p := Pow(2, k - 1);
      assert Pow(2, k) == 2 * p;
      hide Pow;
      OrDisjoint(a, b / 2, k - 1);
      DoubleProduct(a, p);
      OrOfEven(a * p, b);
    }
  }
}
