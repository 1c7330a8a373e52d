/** The bitwise operators of C on natural numbers, described bit by bit. */
module Bits {

  predicate Bit(x: nat, i: nat) {
    if i == 0 then x % 2 == 1 else Bit(x / 2, i - 1)
  }

  function Pow2(n: nat): (r: nat)
    ensures r > 0
  {
    if n == 0 then 1 else 2 * Pow2(n - 1)
  }

  function And(x: nat, y: nat): nat {
    if x == 0 || y == 0 then 0 else (if x % 2 == 1 && y % 2 == 1 then 1 else 0) + 2 * And(x / 2, y / 2)
  }

  function Or(x: nat, y: nat): nat
    decreases x + y
  {
    if x == 0 then y else if y == 0 then x
    else (if x % 2 == 1 || y % 2 == 1 then 1 else 0) + 2 * Or(x / 2, y / 2)
  }

  function Shl(x: nat, n: nat): nat {
    if n == 0 then x else 2 * Shl(x, n - 1)
  }

  function Shr(x: nat, n: nat): nat {
    if n == 0 then x else Shr(x / 2, n - 1)
  }

  /** `(1 << n) - 1` */
  function Ones(n: nat): nat {
    if n == 0 then 0 else 1 + 2 * Ones(n - 1)
  }

  /** `~x` in a word of `w` bits. */
  function Not(x: nat, w: nat): nat {
    if w == 0 then 0 else (if x % 2 == 1 then 0 else 1) + 2 * Not(x / 2, w - 1)
  }

  lemma {:induction false} BitZero(i: nat)
    ensures !Bit(0, i)
  {
    if i > 0 { BitZero(i - 1); }
  }

  lemma {:induction false} BitAnd(x: nat, y: nat, i: nat)
    ensures Bit(And(x, y), i) <==> Bit(x, i) && Bit(y, i)
  {
    BitZero(i);
    if x != 0 && y != 0 && i > 0 {
      assert And(x, y) / 2 == And(x / 2, y / 2);
      BitAnd(x / 2, y / 2, i - 1);
    }
  }

  lemma {:induction false} BitOr(x: nat, y: nat, i: nat)
    ensures Bit(Or(x, y), i) <==> Bit(x, i) || Bit(y, i)
  {
    BitZero(i);
    if x != 0 && y != 0 && i > 0 {
      assert Or(x, y) / 2 == Or(x / 2, y / 2);
      BitOr(x / 2, y / 2, i - 1);
    }
  }

  lemma {:induction false} BitShl(x: nat, n: nat, i: nat)
    ensures Bit(Shl(x, n), i) <==> i >= n && Bit(x, i - n)
  {
    if n > 0 && i > 0 {
      assert Shl(x, n) / 2 == Shl(x, n - 1);
      BitShl(x, n - 1, i - 1);
    }
  }

  lemma {:induction false} BitShr(x: nat, n: nat, i: nat)
    ensures Bit(Shr(x, n), i) <==> Bit(x, i + n)
  {
    if n > 0 { BitShr(x / 2, n - 1, i); }
  }

  lemma {:induction false} BitOnes(n: nat, i: nat)
    ensures Bit(Ones(n), i) <==> i < n
  {
    BitZero(i);
    if n > 0 && i > 0 {
      assert Ones(n) / 2 == Ones(n - 1);
      BitOnes(n - 1, i - 1);
    }
  }

  lemma {:induction false} BitNot(x: nat, w: nat, i: nat)
    ensures Bit(Not(x, w), i) <==> i < w && !Bit(x, i)
  {
    BitZero(i);
    if w > 0 && i > 0 {
      assert Not(x, w) / 2 == Not(x / 2, w - 1);
      BitNot(x / 2, w - 1, i - 1);
    }
  }

  /** Numbers with the same bits are equal. */
  lemma {:induction false} SameBits(x: nat, y: nat)
    requires forall i: nat :: Bit(x, i) <==> Bit(y, i)
    ensures x == y
    decreases x + y
  {
    assert Bit(x, 0) <==> Bit(y, 0);
    if x != 0 || y != 0 {
      forall i: nat ensures Bit(x / 2, i) <==> Bit(y / 2, i) { assert Bit(x, i + 1) <==> Bit(y, i + 1); }
      SameBits(x / 2, y / 2);
    }
  }

  /** A number without bits from `n` on is below 2^n. */
  lemma {:induction false} BitsBound(x: nat, n: nat)
    requires forall i: nat :: i >= n ==> !Bit(x, i)
    ensures x < Pow2(n)
    decreases x, n
  {
    if n > 0 {
      forall i: nat | i >= n - 1 ensures !Bit(x / 2, i) { assert !Bit(x, i + 1); }
      if x > 0 { BitsBound(x / 2, n - 1); }
    } else {
      forall i: nat ensures Bit(x, i) <==> Bit(0, i) { BitZero(i); assert !Bit(x, i); }
      SameBits(x, 0);
    }
  }

  lemma {:induction false} BitMod(x: nat, n: nat, i: nat)
    ensures Bit(x % Pow2(n), i) <==> i < n && Bit(x, i)
    decreases n
  {
    BitZero(i);
    if n > 0 {
      ModHalves(x, Pow2(n - 1));
      if i > 0 { BitMod(x / 2, n - 1, i - 1); }
    }
  }

  lemma ModHalves(x: nat, p: nat)
    requires p > 0
    ensures x % (2 * p) == 2 * ((x / 2) % p) + x % 2
  {
    var q, r := (x / 2) / p, (x / 2) % p;
    assert x == (2 * p) * q + (2 * r + x % 2) by {
      assert x / 2 == p * q + r;
    }
    DivModUnique(x, 2 * p, q, 2 * r + x % 2);
  }

  lemma DivModUnique(x: int, m: int, q: int, r: int)
    requires m > 0 && x == m * q + r && 0 <= r < m
    ensures x % m == r
  {
    var q', r' := x / m, x % m;
    assert x == m * q' + r' && 0 <= r' < m;
    Apart(m, q, r, q', r');
    Apart(m, q', r', q, r);
  }

  lemma Apart(m: int, a: int, r: int, b: int, s: int)
    requires m > 0 && m * a + r == m * b + s && 0 <= r < m && 0 <= s < m
    ensures a <= b
  {
    if a > b {
      Scaled(m, b, a - b);
    }
  }

  lemma {:induction false} Scaled(m: int, b: int, d: int)
    requires m > 0 && d >= 1
    ensures m * (b + d) >= m * b + m
    decreases d
  {
    assert m * (b + d) == m * (b + (d - 1)) + m;
    if d > 1 { Scaled(m, b, d - 1); }
  }
}
