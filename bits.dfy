/** Bitwise arithmetic on unbounded non-negative integers, as Python's `&`, `|`,
    `^`, `<<` and `>>` behave on non-negative `int` values, together with the
    facts that let a computation on such integers be read modulo 2^n. */
module Bits {

  /** 2 to the power n. */
  function Pow2(n: nat): (r: nat)
    ensures r >= 1
  {
    if n == 0 then 1 else 2 * Pow2(n - 1)
  }

  /** The three bitwise operators `&`, `|` and `^`. */
  datatype Op = AndOp | OrOp | XorOp

  /** An operator applied to two single bits. */
  function BitOf(op: Op, x: nat, y: nat): (b: nat)
    requires x < 2 && y < 2
    ensures b < 2
    ensures b == 0 <== x == 0 && y == 0
  {
    match op
    case AndOp => x * y
    case OrOp => if x + y > 0 then 1 else 0
    case XorOp => (x + y) % 2
  }

  /** An operator applied bit by bit, lowest bit first, to integers of any width. */
  function Bitwise(op: Op, a: nat, b: nat): nat
    decreases a + b
  {
    if a == 0 && b == 0 then 0
    else 2 * Bitwise(op, a / 2, b / 2) + BitOf(op, a % 2, b % 2)
  }

  function And(a: nat, b: nat): nat { Bitwise(AndOp, a, b) }
  function Or(a: nat, b: nat): nat { Bitwise(OrOp, a, b) }
  function Xor(a: nat, b: nat): nat { Bitwise(XorOp, a, b) }

  /** `x << n`: Python never drops the bits shifted past any width. */
  function Shl(x: nat, n: nat): nat { x * Pow2(n) }

  /** `x >> n`. */
  function Shr(x: nat, n: nat): nat
  {
    DivBound(x, Pow2(n));
    x / Pow2(n)
  }

  // ---------------------------------------------------------------------------
  // Arithmetic facts

  lemma Pow2Values()
    ensures Pow2(8) == 0x100 && Pow2(13) == 0x2000 && Pow2(15) == 0x8000
    ensures Pow2(16) == 0x1_0000 && Pow2(17) == 0x2_0000 && Pow2(19) == 0x8_0000
    ensures Pow2(24) == 0x100_0000 && Pow2(31) == 0x8000_0000
    ensures Pow2(32) == 0x1_0000_0000
  {
  }

  /** Division with remainder has exactly one answer. */
  lemma DivModUnique(a: int, d: int, q: int, r: int)
    requires d > 0 && 0 <= r < d && a == q * d + r
    ensures a / d == q && a % d == r
  {
    var q', r' := a / d, a % d;
    assert q * d + r == q' * d + r';
    assert (q - q') * d == q * d - q' * d;
    SmallMultipleIsZero(q - q', d);
  }

  /** The only multiple of d strictly between -d and d is 0. */
  lemma SmallMultipleIsZero(t: int, d: int)
    requires d > 0 && -d < t * d < d
    ensures t == 0
  {
    if t >= 1 {
      MulNonNegative(t - 1, d);
      assert false;
    } else if t <= -1 {
      MulNonNegative(-t - 1, d);
      assert false;
    }
  }

  /** Dividing a non-negative number by a positive one gives at most it. */
  lemma DivBound(x: nat, d: nat)
    requires d > 0
    ensures 0 <= x / d <= x
  {
    var q, r := x / d, x % d;
    assert x == d * q + r;
    if q < 0 {
      MulNonNegative(d, -q);
      assert false;
    }
    if q > x {
      MulNonNegative(d - 1, q);
      assert false;
    }
  }

  lemma MulNonNegative(x: int, y: int)
    requires x >= 0 && y >= 0
    ensures x * y >= 0
  {
  }

  /** Appending a low bit c to X and reducing modulo 2P reduces X modulo P. */
  lemma ModDouble(x: nat, c: nat, p: nat)
    requires c < 2 && p >= 1
    ensures (2 * x + c) % (2 * p) == 2 * (x % p) + c
  {
    var q, r := x / p, x % p;
    assert 2 * x + c == q * (2 * p) + (2 * r + c);
    DivModUnique(2 * x + c, 2 * p, q, 2 * r + c);
  }

  /** Reducing modulo 2P, then splitting off the low bit. */
  lemma SplitMod(a: nat, p: nat)
    requires p >= 1
    ensures (a % (2 * p)) / 2 == (a / 2) % p
    ensures (a % (2 * p)) % 2 == a % 2
  {
    var h, e := a / 2, a % 2;
    var q, r := h / p, h % p;
    assert a == q * (2 * p) + (2 * r + e);
    DivModUnique(a, 2 * p, q, 2 * r + e);
    DivModUnique(2 * r + e, 2, r, e);
  }

  /** The low bits of a product depend only on the low bits of a factor. */
  lemma MulMod(x: nat, c: nat, m: nat)
    requires m > 0
    ensures (x * c) % m == ((x % m) * c) % m
  {
    var q, r := x / m, x % m;
    assert x * c == (q * c) * m + r * c;
    var q2, r2 := (r * c) / m, (r * c) % m;
    assert x * c == (q * c + q2) * m + r2;
    DivModUnique(x * c, m, q * c + q2, r2);
  }

  /** The low bits of a sum depend only on the low bits of a summand. */
  lemma AddMod(x: nat, c: nat, m: nat)
    requires m > 0
    ensures (x + c) % m == ((x % m) + c) % m
  {
    var q, r := x / m, x % m;
    var q2, r2 := (r + c) / m, (r + c) % m;
    assert x + c == (q + q2) * m + r2;
    DivModUnique(x + c, m, q + q2, r2);
  }

  // ---------------------------------------------------------------------------
  // Bitwise facts

  lemma BitwiseStep(op: Op, a: nat, b: nat)
    ensures Bitwise(op, a, b) == 2 * Bitwise(op, a / 2, b / 2) + BitOf(op, a % 2, b % 2)
  {
  }

  /** Bit n of a bitwise result depends only on bit n of the operands, so the
      low n bits of the result are the result on the low n bits. */
  lemma {:induction false} BitwiseLow(op: Op, a: nat, b: nat, n: nat)
    ensures Bitwise(op, a, b) % Pow2(n) == Bitwise(op, a % Pow2(n), b % Pow2(n))
  {
    if n == 0 {
      assert a % 1 == 0 && b % 1 == 0;
    } else {
      var p := Pow2(n - 1);
      assert Pow2(n) == 2 * p;
      var x := Bitwise(op, a / 2, b / 2);
      var c := BitOf(op, a % 2, b % 2);
      var a', b' := a % (2 * p), b % (2 * p);
      BitwiseStep(op, a, b);
      ModDouble(x, c, p);
      assert Bitwise(op, a, b) % (2 * p) == 2 * (x % p) + c;
      BitwiseLow(op, a / 2, b / 2, n - 1);
      SplitMod(a, p);
      SplitMod(b, p);
      BitwiseStep(op, a', b');
      assert Bitwise(op, a', b') == 2 * Bitwise(op, (a / 2) % p, (b / 2) % p) + c;
    }
  }

  /** Operands below 2^n give a result below 2^n. */
  lemma BitwiseBound(op: Op, a: nat, b: nat, n: nat)
    requires a < Pow2(n) && b < Pow2(n)
    ensures Bitwise(op, a, b) < Pow2(n)
  {
    BitwiseLow(op, a, b, n);
    DivModUnique(a, Pow2(n), 0, a);
    DivModUnique(b, Pow2(n), 0, b);
  }

  lemma {:induction false} BitwiseCommutes(op: Op, a: nat, b: nat)
    ensures Bitwise(op, a, b) == Bitwise(op, b, a)
    decreases a + b
  {
    if a != 0 || b != 0 {
      BitwiseCommutes(op, a / 2, b / 2);
    }
  }

  /** `0 | b == b` and `0 ^ b == b`. */
  lemma {:induction false} ZeroLeft(op: Op, b: nat)
    requires op != AndOp
    ensures Bitwise(op, 0, b) == b
    decreases b
  {
    if b != 0 {
      ZeroLeft(op, b / 2);
    }
  }

  /** `a & 0 == 0`. */
  lemma {:induction false} AndZero(a: nat)
    ensures And(a, 0) == 0
    decreases a
  {
    if a != 0 {
      AndZero(a / 2);
    }
  }

  /** `x & (2^n - 1)` keeps the low n bits. */
  lemma {:induction false} AndLowMask(x: nat, n: nat)
    ensures And(x, Pow2(n) - 1) == x % Pow2(n)
  {
    if n == 0 {
      AndZero(x);
    } else {
      var p := Pow2(n - 1);
      assert Pow2(n) == 2 * p;
      AndLowMask(x / 2, n - 1);
      assert (2 * p - 1) / 2 == p - 1 && (2 * p - 1) % 2 == 1;
      BitwiseStep(AndOp, x, 2 * p - 1);
      assert BitOf(AndOp, x % 2, 1) == x % 2;
      assert And(x, 2 * p - 1) == 2 * And(x / 2, p - 1) + x % 2;
      SplitMod(x, p);
      var r := x % (2 * p);
      assert r == 2 * (r / 2) + r % 2;
    }
  }

  /** Dividing by 2 and then by p is dividing by 2p. */
  lemma DivDiv(x: nat, p: nat)
    requires p >= 1
    ensures x / (2 * p) == (x / 2) / p
  {
    var h := x / 2;
    assert x == 2 * h + x % 2;
    assert h == (h / p) * p + h % p;
    assert x == (h / p) * (2 * p) + (2 * (h % p) + x % 2);
    DivModUnique(x, 2 * p, h / p, 2 * (h % p) + x % 2);
  }

  /** `x & 2m` is twice `(x >> 1) & m`. */
  lemma AndEven(x: nat, m: nat)
    ensures And(x, 2 * m) == 2 * And(x / 2, m)
  {
    assert (2 * m) / 2 == m && (2 * m) % 2 == 0;
    BitwiseStep(AndOp, x, 2 * m);
  }

  /** `a | (b << k) == a + (b << k)` when a fits in k bits: the two operands
      have no bit in common. */
  lemma {:induction false} OrDisjoint(a: nat, b: nat, k: nat)
    requires a < Pow2(k)
    ensures Or(a, Shl(b, k)) == a + Shl(b, k)
  {
    if k == 0 {
      ZeroLeft(OrOp, b);
    } else {
      var p := Pow2(k - 1);
      assert Shl(b, k) == 2 * (b * p);
      assert (2 * (b * p)) / 2 == b * p && (2 * (b * p)) % 2 == 0;
      BitwiseStep(OrOp, a, 2 * (b * p));
      OrDisjoint(a / 2, b, k - 1);
    }
  }

  /** Shifting right never increases a value. */
  lemma ShrBound(x: nat, n: nat)
    ensures Shr(x, n) <= x
  {
  }
}
