/**
 * Rust's unsigned-integer bit operations (`&`, `|`, `^`, `<<`, `>>`) written
 * out on unbounded naturals, one binary digit at a time, with the facts the
 * encoders, the bit packer and the XOR cipher rely on.
 */
module Bits {

  /** Rust's `u32`. */
  type u32 = x: int | 0 <= x < 0x1_0000_0000

  function Pow2(n: nat): (r: nat)
    ensures r >= 1
  {
    if n == 0 then 1 else 2 * Pow2(n - 1)
  }

  /** `a & b` */
  function And(a: nat, b: nat): nat
    decreases a
  {
    if a == 0 then 0 else 2 * And(a / 2, b / 2) + (if a % 2 == 1 && b % 2 == 1 then 1 else 0)
  }

  /** `a | b` */
  function Or(a: nat, b: nat): nat
    decreases a + b
  {
    if a + b == 0 then 0 else 2 * Or(a / 2, b / 2) + (if a % 2 == 1 || b % 2 == 1 then 1 else 0)
  }

  /** `a ^ b` */
  function Xor(a: nat, b: nat): nat
    decreases a + b
  {
    if a + b == 0 then 0 else 2 * Xor(a / 2, b / 2) + (a % 2 + b % 2) % 2
  }

  /** `x >> n` */
  function Shr(x: nat, n: nat): nat
  {
    if n == 0 then x else Shr(x / 2, n - 1)
  }

  /** `x << n` with no width limit. */
  function Shl(x: nat, n: nat): nat
  {
    if n == 0 then x else 2 * Shl(x, n - 1)
  }

  /** `x << n` on a `u32`: bits shifted past bit 31 are lost; Rust rejects shift amounts of 32 or more. */
  function Shl32(x: nat, n: nat): nat
    requires n < 32
  {
    Shl(x, n) % 0x1_0000_0000
  }

  /** The low `n` bits of `x`. */
  function LowBits(x: nat, n: nat): (r: nat)
    ensures r < Pow2(n)
  {
    if n == 0 then 0 else 2 * LowBits(x / 2, n - 1) + x % 2
  }

  /** The value of a bit string read most significant bit first. */
  function BinaryValue(bits: seq<bool>): nat
  {
    if bits == [] then 0 else 2 * BinaryValue(bits[..|bits| - 1]) + (if bits[|bits| - 1] then 1 else 0)
  }

  // ---------------------------------------------------------------------
  // Powers of two

  lemma {:induction false} Pow2Add(m: nat, n: nat)
    ensures Pow2(m + n) == Pow2(m) * Pow2(n)
  {
    if m > 0 {
      Pow2Add(m - 1, n);
    }
  }

  lemma Pow2Word()
    ensures Pow2(1) == 2 && Pow2(31) == 0x8000_0000 && Pow2(32) == 0x1_0000_0000
  {
    assert Pow2(8) == 256;
    Pow2Add(8, 8);
    Pow2Add(16, 15);
    Pow2Add(16, 16);
    assert Pow2(15) == 0x8000;
  }

  /** A `u32` shift whose result fits in 32 bits loses nothing. */
  lemma Shl32Exact(x: nat, n: nat)
    requires n < 32 && Shl(x, n) < 0x1_0000_0000
    ensures Shl32(x, n) == Shl(x, n)
  {
  }

  /** Shifting left by `n` multiplies by `2^n`. */
  lemma {:induction false} ShlValue(x: nat, n: nat)
    ensures Shl(x, n) == x * Pow2(n)
  {
    if n > 0 {
      ShlValue(x, n - 1);
    }
  }

  lemma {:induction false} ShlAdd(x: nat, m: nat, n: nat)
    ensures Shl(Shl(x, m), n) == Shl(x, m + n)
  {
    if n > 0 {
      ShlAdd(x, m, n - 1);
    }
  }

  /** A value below `2^m` shifted left by `n` stays below `2^(m + n)`. */
  lemma {:induction false} ShlBound(x: nat, n: nat, m: nat)
    requires x < Pow2(m)
    ensures Shl(x, n) < Pow2(m + n)
  {
    if n > 0 {
      ShlBound(x, n - 1, m);
    }
  }

  lemma {:induction false} Pow2Monotone(m: nat, n: nat)
    requires m <= n
    ensures Pow2(m) <= Pow2(n)
  {
    if m < n {
      Pow2Monotone(m, n - 1);
    }
  }

  /** Splitting off the lowest binary digit of a remainder modulo a power of two. */
  lemma ModPow2Step(x: nat, n: nat)
    requires n >= 1
    ensures x % Pow2(n) == 2 * ((x / 2) % Pow2(n - 1)) + x % 2
  {
    var p := Pow2(n - 1);
    var q := (x / 2) / p;
    var r := (x / 2) % p;
    assert x / 2 == q * p + r;
    assert x == q * (2 * p) + (2 * r + x % 2);
    assert 2 * r + x % 2 < 2 * p;
    DivModUnique(x, 2 * p, q, 2 * r + x % 2);
  }

  /** Keeping the low `n` bits is taking the remainder modulo `2^n`. */
  lemma {:induction false} LowBitsMod(x: nat, n: nat)
    ensures LowBits(x, n) == x % Pow2(n)
  {
    if n > 0 {
      LowBitsMod(x / 2, n - 1);
      ModPow2Step(x, n);
    }
  }

  lemma DivPow2Step(x: nat, n: nat)
    ensures x / Pow2(n + 1) == (x / 2) / Pow2(n)
  {
    var p := Pow2(n);
    var q := (x / 2) / p;
    var r := (x / 2) % p;
    assert x / 2 == q * p + r;
    assert x == q * (2 * p) + (2 * r + x % 2);
    DivModUnique(x, 2 * p, q, 2 * r + x % 2);
  }

  lemma DivModUnique(x: nat, d: nat, q: nat, r: nat)
    requires d > 0 && r < d && x == q * d + r
    ensures x / d == q && x % d == r
  {
    var q', r' := x / d, x % d;
    if q' < q {
      MulLe(q' + 1, q, d);
      assert false;
    } else if q' > q {
      MulLe(q + 1, q', d);
      assert false;
    }
  }

  lemma ModSmall(x: nat, p: nat)
    requires x < p
    ensures x % p == x
  {
    DivModUnique(x, p, 0, x);
  }

  /** Adding a multiple of the modulus does not change the remainder. */
  lemma ModAddMultiple(x: nat, m: nat, p: nat)
    requires p > 0
    ensures (x + m * p) % p == x % p
  {
    DivModUnique(x + m * p, p, x / p + m, x % p);
  }

  /** Reducing a factor modulo `p` first does not change the remainder of `a * c + d`. */
  lemma ModMulAdd(a: nat, c: nat, d: nat, p: nat)
    requires p > 0
    ensures ((a % p) * c + d) % p == (a * c + d) % p
  {
    var q := a / p;
    assert a * c + d == ((a % p) * c + d) + (q * c) * p by {
      assert a == q * p + a % p;
    }
    ModAddMultiple((a % p) * c + d, q * c, p);
  }

  lemma MulLt(a: nat, b: nat, d: nat)
    requires a < b && d > 0
    ensures a * d < b * d
  {
    assert b * d == a * d + (b - a) * d;
  }

  lemma MulLe(a: nat, b: nat, d: nat)
    requires a <= b
    ensures a * d <= b * d
  {
    assert b * d == a * d + (b - a) * d;
  }

  /** Reading a bit string whose first bit is `b`. */
  lemma {:induction false} BinaryValueCons(b: bool, rest: seq<bool>)
    ensures BinaryValue([b] + rest) == (if b then Pow2(|rest|) else 0) + BinaryValue(rest)
    decreases |rest|
  {
    var s := [b] + rest;
    if rest != [] {
      var n := |rest|;
      assert s[..|s| - 1] == [b] + rest[..n - 1];
      BinaryValueCons(b, rest[..n - 1]);
    }
  }

  lemma {:induction false} BinaryValueBound(bits: seq<bool>)
    ensures BinaryValue(bits) < Pow2(|bits|)
  {
    if bits != [] {
      BinaryValueBound(bits[..|bits| - 1]);
    }
  }

  // ---------------------------------------------------------------------
  // And

  lemma {:induction false} AndZero(a: nat)
    ensures And(a, 0) == 0
  {
    if a > 0 {
      AndZero(a / 2);
    }
  }

  /** `x & 1` is the lowest bit of `x`. */
  lemma AndOne(x: nat)
    ensures And(x, 1) == x % 2
  {
    if x > 0 {
      AndZero(x / 2);
    }
  }

  /** `x & (2^n - 1)` keeps the low n bits of `x`. */
  lemma {:induction false} AndLowBits(x: nat, n: nat)
    ensures And(x, Pow2(n) - 1) == LowBits(x, n)
  {
    if n == 0 {
      AndZero(x);
    } else {
      var p := Pow2(n - 1);
      assert Pow2(n) - 1 == 2 * p - 1;
      assert (2 * p - 1) / 2 == p - 1 && (2 * p - 1) % 2 == 1;
      AndLowBits(x / 2, n - 1);
      if x > 0 {
        assert And(x, 2 * p - 1) == 2 * And(x / 2, p - 1) + x % 2;
      } else {
        assert LowBits(x, n) == 2 * LowBits(0, n - 1);
      }
    }
  }

  /** A value that already fits in `n` bits is its own low `n` bits. */
  lemma {:induction false} LowBitsSmall(x: nat, n: nat)
    requires x < Pow2(n)
    ensures LowBits(x, n) == x
  {
    if n > 0 {
      LowBitsSmall(x / 2, n - 1);
    }
  }

  /**
   * Once `x` is unchanged by the mask `m`, bits of `p` outside `m` make no
   * difference to `x & p`.
   */
  lemma {:induction false} AndAbsorb(x: nat, p: nat, m: nat)
    requires And(x, m) == x
    ensures And(x, p) == And(x, And(p, m))
  {
    if x > 0 {
      var q := And(p, m);
      assert And(x / 2, m / 2) == x / 2;
      AndAbsorb(x / 2, p / 2, m / 2);
      if p == 0 {
        AndZero(x);
      } else {
        assert q / 2 == And(p / 2, m / 2) && q % 2 == (if p % 2 == 1 && m % 2 == 1 then 1 else 0);
      }
    }
  }

  // ---------------------------------------------------------------------
  // Or

  lemma {:induction false} OrZero(a: nat)
    ensures Or(a, 0) == a && Or(0, a) == a
  {
    if a > 0 {
      OrZero(a / 2);
    }
  }

  lemma {:induction false} OrSelf(a: nat)
    ensures Or(a, a) == a
  {
    if a > 0 {
      OrSelf(a / 2);
    }
  }

  lemma {:induction false} OrComm(a: nat, b: nat)
    ensures Or(a, b) == Or(b, a)
    decreases a + b
  {
    if a + b > 0 {
      OrComm(a / 2, b / 2);
    }
  }

  lemma {:induction false} OrAssoc(a: nat, b: nat, c: nat)
    ensures Or(a, Or(b, c)) == Or(Or(a, b), c)
    decreases a + b + c
  {
    if a + b + c > 0 {
      OrAssoc(a / 2, b / 2, c / 2);
      var bc, ab := Or(b, c), Or(a, b);
      assert bc / 2 == Or(b / 2, c / 2) && bc % 2 == (if b % 2 == 1 || c % 2 == 1 then 1 else 0);
      assert ab / 2 == Or(a / 2, b / 2) && ab % 2 == (if a % 2 == 1 || b % 2 == 1 then 1 else 0);
    }
  }

  /** Or-ing a bit into an even number sets its lowest bit. */
  lemma OrLowBit(x: nat, b: nat)
    requires b < 2
    ensures Or(2 * x, b) == 2 * x + b
  {
    if 2 * x + b > 0 {
      assert (2 * x) / 2 == x && (2 * x) % 2 == 0 && b / 2 == 0;
      OrZero(x);
    }
  }

  lemma OrDouble(x: nat, y: nat)
    ensures Or(2 * x, 2 * y) == 2 * Or(x, y)
  {
    if x + y > 0 {
      assert (2 * x) / 2 == x && (2 * y) / 2 == y;
    }
  }

  /** Shifting distributes over `|`. */
  lemma {:induction false} OrShl(a: nat, b: nat, n: nat)
    ensures Or(Shl(a, n), Shl(b, n)) == Shl(Or(a, b), n)
  {
    if n > 0 {
      OrShl(a, b, n - 1);
      OrDouble(Shl(a, n - 1), Shl(b, n - 1));
    }
  }

  /** Or-ing a value below `2^k` into a multiple of `2^k` is addition. */
  lemma {:induction false} OrDisjoint(a: nat, b: nat, k: nat)
    requires a < Pow2(k)
    ensures Or(a, b * Pow2(k)) == a + b * Pow2(k)
  {
    if k == 0 {
      OrZero(b);
    } else {
      var c := b * Pow2(k);
      assert c == 2 * (b * Pow2(k - 1));
      OrDisjoint(a / 2, b, k - 1);
    }
  }

  lemma {:induction false} OrBound(a: nat, b: nat, n: nat)
    requires a < Pow2(n) && b < Pow2(n)
    ensures Or(a, b) < Pow2(n)
    decreases n
  {
    if a + b > 0 {
      OrBound(a / 2, b / 2, n - 1);
    }
  }

  // ---------------------------------------------------------------------
  // Xor

  lemma {:induction false} XorZero(a: nat)
    ensures Xor(a, 0) == a
  {
    if a > 0 {
      XorZero(a / 2);
    }
  }

  lemma {:induction false} XorComm(a: nat, b: nat)
    ensures Xor(a, b) == Xor(b, a)
    decreases a + b
  {
    if a + b > 0 {
      XorComm(a / 2, b / 2);
    }
  }

  lemma {:induction false} XorSelf(a: nat)
    ensures Xor(a, a) == 0
  {
    if a > 0 {
      XorSelf(a / 2);
    }
  }

  /** The key can be read back from a value and its xor with the key. */
  lemma XorCancel(a: nat, k: nat)
    ensures Xor(a, Xor(a, k)) == k
  {
    XorComm(a, Xor(a, k));
    XorComm(a, k);
    XorInvolution(k, a);
  }

  lemma XorUnfold(a: nat, b: nat)
    ensures Xor(a, b) == 2 * Xor(a / 2, b / 2) + (a % 2 + b % 2) % 2
  {
  }

  /** Xor-ing the same key twice gives the original value back. */
  lemma {:induction false} XorInvolution(a: nat, k: nat)
    ensures Xor(Xor(a, k), k) == a
    decreases a + k
  {
    if a + k > 0 {
      var x := Xor(a, k);
      XorUnfold(a, k);
      assert x / 2 == Xor(a / 2, k / 2) && x % 2 == (a % 2 + k % 2) % 2;
      assert (x % 2 + k % 2) % 2 == a % 2;
      XorUnfold(x, k);
      XorInvolution(a / 2, k / 2);
    }
  }

  lemma {:induction false} XorBound(a: nat, b: nat, n: nat)
    requires a < Pow2(n) && b < Pow2(n)
    ensures Xor(a, b) < Pow2(n)
    decreases n
  {
    if a + b > 0 {
      XorBound(a / 2, b / 2, n - 1);
    }
  }

  /** `p ^ b` for single bits is their sum modulo 2. */
  lemma XorBit(p: nat, b: nat)
    requires p < 2 && b < 2
    ensures Xor(p, b) == (p + b) % 2
  {
    if p + b > 0 {
      assert Xor(p / 2, b / 2) == Xor(0, 0) == 0;
    }
  }
}
