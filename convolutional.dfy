/**
 * The convolutional encoder of src/convolutional/encoder.rs: a shift register
 * of K - 1 bits and a list of generator polynomials; every input bit is
 * shifted into the register and, for each polynomial in turn, the parity of
 * the tapped register bits is emitted.
 *
 * The functions below are the specification (one step, one block, a whole
 * input from a given register state); the class is the stateful encoder,
 * whose methods are proved against them.
 */
module Convolutional {
  import opened Bits

  // ---------------------------------------------------------------------
  // Generator polynomials: decimal digits read as octal digits

  /** Every decimal digit of `p` is an octal digit (0 to 7). */
  predicate OctalDigits(p: nat)
  {
    p == 0 || (p % 10 < 8 && OctalDigits(p / 10))
  }

  /** The decimal digits of `p` read as an octal numeral (13 gives 11). */
  function OctalValue(p: nat): nat
  {
    if p == 0 then 0 else 8 * OctalValue(p / 10) + p % 10
  }

  function Pow10(n: nat): (r: nat)
    ensures r >= 1
  {
    if n == 0 then 1 else 10 * Pow10(n - 1)
  }

  /**
   * The taps contributed by the decimal digits of `octal` when its lowest
   * digit is or-ed in at bit `shift` and each further digit three bits higher.
   */
  function DigitTaps(octal: nat, shift: nat): nat
  {
    if octal == 0 then 0 else Or(Shl(octal % 10, shift), DigitTaps(octal / 10, shift + 3))
  }

  /** The tap mask the constructor stores for polynomial `p`. */
  function TapMask(p: nat): nat
  {
    DigitTaps(p, 0)
  }

  lemma {:induction false} DigitTapsOctal(p: nat, shift: nat)
    requires OctalDigits(p)
    ensures DigitTaps(p, shift) == Shl(OctalValue(p), shift)
    decreases p
  {
    if p > 0 {
      var d, v := p % 10, OctalValue(p / 10);
      assert OctalDigits(p / 10) && d < 8;
      DigitTapsOctal(p / 10, shift + 3);
      var high := Shl(v, shift + 3);
      assert DigitTaps(p, shift) == Or(Shl(d, shift), high);
      assert high == Shl(8 * v, shift) by {
        ShlAdd(v, 3, shift);
        ShlValue(v, 3);
        assert Pow2(3) == 8;
      }
      assert Or(d, 8 * v) == 8 * v + d by {
        OrDisjoint(d, v, 3);
        assert Pow2(3) == 8;
      }
      OrShl(d, 8 * v, shift);
    } else {
      ShlValue(0, shift);
    }
  }

  /** With octal digits only, the tap mask is the polynomial read in octal (7 gives 7, 13 gives 11). */
  lemma TapMaskOctal(p: nat)
    requires OctalDigits(p)
    ensures TapMask(p) == OctalValue(p)
  {
    DigitTapsOctal(p, 0);
    assert Shl(OctalValue(p), 0) == OctalValue(p);
  }

  /** A digit 8 or 9 is not rejected: its high bit lands in the next digit's group, so 19 taps like octal 11. */
  lemma NineOverlapsNextDigit()
    ensures TapMask(19) == TapMask(11) == 9
  {
    assert OctalDigits(11) && OctalValue(11) == 9;
    TapMaskOctal(11);
    assert OctalDigits(1) && OctalValue(1) == 1;
    DigitTapsOctal(1, 3);
    assert Shl(1, 3) == 8 && Shl(9, 0) == 9;
    assert TapMask(19) == Or(9, 8);
    assert Pow2(3) == 8;
    OrDisjoint(1, 1, 3);
    assert Or(1, 8) == 9;
    OrAssoc(1, 8, 8);
    OrSelf(8);
  }

  lemma {:induction false} DigitTapsBound(octal: nat, shift: nat, digits: nat)
    requires octal < Pow10(digits)
    ensures DigitTaps(octal, shift) < Pow2(shift + 3 * digits + 1)
    decreases octal
  {
    if octal > 0 {
      var d := octal % 10;
      var bound := shift + 3 * digits + 1;
      assert digits >= 1;
      DropDigit(octal, digits);
      DigitTapsBound(octal / 10, shift + 3, digits - 1);
      assert shift + 3 + 3 * (digits - 1) + 1 == bound;
      assert Pow2(4) == 16;
      ShlBound(d, shift, 4);
      Pow2Monotone(4 + shift, bound);
      OrBound(Shl(d, shift), DigitTaps(octal / 10, shift + 3), bound);
    }
  }

  /** The taps of any `u32` polynomial fit in 31 bits: ten decimal digits give at most 31 bits. */
  lemma TapMaskBound(p: u32)
    ensures TapMask(p) < 0x8000_0000
  {
    Pow10Ten();
    DigitTapsBound(p, 0, 10);
    Pow2Word();
  }

  lemma DropDigit(x: nat, n: nat)
    requires n > 0 && x < Pow10(n)
    ensures x / 10 < Pow10(n - 1)
  {
  }

  lemma Pow10Ten()
    ensures Pow10(10) == 10000000000
  {
  }

  /** One round of the conversion loop or-s the lowest remaining digit in at `shift`. */
  lemma DigitStep(binary: nat, octal: nat, shift: nat)
    requires octal > 0 && shift <= 27
    ensures Shl32(octal % 10, shift) == Shl(octal % 10, shift)
    ensures Or(Or(binary, Shl32(octal % 10, shift)), DigitTaps(octal / 10, shift + 3))
         == Or(binary, DigitTaps(octal, shift))
  {
    var digit := octal % 10;
    assert Pow2(4) == 16;
    ShlBound(digit, shift, 4);
    Pow2Monotone(4 + shift, 31);
    Pow2Word();
    Shl32Exact(digit, shift);
    OrAssoc(binary, Shl(digit, shift), DigitTaps(octal / 10, shift + 3));
  }

  /**
   * The octal-digit conversion loop of the constructor: each decimal digit is
   * shifted to its own 3-bit group and or-ed into the result.
   */
  method PolynomialTaps(p: u32) returns (taps: u32)
    ensures taps == TapMask(p)
    ensures OctalDigits(p) ==> taps == OctalValue(p)
    ensures taps < 0x8000_0000
  {
    var binary: nat := 0;
    var octal: nat := p;
    var shift: nat := 0;
    ghost var digits: nat := 0;
    Pow10Ten();
    OrZero(TapMask(p));
    while octal > 0
      invariant shift == 3 * digits && digits <= 10
      invariant octal < Pow10(10 - digits)
      invariant Or(binary, DigitTaps(octal, shift)) == TapMask(p)
    {
      var digit := octal % 10;
      assert digits < 10;
      DropDigit(octal, 10 - digits);
      DigitStep(binary, octal, shift);
      binary := Or(binary, Shl32(digit, shift));
      octal := octal / 10;
      shift := shift + 3;
      digits := digits + 1;
    }
    OrZero(binary);
    TapMaskBound(p);
    if OctalDigits(p) {
      TapMaskOctal(p);
    }
    taps := binary;
  }

  // ---------------------------------------------------------------------
  // One step of the shift register

  /** `(1 << (K - 1)) - 1`, the mask of the register's K - 1 bits. */
  function RegisterMask(k: nat): nat
    requires 1 <= k <= 32
  {
    RegisterBit(k);
    Shl32(1, k - 1) - 1
  }

  lemma RegisterBit(k: nat)
    requires 1 <= k <= 32
    ensures Shl32(1, k - 1) == Pow2(k - 1)
  {
    ShlValue(1, k - 1);
    Pow2Monotone(k - 1, 31);
    Pow2Word();
    Shl32Exact(1, k - 1);
  }

  lemma RegisterMaskValue(k: nat)
    requires 1 <= k <= 32
    ensures RegisterMask(k) == Pow2(k - 1) - 1
  {
    RegisterBit(k);
  }

  /** `((state << 1) | bit) & mask`, the register update of `encode` as written. */
  function ShiftIn(state: nat, bit: bool, mask: nat): nat
  {
    And(Or(Shl32(state, 1), if bit then 1 else 0), mask)
  }

  /**
   * The register after `bit` enters a register of `width` bits: every bit
   * moves up one place, the new bit comes in at the bottom and the oldest bit
   * falls out.
   */
  function Advance(state: nat, bit: bool, width: nat): (next: nat)
    ensures next < Pow2(width)
  {
    LowBits(2 * state + (if bit then 1 else 0), width)
  }

  /**
   * From a register state below `2^(K-1)`, the bit operations of `encode`
   * compute `Advance` on a register of K - 1 bits, so the state stays below
   * `2^(K-1)`.
   */
  lemma ShiftInValue(state: nat, bit: bool, k: nat)
    requires 1 <= k <= 32 && state < Pow2(k - 1)
    ensures ShiftIn(state, bit, RegisterMask(k)) == Advance(state, bit, k - 1)
    ensures ShiftIn(state, bit, RegisterMask(k)) < Pow2(k - 1)
  {
    var b := if bit then 1 else 0;
    ShiftOr(state, b, k);
    MaskLow(2 * state + b, k);
  }

  /** `(state << 1) | b` loses no bits when the state has at most 31. */
  lemma ShiftOr(state: nat, b: nat, k: nat)
    requires 1 <= k <= 32 && state < Pow2(k - 1) && b < 2
    ensures Or(Shl32(state, 1), b) == 2 * state + b
  {
    Pow2Monotone(k - 1, 31);
    Pow2Word();
    assert Shl(state, 1) == 2 * state;
    Shl32Exact(state, 1);
    OrLowBit(state, b);
  }

  /** `v & register_mask` keeps the low K - 1 bits of `v`. */
  lemma MaskLow(v: nat, k: nat)
    requires 1 <= k <= 32
    ensures And(v, RegisterMask(k)) == LowBits(v, k - 1)
  {
    RegisterMaskValue(k);
    AndLowBits(v, k - 1);
  }

  /** The register update of `encode`: `((state << 1) | bit) & register_mask`. */
  method ShiftRegister(state: u32, bit: bool, k: u32, registerMask: nat) returns (next: u32)
    requires 1 <= k <= 32 && state < Pow2(k - 1) && registerMask == RegisterMask(k)
    ensures next == Advance(state, bit, k - 1)
  {
    ShiftInValue(state, bit, k);
    Pow2Monotone(k - 1, 31);
    Pow2Word();
    next := And(Or(Shl32(state, 1), if bit then 1 else 0), registerMask);
  }

  /** Number of one bits. */
  function PopCount(x: nat): nat
  {
    if x == 0 then 0 else x % 2 + PopCount(x / 2)
  }

  /** Odd parity of `x`: the bit emitted for tapped register bits `x`. */
  predicate Parity(x: nat)
  {
    PopCount(x) % 2 == 1
  }

  /** One round of the parity loop: the lowest bit is xor-ed in and shifted out. */
  lemma ParityStep(parity: nat, temp: nat)
    requires parity < 2 && temp > 0
    ensures Shr(temp, 1) < temp
    ensures Xor(parity, And(temp, 1)) < 2
    ensures (Xor(parity, And(temp, 1)) + PopCount(Shr(temp, 1))) % 2 == (parity + PopCount(temp)) % 2
  {
    var low, rest := temp % 2, temp / 2;
    assert Shr(temp, 1) == rest;
    AndOne(temp);
    XorBit(parity, low);
    assert PopCount(temp) == low + PopCount(rest);
    var q := PopCount(rest);
    if parity + low == 2 {
      assert (0 + q) % 2 == (2 + q) % 2;
    }
  }

  /** The parity loop of `encode`: xor together the bits of `x`, lowest first. */
  method ComputeParity(x: nat) returns (odd: bool)
    ensures odd == Parity(x)
  {
    var parity: nat := 0;
    var temp := x;
    while temp != 0
      invariant parity < 2
      invariant (parity + PopCount(temp)) % 2 == PopCount(x) % 2
      decreases temp
    {
      ParityStep(parity, temp);
      parity := Xor(parity, And(temp, 1));
      temp := Shr(temp, 1);
    }
    odd := parity == 1;
  }

  /** The bits emitted for one input bit: one parity per polynomial, in polynomial order. */
  function Block(state: nat, taps: seq<nat>): (block: seq<bool>)
    ensures |block| == |taps|
    decreases |taps|
  {
    if taps == [] then [] else [Parity(And(state, taps[0]))] + Block(state, taps[1..])
  }

  /** Bit `j` of a block is the parity of the register under polynomial `j`'s taps. */
  lemma {:induction false} BlockAt(state: nat, taps: seq<nat>, j: nat)
    requires j < |taps|
    ensures Block(state, taps)[j] == Parity(And(state, taps[j]))
    decreases j
  {
    if j > 0 {
      BlockAt(state, taps[1..], j - 1);
    }
  }

  /** A block is built polynomial by polynomial. */
  lemma BlockPrefix(state: nat, taps: seq<nat>, j: nat)
    requires j < |taps|
    ensures Block(state, taps)[..j + 1] == Block(state, taps)[..j] + [Parity(And(state, taps[j]))]
  {
    BlockAt(state, taps, j);
  }

  /** Everything emitted for `input`, starting from register `state` of `width` bits. */
  function Encoded(state: nat, taps: seq<nat>, width: nat, input: seq<bool>): (output: seq<bool>)
    ensures |output| == |input| * |taps|
    decreases |input|
  {
    if input == [] then []
    else
      var next := Advance(state, input[0], width);
      assert |input| * |taps| == |taps| + (|input| - 1) * |taps|;
      Block(next, taps) + Encoded(next, taps, width, input[1..])
  }

  /** The register after `input` has been shifted in, starting from `state`. */
  function FinalState(state: nat, width: nat, input: seq<bool>): nat
    decreases |input|
  {
    if input == [] then state else FinalState(Advance(state, input[0], width), width, input[1..])
  }

  lemma EncodedStep(state: nat, taps: seq<nat>, width: nat, input: seq<bool>)
    requires input != []
    ensures Encoded(state, taps, width, input)
         == Block(Advance(state, input[0], width), taps) + Encoded(Advance(state, input[0], width), taps, width, input[1..])
  {
  }

  lemma FinalStateStep(state: nat, width: nat, input: seq<bool>)
    requires input != []
    ensures FinalState(state, width, input) == FinalState(Advance(state, input[0], width), width, input[1..])
  {
  }

  /**
   * Taking one more bit of the input appends that bit's block and advances
   * the register once.
   */
  lemma StepAppend(state: nat, taps: seq<nat>, width: nat, input: seq<bool>, i: nat)
    requires i < |input|
    ensures Encoded(state, taps, width, input[..i + 1])
         == Encoded(state, taps, width, input[..i]) + Block(Advance(FinalState(state, width, input[..i]), input[i], width), taps)
    ensures FinalState(state, width, input[..i + 1]) == Advance(FinalState(state, width, input[..i]), input[i], width)
  {
    var prefix, bit := input[..i], input[i];
    assert input[..i + 1] == prefix + [bit];
    var s := FinalState(state, width, prefix);
    EncodeResumes(state, taps, width, prefix, [bit]);
    EncodedStep(s, taps, width, [bit]);
    FinalStateStep(s, width, [bit]);
    assert [bit][1..] == [];
  }

  /** Where bit `j` of block `t` sits among `n` blocks of `m` bits. */
  lemma IndexInBlocks(t: nat, j: nat, n: nat, m: nat)
    requires t < n && j < m
    ensures t * m + j < n * m
    ensures t == 0 ==> t * m + j == j
    ensures t > 0 ==> m <= t * m + j && t * m + j - m == (t - 1) * m + j
  {
    MulLe(t + 1, n, m);
  }

  // ---------------------------------------------------------------------
  // Properties of the specification

  /** The register after `a + b` is the register after `a`, then `b`. */
  lemma {:induction false} FinalStateResumes(state: nat, width: nat, a: seq<bool>, b: seq<bool>)
    ensures FinalState(state, width, a + b) == FinalState(FinalState(state, width, a), width, b)
    decreases |a|
  {
    if a == [] {
      assert a + b == b;
    } else {
      var next := Advance(state, a[0], width);
      assert (a + b)[0] == a[0] && (a + b)[1..] == a[1..] + b;
      FinalStateStep(state, width, a + b);
      FinalStateStep(state, width, a);
      FinalStateResumes(next, width, a[1..], b);
    }
  }

  /** Encoding resumes from the register: encoding `a` then `b` is encoding `a + b`. */
  lemma {:induction false} EncodeResumes(state: nat, taps: seq<nat>, width: nat, a: seq<bool>, b: seq<bool>)
    ensures Encoded(state, taps, width, a + b)
         == Encoded(state, taps, width, a) + Encoded(FinalState(state, width, a), taps, width, b)
    ensures FinalState(state, width, a + b) == FinalState(FinalState(state, width, a), width, b)
    decreases |a|
  {
    FinalStateResumes(state, width, a, b);
    if a == [] {
      assert a + b == b;
    } else {
      var next := Advance(state, a[0], width);
      assert (a + b)[0] == a[0] && (a + b)[1..] == a[1..] + b;
      EncodeResumes(next, taps, width, a[1..], b);
      FinalStateStep(state, width, a);
      var block, head, tail := Block(next, taps), Encoded(next, taps, width, a[1..]), Encoded(FinalState(state, width, a), taps, width, b);
      assert block + (head + tail) == (block + head) + tail;
      EncodedStep(state, taps, width, a);
      EncodedStep(state, taps, width, a + b);
    }
  }

  /**
   * Output bit `t * m + j` is the parity of polynomial `j`'s taps in the
   * register right after input bit `t` was shifted in: bits come out in input
   * order, then polynomial order.
   */
  lemma {:induction false} EncodedAt(state: nat, taps: seq<nat>, width: nat, input: seq<bool>, t: nat, j: nat)
    requires t < |input| && j < |taps|
    ensures t * |taps| + j < |input| * |taps|
    ensures Encoded(state, taps, width, input)[t * |taps| + j]
         == Parity(And(FinalState(state, width, input[..t + 1]), taps[j]))
    decreases t
  {
    var m := |taps|;
    var p := t * m + j;
    IndexInBlocks(t, j, |input|, m);
    PrefixStep(state, width, input, t);
    if t == 0 {
      FirstBlock(state, taps, width, input, j);
    } else {
      var next := Advance(state, input[0], width);
      EncodedAt(next, taps, width, input[1..], t - 1, j);
      ShiftBlock(state, taps, width, input, p);
    }
  }

  /** The first block is the parities of the register after the first bit. */
  lemma FirstBlock(state: nat, taps: seq<nat>, width: nat, input: seq<bool>, j: nat)
    requires input != [] && j < |taps|
    ensures j < |Encoded(state, taps, width, input)|
    ensures Encoded(state, taps, width, input)[j] == Parity(And(Advance(state, input[0], width), taps[j]))
  {
    var next := Advance(state, input[0], width);
    EncodedStep(state, taps, width, input);
    BlockAt(next, taps, j);
  }

  lemma PrefixStep(state: nat, width: nat, input: seq<bool>, t: nat)
    requires t < |input|
    ensures FinalState(state, width, input[..t + 1])
         == FinalState(Advance(state, input[0], width), width, input[1..][..t])
  {
    var prefix := input[..t + 1];
    FinalStateStep(state, width, prefix);
    assert prefix[0] == input[0];
    assert prefix[1..] == input[1..][..t];
  }

  /** Past the first block, the output is the encoding of the rest of the input. */
  lemma ShiftBlock(state: nat, taps: seq<nat>, width: nat, input: seq<bool>, p: int)
    requires input != [] && |taps| <= p < |Encoded(state, taps, width, input)|
    ensures Encoded(state, taps, width, input)[p]
         == Encoded(Advance(state, input[0], width), taps, width, input[1..])[p - |taps|]
  {
    EncodedStep(state, taps, width, input);
  }

  /**
   * The register always holds the newest `width` bits of everything shifted
   * in: older bits, and the old state, have been shifted out.
   */
  lemma {:induction false} RegisterHoldsRecentBits(state: nat, width: nat, input: seq<bool>)
    requires state < Pow2(width)
    ensures FinalState(state, width, input)
         == (state * Pow2(|input|) + BinaryValue(input)) % Pow2(width)
    decreases |input|
  {
    var p := Pow2(width);
    if input == [] {
      assert state * Pow2(0) + BinaryValue(input) == state;
      ModSmall(state, p);
    } else {
      var n := |input|;
      var rest := input[1..];
      var N := Pow2(n - 1);
      var b := if input[0] then 1 else 0;
      var next := Advance(state, input[0], width);
      LowBitsMod(2 * state + b, width);
      assert next == (2 * state + b) % p;
      FinalStateStep(state, width, input);
      RegisterHoldsRecentBits(next, width, rest);
      assert input == [input[0]] + rest;
      BinaryValueCons(input[0], rest);
      assert BinaryValue(input) == b * N + BinaryValue(rest);
      assert Pow2(n) == 2 * N;
      ShiftedValue(state, b, N, BinaryValue(rest), p);
      assert state * Pow2(n) == state * (2 * N);
      var r := BinaryValue(rest);
      assert FinalState(state, width, input) == (next * N + r) % p;
      assert (next * N + r) % p == (state * (2 * N) + (b * N + r)) % p;
      assert state * (2 * N) + (b * N + r) == state * Pow2(n) + BinaryValue(input);
    }
  }

  lemma ShiftedValue(state: nat, b: nat, N: nat, r: nat, p: nat)
    requires p > 0
    ensures (((2 * state + b) % p) * N + r) % p == (state * (2 * N) + (b * N + r)) % p
  {
    ModMulAdd(2 * state + b, N, r, p);
    assert (2 * state + b) * N + r == state * (2 * N) + (b * N + r);
  }

  /** Each tap mask cut down to the register's `width` bits. */
  function LowTaps(taps: seq<nat>, width: nat): (low: seq<nat>)
    ensures |low| == |taps|
    ensures forall j :: 0 <= j < |taps| ==> low[j] == LowBits(taps[j], width)
  {
    seq(|taps|, j requires 0 <= j < |taps| => LowBits(taps[j], width))
  }

  /** The parities of a register of `width` bits do not see tap bits at or above `width`. */
  lemma BlockLowTaps(state: nat, taps: seq<nat>, width: nat)
    requires state < Pow2(width)
    ensures Block(state, taps) == Block(state, LowTaps(taps, width))
  {
    var mask := Pow2(width) - 1;
    var low := LowTaps(taps, width);
    var b1, b2 := Block(state, taps), Block(state, low);
    AndLowBits(state, width);
    LowBitsSmall(state, width);
    forall j | 0 <= j < |taps|
      ensures b1[j] == b2[j]
    {
      BlockAt(state, taps, j);
      BlockAt(state, low, j);
      AndLowBits(taps[j], width);
      assert low[j] == And(taps[j], mask);
      AndAbsorb(state, taps[j], mask);
      assert And(state, taps[j]) == And(state, low[j]);
    }
    assert b1 == b2;
  }

  /**
   * Polynomial tap bits at position K - 1 or above never affect the output:
   * the register holds only K - 1 bits.
   */
  lemma {:induction false} HighTapsIgnored(state: nat, taps: seq<nat>, width: nat, input: seq<bool>)
    ensures Encoded(state, taps, width, input) == Encoded(state, LowTaps(taps, width), width, input)
    decreases |input|
  {
    if input != [] {
      var next := Advance(state, input[0], width);
      EncodedStep(state, taps, width, input);
      EncodedStep(state, LowTaps(taps, width), width, input);
      BlockLowTaps(next, taps, width);
      HighTapsIgnored(next, taps, width, input[1..]);
    }
  }

  /** From the zero state, an all-zero input leaves the register at zero and emits only zeros. */
  lemma {:induction false} ZeroInZeroOut(taps: seq<nat>, width: nat, input: seq<bool>)
    requires forall i :: 0 <= i < |input| ==> !input[i]
    ensures FinalState(0, width, input) == 0
    ensures forall i :: 0 <= i < |input| * |taps| ==> !Encoded(0, taps, width, input)[i]
    decreases |input|
  {
    if input != [] {
      LowBitsSmall(0, width);
      assert Advance(0, false, width) == 0;
      EncodedStep(0, taps, width, input);
      FinalStateStep(0, width, input);
      ZeroInZeroOut(taps, width, input[1..]);
      var out := Encoded(0, taps, width, input);
      var rest := Encoded(0, taps, width, input[1..]);
      forall i | 0 <= i < |input| * |taps|
        ensures !out[i]
      {
        if i < |taps| {
          BlockAt(0, taps, i);
          assert And(0, taps[i]) == 0;
        } else {
          assert out[i] == rest[i - |taps|];
        }
      }
    }
  }

  lemma KnownBlocks()
    ensures Block(1, [7, 5]) == [true, true]
    ensures Block(2, [7, 5]) == [true, false]
    ensures Block(3, [7, 5]) == [false, true]
  {
    assert And(1, 7) == 1 && And(1, 5) == 1;
    assert And(2, 7) == 2 && And(2, 5) == 0;
    assert And(3, 7) == 3 && And(3, 5) == 1;
    assert PopCount(1) == 1 && PopCount(2) == 1 && PopCount(3) == 2 && PopCount(0) == 0;
  }

  lemma KnownSteps()
    ensures Advance(0, true, 2) == 1 && Advance(1, false, 2) == 2 && Advance(2, true, 2) == 1
    ensures Advance(1, true, 2) == 3 && Advance(3, false, 2) == 2
  {
    assert LowBits(2, 2) == 2 && LowBits(4, 2) == 0;
    assert LowBits(3, 2) == 3 && LowBits(5, 2) == 1 && LowBits(6, 2) == 2;
  }

  /**
   * The code's own output for K = 3, polynomials 7 and 5, input 1 0 1 1 0
   * (registers 1, 2, 1, 3, 2 after each bit).
   */
  lemma KnownEncoding(taps: seq<nat>, input: seq<bool>)
    requires taps == [7, 5] && input == [true, false, true, true, false]
    ensures Encoded(0, taps, 2, input) == [true, true, true, false, true, true, false, true, true, false]
  {
    KnownBlocks();
    KnownSteps();
    var s4 := input[4..];
    var s3 := input[3..];
    var s2 := input[2..];
    var s1 := input[1..];
    assert s4[1..] == [] && s3[1..] == s4 && s2[1..] == s3 && s1[1..] == s2 && input[1..] == s1;
    EncodedStep(3, taps, 2, s4);
    var e5 := Encoded(3, taps, 2, s4);
    assert e5 == [true, false];
    EncodedStep(1, taps, 2, s3);
    var e4 := Encoded(1, taps, 2, s3);
    assert e4 == [false, true] + e5;
    EncodedStep(2, taps, 2, s2);
    var e3 := Encoded(2, taps, 2, s2);
    assert e3 == [true, true] + e4;
    EncodedStep(1, taps, 2, s1);
    var e2 := Encoded(1, taps, 2, s1);
    assert e2 == [true, false] + e3;
    EncodedStep(0, taps, 2, input);
    assert Encoded(0, taps, 2, input) == [true, true] + e2;
  }

  /**
   * The in-file test of encoder.rs expects the third and fourth pairs to be
   * `false, true` and `true, true`; the code emits them the other way round,
   * so that expectation does not hold for the code as written.
   */
  lemma TestExpectationDiffers(taps: seq<nat>, input: seq<bool>)
    requires taps == [7, 5] && input == [true, false, true, true, false]
    ensures Encoded(0, taps, 2, input) != [true, true, true, false, false, true, true, true, true, false]
    ensures Encoded(0, taps, 2, input)[4..8] == [true, true, false, true]
  {
    KnownEncoding(taps, input);
    var e := Encoded(0, taps, 2, input);
    assert e[4] != false;
  }

  /**
   * The inner loop of `encode`: one parity bit per polynomial pushed onto
   * `output`, for the register as it stands.
   */
  method PushParities(output: seq<bool>, register: nat, taps: seq<nat>) returns (extended: seq<bool>)
    ensures extended == output + Block(register, taps)
  {
    extended := output;
    for j := 0 to |taps|
      invariant extended == output + Block(register, taps)[..j]
    {
      var odd := ComputeParity(And(register, taps[j]));
      BlockPrefix(register, taps, j);
      extended := extended + [odd];
    }
    assert Block(register, taps)[..|taps|] == Block(register, taps);
  }

  // ---------------------------------------------------------------------
  // The encoder object

  class ConvolutionalEncoder {
    const constraintLength: u32
    /** The tap masks, after the octal-digit conversion. */
    const polynomials: seq<u32>
    const rateDenominator: nat
    var state: u32

    ghost predicate Valid()
      reads this
    {
      rateDenominator == |polynomials| &&
      (1 <= constraintLength <= 32 ==> state < Pow2(constraintLength - 1))
    }

    /** `new`: no validation; every polynomial is converted to its tap mask. */
    constructor (constraintLength: u32, polynomials: seq<u32>)
      ensures Valid() && state == 0
      ensures this.constraintLength == constraintLength
      ensures rateDenominator == |polynomials|
      ensures |this.polynomials| == |polynomials|
      ensures forall i :: 0 <= i < |polynomials| ==> this.polynomials[i] == TapMask(polynomials[i])
    {
      var taps: seq<u32> := [];
      for i := 0 to |polynomials|
        invariant |taps| == i
        invariant forall j :: 0 <= j < i ==> taps[j] == TapMask(polynomials[j])
      {
        var t := PolynomialTaps(polynomials[i]);
        taps := taps + [t];
      }
      this.constraintLength := constraintLength;
      this.polynomials := taps;
      rateDenominator := |polynomials|;
      state := 0;
    }

    method Reset()
      requires Valid()
      modifies this
      ensures Valid() && state == 0
    {
      state := 0;
    }

    /**
     * Shifts each input bit into the register and emits one parity bit per
     * polynomial; the register is left where the input ends.
     * `1 << (K - 1)` needs 1 <= K <= 32 (otherwise Rust's subtraction or
     * shift overflows).
     */
    method Encode(input: seq<bool>) returns (output: seq<bool>)
      requires Valid() && 1 <= constraintLength <= 32
      modifies this
      ensures Valid()
      ensures output == Encoded(old(state), polynomials, constraintLength - 1, input)
      ensures state == FinalState(old(state), constraintLength - 1, input)
    {
      var registerMask := RegisterMask(constraintLength);
      ghost var width := constraintLength - 1;
      ghost var start := state;
      ghost var taps: seq<nat> := polynomials;
      output := [];
      for i := 0 to |input|
        invariant Valid()
        invariant output == Encoded(start, taps, width, input[..i])
        invariant state == FinalState(start, width, input[..i])
      {
        StepAppend(start, taps, width, input, i);
        ghost var next := Advance(state, input[i], width);
        state := ShiftRegister(state, input[i], constraintLength, registerMask);
        assert state == next;
        output := PushParities(output, state, polynomials);
        assert output == Encoded(start, taps, width, input[..i]) + Block(next, taps);
      }
      assert input[..|input|] == input;
    }

    method GetState() returns (s: u32)
      requires Valid()
      ensures s == state
      ensures 1 <= constraintLength <= 32 ==> s < Pow2(constraintLength - 1)
    {
      s := state;
    }

    method GetRate() returns (numerator: nat, denominator: nat)
      requires Valid()
      ensures numerator == 1 && denominator == |polynomials|
    {
      numerator, denominator := 1, rateDenominator;
    }
  }

  /** The in-file test of encoder.rs, against the code as written. */
  method EncoderVector() returns (output: seq<bool>)
    ensures output == [true, true, true, false, true, true, false, true, true, false]
  {
    var encoder := new ConvolutionalEncoder(3, [7, 5]);
    var input := [true, false, true, true, false];
    TapMaskOctal(7);
    TapMaskOctal(5);
    var taps := encoder.polynomials;
    assert taps[0] == 7 && taps[1] == 5;
    assert taps == [7, 5];
    KnownEncoding(taps, input);
    output := encoder.Encode(input);
  }
}
