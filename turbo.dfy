/**
 * The turbo encoder of `src/turbo/encoder.rs`: two constraint-length-3
 * convolutional encoders over the same polynomials, the second one fed an
 * interleaved copy of the input, and the systematic bits sent in front.
 */
module Turbo {
  import opened Bits
  import opened Convolutional

  // ---------------------------------------------------------------------
  // The interleaver

  /** Where input bit `i` of an `n`-bit block is written: `(i * 7 + 5) % n`. */
  function Position(i: nat, n: nat): (k: nat)
    requires n > 0
    ensures k < n
  {
    (i * 7 + 5) % n
  }

  /**
   * Position `k` of the interleaver buffer once input bits `0 .. count - 1`
   * have been written in order: the last of them to land on `k` wins, and a
   * position nobody lands on keeps its initial `false`.
   */
  function Scattered(input: seq<bool>, count: nat, k: nat): bool
    requires count <= |input|
    decreases count
  {
    if count == 0 then false
    else if Position(count - 1, |input|) == k then input[count - 1]
    else Scattered(input, count - 1, k)
  }

  /** The interleaved block: every position of the buffer after all writes. */
  function Interleaved(input: seq<bool>): (out: seq<bool>)
    ensures |out| == |input|
  {
    seq(|input|, k requires 0 <= k < |input| => Scattered(input, |input|, k))
  }

  /** A write that no later write covers is what the buffer ends up holding. */
  lemma {:induction false} LastWriteSurvives(input: seq<bool>, count: nat, i: nat)
    requires i < count <= |input|
    requires forall j :: i < j < count ==> Position(j, |input|) != Position(i, |input|)
    ensures Scattered(input, count, Position(i, |input|)) == input[i]
    decreases count
  {
    if count - 1 != i {
      LastWriteSurvives(input, count - 1, i);
    }
  }

  /** A position no write lands on stays `false`. */
  lemma {:induction false} UnwrittenStaysFalse(input: seq<bool>, count: nat, k: nat)
    requires count <= |input|
    requires forall j :: 0 <= j < count ==> Position(j, |input|) != k
    ensures !Scattered(input, count, k)
    decreases count
  {
    if count > 0 {
      UnwrittenStaysFalse(input, count - 1, k);
    }
  }

  /**
   * Bit `i` ends up at `Position(i, n)` unless a later bit lands on the same
   * position.
   */
  lemma LastWriterWins(input: seq<bool>, i: nat)
    requires i < |input|
    requires forall j :: i < j < |input| ==> Position(j, |input|) != Position(i, |input|)
    ensures Interleaved(input)[Position(i, |input|)] == input[i]
  {
    LastWriteSurvives(input, |input|, i);
  }

  // ---------------------------------------------------------------------
  // Arithmetic modulo n behind the interleaver

  /** `(a * b) % m` only depends on `a % m` and `b % m`. */
  lemma MulMod(a: nat, b: nat, m: nat)
    requires m > 0
    ensures (a * b) % m == ((a % m) * (b % m)) % m
  {
    ModMulAdd(a, b, 0, m);
    ModMulAdd(b, a % m, 0, m);
    assert (a % m) * b == b * (a % m);
    assert (b % m) * (a % m) == (a % m) * (b % m);
  }

  /** 7 is prime: if it divides `q * n` and not `n`, it divides `q`. */
  lemma SevenDividesFactor(q: nat, n: nat)
    requires n % 7 != 0 && (q * n) % 7 == 0
    ensures q % 7 == 0
  {
    var r, s := q % 7, n % 7;
    MulMod(q, n, 7);
    assert (r * s) % 7 == 0;
    assert 1 <= s <= 6;
    if r != 0 {
      assert false;
    }
  }

  /** Two values with the same remainder differ by a multiple of the modulus. */
  lemma SameRemainder(x: nat, e: nat, n: nat)
    requires n > 0 && (x + e) % n == x % n
    ensures e % n == 0
  {
    var r := e % n;
    var q := e / n;
    assert e == q * n + r;
    ModAddMultiple(x + r, q, n);
    assert (x + r) % n == x % n;
    var b := x % n;
    ModAddMultiple(b + r, x / n, n);
    assert x + r == (b + r) + (x / n) * n;
    if b + r < n {
      ModSmall(b + r, n);
    } else {
      ModAddMultiple(b + r - n, 1, n);
      ModSmall(b + r - n, n);
    }
  }

  /** When 7 does not divide `n`, two bits land on the same position only if they lie a multiple of `n` apart. */
  lemma SamePositionGap(n: nat, i: nat, j: nat)
    requires n > 0 && n % 7 != 0 && i <= j
    ensures Position(i, n) == Position(j, n) ==> (j - i) % n == 0
  {
    var d := j - i;
    if Position(i, n) == Position(j, n) {
      assert j * 7 + 5 == (i * 7 + 5) + 7 * d;
      SameRemainder(i * 7 + 5, 7 * d, n);
      var q := (7 * d) / n;
      assert 7 * d == q * n;
      SevenDividesFactor(q, n);
      var q' := q / 7;
      assert q == 7 * q';
      assert d == q' * n;
      ModAddMultiple(0, q', n);
    }
  }

  /** When 7 does not divide `n`, no two of the first `n` bits share a position. */
  lemma PositionsDistinct(n: nat, i: nat, j: nat)
    requires n > 0 && n % 7 != 0 && i < j < n
    ensures Position(i, n) != Position(j, n)
  {
    SamePositionGap(n, i, j);
    ModSmall(j - i, n);
  }

  /**
   * The `t` in 0 .. 6 for which `t * n + 1` is a multiple of 7, when 7 does
   * not divide `n`.
   */
  function InverseFactor(n: nat): (t: nat)
    requires n % 7 != 0
    ensures t < 7 && (t * n + 1) % 7 == 0
  {
    var s := n % 7;
    var t := if s == 1 then 6 else if s == 2 then 3 else if s == 3 then 2
             else if s == 4 then 5 else if s == 5 then 4 else 1;
    InverseFactorMod(n, t, s);
    t
  }

  lemma InverseFactorMod(n: nat, t: nat, s: nat)
    requires s == n % 7 && (t * s + 1) % 7 == 0
    ensures (t * n + 1) % 7 == 0
  {
    MulMod(t, n, 7);
    ModMulAdd(t * n, 1, 1, 7);
    ModMulAdd(t * s, 1, 1, 7);
    assert (t * s) % 7 == ((t % 7) * s) % 7 by {
      MulMod(t, s, 7);
      ModSmall(s, 7);
    }
  }

  /** The inverse of 7 modulo `n`: `7 * SevenInverse(n)` is 1 more than a multiple of `n`. */
  function SevenInverse(n: nat): (inv: nat)
    requires n % 7 != 0
    ensures 7 * inv == InverseFactor(n) * n + 1
  {
    (InverseFactor(n) * n + 1) / 7
  }

  /**
   * The de-interleaver: which input bit is written to position `k` when 7
   * does not divide `n`. It undoes `Position`.
   */
  function Origin(n: nat, k: nat): (i: nat)
    requires n > 0 && n % 7 != 0 && k < n
    ensures i < n && Position(i, n) == k
  {
    var c := k + 5 * n - 5;
    var a := c * SevenInverse(n);
    OriginReaches(n, k, c, a);
    a % n
  }

  lemma OriginReaches(n: nat, k: nat, c: nat, a: nat)
    requires n > 0 && n % 7 != 0 && k < n
    requires c == k + 5 * n - 5 && a == c * SevenInverse(n)
    ensures Position(a % n, n) == k
  {
    var t := InverseFactor(n);
    ModMulAdd(a, 7, 5, n);
    TimesInverse(a, c, SevenInverse(n), t * n + 1);
    Distribute(c, t, n);
    assert a * 7 + 5 == k + (c * t + 5) * n;
    ModAddMultiple(k, c * t + 5, n);
    ModSmall(k, n);
  }

  /** Products regrouped in a lemma of their own, so that the solver sees no other product beside them. */
  lemma TimesInverse(a: nat, c: nat, inv: nat, e: nat)
    requires a == c * inv && 7 * inv == e
    ensures a * 7 == c * e
  {
  }

  lemma Distribute(c: nat, t: nat, n: nat)
    ensures c * (t * n + 1) == (c * t) * n + c
  {
  }

  /**
   * When 7 does not divide the block length the interleaver is a
   * permutation: positions are pairwise distinct, every position is reached,
   * and bit `i` is found at its position.
   */
  lemma InterleavePermutes(input: seq<bool>)
    requires |input| % 7 != 0
    ensures forall i, j :: 0 <= i < j < |input| ==> Position(i, |input|) != Position(j, |input|)
    ensures forall i :: 0 <= i < |input| ==> Interleaved(input)[Position(i, |input|)] == input[i]
    ensures forall k :: 0 <= k < |input| ==> Interleaved(input)[k] == input[Origin(|input|, k)]
  {
    var n := |input|;
    forall i, j | 0 <= i < j < n
      ensures Position(i, n) != Position(j, n)
    {
      PositionsDistinct(n, i, j);
    }
    forall i | 0 <= i < n
      ensures Interleaved(input)[Position(i, n)] == input[i]
    {
      LastWriterWins(input, i);
    }
    forall k | 0 <= k < n
      ensures Interleaved(input)[k] == input[Origin(n, k)]
    {
      LastWriterWins(input, Origin(n, k));
    }
  }

  /** When 7 divides `n`, every write lands on a position that is 5 modulo 7. */
  lemma PositionModSeven(n: nat, i: nat)
    requires n > 0 && n % 7 == 0
    ensures Position(i, n) % 7 == 5
  {
    var k := Position(i, n);
    var q := (i * 7 + 5) / n;
    var m := n / 7;
    assert n == 7 * m;
    assert i * 7 + 5 == q * n + k;
    assert k == 7 * (i - q * m) + 5;
    assert i - q * m >= 0;
    DivModUnique(k, 7, i - q * m, 5);
  }

  /** When 7 divides `n`, bit `i` and bit `i + n / 7` land on the same position. */
  lemma PositionsCollide(n: nat, i: nat)
    requires n > 0 && n % 7 == 0
    ensures Position(i, n) == Position(i + n / 7, n)
  {
    assert (i + n / 7) * 7 + 5 == (i * 7 + 5) + 1 * n;
    ModAddMultiple(i * 7 + 5, 1, n);
  }

  /**
   * When 7 divides the block length, only positions that are 5 modulo 7 are
   * written (the others stay `false`), and only the last `n / 7` bits
   * survive, each at its own position.
   */
  lemma InterleaveCollides(input: seq<bool>)
    requires |input| > 0 && |input| % 7 == 0
    ensures forall k :: 0 <= k < |input| && k % 7 != 5 ==> !Interleaved(input)[k]
    ensures forall i :: 0 <= i < |input| - |input| / 7
              ==> Position(i, |input|) == Position(i + |input| / 7, |input|)
    ensures forall i :: |input| - |input| / 7 <= i < |input|
              ==> Interleaved(input)[Position(i, |input|)] == input[i]
  {
    var n := |input|;
    forall k | 0 <= k < n && k % 7 != 5
      ensures !Interleaved(input)[k]
    {
      forall j | 0 <= j < n
        ensures Position(j, n) != k
      {
        PositionModSeven(n, j);
      }
      UnwrittenStaysFalse(input, n, k);
    }
    forall i | 0 <= i < n - n / 7
      ensures Position(i, n) == Position(i + n / 7, n)
    {
      PositionsCollide(n, i);
    }
    forall i | n - n / 7 <= i < n
      ensures Interleaved(input)[Position(i, n)] == input[i]
    {
      forall j | i < j < n
        ensures Position(j, n) != Position(i, n)
      {
        LateWritersApart(n, i, j);
      }
      LastWriterWins(input, i);
    }
  }

  /** Two bits less than `n / 7` apart never share a position. */
  lemma LateWritersApart(n: nat, i: nat, j: nat)
    requires n > 0 && i < j && 7 * (j - i) < n
    ensures Position(j, n) != Position(i, n)
  {
    var d := j - i;
    if Position(j, n) == Position(i, n) {
      assert j * 7 + 5 == (i * 7 + 5) + 7 * d;
      SameRemainder(i * 7 + 5, 7 * d, n);
      ModSmall(7 * d, n);
      assert false;
    }
  }

  // ---------------------------------------------------------------------
  // The turbo code

  /**
   * Everything `encode` returns for `input`: the systematic bits, then the
   * parity bits of the first encoder on the input, then those of the second
   * encoder on the interleaved input, both started from the zero register of
   * a constraint-length-3 encoder.
   */
  function TurboEncoded(taps: seq<nat>, input: seq<bool>): (output: seq<bool>)
  {
    input + Encoded(0, taps, 2, input) + Encoded(0, taps, 2, Interleaved(input))
  }

  /**
   * The layout of a turbo code word: `n` systematic bits equal to the input,
   * then `n * m` bits from each encoder, where bit `t * m + j` of a parity
   * section is polynomial `j`'s parity on the register after bit `t`.
   */
  lemma TurboLayout(taps: seq<nat>, input: seq<bool>, t: nat, j: nat)
    requires t < |input| && j < |taps|
    ensures t * |taps| + j < |input| * |taps|
    ensures TurboEncoded(taps, input)[|input| + t * |taps| + j]
         == Parity(And(FinalState(0, 2, input[..t + 1]), taps[j]))
    ensures TurboEncoded(taps, input)[|input| + |input| * |taps| + t * |taps| + j]
         == Parity(And(FinalState(0, 2, Interleaved(input)[..t + 1]), taps[j]))
  {
    EncodedAt(0, taps, 2, input, t, j);
    EncodedAt(0, taps, 2, Interleaved(input), t, j);
    ParitySections(taps, input, t, j);
  }

  /** Bit `t * m + j` of each parity section sits after the systematic bits. */
  lemma ParitySections(taps: seq<nat>, input: seq<bool>, t: nat, j: nat)
    requires t < |input| && j < |taps|
    ensures t * |taps| + j < |input| * |taps|
    ensures TurboEncoded(taps, input)[|input| + t * |taps| + j] == Encoded(0, taps, 2, input)[t * |taps| + j]
    ensures TurboEncoded(taps, input)[|input| + |input| * |taps| + t * |taps| + j]
         == Encoded(0, taps, 2, Interleaved(input))[t * |taps| + j]
  {
    IndexInBlocks(t, j, |input|, |taps|);
    MulLe(0, t, |taps|);
    var b, c, p := Encoded(0, taps, 2, input), Encoded(0, taps, 2, Interleaved(input)), t * |taps| + j;
    assert (input + b + c)[|input| + p] == b[p];
    assert (input + b + c)[|input| + |b| + p] == c[p];
  }

  /** The systematic part alone: the code word starts with the input. */
  lemma SystematicPrefix(taps: seq<nat>, input: seq<bool>)
    ensures |TurboEncoded(taps, input)| == |input| + 2 * (|input| * |taps|)
    ensures TurboEncoded(taps, input)[..|input|] == input
  {
    var output := TurboEncoded(taps, input);
    assert output == input + (Encoded(0, taps, 2, input) + Encoded(0, taps, 2, Interleaved(input)));
  }

  // ---------------------------------------------------------------------
  // The encoder object

  class TurboEncoder {
    const encoder1: ConvolutionalEncoder
    const encoder2: ConvolutionalEncoder

    /** Two distinct constraint-length-3 encoders over the same tap masks. */
    ghost predicate Valid()
      reads this, encoder1, encoder2
    {
      encoder1 != encoder2 &&
      encoder1.Valid() && encoder2.Valid() &&
      encoder1.constraintLength == 3 && encoder2.constraintLength == 3 &&
      encoder1.polynomials == encoder2.polynomials
    }

    constructor (polynomials: seq<u32>)
      ensures Valid() && fresh(encoder1) && fresh(encoder2)
      ensures encoder1.state == 0 && encoder2.state == 0
      ensures |encoder1.polynomials| == |polynomials|
      ensures forall i :: 0 <= i < |polynomials| ==> encoder1.polynomials[i] == TapMask(polynomials[i])
    {
      encoder1 := new ConvolutionalEncoder(3, polynomials);
      encoder2 := new ConvolutionalEncoder(3, polynomials);
      new;
      assert encoder1.polynomials == encoder2.polynomials;
    }

    /** The interleaver: bit `i` is written to `(i * 7 + 5) % n` of an all-false buffer. */
    method Interleave(input: seq<bool>) returns (interleaved: seq<bool>)
      ensures interleaved == Interleaved(input)
    {
      var len := |input|;
      var buffer := new bool[len](_ => false);
      for i := 0 to len
        invariant forall k :: 0 <= k < len ==> buffer[k] == Scattered(input, i, k)
      {
        var newPos := (i * 7 + 5) % len;
        buffer[newPos] := input[i];
      }
      interleaved := buffer[..];
    }

    /**
     * Resets both encoders, so the code word depends on the input alone, and
     * leaves each register where its input ends.
     */
    method Encode(input: seq<bool>) returns (output: seq<bool>)
      requires Valid()
      modifies encoder1, encoder2
      ensures Valid()
      ensures output == TurboEncoded(encoder1.polynomials, input)
      ensures encoder1.state == FinalState(0, 2, input)
      ensures encoder2.state == FinalState(0, 2, Interleaved(input))
    {
      encoder1.Reset();
      encoder2.Reset();
      var encoded1 := encoder1.Encode(input);
      var interleaved := Interleave(input);
      var encoded2 := encoder2.Encode(interleaved);
      output := input + encoded1 + encoded2;
    }
  }
}
