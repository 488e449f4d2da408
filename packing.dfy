/**
 * The text/bit conversions that `src/main.rs` repeats for every command:
 * each character becomes eight bits, most significant first, of its code
 * truncated to a byte (`c as u8`); a bit string is cut into chunks of eight,
 * each chunk is folded into a byte (missing low bits stay 0) and the byte is
 * read back as a character.
 */
module Packing {
  import opened Bits

  // ---------------------------------------------------------------------
  // Bytes and their bits

  /** `c as u8`: only the low eight bits of the code point are kept. */
  function ByteOf(c: char): (b: nat)
    ensures b < 256
  {
    c as int % 256
  }

  /** The `n` low bits of `v`, most significant first. */
  function BitsOf(v: nat, n: nat): (bits: seq<bool>)
    ensures |bits| == n
  {
    seq(n, k requires 0 <= k < n => (v / Pow2(n - 1 - k)) % 2 == 1)
  }

  /** `x >> n` divides by `2^n`. */
  lemma {:induction false} ShrDiv(x: nat, n: nat)
    ensures Shr(x, n) == x / Pow2(n)
  {
    if n > 0 {
      ShrDiv(x / 2, n - 1);
      DivPow2Step(x, n - 1);
    }
  }

  /** Bit `k` of a bit string (most significant first) can be read off its value. */
  lemma {:induction false} BitOfBinary(bits: seq<bool>, k: nat)
    requires k < |bits|
    ensures (BinaryValue(bits) / Pow2(|bits| - 1 - k)) % 2 == (if bits[k] then 1 else 0)
    decreases |bits|
  {
    var n := |bits|;
    var init := bits[..n - 1];
    var b := if bits[n - 1] then 1 else 0;
    assert BinaryValue(bits) == 2 * BinaryValue(init) + b;
    if k < n - 1 {
      BitOfBinary(init, k);
      DivPow2Step(BinaryValue(bits), n - 2 - k);
      assert BinaryValue(bits) / 2 == BinaryValue(init);
    }
  }

  /** A bit string is the bits of its own value. */
  lemma BitsOfBinary(bits: seq<bool>)
    ensures BitsOf(BinaryValue(bits), |bits|) == bits
  {
    var r := BitsOf(BinaryValue(bits), |bits|);
    forall k | 0 <= k < |bits|
      ensures r[k] == bits[k]
    {
      BitOfBinary(bits, k);
    }
  }

  /** The bits of a value that fits in `n` bits read back as that value. */
  lemma {:induction false} BinaryOfBits(v: nat, n: nat)
    requires v < Pow2(n)
    ensures BinaryValue(BitsOf(v, n)) == v
  {
    if n > 0 {
      var bits := BitsOf(v, n);
      BitsOfInit(v, n);
      assert v / 2 < Pow2(n - 1);
      BinaryOfBits(v / 2, n - 1);
      assert Pow2(n - 1 - (n - 1)) == 1;
      assert bits[n - 1] == (v % 2 == 1);
      assert BinaryValue(bits) == 2 * BinaryValue(BitsOf(v / 2, n - 1)) + (if bits[n - 1] then 1 else 0);
    }
  }

  /** Dropping the lowest bit of the `n` bits of `v` leaves the `n - 1` bits of `v / 2`. */
  lemma BitsOfInit(v: nat, n: nat)
    requires n > 0
    ensures BitsOf(v, n)[..n - 1] == BitsOf(v / 2, n - 1)
  {
    var bits, init := BitsOf(v, n), BitsOf(v / 2, n - 1);
    forall k | 0 <= k < n - 1
      ensures bits[k] == init[k]
    {
      DivPow2Step(v, n - 2 - k);
    }
  }

  // ---------------------------------------------------------------------
  // Text to bits

  /** The `flat_map` closure: `(byte >> (7 - i)) & 1 == 1` for `i` in `0..8`. */
  function CharBits(c: char): (bits: seq<bool>)
    ensures |bits| == 8
  {
    seq(8, i requires 0 <= i < 8 => And(Shr(ByteOf(c), 7 - i), 1) == 1)
  }

  /** Bit `k` of a character's group is bit `7 - k` of its byte: most significant first. */
  lemma CharBitsValue(c: char)
    ensures CharBits(c) == BitsOf(ByteOf(c), 8)
  {
    forall i | 0 <= i < 8
      ensures CharBits(c)[i] == BitsOf(ByteOf(c), 8)[i]
    {
      ShrDiv(ByteOf(c), 7 - i);
      AndOne(Shr(ByteOf(c), 7 - i));
    }
  }

  /** Text to bits: eight bits per character, characters in order. */
  function Unpack(s: string): (bits: seq<bool>)
    ensures |bits| == 8 * |s|
  {
    if s == [] then [] else CharBits(s[0]) + Unpack(s[1..])
  }

  /**
   * Unpacking yields exactly eight bits per character, and bit `8 * t + k`
   * is bit `7 - k` of character `t`'s byte.
   */
  lemma {:induction false} UnpackAt(s: string, t: nat, k: nat)
    requires t < |s| && k < 8
    ensures |Unpack(s)| == 8 * |s|
    ensures Unpack(s)[8 * t + k] == ((ByteOf(s[t]) / Pow2(7 - k)) % 2 == 1)
    decreases t
  {
    CharBitsValue(s[0]);
    if t > 0 {
      UnpackAt(s[1..], t - 1, k);
    }
  }

  /**
   * `c as u8` drops the high bits: texts whose characters agree modulo 256
   * unpack to the same bits.
   */
  lemma {:induction false} UnpackSameBytes(s: string, t: string)
    requires |s| == |t|
    requires forall i :: 0 <= i < |s| ==> ByteOf(s[i]) == ByteOf(t[i])
    ensures Unpack(s) == Unpack(t)
    decreases |s|
  {
    if s != [] {
      CharBitsValue(s[0]);
      CharBitsValue(t[0]);
      UnpackSameBytes(s[1..], t[1..]);
    }
  }

  // ---------------------------------------------------------------------
  // Bits to text

  /**
   * The byte a chunk of at most eight bits folds into: bit `i` of the chunk
   * is byte bit `7 - i`, and the bits a short chunk lacks are 0.
   */
  function ChunkByte(chunk: seq<bool>): (b: nat)
    requires |chunk| <= 8
    ensures b < 256
  {
    ChunkBound(chunk);
    BinaryValue(chunk) * Pow2(8 - |chunk|)
  }

  lemma ChunkBound(chunk: seq<bool>)
    requires |chunk| <= 8
    ensures BinaryValue(chunk) * Pow2(8 - |chunk|) < 256
  {
    BinaryValueBound(chunk);
    MulLt(BinaryValue(chunk), Pow2(|chunk|), Pow2(8 - |chunk|));
    Pow2Add(|chunk|, 8 - |chunk|);
    assert Pow2(8) == 256;
  }

  /** `n` zero bits. */
  function Zeros(n: nat): (z: seq<bool>)
    ensures |z| == n && forall i :: 0 <= i < n ==> !z[i]
  {
    seq(n, _ => false)
  }

  /** Appending zero bits multiplies the value by a power of two. */
  lemma {:induction false} BinaryValueZeros(bits: seq<bool>, n: nat)
    ensures BinaryValue(bits + Zeros(n)) == BinaryValue(bits) * Pow2(n)
  {
    if n > 0 {
      var longer := bits + Zeros(n);
      var shorter := bits + Zeros(n - 1);
      assert longer[..|longer| - 1] == shorter;
      assert !longer[|longer| - 1];
      assert BinaryValue(longer) == 2 * BinaryValue(shorter);
      BinaryValueZeros(bits, n - 1);
      assert BinaryValue(longer) == 2 * (BinaryValue(bits) * Pow2(n - 1));
      assert Pow2(n) == 2 * Pow2(n - 1);
      DoubleScale(0, BinaryValue(bits), Pow2(n - 1));
    } else {
      assert bits + Zeros(0) == bits;
    }
  }

  /** A chunk's byte has the chunk's bits on top and zeros below. */
  lemma ChunkByteBits(chunk: seq<bool>)
    requires |chunk| <= 8
    ensures BitsOf(ChunkByte(chunk), 8) == chunk + Zeros(8 - |chunk|)
  {
    BinaryValueZeros(chunk, 8 - |chunk|);
    BitsOfBinary(chunk + Zeros(8 - |chunk|));
  }

  /**
   * The fold over one chunk: for each of its first eight bits that is set,
   * `byte |= 1 << (7 - i)`.
   */
  method PackChunk(chunk: seq<bool>) returns (byte: nat)
    ensures byte == ChunkByte(if |chunk| <= 8 then chunk else chunk[..8])
  {
    var m := if |chunk| <= 8 then |chunk| else 8;
    byte := 0;
    for i := 0 to m
      invariant byte == BinaryValue(chunk[..i]) * Pow2(8 - i)
    {
      FoldStep(chunk, i, byte);
      if chunk[i] {
        byte := Or(byte, Shl(1, 7 - i));
      }
    }
    assert chunk[..m] == (if |chunk| <= 8 then chunk else chunk[..8]);
  }

  /** Setting byte bit `7 - i` below the bits already folded in is adding `2^(7 - i)`. */
  lemma FoldStep(chunk: seq<bool>, i: nat, byte: nat)
    requires i < |chunk| && i < 8 && byte == BinaryValue(chunk[..i]) * Pow2(8 - i)
    ensures (if chunk[i] then Or(byte, Shl(1, 7 - i)) else byte) == BinaryValue(chunk[..i + 1]) * Pow2(8 - (i + 1))
  {
    var low := Pow2(7 - i);
    var v := BinaryValue(chunk[..i]);
    var b := if chunk[i] then 1 else 0;
    assert chunk[..i + 1][..i] == chunk[..i];
    assert BinaryValue(chunk[..i + 1]) == 2 * v + b;
    assert Pow2(8 - i) == 2 * low;
    DoubleScale(v, b, low);
    if chunk[i] {
      ShlValue(1, 7 - i);
      OrComm(byte, low);
      OrDisjoint(low, v, 8 - i);
    }
  }

  /** Products regrouped in a lemma of their own, so that the solver sees no other product beside them. */
  lemma DoubleScale(v: nat, b: nat, low: nat)
    ensures (2 * v + b) * low == v * (2 * low) + b * low
    ensures 2 * (b * low) == b * (2 * low)
  {
  }

  /** Bits to text: chunks of eight, the last possibly shorter, each one character. */
  function Pack(bits: seq<bool>): (s: string)
    ensures |s| == (|bits| + 7) / 8
    decreases |bits|
  {
    if bits == [] then []
    else
      var n := if |bits| < 8 then |bits| else 8;
      [ChunkByte(bits[..n]) as char] + Pack(bits[n..])
  }

  /** The character a chunk packs into unpacks to the chunk padded with zeros. */
  lemma CharOfChunk(chunk: seq<bool>)
    requires |chunk| <= 8
    ensures CharBits(ChunkByte(chunk) as char) == chunk + Zeros(8 - |chunk|)
  {
    var c := ChunkByte(chunk) as char;
    assert ByteOf(c) == ChunkByte(chunk);
    CharBitsValue(c);
    ChunkByteBits(chunk);
  }

  lemma UnpackCons(c: char, s: string)
    ensures Unpack([c] + s) == CharBits(c) + Unpack(s)
  {
    assert ([c] + s)[0] == c && ([c] + s)[1..] == s;
  }

  /** How many zero bits fill out the last chunk of `n` bits. */
  function Padding(n: nat): (pad: nat)
    ensures pad < 8 && (n + pad) % 8 == 0
  {
    (8 - n % 8) % 8
  }

  lemma PaddingCases(n: nat)
    ensures n % 8 == 0 ==> Padding(n) == 0
    ensures 0 < n < 8 ==> Padding(n) == 8 - n
    ensures n >= 8 ==> Padding(n) == Padding(n - 8)
  {
    if n >= 8 {
      assert (n - 8) % 8 == n % 8;
    }
  }

  /**
   * Unpacking what was packed gives the bits back followed by the zeros that
   * filled out the last chunk.
   */
  lemma {:induction false} UnpackPack(bits: seq<bool>)
    ensures Unpack(Pack(bits)) == bits + Zeros(Padding(|bits|))
    decreases |bits|
  {
    PaddingCases(|bits|);
    if bits == [] {
      assert Zeros(0) == [];
    } else {
      var n := if |bits| < 8 then |bits| else 8;
      var chunk, rest := bits[..n], bits[n..];
      var c := ChunkByte(chunk) as char;
      assert Pack(bits) == [c] + Pack(rest);
      UnpackCons(c, Pack(rest));
      CharOfChunk(chunk);
      if |bits| < 8 {
        assert rest == [] && chunk == bits;
        assert Unpack(Pack(rest)) == [];
        assert Unpack(Pack(bits)) == (chunk + Zeros(8 - n)) + [];
      } else {
        UnpackPack(rest);
        assert Zeros(8 - n) == [];
        assert Unpack(Pack(bits)) == chunk + (rest + Zeros(Padding(|rest|)));
        assert bits == chunk + rest;
      }
    }
  }

  /** When the bit count is a multiple of eight, unpacking undoes packing exactly. */
  lemma UnpackPackBytes(bits: seq<bool>)
    requires |bits| % 8 == 0
    ensures Unpack(Pack(bits)) == bits
  {
    UnpackPack(bits);
    PaddingCases(|bits|);
    assert Zeros(0) == [];
    assert bits + [] == bits;
  }

  /** Every character below 256 survives unpacking and packing. */
  lemma {:induction false} PackUnpack(s: string)
    requires forall i :: 0 <= i < |s| ==> s[i] as int < 256
    ensures Pack(Unpack(s)) == s
    decreases |s|
  {
    if s != [] {
      var bits := Unpack(s);
      var head := CharBits(s[0]);
      assert bits[..8] == head && bits[8..] == Unpack(s[1..]);
      CharBitsValue(s[0]);
      BinaryOfBits(ByteOf(s[0]), 8);
      assert Pow2(8) == 256;
      assert ChunkByte(head) == s[0] as int;
      PackUnpack(s[1..]);
    }
  }
}
