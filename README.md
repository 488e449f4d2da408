# rustcrypto core in Dafny

This project models the core of rustcrypto, a small Rust command-line tool.
The tool encodes bit streams with a convolutional encoder and a turbo encoder.
It also encrypts text with three classical ciphers.

There are five modules:

- `Bits` (bits.dfy) writes Rust's `&`, `|`, `^`, `<<` and `>>` on natural
  numbers, with the `u32` width made explicit where it matters. It also
  holds the arithmetic lemmas the other modules use.
- `Convolutional` (convolutional.dfy) models `ConvolutionalEncoder`
  (src/convolutional/encoder.rs).
  - Construction reads each polynomial's decimal digits as octal digits to
    form a tap mask.
  - The register keeps K - 1 bits, masked with `(1 << (K - 1)) - 1`.
  - Each input bit is shifted in, then one parity bit is emitted per
    polynomial.
  - The object is a class with a mutable `state`. Its `Encode` method is
    proved against the specification functions `Encoded` and `FinalState`.
- `Turbo` (turbo.dfy) models `TurboEncoder` (src/turbo/encoder.rs).
  - The interleaver writes input bit `i` to position `(7i + 5) mod n` of a
    buffer of `false` bits. When two writes land on the same position, the
    later one wins.
  - The code word is the input, then encoder 1's parities over the input,
    then encoder 2's parities over the interleaved input.
- `Crypto` (cipher.dfy) models `Cipher` (src/crypto/cipher.rs): Caesar,
  Vigenère and repeating-key XOR, with `encrypt` and `decrypt` dispatching
  on the algorithm name.
- `Packing` (packing.dfy) models the two closures of src/main.rs.
  - Text becomes bits: each character is cast to `u8` and its 8 bits are
    listed most significant first.
  - Bits become text: chunks of 8 bits, the last one zero-padded on the
    right, each chunk becomes one character.

Reading of `key.parse::<i32>()` is not modelled. It is a parameter
`parse: string -> Option<int>`, which gives `None` where Rust gives an
error.

Panics are not modelled as panics. The `panic!` on an unknown algorithm is
modelled as a `Failure` result. Other panic conditions are excluded by
preconditions: `u8` overflow in Caesar, and the `K - 1` underflow or a
shift out of range for `1 << (K - 1)`.

## Model

| member | source | states |
|---|---|---|
| Convolutional.PolynomialTaps | src/convolutional/encoder.rs:25-40 | The decimal-to-octal digit loop returns the tap mask `TapMask(p)`. When every digit is 0-7, that mask is the polynomial read as an octal numeral. The result always fits in 31 bits. |
| Convolutional.TapMaskOctal | src/convolutional/encoder.rs:25-40 | When every digit of the polynomial is an octal digit, its tap mask is the polynomial's octal value, for example 7 gives 7 and 13 gives 11. |
| Convolutional.NineOverlapsNextDigit | src/convolutional/encoder.rs:31-36 | Digits 8 and 9 are not rejected. The high bit of such a digit lands in the next digit's 3-bit group, so 19 gives the same taps as 11 (mask 9). |
| Convolutional.TapMaskBound | src/convolutional/encoder.rs:31-36 | For any `u32` polynomial the conversion never needs more than 31 bits, so `digit << shift` does not overflow. |
| Convolutional.ShiftRegister | src/convolutional/encoder.rs:55-59 | `((state << 1) \| bit) & register_mask` equals appending the bit to the register and keeping its low K - 1 bits. |
| Convolutional.ComputeParity | src/convolutional/encoder.rs:63-68 | The xor-and-shift loop returns the odd parity (popcount mod 2) of `state & poly`. |
| Convolutional.PushParities | src/convolutional/encoder.rs:61-71 | The polynomial loop appends exactly one parity bit per polynomial, in polynomial order. |
| Convolutional.ConvolutionalEncoder.constructor | src/convolutional/encoder.rs:24-48 | The state starts at 0. The constraint length is kept. Each polynomial is replaced by its tap mask. The rate denominator is the number of polynomials. |
| Convolutional.ConvolutionalEncoder.Reset | src/convolutional/encoder.rs:50-52 | The state becomes 0 and the invariant is kept. |
| Convolutional.ConvolutionalEncoder.Encode | src/convolutional/encoder.rs:54-75 | The output is `Encoded` of the old state over the input, and the new state is `FinalState`. The register stays below 2^(K-1). |
| Convolutional.ConvolutionalEncoder.GetState | src/convolutional/encoder.rs:77-79 | Returns the register, which is below 2^(K-1). |
| Convolutional.ConvolutionalEncoder.GetRate | src/convolutional/encoder.rs:81-83 | The rate is 1 over the number of polynomials. |
| Convolutional.EncodedAt | src/convolutional/encoder.rs:57-71 | With m polynomials, output bit `t*m + j` is the parity of polynomial `j`'s taps over the register after input bits 0..t. |
| Convolutional.RegisterHoldsRecentBits | src/convolutional/encoder.rs:59 | After any input, the register holds the most recent K - 1 bits as a binary number: `(state * 2^len + value(input)) mod 2^(K-1)`. |
| Convolutional.EncodeResumes | src/convolutional/encoder.rs:54-75 | Encoding `a` and then `b` from the register left by `a` gives the same output and state as encoding `a + b`. |
| Convolutional.HighTapsIgnored | src/convolutional/encoder.rs:55-66 | Tap bits at or above position K - 1 never affect the output, because the register holds only K - 1 bits. |
| Convolutional.ZeroInZeroOut | src/convolutional/encoder.rs:57-71 | From state 0, an all-zero input keeps the register at 0 and emits only zeros. |
| Convolutional.KnownEncoding | src/convolutional/encoder.rs:90-94 | For K = 3, polynomials 7 and 5 and input 1 0 1 1 0, the code emits 11 10 11 01 10. |
| Convolutional.TestExpectationDiffers | src/convolutional/encoder.rs:96-104 | The test's expected vector is not what the code emits: the code swaps the third and fourth pairs. |
| Convolutional.EncoderVector | src/convolutional/encoder.rs:90-105 | The test's construction and `encode` call, run through the class, give 11 10 11 01 10. |
| Turbo.TurboEncoder.constructor | src/turbo/encoder.rs:22-27 | Two distinct encoders, both with K = 3 and the same tap masks converted from the polynomials, both at state 0. |
| Turbo.TurboEncoder.Interleave | src/turbo/encoder.rs:35-45 | The buffer loop returns `Interleaved(input)`: each position holds the last bit written there, or `false`. |
| Turbo.LastWriterWins | src/turbo/encoder.rs:39-43 | A bit that no later bit overwrites is found at its position `(7i + 5) mod n`. |
| Turbo.InterleavePermutes | src/turbo/encoder.rs:39-43 | When 7 does not divide n, the positions are pairwise distinct. Every bit lands at its position, and position k holds input bit `Origin(n, k)`, so the interleaver is a bijection. |
| Turbo.InterleaveCollides | src/turbo/encoder.rs:39-43 | When 7 divides n, bits i and i + n/7 collide. Only positions that are 5 mod 7 are written; every other position stays `false`. The last n/7 bits survive. |
| Turbo.LateWritersApart | src/turbo/encoder.rs:41 | Two bits fewer than n/7 apart never share a position. |
| Turbo.TurboEncoder.Encode | src/turbo/encoder.rs:56-76 | Both encoders are reset. The output is input, then parities of the input, then parities of the interleaved input. The two encoders end in the states those inputs leave. |
| Turbo.SystematicPrefix | src/turbo/encoder.rs:71-73 | The code word has length n + 2·n·m and starts with the input (the systematic bits). |
| Turbo.TurboLayout | src/turbo/encoder.rs:62-73 | Each parity bit is located at a stated index. Bit `n + t*m + j` is polynomial j's parity over the input's register at step t. Bit `n + n*m + t*m + j` is the same over the interleaved input. |
| Crypto.ShiftLetter | src/crypto/cipher.rs:79-80 | A letter moves k places round its own alphabet and keeps its case. |
| Crypto.ShiftLetterInverse | src/crypto/cipher.rs:73-80 | Shifting by k and then by 26 - k gives the letter back. |
| Crypto.CaesarShift | src/crypto/cipher.rs:73-74 | The shift is the key (3 if it is not a number) with Rust's truncating `% 26`, or `26 - shift` to decrypt. An encryption shift is below 26. |
| Crypto.Caesar | src/crypto/cipher.rs:76-86 | The length is kept. Letters stay letters of the same case, and every other character is copied. |
| Crypto.CaesarRoundTrip | src/crypto/cipher.rs:71-87 | Decrypting with the same key undoes encrypting. |
| Crypto.KeyLetters | src/crypto/cipher.rs:100-101 | The key is lower-cased with non-letters dropped: only lower-case letters, one per letter of the key. |
| Crypto.KeyLettersOfLower | src/crypto/cipher.rs:100-101 | A key made only of lower-case letters passes through lower-casing and filtering unchanged. |
| Crypto.LettersBeforeAgree | src/crypto/cipher.rs:110-124 | The key index at position k depends only on where the letters are among the first k characters, not on which letters they are. |
| Crypto.VigenereUpToAt | src/crypto/cipher.rs:110-126 | Each loop step appends exactly one character: the character at position i is pushed at step i and never changed afterwards. |
| Crypto.VigenereAt | src/crypto/cipher.rs:107-126 | Character i is shifted by key letter `(number of letters before i) mod keylen`. |
| Crypto.VigenerePreserves | src/crypto/cipher.rs:110-126 | The length is kept. Letters stay letters of the same case, and non-letters are copied and do not advance the key. |
| Crypto.VigenereLetterInverse | src/crypto/cipher.rs:113-119 | A letter encrypted and then decrypted under the same key letter comes back. |
| Crypto.VigenereRoundTrip | src/crypto/cipher.rs:113-119 | Decrypting with the same key undoes encrypting, for any key, including one with no letters. |
| Crypto.VigenereCipher | src/crypto/cipher.rs:99-128 | The loop with its running key index computes `Vigenere(message, KeyLetters(key))`. An empty key list returns the message. |
| Crypto.KeyLettersCaseInsensitive | src/crypto/cipher.rs:97-101 | Keys whose characters agree once lower-cased give the same key letters: the Vigenère key is case-insensitive. |
| Crypto.XorCipher | src/crypto/cipher.rs:136-147 | The length is kept and the output stays ASCII. An empty key returns the message. |
| Crypto.XorRoundTrip | src/crypto/cipher.rs:136-147 | XOR with the same key twice is the identity. |
| Crypto.XorKeyMatters | src/crypto/cipher.rs:143-146 | Xor-ing a character with two key bytes gives the same result exactly when the key bytes are equal, so the XOR key is case-sensitive. |
| Crypto.XorKeepsOnlyUnderNul | src/crypto/cipher.rs:143-146 | A character, letter or not, comes through XOR unchanged exactly when its key byte is NUL. |
| Crypto.Cipher.Apply | src/crypto/cipher.rs:34-59 | The result is `Ok` exactly for "caesar", "vigenere" and "xor", and a failure (Rust's panic) for any other name. The length is kept. |
| Crypto.Cipher.Encrypt | src/crypto/cipher.rs:34-41 | `encrypt` equals `Apply` with encrypt = true, using the looping Vigenère method. |
| Crypto.Cipher.Decrypt | src/crypto/cipher.rs:52-59 | `decrypt` equals `Apply` with encrypt = false. |
| Crypto.RoundTrip | src/crypto/cipher.rs:34-59 | For every supported algorithm, `decrypt(encrypt(m)) == m`, and the encrypted text is a valid input to `decrypt`. |
| Crypto.NonLettersPassThrough | src/crypto/cipher.rs:29-31 | Under "caesar" and "vigenere", every character that is not a letter comes out of `encrypt` and `decrypt` unchanged. |
| Crypto.VigenereKeyCaseInsensitive | src/crypto/cipher.rs:47-49 | Under "vigenere", two keys that agree once lower-cased give the same `encrypt` and `decrypt` results. |
| Crypto.XorDocCounterexample | src/crypto/cipher.rs:29-31 | Under "xor", the keys "K" and "k" encrypt "a" differently, and the key "k" changes the comma of ",". |
| Crypto.CaesarVector | src/crypto/cipher.rs:155-164 | Key "3" maps "Hello, World!" to "Khoor, Zruog!" and back. |
| Crypto.VigenereVector | src/crypto/cipher.rs:167-176 | Key "key" maps "Hello, World!" to "Rijvs, Uyvjn!" and back. |
| Packing.ByteOf | src/main.rs:30 | `c as u8` keeps the low 8 bits of the code point. |
| Packing.CharBits | src/main.rs:29-32 | The `flat_map` closure gives exactly 8 bits per character, `(byte >> (7 - i)) & 1 == 1` for i in 0..8 (their meaning, most significant first, is proved in CharBitsValue). |
| Packing.Unpack | src/main.rs:28-33 | Text becomes eight bits per character, characters in order: the result has length 8 times the text's length (bit positions are proved in UnpackAt). |
| Packing.CharBitsValue | src/main.rs:29-32 | The 8 bits of one character are its byte's bits, most significant first. |
| Packing.UnpackAt | src/main.rs:28-33 | The bit string has 8 bits per character. Bit `8t + k` is bit `7 - k` of character t's byte. |
| Packing.UnpackSameBytes | src/main.rs:28-33 | Characters with the same low byte unpack the same. |
| Packing.PackChunk | src/main.rs:39-45 | The `byte \|= 1 << (7 - i)` loop over at most 8 bits yields the chunk's bits on top and zeros below. |
| Packing.Pack | src/main.rs:37-47 | One character per chunk of 8 bits, counting a short last chunk. |
| Packing.UnpackPack | src/main.rs:28-47 | Unpacking packed bits gives the bits back, followed by the zero padding of the last chunk. |
| Packing.UnpackPackBytes | src/main.rs:28-47 | When the number of bits is a multiple of 8, unpacking undoes packing exactly. |
| Packing.PackUnpack | src/main.rs:28-47 | Text whose characters are all below 256 survives unpacking and packing. |

## Left out

- The Viterbi decoder (`convolutional::viterbi`, called at src/main.rs:53): its source is not part of this model.
- Command-line parsing, file and terminal I/O, and the dispatch in src/main.rs and src/cli.rs: only the two bit-packing closures of src/main.rs are modelled.
- `key.parse::<i32>()` is a function parameter `parse`, because Rust's integer parser is outside the core.
- Crypto.CaesarShift: requires, when encrypting, a key whose truncated remainder modulo 26 is not negative (Crypto.CaesarKeyEncrypts). A negative key that is not a multiple of 26 wraps to 231-255 in the `as u8` cast. Then `c as u8 - base + shift` overflows `u8` for letters late enough in the alphabet, which panics in debug builds. Encryption under such a key is not modelled, including for the letters that would not overflow. A negative multiple of 26 gives shift 0 and is modelled.
- The documented case-insensitivity of the Caesar key (src/crypto/cipher.rs:69) depends only on how `key.parse::<i32>()` reads the key, which is the parameter `parse`, so it is not stated.
- Crypto.KeyLetters: requires an ASCII key. `to_lowercase` on non-ASCII text (multi-byte characters and special case mappings) is not modelled.
- Crypto.XorCipher: requires ASCII message and key. For other text, Rust XORs the UTF-8 bytes and turns each byte into a character, which changes the length. That case is not modelled.
- Convolutional.ConvolutionalEncoder.Encode: requires 1 <= K <= 32. Other values make `1 << (K - 1)` or `K - 1` overflow and panic, and that panic is not modelled.
- Convolutional.PolynomialTaps: the accumulator's `u32` overflow is never reached (Convolutional.TapMaskBound), so it is not modelled separately.
- Turbo.TurboEncoder.Interleave: `i * 7 + 5` is computed on unbounded integers. Rust's `usize` would wrap only for inputs longer than about 2^61 bits.
- Convolutional.EncoderVector: states the code's output, not the in-file test's expectation (see Findings).
- Panics in `encrypt` and `decrypt` on an unknown algorithm are `Failure` results. The wording of the message is kept, but there is no unwinding.

## Findings

| source | as written | input that shows it | evidently intended | confidence | as-written member | corrected member |
|---|---|---|---|---|---|---|
| src/convolutional/encoder.rs:96-104 | the test expects pairs 3 and 4 to be `false, true` and `true, true` | K = 3, polynomials 7 and 5, input 1 0 1 1 0: the code emits `true, true` then `false, true` | the test vector should match the encoder's own output, 11 10 11 01 10 | high (proved, not executed) | Convolutional.TestExpectationDiffers | Convolutional.KnownEncoding |
| src/crypto/cipher.rs:29-31 | the doc comments of `encrypt` (and of `decrypt`, lines 47-49) say the key is case-insensitive and non-alphabetic characters are not encrypted, but "xor" combines every byte with the key bytes as given | "xor" with key "K" and with key "k" on "a"; "xor" with key "k" on "," | the two promises are meant for the letter ciphers: non-letters pass through "caesar" and "vigenere", and the Vigenère key is case-insensitive (Crypto.VigenereKeyCaseInsensitive) | high (proved, not executed) | Crypto.XorDocCounterexample | Crypto.NonLettersPassThrough |
