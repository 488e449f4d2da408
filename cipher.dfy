/**
 * The classical ciphers of `src/crypto/cipher.rs`: a cipher is an algorithm
 * name and a key; Caesar and Vigenère shift ASCII letters and pass every
 * other character through, XOR combines each byte with the repeating key.
 */
module Crypto {
  import opened Bits

  datatype Option<T> = None | Some(value: T)

  datatype Result<T> = Ok(value: T) | Failure(error: string)

  // ---------------------------------------------------------------------
  // ASCII characters

  predicate IsUpper(c: char) { 'A' <= c <= 'Z' }

  predicate IsLower(c: char) { 'a' <= c <= 'z' }

  /** `is_ascii_alphabetic` */
  predicate IsLetter(c: char) { IsUpper(c) || IsLower(c) }

  predicate IsAsciiChar(c: char) { c < 128 as char }

  predicate IsAscii(s: string) { forall i :: 0 <= i < |s| ==> IsAsciiChar(s[i]) }

  /** `b'a'` for a lower-case letter, `b'A'` for an upper-case one. */
  function Base(c: char): char
  {
    if IsLower(c) then 'a' else 'A'
  }

  /**
   * `((c as u8 - base + k) % 26) + base`: the letter `k` places further
   * round its own alphabet. The sum stays below 256 (no `u8` overflow)
   * exactly when `k <= 230`.
   */
  function ShiftLetter(c: char, k: nat): (r: char)
    requires IsLetter(c) && k <= 230
    ensures IsLetter(r) && IsLower(r) == IsLower(c)
    ensures (r as int - Base(c) as int) == (c as int - Base(c) as int + k) % 26
  {
    (((c as int - Base(c) as int + k) % 26) + Base(c) as int) as char
  }

  /** Shifting by `k` and then by `26 - k` gives back the letter. */
  lemma ShiftLetterInverse(c: char, k: nat)
    requires IsLetter(c) && k <= 26
    ensures ShiftLetter(ShiftLetter(c, k), 26 - k) == c
  {
    var x := c as int - Base(c) as int;
    var y := ShiftLetter(c, k) as int - Base(c) as int;
    assert Base(ShiftLetter(c, k)) == Base(c);
    assert y == (x + k) % 26;
    assert (y + (26 - k)) % 26 == x by {
      if x + k < 26 {
        assert y == x + k;
      } else {
        assert y == x + k - 26;
      }
    }
  }

  // ---------------------------------------------------------------------
  // Caesar

  /** Rust's `%` on `i32`: the remainder takes the sign of the dividend. */
  function TruncRem(n: int, d: nat): (r: int)
    requires d > 0
    ensures -(d as int) < r < d
    ensures n >= 0 ==> r == n % d
    ensures n < 0 ==> r <= 0
  {
    if n >= 0 then n % d else -((-n) % d)
  }

  /**
   * A key Caesar can encrypt with: its remainder modulo 26 is not
   * negative. A negative remainder would wrap in the `as u8` cast and
   * overflow the `u8` addition; a negative multiple of 26 leaves 0.
   */
  predicate CaesarKeyEncrypts(parsed: Option<int>)
  {
    parsed.None? || TruncRem(parsed.value, 26) >= 0
  }

  /**
   * The shift Caesar uses: the parsed key (3 when the key is not a
   * number) modulo 26, and `26 - shift` for decryption.
   */
  function CaesarShift(parsed: Option<int>, encrypt: bool): (shift: nat)
    requires encrypt ==> CaesarKeyEncrypts(parsed)
    ensures shift <= 51
    ensures encrypt ==> shift < 26
  {
    var s := TruncRem(if parsed.Some? then parsed.value else 3, 26);
    if encrypt then s else 26 - s
  }

  /** Every ASCII letter shifted by `shift` in its own case; everything else kept. */
  function Caesar(message: string, shift: nat): (out: string)
    requires shift <= 230
    ensures |out| == |message|
    ensures forall i :: 0 <= i < |message| ==>
              IsLetter(out[i]) == IsLetter(message[i]) && IsLower(out[i]) == IsLower(message[i])
    ensures forall i :: 0 <= i < |message| && !IsLetter(message[i]) ==> out[i] == message[i]
  {
    seq(|message|, i requires 0 <= i < |message| =>
      if IsLetter(message[i]) then ShiftLetter(message[i], shift) else message[i])
  }

  /** Decrypting with the same key undoes encrypting, for a key that may encrypt. */
  lemma CaesarRoundTrip(message: string, parsed: Option<int>)
    requires CaesarKeyEncrypts(parsed)
    ensures Caesar(Caesar(message, CaesarShift(parsed, true)), CaesarShift(parsed, false)) == message
  {
    var k := CaesarShift(parsed, true);
    assert CaesarShift(parsed, false) == 26 - k;
    var out := Caesar(Caesar(message, k), 26 - k);
    forall i | 0 <= i < |message|
      ensures out[i] == message[i]
    {
      if IsLetter(message[i]) {
        ShiftLetterInverse(message[i], k);
      }
    }
  }

  // ---------------------------------------------------------------------
  // Vigenère

  /** `to_lowercase` on an ASCII character. */
  function Lower(c: char): (r: char)
    requires IsAsciiChar(c)
    ensures IsLetter(r) == IsLetter(c)
    ensures IsLetter(c) ==> IsLower(r) && r as int - 'a' as int == c as int - Base(c) as int
    ensures !IsLetter(c) ==> r == c
  {
    if IsUpper(c) then (c as int + 32) as char else c
  }

  /** How many of the first `k` characters of `s` are ASCII letters. */
  function LettersBefore(s: string, k: nat): (n: nat)
    requires k <= |s|
    ensures n <= k
  {
    if k == 0 then 0 else LettersBefore(s, k - 1) + (if IsLetter(s[k - 1]) then 1 else 0)
  }

  /** Two strings with letters in the same places among their first `k` characters count as many there. */
  lemma {:induction false} LettersBeforeAgree(a: string, b: string, k: nat)
    requires k <= |a| && k <= |b|
    requires forall j :: 0 <= j < k ==> IsLetter(a[j]) == IsLetter(b[j])
    ensures LettersBefore(a, k) == LettersBefore(b, k)
  {
    if k > 0 {
      LettersBeforeAgree(a, b, k - 1);
    }
  }

  /** The key letters are all lower case, as `KeyLetters` leaves them. */
  predicate LowerLetters(keyLetters: string)
  {
    forall i :: 0 <= i < |keyLetters| ==> IsLower(keyLetters[i])
  }

  /**
   * The key lower-cased and stripped of everything that is not a letter,
   * in key order: one lower-case letter for each letter of the key.
   */
  function KeyLetters(key: string): (letters: string)
    requires IsAscii(key)
    ensures LowerLetters(letters)
    ensures |letters| == LettersBefore(key, |key|)
  {
    if key == [] then []
    else
      var init := key[..|key| - 1];
      var c := Lower(key[|key| - 1]);
      LettersBeforeAgree(init, key, |key| - 1);
      KeyLetters(init) + (if IsLetter(c) then [c] else [])
  }

  /** A key made only of lower-case letters is its own key letters. */
  lemma {:induction false} KeyLettersOfLower(key: string)
    requires IsAscii(key) && LowerLetters(key)
    ensures KeyLetters(key) == key
    decreases |key|
  {
    if key != [] {
      var init := key[..|key| - 1];
      assert IsAscii(init) && LowerLetters(init);
      KeyLettersOfLower(init);
      assert key == init + [key[|key| - 1]];
    }
  }

  /**
   * The key is case-insensitive: keys whose characters agree once
   * lower-cased give the same key letters.
   */
  lemma {:induction false} KeyLettersCaseInsensitive(a: string, b: string)
    requires IsAscii(a) && IsAscii(b) && |a| == |b|
    requires forall i :: 0 <= i < |a| ==> Lower(a[i]) == Lower(b[i])
    ensures KeyLetters(a) == KeyLetters(b)
    decreases |a|
  {
    if a != [] {
      var a', b' := a[..|a| - 1], b[..|b| - 1];
      assert IsAscii(a') && IsAscii(b');
      assert forall i :: 0 <= i < |a'| ==> Lower(a'[i]) == Lower(b'[i]) by {
        forall i | 0 <= i < |a'| ensures Lower(a'[i]) == Lower(b'[i]) {
          assert a'[i] == a[i] && b'[i] == b[i];
        }
      }
      KeyLettersCaseInsensitive(a', b');
    }
  }

  /** One letter under key letter `k`: shifted by `k - 'a'`, or by `26 - (k - 'a')` to decrypt. */
  function VigenereLetter(c: char, k: char, encrypt: bool): (r: char)
    requires IsLetter(c) && IsLower(k)
    ensures IsLetter(r) && IsLower(r) == IsLower(c)
  {
    var shift := k as int - 'a' as int;
    if encrypt then ShiftLetter(c, shift) else ShiftLetter(c, 26 - shift)
  }

  /** `key_bytes[key_idx % key_bytes.len()]`: the key letter for key index `keyIdx`. */
  function KeyLetter(keyLetters: string, keyIdx: nat): (k: char)
    requires keyLetters != [] && LowerLetters(keyLetters)
    ensures IsLower(k)
  {
    keyLetters[keyIdx % |keyLetters|]
  }

  /** What the loop pushes for `c` at key index `keyIdx`: a letter is shifted, anything else copied. */
  function VigenereChar(c: char, keyLetters: string, keyIdx: nat, encrypt: bool): (r: char)
    requires keyLetters != [] && LowerLetters(keyLetters)
    ensures IsLetter(r) == IsLetter(c) && IsLower(r) == IsLower(c)
  {
    if IsLetter(c) then VigenereLetter(c, KeyLetter(keyLetters, keyIdx), encrypt) else c
  }

  /**
   * The first `k` characters the loop of `vigenere_cipher` pushes: the key
   * index at character `j` is the number of letters before it.
   */
  function VigenereUpTo(message: string, keyLetters: string, k: nat, encrypt: bool): (out: string)
    requires k <= |message| && keyLetters != [] && LowerLetters(keyLetters)
    ensures |out| == k
  {
    if k == 0 then []
    else VigenereUpTo(message, keyLetters, k - 1, encrypt)
         + [VigenereChar(message[k - 1], keyLetters, LettersBefore(message, k - 1), encrypt)]
  }

  /**
   * The Vigenère cipher under the key letters: with no key letters the
   * message is returned as it is.
   */
  function Vigenere(message: string, keyLetters: string, encrypt: bool): (out: string)
    requires LowerLetters(keyLetters)
    ensures |out| == |message|
    ensures keyLetters == [] ==> out == message
  {
    if keyLetters == [] then message else VigenereUpTo(message, keyLetters, |message|, encrypt)
  }

  /** Character `i` is pushed at step `i`; later steps only append. */
  lemma {:induction false} VigenereUpToAt(message: string, keyLetters: string, k: nat, encrypt: bool, i: nat)
    requires k <= |message| && keyLetters != [] && LowerLetters(keyLetters) && i < k
    ensures VigenereUpTo(message, keyLetters, k, encrypt)[i]
         == VigenereChar(message[i], keyLetters, LettersBefore(message, i), encrypt)
    decreases k
  {
    if i < k - 1 {
      VigenereUpToAt(message, keyLetters, k - 1, encrypt, i);
    }
  }

  /**
   * Character `i` of `Vigenere`: with a non-empty key, the j-th letter of the
   * message (counting from 0) is shifted by key letter `j mod |key|`; every
   * other character is copied.
   */
  lemma VigenereAt(message: string, keyLetters: string, encrypt: bool, i: nat)
    requires LowerLetters(keyLetters) && keyLetters != [] && i < |message|
    ensures |Vigenere(message, keyLetters, encrypt)| == |message|
    ensures Vigenere(message, keyLetters, encrypt)[i]
         == if IsLetter(message[i])
            then VigenereLetter(message[i], KeyLetter(keyLetters, LettersBefore(message, i)), encrypt)
            else message[i]
  {
    VigenereUpToAt(message, keyLetters, |message|, encrypt, i);
  }

  /**
   * Vigenère keeps the length, keeps each character a letter or not and in
   * its case, and passes every non-letter through unchanged.
   */
  lemma VigenerePreserves(message: string, keyLetters: string, encrypt: bool)
    requires LowerLetters(keyLetters)
    ensures |Vigenere(message, keyLetters, encrypt)| == |message|
    ensures forall i :: 0 <= i < |message| ==>
              IsLetter(Vigenere(message, keyLetters, encrypt)[i]) == IsLetter(message[i]) &&
              IsLower(Vigenere(message, keyLetters, encrypt)[i]) == IsLower(message[i])
    ensures forall i :: 0 <= i < |message| && !IsLetter(message[i]) ==> Vigenere(message, keyLetters, encrypt)[i] == message[i]
  {
    if keyLetters != [] {
      forall i | 0 <= i < |message|
        ensures IsLetter(Vigenere(message, keyLetters, encrypt)[i]) == IsLetter(message[i])
        ensures IsLower(Vigenere(message, keyLetters, encrypt)[i]) == IsLower(message[i])
        ensures !IsLetter(message[i]) ==> Vigenere(message, keyLetters, encrypt)[i] == message[i]
      {
        VigenereAt(message, keyLetters, encrypt, i);
      }
    }
  }

  /** Decrypting a letter under the key letter it was encrypted with gives it back. */
  lemma VigenereLetterInverse(c: char, k: char)
    requires IsLetter(c) && IsLower(k)
    ensures VigenereLetter(VigenereLetter(c, k, true), k, false) == c
  {
    ShiftLetterInverse(c, k as int - 'a' as int);
  }

  /** Decrypting with the same key letters undoes encrypting. */
  lemma VigenereRoundTrip(message: string, keyLetters: string)
    requires LowerLetters(keyLetters)
    ensures Vigenere(Vigenere(message, keyLetters, true), keyLetters, false) == message
  {
    if keyLetters != [] {
      var encrypted := Vigenere(message, keyLetters, true);
      VigenerePreserves(message, keyLetters, true);
      var out := Vigenere(encrypted, keyLetters, false);
      forall i | 0 <= i < |message|
        ensures out[i] == message[i]
      {
        VigenereAt(message, keyLetters, true, i);
        VigenereAt(encrypted, keyLetters, false, i);
        if IsLetter(message[i]) {
          LettersBeforeAgree(message, encrypted, i);
          VigenereLetterInverse(message[i], KeyLetter(keyLetters, LettersBefore(message, i)));
        }
      }
    }
  }

  /**
   * `vigenere_cipher`: walks the message keeping a key index that moves on
   * only after a letter.
   */
  method VigenereCipher(message: string, key: string, encrypt: bool) returns (result: string)
    requires IsAscii(key)
    ensures result == Vigenere(message, KeyLetters(key), encrypt)
  {
    var keyBytes := KeyLetters(key);
    if keyBytes == [] {
      return message;
    }
    result := [];
    var keyIdx := 0;
    for i := 0 to |message|
      invariant keyIdx == LettersBefore(message, i)
      invariant result == VigenereUpTo(message, keyBytes, i, encrypt)
    {
      var c := message[i];
      if IsLetter(c) {
        var offset := VigenereLetter(c, keyBytes[keyIdx % |keyBytes|], encrypt);
        result := result + [offset];
        keyIdx := keyIdx + 1;
      } else {
        result := result + [c];
      }
    }
  }

  // ---------------------------------------------------------------------
  // XOR

  lemma AsciiXor(a: nat, b: nat)
    requires a < 128 && b < 128
    ensures Xor(a, b) < 128
  {
    assert Pow2(7) == 128;
    XorBound(a, b, 7);
  }

  /** `b ^ k` on ASCII bytes, as a character. */
  function XorChar(c: char, k: char): (r: char)
    requires IsAsciiChar(c) && IsAsciiChar(k)
    ensures IsAsciiChar(r)
  {
    AsciiXor(c as nat, k as nat);
    Xor(c as nat, k as nat) as char
  }

  lemma XorCharInvolution(c: char, k: char)
    requires IsAsciiChar(c) && IsAsciiChar(k)
    ensures XorChar(XorChar(c, k), k) == c
  {
    var x := XorChar(c, k);
    AsciiXor(c as nat, k as nat);
    assert x as nat == Xor(c as nat, k as nat);
    XorInvolution(c as nat, k as nat);
    AsciiXor(x as nat, k as nat);
    assert XorChar(x, k) as nat == Xor(x as nat, k as nat);
  }

  /**
   * Repeating-key XOR: byte `i` is combined with key byte `i mod |key|`;
   * an empty key leaves the message as it is.
   */
  function XorCipher(message: string, key: string): (out: string)
    requires IsAscii(message) && IsAscii(key)
    ensures |out| == |message| && IsAscii(out)
    ensures key == [] ==> out == message
  {
    if key == [] then message
    else seq(|message|, i requires 0 <= i < |message| => XorChar(message[i], key[i % |key|]))
  }

  /** XOR with the same key twice is the identity. */
  lemma XorRoundTrip(message: string, key: string)
    requires IsAscii(message) && IsAscii(key)
    ensures XorCipher(XorCipher(message, key), key) == message
  {
    if key != [] {
      var out := XorCipher(XorCipher(message, key), key);
      forall i | 0 <= i < |message|
        ensures out[i] == message[i]
      {
        XorCharInvolution(message[i], key[i % |key|]);
      }
    }
  }

  /** Xor-ing a character with two key bytes gives the same result only when the key bytes are equal. */
  lemma XorKeyMatters(c: char, k1: char, k2: char)
    requires IsAsciiChar(c) && IsAsciiChar(k1) && IsAsciiChar(k2)
    ensures XorChar(c, k1) == XorChar(c, k2) <==> k1 == k2
  {
    AsciiXor(c as nat, k1 as nat);
    AsciiXor(c as nat, k2 as nat);
    XorCancel(c as nat, k1 as nat);
    XorCancel(c as nat, k2 as nat);
    assert XorChar(c, k1) as nat == Xor(c as nat, k1 as nat);
    assert XorChar(c, k2) as nat == Xor(c as nat, k2 as nat);
  }

  /** A character, letter or not, comes through XOR unchanged only under the NUL key byte. */
  lemma XorKeepsOnlyUnderNul(c: char, k: char)
    requires IsAsciiChar(c) && IsAsciiChar(k)
    ensures XorChar(c, k) == c <==> k == 0 as char
  {
    AsciiXor(c as nat, k as nat);
    XorCancel(c as nat, k as nat);
    XorSelf(c as nat);
    XorZero(c as nat);
    assert XorChar(c, k) as nat == Xor(c as nat, k as nat);
  }

  // ---------------------------------------------------------------------
  // The cipher

  /**
   * A cipher: an algorithm name and a key. `parse` stands for the key's
   * reading as an `i32` (`key.parse::<i32>()`), `None` when it is not one.
   */
  datatype Cipher = Cipher(algorithm: string, key: string)
  {
    /** What each algorithm needs of the key and the message to run. */
    predicate CanRun(parse: string -> Option<int>, message: string, encrypt: bool)
    {
      (algorithm == "caesar" && encrypt ==> CaesarKeyEncrypts(parse(key))) &&
      (algorithm == "vigenere" ==> IsAscii(key)) &&
      (algorithm == "xor" ==> IsAscii(message) && IsAscii(key))
    }

    /** The result of `encrypt` (`encrypt = true`) or `decrypt`. */
    function Apply(parse: string -> Option<int>, message: string, encrypt: bool): (r: Result<string>)
      requires CanRun(parse, message, encrypt)
      ensures r.Ok? <==> algorithm in {"caesar", "vigenere", "xor"}
      ensures r.Ok? ==> |r.value| == |message|
    {
      if algorithm == "caesar" then Ok(Caesar(message, CaesarShift(parse(key), encrypt)))
      else if algorithm == "vigenere" then Ok(Vigenere(message, KeyLetters(key), encrypt))
      else if algorithm == "xor" then Ok(XorCipher(message, key))
      else Failure("Unsupported algorithm: " + algorithm)
    }

    method Encrypt(parse: string -> Option<int>, message: string) returns (r: Result<string>)
      requires CanRun(parse, message, true)
      ensures r == Apply(parse, message, true)
    {
      if algorithm == "caesar" {
        r := Ok(Caesar(message, CaesarShift(parse(key), true)));
      } else if algorithm == "vigenere" {
        var s := VigenereCipher(message, key, true);
        r := Ok(s);
      } else if algorithm == "xor" {
        r := Ok(XorCipher(message, key));
      } else {
        r := Failure("Unsupported algorithm: " + algorithm);
      }
    }

    method Decrypt(parse: string -> Option<int>, message: string) returns (r: Result<string>)
      requires CanRun(parse, message, false)
      ensures r == Apply(parse, message, false)
    {
      if algorithm == "caesar" {
        r := Ok(Caesar(message, CaesarShift(parse(key), false)));
      } else if algorithm == "vigenere" {
        var s := VigenereCipher(message, key, false);
        r := Ok(s);
      } else if algorithm == "xor" {
        r := Ok(XorCipher(message, key));
      } else {
        r := Failure("Unsupported algorithm: " + algorithm);
      }
    }
  }

  /**
   * Whatever a supported cipher encrypts, the same cipher decrypts back to
   * the message.
   */
  lemma RoundTrip(cipher: Cipher, parse: string -> Option<int>, message: string)
    requires cipher.CanRun(parse, message, true)
    requires cipher.algorithm in {"caesar", "vigenere", "xor"}
    ensures cipher.CanRun(parse, cipher.Apply(parse, message, true).value, false)
    ensures cipher.Apply(parse, cipher.Apply(parse, message, true).value, false) == Ok(message)
  {
    var encrypted := cipher.Apply(parse, message, true).value;
    if cipher.algorithm == "caesar" {
      CaesarRoundTrip(message, parse(cipher.key));
    } else if cipher.algorithm == "vigenere" {
      VigenereRoundTrip(message, KeyLetters(cipher.key));
    } else {
      XorRoundTrip(message, cipher.key);
    }
  }

  /**
   * What `encrypt` and `decrypt` promise of the letter ciphers: characters
   * that are not letters come out unchanged under "caesar" and
   * "vigenere".
   */
  lemma NonLettersPassThrough(cipher: Cipher, parse: string -> Option<int>, message: string, encrypt: bool)
    requires cipher.algorithm in {"caesar", "vigenere"} && cipher.CanRun(parse, message, encrypt)
    ensures forall i :: 0 <= i < |message| && !IsLetter(message[i]) ==>
              cipher.Apply(parse, message, encrypt).value[i] == message[i]
  {
    if cipher.algorithm == "vigenere" {
      VigenerePreserves(message, KeyLetters(cipher.key), encrypt);
    }
  }

  /**
   * What `encrypt` and `decrypt` promise of the Vigenère key: two keys that
   * agree once lower-cased encrypt and decrypt alike.
   */
  lemma VigenereKeyCaseInsensitive(parse: string -> Option<int>, message: string, encrypt: bool, key1: string, key2: string)
    requires IsAscii(key1) && IsAscii(key2) && |key1| == |key2|
    requires forall i :: 0 <= i < |key1| ==> Lower(key1[i]) == Lower(key2[i])
    ensures Cipher("vigenere", key1).Apply(parse, message, encrypt) == Cipher("vigenere", key2).Apply(parse, message, encrypt)
  {
    KeyLettersCaseInsensitive(key1, key2);
  }

  /**
   * The same two promises fail under "xor": the key "K" and the key "k"
   * encrypt "a" differently, and the key "k" changes the comma of ",".
   */
  lemma XorDocCounterexample(parse: string -> Option<int>, upper: Cipher, lower: Cipher, letter: string, comma: string)
    requires upper == Cipher("xor", "K") && lower == Cipher("xor", "k")
    requires letter == "a" && comma == ","
    ensures upper.Apply(parse, letter, true) != lower.Apply(parse, letter, true)
    ensures lower.Apply(parse, comma, true) != Ok(comma)
  {
    XorKeyMatters('a', 'K', 'k');
    assert upper.Apply(parse, letter, true).value[0] == XorChar('a', 'K');
    assert lower.Apply(parse, letter, true).value[0] == XorChar('a', 'k');
    XorKeepsOnlyUnderNul(',', 'k');
    assert lower.Apply(parse, comma, true).value[0] == XorChar(',', 'k');
  }

  /** The Caesar test of cipher.rs: key "3" turns "Hello, World!" into "Khoor, Zruog!" and back. */
  lemma CaesarVector(parse: string -> Option<int>, cipher: Cipher)
    requires cipher == Cipher("caesar", "3") && parse("3") == Some(3)
    ensures cipher.Apply(parse, "Hello, World!", true) == Ok("Khoor, Zruog!")
    ensures cipher.Apply(parse, "Khoor, Zruog!", false) == Ok("Hello, World!")
  {
    assert TruncRem(3, 26) == 3;
    assert CaesarShift(Some(3), true) == 3;
    assert CaesarShift(Some(3), false) == 23;
    assert Caesar("Hello, World!", 3) == "Khoor, Zruog!";
    assert Caesar("Khoor, Zruog!", 23) == "Hello, World!";
  }

  /**
   * The Vigenère test of cipher.rs: key "key" turns "Hello, World!" into
   * "Rijvs, Uyvjn!", and decrypting that gives the message back.
   */
  lemma VigenereVector(parse: string -> Option<int>, cipher: Cipher, plain: string, coded: string)
    requires cipher == Cipher("vigenere", "key")
    requires plain == "Hello, World!" && coded == "Rijvs, Uyvjn!"
    ensures cipher.Apply(parse, plain, true) == Ok(coded)
    ensures cipher.Apply(parse, coded, false) == Ok(plain)
  {
    var key := KeyLetters(cipher.key);
    KeyLettersOfLower(cipher.key);
    HelloWorldEncrypts(plain, coded, key);
    RoundTrip(cipher, parse, plain);
  }

  /** Letter by letter: the key index at each character of "Hello, World!" and what it enciphers to. */
  lemma HelloWorldEncrypts(plain: string, coded: string, key: string)
    requires plain == "Hello, World!" && coded == "Rijvs, Uyvjn!" && key == "key"
    ensures Vigenere(plain, key, true) == coded
  {
    var out := Vigenere(plain, key, true);
    assert LettersBefore(plain, 1) == 1;
    assert LettersBefore(plain, 2) == 2;
    assert LettersBefore(plain, 3) == 3;
    assert LettersBefore(plain, 4) == 4;
    assert LettersBefore(plain, 5) == 5;
    assert LettersBefore(plain, 6) == 5;
    assert LettersBefore(plain, 7) == 5;
    assert LettersBefore(plain, 8) == 6;
    assert LettersBefore(plain, 9) == 7;
    assert LettersBefore(plain, 10) == 8;
    assert LettersBefore(plain, 11) == 9;
    assert LettersBefore(plain, 12) == 10;
    forall i | 0 <= i < |plain|
      ensures out[i] == coded[i]
    {
      VigenereAt(plain, key, true, i);
    }
  }
}
