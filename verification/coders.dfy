/**
 The two letter coders. `Cesar` adds one key value to the character code and
 wraps the sum into the 7-bit ASCII range; `Xor` XORs the code with one key
 value. Each coder pulls exactly one value from its key per character.
 */
module Coders {
  import opened Base
  import opened Keys

  const MinAsciiValue: int := 0
  const MaxAsciiValue: int := 127
  const AsciiTableSize: int := MaxAsciiValue + 1

  function Abs(x: int): nat {
    if x < 0 then -x else x
  }

  /** `x / abs(x)`; the source computes it in floating point, which is exact
      (+1.0 or -1.0) for every non-zero integer. */
  function Sign(x: int): int
    requires x != 0
  {
    if x < 0 then -1 else 1
  }

  /** `_normalize_key_if_printables_range_exceeded` of the current coder:
      reduce the magnitude modulo the table size keeping the sign, then lift a
      negative value by one table size. */
  function Normalize(newCode: int): (r: int)
    ensures MinAsciiValue <= r <= MaxAsciiValue
  {
    var normalized :=
      if Abs(newCode) > MaxAsciiValue then (Abs(newCode) % AsciiTableSize) * Sign(newCode)
      else newCode;
    if normalized < MinAsciiValue then normalized + AsciiTableSize else normalized
  }

  /** The same step in the historical coder: the negative case is written
      `MAX_ASCII_VALUE + 1 + normalized_key`. */
  function NormalizeHistorical(newCode: int): (r: int)
    ensures 0 <= r <= MaxAsciiValue
  {
    var normalized :=
      if Abs(newCode) > MaxAsciiValue then (Abs(newCode) % (MaxAsciiValue + 1)) * Sign(newCode)
      else newCode;
    if normalized < 0 then MaxAsciiValue + 1 + normalized else normalized
  }

  /** The sign-preserving wrap is exactly the Euclidean remainder modulo 128. */
  lemma NormalizeIsMod(n: int)
    ensures Normalize(n) == n % AsciiTableSize
  {
    var m := Abs(n) % AsciiTableSize;
    var q := Abs(n) / AsciiTableSize;
    assert Abs(n) == AsciiTableSize * q + m;
    if n >= 0 {
      if n <= MaxAsciiValue {
        DivModUnique(n, AsciiTableSize, 0, n);
      }
    } else if n >= -MaxAsciiValue {
      DivModUnique(n, AsciiTableSize, -1, n + AsciiTableSize);
    } else if m == 0 {
      DivModUnique(n, AsciiTableSize, -q, 0);
    } else {
      DivModUnique(n, AsciiTableSize, -q - 1, AsciiTableSize - m);
    }
  }

  /** Both generations of the wrap agree on every integer. */
  lemma HistoricalNormalizeAgrees(n: int)
    ensures NormalizeHistorical(n) == Normalize(n)
    ensures NormalizeHistorical(n) == n % AsciiTableSize
  {
    NormalizeIsMod(n);
  }

  /** `Cesar._get_new_ascii_code` for a code and the key value pulled for it. */
  function CesarCode(code: Code, keyValue: int): (r: Code)
    ensures r <= MaxAsciiValue
  {
    Normalize(code + keyValue)
  }

  /** Cesar with key k followed by Cesar with key -k restores every 7-bit
      code. */
  lemma CesarRoundTrip(code: Code, k: int)
    requires code <= MaxAsciiValue
    ensures CesarCode(CesarCode(code, k), -k) == code
  {
    var s := code + k;
    NormalizeIsMod(s);
    var m := s % AsciiTableSize;
    assert s == AsciiTableSize * (s / AsciiTableSize) + m;
    NormalizeIsMod(m - k);
    DivModUnique(m - k, AsciiTableSize, -(s / AsciiTableSize), code);
  }

  /** A key of any magnitude acts like the key reduced modulo 128 with its
      sign kept. */
  lemma CesarKeyReduction(code: Code, k: int)
    requires k != 0
    ensures CesarCode(code, k) == CesarCode(code, (Abs(k) % AsciiTableSize) * Sign(k))
  {
    var k' := (Abs(k) % AsciiTableSize) * Sign(k);
    var q := Abs(k) / AsciiTableSize;
    assert Abs(k) == AsciiTableSize * q + Abs(k) % AsciiTableSize;
    NormalizeIsMod(code + k);
    NormalizeIsMod(code + k');
    if k > 0 {
      ModCongruent(code + k, code + k', AsciiTableSize, q);
    } else {
      ModCongruent(code + k, code + k', AsciiTableSize, -q);
    }
  }

  /** Python's `^` on non-negative integers, bit by bit from the lowest. */
  function XorBits(a: nat, b: nat): (r: nat)
    ensures r <= a + b
    ensures a == b ==> r == 0
    decreases a + b
  {
    if a == 0 && b == 0 then 0
    else
      assert a / 2 + b / 2 <= (a + b) / 2;
      2 * XorBits(a / 2, b / 2) + (if a % 2 == b % 2 then 0 else 1)
  }

  lemma XorBitsSplit(a: nat, b: nat)
    ensures XorBits(a, b) / 2 == XorBits(a / 2, b / 2)
    ensures XorBits(a, b) % 2 == (if a % 2 == b % 2 then 0 else 1)
  {
  }

  /** XOR with the same value twice is the identity. */
  lemma {:induction false} XorBitsSelfInverse(a: nat, b: nat)
    ensures XorBits(XorBits(a, b), b) == a
    decreases a + b
  {
    var r := XorBits(a, b);
    if a == 0 && b == 0 {
    } else {
      XorBitsSplit(a, b);
      XorBitsSelfInverse(a / 2, b / 2);
      XorBitsSplit(r, b);
      assert r == 2 * (r / 2) + r % 2;
    }
  }

  /** XOR with zero is the identity. */
  lemma {:induction false} XorBitsZero(a: nat)
    ensures XorBits(a, 0) == a
    decreases a
  {
    if a != 0 {
      XorBitsZero(a / 2);
    }
  }

  function Pow2(k: nat): nat {
    if k == 0 then 1 else 2 * Pow2(k - 1)
  }

  /** XOR of two k-bit values is a k-bit value. */
  lemma {:induction false} XorBitsBelow(a: nat, b: nat, k: nat)
    requires a < Pow2(k) && b < Pow2(k)
    ensures XorBits(a, b) < Pow2(k)
    decreases k
  {
    if a == 0 && b == 0 {
    } else {
      assert k > 0;
      XorBitsBelow(a / 2, b / 2, k - 1);
    }
  }

  /** `Xor._change_char_by_xor_key`: `chr(ord(c) ^ key)`. A negative key makes
      the XOR negative, and a result above 0x10FFFF is refused by `chr`. */
  function XorCode(code: Code, keyValue: int): (r: Result<Code>)
    ensures keyValue < 0 ==> r == Err(ChrOutOfRange)
    ensures r.Ok? <==> keyValue >= 0 && XorBits(code, keyValue) <= MaxCodePoint
    ensures r.Ok? ==> r.value == XorBits(code, keyValue)
    ensures r.Err? ==> r.error == ChrOutOfRange
  {
    if keyValue < 0 then Err(ChrOutOfRange)
    else
      var x := XorBits(code, keyValue);
      if x <= MaxCodePoint then Ok(x) else Err(ChrOutOfRange)
  }

  /** Xor with a fixed key value undoes itself: whatever it produces, applying
      it again gives the original code back. */
  lemma XorCodeSelfInverse(code: Code, keyValue: int)
    requires XorCode(code, keyValue).Ok?
    ensures XorCode(XorCode(code, keyValue).value, keyValue) == Ok(code)
  {
    XorBitsSelfInverse(code, keyValue);
  }

  /** Codes and keys below 2^16 never make `chr` fail, and 7-bit codes with
      7-bit keys stay 7-bit. */
  lemma XorCodeInRange(code: Code, keyValue: int, k: nat)
    requires k <= 16 && 0 <= keyValue < Pow2(k) && code < Pow2(k)
    ensures XorCode(code, keyValue).Ok? && XorCode(code, keyValue).value < Pow2(k)
  {
    Pow2Sixteen();
    XorBitsBelow(code, keyValue, k);
    Pow2Mono(k, 16);
    assert XorBits(code, keyValue) <= MaxCodePoint;
  }

  lemma Pow2Sixteen()
    ensures Pow2(16) == 0x10000
  {
    assert Pow2(4) == 16;
    assert Pow2(8) == 256;
    assert Pow2(12) == 4096;
  }

  lemma {:induction false} Pow2Mono(j: nat, k: nat)
    requires j <= k
    ensures Pow2(j) <= Pow2(k)
    decreases k
  {
    if j < k {
      Pow2Mono(j, k - 1);
    }
  }

  /** The two coders. */
  datatype Cipher = Cesar | Xor

  /** A coder object: the cipher and the key object it owns. */
  datatype Coder = Coder(cipher: Cipher, key: KeyStream)

  function ApplyCipher(cipher: Cipher, code: Code, keyValue: int): Result<Code> {
    match cipher
    case Cesar => Ok(CesarCode(code, keyValue))
    case Xor => XorCode(code, keyValue)
  }

  /** Reference meaning of a coder: what it makes of `code` when that code is
      the (i+1)-th character it encodes from now on. */
  function Expected(coder: Coder, code: Code, i: nat): Result<Code>
    requires coder.key.Valid()
  {
    match KeyAt(coder.key, i)
    case None => Err(KeyExhausted)
    case Some(v) => ApplyCipher(coder.cipher, code, v)
  }

  /** `encode_char`: pulls exactly one key value, and the result is the
      reference result for the first position. */
  function EncodeChar(coder: Coder, code: Code): (r: Result<(Code, Coder)>)
    requires coder.key.Valid()
    ensures r.Ok? ==> Expected(coder, code, 0) == Ok(r.value.0)
    ensures r.Err? ==> Expected(coder, code, 0) == Err(r.error)
    ensures r.Ok? ==> Get(coder.key).Ok? && r.value.1 == Coder(coder.cipher, Get(coder.key).value.1)
  {
    match Get(coder.key)
    case Err(e) => Err(e)
    case Ok((v, key')) =>
      match ApplyCipher(coder.cipher, code, v)
      case Err(e) => Err(e)
      case Ok(c) => Ok((c, Coder(coder.cipher, key')))
  }

  /** After one successful `get()`, the reference at position i is what it
      was at position i + 1 before. */
  lemma ExpectedAfterGet(coder: Coder, code: Code, i: nat)
    requires coder.key.Valid() && Get(coder.key).Ok?
    ensures Get(coder.key).value.1.Valid()
    ensures Expected(Coder(coder.cipher, Get(coder.key).value.1), code, i) == Expected(coder, code, i + 1)
  {
    GetAdvances(coder.key, i);
  }
}
