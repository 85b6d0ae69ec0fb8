/**
 Shared vocabulary of the transcoder model: character codes, the failures
 the Python code raises while encoding, and the Option/Result wrappers that
 carry them.
 */
module Base {

  /** Largest argument Python's `chr` accepts. */
  const MaxCodePoint: int := 0x10FFFF

  /** One character, as the integer `ord` returns for it. */
  type Code = c: int | 0 <= c <= MaxCodePoint

  /** Failures raised while encoding.
      - KeyExhausted: `get()` on an iterable key built from an empty sequence
        (the retried `__next__` raises StopIteration again).
      - ChrOutOfRange: `chr` was given a value outside 0..0x10FFFF.
      - MissingFinish: the AttributeError of `writer.finish()` on a writer
        that defines no `finish`. */
  datatype Failure = KeyExhausted | ChrOutOfRange | MissingFinish

  datatype Option<+T> = None | Some(value: T)

  datatype Result<+T> = Ok(value: T) | Err(error: Failure)

  /** The code points of a Dafny string, one per character. */
  function Codes(s: string): (r: seq<Code>)
    ensures |r| == |s|
    ensures forall i :: 0 <= i < |s| ==> r[i] == s[i] as int
  {
    seq(|s|, i requires 0 <= i < |s| => s[i] as int)
  }

  /** Codes of a concatenation are the concatenated codes. */
  lemma CodesConcat(a: string, b: string)
    ensures Codes(a + b) == Codes(a) + Codes(b)
  {
  }

  lemma MulAtLeast(n: nat, k: int)
    requires n > 0 && k >= 1
    ensures n * k >= n
  {
  }

  /** Euclidean division is unique: any decomposition a == n * q + r with
      0 <= r < n has r == a % n. */
  lemma DivModUnique(a: int, n: nat, q: int, r: int)
    requires n > 0 && 0 <= r < n && a == n * q + r
    ensures a % n == r
  {
    var q0, r0 := a / n, a % n;
    assert a == n * q0 + r0;
    if q > q0 {
      assert n * q - n * q0 == n * (q - q0);
      MulAtLeast(n, q - q0);
      assert false;
    } else if q < q0 {
      assert n * q0 - n * q == n * (q0 - q);
      MulAtLeast(n, q0 - q);
      assert false;
    }
  }

  /** Adding one period does not change the remainder. */
  lemma ModShift(n: nat, x: int)
    requires n > 0
    ensures (x + n) % n == x % n
  {
    assert x == n * (x / n) + x % n;
    assert x + n == n * (x / n + 1) + x % n;
    DivModUnique(x + n, n, x / n + 1, x % n);
  }

  /** Two integers that differ by a multiple of the modulus leave the same
      remainder. */
  lemma ModCongruent(a: int, b: int, n: nat, t: int)
    requires n > 0 && a - b == n * t
    ensures a % n == b % n
  {
    assert b == n * (b / n) + b % n;
    assert a == n * (t + b / n) + b % n;
    DivModUnique(a, n, t + b / n, b % n);
  }
}
