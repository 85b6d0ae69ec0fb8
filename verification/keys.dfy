/**
 Encryption keys: a scalar key that answers the same value on every `get()`,
 and an iterable key that walks a finite sequence and starts over when its
 generator is exhausted.
 */
module Keys {
  import opened Base

  /** One key element as the caller supplies it: an int, or a one-character
      string (a character of the `--key_text` argument). */
  datatype KeyItem = IntKey(n: int) | CharKey(c: char)

  /** `_get_in_int_format`: ints pass through, a character becomes `ord(c)`. */
  function IntFormat(k: KeyItem): (r: int)
    ensures k.IntKey? ==> r == k.n
    ensures k.CharKey? ==> (0 <= r < 0xD800 || 0xE000 <= r <= MaxCodePoint) && r as char == k.c
  {
    match k
    case IntKey(n) => n
    case CharKey(c) => c as int
  }

  /** A key object. `Iterable(items, consumed)` is an IterableEncryptionKey
      whose current generator has already yielded `consumed` elements; when
      `consumed == |items|` the generator is exhausted and the next `get()`
      recreates it. */
  datatype KeyStream =
    | Scalar(key: KeyItem)
    | Iterable(items: seq<KeyItem>, consumed: nat)
  {
    predicate Valid() {
      Iterable? ==> consumed <= |items|
    }
  }

  /** IterableEncryptionKey(items) right after construction. */
  function NewIterable(items: seq<KeyItem>): (k: KeyStream)
    ensures k.Valid()
    ensures forall i: nat :: KeyAt(k, i) == (if |items| == 0 then None else Some(IntFormat(items[i % |items|])))
  {
    Iterable(items, 0)
  }

  /** Reference meaning of a key stream: the value that the (i+1)-th future
      `get()` returns, by plain modulo indexing, or None when that `get()`
      fails. */
  function KeyAt(k: KeyStream, i: nat): Option<int>
    requires k.Valid()
  {
    match k
    case Scalar(key) => Some(IntFormat(key))
    case Iterable(items, consumed) =>
      if |items| == 0 then None else Some(IntFormat(items[(consumed + i) % |items|]))
  }

  /** `get()`: the next key value and the key object afterwards. The value is
      the one `KeyAt` promises for position 0, and the stream left behind
      answers position i as the old one answered i + 1. */
  function Get(k: KeyStream): (r: Result<(int, KeyStream)>)
    requires k.Valid()
    ensures r.Ok? <==> KeyAt(k, 0).Some?
    ensures r.Err? ==> r.error == KeyExhausted
    ensures r.Ok? ==> r.value.1.Valid() && KeyAt(k, 0) == Some(r.value.0)
  {
    match k
    case Scalar(key) => Ok((IntFormat(key), k))
    case Iterable(items, consumed) =>
      if consumed < |items| then
        assert (consumed + 0) % |items| == consumed;
        Ok((IntFormat(items[consumed]), Iterable(items, consumed + 1)))
      else if |items| == 0 then
        Err(KeyExhausted)
      else
        assert (consumed + 0) % |items| == 0;
        Ok((IntFormat(items[0]), Iterable(items, 1)))
  }

  /** After a successful `get()` the stream answers position i as the old one
      answered i + 1: recreating the exhausted generator is the same as
      indexing modulo the sequence length. */
  lemma GetAdvances(k: KeyStream, i: nat)
    requires k.Valid() && Get(k).Ok?
    ensures KeyAt(Get(k).value.1, i) == KeyAt(k, i + 1)
  {
    if k.Iterable? && k.consumed == |k.items| {
      ModShift(|k.items|, i + 1);
    }
  }

  /** The key object after n more `get()` calls: a scalar key never changes;
      an iterable generator that has yielded `consumed` items has, after n
      calls, yielded ((consumed + n - 1) mod |items|) + 1 items of its current
      pass. */
  function Advance(k: KeyStream, n: nat): (r: KeyStream)
    requires k.Valid()
    ensures r.Valid()
  {
    match k
    case Scalar(_) => k
    case Iterable(items, consumed) =>
      if n == 0 || |items| == 0 then k
      else Iterable(items, (consumed + n - 1) % |items| + 1)
  }

  /** `get()` moves the key object exactly one step along `Advance`. */
  lemma GetIsAdvanceStep(k: KeyStream, n: nat)
    requires k.Valid() && Get(k).Ok?
    ensures Get(k).value.1 == Advance(k, 1)
    ensures Advance(Get(k).value.1, n) == Advance(k, n + 1)
  {
    if k.Iterable? {
      var len := |k.items|;
      if k.consumed < len {
        DivModUnique(k.consumed, len, 0, k.consumed);
      } else {
        DivModUnique(k.consumed, len, 1, 0);
        ModShift(len, n);
      }
    }
  }

  /** The advanced key object answers position j as the original answered
      position j + n. */
  lemma AdvanceMatchesKeyAt(k: KeyStream, n: nat, j: nat)
    requires k.Valid()
    ensures KeyAt(Advance(k, n), j) == KeyAt(k, j + n)
  {
    if k.Iterable? && n > 0 && |k.items| > 0 {
      var len := |k.items|;
      var m := (k.consumed + n - 1) % len;
      assert k.consumed + n - 1 == len * ((k.consumed + n - 1) / len) + m;
      ModCongruent(m + 1 + j, k.consumed + j + n, len, -((k.consumed + n - 1) / len));
    }
  }

  /** The values of m successive `get()` calls, or the failure of the first
      one that fails. */
  function Take(k: KeyStream, m: nat): Result<seq<int>>
    requires k.Valid()
    decreases m
  {
    if m == 0 then Ok([])
    else
      match Get(k)
      case Err(e) => Err(e)
      case Ok((v, rest)) =>
        match Take(rest, m - 1)
        case Err(e) => Err(e)
        case Ok(vs) => Ok([v] + vs)
  }

  /** Successive `get()` calls produce exactly the reference values KeyAt(k, 0),
      KeyAt(k, 1), ..., and fail only when the stream has no values at all. */
  lemma {:induction false} TakeMatchesKeyAt(k: KeyStream, m: nat)
    requires k.Valid()
    ensures Take(k, m).Ok? <==> (m == 0 || KeyAt(k, 0).Some?)
    ensures Take(k, m).Ok? ==> |Take(k, m).value| == m
    ensures Take(k, m).Ok? ==> forall i :: 0 <= i < m ==> KeyAt(k, i) == Some(Take(k, m).value[i])
    ensures Take(k, m).Err? ==> Take(k, m).error == KeyExhausted
    decreases m
  {
    if m > 0 && Get(k).Ok? {
      var rest := Get(k).value.1;
      TakeMatchesKeyAt(rest, m - 1);
      GetAdvances(k, 0);
      forall i | 0 <= i < m - 1
        ensures KeyAt(rest, i) == KeyAt(k, i + 1)
      {
        GetAdvances(k, i);
      }
    }
  }

  /** A scalar key answers the same converted value on every call. */
  lemma ScalarKeyIsConstant(key: KeyItem, m: nat)
    ensures Take(Scalar(key), m) == Ok(seq(m, i => IntFormat(key)))
  {
    TakeMatchesKeyAt(Scalar(key), m);
    var vs := Take(Scalar(key), m).value;
    assert forall i :: 0 <= i < m ==> vs[i] == IntFormat(key) by {
      forall i | 0 <= i < m ensures vs[i] == IntFormat(key) {
        assert KeyAt(Scalar(key), i) == Some(vs[i]);
      }
    }
    assert vs == seq(m, i => IntFormat(key));
  }

  /** A fresh iterable key over n > 0 items answers items[i % n] on its
      (i+1)-th call, for as many calls as are made. */
  lemma IterableKeyCycles(items: seq<KeyItem>, m: nat)
    requires |items| > 0
    ensures Take(NewIterable(items), m)
      == Ok(seq(m, i requires 0 <= i => IntFormat(items[i % |items|])))
  {
    TakeMatchesKeyAt(NewIterable(items), m);
    var vs := Take(NewIterable(items), m).value;
    forall i | 0 <= i < m ensures vs[i] == IntFormat(items[i % |items|]) {
      assert KeyAt(NewIterable(items), i) == Some(vs[i]);
    }
    assert vs == seq(m, i requires 0 <= i => IntFormat(items[i % |items|]));
  }

  /** An iterable key over no items fails on its first `get()`. */
  lemma EmptyIterableKeyFails(m: nat)
    requires m > 0
    ensures Take(NewIterable([]), m) == Err(KeyExhausted)
  {
    TakeMatchesKeyAt(NewIterable([]), m);
  }

  /** The key a decoder uses: every value negated, at the same position of
      the cycle. */
  function Negated(k: KeyStream): (r: KeyStream)
    requires k.Valid()
    ensures r.Valid()
  {
    match k
    case Scalar(key) => Scalar(IntKey(-IntFormat(key)))
    case Iterable(items, consumed) =>
      Iterable(seq(|items|, i requires 0 <= i < |items| => IntKey(-IntFormat(items[i]))), consumed)
  }

  /** The negated key answers every position with the negated value, and
      fails exactly where the original fails. */
  lemma NegatedKeyAt(k: KeyStream, i: nat)
    requires k.Valid()
    ensures KeyAt(Negated(k), i).Some? <==> KeyAt(k, i).Some?
    ensures KeyAt(k, i).Some? ==> KeyAt(Negated(k), i).value == -KeyAt(k, i).value
  {
  }
}
