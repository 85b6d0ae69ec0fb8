# encoder — a Dafny model of the character-stream transcoder

The repository reads text one character at a time, passes each character
through a classical cipher and writes the result. The cipher is either
`Cesar`, which adds a key value and wraps into 7-bit ASCII, or `Xor`, which
XORs with a key value. Each character pulls one value from its key. A
`ScalarEncryptionKey` gives the same value every time. An
`IterableEncryptionKey` cycles over a finite sequence of ints or characters.

This project models that core as pure functions over immutable values:

- `Base`: characters as integer code points (`Code`, 0..0x10FFFF, the
  domain of Python's `chr`), the `Option`/`Result` wrappers, and a few
  facts about Euclidean `%`.
- `Keys`: key items, `_get_in_int_format`, the two key classes and
  `get()`. An iterable key is `Iterable(items, consumed)`; the generator
  has yielded `consumed` items of its current pass and is recreated once
  exhausted. `KeyAt` gives a reference meaning by plain modulo indexing.
- `Coders`: both generations of the Cesar wrap, Cesar, Xor (a bitwise XOR
  on naturals) and `encode_char`. `Expected(coder, c, i)` is the reference
  meaning of encoding `c` as the i-th character.
- `Printables`: the sorted table of printable ASCII codes and its minimum,
  maximum and size.
- `ReaderWriter`: `Reader.read` as a generator cursor, and `Writer` /
  `StringWriter.get` as a list of pieces joined on request.
- `Encoders`: `Encoder.encode`, `NullEncoder.encode`,
  `HeadedTextEncoder.encode` over one shared cursor and writer, and the
  earlier root `Encoder.encode`. The root version calls its writer's
  `finish` and returns the writer only when the writer has `get`.
- `Examples`: the concrete cases from the repository's tests, stated
  against the model.

Failures are values, not exceptions:

- `KeyExhausted` is the `StopIteration` an iterable key over an empty
  sequence raises on `get()`.
- `ChrOutOfRange` is the `ValueError` from `chr` when Xor with a negative
  key, or a large key, leaves the code-point range.
- `MissingFinish` is the `AttributeError` the root `Encoder.encode` raises
  at `_encoder.py:19` when its writer defines no `finish`.

An encoder stops at the first failing character. The characters already
written stay written.

The Cesar cipher works on raw ASCII codes modulo 128 in both
`text_encoder/_coder.py` and `_coder.py`. `text_encoder/_encoder.py:9`
imports its coders from `._codes`, a module that is not part of this
model; only the modulo-128 Cesar of the `_coder.py` files is modelled, and
the end-to-end tests expect its results. The printable table is modelled
on its own.

`Reader.read` in `_reader_writer.py` starts a fresh generator on every call
(`Read`). `HeadedTextEncoder` only behaves as its test expects when header
and body share one generator. The headed encoder is therefore modelled with
one cursor handed from the header phase to the body phase. The
`text_encoder` reader/writer module is not part of this model.

## Model

| member | source | states |
|---|---|---|
| Keys.IntFormat | text_encoder/_coder.py:7-10 | an int key is returned unchanged (negatives included); a character key becomes its code point, a valid scalar value that converts back to the same character |
| Keys.NewIterable | text_encoder/_coder.py:90-92 | a freshly built iterable key answers position i with items[i mod n], and has no values over an empty sequence |
| Keys.Get | text_encoder/_coder.py:74-104 | `get()` succeeds exactly when the reference has a value at position 0 and returns that value; the only failure is the exhausted empty iterable key |
| Keys.GetAdvances | text_encoder/_coder.py:94-104 | after one `get()` the key answers position i as it answered i + 1 before, including across the recreation of an exhausted generator |
| Keys.GetIsAdvanceStep | text_encoder/_coder.py:98-104 | `get()` moves the key object one step along the closed form `Advance`, and steps compose |
| Keys.AdvanceMatchesKeyAt | text_encoder/_coder.py:94-104 | the key object after n calls answers position j as the original answered j + n |
| Keys.TakeMatchesKeyAt | text_encoder/_coder.py:86-104 | m successive `get()` calls return exactly the reference values for positions 0..m-1, and fail (with `KeyExhausted`) only when the key has no values at all |
| Keys.ScalarKeyIsConstant | _coder.py:55-64 | a scalar key returns the same converted value on every call |
| Keys.IterableKeyCycles | _coder.py:75-85 | a fresh iterable key over n > 0 items returns items[i mod n] on its (i+1)-th call, restarting after the last item |
| Keys.EmptyIterableKeyFails | text_encoder/_coder.py:98-104 | an iterable key over no items fails on its first `get()`, since the retried `__next__` raises again |
| Coders.Normalize | text_encoder/_coder.py:41-48 | the wrap lands in MIN_ASCII_VALUE..MAX_ASCII_VALUE for every integer |
| Coders.NormalizeIsMod | text_encoder/_coder.py:41-48 | the sign-preserving `abs % 128` step followed by `+128` when negative equals the Euclidean remainder modulo 128 |
| Coders.NormalizeHistorical | _coder.py:27-33 | the historical wrap lands in 0..127 for every integer |
| Coders.HistoricalNormalizeAgrees | _coder.py:27-33 | the historical wrap agrees with the later one on every integer, and both are (code + key) mod 128 |
| Coders.CesarCode | text_encoder/_coder.py:36-39 | the new code is always a 7-bit ASCII code |
| Coders.CesarRoundTrip | text_encoder/_coder.py:36-48 | Cesar with key -k undoes Cesar with key k on every code in 0..127 |
| Coders.CesarKeyReduction | text_encoder/_coder.py:43-45 | a key of any magnitude acts like the key reduced modulo 128 with its sign kept |
| Coders.XorBits | text_encoder/_coder.py:62 | Python's `^` on naturals: never more than the sum of its operands, and zero on equal operands; `XorBitsSelfInverse` and `XorBitsBelow` carry the rest |
| Coders.XorBitsSelfInverse | text_encoder/_coder.py:61-62 | `(a ^ b) ^ b == a` on naturals |
| Coders.XorBitsBelow | text_encoder/_coder.py:61-62 | the XOR of two k-bit values is a k-bit value |
| Coders.XorCode | text_encoder/_coder.py:58-62 | `chr(ord(c) ^ key)` succeeds exactly when the key is non-negative and the bitwise XOR stays within 0x10FFFF, and then its value is that XOR; every failure is `chr`'s range error |
| Coders.XorCodeSelfInverse | _coder.py:41-45 | whenever Xor with a key value succeeds, Xor with the same value on the result succeeds and gives the original code |
| Coders.XorCodeInRange | text_encoder/_coder.py:61-62 | Xor of a code and a non-negative key both below 2^k (k <= 16) never leaves the range of `chr` |
| Coders.EncodeChar | text_encoder/_coder.py:33-62 | `encode_char` pulls exactly one key value and returns the reference result for position 0; the coder afterwards holds the key after that `get()`; a failure is the reference's failure |
| Printables.Sort | text_encoder/_printables.py:8 | `list.sort()` gives an ascending permutation of its input |
| Printables.SortedUnique | text_encoder/_printables.py:8 | two ascending sequences with the same elements are equal, so the table does not depend on the sorting algorithm |
| Printables.PrintableCodesRuns | text_encoder/_printables.py:5-6 | the codes of space, digits, letters and punctuation, in construction order, are the runs 32, 48..57, 97..122, 65..90 and the four punctuation runs |
| Printables.AsciiPrintablesCodesAreContiguous | text_encoder/_printables.py:5-8 | the sorted table is exactly the codes 32..126 |
| Printables.AsciiPrintablesFacts | text_encoder/_printables.py:9-14 | the table has 95 = 1 + 10 + 52 + 32 entries, is strictly ascending, MIN_ASCII_CODE = 32 is its first and MAX_ASCII_CODE = 126 its last entry, and a code is in it iff it lies between the two |
| ReaderWriter.Read | _reader_writer.py:10-12 | every `read()` opens a generator at the first character, whatever earlier calls did; `ReadYieldsInput` states what it yields |
| ReaderWriter.Next | _reader_writer.py:11-12 | one step of the generator yields the next character and leaves the rest; it stops exactly when nothing is left |
| ReaderWriter.DrainYieldsRemaining | _reader_writer.py:10-12 | iterating a generator to the end yields exactly what it had left, in order |
| ReaderWriter.ReadYieldsInput | _reader_writer.py:10-12 | iterating a `read()` yields each input character exactly once, in order, and nothing else, however many generators earlier calls made |
| ReaderWriter.NewWriter | _reader_writer.py:17-18 | a new writer returns nothing from `get` |
| ReaderWriter.Get | _reader_writer.py:57-58 | `get` of a writer with no pieces is empty, and the result starts with the first piece written; `JoinAppend` and `JoinConcat` give the general join |
| ReaderWriter.Write | _reader_writer.py:20-21 | `write` appends one piece at the end and leaves every earlier piece unchanged |
| ReaderWriter.GetAfterWrite | _reader_writer.py:17-21 | a new writer returns nothing from `get`, and each write extends `get` by exactly the piece written |
| ReaderWriter.JoinAppend | _reader_writer.py:57-58 | joining the pieces plus one more is the old join followed by that piece |
| ReaderWriter.JoinConcat | _reader_writer.py:57-58 | joining two runs of pieces is the two joins in order |
| ReaderWriter.JoinSingles | _reader_writer.py:57-58 | joining one-character pieces gives back the characters |
| ReaderWriter.GetSingles | _reader_writer.py:57-58 | a writer that received two runs of single characters returns both, in write order, from `get` |
| Encoders.EncodeFrom | text_encoder/_encoder.py:66-68 | the encoder reads from the same input, keeps its cipher, writes one piece per encoded character after what the writer already held, and never writes more characters than remain |
| Encoders.EncodeFromWritesReference | text_encoder/_encoder.py:66-68 | the i-th character written is the coder applied to the i-th remaining character with the i-th key value |
| Encoders.EncodeFromDrains | text_encoder/_encoder.py:66-68 | a run without failure consumed every remaining character, and a run that consumed all of them did not fail |
| Encoders.EncodeFromFailsWithReference | text_encoder/_encoder.py:66-68 | the run stops at the first character the reference rejects, with the reference's failure |
| Encoders.EncodeFromFailsAt | text_encoder/_encoder.py:66-68 | a failing run stops before the end of the input, at a character the reference rejects with the same failure |
| Encoders.EncodeFromAdvancesKey | text_encoder/_encoder.py:66-68 | a successful run pulls exactly one key value per character: the key ends `Advance`d by the number of characters written |
| Encoders.NullEncode | text_encoder/_encoder.py:92-95 | the null encoder copies a prefix of the remaining input verbatim, one write per character, and leaves the shared generator just after the copied part |
| Encoders.NullEncodeStops | text_encoder/_encoder.py:92-95 | the copy runs up to and including the first character the predicate accepts, or over everything if none is accepted |
| Encoders.IsEndOfHeader | text_encoder/_encoder.py:115-117 | a character ends the header exactly when it is `'\n'` |
| Encoders.HeadedEncode | text_encoder/_encoder.py:110-113 | the header is a prefix of the input, and header and encoded body together never exceed the input; the exact split is stated by `HeadedSplit`, `HeaderIsFirstLine` and `HeadedBody` |
| Encoders.HeadedSplit | text_encoder/_encoder.py:110-117 | the header is the input up to and including its first `'\n'` (all of it when there is none), and the shared writer receives the header and then the body |
| Encoders.HeaderIsFirstLine | text_encoder/_encoder.py:110-117 | for input made of a line ending at its only `'\n'` followed by anything, the header is exactly that line |
| Encoders.HeadedBody | text_encoder/_encoder.py:110-113 | the body is the rest of the input, encoded from the key's first value on (the header pulls no key values), and it fails exactly where the reference fails |
| Encoders.RootEncode | _encoder.py:14-25 | the earlier encoder writes the reference result for each character in order, the writer holding exactly those pieces after what it held before; a failing character aborts with the reference's failure, the earlier characters left written and `finish()` not called; once every character is written `finish()` is called exactly once and fails when the writer has none; the writer is returned iff nothing failed and it has `get` |
| Encoders.EncodeTextAllOk | _encoder.py:14-22 | when every character encodes, the collected output is the coder mapped over the input with successive key values |
| Encoders.CesarStreamRoundTrip | text_encoder/_coder.py:33-48 | encoding 7-bit text with Cesar and then encoding the output with the negated key from the same cycle position gives the text back |
| Encoders.XorStreamRoundTrip | text_encoder/_coder.py:58-62 | encoding the output of a successful Xor run again with the same key gives the text back |
| Encoders.ScalarKeyEncoding | text_encoder/_coder.py:81-83 | with a scalar key every character is encoded with the same value |
| Encoders.IterableKeyEncoding | text_encoder/_coder.py:94-104 | with an iterable key over n > 0 items the i-th character is encoded with items[i mod n] |
| Encoders.EmptyKeyEncoding | text_encoder/_coder.py:100-104 | with an iterable key over nothing, only the empty text encodes; any other text fails with `KeyExhausted` before writing |
| Examples.CharacterExamples | tests/test_codes.py:27-63 | 'a' + 3 = 'd', 'a' - 3 = '^', 'z' + 38 = ' ', '&' - 6 = ' ', and 'a' xor 3 = 'b' |
| Examples.IterableKeyExample | text_encoder/_coder.py:98-104 | the key [1, 2, 3] answers 1, 2, 3, 1, 2, 3, 1 over seven calls |
| Examples.CesarTextExample | tests/test_encoder.py:29-34 | "dude lol" with Cesar key 2 gives 'fwfg"nqn', and key -2 decodes it |
| Examples.XorTextExample | tests/test_encoder.py:57-62 | "dude lol" with Xor key 3 gives "gvgf#olo" |
| Examples.HeadedExample | tests/test_encoder.py:64-76 | "some header \n dude lol" under the headed encoder with Xor key 3 gives "some header \n#gvgf#olo" |
| Examples.KeyTextExample | tests/test_encoder.py:112-124 | Cesar on "abc" with the key text "abc" gives "BDF" (97 + 97 = 194, which wraps to 66) |
| Examples.ShiftOneExample | tests/test_encoder.py:80-110 | Cesar on "this works" with key 1, and with keys 1,1,1, gives "uijt!xpslt" |

## Left out

- Argument parsing, `main` and the key/reader/writer factories
  (`ArgParser` in both encoder modules): command-line glue. The end-to-end
  tests that go through `main` are modelled by building the same coder
  directly.
- `encoder.py`: a third copy of the loop plus argument parsing. It passes
  a bare int where `Cesar` expects a key object, so no consistent model
  exists.
- `time_it` and logging: wall-clock timing only.
- File and console readers and writers (`FileReader`, `FileWriter`,
  `ConsoleReader`, `ConsoleWriter`): file and terminal I/O. `StringReader`
  and `StringWriter` are the modelled source and sink.
- The coders of `._codes`, which `text_encoder/_encoder.py:9` imports:
  that module is not part of this model. The modelled `_coder.py` files
  and the end-to-end tests use modulo-128 arithmetic.
- The float division in the Cesar sign step (`cesar_key/abs(cesar_key)`):
  modelled as the integer sign, which gives the same result for every
  non-zero int.
- The ±255 Cesar cases in tests/test_codes.py:42-55: the wrap arithmetic
  with a scalar key of value 255 (or -255) gives 'y' and "'", not the
  expected '{' and '%', so they are not stated. The tests build `Cesar(n)`
  and `Xor(3)` from bare ints, which `_coder.py:24,45` would reject (an int
  has no `get`); `Examples.CharacterExamples` states the tests' arithmetic
  with a scalar key instead.
- The check that `Coder` cannot be instantiated without `encode_char`:
  Python class machinery.
- `finish` of the three encoders in `text_encoder/_encoder.py`
  (lines 70-72, 97-99 and 119-121): each is the single call
  `self._writer.finish()`, and the headed encoder forwards only to its body
  encoder. The writers it reaches come from `text_encoder/_reader_writer.py`,
  which is not part of this model, so the effect of the call is unknown.
- Encoders.RootEncode: whether the writer defines `finish` is the
  parameter `hasFinish`. Every writer in `_reader_writer.py` lacks it, so
  with them the source raises at `_encoder.py:19` after writing everything
  and never reaches lines 21-22; the model gives `MissingFinish` and
  returns nothing. With `hasFinish` true the model assumes a `finish` that
  does nothing beyond being called (`finishCalls`).
- The key object after a failing character: the model returns the coder as
  it was before that character. The failing `get()` of an empty iterable
  key changes nothing observable. When Xor's `chr` fails
  (`ChrOutOfRange`), Python's `get()` at `text_encoder/_coder.py:62` has
  already moved the key on by one, which the returned coder does not show.
- Coders.XorCodeInRange: bounded to keys and codes below 2^16. A result
  above 0x10FFFF is still modelled as a failure by `XorCode`.
- Keys.IntFormat: a character key is any `char`, so lone surrogates
  (which Python strings can hold) are not representable.
