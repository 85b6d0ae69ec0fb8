/**
 The stream encoders. `Encoder` pulls every remaining character from its
 reader, encodes it with one key value and writes it; `NullEncoder` copies
 characters unchanged up to and including the first one a predicate accepts;
 `HeadedTextEncoder` runs the two in turn on one shared reader and writer,
 with a newline ending the header. `RootEncode` is the earlier encoder, which
 finishes its writer and hands it back when it can be read.
 */
module Encoders {
  import opened Base
  import opened Keys
  import opened Coders
  import opened ReaderWriter

  /** What an encoder leaves behind: the shared generator, the writer, the
      coder (whose key has advanced), the codes written by this run and the
      failure that stopped it, if any. After a failure the coder is the one
      from before the failing character. */
  datatype Run = Run(source: Cursor, writer: Writer, coder: Coder, written: seq<Code>, failure: Option<Failure>)

  lemma SinglesConcat(a: seq<Code>, b: seq<Code>)
    ensures Singles(a + b) == Singles(a) + Singles(b)
  {
  }

  /** `Encoder.encode`: for each character the generator still yields, one
      `encode_char` and one `write`, stopping at the first character that
      cannot be encoded. */
  function EncodeFrom(coder: Coder, source: Cursor, writer: Writer): (r: Run)
    requires coder.key.Valid() && source.Valid()
    ensures r.source.Valid() && r.source.input == source.input
    ensures r.coder.key.Valid() && r.coder.cipher == coder.cipher
    ensures r.writer.output == writer.output + Singles(r.written)
    ensures |r.written| <= |source.Remaining()|
    decreases |source.input| - source.pos
  {
    match Next(source)
    case None => Run(source, writer, coder, [], None)
    case Some((ch, rest)) =>
      match EncodeChar(coder, ch)
      case Err(e) => Run(rest, writer, coder, [], Some(e))
      case Ok((out, coder')) =>
        var tail := EncodeFrom(coder', rest, Write(writer, [out]));
        SinglesConcat([out], tail.written);
        Run(tail.source, tail.writer, tail.coder, [out] + tail.written, tail.failure)
  }

  /** One step of the encoder: a character that encodes is written first,
      and the rest of the run continues with the advanced coder. */
  lemma EncodeFromStep(coder: Coder, source: Cursor, writer: Writer)
    requires coder.key.Valid() && source.Valid()
    requires Next(source).Some? && EncodeChar(coder, Next(source).value.0).Ok?
    ensures var rest := Next(source).value.1;
      var step := EncodeChar(coder, Next(source).value.0).value;
      var tail := EncodeFrom(step.1, rest, Write(writer, [step.0]));
      EncodeFrom(coder, source, writer)
        == Run(tail.source, tail.writer, tail.coder, [step.0] + tail.written, tail.failure)
  {
  }

  /** The encoder against the reference meaning of its coder: the i-th
      character written is what the coder makes of the i-th remaining
      character with the i-th key value. */
  lemma {:induction false} EncodeFromWritesReference(coder: Coder, source: Cursor, writer: Writer)
    requires coder.key.Valid() && source.Valid()
    ensures var r := EncodeFrom(coder, source, writer);
      forall i :: 0 <= i < |r.written| ==> Expected(coder, source.Remaining()[i], i) == Ok(r.written[i])
    decreases |source.input| - source.pos
  {
    var next := Next(source);
    if next.Some? && EncodeChar(coder, next.value.0).Ok? {
      var rest := next.value.1;
      var step := EncodeChar(coder, next.value.0).value;
      var w := Write(writer, [step.0]);
      EncodeFromStep(coder, source, writer);
      EncodeFromWritesReference(step.1, rest, w);
      var tail := EncodeFrom(step.1, rest, w);
      forall i | 0 <= i < |tail.written|
        ensures Expected(coder, source.Remaining()[i + 1], i + 1) == Ok(tail.written[i])
      {
        assert source.Remaining()[i + 1] == rest.Remaining()[i];
        ExpectedAfterGet(coder, rest.Remaining()[i], i);
      }
    }
  }

  /** A run without failure has consumed every remaining character, and a
      run that consumed them all did not fail. */
  lemma {:induction false} EncodeFromDrains(coder: Coder, source: Cursor, writer: Writer)
    requires coder.key.Valid() && source.Valid()
    ensures var r := EncodeFrom(coder, source, writer);
      && (r.failure.None? <==> |r.written| == |source.Remaining()|)
      && (r.failure.None? ==> r.source.Remaining() == [])
    decreases |source.input| - source.pos
  {
    var next := Next(source);
    if next.Some? && EncodeChar(coder, next.value.0).Ok? {
      var step := EncodeChar(coder, next.value.0).value;
      EncodeFromStep(coder, source, writer);
      EncodeFromDrains(step.1, next.value.1, Write(writer, [step.0]));
    }
  }

  /** The encoder fails exactly at the first character the reference
      rejects, with the reference's failure, and otherwise drains the
      reader. */
  lemma {:induction false} EncodeFromFailsWithReference(coder: Coder, source: Cursor, writer: Writer)
    requires coder.key.Valid() && source.Valid()
    ensures var r := EncodeFrom(coder, source, writer);
      && (r.failure.None? <==> |r.written| == |source.Remaining()|)
      && (r.failure.Some? ==> Expected(coder, source.Remaining()[|r.written|], |r.written|) == Err(r.failure.value))
      && (r.failure.None? ==> r.source.Remaining() == [])
    decreases |source.input| - source.pos
  {
    EncodeFromDrains(coder, source, writer);
    EncodeFromFailsAt(coder, source, writer);
  }

  /** A failing run stops short of the end of the input, at a character the
      reference rejects with the same failure. */
  lemma {:induction false} EncodeFromFailsAt(coder: Coder, source: Cursor, writer: Writer)
    requires coder.key.Valid() && source.Valid()
    ensures var r := EncodeFrom(coder, source, writer);
      r.failure.Some? ==>
        && |r.written| < |source.Remaining()|
        && Expected(coder, source.Remaining()[|r.written|], |r.written|) == Err(r.failure.value)
    decreases |source.input| - source.pos
  {
    var next := Next(source);
    if next.Some? && EncodeChar(coder, next.value.0).Err? {
      assert source.Remaining()[0] == next.value.0;
    } else if next.Some? {
      var rest := next.value.1;
      var step := EncodeChar(coder, next.value.0).value;
      var w := Write(writer, [step.0]);
      EncodeFromStep(coder, source, writer);
      EncodeFromFailsAt(step.1, rest, w);
      var tail := EncodeFrom(step.1, rest, w);
      if tail.failure.Some? {
        var n := |tail.written|;
        assert |EncodeFrom(coder, source, writer).written| == n + 1;
        assert source.Remaining()[n + 1] == rest.Remaining()[n];
        ExpectedAfterGet(coder, rest.Remaining()[n], n);
      }
    }
  }

  /** A run that does not fail leaves the key advanced by exactly one value
      per character encoded. */
  lemma {:induction false} EncodeFromAdvancesKey(coder: Coder, source: Cursor, writer: Writer)
    requires coder.key.Valid() && source.Valid()
    ensures var r := EncodeFrom(coder, source, writer);
      r.failure.None? ==> r.coder.key == Advance(coder.key, |r.written|)
    decreases |source.input| - source.pos
  {
    var next := Next(source);
    if next.Some? && EncodeChar(coder, next.value.0).Ok? {
      var rest := next.value.1;
      var step := EncodeChar(coder, next.value.0).value;
      var w := Write(writer, [step.0]);
      EncodeFromStep(coder, source, writer);
      EncodeFromAdvancesKey(step.1, rest, w);
      var tail := EncodeFrom(step.1, rest, w);
      if tail.failure.None? {
        GetIsAdvanceStep(coder.key, |tail.written|);
      }
    }
  }

  /** What `NullEncoder.encode` leaves behind: the shared generator, the
      writer and the characters it copied. */
  datatype Copy = Copy(source: Cursor, writer: Writer, copied: seq<Code>)

  /** Putting a character `stop` rejects in front of a run keeps the run's
      stop-free prefix stop-free and its last character last. */
  lemma NoStopCons(ch: Code, t: seq<Code>, stop: Code -> bool)
    requires !stop(ch)
    ensures (forall i :: 0 <= i < |t| - 1 ==> !stop(t[i])) ==>
              forall i :: 0 <= i < |[ch] + t| - 1 ==> !stop(([ch] + t)[i])
    ensures (forall i :: 0 <= i < |t| ==> !stop(t[i])) ==>
              forall i :: 0 <= i < |[ch] + t| ==> !stop(([ch] + t)[i])
    ensures |t| > 0 ==> ([ch] + t)[|t|] == t[|t| - 1]
  {
  }

  /** `NullEncoder.encode(stop)`: copy characters verbatim, one write each,
      up to and including the first one `stop` accepts; when none is
      accepted, copy everything (`NullEncodeStops`). The generator is left
      just after the copied prefix. */
  function NullEncode(source: Cursor, writer: Writer, stop: Code -> bool): (r: Copy)
    requires source.Valid()
    ensures r.source.Valid() && r.source.input == source.input
    ensures r.source.pos == source.pos + |r.copied|
    ensures r.writer.output == writer.output + Singles(r.copied)
    ensures r.copied <= source.Remaining()
    decreases |source.input| - source.pos
  {
    match Next(source)
    case None => Copy(source, writer, [])
    case Some((ch, rest)) =>
      var w := Write(writer, [ch]);
      if stop(ch) then Copy(rest, w, [ch])
      else
        var tail := NullEncode(rest, w, stop);
        SinglesConcat([ch], tail.copied);
        Copy(tail.source, tail.writer, [ch] + tail.copied)
  }

  /** The null encoder copies no character `stop` accepts except the last
      one it copies; it ends on an accepted character or has copied the
      whole rest of the input without meeting one. */
  lemma {:induction false} NullEncodeStops(source: Cursor, writer: Writer, stop: Code -> bool)
    requires source.Valid()
    ensures var r := NullEncode(source, writer, stop);
      && (forall i :: 0 <= i < |r.copied| - 1 ==> !stop(r.copied[i]))
      && ((|r.copied| > 0 && stop(r.copied[|r.copied| - 1]))
          || (r.copied == source.Remaining() && forall i :: 0 <= i < |r.copied| ==> !stop(r.copied[i])))
    decreases |source.input| - source.pos
  {
    match Next(source)
    case None =>
    case Some((ch, rest)) =>
      if !stop(ch) {
        var w := Write(writer, [ch]);
        NullEncodeStops(rest, w, stop);
        var tail := NullEncode(rest, w, stop);
        assert NullEncode(source, writer, stop).copied == [ch] + tail.copied;
        NoStopCons(ch, tail.copied, stop);
        assert source.Remaining() == [ch] + rest.Remaining();
      }
  }

  /** `HeadedTextEncoder._is_end_of_header`: only the newline ends the
      header. */
  function IsEndOfHeader(c: Code): (b: bool)
    ensures b <==> c == '\n' as int
  {
    c == '\n' as int
  }

  /** Result of `HeadedTextEncoder.encode`: the copied header and the body run. */
  datatype Headed = Headed(header: seq<Code>, body: Run)

  /** `HeadedTextEncoder.encode` with header and body encoders sharing one
      reader and one writer: the header, up to and including the first
      newline, goes out verbatim and pulls no key values; the rest is encoded
      starting at the key's first value. Without a newline everything is
      header and the body encodes nothing. */
  function HeadedEncode(coder: Coder, source: Cursor, writer: Writer): (r: Headed)
    requires coder.key.Valid() && source.Valid()
    ensures r.header <= source.Remaining()
    ensures |r.header| + |r.body.written| <= |source.Remaining()|
  {
    var h := NullEncode(source, writer, IsEndOfHeader);
    Headed(h.copied, EncodeFrom(coder, h.source, h.writer))
  }

  /** The header is the input up to and including its first newline (all of
      it when there is none); header and body go to the shared writer in
      that order. */
  lemma HeadedSplit(coder: Coder, source: Cursor, writer: Writer)
    requires coder.key.Valid() && source.Valid()
    ensures var r := HeadedEncode(coder, source, writer);
      var text := source.Remaining();
      && r.header <= text
      && ('\n' as int in r.header ==>
            r.header[|r.header| - 1] == '\n' as int && '\n' as int !in r.header[..|r.header| - 1])
      && ('\n' as int !in r.header ==> r.header == text)
      && r.body.writer.output == writer.output + Singles(r.header) + Singles(r.body.written)
  {
    var h := NullEncode(source, writer, IsEndOfHeader);
    NullEncodeStops(source, writer, IsEndOfHeader);
    if '\n' as int in h.copied {
      var k :| 0 <= k < |h.copied| && h.copied[k] == '\n' as int;
      assert k == |h.copied| - 1;
      var front := h.copied[..|h.copied| - 1];
      forall i | 0 <= i < |front| ensures front[i] != '\n' as int {
        assert front[i] == h.copied[i];
      }
    }
  }

  /** An input made of a first line, ending at its only newline, followed by
      anything: the header is exactly that first line. */
  lemma HeaderIsFirstLine(coder: Coder, source: Cursor, writer: Writer, line: seq<Code>, rest: seq<Code>)
    requires coder.key.Valid() && source.Valid()
    requires source.Remaining() == line + rest
    requires |line| > 0 && line[|line| - 1] == '\n' as int && '\n' as int !in line[..|line| - 1]
    ensures HeadedEncode(coder, source, writer).header == line
  {
    HeadedSplit(coder, source, writer);
    var h := HeadedEncode(coder, source, writer).header;
    var text := source.Remaining();
    var n := |line| - 1;
    assert text[n] == '\n' as int && text[n] in text;
    assert '\n' as int in h;
    assert |h| == |line|;
    assert h == text[..|h|] == line;
  }

  /** The body is the rest of the input after the header, encoded from the
      key's first value on: it fails exactly at the first character the
      reference rejects and otherwise encodes everything. */
  lemma HeadedBody(coder: Coder, source: Cursor, writer: Writer)
    requires coder.key.Valid() && source.Valid()
    ensures var r := HeadedEncode(coder, source, writer);
      var text := source.Remaining();
      && |r.header| <= |text|
      && var rest := text[|r.header|..];
      && |r.body.written| <= |rest|
      && (forall i :: 0 <= i < |r.body.written| ==> Expected(coder, rest[i], i) == Ok(r.body.written[i]))
      && (r.body.failure.None? <==> |r.body.written| == |rest|)
      && (r.body.failure.Some? ==>
            Expected(coder, rest[|r.body.written|], |r.body.written|) == Err(r.body.failure.value))
  {
    var h := NullEncode(source, writer, IsEndOfHeader);
    assert h.source.Remaining() == source.Remaining()[|h.copied|..];
    EncodeFromWritesReference(coder, h.source, h.writer);
    EncodeFromFailsWithReference(coder, h.source, h.writer);
  }

  /** What the earlier `Encoder.encode` leaves behind: the characters it
      wrote, the writer, how often it called `writer.finish()`, the handle it
      returned, and the failure that aborted it. */
  datatype RootRun = RootRun(written: seq<Code>, writer: Writer, finishCalls: nat, returned: Option<Writer>, failure: Option<Failure>)

  /** The earlier `Encoder.encode`: a fresh `read()`, one encoded write per
      character, then one call of `finish()`, and the writer handed back only
      when it offers `get`. A failing character aborts before `finish()`; a
      writer without `finish` (`hasFinish` false, as for every writer in
      `_reader_writer.py`) makes that call fail after everything was
      written. */
  function RootEncode(coder: Coder, reader: Reader, writer: Writer, hasFinish: bool, hasGetter: bool): (r: RootRun)
    requires coder.key.Valid()
    ensures |r.written| <= |reader.input|
    ensures forall i :: 0 <= i < |r.written| ==> Expected(coder, reader.input[i], i) == Ok(r.written[i])
    ensures r.writer.output == writer.output + Singles(r.written)
    ensures |r.written| < |reader.input| ==>
              && r.failure.Some? && r.finishCalls == 0
              && Expected(coder, reader.input[|r.written|], |r.written|) == Err(r.failure.value)
    ensures |r.written| == |reader.input| ==>
              r.finishCalls == 1 && r.failure == (if hasFinish then None else Some(MissingFinish))
    ensures r.failure.None? <==> hasFinish && forall i :: 0 <= i < |reader.input| ==> Expected(coder, reader.input[i], i).Ok?
    ensures r.returned == (if r.failure.None? && hasGetter then Some(r.writer) else None)
  {
    var source := Read(reader);
    assert source.Remaining() == reader.input;
    var run := EncodeFrom(coder, source, writer);
    EncodeFromWritesReference(coder, source, writer);
    EncodeFromFailsWithReference(coder, source, writer);
    if run.failure.Some? then
      RootRun(run.written, run.writer, 0, None, run.failure)
    else if !hasFinish then
      RootRun(run.written, run.writer, 1, None, Some(MissingFinish))
    else
      RootRun(run.written, run.writer, 1, if hasGetter then Some(run.writer) else None, None)
  }

  /** An encoder over a fresh reader of `text` and a new writer. */
  function EncodeText(coder: Coder, text: seq<Code>): Run
    requires coder.key.Valid()
  {
    EncodeFrom(coder, Read(Reader(text)), NewWriter())
  }

  /** When the reference accepts every character, the encoder writes exactly
      the reference results, one per character, and `get` returns them. */
  lemma EncodeTextAllOk(coder: Coder, text: seq<Code>)
    requires coder.key.Valid()
    requires forall i :: 0 <= i < |text| ==> Expected(coder, text[i], i).Ok?
    ensures EncodeText(coder, text).failure.None?
    ensures EncodeText(coder, text).written
         == seq(|text|, i requires 0 <= i < |text| => Expected(coder, text[i], i).value)
    ensures ReaderWriter.Get(EncodeText(coder, text).writer) == EncodeText(coder, text).written
  {
    var r := EncodeText(coder, text);
    EncodeFromWritesReference(coder, Read(Reader(text)), NewWriter());
    EncodeFromFailsWithReference(coder, Read(Reader(text)), NewWriter());
    assert r.writer.output == [] + Singles(r.written) == Singles(r.written);
    JoinSingles(r.written);
  }

  /** Encoding with Cesar and then decoding the output with Cesar under the
      negated key, from the same cycle position, gives back any 7-bit text. */
  lemma CesarStreamRoundTrip(key: KeyStream, text: seq<Code>)
    requires key.Valid() && (text == [] || KeyAt(key, 0).Some?)
    requires forall i :: 0 <= i < |text| ==> text[i] <= MaxAsciiValue
    ensures EncodeText(Coder(Cesar, key), text).failure.None?
    ensures var encoded := EncodeText(Coder(Cesar, key), text).written;
      && EncodeText(Coder(Cesar, Negated(key)), encoded).failure.None?
      && EncodeText(Coder(Cesar, Negated(key)), encoded).written == text
  {
    var enc, dec := Coder(Cesar, key), Coder(Cesar, Negated(key));
    forall i | 0 <= i < |text| ensures Expected(enc, text[i], i).Ok? {
      assert KeyAt(key, i).Some?;
    }
    EncodeTextAllOk(enc, text);
    var encoded := EncodeText(enc, text).written;
    forall i | 0 <= i < |encoded|
      ensures Expected(dec, encoded[i], i) == Ok(text[i])
    {
      NegatedKeyAt(key, i);
      assert KeyAt(key, i).Some?;
      CesarRoundTrip(text[i], KeyAt(key, i).value);
    }
    EncodeTextAllOk(dec, encoded);
  }

  /** Encoding the output of a successful Xor run again with the same key,
      from the same cycle position, gives back the text. */
  lemma XorStreamRoundTrip(key: KeyStream, text: seq<Code>)
    requires key.Valid() && EncodeText(Coder(Xor, key), text).failure.None?
    ensures var encoded := EncodeText(Coder(Xor, key), text).written;
      && EncodeText(Coder(Xor, key), encoded).failure.None?
      && EncodeText(Coder(Xor, key), encoded).written == text
  {
    var coder := Coder(Xor, key);
    EncodeFromWritesReference(coder, Read(Reader(text)), NewWriter());
    EncodeFromFailsWithReference(coder, Read(Reader(text)), NewWriter());
    var encoded := EncodeText(coder, text).written;
    forall i | 0 <= i < |encoded|
      ensures Expected(coder, encoded[i], i) == Ok(text[i])
    {
      assert Expected(coder, text[i], i) == Ok(encoded[i]);
      XorCodeSelfInverse(text[i], KeyAt(key, i).value);
    }
    EncodeTextAllOk(coder, encoded);
  }

  /** With a scalar key every character is encoded with the same key value:
      the output is the coder applied character by character. */
  lemma ScalarKeyEncoding(cipher: Cipher, key: KeyItem, text: seq<Code>)
    requires forall i :: 0 <= i < |text| ==> ApplyCipher(cipher, text[i], IntFormat(key)).Ok?
    ensures EncodeText(Coder(cipher, Scalar(key)), text).failure.None?
    ensures EncodeText(Coder(cipher, Scalar(key)), text).written
         == seq(|text|, i requires 0 <= i < |text| => ApplyCipher(cipher, text[i], IntFormat(key)).value)
    ensures ReaderWriter.Get(EncodeText(Coder(cipher, Scalar(key)), text).writer)
         == EncodeText(Coder(cipher, Scalar(key)), text).written
  {
    EncodeTextAllOk(Coder(cipher, Scalar(key)), text);
  }

  /** With an iterable key the i-th character is encoded with the key element
      at position i modulo the key length: the key cycles over the text. */
  lemma IterableKeyEncoding(cipher: Cipher, items: seq<KeyItem>, text: seq<Code>)
    requires |items| > 0
    requires forall i :: 0 <= i < |text| ==> ApplyCipher(cipher, text[i], IntFormat(items[i % |items|])).Ok?
    ensures EncodeText(Coder(cipher, NewIterable(items)), text).failure.None?
    ensures EncodeText(Coder(cipher, NewIterable(items)), text).written
         == seq(|text|, i requires 0 <= i < |text| => ApplyCipher(cipher, text[i], IntFormat(items[i % |items|])).value)
    ensures ReaderWriter.Get(EncodeText(Coder(cipher, NewIterable(items)), text).writer)
         == EncodeText(Coder(cipher, NewIterable(items)), text).written
  {
    EncodeTextAllOk(Coder(cipher, NewIterable(items)), text);
  }

  /** An iterable key over nothing encodes the empty text and fails on the
      first character of any other, before anything is written. */
  lemma EmptyKeyEncoding(cipher: Cipher, text: seq<Code>)
    ensures EncodeText(Coder(cipher, NewIterable([])), text).written == []
    ensures EncodeText(Coder(cipher, NewIterable([])), text).failure
         == (if text == [] then None else Some(KeyExhausted))
  {
    var coder := Coder(cipher, NewIterable([]));
    EncodeFromWritesReference(coder, Read(Reader(text)), NewWriter());
    EncodeFromFailsWithReference(coder, Read(Reader(text)), NewWriter());
  }
}
