/**
 The in-memory source and sink. A reader hands out its input one character
 at a time through a generator; a writer collects every written piece in a
 list and joins them on request.
 */
module ReaderWriter {
  import opened Base

  /** A reader (StringReader): the text it was constructed with. */
  datatype Reader = Reader(input: seq<Code>)

  /** The generator returned by one `read()` call: the text and how many
      characters it has yielded so far. */
  datatype Cursor = Cursor(input: seq<Code>, pos: nat) {
    predicate Valid() {
      pos <= |input|
    }

    /** What the generator has still to yield. */
    function Remaining(): seq<Code>
      requires Valid()
    {
      input[pos..]
    }
  }

  /** `Reader.read`: every call starts a new generator at the first
      character; there is no cursor shared between calls. */
  function Read(r: Reader): (c: Cursor)
    ensures c.Valid() && c.input == r.input && c.pos == 0
  {
    Cursor(r.input, 0)
  }

  /** One `next()` on the generator: the next character and the generator
      after it, or None once the text is exhausted. */
  function Next(c: Cursor): (r: Option<(Code, Cursor)>)
    requires c.Valid()
    ensures r.None? <==> c.Remaining() == []
    ensures r.Some? ==> r.value.1.Valid() && r.value.1.input == c.input
    ensures r.Some? ==> r.value.1.pos == c.pos + 1 && [r.value.0] + r.value.1.Remaining() == c.Remaining()
  {
    if c.pos == |c.input| then None
    else
      assert c.input[c.pos..] == [c.input[c.pos]] + c.input[c.pos + 1..];
      Some((c.input[c.pos], Cursor(c.input, c.pos + 1)))
  }

  /** Everything the generator yields when iterated to the end. */
  function Drain(c: Cursor): seq<Code>
    requires c.Valid()
    decreases |c.input| - c.pos
  {
    match Next(c)
    case None => []
    case Some((ch, rest)) => [ch] + Drain(rest)
  }

  lemma {:induction false} DrainYieldsRemaining(c: Cursor)
    requires c.Valid()
    ensures Drain(c) == c.Remaining()
    decreases |c.input| - c.pos
  {
    if Next(c).Some? {
      DrainYieldsRemaining(Next(c).value.1);
    }
  }

  /** Iterating a fresh `read()` yields each input character exactly once, in
      order, and nothing else, however often `read()` was called before. */
  lemma ReadYieldsInput(r: Reader)
    ensures Drain(Read(r)) == r.input
  {
    DrainYieldsRemaining(Read(r));
  }

  /** A writer: the list of pieces written so far. */
  datatype Writer = Writer(output: seq<seq<Code>>)

  /** `Writer.__init__`: a writer that holds nothing yet. */
  function NewWriter(): (w: Writer)
    ensures Get(w) == []
  {
    Writer([])
  }

  /** `Writer.write`: one more piece at the end of the list. */
  function Write(w: Writer, piece: seq<Code>): (r: Writer)
    ensures |r.output| == |w.output| + 1
    ensures r.output[..|w.output|] == w.output && r.output[|w.output|] == piece
  {
    Writer(w.output + [piece])
  }

  /** `''.join(pieces)`. */
  function Join(pieces: seq<seq<Code>>): seq<Code> {
    if pieces == [] then [] else pieces[0] + Join(pieces[1..])
  }

  /** `StringWriter.get`: the written pieces joined in write order. The
      writer itself is a value and is left as it was. */
  function Get(w: Writer): (r: seq<Code>)
    ensures w.output == [] ==> r == []
    ensures |w.output| > 0 ==> w.output[0] <= r
  {
    Join(w.output)
  }

  lemma {:induction false} JoinAppend(pieces: seq<seq<Code>>, piece: seq<Code>)
    ensures Join(pieces + [piece]) == Join(pieces) + piece
    decreases |pieces|
  {
    if pieces != [] {
      assert (pieces + [piece])[1..] == pieces[1..] + [piece];
      JoinAppend(pieces[1..], piece);
    }
  }

  /** A new writer holds nothing, and each write extends what `get` returns by
      exactly the piece written. */
  lemma GetAfterWrite(w: Writer, piece: seq<Code>)
    ensures Get(NewWriter()) == []
    ensures Get(Write(w, piece)) == Get(w) + piece
  {
    JoinAppend(w.output, piece);
  }

  /** Each code written on its own, as the encoders write them. */
  function Singles(codes: seq<Code>): (r: seq<seq<Code>>) {
    seq(|codes|, i requires 0 <= i < |codes| => [codes[i]])
  }

  /** Joining one-character pieces gives back the characters. */
  lemma {:induction false} JoinSingles(codes: seq<Code>)
    ensures Join(Singles(codes)) == codes
    decreases |codes|
  {
    if codes != [] {
      assert Singles(codes)[1..] == Singles(codes[1..]);
      JoinSingles(codes[1..]);
    }
  }

  /** Joining two runs of pieces gives the two joins one after the other. */
  lemma {:induction false} JoinConcat(a: seq<seq<Code>>, b: seq<seq<Code>>)
    ensures Join(a + b) == Join(a) + Join(b)
    decreases |a|
  {
    if a == [] {
      assert a + b == b;
    } else {
      assert (a + b)[0] == a[0] && (a + b)[1..] == a[1..] + b;
      JoinConcat(a[1..], b);
    }
  }

  /** A writer that received two runs of single characters returns both,
      in order, from `get`. */
  lemma GetSingles(w: Writer, a: seq<Code>, b: seq<Code>)
    requires w.output == NewWriter().output + Singles(a) + Singles(b)
    ensures Get(w) == a + b
  {
    assert w.output == Singles(a) + Singles(b);
    JoinConcat(Singles(a), Singles(b));
    JoinSingles(a);
    JoinSingles(b);
  }
}
