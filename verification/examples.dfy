/**
 The concrete cases the repository's tests pin, stated against the model.
 The end-to-end cases are derived from the general encoder lemmas; the
 character-level facts they rest on are stated per test string. Where a
 case names its input as a parameter fixed by its precondition, the
 parameter stands for that literal string.
 */
module Examples {
  import opened Base
  import opened Keys
  import opened Coders
  import opened ReaderWriter
  import opened Encoders

  /** Single characters through Cesar and Xor. */
  lemma CharacterExamples()
    ensures CesarCode('a' as int, 3) == 'd' as int
    ensures CesarCode('a' as int, -3) == '^' as int
    ensures CesarCode('z' as int, 38) == ' ' as int
    ensures CesarCode('&' as int, -6) == ' ' as int
    ensures XorCode('a' as int, 3) == Ok('b' as int)
  {
    XorCodeThree('a' as int);
  }

  /** An iterable key over [1, 2, 3] read seven times. */
  lemma IterableKeyExample(items: seq<KeyItem>)
    requires items == [IntKey(1), IntKey(2), IntKey(3)]
    ensures Take(NewIterable(items), 7) == Ok([1, 2, 3, 1, 2, 3, 1])
  {
    IterableKeyCycles(items, 7);
    var values := seq(7, i requires 0 <= i => IntFormat(items[i % |items|]));
    assert values[3] == 1 && values[4] == 2 && values[5] == 3 && values[6] == 1;
    assert values == [1, 2, 3, 1, 2, 3, 1];
  }

  /** "dude lol" with a scalar Cesar key 2 gives 'fwfg"nqn', and the key -2
      decodes it again. */
  lemma CesarTextExample(text: seq<Code>)
    requires text == Codes("dude lol")
    ensures ReaderWriter.Get(EncodeText(Coder(Cesar, Scalar(IntKey(2))), text).writer) == Codes("fwfg\"nqn")
    ensures EncodeText(Coder(Cesar, Negated(Scalar(IntKey(2)))), Codes("fwfg\"nqn")).written == text
  {
    ScalarKeyEncoding(Cesar, IntKey(2), text);
    CesarStreamRoundTrip(Scalar(IntKey(2)), text);
  }

  /** XOR with 3 flips the two lowest bits. */
  lemma XorBitsThree(a: nat)
    ensures XorBits(a, 3) == 4 * (a / 4) + 3 - a % 4
  {
    XorBitsZero(a / 4);
    assert XorBits(a / 2, 1) == 2 * XorBits(a / 4, 0) + (if (a / 2) % 2 == 1 then 0 else 1);
    assert a == 4 * (a / 4) + 2 * ((a / 2) % 2) + a % 2;
  }

  lemma XorCodeThree(c: Code)
    requires c <= 127
    ensures XorCode(c, 3) == Ok(4 * (c / 4) + 3 - c % 4)
  {
    XorBitsThree(c);
  }

  /** Every character of `text` Xors with 3 to the matching one of `expected`. */
  predicate XorsToWithThree(text: seq<Code>, expected: seq<Code>) {
    |text| == |expected| && forall i :: 0 <= i < |text| ==> XorCode(text[i], 3) == Ok(expected[i])
  }

  lemma XorsToWithThreeConcat(a: seq<Code>, ea: seq<Code>, b: seq<Code>, eb: seq<Code>)
    requires XorsToWithThree(a, ea) && XorsToWithThree(b, eb)
    ensures XorsToWithThree(a + b, ea + eb)
  {
    forall i | 0 <= i < |a + b| ensures XorCode((a + b)[i], 3) == Ok((ea + eb)[i]) {
      if i >= |a| {
        assert (a + b)[i] == b[i - |a|] && (ea + eb)[i] == eb[i - |a|];
      }
    }
  }

  lemma XorDudeCharacters(text: seq<Code>, expected: seq<Code>)
    requires text == Codes("dude") && expected == Codes("gvgf")
    ensures XorsToWithThree(text, expected)
  {
    assert text[0] == text[2] == 100 && text[1] == 117 && text[3] == 101;
    assert expected[0] == expected[2] == 103 && expected[1] == 118 && expected[3] == 102;
    XorCodeThree(text[0]); XorCodeThree(text[1]); XorCodeThree(text[3]);
  }

  lemma XorLolCharacters(text: seq<Code>, expected: seq<Code>)
    requires text == Codes(" lol") && expected == Codes("#olo")
    ensures XorsToWithThree(text, expected)
  {
    assert text == [32, 108, 111, 108] && expected == [35, 111, 108, 111];
    XorCodeThree(text[0]); XorCodeThree(text[1]); XorCodeThree(text[2]); XorCodeThree(text[3]);
  }

  /** Character by character, Xor with 3 takes "dude lol" to "gvgf#olo". */
  lemma XorDudeLolCharacters(text: seq<Code>, expected: seq<Code>)
    requires text == Codes("dude lol")
    requires expected == Codes("gvgf#olo")
    ensures XorsToWithThree(text, expected)
  {
    assert "dude" + " lol" == "dude lol" && "gvgf" + "#olo" == "gvgf#olo";
    CodesConcat("dude", " lol");
    CodesConcat("gvgf", "#olo");
    XorDudeCharacters(Codes("dude"), Codes("gvgf"));
    XorLolCharacters(Codes(" lol"), Codes("#olo"));
    XorsToWithThreeConcat(Codes("dude"), Codes("gvgf"), Codes(" lol"), Codes("#olo"));
  }

  /** A text whose characters each Xor with 3 to the expected ones is encoded
      to exactly the expected text. */
  lemma XorThreeEncoding(text: seq<Code>, expected: seq<Code>)
    requires XorsToWithThree(text, expected)
    ensures ReaderWriter.Get(EncodeText(Coder(Xor, Scalar(IntKey(3))), text).writer) == expected
  {
    ScalarKeyEncoding(Xor, IntKey(3), text);
  }

  /** "dude lol" with a scalar Xor key 3 gives 'gvgf#olo'. */
  lemma XorTextExample()
    ensures ReaderWriter.Get(EncodeText(Coder(Xor, Scalar(IntKey(3))), Codes("dude lol")).writer) == Codes("gvgf#olo")
  {
    var text := Codes("dude lol");
    XorDudeLolCharacters(text, Codes("gvgf#olo"));
    XorThreeEncoding(text, Codes("gvgf#olo"));
  }

  /** Character by character, Xor with 3 takes " dude lol" to "#gvgf#olo". */
  lemma XorBodyCharacters(text: seq<Code>, expected: seq<Code>)
    requires text == Codes(" ") + Codes("dude lol")
    requires expected == Codes("#") + Codes("gvgf#olo")
    ensures XorsToWithThree(text, expected)
  {
    XorCodeThree(32);
    assert XorsToWithThree(Codes(" "), Codes("#"));
    XorDudeLolCharacters(Codes("dude lol"), Codes("gvgf#olo"));
    XorsToWithThreeConcat(Codes(" "), Codes("#"), Codes("dude lol"), Codes("gvgf#olo"));
  }

  /** A first line followed by a body whose characters each Xor with 3 to the
      expected ones: the headed encoder returns the line and then the
      expected body. */
  lemma HeadedXorThree(text: seq<Code>, line: seq<Code>, rest: seq<Code>, expected: seq<Code>)
    requires text == line + rest
    requires |line| > 0 && line[|line| - 1] == '\n' as int && '\n' as int !in line[..|line| - 1]
    requires XorsToWithThree(rest, expected)
    ensures var r := HeadedEncode(Coder(Xor, Scalar(IntKey(3))), Read(Reader(text)), NewWriter());
      ReaderWriter.Get(r.body.writer) == line + expected
  {
    var coder := Coder(Xor, Scalar(IntKey(3)));
    var source := Read(Reader(text));
    var r := HeadedEncode(coder, source, NewWriter());
    HeadedSplit(coder, source, NewWriter());
    HeaderIsFirstLine(coder, source, NewWriter(), line, rest);
    HeadedBody(coder, source, NewWriter());
    assert text[|r.header|..] == rest;
    assert forall i :: 0 <= i < |rest| ==> Expected(coder, rest[i], i) == Ok(expected[i]);
    assert r.body.written == expected;
    GetSingles(r.body.writer, r.header, r.body.written);
  }

  /** "some header \n" ends at its only newline. */
  lemma HeaderLine(line: seq<Code>)
    requires line == Codes("some header \n")
    ensures |line| > 0 && line[|line| - 1] == '\n' as int && '\n' as int !in line[..|line| - 1]
  {
    assert line == [115, 111, 109, 101, 32, 104, 101, 97, 100, 101, 114, 32, 10];
  }

  lemma HeadedTextSplit(text: seq<Code>)
    requires text == Codes("some header \n dude lol")
    ensures text == Codes("some header \n") + (Codes(" ") + Codes("dude lol"))
  {
    CodesConcat("some header \n", " dude lol");
    CodesConcat(" ", "dude lol");
  }

  lemma HeadedOutputSplit(out: seq<Code>)
    requires out == Codes("some header \n#gvgf#olo")
    ensures out == Codes("some header \n") + (Codes("#") + Codes("gvgf#olo"))
  {
    CodesConcat("some header \n", "#gvgf#olo");
    CodesConcat("#", "gvgf#olo");
  }

  /** The header "some header \n" passes through untouched and only the body
      is Xor-encoded with 3, giving "some header \n#gvgf#olo". */
  lemma HeadedExample()
    ensures var r := HeadedEncode(Coder(Xor, Scalar(IntKey(3))), Read(Reader(Codes("some header \n dude lol"))), NewWriter());
      ReaderWriter.Get(r.body.writer) == Codes("some header \n#gvgf#olo")
  {
    var text := Codes("some header \n dude lol");
    var line, rest, expected := Codes("some header \n"), Codes(" ") + Codes("dude lol"), Codes("#") + Codes("gvgf#olo");
    HeadedTextSplit(text);
    HeadedOutputSplit(Codes("some header \n#gvgf#olo"));
    HeaderLine(line);
    XorBodyCharacters(rest, expected);
    HeadedXorThree(text, line, rest, expected);
  }

  /** Cesar on "abc" with the text key "abc", character by character. */
  lemma KeyTextCharacters(text: seq<Code>, items: seq<KeyItem>, expected: seq<Code>)
    requires text == Codes("abc") && expected == Codes("BDF")
    requires items == [CharKey('a'), CharKey('b'), CharKey('c')]
    ensures |text| == |expected|
    ensures forall i :: 0 <= i < |text| ==> ApplyCipher(Cesar, text[i], IntFormat(items[i % |items|])) == Ok(expected[i])
  {
    assert text == [97, 98, 99] && expected == [66, 68, 70];
    assert IntFormat(items[0]) == 97 && IntFormat(items[1]) == 98 && IntFormat(items[2]) == 99;
    NormalizeIsMod(194);
    NormalizeIsMod(196);
    NormalizeIsMod(198);
    forall i | 0 <= i < |text|
      ensures ApplyCipher(Cesar, text[i], IntFormat(items[i % |items|])) == Ok(expected[i])
    {
      assert i % |items| == i;
    }
  }

  /** The key text "abc" applied with Cesar to "abc" gives "BDF": each
      character is shifted by its own code and wraps around the 128-entry
      table. */
  lemma KeyTextExample()
    ensures ReaderWriter.Get(EncodeText(Coder(Cesar, NewIterable([CharKey('a'), CharKey('b'), CharKey('c')])), Codes("abc")).writer)
         == Codes("BDF")
  {
    var text, items := Codes("abc"), [CharKey('a'), CharKey('b'), CharKey('c')];
    KeyTextCharacters(text, items, Codes("BDF"));
    IterableKeyEncoding(Cesar, items, text);
  }

  /** Cesar with 1 on "this works", character by character. */
  lemma ShiftOneCharacters(text: seq<Code>, expected: seq<Code>)
    requires text == Codes("this works") && expected == Codes("uijt!xpslt")
    ensures |text| == |expected|
    ensures forall i :: 0 <= i < |text| ==> CesarCode(text[i], 1) == expected[i]
  {
    assert text == [116, 104, 105, 115, 32, 119, 111, 114, 107, 115];
    assert expected == [117, 105, 106, 116, 33, 120, 112, 115, 108, 116];
  }

  /** "this works" under Cesar gives "uijt!xpslt" both with the scalar key 1
      and with the iterable key 1,1,1. */
  lemma ShiftOneExample(text: seq<Code>, items: seq<KeyItem>)
    requires text == Codes("this works")
    requires items == [IntKey(1), IntKey(1), IntKey(1)]
    ensures ReaderWriter.Get(EncodeText(Coder(Cesar, Scalar(IntKey(1))), text).writer) == Codes("uijt!xpslt")
    ensures ReaderWriter.Get(EncodeText(Coder(Cesar, NewIterable(items)), text).writer) == Codes("uijt!xpslt")
  {
    ShiftOneCharacters(text, Codes("uijt!xpslt"));
    assert forall i :: 0 <= i < |text| ==> IntFormat(items[i % |items|]) == 1;
    ScalarKeyEncoding(Cesar, IntKey(1), text);
    IterableKeyEncoding(Cesar, items, text);
  }
}
