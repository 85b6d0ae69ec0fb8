/**
 The table of printable ASCII codes: space, the digits, the letters and the
 punctuation characters, as code points sorted in ascending order, together
 with its smallest entry, largest entry and size.
 */
module Printables {
  import opened Base

  /** Python's `string.digits`, `string.ascii_letters` and `string.punctuation`. */
  const Digits: string := "0123456789"
  const AsciiLetters: string := "abcdefghijklmnopqrstuvwxyzABCDEFGHIJKLMNOPQRSTUVWXYZ"
  const Punctuation: string := "!\"#$%&'()*+,-./:;<=>?@[\\]^_`{|}~"

  /** The characters in construction order: a space, then the three classes. */
  const PrintableChars: string := " " + Digits + AsciiLetters + Punctuation

  predicate Sorted(s: seq<int>) {
    forall i, j :: 0 <= i < j < |s| ==> s[i] <= s[j]
  }

  /** Insert x into a sorted sequence. */
  function Insert(x: int, s: seq<int>): (r: seq<int>)
    requires Sorted(s)
    ensures Sorted(r)
    ensures multiset(r) == multiset(s) + multiset{x}
    ensures |r| == |s| + 1
    ensures forall i :: 0 <= i < |r| ==> r[i] == x || r[i] in s
  {
    if s == [] || x <= s[0] then [x] + s
    else
      var tail := Insert(x, s[1..]);
      assert s == [s[0]] + s[1..];
      InsertAboveHead(s, tail, x);
      assert multiset([s[0]] + tail) == multiset{s[0]} + multiset(tail);
      [s[0]] + tail
  }

  lemma InsertAboveHead(s: seq<int>, tail: seq<int>, x: int)
    requires Sorted(s) && s != [] && s[0] < x
    requires Sorted(tail)
    requires forall i :: 0 <= i < |tail| ==> tail[i] == x || tail[i] in s[1..]
    ensures Sorted([s[0]] + tail)
  {
    forall i | 0 <= i < |tail| ensures s[0] <= tail[i] {
      if tail[i] != x {
        var k :| 0 <= k < |s[1..]| && s[1..][k] == tail[i];
        assert s[k + 1] == tail[i];
      }
    }
  }

  /** The in-place `list.sort()`, as a function: an ascending permutation. */
  function Sort(s: seq<int>): (r: seq<int>)
    ensures Sorted(r)
    ensures multiset(r) == multiset(s)
    ensures |r| == |s|
  {
    if s == [] then []
    else
      assert s == [s[0]] + s[1..];
      Insert(s[0], Sort(s[1..]))
  }

  /** Two ascending sequences with the same elements are equal, so the table
      does not depend on which sorting algorithm produced it. */
  lemma {:induction false} SortedUnique(a: seq<int>, b: seq<int>)
    requires Sorted(a) && Sorted(b) && multiset(a) == multiset(b)
    ensures a == b
    decreases |a|
  {
    if a != [] {
      assert |b| == |a| by {
        assert |multiset(a)| == |multiset(b)|;
      }
      assert a[0] in multiset(b) && b[0] in multiset(a);
      assert a[0] == b[0];
      assert a == [a[0]] + a[1..] && b == [b[0]] + b[1..];
      assert multiset(a) == multiset{a[0]} + multiset(a[1..]);
      assert multiset(b) == multiset{b[0]} + multiset(b[1..]);
      assert multiset(a[1..]) == multiset(a) - multiset{a[0]};
      assert multiset(b[1..]) == multiset(b) - multiset{b[0]};
      SortedUnique(a[1..], b[1..]);
    } else {
      assert |multiset(b)| == 0;
    }
  }

  /** The integers lo, lo + 1, ..., hi - 1. */
  function Range(lo: int, hi: int): (r: seq<int>)
    requires lo <= hi
  {
    seq(hi - lo, i requires 0 <= i < hi - lo => lo + i)
  }

  const AsciiPrintablesCodes: seq<int> := Sort(Codes(PrintableChars))
  const MinAsciiCode: int := AsciiPrintablesCodes[0]
  const MaxAsciiCode: int := AsciiPrintablesCodes[|AsciiPrintablesCodes| - 1]
  const AsciiCodesTableSize: int := |AsciiPrintablesCodes|

  lemma RangeConcat(lo: int, mid: int, hi: int)
    requires lo <= mid <= hi
    ensures Range(lo, mid) + Range(mid, hi) == Range(lo, hi)
  {
  }

  lemma LetterRuns()
    ensures Codes(AsciiLetters) == Range(97, 123) + Range(65, 91)
  {
    assert AsciiLetters == Lowercase + Uppercase;
    CodesConcat(Lowercase, Uppercase);
    LowercaseRun();
    UppercaseRun();
  }

  const Lowercase: string := "abcdefghijklmnopqrstuvwxyz"
  const Uppercase: string := "ABCDEFGHIJKLMNOPQRSTUVWXYZ"

  lemma LowercaseRun()
    ensures Codes(Lowercase) == Range(97, 123)
  {
  }

  lemma UppercaseRun()
    ensures Codes(Uppercase) == Range(65, 91)
  {
  }

  lemma PunctuationRuns()
    ensures Codes(Punctuation) == Range(33, 48) + Range(58, 65) + Range(91, 97) + Range(123, 127)
  {
    var p1, p2, p3, p4 := "!\"#$%&'()*+,-./", ":;<=>?@", "[\\]^_`", "{|}~";
    assert Punctuation == p1 + p2 + p3 + p4;
    CodesConcat(p1, p2);
    CodesConcat(p1 + p2, p3);
    CodesConcat(p1 + p2 + p3, p4);
    assert Codes(p1) == Range(33, 48);
    assert Codes(p2) == Range(58, 65);
    assert Codes(p3) == Range(91, 97);
    assert Codes(p4) == Range(123, 127);
  }

  /** The construction order, grouped into runs of consecutive codes. */
  lemma PrintableCodesRuns()
    ensures Codes(PrintableChars)
      == [32] + Range(48, 58) + (Range(97, 123) + Range(65, 91))
         + (Range(33, 48) + Range(58, 65) + Range(91, 97) + Range(123, 127))
  {
    LetterRuns();
    PunctuationRuns();
    assert Codes(" ") == [32];
    assert Codes(Digits) == Range(48, 58);
    CodesConcat(" ", Digits);
    CodesConcat(" " + Digits, AsciiLetters);
    CodesConcat(" " + Digits + AsciiLetters, Punctuation);
  }

  /** The table holds exactly the codes 32..126, in ascending order, each once. */
  lemma {:induction false} AsciiPrintablesCodesAreContiguous()
    ensures AsciiPrintablesCodes == Range(32, 127)
  {
    PrintableCodesRuns();
    RangeConcat(32, 33, 48);
    RangeConcat(32, 48, 58);
    RangeConcat(32, 58, 65);
    RangeConcat(32, 65, 91);
    RangeConcat(32, 91, 97);
    RangeConcat(32, 97, 123);
    RangeConcat(32, 123, 127);
    assert [32] == Range(32, 33);
    assert multiset(Codes(PrintableChars)) == multiset(Range(32, 127));
    SortedUnique(AsciiPrintablesCodes, Range(32, 127));
  }

  /** The facts the rest of the program relies on: 95 entries, ascending,
      bounded by the first and last entry, which are 32 and 126. */
  lemma AsciiPrintablesFacts()
    ensures AsciiCodesTableSize == |AsciiPrintablesCodes| == 1 + 10 + 52 + 32
    ensures Sorted(AsciiPrintablesCodes)
    ensures MinAsciiCode == 32 && MaxAsciiCode == 126
    ensures forall c :: c in AsciiPrintablesCodes <==> MinAsciiCode <= c <= MaxAsciiCode
    ensures forall i, j :: 0 <= i < j < |AsciiPrintablesCodes| ==> AsciiPrintablesCodes[i] < AsciiPrintablesCodes[j]
  {
    AsciiPrintablesCodesAreContiguous();
    forall c | MinAsciiCode <= c <= MaxAsciiCode ensures c in AsciiPrintablesCodes {
      assert AsciiPrintablesCodes[c - 32] == c;
    }
  }
}
