/** The default library: its two alphabets are standard, and a few concrete
    encodings, look-ups and steps. */
module LibraryExamples {
  import opened Wrappers
  import BaseX
  import opened Library
  import LibraryMapping

  /** Each symbol is smaller than the next one. */
  predicate Increasing(s: string)
  {
    forall i | 0 <= i < |s| - 1 :: s[i] < s[i + 1]
  }

  lemma {:induction false} IncreasingLess(s: string, i: nat, j: nat)
    requires Increasing(s) && i < j < |s|
    ensures s[i] < s[j]
    decreases j - i
  {
    if i + 1 < j {
      IncreasingLess(s, i + 1, j);
    }
  }

  /** A strictly increasing string has no repeated symbol. */
  lemma IncreasingDistinct(s: string)
    requires Increasing(s)
    ensures BaseX.Distinct(s)
  {
    forall i, j | 0 <= i < j < |s|
      ensures s[i] != s[j]
    {
      IncreasingLess(s, i, j);
    }
  }

  /** Two strings without repeats, each symbol of the first above a bound
      every symbol of the second lies below, join without repeats. */
  lemma DistinctJoin(u: string, v: string, bound: char)
    requires BaseX.Distinct(u) && BaseX.Distinct(v)
    requires forall i | 0 <= i < |u| :: u[i] >= bound
    requires forall j | 0 <= j < |v| :: v[j] < bound
    ensures BaseX.Distinct(u + v)
  {
    var w := u + v;
    forall i, j | 0 <= i < j < |w|
      ensures w[i] != w[j]
    {
      if j < |u| {
        assert w[i] == u[i] && w[j] == u[j];
      } else if i >= |u| {
        assert w[i] == v[i - |u|] && w[j] == v[j - |u|];
      } else {
        assert w[i] == u[i] && w[j] == v[j - |u|];
      }
    }
  }

  /** The letters of the page-text alphabet are distinct and at least 'a'. */
  lemma TextLetters()
    ensures |TextAlphabet| == 29
    ensures var u := TextAlphabet[..26];
            BaseX.Distinct(u) && forall i | 0 <= i < |u| :: u[i] >= 'a'
  {
    var u := TextAlphabet[..26];
    assert u == "abcdefghijklmnopqrstuvwxyz";
    assert Increasing(u);
    IncreasingDistinct(u);
    forall i | 0 <= i < |u|
      ensures u[i] >= 'a'
    {
      if i > 0 {
        IncreasingLess(u, 0, i);
      }
    }
  }

  /** The punctuation of the page-text alphabet is distinct and below 'a'. */
  lemma TextPunctuation()
    ensures var v := TextAlphabet[26..];
            BaseX.Distinct(v) && forall j | 0 <= j < |v| :: v[j] < 'a'
  {
    var v := TextAlphabet[26..];
    assert v == " ,.";
  }

  /** The page-text alphabet has 29 distinct symbols. */
  lemma TextAlphabetDistinct()
    ensures |TextAlphabet| == 29 && BaseX.Distinct(TextAlphabet)
  {
    TextLetters();
    TextPunctuation();
    DistinctJoin(TextAlphabet[..26], TextAlphabet[26..], 'a');
    assert TextAlphabet == TextAlphabet[..26] + TextAlphabet[26..];
  }

  /** The hex alphabet has 36 distinct symbols and '0' as its zero digit. */
  lemma HexAlphabetDistinct()
    ensures |HexAlphabet| == 36 && BaseX.Distinct(HexAlphabet) && HexAlphabet[0] == '0'
  {
    assert Increasing(HexAlphabet);
    IncreasingDistinct(HexAlphabet);
  }

  /** The library with the default alphabets is standard. */
  lemma DefaultStandard(lib: Library)
    requires lib.alphabet == TextAlphabet && lib.hexAlphabet == HexAlphabet
    ensures lib.Standard()
  {
    TextAlphabetDistinct();
    HexAlphabetDistinct();
  }

  /** In an alphabet without repeats, the symbol at position i is the digit i. */
  lemma DigitCode(alphabet: string, i: nat)
    requires BaseX.Distinct(alphabet) && i < |alphabet|
    ensures BaseX.Decoded(alphabet, [alphabet[i]]) == Some(i)
  {
    BaseX.DistinctDict(alphabet);
    BaseX.ValueSingle(alphabet, alphabet[i]);
  }

  /** Two symbols are the digits of a two-place number. */
  lemma TwoDigitCode(alphabet: string, i: nat, j: nat)
    requires BaseX.Distinct(alphabet) && i < |alphabet| && j < |alphabet|
    ensures BaseX.Decoded(alphabet, [alphabet[i], alphabet[j]]) == Some(i * |alphabet| + j)
  {
    var s := [alphabet[i], alphabet[j]];
    assert s[..1] == [alphabet[i]];
    DigitCode(alphabet, i);
    BaseX.DistinctDict(alphabet);
    assert BaseX.Dict(alphabet)[s[1]] == j;
    assert BaseX.Valid(alphabet, s);
    TwoDigitValue(alphabet, s, i, j, i * |alphabet| + j);
  }

  lemma TwoDigitValue(alphabet: string, s: string, i: nat, j: nat, n: int)
    requires |s| == 2 && BaseX.Valid(alphabet, s) && BaseX.Radix(alphabet) == |alphabet|
    requires BaseX.Value(alphabet, s[..1]) == i && BaseX.Dict(alphabet)[s[1]] == j
    requires n == i * |alphabet| + j
    ensures BaseX.Decoded(alphabet, s) == Some(n)
  {
    assert s[..|s| - 1] == s[..1];

  }

  /** Hex ids in any hex alphabet that starts like the default one:
      "0" is 0, "z" is 35, "10" is 36. */
  lemma HexCodes(hex: string)
    requires BaseX.Distinct(hex) && |hex| == 36
    requires hex[0] == '0' && hex[1] == '1' && hex[35] == 'z'
    ensures BaseX.Decoded(hex, "0") == Some(0)
    ensures BaseX.Decoded(hex, "z") == Some(35)
    ensures BaseX.Decoded(hex, "10") == Some(36)
    ensures BaseX.Encoded(hex, 36) == "10"
  {
    DigitCode(hex, 0);
    DigitCode(hex, 35);
    TwoDigitCode(hex, 1, 0);
    assert "10" == [hex[1], hex[0]];
    BaseX.EncodeDecode(hex, "10");
  }

  /** The default alphabets have the shape the examples below rely on. */
  lemma DefaultShape()
    ensures BaseX.Distinct(HexAlphabet) && |HexAlphabet| == 36
    ensures HexAlphabet[0] == '0' && HexAlphabet[1] == '1' && HexAlphabet[35] == 'z'
    ensures BaseX.Distinct(TextAlphabet) && |TextAlphabet| == 29
    ensures TextAlphabet[0] == 'a' && TextAlphabet[1] == 'b'
  {
    HexAlphabetDistinct();
    TextAlphabetDistinct();
  }

  /** The first location is page 0. */
  lemma FirstPageIndex(lib: Library)
    requires lib.Standard()
    ensures lib.PageLocation(Loc("0", 1, 1, 1, 1)) == Success(0)
  {
    LibraryMapping.Layout(lib);
    DigitCode(lib.hexAlphabet, 0);
    assert "0" == [lib.hexAlphabet[0]];
  }

  /** The first location holds page "a". */
  lemma FirstPageText(lib: Library)
    requires lib.Standard() && lib.alphabet[0] == 'a'
    ensures lib.PageLocation(Loc("0", 1, 1, 1, 1)) == Success(0)
    ensures lib.GetTextFromLocation(Loc("0", 1, 1, 1, 1)) == Success("a")
  {
    FirstPageIndex(lib);
    assert BaseX.Encoded(lib.alphabet, 0) == "a";
  }

  /** The text "b" is found on the second page of the first book. */
  lemma SecondPageLocation(lib: Library)
    requires lib.Standard() && lib.alphabet[1] == 'b'
    ensures lib.GetLocationFromText("b") == Success(Loc("0", 1, 1, 1, 2))
  {
    DigitCode(lib.alphabet, 1);
    assert "b" == [lib.alphabet[1]];
    SecondPage(lib);
  }

  /** Page index 1 is the second page of the first book. */
  lemma SecondPage(lib: Library)
    requires lib.Standard()
    ensures lib.LocationOfIndex(1) == Loc("0", 1, 1, 1, 2)
  {
    LibraryMapping.Layout(lib);
    assert BaseX.Encoded(lib.hexAlphabet, 0) == "0";
  }

  /** Stepping forward from the last page of the first book opens the next
      book; stepping back returns to it. */
  lemma NextBook(lib: Library)
    requires lib.Encodable()
    ensures lib.NextLocation(Loc("0", 1, 1, 1, 410)) == Success(Loc("0", 1, 1, 2, 1))
    ensures lib.PreviousLocation(Loc("0", 1, 1, 2, 1)) == Success(Loc("0", 1, 1, 1, 410))
  {
    LibraryMapping.Layout(lib);
  }

  /** Stepping forward from the last page of hex "z" opens hex "10". */
  lemma NextHex(lib: Library)
    requires lib.Standard() && |lib.hexAlphabet| == 36
    requires lib.hexAlphabet[1] == '1' && lib.hexAlphabet[35] == 'z'
    requires lib.noOfHexes > 35
    ensures lib.NextLocation(Loc("z", 4, 5, 32, 410)) == Success(Loc("10", 1, 1, 1, 1))
  {
    LibraryMapping.Layout(lib);
    HexCodes(lib.hexAlphabet);
  }
}
