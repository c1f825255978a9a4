/** Properties of the input validators: `normalise_text`, which filters a
    search text down to the page-text alphabet, and `test_bound`, which the
    interactive shell applies to every id it reads. */
module LibraryValidators {
  import opened Wrappers
  import BaseX
  import opened Library
  import LibraryMapping

  /** Normalising keeps every occurrence of an alphabet symbol and drops
      every occurrence of any other character. */
  lemma {:induction false} NormalisedCounts(alphabet: string, text: string, c: char)
    ensures multiset(Normalised(alphabet, text))[c]
            == if c in alphabet then multiset(text)[c] else 0
  {
    if text != [] {
      var init, last := text[..|text| - 1], text[|text| - 1];
      NormalisedCounts(alphabet, init, c);
      assert text == init + [last];
      assert multiset(text) == multiset(init) + multiset{last};
    }
  }

  /** Normalising distributes over concatenation, so it keeps the order of
      the characters it keeps. */
  lemma {:induction false} NormalisedConcat(alphabet: string, u: string, v: string)
    ensures Normalised(alphabet, u + v) == Normalised(alphabet, u) + Normalised(alphabet, v)
  {
    if v != [] {
      var init, last := v[..|v| - 1], v[|v| - 1];
      assert u + v == (u + init) + [last];
      assert (u + v)[..|u + v| - 1] == u + init;
      NormalisedConcat(alphabet, u, init);
    } else {
      assert u + v == u;
    }
  }

  /** A normalised text holds only symbols of the alphabet. */
  lemma {:induction false} NormalisedValid(alphabet: string, text: string)
    ensures BaseX.Valid(alphabet, Normalised(alphabet, text))
  {
    if text != [] {
      NormalisedValid(alphabet, text[..|text| - 1]);
    }
  }

  /** A text over the alphabet is left as it is. */
  lemma {:induction false} NormalisedIdentity(alphabet: string, text: string)
    requires BaseX.Valid(alphabet, text)
    ensures Normalised(alphabet, text) == text
  {
    if text != [] {
      var init := text[..|text| - 1];
      assert BaseX.Valid(alphabet, init) by {
        forall i | 0 <= i < |init| ensures init[i] in alphabet {
          assert init[i] == text[i];
        }
      }
      NormalisedIdentity(alphabet, init);
      assert text == init + [text[|text| - 1]];
    }
  }

  /** Normalising twice is normalising once. */
  lemma NormalisedIdempotent(alphabet: string, text: string)
    ensures Normalised(alphabet, Normalised(alphabet, text)) == Normalised(alphabet, text)
  {
    NormalisedValid(alphabet, text);
    NormalisedIdentity(alphabet, Normalised(alphabet, text));
  }

  /** A search on normalised text always finds a location: no KeyError. */
  lemma SearchNeverFails(lib: Library, text: string)
    requires lib.Encodable() && BaseX.Distinct(lib.hexAlphabet)
    ensures lib.GetLocationFromText(Normalised(lib.alphabet, text)).Success?
  {
    NormalisedValid(lib.alphabet, text);
    LibraryMapping.LocationFromText(lib, Normalised(lib.alphabet, text));
  }

  /** The bounds the shell checks with `test_bound` (4 walls, 5 shelves,
      32 books, 410 pages) are exactly the bounds of `InBounds`. */
  lemma InBoundsByTestBound(lib: Library, l: Loc)
    ensures lib.InBounds(l)
            <==> TestBound(l.wallId, 4) && TestBound(l.shelveId, 5)
                 && TestBound(l.bookId, 32) && TestBound(l.pageId, 410)
  {
    LibraryMapping.Layout(lib);
  }

  /** Every location found by a search passes the shell's id checks. */
  lemma SearchResultPassesTestBound(lib: Library, text: string)
    requires lib.Encodable() && BaseX.Distinct(lib.hexAlphabet)
    requires lib.GetLocationFromText(text).Success?
    ensures var l := lib.GetLocationFromText(text).value;
            TestBound(l.wallId, 4) && TestBound(l.shelveId, 5)
            && TestBound(l.bookId, 32) && TestBound(l.pageId, 410)
  {
    LibraryMapping.LocationFromText(lib, text);
    InBoundsByTestBound(lib, lib.GetLocationFromText(text).value);
  }
}
