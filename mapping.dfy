/** Properties of the mapping between page text, global page index and
    location: bounds of the decomposition and both round trips. */
module LibraryMapping {
  import opened Wrappers
  import BaseX
  import opened Library

  /** The capacities every library uses, whatever its alphabet. */
  lemma Layout(lib: Library)
    ensures lib.Topology().pagesPerBook == 410 && lib.Topology().booksPerShelve == 32
    ensures lib.Topology().shelvesPerWall == 5 && lib.Topology().wallsPerHex == 4
    ensures lib.Topology().PagesPerShelve() == 13120 && lib.Topology().PagesPerWall() == 65600
    ensures lib.Topology().PagesPerHex() == 262400
  {
  }

  /** Successive div/mod by the per-level page counts recovers the index
      as a weighted sum whose lower digits are within their capacities. */
  lemma SplitIndex(n: nat)
    ensures var hr := n % 262400; var wr := hr % 65600; var sr := wr % 13120;
            n == (n / 262400) * 262400 + (hr / 65600) * 65600 + (wr / 13120) * 13120
                 + (sr / 410) * 410 + sr % 410
            && hr / 65600 < 4 && wr / 13120 < 5 && sr / 410 < 32 && sr % 410 < 410
  {
    var hr := n % 262400;
    var wr := hr % 65600;
    var sr := wr % 13120;
    assert n == (n / 262400) * 262400 + hr;
    assert hr == (hr / 65600) * 65600 + wr;
    assert wr == (wr / 13120) * 13120 + sr;
    assert sr == (sr / 410) * 410 + sr % 410;
  }

  /** A weighted sum with in-range lower digits splits back into those digits. */
  lemma JoinIndex(h: nat, w: nat, s: nat, b: nat, p: nat)
    requires w < 4 && s < 5 && b < 32 && p < 410
    ensures var n := h * 262400 + w * 65600 + s * 13120 + b * 410 + p;
            var hr := n % 262400; var wr := hr % 65600; var sr := wr % 13120;
            n / 262400 == h && hr / 65600 == w && wr / 13120 == s && sr / 410 == b && sr % 410 == p
  {
    var sr := b * 410 + p;
    var wr := s * 13120 + sr;
    var hr := w * 65600 + wr;
    BaseX.DivMod(b, 410, p);
    BaseX.DivMod(s, 13120, sr);
    BaseX.DivMod(w, 65600, wr);
    BaseX.DivMod(h, 262400, hr);
  }

  /** Index round trip: the location of any index is in bounds, its hex id
      is the canonical encoding of index div pages-per-hex, and its weighted
      sum is the index again. */
  lemma LocationOfIndexInverse(lib: Library, n: nat)
    requires lib.Encodable() && BaseX.Distinct(lib.hexAlphabet)
    ensures var l := lib.LocationOfIndex(n);
            lib.InBounds(l) && l.hexId == BaseX.Encoded(lib.hexAlphabet, n / 262400)
            && BaseX.Canonical(lib.hexAlphabet, l.hexId)
            && lib.PageLocation(l) == Success(n)
  {
    Layout(lib);
    SplitIndex(n);
    BaseX.DecodeEncode(lib.hexAlphabet, n / 262400);
    BaseX.EncodedCanonical(lib.hexAlphabet, n / 262400);
  }

  /** `get_location_from_text` fails exactly on text with a symbol outside the
      page-text alphabet; otherwise its ids are within their bounds, its hex
      id is canonical, and its weighted sum is the text's decoded value. */
  lemma LocationFromText(lib: Library, text: string)
    requires lib.Encodable() && BaseX.Distinct(lib.hexAlphabet)
    ensures lib.GetLocationFromText(text).Failure? <==> !BaseX.Valid(lib.alphabet, text)
    ensures lib.GetLocationFromText(text).Success? ==>
              var l := lib.GetLocationFromText(text).value;
              lib.InBounds(l) && BaseX.Canonical(lib.hexAlphabet, l.hexId)
              && lib.PageLocation(l) == Success(BaseX.Value(lib.alphabet, text))
  {
    if BaseX.Valid(lib.alphabet, text) {
      LocationOfIndexInverse(lib, BaseX.Value(lib.alphabet, text));
    }
  }

  /** Text round trip: a canonical page text maps to a location whose text
      is that page text again. */
  lemma TextRoundTrip(lib: Library, text: string)
    requires lib.Encodable() && BaseX.Distinct(lib.alphabet) && BaseX.Distinct(lib.hexAlphabet)
    requires BaseX.Canonical(lib.alphabet, text)
    ensures lib.GetLocationFromText(text).Success?
    ensures var l := lib.GetLocationFromText(text).value;
            lib.PageLocation(l).Success? && lib.PageLocation(l).value >= 0
            && lib.GetTextFromLocation(l) == Success(text)
  {
    BaseX.EncodeDecode(lib.alphabet, text);
    LocationFromText(lib, text);
  }

  /** A leading first symbol does not change the page a text is found on. */
  lemma LeadingFirstSymbol(lib: Library, text: string)
    requires lib.Encodable() && BaseX.Distinct(lib.alphabet) && BaseX.Valid(lib.alphabet, text)
    ensures lib.GetLocationFromText([lib.alphabet[0]] + text) == lib.GetLocationFromText(text)
  {
    BaseX.LeadingZero(lib.alphabet, text);
  }

  /** The index of an in-bounds location with a canonical hex id splits
      back into that location. */
  lemma IndexRoundTrip(lib: Library, l: Loc)
    requires lib.Encodable() && BaseX.Distinct(lib.hexAlphabet)
    requires lib.InBounds(l) && BaseX.Canonical(lib.hexAlphabet, l.hexId)
    ensures lib.PageLocation(l).Success? && lib.PageLocation(l).value >= 0
    ensures lib.LocationOfIndex(lib.PageLocation(l).value) == l
  {
    Layout(lib);
    BaseX.EncodeDecode(lib.hexAlphabet, l.hexId);
    JoinIndex(BaseX.Value(lib.hexAlphabet, l.hexId), l.wallId - 1, l.shelveId - 1, l.bookId - 1, l.pageId - 1);
  }

  /** Location round trip: an in-bounds location with a canonical hex id
      maps to a page text that maps back to the same location. */
  lemma LocationRoundTrip(lib: Library, l: Loc)
    requires lib.Encodable() && BaseX.Distinct(lib.alphabet) && BaseX.Distinct(lib.hexAlphabet)
    requires lib.InBounds(l) && BaseX.Canonical(lib.hexAlphabet, l.hexId)
    ensures lib.PageLocation(l).Success? && lib.PageLocation(l).value >= 0
    ensures lib.GetTextFromLocation(l).Success?
    ensures lib.GetLocationFromText(lib.GetTextFromLocation(l).value) == Success(l)
  {
    IndexRoundTrip(lib, l);
    BaseX.DecodeEncode(lib.alphabet, lib.PageLocation(l).value);
  }

  /** `get_text_from_location` fails exactly on a hex id with a symbol
      outside the hex alphabet. */
  lemma TextFromLocationFails(lib: Library, l: Loc)
    requires lib.Encodable() && lib.InBounds(l)
    ensures lib.PageLocation(l).Success? ==> lib.PageLocation(l).value >= 0
    ensures lib.GetTextFromLocation(l).Failure? <==> !BaseX.Valid(lib.hexAlphabet, l.hexId)
  {
    Layout(lib);
  }
}
