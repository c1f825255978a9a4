/** Where the library ends. `init_stats` counts whole hexes only, while
    `next` wraps only after the last page of hex `noOfHexes`: with an odd
    alphabet size the last page of the library lies inside that hex, and
    stepping forward from it reaches a page whose text is longer than a page. */
module LibraryCapacity {
  import opened Wrappers
  import BaseX
  import opened Library
  import LibraryMapping
  import LibraryNavigation

  lemma {:induction false} PowOdd(b: nat, e: nat)
    requires b % 2 == 1
    ensures BaseX.Pow(b, e) % 2 == 1
  {
    if e > 0 {
      PowOdd(b, e - 1);
      OddProduct(b, BaseX.Pow(b, e - 1));
    }
  }

  lemma OddProduct(x: nat, y: nat)
    requires x % 2 == 1 && y % 2 == 1
    ensures (x * y) % 2 == 1
  {
    var p, q := x / 2, y / 2;
    assert x == 2 * p + 1 && y == 2 * q + 1;
    assert x * y == 2 * (2 * p * q + p + q) + 1;
  }

  /** An odd number of pages is never a whole number of hexes, so the last
      page index still falls in hex `noOfHexes`. */
  lemma LastPageHex(pages: nat, hexes: nat)
    requires pages % 2 == 1 && hexes == pages / 262400
    ensures pages >= 1 && pages % 262400 != 0
    ensures (pages - 1) / 262400 == hexes && (pages - 1) % 262400 != 262399
  {
    var r := pages % 262400;
    assert pages == hexes * 262400 + r;
    assert hexes * 262400 == 2 * (hexes * 131200);
    assert r % 2 == 1;
    BaseX.DivMod(hexes, 262400, r - 1);
  }

  /** The number of pages has one more digit than a page has characters. */
  lemma {:induction false} EncodedPowLength(alphabet: string, e: nat)
    requires |alphabet| >= 2
    ensures |BaseX.Digits(alphabet, BaseX.Pow(|alphabet|, e))| == e + 1
  {
    var b := |alphabet|;
    if e > 0 {
      EncodedPowLength(alphabet, e - 1);
      var p := BaseX.Pow(b, e - 1);
      assert BaseX.Pow(b, e) == p * b + 0;
      BaseX.DivMod(p, b, 0);
      PowPositive(b, e);
    } else {
      BaseX.DivMod(0, b, 1);
    }
  }

  lemma {:induction false} PowPositive(b: nat, e: nat)
    requires b >= 1
    ensures BaseX.Pow(b, e) >= 1
  {
    if e > 0 {
      PowPositive(b, e - 1);
      BaseX.MulAtLeast(b, BaseX.Pow(b, e - 1));
    }
  }

  /** A location at the end of its hex has index 262399 modulo the pages of a hex. */
  lemma HexEndIndex(lib: Library, l: Loc, h: nat)
    requires lib.InBounds(l)
    ensures LibraryNavigation.AtHexEnd(lib, l) ==> lib.PageIndex(h, l) % 262400 == 262399
  {
    LibraryMapping.Layout(lib);
    if LibraryNavigation.AtHexEnd(lib, l) {
      var c, top := LibraryNavigation.Counters(l), LibraryNavigation.Maxima(lib);
      assert c[0] >= top[0] && c[1] >= top[1] && c[2] >= top[2] && c[3] >= top[3];
      assert lib.PageIndex(h, l) == h * 262400 + 262399;
      BaseX.DivMod(h, 262400, 262399);
    }
  }

  /** The location of an index that is not the last of its hex is in
      bounds with a canonical hex id, and not at the end of its hex. */
  lemma InsideHex(lib: Library, n: nat)
    requires lib.Standard() && n % 262400 != 262399
    ensures var l := lib.LocationOfIndex(n);
            lib.InBounds(l) && BaseX.Canonical(lib.hexAlphabet, l.hexId)
            && lib.PageLocation(l) == Success(n)
            && !LibraryNavigation.AtHexEnd(lib, l)
  {
    var l := lib.LocationOfIndex(n);
    LibraryMapping.LocationOfIndexInverse(lib, n);
    BaseX.DecodeEncode(lib.hexAlphabet, n / 262400);
    HexEndIndex(lib, l, n / 262400);
  }

  /** The location of the library's last page is in bounds with a canonical
      hex id, and is not at the end of its hex. */
  lemma LastPageLocation(lib: Library)
    requires lib.Standard() && lib.StatsInitialised() && |lib.alphabet| % 2 == 1
    ensures lib.NoOfPages() >= 1 && (lib.NoOfPages() - 1) % 262400 != 262399
    ensures var l := lib.LocationOfIndex(lib.NoOfPages() - 1);
            lib.InBounds(l) && BaseX.Canonical(lib.hexAlphabet, l.hexId)
            && lib.PageLocation(l) == Success(lib.NoOfPages() - 1)
            && !LibraryNavigation.AtHexEnd(lib, l)
  {
    LastIndexInsideHex(lib);
    InsideHex(lib, lib.NoOfPages() - 1);
  }

  /** With an odd alphabet size the last page index is not the last of its hex. */
  lemma LastIndexInsideHex(lib: Library)
    requires lib.StatsInitialised() && |lib.alphabet| % 2 == 1
    ensures lib.NoOfPages() >= 1 && (lib.NoOfPages() - 1) % 262400 != 262399
  {
    PowOdd(|lib.alphabet|, 3200);
    LibraryMapping.Layout(lib);
    LastPageHex(lib.NoOfPages(), lib.noOfHexes);
  }

  /** From an index n that is not the last of its hex, `next` reaches the
      following index k, whose text is k encoded. */
  lemma NextInsideHex(lib: Library, n: nat, k: nat)
    requires lib.Standard() && n % 262400 != 262399 && k == n + 1
    ensures var l := lib.LocationOfIndex(n);
            lib.NextLocation(l).Success?
            && var m := lib.NextLocation(l).value;
            lib.PageLocation(m) == Success(k)
            && lib.GetTextFromLocation(m) == Success(BaseX.Encoded(lib.alphabet, k))
  {
    InsideHex(lib, n);
    LibraryNavigation.NextIndex(lib, lib.LocationOfIndex(n));
  }

  /** The number of pages, encoded, is one character longer than a page. */
  lemma PagesTextLength(lib: Library)
    requires lib.Encodable()
    ensures lib.NoOfPages() >= 1
    ensures |BaseX.Encoded(lib.alphabet, lib.NoOfPages())| == lib.Topology().charsPerPage + 1
  {
    PowPositive(|lib.alphabet|, 3200);
    EncodedPowLength(lib.alphabet, 3200);
  }

  /** The step from index n to index k, with the length of k's text. */
  lemma NextToLongText(lib: Library, n: nat, k: nat, len: nat)
    requires lib.Standard() && n % 262400 != 262399 && k == n + 1
    requires |BaseX.Encoded(lib.alphabet, k)| == len
    ensures var l := lib.LocationOfIndex(n);
            lib.NextLocation(l).Success?
            && var m := lib.NextLocation(l).value;
            lib.PageLocation(m) == Success(k)
            && lib.GetTextFromLocation(m).Success?
            && |lib.GetTextFromLocation(m).value| == len
  {
    NextInsideHex(lib, n, k);
  }

  /** With an odd alphabet size (29 by default), the last page of the library,
      index pages - 1, is not followed by the wrap: `next` moves from it to
      index pages, whose text has charsPerPage + 1 characters. */
  lemma NextPastLastPage(lib: Library)
    requires lib.Standard() && lib.StatsInitialised() && |lib.alphabet| % 2 == 1
    ensures lib.NoOfPages() >= 1
    ensures var l := lib.LocationOfIndex(lib.NoOfPages() - 1);
            lib.NextLocation(l).Success?
            && var m := lib.NextLocation(l).value;
            lib.PageLocation(m) == Success(lib.NoOfPages())
            && lib.GetTextFromLocation(m).Success?
            && |lib.GetTextFromLocation(m).value| == lib.Topology().charsPerPage + 1
  {
    LastIndexInsideHex(lib);
    PagesTextLength(lib);
    NextToLongText(lib, lib.NoOfPages() - 1, lib.NoOfPages(), lib.Topology().charsPerPage + 1);
  }

  lemma {:induction false} PowMonotone(b: nat, e: nat, f: nat)
    requires b >= 1 && e <= f
    ensures BaseX.Pow(b, e) <= BaseX.Pow(b, f)
  {
    if e < f {
      PowMonotone(b, e, f - 1);
      PowPositive(b, f - 1);
      BaseX.MulAtLeast(b, BaseX.Pow(b, f - 1));
      assert BaseX.Pow(b, f) == b * BaseX.Pow(b, f - 1);
    }
  }

  /** A number at least base^e has more than e digits. */
  lemma LongEncoding(alphabet: string, n: nat, e: nat)
    requires |alphabet| >= 2 && BaseX.Distinct(alphabet) && n >= BaseX.Pow(|alphabet|, e)
    ensures |BaseX.Encoded(alphabet, n)| > e
  {
    var s := BaseX.Encoded(alphabet, n);
    BaseX.DecodeEncode(alphabet, n);
    BaseX.ValueBound(alphabet, s);
    if |s| <= e {
      PowMonotone(|alphabet|, |s|, e);
    }
  }

  /** The end of hex `hexes`, the hex count, is not below the page count. */
  lemma HexEndPastPages(pages: nat, hexes: nat, i: int)
    requires hexes == pages / 262400 && i == hexes * 262400 + 262399
    ensures i >= pages
  {
    assert pages == hexes * 262400 + pages % 262400;
  }

  /** The corrected `previous` from the first page wraps to the end of hex
      `noOfHexes`, whose index is at least the number of pages: that location
      is not a page of the library, and its text is longer than a page. */
  lemma PreviousPastLastPage(lib: Library)
    requires lib.Standard() && lib.StatsInitialised()
    ensures lib.PreviousLocation(LibraryNavigation.First()) == Success(LibraryNavigation.Last(lib))
    ensures var i := lib.noOfHexes * 262400 + 262399;
            lib.PageLocation(LibraryNavigation.Last(lib)) == Success(i) && i >= lib.NoOfPages()
            && lib.GetTextFromLocation(LibraryNavigation.Last(lib)) == Success(BaseX.Encoded(lib.alphabet, i))
            && |BaseX.Encoded(lib.alphabet, i)| > lib.Topology().charsPerPage
  {
    var i := lib.noOfHexes * 262400 + 262399;
    WrapTarget(lib, i);
    PastPages(lib, i);
  }

  /** The corrected `previous` from the first page reaches the end of hex
      `noOfHexes`, at index i, with the text of i. */
  lemma WrapTarget(lib: Library, i: int)
    requires lib.Standard() && i == lib.noOfHexes * 262400 + 262399
    ensures lib.PreviousLocation(LibraryNavigation.First()) == Success(LibraryNavigation.Last(lib))
    ensures lib.PageLocation(LibraryNavigation.Last(lib)) == Success(i)
    ensures lib.GetTextFromLocation(LibraryNavigation.Last(lib)) == Success(BaseX.Encoded(lib.alphabet, i))
  {
    LibraryNavigation.NextPreviousWrap(lib);
    LastIndex(lib, i);
    TextOfIndex(lib, LibraryNavigation.Last(lib), i);
  }

  lemma LastIndex(lib: Library, i: int)
    requires lib.Standard() && i == lib.noOfHexes * 262400 + 262399
    ensures lib.PageLocation(LibraryNavigation.Last(lib)) == Success(i)
  {
    LibraryNavigation.IndexOfHexEnd(lib, LibraryNavigation.Last(lib), lib.noOfHexes);
  }

  /** A location of index i has the text of i. */
  lemma TextOfIndex(lib: Library, l: Loc, i: int)
    requires lib.Encodable() && lib.PageLocation(l) == Success(i) && i >= 0
    ensures lib.GetTextFromLocation(l) == Success(BaseX.Encoded(lib.alphabet, i))
  {
  }

  /** The index of the end of hex `noOfHexes` is not below the page count,
      and its text is longer than a page. */
  lemma PastPages(lib: Library, i: int)
    requires lib.Standard() && lib.StatsInitialised() && i == lib.noOfHexes * 262400 + 262399
    ensures i >= lib.NoOfPages() && |BaseX.Encoded(lib.alphabet, i)| > lib.Topology().charsPerPage
  {
    LibraryMapping.Layout(lib);
    HexEndPastPages(lib.NoOfPages(), lib.noOfHexes, i);
    LongEncoding(lib.alphabet, i, 3200);
  }
}
