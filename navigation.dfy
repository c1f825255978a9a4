/** Properties of stepping a location one page forward (`next`) or back
    (`previous`): the carry and borrow rules, the effect on the global page
    index, and that the two steps undo each other. */
module LibraryNavigation {
  import opened Wrappers
  import BaseX
  import opened Library
  import LibraryMapping

  /** The four counters below the hex level, lowest first. */
  function Counters(l: Loc): seq<int>
  {
    [l.pageId, l.bookId, l.shelveId, l.wallId]
  }

  /** The maximum of each counter, lowest first. */
  function Maxima(lib: Library): seq<int>
  {
    var t := lib.Topology();
    [t.pagesPerBook, t.booksPerShelve, t.shelvesPerWall, t.wallsPerHex]
  }

  /** No counter below the hex level can be incremented any more: `next`
      reaches its hex-level branches. */
  predicate AtHexEnd(lib: Library, l: Loc)
  {
    var t := lib.Topology();
    l.pageId >= t.pagesPerBook && l.bookId >= t.booksPerShelve
    && l.shelveId >= t.shelvesPerWall && l.wallId >= t.wallsPerHex
  }

  /** No counter below the hex level can be decremented any more: `previous`
      reaches its hex-level branches. */
  predicate AtHexStart(l: Loc)
  {
    l.pageId <= 1 && l.bookId <= 1 && l.shelveId <= 1 && l.wallId <= 1
  }

  /** The first location of the library. */
  function First(): Loc
  {
    Loc("0", 1, 1, 1, 1)
  }

  /** The location `previous` wraps to from the first page: the last hex with
      every counter at its maximum. */
  function Last(lib: Library): Loc
    requires lib.Encodable()
  {
    Loc(BaseX.Encoded(lib.hexAlphabet, lib.noOfHexes), 4, 5, 32, 410)
  }

  /** Carry rule of `next`: when counter k is the lowest one below its
      maximum, it goes up by one, the counters below it restart at 1, and the
      counters above it and the hex id stay as they were. */
  lemma NextCarry(lib: Library, l: Loc, k: nat)
    requires lib.Encodable() && k < 4
    requires forall j | 0 <= j < k :: Counters(l)[j] >= Maxima(lib)[j]
    requires Counters(l)[k] < Maxima(lib)[k]
    ensures lib.NextLocation(l).Success?
    ensures var c := Counters(lib.NextLocation(l).value);
            lib.NextLocation(l).value.hexId == l.hexId
            && c[k] == Counters(l)[k] + 1
            && (forall j | 0 <= j < k :: c[j] == 1)
            && (forall j | k < j < 4 :: c[j] == Counters(l)[j])
  {
    assert k > 0 ==> Counters(l)[0] >= Maxima(lib)[0];
    assert k > 1 ==> Counters(l)[1] >= Maxima(lib)[1];
    assert k > 2 ==> Counters(l)[2] >= Maxima(lib)[2];
  }

  /** Carry at the hex level: with every counter at its maximum, the hex
      ordinal goes up by one (re-encoded, so canonical) while it is below
      `noOfHexes`, and the location wraps to the first one otherwise; a hex id
      that does not decode makes `next` fail. */
  lemma NextHexCarry(lib: Library, l: Loc)
    requires lib.Encodable() && AtHexEnd(lib, l)
    ensures BaseX.Decoded(lib.hexAlphabet, l.hexId).None? ==>
              lib.NextLocation(l) == Failure(UnknownSymbol)
    ensures BaseX.Decoded(lib.hexAlphabet, l.hexId).Some? ==>
              var h := BaseX.Decoded(lib.hexAlphabet, l.hexId).value;
              lib.NextLocation(l)
              == if h < lib.noOfHexes then Success(Loc(BaseX.Encoded(lib.hexAlphabet, h + 1), 1, 1, 1, 1))
                 else Success(First())
  {
  }

  /** `next` fails exactly when it has to decode a hex id that holds a symbol
      outside the hex alphabet. */
  lemma NextFailure(lib: Library, l: Loc)
    requires lib.Encodable()
    ensures lib.NextLocation(l).Failure?
            <==> AtHexEnd(lib, l) && !BaseX.Valid(lib.hexAlphabet, l.hexId)
  {
    if AtHexEnd(lib, l) {
      NextHexCarry(lib, l);
    }
  }

  /** Borrow rule of `previous`: when counter k is the lowest one above 1, it
      goes down by one, the counters below it are set to their maxima, and
      the counters above it and the hex id stay as they were. */
  lemma PreviousBorrow(lib: Library, l: Loc, k: nat)
    requires lib.Encodable() && k < 4
    requires forall j | 0 <= j < k :: Counters(l)[j] <= 1
    requires Counters(l)[k] > 1
    ensures lib.PreviousLocation(l).Success?
    ensures var c := Counters(lib.PreviousLocation(l).value);
            lib.PreviousLocation(l).value.hexId == l.hexId
            && c[k] == Counters(l)[k] - 1
            && (forall j | 0 <= j < k :: c[j] == Maxima(lib)[j])
            && (forall j | k < j < 4 :: c[j] == Counters(l)[j])
  {
    assert k > 0 ==> Counters(l)[0] <= 1;
    assert k > 1 ==> Counters(l)[1] <= 1;
    assert k > 2 ==> Counters(l)[2] <= 1;
  }

  /** Borrow at the hex level: with every counter at 1, the hex ordinal goes
      down by one while it is positive, every counter going to its maximum;
      from hex ordinal 0 the location wraps to the last one. */
  lemma PreviousHexBorrow(lib: Library, l: Loc)
    requires lib.Encodable() && AtHexStart(l)
    ensures BaseX.Decoded(lib.hexAlphabet, l.hexId).None? ==>
              lib.PreviousLocation(l) == Failure(UnknownSymbol)
    ensures BaseX.Decoded(lib.hexAlphabet, l.hexId).Some? ==>
              var h := BaseX.Decoded(lib.hexAlphabet, l.hexId).value;
              lib.PreviousLocation(l)
              == if h > 0 then Success(Loc(BaseX.Encoded(lib.hexAlphabet, h - 1), 4, 5, 32, 410))
                 else Success(Last(lib))
  {
  }

  /** `previous` fails exactly when it has to decode a hex id that holds a
      symbol outside the hex alphabet. */
  lemma PreviousFailure(lib: Library, l: Loc)
    requires lib.Encodable()
    ensures lib.PreviousLocation(l).Failure?
            <==> AtHexStart(l) && !BaseX.Valid(lib.hexAlphabet, l.hexId)
  {
    if AtHexStart(l) {
      PreviousHexBorrow(lib, l);
    }
  }

  // The hex-level steps one at a time: from hex h up to hex k = h + 1, down
  // from hex h to hex g = h - 1, and the wraps at the two ends.

  lemma NextUpHex(lib: Library, l: Loc, h: nat, k: nat, r: Loc)
    requires lib.Encodable() && AtHexEnd(lib, l)
    requires BaseX.Decoded(lib.hexAlphabet, l.hexId) == Some(h) && h < lib.noOfHexes && k == h + 1
    requires r == Loc(BaseX.Encoded(lib.hexAlphabet, k), 1, 1, 1, 1)
    ensures lib.NextLocation(l) == Success(r)
  {
  }

  lemma NextWrapHex(lib: Library, l: Loc, h: nat)
    requires lib.Encodable() && AtHexEnd(lib, l)
    requires BaseX.Decoded(lib.hexAlphabet, l.hexId) == Some(h) && h >= lib.noOfHexes
    ensures lib.NextLocation(l) == Success(First())
  {
  }

  lemma PreviousDownHex(lib: Library, l: Loc, g: nat, h: nat, r: Loc)
    requires lib.Encodable() && AtHexStart(l)
    requires BaseX.Decoded(lib.hexAlphabet, l.hexId) == Some(h) && h == g + 1
    requires r == Loc(BaseX.Encoded(lib.hexAlphabet, g), 4, 5, 32, 410)
    ensures lib.PreviousLocation(l) == Success(r)
  {
    LibraryMapping.Layout(lib);
  }

  lemma PreviousWrapHex(lib: Library, l: Loc)
    requires lib.Encodable() && AtHexStart(l)
    requires BaseX.Decoded(lib.hexAlphabet, l.hexId) == Some(0)
    ensures lib.PreviousLocation(l) == Success(Last(lib))
  {
    LibraryMapping.Layout(lib);
  }

  lemma IndexAtHexEnd(lib: Library, l: Loc, h: nat)
    requires lib.InBounds(l) && AtHexEnd(lib, l)
    requires BaseX.Decoded(lib.hexAlphabet, l.hexId) == Some(h)
    ensures lib.PageIndex(h, l) == h * 262400 + 262399
    ensures lib.PageLocation(l) == Success(lib.PageIndex(h, l))
  {
    LibraryMapping.Layout(lib);
  }

  lemma IndexAtHexStart(lib: Library, l: Loc, h: nat)
    requires lib.InBounds(l) && AtHexStart(l)
    requires BaseX.Decoded(lib.hexAlphabet, l.hexId) == Some(h)
    ensures lib.PageIndex(h, l) == h * 262400
    ensures lib.PageLocation(l) == Success(lib.PageIndex(h, l))
  {
    LibraryMapping.Layout(lib);
  }

  /** The last page of hex h has index h * 262400 + 262399. */
  lemma IndexOfHexEnd(lib: Library, m: Loc, h: nat)
    requires lib.Encodable() && BaseX.Distinct(lib.hexAlphabet)
    requires m == Loc(BaseX.Encoded(lib.hexAlphabet, h), 4, 5, 32, 410)
    ensures lib.PageLocation(m) == Success(h * 262400 + 262399)
  {
    BaseX.DecodeEncode(lib.hexAlphabet, h);
    LibraryMapping.Layout(lib);
    IndexAtHexEnd(lib, m, h);
  }

  /** The first page of hex h has index h * 262400. */
  lemma IndexOfHexStart(lib: Library, m: Loc, h: nat)
    requires lib.Encodable() && BaseX.Distinct(lib.hexAlphabet)
    requires m == Loc(BaseX.Encoded(lib.hexAlphabet, h), 1, 1, 1, 1)
    ensures lib.PageLocation(m) == Success(h * 262400)
  {
    BaseX.DecodeEncode(lib.hexAlphabet, h);
    LibraryMapping.Layout(lib);
    IndexAtHexStart(lib, m, h);
  }

  /** From the end of hex g, below `noOfHexes`, `next` opens hex h = g + 1. */
  lemma NextFromHexEnd(lib: Library, m: Loc, g: nat, h: nat)
    requires lib.Encodable() && BaseX.Distinct(lib.hexAlphabet) && g < lib.noOfHexes && h == g + 1
    requires m == Loc(BaseX.Encoded(lib.hexAlphabet, g), 4, 5, 32, 410)
    ensures lib.NextLocation(m) == Success(Loc(BaseX.Encoded(lib.hexAlphabet, h), 1, 1, 1, 1))
  {
    BaseX.DecodeEncode(lib.hexAlphabet, g);
    LibraryMapping.Layout(lib);
    NextUpHex(lib, m, g, h, Loc(BaseX.Encoded(lib.hexAlphabet, h), 1, 1, 1, 1));
  }

  /** From the start of hex h = g + 1, `previous` reaches the end of hex g. */
  lemma PreviousFromHexStart(lib: Library, m: Loc, g: nat, h: nat)
    requires lib.Encodable() && BaseX.Distinct(lib.hexAlphabet) && h == g + 1
    requires m == Loc(BaseX.Encoded(lib.hexAlphabet, h), 1, 1, 1, 1)
    ensures lib.PreviousLocation(m) == Success(Loc(BaseX.Encoded(lib.hexAlphabet, g), 4, 5, 32, 410))
  {
    BaseX.DecodeEncode(lib.hexAlphabet, h);
    PreviousDownHex(lib, m, g, h, Loc(BaseX.Encoded(lib.hexAlphabet, g), 4, 5, 32, 410));
  }

  /** The first location is in bounds with canonical hex id "0", index 0. */
  lemma FirstLocation(lib: Library)
    requires lib.Standard()
    ensures lib.InBounds(First()) && AtHexStart(First())
    ensures BaseX.Canonical(lib.hexAlphabet, First().hexId)
    ensures BaseX.Decoded(lib.hexAlphabet, First().hexId) == Some(0)
    ensures lib.PageLocation(First()) == Success(0)
  {
    LibraryMapping.Layout(lib);
    BaseX.DecodeZero(lib.hexAlphabet);
    assert First().hexId == [lib.hexAlphabet[0]];
  }

  /** The last location is in bounds with a canonical hex id of ordinal
      `noOfHexes`. */
  lemma LastLocation(lib: Library)
    requires lib.Standard()
    ensures lib.InBounds(Last(lib)) && AtHexEnd(lib, Last(lib))
    ensures BaseX.Canonical(lib.hexAlphabet, Last(lib).hexId)
    ensures BaseX.Decoded(lib.hexAlphabet, Last(lib).hexId) == Some(lib.noOfHexes)
  {
    LibraryMapping.Layout(lib);
    BaseX.DecodeEncode(lib.hexAlphabet, lib.noOfHexes);
    BaseX.EncodedCanonical(lib.hexAlphabet, lib.noOfHexes);
  }

  /** The only in-bounds location at the start of its hex with a canonical
      hex id of ordinal 0 is the first location. */
  lemma IsFirst(lib: Library, l: Loc)
    requires lib.Standard() && lib.InBounds(l) && BaseX.Canonical(lib.hexAlphabet, l.hexId)
    ensures AtHexStart(l) && BaseX.Decoded(lib.hexAlphabet, l.hexId) == Some(0) ==> l == First()
  {
    BaseX.EncodeDecode(lib.hexAlphabet, l.hexId);
  }

  /** `next` wraps: every counter at its maximum in a hex at or past `noOfHexes`. */
  predicate NextWraps(lib: Library, l: Loc)
  {
    AtHexEnd(lib, l) && BaseX.Valid(lib.hexAlphabet, l.hexId)
    && BaseX.Value(lib.hexAlphabet, l.hexId) >= lib.noOfHexes
  }

  // Stepping within a hex.

  lemma NextWithinHex(lib: Library, l: Loc, h: nat)
    requires lib.Encodable() && lib.InBounds(l) && !AtHexEnd(lib, l)
    requires BaseX.Decoded(lib.hexAlphabet, l.hexId) == Some(h)
    ensures lib.NextLocation(l).Success?
    ensures lib.NextLocation(l).value.hexId == l.hexId && lib.InBounds(lib.NextLocation(l).value)
    ensures lib.PageLocation(l).Success?
    ensures lib.PageLocation(lib.NextLocation(l).value) == Success(lib.PageLocation(l).value + 1)
  {
    LibraryMapping.Layout(lib);
  }

  lemma PreviousWithinHex(lib: Library, l: Loc, h: nat)
    requires lib.Encodable() && lib.InBounds(l) && !AtHexStart(l)
    requires BaseX.Decoded(lib.hexAlphabet, l.hexId) == Some(h)
    ensures lib.PreviousLocation(l).Success?
    ensures lib.PreviousLocation(l).value.hexId == l.hexId && lib.InBounds(lib.PreviousLocation(l).value)
    ensures lib.PageLocation(l).Success?
    ensures lib.PageLocation(lib.PreviousLocation(l).value) == Success(lib.PageLocation(l).value - 1)
  {
    LibraryMapping.Layout(lib);
  }

  lemma NextIndexUpHex(lib: Library, l: Loc, h: nat)
    requires lib.Encodable() && BaseX.Distinct(lib.hexAlphabet) && lib.InBounds(l) && AtHexEnd(lib, l)
    requires BaseX.Decoded(lib.hexAlphabet, l.hexId) == Some(h) && h < lib.noOfHexes
    ensures lib.NextLocation(l).Success?
    ensures lib.PageLocation(l).Success?
    ensures lib.PageLocation(lib.NextLocation(l).value) == Success(lib.PageLocation(l).value + 1)
  {
    var k := h + 1;
    var m := Loc(BaseX.Encoded(lib.hexAlphabet, k), 1, 1, 1, 1);
    NextUpHex(lib, l, h, k, m);
    IndexOfHexStart(lib, m, k);
    IndexAtHexEnd(lib, l, h);
    IndexOfNext(lib, l, m, k * 262400, lib.PageLocation(l).value + 1);
  }

  /** When `next` takes l to m, the index of `next`'s result is that of m. */
  lemma IndexOfNext(lib: Library, l: Loc, m: Loc, i: int, j: int)
    requires lib.Encodable() && lib.NextLocation(l) == Success(m)
    requires lib.PageLocation(m) == Success(i) && i == j
    ensures lib.NextLocation(l).Success? && lib.PageLocation(lib.NextLocation(l).value) == Success(j)
  {
  }

  lemma PreviousIndexDownHex(lib: Library, l: Loc, h: nat)
    requires lib.Encodable() && BaseX.Distinct(lib.hexAlphabet) && lib.InBounds(l) && AtHexStart(l)
    requires BaseX.Decoded(lib.hexAlphabet, l.hexId) == Some(h) && h > 0
    ensures lib.PreviousLocation(l).Success?
    ensures lib.PageLocation(l).Success?
    ensures lib.PageLocation(lib.PreviousLocation(l).value) == Success(lib.PageLocation(l).value - 1)
  {
    var g := h - 1;
    var m := Loc(BaseX.Encoded(lib.hexAlphabet, g), 4, 5, 32, 410);
    PreviousDownHex(lib, l, g, h, m);
    IndexAtHexStart(lib, l, h);
    IndexOfHexEnd(lib, m, g);
    IndexOfPrevious(lib, l, m, g * 262400 + 262399, lib.PageLocation(l).value - 1);
  }

  /** When `previous` takes l to m, the index of `previous`'s result is that of m. */
  lemma IndexOfPrevious(lib: Library, l: Loc, m: Loc, i: int, j: int)
    requires lib.Encodable() && lib.PreviousLocation(l) == Success(m)
    requires lib.PageLocation(m) == Success(i) && i == j
    ensures lib.PreviousLocation(l).Success? && lib.PageLocation(lib.PreviousLocation(l).value) == Success(j)
  {
  }

  /** `next` moves the global page index up by exactly one, except where it
      wraps to the first location, index 0. */
  lemma NextIndex(lib: Library, l: Loc)
    requires lib.Standard() && lib.InBounds(l) && BaseX.Valid(lib.hexAlphabet, l.hexId)
    ensures lib.NextLocation(l).Success? && lib.PageLocation(l).Success?
    ensures lib.PageLocation(lib.NextLocation(l).value)
            == if NextWraps(lib, l) then Success(0) else Success(lib.PageLocation(l).value + 1)
  {
    var h := BaseX.Value(lib.hexAlphabet, l.hexId);
    if !AtHexEnd(lib, l) {
      NextWithinHex(lib, l, h);
    } else if h < lib.noOfHexes {
      NextIndexUpHex(lib, l, h);
    } else {
      NextWrapHex(lib, l, h);
      FirstLocation(lib);
    }
  }

  /** `next` keeps a location in bounds and its hex id canonical. */
  lemma NextInBounds(lib: Library, l: Loc)
    requires lib.Standard() && lib.InBounds(l) && BaseX.Canonical(lib.hexAlphabet, l.hexId)
    ensures lib.NextLocation(l).Success?
    ensures lib.InBounds(lib.NextLocation(l).value)
    ensures BaseX.Canonical(lib.hexAlphabet, lib.NextLocation(l).value.hexId)
  {
    var h := BaseX.Value(lib.hexAlphabet, l.hexId);
    if !AtHexEnd(lib, l) {
      NextWithinHex(lib, l, h);
    } else if h < lib.noOfHexes {
      var k := h + 1;
      NextUpHex(lib, l, h, k, Loc(BaseX.Encoded(lib.hexAlphabet, k), 1, 1, 1, 1));
      BaseX.EncodedCanonical(lib.hexAlphabet, k);
      LibraryMapping.Layout(lib);
    } else {
      NextWrapHex(lib, l, h);
      FirstLocation(lib);
    }
  }

  /** `previous` moves the global page index down by exactly one, except from
      the first page of hex ordinal 0, where it wraps to the last location. */
  lemma PreviousIndex(lib: Library, l: Loc)
    requires lib.Standard() && lib.InBounds(l) && BaseX.Valid(lib.hexAlphabet, l.hexId)
    ensures lib.PreviousLocation(l).Success? && lib.PageLocation(l).Success?
    ensures lib.AtFirstPage(l) ==> lib.PreviousLocation(l) == Success(Last(lib))
    ensures !lib.AtFirstPage(l) ==>
              lib.PageLocation(lib.PreviousLocation(l).value) == Success(lib.PageLocation(l).value - 1)
  {
    var h := BaseX.Value(lib.hexAlphabet, l.hexId);
    if !AtHexStart(l) {
      PreviousWithinHex(lib, l, h);
    } else if h > 0 {
      PreviousIndexDownHex(lib, l, h);
    } else {
      PreviousWrapHex(lib, l);
    }
  }

  /** `previous` keeps a location in bounds and its hex id canonical. */
  lemma PreviousInBounds(lib: Library, l: Loc)
    requires lib.Standard() && lib.InBounds(l) && BaseX.Canonical(lib.hexAlphabet, l.hexId)
    ensures lib.PreviousLocation(l).Success?
    ensures lib.InBounds(lib.PreviousLocation(l).value)
    ensures BaseX.Canonical(lib.hexAlphabet, lib.PreviousLocation(l).value.hexId)
  {
    var h := BaseX.Value(lib.hexAlphabet, l.hexId);
    if !AtHexStart(l) {
      PreviousWithinHex(lib, l, h);
    } else if h > 0 {
      var g := h - 1;
      PreviousDownHex(lib, l, g, h, Loc(BaseX.Encoded(lib.hexAlphabet, g), 4, 5, 32, 410));
      BaseX.EncodedCanonical(lib.hexAlphabet, g);
      LibraryMapping.Layout(lib);
    } else {
      PreviousWrapHex(lib, l);
      LastLocation(lib);
    }
  }

  /** `previous` undoes `next` on every in-bounds location with a canonical
      hex id whose ordinal does not exceed `noOfHexes`, the wrap included. */
  lemma PreviousNext(lib: Library, l: Loc)
    requires lib.Standard() && lib.InBounds(l) && BaseX.Canonical(lib.hexAlphabet, l.hexId)
    requires BaseX.Value(lib.hexAlphabet, l.hexId) <= lib.noOfHexes
    ensures lib.NextLocation(l).Success?
    ensures lib.PreviousLocation(lib.NextLocation(l).value) == Success(l)
  {
    var h := BaseX.Value(lib.hexAlphabet, l.hexId);
    if !AtHexEnd(lib, l) {
      PreviousNextWithinHex(lib, l);
    } else if h < lib.noOfHexes {
      BaseX.EncodeDecode(lib.hexAlphabet, l.hexId);
      PreviousNextUpHex(lib, l, h);
    } else {
      BaseX.EncodeDecode(lib.hexAlphabet, l.hexId);
      PreviousNextWrap(lib, l);
    }
  }

  lemma PreviousNextWithinHex(lib: Library, l: Loc)
    requires lib.Encodable() && lib.InBounds(l) && !AtHexEnd(lib, l)
    ensures lib.NextLocation(l).Success?
    ensures lib.PreviousLocation(lib.NextLocation(l).value) == Success(l)
  {
    LibraryMapping.Layout(lib);
  }

  lemma PreviousNextUpHex(lib: Library, l: Loc, h: nat)
    requires lib.Encodable() && BaseX.Distinct(lib.hexAlphabet) && lib.InBounds(l) && AtHexEnd(lib, l)
    requires BaseX.Decoded(lib.hexAlphabet, l.hexId) == Some(h) && h < lib.noOfHexes
    requires l.hexId == BaseX.Encoded(lib.hexAlphabet, h)
    ensures lib.NextLocation(l).Success?
    ensures lib.PreviousLocation(lib.NextLocation(l).value) == Success(l)
  {
    var k := h + 1;
    var m := Loc(BaseX.Encoded(lib.hexAlphabet, k), 1, 1, 1, 1);
    NextUpHex(lib, l, h, k, m);
    PreviousFromHexStart(lib, m, h, k);
    LibraryMapping.Layout(lib);
    assert l == Loc(BaseX.Encoded(lib.hexAlphabet, h), 4, 5, 32, 410);
  }

  lemma PreviousNextWrap(lib: Library, l: Loc)
    requires lib.Standard() && lib.InBounds(l) && AtHexEnd(lib, l)
    requires BaseX.Decoded(lib.hexAlphabet, l.hexId) == Some(lib.noOfHexes)
    requires l.hexId == BaseX.Encoded(lib.hexAlphabet, lib.noOfHexes)
    ensures lib.NextLocation(l).Success?
    ensures lib.PreviousLocation(lib.NextLocation(l).value) == Success(l)
  {
    NextWrapHex(lib, l, lib.noOfHexes);
    FirstLocation(lib);
    PreviousWrapHex(lib, First());
    LibraryMapping.Layout(lib);
  }

  /** `next` undoes `previous` on the same locations. */
  lemma NextPrevious(lib: Library, l: Loc)
    requires lib.Standard() && lib.InBounds(l) && BaseX.Canonical(lib.hexAlphabet, l.hexId)
    requires BaseX.Value(lib.hexAlphabet, l.hexId) <= lib.noOfHexes
    ensures lib.PreviousLocation(l).Success?
    ensures lib.NextLocation(lib.PreviousLocation(l).value) == Success(l)
  {
    var h := BaseX.Value(lib.hexAlphabet, l.hexId);
    if !AtHexStart(l) {
      NextPreviousWithinHex(lib, l);
    } else if h > 0 {
      BaseX.EncodeDecode(lib.hexAlphabet, l.hexId);
      NextPreviousDownHex(lib, l, h);
    } else {
      NextPreviousAtFirst(lib, l);
    }
  }

  lemma NextPreviousAtFirst(lib: Library, l: Loc)
    requires lib.Standard() && lib.InBounds(l) && BaseX.Canonical(lib.hexAlphabet, l.hexId)
    requires AtHexStart(l) && BaseX.Value(lib.hexAlphabet, l.hexId) == 0
    ensures lib.PreviousLocation(l).Success?
    ensures lib.NextLocation(lib.PreviousLocation(l).value) == Success(l)
  {
    IsFirst(lib, l);
    assert l == First();
    NextPreviousWrap(lib);
  }

  lemma NextPreviousWithinHex(lib: Library, l: Loc)
    requires lib.Encodable() && lib.InBounds(l) && !AtHexStart(l)
    ensures lib.PreviousLocation(l).Success?
    ensures lib.NextLocation(lib.PreviousLocation(l).value) == Success(l)
  {
    LibraryMapping.Layout(lib);
  }

  lemma NextPreviousDownHex(lib: Library, l: Loc, h: nat)
    requires lib.Encodable() && BaseX.Distinct(lib.hexAlphabet) && lib.InBounds(l) && AtHexStart(l)
    requires BaseX.Decoded(lib.hexAlphabet, l.hexId) == Some(h) && 0 < h <= lib.noOfHexes
    requires l.hexId == BaseX.Encoded(lib.hexAlphabet, h)
    ensures lib.PreviousLocation(l).Success?
    ensures lib.NextLocation(lib.PreviousLocation(l).value) == Success(l)
  {
    var g := h - 1;
    var m := Loc(BaseX.Encoded(lib.hexAlphabet, g), 4, 5, 32, 410);
    PreviousDownHex(lib, l, g, h, m);
    NextFromHexEnd(lib, m, g, h);
    LibraryMapping.Layout(lib);
    assert l == Loc(BaseX.Encoded(lib.hexAlphabet, h), 1, 1, 1, 1);
  }

  lemma NextPreviousWrap(lib: Library)
    requires lib.Standard()
    ensures lib.PreviousLocation(First()) == Success(Last(lib))
    ensures lib.NextLocation(Last(lib)) == Success(First())
  {
    FirstLocation(lib);
    PreviousWrapHex(lib, First());
    LastLocation(lib);
    NextWrapHex(lib, Last(lib), lib.noOfHexes);
  }

  /** `previous` as written fails on the first location, where the corrected
      `previous` reaches the one location whose `next` is the first. */
  lemma PreviousAsWrittenFailsAtFirst(lib: Library)
    requires lib.Standard()
    ensures lib.PreviousAsWritten(First()) == Failure(NotAnInteger)
    ensures lib.PreviousLocation(First()) == Success(Last(lib))
    ensures lib.NextLocation(Last(lib)) == Success(First())
  {
    FirstLocation(lib);
    NextPreviousWrap(lib);
  }

  /** Away from the first page, `previous` as written and corrected agree. */
  lemma PreviousAsWrittenElsewhere(lib: Library, l: Loc)
    requires lib.Standard() && lib.InBounds(l) && BaseX.Canonical(lib.hexAlphabet, l.hexId)
    requires l != First()
    ensures lib.PreviousAsWritten(l) == lib.PreviousLocation(l)
  {
    IsFirst(lib, l);
  }
}
