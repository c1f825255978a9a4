/** The library of library.py: coordinates (hex, wall, shelf, book, page),
    the mapping between a coordinate and the global page index / page text,
    stepping a coordinate one page forward or back, and the input validators. */
module Library {
  import opened Wrappers
  import BaseX
  import Capacities

  /** The 29-symbol page-text alphabet. */
  const TextAlphabet: string := "abcdefghijklmnopqrstuvwxyz ,."

  /** The 36-symbol alphabet of hex identifiers. */
  const HexAlphabet: string := "0123456789abcdefghijklmnopqrstuvwxyz"

  /** What the library raises: a symbol missing from the codec's table
      (KeyError in `decode`), and `encode` handed a non-integer (TypeError). */
  datatype Error = UnknownSymbol | NotAnInteger

  /** The value of a Location record. */
  datatype Loc = Loc(hexId: string, wallId: int, shelveId: int, bookId: int, pageId: int)

  /** The mutable Location record that `next` and `previous` update in place. */
  class Location {
    var hexId: string
    var wallId: int
    var shelveId: int
    var bookId: int
    var pageId: int

    constructor (hexId: string, wallId: int, shelveId: int, bookId: int, pageId: int)
      ensures Value() == Loc(hexId, wallId, shelveId, bookId, pageId)
    {
      this.hexId := hexId;
      this.wallId := wallId;
      this.shelveId := shelveId;
      this.bookId := bookId;
      this.pageId := pageId;
    }

    function Value(): Loc
      reads this
    {
      Loc(hexId, wallId, shelveId, bookId, pageId)
    }
  }

  /** `test_bound`: the input checks of the interactive shell accept v
      exactly when 1 <= v <= bound. */
  function TestBound(value: int, bound: int): bool
  {
    1 <= value <= bound
  }

  /** Characters of `text` that belong to `alphabet`, in their order. */
  function Normalised(alphabet: string, text: string): string
  {
    if text == [] then []
    else
      var last := text[|text| - 1];
      Normalised(alphabet, text[..|text| - 1]) + (if last in alphabet then [last] else [])
  }

  /** A library over a page-text alphabet and a hex alphabet. `noOfHexes`
      is the value `init_stats` stores: number of pages div pages per hex. */
  datatype Library = Library(alphabet: string, hexAlphabet: string, noOfHexes: nat)
  {
    function Topology(): Capacities.LibraryTopology
    {
      Capacities.LibraryTopology(noOfAlphabets := |alphabet|)
    }

    /** Number of distinct pages: alphabet size ^ characters per page. */
    function NoOfPages(): nat
    {
      BaseX.Pow(Topology().noOfAlphabets, Topology().charsPerPage)
    }

    /** `noOfHexes` holds what `init_stats` computes. */
    ghost predicate StatsInitialised()
    {
      noOfHexes == NoOfPages() / Topology().PagesPerHex()
    }

    /** `encode` terminates on both alphabets only when each has two symbols
        or more. */
    predicate Encodable()
    {
      |alphabet| >= 2 && |hexAlphabet| >= 2
    }

    /** The library as configured by default: distinct symbols in both
        alphabets and '0' as the hex zero digit. */
    predicate Standard()
    {
      Encodable() && BaseX.Distinct(alphabet) && BaseX.Distinct(hexAlphabet) && hexAlphabet[0] == '0'
    }

    /** Every id below the hex level lies within its 1-based bound. */
    predicate InBounds(l: Loc)
    {
      var t := Topology();
      1 <= l.wallId <= t.wallsPerHex && 1 <= l.shelveId <= t.shelvesPerWall
      && 1 <= l.bookId <= t.booksPerShelve && 1 <= l.pageId <= t.pagesPerBook
    }

    /** The weighted sum of `get_text_from_location` for hex ordinal h. */
    function PageIndex(h: nat, l: Loc): int
    {
      var t := Topology();
      h * t.PagesPerHex() + (l.wallId - 1) * t.PagesPerWall()
      + (l.shelveId - 1) * t.PagesPerShelve() + (l.bookId - 1) * t.pagesPerBook
      + (l.pageId - 1)
    }

    /** The global page index of a location; decoding its hex id may raise. */
    function PageLocation(l: Loc): Result<int, Error>
    {
      match BaseX.Decoded(hexAlphabet, l.hexId)
      case None => Failure(UnknownSymbol)
      case Some(h) => Success(PageIndex(h, l))
    }

    /** `get_text_from_location`: the page text is the encoded page index.
        A negative index would make `encode` loop forever, hence the
        precondition. */
    function GetTextFromLocation(l: Loc): Result<string, Error>
      requires Encodable()
      requires PageLocation(l).Success? ==> PageLocation(l).value >= 0
    {
      match PageLocation(l)
      case Failure(e) => Failure(e)
      case Success(n) => Success(BaseX.Encoded(alphabet, n))
    }

    /** The location of a global page index: split it by successive div/mod
        into the hex ordinal and 1-based ids below the hex level. */
    function LocationOfIndex(n: nat): Loc
      requires Encodable()
    {
      var t := Topology();
      var hexValue, hexRemainder := n / t.PagesPerHex(), n % t.PagesPerHex();
      var wall, wallRemainder := hexRemainder / t.PagesPerWall() + 1, hexRemainder % t.PagesPerWall();
      var shelve, shelveRemainder := wallRemainder / t.PagesPerShelve() + 1, wallRemainder % t.PagesPerShelve();
      var book, bookRemainder := shelveRemainder / t.pagesPerBook + 1, shelveRemainder % t.pagesPerBook;
      Loc(BaseX.Encoded(hexAlphabet, hexValue), wall, shelve, book, bookRemainder + 1)
    }

    /** `get_location_from_text`: the location of the decoded text. */
    function GetLocationFromText(text: string): Result<Loc, Error>
      requires Encodable()
    {
      match BaseX.Decoded(alphabet, text)
      case None => Failure(UnknownSymbol)
      case Some(n) => Success(LocationOfIndex(n))
    }

    /** The location `next` produces: the lowest counter below its maximum
        goes up by one and the counters below it restart at 1; past the last
        wall the hex ordinal goes up, or wraps to hex "0" once it has reached
        `noOfHexes`. */
    function NextLocation(l: Loc): Result<Loc, Error>
      requires Encodable()
    {
      var t := Topology();
      if l.pageId < t.pagesPerBook then Success(l.(pageId := l.pageId + 1))
      else if l.bookId < t.booksPerShelve then Success(l.(pageId := 1, bookId := l.bookId + 1))
      else if l.shelveId < t.shelvesPerWall then
        Success(l.(pageId := 1, bookId := 1, shelveId := l.shelveId + 1))
      else if l.wallId < t.wallsPerHex then
        Success(l.(pageId := 1, bookId := 1, shelveId := 1, wallId := l.wallId + 1))
      else
        match BaseX.Decoded(hexAlphabet, l.hexId)
        case None => Failure(UnknownSymbol)
        case Some(h) =>
          if h < noOfHexes then Success(Loc(BaseX.Encoded(hexAlphabet, h + 1), 1, 1, 1, 1))
          else Success(Loc("0", 1, 1, 1, 1))
    }

    /** The location `previous` produces: the lowest counter above 1 goes
        down by one and the counters below it are set to their maxima; below
        the first wall the hex ordinal goes down. At the very first page
        (hex ordinal 0, all ids 1) it wraps to the last hex, `noOfHexes`,
        with every id at its maximum. */
    function PreviousLocation(l: Loc): Result<Loc, Error>
      requires Encodable()
    {
      var t := Topology();
      var top := Loc(l.hexId, t.wallsPerHex, t.shelvesPerWall, t.booksPerShelve, t.pagesPerBook);
      if l.pageId > 1 then Success(l.(pageId := l.pageId - 1))
      else if l.bookId > 1 then Success(l.(pageId := t.pagesPerBook, bookId := l.bookId - 1))
      else if l.shelveId > 1 then
        Success(l.(pageId := t.pagesPerBook, bookId := t.booksPerShelve, shelveId := l.shelveId - 1))
      else if l.wallId > 1 then
        Success(top.(wallId := l.wallId - 1))
      else
        match BaseX.Decoded(hexAlphabet, l.hexId)
        case None => Failure(UnknownSymbol)
        case Some(h) =>
          if h > 0 then Success(top.(hexId := BaseX.Encoded(hexAlphabet, h - 1)))
          else Success(top.(hexId := BaseX.Encoded(hexAlphabet, noOfHexes)))
    }

    /** True for the locations on which `previous` reaches its final branch:
        every id at or below 1 and a hex id that decodes to 0. */
    predicate AtFirstPage(l: Loc)
    {
      l.pageId <= 1 && l.bookId <= 1 && l.shelveId <= 1 && l.wallId <= 1
      && BaseX.Decoded(hexAlphabet, l.hexId) == Some(0)
    }

    /** `previous` as written: its final branch passes the Size record
        `no_of_hexes` rather than its value to `encode`, which raises a
        TypeError there. */
    function PreviousAsWritten(l: Loc): Result<Loc, Error>
      requires Encodable()
    {
      if AtFirstPage(l) then Failure(NotAnInteger) else PreviousLocation(l)
    }

    /** `next`: updates the location in place and returns it; a hex id that
        does not decode raises before anything is assigned. */
    method Next(location: Location) returns (r: Result<Location, Error>)
      requires Encodable()
      modifies location
      ensures NextLocation(old(location.Value())).Success? ==>
                r == Success(location) && location.Value() == NextLocation(old(location.Value())).value
      ensures NextLocation(old(location.Value())).Failure? ==>
                r == Failure(NextLocation(old(location.Value())).error)
                && location.Value() == old(location.Value())
    {
      var t := Topology();
      if location.pageId < t.pagesPerBook {
        location.pageId := location.pageId + 1;
      } else if location.bookId < t.booksPerShelve {
        location.pageId := 1;
        location.bookId := location.bookId + 1;
      } else if location.shelveId < t.shelvesPerWall {
        location.pageId := 1;
        location.bookId := 1;
        location.shelveId := location.shelveId + 1;
      } else if location.wallId < t.wallsPerHex {
        location.pageId := 1;
        location.bookId := 1;
        location.shelveId := 1;
        location.wallId := location.wallId + 1;
      } else {
        var h := BaseX.Decode(hexAlphabet, location.hexId);
        if h.None? {
          return Failure(UnknownSymbol);
        }
        location.pageId := 1;
        location.bookId := 1;
        location.shelveId := 1;
        location.wallId := 1;
        if h.value < noOfHexes {
          var id := BaseX.Encode(hexAlphabet, h.value + 1);
          location.hexId := id;
        } else {
          location.hexId := "0";
        }
      }
      return Success(location);
    }

    /** `previous`, with the final branch wrapping to hex `noOfHexes`. */
    method Previous(location: Location) returns (r: Result<Location, Error>)
      requires Encodable()
      modifies location
      ensures PreviousLocation(old(location.Value())).Success? ==>
                r == Success(location)
                && location.Value() == PreviousLocation(old(location.Value())).value
      ensures PreviousLocation(old(location.Value())).Failure? ==>
                r == Failure(PreviousLocation(old(location.Value())).error)
                && location.Value() == old(location.Value())
    {
      var t := Topology();
      if location.pageId > 1 {
        location.pageId := location.pageId - 1;
      } else if location.bookId > 1 {
        location.pageId := t.pagesPerBook;
        location.bookId := location.bookId - 1;
      } else if location.shelveId > 1 {
        location.pageId := t.pagesPerBook;
        location.bookId := t.booksPerShelve;
        location.shelveId := location.shelveId - 1;
      } else if location.wallId > 1 {
        location.pageId := t.pagesPerBook;
        location.bookId := t.booksPerShelve;
        location.shelveId := t.shelvesPerWall;
        location.wallId := location.wallId - 1;
      } else {
        var h := BaseX.Decode(hexAlphabet, location.hexId);
        if h.None? {
          return Failure(UnknownSymbol);
        }
        location.pageId := t.pagesPerBook;
        location.bookId := t.booksPerShelve;
        location.shelveId := t.shelvesPerWall;
        location.wallId := t.wallsPerHex;
        var id;
        if h.value > 0 {
          id := BaseX.Encode(hexAlphabet, h.value - 1);
        } else {
          id := BaseX.Encode(hexAlphabet, noOfHexes);
        }
        location.hexId := id;
      }
      return Success(location);
    }

    /** `normalise_text`: keep the characters of the page-text alphabet. */
    method NormaliseText(text: string) returns (r: string)
      ensures r == Normalised(alphabet, text)
    {
      r := "";
      for i := 0 to |text|
        invariant r == Normalised(alphabet, text[..i])
      {
        assert text[..i + 1][..i] == text[..i];
        if text[i] in alphabet {
          r := r + [text[i]];
        }
      }
      assert text[..|text|] == text;
    }
  }

  /** The library `Library()` builds, over the default alphabets unless
      others are given, with the hex count `init_stats` derives from them. */
  function NewLibrary(alphabet: string := TextAlphabet, hexAlphabet: string := HexAlphabet): (lib: Library)
    ensures lib.alphabet == alphabet && lib.hexAlphabet == hexAlphabet
    ensures lib.StatsInitialised()
  {
    var lib := Library(alphabet, hexAlphabet, 0);
    lib.(noOfHexes := lib.NoOfPages() / lib.Topology().PagesPerHex())
  }
}
