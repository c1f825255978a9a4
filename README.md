# The library of Babel, as a verified model

`library.py` implements a library of Babel over a 29-symbol alphabet
(`a`–`z`, space, comma, full stop). A page's text is its page index written
in base 29 without padding, so it has 1 to 3200 symbols and never starts with
`a` unless it is "a" alone. Each such text is on exactly one page; a text
with a leading `a` is looked up as the same text without it
(`LibraryMapping.LeadingFirstSymbol`). Pages are shelved in a fixed hierarchy: 410 pages to
a book, 32 books to a shelf, 5 shelves to a wall and 4 walls to a hexagonal
room (a "hex"). Hexes are named by a base-36 identifier.

No page is stored anywhere. Three pieces of arithmetic do all the work:

- **The codec, `BaseX`.** `encode` writes a natural number most-significant
  digit first over an alphabet. `decode` reads a string back as
  Σ digit·base^i.
- **The coordinate mapping.** A location (hex, wall, shelf, book, page) has a
  global page index, which is the weighted sum of its coordinates. The page
  text is that index encoded over the text alphabet.
  `get_location_from_text` goes the other way: it decodes the text, then
  splits the index by successive div/mod.
- **Navigation.** `next` and `previous` move a location one page forward or
  back. They carry or borrow through page → book → shelf → wall → hex, and
  wrap around at the two ends of the library.

The project is made of these modules:

- `Wrappers` holds `Option`/`Result`, which stand for the exceptions the
  source raises.
- `BaseX` is the codec. `Dict` is the symbol table built from
  `enumerate(alphabet)`. `Value` and `Decoded` describe `decode`. `Digits`
  and `Encoded` describe `encode`. The loop methods `Encode` and `Decode`
  are proved equal to those functions.
- `Capacities` holds `LibraryTopology` and its derived page counts.
- `Library` holds the following:
  - the `Location` record, as a class whose fields `Next` and `Previous`
    update in place;
  - the library, as a value with its two alphabets and the hex count that
    `init_stats` stores;
  - the mapping functions, with `NextLocation` and `PreviousLocation` as the
    functional specifications of the two steps;
  - the validators.
- `LibraryMapping`, `LibraryNavigation`, `LibraryValidators`,
  `LibraryExamples` and `LibraryCapacity` hold the lemmas.

The properties proved are these:

- **Codec.** The codec round-trips in both directions: `decode(encode(n)) ==
  n`, and `encode(decode(s)) == s` exactly for canonical `s`. `encode`'s
  output is canonical, `decode(s) < base^|s|`, and leading zeros do not
  change the value.
- **Coordinate mapping.** Every location that `get_location_from_text`
  produces is within the shelving bounds, and its index is the decoded text.
  An in-bounds location with a canonical hex id maps to text and back to
  itself.
- **Navigation.**
  - `next` follows the carry rule and `previous` follows the borrow rule.
  - Each step moves the page index by exactly one, except at the wrap.
  - Both steps keep a location in bounds and its hex id canonical.
  - `previous` undoes `next` and `next` undoes `previous` on every in-bounds
    location with a canonical hex id whose ordinal is at most
    `no_of_hexes`, the wrap points included. The wrap point of `previous`
    lies past the library's last page (see below).
- **Validators.** `normalise_text` keeps exactly the in-alphabet characters,
  in order, and is idempotent. `test_bound` is exactly the shelving bounds.

Two choices in the model go beyond a literal reading of the source:

- **Decode base.** `decode` takes its base from the size of the symbol table,
  while `encode` takes it from the alphabet's length
  (`library.py:31`, `library.py:47`). The model keeps both. The round-trip
  lemmas require an alphabet of distinct symbols, where the two agree.
- **Hex count.** `no_of_hexes` (pages div 262400, `library.py:182-186`) is a
  field of the library value, and `StatsInitialised` says it holds that
  value. It is never evaluated.

**Navigation does not stop at the last page.** This is behaviour of the
source that the model reproduces. The number of pages is
29^3200, which is odd, so it is not a whole number of hexes. `next` only
wraps after the last page of hex `no_of_hexes`. So stepping forward from the
library's last page (index 29^3200 − 1) reaches index 29^3200, whose text
has 3201 characters. `LibraryCapacity.NextPastLastPage` proves this.
The same holds for `previous`. With the corrected bottom wrap, `previous`
from the first page goes to the last page of hex `no_of_hexes`. That page's
index, `no_of_hexes`·262400 + 262399, is at least the number of pages, so
it is not a page of the library either, and its text is longer than 3200
characters. `LibraryCapacity.PreviousPastLastPage` proves this for every
standard library.

## Model

| member | source | states |
|---|---|---|
| BaseX.Dict | library.py:19 | the table `enumerate(alphabet)` builds has exactly the alphabet's symbols as keys |
| BaseX.Encode | library.py:22-39 | the loop's result is `Encoded`: the first symbol for 0, otherwise the unpadded digits in base len(alphabet), most significant first |
| BaseX.Decode | library.py:41-52 | the loop's result is `Decoded`: None when a symbol is missing from the table (KeyError), otherwise Σ table[c]·len(table)^i over the reversed string |
| BaseX.ValuePrepend | library.py:49-50 | prepending symbol c adds table[c]·base^(number of following symbols) |
| BaseX.DistinctDict | library.py:17-20 | with distinct symbols the table maps each symbol to its position and has len(alphabet) entries, so the base of `decode` equals the base of `encode` |
| BaseX.DigitOf | library.py:19 | a symbol's digit is below the base, indexes that symbol, and is 0 exactly for the first symbol |
| BaseX.DigitsValue | library.py:22-52 | decoding the digits of n gives n |
| BaseX.DigitsLeading | library.py:31-37 | the digit string of n is empty exactly when n is 0, and otherwise does not start with the first symbol |
| BaseX.DecodeZero | library.py:28-29 | the first symbol alone decodes to 0 |
| BaseX.DecodeEncode | library.py:22-52 | `decode(encode(n)) == n` for every n |
| BaseX.EncodedCanonical | library.py:28-39 | `encode(n)` is canonical, and it is the first symbol alone exactly when n is 0 |
| BaseX.DigitsOfValue | library.py:33-37 | a string over the alphabet without a leading first symbol is the digit string of its value |
| BaseX.EncodeDecode | library.py:22-52 | `encode(decode(s)) == s` for every canonical s |
| BaseX.CanonicalIff | library.py:22-52 | s is canonical if and only if it decodes and encodes back to itself |
| BaseX.ValueBound | library.py:47-52 | `decode(s) < base^len(s)` |
| BaseX.LeadingZero | library.py:47-52 | a leading first symbol does not change the decoded value |
| Capacities.LibraryTopology.PagesPerShelve | library.py:87-89 | pages per book times books per shelf; `LibraryMapping.Layout` states its value 13120 |
| Capacities.LibraryTopology.PagesPerWall | library.py:91-93 | pages per shelf times shelves per wall; `LibraryMapping.Layout` states its value 65600 |
| Capacities.LibraryTopology.PagesPerHex | library.py:95-97 | pages per wall times walls per hex; `LibraryMapping.Layout` states its value 262400 |
| LibraryMapping.Layout | library.py:79-97 | every library, whatever its alphabet, has the default capacities 410, 32, 5 and 4, so 13120 pages to a shelf, 65600 to a wall and 262400 to a hex |
| Library.NewLibrary | library.py:153-186 | the library keeps both alphabets, the defaults of library.py:12-13 unless others are given, and its hex count is number of pages div pages per hex |
| Library.Location.constructor | library.py:70-76 | a new location record holds the given five ids |
| Library.TestBound | library.py:499-505 | accepts a value exactly when it lies between 1 and the bound; `LibraryValidators.InBoundsByTestBound` ties it to the shelving bounds |
| Library.Normalised | library.py:402-407 | the characters of the text that are symbols of the alphabet, in order; `LibraryValidators.NormalisedCounts`, `NormalisedConcat`, `NormalisedValid`, `NormalisedIdentity` and `NormalisedIdempotent` state its properties, and `NormaliseText` is proved equal to it |
| Library.Library.GetTextFromLocation | library.py:424-432 | the page text is the weighted sum of the ids, encoded over the page alphabet, and a hex id that does not decode fails; `LibraryMapping.TextFromLocationFails`, `TextRoundTrip` and `LocationRoundTrip` state its properties |
| Library.Library.LocationOfIndex | library.py:436-464 | splits an index by successive div/mod into hex ordinal and 1-based ids; `LibraryMapping.LocationOfIndexInverse` and `IndexRoundTrip` state that this inverts the weighted sum |
| Library.Library.GetLocationFromText | library.py:434-464 | decodes the text and takes the location of that index, failing on a foreign symbol; `LibraryMapping.LocationFromText` and `TextRoundTrip` state its properties |
| Library.Library.NextLocation | library.py:335-364 | the value `next` leaves in the record; `LibraryNavigation.NextCarry`, `NextHexCarry`, `NextFailure`, `NextIndex`, `NextInBounds`, `PreviousNext` and `NextPrevious` state its properties |
| Library.Library.PreviousLocation | library.py:366-395 | the value the corrected `previous` leaves in the record; `LibraryNavigation.PreviousBorrow`, `PreviousHexBorrow`, `PreviousFailure`, `PreviousIndex`, `PreviousInBounds`, `PreviousNext`, `NextPrevious` and `NextPreviousWrap` state its properties |
| Library.Library.PreviousAsWritten | library.py:366-395 | `previous` as written: the TypeError at the first page of hex ordinal 0, the corrected step elsewhere; `LibraryNavigation.PreviousAsWrittenFailsAtFirst` and `PreviousAsWrittenElsewhere` state its properties |
| Library.Library.Next | library.py:335-364 | updates the location record in place to `NextLocation` of its old value and returns the same record; a hex id that does not decode fails before any field changes |
| Library.Library.Previous | library.py:366-395 | updates the location record in place to `PreviousLocation` of its old value (the corrected bottom wrap, see Findings) and returns the same record; a hex id that does not decode fails before any field changes |
| Library.Library.NormaliseText | library.py:402-407 | the loop's result is `Normalised`: the input's characters that are in the page-text alphabet, in order |
| LibraryMapping.SplitIndex | library.py:434-452 | the successive div/mod of an index recombine to the index, with wall < 4, shelf < 5, book < 32 and page < 410 |
| LibraryMapping.JoinIndex | library.py:424-452 | a weighted sum with in-range lower digits splits back into exactly those digits |
| LibraryMapping.LocationOfIndexInverse | library.py:434-464 | the location of any index is in bounds, its hex id is the canonical encoding of the index div 262400, and its weighted sum is the index |
| LibraryMapping.LocationFromText | library.py:434-464 | `get_location_from_text` fails exactly on text with a symbol outside the alphabet; otherwise the location is in bounds, its hex id is canonical and its weighted sum is the decoded text |
| LibraryMapping.LeadingFirstSymbol | library.py:434-464 | a text with a leading first symbol (`a`) is found at the same location as the text without it |
| LibraryMapping.TextRoundTrip | library.py:424-464 | a canonical page text maps to a location whose page text is that text again |
| LibraryMapping.IndexRoundTrip | library.py:424-464 | an in-bounds location with a canonical hex id is the location of its own weighted sum |
| LibraryMapping.LocationRoundTrip | library.py:424-464 | an in-bounds location with a canonical hex id maps to a text that maps back to the same location |
| LibraryMapping.TextFromLocationFails | library.py:424-432 | `get_text_from_location` fails exactly when the hex id holds a symbol outside the hex alphabet |
| LibraryNavigation.NextCarry | library.py:336-349 | when counter k is the lowest one below its maximum, it goes up by one, the lower counters restart at 1, and the higher counters and the hex id are unchanged |
| LibraryNavigation.NextHexCarry | library.py:350-363 | with every counter at its maximum, the hex ordinal goes up by one while it is below `no_of_hexes`, the location wraps to ("0",1,1,1,1) otherwise, and an undecodable hex id fails |
| LibraryNavigation.NextFailure | library.py:350 | `next` fails exactly when it reaches the hex level with a hex id that holds a symbol outside the hex alphabet |
| LibraryNavigation.PreviousBorrow | library.py:367-380 | when counter k is the lowest one above 1, it goes down by one, the lower counters go to their maxima 410/32/5, and the higher counters and the hex id are unchanged |
| LibraryNavigation.PreviousHexBorrow | library.py:381-394 | with every counter at 1, the hex ordinal goes down by one while positive with every counter at its maximum; from ordinal 0 the location wraps to the last hex |
| LibraryNavigation.PreviousFailure | library.py:381 | `previous` fails exactly when it reaches the hex level with a hex id that holds a symbol outside the hex alphabet |
| LibraryNavigation.FirstLocation | library.py:358-363 | the wrap target ("0",1,1,1,1) is in bounds, canonical, and has page index 0 |
| LibraryNavigation.LastLocation | library.py:389-394 | the location `previous` wraps to is in bounds, at the end of its hex, with the canonical hex id of ordinal `no_of_hexes` |
| LibraryNavigation.IsFirst | library.py:381-389 | the only in-bounds canonical location at the start of hex ordinal 0 is ("0",1,1,1,1) |
| LibraryNavigation.NextIndex | library.py:335-364 | on every in-bounds location whose hex id decodes, canonical or not, `next` raises the page index by exactly one, except at the wrap, where it goes to index 0 |
| LibraryNavigation.NextInBounds | library.py:335-364 | `next` keeps a location in bounds and its hex id canonical |
| LibraryNavigation.PreviousIndex | library.py:366-395 | on every in-bounds location whose hex id decodes, canonical or not, `previous` lowers the page index by exactly one, except at the first page of hex ordinal 0, which goes to the last location; with a canonical hex id that page is ("0",1,1,1,1), by `IsFirst` |
| LibraryNavigation.PreviousInBounds | library.py:366-395 | `previous` keeps a location in bounds and its hex id canonical |
| LibraryNavigation.PreviousNext | library.py:335-395 | `previous(next(l)) == l` for every in-bounds canonical location with hex ordinal at most `no_of_hexes` |
| LibraryNavigation.NextPrevious | library.py:335-395 | `next(previous(l)) == l` on the same locations |
| LibraryNavigation.NextPreviousWrap | library.py:358-363 | with the corrected bottom wrap, the two wrap points are each other's step: previous of the first location is the last, and next of the last is the first |
| LibraryNavigation.PreviousAsWrittenFailsAtFirst | library.py:389-394 | `previous` as written fails at ("0",1,1,1,1) with the TypeError of `encode` on a `Size` record |
| LibraryNavigation.PreviousAsWrittenElsewhere | library.py:366-388 | on every other in-bounds canonical location, `previous` as written and the corrected `previous` agree |
| LibraryValidators.NormalisedCounts | library.py:402-407 | normalising keeps every occurrence of an alphabet symbol and drops every other character |
| LibraryValidators.NormalisedConcat | library.py:404-406 | normalising distributes over concatenation, so the kept characters stay in order |
| LibraryValidators.NormalisedValid | library.py:402-407 | a normalised text holds only alphabet symbols |
| LibraryValidators.NormalisedIdentity | library.py:402-407 | a text over the alphabet is unchanged by normalising |
| LibraryValidators.NormalisedIdempotent | library.py:402-407 | normalising twice is normalising once |
| LibraryValidators.SearchNeverFails | library.py:234-235 | looking up a normalised search text always finds a location |
| LibraryValidators.InBoundsByTestBound | library.py:499-505 | `test_bound` with the bounds 4, 5, 32 and 410 accepts exactly the in-bounds ids |
| LibraryValidators.SearchResultPassesTestBound | library.py:434-464 | the ids of every location a text lookup returns lie within the ranges `test_bound` accepts |
| LibraryExamples.TextAlphabetDistinct | library.py:12 | the page-text alphabet has 29 distinct symbols |
| LibraryExamples.HexAlphabetDistinct | library.py:13 | the hex alphabet has 36 distinct symbols and '0' as its zero digit |
| LibraryExamples.DefaultStandard | library.py:153-158 | the library built with the default alphabets satisfies every precondition of the round-trip lemmas |
| LibraryExamples.DefaultShape | library.py:12-13 | the default alphabets start with the symbols the examples rely on |
| LibraryExamples.DigitCode | library.py:19 | with distinct symbols, the symbol at position i decodes to i |
| LibraryExamples.TwoDigitCode | library.py:47-50 | two symbols at positions i, j decode to i·base + j |
| LibraryExamples.HexCodes | library.py:41-52 | in the hex alphabet "0" decodes to 0, "z" to 35, "10" to 36, and 36 encodes to "10" |
| LibraryExamples.FirstPageIndex | library.py:425-431 | the location ("0",1,1,1,1) has page index 0 |
| LibraryExamples.FirstPageText | library.py:424-432 | the page at ("0",1,1,1,1) reads "a" |
| LibraryExamples.SecondPage | library.py:434-464 | page index 1 is the location ("0",1,1,1,2) |
| LibraryExamples.SecondPageLocation | library.py:434-464 | the text "b" is found at ("0",1,1,1,2) |
| LibraryExamples.NextBook | library.py:338-340 | from the last page of the first book `next` opens the second book, and `previous` steps back |
| LibraryExamples.NextHex | library.py:350-357 | from the last page of hex "z" `next` opens hex "10" |
| LibraryCapacity.PowOdd | library.py:162-163 | an odd alphabet size gives an odd number of pages |
| LibraryCapacity.LastPageHex | library.py:182-186 | an odd page count is not a whole number of hexes, so its last index lies inside hex `no_of_hexes` |
| LibraryCapacity.EncodedPowLength | library.py:31-37 | base^e has e + 1 digits |
| LibraryCapacity.InsideHex | library.py:434-464 | the location of an index that is not the last of its hex is in bounds, canonical and not at the end of its hex |
| LibraryCapacity.LastIndexInsideHex | library.py:160-186 | with an odd alphabet size the last page index is not the last index of its hex |
| LibraryCapacity.LastPageLocation | library.py:160-186 | the location of the library's last page is in bounds, canonical and not at the end of its hex |
| LibraryCapacity.NextInsideHex | library.py:335-349 | from index n not at the end of its hex, `next` reaches index n + 1, whose text is n + 1 encoded |
| LibraryCapacity.PagesTextLength | library.py:162-163 | the number of pages, encoded, has charsPerPage + 1 characters |
| LibraryCapacity.NextPastLastPage | library.py:335-364 | with an odd alphabet size, `next` from the last page reaches index 29^3200, whose text is one character longer than a page |
| LibraryCapacity.LongEncoding | library.py:31-37 | a number at least base^e has more than e digits |
| LibraryCapacity.PreviousPastLastPage | library.py:389-394 | the corrected `previous` from the first page reaches a location whose index is at least the number of pages and whose text is longer than a page |

## Left out

- The interactive shell is not modelled: `run`, `browse`, `search`, `random`, `browse_book`, `print_topology`, `get_location_from_user` and `get_user_input` (library.py:188-333, 409-422, 466-472). They are console loops that read input, print pages and call the core: `get_text_from_location` through `get_page_content`, `next` and `previous`, `normalise_text`, `get_location_from_text` and `encode`. `test_bound` runs only on what the user types, in `get_user_input` (library.py:466-472): on the four numeric ids, on the length of a typed hex id (bound 3003, library.py:410) and on the length of a search text (bound 3200, library.py:234), before any lookup. `SearchNeverFails` states that a normalised search text always has a location, and `SearchResultPassesTestBound` states that the ids of any looked-up location would pass `test_bound`; the shell itself never applies that check to a lookup's result.
- `random` (library.py:267-301) is not modelled, because it is random selection. Its `randint(0, no_of_pages)` includes `no_of_pages`, whose text is one character too long, as `NextPastLastPage` shows for the same index.
- `clear_screen` and `save_result` are not modelled, because they are system calls and file output.
- `get_stamp`, `Size.__repr__`, the menu strings and `Library.__repr__` are not modelled, because they are display formatting. `Size` is modelled as the plain integers it carries. The `int(str(size))` conversions at library.py:460-463 are taken as the identity, which they are for ids below 10e10.
- `test_type` is not modelled, because it depends on Python's `int()` parsing and its exceptions.
- The module globals `hexs`, `books` and `sys.set_int_max_str_digits` are not modelled, because they are unused or only display settings.
- `test_bound` relies on an `assert` statement. Under `python -O` it accepts everything. The model follows the normal interpreter.
- The counts `no_of_books`, `no_of_shelves` and `no_of_walls` of `init_stats` are not modelled, because nothing in the core reads them. `no_of_hexes` is a field of the library value and is never evaluated.
- BaseX.Encode: an alphabet of fewer than two symbols is excluded by the precondition. The source loops forever on a positive number with one symbol, and fails on an empty alphabet.
- Library.Library.GetTextFromLocation: negative page indices, which arise only from out-of-bounds ids, are excluded. On them `encode` never terminates.
- Library.Library.Next: the record is a single object, and the model does not look at aliasing between it and other references the caller holds.
- Library.Library.PreviousAsWritten: the as-written bottom wrap is modelled only by its TypeError. The model does not keep the wall, shelf, book and page fields that the source has already overwritten before `encode` raises.

## Findings

| source | as written | input that shows it | evidently intended | confidence | as-written member | corrected member |
|---|---|---|---|---|---|---|
| library.py:389-394 | the bottom wrap of `previous` passes the `Size` record `self.no_of_hexes` to `encode`, whose `num % length` raises a TypeError | previous(Location("0",1,1,1,1)) with the default alphabets | wrap to the last page of hex `no_of_hexes.value`, mirroring the wrap of `next`, so that `next` and `previous` undo each other at both ends; that page lies past the library's last page, as `LibraryCapacity.PreviousPastLastPage` shows | high (not executed) | Library.Library.PreviousAsWritten, LibraryNavigation.PreviousAsWrittenFailsAtFirst | Library.Library.PreviousLocation, LibraryNavigation.NextPreviousWrap |
