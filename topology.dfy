/** The fixed capacities of the library's hierarchy and the page counts
    derived from them. */
module Capacities {

  /** Capacities of one level in terms of the level below; the defaults are
      the only values the library ever uses. */
  datatype LibraryTopology = LibraryTopology(
    noOfAlphabets: nat,
    charsPerPage: nat := 3200,
    pagesPerBook: nat := 410,
    booksPerShelve: nat := 32,
    shelvesPerWall: nat := 5,
    wallsPerHex: nat := 4)
  {
    function PagesPerShelve(): nat
    {
      pagesPerBook * booksPerShelve
    }

    function PagesPerWall(): nat
    {
      PagesPerShelve() * shelvesPerWall
    }

    function PagesPerHex(): nat
    {
      PagesPerWall() * wallsPerHex
    }
  }
}
