/** The screen buffer as the extractor sees it: an immutable grid of cells, the
    column window that restricts traversal, coordinates and windowed ranges. */
module Grid {

  /** One screen cell: its code point, whether it was never written (null), and
      whether it is the right half of a double-width character (DWC). */
  datatype Cell = Cell(code: char, isNull: bool, dwcRight: bool)

  const NullCell := Cell(0 as char, true, false)

  /** One raw grid line and whether it soft-wraps into the next one. */
  datatype Line = Line(cells: seq<Cell>, softWrap: bool)

  /** The data source: a width, the lines, and for bidi lines a lookup table
      from logical to visual column. */
  datatype Grid = Grid(width: int, lines: seq<Line>, bidi: map<int, seq<int>>) {
    /** A terminal always has at least one row and one column, and every line
        holds exactly `width` cells. */
    ghost predicate WellFormed() {
      && width >= 1
      && |lines| >= 1
      && (forall y :: 0 <= y < |lines| ==> |lines[y].cells| == width)
      && (forall y :: y in bidi ==> |bidi[y]| == width)
    }
  }

  datatype Coord = Coord(x: int, y: int)

  /** A column window: `length` columns starting at `location`. */
  datatype GridRange = GridRange(location: int, length: int)

  /** A coordinate range (end exclusive) together with its column window. */
  datatype WindowedRange = WindowedRange(start: Coord, end: Coord, window: GridRange)

  /** The canonical "no such range" value. */
  const InvalidRange := WindowedRange(Coord(-1, -1), Coord(-1, -1), GridRange(0, 0))

  predicate HasWindow(w: GridRange) {
    w.length > 0
  }

  /** A window that is set lies inside the grid's columns. */
  ghost predicate WindowFits(g: Grid, w: GridRange) {
    HasWindow(w) ==> 0 <= w.location && w.location + w.length <= g.width
  }

  /** What every query needs of the grid and the window. */
  ghost predicate Ok(g: Grid, w: GridRange) {
    g.WellFormed() && WindowFits(g, w)
  }

  /** The first column of traversal. */
  function XMin(g: Grid, w: GridRange): int {
    if HasWindow(w) then w.location else 0
  }

  /** One past the last column of traversal. */
  function XLimit(g: Grid, w: GridRange): int {
    if HasWindow(w) then w.location + w.length else g.width
  }

  predicate InGrid(g: Grid, c: Coord) {
    0 <= c.y < |g.lines| && 0 <= c.x < g.width
  }

  /** A coordinate the walker may stand on: a row of the grid and a column of
      the window. */
  predicate Legal(g: Grid, w: GridRange, c: Coord) {
    0 <= c.y < |g.lines| && XMin(g, w) <= c.x < XLimit(g, w)
  }

  lemma LegalIsInGrid(g: Grid, w: GridRange, c: Coord)
    requires Ok(g, w) && Legal(g, w, c)
    ensures InGrid(g, c)
  {
  }

  function CellAt(g: Grid, c: Coord): Cell
    requires g.WellFormed() && InGrid(g, c)
  {
    g.lines[c.y].cells[c.x]
  }

  /** `characterAt:`: the cell at a coordinate, or a null cell outside the grid. */
  function CharacterAt(g: Grid, c: Coord): (cell: Cell)
    requires g.WellFormed()
    ensures !InGrid(g, c) ==> cell.isNull
  {
    if InGrid(g, c) then CellAt(g, c) else NullCell
  }

  /** Reading order: earlier row first, then earlier column. */
  predicate Before(a: Coord, b: Coord) {
    a.y < b.y || (a.y == b.y && a.x < b.x)
  }

  /** The range built from a start and an exclusive end, carrying the window
      when one is set. */
  function WindowedRangeWith(w: GridRange, start: Coord, end: Coord): WindowedRange {
    WindowedRange(start, end, if HasWindow(w) then w else GridRange(0, 0))
  }

  /** The index a coordinate has in an index set (`NSIndexSet`) of a grid
      `width` columns wide. */
  function IndexAtWidth(width: int, c: Coord): int {
    c.x + c.y * width
  }

  function IndexOfCoord(g: Grid, c: Coord): int {
    IndexAtWidth(g.width, c)
  }

  /** The two characters counted as whitespace throughout: space and tab. */
  predicate IsSpaceOrTab(ch: char) {
    ch == ' ' || ch == '\t'
  }

  /** A cell holds a character when it is a written, single-width-or-left-half cell
      with that code. */
  predicate Holds(cell: Cell, ch: char) {
    !cell.isNull && !cell.dwcRight && cell.code == ch
  }
}
