/** `iTermTextExtractor` as an object: the data source it reads, the column
    window it may restrict itself to and the bidi switch, with the operations
    that scan the grid cell by cell. */
module Extractor {
  import opened Grid
  import opened Walker
  import opened Stepping
  import opened Content

  /** A cell drawing a column divider. */
  predicate IsDivider(cell: Cell) {
    Holds(cell, '|')
  }

  /** The last divider among the first `n` cells, or -1. */
  function LastDividerBelow(cells: seq<Cell>, n: int): (d: int)
    requires n <= |cells|
    ensures -1 <= d && (n > 0 ==> d < n) && (n <= 0 ==> d == -1)
    ensures d >= 0 ==> IsDivider(cells[d])
    ensures forall i :: d < i < n ==> !IsDivider(cells[i])
    decreases n
  {
    if n <= 0 then -1 else if IsDivider(cells[n - 1]) then n - 1 else LastDividerBelow(cells, n - 1)
  }

  /** The first divider among the cells `i .. n-1`, or -1. */
  function FirstDividerIn(cells: seq<Cell>, i: int, n: int): (d: int)
    requires 0 <= i && n <= |cells|
    ensures d == -1 || (i <= d < n && IsDivider(cells[d]))
    ensures forall j :: i <= j < (if d == -1 then n else d) ==> !IsDivider(cells[j])
    decreases n
  {
    if n <= i then -1
    else
      var f := FirstDividerIn(cells, i, n - 1);
      if f != -1 then f else if IsDivider(cells[n - 1]) then n - 1 else -1
  }

  lemma {:induction false} FirstDividerStays(cells: seq<Cell>, i: int, n: int, m: int)
    requires 0 <= i && n <= m <= |cells| && FirstDividerIn(cells, i, n) != -1
    ensures FirstDividerIn(cells, i, m) == FirstDividerIn(cells, i, n)
    decreases m - n
  {
    if m > n {
      FirstDividerStays(cells, i, n, m - 1);
    }
  }

  /** The window `restrictToLogicalWindowIncludingCoord:` picks on row `c.y`:
      the columns strictly between the nearest divider left of `c` and the
      nearest divider right of it; no window when there is no divider to the
      right. */
  function DividedWindow(g: Grid, c: Coord): (w: GridRange)
    requires g.WellFormed() && 0 <= c.y < |g.lines|
    ensures WindowFits(g, w)
    ensures InGrid(g, c) ==>
              var cells := g.lines[c.y].cells;
              && (HasWindow(w) ==>
                    && w.location <= c.x < w.location + w.length
                    && (w.location == 0 || IsDivider(cells[w.location - 1]))
                    && w.location + w.length < g.width
                    && IsDivider(cells[w.location + w.length])
                    && forall x :: w.location <= x < w.location + w.length && x != c.x ==> !IsDivider(cells[x]))
              && (!HasWindow(w) ==> forall x :: c.x < x < g.width ==> !IsDivider(cells[x]))
  {
    var cells := g.lines[c.y].cells;
    var before := LastDividerBelow(cells, Clamp(c.x, 0, |cells|));
    var after := FirstDividerIn(cells, Clamp(c.x + 1, 0, |cells|), |cells|);
    var left := before + 1;
    var right := if after == -1 then -1 else after - 1;
    GridRange(left, right - left + 1)
  }

  /** The scan of `restrictToLogicalWindowIncludingCoord:` over one row: the
      last divider left of column `x` and the first one right of it, stopping
      at that one. */
  method ScanDividers(cells: seq<Cell>, x: int) returns (before: int, after: int)
    ensures before == LastDividerBelow(cells, Clamp(x, 0, |cells|))
    ensures after == FirstDividerIn(cells, Clamp(x + 1, 0, |cells|), |cells|)
  {
    var below := Clamp(x, 0, |cells|);
    var from := Clamp(x + 1, 0, |cells|);
    before := -1;
    after := -1;
    var i := 0;
    while i < |cells| && after == -1
      invariant 0 <= i <= |cells|
      invariant before == LastDividerBelow(cells, if i < below then i else below)
      invariant after == FirstDividerIn(cells, from, if i < from then from else i)
    {
      if IsDivider(cells[i]) {
        if i < x {
          before := i;
        } else if i > x {
          after := i;
        }
      }
      i := i + 1;
    }
    if after != -1 {
      FirstDividerStays(cells, from, if i < from then from else i, |cells|);
    }
  }

  /** Counts the run of null cells that ends the visual columns `sx .. ex-1`
      of row `y`, scanning from the right. */
  method CountTrailingNulls(g: Grid, bidi: bool, y: int, sx: int, ex: int) returns (nulls: nat)
    requires g.WellFormed() && 0 <= y < |g.lines| && 0 <= sx <= ex <= g.width
    ensures nulls == TrailingNulls(g, bidi, y, sx, ex)
  {
    var e := ex;
    while e > sx
      invariant sx <= e <= ex
      invariant TrailingNulls(g, bidi, y, sx, ex) == (ex - e) + TrailingNulls(g, bidi, y, sx, e)
    {
      if !VisualCell(g, bidi, y, e - 1).isNull {
        break;
      }
      e := e - 1;
    }
    nulls := ex - e;
  }

  /** The cell events of the visual columns `sx .. ex-1` of row `y`, left to right. */
  method ScanCells(g: Grid, bidi: bool, y: int, sx: int, ex: int) returns (row: seq<Event>)
    requires g.WellFormed() && 0 <= y < |g.lines| && 0 <= sx <= ex <= g.width
    ensures row == CellEvents(g, bidi, y, sx, ex)
  {
    row := [];
    var x := sx;
    while x < ex
      invariant sx <= x <= ex
      invariant row == CellEvents(g, bidi, y, sx, x)
    {
      row := row + [CellEvent(g, bidi, y, x)];
      x := x + 1;
    }
  }

  /** The events of one row: the cells before the terminal run of nulls,
      then the line end reporting that run. */
  method EnumerateRow(g: Grid, range: WindowedRange, bidi: bool, y: int) returns (row: seq<Event>)
    requires Ok(g, range.window) && 0 <= y < |g.lines|
    ensures row == RowEvents(g, bidi, range, y)
  {
    var sx := RowStart(g, range, y);
    var ex := RowEnd(g, range, y);
    var nulls := CountTrailingNulls(g, bidi, y, sx, ex);
    var cells := ScanCells(g, bidi, y, sx, ex - nulls);
    row := cells + [LineEnd(g, bidi, y, ex, nulls)];
  }

  /** The events so far, followed by those of row `y`. */
  method AppendRow(g: Grid, range: WindowedRange, bidi: bool, y: int, events: seq<Event>) returns (more: seq<Event>)
    requires Ok(g, range.window) && FirstRow(range) <= y < |g.lines|
    requires events == RowsEvents(g, bidi, range, y)
    ensures more == RowsEvents(g, bidi, range, y + 1)
  {
    var row := EnumerateRow(g, range, bidi, y);
    more := events + row;
  }

  /** The rows of a range, one after the other. */
  method EnumerateRows(g: Grid, range: WindowedRange, bidi: bool) returns (events: seq<Event>)
    requires Ok(g, range.window)
    ensures events == Events(g, bidi, range)
  {
    var first := FirstRow(range);
    var last := LastRow(g, range);
    events := [];
    if first > last {
      return;
    }
    var y := first;
    while y <= last
      invariant first <= y <= last + 1
      invariant events == RowsEvents(g, bidi, range, y)
    {
      events := AppendRow(g, range, bidi, y, events);
      y := y + 1;
    }
  }

  class TextExtractor {
    /** The data source: an immutable grid. */
    const source: Grid
    var logicalWindow: GridRange
    var supportBidi: bool

    ghost predicate Valid()
      reads this
    {
      source.WellFormed() && WindowFits(source, logicalWindow)
    }

    /** `hasLogicalWindow`. */
    predicate HasLogicalWindow()
      reads this
    {
      HasWindow(logicalWindow)
    }

    /** `initWithDataSource:`: no window, no bidi. */
    constructor (g: Grid)
      requires g.WellFormed()
      ensures Valid() && source == g
      ensures logicalWindow == GridRange(0, 0) && !HasLogicalWindow() && !supportBidi
    {
      source := g;
      logicalWindow := GridRange(0, 0);
      supportBidi := false;
    }

    /** `restrictToLogicalWindowIncludingCoord:`: scans the row of `coord` for
        dividers and sets the window between the two around it. */
    method RestrictToLogicalWindowIncludingCoord(coord: Coord)
      requires Valid() && 0 <= coord.y < |source.lines|
      modifies this`logicalWindow
      ensures Valid()
      ensures logicalWindow == DividedWindow(source, coord)
    {
      var before, after := ScanDividers(source.lines[coord.y].cells, coord.x);
      var left := before + 1;
      var right := if after == -1 then -1 else after - 1;
      logicalWindow := GridRange(left, right - left + 1);
    }

    /** `searchFrom:forward:forCharacterMatchingFilter:`. */
    method SearchFrom(start: Coord, forward: bool, filter: (Cell, Coord) -> bool) returns (r: Coord)
      requires Valid() && Legal(source, logicalWindow, start)
      ensures r == Search(source, logicalWindow, start, forward, filter)
    {
      var c := start;
      while true
        invariant Legal(source, logicalWindow, c)
        invariant Search(source, logicalWindow, c, forward, filter) == Search(source, logicalWindow, start, forward, filter)
        decreases if forward then |source.lines| - c.y else c.y,
                  if forward then XLimit(source, logicalWindow) - c.x else c.x
      {
        if filter(CellAt(source, c), c) {
          return c;
        }
        var next := Step(source, logicalWindow, c, forward);
        if next == c {
          return NotFound;
        }
        c := next;
      }
    }

    /** `coord:plus:skippingCoords:forward:`. */
    method CoordPlus(coord: Coord, delta: int, coordsToSkip: set<int>, forward: bool) returns (r: Coord)
      requires Valid() && InColumns(source, logicalWindow, coord)
      ensures r == Plus(source, logicalWindow, coord, delta, coordsToSkip, forward)
    {
      var g := source;
      var w := logicalWindow;
      var dir := Direction(delta, forward);
      var remaining: nat := Abs(delta);
      ghost var taken: nat := 0;
      r := coord;
      while remaining > 0 || IndexOfCoord(g, r) in coordsToSkip
        invariant InColumns(g, w, r)
        invariant r == WindowNth(g, w, coord, taken, dir)
        invariant PlusSteps(g, w, coord, Abs(delta), dir, coordsToSkip)
                  == taken + PlusSteps(g, w, r, remaining, dir, coordsToSkip)
        decreases remaining + |Ahead(g, coordsToSkip, r, dir)|, if IndexOfCoord(g, r) in coordsToSkip then 1 else 0
      {
        PlusStepsUnfold(g, w, r, remaining, dir, coordsToSkip);
        WindowNthPlusOne(g, w, coord, taken, dir);
        var next := WindowStep(g, w, r, dir);
        if IndexOfCoord(g, next) !in coordsToSkip && remaining > 0 {
          remaining := remaining - 1;
        }
        r := next;
        taken := taken + 1;
      }
    }

    /** One side of `rangeOfCoordinatesAround:`: walks from `coord` while the
        cells pass the test, at most `maximumDistance` steps. */
    method WalkWhilePassing(coord: Coord, forward: bool, maximumDistance: int, test: (Cell, Coord) -> bool)
        returns (c: Coord)
      requires Valid() && Legal(source, logicalWindow, coord)
      ensures c == Nth(source, logicalWindow, coord, Reach(source, logicalWindow, coord, forward, test, maximumDistance), forward)
    {
      var g := source;
      var w := logicalWindow;
      c := coord;
      var steps: nat := 0;
      while steps < maximumDistance
        invariant maximumDistance > 0 ==> steps <= maximumDistance
        invariant Legal(g, w, c) && c == Nth(g, w, coord, steps, forward)
        invariant Reach(g, w, coord, forward, test, maximumDistance) == steps + Reach(g, w, c, forward, test, maximumDistance - steps)
      {
        var next := Step(g, w, c, forward);
        if next == c || !test(CharacterAt(g, next), next) {
          break;
        }
        NthPlusOne(g, w, coord, steps, forward);
        c := next;
        steps := steps + 1;
      }
    }

    /** `rangeOfCoordinatesAround:maximumDistance:passingTest:`. */
    method RangeOfCoordinatesAround(coord: Coord, maximumDistance: int, test: (Cell, Coord) -> bool)
        returns (r: WindowedRange)
      requires Valid() && Legal(source, logicalWindow, coord)
      ensures r == AroundRange(source, logicalWindow, coord, maximumDistance, test)
    {
      var start := WalkWhilePassing(coord, false, maximumDistance, test);
      var last := WalkWhilePassing(coord, true, maximumDistance, test);
      r := WindowedRangeWith(logicalWindow, start, Coord(last.x + 1, last.y));
    }

    /** `enumerateCharsInRange:supportBidi:charBlock:eolBlock:`: the events the
        callbacks would receive, row by row. */
    method EnumerateCharsInRange(range: WindowedRange, bidi: bool) returns (events: seq<Event>)
      requires Valid() && WindowFits(source, range.window)
      ensures events == Events(source, bidi, range)
    {
      events := EnumerateRows(source, range, bidi);
    }

    /** `contentInRange:...` on its plain-string path: the text, one provenance
        coordinate per character and the continuation indexes. The walk stops
        as soon as the null policy says so. */
    method ContentInRange(range: WindowedRange, nullPolicy: NullPolicy, includeLastNewline: bool,
                          trimTrailingWhitespace: bool, maxBytes: int, truncateTail: bool,
                          collectContinuations: bool)
        returns (text: string, coords: seq<Coord>, continuations: set<int>)
      requires Valid() && WindowFits(source, range.window)
      ensures Extracted(text, coords, continuations)
              == Extract(source, supportBidi, range, nullPolicy, includeLastNewline,
                         trimTrailingWhitespace, maxBytes, truncateTail, collectContinuations)
      ensures |coords| == |text|
      ensures maxBytes > 0 ==> |text| <= maxBytes
      ensures !collectContinuations ==> continuations == {}
    {
      var s := SettingsFor(source, range, nullPolicy, includeLastNewline, trimTrailingWhitespace, collectContinuations);
      var events := EnumerateCharsInRange(range, supportBidi);
      var acc := Fresh;
      var i := 0;
      while i < |events| && !acc.stopped
        invariant 0 <= i <= |events|
        invariant acc == Fold(s, Fresh, events[..i])
      {
        assert events[..i + 1][..i] == events[..i];
        acc := StepEvent(s, acc, events[i]);
        i := i + 1;
      }
      if i < |events| {
        assert events == events[..i] + events[i..];
        FoldAppend(s, Fresh, events[..i], events[i..]);
        FoldStopped(s, acc, events[i..]);
      } else {
        assert events[..i] == events;
      }
      ExtractIsSound(source, supportBidi, range, nullPolicy, includeLastNewline,
                     trimTrailingWhitespace, maxBytes, truncateTail, collectContinuations);
      var x := Finish(acc, trimTrailingWhitespace, maxBytes, truncateTail);
      text, coords, continuations := x.text, x.coords, x.continuations;
    }
  }
}
