/** Stepping by a signed delta inside the column window, not counting the
    coordinates of a skip set (`coord:plus:skippingCoords:forward:`). Rows are
    not bounded here: only the columns are kept inside the window. */
module Stepping {
  import opened Grid

  /** The column lies inside the window (or the full width when none is set). */
  predicate InColumns(g: Grid, w: GridRange, c: Coord) {
    XMin(g, w) <= c.x < XLimit(g, w)
  }

  /** One step inside the window's columns, wrapping to the adjacent row. */
  function WindowStep(g: Grid, w: GridRange, c: Coord, forward: bool): (r: Coord)
    ensures InColumns(g, w, c) ==> InColumns(g, w, r)
  {
    if forward then
      if c.x + 1 >= XLimit(g, w) then Coord(XMin(g, w), c.y + 1) else Coord(c.x + 1, c.y)
    else
      if c.x - 1 < XMin(g, w) then Coord(XLimit(g, w) - 1, c.y - 1) else Coord(c.x - 1, c.y)
  }

  /** The coordinate `n` window steps away. */
  function WindowNth(g: Grid, w: GridRange, c: Coord, n: nat, forward: bool): (r: Coord)
    ensures InColumns(g, w, c) ==> InColumns(g, w, r)
    decreases n
  {
    if n == 0 then c else WindowNth(g, w, WindowStep(g, w, c, forward), n - 1, forward)
  }

  lemma {:induction false} WindowNthPlusOne(g: Grid, w: GridRange, c: Coord, n: nat, forward: bool)
    ensures WindowNth(g, w, c, n + 1, forward) == WindowStep(g, w, WindowNth(g, w, c, n, forward), forward)
    decreases n
  {
    if n > 0 {
      WindowNthPlusOne(g, w, WindowStep(g, w, c, forward), n - 1, forward);
    }
  }

  /** A step one way undoes a step the other way. */
  lemma WindowStepBack(g: Grid, w: GridRange, c: Coord, forward: bool)
    requires InColumns(g, w, c)
    ensures WindowStep(g, w, WindowStep(g, w, c, forward), !forward) == c
  {
  }

  /** `n` steps one way and `n` steps back return to the start. */
  lemma {:induction false} WindowNthThereAndBack(g: Grid, w: GridRange, c: Coord, n: nat, forward: bool)
    requires InColumns(g, w, c)
    ensures WindowNth(g, w, WindowNth(g, w, c, n, forward), n, !forward) == c
    decreases n
  {
    if n > 0 {
      var s := WindowStep(g, w, c, forward);
      WindowNthThereAndBack(g, w, s, n - 1, forward);
      var e := WindowNth(g, w, s, n - 1, forward);
      WindowNthPlusOne(g, w, e, n - 1, !forward);
      WindowStepBack(g, w, c, forward);
    }
  }

  /** Window steps move the index strictly in their direction. */
  lemma WindowStepMovesIndex(g: Grid, w: GridRange, c: Coord, forward: bool)
    requires Ok(g, w) && InColumns(g, w, c)
    ensures forward ==> IndexOfCoord(g, WindowStep(g, w, c, forward)) > IndexOfCoord(g, c)
    ensures !forward ==> IndexOfCoord(g, WindowStep(g, w, c, forward)) < IndexOfCoord(g, c)
  {
    if forward && c.x + 1 >= XLimit(g, w) {
      assert (c.y + 1) * g.width == c.y * g.width + g.width;
    } else if !forward && c.x - 1 < XMin(g, w) {
      assert (c.y - 1) * g.width == c.y * g.width - g.width;
    }
  }

  /** The skipped indexes still ahead of `c` in the direction of travel. */
  function Ahead(g: Grid, skip: set<int>, c: Coord, forward: bool): set<int> {
    set k | k in skip && (if forward then k > IndexOfCoord(g, c) else k < IndexOfCoord(g, c))
  }

  lemma SubsetCardinality(a: set<int>, b: set<int>)
    requires a <= b
    ensures |a| <= |b|
  {
    assert b == a + (b - a);
    assert a * (b - a) == {};
  }

  /** Taking a step never adds to what is ahead, and landing on a skipped index
      removes it. */
  lemma AheadShrinks(g: Grid, w: GridRange, skip: set<int>, c: Coord, forward: bool)
    requires Ok(g, w) && InColumns(g, w, c)
    ensures var next := WindowStep(g, w, c, forward);
            && |Ahead(g, skip, next, forward)| <= |Ahead(g, skip, c, forward)|
            && (IndexOfCoord(g, next) in skip ==> |Ahead(g, skip, next, forward)| < |Ahead(g, skip, c, forward)|)
  {
    var next := WindowStep(g, w, c, forward);
    WindowStepMovesIndex(g, w, c, forward);
    SubsetCardinality(Ahead(g, skip, next, forward), Ahead(g, skip, c, forward));
    if IndexOfCoord(g, next) in skip {
      var k := IndexOfCoord(g, next);
      SubsetCardinality(Ahead(g, skip, next, forward), Ahead(g, skip, c, forward) - {k});
    }
  }

  /** How many of the first `n` steps land on a coordinate outside the skip set. */
  function Counted(g: Grid, w: GridRange, c: Coord, n: nat, forward: bool, skip: set<int>): nat
    decreases n
  {
    if n == 0 then 0
    else
      var next := WindowStep(g, w, c, forward);
      (if IndexOfCoord(g, next) in skip then 0 else 1) + Counted(g, w, next, n - 1, forward, skip)
  }

  /** The number of window steps the walk takes: it goes on while `remaining`
      unskipped coordinates are still to be passed or while it stands on a
      skipped one. */
  function PlusSteps(g: Grid, w: GridRange, c: Coord, remaining: nat, forward: bool, skip: set<int>): (n: nat)
    requires Ok(g, w) && InColumns(g, w, c)
    ensures IndexOfCoord(g, WindowNth(g, w, c, n, forward)) !in skip
    ensures remaining > 0 ==> Counted(g, w, c, n, forward, skip) == remaining
    ensures remaining == 0 ==> forall m :: 0 <= m < n ==> IndexOfCoord(g, WindowNth(g, w, c, m, forward)) in skip
    ensures skip == {} ==> n == remaining
    decreases remaining + |Ahead(g, skip, c, forward)|, if IndexOfCoord(g, c) in skip then 1 else 0
  {
    if remaining == 0 && IndexOfCoord(g, c) !in skip then 0
    else
      var next := WindowStep(g, w, c, forward);
      var remaining' := if IndexOfCoord(g, next) !in skip && remaining > 0 then remaining - 1 else remaining;
      AheadShrinks(g, w, skip, c, forward);
      var n' := PlusSteps(g, w, next, remaining', forward, skip);
      assert forall m :: 0 < m <= n' + 1 ==> WindowNth(g, w, c, m, forward) == WindowNth(g, w, next, m - 1, forward);
      n' + 1
  }

  /** One iteration of the walk: while it has not arrived, the step count is
      one more than the count from the next coordinate. */
  lemma PlusStepsUnfold(g: Grid, w: GridRange, c: Coord, remaining: nat, forward: bool, skip: set<int>)
    requires Ok(g, w) && InColumns(g, w, c)
    requires remaining > 0 || IndexOfCoord(g, c) in skip
    ensures var next := WindowStep(g, w, c, forward);
            var remaining' := if IndexOfCoord(g, next) !in skip && remaining > 0 then remaining - 1 else remaining;
            && |Ahead(g, skip, next, forward)| <= |Ahead(g, skip, c, forward)|
            && (IndexOfCoord(g, next) in skip ==> |Ahead(g, skip, next, forward)| < |Ahead(g, skip, c, forward)|)
            && PlusSteps(g, w, c, remaining, forward, skip) == 1 + PlusSteps(g, w, next, remaining', forward, skip)
  {
    AheadShrinks(g, w, skip, c, forward);
  }

  /** Direction of travel: the sign of `delta`, or `forward` when it is zero. */
  function Direction(delta: int, forward: bool): bool {
    delta > 0 || (delta == 0 && forward)
  }

  function Abs(delta: int): nat {
    if delta < 0 then -delta else delta
  }

  /** The coordinate `coord:plus:skippingCoords:forward:` arrives at. */
  function Plus(g: Grid, w: GridRange, c: Coord, delta: int, skip: set<int>, forward: bool): (r: Coord)
    requires Ok(g, w) && InColumns(g, w, c)
    ensures InColumns(g, w, r)
  {
    WindowNth(g, w, c, PlusSteps(g, w, c, Abs(delta), Direction(delta, forward), skip), Direction(delta, forward))
  }

  /** What the stepping promises: the result lies in the window's columns and
      outside the skip set; for a non-zero delta exactly |delta| unskipped
      coordinates were passed, the result being the last of them; for a zero
      delta it is the first unskipped coordinate from `c` in the direction
      `forward` picks. */
  lemma PlusSkipsWithoutCounting(g: Grid, w: GridRange, c: Coord, delta: int, skip: set<int>, forward: bool)
      returns (n: nat)
    requires Ok(g, w) && InColumns(g, w, c)
    ensures var d := Direction(delta, forward);
            && Plus(g, w, c, delta, skip, forward) == WindowNth(g, w, c, n, d)
            && IndexOfCoord(g, Plus(g, w, c, delta, skip, forward)) !in skip
            && (delta != 0 ==> Counted(g, w, c, n, d, skip) == Abs(delta))
            && (delta == 0 ==> forall m :: 0 <= m < n ==> IndexOfCoord(g, WindowNth(g, w, c, m, d)) in skip)
  {
    n := PlusSteps(g, w, c, Abs(delta), Direction(delta, forward), skip);
  }

  /** With nothing to skip, stepping by `delta` and then by `-delta` comes back
      to the start. */
  lemma PlusRoundTrip(g: Grid, w: GridRange, c: Coord, delta: int, forward: bool)
    requires Ok(g, w) && InColumns(g, w, c)
    ensures Plus(g, w, Plus(g, w, c, delta, {}, forward), -delta, {}, !forward) == c
  {
    var d := Direction(delta, forward);
    var r := Plus(g, w, c, delta, {}, forward);
    assert r == WindowNth(g, w, c, Abs(delta), d);
    assert Direction(-delta, !forward) == !d;
    assert Abs(-delta) == Abs(delta);
    WindowNthThereAndBack(g, w, c, Abs(delta), d);
  }
}
