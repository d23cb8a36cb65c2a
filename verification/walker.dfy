/** The grid walker: stepping to the next and previous legal coordinate,
    saturating at the ends, and stepping over runs of null cells without
    leaving the line. */
module Walker {
  import opened Grid

  /** The first legal coordinate: top row, window's first column. */
  function First(g: Grid, w: GridRange): Coord {
    Coord(XMin(g, w), 0)
  }

  /** The last legal coordinate: bottom row, window's last column. */
  function Last(g: Grid, w: GridRange): Coord {
    Coord(XLimit(g, w) - 1, |g.lines| - 1)
  }

  /** `successorOfCoord:`. The next coordinate in reading order, wrapping to the
      window's first column of the next row; the last legal coordinate when
      there is no next one. */
  function Successor(g: Grid, w: GridRange, c: Coord): (r: Coord)
    ensures Legal(g, w, c) ==> Legal(g, w, r)
    ensures Legal(g, w, c) ==> (r == c <==> c == Last(g, w))
    ensures Legal(g, w, c) && c != Last(g, w) ==>
              Before(c, r) && forall q :: Legal(g, w, q) && Before(c, q) ==> !Before(q, r)
  {
    if c.x + 1 >= XLimit(g, w) then
      if c.y + 1 >= |g.lines| then Last(g, w) else Coord(XMin(g, w), c.y + 1)
    else
      Coord(c.x + 1, c.y)
  }

  /** `predecessorOfCoord:`. The previous coordinate in reading order, wrapping
      to the window's last column of the previous row; the first legal
      coordinate when there is no previous one. */
  function Predecessor(g: Grid, w: GridRange, c: Coord): (r: Coord)
    ensures Legal(g, w, c) ==> Legal(g, w, r)
    ensures Legal(g, w, c) ==> (r == c <==> c == First(g, w))
    ensures Legal(g, w, c) && c != First(g, w) ==>
              Before(r, c) && forall q :: Legal(g, w, q) && Before(q, c) ==> !Before(r, q)
  {
    if c.x - 1 < XMin(g, w) then
      if c.y - 1 < 0 then First(g, w) else Coord(XLimit(g, w) - 1, c.y - 1)
    else
      Coord(c.x - 1, c.y)
  }

  /** One step in the given direction. */
  function Step(g: Grid, w: GridRange, c: Coord, forward: bool): Coord {
    if forward then Successor(g, w, c) else Predecessor(g, w, c)
  }

  /** The coordinate `n` steps away. */
  function Nth(g: Grid, w: GridRange, c: Coord, n: nat, forward: bool): Coord
    decreases n
  {
    if n == 0 then c else Nth(g, w, Step(g, w, c, forward), n - 1, forward)
  }

  lemma {:induction false} NthLegal(g: Grid, w: GridRange, c: Coord, n: nat, forward: bool)
    requires Legal(g, w, c)
    ensures Legal(g, w, Nth(g, w, c, n, forward))
    decreases n
  {
    if n > 0 {
      NthLegal(g, w, Step(g, w, c, forward), n - 1, forward);
    }
  }

  /** Taking one more step is stepping from the coordinate `n` steps away. */
  lemma {:induction false} NthPlusOne(g: Grid, w: GridRange, c: Coord, n: nat, forward: bool)
    ensures Nth(g, w, c, n + 1, forward) == Step(g, w, Nth(g, w, c, n, forward), forward)
    decreases n
  {
    if n > 0 {
      NthPlusOne(g, w, Step(g, w, c, forward), n - 1, forward);
    }
  }

  /** Stepping forward and then back returns to the start, except at the last
      coordinate where the forward step saturates; and symmetrically. */
  lemma PredecessorOfSuccessor(g: Grid, w: GridRange, c: Coord)
    requires Legal(g, w, c) && c != Last(g, w)
    ensures Predecessor(g, w, Successor(g, w, c)) == c
  {
  }

  lemma SuccessorOfPredecessor(g: Grid, w: GridRange, c: Coord)
    requires Legal(g, w, c) && c != First(g, w)
    ensures Successor(g, w, Predecessor(g, w, c)) == c
  {
  }

  /** `n` steps forward and then `n` steps back return to the start, as long as
      the forward walk never saturated. */
  lemma {:induction false} NthThereAndBack(g: Grid, w: GridRange, c: Coord, n: nat, forward: bool)
    requires Legal(g, w, c)
    requires forall m :: 0 <= m < n ==> Nth(g, w, c, m + 1, forward) != Nth(g, w, c, m, forward)
    ensures Nth(g, w, Nth(g, w, c, n, forward), n, !forward) == c
    decreases n
  {
    if n > 0 {
      var s := Step(g, w, c, forward);
      assert s == Nth(g, w, c, 1, forward);
      assert s != c by { assert Nth(g, w, c, 0, forward) == c; }
      forall m | 0 <= m < n - 1
        ensures Nth(g, w, s, m + 1, forward) != Nth(g, w, s, m, forward)
      {
        assert Nth(g, w, c, m + 2, forward) == Nth(g, w, s, m + 1, forward);
        assert Nth(g, w, c, m + 1, forward) == Nth(g, w, s, m, forward);
      }
      NthThereAndBack(g, w, s, n - 1, forward);
      // Nth(s, n-1, fwd) == Nth(c, n, fwd) =: e, and back n-1 steps from e reaches s.
      var e := Nth(g, w, c, n, forward);
      NthPlusOne(g, w, e, n - 1, !forward);
      // back n steps from e is one more step back from s
      assert Step(g, w, s, !forward) == c by {
        if forward {
          assert c != Last(g, w);
          PredecessorOfSuccessor(g, w, c);
        } else {
          assert c != First(g, w);
          SuccessorOfPredecessor(g, w, c);
        }
      }
    }
  }

  /** `successorOfCoordSkippingContiguousNulls:`. Steps forward over a run of
      null cells, but never past the start of the next line: the result is on
      the same line, or is the first coordinate of the next line. */
  function SuccessorSkippingContiguousNulls(g: Grid, w: GridRange, c: Coord): (r: Coord)
    requires Ok(g, w) && Legal(g, w, c)
    ensures Legal(g, w, r)
    ensures r.y == c.y || r == Coord(XMin(g, w), c.y + 1)
    ensures r == c <==> c == Last(g, w)
    ensures c != Last(g, w) ==> Before(c, r)
    ensures forall q :: Legal(g, w, q) && Before(c, q) && Before(q, r) ==> CellAt(g, q).isNull
    ensures r.y == c.y && r != c && r != Last(g, w) ==> !CellAt(g, r).isNull
    decreases |g.lines| - c.y, XLimit(g, w) - c.x
  {
    var n := Successor(g, w, c);
    if n.y != c.y || n == c then n
    else if !CellAt(g, n).isNull then n
    else SuccessorSkippingContiguousNulls(g, w, n)
  }

  /** `predecessorOfCoordSkippingContiguousNulls:`. Steps back over a run of
      null cells, but never past the end of the previous line. */
  function PredecessorSkippingContiguousNulls(g: Grid, w: GridRange, c: Coord): (r: Coord)
    requires Ok(g, w) && Legal(g, w, c)
    ensures Legal(g, w, r)
    ensures r.y == c.y || r == Coord(XLimit(g, w) - 1, c.y - 1)
    ensures r == c <==> c == First(g, w)
    ensures c != First(g, w) ==> Before(r, c)
    ensures forall q :: Legal(g, w, q) && Before(r, q) && Before(q, c) ==> CellAt(g, q).isNull
    ensures r.y == c.y && r != c && r != First(g, w) ==> !CellAt(g, r).isNull
    decreases c.y, c.x
  {
    var p := Predecessor(g, w, c);
    if p.y != c.y || p == c then p
    else if !CellAt(g, p).isNull then p
    else PredecessorSkippingContiguousNulls(g, w, p)
  }

  /** The coordinate a search reports when nothing passes the filter. */
  const NotFound := Coord(-1, -1)

  /** `q` lies on the stretch a search from `c` has examined: at or beyond `c`
      in the direction of the walk and short of the result `r`, or anywhere
      from `c` to the end when nothing was found. */
  predicate Scanned(c: Coord, q: Coord, r: Coord, forward: bool) {
    if forward then !Before(q, c) && (r == NotFound || Before(q, r))
    else !Before(c, q) && (r == NotFound || Before(r, q))
  }

  /** `searchFrom:forward:forCharacterMatchingFilter:`. The first coordinate,
      from `c` itself on in the given direction, whose cell passes the filter;
      `NotFound` when the walk reaches the end of the grid without one. */
  function Search(g: Grid, w: GridRange, c: Coord, forward: bool, filter: (Cell, Coord) -> bool): (r: Coord)
    requires Ok(g, w) && Legal(g, w, c)
    ensures r != NotFound ==> Legal(g, w, r) && filter(CellAt(g, r), r) && Scanned(c, r, NotFound, forward)
    ensures forall q: Coord :: Legal(g, w, q) && Scanned(c, q, r, forward) ==> !filter(CellAt(g, q), q)
    decreases if forward then |g.lines| - c.y else c.y, if forward then XLimit(g, w) - c.x else c.x
  {
    if filter(CellAt(g, c), c) then c
    else
      var n := Step(g, w, c, forward);
      if n == c then NotFound else Search(g, w, n, forward, filter)
  }

  /** How many steps, at most `budget`, a walk from `c` takes over coordinates
      that pass `test` (one side of `rangeOfCoordinatesAround:`). The walk ends
      before the first coordinate that fails, or where it cannot move further. */
  function Reach(g: Grid, w: GridRange, c: Coord, forward: bool, test: (Cell, Coord) -> bool, budget: int): (n: nat)
    requires Ok(g, w) && Legal(g, w, c)
    ensures budget <= 0 ==> n == 0
    ensures budget > 0 ==> n <= budget
    decreases budget
  {
    if budget <= 0 then 0
    else
      var s := Step(g, w, c, forward);
      if s == c || !test(CharacterAt(g, s), s) then 0
      else 1 + Reach(g, w, s, forward, test, budget - 1)
  }

  /** Every step of the walk moves and lands on a passing coordinate, and the
      walk ends early only where it cannot move or the next coordinate fails. */
  lemma {:induction false} ReachIsMaximal(g: Grid, w: GridRange, c: Coord, forward: bool, test: (Cell, Coord) -> bool, budget: int)
    requires Ok(g, w) && Legal(g, w, c)
    ensures var n := Reach(g, w, c, forward, test, budget);
            && (forall m :: 1 <= m <= n ==>
                  && Nth(g, w, c, m, forward) != Nth(g, w, c, m - 1, forward)
                  && test(CharacterAt(g, Nth(g, w, c, m, forward)), Nth(g, w, c, m, forward)))
            && (n < budget ==>
                  var s := Nth(g, w, c, n + 1, forward);
                  s == Nth(g, w, c, n, forward) || !test(CharacterAt(g, s), s))
    decreases if budget < 0 then 0 else budget
  {
    if budget > 0 {
      var s := Step(g, w, c, forward);
      if s != c && test(CharacterAt(g, s), s) {
        ReachIsMaximal(g, w, s, forward, test, budget - 1);
        var n' := Reach(g, w, s, forward, test, budget - 1);
        assert forall m :: 1 <= m <= n' + 2 ==> Nth(g, w, c, m, forward) == Nth(g, w, s, m - 1, forward);
      }
    }
  }

  /** The range `rangeOfCoordinatesAround:maximumDistance:passingTest:` returns:
      from as far back as the test holds to as far ahead as it holds, the end
      one past the last passing cell. */
  function AroundRange(g: Grid, w: GridRange, c: Coord, maxDistance: int, test: (Cell, Coord) -> bool): (r: WindowedRange)
    requires Ok(g, w) && Legal(g, w, c)
    ensures Legal(g, w, r.start) && !Before(c, r.start)
    ensures Legal(g, w, Coord(r.end.x - 1, r.end.y)) && !Before(Coord(r.end.x - 1, r.end.y), c)
  {
    var back := Reach(g, w, c, false, test, maxDistance);
    var ahead := Reach(g, w, c, true, test, maxDistance);
    NthLegal(g, w, c, back, false);
    NthLegal(g, w, c, ahead, true);
    NthOrdered(g, w, c, back, false);
    NthOrdered(g, w, c, ahead, true);
    var last := Nth(g, w, c, ahead, true);
    WindowedRangeWith(w, Nth(g, w, c, back, false), Coord(last.x + 1, last.y))
  }

  /** A walk never moves against its direction. */
  lemma {:induction false} NthOrdered(g: Grid, w: GridRange, c: Coord, n: nat, forward: bool)
    requires Legal(g, w, c)
    ensures forward ==> !Before(Nth(g, w, c, n, forward), c)
    ensures !forward ==> !Before(c, Nth(g, w, c, n, forward))
    decreases n
  {
    if n > 0 {
      NthOrdered(g, w, Step(g, w, c, forward), n - 1, forward);
    }
  }
}
