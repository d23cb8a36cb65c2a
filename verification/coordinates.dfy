/** Coordinate identity across the two halves of a double-width character,
    the logical/visual (bidi) mapping, and scrollback-absolute coordinates. */
module Coordinates {
  import opened Options
  import opened Grid
  import opened Walker

  /** `coord:isEqualToCoord:`. Two coordinates are equal when they are the same
      coordinate, or when they are adjacent on one row and the right one holds
      the right half of a double-width character begun by the left one. */
  function IsEqualToCoord(g: Grid, c1: Coord, c2: Coord): (r: bool)
    requires g.WellFormed()
    ensures r <==> c1 == c2 ||
                   (c1.y == c2.y && c2.x == c1.x + 1 && CharacterAt(g, c2).dwcRight) ||
                   (c1.y == c2.y && c1.x == c2.x + 1 && CharacterAt(g, c1).dwcRight)
  {
    if c1 == c2 then true
    else
      var first := if Before(c1, c2) then c1 else c2;
      var second := if Before(c1, c2) then c2 else c1;
      first.y == second.y && second.x == first.x + 1 && CharacterAt(g, second).dwcRight
  }

  /** The relation is symmetric: it does not matter which half is asked about first. */
  lemma IsEqualToCoordSymmetric(g: Grid, c1: Coord, c2: Coord)
    requires g.WellFormed()
    ensures IsEqualToCoord(g, c1, c2) == IsEqualToCoord(g, c2, c1)
  {
  }

  /** A lookup table that permutes the columns 0 .. |lut|-1. */
  ghost predicate IsPermutation(lut: seq<int>) {
    && (forall i :: 0 <= i < |lut| ==> 0 <= lut[i] < |lut|)
    && (forall i, j :: 0 <= i < j < |lut| ==> lut[i] != lut[j])
    && (forall v :: 0 <= v < |lut| ==> v in lut)
  }

  /** The first position of `v` in `lut`. */
  function PositionIn(lut: seq<int>, v: int): (r: Option<nat>)
    ensures r.Some? ==> r.value < |lut| && lut[r.value] == v &&
                        forall i :: 0 <= i < r.value ==> lut[i] != v
    ensures r.None? <==> v !in lut
  {
    if lut == [] then None
    else if lut[0] == v then Some(0)
    else match PositionIn(lut[1..], v)
      case None => None
      case Some(i) => Some(i + 1)
  }

  /** `visualCoordForLogical:`. With bidi support off, or on a line without bidi
      information, the visual coordinate is the logical one. */
  function VisualCoordForLogical(g: Grid, supportBidi: bool, logical: Coord): (r: Coord)
    ensures r.y == logical.y
    ensures !supportBidi ==> r == logical
    ensures logical.y !in g.bidi ==> r == logical
  {
    if supportBidi && logical.y in g.bidi && 0 <= logical.x < |g.bidi[logical.y]| then
      Coord(g.bidi[logical.y][logical.x], logical.y)
    else
      logical
  }

  /** `logicalCoordForVisualCoord:`. The inverse lookup; identity with bidi
      support off. */
  function LogicalCoordForVisualCoord(g: Grid, supportBidi: bool, visual: Coord): (r: Coord)
    ensures r.y == visual.y
    ensures !supportBidi ==> r == visual
    ensures visual.y !in g.bidi ==> r == visual
    ensures g.WellFormed() && InGrid(g, visual) ==> InGrid(g, r)
  {
    if supportBidi && visual.y in g.bidi then
      match PositionIn(g.bidi[visual.y], visual.x)
      case None => visual
      case Some(i) => Coord(i, visual.y)
    else
      visual
  }

  /** On a line whose table is a permutation, the two mappings undo each other
      for every column of the line. */
  lemma LogicalOfVisual(g: Grid, supportBidi: bool, c: Coord)
    requires c.y in g.bidi ==> IsPermutation(g.bidi[c.y]) && 0 <= c.x < |g.bidi[c.y]|
    ensures LogicalCoordForVisualCoord(g, supportBidi, VisualCoordForLogical(g, supportBidi, c)) == c
  {
    if supportBidi && c.y in g.bidi {
      var lut := g.bidi[c.y];
      var p := PositionIn(lut, lut[c.x]);
      assert lut[c.x] in lut;
      assert p.Some?;
    }
  }

  lemma VisualOfLogical(g: Grid, supportBidi: bool, v: Coord)
    requires v.y in g.bidi ==> IsPermutation(g.bidi[v.y]) && 0 <= v.x < |g.bidi[v.y]|
    ensures VisualCoordForLogical(g, supportBidi, LogicalCoordForVisualCoord(g, supportBidi, v)) == v
  {
    if supportBidi && v.y in g.bidi {
      assert v.x in g.bidi[v.y];
    }
  }

  /** A coordinate whose row counts from the start of the scrollback history. */
  datatype AbsCoord = AbsCoord(x: int, absY: int)

  /** Screen-relative row = absolute row - lines that have scrolled out of the history. */
  function RelativeOf(c: AbsCoord, overflow: int): Coord {
    Coord(c.x, c.absY - overflow)
  }

  function AbsoluteOf(c: Coord, overflow: int): AbsCoord {
    AbsCoord(c.x, c.y + overflow)
  }

  /** `successorOfAbsCoordSkippingContiguousNulls:`: the relative walk, carried
      over to absolute rows. */
  function SuccessorOfAbsCoordSkippingContiguousNulls(g: Grid, w: GridRange, overflow: int, c: AbsCoord): (r: AbsCoord)
    requires Ok(g, w) && Legal(g, w, RelativeOf(c, overflow))
    ensures Legal(g, w, RelativeOf(r, overflow))
    ensures r.absY == c.absY || r == AbsCoord(XMin(g, w), c.absY + 1)
    ensures r == c <==> RelativeOf(c, overflow) == Last(g, w)
    ensures RelativeOf(c, overflow) != Last(g, w) ==> Before(RelativeOf(c, overflow), RelativeOf(r, overflow))
    ensures forall q :: Legal(g, w, q) && Before(RelativeOf(c, overflow), q) && Before(q, RelativeOf(r, overflow)) ==>
              CellAt(g, q).isNull
    ensures r.absY == c.absY && r != c && RelativeOf(r, overflow) != Last(g, w) ==> !CellAt(g, RelativeOf(r, overflow)).isNull
  {
    AbsoluteOf(SuccessorSkippingContiguousNulls(g, w, RelativeOf(c, overflow)), overflow)
  }

  /** `predecessorOfAbsCoordSkippingContiguousNulls:`. */
  function PredecessorOfAbsCoordSkippingContiguousNulls(g: Grid, w: GridRange, overflow: int, c: AbsCoord): (r: AbsCoord)
    requires Ok(g, w) && Legal(g, w, RelativeOf(c, overflow))
    ensures Legal(g, w, RelativeOf(r, overflow))
    ensures r.absY == c.absY || r == AbsCoord(XLimit(g, w) - 1, c.absY - 1)
    ensures r == c <==> RelativeOf(c, overflow) == First(g, w)
    ensures RelativeOf(c, overflow) != First(g, w) ==> Before(RelativeOf(r, overflow), RelativeOf(c, overflow))
    ensures forall q :: Legal(g, w, q) && Before(RelativeOf(r, overflow), q) && Before(q, RelativeOf(c, overflow)) ==>
              CellAt(g, q).isNull
    ensures r.absY == c.absY && r != c && RelativeOf(r, overflow) != First(g, w) ==> !CellAt(g, RelativeOf(r, overflow)).isNull
  {
    AbsoluteOf(PredecessorSkippingContiguousNulls(g, w, RelativeOf(c, overflow)), overflow)
  }
}
