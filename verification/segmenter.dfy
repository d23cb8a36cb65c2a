/** Segmenting the grid into lines, indentation, bracketed substrings and words. */
module Segmenter {
  import opened Options
  import opened Grid
  import opened Walker
  import opened Coordinates

  // ----- Line length and indentation -----

  /** The number of cells up to and including the last non-null one. */
  function TrimmedLength(cells: seq<Cell>): (r: nat)
    ensures r <= |cells|
    ensures forall x :: r <= x < |cells| ==> cells[x].isNull
    ensures r > 0 ==> !cells[r - 1].isNull
  {
    if cells == [] then 0
    else if !cells[|cells| - 1].isNull then |cells|
    else TrimmedLength(cells[..|cells| - 1])
  }

  /** `lengthOfLine:`: the line's length once trailing null cells are stripped. */
  function LengthOfLine(g: Grid, line: int): (r: int)
    requires g.WellFormed() && 0 <= line < |g.lines|
    ensures 0 <= r <= g.width
    ensures forall x :: r <= x < g.width ==> CellAt(g, Coord(x, line)).isNull
    ensures r > 0 ==> !CellAt(g, Coord(r - 1, line)).isNull
  {
    TrimmedLength(g.lines[line].cells)
  }

  /** `lengthOfAbsLine:`. */
  function LengthOfAbsLine(g: Grid, overflow: int, absLine: int): (r: int)
    requires g.WellFormed() && 0 <= absLine - overflow < |g.lines|
    ensures 0 <= r <= g.width
    ensures forall c: Coord :: c.y == absLine - overflow && r <= c.x < g.width ==> CellAt(g, c).isNull
    ensures r > 0 ==> !CellAt(g, Coord(r - 1, absLine - overflow)).isNull
  {
    LengthOfLine(g, absLine - overflow)
  }

  /** Cells that count as indentation: nulls, spaces and tabs. */
  predicate IsIndentation(cell: Cell) {
    cell.isNull || (!cell.dwcRight && IsSpaceOrTab(cell.code))
  }

  /** The first index at or after `i` (and below `n`) whose cell is not indentation. */
  function IndentationEnd(cells: seq<Cell>, i: nat, n: nat): (r: nat)
    requires i <= n <= |cells|
    requires forall x :: 0 <= x < i ==> IsIndentation(cells[x])
    ensures i <= r <= n
    ensures forall x :: 0 <= x < r ==> IsIndentation(cells[x])
    ensures r < n ==> !IsIndentation(cells[r])
    decreases n - i
  {
    if i == n || !IsIndentation(cells[i]) then i else IndentationEnd(cells, i + 1, n)
  }

  /** `startOfIndentationOnLine:`: the column of the first non-whitespace cell,
      or the line's length when the line holds only whitespace. */
  function StartOfIndentationOnLine(g: Grid, line: int): (r: int)
    requires g.WellFormed() && 0 <= line < |g.lines|
    ensures 0 <= r <= LengthOfLine(g, line)
    ensures forall x :: 0 <= x < r ==> IsIndentation(CellAt(g, Coord(x, line)))
    ensures r < LengthOfLine(g, line) ==> !IsIndentation(CellAt(g, Coord(r, line)))
  {
    IndentationEnd(g.lines[line].cells, 0, LengthOfLine(g, line))
  }

  /** `startOfIndentationOnAbsLine:`. */
  function StartOfIndentationOnAbsLine(g: Grid, overflow: int, absLine: int): (r: int)
    requires g.WellFormed() && 0 <= absLine - overflow < |g.lines|
    ensures 0 <= r <= LengthOfAbsLine(g, overflow, absLine)
    ensures forall c: Coord :: c.y == absLine - overflow && 0 <= c.x < r ==> IsIndentation(CellAt(g, c))
    ensures r < LengthOfAbsLine(g, overflow, absLine) ==> !IsIndentation(CellAt(g, Coord(r, absLine - overflow)))
  {
    StartOfIndentationOnLine(g, absLine - overflow)
  }

  // ----- Brackets -----

  /** The bracket search gives up after this many cells. */
  const ParenthesisSearchLimit := 10000

  predicate IsOpener(ch: char) {
    ch == '(' || ch == '[' || ch == '{'
  }

  predicate IsCloser(ch: char) {
    ch == ')' || ch == ']' || ch == '}'
  }

  /** The bracket of the same kind facing the other way. */
  function Partner(ch: char): (r: char)
    requires IsOpener(ch) || IsCloser(ch)
    ensures (IsOpener(ch) && IsCloser(r)) || (IsCloser(ch) && IsOpener(r))
  {
    match ch
    case '(' => ')'
    case ')' => '('
    case '[' => ']'
    case ']' => '['
    case '{' => '}'
    case _ => '{'
  }

  /** +1 for another bracket like the one the search started on, -1 for its
      partner, 0 for anything else (including brackets of other kinds). */
  function Weight(cell: Cell, self: char, partner: char): int {
    if Holds(cell, partner) then -1 else if Holds(cell, self) then 1 else 0
  }

  /** The nesting depth after the first `k` cells of the walk from `loc`. */
  function Depth(g: Grid, w: GridRange, loc: Coord, forward: bool, self: char, partner: char, k: nat): int
    requires Ok(g, w) && Legal(g, w, loc)
  {
    if k == 0 then 0
    else
      NthLegal(g, w, loc, k - 1, forward);
      Depth(g, w, loc, forward, self, partner, k - 1) + Weight(CellAt(g, Nth(g, w, loc, k - 1, forward)), self, partner)
  }

  /** The walk from `loc` takes `n` real steps (none of them saturates). */
  ghost predicate WalkAdvances(g: Grid, w: GridRange, loc: Coord, forward: bool, n: nat) {
    forall m :: 0 <= m < n ==> Nth(g, w, loc, m + 1, forward) != Nth(g, w, loc, m, forward)
  }

  /** After `n` cells the nesting depth first returns to zero. */
  ghost predicate FirstBalanced(g: Grid, w: GridRange, loc: Coord, forward: bool, self: char, partner: char, n: nat)
    requires Ok(g, w) && Legal(g, w, loc)
  {
    && Depth(g, w, loc, forward, self, partner, n + 1) == 0
    && (forall m :: 1 <= m <= n ==> Depth(g, w, loc, forward, self, partner, m) > 0)
    && WalkAdvances(g, w, loc, forward, n)
  }

  /** The bracket search that `searchFrom:` runs with its counting filter:
      cell `n` of the walk is at `c`, the depth so far is `level` and `left` is
      the remaining budget. The answer is the number of steps to the matching
      bracket. */
  function MatchScan(g: Grid, w: GridRange, loc: Coord, forward: bool, self: char, partner: char,
                     c: Coord, n: nat, level: int, left: int): (r: Option<nat>)
    requires Ok(g, w) && Legal(g, w, loc)
    requires self != partner && Holds(CellAt(g, loc), self)
    requires c == Nth(g, w, loc, n, forward)
    requires level == Depth(g, w, loc, forward, self, partner, n)
    requires left == ParenthesisSearchLimit - n
    requires forall m :: 1 <= m <= n ==> Depth(g, w, loc, forward, self, partner, m) > 0
    requires WalkAdvances(g, w, loc, forward, n)
    ensures r.Some? ==> n <= r.value < ParenthesisSearchLimit - 1
    ensures r.Some? ==> FirstBalanced(g, w, loc, forward, self, partner, r.value)
    decreases left
  {
    NthLegal(g, w, loc, n, forward);
    if left - 1 <= 0 then None
    else
      var level' := level + Weight(CellAt(g, c), self, partner);
      if level' == 0 then Some(n)
      else
        var next := Step(g, w, c, forward);
        if next == c then None
        else
          NthPlusOne(g, w, loc, n, forward);
          MatchScan(g, w, loc, forward, self, partner, next, n + 1, level', left - 1)
  }

  /** Every cell of a walk that keeps advancing lies after the start. */
  lemma {:induction false} NthAdvancesPastStart(g: Grid, w: GridRange, loc: Coord, forward: bool, n: nat)
    requires Legal(g, w, loc) && n >= 1 && WalkAdvances(g, w, loc, forward, n)
    ensures forward ==> Before(loc, Nth(g, w, loc, n, forward))
    ensures !forward ==> Before(Nth(g, w, loc, n, forward), loc)
    decreases n
  {
    NthLegal(g, w, loc, n - 1, forward);
    NthPlusOne(g, w, loc, n - 1, forward);
    if n > 1 {
      NthAdvancesPastStart(g, w, loc, forward, n - 1);
    } else {
      assert Nth(g, w, loc, 0, forward) == loc;
    }
  }

  predicate IsBracketCell(cell: Cell) {
    !cell.isNull && !cell.dwcRight && (IsOpener(cell.code) || IsCloser(cell.code))
  }

  /** `a` holds an opening bracket and `b` the closing bracket of the same kind. */
  predicate IsBracketPair(a: Cell, b: Cell) {
    !a.isNull && !a.dwcRight && IsOpener(a.code) && Holds(b, Partner(a.code))
  }

  /** The inclusive last cell of a range. */
  function LastCell(r: WindowedRange): Coord {
    Coord(r.end.x - 1, r.end.y)
  }

  /** `c` lies between the first and the last cell of `r`, both included. */
  predicate Covers(r: WindowedRange, c: Coord) {
    !Before(c, r.start) && !Before(LastCell(r), c)
  }

  /** The steps from the bracket at `loc` to its match, if the search finds one. */
  function BracketMatch(g: Grid, w: GridRange, loc: Coord): (r: Option<nat>)
    requires Ok(g, w) && Legal(g, w, loc) && IsBracketCell(CellAt(g, loc))
    ensures var self := CellAt(g, loc).code;
            r.Some? ==> FirstBalanced(g, w, loc, IsOpener(self), self, Partner(self), r.value)
    ensures r.Some? ==> r.value < ParenthesisSearchLimit - 1
  {
    var self := CellAt(g, loc).code;
    assert Nth(g, w, loc, 0, IsOpener(self)) == loc;
    MatchScan(g, w, loc, IsOpener(self), self, Partner(self), loc, 0, 0, ParenthesisSearchLimit)
  }

  /** The range between the bracket at `loc` and the match `n` steps away. */
  function BracketRange(g: Grid, w: GridRange, loc: Coord, n: nat): (r: WindowedRange)
    requires Ok(g, w) && Legal(g, w, loc) && IsBracketCell(CellAt(g, loc))
    requires var self := CellAt(g, loc).code;
             FirstBalanced(g, w, loc, IsOpener(self), self, Partner(self), n)
    ensures Legal(g, w, r.start) && Legal(g, w, LastCell(r)) && Before(r.start, LastCell(r))
    ensures IsBracketPair(CellAt(g, r.start), CellAt(g, LastCell(r)))
    ensures r.start == loc || LastCell(r) == loc
  {
    var self := CellAt(g, loc).code;
    var forward := IsOpener(self);
    MatchEndsOnPartner(g, w, loc, forward, self, Partner(self), n);
    var e := Nth(g, w, loc, n, forward);
    NthAdvancesPastStart(g, w, loc, forward, n);
    if forward then WindowedRangeWith(w, loc, Coord(e.x + 1, e.y))
    else WindowedRangeWith(w, e, Coord(loc.x + 1, loc.y))
  }

  /** `rangeOfParentheticalSubstringAtLocation:`. At an opening bracket, the range
      from it to its matching closer; at a closing bracket, the range from its
      matching opener to it; the invalid range otherwise. */
  function RangeOfParentheticalSubstringAtLocation(g: Grid, w: GridRange, loc: Coord): (r: WindowedRange)
    requires Ok(g, w)
    ensures !Legal(g, w, loc) || !IsBracketCell(CellAt(g, loc)) ==> r == InvalidRange
    ensures r != InvalidRange ==>
              && Legal(g, w, r.start) && Legal(g, w, LastCell(r)) && Before(r.start, LastCell(r))
              && IsBracketPair(CellAt(g, r.start), CellAt(g, LastCell(r)))
              && (r.start == loc || LastCell(r) == loc)
  {
    if !Legal(g, w, loc) || !IsBracketCell(CellAt(g, loc)) then InvalidRange
    else
      match BracketMatch(g, w, loc)
      case None => InvalidRange
      case Some(n) => BracketRange(g, w, loc, n)
  }

  /** Where the depth first returns to zero the walk stands on the partner bracket,
      and it has taken at least one step. */
  lemma MatchEndsOnPartner(g: Grid, w: GridRange, loc: Coord, forward: bool, self: char, partner: char, n: nat)
    requires Ok(g, w) && Legal(g, w, loc) && self != partner
    requires Holds(CellAt(g, loc), self)
    requires FirstBalanced(g, w, loc, forward, self, partner, n)
    ensures n >= 1
    ensures Legal(g, w, Nth(g, w, loc, n, forward))
    ensures Holds(CellAt(g, Nth(g, w, loc, n, forward)), partner)
  {
    assert Nth(g, w, loc, 0, forward) == loc;
    assert Depth(g, w, loc, forward, self, partner, 1) == 1;
    NthLegal(g, w, loc, n, forward);
    if n >= 1 {
      assert Depth(g, w, loc, forward, self, partner, n) > 0;
    }
  }

  /** The bracket range is balanced: along the walk from the bracket at `loc`,
      the nesting depth of brackets of that kind stays positive until it first
      returns to zero, on the far end of the range. */
  lemma ParentheticalIsBalanced(g: Grid, w: GridRange, loc: Coord) returns (n: nat)
    requires Ok(g, w)
    requires RangeOfParentheticalSubstringAtLocation(g, w, loc) != InvalidRange
    ensures Legal(g, w, loc) && IsBracketCell(CellAt(g, loc))
    ensures var self := CellAt(g, loc).code;
            var forward := IsOpener(self);
            var r := RangeOfParentheticalSubstringAtLocation(g, w, loc);
            var e := Nth(g, w, loc, n, forward);
            && FirstBalanced(g, w, loc, forward, self, Partner(self), n)
            && (forward ==> r.start == loc && r.end == Coord(e.x + 1, e.y))
            && (!forward ==> r.start == e && r.end == Coord(loc.x + 1, loc.y))
  {
    n := BracketMatch(g, w, loc).value;
  }

  /** The scan does not miss: when the depth first returns to zero at step `k`,
      within the budget, the scan answers `k`. */
  lemma {:induction false} MatchScanFinds(g: Grid, w: GridRange, loc: Coord, forward: bool, self: char, partner: char,
                                          c: Coord, n: nat, level: int, left: int, k: nat)
    requires Ok(g, w) && Legal(g, w, loc)
    requires self != partner && Holds(CellAt(g, loc), self)
    requires c == Nth(g, w, loc, n, forward)
    requires level == Depth(g, w, loc, forward, self, partner, n)
    requires left == ParenthesisSearchLimit - n
    requires forall m :: 1 <= m <= n ==> Depth(g, w, loc, forward, self, partner, m) > 0
    requires WalkAdvances(g, w, loc, forward, n)
    requires n <= k < ParenthesisSearchLimit - 1
    requires FirstBalanced(g, w, loc, forward, self, partner, k)
    ensures MatchScan(g, w, loc, forward, self, partner, c, n, level, left) == Some(k)
    decreases k - n
  {
    NthLegal(g, w, loc, n, forward);
    if n < k {
      assert Depth(g, w, loc, forward, self, partner, n + 1) > 0;
      NthPlusOne(g, w, loc, n, forward);
      var next := Step(g, w, c, forward);
      assert next != c;
      assert WalkAdvances(g, w, loc, forward, n + 1);
      MatchScanFinds(g, w, loc, forward, self, partner, next, n + 1, level + Weight(CellAt(g, c), self, partner), left - 1, k);
    }
  }

  /** At a bracket whose partner lies within the search limit, the search
      finds exactly that partner. */
  lemma BracketMatchIsComplete(g: Grid, w: GridRange, loc: Coord, n: nat)
    requires Ok(g, w) && Legal(g, w, loc) && IsBracketCell(CellAt(g, loc))
    requires var self := CellAt(g, loc).code;
             FirstBalanced(g, w, loc, IsOpener(self), self, Partner(self), n)
    requires n < ParenthesisSearchLimit - 1
    ensures BracketMatch(g, w, loc) == Some(n)
  {
    var self := CellAt(g, loc).code;
    assert Nth(g, w, loc, 0, IsOpener(self)) == loc;
    MatchScanFinds(g, w, loc, IsOpener(self), self, Partner(self), loc, 0, 0, ParenthesisSearchLimit, n);
  }

  /** Completeness of `rangeOfParentheticalSubstringAtLocation:`: a bracket whose
      partner lies within the search limit yields the range up to that partner,
      and a bracket with no partner there yields the invalid range. */
  lemma ParentheticalIsComplete(g: Grid, w: GridRange, loc: Coord)
    requires Ok(g, w) && Legal(g, w, loc) && IsBracketCell(CellAt(g, loc))
    ensures var self := CellAt(g, loc).code;
            forall n: nat :: FirstBalanced(g, w, loc, IsOpener(self), self, Partner(self), n) && n < ParenthesisSearchLimit - 1 ==>
              RangeOfParentheticalSubstringAtLocation(g, w, loc) == BracketRange(g, w, loc, n)
    ensures var self := CellAt(g, loc).code;
            RangeOfParentheticalSubstringAtLocation(g, w, loc) == InvalidRange ==>
              forall n: nat :: n < ParenthesisSearchLimit - 1 ==> !FirstBalanced(g, w, loc, IsOpener(self), self, Partner(self), n)
  {
    var self := CellAt(g, loc).code;
    forall n: nat | FirstBalanced(g, w, loc, IsOpener(self), self, Partner(self), n) && n < ParenthesisSearchLimit - 1
      ensures RangeOfParentheticalSubstringAtLocation(g, w, loc) == BracketRange(g, w, loc, n)
    {
      BracketMatchIsComplete(g, w, loc, n);
    }
    if RangeOfParentheticalSubstringAtLocation(g, w, loc) == InvalidRange {
      forall n: nat | n < ParenthesisSearchLimit - 1
        ensures !FirstBalanced(g, w, loc, IsOpener(self), self, Partner(self), n)
      {
        if FirstBalanced(g, w, loc, IsOpener(self), self, Partner(self), n) {
          BracketMatchIsComplete(g, w, loc, n);
        }
      }
    }
  }

  /** Walking back `m` of the `n` steps of a walk that never saturated lands on
      the walk's cell `n - m`. */
  lemma {:induction false} WalkBack(g: Grid, w: GridRange, loc: Coord, forward: bool, n: nat, m: nat)
    requires Legal(g, w, loc) && WalkAdvances(g, w, loc, forward, n) && m <= n
    ensures Nth(g, w, Nth(g, w, loc, n, forward), m, !forward) == Nth(g, w, loc, n - m, forward)
    decreases m
  {
    if m == 0 {
    } else {
      WalkBack(g, w, loc, forward, n, m - 1);
      NthPlusOne(g, w, Nth(g, w, loc, n, forward), m - 1, !forward);
      var c := Nth(g, w, loc, n - m, forward);
      NthPlusOne(g, w, loc, n - m, forward);
      NthLegal(g, w, loc, n - m, forward);
      assert Step(g, w, c, forward) != c;
      if forward {
        PredecessorOfSuccessor(g, w, c);
      } else {
        SuccessorOfPredecessor(g, w, c);
      }
    }
  }

  /** Read back from the far end, with the roles of the two brackets swapped,
      the depth after `k` cells is the forward depth after `n + 1 - k` cells. */
  lemma {:induction false} DepthReversed(g: Grid, w: GridRange, loc: Coord, forward: bool, self: char, partner: char, n: nat, k: nat)
    requires Ok(g, w) && Legal(g, w, loc) && self != partner
    requires WalkAdvances(g, w, loc, forward, n) && Depth(g, w, loc, forward, self, partner, n + 1) == 0
    requires Legal(g, w, Nth(g, w, loc, n, forward))
    requires k <= n + 1
    ensures Depth(g, w, Nth(g, w, loc, n, forward), !forward, partner, self, k) == Depth(g, w, loc, forward, self, partner, n + 1 - k)
    decreases k
  {
    if k > 0 {
      DepthReversed(g, w, loc, forward, self, partner, n, k - 1);
      WalkBack(g, w, loc, forward, n, k - 1);
    }
  }

  /** The balance found from one bracket is found again from its partner,
      walking the other way with the roles swapped, in as many steps. */
  lemma BalancedBackward(g: Grid, w: GridRange, loc: Coord, forward: bool, self: char, partner: char, n: nat)
    requires Ok(g, w) && Legal(g, w, loc) && self != partner
    requires FirstBalanced(g, w, loc, forward, self, partner, n)
    ensures Legal(g, w, Nth(g, w, loc, n, forward))
    ensures FirstBalanced(g, w, Nth(g, w, loc, n, forward), !forward, partner, self, n)
    ensures Nth(g, w, Nth(g, w, loc, n, forward), n, !forward) == loc
  {
    var e := Nth(g, w, loc, n, forward);
    var backward := !forward;
    NthLegal(g, w, loc, n, forward);
    forall k | 1 <= k <= n + 1
      ensures Depth(g, w, e, backward, partner, self, k) == Depth(g, w, loc, forward, self, partner, n + 1 - k)
    {
      DepthReversed(g, w, loc, forward, self, partner, n, k);
    }
    assert Depth(g, w, loc, forward, self, partner, 0) == 0;
    forall m | 0 <= m < n
      ensures Nth(g, w, e, m + 1, backward) != Nth(g, w, e, m, backward)
    {
      WalkBack(g, w, loc, forward, n, m);
      WalkBack(g, w, loc, forward, n, m + 1);
    }
    WalkBack(g, w, loc, forward, n, n);
  }

  lemma PartnerIsInvolution(ch: char)
    requires IsOpener(ch) || IsCloser(ch)
    ensures Partner(Partner(ch)) == ch
    ensures IsOpener(Partner(ch)) == !IsOpener(ch)
  {
  }

  /** The parenthetical range is the same whichever of its two brackets it is
      asked from. */
  lemma ParentheticalIsSymmetric(g: Grid, w: GridRange, loc: Coord)
    requires Ok(g, w)
    requires RangeOfParentheticalSubstringAtLocation(g, w, loc) != InvalidRange
    ensures var r := RangeOfParentheticalSubstringAtLocation(g, w, loc);
            && RangeOfParentheticalSubstringAtLocation(g, w, r.start) == r
            && RangeOfParentheticalSubstringAtLocation(g, w, LastCell(r)) == r
  {
    var r := RangeOfParentheticalSubstringAtLocation(g, w, loc);
    var n := ParentheticalIsBalanced(g, w, loc);
    var self := CellAt(g, loc).code;
    var forward := IsOpener(self);
    var partner := Partner(self);
    var e := Nth(g, w, loc, n, forward);
    MatchEndsOnPartner(g, w, loc, forward, self, partner, n);
    BalancedBackward(g, w, loc, forward, self, partner, n);
    PartnerIsInvolution(self);
    assert IsBracketCell(CellAt(g, e));
    assert CellAt(g, e).code == partner;
    BracketMatchIsComplete(g, w, e, n);
    assert RangeOfParentheticalSubstringAtLocation(g, w, e) == r;
  }

  // ----- Words -----

  /** Character classes for word selection. */
  datatype CharClass = WordClass | WhitespaceClass | OtherClass | NullClass | DwcPlaceholderClass

  /** The class of a cell; `isWordChar` is the configurable set of characters
      that belong to words. */
  function ClassOf(cell: Cell, isWordChar: char -> bool): CharClass {
    if cell.dwcRight then DwcPlaceholderClass
    else if cell.isNull then NullClass
    else if IsSpaceOrTab(cell.code) then WhitespaceClass
    else if isWordChar(cell.code) then WordClass
    else OtherClass
  }

  /** What keeps a word growing: the same class (a word), or being on the same
      side of the whitespace divide (a big word). The right half of a
      double-width character always goes with its left half. */
  datatype Joiner = SameClass(k: CharClass) | SameBigness(big: bool)

  predicate IsBigWordCell(cell: Cell, isWordChar: char -> bool) {
    ClassOf(cell, isWordChar) != WhitespaceClass && ClassOf(cell, isWordChar) != NullClass
  }

  predicate Joins(j: Joiner, cell: Cell, isWordChar: char -> bool) {
    match j
    case SameClass(k) => cell.dwcRight || ClassOf(cell, isWordChar) == k
    case SameBigness(big) => IsBigWordCell(cell, isWordChar) == big
  }

  /** Stepping from `a` to `b` crosses a hard line end. */
  predicate IsHardBreak(g: Grid, a: Coord, b: Coord)
    requires g.WellFormed() && InGrid(g, a) && InGrid(g, b)
  {
    a.y != b.y && !g.lines[if a.y < b.y then a.y else b.y].softWrap
  }

  /** The word grows from `a` by one step: the step does not saturate, stays on
      the same wrapped line, and lands on a joining cell. */
  predicate Grows(g: Grid, w: GridRange, a: Coord, forward: bool, j: Joiner, isWordChar: char -> bool)
    requires Ok(g, w) && Legal(g, w, a)
  {
    var b := Step(g, w, a, forward);
    b != a && !IsHardBreak(g, a, b) && Joins(j, CellAt(g, b), isWordChar)
  }

  /** How many steps the word extends from `c` in one direction, at most `budget`. */
  function Extent(g: Grid, w: GridRange, c: Coord, forward: bool, j: Joiner, isWordChar: char -> bool, budget: nat): (n: nat)
    requires Ok(g, w) && Legal(g, w, c)
    ensures n <= budget
    ensures forall m :: 0 <= m < n ==>
              Legal(g, w, Nth(g, w, c, m, forward)) && Grows(g, w, Nth(g, w, c, m, forward), forward, j, isWordChar)
    ensures n < budget ==> Legal(g, w, Nth(g, w, c, n, forward)) && !Grows(g, w, Nth(g, w, c, n, forward), forward, j, isWordChar)
    decreases budget
  {
    if budget == 0 || !Grows(g, w, c, forward, j, isWordChar) then 0
    else
      var next := Step(g, w, c, forward);
      var k := Extent(g, w, next, forward, j, isWordChar, budget - 1);
      assert forall m :: 0 < m <= k ==> Nth(g, w, c, m, forward) == Nth(g, w, next, m - 1, forward);
      assert Nth(g, w, c, 0, forward) == c;
      k + 1
  }

  /** The range covering `back` steps backward and `ahead` steps forward from `loc`. */
  function SpanAround(g: Grid, w: GridRange, loc: Coord, back: nat, ahead: nat): (r: WindowedRange)
    requires Ok(g, w) && Legal(g, w, loc)
    ensures Legal(g, w, r.start) && Legal(g, w, LastCell(r))
    ensures Covers(r, loc)
  {
    NthLegal(g, w, loc, back, false);
    NthLegal(g, w, loc, ahead, true);
    NthOrdered(g, w, loc, back, false);
    NthOrdered(g, w, loc, ahead, true);
    var s := Nth(g, w, loc, back, false);
    var e := Nth(g, w, loc, ahead, true);
    WindowedRangeWith(w, s, Coord(e.x + 1, e.y))
  }

  /** The word around `loc` grown by `j`, at most `maximumLength` cells each way. */
  function GrownRange(g: Grid, w: GridRange, loc: Coord, j: Joiner, isWordChar: char -> bool, maximumLength: int): (r: WindowedRange)
    requires Ok(g, w) && Legal(g, w, loc)
    ensures Legal(g, w, r.start) && Legal(g, w, LastCell(r))
    ensures Covers(r, loc)
  {
    var budget: nat := if maximumLength > 0 then maximumLength else 0;
    SpanAround(g, w, loc, Extent(g, w, loc, false, j, isWordChar, budget), Extent(g, w, loc, true, j, isWordChar, budget))
  }

  /** `rangeForWordAt:maximumLength:`. The invalid range exactly when the location
      is out of bounds; the bracketed range when the location holds a bracket
      that has a match; otherwise the run of cells of the location's class. On
      the right half of a double-width character the word of its left half is
      returned. */
  function RangeForWordAt(g: Grid, w: GridRange, loc: Coord, maximumLength: int, isWordChar: char -> bool): (r: WindowedRange)
    requires Ok(g, w)
    ensures r == InvalidRange <==> !Legal(g, w, loc)
    ensures r != InvalidRange ==> Legal(g, w, r.start) && Legal(g, w, LastCell(r))
    ensures Legal(g, w, loc) && IsBracketCell(CellAt(g, loc)) &&
            RangeOfParentheticalSubstringAtLocation(g, w, loc) != InvalidRange ==>
              r == RangeOfParentheticalSubstringAtLocation(g, w, loc)
    ensures Legal(g, w, loc) && !CellAt(g, loc).dwcRight ==> Covers(r, loc)
    decreases if Legal(g, w, loc) then loc.y else 0, if Legal(g, w, loc) then loc.x else 0
  {
    if !Legal(g, w, loc) then InvalidRange
    else
      var cell := CellAt(g, loc);
      var paren := if IsBracketCell(cell) then RangeOfParentheticalSubstringAtLocation(g, w, loc) else InvalidRange;
      if paren != InvalidRange then paren
      else if cell.dwcRight && Predecessor(g, w, loc) != loc then
        RangeForWordAt(g, w, Predecessor(g, w, loc), maximumLength, isWordChar)
      else
        GrownRange(g, w, loc, SameClass(ClassOf(cell, isWordChar)), isWordChar, maximumLength)
  }

  /** `rangeForBigWordAt:maximumLength:`. Like a word, but only whitespace (and
      null cells) separate big words. */
  function RangeForBigWordAt(g: Grid, w: GridRange, loc: Coord, maximumLength: int, isWordChar: char -> bool): (r: WindowedRange)
    requires Ok(g, w)
    ensures r == InvalidRange <==> !Legal(g, w, loc)
    ensures r != InvalidRange ==> Legal(g, w, r.start) && Legal(g, w, LastCell(r)) && Covers(r, loc)
  {
    if !Legal(g, w, loc) then InvalidRange
    else GrownRange(g, w, loc, SameBigness(IsBigWordCell(CellAt(g, loc), isWordChar)), isWordChar, maximumLength)
  }

  /** A run that grows for exactly `k` steps and then stops, within the budget,
      is measured exactly. */
  lemma ExtentOfRun(g: Grid, w: GridRange, c: Coord, forward: bool, j: Joiner, isWordChar: char -> bool, budget: nat, k: nat)
    requires Ok(g, w) && Legal(g, w, c) && k <= budget
    requires forall m :: 0 <= m < k ==> Legal(g, w, Nth(g, w, c, m, forward)) && Grows(g, w, Nth(g, w, c, m, forward), forward, j, isWordChar)
    requires k < budget ==> Legal(g, w, Nth(g, w, c, k, forward)) && !Grows(g, w, Nth(g, w, c, k, forward), forward, j, isWordChar)
    ensures Extent(g, w, c, forward, j, isWordChar, budget) == k
  {
  }

  /** On a maximal run of one class that is shorter than the maximum length in
      both directions, `rangeForWordAt:` returns exactly the run, whatever cell
      of the run it starts from. */
  lemma WordRangeIsMaximalRun(g: Grid, w: GridRange, loc: Coord, maximumLength: int, isWordChar: char -> bool, back: nat, ahead: nat)
    requires Ok(g, w) && Legal(g, w, loc)
    requires !IsBracketCell(CellAt(g, loc)) && !CellAt(g, loc).dwcRight
    requires back < maximumLength && ahead < maximumLength
    requires var j := SameClass(ClassOf(CellAt(g, loc), isWordChar));
             && (forall m :: 0 <= m < back ==> Legal(g, w, Nth(g, w, loc, m, false)) && Grows(g, w, Nth(g, w, loc, m, false), false, j, isWordChar))
             && Legal(g, w, Nth(g, w, loc, back, false)) && !Grows(g, w, Nth(g, w, loc, back, false), false, j, isWordChar)
             && (forall m :: 0 <= m < ahead ==> Legal(g, w, Nth(g, w, loc, m, true)) && Grows(g, w, Nth(g, w, loc, m, true), true, j, isWordChar))
             && Legal(g, w, Nth(g, w, loc, ahead, true)) && !Grows(g, w, Nth(g, w, loc, ahead, true), true, j, isWordChar)
    ensures RangeForWordAt(g, w, loc, maximumLength, isWordChar) == SpanAround(g, w, loc, back, ahead)
  {
    var j := SameClass(ClassOf(CellAt(g, loc), isWordChar));
    ExtentOfRun(g, w, loc, false, j, isWordChar, maximumLength, back);
    ExtentOfRun(g, w, loc, true, j, isWordChar, maximumLength, ahead);
  }

  /** Every cell the extent takes in, past the starting one, joins the word. */
  lemma ExtentJoins(g: Grid, w: GridRange, c: Coord, forward: bool, j: Joiner, isWordChar: char -> bool, budget: nat)
    requires Ok(g, w) && Legal(g, w, c)
    ensures forall m :: 1 <= m <= Extent(g, w, c, forward, j, isWordChar, budget) ==>
              Legal(g, w, Nth(g, w, c, m, forward)) && Joins(j, CellAt(g, Nth(g, w, c, m, forward)), isWordChar)
  {
    var n := Extent(g, w, c, forward, j, isWordChar, budget);
    forall m | 1 <= m <= n
      ensures Legal(g, w, Nth(g, w, c, m, forward)) && Joins(j, CellAt(g, Nth(g, w, c, m, forward)), isWordChar)
    {
      assert Legal(g, w, Nth(g, w, c, m - 1, forward)) && Grows(g, w, Nth(g, w, c, m - 1, forward), forward, j, isWordChar);
      NthPlusOne(g, w, c, m - 1, forward);
    }
  }

  /** The grown range is a run: every cell it takes in joins the word, and the
      growth stops only at the budget, at an edge, at a hard line end or at a
      cell that does not join. */
  lemma GrownRangeIsRun(g: Grid, w: GridRange, loc: Coord, j: Joiner, isWordChar: char -> bool, maximumLength: int)
    returns (back: nat, ahead: nat)
    requires Ok(g, w) && Legal(g, w, loc)
    ensures GrownRange(g, w, loc, j, isWordChar, maximumLength) == SpanAround(g, w, loc, back, ahead)
    ensures forall m :: 1 <= m <= back ==> Legal(g, w, Nth(g, w, loc, m, false)) && Joins(j, CellAt(g, Nth(g, w, loc, m, false)), isWordChar)
    ensures forall m :: 1 <= m <= ahead ==> Legal(g, w, Nth(g, w, loc, m, true)) && Joins(j, CellAt(g, Nth(g, w, loc, m, true)), isWordChar)
    ensures back < maximumLength ==> Legal(g, w, Nth(g, w, loc, back, false)) && !Grows(g, w, Nth(g, w, loc, back, false), false, j, isWordChar)
    ensures ahead < maximumLength ==> Legal(g, w, Nth(g, w, loc, ahead, true)) && !Grows(g, w, Nth(g, w, loc, ahead, true), true, j, isWordChar)
  {
    var budget: nat := if maximumLength > 0 then maximumLength else 0;
    back := Extent(g, w, loc, false, j, isWordChar, budget);
    ahead := Extent(g, w, loc, true, j, isWordChar, budget);
    ExtentJoins(g, w, loc, false, j, isWordChar, budget);
    ExtentJoins(g, w, loc, true, j, isWordChar, budget);
  }

  /** `rangeForBigWordAt:` is delimited by whitespace: every cell of the range is
      on the same side of the whitespace divide as `loc`, and the cell just past
      either end, unless the budget, an edge or a hard line end stopped the
      growth first, is on the other side. For a big word that cell is
      whitespace or null. */
  lemma BigWordIsDelimited(g: Grid, w: GridRange, loc: Coord, maximumLength: int, isWordChar: char -> bool)
    returns (back: nat, ahead: nat)
    requires Ok(g, w) && Legal(g, w, loc)
    ensures RangeForBigWordAt(g, w, loc, maximumLength, isWordChar) == SpanAround(g, w, loc, back, ahead)
    ensures var big := IsBigWordCell(CellAt(g, loc), isWordChar);
            && (forall m :: 0 <= m <= back ==> Legal(g, w, Nth(g, w, loc, m, false)) && IsBigWordCell(CellAt(g, Nth(g, w, loc, m, false)), isWordChar) == big)
            && (forall m :: 0 <= m <= ahead ==> Legal(g, w, Nth(g, w, loc, m, true)) && IsBigWordCell(CellAt(g, Nth(g, w, loc, m, true)), isWordChar) == big)
    ensures var big := IsBigWordCell(CellAt(g, loc), isWordChar);
            var s := Nth(g, w, loc, back, false);
            var t := Step(g, w, s, false);
            back < maximumLength && t != s && InGrid(g, s) && InGrid(g, t) && !IsHardBreak(g, t, s) ==>
              IsBigWordCell(CellAt(g, t), isWordChar) != big
    ensures var big := IsBigWordCell(CellAt(g, loc), isWordChar);
            var e := Nth(g, w, loc, ahead, true);
            var t := Step(g, w, e, true);
            ahead < maximumLength && t != e && InGrid(g, e) && InGrid(g, t) && !IsHardBreak(g, e, t) ==>
              IsBigWordCell(CellAt(g, t), isWordChar) != big
  {
    var big := IsBigWordCell(CellAt(g, loc), isWordChar);
    back, ahead := GrownRangeIsRun(g, w, loc, SameBigness(big), isWordChar, maximumLength);
    assert Nth(g, w, loc, 0, false) == loc && Nth(g, w, loc, 0, true) == loc;
  }

  /** On a maximal run on one side of the whitespace divide that is shorter than
      the maximum length in both directions, `rangeForBigWordAt:` returns
      exactly the run, whatever cell of the run it starts from. */
  lemma BigWordRangeIsMaximalRun(g: Grid, w: GridRange, loc: Coord, maximumLength: int, isWordChar: char -> bool, back: nat, ahead: nat)
    requires Ok(g, w) && Legal(g, w, loc)
    requires back < maximumLength && ahead < maximumLength
    requires var j := SameBigness(IsBigWordCell(CellAt(g, loc), isWordChar));
             && (forall m :: 0 <= m < back ==> Legal(g, w, Nth(g, w, loc, m, false)) && Grows(g, w, Nth(g, w, loc, m, false), false, j, isWordChar))
             && Legal(g, w, Nth(g, w, loc, back, false)) && !Grows(g, w, Nth(g, w, loc, back, false), false, j, isWordChar)
             && (forall m :: 0 <= m < ahead ==> Legal(g, w, Nth(g, w, loc, m, true)) && Grows(g, w, Nth(g, w, loc, m, true), true, j, isWordChar))
             && Legal(g, w, Nth(g, w, loc, ahead, true)) && !Grows(g, w, Nth(g, w, loc, ahead, true), true, j, isWordChar)
    ensures RangeForBigWordAt(g, w, loc, maximumLength, isWordChar) == SpanAround(g, w, loc, back, ahead)
  {
    var j := SameBigness(IsBigWordCell(CellAt(g, loc), isWordChar));
    ExtentOfRun(g, w, loc, false, j, isWordChar, maximumLength, back);
    ExtentOfRun(g, w, loc, true, j, isWordChar, maximumLength, ahead);
  }
}
