/** Content extraction (`contentInRange:` on its plain-string path). The walk
    over a range is a stream of events, one per visited cell and one per line
    end (`enumerateCharsInRange:`); the text, its provenance and the set of
    continuation characters are a left fold of that stream under the null
    policy, followed by truncation to `maxBytes` and optional trimming. */
module Content {
  import opened Grid
  import opened Coordinates

  /** `iTermTextExtractorNullPolicy`. */
  datatype NullPolicy =
    | FromStartToFirst               // keep what comes before the first null
    | FromLastToEnd                  // keep what comes from the last null on
    | TreatAsSpace                   // midline null -> space, terminal run -> one space
    | MidlineAsSpaceIgnoreTerminal   // midline null -> space, terminal run dropped

  /** What the enumeration reports: a cell (with its logical and visual
      coordinates), or the end of a line with the number of null cells that
      ended it. */
  datatype Event =
    | CharEvent(cell: Cell, logical: Coord, visual: Coord)
    | EolEvent(hard: bool, nulls: nat, line: int, nullStart: Coord, lineEnd: Coord)

  /** An event that carries a null: a midline null cell, or a line end after
      a run of terminal nulls. */
  predicate IsNullEvent(e: Event) {
    match e
    case CharEvent(cell, _, _) => cell.isNull
    case EolEvent(_, nulls, _, _, _) => nulls > 0
  }

  // ---------------------------------------------------------------------------
  // The enumeration

  function Clamp(v: int, lo: int, hi: int): (r: int)
    requires lo <= hi
    ensures lo <= r <= hi
    ensures lo <= v <= hi ==> r == v
  {
    if v < lo then lo else if v > hi then hi else v
  }

  /** The first and last rows the enumeration visits, clamped to the grid. */
  function FirstRow(r: WindowedRange): int {
    if r.start.y < 0 then 0 else r.start.y
  }

  function LastRow(g: Grid, r: WindowedRange): int {
    if r.end.y >= |g.lines| then |g.lines| - 1 else r.end.y
  }

  /** The visual columns visited on row `y`: from the range's start column on
      its first row (the window's first column elsewhere) up to, not
      including, the range's end column on its last row (the window's limit
      elsewhere). */
  function RowStart(g: Grid, r: WindowedRange, y: int): (x: int)
    requires Ok(g, r.window)
    ensures 0 <= XMin(g, r.window) <= x <= XLimit(g, r.window) <= g.width
  {
    if y == r.start.y then Clamp(r.start.x, XMin(g, r.window), XLimit(g, r.window)) else XMin(g, r.window)
  }

  function RowEnd(g: Grid, r: WindowedRange, y: int): (x: int)
    requires Ok(g, r.window)
    ensures RowStart(g, r, y) <= x <= XLimit(g, r.window)
  {
    if y == r.end.y then Clamp(r.end.x, RowStart(g, r, y), XLimit(g, r.window)) else XLimit(g, r.window)
  }

  /** The cell shown at visual column `x` of row `y`. */
  function VisualCell(g: Grid, supportBidi: bool, y: int, x: int): Cell
    requires g.WellFormed() && InGrid(g, Coord(x, y))
  {
    CellAt(g, LogicalCoordForVisualCoord(g, supportBidi, Coord(x, y)))
  }

  /** The length of the run of null cells that ends the visual columns
      `sx .. ex-1` of row `y`. */
  function TrailingNulls(g: Grid, supportBidi: bool, y: int, sx: int, ex: int): (n: nat)
    requires g.WellFormed() && 0 <= y < |g.lines| && 0 <= sx <= ex <= g.width
    ensures n <= ex - sx
    decreases ex - sx
  {
    if ex == sx || !VisualCell(g, supportBidi, y, ex - 1).isNull then 0
    else 1 + TrailingNulls(g, supportBidi, y, sx, ex - 1)
  }

  /** The run is exactly the terminal nulls: every cell in it is null and the
      cell just before it, if any, is not. */
  lemma {:induction false} TrailingNullsAreTerminalRun(g: Grid, supportBidi: bool, y: int, sx: int, ex: int)
    requires g.WellFormed() && 0 <= y < |g.lines| && 0 <= sx <= ex <= g.width
    ensures var n := TrailingNulls(g, supportBidi, y, sx, ex);
            && (forall x :: ex - n <= x < ex ==> VisualCell(g, supportBidi, y, x).isNull)
            && (ex - n > sx ==> !VisualCell(g, supportBidi, y, ex - n - 1).isNull)
    decreases ex - sx
  {
    if ex > sx && VisualCell(g, supportBidi, y, ex - 1).isNull {
      TrailingNullsAreTerminalRun(g, supportBidi, y, sx, ex - 1);
    }
  }

  /** The event for visual column `x` of row `y`. */
  function CellEvent(g: Grid, supportBidi: bool, y: int, x: int): Event
    requires g.WellFormed() && InGrid(g, Coord(x, y))
  {
    var logical := LogicalCoordForVisualCoord(g, supportBidi, Coord(x, y));
    CharEvent(CellAt(g, logical), logical, Coord(x, y))
  }

  /** An event agrees with the grid: a cell event carries the cell found at
      its logical coordinate, which is where its visual coordinate maps; a
      line end names a row of the grid, is hard exactly when that row does
      not soft-wrap, and locates a terminal run at a null cell of the row. */
  ghost predicate Faithful(g: Grid, supportBidi: bool, e: Event)
    requires g.WellFormed()
  {
    match e
    case CharEvent(cell, logical, visual) =>
      && InGrid(g, visual)
      && logical == LogicalCoordForVisualCoord(g, supportBidi, visual)
      && InGrid(g, logical)
      && cell == CellAt(g, logical)
    case EolEvent(hard, nulls, line, nullStart, lineEnd) =>
      && 0 <= line < |g.lines|
      && lineEnd.y == line
      && hard == !g.lines[line].softWrap
      && (nulls > 0 ==> nullStart.y == line && InGrid(g, nullStart) && CellAt(g, nullStart).isNull)
  }

  /** The cell events for the visual columns `sx .. x-1` of row `y`. */
  function CellEvents(g: Grid, supportBidi: bool, y: int, sx: int, x: int): (evs: seq<Event>)
    requires g.WellFormed() && 0 <= y < |g.lines| && 0 <= sx <= x <= g.width
    ensures |evs| == x - sx
    decreases x - sx
  {
    if x == sx then [] else CellEvents(g, supportBidi, y, sx, x - 1) + [CellEvent(g, supportBidi, y, x - 1)]
  }

  /** The events of row `y`: its cells up to the run of terminal nulls, then
      the line end, which reports the length of that run. */
  function RowEvents(g: Grid, supportBidi: bool, r: WindowedRange, y: int): (evs: seq<Event>)
    requires Ok(g, r.window) && 0 <= y < |g.lines|
    ensures |evs| >= 1 && evs[|evs| - 1].EolEvent?
  {
    var sx := RowStart(g, r, y);
    var ex := RowEnd(g, r, y);
    var nulls := TrailingNulls(g, supportBidi, y, sx, ex);
    CellEvents(g, supportBidi, y, sx, ex - nulls) + [LineEnd(g, supportBidi, y, ex, nulls)]
  }

  /** The line end of row `y`, whose visited part ends at visual column `ex`
      after a terminal run of `nulls` nulls. The run is located at the logical
      coordinate of its first cell; the newline at the visual end. */
  function LineEnd(g: Grid, supportBidi: bool, y: int, ex: int, nulls: nat): Event
    requires 0 <= y < |g.lines|
  {
    EolEvent(!g.lines[y].softWrap, nulls, y, LogicalCoordForVisualCoord(g, supportBidi, Coord(ex - nulls, y)), Coord(ex, y))
  }

  /** The events of the rows from the first row of the range up to, not
      including, row `y`. */
  function RowsEvents(g: Grid, supportBidi: bool, r: WindowedRange, y: int): seq<Event>
    requires Ok(g, r.window) && y <= |g.lines|
    decreases y
  {
    if y <= FirstRow(r) then [] else RowsEvents(g, supportBidi, r, y - 1) + RowEvents(g, supportBidi, r, y - 1)
  }

  /** `enumerateCharsInRange:supportBidi:charBlock:eolBlock:` as a stream. */
  function Events(g: Grid, supportBidi: bool, r: WindowedRange): seq<Event>
    requires Ok(g, r.window)
  {
    RowsEvents(g, supportBidi, r, LastRow(g, r) + 1)
  }

  lemma {:induction false} CellEventsFaithful(g: Grid, supportBidi: bool, y: int, sx: int, x: int)
    requires g.WellFormed() && 0 <= y < |g.lines| && 0 <= sx <= x <= g.width
    ensures forall i :: 0 <= i < x - sx ==> Faithful(g, supportBidi, CellEvents(g, supportBidi, y, sx, x)[i])
    decreases x - sx
  {
    if x > sx {
      CellEventsFaithful(g, supportBidi, y, sx, x - 1);
    }
  }

  lemma RowEventsFaithful(g: Grid, supportBidi: bool, r: WindowedRange, y: int)
    requires Ok(g, r.window) && 0 <= y < |g.lines|
    ensures forall i :: 0 <= i < |RowEvents(g, supportBidi, r, y)| ==> Faithful(g, supportBidi, RowEvents(g, supportBidi, r, y)[i])
  {
    var sx := RowStart(g, r, y);
    var ex := RowEnd(g, r, y);
    var nulls := TrailingNulls(g, supportBidi, y, sx, ex);
    CellEventsFaithful(g, supportBidi, y, sx, ex - nulls);
    TrailingNullsAreTerminalRun(g, supportBidi, y, sx, ex);
    if nulls > 0 {
      assert VisualCell(g, supportBidi, y, ex - nulls).isNull;
    }
    assert Faithful(g, supportBidi, LineEnd(g, supportBidi, y, ex, nulls));
  }

  lemma {:induction false} RowsEventsFaithful(g: Grid, supportBidi: bool, r: WindowedRange, y: int)
    requires Ok(g, r.window) && y <= |g.lines|
    ensures forall i :: 0 <= i < |RowsEvents(g, supportBidi, r, y)| ==> Faithful(g, supportBidi, RowsEvents(g, supportBidi, r, y)[i])
    decreases y
  {
    if y > FirstRow(r) {
      RowsEventsFaithful(g, supportBidi, r, y - 1);
      RowEventsFaithful(g, supportBidi, r, y - 1);
    }
  }

  /** Every cell event the enumeration reports carries the cell at its
      logical coordinate, which is where its visual coordinate maps. */
  lemma EventsFaithful(g: Grid, supportBidi: bool, r: WindowedRange)
    requires Ok(g, r.window)
    ensures forall i :: 0 <= i < |Events(g, supportBidi, r)| ==> Faithful(g, supportBidi, Events(g, supportBidi, r)[i])
  {
    RowsEventsFaithful(g, supportBidi, r, LastRow(g, r) + 1);
  }

  /** With bidi support off, every logical coordinate the enumeration reports
      is its visual one. */
  lemma EventsWithoutBidi(g: Grid, r: WindowedRange)
    requires Ok(g, r.window)
    ensures forall i :: 0 <= i < |Events(g, false, r)| && Events(g, false, r)[i].CharEvent? ==>
              Events(g, false, r)[i].logical == Events(g, false, r)[i].visual
  {
    EventsFaithful(g, false, r);
  }

  // ---------------------------------------------------------------------------
  // The fold

  /** What the extraction has built so far. */
  datatype Acc = Acc(text: string, coords: seq<Coord>, continuations: set<int>, stopped: bool)

  const Fresh := Acc([], [], {}, false)

  /** The parameters of one extraction. `right` is the column limit of the
      range's window (the grid's width when there is none), `lastLine` the
      last row visited, `trim` whether trailing whitespace is trimmed,
      `collect` whether the caller asked for continuation characters. */
  datatype Settings = Settings(policy: NullPolicy, includeLastNewline: bool, lastLine: int,
                               right: int, width: int, trim: bool, collect: bool)

  function Emit(a: Acc, ch: char, c: Coord): Acc {
    a.(text := a.text + [ch], coords := a.coords + [c])
  }

  function Cleared(a: Acc): Acc {
    a.(text := [], coords := [])
  }

  /** A backslash in the last column of the range's window (or of the grid),
      when continuations are collected: it goes to the index set instead of
      the text. */
  predicate IsContinuation(s: Settings, e: Event) {
    e.CharEvent? && s.collect && Holds(e.cell, '\\') && e.logical.x == s.right - 1
  }

  /** A hard line end is written as a newline, except after the last line
      unless `includeLastNewline` asks for it. */
  predicate NewlineWanted(s: Settings, e: Event)
    requires e.EolEvent?
  {
    e.hard && (s.includeLastNewline || e.line < s.lastLine)
  }

  function CharStep(s: Settings, a: Acc, e: Event): Acc
    requires e.CharEvent?
  {
    if e.cell.isNull then
      match s.policy
      case FromStartToFirst => a.(stopped := true)
      case FromLastToEnd => Cleared(a)
      case TreatAsSpace => Emit(a, ' ', e.logical)
      case MidlineAsSpaceIgnoreTerminal => Emit(a, ' ', e.logical)
    else if e.cell.dwcRight then a
    else if IsContinuation(s, e) then a.(continuations := a.continuations + {IndexAtWidth(s.width, e.logical)})
    else Emit(a, e.cell.code, e.logical)
  }

  /** The effect of a line end's terminal run of nulls under the policy. */
  function TerminalRunStep(s: Settings, a: Acc, e: Event): Acc
    requires e.EolEvent?
  {
    if e.nulls == 0 then a
    else match s.policy
      case FromStartToFirst => a.(stopped := true)
      case FromLastToEnd => Cleared(a)
      case TreatAsSpace => Emit(a, ' ', e.nullStart)
      case MidlineAsSpaceIgnoreTerminal => a
  }

  /** The text without its trailing spaces and tabs, and their coordinates. */
  function TrimEnd(a: Acc): Acc {
    var n := TrailingWhitespaceStart(a.text);
    a.(text := a.text[..n], coords := a.coords[..if n <= |a.coords| then n else |a.coords|])
  }

  /** A line end: its terminal run, then the newline when one is wanted, with
      the line's trailing whitespace trimmed first when asked. */
  function EolStep(s: Settings, a: Acc, e: Event): Acc
    requires e.EolEvent?
  {
    var a' := TerminalRunStep(s, a, e);
    if !a'.stopped && NewlineWanted(s, e) then Emit(if s.trim then TrimEnd(a') else a', '\n', e.lineEnd) else a'
  }

  /** One callback: nothing happens once the extraction has stopped. */
  function StepEvent(s: Settings, a: Acc, e: Event): Acc {
    if a.stopped then a
    else match e
      case CharEvent(_, _, _) => CharStep(s, a, e)
      case EolEvent(_, _, _, _, _) => EolStep(s, a, e)
  }

  function Fold(s: Settings, a: Acc, evs: seq<Event>): Acc
    decreases |evs|
  {
    if |evs| == 0 then a else StepEvent(s, Fold(s, a, evs[..|evs| - 1]), evs[|evs| - 1])
  }

  lemma {:induction false} FoldAppend(s: Settings, a: Acc, xs: seq<Event>, ys: seq<Event>)
    ensures Fold(s, a, xs + ys) == Fold(s, Fold(s, a, xs), ys)
    decreases |ys|
  {
    if |ys| == 0 {
      assert xs + ys == xs;
    } else {
      var ys' := ys[..|ys| - 1];
      assert (xs + ys)[..|xs + ys| - 1] == xs + ys';
      FoldAppend(s, a, xs, ys');
    }
  }

  lemma FoldOne(s: Settings, a: Acc, e: Event)
    ensures Fold(s, a, [e]) == StepEvent(s, a, e)
  {
    assert [e][..0] == [];
  }

  /** Once stopped, the rest of the stream is ignored. */
  lemma {:induction false} FoldStopped(s: Settings, a: Acc, evs: seq<Event>)
    requires a.stopped
    ensures Fold(s, a, evs) == a
    decreases |evs|
  {
    if |evs| > 0 {
      FoldStopped(s, a, evs[..|evs| - 1]);
    }
  }

  /** Only `FromStartToFirst` ever stops the extraction. */
  lemma {:induction false} FoldNeverStops(s: Settings, a: Acc, evs: seq<Event>)
    requires !s.policy.FromStartToFirst? && !a.stopped
    ensures !Fold(s, a, evs).stopped
    decreases |evs|
  {
    if |evs| > 0 {
      FoldNeverStops(s, a, evs[..|evs| - 1]);
    }
  }

  // ---------------------------------------------------------------------------
  // Soundness of the fold: provenance and continuation characters

  /** A character of the output and the coordinate recorded for it: the
      character of a written cell at that coordinate, never a collected
      continuation backslash; a space standing for a null cell at that
      coordinate; or a newline on a row that ends hard. */
  ghost predicate Provenant(g: Grid, s: Settings, ch: char, c: Coord)
    requires g.WellFormed()
  {
    || (InGrid(g, c) && Holds(CellAt(g, c), ch) && !(s.collect && ch == '\\' && c.x == s.right - 1))
    || (ch == ' ' && InGrid(g, c) && CellAt(g, c).isNull)
    || (ch == '\n' && 0 <= c.y < |g.lines| && !g.lines[c.y].softWrap)
  }

  /** An index of the continuation set names a backslash cell in the range's
      rightmost column. */
  ghost predicate IsContinuationIndex(g: Grid, s: Settings, k: int)
    requires g.WellFormed()
  {
    exists c: Coord :: InGrid(g, c) && c.x == s.right - 1 && Holds(CellAt(g, c), '\\') && k == IndexAtWidth(s.width, c)
  }

  /** The invariant of the extraction: one coordinate per character, each
      naming where its character came from, and only continuation indexes
      in the set. */
  ghost predicate Sound(g: Grid, s: Settings, a: Acc)
    requires g.WellFormed()
  {
    && |a.text| == |a.coords|
    && (forall i :: 0 <= i < |a.text| ==> Provenant(g, s, a.text[i], a.coords[i]))
    && (forall k :: k in a.continuations ==> IsContinuationIndex(g, s, k))
  }

  lemma StepSound(g: Grid, supportBidi: bool, s: Settings, a: Acc, e: Event)
    requires g.WellFormed() && Sound(g, s, a) && Faithful(g, supportBidi, e)
    ensures Sound(g, s, StepEvent(s, a, e))
  {
    if !a.stopped {
      if e.CharEvent? {
        if IsContinuation(s, e) {
          assert IsContinuationIndex(g, s, IndexAtWidth(s.width, e.logical));
        }
      } else {
        var a' := TerminalRunStep(s, a, e);
        assert Sound(g, s, a');
        if !a'.stopped && NewlineWanted(s, e) && s.trim {
          var n := TrailingWhitespaceStart(a'.text);
          CutKeepsSound(g, s, a', 0, n);
          assert a'.text[0..n] == a'.text[..n] && a'.coords[0..n] == a'.coords[..n];
        }
      }
    }
  }

  lemma {:induction false} FoldSound(g: Grid, supportBidi: bool, s: Settings, a: Acc, evs: seq<Event>)
    requires g.WellFormed() && Sound(g, s, a)
    requires forall i :: 0 <= i < |evs| ==> Faithful(g, supportBidi, evs[i])
    ensures Sound(g, s, Fold(s, a, evs))
    decreases |evs|
  {
    if |evs| > 0 {
      FoldSound(g, supportBidi, s, a, evs[..|evs| - 1]);
      StepSound(g, supportBidi, s, Fold(s, a, evs[..|evs| - 1]), evs[|evs| - 1]);
    }
  }

  /** Every continuation backslash the walk meets is collected, unless the
      extraction has stopped before it. */
  lemma {:induction false} FoldCollects(s: Settings, a: Acc, evs: seq<Event>, i: nat)
    requires i < |evs| && IsContinuation(s, evs[i]) && !Fold(s, a, evs[..i]).stopped
    ensures IndexAtWidth(s.width, evs[i].logical) in Fold(s, a, evs).continuations
    decreases |evs|
  {
    if i == |evs| - 1 {
      assert evs[..|evs| - 1] == evs[..i];
    } else {
      var evs' := evs[..|evs| - 1];
      assert evs'[..i] == evs[..i];
      FoldCollects(s, a, evs', i);
    }
  }

  // ---------------------------------------------------------------------------
  // The null policies

  /** `FromStartToFirst`: the output is what the events before any null event
      produced; nothing from that event on counts. Taking the first null
      event, the output is the content up to the first null. */
  lemma FromStartToFirstStopsAtNull(s: Settings, a: Acc, evs: seq<Event>, k: nat)
    requires s.policy.FromStartToFirst?
    requires k < |evs| && IsNullEvent(evs[k])
    ensures Fold(s, a, evs) == Fold(s, a, evs[..k]).(stopped := true)
  {
    var b := Fold(s, a, evs[..k]);
    assert evs == evs[..k] + ([evs[k]] + evs[k + 1..]);
    FoldAppend(s, a, evs[..k], [evs[k]] + evs[k + 1..]);
    FoldAppend(s, b, [evs[k]], evs[k + 1..]);
    FoldOne(s, b, evs[k]);
    FoldStopped(s, StepEvent(s, b, evs[k]), evs[k + 1..]);
  }

  /** Two accumulators that agree on text, coordinates and stopping keep
      agreeing on them whatever follows. */
  lemma {:induction false} FoldCongruent(s: Settings, a1: Acc, a2: Acc, evs: seq<Event>)
    requires a1.text == a2.text && a1.coords == a2.coords && a1.stopped == a2.stopped
    ensures Fold(s, a1, evs).text == Fold(s, a2, evs).text
    ensures Fold(s, a1, evs).coords == Fold(s, a2, evs).coords
    ensures Fold(s, a1, evs).stopped == Fold(s, a2, evs).stopped
    decreases |evs|
  {
    if |evs| > 0 {
      FoldCongruent(s, a1, a2, evs[..|evs| - 1]);
      StepCongruent(s, Fold(s, a1, evs[..|evs| - 1]), Fold(s, a2, evs[..|evs| - 1]), evs[|evs| - 1]);
    }
  }

  lemma StepCongruent(s: Settings, a1: Acc, a2: Acc, e: Event)
    requires a1.text == a2.text && a1.coords == a2.coords && a1.stopped == a2.stopped
    ensures StepEvent(s, a1, e).text == StepEvent(s, a2, e).text
    ensures StepEvent(s, a1, e).coords == StepEvent(s, a2, e).coords
    ensures StepEvent(s, a1, e).stopped == StepEvent(s, a2, e).stopped
  {
    if !a1.stopped && e.EolEvent? {
      var c1 := TerminalRunStep(s, a1, e);
      var c2 := TerminalRunStep(s, a2, e);
      assert c1.text == c2.text && c1.coords == c2.coords && c1.stopped == c2.stopped;
    }
  }

  /** Under `FromLastToEnd` a null event leaves the same text, coordinates and
      stopping state whatever came before it. */
  lemma ClearingStep(s: Settings, a: Acc, e: Event)
    requires s.policy.FromLastToEnd? && !a.stopped && IsNullEvent(e)
    ensures StepEvent(s, a, e).text == StepEvent(s, Fresh, e).text
    ensures StepEvent(s, a, e).coords == StepEvent(s, Fresh, e).coords
    ensures StepEvent(s, a, e).stopped == StepEvent(s, Fresh, e).stopped
  {
  }

  /** `FromLastToEnd`: every null event discards what came before it, so the
      output is what the stream from that event on produces by itself. Taking
      the last null event, the output is the content from the last null to
      the end. */
  lemma FromLastToEndStartsAtNull(s: Settings, a: Acc, evs: seq<Event>, k: nat)
    requires s.policy.FromLastToEnd? && !a.stopped
    requires k < |evs| && IsNullEvent(evs[k])
    ensures Fold(s, a, evs).text == Fold(s, Fresh, evs[k..]).text
    ensures Fold(s, a, evs).coords == Fold(s, Fresh, evs[k..]).coords
  {
    var b := Fold(s, a, evs[..k]);
    FoldNeverStops(s, a, evs[..k]);
    FoldSplit(s, a, evs, k);
    FoldCons(s, b, evs, k);
    FoldCons(s, Fresh, evs[k..], 0);
    assert evs[k..][1..] == evs[k + 1..];
    ClearingStep(s, b, evs[k]);
    FoldCongruent(s, StepEvent(s, b, evs[k]), StepEvent(s, Fresh, evs[k]), evs[k + 1..]);
  }

  lemma FoldSplit(s: Settings, a: Acc, evs: seq<Event>, k: nat)
    requires k <= |evs|
    ensures Fold(s, a, evs) == Fold(s, Fold(s, a, evs[..k]), evs[k..])
  {
    assert evs == evs[..k] + evs[k..];
    FoldAppend(s, a, evs[..k], evs[k..]);
  }

  lemma FoldCons(s: Settings, a: Acc, evs: seq<Event>, k: nat)
    requires k < |evs|
    ensures Fold(s, a, evs[k..]) == Fold(s, StepEvent(s, a, evs[k]), evs[k + 1..])
  {
    assert evs[k..] == [evs[k]] + evs[k + 1..];
    FoldAppend(s, a, [evs[k]], evs[k + 1..]);
    FoldOne(s, a, evs[k]);
  }

  /** Events after which the text only grows: under the space policies every
      event, under the others every event that carries no null. */
  predicate Appends(s: Settings, e: Event) {
    s.policy.TreatAsSpace? || s.policy.MidlineAsSpaceIgnoreTerminal? || !IsNullEvent(e)
  }

  /** The same extraction without trimming. */
  function Untrimmed(s: Settings): Settings {
    s.(trim := false)
  }

  /** The text one event contributes before any trimming. A null cell is one
      space under the space policies; a terminal run of nulls, however long,
      is one space under `TreatAsSpace` and nothing under
      `MidlineAsSpaceIgnoreTerminal`; a written cell is its character unless
      it is the right half of a DWC or a collected continuation; a hard line
      end is a newline when wanted. */
  function Contribution(s: Settings, e: Event): (t: string)
    ensures e.CharEvent? && e.cell.isNull && (s.policy.TreatAsSpace? || s.policy.MidlineAsSpaceIgnoreTerminal?) ==> t == " "
    ensures e.CharEvent? && !e.cell.isNull ==>
              t == (if e.cell.dwcRight || IsContinuation(s, e) then "" else [e.cell.code])
    ensures e.EolEvent? && e.nulls > 0 && s.policy.TreatAsSpace? ==>
              t == " " + (if NewlineWanted(s, e) then "\n" else "")
    ensures e.EolEvent? && (e.nulls == 0 || s.policy.MidlineAsSpaceIgnoreTerminal?) ==>
              t == (if NewlineWanted(s, e) then "\n" else "")
  {
    StepEvent(Untrimmed(s), Fresh, e).text
  }

  /** The contributions of a stream, in order. */
  function Texts(s: Settings, evs: seq<Event>): string
    decreases |evs|
  {
    if |evs| == 0 then [] else Texts(s, evs[..|evs| - 1]) + Contribution(s, evs[|evs| - 1])
  }

  lemma StepAppends(s: Settings, a: Acc, e: Event)
    requires !a.stopped && Appends(s, e)
    ensures StepEvent(Untrimmed(s), a, e).text == a.text + Contribution(s, e)
    ensures !StepEvent(Untrimmed(s), a, e).stopped
  {
  }

  /** Over events that only append, the untrimmed output is the concatenation
      of what each event contributes: under `TreatAsSpace` and
      `MidlineAsSpaceIgnoreTerminal` this is the whole stream, so each midline
      null is a space and each terminal run one space or nothing. With
      trimming, `FoldTrims` says what becomes of it. */
  lemma {:induction false} FoldConcatenates(s: Settings, a: Acc, evs: seq<Event>)
    requires !a.stopped
    requires forall i :: 0 <= i < |evs| ==> Appends(s, evs[i])
    ensures Fold(Untrimmed(s), a, evs).text == a.text + Texts(s, evs)
    ensures !Fold(Untrimmed(s), a, evs).stopped
    decreases |evs|
  {
    if |evs| > 0 {
      var evs' := evs[..|evs| - 1];
      var e := evs[|evs| - 1];
      FoldConcatenates(s, a, evs');
      var b := Fold(Untrimmed(s), a, evs');
      StepAppends(s, b, e);
      assert Fold(Untrimmed(s), a, evs) == StepEvent(Untrimmed(s), b, e);
      assert Texts(s, evs) == Texts(s, evs') + Contribution(s, e);
    }
  }

  // ---------------------------------------------------------------------------
  // Trimming each line

  /** No space or tab stands just before a newline. */
  predicate NoSpaceBeforeNewline(t: string) {
    forall i :: 0 < i < |t| && t[i] == '\n' ==> !IsSpaceOrTab(t[i - 1])
  }

  /** The text with its trailing spaces and tabs removed. */
  function CutTrailing(t: string): string {
    t[..TrailingWhitespaceStart(t)]
  }

  /** `t` with every run of spaces and tabs that ends just before a newline
      removed: what trimming the trailing whitespace of each line leaves. */
  function StripBeforeNewlines(t: string): (r: string)
    ensures NoSpaceBeforeNewline(r)
    decreases |t|
  {
    if |t| == 0 then []
    else
      var u := StripBeforeNewlines(t[..|t| - 1]);
      if t[|t| - 1] == '\n' then
        var v := CutTrailing(u);
        assert forall i :: 0 <= i < |v| ==> v[i] == u[i];
        v + "\n"
      else
        u + [t[|t| - 1]]
  }

  /** Text that already has no whitespace before its newlines is left as it is. */
  lemma {:induction false} StripKeepsClean(t: string)
    requires NoSpaceBeforeNewline(t)
    ensures StripBeforeNewlines(t) == t
    decreases |t|
  {
    if |t| > 0 {
      var t' := t[..|t| - 1];
      assert NoSpaceBeforeNewline(t') by {
        forall i | 0 < i < |t'| && t'[i] == '\n'
          ensures !IsSpaceOrTab(t'[i - 1])
        {
          assert t[i] == t'[i] && t[i - 1] == t'[i - 1];
        }
      }
      StripKeepsClean(t');
      assert t == t' + [t[|t| - 1]];
      if t[|t| - 1] == '\n' && |t'| > 0 {
        assert !IsSpaceOrTab(t'[|t'| - 1]);
        assert TrailingWhitespaceStart(t') == |t'|;
      }
    }
  }

  lemma StripAppend(t: string, ch: char)
    ensures StripBeforeNewlines(t + [ch]) ==
            if ch == '\n' then CutTrailing(StripBeforeNewlines(t)) + "\n" else StripBeforeNewlines(t) + [ch]
  {
    assert (t + [ch])[..|t + [ch]| - 1] == t;
  }

  /** No cell event of the stream holds a newline character: terminal cells
      never store one. */
  predicate NewlineFree(evs: seq<Event>) {
    forall i :: 0 <= i < |evs| && evs[i].CharEvent? ==> evs[i].cell.code != '\n'
  }

  /** Trimming a line before its newline, step by step, gives the untrimmed
      text with the whitespace before each newline stripped. */
  lemma StepTrims(s: Settings, a: Acc, b: Acc, e: Event)
    requires s.trim && a.text == StripBeforeNewlines(b.text) && a.stopped == b.stopped
    requires e.CharEvent? ==> e.cell.code != '\n'
    ensures StepEvent(s, a, e).text == StripBeforeNewlines(StepEvent(Untrimmed(s), b, e).text)
    ensures StepEvent(s, a, e).stopped == StepEvent(Untrimmed(s), b, e).stopped
  {
    if !a.stopped {
      if e.CharEvent? {
        CharTrims(s, a, b, e);
      } else {
        EolTrims(s, a, b, e);
      }
    }
  }

  lemma CharTrims(s: Settings, a: Acc, b: Acc, e: Event)
    requires s.trim && a.text == StripBeforeNewlines(b.text) && a.stopped == b.stopped
    requires e.CharEvent? && e.cell.code != '\n'
    ensures CharStep(s, a, e).text == StripBeforeNewlines(CharStep(Untrimmed(s), b, e).text)
    ensures CharStep(s, a, e).stopped == CharStep(Untrimmed(s), b, e).stopped
  {
    if e.cell.isNull {
      if s.policy.TreatAsSpace? || s.policy.MidlineAsSpaceIgnoreTerminal? {
        StripAppend(b.text, ' ');
        assert CharStep(Untrimmed(s), b, e).text == b.text + [' '];
      } else if s.policy.FromLastToEnd? {
        assert StripBeforeNewlines([]) == [];
      }
    } else if !e.cell.dwcRight && !IsContinuation(s, e) {
      StripAppend(b.text, e.cell.code);
      assert CharStep(Untrimmed(s), b, e).text == b.text + [e.cell.code];
    }
  }

  lemma EolTrims(s: Settings, a: Acc, b: Acc, e: Event)
    requires s.trim && a.text == StripBeforeNewlines(b.text) && a.stopped == b.stopped
    requires e.EolEvent?
    ensures EolStep(s, a, e).text == StripBeforeNewlines(EolStep(Untrimmed(s), b, e).text)
    ensures EolStep(s, a, e).stopped == EolStep(Untrimmed(s), b, e).stopped
  {
    var a' := TerminalRunStep(s, a, e);
    var b' := TerminalRunStep(Untrimmed(s), b, e);
    StripAppend(b.text, ' ');
    assert a'.text == StripBeforeNewlines(b'.text) && a'.stopped == b'.stopped;
    StripAppend(b'.text, '\n');
  }

  /** Trimming each line inside the fold is stripping the whitespace before
      every newline of the untrimmed output. */
  lemma {:induction false} FoldTrims(s: Settings, a: Acc, b: Acc, evs: seq<Event>)
    requires s.trim && a.text == StripBeforeNewlines(b.text) && a.stopped == b.stopped
    requires NewlineFree(evs)
    ensures Fold(s, a, evs).text == StripBeforeNewlines(Fold(Untrimmed(s), b, evs).text)
    ensures Fold(s, a, evs).stopped == Fold(Untrimmed(s), b, evs).stopped
    decreases |evs|
  {
    if |evs| > 0 {
      var evs' := evs[..|evs| - 1];
      PrefixNewlineFree(evs, |evs| - 1);
      FoldTrims(s, a, b, evs');
      StepTrims(s, Fold(s, a, evs'), Fold(Untrimmed(s), b, evs'), evs[|evs| - 1]);
    }
  }

  // ---------------------------------------------------------------------------
  // Which events decide the output under the two cutting policies

  /** The position of the first null event, or `|evs|` when there is none. */
  function FirstNull(evs: seq<Event>): (k: nat)
    ensures k <= |evs|
    ensures k < |evs| ==> IsNullEvent(evs[k])
    ensures forall i :: 0 <= i < k ==> !IsNullEvent(evs[i])
    decreases |evs|
  {
    if |evs| == 0 then 0
    else if IsNullEvent(evs[0]) then 0
    else 1 + FirstNull(evs[1..])
  }

  /** The position of the last null event, or -1 when there is none. */
  function LastNull(evs: seq<Event>): (k: int)
    ensures -1 <= k < |evs|
    ensures k >= 0 ==> IsNullEvent(evs[k])
    ensures forall i :: k < i < |evs| ==> !IsNullEvent(evs[i])
    decreases |evs|
  {
    if |evs| == 0 then -1
    else if IsNullEvent(evs[|evs| - 1]) then |evs| - 1
    else LastNull(evs[..|evs| - 1])
  }

  /** The events whose effect survives under a cutting policy: before the
      first null for `FromStartToFirst`, from the last null on for
      `FromLastToEnd`. */
  function Survivors(p: NullPolicy, evs: seq<Event>): seq<Event> {
    if p.FromStartToFirst? then evs[..FirstNull(evs)]
    else if p.FromLastToEnd? && LastNull(evs) >= 0 then evs[LastNull(evs)..]
    else evs
  }

  /** Under the cutting policies the output is exactly what the surviving
      events produce; for `FromStartToFirst` it is their concatenation, with
      the whitespace before each newline stripped when trimming. */
  lemma SurvivorsDecideOutput(s: Settings, evs: seq<Event>)
    requires s.policy.FromStartToFirst? || s.policy.FromLastToEnd?
    ensures Fold(s, Fresh, evs).text == Fold(s, Fresh, Survivors(s.policy, evs)).text
    ensures s.policy.FromStartToFirst? && !s.trim ==> Fold(s, Fresh, evs).text == Texts(s, Survivors(s.policy, evs))
    ensures s.policy.FromStartToFirst? && s.trim && NewlineFree(evs) ==>
              Fold(s, Fresh, evs).text == StripBeforeNewlines(Texts(s, Survivors(s.policy, evs)))
  {
    if s.policy.FromStartToFirst? {
      assert Survivors(s.policy, evs) == evs[..FirstNull(evs)];
      StartSurvivors(s, evs);
      StartConcatenates(s, evs);
      if s.trim && NewlineFree(evs) {
        StartTrims(s, evs);
      }
    } else if LastNull(evs) >= 0 {
      FromLastToEndStartsAtNull(s, Fresh, evs, LastNull(evs));
    }
  }

  lemma StartSurvivors(s: Settings, evs: seq<Event>)
    requires s.policy.FromStartToFirst?
    ensures Fold(s, Fresh, evs).text == Fold(s, Fresh, evs[..FirstNull(evs)]).text
  {
    var k := FirstNull(evs);
    if k < |evs| {
      FromStartToFirstStopsAtNull(s, Fresh, evs, k);
    } else {
      assert evs[..k] == evs;
    }
  }

  lemma StartConcatenates(s: Settings, evs: seq<Event>)
    requires s.policy.FromStartToFirst?
    ensures Fold(Untrimmed(s), Fresh, evs[..FirstNull(evs)]).text == Texts(s, evs[..FirstNull(evs)])
    ensures !s.trim ==> Fold(s, Fresh, evs[..FirstNull(evs)]).text == Texts(s, evs[..FirstNull(evs)])
  {
    var k := FirstNull(evs);
    forall i | 0 <= i < |evs[..k]|
      ensures Appends(s, evs[..k][i])
    {
      assert evs[..k][i] == evs[i];
    }
    FoldConcatenates(s, Fresh, evs[..k]);
    if !s.trim {
      assert Untrimmed(s) == s;
    }
  }

  lemma StartTrims(s: Settings, evs: seq<Event>)
    requires s.policy.FromStartToFirst? && s.trim && NewlineFree(evs)
    ensures Fold(s, Fresh, evs[..FirstNull(evs)]).text == StripBeforeNewlines(Texts(s, evs[..FirstNull(evs)]))
  {
    var k := FirstNull(evs);
    StartConcatenates(s, evs);
    PrefixNewlineFree(evs, k);
    assert StripBeforeNewlines([]) == [];
    FoldTrims(s, Fresh, Fresh, evs[..k]);
  }

  lemma PrefixNewlineFree(evs: seq<Event>, k: nat)
    requires NewlineFree(evs) && k <= |evs|
    ensures NewlineFree(evs[..k])
  {
    forall i | 0 <= i < k && evs[..k][i].CharEvent?
      ensures evs[..k][i].cell.code != '\n'
    {
      assert evs[..k][i] == evs[i];
    }
  }

  /** The events the enum's own comments would keep: "ignore content prior to
      last null" for `FromStartToFirst` and "ignore content after last null"
      for `FromLastToEnd`. */
  function CommentedSurvivors(p: NullPolicy, evs: seq<Event>): (kept: seq<Event>)
    ensures p.FromStartToFirst? && LastNull(evs) >= 0 ==> forall e :: e in kept ==> !IsNullEvent(e)
    ensures p.FromLastToEnd? && LastNull(evs) >= 0 ==> |kept| == LastNull(evs)
  {
    var k := LastNull(evs);
    if k < 0 then evs
    else if p.FromStartToFirst? then evs[k + 1..]
    else if p.FromLastToEnd? then evs[..k]
    else evs
  }

  /** A line holding "a", a null, "b": the comments keep "b" for
      `FromStartToFirst` and "a" for `FromLastToEnd`, while the names and the
      description of `contentInRange:` keep "a" and the null-led "b". */
  lemma CommentsContradictNames()
    ensures var a := CharEvent(Cell('a', false, false), Coord(0, 0), Coord(0, 0));
            var z := CharEvent(NullCell, Coord(1, 0), Coord(1, 0));
            var b := CharEvent(Cell('b', false, false), Coord(2, 0), Coord(2, 0));
            && CommentedSurvivors(FromStartToFirst, [a, z, b]) == [b]
            && Survivors(FromStartToFirst, [a, z, b]) == [a]
            && CommentedSurvivors(FromLastToEnd, [a, z, b]) == [a]
            && Survivors(FromLastToEnd, [a, z, b]) == [z, b]
  {
    var a := CharEvent(Cell('a', false, false), Coord(0, 0), Coord(0, 0));
    var z := CharEvent(NullCell, Coord(1, 0), Coord(1, 0));
    var b := CharEvent(Cell('b', false, false), Coord(2, 0), Coord(2, 0));
    var evs := [a, z, b];
    assert LastNull(evs) == 1 by {
      assert !IsNullEvent(evs[2]);
      assert evs[..2] == [a, z];
    }
    assert FirstNull(evs) == 1 by {
      assert evs[1..] == [z, b];
    }
  }

  // ---------------------------------------------------------------------------
  // Truncation and trimming

  /** Shortening to `maxBytes` entries: the head is kept when `truncateTail`,
      the tail otherwise; a non-positive cap keeps everything. */
  function Truncate<T>(xs: seq<T>, maxBytes: int, truncateTail: bool): (r: seq<T>)
    ensures maxBytes <= 0 || |xs| <= maxBytes ==> r == xs
    ensures maxBytes > 0 ==> |r| == if |xs| <= maxBytes then |xs| else maxBytes
    ensures truncateTail ==> r == xs[..|r|]
    ensures !truncateTail ==> r == xs[|xs| - |r|..]
  {
    if maxBytes <= 0 || |xs| <= maxBytes then xs
    else if truncateTail then xs[..maxBytes]
    else xs[|xs| - maxBytes..]
  }

  /** Where the trailing run of spaces and tabs begins. */
  function TrailingWhitespaceStart(t: string): (n: nat)
    ensures n <= |t|
    ensures forall i :: n <= i < |t| ==> IsSpaceOrTab(t[i])
    ensures n > 0 ==> !IsSpaceOrTab(t[n - 1])
    decreases |t|
  {
    if |t| == 0 || !IsSpaceOrTab(t[|t| - 1]) then |t| else TrailingWhitespaceStart(t[..|t| - 1])
  }

  /** Cutting text and coordinates at the same places keeps them paired. */
  lemma CutKeepsSound(g: Grid, s: Settings, a: Acc, from: nat, to: nat)
    requires g.WellFormed() && Sound(g, s, a) && from <= to <= |a.text|
    ensures Sound(g, s, a.(text := a.text[from..to], coords := a.coords[from..to]))
  {
    var b := a.(text := a.text[from..to], coords := a.coords[from..to]);
    forall i | 0 <= i < |b.text|
      ensures Provenant(g, s, b.text[i], b.coords[i])
    {
      assert b.text[i] == a.text[from + i] && b.coords[i] == a.coords[from + i];
    }
  }

  // ---------------------------------------------------------------------------
  // The whole extraction

  /** The plain-string result of `contentInRange:`: the text, one coordinate
      per character, and the continuation indexes found. */
  datatype Extracted = Extracted(text: string, coords: seq<Coord>, continuations: set<int>)

  function SettingsFor(g: Grid, r: WindowedRange, policy: NullPolicy, includeLastNewline: bool,
                       trim: bool, collect: bool): Settings {
    Settings(policy, includeLastNewline, LastRow(g, r), XLimit(g, r.window), g.width, trim, collect)
  }

  /** The truncated result of a finished fold, with the trailing whitespace
      of its end trimmed when asked. */
  function Finish(a: Acc, trim: bool, maxBytes: int, truncateTail: bool): Extracted {
    var b := a.(text := Truncate(a.text, maxBytes, truncateTail), coords := Truncate(a.coords, maxBytes, truncateTail));
    var c := if trim then TrimEnd(b) else b;
    Extracted(c.text, c.coords, a.continuations)
  }

  function Extract(g: Grid, supportBidi: bool, r: WindowedRange, policy: NullPolicy, includeLastNewline: bool,
                   trim: bool, maxBytes: int, truncateTail: bool, collect: bool): Extracted
    requires Ok(g, r.window)
  {
    var s := SettingsFor(g, r, policy, includeLastNewline, trim, collect);
    Finish(Fold(s, Fresh, Events(g, supportBidi, r)), trim, maxBytes, truncateTail)
  }

  lemma TruncateKeepsSound(g: Grid, s: Settings, a: Acc, maxBytes: int, truncateTail: bool)
    requires g.WellFormed() && Sound(g, s, a)
    ensures Sound(g, s, a.(text := Truncate(a.text, maxBytes, truncateTail),
                           coords := Truncate(a.coords, maxBytes, truncateTail)))
  {
    var t := Truncate(a.text, maxBytes, truncateTail);
    if truncateTail {
      CutKeepsSound(g, s, a, 0, |t|);
      assert a.text[0..|t|] == t;
      assert a.coords[0..|t|] == Truncate(a.coords, maxBytes, truncateTail);
    } else {
      var from := |a.text| - |t|;
      CutKeepsSound(g, s, a, from, |a.text|);
      assert a.text[from..|a.text|] == t;
      assert a.coords[from..|a.coords|] == Truncate(a.coords, maxBytes, truncateTail);
    }
  }

  /** Truncating and trimming keep the fold's result sound and respect the cap. */
  lemma FinishIsSound(g: Grid, s: Settings, a: Acc, trim: bool, maxBytes: int, truncateTail: bool)
    requires g.WellFormed() && Sound(g, s, a)
    ensures var x := Finish(a, trim, maxBytes, truncateTail);
            && Sound(g, s, Acc(x.text, x.coords, x.continuations, a.stopped))
            && (maxBytes > 0 ==> |x.text| <= maxBytes)
  {
    var b := a.(text := Truncate(a.text, maxBytes, truncateTail), coords := Truncate(a.coords, maxBytes, truncateTail));
    TruncateKeepsSound(g, s, a, maxBytes, truncateTail);
    if trim {
      var n := TrailingWhitespaceStart(b.text);
      CutKeepsSound(g, s, b, 0, n);
      assert b.text[0..n] == b.text[..n] && b.coords[0..n] == b.coords[..n];
    }
  }

  /** What `contentInRange:` promises: at most `maxBytes` characters when the
      cap is positive, exactly one provenance coordinate per character, each
      character a space, a newline or the character of a written cell at its
      coordinate (a collected backslash in the rightmost column never
      appears), only continuation indexes in the set and none unless asked. */
  lemma ExtractIsSound(g: Grid, supportBidi: bool, r: WindowedRange, policy: NullPolicy, includeLastNewline: bool,
                       trim: bool, maxBytes: int, truncateTail: bool, collect: bool)
    requires Ok(g, r.window)
    ensures var x := Extract(g, supportBidi, r, policy, includeLastNewline, trim, maxBytes, truncateTail, collect);
            var s := SettingsFor(g, r, policy, includeLastNewline, trim, collect);
            && |x.coords| == |x.text|
            && (maxBytes > 0 ==> |x.text| <= maxBytes)
            && (forall i :: 0 <= i < |x.text| ==> Provenant(g, s, x.text[i], x.coords[i]))
            && (forall k :: k in x.continuations ==> IsContinuationIndex(g, s, k))
            && (!collect ==> x.continuations == {})
  {
    var s := SettingsFor(g, r, policy, includeLastNewline, trim, collect);
    var evs := Events(g, supportBidi, r);
    EventsFaithful(g, supportBidi, r);
    FoldSound(g, supportBidi, s, Fresh, evs);
    var a := Fold(s, Fresh, evs);
    if !collect {
      NoContinuationsUnlessCollected(s, Fresh, evs);
    }
    FinishIsSound(g, s, a, trim, maxBytes, truncateTail);
  }

  /** Terminal cells never store a newline character. */
  ghost predicate NoNewlineCells(g: Grid)
    requires g.WellFormed()
  {
    forall c :: InGrid(g, c) ==> CellAt(g, c).code != '\n'
  }

  lemma SliceKeepsNoSpace(t: string, i: nat, j: nat)
    requires NoSpaceBeforeNewline(t) && i <= j <= |t|
    ensures NoSpaceBeforeNewline(t[i..j])
  {
    forall k | 0 < k < j - i && t[i..j][k] == '\n'
      ensures !IsSpaceOrTab(t[i..j][k - 1])
    {
      assert t[i..j][k] == t[i + k] && t[i..j][k - 1] == t[i + k - 1];
    }
  }

  /** The fold with trimming leaves no whitespace before a newline. */
  lemma FoldIsClean(g: Grid, supportBidi: bool, r: WindowedRange, s: Settings)
    requires Ok(g, r.window) && NoNewlineCells(g) && s.trim
    ensures NoSpaceBeforeNewline(Fold(s, Fresh, Events(g, supportBidi, r)).text)
  {
    var evs := Events(g, supportBidi, r);
    EventsFaithful(g, supportBidi, r);
    assert NewlineFree(evs) by {
      forall i | 0 <= i < |evs| && evs[i].CharEvent?
        ensures evs[i].cell.code != '\n'
      {
        assert Faithful(g, supportBidi, evs[i]);
      }
    }
    assert StripBeforeNewlines([]) == [];
    FoldTrims(s, Fresh, Fresh, evs);
  }

  /** Truncation keeps a text without whitespace before a newline so. */
  lemma TruncateKeepsClean(t: string, maxBytes: int, truncateTail: bool)
    requires NoSpaceBeforeNewline(t)
    ensures NoSpaceBeforeNewline(Truncate(t, maxBytes, truncateTail))
  {
    var u := Truncate(t, maxBytes, truncateTail);
    if truncateTail {
      SliceKeepsNoSpace(t, 0, |u|);
      assert t[0..|u|] == u;
    } else {
      SliceKeepsNoSpace(t, |t| - |u|, |t|);
      assert t[|t| - |u|..|t|] == u;
    }
  }

  /** Cutting the trailing whitespace keeps a clean text clean and leaves no
      space or tab at its end. */
  lemma CutTrailingIsClean(u: string)
    requires NoSpaceBeforeNewline(u)
    ensures NoSpaceBeforeNewline(CutTrailing(u))
    ensures |CutTrailing(u)| > 0 ==> !IsSpaceOrTab(CutTrailing(u)[|CutTrailing(u)| - 1])
  {
    var n := TrailingWhitespaceStart(u);
    SliceKeepsNoSpace(u, 0, n);
    assert u[0..n] == u[..n];
  }

  /** Truncating keeps a clean text clean, and the final trim leaves no
      whitespace at the end. */
  lemma FinishTrims(a: Acc, maxBytes: int, truncateTail: bool)
    requires NoSpaceBeforeNewline(a.text)
    ensures var x := Finish(a, true, maxBytes, truncateTail);
            && NoSpaceBeforeNewline(x.text)
            && (|x.text| > 0 ==> !IsSpaceOrTab(x.text[|x.text| - 1]))
  {
    var u := Truncate(a.text, maxBytes, truncateTail);
    TruncateKeepsClean(a.text, maxBytes, truncateTail);
    CutTrailingIsClean(u);
    assert Finish(a, true, maxBytes, truncateTail).text == CutTrailing(u);
  }

  /** With `trimTrailingWhitespace`, no line of the extracted text ends in a
      space or tab: none stands before a newline, nor at the very end. */
  lemma ExtractTrims(g: Grid, supportBidi: bool, r: WindowedRange, policy: NullPolicy, includeLastNewline: bool,
                     maxBytes: int, truncateTail: bool, collect: bool)
    requires Ok(g, r.window) && NoNewlineCells(g)
    ensures var x := Extract(g, supportBidi, r, policy, includeLastNewline, true, maxBytes, truncateTail, collect);
            && NoSpaceBeforeNewline(x.text)
            && (|x.text| > 0 ==> !IsSpaceOrTab(x.text[|x.text| - 1]))
  {
    var s := SettingsFor(g, r, policy, includeLastNewline, true, collect);
    FoldIsClean(g, supportBidi, r, s);
    FinishTrims(Fold(s, Fresh, Events(g, supportBidi, r)), maxBytes, truncateTail);
  }

  lemma {:induction false} NoContinuationsUnlessCollected(s: Settings, a: Acc, evs: seq<Event>)
    requires !s.collect
    ensures Fold(s, a, evs).continuations == a.continuations
    decreases |evs|
  {
    if |evs| > 0 {
      NoContinuationsUnlessCollected(s, a, evs[..|evs| - 1]);
    }
  }
}
