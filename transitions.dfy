/** The puzzle state machine as pure functions: one function per action of
    crosswordReducer, each stating in its contract what the action does to
    the state, and Step, the whole transition function with the view-only
    guard in front. The methods in module Reducer compute the same states
    with the source's loops and are proved equal to these functions. */
module Transitions {
  import opened CrosswordTypes

  // ---------------------------------------------------------------------
  // Vocabulary for talking about grids

  /** A cell with its selection flags cleared. */
  function Strip(c: CellData): CellData {
    c.(isActive := false, isHighlighted := false)
  }

  predicate SameShape(g: Grid, h: Grid) {
    |g| == |h| && forall r :: 0 <= r < |g| ==> |g[r]| == |h[r]|
  }

  /** g and h agree on everything but the selection flags. */
  predicate SameContent(g: Grid, h: Grid) {
    SameShape(g, h) &&
    forall r, c :: 0 <= r < |g| && 0 <= c < |g[r]| ==> Strip(g[r][c]) == Strip(h[r][c])
  }

  /** g and h agree on the puzzle itself: everything but the player's values
      and the selection flags. */
  predicate SameBoard(g: Grid, h: Grid) {
    SameShape(g, h) &&
    forall r, c :: 0 <= r < |g| && 0 <= c < |g[r]| ==>
      Strip(g[r][c]).(value := "") == Strip(h[r][c]).(value := "")
  }

  /** g and h hold the same player values. */
  predicate SameValues(g: Grid, h: Grid) {
    SameShape(g, h) &&
    forall r, c :: 0 <= r < |g| && 0 <= c < |g[r]| ==> g[r][c].value == h[r][c].value
  }

  /** The active cells of g are exactly the one at p (none when p is None). */
  predicate ActiveExactly(g: Grid, p: Option<Pos>) {
    forall r, c :: 0 <= r < |g| && 0 <= c < |g[r]| ==> (g[r][c].isActive <==> p == Some(Pos(r, c)))
  }

  /** The highlighted cells of g are exactly the on-grid span of clue
      (none when clue is None). */
  predicate HighlightsExactly(g: Grid, clue: Option<ClueData>) {
    forall r, c :: 0 <= r < |g| && 0 <= c < |g[r]| ==>
      (g[r][c].isHighlighted <==> clue.Some? && Covers(clue.value, r, c))
  }

  /** The target of a cell action is on the grid and not blank. */
  predicate Selectable(g: Grid, row: int, col: int)
    requires Rectangular(g)
  {
    InBounds(g, row, col) && !g[row][col].isBlank
  }

  /** Every cell is blank or holds its solution. */
  predicate AllSolved(g: Grid) {
    forall r, c :: 0 <= r < |g| && 0 <= c < |g[r]| ==> g[r][c].isBlank || g[r][c].value == g[r][c].solution
  }

  // ---------------------------------------------------------------------
  // Grid rebuilds shared by several actions

  /** The map that clears isActive and isHighlighted on every cell. */
  function ClearFlags(g: Grid): Grid {
    seq(|g|, r requires 0 <= r < |g| => seq(|g[r]|, c requires 0 <= c < |g[r]| => Strip(g[r][c])))
  }

  /** Sets isHighlighted on every on-grid cell of the clue's span. */
  function Highlight(g: Grid, clue: ClueData): Grid {
    seq(|g|, r requires 0 <= r < |g| => seq(|g[r]|, c requires 0 <= c < |g[r]| =>
      if Covers(clue, r, c) then g[r][c].(isHighlighted := true) else g[r][c]))
  }

  /** newGrid[row][col].isActive = true */
  function MarkActive(g: Grid, row: int, col: int): Grid
    requires Rectangular(g) && InBounds(g, row, col)
  {
    g[row := g[row][col := g[row][col].(isActive := true)]]
  }

  /** Replaces the value of one cell. */
  function WithValue(g: Grid, row: int, col: int, v: string): Grid
    requires Rectangular(g) && InBounds(g, row, col)
  {
    g[row := g[row][col := g[row][col].(value := v)]]
  }

  lemma SameShapeRectangular(g: Grid, h: Grid)
    requires Rectangular(g) && SameShape(g, h)
    ensures Rectangular(h) && Width(h) == Width(g)
  {
  }

  lemma MarkActiveFacts(g: Grid, row: int, col: int)
    requires Rectangular(g) && InBounds(g, row, col)
    ensures var h := MarkActive(g, row, col);
            && SameShape(h, g) && Rectangular(h) && Width(h) == Width(g)
            && forall i, j :: 0 <= i < |g| && 0 <= j < |g[i]| ==>
                 h[i][j] == if i == row && j == col then g[i][j].(isActive := true) else g[i][j]
  {
    var h := MarkActive(g, row, col);
    assert SameShape(h, g);
    SameShapeRectangular(g, h);
  }

  lemma HighlightFacts(g: Grid, clue: ClueData)
    ensures var h := Highlight(g, clue);
            && SameShape(h, g) && (Rectangular(g) ==> Rectangular(h) && Width(h) == Width(g))
            && forall i, j :: 0 <= i < |g| && 0 <= j < |g[i]| ==>
                 h[i][j] == if Covers(clue, i, j) then g[i][j].(isHighlighted := true) else g[i][j]
  {
    var h := Highlight(g, clue);
    assert SameShape(h, g);
    if Rectangular(g) { SameShapeRectangular(g, h); }
  }

  /** The flags after clearing, marking p active and then highlighting the
      clue's span (SET_ACTIVE_CELL, TOGGLE_CLUE_DIRECTION). */
  lemma MarkThenHighlight(g: Grid, p: Pos, clue: Option<ClueData>)
    requires Rectangular(g) && InBounds(g, p.row, p.col)
    ensures var h := MarkActive(ClearFlags(g), p.row, p.col);
            var h' := if clue.Some? then Highlight(h, clue.value) else h;
            && Rectangular(h') && Width(h') == Width(g)
            && SameContent(h', g) && ActiveExactly(h', Some(p)) && HighlightsExactly(h', clue)
  {
    var c := ClearFlags(g);
    ClearFlagsFacts(g);
    MarkActiveFacts(c, p.row, p.col);
    if clue.Some? {
      HighlightFacts(MarkActive(c, p.row, p.col), clue.value);
    }
  }

  /** The same flags when the highlight comes first (SET_ACTIVE_CLUE). */
  lemma HighlightThenMark(g: Grid, p: Pos, clue: ClueData)
    requires Rectangular(g) && InBounds(g, p.row, p.col)
    ensures var h := MarkActive(Highlight(ClearFlags(g), clue), p.row, p.col);
            && Rectangular(h) && Width(h) == Width(g)
            && SameContent(h, g) && ActiveExactly(h, Some(p)) && HighlightsExactly(h, Some(clue))
  {
    var c := ClearFlags(g);
    ClearFlagsFacts(g);
    HighlightFacts(c, clue);
    MarkActiveFacts(Highlight(c, clue), p.row, p.col);
  }

  lemma ClearFlagsFacts(g: Grid)
    ensures SameContent(ClearFlags(g), g)
    ensures ActiveExactly(ClearFlags(g), None) && HighlightsExactly(ClearFlags(g), None)
    ensures Rectangular(g) ==> Rectangular(ClearFlags(g)) && Width(ClearFlags(g)) == Width(g)
  {
  }

  lemma WithValueFacts(g: Grid, row: int, col: int, v: string)
    requires Rectangular(g) && InBounds(g, row, col)
    ensures var h := WithValue(g, row, col, v);
            && SameShape(h, g) && Rectangular(h) && Width(h) == Width(g)
            && forall i, j :: 0 <= i < |g| && 0 <= j < |g[i]| ==>
                 h[i][j] == if i == row && j == col then g[i][j].(value := v) else g[i][j]
  {
    var h := WithValue(g, row, col, v);
    assert SameShape(h, g);
    SameShapeRectangular(g, h);
  }

  /** The clue an optional id refers to, searched across-then-down. */
  function ClueOf(s: State, id: Option<nat>): Option<ClueData> {
    if id.None? then None else FindClue(AllClues(s.clues), id.value)
  }

  // ---------------------------------------------------------------------
  // SET_ACTIVE_CELL

  /** The clue a selected cell resolves to: the current one when the cell
      belongs to it, else the cell's first clue; a cell without clues keeps
      the current one. */
  function ResolveClueId(current: Option<nat>, cell: CellData): (r: Option<nat>)
    ensures |cell.clueIds| > 0 ==> r.Some? && r.value in cell.clueIds
    ensures current.Some? && current.value in cell.clueIds ==> r == current
    ensures |cell.clueIds| == 0 ==> r == current
  {
    if |cell.clueIds| > 0 && (current.None? || current.value !in cell.clueIds) then Some(cell.clueIds[0])
    else current
  }

  function SelectCell(s: State, row: int, col: int): (r: State)
    requires Rectangular(s.grid)
    ensures !Selectable(s.grid, row, col) ==> r == s
    ensures Selectable(s.grid, row, col) ==>
      && r == s.(grid := r.grid, activeCell := Some(Pos(row, col)), activeClueId := r.activeClueId)
      && SameContent(r.grid, s.grid)
      && ActiveExactly(r.grid, Some(Pos(row, col)))
      && HighlightsExactly(r.grid, ClueOf(s, r.activeClueId))
    ensures Selectable(s.grid, row, col) && |s.grid[row][col].clueIds| > 0 ==>
      r.activeClueId.Some? && r.activeClueId.value in s.grid[row][col].clueIds
    ensures Selectable(s.grid, row, col) && s.activeClueId.Some? && s.activeClueId.value in s.grid[row][col].clueIds ==>
      r.activeClueId == s.activeClueId
    ensures Selectable(s.grid, row, col) && |s.grid[row][col].clueIds| == 0 ==> r.activeClueId == s.activeClueId
  {
    if !Selectable(s.grid, row, col) then s
    else
      var id := ResolveClueId(s.activeClueId, s.grid[row][col]);
      var marked := MarkActive(ClearFlags(s.grid), row, col);
      var clue := ClueOf(s, id);
      MarkThenHighlight(s.grid, Pos(row, col), clue);
      var g := if clue.Some? then Highlight(marked, clue.value) else marked;
      s.(grid := g, activeCell := Some(Pos(row, col)), activeClueId := id)
  }

  // ---------------------------------------------------------------------
  // SET_ACTIVE_CLUE

  /** The source writes to the clue's start cell without a bounds check. */
  predicate ClueStartOnGrid(s: State, clueId: nat) {
    var clue := FindClue(AllClues(s.clues), clueId);
    clue.Some? ==> InBounds(s.grid, clue.value.startRow, clue.value.startCol)
  }

  function SelectClue(s: State, clueId: nat): (r: State)
    requires Rectangular(s.grid) && ClueStartOnGrid(s, clueId)
    ensures FindClue(AllClues(s.clues), clueId).None? ==> r == s
    ensures FindClue(AllClues(s.clues), clueId).Some? ==>
      var clue := FindClue(AllClues(s.clues), clueId).value;
      && r == s.(grid := r.grid, activeClueId := Some(clueId), activeCell := Some(Pos(clue.startRow, clue.startCol)))
      && SameContent(r.grid, s.grid)
      && ActiveExactly(r.grid, Some(Pos(clue.startRow, clue.startCol)))
      && HighlightsExactly(r.grid, Some(clue))
  {
    match FindClue(AllClues(s.clues), clueId)
    case None => s
    case Some(clue) =>
      HighlightThenMark(s.grid, Pos(clue.startRow, clue.startCol), clue);
      var g := MarkActive(Highlight(ClearFlags(s.grid), clue), clue.startRow, clue.startCol);
      s.(grid := g, activeClueId := Some(clueId), activeCell := Some(Pos(clue.startRow, clue.startCol)))
  }

  // ---------------------------------------------------------------------
  // SET_CELL_VALUE

  function UpperChar(ch: char): char {
    if 'a' <= ch <= 'z' then (ch as int - 'a' as int + 'A' as int) as char else ch
  }

  /** value.toUpperCase(), on ASCII letters. */
  function Upper(v: string): (u: string)
    ensures |u| == |v|
    ensures forall i :: 0 <= i < |v| ==> !('a' <= u[i] <= 'z')
  {
    if v == [] then [] else [UpperChar(v[0])] + Upper(v[1..])
  }

  /** Math.floor((now - startTime) / 1000): Dafny's division by a positive
      divisor rounds toward negative infinity, as Math.floor does. */
  function ElapsedSeconds(startTime: int, now: int): int {
    (now - startTime) / 1000
  }

  function EnterValue(s: State, row: int, col: int, v: string, now: int): (r: State)
    requires Rectangular(s.grid)
    ensures !Selectable(s.grid, row, col) ==> r == s
    ensures Selectable(s.grid, row, col) ==>
      && r == s.(grid := r.grid, isComplete := r.isComplete, completionTime := r.completionTime)
      && SameShape(r.grid, s.grid)
      && (forall i, j :: 0 <= i < |s.grid| && 0 <= j < |s.grid[i]| ==>
            r.grid[i][j] == if i == row && j == col then s.grid[i][j].(value := Upper(v)) else s.grid[i][j])
      && (r.isComplete <==> AllSolved(r.grid))
      && (!s.isComplete && r.isComplete ==> r.completionTime == Some(ElapsedSeconds(s.startTime, now)))
      && (s.isComplete || !r.isComplete ==> r.completionTime == s.completionTime)
  {
    if !Selectable(s.grid, row, col) then s
    else
      var g := WithValue(s.grid, row, col, Upper(v));
      var complete := AllSolved(g);
      s.(grid := g, isComplete := complete,
         completionTime := if complete && !s.isComplete then Some(ElapsedSeconds(s.startTime, now)) else s.completionTime)
  }

  // ---------------------------------------------------------------------
  // MOVE_ACTIVE_CELL

  /** The coordinate MOVE_ACTIVE_CELL tries to move the cursor to. Arrows
      step to the neighbour; next/prev step along the active clue and wrap
      to its other end; without a known active clue, next/prev stay put. */
  function MoveTarget(s: State, d: MoveDirection): (p: Pos)
    requires s.activeCell.Some?
    ensures d == MoveUp ==> p == Pos(s.activeCell.value.row - 1, s.activeCell.value.col)
    ensures d == MoveDown ==> p == Pos(s.activeCell.value.row + 1, s.activeCell.value.col)
    ensures d == MoveLeft ==> p == Pos(s.activeCell.value.row, s.activeCell.value.col - 1)
    ensures d == MoveRight ==> p == Pos(s.activeCell.value.row, s.activeCell.value.col + 1)
    ensures (d == MoveNext || d == MovePrev) && ClueOf(s, s.activeClueId).None? ==> p == s.activeCell.value
    ensures (d == MoveNext || d == MovePrev) && ClueOf(s, s.activeClueId).Some? ==>
      var clue := ClueOf(s, s.activeClueId).value;
      var at := s.activeCell.value;
      && (clue.direction == Across ==> p.row == at.row)
      && (clue.direction == Down ==> p.col == at.col)
      && (clue.length >= 1 ==>
            if clue.direction == Across then clue.startCol <= p.col < clue.startCol + clue.length
            else clue.startRow <= p.row < clue.startRow + clue.length)
    ensures d == MoveNext && ClueOf(s, s.activeClueId).Some? ==>
      var clue := ClueOf(s, s.activeClueId).value;
      var at := s.activeCell.value;
      var k := SpanIndex(clue, at.row, at.col);
      && (0 <= k < clue.length - 1 ==> SpanIndex(clue, p.row, p.col) == k + 1)
      && (clue.length >= 1 && k == clue.length - 1 ==> SpanIndex(clue, p.row, p.col) == 0)
    ensures d == MovePrev && ClueOf(s, s.activeClueId).Some? ==>
      var clue := ClueOf(s, s.activeClueId).value;
      var at := s.activeCell.value;
      var k := SpanIndex(clue, at.row, at.col);
      && (0 < k < clue.length ==> SpanIndex(clue, p.row, p.col) == k - 1)
      && (clue.length >= 1 && k == 0 ==> SpanIndex(clue, p.row, p.col) == clue.length - 1)
  {
    var at := s.activeCell.value;
    match d
    case MoveUp => Pos(at.row - 1, at.col)
    case MoveDown => Pos(at.row + 1, at.col)
    case MoveLeft => Pos(at.row, at.col - 1)
    case MoveRight => Pos(at.row, at.col + 1)
    case _ =>
      match ClueOf(s, s.activeClueId)
      case None => at
      case Some(clue) =>
        var offset := if d == MoveNext then 1 else -1;
        if clue.direction == Across then
          var c := at.col + offset;
          var c' := if c < clue.startCol then clue.startCol + clue.length - 1
                    else if c >= clue.startCol + clue.length then clue.startCol
                    else c;
          Pos(at.row, c')
        else
          var r := at.row + offset;
          var r' := if r < clue.startRow then clue.startRow + clue.length - 1
                    else if r >= clue.startRow + clue.length then clue.startRow
                    else r;
          Pos(r', at.col)
  }

  function MoveCursor(s: State, d: MoveDirection): (r: State)
    requires Rectangular(s.grid)
    ensures s.activeCell.None? ==> r == s
    ensures s.activeCell.Some? && !Selectable(s.grid, MoveTarget(s, d).row, MoveTarget(s, d).col) ==> r == s
    ensures s.activeCell.Some? && Selectable(s.grid, MoveTarget(s, d).row, MoveTarget(s, d).col) ==>
      r == SelectCell(s, MoveTarget(s, d).row, MoveTarget(s, d).col) && r.activeCell == Some(MoveTarget(s, d))
  {
    if s.activeCell.None? then s
    else
      var p := MoveTarget(s, d);
      if !Selectable(s.grid, p.row, p.col) then s else SelectCell(s, p.row, p.col)
  }

  // ---------------------------------------------------------------------
  // USE_HINT

  /** The on-grid cells among the first n of the clue's span whose value is
      not the solution, in span order (the source's clueCells). */
  function WrongCellsUpTo(g: Grid, clue: ClueData, n: int): (ps: seq<Pos>)
    requires Rectangular(g)
    decreases n
    ensures forall k :: 0 <= k < |ps| ==>
      && InBounds(g, ps[k].row, ps[k].col)
      && CoversPrefix(clue, n, ps[k].row, ps[k].col)
      && g[ps[k].row][ps[k].col].value != g[ps[k].row][ps[k].col].solution
    ensures forall r, c :: InBounds(g, r, c) && CoversPrefix(clue, n, r, c) && g[r][c].value != g[r][c].solution ==>
      Pos(r, c) in ps
  {
    if n <= 0 then []
    else
      var p := SpanCell(clue, n - 1);
      var rest := WrongCellsUpTo(g, clue, n - 1);
      if InBounds(g, p.row, p.col) && g[p.row][p.col].value != g[p.row][p.col].solution then rest + [p]
      else rest
  }

  function WrongCells(g: Grid, clue: ClueData): seq<Pos>
    requires Rectangular(g)
  {
    WrongCellsUpTo(g, clue, clue.length)
  }

  /** r is s with one wrong cell, p, revealed and one more hint counted. */
  predicate RevealsOnly(s: State, r: State, p: Pos) {
    && Rectangular(s.grid) && InBounds(s.grid, p.row, p.col)
    && s.grid[p.row][p.col].value != s.grid[p.row][p.col].solution
    && SameShape(r.grid, s.grid)
    && (forall i, j :: 0 <= i < |s.grid| && 0 <= j < |s.grid[i]| ==>
          r.grid[i][j] == if i == p.row && j == p.col then s.grid[i][j].(value := s.grid[i][j].solution) else s.grid[i][j])
    && r == s.(grid := r.grid, hintsUsed := s.hintsUsed + 1)
  }

  /** The source reads the active cell without a bounds check. */
  predicate HintCellOnGrid(s: State, clueId: nat) {
    FindClue(AllClues(s.clues), clueId).Some? && s.activeCell.Some? ==>
      InBounds(s.grid, s.activeCell.value.row, s.activeCell.value.col)
  }

  function Reveal(s: State, p: Pos): (r: State)
    requires Rectangular(s.grid) && InBounds(s.grid, p.row, p.col)
    ensures s.grid[p.row][p.col].value != s.grid[p.row][p.col].solution ==> RevealsOnly(s, r, p)
  {
    s.(grid := WithValue(s.grid, p.row, p.col, s.grid[p.row][p.col].solution), hintsUsed := s.hintsUsed + 1)
  }

  function RevealHint(s: State, clueId: nat, pick: nat): (r: State)
    requires Rectangular(s.grid) && HintCellOnGrid(s, clueId)
    ensures FindClue(AllClues(s.clues), clueId).None? || s.activeCell.None? ==> r == s
    ensures FindClue(AllClues(s.clues), clueId).Some? && s.activeCell.Some? ==>
      var clue := FindClue(AllClues(s.clues), clueId).value;
      var at := s.activeCell.value;
      var wrong := WrongCells(s.grid, clue);
      && (s.grid[at.row][at.col].value != s.grid[at.row][at.col].solution ==> RevealsOnly(s, r, at))
      && (s.grid[at.row][at.col].value == s.grid[at.row][at.col].solution && |wrong| > 0 ==>
            RevealsOnly(s, r, wrong[pick % |wrong|]) && Covers(clue, wrong[pick % |wrong|].row, wrong[pick % |wrong|].col))
      && (s.grid[at.row][at.col].value == s.grid[at.row][at.col].solution &&
          (forall i, j :: InBounds(s.grid, i, j) && Covers(clue, i, j) ==> s.grid[i][j].value == s.grid[i][j].solution) ==>
            r == s)
  {
    match FindClue(AllClues(s.clues), clueId)
    case None => s
    case Some(clue) =>
      if s.activeCell.None? then s
      else
        var at := s.activeCell.value;
        var cell := s.grid[at.row][at.col];
        if cell.value == cell.solution then
          var wrong := WrongCells(s.grid, clue);
          if |wrong| > 0 then Reveal(s, wrong[pick % |wrong|]) else s
        else Reveal(s, at)
  }

  // ---------------------------------------------------------------------
  // TOGGLE_CLUE_DIRECTION

  /** The source's cover test for a clue of the list for direction d. */
  predicate CoversAlong(d: Direction, clue: ClueData, row: int, col: int) {
    if d == Across then clue.startRow == row && clue.startCol <= col < clue.startCol + clue.length
    else clue.startCol == col && clue.startRow <= row < clue.startRow + clue.length
  }

  /** The first clue of cs that covers (row, col) by the test for d. */
  function FindCovering(cs: seq<ClueData>, d: Direction, row: int, col: int): (r: Option<ClueData>)
    ensures r.Some? ==> r.value in cs && CoversAlong(d, r.value, row, col)
    ensures r.None? ==> forall c :: c in cs ==> !CoversAlong(d, c, row, col)
  {
    if cs == [] then None
    else if CoversAlong(d, cs[0], row, col) then Some(cs[0])
    else FindCovering(cs[1..], d, row, col)
  }

  function ListFor(cl: Clues, d: Direction): seq<ClueData> {
    if d == Across then cl.across else cl.down
  }

  /** The clue TOGGLE_CLUE_DIRECTION switches to, if any. */
  function ToggleTarget(s: State, row: int, col: int): (r: Option<ClueData>)
    requires Rectangular(s.grid) && InBounds(s.grid, row, col)
    ensures |s.grid[row][col].clueIds| <= 1 ==> r.None?
    ensures ClueOf(s, s.activeClueId).None? ==> r.None?
    ensures ClueOf(s, s.activeClueId).Some? && |s.grid[row][col].clueIds| > 1 ==>
      var other := Opposite(ClueOf(s, s.activeClueId).value.direction);
      && (r.None? <==> forall c :: c in ListFor(s.clues, other) ==> !CoversAlong(other, c, row, col))
      && (r.Some? ==> r.value in ListFor(s.clues, other) && CoversAlong(other, r.value, row, col))
      && (r.Some? && ListsByDirection(s.clues) ==> r.value.direction == other && Covers(r.value, row, col))
  {
    if |s.grid[row][col].clueIds| <= 1 then None
    else
      match ClueOf(s, s.activeClueId)
      case None => None
      case Some(active) =>
        var other := Opposite(active.direction);
        FindCovering(ListFor(s.clues, other), other, row, col)
  }

  function ToggleDirection(s: State, row: int, col: int): (r: State)
    requires Rectangular(s.grid) && InBounds(s.grid, row, col)
    ensures ToggleTarget(s, row, col).None? ==> r == s
    ensures ToggleTarget(s, row, col).Some? ==>
      var clue := ToggleTarget(s, row, col).value;
      && r == s.(grid := r.grid, activeClueId := Some(clue.id))
      && SameContent(r.grid, s.grid)
      && ActiveExactly(r.grid, Some(Pos(row, col)))
      && HighlightsExactly(r.grid, Some(clue))
  {
    match ToggleTarget(s, row, col)
    case None => s
    case Some(clue) =>
      MarkThenHighlight(s.grid, Pos(row, col), Some(clue));
      var g := Highlight(MarkActive(ClearFlags(s.grid), row, col), clue);
      s.(grid := g, activeClueId := Some(clue.id))
  }

  // ---------------------------------------------------------------------
  // SET_VIEW_ONLY and VALIDATE_PUZZLE

  function EnterViewOnly(s: State, flag: bool): (r: State)
    ensures r == s.(grid := r.grid, activeClueId := None, activeCell := None, viewOnly := flag)
    ensures SameContent(r.grid, s.grid)
    ensures ActiveExactly(r.grid, None) && HighlightsExactly(r.grid, None)
  {
    s.(grid := ClearFlags(s.grid), activeClueId := None, activeCell := None, viewOnly := flag)
  }

  function ClearSelection(s: State): (r: State)
    ensures r == s.(grid := r.grid)
    ensures SameContent(r.grid, s.grid)
    ensures ActiveExactly(r.grid, None) && HighlightsExactly(r.grid, None)
  {
    s.(grid := ClearFlags(s.grid))
  }

  // ---------------------------------------------------------------------
  // The reducer

  /** Actions the view-only guard lets through. */
  predicate PassesViewOnly(s: State, a: Action) {
    !s.viewOnly || a.NewPuzzle? || a.SetViewOnly?
  }

  /** What crosswordReducer demands of its input: the grid is rectangular
      wherever it is indexed, and the accesses the source does not bounds
      check land on the grid. */
  predicate Admissible(s: State, a: Action) {
    !PassesViewOnly(s, a) ||
    match a
    case SetActiveCell(_, _) => Rectangular(s.grid)
    case SetActiveClue(id) => Rectangular(s.grid) && ClueStartOnGrid(s, id)
    case SetCellValue(_, _, _) => Rectangular(s.grid)
    case MoveActiveCell(_) => Rectangular(s.grid)
    case UseHint(id) => Rectangular(s.grid) && HintCellOnGrid(s, id)
    case ToggleClueDirection(row, col) => Rectangular(s.grid) && InBounds(s.grid, row, col)
    case _ => true
  }

  /** Completion has been timed whenever the puzzle is complete. */
  predicate CompletionRecorded(s: State) {
    s.isComplete ==> s.completionTime.Some?
  }

  function Step(s: State, a: Action, env: Env): State
    requires Admissible(s, a)
  {
    if !PassesViewOnly(s, a) then s
    else
      match a
      case NewPuzzle => env.freshState
      case SetActiveCell(row, col) => SelectCell(s, row, col)
      case SetActiveClue(id) => SelectClue(s, id)
      case SetCellValue(row, col, v) => EnterValue(s, row, col, v, env.now)
      case MoveActiveCell(d) => MoveCursor(s, d)
      case ValidatePuzzle => ClearSelection(s)
      case LoadSavedPuzzle(_) => s
      case UseHint(id) => RevealHint(s, id, env.hintPick)
      case ToggleClueDirection(row, col) => ToggleDirection(s, row, col)
      case SetViewOnly(flag) => EnterViewOnly(s, flag)
  }

  lemma SameContentBoard(g: Grid, h: Grid)
    requires SameContent(g, h)
    ensures SameBoard(g, h) && SameValues(g, h)
  {
    forall r, c | 0 <= r < |g| && 0 <= c < |g[r]|
      ensures Strip(g[r][c]).(value := "") == Strip(h[r][c]).(value := "") && g[r][c].value == h[r][c].value
    {
      assert Strip(g[r][c]) == Strip(h[r][c]);
    }
  }

  lemma OneCellBoard(g: Grid, h: Grid, row: int, col: int)
    requires SameShape(h, g)
    requires forall i, j :: 0 <= i < |g| && 0 <= j < |g[i]| ==>
               h[i][j] == if i == row && j == col then g[i][j].(value := h[i][j].value) else g[i][j]
    ensures SameBoard(h, g)
  {
  }

  /** No action but NEW_PUZZLE touches the puzzle itself: solutions, blanks,
      clue membership and numbers, the clue lists and the start time; and
      only SET_CELL_VALUE and USE_HINT change values. */
  lemma {:induction false} StepKeepsBoard(s: State, a: Action, env: Env)
    requires Admissible(s, a) && !a.NewPuzzle?
    ensures var r := Step(s, a, env);
      && SameBoard(r.grid, s.grid) && r.clues == s.clues && r.startTime == s.startTime
      && (!a.SetCellValue? && !a.UseHint? ==> SameValues(r.grid, s.grid))
  {
    var r := Step(s, a, env);
    if !PassesViewOnly(s, a) || a.LoadSavedPuzzle? {
      SameContentBoard(s.grid, s.grid);
    } else if a.SetCellValue? {
      if Selectable(s.grid, a.row, a.col) {
        OneCellBoard(s.grid, r.grid, a.row, a.col);
      } else {
        SameContentBoard(s.grid, s.grid);
      }
    } else if a.UseHint? {
      if r == s {
        SameContentBoard(s.grid, s.grid);
      } else {
        var at := s.activeCell.value;
        var clue := FindClue(AllClues(s.clues), a.hintClueId).value;
        var wrong := WrongCells(s.grid, clue);
        var p := if s.grid[at.row][at.col].value != s.grid[at.row][at.col].solution then at else wrong[env.hintPick % |wrong|];
        assert RevealsOnly(s, r, p);
        OneCellBoard(s.grid, r.grid, p.row, p.col);
      }
    } else {
      SameContentBoard(r.grid, s.grid);
    }
  }

  /** hintsUsed goes up by one on a USE_HINT that reveals a cell and is
      otherwise kept; isComplete is recomputed by SET_CELL_VALUE only; and
      completionTime moves only on the false-to-true completion edge, to the
      elapsed seconds. */
  lemma {:induction false} StepCounters(s: State, a: Action, env: Env)
    requires Admissible(s, a) && !a.NewPuzzle?
    ensures var r := Step(s, a, env);
      && (r.hintsUsed == s.hintsUsed || (a.UseHint? && r.hintsUsed == s.hintsUsed + 1))
      && (!a.SetCellValue? ==> r.isComplete == s.isComplete)
      && (r.completionTime != s.completionTime ==>
            a.SetCellValue? && !s.isComplete && r.isComplete &&
            r.completionTime == Some(ElapsedSeconds(s.startTime, env.now)))
  {
    var r := Step(s, a, env);
    if PassesViewOnly(s, a) && a.UseHint? && r != s {
      var at := s.activeCell.value;
      var clue := FindClue(AllClues(s.clues), a.hintClueId).value;
      var wrong := WrongCells(s.grid, clue);
      var p := if s.grid[at.row][at.col].value != s.grid[at.row][at.col].solution then at else wrong[env.hintPick % |wrong|];
      assert RevealsOnly(s, r, p);
    }
  }

  /** Every transition keeps a state well formed (given a well-formed fresh
      puzzle) and keeps a finished puzzle's completion time recorded. */
  lemma {:induction false} StepKeepsWellFormed(s: State, a: Action, env: Env)
    requires Admissible(s, a)
    requires a.NewPuzzle? ==> WellFormed(env.freshState) && CompletionRecorded(env.freshState)
    ensures WellFormed(s) ==> WellFormed(Step(s, a, env))
    ensures CompletionRecorded(s) ==> CompletionRecorded(Step(s, a, env))
  {
    var r := Step(s, a, env);
    if PassesViewOnly(s, a) && !a.NewPuzzle? && WellFormed(s) {
      StepKeepsBoard(s, a, env);
      SameShapeRectangular(s.grid, r.grid);
      assert forall c :: c in AllClues(r.clues) ==> InBounds(r.grid, c.startRow, c.startCol);
      match a
      case SetActiveClue(id) =>
        var found := FindClue(AllClues(s.clues), id);
      case _ =>
    }
  }

  /** A well-formed state admits every action whose coordinates, where the
      source does not check them, are on the grid. */
  lemma WellFormedAdmits(s: State, a: Action)
    requires WellFormed(s)
    requires a.ToggleClueDirection? ==> InBounds(s.grid, a.toggleRow, a.toggleCol)
    ensures Admissible(s, a)
  {
    if a.SetActiveClue? {
      var found := FindClue(AllClues(s.clues), a.clueId);
    }
  }

  // ---------------------------------------------------------------------
  // Runs of actions

  /** Every step of the run is admissible in the state it meets. */
  predicate RunAdmissible(s: State, acts: seq<Action>, envs: seq<Env>)
    requires |envs| == |acts|
    decreases |acts|
  {
    acts == [] || (Admissible(s, acts[0]) && RunAdmissible(Step(s, acts[0], envs[0]), acts[1..], envs[1..]))
  }

  /** The state after dispatching acts one at a time, each with its own
      clock reading, random hint index and fresh puzzle. */
  function Run(s: State, acts: seq<Action>, envs: seq<Env>): State
    requires |envs| == |acts| && RunAdmissible(s, acts, envs)
    decreases |acts|
  {
    if acts == [] then s else Run(Step(s, acts[0], envs[0]), acts[1..], envs[1..])
  }

  /** The number of USE_HINT actions in acts. */
  function HintActions(acts: seq<Action>): nat {
    if acts == [] then 0 else (if acts[0].UseHint? then 1 else 0) + HintActions(acts[1..])
  }

  /** In view-only mode the puzzle is frozen: a run of actions none of which
      is NEW_PUZZLE or SET_VIEW_ONLY leaves the state exactly as it was. */
  lemma {:induction false} ViewOnlyFreezes(s: State, acts: seq<Action>, envs: seq<Env>)
    requires |envs| == |acts| && RunAdmissible(s, acts, envs)
    requires s.viewOnly
    requires forall k :: 0 <= k < |acts| ==> !acts[k].NewPuzzle? && !acts[k].SetViewOnly?
    ensures Run(s, acts, envs) == s
    decreases |acts|
  {
    if acts != [] {
      assert Step(s, acts[0], envs[0]) == s;
      ViewOnlyFreezes(s, acts[1..], envs[1..]);
    }
  }

  /** Within one puzzle (no NEW_PUZZLE) the board, the clue lists and the start
      time never change, and hintsUsed never decreases and grows by at most
      one per USE_HINT. */
  lemma {:induction false} RunKeepsPuzzle(s: State, acts: seq<Action>, envs: seq<Env>)
    requires |envs| == |acts| && RunAdmissible(s, acts, envs)
    requires forall k :: 0 <= k < |acts| ==> !acts[k].NewPuzzle?
    ensures var r := Run(s, acts, envs);
      && SameBoard(r.grid, s.grid) && r.clues == s.clues && r.startTime == s.startTime
      && s.hintsUsed <= r.hintsUsed <= s.hintsUsed + HintActions(acts)
    decreases |acts|
  {
    if acts == [] {
      SameContentBoard(s.grid, s.grid);
    } else {
      var t := Step(s, acts[0], envs[0]);
      StepKeepsBoard(s, acts[0], envs[0]);
      StepCounters(s, acts[0], envs[0]);
      RunKeepsPuzzle(t, acts[1..], envs[1..]);
    }
  }

  /** A well-formed state can take any run of actions that does not start a
      new puzzle and whose toggle coordinates are on the grid: every step is
      admissible and the final state is well formed. */
  lemma {:induction false} RunKeepsWellFormed(s: State, acts: seq<Action>, envs: seq<Env>)
    requires WellFormed(s) && |envs| == |acts|
    requires forall k :: 0 <= k < |acts| ==> !acts[k].NewPuzzle?
    requires forall k :: 0 <= k < |acts| && acts[k].ToggleClueDirection? ==>
               InBounds(s.grid, acts[k].toggleRow, acts[k].toggleCol)
    ensures RunAdmissible(s, acts, envs) && WellFormed(Run(s, acts, envs))
    decreases |acts|
  {
    if acts != [] {
      WellFormedAdmits(s, acts[0]);
      var t := Step(s, acts[0], envs[0]);
      StepKeepsWellFormed(s, acts[0], envs[0]);
      StepKeepsBoard(s, acts[0], envs[0]);
      assert |t.grid| == |s.grid| && Width(t.grid) == Width(s.grid);
      RunKeepsWellFormed(t, acts[1..], envs[1..]);
    }
  }
}
