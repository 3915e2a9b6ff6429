/** crosswordReducer as the source computes it: the grid is copied with its
    flags cleared and then updated cell by cell in the highlight loop, the
    hint candidates are collected by a loop, and MOVE_ACTIVE_CELL steps its
    coordinates before handing over to SET_ACTIVE_CELL. Each method is proved
    to produce the state the matching function of module Transitions
    specifies. */
module Reducer {
  import opened CrosswordTypes
  import opened Transitions

  /** The loop that sets isHighlighted along a clue's span, skipping cells
      off the grid. */
  method HighlightSpan(g: Grid, clue: ClueData) returns (h: Grid)
    requires Rectangular(g)
    ensures h == Highlight(g, clue)
  {
    h := g;
    var i := 0;
    while i < clue.length
      invariant 0 <= i && (i == 0 || i <= clue.length)
      invariant SameShape(h, g) && Rectangular(h) && Width(h) == Width(g)
      invariant forall r, c :: 0 <= r < |g| && 0 <= c < |g[r]| ==>
                  h[r][c] == if CoversPrefix(clue, i, r, c) then g[r][c].(isHighlighted := true) else g[r][c]
    {
      var highlightRow := if clue.direction == Across then clue.startRow else clue.startRow + i;
      var highlightCol := if clue.direction == Across then clue.startCol + i else clue.startCol;
      if highlightRow >= 0 && highlightRow < |h| && highlightCol >= 0 && highlightCol < Width(h) {
        h := h[highlightRow := h[highlightRow][highlightCol := h[highlightRow][highlightCol].(isHighlighted := true)]];
      }
      i := i + 1;
    }
    var expected := Highlight(g, clue);
    HighlightFacts(g, clue);
    forall r | 0 <= r < |g| ensures h[r] == expected[r] {
      assert |h[r]| == |expected[r]|;
      forall c | 0 <= c < |g[r]| ensures h[r][c] == expected[r][c] {
        assert CoversPrefix(clue, i, r, c) == Covers(clue, r, c);
      }
    }
  }

  /** USE_HINT's clueCells: the on-grid span cells whose value is wrong. */
  method CollectWrongCells(g: Grid, clue: ClueData) returns (clueCells: seq<Pos>)
    requires Rectangular(g)
    ensures clueCells == WrongCells(g, clue)
  {
    clueCells := [];
    var i := 0;
    while i < clue.length
      invariant 0 <= i && (i == 0 || i <= clue.length)
      invariant clueCells == WrongCellsUpTo(g, clue, i)
    {
      var cellRow := if clue.direction == Across then clue.startRow else clue.startRow + i;
      var cellCol := if clue.direction == Across then clue.startCol + i else clue.startCol;
      if cellRow >= 0 && cellRow < |g| && cellCol >= 0 && cellCol < Width(g) {
        var currentCell := g[cellRow][cellCol];
        if currentCell.value != currentCell.solution {
          clueCells := clueCells + [Pos(cellRow, cellCol)];
        }
      }
      i := i + 1;
    }
  }

  method ReduceSetActiveCell(s: State, row: int, col: int) returns (r: State)
    requires Rectangular(s.grid)
    ensures r == SelectCell(s, row, col)
  {
    if row < 0 || row >= |s.grid| || col < 0 || col >= Width(s.grid) {
      return s;
    }
    var cell := s.grid[row][col];
    if cell.isBlank {
      return s;
    }
    var activeClueId := s.activeClueId;
    if |cell.clueIds| > 0 {
      if activeClueId.None? || activeClueId.value !in cell.clueIds {
        activeClueId := Some(cell.clueIds[0]);
      }
    }
    var newGrid: Grid := ClearFlags(s.grid);
    ClearFlagsFacts(s.grid);
    newGrid := newGrid[row := newGrid[row][col := newGrid[row][col].(isActive := true)]];
    if activeClueId.Some? {
      var activeClue := FindClue(AllClues(s.clues), activeClueId.value);
      if activeClue.Some? {
        MarkActiveFacts(ClearFlags(s.grid), row, col);
        newGrid := HighlightSpan(newGrid, activeClue.value);
      }
    }
    r := s.(grid := newGrid, activeCell := Some(Pos(row, col)), activeClueId := activeClueId);
  }

  method ReduceSetActiveClue(s: State, clueId: nat) returns (r: State)
    requires Rectangular(s.grid) && ClueStartOnGrid(s, clueId)
    ensures r == SelectClue(s, clueId)
  {
    var clue := FindClue(AllClues(s.clues), clueId);
    if clue.None? {
      return s;
    }
    var c := clue.value;
    ClearFlagsFacts(s.grid);
    var newGrid: Grid := HighlightSpan(ClearFlags(s.grid), c);
    HighlightFacts(ClearFlags(s.grid), c);
    newGrid := newGrid[c.startRow := newGrid[c.startRow][c.startCol := newGrid[c.startRow][c.startCol].(isActive := true)]];
    r := s.(grid := newGrid, activeClueId := Some(clueId), activeCell := Some(Pos(c.startRow, c.startCol)));
  }

  method ReduceMoveActiveCell(s: State, direction: MoveDirection) returns (r: State)
    requires Rectangular(s.grid)
    ensures r == MoveCursor(s, direction)
  {
    if s.activeCell.None? {
      return s;
    }
    var row, col := s.activeCell.value.row, s.activeCell.value.col;
    var newRow, newCol := row, col;
    if direction == MoveUp {
      newRow := row - 1;
    } else if direction == MoveDown {
      newRow := row + 1;
    } else if direction == MoveLeft {
      newCol := col - 1;
    } else if direction == MoveRight {
      newCol := col + 1;
    } else {
      var activeClue := ClueOf(s, s.activeClueId);
      if activeClue.Some? {
        var clue := activeClue.value;
        var offset := if direction == MoveNext then 1 else -1;
        if clue.direction == Across {
          newCol := col + offset;
          if newCol < clue.startCol {
            newCol := clue.startCol + clue.length - 1;
          } else if newCol >= clue.startCol + clue.length {
            newCol := clue.startCol;
          }
        } else {
          newRow := row + offset;
          if newRow < clue.startRow {
            newRow := clue.startRow + clue.length - 1;
          } else if newRow >= clue.startRow + clue.length {
            newRow := clue.startRow;
          }
        }
      }
    }
    assert Pos(newRow, newCol) == MoveTarget(s, direction);
    if newRow < 0 || newRow >= |s.grid| || newCol < 0 || newCol >= Width(s.grid) {
      return s;
    }
    if s.grid[newRow][newCol].isBlank {
      return s;
    }
    r := ReduceSetActiveCell(s, newRow, newCol);
  }

  method ReduceUseHint(s: State, clueId: nat, pick: nat) returns (r: State)
    requires Rectangular(s.grid) && HintCellOnGrid(s, clueId)
    ensures r == RevealHint(s, clueId, pick)
  {
    var clue := FindClue(AllClues(s.clues), clueId);
    if clue.None? || s.activeCell.None? {
      return s;
    }
    var row, col := s.activeCell.value.row, s.activeCell.value.col;
    var cell := s.grid[row][col];
    if cell.value == cell.solution {
      var clueCells := CollectWrongCells(s.grid, clue.value);
      if |clueCells| > 0 {
        var randomCell := clueCells[pick % |clueCells|];
        var target := s.grid[randomCell.row][randomCell.col];
        var newGrid := s.grid[randomCell.row := s.grid[randomCell.row][randomCell.col := target.(value := target.solution)]];
        return s.(grid := newGrid, hintsUsed := s.hintsUsed + 1);
      }
    } else {
      var newGrid := s.grid[row := s.grid[row][col := cell.(value := cell.solution)]];
      return s.(grid := newGrid, hintsUsed := s.hintsUsed + 1);
    }
    return s;
  }

  method ReduceToggleClueDirection(s: State, row: int, col: int) returns (r: State)
    requires Rectangular(s.grid) && InBounds(s.grid, row, col)
    ensures r == ToggleDirection(s, row, col)
  {
    var cell := s.grid[row][col];
    if |cell.clueIds| <= 1 {
      return s;
    }
    var activeClue := ClueOf(s, s.activeClueId);
    if activeClue.None? {
      return s;
    }
    var newDirection := Opposite(activeClue.value.direction);
    var newClue := FindCovering(ListFor(s.clues, newDirection), newDirection, row, col);
    if newClue.None? {
      return s;
    }
    var newGrid: Grid := ClearFlags(s.grid);
    ClearFlagsFacts(s.grid);
    newGrid := newGrid[row := newGrid[row][col := newGrid[row][col].(isActive := true)]];
    MarkActiveFacts(ClearFlags(s.grid), row, col);
    newGrid := HighlightSpan(newGrid, newClue.value);
    r := s.(grid := newGrid, activeClueId := Some(newClue.value.id));
  }

  /** crosswordReducer: the view-only guard, then one case per action. */
  method CrosswordReducer(s: State, action: Action, env: Env) returns (r: State)
    requires Admissible(s, action)
    ensures r == Step(s, action, env)
  {
    if s.viewOnly && !action.NewPuzzle? && !action.SetViewOnly? {
      return s;
    }
    match action
    case UseHint(clueId) =>
      r := ReduceUseHint(s, clueId, env.hintPick);
    case NewPuzzle =>
      r := env.freshState;
    case SetActiveCell(row, col) =>
      r := ReduceSetActiveCell(s, row, col);
    case SetActiveClue(clueId) =>
      r := ReduceSetActiveClue(s, clueId);
    case SetCellValue(row, col, value) =>
      r := EnterValue(s, row, col, value, env.now);
    case MoveActiveCell(direction) =>
      r := ReduceMoveActiveCell(s, direction);
    case ValidatePuzzle =>
      r := ClearSelection(s);
    case ToggleClueDirection(row, col) =>
      r := ReduceToggleClueDirection(s, row, col);
    case SetViewOnly(flag) =>
      r := EnterViewOnly(s, flag);
    case LoadSavedPuzzle(_) =>
      r := s;
  }
}
