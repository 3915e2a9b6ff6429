/** The read-only helpers the puzzle exposes to the presentation layer:
    per-cell correctness and per-clue completeness and correctness. Each walks
    a clue's span and gives up (false) at the first cell that is off the grid
    or fails the test, as the source's early-return loops do. */
module Queries {
  import opened CrosswordTypes
  import Transitions

  /** The player's letter in (row, col) is the solution letter. */
  function ValidateCell(s: State, row: int, col: int): bool
    requires Rectangular(s.grid) && InBounds(s.grid, row, col)
  {
    s.grid[row][col].value == s.grid[row][col].solution
  }

  /** Span cells i.. of clue c are on the grid and have a non-empty value. */
  function FilledFrom(g: Grid, c: ClueData, i: int): (r: bool)
    requires Rectangular(g)
    decreases c.length - i
    ensures r <==> forall k :: i <= k < c.length ==>
                      InBounds(g, SpanCell(c, k).row, SpanCell(c, k).col) &&
                      g[SpanCell(c, k).row][SpanCell(c, k).col].value != ""
  {
    if i >= c.length then true
    else
      var p := SpanCell(c, i);
      if !InBounds(g, p.row, p.col) then false
      else if g[p.row][p.col].value == "" then false
      else FilledFrom(g, c, i + 1)
  }

  /** Span cells i.. of clue c are on the grid and hold their solution. */
  function SolvedFrom(s: State, c: ClueData, i: int): (r: bool)
    requires Rectangular(s.grid)
    decreases c.length - i
    ensures r <==> forall k :: i <= k < c.length ==>
                      InBounds(s.grid, SpanCell(c, k).row, SpanCell(c, k).col) &&
                      ValidateCell(s, SpanCell(c, k).row, SpanCell(c, k).col)
  {
    if i >= c.length then true
    else
      var p := SpanCell(c, i);
      if !InBounds(s.grid, p.row, p.col) then false
      else if !ValidateCell(s, p.row, p.col) then false
      else SolvedFrom(s, c, i + 1)
  }

  /** isClueComplete: the clue exists and every cell of its span is on the
      grid and filled in. */
  function IsClueComplete(s: State, clueId: nat): (r: bool)
    requires Rectangular(s.grid)
    ensures FindClue(AllClues(s.clues), clueId).None? ==> !r
    ensures r <==> FindClue(AllClues(s.clues), clueId).Some? &&
                   var c := FindClue(AllClues(s.clues), clueId).value;
                   forall k :: 0 <= k < c.length ==>
                     InBounds(s.grid, SpanCell(c, k).row, SpanCell(c, k).col) &&
                     s.grid[SpanCell(c, k).row][SpanCell(c, k).col].value != ""
  {
    match FindClue(AllClues(s.clues), clueId)
    case None => false
    case Some(c) => FilledFrom(s.grid, c, 0)
  }

  /** isClueCorrect: the clue exists and every cell of its span is on the grid
      and passes ValidateCell. */
  function IsClueCorrect(s: State, clueId: nat): (r: bool)
    requires Rectangular(s.grid)
    ensures FindClue(AllClues(s.clues), clueId).None? ==> !r
    ensures r <==> FindClue(AllClues(s.clues), clueId).Some? &&
                   var c := FindClue(AllClues(s.clues), clueId).value;
                   forall k :: 0 <= k < c.length ==>
                     InBounds(s.grid, SpanCell(c, k).row, SpanCell(c, k).col) &&
                     ValidateCell(s, SpanCell(c, k).row, SpanCell(c, k).col)
  {
    match FindClue(AllClues(s.clues), clueId)
    case None => false
    case Some(c) => SolvedFrom(s, c, 0)
  }

  // ---------------------------------------------------------------------
  // validateCell against the reducer

  /** The completion test of SET_CELL_VALUE is validateCell on every letter
      cell of the grid. */
  lemma SolvedIsAllValid(s: State)
    requires Rectangular(s.grid)
    ensures Transitions.AllSolved(s.grid) <==>
              forall r, c :: InBounds(s.grid, r, c) && !s.grid[r][c].isBlank ==> ValidateCell(s, r, c)
  {
  }

  /** Typing v into a letter cell makes validateCell hold there exactly when
      the upper-cased v is the cell's solution, and leaves it as it was on
      every other cell. */
  lemma EnterValidates(s: State, row: int, col: int, v: string, now: int)
    requires Rectangular(s.grid) && Transitions.Selectable(s.grid, row, col)
    ensures var r := Transitions.EnterValue(s, row, col, v, now);
              && Rectangular(r.grid) && InBounds(r.grid, row, col)
              && (ValidateCell(r, row, col) <==> Transitions.Upper(v) == s.grid[row][col].solution)
              && forall i, j :: InBounds(s.grid, i, j) && (i != row || j != col) ==>
                   InBounds(r.grid, i, j) && ValidateCell(r, i, j) == ValidateCell(s, i, j)
  {
  }

  /** A revealed hint turns a cell that failed validateCell into one that
      passes it, and no other cell changes its verdict. */
  lemma HintValidates(s: State, r: State, p: Pos)
    requires Transitions.RevealsOnly(s, r, p)
    ensures !ValidateCell(s, p.row, p.col)
    ensures Rectangular(r.grid) && InBounds(r.grid, p.row, p.col) && ValidateCell(r, p.row, p.col)
    ensures forall i, j :: InBounds(s.grid, i, j) && (i != p.row || j != p.col) ==>
              InBounds(r.grid, i, j) && ValidateCell(r, i, j) == ValidateCell(s, i, j)
  {
  }
}
