/** Data model of the puzzle: clues, cells, the puzzle state and the actions
    the state machine accepts, plus the grid geometry every other module
    shares (bounds, the cells a clue covers, clue lookup by id). */
module CrosswordTypes {

  datatype Option<T> = None | Some(value: T)

  datatype Direction = Across | Down

  function Opposite(d: Direction): Direction {
    if d == Across then Down else Across
  }

  /** A placed clue. Identifiers are distinct naturals; the clue prose is
      not modelled, only its answer. */
  datatype ClueData = ClueData(
    id: nat,
    answer: string,
    direction: Direction,
    startRow: int,
    startCol: int,
    length: int)

  datatype Pos = Pos(row: int, col: int)

  datatype CellData = CellData(
    row: int,
    col: int,
    value: string,
    solution: string,
    isActive: bool,
    isHighlighted: bool,
    isBlank: bool,
    clueIds: seq<nat>,
    clueNumber: Option<nat>)

  type Grid = seq<seq<CellData>>

  datatype Clues = Clues(across: seq<ClueData>, down: seq<ClueData>)

  datatype State = State(
    grid: Grid,
    clues: Clues,
    activeClueId: Option<nat>,
    activeCell: Option<Pos>,
    isComplete: bool,
    startTime: int,
    completionTime: Option<int>,
    hintsUsed: nat,
    viewOnly: bool)

  datatype MoveDirection = MoveUp | MoveDown | MoveLeft | MoveRight | MoveNext | MovePrev

  datatype Action =
    | NewPuzzle
    | SetActiveCell(row: int, col: int)
    | SetActiveClue(clueId: nat)
    | SetCellValue(row: int, col: int, value: string)
    | MoveActiveCell(direction: MoveDirection)
    | ValidatePuzzle
    | LoadSavedPuzzle(saved: State)
    | UseHint(hintClueId: nat)
    | ToggleClueDirection(toggleRow: int, toggleCol: int)
    | SetViewOnly(flag: bool)

  /** What the state machine takes from outside: the clock, the random hint
      index and the freshly generated puzzle for NewPuzzle. */
  datatype Env = Env(now: int, hintPick: nat, freshState: State)

  function Min(a: int, b: int): int {
    if a <= b then a else b
  }

  function Max(a: int, b: int): int {
    if a >= b then a else b
  }

  // ---------------------------------------------------------------------
  // Grid geometry

  /** The column count is read off the first row, as the source does. */
  function Width(g: Grid): nat {
    if |g| == 0 then 0 else |g[0]|
  }

  predicate Rectangular(g: Grid) {
    forall r :: 0 <= r < |g| ==> |g[r]| == Width(g)
  }

  predicate InBounds(g: Grid, row: int, col: int) {
    0 <= row < |g| && 0 <= col < Width(g)
  }

  /** The i-th cell of a word that starts at (row, col) and runs in direction d. */
  function Along(row: int, col: int, d: Direction, i: int): Pos {
    if d == Across then Pos(row, col + i) else Pos(row + i, col)
  }

  /** The i-th cell of a clue's span. */
  function SpanCell(c: ClueData, i: int): Pos {
    Along(c.startRow, c.startCol, c.direction, i)
  }

  /** (row, col) is one of the first n cells of the clue's span. */
  predicate CoversPrefix(c: ClueData, n: int, row: int, col: int) {
    if c.direction == Across then row == c.startRow && c.startCol <= col < c.startCol + n
    else col == c.startCol && c.startRow <= row < c.startRow + n
  }

  /** (row, col) lies on the clue's span. */
  predicate Covers(c: ClueData, row: int, col: int) {
    CoversPrefix(c, c.length, row, col)
  }

  /** Index along the span of a covered cell. */
  function SpanIndex(c: ClueData, row: int, col: int): int {
    if c.direction == Across then col - c.startCol else row - c.startRow
  }

  lemma CoversAtSpanIndex(c: ClueData, n: int, row: int, col: int)
    requires CoversPrefix(c, n, row, col)
    ensures 0 <= SpanIndex(c, row, col) < n
    ensures SpanCell(c, SpanIndex(c, row, col)) == Pos(row, col)
  {
  }

  // ---------------------------------------------------------------------
  // Clue lookup

  /** Every clue, across list first (the order the source searches in). */
  function AllClues(cl: Clues): seq<ClueData> {
    cl.across + cl.down
  }

  /** The first clue of cs with the given id, like Array.prototype.find. */
  function FindClue(cs: seq<ClueData>, id: nat): (r: Option<ClueData>)
    ensures r.None? <==> forall k :: 0 <= k < |cs| ==> cs[k].id != id
    ensures r.Some? ==> r.value.id == id && exists k :: 0 <= k < |cs| && cs[k] == r.value && FirstWithId(cs, id, k)
  {
    if cs == [] then None
    else if cs[0].id == id then (assert FirstWithId(cs, id, 0); Some(cs[0]))
    else
      var r := FindClue(cs[1..], id);
      if r.Some? then
        var k :| 0 <= k < |cs| - 1 && cs[1..][k] == r.value && FirstWithId(cs[1..], id, k);
        assert FirstWithId(cs, id, k + 1);
        r
      else r
  }

  /** Position k holds the first clue of cs with the given id. */
  predicate FirstWithId(cs: seq<ClueData>, id: nat, k: int) {
    0 <= k < |cs| && cs[k].id == id && forall j :: 0 <= j < k ==> cs[j].id != id
  }

  /** The state's grid is rectangular, the cursor is on the grid and every
      clue starts on the grid: what every reachable state satisfies and what
      the reducer's unchecked grid accesses rely on. */
  predicate WellFormed(s: State) {
    && Rectangular(s.grid)
    && (s.activeCell.Some? ==> InBounds(s.grid, s.activeCell.value.row, s.activeCell.value.col))
    && (forall c :: c in AllClues(s.clues) ==> InBounds(s.grid, c.startRow, c.startCol))
  }

  /** Every clue in the across list runs across and every clue in the down
      list runs down. */
  predicate ListsByDirection(cl: Clues) {
    && (forall c :: c in cl.across ==> c.direction == Across)
    && (forall c :: c in cl.down ==> c.direction == Down)
  }
}
