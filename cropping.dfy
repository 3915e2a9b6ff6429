/** Step 5 of generateCrossword, first half: the bounding box of the
    letters on the scratch grid, one cell of padding clamped to the grid,
    the CellData grid cut out of that box, and the clues moved into the
    box's coordinates. */
module Cropping {
  import opened CrosswordTypes
  import opened Placement
  import opened Layout

  /** A cell of the board that holds a letter. */
  predicate Occupied(b: Board, r: int, c: int) {
    0 <= r < |b| && 0 <= c < |b[r]| && b[r][c].Some?
  }

  datatype Box = Box(top: int, bottom: int, left: int, right: int)

  /** Every letter lies inside the box. */
  ghost predicate Encloses(b: Board, bx: Box) {
    forall r, c :: Occupied(b, r, c) ==> bx.top <= r <= bx.bottom && bx.left <= c <= bx.right
  }

  /** Each side of the box touches a letter. */
  ghost predicate Tight(b: Board, bx: Box) {
    && (exists c :: Occupied(b, bx.top, c))
    && (exists c :: Occupied(b, bx.bottom, c))
    && (exists r :: Occupied(b, r, bx.left))
    && (exists r :: Occupied(b, r, bx.right))
  }

  /** Each side of the box touches a letter at the given place: t.0 and
      t.1 are columns on the top and bottom rows, t.2 and t.3 rows on the
      left and right columns. */
  predicate Touches(b: Board, bx: Box, t: (int, int, int, int)) {
    && Occupied(b, bx.top, t.0) && Occupied(b, bx.bottom, t.1)
    && Occupied(b, t.2, bx.left) && Occupied(b, t.3, bx.right)
  }

  /** The bounds loop: the smallest box around the letters, or the initial
      values (rows and columns as minimum, 0 as maximum) when there is no
      letter at all. */
  method FindBounds(g: Scratch, ghost b: Board) returns (bx: Box)
    requires b == Snap(g) && g.Length0 > 0
    ensures Encloses(b, bx)
    ensures (exists r, c :: Occupied(b, r, c)) ==> Tight(b, bx)
    ensures (forall r, c :: !Occupied(b, r, c)) ==> bx == Box(g.Length0, 0, g.Length1, 0)
  {
    var minRow, maxRow, minCol, maxCol := g.Length0, 0, g.Length1, 0;
    ghost var found := false;
    ghost var w1, w2, w3, w4 := 0, 0, 0, 0;
    var row := 0;
    while row < g.Length0
      invariant 0 <= row <= g.Length0
      invariant forall r, c :: Occupied(b, r, c) && r < row ==> minRow <= r <= maxRow && minCol <= c <= maxCol
      invariant !found ==> minRow == g.Length0 && maxRow == 0 && minCol == g.Length1 && maxCol == 0
      invariant !found ==> forall r, c :: Occupied(b, r, c) && r < row ==> false
      invariant found ==> Occupied(b, minRow, w1) && Occupied(b, maxRow, w2) && Occupied(b, w3, minCol) && Occupied(b, w4, maxCol)
    {
      var col := 0;
      while col < g.Length1
        invariant 0 <= col <= g.Length1
        invariant forall r, c :: Occupied(b, r, c) && (r < row || (r == row && c < col)) ==>
                    minRow <= r <= maxRow && minCol <= c <= maxCol
        invariant !found ==> minRow == g.Length0 && maxRow == 0 && minCol == g.Length1 && maxCol == 0
        invariant !found ==> forall r, c :: Occupied(b, r, c) && (r < row || (r == row && c < col)) ==> false
        invariant found ==> Occupied(b, minRow, w1) && Occupied(b, maxRow, w2) && Occupied(b, w3, minCol) && Occupied(b, w4, maxCol)
      {
        if g[row, col] != None {
          assert Occupied(b, row, col);
          minRow := Min(minRow, row);
          maxRow := Max(maxRow, row);
          minCol := Min(minCol, col);
          maxCol := Max(maxCol, col);
          if !found || row == minRow { w1 := col; }
          if !found || row == maxRow { w2 := col; }
          if !found || col == minCol { w3 := row; }
          if !found || col == maxCol { w4 := row; }
          found := true;
        }
        col := col + 1;
      }
      row := row + 1;
    }
    bx := Box(minRow, maxRow, minCol, maxCol);
    if found {
      assert Occupied(b, bx.top, w1) && Occupied(b, bx.bottom, w2) && Occupied(b, w3, bx.left) && Occupied(b, w4, bx.right);
    }
  }

  /** A box that encloses the letters and touches one on every side lies
      inside the board. */
  lemma BoxInside(b: Board, bx: Box)
    requires Square(b) && Encloses(b, bx) && Tight(b, bx)
    ensures 0 <= bx.top <= bx.bottom < |b| && 0 <= bx.left <= bx.right < |b|
  {
    var c :| Occupied(b, bx.top, c);
    var r :| Occupied(b, r, bx.left);
  }

  /** The padding: one more cell on every side, clamped to a rows by cols
      grid. A box inside the grid grows by at most one cell per side and
      stays inside the grid. */
  function Pad(bx: Box, rows: int, cols: int): (p: Box)
    ensures 0 <= bx.top <= bx.bottom < rows ==>
              0 <= p.top <= bx.top && bx.bottom <= p.bottom < rows && bx.top - 1 <= p.top && p.bottom <= bx.bottom + 1
    ensures 0 <= bx.left <= bx.right < cols ==>
              0 <= p.left <= bx.left && bx.right <= p.right < cols && bx.left - 1 <= p.left && p.right <= bx.right + 1
  {
    Box(Max(0, bx.top - 1), Min(rows - 1, bx.bottom + 1), Max(0, bx.left - 1), Min(cols - 1, bx.right + 1))
  }

  /** The number of indices from lo to hi inclusive. */
  function Span(lo: int, hi: int): nat {
    if lo <= hi then hi - lo + 1 else 0
  }

  /** A cell cut from scratch cell sq: coordinates within the box, empty
      value, the letter as solution (or "" for a blank) and no flags. */
  predicate CutCell(cell: CellData, sq: Option<char>, r: int, c: int) {
    && cell.row == r && cell.col == c
    && cell.value == ""
    && (cell.isBlank <==> sq.None?)
    && cell.solution == (if sq.Some? then [sq.value] else "")
    && !cell.isActive && !cell.isHighlighted
  }

  /** A cell of the final grid as the source creates it from scratch cell
      sq: cut from it, with no clue ids and no number yet. */
  predicate FreshCell(cell: CellData, sq: Option<char>, r: int, c: int) {
    CutCell(cell, sq, r, c) && cell.clueIds == [] && cell.clueNumber.None?
  }

  /** g is the part of board b inside box p, cell by cell, clue ids and
      numbers aside. */
  ghost predicate CutOf(g: Grid, b: Board, p: Box) {
    && 0 <= p.top && p.bottom < |b| && 0 <= p.left
    && (forall r :: 0 <= r < |b| ==> p.right < |b[r]|)
    && |g| == Span(p.top, p.bottom)
    && (forall r :: 0 <= r < |g| ==> |g[r]| == Span(p.left, p.right))
    && forall r, c :: 0 <= r < |g| && 0 <= c < |g[r]| ==> CutCell(g[r][c], b[r + p.top][c + p.left], r, c)
  }

  /** The final grid: the scratch cells inside the box, each turned into a
      CellData. */
  method BuildFinalGrid(g: Scratch, ghost b: Board, bx: Box) returns (fg: Grid)
    requires b == Snap(g)
    requires 0 <= bx.top && bx.bottom < g.Length0 && 0 <= bx.left && bx.right < g.Length1
    ensures |fg| == Span(bx.top, bx.bottom)
    ensures forall r :: 0 <= r < |fg| ==> |fg[r]| == Span(bx.left, bx.right)
    ensures forall r, c :: 0 <= r < |fg| && 0 <= c < Span(bx.left, bx.right) ==> FreshCell(fg[r][c], b[r + bx.top][c + bx.left], r, c)
  {
    fg := [];
    var row := bx.top;
    while row <= bx.bottom
      invariant bx.top <= row && |fg| == row - bx.top && (row == bx.top || row <= bx.bottom + 1)
      invariant forall r :: 0 <= r < |fg| ==> |fg[r]| == Span(bx.left, bx.right)
      invariant forall r, c :: 0 <= r < |fg| && 0 <= c < |fg[r]| ==> FreshCell(fg[r][c], b[r + bx.top][c + bx.left], r, c)
    {
      var rowData: seq<CellData> := [];
      var col := bx.left;
      while col <= bx.right
        invariant bx.left <= col && |rowData| == col - bx.left && (col == bx.left || col <= bx.right + 1)
        invariant forall c :: 0 <= c < |rowData| ==> FreshCell(rowData[c], b[row][c + bx.left], row - bx.top, c)
      {
        var isBlank := g[row, col] == None;
        var solution := if g[row, col].Some? then [g[row, col].value] else "";
        rowData := rowData + [CellData(row - bx.top, col - bx.left, "", solution, false, false, isBlank, [], None)];
        col := col + 1;
      }
      fg := fg + [rowData];
      row := row + 1;
    }
  }

  /** The placed clues moved into the box's coordinates: the same clue,
      its span shifted by the box's top-left corner. */
  function Shift(cs: seq<ClueData>, top: int, left: int): (r: seq<ClueData>)
    ensures |r| == |cs|
    ensures forall k :: 0 <= k < |cs| ==>
              && r[k].id == cs[k].id && r[k].answer == cs[k].answer
              && r[k].startRow == cs[k].startRow - top && r[k].startCol == cs[k].startCol - left
              && r[k].direction == cs[k].direction && r[k].length == cs[k].length
              && forall j :: SpanCell(r[k], j) == Pos(SpanCell(cs[k], j).row - top, SpanCell(cs[k], j).col - left)
  {
    seq(|cs|, k requires 0 <= k < |cs| => cs[k].(startRow := cs[k].startRow - top, startCol := cs[k].startCol - left))
  }
}
