/** Step 5 of generateCrossword, second half: every cell of the final grid
    learns the ids of the clues whose span covers it, the cells where a
    clue starts receive consecutive numbers in reading order, and the clues
    are split by direction and ordered by those numbers. */
module Numbering {
  import opened CrosswordTypes

  /** Same number of rows and the same row lengths. */
  predicate SameShape(g: Grid, h: Grid) {
    |g| == |h| && forall r :: 0 <= r < |g| ==> |g[r]| == |h[r]|
  }

  // ---------------------------------------------------------------------
  // Clue ids

  /** The ids the clue loop gives cell (r, c): one per clue of cs whose
      span covers it, in the order of cs. */
  function IdsCovering(cs: seq<ClueData>, r: int, c: int): seq<nat>
    decreases |cs|
  {
    if cs == [] then []
    else IdsCovering(cs[..|cs| - 1], r, c) + (if Covers(cs[|cs| - 1], r, c) then [cs[|cs| - 1].id] else [])
  }

  /** An id is listed for a cell exactly when a clue with that id covers it. */
  lemma {:induction false} IdsCoveringMeans(cs: seq<ClueData>, r: int, c: int, id: nat)
    ensures id in IdsCovering(cs, r, c) <==> exists k :: 0 <= k < |cs| && cs[k].id == id && Covers(cs[k], r, c)
    decreases |cs|
  {
    if cs != [] {
      var n := |cs| - 1;
      IdsCoveringMeans(cs[..n], r, c, id);
      if exists k :: 0 <= k < n && cs[..n][k].id == id && Covers(cs[..n][k], r, c) {
        var k :| 0 <= k < n && cs[..n][k].id == id && Covers(cs[..n][k], r, c);
        assert cs[k] == cs[..n][k];
      }
      if exists k :: 0 <= k < |cs| && cs[k].id == id && Covers(cs[k], r, c) {
        var k :| 0 <= k < |cs| && cs[k].id == id && Covers(cs[k], r, c);
        if k < n {
          assert cs[..n][k] == cs[k];
        }
      }
    }
  }

  /** The inner loop of the clue-id pass: every on-grid cell of the clue's
      span gets the clue's id appended; the rest of the grid is unchanged. */
  method AddSpanIds(fg: Grid, clue: ClueData) returns (g: Grid)
    requires Rectangular(fg)
    ensures SameShape(g, fg)
    ensures forall r, c :: 0 <= r < |fg| && 0 <= c < |fg[r]| ==>
              g[r][c] == fg[r][c].(clueIds := fg[r][c].clueIds + if Covers(clue, r, c) then [clue.id] else [])
  {
    g := fg;
    var i := 0;
    while i < clue.length
      invariant 0 <= i && (i <= clue.length || i == 0)
      invariant SameShape(g, fg)
      invariant forall r, c :: 0 <= r < |fg| && 0 <= c < |fg[r]| ==>
                  g[r][c] == fg[r][c].(clueIds := fg[r][c].clueIds + if CoversPrefix(clue, i, r, c) then [clue.id] else [])
    {
      var row := if clue.direction == Across then clue.startRow else clue.startRow + i;
      var col := if clue.direction == Across then clue.startCol + i else clue.startCol;
      if row >= 0 && row < |g| && col >= 0 && col < |g[0]| {
        g := g[row := g[row][col := g[row][col].(clueIds := g[row][col].clueIds + [clue.id])]];
      }
      i := i + 1;
    }
  }

  /** The clue-id pass over the shifted clues. */
  method AddClueIds(fg: Grid, cs: seq<ClueData>) returns (g: Grid)
    requires Rectangular(fg)
    ensures SameShape(g, fg)
    ensures forall r, c :: 0 <= r < |fg| && 0 <= c < |fg[r]| ==>
              g[r][c] == fg[r][c].(clueIds := fg[r][c].clueIds + IdsCovering(cs, r, c))
  {
    g := fg;
    var k := 0;
    while k < |cs|
      invariant 0 <= k <= |cs|
      invariant SameShape(g, fg)
      invariant forall r, c :: 0 <= r < |fg| && 0 <= c < |fg[r]| ==>
                  g[r][c] == fg[r][c].(clueIds := fg[r][c].clueIds + IdsCovering(cs[..k], r, c))
    {
      ghost var before: Grid := g;
      g := AddSpanIds(g, cs[k]);
      assert cs[..k + 1][..k] == cs[..k];
      forall r: int, c: int | 0 <= r < |fg| && 0 <= c < |fg[r]|
        ensures g[r][c] == fg[r][c].(clueIds := fg[r][c].clueIds + IdsCovering(cs[..k + 1], r, c))
      {
        assert before[r][c].clueIds == fg[r][c].clueIds + IdsCovering(cs[..k], r, c);
      }
      k := k + 1;
    }
    assert cs[..|cs|] == cs;
  }

  // ---------------------------------------------------------------------
  // Clue numbers

  /** Some clue of cs running in direction d starts at (r, c). */
  predicate StartsAt(cs: seq<ClueData>, d: Direction, r: int, c: int) {
    exists cl :: cl in cs && cl.direction == d && cl.startRow == r && cl.startCol == c
  }

  /** A cell that gets a number: a letter cell where an across or a down
      clue starts. */
  predicate IsStart(g: Grid, cs: seq<ClueData>, r: int, c: int)
    requires InBounds(g, r, c) && Rectangular(g)
  {
    !g[r][c].isBlank && (StartsAt(cs, Across, r, c) || StartsAt(cs, Down, r, c))
  }

  function Count(b: bool): nat {
    if b then 1 else 0
  }

  /** Start cells of row r left of column c. */
  function RowStarts(g: Grid, cs: seq<ClueData>, r: int, c: int): nat
    requires Rectangular(g) && 0 <= r < |g| && c <= Width(g)
    decreases c
  {
    if c <= 0 then 0 else RowStarts(g, cs, r, c - 1) + Count(IsStart(g, cs, r, c - 1))
  }

  /** Start cells in the rows above row r. */
  function StartsAbove(g: Grid, cs: seq<ClueData>, r: int): nat
    requires Rectangular(g) && r <= |g|
    decreases r
  {
    if r <= 0 then 0 else StartsAbove(g, cs, r - 1) + RowStarts(g, cs, r - 1, Width(g))
  }

  /** Start cells before (r, c) in reading order. */
  function StartsBefore(g: Grid, cs: seq<ClueData>, r: int, c: int): nat
    requires Rectangular(g) && 0 <= r < |g| && c <= Width(g)
  {
    StartsAbove(g, cs, r) + RowStarts(g, cs, r, c)
  }

  /** A cell after numbering: a start cell carries one more than the number
      of start cells before it; every other cell is unchanged. */
  function Numbered(g: Grid, cs: seq<ClueData>, r: int, c: int): CellData
    requires Rectangular(g) && InBounds(g, r, c)
  {
    if IsStart(g, cs, r, c) then g[r][c].(clueNumber := Some(StartsBefore(g, cs, r, c) + 1)) else g[r][c]
  }

  /** One row of the numbering pass: the row's cells numbered, with the
      counter carried from the rows above to the end of the row. */
  method NumberRow(fg: Grid, cs: seq<ClueData>, row: int, start: nat) returns (cells: seq<CellData>, next: nat)
    requires Rectangular(fg) && 0 <= row < |fg| && start == StartsAbove(fg, cs, row) + 1
    ensures |cells| == Width(fg) && next == StartsAbove(fg, cs, row + 1) + 1
    ensures forall c :: 0 <= c < Width(fg) ==> cells[c] == Numbered(fg, cs, row, c)
  {
    cells := fg[row];
    next := start;
    var col := 0;
    while col < |fg[0]|
      invariant 0 <= col <= Width(fg) && |cells| == Width(fg)
      invariant next == StartsBefore(fg, cs, row, col) + 1
      invariant forall c :: 0 <= c < col ==> cells[c] == Numbered(fg, cs, row, c)
      invariant forall c :: col <= c < Width(fg) ==> cells[c] == fg[row][c]
    {
      var cell := cells[col];
      if !cell.isBlank {
        var isStartOfAcross := exists cl :: cl in cs && cl.direction == Across && cl.startRow == row && cl.startCol == col;
        var isStartOfDown := exists cl :: cl in cs && cl.direction == Down && cl.startRow == row && cl.startCol == col;
        if isStartOfAcross || isStartOfDown {
          cells := cells[col := cell.(clueNumber := Some(next))];
          next := next + 1;
        }
      }
      col := col + 1;
    }
  }

  /** The numbering pass: a running counter from 1, in reading order. */
  method AssignNumbers(fg: Grid, cs: seq<ClueData>) returns (g: Grid)
    requires Rectangular(fg)
    ensures SameShape(g, fg)
    ensures forall r, c :: InBounds(fg, r, c) ==> g[r][c] == Numbered(fg, cs, r, c)
  {
    g := fg;
    var clueNumber := 1;
    var row := 0;
    while row < |g|
      invariant 0 <= row <= |fg| && SameShape(g, fg)
      invariant clueNumber == StartsAbove(fg, cs, row) + 1
      invariant forall r, c :: InBounds(fg, r, c) && r < row ==> g[r][c] == Numbered(fg, cs, r, c)
      invariant forall r :: row <= r < |fg| ==> g[r] == fg[r]
    {
      var cells;
      cells, clueNumber := NumberRow(fg, cs, row, clueNumber);
      g := g[row := cells];
      row := row + 1;
    }
  }


  /** Reading order on cells. */
  predicate ReadsBefore(r: int, c: int, r': int, c': int) {
    r < r' || (r == r' && c < c')
  }

  lemma {:induction false} RowStartsMono(g: Grid, cs: seq<ClueData>, r: int, c: int, c': int)
    requires Rectangular(g) && 0 <= r < |g| && c <= c' <= Width(g)
    ensures RowStarts(g, cs, r, c) <= RowStarts(g, cs, r, c')
    decreases c' - c
  {
    if c < c' {
      RowStartsMono(g, cs, r, c, c' - 1);
    }
  }

  lemma {:induction false} StartsAboveMono(g: Grid, cs: seq<ClueData>, r: int, r': int)
    requires Rectangular(g) && r <= r' <= |g|
    ensures StartsAbove(g, cs, r) <= StartsAbove(g, cs, r')
    decreases r' - r
  {
    if r < r' {
      StartsAboveMono(g, cs, r, r' - 1);
    }
  }

  /** Start cells are numbered in strictly increasing reading order. */
  lemma NumbersIncrease(g: Grid, cs: seq<ClueData>, r: int, c: int, r': int, c': int)
    requires Rectangular(g) && InBounds(g, r, c) && InBounds(g, r', c')
    requires IsStart(g, cs, r, c) && ReadsBefore(r, c, r', c')
    ensures StartsBefore(g, cs, r, c) < StartsBefore(g, cs, r', c')
  {
    if r == r' {
      RowStartsMono(g, cs, r, c + 1, c');
    } else {
      RowStartsMono(g, cs, r, c + 1, Width(g));
      StartsAboveMono(g, cs, r + 1, r');
    }
  }

  /** No number is skipped: every count below the number of start cells
      before (r, c) is the count before some start cell earlier in the row. */
  lemma {:induction false} RowDense(g: Grid, cs: seq<ClueData>, r: int, c: int, n: nat)
    requires Rectangular(g) && 0 <= r < |g| && c <= Width(g)
    requires n < RowStarts(g, cs, r, c)
    ensures exists c' :: 0 <= c' < c && IsStart(g, cs, r, c') && RowStarts(g, cs, r, c') == n
    decreases c
  {
    if n < RowStarts(g, cs, r, c - 1) {
      RowDense(g, cs, r, c - 1, n);
      var c' :| 0 <= c' < c - 1 && IsStart(g, cs, r, c') && RowStarts(g, cs, r, c') == n;
    } else {
      assert IsStart(g, cs, r, c - 1) && RowStarts(g, cs, r, c - 1) == n;
    }
  }

  lemma {:induction false} AboveDense(g: Grid, cs: seq<ClueData>, r: int, n: nat)
    requires Rectangular(g) && r <= |g| && n < StartsAbove(g, cs, r)
    ensures exists r', c' :: 0 <= r' < r && 0 <= c' < Width(g) && IsStart(g, cs, r', c') && StartsBefore(g, cs, r', c') == n
    decreases r
  {
    if n < StartsAbove(g, cs, r - 1) {
      AboveDense(g, cs, r - 1, n);
      var r', c' :| 0 <= r' < r - 1 && 0 <= c' < Width(g) && IsStart(g, cs, r', c') && StartsBefore(g, cs, r', c') == n;
    } else {
      var m := n - StartsAbove(g, cs, r - 1);
      RowDense(g, cs, r - 1, Width(g), m);
      var c' :| 0 <= c' < Width(g) && IsStart(g, cs, r - 1, c') && RowStarts(g, cs, r - 1, c') == m;
      assert StartsBefore(g, cs, r - 1, c') == n;
    }
  }

  /** The numbers form the range 1 .. the number of start cells: every
      number in it is carried by some start cell. */
  lemma NumbersDense(g: Grid, cs: seq<ClueData>, n: nat)
    requires Rectangular(g) && 1 <= n <= StartsAbove(g, cs, |g|)
    ensures exists r, c :: InBounds(g, r, c) && IsStart(g, cs, r, c) && StartsBefore(g, cs, r, c) + 1 == n
  {
    AboveDense(g, cs, |g|, n - 1);
  }

  /** ... and no start cell carries a number beyond it. */
  lemma NumbersBounded(g: Grid, cs: seq<ClueData>, r: int, c: int)
    requires Rectangular(g) && InBounds(g, r, c) && IsStart(g, cs, r, c)
    ensures StartsBefore(g, cs, r, c) + 1 <= StartsAbove(g, cs, |g|)
  {
    RowStartsMono(g, cs, r, c + 1, Width(g));
    StartsAboveMono(g, cs, r + 1, |g|);
  }

  // ---------------------------------------------------------------------
  // Clue lists

  /** The clues of cs running in direction d, in their order in cs. */
  function FilterDir(cs: seq<ClueData>, d: Direction): seq<ClueData>
  {
    if cs == [] then []
    else (if cs[0].direction == d then [cs[0]] else []) + FilterDir(cs[1..], d)
  }

  /** The filter keeps exactly the clues running in direction d. */
  lemma {:induction false} FilterMembers(cs: seq<ClueData>, d: Direction)
    ensures forall c :: c in FilterDir(cs, d) <==> c in cs && c.direction == d
  {
    if cs != [] {
      FilterMembers(cs[1..], d);
      assert cs == [cs[0]] + cs[1..];
    }
  }

  /** Splitting by direction loses and duplicates nothing. */
  lemma {:induction false} FilterPartition(cs: seq<ClueData>)
    ensures multiset(FilterDir(cs, Across)) + multiset(FilterDir(cs, Down)) == multiset(cs)
  {
    if cs != [] {
      FilterPartition(cs[1..]);
      assert cs == [cs[0]] + cs[1..];
      if cs[0].direction == Across {
        assert FilterDir(cs, Across) == [cs[0]] + FilterDir(cs[1..], Across);
        assert FilterDir(cs, Down) == FilterDir(cs[1..], Down);
      } else {
        assert FilterDir(cs, Across) == FilterDir(cs[1..], Across);
        assert FilterDir(cs, Down) == [cs[0]] + FilterDir(cs[1..], Down);
      }
    }
  }

  /** The start of each clue lies on the grid. */
  predicate StartsOnGrid(g: Grid, cs: seq<ClueData>) {
    Rectangular(g) && forall c :: c in cs ==> InBounds(g, c.startRow, c.startCol)
  }

  /** The sort key: the number in the clue's start cell, 0 when it has none. */
  function NumberAt(g: Grid, c: ClueData): nat
    requires Rectangular(g) && InBounds(g, c.startRow, c.startCol)
  {
    match g[c.startRow][c.startCol].clueNumber
    case Some(n) => n
    case None => 0
  }

  /** Each clue's number is at most the next one's. */
  predicate SortedByNumber(g: Grid, cs: seq<ClueData>)
    requires StartsOnGrid(g, cs)
  {
    forall i :: 0 < i < |cs| ==> NumberAt(g, cs[i - 1]) <= NumberAt(g, cs[i])
  }

  /** Ordered neighbours make an ordered list. */
  lemma {:induction false} SortedPairs(g: Grid, cs: seq<ClueData>, i: int, j: int)
    requires StartsOnGrid(g, cs) && SortedByNumber(g, cs) && 0 <= i <= j < |cs|
    ensures NumberAt(g, cs[i]) <= NumberAt(g, cs[j])
    decreases j - i
  {
    if i < j {
      SortedPairs(g, cs, i, j - 1);
    }
  }

  /** Insert c into a list ordered by number, before the clues with the
      same number. */
  function Insert(g: Grid, c: ClueData, cs: seq<ClueData>): seq<ClueData>
    requires StartsOnGrid(g, cs + [c])
  {
    if cs == [] then [c]
    else if NumberAt(g, cs[0]) < NumberAt(g, c) then
      assert cs + [c] == [cs[0]] + (cs[1..] + [c]);
      [cs[0]] + Insert(g, c, cs[1..])
    else
      [c] + cs
  }

  /** Insertion adds c and nothing else. */
  lemma {:induction false} InsertPerm(g: Grid, c: ClueData, cs: seq<ClueData>)
    requires StartsOnGrid(g, cs + [c])
    ensures multiset(Insert(g, c, cs)) == multiset(cs) + multiset{c}
    ensures forall x :: x in Insert(g, c, cs) ==> x == c || x in cs
  {
    if cs != [] && NumberAt(g, cs[0]) < NumberAt(g, c) {
      assert cs + [c] == [cs[0]] + (cs[1..] + [c]);
      InsertPerm(g, c, cs[1..]);
      assert cs == [cs[0]] + cs[1..];
    }
  }

  /** Insertion keeps the list ordered. */
  lemma {:induction false} InsertSorted(g: Grid, c: ClueData, cs: seq<ClueData>)
    requires StartsOnGrid(g, cs + [c]) && SortedByNumber(g, cs)
    ensures StartsOnGrid(g, Insert(g, c, cs)) && SortedByNumber(g, Insert(g, c, cs))
    ensures Insert(g, c, cs)[0] == c || (cs != [] && Insert(g, c, cs)[0] == cs[0])
  {
    InsertOnGrid(g, c, cs);
    if cs != [] && NumberAt(g, cs[0]) < NumberAt(g, c) {
      assert cs + [c] == [cs[0]] + (cs[1..] + [c]);
      var rest := Insert(g, c, cs[1..]);
      InsertSorted(g, c, cs[1..]);
      var r := Insert(g, c, cs);
      assert r == [cs[0]] + rest;
      forall i | 0 < i < |r| ensures NumberAt(g, r[i - 1]) <= NumberAt(g, r[i]) {
        if i == 1 {
          assert r[1] == rest[0];
        } else {
          assert r[i - 1] == rest[i - 2] && r[i] == rest[i - 1];
        }
      }
    }
  }

  /** Array.prototype.sort with the comparator on clue numbers: the same
      clues, ordered by number. */
  function SortByNumber(g: Grid, cs: seq<ClueData>): (r: seq<ClueData>)
    requires StartsOnGrid(g, cs)
    ensures multiset(r) == multiset(cs)
    ensures StartsOnGrid(g, r) && SortedByNumber(g, r)
  {
    if cs == [] then []
    else
      assert cs == [cs[0]] + cs[1..];
      var rest := SortByNumber(g, cs[1..]);
      assert forall x :: x in rest ==> x in multiset(rest);
      assert StartsOnGrid(g, rest + [cs[0]]);
      InsertPerm(g, cs[0], rest);
      InsertSorted(g, cs[0], rest);
      Insert(g, cs[0], rest)
  }

  /** The clues of cs whose number is n, in the order of cs. */
  function WithNumber(g: Grid, cs: seq<ClueData>, n: nat): seq<ClueData>
    requires StartsOnGrid(g, cs)
  {
    if cs == [] then []
    else
      assert forall x :: x in cs[1..] ==> x in cs;
      (if NumberAt(g, cs[0]) == n then [cs[0]] else []) + WithNumber(g, cs[1..], n)
  }

  /** Insertion keeps every clue's start on the grid. */
  lemma InsertOnGrid(g: Grid, c: ClueData, cs: seq<ClueData>)
    requires StartsOnGrid(g, cs + [c])
    ensures StartsOnGrid(g, Insert(g, c, cs))
  {
    InsertPerm(g, c, cs);
  }

  /** WithNumber on a list with a known head. */
  lemma WithNumberCons(g: Grid, x: ClueData, xs: seq<ClueData>, n: nat)
    requires StartsOnGrid(g, [x] + xs)
    ensures StartsOnGrid(g, xs)
    ensures WithNumber(g, [x] + xs, n) == (if NumberAt(g, x) == n then [x] else []) + WithNumber(g, xs, n)
  {
    assert ([x] + xs)[0] == x && ([x] + xs)[1..] == xs;
  }

  /** Insertion puts c before the clues with its number and leaves their
      order alone. */
  lemma {:induction false} InsertStable(g: Grid, c: ClueData, cs: seq<ClueData>, n: nat)
    requires StartsOnGrid(g, cs + [c])
    ensures StartsOnGrid(g, Insert(g, c, cs))
    ensures WithNumber(g, Insert(g, c, cs), n) == (if NumberAt(g, c) == n then [c] else []) + WithNumber(g, cs, n)
  {
    InsertOnGrid(g, c, cs);
    if cs != [] && NumberAt(g, cs[0]) < NumberAt(g, c) {
      assert cs + [c] == [cs[0]] + (cs[1..] + [c]);
      assert cs == [cs[0]] + cs[1..];
      var rest := Insert(g, c, cs[1..]);
      InsertStable(g, c, cs[1..], n);
      assert Insert(g, c, cs) == [cs[0]] + rest;
      WithNumberCons(g, cs[0], rest, n);
      WithNumberCons(g, cs[0], cs[1..], n);
    } else {
      assert Insert(g, c, cs) == [c] + cs;
      WithNumberCons(g, c, cs, n);
    }
  }

  /** The sort is stable: clues with the same number keep the order they
      had. */
  lemma {:induction false} SortStable(g: Grid, cs: seq<ClueData>, n: nat)
    requires StartsOnGrid(g, cs)
    ensures WithNumber(g, SortByNumber(g, cs), n) == WithNumber(g, cs, n)
  {
    if cs != [] {
      assert cs == [cs[0]] + cs[1..];
      var rest := SortByNumber(g, cs[1..]);
      SortStable(g, cs[1..], n);
      assert forall x :: x in rest ==> x in multiset(rest);
      InsertStable(g, cs[0], rest, n);
    }
  }
}
