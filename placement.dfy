/** The placement engine of the generator: the legality test for a word at a
    position (isValidPlacement), its intersection score
    (calculatePlacementScore) and the search for the best anchored position
    (findBestPlacement). The methods work on the generator's square scratch
    array, in which None is an empty cell; what they compute is specified on
    a snapshot of that array as a sequence of rows, a Board. */
module Placement {
  import opened CrosswordTypes

  type Scratch = array2<Option<char>>

  type Board = seq<seq<Option<char>>>

  datatype Placement = Placement(row: int, col: int, direction: Direction)

  /** The contents of the scratch array, row by row. */
  function Snap(g: Scratch): (b: Board)
    reads g
    ensures |b| == g.Length0
    ensures forall r :: 0 <= r < |b| ==> |b[r]| == g.Length1
    ensures forall r, c :: 0 <= r < g.Length0 && 0 <= c < g.Length1 ==> b[r][c] == g[r, c]
  {
    seq(g.Length0, r requires 0 <= r < g.Length0 reads g =>
      seq(g.Length1, c requires 0 <= c < g.Length1 reads g => g[r, c]))
  }

  predicate Square(b: Board) {
    forall r :: 0 <= r < |b| ==> |b[r]| == |b|
  }

  predicate OnBoard(b: Board, p: Pos) {
    0 <= p.row < |b| && 0 <= p.col < |b[p.row]|
  }

  /** The bounds test of isValidPlacement: along its axis the word lies
      inside [0, n). */
  predicate Fits(n: int, w: string, row: int, col: int, d: Direction) {
    if d == Across then 0 <= col && col + |w| <= n else 0 <= row && row + |w| <= n
  }

  /** The coordinate across the word's axis is on the grid. The search only
      tries positions through an existing cell, so this always holds there;
      the source does not test it. */
  predicate Anchorable(n: int, row: int, col: int, d: Direction) {
    if d == Across then 0 <= row < n else 0 <= col < n
  }

  /** Every cell of the word's span is on the square board. */
  predicate SpanOnBoard(b: Board, w: string, row: int, col: int, d: Direction) {
    Square(b) && Fits(|b|, w, row, col, d) && Anchorable(|b|, row, col, d)
  }

  /** The two neighbours of p that are not on the axis d. */
  function SideNeighbours(p: Pos, d: Direction): (Pos, Pos) {
    if d == Across then (Pos(p.row - 1, p.col), Pos(p.row + 1, p.col))
    else (Pos(p.row, p.col - 1), Pos(p.row, p.col + 1))
  }

  predicate EmptyOrOff(b: Board, q: Pos) {
    OnBoard(b, q) ==> b[q.row][q.col].None?
  }

  /** Cell j of the span either already holds w[j], or is empty and has no
      letter beside it off the word's axis. */
  predicate CellAllows(b: Board, w: string, row: int, col: int, d: Direction, j: int)
    requires 0 <= j < |w| && OnBoard(b, Along(row, col, d, j))
  {
    var p := Along(row, col, d, j);
    match b[p.row][p.col]
    case Some(ch) => ch == w[j]
    case None => EmptyOrOff(b, SideNeighbours(p, d).0) && EmptyOrOff(b, SideNeighbours(p, d).1)
  }

  /** What isValidPlacement accepts. */
  predicate ValidAt(b: Board, w: string, row: int, col: int, d: Direction) {
    && SpanOnBoard(b, w, row, col, d)
    && forall j :: 0 <= j < |w| ==> CellAllows(b, w, row, col, d, j)
  }

  /** The three conditions of isValidPlacement, spelled out: the span is on
      the board, every cell of it is empty or already holds the word's
      letter, and no empty cell of it has a letter beside it off the word's
      axis. */
  lemma ValidAtMeans(b: Board, w: string, row: int, col: int, d: Direction)
    ensures ValidAt(b, w, row, col, d) <==>
      && Square(b)
      && Anchorable(|b|, row, col, d)
      && Fits(|b|, w, row, col, d)
      && (forall j :: 0 <= j < |w| ==> OnBoard(b, Along(row, col, d, j)))
      && (forall j :: 0 <= j < |w| ==>
            var p := Along(row, col, d, j);
            b[p.row][p.col].None? || b[p.row][p.col] == Some(w[j]))
      && (forall j :: 0 <= j < |w| ==>
            var p := Along(row, col, d, j);
            b[p.row][p.col].None? ==> EmptyOrOff(b, SideNeighbours(p, d).0) && EmptyOrOff(b, SideNeighbours(p, d).1))
  {
    if SpanOnBoard(b, w, row, col, d) {
      forall j | 0 <= j < |w|
        ensures CellAllows(b, w, row, col, d, j) <==>
          var p := Along(row, col, d, j);
          && (b[p.row][p.col].None? || b[p.row][p.col] == Some(w[j]))
          && (b[p.row][p.col].None? ==> EmptyOrOff(b, SideNeighbours(p, d).0) && EmptyOrOff(b, SideNeighbours(p, d).1))
      {
      }
    }
  }

  /** A neighbour the adjacency loop lets through: off the grid, empty, or
      beside the cell along the word's own axis. */
  predicate Tolerated(b: Board, adj: Pos, row: int, col: int, d: Direction) {
    !(&& OnBoard(b, adj)
      && b[adj.row][adj.col].Some?
      && !((d == Across && adj.row == row && (adj.col == col - 1 || adj.col == col + 1)) ||
           (d == Down && adj.col == col && (adj.row == row - 1 || adj.row == row + 1))))
  }

  method IsValidPlacement(g: Scratch, ghost b: Board, w: string, startRow: int, startCol: int, d: Direction) returns (ok: bool)
    requires g.Length0 == g.Length1 && b == Snap(g) && Anchorable(g.Length0, startRow, startCol, d)
    ensures ok == ValidAt(b, w, startRow, startCol, d)
  {
    var gridSize := g.Length0;
    if d == Across {
      if startCol < 0 || startCol + |w| > gridSize {
        return false;
      }
    } else {
      if startRow < 0 || startRow + |w| > gridSize {
        return false;
      }
    }
    var i := 0;
    while i < |w|
      invariant 0 <= i <= |w|
      invariant forall j :: 0 <= j < i ==> CellAllows(b, w, startRow, startCol, d, j)
    {
      var row := if d == Across then startRow else startRow + i;
      var col := if d == Across then startCol + i else startCol;
      if g[row, col].Some? && g[row, col].value != w[i] {
        assert !CellAllows(b, w, startRow, startCol, d, i);
        return false;
      }
      if g[row, col].None? {
        var adjacentCells := [Pos(row - 1, col), Pos(row + 1, col), Pos(row, col - 1), Pos(row, col + 1)];
        var k := 0;
        while k < |adjacentCells|
          invariant 0 <= k <= |adjacentCells|
          invariant forall m :: 0 <= m < k ==> Tolerated(b, adjacentCells[m], row, col, d)
        {
          var adj := adjacentCells[k];
          if && adj.row >= 0 && adj.row < gridSize && adj.col >= 0 && adj.col < gridSize
             && g[adj.row, adj.col].Some?
             && !((d == Across && adj.row == row && (adj.col == col - 1 || adj.col == col + 1)) ||
                  (d == Down && adj.col == col && (adj.row == row - 1 || adj.row == row + 1)))
          {
            assert !CellAllows(b, w, startRow, startCol, d, i);
            return false;
          }
          k := k + 1;
        }
        assert Tolerated(b, adjacentCells[0], row, col, d) && Tolerated(b, adjacentCells[1], row, col, d);
        assert Tolerated(b, adjacentCells[2], row, col, d) && Tolerated(b, adjacentCells[3], row, col, d);
      }
      assert CellAllows(b, w, startRow, startCol, d, i);
      i := i + 1;
    }
    return true;
  }

  /** The number of the first n span cells that already hold the word's
      letter. */
  function ScoreUpTo(b: Board, w: string, row: int, col: int, d: Direction, n: int): (s: nat)
    requires SpanOnBoard(b, w, row, col, d) && 0 <= n <= |w|
    ensures s <= n
  {
    if n == 0 then 0
    else
      var p := Along(row, col, d, n - 1);
      ScoreUpTo(b, w, row, col, d, n - 1) + (if b[p.row][p.col] == Some(w[n - 1]) then 1 else 0)
  }

  /** The count reaches n exactly when every one of the n cells holds its
      letter, and is zero exactly when none does. */
  lemma {:induction false} ScoreUpToExtremes(b: Board, w: string, row: int, col: int, d: Direction, n: int)
    requires SpanOnBoard(b, w, row, col, d) && 0 <= n <= |w|
    ensures ScoreUpTo(b, w, row, col, d, n) == n <==>
              forall j :: 0 <= j < n ==> b[Along(row, col, d, j).row][Along(row, col, d, j).col] == Some(w[j])
    ensures ScoreUpTo(b, w, row, col, d, n) == 0 <==>
              forall j :: 0 <= j < n ==> b[Along(row, col, d, j).row][Along(row, col, d, j).col] != Some(w[j])
  {
    if n > 0 {
      ScoreUpToExtremes(b, w, row, col, d, n - 1);
    }
  }

  /** The intersection count of a placement. */
  function Score(b: Board, w: string, row: int, col: int, d: Direction): nat
    requires SpanOnBoard(b, w, row, col, d)
  {
    ScoreUpTo(b, w, row, col, d, |w|)
  }

  method CalculatePlacementScore(g: Scratch, ghost b: Board, w: string, startRow: int, startCol: int, d: Direction) returns (score: int)
    requires g.Length0 == g.Length1 && b == Snap(g) && SpanOnBoard(b, w, startRow, startCol, d)
    ensures score == Score(b, w, startRow, startCol, d)
    ensures 0 <= score <= |w|
  {
    score := 0;
    var i := 0;
    while i < |w|
      invariant 0 <= i <= |w|
      invariant score == ScoreUpTo(b, w, startRow, startCol, d, i)
    {
      var row := if d == Across then startRow else startRow + i;
      var col := if d == Across then startCol + i else startCol;
      if g[row, col] == Some(w[i]) {
        score := score + 1;
      }
      i := i + 1;
    }
  }

  // ---------------------------------------------------------------------
  // The search

  /** One try of the search: letter w[i] of the word is laid over the cell
      (row, col), across or down. */
  datatype Key = Key(i: int, row: int, col: int, direction: Direction)

  /** The placement a try stands for: the word shifted so that its letter i
      lands on the anchor cell. */
  function Candidate(k: Key): Placement {
    if k.direction == Across then Placement(k.row, k.col - k.i, Across)
    else Placement(k.row - k.i, k.col, Down)
  }

  /** The try passes both tests of the search: the anchor cell holds the
      letter, and the placement is valid. */
  predicate Viable(b: Board, w: string, k: Key) {
    && 0 <= k.i < |w| && OnBoard(b, Pos(k.row, k.col))
    && b[k.row][k.col] == Some(w[k.i])
    && ValidAt(b, w, Candidate(k).row, Candidate(k).col, k.direction)
  }

  function ScoreOf(b: Board, w: string, k: Key): nat
    requires Viable(b, w, k)
  {
    Score(b, w, Candidate(k).row, Candidate(k).col, k.direction)
  }

  /** The score of a try, -1 for a try that is not viable. */
  function TryScore(b: Board, w: string, k: Key): (s: int)
    ensures s >= -1
    ensures s >= 0 <==> Viable(b, w, k)
  {
    if Viable(b, w, k) then ScoreOf(b, w, k) else -1
  }

  /** S gives every try its TryScore. The trigger keeps S(k) from unfolding
      into TryScore wherever S is applied. */
  ghost predicate Scores(S: Key -> int, b: Board, w: string) {
    forall k {:trigger TryScore(b, w, k)} :: S(k) == TryScore(b, w, k)
  }

  lemma ScoresExist(b: Board, w: string)
    ensures Scores(k => TryScore(b, w, k), b, w)
  {
  }

  /** At a cell holding letter i, the across and the down try score as
      isValidPlacement and calculatePlacementScore say. */
  lemma TryScoreAt(b: Board, w: string, i: int, row: int, col: int)
    requires Square(b) && 0 <= i < |w| && 0 <= row < |b| && 0 <= col < |b| && b[row][col] == Some(w[i])
    ensures TryScore(b, w, Key(i, row, col, Across)) ==
              if ValidAt(b, w, row, col - i, Across) then Score(b, w, row, col - i, Across) else -1
    ensures TryScore(b, w, Key(i, row, col, Down)) ==
              if ValidAt(b, w, row - i, col, Down) then Score(b, w, row - i, col, Down) else -1
  {
    assert Candidate(Key(i, row, col, Across)) == Placement(row, col - i, Across);
    assert Candidate(Key(i, row, col, Down)) == Placement(row - i, col, Down);
  }

  /** A cell not holding letter i anchors no viable try. */
  lemma TryScoreOff(b: Board, w: string, i: int, row: int, col: int)
    requires 0 <= row < |b| && 0 <= col < |b[row]| && (0 <= i < |w| ==> b[row][col] != Some(w[i]))
    ensures TryScore(b, w, Key(i, row, col, Across)) == -1 && TryScore(b, w, Key(i, row, col, Down)) == -1
  {
  }

  /** The order of the search: letter index, then row, then column, and
      across before down. */
  predicate Before(a: Key, b: Key) {
    || a.i < b.i
    || (a.i == b.i && a.row < b.row)
    || (a.i == b.i && a.row == b.row && a.col < b.col)
    || (a.i == b.i && a.row == b.row && a.col == b.col && a.direction == Across && b.direction == Down)
  }

  /** k has the highest score of all viable tries, and every earlier viable
      try scores strictly less (a later one wins only with a higher score). */
  ghost predicate Best(b: Board, w: string, k: Key) {
    && Viable(b, w, k)
    && (forall k' :: Viable(b, w, k') ==> ScoreOf(b, w, k') <= ScoreOf(b, w, k))
    && (forall k' :: Viable(b, w, k') && Before(k', k) ==> ScoreOf(b, w, k') < ScoreOf(b, w, k))
  }

  /** Only tries with letter index below m and anchor inside an n by n board
      can be viable. */
  predicate InScan(k: Key, m: int, n: int) {
    0 <= k.i < m && 0 <= k.row < n && 0 <= k.col < n
  }

  lemma ViableInScan(b: Board, w: string)
    requires Square(b)
    ensures forall k :: TryScore(b, w, k) >= 0 ==> InScan(k, |w|, |b|)
  {
  }

  /** The state of a scan once every try before cur has been made, for any
      scoring S of the tries in which a negative score means "not a
      candidate": the best so far is the first try of the highest score
      among them, and bestScore is -1 while there is none. */
  ghost predicate ScanInv(S: Key -> int, best: Option<Placement>, bestScore: int, bestKey: Key, cur: Key) {
    && (best.None? <==> bestScore == -1)
    && (best.Some? ==> 0 <= bestScore == S(bestKey) && Before(bestKey, cur) && best.value == Candidate(bestKey))
    && (forall k :: Before(k, cur) ==> S(k) <= bestScore)
    && (best.Some? ==> forall k :: Before(k, bestKey) ==> S(k) < bestScore)
  }

  /** Moving the cursor over a cell that anchors no candidate. */
  lemma ScanPastCell(S: Key -> int, best: Option<Placement>, bestScore: int, bestKey: Key, i: int, row: int, col: int)
    requires ScanInv(S, best, bestScore, bestKey, Key(i, row, col, Across))
    requires S(Key(i, row, col, Across)) < 0 && S(Key(i, row, col, Down)) < 0
    ensures ScanInv(S, best, bestScore, bestKey, Key(i, row, col + 1, Across))
  {
    forall k | Before(k, Key(i, row, col + 1, Across)) && !Before(k, Key(i, row, col, Across))
      ensures S(k) <= bestScore
    {
      assert k == Key(i, row, col, Across) || k == Key(i, row, col, Down);
    }
  }

  /** No candidate is anchored past the last column of a row. */
  lemma ScanPastRow(S: Key -> int, best: Option<Placement>, bestScore: int, bestKey: Key, m: int, n: int, i: int, row: int)
    requires forall k :: S(k) >= 0 ==> InScan(k, m, n)
    requires ScanInv(S, best, bestScore, bestKey, Key(i, row, n, Across))
    ensures ScanInv(S, best, bestScore, bestKey, Key(i, row + 1, 0, Across))
  {
  }

  /** No candidate is anchored past the last row. */
  lemma ScanPastLetter(S: Key -> int, best: Option<Placement>, bestScore: int, bestKey: Key, m: int, n: int, i: int)
    requires forall k :: S(k) >= 0 ==> InScan(k, m, n)
    requires ScanInv(S, best, bestScore, bestKey, Key(i, n, 0, Across))
    ensures ScanInv(S, best, bestScore, bestKey, Key(i + 1, 0, 0, Across))
  {
  }

  /** The across try at a cell scores more than the best so far: it becomes
      the best so far, and the down try at the cell is next. */
  lemma TakeAcross(S: Key -> int, best: Option<Placement>, bestScore: int, bestKey: Key, i: int, row: int, col: int, score: int)
    requires ScanInv(S, best, bestScore, bestKey, Key(i, row, col, Across))
    requires S(Key(i, row, col, Across)) == score > bestScore
    ensures ScanInv(S, Some(Placement(row, col - i, Across)), score, Key(i, row, col, Across), Key(i, row, col, Down))
  {
  }

  /** The across try at a cell does not score more: the best so far stays. */
  lemma KeepAcross(S: Key -> int, best: Option<Placement>, bestScore: int, bestKey: Key, i: int, row: int, col: int)
    requires ScanInv(S, best, bestScore, bestKey, Key(i, row, col, Across))
    requires S(Key(i, row, col, Across)) <= bestScore
    ensures ScanInv(S, best, bestScore, bestKey, Key(i, row, col, Down))
  {
  }

  /** The down try at a cell scores more than the best so far: it becomes
      the best so far, and the next column is next. */
  lemma TakeDown(S: Key -> int, best: Option<Placement>, bestScore: int, bestKey: Key, i: int, row: int, col: int, score: int)
    requires ScanInv(S, best, bestScore, bestKey, Key(i, row, col, Down))
    requires S(Key(i, row, col, Down)) == score > bestScore
    ensures ScanInv(S, Some(Placement(row - i, col, Down)), score, Key(i, row, col, Down), Key(i, row, col + 1, Across))
  {
  }

  lemma KeepDown(S: Key -> int, best: Option<Placement>, bestScore: int, bestKey: Key, i: int, row: int, col: int)
    requires ScanInv(S, best, bestScore, bestKey, Key(i, row, col, Down))
    requires S(Key(i, row, col, Down)) <= bestScore
    ensures ScanInv(S, best, bestScore, bestKey, Key(i, row, col + 1, Across))
  {
  }

  /** Once every try of the search's scoring is made, the best so far is the
      best overall. */
  lemma ScanEnd(b: Board, w: string, S: Key -> int, best: Option<Placement>, bestScore: int, bestKey: Key)
    requires Scores(S, b, w) && Square(b)
    requires ScanInv(S, best, bestScore, bestKey, Key(|w|, 0, 0, Across))
    ensures best.None? <==> forall k :: !Viable(b, w, k)
    ensures best.Some? ==> ValidAt(b, w, best.value.row, best.value.col, best.value.direction)
    ensures best.Some? ==> Best(b, w, bestKey) && Candidate(bestKey) == best.value
  {
    ViableInScan(b, w);
    if best.None? {
      forall k ensures !Viable(b, w, k) {
        assert TryScore(b, w, k) < 0;
      }
    } else {
      assert TryScore(b, w, bestKey) == bestScore;
      forall k' | Viable(b, w, k')
        ensures ScoreOf(b, w, k') <= ScoreOf(b, w, bestKey)
        ensures Before(k', bestKey) ==> ScoreOf(b, w, k') < ScoreOf(b, w, bestKey)
      {
        assert TryScore(b, w, k') == ScoreOf(b, w, k');
        assert InScan(k', |w|, |b|);
      }
    }
  }

  /** The body of the search's innermost loop: the across try and then the
      down try at one cell. */
  method TryCell(g: Scratch, w: string, i: int, row: int, col: int, ghost b: Board, ghost S: Key -> int,
                 best: Option<Placement>, bestScore: int, ghost bestKey: Key)
    returns (best': Option<Placement>, bestScore': int, ghost bestKey': Key)
    requires g.Length0 == g.Length1 && 0 <= i < |w| && 0 <= row < g.Length0 && 0 <= col < g.Length1
    requires b == Snap(g) && Scores(S, b, w)
    requires ScanInv(S, best, bestScore, bestKey, Key(i, row, col, Across))
    ensures ScanInv(S, best', bestScore', bestKey', Key(i, row, col + 1, Across))
  {
    best', bestScore', bestKey' := best, bestScore, bestKey;
    if g[row, col] != Some(w[i]) {
      TryScoreOff(b, w, i, row, col);
      ScanPastCell(S, best, bestScore, bestKey, i, row, col);
      return;
    }
    TryScoreAt(b, w, i, row, col);
    var valid := IsValidPlacement(g, b, w, row, col - i, Across);
    var score := -1;
    if valid {
      score := CalculatePlacementScore(g, b, w, row, col - i, Across);
    }
    assert TryScore(b, w, Key(i, row, col, Across)) == score;
    if score > bestScore' {
      TakeAcross(S, best', bestScore', bestKey', i, row, col, score);
      bestScore' := score;
      best' := Some(Placement(row, col - i, Across));
      bestKey' := Key(i, row, col, Across);
    } else {
      KeepAcross(S, best', bestScore', bestKey', i, row, col);
    }
    valid := IsValidPlacement(g, b, w, row - i, col, Down);
    score := -1;
    if valid {
      score := CalculatePlacementScore(g, b, w, row - i, col, Down);
    }
    assert TryScore(b, w, Key(i, row, col, Down)) == score;
    if score > bestScore' {
      TakeDown(S, best', bestScore', bestKey', i, row, col, score);
      bestScore' := score;
      best' := Some(Placement(row - i, col, Down));
      bestKey' := Key(i, row, col, Down);
    } else {
      KeepDown(S, best', bestScore', bestKey', i, row, col);
    }
  }

  method FindBestPlacement(g: Scratch, ghost b: Board, w: string) returns (best: Option<Placement>)
    requires g.Length0 == g.Length1 && b == Snap(g)
    ensures best.None? <==> forall k :: !Viable(b, w, k)
    ensures best.Some? ==> ValidAt(b, w, best.value.row, best.value.col, best.value.direction)
    ensures best.Some? ==> exists k :: Best(b, w, k) && Candidate(k) == best.value
  {
    ScoresExist(b, w);
    ghost var S: Key -> int :| Scores(S, b, w);
    assert Scores(S, b, w);
    ViableInScan(b, w);
    assert forall k :: S(k) >= 0 ==> InScan(k, |w|, g.Length0) by {
      forall k | S(k) >= 0 ensures InScan(k, |w|, g.Length0) {
        assert TryScore(b, w, k) >= 0;
      }
    }
    best := None;
    var bestScore := -1;
    ghost var bestKey := Key(0, 0, 0, Across);
    var i := 0;
    while i < |w|
      invariant 0 <= i <= |w|
      invariant ScanInv(S, best, bestScore, bestKey, Key(i, 0, 0, Across))
    {
      var row := 0;
      while row < g.Length0
        invariant 0 <= row <= g.Length0
        invariant ScanInv(S, best, bestScore, bestKey, Key(i, row, 0, Across))
      {
        var col := 0;
        while col < g.Length1
          invariant 0 <= col <= g.Length1
          invariant ScanInv(S, best, bestScore, bestKey, Key(i, row, col, Across))
        {
          best, bestScore, bestKey := TryCell(g, w, i, row, col, b, S, best, bestScore, bestKey);
          col := col + 1;
        }
        ScanPastRow(S, best, bestScore, bestKey, |w|, g.Length0, i, row);
        row := row + 1;
      }
      ScanPastLetter(S, best, bestScore, bestKey, |w|, g.Length0, i);
      i := i + 1;
    }
    ScanEnd(b, w, S, best, bestScore, bestKey);
  }
}
