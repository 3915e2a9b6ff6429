/** Steps 2 to 4 of generateCrossword: the empty 25 by 25 scratch grid, the
    first answer written across the centre row, and every later answer
    written where findBestPlacement puts it, or dropped when there is no
    such place. The k-th placed clue gets the identifier k (the source draws
    a fresh uuid). */
module Layout {
  import opened CrosswordTypes
  import opened Placement

  const GridSize: nat := 25

  /** Math.floor(gridSize / 2). */
  const CenterPoint: nat := GridSize / 2

  predicate EmptyBoard(b: Board) {
    forall r, c :: 0 <= r < |b| && 0 <= c < |b[r]| ==> b[r][c].None?
  }

  /** (r, c) is one of the n cells of a word written at (row, col) in
      direction d. */
  predicate OnWord(n: int, row: int, col: int, d: Direction, r: int, c: int) {
    if d == Across then r == row && col <= c < col + n else c == col && row <= r < row + n
  }

  /** The letter index of cell (r, c) within such a word. */
  function WordIndex(row: int, col: int, d: Direction, r: int, c: int): int {
    if d == Across then c - col else r - row
  }

  /** The board once w is written at (row, col) in direction d. */
  function Written(b: Board, w: string, row: int, col: int, d: Direction): (b': Board)
    ensures |b'| == |b|
    ensures forall r :: 0 <= r < |b| ==> |b'[r]| == |b[r]|
  {
    seq(|b|, r requires 0 <= r < |b| =>
      seq(|b[r]|, c requires 0 <= c < |b[r]| =>
        if OnWord(|w|, row, col, d, r, c) then Some(w[WordIndex(row, col, d, r, c)]) else b[r][c]))
  }

  /** The clue's span lies on the board and spells its answer there. */
  predicate Spells(b: Board, cl: ClueData) {
    && cl.length == |cl.answer|
    && forall j :: 0 <= j < |cl.answer| ==>
         OnBoard(b, SpanCell(cl, j)) && b[SpanCell(cl, j).row][SpanCell(cl, j).col] == Some(cl.answer[j])
  }

  /** Every letter on the board belongs to the span of some clue of cs. */
  predicate LettersCovered(b: Board, cs: seq<ClueData>) {
    forall r, c :: 0 <= r < |b| && 0 <= c < |b[r]| && b[r][c].Some? ==>
      exists k :: 0 <= k < |cs| && Covers(cs[k], r, c)
  }

  /** A written word spells itself. */
  lemma WrittenSpells(b: Board, w: string, row: int, col: int, d: Direction, id: nat)
    requires SpanOnBoard(b, w, row, col, d)
    ensures Spells(Written(b, w, row, col, d), ClueData(id, w, d, row, col, |w|))
  {
    var cl := ClueData(id, w, d, row, col, |w|);
    var b': Board := Written(b, w, row, col, d);
    forall j | 0 <= j < |w|
      ensures OnBoard(b', SpanCell(cl, j)) && b'[SpanCell(cl, j).row][SpanCell(cl, j).col] == Some(w[j])
    {
      var p := SpanCell(cl, j);
      assert OnWord(|w|, row, col, d, p.row, p.col) && WordIndex(row, col, d, p.row, p.col) == j;
    }
  }

  /** Writing a word where isValidPlacement allows it only fills empty
      cells or rewrites a cell with the letter it already holds, so every
      clue spelled before is still spelled. */
  lemma WriteKeepsSpells(b: Board, w: string, row: int, col: int, d: Direction, cl: ClueData)
    requires ValidAt(b, w, row, col, d) && Spells(b, cl)
    ensures Spells(Written(b, w, row, col, d), cl)
  {
    var b': Board := Written(b, w, row, col, d);
    forall j | 0 <= j < |cl.answer|
      ensures OnBoard(b', SpanCell(cl, j)) && b'[SpanCell(cl, j).row][SpanCell(cl, j).col] == Some(cl.answer[j])
    {
      var p := SpanCell(cl, j);
      if OnWord(|w|, row, col, d, p.row, p.col) {
        var jj := WordIndex(row, col, d, p.row, p.col);
        assert Along(row, col, d, jj) == p;
        assert CellAllows(b, w, row, col, d, jj);
      }
    }
  }

  /** Every letter of the new board belongs to the old clues or to the new
      word. */
  lemma WriteKeepsCovered(b: Board, w: string, row: int, col: int, d: Direction, cs: seq<ClueData>, id: nat)
    requires LettersCovered(b, cs)
    ensures LettersCovered(Written(b, w, row, col, d), cs + [ClueData(id, w, d, row, col, |w|)])
  {
    var b': Board := Written(b, w, row, col, d);
    var cs' := cs + [ClueData(id, w, d, row, col, |w|)];
    forall r: int, c: int | 0 <= r < |b'| && 0 <= c < |b'[r]| && b'[r][c].Some?
      ensures exists k :: 0 <= k < |cs'| && Covers(cs'[k], r, c)
    {
      if OnWord(|w|, row, col, d, r, c) {
        assert Covers(cs'[|cs|], r, c);
      } else {
        var k :| 0 <= k < |cs| && Covers(cs[k], r, c);
        assert cs'[k] == cs[k];
      }
    }
  }

  /** The letter loops of steps 3 and 4: w goes into the scratch grid
      letter by letter along its span. */
  method WriteWord(g: Scratch, ghost b: Board, w: string, row: int, col: int, d: Direction)
    modifies g
    requires g.Length0 == g.Length1 && b == Snap(g) && SpanOnBoard(b, w, row, col, d)
    ensures Snap(g) == Written(b, w, row, col, d)
  {
    var j := 0;
    while j < |w|
      invariant 0 <= j <= |w|
      invariant forall r, c :: 0 <= r < g.Length0 && 0 <= c < g.Length1 ==>
                  g[r, c] == if OnWord(j, row, col, d, r, c) then Some(w[WordIndex(row, col, d, r, c)]) else b[r][c]
    {
      if d == Across {
        g[row, col + j] := Some(w[j]);
      } else {
        g[row + j, col] := Some(w[j]);
      }
      j := j + 1;
    }
    ghost var expected := Written(b, w, row, col, d);
    forall r | 0 <= r < g.Length0 ensures Snap(g)[r] == expected[r] {
      forall c | 0 <= c < g.Length1 ensures Snap(g)[r][c] == expected[r][c] {
      }
    }
  }

  /** The first answer goes across the centre row, centred. */
  function FirstClue(w: string): ClueData {
    ClueData(0, w, Across, CenterPoint, CenterPoint - |w| / 2, |w|)
  }

  /** What the placement loop keeps: the k-th placed clue has id k and came
      from a later selected answer than the one before it, every placed clue
      is spelled on the board, and every letter on the board belongs to one
      of them. */
  ghost predicate Layout(b: Board, selected: seq<string>, placed: seq<ClueData>, origin: seq<nat>) {
    && |origin| == |placed|
    && (forall k :: 0 <= k < |placed| ==> origin[k] < |selected| && placed[k].answer == selected[origin[k]])
    && (forall k :: 0 < k < |placed| ==> origin[k - 1] < origin[k])
    && (forall k :: 0 <= k < |placed| ==> placed[k].id == k)
    && (forall k :: 0 <= k < |placed| ==> Spells(b, placed[k]))
    && LettersCovered(b, placed)
  }

  /** Placing selected answer i where isValidPlacement allows it keeps the
      layout. */
  lemma PlaceKeepsLayout(b: Board, selected: seq<string>, placed: seq<ClueData>, origin: seq<nat>,
                         i: nat, row: int, col: int, d: Direction)
    requires Layout(b, selected, placed, origin)
    requires i < |selected| && forall k :: 0 <= k < |origin| ==> origin[k] < i
    requires ValidAt(b, selected[i], row, col, d)
    ensures Layout(Written(b, selected[i], row, col, d), selected,
                   placed + [ClueData(|placed|, selected[i], d, row, col, |selected[i]|)], origin + [i])
  {
    var w := selected[i];
    var b' := Written(b, w, row, col, d);
    var placed' := placed + [ClueData(|placed|, w, d, row, col, |w|)];
    forall k | 0 <= k < |placed'| ensures Spells(b', placed'[k]) {
      if k < |placed| {
        WriteKeepsSpells(b, w, row, col, d, placed[k]);
      } else {
        WrittenSpells(b, w, row, col, d, |placed|);
      }
    }
    WriteKeepsCovered(b, w, row, col, d, placed, |placed|);
  }

  /** The clue that records answer w at placement p, after the clues
      already placed. */
  function NextClue(placed: seq<ClueData>, w: string, p: Placement): ClueData {
    ClueData(|placed|, w, p.direction, p.row, p.col, |w|)
  }

  /** One round of step 4 on board b: when no try of w is viable the board
      and the placed clues stay as they are; otherwise w is written at the
      placement of the best try and recorded as the next clue. */
  ghost predicate Round(b: Board, w: string, placed: seq<ClueData>, b': Board, placed': seq<ClueData>) {
    if forall k :: !Viable(b, w, k) then b' == b && placed' == placed
    else exists k :: && Best(b, w, k)
                     && b' == Written(b, w, Candidate(k).row, Candidate(k).col, Candidate(k).direction)
                     && placed' == placed + [NextClue(placed, w, Candidate(k))]
  }

  /** There is only one best try, so a round has only one outcome. */
  lemma BestUnique(b: Board, w: string, k1: Key, k2: Key)
    requires Best(b, w, k1) && Best(b, w, k2)
    ensures k1 == k2
  {
  }

  /** A round that records no clue is one that found no viable try: an
      answer is dropped only when it fits nowhere. */
  lemma DroppedOnlyWhenStuck(b: Board, w: string, placed: seq<ClueData>, b': Board, placed': seq<ClueData>)
    requires Round(b, w, placed, b', placed') && |placed'| == |placed|
    ensures forall k :: !Viable(b, w, k)
  {
  }

  /** Appending i to indices below i leaves them all at most i. */
  lemma AppendBound(origin: seq<nat>, i: nat)
    requires forall k :: 0 <= k < |origin| ==> origin[k] < i
    ensures forall k :: 0 <= k < |origin + [i]| ==> (origin + [i])[k] <= i
  {
  }

  /** The round that finds no viable try. */
  lemma IdleRound(b: Board, w: string, placed: seq<ClueData>)
    requires forall k :: !Viable(b, w, k)
    ensures Round(b, w, placed, b, placed)
  {
  }

  /** The round that writes answer i at the best try's placement p keeps
      the layout invariant. */
  lemma PlaceRound(b: Board, selected: seq<string>, placed: seq<ClueData>, origin: seq<nat>, i: nat, p: Placement)
    requires Layout(b, selected, placed, origin)
    requires i < |selected| && forall k :: 0 <= k < |origin| ==> origin[k] < i
    requires ValidAt(b, selected[i], p.row, p.col, p.direction)
    requires exists k :: Best(b, selected[i], k) && Candidate(k) == p
    ensures Layout(Written(b, selected[i], p.row, p.col, p.direction), selected, placed + [NextClue(placed, selected[i], p)], origin + [i])
    ensures Round(b, selected[i], placed, Written(b, selected[i], p.row, p.col, p.direction), placed + [NextClue(placed, selected[i], p)])
  {
    PlaceKeepsLayout(b, selected, placed, origin, i, p.row, p.col, p.direction);
    var k :| Best(b, selected[i], k) && Candidate(k) == p;
  }

  /** A round has one outcome: the board and the placed clues after it are
      determined by the ones before it and the word. */
  lemma RoundDetermined(b: Board, w: string, placed: seq<ClueData>, b1: Board, placed1: seq<ClueData>, b2: Board, placed2: seq<ClueData>)
    requires Round(b, w, placed, b1, placed1) && Round(b, w, placed, b2, placed2)
    ensures b1 == b2 && placed1 == placed2
  {
    if !forall k :: !Viable(b, w, k) {
      var k1 :| Best(b, w, k1) && b1 == Written(b, w, Candidate(k1).row, Candidate(k1).col, Candidate(k1).direction)
                && placed1 == placed + [NextClue(placed, w, Candidate(k1))];
      var k2 :| Best(b, w, k2) && b2 == Written(b, w, Candidate(k2).row, Candidate(k2).col, Candidate(k2).direction)
                && placed2 == placed + [NextClue(placed, w, Candidate(k2))];
      BestUnique(b, w, k1, k2);
    }
  }

  /** One round of step 4: selected answer i is written where
      findBestPlacement puts it and recorded as the next placed clue, or
      dropped when there is no such place. */
  method PlaceNext(g: Scratch, ghost b: Board, selected: seq<string>, placed: seq<ClueData>, ghost origin: seq<nat>, i: nat)
    returns (ghost b': Board, placed': seq<ClueData>, ghost origin': seq<nat>)
    modifies g
    requires g.Length0 == g.Length1 && b == Snap(g)
    requires Layout(b, selected, placed, origin)
    requires i < |selected| && forall k :: 0 <= k < |origin| ==> origin[k] < i
    ensures b' == Snap(g) && Layout(b', selected, placed', origin')
    ensures Round(b, selected[i], placed, b', placed')
    ensures |placed| <= |placed'| <= |placed| + 1 && placed'[..|placed|] == placed && origin'[..|origin|] == origin
    ensures forall k :: 0 <= k < |origin'| ==> origin'[k] <= i
  {
    b', placed', origin' := b, placed, origin;
    var placement := FindBestPlacement(g, b, selected[i]);
    if placement.None? {
      IdleRound(b, selected[i], placed);
    } else {
      var p := placement.value;
      WriteWord(g, b, selected[i], p.row, p.col, p.direction);
      PlaceRound(b, selected, placed, origin, i, p);
      AppendBound(origin, i);
      b' := Written(b, selected[i], p.row, p.col, p.direction);
      placed' := placed + [NextClue(placed, selected[i], p)];
      origin' := origin + [i];
    }
  }

  /** The placement loop run over the first |boards| selected answers:
      boards[i] and lists[i] are the board and the placed clues once answer
      i has been handled, starting from the first answer written across the
      centre of b0. */
  ghost predicate RunsTo(b0: Board, selected: seq<string>, boards: seq<Board>, lists: seq<seq<ClueData>>) {
    && 1 <= |boards| == |lists| <= |selected|
    && boards[0] == Written(b0, selected[0], CenterPoint, CenterPoint - |selected[0]| / 2, Across)
    && lists[0] == [FirstClue(selected[0])]
    && forall i :: 0 < i < |boards| ==> Round(boards[i - 1], selected[i], lists[i - 1], boards[i], lists[i])
  }

  /** A run that has handled answers 0 to |boards| - 1 extends by the next
      round. */
  lemma RunsOn(b0: Board, selected: seq<string>, boards: seq<Board>, lists: seq<seq<ClueData>>, b: Board, placed: seq<ClueData>)
    requires RunsTo(b0, selected, boards, lists) && |boards| < |selected|
    requires Round(boards[|boards| - 1], selected[|boards|], lists[|lists| - 1], b, placed)
    ensures RunsTo(b0, selected, boards + [b], lists + [placed])
  {
    var boards', lists' := boards + [b], lists + [placed];
    forall i | 0 < i < |boards'| ensures Round(boards'[i - 1], selected[i], lists'[i - 1], boards'[i], lists'[i]) {
      if i < |boards| {
        assert boards'[i - 1] == boards[i - 1] && boards'[i] == boards[i];
        assert lists'[i - 1] == lists[i - 1] && lists'[i] == lists[i];
      }
    }
  }

  /** Two runs over the same answers from the same board agree round by
      round: the layout is a function of the selected answers. */
  lemma {:induction false} RunsAgree(b0: Board, selected: seq<string>, boards1: seq<Board>, lists1: seq<seq<ClueData>>,
                                     boards2: seq<Board>, lists2: seq<seq<ClueData>>, i: nat)
    requires RunsTo(b0, selected, boards1, lists1) && RunsTo(b0, selected, boards2, lists2)
    requires i < |boards1| && i < |boards2|
    ensures boards1[i] == boards2[i] && lists1[i] == lists2[i]
  {
    if i > 0 {
      RunsAgree(b0, selected, boards1, lists1, boards2, lists2, i - 1);
      RoundDetermined(boards1[i - 1], selected[i], lists1[i - 1], boards1[i], lists1[i], boards2[i], lists2[i]);
    }
  }

  /** The empty n by n scratch grid. */
  function Blank(n: nat): (b: Board)
    ensures |b| == n && Square(b) && EmptyBoard(b)
  {
    seq(n, r => seq(n, c => None))
  }

  /** Writing the first answer into the empty board gives the layout of
      clue 0 alone. */
  lemma FirstLayout(b: Board, selected: seq<string>)
    requires |selected| >= 1 && EmptyBoard(b)
    requires SpanOnBoard(b, selected[0], CenterPoint, CenterPoint - |selected[0]| / 2, Across)
    ensures Layout(Written(b, selected[0], CenterPoint, CenterPoint - |selected[0]| / 2, Across), selected,
                   [FirstClue(selected[0])], [0])
  {
    var w := selected[0];
    WrittenSpells(b, w, CenterPoint, CenterPoint - |w| / 2, Across, 0);
    var none: seq<ClueData> := [];
    WriteKeepsCovered(b, w, CenterPoint, CenterPoint - |w| / 2, Across, none, 0);
    assert none + [FirstClue(w)] == [FirstClue(w)];
  }

  /** Step 3: the first answer is written across the centre row of the
      empty scratch grid and becomes clue 0. */
  method PlaceFirst(g: Scratch, ghost b: Board, selected: seq<string>) returns (ghost b': Board, placed: seq<ClueData>, ghost origin: seq<nat>)
    modifies g
    requires g.Length0 == GridSize && g.Length1 == GridSize && b == Snap(g) && EmptyBoard(b)
    requires |selected| >= 1 && |selected[0]| <= GridSize
    ensures b' == Snap(g) && Layout(b', selected, placed, origin)
    ensures b' == Written(b, selected[0], CenterPoint, CenterPoint - |selected[0]| / 2, Across)
    ensures placed == [FirstClue(selected[0])] && origin == [0]
  {
    var firstWord := selected[0];
    var startCol := CenterPoint - |firstWord| / 2;
    WriteWord(g, b, firstWord, CenterPoint, startCol, Across);
    FirstLayout(b, selected);
    b' := Written(b, firstWord, CenterPoint, startCol, Across);
    placed := [FirstClue(firstWord)];
    origin := [0];
  }

  /** Steps 3 and 4 of generateCrossword: the scratch grid, empty on entry,
      ends up holding the placed answers, round after round of the loop. */
  method PlaceClues(g: Scratch, ghost b0: Board, selected: seq<string>)
    returns (ghost b: Board, placed: seq<ClueData>, ghost origin: seq<nat>, ghost boards: seq<Board>, ghost lists: seq<seq<ClueData>>)
    modifies g
    requires g.Length0 == GridSize && g.Length1 == GridSize && b0 == Snap(g) && EmptyBoard(b0)
    requires |selected| >= 1 && |selected[0]| <= GridSize
    ensures b == Snap(g) && Layout(b, selected, placed, origin)
    ensures 1 <= |placed| <= |selected| && placed[0] == FirstClue(selected[0]) && origin[0] == 0
    ensures RunsTo(b0, selected, boards, lists) && |boards| == |selected|
    ensures b == boards[|selected| - 1] && placed == lists[|selected| - 1]
  {
    b, placed, origin := PlaceFirst(g, b0, selected);
    boards, lists := [b], [placed];
    var i: nat := 1;
    while i < |selected|
      invariant 1 <= i <= |selected|
      invariant b == Snap(g)
      invariant Layout(b, selected, placed, origin)
      invariant 1 <= |placed| <= i && placed[0] == FirstClue(selected[0]) && origin[0] == 0
      invariant forall k :: 0 <= k < |origin| ==> origin[k] < i
      invariant RunsTo(b0, selected, boards, lists) && |boards| == i
      invariant b == boards[i - 1] && placed == lists[i - 1]
    {
      b, placed, origin := PlaceNext(g, b, selected, placed, origin, i);
      RunsOn(b0, selected, boards, lists, b, placed);
      boards, lists := boards + [b], lists + [placed];
      i := i + 1;
    }
  }
}
