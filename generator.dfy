/** generateCrossword: select ten answers, lay them out on a 25 x 25
    scratch grid, cut the grid down to the letters plus a border of one
    cell, give each cell its clue ids and each clue start its number, and
    return a fresh puzzle state with the clues split by direction and
    ordered by number. The stage lemmas below carry what each step
    establishes to the next one. */
module Generator {
  import opened CrosswordTypes
  import opened Selection
  import opened Placement
  import opened Layout
  import opened Cropping
  import opened Numbering
  import Transitions

  // ---------------------------------------------------------------------
  // What a generated puzzle satisfies

  /** Every clue of cs is a non-empty word whose span lies on the grid,
      each span cell a letter cell holding that letter as its solution. */
  ghost predicate Spelled(g: Grid, cs: seq<ClueData>) {
    && Rectangular(g)
    && (forall cl :: cl in cs ==> 1 <= cl.length == |cl.answer|)
    && forall cl, j :: cl in cs && 0 <= j < cl.length ==>
         && InBounds(g, SpanCell(cl, j).row, SpanCell(cl, j).col)
         && !g[SpanCell(cl, j).row][SpanCell(cl, j).col].isBlank
         && g[SpanCell(cl, j).row][SpanCell(cl, j).col].solution == [cl.answer[j]]
  }

  /** Every letter cell lies on the span of some clue of cs. */
  ghost predicate Owned(g: Grid, cs: seq<ClueData>) {
    && Rectangular(g)
    && forall r, c :: InBounds(g, r, c) && !g[r][c].isBlank ==> exists cl :: cl in cs && Covers(cl, r, c)
  }

  /** A cell lists the id of a clue exactly when that clue covers it. */
  ghost predicate Listed(g: Grid, cs: seq<ClueData>) {
    && Rectangular(g)
    && (forall cl, j :: cl in cs && 0 <= j < cl.length && InBounds(g, SpanCell(cl, j).row, SpanCell(cl, j).col) ==>
          cl.id in g[SpanCell(cl, j).row][SpanCell(cl, j).col].clueIds)
    && (forall r, c, id :: InBounds(g, r, c) && id in g[r][c].clueIds ==>
          exists cl :: cl in cs && cl.id == id && Covers(cl, r, c))
  }

  /** Nothing has been typed or selected yet, and every cell knows its own
      coordinates. */
  ghost predicate Unfilled(g: Grid) {
    && Rectangular(g)
    && forall r, c :: InBounds(g, r, c) ==>
         && g[r][c].row == r && g[r][c].col == c
         && g[r][c].value == "" && !g[r][c].isActive && !g[r][c].isHighlighted
  }

  /** A cell carries a number exactly when a clue starts on it, and then
      the count of start cells before it in reading order, plus one. */
  ghost predicate NumberedGrid(g: Grid, cs: seq<ClueData>) {
    && Rectangular(g)
    && forall r, c :: InBounds(g, r, c) ==>
         g[r][c].clueNumber == if IsStart(g, cs, r, c) then Some(StartsBefore(g, cs, r, c) + 1) else None
  }

  /** No two clues share an id. */
  ghost predicate DistinctIds(cs: seq<ClueData>) {
    forall i, j :: 0 <= i < j < |cs| ==> cs[i].id != cs[j].id
  }

  // ---------------------------------------------------------------------
  // Carrying the properties from stage to stage

  /** Two grids of the same shape whose cells agree on everything but
      their clue ids and number. */
  ghost predicate CellsAgree(g: Grid, h: Grid) {
    && SameShape(g, h)
    && forall r, c :: 0 <= r < |g| && 0 <= c < |g[r]| ==>
         && h[r][c].row == g[r][c].row && h[r][c].col == g[r][c].col
         && h[r][c].value == g[r][c].value && h[r][c].solution == g[r][c].solution
         && h[r][c].isActive == g[r][c].isActive && h[r][c].isHighlighted == g[r][c].isHighlighted
         && h[r][c].isBlank == g[r][c].isBlank
  }

  ghost predicate SameMembers(cs: seq<ClueData>, ds: seq<ClueData>) {
    forall cl :: cl in cs <==> cl in ds
  }

  lemma AgreeKeeps(g: Grid, h: Grid, cs: seq<ClueData>, ds: seq<ClueData>)
    requires Rectangular(g) && CellsAgree(g, h) && SameMembers(cs, ds)
    ensures Rectangular(h)
    ensures Spelled(g, cs) ==> Spelled(h, ds)
    ensures Owned(g, cs) ==> Owned(h, ds)
    ensures Unfilled(g) ==> Unfilled(h)
  {
    assert Width(h) == Width(g);
    if Spelled(g, cs) {
      forall cl, j | cl in ds && 0 <= j < cl.length
        ensures InBounds(h, SpanCell(cl, j).row, SpanCell(cl, j).col)
        ensures !h[SpanCell(cl, j).row][SpanCell(cl, j).col].isBlank
        ensures h[SpanCell(cl, j).row][SpanCell(cl, j).col].solution == [cl.answer[j]]
      {
        assert cl in cs;
      }
    }
    if Owned(g, cs) {
      forall r, c | InBounds(h, r, c) && !h[r][c].isBlank ensures exists cl :: cl in ds && Covers(cl, r, c) {
        var cl :| cl in cs && Covers(cl, r, c);
        assert cl in ds;
      }
    }
  }

  /** The grid BuildFinalGrid returns for the padded box is its cut. */
  lemma CropCut(b: Board, bx: Box, p: Box, fg: Grid)
    requires |b| == GridSize && Square(b)
    requires 0 <= bx.top <= bx.bottom < GridSize && 0 <= bx.left <= bx.right < GridSize
    requires p == Pad(bx, GridSize, GridSize)
    requires |fg| == Span(p.top, p.bottom) && forall r :: 0 <= r < |fg| ==> |fg[r]| == Span(p.left, p.right)
    requires forall r, c :: 0 <= r < |fg| && 0 <= c < Span(p.left, p.right) ==> FreshCell(fg[r][c], b[r + p.top][c + p.left], r, c)
    ensures CutOf(fg, b, p)
  {
  }

  /** A cut of a board stays one under a change of clue ids and numbers. */
  lemma AgreeCut(g: Grid, h: Grid, b: Board, p: Box)
    requires CellsAgree(g, h) && CutOf(g, b, p)
    ensures CutOf(h, b, p)
  {
  }

  /** The properties speak of clues by membership only. */
  lemma MembersKeep(g: Grid, cs: seq<ClueData>, ds: seq<ClueData>)
    requires SameMembers(cs, ds)
    ensures Spelled(g, cs) ==> Spelled(g, ds)
    ensures Owned(g, cs) ==> Owned(g, ds)
    ensures Listed(g, cs) ==> Listed(g, ds)
    ensures NumberedGrid(g, cs) ==> NumberedGrid(g, ds)
  {
    if Rectangular(g) {
      assert CellsAgree(g, g);
      AgreeKeeps(g, g, cs, ds);
      if Listed(g, cs) {
        forall r, c, id | InBounds(g, r, c) && id in g[r][c].clueIds
          ensures exists cl :: cl in ds && cl.id == id && Covers(cl, r, c)
        {
          var cl :| cl in cs && cl.id == id && Covers(cl, r, c);
          assert cl in ds;
        }
      }
      if NumberedGrid(g, cs) {
        forall r, c | InBounds(g, r, c)
          ensures g[r][c].clueNumber == if IsStart(g, ds, r, c) then Some(StartsBefore(g, ds, r, c) + 1) else None
        {
          StartsAgree(g, g, cs, ds, r, c);
        }
      }
    }
  }

  /** Start cells, and their counts, depend only on which cells are blank
      and on which clues there are. */
  lemma {:induction false} RowStartsAgree(g: Grid, h: Grid, cs: seq<ClueData>, ds: seq<ClueData>, r: int, c: int)
    requires Rectangular(g) && Rectangular(h) && CellsAgree(g, h) && SameMembers(cs, ds)
    requires 0 <= r < |g| && c <= Width(g)
    ensures RowStarts(g, cs, r, c) == RowStarts(h, ds, r, c)
    decreases c
  {
    if c > 0 {
      RowStartsAgree(g, h, cs, ds, r, c - 1);
      assert StartsAt(cs, Across, r, c - 1) == StartsAt(ds, Across, r, c - 1);
      assert StartsAt(cs, Down, r, c - 1) == StartsAt(ds, Down, r, c - 1);
    }
  }

  lemma {:induction false} StartsAboveAgree(g: Grid, h: Grid, cs: seq<ClueData>, ds: seq<ClueData>, r: int)
    requires Rectangular(g) && Rectangular(h) && CellsAgree(g, h) && SameMembers(cs, ds)
    requires r <= |g|
    ensures StartsAbove(g, cs, r) == StartsAbove(h, ds, r)
    decreases r
  {
    if r > 0 {
      StartsAboveAgree(g, h, cs, ds, r - 1);
      RowStartsAgree(g, h, cs, ds, r - 1, Width(g));
    }
  }

  lemma StartsAgree(g: Grid, h: Grid, cs: seq<ClueData>, ds: seq<ClueData>, r: int, c: int)
    requires Rectangular(g) && Rectangular(h) && CellsAgree(g, h) && SameMembers(cs, ds)
    requires InBounds(g, r, c)
    ensures IsStart(g, cs, r, c) == IsStart(h, ds, r, c)
    ensures StartsBefore(g, cs, r, c) == StartsBefore(h, ds, r, c)
  {
    assert StartsAt(cs, Across, r, c) == StartsAt(ds, Across, r, c);
    assert StartsAt(cs, Down, r, c) == StartsAt(ds, Down, r, c);
    StartsAboveAgree(g, h, cs, ds, r);
    RowStartsAgree(g, h, cs, ds, r, c);
  }

  // ---------------------------------------------------------------------
  // Stage lemmas

  /** Cutting the grid down keeps every placed word on the grid, spelled
      where it was placed, and every letter on some word. */
  lemma CropSpelled(b: Board, placed: seq<ClueData>, bx: Box, p: Box, fg: Grid, adjusted: seq<ClueData>)
    requires |b| == GridSize && Square(b) && Encloses(b, bx)
    requires 0 <= bx.top <= bx.bottom < GridSize && 0 <= bx.left <= bx.right < GridSize
    requires p == Pad(bx, GridSize, GridSize)
    requires |fg| == Span(p.top, p.bottom) && forall r :: 0 <= r < |fg| ==> |fg[r]| == Span(p.left, p.right)
    requires forall r, c :: 0 <= r < |fg| && 0 <= c < Span(p.left, p.right) ==> FreshCell(fg[r][c], b[r + p.top][c + p.left], r, c)
    requires forall k :: 0 <= k < |placed| ==> Spells(b, placed[k]) && 1 <= |placed[k].answer|
    requires adjusted == Shift(placed, p.top, p.left)
    ensures Spelled(fg, adjusted)
  {
    assert Width(fg) == Span(p.left, p.right);
    forall cl, j | cl in adjusted && 0 <= j < cl.length
      ensures InBounds(fg, SpanCell(cl, j).row, SpanCell(cl, j).col)
      ensures !fg[SpanCell(cl, j).row][SpanCell(cl, j).col].isBlank
      ensures fg[SpanCell(cl, j).row][SpanCell(cl, j).col].solution == [cl.answer[j]]
    {
      var k :| 0 <= k < |adjusted| && adjusted[k] == cl;
      var q := SpanCell(placed[k], j);
      assert Occupied(b, q.row, q.col);
    }
  }

  lemma CropOwned(b: Board, placed: seq<ClueData>, bx: Box, p: Box, fg: Grid, adjusted: seq<ClueData>)
    requires |b| == GridSize && Square(b)
    requires 0 <= bx.top <= bx.bottom < GridSize && 0 <= bx.left <= bx.right < GridSize
    requires p == Pad(bx, GridSize, GridSize)
    requires |fg| == Span(p.top, p.bottom) && forall r :: 0 <= r < |fg| ==> |fg[r]| == Span(p.left, p.right)
    requires forall r, c :: 0 <= r < |fg| && 0 <= c < Span(p.left, p.right) ==> FreshCell(fg[r][c], b[r + p.top][c + p.left], r, c)
    requires LettersCovered(b, placed)
    requires adjusted == Shift(placed, p.top, p.left)
    ensures Owned(fg, adjusted) && Unfilled(fg)
    ensures forall r, c :: InBounds(fg, r, c) ==> fg[r][c].clueIds == [] && fg[r][c].clueNumber.None?
  {
    assert |fg| > 0 && Width(fg) == Span(p.left, p.right);
    forall r, c | InBounds(fg, r, c) && !fg[r][c].isBlank ensures exists cl :: cl in adjusted && Covers(cl, r, c) {
      assert b[r + p.top][c + p.left].Some?;
      var k :| 0 <= k < |placed| && Covers(placed[k], r + p.top, c + p.left);
      assert Covers(adjusted[k], r, c);
    }
  }

  /** After the clue-id pass each cell lists exactly the clues covering it. */
  lemma IdsStage(fg0: Grid, fg1: Grid, cs: seq<ClueData>)
    requires Spelled(fg0, cs) && Owned(fg0, cs) && Unfilled(fg0)
    requires forall r, c :: InBounds(fg0, r, c) ==> fg0[r][c].clueIds == [] && fg0[r][c].clueNumber.None?
    requires SameShape(fg1, fg0)
    requires forall r, c :: 0 <= r < |fg0| && 0 <= c < |fg0[r]| ==>
               fg1[r][c] == fg0[r][c].(clueIds := fg0[r][c].clueIds + IdsCovering(cs, r, c))
    ensures Spelled(fg1, cs) && Owned(fg1, cs) && Unfilled(fg1) && Listed(fg1, cs)
    ensures CellsAgree(fg0, fg1)
    ensures forall r, c :: InBounds(fg1, r, c) ==> fg1[r][c].clueNumber.None?
  {
    assert CellsAgree(fg0, fg1);
    AgreeKeeps(fg0, fg1, cs, cs);
    forall cl, j | cl in cs && 0 <= j < cl.length && InBounds(fg1, SpanCell(cl, j).row, SpanCell(cl, j).col)
      ensures cl.id in fg1[SpanCell(cl, j).row][SpanCell(cl, j).col].clueIds
    {
      var q := SpanCell(cl, j);
      var k :| 0 <= k < |cs| && cs[k] == cl;
      IdsCoveringMeans(cs, q.row, q.col, cl.id);
    }
    forall r, c, id | InBounds(fg1, r, c) && id in fg1[r][c].clueIds
      ensures exists cl :: cl in cs && cl.id == id && Covers(cl, r, c)
    {
      IdsCoveringMeans(cs, r, c, id);
      var k :| 0 <= k < |cs| && cs[k].id == id && Covers(cs[k], r, c);
    }
  }

  /** After the numbering pass the start cells carry their numbers. */
  lemma NumberStage(fg1: Grid, fg2: Grid, cs: seq<ClueData>)
    requires Spelled(fg1, cs) && Owned(fg1, cs) && Unfilled(fg1) && Listed(fg1, cs)
    requires forall r, c :: InBounds(fg1, r, c) ==> fg1[r][c].clueNumber.None?
    requires SameShape(fg2, fg1)
    requires forall r, c :: InBounds(fg1, r, c) ==> fg2[r][c] == Numbered(fg1, cs, r, c)
    ensures Spelled(fg2, cs) && Owned(fg2, cs) && Unfilled(fg2) && Listed(fg2, cs) && NumberedGrid(fg2, cs)
    ensures CellsAgree(fg1, fg2)
  {
    assert Width(fg2) == Width(fg1);
    assert CellsAgree(fg1, fg2);
    AgreeKeeps(fg1, fg2, cs, cs);
    assert forall r, c :: InBounds(fg1, r, c) ==> fg2[r][c].clueIds == fg1[r][c].clueIds;
    forall r, c | InBounds(fg2, r, c)
      ensures fg2[r][c].clueNumber == if IsStart(fg2, cs, r, c) then Some(StartsBefore(fg2, cs, r, c) + 1) else None
    {
      StartsAgree(fg1, fg2, cs, cs, r, c);
    }
  }

  lemma {:induction false} AtMostOnce(cs: seq<ClueData>, x: ClueData)
    requires DistinctIds(cs)
    ensures multiset(cs)[x] <= 1
  {
    if cs != [] {
      assert cs == [cs[0]] + cs[1..];
      AtMostOnce(cs[1..], x);
      if x == cs[0] {
        assert x !in cs[1..] by {
          forall k | 0 <= k < |cs| - 1 ensures cs[1..][k] != x {
            assert cs[1..][k] == cs[k + 1];
          }
        }
      }
    }
  }

  /** A permutation of clues with distinct ids has distinct ids. */
  lemma PermutedDistinct(cs: seq<ClueData>, ds: seq<ClueData>)
    requires multiset(cs) == multiset(ds) && DistinctIds(cs)
    ensures DistinctIds(ds)
  {
    forall i, j | 0 <= i < j < |ds| ensures ds[i].id != ds[j].id {
      if ds[i].id == ds[j].id {
        assert ds[i] in multiset(cs) && ds[j] in multiset(cs);
        var a :| 0 <= a < |cs| && cs[a] == ds[i];
        var b :| 0 <= b < |cs| && cs[b] == ds[j];
        assert a == b;
        assert ds == ds[..j] + ds[j..];
        assert ds[i] in ds[..j] && ds[j] == ds[j..][0];
        assert multiset(ds)[ds[i]] >= 2;
        AtMostOnce(cs, ds[i]);
        assert false;
      }
    }
  }

  /** Splitting and sorting the clue list changes nothing but the order. */
  lemma ListStage(fg: Grid, cs: seq<ClueData>, across: seq<ClueData>, down: seq<ClueData>)
    requires multiset(across) == multiset(FilterDir(cs, Across)) && multiset(down) == multiset(FilterDir(cs, Down))
    requires DistinctIds(cs)
    ensures multiset(across + down) == multiset(cs)
    ensures SameMembers(cs, across + down)
    ensures DistinctIds(across + down)
    ensures ListsByDirection(Clues(across, down))
  {
    FilterPartition(cs);
    FilterMembers(cs, Across);
    FilterMembers(cs, Down);
    assert multiset(across + down) == multiset(cs);
    forall cl ensures cl in cs <==> cl in across + down {
      assert cl in cs <==> cl in multiset(cs);
      assert cl in across + down <==> cl in multiset(across + down);
    }
    PermutedDistinct(cs, across + down);
    forall cl | cl in across ensures cl.direction == Across {
      assert cl in multiset(across);
    }
    forall cl | cl in down ensures cl.direction == Down {
      assert cl in multiset(down);
    }
  }

  // ---------------------------------------------------------------------
  // The generator

  /** A fresh puzzle: untouched, untimed, unfinished, with the start time
      given. */
  predicate FreshStart(s: State, now: int) {
    && s.activeClueId.None? && s.activeCell.None?
    && !s.isComplete && s.startTime == now && s.completionTime.None?
    && s.hintsUsed == 0 && !s.viewOnly
  }

  /** Steps 2 to 4 of generateCrossword: the empty 25 x 25 grid, the first
      answer across its middle row, then every later answer at its best
      placement when there is one. The k-th placed word gets id k; boards
      and lists record the run of the loop, round by round. */
  method LayOutAnswers(selected: seq<string>)
    returns (grid: Scratch, ghost b: Board, placed: seq<ClueData>, ghost boards: seq<Board>, ghost lists: seq<seq<ClueData>>)
    requires |selected| >= 1 && forall w :: w in selected ==> 1 <= |w| <= 14
    ensures grid.Length0 == GridSize && grid.Length1 == GridSize && b == Snap(grid)
    ensures 1 <= |placed| <= |selected| && placed[0] == FirstClue(selected[0])
    ensures forall k :: 0 <= k < |placed| ==> Spells(b, placed[k]) && 1 <= |placed[k].answer|
    ensures forall k :: 0 <= k < |placed| ==> placed[k].answer in selected && placed[k].id == k
    ensures LettersCovered(b, placed)
    ensures Laid(selected, boards, lists) && b == Final(boards) && placed == Final(lists)
  {
    assert selected[0] in selected;
    grid := new Option<char>[GridSize, GridSize]((r, c) => None);
    ghost var b0 := Snap(grid);
    forall r | 0 <= r < GridSize ensures b0[r] == Blank(GridSize)[r] {
      assert forall c :: 0 <= c < GridSize ==> b0[r][c] == None;
    }
    ghost var origin;
    b, placed, origin, boards, lists := PlaceClues(grid, b0, selected);
    forall k | 0 <= k < |placed| ensures 1 <= |placed[k].answer| && placed[k].answer in selected {
      assert placed[k].answer == selected[origin[k]];
    }
  }

  /** Step 5 of generateCrossword up to the clue ids: the bounds of the
      letters, the padding, the final grid and the clues shifted by the
      corner of the crop: the tight box bx around the letters, padded by
      one cell clamped to the grid. */
  method CropGrid(grid: Scratch, ghost b: Board, placed: seq<ClueData>)
    returns (finalGrid: Grid, adjusted: seq<ClueData>, ghost bx: Box, ghost t: (int, int, int, int))
    requires grid.Length0 == GridSize && grid.Length1 == GridSize && b == Snap(grid)
    requires |placed| >= 1 && forall k :: 0 <= k < |placed| ==> Spells(b, placed[k]) && 1 <= |placed[k].answer|
    requires LettersCovered(b, placed)
    ensures Spelled(finalGrid, adjusted) && Owned(finalGrid, adjusted) && Unfilled(finalGrid)
    ensures forall r, c :: InBounds(finalGrid, r, c) ==> finalGrid[r][c].clueIds == [] && finalGrid[r][c].clueNumber.None?
    ensures |adjusted| == |placed|
    ensures forall k :: 0 <= k < |placed| ==>
              adjusted[k].id == placed[k].id && adjusted[k].answer == placed[k].answer && adjusted[k].direction == placed[k].direction
    ensures Encloses(b, bx) && Touches(b, bx, t)
    ensures CutOf(finalGrid, b, Pad(bx, GridSize, GridSize))
    ensures adjusted == Shift(placed, Pad(bx, GridSize, GridSize).top, Pad(bx, GridSize, GridSize).left)
  {
    var q := SpanCell(placed[0], 0);
    assert Occupied(b, q.row, q.col);
    var bounds := FindBounds(grid, b);
    BoxInside(b, bounds);
    var box := Pad(bounds, grid.Length0, grid.Length1);
    finalGrid := BuildFinalGrid(grid, b, box);
    adjusted := Shift(placed, box.top, box.left);
    bx := bounds;
    ghost var t0 :| Occupied(b, bx.top, t0);
    ghost var t1 :| Occupied(b, bx.bottom, t1);
    ghost var t2 :| Occupied(b, t2, bx.left);
    ghost var t3 :| Occupied(b, t3, bx.right);
    t := (t0, t1, t2, t3);
    CropCut(b, bounds, box, finalGrid);
    CropSpelled(b, placed, bounds, box, finalGrid, adjusted);
    CropOwned(b, placed, bounds, box, finalGrid, adjusted);
  }

  /** Step 5, the clue ids and the clue numbers. */
  method NumberCells(finalGrid: Grid, adjusted: seq<ClueData>) returns (numbered: Grid)
    requires Spelled(finalGrid, adjusted) && Owned(finalGrid, adjusted) && Unfilled(finalGrid)
    requires forall r, c :: InBounds(finalGrid, r, c) ==> finalGrid[r][c].clueIds == [] && finalGrid[r][c].clueNumber.None?
    ensures Spelled(numbered, adjusted) && Owned(numbered, adjusted) && Unfilled(numbered)
    ensures Listed(numbered, adjusted) && NumberedGrid(numbered, adjusted)
    ensures CellsAgree(finalGrid, numbered)
  {
    var withIds := AddClueIds(finalGrid, adjusted);
    IdsStage(finalGrid, withIds, adjusted);
    numbered := AssignNumbers(withIds, adjusted);
    NumberStage(withIds, numbered, adjusted);
  }

  /** Step 5, the across and down lists, each sorted by clue number. */
  method ClueLists(numbered: Grid, adjusted: seq<ClueData>) returns (across: seq<ClueData>, down: seq<ClueData>)
    requires Spelled(numbered, adjusted) && DistinctIds(adjusted)
    ensures multiset(across + down) == multiset(adjusted) && SameMembers(adjusted, across + down)
    ensures DistinctIds(across + down) && ListsByDirection(Clues(across, down))
    ensures StartsOnGrid(numbered, across) && SortedByNumber(numbered, across)
    ensures StartsOnGrid(numbered, down) && SortedByNumber(numbered, down)
  {
    assert StartsOnGrid(numbered, adjusted) by {
      forall cl | cl in adjusted ensures InBounds(numbered, cl.startRow, cl.startCol) {
        assert SpanCell(cl, 0) == Pos(cl.startRow, cl.startCol);
      }
    }
    FilterMembers(adjusted, Across);
    FilterMembers(adjusted, Down);
    across := SortByNumber(numbered, FilterDir(adjusted, Across));
    down := SortByNumber(numbered, FilterDir(adjusted, Down));
    ListStage(numbered, adjusted, across, down);
  }

  /** The last entry of a run. */
  function Final<T>(xs: seq<T>): T
    requires |xs| >= 1
  {
    xs[|xs| - 1]
  }

  /** boards and lists are the whole run of the placement loop over
      selected, from the empty 25 x 25 scratch grid. */
  ghost predicate Laid(selected: seq<string>, boards: seq<Board>, lists: seq<seq<ClueData>>) {
    RunsTo(Blank(GridSize), selected, boards, lists) && |boards| == |selected|
  }

  /** cs holds the clues of placed, each shifted by (top, left), in some
      order. */
  predicate ShiftedFrom(cs: seq<ClueData>, placed: seq<ClueData>, top: int, left: int) {
    multiset(cs) == multiset(Shift(placed, top, left))
  }

  /** What generateCrossword promises of the shape of the puzzle it builds
      from the selected answers: a fresh state whose grid spells every
      clue, whose letters all belong to clues, whose cells list exactly the
      clues covering them and carry the clue numbers in reading order, with
      the clues split by direction, each list ordered by number, the ids
      distinct, every answer one of the selected ones and the first
      selected answer among the across clues. */
  ghost predicate Assembled(s: State, selected: seq<string>, now: int)
    requires |selected| >= 1
  {
    && FreshStart(s, now)
    && WellFormed(s) && Transitions.CompletionRecorded(s) && ListsByDirection(s.clues)
    && Spelled(s.grid, AllClues(s.clues)) && Owned(s.grid, AllClues(s.clues)) && Listed(s.grid, AllClues(s.clues))
    && Unfilled(s.grid) && NumberedGrid(s.grid, AllClues(s.clues))
    && StartsOnGrid(s.grid, s.clues.across) && SortedByNumber(s.grid, s.clues.across)
    && StartsOnGrid(s.grid, s.clues.down) && SortedByNumber(s.grid, s.clues.down)
    && DistinctIds(AllClues(s.clues)) && 1 <= |AllClues(s.clues)| <= |selected|
    && (forall cl :: cl in AllClues(s.clues) ==> cl.answer in selected)
    && (exists cl :: cl in s.clues.across && cl.answer == selected[0])
  }

  /** s is cropped from board b with placed clues placed: bx is the tight
      box around the letters, and with one cell of padding clamped to the
      grid it gives the extent and the cells of s.grid (clue ids and numbers
      aside) and the corner the clues are shifted by. */
  ghost predicate CroppedFrom(s: State, b: Board, placed: seq<ClueData>, bx: Box) {
    var p := Pad(bx, GridSize, GridSize);
    && Encloses(b, bx) && Tight(b, bx)
    && CutOf(s.grid, b, p)
    && ShiftedFrom(AllClues(s.clues), placed, p.top, p.left)
  }

  /** The puzzle s is the crop of the placement loop's run over selected:
      every later answer at its best try, every dropped answer without a
      viable one, and the grid the padded bounding box of the final board. */
  ghost predicate Traced(s: State, selected: seq<string>) {
    exists boards, lists, bx ::
      Laid(selected, boards, lists) && CroppedFrom(s, Final(boards), Final(lists), bx)
  }

  /** What generateCrossword promises of its result. */
  ghost predicate Generated(s: State, selected: seq<string>, now: int)
    requires |selected| >= 1
  {
    Assembled(s, selected, now) && Traced(s, selected)
  }

  /** generateCrossword after the answers are chosen. */
  method GenerateFrom(selected: seq<string>, now: int) returns (s: State)
    requires 1 <= |selected| && forall w :: w in selected ==> 1 <= |w| <= 14
    ensures Generated(s, selected, now)
  {
    // 2.-4. the scratch grid and the layout
    var grid: Scratch;
    ghost var b: Board;
    var placed: seq<ClueData>;
    ghost var boards, lists;
    grid, b, placed, boards, lists := LayOutAnswers(selected);

    // 5. the final grid, its numbers and the clue lists
    var finalGrid, adjusted;
    ghost var bx, t;
    finalGrid, adjusted, bx, t := CropGrid(grid, b, placed);
    CarryClues(selected, placed, adjusted);
    s := BuildState(finalGrid, adjusted, selected, now);
    CropTrace(s, selected, boards, lists, b, placed, adjusted, bx, t, finalGrid);
  }

  /** Step 5 after the crop: the clue ids, the numbers, the two clue lists
      and the fresh state around them. The state's grid agrees with the
      cropped one except on ids and numbers, and its clues are the cropped
      ones up to order. */
  method BuildState(finalGrid: Grid, adjusted: seq<ClueData>, selected: seq<string>, now: int) returns (s: State)
    requires 1 <= |adjusted| <= |selected|
    requires forall k :: 0 <= k < |adjusted| ==> adjusted[k].id == k && adjusted[k].answer in selected
    requires adjusted[0].answer == selected[0] && adjusted[0].direction == Across
    requires Spelled(finalGrid, adjusted) && Owned(finalGrid, adjusted) && Unfilled(finalGrid)
    requires forall r, c :: InBounds(finalGrid, r, c) ==> finalGrid[r][c].clueIds == [] && finalGrid[r][c].clueNumber.None?
    ensures Assembled(s, selected, now)
    ensures CellsAgree(finalGrid, s.grid) && multiset(AllClues(s.clues)) == multiset(adjusted)
  {
    var numbered := NumberCells(finalGrid, adjusted);
    assert DistinctIds(adjusted);
    var across, down := ClueLists(numbered, adjusted);
    s := State(numbered, Clues(across, down), None, None, false, now, None, 0, false);
    Assemble(selected, now, numbered, adjusted, across, down);
    assert AllClues(s.clues) == across + down;
  }

  /** The crop keeps what the layout promised of each clue. */
  lemma CarryClues(selected: seq<string>, placed: seq<ClueData>, adjusted: seq<ClueData>)
    requires 1 <= |placed| <= |selected| && placed[0] == FirstClue(selected[0])
    requires forall k :: 0 <= k < |placed| ==> placed[k].answer in selected && placed[k].id == k
    requires |adjusted| == |placed|
    requires forall k :: 0 <= k < |placed| ==>
               adjusted[k].id == placed[k].id && adjusted[k].answer == placed[k].answer && adjusted[k].direction == placed[k].direction
    ensures 1 <= |adjusted| <= |selected|
    ensures forall k :: 0 <= k < |adjusted| ==> adjusted[k].id == k && adjusted[k].answer in selected
    ensures adjusted[0].answer == selected[0] && adjusted[0].direction == Across
  {
  }

  /** The run, the box and the cut grid witness Traced. */
  lemma CropTrace(s: State, selected: seq<string>, boards: seq<Board>, lists: seq<seq<ClueData>>,
                  b: Board, placed: seq<ClueData>, adjusted: seq<ClueData>, bx: Box, t: (int, int, int, int), fg: Grid)
    requires Laid(selected, boards, lists) && |selected| >= 1 && b == Final(boards) && placed == Final(lists)
    requires Encloses(b, bx) && Touches(b, bx, t)
    requires CutOf(fg, b, Pad(bx, GridSize, GridSize)) && CellsAgree(fg, s.grid)
    requires adjusted == Shift(placed, Pad(bx, GridSize, GridSize).top, Pad(bx, GridSize, GridSize).left)
    requires multiset(AllClues(s.clues)) == multiset(adjusted)
    ensures Traced(s, selected)
  {
    AgreeCut(fg, s.grid, b, Pad(bx, GridSize, GridSize));
    assert CroppedFrom(s, b, placed, bx);
  }

  /** The stages of step 5 put together give the promised shape, for
      clues taken in order from the selected answers, the first one across. */
  lemma Assemble(selected: seq<string>, now: int, numbered: Grid, adjusted: seq<ClueData>, across: seq<ClueData>, down: seq<ClueData>)
    requires 1 <= |adjusted| <= |selected|
    requires forall k :: 0 <= k < |adjusted| ==> adjusted[k].answer in selected
    requires adjusted[0].answer == selected[0] && adjusted[0].direction == Across
    requires Spelled(numbered, adjusted) && Owned(numbered, adjusted) && Unfilled(numbered)
    requires Listed(numbered, adjusted) && NumberedGrid(numbered, adjusted)
    requires multiset(across + down) == multiset(adjusted) && SameMembers(adjusted, across + down)
    requires DistinctIds(across + down) && ListsByDirection(Clues(across, down))
    requires StartsOnGrid(numbered, across) && SortedByNumber(numbered, across)
    requires StartsOnGrid(numbered, down) && SortedByNumber(numbered, down)
    ensures Assembled(State(numbered, Clues(across, down), None, None, false, now, None, 0, false), selected, now)
  {
    var s := State(numbered, Clues(across, down), None, None, false, now, None, 0, false);
    assert AllClues(s.clues) == across + down;
    MembersKeep(numbered, adjusted, across + down);
    assert forall cl :: cl in adjusted ==> cl.answer in selected by {
      forall cl | cl in adjusted ensures cl.answer in selected {
        var k :| 0 <= k < |adjusted| && adjusted[k] == cl;
      }
    }
    assert adjusted[0] in across + down;
    assert |across + down| == |adjusted| by {
      assert |multiset(across + down)| == |multiset(adjusted)|;
    }
  }

  /** generateCrossword. The shuffle is the permutation perm of the clue
      pool and Date.now() is now. Ten answers are drawn, so the puzzle has
      between one and ten clues. */
  method GenerateCrossword(perm: seq<nat>, now: int) returns (s: State)
    requires IsPermutation(perm, |CluePool|)
    ensures Generated(s, GetRandomClues(CluePool, SelectedCount, perm), now)
    ensures 1 <= |AllClues(s.clues)| <= SelectedCount
  {
    // 1. the answers
    var selected := GetRandomClues(CluePool, SelectedCount, perm);
    SelectedAnswers(perm);
    s := GenerateFrom(selected, now);
  }
}
