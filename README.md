# Crossword puzzle core in Dafny

This project models the two parts of the crossword web app that hold its
logic, and proves properties of the model.

- **The generator** (`lib/crossword-generator.ts`).
  - It draws ten answers from a fixed pool of thirty fixed-income terms.
  - It lays them out on a 25 x 25 scratch grid. The first answer goes across
    the middle row. Each later answer goes at the best anchored position
    `findBestPlacement` finds, if there is one.
  - It crops the grid to the letters plus one cell of padding.
  - It fills in each cell's clue ids and numbers the clue starts in reading
    order.
  - It returns a fresh puzzle state whose across and down lists are sorted
    by clue number.
- **The puzzle state machine** (`context/crossword-context.tsx`).
  - `crosswordReducer` maps a state and an action to the next state. It
    covers:
    - the view-only guard;
    - selecting a cell or a clue;
    - entering a letter, with completion detection and timing;
    - arrow and next/prev movement;
    - hints;
    - toggling direction at a crossing;
    - validate and view-only flag clearing.
  - The read-only queries are `validateCell`, `isClueComplete` and
    `isClueCorrect`.

Each source entity becomes a Dafny datatype (`CrosswordTypes`). The
generator's scratch grid is an `array2<Option<char>>` that the methods
write to in place. A ghost `Board` snapshot of it (`Placement.Snap`) is what
the specifications talk about. Each loop of the generator is a `method`
proved against a specification function or predicate:
- the placement search;
- the bounding box;
- building the final grid;
- clue ids;
- numbering.

The placement loop is specified round by round. `Layout.Round` says what one
pass does to the board and the clue list: nothing when no try of the answer
is viable, and otherwise a write at the best try. `Generator.Generated` ties
the returned puzzle to the run of rounds over the selected answers: its
clues are the last round's clues shifted by the crop's corner, and its grid,
cell by cell, is the last round's board cut to the tight box around the
letters padded by one cell on each side that is not at the grid's edge.

The reducer is specified one action at a time by a pure function in the
`Transitions` module. `Reducer` then implements each action with the
source's own loops and proves it equal to that function:
- the highlight loop;
- the wrong-cell collection of `USE_HINT`;
- the step-by-step move.

Inputs from outside become parameters:
- the clock (`Date.now`);
- the random hint index;
- the random shuffle of the clue pool;
- the puzzle that `NEW_PUZZLE` generates.

Clue ids are distinct naturals where the source calls `uuidv4`: the k-th
placed answer gets id k.

Modules and files:

| file | module | contents |
|---|---|---|
| types.dfy | CrosswordTypes | clue, cell, state and action datatypes; grid geometry; clue lookup by id |
| queries.dfy | Queries | validateCell, isClueComplete, isClueCorrect |
| transitions.dfy | Transitions | one function per reducer case, the reducer as `Step`, runs of actions and their invariants |
| reducer.dfy | Reducer | the reducer's loops as methods, each proved equal to its `Transitions` function |
| selection.dfy | Selection | the clue pool and getRandomClues |
| placement.dfy | Placement | isValidPlacement, calculatePlacementScore, findBestPlacement |
| layout.dfy | Layout | the first word and the placement loop |
| cropping.dfy | Cropping | bounding box, padding, final grid, shifted clues |
| numbering.dfy | Numbering | clue ids, clue numbers, the across/down split and sort |
| generator.dfy | Generator | generateCrossword and the property bundle `Generated` its result satisfies |

`SET_CELL_VALUE` stamps `completionTime` whenever `isComplete` goes from
false to true (`context/crossword-context.tsx:303-304`). A wrong edit that
undoes a completion, followed by an edit that completes the puzzle again,
stamps it a second time. `Transitions.EnterValue` and
`Transitions.StepCounters` state this behaviour.

## Model

| member | source | states |
|---|---|---|
| CrosswordTypes.FindClue | context/crossword-context.tsx:95 | the lookup `[...across, ...down].find(c => c.id === id)`: none exactly when no clue has that id, otherwise the first clue with that id |
| CrosswordTypes.CoversAtSpanIndex | context/crossword-context.tsx:106-108 | a cell covered by the first n span cells of a clue is span cell number SpanIndex, which lies below n |
| Queries.FilledFrom | context/crossword-context.tsx:479-488 | the isClueComplete loop from index i is true iff every remaining span cell is on the grid and non-empty |
| Queries.SolvedFrom | context/crossword-context.tsx:499-508 | the isClueCorrect loop from index i is true iff every remaining span cell is on the grid and validates |
| Queries.IsClueComplete | context/crossword-context.tsx:474-492 | false for an unknown id; otherwise true iff every span cell is on the grid and has a non-empty value |
| Queries.IsClueCorrect | context/crossword-context.tsx:494-512 | false for an unknown id; otherwise true iff every span cell is on the grid and its value equals its solution |
| Queries.SolvedIsAllValid | context/crossword-context.tsx:467-472 | the completion test of SET_CELL_VALUE (line 296) holds iff validateCell holds on every letter cell |
| Queries.EnterValidates | context/crossword-context.tsx:467-472 | after SET_CELL_VALUE on a letter cell, validateCell holds there iff the upper-cased input is the solution, and every other cell validates as before |
| Queries.HintValidates | context/crossword-context.tsx:467-472 | a revealed hint turns a cell that failed validateCell into one that passes it, and no other cell changes its verdict |
| Transitions.SameShapeRectangular | context/crossword-context.tsx:189-195 | a grid of the same shape as a rectangular grid is rectangular, with the same width |
| Transitions.MarkActiveFacts | context/crossword-context.tsx:198 | marking the active cell changes that one cell's isActive flag and nothing else |
| Transitions.HighlightFacts | context/crossword-context.tsx:204-218 | highlighting a clue sets isHighlighted on exactly the on-grid cells of its span and changes nothing else |
| Transitions.MarkThenHighlight | context/crossword-context.tsx:189-219 | clearing the flags, marking the cell and then highlighting the clue leaves values untouched, exactly one active cell and exactly the clue's span highlighted |
| Transitions.HighlightThenMark | context/crossword-context.tsx:239-263 | the same for the SET_ACTIVE_CLUE order (highlight first, then mark the start cell) |
| Transitions.ClearFlagsFacts | context/crossword-context.tsx:367-373 | clearing all flags keeps every cell's content and leaves no cell active or highlighted |
| Transitions.WithValueFacts | context/crossword-context.tsx:286-293 | writing a value changes exactly that one cell's value |
| Transitions.ResolveClueId | context/crossword-context.tsx:181-186 | on a cell with clue ids the active clue becomes one of them, and the current one is kept when it is among them; on a cell without ids it is kept |
| Transitions.SelectCell | context/crossword-context.tsx:171-230 | no-op off the grid or on a blank; otherwise activeCell is the target, values are untouched, the target is the only active cell, exactly the active clue's span is highlighted, and the active clue is chosen as ResolveClueId says |
| Transitions.SelectClue | context/crossword-context.tsx:232-274 | no-op for an unknown id; otherwise the clue becomes active, its start cell is the active cell and the only active one, exactly its span is highlighted, and values are untouched |
| Transitions.Upper | context/crossword-context.tsx:289 | uppercasing keeps the length and leaves no lower-case ASCII letter |
| Transitions.EnterValue | context/crossword-context.tsx:276-309 | no-op off the grid or on a blank; otherwise only that cell's value changes, to the uppercased input; isComplete holds iff every cell is blank or solved; completionTime is stamped with the elapsed seconds exactly when isComplete goes from false to true, and is kept otherwise |
| Transitions.MoveTarget | context/crossword-context.tsx:317-351 | arrows move one cell; next/prev without a known clue stays put; with a known clue next/prev keeps the cursor's row (across) or column (down) and moves the other coordinate to the column or row of the next or previous span index, inside the clue's range, wrapping at either end |
| Transitions.MoveCursor | context/crossword-context.tsx:311-364 | no-op without an active cell or when the target is off the grid or blank; otherwise the result is SET_ACTIVE_CELL at the target |
| Transitions.WrongCellsUpTo | context/crossword-context.tsx:105-116 | the collected cells are exactly the on-grid cells of the first n span cells whose value differs from the solution |
| Transitions.Reveal | context/crossword-context.tsx:143-156 | revealing a wrong cell sets exactly that value to its solution and adds one hint, with nothing else changed |
| Transitions.RevealHint | context/crossword-context.tsx:93-163 | no-op for an unknown clue or no active cell; a wrong active cell is revealed; otherwise the wrong span cell at the given index is revealed; with every span cell correct the state is unchanged; flags, isComplete and completionTime are never touched |
| Transitions.FindCovering | context/crossword-context.tsx:400-407 | the found clue is in the list and covers the cell along the direction; none found means no clue of the list covers it |
| Transitions.ToggleTarget | context/crossword-context.tsx:386-409 | none when the cell has at most one clue id or the active clue is unknown; otherwise the first clue of the opposite list covering the cell, none iff no clue of that list covers it, and of the opposite direction when the lists are split by direction |
| Transitions.ToggleDirection | context/crossword-context.tsx:384-446 | no-op when there is no target; otherwise the target becomes the active clue, the cell is the only active cell, exactly the target's span is highlighted, values are untouched and activeCell is left as it was |
| Transitions.EnterViewOnly | context/crossword-context.tsx:448-460 | all flags cleared, values untouched, activeCell and activeClueId cleared, viewOnly set to the payload, nothing else changed |
| Transitions.ClearSelection | context/crossword-context.tsx:366-382 | VALIDATE_PUZZLE clears all flags and changes nothing else |
| Transitions.SameContentBoard | context/crossword-context.tsx:189-195 | grids that agree on everything but the flags have the same board and the same values |
| Transitions.OneCellBoard | context/crossword-context.tsx:286-293 | a grid that differs from another in one cell's value keeps the board (letters, blanks, ids and numbers) |
| Transitions.StepKeepsBoard | context/crossword-context.tsx:78-465 | every action but NEW_PUZZLE keeps the board, the clues and the start time, and every action but SET_CELL_VALUE and USE_HINT keeps every value |
| Transitions.StepCounters | context/crossword-context.tsx:78-465 | hintsUsed stays or grows by one on USE_HINT; only SET_CELL_VALUE changes isComplete; completionTime changes only on a SET_CELL_VALUE that completes the puzzle, and then to the elapsed seconds |
| Transitions.StepKeepsWellFormed | context/crossword-context.tsx:78-465 | each action keeps the grid rectangular, the cursor and every clue start on the grid, and a complete puzzle timed |
| Transitions.WellFormedAdmits | context/crossword-context.tsx:100 | in a well-formed state every unchecked grid access of the reducer is in range, except the toggle cell, which must be on the grid |
| Transitions.ViewOnlyFreezes | context/crossword-context.tsx:79-90 | in view-only mode any run of actions other than NEW_PUZZLE and SET_VIEW_ONLY leaves the state unchanged |
| Transitions.RunKeepsPuzzle | context/crossword-context.tsx:78-465 | a run without NEW_PUZZLE keeps the board, the clues and the start time, and adds at most one hint per USE_HINT |
| Transitions.RunKeepsWellFormed | context/crossword-context.tsx:78-465 | from a well-formed state, a run without NEW_PUZZLE whose toggles are on the grid is always admissible and ends well-formed |
| Reducer.HighlightSpan | context/crossword-context.tsx:205-218 | the highlight loop computes Highlight |
| Reducer.CollectWrongCells | context/crossword-context.tsx:105-116 | the clueCells loop computes the wrong cells of the span, in span order |
| Reducer.ReduceSetActiveCell | context/crossword-context.tsx:171-230 | SET_ACTIVE_CELL computes SelectCell |
| Reducer.ReduceSetActiveClue | context/crossword-context.tsx:232-274 | SET_ACTIVE_CLUE computes SelectClue |
| Reducer.ReduceMoveActiveCell | context/crossword-context.tsx:311-364 | MOVE_ACTIVE_CELL, updating the row and column step by step, computes MoveCursor |
| Reducer.ReduceUseHint | context/crossword-context.tsx:93-163 | USE_HINT computes RevealHint |
| Reducer.ReduceToggleClueDirection | context/crossword-context.tsx:384-446 | TOGGLE_CLUE_DIRECTION computes ToggleDirection |
| Reducer.CrosswordReducer | context/crossword-context.tsx:78-465 | crosswordReducer: the view-only guard, then every action case, equal to Step |
| Selection.CluePoolAnswers | lib/crossword-generator.ts:5-36 | the pool holds thirty answers of one to fourteen letters each |
| Selection.PickFromPool | lib/crossword-generator.ts:232-233 | entries picked at distinct indices are drawn from the pool without repetition (multiset inclusion) |
| Selection.GetRandomClues | lib/crossword-generator.ts:231-234 | getRandomClues returns min(count, pool size) entries: the pool entries at the first positions of the shuffle, in that order, without repetition (multiset inclusion in the pool) |
| Selection.SelectedAnswers | lib/crossword-generator.ts:40 | the ten selected answers are pool answers of one to fourteen letters |
| Placement.ValidAtMeans | lib/crossword-generator.ts:282-331 | a placement is valid iff the span is on the grid, each span cell is empty or already holds the word's letter, and no empty span cell has a letter beside it off the word's axis |
| Placement.IsValidPlacement | lib/crossword-generator.ts:275-331 | the method returns true exactly for valid placements |
| Placement.ScoreUpTo | lib/crossword-generator.ts:344-351 | the intersections among the first n letters number at most n |
| Placement.ScoreUpToExtremes | lib/crossword-generator.ts:344-351 | the count is n iff every one of the first n letters is already on the grid, and 0 iff none is |
| Placement.CalculatePlacementScore | lib/crossword-generator.ts:334-354 | the score is the number of span cells already holding the word's letter, between 0 and the word length |
| Placement.TryScore | lib/crossword-generator.ts:248-265 | a try scores at least 0 exactly when its anchor holds the letter and its placement is valid, and -1 otherwise |
| Placement.TryScoreAt | lib/crossword-generator.ts:248-265 | at a cell holding letter i, the across and down tries score as isValidPlacement and calculatePlacementScore decide |
| Placement.TryScoreOff | lib/crossword-generator.ts:248 | a cell not holding letter i anchors no candidate |
| Placement.ViableInScan | lib/crossword-generator.ts:242-247 | every viable try lies inside the scan's ranges |
| Placement.ScanPastCell | lib/crossword-generator.ts:247-267 | passing a cell that anchors nothing keeps the scan invariant |
| Placement.ScanPastRow | lib/crossword-generator.ts:246-268 | finishing a row keeps the scan invariant |
| Placement.ScanPastLetter | lib/crossword-generator.ts:242-269 | finishing a letter keeps the scan invariant |
| Placement.TakeAcross | lib/crossword-generator.ts:250-256 | a strictly higher across score becomes the best so far |
| Placement.KeepAcross | lib/crossword-generator.ts:250-256 | a score not higher keeps the best so far |
| Placement.TakeDown | lib/crossword-generator.ts:259-265 | a strictly higher down score becomes the best so far |
| Placement.KeepDown | lib/crossword-generator.ts:259-265 | a score not higher keeps the best so far |
| Placement.ScanEnd | lib/crossword-generator.ts:271 | at the end of the scan: none found iff no try is viable, and otherwise the result is valid, has the highest score and beats every earlier try strictly |
| Placement.TryCell | lib/crossword-generator.ts:248-266 | one cell of the scan (across, then down, strict comparison) keeps the scan invariant |
| Placement.FindBestPlacement | lib/crossword-generator.ts:237-272 | null iff no anchored try is valid; otherwise a valid placement whose score is at least every valid try's and strictly more than every earlier try's (ties go to the first in letter, row, column, across-before-down order) |
| Layout.Written | lib/crossword-generator.ts:88-94 | writing a word keeps the board's dimensions |
| Layout.WrittenSpells | lib/crossword-generator.ts:88-94 | after writing, the span spells the word |
| Layout.WriteKeepsSpells | lib/crossword-generator.ts:86-95 | writing at a valid placement keeps every placed clue's span spelling its answer |
| Layout.WriteKeepsCovered | lib/crossword-generator.ts:86-106 | after writing and recording the clue, every letter still belongs to some placed clue |
| Layout.WriteWord | lib/crossword-generator.ts:87-95 | the write loops put exactly the word's letters on its span |
| Layout.PlaceKeepsLayout | lib/crossword-generator.ts:80-106 | placing a later answer at a valid position keeps the layout invariant |
| Layout.FirstLayout | lib/crossword-generator.ts:53-72 | the first answer across the centre row establishes the layout invariant |
| Layout.PlaceFirst | lib/crossword-generator.ts:53-72 | the first answer is written across row 12, centred, as clue 0 |
| Layout.PlaceNext | lib/crossword-generator.ts:76-107 | one pass of the placement loop is a Round: when no try of the answer is viable the board and the clues stay as they are; otherwise the answer is written at the placement of the best try and recorded as the next clue, with id, direction, start and length; the layout invariant is kept |
| Layout.BestUnique | lib/crossword-generator.ts:250-265 | two best tries are the same try: the strict comparisons leave no tie unresolved |
| Layout.DroppedOnlyWhenStuck | lib/crossword-generator.ts:80-107 | a round that records no clue found no viable try: an answer is dropped only when it fits nowhere |
| Layout.RoundDetermined | lib/crossword-generator.ts:76-107 | a round has one outcome: the board and clues after it are determined by those before it and the answer |
| Layout.RunsAgree | lib/crossword-generator.ts:50-108 | two runs of the loop over the same answers from the same board agree round by round |
| Layout.PlaceClues | lib/crossword-generator.ts:50-108 | the placement loop: the returned boards and clue lists are the run of rounds from the empty grid (the first answer across the centre, then one Round per later answer), ending at the final board and clues; every placed clue spells its answer, the k-th has id k, answers come from later and later selected entries, every letter belongs to a clue, and between one and the selected-count clues exist with clue 0 the first answer |
| Cropping.FindBounds | lib/crossword-generator.ts:112-126 | the box encloses every letter and touches a letter on every side; with no letter it keeps the initial values |
| Cropping.BoxInside | lib/crossword-generator.ts:112-126 | the box around the letters lies on the grid |
| Cropping.Pad | lib/crossword-generator.ts:128-132 | the padded box contains the box, grows by at most one cell per side and stays on the grid |
| Cropping.BuildFinalGrid | lib/crossword-generator.ts:134-152 | the final grid has the box's dimensions; each cell has box-relative coordinates, an empty value, blank iff the scratch cell is empty, the scratch letter (or "") as solution, no flags, no ids and no number |
| Cropping.Shift | lib/crossword-generator.ts:155-159 | every clue is kept except for its start, which moves by the box corner, and so does every span cell |
| Numbering.IdsCoveringMeans | lib/crossword-generator.ts:161-171 | a cell's added ids are exactly the ids of the clues covering it |
| Numbering.AddSpanIds | lib/crossword-generator.ts:163-170 | one clue's loop appends its id to exactly the on-grid cells of its span |
| Numbering.AddClueIds | lib/crossword-generator.ts:161-171 | every cell's ids become its old ids followed by those of the covering clues, in clue order, with nothing else changed |
| Numbering.NumberRow | lib/crossword-generator.ts:175-191 | one row of the numbering loop gives each non-blank start cell of the row the count of start cells before it plus one, leaves every other cell as it was, and ends with the counter one past the starts of the rows up to and including this one |
| Numbering.AssignNumbers | lib/crossword-generator.ts:173-193 | the numbering loop gives each non-blank start cell the count of start cells before it plus one, and leaves every other cell as it was |
| Numbering.RowStartsMono | lib/crossword-generator.ts:174-193 | the count of starts along a row never decreases |
| Numbering.StartsAboveMono | lib/crossword-generator.ts:174-193 | the count of starts above a row never decreases |
| Numbering.NumbersIncrease | lib/crossword-generator.ts:174-193 | a start cell's number is smaller than that of any later cell in reading order |
| Numbering.RowDense | lib/crossword-generator.ts:174-193 | every count below a row prefix's count is reached at some start cell of that prefix |
| Numbering.AboveDense | lib/crossword-generator.ts:174-193 | every count below the starts above a row is reached at some start cell above it |
| Numbering.NumbersDense | lib/crossword-generator.ts:174-193 | every number from 1 to the number of start cells is given to some start cell: no gaps |
| Numbering.NumbersBounded | lib/crossword-generator.ts:174-193 | no start cell's number exceeds the number of start cells |
| Numbering.FilterMembers | lib/crossword-generator.ts:196-197 | the filtered list holds exactly the clues of the given direction |
| Numbering.FilterPartition | lib/crossword-generator.ts:195-206 | the across and down filters together are a permutation of the clues |
| Numbering.SortedPairs | lib/crossword-generator.ts:198-203 | a list sorted pair by pair is sorted for every pair of positions |
| Numbering.InsertPerm | lib/crossword-generator.ts:198-203 | inserting a clue adds exactly that clue |
| Numbering.InsertSorted | lib/crossword-generator.ts:198-203 | inserting into a sorted list keeps it sorted by clue number |
| Numbering.SortByNumber | lib/crossword-generator.ts:198-212 | the sorted list is a permutation of the input, sorted ascending by the number of each clue's start cell |
| Numbering.InsertStable | lib/crossword-generator.ts:198-203 | inserting a clue puts it before the clues with its number and keeps their order |
| Numbering.SortStable | lib/crossword-generator.ts:198-212 | the sort is stable: the clues with any one number keep the order they had |
| Generator.AgreeKeeps | lib/crossword-generator.ts:161-193 | the grid properties survive a change of clue ids and numbers and a reordering of the clues |
| Generator.MembersKeep | lib/crossword-generator.ts:195-212 | the grid properties depend only on which clues there are, not their order |
| Generator.RowStartsAgree | lib/crossword-generator.ts:174-193 | row start counts depend only on the blanks and on which clues there are |
| Generator.StartsAboveAgree | lib/crossword-generator.ts:174-193 | the same for the counts above a row |
| Generator.StartsAgree | lib/crossword-generator.ts:174-193 | start cells and their numbers are unchanged by a change of ids and a reordering of clues |
| Generator.CropSpelled | lib/crossword-generator.ts:128-159 | after cropping and shifting, every clue's span is on the final grid and spells its answer in the solutions |
| Generator.CropOwned | lib/crossword-generator.ts:128-159 | after cropping, every letter cell lies on some clue's span, and every cell is unfilled with no ids and no number |
| Generator.IdsStage | lib/crossword-generator.ts:161-171 | after the id loop a cell lists a clue's id exactly when that clue covers it, spelling and ownership still hold, and every other field of every cell is kept |
| Generator.NumberStage | lib/crossword-generator.ts:173-193 | after the numbering loop a cell has a number exactly when a clue starts on it, and the number counts the starts before it; every other field of every cell is kept |
| Generator.AtMostOnce | lib/crossword-generator.ts:54 | clues with distinct ids occur at most once each |
| Generator.PermutedDistinct | lib/crossword-generator.ts:195-212 | a permutation of clues with distinct ids has distinct ids |
| Generator.ListStage | lib/crossword-generator.ts:195-212 | the two sorted lists together are a permutation of the clues, with distinct ids, across clues in the across list and down clues in the down list |
| Generator.LayOutAnswers | lib/crossword-generator.ts:42-108 | steps 2 to 4: a 25 x 25 grid on which every placed clue spells a selected answer and has its index as id, every letter belongs to a clue, clue 0 is the first answer across the centre, and the grid and the clues are the last board and the last list of the run of rounds from the empty 25 x 25 grid |
| Generator.CropGrid | lib/crossword-generator.ts:110-159 | the box bx encloses every letter and touches a letter on each side; the cropped grid is the board cut to bx padded by one cell clamped to the 25 x 25 grid (its height and width are the padded box's, each cell carries its letter or blank at the matching board cell), it spells every shifted clue, every letter cell is covered, the clues are the placed ones shifted by the padded box's corner, and ids, answers and directions are kept |
| Generator.BuildState | lib/crossword-generator.ts:161-227 | the state built around the cropped grid has the promised shape, a grid that agrees with the cropped one except on clue ids and numbers, and the cropped clues up to order |
| Generator.NumberCells | lib/crossword-generator.ts:161-193 | the grid with ids and numbers: ids exactly of covering clues, numbers exactly on start cells, counting in reading order; every other field of every cell is kept |
| Generator.ClueLists | lib/crossword-generator.ts:195-212 | the across and down lists partition the clues by direction and are each sorted by clue number |
| Generator.GenerateFrom | lib/crossword-generator.ts:42-227 | a fresh state (no selection, not complete, untimed, no hints, not view-only, startTime now) that is well-formed, whose grid spells, lists and numbers every clue, whose lists are split by direction and sorted, with distinct ids, between one and the selected-count clues, every answer selected and the first answer across; its clues are, shifted by the crop's corner and up to order, the last list of the run of rounds, so each later answer sits at its best try and each dropped answer had no viable try; its grid has the height and width of the tight box around the last board's letters padded by one cell clamped to the 25 x 25 grid, and each cell holds the board's letter (or is blank) at the matching place |
| Generator.CropTrace | lib/crossword-generator.ts:110-227 | a state whose clues are the shifted last list and whose grid agrees with the cut of the last board, for a box that encloses and touches the letters, is the crop of that run |
| Generator.Assemble | lib/crossword-generator.ts:195-227 | the stages of step 5 together give the promised shape of the returned state |
| Generator.GenerateCrossword | lib/crossword-generator.ts:38-228 | generateCrossword: the same for the ten answers drawn by the given shuffle, so between one and ten clues, laid out by the run of rounds over those answers and cropped to the padded box around the last board's letters |

## Left out

- Persistence in localStorage is I/O and is left out. The model has no side effects.
- The React provider, `useReducer`, `useEffect`, `JSON.parse` of a saved state and the `useCrossword` hook are framework plumbing and are left out. So are `components/*` and `app/*`.
- `formatTime` is display-only and unused by the reducer, so it is left out.
- The clue prose of the pool is left out. Only the answers take part in any computation.
- `NEW_PUZZLE` does not call the generator inside `Step`. It returns `Env.freshState`. `Transitions.StepKeepsWellFormed` requires that state to be well-formed and timed, and `Generator.Generated` guarantees both.
- `Date.now` is a parameter (`now` in `Generator.GenerateCrossword` and `Env.now`).
- `uuidv4` is replaced by the clue's index, which makes the ids distinct naturals.
- The random-comparator sort of `getRandomClues` has no contract of its own. The model takes its outcome as a permutation of the pool's indices.
- Transitions.RevealHint: `Math.floor(Math.random() * n)` is modelled as `pick % n` for a supplied natural `pick`. The random number itself is left out.
- Transitions.Upper: `toUpperCase` is modelled on ASCII letters only. Other characters are kept as they are, and Unicode case mapping is left out.
- Placement.IsValidPlacement: the source reads the scratch grid without checking the row of an across word or the column of a down word. The method requires that coordinate to be on the grid (`Anchorable`), which every call from `findBestPlacement` satisfies because the position goes through an existing cell. The grid must also be square, which the 25 x 25 grid is.
- Placement.FindBestPlacement: the unused `placedClues` parameter is dropped.
- Generator.LayOutAnswers: requires every selected answer to have 1 to 14 letters. The source does not check this, but every answer of the pool satisfies it (`Selection.CluePoolAnswers`). It guarantees that the first answer fits in the 25-cell row.
- Generator.GenerateFrom: the same requirement on the answers.
- Generator.GenerateCrossword: the global property that no two words touch side by side is not stated. What is proved is that each later word sits at the best try of its round, which passed isValidPlacement on the board of that round (`Generator.Traced`).
- Several source loops are split into helper methods and lemmas of their own, so that each proof stays small. The behaviour is the same:
  - the body of the placement loop (`Layout.PlaceNext`), and the extension of the run by one round (`Layout.RunsOn`);
  - one letter-and-cell step of the search (`Placement.TryCell`);
  - one clue of the id loop (`Numbering.AddSpanIds`);
  - one row of the numbering loop (`Numbering.NumberRow`);
  - the stages of `generateCrossword` (`Generator.LayOutAnswers`, `Generator.CropGrid`, `Generator.NumberCells`, `Generator.ClueLists`, `Generator.BuildState`, `Generator.GenerateFrom`).
- The numbering loop writes a copy of the current row and stores it back, instead of updating cells through a shared reference. In-place mutation through aliases is not modelled.
- The grid is a sequence of sequences of immutable records. In-place updates of `newGrid[r][c]` after the copy in SET_ACTIVE_CELL, SET_ACTIVE_CLUE and TOGGLE_CLUE_DIRECTION become functional updates of that copy, which behave the same because the copy is fresh.
