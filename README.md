# Go rules engine, modelled in Dafny

This project models the rules engine of a Go program in two generations.

**The deprecated board** (`engine_DEPRECATED/src/board.rs`):
- A flat cell vector of `(size + 2)^2` cells, with a ring of `Offboard` sentinels.
- Intersections written in Go notation (`D4`), and their mapping to cell indices.
- Overflow-checked index arithmetic.
- A recursive flood fill that finds a group and its liberties.
- Captures, the "diamond" test and single-point ko.
- Suicide rollback, and `play` over pass / move / resign.
- A Tromp-Taylor area estimate.
- The playout helpers.

**The rewrite** (`src/`):
- `init_board` and the text rendering of a board.
- The breadth-first `find_group` over cell indices.
- The `update` command loop over messages (play, place a stone, pass, clear, resize).
- The conversion of a row/column position to a cell.

## How the model is organised

- `Stones`, `Wrappers` and `Grid` hold the values both drafts share: colours, cell states, board sizes, `Option`/`Result`, and the bordered-board shape (`Bordered`, `WellBordered`).
- `Regions` defines the reference flood fill: the component `Comp` of a cell and the liberties `Libs` of a set of cells. Every group search is proved equal to it.
- `CaptureRules` defines on values what one move captures and where it leaves a ko point.
- `LegacyBoard.Board` is the deprecated `Board`, a class whose methods update its fields in place.
  - Each state-changing method is proved against a reference function.
  - For example, `PlayIntersection` is proved against `PlayRef`.
  - `LegacyPlay`, `LegacyScore` and `LegacyPlayout` hold the lemmas about those references.
- `RewriteBoard.Board` is the rewrite's board.
  - It holds the union of the fields the rewrite reads and writes: `size`, `board`, `ko`, the two capture counters, `playerTurn` and `moveNumber`. The last two are read and written by `update` but not declared in the rewrite's `Board` (see "## Left out").
  - `Update.Update` mutates this board in place.
  - `Update.Update` is proved equal to the value-level reference `Update.Apply`.

Behaviour kept as the source has it:
- In the rewrite, a move refused for ko leaves its stone on the board, because placing comes before the ko test.
- The rewrite never sets a ko point itself.
- The deprecated `play(Pass)` only counts the move; it neither hands the turn over nor clears the ko point.
- `Update.Update` maps points to cells with the source's own computation (`Update.ToBoardIndexAsWritten`), flaws included. The reference `Update.Apply` takes the computation as a parameter (`Update.Indexing`), so each lemma about it holds both for the source's computation and for the corrected one.
- The deprecated `can_place_stone_at` calls `not_suicide` as written, with its vertical offsets of ±size (`LegacyBoard.Board.NotSuicideAsWritten`). The corrected test `LegacyBoard.Board.NotSuicide` is modelled beside it.
- The area estimate counts a stone once for every area it borders, as the source does.

## Model

| member | source | states |
|---|---|---|
| Stones.Color.Opposite | engine_DEPRECATED/src/board.rs:453-460 | the opposite colour differs from the colour |
| Stones.OppositeInvolution | engine_DEPRECATED/src/board.rs:453-460 | taking the opposite colour twice gives the colour back |
| Stones.BoardSizeFromU16 | engine_DEPRECATED/src/board.rs:251-259 | a size exists exactly for 9, 13 and 19 lines, and has that many lines |
| Stones.BoardSizeRoundTrip | engine_DEPRECATED/src/board.rs:249-267 | `from_u16` inverts `to_u16`, whose values lie between 9 and 19 (the rewrite's `to_u16` in src/board.rs gives the same numbers) |
| LegacyTypes.Column.ToU16 | engine_DEPRECATED/src/board.rs:328-351 | a column's zero-based index is below 19 |
| LegacyTypes.Column.Letter | engine_DEPRECATED/src/board.rs:354-382 | a column is shown as a letter from A to T that is not I |
| LegacyTypes.ColumnFromU16 | engine_DEPRECATED/src/board.rs:273-299 | a column exists exactly for indices 0 to 18, and it has that index |
| LegacyTypes.ColumnRoundTrip | engine_DEPRECATED/src/board.rs:270-351 | `from_u16` inverts `to_u16` on every column |
| LegacyTypes.ColumnFromString | engine_DEPRECATED/src/board.rs:301-326 | a column is returned exactly for a one-character string whose character, upper-cased as Unicode does it, is that column's letter; the long s `ſ` upper-cases to `S` and the dotless `ı` to `I` |
| LegacyTypes.ColumnStringRoundTrip | engine_DEPRECATED/src/board.rs:301-326 | every column's letter, in upper or lower case, parses back to that column |
| LegacyTypes.ColumnFromStringUnicode | engine_DEPRECATED/src/board.rs:301-326 | the long s names column S; `I`, `i` and `ı` name no column; the empty string and a two-letter string name none |
| LegacyTypes.ToPositionIndex | engine_DEPRECATED/src/board.rs:387-399 | a cell exists exactly when column < size and 1 ≤ row ≤ size; it then lies inside the `(size + 2)^2` cells, off the sentinel ring, at position `column + 1` within stored row `size + 1 - row`, so rows are stored from the top (A1 on 9x9 is cell 100) |
| LegacyTypes.FromPositionIndex | engine_DEPRECATED/src/board.rs:401-426 | no intersection exactly for a cell past `(size + 2)^2` or on the sentinel ring |
| LegacyTypes.PositionIndexRoundTrip | engine_DEPRECATED/src/board.rs:387-426 | every on-board intersection maps to a playable cell, and that cell maps back to it |
| LegacyTypes.IndexPositionRoundTrip | engine_DEPRECATED/src/board.rs:401-426 | every playable cell maps to an intersection, and that intersection maps back to the cell |
| LegacyTypes.PositionIndexInjective | engine_DEPRECATED/src/board.rs:387-399 | two on-board intersections with the same cell are the same intersection |
| LegacyTypes.IntersectionToString | engine_DEPRECATED/src/board.rs:519-523 | the text of an intersection starts with its column letter, followed by at least one character |
| LegacyTypes.ParseU16 | engine_DEPRECATED/src/board.rs:440 | a text is accepted exactly when, after one optional leading `+`, it is one or more decimal digits whose value is below 65536, and the result is that value |
| LegacyTypes.ParseU16Edges | engine_DEPRECATED/src/board.rs:440 | a leading zero is accepted and does not change the number; the text of any number of 65536 or more, the empty text, a lone `+`, `-0` and `1a` are refused |
| LegacyTypes.ParseU16RoundTrip | engine_DEPRECATED/src/board.rs:428-448 | every 16-bit number is read back from its decimal text, with or without a leading `+` |
| LegacyTypes.DigitsValueOfNatToString | engine_DEPRECATED/src/board.rs:519-523 | the decimal text of a row number has that number as its value |
| LegacyTypes.IntersectionFromString | engine_DEPRECATED/src/board.rs:428-448 | a text is accepted exactly when it has at least two characters, its first character names a column and the rest parses as a `u16`; the column is then the one whose letter the first character upper-cases to, and the row is the parsed number |
| LegacyTypes.IntersectionStringRoundTrip | engine_DEPRECATED/src/board.rs:428-448 | displaying an intersection and parsing the text gives the intersection back |
| LegacyTypes.ColorFromString | engine_DEPRECATED/src/board.rs:462-468 | black exactly for a text spelling `b` or `black`, white exactly for one spelling `w` or `white`, in any letter case under Unicode lower-casing (the Kelvin sign `K` reads as `k`); none for every other text |
| LegacyTypes.ColorFromStringCaseInsensitive | engine_DEPRECATED/src/board.rs:462-468 | two names equal up to letter case parse to the same colour |
| LegacyTypes.ColorNames | engine_DEPRECATED/src/board.rs:462-468 | `B`, `Black` and `blac` followed by the Kelvin sign are black; `w` and `WHITE` are white; `bxxxx` and the empty text are no colour |
| LegacyTypes.AddSignedToUnsigned | engine_DEPRECATED/src/board.rs:223-246 | for an addend of -32768 there is never a sum, because its `i16` magnitude wraps and does not cast to the unsigned type; for every other addend the sum is returned exactly when it lies between 0 and the type's maximum |
| Grid.SetKeepsBordered | src/update.rs:65 | writing a non-sentinel state into a playable cell keeps exactly the ring `Offboard` |
| Grid.BorderedIsWellBordered | src/board.rs:117-125 | the reference empty board has exactly the ring as `Offboard` |
| Regions.FloodSpec | engine_DEPRECATED/src/board.rs:547-591 | the flood from a seed set contains the seeds and stays on the board; it is closed under same-state neighbours, and has only cells of that state when the seeds do |
| Regions.FloodLeast | engine_DEPRECATED/src/board.rs:547-591 | the flood lies inside every closed set that contains the seeds |
| Regions.CompSpec | engine_DEPRECATED/src/board.rs:533-591 | a component holds only cells of its state and is closed; it contains its start exactly when the start has that state, and is empty otherwise |
| Regions.CompLeast | engine_DEPRECATED/src/board.rs:533-591 | a component lies inside every closed set that contains its start |
| Regions.SameComp | engine_DEPRECATED/src/board.rs:533-591 | every member of a component has that same component |
| Regions.Separation | engine_DEPRECATED/src/board.rs:533-591 | a component started outside a closed set is disjoint from it |
| Regions.ClearedStable | engine_DEPRECATED/src/board.rs:593-606 | clearing other whole groups of a colour changes neither a remaining group's component nor its liberties |
| CaptureRules.DiamondOf | engine_DEPRECATED/src/board.rs:610-636 | the diamond colour is black (white) exactly when no neighbour is empty, at least one is occupied, and every occupied neighbour is black (white) |
| CaptureRules.DiamondBroken | engine_DEPRECATED/src/board.rs:620 | an empty neighbour means there is no diamond |
| CaptureRules.DiamondClash | engine_DEPRECATED/src/board.rs:621-625 | a neighbour of the other colour than those seen so far means there is no diamond |
| CaptureRules.DiamondScanned | engine_DEPRECATED/src/board.rs:615-633 | the colour gathered over all four directions is the diamond colour |
| CaptureRules.DeadShape | engine_DEPRECATED/src/board.rs:679-681 | a dead neighbour group is a closed component of opposing stones, every stone of which has that component, and it has no liberty |
| CaptureRules.CapturedShape | engine_DEPRECATED/src/board.rs:677-698 | what the first k directions capture is a union of dead groups |
| CaptureRules.PlacedStoneStays | engine_DEPRECATED/src/board.rs:673-698 | the stone just played is never captured and stands after the captures |
| CaptureRules.CaptureStep | engine_DEPRECATED/src/board.rs:678-696 | in direction k, a group with no liberty on the partly cleared board is the dead group there and is new; otherwise that group is alive or already captured |
| CaptureRules.CaptureTurn | engine_DEPRECATED/src/board.rs:678-696 | one direction adds exactly the group counted there when it has no liberty; it sets the ko point exactly for a first capture of one stone inside an opposing diamond |
| CaptureRules.CaptureStateStep | engine_DEPRECATED/src/board.rs:677-698 | one iteration of the direction loop keeps the board, counter and ko equal to those of the reference capture after k + 1 directions |
| CaptureRules.LiveNeighbour | engine_DEPRECATED/src/board.rs:679-696 | clearing dead groups changes neither the component nor the liberties of a stone outside them |
| CaptureRules.DiamondAfterCaptures | engine_DEPRECATED/src/board.rs:689 | the diamond test run after earlier captures agrees with the original board until something is captured, and fails after |
| CaptureRules.KoSound | engine_DEPRECATED/src/board.rs:682-693 | a ko point is a captured neighbour whose dead group is that one stone, inside a diamond of the opposing colour |
| CaptureRules.KoComplete | engine_DEPRECATED/src/board.rs:682-693 | no capture means no ko point; capturing exactly one stone inside an opposing diamond sets the ko point there |
| CaptureRules.KoNone | engine_DEPRECATED/src/board.rs:671 | no capture means no ko point |
| CaptureRules.KoSingle | engine_DEPRECATED/src/board.rs:682-693 | capturing exactly one stone inside an opposing diamond sets the ko point there |
| CaptureRules.CaptureGivesLiberty | engine_DEPRECATED/src/board.rs:700-705 | when a move captures anything, its own group has a liberty afterwards, so capture comes before suicide |
| CaptureRules.CapturesComplete | engine_DEPRECATED/src/board.rs:677-698 | every opposing neighbour group still on the board after the captures has a liberty |
| CaptureRules.CapturedMonotone | engine_DEPRECATED/src/board.rs:677-698 | the captures only grow from one direction to the next |
| LegacyBoard.Board.New | engine_DEPRECATED/src/board.rs:140-154 | a new board has the empty bordered cells of its size, black to play, no ko, komi 6.5, last move pass, and zero counters and move number |
| LegacyBoard.Board.EmptyBoard | engine_DEPRECATED/src/board.rs:156-171 | the row-by-row loop builds exactly the reference empty board: the ring is `Offboard`, every other cell `Empty` |
| LegacyBoard.Board.DeepCopy | engine_DEPRECATED/src/board.rs:173-190 | the copy is a fresh board whose every field equals the original's |
| LegacyBoard.Board.CountHelp | engine_DEPRECATED/src/board.rs:547-591 | the recursion extends the group and liberty sets by the flood from the cell; they stay unchanged when the cell is not an unvisited stone of the colour |
| LegacyBoard.Board.Count | engine_DEPRECATED/src/board.rs:533-545 | the group is the component of the colour's stones at the cell; the liberties are its empty neighbours, plus the cell itself when it is empty |
| LegacyBoard.Board.CaptureGroup | engine_DEPRECATED/src/board.rs:593-606 | exactly the group's cells become empty; the capturer's counter rises by the group's size and the other counter stays |
| LegacyBoard.Board.Diamond | engine_DEPRECATED/src/board.rs:610-636 | the method answers the diamond colour of the intersection's cell, and none off the board |
| LegacyBoard.ScanDiamond | engine_DEPRECATED/src/board.rs:612-633 | the direction loop with its early returns computes the diamond colour |
| LegacyBoard.NbrIndices | engine_DEPRECATED/src/board.rs:615-617 | from a playable cell the checked index arithmetic never fails, and yields the four neighbours inside the board |
| LegacyBoard.Board.CaptureNeighbour | engine_DEPRECATED/src/board.rs:678-696 | the opposing group and its liberties are counted at the neighbour; the group is cleared and credited exactly when it has none; the ko point is set exactly for one stone inside an opposing diamond |
| LegacyBoard.Board.CaptureAt | engine_DEPRECATED/src/board.rs:677-698 | one direction keeps the board, counters and ko point equal to the reference capture over one more direction |
| LegacyBoard.Board.CaptureLoop | engine_DEPRECATED/src/board.rs:677-698 | after the four directions the board, counters and ko point are those of the reference capture |
| LegacyBoard.Board.CaptureAround | engine_DEPRECATED/src/board.rs:671-698 | the cleared cells are exactly the reference captures of the placed stone; the counters rise by their number; the ko point is the reference one |
| LegacyBoard.Board.CapturesDone | engine_DEPRECATED/src/board.rs:677-698 | the finished loop's state is the reference capture of the placed stone |
| LegacyBoard.Board.Settle | engine_DEPRECATED/src/board.rs:700-712 | after the captures, the suicide test and the commit or rollback give exactly the reference outcome of a move on an empty point |
| LegacyBoard.Board.TakeBack | engine_DEPRECATED/src/board.rs:700-705 | a suicidal stone is lifted, and the board is back to the position before the move |
| LegacyBoard.Board.Commit | engine_DEPRECATED/src/board.rs:707-712 | a standing move sets the new ko point, hands the turn over and records the move, and changes nothing else |
| LegacyBoard.PlayOnEmptyStands | engine_DEPRECATED/src/board.rs:700-712 | a move whose group keeps a liberty stands, with the captures, counters, ko point, turn and last move of the reference |
| LegacyBoard.PlayOnEmptyRefused | engine_DEPRECATED/src/board.rs:700-705 | a move whose group has no liberty captured nothing, and refusing it restores the exact previous position |
| LegacyBoard.Board.PlaceStone | engine_DEPRECATED/src/board.rs:665-712 | playing on an empty point gives exactly the reference outcome and new state |
| LegacyBoard.Board.PlayIntersection | engine_DEPRECATED/src/board.rs:657-715 | the answer and the new board are those of the reference move `PlayRef` |
| LegacyBoard.Board.Play | engine_DEPRECATED/src/board.rs:640-653 | a pass is played and changes nothing but the move count; a resignation is refused and changes nothing; a move follows `PlayRef`; the move count rises by one exactly when the move is played |
| LegacyPlay.PlayRefOnBoard | engine_DEPRECATED/src/board.rs:659-669 | a move on the ko point or on an occupied point is refused and changes nothing |
| LegacyPlay.PlayLegal | engine_DEPRECATED/src/board.rs:657-715 | a move is played exactly when it is not the ko point, on the board and empty, and then either captures something or keeps a liberty; a refused move changes nothing |
| LegacyPlay.PlayEffects | engine_DEPRECATED/src/board.rs:671-712 | after a played move, the board keeps its shape and the stone stands on the formerly empty point, so the position differs from before; the turn passes and the move is recorded |
| LegacyPlay.LibertiesAfterPlay | engine_DEPRECATED/src/board.rs:677-705 | after a played move its own group and every adjacent opposing group have a liberty |
| LegacyPlay.RemovedAreCaptured | engine_DEPRECATED/src/board.rs:677-698 | the stones that disappear are exactly the reference captures |
| LegacyPlay.PlayChangesOnlyCaptures | engine_DEPRECATED/src/board.rs:673-698 | a played move changes no cell except the played point and the captured stones |
| LegacyPlay.CaptureBookkeeping | engine_DEPRECATED/src/board.rs:593-606 | the mover's counter rises by the number of stones removed, and the other counter stays |
| LegacyPlay.KoRule | engine_DEPRECATED/src/board.rs:682-708 | a ko point is set only for a single-stone capture inside an opposing diamond, and always for one; no capture clears it; the next move on the ko point is refused for either colour |
| LegacyBoard.Board.EstimateScore | engine_DEPRECATED/src/board.rs:724-746 | the score is black's total minus white's total minus komi, the totals being those of the reference scan `ScanTotals` after all rows; so with no white stones it is at least minus komi, with no black stones at most minus komi, and with stones of one colour only strictly on that colour's side |
| LegacyBoard.Board.ScoreRow | engine_DEPRECATED/src/board.rs:729-743 | one row of the scan keeps the sign facts of the tallies, covers every point of that row, and moves the totals from those of the reference scan before the row to those after it |
| LegacyBoard.Board.ScorePoint | engine_DEPRECATED/src/board.rs:731-741 | a point seen before changes nothing; an unseen point adds exactly the points of its area to the seen set, and their number is added to black's (white's) total exactly when the area reaches black (white) alone; this is one step `ScanVisit` of the reference scan |
| LegacyBoard.Board.TallyStep | engine_DEPRECATED/src/board.rs:734-740 | crediting a walked area to the colour it reaches alone keeps the sign facts of the totals: a colour with no stone on the board has total 0, and a colour with a stone among the seen points, when the other colour has none on the board, has a positive total |
| LegacyBoard.Board.ScoreCovers | engine_DEPRECATED/src/board.rs:729-743 | after the scan every stone of the board has been seen |
| LegacyScore.ScanPoint | engine_DEPRECATED/src/board.rs:729-731 | the scan's point for row index `row` and column index `col` is on the board, at row `row + 1` and the column of index `col` |
| LegacyScore.ScanRecounts | engine_DEPRECATED/src/board.rs:732-741 | when an unseen point's area meets points already seen and reaches black alone, the step adds more to black's total than the number of points it newly collects: a stone bordering two areas is credited once for each |
| LegacyScore.SeenIsAreaPoints | engine_DEPRECATED/src/board.rs:748-789 | the points a walk collects are exactly the points of the area `AreaPoints` |
| LegacyScore.ReachIsOf | engine_DEPRECATED/src/board.rs:764-778 | the colour a walk reports is the one value `ReachOf` of its area |
| LegacyBoard.Board.TrompTaylorCount | engine_DEPRECATED/src/board.rs:748-789 | the points seen are exactly the region of the root (empty points joined through empty points, and the stones bordering them); the answer is the colour that region reaches, if only one |
| LegacyBoard.Board.NeighboringIntersections | engine_DEPRECATED/src/board.rs:791-806 | the result is the list of the on-board neighbours in the order right, left, down, up |
| LegacyScore.Join | engine_DEPRECATED/src/board.rs:767-777 | reaching a colour leaves a single colour exactly when nothing or only that colour was reached before |
| LegacyScore.ReachAdd | engine_DEPRECATED/src/board.rs:764-778 | folding one more cell into the reached colour keeps it equal to the colour of the region so far |
| LegacyScore.NeighbourSpec | engine_DEPRECATED/src/board.rs:791-806 | a point is listed as a neighbour exactly when its cell is one of the four neighbouring cells |
| LegacyScore.NeighbourSymmetric | engine_DEPRECATED/src/board.rs:791-806 | being neighbours is symmetric, and no point neighbours itself |
| LegacyScore.AreaShape | engine_DEPRECATED/src/board.rs:748-789 | a region contains its root and only board cells, and holds every board neighbour of each of its empty cells |
| LegacyScore.ClosedCoversArea | engine_DEPRECATED/src/board.rs:758-786 | a set closed under board neighbours of its empty cells covers the whole region of any of its cells |
| LegacyScore.WalkVisit | engine_DEPRECATED/src/board.rs:759-785 | visiting an unseen point keeps the worklist invariant: the seen points lie in the region, the reached colour is that of the seen points, and pending points are in the region |
| LegacyScore.WalkDone | engine_DEPRECATED/src/board.rs:758-788 | when the worklist is empty, the seen points are exactly the region and the reached colour is that of the region |
| LegacyBoard.Board.WeakestGroup | engine_DEPRECATED/src/board.rs:816-840 | with no stone of the colour the result is empty; otherwise it is the liberty set of one of its groups, no larger than that of any group, and the group is the first in cell order among those with that fewest liberties |
| LegacyBoard.Board.WeakestAdd | engine_DEPRECATED/src/board.rs:824-834 | counting a new group keeps the best liberty set found so far, replacing it exactly when the new group has fewer liberties |
| LegacyBoard.Board.WeakestDone | engine_DEPRECATED/src/board.rs:821-839 | after the scan, the kept liberty set is minimal over all groups of the colour, and no earlier stone of the colour has a group with that few liberties |
| LegacyPlayout.LibsBelowSentinel | engine_DEPRECATED/src/board.rs:818 | no group has 1000 liberties, so the starting bound of 1000 is beaten by the first group |
| LegacyBoard.Board.NotSuicideAsWritten | engine_DEPRECATED/src/board.rs:860-877 | true exactly for an empty on-board point that is not the ko point and has an empty cell at offset ±1 or ±size |
| LegacyBoard.Board.NotSuicide | engine_DEPRECATED/src/board.rs:860-877 | true exactly for an empty on-board point that is not the ko point and has an empty neighbour at offset ±1 or ±(size + 2) |
| LegacyBoard.Board.CountOpen | engine_DEPRECATED/src/board.rs:862-869 | the count of empty cells among the offsets is positive exactly when one of them is empty |
| LegacyBoard.Board.CanPlaceStoneAt | engine_DEPRECATED/src/board.rs:880-886 | true exactly for an empty on-board point, not the ko point, that has an empty cell at one of the source's offsets ±1 and ±size (the test `not_suicide` as written) |
| LegacyPlay.NotSuicideLegal | engine_DEPRECATED/src/board.rs:860-877 | a point the corrected test accepts (on the board, empty, not the ko point, with an empty neighbour at ±1 or ±(size + 2)) is a move the reference `PlayRef` plays |
| LegacyPlayout.NotSuicideCounterexample | engine_DEPRECATED/src/board.rs:864 | on a 9x9 board, point C8 has no empty neighbour but an empty cell at one of the offsets ±size |
| RewriteBoard.InitBoard | src/board.rs:113-128 | the loop builds exactly the reference empty board of the size |
| RewriteBoard.InitBoardShape | src/board.rs:113-128 | the empty board has `(size + 2)^2` cells, and exactly the ring is `Offboard` |
| RewriteBoard.Board.constructor | src/board.rs:61-69 | a new board is 19x19, with the empty cells of that size, no ko, zero counters, black to play and move 0 |
| RewriteBoard.ColorChar | src/board.rs:102-109 | a stone is shown as `X` or `0` |
| RewriteBoard.CellText | src/board.rs:77-81 | a sentinel cell is shown as nothing, every other cell as one character |
| RewriteBoard.LineRoundTrip | src/board.rs:74-81 | reading the folded line back gives the on-board cells in order, so the line has one character per playable cell |
| RewriteBoard.LineRenderAppend | src/board.rs:74-81 | the fold over two runs of cells is the concatenation of their folds |
| RewriteBoard.BreaksRow | src/board.rs:83-94 | each run of `size` characters stays together, with one newline before every run but the first |
| RewriteBoard.SpacedChars | src/board.rs:95 | every character of the output follows a space |
| RewriteBoard.Spaced | src/board.rs:95 | spacing doubles the length of the text |
| RewriteBoard.SpacedRoundTrip | src/board.rs:95-96 | dropping the spaces gives back the text before spacing |
| RewriteBoard.BreaksRoundTrip | src/board.rs:83-94 | dropping the newlines gives back the folded line |
| RewriteBoard.Render | src/board.rs:72-100 | reading the rendering back, without its spaces and newlines, gives the on-board cells of the board in order |
| Groups.Neighbors | src/groups.rs:17-27 | no neighbours for a sentinel cell; otherwise four distinct cells of the board, which are exactly the cells adjacent to it |
| Groups.Unseen | src/groups.rs:52-57 | the filter keeps exactly the cells not yet seen, in order, and keeps them distinct |
| Groups.SearchStart | src/groups.rs:36-42 | the starting worklist and seen set satisfy the search invariant |
| Groups.StepLiberty | src/groups.rs:48 | taking an empty cell from the worklist keeps the search invariant |
| Groups.StepSkip | src/groups.rs:47-67 | taking a cell of another state from the worklist keeps the search invariant |
| Groups.StepStone | src/groups.rs:49-64 | taking a stone of the colour keeps the search invariant, and the unseen cells or the worklist shrink |
| Groups.SearchDone | src/groups.rs:44-75 | with the worklist empty, the stones are the component of the start and the liberties are its empty neighbours |
| Groups.FindGroup | src/groups.rs:30-76 | the stones are the component of the start and the liberties its empty neighbours, plus the start when it is empty; each is listed once; the colour is the requested one; a start that is not a stone of the colour gives no stones |
| Update.ToBoardIndex | src/update.rs:117-119 | the corrected computation, with the source's cell formula: a cell exists exactly for row and column below the size, and it is then a playable cell of the board |
| Update.ToBoardIndexAsWritten | src/update.rs:107-124 | the source refuses a point exactly when `col + row * size` reaches `size^2`; an accepted point has its row inside the grid and a cell past the first stored row |
| Update.CellOf | src/update.rs:107-124 | the checked computation gives a cell exactly for points inside the grid; for a column inside the grid both computations give the cell of `ToBoardIndex` |
| Update.FromBoardIndex | src/update.rs:107-124 | a position exists exactly for a playable cell |
| Update.PositionRoundTrip | src/update.rs:107-124 | every position on the grid has a cell, and the position is read back from that cell |
| Update.CellRoundTrip | src/update.rs:107-124 | every playable cell is the cell of the position read back from it |
| Update.ToBoardIndexAgrees | src/update.rs:114-119 | for every column inside the grid the source's bounds test gives the checked answer |
| Update.ToBoardIndexAsWrittenFlaws | src/update.rs:114 | on the 9x9 board the source's test lets through three out-of-grid positions: one lands on the ring, one past the end, and one on the cell of another position |
| Update.AttemptCaptures | src/update.rs:36 | the capture step replaces the cells, ko point and counters by its outcome; the size, turn and move count stay |
| Update.LibertyTest | src/update.rs:37-49 | a non-empty liberty list from the group search decides the suicide test |
| Update.Judge | src/update.rs:34-55 | after placing, the ko test, the captures and the liberty test give the reference answer and new board |
| Update.Update | src/update.rs:28-96 | the answer and the new board are those of the reference `Apply` with the source's own cell computation, for every message except resignation whose point lies inside the stored cells |
| Update.PlaceStoneEffect | src/update.rs:61-76 | with either cell computation: placing succeeds exactly when the point has a cell and it is empty, and then sets only that cell; a refusal changes nothing; "out of bounds" comes exactly when there is no cell, and "Should be impossible how" exactly when the cell is on the ring, which the checked computation never gives |
| Update.PlacingEffect | src/update.rs:61-76 | the same as `PlaceStoneEffect`, for the placing step on its own |
| Update.PlaceStoneAsWrittenFlaws | src/update.rs:61-76 | on the empty 9x9 board the source places a stone for row 1, column 11 on the cell of row 0, column 0, and answers "Should be impossible how" for row 0, column 9, where the checked computation answers "out of bounds" for both; row 0, column 80 lies past the stored cells |
| Update.PlayEffect | src/update.rs:31-60 | with either cell computation: a move is accepted exactly when the colour is on turn, the point has an empty cell that is not the ko point, and the group has a liberty after captures; it then takes the captured board, clears ko, hands over the turn and counts one move; a refused move keeps the turn and the move count; a wrong colour is refused with nothing changed |
| Update.PlayRefusedAtPlacing | src/update.rs:31-33 | a move in turn that cannot be placed (no cell, an occupied cell or a ring cell) gets the placing step's own error, and the game is left as it was |
| Update.PlayOnKoKeepsStone | src/update.rs:33-54 | a move on the ko point is refused, yet its stone stays on the board |
| Update.PlaySuicide | src/update.rs:46-49 | a suicidal move is refused with its cell emptied again, keeping the turn and the move count |
| Update.ApplyKeepsGame | src/update.rs:28-96 | every message keeps the board well-formed; a refused one keeps the turn, move count and size; a refused non-move changes nothing; the empty message changes nothing; an accepted move or pass hands over the turn and counts one move |
| Update.ClearEffect | src/update.rs:84-90 | clearing gives the empty board of the size, no ko and zero counters, and keeps the size, turn and move count; clearing twice is clearing once |
| Update.SetSizeEffect | src/update.rs:91-94 | resizing is clearing at the new size, and gives a well-formed board of `(size + 2)^2` cells |
| Update.PassTwice | src/update.rs:77-82 | two passes give the turn back, count two moves, clear the ko point and change nothing else |

## Left out

- Message `Resign` of the rewrite is not modelled, because the source leaves it unimplemented (`todo!()`); `Update.Update` requires any other message.
- `random_intersection` is not modelled, because it draws from a random number generator.
- Komi is kept as a real number, the value 6.5 that `new` sets. Its floating-point arithmetic is not modelled. The area difference before komi is an unbounded integer.
- Capture counters, move numbers and the score tallies are unbounded naturals and integers. The `u16` and `i16` overflow of `+=` on them is not modelled; on boards of at most 19x19 those values stay far below the limits.
- Positions of the rewrite are unbounded naturals. The `u16` overflow of `row * size` inside `to_board_index` is not modelled.
- The rewrite's `attempt_captures` is declared nowhere in its source, so its outcome (cells, ko point, counters) is a parameter of `Update.Update`. The only assumptions are that its board keeps the bordered shape and that it keeps the size, the move number and the turn.
- Update.AttemptCaptures: states only that the outcome is written into the board. Nothing is said about which stones are captured, because the routine is not part of this model.
- RewriteBoard.Board.constructor: the rewrite's `Board` declares no `player_turn` and no `move_number`, though `update` reads and writes both; nor does it declare `opposite_color` or equality on `Color`, which `update` uses. The model supplies these. The starting values, black to play at move 0, are the model's choice, taken from the deprecated `Board::new` (engine_DEPRECATED/src/board.rs:145 and 151).
- `HashSet` and `VecDeque` are modelled as Dafny sets and sequences. Sets of intersections are kept as sets of cell indices, which is a bijection by the index round trips.
- The `Debug` output and the deprecated board's `Display` text are not modelled.
- LegacyBoard.Board.EstimateScore: the score is stated exactly, as the reference scan `LegacyScore.ScanTotals` computes it, and that scan counts a stone once for every area it borders, as the source does (`LegacyScore.ScanRecounts`). No lemma states that total as the Tromp-Taylor area score, because it is not one.
- LegacyTypes.IntersectionFromString: requires the first character to be ASCII. The source slices the first byte of the text, which panics when the first character takes more than one byte in UTF-8; with an ASCII first character the byte length test `len() < 2` is the character count test of the model.
- LegacyTypes.ColumnFromString: Unicode upper-casing is modelled only for the characters that upper-case onto an ASCII letter (`a`-`z`, `ſ`, `ı`); every other character is kept, which cannot change the answer because no other character upper-cases to a single ASCII letter.
- LegacyTypes.ColorFromString: Unicode lower-casing is modelled only for the characters that lower-case onto an ASCII letter (`A`-`Z` and the Kelvin sign), for the same reason.
- LegacyTypes.AddSignedToUnsigned: models a release build for the addend -32768, where the negation wraps and the cast refuses it; a debug build panics on that negation instead.
- Update.Update: requires the computed cell to lie inside the stored cells (`Update.InStore`). With the source's cell computation, a point such as row 0, column 80 on the 9x9 board gives a cell past the end, and the source's indexing panics there.
- The MCTS skeleton, the GTP loop, the HTTP listener and the process entry points are not part of this model.

## Findings

| source | as written | input that shows it | evidently intended | confidence | as-written member | corrected member |
|---|---|---|---|---|---|---|
| src/update.rs:114 | the bounds test is `col + row * size >= size^2`, which lets a column of `size` or more through | 9x9: row 0, column 9 gives cell 109, a ring cell ("Should be impossible how"); row 0, column 80 gives cell 180, past the 121 cells; row 1, column 11 gives cell 100, the cell of row 0, column 0 | refuse a position unless `row < size` and `col < size` | not executed | Update.ToBoardIndexAsWritten, Update.ToBoardIndexAsWrittenFlaws, Update.PlaceStoneAsWrittenFlaws | Update.ToBoardIndex, Update.CellOf |
| engine_DEPRECATED/src/board.rs:864 | `not_suicide` looks for an empty cell at offsets ±1 and ±size | 9x9, point C8 (cell 25) with black stones on its four neighbours: the offset +9 reaches the empty cell 34, so a liberty is reported that the point does not have | the vertical neighbours are at ±(size + 2) | not executed | LegacyBoard.Board.NotSuicideAsWritten, LegacyPlayout.NotSuicideCounterexample, LegacyBoard.Board.CanPlaceStoneAt | LegacyBoard.Board.NotSuicide, LegacyPlay.NotSuicideLegal |
