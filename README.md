# Three small programs, modelled in Dafny

This project models three programs from a collection of small Python scripts and proves what they promise.

- **2048** (`2048/2048.py`): the rules kernel of the terminal 2048 game.
  - The board is a sparse map from `(col, row)` to tiles on a 4-by-4 grid.
  - A move (`slide`) sweeps the grid from the target edge. Each tile steps into empty cells and merges at most once with an equal, not yet merged, neighbour. The move reports whether anything moved and the sum of the merged values.
  - The kernel also places a random 2 or 4 (`add_random_tile`), runs the loss test (`any_move`), takes the largest tile (`max_number`), and builds boards from nested lists (`board_from_list`).
- **twisty console** (`twisty_console.py`): `make_twisty` turns a console log into GitHub markdown. Each prompt line whose command is not blank becomes a `<details>` block. The block's summary is the HTML-escaped command; its body is the output up to the next prompt.
- **figurate** (`figurate/figurate0.py`, `figurate/figurate.py`): two programs that search for numbers common to all three centered figurate sequences (square, hexagonal and decagonal).
  - Both loops are k-way merges: sort the work list, then advance the head with the smallest value.
  - The first program works on iterators. The second works on `WorkItem(result, fn, n)` records and prints each formula's `n` next to every common value.

## Modules

Each file holds one module:

- `wrappers.dfy` (`Wrappers`): `Option` and `Result`.
- `grid.dfy` (`Grid`): cells, tiles and sums over the grid. A `Measure` selects what a sum adds up: numbers, tiles, merged flags, merged values or a potential.
- `slide.dfy` (`Slide`): one move, defined on values.
  - `Push` is the inner `while True` loop.
  - `Swept(t0, k, …)` is the state after the first `k` cells of the sweep order.
  - `SlideResult` is the whole move, with the flags cleared afterwards.
  - The lemmas cover totals, tile counts, score, packing, powers of two and the moved flag.
- `game2048.dfy` (`Game2048`): the class `Board`, with a `tiles` map field and methods that update it in place.
  - `Board.Slide` keeps the nested `for` loops and the `while` loop of the source. It is proved equal to `SlideResult`.
  - `Board.AnyMove` keeps the source's read-only loop with early returns.
  - The module also holds the game's status test and one turn of the game loop.
- `scenarios.dfy` (`Scenarios`): concrete boards: three single rows moved left, and boards for the status test.
- `twisty.dfy` (`Twisty`):
  - models of Python's `str.rstrip/strip/partition`, `in`, slicing, `join` and `html.escape`;
  - the value-level result `Twisty`;
  - the imperative `MakeTwisty` with its append loop, proved equal to `Twisty`;
  - the layout lemmas.
- `sorting.dfy` (`Sorting`): a stable insertion sort over pair keys, standing for Python's `sort`/`sorted`. It is proved to permute, to sort, to put the earliest minimal element first, and to keep elements that a projection tells apart told apart.
- `centered.dfy` (`Centered`): the three formulas and a reference ring-by-ring definition of centered polygonal numbers.
- `figurate0.dfy` (`Figurate0`): the first program. There is a pure step function and a bounded loop method proved against it, plus the lemmas about what gets reported.
- `figurate.dfy` (`Figurate`): the second program.
  - It holds a pure step and run, and the loop method `Iterate` with one iteration in `Iteration`, proved against `Run`.
  - It models `n_values` and the default or explicit starts.

Randomness, the clock, standard input, `sys.argv` and printing are outside the model:

- The random choices of `add_random_tile` are parameters: an index `pick` into the empty cells and a flag `four`.
- The infinite loops of the figurate programs run a given number of `steps`.
- What a figurate program "prints" is the list of values or `Report`s it would print. A raised exception is a `Failure` carrying the exception's name.

The status test of the game loop checks for a loss before a win, and the win test asks for a largest tile exactly equal to 2048 (`2048/2048.py:124-129`). So a stuck board holding a 2048 is lost, and a board whose largest tile is 4096 is never won: it plays on while it can move, and is lost once it is stuck.

## Model

| member | source | states |
|---|---|---|
| Grid.Empties | 2048/2048.py:47-48 | the empty cells of the board: each is on the grid and not a key, every empty grid cell is listed, and there are N*N minus the number of tiles |
| Grid.AllCellsDistinct | 2048/2048.py:47 | the list of all squares names no cell twice |
| Grid.AllCellsCover | 2048/2048.py:47 | every cell of the 4-by-4 grid is among all squares |
| Grid.AllCellsInBounds | 2048/2048.py:47 | every listed square is on the grid |
| Grid.CountIsSize | 2048/2048.py:93 | on a board whose keys are grid cells, counting occupied cells gives the number of tiles |
| Grid.FlagsAtMostTiles | 2048/2048.py:78-84 | a merged flag sits on a tile, so a board never has more merged flags than tiles |
| Grid.FullCovers | 2048/2048.py:93-97 | a board of N*N tiles on the grid has a tile on every cell, so any_move's dictionary lookup cannot fail |
| Grid.AllCellsOccupied | 2048/2048.py:93 | a board with a tile on every grid cell holds exactly N*N tiles |
| Grid.SumChange | 2048/2048.py:73-84 | changing a board at one cell changes any sum over the board by the change at that cell |
| Slide.SweepCellIndex | 2048/2048.py:54-63 | the k-th cell of the sweep is on the grid, and the sweep visits it at step k |
| Slide.SweepCellAt | 2048/2048.py:54-63 | every cell of the grid is visited by the sweep, at the step SweepIndex gives |
| Slide.SweepIndexInjective | 2048/2048.py:54-63 | no two cells of the grid are visited at the same step |
| Slide.Push | 2048/2048.py:67-86 | definition of the inner `while True` for one tile: stop at the edge, step into an empty cell and go on, merge into an equal unmerged tile and stop, otherwise stop; PushStops, PushSteps and PushMerges state its three outcomes |
| Slide.NextVisitedEarlier | 2048/2048.py:54-69 | the cell a tile moves toward was visited earlier in the sweep and is one step nearer the target edge |
| Slide.PushStops | 2048/2048.py:70-86 | at the edge, or before an unequal or already merged tile, the push leaves the state unchanged |
| Slide.PushSteps | 2048/2048.py:73-77 | into an empty cell the tile moves one cell, the move is recorded, and the push goes on from the new cell |
| Slide.PushMerges | 2048/2048.py:78-84 | into an equal tile not yet merged: the source is deleted, the destination becomes the doubled, flagged tile, the score grows by the new value, and the move is recorded |
| Slide.ClearFlags | 2048/2048.py:87-88 | the same cells and numbers, with every merged flag cleared |
| Slide.Swept | 2048/2048.py:54-86 | definition of the first k iterations of the nested loops, in sweep order, over the shared tiles, score and moved flag; SweptFrame to SweptMovedStays state what every prefix keeps |
| Slide.SlideResult | 2048/2048.py:53-90 | definition of a whole move: the full sweep, then every flag cleared, returning moved and the score; SlideKeepsBoardValid to MovedLeavesRoom state its properties |
| Slide.PushFrame | 2048/2048.py:67-86 | a push changes only its own cell and cells already visited, keeps tiles on the grid, and never clears the moved flag |
| Slide.PushTotal | 2048/2048.py:73-84 | a push keeps the total of the tile numbers |
| Slide.PushCountScore | 2048/2048.py:78-84 | a push trades one tile for one merged flag per merge, and grows the score by exactly the new merged values |
| Slide.PushPotential | 2048/2048.py:73-84 | a push either changes nothing, or records a move and strictly lowers the distance of the tiles to the target edge |
| Slide.PushPacking | 2048/2048.py:67-86 | after a push, no visited tile has an empty cell ahead of it toward the target edge |
| Slide.PushPowers | 2048/2048.py:78-80 | a merge adds two equal numbers, so tiles that are powers of two at least 2 stay so |
| Slide.PushMovedFlag | 2048/2048.py:77-83 | a push that leaves the moved flag clear changed nothing |
| Slide.SweptFrame | 2048/2048.py:63-86 | cells the sweep has not reached still hold the tiles they started with |
| Slide.SweptTotal | 2048/2048.py:63-86 | every prefix of the sweep keeps the total of the numbers |
| Slide.SweptCountScore | 2048/2048.py:61-84 | after any prefix of the sweep, tiles plus merged flags are the initial tile count, and the score is the sum of the flagged tiles |
| Slide.SweptPotential | 2048/2048.py:62-84 | after any prefix of the sweep, either the board is untouched with score 0, or something moved and the potential fell |
| Slide.SweptPacked | 2048/2048.py:63-86 | after the first k steps, no tile at a visited cell has an empty cell ahead of it |
| Slide.SweptPowers | 2048/2048.py:78-80 | every prefix of the sweep keeps all tiles powers of two |
| Slide.SweptStill | 2048/2048.py:62-83 | while nothing has moved, every earlier prefix of the sweep left the board as it was |
| Slide.SweptMovedStays | 2048/2048.py:62-83 | once the sweep has moved something, it reports a move |
| Slide.SlideKeepsBoardValid | 2048/2048.py:53-90 | after a move every tile is on the grid and no merged flag is set |
| Slide.SlideConservesTotal | 2048/2048.py:73-84 | a move keeps the sum of all tile numbers |
| Slide.SlideCountAndScore | 2048/2048.py:61-90 | the tile count drops by exactly the number of merges; the score is the sum of the merged values, and 0 without merges |
| Slide.SlidePacks | 2048/2048.py:54-77 | after a move no tile has an empty in-bounds cell next to it in the direction of the move |
| Slide.SlideMovedIffChanged | 2048/2048.py:62-90 | any_moved holds exactly when the tile map changed; without a move the score is 0 |
| Slide.SlideKeepsPowersOfTwo | 2048/2048.py:78-80 | a move keeps every tile a power of two of at least 2 |
| Slide.MovedFullBoardFreesCell | 2048/2048.py:73-84 | a move that changes a full board merges at least once, so it frees a cell |
| Slide.MovedLeavesRoom | 2048/2048.py:133-135 | after a move that moved something the board has an empty cell, so the new random tile always fits |
| Slide.SlideKeepsTiles | 2048/2048.py:53-90 | a move never empties a board that holds tiles, so the status test after a move never sees an empty board |
| Game2048.MovesAreTheFourDirections | 2048/2048.py:107-112 | the four keys give exactly the four unit directions, each once |
| Game2048.MaxOver | 2048/2048.py:104-105 | None exactly when no listed cell holds a tile; otherwise a number held by a tile and at least every tile's number |
| Game2048.MaxOverAll | 2048/2048.py:104-105 | over the whole grid: None exactly for the empty board, otherwise the largest tile number on the board |
| Game2048.NewTile | 2048/2048.py:50-51 | the new tile is a 2 or a 4 and is not flagged |
| Game2048.Status | 2048/2048.py:124-129 | on a board with at least one tile: lost exactly when any_move fails, which is exactly when no direction moves anything; won exactly when the board can move and its largest tile is 2048 |
| Game2048.Board.constructor | 2048/2048.py:15-16 | a new board is empty |
| Game2048.Board.AddRandomTile | 2048/2048.py:46-51 | fails on a full board and leaves it unchanged (random.choice of an empty list raises); otherwise adds one 2 or 4 at the chosen empty in-bounds cell and leaves every other cell as it was |
| Game2048.Board.Slide | 2048/2048.py:53-90 | the new tiles, any_moved and merged are those of SlideResult, with no flag left set; the total is kept, merged is the sum of the merged values, the count drops by the merges, any_moved holds exactly when the map changed, and the tiles are packed toward the move |
| Game2048.Board.SweepBoard | 2048/2048.py:54-86 | the nested loops over rows and columns, in sweep order, leave the state of the full sweep Swept(…, N*N, …) |
| Game2048.Board.Advance | 2048/2048.py:64-86 | the inner `while True` on one tile leaves the board, score and moved flag that Push gives |
| Game2048.Board.ClearMergedFlags | 2048/2048.py:87-88 | the board with every merged flag reset and nothing else changed |
| Game2048.Board.AnyMove | 2048/2048.py:92-102 | true exactly when the board has an empty cell or two orthogonal neighbours with equal numbers |
| Game2048.Board.MaxNumber | 2048/2048.py:104-105 | None exactly for the empty board (where max raises); otherwise a number on the board that is at least every tile's number |
| Game2048.Board.Turn | 2048/2048.py:130-135 | an unknown key changes nothing; a known key slides; a move that moved something adds its score and one new tile in a free cell; one that did not leaves the board and score alone |
| Game2048.StuckBoardCannotMove | 2048/2048.py:92-102 | when any_move fails, every direction leaves the board unchanged and scores nothing |
| Game2048.StuckSweepIsStill | 2048/2048.py:54-102 | when any_move fails, every prefix of the sweep leaves the board as it was and records no move |
| Game2048.CanMoveIffSomeMove | 2048/2048.py:92-102 | on a board with at least one tile, any_move holds exactly when some direction of MOVES would move something (on the empty board any_move holds, yet no direction moves anything) |
| Game2048.EqualNeighboursMove | 2048/2048.py:78-101 | two equal neighbours mean the board moves in the direction from one toward the other, the case any_move's early return relies on |
| Game2048.BlockedEverywhereIsFull | 2048/2048.py:93-101 | if no tile has an empty neighbour, a non-empty board covers the grid |
| Game2048.TilesFromList | 2048/2048.py:137-143 | a tile, unflagged, exactly at each cell with a non-zero number, and tiles on the grid when the lists fit the grid |
| Game2048.RowTiles | 2048/2048.py:140-142 | the tiles of one row: exactly the non-zero numbers of the first k columns |
| Game2048.FromListStep | 2048/2048.py:139-142 | each outer iteration adds the tiles of its row |
| Game2048.BoardFromList | 2048/2048.py:137-143 | the nested loops build the board TilesFromList describes |
| Scenarios.LeftMergesPair | 2048/2048.py:78-84 | [2, 2, 0, 0] moved left gives [4, 0, 0, 0], a move and score 4 |
| Scenarios.LeftMergesFirstPairOnly | 2048/2048.py:78-84 | [2, 2, 2, 0] moved left gives [4, 2, 0, 0] with score 4 |
| Scenarios.LeftMergesOncePerTile | 2048/2048.py:78-84 | [2, 2, 4, 0] moved left gives [4, 4, 0, 0] with score 4: a merged tile does not merge again |
| Scenarios.StuckBoardLoses | 2048/2048.py:124-129 | a full checkered board holding a 2048 is lost, not won, because the loss test comes first |
| Scenarios.TileOf2048Wins | 2048/2048.py:127-128 | a board whose largest tile is 2048 and that can move is won |
| Scenarios.LargerTileDoesNotWin | 2048/2048.py:127-128 | a 4096 beside a 2048 plays on: the win test asks for exactly 2048 |
| Twisty.StripEmptyIffBlank | twisty_console.py:25 | `strip()` leaves nothing exactly when the text is all whitespace |
| Twisty.FindFromSpec | twisty_console.py:21-24 | the search finds the first occurrence at or after a position, and None means there is none |
| Twisty.ContainsIffMatch | twisty_console.py:21 | `pat in s` holds exactly when pat occurs somewhere in s |
| Twisty.AfterSpec | twisty_console.py:24 | `partition(sep)[2]` is the text after the first occurrence of sep, and empty without one |
| Twisty.After | twisty_console.py:24 | definition of `partition(sep)[2]` through the first match; AfterSpec states its meaning |
| Twisty.LinesContainingSound | twisty_console.py:21 | every listed line number is a line containing the pattern |
| Twisty.LinesContainingComplete | twisty_console.py:21 | every line containing the pattern is listed |
| Twisty.LinesContainingOrdered | twisty_console.py:21 | the line numbers come in increasing order |
| Twisty.PromptLineNumsSpec | twisty_console.py:21 | prompt_line_nums lists exactly the lines containing `prompt.rstrip()`, in increasing order |
| Twisty.PySliceInRange | twisty_console.py:29 | within range, Python's slice keeps the elements from start up to stop |
| Twisty.PySliceNegativeStop | twisty_console.py:23-29 | a stop of -d leaves out the last d lines |
| Twisty.PySliceEmpty | twisty_console.py:29 | a slice starting at or after its stop is empty |
| Twisty.PySlice | twisty_console.py:29 | definition of Python slicing with negative and out-of-range bounds clamped; PySliceInRange, PySliceNegativeStop and PySliceEmpty state its cases |
| Twisty.JoinAppend | twisty_console.py:29-32 | joining one more string appends the separator and that string |
| Twisty.EscapedHasNoMarkup | twisty_console.py:27 | html.escape leaves no raw <, >, " or ' |
| Twisty.UnescapeEscape | twisty_console.py:27 | the escaped summary can be read back to the command: unescaping inverts escaping |
| Twisty.HtmlEscape | twisty_console.py:27 | definition of html.escape, character by character; EscapedHasNoMarkup and UnescapeEscape state its properties |
| Twisty.EscapeKeepsNonBlank | twisty_console.py:25-27 | escaping keeps a non-blank command non-blank |
| Twisty.SpansSound | twisty_console.py:23-26 | every kept (pnum, npnum) pair belongs to a prompt line whose command is not blank |
| Twisty.SpansComplete | twisty_console.py:23-26 | every prompt line whose command is not blank has its pair kept |
| Twisty.SpansOrdered | twisty_console.py:21-23 | the kept pairs are in the order of their prompt lines |
| Twisty.Spans | twisty_console.py:23-26 | the (pnum, npnum) pairs kept by the loop, each starting at a line of the input; SpansSound, SpansComplete and SpansOrdered state which pairs these are |
| Twisty.SummariesShowCommand | twisty_console.py:24-27 | each summary is non-blank, holds no raw markup, and unescapes to the command after the prompt |
| Twisty.PiecesSpec | twisty_console.py:27-31 | block j contributes pieces 4j to 4j+3, the four that twprint appends |
| Twisty.Twisty | twisty_console.py:17-32 | a successful result always ends with a newline |
| Twisty.EmitBlock | twisty_console.py:24-31 | one pass of the loop appends the pieces of its block, or nothing when the command is blank |
| Twisty.EmitBlocks | twisty_console.py:19-31 | the loop over all pairs appends the pieces of every kept block, in order |
| Twisty.MakeTwisty | twisty_console.py:17-32 | the imperative make_twisty returns exactly Twisty |
| Twisty.TwistyFailsIff | twisty_console.py:21-24 | the only failure is an empty prompt, and it fails exactly when there is a line (every line contains "", and partition rejects an empty separator) |
| Twisty.TwistyWithoutPrompts | twisty_console.py:19-32 | without prompt lines the output is exactly "\n" |
| Twisty.TwistyLayout | twisty_console.py:19-32 | the output is the pieces of the blocks joined by newlines plus a final newline, four pieces per block: the summary, the fence, the body and the closing fence |
| Twisty.BlockLines | twisty_console.py:21-27 | a block is made for a line exactly when the line contains `prompt.rstrip()` and its command after the first prompt is not blank |
| Twisty.BlocksInLineOrder | twisty_console.py:21-23 | the blocks appear in the order of their prompt lines |
| Twisty.BlockEndsAtNextPrompt | twisty_console.py:23 | a block's npnum is the next prompt line, with no prompt line between, or -1 when no prompt line follows |
| Twisty.BodyBetweenPrompts | twisty_console.py:29 | a body is exactly lines[pnum+1 : npnum-nbefore] joined by newlines |
| Twisty.Body | twisty_console.py:29 | definition of a block body, `lines[pnum+1 : npnum-nbefore]` joined by newlines; BodyBetweenPrompts and BodyOfLastPrompt state its two cases |
| Twisty.BodyOfLastPrompt | twisty_console.py:23-29 | for the last prompt, the stop -1-nbefore leaves out the last 1+nbefore lines |
| Sorting.SortByPerm | figurate/figurate0.py:13-22 | sorting permutes its input: same multiset, same members |
| Sorting.SortBySorted | figurate/figurate0.py:13-22 | the result of the sort is ordered by key |
| Sorting.SortByFirstMinimal | figurate/figurate0.py:15-23 | the first element after sorting is in the input and no element is smaller |
| Sorting.SortByFirst | figurate/figurate.py:58 | stability at the head: the earliest of the minimal elements comes first |
| Sorting.SortByDistinct | figurate/figurate.py:42-58 | sorting keeps elements that a projection tells apart told apart |
| Sorting.UpdateMembers | figurate/figurate0.py:23 | replacing one element changes the members by that element alone |
| Centered.Centered4 | figurate/figurate0.py:28-29 | definition of centered_4, n² + (n-1)²; Centered4IsPolygonal ties it to the ring count |
| Centered.Centered6 | figurate/figurate0.py:31-32 | definition of centered_6, n³ - (n-1)³; Centered6IsPolygonal ties it to the ring count |
| Centered.Centered10 | figurate/figurate0.py:34-35 | definition of centered_10, 5n² - 5n + 1; Centered10IsPolygonal ties it to the ring count |
| Centered.Centered4IsPolygonal | figurate/figurate0.py:28-29 | centered_4 agrees with the ring-by-ring count of centered squares |
| Centered.Centered6IsPolygonal | figurate/figurate0.py:31-32 | centered_6 agrees with the ring-by-ring count of centered hexagons |
| Centered.Centered10IsPolygonal | figurate/figurate0.py:34-35 | centered_10 agrees with the ring-by-ring count of centered decagons |
| Centered.PolygonalIncreasing | figurate/figurate0.py:28-35 | with k > 0 the centered k-gonal numbers start at 1 and strictly increase |
| Centered.Centered4ClosedForm | figurate/figurate0.py:28-29 | centered_4(n) = 2n² - 2n + 1 |
| Centered.Centered6ClosedForm | figurate/figurate0.py:31-32 | centered_6(n) = n³ - (n-1)³ = 3n² - 3n + 1 |
| Centered.Centered4Increasing | figurate/figurate0.py:28-29 | centered_4 is 1 at n = 1 and strictly increasing from there |
| Centered.Centered6Increasing | figurate/figurate0.py:31-32 | centered_6 is 1 at n = 1 and strictly increasing from there |
| Centered.Centered10Increasing | figurate/figurate0.py:34-35 | centered_10 is 1 at n = 1 and strictly increasing from there |
| Figurate0.StartWork | figurate/figurate0.py:12-13 | the sorted initial work: one entry per sequence, every index in range |
| Figurate0.Step | figurate/figurate0.py:22-23 | a step keeps the number of entries and their indices in range |
| Figurate0.StepSpec | figurate/figurate0.py:10-23 | a step sorts the work, a permutation, with the smallest (value, index) head first; it advances that entry and leaves the others as they are |
| Figurate0.StepMembers | figurate/figurate0.py:22-23 | after a step the entries are the old ones, except the advanced head |
| Figurate0.AdvanceGrows | figurate/figurate0.py:23 | for a strictly increasing sequence, drawing moves its head strictly up |
| Figurate0.StartWorkInv | figurate/figurate0.py:12-13 | the initial work has every entry faithful to its sequence and one per sequence |
| Figurate0.StepInv | figurate/figurate0.py:22-23 | a step keeps every entry faithful to its sequence and one per sequence |
| Figurate0.Reported | figurate/figurate0.py:16-23 | definition of the values the loop prints in `steps` iterations: the head value when every head agrees on it, then the rest from the stepped work; ReportedCommon and ReportedSkip state the two branches |
| Figurate0.Intersect | figurate/figurate0.py:3-23 | definition of the bounded program: IndexError with no sequences (`work[0]`), otherwise the reports from the sorted initial work; IntersectSpec states its properties |
| Figurate0.IntersectMonotonicSequences | figurate/figurate0.py:3-23 | the program's bounded run: it fails when there are no sequences, and otherwise returns the values of Intersect |
| Figurate0.Iterate | figurate/figurate0.py:16-23 | the loop reports exactly the values of Reported over the given iterations |
| Figurate0.ReportedCommon | figurate/figurate0.py:19-23 | when every head agrees on the smallest value, the iteration reports it and continues from the stepped work |
| Figurate0.ReportedSkip | figurate/figurate0.py:19-23 | when the heads disagree, the iteration reports nothing and continues from the stepped work |
| Figurate0.ReportedOccursInAll | figurate/figurate0.py:19-20 | every reported value occurs in every sequence |
| Figurate0.StepAbove | figurate/figurate0.py:22-23 | for strictly increasing sequences, a step keeps every head at least lo and one above it: heads never fall back |
| Figurate0.StepPastCommon | figurate/figurate0.py:19-23 | after reporting a common value, the step takes one head strictly past it |
| Figurate0.ReportedAbove | figurate/figurate0.py:16-23 | once all heads are at least lo and one is above, later reports are above lo and ascending |
| Figurate0.ReportedAscending | figurate/figurate0.py:4-23 | for strictly increasing sequences the reports strictly ascend, so no common value is reported twice |
| Figurate0.IntersectSpec | figurate/figurate0.py:3-23 | fails exactly when there are no sequences; every report occurs in all sequences; for strictly increasing sequences the reports strictly increase |
| Figurate0.CenteredSequencesIncreasing | figurate/figurate0.py:37-41 | the three centered sequences counted from 1 are strictly increasing, so they meet the program's monotonicity demand |
| Figurate0.CenteredSequencesStart | figurate/figurate0.py:37-41 | the module-level run has three sequences, all starting at 1 |
| Figurate0.StartAllAt | figurate/figurate0.py:12-13 | when every sequence starts at v, every head is v after the initial sort |
| Figurate0.ReportsCommonFirst | figurate/figurate0.py:19-20 | when every head holds v, the first iteration reports v |
| Figurate0.IntersectReportsCommonStart | figurate/figurate0.py:12-20 | when every sequence starts at the same value, that value is the first report |
| Figurate.ItemKeyOrders | figurate/figurate.py:27-28 | the sort key orders work items exactly as `__lt__` does: by result alone |
| Figurate.IndexOf | figurate/figurate.py:32 | `fns.index`: the first position holding f, and the length exactly when f is absent |
| Figurate.NsAt | figurate/figurate.py:33 | the n values are listed in the order of the items |
| Figurate.SortByFnPlacesItems | figurate/figurate.py:32 | sorting one item per formula by the formula's position puts the item for fns[i] at position i |
| Figurate.NValuesInFnOrder | figurate/figurate.py:30-34 | n_values lists, for each formula in fns order, the n of the item with that formula, whatever the order of the work |
| Figurate.NValues | figurate/figurate.py:30-34 | definition of n_values: ValueError when an item's formula is not in fns, otherwise the n of the items sorted by the position of their formula; NValuesInFnOrder states the result |
| Figurate.Step | figurate/figurate.py:58-60 | a step keeps the number of items |
| Figurate.StepAdvancesSmallest | figurate/figurate.py:58-60 | a step advances the earliest of the items with the smallest result, and leaves every other item as it was |
| Figurate.StepMembers | figurate/figurate.py:58-60 | after a step the items are the old ones, except the advanced head |
| Figurate.StepConsistent | figurate/figurate.py:58-60 | a step keeps every result equal to its formula applied to its n |
| Figurate.StepOnePerFormula | figurate/figurate.py:58-60 | a step keeps exactly one item per formula |
| Figurate.ShouldReportIffAllAgree | figurate/figurate.py:55 | the report test holds exactly when every result equals result0: the comparison with work[1] adds nothing |
| Figurate.Found | figurate/figurate.py:55-57 | definition of what one iteration prints: a line of result0 and n_values when the report test passes, nothing otherwise, and n_values' error if it raises; FoundSatisfies and FoundListed state its properties |
| Figurate.Run | figurate/figurate.py:48-60 | definition of `steps` iterations: IndexError at `work[1]` with a single item, otherwise the lines of Found, then the run from the stepped work; RunFailure and RunSatisfies state its properties |
| Figurate.ZipItemsAt | figurate/figurate.py:42 | item i of the zip is WorkItem(fn(start), fn, start) for start i and formula i |
| Figurate.InitialWork | figurate/figurate.py:42 | definition of the sorted initial work, one item for each pair of zip(starts, fns); InitialWorkSorted states what it is |
| Figurate.InitialWorkSorted | figurate/figurate.py:42 | the initial work is a permutation of the items of zip(starts, fns), sorted by result |
| Figurate.Intersect | figurate/figurate.py:40-60 | definition of the bounded program: IndexError at `work[0]` with no items, otherwise Run from the initial work; IntersectSpec states its properties |
| Figurate.InitialConsistent | figurate/figurate.py:42 | every initial result is its formula applied to its n, with the formula from fns |
| Figurate.InitialOnePerFormula | figurate/figurate.py:42 | with one start per distinct formula, the initial work holds one item per formula |
| Figurate.InitialNValues | figurate/figurate.py:30-42 | on the initial work n_values gives back the starts |
| Figurate.RunShort | figurate/figurate.py:55 | with a single item, `work[1]` raises IndexError |
| Figurate.RunFoundFails | figurate/figurate.py:55-57 | an iteration whose n_values raises ends the run with that exception |
| Figurate.RunStep | figurate/figurate.py:55-60 | an iteration that raises nothing adds its lines and leaves the rest to the next work |
| Figurate.Iteration | figurate/figurate.py:55-60 | one pass of the loop body either raises, or prints its line and steps the work, leaving the rest of the run unchanged |
| Figurate.Iterate | figurate/figurate.py:48-60 | the loop prints exactly the lines of Run, or raises what Run raises |
| Figurate.IntersectMonotonicSequences | figurate/figurate.py:40-60 | the program's bounded run returns exactly Intersect |
| Figurate.FoundSatisfies | figurate/figurate.py:55-57 | with one consistent item per formula, an iteration raises nothing, and each line it prints gives an n per formula that maps to the printed value |
| Figurate.FoundListed | figurate/figurate.py:30-34 | when every item's formula is in fns, `fns.index` never raises |
| Figurate.RunFailure | figurate/figurate.py:42-60 | on consistent work, the run raises exactly when it iterates on a single item |
| Figurate.RunSatisfies | figurate/figurate.py:48-60 | every line printed gives, for each formula in fns order, an n at which that formula takes the printed value |
| Figurate.IntersectSpec | figurate/figurate.py:40-60 | raises exactly with no items, or with one item once it iterates; with one start per distinct formula every printed line satisfies all formulas |
| Figurate.InitialAllAt | figurate/figurate.py:42 | when every formula gives v at its start, every initial result is v |
| Figurate.CommonStartFound | figurate/figurate.py:42-57 | when every formula gives v at its start, the first iteration prints v with the starts |
| Figurate.InitialStepRaisesNothing | figurate/figurate.py:48-60 | from the initial work, the iterations after the first raise nothing |
| Figurate.IntersectFirstLine | figurate/figurate.py:42-57 | when the first iteration prints one line and the rest of the run raises nothing, the run succeeds and that line comes first |
| Figurate.IntersectReportsCommonStart | figurate/figurate.py:42-57 | when every formula gives the same value at its start, the first printed line is that value with the starts |
| Figurate.StartsSpec | figurate/figurate.py:80-84 | arguments must give one start per formula (AssertionError otherwise); without arguments every start is 1 |
| Figurate.DefaultRunAgreesAtOne | figurate/figurate.py:65-84 | the three formulas are distinct and all give 1 at the default start 1 |
| Figurate.Starts | figurate/figurate.py:80-84 | definition of the starts: the arguments when there is one per formula, AssertionError for any other non-empty count, all 1s without arguments; StartsSpec states it |
| Figurate.ProgramSpec | figurate/figurate.py:74-86 | the module-level run raises only on a wrong number of arguments, and every line it prints satisfies all three formulas |

## Left out

- Game2048.Status: requires a board with at least one tile; on the empty board `max_number` would raise. The game never tests an empty board: it adds two tiles before the first test (`2048/2048.py:115-117`), and a move never empties a board (`Slide.SlideKeepsTiles`).
- `Board.draw` and the interactive `game()` loop: terminal output and `input()`. One turn of the loop (status test, key, slide, new tile) is modelled as `Board.Turn` and `Status`.
- The probabilities of `add_random_tile`: `random.choice` and `random.random() < .9` are replaced by the parameters `pick` and `four`.
- `Board.Slide`: requires one of the four unit directions. The game calls it only with the values of `MOVES`; a (0, 0) move, where a tile would merge with itself, is not modelled.
- `Tile` objects are values (a datatype): the source never shares one tile between two cells, so aliasing cannot be observed.
- `main` of twisty_console.py (stdin, argv, the module-level call) and `str.splitlines`: the model takes the list of lines as input.
- `Twisty.HtmlEscape`: models `html.escape` with its default `quote=True` as the five substitutions; the escape of `&` is among them. The summary keeps the command readable (`UnescapeEscape`) rather than being stated free of `&`.
- `str.isspace` is modelled by its list of whitespace characters; Unicode properties beyond that list are not.
- The infinite loops of both figurate programs run a given number of iterations, and the infinite iterators are functions from position to value.
- Figurate0.Advance: each entry keeps its own count of values drawn from its sequence. Two behaviours of Python iterators are therefore not modelled. If the same iterator object is passed twice, `next` on one entry also advances the other. A finite iterator raises StopIteration when it runs out.
- Formatting of the printed values (`{v0:,}`, the `ns` string joined by spaces) and the printing itself: a line is a value, or a value with the list of n.
- figurate.py's progress output: `OnceEvery` (wall clock), `upto`/`PRINT_EVERY`/`PRINT_PAUSE` and the `\r` progress line. So is the `KeyboardInterrupt` handler, which only prints a newline and re-raises.
- `sys.argv` parsing with `int()`: `Starts` takes the arguments as integers.
- `Figurate.Formula`: `fn` is a callable in the source; the model names the three formulas, and `fns.index` compares those names.
- `Sorting.SortBy`: an insertion sort by key stands for Python's stable sort. Proved about ties: only that the earliest minimal element comes first (`SortByFirst`). For `n_values`, whose keys are distinct, `SortByFnPlacesItems` proves where each item lands, which does not depend on stability. Equality with timsort's output on ties further down the list is not stated.
- `Figurate0.ReportedAscending`: states order and non-repetition of the reports, not completeness. The model does not prove that every common value is eventually reported.
- `Figurate.RunSatisfies`: states that every printed line is a common value with its n per formula. It does not state that reports ascend, which holds for the centered formulas only from n = 1 on, while starts may be any integers.
- The concrete module-level runs, with the three centered sequences from 1 and the default starts of figurate.py, are stated by the general lemmas and the facts about their inputs:
  - `IntersectReportsCommonStart` with `CenteredSequencesStart`, and with `DefaultRunAgreesAtOne` and `StartsSpec`;
  - no lemma evaluates the literal run itself.
