# Connect-N with Monte Carlo tree search, in Dafny

A model of the game-playing core of a Unity Connect-N game. The human player
plays against the computer, which picks its column by a root-parallel Monte
Carlo tree search. The project has three modules, one per source file of the
core:

- `Board` (`board.dfy`, after `Assets/Scripts/Field.cs`): the board.
  - The class `Field` keeps the grid in a two-dimensional array
    `field[x, y]`, where column `x` runs left to right and row 0 is the top.
    It also keeps the turn flag, the piece counter and the last move.
  - Its methods update the board in place. Each one is proved against a
    function of the board's abstract value `State` (`Dropped`, `Switched`,
    `Drops`, `Victory`).
  - The invariant `Valid()` ties the array to that value, keeps the
    counter equal to the number of occupied cells and keeps every column
    settled: no piece floats above an empty cell. A column is then full
    exactly when its top cell is occupied.
  - The incremental win check `CheckForVictory` is proved equal to
    `Victory`. The lemma `VictoryIffLine` then restates it without
    counting: the last piece lies on a line of `piecesToWin` pieces of its
    colour. The line runs downwards, along the row or, when allowed, along
    a diagonal.
- `Search` (`search.dfy`, after `Assets/Scripts/Tree.cs`): the search tree.
  - The nodes of a tree live in an arena, the sequence `nodes` of the class
    `Tree`. A node is referred to by its index, the parent link is an
    optional index, and the children dictionary is the sequence of its
    entries in insertion order.
  - The arena invariant: parents come first, parent and child links agree,
    a node's child columns are distinct, and `0 <= wins <= plays`.
  - `Tracks(s0)` states that each child column is a legal move of its
    parent's board. The board at a node, `StateAt`, is the root board with
    the moves on the path to that node played in turn. Each child also
    carries the turn of its parent's board.
  - `SelectNodeToExpand`, `Expand` and `BackPropagate` change the tree and
    keep that invariant. `Simulate` plays on its own board and
    `MostSelectedMove` only reads the entries it is given. Each is proved
    to do what `Tree.cs` does, branch for branch.
  - Between iterations of the search, a node has been played at least as
    often as all its children together (`PlaysCoverChildren`). Adding a
    child and propagating a result both keep this.
- `GameControl` (`controller.dfy`, after
  `Assets/Scripts/GameController.cs`): the search orchestration.
  - The win-length clamp of `InitializeGame`.
  - One search worker (`ExpandTree`): a fresh copy of the board for every
    iteration, and a root that has been played once per iteration.
  - The merge of the workers' root children in `CalculateRow`. The merged
    root holds one entry per column tried by some worker, with that
    column's wins and plays summed over all workers.
  - The choice of the computer's column. It is a legal column. On an empty
    board it is a random legal column, and no search runs.
  - `CalculateRow` has no `modifies` clause, so the real board is not
    changed by the search.

Two behaviours of the source are kept exactly:

- `Clone` does not copy the last move, so a worker's board reports its
  last move as `(0, 0)` (`SearchRoot`).
- `Expand` tags the new node with the turn as it was before its move is
  played.

The model of `Expand` plays the move on the board before it adds the node to
the tree. The board and the tree are separate objects, so the result is the
same.

Random choices are arbitrary choices (`:|`); every contract holds whichever
value is picked. A win rate `(double)wins / (double)plays` is modelled by
the datatype `Rate`. A rate is an exact fraction with a positive
denominator, or a signed infinity or not-a-number for zero plays.
Comparison follows the `>` of doubles on the infinities and not-a-number,
and is the exact order of fractions otherwise: for positive play counts it
is the cross-multiplication order (`GtIsRatioOrder`). The double quotient
is rounded, so the exact order is that of the source only while the play
counts stay small (see `Search.RateOf` under "Left out").

## Model

| member | source | states |
|---|---|---|
| Board.HighestEmpty | Assets/Scripts/Field.cs:119-129 | the landing row is the highest-indexed empty row, every row below it is occupied, and it is -1 exactly for a full column |
| Board.PossibleDrops | Assets/Scripts/Field.cs:83-98 | the legal columns are strictly increasing and are exactly the columns that are not full |
| Board.FilledInPlace | Assets/Scripts/Field.cs:123-124 | putting a piece into an empty cell of a column adds one to that column's count |
| Board.FilledPlace | Assets/Scripts/Field.cs:123-124 | putting a piece into an empty cell of the grid adds one to the occupied-cell count, matching `piecesNumber += 1` |
| Board.FilledInBound | Assets/Scripts/Field.cs:132-143 | a column holds at most as many pieces as it has cells, and exactly that many iff it is full |
| Board.FilledBound | Assets/Scripts/Field.cs:331-334 | a grid holds at most `rows * columns` pieces, and exactly that many iff every column is full |
| Board.RoomIffDrops | Assets/Scripts/Field.cs:331-334 | on a counted board, the counter is below `rows * columns` iff some column is a legal move |
| Board.Dropped | Assets/Scripts/Field.cs:114-131 | a drop keeps the shape, the settings and the turn, and keeps the counter equal to the number of occupied cells |
| Board.SwitchKeepsOutcome | Assets/Scripts/Field.cs:145-148 | switching the turn changes neither the win check nor the end-of-game test, and switching twice restores the board |
| Board.DropPlacesOnePiece | Assets/Scripts/Field.cs:114-130 | a full column leaves the board as it was; otherwise the mover's piece fills the landing row, no other cell changes, the counter grows by one and the last move becomes `(col, row)` |
| Board.DropKeepsOtherMoves | Assets/Scripts/Field.cs:114-131 | a drop into one column does not change whether any other column is a legal move |
| Board.RunLen | Assets/Scripts/Field.cs:231-243 | the counted run is an unbroken run of the colour next to the last piece, and it stops at the first cell that is off the board or of another colour |
| Board.ScanStep | Assets/Scripts/Field.cs:250-266 | one step of a direction scan adds one to the run exactly when the direction is open, the cell is on the board and holds the colour; the flag closes on any other colour |
| Board.RunLenAtLeast | Assets/Scripts/Field.cs:231-243 | a run whose first `m` cells match is at least `m` long |
| Board.AxisCountBothWays | Assets/Scripts/Field.cs:245-270 | the two-way count is the piece itself plus the runs in both opposite directions |
| Board.EarlyCountReaches | Assets/Scripts/Field.cs:268-269 | an early `return true` after `i` rounds is a count that also reaches the win length over all rounds |
| Board.RunsGiveLine | Assets/Scripts/Field.cs:245-270 | runs that reach the win length in total give a line of that length through the last piece |
| Board.LineGivesRuns | Assets/Scripts/Field.cs:245-270 | a line of the win length through the last piece makes the two-way count reach it |
| Board.AxisCountIffLine | Assets/Scripts/Field.cs:245-325 | the two-way count along an axis reaches the win length iff a line of that length along the axis passes through the last piece |
| Board.DownCountIffLine | Assets/Scripts/Field.cs:227-243 | the downward count reaches the win length iff the win length of cells from the last piece downwards all hold its colour |
| Board.VictoryIffLine | Assets/Scripts/Field.cs:221-329 | the win check holds iff the last cell is occupied and lies on a line of `piecesToWin` of its colour: downwards, along the row or, when allowed, along a diagonal |
| Board.Field.constructor | Assets/Scripts/Field.cs:23-43 | a new board has every cell empty, no pieces, last move `(0, 0)`, the given dimensions and settings and the coin-flip turn, and satisfies the board invariant |
| Board.Field.Copy | Assets/Scripts/Field.cs:45-62 | the copying constructor copies the settings, turn, counter and every cell into a fresh array, and leaves the last move at `(0, 0)` |
| Board.Field.GetPossibleCells | Assets/Scripts/Field.cs:65-80 | the map's keys are exactly the non-full columns, and each maps to the row a drop there lands on |
| Board.Field.GetPossibleDrops | Assets/Scripts/Field.cs:83-98 | returns exactly the legal moves in increasing order and changes nothing |
| Board.Field.HasEmptyFromTop | Assets/Scripts/Field.cs:88-95 | the inner scan finds an empty cell iff the column is not full |
| Board.Field.GetRandomMove | Assets/Scripts/Field.cs:101-111 | returns -1 when there is no legal move, and otherwise some legal move |
| Board.Field.DropInColumn | Assets/Scripts/Field.cs:114-131 | the new board is `Dropped` of the old one, the invariant is kept, and the returned row is the landing row, or -1 for a full column |
| Board.Field.IsColumnFull | Assets/Scripts/Field.cs:132-143 | returns true iff no cell of the column is empty |
| Board.Field.SwitchPlayer | Assets/Scripts/Field.cs:145-148 | only the turn flips, and the invariant is kept |
| Board.Field.DropAndSwitch | Assets/Scripts/Tree.cs:77-78 | a drop followed by a switch leaves the board at `Played` of the old one, the invariant kept |
| Board.Field.CheckForVictory | Assets/Scripts/Field.cs:221-329 | returns exactly `Victory` of the board and changes nothing; every array read is within bounds |
| Board.Field.ScanDownwards | Assets/Scripts/Field.cs:227-243 | the vertical loop returns true iff the last piece plus its run downwards reaches the win length |
| Board.Field.ScanBothWays | Assets/Scripts/Field.cs:245-325 | each two-way loop returns true iff the last piece plus its runs both ways along the axis reach the win length |
| Board.Field.StepOutwards | Assets/Scripts/Field.cs:252-266 | one direction of one round keeps the meaning of its flag and adds to the alignment exactly the growth of the run |
| Board.Field.ContainsEmptyCell | Assets/Scripts/Field.cs:331-334 | the counter test holds iff some cell of the array is empty, iff some column is a legal move |
| Board.Field.RoomIffEmptyCell | Assets/Scripts/Field.cs:331-334 | some column is a legal move iff some cell is empty |
| Board.Field.Clone | Assets/Scripts/Field.cs:337-340 | the copy is a fresh board with a fresh array, equal to the original except for a last move of `(0, 0)` |
| Board.Field.EmptyGridIsUnfilled | Assets/Scripts/Field.cs:32-39 | an array of empty cells counts zero pieces and has no floating piece |
| Board.DroppedKeepsSettled | Assets/Scripts/Field.cs:119-129 | a drop lands on the highest-indexed empty cell, so a board with no floating piece keeps none |
| Board.FullIffTopOccupied | Assets/Scripts/Field.cs:132-143 | in a column with no floating piece, the column is full iff its top cell is occupied |
| Board.Field.FullIffTopCell | Assets/Scripts/Field.cs:132-143 | on a valid board, column `x` is full iff `field[x, 0]` is occupied |
| Search.Chain | Assets/Scripts/Tree.cs:100-105 | the chain of a node holds the node, and otherwise only earlier nodes |
| Search.RootInChain | Assets/Scripts/Tree.cs:104 | every parent chain reaches the root |
| Search.ChainFrame | Assets/Scripts/Tree.cs:104 | a chain depends only on the parent links |
| Search.Bumped | Assets/Scripts/Tree.cs:102-103 | one node gets one more play, one more win iff its turn flag equals the outcome, and nothing else |
| Search.BumpKeepsArena | Assets/Scripts/Tree.cs:102-103 | bumping one node keeps the arena invariant, including `wins <= plays` |
| Search.SameLinksKeepArena | Assets/Scripts/Tree.cs:100-105 | changing only counters that stay within `0 <= wins <= plays` keeps the arena invariant |
| Search.Propagated | Assets/Scripts/Tree.cs:100-105 | propagation keeps the number of nodes and the parents-first order |
| Search.PropagatedBumpsChain | Assets/Scripts/Tree.cs:100-105 | propagating from `n` bumps exactly the nodes of `n`'s chain up to the root and leaves every other node as it was |
| Search.StateAt | Assets/Scripts/Tree.cs:51-54 | the board at a node has the root board's dimensions and settings, and stays counted |
| Search.StateAtFrame | Assets/Scripts/Tree.cs:75-76 | the board at a node depends only on the links and moves of the nodes up to it |
| Search.ChildPlaysFrame | Assets/Scripts/Tree.cs:100-105 | the sum of children's plays depends only on those children's plays |
| Search.ChildPlaysBumped | Assets/Scripts/Tree.cs:100-105 | one more play on each node of a chain adds to a sum of children's plays exactly the number of those children on the chain |
| Search.ChainCountZero | Assets/Scripts/Tree.cs:100-105 | entries none of whose children lie on the chain count zero |
| Search.ChainCountAtMostOne | Assets/Scripts/Tree.cs:100-105 | entries of which no two children both lie on the chain count at most one |
| Search.ChainClosed | Assets/Scripts/Tree.cs:104 | the parent of a non-root node on a chain is on the chain too |
| Search.ChainChildUnique | Assets/Scripts/Tree.cs:104 | two non-root nodes of one chain with the same parent are the same node |
| Search.ChildrenOnChain | Assets/Scripts/Tree.cs:100-105 | a node on the chain of `e` has at most one child on it, and a node off the chain has none |
| Search.GrowKeepsCover | Assets/Scripts/Tree.cs:75-76 | adding a child with zero counters keeps every node's plays at least the sum of its children's plays |
| Search.PropagatedKeepsCover | Assets/Scripts/Tree.cs:100-105 | propagating a result keeps every node's plays at least the sum of its children's plays |
| Search.GrownKeepsNodes | Assets/Scripts/Tree.cs:75-76 | adding a child keeps every old node's counters, turn and children, except one more child at the parent; the new node has zero counters, the given turn and parent, and no children |
| Search.UpdateAfterAppend | Assets/Scripts/Tree.cs:75-76 | making the node and then adding it as a child gives the same arena as the other order |
| Search.GrowKeepsArena | Assets/Scripts/Tree.cs:64-76 | adding a child whose column is new at its parent keeps the arena invariant |
| Search.GrowKeepsEdges | Assets/Scripts/Tree.cs:75-76 | after adding a child, every child entry points to a node whose parent and column agree with it |
| Search.GrowKeepsParentEdges | Assets/Scripts/Tree.cs:75-76 | after adding a child, every node is listed among its parent's children |
| Search.GrowKeepsDistinct | Assets/Scripts/Tree.cs:64-76 | a child for an untried column keeps a node's child columns pairwise distinct |
| Search.GrowKeepsStates | Assets/Scripts/Tree.cs:75-78 | adding a child keeps the board of every old node, and the new node's board is its move played on its parent's board |
| Search.GrowKeepsReplays | Assets/Scripts/Tree.cs:60-79 | a child for an untried legal move of a board that is not over, tagged with that board's turn, keeps the tree in agreement with the boards |
| Search.CountersKeepReplays | Assets/Scripts/Tree.cs:100-105 | changing only counters keeps the tree in agreement with the boards |
| Search.RoomToExpand | Assets/Scripts/Tree.cs:48-49 | a node with fewer children than legal moves has an untried legal move |
| Search.Remove | Assets/Scripts/Tree.cs:69-70 | removing a column from an increasing list leaves exactly the other columns, still increasing |
| Search.PrependIncreasing | Assets/Scripts/Tree.cs:69-70 | putting back the head of an increasing list in front of a sublist of its tail keeps the list increasing |
| Search.UntriedExists | Assets/Scripts/Tree.cs:64-74 | fewer distinct tried columns than legal moves leave some legal move untried |
| Search.DistinctCard | Assets/Scripts/Tree.cs:64-74 | a list without repetitions has as many elements as its set |
| Search.UntriedDrops | Assets/Scripts/Tree.cs:64-71 | the copied list after the striking loop holds exactly the legal columns not yet tried at the node, in increasing order |
| Search.Tree.constructor | Assets/Scripts/Tree.cs:15-22 | a new tree is a single root with zero counters, the given turn, no parent and no children |
| Search.Tree.NewNode | Assets/Scripts/Tree.cs:15-22 | a new node has zero counters, the given turn and parent and no children, and is appended to the arena |
| Search.Tree.AddChild | Assets/Scripts/Tree.cs:24-27 | the node gains one dictionary entry at the end, for the given child and column |
| Search.Tree.ChildStats | Assets/Scripts/Tree.cs:127-132 | lists each child entry's counters with its column, in dictionary order |
| Search.Tree.SelectBestChild | Assets/Scripts/Tree.cs:107-121 | returns one of the node's children |
| Search.Tree.SelectNodeToExpand | Assets/Scripts/Tree.cs:39-55 | returns the node itself, with the board untouched, when the board is over or a move is untried; otherwise it descends through chosen children, playing their moves. The result lies below the start node, the board is that node's board, and that board is over or has an untried move |
| Search.Tree.Descend | Assets/Scripts/Tree.cs:51-54 | playing a child's move takes the board from the node's board to the child's |
| Search.Tree.Expand | Assets/Scripts/Tree.cs:58-80 | on a board that is over, nothing changes; otherwise exactly one child is added, for an untried legal move and tagged with the turn before the move, and the board is that move played once |
| Search.Tree.ExpandUntried | Assets/Scripts/Tree.cs:64-79 | adds exactly one child, for an untried legal move tagged with the turn before the move, and plays that move; the tree keeps agreeing with the boards |
| Search.Tree.PickUntried | Assets/Scripts/Tree.cs:64-74 | the picked column is a legal move not yet tried at the node |
| Search.Tree.Attach | Assets/Scripts/Tree.cs:75-76 | the arena grows by one child node under `n`; the tree keeps agreeing with the boards, and the new node's board is its move played on `n`'s board |
| Search.Tree.BackPropagate | Assets/Scripts/Tree.cs:100-105 | the nodes become `Propagated` of the old nodes and the arena invariant is kept, so `wins <= plays` holds throughout |
| Search.Replay | Assets/Scripts/Tree.cs:86-96 | replaying moves keeps the dimensions and settings and keeps the board counted |
| Search.ReplayStep | Assets/Scripts/Tree.cs:88-89 | replaying one more move is playing it on the replayed board |
| Search.PlayoutStep | Assets/Scripts/Tree.cs:86-96 | a playout extends by any legal move of a board that is not over |
| Search.PlayTurn | Assets/Scripts/Tree.cs:88-95 | one pass adds exactly one piece with a legal move, and the count stays within the number of cells; after a win the turn stays with the winner, and otherwise the turn passes and the game is not won |
| Search.Simulate | Assets/Scripts/Tree.cs:82-98 | an already-won board returns the side that made the last move and changes nothing; otherwise legal moves are played until the game is over, a win is credited to its maker, and a full board counts as the player's. At most one move is played per cell that was empty |
| Search.RateOf | Assets/Scripts/Tree.cs:129 | the double ratio is a fraction iff plays are non-zero, not-a-number iff 0 / 0, and positive infinity iff wins are positive over zero plays |
| Search.GtIsRatioOrder | Assets/Scripts/Tree.cs:129 | for positive play counts, comparing rates is integer cross-multiplication |
| Search.GtOverNotGt | Assets/Scripts/Tree.cs:129-133 | a rate above `b` is above any number that is not above `b` |
| Search.GtTransitive | Assets/Scripts/Tree.cs:129-133 | comparing rates is transitive |
| Search.CrossMultiply | Assets/Scripts/Tree.cs:129 | cross-multiplied comparisons of fractions chain through a middle fraction |
| Search.ChosenUnique | Assets/Scripts/Tree.cs:123-136 | at most one entry is the one the running maximum picks |
| Search.LeadingStep | Assets/Scripts/Tree.cs:127-134 | one pass of the loop keeps the running-maximum invariant, with the new entry taking the lead exactly when its rate is strictly greater |
| Search.TakesTheLead | Assets/Scripts/Tree.cs:129-133 | a rate above the current maximum beats every earlier rate that is a number |
| Search.BeatsBelow | Assets/Scripts/Tree.cs:129-133 | a rate above `m` is above every number that `m` beats or ties |
| Search.MostSelectedMove | Assets/Scripts/Tree.cs:123-136 | returns -1 when no rate exceeds -1 (for instance, no children); otherwise the column of the first entry with the strictly greatest rate, so ties keep the earlier entry |
| GameControl.ClampedWinLength | Assets/Scripts/GameController.cs:88-89 | the clamped length is the original or the longer side, whichever is smaller |
| GameControl.ClampIdempotent | Assets/Scripts/GameController.cs:88-89 | clamping twice is clamping once, and a length that fits is kept |
| GameControl.SearchRoot | Assets/Scripts/GameController.cs:208 | a worker's board has the real board's cells, counter and turn, with the last move reset to `(0, 0)` |
| GameControl.GrownPlayed | Assets/Scripts/GameController.cs:220 | after expansion, only the new node may be unplayed, plays still cover children's plays, and the root keeps its counters and turn and loses no child |
| GameControl.PropagatedPlayed | Assets/Scripts/GameController.cs:221 | propagating from the expanded node plays it and the root once more, so every non-root node has been played |
| GameControl.SelectAndExpand | Assets/Scripts/GameController.cs:219-220 | selection and expansion keep the tree in agreement with the boards, keep every node's plays covering its children's, and keep the root's counters, turn and children; on a board that is not over the root has a child |
| GameControl.Iterate | Assets/Scripts/GameController.cs:217-221 | one iteration on a fresh copy of the board adds exactly one play to the root and keeps the worker invariant |
| GameControl.Propagate | Assets/Scripts/GameController.cs:221 | propagating a result adds one play to the root, keeps its children and turn, leaves every non-root node played and keeps every node's plays covering its children's |
| GameControl.ExpandTree | Assets/Scripts/GameController.cs:205-224 | the worker's tree agrees with the boards, no node has fewer plays than its children together, the root carries the copied board's turn and has been played once per iteration; with an iteration on a board that is not over, it has a child |
| GameControl.Insert | Assets/Scripts/GameController.cs:154 | inserting keeps every entry and adds exactly the new one |
| GameControl.InsertSorted | Assets/Scripts/GameController.cs:154 | inserting into a list sorted by column keeps it sorted |
| GameControl.SortByAction | Assets/Scripts/GameController.cs:153-154 | the sorted entries are a permutation of the root's entries, in column order |
| GameControl.EntryHoldsTotals | Assets/Scripts/GameController.cs:163-175 | with one entry per column, the column sums are that entry's counters |
| GameControl.AbsentHasNoTotals | Assets/Scripts/GameController.cs:163-175 | a column without an entry sums to zero |
| GameControl.TotalsOfConcat | Assets/Scripts/GameController.cs:150-180 | column sums split over a concatenation |
| GameControl.InsertKeepsTotals | Assets/Scripts/GameController.cs:154 | inserting keeps every column's sums |
| GameControl.SortKeepsTotals | Assets/Scripts/GameController.cs:153-154 | sorting keeps every column's sums |
| GameControl.IndexOfAction | Assets/Scripts/GameController.cs:163-172 | finds the first merged entry for the column, or -1 iff there is none |
| GameControl.AbsorbAt | Assets/Scripts/GameController.cs:163-175 | absorbing an entry adds its counters to the first merged entry for its column, or appends it when there is none |
| GameControl.AbsorbTotals | Assets/Scripts/GameController.cs:163-175 | absorbing an entry adds its counters to its own column's sums and leaves other columns' sums unchanged |
| GameControl.AbsorbColumns | Assets/Scripts/GameController.cs:163-175 | absorbing keeps the existing entries' places and columns and adds at most the entry's column |
| GameControl.ConsOnePerColumn | Assets/Scripts/GameController.cs:163-168 | an entry for a column not yet listed keeps one entry per column |
| GameControl.AbsorbKeepsOnePerColumn | Assets/Scripts/GameController.cs:163-175 | absorbing keeps one entry per column |
| GameControl.MergeAllTotals | Assets/Scripts/GameController.cs:156-176 | merging adds the entries' counters to the column sums |
| GameControl.MergeAllColumns | Assets/Scripts/GameController.cs:156-176 | merging keeps the existing entries in place, adds exactly the new columns, and keeps one entry per column |
| GameControl.MergeAllStep | Assets/Scripts/GameController.cs:156-176 | merging one more entry absorbs it into the merge so far |
| GameControl.GatheredTotals | Assets/Scripts/GameController.cs:150-180 | the entries in merge order sum, per column, to the totals over the workers |
| GameControl.SortKeepsColumns | Assets/Scripts/GameController.cs:153-154 | sorting keeps the set of columns |
| GameControl.GatheredColumns | Assets/Scripts/GameController.cs:150-180 | the entries in merge order hold exactly the columns of the workers' roots |
| GameControl.MergedTotals | Assets/Scripts/GameController.cs:150-180 | the merged root has one entry per column that some worker tried, holding that column's wins and plays summed over all workers |
| GameControl.Merge | Assets/Scripts/GameController.cs:150-180 | the merge loop computes the merge of every worker's sorted root entries, worker by worker |
| GameControl.MergeInto | Assets/Scripts/GameController.cs:156-176 | the inner loop merges one worker's sorted entries into the merged root |
| GameControl.MergeAllConcat | Assets/Scripts/GameController.cs:150-180 | merging a concatenation is merging its parts one after the other |
| GameControl.MergeAllConcatFrom | Assets/Scripts/GameController.cs:150-180 | merging a concatenation from a given start is merging its parts in turn |
| GameControl.GameController.constructor | Assets/Scripts/GameController.cs:9-25 | the controller starts with the editor's settings and no board |
| GameControl.GameController.InitializeGame | Assets/Scripts/GameController.cs:86-102 | the win length is clamped to the longer side, the other settings are kept, and a fresh, valid board is made with those settings, the diagonal flag included: every cell empty, no pieces, last move `(0, 0)` |
| GameControl.GameController.CalculateRow | Assets/Scripts/GameController.cs:129-203 | on an empty board, some legal column, or -1 iff there is none. Otherwise there is one root per worker, each with legal columns and sampled counters, and the first has a child. The merged root is the column-wise merge of the sorted roots, and the result is the column of the entry `MostSelectedMove` chooses there, so it is always a legal column. The real board is not changed |
| GameControl.RunWorker | Assets/Scripts/GameController.cs:141-153 | one worker's root entries are legal columns of the board with `0 <= wins <= plays` and at least one play each, and with an iteration on a board that is not over there is at least one entry |
| GameControl.RootStats | Assets/Scripts/GameController.cs:153 | a worker's root entries are legal columns of its board, with `0 <= wins <= plays` and at least one play each |
| GameControl.SumsBounded | Assets/Scripts/GameController.cs:173-174 | summed counters keep `0 <= wins <= plays`, and a listed column has at least one play |
| GameControl.TotalsBounded | Assets/Scripts/GameController.cs:163-175 | the totals over the workers keep `0 <= wins <= plays`, and a column some worker tried has at least one play |
| GameControl.MergedRates | Assets/Scripts/GameController.cs:163-195 | every merged entry's rate exceeds -1 and its column is legal; the merge is empty iff every worker's root is |
| GameControl.PickColumn | Assets/Scripts/GameController.cs:195 | the chosen column is -1 iff no worker's root has a child; otherwise it is a legal column, the column of the merged entry with the first strictly greatest win rate |

## Left out

- `Field.CheckForWinner` and `GameController.Won`: they count hits of Unity physics raycasts over scene colliders, a foreign call, and write TextMeshPro text. Only `CheckForVictory` is modelled.
- Unity presentation: `Start`, `Update`, `CreateField`'s game object, `InstantiateCells`, `SpawnPiece`, `UpdatePiecePosition`, the `DropPiece` coroutine, the log strings of `CalculateRow` and the UI, camera and piece scripts. These are rendering and input.
- Randomness: `Random.value`, `System.Random` and the Guid seed are not modelled as generators. The coin flip is a constructor parameter, and every random index is an arbitrary choice.
- Search.Tree.SelectBestChild: returns any child instead of the child with the highest UCT score. The score uses `Math.Sqrt` and `Math.Log` on doubles, which are not modelled.
- Search.MostSelectedMove: takes the children as a sequence of counter and column entries rather than reading them from a node. Both the merged root and `Tree.ChildStats` give it that form.
- Concurrency: the workers of `CalculateRow` run one after the other. `ThreadPool`, `ManualResetEvent` and `WaitHandle.WaitAll` are not modelled. Each worker reads the real board only through its own copy and writes only its own tree, so running them one after the other gives the same results.
- `MonteCarloSearchTree` is a data holder. Its board, iteration count and root become the parameters and the result of `ExpandTree`.
- GameControl.SortByAction: `List.Sort` is modelled as an insertion sort. The library's sort is unstable, and no order is promised among entries of the same column. Every property proved about the merge holds for any order of such entries.
- GameControl.GameController.CalculateRow: requires, on a board with pieces, at least one worker, at least one iteration and a worker board that is not over. The source throws otherwise: `WaitHandle.WaitAll` on an empty array throws, and trimming the log line of a root without children (`log.Remove(log.Length - 3, 3)` on `"( "`) throws.
- Search.Tree.Expand: requires the board to be over or to have an untried legal move. Otherwise the source indexes an empty list and throws.
- Board.Field.DropInColumn: requires a column on the board. Any other column makes the source index outside the array and throw.
- Board.Field.constructor: requires at least one row and one column. The win check reads cell `(0, 0)` of the board, and the editor ranges allow 4 to 8.
- The editor ranges of the controller's settings (`[Range]` attributes) are not enforced by the model.
- `Node.GetChildAction` and `Node.getChildrenNumber` are direct reads in the arena: an entry's `action` and the length of `children`.
- Search.RateOf: the rate is an exact fraction, not the rounded double quotient. Two different fractions can round to the same double, for instance 134217728/134217729 and 134217727/134217728, and then the source's `>` is false where the model's is true. For `0 <= wins <= plays < 2^26` distinct fractions differ by more than the spacing of doubles in `[0, 1]` and rounding is monotone, so the orders agree there. That argument is not proved.
- Integer overflow of the `int` counters is not modelled. The counters stay below the number of iterations times the number of workers.
