# Grid-Surprise game rules in Dafny

Grid-Surprise is a minesweeper-like minigame. A `columns` by `rows` board of
cells hides `MAX_SURPRISE` (10) surprises. The player clicks cells. Each
click colours the clicked cell and spends one of the moves:

- red when the cell holds a surprise;
- yellow when a surprise lies one or two cells away (Chebyshev distance, so
  diagonals count);
- green otherwise.

When the moves run out, any key press resets the round:

- the move budget is restored to 20;
- every cell is cleared;
- the surprises are hidden again.

This project models the game rules of the two script classes and leaves out
the engine around them. It has four modules:

- `CellModel` (`cell.dfy`) models one cell of the board as the class `Cell`.
  It has the fields `x`, `y`, `surprise` and `isValidated`, and its colour
  is an enumeration `White | Red | Yellow | Green`. Each mutating method has
  a contract saying which fields it sets and which it keeps.
- `Sampling` (`sampling.dfy`) models the surprise-placement loop.
  - `Picks` is the rejection-sampling loop, written as a function of the
    draws that the random source would produce. `Placement` is the cells the
    loop marks.
  - The lemmas state when the loop ends and what it ends with: exactly
    `MAX_SURPRISE` pairwise-distinct cells, all drawn from the board. They
    also show that the loop can never end on a board with fewer cells than
    that.
- `Proximity` (`proximity.dfy`) models the neighbour tests.
  - `Chebyshev` is the distance and `SurpriseNear` means "some surprise
    position at a distance in this range".
  - The two neighbour tests are written with the game's own guards, over the
    set of surprise positions. Each is proved equivalent to "a surprise at
    distance exactly 1 (or 2)".
- `GridModel` (`grid_generator.dfy`) models the generator as the class
  `GridGenerator`.
  - Its fields are `columns`, `rows`, `totalMoves`, `isDebug`, `canReset`,
    the cell list `createdTiles`, the grid `cellsArray: array2<Cell?>` and
    `surpriceCellList`.
  - Its methods are `GenerateGrid`, `PlaceSurprize`, `ResetCells`,
    `ValidateClickedCell` and the reset step of `FixedUpdate`. There is also
    the button handler `OnCellClick`, which holds a cell's "already
    validated" guard.
  - `Valid()` is the board invariant. Each board position holds the listed
    cell with its coordinates. The list runs column by column, so the cell
    at column `i`, row `j` is entry `i * rows + j`. The surprise list names
    only listed cells.

Engine callbacks become explicit calls:

- start-up is `StartUp`: the constructor, then `PlaceSurprize` (the engine
  enables the component before starting it; with no cell yet this does
  nothing), then `GenerateGrid`;
- a button press is `OnCellClick`;
- a physics tick is `FixedUpdate(anyKeyDown, draws)`, with the key state as
  a parameter.

The random number source becomes a sequence of draws supplied by the caller.
A caller must supply draws that:

- all index the cell list, so that no draw reads past it;
- include at least `MAX_SURPRISE` distinct cells, which is what makes the
  placement loop end.

`Sampling.TooFewCells` shows that on a board with fewer than
`MAX_SURPRISE` cells no in-range draws can meet the second condition: the
loop keeps fewer than `MAX_SURPRISE` cells whatever it is offered, so it
never ends.

Behaviours of the code worth noting:

- `PlaceSurprize` forgets the previous surprise list but does not clear
  surprise flags that are already set. Flags are cleared only by
  `ResetCells`, and the reset step calls it first.
- The reset is allowed once `totalMoves <= 0`, not only at exactly zero. In
  debug mode the count keeps going down and the reset never fires.
- The reset step restores the literal 20 moves, whatever the configured
  starting `totalMoves` was.
- The "already validated" check lives in the cell's click handler, not in
  `ValidateClickedCell`. A direct call on a validated cell colours it again
  and spends a move.

## Model

| member | source | states |
|---|---|---|
| `CellModel.Cell.constructor` | Assets/Scripts/Cell.cs:9-10 | A new cell is at (0, 0), holds no surprise, is not validated and is white. |
| `CellModel.Cell.SetHasSurprize` | Assets/Scripts/Cell.cs:15 | After writing `HasSurprize`, reading it returns the written value. Coordinates, validation and colour are unchanged. |
| `CellModel.Cell.SetGridPosition` | Assets/Scripts/Cell.cs:29-33 | Sets `x == a` and `y == b`. Surprise, validation and colour are unchanged. |
| `CellModel.Cell.AddSuprise` | Assets/Scripts/Cell.cs:37-39 | The cell holds a surprise afterwards. Coordinates, validation and colour are unchanged. |
| `CellModel.Cell.RemoveAndResetSurprise` | Assets/Scripts/Cell.cs:54-64 | From any state, the cell ends with no surprise, not validated and white, at the same coordinates. On an already cleared cell it changes nothing, so the call is idempotent. |
| `CellModel.Cell.ChangeCellColor` | Assets/Scripts/Cell.cs:69-74 | The cell is validated and shows the given colour. Its surprise flag and coordinates are unchanged. |
| `Sampling.PicksExtends` | Assets/Scripts/GridGenerator.cs:83-90 | The placement loop only appends, and only appends drawn indices. |
| `Sampling.PicksDistinct` | Assets/Scripts/GridGenerator.cs:86-89 | The `Contains` check keeps the chosen indices pairwise distinct. |
| `Sampling.PicksCount` | Assets/Scripts/GridGenerator.cs:83-90 | The loop keeps `min(k, number of distinct indices offered)` indices. |
| `Sampling.InRangeBound` | Assets/Scripts/GridGenerator.cs:85 | Draws that index a list of `n` cells name at most `n` distinct cells. |
| `Sampling.TooFewCells` | Assets/Scripts/GridGenerator.cs:83 | On a board with fewer than `k` cells, any in-range draws leave the loop with fewer than `k` cells kept, so its condition stays true and it never ends; the draw condition `DrawsFit` can never be met there. |
| `Sampling.PicksPlace` | Assets/Scripts/GridGenerator.cs:82-91 | From fitting draws, the loop ends with exactly `k` pairwise-distinct in-range indices. |
| `Sampling.SelectMember` | Assets/Scripts/GridGenerator.cs:85-86 | Over a list without repeats, a cell is in the surprise list exactly when its index was kept. So testing the cell list agrees with testing the indices. |
| `Sampling.Placement` | Assets/Scripts/GridGenerator.cs:82-91 | The cells the placement marks: exactly `k` of them, pairwise distinct, all from the cell list. |
| `Proximity.IsInFirstLevel` | Assets/Scripts/GridGenerator.cs:118-124 | The eight guarded reads hold exactly when a surprise lies at Chebyshev distance 1 from the click. Each guard keeps its read on the board. |
| `Proximity.IsInSecondLevel` | Assets/Scripts/GridGenerator.cs:126-135 | The sixteen guarded reads hold exactly when a surprise lies at Chebyshev distance 2. Each guard keeps its read on the board. |
| `GridModel.ClickColor` | Assets/Scripts/GridGenerator.cs:138-143 | Red exactly on a hit, whatever the neighbours hold. Yellow exactly when there is no hit and a surprise lies 1 or 2 cells away. Green exactly when there is no hit and no surprise within 2 cells. |
| `GridModel.GridGenerator.constructor` | Assets/Scripts/GridGenerator.cs:10-25 | The configured component before start-up: the given size, moves and debug flag, no reset pending, and empty lists. |
| `GridModel.GridGenerator.GenerateGrid` | Assets/Scripts/GridGenerator.cs:38-70 | Builds a fresh grid and fresh cells. Every position holds the cell with its coordinates, listed column by column (`Valid`). The cells are unclicked and white. The surprise flags are exactly the placement's cells. |
| `GridModel.GridGenerator.TilesDistinct` | Assets/Scripts/GridGenerator.cs:62-65 | On a valid board no cell is listed twice. |
| `GridModel.GridGenerator.CellAt` | Assets/Scripts/GridGenerator.cs:63-65 | A listed cell is on the board, and it is the cell that `cellsArray` holds at its coordinates. |
| `GridModel.GridGenerator.CellFlag` | Assets/Scripts/GridGenerator.cs:138 | The clicked cell's own flag is the flag at its board position, so a hit is a click on a surprise position. |
| `GridModel.GridGenerator.PlaceSurprize` | Assets/Scripts/GridGenerator.cs:74-92 | Callable before the grid exists; with no cell, nothing changes. Otherwise the surprise list becomes `Placement`: exactly 10 pairwise-distinct cells, each flagged. No flag is cleared, no other field changes, and the board stays valid. |
| `GridModel.GridGenerator.ResetCells` | Assets/Scripts/GridGenerator.cs:97-105 | Callable before the grid exists, as when the component is disabled. Every cell is left without a surprise, unvalidated and white, at the same coordinates. On a board that is already cleared it changes nothing. |
| `GridModel.GridGenerator.ValidateClickedCell` | Assets/Scripts/GridGenerator.cs:110-151 | Out of moves outside debug mode, it changes nothing. Otherwise the clicked cell is validated and coloured `ClickColor`, and `totalMoves` drops by exactly 1. `canReset` is raised once the count is at most 0. No other cell changes and the board stays valid. |
| `GridModel.GridGenerator.OnCellClick` | Assets/Scripts/Cell.cs:23-27 | A click on an already validated cell spends no move and changes nothing. Any other click is `ValidateClickedCell`, with the same full contract: the clicked cell keeps its surprise flag and coordinates. |
| `GridModel.StartUp` | Assets/Scripts/GridGenerator.cs:31-33 | Enabling (the `PlaceSurprize` call at GridGenerator.cs line 93) places no surprise while no cell exists; starting then generates a new valid board of the configured size and debug flag, with new cells that are unclicked and white, exactly the 10 placement cells flagged and no move spent. |
| `GridModel.GridGenerator.FixedUpdate` | Assets/Scripts/GridGenerator.cs:155-170 | The reset fires only outside debug mode, with `canReset` set and a key pressed; otherwise nothing changes. A reset sets 20 moves and clears `canReset`. Every cell is then unvalidated and white, and it holds a surprise exactly when it is in the new placement. |

## Left out

- Unity scene construction is not modelled: game objects, rect transforms, the float layout, sprites, images, buttons and colour values. Colours are the four-value enumeration.
- TextMeshPro move-counter text, the `EventSystem` selection of the first cell and the singleton `Instance` are not modelled.
- The debug-only "Surprise" child object is not modelled, nor is its removal. Only the surprise flag is kept.
- `Awake`, `Start`, `OnEnable` and `OnDisable` become explicit calls. `OnEnable` is exactly `PlaceSurprize` and `OnDisable` is exactly `ResetCells`.
- `System.Random` is replaced by caller-supplied draws. The hard-coded `random.Next(0, 400)` bound is not reproduced; the draws must index the cell list instead.
- `Input.anyKeyDown` is the `anyKeyDown` parameter of `FixedUpdate`.
- GridModel.GridGenerator.ValidateClickedCell: the neighbour tests read the set of surprise positions (`Surprises()`) instead of reading the grid cells one by one. The values read are the same; the order of the reads is not modelled.
- GridModel.GridGenerator.ValidateClickedCell: `totalMoves` is an unbounded integer, so 32-bit wrap-around after about two billion moves in debug mode is not modelled.
- GridModel.GridGenerator.GenerateGrid: negative `columns` or `rows` are excluded by its precondition, so the `OverflowException` that allocating the grid with a negative size throws is not modelled.
- GridModel.GridGenerator.GenerateGrid: it is modelled on a freshly configured component with empty lists, the only way the game calls it. A second call, which would append to the old list, is not modelled.
- GridModel.GridGenerator.constructor: before generation `cellsArray` is an empty 0 by 0 grid, not a null reference.
