# Game of Life engine — a Dafny model

This project models the engine of `game_of_life`, an SFML desktop simulator of
Conway's Game of Life on a torus:

- **`Torus`** (`torus.dfy`) is the value layer that everything else is specified
  against:
  - boards as `seq<seq<bool>>`, and the Euclidean wrap of a signed coordinate;
  - the 3x3 block sum in the order `Grid::checkCell` loops over it, and the
    compressed rule "sum 3 → alive, sum 4 → unchanged, otherwise dead";
  - a whole generation, `Step`;
  - an independent reference: the eight neighbours listed explicitly, a live
    count over them, and the classic B3/S23 rule.
- **`Game`** (`game.dfy`) holds the two classes of `src/game.h`:
  - `Grid`: the cell array, periodic indexing and `checkCell`;
  - `GameOfLife`: the current grid, the next-generation buffer and the integer
    screen geometry. It covers the constructor, `runStep`, `handleClick`, the
    arithmetic of `handleResize`, and the mapping from a pixel to a cell.
- **`Utility`** (`settings.dfy`) holds the `Settings` record: the pause and menu
  flags, and the step delay moved by `increaseSpeed` and `decreaseSpeed` within
  [1, 10000] ms.
- **`Options`** (`options.dfy`) holds `getScreenDimensionsFromOption`, which
  splits `"WxH"` at the first `x` and reads each half the way `std::stoul` does (whitespace and signs aside, see
  Left out).
- **`Wrappers`** (`wrappers.dfy`) holds the one `Option` type. Its `None` stands
  for `std::nullopt` in the engine and for `std::string::npos` in the parser.

The two `Grid` objects inside `GameOfLife` are separate objects. Copying one into
the other (`grid_ = buffer_`) copies the cell sequence by value.

## Model

| member | source | states |
|---|---|---|
| Torus.Wrap | src/game.h:40-46 | The coordinate fold of the C++ implementation is computed as written: negate, take the remainder, subtract from the size, then take a final remainder. The result is always in [0, n) and equals the Euclidean remainder v mod n, including for negative v. |
| Torus.WrapIdentity | src/game.h:39-47 | A coordinate already in [0, n) is returned unchanged. |
| Torus.WrapPeriodic | src/game.h:39-47 | Shifting a coordinate by any whole number of periods k·n, positive or negative, does not change its wrapped value. |
| Torus.WrapAdjacent | src/game.h:39-47 | The neighbour offsets wrap across the seams: -1 maps to n-1 and n maps to 0. |
| Torus.WrapNegativeMultiple | src/game.h:40-46 | For a negative multiple of n, the negative branch yields n itself, and the final remainder folds it onto 0. |
| Torus.PeriodicIndex | src/game.h:39-47 | The wrapped (row, col) is always in range, and a component already in range is returned unchanged. |
| Torus.PeriodicIndexExamples | test/test_grid.cpp:30-49 | On a 4 x 5 grid: (2,4)→(2,4), (0,0)→(0,0), (5,7)→(1,2), (-3,-4)→(1,1) and (-20,-11)→(0,4). |
| Torus.Dead | src/game.h:25-26 | The initial board has exactly the requested rows and columns, and every cell is dead. |
| Torus.Updated | src/game.h:37 | Writing through `at` keeps the shape, sets the addressed cell to the new value, and leaves every other cell as it was. |
| Torus.Toggled | src/game.cpp:93-94 | Toggling negates the addressed cell only and keeps the shape. |
| Torus.ToggledTwice | src/game.cpp:91-96 | Toggling the same cell twice restores the board. |
| Torus.RowSum | src/game.cpp:11-13 | The inner loop's sum over a span of the wrapped row is at most the span's width. |
| Torus.BlockSum | src/game.cpp:10-14 | The sum over a block of wrapped cells is at most the block's area. |
| Torus.CellValue | src/game.cpp:12 | The amount one loop iteration adds, for the cell read through the periodic index, is 0 or 1. For an in-range coordinate it is 1 exactly when that cell is alive. |
| Torus.NeighbourhoodSum | src/game.cpp:5-14 | The 3x3 sum around a cell is at most 9. |
| Torus.NeighbourhoodSumNine | src/game.cpp:10-14 | The nested loops add up exactly the nine cells at offsets -1..1 in both directions, each wrapped periodically. |
| Torus.NeighbourhoodSumRows | src/game.cpp:10-14 | The outer loop makes three passes, one per wrapped row row-1, row and row+1, each over columns col-1..col+1. |
| Torus.NeighbourhoodSumIsWindow | src/game.cpp:10-14 | The loops' sum equals the live count over an independently listed 3x3 window of wrapped positions. |
| Torus.WindowDistinct | src/game.cpp:10-14 | On a grid of at least 3 x 3, the nine wrapped positions are pairwise distinct and the centre is the cell itself. The eight neighbours therefore exclude the cell and are pairwise distinct. |
| Torus.NextIsClassicRule | src/game.cpp:16-23 | On any grid size, the compressed rule over the sum including the centre equals B3/S23 over the eight listed neighbour positions, counted with repetition. On 3 x 3 and larger grids these are eight distinct cells other than the cell itself (WindowDistinct). A dead cell with exactly 3 live neighbours is born. A live cell with 2 or 3 live neighbours survives. Every other cell is dead. |
| Torus.Next | src/game.cpp:16-23 | A sum of 3 gives a live cell, and a sum of 4 keeps the cell's current state. A live result occurs only on a sum of 3 or 4. |
| Torus.Step | src/game.cpp:48-56 | A generation keeps the board's shape and stays well formed. |
| Torus.StepAt | src/game.cpp:49-53 | Each cell of the next generation is the rule applied to the old board at that cell. |
| Torus.StepDead | src/game.cpp:48-56 | An all-dead board stays all dead. |
| Torus.BlockIsStillLife | src/game.cpp:48-56 | A 2x2 block on a 4x4 torus is a still life: one generation returns the same board. |
| Game.Grid.constructor | src/game.h:25-28 | rows(), columns() and getSize() report the requested dimensions, and every cell starts dead. Zero dimensions are a precondition failure, as with the assert at game.h:27. |
| Game.Grid.Copy | src/game.h:71 | `buffer_{grid_}` yields a grid holding the same cells. |
| Game.Grid.Rows | src/game.h:30 | rows() is positive on every valid grid. |
| Game.Grid.Columns | src/game.h:32 | columns() is the length of the first row. It is positive, and every row has that length. |
| Game.Grid.GetSize | src/game.h:34 | The size is one past the last index in each direction: (rows-1, columns-1) is in range, and (rows, 0) and (0, columns) are not. |
| Game.Grid.At | src/game.h:36 | The const `at` reads the addressed cell. Writing the value read back leaves the grid unchanged. |
| Game.Grid.SetAt | src/game.h:37 | A write through the mutable `at` changes only the addressed cell and keeps the dimensions. |
| Game.Grid.GetPeriodicIndex | src/game.h:39-47 | Any signed (row, col) maps to an in-range index, and each component is the Euclidean remainder by that dimension. |
| Game.Grid.CheckCell | src/game.cpp:4-24 | The nested loops compute the 3x3 wrapped sum, so the result is the next state of that cell. With the lemma above, that is the B3/S23 rule. |
| Game.CentringOffset | src/game.h:72-73 | The centring offset leaves the cells inside the screen (2·offset + size·count ≤ w), with at most one pixel of imbalance. |
| Game.CellCoordinate | src/game.h:113-115 | The quotient of a relative pixel coordinate by the cell size is the cell whose pixel span contains it, and it is below the cell count. |
| Game.GameOfLife.constructor | src/game.h:60-75 | There are width/cell columns and height/cell rows, both grids are all dead and distinct, and the offsets centre the grid. The grid is shown, and the geometry invariant holds. |
| Game.GameOfLife.IsOutOfScreenBounds | src/game.h:118-122 | Defined as the bounds test of game.h:119-121: left of or above the grid's upper-left pixel, or at or past its right or bottom edge. The contract states that with a zero cell size (a hidden grid) every position is out of bounds. GetIndexFromPositionOnScreen's contract ties the test to the cell squares. |
| Game.GameOfLife.GetIndexFromPositionOnScreen | src/game.h:109-116 | The result is None exactly for out-of-bounds positions. Otherwise it is an in-range index whose cell's pixel square contains the position. |
| Game.GameOfLife.RunStep | src/game.cpp:48-56 | The current grid becomes one generation of the old grid, computed from the old cells only. The buffer ends up equal to it, and the dimensions are kept. |
| Game.GameOfLife.HandleClick | src/game.cpp:91-96 | A click inside the grid toggles exactly the cell under it. A click outside leaves the grid unchanged. |
| Game.GameOfLife.HandleResize | src/game.cpp:98-109 | The new cell size is the smaller of width/columns and height/rows. If it is 0, the grid is hidden and the offsets and screen size are kept. Otherwise the grid is shown, re-centred on the new screen, and the new size is recorded. The cells are never touched. |
| Utility.Lengthened | src/utility.h:43-47 | increaseSpeed adds 100 ms exactly when the result stays at or below 10000, and otherwise leaves the delay alone. It keeps the delay in [1, 10000]. |
| Utility.Shortened | src/utility.h:49-53 | decreaseSpeed subtracts 100 ms exactly when the result stays at or above 1, and otherwise leaves the delay alone. It keeps the delay in [1, 10000]. |
| Utility.StepsUndo | src/utility.h:43-53 | Within the range, a step that changed the delay is undone by the opposite step. |
| Utility.Settings.constructor | src/utility.h:35-37 | A new Settings starts paused and in the menu, with a 400 ms delay, which lies in the range. |
| Utility.Settings.IncreaseSpeed | src/utility.h:43-47 | The delay becomes the lengthened delay, the range is preserved, and the flags are unchanged. |
| Utility.Settings.DecreaseSpeed | src/utility.h:49-53 | The delay becomes the shortened delay, the range is preserved, and the flags are unchanged. |
| Options.Find | src/options.cpp:7 | `find('x')` returns the position of the first `x`, or npos (None) exactly when there is no `x`. |
| Options.TextBefore | src/options.cpp:8 | `substr(0, split_pos)` is a prefix of the text, as long as the split position. With npos, it is the whole text. |
| Options.TextAfter | src/options.cpp:9 | `substr(split_pos + 1)` is the suffix after the split position. With npos, npos + 1 wraps to 0 and it is the whole text. |
| Options.DecimalValue | src/options.cpp:10 | The value stoul gives a run of k decimal digits is below 10^k. |
| Options.LeadingDigits | src/options.cpp:10 | stoul reads the longest prefix of decimal digits, stopping at the first non-digit. |
| Options.Stoul | src/options.cpp:10 | stoul throws invalid_argument exactly when the text is empty or does not start with a digit. |
| Options.Decimal | test/test_options.cpp:7-10 | Every number has a non-empty decimal numeral whose value is that number. It is the inverse used for the option round trip. |
| Options.LeadingDigitsOf | src/options.cpp:10 | A run of digits followed by a non-digit, or by the end of the text, is read whole. |
| Options.ScreenDimensionsFromOption | src/options.cpp:6-11 | A window-size text that does not start with a digit is always rejected (whitespace and signs aside, see Left out). |
| Options.ParseDigits | src/options.cpp:6-11 | Digits, then `x`, then digits, then a tail that does not start with a digit, parse to the two numbers. |
| Options.RoundTrip | src/options.cpp:6-11 | Formatting any (width, height) as "WxH" and parsing it back gives the same pair. |
| Options.SplitAtFirst | src/options.cpp:7-9 | The split is at the first `x`: the width text is everything before it, and the height text is everything after it. |
| Options.NoSeparator | src/options.cpp:7-9 | Without an `x`, npos + 1 wraps to 0, so both halves are the whole text and the width equals the height. |
| Options.MissingNumber | src/options.cpp:10 | "x600" and "800x" are rejected, because an empty half is not a number. |
| Options.ExampleFullHd | test/test_options.cpp:7-10 | "1920x1080" parses to (1920, 1080). |
| Options.ExampleTrailing | src/options.cpp:9-10 | "800x600x3" parses to (800, 600), because stoul stops at the second `x`. |
| Options.ExampleMissing | src/options.cpp:10 | The concrete texts "x600" and "800x" are rejected. |

## Left out

- Rendering and SFML resources are left out because they are graphics I/O with no integer logic to state. This covers `render`, `initializeResources`, `resetGridTexture`, `updateGridSprite`, `updateCellsScale`, the colour setters, and `createCellBordersImage` / `createSquareImage`.
- The event loop and menus are left out because they drive the model through I/O. This covers `handleEvent`, `drawMenu`, `runGameLoop`, `runGame` and `main`.
- `RGBColor` and the four colour fields of `Settings` are left out because they are floating-point UI state, and no engine rule reads them.
- `parseOptions` (src/options.cpp:13-39) is left out. It is the program's own wrapper around the cxxopts library, which is not part of this model, and it prints and calls `exit` on help and on errors.
- Game.GameOfLife.HandleResize: the `sf::RenderWindow` parameter and the three resource refreshes after the re-centring are dropped, because they only touch SFML state.
- Game.Grid.GetPeriodicIndex: does not model the `int` range. The casts of `rows() - (-row) % rows()` to `int`, and `-row` at INT_MIN, are taken as exact.
- Game.Grid.CheckCell: the `size_t` → `int` casts of the index are taken as exact. The unsigned sum cannot overflow, because it is at most 9.
- Game.GameOfLife.constructor: `cell_size` 0 and a screen smaller than one cell are excluded by the precondition. The C++ implementation divides by zero in the first case and fails the Grid assert in the second.
- Game.GameOfLife.IsOutOfScreenBounds: positions and sums are natural numbers. Unsigned wrap-around of `start + cell_size * columns + offset` is not modelled.
- Game.GameOfLife.GetIndexFromPositionOnScreen: the unsigned subtractions are exact here. They cannot wrap, because the bounds check runs first.
- Options.Stoul: does not model leading whitespace, a sign, a `0x` prefix (stoul's base is 10, so there is none), or the `out_of_range` error for values beyond `unsigned long`. The narrowing of the result to `unsigned` is not modelled either.
- Concurrency is left out because the engine is single-threaded, so there is none to model.
