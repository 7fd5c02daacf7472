# Minesweeper rule engine, modelled in Dafny

This project models the board of a single-player Minesweeper game. A board is a
fixed `width` x `height` grid with three sets of `(column, row)` positions: the
open cells, the mines and the flagged cells. The player can do two things:

- `open` a cell. A flagged cell is refused. Any other cell is opened, and the
  result says whether it is a mine.
- `toggle_flag` a cell. An open cell is ignored. Any other cell has its flag
  flipped.

The mines are placed once, when the board is made (`new` calls `gen_mines`).
The board renders as text: one glyph per cell, row by row, and each row ends
with a newline. An opened non-mine cell shows its adjacent-mine count. That
count comes from `iter_neighbours`, the Moore neighbourhood clipped at the grid
edges, through `neighbouring_mines`.

Layout:

- `options.dfy`: module `Options`, the `Option` type that `open` returns.
- `neighbours.dfy`: module `Neighbours`. It holds positions, the grid, the
  clipped ranges and `IterNeighbours` (built as the source builds it: a
  column-major `flat_map`, then a filter), and `NeighbouringMines` with its
  `as u8` cast. `IsNeighbour` is an independent definition (distance at most
  one, inside the grid). Every result is proved against it.
- `render.dfy`: module `Render`. It holds the cell tokens (`Flagged`, `Hidden`,
  `Bomb`, `Count(n)`), the text each token is written as, and a parser for that
  text. The parser is there to prove that the rendering loses nothing.
- `minesweeper.dfy`: module `Minesweeper`.
  - `Board` is the board as a value. `OpenStep` and `ToggleFlagStep` are what
    the two actions do to it. `Play` runs any sequence of actions.
    `View`/`CellAt` give the grid of tokens the display shows.
  - Class `Minesweeper` is the object itself. `width` and `height` are `const`
    fields, and the three sets are mutable fields. `Open` and `ToggleFlag`
    update the sets in place and are proved equal to the step functions.
    `GenMines` is the placement loop. `Fmt` and `FmtRow` are the two nested
    loops of `Display::fmt`.

Two details of the code that the model keeps as written:

- `open` on a non-mine cell returns `NoMine(0)`, not the adjacent-mine count.
  The count appears only in the rendered view. `OpenReportsNoCount` shows this
  on a 2 x 2 board: opening a cell next to a mine reports 0, and the view shows 1.
- Cells have no separator between them. Each glyph carries its own trailing
  space: one after a mark, two after a count.

## Model

| member | source | states |
|---|---|---|
| `Neighbours.IterNeighbours` | src/minesweeper.rs:84-91 | yields exactly the in-grid cells at distance one from `pos`, never `pos` itself and never wrapping round an edge; column-major and strictly increasing, so each neighbour appears once; at most 8 entries for any `pos`, on or off the grid, and for an in-grid cell one fewer than the clipped block's columns times rows |
| `Neighbours.NeighbourBounds` | src/minesweeper.rs:84-91 | an in-grid cell has at most 8 neighbours, at most 5 on an edge and at most 3 in a corner |
| `Neighbours.NeighbouringMines` | src/minesweeper.rs:93-97 | the `u8` result equals the number of mines among the neighbours of `pos`, so the `as u8` cast never truncates; it is at most the neighbourhood's size |
| `Neighbours.NeighbouringMinesBounds` | src/minesweeper.rs:93-97 | the count for an in-grid cell is at most 8, at most 5 on an edge and at most 3 in a corner |
| `Neighbours.GridSize` | src/minesweeper.rs:99-106 | the grid has exactly `width * height` cells, which is why `mine_count <= width * height` mines can be placed |
| `Minesweeper.OpenStep` | src/minesweeper.rs:57-70 | no result exactly when `pos` is flagged; otherwise exactly `pos` joins the open cells; the mines, flags and grid never change; the result is `Mine` exactly when an unflagged `pos` is a mine, and `NoMine(0)` exactly when it is not |
| `Minesweeper.ToggleFlagStep` | src/minesweeper.rs:72-82 | open cells, mines and grid unchanged; no other cell's flag changes; the flag of `pos` flips unless `pos` is open, in which case it stays |
| `Minesweeper.OpenIdempotent` | src/minesweeper.rs:57-70 | opening the same cell twice leaves the board and the result as opening it once |
| `Minesweeper.ToggleFlagTwice` | src/minesweeper.rs:72-82 | toggling the same cell twice in a row gives back the original board |
| `Minesweeper.FlagProtects` | src/minesweeper.rs:57-82 | flagging a hidden cell and then opening it is refused, and the cell stays closed |
| `Minesweeper.CellTransitions` | src/minesweeper.rs:57-82 | a cell's state machine: Hidden opens or becomes Flagged, Flagged only returns to Hidden, Open stays Open; an action leaves every other cell's state unchanged |
| `Minesweeper.PlayKeepsValid` | src/minesweeper.rs:47-82 | after any sequence of opens and flag toggles, open and flagged cells are still disjoint, the mines are still on the grid, and grid and mines are unchanged |
| `Minesweeper.PlayKeepsOnGrid` | src/minesweeper.rs:57-82 | actions on in-grid cells keep every open, mine and flagged position on the grid |
| `Minesweeper.NewGameKeepsDisjoint` | src/minesweeper.rs:47-82 | starting from a new board (nothing open, nothing flagged), no sequence of actions makes a cell both open and flagged |
| `Minesweeper.CellAt` | src/minesweeper.rs:28-38 | the display's precedence for one cell: the flag exactly when unopened and flagged, the hidden mark exactly when unopened and unflagged, the bomb exactly when an opened mine, and otherwise the number of mines around it, at most 8 |
| `Render.Decimal` | src/minesweeper.rs:37 | the `{}` text of a number: decimal digits only, whose value is the number, with no leading zero, and a single digit exactly for numbers below 10 |
| `Render.GlyphShape` | src/minesweeper.rs:30-37 | the text written for a cell: its first character tells the flag, the hidden mark and the bomb apart, each followed by one space; a count is the decimal digits of its value followed by two spaces |
| `Minesweeper.ViewShows` | src/minesweeper.rs:28-38 | on a valid board a cell shows the flag exactly when flagged, the hidden mark exactly when neither open nor flagged, the bomb exactly when it is an opened mine, and otherwise the number of mines around it, at most 8 |
| `Minesweeper.DisplayRoundTrip` | src/minesweeper.rs:22-43 | the text of any board's view parses back to that view, so rows, their order and every cell are recoverable from it |
| `Render.TextRoundTrip` | src/minesweeper.rs:22-43 | the text of a grid whose counts are single digits parses back to exactly that grid |
| `Minesweeper.OpenReportsNoCount` | src/minesweeper.rs:63-69 | with one mine at (0, 1) on a 2 x 2 board, opening (0, 0) reports `NoMine(0)` while the opened cell shows 1 |
| `Minesweeper.Minesweeper.constructor` | src/minesweeper.rs:47-55 | a new board has the given dimensions, no open and no flagged cells, exactly `mineCount` distinct mines all on the grid, and is valid |
| `Minesweeper.Minesweeper.Open` | src/minesweeper.rs:57-70 | the new state and result are those of `OpenStep`: refusal with no change on a flagged cell, otherwise the cell joins the open set and the result is `Mine` or `NoMine(0)`; mines and flags unchanged; validity kept |
| `Minesweeper.Minesweeper.ToggleFlag` | src/minesweeper.rs:72-82 | the new state is that of `ToggleFlagStep`: no change on an open cell, otherwise the cell is removed from or added to the flags; open cells and mines unchanged; validity kept |
| `Minesweeper.Minesweeper.GenMines` | src/minesweeper.rs:99-106 | ends with exactly `mineCount` distinct mines, all inside `[0, width) x [0, height)` |
| `Minesweeper.Minesweeper.Fmt` | src/minesweeper.rs:22-43 | writes the text of the view: `height` rows from row 0, each ended by a newline |
| `Minesweeper.Minesweeper.FmtRow` | src/minesweeper.rs:25-39 | writes the glyphs of row `y` from column 0 to `width - 1`, chosen by the display's precedence: flag, hidden mark, bomb, count |

## Left out

- `src/lib.rs` is not part of this model: the `wasm_bindgen` exports (`greet`, `get_state`, `open_field`), the `alert` binding and the thread-local `RefCell` board are host glue with no rules of their own.
- The random number generator (`thread_rng`, `gen_range`) is replaced by a nondeterministic choice, and uniformity is not stated.
- Minesweeper.Minesweeper.GenMines: each loop round picks a cell that is not yet a mine. A draw that hits an existing mine leaves the set unchanged, so the number of draws is not modelled. When `mine_count > width * height` the source never returns a board: on a grid with at least one row and one column it loops forever, and on a grid with no row or no column (and `mine_count > 0`) `gen_range` panics on its empty range. The model requires `mineCount <= width * height`, which excludes both.
- `Display::fmt` writes straight into a `Formatter` and propagates its errors with `?`. The model builds the string and has no write errors. The inner loop of `fmt` is the separate method `FmtRow`.
- Positions and dimensions are unbounded `nat`, not the machine-width `usize` (32 bits on wasm32, 64 bits on a 64-bit host). The overflow of `x + 1` at `usize::MAX` is not modelled; it cannot happen for an in-grid cell. `IterNeighbours` requires a grid with at least one row and one column, because the source's `width - 1` underflows otherwise.
- `iter_neighbours` returns a lazy iterator; the model returns the sequence it yields.
- `HashSet` hashing is modelled by Dafny's mathematical sets.
- The `#[cfg(test)]` test prints a board and asserts nothing, so it has no counterpart.
- The model adds no flood-fill reveal, no win or loss detection and no bounds checking, because the code has none. `open` and `toggle_flag` accept positions outside the grid, as the code does. Staying on the grid is proved only for in-grid actions (`PlayKeepsOnGrid`).
