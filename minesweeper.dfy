/** The Minesweeper board: a fixed grid, the mines placed once when the
    board is made, and the cells the player has opened or flagged. */
module Minesweeper {
  import opened Options
  import opened Neighbours
  import opened Render

  /** What opening a cell reveals. `open` never fills in the count of a
      non-mine cell: it always reports `NoMine(0)`. */
  datatype OpenResult = Mine | NoMine(n: u8)

  /** The whole state of a board, as a value. */
  datatype Board = Board(
    width: nat,
    height: nat,
    openFields: set<Position>,
    mines: set<Position>,
    flaggedFields: set<Position>)
  {
    /** Every mine lies on the grid, and no cell is both open and flagged. */
    predicate Valid()
    {
      (forall p :: p in mines ==> InGrid(width, height, p)) &&
      openFields !! flaggedFields
    }

    /** Every position the board holds lies on the grid. */
    predicate OnGrid()
    {
      (forall p :: p in openFields ==> InGrid(width, height, p)) &&
      (forall p :: p in mines ==> InGrid(width, height, p)) &&
      (forall p :: p in flaggedFields ==> InGrid(width, height, p))
    }
  }

  /** A board as `new` leaves it: nothing opened, nothing flagged. */
  function Fresh(width: nat, height: nat, mines: set<Position>): Board
  {
    Board(width, height, {}, mines, {})
  }

  // ---------------------------------------------------------------------------
  // The two player actions
  // ---------------------------------------------------------------------------

  /** `open`: the board afterwards and the result. */
  function OpenStep(b: Board, pos: Position): (r: (Board, Option<OpenResult>))
    // the grid, the mines and the flags never change
    ensures r.0.width == b.width && r.0.height == b.height
    ensures r.0.mines == b.mines && r.0.flaggedFields == b.flaggedFields
    // a flagged cell is refused: no result, and nothing opens
    ensures r.1 == None <==> pos in b.flaggedFields
    // otherwise exactly `pos` joins the open cells
    ensures forall q :: q in r.0.openFields <==> q in b.openFields || (q == pos && pos !in b.flaggedFields)
    // the result says whether `pos` is a mine, and never carries a count
    ensures r.1 == Some(Mine) <==> pos !in b.flaggedFields && pos in b.mines
    ensures r.1 == Some(NoMine(0)) <==> pos !in b.flaggedFields && pos !in b.mines
  {
    if pos in b.flaggedFields then (b, None)
    else
      var after := b.(openFields := b.openFields + {pos});
      if pos in b.mines then (after, Some(Mine)) else (after, Some(NoMine(0)))
  }

  /** `toggle_flag`: the board afterwards. */
  function ToggleFlagStep(b: Board, pos: Position): (r: Board)
    // the grid, the mines and the open cells never change
    ensures r.width == b.width && r.height == b.height
    ensures r.mines == b.mines && r.openFields == b.openFields
    // no other cell's flag changes
    ensures forall q :: q != pos ==> (q in r.flaggedFields <==> q in b.flaggedFields)
    // an open cell keeps its flag state; a hidden one has it flipped
    ensures pos in r.flaggedFields <==> if pos in b.openFields then pos in b.flaggedFields else pos !in b.flaggedFields
  {
    if pos in b.openFields then b
    else if pos in b.flaggedFields then b.(flaggedFields := b.flaggedFields - {pos})
    else b.(flaggedFields := b.flaggedFields + {pos})
  }

  /** Opening the same cell again changes nothing more and reports the same. */
  lemma OpenIdempotent(b: Board, pos: Position)
    ensures OpenStep(OpenStep(b, pos).0, pos) == OpenStep(b, pos)
  {
    var once := OpenStep(b, pos).0;
    if pos !in b.flaggedFields {
      assert once.openFields + {pos} == once.openFields;
    }
  }

  /** Toggling a flag twice in a row gives back the board it started from. */
  lemma ToggleFlagTwice(b: Board, pos: Position)
    ensures ToggleFlagStep(ToggleFlagStep(b, pos), pos) == b
  {
    var twice := ToggleFlagStep(ToggleFlagStep(b, pos), pos);
    assert twice.flaggedFields == b.flaggedFields;
  }

  /** A flag protects its cell: flag a hidden cell, then try to open it,
      and the attempt is refused with the cell still closed. */
  lemma FlagProtects(b: Board, pos: Position)
    requires pos !in b.openFields && pos !in b.flaggedFields
    ensures OpenStep(ToggleFlagStep(b, pos), pos).1 == None
    ensures pos !in OpenStep(ToggleFlagStep(b, pos), pos).0.openFields
  {
  }

  /** The state of a single cell, as the player sees it. */
  datatype Status = HiddenCell | FlaggedCell | OpenedCell

  function StatusOf(b: Board, p: Position): Status
  {
    if p in b.openFields then OpenedCell
    else if p in b.flaggedFields then FlaggedCell
    else HiddenCell
  }

  /** The life of one cell: a hidden cell opens or gets a flag, a flagged
      cell can only lose its flag, and an open cell stays open. An action
      on one cell leaves every other cell as it was. */
  lemma CellTransitions(b: Board, pos: Position, q: Position)
    ensures StatusOf(OpenStep(b, pos).0, pos) ==
      (if StatusOf(b, pos) == FlaggedCell then FlaggedCell else OpenedCell)
    ensures StatusOf(ToggleFlagStep(b, pos), pos) ==
      match StatusOf(b, pos)
      case HiddenCell => FlaggedCell
      case FlaggedCell => HiddenCell
      case OpenedCell => OpenedCell
    ensures q != pos ==> StatusOf(OpenStep(b, pos).0, q) == StatusOf(b, q)
    ensures q != pos ==> StatusOf(ToggleFlagStep(b, pos), q) == StatusOf(b, q)
  {
  }

  // ---------------------------------------------------------------------------
  // Any sequence of actions
  // ---------------------------------------------------------------------------

  datatype Move = OpenAt(pos: Position) | ToggleFlagAt(pos: Position)

  function Apply(b: Board, m: Move): Board
  {
    match m
    case OpenAt(p) => OpenStep(b, p).0
    case ToggleFlagAt(p) => ToggleFlagStep(b, p)
  }

  function Play(b: Board, moves: seq<Move>): Board
    decreases |moves|
  {
    if moves == [] then b else Play(Apply(b, moves[0]), moves[1..])
  }

  /** Every action keeps the board valid: opening refuses a flagged cell and
      flagging ignores an open one, so no cell is ever both; the grid and the
      mines never change. */
  lemma {:induction false} PlayKeepsValid(b: Board, moves: seq<Move>)
    requires b.Valid()
    decreases |moves|
    ensures Play(b, moves).Valid()
    ensures Play(b, moves).width == b.width && Play(b, moves).height == b.height
    ensures Play(b, moves).mines == b.mines
  {
    if moves != [] {
      var next := Apply(b, moves[0]);
      assert next.Valid();
      PlayKeepsValid(next, moves[1..]);
    }
  }

  /** Actions on cells of the grid keep every open and flagged cell on it. */
  lemma {:induction false} PlayKeepsOnGrid(b: Board, moves: seq<Move>)
    requires b.OnGrid()
    requires forall i :: 0 <= i < |moves| ==> InGrid(b.width, b.height, moves[i].pos)
    ensures Play(b, moves).OnGrid()
    decreases |moves|
  {
    if moves != [] {
      var next := Apply(b, moves[0]);
      assert next.OnGrid();
      PlayKeepsOnGrid(next, moves[1..]);
    }
  }

  /** From a new board, the open and the flagged cells stay disjoint
      whatever the player does. */
  lemma NewGameKeepsDisjoint(width: nat, height: nat, mines: set<Position>, moves: seq<Move>)
    requires forall p :: p in mines ==> InGrid(width, height, p)
    ensures Play(Fresh(width, height, mines), moves).openFields !! Play(Fresh(width, height, mines), moves).flaggedFields
  {
    PlayKeepsValid(Fresh(width, height, mines), moves);
  }

  // ---------------------------------------------------------------------------
  // The view `Display` renders
  // ---------------------------------------------------------------------------

  /** What cell `pos` shows: a flag or the hidden mark while unopened, the
      bomb once a mine is opened, and the adjacent-mine count otherwise. */
  function CellAt(b: Board, pos: Position): (c: Cell)
    requires InGrid(b.width, b.height, pos)
    ensures c == Flagged <==> pos !in b.openFields && pos in b.flaggedFields
    ensures c == Hidden <==> pos !in b.openFields && pos !in b.flaggedFields
    ensures c == Bomb <==> pos in b.openFields && pos in b.mines
    ensures c.Count? <==> pos in b.openFields && pos !in b.mines
    ensures c.Count? ==> c.n as int == |MinesAround(b.width, b.height, b.mines, pos)| <= 8
  {
    NeighbouringMinesBounds(b.width, b.height, b.mines, pos);
    if pos !in b.openFields then
      if pos in b.flaggedFields then Flagged else Hidden
    else if pos in b.mines then Bomb
    else Count(NeighbouringMines(b.width, b.height, b.mines, pos))
  }

  /** Row `y` of the view: `width` cells from column 0. */
  function ViewRow(b: Board, y: nat): (row: seq<Cell>)
    requires y < b.height
    ensures |row| == b.width
  {
    seq(b.width, x requires 0 <= x < b.width => CellAt(b, (x, y)))
  }

  /** `height` rows from row 0 down, each `width` cells from column 0. */
  function View(b: Board): (rows: seq<seq<Cell>>)
    ensures |rows| == b.height
    ensures forall y :: 0 <= y < b.height ==> rows[y] == ViewRow(b, y)
  {
    seq(b.height, y requires 0 <= y < b.height => ViewRow(b, y))
  }

  /** On a valid board each cell shows what the player knows of it: the flag
      exactly when flagged, the hidden mark exactly when neither open nor
      flagged, the bomb exactly when an opened mine, and otherwise the number
      of mines around it, which is at most 8. */
  lemma ViewShows(b: Board, x: nat, y: nat)
    requires b.Valid() && x < b.width && y < b.height
    ensures View(b)[y][x] == Flagged <==> (x, y) in b.flaggedFields
    ensures View(b)[y][x] == Hidden <==> (x, y) !in b.openFields && (x, y) !in b.flaggedFields
    ensures View(b)[y][x] == Bomb <==> (x, y) in b.openFields && (x, y) in b.mines
    ensures View(b)[y][x].Count? <==> (x, y) in b.openFields && (x, y) !in b.mines
    ensures View(b)[y][x].Count? ==>
      View(b)[y][x].n as int == |MinesAround(b.width, b.height, b.mines, (x, y))| <= 8
  {
    NeighbouringMinesBounds(b.width, b.height, b.mines, (x, y));
  }

  /** The text of any board's view reads back as that view. */
  lemma DisplayRoundTrip(b: Board)
    ensures ParseText(Text(View(b))) == Some(View(b))
  {
    var rows: seq<seq<Cell>> := View(b);
    forall y: int, x: int | 0 <= y < |rows| && 0 <= x < |rows[y]| && rows[y][x].Count?
      ensures rows[y][x].n < 10
    {
      CountIsDigit(b, (x, y));
    }
    TextRoundTrip(rows);
  }

  lemma CountIsDigit(b: Board, pos: Position)
    requires InGrid(b.width, b.height, pos)
    ensures CellAt(b, pos).Count? ==> CellAt(b, pos).n < 10
  {
    NeighbouringMinesBounds(b.width, b.height, b.mines, pos);
  }

  /** The text `Display` writes for one cell, case by case. */
  lemma CellGlyph(b: Board, pos: Position)
    requires InGrid(b.width, b.height, pos)
    ensures Glyph(CellAt(b, pos)) ==
      if pos !in b.openFields then
        if pos in b.flaggedFields then [FLAG_MARK, ' '] else [HIDDEN_MARK, ' ']
      else if pos in b.mines then [BOMB_MARK, ' ']
      else Decimal(NeighbouringMines(b.width, b.height, b.mines, pos) as nat) + "  "
  {
  }

  /** The count `open` reports is not the count the view shows: with one
      mine at (0, 1), opening (0, 0) reports `NoMine(0)` while the opened
      cell shows 1. */
  lemma OpenReportsNoCount()
    ensures var b := Fresh(2, 2, {(0, 1)});
      OpenStep(b, (0, 0)).1 == Some(NoMine(0)) &&
      View(OpenStep(b, (0, 0)).0)[0][0] == Count(1)
  {
    var b := Fresh(2, 2, {(0, 1)});
    assert MinesAround(2, 2, b.mines, (0, 0)) == {(0, 1)};
  }

  // ---------------------------------------------------------------------------
  // The board object
  // ---------------------------------------------------------------------------

  class Minesweeper {
    const width: nat
    const height: nat
    var openFields: set<Position>
    var mines: set<Position>
    var flaggedFields: set<Position>

    function Snapshot(): Board
      reads this
    {
      Board(width, height, openFields, mines, flaggedFields)
    }

    ghost predicate Valid()
      reads this
    {
      Snapshot().Valid()
    }

    /** `new`: an empty board over `mineCount` mines placed on the grid.
        Placing them only ends when they fit. */
    constructor (width: nat, height: nat, mineCount: nat)
      requires mineCount <= width * height
      ensures Valid()
      ensures Snapshot() == Fresh(width, height, mines)
      ensures |mines| == mineCount
    {
      var placed := GenMines(width, height, mineCount);
      this.width := width;
      this.height := height;
      openFields := {};
      mines := placed;
      flaggedFields := {};
    }

    /** `open`: refuses a flagged cell, and otherwise opens it and says
        whether it is a mine. */
    method Open(position: Position) returns (r: Option<OpenResult>)
      requires Valid()
      modifies this
      ensures Valid()
      ensures (Snapshot(), r) == OpenStep(old(Snapshot()), position)
      ensures mines == old(mines) && flaggedFields == old(flaggedFields)
      ensures position in old(flaggedFields) ==> r == None && openFields == old(openFields)
      ensures position !in old(flaggedFields) ==> openFields == old(openFields) + {position}
      ensures position !in old(flaggedFields) ==> r == Some(if position in mines then Mine else NoMine(0))
    {
      if position in flaggedFields {
        return None;
      }
      openFields := openFields + {position};
      var isMine := position in mines;
      if isMine {
        r := Some(Mine);
      } else {
        r := Some(NoMine(0));
      }
    }

    /** `toggle_flag`: ignores an open cell, and otherwise flips its flag. */
    method ToggleFlag(pos: Position)
      requires Valid()
      modifies this
      ensures Valid()
      ensures Snapshot() == ToggleFlagStep(old(Snapshot()), pos)
      ensures mines == old(mines) && openFields == old(openFields)
      ensures pos in old(openFields) ==> flaggedFields == old(flaggedFields)
      ensures pos !in old(openFields) && pos in old(flaggedFields) ==> flaggedFields == old(flaggedFields) - {pos}
      ensures pos !in old(openFields) && pos !in old(flaggedFields) ==> flaggedFields == old(flaggedFields) + {pos}
    {
      if pos in openFields {
        return;
      }
      if pos in flaggedFields {
        flaggedFields := flaggedFields - {pos};
      } else {
        flaggedFields := flaggedFields + {pos};
      }
    }

    /** `gen_mines`: keeps drawing cells of the grid until `mineCount`
        distinct ones are mines. A draw that hits a mine already placed
        leaves the set as it is, so each round of the loop stands for the
        next draw that adds a mine. */
    static method GenMines(width: nat, height: nat, mineCount: nat) returns (mines: set<Position>)
      requires mineCount <= width * height
      ensures |mines| == mineCount
      ensures forall p :: p in mines ==> InGrid(width, height, p)
    {
      GridSize(width, height);
      mines := {};
      while |mines| < mineCount
        invariant mines <= Grid(width, height)
        invariant |mines| <= mineCount
        decreases mineCount - |mines|
      {
        SubsetDifference(Grid(width, height), mines);
        var p :| p in Grid(width, height) && p !in mines;
        mines := mines + {p};
      }
    }

    /** `Display::fmt`: the view written row by row, each row closed by a
        newline. */
    method Fmt() returns (s: string)
      ensures s == Text(View(Snapshot()))
    {
      s := "";
      for y := 0 to height
        invariant s == Text(View(Snapshot())[..y])
      {
        var line := FmtRow(y);
        TextPrefixStep(View(Snapshot()), y);
        s := s + line + "\n";
      }
      assert View(Snapshot())[..height] == View(Snapshot());
    }

    /** The inner loop of `Display::fmt`: row `y`, cell by cell from column 0. */
    method FmtRow(y: nat) returns (line: string)
      requires y < height
      ensures line == RowText(ViewRow(Snapshot(), y))
    {
      line := "";
      for x := 0 to width
        invariant line == RowText(ViewRow(Snapshot(), y)[..x])
      {
        var pos := (x, y);
        var glyph: string;
        if pos !in openFields {
          if pos in flaggedFields {
            glyph := [FLAG_MARK, ' '];
          } else {
            glyph := [HIDDEN_MARK, ' '];
          }
        } else if pos in mines {
          glyph := [BOMB_MARK, ' '];
        } else {
          glyph := Decimal(NeighbouringMines(width, height, mines, pos) as nat) + "  ";
        }
        CellGlyph(Snapshot(), pos);
        RowTextPrefixStep(ViewRow(Snapshot(), y), x);
        line := line + glyph;
      }
      assert ViewRow(Snapshot(), y)[..width] == ViewRow(Snapshot(), y);
    }
  }
}
