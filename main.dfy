/** The program around the game: its constants, the start field, reading a
    field from a cells string, the status messages, and the rules of the
    main loop that alternates moves until the game is decided. */
module TicTacToe {
  import opened Cells
  import opened Boards
  import opened Fields
  import opened Games

  /** The side of the field. */
  const SIZE: nat := 3
  /** The length of a winning line: a full row, column or diagonal. */
  const IN_ROW_TO_WIN: int := SIZE

  /** A fresh SIZE-by-SIZE field with every cell empty. */
  method InitField() returns (field: Field)
    ensures fresh(field) && fresh(field.cells)
    ensures field.Valid() && field.size == SIZE
    ensures field.Grid == EmptyBoard(SIZE)
  {
    var cells := new CellType[SIZE, SIZE];
    var i := 0;
    while i < SIZE
      invariant 0 <= i <= SIZE
      invariant forall r, c :: 0 <= r < i && 0 <= c < SIZE ==> cells[r, c] == EMPTY
    {
      var j := 0;
      while j < SIZE
        invariant 0 <= j <= SIZE
        invariant forall r, c :: 0 <= r < i && 0 <= c < SIZE ==> cells[r, c] == EMPTY
        invariant forall c :: 0 <= c < j ==> cells[i, c] == EMPTY
      {
        cells[i, j] := EMPTY;
        j := j + 1;
      }
      i := i + 1;
    }
    field := new Field(cells);
    SameCells(field.Grid, EmptyBoard(SIZE));
  }

  /** Reads a SIZE-by-SIZE array from a cells string, row by row: the
      character at i * SIZE + j fills array row i, column j. A character that
      is no cell symbol gives None. */
  method ParseCells(cellsLine: string) returns (cells: array2<Option<CellType>>)
    requires |cellsLine| >= SIZE * SIZE
    ensures fresh(cells) && cells.Length0 == SIZE && cells.Length1 == SIZE
    ensures forall r, c :: 0 <= r < SIZE && 0 <= c < SIZE ==> Decodes(cells[r, c], cellsLine[r * SIZE + c])
  {
    cells := new Option<CellType>[SIZE, SIZE];
    var i := 0;
    while i < SIZE
      invariant 0 <= i <= SIZE
      invariant forall r, c :: 0 <= r < i && 0 <= c < SIZE ==> Decodes(cells[r, c], cellsLine[r * SIZE + c])
    {
      var j := 0;
      while j < SIZE
        invariant 0 <= j <= SIZE
        invariant forall r, c :: 0 <= r < i && 0 <= c < SIZE ==> Decodes(cells[r, c], cellsLine[r * SIZE + c])
        invariant forall c :: 0 <= c < j ==> Decodes(cells[i, c], cellsLine[i * SIZE + c])
      {
        cells[i, j] := FindBySymbol(cellsLine[i * SIZE + j]);
        j := j + 1;
      }
      i := i + 1;
    }
  }

  /** The cells string of a grid: the symbol of every cell, row after row. */
  ghost function Render(g: Board): (line: string)
    requires IsSquare(g)
    ensures |line| == |g| * |g|
  {
    FlattenLength(g, |g|);
    var cells := Flatten(g);
    seq(|cells|, i requires 0 <= i < |cells| => Symbol(cells[i]))
  }

  /** Reading the cells string of a SIZE-by-SIZE grid gives back every cell
      (and by `DecodesUnique` nothing else). */
  lemma RenderThenParse(g: Board)
    requires IsSquare(g) && |g| == SIZE
    ensures |Render(g)| == SIZE * SIZE
    ensures forall r, c :: 0 <= r < SIZE && 0 <= c < SIZE ==> Decodes(Some(g[r][c]), Render(g)[r * SIZE + c])
  {
    forall r, c | 0 <= r < SIZE && 0 <= c < SIZE
      ensures Render(g)[r * SIZE + c] == Symbol(g[r][c])
    {
      FlattenAt(g, SIZE, r, c);
    }
  }

  /** The message printed for each outcome. */
  function GetStatusMessage(status: GameStatus): (message: string)
    ensures message != []
  {
    match status
    case NOT_FINISHED => "Game not finished"
    case DRAW => "Draw"
    case X_WINS => "X wins"
    case O_WINS => "O wins"
    case IMPOSSIBLE => "Impossible"
  }

  /** Each outcome has its own message, so a message names the outcome. */
  lemma StatusMessagesDistinct(a: GameStatus, b: GameStatus)
    requires GetStatusMessage(a) == GetStatusMessage(b)
    ensures a == b
  {
  }

  /** The grid and the player to move, as the main loop sees them. */
  datatype State = State(grid: Board, player: CellType)

  /** The game the program starts: the empty field with X to move. */
  ghost function Start(): State
  {
    State(EmptyBoard(SIZE), X)
  }

  /** The main loop fed with the coordinates `input`, in order. While the game
      is not finished it takes the next coordinates, passing over any out of
      range or naming an occupied cell, and plays the first usable ones; once
      the game is decided it stops reading. */
  ghost function Play(s: State, input: seq<Coords>): (final: State)
    requires IsSquare(s.grid)
    ensures IsSquare(final.grid) && |final.grid| == |s.grid|
    decreases |input|
  {
    if input == [] || Status(s.grid, IN_ROW_TO_WIN) != NOT_FINISHED then s
    else
      var c := input[0];
      if InBounds(|s.grid|, c.x, c.y) && At(s.grid, c.x, c.y) == EMPTY then
        Play(State(Put(s.grid, c.x, c.y, s.player), NextPlayer(s.player)), input[1..])
      else
        Play(s, input[1..])
  }

  /** The start is in play, with X to move and equal counts of X and O. */
  lemma StartInPlay()
    ensures Status(Start().grid, IN_ROW_TO_WIN) == NOT_FINISHED
    ensures Alternating(Start().grid, Start().player)
  {
    EmptyBoardNotFinished(SIZE, IN_ROW_TO_WIN);
    EmptyBoardCounts(SIZE);
  }

  /** Every state the main loop passes through keeps the marks alternating
      and is never impossible. */
  lemma {:induction false} PlayKeepsAlternation(s: State, input: seq<Coords>)
    requires IsSquare(s.grid) && Alternating(s.grid, s.player)
    requires Status(s.grid, IN_ROW_TO_WIN) != IMPOSSIBLE
    ensures Alternating(Play(s, input).grid, Play(s, input).player)
    ensures Status(Play(s, input).grid, IN_ROW_TO_WIN) != IMPOSSIBLE
    decreases |input|
  {
    if input == [] || Status(s.grid, IN_ROW_TO_WIN) != NOT_FINISHED {
    } else {
      var c := input[0];
      if InBounds(|s.grid|, c.x, c.y) && At(s.grid, c.x, c.y) == EMPTY {
        TurnKeepsAlternation(s.grid, c.x, c.y, s.player);
        TurnNeverImpossible(s.grid, IN_ROW_TO_WIN, c.x, c.y, s.player);
        PlayKeepsAlternation(State(Put(s.grid, c.x, c.y, s.player), NextPlayer(s.player)), input[1..]);
      } else {
        PlayKeepsAlternation(s, input[1..]);
      }
    }
  }

  /** From the start, no sequence of coordinates drives the game to an
      impossible status: at most one more X than O, and never two winners. */
  lemma MainLoopNeverImpossible(input: seq<Coords>)
    ensures var final := Play(Start(), input);
            Status(final.grid, IN_ROW_TO_WIN) != IMPOSSIBLE &&
            0 <= Count(final.grid, X) - Count(final.grid, O) <= 1
  {
    StartInPlay();
    PlayKeepsAlternation(Start(), input);
  }
}
