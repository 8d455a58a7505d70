/** A game in progress: the field it is played on, the win threshold and the
    player whose turn it is. */
module Games {
  import opened Cells
  import opened Boards
  import opened Fields

  /** The target of a move: column x and row y, both counted from 1. */
  datatype Coords = Coords(x: int, y: int)

  class Game {
    const field: Field
    const inRowToWin: int
    var currentPlayer: CellType

    ghost predicate Valid()
      reads this, field, field.cells
    {
      field.Valid()
    }

    constructor (field: Field, inRowToWin: int, firstPlayer: CellType)
      requires field.Valid()
      ensures Valid()
      ensures this.field == field && this.inRowToWin == inRowToWin
      ensures currentPlayer == firstPlayer
    {
      this.field := field;
      this.inRowToWin := inRowToWin;
      currentPlayer := firstPlayer;
    }

    /** Places the current player's mark at `coords`, then passes the turn.
        The cell is not checked here: callers ask `CanOccupyCell` first. When
        they do, and the marks so far alternate from X, they keep alternating. */
    method MakeTurn(coords: Coords)
      requires Valid() && InBounds(field.size, coords.x, coords.y)
      modifies this, field, field.cells
      ensures Valid()
      ensures field.Grid == Put(old(field.Grid), coords.x, coords.y, old(currentPlayer))
      ensures currentPlayer == NextPlayer(old(currentPlayer))
      ensures old(At(field.Grid, coords.x, coords.y)) == EMPTY && old(Alternating(field.Grid, currentPlayer)) ==>
                Alternating(field.Grid, currentPlayer)
    {
      ghost var before, player := field.Grid, currentPlayer;
      OccupyCell(coords, currentPlayer);
      SwitchPlayer();
      if At(before, coords.x, coords.y) == EMPTY && Alternating(before, player) {
        TurnKeepsAlternation(before, coords.x, coords.y, player);
      }
    }

    /** Passes the turn: X hands over to O, and anything else to X. */
    method SwitchPlayer()
      modifies this
      ensures currentPlayer == NextPlayer(old(currentPlayer))
    {
      if currentPlayer == X {
        currentPlayer := O;
      } else {
        currentPlayer := X;
      }
    }

    /** Whether the cell at `coords` holds a mark. */
    function IsCellOccupied(coords: Coords): (occupied: bool)
      reads this, field, field.cells
      requires Valid() && InBounds(field.size, coords.x, coords.y)
      ensures occupied <==> At(field.Grid, coords.x, coords.y) in {X, O}
    {
      field.GetType(coords.x, coords.y) != EMPTY
    }

    /** Whether a mark may be placed at `coords`: exactly when the cell is
        empty, and then the grid has an empty cell left. */
    function CanOccupyCell(coords: Coords): (free: bool)
      reads this, field, field.cells
      requires Valid() && InBounds(field.size, coords.x, coords.y)
      ensures free <==> At(field.Grid, coords.x, coords.y) == EMPTY
      ensures free ==> Count(field.Grid, EMPTY) > 0
    {
      EmptyCellExists(field.Grid);
      !IsCellOccupied(coords)
    }

    /** Writes `t` into the cell at `coords`. */
    method OccupyCell(coords: Coords, t: CellType)
      requires Valid() && InBounds(field.size, coords.x, coords.y)
      modifies field, field.cells
      ensures Valid()
      ensures field.Grid == Put(old(field.Grid), coords.x, coords.y, t)
    {
      field.SetType(coords.x, coords.y, t);
    }

    /** The outcome of the field at this game's threshold. The line scan for a
        mark runs only once that mark has at least `inRowToWin` cells, and the
        empty cells are counted only when nobody has won. */
    method GetStatus() returns (status: GameStatus)
      requires Valid()
      ensures status == Status(field.Grid, inRowToWin)
    {
      var numberOfX := field.GetNumberOfType(X);
      var numberOfO := field.GetNumberOfType(O);
      if numberOfX - numberOfO > 1 || numberOfO - numberOfX > 1 {
        return IMPOSSIBLE;
      }
      var xCanWin := false;
      if numberOfX >= inRowToWin {
        xCanWin := field.ContainsNumberOfTypeInRow(inRowToWin, X);
      }
      var oCanWin := false;
      if numberOfO >= inRowToWin {
        oCanWin := field.ContainsNumberOfTypeInRow(inRowToWin, O);
      }
      if xCanWin && oCanWin {
        return IMPOSSIBLE;
      }
      if xCanWin {
        return X_WINS;
      }
      if oCanWin {
        return O_WINS;
      }
      var numberOfEmpty := field.GetNumberOfType(EMPTY);
      if numberOfEmpty == 0 {
        return DRAW;
      }
      return NOT_FINISHED;
    }
  }
}
