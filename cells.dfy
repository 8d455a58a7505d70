/** The values a cell of the grid can hold, their display symbols, and the
    closed set of game outcomes. */
module Cells {

  /** The conventional Some/None datatype, standing for a reference that may be null. */
  datatype Option<+T> = None | Some(value: T)

  /** The three cell states: an empty cell and the two players' marks. */
  datatype CellType = EMPTY | X | O

  /** The five outcomes a status query can report. */
  datatype GameStatus = NOT_FINISHED | DRAW | X_WINS | O_WINS | IMPOSSIBLE

  /** The cell types in declaration order, the order a lookup visits them in. */
  const Values: seq<CellType> := [EMPTY, X, O]

  /** The display character of a cell type. */
  function Symbol(t: CellType): (ch: char)
    ensures ch in {'_', 'X', 'O'}
  {
    match t
    case EMPTY => '_'
    case X => 'X'
    case O => 'O'
  }

  /** `o` is what looking `ch` up in the symbol table must give: the cell type
      displayed as `ch`, or None when no cell type is displayed as `ch`. */
  ghost predicate Decodes(o: Option<CellType>, ch: char)
  {
    match o
    case Some(t) => Symbol(t) == ch
    case None => forall t: CellType :: Symbol(t) != ch
  }

  /** Distinct cell types have distinct symbols, so the symbol table can be
      read backwards. */
  lemma SymbolInjective(a: CellType, b: CellType)
    requires Symbol(a) == Symbol(b)
    ensures a == b
  {
  }

  /** A character has at most one reading. */
  lemma DecodesUnique(a: Option<CellType>, b: Option<CellType>, ch: char)
    requires Decodes(a, ch) && Decodes(b, ch)
    ensures a == b
  {
    if a.Some? && b.Some? {
      SymbolInjective(a.value, b.value);
    }
  }

  /** Every cell type is visited by a lookup over `Values`. */
  lemma ValuesCoverAll(t: CellType)
    ensures t in Values
  {
  }

  /** Linear search of the symbol table: the first cell type whose symbol is
      `ch`, or None (the source's null) for any other character. */
  method FindBySymbol(ch: char) returns (r: Option<CellType>)
    ensures Decodes(r, ch)
    ensures r.Some? <==> ch in {'_', 'X', 'O'}
  {
    var i := 0;
    while i < |Values|
      invariant 0 <= i <= |Values|
      invariant forall k :: 0 <= k < i ==> Symbol(Values[k]) != ch
    {
      if Symbol(Values[i]) == ch {
        return Some(Values[i]);
      }
      i := i + 1;
    }
    forall t: CellType
      ensures Symbol(t) != ch
    {
      ValuesCoverAll(t);
    }
    assert Symbol(EMPTY) != ch && Symbol(X) != ch && Symbol(O) != ch;
    return None;
  }
}
