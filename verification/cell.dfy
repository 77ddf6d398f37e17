/**
 One cell of the board: its grid coordinates, whether it hides a surprise,
 whether it was clicked this round, and the colour its image shows.
 */
module CellModel {

  /**
   The colour of a cell's image: White while unclicked, then Red for a cell
   that holds a surprise, Yellow for one with a surprise one or two cells
   away, Green for one with none that close.
   */
  datatype Color = White | Red | Yellow | Green

  class Cell {
    var x: int
    var y: int
    var surprise: bool
    var isValidated: bool
    var color: Color

    /** A freshly added cell component: field defaults and a white image. */
    constructor ()
      ensures x == 0 && y == 0
      ensures !surprise && !isValidated && color == White
    {
      x, y := 0, 0;
      surprise, isValidated := false, false;
      color := White;
    }

    /** The `HasSurprize` property read: the `surprise` field itself. */
    function HasSurprize(): bool
      reads this
    {
      surprise
    }

    /** The state a round starts from: no surprise, unclicked, white. */
    predicate IsCleared()
      reads this
    {
      !surprise && !isValidated && color == White
    }

    /** The `HasSurprize` property write: a later read returns `value`. */
    method SetHasSurprize(value: bool)
      modifies this
      ensures HasSurprize() == value
      ensures x == old(x) && y == old(y)
      ensures isValidated == old(isValidated) && color == old(color)
    {
      surprise := value;
    }

    /** Places the cell at column `a`, row `b`. */
    method SetGridPosition(a: int, b: int)
      modifies this
      ensures x == a && y == b
      ensures surprise == old(surprise) && isValidated == old(isValidated)
      ensures color == old(color)
    {
      x := a;
      y := b;
    }

    /** Hides a surprise in the cell. */
    method AddSuprise()
      modifies this
      ensures HasSurprize()
      ensures x == old(x) && y == old(y)
      ensures isValidated == old(isValidated) && color == old(color)
    {
      SetHasSurprize(true);
    }

    /**
     Clears the cell for the next round. From a cleared cell it changes
     nothing, so a second call has no effect.
     */
    method RemoveAndResetSurprise()
      modifies this
      ensures IsCleared()
      ensures x == old(x) && y == old(y)
      ensures old(IsCleared()) ==> unchanged(this)
    {
      if HasSurprize() {
        SetHasSurprize(false);
      }
      isValidated := false;
      color := White;
    }

    /** Colours a clicked cell and marks it validated. */
    method ChangeCellColor(newColor: Color)
      modifies this
      ensures isValidated && color == newColor
      ensures surprise == old(surprise)
      ensures x == old(x) && y == old(y)
    {
      isValidated := true;
      color := newColor;
    }
  }
}
