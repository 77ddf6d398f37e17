/**
 The grid generator: the board of cells, the surprises hidden in it, the
 move budget and the reset after the moves run out.

 Engine callbacks become explicit calls: start-up is `StartUp` (the
 constructor, then `PlaceSurprize`, then `GenerateGrid`), `OnCellClick` is a
 cell's button being pressed, `FixedUpdate` is one physics tick with the key
 state passed in. The random number source is
 a sequence of draws supplied by the caller (see module Sampling).
 */
module GridModel {
  import opened CellModel
  import opened Sampling
  import opened Proximity

  class GridGenerator {
    var columns: int
    var rows: int
    var totalMoves: int
    var isDebug: bool
    var canReset: bool
    /** Number of surprises hidden in the grid. */
    const MAX_SURPRISE: nat := 10
    /** Every generated cell, column by column. */
    var createdTiles: seq<Cell>
    /** The same cells, by position. */
    var cellsArray: array2<Cell?>
    /** The cells holding a surprise, in the order they were chosen. */
    var surpriceCellList: seq<Cell>

    /**
     The board once generated: every board position holds a listed cell
     with those coordinates (`Board`), the list runs column by column and
     each column by row, so the cell at column `i`, row `j` is entry
     `i * rows + j`, and the surprise list only names listed cells.
     */
    ghost predicate Valid()
      reads this, cellsArray, createdTiles
    {
      && Board()
      && (forall k :: 0 <= k < |createdTiles| ==>
            && 0 <= createdTiles[k].x < columns && 0 <= createdTiles[k].y < rows
            && createdTiles[k].x * rows + createdTiles[k].y == k)
      && (forall c :: c in surpriceCellList ==> c in createdTiles)
    }

    /** The grid part of `Valid`: each position holds a listed cell that knows its place. */
    ghost predicate Board()
      reads this, cellsArray, createdTiles
    {
      && cellsArray.Length0 == columns && cellsArray.Length1 == rows
      && |createdTiles| == columns * rows
      && (forall i, j :: 0 <= i < columns && 0 <= j < rows ==>
            && cellsArray[i, j] != null && cellsArray[i, j] in createdTiles
            && cellsArray[i, j].x == i && cellsArray[i, j].y == j)
    }

    /** Column `i`, row `j` lies on the board. */
    predicate InGrid(i: int, j: int)
      reads this
    {
      0 <= i < columns && 0 <= j < rows
    }

    /** The positions whose cell holds a surprise. */
    function Surprises(): (s: set<(int, int)>)
      reads this, cellsArray, createdTiles
      requires Board()
      ensures OnBoard(s, columns, rows)
      ensures forall i, j :: (i, j) in s <==> InGrid(i, j) && cellsArray[i, j].HasSurprize()
    {
      set i, j | 0 <= i < columns && 0 <= j < rows && cellsArray[i, j].HasSurprize() :: (i, j)
    }

    /** No cell is listed twice: its coordinates fix its place in the list. */
    lemma TilesDistinct()
      requires Valid()
      ensures Distinct(createdTiles)
    {
      forall p, q | 0 <= p < q < |createdTiles|
        ensures createdTiles[p] != createdTiles[q]
      {
        assert createdTiles[p].x * rows + createdTiles[p].y == p;
        assert createdTiles[q].x * rows + createdTiles[q].y == q;
      }
    }

    /** A listed cell is the one the grid holds at its coordinates. */
    lemma CellAt(cell: Cell)
      requires Valid() && cell in createdTiles
      ensures InGrid(cell.x, cell.y) && cellsArray[cell.x, cell.y] == cell
    {
      var k :| 0 <= k < |createdTiles| && createdTiles[k] == cell;
      var other := cellsArray[cell.x, cell.y];
      var m :| 0 <= m < |createdTiles| && createdTiles[m] == other;
      assert m == cell.x * rows + cell.y == k;
    }

    /**
     The clicked cell's own flag is the grid's flag at its position: a hit
     is a click on a surprise position.
     */
    lemma CellFlag(cell: Cell)
      requires Valid() && cell in createdTiles
      ensures InGrid(cell.x, cell.y)
      ensures cell.HasSurprize() <==> (cell.x, cell.y) in Surprises()
    {
      CellAt(cell);
    }

    /**
     Changing cell flags and the surprise list, while coordinates, the grid
     and the cell list stay as they were, keeps the board valid.
     */
    twostate lemma FlagsKeepValid()
      requires old(Valid())
      requires columns == old(columns) && rows == old(rows)
      requires cellsArray == old(cellsArray) && unchanged(cellsArray)
      requires createdTiles == old(createdTiles)
      requires forall c :: c in surpriceCellList ==> c in createdTiles
      requires forall c :: c in createdTiles ==> c.x == old(c.x) && c.y == old(c.y)
      ensures Valid()
    {
    }

    /** Recolouring one listed cell, and nothing else of the board, keeps it valid. */
    twostate lemma RecolourKeepsValid(cell: Cell)
      requires old(Valid()) && old(cell in createdTiles)
      requires columns == old(columns) && rows == old(rows)
      requires cellsArray == old(cellsArray) && unchanged(cellsArray)
      requires createdTiles == old(createdTiles) && surpriceCellList == old(surpriceCellList)
      requires cell.x == old(cell.x) && cell.y == old(cell.y)
      requires forall c :: c in createdTiles && c != cell ==> unchanged(c)
      ensures Valid()
    {
      forall i, j | 0 <= i < columns && 0 <= j < rows
        ensures cellsArray[i, j] != null && cellsArray[i, j] in createdTiles
        ensures cellsArray[i, j].x == i && cellsArray[i, j].y == j
      {
        assert cellsArray[i, j] == old(cellsArray[i, j]);
      }
      forall k | 0 <= k < |createdTiles|
        ensures createdTiles[k].x == old(createdTiles[k].x) && createdTiles[k].y == old(createdTiles[k].y)
      {
        assert createdTiles[k] in createdTiles;
      }
    }

    /** The inspector-configured component before start-up. */
    constructor (columns: int, rows: int, totalMoves: int, isDebug: bool)
      ensures this.columns == columns && this.rows == rows
      ensures this.totalMoves == totalMoves && this.isDebug == isDebug
      ensures !canReset && createdTiles == [] && surpriceCellList == []
    {
      this.columns := columns;
      this.rows := rows;
      this.totalMoves := totalMoves;
      this.isDebug := isDebug;
      canReset := false;
      createdTiles := [];
      surpriceCellList := [];
      cellsArray := new Cell?[0, 0];
    }

    /**
     Builds the board once: one cell per position, with its coordinates,
     listed column by column, then hides the surprises.
     */
    method GenerateGrid(draws: seq<int>)
      requires createdTiles == [] && surpriceCellList == []
      requires columns >= 0 && rows >= 0
      requires columns * rows > 0 ==> DrawsFit(draws, columns * rows, MAX_SURPRISE)
      modifies this`cellsArray, this`createdTiles, this`surpriceCellList
      ensures Valid() && fresh(cellsArray)
      ensures forall k :: 0 <= k < |createdTiles| ==> fresh(createdTiles[k])
      ensures forall c :: c in createdTiles ==>
                !c.isValidated && c.color == White && c.surprise == (c in surpriceCellList)
      ensures createdTiles != [] ==>
                surpriceCellList == Placement(createdTiles, draws, MAX_SURPRISE)
    {
      var grid := new Cell?[columns, rows];
      var tiles: seq<Cell> := [];
      for i := 0 to columns
        modifies grid
        invariant |tiles| == i * rows
        invariant forall k :: 0 <= k < |tiles| ==>
                    && fresh(tiles[k]) && tiles[k].IsCleared()
                    && 0 <= tiles[k].x < i && 0 <= tiles[k].y < rows
                    && tiles[k].x * rows + tiles[k].y == k
        invariant forall a, b :: 0 <= a < i && 0 <= b < rows ==>
                    grid[a, b] != null && grid[a, b] in tiles && grid[a, b].x == a && grid[a, b].y == b
      {
        for j := 0 to rows
          modifies grid
          invariant |tiles| == i * rows + j
          invariant forall k :: 0 <= k < |tiles| ==>
                      && fresh(tiles[k]) && tiles[k].IsCleared()
                      && 0 <= tiles[k].x <= i && 0 <= tiles[k].y < rows
                      && tiles[k].x * rows + tiles[k].y == k
          invariant forall a, b :: (0 <= a < i && 0 <= b < rows) || (a == i && 0 <= b < j) ==>
                      grid[a, b] != null && grid[a, b] in tiles && grid[a, b].x == a && grid[a, b].y == b
        {
          var cell := new Cell();
          cell.SetGridPosition(i, j);
          tiles := tiles + [cell];
          grid[i, j] := cell;
        }
        assert (i + 1) * rows == i * rows + rows;
      }
      cellsArray := grid;
      createdTiles := tiles;
      PlaceSurprize(draws);
    }

    /**
     Hides MAX_SURPRISE surprises in distinct cells chosen by the draws,
     after forgetting the previous surprise list. Surprise flags already set
     stay set. Nothing happens while no cell exists, as on the call made
     when the component is enabled before its grid is generated.
     */
    method PlaceSurprize(draws: seq<int>)
      requires createdTiles == [] || Valid()
      requires createdTiles != [] ==> DrawsFit(draws, |createdTiles|, MAX_SURPRISE)
      modifies this`surpriceCellList, createdTiles
      ensures old(Valid()) ==> Valid()
      ensures createdTiles == [] ==> surpriceCellList == old(surpriceCellList)
      ensures createdTiles != [] ==>
                && surpriceCellList == Placement(createdTiles, draws, MAX_SURPRISE)
                && |surpriceCellList| == MAX_SURPRISE && Distinct(surpriceCellList)
                && forall c :: c in surpriceCellList ==> c.HasSurprize()
      ensures forall c :: c in createdTiles ==>
                && c.surprise == (old(c.surprise) || c in surpriceCellList)
                && c.isValidated == old(c.isValidated) && c.color == old(c.color)
                && c.x == old(c.x) && c.y == old(c.y)
    {
      if |createdTiles| == 0 {
        return;
      }
      TilesDistinct();
      PicksPlace(draws, |createdTiles|, MAX_SURPRISE);
      surpriceCellList := [];
      ghost var chosen: seq<int> := [];
      var i := 0;
      while |surpriceCellList| < MAX_SURPRISE
        invariant 0 <= i <= |draws|
        invariant InRange(chosen, |createdTiles|)
        invariant surpriceCellList == Select(createdTiles, chosen)
        invariant Picks(draws[i..], chosen, MAX_SURPRISE) == Picks(draws, [], MAX_SURPRISE)
        invariant forall c :: c in createdTiles ==>
                    && c.surprise == (old(c.surprise) || c in surpriceCellList)
                    && c.isValidated == old(c.isValidated) && c.color == old(c.color)
                    && c.x == old(c.x) && c.y == old(c.y)
        decreases |draws| - i
      {
        assert i < |draws|;
        assert draws[i..] == [draws[i]] + draws[i + 1..];
        SelectMember(createdTiles, chosen, draws[i]);
        var tempCell := createdTiles[draws[i]];
        if tempCell !in surpriceCellList {
          tempCell.AddSuprise();
          surpriceCellList := surpriceCellList + [tempCell];
          chosen := chosen + [draws[i]];
        }
        i := i + 1;
      }
      FlagsKeepValid();
    }

    /**
     Clears every cell for the next round; a second call changes nothing.
     Before the grid is generated there is no cell to clear.
     */
    method ResetCells()
      requires createdTiles == [] || Valid()
      modifies createdTiles
      ensures old(Valid()) ==> Valid()
      ensures forall c :: c in createdTiles ==> c.IsCleared() && c.x == old(c.x) && c.y == old(c.y)
      ensures (forall c :: c in createdTiles ==> old(c.IsCleared())) ==>
                forall c :: c in createdTiles ==> unchanged(c)
    {
      for k := 0 to |createdTiles|
        invariant forall p :: 0 <= p < k ==> createdTiles[p].IsCleared()
        invariant forall p :: 0 <= p < |createdTiles| ==>
                    && createdTiles[p].x == old(createdTiles[p].x) && createdTiles[p].y == old(createdTiles[p].y)
                    && (old(createdTiles[p].IsCleared()) ==> unchanged(createdTiles[p]))
        invariant forall p :: k <= p < |createdTiles| ==> unchanged(createdTiles[p])
      {
        createdTiles[k].RemoveAndResetSurprise();
      }
      if createdTiles != [] {
        FlagsKeepValid();
      }
    }

    /**
     Colours a clicked cell and spends one move. Out of moves (outside debug
     mode) it does nothing; otherwise the move that takes the count to zero
     or below allows the reset.
     */
    method ValidateClickedCell(cell: Cell)
      requires Valid() && cell in createdTiles
      modifies this`totalMoves, this`canReset, cell
      ensures Valid()
      ensures !isDebug && old(totalMoves) <= 0 ==>
                totalMoves == old(totalMoves) && canReset == old(canReset) && unchanged(cell)
      ensures isDebug || old(totalMoves) > 0 ==>
                && cell.isValidated
                && cell.color == ClickColor(old(cell.surprise), old(Surprises()), columns, rows, cell.x, cell.y)
                && totalMoves == old(totalMoves) - 1
                && canReset == (old(canReset) || totalMoves <= 0)
      ensures cell.surprise == old(cell.surprise) && cell.x == old(cell.x) && cell.y == old(cell.y)
      ensures forall c :: c in createdTiles && c != cell ==> unchanged(c)
    {
      if !isDebug && totalMoves <= 0 {
        return;
      }
      CellAt(cell);
      var X := cell.x;
      var Y := cell.y;
      var surprises := Surprises();
      var isInFirstLevel := IsInFirstLevel(surprises, columns, rows, X, Y);
      var isInSecondLevel := IsInSecondLevel(surprises, columns, rows, X, Y);
      if cell.HasSurprize() {
        cell.ChangeCellColor(Red);
      } else if isInFirstLevel || isInSecondLevel {
        cell.ChangeCellColor(Yellow);
      } else {
        cell.ChangeCellColor(Green);
      }
      totalMoves := totalMoves - 1;
      if totalMoves <= 0 {
        canReset := true;
      }
      RecolourKeepsValid(cell);
    }

    /**
     A press on a cell's button: a cell already validated this round is
     ignored and costs no move.
     */
    method OnCellClick(cell: Cell)
      requires Valid() && cell in createdTiles
      modifies this`totalMoves, this`canReset, cell
      ensures Valid()
      ensures old(cell.isValidated) || (!isDebug && old(totalMoves) <= 0) ==>
                totalMoves == old(totalMoves) && canReset == old(canReset) && unchanged(cell)
      ensures !old(cell.isValidated) && (isDebug || old(totalMoves) > 0) ==>
                && cell.isValidated
                && cell.color == ClickColor(old(cell.surprise), old(Surprises()), columns, rows, cell.x, cell.y)
                && totalMoves == old(totalMoves) - 1
                && canReset == (old(canReset) || totalMoves <= 0)
      ensures cell.surprise == old(cell.surprise) && cell.x == old(cell.x) && cell.y == old(cell.y)
      ensures forall c :: c in createdTiles && c != cell ==> unchanged(c)
    {
      if !cell.isValidated {
        ValidateClickedCell(cell);
      }
    }

    /** Whether a tick with this key state resets the round. */
    predicate ResetFires(anyKeyDown: bool)
      reads this
    {
      !isDebug && canReset && anyKeyDown
    }

    /**
     One fixed-rate tick: once the moves are spent, any key press restores
     the 20 moves, clears every cell and hides the surprises again.
     */
    method FixedUpdate(anyKeyDown: bool, draws: seq<int>)
      requires Valid()
      requires ResetFires(anyKeyDown) && createdTiles != [] ==>
                 DrawsFit(draws, |createdTiles|, MAX_SURPRISE)
      modifies this`totalMoves, this`canReset, this`surpriceCellList, createdTiles
      ensures Valid()
      ensures !old(ResetFires(anyKeyDown)) ==>
                && totalMoves == old(totalMoves) && canReset == old(canReset)
                && surpriceCellList == old(surpriceCellList)
                && forall c :: c in createdTiles ==> unchanged(c)
      ensures old(ResetFires(anyKeyDown)) ==>
                && totalMoves == 20 && !canReset
                && (createdTiles != [] ==> surpriceCellList == Placement(createdTiles, draws, MAX_SURPRISE))
                && forall c :: c in createdTiles ==>
                     && !c.isValidated && c.color == White && c.surprise == (c in surpriceCellList)
                     && c.x == old(c.x) && c.y == old(c.y)
    {
      if isDebug {
        return;
      }
      if !canReset {
        return;
      }
      if anyKeyDown {
        totalMoves := 20;
        canReset := false;
        ResetCells();
        PlaceSurprize(draws);
      }
    }
  }

  /**
   Start-up of a configured component as the engine runs it: enabling it
   places the surprises, which does nothing while no cell exists, and
   starting it generates the grid. The board is then valid, with
   MAX_SURPRISE cells flagged by the draws and no move spent.
   */
  method StartUp(columns: int, rows: int, totalMoves: int, isDebug: bool, draws: seq<int>)
    returns (g: GridGenerator)
    requires columns >= 0 && rows >= 0
    requires columns * rows > 0 ==> DrawsFit(draws, columns * rows, 10)
    ensures fresh(g) && fresh(g.cellsArray) && forall c :: c in g.createdTiles ==> fresh(c)
    ensures g.columns == columns && g.rows == rows && g.isDebug == isDebug
    ensures g.Valid() && g.totalMoves == totalMoves && !g.canReset
    ensures |g.createdTiles| == columns * rows && Distinct(g.createdTiles)
    ensures g.createdTiles != [] ==>
              && g.surpriceCellList == Placement(g.createdTiles, draws, g.MAX_SURPRISE)
              && |g.surpriceCellList| == g.MAX_SURPRISE
    ensures forall c :: c in g.createdTiles ==>
              !c.isValidated && c.color == White && c.surprise == (c in g.surpriceCellList)
  {
    g := new GridGenerator(columns, rows, totalMoves, isDebug);
    g.PlaceSurprize([]);
    g.GenerateGrid(draws);
    g.TilesDistinct();
  }

  /**
   The colour a click on (X, Y) gives, `hit` being the clicked cell's own
   surprise flag: Red on a hit, whatever surrounds it; otherwise Yellow when
   one of the two neighbour tests finds a surprise; otherwise Green. So
   Yellow means a surprise one or two cells away, and Green means none
   within two cells.
   */
  function ClickColor(hit: bool, surprises: set<(int, int)>, columns: int, rows: int, X: int, Y: int): (color: Color)
    requires 0 <= X < columns && 0 <= Y < rows && OnBoard(surprises, columns, rows)
    ensures color == Red <==> hit
    ensures color == Yellow <==> !hit && SurpriseNear(surprises, X, Y, 1, 2)
    ensures color == Green <==> !hit && !SurpriseNear(surprises, X, Y, 1, 2)
  {
    NearSplit(surprises, X, Y);
    if hit then Red
    else if IsInFirstLevel(surprises, columns, rows, X, Y) || IsInSecondLevel(surprises, columns, rows, X, Y) then Yellow
    else Green
  }
}
