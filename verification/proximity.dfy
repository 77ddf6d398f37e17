/**
 Distances on the board, what it means for a surprise to be near a
 position, and the grid generator's two neighbour tests, all stated over
 the set of board positions that hold a surprise.
 */
module Proximity {

  /** The larger of the column and row distances between two positions. */
  function Chebyshev(x1: int, y1: int, x2: int, y2: int): (r: nat) {
    var dx := if x1 >= x2 then x1 - x2 else x2 - x1;
    var dy := if y1 >= y2 then y1 - y2 else y2 - y1;
    if dx >= dy then dx else dy
  }

  /**
   Some position in `surprises` lies at a Chebyshev distance between `lo`
   and `hi` from (X, Y).
   */
  predicate SurpriseNear(surprises: set<(int, int)>, X: int, Y: int, lo: nat, hi: nat) {
    exists p :: p in surprises && lo <= Chebyshev(X, Y, p.0, p.1) <= hi
  }

  /** A surprise one cell away lies at one of the eight surrounding positions. */
  lemma FirstRing(s: set<(int, int)>, X: int, Y: int)
    ensures SurpriseNear(s, X, Y, 1, 1) <==>
      || (X + 1, Y) in s || (X - 1, Y) in s || (X, Y + 1) in s || (X, Y - 1) in s
      || (X - 1, Y + 1) in s || (X - 1, Y - 1) in s || (X + 1, Y - 1) in s || (X + 1, Y + 1) in s
  {
  }

  /** A surprise two cells away lies at one of the sixteen positions of that ring. */
  lemma SecondRing(s: set<(int, int)>, X: int, Y: int)
    ensures SurpriseNear(s, X, Y, 2, 2) <==>
      || (X + 2, Y) in s || (X - 2, Y) in s || (X, Y + 2) in s || (X, Y - 2) in s
      || (X - 2, Y + 2) in s || (X - 2, Y - 2) in s || (X + 2, Y - 2) in s || (X + 2, Y + 2) in s
      || (X + 2, Y - 1) in s || (X + 2, Y + 1) in s || (X - 2, Y - 1) in s || (X - 2, Y + 1) in s
      || (X - 1, Y - 2) in s || (X - 1, Y + 2) in s || (X + 1, Y - 2) in s || (X + 1, Y + 2) in s
  {
  }

  /**
   Within two cells means one or two cells away; with the position itself,
   within distance two.
   */
  lemma NearSplit(s: set<(int, int)>, X: int, Y: int)
    ensures SurpriseNear(s, X, Y, 1, 2) <==> SurpriseNear(s, X, Y, 1, 1) || SurpriseNear(s, X, Y, 2, 2)
    ensures SurpriseNear(s, X, Y, 0, 2) <==> (X, Y) in s || SurpriseNear(s, X, Y, 1, 2)
  {
  }

  /** Every position in `surprises` lies on a `columns` by `rows` board. */
  predicate OnBoard(surprises: set<(int, int)>, columns: int, rows: int) {
    forall p :: p in surprises ==> 0 <= p.0 < columns && 0 <= p.1 < rows
  }

  /**
   The grid generator's read of one cell's flag: defined only for a
   position on the board, so a test built from it reads no cell outside.
   */
  function SurpriseAt(surprises: set<(int, int)>, columns: int, rows: int, i: int, j: int): (r: bool)
    requires 0 <= i < columns && 0 <= j < rows
  {
    (i, j) in surprises
  }

  /**
   The first-level test of a click at (X, Y): the eight surrounding
   positions, each looked up only when its guard keeps it on the board.
   It holds exactly when a surprise lies one cell away.
   */
  function IsInFirstLevel(surprises: set<(int, int)>, columns: int, rows: int, X: int, Y: int): (r: bool)
    requires 0 <= X < columns && 0 <= Y < rows && OnBoard(surprises, columns, rows)
    ensures r <==> SurpriseNear(surprises, X, Y, 1, 1)
  {
    FirstRing(surprises, X, Y);
    (if X + 1 < columns then SurpriseAt(surprises, columns, rows, X + 1, Y) else false) ||
    (if X - 1 >= 0 then SurpriseAt(surprises, columns, rows, X - 1, Y) else false) ||
    (if Y + 1 < rows then SurpriseAt(surprises, columns, rows, X, Y + 1) else false) ||
    (if Y - 1 >= 0 then SurpriseAt(surprises, columns, rows, X, Y - 1) else false) ||
    (if X - 1 >= 0 && Y + 1 < rows then SurpriseAt(surprises, columns, rows, X - 1, Y + 1) else false) ||
    (if X - 1 >= 0 && Y - 1 >= 0 then SurpriseAt(surprises, columns, rows, X - 1, Y - 1) else false) ||
    (if X + 1 < columns && Y - 1 >= 0 then SurpriseAt(surprises, columns, rows, X + 1, Y - 1) else false) ||
    (if X + 1 < columns && Y + 1 < rows then SurpriseAt(surprises, columns, rows, X + 1, Y + 1) else false)
  }

  /**
   The second-level test of a click at (X, Y): the sixteen positions of the
   ring two cells out, each looked up only when its guard keeps it on the
   board. It holds exactly when a surprise lies two cells away.
   */
  function IsInSecondLevel(surprises: set<(int, int)>, columns: int, rows: int, X: int, Y: int): (r: bool)
    requires 0 <= X < columns && 0 <= Y < rows && OnBoard(surprises, columns, rows)
    ensures r <==> SurpriseNear(surprises, X, Y, 2, 2)
  {
    SecondRing(surprises, X, Y);
    (if X + 2 < columns then SurpriseAt(surprises, columns, rows, X + 2, Y) else false) ||
    (if X - 2 >= 0 then SurpriseAt(surprises, columns, rows, X - 2, Y) else false) ||
    (if Y + 2 < rows then SurpriseAt(surprises, columns, rows, X, Y + 2) else false) ||
    (if Y - 2 >= 0 then SurpriseAt(surprises, columns, rows, X, Y - 2) else false) ||
    (if X - 2 >= 0 && Y + 2 < rows then SurpriseAt(surprises, columns, rows, X - 2, Y + 2) else false) ||
    (if X - 2 >= 0 && Y - 2 >= 0 then SurpriseAt(surprises, columns, rows, X - 2, Y - 2) else false) ||
    (if X + 2 < columns && Y - 2 >= 0 then SurpriseAt(surprises, columns, rows, X + 2, Y - 2) else false) ||
    (if X + 2 < columns && Y + 2 < rows then SurpriseAt(surprises, columns, rows, X + 2, Y + 2) else false) ||
    (if X + 2 < columns && Y - 1 >= 0 then SurpriseAt(surprises, columns, rows, X + 2, Y - 1) else false) ||
    (if X + 2 < columns && Y + 1 < rows then SurpriseAt(surprises, columns, rows, X + 2, Y + 1) else false) ||
    (if X - 2 >= 0 && Y - 1 >= 0 then SurpriseAt(surprises, columns, rows, X - 2, Y - 1) else false) ||
    (if X - 2 >= 0 && Y + 1 < rows then SurpriseAt(surprises, columns, rows, X - 2, Y + 1) else false) ||
    (if X - 1 >= 0 && Y - 2 >= 0 then SurpriseAt(surprises, columns, rows, X - 1, Y - 2) else false) ||
    (if X - 1 >= 0 && Y + 2 < rows then SurpriseAt(surprises, columns, rows, X - 1, Y + 2) else false) ||
    (if X + 1 < columns && Y - 2 >= 0 then SurpriseAt(surprises, columns, rows, X + 1, Y - 2) else false) ||
    (if X + 1 < columns && Y + 2 < rows then SurpriseAt(surprises, columns, rows, X + 1, Y + 2) else false)
  }
}
