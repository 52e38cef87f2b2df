/**
 * The 3x3 tic-tac-toe board: the two marks, the nine squares, and the
 * row-major numbering of the squares that the board component uses
 * (square `x + 3*y` is drawn in column `x` of row `y`).
 */
module Cells {

  /** The two players' marks, 'X' and 'O'. */
  datatype Mark = X | O

  /** A square is empty (`null` in the game) or holds a mark. */
  datatype Square = Empty | Taken(mark: Mark)

  /** A square index, 0 to 8. */
  type Index = i: nat | i < 9

  /** A board is always nine squares long. */
  type Board = b: seq<Square> | |b| == 9
    witness [Empty, Empty, Empty, Empty, Empty, Empty, Empty, Empty, Empty]

  /** `Array(9).fill(null)` */
  const EmptyBoard: Board := [Empty, Empty, Empty, Empty, Empty, Empty, Empty, Empty, Empty]

  /** The square drawn in column `x` of row `y` (`x + 3*y` in the board component). */
  function CellIndex(x: nat, y: nat): Index
    requires x < 3 && y < 3
  {
    x + 3 * y
  }

  /** The column of square `i` (`i % 3`). */
  function Column(i: Index): (x: nat)
    ensures x < 3
  {
    i % 3
  }

  /** The row of square `i` (`parseInt(i / 3)`). */
  function Row(i: Index): (y: nat)
    ensures y < 3
  {
    i / 3
  }

  /** The column and the row of a square name that square again. */
  lemma ColumnRowIndex(i: Index)
    ensures CellIndex(Column(i), Row(i)) == i
  {
  }

  /** The square in column `x` of row `y` has column `x` and row `y`: no two cells share a square. */
  lemma CellIndexColumnRow(x: nat, y: nat)
    requires x < 3 && y < 3
    ensures Column(CellIndex(x, y)) == x && Row(CellIndex(x, y)) == y
  {
  }

  /** The number of squares of `b` that hold `s`. */
  function Count(b: seq<Square>, s: Square): (n: nat)
    ensures n <= |b|
  {
    if b == [] then 0 else (if b[0] == s then 1 else 0) + Count(b[1..], s)
  }

  /** Writing `v` into square `i` moves one square from the count of its old value to the count of `v`. */
  lemma {:induction false} CountUpdate(b: seq<Square>, i: nat, v: Square, w: Square)
    requires i < |b|
    ensures Count(b[i := v], w) ==
            Count(b, w) - (if b[i] == w then 1 else 0) + (if v == w then 1 else 0)
  {
    if i == 0 {
      assert b[i := v][1..] == b[1..];
    } else {
      CountUpdate(b[1..], i - 1, v, w);
      assert b[i := v][1..] == b[1..][i - 1 := v];
    }
  }

  /** A value that no square holds is counted zero times. */
  lemma {:induction false} CountAbsent(b: seq<Square>, s: Square)
    requires forall i :: 0 <= i < |b| ==> b[i] != s
    ensures Count(b, s) == 0
  {
    if b != [] {
      assert forall i :: 0 <= i < |b[1..]| ==> b[1..][i] == b[i + 1];
      CountAbsent(b[1..], s);
    }
  }

  /** Every square is empty, an X or an O. */
  lemma {:induction false} CountPartition(b: seq<Square>)
    ensures Count(b, Empty) + Count(b, Taken(X)) + Count(b, Taken(O)) == |b|
  {
    if b != [] {
      CountPartition(b[1..]);
      assert b[0].Taken? ==> b[0].mark == X || b[0].mark == O;
    }
  }
}
