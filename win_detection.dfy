/**
 * Win detection (`calculateWinner`): a search, in a fixed order, over the
 * eight lines of the board for one whose three squares hold the same mark.
 */
module WinDetection {
  import opened Options
  import opened Cells

  /** The three squares of a line, in table order. */
  type Line = (Index, Index, Index)

  /** Three rows, three columns and the two diagonals, in the order they are searched. */
  const Lines: seq<Line> := [
    (0, 1, 2),
    (3, 4, 5),
    (6, 7, 8),
    (0, 3, 6),
    (1, 4, 7),
    (2, 5, 8),
    (0, 4, 8),
    (2, 4, 6)
  ]

  /** The three squares of `l` are equal and not empty. */
  predicate Completes(b: Board, l: Line) {
    b[l.0] != Empty && b[l.0] == b[l.1] && b[l.0] == b[l.2]
  }

  /** Line `k` of the table is completed and no line before it is. */
  predicate IsFirstWin(b: Board, k: nat) {
    k < |Lines| && Completes(b, Lines[k]) &&
    forall j :: 0 <= j < k ==> !Completes(b, Lines[j])
  }

  /**
   * The table position of the first completed line at or after position
   * `k`, or `|Lines|` when there is none.
   */
  function FirstWin(b: Board, k: nat): (r: nat)
    requires k <= |Lines|
    ensures k <= r <= |Lines|
    ensures r < |Lines| ==> Completes(b, Lines[r])
    ensures forall j :: k <= j < r ==> !Completes(b, Lines[j])
    decreases |Lines| - k
  {
    if k == |Lines| then |Lines|
    else if Completes(b, Lines[k]) then k
    else FirstWin(b, k + 1)
  }

  /**
   * The line `calculateWinner` reports for board `b`: the first completed
   * line of the table, or None (`null`) when no line is completed.
   */
  function Winner(b: Board): (r: Option<Line>)
    ensures r.Some? ==> Completes(b, r.value)
    ensures r.None? <==> forall k :: 0 <= k < |Lines| ==> !Completes(b, Lines[k])
  {
    var k := FirstWin(b, 0);
    if k < |Lines| then Some(Lines[k]) else None
  }

  /** When several lines are completed, the one reported is the first of them in table order. */
  lemma WinnerIsFirstMatch(b: Board, k: nat)
    requires IsFirstWin(b, k)
    ensures Winner(b) == Some(Lines[k])
  {
  }

  /** A reported line is a line of the table, and no earlier line of the table is completed. */
  lemma WinnerIsTableLine(b: Board)
    requires Winner(b).Some?
    ensures exists k: nat :: IsFirstWin(b, k) && Winner(b).value == Lines[k]
  {
    assert IsFirstWin(b, FirstWin(b, 0));
  }

  /** The search loop of `calculateWinner`, with its early return. */
  method CalculateWinner(squares: Board) returns (r: Option<Line>)
    ensures r == Winner(squares)
  {
    for i := 0 to |Lines|
      invariant forall j :: 0 <= j < i ==> !Completes(squares, Lines[j])
    {
      var (a, b, c) := Lines[i];
      if squares[a] != Empty && squares[a] == squares[b] && squares[a] == squares[c] {
        WinnerIsFirstMatch(squares, i);
        return Some((a, b, c));
      }
    }
    return None;
  }

  /** A reported line belongs to one player: all three of its squares hold that player's mark. */
  lemma WinnerHoldsOneMark(b: Board)
    requires Winner(b).Some?
    ensures b[Winner(b).value.0].Taken?
    ensures var m := b[Winner(b).value.0];
            b[Winner(b).value.1] == m && b[Winner(b).value.2] == m
  {
  }

  /** Marking more squares never takes a win away: a completed line stays completed. */
  lemma {:induction false} WinPersists(b: Board, i: Index, m: Mark)
    requires b[i] == Empty
    requires Winner(b).Some?
    ensures Winner(b[i := Taken(m)]).Some?
  {
    var k := FirstWin(b, 0);
    var b' := b[i := Taken(m)];
    assert Completes(b', Lines[k]);
  }
}
