/**
 * The `Game` component: four fields that its handlers update in place.
 * Each handler is specified by the matching transition of module History.
 */
module GameComponent {
  import opened Options
  import opened Cells
  import opened WinDetection
  import opened History

  class Game {
    var history: seq<Snapshot>
    var stepNumber: nat
    var xIsNext: bool
    var movesInAscendingOrder: bool

    /** The fields as a History.State value. */
    function Model(): History.State
      reads this
    {
      History.State(history, stepNumber, xIsNext, movesInAscendingOrder)
    }

    ghost predicate Valid()
      reads this
    {
      History.Valid(Model())
    }

    /** One empty board, X to move, moves listed in ascending order. */
    constructor ()
      ensures Valid()
      ensures Model() == Initial()
      ensures history == [StartSnapshot] && stepNumber == 0 && xIsNext && movesInAscendingOrder
    {
      history := [Snapshot(EmptyBoard, None)];
      stepNumber := 0;
      movesInAscendingOrder := true;
      xIsNext := true;
    }

    /**
     * A click on square `i`.  Ignored when the board under the cursor has a
     * winner or square `i` is taken; otherwise the history after the cursor
     * is dropped, a copy of the current board with square `i` marked is
     * appended, the cursor moves onto it and the other player is to move.
     */
    method HandleBoardClick(i: Index)
      requires Valid()
      modifies this
      ensures Valid()
      ensures Model() == Click(old(Model()), i)
      ensures Ignores(old(Model()), i) ==> unchanged(this)
      ensures !Ignores(old(Model()), i) ==>
        history == old(history[..stepNumber + 1]) + [Play(old(history[stepNumber]), i, NextMark(old(xIsNext)))]
      ensures !Ignores(old(Model()), i) ==> stepNumber == old(stepNumber) + 1 == |history| - 1
      ensures !Ignores(old(Model()), i) ==> xIsNext == !old(xIsNext)
      ensures movesInAscendingOrder == old(movesInAscendingOrder)
    {
      ghost var s0 := Model();
      var kept := history[..stepNumber + 1];
      var current := kept[|kept| - 1];
      var squares := current.squares;

      var winner := CalculateWinner(squares);
      assert current == Current(s0);
      if winner.Some? || squares[i] != Empty {
        assert Ignores(s0, i);
        return;
      }
      var moveChar := if xIsNext then X else O;
      var position := (i % 3, i / 3);
      squares := squares[i := Taken(moveChar)];
      history := kept + [Snapshot(squares, Some(Move(moveChar, position.0, position.1)))];
      stepNumber := |kept|;
      xIsNext := !xIsNext;
      assert history[|kept|] == Play(Current(s0), i, NextMark(s0.xIsNext));
      assert Model() == Accepted(s0, i);
      AcceptedValid(s0, i);
    }

    /** Only the order of the move list flips. */
    method HandleToggleClick()
      requires Valid()
      modifies this
      ensures Valid()
      ensures Model() == ToggleOrder(old(Model()))
      ensures movesInAscendingOrder == !old(movesInAscendingOrder)
      ensures history == old(history) && stepNumber == old(stepNumber) && xIsNext == old(xIsNext)
    {
      movesInAscendingOrder := !movesInAscendingOrder;
    }

    /**
     * The cursor moves to `step` and the player to move follows the parity
     * of `step`.  `step` is not range-checked by the game; every caller
     * passes the number of an entry of the move list.
     */
    method JumpTo(step: nat)
      requires Valid() && step < |history|
      modifies this
      ensures Valid()
      ensures Model() == History.JumpTo(old(Model()), step)
      ensures stepNumber == step && xIsNext == (step % 2 == 0)
      ensures history == old(history) && movesInAscendingOrder == old(movesInAscendingOrder)
    {
      stepNumber := step;
      xIsNext := step % 2 == 0;
    }
  }
}
