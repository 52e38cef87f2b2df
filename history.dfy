/**
 * The state of the `Game` component as a value, and its three transitions:
 * a click on a square, a jump to an earlier move, and the toggle of the
 * order in which the moves are listed.  The class in module GameComponent
 * holds the same four fields and is specified by these functions.
 */
module History {
  import opened Options
  import opened Cells
  import opened WinDetection

  /** The description of a move, `<mark> at position (<column>,<row>)`. */
  datatype Move = Move(mark: Mark, column: nat, row: nat)

  /** One entry of the history: a board and the move that produced it (None for the start). */
  datatype Snapshot = Snapshot(squares: Board, lastMove: Option<Move>)

  /** The game's four state fields; `ascending` is `movesInAccendingOrder`. */
  datatype State = State(history: seq<Snapshot>, stepNumber: nat, xIsNext: bool, ascending: bool)

  const StartSnapshot: Snapshot := Snapshot(EmptyBoard, None)

  /** The mark placed by the player to move (`xIsNext ? 'X' : 'O'`). */
  function NextMark(xIsNext: bool): Mark {
    if xIsNext then X else O
  }

  /** The mark placed by the move made from history entry `step`: X from even entries. */
  function MarkFor(step: nat): Mark {
    if step % 2 == 0 then X else O
  }

  /** The description of `m` placed on square `i`; its column and row name the square again. */
  function Describe(m: Mark, i: Index): (d: Move)
    ensures d.mark == m && d.column < 3 && d.row < 3
    ensures CellIndex(d.column, d.row) == i
  {
    ColumnRowIndex(i);
    Move(m, Column(i), Row(i))
  }

  /** The snapshot after `m` is placed on square `i` of a copy of the board of `s`. */
  function Play(s: Snapshot, i: Index, m: Mark): Snapshot
  {
    Snapshot(s.squares[i := Taken(m)], Some(Describe(m, i)))
  }

  /**
   * Only square `i` changes, it receives `m`, and the new snapshot's
   * description names `m` and the square's column and row.
   */
  lemma PlayMarksOneSquare(s: Snapshot, i: Index, m: Mark)
    ensures var r := Play(s, i, m);
      && r.squares[i] == Taken(m)
      && (forall j: Index :: j != i ==> r.squares[j] == s.squares[j])
      && r.lastMove == Some(Move(m, Column(i), Row(i)))
  {
  }

  /**
   * `next` is what a click accepted on `prev` produces when `m` is to move:
   * the square its description names was empty, `prev` had no winner, and
   * `next` is `prev` with that square marked.
   */
  predicate Follows(prev: Snapshot, next: Snapshot, m: Mark) {
    match next.lastMove
    case None => false
    case Some(mv) =>
      mv.mark == m && mv.column < 3 && mv.row < 3 &&
      var i := CellIndex(mv.column, mv.row);
      Winner(prev.squares).None? && prev.squares[i] == Empty && next == Play(prev, i, m)
  }

  /** Entry `k` of `h` follows from entry `k - 1` by the move of the player whose turn it was. */
  predicate Link(h: seq<Snapshot>, k: nat)
    requires 0 < k < |h|
  {
    Follows(h[k - 1], h[k], MarkFor(k - 1))
  }

  /** A history that only clicks can build: the start, then one legal move per entry, X first. */
  predicate LegalHistory(h: seq<Snapshot>) {
    |h| > 0 && h[0] == StartSnapshot &&
    forall k :: 0 < k < |h| ==> Link(h, k)
  }

  /** The invariant the game keeps: the cursor is in the history and fixes the player to move. */
  predicate Valid(s: State) {
    s.stepNumber < |s.history| &&
    s.xIsNext == (s.stepNumber % 2 == 0) &&
    LegalHistory(s.history)
  }

  /** The state the `Game` constructor sets up. */
  function Initial(): (s: State)
    ensures Valid(s)
    ensures |s.history| == 1 && s.stepNumber == 0 && s.ascending
  {
    State([StartSnapshot], 0, true, true)
  }

  /** The snapshot under the cursor. */
  function Current(s: State): Snapshot
    requires Valid(s)
  {
    s.history[s.stepNumber]
  }

  /** A click on square `i` is ignored: the current board has a winner or the square is taken. */
  predicate Ignores(s: State, i: Index)
    requires Valid(s)
  {
    Winner(Current(s).squares).Some? || Current(s).squares[i] != Empty
  }

  /** A move onto an empty square of a board without a winner is a legal next entry. */
  lemma PlayFollows(prev: Snapshot, i: Index, m: Mark)
    requires Winner(prev.squares).None? && prev.squares[i] == Empty
    ensures Follows(prev, Play(prev, i, m), m)
  {
    var mv := Play(prev, i, m).lastMove.value;
    assert CellIndex(mv.column, mv.row) == i;
  }

  /** Cutting a legal history after entry `n` and appending a legal successor of entry `n` keeps it legal. */
  lemma ExtendLegal(h: seq<Snapshot>, n: nat, next: Snapshot)
    requires LegalHistory(h) && n < |h|
    requires Follows(h[n], next, MarkFor(n))
    ensures LegalHistory(h[..n + 1] + [next])
  {
    var r := h[..n + 1] + [next];
    forall k | 0 < k < |r|
      ensures Link(r, k)
    {
      if k <= n {
        assert Link(h, k);
        assert r[k - 1] == h[k - 1] && r[k] == h[k];
      } else {
        assert r[k - 1] == h[n] && r[k] == next;
      }
    }
  }

  /**
   * `handleBoardClick(i)`: ignored as `Ignores` says; otherwise the history
   * is cut after the cursor, the current board with square `i` marked is
   * appended, the cursor moves onto it and the other player is to move.
   */
  function Click(s: State, i: Index): (r: State)
    requires Valid(s)
    ensures Valid(r)
    ensures r == s <==> Ignores(s, i)
    ensures !Ignores(s, i) ==>
      && r.history == s.history[..s.stepNumber + 1] + [Play(Current(s), i, NextMark(s.xIsNext))]
      && r.stepNumber == s.stepNumber + 1 == |r.history| - 1
      && r.xIsNext == !s.xIsNext
      && r.ascending == s.ascending
  {
    if Ignores(s, i) then s
    else
      AcceptedValid(s, i);
      Accepted(s, i)
  }

  /** The state an accepted click on square `i` leads to. */
  function Accepted(s: State, i: Index): State
    requires Valid(s)
  {
    var next := Play(Current(s), i, NextMark(s.xIsNext));
    State(s.history[..s.stepNumber + 1] + [next], s.stepNumber + 1, !s.xIsNext, s.ascending)
  }

  /** An accepted click keeps the invariant: the appended entry is a legal successor and the turn flips with the cursor's parity. */
  lemma AcceptedValid(s: State, i: Index)
    requires Valid(s) && !Ignores(s, i)
    ensures Valid(Accepted(s, i))
  {
    var n, m := s.stepNumber, NextMark(s.xIsNext);
    assert m == MarkFor(n);
    AcceptedLegal(s.history, n, i, m);
    var a := Accepted(s, i);
    assert a.history == s.history[..n + 1] + [Play(s.history[n], i, m)];
    assert a.stepNumber == n + 1 < |a.history|;
    ParityFlips(n);
  }

  /** Arithmetic helper: one step flips the parity (kept apart so that the proof above stays cheap). */
  lemma ParityFlips(n: nat)
    ensures ((n + 1) % 2 == 0) == !(n % 2 == 0)
  {
  }

  /** Cutting a legal history after entry `n` and appending the move of the player of parity `n` keeps it legal. */
  lemma AcceptedLegal(h: seq<Snapshot>, n: nat, i: Index, m: Mark)
    requires LegalHistory(h) && n < |h| && m == MarkFor(n)
    requires Winner(h[n].squares).None? && h[n].squares[i] == Empty
    ensures LegalHistory(h[..n + 1] + [Play(h[n], i, m)])
  {
    PlayFollows(h[n], i, m);
    ExtendLegal(h, n, Play(h[n], i, m));
  }

  /** `jumpTo(step)`: the cursor moves to `step` and the player follows its parity; the history stays. */
  function JumpTo(s: State, step: nat): (r: State)
    requires Valid(s) && step < |s.history|
    ensures Valid(r)
    ensures r.history == s.history && r.stepNumber == step && r.ascending == s.ascending
  {
    State(s.history, step, step % 2 == 0, s.ascending)
  }

  /** `handleToggleClick()`: only the display order flips. */
  function ToggleOrder(s: State): (r: State)
    ensures Valid(r) <==> Valid(s)
    ensures r.history == s.history && r.stepNumber == s.stepNumber && r.xIsNext == s.xIsNext
    ensures r.ascending == !s.ascending
  {
    s.(ascending := !s.ascending)
  }

  /** Toggling the order twice gives back the state. */
  lemma ToggleTwice(s: State)
    ensures ToggleOrder(ToggleOrder(s)) == s
  {
  }

  /** A second click on the same square changes nothing: the square is taken by then. */
  lemma ClickIdempotent(s: State, i: Index)
    requires Valid(s)
    ensures Click(Click(s, i), i) == Click(s, i)
  {
    var r := Click(s, i);
    if r != s {
      assert Current(r).squares[i] == Taken(NextMark(s.xIsNext));
      assert Ignores(r, i);
    }
  }

  /** A move made after jumping back to `step` discards every move after `step`. */
  lemma JumpThenClick(s: State, step: nat, i: Index)
    requires Valid(s) && step < |s.history|
    requires !Ignores(JumpTo(s, step), i)
    ensures |Click(JumpTo(s, step), i).history| == step + 2
    ensures Click(JumpTo(s, step), i).history[..step + 1] == s.history[..step + 1]
  {
    var r := Click(JumpTo(s, step), i);
    assert r.history[..step + 1] == s.history[..step + 1][..step + 1];
  }

  /**
   * In a legal history, entry `k` holds `(k+1)/2` X's and `k/2` O's: the
   * players alternate, X first, one mark per move.
   */
  lemma {:induction false} MarkCounts(h: seq<Snapshot>, k: nat)
    requires LegalHistory(h) && k < |h|
    ensures Count(h[k].squares, Taken(X)) == (k + 1) / 2
    ensures Count(h[k].squares, Taken(O)) == k / 2
  {
    if k == 0 {
      CountEmptyBoard();
    } else {
      MarkCounts(h, k - 1);
      assert Link(h, k);
      var mv := h[k].lastMove.value;
      var i := CellIndex(mv.column, mv.row);
      assert h[k].squares == h[k - 1].squares[i := Taken(MarkFor(k - 1))];
      CountUpdate(h[k - 1].squares, i, Taken(MarkFor(k - 1)), Taken(X));
      CountUpdate(h[k - 1].squares, i, Taken(MarkFor(k - 1)), Taken(O));
    }
  }

  /** The starting board, `Array(9).fill(null)`, holds no X and no O. */
  lemma CountEmptyBoard()
    ensures Count(EmptyBoard, Taken(X)) == 0 && Count(EmptyBoard, Taken(O)) == 0
  {
    assert EmptyBoard[1..][1..][1..][1..][1..][1..][1..][1..][1..] == [];
  }

  /** A game has at most nine moves, so the history never holds more than ten entries. */
  lemma HistoryBounded(h: seq<Snapshot>)
    requires LegalHistory(h)
    ensures |h| <= 10
  {
    var k := |h| - 1;
    MarkCounts(h, k);
    CountPartition(h[k].squares);
  }

  /** The state after each square of `cells` is clicked in turn. */
  function Run(s: State, cells: seq<Index>): (r: State)
    requires Valid(s)
    ensures Valid(r)
    decreases |cells|
  {
    if cells == [] then s else Run(Click(s, cells[0]), cells[1..])
  }

  /** None of the clicks of `cells`, made in turn from `s`, is ignored. */
  predicate AllAccepted(s: State, cells: seq<Index>)
    requires Valid(s)
    decreases |cells|
  {
    cells == [] || (!Ignores(s, cells[0]) && AllAccepted(Click(s, cells[0]), cells[1..]))
  }

  /**
   * `n` accepted moves made at the end of the history, with no jump in
   * between, add `n` entries and leave the cursor on the last one.
   */
  lemma {:induction false} RunLength(s: State, cells: seq<Index>)
    requires Valid(s) && s.stepNumber == |s.history| - 1
    requires AllAccepted(s, cells)
    ensures |Run(s, cells).history| == |s.history| + |cells|
    ensures Run(s, cells).stepNumber == s.stepNumber + |cells| == |Run(s, cells).history| - 1
    decreases |cells|
  {
    if cells != [] {
      var s' := Click(s, cells[0]);
      assert s'.history == s.history + [Play(Current(s), cells[0], NextMark(s.xIsNext))];
      RunLength(s', cells[1..]);
    }
  }
}
