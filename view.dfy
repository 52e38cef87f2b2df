/**
 * What the game shows for a state: the status line, the list of moves with
 * its order button, and the 3x3 grid of squares with the winning line
 * highlighted.  Everything here is a function of the state except
 * RenderMoveList, which builds the list the way the game does, in an array
 * that it reverses in place.
 */
module View {
  import opened Options
  import opened Cells
  import opened WinDetection
  import opened History

  // ---------------------------------------------------------------- status

  /** `Winner: <mark>` or `Next player: <mark>`. */
  datatype Status = WinnerIs(mark: Mark) | NextPlayer(mark: Mark)

  /**
   * The status line: the owner of the winning line of the board under the
   * cursor, read from its first square; otherwise the player to move.
   * There is no "draw" status: a full board without a winner still names
   * a next player.
   */
  function StatusOf(s: State): (st: Status)
    requires Valid(s)
    ensures st.WinnerIs? <==> Winner(Current(s).squares).Some?
    ensures st.WinnerIs? ==>
      var b, l := Current(s).squares, Winner(Current(s).squares).value;
      b[l.0] == Taken(st.mark) && b[l.1] == Taken(st.mark) && b[l.2] == Taken(st.mark)
    ensures st.NextPlayer? ==> st.mark == MarkFor(s.stepNumber)
  {
    var current := Current(s);
    var winner := Winner(current.squares);
    if winner.Some? then WinnerIs(current.squares[winner.value.0].mark)
    else NextPlayer(NextMark(s.xIsNext))
  }

  /** The player named as next is X exactly when the board shows as many X's as O's. */
  lemma NextPlayerAgreesWithBoard(s: State)
    requires Valid(s) && StatusOf(s).NextPlayer?
    ensures var b := Current(s).squares;
      StatusOf(s).mark == X <==> Count(b, Taken(X)) == Count(b, Taken(O))
  {
    MarkCounts(s.history, s.stepNumber);
  }

  // ------------------------------------------------------------- move list

  /** `Go to game start`, or `Go to move #<number>: <description>`. */
  datatype Label = GameStart | GoToMove(number: nat, move: Option<Move>)

  /** One button of the move list; clicking it jumps to `step`. */
  datatype Entry = Entry(step: nat, caption: Label, bold: bool)

  /** The button for history entry `move`; the last entry of the history is the bold one. */
  function EntryFor(h: seq<Snapshot>, move: nat): Entry
    requires move < |h|
  {
    Entry(move, if move == 0 then GameStart else GoToMove(move, h[move].lastMove), move == |h| - 1)
  }

  /** `history.map(...)`: one button per history entry, oldest first. */
  function Entries(h: seq<Snapshot>): (r: seq<Entry>)
    ensures |r| == |h|
  {
    seq(|h|, k requires 0 <= k < |h| => EntryFor(h, k))
  }

  /** `s` back to front. */
  function Reversed<T>(s: seq<T>): (r: seq<T>)
    ensures |r| == |s|
    ensures forall k :: 0 <= k < |s| ==> r[k] == s[|s| - 1 - k]
  {
    if s == [] then [] else [s[|s| - 1]] + Reversed(s[..|s| - 1])
  }

  /** Reversing twice gives back the sequence. */
  lemma ReversedTwice<T>(s: seq<T>)
    ensures Reversed(Reversed(s)) == s
  {
    var r := Reversed(Reversed(s));
    assert forall k :: 0 <= k < |s| ==> r[k] == s[k];
  }

  /** The move list as displayed: oldest first, or newest first when the order is descending. */
  function MoveList(s: State): (r: seq<Entry>)
    ensures |r| == |s.history|
  {
    var moves := Entries(s.history);
    if s.ascending then moves else Reversed(moves)
  }

  /** The entry shown at place `p` of the list. */
  lemma EntryAtPlace(s: State, p: nat)
    requires p < |s.history|
    ensures MoveList(s)[p] == EntryFor(s.history, if s.ascending then p else |s.history| - 1 - p)
  {
  }

  /**
   * Every button jumps to an entry of the history, so `jumpTo` never sees
   * a step out of range; the first entry is labelled `Go to game start`;
   * every other one is labelled with its number and the move that made
   * it: that player's mark, at the square its (column, row) names, which
   * was empty one entry earlier and holds the mark afterwards.
   */
  lemma EntriesDescribeMoves(s: State, p: nat)
    requires Valid(s) && p < |MoveList(s)|
    ensures var e := MoveList(s)[p];
      && e.step < |s.history|
      && (e.caption == GameStart <==> e.step == 0)
      && (e.caption.GoToMove? ==>
            && e.caption.number == e.step
            && e.caption.move.Some?
            && var mv := e.caption.move.value;
               && mv.mark == MarkFor(e.step - 1)
               && mv.column < 3 && mv.row < 3
               && s.history[e.step - 1].squares[CellIndex(mv.column, mv.row)] == Empty
               && s.history[e.step].squares[CellIndex(mv.column, mv.row)] == Taken(mv.mark))
  {
    EntryAtPlace(s, p);
    var e := MoveList(s)[p];
    if e.step > 0 {
      assert Link(s.history, e.step);
    }
  }

  /**
   * Exactly one button is bold: the one for the last history entry, which
   * is last in ascending order and first in descending order, wherever the
   * cursor is.
   */
  lemma BoldEntry(s: State, p: nat)
    requires p < |MoveList(s)|
    ensures MoveList(s)[p].bold <==> p == (if s.ascending then |s.history| - 1 else 0)
    ensures MoveList(s)[p].bold <==> MoveList(s)[p].step == |s.history| - 1
  {
    EntryAtPlace(s, p);
  }

  /** After one move and a jump back to the start, the bold button is not the cursor's. */
  lemma BoldIsNotTheCursor()
    ensures var s := JumpTo(Click(Initial(), 4), 0);
      |MoveList(s)| == 2 && s.stepNumber == 0 &&
      !MoveList(s)[0].bold && MoveList(s)[1].bold && MoveList(s)[1].step == 1
  {
    var s0 := Initial();
    assert !Ignores(s0, 4);
    var s := JumpTo(Click(s0, 4), 0);
    BoldEntry(s, 0);
    BoldEntry(s, 1);
  }

  /** Toggling the order shows the same buttons in reverse; toggling twice shows the list as before. */
  lemma ToggleReversesList(s: State)
    ensures MoveList(ToggleOrder(s)) == Reversed(MoveList(s))
    ensures MoveList(ToggleOrder(ToggleOrder(s))) == MoveList(s)
  {
    if !s.ascending {
      ReversedTwice(Entries(s.history));
    }
  }

  /** The two orders of the list. */
  datatype Order = Ascending | Descending

  /** The order button names the order a click on it switches to. */
  function OrderButton(s: State): (o: Order)
    ensures o == Ascending <==> ToggleOrder(s).ascending
  {
    if s.ascending then Descending else Ascending
  }

  /** `moves.reverse()`: reverses the array in place. */
  method ReverseInPlace<T>(a: array<T>)
    modifies a
    ensures a[..] == Reversed(old(a[..]))
  {
    var lo, hi := 0, a.Length;
    while lo + 1 < hi
      invariant 0 <= lo <= hi && lo + hi == a.Length
      invariant forall k :: 0 <= k < lo ==>
        a[k] == old(a[a.Length - 1 - k]) && a[a.Length - 1 - k] == old(a[k])
      invariant forall k :: lo <= k < hi ==> a[k] == old(a[k])
    {
      a[lo], a[hi - 1] := a[hi - 1], a[lo];
      lo, hi := lo + 1, hi - 1;
    }
  }

  /** The list the game renders: one button per history entry, then reversed when descending. */
  method RenderMoveList(s: State) returns (moves: array<Entry>)
    ensures moves[..] == MoveList(s)
  {
    var history := s.history;
    moves := new Entry[|history|];
    for move := 0 to |history|
      invariant forall k :: 0 <= k < move ==> moves[k] == EntryFor(history, k)
    {
      moves[move] := EntryFor(history, move);
    }
    assert moves[..] == Entries(history);
    if !s.ascending {
      ReverseInPlace(moves);
    }
  }

  // ----------------------------------------------------------------- board

  /** One square as drawn: its number, its content, and whether it is highlighted. */
  datatype SquareView = SquareView(position: Index, value: Square, winningSquare: bool)

  /** `winner && winner.includes(position)` */
  predicate IsWinningSquare(winner: Option<Line>, position: Index) {
    winner.Some? &&
    (position == winner.value.0 || position == winner.value.1 || position == winner.value.2)
  }

  /** Three rows of three squares; the square in column `x` of row `y` is number `x + 3*y`. */
  function BoardRows(squares: Board, winner: Option<Line>): (rows: seq<seq<SquareView>>)
    ensures |rows| == 3 && forall y :: 0 <= y < 3 ==> |rows[y]| == 3
  {
    seq(3, y requires 0 <= y < 3 =>
      seq(3, x requires 0 <= x < 3 =>
        var position := CellIndex(x, y);
        SquareView(position, squares[position], IsWinningSquare(winner, position))))
  }

  /** The square drawn in column `x` of row `y`. */
  lemma SquareAt(squares: Board, winner: Option<Line>, y: nat, x: nat)
    requires y < 3 && x < 3
    ensures var p := CellIndex(x, y);
      BoardRows(squares, winner)[y][x] == SquareView(p, squares[p], IsWinningSquare(winner, p))
  {
  }

  /** Every square of the board is drawn exactly once, in the column and row of its move description. */
  lemma EachSquareDrawnOnce(squares: Board, winner: Option<Line>, i: Index)
    ensures var rows := BoardRows(squares, winner);
      rows[Row(i)][Column(i)].position == i && rows[Row(i)][Column(i)].value == squares[i]
    ensures var rows := BoardRows(squares, winner);
      forall y, x :: 0 <= y < 3 && 0 <= x < 3 && rows[y][x].position == i ==>
        y == Row(i) && x == Column(i)
  {
    SquareAt(squares, winner, Row(i), Column(i));
  }

  /** With the board's own winner, a highlighted square holds the winning mark. */
  lemma HighlightedSquareHoldsWinningMark(squares: Board, y: nat, x: nat)
    requires y < 3 && x < 3
    ensures var w, v := Winner(squares), BoardRows(squares, Winner(squares))[y][x];
      v.winningSquare ==> v.value != Empty && v.value == squares[w.value.0]
  {
    var w: Option<Line> := Winner(squares);
    SquareAt(squares, w, y, x);
  }

  /** The three squares of the winning line are the highlighted ones; with no winner, no square is highlighted. */
  lemma WinningLineHighlighted(squares: Board, w: Option<Line>, i: Index)
    ensures BoardRows(squares, w)[Row(i)][Column(i)].winningSquare <==>
      w.Some? && (i == w.value.0 || i == w.value.1 || i == w.value.2)
  {
    SquareAt(squares, w, Row(i), Column(i));
  }

  // ------------------------------------------------------------- scenarios

  /** No line of `b` is completed, checked line by line. */
  lemma NoLineCompleted(b: Board)
    requires !Completes(b, Lines[0]) && !Completes(b, Lines[1]) && !Completes(b, Lines[2])
    requires !Completes(b, Lines[3]) && !Completes(b, Lines[4]) && !Completes(b, Lines[5])
    requires !Completes(b, Lines[6]) && !Completes(b, Lines[7])
    ensures Winner(b) == None
  {
    assert forall k :: 0 <= k < |Lines| ==> !Completes(b, Lines[k]);
  }

  /**
   * X at 0, O at 1, X at 4, O at 2, X at 8: every click lands on an empty
   * square of a board without a winner, and the last one completes the
   * main diagonal, which is reported although no other line is complete.
   */
  lemma DiagonalWin()
    ensures var x, o := Taken(X), Taken(O);
      var b1 := EmptyBoard[0 := x];
      var b2 := b1[1 := o];
      var b3 := b2[4 := x];
      var b4 := b3[2 := o];
      var b5 := b4[8 := x];
      && Winner(b1) == None && b1[1] == Empty
      && Winner(b2) == None && b2[4] == Empty
      && Winner(b3) == None && b3[2] == Empty
      && Winner(b4) == None && b4[8] == Empty
      && Winner(b5) == Some((0, 4, 8))
  {
    var e, x, o := Empty, Taken(X), Taken(O);
    var b1 := EmptyBoard[0 := x];
    var b2 := b1[1 := o];
    var b3 := b2[4 := x];
    var b4 := b3[2 := o];
    var b5 := b4[8 := x];
    assert b1 == [x, e, e, e, e, e, e, e, e];
    assert b2 == [x, o, e, e, e, e, e, e, e];
    assert b3 == [x, o, e, e, x, e, e, e, e];
    assert b4 == [x, o, o, e, x, e, e, e, e];
    assert b5 == [x, o, o, e, x, e, e, e, x];
    NoLineCompleted(b1);
    NoLineCompleted(b2);
    NoLineCompleted(b3);
    NoLineCompleted(b4);
    WinnerIsFirstMatch(b5, 6);
  }

  /** A full board on which no line is completed exists: nine moves can end without a winner. */
  lemma FullBoardWithoutLine()
    ensures var x, o := Taken(X), Taken(O);
      var b := [x, o, x, x, o, o, o, x, x];
      (forall i :: 0 <= i < 9 ==> b[i] != Empty) && Winner(b) == None
  {
    var x, o := Taken(X), Taken(O);
    var b: Board := [x, o, x, x, o, o, o, x, x];
    NoLineCompleted(b);
  }

  /**
   * There is no draw status: when the board under the cursor is full and
   * has no completed line, the cursor is on move nine and the status names
   * O as the next player.
   */
  lemma FullBoardShowsNextPlayer(s: State)
    requires Valid(s)
    requires forall i: Index :: Current(s).squares[i] != Empty
    requires Winner(Current(s).squares) == None
    ensures s.stepNumber == 9 && StatusOf(s) == NextPlayer(O)
  {
    CountAbsent(Current(s).squares, Empty);
    MarkCounts(s.history, s.stepNumber);
    CountPartition(Current(s).squares);
  }
}
