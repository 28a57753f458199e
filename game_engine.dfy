/**
 * The game board as the server holds it: a 4x4 array of cells updated in place, the
 * current game state, and the seeded generator that `randomize` draws from.
 */
module GameEngine {
  import opened Wrappers
  import opened GameRules

  /** The piece `randomize` puts in a cell for one boolean draw. */
  function PieceOf(b: bool): Piece
  {
    if b then Cookie else Milk
  }

  /** Four cells filled from the draws at positions `first .. first + 3` of `stream`. */
  function DrawnRow(stream: nat -> bool, first: nat): (row: seq<Cell>)
    ensures |row| == 4
    ensures forall c :: 0 <= c < 4 ==> row[c] == Some(PieceOf(stream(first + c)))
  {
    [Some(PieceOf(stream(first))), Some(PieceOf(stream(first + 1))),
     Some(PieceOf(stream(first + 2))), Some(PieceOf(stream(first + 3)))]
  }

  /**
   * The board `randomize` produces when the generator's next 16 draws start at
   * position `start` of `stream`: cells in row-major order, one draw each.
   */
  function RandomGrid(stream: nat -> bool, start: nat): (g: Grid)
    ensures IsFull(g)
    ensures forall r :: 0 <= r < 4 ==> g[r] == DrawnRow(stream, start + 4 * r)
  {
    [DrawnRow(stream, start), DrawnRow(stream, start + 4), DrawnRow(stream, start + 8), DrawnRow(stream, start + 12)]
  }

  /** A board whose every cell holds the piece of its own draw is the randomized board. */
  lemma RandomGridCells(g: Grid, stream: nat -> bool, start: nat)
    requires forall r, c :: 0 <= r < 4 && 0 <= c < 4 ==> g[r][c] == Some(PieceOf(stream(start + 4 * r + c)))
    ensures g == RandomGrid(stream, start)
  {
    forall r | 0 <= r < 4
      ensures g[r] == RandomGrid(stream, start)[r]
    {
    }
  }

  class GameBoard {
    /**
     * The booleans the generator yields, draw after draw. The source seeds its
     * generator with the constant 2024; which booleans that produces is the
     * generator library's business, so the stream is a parameter here.
     */
    const stream: nat -> bool
    /** How many booleans have been drawn so far. */
    var drawn: nat
    /** `board[row, column]`; row 0 is the top, row 3 the bottom. */
    const board: array2<Cell>
    var state: GameState

    ghost predicate Valid()
      reads this
    {
      board.Length0 == 4 && board.Length1 == 4
    }

    /** Row `r` of the board, as a value. */
    function Row(r: nat): (row: seq<Cell>)
      reads this, board
      requires Valid() && r < 4
      ensures |row| == 4
    {
      [board[r, 0], board[r, 1], board[r, 2], board[r, 3]]
    }

    /** The whole board, as a value. */
    function Cells(): (g: Grid)
      reads this, board
      requires Valid()
      ensures forall r, c :: 0 <= r < 4 && 0 <= c < 4 ==> g[r][c] == board[r, c]
    {
      [Row(0), Row(1), Row(2), Row(3)]
    }

    /**
     * `GameBoard::default()`: an empty board in state `Running`, the generator at its
     * first draw. The server's reset builds a new one of these.
     */
    constructor (stream: nat -> bool)
      ensures Valid() && fresh(board)
      ensures Cells() == EmptyGrid && state == Running
      ensures this.stream == stream && drawn == 0
    {
      this.stream := stream;
      drawn := 0;
      board := new Cell[4, 4]((r, c) => None);
      state := Running;
    }

    /**
     * `place`: refused with `GameOver` unless the game is running; otherwise the piece
     * drops into the lowest empty cell of the column, or the move is refused with
     * `ColumnFull`. A refused move changes nothing; a successful one sets that one
     * cell and then recomputes the state.
     */
    method Place(team: Piece, column: nat) returns (result: Result<GameState, GameError>)
      requires Valid() && column < 4
      modifies this`state, board
      ensures Valid()
      ensures !old(state).Running? ==>
        result == Failure(GameOver) && Cells() == old(Cells()) && state == old(state)
      ensures old(state).Running? && LowestEmpty(old(Cells()), column).None? ==>
        result == Failure(ColumnFull) && Cells() == old(Cells()) && state == old(state)
      ensures old(state).Running? && LowestEmpty(old(Cells()), column).Some? ==>
        Cells() == WithCell(old(Cells()), LowestEmpty(old(Cells()), column).value, column, Some(team))
        && state == Evaluate(Cells()) && result == Success(state)
    {
      if !state.Running? {
        return Failure(GameOver);
      }
      var row := 4;
      while row > 0 && board[row - 1, column].Some?
        invariant 0 <= row <= 4
        invariant forall k :: row <= k < 4 ==> board[k, column].Some?
        decreases row
      {
        row := row - 1;
      }
      if row == 0 {
        return Failure(ColumnFull);
      }
      ghost var before := Cells();
      assert LowestEmpty(before, column) == Some(row - 1);
      board[row - 1, column] := Some(team);
      ghost var after := WithCell(before, row - 1, column, Some(team));
      assert forall i, j :: 0 <= i < 4 && 0 <= j < 4 ==> Cells()[i][j] == after[i][j];
      assert forall i :: 0 <= i < 4 ==> Cells()[i] == after[i];
      var s := UpdateState();
      return Success(s);
    }

    /**
     * `randomize`: every cell, in row-major order, gets a cookie for a `true` draw
     * and milk for a `false` one. The state is left as it was, even when the new
     * board shows a winner or the old state was final.
     */
    method Randomize()
      requires Valid()
      modifies this`drawn, board
      ensures Valid() && state == old(state)
      ensures drawn == old(drawn) + 16
      ensures forall r, c :: 0 <= r < 4 && 0 <= c < 4 ==> board[r, c] == Some(PieceOf(stream(old(drawn) + 4 * r + c)))
      ensures Cells() == RandomGrid(stream, old(drawn)) && IsFull(Cells())
    {
      ghost var start := drawn;
      var r := 0;
      while r < 4
        invariant 0 <= r <= 4 && drawn == start + 4 * r
        invariant forall i, j :: 0 <= i < r && 0 <= j < 4 ==> board[i, j] == Some(PieceOf(stream(start + 4 * i + j)))
      {
        var c := 0;
        while c < 4
          invariant 0 <= c <= 4 && drawn == start + 4 * r + c
          invariant forall i, j :: 0 <= i < r && 0 <= j < 4 ==> board[i, j] == Some(PieceOf(stream(start + 4 * i + j)))
          invariant forall j :: 0 <= j < c ==> board[r, j] == Some(PieceOf(stream(start + 4 * r + j)))
        {
          var b := stream(drawn);
          drawn := drawn + 1;
          if b {
            board[r, c] := Some(Cookie);
          } else {
            board[r, c] := Some(Milk);
          }
          c := c + 1;
        }
        r := r + 1;
      }
      CellsFromDraws(start);
    }

    /** A board whose every cell holds the piece of its own draw from `start` on is the randomized board. */
    lemma CellsFromDraws(start: nat)
      requires Valid()
      requires forall r, c :: 0 <= r < 4 && 0 <= c < 4 ==> board[r, c] == Some(PieceOf(stream(start + 4 * r + c)))
      ensures Cells() == RandomGrid(stream, start)
    {
      RandomGridCells(Cells(), stream, start);
    }

    /**
     * `update_state`: a running game gets the verdict of its board; a won or drawn
     * game keeps its state.
     */
    method UpdateState() returns (s: GameState)
      requires Valid()
      modifies this`state
      ensures Valid()
      ensures state == (if old(state).Running? then Evaluate(Cells()) else old(state))
      ensures s == state
    {
      if state.Running? {
        state := Evaluate(Cells());
      }
      s := state;
    }

    /** `Display`: the text the server answers with. It determines the board and the state. */
    function Text(): (t: string)
      reads this, board
      requires Valid()
      ensures t == Render(Cells(), state)
      ensures forall g: Grid, s :: t == Render(g, s) ==> g == Cells() && s == state
    {
      var t := Render(Cells(), state);
      forall g: Grid, s | t == Render(g, s)
        ensures g == Cells() && s == state
      {
        RenderInjective(g, s, Cells(), state);
      }
      t
    }
  }
}
