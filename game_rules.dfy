/**
 * The rules of the 4x4 cookie-and-milk game as values: the board, the ten lines the
 * game checks after every move, how a finished game is recognised, where a dropped
 * piece lands, and the text a board renders to.
 */
module GameRules {
  import opened Wrappers

  /** `GamePiece`: the two kinds of piece. */
  datatype Piece = Cookie | Milk

  /** A cell of the board: empty, or holding one piece. */
  type Cell = Option<Piece>

  /** `GameState`: still being played, won by a piece, or over without a winner. */
  datatype GameState = Running | Winner(piece: Piece) | Draw

  /** `GameError`: why a placement was refused. */
  datatype GameError = ColumnFull | GameOver

  /** Four rows of four cells, read `g[row][column]`; row 0 is the top, row 3 the bottom. */
  predicate IsGrid(g: seq<seq<Cell>>) {
    |g| == 4 && forall r :: 0 <= r < 4 ==> |g[r]| == 4
  }

  type Grid = g: seq<seq<Cell>> | IsGrid(g)
    witness [[None, None, None, None], [None, None, None, None], [None, None, None, None], [None, None, None, None]]

  /** The board of a fresh game. */
  const EmptyGrid: Grid :=
    [[None, None, None, None], [None, None, None, None], [None, None, None, None], [None, None, None, None]]

  /** Every one of the 16 cells holds a piece. */
  predicate IsFull(g: Grid) {
    forall r, c :: 0 <= r < 4 && 0 <= c < 4 ==> g[r][c].Some?
  }

  /** The grid with the one cell `(r, c)` replaced by `x`. */
  function WithCell(g: Grid, r: nat, c: nat, x: Cell): (h: Grid)
    requires r < 4 && c < 4
    ensures h[r][c] == x
    ensures forall i, j :: 0 <= i < 4 && 0 <= j < 4 && (i != r || j != c) ==> h[i][j] == g[i][j]
  {
    g[r := g[r][c := x]]
  }

  // ---------------------------------------------------------------------------
  // The ten lines, in the order the game checks them
  // ---------------------------------------------------------------------------

  /** `get_row(i)`: in spite of its name, the vertical line through column `i`, top to bottom. */
  function Vertical(g: Grid, i: nat): seq<Cell>
    requires i < 4
  {
    seq(4, r requires 0 <= r < 4 => g[r][i])
  }

  /** `get_column(i)`: in spite of its name, the horizontal line `g[i]`, left to right. */
  function Horizontal(g: Grid, i: nat): seq<Cell>
    requires i < 4
  {
    g[i]
  }

  /** `get_diagonals`: the main diagonal `(i, i)`, then the anti-diagonal `(i, 3 - i)`. */
  function Diagonals(g: Grid): seq<seq<Cell>>
  {
    [seq(4, i requires 0 <= i < 4 => g[i][i]), seq(4, i requires 0 <= i < 4 => g[i][3 - i])]
  }

  /** `get_combinations`: the four vertical lines, the four horizontal lines, the two diagonals. */
  function Combinations(g: Grid): (lines: seq<seq<Cell>>)
    ensures |lines| == 10
  {
    seq(4, i requires 0 <= i < 4 => Vertical(g, i))
    + seq(4, i requires 0 <= i < 4 => Horizontal(g, i))
    + Diagonals(g)
  }

  /** Reference table of the checking order: the row of the `j`-th cell of line `k`. */
  function LineRow(k: nat, j: nat): (r: nat)
    requires k < 10 && j < 4
    ensures r < 4
  {
    if k < 4 then j else if k < 8 then k - 4 else j
  }

  /** Reference table of the checking order: the column of the `j`-th cell of line `k`. */
  function LineColumn(k: nat, j: nat): (c: nat)
    requires k < 10 && j < 4
    ensures c < 4
  {
    if k < 4 then k else if k < 8 then j else if k == 8 then j else 3 - j
  }

  /** The lines are enumerated exactly as the reference table says. */
  lemma CombinationCell(g: Grid, k: nat, j: nat)
    requires k < 10 && j < 4
    ensures |Combinations(g)[k]| == 4
    ensures Combinations(g)[k][j] == g[LineRow(k, j)][LineColumn(k, j)]
  {
  }

  /** Line `k` of the checking order holds `p` in all four of its cells. */
  ghost predicate LineWonBy(g: Grid, k: nat, p: Piece)
    requires k < 10
  {
    forall j :: 0 <= j < 4 ==> g[LineRow(k, j)][LineColumn(k, j)] == Some(p)
  }

  /** One piece fills line `k`. */
  ghost predicate LineWon(g: Grid, k: nat)
    requires k < 10
  {
    LineWonBy(g, k, Cookie) || LineWonBy(g, k, Milk)
  }

  /** No piece fills any of the ten lines. */
  ghost predicate NoLineWon(g: Grid) {
    forall k :: 0 <= k < 10 ==> !LineWon(g, k)
  }

  /** Line `k` is the first line, in checking order, that one piece fills, and `p` fills it. */
  ghost predicate FirstWin(g: Grid, k: nat, p: Piece) {
    k < 10 && LineWonBy(g, k, p) && forall j :: 0 <= j < k ==> !LineWon(g, j)
  }

  // ---------------------------------------------------------------------------
  // Recognising a finished game
  // ---------------------------------------------------------------------------

  /**
   * `all_same`: the first cell of the line, provided every cell equals it. An empty
   * line gives `None`, and so does a line whose first cell is empty.
   */
  function AllSame(line: seq<Cell>): (r: Cell)
    ensures r.Some? ==> forall j :: 0 <= j < |line| ==> line[j] == r
  {
    if |line| == 0 then None
    else if forall j :: 1 <= j < |line| ==> line[j] == line[0] then line[0]
    else None
  }

  /** Every cell of the line holds a piece. */
  predicate AllOccupied(line: seq<Cell>) {
    forall j :: 0 <= j < |line| ==> line[j].Some?
  }

  /** `find_map(all_same)`: the verdict of the first line that one piece fills. */
  function FindMap(lines: seq<seq<Cell>>): (r: Cell)
    ensures r.Some? ==> exists k :: 0 <= k < |lines| && AllSame(lines[k]) == r
                                    && forall j :: 0 <= j < k ==> AllSame(lines[j]).None?
    ensures r.None? ==> forall k :: 0 <= k < |lines| ==> AllSame(lines[k]).None?
  {
    if |lines| == 0 then None
    else if AllSame(lines[0]).Some? then AllSame(lines[0])
    else
      var rest := FindMap(lines[1..]);
      assert forall k :: 1 <= k < |lines| ==> lines[k] == lines[1..][k - 1];
      rest
  }

  /**
   * What `update_state` decides for a running game: the piece of the first line one
   * piece fills; otherwise `Draw` when every cell of every line is occupied;
   * otherwise `Running`.
   */
  function Evaluate(g: Grid): GameState
  {
    var lines := Combinations(g);
    match FindMap(lines)
    case Some(p) => Winner(p)
    case None =>
      if forall k :: 0 <= k < |lines| ==> AllOccupied(lines[k]) then Draw else Running
  }

  /** `all_same` yields `Some(p)` exactly when the line is non-empty and all of it is `Some(p)`. */
  lemma AllSameExactly(line: seq<Cell>, p: Piece)
    ensures AllSame(line) == Some(p) <==> |line| > 0 && forall j :: 0 <= j < |line| ==> line[j] == Some(p)
  {
  }

  /** The verdict of `all_same` on line `k` agrees with the reference definition of a won line. */
  lemma LineVerdict(g: Grid, k: nat, p: Piece)
    requires k < 10
    ensures AllSame(Combinations(g)[k]) == Some(p) <==> LineWonBy(g, k, p)
  {
    AllSameExactly(Combinations(g)[k], p);
    forall j | 0 <= j < 4 {
      CombinationCell(g, k, j);
    }
  }

  /** `LineVerdict` for every line and both pieces at once. */
  lemma AllLineVerdicts(g: Grid)
    ensures forall k, q :: 0 <= k < 10 ==> (AllSame(Combinations(g)[k]) == Some(q) <==> LineWonBy(g, k, q))
    ensures forall k :: 0 <= k < 10 ==> (AllSame(Combinations(g)[k]).None? <==> !LineWon(g, k))
  {
    forall k, q | 0 <= k < 10 {
      LineVerdict(g, k, q);
    }
    forall k | 0 <= k < 10
      ensures AllSame(Combinations(g)[k]).None? <==> !LineWon(g, k)
    {
      LineVerdict(g, k, Cookie);
      LineVerdict(g, k, Milk);
      match AllSame(Combinations(g)[k])
      case None =>
      case Some(q) =>
        assert q == Cookie || q == Milk;
    }
  }

  /** Every line fully occupied is the same as every one of the 16 cells occupied. */
  lemma LinesOccupiedIffFull(g: Grid)
    ensures (forall k :: 0 <= k < 10 ==> AllOccupied(Combinations(g)[k])) <==> IsFull(g)
  {
    var lines := Combinations(g);
    if forall k :: 0 <= k < 10 ==> AllOccupied(lines[k]) {
      forall r, c | 0 <= r < 4 && 0 <= c < 4
        ensures g[r][c].Some?
      {
        CombinationCell(g, c, r);
        assert AllOccupied(lines[c]);
      }
    }
    if IsFull(g) {
      forall k | 0 <= k < 10
        ensures AllOccupied(lines[k])
      {
        forall j | 0 <= j < |lines[k]|
          ensures lines[k][j].Some?
        {
          CombinationCell(g, k, j);
        }
      }
    }
  }

  /** The game is won by `p` exactly when `p` fills the first line, in checking order, that one piece fills. */
  lemma EvaluateWinner(g: Grid, p: Piece)
    ensures Evaluate(g) == Winner(p) <==> exists k: nat :: FirstWin(g, k, p)
  {
    var lines := Combinations(g);
    AllLineVerdicts(g);
    if Evaluate(g) == Winner(p) {
      assert FindMap(lines) == Some(p);
      var k :| 0 <= k < |lines| && AllSame(lines[k]) == Some(p)
                && forall j :: 0 <= j < k ==> AllSame(lines[j]).None?;
      assert FirstWin(g, k, p);
    }
    if exists k: nat :: FirstWin(g, k, p) {
      var k: nat :| FirstWin(g, k, p);
      assert AllSame(lines[k]) == Some(p);
      match FindMap(lines)
      case None =>
        assert false;
      case Some(q) =>
        var k' :| 0 <= k' < |lines| && AllSame(lines[k']) == Some(q)
                  && forall j :: 0 <= j < k' ==> AllSame(lines[j]).None?;
        assert k' == k;
    }
  }

  /** The game is drawn exactly when no line is won and all 16 cells are occupied. */
  lemma EvaluateDraw(g: Grid)
    ensures Evaluate(g) == Draw <==> NoLineWon(g) && IsFull(g)
  {
    AllLineVerdicts(g);
    LinesOccupiedIffFull(g);
  }

  /** The game goes on exactly when no line is won and some cell is still empty. */
  lemma EvaluateRunning(g: Grid)
    ensures Evaluate(g) == Running <==> NoLineWon(g) && !IsFull(g)
  {
    AllLineVerdicts(g);
    LinesOccupiedIffFull(g);
  }

  /**
   * From a position no one has won, putting `p` into one cell can only make `p` the
   * winner: any line it completes passes through that cell.
   */
  lemma OnlyPlacerCanWin(g: Grid, r: nat, c: nat, p: Piece)
    requires r < 4 && c < 4 && !Evaluate(g).Winner?
    ensures Evaluate(WithCell(g, r, c, Some(p))).Winner? ==> Evaluate(WithCell(g, r, c, Some(p))).piece == p
  {
    var h := WithCell(g, r, c, Some(p));
    EvaluateDraw(g);
    EvaluateRunning(g);
    assert NoLineWon(g);
    if Evaluate(h).Winner? {
      var q := Evaluate(h).piece;
      EvaluateWinner(h, q);
      var k: nat :| FirstWin(h, k, q);
      if q != p {
        forall j | 0 <= j < 4
          ensures g[LineRow(k, j)][LineColumn(k, j)] == Some(q)
        {
          assert h[LineRow(k, j)][LineColumn(k, j)] == Some(q);
        }
        assert LineWonBy(g, k, q);
        assert LineWon(g, k);
        assert false;
      }
    }
  }

  // ---------------------------------------------------------------------------
  // Where a dropped piece lands
  // ---------------------------------------------------------------------------

  /** The lowest empty cell of column `c` among rows `0 .. n - 1`, searching upwards from row `n - 1`. */
  function EmptyBelow(g: Grid, c: nat, n: nat): (r: Option<nat>)
    requires c < 4 && n <= 4
    ensures r.Some? ==> r.value < n && g[r.value][c].None? && forall k :: r.value < k < n ==> g[k][c].Some?
    ensures r.None? ==> forall k :: 0 <= k < n ==> g[k][c].Some?
  {
    if n == 0 then None
    else if g[n - 1][c].None? then Some(n - 1)
    else EmptyBelow(g, c, n - 1)
  }

  /** The row a piece dropped into column `c` lands in: `(0..4).rev().find(..)` over the column. */
  function LowestEmpty(g: Grid, c: nat): Option<nat>
    requires c < 4
  {
    EmptyBelow(g, c, 4)
  }

  /** Gravity: in every column, an occupied cell rests on an occupied cell or on the bottom row. */
  predicate Settled(g: Grid) {
    forall r, c {:trigger g[r][c]} :: 0 <= r < 3 && 0 <= c < 4 && g[r][c].Some? ==> g[r + 1][c].Some?
  }

  /** Dropping a piece into a column keeps every column settled. */
  lemma DropKeepsSettled(g: Grid, c: nat, p: Piece)
    requires c < 4 && Settled(g) && LowestEmpty(g, c).Some?
    ensures Settled(WithCell(g, LowestEmpty(g, c).value, c, Some(p)))
  {
  }

  /** Column `c` holds exactly its bottom `h` cells. */
  predicate StackHeight(g: Grid, c: nat, h: nat)
    requires c < 4
  {
    h <= 4 && forall r :: 0 <= r < 4 ==> (g[r][c].Some? <==> 4 - h <= r)
  }

  /**
   * A column holding its bottom `h` cells takes the next piece in row `3 - h` and then
   * holds `h + 1`; a column of height 4 is full. So drops into an empty column fill
   * rows 3, 2, 1, 0 in turn and a fifth finds no room.
   */
  lemma DropStacks(g: Grid, c: nat, h: nat, p: Piece)
    requires c < 4 && StackHeight(g, c, h)
    ensures LowestEmpty(g, c) == if h == 4 then None else Some(3 - h)
    ensures h < 4 ==> StackHeight(WithCell(g, 3 - h, c, Some(p)), c, h + 1)
  {
    if h < 4 {
      assert g[3 - h][c].None?;
    } else {
      assert g[0][c].Some?;
    }
  }

  // ---------------------------------------------------------------------------
  // The text of a board
  // ---------------------------------------------------------------------------

  /** The wall glyph, white large square. */
  const Wall: char := '\U{2B1C}'

  /** The glyph of an empty cell, black large square. */
  const EmptyGlyph: char := '\U{2B1B}'

  /** `Display` for `GamePiece`: the cookie and the glass of milk. */
  function PieceGlyph(p: Piece): char
  {
    match p
    case Cookie => '\U{1F36A}'
    case Milk => '\U{1F95B}'
  }

  function CellGlyph(x: Cell): char
  {
    match x
    case Some(p) => PieceGlyph(p)
    case None => EmptyGlyph
  }

  /** The glyphs of a row's cells, in order. */
  function CellsText(cells: seq<Cell>): (t: string)
    ensures |t| == |cells|
    ensures forall j :: 0 <= j < |cells| ==> t[j] == CellGlyph(cells[j])
  {
    if cells == [] then [] else [CellGlyph(cells[0])] + CellsText(cells[1..])
  }

  /** One row: left wall, four cell glyphs, right wall, newline. */
  function RowText(row: seq<Cell>): string
  {
    [Wall] + CellsText(row) + [Wall, '\n']
  }

  function RowsText(rows: seq<seq<Cell>>): string
  {
    if rows == [] then [] else RowText(rows[0]) + RowsText(rows[1..])
  }

  const BottomWall: string := [Wall, Wall, Wall, Wall, Wall, Wall, '\n']

  /** The line after the board: only for a finished game. */
  function StatusText(s: GameState): string
  {
    match s
    case Winner(p) => [PieceGlyph(p)] + " wins!\n"
    case Draw => "No winner.\n"
    case Running => ""
  }

  /** `Display` for `GameBoard`: rows top to bottom, the bottom wall, then the status line. */
  function Render(g: Grid, s: GameState): string
  {
    RowsText(g) + BottomWall + StatusText(s)
  }

  /** Row `r` of a rendered row block is the seven characters starting at `7 * r`. */
  lemma {:induction false} RowsTextAt(rows: seq<seq<Cell>>, r: nat)
    requires forall i :: 0 <= i < |rows| ==> |rows[i]| == 4
    requires r < |rows|
    ensures |RowsText(rows)| == 7 * |rows|
    ensures RowsText(rows)[7 * r .. 7 * r + 7] == RowText(rows[r])
  {
    if r == 0 {
      RowsTextLength(rows[1..]);
    } else {
      RowsTextAt(rows[1..], r - 1);
    }
  }

  lemma {:induction false} RowsTextLength(rows: seq<seq<Cell>>)
    requires forall i :: 0 <= i < |rows| ==> |rows[i]| == 4
    ensures |RowsText(rows)| == 7 * |rows|
  {
    if rows != [] {
      RowsTextLength(rows[1..]);
    }
  }

  /**
   * Where everything sits in the text of a board: cell `(r, c)` is character
   * `7 * r + 1 + c`, between walls at `7 * r` and `7 * r + 5` and before the newline
   * at `7 * r + 6`; the bottom wall follows, then the status line.
   */
  lemma RenderLayout(g: Grid, s: GameState, r: nat, c: nat)
    requires r < 4 && c < 4
    ensures |Render(g, s)| == 35 + |StatusText(s)|
    ensures Render(g, s)[7 * r + 1 + c] == CellGlyph(g[r][c])
    ensures Render(g, s)[7 * r] == Wall && Render(g, s)[7 * r + 5] == Wall && Render(g, s)[7 * r + 6] == '\n'
    ensures Render(g, s)[28 .. 35] == BottomWall
    ensures Render(g, s)[35 ..] == StatusText(s)
  {
    RowsTextAt(g, r);
    var rows, status := RowsText(g), StatusText(s);
    var text := rows + BottomWall + status;
    assert text == Render(g, s);
    var line := rows[7 * r .. 7 * r + 7];
    assert line == RowText(g[r]);
    assert line[0] == Wall && line[5] == Wall && line[6] == '\n';
    assert line[1 + c] == CellsText(g[r])[c];
    assert text[7 * r + 1 + c] == rows[7 * r + 1 + c] == line[1 + c];
    assert text[7 * r] == line[0] && text[7 * r + 5] == line[5] && text[7 * r + 6] == line[6];
    assert text[28 .. 35] == BottomWall;
    assert text[35 ..] == status;
  }

  /** Distinct cells never share a glyph. */
  lemma CellGlyphInjective(x: Cell, y: Cell)
    ensures CellGlyph(x) == CellGlyph(y) ==> x == y
  {
  }

  /**
   * The text is the whole observable state: two boards, with their game states,
   * that render alike are the same board in the same state.
   */
  lemma RenderInjective(g1: Grid, s1: GameState, g2: Grid, s2: GameState)
    requires Render(g1, s1) == Render(g2, s2)
    ensures g1 == g2 && s1 == s2
  {
    forall r, c | 0 <= r < 4 && 0 <= c < 4
      ensures g1[r][c] == g2[r][c]
    {
      RenderLayout(g1, s1, r, c);
      RenderLayout(g2, s2, r, c);
      CellGlyphInjective(g1[r][c], g2[r][c]);
    }
    forall r | 0 <= r < 4
      ensures g1[r] == g2[r]
    {
    }
    RenderLayout(g1, s1, 0, 0);
    RenderLayout(g2, s2, 0, 0);
    StatusTextInjective(s1, s2);
  }

  /** The status line tells the three outcomes, and the two winners, apart. */
  lemma StatusTextInjective(s1: GameState, s2: GameState)
    requires StatusText(s1) == StatusText(s2)
    ensures s1 == s2
  {
    assert |StatusText(s1)| == |StatusText(s2)|;
    if s1.Winner? && s2.Winner? {
      assert StatusText(s1)[0] == StatusText(s2)[0];
    }
  }

  /** A board with every cell empty, such as a fresh one, is still running. */
  lemma EmptyBoardRunning(g: Grid)
    requires forall r, c :: 0 <= r < 4 && 0 <= c < 4 ==> g[r][c].None?
    ensures Evaluate(g) == Running
  {
    EvaluateRunning(g);
    forall k | 0 <= k < 10
      ensures !LineWon(g, k)
    {
      assert g[LineRow(k, 0)][LineColumn(k, 0)] == None;
    }
  }

  /** The text of a fresh board: four empty walled rows, the bottom wall, and no status line. */
  lemma FreshBoardText()
    ensures Render(EmptyGrid, Running) ==
      "\U{2B1C}\U{2B1B}\U{2B1B}\U{2B1B}\U{2B1B}\U{2B1C}\n"
      + "\U{2B1C}\U{2B1B}\U{2B1B}\U{2B1B}\U{2B1B}\U{2B1C}\n"
      + "\U{2B1C}\U{2B1B}\U{2B1B}\U{2B1B}\U{2B1B}\U{2B1C}\n"
      + "\U{2B1C}\U{2B1B}\U{2B1B}\U{2B1B}\U{2B1B}\U{2B1C}\n"
      + "\U{2B1C}\U{2B1C}\U{2B1C}\U{2B1C}\U{2B1C}\U{2B1C}\n"
  {
    var row: seq<Cell> := [None, None, None, None];
    var empty := "\U{2B1C}\U{2B1B}\U{2B1B}\U{2B1B}\U{2B1B}\U{2B1C}\n";
    assert CellsText(row) == [EmptyGlyph, EmptyGlyph, EmptyGlyph, EmptyGlyph];
    assert RowText(row) == empty;
    assert EmptyGrid[3..] == [row] && EmptyGrid[2..] == [row, row] && EmptyGrid[1..] == [row, row, row];
    assert RowsText([row]) == empty;
    assert RowsText([row, row]) == empty + empty;
    assert RowsText([row, row, row]) == empty + empty + empty;
    assert RowsText(EmptyGrid) == empty + empty + empty + empty;
  }

  /** Cookies down the main diagonal and nothing else, as in the winner rendering test, are won by the cookie through that diagonal, and the text ends with the cookie's win line. */
  lemma DiagonalWin(g: Grid)
    requires forall r, c :: 0 <= r < 4 && 0 <= c < 4 ==> g[r][c] == if r == c then Some(Cookie) else None
    ensures Evaluate(g) == Winner(Cookie)
    ensures |Render(g, Winner(Cookie))| >= 35 && Render(g, Winner(Cookie))[35 ..] == "\U{1F36A} wins!\n"
  {
    forall k | 0 <= k < 8
      ensures !LineWon(g, k)
    {
      var j := if k < 4 then (k + 1) % 4 else (k - 3) % 4;
      assert g[LineRow(k, j)][LineColumn(k, j)] == None;
    }
    assert FirstWin(g, 8, Cookie);
    EvaluateWinner(g, Cookie);
    RenderLayout(g, Winner(Cookie), 0, 0);
  }

  /**
   * The full board of the draw test (rows alternately milk-cookie-cookie-milk and
   * cookie-milk-milk-cookie) has no line of one piece: a draw, shown as "No winner.".
   */
  lemma CheckeredDraw(g: Grid)
    requires forall r, c :: 0 <= r < 4 && 0 <= c < 4 ==>
      g[r][c] == if (r % 2 == 0) == (c == 1 || c == 2) then Some(Cookie) else Some(Milk)
    ensures Evaluate(g) == Draw
    ensures |Render(g, Draw)| >= 35 && Render(g, Draw)[35 ..] == "No winner.\n"
  {
    forall k | 0 <= k < 10
      ensures !LineWon(g, k)
    {
      var j := if k < 8 then 1 else 2;
      assert g[LineRow(k, 0)][LineColumn(k, 0)] != g[LineRow(k, j)][LineColumn(k, j)];
    }
    EvaluateDraw(g);
    RenderLayout(g, Draw, 0, 0);
  }
}
