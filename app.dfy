/**
 * The game logic of the graphical application, without its window: the
 * board, whose turn it is, the banner text and where the play buttons
 * stand. The application keeps its own copy of the capture rule and of the
 * move scan; both are proved to compute the engine's definitions, and a
 * disc placed here, with its captured discs turned one by one, gives the
 * engine's move.
 */
module OthelloApp {
  import opened Outcomes
  import opened Grids
  import opened Rules
  import opened RuleFacts
  import opened Captures
  import opened Texts

  /** The names of the players: 1 is White, 2 is Black. */
  function PlayerName(p: int): string
    requires IsPlayer(p)
  {
    if p == 1 then "White" else "Black"
  }

  /**
   * The disc a flipped cell shows: a White disc becomes Black, anything else
   * White. On 1 and 2 it is Grids.Opponent; it differs from it only in being
   * defined for every value, which maps to 1.
   */
  function Flip(v: int): (r: int)
    ensures IsPlayer(r)
    ensures IsPlayer(v) ==> r == Opponent(v)
  {
    if v == 1 then 2 else 1
  }

  /**
   * The player after p in turn order, as the swap computes it: the same
   * mapping as Flip, written out a second time by the application. On 1 and
   * 2 it is Grids.Opponent; any other value maps to 1.
   */
  function Other(p: int): (q: int)
    ensures IsPlayer(q) && (IsPlayer(p) ==> q == Opponent(p))
  {
    if p == 1 then 2 else 1
  }

  datatype Turn = ToMove(player: int) | GameOver

  /**
   * Where the turn goes when p is to move: to p if p has a move, otherwise
   * once to the other player if that one has a move, otherwise the game is over.
   */
  function NextTurn(g: Board, p: int): (t: Turn)
    requires IsPlayer(p)
    ensures t == GameOver <==> Moves(g, 1) == [] && Moves(g, 2) == []
    ensures t.ToMove? ==> IsPlayer(t.player) && Moves(g, t.player) != []
    ensures Moves(g, p) != [] ==> t == ToMove(p)
    ensures Moves(g, p) == [] && Moves(g, Opponent(p)) != [] ==> t == ToMove(Opponent(p))
  {
    if Moves(g, p) != [] then ToMove(p)
    else if Moves(g, Opponent(p)) != [] then ToMove(Opponent(p))
    else GameOver
  }

  /** The application ends the game exactly when the engine calls the position terminal. */
  lemma GameOverIffTerminal(g: Board, p: int)
    requires IsPlayer(p)
    ensures NextTurn(g, p) == GameOver <==> IsTerminal(g)
  {
    TerminalIffNoMoves(g);
  }

  /** The banner for the player to move: a human's turn, or the computer thinking. */
  function TurnBanner(p: int, human: bool): string
    requires IsPlayer(p)
  {
    PlayerName(p) + (if human then "'s turn" else " player is thinking...")
  }

  datatype Verdict = WhiteWins | BlackWins | Tie

  /** The side with more discs wins; equal counts are a tie. */
  function Winner(white: int, black: int): (v: Verdict)
    ensures v == WhiteWins <==> white > black
    ensures v == BlackWins <==> black > white
    ensures v == Tie <==> white == black
  {
    if white > black then WhiteWins else if black > white then BlackWins else Tie
  }

  /** The banner at the end of the game: the verdict and the larger of the two counts. */
  function VictoryBanner(white: int, black: int): string
  {
    var verdict := match Winner(white, black)
      case WhiteWins => "White player wins,"
      case BlackWins => "Black player wins,"
      case Tie => "tie game,";
    verdict + " with " + Show(if white >= black then white else black) + " tokens!"
  }

  class App {
    var board: Board
    var currentPlayer: int
    var banner: string
    /** The locations of the play buttons on the board, in the order they were placed. */
    var buttons: seq<Loc>
    /** The seats, 1 and 2, taken by a human player; the others are computer players. */
    const humans: set<int>

    ghost predicate Valid()
      reads this
    {
      ValidCells(board) && IsPlayer(currentPlayer)
    }

    /**
     * An application in a given state: seats, board and the player to move,
     * with an empty banner and no buttons.
     */
    constructor (humans: set<int>, grid: Board, p: int)
      requires ValidCells(grid) && IsPlayer(p)
      ensures Valid() && this.humans == humans && board == grid && currentPlayer == p
      ensures banner == [] && buttons == []
    {
      this.humans := humans;
      board := grid;
      currentPlayer := p;
      banner := [];
      buttons := [];
    }

    /** The state after p was made the player to move: the turn, the banner and the buttons. */
    ghost predicate TurnShown(p: int, before: seq<Loc>)
      reads this
      requires IsPlayer(p)
    {
      match NextTurn(board, p)
      case ToMove(q) =>
        && currentPlayer == q
        && banner == TurnBanner(q, q in humans)
        && buttons == before + (if q in humans then Moves(board, q) else [])
      case GameOver =>
        && currentPlayer == p
        && banner == VictoryBanner(Count(board, 1), Count(board, 2))
        && buttons == before
    }

    /** The bounds test. */
    function IsOnBoard(l: Loc): (r: bool)
      reads this
      ensures r <==> OnBoard(board, l)
    {
      l.x >= 0 && l.y >= 0 && l.y + 1 <= |board| && l.x + 1 <= |board[0]|
    }

    /**
     * Place a disc of the given player (the player to move when None) at loc,
     * turn each captured disc with FlipToken and, once the game has started,
     * hand the turn on. The buttons are cleared first.
     */
    method PlaceDisc(loc: Loc, player: Option<int>, gameStarted: bool)
      requires Valid() && OnBoard(board, loc)
      requires player.Some? ==> IsPlayer(player.value)
      modifies this
      ensures Valid()
      ensures board == Play(old(board), loc, player.GetOr(old(currentPlayer)))
      ensures !gameStarted ==> currentPlayer == old(currentPlayer) && banner == old(banner) && buttons == []
      ensures gameStarted ==> TurnShown(Other(old(currentPlayer)), [])
    {
      buttons := [];
      var p := if player.Some? then player.value else currentPlayer;
      ghost var g := board;
      board := SetCell(board, loc, p);
      var flipped := GetFlipped(loc, p);
      FlippedCells(board, loc, p);
      FlippedDistinct(board, loc, p);
      FlipAll(flipped, p);
      PlayKeepsCells(g, loc, p);
      if gameStarted {
        SwapPlayer();
      }
    }

    /** The flip loop of PlaceDisc: each captured disc of the opponent is turned over in turn. */
    method FlipAll(flipped: seq<Loc>, p: int)
      requires IsPlayer(p) && ValidCells(board) && OpponentDiscs(board, flipped, p) && Distinct(flipped)
      modifies this
      ensures board == SetAll(old(board), flipped, p)
      ensures currentPlayer == old(currentPlayer) && banner == old(banner) && buttons == old(buttons)
    {
      ghost var placed := board;
      for i := 0 to |flipped|
        invariant board == SetAll(placed, flipped[..i], p)
        invariant currentPlayer == old(currentPlayer) && banner == old(banner) && buttons == old(buttons)
      {
        FlipStep(placed, flipped, i, p);
        FlipToken(flipped[i]);
      }
      assert flipped[..|flipped|] == flipped;
    }

    /** Turn the disc at loc over: White becomes Black, anything else White. */
    method FlipToken(loc: Loc)
      requires OnBoard(board, loc)
      modifies this
      ensures board == SetCell(old(board), loc, Flip(Cell(old(board), loc)))
      ensures currentPlayer == old(currentPlayer) && banner == old(banner) && buttons == old(buttons)
    {
      if board[loc.y][loc.x] == 1 {
        board := SetCell(board, loc, 2);
      } else {
        board := SetCell(board, loc, 1);
      }
    }

    /**
     * The victory banner: the White and Black discs are counted cell by cell
     * and the side with more discs is named with its count.
     */
    method DeclareVictory()
      requires ValidCells(board)
      modifies this
      ensures banner == VictoryBanner(Count(board, 1), Count(board, 2))
      ensures board == old(board) && currentPlayer == old(currentPlayer) && buttons == old(buttons)
    {
      var white, black := 0, 0;
      for y := 0 to |board|
        invariant board == old(board) && currentPlayer == old(currentPlayer) && buttons == old(buttons)
        invariant white == Count(board[..y], 1) && black == Count(board[..y], 2)
      {
        var w, b := CountRow(y);
        white, black := white + w, black + b;
        assert board[..y + 1][..y] == board[..y];
      }
      assert board[..|board|] == board;
      banner := VictoryBanner(white, black);
    }

    /** The inner loop of DeclareVictory: the White and Black discs of row y. */
    method CountRow(y: int) returns (white: int, black: int)
      requires ValidCells(board) && 0 <= y < |board|
      ensures white == RowCount(board[y], 1) && black == RowCount(board[y], 2)
    {
      var row := board[y];
      white, black := 0, 0;
      for x := 0 to |row|
        invariant white == RowCount(row[..x], 1) && black == RowCount(row[..x], 2)
      {
        assert row[..x + 1][..x] == row[..x];
        var cell := row[x];
        assert cell == Cell(board, Loc(x, y));
        if cell != 0 {
          if cell == 1 {
            white := white + 1;
          } else {
            black := black + 1;
          }
        }
      }
      assert row[..|row|] == row;
    }

    /** Hand the turn to the player after the current one. */
    method SwapPlayer()
      requires Valid()
      modifies this
      ensures Valid() && board == old(board)
      ensures TurnShown(Other(old(currentPlayer)), old(buttons))
      decreases if Moves(board, Other(currentPlayer)) == [] then 3 else 1
    {
      if currentPlayer == 1 {
        SetPlayer(2);
      } else {
        SetPlayer(1);
      }
    }

    /**
     * Make p the player to move. Without a move, the game ends if neither
     * player has one, and otherwise the turn passes on. A human gets the
     * banner for the turn and one button per available move; for a computer
     * the banner says that it is thinking.
     */
    method SetPlayer(p: int)
      requires ValidCells(board) && IsPlayer(p)
      modifies this
      ensures Valid() && board == old(board)
      ensures TurnShown(p, old(buttons))
      decreases if Moves(board, p) == [] then 2 else 0
    {
      currentPlayer := p;
      var validMoves := GetValidMoves(p);
      if validMoves == [] {
        var white := GetValidMoves(1);
        var black: seq<Loc> := [];
        if white == [] {
          black := GetValidMoves(2);
        }
        if white == [] && black == [] {
          assert NextTurn(board, p) == GameOver;
          DeclareVictory();
        } else {
          assert Moves(board, Opponent(p)) != [];
          assert NextTurn(board, p) == NextTurn(board, Other(p));
          SwapPlayer();
        }
      } else {
        assert NextTurn(board, p) == ToMove(p);
        ShowTurn(validMoves);
      }
    }

    /**
     * The turn of the player to move, who has the given moves: a human gets
     * the banner for the turn and one button per move, a computer the banner
     * saying that it is thinking.
     */
    method ShowTurn(validMoves: seq<Loc>)
      requires IsPlayer(currentPlayer)
      modifies this
      ensures board == old(board) && currentPlayer == old(currentPlayer)
      ensures banner == TurnBanner(currentPlayer, currentPlayer in humans)
      ensures buttons == old(buttons) + (if currentPlayer in humans then validMoves else [])
    {
      if currentPlayer in humans {
        banner := TurnBanner(currentPlayer, true);
        for i := 0 to |validMoves|
          invariant board == old(board) && currentPlayer == old(currentPlayer)
          invariant banner == TurnBanner(currentPlayer, true)
          invariant buttons == old(buttons) + validMoves[..i]
        {
          assert validMoves[..i + 1] == validMoves[..i] + [validMoves[i]];
          buttons := buttons + [validMoves[i]];
        }
        assert validMoves[..|validMoves|] == validMoves;
      } else {
        banner := TurnBanner(currentPlayer, false);
      }
    }

    /** The application's copy of the capture rule, in the engine's direction order. */
    method GetFlipped(loc: Loc, p: int) returns (flipped: seq<Loc>)
      requires SafeOrigin(board, loc, p)
      ensures flipped == Flipped(board, loc, p)
    {
      flipped := [];
      for x := -1 to 2
        invariant flipped == FlippedColumns(board, loc, p, x + 1)
      {
        var column := CaptureColumn(loc, x, p);
        flipped := flipped + column;
      }
      FlippedByColumns(board, loc, p);
    }

    /** The directions (x, -1), (x, 0), (x, 1) of GetFlipped in turn. */
    method CaptureColumn(loc: Loc, x: int, p: int) returns (column: seq<Loc>)
      requires -1 <= x <= 1 && SafeOrigin(board, loc, p)
      ensures column == ColumnRays(board, loc, p, x, 3)
    {
      column := [];
      for y := -1 to 2
        invariant column == ColumnRays(board, loc, p, x, y + 1)
      {
        var flip := CaptureLine(loc, Loc(x, y), p);
        column := column + flip;
      }
    }

    /** The walk of GetFlipped in direction d: the opponent discs up to a disc of p, or nothing. */
    method CaptureLine(loc: Loc, d: Offset, p: int) returns (flip: seq<Loc>)
      requires !OnBoard(board, loc) || Cell(board, loc) == 0 || Cell(board, loc) == p
      ensures flip == Ray(board, loc, d, p)
    {
      flip := [];
      var pos := Step(loc, d);
      ghost var target := Finish([], Walk(board, pos, d, p));
      while true
        invariant d == Loc(0, 0) ==> pos == loc
        invariant target == Finish(flip, Walk(board, pos, d, p))
        decreases Reach(board, pos, d)
      {
        FinishStop(board, flip, pos, d, p);
        if !IsOnBoard(pos) {
          flip := [];
          break;
        }
        var tile := board[pos.y][pos.x];
        if tile == 0 {
          flip := [];
          break;
        }
        if tile == p {
          break;
        }
        if d == Loc(0, 0) {
          assert false;
        }
        FinishStep(board, flip, pos, d, p);
        flip := flip + [pos];
        pos := Step(pos, d);
      }
      RayStart(board, loc, d, p);
    }

    /** The valid moves of p, scanning rows top to bottom and each row left to right. */
    method GetValidMoves(p: int) returns (available: seq<Loc>)
      ensures available == Moves(board, p)
    {
      available := [];
      for y := 0 to |board|
        invariant available == MovesThrough(board, p, y)
      {
        var row := ScanRow(p, y);
        available := available + row;
      }
    }

    /** The inner loop of GetValidMoves: the moves of p in row y, left to right. */
    method ScanRow(p: int, y: int) returns (row: seq<Loc>)
      requires 0 <= y < |board|
      ensures row == RowMoves(board, p, y, Width(board))
    {
      row := [];
      for x := 0 to |board[0]|
        invariant row == RowMoves(board, p, y, x)
      {
        if board[y][x] == 0 {
          var f := GetFlipped(Loc(x, y), p);
          if f != [] {
            row := row + [Loc(x, y)];
          }
        }
      }
    }
  }

  /**
   * The step of the flip loop of PlaceDisc: the next captured cell still
   * holds an opponent disc, so turning it over writes p.
   */
  lemma FlipStep(placed: Board, flipped: seq<Loc>, i: int, p: int)
    requires IsPlayer(p) && ValidCells(placed) && 0 <= i < |flipped|
    requires OpponentDiscs(placed, flipped, p) && Distinct(flipped)
    ensures OnBoard(SetAll(placed, flipped[..i], p), flipped[i])
    ensures SetCell(SetAll(placed, flipped[..i], p), flipped[i], Flip(Cell(SetAll(placed, flipped[..i], p), flipped[i])))
            == SetAll(placed, flipped[..i + 1], p)
  {
    var l := flipped[i];
    assert l in flipped;
    assert l !in flipped[..i] by {
      forall k | 0 <= k < i ensures flipped[..i][k] != l {
        assert flipped[..i][k] == flipped[k];
      }
    }
    assert forall k :: 0 <= k < |flipped| ==> flipped[k] in flipped;
    SetAllStep(placed, flipped, i, p);
  }
}
