/**
 * The engine object and the computer player. Each method works the way the
 * engine does (loops over directions, rows and children, in-place writes to
 * the grid) and is proved to compute the corresponding function of the
 * Rules and Search modules.
 */
module OthelloPlayer {
  import opened Outcomes
  import opened ExtInts
  import opened Grids
  import opened Rules
  import opened RuleFacts
  import opened Search
  import opened Captures
  import opened Texts
  import opened Display

  class Othello {
    var board: Board

    /**
     * A copy of a non-empty grid, or else the start position of an even
     * width (one of the two must be given and the width must be even; a width
     * below 2 fails on the first centre write). A given grid must be
     * rectangular.
     */
    constructor (grid: Option<Grid>, width: Option<int>)
      requires grid.Some? && grid.value != [] ==> Rect(grid.value)
      requires (grid.Some? && grid.value != []) || (width.Some? && width.value >= 2 && width.value % 2 == 0)
      ensures grid.Some? && grid.value != [] ==> board == grid.value
      ensures !(grid.Some? && grid.value != []) ==> board == StartGrid(width.value)
    {
      if grid.Some? && grid.value != [] {
        board := grid.value;
      } else {
        var w := width.value;
        var row: seq<int> := [];
        while |row| < w
          invariant |row| <= w && row == seq(|row|, _ => 0)
        {
          row := row + [0];
        }
        var rows: seq<seq<int>> := [];
        while |rows| < w
          invariant |rows| <= w && rows == seq(|rows|, _ => row)
        {
          rows := rows + [row];
        }
        var m := w / 2 - 1;
        assert rows == seq(w, _ => seq(w, _ => 0));
        rows := rows[m := rows[m][m := 1]];
        rows := rows[m + 1 := rows[m + 1][m + 1 := 1]];
        rows := rows[m + 1 := rows[m + 1][m := 2]];
        rows := rows[m := rows[m][m + 1 := 2]];
        board := rows;
      }
    }

    /** The bounds test. */
    function IsOnBoard(l: Loc): (r: bool)
      reads this
      requires board != []
      ensures r <==> 0 <= l.y < |board| && 0 <= l.x < |board[0]|
    {
      l.x >= 0 && l.y >= 0 && l.y + 1 <= |board| && l.x + 1 <= |board[0]|
    }

    /**
     * The discs a move of p at loc would capture, direction by direction in
     * the engine's order; the cell at loc must not hold a disc of another
     * player, since the (0, 0) direction would walk on it forever.
     */
    method GetFlipped(loc: Loc, p: int) returns (flipped: seq<Loc>)
      requires SafeOrigin(board, loc, p)
      ensures flipped == Flipped(board, loc, p)
    {
      flipped := [];
      for x := -1 to 2
        invariant flipped == FlippedColumns(board, loc, p, x + 1)
      {
        var column := CaptureColumn(loc, x, p);
        flipped := flipped + column;
      }
      FlippedByColumns(board, loc, p);
    }

    /** The inner loop of GetFlipped: the directions (x, -1), (x, 0), (x, 1) in turn. */
    method CaptureColumn(loc: Loc, x: int, p: int) returns (column: seq<Loc>)
      requires -1 <= x <= 1 && SafeOrigin(board, loc, p)
      ensures column == ColumnRays(board, loc, p, x, 3)
    {
      column := [];
      for y := -1 to 2
        invariant column == ColumnRays(board, loc, p, x, y + 1)
      {
        var flip := CaptureLine(loc, Loc(x, y), p);
        column := column + flip;
      }
    }

    /**
     * The body of the direction loop: walk from loc in direction d over
     * opponent discs; keep them if the walk ends on a disc of p, drop them if
     * it ends off the board or on an empty cell.
     */
    method CaptureLine(loc: Loc, d: Offset, p: int) returns (flip: seq<Loc>)
      requires !OnBoard(board, loc) || Cell(board, loc) == 0 || Cell(board, loc) == p
      ensures flip == Ray(board, loc, d, p)
    {
      flip := [];
      var pos := Step(loc, d);
      ghost var target := Finish([], Walk(board, pos, d, p));
      while true
        invariant d == Loc(0, 0) ==> pos == loc
        invariant target == Finish(flip, Walk(board, pos, d, p))
        decreases Reach(board, pos, d)
      {
        FinishStop(board, flip, pos, d, p);
        if !IsOnBoard(pos) {
          flip := [];
          break;
        }
        var tile := board[pos.y][pos.x];
        if tile == 0 {
          flip := [];
          break;
        }
        if tile == p {
          break;
        }
        if d == Loc(0, 0) {
          assert false;
        }
        FinishStep(board, flip, pos, d, p);
        flip := flip + [pos];
        pos := Step(pos, d);
      }
      RayStart(board, loc, d, p);
    }

    /** Place p's disc at loc, then turn every captured disc to p, in place. */
    method PlayMove(loc: Loc, p: int)
      requires OnBoard(board, loc)
      modifies this
      ensures board == Play(old(board), loc, p)
    {
      board := SetCell(board, loc, p);
      ghost var placed := board;
      var flipped := GetFlipped(loc, p);
      FlippedCells(placed, loc, p);
      assert forall k :: 0 <= k < |flipped| ==> flipped[k] in flipped;
      for i := 0 to |flipped|
        invariant board == SetAll(placed, flipped[..i], p)
      {
        SetAllStep(placed, flipped, i, p);
        board := SetCell(board, flipped[i], p);
      }
      assert flipped[..|flipped|] == flipped;
    }

    /**
     * The board as text: the column numbers, then each row with its number,
     * numbers one space apart and each line ended by a newline.
     */
    method ToString() returns (output: string)
      ensures output == Render(board)
    {
      output := ColumnNumbers();
      output := output[..|output| - 1] + "\n";
      ghost var header := HeaderLine(Width(board)) + "\n";
      assert output == header + RowLines(board, 0);
      for y := 0 to |board|
        invariant output == header + RowLines(board, y)
      {
        var line := RowText(y);
        assert line[..|line| - 1] == RowLine(y, board[y]);
        RowLinesStep(header, board, y);
        output := output + line[..|line| - 1] + "\n";
      }
    }

    /** The first loop of ToString: two spaces, then each column number and a space. */
    method ColumnNumbers() returns (output: string)
      ensures output == "  " + Spaced(Indices(Width(board)))
    {
      output := "  ";
      for i := 0 to |board[0]|
        invariant output == "  " + Spaced(Indices(i))
      {
        assert Indices(i + 1) == Indices(i) + [Show(i)];
        PrefixedSnoc("  ", Indices(i), Show(i));
        output := output + Show(i) + " ";
      }
    }

    /** The inner loop of ToString: the row number and a space, then each cell and a space. */
    method RowText(y: int) returns (line: string)
      requires 0 <= y < |board|
      ensures line == Show(y) + " " + Spaced(CellTexts(board[y]))
    {
      var row := board[y];
      line := Show(y) + " ";
      for x := 0 to |row|
        invariant line == Show(y) + " " + Spaced(CellTexts(row[..x]))
      {
        assert CellTexts(row[..x + 1]) == CellTexts(row[..x]) + [Show(row[x])];
        PrefixedSnoc(Show(y) + " ", CellTexts(row[..x]), Show(row[x]));
        line := line + Show(row[x]) + " ";
      }
      assert row[..|row|] == row;
    }

    /** The available moves of p, scanning rows top to bottom and each row left to right. */
    method GetAvailableMoves(p: int) returns (moves: seq<Loc>)
      ensures moves == Moves(board, p)
    {
      moves := [];
      for y := 0 to |board|
        invariant moves == MovesThrough(board, p, y)
      {
        var row := ScanRow(p, y);
        moves := moves + row;
      }
    }

    /** The inner loop of GetAvailableMoves: the moves of p in row y, left to right. */
    method ScanRow(p: int, y: int) returns (row: seq<Loc>)
      requires 0 <= y < |board|
      ensures row == RowMoves(board, p, y, Width(board))
    {
      row := [];
      for x := 0 to |board[0]|
        invariant row == RowMoves(board, p, y, x)
      {
        if board[y][x] == 0 {
          var f := GetFlipped(Loc(x, y), p);
          if f != [] {
            row := row + [Loc(x, y)];
          }
        }
      }
    }

    /** The number of cells equal to p, counted row by row. */
    method GetStateValue(p: int) returns (value: int)
      ensures value == Count(board, p)
    {
      value := 0;
      for y := 0 to |board|
        invariant value == Count(board[..y], p)
      {
        var row := board[y];
        for x := 0 to |row|
          invariant value == Count(board[..y], p) + RowCount(row[..x], p)
        {
          assert row[..x + 1][..x] == row[..x];
          if row[x] == p {
            value := value + 1;
          }
        }
        assert row[..|row|] == row;
        assert board[..y + 1][..y] == board[..y];
      }
      assert board[..|board|] == board;
    }

    /** No empty cell remains, or neither player has a move. */
    method IsStateTerminal() returns (over: bool)
      ensures over == IsTerminal(board)
    {
      var empties := GetStateValue(0);
      if empties == 0 {
        return true;
      }
      var white := GetAvailableMoves(1);
      if white != [] {
        return false;
      }
      var black := GetAvailableMoves(2);
      if black != [] {
        return false;
      }
      return true;
    }

    /** One new engine per available move of p, holding the grid with that move played. */
    method GetChildren(p: int) returns (children: seq<Othello>)
      ensures |children| == |Moves(board, p)|
      ensures forall i :: 0 <= i < |children| ==> fresh(children[i]) && children[i].board == Children(board, p)[i]
    {
      var moves := GetAvailableMoves(p);
      children := [];
      for i := 0 to |moves|
        invariant |children| == i
        invariant forall j :: 0 <= j < i ==> fresh(children[j])
        invariant forall j :: 0 <= j < i ==> OnBoard(board, moves[j]) && children[j].board == Play(board, moves[j], p)
      {
        ChildAt(board, p, i);
        var child := MakeChild(moves[i], p);
        children := children + [child];
      }
      ChildrenArePlays(board, p);
    }

    /** A copy of this engine with p's move at loc played on the copy. */
    method MakeChild(loc: Loc, p: int) returns (child: Othello)
      requires OnBoard(board, loc)
      ensures fresh(child) && child.board == Play(board, loc, p)
    {
      child := new Othello(Some(board), None);
      child.PlayMove(loc, p);
    }

    /**
     * The negamax value of this position after p moved, searching depth plies
     * of the opponent's replies with the window (a, b), as NegamaxValue says.
     */
    method Negamax(p: int, depth: int, a: ExtInt, b: ExtInt, pruning: bool) returns (value: ExtInt)
      requires IsPlayer(p)
      ensures value == NegamaxValue(board, p, depth, a, b, pruning)
      decreases Count(board, 0), 1
    {
      var over := IsStateTerminal();
      if depth == 0 || over {
        var v := GetStateValue(p);
        return Fin(v);
      }
      var children := GetChildren(Opponent(p));
      var best := SearchChildren(children, p, depth - 1, a, b, pruning);
      return Neg(best);
    }

    /**
     * The loop of Negamax over the children of the opponent's moves: the best
     * of their values, stopping early once alpha reaches beta when pruning.
     */
    method SearchChildren(children: seq<Othello>, p: int, depth: int, a: ExtInt, b: ExtInt, pruning: bool)
      returns (best: ExtInt)
      requires IsPlayer(p) && |children| == |Moves(board, Opponent(p))|
      requires forall i :: 0 <= i < |children| ==> children[i].board == Children(board, Opponent(p))[i]
      ensures best == SearchReplies(board, p, depth, 0, a, b, pruning, NegInf)
      decreases Count(board, 0), 0
    {
      var q := Opponent(p);
      best := NegInf;
      var alpha := a;
      var i := 0;
      while i < |children|
        invariant 0 <= i <= |children|
        invariant SearchReplies(board, p, depth, 0, a, b, pruning, NegInf)
                  == SearchReplies(board, p, depth, i, alpha, b, pruning, best)
      {
        ChildHasFewerEmpties(board, q, i);
        var v := children[i].Negamax(q, depth, Neg(b), Neg(alpha), pruning);
        RepliesStep(board, p, depth, i, alpha, b, pruning, best, v);
        best := Max(best, v);
        if pruning {
          alpha := Max(alpha, v);
          if Le(b, alpha) {
            return;
          }
        }
        i := i + 1;
      }
    }

    /**
     * The move of p with the best score looking plies ahead, ties going to the
     * higher location type and then to the earlier move; None without a move.
     */
    method GetBestMove(p: int, plies: int) returns (best: Option<Loc>)
      requires IsPlayer(p)
      ensures best == BestMove(board, p, plies)
    {
      var moves := GetAvailableMoves(p);
      ghost var scores := Scores(board, p, plies);
      var w := |board|;
      best := None;
      var bestScore := NegInf;
      for i := 0 to |moves|
        invariant PickFrom(moves, scores, w, 0, None, NegInf) == PickFrom(moves, scores, w, i, best, bestScore)
      {
        var move := moves[i];
        var child := new Othello(Some(board), None);
        child.PlayMove(move, p);
        var score := child.Negamax(p, plies - 1, NegInf, PosInf, true);
        assert score == scores[i];
        if Lt(bestScore, score) {
          best, bestScore := Some(move), score;
        }
        if score == bestScore {
          if best.None? || LocationType(move, w) > LocationType(best.value, w) {
            best, bestScore := Some(move), score;
          }
        }
      }
    }
  }

  class ComputerPlayer {
    const playerID: int
    const difficultyLevel: int

    /** The player must be 1 or 2; a missing difficulty or one below 1 is raised to 1. */
    constructor (id: int, difficulty: Option<int>)
      requires IsPlayer(id)
      ensures playerID == id
      ensures difficultyLevel == if difficulty.None? || difficulty.value < 1 then 1 else difficulty.value
    {
      playerID := id;
      difficultyLevel := if difficulty.None? || difficulty.value < 1 then 1 else difficulty.value;
    }

    /** The engine's best move for this player on a copy of the given grid. */
    method PickMove(grid: Board) returns (move: Option<Loc>)
      requires IsPlayer(playerID)
      ensures move == BestMove(grid, playerID, difficultyLevel)
    {
      var othello := new Othello(Some(grid), None);
      move := othello.GetBestMove(playerID, difficultyLevel);
    }
  }
}
