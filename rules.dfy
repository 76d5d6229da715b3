/**
 * The rules of Othello as functions of the grid: the sandwich capture rule,
 * playing a move, the available moves, terminal positions and the children of
 * a position. The engine's and the application's loops are proved against
 * these definitions.
 */
module Rules {
  import opened Outcomes
  import opened Grids

  // ---------------------------------------------------------------------------
  // Directions and walks

  /** A step of -1, 0 or 1 on each axis: the nine values of the direction loops. */
  predicate IsStep(d: Loc)
  {
    -1 <= d.x <= 1 && -1 <= d.y <= 1
  }

  /** One of the eight compass directions: a step that is not (0, 0). */
  predicate IsDir(d: Loc)
  {
    IsStep(d) && d != Loc(0, 0)
  }

  type Offset = d: Loc | IsStep(d) witness Loc(0, 0)

  type Dir = d: Loc | IsDir(d) witness Loc(1, 0)

  function Step(l: Loc, d: Loc): Loc
  {
    Loc(l.x + d.x, l.y + d.y)
  }

  /** How many steps in direction d remain before a walk from pos leaves the board. */
  function Reach(g: Board, pos: Loc, d: Loc): nat
  {
    if !OnBoard(g, pos) then 0
    else
      (if d.x == 1 then Width(g) - pos.x else if d.x == -1 then pos.x + 1 else 0)
      + (if d.y == 1 then |g| - pos.y else if d.y == -1 then pos.y + 1 else 0)
  }

  /**
   * The walk of the capture rule from pos in direction d for player p: it
   * collects opponent discs until it meets a disc of p (Some of the collected
   * locations) or runs off the board or into an empty cell (None). In the
   * direction (0, 0) it stops at once: it keeps nothing from an opponent disc,
   * on which the engine's loop would never end.
   */
  function Walk(g: Board, pos: Loc, d: Offset, p: int): Option<seq<Loc>>
    decreases Reach(g, pos, d)
  {
    if !OnBoard(g, pos) || Cell(g, pos) == 0 then None
    else if Cell(g, pos) == p then Some([])
    else if d == Loc(0, 0) then None
    else
      match Walk(g, Step(pos, d), d, p)
      case None => None
      case Some(rest) => Some([pos] + rest)
  }

  /** The discs that a move of p at loc captures in direction d; nothing in the direction (0, 0). */
  function Ray(g: Board, loc: Loc, d: Offset, p: int): seq<Loc>
  {
    match Walk(g, Step(loc, d), d, p)
    case None => []
    case Some(s) => s
  }

  /** The nine offsets in the order of the engine's two nested loops (x outer, y inner). */
  const Offsets: seq<Offset> := [Loc(-1, -1), Loc(-1, 0), Loc(-1, 1), Loc(0, -1), Loc(0, 0),
                                 Loc(0, 1), Loc(1, -1), Loc(1, 0), Loc(1, 1)]

  /** The i-th offset of the loop order. */
  function DirAt(i: int): (d: Offset)
    requires 0 <= i < 9
    ensures d == Loc(0, 0) <==> i == 4
  {
    Offsets[i]
  }

  /** The captures of the first n directions, concatenated in loop order. */
  function FlippedThrough(g: Board, loc: Loc, p: int, n: int): seq<Loc>
    requires 0 <= n <= 9
  {
    if n == 0 then []
    else FlippedThrough(g, loc, p, n - 1) + Ray(g, loc, DirAt(n - 1), p)
  }

  /**
   * The cell at loc is off the board, empty or p's own: the condition under
   * which the engine's walk in the (0, 0) direction stops.
   */
  predicate SafeOrigin(g: Board, loc: Loc, p: int)
  {
    !OnBoard(g, loc) || Cell(g, loc) == 0 || Cell(g, loc) == p
  }

  /** Every disc that a move of p at loc captures, direction by direction. */
  function Flipped(g: Board, loc: Loc, p: int): seq<Loc>
  {
    FlippedThrough(g, loc, p, 9)
  }

  /** Every location of s is on the board and holds a disc of the opponent of p. */
  predicate OpponentDiscs(g: Board, s: seq<Loc>, p: int)
  {
    forall l :: l in s ==> OnBoard(g, l) && Cell(g, l) != 0 && Cell(g, l) != p
  }

  /** A walk that ends on a disc of p has passed only opponent discs. */
  lemma {:induction false} WalkCells(g: Board, pos: Loc, d: Loc, p: int)
    requires IsDir(d) && Walk(g, pos, d, p).Some?
    ensures OpponentDiscs(g, Walk(g, pos, d, p).value, p)
    decreases Reach(g, pos, d)
  {
    if Cell(g, pos) != p {
      WalkCells(g, Step(pos, d), d, p);
    }
  }

  lemma {:induction false} FlippedThroughCells(g: Board, loc: Loc, p: int, n: int)
    requires 0 <= n <= 9
    ensures OpponentDiscs(g, FlippedThrough(g, loc, p, n), p)
  {
    if n > 0 {
      FlippedThroughCells(g, loc, p, n - 1);
      var d := DirAt(n - 1);
      if d != Loc(0, 0) && Walk(g, Step(loc, d), d, p).Some? {
        WalkCells(g, Step(loc, d), d, p);
      }
    }
  }

  /** Every captured location is on the board and holds an opponent disc. */
  lemma FlippedCells(g: Board, loc: Loc, p: int)
    ensures OpponentDiscs(g, Flipped(g, loc, p), p)
  {
    FlippedThroughCells(g, loc, p, 9);
  }

  // ---------------------------------------------------------------------------
  // Playing a move, available moves, terminal positions, children

  /** The grid after p plays at loc: the disc is written first, then every captured disc. */
  function Play(g: Board, loc: Loc, p: int): (r: Grid)
    requires OnBoard(g, loc)
    ensures Rect(r) && |r| == |g| && Width(r) == Width(g)
  {
    var placed := SetCell(g, loc, p);
    FlippedCells(placed, loc, p);
    var f := Flipped(placed, loc, p);
    assert forall i :: 0 <= i < |f| ==> f[i] in f;
    SetAll(placed, f, p)
  }

  /** A legal move: an empty cell on the board whose capture list is not empty. */
  predicate IsMove(g: Board, l: Loc, p: int)
  {
    OnBoard(g, l) && Cell(g, l) == 0 && Flipped(g, l, p) != []
  }

  /** Lexicographic order on (y, x): the row-major scan order. */
  predicate Before(a: Loc, b: Loc)
  {
    a.y < b.y || (a.y == b.y && a.x < b.x)
  }

  /** The moves in row y among its first n columns, left to right. */
  function RowMoves(g: Board, p: int, y: int, n: int): (r: seq<Loc>)
    requires 0 <= y < |g| && 0 <= n <= Width(g)
    ensures forall l :: l in r <==> l.y == y && l.x < n && IsMove(g, l, p)
    ensures forall i, j :: 0 <= i < j < |r| ==> r[i].y == y && r[i].x < r[j].x
  {
    if n == 0 then []
    else
      var front := RowMoves(g, p, y, n - 1);
      var l := Loc(n - 1, y);
      assert IsMove(g, l, p) <==> Cell(g, l) == 0 && Flipped(g, l, p) != [];
      if Cell(g, l) == 0 && Flipped(g, l, p) != [] then front + [l] else front
  }

  /** The moves in the first m rows, in row-major order. */
  function MovesThrough(g: Board, p: int, m: int): (r: seq<Loc>)
    requires 0 <= m <= |g|
    ensures forall l :: l in r <==> l.y < m && IsMove(g, l, p)
    ensures forall i, j :: 0 <= i < j < |r| ==> Before(r[i], r[j])
  {
    if m == 0 then []
    else
      var front := MovesThrough(g, p, m - 1);
      var row := RowMoves(g, p, m - 1, Width(g));
      assert forall i :: 0 <= i < |row| ==> row[i] in row;
      assert forall i :: 0 <= i < |front| ==> front[i] in front;
      front + row
  }

  /** The available moves of p, in row-major order. */
  function Moves(g: Board, p: int): (r: seq<Loc>)
    ensures forall l :: l in r <==> IsMove(g, l, p)
    ensures forall i, j :: 0 <= i < j < |r| ==> Before(r[i], r[j])
  {
    MovesThrough(g, p, |g|)
  }

  /** No empty cell remains, or neither player has a move. */
  predicate IsTerminal(g: Board)
  {
    Count(g, 0) == 0 || (Moves(g, 1) == [] && Moves(g, 2) == [])
  }

  /** One grid per available move of q, in move order, with that move played. */
  function Children(g: Board, q: int): seq<Grid>
  {
    var moves := Moves(g, q);
    seq(|moves|, i requires 0 <= i < |moves| => Play(g, moves[i], q))
  }

  /** The cell of the start position at l for an even width w. */
  function StartCell(w: int, l: Loc): int
  {
    var m := w / 2 - 1;
    if l == Loc(m, m) || l == Loc(m + 1, m + 1) then 1
    else if l == Loc(m, m + 1) || l == Loc(m + 1, m) then 2
    else 0
  }

  /**
   * The start position of a board of even width w: all cells empty except
   * the four central ones, White on one diagonal and Black on the other.
   */
  function StartGrid(w: int): (g: Board)
    requires w >= 2 && w % 2 == 0
    ensures Rect(g) && |g| == w && Width(g) == w
    ensures forall l :: OnBoard(g, l) ==> Cell(g, l) == StartCell(w, l)
  {
    var m := w / 2 - 1;
    var empty := seq(w, _ => seq(w, _ => 0));
    var g1 := SetCell(empty, Loc(m, m), 1);
    var g2 := SetCell(g1, Loc(m + 1, m + 1), 1);
    var g3 := SetCell(g2, Loc(m, m + 1), 2);
    SetCell(g3, Loc(m + 1, m), 2)
  }
}
