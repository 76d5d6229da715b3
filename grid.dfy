/**
 * The board as the program stores it: a list of rows of cell values, indexed
 * board[y][x], where 0 is an empty cell, 1 a White disc and 2 a Black disc.
 */
module Grids {

  /** A board coordinate (x, y); it may lie off the board. */
  datatype Loc = Loc(x: int, y: int)

  type Grid = seq<seq<int>>

  predicate IsPlayer(p: int)
  {
    p == 1 || p == 2
  }

  /** The other player, as the lookup table {1: 2, 2: 1} gives it. */
  function Opponent(p: int): (q: int)
    requires IsPlayer(p)
    ensures IsPlayer(q) && q != p
  {
    if p == 1 then 2 else 1
  }

  /** A non-empty grid whose rows all have the length of the first row. */
  predicate Rect(g: Grid)
  {
    |g| > 0 && forall y :: 0 <= y < |g| ==> |g[y]| == |g[0]|
  }

  /** The grids the engine works on: at least one row, all rows as long as the first. */
  type Board = g: Grid | Rect(g) witness [[0]]

  /** Every cell holds 0, 1 or 2. */
  ghost predicate ValidCells(g: Board)
  {
    forall l :: OnBoard(g, l) ==> 0 <= Cell(g, l) <= 2
  }

  function Width(g: Board): nat
  {
    |g[0]|
  }

  /** The bounds test: the row bound is the number of rows, the column bound the length of row 0. */
  predicate OnBoard(g: Grid, l: Loc)
  {
    l.x >= 0 && l.y >= 0 && l.y + 1 <= |g| && l.x + 1 <= |g[0]|
  }

  function Cell(g: Board, l: Loc): int
    requires OnBoard(g, l)
  {
    g[l.y][l.x]
  }

  /** The grid after the single write board[l.y][l.x] = v. */
  function SetCell(g: Board, l: Loc, v: int): (r: Board)
    requires OnBoard(g, l)
    ensures |r| == |g| && Width(r) == Width(g)
    ensures Cell(r, l) == v
    ensures forall m :: OnBoard(g, m) && m != l ==> Cell(r, m) == Cell(g, m)
  {
    g[l.y := g[l.y][l.x := v]]
  }

  /** The grid after writing v to each location of s in turn. */
  function SetAll(g: Board, s: seq<Loc>, v: int): (r: Board)
    requires forall i :: 0 <= i < |s| ==> OnBoard(g, s[i])
    ensures |r| == |g| && Width(r) == Width(g)
    ensures forall m :: OnBoard(g, m) ==> Cell(r, m) == if m in s then v else Cell(g, m)
    decreases |s|
  {
    if s == [] then g
    else
      var front := s[..|s| - 1];
      assert forall m :: m in s <==> m in front || m == s[|s| - 1];
      SetCell(SetAll(g, front, v), s[|s| - 1], v)
  }

  /** Writing one more location of s extends the writes of its prefix by one write. */
  lemma SetAllStep(g: Board, s: seq<Loc>, i: int, v: int)
    requires 0 <= i < |s|
    requires forall k :: 0 <= k < |s| ==> OnBoard(g, s[k])
    ensures SetAll(g, s[..i + 1], v) == SetCell(SetAll(g, s[..i], v), s[i], v)
  {
    assert s[..i + 1][..i] == s[..i];
  }

  /** Number of cells of a row equal to v. */
  function RowCount(row: seq<int>, v: int): (n: nat)
    ensures n <= |row|
  {
    if row == [] then 0
    else RowCount(row[..|row| - 1], v) + (if row[|row| - 1] == v then 1 else 0)
  }

  /** Number of cells of the grid equal to v, counted row by row. */
  function Count(g: Grid, v: int): nat
  {
    if g == [] then 0
    else Count(g[..|g| - 1], v) + RowCount(g[|g| - 1], v)
  }

  /**
   * The classification used to break ties between moves: 3 for a corner, 2 for
   * an edge, 1 otherwise; a coordinate is extreme when it is 0 or width - 1.
   */
  function LocationType(l: Loc, width: int): (t: int)
    ensures 1 <= t <= 3
    ensures t == 3 <==> (l.x == 0 || l.x == width - 1) && (l.y == 0 || l.y == width - 1)
    ensures t == 2 <==> (l.x == 0 || l.x == width - 1) != (l.y == 0 || l.y == width - 1)
    ensures t == 1 <==> !(l.x == 0 || l.x == width - 1) && !(l.y == 0 || l.y == width - 1)
  {
    var corners := [0, width - 1];
    if l.x in corners && l.y in corners then 3
    else if l.x in corners || l.y in corners then 2
    else 1
  }

  // ---------------------------------------------------------------------------
  // Counting lemmas

  lemma {:induction false} RowCountUpdate(row: seq<int>, x: int, w: int, v: int)
    requires 0 <= x < |row|
    ensures RowCount(row[x := w], v)
            == RowCount(row, v) - (if row[x] == v then 1 else 0) + (if w == v then 1 else 0)
    decreases |row|
  {
    var n := |row|;
    var row' := row[x := w];
    if x < n - 1 {
      assert row'[..n - 1] == row[..n - 1][x := w];
      RowCountUpdate(row[..n - 1], x, w, v);
    } else {
      assert row'[..n - 1] == row[..n - 1];
    }
  }

  lemma {:induction false} CountRowUpdate(g: Grid, y: int, row: seq<int>, v: int)
    requires 0 <= y < |g|
    ensures Count(g[y := row], v) == Count(g, v) - RowCount(g[y], v) + RowCount(row, v)
    decreases |g|
  {
    var n := |g|;
    var g' := g[y := row];
    if y < n - 1 {
      assert g'[..n - 1] == g[..n - 1][y := row];
      CountRowUpdate(g[..n - 1], y, row, v);
    } else {
      assert g'[..n - 1] == g[..n - 1];
    }
  }

  /** A single write changes the count of v by what left and what entered the cell. */
  lemma CountSetCell(g: Board, l: Loc, w: int, v: int)
    requires OnBoard(g, l)
    ensures Count(SetCell(g, l, w), v)
            == Count(g, v) - (if Cell(g, l) == v then 1 else 0) + (if w == v then 1 else 0)
  {
    RowCountUpdate(g[l.y], l.x, w, v);
    CountRowUpdate(g, l.y, g[l.y][l.x := w], v);
  }

  /** Writing v to distinct cells that did not hold v raises the count of v by their number. */
  lemma {:induction false} CountSetAll(g: Board, s: seq<Loc>, v: int)
    requires forall i :: 0 <= i < |s| ==> OnBoard(g, s[i]) && Cell(g, s[i]) != v
    requires forall i, j :: 0 <= i < j < |s| ==> s[i] != s[j]
    ensures Count(SetAll(g, s, v), v) == Count(g, v) + |s|
    decreases |s|
  {
    if s != [] {
      var front := s[..|s| - 1];
      var last := s[|s| - 1];
      CountSetAll(g, front, v);
      assert last !in front by {
        forall i | 0 <= i < |front| ensures front[i] != last {
          assert s[i] == front[i];
        }
      }
      CountSetCell(SetAll(g, front, v), last, v, v);
    }
  }

  /** Writing v to cells that did not hold w leaves the count of w unchanged (w != v). */
  lemma {:induction false} CountSetAllOther(g: Board, s: seq<Loc>, v: int, w: int)
    requires v != w
    requires forall i :: 0 <= i < |s| ==> OnBoard(g, s[i]) && Cell(g, s[i]) != w
    ensures Count(SetAll(g, s, v), w) == Count(g, w)
    decreases |s|
  {
    if s != [] {
      var front := s[..|s| - 1];
      CountSetAllOther(g, front, v, w);
      CountSetCell(SetAll(g, front, v), s[|s| - 1], v, w);
    }
  }

  lemma {:induction false} RowCountPositive(row: seq<int>, x: int, v: int)
    requires 0 <= x < |row| && row[x] == v
    ensures RowCount(row, v) > 0
    decreases |row|
  {
    if x < |row| - 1 {
      RowCountPositive(row[..|row| - 1], x, v);
    }
  }

  /** A cell holding v makes the count of v positive. */
  lemma {:induction false} CountPositive(g: Board, l: Loc, v: int)
    requires OnBoard(g, l) && Cell(g, l) == v
    ensures Count(g, v) > 0
    decreases |g|
  {
    var n := |g|;
    if l.y < n - 1 {
      CountPositive(g[..n - 1], l, v);
    } else {
      RowCountPositive(g[n - 1], l.x, v);
    }
  }

  /** A grid of n rows of length w, all cells 0, counts n * w zeros. */
  lemma {:induction false} CountUniform(n: nat, w: nat)
    ensures Count(seq(n, _ => seq(w, _ => 0)), 0) == n * w
  {
    var row := seq(w, _ => 0);
    assert RowCount(row, 0) == w by { RowCountUniform(w); }
    if n > 0 {
      var g := seq(n, _ => row);
      assert g[..n - 1] == seq(n - 1, _ => row);
      CountUniform(n - 1, w);
    }
  }

  lemma {:induction false} RowCountUniform(w: nat)
    ensures RowCount(seq(w, _ => 0), 0) == w
  {
    if w > 0 {
      assert seq(w, _ => 0)[..w - 1] == seq(w - 1, _ => 0);
      RowCountUniform(w - 1);
    }
  }
}
