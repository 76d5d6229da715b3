/**
 * The capture loops of the engine and of the application, taken apart: the
 * inner loop walks one direction, the middle loop takes the three directions
 * (x, -1), (x, 0), (x, 1) of one column and the outer loop the three columns.
 * These functions and lemmas connect each loop to the direction-by-direction
 * definition of the captures.
 */
module Captures {
  import opened Outcomes
  import opened Grids
  import opened Rules

  /** What is left of a direction's capture once the walk from the current cell is known. */
  function Finish(flip: seq<Loc>, w: Option<seq<Loc>>): seq<Loc>
  {
    match w
    case None => []
    case Some(rest) => flip + rest
  }

  /** The captures of directions (x, -1), (x, 0), (x, 1), the first n of them. */
  function ColumnRays(g: Board, loc: Loc, p: int, x: int, n: int): seq<Loc>
    requires -1 <= x <= 1 && 0 <= n <= 3
  {
    if n == 0 then [] else ColumnRays(g, loc, p, x, n - 1) + Ray(g, loc, Loc(x, n - 2), p)
  }

  /** The captures of the first n columns of directions, x = -1, 0, 1 in turn. */
  function FlippedColumns(g: Board, loc: Loc, p: int, n: int): seq<Loc>
    requires 0 <= n <= 3
  {
    if n == 0 then [] else FlippedColumns(g, loc, p, n - 1) + ColumnRays(g, loc, p, n - 2, 3)
  }

  /** Column by column is the same capture list as direction by direction. */
  lemma FlippedByColumns(g: Board, loc: Loc, p: int)
    ensures FlippedColumns(g, loc, p, 3) == Flipped(g, loc, p)
  {
    ColumnStep(g, loc, p, 0, -1);
    ColumnStep(g, loc, p, 3, 0);
    ColumnStep(g, loc, p, 6, 1);
  }

  /** Directions 3(x + 1), 3(x + 1) + 1 and 3(x + 1) + 2 of the loop order are the column x. */
  lemma ColumnOffsets(x: int)
    requires -1 <= x <= 1
    ensures DirAt(3 * (x + 1)) == Loc(x, -1)
    ensures DirAt(3 * (x + 1) + 1) == Loc(x, 0)
    ensures DirAt(3 * (x + 1) + 2) == Loc(x, 1)
  {
    if x == -1 {
    } else if x == 0 {
    } else {
    }
  }

  /** The column x of captures is the next three rays of the loop order. */
  lemma ColumnStep(g: Board, loc: Loc, p: int, n: int, x: int)
    requires -1 <= x <= 1 && n == 3 * (x + 1)
    requires FlippedThrough(g, loc, p, n) == FlippedColumns(g, loc, p, x + 1)
    ensures FlippedThrough(g, loc, p, n + 3) == FlippedColumns(g, loc, p, x + 2)
  {
    ColumnOffsets(x);
    var front := FlippedColumns(g, loc, p, x + 1);
    var r0, r1, r2 := Ray(g, loc, Loc(x, -1), p), Ray(g, loc, Loc(x, 0), p), Ray(g, loc, Loc(x, 1), p);
    ThreeRays(g, loc, p, x);
    NextRay(g, loc, p, n, Loc(x, -1));
    NextRay(g, loc, p, n + 1, Loc(x, 0));
    NextRay(g, loc, p, n + 2, Loc(x, 1));
    ConcatAssociates(front, r0, r1, r2);
  }

  lemma ConcatAssociates<T>(a: seq<T>, b: seq<T>, c: seq<T>, d: seq<T>)
    ensures a + b + c + d == a + (b + c + d)
  {
  }

  lemma ThreeRays(g: Board, loc: Loc, p: int, x: int)
    requires -1 <= x <= 1
    ensures ColumnRays(g, loc, p, x, 3)
            == Ray(g, loc, Loc(x, -1), p) + Ray(g, loc, Loc(x, 0), p) + Ray(g, loc, Loc(x, 1), p)
  {
    assert ColumnRays(g, loc, p, x, 1) == Ray(g, loc, Loc(x, -1), p);
  }

  lemma NextRay(g: Board, loc: Loc, p: int, n: int, d: Loc)
    requires 0 <= n < 9 && DirAt(n) == d
    ensures FlippedThrough(g, loc, p, n + 1) == FlippedThrough(g, loc, p, n) + Ray(g, loc, d, p)
  {
  }

  /** A direction's capture is the walk from the next cell, with nothing collected yet. */
  lemma RayStart(g: Board, loc: Loc, d: Offset, p: int)
    ensures Ray(g, loc, d, p) == Finish([], Walk(g, Step(loc, d), d, p))
  {
    match Walk(g, Step(loc, d), d, p)
    case None =>
    case Some(rest) =>
      assert [] + rest == rest;
  }

  /** Passing an opponent disc moves it from the walk onto the collected list, one step nearer the edge. */
  lemma FinishStep(g: Board, flip: seq<Loc>, pos: Loc, d: Dir, p: int)
    requires OnBoard(g, pos) && Cell(g, pos) != 0 && Cell(g, pos) != p
    ensures Finish(flip, Walk(g, pos, d, p)) == Finish(flip + [pos], Walk(g, Step(pos, d), d, p))
    ensures Reach(g, Step(pos, d), d) < Reach(g, pos, d)
  {
    match Walk(g, Step(pos, d), d, p)
    case None =>
    case Some(rest) =>
      assert flip + ([pos] + rest) == flip + [pos] + rest;
  }

  /** Where the walk stops: nothing is kept off the board or at an empty cell, everything at a disc of p. */
  lemma FinishStop(g: Board, flip: seq<Loc>, pos: Loc, d: Offset, p: int)
    ensures !OnBoard(g, pos) || Cell(g, pos) == 0 ==> Finish(flip, Walk(g, pos, d, p)) == []
    ensures OnBoard(g, pos) && Cell(g, pos) == p && p != 0 ==> Finish(flip, Walk(g, pos, d, p)) == flip
  {
  }
}
