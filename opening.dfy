/**
 * The opening position: Black, who moves first, has exactly four moves, one
 * next to each side of the central square, whatever the (even) board width.
 */
module Opening {
  import opened Grids
  import opened Rules
  import opened RuleFacts

  /** Black's four opening moves on a board of width w, in row-major order. */
  function OpeningMoves(w: int): (r: seq<Loc>)
    ensures |r| == 4 && forall i, j :: 0 <= i < j < |r| ==> Before(r[i], r[j])
  {
    var m := w / 2 - 1;
    [Loc(m, m - 1), Loc(m - 1, m), Loc(m + 2, m + 1), Loc(m + 1, m + 2)]
  }

  /** Two sequences in strictly increasing row-major order with the same elements are equal. */
  lemma {:induction false} SortedSame(a: seq<Loc>, b: seq<Loc>)
    requires forall i, j :: 0 <= i < j < |a| ==> Before(a[i], a[j])
    requires forall i, j :: 0 <= i < j < |b| ==> Before(b[i], b[j])
    requires forall l :: l in a <==> l in b
    ensures a == b
    decreases |a|
  {
    NonEmptyHasMember(b, a);
    if a != [] {
      assert a[0] in b;
      assert b[0] in a;
      assert a[0] == b[0] by {
        var i :| 0 <= i < |a| && a[i] == b[0];
        var j :| 0 <= j < |b| && b[j] == a[0];
      }
      forall l
        ensures l in a[1..] <==> l in b[1..]
      {
        if l in a[1..] {
          var i :| 1 <= i < |a| && a[i] == l;
          assert Before(a[0], a[i]);
          assert l in b && l != b[0];
          var j :| 0 <= j < |b| && b[j] == l;
          assert b[1..][j - 1] == l;
        }
        if l in b[1..] {
          var j :| 1 <= j < |b| && b[j] == l;
          assert Before(b[0], b[j]);
          assert l in a && l != a[0];
          var i :| 0 <= i < |a| && a[i] == l;
          assert a[1..][i - 1] == l;
        }
      }
      SortedSame(a[1..], b[1..]);
      assert a == [a[0]] + a[1..] && b == [b[0]] + b[1..];
    }
  }

  lemma NonEmptyHasMember(a: seq<Loc>, b: seq<Loc>)
    requires forall l :: l in a ==> l in b
    ensures a != [] ==> b != []
  {
    if a != [] {
      assert a[0] in b;
    }
  }

  /** Each of the four opening moves captures one White disc: it is a move. */
  lemma OpeningMovesAreMoves(w: int, i: int)
    requires w >= 4 && w % 2 == 0 && 0 <= i < 4
    ensures IsMove(StartGrid(w), OpeningMoves(w)[i], 2)
  {
    var g := StartGrid(w);
    var m := w / 2 - 1;
    var loc := OpeningMoves(w)[i];
    var d := [Loc(0, 1), Loc(1, 0), Loc(-1, 0), Loc(0, -1)][i];
    OpeningMoveEmpty(w, i);
    assert Along(loc, d, 1) == Loc(m, m) || Along(loc, d, 1) == Loc(m + 1, m + 1);
    assert Along(loc, d, 2) == Loc(m + 1, m) || Along(loc, d, 2) == Loc(m, m + 1);
    ShortBracket(g, loc, d, 2);
    SandwichedIsFlipped(g, loc, 2, Along(loc, d, 1));
    assert Flipped(g, loc, 2) != [];
  }

  /** The opening moves are empty cells of the board. */
  lemma OpeningMoveEmpty(w: int, i: int)
    requires w >= 4 && w % 2 == 0 && 0 <= i < 4
    ensures OnBoard(StartGrid(w), OpeningMoves(w)[i]) && Cell(StartGrid(w), OpeningMoves(w)[i]) == 0
  {
  }

  /** An opponent disc next to loc followed by a disc of p is a bracket two steps long. */
  lemma ShortBracket(g: Board, loc: Loc, d: Loc, p: int)
    requires p != 0
    requires OnBoard(g, Along(loc, d, 1)) && Cell(g, Along(loc, d, 1)) != 0 && Cell(g, Along(loc, d, 1)) != p
    requires OnBoard(g, Along(loc, d, 2)) && Cell(g, Along(loc, d, 2)) == p
    ensures Bracketed(g, loc, d, p, 2)
  {
  }

  /** One, two and three steps from loc in a compass direction. */
  lemma AlongSteps(loc: Loc, d: Loc)
    requires IsDir(d)
    ensures Along(loc, d, 1) == Loc(loc.x + d.x, loc.y + d.y)
    ensures Along(loc, d, 2) == Loc(loc.x + 2 * d.x, loc.y + 2 * d.y)
    ensures Along(loc, d, 3) == Loc(loc.x + 3 * d.x, loc.y + 3 * d.y)
  {
  }

  /** A move of Black in the opening position is one of the four opening moves. */
  lemma OnlyOpeningMoves(w: int, loc: Loc)
    requires w >= 4 && w % 2 == 0 && IsMove(StartGrid(w), loc, 2)
    ensures loc in OpeningMoves(w)
  {
    var g := StartGrid(w);
    var l := Flipped(g, loc, 2)[0];
    FlippedIsSandwiched(g, loc, 2, l);
    var d, k, j :| IsDir(d) && Bracketed(g, loc, d, 2, k) && 1 <= j < k && l == Along(loc, d, j);
    OpeningBracketsAreShort(w, loc, d, k);
    BracketEnds(w, loc, d);
    FromBracket(w, loc, d);
  }

  /** A one-disc bracket of the opening position runs from a White disc to a Black disc. */
  lemma BracketEnds(w: int, loc: Loc, d: Loc)
    requires w >= 4 && w % 2 == 0 && IsDir(d) && Bracketed(StartGrid(w), loc, d, 2, 2)
    ensures var m := w / 2 - 1;
            && (Along(loc, d, 1) == Loc(m, m) || Along(loc, d, 1) == Loc(m + 1, m + 1))
            && (Along(loc, d, 2) == Loc(m + 1, m) || Along(loc, d, 2) == Loc(m, m + 1))
  {
    var g := StartGrid(w);
    assert OnBoard(g, Along(loc, d, 1)) && Cell(g, Along(loc, d, 1)) != 0 && Cell(g, Along(loc, d, 1)) != 2;
  }

  /** The cell before a White disc followed by a Black disc is one of the opening moves. */
  lemma FromBracket(w: int, loc: Loc, d: Loc)
    requires IsDir(d)
    requires var m := w / 2 - 1;
             && (Along(loc, d, 1) == Loc(m, m) || Along(loc, d, 1) == Loc(m + 1, m + 1))
             && (Along(loc, d, 2) == Loc(m + 1, m) || Along(loc, d, 2) == Loc(m, m + 1))
    ensures loc in OpeningMoves(w)
  {
    AlongSteps(loc, d);
  }

  /**
   * A line of White discs that ends at a Black disc in the opening position
   * is a single disc long: two White discs in a row are followed by an empty
   * cell or the edge.
   */
  lemma OpeningBracketsAreShort(w: int, loc: Loc, d: Loc, k: int)
    requires w >= 4 && w % 2 == 0 && IsDir(d) && Bracketed(StartGrid(w), loc, d, 2, k)
    ensures k == 2
  {
    AlongSteps(loc, d);
  }

  /**
   * In the opening position Black's available moves are exactly the four
   * opening moves, in row-major order; on a board of width 8 they are
   * (3, 2), (2, 3), (5, 4) and (4, 5).
   */
  lemma OpeningPosition(w: int)
    requires w >= 4 && w % 2 == 0
    ensures Moves(StartGrid(w), 2) == OpeningMoves(w)
    ensures w == 8 ==> Moves(StartGrid(w), 2) == [Loc(3, 2), Loc(2, 3), Loc(5, 4), Loc(4, 5)]
  {
    var g := StartGrid(w);
    var ms := OpeningMoves(w);
    forall l
      ensures l in Moves(g, 2) <==> l in ms
    {
      if l in ms {
        var i :| 0 <= i < 4 && ms[i] == l;
        OpeningMovesAreMoves(w, i);
      }
      assert l in Moves(g, 2) <==> IsMove(g, l, 2);
      if IsMove(g, l, 2) {
        OnlyOpeningMoves(w, l);
      }
    }
    SortedSame(Moves(g, 2), ms);
  }
}
