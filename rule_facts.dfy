/**
 * Properties of the rules: the capture rule agrees with an independent
 * "sandwich" definition, captures are distinct and never include the played
 * cell, a move changes exactly the played and captured cells, and the disc
 * counts move accordingly.
 */
module RuleFacts {
  import opened Outcomes
  import opened Grids
  import opened Rules

  // ---------------------------------------------------------------------------
  // The sandwich rule stated without walks

  function Scale(k: int, s: int): int
  {
    if s == 1 then k else if s == -1 then -k else 0
  }

  /** The location k steps from loc in direction d. */
  function Along(loc: Loc, d: Loc, k: int): Loc
  {
    Loc(loc.x + Scale(k, d.x), loc.y + Scale(k, d.y))
  }

  /**
   * In direction d from loc, the cells 1 .. k-1 steps away hold opponent discs
   * (on the board, neither empty nor p's) and the cell k steps away holds a disc of p.
   */
  ghost predicate Bracketed(g: Board, loc: Loc, d: Loc, p: int, k: int)
  {
    && k >= 2 && p != 0
    && OnBoard(g, Along(loc, d, k)) && Cell(g, Along(loc, d, k)) == p
    && forall i :: 1 <= i < k ==>
         OnBoard(g, Along(loc, d, i)) && Cell(g, Along(loc, d, i)) != 0 && Cell(g, Along(loc, d, i)) != p
  }

  /** The n cells next to loc in direction d, nearest first. */
  function Segment(loc: Loc, d: Loc, n: nat): seq<Loc>
  {
    seq(n, i => Along(loc, d, i + 1))
  }

  /** l lies strictly between loc and a disc of p, on a line of opponent discs. */
  ghost predicate Sandwiched(g: Board, loc: Loc, p: int, l: Loc)
  {
    exists d, k, j :: IsDir(d) && Bracketed(g, loc, d, p, k) && 1 <= j < k && l == Along(loc, d, j)
  }

  predicate Distinct(s: seq<Loc>)
  {
    forall i, j :: 0 <= i < j < |s| ==> s[i] != s[j]
  }

  lemma {:induction false} WalkOverBracket(g: Board, loc: Loc, d: Loc, p: int, j: int, k: int)
    requires IsDir(d) && 1 <= j <= k && p != 0
    requires forall i :: j <= i < k ==>
               OnBoard(g, Along(loc, d, i)) && Cell(g, Along(loc, d, i)) != 0 && Cell(g, Along(loc, d, i)) != p
    requires OnBoard(g, Along(loc, d, k)) && Cell(g, Along(loc, d, k)) == p
    ensures Walk(g, Along(loc, d, j), d, p) == Some(seq(k - j, i => Along(loc, d, j + i)))
    decreases k - j
  {
    var pos := Along(loc, d, j);
    if j < k {
      assert Step(pos, d) == Along(loc, d, j + 1);
      WalkOverBracket(g, loc, d, p, j + 1, k);
      var rest := seq(k - j - 1, i => Along(loc, d, j + 1 + i));
      assert Walk(g, Step(pos, d), d, p) == Some(rest);
      assert Walk(g, pos, d, p) == Some([pos] + rest);
      LineShapeExtends(loc, d, j, rest);
    } else {
      assert Walk(g, pos, d, p) == Some([]);
      assert seq(k - j, i => Along(loc, d, j + i)) == [];
    }
  }

  /**
   * s is the line of cells from j steps away on, each holding an opponent
   * disc, and the cell right after it holds a disc of p.
   */
  ghost predicate LineToBracket(g: Board, loc: Loc, d: Loc, p: int, j: int, s: seq<Loc>)
  {
    && s == seq(|s|, i => Along(loc, d, j + i))
    && (forall i :: j <= i < j + |s| ==>
          OnBoard(g, Along(loc, d, i)) && Cell(g, Along(loc, d, i)) != 0 && Cell(g, Along(loc, d, i)) != p)
    && OnBoard(g, Along(loc, d, j + |s|)) && Cell(g, Along(loc, d, j + |s|)) == p && p != 0
  }

  lemma {:induction false} WalkFindsBracket(g: Board, loc: Loc, d: Loc, p: int, j: int)
    requires IsDir(d) && j >= 1
    requires Walk(g, Along(loc, d, j), d, p).Some?
    ensures LineToBracket(g, loc, d, p, j, Walk(g, Along(loc, d, j), d, p).value)
    decreases Reach(g, Along(loc, d, j), d)
  {
    var pos := Along(loc, d, j);
    if Cell(g, pos) != p {
      assert Step(pos, d) == Along(loc, d, j + 1);
      WalkFindsBracket(g, loc, d, p, j + 1);
      LineExtends(g, loc, d, p, j);
    }
  }

  /** An opponent disc in front of a line to a bracket extends the line by one cell. */
  lemma LineExtends(g: Board, loc: Loc, d: Loc, p: int, j: int)
    requires IsDir(d) && j >= 1
    requires OnBoard(g, Along(loc, d, j)) && Cell(g, Along(loc, d, j)) != 0 && Cell(g, Along(loc, d, j)) != p
    requires Walk(g, Along(loc, d, j + 1), d, p).Some?
    requires LineToBracket(g, loc, d, p, j + 1, Walk(g, Along(loc, d, j + 1), d, p).value)
    ensures Walk(g, Along(loc, d, j), d, p).Some?
    ensures LineToBracket(g, loc, d, p, j, Walk(g, Along(loc, d, j), d, p).value)
  {
    var pos := Along(loc, d, j);
    assert Step(pos, d) == Along(loc, d, j + 1);
    var rest := Walk(g, Along(loc, d, j + 1), d, p).value;
    WalkPasses(g, pos, d, p);
    BracketLineExtends(g, loc, d, p, j, rest);
  }

  /** An opponent disc in front of a walk that reaches a bracket joins the walk. */
  lemma WalkPasses(g: Board, pos: Loc, d: Loc, p: int)
    requires IsDir(d) && OnBoard(g, pos) && Cell(g, pos) != 0 && Cell(g, pos) != p
    requires Walk(g, Step(pos, d), d, p).Some?
    ensures Walk(g, pos, d, p) == Some([pos] + Walk(g, Step(pos, d), d, p).value)
  {
  }

  /** The line-to-bracket shape, extended backwards by one opponent disc. */
  lemma BracketLineExtends(g: Board, loc: Loc, d: Loc, p: int, j: int, rest: seq<Loc>)
    requires OnBoard(g, Along(loc, d, j)) && Cell(g, Along(loc, d, j)) != 0 && Cell(g, Along(loc, d, j)) != p
    requires LineToBracket(g, loc, d, p, j + 1, rest)
    ensures LineToBracket(g, loc, d, p, j, [Along(loc, d, j)] + rest)
  {
    LineShapeExtends(loc, d, j, rest);
    assert j + |[Along(loc, d, j)] + rest| == j + 1 + |rest|;
  }

  /** Putting the cell j steps away in front of the line from j + 1 steps gives the line from j steps. */
  lemma LineShapeExtends(loc: Loc, d: Loc, j: int, rest: seq<Loc>)
    requires rest == seq(|rest|, i => Along(loc, d, j + 1 + i))
    ensures [Along(loc, d, j)] + rest == seq(|rest| + 1, i => Along(loc, d, j + i))
  {
    var s := [Along(loc, d, j)] + rest;
    forall i | 0 <= i < |s| ensures s[i] == Along(loc, d, j + i) {
      if i > 0 {
        assert s[i] == rest[i - 1];
      }
    }
  }

  /** A bracket k steps away makes the direction capture exactly the k - 1 cells before it. */
  lemma RayOfBracket(g: Board, loc: Loc, d: Loc, p: int, k: int)
    requires IsDir(d) && Bracketed(g, loc, d, p, k)
    ensures Ray(g, loc, d, p) == Segment(loc, d, k - 1)
  {
    assert Step(loc, d) == Along(loc, d, 1);
    WalkOverBracket(g, loc, d, p, 1, k);
    assert seq(k - 1, i => Along(loc, d, 1 + i)) == Segment(loc, d, k - 1);
  }

  /** A direction that captures anything is closed by a disc of p after a line of opponent discs. */
  lemma RayIsBracketed(g: Board, loc: Loc, d: Loc, p: int)
    requires IsDir(d) && Ray(g, loc, d, p) != []
    ensures Bracketed(g, loc, d, p, |Ray(g, loc, d, p)| + 1)
    ensures Ray(g, loc, d, p) == Segment(loc, d, |Ray(g, loc, d, p)|)
  {
    assert Step(loc, d) == Along(loc, d, 1);
    WalkFindsBracket(g, loc, d, p, 1);
    var s := Ray(g, loc, d, p);
    assert LineToBracket(g, loc, d, p, 1, s);
    assert s == Segment(loc, d, |s|);
  }

  /** The index of a direction in the loop order, as DirAt numbers them. */
  function DirIndex(d: Loc): int
  {
    (d.x + 1) * 3 + (d.y + 1)
  }

  lemma {:induction false} RayInFlippedThrough(g: Board, loc: Loc, p: int, i: int, n: int)
    requires 0 <= i < n <= 9
    ensures forall l :: l in Ray(g, loc, DirAt(i), p) ==> l in FlippedThrough(g, loc, p, n)
  {
    var front := FlippedThrough(g, loc, p, n - 1);
    var last := Ray(g, loc, DirAt(n - 1), p);
    assert FlippedThrough(g, loc, p, n) == front + last;
    if i < n - 1 {
      RayInFlippedThrough(g, loc, p, i, n - 1);
    }
  }

  lemma {:induction false} FlippedThroughFromRays(g: Board, loc: Loc, p: int, n: int, l: Loc)
    requires 0 <= n <= 9 && l in FlippedThrough(g, loc, p, n)
    ensures exists i :: 0 <= i < n && i != 4 && l in Ray(g, loc, DirAt(i), p)
  {
    if l !in Ray(g, loc, DirAt(n - 1), p) {
      FlippedThroughFromRays(g, loc, p, n - 1, l);
    } else {
      assert n - 1 != 4;
    }
  }

  /**
   * The capture rule is the sandwich rule: a location is captured by p at loc
   * exactly when it lies on a line of opponent discs from loc closed by a disc of p.
   */
  lemma FlippedIffSandwiched(g: Board, loc: Loc, p: int, l: Loc)
    ensures l in Flipped(g, loc, p) <==> Sandwiched(g, loc, p, l)
  {
    if l in Flipped(g, loc, p) {
      FlippedIsSandwiched(g, loc, p, l);
    }
    if Sandwiched(g, loc, p, l) {
      SandwichedIsFlipped(g, loc, p, l);
    }
  }

  lemma FlippedIsSandwiched(g: Board, loc: Loc, p: int, l: Loc)
    requires l in Flipped(g, loc, p)
    ensures Sandwiched(g, loc, p, l)
  {
    FlippedThroughFromRays(g, loc, p, 9, l);
    var i :| 0 <= i < 9 && i != 4 && l in Ray(g, loc, DirAt(i), p);
    RayIsSandwiched(g, loc, DirAt(i), p, l);
  }

  lemma RayIsSandwiched(g: Board, loc: Loc, d: Loc, p: int, l: Loc)
    requires IsDir(d) && l in Ray(g, loc, d, p)
    ensures Sandwiched(g, loc, p, l)
  {
    var s := Ray(g, loc, d, p);
    RayIsBracketed(g, loc, d, p);
    var t :| 0 <= t < |s| && s[t] == l;
    assert l == Along(loc, d, t + 1);
  }

  lemma SandwichedIsFlipped(g: Board, loc: Loc, p: int, l: Loc)
    requires Sandwiched(g, loc, p, l)
    ensures l in Flipped(g, loc, p)
  {
    {
      var d, k, j :| IsDir(d) && Bracketed(g, loc, d, p, k) && 1 <= j < k && l == Along(loc, d, j);
      RayOfBracket(g, loc, d, p, k);
      assert l == Segment(loc, d, k - 1)[j - 1];
      assert DirAt(DirIndex(d)) == d;
      RayInFlippedThrough(g, loc, p, DirIndex(d), 9);
    }
  }

  // ---------------------------------------------------------------------------
  // Captures are distinct and never the played cell

  function Sign(z: int): int
  {
    if z > 0 then 1 else if z < 0 then -1 else 0
  }

  /** l is reached from pos by zero or more steps in direction d (on each axis separately). */
  predicate AtOrAhead(pos: Loc, l: Loc, d: Loc)
  {
    && (d.x == 1 ==> l.x >= pos.x) && (d.x == -1 ==> l.x <= pos.x) && (d.x == 0 ==> l.x == pos.x)
    && (d.y == 1 ==> l.y >= pos.y) && (d.y == -1 ==> l.y <= pos.y) && (d.y == 0 ==> l.y == pos.y)
  }

  /** The direction index of the line from loc to l. */
  function HeadIndex(loc: Loc, l: Loc): int
  {
    (Sign(l.x - loc.x) + 1) * 3 + (Sign(l.y - loc.y) + 1)
  }

  lemma {:induction false} WalkAhead(g: Board, pos: Loc, d: Loc, p: int)
    requires IsDir(d) && Walk(g, pos, d, p).Some?
    ensures Distinct(Walk(g, pos, d, p).value)
    ensures forall l :: l in Walk(g, pos, d, p).value ==> AtOrAhead(pos, l, d)
    decreases Reach(g, pos, d)
  {
    if Cell(g, pos) != p {
      WalkAhead(g, Step(pos, d), d, p);
      var rest := Walk(g, Step(pos, d), d, p).value;
      var s := [pos] + rest;
      assert Walk(g, pos, d, p).value == s;
      forall i, j | 0 <= i < j < |s| ensures s[i] != s[j] {
        assert s[j] == rest[j - 1] && s[j] in rest;
        if i > 0 {
          assert s[i] == rest[i - 1];
        }
      }
    }
  }

  lemma RayHeading(g: Board, loc: Loc, p: int, i: int)
    requires 0 <= i < 9
    ensures Distinct(Ray(g, loc, DirAt(i), p))
    ensures forall l :: l in Ray(g, loc, DirAt(i), p) ==> HeadIndex(loc, l) == i && i != 4
  {
    var d := DirAt(i);
    if d != Loc(0, 0) && Walk(g, Step(loc, d), d, p).Some? {
      WalkAhead(g, Step(loc, d), d, p);
    }
  }

  lemma {:induction false} FlippedThroughDistinct(g: Board, loc: Loc, p: int, n: int)
    requires 0 <= n <= 9
    ensures Distinct(FlippedThrough(g, loc, p, n))
    ensures forall l :: l in FlippedThrough(g, loc, p, n) ==> HeadIndex(loc, l) < n && HeadIndex(loc, l) != 4
  {
    if n > 0 {
      FlippedThroughDistinct(g, loc, p, n - 1);
      RayHeading(g, loc, p, n - 1);
      var front := FlippedThrough(g, loc, p, n - 1);
      var ray := Ray(g, loc, DirAt(n - 1), p);
      var all := front + ray;
      forall i, j | 0 <= i < j < |all| ensures all[i] != all[j] {
        if j < |front| {
        } else if i >= |front| {
          assert all[i] == ray[i - |front|] && all[j] == ray[j - |front|];
        } else {
          assert all[i] in front && all[j] in ray;
        }
      }
    }
  }

  /** The capture list has no repeated location and never contains the played cell. */
  lemma FlippedDistinct(g: Board, loc: Loc, p: int)
    ensures Distinct(Flipped(g, loc, p))
    ensures loc !in Flipped(g, loc, p)
  {
    FlippedThroughDistinct(g, loc, p, 9);
    assert HeadIndex(loc, loc) == 4;
  }

  // ---------------------------------------------------------------------------
  // Writing the played cell first does not change what is captured

  lemma {:induction false} WalkIgnoresOrigin(g: Board, loc: Loc, v: int, pos: Loc, d: Loc, p: int)
    requires OnBoard(g, loc) && IsDir(d) && AtOrAhead(Step(loc, d), pos, d)
    ensures Walk(SetCell(g, loc, v), pos, d, p) == Walk(g, pos, d, p)
    decreases Reach(g, pos, d)
  {
    assert pos != loc;
    if OnBoard(g, pos) && Cell(g, pos) != 0 && Cell(g, pos) != p {
      WalkIgnoresOrigin(g, loc, v, Step(pos, d), d, p);
    }
  }

  lemma {:induction false} FlippedThroughIgnoresOrigin(g: Board, loc: Loc, v: int, p: int, n: int)
    requires OnBoard(g, loc) && 0 <= n <= 9
    ensures FlippedThrough(SetCell(g, loc, v), loc, p, n) == FlippedThrough(g, loc, p, n)
  {
    if n > 0 {
      FlippedThroughIgnoresOrigin(g, loc, v, p, n - 1);
      OriginStep(g, loc, v, p, n);
    }
  }

  lemma OriginStep(g: Board, loc: Loc, v: int, p: int, n: int)
    requires OnBoard(g, loc) && 0 < n <= 9
    requires FlippedThrough(SetCell(g, loc, v), loc, p, n - 1) == FlippedThrough(g, loc, p, n - 1)
    ensures FlippedThrough(SetCell(g, loc, v), loc, p, n) == FlippedThrough(g, loc, p, n)
  {
    RayIgnoresOrigin(g, loc, v, DirAt(n - 1), p);
  }

  lemma RayIgnoresOrigin(g: Board, loc: Loc, v: int, d: Loc, p: int)
    requires OnBoard(g, loc) && -1 <= d.x <= 1 && -1 <= d.y <= 1
    ensures Ray(SetCell(g, loc, v), loc, d, p) == Ray(g, loc, d, p)
  {
    if d != Loc(0, 0) {
      WalkIgnoresOrigin(g, loc, v, Step(loc, d), d, p);
    }
  }

  /** What a move at loc captures does not depend on what loc itself holds. */
  lemma FlippedIgnoresOrigin(g: Board, loc: Loc, v: int, p: int)
    requires OnBoard(g, loc)
    ensures Flipped(SetCell(g, loc, v), loc, p) == Flipped(g, loc, p)
  {
    FlippedThroughIgnoresOrigin(g, loc, v, p, 9);
  }

  // ---------------------------------------------------------------------------
  // The effect of a move

  /**
   * Playing p at loc makes loc and every captured cell p's and leaves every
   * other cell as it was.
   */
  lemma PlayEffect(g: Board, loc: Loc, p: int)
    requires OnBoard(g, loc)
    ensures Cell(Play(g, loc, p), loc) == p
    ensures forall l :: l in Flipped(g, loc, p) ==> OnBoard(g, l) && Cell(Play(g, loc, p), l) == p
    ensures forall l :: OnBoard(g, l) && l != loc && l !in Flipped(g, loc, p) ==>
              Cell(Play(g, loc, p), l) == Cell(g, l)
  {
    var placed := SetCell(g, loc, p);
    FlippedCells(g, loc, p);
    FlippedIgnoresOrigin(g, loc, p, p);
    FlippedDistinct(g, loc, p);
  }

  /** A move of a player keeps every cell 0, 1 or 2. */
  lemma PlayKeepsCells(g: Board, loc: Loc, p: int)
    requires OnBoard(g, loc) && ValidCells(g) && IsPlayer(p)
    ensures ValidCells(Play(g, loc, p))
  {
    PlayEffect(g, loc, p);
  }

  /**
   * On an empty cell, a move of p adds one disc plus one per capture to p's
   * count and removes exactly one empty cell.
   */
  lemma PlayCounts(g: Board, loc: Loc, p: int)
    requires OnBoard(g, loc) && Cell(g, loc) == 0 && IsPlayer(p)
    ensures Count(Play(g, loc, p), p) == Count(g, p) + 1 + |Flipped(g, loc, p)|
    ensures Count(Play(g, loc, p), 0) == Count(g, 0) - 1
  {
    var placed := SetCell(g, loc, p);
    var f := Flipped(placed, loc, p);
    FlippedIgnoresOrigin(g, loc, p, p);
    FlippedDistinct(placed, loc, p);
    FlippedCells(placed, loc, p);
    CountSetCell(g, loc, p, p);
    CountSetCell(g, loc, p, 0);
    assert forall i :: 0 <= i < |f| ==> f[i] in f;
    CountSetAll(placed, f, p);
    CountSetAllOther(placed, f, p, 0);
  }

  // ---------------------------------------------------------------------------
  // Moves, terminal positions and children

  /** A full board has no moves, so a position is terminal exactly when neither player can move. */
  lemma TerminalIffNoMoves(g: Board)
    ensures IsTerminal(g) <==> Moves(g, 1) == [] && Moves(g, 2) == []
  {
    if Count(g, 0) == 0 {
      forall p | p == 1 || p == 2 ensures Moves(g, p) == [] {
        if Moves(g, p) != [] {
          var l := Moves(g, p)[0];
          assert l in Moves(g, p);
          CountPositive(g, l, 0);
        }
      }
    }
  }

  /** Every child of a position has exactly one empty cell fewer: the search's termination measure. */
  lemma ChildHasFewerEmpties(g: Board, q: int, i: int)
    requires IsPlayer(q) && 0 <= i < |Moves(g, q)|
    ensures |Children(g, q)| == |Moves(g, q)|
    ensures Children(g, q)[i] == Play(g, Moves(g, q)[i], q)
    ensures Count(Children(g, q)[i], 0) == Count(g, 0) - 1
  {
    var m := Moves(g, q)[i];
    assert m in Moves(g, q);
    PlayCounts(g, m, q);
  }

  /** The children are the available moves played, in order. */
  lemma ChildrenArePlays(g: Board, q: int)
    ensures |Children(g, q)| == |Moves(g, q)|
    ensures forall i :: 0 <= i < |Moves(g, q)| ==>
              OnBoard(g, Moves(g, q)[i]) && Children(g, q)[i] == Play(g, Moves(g, q)[i], q)
  {
    forall i | 0 <= i < |Moves(g, q)|
      ensures OnBoard(g, Moves(g, q)[i]) && Children(g, q)[i] == Play(g, Moves(g, q)[i], q)
    {
      ChildAt(g, q, i);
    }
  }

  /** The i-th child is the i-th available move played, and that move is on the board. */
  lemma ChildAt(g: Board, q: int, i: int)
    requires 0 <= i < |Moves(g, q)|
    ensures |Children(g, q)| == |Moves(g, q)|
    ensures OnBoard(g, Moves(g, q)[i]) && Children(g, q)[i] == Play(g, Moves(g, q)[i], q)
  {
    assert Moves(g, q)[i] in Moves(g, q);
  }

  /** The start position holds two White discs, two Black discs and w * w - 4 empty cells. */
  lemma StartCounts(w: int)
    requires w >= 2 && w % 2 == 0
    ensures Count(StartGrid(w), 1) == 2
    ensures Count(StartGrid(w), 2) == 2
    ensures Count(StartGrid(w), 0) == w * w - 4
  {
    var empty := seq(w, _ => seq(w, _ => 0));
    CountUniform(w, w);
    RowCountUniform(w);
    CountZeroIfAbsent(empty, 1);
    CountZeroIfAbsent(empty, 2);
    StartCount(w, 0);
    StartCount(w, 1);
    StartCount(w, 2);
  }

  /** The four centre writes of the start position, counted for one value v. */
  lemma StartCount(w: int, v: int)
    requires w >= 2 && w % 2 == 0
    ensures Count(StartGrid(w), v) == Count(seq(w, _ => seq(w, _ => 0)), v) + (if v == 0 then -4 else if v == 1 || v == 2 then 2 else 0)
  {
    var m := w / 2 - 1;
    var empty := seq(w, _ => seq(w, _ => 0));
    var g1 := SetCell(empty, Loc(m, m), 1);
    var g2 := SetCell(g1, Loc(m + 1, m + 1), 1);
    var g3 := SetCell(g2, Loc(m, m + 1), 2);
    var g4 := SetCell(g3, Loc(m + 1, m), 2);
    assert StartGrid(w) == g4;
    CountWriteEmpty(empty, Loc(m, m), 1, v);
    CountWriteEmpty(g1, Loc(m + 1, m + 1), 1, v);
    CountWriteEmpty(g2, Loc(m, m + 1), 2, v);
    CountWriteEmpty(g3, Loc(m + 1, m), 2, v);
  }

  /** Writing w to an empty cell takes one from the empty count and adds one to w's. */
  lemma CountWriteEmpty(g: Board, l: Loc, w: int, v: int)
    requires OnBoard(g, l) && Cell(g, l) == 0 && w != 0
    ensures Count(SetCell(g, l, w), v) == Count(g, v) - (if v == 0 then 1 else 0) + (if w == v then 1 else 0)
  {
    CountSetCell(g, l, w, v);
  }

  lemma {:induction false} RowCountZeroIfAbsent(row: seq<int>, v: int)
    requires forall x :: 0 <= x < |row| ==> row[x] != v
    ensures RowCount(row, v) == 0
  {
    if row != [] {
      RowCountZeroIfAbsent(row[..|row| - 1], v);
    }
  }

  lemma {:induction false} CountZeroIfAbsent(g: Grid, v: int)
    requires forall y, x :: 0 <= y < |g| && 0 <= x < |g[y]| ==> g[y][x] != v
    ensures Count(g, v) == 0
  {
    if g != [] {
      CountZeroIfAbsent(g[..|g| - 1], v);
      RowCountZeroIfAbsent(g[|g| - 1], v);
    }
  }
}
