/**
 * The search as functions of the grid: the depth-limited negamax with
 * alpha-beta pruning as the engine runs it, but with the children in move
 * order where the engine shuffles them; a full-width minimax reference; the
 * proof that pruning does not change the value of a full window; and the
 * root move choice with its tie-break.
 */
module Search {
  import opened Outcomes
  import opened ExtInts
  import opened Grids
  import opened Rules
  import opened RuleFacts

  /**
   * The value the engine's negamax returns for the position g after player p
   * moved: the disc count of p at depth 0 or at a terminal position, otherwise
   * the negation of the best value the opponent reaches among its replies
   * (+inf when the opponent has no reply).
   */
  function NegamaxValue(g: Board, p: int, depth: int, a: ExtInt, b: ExtInt, pruning: bool): ExtInt
    requires IsPlayer(p)
    decreases Count(g, 0), 1, 0
  {
    if depth == 0 || IsTerminal(g) then Fin(Count(g, p))
    else Neg(SearchReplies(g, p, depth - 1, 0, a, b, pruning, NegInf))
  }

  /**
   * The loop over the opponent's replies from the i-th on, with the running
   * best value and alpha; with pruning on it stops once alpha reaches beta.
   */
  function SearchReplies(g: Board, p: int, depth: int, i: int, a: ExtInt, b: ExtInt, pruning: bool, best: ExtInt): ExtInt
    requires IsPlayer(p) && 0 <= i <= |Moves(g, Opponent(p))|
    decreases Count(g, 0), 0, |Moves(g, Opponent(p))| - i
  {
    var q := Opponent(p);
    if i == |Moves(g, q)| then best
    else
      ChildHasFewerEmpties(g, q, i);
      var value := NegamaxValue(Children(g, q)[i], q, depth, Neg(b), Neg(a), pruning);
      var best' := Max(best, value);
      if !pruning then SearchReplies(g, p, depth, i + 1, a, b, pruning, best')
      else
        var a' := Max(a, value);
        if Le(b, a') then best' else SearchReplies(g, p, depth, i + 1, a', b, pruning, best')
  }

  /** The full-width reference: no window, every reply examined. */
  function Minimax(g: Board, p: int, depth: int): ExtInt
    requires IsPlayer(p)
    decreases Count(g, 0), 1, 0
  {
    if depth == 0 || IsTerminal(g) then Fin(Count(g, p))
    else Neg(BestReply(g, p, depth - 1, 0))
  }

  /** The largest full-width value among the opponent's replies from the i-th on. */
  function BestReply(g: Board, p: int, depth: int, i: int): ExtInt
    requires IsPlayer(p) && 0 <= i <= |Moves(g, Opponent(p))|
    decreases Count(g, 0), 0, |Moves(g, Opponent(p))| - i
  {
    var q := Opponent(p);
    if i == |Moves(g, q)| then NegInf
    else
      ChildHasFewerEmpties(g, q, i);
      Max(Minimax(Children(g, q)[i], q, depth), BestReply(g, p, depth, i + 1))
  }

  /**
   * One turn of the reply loop: the i-th child's value either ends the loop
   * (alpha has reached beta) or moves the loop on to the next child.
   */
  lemma RepliesStep(g: Board, p: int, depth: int, i: int, a: ExtInt, b: ExtInt, pruning: bool, best: ExtInt, v: ExtInt)
    requires IsPlayer(p) && 0 <= i < |Moves(g, Opponent(p))|
    requires v == NegamaxValue(Children(g, Opponent(p))[i], Opponent(p), depth, Neg(b), Neg(a), pruning)
    ensures pruning && Le(b, Max(a, v)) ==> SearchReplies(g, p, depth, i, a, b, pruning, best) == Max(best, v)
    ensures !(pruning && Le(b, Max(a, v))) ==>
              SearchReplies(g, p, depth, i, a, b, pruning, best)
              == SearchReplies(g, p, depth, i + 1, if pruning then Max(a, v) else a, b, pruning, Max(best, v))
  {
  }

  // ---------------------------------------------------------------------------
  // Leaves and passes

  /**
   * At depth 0 or at a terminal position the value is the disc count of p; on a
   * non-terminal position where the opponent cannot reply it is +inf (the
   * engine does not search a pass).
   */
  lemma NegamaxLeavesAndPasses(g: Board, p: int, depth: int, a: ExtInt, b: ExtInt, pruning: bool)
    requires IsPlayer(p)
    ensures depth == 0 || IsTerminal(g) ==> NegamaxValue(g, p, depth, a, b, pruning) == Fin(Count(g, p))
    ensures depth != 0 && !IsTerminal(g) && Moves(g, Opponent(p)) == [] ==>
              NegamaxValue(g, p, depth, a, b, pruning) == PosInf
  {
  }

  // ---------------------------------------------------------------------------
  // Without pruning the search is the full-width minimax

  lemma {:induction false} UnprunedIsMinimax(g: Board, p: int, depth: int, a: ExtInt, b: ExtInt)
    requires IsPlayer(p)
    ensures NegamaxValue(g, p, depth, a, b, false) == Minimax(g, p, depth)
    decreases Count(g, 0), 1, 0, 0
  {
    if !(depth == 0 || IsTerminal(g)) {
      UnprunedReplies(g, p, depth - 1, 0, a, b, NegInf);
      assert NegamaxValue(g, p, depth, a, b, false) == Neg(SearchReplies(g, p, depth - 1, 0, a, b, false, NegInf));
      assert Minimax(g, p, depth) == Neg(BestReply(g, p, depth - 1, 0));
      MaxNegInf(BestReply(g, p, depth - 1, 0));
    }
  }

  lemma {:induction false} UnprunedReplies(g: Board, p: int, depth: int, i: int, a: ExtInt, b: ExtInt, best: ExtInt)
    requires IsPlayer(p) && 0 <= i <= |Moves(g, Opponent(p))|
    ensures SearchReplies(g, p, depth, i, a, b, false, best) == Max(best, BestReply(g, p, depth, i))
    decreases Count(g, 0), 0, |Moves(g, Opponent(p))| - i, 1
  {
    if i < |Moves(g, Opponent(p))| {
      UnprunedReply(g, p, depth, i, a, b, best);
    } else {
      assert SearchReplies(g, p, depth, i, a, b, false, best) == best;
      assert BestReply(g, p, depth, i) == NegInf;
      MaxNegInf(best);
    }
  }

  /** One step of the loop: the i-th reply's searched value is its minimax value. */
  lemma {:induction false} UnprunedReply(g: Board, p: int, depth: int, i: int, a: ExtInt, b: ExtInt, best: ExtInt)
    requires IsPlayer(p) && 0 <= i < |Moves(g, Opponent(p))|
    ensures SearchReplies(g, p, depth, i, a, b, false, best) == Max(best, BestReply(g, p, depth, i))
    decreases Count(g, 0), 0, |Moves(g, Opponent(p))| - i, 0
  {
    var q := Opponent(p);
    ChildHasFewerEmpties(g, q, i);
    var child := Children(g, q)[i];
    UnprunedIsMinimax(child, q, depth, Neg(b), Neg(a));
    var value := Minimax(child, q, depth);
    assert SearchReplies(g, p, depth, i, a, b, false, best)
        == SearchReplies(g, p, depth, i + 1, a, b, false, Max(best, value));
    UnprunedReplies(g, p, depth, i + 1, a, b, Max(best, value));
    assert BestReply(g, p, depth, i) == Max(value, BestReply(g, p, depth, i + 1));
    MaxAssociative(best, value, BestReply(g, p, depth, i + 1));
  }

  // ---------------------------------------------------------------------------
  // Alpha-beta: the pruned value bounds the true value, and equals it inside the window

  /**
   * The fail-soft alpha-beta guarantee for a value r searched with window
   * (lo, hi) whose true value is t: at or below lo, r is an upper bound of t;
   * strictly inside the window, r is t; at or above hi, r is a lower bound of t.
   */
  predicate WindowBound(r: ExtInt, t: ExtInt, lo: ExtInt, hi: ExtInt)
  {
    && (Le(r, lo) ==> Le(t, r))
    && (Lt(lo, r) && Lt(r, hi) ==> r == t)
    && (Le(hi, r) ==> Le(r, t))
  }

  /**
   * For a window a < b, the pruned value of a node and its full-width value
   * satisfy the alpha-beta guarantee for the window (-b, -a): a node reports
   * the negation of its best reply, so its window is the negated one.
   */
  lemma {:induction false} AlphaBetaBounds(g: Board, p: int, depth: int, a: ExtInt, b: ExtInt)
    requires IsPlayer(p) && Lt(a, b)
    ensures WindowBound(NegamaxValue(g, p, depth, a, b, true), Minimax(g, p, depth), Neg(b), Neg(a))
    decreases Count(g, 0), 1, 0, 0
  {
    var r := NegamaxValue(g, p, depth, a, b, true);
    if !(depth == 0 || IsTerminal(g)) {
      var sr := SearchReplies(g, p, depth - 1, 0, a, b, true, NegInf);
      var t := BestReply(g, p, depth - 1, 0);
      assert r == Neg(sr);
      assert Minimax(g, p, depth) == Neg(t);
      MaxNegInf(a);
      MaxNegInf(t);
      AlphaBetaReplies(g, p, depth - 1, 0, a, a, b, NegInf, NegInf);
      NegatedWindow(sr, t, a, b);
    } else {
      ExactWindow(r, Neg(b), Neg(a));
    }
  }

  /**
   * The loop over replies keeps: alpha is the larger of the initial alpha a0
   * and the running best; the true best of the replies seen so far, bv, is at
   * most the running best, and equals it once the running best exceeds a0.
   */
  lemma {:induction false} AlphaBetaReplies(g: Board, p: int, depth: int, i: int, a0: ExtInt, a: ExtInt,
                                            b: ExtInt, best: ExtInt, bv: ExtInt)
    requires IsPlayer(p) && 0 <= i <= |Moves(g, Opponent(p))|
    requires LoopInvariant(a0, a, b, best, bv)
    ensures WindowBound(SearchReplies(g, p, depth, i, a, b, true, best), Max(bv, BestReply(g, p, depth, i)), a0, b)
    decreases Count(g, 0), 0, |Moves(g, Opponent(p))| - i, 1
  {
    if i < |Moves(g, Opponent(p))| {
      AlphaBetaReply(g, p, depth, i, a0, a, b, best, bv);
    } else {
      assert SearchReplies(g, p, depth, i, a, b, true, best) == best;
      assert BestReply(g, p, depth, i) == NegInf;
      MaxNegInf(bv);
      LoopEnds(a0, a, b, best, bv);
    }
  }

  /** One step of the loop: the i-th reply either reaches beta or keeps the loop state. */
  lemma {:induction false} AlphaBetaReply(g: Board, p: int, depth: int, i: int, a0: ExtInt, a: ExtInt,
                                          b: ExtInt, best: ExtInt, bv: ExtInt)
    requires IsPlayer(p) && 0 <= i < |Moves(g, Opponent(p))|
    requires LoopInvariant(a0, a, b, best, bv)
    ensures WindowBound(SearchReplies(g, p, depth, i, a, b, true, best), Max(bv, BestReply(g, p, depth, i)), a0, b)
    decreases Count(g, 0), 0, |Moves(g, Opponent(p))| - i, 0
  {
    var q := Opponent(p);
    ChildHasFewerEmpties(g, q, i);
    var child := Children(g, q)[i];
    NegReverses(a, b);
    AlphaBetaBounds(child, q, depth, Neg(b), Neg(a));
    var r := NegamaxValue(child, q, depth, Neg(b), Neg(a), true);
    var v := Minimax(child, q, depth);
    NegReverses(b, a);
    assert WindowBound(r, v, a, b);
    var rest := BestReply(g, p, depth, i + 1);
    assert BestReply(g, p, depth, i) == Max(v, rest);
    MaxAssociative(bv, v, rest);
    assert SearchReplies(g, p, depth, i, a, b, true, best)
        == if Le(b, Max(a, r)) then Max(best, r)
           else SearchReplies(g, p, depth, i + 1, Max(a, r), b, true, Max(best, r));
    if Le(b, Max(a, r)) {
      LoopBreaks(a0, a, b, best, bv, r, v, rest);
    } else {
      LoopContinues(a0, a, b, best, bv, r, v);
      AlphaBetaReplies(g, p, depth, i + 1, a0, Max(a, r), b, Max(best, r), Max(bv, v));
    }
  }

  /**
   * With the full window (-inf, +inf), as the engine's root calls use it, the
   * pruned value equals the full-width minimax value and the unpruned value.
   */
  lemma AlphaBetaExact(g: Board, p: int, depth: int)
    requires IsPlayer(p)
    ensures NegamaxValue(g, p, depth, NegInf, PosInf, true) == Minimax(g, p, depth)
    ensures NegamaxValue(g, p, depth, NegInf, PosInf, true) == NegamaxValue(g, p, depth, NegInf, PosInf, false)
  {
    AlphaBetaBounds(g, p, depth, NegInf, PosInf);
    UnprunedIsMinimax(g, p, depth, NegInf, PosInf);
  }

  // ---------------------------------------------------------------------------
  // The order facts behind the alpha-beta proof, on values alone

  /** The state of the reply loop described at AlphaBetaReplies. */
  predicate LoopInvariant(a0: ExtInt, a: ExtInt, b: ExtInt, best: ExtInt, bv: ExtInt)
  {
    a == Max(a0, best) && Lt(a, b) && Le(bv, best) && (Lt(a0, best) ==> bv == best)
  }

  lemma MaxNegInf(x: ExtInt)
    ensures Max(NegInf, x) == x && Max(x, NegInf) == x
  {
  }

  lemma ExactWindow(r: ExtInt, lo: ExtInt, hi: ExtInt)
    ensures WindowBound(r, r, lo, hi)
  {
  }

  lemma NegatedWindow(r: ExtInt, t: ExtInt, lo: ExtInt, hi: ExtInt)
    requires WindowBound(r, t, lo, hi)
    ensures WindowBound(Neg(r), Neg(t), Neg(hi), Neg(lo))
  {
    NegReverses(r, lo);
    NegReverses(lo, r);
    NegReverses(r, hi);
    NegReverses(hi, r);
    NegReverses(r, t);
    NegReverses(t, r);
  }

  /** A reply that reaches beta ends the loop with a value the true best reaches. */
  lemma LoopBreaks(a0: ExtInt, a: ExtInt, b: ExtInt, best: ExtInt, bv: ExtInt, r: ExtInt, v: ExtInt, rest: ExtInt)
    requires LoopInvariant(a0, a, b, best, bv) && WindowBound(r, v, a, b) && Le(b, Max(a, r))
    ensures WindowBound(Max(best, r), Max(Max(bv, v), rest), a0, b)
  {
  }

  /** A reply below beta keeps the loop state. */
  lemma LoopContinues(a0: ExtInt, a: ExtInt, b: ExtInt, best: ExtInt, bv: ExtInt, r: ExtInt, v: ExtInt)
    requires LoopInvariant(a0, a, b, best, bv) && WindowBound(r, v, a, b) && !Le(b, Max(a, r))
    ensures LoopInvariant(a0, Max(a, r), b, Max(best, r), Max(bv, v))
  {
  }

  /** With every reply examined, the running best is bounded as the guarantee says. */
  lemma LoopEnds(a0: ExtInt, a: ExtInt, b: ExtInt, best: ExtInt, bv: ExtInt)
    requires LoopInvariant(a0, a, b, best, bv)
    ensures WindowBound(best, bv, a0, b)
  {
  }

  // ---------------------------------------------------------------------------
  // The root move choice

  /** The score the engine gives move m of p: the negamax value of the child with the full window. */
  function Score(g: Board, p: int, plies: int, m: Loc): ExtInt
    requires IsPlayer(p) && OnBoard(g, m)
  {
    NegamaxValue(Play(g, m, p), p, plies - 1, NegInf, PosInf, true)
  }

  /** The scores of p's available moves, in move order. */
  function Scores(g: Board, p: int, plies: int): (s: seq<ExtInt>)
    requires IsPlayer(p)
    ensures |s| == |Moves(g, p)|
    ensures forall i :: 0 <= i < |s| ==> OnBoard(g, Moves(g, p)[i]) && s[i] == Score(g, p, plies, Moves(g, p)[i])
  {
    var moves := Moves(g, p);
    assert forall i :: 0 <= i < |moves| ==> moves[i] in moves;
    seq(|moves|, i requires 0 <= i < |moves| => Score(g, p, plies, moves[i]))
  }

  /**
   * The root loop from the i-th move on, carrying the best move so far and its
   * score: a strictly higher score replaces it; an equal score replaces it only
   * when there is none yet or the new move's location type (on a board of
   * width w) is strictly higher.
   */
  function PickFrom(moves: seq<Loc>, scores: seq<ExtInt>, w: int, i: int, best: Option<Loc>, bestScore: ExtInt): Option<Loc>
    requires |scores| == |moves| && 0 <= i <= |moves|
    decreases |moves| - i
  {
    if i == |moves| then best
    else
      var m := moves[i];
      var score := scores[i];
      var (best1, score1) := if Lt(bestScore, score) then (Some(m), score) else (best, bestScore);
      var (best2, score2) :=
        if score == score1 && (best1.None? || LocationType(m, w) > LocationType(best1.value, w))
        then (Some(m), score) else (best1, score1);
      PickFrom(moves, scores, w, i + 1, best2, score2)
  }

  /** The move the engine picks for p looking plies ahead; None when p has no move. */
  function BestMove(g: Board, p: int, plies: int): Option<Loc>
    requires IsPlayer(p)
  {
    PickFrom(Moves(g, p), Scores(g, p, plies), |g|, 0, None, NegInf)
  }

  /**
   * Move c beats move j under the root rule: j's score is at most c's; on an
   * equal score j's location type is at most c's, and strictly lower if j
   * comes first.
   */
  predicate Beats(moves: seq<Loc>, scores: seq<ExtInt>, w: int, c: int, j: int)
    requires |scores| == |moves| && 0 <= j < |moves| && 0 <= c < |moves|
  {
    && Le(scores[j], scores[c])
    && (scores[j] == scores[c] ==> LocationType(moves[j], w) <= LocationType(moves[c], w))
    && (scores[j] == scores[c] && j < c ==> LocationType(moves[j], w) < LocationType(moves[c], w))
  }

  /** From a state where move k beats every move before i, the loop ends on a move that beats all. */
  lemma {:induction false} PickKeeps(moves: seq<Loc>, scores: seq<ExtInt>, w: int, i: int, k: int) returns (c: int)
    requires |scores| == |moves| && 0 <= k < i <= |moves|
    requires forall j :: 0 <= j < i ==> Beats(moves, scores, w, k, j)
    ensures 0 <= c < |moves|
    ensures PickFrom(moves, scores, w, i, Some(moves[k]), scores[k]) == Some(moves[c])
    ensures forall j :: 0 <= j < |moves| ==> Beats(moves, scores, w, c, j)
    decreases |moves| - i, 1
  {
    if i == |moves| {
      c := k;
    } else {
      c := PickStep(moves, scores, w, i, k);
    }
  }

  lemma {:induction false} PickStep(moves: seq<Loc>, scores: seq<ExtInt>, w: int, i: int, k: int) returns (c: int)
    requires |scores| == |moves| && 0 <= k < i < |moves|
    requires forall j :: 0 <= j < i ==> Beats(moves, scores, w, k, j)
    ensures 0 <= c < |moves|
    ensures PickFrom(moves, scores, w, i, Some(moves[k]), scores[k]) == Some(moves[c])
    ensures forall j :: 0 <= j < |moves| ==> Beats(moves, scores, w, c, j)
    decreases |moves| - i, 0
  {
    var score := scores[i];
    if Lt(scores[k], score) {
      forall j | 0 <= j < i + 1 ensures Beats(moves, scores, w, i, j) {
        if j < i {
          assert Beats(moves, scores, w, k, j);
          LeLtIsLt(scores[j], scores[k], score);
        }
      }
      assert PickFrom(moves, scores, w, i, Some(moves[k]), scores[k]) == PickFrom(moves, scores, w, i + 1, Some(moves[i]), score);
      c := PickKeeps(moves, scores, w, i + 1, i);
    } else if score == scores[k] && LocationType(moves[i], w) > LocationType(moves[k], w) {
      forall j | 0 <= j < i + 1 ensures Beats(moves, scores, w, i, j) {
        if j < i {
          assert Beats(moves, scores, w, k, j);
        }
      }
      assert PickFrom(moves, scores, w, i, Some(moves[k]), scores[k]) == PickFrom(moves, scores, w, i + 1, Some(moves[i]), score);
      c := PickKeeps(moves, scores, w, i + 1, i);
    } else {
      assert PickFrom(moves, scores, w, i, Some(moves[k]), scores[k]) == PickFrom(moves, scores, w, i + 1, Some(moves[k]), scores[k]);
      c := PickKeeps(moves, scores, w, i + 1, k);
    }
  }

  lemma LeLtIsLt(x: ExtInt, y: ExtInt, z: ExtInt)
    requires Le(x, y) && Lt(y, z)
    ensures Lt(x, z)
  {
  }

  /**
   * On a non-empty list the loop ends on the move that beats every move: the
   * highest score, then the highest location type, then the first such.
   */
  lemma PickChoice(moves: seq<Loc>, scores: seq<ExtInt>, w: int) returns (c: int)
    requires |scores| == |moves| && |moves| > 0
    ensures 0 <= c < |moves|
    ensures PickFrom(moves, scores, w, 0, None, NegInf) == Some(moves[c])
    ensures forall j :: 0 <= j < |moves| ==> Beats(moves, scores, w, c, j)
  {
    assert PickFrom(moves, scores, w, 0, None, NegInf) == PickFrom(moves, scores, w, 1, Some(moves[0]), scores[0]);
    c := PickKeeps(moves, scores, w, 1, 0);
  }

  /** The engine returns None exactly when p has no available move. */
  lemma BestMoveNoneIff(g: Board, p: int, plies: int)
    requires IsPlayer(p)
    ensures BestMove(g, p, plies) == None <==> Moves(g, p) == []
  {
    if Moves(g, p) != [] {
      var c := PickChoice(Moves(g, p), Scores(g, p, plies), |g|);
    }
  }

  /**
   * When p can move, the engine returns the available move c with the highest
   * score; among moves of that score, c has the highest location type, and
   * every earlier move of that score has a strictly lower one.
   */
  lemma BestMoveChoice(g: Board, p: int, plies: int) returns (c: int)
    requires IsPlayer(p) && Moves(g, p) != []
    ensures 0 <= c < |Moves(g, p)|
    ensures BestMove(g, p, plies) == Some(Moves(g, p)[c])
    ensures forall j :: 0 <= j < |Moves(g, p)| ==>
              var sj := Score(g, p, plies, Moves(g, p)[j]);
              var sc := Score(g, p, plies, Moves(g, p)[c]);
              && Le(sj, sc)
              && (sj == sc ==> LocationType(Moves(g, p)[j], |g|) <= LocationType(Moves(g, p)[c], |g|))
              && (sj == sc && j < c ==> LocationType(Moves(g, p)[j], |g|) < LocationType(Moves(g, p)[c], |g|))
  {
    var moves := Moves(g, p);
    var scores := Scores(g, p, plies);
    c := PickChoice(moves, scores, |g|);
    forall j | 0 <= j < |moves|
      ensures var sj := Score(g, p, plies, moves[j]);
              var sc := Score(g, p, plies, moves[c]);
              && Le(sj, sc)
              && (sj == sc ==> LocationType(moves[j], |g|) <= LocationType(moves[c], |g|))
              && (sj == sc && j < c ==> LocationType(moves[j], |g|) < LocationType(moves[c], |g|))
    {
      assert Beats(moves, scores, |g|, c, j);
    }
  }
}
