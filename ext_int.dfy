/**
 * Search scores: the integers extended with the two infinities that the search
 * uses as sentinels (written float("inf") in the engine).
 */
module ExtInts {

  datatype ExtInt = NegInf | Fin(n: int) | PosInf

  /** The order of the extended integers (Python's comparison of int and inf). */
  predicate Le(a: ExtInt, b: ExtInt)
  {
    match (a, b)
    case (NegInf, _) => true
    case (_, PosInf) => true
    case (Fin(x), Fin(y)) => x <= y
    case _ => false
  }

  predicate Lt(a: ExtInt, b: ExtInt)
  {
    Le(a, b) && a != b
  }

  /** Python's max(a, b): the second argument only when it is strictly larger. */
  function Max(a: ExtInt, b: ExtInt): (r: ExtInt)
    ensures Le(a, r) && Le(b, r)
    ensures r == a || r == b
  {
    if Lt(a, b) then b else a
  }

  /** Unary minus; -(+inf) is -inf and the other way round. */
  function Neg(a: ExtInt): ExtInt
  {
    match a
    case NegInf => PosInf
    case Fin(x) => Fin(-x)
    case PosInf => NegInf
  }

  /** Negation is an involution that reverses the order. */
  lemma NegReverses(a: ExtInt, b: ExtInt)
    ensures Neg(Neg(a)) == a
    ensures Le(a, b) <==> Le(Neg(b), Neg(a))
    ensures Lt(a, b) <==> Lt(Neg(b), Neg(a))
  {
  }

  lemma MaxAssociative(a: ExtInt, b: ExtInt, c: ExtInt)
    ensures Max(Max(a, b), c) == Max(a, Max(b, c))
  {
  }
}
