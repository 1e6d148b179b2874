/**
 * The double-precision values the solver computes with: finite values (kept
 * as exact reals), the two infinities and NaN, combined by the IEEE 754 rules
 * for `+`, unary `-` and `<`. Rounding and overflow of finite values are not
 * modelled.
 */
module Numbers {

  datatype Num = Finite(v: real) | PlusInf | MinusInf | NaN

  /** `x == 0`, the test `is_minimal_possible` applies to a distance. */
  predicate IsZero(a: Num)
  {
    a == Finite(0.0)
  }

  function Neg(a: Num): (r: Num)
    ensures r.NaN? <==> a.NaN?
    ensures r.Finite? <==> a.Finite?
  {
    match a
    case Finite(x) => Finite(-x)
    case PlusInf => MinusInf
    case MinusInf => PlusInf
    case NaN => NaN
  }

  /** IEEE addition: NaN absorbs, opposite infinities give NaN, one infinity wins. */
  function Add(a: Num, b: Num): (r: Num)
    ensures r.NaN? <==> a.NaN? || b.NaN? || (a.PlusInf? && b.MinusInf?) || (a.MinusInf? && b.PlusInf?)
    ensures r.PlusInf? <==> (a.PlusInf? && !b.NaN? && !b.MinusInf?) || (b.PlusInf? && !a.NaN? && !a.MinusInf?)
    ensures r.MinusInf? <==> (a.MinusInf? && !b.NaN? && !b.PlusInf?) || (b.MinusInf? && !a.NaN? && !a.PlusInf?)
  {
    match (a, b)
    case (NaN, _) => NaN
    case (_, NaN) => NaN
    case (PlusInf, MinusInf) => NaN
    case (MinusInf, PlusInf) => NaN
    case (PlusInf, _) => PlusInf
    case (_, PlusInf) => PlusInf
    case (MinusInf, _) => MinusInf
    case (_, MinusInf) => MinusInf
    case (Finite(x), Finite(y)) => Finite(x + y)
  }

  function Sub(a: Num, b: Num): Num
  {
    Add(a, Neg(b))
  }

  /** IEEE `<`: false whenever NaN is involved, otherwise the order of the extended reals. */
  predicate Less(a: Num, b: Num)
  {
    match (a, b)
    case (NaN, _) => false
    case (_, NaN) => false
    case (MinusInf, MinusInf) => false
    case (MinusInf, _) => true
    case (PlusInf, _) => false
    case (Finite(_), MinusInf) => false
    case (Finite(_), PlusInf) => true
    case (Finite(x), Finite(y)) => x < y
  }

  /** NaN is unordered: nothing is below it and it is below nothing. */
  lemma NaNUnordered(a: Num)
    ensures !Less(a, NaN) && !Less(NaN, a)
  {
  }

  lemma LessIrreflexive(a: Num)
    ensures !Less(a, a)
  {
  }

  lemma LessAsymmetric(a: Num, b: Num)
    requires Less(a, b)
    ensures !Less(b, a)
  {
  }

  lemma LessTransitive(a: Num, b: Num, c: Num)
    requires Less(a, b) && Less(b, c)
    ensures Less(a, c)
  {
  }

  /** On values other than NaN, `<` is total. */
  lemma LessTotal(a: Num, b: Num)
    requires !a.NaN? && !b.NaN?
    ensures Less(a, b) || a == b || Less(b, a)
  {
  }

  /** On values other than NaN, "not below" is transitive. */
  lemma NotLessTransitive(a: Num, b: Num, c: Num)
    requires !a.NaN? && !b.NaN? && !c.NaN?
    requires !Less(a, b) && !Less(b, c)
    ensures !Less(a, c)
  {
  }

  /** Mixed transitivity, used when a smaller minimum replaces the current one. */
  lemma NotLessLess(a: Num, b: Num, c: Num)
    requires !Less(a, b) && Less(c, b)
    ensures !Less(a, c)
  {
  }
}
