/**
 * Intervals over the extended reals (src/interval.rs). The source's bounds are
 * `f32` values that may be infinite; `Bound` models exactly the three kinds of
 * bound the ray tracer builds: minus infinity, a finite value, plus infinity.
 */
module Interval {

  datatype Bound = NegInf | Fin(v: real) | PosInf

  /** `b <= x` for a bound `b` and a finite `x`. */
  predicate BoundAtMost(b: Bound, x: real)
  {
    match b
    case NegInf => true
    case Fin(v) => v <= x
    case PosInf => false
  }

  /** `b < x` for a bound `b` and a finite `x`. */
  predicate BoundBelow(b: Bound, x: real)
  {
    match b
    case NegInf => true
    case Fin(v) => v < x
    case PosInf => false
  }

  /** `x <= b` for a finite `x` and a bound `b`. */
  predicate AtMostBound(x: real, b: Bound)
  {
    match b
    case NegInf => false
    case Fin(v) => x <= v
    case PosInf => true
  }

  /** `x < b` for a finite `x` and a bound `b`. */
  predicate BelowBound(x: real, b: Bound)
  {
    match b
    case NegInf => false
    case Fin(v) => x < v
    case PosInf => true
  }

  /** A closed or open range whose bounds may be infinite. */
  datatype Interval = Interval(min: Bound, max: Bound)

  /** `Interval::contains`: closed membership, `min <= x <= max`. */
  predicate Contains(i: Interval, x: real)
  {
    BoundAtMost(i.min, x) && AtMostBound(x, i.max)
  }

  /** `Interval::surrounds`: open membership, `min < x < max`. */
  predicate Surrounds(i: Interval, x: real)
  {
    BoundBelow(i.min, x) && BelowBound(x, i.max)
  }

  /**
   * `Interval::from` on finite bounds: the bounds are stored as given, so
   * closed membership is `lo <= x <= hi` and open membership `lo < x < hi`.
   */
  function From(lo: real, hi: real): (i: Interval)
    ensures i.min == Fin(lo) && i.max == Fin(hi)
    ensures forall x :: Contains(i, x) <==> lo <= x <= hi
    ensures forall x :: Surrounds(i, x) <==> lo < x < hi
  {
    Interval(Fin(lo), Fin(hi))
  }

  /** `Interval::new`: the empty sentinel `[+inf, -inf]`. */
  function New(): (i: Interval)
    ensures forall x :: !Contains(i, x)
    ensures forall x :: !Surrounds(i, x)
  {
    Interval(PosInf, NegInf)
  }

  /** `Interval::empty` is the same sentinel as `Interval::new`. */
  function Empty(): (i: Interval)
    ensures forall x :: !Contains(i, x) && !Surrounds(i, x)
  {
    New()
  }

  /** `Interval::universe`: `[-inf, +inf]`, which holds every finite value. */
  function Universe(): (i: Interval)
    ensures forall x :: Contains(i, x) && Surrounds(i, x)
  {
    Interval(NegInf, PosInf)
  }

  /**
   * `Interval::clamp` (of the utilities interval used by colour output):
   * min/max clamping; an infinite bound does not clamp on its side.
   */
  function Clamp(i: Interval, x: real): (r: real)
    ensures Contains(i, x) ==> r == x
    ensures (exists y :: Contains(i, y)) ==> Contains(i, r)
  {
    if i.min.Fin? && x < i.min.v then i.min.v
    else if i.max.Fin? && i.max.v < x then i.max.v
    else x
  }

  /** On finite bounds, `contains` is exactly `min <= x <= max`. */
  lemma ContainsFinite(lo: real, hi: real, x: real)
    ensures Contains(Interval(Fin(lo), Fin(hi)), x) <==> lo <= x <= hi
  {
  }

  /** Open membership implies closed membership. */
  lemma SurroundsImpliesContains(i: Interval, x: real)
    ensures Surrounds(i, x) ==> Contains(i, x)
  {
  }

  /** Neither finite endpoint is surrounded. */
  lemma SurroundsExcludesEndpoints(lo: real, hi: real)
    ensures !Surrounds(Interval(Fin(lo), Fin(hi)), lo)
    ensures !Surrounds(Interval(Fin(lo), Fin(hi)), hi)
  {
  }

  /** Lowering the upper bound to a finite `hi'` below it keeps exactly the points below `hi'`. */
  lemma SurroundsNarrowed(i: Interval, hi': real, x: real)
    requires BelowBound(hi', i.max)
    ensures Surrounds(Interval(i.min, Fin(hi')), x) <==> Surrounds(i, x) && x < hi'
  {
  }
}
