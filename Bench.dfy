/**
 * The benchmark harness's StatAccumulator: it accumulates 64-bit data points
 * and tracks their minimum, total and count, from which it reports the
 * minimum and the (integer) average.  The fields are `uint64_t`, so the
 * total and the count wrap around modulo 2^64.  The header calls the type a
 * monoid; the pure `Stat` value below is that monoid, and the class is
 * proved to follow it.
 */
module Bench {

  const U64_MAX: nat := 0xFFFF_FFFF_FFFF_FFFF

  /** Unsigned 64-bit wrap-around: 2^64 is taken away until the value fits. */
  function Wrap(x: nat): (r: nat)
    ensures r <= U64_MAX
    ensures x <= U64_MAX ==> r == x
    decreases x
  {
    if x <= U64_MAX then x else Wrap(x - (U64_MAX + 1))
  }

  /** Wrap is the remainder modulo 2^64. */
  lemma {:induction false} WrapIsMod(x: nat)
    ensures Wrap(x) == x % (U64_MAX + 1)
    decreases x
  {
    if x > U64_MAX {
      WrapIsMod(x - (U64_MAX + 1));
    }
  }

  /** Wrapping an operand of a sum first does not change the wrapped sum. */
  lemma WrapAdd(x: nat, y: nat)
    ensures Wrap(Wrap(x) + y) == Wrap(x + y)
    ensures Wrap(x + Wrap(y)) == Wrap(x + y)
  {
    WrapLeft(x, y);
    WrapLeft(y, x);
  }

  lemma {:induction false} WrapLeft(x: nat, y: nat)
    ensures Wrap(Wrap(x) + y) == Wrap(x + y)
    decreases x
  {
    if x > U64_MAX {
      WrapLeft(x - (U64_MAX + 1), y);
    }
  }

  lemma WrapBoth(x: nat, y: nat)
    ensures Wrap(x + y) == Wrap(Wrap(x) + Wrap(y))
  {
    WrapLeft(x, Wrap(y));
    WrapAdd(x, y);
  }

  /** Wrapped addition is associative. */
  lemma WrapAssoc(x: nat, y: nat, z: nat)
    ensures Wrap(Wrap(x + y) + z) == Wrap(x + Wrap(y + z))
  {
    WrapLeft(x + y, z);
    WrapAdd(x, y + z);
  }

  /** The abstract value of an accumulator: its three fields. */
  datatype Stat = Stat(minimum: nat, total: nat, count: nat)

  /** Every field fits in a uint64_t. */
  predicate InRange(s: Stat) {
    s.minimum <= U64_MAX && s.total <= U64_MAX && s.count <= U64_MAX
  }

  /** A default-constructed accumulator. */
  const Empty: Stat := Stat(U64_MAX, 0, 0)

  function Min(a: nat, b: nat): nat { if a <= b then a else b }

  /** The effect of `add(value)` on the abstract value. */
  function Added(s: Stat, value: nat): Stat {
    Stat(Min(s.minimum, value), Wrap(s.total + value), Wrap(s.count + 1))
  }

  /** The effect of `a.combine(b)` on the abstract value of `a`. */
  function Combined(a: Stat, b: Stat): Stat {
    Stat(Min(a.minimum, b.minimum), Wrap(a.total + b.total), Wrap(a.count + b.count))
  }

  /** What `getAverage` reports: total / count, or 0 for no data. */
  function Average(s: Stat): nat {
    if s.count == 0 then 0 else s.total / s.count
  }

  /** Adding every value of `values` in order. */
  function AddedAll(s: Stat, values: seq<nat>): Stat
    decreases |values|
  {
    if values == [] then s else AddedAll(Added(s, values[0]), values[1..])
  }

  function Sum(values: seq<nat>): nat {
    if values == [] then 0 else values[0] + Sum(values[1..])
  }

  /** The least of `init` and all of `values`. */
  function MinOf(values: seq<nat>, init: nat): (r: nat)
    ensures r <= init
    ensures forall i :: 0 <= i < |values| ==> r <= values[i]
    ensures r == init || exists i :: 0 <= i < |values| && r == values[i]
  {
    if values == [] then init else Min(values[0], MinOf(values[1..], init))
  }

  /** An independent description of the accumulator that received `values`. */
  function Summary(values: seq<nat>): Stat {
    Stat(MinOf(values, U64_MAX), Wrap(Sum(values)), Wrap(|values|))
  }

  // ---------------------------------------------------------------------
  // Monoid laws
  // ---------------------------------------------------------------------

  /** The default accumulator is a left and right identity of combine. */
  lemma EmptyIsIdentity(s: Stat)
    requires InRange(s)
    ensures Combined(Empty, s) == s
    ensures Combined(s, Empty) == s
  {
  }

  lemma CombineAssociative(a: Stat, b: Stat, c: Stat)
    ensures Combined(Combined(a, b), c) == Combined(a, Combined(b, c))
  {
    WrapAssoc(a.total, b.total, c.total);
    WrapAssoc(a.count, b.count, c.count);
  }

  lemma CombineCommutative(a: Stat, b: Stat)
    ensures Combined(a, b) == Combined(b, a)
  {
  }

  /** add(v) is combine with a fresh accumulator that received only add(v). */
  lemma AddIsCombineWithSingleton(s: Stat, value: nat)
    requires value <= U64_MAX
    ensures Added(s, value) == Combined(s, Added(Empty, value))
  {
  }

  // ---------------------------------------------------------------------
  // A run of adds
  // ---------------------------------------------------------------------

  /** Adding a sequence of values is combining with their summary. */
  lemma {:induction false} AddedAllIsCombineSummary(s: Stat, values: seq<nat>)
    requires InRange(s)
    ensures AddedAll(s, values) == Combined(s, Summary(values))
    decreases |values|
  {
    if values == [] {
      assert Summary(values) == Stat(U64_MAX, 0, 0);
    } else {
      AddedAllIsCombineSummary(Added(s, values[0]), values[1..]);
      SummaryCons(values);
      CombineAdded(s, values[0], Summary(values[1..]));
    }
  }

  /** The summary of a non-empty sequence, from the summary of its tail. */
  lemma SummaryCons(values: seq<nat>)
    requires values != []
    ensures var r := Summary(values[1..]);
      Summary(values) == Stat(Min(values[0], r.minimum), Wrap(values[0] + r.total), Wrap(1 + r.count))
  {
    WrapAdd(values[0], Sum(values[1..]));
    WrapAdd(1, |values[1..]|);
  }

  /** Combining after an add is combining with the value merged into the other side. */
  lemma CombineAdded(s: Stat, v: nat, r: Stat)
    ensures Combined(Added(s, v), r) == Combined(s, Stat(Min(v, r.minimum), Wrap(v + r.total), Wrap(1 + r.count)))
  {
    var lhs, rhs := Combined(Added(s, v), r), Combined(s, Stat(Min(v, r.minimum), Wrap(v + r.total), Wrap(1 + r.count)));
    assert lhs.total == rhs.total by {
      WrapAssoc(s.total, v, r.total);
    }
    assert lhs.count == rhs.count by {
      WrapAssoc(s.count, 1, r.count);
    }
  }

  /**
   * After a sequence of adds on a fresh accumulator, the minimum is the least
   * of 2^64-1 and every value, the total their sum and the count their
   * number, both modulo 2^64.
   */
  lemma {:induction false} AddsFromEmpty(values: seq<nat>)
    ensures AddedAll(Empty, values) == Summary(values)
    ensures AddedAll(Empty, values).count == |values| % (U64_MAX + 1)
    ensures AddedAll(Empty, values).total == Sum(values) % (U64_MAX + 1)
  {
    AddedAllIsCombineSummary(Empty, values);
    EmptyIsIdentity(Summary(values));
    WrapIsMod(Sum(values));
    WrapIsMod(|values|);
  }

  lemma {:induction false} SumConcat(xs: seq<nat>, ys: seq<nat>)
    ensures Sum(xs + ys) == Sum(xs) + Sum(ys)
    decreases |xs|
  {
    if xs != [] {
      assert (xs + ys)[1..] == xs[1..] + ys;
      SumConcat(xs[1..], ys);
    } else {
      assert xs + ys == ys;
    }
  }

  lemma {:induction false} MinOfConcat(xs: seq<nat>, ys: seq<nat>)
    ensures MinOf(xs + ys, U64_MAX) == Min(MinOf(xs, U64_MAX), MinOf(ys, U64_MAX))
    decreases |xs|
  {
    if xs != [] {
      assert (xs + ys)[1..] == xs[1..] + ys;
      MinOfConcat(xs[1..], ys);
    } else {
      assert xs + ys == ys;
    }
  }

  /** Summaries form a monoid homomorphism from concatenation to combine. */
  lemma SummaryOfConcat(xs: seq<nat>, ys: seq<nat>)
    ensures Summary(xs + ys) == Combined(Summary(xs), Summary(ys))
  {
    SumConcat(xs, ys);
    MinOfConcat(xs, ys);
    var mx, my := MinOf(xs, U64_MAX), MinOf(ys, U64_MAX);
    SummaryFromParts(xs + ys, Min(mx, my), Sum(xs) + Sum(ys), |xs| + |ys|);
    CombineUnwrapped(mx, my, Sum(xs), Sum(ys), |xs|, |ys|);
  }

  lemma SummaryFromParts(values: seq<nat>, m: nat, t: nat, c: nat)
    requires MinOf(values, U64_MAX) == m && Sum(values) == t && |values| == c
    ensures Summary(values) == Stat(m, Wrap(t), Wrap(c))
  {
  }

  /** Combining wraps the sums of the unwrapped totals and counts. */
  lemma CombineUnwrapped(mx: nat, my: nat, tx: nat, ty: nat, cx: nat, cy: nat)
    ensures Combined(Stat(mx, Wrap(tx), Wrap(cx)), Stat(my, Wrap(ty), Wrap(cy))) ==
      Stat(Min(mx, my), Wrap(tx + ty), Wrap(cx + cy))
  {
    WrapBoth(tx, ty);
    WrapBoth(cx, cy);
  }

  lemma {:induction false} CountTimesMinAtMostSum(values: seq<nat>)
    ensures |values| * MinOf(values, U64_MAX) <= Sum(values)
    decreases |values|
  {
    if values != [] {
      var k, m, m' := |values| - 1, MinOf(values, U64_MAX), MinOf(values[1..], U64_MAX);
      assert m == Min(values[0], m');
      CountTimesMinAtMostSum(values[1..]);
      MulMonotone(k, m, m');
      MulSucc(k, m);
    }
  }

  lemma MulSucc(k: nat, a: nat)
    ensures (k + 1) * a == a + k * a
  {
  }

  lemma {:induction false} MulMonotone(k: nat, a: nat, b: nat)
    requires a <= b
    ensures k * a <= k * b
    decreases k
  {
    if k > 0 {
      MulMonotone(k - 1, a, b);
      assert k * a == a + (k - 1) * a;
      assert k * b == b + (k - 1) * b;
    }
  }

  /**
   * When neither the total nor the count has wrapped, the average of the
   * values added to a fresh accumulator is at least their minimum.
   */
  lemma AverageAtLeastMinimum(values: seq<nat>)
    requires values != [] && Sum(values) <= U64_MAX && |values| <= U64_MAX
    ensures Summary(values).minimum <= Average(Summary(values))
  {
    CountTimesMinAtMostSum(values);
    DivLowerBound(Sum(values), |values|, MinOf(values, U64_MAX));
  }

  lemma DivLowerBound(total: nat, count: nat, m: nat)
    requires count > 0 && count * m <= total
    ensures m <= total / count
  {
    var q := total / count;
    assert total < count * q + count;
    MulSucc(q, count);
    if q < m {
      MulMonotone(count, q + 1, m);
    }
  }

  // ---------------------------------------------------------------------
  // The class
  // ---------------------------------------------------------------------

  class StatAccumulator {
    var minimum: nat
    var total: nat
    var count: nat

    function State(): Stat
      reads this
    {
      Stat(minimum, total, count)
    }

    /** Every field fits in a uint64_t. */
    ghost predicate Valid()
      reads this
    {
      InRange(State())
    }

    constructor ()
      ensures Valid() && State() == Empty
    {
      minimum, total, count := U64_MAX, 0, 0;
    }

    method Add(value: nat)
      requires Valid() && value <= U64_MAX
      modifies this
      ensures Valid() && State() == Added(old(State()), value)
    {
      minimum := Min(minimum, value);
      total := Wrap(total + value);
      count := Wrap(count + 1);
    }

    /** `other` is passed by value in the source, so its fields are read before any update. */
    method Combine(other: StatAccumulator)
      requires Valid() && other.Valid()
      modifies this
      ensures Valid() && State() == Combined(old(State()), old(other.State()))
      ensures other != this ==> other.State() == old(other.State())
    {
      var m, t, c := other.minimum, other.total, other.count;
      minimum := Min(minimum, m);
      total := Wrap(total + t);
      count := Wrap(count + c);
    }

    method GetMinimum() returns (m: nat)
      requires Valid()
      ensures m == State().minimum && m <= U64_MAX
    {
      m := minimum;
    }

    method GetAverage() returns (avg: nat)
      requires Valid()
      ensures count == 0 ==> avg == 0
      ensures count > 0 ==> avg * count <= total < (avg + 1) * count
      ensures avg <= U64_MAX && avg == Average(State())
    {
      avg := if count != 0 then total / count else 0;
    }
  }
}
