/**
 * The whole-array reduction behind ALL, ANY and PARITY: the operator is
 * accumulated over the array's elements in element order, starting from the
 * operator's identity; elements excluded by a mask take the identity's place.
 */
module Reductions {
  import opened Wrappers
  import opened Expressions

  /** `identity` is a neutral element of the operator (AND/true, OR/false, NEQV/false, EQV/true). */
  predicate IsIdentity(op: LogicalOperator, identity: bool)
  {
    match op
    case And => identity
    case Or => !identity
    case Eqv => identity
    case Neqv => !identity
    case Not => false
  }

  /** The left fold of the operator over the values, seeded with `identity`. */
  function Accumulate(op: LogicalOperator, identity: bool, values: seq<bool>): bool
    requires op != Not
  {
    if values == [] then identity
    else ApplyLogical(op, Accumulate(op, identity, values[..|values| - 1]), values[|values| - 1])
  }

  /** The values whose mask element is true, in order. */
  function Kept(values: seq<bool>, mask: seq<bool>): (k: seq<bool>)
    requires |mask| == |values|
    ensures |k| <= |values|
  {
    if values == [] then []
    else
      var n := |values| - 1;
      Kept(values[..n], mask[..n]) + (if mask[n] then [values[n]] else [])
  }

  /** An absent MASK keeps every element. */
  function EffectiveMask(values: seq<bool>, mask: Option<seq<bool>>): (m: seq<bool>)
    requires mask.Some? ==> |mask.value| == |values|
    ensures |m| == |values|
  {
    if mask.Some? then mask.value else seq(|values|, _ => true)
  }

  /** Reduces a whole array (no DIM) to one value, skipping masked elements. */
  method ReduceWhole(op: LogicalOperator, identity: bool, values: seq<bool>, mask: Option<seq<bool>>)
    returns (r: bool)
    requires op != Not && IsIdentity(op, identity)
    requires mask.Some? ==> |mask.value| == |values|
    ensures r == Accumulate(op, identity, Kept(values, EffectiveMask(values, mask)))
  {
    var m := EffectiveMask(values, mask);
    r := identity;
    var i := 0;
    while i < |values|
      invariant 0 <= i <= |values|
      invariant r == Accumulate(op, identity, Kept(values[..i], m[..i]))
    {
      // a masked element is replaced by the identity, which leaves the accumulator as it is
      var element := if m[i] then values[i] else identity;
      KeptStep(values, m, i);
      AccumulateStep(op, identity, Kept(values[..i], m[..i]), m[i], values[i]);
      r := ApplyLogical(op, r, element);
      i := i + 1;
    }
    assert values[..i] == values && m[..i] == m;
  }

  /** Extending the prefix by one element extends what is kept by that element, if it is kept. */
  lemma KeptStep(values: seq<bool>, m: seq<bool>, i: nat)
    requires |m| == |values| && i < |values|
    ensures Kept(values[..i + 1], m[..i + 1]) == Kept(values[..i], m[..i]) + (if m[i] then [values[i]] else [])
  {
    assert values[..i + 1][..i] == values[..i] && m[..i + 1][..i] == m[..i];
  }

  /** Accumulating a masked element is accumulating the identity. */
  lemma AccumulateStep(op: LogicalOperator, identity: bool, before: seq<bool>, keep: bool, v: bool)
    requires op != Not && IsIdentity(op, identity)
    ensures Accumulate(op, identity, before + (if keep then [v] else []))
         == ApplyLogical(op, Accumulate(op, identity, before), if keep then v else identity)
  {
    if keep {
      assert (before + [v])[..|before|] == before;
    } else {
      assert before + [] == before;
    }
  }

  // ----- Properties -----

  /** The AND reduction seeded with true is true exactly when every element is. */
  lemma {:induction false} AllMeansEvery(values: seq<bool>)
    ensures Accumulate(And, true, values) <==> forall i :: 0 <= i < |values| ==> values[i]
  {
    if values != [] {
      var n := |values| - 1;
      AllMeansEvery(values[..n]);
      assert forall i :: 0 <= i < n ==> values[..n][i] == values[i];
    }
  }

  /** The OR reduction seeded with false is true exactly when some element is. */
  lemma {:induction false} AnyMeansSome(values: seq<bool>)
    ensures Accumulate(Or, false, values) <==> exists i :: 0 <= i < |values| && values[i]
  {
    if values != [] {
      var n := |values| - 1;
      AnyMeansSome(values[..n]);
      assert forall i :: 0 <= i < n ==> values[..n][i] == values[i];
    }
  }

  /** The NEQV reduction seeded with false is true exactly when an odd number of elements are. */
  lemma {:induction false} ParityMeansOddCount(values: seq<bool>)
    ensures Accumulate(Neqv, false, values) <==> multiset(values)[true] % 2 == 1
  {
    if values != [] {
      var n := |values| - 1;
      ParityMeansOddCount(values[..n]);
      assert values == values[..n] + [values[n]];
      assert multiset(values) == multiset(values[..n]) + multiset{values[n]};
    }
  }

  /** Without a mask every element takes part, in order. */
  lemma {:induction false} NoMaskKeepsAll(values: seq<bool>)
    ensures Kept(values, EffectiveMask(values, None)) == values
  {
    if values != [] {
      var n := |values| - 1;
      var m := EffectiveMask(values, None);
      assert m[..n] == EffectiveMask(values[..n], None);
      NoMaskKeepsAll(values[..n]);
      assert values == values[..n] + [values[n]];
    }
  }

  /** A fully masked array keeps nothing, so its reduction is the identity. */
  lemma {:induction false} FullyMaskedKeepsNothing(values: seq<bool>, mask: seq<bool>)
    requires |mask| == |values|
    requires forall i :: 0 <= i < |mask| ==> !mask[i]
    ensures Kept(values, mask) == []
  {
    if values != [] {
      var n := |values| - 1;
      FullyMaskedKeepsNothing(values[..n], mask[..n]);
    }
  }
}
