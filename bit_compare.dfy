/**
 * BGE, BGT, BLE and BLT compare bit patterns: each operand is zero-extended
 * to the widest INTEGER kind and the two are compared unsigned.
 */
module BitComparisons {
  import opened Scalars
  import opened Constants

  /** The values of an INTEGER constant zero-extended to the widest kind. */
  function ZeroExtendConstant(bits: nat, c: Constant<int>): (r: Constant<int>)
    requires 0 < bits <= LargestIntBits
    ensures r.shape == c.shape && |r.values| == |c.values|
    ensures Valid(c) ==> Valid(r)
    ensures forall i :: 0 <= i < |c.values| ==>
      InRange(LargestIntBits, r.values[i]) && Unsigned(LargestIntBits, r.values[i]) == Unsigned(bits, c.values[i])
  {
    Map((v: int) => ZeroExtended(bits, v), c)
  }

  /**
   * Zero-extends every element of an INTEGER constant into a new constant of
   * the widest kind, element by element; the shape is kept.
   */
  method ZeroExtend(bits: nat, c: Constant<int>) returns (r: Constant<int>)
    requires 0 < bits <= LargestIntBits
    ensures r.shape == c.shape && |r.values| == |c.values|
    ensures forall i :: 0 <= i < |c.values| ==>
      InRange(LargestIntBits, r.values[i]) && Unsigned(LargestIntBits, r.values[i]) == Unsigned(bits, c.values[i])
    ensures r == ZeroExtendConstant(bits, c)
  {
    var exts: seq<int> := [];
    for i := 0 to |c.values|
      invariant |exts| == i
      invariant forall j :: 0 <= j < i ==> exts[j] == ZeroExtended(bits, c.values[j])
    {
      exts := exts + [ZeroExtended(bits, c.values[i])];
    }
    r := Constant(exts, c.shape);
  }

  datatype BitRelation = Bge | Bgt | Ble | Blt

  /** The relation between two values of the widest kind, compared unsigned. */
  function BitRelationHolds(rel: BitRelation, i: int, j: int): bool
  {
    var order := CompareUnsigned(i, j);
    match rel
    case Bge => order != Less
    case Bgt => order == Greater
    case Ble => order != Greater
    case Blt => order == Less
  }

  /** The relation each intrinsic names, on unsigned numbers. */
  function UnsignedRelation(rel: BitRelation, a: nat, b: nat): bool
  {
    match rel
    case Bge => a >= b
    case Bgt => a > b
    case Ble => a <= b
    case Blt => a < b
  }

  /** The folded values of BGE..BLT over two constants of the widest kind. */
  function BitCompareValues(rel: BitRelation, x: Constant<int>, y: Constant<int>): (r: Constant<bool>)
    requires Valid(x) && Valid(y) && Conformable(x.shape, y.shape)
    ensures Valid(r) && r.shape == CommonShape(x.shape, y.shape)
    ensures forall i :: 0 <= i < |r.values| ==>
      (r.values[i] <==> UnsignedRelation(rel, Unsigned(LargestIntBits, ElementAt(x, i)),
                                             Unsigned(LargestIntBits, ElementAt(y, i))))
  {
    Map2((i: int, j: int) => BitRelationHolds(rel, i, j), x, y)
  }

  // ----- Properties -----

  /** -1 of kind 1 zero-extends to 255. */
  lemma ZeroExtendMinusOne()
    ensures ZeroExtended(8, -1) == 255
  {
    assert Pow2(8) == 256 by {
      assert Pow2(4) == 16;
    }
    Pow2Monotonic(8, LargestIntBits - 1);
    assert Unsigned(8, -1) == 255;
    ModOfRange(255, Pow2(LargestIntBits));
  }

  /** BGT is the negation of BLE, and BLT the negation of BGE. */
  lemma StrictIsNegatedWeak(i: int, j: int)
    ensures BitRelationHolds(Bgt, i, j) == !BitRelationHolds(Ble, i, j)
    ensures BitRelationHolds(Blt, i, j) == !BitRelationHolds(Bge, i, j)
  {
  }

  /** Swapping the operands turns BGE into BLE and BGT into BLT. */
  lemma BitRelationConverse(i: int, j: int)
    ensures BitRelationHolds(Bge, i, j) == BitRelationHolds(Ble, j, i)
    ensures BitRelationHolds(Bgt, i, j) == BitRelationHolds(Blt, j, i)
  {
  }
}
