/**
 * Folding of the relational operators (INTEGER and COMPLEX operands), of
 * .NOT. and of the binary logical operators .AND., .OR., .EQV. and .NEQV.
 * Constant operands of conforming shape fold element-wise to a LOGICAL
 * constant; any other operand leaves the node as it was, never partly folded.
 */
module OperatorFolding {
  import opened Scalars
  import opened Constants
  import opened Expressions

  /** Both operands are INTEGER constants whose shapes conform. */
  predicate IntegerOperands(x: Expr, y: Expr)
  {
    x.IntegerConstant? && y.IntegerConstant? && Conformable(x.ic.shape, y.ic.shape)
  }

  predicate ComplexOperands(x: Expr, y: Expr)
  {
    x.ComplexConstant? && y.ComplexConstant? && Conformable(x.cc.shape, y.cc.shape)
  }

  predicate LogicalOperands(x: Expr, y: Expr)
  {
    x.LogicalConstant? && y.LogicalConstant? && Conformable(x.lc.shape, y.lc.shape)
  }

  /** A relation between INTEGER operands, folded by signed comparison. */
  function FoldIntegerRelational(opr: RelationalOperator, x: Expr, y: Expr): (r: Expr)
    requires WellFormed(x) && WellFormed(y) && IsIntegerTyped(x) && IsIntegerTyped(y)
    ensures WellFormed(r) && IsLogicalTyped(r)
    ensures r.LogicalConstant? <==> IntegerOperands(x, y)
    ensures !IntegerOperands(x, y) ==> r == Relational(opr, x, y)
    ensures IntegerOperands(x, y) ==>
      r.lc.shape == CommonShape(x.ic.shape, y.ic.shape) &&
      forall i :: 0 <= i < |r.lc.values| ==>
        (r.lc.values[i] <==> Holds(opr, ElementAt(x.ic, i), ElementAt(y.ic, i)))
  {
    if IntegerOperands(x, y) then
      LogicalConstant(Map2((a: int, b: int) => Satisfies(opr, CompareSigned(a, b)), x.ic, y.ic))
    else
      Relational(opr, x, y)
  }

  /**
   * A relation between COMPLEX operands: true exactly when "the operator is
   * EQ" agrees with the operands' equality, so every operator other than EQ
   * behaves as NE.
   */
  function FoldComplexRelational(opr: RelationalOperator, x: Expr, y: Expr,
                                 equals: (ComplexValue, ComplexValue) -> bool): (r: Expr)
    requires WellFormed(x) && WellFormed(y) && IsComplexTyped(x) && IsComplexTyped(y)
    ensures WellFormed(r) && IsLogicalTyped(r)
    ensures r.LogicalConstant? <==> ComplexOperands(x, y)
    ensures !ComplexOperands(x, y) ==> r == Relational(opr, x, y)
    ensures ComplexOperands(x, y) ==>
      r.lc.shape == CommonShape(x.cc.shape, y.cc.shape) &&
      forall i :: 0 <= i < |r.lc.values| ==>
        (r.lc.values[i] <==> (opr == EQ <==> equals(ElementAt(x.cc, i), ElementAt(y.cc, i))))
  {
    if ComplexOperands(x, y) then
      LogicalConstant(Map2((a: ComplexValue, b: ComplexValue) => (opr == EQ) == equals(a, b), x.cc, y.cc))
    else
      Relational(opr, x, y)
  }

  /** .NOT. of a constant negates every element; any other operand is left as is. */
  function FoldNot(x: Expr): (r: Expr)
    requires WellFormed(x) && IsLogicalTyped(x)
    ensures WellFormed(r) && IsLogicalTyped(r)
    ensures r.LogicalConstant? <==> x.LogicalConstant?
    ensures !x.LogicalConstant? ==> r == NotOperation(x)
    ensures x.LogicalConstant? ==>
      r.lc.shape == x.lc.shape && |r.lc.values| == |x.lc.values| &&
      forall i :: 0 <= i < |x.lc.values| ==> r.lc.values[i] != x.lc.values[i]
  {
    if x.LogicalConstant? then
      LogicalConstant(Map((b: bool) => !b, x.lc))
    else
      NotOperation(x)
  }

  /** A binary logical operation, folded by its truth table. */
  function FoldLogicalOperation(lop: LogicalOperator, x: Expr, y: Expr): (r: Expr)
    requires lop != Not
    requires WellFormed(x) && WellFormed(y) && IsLogicalTyped(x) && IsLogicalTyped(y)
    ensures WellFormed(r) && IsLogicalTyped(r)
    ensures r.LogicalConstant? <==> LogicalOperands(x, y)
    ensures !LogicalOperands(x, y) ==> r == LogicalOperation(lop, x, y)
    ensures LogicalOperands(x, y) ==>
      r.lc.shape == CommonShape(x.lc.shape, y.lc.shape) &&
      forall i :: 0 <= i < |r.lc.values| ==>
        r.lc.values[i] == ApplyLogical(lop, ElementAt(x.lc, i), ElementAt(y.lc, i))
  {
    if LogicalOperands(x, y) then
      LogicalConstant(Map2((a: bool, b: bool) => ApplyLogical(lop, a, b), x.lc, y.lc))
    else
      LogicalOperation(lop, x, y)
  }

  // ----- Properties -----

  /** Two INTEGER scalars of one kind compare as the mathematical integers they are. */
  lemma IntegerRelationalScalar(opr: RelationalOperator, bits: nat, a: int, b: int)
    requires IsIntegerKindBits(bits) && InRange(bits, a) && InRange(bits, b)
    ensures FoldIntegerRelational(opr, IntegerScalar(bits, a), IntegerScalar(bits, b))
         == LogicalScalar(Holds(opr, a, b))
  {
    var r := FoldIntegerRelational(opr, IntegerScalar(bits, a), IntegerScalar(bits, b));
    assert r.lc.values == [Holds(opr, a, b)];
  }

  /** Swapping the operands and the operator gives the same folded constant. */
  lemma IntegerRelationalConverse(opr: RelationalOperator, x: Expr, y: Expr)
    requires WellFormed(x) && WellFormed(y) && IntegerOperands(x, y)
    ensures FoldIntegerRelational(opr, x, y) == FoldIntegerRelational(Converse(opr), y, x)
  {
    var r := FoldIntegerRelational(opr, x, y);
    var s := FoldIntegerRelational(Converse(opr), y, x);
    assert r.lc.values == s.lc.values;
  }

  /** For COMPLEX operands NE folds to the negation of EQ. */
  lemma ComplexNotEqualIsNotEqual(x: Expr, y: Expr, equals: (ComplexValue, ComplexValue) -> bool)
    requires WellFormed(x) && WellFormed(y) && ComplexOperands(x, y)
    ensures FoldComplexRelational(NE, x, y, equals) == FoldNot(FoldComplexRelational(EQ, x, y, equals))
  {
    var r := FoldComplexRelational(NE, x, y, equals);
    var s := FoldNot(FoldComplexRelational(EQ, x, y, equals));
    assert r.lc.values == s.lc.values;
  }

  /** Folding .NOT. twice gives back a constant; a non-constant is wrapped twice, unfolded. */
  lemma NotInvolution(x: Expr)
    requires WellFormed(x) && IsLogicalTyped(x)
    ensures x.LogicalConstant? ==> FoldNot(FoldNot(x)) == x
    ensures !x.LogicalConstant? ==> FoldNot(FoldNot(x)) == NotOperation(NotOperation(x))
  {
    if x.LogicalConstant? {
      assert FoldNot(FoldNot(x)).lc.values == x.lc.values;
    }
  }

  /** The truth table of the binary operators on scalar constants. */
  lemma LogicalTruthTable(a: bool, b: bool)
    ensures FoldLogicalOperation(And, LogicalScalar(a), LogicalScalar(b)) == LogicalScalar(a && b)
    ensures FoldLogicalOperation(Or, LogicalScalar(a), LogicalScalar(b)) == LogicalScalar(a || b)
    ensures FoldLogicalOperation(Eqv, LogicalScalar(a), LogicalScalar(b)) == LogicalScalar(a == b)
    ensures FoldLogicalOperation(Neqv, LogicalScalar(a), LogicalScalar(b)) == LogicalScalar(a != b)
  {
    assert FoldLogicalOperation(And, LogicalScalar(a), LogicalScalar(b)).lc.values == [a && b];
    assert FoldLogicalOperation(Or, LogicalScalar(a), LogicalScalar(b)).lc.values == [a || b];
    assert FoldLogicalOperation(Eqv, LogicalScalar(a), LogicalScalar(b)).lc.values == [a == b];
    assert FoldLogicalOperation(Neqv, LogicalScalar(a), LogicalScalar(b)).lc.values == [a != b];
  }

  /** .EQV. folds to the negation of .NEQV. */
  lemma EqvIsNotNeqv(x: Expr, y: Expr)
    requires WellFormed(x) && WellFormed(y) && LogicalOperands(x, y)
    ensures FoldLogicalOperation(Eqv, x, y) == FoldNot(FoldLogicalOperation(Neqv, x, y))
  {
    var r := FoldLogicalOperation(Eqv, x, y);
    var s := FoldNot(FoldLogicalOperation(Neqv, x, y));
    assert r.lc.values == s.lc.values;
  }

  /** De Morgan's law between the folded .AND., .OR. and .NOT. */
  lemma AndIsNotOrOfNots(x: Expr, y: Expr)
    requires WellFormed(x) && WellFormed(y) && LogicalOperands(x, y)
    ensures FoldLogicalOperation(And, x, y) == FoldNot(FoldLogicalOperation(Or, FoldNot(x), FoldNot(y)))
  {
    var r := FoldLogicalOperation(And, x, y);
    var s := FoldNot(FoldLogicalOperation(Or, FoldNot(x), FoldNot(y)));
    assert r.lc.values == s.lc.values;
  }
}
