/**
 * The expression nodes the logical folder reads and produces: constant leaves
 * of the LOGICAL, INTEGER and COMPLEX categories, BOZ literals, NULL(),
 * relational and logical operator nodes, intrinsic function references, and
 * an opaque leaf for every other expression.
 */
module Expressions {
  import opened Wrappers
  import opened Scalars
  import opened Constants

  /** The declared type of an expression: category, and the bit width for INTEGER. */
  datatype DynamicType = Integer(bits: nat) | Real | Complex | Character | Logical | Derived

  /** The binary logical operators, and Not, which only the unary node carries. */
  datatype LogicalOperator = And | Or | Eqv | Neqv | Not

  /** A COMPLEX scalar, by the bit patterns of its two parts. */
  datatype ComplexValue = ComplexValue(re: int, im: int)

  datatype Expr =
    | LogicalConstant(lc: Constant<bool>)
    | IntegerConstant(bits: nat, ic: Constant<int>)
    | ComplexConstant(cc: Constant<ComplexValue>)
    | BozLiteral(pattern: int)
    | NullPointer
      /** Any other expression: a designator, a REAL or CHARACTER value, a call
          this model does not look into; `actuallyConstant` says whether it is
          a constant. */
    | Opaque(ty: DynamicType, actuallyConstant: bool, id: nat)
    | Relational(opr: RelationalOperator, left: Expr, right: Expr)
    | NotOperation(operand: Expr)
    | LogicalOperation(lop: LogicalOperator, x: Expr, y: Expr)
      /** A reference to a LOGICAL-valued intrinsic function. */
    | FunctionRef(name: string, args: seq<Option<Expr>>)

  /** The typing invariants the typed expression wrappers guarantee. */
  predicate WellFormed(e: Expr)
  {
    match e
    case LogicalConstant(c) => Valid(c)
    case IntegerConstant(bits, c) =>
      IsIntegerKindBits(bits) && Valid(c) && forall i :: 0 <= i < |c.values| ==> InRange(bits, c.values[i])
    case ComplexConstant(c) => Valid(c)
    case BozLiteral(p) => InRange(LargestIntBits, p)
    case NullPointer => true
    case Opaque(ty, _, _) => ty.Integer? ==> IsIntegerKindBits(ty.bits)
    case Relational(_, l, r) => WellFormed(l) && WellFormed(r)
    case NotOperation(x) => WellFormed(x)
    case LogicalOperation(lop, x, y) => lop != Not && WellFormed(x) && WellFormed(y)
    case FunctionRef(_, args) => forall i :: 0 <= i < |args| ==> args[i].Some? ==> WellFormed(args[i].value)
  }

  /** The declared type of an expression; BOZ literals and NULL() have none. */
  function TypeOf(e: Expr): Option<DynamicType>
  {
    match e
    case LogicalConstant(_) => Some(Logical)
    case IntegerConstant(bits, _) => Some(Integer(bits))
    case ComplexConstant(_) => Some(Complex)
    case BozLiteral(_) => None
    case NullPointer => None
    case Opaque(ty, _, _) => Some(ty)
    case Relational(_, _, _) => Some(Logical)
    case NotOperation(_) => Some(Logical)
    case LogicalOperation(_, _, _) => Some(Logical)
    case FunctionRef(_, _) => Some(Logical)
  }

  predicate IsIntegerTyped(e: Expr)
  {
    TypeOf(e).Some? && TypeOf(e).value.Integer?
  }

  predicate IsRealTyped(e: Expr)
  {
    TypeOf(e) == Some(Real)
  }

  predicate IsComplexTyped(e: Expr)
  {
    TypeOf(e) == Some(Complex)
  }

  predicate IsLogicalTyped(e: Expr)
  {
    TypeOf(e) == Some(Logical)
  }

  /** Whether an expression is a constant value (not merely a constant-looking tree). */
  predicate IsActuallyConstant(e: Expr)
  {
    match e
    case LogicalConstant(_) => true
    case IntegerConstant(_, _) => true
    case ComplexConstant(_) => true
    case BozLiteral(_) => true
    case Opaque(_, actuallyConstant, _) => actuallyConstant
    case _ => false
  }

  /** The narrow syntactic test for a NULL() pointer. */
  predicate IsNullPointer(e: Expr)
  {
    e.NullPointer?
  }

  /** The scalar LOGICAL operations AND, OR, EQV and NEQV. */
  function ApplyLogical(lop: LogicalOperator, a: bool, b: bool): bool
    requires lop != Not
  {
    match lop
    case And => a && b
    case Or => a || b
    case Eqv => a == b
    case Neqv => a != b
  }

  function IntegerScalar(bits: nat, v: int): (e: Expr)
    ensures IsIntegerKindBits(bits) && InRange(bits, v) ==> WellFormed(e)
    ensures IsIntegerTyped(e)
  {
    IntegerConstant(bits, ScalarConstant(v))
  }

  function LogicalScalar(b: bool): (e: Expr)
    ensures WellFormed(e) && IsLogicalTyped(e)
  {
    LogicalConstant(ScalarConstant(b))
  }
}
