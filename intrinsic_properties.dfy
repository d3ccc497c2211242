/**
 * What the intrinsic folder promises, stated over its specification
 * functions for all inputs of each shape of call.
 */
module IntrinsicProperties {
  import opened Wrappers
  import opened Scalars
  import opened Constants
  import opened Expressions
  import opened Reductions
  import opened BitComparisons
  import opened IntrinsicFolding

  // ----- ALL, ANY, PARITY -----

  lemma DispatchReduction(name: string, args: Arguments, fold: Expr -> Expr,
                          elsewhere: (string, Arguments) -> Expr)
    requires CallerGuarantees(name, args) && IsReductionName(name)
    ensures FoldIntrinsic(name, args, fold, elsewhere) == FoldAllAnyParity(name, args, elsewhere)
  {
  }

  /** With no DIM, the fold reduces every element of the constant MASK, in order, from the identity. */
  lemma ReductionOfWholeArray(name: string, c: Constant<bool>, fold: Expr -> Expr,
                              elsewhere: (string, Arguments) -> Expr)
    requires IsReductionName(name) && Valid(c)
    ensures var out := FoldIntrinsic(name, [Some(LogicalConstant(c)), None], fold, elsewhere);
      out.messages == [] && out.args == [Some(LogicalConstant(c)), None] &&
      out.result == LogicalScalar(Accumulate(ReductionOperator(name), ReductionIdentity(name), c.values))
  {
    var args := [Some(LogicalConstant(c)), None];
    assert ArgumentsWellFormed(args) by {
      assert WellFormed(LogicalConstant(c));
    }
    assert MinimumArgumentCount(name) == 2;
    DispatchReduction(name, args, fold, elsewhere);
  }

  /** With no DIM, ALL is "every element", ANY "some element", PARITY "an odd count of true elements". */
  lemma ReductionMeaning(name: string, c: Constant<bool>, fold: Expr -> Expr,
                         elsewhere: (string, Arguments) -> Expr)
    requires IsReductionName(name) && Valid(c)
    ensures var out := FoldIntrinsic(name, [Some(LogicalConstant(c)), None], fold, elsewhere);
      out.messages == [] && out.args == [Some(LogicalConstant(c)), None] &&
      out.result == LogicalScalar(
        if name == "all" then forall i :: 0 <= i < |c.values| ==> c.values[i]
        else if name == "any" then exists i :: 0 <= i < |c.values| && c.values[i]
        else multiset(c.values)[true] % 2 == 1)
  {
    ReductionOfWholeArray(name, c, fold, elsewhere);
    if name == "all" {
      AllMeansEvery(c.values);
    } else if name == "any" {
      AnyMeansSome(c.values);
    } else {
      ParityMeansOddCount(c.values);
    }
  }

  /** ALL, ANY and PARITY of an empty array fold to their identities: .TRUE., .FALSE., .FALSE. */
  lemma ReductionOfEmptyIsIdentity(name: string, shape: seq<nat>, fold: Expr -> Expr,
                                   elsewhere: (string, Arguments) -> Expr)
    requires IsReductionName(name) && Size(shape) == 0
    ensures FoldIntrinsic(name, [Some(LogicalConstant(Constant([], shape))), None], fold, elsewhere).result
         == LogicalScalar(name == "all")
  {
    ReductionMeaning(name, Constant([], shape), fold, elsewhere);
  }

  /** ALL([T,T,F]) is .FALSE.: one element is false. */
  lemma AllExample(fold: Expr -> Expr, elsewhere: (string, Arguments) -> Expr)
    ensures FoldIntrinsic("all", [Some(LogicalConstant(Constant([true, true, false], [3]))), None], fold, elsewhere).result == LogicalScalar(false)
  {
    ReductionMeaning("all", Constant([true, true, false], [3]), fold, elsewhere);
    assert ![true, true, false][2];
  }

  /** ANY([F,F,T]) is .TRUE.: one element is true. */
  lemma AnyExample(fold: Expr -> Expr, elsewhere: (string, Arguments) -> Expr)
    ensures FoldIntrinsic("any", [Some(LogicalConstant(Constant([false, false, true], [3]))), None], fold, elsewhere).result == LogicalScalar(true)
  {
    ReductionMeaning("any", Constant([false, false, true], [3]), fold, elsewhere);
    assert [false, false, true][2];
  }

  /** PARITY([T,T,F]) is .FALSE.: the number of true elements, two, is even. */
  lemma ParityExample(fold: Expr -> Expr, elsewhere: (string, Arguments) -> Expr)
    ensures FoldIntrinsic("parity", [Some(LogicalConstant(Constant([true, true, false], [3]))), None], fold, elsewhere).result == LogicalScalar(false)
  {
    ReductionMeaning("parity", Constant([true, true, false], [3]), fold, elsewhere);
    assert multiset([true, true, false])[true] == 2;
  }

  /** A MASK argument that is not a constant leaves the reference as it is. */
  lemma ReductionOfNonConstantIsUnchanged(name: string, a: Option<Expr>, fold: Expr -> Expr,
                                          elsewhere: (string, Arguments) -> Expr)
    requires IsReductionName(name) && (a.Some? ==> WellFormed(a.value))
    requires !(a.Some? && a.value.LogicalConstant?)
    ensures FoldIntrinsic(name, [a, None], fold, elsewhere) == Unchanged(name, [a, None])
  {
  }

  // ----- ASSOCIATED -----

  /** ASSOCIATED folds, to .FALSE., exactly when its pointer argument is NULL() and its target argument is absent or NULL(). */
  lemma AssociatedFoldsOnlyNullPointers(p: Expr, t: Option<Expr>, fold: Expr -> Expr,
                                        elsewhere: (string, Arguments) -> Expr)
    requires WellFormed(p) && (t.Some? ==> WellFormed(t.value))
    ensures var out := FoldIntrinsic("associated", [Some(p), t], fold, elsewhere);
      (out.result == LogicalScalar(false) <==> p.NullPointer? && (t.None? || t.value.NullPointer?)) &&
      (out.result != LogicalScalar(false) ==> out == Unchanged("associated", [Some(p), t]))
  {
  }

  // ----- BGE, BGT, BLE, BLT -----

  /** The branch of FoldIntrinsic each family of names takes. */
  lemma DispatchBitCompare(name: string, args: Arguments, fold: Expr -> Expr,
                           elsewhere: (string, Arguments) -> Expr)
    requires CallerGuarantees(name, args) && IsBitCompareName(name)
    ensures FoldIntrinsic(name, args, fold, elsewhere) == FoldBitCompare(name, args)
  {
  }

  /** The status code each IS_IOSTAT intrinsic tests for. */
  function Sentinel(name: string): int
  {
    if name == "is_iostat_end" then IostatEnd else IostatEor
  }

  lemma DispatchIostat(name: string, args: Arguments, fold: Expr -> Expr,
                       elsewhere: (string, Arguments) -> Expr)
    requires CallerGuarantees(name, args) && (name == "is_iostat_end" || name == "is_iostat_eor")
    ensures FoldIntrinsic(name, args, fold, elsewhere) == FoldIostat(name, Sentinel(name), args)
  {
  }

  lemma ZeroExtendScalar(k: nat, a: int)
    requires 0 < k <= LargestIntBits
    ensures ZeroExtendConstant(k, ScalarConstant(a)) == ScalarConstant(ZeroExtended(k, a))
  {
    assert ZeroExtendConstant(k, ScalarConstant(a)).values == [ZeroExtended(k, a)];
  }

  lemma BitCompareValuesScalar(rel: BitRelation, i: int, j: int)
    ensures BitCompareValues(rel, ScalarConstant(i), ScalarConstant(j))
         == ScalarConstant(UnsignedRelation(rel, Unsigned(LargestIntBits, i), Unsigned(LargestIntBits, j)))
  {
    var v := BitCompareValues(rel, ScalarConstant(i), ScalarConstant(j));
    assert v.values == [UnsignedRelation(rel, Unsigned(LargestIntBits, i), Unsigned(LargestIntBits, j))];
  }

  lemma BitCompareScalarsFold(name: string, ka: nat, a: int, kb: nat, b: int)
    requires IsBitCompareName(name)
    requires IsIntegerKindBits(ka) && InRange(ka, a) && IsIntegerKindBits(kb) && InRange(kb, b)
    ensures var out := FoldBitCompare(name, [Some(IntegerScalar(ka, a)), Some(IntegerScalar(kb, b))]);
      out.result == LogicalScalar(UnsignedRelation(BitRelationOf(name), Unsigned(ka, a), Unsigned(kb, b))) &&
      out.args == [Some(IntegerScalar(LargestIntBits, ZeroExtended(ka, a))),
                   Some(IntegerScalar(LargestIntBits, ZeroExtended(kb, b)))] &&
      out.messages == []
  {
    var args := [Some(IntegerScalar(ka, a)), Some(IntegerScalar(kb, b))];
    ZeroExtendScalar(ka, a);
    ZeroExtendScalar(kb, b);
    var za := ZeroExtended(ka, a);
    var zb := ZeroExtended(kb, b);
    assert WidestConstant(args[0]) == Some(ScalarConstant(za));
    assert WidestConstant(args[1]) == Some(ScalarConstant(zb));
    BitCompareValuesScalar(BitRelationOf(name), za, zb);
  }

  /**
   * On INTEGER scalars of any two kinds the fold compares the operands' bit
   * patterns as unsigned numbers, after writing the zero-extended constants
   * into both argument slots.
   */
  lemma BitCompareOfIntegerScalars(name: string, ka: nat, a: int, kb: nat, b: int,
                                   fold: Expr -> Expr, elsewhere: (string, Arguments) -> Expr)
    requires IsBitCompareName(name)
    requires IsIntegerKindBits(ka) && InRange(ka, a) && IsIntegerKindBits(kb) && InRange(kb, b)
    ensures var out := FoldIntrinsic(name, [Some(IntegerScalar(ka, a)), Some(IntegerScalar(kb, b))], fold, elsewhere);
      out.result == LogicalScalar(UnsignedRelation(BitRelationOf(name), Unsigned(ka, a), Unsigned(kb, b))) &&
      out.args == [Some(IntegerScalar(LargestIntBits, ZeroExtended(ka, a))),
                   Some(IntegerScalar(LargestIntBits, ZeroExtended(kb, b)))] &&
      out.messages == []
  {
    DispatchBitCompare(name, [Some(IntegerScalar(ka, a)), Some(IntegerScalar(kb, b))], fold, elsewhere);
    BitCompareScalarsFold(name, ka, a, kb, b);
  }

  /** BGE(-1_1, 1_8) folds to .TRUE.: -1 of kind 1 has the pattern 255. */
  lemma BgeOfMinusOneAndOne(fold: Expr -> Expr, elsewhere: (string, Arguments) -> Expr)
    ensures FoldIntrinsic("bge", [Some(IntegerScalar(8, -1)), Some(IntegerScalar(64, 1))], fold, elsewhere).result
         == LogicalScalar(true)
  {
    BitCompareOfIntegerScalars("bge", 8, -1, 64, 1, fold, elsewhere);
    ZeroExtendMinusOne();
    assert Unsigned(8, -1) == 255;
    Pow2Monotonic(1, 64);
    ModOfRange(1, Pow2(64));
  }

  /** The shape of a BGE..BLT operand: a BOZ literal is a scalar. */
  function OperandShape(e: Expr): seq<nat>
    requires e.BozLiteral? || e.IntegerConstant?
  {
    if e.BozLiteral? then [] else e.ic.shape
  }

  /**
   * Element i of a BGE..BLT operand read as an unsigned number: a BOZ
   * literal's 128-bit pattern, an INTEGER element's pattern at its own kind.
   */
  function OperandReading(e: Expr, i: nat): nat
    requires WellFormed(e) && (e.BozLiteral? || e.IntegerConstant?)
    requires e.BozLiteral? || e.ic.shape == [] || i < |e.ic.values|
  {
    if e.BozLiteral? then Unsigned(LargestIntBits, e.pattern) else Unsigned(e.bits, ElementAt(e.ic, i))
  }

  /** Element i of an operand's widest-kind constant has the operand's own unsigned reading. */
  lemma WidestElement(e: Expr, i: nat)
    requires WellFormed(e) && (e.BozLiteral? || e.IntegerConstant?)
    requires e.BozLiteral? || e.ic.shape == [] || i < |e.ic.values|
    ensures var w := WidestConstant(Some(e)).value;
      Valid(w) && w.shape == OperandShape(e) && (w.shape == [] || i < |w.values|) &&
      Unsigned(LargestIntBits, ElementAt(w, i)) == OperandReading(e, i)
  {
  }

  /**
   * BGE..BLT of two BOZ literals or INTEGER constants of conforming shape, of
   * any kinds, fold element-wise: element i is the relation between the
   * operands' element i read as unsigned numbers, a scalar standing for every
   * element.
   */
  lemma BitCompareOfConstants(name: string, a0: Expr, a1: Expr)
    requires IsBitCompareName(name)
    requires WellFormed(a0) && WellFormed(a1) && IsBitOperand(Some(a0)) && IsBitOperand(Some(a1))
    requires Conformable(OperandShape(a0), OperandShape(a1))
    ensures var out := FoldBitCompare(name, [Some(a0), Some(a1)]);
      var shape := CommonShape(OperandShape(a0), OperandShape(a1));
      out.messages == [] && out.result.LogicalConstant? &&
      out.result.lc.shape == shape && |out.result.lc.values| == Size(shape) &&
      forall i :: 0 <= i < Size(shape) ==>
        (out.result.lc.values[i] <==>
           UnsignedRelation(BitRelationOf(name), OperandReading(a0, i), OperandReading(a1, i)))
  {
    var args := [Some(a0), Some(a1)];
    var w0 := WidestConstant(args[0]).value;
    var w1 := WidestConstant(args[1]).value;
    var v := BitCompareValues(BitRelationOf(name), w0, w1);
    assert FoldBitCompare(name, args).result == LogicalConstant(v);
    forall i | 0 <= i < Size(CommonShape(OperandShape(a0), OperandShape(a1)))
      ensures v.values[i] <==> UnsignedRelation(BitRelationOf(name), OperandReading(a0, i), OperandReading(a1, i))
    {
      WidestElement(a0, i);
      WidestElement(a1, i);
    }
  }

  /** The same through the dispatcher. */
  lemma BitCompareOfConstantsFolds(name: string, a0: Expr, a1: Expr, fold: Expr -> Expr,
                                   elsewhere: (string, Arguments) -> Expr)
    requires IsBitCompareName(name)
    requires WellFormed(a0) && WellFormed(a1) && IsBitOperand(Some(a0)) && IsBitOperand(Some(a1))
    requires Conformable(OperandShape(a0), OperandShape(a1))
    ensures var out := FoldIntrinsic(name, [Some(a0), Some(a1)], fold, elsewhere);
      var shape := CommonShape(OperandShape(a0), OperandShape(a1));
      out.messages == [] && out.result.LogicalConstant? &&
      out.result.lc.shape == shape && |out.result.lc.values| == Size(shape) &&
      forall i :: 0 <= i < Size(shape) ==>
        (out.result.lc.values[i] <==>
           UnsignedRelation(BitRelationOf(name), OperandReading(a0, i), OperandReading(a1, i)))
  {
    assert MinimumArgumentCount(name) == 2;
    DispatchBitCompare(name, [Some(a0), Some(a1)], fold, elsewhere);
    BitCompareOfConstants(name, a0, a1);
  }

  /** BGE(Z'FF', -1_1) folds to .TRUE.: both operands have the pattern 255. */
  lemma BgeOfBozAndMinusOne(fold: Expr -> Expr, elsewhere: (string, Arguments) -> Expr)
    ensures FoldIntrinsic("bge", [Some(BozLiteral(255)), Some(IntegerScalar(8, -1))], fold, elsewhere).result
         == LogicalScalar(true)
  {
    var args := [Some(BozLiteral(255)), Some(IntegerScalar(8, -1))];
    BozAndMinusOneReadAlike();
    assert WellFormed(BozLiteral(255));
    BitCompareOfConstants("bge", BozLiteral(255), IntegerScalar(8, -1));
    assert FoldBitCompare("bge", args).result.lc.values == [true];
    assert MinimumArgumentCount("bge") == 2;
    DispatchBitCompare("bge", args, fold, elsewhere);
  }

  /** Z'FF' and -1 of kind 1 both read as 255. */
  lemma BozAndMinusOneReadAlike()
    ensures Unsigned(LargestIntBits, 255) == 255 && Unsigned(8, -1) == 255
  {
    assert Pow2(8) == 256 by {
      assert Pow2(4) == 16;
    }
    Pow2Monotonic(8, LargestIntBits);
    ModOfRange(255, Pow2(LargestIntBits));
  }

  /** BGE..BLT fold only when both arguments are constants; otherwise nothing, not even the arguments, changes. */
  lemma BitCompareNeedsTwoConstants(name: string, a0: Option<Expr>, a1: Option<Expr>,
                                    fold: Expr -> Expr, elsewhere: (string, Arguments) -> Expr)
    requires IsBitCompareName(name)
    requires (a0.Some? ==> WellFormed(a0.value)) && (a1.Some? ==> WellFormed(a1.value))
    ensures var out := FoldIntrinsic(name, [a0, a1], fold, elsewhere);
      (out.result.LogicalConstant? ==> IsBitOperand(a0) && IsBitOperand(a1)) &&
      (!(IsBitOperand(a0) && IsBitOperand(a1)) ==> out == Unchanged(name, [a0, a1]))
  {
  }

  // ----- BTEST -----

  /**
   * BTEST of two INTEGER scalars always folds to the bit test; a position
   * outside [0, bits) reports exactly one diagnostic and tests .FALSE.
   */
  lemma BtestOfScalars(bits: nat, x: int, pbits: nat, p: int, fold: Expr -> Expr,
                       elsewhere: (string, Arguments) -> Expr)
    requires IsIntegerKindBits(bits) && InRange(bits, x) && IsIntegerKindBits(pbits) && InRange(pbits, p)
    ensures var out := FoldIntrinsic("btest", [Some(IntegerScalar(bits, x)), Some(IntegerScalar(pbits, p))], fold, elsewhere);
      out.result == LogicalScalar(BitTest(bits, x, p)) &&
      out.messages == (if PosOutside(bits, p) then [PosOutOfRange(p)] else []) &&
      (PosOutside(bits, p) ==> out.result == LogicalScalar(false))
  {
    var args := [Some(IntegerScalar(bits, x)), Some(IntegerScalar(pbits, p))];
    assert BtestOperands(args);
    assert FoldIntrinsic("btest", args, fold, elsewhere) == FoldBtest(args);
    var v := BtestValues(bits, ScalarConstant(x), ScalarConstant(p));
    assert v.values == [BitTest(bits, x, p)];
    assert BtestMessages(bits, ScalarConstant(x), ScalarConstant(p), 1)
        == (if PosOutside(bits, p) then [PosOutOfRange(p)] else []);
  }

  /** BTEST of the top bit of an INTEGER scalar is its sign. */
  lemma BtestOfTopBitIsSign(bits: nat, x: int, pbits: nat, fold: Expr -> Expr,
                            elsewhere: (string, Arguments) -> Expr)
    requires IsIntegerKindBits(bits) && InRange(bits, x) && IsIntegerKindBits(pbits) && InRange(pbits, bits - 1)
    ensures FoldIntrinsic("btest", [Some(IntegerScalar(bits, x)), Some(IntegerScalar(pbits, bits - 1))], fold, elsewhere).result
         == LogicalScalar(x < 0)
  {
    BtestOfScalars(bits, x, pbits, bits - 1, fold, elsewhere);
    SignBit(bits, x);
  }

  /** The element indices whose position lies outside [0, bits). */
  function OutsideIndices(bits: nat, pos: Constant<int>, n: nat): set<nat>
    requires Valid(pos) && (pos.shape == [] || n <= |pos.values|)
  {
    set i: nat | i < n && PosOutside(bits, ElementAt(pos, i))
  }

  /** Counting one more element adds its index exactly when its position is outside. */
  lemma OutsideIndicesStep(bits: nat, pos: Constant<int>, n: nat)
    requires Valid(pos) && 0 < n && (pos.shape == [] || n <= |pos.values|)
    ensures n - 1 !in OutsideIndices(bits, pos, n - 1)
    ensures OutsideIndices(bits, pos, n)
         == OutsideIndices(bits, pos, n - 1) + (if PosOutside(bits, ElementAt(pos, n - 1)) then {n - 1} else {})
  {
  }

  lemma {:induction false} BtestMessagesCount(bits: nat, x: Constant<int>, pos: Constant<int>, n: nat)
    requires Valid(x) && Valid(pos) && Conformable(x.shape, pos.shape)
    requires n <= Size(CommonShape(x.shape, pos.shape))
    ensures |BtestMessages(bits, x, pos, n)| == |OutsideIndices(bits, pos, n)|
    ensures forall m :: m in BtestMessages(bits, x, pos, n) ==> PosOutside(bits, m.pos)
  {
    if n > 0 {
      BtestMessagesCount(bits, x, pos, n - 1);
      OutsideIndicesStep(bits, pos, n);
    }
  }

  /** BTEST of constant arrays folds, with exactly one diagnostic per out-of-range element. */
  lemma BtestOneMessagePerOutOfRangeElement(x: Expr, pos: Expr, fold: Expr -> Expr,
                                            elsewhere: (string, Arguments) -> Expr)
    requires WellFormed(x) && WellFormed(pos) && BtestOperands([Some(x), Some(pos)])
    ensures var out := FoldIntrinsic("btest", [Some(x), Some(pos)], fold, elsewhere);
      var n := Size(CommonShape(x.ic.shape, pos.ic.shape));
      out.result == LogicalConstant(BtestValues(x.bits, x.ic, pos.ic)) &&
      |out.messages| == |OutsideIndices(x.bits, pos.ic, n)| &&
      forall m :: m in out.messages ==> PosOutside(x.bits, m.pos)
  {
    BtestMessagesCount(x.bits, x.ic, pos.ic, Size(CommonShape(x.ic.shape, pos.ic.shape)));
  }

  // ----- IS_IOSTAT_END, IS_IOSTAT_EOR -----

  lemma IostatValuesScalar(v: int, sentinel: int)
    requires InRange(64, sentinel)
    ensures IostatValues(sentinel, ScalarConstant(v)) == ScalarConstant(Unsigned(64, v) == Unsigned(64, sentinel))
  {
    assert IostatValues(sentinel, ScalarConstant(v)).values == [Unsigned(64, v) == Unsigned(64, sentinel)];
  }

  /** A single well-formed argument meets what an IS_IOSTAT call needs. */
  lemma IostatArgumentsGuaranteed(name: string, e: Expr)
    requires name == "is_iostat_end" || name == "is_iostat_eor"
    requires WellFormed(e)
    ensures CallerGuarantees(name, [Some(e)])
  {
    assert MinimumArgumentCount(name) == 1;
  }

  /** IS_IOSTAT_END/EOR of an INTEGER scalar compares low 64-bit patterns. */
  lemma IostatFoldScalar(name: string, bits: nat, v: int)
    requires IsIntegerKindBits(bits) && InRange(bits, v) && InRange(64, Sentinel(name))
    ensures FoldIostat(name, Sentinel(name), [Some(IntegerScalar(bits, v))]).result
         == LogicalScalar(Unsigned(64, v) == Unsigned(64, Sentinel(name)))
  {
    IostatValuesScalar(v, Sentinel(name));
  }

  /** For INTEGER kinds of at most 8 bytes, testing the low 64 bits is testing the value. */
  lemma NarrowIostatIsEquality(bits: nat, v: int, sentinel: int)
    requires bits <= 64 && InRange(bits, v) && InRange(64, sentinel)
    ensures Unsigned(64, v) == Unsigned(64, sentinel) <==> v == sentinel
  {
    Pow2Monotonic(bits - 1, 63);
    SamePatternSameValue(64, v, sentinel);
  }

  /**
   * IS_IOSTAT_END and IS_IOSTAT_EOR of an INTEGER scalar of any kind test its
   * low 64 bits against the runtime's status code; for kinds of at most 8
   * bytes that is equality with -1 or -2.
   */
  lemma IostatOfScalar(name: string, bits: nat, v: int, fold: Expr -> Expr,
                       elsewhere: (string, Arguments) -> Expr)
    requires name == "is_iostat_end" || name == "is_iostat_eor"
    requires IsIntegerKindBits(bits) && InRange(bits, v)
    ensures FoldIntrinsic(name, [Some(IntegerScalar(bits, v))], fold, elsewhere).result
         == LogicalScalar(Unsigned(64, v) == Unsigned(64, Sentinel(name)))
    ensures bits <= 64 ==> (Unsigned(64, v) == Unsigned(64, Sentinel(name)) <==> v == Sentinel(name))
  {
    var args := [Some(IntegerScalar(bits, v))];
    IostatArgumentsGuaranteed(name, IntegerScalar(bits, v));
    DispatchIostat(name, args, fold, elsewhere);
    IostatFoldScalar(name, bits, v);
    if bits <= 64 {
      NarrowIostatIsEquality(bits, v, Sentinel(name));
    }
  }

  /**
   * IS_IOSTAT_END and IS_IOSTAT_EOR fold an INTEGER array element by element:
   * element i is true exactly when its low 64 bits are the status code's, and
   * for kinds of at most 8 bytes exactly when it equals the status code.
   */
  lemma IostatOfConstant(name: string, bits: nat, c: Constant<int>, fold: Expr -> Expr,
                         elsewhere: (string, Arguments) -> Expr)
    requires name == "is_iostat_end" || name == "is_iostat_eor"
    requires WellFormed(IntegerConstant(bits, c))
    ensures var out := FoldIntrinsic(name, [Some(IntegerConstant(bits, c))], fold, elsewhere);
      out.messages == [] && out.result.LogicalConstant? &&
      out.result.lc.shape == c.shape && |out.result.lc.values| == |c.values| &&
      (forall i :: 0 <= i < |c.values| ==>
         (out.result.lc.values[i] <==> Unsigned(64, c.values[i]) == Unsigned(64, Sentinel(name)))) &&
      (bits <= 64 ==> forall i :: 0 <= i < |c.values| ==> (out.result.lc.values[i] <==> c.values[i] == Sentinel(name)))
  {
    IostatArgumentsGuaranteed(name, IntegerConstant(bits, c));
    DispatchIostat(name, [Some(IntegerConstant(bits, c))], fold, elsewhere);
    IostatFoldConstant(name, bits, c);
  }

  /** The element-wise IS_IOSTAT fold of an INTEGER constant, before dispatch. */
  lemma IostatFoldConstant(name: string, bits: nat, c: Constant<int>)
    requires name == "is_iostat_end" || name == "is_iostat_eor"
    requires WellFormed(IntegerConstant(bits, c))
    ensures var out := FoldIostat(name, Sentinel(name), [Some(IntegerConstant(bits, c))]);
      out.messages == [] && out.result.LogicalConstant? &&
      out.result.lc.shape == c.shape && |out.result.lc.values| == |c.values| &&
      (forall i :: 0 <= i < |c.values| ==>
         (out.result.lc.values[i] <==> Unsigned(64, c.values[i]) == Unsigned(64, Sentinel(name)))) &&
      (bits <= 64 ==> forall i :: 0 <= i < |c.values| ==> (out.result.lc.values[i] <==> c.values[i] == Sentinel(name)))
  {
    if bits <= 64 {
      NarrowValuesFit(bits, c.values);
    }
  }

  /** Values of an INTEGER kind of at most 8 bytes are representable in INTEGER(8). */
  lemma NarrowValuesFit(bits: nat, values: seq<int>)
    requires 0 < bits <= 64
    requires forall i :: 0 <= i < |values| ==> InRange(bits, values[i])
    ensures forall i :: 0 <= i < |values| ==> InRange(64, values[i])
  {
    Pow2Monotonic(bits - 1, 63);
  }

  // ----- OUT_OF_RANGE -----

  /** OUT_OF_RANGE is dispatched to its own fold. */
  lemma DispatchOutOfRange(args: Arguments, fold: Expr -> Expr, elsewhere: (string, Arguments) -> Expr)
    requires CallerGuarantees("out_of_range", args)
    ensures FoldIntrinsic("out_of_range", args, fold, elsewhere) == FoldOutOfRange(args, fold, elsewhere)
  {
  }

  /** X, MOLD and any further slots meet what an OUT_OF_RANGE call needs. */
  lemma OutOfRangeArgumentsGuaranteed(x: Option<Expr>, mold: Option<Expr>, rest: Arguments)
    requires (x.Some? ==> WellFormed(x.value)) && (mold.Some? ==> WellFormed(mold.value)) && ArgumentsWellFormed(rest)
    ensures CallerGuarantees("out_of_range", [x, mold] + rest)
  {
    assert MinimumArgumentCount("out_of_range") == 2;
  }

  /**
   * With an INTEGER mold and an X that folds to an INTEGER constant, each
   * element is true exactly when it is not representable in the mold's kind;
   * argument 0 now holds the folded X. `rest` is the ROUND slot, if any.
   */
  lemma OutOfRangeIntegerMold(x: Expr, mold: Expr, rest: Arguments, fold: Expr -> Expr,
                              elsewhere: (string, Arguments) -> Expr)
    requires WellFormed(x) && WellFormed(mold) && IsIntegerTyped(mold) && ArgumentsWellFormed(rest)
    requires fold(x).IntegerConstant?
    ensures var out := FoldIntrinsic("out_of_range", [Some(x), Some(mold)] + rest, fold, elsewhere);
      var c := fold(x).ic;
      out.args == [Some(fold(x)), Some(mold)] + rest && out.messages == [] &&
      out.result.LogicalConstant? && out.result.lc.shape == c.shape &&
      |out.result.lc.values| == |c.values| &&
      forall i :: 0 <= i < |c.values| ==> (out.result.lc.values[i] <==> !InRange(MoldBits(mold), c.values[i]))
  {
    var args := [Some(x), Some(mold)] + rest;
    OutOfRangeArgumentsGuaranteed(Some(x), Some(mold), rest);
    DispatchOutOfRange(args, fold, elsewhere);
    assert args[0 := Some(fold(x))] == [Some(fold(x)), Some(mold)] + rest;
  }

  /** A mold at least as wide as X's kind is never out of range. */
  lemma WideningIsNeverOutOfRange(x: Expr, mold: Expr, rest: Arguments, fold: Expr -> Expr,
                                  elsewhere: (string, Arguments) -> Expr)
    requires WellFormed(x) && WellFormed(mold) && IsIntegerTyped(mold) && ArgumentsWellFormed(rest)
    requires fold(x).IntegerConstant? && WellFormed(fold(x)) && fold(x).bits <= MoldBits(mold)
    ensures var out := FoldIntrinsic("out_of_range", [Some(x), Some(mold)] + rest, fold, elsewhere);
      out.result.LogicalConstant? && forall i :: 0 <= i < |out.result.lc.values| ==> !out.result.lc.values[i]
  {
    var c := fold(x).ic;
    var b := fold(x).bits;
    var m := MoldBits(mold);
    Pow2Monotonic(b - 1, m - 1);
    forall i | 0 <= i < |c.values|
      ensures InRange(m, c.values[i])
    {
      assert InRange(b, c.values[i]);
    }
  }

  /** An X that does not fold to a constant leaves the reference unevaluated, with X in folded form. */
  lemma OutOfRangeOfNonConstantIsUnchanged(x: Expr, mold: Option<Expr>, rest: Arguments, fold: Expr -> Expr,
                                           elsewhere: (string, Arguments) -> Expr)
    requires WellFormed(x) && (mold.Some? ==> WellFormed(mold.value)) && ArgumentsWellFormed(rest)
    requires !IsActuallyConstant(fold(x))
    ensures FoldIntrinsic("out_of_range", [Some(x), mold] + rest, fold, elsewhere)
         == Unchanged("out_of_range", [Some(fold(x)), mold] + rest)
  {
    assert ([Some(x), mold] + rest)[0 := Some(fold(x))] == [Some(fold(x)), mold] + rest;
  }

  // ----- Inquiries and unknown names -----

  /** No IEEE support inquiry is a name the dispatcher tests before them. */
  lemma IeeeQueryIsNoEarlierName(name: string)
    requires IsIeeeSupportQuery(name)
    ensures !IsReductionName(name) && name != "associated" && !IsBitCompareName(name) && name != "btest"
    ensures name != "is_iostat_end" && name != "is_iostat_eor" && name != "out_of_range"
  {
  }

  /** The IEEE support inquiries fold to .TRUE. whatever their arguments. */
  lemma IeeeSupportQueriesAreTrue(name: string, args: Arguments, fold: Expr -> Expr,
                                  elsewhere: (string, Arguments) -> Expr)
    requires IsIeeeSupportQuery(name) && ArgumentsWellFormed(args)
    ensures FoldIntrinsic(name, args, fold, elsewhere) == Folded(LogicalScalar(true), args)
  {
    IeeeQueryIsNoEarlierName(name);
  }

  predicate IsRecognized(name: string)
  {
    IsReductionName(name) || name == "associated" || IsBitCompareName(name) || name == "btest" ||
    name == "is_iostat_end" || name == "is_iostat_eor" || name == "out_of_range" ||
    IsIeeeSupportQuery(name) || IsFoldedElsewhere(name)
  }

  /** A name the folder does not know leaves the reference, and its arguments, as they are. */
  lemma UnrecognizedNameIsUnchanged(name: string, args: Arguments, fold: Expr -> Expr,
                                    elsewhere: (string, Arguments) -> Expr)
    requires !IsRecognized(name) && ArgumentsWellFormed(args)
    ensures FoldIntrinsic(name, args, fold, elsewhere) == Unchanged(name, args)
  {
  }
}
