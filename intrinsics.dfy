/**
 * The folder for references to LOGICAL-valued intrinsic functions. Each call
 * either folds to a constant or is returned as it is; it never fails. The
 * folding context collects the diagnostics a fold reports.
 *
 * The specification functions below give, per intrinsic, the folded result,
 * the argument list afterwards (two branches rewrite argument slots in place)
 * and the diagnostics reported. FoldingContext.FoldIntrinsicFunction is the
 * imperative folder, proved to agree with them.
 */
module IntrinsicFolding {
  import opened Wrappers
  import opened Scalars
  import opened Constants
  import opened Expressions
  import opened Reductions
  import opened BitComparisons

  /** The status codes the runtime reserves for end of file and end of record. */
  const IostatEnd: int := -1
  const IostatEor: int := -2

  /** Diagnostics a fold can report. */
  datatype Message = PosOutOfRange(pos: int)

  type Arguments = seq<Option<Expr>>

  /** What folding a reference produced: its replacement, its arguments afterwards, and its diagnostics. */
  datatype Outcome = Outcome(result: Expr, args: Arguments, messages: seq<Message>)

  function Unchanged(name: string, args: Arguments): Outcome
  {
    Outcome(FunctionRef(name, args), args, [])
  }

  function Folded(e: Expr, args: Arguments): Outcome
  {
    Outcome(e, args, [])
  }

  predicate IsReductionName(name: string)
  {
    name == "all" || name == "any" || name == "parity"
  }

  predicate IsBitCompareName(name: string)
  {
    name == "bge" || name == "bgt" || name == "ble" || name == "blt"
  }

  /** The ten IEEE support inquiries, which always fold to .TRUE. */
  predicate IsIeeeSupportQuery(name: string)
  {
    name == "__builtin_ieee_support_datatype" ||
    name == "__builtin_ieee_support_denormal" ||
    name == "__builtin_ieee_support_divide" ||
    name == "__builtin_ieee_support_inf" ||
    name == "__builtin_ieee_support_io" ||
    name == "__builtin_ieee_support_nan" ||
    name == "__builtin_ieee_support_sqrt" ||
    name == "__builtin_ieee_support_standard" ||
    name == "__builtin_ieee_support_subnormal" ||
    name == "__builtin_ieee_support_underflow_control"
  }

  /**
   * Intrinsics whose folding rests on code outside this model (type
   * extension, contiguity, REAL classification, CHARACTER comparison, the
   * dot product, LOGICAL kind conversion); their folded form is the
   * `elsewhere` parameter's.
   */
  predicate IsFoldedElsewhere(name: string)
  {
    name == "dot_product" || name == "extends_type_of" || name == "same_type_as" ||
    name == "isnan" || name == "__builtin_ieee_is_nan" ||
    name == "__builtin_ieee_is_negative" || name == "__builtin_ieee_is_normal" ||
    name == "is_contiguous" || name == "logical" ||
    name == "lge" || name == "lgt" || name == "lle" || name == "llt"
  }

  /** The argument slots intrinsic resolution always supplies, present or omitted. */
  function MinimumArgumentCount(name: string): nat
  {
    if IsReductionName(name) || name == "associated" || IsBitCompareName(name) ||
       name == "btest" || name == "out_of_range" then 2
    else if name == "is_iostat_end" || name == "is_iostat_eor" then 1
    else 0
  }

  predicate ArgumentsWellFormed(args: Arguments)
  {
    forall i :: 0 <= i < |args| ==> args[i].Some? ==> WellFormed(args[i].value)
  }

  /** What the folder may rely on: the intrinsic's argument slots exist, ASSOCIATED's pointer argument is present. */
  predicate CallerGuarantees(name: string, args: Arguments)
  {
    |args| >= MinimumArgumentCount(name) &&
    (name == "associated" ==> args[0].Some?) &&
    ArgumentsWellFormed(args)
  }

  // ----- ALL, ANY, PARITY -----

  function ReductionOperator(name: string): LogicalOperator
    requires IsReductionName(name)
  {
    if name == "all" then And else if name == "any" then Or else Neqv
  }

  function ReductionIdentity(name: string): bool
    requires IsReductionName(name)
  {
    name == "all"
  }

  /** A whole-array reduction of a constant MASK argument; with DIM the fold is left to the reduction engine. */
  function FoldAllAnyParity(name: string, args: Arguments, elsewhere: (string, Arguments) -> Expr): (r: Outcome)
    requires IsReductionName(name) && |args| >= 2
    ensures r.args == args && r.messages == []
    ensures args[1].None? ==>
      (r.result.LogicalConstant? <==> args[0].Some? && args[0].value.LogicalConstant?)
    ensures args[1].None? && r.result.LogicalConstant? ==> r.result.lc.shape == [] && |r.result.lc.values| == 1
    ensures args[1].None? && !r.result.LogicalConstant? ==> r == Unchanged(name, args)
  {
    if args[1].Some? then
      Folded(elsewhere(name, args), args)
    else if args[0].Some? && args[0].value.LogicalConstant? then
      var values := args[0].value.lc.values;
      Folded(LogicalScalar(Accumulate(ReductionOperator(name), ReductionIdentity(name), values)), args)
    else
      Unchanged(name, args)
  }

  // ----- ASSOCIATED -----

  function FoldAssociated(args: Arguments): (r: Outcome)
    requires |args| >= 2 && args[0].Some?
    ensures r.args == args && r.messages == []
    ensures r.result == LogicalScalar(false) <==>
      args[0].value.NullPointer? && (args[1].None? || args[1].value.NullPointer?)
    ensures r.result != LogicalScalar(false) ==> r == Unchanged("associated", args)
  {
    if IsNullPointer(args[0].value) && (args[1].None? || IsNullPointer(args[1].value)) then
      Folded(LogicalScalar(false), args)
    else
      Unchanged("associated", args)
  }

  // ----- BGE, BGT, BLE, BLT -----

  function BitRelationOf(name: string): BitRelation
    requires IsBitCompareName(name)
  {
    if name == "bge" then Bge else if name == "bgt" then Bgt else if name == "ble" then Ble else Blt
  }

  /** An argument BGE..BLT can fold: a BOZ literal or an INTEGER constant. */
  predicate IsBitOperand(a: Option<Expr>)
  {
    a.Some? && (a.value.BozLiteral? || a.value.IntegerConstant?)
  }

  /** An argument as a constant of the widest kind: a BOZ literal as it is, an INTEGER constant zero-extended. */
  function WidestConstant(a: Option<Expr>): (c: Option<Constant<int>>)
    requires a.Some? ==> WellFormed(a.value)
    ensures c.Some? <==> IsBitOperand(a)
    ensures c.Some? ==> Valid(c.value) && forall i :: 0 <= i < |c.value.values| ==> InRange(LargestIntBits, c.value.values[i])
    ensures a.Some? && a.value.BozLiteral? ==> c == Some(ScalarConstant(a.value.pattern))
    ensures a.Some? && a.value.IntegerConstant? ==>
      c.value.shape == a.value.ic.shape && |c.value.values| == |a.value.ic.values| &&
      forall i :: 0 <= i < |a.value.ic.values| ==>
        Unsigned(LargestIntBits, c.value.values[i]) == Unsigned(a.value.bits, a.value.ic.values[i])
  {
    if a.Some? && a.value.BozLiteral? then Some(ScalarConstant(a.value.pattern))
    else if a.Some? && a.value.IntegerConstant? then Some(ZeroExtendConstant(a.value.bits, a.value.ic))
    else None
  }

  function FoldBitCompare(name: string, args: Arguments): (r: Outcome)
    requires IsBitCompareName(name) && |args| >= 2 && ArgumentsWellFormed(args)
    ensures r.messages == [] && |r.args| == |args| && r.args[2..] == args[2..]
    ensures r.result.LogicalConstant? ==> IsBitOperand(args[0]) && IsBitOperand(args[1])
    ensures !(IsBitOperand(args[0]) && IsBitOperand(args[1])) ==> r == Unchanged(name, args)
    ensures IsBitOperand(args[0]) && IsBitOperand(args[1]) ==>
      r.args == args[0 := Some(IntegerConstant(LargestIntBits, WidestConstant(args[0]).value))]
                    [1 := Some(IntegerConstant(LargestIntBits, WidestConstant(args[1]).value))]
    ensures IsBitOperand(args[0]) && IsBitOperand(args[1]) ==>
      (r.result.LogicalConstant? <==>
         Conformable(WidestConstant(args[0]).value.shape, WidestConstant(args[1]).value.shape))
    ensures IsBitOperand(args[0]) && IsBitOperand(args[1]) && !r.result.LogicalConstant? ==>
      r == Unchanged(name, r.args)
    ensures r.result.LogicalConstant? ==>
      r.result.lc == BitCompareValues(BitRelationOf(name), WidestConstant(args[0]).value, WidestConstant(args[1]).value)
  {
    var c0 := WidestConstant(args[0]);
    var c1 := WidestConstant(args[1]);
    if c0.Some? && c1.Some? then
      var rewritten := args[0 := Some(IntegerConstant(LargestIntBits, c0.value))]
                           [1 := Some(IntegerConstant(LargestIntBits, c1.value))];
      if Conformable(c0.value.shape, c1.value.shape) then
        Folded(LogicalConstant(BitCompareValues(BitRelationOf(name), c0.value, c1.value)), rewritten)
      else
        Unchanged(name, rewritten)
    else
      Unchanged(name, args)
  }

  // ----- BTEST -----

  /** Whether a bit position lies outside [0, bits). */
  predicate PosOutside(bits: nat, p: int)
  {
    p < 0 || p >= bits
  }

  function BtestValues(bits: nat, x: Constant<int>, pos: Constant<int>): (r: Constant<bool>)
    requires Valid(x) && Valid(pos) && Conformable(x.shape, pos.shape)
    ensures Valid(r) && r.shape == CommonShape(x.shape, pos.shape)
    ensures forall i :: 0 <= i < |r.values| ==> r.values[i] == BitTest(bits, ElementAt(x, i), ElementAt(pos, i))
    ensures forall i :: 0 <= i < |r.values| && PosOutside(bits, ElementAt(pos, i)) ==> !r.values[i]
  {
    Map2((v: int, p: int) => BitTest(bits, v, p), x, pos)
  }

  /** The diagnostics for the first n elements, in element order. */
  function BtestMessages(bits: nat, x: Constant<int>, pos: Constant<int>, n: nat): seq<Message>
    requires Valid(x) && Valid(pos) && Conformable(x.shape, pos.shape)
    requires n <= Size(CommonShape(x.shape, pos.shape))
  {
    if n == 0 then []
    else
      var p := ElementAt(pos, n - 1);
      BtestMessages(bits, x, pos, n - 1) + (if PosOutside(bits, p) then [PosOutOfRange(p)] else [])
  }

  predicate BtestOperands(args: Arguments)
    requires |args| >= 2 && ArgumentsWellFormed(args)
  {
    args[0].Some? && args[0].value.IntegerConstant? &&
    args[1].Some? && args[1].value.IntegerConstant? &&
    Conformable(args[0].value.ic.shape, args[1].value.ic.shape)
  }

  function FoldBtest(args: Arguments): (r: Outcome)
    requires |args| >= 2 && ArgumentsWellFormed(args)
    ensures r.args == args
    ensures r.result.LogicalConstant? <==> BtestOperands(args)
    ensures !BtestOperands(args) ==> r == Unchanged("btest", args)
    ensures BtestOperands(args) ==>
      r.result.lc.shape == CommonShape(args[0].value.ic.shape, args[1].value.ic.shape)
  {
    if BtestOperands(args) then
      var x := args[0].value;
      var pos := args[1].value.ic;
      var n := Size(CommonShape(x.ic.shape, pos.shape));
      Outcome(LogicalConstant(BtestValues(x.bits, x.ic, pos)), args, BtestMessages(x.bits, x.ic, pos, n))
    else
      Unchanged("btest", args)
  }

  // ----- IS_IOSTAT_END, IS_IOSTAT_EOR -----

  /**
   * Each element converted to INTEGER(8) and compared with the sentinel: true
   * exactly when its low 64 bits are the sentinel's, which for a value of at
   * most 64 bits is equality.
   */
  function IostatValues(sentinel: int, c: Constant<int>): (r: Constant<bool>)
    requires InRange(64, sentinel)
    ensures r.shape == c.shape && |r.values| == |c.values| && (Valid(c) ==> Valid(r))
    ensures forall i :: 0 <= i < |c.values| ==>
      (r.values[i] <==> Unsigned(64, c.values[i]) == Unsigned(64, sentinel))
    ensures forall i :: 0 <= i < |c.values| && InRange(64, c.values[i]) ==> (r.values[i] <==> c.values[i] == sentinel)
  {
    IostatValuesMeaning(sentinel, c.values);
    Map((v: int) => ConvertSigned(64, v).value == sentinel, c)
  }

  function FoldIostat(name: string, sentinel: int, args: Arguments): (r: Outcome)
    requires |args| >= 1 && InRange(64, sentinel)
    ensures r.args == args && r.messages == []
    ensures r.result.LogicalConstant? <==>
      args[0].Some? && IsActuallyConstant(args[0].value) && args[0].value.IntegerConstant?
    ensures !r.result.LogicalConstant? ==> r == Unchanged(name, args)
    ensures r.result.LogicalConstant? ==> r.result.lc == IostatValues(sentinel, args[0].value.ic)
  {
    if args[0].Some? && IsActuallyConstant(args[0].value) && args[0].value.IntegerConstant? then
      Folded(LogicalConstant(IostatValues(sentinel, args[0].value.ic)), args)
    else
      Unchanged(name, args)
  }

  lemma IostatValuesMeaning(sentinel: int, values: seq<int>)
    requires InRange(64, sentinel)
    ensures forall i :: 0 <= i < |values| ==>
      (ConvertSigned(64, values[i]).value == sentinel <==> Unsigned(64, values[i]) == Unsigned(64, sentinel))
    ensures forall i :: 0 <= i < |values| && InRange(64, values[i]) ==> ConvertSigned(64, values[i]).value == values[i]
  {
    forall i | 0 <= i < |values|
      ensures ConvertSigned(64, values[i]).value == sentinel <==> Unsigned(64, values[i]) == Unsigned(64, sentinel)
    {
      SamePatternSameValue(64, ConvertSigned(64, values[i]).value, sentinel);
    }
  }

  // ----- OUT_OF_RANGE -----

  /** Per element, whether the signed conversion to the mold's kind overflows. */
  function OverflowFlags(moldBits: nat, values: seq<int>): (flags: seq<bool>)
    requires moldBits > 0
    ensures |flags| == |values|
    ensures forall i :: 0 <= i < |values| ==> (flags[i] <==> !InRange(moldBits, values[i]))
  {
    seq(|values|, i requires 0 <= i < |values| => ConvertSigned(moldBits, values[i]).overflow)
  }

  function MoldBits(mold: Expr): (bits: nat)
    requires WellFormed(mold) && IsIntegerTyped(mold)
    ensures IsIntegerKindBits(bits)
  {
    TypeOf(mold).value.bits
  }

  /**
   * OUT_OF_RANGE(X, MOLD [, ROUND]): X is first replaced by its folded form;
   * an INTEGER constant X with an INTEGER MOLD folds element-wise; REAL
   * operands or molds are left to the REAL model.
   */
  function FoldOutOfRange(args: Arguments, fold: Expr -> Expr, elsewhere: (string, Arguments) -> Expr): (r: Outcome)
    requires |args| >= 2 && ArgumentsWellFormed(args)
    ensures r.messages == []
    ensures args[0].None? ==> r == Unchanged("out_of_range", args)
    ensures args[0].Some? ==> r.args == args[0 := Some(fold(args[0].value))]
    ensures args[0].Some? && !IsActuallyConstant(fold(args[0].value)) ==> r == Unchanged("out_of_range", r.args)
    ensures args[0].Some? && fold(args[0].value).IntegerConstant? && args[1].Some? && IsIntegerTyped(args[1].value) ==>
      r.result.LogicalConstant? && r.result.lc.shape == fold(args[0].value).ic.shape &&
      r.result.lc.values == OverflowFlags(MoldBits(args[1].value), fold(args[0].value).ic.values)
  {
    if args[0].None? then Unchanged("out_of_range", args)
    else
      var folded := fold(args[0].value);
      var rewritten := args[0 := Some(folded)];
      if !IsActuallyConstant(folded) then
        Unchanged("out_of_range", rewritten)
      else if args[1].Some? && IsRealTyped(args[1].value) then
        if IsIntegerTyped(folded) || IsRealTyped(folded) then Folded(elsewhere("out_of_range", rewritten), rewritten)
        else Unchanged("out_of_range", rewritten)
      else if args[1].Some? && IsIntegerTyped(args[1].value) then
        if folded.IntegerConstant? then
          var flags := OverflowFlags(MoldBits(args[1].value), folded.ic.values);
          Folded(LogicalConstant(Constant(flags, folded.ic.shape)), rewritten)
        else if IsRealTyped(folded) then Folded(elsewhere("out_of_range", rewritten), rewritten)
        else Unchanged("out_of_range", rewritten)
      else
        Unchanged("out_of_range", rewritten)
  }

  // ----- The dispatcher -----

  /**
   * The fold of a reference to a LOGICAL-valued intrinsic: `fold` is the
   * generic expression folder, `elsewhere` the fold done by code outside this
   * model.
   */
  function FoldIntrinsic(name: string, args: Arguments, fold: Expr -> Expr,
                         elsewhere: (string, Arguments) -> Expr): (r: Outcome)
    requires CallerGuarantees(name, args)
    ensures |r.args| == |args|
    ensures !IsBitCompareName(name) && name != "out_of_range" ==> r.args == args
    ensures name != "btest" ==> r.messages == []
  {
    if IsReductionName(name) then FoldAllAnyParity(name, args, elsewhere)
    else if name == "associated" then FoldAssociated(args)
    else if IsBitCompareName(name) then FoldBitCompare(name, args)
    else if name == "btest" then FoldBtest(args)
    else if name == "is_iostat_end" then FoldIostat(name, IostatEnd, args)
    else if name == "is_iostat_eor" then FoldIostat(name, IostatEor, args)
    else if name == "out_of_range" then FoldOutOfRange(args, fold, elsewhere)
    else if IsIeeeSupportQuery(name) then Folded(LogicalScalar(true), args)
    else if IsFoldedElsewhere(name) then Folded(elsewhere(name, args), args)
    else Unchanged(name, args)
  }

  // ----- The imperative folder -----

  /** ZeroExtend applied to one argument slot of BGE..BLT. */
  method ToWidestConstant(a: Option<Expr>) returns (c: Option<Constant<int>>)
    requires a.Some? ==> WellFormed(a.value)
    ensures c.Some? <==> IsBitOperand(a)
    ensures a.Some? && a.value.BozLiteral? ==> c == Some(ScalarConstant(a.value.pattern))
    ensures a.Some? && a.value.IntegerConstant? ==>
      c.value.shape == a.value.ic.shape && |c.value.values| == |a.value.ic.values| &&
      forall i :: 0 <= i < |a.value.ic.values| ==>
        InRange(LargestIntBits, c.value.values[i]) &&
        Unsigned(LargestIntBits, c.value.values[i]) == Unsigned(a.value.bits, a.value.ic.values[i])
    ensures c == WidestConstant(a)
  {
    if a.Some? && a.value.BozLiteral? {
      c := Some(ScalarConstant(a.value.pattern));
    } else if a.Some? && a.value.IntegerConstant? {
      var z := ZeroExtend(a.value.bits, a.value.ic);
      c := Some(z);
    } else {
      c := None;
    }
  }

  /** BGE..BLT: both argument slots are overwritten with their widest-kind constants before folding. */
  method FoldBitCompareCall(name: string, args: array<Option<Expr>>) returns (r: Expr)
    requires IsBitCompareName(name) && args.Length >= 2 && ArgumentsWellFormed(args[..])
    modifies args
    ensures r == FoldBitCompare(name, old(args[..])).result
    ensures args[..] == FoldBitCompare(name, old(args[..])).args
  {
    var c0 := ToWidestConstant(args[0]);
    var c1 := ToWidestConstant(args[1]);
    if c0.Some? && c1.Some? {
      var rel := BitRelationOf(name);
      args[0] := Some(IntegerConstant(LargestIntBits, c0.value));
      args[1] := Some(IntegerConstant(LargestIntBits, c1.value));
      if Conformable(c0.value.shape, c1.value.shape) {
        r := LogicalConstant(BitCompareValues(rel, c0.value, c1.value));
      } else {
        r := FunctionRef(name, args[..]);
      }
    } else {
      r := FunctionRef(name, args[..]);
    }
  }

  /** The per-element overflow test of OUT_OF_RANGE with an INTEGER source and mold. */
  method OutOfRangeFlags(moldBits: nat, values: seq<int>) returns (flags: seq<bool>)
    requires moldBits > 0
    ensures |flags| == |values|
    ensures forall i :: 0 <= i < |values| ==> (flags[i] <==> !InRange(moldBits, values[i]))
    ensures flags == OverflowFlags(moldBits, values)
  {
    flags := [];
    for i := 0 to |values|
      invariant |flags| == i
      invariant forall j :: 0 <= j < i ==> flags[j] == ConvertSigned(moldBits, values[j]).overflow
    {
      flags := flags + [ConvertSigned(moldBits, values[i]).overflow];
    }
  }

  /** One more element of BTEST: its bit test, and its diagnostic when the position is outside. */
  lemma BtestElementStep(bits: nat, x: Constant<int>, pos: Constant<int>, i: nat)
    requires Valid(x) && Valid(pos) && Conformable(x.shape, pos.shape)
    requires i < Size(CommonShape(x.shape, pos.shape))
    ensures BtestValues(bits, x, pos).values[..i + 1]
         == BtestValues(bits, x, pos).values[..i] + [BitTest(bits, ElementAt(x, i), ElementAt(pos, i))]
    ensures BtestMessages(bits, x, pos, i + 1)
         == BtestMessages(bits, x, pos, i) +
            (if PosOutside(bits, ElementAt(pos, i)) then [PosOutOfRange(ElementAt(pos, i))] else [])
  {
    var expected := BtestValues(bits, x, pos).values;
    assert expected[..i + 1] == expected[..i] + [expected[i]];
  }

  class FoldingContext {
    /** The diagnostics reported so far, oldest first. */
    var messages: seq<Message>

    constructor ()
      ensures messages == []
    {
      messages := [];
    }

    /** Reports a diagnostic. */
    method Say(m: Message)
      modifies this
      ensures messages == old(messages) + [m]
    {
      messages := messages + [m];
    }

    /** BTEST element by element, reporting each position outside [0, bits) and testing it anyway. */
    method FoldBtestElements(bits: nat, x: Constant<int>, pos: Constant<int>) returns (r: Constant<bool>)
      requires Valid(x) && Valid(pos) && Conformable(x.shape, pos.shape)
      modifies this
      ensures r == BtestValues(bits, x, pos)
      ensures messages == old(messages) + BtestMessages(bits, x, pos, Size(CommonShape(x.shape, pos.shape)))
    {
      var n := Size(CommonShape(x.shape, pos.shape));
      ghost var expected := BtestValues(bits, x, pos).values;
      var values: seq<bool> := [];
      for i := 0 to n
        invariant values == expected[..i]
        invariant messages == old(messages) + BtestMessages(bits, x, pos, i)
      {
        var p := ElementAt(pos, i);
        BtestElementStep(bits, x, pos, i);
        if p < 0 || p >= bits {
          Say(PosOutOfRange(p));
        }
        values := values + [BitTest(bits, ElementAt(x, i), p)];
      }
      assert values == expected;
      r := Constant(values, CommonShape(x.shape, pos.shape));
    }

    /**
     * Folds a reference to a LOGICAL-valued intrinsic in place: the argument
     * array is the reference's argument list, which BGE..BLT and OUT_OF_RANGE
     * rewrite; diagnostics are appended to `messages`.
     */
    method FoldIntrinsicFunction(name: string, args: array<Option<Expr>>, fold: Expr -> Expr,
                                 elsewhere: (string, Arguments) -> Expr) returns (r: Expr)
      requires CallerGuarantees(name, args[..])
      modifies this, args
      ensures r == FoldIntrinsic(name, old(args[..]), fold, elsewhere).result
      ensures args[..] == FoldIntrinsic(name, old(args[..]), fold, elsewhere).args
      ensures messages == old(messages) + FoldIntrinsic(name, old(args[..]), fold, elsewhere).messages
    {
      if IsReductionName(name) {
        if args[1].Some? {
          r := elsewhere(name, args[..]);
        } else if args[0].Some? && args[0].value.LogicalConstant? {
          var b := ReduceWhole(ReductionOperator(name), ReductionIdentity(name), args[0].value.lc.values, None);
          NoMaskKeepsAll(args[0].value.lc.values);
          r := LogicalScalar(b);
        } else {
          r := FunctionRef(name, args[..]);
        }
      } else if name == "associated" {
        var gotConstant := true;
        if !IsNullPointer(args[0].value) {
          gotConstant := false;
        } else if args[1].Some? {
          if !IsNullPointer(args[1].value) {
            gotConstant := false;
          }
        }
        r := if gotConstant then LogicalScalar(false) else FunctionRef(name, args[..]);
      } else if IsBitCompareName(name) {
        r := FoldBitCompareCall(name, args);
      } else if name == "btest" {
        assert args[..][0] == args[0] && args[..][1] == args[1];
        if BtestOperands(args[..]) {
          var x := args[0].value;
          var c := FoldBtestElements(x.bits, x.ic, args[1].value.ic);
          r := LogicalConstant(c);
        } else {
          r := FunctionRef(name, args[..]);
        }
      } else if name == "is_iostat_end" || name == "is_iostat_eor" {
        var sentinel := if name == "is_iostat_end" then IostatEnd else IostatEor;
        if args[0].Some? && IsActuallyConstant(args[0].value) && args[0].value.IntegerConstant? {
          r := LogicalConstant(IostatValues(sentinel, args[0].value.ic));
        } else {
          r := FunctionRef(name, args[..]);
        }
      } else if name == "out_of_range" {
        r := FoldOutOfRangeCall(args, fold, elsewhere);
      } else if IsIeeeSupportQuery(name) {
        r := LogicalScalar(true);
      } else if IsFoldedElsewhere(name) {
        r := elsewhere(name, args[..]);
      } else {
        r := FunctionRef(name, args[..]);
      }
    }
  }

  /** OUT_OF_RANGE: argument 0 is overwritten with its folded form before the test. */
  method FoldOutOfRangeCall(args: array<Option<Expr>>, fold: Expr -> Expr,
                            elsewhere: (string, Arguments) -> Expr) returns (r: Expr)
    requires args.Length >= 2 && ArgumentsWellFormed(args[..])
    modifies args
    ensures r == FoldOutOfRange(old(args[..]), fold, elsewhere).result
    ensures args[..] == FoldOutOfRange(old(args[..]), fold, elsewhere).args
  {
    if args[0].None? {
      r := FunctionRef("out_of_range", args[..]);
      return;
    }
    args[0] := Some(fold(args[0].value));
    var folded := args[0].value;
    var mold := args[1];
    if !IsActuallyConstant(folded) {
      r := FunctionRef("out_of_range", args[..]);
    } else if mold.Some? && IsRealTyped(mold.value) {
      if IsIntegerTyped(folded) || IsRealTyped(folded) {
        r := elsewhere("out_of_range", args[..]);
      } else {
        r := FunctionRef("out_of_range", args[..]);
      }
    } else if mold.Some? && IsIntegerTyped(mold.value) {
      if folded.IntegerConstant? {
        var flags := OutOfRangeFlags(MoldBits(mold.value), folded.ic.values);
        r := LogicalConstant(Constant(flags, folded.ic.shape));
      } else if IsRealTyped(folded) {
        r := elsewhere("out_of_range", args[..]);
      } else {
        r := FunctionRef("out_of_range", args[..]);
      }
    } else {
      r := FunctionRef("out_of_range", args[..]);
    }
  }
}
