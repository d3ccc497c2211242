# Folding of LOGICAL-valued expressions in flang

This project models the constant folder that flang's expression evaluator
applies to LOGICAL-valued expressions. The folder lives in
`flang/lib/Evaluate/fold-logical.cpp` and covers:

- references to the LOGICAL-valued intrinsic functions (ALL, ANY, PARITY,
  ASSOCIATED, BGE/BGT/BLE/BLT, BTEST, IS_IOSTAT_END/IS_IOSTAT_EOR,
  OUT_OF_RANGE, the IEEE support inquiries);
- relational operators on INTEGER and COMPLEX operands;
- `.NOT.`;
- the binary logical operators `.AND.`, `.OR.`, `.EQV.` and `.NEQV.`.

A fold either replaces the expression with a LOGICAL constant or returns it
unevaluated. It never fails. Some folds also report a diagnostic into the
folding context.

The modules:

- `Scalars`: two's-complement integers of a given bit width. A value is a
  mathematical integer plus its width. The module gives the signed and
  unsigned readings of a bit pattern and the conversion between kinds with its
  overflow flag (`ConvertSigned`). It also gives zero-extension to the widest
  kind (128 bits, which is also the width of a BOZ literal), the bit test, and
  the three-way comparisons that relational operators are mapped through
  (`Satisfies`).
- `Constants`: an array constant as its values in element order plus its
  shape. The element-wise application of scalar operations broadcasts a scalar
  operand over an array operand.
- `Expressions`: the expression nodes the folder reads and produces. Every
  expression the model does not look into (a REAL or CHARACTER value, a
  designator) is an `Opaque` leaf that carries its declared type and whether
  it is a constant.
- `OperatorFolding`: the `FoldOperation` overloads for relations, `.NOT.` and
  the binary logical operations.
- `Reductions`: the whole-array reduction behind ALL, ANY and PARITY.
  `ReduceWhole` is the imperative accumulation loop. `Accumulate` is its
  specification: a left fold seeded with the identity.
- `BitComparisons`: `ZeroExtend` and the unsigned comparisons of
  BGE/BGT/BLE/BLT.
- `IntrinsicFolding`: the intrinsic dispatcher.
  - One specification function per intrinsic family, plus `FoldIntrinsic`,
    which dispatches on the name. Each returns the folded result, the argument
    list afterwards and the diagnostics reported. The argument list is
    included because BGE..BLT and OUT_OF_RANGE overwrite argument slots in
    place.
  - The class `FoldingContext` holds the diagnostics. Its method
    `FoldIntrinsicFunction` folds a reference whose argument list is an array.
    The method is proved to agree with `FoldIntrinsic` on the result, the
    argument array afterwards and the diagnostics appended.
- `IntrinsicProperties`: what each intrinsic's fold means, stated for all
  inputs.

The collaborators of this file become parameters:

- `fold` is the generic expression folder that OUT_OF_RANGE applies to its
  first argument.
- `elsewhere` is the fold done by code this model does not contain. It covers
  DOT_PRODUCT, EXTENDS_TYPE_OF, SAME_TYPE_AS, the ISNAN / IEEE_IS_* family,
  IS_CONTIGUOUS, LGE/LGT/LLE/LLT, LOGICAL, ALL/ANY/PARITY with DIM present, and
  the REAL branches of OUT_OF_RANGE.
- `equals` is the COMPLEX equality.

The folder's preconditions (`CallerGuarantees`) are what intrinsic resolution
guarantees:

- every argument slot of the intrinsic exists, present or omitted;
- ASSOCIATED's pointer argument is present;
- every constant is well formed: values in range for its kind, and as many
  values as its shape has elements.

Three behaviours of the code that the model keeps as written:

- PARITY is the `.NEQV.` reduction seeded with `.FALSE.`
  (`flang/lib/Evaluate/fold-logical.cpp:343-345`). So PARITY
  `[.TRUE., .TRUE., .FALSE.]` is `.FALSE.`: two elements are true. See
  `IntrinsicProperties.ParityExample`.
- The folder passes no MASK position to the reduction-argument resolver
  (`flang/lib/Evaluate/fold-logical.cpp:33-35`), because the first argument of
  ALL/ANY/PARITY is itself called MASK. The whole-array fold therefore reduces
  every element. `ReduceWhole` still takes an optional mask, whose masked
  elements contribute the identity, and the dispatcher passes none.
- A COMPLEX relation folds to "the operator is EQ" compared with the
  operands' equality, for every operator
  (`flang/lib/Evaluate/fold-logical.cpp:393-394`). So LT, LE, GE and GT fold
  as NE does.

## Model

| member | source | states |
|---|---|---|
| Scalars.ZeroExtended | flang/lib/Evaluate/fold-logical.cpp:17-24 | the widest-kind value whose unsigned reading equals the unsigned reading of v's pattern at its own width, and that value is representable in the widest kind |
| Scalars.ConvertSigned | flang/lib/Evaluate/fold-logical.cpp:288-291 | the conversion keeps the low bits, the result is representable, overflow holds exactly when v is not representable in the target kind, and without overflow the value is unchanged |
| Scalars.SignBit | flang/lib/Evaluate/fold-logical.cpp:136 | the bit test of the top bit of a two's-complement value is true exactly when the value is negative |
| Constants.Map2 | flang/lib/Evaluate/fold-logical.cpp:377-384 | element-wise application over conforming operands: the result has the common shape, and element i is the operation on element i of each operand, where a scalar operand stands for every element |
| BitComparisons.ZeroExtendConstant | flang/lib/Evaluate/fold-logical.cpp:17-24 | the shape is kept, and each element is representable in the widest kind and has the unsigned reading of the original element |
| BitComparisons.ZeroExtend | flang/lib/Evaluate/fold-logical.cpp:17-24 | the loop that pushes each converted element builds the same constant as ZeroExtendConstant, with the same per-element meaning |
| BitComparisons.BitCompareValues | flang/lib/Evaluate/fold-logical.cpp:94-117 | each folded element of BGE/BGT/BLE/BLT is the relation >=, >, <= or < between the two operands' 128-bit unsigned readings |
| BitComparisons.ZeroExtendMinusOne | flang/lib/Evaluate/fold-logical.cpp:17-24 | -1 of kind 1 zero-extends to 255, not to -1 |
| BitComparisons.StrictIsNegatedWeak | flang/lib/Evaluate/fold-logical.cpp:95-102 | BGT is the negation of BLE, and BLT the negation of BGE |
| BitComparisons.BitRelationConverse | flang/lib/Evaluate/fold-logical.cpp:95-102 | swapping the operands turns BGE into BLE and BGT into BLT |
| OperatorFolding.FoldIntegerRelational | flang/lib/Evaluate/fold-logical.cpp:374-402 | an INTEGER relation folds exactly when both operands are constants of conforming shape; then element i is true iff the operator's relation holds between the signed values; otherwise the node is returned unchanged |
| OperatorFolding.FoldComplexRelational | flang/lib/Evaluate/fold-logical.cpp:392-394 | a COMPLEX relation folds exactly when both operands are constants of conforming shape; then element i is true iff "the operator is EQ" agrees with the elements' equality |
| OperatorFolding.FoldNot | flang/lib/Evaluate/fold-logical.cpp:414-426 | `.NOT.` of a constant keeps the shape and negates every element; any other operand is returned unchanged |
| OperatorFolding.FoldLogicalOperation | flang/lib/Evaluate/fold-logical.cpp:428-461 | a binary logical operation folds exactly when both operands are constants of conforming shape; then element i is AND, OR, EQV or NEQV of the operands' elements; otherwise the node is returned unchanged |
| OperatorFolding.IntegerRelationalScalar | flang/lib/Evaluate/fold-logical.cpp:387-389 | two INTEGER scalars of one kind compare as the mathematical integers they are |
| OperatorFolding.IntegerRelationalConverse | flang/lib/Evaluate/fold-logical.cpp:387-389 | x opr y folds to the same constant as y converse(opr) x |
| OperatorFolding.ComplexNotEqualIsNotEqual | flang/lib/Evaluate/fold-logical.cpp:392-394 | for COMPLEX operands the folded NE is the folded `.NOT.` of the folded EQ |
| OperatorFolding.NotInvolution | flang/lib/Evaluate/fold-logical.cpp:420-425 | folding `.NOT.` twice gives a constant back; a non-constant is wrapped twice and not folded |
| OperatorFolding.LogicalTruthTable | flang/lib/Evaluate/fold-logical.cpp:441-457 | the truth table of AND, OR, EQV and NEQV on scalar constants |
| OperatorFolding.EqvIsNotNeqv | flang/lib/Evaluate/fold-logical.cpp:449-454 | the folded `.EQV.` is the folded `.NOT.` of the folded `.NEQV.` |
| OperatorFolding.AndIsNotOrOfNots | flang/lib/Evaluate/fold-logical.cpp:443-448 | De Morgan's law holds between the folded `.AND.`, `.OR.` and `.NOT.` |
| Reductions.ReduceWhole | flang/lib/Evaluate/fold-logical.cpp:33-37 | the accumulation loop returns the left fold, seeded with the identity, of the elements the mask keeps, in element order |
| Reductions.AllMeansEvery | flang/lib/Evaluate/fold-logical.cpp:52-54 | the AND reduction seeded with .TRUE. is true iff every element is true |
| Reductions.AnyMeansSome | flang/lib/Evaluate/fold-logical.cpp:55-57 | the OR reduction seeded with .FALSE. is true iff some element is true |
| Reductions.ParityMeansOddCount | flang/lib/Evaluate/fold-logical.cpp:343-345 | the NEQV reduction seeded with .FALSE. is true iff the number of true elements is odd |
| Reductions.NoMaskKeepsAll | flang/lib/Evaluate/fold-logical.cpp:33-35 | with no mask every element takes part, in order |
| Reductions.FullyMaskedKeepsNothing | flang/lib/Evaluate/fold-logical.cpp:33-37 | an all-false mask keeps no element; with `ReduceWhole`'s ensures the reduction is then the identity |
| IntrinsicFolding.FoldAllAnyParity | flang/lib/Evaluate/fold-logical.cpp:27-40 | with no DIM, ALL/ANY/PARITY fold exactly when MASK is a LOGICAL constant, and then to a scalar; otherwise the reference is unchanged; the arguments are kept and nothing is reported. What the scalar is (every, some, an odd number of elements true) is `IntrinsicProperties.ReductionMeaning` |
| IntrinsicFolding.FoldAssociated | flang/lib/Evaluate/fold-logical.cpp:58-69 | ASSOCIATED folds to .FALSE. exactly when its pointer argument is NULL() and its target is absent or NULL(); otherwise the reference is unchanged; the arguments are kept and nothing is reported. Through the dispatcher this is `IntrinsicProperties.AssociatedFoldsOnlyNullPointers` |
| IntrinsicFolding.FoldBitCompare | flang/lib/Evaluate/fold-logical.cpp:70-120 | BGE..BLT fold only when both arguments are BOZ literals or INTEGER constants. Then both argument slots are overwritten with their widest-kind INTEGER constants, and the reference folds exactly when those constants are of conforming shape, to the element-wise unsigned comparison `BitCompareValues` of the widest-kind constants; otherwise the reference, with the rewritten arguments, is unchanged. Later slots are kept and nothing is reported. Element values in terms of the original operands are `IntrinsicProperties.BitCompareOfConstants` |
| IntrinsicFolding.BtestValues | flang/lib/Evaluate/fold-logical.cpp:121-137 | element i is the bit test of element i of I at element i of POS, a scalar standing for every element, and a position outside [0, bits) tests .FALSE. |
| IntrinsicFolding.FoldBtest | flang/lib/Evaluate/fold-logical.cpp:121-140 | BTEST folds exactly when I and POS are INTEGER constants of conforming shape, to a constant of their common shape; otherwise the reference is unchanged; the arguments are kept. The diagnostics are `IntrinsicProperties.BtestOneMessagePerOutOfRangeElement` |
| IntrinsicFolding.IostatValues | flang/lib/Evaluate/fold-logical.cpp:201-205 | the shape is kept, and element i is true iff its low 64 bits are the sentinel's; for a value representable in 64 bits, iff it equals the sentinel |
| IntrinsicFolding.FoldIostat | flang/lib/Evaluate/fold-logical.cpp:198-215 | IS_IOSTAT_END/EOR fold exactly when the argument is an INTEGER constant, scalar or array, to `IostatValues` of it: the same shape, element i true iff its low 64 bits are the status code's; otherwise the reference is unchanged; the arguments are kept and nothing is reported. Through the dispatcher this is `IntrinsicProperties.IostatOfConstant` |
| IntrinsicFolding.OverflowFlags | flang/lib/Evaluate/fold-logical.cpp:288-291 | element i is true iff value i is not representable in the mold's INTEGER kind |
| IntrinsicFolding.FoldOutOfRange | flang/lib/Evaluate/fold-logical.cpp:234-342 | X is replaced by its folded form; a folded X that is not a constant leaves the reference unevaluated; an INTEGER constant X with an INTEGER mold folds to `OverflowFlags` of X's values in X's shape, element i true iff it is not representable in the mold's kind; nothing is reported. Through the dispatcher this is `IntrinsicProperties.OutOfRangeIntegerMold` |
| IntrinsicFolding.FoldIntrinsic | flang/lib/Evaluate/fold-logical.cpp:42-372 | the argument count is kept, only BGE..BLT and OUT_OF_RANGE rewrite arguments, and among the branches this model folds itself only BTEST reports diagnostics (the folds left to `elsewhere` report nothing here). What each intrinsic folds to is stated through the dispatcher by the `IntrinsicProperties` lemmas (`DispatchReduction`, `DispatchBitCompare`, `DispatchIostat` and the rest), and `FoldingContext.FoldIntrinsicFunction` is proved to agree with it |
| IntrinsicFolding.WidestConstant | flang/lib/Evaluate/fold-logical.cpp:79-92 | an argument yields a constant exactly when it is a BOZ literal or an INTEGER constant; a BOZ literal becomes the scalar of its 128-bit pattern; an INTEGER constant keeps its shape, and each element keeps its unsigned reading at its own kind as a value representable in the widest kind |
| IntrinsicFolding.ToWidestConstant | flang/lib/Evaluate/fold-logical.cpp:79-92 | the conversion of one argument slot, built with the ZeroExtend loop, has the same meaning: a constant exactly for a BOZ literal or an INTEGER constant, the BOZ pattern as a scalar, and for INTEGER the same shape with every element representable in the widest kind and keeping its unsigned reading |
| IntrinsicFolding.FoldBitCompareCall | flang/lib/Evaluate/fold-logical.cpp:94-120 | when both arguments are BOZ literals or INTEGER constants, both argument slots are overwritten with their widest-kind constants, and for constants of conforming shape BGE..BLT fold to the unsigned comparison of the zero-extended operands; otherwise the reference is unchanged |
| IntrinsicFolding.OutOfRangeFlags | flang/lib/Evaluate/fold-logical.cpp:288-291 | element i of the result is true iff element i of X is not representable in the mold's INTEGER kind |
| IntrinsicFolding.FoldOutOfRangeCall | flang/lib/Evaluate/fold-logical.cpp:234-342 | OUT_OF_RANGE overwrites argument 0 with its folded form, then folds as the specification function says for every combination of X and MOLD |
| IntrinsicFolding.FoldingContext.Say | flang/lib/Evaluate/fold-logical.cpp:132-134 | reporting appends one diagnostic to the context's messages |
| IntrinsicFolding.FoldingContext.FoldBtestElements | flang/lib/Evaluate/fold-logical.cpp:121-137 | BTEST computes every element's bit test and appends one POS-out-of-range diagnostic per position outside [0, bits), in element order |
| IntrinsicFolding.FoldingContext.FoldIntrinsicFunction | flang/lib/Evaluate/fold-logical.cpp:42-372 | the dispatcher's result, argument array afterwards and appended diagnostics are those of the per-intrinsic specification functions |
| IntrinsicProperties.DispatchReduction | flang/lib/Evaluate/fold-logical.cpp:52-57 | ALL, ANY and PARITY are dispatched to the whole-array reduction |
| IntrinsicProperties.ReductionOfWholeArray | flang/lib/Evaluate/fold-logical.cpp:28-40 | with no DIM, a constant MASK folds to its reduction from the identity, and the arguments are unchanged with no diagnostic |
| IntrinsicProperties.ReductionMeaning | flang/lib/Evaluate/fold-logical.cpp:52-57 | with no DIM, ALL is "every element is true", ANY is "some element is true", and PARITY is "an odd number of elements are true" |
| IntrinsicProperties.ReductionOfEmptyIsIdentity | flang/lib/Evaluate/fold-logical.cpp:28-40 | ALL of an empty array is .TRUE.; ANY and PARITY of one are .FALSE. |
| IntrinsicProperties.AllExample | flang/lib/Evaluate/fold-logical.cpp:52-54 | ALL([T,T,F]) folds to .FALSE. |
| IntrinsicProperties.AnyExample | flang/lib/Evaluate/fold-logical.cpp:55-57 | ANY([F,F,T]) folds to .TRUE. |
| IntrinsicProperties.ParityExample | flang/lib/Evaluate/fold-logical.cpp:343-345 | PARITY([T,T,F]) folds to .FALSE. |
| IntrinsicProperties.ReductionOfNonConstantIsUnchanged | flang/lib/Evaluate/fold-logical.cpp:33-39 | a MASK that is not a constant leaves the reference unevaluated |
| IntrinsicProperties.AssociatedFoldsOnlyNullPointers | flang/lib/Evaluate/fold-logical.cpp:58-69 | ASSOCIATED folds to .FALSE. exactly when its pointer argument is NULL() and its target argument is absent or NULL(); otherwise nothing changes |
| IntrinsicProperties.DispatchBitCompare | flang/lib/Evaluate/fold-logical.cpp:70 | the four names BGE..BLT are dispatched to the bit comparison |
| IntrinsicProperties.ZeroExtendScalar | flang/lib/Evaluate/fold-logical.cpp:17-24 | zero-extending a scalar constant gives the scalar of the zero-extended value |
| IntrinsicProperties.BitCompareValuesScalar | flang/lib/Evaluate/fold-logical.cpp:111-117 | on two scalars the folded value is the unsigned relation of the 128-bit readings |
| IntrinsicProperties.BitCompareScalarsFold | flang/lib/Evaluate/fold-logical.cpp:70-120 | on INTEGER scalars of any two kinds, the bit-comparison branch compares the operands' own-width unsigned readings and writes the zero-extended constants into both slots |
| IntrinsicProperties.BitCompareOfIntegerScalars | flang/lib/Evaluate/fold-logical.cpp:70-120 | the same through the dispatcher, with no diagnostic |
| IntrinsicProperties.BgeOfMinusOneAndOne | flang/lib/Evaluate/fold-logical.cpp:70-120 | BGE(-1 of kind 1, 1 of kind 8) folds to .TRUE., because -1 of kind 1 has the pattern 255 |
| IntrinsicProperties.WidestElement | flang/lib/Evaluate/fold-logical.cpp:79-92 | element i of an operand's widest-kind constant reads, unsigned at 128 bits, as the operand's own element i reads at its own kind (a BOZ literal as its pattern) |
| IntrinsicProperties.BitCompareOfConstants | flang/lib/Evaluate/fold-logical.cpp:70-120 | for any two BOZ literals or INTEGER constants of conforming shape, of any kinds, BGE..BLT fold to a constant of the common shape whose element i is the relation between the two operands' element i read as unsigned numbers at their own kinds, a scalar standing for every element, with no diagnostic |
| IntrinsicProperties.BitCompareOfConstantsFolds | flang/lib/Evaluate/fold-logical.cpp:70-120 | the same through the dispatcher |
| IntrinsicProperties.BgeOfBozAndMinusOne | flang/lib/Evaluate/fold-logical.cpp:70-120 | BGE(Z'FF', -1 of kind 1) folds to .TRUE., because both read as 255 |
| IntrinsicProperties.BitCompareNeedsTwoConstants | flang/lib/Evaluate/fold-logical.cpp:78-120 | BGE..BLT fold only when both arguments are BOZ literals or INTEGER constants; otherwise the reference and its arguments are unchanged |
| IntrinsicProperties.BtestOfScalars | flang/lib/Evaluate/fold-logical.cpp:121-137 | BTEST of two INTEGER scalars always folds to the bit test; a position outside [0, bits) reports exactly one diagnostic and tests .FALSE. |
| IntrinsicProperties.BtestOfTopBitIsSign | flang/lib/Evaluate/fold-logical.cpp:121-137 | BTEST of an INTEGER scalar at its top bit position folds to whether the value is negative |
| IntrinsicProperties.BtestMessagesCount | flang/lib/Evaluate/fold-logical.cpp:129-135 | the diagnostics for n elements are as many as the elements whose position is out of range, and each names an out-of-range position |
| IntrinsicProperties.BtestOneMessagePerOutOfRangeElement | flang/lib/Evaluate/fold-logical.cpp:121-140 | BTEST of conforming INTEGER constants folds element-wise and reports one diagnostic per out-of-range position |
| IntrinsicProperties.DispatchIostat | flang/lib/Evaluate/fold-logical.cpp:198-215 | IS_IOSTAT_END and IS_IOSTAT_EOR are dispatched to the sentinel test with their own sentinel |
| IntrinsicProperties.IostatValuesScalar | flang/lib/Evaluate/fold-logical.cpp:201-205 | on a scalar, the sentinel test is the comparison of the low 64-bit patterns |
| IntrinsicProperties.IostatOfScalar | flang/lib/Evaluate/fold-logical.cpp:198-215 | for an INTEGER scalar of any kind, IS_IOSTAT_END(v) and IS_IOSTAT_EOR(v) compare v's low 64 bits with those of -1 and -2; for INTEGER kinds of at most 8 bytes this is v == -1 and v == -2 |
| IntrinsicProperties.IostatOfConstant | flang/lib/Evaluate/fold-logical.cpp:198-215 | for an INTEGER constant of any kind and shape, IS_IOSTAT_END/EOR fold element-wise with no diagnostic: element i is true iff its low 64 bits are those of -1 (END) or -2 (EOR), and for kinds of at most 8 bytes iff it equals -1 or -2 |
| IntrinsicProperties.NarrowIostatIsEquality | flang/lib/Evaluate/fold-logical.cpp:201-205 | for a value of at most 64 bits, equal low 64-bit patterns mean equal values |
| IntrinsicProperties.DispatchOutOfRange | flang/lib/Evaluate/fold-logical.cpp:234 | OUT_OF_RANGE is dispatched to its fold |
| IntrinsicProperties.OutOfRangeIntegerMold | flang/lib/Evaluate/fold-logical.cpp:277-293 | for any argument list X, MOLD, followed by the ROUND slot or not: with an INTEGER mold and an X that folds to an INTEGER constant, element i is true iff it is not representable in the mold's kind, argument 0 holds the folded X and the other slots are kept |
| IntrinsicProperties.WideningIsNeverOutOfRange | flang/lib/Evaluate/fold-logical.cpp:277-293 | with or without the ROUND slot, a mold at least as wide as X's kind gives .FALSE. everywhere |
| IntrinsicProperties.OutOfRangeOfNonConstantIsUnchanged | flang/lib/Evaluate/fold-logical.cpp:235-239 | with or without the ROUND slot, an X that does not fold to a constant leaves the reference unevaluated, with X replaced by its folded form |
| IntrinsicProperties.IeeeSupportQueriesAreTrue | flang/lib/Evaluate/fold-logical.cpp:358-368 | the ten IEEE support inquiries fold to .TRUE. whatever their arguments |
| IntrinsicProperties.UnrecognizedNameIsUnchanged | flang/lib/Evaluate/fold-logical.cpp:370-371 | a name the folder does not know leaves the reference and its arguments as they are |

## Left out

- DOT_PRODUCT, EXTENDS_TYPE_OF, SAME_TYPE_AS, IS_CONTIGUOUS, LGE/LGT/LLE/LLT and LOGICAL: their folds rest on code outside this file (dynamic-type tests, contiguity analysis, CHARACTER conversion, kind conversion). They are the `elsewhere` parameter.
- ISNAN, IEEE_IS_NAN, IEEE_IS_NEGATIVE, IEEE_IS_NORMAL, and the REAL branches of OUT_OF_RANGE (REAL mold, or REAL X, with the ROUND argument): they need IEEE floating point, which is not modelled. They are the `elsewhere` parameter.
- REAL and CHARACTER relational operators: these instantiations need floating-point comparison and collating order; only INTEGER and COMPLEX relations are modelled.
- ALL, ANY and PARITY with DIM: the per-dimension reduction engine is not part of this model. The folded value is `elsewhere`'s.
- The reduction-argument resolver (MASK broadcasting and DIM validation) is not part of this model; a LOGICAL constant MASK is taken as resolved.
- Constant operands of non-conforming shape (relations, binary logical operations, BGE..BLT, BTEST) are returned unfolded. The diagnostic that the element-wise framework reports for them is not modelled.
- Constant-valued forms other than constant leaves (a parenthesised constant, say) are not unwrapped: an INTEGER or LOGICAL `Opaque` leaf marked constant is accepted as an argument but does not fold in BGE..BLT, BTEST or IS_IOSTAT_END/EOR.
- Element-wise folding of non-constant array expressions (array constructors whose elements are expressions) is not modelled; only constant operands fold.
- Diagnostics reported by the folds left to `elsewhere` (the DIM reduction engine, CHARACTER comparison, LOGICAL conversion, contiguity, DOT_PRODUCT and the REAL folds) are not modelled: `elsewhere` returns only the folded expression, so the model reports nothing on those paths.
- The suppression of diagnostics (`DiscardMessages`) in the OUT_OF_RANGE and IEEE branches is not modelled: no diagnostic is reported on those paths in the model.
- The conversion of BTEST's POS and of the IS_IOSTAT argument to another INTEGER kind inside the element-wise folder is not modelled. Any INTEGER constant is accepted, and IS_IOSTAT converts its value to 64 bits.
- The narrowing of BTEST's 64-bit position to `int` before the bit test is not modelled. Positions outside [0, bits) test false, which is the integer library's rule (that library is not part of this model).
- The runtime's end-of-file and end-of-record status codes, -1 and -2, come from the runtime's magic-numbers header, which is not part of this model.
- LOGICAL kinds are not distinguished: every LOGICAL constant is a sequence of truth values.
- Template instantiation per kind, the assertion that the procedure is a specific intrinsic, and the `Expr` wrappers of the C++ type system have no counterpart.
