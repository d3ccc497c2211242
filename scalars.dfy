/**
 * The scalar value model the folder consumes: two's-complement integers of a
 * given bit width, their signed and unsigned readings, conversion with an
 * overflow flag, the bit test, and the orderings that relational operators
 * are mapped through.
 */
module Scalars {

  /** Bit width of the widest INTEGER kind (kind 16); BOZ literals have this width. */
  const LargestIntBits: nat := 128

  /** The bit widths of the INTEGER kinds 1, 2, 4, 8 and 16. */
  predicate IsIntegerKindBits(bits: nat)
  {
    bits == 8 || bits == 16 || bits == 32 || bits == 64 || bits == 128
  }

  function Pow2(n: nat): (r: nat)
    ensures r >= 1
  {
    if n == 0 then 1 else 2 * Pow2(n - 1)
  }

  lemma {:induction false} Pow2Monotonic(m: nat, n: nat)
    requires m <= n
    ensures Pow2(m) <= Pow2(n)
  {
    if m < n {
      Pow2Monotonic(m, n - 1);
    }
  }

  /** Whether v is representable as a two's-complement integer of the given width. */
  predicate InRange(bits: nat, v: int)
  {
    bits > 0 && -(Pow2(bits - 1) as int) <= v < Pow2(bits - 1)
  }

  /** The bit pattern of v in a field of the given width, read as an unsigned number. */
  function Unsigned(bits: nat, v: int): (u: nat)
    ensures u < Pow2(bits)
  {
    v % Pow2(bits)
  }

  /** The two's-complement reading of the low `bits` bits of p. */
  function Signed(bits: nat, p: int): (v: int)
    requires bits > 0
    ensures InRange(bits, v)
    ensures Unsigned(bits, v) == Unsigned(bits, p)
  {
    var u := Unsigned(bits, p);
    var m := Pow2(bits);
    assert m == 2 * Pow2(bits - 1);
    if u < Pow2(bits - 1) then
      ModOfRange(u, m);
      u
    else
      ModShiftDown(u, m);
      u - m
  }

  lemma ModOfRange(u: int, m: int)
    requires 0 <= u < m
    ensures u % m == u
  {
  }

  lemma ModShiftDown(u: int, m: int)
    requires 0 <= u < m
    ensures (u - m) % m == u
  {
  }

  /** A value of a two's-complement kind reads back unchanged through its own pattern. */
  lemma SignedOfInRange(bits: nat, v: int)
    requires InRange(bits, v)
    ensures Signed(bits, v) == v
  {
    var m := Pow2(bits);
    assert m == 2 * Pow2(bits - 1);
    if v >= 0 {
      ModOfRange(v, m);
    } else {
      ModShiftUp(v, m);
    }
  }

  /** Two values of one kind are equal exactly when their bit patterns are. */
  lemma SamePatternSameValue(bits: nat, a: int, b: int)
    requires InRange(bits, a) && InRange(bits, b)
    ensures Unsigned(bits, a) == Unsigned(bits, b) <==> a == b
  {
    SignedOfInRange(bits, a);
    SignedOfInRange(bits, b);
  }

  lemma ModShiftUp(v: int, m: int)
    requires -m <= v < 0
    ensures v % m == v + m
  {
  }

  /** Result of a conversion between integer kinds: the value keeps the low bits. */
  datatype Converted = Converted(value: int, overflow: bool)

  /** Conversion of an integer to a signed kind of the given width, with its overflow flag. */
  function ConvertSigned(bits: nat, v: int): (r: Converted)
    requires bits > 0
    ensures InRange(bits, r.value)
    ensures Unsigned(bits, r.value) == Unsigned(bits, v)
    ensures r.overflow <==> !InRange(bits, v)
    ensures !r.overflow ==> r.value == v
  {
    if InRange(bits, v) then SignedOfInRange(bits, v); Converted(Signed(bits, v), false)
    else Converted(Signed(bits, v), true)
  }

  /**
   * The value of the widest kind whose bit pattern is v's pattern of the given
   * width, zero-extended: reading it unsigned gives the unsigned reading of v.
   */
  function ZeroExtended(bits: nat, v: int): (r: int)
    requires 0 < bits <= LargestIntBits
    ensures InRange(LargestIntBits, r)
    ensures Unsigned(LargestIntBits, r) == Unsigned(bits, v)
  {
    var u := Unsigned(bits, v);
    Pow2Monotonic(bits, LargestIntBits);
    ModOfRange(u, Pow2(LargestIntBits));
    Signed(LargestIntBits, u)
  }

  /**
   * Whether bit `pos` of v's pattern is set; a position outside [0, bits)
   * tests false.
   */
  function BitTest(bits: nat, v: int, pos: int): bool
  {
    0 <= pos < bits && (Unsigned(bits, v) / Pow2(pos)) % 2 == 1
  }

  /** The top bit of a two's-complement value is its sign. */
  lemma SignBit(bits: nat, v: int)
    requires InRange(bits, v)
    ensures BitTest(bits, v, bits - 1) <==> v < 0
  {
    var h := Pow2(bits - 1);
    var m := Pow2(bits);
    assert m == 2 * h;
    var u := Unsigned(bits, v);
    if v >= 0 {
      ModOfRange(v, m);
      assert u / h == 0;
    } else {
      ModShiftUp(v, m);
      assert h <= u < 2 * h;
      DivInBand(u, h);
    }
  }

  lemma DivInBand(u: int, h: int)
    requires 0 < h <= u < 2 * h
    ensures u / h == 1
  {
  }

  datatype Ordering = Less | Equal | Greater

  /** Three-way comparison of two integers read as mathematical values. */
  function Compare(x: int, y: int): (o: Ordering)
    ensures o == Less <==> x < y
    ensures o == Greater <==> x > y
  {
    if x < y then Less else if x > y then Greater else Equal
  }

  /** Signed comparison of two values of one INTEGER kind. */
  function CompareSigned(x: int, y: int): Ordering
  {
    Compare(x, y)
  }

  /** Unsigned comparison of two values of the widest kind, by their bit patterns. */
  function CompareUnsigned(x: int, y: int): Ordering
  {
    Compare(Unsigned(LargestIntBits, x), Unsigned(LargestIntBits, y))
  }

  datatype RelationalOperator = LT | LE | EQ | NE | GE | GT

  /** Whether an ordering satisfies a relational operator. */
  function Satisfies(opr: RelationalOperator, order: Ordering): bool
  {
    match order
    case Less => opr == LT || opr == LE || opr == NE
    case Equal => opr == LE || opr == EQ || opr == GE
    case Greater => opr == NE || opr == GE || opr == GT
  }

  /** The relation an operator names, on mathematical integers. */
  function Holds(opr: RelationalOperator, x: int, y: int): bool
  {
    match opr
    case LT => x < y
    case LE => x <= y
    case EQ => x == y
    case NE => x != y
    case GE => x >= y
    case GT => x > y
  }

  /** The operator with its operands swapped: x opr y == y Converse(opr) x. */
  function Converse(opr: RelationalOperator): RelationalOperator
  {
    match opr
    case LT => GT
    case LE => GE
    case EQ => EQ
    case NE => NE
    case GE => LE
    case GT => LT
  }
}
