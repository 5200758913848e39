/**
 * The int64 operator objects of Python/pyCombBLAS/pyOperations.cpp.  A
 * `UnaryFunction`/`BinaryFunction` wraps a concrete operator; the glue
 * operators (bind, compose, not) refer to other operator objects.  Here an
 * operator is a value of the datatypes below and `Apply`/`Apply2` give its
 * result.  Signed int64 arithmetic wraps modulo 2^64 as the hardware does;
 * division and remainder truncate toward zero as in C++ and are defined
 * only where C++ defines them.
 */
module Operations {
  import opened Machine

  datatype Unary =
    | Identity | Negate | BitwiseNot | LogicalNot | Abs                        // 28-32
    | Set(value: Int64)                                                        // 37-52
    | SafeMultInv                                                              // 54-66
    | Bind(op: Binary, which: int, bindval: Int64)                             // 122-150
    | Compose1(f: Unary, g: Unary)                                             // 156-173
    | Compose2(f2: Binary, g1: Unary, g2: Unary)                               // 176-194
    | Not1(u: Unary)                                                           // 199-217

  datatype Binary =
    | Plus | Minus | Multiplies | Divides | Modulus                            // 92-96
    | Max | Min                                                                // 98-99
    | BitwiseAnd | BitwiseOr | BitwiseXor                                      // 101-103
    | LogicalAnd | LogicalOr | LogicalXor                                      // 104-106
    | EqualTo | NotEqualTo | Greater | Less | GreaterEqual | LessEqual         // 108-113
    | Not2(b: Binary)                                                          // 220-236

  /** `bind1st(op, val)` (140-144) and `bind2nd(op, val)` (146-150). */
  function Bind1st(op: Binary, val: Int64): Unary { Bind(op, 1, val) }
  function Bind2nd(op: Binary, val: Int64): Unary { Bind(op, 2, val) }

  // ---------------------------------------------------------------------
  // C++ int64 arithmetic
  // ---------------------------------------------------------------------

  /** A C++ bool converted back to the operand type. */
  function B2I(b: bool): Int64 { if b then 1 else 0 }

  /** C++ `/`: the quotient truncated toward zero. */
  function TruncDiv(x: int, y: int): int
    requires y != 0
  {
    var q := (if x < 0 then -x else x) / (if y < 0 then -y else y);
    if (x < 0) == (y < 0) then q else -q
  }

  /** C++ `%`: the remainder that keeps the sign of the dividend. */
  function TruncMod(x: int, y: int): int
    requires y != 0
  {
    x - TruncDiv(x, y) * y
  }

  /** q * b >= q for b >= 1. */
  lemma MulMono(q: nat, b: nat)
    requires b >= 1
    ensures q * b >= q
  {
    assert q * b == q * (b - 1) + q;
  }

  /** Euclidean division on naturals. */
  lemma NatDivMod(a: nat, b: nat)
    requires b > 0
    ensures (a / b) * b + a % b == a && 0 <= a % b < b && 0 <= a / b <= a
  {
    MulMono(a / b, b);
  }

  /** Truncating division satisfies (x / y) * y + x % y == x, with |x % y| < |y| and x % y taking x's sign. */
  lemma TruncDivMod(x: int, y: int)
    requires y != 0
    ensures TruncDiv(x, y) * y + TruncMod(x, y) == x
    ensures x >= 0 ==> 0 <= TruncMod(x, y) < (if y > 0 then y else -y)
    ensures x < 0 ==> -(if y > 0 then y else -y) < TruncMod(x, y) <= 0
    ensures -(if x < 0 then -x else x) <= TruncDiv(x, y) <= (if x < 0 then -x else x)
  {
    var a: nat, b: nat := if x < 0 then -x else x, if y < 0 then -y else y;
    var q := a / b;
    NatDivMod(a, b);
    var p := q * b;
    assert a == p + a % b;
    var t := TruncDiv(x, y);
    MulSigns(q, b);
    if x < 0 && y < 0 {
      assert t == q && t * y == -p;
    } else if x < 0 {
      assert t == -q && t * y == -p;
    } else if y < 0 {
      assert t == -q && t * y == p;
    } else {
      assert t == q && t * y == p;
    }
  }

  /** How signs move through a product. */
  lemma MulSigns(q: int, b: int)
    ensures (-q) * b == -(q * b) && q * (-b) == -(q * b) && (-q) * (-b) == q * b
  {
  }

  /** C++ leaves x / y and x % y undefined for y == 0 and for INT64_MIN / -1. */
  predicate DivDefined(x: Int64, y: Int64)
  {
    y != 0 && !(x == Int64Min && y == -1)
  }

  /** Where C++ defines them, int64 quotient and remainder are int64 values. */
  lemma DivInRange(x: Int64, y: Int64)
    requires DivDefined(x, y)
    ensures Int64Min <= TruncDiv(x, y) <= Int64Max
    ensures Int64Min <= TruncMod(x, y) <= Int64Max
  {
    TruncDivMod(x, y);
    if x == Int64Min && y != 1 {
      var a: nat, b: nat := -(x as int), if y < 0 then -(y as int) else y;
      var q := a / b;
      NatDivMod(a, b);
      assert q * b == q * (b - 2) + 2 * q;
      assert TruncDiv(x, y) == q || TruncDiv(x, y) == -q;
    }
  }

  // ---------------------------------------------------------------------
  // Bitwise operators, on the two's-complement pattern read as unsigned
  // ---------------------------------------------------------------------

  /** 2^k. */
  function Pow2(k: nat): (p: nat)
    ensures p >= 1
  {
    if k == 0 then 1 else 2 * Pow2(k - 1)
  }

  /** 2^(a + b) == 2^a * 2^b. */
  lemma {:induction false} Pow2Add(a: nat, b: nat)
    ensures Pow2(a + b) == Pow2(a) * Pow2(b)
    decreases a
  {
    if a > 0 {
      Pow2Add(a - 1, b);
    }
  }

  /** 2^64 is the width of an int64. */
  lemma Pow2Word()
    ensures Pow2(64) == TwoTo64
  {
    assert Pow2(1) == 2;
    Pow2Add(1, 1);
    assert Pow2(2) == 4;
    Pow2Add(2, 2);
    assert Pow2(4) == 16;
    Pow2Add(4, 4);
    assert Pow2(8) == 256;
    Pow2Add(8, 8);
    assert Pow2(16) == 65536;
    Pow2Add(16, 16);
    assert Pow2(32) == 4294967296;
    Pow2Add(32, 32);
  }

  /** The bit pattern of an int64, read as an unsigned number. */
  function Unsigned(x: Int64): (u: nat)
    ensures u < TwoTo64
    ensures (u - x) % TwoTo64 == 0
  {
    if x < 0 then x + TwoTo64 else x
  }

  /** The int64 whose bit pattern an unsigned 64-bit number is. */
  function Signed(u: nat): (x: Int64)
    requires u < TwoTo64
    ensures Unsigned(x) == u
  {
    if u > Int64Max then u - TwoTo64 else u
  }

  /** Reading back the pattern of an int64 gives the int64. */
  lemma SignedUnsigned(x: Int64)
    ensures Signed(Unsigned(x)) == x
  {
  }

  /** The three bitwise combinations. */
  datatype BitKind = AndBit | OrBit | XorBit

  /** One bit of the result from one bit of each operand. */
  function BitOf(kind: BitKind, a: nat, b: nat): nat
    requires a < 2 && b < 2
  {
    match kind
    case AndBit => a * b
    case OrBit => if a + b > 0 then 1 else 0
    case XorBit => (a + b) % 2
  }

  /** The low k bits of a and b combined bit by bit. */
  function Bits(kind: BitKind, a: nat, b: nat, k: nat): (r: nat)
    ensures r < Pow2(k)
  {
    if k == 0 then 0
    else BitOf(kind, a % 2, b % 2) + 2 * Bits(kind, a / 2, b / 2, k - 1)
  }

  /** Bitwise operators do not depend on the order of their operands. */
  lemma {:induction false} BitsCommute(kind: BitKind, a: nat, b: nat, k: nat)
    ensures Bits(kind, a, b, k) == Bits(kind, b, a, k)
  {
    if k > 0 {
      BitOfCommutes(kind, a % 2, b % 2);
      BitsCommute(kind, a / 2, b / 2, k - 1);
    }
  }

  lemma BitOfCommutes(kind: BitKind, a: nat, b: nat)
    requires a < 2 && b < 2
    ensures BitOf(kind, a, b) == BitOf(kind, b, a)
  {
  }

  /** Combining with the same b twice under xor gives a back. */
  lemma {:induction false} XorTwice(a: nat, b: nat, k: nat)
    requires a < Pow2(k)
    ensures Bits(XorBit, Bits(XorBit, a, b, k), b, k) == a
  {
    if k > 0 {
      var t, s := BitOf(XorBit, a % 2, b % 2), Bits(XorBit, a / 2, b / 2, k - 1);
      var c := Bits(XorBit, a, b, k);
      assert c == t + 2 * s;
      assert c % 2 == t && c / 2 == s;
      XorTwice(a / 2, b / 2, k - 1);
    }
  }

  /** And with all k bits set keeps a. */
  lemma {:induction false} AndAllOnes(a: nat, k: nat)
    requires a < Pow2(k)
    ensures Bits(AndBit, a, Pow2(k) - 1, k) == a
  {
    if k > 0 {
      assert (Pow2(k) - 1) % 2 == 1 && (Pow2(k) - 1) / 2 == Pow2(k - 1) - 1;
      AndAllOnes(a / 2, k - 1);
    }
  }

  /** Or with zero keeps a. */
  lemma {:induction false} OrZero(a: nat, k: nat)
    requires a < Pow2(k)
    ensures Bits(OrBit, a, 0, k) == a
  {
    if k > 0 {
      OrZero(a / 2, k - 1);
    }
  }

  /** A bitwise operator on int64: combine the two patterns bit by bit. */
  function Bitwise(kind: BitKind, x: Int64, y: Int64): Int64
  {
    Pow2Word();
    Signed(Bits(kind, Unsigned(x), Unsigned(y), 64))
  }

  // ---------------------------------------------------------------------
  // Evaluation
  // ---------------------------------------------------------------------

  /** Where a binary operator's C++ body is defined. */
  predicate Defined2(op: Binary, x: Int64, y: Int64)
  {
    match op
    case Divides => DivDefined(x, y)
    case Modulus => DivDefined(x, y)
    case Not2(b) => Defined2(b, x, y)
    case _ => true
  }

  /** A binary operator's `operator()(x, y)`. */
  function Apply2(op: Binary, x: Int64, y: Int64): Int64
    requires Defined2(op, x, y)
  {
    match op
    case Plus => Wrap(x + y)
    case Minus => Wrap(x - y)
    case Multiplies => Wrap(x * y)
    case Divides => DivInRange(x, y); TruncDiv(x, y)
    case Modulus => DivInRange(x, y); TruncMod(x, y)
    case Max => if x < y then y else x
    case Min => if y < x then y else x
    case BitwiseAnd => Bitwise(AndBit, x, y)
    case BitwiseOr => Bitwise(OrBit, x, y)
    case BitwiseXor => Bitwise(XorBit, x, y)
    case LogicalAnd => B2I(x != 0 && y != 0)
    case LogicalOr => B2I(x != 0 || y != 0)
    case LogicalXor => B2I((x != 0 || y != 0) && !(x != 0 && y != 0))
    case EqualTo => B2I(x == y)
    case NotEqualTo => B2I(x != y)
    case Greater => B2I(x > y)
    case Less => B2I(x < y)
    case GreaterEqual => B2I(x >= y)
    case LessEqual => B2I(x <= y)
    case Not2(b) => B2I(Apply2(b, x, y) == 0)
  }

  /** Where a unary operator's C++ body is defined. */
  predicate Defined(u: Unary, x: Int64)
    decreases u, 0
  {
    match u
    case Bind(op, which, v) => if which == 1 then Defined2(op, v, x) else Defined2(op, x, v)
    case Compose1(f, g) => Defined(g, x) && Defined(f, Apply(g, x))
    case Compose2(f, g1, g2) => Defined(g1, x) && Defined(g2, x) && Defined2(f, Apply(g1, x), Apply(g2, x))
    case Not1(f) => Defined(f, x)
    case _ => true
  }

  /** A unary operator's `operator()(x)`. */
  function Apply(u: Unary, x: Int64): Int64
    requires Defined(u, x)
    decreases u, 1
  {
    match u
    case Identity => x
    case Negate => Wrap(-(x as int))
    case BitwiseNot => -(x as int) - 1
    case LogicalNot => B2I(x == 0)
    case Abs => if x < 0 then Wrap(-(x as int)) else x
    case Set(v) => v
    case SafeMultInv => if x == 0 then Int64Max else TruncDiv(1, x)
    case Bind(op, which, v) => if which == 1 then Apply2(op, v, x) else Apply2(op, x, v)
    case Compose1(f, g) => Apply(f, Apply(g, x))
    case Compose2(f, g1, g2) => Apply2(f, Apply(g1, x), Apply(g2, x))
    case Not1(f) => B2I(Apply(f, x) == 0)
  }

  // ---------------------------------------------------------------------
  // Laws
  // ---------------------------------------------------------------------

  /** `set(v)` returns v whatever its argument. */
  lemma SetIgnoresArgument(v: Int64, x: Int64, y: Int64)
    ensures Apply(Set(v), x) == Apply(Set(v), y) == v
  {
  }

  /** `negate` is arithmetic negation away from INT64_MIN, and an involution everywhere. */
  lemma NegateLaw(x: Int64)
    ensures x != Int64Min ==> Apply(Negate, x) == -x
    ensures Apply(Negate, Apply(Negate, x)) == x
    ensures Apply(Negate, Int64Min) == Int64Min
  {
  }

  /** `abs` is x for x >= 0 and -x otherwise, away from INT64_MIN; it is never negative there. */
  lemma AbsLaw(x: Int64)
    requires x != Int64Min
    ensures Apply(Abs, x) == (if x >= 0 then x else -x)
    ensures Apply(Abs, x) >= 0
  {
  }

  /** `logical_not` is 1 exactly at 0. */
  lemma LogicalNotLaw(x: Int64)
    ensures Apply(LogicalNot, x) == 1 <==> x == 0
    ensures Apply(LogicalNot, x) == 0 <==> x != 0
  {
  }

  /** `bitwise_not` is the two's-complement complement: ~x == -x - 1, and ~~x == x. */
  lemma BitwiseNotLaw(x: Int64)
    ensures Apply(BitwiseNot, Apply(BitwiseNot, x)) == x
    ensures Apply2(Plus, x, Apply(BitwiseNot, x)) == -1
  {
  }

  /** `safemultinv`: the int64 maximum at 0, else the truncated reciprocal (1, -1 or 0). */
  lemma SafeMultInvLaw(x: Int64)
    ensures x == 0 ==> Apply(SafeMultInv, x) == Int64Max
    ensures x != 0 ==> Apply(SafeMultInv, x) == TruncDiv(1, x)
    ensures Apply(SafeMultInv, x) == if x == 0 then Int64Max else if x == 1 then 1 else if x == -1 then -1 else 0
  {
    if x != 0 {
      var b: int := if x < 0 then -(x as int) else x;
      assert b >= 2 ==> 1 / b == 0;
    }
  }

  /** Addition, subtraction and multiplication are exact when the true result fits, and congruent modulo 2^64 always. */
  lemma ArithmeticWraps(x: Int64, y: Int64)
    ensures Int64Min <= x + y <= Int64Max ==> Apply2(Plus, x, y) == x + y
    ensures Int64Min <= x - y <= Int64Max ==> Apply2(Minus, x, y) == x - y
    ensures Int64Min <= x * y <= Int64Max ==> Apply2(Multiplies, x, y) == x * y
    ensures (Apply2(Plus, x, y) - (x + y)) % TwoTo64 == 0
    ensures (Apply2(Minus, x, y) - (x - y)) % TwoTo64 == 0
  {
  }

  /** `divides` and `modulus` satisfy the C++ identity (x / y) * y + x % y == x, with the remainder taking x's sign. */
  lemma DivModLaw(x: Int64, y: Int64)
    requires DivDefined(x, y)
    ensures Apply2(Divides, x, y) * y + Apply2(Modulus, x, y) == x
    ensures x >= 0 ==> Apply2(Modulus, x, y) >= 0
    ensures x < 0 ==> Apply2(Modulus, x, y) <= 0
  {
    TruncDivMod(x, y);
  }

  /** C++ truncates where Dafny's `/` floors: (-7) / 2 is -3, not -4. */
  lemma DivTruncatesTowardZero()
    ensures Apply2(Divides, -7, 2) == -3 && Apply2(Modulus, -7, 2) == -1
  {
  }

  /** `max` and `min` pick one argument, the larger or the smaller. */
  lemma MaxMinLaw(x: Int64, y: Int64)
    ensures Apply2(Max, x, y) >= x && Apply2(Max, x, y) >= y && (Apply2(Max, x, y) == x || Apply2(Max, x, y) == y)
    ensures Apply2(Min, x, y) <= x && Apply2(Min, x, y) <= y && (Apply2(Min, x, y) == x || Apply2(Min, x, y) == y)
  {
  }

  /** `bitwise_xor` with the same operand twice gives the first operand back. */
  lemma XorCancels(x: Int64, y: Int64)
    ensures Apply2(BitwiseXor, Apply2(BitwiseXor, x, y), y) == x
  {
    Pow2Word();
    XorTwice(Unsigned(x), Unsigned(y), 64);
  }

  /** `bitwise_and` with -1 (all bits set) and `bitwise_or` with 0 are identities. */
  lemma BitwiseIdentities(x: Int64)
    ensures Apply2(BitwiseAnd, x, -1) == x
    ensures Apply2(BitwiseOr, x, 0) == x
  {
    Pow2Word();
    AndAllOnes(Unsigned(x), 64);
    OrZero(Unsigned(x), 64);
  }

  /** The bitwise operators are commutative. */
  lemma BitwiseCommutes(x: Int64, y: Int64)
    ensures Apply2(BitwiseAnd, x, y) == Apply2(BitwiseAnd, y, x)
    ensures Apply2(BitwiseOr, x, y) == Apply2(BitwiseOr, y, x)
    ensures Apply2(BitwiseXor, x, y) == Apply2(BitwiseXor, y, x)
  {
    BitwiseSymmetric(AndBit, x, y);
    BitwiseSymmetric(OrBit, x, y);
    BitwiseSymmetric(XorBit, x, y);
  }

  lemma BitwiseSymmetric(kind: BitKind, x: Int64, y: Int64)
    ensures Bitwise(kind, x, y) == Bitwise(kind, y, x)
  {
    BitsCommute(kind, Unsigned(x), Unsigned(y), 64);
  }

  /** Is the operator 0/1-valued on every argument where it is defined? */
  predicate IsPredicate2(op: Binary)
  {
    op.LogicalAnd? || op.LogicalOr? || op.LogicalXor? || op.EqualTo? || op.NotEqualTo?
    || op.Greater? || op.Less? || op.GreaterEqual? || op.LessEqual? || op.Not2?
  }

  /** The comparison and logical operators return 0 or 1, and 1 exactly when their relation holds. */
  lemma ComparisonsAreZeroOne(op: Binary, x: Int64, y: Int64)
    requires IsPredicate2(op) && Defined2(op, x, y)
    ensures Apply2(op, x, y) == 0 || Apply2(op, x, y) == 1
    ensures op.EqualTo? ==> (Apply2(op, x, y) == 1 <==> x == y)
    ensures op.NotEqualTo? ==> (Apply2(op, x, y) == 1 <==> x != y)
    ensures op.Greater? ==> (Apply2(op, x, y) == 1 <==> x > y)
    ensures op.Less? ==> (Apply2(op, x, y) == 1 <==> x < y)
    ensures op.GreaterEqual? ==> (Apply2(op, x, y) == 1 <==> x >= y)
    ensures op.LessEqual? ==> (Apply2(op, x, y) == 1 <==> x <= y)
    ensures op.LogicalAnd? ==> (Apply2(op, x, y) == 1 <==> x != 0 && y != 0)
    ensures op.LogicalOr? ==> (Apply2(op, x, y) == 1 <==> x != 0 || y != 0)
    ensures op.LogicalXor? ==> (Apply2(op, x, y) == 1 <==> (x != 0) != (y != 0))
  {
  }

  /** `bind1st(op, v)(x) == op(v, x)` and `bind2nd(op, v)(x) == op(x, v)`. */
  lemma BindLaw(op: Binary, v: Int64, x: Int64)
    ensures Defined(Bind1st(op, v), x) <==> Defined2(op, v, x)
    ensures Defined2(op, v, x) ==> Apply(Bind1st(op, v), x) == Apply2(op, v, x)
    ensures Defined(Bind2nd(op, v), x) <==> Defined2(op, x, v)
    ensures Defined2(op, x, v) ==> Apply(Bind2nd(op, v), x) == Apply2(op, x, v)
  {
  }

  /** `compose1(f, g)(x) == f(g(x))` and `compose2(f, g1, g2)(x) == f(g1(x), g2(x))`. */
  lemma ComposeLaw(f: Unary, g: Unary, f2: Binary, g1: Unary, g2: Unary, x: Int64)
    ensures Defined(g, x) && Defined(f, Apply(g, x)) ==>
      Defined(Compose1(f, g), x) && Apply(Compose1(f, g), x) == Apply(f, Apply(g, x))
    ensures Defined(g1, x) && Defined(g2, x) && Defined2(f2, Apply(g1, x), Apply(g2, x)) ==>
      Defined(Compose2(f2, g1, g2), x) && Apply(Compose2(f2, g1, g2), x) == Apply2(f2, Apply(g1, x), Apply(g2, x))
  {
    if Defined(g, x) && Defined(f, Apply(g, x)) {
      Compose1Step(f, g, x);
    }
    if Defined(g1, x) && Defined(g2, x) && Defined2(f2, Apply(g1, x), Apply(g2, x)) {
      Compose2Step(f2, g1, g2, x);
    }
  }

  /** One unfolding of `compose1`. */
  lemma Compose1Step(f: Unary, g: Unary, x: Int64)
    requires Defined(g, x) && Defined(f, Apply(g, x))
    ensures Defined(Compose1(f, g), x) && Apply(Compose1(f, g), x) == Apply(f, Apply(g, x))
  {
  }

  /** One unfolding of `compose2`. */
  lemma Compose2Step(f: Binary, g1: Unary, g2: Unary, x: Int64)
    requires Defined(g1, x) && Defined(g2, x) && Defined2(f, Apply(g1, x), Apply(g2, x))
    ensures Defined(Compose2(f, g1, g2), x) && Apply(Compose2(f, g1, g2), x) == Apply2(f, Apply(g1, x), Apply(g2, x))
  {
  }

  /** `compose1` with `identity` on either side changes nothing. */
  lemma ComposeIdentity(f: Unary, x: Int64)
    requires Defined(f, x)
    ensures Defined(Compose1(f, Identity), x) && Apply(Compose1(f, Identity), x) == Apply(f, x)
    ensures Defined(Compose1(Identity, f), x) && Apply(Compose1(Identity, f), x) == Apply(f, x)
  {
  }

  /** `not1(f)(x)` is 1 exactly when f(x) == 0, and `not2(f)(x, y)` is 1 exactly when f(x, y) == 0. */
  lemma NotLaw(f: Unary, b: Binary, x: Int64, y: Int64)
    ensures Defined(f, x) ==> (Apply(Not1(f), x) == 1 <==> Apply(f, x) == 0)
    ensures Defined(f, x) ==> (Apply(Not1(f), x) == 0 <==> Apply(f, x) != 0)
    ensures Defined2(b, x, y) ==> (Apply2(Not2(b), x, y) == 1 <==> Apply2(b, x, y) == 0)
    ensures Defined2(b, x, y) ==> (Apply2(Not2(b), x, y) == 0 <==> Apply2(b, x, y) != 0)
  {
    if Defined(f, x) {
      Not1Step(f, x);
    }
    if Defined2(b, x, y) {
      Not2Step(b, x, y);
    }
  }

  /** One unfolding of `not1`. */
  lemma Not1Step(f: Unary, x: Int64)
    requires Defined(f, x)
    ensures Defined(Not1(f), x) && Apply(Not1(f), x) == B2I(Apply(f, x) == 0)
  {
  }

  /** One unfolding of `not2`. */
  lemma Not2Step(b: Binary, x: Int64, y: Int64)
    requires Defined2(b, x, y)
    ensures Defined2(Not2(b), x, y) && Apply2(Not2(b), x, y) == B2I(Apply2(b, x, y) == 0)
  {
  }

  /** Negating a 0/1-valued unary operator twice gives it back; on other values it gives 1 in place of any non-zero. */
  lemma DoubleNot1(f: Unary, x: Int64)
    requires Defined(f, x)
    ensures Apply(Not1(Not1(f)), x) == B2I(Apply(f, x) != 0)
    ensures Apply(f, x) == 0 || Apply(f, x) == 1 ==> Apply(Not1(Not1(f)), x) == Apply(f, x)
  {
  }

  /** Negating a 0/1-valued binary operator twice gives it back. */
  lemma DoubleNot2(b: Binary, x: Int64, y: Int64)
    requires Defined2(b, x, y)
    ensures Apply2(Not2(Not2(b)), x, y) == B2I(Apply2(b, x, y) != 0)
    ensures Apply2(b, x, y) == 0 || Apply2(b, x, y) == 1 ==> Apply2(Not2(Not2(b)), x, y) == Apply2(b, x, y)
  {
  }

  /** `not1(f)` with f 0/1-valued is `compose1(logical_not, f)`. */
  lemma NotIsComposedLogicalNot(f: Unary, x: Int64)
    requires Defined(f, x)
    ensures Apply(Not1(f), x) == Apply(Compose1(LogicalNot, f), x)
  {
  }
}
