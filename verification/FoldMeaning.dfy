/** What the folded operations mean, in terms of numbers and bits and of none of the
    functions that compute them (foldint in lib/qbe-1.0/fold.c). */
module FoldMeaning {
  import opened Basics
  import opened Folding

  // ----- Numbers and bits -----

  /** The modulus and the number of bits of a class. */
  function Modulus(w: bool): int { if w then 0x1_0000_0000_0000_0000 else 0x1_0000_0000 }

  function Width(w: bool): nat { if w then 64 else 32 }

  /** The numbers agree in their low part below m. */
  ghost predicate Same(m: int, x: int, y: int)
    requires m > 0
  {
    (x - y) % m == 0
  }

  /** u is the low part of x below m, read as an unsigned number. */
  ghost predicate Unsigned(m: int, x: int, u: int)
    requires m > 0
  {
    0 <= u < m && Same(m, x, u)
  }

  /** s is the low part of x below m, read as a number in two's complement. */
  ghost predicate TwosComplement(m: int, x: int, s: int)
    requires m > 0
  {
    -m <= 2 * s < m && Same(m, x, s)
  }

  /** x divided by y is q, with remainder r, rounded towards zero. */
  ghost predicate Truncates(x: int, y: int, q: int, r: int) {
    x == y * q + r && (if y > 0 then -y < r < y else y < r < -y) && (r > 0 ==> x > 0) && (r < 0 ==> x < 0)
  }

  /** q is x divided by p, rounded down. */
  ghost predicate Floors(x: int, p: int, q: int) {
    q * p <= x < q * p + p
  }

  predicate Bit(x: int, k: nat) { (x / Pow2(k)) % 2 == 1 }

  /** c is the part of a shift count that is used. */
  ghost predicate ShiftCount(w: bool, x: int, c: nat) {
    c < Width(w) && Same(Width(w), x, c)
  }

  /** The order of two numbers of the same bits, x and y if signed, u and v if unsigned. */
  ghost predicate Ordered(c: Cmp, x: int, y: int, u: int, v: int) {
    && (c == Eq ==> u == v) && (c == Ne ==> u != v)
    && (c == Sge ==> x >= y) && (c == Sgt ==> x > y) && (c == Sle ==> x <= y) && (c == Slt ==> x < y)
    && (c == Uge ==> u >= v) && (c == Ugt ==> u > v) && (c == Ule ==> u <= v) && (c == Ult ==> u < v)
  }

  // ----- The operations -----

  ghost predicate Quotient(m: int, a: int, b: int, v: int)
    requires m > 0
  {
    exists x, y, q, r :: TwosComplement(m, a, x) && TwosComplement(m, b, y) && Truncates(x, y, q, r) && Same(m, v, q)
  }

  ghost predicate Rest(m: int, a: int, b: int, v: int)
    requires m > 0
  {
    exists x, y, q, r :: TwosComplement(m, a, x) && TwosComplement(m, b, y) && Truncates(x, y, q, r) && Same(m, v, r)
  }

  ghost predicate UnsignedQuotient(m: int, a: int, b: int, v: int)
    requires m > 0
  {
    exists x, y, r :: Unsigned(m, a, x) && Unsigned(m, b, y) && Truncates(x, y, v, r)
  }

  ghost predicate UnsignedRest(m: int, a: int, b: int, v: int)
    requires m > 0
  {
    exists x, y, q :: Unsigned(m, a, x) && Unsigned(m, b, y) && Truncates(x, y, q, v)
  }

  ghost predicate ShiftedRight(w: bool, x: int, b: int, v: int) {
    exists c: nat, q :: ShiftCount(w, b, c) && Floors(x, Pow2(c), q) && Same(Modulus(w), v, q)
  }

  ghost predicate ShiftedLeft(w: bool, a: int, b: int, v: int) {
    exists c: nat :: ShiftCount(w, b, c) && Same(Modulus(w), v, a * Pow2(c))
  }

  ghost predicate SignedShift(w: bool, a: int, b: int, v: int) {
    exists x :: TwosComplement(Modulus(w), a, x) && ShiftedRight(w, x, b, v)
  }

  ghost predicate UnsignedShift(w: bool, a: int, b: int, v: int) {
    exists x :: Unsigned(Modulus(w), a, x) && ShiftedRight(w, x, b, v)
  }

  ghost predicate SignExtends(m: int, a: int, n: int, v: int)
    requires m > 0 && n > 0
  {
    exists s :: TwosComplement(n, a, s) && Same(m, v, s)
  }

  ghost predicate ZeroExtends(m: int, a: int, n: int, v: int)
    requires m > 0 && n > 0
  {
    exists u :: Unsigned(n, a, u) && Same(m, v, u)
  }

  ghost predicate Compares(c: Cmp, m: int, a: int, b: int, v: int)
    requires m > 0
  {
    exists x, y, s, t :: TwosComplement(m, a, x) && TwosComplement(m, b, y) && Unsigned(m, a, s) && Unsigned(m, b, t) &&
      v == if Ordered(c, x, y, s, t) then 1 else 0
  }

  /** v is the result, of class w, of an operation on two words of which only the low parts matter. */
  ghost predicate Computes(op: Op, w: bool, a: Word, b: Word, v: int) {
    var m := Modulus(w);
    0 <= v < m &&
    match op
    case Add => Same(m, v, a + b)
    case Sub => Same(m, v, a - b)
    case Neg => Same(m, v, 0 - a)
    case Mul => Same(m, v, a * b)
    case Div => Quotient(m, a, b, v)
    case Rem => Rest(m, a, b, v)
    case Udiv => UnsignedQuotient(m, a, b, v)
    case Urem => UnsignedRest(m, a, b, v)
    case And => forall k: nat :: k < Width(w) ==> Bit(v, k) == (Bit(a, k) && Bit(b, k))
    case Or => forall k: nat :: k < Width(w) ==> Bit(v, k) == (Bit(a, k) || Bit(b, k))
    case Xor => forall k: nat :: k < Width(w) ==> Bit(v, k) == (Bit(a, k) != Bit(b, k))
    case Sar => SignedShift(w, a, b, v)
    case Shr => UnsignedShift(w, a, b, v)
    case Shl => ShiftedLeft(w, a, b, v)
    case Extsb => SignExtends(m, a, 0x100, v)
    case Extub => ZeroExtends(m, a, 0x100, v)
    case Extsh => SignExtends(m, a, 0x1_0000, v)
    case Extuh => ZeroExtends(m, a, 0x1_0000, v)
    case Extsw => SignExtends(m, a, 0x1_0000_0000, v)
    case Extuw => ZeroExtends(m, a, 0x1_0000_0000, v)
    case Compare(wide, c) => Compares(c, Modulus(wide), a, b, v)
  }

  /** The operation has no result: a division by zero, or of the smallest number by -1. */
  ghost predicate HasNone(op: Op, w: bool, a: Word, b: Word) {
    var m := Modulus(w);
    || ((op.Div? || op.Rem? || op.Udiv? || op.Urem?) && Same(m, b, 0))
    || ((op.Div? || op.Rem?) && Same(m, a, m / 2) && Same(m, b, -1))
  }

  // ----- The helpers of the code mean this -----

  lemma SameMod(m: int, x: int, y: int)
    requires m > 0
    ensures Same(m, x, y) <==> x % m == y % m
  {
    ModSub(m, x, y);
    if x % m == y % m {
      SmallMod(0, m);
    } else {
      assert -m < x % m - y % m < m;
      NonZero(m, x % m - y % m);
    }
  }

  lemma NonZero(m: int, d: int)
    requires m > 0 && -m < d < m && d != 0
    ensures d % m != 0
  {
    if d > 0 {
      SmallMod(d, m);
    } else {
      ModAddMul(m, 1, d);
      SmallMod(d + m, m);
    }
  }

  lemma LowUnsigned(m: int, x: int)
    requires m > 0
    ensures Unsigned(m, x, x % m) && Same(m, x % m, x) && Same(m, x, x % m)
  {
    ModTwice(m, x);
    SameMod(m, x, x % m);
    SameMod(m, x % m, x);
  }

  lemma LowSigned(m: int, x: int)
    requires m > 0
    ensures TwosComplement(m, x, Signed(m, x))
  {
    LowUnsigned(m, x);
    OneLess(m, x, x % m);
  }

  lemma OneLess(m: int, x: int, y: int)
    requires m > 0 && Same(m, x, y)
    ensures Same(m, x, y - m)
  {
    ModAddMul(m, 1, x - y);
  }

  lemma QuotTruncates(x: int, y: int)
    requires y != 0
    ensures Truncates(x, y, Quot(x, y), Remainder(x, y))
  {
    if x >= 0 {
      DivRem(x, y);
    } else {
      DivRem(-x, y);
      Negated(y, (-x) / y);
    }
  }

  lemma DivRem(x: nat, y: int)
    requires y != 0
    ensures x == y * (x / y) + x % y && x - y * (x / y) == x % y && 0 <= x % y <= x && (if y > 0 then x % y < y else x % y < -y)
  {
    if y > 0 {
      RemBelow(x, y);
    } else {
      RemBelow(x, -y);
      DivNegative(x, -y);
    }
  }

  lemma RemBelow(x: nat, y: int)
    requires y > 0
    ensures x == y * (x / y) + x % y && 0 <= x % y <= x
  {
    if x % y > x {
      Small(y, x / y, x - x % y);
    }
  }

  lemma DivNegative(x: nat, y: int)
    requires y > 0
    ensures x / -y == -(x / y) && x % -y == x % y && (-y) * (-(x / y)) == y * (x / y)
  {
  }

  lemma Negated(y: int, q: int)
    ensures y * (-q) == -(y * q)
  {
  }

  lemma DividesDown(x: int, p: int)
    requires p > 0
    ensures Floors(x, p, x / p)
  {
    assert x == p * (x / p) + x % p;
  }

  lemma {:induction false} BitwiseBit(f: (bool, bool) -> bool, a: nat, b: nat, k: nat)
    requires !f(false, false)
    ensures Bit(Bitwise(f, a, b), k) == f(Bit(a, k), Bit(b, k))
    decreases k
  {
    LastBit(f, a, b);
    if k == 0 {
      BitZero(a);
      BitZero(b);
      BitZero(Bitwise(f, a, b));
    } else {
      BitwiseBit(f, a / 2, b / 2, k - 1);
      BitNext(a, k);
      BitNext(b, k);
      BitNext(Bitwise(f, a, b), k);
    }
  }

  lemma BitZero(x: nat)
    ensures Bit(x, 0) <==> x % 2 == 1
  {
    assert Pow2(0) == 1;
  }

  lemma BitNext(x: nat, k: nat)
    requires k > 0
    ensures Bit(x, k) == Bit(x / 2, k - 1)
  {
    DivDiv(x, 2, Pow2(k - 1));
  }

  lemma DivDiv(x: nat, a: int, b: int)
    requires a > 0 && b > 0
    ensures a * b > 0 && x / (a * b) == (x / a) / b
  {
    assert a * b > 0;
    var q := x / a;
    var q', r' := q / b, q % b;
    assert x == a * q + x % a && q == b * q' + r';
    Rearranged(a, b, q', r', x % a);
    DivIs(x, a * b, q', a * r' + x % a);
  }

  lemma Rearranged(a: int, b: int, q: int, r: int, s: int)
    requires a > 0 && b > 0 && 0 <= r < b && 0 <= s < a
    ensures a * (b * q + r) + s == a * b * q + (a * r + s) && 0 <= a * r + s < a * b
  {
    assert a * (b * q + r) == a * b * q + a * r;
    assert a * r <= a * (b - 1);
  }

  lemma DivIs(x: int, m: int, q: int, r: int)
    requires m > 0 && x == m * q + r && 0 <= r < m
    ensures x / m == q
  {
    assert x == m * (x / m) + x % m;
    assert m * (x / m - q) == r - x % m;
    Small(m, x / m - q, r - x % m);
    ZeroFactor(m, x / m - q);
  }

  lemma ZeroFactor(m: int, k: int)
    requires m > 0 && m * k == 0
    ensures k == 0
  {
  }

  /** Bits above the width play no part in those below. */
  lemma BitOfLow(x: nat, n: nat, k: nat)
    requires k < n
    ensures Bit(x % Pow2(n), k) == Bit(x, k)
    decreases n
  {
    var p := Pow2(n - 1);
    Halve(x, p);
    if k == 0 {
      BitZero(x);
      BitZero(x % Pow2(n));
    } else {
      BitNext(x, k);
      BitNext(x % Pow2(n), k);
      BitOfLow(x / 2, n - 1, k - 1);
    }
  }

  lemma CountUsed(w: bool, x: nat)
    ensures ShiftCount(w, x, Count(w, x))
  {
    LowUnsigned(Width(w), x);
  }

  lemma HoldsOrdered(c: Cmp, x: int, y: int, u: int, v: int)
    ensures Holds(c, x, y, u, v) <==> Ordered(c, x, y, u, v)
  {
  }

  // ----- Each operation -----

  lemma LowSame(w: bool, x: int)
    ensures var v := U64(x) % Size(w); 0 <= v < Modulus(w) && v == x % Modulus(w) && Same(Modulus(w), v, x)
  {
    LowBits(w, x);
    LowUnsigned(Modulus(w), x);
  }

  lemma LowNonzero(m: int, x: int)
    requires m > 0 && x % m != 0
    ensures Signed(m, x) != 0
  {
  }

  lemma DivisionMeans(w: bool, l: Word, r: Word)
    requires r % Size(w) != 0
    ensures Computes(Div, w, l, r, Compute(Div, w, l, r) % Size(w)) && Computes(Rem, w, l, r, Compute(Rem, w, l, r) % Size(w))
  {
    var m := Modulus(w);
    var x, y := Signed(m, l), Signed(m, r);
    LowNonzero(m, r);
    LowSigned(m, l);
    LowSigned(m, r);
    QuotTruncates(x, y);
    LowSame(w, Quot(x, y));
    LowSame(w, Remainder(x, y));
    hide Signed, Quot, Remainder, TwosComplement, Truncates, Same, U64;
    assert Quotient(m, l, r, Compute(Div, w, l, r) % Size(w));
    assert Rest(m, l, r, Compute(Rem, w, l, r) % Size(w));
  }

  lemma UnsignedMeans(w: bool, l: Word, r: Word)
    requires r % Size(w) != 0
    ensures Computes(Udiv, w, l, r, Compute(Udiv, w, l, r) % Size(w)) && Computes(Urem, w, l, r, Compute(Urem, w, l, r) % Size(w))
  {
    var m := Modulus(w);
    var x, y := l % m, r % m;
    LowUnsigned(m, l);
    LowUnsigned(m, r);
    RemBelow(x, y);
    QuotientBelow(x, y);
    LowSame(w, x / y);
    LowSame(w, x % y);
    SmallMod(x / y, m);
    SmallMod(x % y, m);
    hide Same, U64;
    assert Truncates(x, y, x / y, x % y);
    assert UnsignedQuotient(m, l, r, x / y);
    assert UnsignedRest(m, l, r, x % y);
  }

  lemma QuotientBelow(x: nat, y: int)
    requires y > 0
    ensures 0 <= x / y <= x
  {
    RemBelow(x, y);
    var q := x / y;
    if q >= 1 {
      Grows(y, q);
    }
  }

  lemma Grows(y: int, q: int)
    requires y >= 1 && q >= 1
    ensures y * q >= q
  {
  }

  lemma BitsMean(f: (bool, bool) -> bool, w: bool, l: Word, r: Word)
    requires !f(false, false)
    ensures var v := U64(Bitwise(f, l, r)) % Size(w);
      0 <= v < Modulus(w) && forall k: nat :: k < Width(w) ==> Bit(v, k) == f(Bit(l, k), Bit(r, k))
  {
    var x := Bitwise(f, l, r);
    LowSame(w, x);
    WordSizes();
    forall k: nat | k < Width(w)
      ensures Bit(U64(x) % Size(w), k) == f(Bit(l, k), Bit(r, k))
    {
      BitwiseBit(f, l, r, k);
      BitOfLow(x, Width(w), k);
    }
  }

  lemma ShiftsMean(w: bool, l: Word, r: Word)
    ensures Computes(Sar, w, l, r, Compute(Sar, w, l, r) % Size(w))
    ensures Computes(Shr, w, l, r, Compute(Shr, w, l, r) % Size(w))
    ensures Computes(Shl, w, l, r, Compute(Shl, w, l, r) % Size(w))
  {
    var m, c := Modulus(w), Count(w, r);
    CountUsed(w, r);
    LowSigned(m, l);
    LowUnsigned(m, l);
    RightMeans(w, Signed(m, l), r);
    RightMeans(w, l % m, r);
    LowSame(w, l * Pow2(c));
    hide Signed, TwosComplement, Same, U64, ShiftCount, Count, Pow2, ShiftedRight;
    assert SignedShift(w, l, r, U64(Signed(m, l) / Pow2(c)) % Size(w));
    assert UnsignedShift(w, l, r, U64(l % m / Pow2(c)) % Size(w));
  }

  lemma RightMeans(w: bool, x: int, r: Word)
    ensures var v := U64(x / Pow2(Count(w, r))) % Size(w); 0 <= v < Modulus(w) && ShiftedRight(w, x, r, v)
  {
    var p := Pow2(Count(w, r));
    CountUsed(w, r);
    DividesDown(x, p);
    LowSame(w, x / p);
    hide Floors, Same, U64, ShiftCount, Count, Pow2;
  }

  lemma ExtensionsMean(w: bool, l: Word, n: int)
    requires 0 < n <= Two32
    ensures var v := U64(Signed(n, l)) % Size(w); 0 <= v < Modulus(w) && SignExtends(Modulus(w), l, n, v)
    ensures var v := (l % n) % Size(w); 0 <= v < Modulus(w) && ZeroExtends(Modulus(w), l, n, v)
  {
    LowSigned(n, l);
    LowUnsigned(n, l);
    LowSame(w, Signed(n, l));
    LowUnsigned(Modulus(w), l % n);
    hide Signed, TwosComplement, Same, U64;
  }

  /** A comparison looks at the low parts of its operands only. */
  lemma ComparesLow(wide: bool, c: Cmp, w: bool, l: Word, r: Word)
    ensures var m := Modulus(wide);
      Compute(Compare(wide, c), w, l, r) == if Holds(c, Signed(m, l), Signed(m, r), l % m, r % m) then 1 else 0
  {
    var m := Modulus(wide);
    ModTwice(m, l);
    ModTwice(m, r);
    if wide {
      SmallMod(l, Two64);
      SmallMod(r, Two64);
    } else {
      OrderKept(c, l, r);
      assert Signed(m, l % m) == Signed(m, l) && Signed(m, r % m) == Signed(m, r);
    }
    hide Signed, Holds, U64;
  }

  lemma ComparisonMeans(wide: bool, c: Cmp, w: bool, l: Word, r: Word)
    ensures Computes(Compare(wide, c), w, l, r, Compute(Compare(wide, c), w, l, r) % Size(w))
  {
    var m := Modulus(wide);
    var x, y, s, t := Signed(m, l), Signed(m, r), l % m, r % m;
    LowSigned(m, l);
    LowSigned(m, r);
    LowUnsigned(m, l);
    LowUnsigned(m, r);
    HoldsOrdered(c, x, y, s, t);
    ComparesLow(wide, c, w, l, r);
    Found(c, m, l, r, x, y, s, t);
    OneBit(w, Holds(c, x, y, s, t));
    hide Signed, TwosComplement, Unsigned, Same, Holds, Ordered, Compute, Compares, Modulus, Size;
  }

  lemma OneBit(w: bool, b: bool)
    ensures var v := if b then 1 else 0; v % Size(w) == v < Modulus(w)
  {
  }

  lemma Found(c: Cmp, m: int, a: int, b: int, x: int, y: int, s: int, t: int)
    requires m > 0 && TwosComplement(m, a, x) && TwosComplement(m, b, y) && Unsigned(m, a, s) && Unsigned(m, b, t)
    ensures Compares(c, m, a, b, if Ordered(c, x, y, s, t) then 1 else 0)
  {
    hide TwosComplement, Unsigned, Ordered;
  }

  lemma SumsMean(w: bool, l: Word, r: Word)
    ensures Computes(Add, w, l, r, Compute(Add, w, l, r) % Size(w)) && Computes(Sub, w, l, r, Compute(Sub, w, l, r) % Size(w))
    ensures Computes(Neg, w, l, r, Compute(Neg, w, l, r) % Size(w)) && Computes(Mul, w, l, r, Compute(Mul, w, l, r) % Size(w))
  {
    LowSame(w, l + r);
    LowSame(w, l - r);
    LowSame(w, 0 - l);
    LowSame(w, l * r);
    hide Same, U64;
  }

  /** What the code computes is what the operation means. */
  lemma ComputeMeans(op: Op, w: bool, l: Word, r: Word)
    requires Division(op) ==> r % Size(w) != 0
    ensures Computes(op, w, l, r, Compute(op, w, l, r) % Size(w))
  {
    SumsMean(w, l, r);
    ShiftsMean(w, l, r);
    BitsMean(BitAnd, w, l, r);
    BitsMean(BitOr, w, l, r);
    BitsMean(BitXor, w, l, r);
    ExtensionsMean(w, l, 0x100);
    ExtensionsMean(w, l, 0x1_0000);
    ExtensionsMean(w, l, Two32);
    if Division(op) {
      DivisionMeans(w, l, r);
      UnsignedMeans(w, l, r);
    } else if op.Compare? {
      ComparisonMeans(op.wide, op.cmp, w, l, r);
    }
    hide Bit, Same, SignExtends, ZeroExtends, Quotient, Rest, UnsignedQuotient, UnsignedRest, Compares, SignedShift, UnsignedShift, ShiftedLeft,
      U64, Signed, Bitwise;
  }

  lemma UndefinedMeans(op: Op, w: bool, l: Word, r: Word)
    ensures Undefined(op, w, l, r) <==> HasNone(op, w, l, r)
  {
    var m := Modulus(w);
    SameMod(m, r, 0);
    SmallMod(0, m);
    SameMod(m, l, m / 2);
    SmallMod(m / 2, m);
    SameMod(m, r, -1);
    NegativeMod(m, 1);
    hide Same;
  }

  /** Folding is refused exactly for operations that have no result and for those on addresses that have no address form; a folded
      constant is, wherever the labels are put, what the operation means. */
  lemma FoldMeans(op: Op, w: bool, cl: Con, cr: Con, at: Layout)
    ensures match FoldInt(op, w, cl, cr)
      case None => AddressMix(op, cl, cr) || (cl.Bits? && cr.Bits? && HasNone(op, w, cl.i, cr.i))
      case Some(c) =>
        && !AddressMix(op, cl, cr) && (cl.Bits? && cr.Bits? ==> c.Bits? && !HasNone(op, w, cl.i, cr.i))
        && Computes(op, w, Value(cl, at), Value(cr, at), Value(c, at) % Modulus(w))
  {
    FoldCorrect(op, w, cl, cr, at);
    if cl.Bits? && cr.Bits? {
      FoldRefused(op, w, cl.i, cr.i);
      UndefinedMeans(op, w, cl.i, cr.i);
      if !Undefined(op, w, cl.i, cr.i) {
        ComputeMeans(op, w, cl.i, cr.i);
      }
    } else if FoldInt(op, w, cl, cr).Some? {
      assert op.Add? || op.Sub?;
      ComputeMeans(op, w, Value(cl, at), Value(cr, at));
      ComputeAgrees(op, w, Value(cl, at), Value(cr, at));
    }
    hide Computes, Compute, Eval, HasNone, Undefined;
  }
}
