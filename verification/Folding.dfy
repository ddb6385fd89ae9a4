/** Integer constant folding of QBE (foldint in lib/qbe-1.0/fold.c). Constants
    are 64-bit words whatever the class of the instruction; the class says
    how many low bits of the operands and of the result matter. */
module Folding {
  import opened Basics

  const Two32 := 0x1_0000_0000
  const Two64 := 0x1_0000_0000_0000_0000

  datatype Cmp = Eq | Ne | Sge | Sgt | Sle | Slt | Uge | Ugt | Ule | Ult

  /** The foldable integer operations. Compare works on 64-bit operands if wide, else on 32-bit ones. */
  datatype Op =
    | Add | Sub | Neg | Div | Rem | Udiv | Urem | Mul
    | And | Or | Xor | Sar | Shr | Shl
    | Extsb | Extub | Extsh | Extuh | Extsw | Extuw
    | Compare(wide: bool, cmp: Cmp)

  type Word = x: int | 0 <= x < 0x1_0000_0000_0000_0000

  /** A constant: some bits, or the address of a label plus an offset. */
  datatype Con = Bits(i: Word) | Addr(lab: nat, i: Word)

  /** Where the linker puts the labels. */
  type Layout = nat -> Word

  function Value(c: Con, at: Layout): Word {
    match c
    case Bits(i) => i
    case Addr(l, i) => (at(l) + i) % Two64
  }

  // ----- C arithmetic -----

  function Size(wide: bool): int { if wide then Two64 else Two32 }

  function U64(x: int): Word { x % Two64 }

  /** The low part of x below m, a power of two, read as a two's complement number. */
  function Signed(m: int, x: int): int
    requires m > 0
  {
    var y := x % m;
    if 2 * y >= m then y - m else y
  }

  /** Division of C: rounds towards zero. */
  function Quot(a: int, b: int): int
    requires b != 0
  {
    if a >= 0 then a / b else -((-a) / b)
  }

  function Remainder(a: int, b: int): int
    requires b != 0
  {
    a - b * Quot(a, b)
  }

  /** The part of a shift count that is used. */
  function Count(w: bool, r: nat): nat { r % (if w then 64 else 32) }

  /** Combines two words bit by bit. */
  function Bitwise(f: (bool, bool) -> bool, a: nat, b: nat): nat
    decreases a + b
  {
    if a == 0 && b == 0 then 0
    else 2 * Bitwise(f, a / 2, b / 2) + if f(a % 2 == 1, b % 2 == 1) then 1 else 0
  }

  const BitAnd := (x: bool, y: bool) => x && y
  const BitOr := (x: bool, y: bool) => x || y
  const BitXor := (x: bool, y: bool) => x != y

  predicate Holds(c: Cmp, sl: int, sr: int, ul: int, ur: int) {
    match c
    case Eq => ul == ur
    case Ne => ul != ur
    case Sge => sl >= sr
    case Sgt => sl > sr
    case Sle => sl <= sr
    case Slt => sl < sr
    case Uge => ul >= ur
    case Ugt => ul > ur
    case Ule => ul <= ur
    case Ult => ul < ur
  }

  // ----- The code -----

  predicate IsCon(c: Con, w: bool, k: int) {
    c.Bits? && c.i % Size(w) == k % Size(w)
  }

  predicate Division(op: Op) { op.Div? || op.Rem? || op.Udiv? || op.Urem? }

  /** Whether the result is an address, and of which label; None when the
      operands cannot be combined. */
  function Label(op: Op, cl: Con, cr: Con): Option<Option<nat>> {
    if op.Add? then
      if cl.Addr? then (if cr.Addr? then None else Some(Some(cl.lab)))
      else if cr.Addr? then Some(Some(cr.lab))
      else Some(None)
    else if op.Sub? then
      if cl.Addr? then
        if !cr.Addr? then Some(Some(cl.lab)) else if cl.lab != cr.lab then None else Some(None)
      else if cr.Addr? then None
      else Some(None)
    else if cl.Addr? || cr.Addr? then None
    else Some(None)
  }

  function Compute(op: Op, w: bool, l: Word, r: Word): Word
    requires Division(op) ==> r % Size(w) != 0
  {
    match op
    case Add => U64(l + r)
    case Sub => U64(l - r)
    case Neg => U64(0 - l)
    case Div => U64(Quot(Signed(Size(w), l), Signed(Size(w), r)))
    case Rem => U64(Remainder(Signed(Size(w), l), Signed(Size(w), r)))
    case Udiv => U64((l % Size(w)) / (r % Size(w)))
    case Urem => U64((l % Size(w)) % (r % Size(w)))
    case Mul => U64(l * r)
    case And => U64(Bitwise(BitAnd, l, r))
    case Or => U64(Bitwise(BitOr, l, r))
    case Xor => U64(Bitwise(BitXor, l, r))
    case Sar => U64(Signed(Size(w), l) / Pow2(Count(w, r)))
    case Shr => U64((l % Size(w)) / Pow2(Count(w, r)))
    case Shl => U64(l * Pow2(Count(w, r)))
    case Extsb => U64(Signed(0x100, l))
    case Extub => l % 0x100
    case Extsh => U64(Signed(0x10000, l))
    case Extuh => l % 0x10000
    case Extsw => U64(Signed(Two32, l))
    case Extuw => l % Two32
    case Compare(wide, c) =>
      var l' := if wide then l else U64(Signed(Two32, l));
      var r' := if wide then r else U64(Signed(Two32, r));
      if Holds(c, Signed(Two64, l'), Signed(Two64, r'), l', r') then 1 else 0
  }

  /** The folded constant; None when folding is refused. w tells class l from class w. */
  function FoldInt(op: Op, w: bool, cl: Con, cr: Con): Option<Con> {
    var lab := Label(op, cl, cr);
    if lab.None? then None
    else if Division(op) && IsCon(cr, w, 0) then None
    else if (op.Div? || op.Rem?) && IsCon(cr, w, -1) && IsCon(cl, w, -(Size(w) / 2)) then None
    else
      var x := Compute(op, w, cl.i, cr.i);
      Some(if lab.value.Some? then Addr(lab.value.value, x) else Bits(x))
  }

  // ----- The meaning of the operations, on operands of their own width -----

  /** Whether operand n is read as a 64-bit number (the class table of ops.h). */
  predicate WideArg(op: Op, w: bool, n: nat) {
    match op
    case Compare(wide, _) => wide
    case Sar => w && n == 0
    case Shr => w && n == 0
    case Shl => w && n == 0
    case Extsb => false
    case Extub => false
    case Extsh => false
    case Extuh => false
    case Extsw => false
    case Extuw => false
    case _ => w
  }

  /** The result of an operation of class w; None when it is undefined. */
  function Eval(op: Op, w: bool, a: nat, b: nat): Option<nat> {
    var m := Size(w);
    match op
    case Add => Some((a + b) % m)
    case Sub => Some((a - b) % m)
    case Neg => Some((0 - a) % m)
    case Div =>
      if b % m == 0 || (Signed(m, a) == -(m / 2) && Signed(m, b) == -1) then None
      else Some(Quot(Signed(m, a), Signed(m, b)) % m)
    case Rem =>
      if b % m == 0 || (Signed(m, a) == -(m / 2) && Signed(m, b) == -1) then None
      else Some(Remainder(Signed(m, a), Signed(m, b)) % m)
    case Udiv => if b == 0 then None else Some((a / b) % m)
    case Urem => if b == 0 then None else Some((a % b) % m)
    case Mul => Some((a * b) % m)
    case And => Some(Bitwise(BitAnd, a, b) % m)
    case Or => Some(Bitwise(BitOr, a, b) % m)
    case Xor => Some(Bitwise(BitXor, a, b) % m)
    case Sar => Some((Signed(m, a) / Pow2(Count(w, b))) % m)
    case Shr => Some((a / Pow2(Count(w, b))) % m)
    case Shl => Some((a * Pow2(Count(w, b))) % m)
    case Extsb => Some(Signed(0x100, a) % m)
    case Extub => Some((a % 0x100) % m)
    case Extsh => Some(Signed(0x10000, a) % m)
    case Extuh => Some((a % 0x10000) % m)
    case Extsw => Some(Signed(Two32, a) % m)
    case Extuw => Some((a % Two32) % m)
    case Compare(wide, c) =>
      Some(if Holds(c, Signed(Size(wide), a), Signed(Size(wide), b), a, b) then 1 else 0)
  }

  /** An operand as the operation reads it. */
  function Operand(op: Op, w: bool, n: nat, x: Word): nat {
    x % Size(WideArg(op, w, n))
  }

  /** The operands are such that an address cannot be avoided and cannot be expressed. */
  predicate AddressMix(op: Op, cl: Con, cr: Con) {
    match op
    case Add => cl.Addr? && cr.Addr?
    case Sub => cr.Addr? && (cl.Bits? || cl.lab != cr.lab)
    case _ => cl.Addr? || cr.Addr?
  }

  // ----- Correctness -----

  lemma ModMul(m: int, a: int, b: int)
    requires m > 0
    ensures (a * b) % m == ((a % m) * b) % m
  {
    var q := a / m;
    assert a == m * q + a % m;
    calc {
      (a * b) % m;
      ((m * q + a % m) * b) % m;
      { assert (m * q + a % m) * b == m * (q * b) + (a % m) * b; }
      (m * (q * b) + (a % m) * b) % m;
      { ModAddMul(m, q * b, (a % m) * b); }
      ((a % m) * b) % m;
    }
  }

  lemma ModAddMul(m: int, q: int, x: int)
    requires m > 0
    ensures (m * q + x) % m == x % m
  {
    var y := m * q + x;
    assert y == m * (y / m) + y % m && x == m * (x / m) + x % m;
    assert m * (y / m - x / m - q) == x % m - y % m;
    Small(m, y / m - x / m - q, x % m - y % m);
  }

  lemma Small(m: int, k: int, d: int)
    requires m > 0 && m * k == d && -m < d < m
    ensures d == 0
  {
    assert k >= 1 ==> m * k >= m;
    assert k <= -1 ==> m * k <= -m;
  }

  lemma {:induction false} BitwiseLow(f: (bool, bool) -> bool, n: nat, a: nat, b: nat)
    requires !f(false, false)
    ensures Bitwise(f, a, b) % Pow2(n) == Bitwise(f, a % Pow2(n), b % Pow2(n)) % Pow2(n)
    decreases n
  {
    if n > 0 {
      var p := Pow2(n - 1);
      var a', b' := a % (2 * p), b % (2 * p);
      Halve(a, p);
      Halve(b, p);
      BitwiseLow(f, n - 1, a / 2, b / 2);
      LastBit(f, a, b);
      LastBit(f, a', b');
      assert Bitwise(f, a', b') / 2 == Bitwise(f, (a / 2) % p, (b / 2) % p);
      Halve(Bitwise(f, a, b), p);
      Halve(Bitwise(f, a', b'), p);
    }
  }

  lemma LastBit(f: (bool, bool) -> bool, a: nat, b: nat)
    requires !f(false, false)
    ensures Bitwise(f, a, b) / 2 == Bitwise(f, a / 2, b / 2)
    ensures Bitwise(f, a, b) % 2 == if f(a % 2 == 1, b % 2 == 1) then 1 else 0
  {
  }

  lemma Halve(a: nat, p: nat)
    requires p > 0
    ensures (a % (2 * p)) / 2 == (a / 2) % p
    ensures (a % (2 * p)) % 2 == a % 2
    ensures a % (2 * p) == 2 * ((a / 2) % p) + a % 2
  {
    var q, r := (a / 2) / p, (a / 2) % p;
    assert a == (2 * p) * q + (2 * r + a % 2) by {
      assert a == 2 * (p * q + r) + a % 2;
    }
    ModAddMul(2 * p, q, 2 * r + a % 2);
    assert 0 <= 2 * r + a % 2 < 2 * p;
    SmallMod(2 * r + a % 2, 2 * p);
  }

  lemma SmallMod(x: int, m: int)
    requires 0 <= x < m
    ensures x % m == x
  {
  }

  lemma {:induction false} Pow2Sum(a: nat, b: nat)
    ensures Pow2(a + b) == Pow2(a) * Pow2(b)
  {
    if a > 0 {
      Pow2Sum(a - 1, b);
      assert Pow2(a + b) == 2 * (Pow2(a - 1) * Pow2(b));
    }
  }

  lemma WordSizes()
    ensures Pow2(32) == Two32 && Pow2(64) == Two64
  {
    assert Pow2(4) == 16;
    Pow2Sum(4, 4);
    Pow2Sum(8, 8);
    Pow2Sum(16, 16);
    Pow2Sum(32, 32);
  }

  predicate Overflows(op: Op, w: bool, l: Word, r: Word) {
    (op.Div? || op.Rem?) && l % Size(w) == Size(w) / 2 && r % Size(w) == Size(w) - 1
  }

  /** What is computed on 64-bit words agrees with the meaning of the operation,
      whatever the bits above the operands' width. */
  ghost predicate Agrees(op: Op, w: bool, l: Word, r: Word)
    requires Division(op) ==> r % Size(w) != 0
  {
    Eval(op, w, Operand(op, w, 0, l), Operand(op, w, 1, r)) == Some(Compute(op, w, l, r) % Size(w))
  }

  lemma ModMod(m: int, k: int, x: int)
    requires m > 0 && k > 0
    ensures m * k > 0 && (x % (m * k)) % m == x % m
  {
    assert m * k > 0;
    var q := x / (m * k);
    assert x == m * (k * q) + x % (m * k);
    ModAddMul(m, k * q, x % (m * k));
  }

  /** Cutting to 64 bits first does not change the bits that matter. */
  lemma LowBits(w: bool, x: int)
    ensures U64(x) % Size(w) == x % Size(w)
  {
    ModMod(Two32, Two32, x);
  }

  lemma ModTwice(m: int, x: int)
    requires m > 0
    ensures (x % m) % m == x % m
  {
    SmallMod(x % m, m);
  }

  lemma ModOf(m: int, x: int, q: int, r: int)
    requires m > 0 && x == m * q + r
    ensures x % m == r % m
  {
    ModAddMul(m, q, r);
  }

  lemma Distribute(m: int, p: int, q: int)
    ensures m * (p + q) == m * p + m * q && m * (p - q) == m * p - m * q
  {
  }

  lemma ModAdd(m: int, a: int, b: int)
    requires m > 0
    ensures (a % m + b % m) % m == (a + b) % m
  {
    Distribute(m, a / m, b / m);
    ModOf(m, a + b, a / m + b / m, a % m + b % m);
  }

  lemma ModSub(m: int, a: int, b: int)
    requires m > 0
    ensures (a % m - b % m) % m == (a - b) % m
  {
    Distribute(m, a / m, b / m);
    ModOf(m, a - b, a / m - b / m, a % m - b % m);
  }

  lemma AddAgrees(w: bool, l: Word, r: Word)
    ensures Agrees(Add, w, l, r)
  {
    LowBits(w, l + r);
    ModAdd(Size(w), l, r);
  }

  lemma SubAgrees(w: bool, l: Word, r: Word)
    ensures Agrees(Sub, w, l, r)
  {
    LowBits(w, l - r);
    ModSub(Size(w), l, r);
  }

  lemma NegAgrees(w: bool, l: Word, r: Word)
    ensures Agrees(Neg, w, l, r)
  {
    LowBits(w, 0 - l);
    ModSub(Size(w), 0, l);
    ModSub(Size(w), 0, l % Size(w));
    ModTwice(Size(w), l);
  }

  lemma MulAgrees(w: bool, l: Word, r: Word)
    ensures Agrees(Mul, w, l, r)
  {
    var m := Size(w);
    LowBits(w, l * r);
    ModMul(m, l, r);
    ModMul(m, r, l % m);
    assert (l % m) * r == r * (l % m) && (r % m) * (l % m) == (l % m) * (r % m);
  }

  lemma DivAgrees(w: bool, l: Word, r: Word)
    requires r % Size(w) != 0 && !Overflows(Div, w, l, r)
    ensures Agrees(Div, w, l, r)
  {
    ModTwice(Size(w), l);
    ModTwice(Size(w), r);
    LowBits(w, Quot(Signed(Size(w), l), Signed(Size(w), r)));
  }

  lemma RemAgrees(w: bool, l: Word, r: Word)
    requires r % Size(w) != 0 && !Overflows(Rem, w, l, r)
    ensures Agrees(Rem, w, l, r)
  {
    ModTwice(Size(w), l);
    ModTwice(Size(w), r);
    LowBits(w, Remainder(Signed(Size(w), l), Signed(Size(w), r)));
  }

  lemma UdivAgrees(w: bool, l: Word, r: Word)
    requires r % Size(w) != 0
    ensures Agrees(Udiv, w, l, r)
  {
    LowBits(w, (l % Size(w)) / (r % Size(w)));
  }

  lemma UremAgrees(w: bool, l: Word, r: Word)
    requires r % Size(w) != 0
    ensures Agrees(Urem, w, l, r)
  {
    LowBits(w, (l % Size(w)) % (r % Size(w)));
  }

  lemma BitwiseAgrees(f: (bool, bool) -> bool, w: bool, l: Word, r: Word)
    requires !f(false, false)
    ensures Bitwise(f, l % Size(w), r % Size(w)) % Size(w) == U64(Bitwise(f, l, r)) % Size(w)
  {
    WordSizes();
    LowBits(w, Bitwise(f, l, r));
    BitwiseLow(f, if w then 64 else 32, l, r);
  }

  lemma AndAgrees(w: bool, l: Word, r: Word)
    ensures Agrees(And, w, l, r)
  {
    BitwiseAgrees(BitAnd, w, l, r);
  }

  lemma OrAgrees(w: bool, l: Word, r: Word)
    ensures Agrees(Or, w, l, r)
  {
    BitwiseAgrees(BitOr, w, l, r);
  }

  lemma XorAgrees(w: bool, l: Word, r: Word)
    ensures Agrees(Xor, w, l, r)
  {
    BitwiseAgrees(BitXor, w, l, r);
  }

  /** The shift count only depends on the low bits of a 32-bit operand. */
  lemma CountAgrees(w: bool, r: Word)
    ensures Count(w, r % Two32) == Count(w, r)
  {
    ModMod(64, 0x400_0000, r);
    ModMod(32, 0x800_0000, r);
  }

  lemma SarAgrees(w: bool, l: Word, r: Word)
    ensures Agrees(Sar, w, l, r)
  {
    CountAgrees(w, r);
    ModTwice(Size(w), l);
    LowBits(w, Signed(Size(w), l) / Pow2(Count(w, r)));
  }

  lemma ShrAgrees(w: bool, l: Word, r: Word)
    ensures Agrees(Shr, w, l, r)
  {
    CountAgrees(w, r);
    LowBits(w, (l % Size(w)) / Pow2(Count(w, r)));
  }

  lemma ShlAgrees(w: bool, l: Word, r: Word)
    ensures Agrees(Shl, w, l, r)
  {
    CountAgrees(w, r);
    LowBits(w, l * Pow2(Count(w, r)));
    ModMul(Size(w), l, Pow2(Count(w, r)));
  }

  lemma SignExtensionAgrees(w: bool, m: int, k: int, x: Word)
    requires m > 0 && k > 0 && m * k == Two32
    ensures U64(Signed(m, x)) % Size(w) == Signed(m, x % Two32) % Size(w)
  {
    LowBits(w, Signed(m, x));
    ModMod(m, k, x);
    hide U64, Size;
  }

  lemma ExtensionAgrees(op: Op, w: bool, l: Word, r: Word)
    requires op.Extsb? || op.Extub? || op.Extsh? || op.Extuh? || op.Extsw? || op.Extuw?
    ensures Agrees(op, w, l, r)
  {
    SignExtensionAgrees(w, 0x100, 0x100_0000, l);
    SignExtensionAgrees(w, 0x1_0000, 0x1_0000, l);
    SignExtensionAgrees(w, Two32, 1, l);
    ModMod(0x100, 0x100_0000, l);
    ModMod(0x10000, 0x1_0000, l);
    ModTwice(Two32, l);
  }

  /** A 32-bit number after sign extension to 64 bits. */
  lemma SignExtended(x: Word)
    ensures var s := Signed(Two32, x);
      && Signed(Two32, x % Two32) == s == Signed(Two64, U64(s))
      && x % Two32 == (if s >= 0 then s else s + Two32)
      && U64(s) == (if s >= 0 then s else s + Two64)
      && -Two32 / 2 <= s < Two32 / 2
  {
    var s := Signed(Two32, x);
    ModTwice(Two32, x);
    if s >= 0 {
      SmallMod(s, Two64);
    } else {
      ModAddMul(Two64, 1, s);
      SmallMod(s + Two64, Two64);
    }
    SmallMod(U64(s), Two64);
  }

  /** Sign extension keeps the order, signed and unsigned. */
  lemma OrderKept(c: Cmp, l: Word, r: Word)
    ensures var l', r' := U64(Signed(Two32, l)), U64(Signed(Two32, r));
      Holds(c, Signed(Two64, l'), Signed(Two64, r'), l', r') <==>
      Holds(c, Signed(Two32, l % Two32), Signed(Two32, r % Two32), l % Two32, r % Two32)
  {
    SignExtended(l);
    SignExtended(r);
  }

  lemma CompareAgrees(wide: bool, c: Cmp, w: bool, l: Word, r: Word)
    ensures Agrees(Compare(wide, c), w, l, r)
  {
    hide Holds, Signed;
    if wide {
      SmallMod(l, Two64);
      SmallMod(r, Two64);
    } else {
      OrderKept(c, l, r);
    }
  }

  lemma ComputeAgrees(op: Op, w: bool, l: Word, r: Word)
    requires Division(op) ==> r % Size(w) != 0
    requires !Overflows(op, w, l, r)
    ensures Agrees(op, w, l, r)
  {
    match op
    case Add => AddAgrees(w, l, r);
    case Sub => SubAgrees(w, l, r);
    case Neg => NegAgrees(w, l, r);
    case Mul => MulAgrees(w, l, r);
    case Div => DivAgrees(w, l, r);
    case Rem => RemAgrees(w, l, r);
    case Udiv => UdivAgrees(w, l, r);
    case Urem => UremAgrees(w, l, r);
    case And => AndAgrees(w, l, r);
    case Or => OrAgrees(w, l, r);
    case Xor => XorAgrees(w, l, r);
    case Sar => SarAgrees(w, l, r);
    case Shr => ShrAgrees(w, l, r);
    case Shl => ShlAgrees(w, l, r);
    case Compare(wide, c) => CompareAgrees(wide, c, w, l, r);
    case _ => ExtensionAgrees(op, w, l, r);
  }

  lemma NegativeMod(m: int, k: int)
    requires 0 < k < m
    ensures (-k) % m == m - k
  {
    ModAddMul(m, -1, m - k);
    SmallMod(m - k, m);
  }

  lemma OverflowMeans(op: Op, w: bool, cl: Con, cr: Con)
    requires (op.Div? || op.Rem?) && cl.Bits? && cr.Bits?
    ensures Overflows(op, w, cl.i, cr.i) <==> IsCon(cr, w, -1) && IsCon(cl, w, -(Size(w) / 2))
    ensures Overflows(op, w, cl.i, cr.i) <==>
      Signed(Size(w), cl.i) == -(Size(w) / 2) && Signed(Size(w), cr.i) == -1
  {
    var m := Size(w);
    NegativeMod(m, 1);
    NegativeMod(m, m / 2);
  }

  /** The operation on the operands' own bits is undefined. */
  predicate Undefined(op: Op, w: bool, l: Word, r: Word) {
    (Division(op) && r % Size(w) == 0) || Overflows(op, w, l, r)
  }

  lemma FoldRefused(op: Op, w: bool, l: Word, r: Word)
    ensures Undefined(op, w, l, r) ==> FoldInt(op, w, Bits(l), Bits(r)) == None
    ensures !Undefined(op, w, l, r) ==> FoldInt(op, w, Bits(l), Bits(r)) == Some(Bits(Compute(op, w, l, r)))
  {
    hide Compute, Overflows;
    assert Label(op, Bits(l), Bits(r)) == Some(None);
    if op.Div? || op.Rem? {
      OverflowMeans(op, w, Bits(l), Bits(r));
    } else {
      NoOverflow(op, w, l, r);
    }
  }

  lemma NoOverflow(op: Op, w: bool, l: Word, r: Word)
    requires !op.Div? && !op.Rem?
    ensures !Overflows(op, w, l, r)
  {
  }

  lemma EvalUndefined(op: Op, w: bool, l: Word, r: Word)
    requires Undefined(op, w, l, r)
    ensures Eval(op, w, Operand(op, w, 0, l), Operand(op, w, 1, r)) == None
  {
    if op.Div? || op.Rem? {
      OverflowMeans(op, w, Bits(l), Bits(r));
      ModTwice(Size(w), l);
      ModTwice(Size(w), r);
    }
  }

  /** Folding two plain words refuses exactly the undefined divisions, and otherwise
      gives the result of the operation in the bits that the class makes matter. */
  lemma FoldWords(op: Op, w: bool, l: Word, r: Word)
    ensures match FoldInt(op, w, Bits(l), Bits(r))
      case None => Eval(op, w, Operand(op, w, 0, l), Operand(op, w, 1, r)) == None
      case Some(c) => c.Bits? && Eval(op, w, Operand(op, w, 0, l), Operand(op, w, 1, r)) == Some(c.i % Size(w))
  {
    FoldRefused(op, w, l, r);
    if Undefined(op, w, l, r) {
      EvalUndefined(op, w, l, r);
    } else {
      ComputeAgrees(op, w, l, r);
    }
    hide FoldInt, Compute, Eval, Undefined;
  }

  /** Addition modulo m may be cut down to size at any point. */
  lemma ModReassociate(m: int, a: int, x: int, y: int)
    requires m > 0
    ensures ((a + x) % m + y) % m == (a + (x + y) % m) % m
    ensures ((a + x) % m - y) % m == (a + (x - y) % m) % m
    ensures ((a + x) % m - (a + y) % m) % m == (x - y) % m
  {
    ModShift(m, a + x, y);
    ModShift(m, x + y, a);
    ModShift(m, a + x, -y);
    ModShift(m, x - y, a);
    ModSub(m, a + x, a + y);
  }

  lemma ModShift(m: int, x: int, y: int)
    requires m > 0
    ensures (x % m + y) % m == (x + y) % m
  {
    ModAdd(m, x % m, y);
    ModTwice(m, x);
    ModAdd(m, x, y);
  }

  /** The folded constant denotes the result wherever the labels are put. */
  ghost predicate Denotes(op: Op, w: bool, cl: Con, cr: Con, at: Layout, c: Con) {
    Eval(op, w, Operand(op, w, 0, Value(cl, at)), Operand(op, w, 1, Value(cr, at))) == Some(Value(c, at) % Size(w))
  }

  lemma OffsetAddress(lab: nat, x: Word, y: Word, at: Layout)
    ensures Value(Addr(lab, U64(x + y)), at) == U64(Value(Addr(lab, x), at) + y)
    ensures Value(Addr(lab, U64(y + x)), at) == U64(y + Value(Addr(lab, x), at))
    ensures Value(Addr(lab, U64(x - y)), at) == U64(Value(Addr(lab, x), at) - y)
    ensures U64(x - y) == U64(Value(Addr(lab, x), at) - Value(Addr(lab, y), at))
  {
    ModReassociate(Two64, at(lab), x, y);
  }

  lemma AddAddress(w: bool, cl: Con, cr: Con, at: Layout)
    requires cl.Addr? != cr.Addr?
    ensures FoldInt(Add, w, cl, cr).Some? && Denotes(Add, w, cl, cr, at, FoldInt(Add, w, cl, cr).value)
  {
    hide U64, Value;
    AddAgrees(w, Value(cl, at), Value(cr, at));
    if cl.Addr? {
      OffsetAddress(cl.lab, cl.i, cr.i, at);
      assert Value(cr, at) == cr.i by { ValueOfBits(cr, at); }
    } else {
      OffsetAddress(cr.lab, cr.i, cl.i, at);
      assert Value(cl, at) == cl.i by { ValueOfBits(cl, at); }
    }
  }

  lemma ValueOfBits(c: Con, at: Layout)
    requires c.Bits?
    ensures Value(c, at) == c.i
  {
  }

  lemma SubAddress(w: bool, cl: Con, cr: Con, at: Layout)
    requires cl.Addr? && (cr.Addr? ==> cl.lab == cr.lab)
    ensures FoldInt(Sub, w, cl, cr).Some? && Denotes(Sub, w, cl, cr, at, FoldInt(Sub, w, cl, cr).value)
  {
    hide U64, Value;
    SubAgrees(w, Value(cl, at), Value(cr, at));
    OffsetAddress(cl.lab, cl.i, cr.i, at);
    if cr.Bits? {
      ValueOfBits(cr, at);
    } else {
      ValueOfBits(Bits(U64(cl.i - cr.i)), at);
    }
  }

  /** The main result: folding refuses exactly address mixes and undefined
      divisions, and a folded constant is the value of the operation. */
  lemma FoldCorrect(op: Op, w: bool, cl: Con, cr: Con, at: Layout)
    ensures match FoldInt(op, w, cl, cr)
      case None => AddressMix(op, cl, cr) ||
        (cl.Bits? && cr.Bits? && Eval(op, w, Operand(op, w, 0, cl.i), Operand(op, w, 1, cr.i)) == None)
      case Some(c) => !AddressMix(op, cl, cr) && Denotes(op, w, cl, cr, at, c)
  {
    if cl.Bits? && cr.Bits? {
      FoldWords(op, w, cl.i, cr.i);
    } else {
      if op.Add? && cl.Addr? != cr.Addr? {
        AddAddress(w, cl, cr, at);
      } else if op.Sub? && !AddressMix(op, cl, cr) {
        SubAddress(w, cl, cr, at);
      }
    }
  }
}
