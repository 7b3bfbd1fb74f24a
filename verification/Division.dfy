/** The shift-subtract division and shift-add multiplication routines that stand in for the
    M extension (`lib/div.S`, `lib/muldi3.S`).  Each routine is a method on 64-bit registers,
    proved against the instruction it replaces (RISC-V Unprivileged ISA 20191213, sections
    7.1 and 7.2). */
module Division {
  import opened Words
  import opened Arith

  // ---------------------------------------------------------------- reference semantics

  /** Quotient of natural numbers, by repeated subtraction. */
  function Quot(n: nat, d: nat): (q: int)
    requires d > 0
    ensures 0 <= q <= n
  {
    if n < d then 0 else 1 + Quot(n - d, d)
  }

  /** Remainder of natural numbers, by repeated subtraction. */
  function Rem(n: nat, d: nat): (r: int)
    requires d > 0
    ensures 0 <= r < d
  {
    if n < d then n else Rem(n - d, d)
  }

  lemma {:induction false} QuotRem(n: nat, d: nat)
    requires d > 0
    ensures n == Quot(n, d) * d + Rem(n, d)
  {
    if n >= d {
      QuotRem(n - d, d);
      MulAdd(Quot(n - d, d), 1, d);
    }
  }

  /** Any quotient and remainder that recompose the dividend are the reference ones; so the
      reference pair is integer division. */
  lemma QuotRemUnique(n: nat, d: nat, q: int, r: nat)
    requires d > 0 && n == q * d + r && r < d
    ensures q == Quot(n, d) && r == Rem(n, d)
    ensures q == n / d && r == n % d
  {
    QuotRem(n, d);
    DivUnique(n, d, q, r);
    Unique(d, q, r, Quot(n, d), Rem(n, d));
  }

  /** Quotient of the DIV family: rounding towards zero, all ones for a zero divisor, and the
      dividend itself on overflow (`minimum` is the least value of the operand width). */
  function DivSpec(a: int, b: int, minimum: int): int {
    if b == 0 then -1
    else if a == minimum && b == -1 then a
    else if (a < 0) == (b < 0) then Quot(Abs(a), Abs(b))
    else -Quot(Abs(a), Abs(b))
  }

  /** Remainder of the REM family: the sign of the dividend, and the dividend for a zero divisor. */
  function RemSpec(a: int, b: int): int {
    if b == 0 then a
    else if a < 0 then -Rem(Abs(a), Abs(b))
    else Rem(Abs(a), Abs(b))
  }

  function Abs(x: int): nat { if x < 0 then -x else x }

  /** The reference quotient and remainder satisfy the identity and the sign and size rules
      that section 7.2 states ... */
  lemma SpecIsTruncatedDivision(a: int, b: int, minimum: int)
    requires b != 0 && !(a == minimum && b == -1)
    ensures Truncated(a, b, DivSpec(a, b, minimum), RemSpec(a, b))
  {
    QuotRem(Abs(a), Abs(b));
    MulNeg(Quot(Abs(a), Abs(b)), b);
    MulNeg(Quot(Abs(a), Abs(b)), Abs(b));
  }

  /** ... and no other pair does. */
  lemma TruncatedDivisionIsUnique(a: int, b: int, q: int, r: int, p: int, s: int)
    requires b != 0 && Truncated(a, b, q, r) && Truncated(a, b, p, s)
    ensures q == p && r == s
  {
    MulNeg(q, b);
    MulNeg(p, b);
    var same := (a < 0) == (b < 0);
    Unique(Abs(b), if same then q else -q, Abs(r), if same then p else -p, Abs(s));
  }

  ghost predicate Truncated(a: int, b: int, q: int, r: int) {
    a == q * b + r && Abs(r) < Abs(b) && (r == 0 || (r < 0) == (a < 0))
  }

  // ---------------------------------------------------------------- unsigned division

  /** `bit` is a power of two and `shifted` the divisor moved up by as many places. */
  ghost predicate Aligned(d: word, shifted: word, bit: word, k: nat) {
    bit == Pow2(k) && shifted == bit * d && 0 < shifted
  }

  lemma ShiftUp(d: word, shifted: word, bit: word, k: nat)
    requires d > 0 && Aligned(d, shifted, bit, k) && shifted < HALF
    ensures Wrap(2 * shifted) == 2 * shifted && Aligned(d, Wrap(2 * shifted), Wrap(2 * bit), k + 1)
  {
    MulDouble(bit, d);
    MulAtLeast(d, bit);
    MulCommute(bit, d);
  }

  lemma ShiftDown(d: word, shifted: word, bit: word, k: nat)
    requires d > 0 && Aligned(d, shifted, bit, k)
    ensures k == 0 ==> bit == 1 && shifted == d
    ensures k > 0 ==> Aligned(d, shifted / 2, bit / 2, k - 1) && shifted == 2 * (shifted / 2)
  {
    if k > 0 {
      MulDouble(Pow2(k - 1), d);
      MulNonNeg(Pow2(k - 1), d);
    }
  }

  lemma TakeBit(n: word, d: word, q: word, r: word, shifted: word, bit: word, k: nat, c: nat)
    requires d > 0 && Aligned(d, shifted, bit, k) && n == q * d + r && q == 2 * (bit * c) && shifted <= r
    ensures q + bit < WORD && n == (q + bit) * d + (r - shifted)
    ensures Or(q, bit) == q + bit == bit * (2 * c + 1)
  {
    MulAdd(q, bit, d);
    MulAtLeast(d, q + bit);
    MulCommute(q + bit, d);
    OrIsAdd(c, k);
    MulCommute(bit, c);
    MulCommute(bit, 2 * c + 1);
    MulDouble(c, bit);
    MulAdd(2 * c, 1, bit);
  }

  /** The subtract loop's invariant.  `bit` is 0 once the lowest quotient bit is decided. */
  ghost predicate Loop(n: word, d: word, q: word, r: word, shifted: word, bit: word, k: nat, c: nat) {
    && n == q * d + r
    && (bit != 0 ==> Aligned(d, shifted, bit, k) && r < 2 * shifted && q == 2 * (bit * c))
    && (bit == 0 ==> r < d)
  }

  /** Halving `bit` and `shifted` once the bit is decided: `e` is the new multiplier of `q`. */
  lemma NextBit(n: word, d: word, q: word, r: word, shifted: word, bit: word, k: nat, e: nat)
    requires d > 0 && n == q * d + r && r < shifted
    requires Aligned(d, shifted, bit, k) && q == bit * e
    ensures Loop(n, d, q, r, shifted / 2, bit / 2, if k == 0 then 0 else k - 1, e)
  {
    ShiftDown(d, shifted, bit, k);
    if k > 0 {
      MulDouble(Pow2(k - 1), e);
    }
  }

  lemma KeepBit(n: word, d: word, q: word, r: word, shifted: word, bit: word, k: nat, c: nat)
    requires d > 0 && bit != 0 && Loop(n, d, q, r, shifted, bit, k, c) && r < shifted
    ensures Loop(n, d, q, r, shifted / 2, bit / 2, if k == 0 then 0 else k - 1, 2 * c)
  {
    MulDouble(c, bit);
    MulCommute(c, bit);
    MulCommute(2 * c, bit);
    NextBit(n, d, q, r, shifted, bit, k, 2 * c);
  }

  lemma SubtractBit(n: word, d: word, q: word, r: word, shifted: word, bit: word, k: nat, c: nat)
    requires d > 0 && bit != 0 && Loop(n, d, q, r, shifted, bit, k, c) && r >= shifted
    ensures Or(q, bit) < WORD
    ensures Loop(n, d, Or(q, bit), r - shifted, shifted / 2, bit / 2, if k == 0 then 0 else k - 1, 2 * c + 1)
  {
    TakeBit(n, d, q, r, shifted, bit, k, c);
    NextBit(n, d, q + bit, r - shifted, shifted, bit, k, 2 * c + 1);
  }

  lemma Start(n: word, d: word, shifted: word, bit: word, k: nat)
    requires d > 0 && Aligned(d, shifted, bit, k) && (n <= shifted || 0x8000_0000_0000_0000 <= shifted)
    ensures Loop(n, d, 0, n, shifted, bit, k, 0)
  {}

  lemma Finish(n: word, d: word, q: word, r: word, shifted: word, k: nat, c: nat)
    requires d > 0 && Loop(n, d, q, r, shifted, 0, k, c)
    ensures q == Quot(n, d) && r == Rem(n, d)
  {
    QuotRemUnique(n, d, q, r);
  }

  /** The loop at .L1: shift divisor and quotient bit left until they pass the dividend. */
  method ShiftLoop(n: word, d: word) returns (a2: word, a3: word, ghost k: nat)
    requires d > 0
    ensures Aligned(d, a2, a3, k) && (n <= a2 || 0x8000_0000_0000_0000 <= a2)
  {
    a2, a3, k := d, 1, 0;
    assert Aligned(d, a2, a3, k);
    hide Aligned, Pow2, Wrap;
    if a2 >= n { return; }
    while true
      invariant Aligned(d, a2, a3, k) && a2 < n
      decreases WORD - a2
    {
      if Signed(a2) <= 0 { return; }
      ShiftUp(d, a2, a3, k);
      a2 := Wrap(2 * a2);
      a3 := Wrap(2 * a3);
      k := k + 1;
      if n <= a2 { return; }
    }
  }

  /** `__udivdi3`: quotient in a0, remainder in a1. */
  method UDivDi3(n: word, d: word) returns (a0: word, a1: word)
    ensures d == 0 ==> a0 == WORD - 1 && a1 == n
    ensures d != 0 ==> a0 == Quot(n, d) && a1 == Rem(n, d)
  {
    hide Loop, Aligned;
    if d == 0 { return WORD - 1, n; }
    var a2, a3, k := ShiftLoop(n, d);
    // .L2, .L3: subtract and shift right again
    Start(n, d, a2, a3, k);
    a0, a1 := 0, n;
    ghost var c: nat := 0;
    while a3 != 0
      invariant Loop(n, d, a0, a1, a2, a3, k, c)
      decreases a3
    {
      if a1 >= a2 {
        SubtractBit(n, d, a0, a1, a2, a3, k, c);
        a1 := Wrap(a1 - a2);
        a0 := Or(a0, a3);
        c := 2 * c + 1;
      } else {
        KeepBit(n, d, a0, a1, a2, a3, k, c);
        c := 2 * c;
      }
      a3 := a3 / 2;
      a2 := a2 / 2;
      k := if k == 0 then 0 else k - 1;
    }
    Finish(n, d, a0, a1, a2, k, c);
  }

  /** `__umoddi3` */
  method UModDi3(n: word, d: word) returns (a0: word)
    ensures a0 == if d == 0 then n else Rem(n, d)
  {
    var q, r := UDivDi3(n, d);
    a0 := r;
  }

  // ---------------------------------------------------------------- signed division

  /** A quotient is at most the dividend, and at most half of it unless the divisor is 1.*/
  lemma {:induction false} QuotientBound(n: nat, d: nat)
    requires d > 0
    ensures if d == 1 then Quot(n, d) == n else 2 * Quot(n, d) <= n
  {
    if n >= d { QuotientBound(n - d, d); }
  }

  /** `__divdi3`: the DIV instruction. */
  method DivDi3(a: word, b: word) returns (a0: word)
    ensures Signed(a0) == DivSpec(Signed(a), Signed(b), -HALF)
    ensures b == 0 ==> a0 == 0xffff_ffff_ffff_ffff
    ensures a == 0x8000_0000_0000_0000 && b == 0xffff_ffff_ffff_ffff ==> a0 == 0x8000_0000_0000_0000
  {
    var r: word;
    if b != 0 {
      QuotientBound(Abs(Signed(a)), Abs(Signed(b)));
    }
    hide Quot, Rem;
    if Signed(a) < 0 {
      if Signed(b) > 0 {
        // .L12
        a0, r := UDivDi3(Neg(a), b);
        a0 := Neg(a0);
      } else {
        a0, r := UDivDi3(Neg(a), Neg(b));
      }
    } else if Signed(b) < 0 {
      // .L11
      a0, r := UDivDi3(a, Neg(b));
      a0 := Neg(a0);
    } else {
      a0, r := UDivDi3(a, b);
    }
  }

  /** `__moddi3`: the REM instruction. */
  method ModDi3(a: word, b: word) returns (a0: word)
    ensures Signed(a0) == RemSpec(Signed(a), Signed(b))
    ensures b == 0 ==> a0 == a
    ensures a == 0x8000_0000_0000_0000 && b == 0xffff_ffff_ffff_ffff ==> a0 == 0
  {
    hide Quot, Rem;
    var q: word, r: word;
    var d := if Signed(b) < 0 then Neg(b) else b;
    if Signed(a) < 0 {
      // .L32
      q, r := UDivDi3(Neg(a), d);
      a0 := Neg(r);
    } else {
      // .L30
      q, r := UDivDi3(a, d);
      a0 := r;
    }
  }

  // ---------------------------------------------------------------- 32-bit entry points

  /** `__divsi3`: DIVW, for arguments sign-extended as the calling convention requires. */
  method DivSi3(a: word, b: word) returns (a0: word)
    requires a == SextW(a) && b == SextW(b)
    ensures a0 == SextW(a0) && Signed(a0) == DivSpec(Signed(a), Signed(b), -HALF32)
    ensures b == 0 ==> a0 == 0xffff_ffff_ffff_ffff
    ensures a == 0xffff_ffff_8000_0000 && b == 0xffff_ffff_ffff_ffff ==> a0 == 0xffff_ffff_8000_0000
  {
    if b != 0 {
      QuotientBound(Abs(Signed(a)), Abs(Signed(b)));
    }
    SextFixed(a);
    SextFixed(b);
    hide Quot, SextW;
    if b == WORD - 1 && a == WORD - HALF32 {
      // .L20: INT_MIN / -1
      a0 := a;
    } else {
      a0 := DivDi3(a, b);
    }
    SextFixed(a0);
  }

  /** `__modsi3`, an alias of `__moddi3`: REMW. */
  method ModSi3(a: word, b: word) returns (a0: word)
    requires a == SextW(a) && b == SextW(b)
    ensures a0 == SextW(a0) && Signed(a0) == RemSpec(Signed(a), Signed(b))
    ensures b == 0 ==> a0 == a
    ensures a == 0xffff_ffff_8000_0000 && b == 0xffff_ffff_ffff_ffff ==> a0 == 0
  {
    SextFixed(a);
    SextFixed(b);
    hide SextW;
    a0 := ModDi3(a, b);
    SextFixed(a0);
  }

  lemma {:induction false} ScaledDivision(n: nat, d: nat)
    requires d > 0
    ensures Quot(n * 0x1_0000_0000, d * 0x1_0000_0000) == Quot(n, d)
  {
    if n >= d { ScaledDivision(n - d, d); }
  }

  /** `__udivsi3`: DIVUW, with the operands moved to the upper half of the registers. */
  method UDivSi3(a: word, b: word) returns (a0: word)
    ensures Low32(b) == 0 ==> a0 == WORD - 1
    ensures Low32(b) != 0 ==> a0 == SextW(Quot(Low32(a), Low32(b)))
  {
    var r: word;
    a0, r := UDivDi3(Sll32(a), Sll32(b));
    if Low32(b) != 0 {
      ScaledDivision(Low32(a), Low32(b));
    }
    a0 := SextW(a0);
  }

  /** `__umodsi3`: REMUW. */
  method UModSi3(a: word, b: word) returns (a0: word)
    ensures a0 == SextW(if Low32(b) == 0 then Low32(a) else Rem(Low32(a), Low32(b)))
  {
    var q, r := UDivDi3(Srl32(Sll32(a)), Srl32(Sll32(b)));
    a0 := SextW(r);
  }

  // ---------------------------------------------------------------- multiplication

  /** One turn of the multiplication loop on unbounded numbers. */
  lemma AddAndDouble(product: int, sum: nat, x: nat, y: nat)
    requires product == sum + x * y
    ensures product == (if y % 2 == 1 then sum + x else sum) + (2 * x) * (y / 2)
  {
    var h := y / 2;
    MulCommute(x, y);
    MulDouble(h, x);
    MulCommute(2 * x, h);
    MulAdd(2 * h, y % 2, x);
    MulDouble(x, h);
    MulCommute(x, h);
  }

  lemma WrapSum(x: int, y: int)
    ensures Wrap(Wrap(x) + Wrap(y)) == Wrap(x + y)
  {}

  /** `__muldi3`: the low 64 bits of the product. */
  method MulDi3(x: word, y: word) returns (a0: word)
    ensures a0 == Wrap(x * y)
    ensures a0 == Wrap(Signed(x) * Signed(y))
  {
    var a1: word, a2: word := y, x;
    a0 := 0;
    ghost var sum: nat, wide: nat := 0, x;   // a0 and a2 without truncation
    var again := true;
    while again
      invariant x * y == sum + wide * a1
      invariant a0 == Wrap(sum) && a2 == Wrap(wide)
      invariant !again ==> a1 == 0
      decreases again, a1
    {
      AddAndDouble(x * y, sum, wide, a1);
      if a1 % 2 == 1 {
        WrapSum(sum, wide);
        a0 := Wrap(a0 + a2);
        sum := sum + wide;
      }
      WrapSum(wide, wide);
      a1 := a1 / 2;
      a2 := Wrap(2 * a2);
      wide := 2 * wide;
      again := a1 != 0;
    }
    SignDoesNotMatter(x, y);
  }

  lemma WrapMultiple(x: int, k: int)
    ensures Wrap(x + WORD * k) == Wrap(x)
  {}

  /** The low half of a product is the same for signed and unsigned operands (section 7.1). */
  lemma SignDoesNotMatter(x: word, y: word)
    ensures Wrap(Signed(x) * Signed(y)) == Wrap(x * y)
  {
    var kx, ky := if x < HALF then 0 else -1, if y < HALF then 0 else -1;
    assert Signed(x) == x + WORD * kx && Signed(y) == y + WORD * ky;
    assert Signed(x) * Signed(y) == x * y + WORD * (kx * y + ky * Signed(x)) by {
      MulAdd(x, WORD * kx, Signed(y));
      MulCommute(x, Signed(y));
      MulAdd(y, WORD * ky, x);
      MulCommute(x, y);
    }
    WrapMultiple(x * y, kx * y + ky * Signed(x));
  }
}
