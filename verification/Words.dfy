/** 64-bit machine words as bounded naturals, with the bit operations the kernel uses.
    Bitwise "or" is defined digit by digit, so that facts about it are proved by induction
    on the number rather than by conversion between integers and bit-vectors. */
module Words {

  const WORD: int := 0x1_0000_0000_0000_0000
  const HALF: int := 0x8000_0000_0000_0000
  const WORD32: int := 0x1_0000_0000
  const HALF32: int := 0x8000_0000

  type byte = x: nat | x < 256
  type word = x: nat | x < 0x1_0000_0000_0000_0000

  /** Truncation of a mathematical integer to 64 bits. */
  function Wrap(x: int): word { x % 0x1_0000_0000_0000_0000 }

  /** The two's complement value of a register. */
  function Signed(w: word): int { if w < 0x8000_0000_0000_0000 then w else w - 0x1_0000_0000_0000_0000 }

  lemma SignedIsTwosComplement(w: word, x: int)
    ensures x == Signed(w) <==> -0x8000_0000_0000_0000 <= x < 0x8000_0000_0000_0000 && Wrap(x) == w
  {}

  /** PGROUNDUP: `(addr + PGSIZE - 1) & ~(PGSIZE - 1)`. */
  function RoundUp(a: nat): nat { Wrap(a + 4095) - Wrap(a + 4095) % 4096 }

  lemma RoundUpIsAbove(a: nat)
    requires a + 4095 < WORD
    ensures a <= RoundUp(a) < a + 4096 && RoundUp(a) % 4096 == 0
  {}

  lemma RoundUpAtTop(a: nat)
    requires a < WORD <= a + 4095
    ensures RoundUp(a) == 0
  {}

  function Neg(w: word): word { if w == 0 then 0 else 0x1_0000_0000_0000_0000 - w }

  /** The low half of a register. */
  function Low32(w: word): (r: nat)
    ensures r < WORD32
  {
    w % 0x1_0000_0000
  }

  /** `sext.w`: the low 32 bits, sign-extended to 64. */
  function SextW(w: word): word {
    if Low32(w) < 0x8000_0000 then Low32(w) else Low32(w) + 0xffff_ffff_0000_0000
  }

  /** The registers that hold sign-extended 32-bit values. */
  lemma SextFixed(w: word)
    ensures w == SextW(w) <==> -0x8000_0000 <= Signed(w) < 0x8000_0000
  {}

  /** `sll` by 32. */
  function Sll32(w: word): word { Low32(w) * 0x1_0000_0000 }

  /** `srl` by 32. */
  function Srl32(w: word): word { w / 0x1_0000_0000 }

  function Or(x: nat, y: nat): nat {
    if x == 0 && y == 0 then 0
    else (if x % 2 == 1 || y % 2 == 1 then 1 else 0) + 2 * Or(x / 2, y / 2)
  }

  /** Bit `i` of `x`. */
  predicate Bit(x: nat, i: nat)
    decreases i
  {
    if i == 0 then x % 2 == 1 else Bit(x / 2, i - 1)
  }

  function Pow2(n: nat): (p: nat)
    ensures p >= 1
  {
    if n == 0 then 1 else 2 * Pow2(n - 1)
  }

  /** Logical right shift by `n`. */
  function Shr(x: nat, n: nat): nat
    decreases n
  {
    if n == 0 then x else Shr(x / 2, n - 1)
  }

  lemma {:induction false} BitOfZero(i: nat)
    ensures !Bit(0, i)
  {
    if i > 0 { BitOfZero(i - 1); }
  }

  lemma {:induction false} OrBits(x: nat, y: nat, i: nat)
    ensures Bit(Or(x, y), i) == (Bit(x, i) || Bit(y, i))
    decreases i
  {
    hide Or;
    OrDigits(x, y);
    if i > 0 { OrBits(x / 2, y / 2, i - 1); }
  }

  lemma OrDigits(x: nat, y: nat)
    ensures Or(x, y) % 2 == (if x % 2 == 1 || y % 2 == 1 then 1 else 0) && Or(x, y) / 2 == Or(x / 2, y / 2)
  {
    hide Or;
    OrUnfold(x, y);
  }

  lemma OrUnfold(x: nat, y: nat)
    ensures Or(x, y) == (if x % 2 == 1 || y % 2 == 1 then 1 else 0) + 2 * Or(x / 2, y / 2)
  {
    if x == 0 && y == 0 { assert x / 2 == 0 && y / 2 == 0; }
  }

  lemma {:induction false} ShrBits(x: nat, n: nat, i: nat)
    ensures Bit(Shr(x, n), i) == Bit(x, i + n)
    decreases n
  {
    if n > 0 { ShrBits(x / 2, n - 1, i); }
  }

  /** "Or" with a power of two lying below every set bit is addition. */
  lemma {:induction false} OrIsAdd(c: nat, k: nat)
    ensures Or(2 * (Pow2(k) * c), Pow2(k)) == 2 * (Pow2(k) * c) + Pow2(k)
    decreases k
  {
    var x := Pow2(k) * c;
    if k == 0 {
      OrZero(x);
    } else {
      assert x == 2 * (Pow2(k - 1) * c);
      OrIsAdd(c, k - 1);
    }
  }

  lemma {:induction false} OrZero(x: nat)
    ensures Or(x, 0) == x
  {
    if x > 0 { OrZero(x / 2); }
  }

  lemma {:induction false} Pow2Monotone(a: nat, b: nat)
    requires a <= b
    ensures Pow2(a) <= Pow2(b)
  {
    if a < b { Pow2Monotone(a, b - 1); }
  }

  lemma Pow2Table()
    ensures Pow2(32) == WORD32 && Pow2(63) == HALF && Pow2(64) == WORD
  {
    assert Pow2(8) == 256;
    assert Pow2(16) == 0x1_0000;
    assert Pow2(24) == 0x100_0000;
    assert Pow2(32) == 0x1_0000_0000;
    assert Pow2(40) == 0x100_0000_0000;
    assert Pow2(48) == 0x1_0000_0000_0000;
    assert Pow2(56) == 0x100_0000_0000_0000;
    assert Pow2(63) == 0x8000_0000_0000_0000;
    assert Pow2(64) == 0x1_0000_0000_0000_0000;
  }
}
