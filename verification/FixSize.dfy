/** Rounding a page count up to a power of two (`fixsize` and `IS_POWER_OF_2` in
    arch/riscv/kernel/mm.c). */
module FixSize {
  import opened Words
  import opened BuddyTree

  function And(x: nat, y: nat): nat {
    if x == 0 then 0
    else (if x % 2 == 1 && y % 2 == 1 then 1 else 0) + 2 * And(x / 2, y / 2)
  }

  /** The macro's test `!(x & (x - 1))`. */
  predicate PowerOf2Test(x: word) { And(x, Wrap(x - 1)) == 0 }

  lemma {:induction false} PowerOf2TestIsCorrect(x: nat)
    requires x > 0
    ensures And(x, x - 1) == 0 <==> IsPow2(x)
  {
    if x % 2 == 0 {
      PowerOf2TestIsCorrect(x / 2);
    } else {
      AndSame(x / 2);
    }
  }

  lemma {:induction false} AndSame(h: nat)
    ensures And(h, h) == h
  {
    if h > 0 { AndSame(h / 2); }
  }

  function BitLength(v: nat): nat {
    if v == 0 then 0 else 1 + BitLength(v / 2)
  }

  lemma {:induction false} BitLengthFacts(v: nat)
    ensures v < Pow2(BitLength(v))
    ensures v > 0 ==> Pow2(BitLength(v) - 1) <= v && Bit(v, BitLength(v) - 1)
    ensures forall i: nat :: i >= BitLength(v) ==> !Bit(v, i)
  {
    forall i: nat | i >= BitLength(v)
      ensures !Bit(v, i)
    {
      NoHighBits(v, i);
    }
    if v > 0 { BitLengthFacts(v / 2); }
  }

  lemma {:induction false} NoHighBits(v: nat, i: nat)
    requires i >= BitLength(v)
    ensures !Bit(v, i)
    decreases i
  {
    if v == 0 {
      BitOfZero(i);
    } else {
      NoHighBits(v / 2, i - 1);
    }
  }

  lemma {:induction false} AllOnes(v: nat, n: nat)
    requires forall i: nat :: Bit(v, i) <==> i < n
    ensures v == Pow2(n) - 1
    decreases n, v
  {
    assert Bit(v, 0) <==> 0 < n;
    forall i: nat
      ensures Bit(v / 2, i) <==> i + 1 < n
    {
      assert Bit(v, i + 1) == Bit(v / 2, i);
    }
    if n > 0 {
      AllOnes(v / 2, n - 1);
    } else if v > 0 {
      AllOnes(v / 2, 0);
    }
  }

  /** The top `m` of the `n` significant bits are set, and no bit above them is. */
  ghost predicate Smeared(v: nat, n: nat, m: nat) {
    && (forall i: nat :: i >= n ==> !Bit(v, i))
    && (forall i: nat :: n - m <= i < n ==> Bit(v, i))
  }

  /** `size |= size >> m` doubles the run of set bits. */
  lemma SmearStep(v: nat, n: nat, m: nat)
    requires Smeared(v, n, m)
    ensures Smeared(Or(v, Shr(v, m)), n, 2 * m)
  {
    var w := Or(v, Shr(v, m));
    forall i: nat | i >= n
      ensures !Bit(w, i)
    {
      OrBits(v, Shr(v, m), i);
      ShrBits(v, m, i);
    }
    forall i: nat | n - 2 * m <= i < n
      ensures Bit(w, i)
    {
      OrBits(v, Shr(v, m), i);
      ShrBits(v, m, i);
    }
  }

  lemma {:induction false} OrStaysBelow(x: nat, y: nat, n: nat)
    requires x < Pow2(n) && y < Pow2(n)
    ensures Or(x, y) < Pow2(n)
    decreases n
  {
    if n > 0 && (x > 0 || y > 0) { OrStaysBelow(x / 2, y / 2, n - 1); }
  }

  lemma {:induction false} ShrStaysBelow(x: nat, m: nat)
    ensures Shr(x, m) <= x
    decreases m
  {
    if m > 0 { ShrStaysBelow(x / 2, m - 1); }
  }

  lemma {:induction false} Pow2IsPow2(n: nat)
    ensures IsPow2(Pow2(n))
  {
    if n > 0 { Pow2IsPow2(n - 1); }
  }

  /** One line of `fixsize`, on registers. */
  method Smear(v: word, m: nat, ghost n: nat) returns (w: word)
    requires Smeared(v, n, m)
    ensures Smeared(w, n, 2 * m)
  {
    SmearStep(v, n, m);
    ShrStaysBelow(v, m);
    Pow2Table();
    OrStaysBelow(v, Shr(v, m), 64);
    w := Or(v, Shr(v, m));
  }

  ghost predicate LeastPow2AtLeast(r: nat, x: nat) {
    IsPow2(r) && r >= x && forall p: nat :: IsPow2(p) && p >= x ==> r <= p
  }

  /** `fixsize`: the least power of two at or above its argument, for every argument from 1 to
      2^63; every other argument gives 0, the truncated 2^64. */
  method FixSize(x: word) returns (r: word)
    ensures 1 <= x <= HALF ==> LeastPow2AtLeast(r, x)
    ensures !(1 <= x <= HALF) ==> r == 0
  {
    hide Smeared, BitLength, LeastPow2AtLeast;
    var v := Wrap(x - 1);
    ghost var n := BitLength(v);
    TopBitSet(v);
    var w := Smear(v, 1, n);
    w := Smear(w, 2, n);
    w := Smear(w, 4, n);
    w := Smear(w, 8, n);
    w := Smear(w, 16, n);
    w := Smear(w, 32, n);
    RoundedUp(x, v, n, w);
    r := Wrap((w as int) + 1);
  }

  lemma TopBitSet(v: nat)
    ensures Smeared(v, BitLength(v), 1)
  {
    BitLengthFacts(v);
  }

  lemma SmearedToOnes(w: nat, n: nat)
    requires Smeared(w, n, 64) && n <= 64
    ensures w + 1 == Pow2(n)
  {
    AllOnes(w, n);
  }

  lemma RoundedUp(x: word, v: word, n: nat, w: word)
    requires v == Wrap(x - 1) && n == BitLength(v) && Smeared(w, n, 64)
    ensures 1 <= x <= HALF ==> w < HALF && LeastPow2AtLeast(w + 1, x)
    ensures !(1 <= x <= HALF) ==> w + 1 == WORD
  {
    hide Smeared, BitLength, LeastPow2AtLeast, Pow2;
    BitLengthOfWord(v);
    SmearedToOnes(w, n);
    if 1 <= x <= HALF {
      LeastAbove(v, n);
    }
  }

  lemma BitLengthOfWord(v: word)
    ensures BitLength(v) <= 64
    ensures v < HALF <==> BitLength(v) <= 63
    ensures BitLength(v) == 64 ==> Pow2(BitLength(v)) == WORD
    ensures BitLength(v) <= 63 ==> Pow2(BitLength(v)) <= HALF
  {
    var n := BitLength(v);
    BitLengthFacts(v);
    Pow2Table();
    if n > 64 { Pow2Monotone(64, n - 1); }
    if n > 63 { Pow2Monotone(63, n - 1); } else { Pow2Monotone(n, 63); }
  }

  lemma LeastAbove(v: nat, n: nat)
    requires n == BitLength(v)
    ensures LeastPow2AtLeast(Pow2(n), v + 1)
  {
    BitLengthFacts(v);
    Pow2IsPow2(n);
    forall p: nat | IsPow2(p) && p >= v + 1
      ensures Pow2(n) <= p
    {
      if n > 0 {
        Pow2IsPow2(n - 1);
        Pow2Gap(Pow2(n - 1), p);
      }
    }
  }

  /** The rounding at the head of `buddy_alloc`. */
  method RoundPages(nrpages: word) returns (r: word)
    ensures nrpages <= HALF ==> LeastPow2AtLeast(r, if nrpages == 0 then 1 else nrpages)
    ensures nrpages > HALF ==> r == 0
  {
    if nrpages == 0 {
      r := 1;
    } else {
      PowerOf2TestIsCorrect(nrpages);
      if PowerOf2Test(nrpages) {
        r := nrpages;
        if nrpages > HALF { TopPow2(nrpages); }
      } else {
        r := FixSize(nrpages);
      }
    }
  }

  /** No power of two lies strictly between 2^63 and 2^64. */
  lemma TopPow2(x: word)
    requires IsPow2(x)
    ensures x <= HALF
  {
    Pow2Table();
    Pow2IsPow2(63);
    if x > HALF { Pow2Gap(HALF, x); }
  }
}
