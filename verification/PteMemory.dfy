/** Page table entries and indices as the numbers that the rest of the model works with: the bit-level
    forms of `PteCodec` against the arithmetic of `PageTable` and the bytes of `KernelSpec`. */
module PteMemory {
  import opened Words
  import opened Arith
  import opened CowSpec
  import PteCodec
  import PageTable
  import KernelSpec

  // ---------------------------------------------------------------- bit-vectors as numbers

  predicate Odd(b: bv64) { b & 1 != 0 }

  function Half(b: bv64): bv64 { b >> 1 }

  lemma HalfIsLess(b: bv64)
    ensures b != 0 ==> Half(b) < b
    ensures b == 0 ==> Half(b) == 0 && !Odd(b)
  {}

  /** The number that a bit-vector denotes. */
  function Number(b: bv64): nat {
    HalfIsLess(b);
    if b == 0 then 0 else Digit(Odd(b)) + 2 * Number(Half(b))
  }

  function Digit(odd: bool): nat { if odd then 1 else 0 }

  lemma NumberStep(b: bv64)
    ensures Number(b) == Digit(Odd(b)) + 2 * Number(Half(b))
    ensures Number(Half(b)) == Number(b) / 2 && (Odd(b) <==> Number(b) % 2 == 1)
  {
    hide Odd, Half;
    HalfIsLess(b);
  }

  /** The `k` lowest bits of `b`. */
  function LowBits(b: bv64, k: nat): bv64 { And(b, Ones(k)) }

  function And(b: bv64, m: bv64): bv64 { b & m }

  function Ones(k: nat): bv64 {
    if k == 0 then 0 else OneMore(Ones(k - 1))
  }

  function OneMore(m: bv64): bv64 { (m << 1) | 1 }

  lemma LowBitsStep(b: bv64, k: nat)
    requires k > 0
    ensures Half(LowBits(b, k)) == LowBits(Half(b), k - 1) && Odd(LowBits(b, k)) == Odd(b)
  {
    hide And, OneMore, Half, Odd;
    MaskStep(b, Ones(k - 1));
  }

  lemma MaskStep(b: bv64, m: bv64)
    ensures Half(And(b, OneMore(m))) == And(Half(b), m) && Odd(And(b, OneMore(m))) == Odd(b)
  {}

  lemma NoBits(b: bv64)
    ensures LowBits(b, 0) == 0 && Number(0) == 0
  {}

  lemma {:induction false} NumberMask(b: bv64, k: nat)
    ensures Number(LowBits(b, k)) == Number(b) % Pow2(k)
    decreases k
  {
    hide Number, LowBits, Half, Odd;
    if k == 0 {
      NoBits(b);
    } else {
      LowBitsStep(b, k);
      NumberMask(Half(b), k - 1);
      NumberStep(b);
      NumberStep(LowBits(b, k));
      RemainderStep(Odd(b), Number(Half(b)), Pow2(k - 1));
    }
  }

  lemma RemainderStep(odd: bool, x: nat, d: nat)
    requires d > 0
    ensures (Digit(odd) + 2 * x) % (2 * d) == Digit(odd) + 2 * (x % d)
  {
    DivFacts(x, d);
    MulDouble(x / d, d);
    MulAssoc(x / d, 2, d);
    MulCommute(x / d, 2);
    DivUnique(Digit(odd) + 2 * x, 2 * d, x / d, Digit(odd) + 2 * (x % d));
  }

  // ---------------------------------------------------------------- literal shifts and masks

  function Shift4(b: bv64): bv64 { b >> 4 }

  function Shift8(b: bv64): bv64 { b >> 8 }

  function Shift12(b: bv64): bv64 { b >> 12 }

  lemma Shifts(b: bv64)
    ensures Shift4(b) == Half(Half(Half(Half(b)))) && Shift8(b) == Shift4(Shift4(b)) && Shift12(b) == Shift4(Shift8(b))
  {}

  lemma NumberShift4(b: bv64)
    ensures Number(Shift4(b)) == Number(b) / 16
  {
    hide Number, Half, Odd, Shift4, Shift8, Shift12;
    Shifts(b);
    NumberStep(b);
    NumberStep(Half(b));
    NumberStep(Half(Half(b)));
    NumberStep(Half(Half(Half(b))));
  }

  lemma NumberShift8(b: bv64)
    ensures Number(Shift8(b)) == Number(b) / 256 && Number(Shift12(b)) == Number(b) / 4096
  {
    hide Number, Half, Odd, Shift4, Shift8, Shift12;
    Shifts(b);
    NumberShift4(b);
    NumberShift4(Shift4(b));
    NumberShift4(Shift8(b));
  }

  lemma OnesTable()
    ensures OneMore(0) == 0x1 && OneMore(0x1) == 0x3 && OneMore(0x3) == 0x7 && OneMore(0x7) == 0xf
    ensures OneMore(0xf) == 0x1f && OneMore(0x1f) == 0x3f && OneMore(0x3f) == 0x7f && OneMore(0x7f) == 0xff
    ensures OneMore(0xff) == 0x1ff && OneMore(0x1ff) == 0x3ff
  {}

  lemma MaskTable()
    ensures Ones(8) == 0xff && Ones(9) == 0x1ff && Ones(10) == 0x3ff
  {
    hide OneMore;
    OnesTable();
    assert Ones(1) == 0x1;
    assert Ones(2) == 0x3;
    assert Ones(3) == 0x7;
    assert Ones(4) == 0xf;
    assert Ones(5) == 0x1f;
    assert Ones(6) == 0x3f;
    assert Ones(7) == 0x7f;
    assert Ones(8) == 0xff;
    assert Ones(9) == 0x1ff;
  }

  function Mask8(b: bv64): bv64 { And(b, 0xff) }

  function Mask9(b: bv64): bv64 { And(b, 0x1ff) }

  function Mask10(b: bv64): bv64 { And(b, 0x3ff) }

  lemma Masks(b: bv64)
    ensures Mask8(b) == LowBits(b, 8) && Mask9(b) == LowBits(b, 9) && Mask10(b) == LowBits(b, 10)
  {
    hide Ones, And;
    MaskTable();
  }

  lemma NumberMasks(b: bv64)
    ensures Number(Mask8(b)) == Number(b) % 0x100 && Number(Mask9(b)) == Number(b) % 0x200
    ensures Number(Mask10(b)) == Number(b) % 0x400
  {
    hide Number, LowBits, Mask8, Mask9, Mask10;
    Masks(b);
    NumberMask(b, 8);
    NumberMask(b, 9);
    NumberMask(b, 10);
    SmallPowers();
  }

  lemma SmallPowers()
    ensures Pow2(8) == 0x100 && Pow2(9) == 0x200 && Pow2(10) == 0x400
  {
    assert Pow2(4) == 0x10;
  }

  // ---------------------------------------------------------------- the indices of an address

  /** The kernel's expressions for the three indices (`PteCodec`) are the indices that the tables are
      modelled with. */
  lemma IndicesAgree(va: bv64)
    ensures Number(PteCodec.Vpn0(va)) == PageTable.Vpn0(Number(va) / 4096)
    ensures Number(PteCodec.Vpn1(va)) == PageTable.Vpn1(Number(va) / 4096)
    ensures Number(PteCodec.Vpn2(va)) == PageTable.Vpn2(Number(va) / 4096)
  {
    hide Number, Half, Shift8, Shift12, Mask9, PteCodec.Vpn0, PteCodec.Vpn1, PteCodec.Vpn2;
    IndexForms(va);
    var page := Shift12(va);
    NumberShift8(va);
    NumberShift9(page);
    NumberShift9(Half(Shift8(page)));
    NumberMasks(page);
    NumberMasks(Half(Shift8(page)));
    NumberMasks(Half(Shift8(Half(Shift8(page)))));
    assert Number(page) / 512 / 512 == Number(page) / 262144;
  }

  lemma IndexForms(va: bv64)
    ensures PteCodec.Vpn0(va) == Mask9(Shift12(va))
    ensures PteCodec.Vpn1(va) == Mask9(Half(Shift8(Shift12(va))))
    ensures PteCodec.Vpn2(va) == Mask9(Half(Shift8(Half(Shift8(Shift12(va))))))
  {}

  lemma NumberShift9(b: bv64)
    ensures Number(Half(Shift8(b))) == Number(b) / 512
  {
    hide Number, Half, Shift8, Odd;
    NumberShift8(b);
    NumberStep(Shift8(b));
  }

  // ---------------------------------------------------------------- the bytes of an entry

  /** Byte `k` of a 64-bit value in memory, little-endian. */
  function ByteOf(b: bv64, k: nat): byte
    decreases k
  {
    NumberMasks(b);
    if k == 0 then Number(Mask8(b)) else ByteOf(Shift8(b), k - 1)
  }

  /** Entry `i` of a table that lies in a page as bytes. */
  ghost predicate Stored(page: Page, i: nat, e: bv64) {
    i < 512 && forall k :: 0 <= k < 8 ==> page[8 * i + k] == ByteOf(e, k)
  }

  lemma BitsOf(b: bv64)
    ensures (Bit(Number(b), 0) <==> Odd(b)) && (Bit(Number(b), 1) <==> Odd(Half(b)))
    ensures Bit(Number(b), 2) <==> Odd(Half(Half(b)))
    ensures Bit(Number(b), 3) <==> Odd(Half(Half(Half(b))))
  {
    hide Number, Half, Odd;
    NumberStep(b);
    NumberStep(Half(b));
    NumberStep(Half(Half(b)));
    NumberStep(Half(Half(Half(b))));
  }

  lemma HighBitsOf(b: bv64)
    ensures Bit(Number(b), 4) <==> Odd(Shift4(b))
    ensures Bit(Number(b), 5) <==> Odd(Half(Shift4(b)))
    ensures Bit(Number(b), 6) <==> Odd(Half(Half(Shift4(b))))
    ensures Bit(Number(b), 7) <==> Odd(Half(Half(Half(Shift4(b)))))
  {
    hide Number, Half, Odd, Shift4;
    NumberShift4(b);
    BitsOf(Shift4(b));
    FourBitsUp(Number(b));
  }

  lemma FourBitsUp(x: nat)
    ensures (Bit(x, 4) <==> Bit(x / 16, 0)) && (Bit(x, 5) <==> Bit(x / 16, 1))
    ensures (Bit(x, 6) <==> Bit(x / 16, 2)) && (Bit(x, 7) <==> Bit(x / 16, 3))
  {
    assert x / 2 / 2 / 2 / 2 == x / 16;
  }

  /** The flags of an entry, as the bits of its two lowest bytes. */
  lemma FlagForms(e: bv64)
    ensures PteCodec.FlagsOf(e)
         == Flags(Odd(Mask8(e)), Odd(Half(Mask8(e))), Odd(Half(Half(Mask8(e)))), Odd(Half(Half(Half(Mask8(e))))),
                  Odd(Shift4(Mask8(e))), Odd(Half(Shift4(Mask8(e)))), Odd(Half(Half(Shift4(Mask8(e))))),
                  Odd(Half(Half(Half(Shift4(Mask8(e)))))), Odd(Mask8(Shift8(e))), Odd(Half(Mask8(Shift8(e)))))
  {}

  lemma FlagsInBytes(e: bv64)
    ensures var low: nat, next: nat := ByteOf(e, 0), ByteOf(e, 1);
            PteCodec.FlagsOf(e)
            == Flags(Bit(low, 0), Bit(low, 1), Bit(low, 2), Bit(low, 3), Bit(low, 4), Bit(low, 5), Bit(low, 6),
                     Bit(low, 7), Bit(next, 0), Bit(next, 1))
  {
    hide Number, Half, Odd, Shift4, Shift8, Mask8, PteCodec.FlagsOf, Bit;
    FlagForms(e);
    BitsOf(Mask8(e));
    HighBitsOf(Mask8(e));
    BitsOf(Mask8(Shift8(e)));
    assert ByteOf(e, 1) == ByteOf(Shift8(e), 0);
  }

  /** Dividing by 256, `k` times. */
  function Quotient(x: nat, k: nat): nat {
    if k == 0 then x else Quotient(Rest(x), k - 1)
  }

  function Rest(x: nat): nat { x / 256 }

  function Last(x: nat): nat { x % 256 }

  lemma {:induction false} ByteIsDigit(e: bv64, k: nat)
    ensures ByteOf(e, k) == Last(Quotient(Number(e), k))
    decreases k
  {
    hide Number, Shift8, Mask8;
    if k == 0 {
      NumberMasks(e);
    } else {
      NumberShift8(e);
      ByteIsDigit(Shift8(e), k - 1);
    }
  }

  /** The physical page number of an entry, as `FrameIn` puts it together. */
  lemma PpnInBytes(x: nat)
    requires x / 1024 < 0x1000_0000_0000
    ensures var b1: int, b2: int, b3: int := Last(Quotient(x, 1)), Last(Quotient(x, 2)), Last(Quotient(x, 3));
            var b4: int, b5: int, b6: int := Last(Quotient(x, 4)), Last(Quotient(x, 5)), Last(Quotient(x, 6));
            b1 / 4 + 0x40 * b2 + 0x4000 * b3 + 0x40_0000 * b4 + 0x4000_0000 * b5 + 0x40_0000_0000 * (b6 % 0x40)
            == x / 1024
  {
    QuotientStep(x, 0);
    QuotientStep(x, 1);
    QuotientStep(x, 2);
    QuotientStep(x, 3);
    QuotientStep(x, 4);
    QuotientStep(x, 5);
    hide Quotient, Rest, Last;
    Remainder256(Quotient(x, 1));
    Remainder256(Quotient(x, 2));
    Remainder256(Quotient(x, 3));
    Remainder256(Quotient(x, 4));
    Remainder256(Quotient(x, 5));
    Quarter(x);
    Collect(Quotient(x, 1), Quotient(x, 2), Quotient(x, 3), Quotient(x, 4), Quotient(x, 5), Quotient(x, 6),
            Last(Quotient(x, 1)), Last(Quotient(x, 2)), Last(Quotient(x, 3)), Last(Quotient(x, 4)),
            Last(Quotient(x, 5)));
    Assemble(Quotient(x, 1), Last(Quotient(x, 1)), Last(Quotient(x, 2)), Last(Quotient(x, 3)), Last(Quotient(x, 4)),
             Last(Quotient(x, 5)), Quotient(x, 6));
    SixBits(Quotient(x, 6));
  }

  lemma Collect(y1: nat, y2: nat, y3: nat, y4: nat, y5: nat, y6: nat, b1: nat, b2: nat, b3: nat, b4: nat, b5: nat)
    requires y1 == b1 + 256 * y2 && y2 == b2 + 256 * y3 && y3 == b3 + 256 * y4 && y4 == b4 + 256 * y5
    requires y5 == b5 + 256 * y6
    ensures y1 == b1 + 0x100 * b2 + 0x1_0000 * b3 + 0x100_0000 * b4 + 0x1_0000_0000 * b5 + 0x100_0000_0000 * y6
  {}

  lemma SixBits(y: nat)
    ensures y < 0x40 ==> Last(y) % 0x40 == y
  {}

  lemma Remainder256(y: nat)
    ensures y == Last(y) + 256 * Rest(y) && Last(y) < 256
  {}

  lemma Quarter(x: nat)
    ensures x / 1024 == Rest(x) / 4
  {}

  lemma Assemble(y: nat, b1: nat, b2: nat, b3: nat, b4: nat, b5: nat, y6: nat)
    requires b1 < 256 && b2 < 256 && b3 < 256 && b4 < 256 && b5 < 256 && y / 4 < 0x1000_0000_0000
    requires y == b1 + 0x100 * b2 + 0x1_0000 * b3 + 0x100_0000 * b4 + 0x1_0000_0000 * b5 + 0x100_0000_0000 * y6
    ensures y6 < 0x40
    ensures b1 / 4 + 0x40 * b2 + 0x4000 * b3 + 0x40_0000 * b4 + 0x4000_0000 * b5 + 0x40_0000_0000 * y6 == y / 4
  {
    var rest: nat := 0x40 * b2 + 0x4000 * b3 + 0x40_0000 * b4 + 0x4000_0000 * b5 + 0x40_0000_0000 * y6;
    assert y == b1 + 4 * rest;
  }

  lemma {:induction false} QuotientStep(x: nat, k: nat)
    ensures Quotient(x, 0) == x && Quotient(x, k + 1) == Rest(Quotient(x, k))
    decreases k
  {
    if k > 0 { QuotientStep(Rest(x), k - 1); }
  }

  lemma SmallPpn(ppn: bv64)
    requires ppn < 0x1000_0000_0000
    ensures Number(ppn) < 0x1000_0000_0000
  {
    hide Number, Shift8, Shift12;
    NoHighBits(ppn);
    var a := Shift12(ppn);
    NumberShift8(ppn);
    NumberShift8(a);
    NumberShift8(Shift12(a));
    NumberShift8(Shift12(Shift12(a)));
    NumberOfZero();
  }

  lemma NoHighBits(ppn: bv64)
    requires ppn < 0x1000_0000_0000
    ensures Shift8(Shift12(Shift12(Shift12(ppn)))) == 0
  {}

  lemma NumberOfZero()
    ensures Number(0) == 0
  {}

  /** `e >> 10` */
  lemma NumberShift10(e: bv64)
    ensures Number(e >> 10) == Number(e) / 1024
  {
    hide Number, Shift8, Half, Odd;
    TenIsTwoAndEight(e);
    NumberShift9(e);
    NumberStep(Half(Shift8(e)));
  }

  lemma TenIsTwoAndEight(e: bv64)
    ensures e >> 10 == Half(Half(Shift8(e)))
  {}

  /** A valid entry stored in a page by its bytes reads back as its fields, its physical page number
      counted from the start of RAM; an entry without PTE_V as no entry. */
  lemma StoredEntryReadsBack(page: Page, i: nat, ppn: bv64, g: Flags)
    requires ppn < 0x1000_0000_0000 && Stored(page, i, PteCodec.Encode(ppn, g))
    ensures KernelSpec.EntryIn(page, i)
         == if !g.v then PageTable.NoPte()
            else Pte(if Number(ppn) < 0x8_0000 then 0 else Number(ppn) - 0x8_0000, g)
  {
    hide Number, ByteOf, Quotient, Bit, PteCodec.Encode, PteCodec.FlagsOf;
    var e := PteCodec.Encode(ppn, g);
    PteCodec.EncodeDecode(ppn, g);
    FlagsInBytes(e);
    LowestBit(ByteOf(e, 0));
    StoredFrame(page, i, e, ppn);
    assert page[8 * i + 0] == ByteOf(e, 0) && page[8 * i + 1] == ByteOf(e, 1);
  }

  lemma LowestBit(x: nat)
    ensures Bit(x, 0) <==> x % 2 == 1
  {}

  lemma StoredFrame(page: Page, i: nat, e: bv64, ppn: bv64)
    requires ppn < 0x1000_0000_0000 && Stored(page, i, e) && e >> 10 == ppn
    ensures KernelSpec.FrameIn(page, i) == if Number(ppn) < 0x8_0000 then 0 else Number(ppn) - 0x8_0000
  {
    hide Number, ByteOf, Quotient, Last;
    SmallPpn(ppn);
    NumberShift10(e);
    PpnInBytes(Number(e));
    forall k: nat | k < 8
      ensures page[8 * i + k] == Last(Quotient(Number(e), k))
    {
      ByteIsDigit(e, k);
    }
  }
}
