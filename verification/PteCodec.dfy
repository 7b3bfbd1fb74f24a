/** The bit-level form of page table entries and addresses (private_kdefs.h, mm.h), and that the C
    expressions of the kernel do what the field-wise model says.  The layout is the one of the
    RISC-V Privileged Architecture (20211203), section 4.4.1. */
module PteCodec {
  import opened CowSpec

  const PTE_V: bv64 := 0x001
  const PTE_W: bv64 := 0x004
  const PTE_U: bv64 := 0x010
  const PTE_A: bv64 := 0x040
  const PTE_D: bv64 := 0x080
  const PTE_S: bv64 := 0x100

  const PHY_START: bv64 := 0x8000_0000
  const PA2VA_OFFSET: bv64 := 0xffff_ffe0_0000_0000 - 0x8000_0000

  function Mask(b: bool, m: bv64): bv64 { if b then m else 0 }

  function LowFlags(g: Flags): bv64 {
    Mask(g.v, 0x001) | Mask(g.r, 0x002) | Mask(g.w, 0x004) | Mask(g.x, 0x008) | Mask(g.u, 0x010)
  }

  function HighFlags(g: Flags): bv64 {
    Mask(g.g, 0x020) | Mask(g.a, 0x040) | Mask(g.d, 0x080) | Mask(g.s, 0x100) | Mask(g.bit9, 0x200)
  }

  function FlagBits(g: Flags): bv64 { LowFlags(g) | HighFlags(g) }

  function FlagsOf(pte: bv64): Flags {
    Flags(pte & 0x001 != 0, pte & 0x002 != 0, pte & 0x004 != 0, pte & 0x008 != 0, pte & 0x010 != 0,
          pte & 0x020 != 0, pte & 0x040 != 0, pte & 0x080 != 0, pte & 0x100 != 0, pte & 0x200 != 0)
  }

  /** An entry with physical page number `ppn`. */
  function Encode(ppn: bv64, g: Flags): bv64 { (ppn << 10) | FlagBits(g) }

  lemma LowFlagsFacts(g: Flags)
    ensures LowFlags(g) & 0x1f == LowFlags(g)
    ensures (LowFlags(g) & 0x001 != 0) == g.v && (LowFlags(g) & 0x002 != 0) == g.r && (LowFlags(g) & 0x004 != 0) == g.w
    ensures (LowFlags(g) & 0x008 != 0) == g.x && (LowFlags(g) & 0x010 != 0) == g.u
  {}

  lemma HighFlagsFacts(g: Flags)
    ensures HighFlags(g) & 0x3e0 == HighFlags(g)
    ensures (HighFlags(g) & 0x020 != 0) == g.g && (HighFlags(g) & 0x040 != 0) == g.a
            && (HighFlags(g) & 0x080 != 0) == g.d
    ensures (HighFlags(g) & 0x100 != 0) == g.s && (HighFlags(g) & 0x200 != 0) == g.bit9
  {}

  lemma FlagBitsLow(g: Flags)
    ensures FlagBits(g) & 0x3ff == FlagBits(g)
  {
    hide LowFlags, HighFlags;
    LowFlagsFacts(g);
    HighFlagsFacts(g);
  }

  lemma FlagsRoundTrip(g: Flags)
    ensures FlagsOf(FlagBits(g)) == g
  {
    hide LowFlags, HighFlags;
    LowFlagsFacts(g);
    HighFlagsFacts(g);
    Halves(LowFlags(g), HighFlags(g));
  }

  lemma Halves(a: bv64, b: bv64)
    requires a & 0x1f == a && b & 0x3e0 == b
    ensures (a | b) & 0x001 == a & 0x001 && (a | b) & 0x002 == a & 0x002 && (a | b) & 0x004 == a & 0x004
    ensures (a | b) & 0x008 == a & 0x008 && (a | b) & 0x010 == a & 0x010
    ensures (a | b) & 0x020 == b & 0x020 && (a | b) & 0x040 == b & 0x040 && (a | b) & 0x080 == b & 0x080
    ensures (a | b) & 0x100 == b & 0x100 && (a | b) & 0x200 == b & 0x200
  {}

  lemma Fields(ppn: bv64, b: bv64)
    requires ppn < 0x1000_0000_0000 && b & 0x3ff == b
    ensures ((ppn << 10) | b) >> 10 == ppn && ((ppn << 10) | b) & 0x3ff == b
  {}

  /** Entries decode to what they were encoded from. */
  lemma EncodeDecode(ppn: bv64, g: Flags)
    requires ppn < 0x1000_0000_0000
    ensures Encode(ppn, g) >> 10 == ppn && FlagsOf(Encode(ppn, g)) == g
  {
    hide FlagBits, FlagsOf;
    FlagBitsLow(g);
    FlagsRoundTrip(g);
    Fields(ppn, FlagBits(g));
    LowBits(Encode(ppn, g));
  }

  /** The flags depend on the low ten bits only, and those are the flags. */
  lemma LowBits(pte: bv64)
    ensures FlagsOf(pte) == FlagsOf(pte & 0x3ff)
    ensures FlagBits(FlagsOf(pte)) == pte & 0x3ff
  {}

  /** `(PA >> 12 << 10) | perm | PTE_V | PTE_A | PTE_D` for a page-aligned address. */
  lemma LeafEntry(pa: bv64, g: Flags)
    requires pa & 0xfff == 0 && pa < 0x100_0000_0000_0000
    ensures (pa >> 12 << 10) | FlagBits(g) | PTE_V | PTE_A | PTE_D == Encode(pa >> 12, Leaf(g))
  {
    LeafBits(g);
    hide FlagBits, Leaf;
  }

  lemma LeafBits(g: Flags)
    ensures FlagBits(Leaf(g)) == FlagBits(g) | 0x001 | 0x040 | 0x080
  {
    assert LowFlags(Leaf(g)) == LowFlags(g) | 0x001;
    assert HighFlags(Leaf(g)) == HighFlags(g) | 0x040 | 0x080;
    hide LowFlags, HighFlags;
  }

  /** PFN2PHYS */
  function Address(pfn: bv64): bv64 { (pfn << 12) + 0x8000_0000 }

  /** `pte >> 10 << 12` is the address of the frame an entry names ... */
  lemma FrameAddress(pfn: bv64, g: Flags)
    requires pfn < 0x800_0000_0000
    ensures Encode(Address(pfn) >> 12, g) >> 10 << 12 == Address(pfn)
  {
    hide *;
    AddressPpn(pfn);
    AddressFromPpn(pfn);
    PpnBound(pfn);
    EncodeDecode(pfn + 0x8_0000, g);
  }

  /** ... and PHYS2PFN(VA2PA(PA2VA(.))) of the address is the frame's number in the allocator. */
  lemma FrameNumber(pfn: bv64)
    requires pfn < 0x800_0000_0000
    ensures (((Address(pfn) + PA2VA_OFFSET) - PA2VA_OFFSET) - PHY_START) >> 12 == pfn
  {
    AddressBack(pfn);
    Cancel(Address(pfn));
  }

  lemma Cancel(pa: bv64)
    ensures (pa + PA2VA_OFFSET) - PA2VA_OFFSET == pa
  {}

  /** The physical page number of a frame of the allocator. */
  lemma AddressPpn(pfn: bv64)
    requires pfn < 0x800_0000_0000
    ensures Address(pfn) >> 12 == pfn + 0x8_0000
  {}

  lemma AddressFromPpn(pfn: bv64)
    ensures (pfn + 0x8_0000) << 12 == Address(pfn)
  {}

  lemma PpnBound(pfn: bv64)
    requires pfn < 0x800_0000_0000
    ensures pfn + 0x8_0000 < 0x1000_0000_0000
  {}

  lemma AddressBack(pfn: bv64)
    requires pfn < 0x800_0000_0000
    ensures (Address(pfn) - 0x8000_0000) >> 12 == pfn
  {}

  /** `(pte & 0x3ff & ~PTE_W) | PTE_S` */
  lemma ShareExpression(pte: bv64)
    ensures (pte & 0x3ff & !PTE_W) | PTE_S == FlagBits(FlagsOf(pte).(w := false, s := true))
  {
    LowBits(pte);
  }

  /** `(pte & 0x3ff & ~PTE_S) | PTE_W` */
  lemma UnshareExpression(pte: bv64)
    ensures (pte & 0x3ff & !PTE_S) | PTE_W == FlagBits(FlagsOf(pte).(s := false, w := true))
  {
    LowBits(pte);
  }

  function VmBits(f: VmFlags): bv64 {
    Mask(f.read, 0x1) | Mask(f.write, 0x2) | Mask(f.exec, 0x4) | Mask(f.anon, 0x8)
  }

  /** `(vm_flags << 1) | PTE_U`, once V, A and D are added. */
  lemma PermsExpression(vma: Vma)
    ensures (VmBits(vma.flags) << 1) | PTE_U | PTE_V | PTE_A | PTE_D == FlagBits(PermsOf(vma))
  {}

  function Vpn0(va: bv64): bv64 { (va >> 12) & 0x1ff }
  function Vpn1(va: bv64): bv64 { (va >> 21) & 0x1ff }
  function Vpn2(va: bv64): bv64 { (va >> 30) & 0x1ff }

  /** Two user addresses (below USER_END) share all three indices exactly when they share a page, and
      user addresses index the lower half of the root table. */
  lemma IndicesAreThePage(va: bv64, vb: bv64)
    requires va < 0x40_0000_0000 && vb < 0x40_0000_0000
    ensures Vpn2(va) < 256
    ensures (Vpn0(va) == Vpn0(vb) && Vpn1(va) == Vpn1(vb) && Vpn2(va) == Vpn2(vb)) <==> va >> 12 == vb >> 12
  {
    PageFromIndices(va);
    PageFromIndices(vb);
    if va >> 12 == vb >> 12 { SamePageSameIndices(va, vb); }
  }

  lemma PageFromIndices(va: bv64)
    requires va < 0x40_0000_0000
    ensures Vpn2(va) < 256
    ensures va >> 12 == (Vpn2(va) << 18) | (Vpn1(va) << 9) | Vpn0(va)
  {}

  lemma SamePageSameIndices(va: bv64, vb: bv64)
    requires va >> 12 == vb >> 12
    ensures Vpn0(va) == Vpn0(vb) && Vpn1(va) == Vpn1(vb) && Vpn2(va) == Vpn2(vb)
  {
    assert va >> 21 == (va >> 12) >> 9 && va >> 30 == (va >> 12) >> 18;
    assert vb >> 21 == (vb >> 12) >> 9 && vb >> 30 == (vb >> 12) >> 18;
  }
}
