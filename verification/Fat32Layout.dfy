/** The two packed structures that the FAT32 driver reads off the disk (include/fat32.h), as their fields in
    order: the driver's byte offsets are the sums of the sizes of the fields before. */
module Fat32Layout {
  import opened Words
  import opened Arith
  import opened Fat32Spec
  import opened Fat32

  /** The `n` bytes of a number, lowest first. */
  function LittleEndian(v: nat, n: nat): (s: seq<byte>)
    ensures |s| == n
  {
    if n == 0 then [] else [v % 256] + LittleEndian(v / 256, n - 1)
  }

  lemma TwoBytes(s: Sector, off: nat, v: nat)
    requires off + 2 <= 512 && v < 0x1_0000 && s[off..off + 2] == LittleEndian(v, 2)
    ensures U16(s, off) == v
  {
    var le := LittleEndian(v, 2);
    assert le[0] == v % 256 && le[1] == LittleEndian(v / 256, 1)[0];
    assert s[off] == s[off..off + 2][0] && s[off + 1] == s[off..off + 2][1];
  }

  lemma FourBytes(s: Sector, off: nat, v: nat)
    requires off + 4 <= 512 && v < 0x1_0000_0000 && s[off..off + 4] == LittleEndian(v, 4)
    ensures U32(s, off) == v
  {
    var le := LittleEndian(v, 4);
    assert le[0] == v % 256 && le[1] == LittleEndian(v / 256, 3)[0];
    assert le[2] == LittleEndian(v / 256 / 256, 2)[0] && le[3] == LittleEndian(v / 256 / 256 / 256, 1)[0];
    assert s[off] == s[off..off + 4][0] && s[off + 1] == s[off..off + 4][1];
    assert s[off + 2] == s[off..off + 4][2] && s[off + 3] == s[off..off + 4][3];
  }

  // ---------------------------------------------------------------- packed structures

  function Concat(fields: seq<seq<byte>>): seq<byte> {
    if fields == [] then [] else fields[0] + Concat(fields[1..])
  }

  /** The sizes of the fields before the `i`-th. */
  function OffsetOf(fields: seq<seq<byte>>, i: nat): nat
    requires i <= |fields|
  {
    if i == 0 then 0 else OffsetOf(fields, i - 1) + |fields[i - 1]|
  }

  lemma {:induction false} OffsetFromFront(fields: seq<seq<byte>>, i: nat)
    requires 0 < i <= |fields|
    ensures OffsetOf(fields, i) == |fields[0]| + OffsetOf(fields[1..], i - 1)
  {
    if i > 1 { OffsetFromFront(fields, i - 1); }
  }

  /** A field lies behind those before it. */
  lemma {:induction false} FieldAt(fields: seq<seq<byte>>, i: nat)
    requires i < |fields|
    ensures OffsetOf(fields, i) + |fields[i]| <= |Concat(fields)|
    ensures Concat(fields)[OffsetOf(fields, i)..OffsetOf(fields, i) + |fields[i]|] == fields[i]
  {
    var rest := Concat(fields[1..]);
    assert Concat(fields) == fields[0] + rest;
    if i == 0 {
      assert (fields[0] + rest)[..|fields[0]|] == fields[0];
    } else {
      FieldAt(fields[1..], i - 1);
      OffsetFromFront(fields, i);
      SliceBehind(fields[0], rest, OffsetOf(fields[1..], i - 1), |fields[i]|);
    }
  }

  lemma SliceBehind(front: seq<byte>, rest: seq<byte>, o: nat, k: nat)
    requires o + k <= |rest|
    ensures (front + rest)[|front| + o..|front| + o + k] == rest[o..o + k]
  {
    var inner, outer := rest[o..o + k], (front + rest)[|front| + o..|front| + o + k];
    forall j | 0 <= j < k
      ensures outer[j] == inner[j]
    {
      assert (front + rest)[|front| + o + j] == rest[o + j];
    }
  }

  /** The same inside a larger piece of memory. */
  lemma FieldIn(bytes: seq<byte>, base: nat, fields: seq<seq<byte>>, i: nat)
    requires i < |fields| && base + |Concat(fields)| <= |bytes|
    requires bytes[base..base + |Concat(fields)|] == Concat(fields)
    ensures base + OffsetOf(fields, i) + |fields[i]| <= |bytes|
    ensures bytes[base + OffsetOf(fields, i)..base + OffsetOf(fields, i) + |fields[i]|] == fields[i]
  {
    hide Concat, OffsetOf;
    FieldAt(fields, i);
    SliceOfSlice(bytes, base, |Concat(fields)|, OffsetOf(fields, i), |fields[i]|);
  }

  lemma SliceOfSlice(bytes: seq<byte>, base: nat, n: nat, o: nat, k: nat)
    requires base + n <= |bytes| && o + k <= n
    ensures bytes[base..base + n][o..o + k] == bytes[base + o..base + o + k]
  {
    var part := bytes[base..base + n];
    var inner, outer := part[o..o + k], bytes[base + o..base + o + k];
    forall j | 0 <= j < k
      ensures inner[j] == outer[j]
    {
      assert part[o + j] == bytes[base + o + j];
    }
  }

  // ---------------------------------------------------------------- the directory entry

  /** `struct fat32_dir_entry` */
  datatype DirEntry = DirEntry(name: seq<byte>, ext: seq<byte>, attr: byte, lcase: byte, ctimeCs: byte, ctime: nat,
                               cdate: nat, adate: nat, startHi: nat, time: nat, date: nat, startLow: nat, size: nat)

  predicate EntryFits(e: DirEntry) {
    |e.name| == 8 && |e.ext| == 3 && e.size < 0x1_0000_0000
  }

  function EntryFields(e: DirEntry): seq<seq<byte>> {
    [e.name, e.ext, [e.attr], [e.lcase], [e.ctimeCs], LittleEndian(e.ctime, 2), LittleEndian(e.cdate, 2),
     LittleEndian(e.adate, 2), LittleEndian(e.startHi, 2), LittleEndian(e.time, 2), LittleEndian(e.date, 2),
     LittleEndian(e.startLow, 2), LittleEndian(e.size, 4)]
  }

  function EntryBytes(e: DirEntry): (s: seq<byte>)
    requires EntryFits(e)
    ensures |s| == 32
  {
    EntryOffsets(e);
    Concat(EntryFields(e))
  }

  /** The recorded size is the size of the entry that the directory's sector holds in that place. */
  lemma RecordedSize(disk: Disk, vol: Volume, dirCluster: nat, dirIndex: nat, e: DirEntry)
    requires dirCluster >= 2 && ClusterToSector(vol, dirCluster) < |disk| && dirIndex < 16 && EntryFits(e)
    requires disk[ClusterToSector(vol, dirCluster)][dirIndex * 32..dirIndex * 32 + 32] == EntryBytes(e)
    ensures FileSize(disk, vol, dirCluster, dirIndex) == e.size
  {
    hide ClusterToSector, LittleEndian, U32, Concat;
    var sector := disk[ClusterToSector(vol, dirCluster)];
    EntryOffsets(e);
    FieldIn(sector, dirIndex * 32, EntryFields(e), 12);
    FourBytes(sector, dirIndex * 32 + 28, e.size);
  }

  lemma EntryOffsets(e: DirEntry)
    requires EntryFits(e)
    ensures OffsetOf(EntryFields(e), 12) == 28 && |EntryFields(e)[12]| == 4
    ensures EntryFields(e)[12] == LittleEndian(e.size, 4) && |Concat(EntryFields(e))| == 32
  {
    hide LittleEndian;
    var fields := EntryFields(e);
    assert OffsetOf(fields, 1) == 8;
    assert OffsetOf(fields, 2) == 11;
    assert OffsetOf(fields, 3) == 12;
    assert OffsetOf(fields, 4) == 13;
    assert OffsetOf(fields, 5) == 14;
    assert OffsetOf(fields, 6) == 16;
    assert OffsetOf(fields, 7) == 18;
    assert OffsetOf(fields, 8) == 20;
    assert OffsetOf(fields, 9) == 22;
    assert OffsetOf(fields, 10) == 24;
    assert OffsetOf(fields, 11) == 26;
    assert OffsetOf(fields, 12) == 28;
    assert OffsetOf(fields, 13) == 32;
    LengthIsOffset(fields);
  }

  lemma {:induction false} LengthIsOffset(fields: seq<seq<byte>>)
    ensures |Concat(fields)| == OffsetOf(fields, |fields|)
  {
    if fields != [] {
      LengthIsOffset(fields[1..]);
      OffsetFromFront(fields, |fields|);
    }
  }

  // ---------------------------------------------------------------- the boot sector

  /** `struct fat32_bpb`, up to the field `ext_flags` */
  datatype Bpb = Bpb(jmpBoot: seq<byte>, oemName: seq<byte>, bytesPerSec: nat, secPerClus: byte, rsvdSecCnt: nat,
                     numFats: byte, rootEntCnt: nat, totSec16: nat, media: byte, fatSz16: nat, secPerTrk: nat,
                     numHeads: nat, hiddSec: nat, totSec32: nat, fatSz32: nat, extFlags: nat)

  predicate BpbFits(b: Bpb) {
    && |b.jmpBoot| == 3 && |b.oemName| == 8 && b.bytesPerSec < 0x1_0000 && b.rsvdSecCnt < 0x1_0000
    && b.rootEntCnt < 0x1_0000 && b.fatSz16 < 0x1_0000 && b.fatSz32 < 0x1_0000_0000 && b.extFlags < 0x1_0000
  }

  function BpbFields(b: Bpb): seq<seq<byte>> {
    [b.jmpBoot, b.oemName, LittleEndian(b.bytesPerSec, 2), [b.secPerClus], LittleEndian(b.rsvdSecCnt, 2), [b.numFats],
     LittleEndian(b.rootEntCnt, 2), LittleEndian(b.totSec16, 2), [b.media], LittleEndian(b.fatSz16, 2),
     LittleEndian(b.secPerTrk, 2), LittleEndian(b.numHeads, 2), LittleEndian(b.hiddSec, 4), LittleEndian(b.totSec32, 4),
     LittleEndian(b.fatSz32, 4), LittleEndian(b.extFlags, 2)]
  }

  /** A boot sector that begins with these fields. */
  ghost predicate Describes(boot: Sector, b: Bpb) {
    BpbFits(b) && |Concat(BpbFields(b))| <= 512 && boot[..|Concat(BpbFields(b))|] == Concat(BpbFields(b))
  }

  lemma BpbOffsets(b: Bpb)
    requires BpbFits(b)
    ensures OffsetOf(BpbFields(b), 2) == 11 && OffsetOf(BpbFields(b), 3) == 13 && OffsetOf(BpbFields(b), 4) == 14
    ensures OffsetOf(BpbFields(b), 5) == 16 && OffsetOf(BpbFields(b), 6) == 17 && OffsetOf(BpbFields(b), 9) == 22
    ensures OffsetOf(BpbFields(b), 14) == 36 && OffsetOf(BpbFields(b), 15) == 40
  {
    hide LittleEndian;
    var fields := BpbFields(b);
    assert OffsetOf(fields, 1) == 3;
    assert OffsetOf(fields, 2) == 11;
    assert OffsetOf(fields, 3) == 13;
    assert OffsetOf(fields, 4) == 14;
    assert OffsetOf(fields, 5) == 16;
    assert OffsetOf(fields, 6) == 17;
    assert OffsetOf(fields, 7) == 19;
    assert OffsetOf(fields, 8) == 21;
    assert OffsetOf(fields, 9) == 22;
    assert OffsetOf(fields, 10) == 24;
    assert OffsetOf(fields, 11) == 26;
    assert OffsetOf(fields, 12) == 28;
    assert OffsetOf(fields, 13) == 32;
    assert OffsetOf(fields, 14) == 36;
    assert OffsetOf(fields, 15) == 40;
  }

  /** What the driver and the standard's formulas find in the boot sector are the fields of those names. */
  lemma BootFields(boot: Sector, b: Bpb)
    requires Describes(boot, b)
    ensures U16(boot, 11) == b.bytesPerSec && boot[13] == b.secPerClus && U16(boot, 14) == b.rsvdSecCnt
    ensures boot[16] == b.numFats && U16(boot, 17) == b.rootEntCnt && U16(boot, 22) == b.fatSz16
    ensures U32(boot, 36) == b.fatSz32 && U16(boot, 40) == b.extFlags
  {
    hide LittleEndian, U16, U32, Concat, OffsetOf;
    BpbOffsets(b);
    forall i: nat | i < 16
      ensures OffsetOf(BpbFields(b), i) + |BpbFields(b)[i]| <= 512
      ensures boot[OffsetOf(BpbFields(b), i)..OffsetOf(BpbFields(b), i) + |BpbFields(b)[i]|] == BpbFields(b)[i]
    {
      FieldIn(boot, 0, BpbFields(b), i);
    }
    TwoBytes(boot, 11, b.bytesPerSec);
    TwoBytes(boot, 14, b.rsvdSecCnt);
    TwoBytes(boot, 17, b.rootEntCnt);
    TwoBytes(boot, 22, b.fatSz16);
    FourBytes(boot, 36, b.fatSz32);
    TwoBytes(boot, 40, b.extFlags);
    assert boot[13] == boot[13..14][0] && boot[16] == boot[16..17][0];
  }

  /** The volume that `fat32_init` computes, in terms of the fields. */
  lemma MountedFromFields(boot: Sector, lba: nat, b: Bpb)
    requires Describes(boot, b)
    ensures Mounted(boot, lba)
         == Volume(lba + b.rsvdSecCnt + b.numFats * b.fatSz32 % 0x1_0000_0000, lba + b.rsvdSecCnt, b.secPerClus,
                   b.fatSz32)
  {
    hide U16, U32, Describes;
    BootFields(boot, b);
  }
}
