/** The on-disk meaning of a FAT32 file for the driver in fs/fat32.c: cluster chains, the flat
    byte sequence they hold, and what a read or a write at an offset does to it. */
module Fat32Spec {
  import opened Words
  import opened Arith

  const END_OF_CHAIN: nat := 0x0FFF_FFF8

  type Sector = s: seq<byte> | |s| == 512 witness seq(512, _ => 0)
  type Disk = seq<Sector>

  /** `struct fat32_volume` */
  datatype Volume = Volume(firstDataSec: nat, firstFatSec: nat, secPerCluster: nat, fatSz: nat)

  /** Little-endian 32-bit value at byte `off` of a sector. */
  function U32(s: Sector, off: nat): (v: nat)
    requires off + 4 <= 512
    ensures v < 0x1_0000_0000
  {
    var b0: int, b1: int, b2: int, b3: int := s[off], s[off + 1], s[off + 2], s[off + 3];
    b0 + 0x100 * b1 + 0x1_0000 * b2 + 0x100_0000 * b3
  }

  /** Little-endian 16-bit value at byte `off` of a sector. */
  function U16(s: Sector, off: nat): (v: nat)
    requires off + 2 <= 512
    ensures v < 0x1_0000
  {
    var b0: int, b1: int := s[off], s[off + 1];
    b0 + 0x100 * b1
  }

  /** `fat32_init`: the volume that a boot sector describes.  The size of the FATs is a 32-bit product. */
  function Mounted(boot: Sector, lba: nat): Volume {
    var firstFatSec := lba + U16(boot, 14);
    Volume(firstFatSec + boot[16] * U32(boot, 36) % 0x1_0000_0000, firstFatSec, boot[13], U32(boot, 36))
  }

  /** What Microsoft's FAT32 specification (v1.03), section "Boot Sector and BPB", demands of a FAT32
      volume, as far as the places of its clusters depend on it: one of four sector sizes, at least one
      sector to a cluster, at least one reserved sector, no root directory of fixed size, and the size of
      the FATs in the 32-bit field alone. */
  predicate FatVolume(boot: Sector) {
    && (U16(boot, 11) == 512 || U16(boot, 11) == 1024 || U16(boot, 11) == 2048 || U16(boot, 11) == 4096)
    && boot[13] > 0 && U16(boot, 14) > 0
    && U16(boot, 17) == 0 && U16(boot, 22) == 0 && U32(boot, 36) > 0
  }

  /** The first byte of a cluster on the device as that specification's section "FAT Data Structure"
      places it: BPB_BytsPerSec bytes to each sector of the volume. */
  function StandardByte(boot: Sector, lba: nat, cluster: nat): int {
    lba * 512 + ((cluster - 2) * boot[13] + U16(boot, 14) + boot[16] * U32(boot, 36)) * U16(boot, 11)
  }

  /** Where the driver looks for it. */
  function DriverByte(boot: Sector, lba: nat, cluster: nat): int
    requires cluster >= 2
  {
    ClusterToSector(Mounted(boot, lba), cluster) * 512
  }

  /** On every FAT32 volume the driver finds every cluster where the standard puts it if and only if sectors
      have 512 bytes and the FATs together have fewer than 2^32 of them. */
  lemma ClustersAreWhereTheyShould(boot: Sector, lba: nat)
    requires FatVolume(boot)
    ensures (forall c: nat :: c >= 2 ==> DriverByte(boot, lba, c) == StandardByte(boot, lba, c))
       <==> U16(boot, 11) == 512 && boot[16] * U32(boot, 36) < 0x1_0000_0000
  {
    var spc: int, rsvd: int, fats: int, bytes: int := boot[13], U16(boot, 14), boot[16] * U32(boot, 36), U16(boot, 11);
    hide U16, U32;
    MulNonNeg(boot[16], U32(boot, 36));
    SmallRemainder(fats);
    if forall c: nat :: c >= 2 ==> DriverByte(boot, lba, c) == StandardByte(boot, lba, c) {
      BytePositions(boot, lba, 2);
      BytePositions(boot, lba, 3);
      assert DriverByte(boot, lba, 2) == StandardByte(boot, lba, 2);
      assert DriverByte(boot, lba, 3) == StandardByte(boot, lba, 3);
      Cancel(spc, 512, bytes);
    }
    if bytes == 512 && fats < 0x1_0000_0000 {
      forall c: nat | c >= 2
        ensures DriverByte(boot, lba, c) == StandardByte(boot, lba, c)
      {
        BytePositions(boot, lba, c);
      }
    }
  }

  /** Both positions, with the products apart. */
  lemma BytePositions(boot: Sector, lba: nat, c: nat)
    requires c >= 2
    ensures var spc, bytes: int := boot[13], U16(boot, 11);
      && StandardByte(boot, lba, c) == lba * 512 + (c - 2) * (spc * bytes)
         + (U16(boot, 14) + boot[16] * U32(boot, 36)) * bytes
      && DriverByte(boot, lba, c)
         == lba * 512 + (c - 2) * (spc * 512) + (U16(boot, 14) + boot[16] * U32(boot, 36) % 0x1_0000_0000) * 512
  {
    var spc: int, rsvd: int, fats: int, bytes: int := boot[13], U16(boot, 14), boot[16] * U32(boot, 36), U16(boot, 11);
    hide U16, U32;
    MulAdd((c - 2) * spc, rsvd + fats, bytes);
    MulAssoc(c - 2, spc, bytes);
    MulAssoc(c - 2, spc, 512);
  }

  lemma Cancel(a: int, b: int, c: int)
    requires a > 0 && a * b == a * c
    ensures b == c
  {
    if b < c { MulCommute(a, b); MulCommute(a, c); MulSub(c, b, a); MulAtLeast(c - b, a); }
    if c < b { MulCommute(a, b); MulCommute(a, c); MulSub(b, c, a); MulAtLeast(b - c, a); }
  }

  lemma SmallRemainder(x: nat)
    ensures x % 0x1_0000_0000 == x <==> x < 0x1_0000_0000
  {}

  /** The boot sector of a volume with sectors of 4096 bytes, which `is_fat32` accepts. */
  function LargeSectorBoot(): Sector {
    seq(512, i => if i == 12 then 0x10 else if i == 13 then 8 else if i == 14 then 32 else if i == 16 then 2
                  else if i == 36 then 1 else if i == 510 then 0x55 else if i == 511 then 0xaa else 0)
  }

  /** The driver never looks at BPB_BytsPerSec: on that volume it misses every cluster. */
  lemma LargeSectorsAreMissed(lba: nat, c: nat)
    requires c >= 2
    ensures FatVolume(LargeSectorBoot()) && U16(LargeSectorBoot(), 510) == 0xaa55
    ensures U16(LargeSectorBoot(), 11) == 4096 && LargeSectorBoot()[16] * U32(LargeSectorBoot(), 36) < 0x1_0000_0000
    ensures DriverByte(LargeSectorBoot(), lba, c) < StandardByte(LargeSectorBoot(), lba, c)
  {
    BytePositions(LargeSectorBoot(), lba, c);
  }

  function FatSector(vol: Volume, cluster: nat): nat { vol.firstFatSec + cluster * 4 / 512 }

  /** `next_cluster`: the offset within the sector is reduced modulo 512 / sizeof(uint32_t). */
  function NextCluster(disk: Disk, vol: Volume, cluster: nat): nat
    requires FatSector(vol, cluster) < |disk|
  {
    U32(disk[FatSector(vol, cluster)], cluster * 4 % 128)
  }

  /** `cluster_to_sector`, for data clusters. */
  function ClusterToSector(vol: Volume, cluster: nat): nat
    requires cluster >= 2
  {
    (cluster - 2) * vol.secPerCluster + vol.firstDataSec
  }

  /** The driver can follow and read cluster `c`: a data cluster whose FAT entry lies in the FAT
      region and whose sectors lie on the device. */
  predicate Readable(disk: Disk, vol: Volume, c: nat) {
    && 2 <= c
    && FatSector(vol, c) < |disk| && FatSector(vol, c) < vol.firstDataSec
    && ClusterToSector(vol, c) + vol.secPerCluster <= |disk|
  }

  /** Every cluster met within `m` steps from `c` is readable. */
  predicate ChainOk(disk: Disk, vol: Volume, c: nat, m: nat)
    decreases m
  {
    m == 0 || c >= END_OF_CHAIN ||
    (Readable(disk, vol, c) && ChainOk(disk, vol, NextCluster(disk, vol, c), m - 1))
  }

  /** Bytes in `n` clusters. */
  function Capacity(vol: Volume, n: nat): nat {
    MulNonNeg(n, vol.secPerCluster);
    n * vol.secPerCluster * 512
  }

  /** The first `m` clusters of the chain that starts at `c`. */
  function Chain(disk: Disk, vol: Volume, c: nat, m: nat): seq<nat>
    requires ChainOk(disk, vol, c, m)
    decreases m
  {
    if m == 0 || c >= END_OF_CHAIN then []
    else [c] + Chain(disk, vol, NextCluster(disk, vol, c), m - 1)
  }

  /** A sequence of readable clusters. */
  ghost predicate Clusters(disk: Disk, vol: Volume, chain: seq<nat>) {
    vol.secPerCluster >= 1 && forall j :: 0 <= j < |chain| ==> Readable(disk, vol, chain[j])
  }

  /** The k-th sector of a file lies in a cluster of its chain. */
  predicate OnChain(vol: Volume, chain: seq<nat>, k: nat) {
    vol.secPerCluster >= 1 && k / vol.secPerCluster < |chain| && chain[k / vol.secPerCluster] >= 2
  }

  /** The disk sector of the k-th sector of a file. */
  function SectorAt(vol: Volume, chain: seq<nat>, k: nat): nat
    requires OnChain(vol, chain, k)
  {
    ClusterToSector(vol, chain[k / vol.secPerCluster]) + k % vol.secPerCluster
  }

  lemma SectorIndex(vol: Volume, j: nat, s: nat, n: nat)
    requires s < vol.secPerCluster && j < n
    ensures (j * vol.secPerCluster + s) / vol.secPerCluster == j
    ensures (j * vol.secPerCluster + s) % vol.secPerCluster == s
    ensures j * vol.secPerCluster + s < n * vol.secPerCluster
  {
    DivUnique(j * vol.secPerCluster + s, vol.secPerCluster, j, s);
    MulMonotone(j + 1, n, vol.secPerCluster);
    MulAdd(j, 1, vol.secPerCluster);
  }

  /** The index within the file of sector `s` of the j-th cluster. */
  function SectorOf(vol: Volume, j: nat, s: nat): nat {
    MulNonNeg(j, vol.secPerCluster);
    j * vol.secPerCluster + s
  }

  /** Splitting a sector index into cluster and sector-in-cluster. */
  lemma SplitIndex(vol: Volume, k: nat, n: nat)
    requires vol.secPerCluster >= 1 && k < n * vol.secPerCluster
    ensures k / vol.secPerCluster < n && k % vol.secPerCluster < vol.secPerCluster
    ensures k == (k / vol.secPerCluster) * vol.secPerCluster + k % vol.secPerCluster
  {
    DivFacts(k, vol.secPerCluster);
    if k / vol.secPerCluster >= n {
      MulMonotone(n, k / vol.secPerCluster, vol.secPerCluster);
    }
  }

  lemma SectorAtOnDisk(disk: Disk, vol: Volume, chain: seq<nat>, k: nat)
    requires Clusters(disk, vol, chain) && k < |chain| * vol.secPerCluster
    ensures OnChain(vol, chain, k)
    ensures vol.firstDataSec <= SectorAt(vol, chain, k) < |disk|
  {
    SplitIndex(vol, k, |chain|);
    var c := chain[k / vol.secPerCluster];
    assert Readable(disk, vol, c);
    MulNonNeg(c - 2, vol.secPerCluster);
  }

  /** Byte `o` of the flat content of a chain. */
  function ByteAt(disk: Disk, vol: Volume, chain: seq<nat>, o: nat): byte
    requires Clusters(disk, vol, chain) && o < Capacity(vol, |chain|)
  {
    SectorAtOnDisk(disk, vol, chain, o / 512);
    disk[SectorAt(vol, chain, o / 512)][o % 512]
  }

  /** The flat content of a chain. */
  function Content(disk: Disk, vol: Volume, chain: seq<nat>): (bytes: seq<byte>)
    requires Clusters(disk, vol, chain)
    ensures |bytes| == Capacity(vol, |chain|)
  {
    MulNonNeg(|chain|, vol.secPerCluster);
    seq(Capacity(vol, |chain|),
        o requires 0 <= o < Capacity(vol, |chain|) => ByteAt(disk, vol, chain, o))
  }

  // ---------------------------------------------------------------- chains

  lemma {:induction false} ChainFacts(disk: Disk, vol: Volume, c: nat, m: nat)
    requires ChainOk(disk, vol, c, m) && vol.secPerCluster >= 1
    ensures Clusters(disk, vol, Chain(disk, vol, c, m)) && |Chain(disk, vol, c, m)| <= m
    decreases m
  {
    if m > 0 && c < END_OF_CHAIN { ChainFacts(disk, vol, NextCluster(disk, vol, c), m - 1); }
  }

  /** Looking further along a chain only appends to it. */
  lemma {:induction false} ChainPrefix(disk: Disk, vol: Volume, c: nat, m: nat, n: nat)
    requires m <= n && ChainOk(disk, vol, c, n)
    ensures ChainOk(disk, vol, c, m)
    ensures |Chain(disk, vol, c, m)| <= |Chain(disk, vol, c, n)|
    ensures Chain(disk, vol, c, m) == Chain(disk, vol, c, n)[..|Chain(disk, vol, c, m)|]
    ensures |Chain(disk, vol, c, m)| < m ==> Chain(disk, vol, c, m) == Chain(disk, vol, c, n)
    decreases m
  {
    if m > 0 && c < END_OF_CHAIN {
      ChainPrefix(disk, vol, NextCluster(disk, vol, c), m - 1, n - 1);
    }
  }

  /** The flat content of a prefix of a chain is a prefix of its flat content. */
  lemma ContentPrefix(disk: Disk, vol: Volume, chain: seq<nat>, j: nat)
    requires Clusters(disk, vol, chain) && j <= |chain|
    ensures Clusters(disk, vol, chain[..j])
    ensures |Content(disk, vol, chain[..j])| <= |Content(disk, vol, chain)|
    ensures Content(disk, vol, chain[..j]) == Content(disk, vol, chain)[..|Content(disk, vol, chain[..j])|]
  {
    forall o: nat | o < Capacity(vol, j)
      ensures o < Capacity(vol, |chain|) && ByteAt(disk, vol, chain[..j], o) == ByteAt(disk, vol, chain, o)
    {
      PrefixByte(disk, vol, chain, j, o);
    }
    CapacityMonotone(vol, j, |chain|);
  }

  lemma CapacityMonotone(vol: Volume, j: nat, n: nat)
    requires j <= n
    ensures Capacity(vol, j) <= Capacity(vol, n)
  {
    MulMonotone(j, n, vol.secPerCluster);
  }

  lemma PrefixByte(disk: Disk, vol: Volume, chain: seq<nat>, j: nat, o: nat)
    requires j <= |chain| && Clusters(disk, vol, chain) && Clusters(disk, vol, chain[..j]) && o < Capacity(vol, j)
    ensures o < Capacity(vol, |chain|) && ByteAt(disk, vol, chain[..j], o) == ByteAt(disk, vol, chain, o)
  {
    CapacityMonotone(vol, j, |chain|);
    SplitIndex(vol, o / 512, j);
  }

  /** The bytes of one cluster: its sectors, in order. */
  function SectorRun(disk: Disk, first: nat, n: nat): seq<byte>
    requires first + n <= |disk|
    decreases n
  {
    if n == 0 then [] else disk[first] + SectorRun(disk, first + 1, n - 1)
  }

  function Concatenation(disk: Disk, vol: Volume, chain: seq<nat>): seq<byte>
    requires forall j :: 0 <= j < |chain| ==> Readable(disk, vol, chain[j])
  {
    if chain == [] then
      []
    else
      assert Readable(disk, vol, chain[0]);
      SectorRun(disk, ClusterToSector(vol, chain[0]), vol.secPerCluster) + Concatenation(disk, vol, chain[1..])
  }

  lemma {:induction false} SectorRunAt(disk: Disk, first: nat, n: nat, o: nat)
    requires first + n <= |disk|
    ensures |SectorRun(disk, first, n)| == n * 512
    ensures o < n * 512 ==> SectorRun(disk, first, n)[o] == disk[first + o / 512][o % 512]
    decreases n
  {
    if n > 0 {
      SectorRunAt(disk, first + 1, n - 1, if o >= 512 then o - 512 else 0);
    }
  }

  /** The flat content is the concatenation of the clusters along the chain. */
  lemma {:induction false} ContentIsConcatenation(disk: Disk, vol: Volume, chain: seq<nat>)
    requires Clusters(disk, vol, chain)
    ensures Content(disk, vol, chain) == Concatenation(disk, vol, chain)
    decreases |chain|
  {
    if |chain| > 0 {
      var rest := chain[1..];
      var spc := vol.secPerCluster;
      var first := ClusterToSector(vol, chain[0]);
      ContentIsConcatenation(disk, vol, rest);
      SectorRunAt(disk, first, spc, 0);
      MulAdd(1, |rest|, spc);
      forall o | 0 <= o < Capacity(vol, |chain|)
        ensures ByteAt(disk, vol, chain, o) == Concatenation(disk, vol, chain)[o]
      {
        HeadOrTail(disk, vol, chain, o);
      }
    }
  }

  lemma HeadOrTail(disk: Disk, vol: Volume, chain: seq<nat>, o: nat)
    requires Clusters(disk, vol, chain) && |chain| > 0 && o < Capacity(vol, |chain|)
    requires Content(disk, vol, chain[1..]) == Concatenation(disk, vol, chain[1..])
    ensures |Concatenation(disk, vol, chain)| == Capacity(vol, |chain|)
    ensures ByteAt(disk, vol, chain, o) == Concatenation(disk, vol, chain)[o]
  {
    var spc := vol.secPerCluster;
    assert Readable(disk, vol, chain[0]);
    var first := ClusterToSector(vol, chain[0]);
    SectorRunAt(disk, first, spc, o);
    MulAdd(1, |chain| - 1, spc);
    if o < spc * 512 {
      DivUnique(o / 512, spc, 0, o / 512);
    } else {
      TailByte(disk, vol, chain, o);
    }
  }

  /** Past the first cluster, bytes are those of the rest of the chain. */
  lemma TailByte(disk: Disk, vol: Volume, chain: seq<nat>, o: nat)
    requires Clusters(disk, vol, chain) && |chain| > 0
    requires vol.secPerCluster * 512 <= o < Capacity(vol, |chain|)
    ensures o - vol.secPerCluster * 512 < |Content(disk, vol, chain[1..])|
    ensures ByteAt(disk, vol, chain, o) == Content(disk, vol, chain[1..])[o - vol.secPerCluster * 512]
  {
    var spc, rest := vol.secPerCluster, chain[1..];
    var p := o - spc * 512;
    MulAdd(1, |rest|, spc);
    assert p < Capacity(vol, |rest|);
    var k := p / 512;
    assert o / 512 == k + spc && o % 512 == p % 512;
    SplitIndex(vol, k, |rest|);
    MulAdd(k / spc, 1, spc);
    DivUnique(k + spc, spc, k / spc + 1, k % spc);
  }

  // ---------------------------------------------------------------- offsets and lengths

  /** The head of `fat32_read` and `fat32_write`: the byte count to move at offset `fo` of a file of
      `size` bytes.  The sum is a 64-bit one and may wrap. */
  function Clamp(fo: word, len: word, size: nat): nat {
    if fo >= size then 0
    else if Wrap(fo + len) > size then size - fo
    else len
  }

  /** The clamp is the intended minimum exactly when the sum does not wrap, or the offset is not in the
      file anyway. */
  lemma ClampIsMinimum(fo: word, len: word, size: nat)
    requires size < WORD
    ensures Clamp(fo, len, size) == (if fo >= size then 0 else if len < size - fo then len else size - fo)
       <==> fo >= size || fo + len < WORD
  {}

  /** Clusters needed to hold `bytes` bytes. */
  function ClustersFor(vol: Volume, bytes: nat): nat
    requires vol.secPerCluster >= 1
  {
    (bytes + vol.secPerCluster * 512 - 1) / (vol.secPerCluster * 512)
  }

  lemma ClustersForIsEnough(vol: Volume, bytes: nat)
    requires vol.secPerCluster >= 1
    ensures bytes <= ClustersFor(vol, bytes) * vol.secPerCluster * 512
    ensures forall j: nat :: bytes > Capacity(vol, j) ==> j < ClustersFor(vol, bytes)
  {
    var spc := vol.secPerCluster;
    var cs := spc * 512;
    var m := ClustersFor(vol, bytes);
    DivFacts(bytes + cs - 1, cs);
    MulAssoc(m, spc, 512);
    forall j: nat | bytes > Capacity(vol, j)
      ensures j < m
    {
      if j >= m {
        MulAssoc(j, spc, 512);
        MulMonotone(m, j, cs);
      }
    }
  }

  lemma ClustersForMonotone(vol: Volume, a: nat, b: nat)
    requires vol.secPerCluster >= 1 && a <= b
    ensures ClustersFor(vol, a) <= ClustersFor(vol, b)
  {
    DivMonotone(a + vol.secPerCluster * 512 - 1, b + vol.secPerCluster * 512 - 1, vol.secPerCluster * 512);
  }

  /** Bytes that can be moved at `fo` when `available` bytes are on the chain. */
  function Moved(fo: nat, want: nat, available: nat): nat {
    if fo >= available then 0 else if want <= available - fo then want else available - fo
  }

  /** `old` with the bytes from `fo` on replaced by `data`. */
  function Splice(bytes: seq<byte>, fo: nat, data: seq<byte>): seq<byte>
    requires fo + |data| <= |bytes|
  {
    bytes[..fo] + data + bytes[fo + |data|..]
  }

  lemma NothingSpliced(bytes: seq<byte>, d: nat)
    requires d <= |bytes|
    ensures Splice(bytes, d, []) == bytes
  {}

  lemma SpliceOne(bytes: seq<byte>, d: nat, data: seq<byte>, b: byte)
    requires d + |data| < |bytes|
    ensures Splice(bytes, d, data + [b]) == Splice(bytes, d, data)[d + |data| := b]
  {}

  /** The bytes of a file of `size` bytes: its chain's content, cut to the recorded size. */
  function FileBytes(disk: Disk, vol: Volume, c: nat, size: nat): seq<byte>
    requires vol.secPerCluster >= 1 && ChainOk(disk, vol, c, ClustersFor(vol, size))
  {
    ChainFacts(disk, vol, c, ClustersFor(vol, size));
    var all := Content(disk, vol, Chain(disk, vol, c, ClustersFor(vol, size)));
    if |all| <= size then all else all[..size]
  }

  /** The bytes that `fat32_read` delivers (its contract), seen as a slice of the file. */
  function ReadResult(disk: Disk, vol: Volume, c: nat, fo: nat, want: nat): seq<byte>
    requires vol.secPerCluster >= 1 && ChainOk(disk, vol, c, ClustersFor(vol, fo + want))
  {
    ChainFacts(disk, vol, c, ClustersFor(vol, fo + want));
    Slice(Content(disk, vol, Chain(disk, vol, c, ClustersFor(vol, fo + want))), fo, want)
  }

  /** A read delivers what is wanted, or what is left of the chain. */
  lemma ReadResultLength(disk: Disk, vol: Volume, c: nat, fo: nat, want: nat)
    requires vol.secPerCluster >= 1 && ChainOk(disk, vol, c, ClustersFor(vol, fo + want))
    ensures |ReadResult(disk, vol, c, fo, want)|
         == Moved(fo, want, Capacity(vol, |Chain(disk, vol, c, ClustersFor(vol, fo + want))|)) <= want
  {
    hide Capacity, ChainOk, Chain, ClustersFor, Content, Clusters;
    ChainFacts(disk, vol, c, ClustersFor(vol, fo + want));
  }

  /** At most `want` bytes from offset `fo` on. */
  function Slice(bytes: seq<byte>, fo: nat, want: nat): seq<byte> {
    if fo >= |bytes| then [] else bytes[fo..fo + Moved(fo, want, |bytes|)]
  }

  /** A read that stays within the recorded size delivers that slice of the file. */
  lemma ReadIsFileSlice(disk: Disk, vol: Volume, c: nat, fo: nat, want: nat, size: nat)
    requires vol.secPerCluster >= 1 && ChainOk(disk, vol, c, ClustersFor(vol, size))
    requires fo + want <= size
    ensures ChainOk(disk, vol, c, ClustersFor(vol, fo + want))
    ensures ReadResult(disk, vol, c, fo, want) == Slice(FileBytes(disk, vol, c, size), fo, want)
  {
    var m, n := ClustersFor(vol, fo + want), ClustersFor(vol, size);
    ClustersForMonotone(vol, fo + want, size);
    ChainPrefix(disk, vol, c, m, n);
    ChainFacts(disk, vol, c, m);
    ChainFacts(disk, vol, c, n);
    var part, full := Chain(disk, vol, c, m), Chain(disk, vol, c, n);
    ContentPrefix(disk, vol, full, |part|);
    ClustersForIsEnough(vol, fo + want);
    assert |part| == m || part == full;
    hide ChainOk, Chain, Content, Clusters, ClustersFor;
    PrefixSlice(Content(disk, vol, full), Content(disk, vol, part), fo, want, size);
  }

  /** A slice within both a prefix of the bytes and the first `size` of them. */
  lemma PrefixSlice(all: seq<byte>, part: seq<byte>, fo: nat, want: nat, size: nat)
    requires |part| <= |all| && part == all[..|part|] && fo + want <= size
    requires part == all || fo + want <= |part|
    ensures Slice(part, fo, want) == Slice(if |all| <= size then all else all[..size], fo, want)
  {}

  /** What a call of `fat32_read` for `len` bytes at offset `fo` delivers. */
  function ReadAt(disk: Disk, vol: Volume, c: nat, fo: word, len: word, size: nat): seq<byte>
    requires vol.secPerCluster >= 1
    requires fo < size ==> ChainOk(disk, vol, c, ClustersFor(vol, fo + Clamp(fo, len, size)))
  {
    if fo >= size then [] else ReadResult(disk, vol, c, fo, Clamp(fo, len, size))
  }

  /** A read delivers the file's bytes from the offset on, as many as were asked for or as there are. */
  lemma ReadAtIsFileSlice(disk: Disk, vol: Volume, c: nat, fo: word, len: word, size: nat)
    requires vol.secPerCluster >= 1 && ChainOk(disk, vol, c, ClustersFor(vol, size))
    requires size < WORD && fo + len < WORD
    ensures fo < size ==> ChainOk(disk, vol, c, ClustersFor(vol, fo + Clamp(fo, len, size)))
    ensures ReadAt(disk, vol, c, fo, len, size) == Slice(FileBytes(disk, vol, c, size), fo, len)
  {
    hide ReadResult, ChainOk, ClustersFor, Chain, Content;
    FileBytesFit(disk, vol, c, size);
    if fo < size {
      ReadIsFileSlice(disk, vol, c, fo, Clamp(fo, len, size), size);
    }
  }

  lemma FileBytesFit(disk: Disk, vol: Volume, c: nat, size: nat)
    requires vol.secPerCluster >= 1 && ChainOk(disk, vol, c, ClustersFor(vol, size))
    ensures |FileBytes(disk, vol, c, size)| <= size
  {}

  lemma SplitSlice(bytes: seq<byte>, fo: nat, a: nat, b: nat)
    ensures var first := Slice(bytes, fo, a);
            |first| <= a && first + Slice(bytes, fo + |first|, b) == Slice(bytes, fo, a + b)
  {}

  /** However a read is cut in two, the second piece starting where the first has ended, the pieces make
      up the whole; also across the end of the file or of its chain. */
  lemma SplitRead(disk: Disk, vol: Volume, c: nat, fo: word, a: word, b: word, size: nat)
    requires vol.secPerCluster >= 1 && ChainOk(disk, vol, c, ClustersFor(vol, size))
    requires size < WORD && fo + a + b < WORD
    ensures fo < size ==> ChainOk(disk, vol, c, ClustersFor(vol, fo + Clamp(fo, a, size)))
    ensures fo < size ==> ChainOk(disk, vol, c, ClustersFor(vol, fo + Clamp(fo, a + b, size)))
    ensures var first := ReadAt(disk, vol, c, fo, a, size); var next := fo + |first|;
      && next < WORD && (next < size ==> ChainOk(disk, vol, c, ClustersFor(vol, next + Clamp(next, b, size))))
      && first + ReadAt(disk, vol, c, next, b, size) == ReadAt(disk, vol, c, fo, a + b, size)
  {
    hide ReadAt, FileBytes, ChainOk, Slice, ClustersFor, Clamp;
    ReadAtIsFileSlice(disk, vol, c, fo, a, size);
    ReadAtIsFileSlice(disk, vol, c, fo, a + b, size);
    SplitSlice(FileBytes(disk, vol, c, size), fo, a, b);
    ReadAtIsFileSlice(disk, vol, c, fo + |ReadAt(disk, vol, c, fo, a, size)|, b, size);
  }

  // ---------------------------------------------------------------- the FAT of the standard

  /** The FAT in use: BPB_ExtFlags names one unless all are mirrored. */
  function ActiveFat(boot: Sector): nat {
    if U16(boot, 40) / 0x80 % 2 == 1 then U16(boot, 40) % 0x10 else 0
  }

  /** The first byte of a cluster's FAT entry on the device as Microsoft's FAT32 specification (v1.03)
      places it (`StandardEntrySector`). */
  function StandardEntryByte(boot: Sector, lba: nat, cluster: nat): nat {
    MulNonNeg(ActiveFat(boot), U32(boot, 36));
    MulNonNeg(U16(boot, 14) + ActiveFat(boot) * U32(boot, 36), U16(boot, 11));
    lba * 512 + (U16(boot, 14) + ActiveFat(boot) * U32(boot, 36)) * U16(boot, 11) + 4 * cluster
  }

  /** The formulas of the section "FAT Data Structure": the sector of the volume is BPB_RsvdSecCnt plus the
      quotient of 4N and BPB_BytsPerSec, plus BPB_FATSz32 for each FAT before the one in use; the place in
      the sector is the remainder. */
  lemma StandardEntrySector(boot: Sector, lba: nat, cluster: nat)
    requires FatVolume(boot)
    ensures StandardEntryByte(boot, lba, cluster)
         == lba * 512 + (U16(boot, 14) + 4 * cluster / U16(boot, 11) + ActiveFat(boot) * U32(boot, 36)) * U16(boot, 11)
            + 4 * cluster % U16(boot, 11)
  {
    var bytes, first: int := U16(boot, 11), U16(boot, 14) + ActiveFat(boot) * U32(boot, 36);
    hide U16, U32, ActiveFat;
    DivFacts(4 * cluster, bytes);
    MulAdd(first, 4 * cluster / bytes, bytes);
  }

  /** Where the driver reads. */
  function DriverEntryByte(boot: Sector, lba: nat, cluster: nat): nat {
    FatSector(Mounted(boot, lba), cluster) * 512 + cluster * 4 % 128
  }

  /** The first FAT is in use, in sectors of 512 bytes, and the cluster is among the first 32 of its FAT
      sector. */
  predicate EntryFound(boot: Sector, cluster: nat) {
    U16(boot, 11) == 512 && ActiveFat(boot) == 0 && cluster % 128 < 32
  }

  /** On every FAT32 volume the driver reads a cluster's entry where the standard puts it under exactly
      that condition. */
  lemma EntriesAreWhereTheyShould(boot: Sector, lba: nat, cluster: nat)
    requires FatVolume(boot)
    ensures DriverEntryByte(boot, lba, cluster) == StandardEntryByte(boot, lba, cluster) <==> EntryFound(boot, cluster)
    ensures DriverEntryByte(boot, lba, cluster) <= StandardEntryByte(boot, lba, cluster)
  {
    var rsvd: nat, bytes: int, before: int := U16(boot, 14), U16(boot, 11), ActiveFat(boot) * U32(boot, 36);
    hide U16, U32, ActiveFat;
    EntryPositions(boot, lba, cluster);
    AliasOffsets(cluster);
    AliasIsBelow(cluster);
    MulNonNeg(ActiveFat(boot), U32(boot, 36));
    if ActiveFat(boot) > 0 { MulAtLeast(ActiveFat(boot), U32(boot, 36)); }
  }

  /** Both places, with the products apart. */
  lemma EntryPositions(boot: Sector, lba: nat, cluster: nat)
    ensures DriverEntryByte(boot, lba, cluster) == lba * 512 + U16(boot, 14) * 512 + 4 * Alias(cluster)
    ensures StandardEntryByte(boot, lba, cluster)
         == lba * 512 + U16(boot, 14) * U16(boot, 11) + ActiveFat(boot) * U32(boot, 36) * U16(boot, 11) + 4 * cluster
  {
    hide U16, U32, ActiveFat, Alias;
    AliasOffsets(cluster);
    DivFacts(Alias(cluster) * 4, 512);
    MulAdd(U16(boot, 14), ActiveFat(boot) * U32(boot, 36), U16(boot, 11));
  }

  lemma AliasIsBelow(cluster: nat)
    ensures Alias(cluster) <= cluster
    ensures Alias(cluster) == cluster <==> cluster % 128 < 32
  {
    var q, a, b := Digits(cluster);
    AliasOffsets(cluster);
  }

  /** A 32-bit value at an aligned byte of the device. */
  function EntryAt(disk: Disk, at: nat): nat
    requires at % 4 == 0 && at / 512 < |disk|
  {
    U32(disk[at / 512], at % 512)
  }

  lemma EntriesAreAligned(boot: Sector, lba: nat, cluster: nat)
    requires FatVolume(boot)
    ensures StandardEntryByte(boot, lba, cluster) % 4 == 0
  {
    var first: int := U16(boot, 14) + ActiveFat(boot) * U32(boot, 36);
    var bytes: int := U16(boot, 11);
    hide U16, U32, ActiveFat;
    assert first * bytes == 4 * (if bytes == 512 then 128 * first else if bytes == 1024 then 256 * first
                                 else if bytes == 2048 then 512 * first else 1024 * first);
    MultipleOf4(lba * 128 + (if bytes == 512 then 128 * first else if bytes == 1024 then 256 * first
                             else if bytes == 2048 then 512 * first else 1024 * first) + cluster);
  }

  lemma MultipleOf4(x: int)
    ensures 4 * x % 4 == 0
  {}

  /** The FAT entry of a cluster, all 32 bits of it ... */
  function RawEntry(disk: Disk, boot: Sector, lba: nat, cluster: nat): nat
    requires FatVolume(boot) && StandardEntryByte(boot, lba, cluster) / 512 < |disk|
  {
    EntriesAreAligned(boot, lba, cluster);
    EntryAt(disk, StandardEntryByte(boot, lba, cluster))
  }

  /** ... of which the low 28 are the next cluster. */
  function StandardNext(disk: Disk, boot: Sector, lba: nat, cluster: nat): nat
    requires FatVolume(boot) && StandardEntryByte(boot, lba, cluster) / 512 < |disk|
  {
    RawEntry(disk, boot, lba, cluster) % 0x1000_0000
  }

  /** The cluster whose entry `next_cluster` reads: the one at the same place among the first 32 of
      its FAT sector. */
  function Alias(cluster: nat): nat { cluster / 128 * 128 + cluster % 128 % 32 }

  lemma AliasOffsets(cluster: nat)
    ensures Alias(cluster) * 4 / 512 == cluster * 4 / 512
    ensures Alias(cluster) * 4 % 512 == cluster * 4 % 128
    ensures Alias(cluster) == cluster <==> cluster % 128 < 32
    ensures cluster * 4 % 512 == cluster * 4 % 128 <==> cluster % 128 < 32
  {
    var q, a, b := Digits(cluster);
    Offsets(q, a, b);
  }

  /** A cluster's FAT sector, the quarter of the sector that holds its entry, and the place there. */
  lemma Digits(cluster: nat) returns (q: nat, a: nat, b: nat)
    ensures a < 4 && b < 32 && cluster == 128 * q + (32 * a + b) && Alias(cluster) == 128 * q + b
  {
    q, a, b := cluster / 128, cluster % 128 / 32, cluster % 128 % 32;
  }

  lemma Offsets(q: nat, a: nat, b: nat)
    requires a < 4 && b < 32
    ensures (128 * q + (32 * a + b)) * 4 / 512 == q == (128 * q + b) * 4 / 512
    ensures (128 * q + (32 * a + b)) * 4 % 512 == 128 * a + 4 * b
    ensures (128 * q + (32 * a + b)) * 4 % 128 == 4 * b == (128 * q + b) * 4 % 512
    ensures (128 * q + (32 * a + b)) % 128 == 32 * a + b
  {
    Quotient(512, q, 128 * a + 4 * b);
    Quotient(512, q, 4 * b);
    Quotient(128, 4 * q + a, 4 * b);
    Quotient(128, q, 32 * a + b);
  }

  lemma Quotient(d: nat, q: nat, r: nat)
    requires r < d
    ensures (d * q + r) / d == q && (d * q + r) % d == r
  {
    MulCommute(d, q);
    DivUnique(d * q + r, d, q, r);
  }

  /** What `next_cluster` reads on a volume of whatever layout. */
  lemma NextClusterReadsEntry(disk: Disk, boot: Sector, lba: nat, cluster: nat)
    requires FatSector(Mounted(boot, lba), cluster) < |disk|
    ensures DriverEntryByte(boot, lba, cluster) % 4 == 0 && DriverEntryByte(boot, lba, cluster) / 512 < |disk|
    ensures NextCluster(disk, Mounted(boot, lba), cluster) == EntryAt(disk, DriverEntryByte(boot, lba, cluster))
  {
    var sector := FatSector(Mounted(boot, lba), cluster);
    hide U32, Mounted;
    Multiple4(cluster);
    DivUnique(sector * 512 + cluster * 4 % 128, 512, sector, cluster * 4 % 128);
  }

  /** It is the entry of the cluster's alias in the first FAT, taken as sectors of 512 bytes; where the
      volume is like that, the standard's entry of the alias. */
  lemma NextClusterReadsAlias(disk: Disk, boot: Sector, lba: nat, cluster: nat)
    requires FatSector(Mounted(boot, lba), cluster) < |disk|
    ensures DriverEntryByte(boot, lba, cluster) == lba * 512 + U16(boot, 14) * 512 + 4 * Alias(cluster)
    ensures FatVolume(boot) && U16(boot, 11) == 512 && ActiveFat(boot) == 0 ==>
              && StandardEntryByte(boot, lba, Alias(cluster)) / 512 < |disk|
              && NextCluster(disk, Mounted(boot, lba), cluster) == RawEntry(disk, boot, lba, Alias(cluster))
  {
    hide U16, U32, Alias, Mounted, FatSector;
    EntryPositions(boot, lba, cluster);
    NextClusterReadsEntry(disk, boot, lba, cluster);
    if FatVolume(boot) && U16(boot, 11) == 512 && ActiveFat(boot) == 0 {
      EntryPositions(boot, lba, Alias(cluster));
      assert StandardEntryByte(boot, lba, Alias(cluster)) == DriverEntryByte(boot, lba, cluster);
    }
  }

  /** On a given disk the driver finds the standard's next cluster, where it reads the right entry, if and
      only if the reserved upper four bits of that entry are clear, because it does not mask them; where it
      reads another one, if and only if that one happens to be the number it should find. */
  lemma NextClusterOnDisk(disk: Disk, boot: Sector, lba: nat, cluster: nat)
    requires FatVolume(boot) && FatSector(Mounted(boot, lba), cluster) < |disk|
    requires StandardEntryByte(boot, lba, cluster) / 512 < |disk|
    ensures DriverEntryByte(boot, lba, cluster) % 4 == 0 && DriverEntryByte(boot, lba, cluster) / 512 < |disk|
    ensures NextCluster(disk, Mounted(boot, lba), cluster) == StandardNext(disk, boot, lba, cluster)
       <==> if EntryFound(boot, cluster) then RawEntry(disk, boot, lba, cluster) < 0x1000_0000
            else EntryAt(disk, DriverEntryByte(boot, lba, cluster)) == RawEntry(disk, boot, lba, cluster) % 0x1000_0000
  {
    hide U16, U32, Mounted, FatSector, EntryFound, DriverEntryByte, StandardEntryByte, EntryAt, FatVolume;
    NextClusterReadsEntry(disk, boot, lba, cluster);
    EntriesAreWhereTheyShould(boot, lba, cluster);
    EntriesAreAligned(boot, lba, cluster);
  }

  /** A FAT whose entry for cluster 2 is 3 with a reserved bit set. */
  function ReservedBitSector(): Sector { seq(512, i => if i == 8 then 0x03 else if i == 11 then 0x10 else 0) }

  /** There the standard goes on to cluster 3, while the driver takes the chain to end. */
  lemma ReservedBitsEndTheChain(boot: Sector, lba: nat, disk: Disk)
    requires FatVolume(boot) && EntryFound(boot, 2)
    requires lba + U16(boot, 14) < |disk| && disk[lba + U16(boot, 14)] == ReservedBitSector()
    ensures FatSector(Mounted(boot, lba), 2) < |disk| && StandardEntryByte(boot, lba, 2) / 512 < |disk|
    ensures StandardNext(disk, boot, lba, 2) == 3 && NextCluster(disk, Mounted(boot, lba), 2) >= END_OF_CHAIN
  {
    assert U32(ReservedBitSector(), 8) == 0x1000_0003;
    EntryFirst(boot, lba);
  }

  /** The entry of cluster 2 of a volume whose entries are found. */
  lemma EntryFirst(boot: Sector, lba: nat)
    requires FatVolume(boot) && EntryFound(boot, 2)
    ensures FatSector(Mounted(boot, lba), 2) == lba + U16(boot, 14)
    ensures StandardEntryByte(boot, lba, 2) / 512 == lba + U16(boot, 14) && StandardEntryByte(boot, lba, 2) % 512 == 8
  {
    hide U16, U32;
    EntriesAreWhereTheyShould(boot, lba, 2);
  }

  /** The disk with `LargeSectorBoot` at its beginning, and 3 in the FAT entry of cluster 2: 32 reserved
      sectors of 4096 bytes lie before it. */
  function LargeSectorDisk(): Disk { ZeroDisk(257)[0 := LargeSectorBoot()][256 := OneAt(8, 3)] }

  /** The standard goes on to cluster 3, whose reserved bits are clear; the driver reads zero. */
  lemma LargeSectorsLoseTheChain()
    ensures FatVolume(LargeSectorBoot()) && FatSector(Mounted(LargeSectorBoot(), 0), 2) < |LargeSectorDisk()|
    ensures StandardEntryByte(LargeSectorBoot(), 0, 2) / 512 < |LargeSectorDisk()|
    ensures RawEntry(LargeSectorDisk(), LargeSectorBoot(), 0, 2) == 3
    ensures NextCluster(LargeSectorDisk(), Mounted(LargeSectorBoot(), 0), 2) == 0
  {
    assert U16(LargeSectorBoot(), 11) == 4096 && U16(LargeSectorBoot(), 14) == 32 && U16(LargeSectorBoot(), 40) == 0;
    OneAtFacts(8, 3, 12);
    assert U32(ZeroSector(), 8) == 0;
  }

  /** The boot sector of a volume on which only the second FAT is in use. */
  function SecondFatBoot(): Sector {
    seq(512, i => if i == 12 then 2 else if i == 13 then 8 else if i == 14 then 32 else if i == 16 then 2
                  else if i == 36 then 1 else if i == 40 then 0x81 else if i == 510 then 0x55
                  else if i == 511 then 0xaa else 0)
  }

  /** A disk where that FAT has 3 for cluster 2 and the stale one has 0. */
  function SecondFatDisk(): Disk { ZeroDisk(34)[0 := SecondFatBoot()][33 := OneAt(8, 3)] }

  /** The driver never looks at BPB_ExtFlags: it follows the stale FAT. */
  lemma StaleFatIsFollowed()
    ensures FatVolume(SecondFatBoot()) && FatSector(Mounted(SecondFatBoot(), 0), 2) < |SecondFatDisk()|
    ensures StandardEntryByte(SecondFatBoot(), 0, 2) / 512 < |SecondFatDisk()|
    ensures RawEntry(SecondFatDisk(), SecondFatBoot(), 0, 2) == 3
    ensures NextCluster(SecondFatDisk(), Mounted(SecondFatBoot(), 0), 2) == 0
  {
    assert U16(SecondFatBoot(), 11) == 512 && U16(SecondFatBoot(), 14) == 32 && U16(SecondFatBoot(), 40) == 0x81;
    OneAtFacts(8, 3, 12);
    assert U32(ZeroSector(), 8) == 0;
  }

  /** Both entries of a cluster are on the disk, and the standard's has its upper four bits clear. */
  ghost predicate CleanEntry(disk: Disk, boot: Sector, lba: nat, cluster: nat)
    requires FatVolume(boot)
  {
    && FatSector(Mounted(boot, lba), cluster) < |disk| && StandardEntryByte(boot, lba, cluster) / 512 < |disk|
    && RawEntry(disk, boot, lba, cluster) < 0x1000_0000
  }

  /** On a FAT32 volume whose entries keep their upper four bits clear, the driver finds the standard's
      next cluster whatever the FAT holds if and only if the first FAT is in use, in sectors of 512 bytes,
      and `cluster % 128 < 32`. */
  lemma NextClusterIsStandard(boot: Sector, lba: nat, cluster: nat)
    requires FatVolume(boot)
    ensures EntryFound(boot, cluster) <==>
      forall disk: Disk :: CleanEntry(disk, boot, lba, cluster)
        ==> NextCluster(disk, Mounted(boot, lba), cluster) == StandardNext(disk, boot, lba, cluster)
  {
    hide U16, U32, Mounted, FatSector, EntryFound, StandardEntryByte, NextCluster, StandardNext, RawEntry, FatVolume;
    if EntryFound(boot, cluster) {
      forall disk: Disk | CleanEntry(disk, boot, lba, cluster)
        ensures NextCluster(disk, Mounted(boot, lba), cluster) == StandardNext(disk, boot, lba, cluster)
      {
        NextClusterOnDisk(disk, boot, lba, cluster);
      }
    } else {
      var disk := LoneEntry(boot, lba, cluster);
      assert CleanEntry(disk, boot, lba, cluster);
    }
  }

  /** A disk that is zero except for the entry of one cluster the driver looks up elsewhere. */
  lemma LoneEntry(boot: Sector, lba: nat, cluster: nat) returns (disk: Disk)
    requires FatVolume(boot) && !EntryFound(boot, cluster)
    ensures FatSector(Mounted(boot, lba), cluster) < |disk| && StandardEntryByte(boot, lba, cluster) / 512 < |disk|
    ensures RawEntry(disk, boot, lba, cluster) == 1 && StandardNext(disk, boot, lba, cluster) == 1
    ensures NextCluster(disk, Mounted(boot, lba), cluster) == 0
  {
    var at, other := StandardEntryByte(boot, lba, cluster), DriverEntryByte(boot, lba, cluster);
    EntriesAreAligned(boot, lba, cluster);
    EntriesAreWhereTheyShould(boot, lba, cluster);
    disk := LoneDisk(at, at / 512 + FatSector(Mounted(boot, lba), cluster) + 1);
    NextClusterReadsEntry(disk, boot, lba, cluster);
    hide FatVolume, U16, U32, Mounted, FatSector, StandardEntryByte, DriverEntryByte, EntryFound, LoneDisk, EntryAt,
      NextCluster;
    LoneEntryRead(at, other, |disk|);
  }

  function ZeroSector(): Sector { seq(512, i => 0) }

  function ZeroDisk(n: nat): Disk { seq(n, s => ZeroSector()) }

  /** `n` sectors that are zero except for a 1 at byte `at`. */
  function LoneDisk(at: nat, n: nat): (d: Disk)
    requires at / 512 < n
    ensures |d| == n
  {
    ZeroDisk(n)[at / 512 := OneAt(at % 512, 1)]
  }

  /** Reading such a disk at its entry and at another place. */
  lemma LoneEntryRead(at: nat, other: nat, n: nat)
    requires at % 4 == 0 && other % 4 == 0 && at != other && at / 512 < n && other / 512 < n
    ensures EntryAt(LoneDisk(at, n), at) == 1 && EntryAt(LoneDisk(at, n), other) == 0
  {
    AlignedInSector(at);
    AlignedInSector(other);
    DivFacts(at, 512);
    DivFacts(other, 512);
    hide OneAt;
    if other / 512 == at / 512 {
      OneAtFacts(at % 512, 1, other % 512);
    } else {
      OneAtFacts(at % 512, 1, if at % 512 == 0 then 4 else 0);
      assert U32(ZeroSector(), other % 512) == 0;
    }
  }

  lemma AlignedInSector(at: nat)
    requires at % 4 == 0
    ensures at % 512 % 4 == 0 && at % 512 + 4 <= 512
  {
    DivFacts(at, 512);
    assert at % 512 == 4 * (at / 4 - 128 * (at / 512));
  }

  lemma Multiple4(cluster: nat)
    ensures (cluster * 4 % 512) % 4 == 0 && (cluster * 4 % 128) % 4 == 0
  {
    var p, q := cluster * 4 / 512, cluster * 4 / 128;
    assert cluster * 4 % 512 == 4 * (cluster - 128 * p);
    assert cluster * 4 % 128 == 4 * (cluster - 32 * q);
  }

  /** The sector that holds `b` at byte `off` and 0 elsewhere. */
  function OneAt(off: nat, b: byte): Sector { seq(512, i => if i == off then b else 0) }

  lemma OneAtFacts(off: nat, b: byte, other: nat)
    requires off + 4 <= 512 && other + 4 <= 512 && off % 4 == 0 && other % 4 == 0 && off != other
    ensures U32(OneAt(off, b), off) == b && U32(OneAt(off, b), other) == 0
  {
    assert other + 3 < off || off + 3 < other;
  }

  // ---------------------------------------------------------------- the chain of the standard

  /** Along the standard's chain, up to `m` clusters: both the driver's and the standard's place of each entry
      are on the disk, and they are the same.  An entry from 0x0FFFFFF8 on ends a chain. */
  ghost predicate EntriesRead(disk: Disk, boot: Sector, lba: nat, c: nat, m: nat)
    requires FatVolume(boot)
    decreases m
  {
    m == 0 || c >= 0x0FFF_FFF8 ||
    (EntryFound(boot, c) && FatSector(Mounted(boot, lba), c) < |disk| && StandardEntryByte(boot, lba, c) / 512 < |disk|
     && EntriesRead(disk, boot, lba, StandardNext(disk, boot, lba, c), m - 1))
  }

  /** The first `m` clusters of a chain, by the standard. */
  ghost function StandardChain(disk: Disk, boot: Sector, lba: nat, c: nat, m: nat): seq<nat>
    requires FatVolume(boot) && EntriesRead(disk, boot, lba, c, m)
    decreases m
  {
    if m == 0 || c >= 0x0FFF_FFF8 then []
    else [c] + StandardChain(disk, boot, lba, StandardNext(disk, boot, lba, c), m - 1)
  }

  /** Reserved bits that are set do no harm in an entry that ends the chain, nor in the last one looked at. */
  ghost predicate BitsHarmless(disk: Disk, boot: Sector, lba: nat, c: nat, m: nat)
    requires FatVolume(boot) && EntriesRead(disk, boot, lba, c, m)
    decreases m
  {
    m <= 1 || c >= 0x0FFF_FFF8 ||
    ((RawEntry(disk, boot, lba, c) < 0x1000_0000 || StandardNext(disk, boot, lba, c) >= 0x0FFF_FFF8)
     && BitsHarmless(disk, boot, lba, StandardNext(disk, boot, lba, c), m - 1))
  }

  /** Where entries are read in their places, the driver's chain is the standard's if and only if no reserved
      bits are set in an entry that goes on. */
  lemma {:induction false} ChainIsStandard(disk: Disk, boot: Sector, lba: nat, c: nat, m: nat)
    requires FatVolume(boot) && EntriesRead(disk, boot, lba, c, m) && ChainOk(disk, Mounted(boot, lba), c, m)
    ensures Chain(disk, Mounted(boot, lba), c, m) == StandardChain(disk, boot, lba, c, m)
       <==> BitsHarmless(disk, boot, lba, c, m)
    decreases m
  {
    hide U16, U32, Mounted, FatSector, EntryFound, DriverEntryByte, StandardEntryByte, EntryAt, FatVolume, RawEntry,
      NextCluster, StandardNext, Readable;
    if m > 0 && c < 0x0FFF_FFF8 {
      EntryRead(disk, boot, lba, c);
      var next, standard := NextCluster(disk, Mounted(boot, lba), c), StandardNext(disk, boot, lba, c);
      var rest := Chain(disk, Mounted(boot, lba), next, m - 1);
      var standardRest := StandardChain(disk, boot, lba, standard, m - 1);
      assert ([c] + rest)[1..] == rest && ([c] + standardRest)[1..] == standardRest;
      if next == standard { ChainIsStandard(disk, boot, lba, standard, m - 1); }
    }
  }

  lemma EntryRead(disk: Disk, boot: Sector, lba: nat, c: nat)
    requires FatVolume(boot) && EntryFound(boot, c) && FatSector(Mounted(boot, lba), c) < |disk|
    requires StandardEntryByte(boot, lba, c) / 512 < |disk|
    ensures NextCluster(disk, Mounted(boot, lba), c) == RawEntry(disk, boot, lba, c)
    ensures StandardNext(disk, boot, lba, c) == RawEntry(disk, boot, lba, c) % 0x1000_0000
  {
    hide U16, U32, Mounted, FatSector, EntryFound, DriverEntryByte, StandardEntryByte, FatVolume;
    NextClusterReadsEntry(disk, boot, lba, c);
    EntriesAreWhereTheyShould(boot, lba, c);
    EntriesAreAligned(boot, lba, c);
  }

  // ---------------------------------------------------------------- writing

  ghost predicate Distinct(chain: seq<nat>) {
    forall i, j :: 0 <= i < j < |chain| ==> chain[i] != chain[j]
  }

  /** Sector `s` holds data of the chain. */
  ghost predicate InChain(disk: Disk, vol: Volume, chain: seq<nat>, s: nat)
    requires Clusters(disk, vol, chain)
  {
    exists j :: 0 <= j < |chain| && (assert Readable(disk, vol, chain[j]);
      ClusterToSector(vol, chain[j]) <= s < ClusterToSector(vol, chain[j]) + vol.secPerCluster)
  }

  /** The cluster and the place in it of the k-th sector. */
  lemma Locate(disk: Disk, vol: Volume, chain: seq<nat>, k: nat) returns (i: nat, s: nat)
    requires Clusters(disk, vol, chain) && k < |chain| * vol.secPerCluster
    ensures i == k / vol.secPerCluster < |chain| && s < vol.secPerCluster && k == i * vol.secPerCluster + s
    ensures chain[i] >= 2 && SectorAt(vol, chain, k) == ClusterToSector(vol, chain[i]) + s
  {
    SplitIndex(vol, k, |chain|);
    i, s := k / vol.secPerCluster, k % vol.secPerCluster;
    assert Readable(disk, vol, chain[i]);
  }

  /** Distinct clusters have disjoint sectors, so a file's sectors are distinct. */
  lemma SectorAtInjective(disk: Disk, vol: Volume, chain: seq<nat>, k: nat, l: nat)
    requires Clusters(disk, vol, chain) && Distinct(chain)
    requires k < |chain| * vol.secPerCluster && l < |chain| * vol.secPerCluster && k != l
    ensures OnChain(vol, chain, k)
    ensures OnChain(vol, chain, l)
    ensures SectorAt(vol, chain, k) != SectorAt(vol, chain, l)
  {
    var i, s := Locate(disk, vol, chain, k);
    var j, t := Locate(disk, vol, chain, l);
    hide SectorAt, ClusterToSector, Clusters;
    if SectorAt(vol, chain, k) == SectorAt(vol, chain, l) {
      SameSector(vol, chain[i], s, chain[j], t);
    }
  }

  lemma SectorAtInChain(disk: Disk, vol: Volume, chain: seq<nat>, k: nat)
    requires Clusters(disk, vol, chain) && k < |chain| * vol.secPerCluster
    ensures OnChain(vol, chain, k)
    ensures InChain(disk, vol, chain, SectorAt(vol, chain, k))
  {
    var i, t := Locate(disk, vol, chain, k);
    assert Readable(disk, vol, chain[i]);
    hide SectorAt, ClusterToSector;
  }

  lemma SameSector(vol: Volume, c: nat, s: nat, d: nat, t: nat)
    requires c >= 2 && d >= 2 && s < vol.secPerCluster && t < vol.secPerCluster
    requires ClusterToSector(vol, c) + s == ClusterToSector(vol, d) + t
    ensures c == d && s == t
  {
    Unique(vol.secPerCluster, c - 2, s, d - 2, t);
  }

  /** Replacing the k-th sector of a file changes the content there and nowhere else. */
  lemma SectorWrite(disk: Disk, vol: Volume, chain: seq<nat>, k: nat, data: Sector)
    requires Clusters(disk, vol, chain) && Distinct(chain) && k < |chain| * vol.secPerCluster
    ensures OnChain(vol, chain, k)
    ensures SectorAt(vol, chain, k) < |disk|
    ensures var after := disk[SectorAt(vol, chain, k) := data];
            Clusters(after, vol, chain) && k * 512 + 512 <= |Content(disk, vol, chain)|
            && Content(after, vol, chain) == Splice(Content(disk, vol, chain), k * 512, data)
  {
    SectorAtOnDisk(disk, vol, chain, k);
    var after := disk[SectorAt(vol, chain, k) := data];
    forall j | 0 <= j < |chain|
      ensures Readable(after, vol, chain[j])
    {
      assert Readable(disk, vol, chain[j]);
    }
    var spliced := Splice(Content(disk, vol, chain), k * 512, data);
    forall o | 0 <= o < Capacity(vol, |chain|)
      ensures ByteAt(after, vol, chain, o) == spliced[o]
    {
      SectorAtOnDisk(disk, vol, chain, o / 512);
      if o / 512 != k { SectorAtInjective(disk, vol, chain, k, o / 512); }
      assert Content(disk, vol, chain)[o] == ByteAt(disk, vol, chain, o);
    }
  }

  /** The bytes of the k-th sector, within the flat content. */
  lemma SectorIsSlice(disk: Disk, vol: Volume, chain: seq<nat>, k: nat)
    requires Clusters(disk, vol, chain) && k < |chain| * vol.secPerCluster
    ensures OnChain(vol, chain, k)
    ensures SectorAt(vol, chain, k) < |disk| && k * 512 + 512 <= |Content(disk, vol, chain)|
    ensures disk[SectorAt(vol, chain, k)] == Content(disk, vol, chain)[k * 512..k * 512 + 512]
  {
    hide SectorAt, Clusters, Content, OnChain;
    SectorByte(disk, vol, chain, k, 511);
    forall i: nat | i < 512
      ensures Content(disk, vol, chain)[k * 512 + i] == disk[SectorAt(vol, chain, k)][i]
    {
      SectorByte(disk, vol, chain, k, i);
    }
    SameBytes(Content(disk, vol, chain), k * 512, disk[SectorAt(vol, chain, k)]);
  }

  lemma SameBytes(bytes: seq<byte>, at: nat, part: seq<byte>)
    requires at + |part| <= |bytes| && forall i: nat :: i < |part| ==> bytes[at + i] == part[i]
    ensures part == bytes[at..at + |part|]
  {}

  lemma SectorByte(disk: Disk, vol: Volume, chain: seq<nat>, k: nat, i: nat)
    requires Clusters(disk, vol, chain) && k < |chain| * vol.secPerCluster && i < 512
    ensures OnChain(vol, chain, k)
    ensures SectorAt(vol, chain, k) < |disk| && k * 512 + i < |Content(disk, vol, chain)|
    ensures Content(disk, vol, chain)[k * 512 + i] == disk[SectorAt(vol, chain, k)][i]
  {
    SectorAtOnDisk(disk, vol, chain, k);
    assert (k * 512 + i) / 512 == k && (k * 512 + i) % 512 == i;
    ContentAt(disk, vol, chain, k * 512 + i);
  }

  lemma ContentAt(disk: Disk, vol: Volume, chain: seq<nat>, o: nat)
    requires Clusters(disk, vol, chain) && o < Capacity(vol, |chain|)
    ensures Content(disk, vol, chain)[o] == ByteAt(disk, vol, chain, o)
  {}

  /** Extending what has been written by the bytes that land in one sector. */
  lemma SpliceStep(was: seq<byte>, fo: nat, done: seq<byte>, more: seq<byte>, k: nat, off: nat)
    requires fo + |done| + |more| <= |was| && k * 512 + 512 <= |was|
    requires fo + |done| == k * 512 + off && off + |more| <= 512
    ensures var now := Splice(was, fo, done);
            Splice(now, k * 512, Splice(now[k * 512..k * 512 + 512], off, more)) == Splice(was, fo, done + more)
  {
    var now := Splice(was, fo, done);
    var sector := Splice(now[k * 512..k * 512 + 512], off, more);
    var left, right := Splice(now, k * 512, sector), Splice(was, fo, done + more);
    forall o | 0 <= o < |was|
      ensures left[o] == right[o]
    {
      SpliceAt(was, fo, done, o);
      SpliceAt(was, fo, done + more, o);
      SpliceAt(now, k * 512, sector, o);
      if k * 512 <= o < k * 512 + 512 {
        SpliceAt(now[k * 512..k * 512 + 512], off, more, o - k * 512);
      }
    }
  }

  lemma SpliceAt(bytes: seq<byte>, fo: nat, data: seq<byte>, o: nat)
    requires fo + |data| <= |bytes| && o < |bytes|
    ensures |Splice(bytes, fo, data)| == |bytes|
    ensures Splice(bytes, fo, data)[o] == if fo <= o < fo + |data| then data[o - fo] else bytes[o]
  {}

  /** `after` is `disk` with `data` written at offset `fo` of the chain: the content is spliced and
      no other sector changes. */
  ghost predicate Written(disk: Disk, after: Disk, vol: Volume, chain: seq<nat>, fo: nat, data: seq<byte>) {
    && |after| == |disk|
    && Clusters(disk, vol, chain) && Clusters(after, vol, chain)
    && fo + |data| <= |Content(disk, vol, chain)|
    && Content(after, vol, chain) == Splice(Content(disk, vol, chain), fo, data)
    && forall s :: 0 <= s < |disk| && !InChain(disk, vol, chain, s) ==> after[s] == disk[s]
  }

  /** A write leaves the FAT, and so every chain, as it was. */
  lemma {:induction false} WriteKeepsChains(disk: Disk, after: Disk, vol: Volume, chain: seq<nat>,
                                            fo: nat, data: seq<byte>, c: nat, m: nat)
    requires Written(disk, after, vol, chain, fo, data) && ChainOk(disk, vol, c, m)
    ensures ChainOk(after, vol, c, m) && Chain(after, vol, c, m) == Chain(disk, vol, c, m)
    decreases m
  {
    if m > 0 && c < END_OF_CHAIN {
      FatSectorNotInChain(disk, vol, chain, FatSector(vol, c));
      assert NextCluster(after, vol, c) == NextCluster(disk, vol, c);
      WriteKeepsChains(disk, after, vol, chain, fo, data, NextCluster(disk, vol, c), m - 1);
    }
  }

  lemma FatSectorNotInChain(disk: Disk, vol: Volume, chain: seq<nat>, s: nat)
    requires Clusters(disk, vol, chain) && s < vol.firstDataSec
    ensures !InChain(disk, vol, chain, s)
  {
    forall j | 0 <= j < |chain|
      ensures Readable(disk, vol, chain[j]) && s < ClusterToSector(vol, chain[j])
    {
      assert Readable(disk, vol, chain[j]);
      MulNonNeg(chain[j] - 2, vol.secPerCluster);
    }
  }

  /** The sectors of clusters outside the chain are not the chain's. */
  lemma OtherClusterNotInChain(disk: Disk, vol: Volume, chain: seq<nat>, d: nat, s: nat)
    requires Clusters(disk, vol, chain) && d >= 2 && d !in chain
    requires ClusterToSector(vol, d) <= s < ClusterToSector(vol, d) + vol.secPerCluster
    ensures !InChain(disk, vol, chain, s)
  {
    var spc := vol.secPerCluster;
    forall j | 0 <= j < |chain|
      ensures Readable(disk, vol, chain[j])
      ensures !(ClusterToSector(vol, chain[j]) <= s < ClusterToSector(vol, chain[j]) + spc)
    {
      assert Readable(disk, vol, chain[j]);
      var c := chain[j];
      if ClusterToSector(vol, c) <= s < ClusterToSector(vol, c) + spc {
        Unique(spc, c - 2, s - ClusterToSector(vol, c), d - 2, s - ClusterToSector(vol, d));
      }
    }
  }

  /** Writing along the head of a file's chain splices the whole file's content: the clusters behind
      the head keep their bytes. */
  lemma WriteUpdatesFile(disk: Disk, after: Disk, vol: Volume, full: seq<nat>, j: nat, fo: nat, data: seq<byte>)
    requires Clusters(disk, vol, full) && Distinct(full) && j <= |full|
    requires Written(disk, after, vol, full[..j], fo, data)
    ensures Clusters(after, vol, full) && fo + |data| <= |Content(disk, vol, full)|
    ensures Content(after, vol, full) == Splice(Content(disk, vol, full), fo, data)
  {
    var head := full[..j];
    forall i | 0 <= i < |full|
      ensures Readable(after, vol, full[i])
    {
      assert Readable(disk, vol, full[i]);
    }
    ContentPrefix(disk, vol, full, j);
    ContentPrefix(after, vol, full, j);
    hide Content, Clusters, Readable, Distinct;
    var n := |Content(disk, vol, head)|;
    var now, was := Content(after, vol, full), Content(disk, vol, full);
    forall o | n <= o < |was|
      ensures now[o] == was[o]
    {
      ByteBehindHead(disk, after, vol, full, j, fo, data, o);
    }
    PrefixSplice(was, now, n, fo, data);
  }

  lemma ByteBehindHead(disk: Disk, after: Disk, vol: Volume, full: seq<nat>, j: nat, fo: nat, data: seq<byte>, o: nat)
    requires Clusters(disk, vol, full) && Clusters(after, vol, full) && Distinct(full) && j <= |full|
    requires Written(disk, after, vol, full[..j], fo, data)
    requires Capacity(vol, j) <= o < Capacity(vol, |full|)
    ensures Content(after, vol, full)[o] == Content(disk, vol, full)[o]
  {
    BehindHead(disk, vol, full, j, o);
    SectorAtOnDisk(disk, vol, full, o / 512);
    ContentAt(after, vol, full, o);
    ContentAt(disk, vol, full, o);
    hide Content, Clusters, SectorAt, InChain;
  }

  lemma PrefixSplice(was: seq<byte>, now: seq<byte>, n: nat, fo: nat, data: seq<byte>)
    requires n <= |was| == |now| && fo + |data| <= n
    requires now[..n] == Splice(was[..n], fo, data)
    requires forall o :: n <= o < |was| ==> now[o] == was[o]
    ensures now == Splice(was, fo, data)
  {
    forall o | 0 <= o < |was|
      ensures now[o] == Splice(was, fo, data)[o]
    {
      SpliceAt(was, fo, data, o);
      if o < n {
        SpliceAt(was[..n], fo, data, o);
        assert now[o] == now[..n][o];
      }
    }
  }

  lemma BehindHead(disk: Disk, vol: Volume, full: seq<nat>, j: nat, o: nat)
    requires Clusters(disk, vol, full) && Distinct(full) && j <= |full|
    requires Capacity(vol, j) <= o < Capacity(vol, |full|)
    ensures (o / 512) / vol.secPerCluster < |full| && full[(o / 512) / vol.secPerCluster] >= 2
    ensures Clusters(disk, vol, full[..j]) && !InChain(disk, vol, full[..j], SectorAt(vol, full, o / 512))
  {
    var spc := vol.secPerCluster;
    var k := o / 512;
    SplitIndex(vol, k, |full|);
    var i := k / spc;
    assert Readable(disk, vol, full[i]);
    if i < j {
      MulMonotone(i + 1, j, spc);
      MulAdd(i, 1, spc);
    }
    OtherClusterNotInChain(disk, vol, full[..j], full[i], SectorAt(vol, full, k));
  }

  /** Reading back at the offset of a write yields what was written. */
  lemma ReadBack(bytes: seq<byte>, fo: nat, data: seq<byte>)
    requires fo + |data| <= |bytes|
    ensures |data| > 0 ==> Slice(Splice(bytes, fo, data), fo, |data|) == data
    ensures forall o :: 0 <= o < |bytes| && !(fo <= o < fo + |data|) ==> Splice(bytes, fo, data)[o] == bytes[o]
  {}

  /** Splicing twice in a row is splicing once. */
  lemma AppendSplice(bytes: seq<byte>, fo: nat, a: seq<byte>, b: seq<byte>)
    requires fo + |a| + |b| <= |bytes|
    ensures |Splice(bytes, fo, a)| == |bytes|
    ensures Splice(Splice(bytes, fo, a), fo + |a|, b) == Splice(bytes, fo, a + b)
  {}

  /** `n` bytes of the flat content from `o` on. */
  function ContentFrom(disk: Disk, vol: Volume, chain: seq<nat>, o: nat, n: nat): seq<byte>
    requires Clusters(disk, vol, chain) && o + n <= |Content(disk, vol, chain)|
  {
    Content(disk, vol, chain)[o..o + n]
  }
}
