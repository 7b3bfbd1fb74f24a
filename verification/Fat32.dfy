/** The FAT32 driver's code (fs/fat32.c), over a device of 512-byte sectors. */
module Fat32 {
  import opened Words
  import opened Arith
  import opened Fat32Spec

  /** `struct fat32_dir_entry` is 32 bytes long and ends with the file size. */
  const ENTRY_SIZE := 32
  const SIZE_OFFSET := 28

  const SEEK_SET: nat := 0
  const SEEK_CUR: nat := 1
  const SEEK_END: nat := 2

  /** An opened file: the parts of `struct file` that the driver uses. */
  class File {
    var cfo: int
    const cluster: nat
    const dirCluster: nat
    const dirIndex: nat

    constructor (cluster: nat, dirCluster: nat, dirIndex: nat)
      ensures this.cfo == 0 && this.cluster == cluster && this.dirCluster == dirCluster && this.dirIndex == dirIndex
    {
      this.cfo := 0;
      this.cluster := cluster;
      this.dirCluster := dirCluster;
      this.dirIndex := dirIndex;
    }

    /** The current offset as the 64-bit unsigned number the driver works with. */
    function Offset(): word
      reads this
    {
      Wrap(cfo)
    }
  }

  /** The size recorded in a file's directory entry, which is looked up in the first sector of the
      directory cluster. */
  function FileSize(disk: Disk, vol: Volume, dirCluster: nat, dirIndex: nat): (size: nat)
    requires dirCluster >= 2 && ClusterToSector(vol, dirCluster) < |disk| && dirIndex < 16
    ensures size < 0x1_0000_0000
  {
    U32(disk[ClusterToSector(vol, dirCluster)], dirIndex * 32 + 28)
  }

  class Driver {
    var disk: Disk
    var volume: Volume
    const fat32_buf: array<byte>
    const fat32_table_buf: array<byte>

    ghost predicate Valid()
      reads this
    {
      fat32_buf.Length == 512 && fat32_table_buf.Length == 512 && fat32_buf != fat32_table_buf
      && volume.secPerCluster >= 1
    }

    ghost predicate HasEntry(file: File)
      reads this
    {
      file.dirCluster >= 2 && ClusterToSector(volume, file.dirCluster) < |disk| && file.dirIndex < 16
    }

    /** The recorded size of a file. */
    ghost function Size(file: File): nat
      requires HasEntry(file)
      reads this
    {
      FileSize(disk, volume, file.dirCluster, file.dirIndex)
    }

    /** The bytes a read or write of `len` at the current offset would move on a long enough chain. */
    ghost function Want(file: File, len: word): nat
      requires HasEntry(file)
      reads this, file
    {
      Clamp(file.Offset(), len, Size(file))
    }

    /** The part of the file's chain that a transfer of `len` bytes touches is on the device.  Past the
        end of the file it touches nothing. */
    ghost predicate Reachable(file: File, len: word)
      requires volume.secPerCluster >= 1 && HasEntry(file)
      reads this, file
    {
      file.Offset() < Size(file) ==>
        ChainOk(disk, volume, file.cluster, ClustersFor(volume, file.Offset() + Want(file, len)))
    }

    ghost function Touched(file: File, len: word): seq<nat>
      requires volume.secPerCluster >= 1 && HasEntry(file) && Reachable(file, len)
      reads this, file
    {
      if file.Offset() >= Size(file) then []
      else Chain(disk, volume, file.cluster, ClustersFor(volume, file.Offset() + Want(file, len)))
    }

    /** Bytes moved: as many as wanted, or what is left on the chain. */
    ghost function Count(file: File, len: word): nat
      requires volume.secPerCluster >= 1 && HasEntry(file) && Reachable(file, len)
      reads this, file
    {
      if file.Offset() >= Size(file) then 0
      else Moved(file.Offset(), Want(file, len), Capacity(volume, |Touched(file, len)|))
    }

    /** The bytes a read delivers. */
    ghost function Delivered(file: File, len: word): seq<byte>
      requires volume.secPerCluster >= 1 && HasEntry(file) && Reachable(file, len)
      reads this, file
    {
      ReadAt(disk, volume, file.cluster, file.Offset(), len, Size(file))
    }

    /** What a read does, by the branches of the code. */
    lemma ReadCases(file: File, len: word)
      requires Valid() && HasEntry(file) && Reachable(file, len)
      ensures file.Offset() >= Size(file) ==> Count(file, len) == 0 && Delivered(file, len) == []
      ensures file.Offset() < Size(file) ==>
                var fo: nat, want: nat := file.Offset(), Want(file, len);
                && want == (if Wrap(fo + len) > Size(file) then Size(file) - fo else len)
                && ChainOk(disk, volume, file.cluster, ClustersFor(volume, fo + want))
                && Count(file, len)
                   == Moved(fo, want,
                            Capacity(volume, |Chain(disk, volume, file.cluster, ClustersFor(volume, fo + want))|))
                && Delivered(file, len) == ReadResult(disk, volume, file.cluster, fo, want)
                && |Delivered(file, len)| == Count(file, len) <= want
    {
      hide ChainOk, Chain, ClustersFor, ReadResult, Capacity, Moved, FileSize;
      if file.Offset() < Size(file) {
        ReadResultLength(disk, volume, file.cluster, file.Offset(), Want(file, len));
      }
    }

    /** `virtio_blk_read_sector` */
    method ReadSector(sector: nat, buf: array<byte>)
      requires sector < |disk| && buf.Length == 512
      modifies buf
      ensures buf[..] == disk[sector]
    {
      var s := disk[sector];
      forall i | 0 <= i < 512 {
        buf[i] := s[i];
      }
    }

    /** `virtio_blk_write_sector`, from the sector buffer. */
    method WriteSector(sector: nat)
      requires Valid() && sector < |disk|
      modifies this`disk
      ensures disk == old(disk)[sector := fat32_buf[..]]
    {
      disk := disk[sector := fat32_buf[..]];
    }

    /** `fat32_init`: reads the boot sector at `lba`. */
    method Mount(lba: nat)
      requires lba < |disk|
      modifies this`volume
      ensures volume == Mounted(disk[lba], lba)
    {
      var header := new byte[512];
      ReadSector(lba, header);
      assert header[..] == disk[lba];
      var r0: int, r1: int := header[14], header[15];
      var z0: int, z1: int, z2: int, z3: int := header[36], header[37], header[38], header[39];
      var fatSz := z0 + 0x100 * z1 + 0x1_0000 * z2 + 0x100_0000 * z3;
      var firstFatSec := lba + (r0 + 0x100 * r1);
      volume := Volume(firstFatSec + header[16] * fatSz % 0x1_0000_0000, firstFatSec, header[13], fatSz);
    }

    /** `next_cluster` */
    method Next(cluster: nat) returns (r: nat)
      requires Valid() && FatSector(volume, cluster) < |disk|
      modifies fat32_table_buf
      ensures r == NextCluster(disk, volume, cluster)
    {
      var fatOffset := cluster * 4;
      var fatSector := volume.firstFatSec + fatOffset / 512;
      ReadSector(fatSector, fat32_table_buf);
      var index := fatOffset % (512 / 4);
      var b0: int, b1: int, b2: int, b3: int :=
        fat32_table_buf[index], fat32_table_buf[index + 1], fat32_table_buf[index + 2], fat32_table_buf[index + 3];
      assert fat32_table_buf[..] == disk[fatSector];
      r := b0 + 0x100 * b1 + 0x1_0000 * b2 + 0x100_0000 * b3;
    }

    /** The directory lookup at the head of `fat32_read`, `fat32_write` and `fat32_lseek`. */
    method LookUpSize(file: File) returns (size: nat)
      requires Valid() && HasEntry(file)
      modifies fat32_buf
      ensures size == Size(file) && size < 0x1_0000_0000
    {
      var dirSector := (file.dirCluster - 2) * volume.secPerCluster + volume.firstDataSec;
      ReadSector(dirSector, fat32_buf);
      var at := file.dirIndex * ENTRY_SIZE + SIZE_OFFSET;
      var b0: int, b1: int, b2: int, b3: int := fat32_buf[at], fat32_buf[at + 1], fat32_buf[at + 2], fat32_buf[at + 3];
      assert fat32_buf[..] == disk[dirSector];
      size := b0 + 0x100 * b1 + 0x1_0000 * b2 + 0x100_0000 * b3;
    }

    /** `fat32_lseek`.  Any other `whence` hangs the kernel. */
    method Lseek(file: File, offset: int, whence: nat) returns (r: int)
      requires Valid() && whence <= 2 && (whence == SEEK_END ==> HasEntry(file))
      requires -0x8000_0000_0000_0000 <= offset < 0x8000_0000_0000_0000
      modifies file, fat32_buf
      ensures r == file.cfo
      ensures file.cfo == match whence case 0 => offset
                                       case 1 => Signed(Wrap(old(file.cfo) + offset))
                                       case _ => Signed(Wrap(Size(file) + offset))
    {
      if whence == SEEK_SET {
        file.cfo := offset;
      } else if whence == SEEK_CUR {
        file.cfo := Signed(Wrap(file.cfo + offset));
      } else {
        var size := LookUpSize(file);
        file.cfo := Signed(Wrap(size + offset));
      }
      r := file.cfo;
    }

    /** The loop that skips the clusters before the current offset. */
    method Skip(first: nat, count: nat, ghost m: nat) returns (cluster: nat, ghost j: nat)
      requires Valid() && ChainOk(disk, volume, first, m) && count <= m
      modifies fat32_table_buf
      ensures j <= count && At(disk, volume, first, m, j, cluster)
      ensures j == count || cluster >= END_OF_CHAIN
    {
      cluster := first;
      var i: nat := 0;
      j := 0;
      while i < count && cluster < END_OF_CHAIN
        invariant 0 <= i <= count
        invariant j <= i && (cluster < END_OF_CHAIN ==> j == i)
        invariant j == count || cluster >= END_OF_CHAIN || i < count
        invariant At(disk, volume, first, m, j, cluster)
      {
        StepAlong(disk, volume, first, m, j, cluster);
        cluster := Next(cluster);
        i := i + 1;
        j := j + 1;
      }
    }

    /** `memcpy` between two buffers. */
    method MemCpy(dst: array<byte>, d: nat, src: array<byte>, s: nat, n: nat)
      requires dst != src && d + n <= dst.Length && s + n <= src.Length
      modifies dst
      ensures dst[..] == Splice(old(dst[..]), d, src[s..s + n])
    {
      hide Splice;
      NothingSpliced(old(dst[..]), d);
      var i: nat := 0;
      assert src[s..s] == [];
      while i < n
        invariant 0 <= i <= n
        invariant dst[..] == Splice(old(dst[..]), d, src[s..s + i])
      {
        SpliceOne(old(dst[..]), d, src[s..s + i], src[s + i]);
        assert src[s..s + i + 1] == src[s..s + i] + [src[s + i]];
        dst[d + i] := src[s + i];
        i := i + 1;
      }
    }

    /** The loop over the sectors of one cluster in `fat32_read`: fills `buf` from `start` with the
        cluster's bytes from `inCluster` on. */
    method ReadCluster(cluster: nat, inCluster: nat, buf: array<byte>, start: nat, count: nat,
                       ghost chain: seq<nat>, ghost j: nat) returns (moved: nat)
      requires Valid() && Clusters(disk, volume, chain) && j < |chain| && chain[j] == cluster
      requires inCluster < volume.secPerCluster * 512 && start + count <= buf.Length
      requires buf != fat32_buf && volume.secPerCluster >= 1 && cluster >= 2
      modifies buf, fat32_buf
      ensures moved == if count <= volume.secPerCluster * 512 - inCluster then count
                       else volume.secPerCluster * 512 - inCluster
      ensures Capacity(volume, j) + inCluster + moved <= |Content(disk, volume, chain)|
      ensures buf[..]
           == Splice(old(buf[..]), start, ContentFrom(disk, volume, chain, Capacity(volume, j) + inCluster, moved))
    {
      hide Capacity, Content, Clusters, Splice, ContentFrom, ClusterToSector, InSectors, ReadingSectors;
      ghost var before := buf[..];
      var remaining: nat := count;
      SectorsStart(disk, volume, chain, j, inCluster, count, before, start);
      var sector: nat := (cluster - 2) * volume.secPerCluster + volume.firstDataSec;
      var sec: nat := inCluster / 512;
      var off: nat := inCluster % 512;
      moved := 0;
      while sec < volume.secPerCluster && remaining > 0
        invariant moved + remaining == count && buf.Length == |before| && fat32_buf.Length == 512
        invariant ReadingSectors(disk, volume, chain, j, sec, off, inCluster, count, moved, before, start, buf[..])
        decreases remaining
      {
        ReadSectorsGoOn(disk, volume, chain, j, sec, off, inCluster, count, moved, before, start, buf[..]);
        ReadSector(sector + sec, fat32_buf);
        var n: nat := 512 - off;
        if n > remaining {
          n := remaining;
        }
        ghost var was := buf[..];
        MemCpy(buf, start + moved, fat32_buf, off, n);
        ReadSectorsStep(disk, volume, chain, j, sec, off, inCluster, count, moved, before, start, was, buf[..], n);
        moved := moved + n;
        remaining := remaining - n;
        off := 0;
        sec := sec + 1;
      }
      ReadSectorsEnd(disk, volume, chain, j, sec, off, inCluster, count, moved, before, start, buf[..]);
    }

    /** `fat32_read` */
    method Read(file: File, buf: array<byte>, len: word) returns (bytesRead: nat)
      requires Valid() && HasEntry(file) && Reachable(file, len) && Want(file, len) <= buf.Length
      requires buf != fat32_buf && buf != fat32_table_buf
      modifies file, buf, fat32_buf, fat32_table_buf
      ensures bytesRead == old(Count(file, len)) <= buf.Length
      ensures |old(Delivered(file, len))| == bytesRead && buf[..] == Splice(old(buf[..]), 0, old(Delivered(file, len)))
      ensures file.cfo == old(file.cfo) + bytesRead
    {
      hide *;
      ReadCases(file, len);
      EmptySplice([], 0, buf[..]);
      bytesRead := 0;
      var remaining: nat := len;
      var offset: nat := file.Offset();
      var size := LookUpSize(file);
      if offset >= size {
        return 0;
      }
      if Wrap(offset + len) > size {
        remaining := size - offset;
      }
      bytesRead := ReadFrom(file.cluster, offset, remaining, buf);
      file.cfo := file.cfo + bytesRead;
    }

    /** `fat32_read` behind its length check: `count` bytes from `offset` on, of the chain from `first`. */
    method ReadFrom(first: nat, offset: nat, count: nat, buf: array<byte>) returns (bytesRead: nat)
      requires Valid() && ChainOk(disk, volume, first, ClustersFor(volume, offset + count)) && count <= buf.Length
      requires buf != fat32_buf && buf != fat32_table_buf
      modifies buf, fat32_buf, fat32_table_buf
      ensures bytesRead
           == Moved(offset, count, Capacity(volume, |Chain(disk, volume, first, ClustersFor(volume, offset + count))|))
      ensures buf[..] == Splice(old(buf[..]), 0, ReadResult(disk, volume, first, offset, count))
    {
      var clusterSize: nat := volume.secPerCluster * 512;
      DivNonNeg(offset, clusterSize);
      DivFacts(offset, clusterSize);
      var skip: nat, inCluster: nat := offset / clusterSize, offset % clusterSize;
      ghost var m: nat := ClustersFor(volume, offset + count);
      ChainFacts(disk, volume, first, m);
      SkipBound(volume, offset, count);
      hide Capacity, Content, ChainOk, Chain, At, Position, Slice, Splice, ClustersFor, ReadResult, Clusters;
      var cluster: nat, j: nat := Skip(first, skip, m);
      Arrived(disk, volume, first, m, j, cluster, offset);
      bytesRead := CopyOut(cluster, inCluster, buf, count, first, m, j, offset);
    }

    /** The main loop of `fat32_read`. */
    method CopyOut(cluster0: nat, inCluster0: nat, buf: array<byte>, count: nat,
                   ghost first: nat, ghost m: nat, ghost j0: nat, ghost fo: nat) returns (bytesRead: nat)
      requires Valid() && m == ClustersFor(volume, fo + count) && ChainOk(disk, volume, first, m)
      requires At(disk, volume, first, m, j0, cluster0)
      requires Position(volume, j0, cluster0, fo, 0, inCluster0, count) && count <= buf.Length
      requires Clusters(disk, volume, Chain(disk, volume, first, m))
      requires buf != fat32_buf && buf != fat32_table_buf
      modifies buf, fat32_buf, fat32_table_buf
      ensures bytesRead == Moved(fo, count, Capacity(volume, |Chain(disk, volume, first, m)|))
      ensures buf[..] == Splice(old(buf[..]), 0, ReadResult(disk, volume, first, fo, count))
    {
      hide Capacity, Content, ChainOk, Chain, At, Position, Slice, Splice, ClustersFor, ReadResult, Clusters, Reading,
        NextCluster, FatSector, ContentFrom, Moved;
      ghost var chain := Chain(disk, volume, first, m);
      ghost var before := buf[..];
      var cluster: nat, inCluster: nat, remaining: nat := cluster0, inCluster0, count;
      ghost var j: nat := j0;
      bytesRead := 0;
      ReadingStarts(disk, volume, first, m, j, cluster, inCluster, fo, count, before);
      while remaining > 0 && cluster < END_OF_CHAIN
        invariant bytesRead + remaining == count && buf.Length == |before|
        invariant Reading(disk, volume, first, m, j, cluster, inCluster, fo, count, bytesRead, before, buf[..])
        decreases remaining
      {
        ReadingGoesOn(disk, volume, first, m, j, cluster, inCluster, fo, count, bytesRead, before, buf[..]);
        ghost var was := buf[..];
        var n: nat := ReadCluster(cluster, inCluster, buf, bytesRead, remaining, chain, j);
        ReadingStep(disk, volume, first, m, j, cluster, inCluster, fo, count, bytesRead, before, was, buf[..], n);
        bytesRead := bytesRead + n;
        remaining := remaining - n;
        inCluster := 0;
        cluster := Next(cluster);
        j := j + 1;
      }
      ReadingEnds(disk, volume, first, m, j, cluster, inCluster, fo, count, bytesRead, before, buf[..]);
    }

    /** The loop over the sectors of one cluster in `fat32_write`: each sector is read, patched and
        written back. */
    method WriteCluster(cluster: nat, inCluster: nat, buf: array<byte>, start: nat, count: nat,
                        ghost chain: seq<nat>, ghost j: nat) returns (moved: nat)
      requires Valid() && Clusters(disk, volume, chain) && Distinct(chain) && j < |chain| && chain[j] == cluster
      requires inCluster < volume.secPerCluster * 512 && start + count <= buf.Length
      requires buf != fat32_buf && cluster >= 2
      modifies this`disk, fat32_buf
      ensures moved == if count <= volume.secPerCluster * 512 - inCluster then count
                       else volume.secPerCluster * 512 - inCluster
      ensures Written(old(disk), disk, volume, chain, Capacity(volume, j) + inCluster, buf[start..start + moved])
    {
      hide Capacity, Content, Clusters, Splice, ContentFrom, ClusterToSector, InSectors, WritingSectors, Written,
        Distinct;
      ghost var before := disk;
      var remaining: nat := count;
      WriteSectorsStart(disk, volume, chain, j, inCluster, count, start, buf[..]);
      var sector: nat := (cluster - 2) * volume.secPerCluster + volume.firstDataSec;
      var sec: nat := inCluster / 512;
      var off: nat := inCluster % 512;
      moved := 0;
      while sec < volume.secPerCluster && remaining > 0
        invariant moved + remaining == count && Valid()
        invariant WritingSectors(before, disk, volume, chain, j, sec, off, inCluster, count, moved, start, buf[..])
        decreases remaining
      {
        WriteSectorsGoOn(before, disk, volume, chain, j, sec, off, inCluster, count, moved, start, buf[..]);
        ReadSector(sector + sec, fat32_buf);
        var n: nat := 512 - off;
        if n > remaining {
          n := remaining;
        }
        MemCpy(fat32_buf, off, buf, start + moved, n);
        WriteSectorsStep(before, disk, volume, chain, j, sec, off, inCluster, count, moved, start, buf[..], n);
        WriteSector(sector + sec);
        moved := moved + n;
        remaining := remaining - n;
        off := 0;
        sec := sec + 1;
      }
      WriteSectorsEnd(before, disk, volume, chain, j, sec, off, inCluster, count, moved, start, buf[..]);
    }

    /** `fat32_write` */
    method Write(file: File, buf: array<byte>, len: word) returns (bytesWritten: nat)
      requires Valid() && HasEntry(file) && Reachable(file, len) && Want(file, len) <= buf.Length
      requires Distinct(Touched(file, len))
      requires buf != fat32_buf && buf != fat32_table_buf
      modifies file, this`disk, fat32_buf, fat32_table_buf
      ensures bytesWritten == old(Count(file, len)) <= buf.Length
      ensures Effect(old(disk), disk, volume, old(Touched(file, len)), old(file.Offset()), buf[..bytesWritten])
      ensures file.cfo == old(file.cfo) + bytesWritten
    {
      ghost var first: nat, fo: nat, want: nat := file.cluster, file.Offset(), Want(file, len);
      bytesWritten := 0;
      var remaining: nat := len;
      var offset: nat := file.Offset();
      var clusterSize: nat := volume.secPerCluster * 512;
      var size := LookUpSize(file);
      if offset >= size {
        return 0;
      }
      if Wrap(offset + len) > size {
        remaining := size - offset;
      }
      DivNonNeg(offset, clusterSize);
      DivFacts(offset, clusterSize);
      var skip: nat, inCluster: nat := offset / clusterSize, offset % clusterSize;
      ghost var m: nat := ClustersFor(volume, fo + want);
      ChainFacts(disk, volume, first, m);
      SkipBound(volume, offset, remaining);
      hide Capacity, Content, ChainOk, Chain, At, Position, ClustersFor, Clusters, Distinct, Effect;
      var cluster: nat, j: nat := Skip(file.cluster, skip, m);
      Arrived(disk, volume, first, m, j, cluster, offset);
      bytesWritten := CopyIn(cluster, inCluster, buf, remaining, first, m, j, fo);
      file.cfo := file.cfo + bytesWritten;
    }

    /** The main loop of `fat32_write`. */
    method CopyIn(cluster0: nat, inCluster0: nat, buf: array<byte>, count: nat,
                  ghost first: nat, ghost m: nat, ghost j0: nat, ghost fo: nat) returns (bytesWritten: nat)
      requires Valid() && m == ClustersFor(volume, fo + count) && ChainOk(disk, volume, first, m)
      requires At(disk, volume, first, m, j0, cluster0)
      requires Position(volume, j0, cluster0, fo, 0, inCluster0, count) && count <= buf.Length
      requires Clusters(disk, volume, Chain(disk, volume, first, m)) && Distinct(Chain(disk, volume, first, m))
      requires buf != fat32_buf && buf != fat32_table_buf
      modifies this`disk, fat32_buf, fat32_table_buf
      ensures bytesWritten == Moved(fo, count, Capacity(volume, |old(Chain(disk, volume, first, m))|))
      ensures Effect(old(disk), disk, volume, old(Chain(disk, volume, first, m)), fo, buf[..bytesWritten])
    {
      hide Capacity, Content, ChainOk, Chain, At, Position, Splice, ClustersFor, Clusters, Writing, Written, Effect,
        Distinct, NextCluster, FatSector, Moved;
      ghost var chain := Chain(disk, volume, first, m);
      ghost var before := disk;
      var cluster: nat, inCluster: nat, remaining: nat := cluster0, inCluster0, count;
      ghost var j: nat := j0;
      bytesWritten := 0;
      WritingStarts(disk, volume, first, m, j, cluster, inCluster, fo, count, buf[..]);
      while remaining > 0 && cluster < END_OF_CHAIN
        invariant Valid() && bytesWritten + remaining == count
        invariant Writing(before, disk, volume, first, m, j, cluster, inCluster, fo, count, bytesWritten, buf[..])
        decreases remaining
      {
        WritingGoesOn(before, disk, volume, first, m, j, cluster, inCluster, fo, count, bytesWritten, buf[..]);
        ghost var was := disk;
        var n: nat := WriteCluster(cluster, inCluster, buf, bytesWritten, remaining, chain, j);
        WritingStep(before, was, disk, volume, first, m, j, cluster, inCluster, fo, count, bytesWritten, buf[..], n);
        bytesWritten := bytesWritten + n;
        remaining := remaining - n;
        inCluster := 0;
        cluster := Next(cluster);
        j := j + 1;
      }
      WritingEnds(before, disk, volume, first, m, j, cluster, inCluster, fo, count, bytesWritten, buf[..]);
    }
  }

  // ---------------------------------------------------------------- walking along a chain

  /** `cluster` is what follows the first `j` clusters of the chain from `first`, looked at up to `m`. */
  ghost predicate At(disk: Disk, vol: Volume, first: nat, m: nat, j: nat, cluster: nat) {
    && j <= m
    && ChainOk(disk, vol, first, m) && ChainOk(disk, vol, cluster, m - j)
    && j <= |Chain(disk, vol, first, m)|
    && Chain(disk, vol, cluster, m - j) == Chain(disk, vol, first, m)[j..]
  }

  lemma StepAlong(disk: Disk, vol: Volume, first: nat, m: nat, j: nat, cluster: nat)
    requires At(disk, vol, first, m, j, cluster) && j < m && cluster < END_OF_CHAIN
    ensures Readable(disk, vol, cluster)
    ensures j < |Chain(disk, vol, first, m)| && Chain(disk, vol, first, m)[j] == cluster
    ensures At(disk, vol, first, m, j + 1, NextCluster(disk, vol, cluster))
  {
    var rest := Chain(disk, vol, cluster, m - j);
    assert rest[0] == cluster && rest[1..] == Chain(disk, vol, NextCluster(disk, vol, cluster), m - j - 1);
    assert rest[1..] == Chain(disk, vol, first, m)[j + 1..];
  }

  /** Where a transfer stands: `moved` bytes are done and the next one lies `inCluster` bytes into
      the chain's cluster number `j`; or the chain has ended. */
  ghost predicate Position(vol: Volume, j: nat, cluster: nat, fo: nat, moved: nat, inCluster: nat, remaining: nat) {
    && (cluster < END_OF_CHAIN && remaining > 0 ==>
          inCluster < vol.secPerCluster * 512 && fo + moved == Capacity(vol, j) + inCluster)
    && (cluster >= END_OF_CHAIN && remaining > 0 ==>
          Capacity(vol, j) <= fo + moved && (moved > 0 ==> Capacity(vol, j) == fo + moved))
  }


  /** The clusters skipped are among those the transfer needs. */
  lemma SkipBound(vol: Volume, fo: nat, want: nat)
    requires vol.secPerCluster >= 1
    ensures fo / (vol.secPerCluster * 512) <= ClustersFor(vol, fo + want)
  {
    var q := fo / (vol.secPerCluster * 512);
    DivFacts(fo, vol.secPerCluster * 512);
    MulAssoc(q, vol.secPerCluster, 512);
    ClustersForIsEnough(vol, fo + want);
    if q > ClustersFor(vol, fo + want) {
      var m := ClustersFor(vol, fo + want);
      MulMonotone(m + 1, q, vol.secPerCluster * 512);
      MulAdd(m, 1, vol.secPerCluster * 512);
      MulAssoc(m, vol.secPerCluster, 512);
    }
  }

  /** After skipping, the transfer stands at its first byte, or the chain has ended before it. */
  lemma Arrived(disk: Disk, vol: Volume, first: nat, m: nat, j: nat, cluster: nat, fo: nat)
    requires vol.secPerCluster >= 1 && At(disk, vol, first, m, j, cluster)
    requires j <= fo / (vol.secPerCluster * 512)
    requires j == fo / (vol.secPerCluster * 512) || cluster >= END_OF_CHAIN
    ensures forall remaining :: Position(vol, j, cluster, fo, 0, fo % (vol.secPerCluster * 512), remaining)
  {
    var cs := vol.secPerCluster * 512;
    DivFacts(fo, cs);
    MulMonotone(j, fo / cs, cs);
    MulAssoc(j, vol.secPerCluster, 512);
  }

  /** While bytes are wanted and the chain goes on, the current cluster is one the transfer needs. */
  lemma Continue(disk: Disk, vol: Volume, first: nat, m: nat, j: nat, cluster: nat, fo: nat, want: nat, moved: nat,
                 inCluster: nat)
    requires vol.secPerCluster >= 1 && At(disk, vol, first, m, j, cluster) && m == ClustersFor(vol, fo + want)
    requires moved < want && cluster < END_OF_CHAIN && Position(vol, j, cluster, fo, moved, inCluster, want - moved)
    ensures j < m && Readable(disk, vol, cluster)
    ensures j < |Chain(disk, vol, first, m)| && Chain(disk, vol, first, m)[j] == cluster
    ensures At(disk, vol, first, m, j + 1, NextCluster(disk, vol, cluster))
    ensures inCluster < vol.secPerCluster * 512 && fo + moved == Capacity(vol, j) + inCluster
  {
    ClustersForIsEnough(vol, fo + want);
    StepAlong(disk, vol, first, m, j, cluster);
  }

  lemma Advance(vol: Volume, j: nat, next: nat, fo: nat, moved: nat, inCluster: nat, remaining: nat, n: nat)
    requires vol.secPerCluster >= 1 && remaining > 0
    requires inCluster < vol.secPerCluster * 512 && fo + moved == Capacity(vol, j) + inCluster
    requires n == if remaining <= vol.secPerCluster * 512 - inCluster then remaining
                  else vol.secPerCluster * 512 - inCluster
    ensures n > 0 && Position(vol, j + 1, next, fo, moved + n, 0, remaining - n)
  {
    MulAdd(j, 1, vol.secPerCluster);
  }

  lemma EmptySplice(content: seq<byte>, fo: nat, buf: seq<byte>)
    ensures Slice(content, fo, 0) == [] && Splice(buf, 0, []) == buf
  {}

  /** One more cluster's worth of bytes extends the slice read so far. */
  lemma AppendSlice(disk: Disk, vol: Volume, chain: seq<nat>, buf: seq<byte>, fo: nat, moved: nat, at: nat, n: nat)
    requires Clusters(disk, vol, chain) && at == fo + moved && at + n <= |Content(disk, vol, chain)|
    requires moved + n <= |buf|
    ensures var content := Content(disk, vol, chain);
            |Slice(content, fo, moved)| == moved && |Slice(content, fo, moved + n)| == moved + n
            && Splice(Splice(buf, 0, Slice(content, fo, moved)), moved, ContentFrom(disk, vol, chain, at, n))
            == Splice(buf, 0, Slice(content, fo, moved + n))
  {
    var content := Content(disk, vol, chain);
    hide Content, Slice, Splice, Clusters;
    SliceGrows(content, fo, moved, n);
    AppendSplice(buf, 0, Slice(content, fo, moved), content[at..at + n]);
  }

  lemma SliceGrows(content: seq<byte>, fo: nat, moved: nat, n: nat)
    requires fo + moved + n <= |content|
    ensures |Slice(content, fo, moved)| == moved && |Slice(content, fo, moved + n)| == moved + n
    ensures Slice(content, fo, moved) + content[fo + moved..fo + moved + n] == Slice(content, fo, moved + n)
  {}

  /** When the loop ends, all wanted bytes on the chain have been moved. */
  lemma Finished(disk: Disk, vol: Volume, first: nat, m: nat, j: nat, cluster: nat, fo: nat, want: nat, moved: nat,
                 inCluster: nat)
    requires vol.secPerCluster >= 1 && At(disk, vol, first, m, j, cluster) && m == ClustersFor(vol, fo + want)
    requires moved <= want && Position(vol, j, cluster, fo, moved, inCluster, want - moved)
    requires moved == want || cluster >= END_OF_CHAIN
    requires Clusters(disk, vol, Chain(disk, vol, first, m))
    requires moved > 0 ==> fo + moved <= |Content(disk, vol, Chain(disk, vol, first, m))|
    ensures moved == Moved(fo, want, Capacity(vol, |Chain(disk, vol, first, m)|))
    ensures ReadResult(disk, vol, first, fo, want) == Slice(Content(disk, vol, Chain(disk, vol, first, m)), fo, moved)
  {
    var chain := Chain(disk, vol, first, m);
    if cluster >= END_OF_CHAIN {
      assert chain[j..] == [];
      assert |chain| == j;
    }
    hide At, Clusters, Content, ClustersFor, ChainOk, Chain;
    SliceMoved(Content(disk, vol, chain), fo, want, moved);
  }

  lemma SliceMoved(content: seq<byte>, fo: nat, want: nat, moved: nat)
    ensures moved == Moved(fo, want, |content|) ==> Slice(content, fo, want) == Slice(content, fo, moved)
  {}

  // ---------------------------------------------------------------- sectors within the flat content

  lemma ClusterEnd(vol: Volume, j: nat, n: nat)
    requires j < n
    ensures (j * vol.secPerCluster + vol.secPerCluster) * 512 <= Capacity(vol, n)
  {
    MulMonotone(j + 1, n, vol.secPerCluster);
    MulAdd(j, 1, vol.secPerCluster);
  }

  /** The sectors of the j-th cluster of a chain, within the flat content. */
  lemma ClusterSector(disk: Disk, vol: Volume, chain: seq<nat>, j: nat, sec: nat)
    requires Clusters(disk, vol, chain) && j < |chain| && sec < vol.secPerCluster
    ensures chain[j] >= 2 && ClusterToSector(vol, chain[j]) + sec < |disk|
    ensures SectorOf(vol, j, sec) * 512 + 512 <= |Content(disk, vol, chain)|
    ensures disk[ClusterToSector(vol, chain[j]) + sec]
         == Content(disk, vol, chain)[SectorOf(vol, j, sec) * 512..SectorOf(vol, j, sec) * 512 + 512]
  {
    assert Readable(disk, vol, chain[j]);
    SectorIndex(vol, j, sec, |chain|);
    SectorIsSlice(disk, vol, chain, SectorOf(vol, j, sec));
  }

  lemma SectorPart(content: seq<byte>, at: nat, sector: seq<byte>, off: nat, n: nat)
    requires |sector| == 512 && at + 512 <= |content| && off + n <= 512
    requires sector == content[at..at + 512]
    ensures sector[off..off + n] == content[at + off..at + off + n]
  {
    forall i | off <= i < off + n
      ensures sector[i] == content[at + i]
    {}
  }

  /** Copying part of a sector extends what has been read of the flat content. */
  lemma AppendSector(disk: Disk, vol: Volume, chain: seq<nat>, base: nat, moved: nat,
                     buf: seq<byte>, start: nat, sector: seq<byte>, at: nat, off: nat, n: nat)
    requires Clusters(disk, vol, chain) && |sector| == 512 && at + 512 <= |Content(disk, vol, chain)|
    requires sector == Content(disk, vol, chain)[at..at + 512]
    requires base + moved == at + off && off + n <= 512 && start + moved + n <= |buf|
    ensures |Splice(buf, start, ContentFrom(disk, vol, chain, base, moved))| == |buf|
    ensures Splice(Splice(buf, start, ContentFrom(disk, vol, chain, base, moved)), start + moved, sector[off..off + n])
         == Splice(buf, start, ContentFrom(disk, vol, chain, base, moved + n))
  {
    var content := Content(disk, vol, chain);
    SectorPart(content, at, sector, off, n);
    hide Capacity, Content, Clusters;
    AppendSplice(buf, start, content[base..base + moved], sector[off..off + n]);
    assert content[base..base + moved] + content[base + moved..base + moved + n] == content[base..base + (moved + n)];
  }

  // ---------------------------------------------------------------- the sectors of one cluster, step by step

  /** Where a transfer stands within the chain's j-th cluster: at byte `off` of its sector `sec`. */
  ghost predicate InSectors(disk: Disk, vol: Volume, chain: seq<nat>, j: nat, sec: nat, off: nat,
                            inCluster: nat, count: nat, moved: nat) {
    && Clusters(disk, vol, chain) && j < |chain| && inCluster < vol.secPerCluster * 512
    && sec <= vol.secPerCluster && off < 512 && moved <= count
    && (moved < count ==> inCluster + moved == sec * 512 + off && (sec == vol.secPerCluster ==> off == 0))
    && inCluster + moved <= vol.secPerCluster * 512
  }

  ghost predicate ReadingSectors(disk: Disk, vol: Volume, chain: seq<nat>, j: nat, sec: nat, off: nat, inCluster: nat,
                                 count: nat, moved: nat, before: seq<byte>, start: nat, buf: seq<byte>) {
    && InSectors(disk, vol, chain, j, sec, off, inCluster, count, moved)
    && start + count <= |before|
    && Capacity(vol, j) + inCluster + moved <= |Content(disk, vol, chain)|
    && buf == Splice(before, start, ContentFrom(disk, vol, chain, Capacity(vol, j) + inCluster, moved))
  }

  lemma SectorsStart(disk: Disk, vol: Volume, chain: seq<nat>, j: nat, inCluster: nat, count: nat,
                     before: seq<byte>, start: nat)
    requires Clusters(disk, vol, chain) && j < |chain| && chain[j] >= 2
    requires inCluster < vol.secPerCluster * 512 && start + count <= |before|
    ensures (chain[j] - 2) * vol.secPerCluster + vol.firstDataSec == ClusterToSector(vol, chain[j])
    ensures ReadingSectors(disk, vol, chain, j, inCluster / 512, inCluster % 512, inCluster, count, 0, before, start,
            before)
  {
    ClusterEnd(vol, j, |chain|);
    hide Capacity, Content, Clusters, Splice;
    assert ContentFrom(disk, vol, chain, Capacity(vol, j) + inCluster, 0) == [];
    SpliceNothing(before, start);
  }

  lemma SpliceNothing(bytes: seq<byte>, fo: nat)
    requires fo <= |bytes|
    ensures Splice(bytes, fo, []) == bytes
  {}

  lemma SectorsGoOn(disk: Disk, vol: Volume, chain: seq<nat>, j: nat, sec: nat, off: nat,
                    inCluster: nat, count: nat, moved: nat)
    requires InSectors(disk, vol, chain, j, sec, off, inCluster, count, moved) && sec < vol.secPerCluster
    ensures off < 512 && chain[j] >= 2 && ClusterToSector(vol, chain[j]) + sec < |disk|
  {
    ClusterSector(disk, vol, chain, j, sec);
  }

  lemma ReadSectorsGoOn(disk: Disk, vol: Volume, chain: seq<nat>, j: nat, sec: nat, off: nat, inCluster: nat,
                        count: nat, moved: nat, before: seq<byte>, start: nat, buf: seq<byte>)
    requires ReadingSectors(disk, vol, chain, j, sec, off, inCluster, count, moved, before, start, buf)
    requires sec < vol.secPerCluster
    ensures off < 512 && j < |chain| && chain[j] >= 2 && ClusterToSector(vol, chain[j]) + sec < |disk|
  {
    SectorsGoOn(disk, vol, chain, j, sec, off, inCluster, count, moved);
  }

  lemma ReadSectorsEnd(disk: Disk, vol: Volume, chain: seq<nat>, j: nat, sec: nat, off: nat, inCluster: nat,
                       count: nat, moved: nat, before: seq<byte>, start: nat, buf: seq<byte>)
    requires ReadingSectors(disk, vol, chain, j, sec, off, inCluster, count, moved, before, start, buf)
    requires sec >= vol.secPerCluster || moved == count
    ensures moved == if count <= vol.secPerCluster * 512 - inCluster then count else vol.secPerCluster * 512 - inCluster
    ensures Clusters(disk, vol, chain)
    ensures Capacity(vol, j) + inCluster + moved <= |Content(disk, vol, chain)|
    ensures start + moved <= |before|
    ensures buf == Splice(before, start, ContentFrom(disk, vol, chain, Capacity(vol, j) + inCluster, moved))
  {}

  /** Moving `n` bytes within a sector. */
  lemma InSectorsStep(disk: Disk, vol: Volume, chain: seq<nat>, j: nat, sec: nat, off: nat,
                      inCluster: nat, count: nat, moved: nat, n: nat)
    requires InSectors(disk, vol, chain, j, sec, off, inCluster, count, moved) && sec < vol.secPerCluster
             && moved < count
    requires n == if 512 - off > count - moved then count - moved else 512 - off
    ensures 0 < n <= count - moved
    ensures InSectors(disk, vol, chain, j, sec + 1, 0, inCluster, count, moved + n)
    ensures Capacity(vol, j) + inCluster + moved == SectorOf(vol, j, sec) * 512 + off
    ensures Capacity(vol, j) + inCluster + moved + n <= |Content(disk, vol, chain)|
  {
    ClusterEnd(vol, j, |chain|);
  }

  lemma ReadSectorsStep(disk: Disk, vol: Volume, chain: seq<nat>, j: nat, sec: nat, off: nat, inCluster: nat,
                        count: nat, moved: nat, before: seq<byte>, start: nat, was: seq<byte>, buf: seq<byte>, n: nat)
    requires ReadingSectors(disk, vol, chain, j, sec, off, inCluster, count, moved, before, start, was)
    requires sec < vol.secPerCluster && moved < count
    requires n == if 512 - off > count - moved then count - moved else 512 - off
    requires off < 512 && j < |chain| && chain[j] >= 2 && ClusterToSector(vol, chain[j]) + sec < |disk|
    requires start + moved + n <= |was|
    requires buf == Splice(was, start + moved, disk[ClusterToSector(vol, chain[j]) + sec][off..off + n])
    ensures 0 < n <= count - moved
    ensures ReadingSectors(disk, vol, chain, j, sec + 1, 0, inCluster, count, moved + n, before, start, buf)
  {
    InSectorsStep(disk, vol, chain, j, sec, off, inCluster, count, moved, n);
    ClusterSector(disk, vol, chain, j, sec);
    hide Capacity, Content, Clusters, Splice, ContentFrom, ClusterToSector, InSectors, SectorOf;
    AppendSector(disk, vol, chain, Capacity(vol, j) + inCluster, moved, before, start,
                 disk[ClusterToSector(vol, chain[j]) + sec], SectorOf(vol, j, sec) * 512, off, n);
  }

  ghost predicate WritingSectors(before: Disk, disk: Disk, vol: Volume, chain: seq<nat>, j: nat, sec: nat, off: nat,
                                 inCluster: nat, count: nat, moved: nat, start: nat, buf: seq<byte>) {
    && InSectors(disk, vol, chain, j, sec, off, inCluster, count, moved)
    && start + count <= |buf| && Distinct(chain) && Clusters(before, vol, chain)
    && Written(before, disk, vol, chain, Capacity(vol, j) + inCluster, buf[start..start + moved])
  }

  lemma WriteSectorsStart(disk: Disk, vol: Volume, chain: seq<nat>, j: nat, inCluster: nat, count: nat,
                          start: nat, buf: seq<byte>)
    requires Clusters(disk, vol, chain) && Distinct(chain) && j < |chain| && chain[j] >= 2
    requires inCluster < vol.secPerCluster * 512 && start + count <= |buf|
    ensures (chain[j] - 2) * vol.secPerCluster + vol.firstDataSec == ClusterToSector(vol, chain[j])
    ensures WritingSectors(disk, disk, vol, chain, j, inCluster / 512, inCluster % 512, inCluster, count, 0, start, buf)
  {
    ClusterEnd(vol, j, |chain|);
    assert buf[start..start + 0] == [];
    NothingWritten(disk, vol, chain, Capacity(vol, j) + inCluster);
  }

  lemma WriteSectorsGoOn(before: Disk, disk: Disk, vol: Volume, chain: seq<nat>, j: nat, sec: nat, off: nat,
                         inCluster: nat, count: nat, moved: nat, start: nat, buf: seq<byte>)
    requires WritingSectors(before, disk, vol, chain, j, sec, off, inCluster, count, moved, start, buf)
    requires sec < vol.secPerCluster
    ensures off < 512 && j < |chain| && chain[j] >= 2 && ClusterToSector(vol, chain[j]) + sec < |disk|
  {
    SectorsGoOn(disk, vol, chain, j, sec, off, inCluster, count, moved);
  }

  lemma WriteSectorsStep(before: Disk, disk: Disk, vol: Volume, chain: seq<nat>, j: nat, sec: nat, off: nat,
                         inCluster: nat, count: nat, moved: nat, start: nat, buf: seq<byte>, n: nat)
    requires WritingSectors(before, disk, vol, chain, j, sec, off, inCluster, count, moved, start, buf)
    requires sec < vol.secPerCluster && moved < count
    requires n == if 512 - off > count - moved then count - moved else 512 - off
    requires off < 512 && j < |chain| && chain[j] >= 2 && ClusterToSector(vol, chain[j]) + sec < |disk|
    requires start + moved + n <= |buf|
    ensures 0 < n <= count - moved
    ensures var s := ClusterToSector(vol, chain[j]) + sec;
            WritingSectors(before, disk[s := Splice(disk[s], off, buf[start + moved..start + moved + n])], vol, chain,
                           j, sec + 1, 0, inCluster, count, moved + n, start, buf)
  {
    InSectorsStep(disk, vol, chain, j, sec, off, inCluster, count, moved, n);
    var base, s := Capacity(vol, j) + inCluster, ClusterToSector(vol, chain[j]) + sec;
    var more := buf[start + moved..start + moved + n];
    WriteStep(before, disk, vol, chain, base, buf[start..start + moved], j, sec, off, more);
    assert buf[start..start + moved] + more == buf[start..start + (moved + n)];
    var after := disk[s := Splice(disk[s], off, more)];
    WrittenFacts(before, after, vol, chain, base, buf[start..start + (moved + n)]);
  }

  lemma WriteSectorsEnd(before: Disk, disk: Disk, vol: Volume, chain: seq<nat>, j: nat, sec: nat, off: nat,
                        inCluster: nat, count: nat, moved: nat, start: nat, buf: seq<byte>)
    requires WritingSectors(before, disk, vol, chain, j, sec, off, inCluster, count, moved, start, buf)
    requires sec >= vol.secPerCluster || moved == count
    ensures moved == if count <= vol.secPerCluster * 512 - inCluster then count else vol.secPerCluster * 512 - inCluster
    ensures start + moved <= |buf|
    ensures Written(before, disk, vol, chain, Capacity(vol, j) + inCluster, buf[start..start + moved])
  {}

  // ---------------------------------------------------------------- the read loop, step by step

  /** The read loop's state: `moved` bytes are in the buffer, which was `before`. */
  ghost predicate Reading(disk: Disk, vol: Volume, first: nat, m: nat, j: nat, cluster: nat, inCluster: nat,
                          fo: nat, count: nat, moved: nat, before: seq<byte>, buf: seq<byte>) {
    && vol.secPerCluster >= 1 && moved <= count <= |before|
    && At(disk, vol, first, m, j, cluster) && m == ClustersFor(vol, fo + count)
    && Clusters(disk, vol, Chain(disk, vol, first, m))
    && Position(vol, j, cluster, fo, moved, inCluster, count - moved)
    && (moved > 0 ==> fo + moved <= |Content(disk, vol, Chain(disk, vol, first, m))|)
    && |Slice(Content(disk, vol, Chain(disk, vol, first, m)), fo, moved)| == moved
    && buf == Splice(before, 0, Slice(Content(disk, vol, Chain(disk, vol, first, m)), fo, moved))
  }

  lemma ReadingStarts(disk: Disk, vol: Volume, first: nat, m: nat, j: nat, cluster: nat, inCluster: nat,
                      fo: nat, count: nat, before: seq<byte>)
    requires vol.secPerCluster >= 1 && count <= |before|
    requires At(disk, vol, first, m, j, cluster) && m == ClustersFor(vol, fo + count)
    requires Clusters(disk, vol, Chain(disk, vol, first, m))
    requires Position(vol, j, cluster, fo, 0, inCluster, count)
    ensures Reading(disk, vol, first, m, j, cluster, inCluster, fo, count, 0, before, before)
  {
    EmptySplice(Content(disk, vol, Chain(disk, vol, first, m)), fo, before);
  }

  lemma ReadingGoesOn(disk: Disk, vol: Volume, first: nat, m: nat, j: nat, cluster: nat, inCluster: nat,
                      fo: nat, count: nat, moved: nat, before: seq<byte>, buf: seq<byte>)
    requires Reading(disk, vol, first, m, j, cluster, inCluster, fo, count, moved, before, buf)
    requires moved < count && cluster < END_OF_CHAIN
    ensures ChainOk(disk, vol, first, m) && Clusters(disk, vol, Chain(disk, vol, first, m))
    ensures j < |Chain(disk, vol, first, m)| && Chain(disk, vol, first, m)[j] == cluster && cluster >= 2
    ensures inCluster < vol.secPerCluster * 512 && FatSector(vol, cluster) < |disk|
  {
    Continue(disk, vol, first, m, j, cluster, fo, count, moved, inCluster);
  }

  lemma ReadingStep(disk: Disk, vol: Volume, first: nat, m: nat, j: nat, cluster: nat, inCluster: nat,
                    fo: nat, count: nat, moved: nat, before: seq<byte>, was: seq<byte>, buf: seq<byte>, n: nat)
    requires Reading(disk, vol, first, m, j, cluster, inCluster, fo, count, moved, before, was)
    requires moved < count && cluster < END_OF_CHAIN
    requires n == if count - moved <= vol.secPerCluster * 512 - inCluster then count - moved
                  else vol.secPerCluster * 512 - inCluster
    requires ChainOk(disk, vol, first, m) && Clusters(disk, vol, Chain(disk, vol, first, m))
    requires Capacity(vol, j) + inCluster + n <= |Content(disk, vol, Chain(disk, vol, first, m))|
    requires moved + n <= |was|
    requires buf
          == Splice(was, moved, ContentFrom(disk, vol, Chain(disk, vol, first, m), Capacity(vol, j) + inCluster, n))
    ensures FatSector(vol, cluster) < |disk| && 0 < n <= count - moved
    ensures Reading(disk, vol, first, m, j + 1, NextCluster(disk, vol, cluster), 0, fo, count, moved + n, before, buf)
  {
    hide Capacity, Content, ChainOk, Chain, Slice, Splice, ClustersFor, Clusters, ContentFrom, At, Position;
    Continue(disk, vol, first, m, j, cluster, fo, count, moved, inCluster);
    Advance(vol, j, NextCluster(disk, vol, cluster), fo, moved, inCluster, count - moved, n);
    AppendSlice(disk, vol, Chain(disk, vol, first, m), before, fo, moved, Capacity(vol, j) + inCluster, n);
  }

  lemma ReadingEnds(disk: Disk, vol: Volume, first: nat, m: nat, j: nat, cluster: nat, inCluster: nat,
                    fo: nat, count: nat, moved: nat, before: seq<byte>, buf: seq<byte>)
    requires Reading(disk, vol, first, m, j, cluster, inCluster, fo, count, moved, before, buf)
    requires moved == count || cluster >= END_OF_CHAIN
    requires vol.secPerCluster >= 1 && ChainOk(disk, vol, first, m) && m == ClustersFor(vol, fo + count)
    ensures moved == Moved(fo, count, Capacity(vol, |Chain(disk, vol, first, m)|))
    ensures |ReadResult(disk, vol, first, fo, count)| == moved <= |before|
    ensures buf == Splice(before, 0, ReadResult(disk, vol, first, fo, count))
  {
    Finished(disk, vol, first, m, j, cluster, fo, count, moved, inCluster);
  }

  // ---------------------------------------------------------------- the write loop, step by step

  /** The write loop's state: the first `moved` bytes of the buffer are on the disk, which was `before`. */
  ghost predicate Writing(before: Disk, disk: Disk, vol: Volume, first: nat, m: nat, j: nat, cluster: nat,
                          inCluster: nat, fo: nat, count: nat, moved: nat, buf: seq<byte>) {
    && vol.secPerCluster >= 1 && moved <= count <= |buf|
    && At(disk, vol, first, m, j, cluster) && m == ClustersFor(vol, fo + count)
    && ChainOk(before, vol, first, m) && Chain(before, vol, first, m) == Chain(disk, vol, first, m)
    && Clusters(disk, vol, Chain(disk, vol, first, m)) && Distinct(Chain(disk, vol, first, m))
    && Position(vol, j, cluster, fo, moved, inCluster, count - moved)
    && (moved > 0 ==> fo + moved <= |Content(disk, vol, Chain(disk, vol, first, m))|)
    && Effect(before, disk, vol, Chain(disk, vol, first, m), fo, buf[..moved])
  }

  lemma WritingStarts(disk: Disk, vol: Volume, first: nat, m: nat, j: nat, cluster: nat, inCluster: nat,
                      fo: nat, count: nat, buf: seq<byte>)
    requires vol.secPerCluster >= 1 && count <= |buf|
    requires At(disk, vol, first, m, j, cluster) && m == ClustersFor(vol, fo + count)
    requires Clusters(disk, vol, Chain(disk, vol, first, m)) && Distinct(Chain(disk, vol, first, m))
    requires Position(vol, j, cluster, fo, 0, inCluster, count)
    ensures Writing(disk, disk, vol, first, m, j, cluster, inCluster, fo, count, 0, buf)
  {}

  lemma WritingGoesOn(before: Disk, disk: Disk, vol: Volume, first: nat, m: nat, j: nat, cluster: nat, inCluster: nat,
                      fo: nat, count: nat, moved: nat, buf: seq<byte>)
    requires Writing(before, disk, vol, first, m, j, cluster, inCluster, fo, count, moved, buf)
    requires moved < count && cluster < END_OF_CHAIN
    ensures ChainOk(disk, vol, first, m) && ChainOk(before, vol, first, m)
    ensures Clusters(disk, vol, Chain(before, vol, first, m)) && Distinct(Chain(before, vol, first, m))
    ensures j < |Chain(before, vol, first, m)| && Chain(before, vol, first, m)[j] == cluster && cluster >= 2
    ensures inCluster < vol.secPerCluster * 512 && FatSector(vol, cluster) < |disk|
  {
    Continue(disk, vol, first, m, j, cluster, fo, count, moved, inCluster);
  }

  lemma WritingStep(before: Disk, was: Disk, disk: Disk, vol: Volume, first: nat, m: nat, j: nat, cluster: nat,
                    inCluster: nat, fo: nat, count: nat, moved: nat, buf: seq<byte>, n: nat)
    requires Writing(before, was, vol, first, m, j, cluster, inCluster, fo, count, moved, buf)
    requires moved < count && cluster < END_OF_CHAIN
    requires n == if count - moved <= vol.secPerCluster * 512 - inCluster then count - moved
                  else vol.secPerCluster * 512 - inCluster
    requires ChainOk(before, vol, first, m) && moved + n <= |buf|
    requires Written(was, disk, vol, Chain(before, vol, first, m), Capacity(vol, j) + inCluster, buf[moved..moved + n])
    ensures FatSector(vol, cluster) < |disk| && 0 < n <= count - moved
    ensures Writing(before, disk, vol, first, m, j + 1, NextCluster(disk, vol, cluster), 0, fo, count, moved + n, buf)
  {
    hide Capacity, Content, ChainOk, Chain, ClustersFor, Clusters, At, Position, Written, Effect, Distinct;
    Continue(was, vol, first, m, j, cluster, fo, count, moved, inCluster);
    var chain, at, part := Chain(before, vol, first, m), Capacity(vol, j) + inCluster, buf[moved..moved + n];
    WrittenFacts(was, disk, vol, chain, at, part);
    AtAfterWrite(was, disk, vol, chain, at, part, first, m, j, cluster);
    Advance(vol, j, NextCluster(disk, vol, cluster), fo, moved, inCluster, count - moved, n);
    AppendEffect(before, was, disk, vol, chain, fo, buf[..moved], part);
    assert buf[..moved] + part == buf[..moved + n];
  }

  lemma WritingEnds(before: Disk, disk: Disk, vol: Volume, first: nat, m: nat, j: nat, cluster: nat, inCluster: nat,
                    fo: nat, count: nat, moved: nat, buf: seq<byte>)
    requires Writing(before, disk, vol, first, m, j, cluster, inCluster, fo, count, moved, buf)
    requires moved == count || cluster >= END_OF_CHAIN
    ensures vol.secPerCluster >= 1 && ChainOk(before, vol, first, m) && moved <= |buf|
    ensures moved == Moved(fo, count, Capacity(vol, |Chain(before, vol, first, m)|))
    ensures Effect(before, disk, vol, Chain(before, vol, first, m), fo, buf[..moved])
  {
    Finished(disk, vol, first, m, j, cluster, fo, count, moved, inCluster);
  }

  // ---------------------------------------------------------------- writing

  /** What a write does to the disk.  Moving no bytes changes nothing. */
  ghost predicate Effect(disk: Disk, after: Disk, vol: Volume, chain: seq<nat>, fo: nat, data: seq<byte>) {
    if data == [] then after == disk else Written(disk, after, vol, chain, fo, data)
  }

  lemma NothingWritten(disk: Disk, vol: Volume, chain: seq<nat>, fo: nat)
    requires Clusters(disk, vol, chain) && fo <= |Content(disk, vol, chain)|
    ensures Written(disk, disk, vol, chain, fo, [])
  {}

  lemma WrittenFacts(disk: Disk, after: Disk, vol: Volume, chain: seq<nat>, fo: nat, data: seq<byte>)
    requires Written(disk, after, vol, chain, fo, data)
    ensures |after| == |disk| && Clusters(disk, vol, chain) && Clusters(after, vol, chain)
    ensures fo + |data| <= |Content(after, vol, chain)|
  {}

  /** Patching one more sector of the j-th cluster extends what has been written. */
  lemma WriteStep(disk: Disk, now: Disk, vol: Volume, chain: seq<nat>, fo: nat, done: seq<byte>,
                  j: nat, sec: nat, off: nat, more: seq<byte>)
    requires Written(disk, now, vol, chain, fo, done) && Clusters(disk, vol, chain) && Distinct(chain)
    requires j < |chain| && sec < vol.secPerCluster && off + |more| <= 512
    requires chain[j] >= 2 && ClusterToSector(vol, chain[j]) + sec < |now|
    requires fo + |done| == SectorOf(vol, j, sec) * 512 + off
    ensures var s := ClusterToSector(vol, chain[j]) + sec;
            Written(disk, now[s := Splice(now[s], off, more)], vol, chain, fo, done + more)
  {
    var k := SectorOf(vol, j, sec);
    SectorIndex(vol, j, sec, |chain|);
    var s := ClusterToSector(vol, chain[j]) + sec;
    SectorAtOnDisk(now, vol, chain, k);
    assert s == SectorAt(vol, chain, k);
    var data := Splice(now[s], off, more);
    SectorWrite(now, vol, chain, k, data);
    SectorIsSlice(now, vol, chain, k);
    SectorAtInChain(disk, vol, chain, k);
    hide SectorAt, Distinct, ClusterToSector, Content, SectorOf, Capacity;
    SpliceStep(Content(disk, vol, chain), fo, done, more, k, off);
  }

  /** A write leaves the walk along the chain where it was. */
  lemma AtAfterWrite(disk: Disk, after: Disk, vol: Volume, chain: seq<nat>, fo: nat, data: seq<byte>,
                     first: nat, m: nat, j: nat, cluster: nat)
    requires Written(disk, after, vol, chain, fo, data) && At(disk, vol, first, m, j, cluster)
    requires Readable(disk, vol, cluster) && At(disk, vol, first, m, j + 1, NextCluster(disk, vol, cluster))
    ensures Readable(after, vol, cluster) && NextCluster(after, vol, cluster) == NextCluster(disk, vol, cluster)
    ensures At(after, vol, first, m, j + 1, NextCluster(after, vol, cluster))
    ensures Chain(after, vol, first, m) == Chain(disk, vol, first, m)
  {
    var next := SameNext(disk, after, vol, chain, fo, data, cluster);
    hide Written, Chain, ChainOk, NextCluster, Readable;
    WriteKeepsChains(disk, after, vol, chain, fo, data, first, m);
    WriteKeepsChains(disk, after, vol, chain, fo, data, next, m - (j + 1));
  }

  lemma SameNext(disk: Disk, after: Disk, vol: Volume, chain: seq<nat>, fo: nat, data: seq<byte>, cluster: nat)
    returns (next: nat)
    requires Written(disk, after, vol, chain, fo, data) && Readable(disk, vol, cluster)
    ensures Readable(after, vol, cluster) && next == NextCluster(after, vol, cluster) == NextCluster(disk, vol, cluster)
  {
    hide Content, Splice, InChain, Clusters;
    FatSectorNotInChain(disk, vol, chain, FatSector(vol, cluster));
    next := NextCluster(disk, vol, cluster);
  }

  /** Two writes in a row are one. */
  lemma AppendEffect(disk: Disk, mid: Disk, after: Disk, vol: Volume, chain: seq<nat>, fo: nat, a: seq<byte>,
                     b: seq<byte>)
    requires Effect(disk, mid, vol, chain, fo, a) && Written(mid, after, vol, chain, fo + |a|, b) && b != []
    ensures Effect(disk, after, vol, chain, fo, a + b)
  {
    if a == [] {
      assert a + b == b;
    } else {
      AppendSplice(Content(disk, vol, chain), fo, a, b);
    }
  }

  // ---------------------------------------------------------------- what a write means for the file

  /** The recorded size survives a write that does not touch the directory's cluster. */
  lemma WriteKeepsSize(disk: Disk, after: Disk, vol: Volume, chain: seq<nat>, fo: nat, data: seq<byte>,
                       dirCluster: nat, dirIndex: nat)
    requires Effect(disk, after, vol, chain, fo, data) && vol.secPerCluster >= 1
    requires dirCluster >= 2 && ClusterToSector(vol, dirCluster) < |disk| && dirIndex < 16 && dirCluster !in chain
    ensures |after| == |disk| && FileSize(after, vol, dirCluster, dirIndex) == FileSize(disk, vol, dirCluster, dirIndex)
  {
    if data != [] {
      OtherClusterNotInChain(disk, vol, chain, dirCluster, ClusterToSector(vol, dirCluster));
    }
  }

  /** A write leaves every file's chain alone and splices the written file's bytes: what lies outside
      the written range, in whichever cluster, stays. */
  lemma FileAfterWrite(disk: Disk, after: Disk, vol: Volume, c: nat, fo: nat, want: nat, size: nat, data: seq<byte>)
    requires vol.secPerCluster >= 1 && fo + want <= size
    requires ChainOk(disk, vol, c, ClustersFor(vol, size)) && ChainOk(disk, vol, c, ClustersFor(vol, fo + want))
    requires Distinct(Chain(disk, vol, c, ClustersFor(vol, size))) && |data| <= want
    requires Effect(disk, after, vol, Chain(disk, vol, c, ClustersFor(vol, fo + want)), fo, data)
    ensures ChainOk(after, vol, c, ClustersFor(vol, size))
    ensures Chain(after, vol, c, ClustersFor(vol, size)) == Chain(disk, vol, c, ClustersFor(vol, size))
    ensures data == [] ==> FileBytes(after, vol, c, size) == FileBytes(disk, vol, c, size)
    ensures data != [] ==> fo + |data| <= |FileBytes(disk, vol, c, size)|
    ensures data != [] ==> FileBytes(after, vol, c, size) == Splice(FileBytes(disk, vol, c, size), fo, data)
  {
    if data != [] {
      var m, n := ClustersFor(vol, fo + want), ClustersFor(vol, size);
      ClustersForMonotone(vol, fo + want, size);
      ChainPrefix(disk, vol, c, m, n);
      ChainFacts(disk, vol, c, n);
      var head, full := Chain(disk, vol, c, m), Chain(disk, vol, c, n);
      WriteKeepsChains(disk, after, vol, head, fo, data, c, n);
      WriteUpdatesFile(disk, after, vol, full, |head|, fo, data);
      hide ChainOk, Chain, Content, Clusters, ClustersFor, Written, Distinct;
      CutSplice(Content(disk, vol, full), size, fo, data);
    }
  }

  lemma CutSplice(bytes: seq<byte>, size: nat, fo: nat, data: seq<byte>)
    requires fo + |data| <= |bytes| && fo + |data| <= size
    ensures |Splice(bytes, fo, data)| == |bytes|
    ensures (if |bytes| <= size then Splice(bytes, fo, data) else Splice(bytes, fo, data)[..size])
         == Splice(if |bytes| <= size then bytes else bytes[..size], fo, data)
  {}

  /** Writing, seeking back and reading returns the bytes written. */
  lemma WriteThenRead(disk: Disk, after: Disk, vol: Volume, c: nat, fo: nat, want: nat, size: nat, data: seq<byte>)
    requires vol.secPerCluster >= 1 && fo + want <= size
    requires ChainOk(disk, vol, c, ClustersFor(vol, size)) && ChainOk(disk, vol, c, ClustersFor(vol, fo + want))
    requires Distinct(Chain(disk, vol, c, ClustersFor(vol, size))) && 0 < |data| <= want
    requires Effect(disk, after, vol, Chain(disk, vol, c, ClustersFor(vol, fo + want)), fo, data)
    ensures ChainOk(after, vol, c, ClustersFor(vol, fo + |data|))
    ensures ReadResult(after, vol, c, fo, |data|) == data
  {
    FileAfterWrite(disk, after, vol, c, fo, want, size, data);
    ReadIsFileSlice(after, vol, c, fo, |data|, size);
    ReadBack(FileBytes(disk, vol, c, size), fo, data);
  }

  /** A file that is all on the device, in distinct clusters, is ready for a transfer of any length. */
  lemma ReadyForTransfer(disk: Disk, vol: Volume, c: nat, fo: word, len: word, size: nat)
    requires vol.secPerCluster >= 1 && size < WORD && fo + len < WORD && fo < size
    requires ChainOk(disk, vol, c, ClustersFor(vol, size)) && Distinct(Chain(disk, vol, c, ClustersFor(vol, size)))
    ensures var m := ClustersFor(vol, fo + Clamp(fo, len, size));
            fo + Clamp(fo, len, size) <= size && ChainOk(disk, vol, c, m) && Distinct(Chain(disk, vol, c, m))
  {
    var m, n := ClustersFor(vol, fo + Clamp(fo, len, size)), ClustersFor(vol, size);
    ClustersForMonotone(vol, fo + Clamp(fo, len, size), size);
    ChainPrefix(disk, vol, c, m, n);
    hide Chain, ChainOk, ClustersFor;
  }

  /** `WriteThenRead` in terms of what the two calls ask for. */
  lemma WrittenIsRead(disk: Disk, after: Disk, vol: Volume, c: nat, fo: word, len: word, size: nat, data: seq<byte>)
    requires vol.secPerCluster >= 1 && size < WORD && fo + len < WORD && fo < size
    requires ChainOk(disk, vol, c, ClustersFor(vol, size)) && Distinct(Chain(disk, vol, c, ClustersFor(vol, size)))
    requires ChainOk(disk, vol, c, ClustersFor(vol, fo + Clamp(fo, len, size))) && |data| <= Clamp(fo, len, size)
    requires Effect(disk, after, vol, Chain(disk, vol, c, ClustersFor(vol, fo + Clamp(fo, len, size))), fo, data)
    ensures ChainOk(after, vol, c, ClustersFor(vol, fo + Clamp(fo, |data|, size)))
    ensures ReadAt(after, vol, c, fo, |data|, size) == data
  {
    hide ChainOk, Chain, ClustersFor, Distinct;
    assert Clamp(fo, |data|, size) == |data|;
    FileAfterWrite(disk, after, vol, c, fo, Clamp(fo, len, size), size, data);
    if data == [] {
      ReadAtIsFileSlice(after, vol, c, fo, 0, size);
      EmptySplice(FileBytes(after, vol, c, size), fo, []);
    } else {
      WriteThenRead(disk, after, vol, c, fo, Clamp(fo, len, size), size, data);
    }
  }

  /** As many bytes are moved as if the whole chain had been looked at. */
  lemma MovedOnWholeChain(disk: Disk, vol: Volume, c: nat, fo: nat, want: nat, size: nat)
    requires vol.secPerCluster >= 1 && fo + want <= size && ChainOk(disk, vol, c, ClustersFor(vol, size))
    ensures ChainOk(disk, vol, c, ClustersFor(vol, fo + want))
    ensures Moved(fo, want, Capacity(vol, |Chain(disk, vol, c, ClustersFor(vol, fo + want))|))
         == Moved(fo, want, Capacity(vol, |Chain(disk, vol, c, ClustersFor(vol, size))|))
  {
    var m, n := ClustersFor(vol, fo + want), ClustersFor(vol, size);
    ClustersForMonotone(vol, fo + want, size);
    ChainPrefix(disk, vol, c, m, n);
    var head, full := |Chain(disk, vol, c, m)|, |Chain(disk, vol, c, n)|;
    ClustersForIsEnough(vol, fo + want);
    hide Chain, ChainOk, ClustersFor;
    if head >= m {
      MulMonotone(m, head, vol.secPerCluster);
      MulMonotone(head, full, vol.secPerCluster);
    }
  }

  /** A file is all on the device, in clusters of its own. */
  ghost predicate Whole(disk: Disk, vol: Volume, c: nat, size: nat, dirCluster: nat) {
    && vol.secPerCluster >= 1 && ChainOk(disk, vol, c, ClustersFor(vol, size))
    && Distinct(Chain(disk, vol, c, ClustersFor(vol, size)))
    && dirCluster !in Chain(disk, vol, c, ClustersFor(vol, size))
  }

  /** The room for a transfer of `len` bytes at `fo`. */
  ghost function Room(disk: Disk, vol: Volume, c: nat, size: nat, fo: word, len: word): nat
    requires vol.secPerCluster >= 1 && ChainOk(disk, vol, c, ClustersFor(vol, size))
  {
    Moved(fo, Clamp(fo, len, size), Capacity(vol, |Chain(disk, vol, c, ClustersFor(vol, size))|))
  }

  /** What a caller sees: what it writes to a file, and reads again after seeking back, is what it wrote,
      as far as file and chain have room. */
  method WriteSeekRead(d: Driver, file: File, data: array<byte>, back: array<byte>, len: word)
    returns (n: nat, m: nat)
    requires d.Valid() && d.HasEntry(file) && 0 <= file.cfo < HALF && file.cfo + len < WORD
    requires Whole(d.disk, d.volume, file.cluster, d.Size(file), file.dirCluster)
    requires len <= data.Length && len <= back.Length && data != back
    requires {data, back} !! {d.fat32_buf, d.fat32_table_buf}
    modifies file, back, d`disk, d.fat32_buf, d.fat32_table_buf
    ensures m == n == Room(old(d.disk), d.volume, file.cluster, old(d.Size(file)), old(file.cfo), len) <= len
    ensures data[..] == old(data[..]) && back[..n] == data[..n] && back[n..] == old(back[n..])
    ensures file.cfo == old(file.cfo) + n
  {
    hide *;
    var start := file.cfo;
    n := WriteReadable(d, file, data, len);
    m := ReadFromStart(d, file, start, back, n, data[..n]);
    SplicedFront(old(back[..]), data[..n]);
  }

  lemma SplicedFront(bytes: seq<byte>, data: seq<byte>)
    requires |data| <= |bytes|
    ensures Splice(bytes, 0, data)[..|data|] == data && Splice(bytes, 0, data)[|data|..] == bytes[|data|..]
  {}

  /** A read of `n` bytes at `fo` delivers `data`. */
  ghost predicate Holds(disk: Disk, vol: Volume, c: nat, size: nat, fo: word, n: word, data: seq<byte>) {
    && vol.secPerCluster >= 1 && |data| == n && Clamp(fo, n, size) <= n
    && (fo < size ==> ChainOk(disk, vol, c, ClustersFor(vol, fo + Clamp(fo, n, size))))
    && ReadAt(disk, vol, c, fo, n, size) == data
  }

  /** The write: what it leaves on the disk can be read at the place where it began. */
  method WriteReadable(d: Driver, file: File, data: array<byte>, len: word) returns (n: nat)
    requires d.Valid() && d.HasEntry(file) && 0 <= file.cfo < HALF && file.cfo + len < WORD
    requires Whole(d.disk, d.volume, file.cluster, d.Size(file), file.dirCluster)
    requires len <= data.Length && data != d.fat32_buf && data != d.fat32_table_buf
    modifies file, d`disk, d.fat32_buf, d.fat32_table_buf
    ensures n == Room(old(d.disk), d.volume, file.cluster, old(d.Size(file)), old(file.cfo), len) <= len
    ensures d.Valid() && d.HasEntry(file) && d.Size(file) == old(d.Size(file)) && file.cfo == old(file.cfo) + n
    ensures Holds(d.disk, d.volume, file.cluster, d.Size(file), old(file.cfo), n, data[..n])
  {
    hide Whole, Effect, FileSize, Chain, ChainOk, ClustersFor, Capacity, Distinct, Holds, ReadAt, Room, Moved, Clamp,
      ClusterToSector;
    ReadyToWrite(d, file, len);
    ghost var disk, size, start := d.disk, d.Size(file), file.cfo;
    n := d.Write(file, data, len);
    HoldsAfterWrite(disk, d.disk, d.volume, file.cluster, start, len, size, data[..n], file.dirCluster, file.dirIndex);
  }

  lemma HoldsAfterWrite(disk: Disk, after: Disk, vol: Volume, c: nat, fo: word, len: word, size: nat, data: seq<byte>,
                        dirCluster: nat, dirIndex: nat)
    requires dirCluster >= 2 && ClusterToSector(vol, dirCluster) < |disk| && dirIndex < 16
    requires size == FileSize(disk, vol, dirCluster, dirIndex) && fo + len < WORD
    requires Whole(disk, vol, c, size, dirCluster) && |data| <= Clamp(fo, len, size) <= len
    requires fo < size ==> ChainOk(disk, vol, c, ClustersFor(vol, fo + Clamp(fo, len, size)))
    requires Effect(disk, after, vol,
                    if fo >= size then [] else Chain(disk, vol, c, ClustersFor(vol, fo + Clamp(fo, len, size))),
                    fo, data)
    ensures |after| == |disk| && FileSize(after, vol, dirCluster, dirIndex) == size
    ensures Holds(after, vol, c, size, fo, |data|, data)
  {
    hide Chain, ChainOk, ClustersFor, FileSize, Distinct, ClusterToSector, ReadAt, Effect;
    if fo < size {
      ReadyForWhole(disk, vol, c, fo, len, size, dirCluster);
      SizeAfterWrite(disk, after, vol, c, fo, len, size, data, dirCluster, dirIndex);
      WrittenIsRead(disk, after, vol, c, fo, len, size, data);
    } else {
      NothingEffected(disk, after, vol, [], fo, data);
      NothingRead(after, vol, c, fo, size);
    }
  }

  lemma ReadyForWhole(disk: Disk, vol: Volume, c: nat, fo: word, len: word, size: nat, dirCluster: nat)
    requires Whole(disk, vol, c, size, dirCluster) && fo + len < WORD && fo < size < WORD
    ensures vol.secPerCluster >= 1 && ChainOk(disk, vol, c, ClustersFor(vol, size))
    ensures Distinct(Chain(disk, vol, c, ClustersFor(vol, size))) && fo + Clamp(fo, len, size) <= size
  {
    hide Chain, ChainOk, ClustersFor, Distinct;
  }

  lemma NothingRead(disk: Disk, vol: Volume, c: nat, fo: word, size: nat)
    requires vol.secPerCluster >= 1 && fo >= size
    ensures Holds(disk, vol, c, size, fo, 0, [])
  {}

  /** Seeking back and reading. */
  method ReadFromStart(d: Driver, file: File, start: int, back: array<byte>, n: word, ghost data: seq<byte>)
    returns (m: nat)
    requires d.Valid() && d.HasEntry(file) && 0 <= start < HALF && n <= back.Length
    requires Holds(d.disk, d.volume, file.cluster, d.Size(file), start, n, data)
    requires back != d.fat32_buf && back != d.fat32_table_buf
    modifies file, back, d.fat32_buf, d.fat32_table_buf
    ensures m == n == |data| && back[..] == Splice(old(back[..]), 0, data) && file.cfo == start + n
  {
    hide FileSize, Chain, ChainOk, ClustersFor, Capacity, ReadAt, Moved, Clamp, ClusterToSector, Splice;
    var at := d.Lseek(file, start, SEEK_SET);
    m := d.Read(file, back, n);
  }

  lemma NothingEffected(disk: Disk, after: Disk, vol: Volume, chain: seq<nat>, fo: nat, data: seq<byte>)
    requires Effect(disk, after, vol, chain, fo, data) && data == []
    ensures after == disk
  {}

  lemma AtMostWanted(fo: nat, want: nat, available: nat)
    ensures Moved(fo, want, available) <= want
  {}

  lemma NoneDistinct()
    ensures Distinct([])
  {}

  /** Such a file is ready to be written. */
  lemma ReadyToWrite(d: Driver, file: File, len: word)
    requires d.Valid() && d.HasEntry(file) && 0 <= file.cfo < HALF && file.cfo + len < WORD
    requires Whole(d.disk, d.volume, file.cluster, d.Size(file), file.dirCluster)
    ensures d.Reachable(file, len) && Distinct(d.Touched(file, len)) && d.Want(file, len) <= len
    ensures d.Count(file, len) == Room(d.disk, d.volume, file.cluster, d.Size(file), file.cfo, len)
    ensures d.Count(file, len) <= d.Want(file, len)
  {
    hide Chain, ChainOk, ClustersFor, FileSize, Capacity, Moved, Distinct, ClusterToSector;
    if file.cfo < d.Size(file) {
      ReadyForTransfer(d.disk, d.volume, file.cluster, file.cfo, len, d.Size(file));
      MovedOnWholeChain(d.disk, d.volume, file.cluster, file.cfo, d.Want(file, len), d.Size(file));
      AtMostWanted(file.cfo, d.Want(file, len), Capacity(d.volume, |d.Touched(file, len)|));
    } else {
      NoneDistinct();
      AtMostWanted(file.cfo, 0, Capacity(d.volume, |Chain(d.disk, d.volume, file.cluster,
                                                          ClustersFor(d.volume, d.Size(file)))|));
    }
  }

  /** After the write the size is the old one. */
  lemma SizeAfterWrite(disk: Disk, after: Disk, vol: Volume, c: nat, fo: word, len: word, size: nat, data: seq<byte>,
                       dirCluster: nat, dirIndex: nat)
    requires dirCluster >= 2 && ClusterToSector(vol, dirCluster) < |disk| && dirIndex < 16
    requires size == FileSize(disk, vol, dirCluster, dirIndex) && fo + Clamp(fo, len, size) <= size
    requires Whole(disk, vol, c, size, dirCluster)
    requires ChainOk(disk, vol, c, ClustersFor(vol, fo + Clamp(fo, len, size)))
    requires Effect(disk, after, vol, Chain(disk, vol, c, ClustersFor(vol, fo + Clamp(fo, len, size))), fo, data)
    ensures |after| == |disk| && FileSize(after, vol, dirCluster, dirIndex) == size
  {
    hide Chain, ChainOk, ClustersFor, Effect, FileSize, Distinct, Clamp, ClusterToSector;
    NotInPrefix(disk, vol, c, fo + Clamp(fo, len, size), size, dirCluster);
    WriteKeepsSize(disk, after, vol, Chain(disk, vol, c, ClustersFor(vol, fo + Clamp(fo, len, size))), fo, data,
                   dirCluster, dirIndex);
  }

  lemma NotInPrefix(disk: Disk, vol: Volume, c: nat, bytes: nat, size: nat, other: nat)
    requires vol.secPerCluster >= 1 && bytes <= size && ChainOk(disk, vol, c, ClustersFor(vol, size))
    requires other !in Chain(disk, vol, c, ClustersFor(vol, size))
    ensures ChainOk(disk, vol, c, ClustersFor(vol, bytes)) && other !in Chain(disk, vol, c, ClustersFor(vol, bytes))
  {
    hide Chain, ChainOk, ClustersFor;
    ClustersForMonotone(vol, bytes, size);
    ChainPrefix(disk, vol, c, ClustersFor(vol, bytes), ClustersFor(vol, size));
  }

  /** A write leaves every other file alone: a file whose chain shares no cluster with the written one
      keeps its chain and its bytes. */
  lemma OtherFileUnchanged(disk: Disk, after: Disk, vol: Volume, chain: seq<nat>, fo: nat, data: seq<byte>,
                           c: nat, size: nat)
    requires vol.secPerCluster >= 1 && Effect(disk, after, vol, chain, fo, data)
    requires ChainOk(disk, vol, c, ClustersFor(vol, size))
    requires forall d :: d in Chain(disk, vol, c, ClustersFor(vol, size)) ==> d !in chain
    ensures ChainOk(after, vol, c, ClustersFor(vol, size))
    ensures Chain(after, vol, c, ClustersFor(vol, size)) == Chain(disk, vol, c, ClustersFor(vol, size))
    ensures FileBytes(after, vol, c, size) == FileBytes(disk, vol, c, size)
  {
    if data != [] {
      var m := ClustersFor(vol, size);
      ChainFacts(disk, vol, c, m);
      WriteKeepsChains(disk, after, vol, chain, fo, data, c, m);
      OtherContentUnchanged(disk, after, vol, chain, fo, data, Chain(disk, vol, c, m));
    }
  }

  lemma OtherContentUnchanged(disk: Disk, after: Disk, vol: Volume, chain: seq<nat>, fo: nat, data: seq<byte>,
                              other: seq<nat>)
    requires Written(disk, after, vol, chain, fo, data) && Clusters(disk, vol, other)
    requires forall d :: d in other ==> d !in chain
    ensures Clusters(after, vol, other) && Content(after, vol, other) == Content(disk, vol, other)
  {
    forall j | 0 <= j < |other|
      ensures Readable(after, vol, other[j])
    {
      assert Readable(disk, vol, other[j]);
    }
    forall o: nat | o < Capacity(vol, |other|)
      ensures ByteAt(after, vol, other, o) == ByteAt(disk, vol, other, o)
    {
      OtherByteUnchanged(disk, after, vol, chain, fo, data, other, o);
    }
  }

  lemma OtherByteUnchanged(disk: Disk, after: Disk, vol: Volume, chain: seq<nat>, fo: nat, data: seq<byte>,
                           other: seq<nat>, o: nat)
    requires Written(disk, after, vol, chain, fo, data) && Clusters(disk, vol, other) && Clusters(after, vol, other)
    requires forall d :: d in other ==> d !in chain
    requires o < Capacity(vol, |other|)
    ensures ByteAt(after, vol, other, o) == ByteAt(disk, vol, other, o)
  {
    hide Content, Splice;
    SectorAtOnDisk(disk, vol, other, o / 512);
    var i, s := Locate(disk, vol, other, o / 512);
    assert other[i] in other;
    OtherClusterNotInChain(disk, vol, chain, other[i], SectorAt(vol, other, o / 512));
  }
}
