/** `gpt_init` of src/fs/gpt.c: reading and accepting the header of a GUID partition table
    (section 5.3.2 of the UEFI Specification). */
module Gpt {
  import opened BitMath
  import opened Crc
  import opened Buddy
  import opened FreeLists
  import opened Heap
  import HeapLaws
  import Memory

  const SECTOR_SIZE: nat := 512
  const HEADER_SIZE: nat := 92
  const SIGNATURE: nat := 0x5452_4150_2049_4645
  const REVISION: nat := 0x0001_0000

  type Sector = s: seq<Byte> | |s| == SECTOR_SIZE
    witness seq(SECTOR_SIZE, _ => 0)

  /** What the disk driver delivers for logical block 1. */
  datatype DiskRead = ReadError | Data(sector: Sector)

  /** The header with the CRC field zeroed. */
  function Zeroed(s: Sector): Sector {
    s[..16] + [0, 0, 0, 0] + s[20..]
  }

  /** The status codes of `gpt_init` for a sector that was read. */
  function Verdict(s: Sector): int {
    if Word(s[0..8]) != SIGNATURE then -3
    else if Word(s[8..12]) != REVISION then -4
    else if Word(s[12..16]) != HEADER_SIZE then -5
    else if Crc32(Zeroed(s)[..HEADER_SIZE]) != Word(s[16..20]) then -6
    else if Word(s[24..32]) != 1 then -7
    else 0
  }

  class Partition {
    var backupLba: nat
    var firstUsableLba: nat
    var lastUsableLba: nat
    var diskGuid: seq<Byte>
    var partitionEntriesLba: nat
    var numPartitionEntries: nat
    var partitionEntrySize: nat
    var crc32PartitionArray: nat

    /** The fields hold what the sector says. */
    ghost predicate Describes(s: Sector)
      reads this
    {
      && backupLba == Word(s[32..40]) && firstUsableLba == Word(s[40..48])
      && lastUsableLba == Word(s[48..56]) && diskGuid == s[56..72]
      && partitionEntriesLba == Word(s[72..80]) && numPartitionEntries == Word(s[80..84])
      && partitionEntrySize == Word(s[84..88]) && crc32PartitionArray == Word(s[88..92])
    }

    method ReadFields(header: array<Byte>, ghost s: Sector)
      requires header[..] == Zeroed(s)
      modifies this
      ensures Describes(s)
    {
      BehindCrcField(s, header[..]);
      backupLba := Word(header[32..40]);
      firstUsableLba := Word(header[40..48]);
      lastUsableLba := Word(header[48..56]);
      diskGuid := header[56..72];
      partitionEntriesLba := Word(header[72..80]);
      numPartitionEntries := Word(header[80..84]);
      partitionEntrySize := Word(header[84..88]);
      crc32PartitionArray := Word(header[88..92]);
    }

    /** Fills the fields from the buffer, zeroes its CRC field and checks the header. */
    method ReadHeader(header: array<Byte>, ghost s: Sector) returns (status: int)
      requires header[..] == s
      modifies this, header
      ensures status == Verdict(s) && Describes(s)
    {
      var signature := Word(header[0..8]);
      var gptRevision := Word(header[8..12]);
      var headerSize := Word(header[12..16]);
      var crc32Header := Word(header[16..20]);
      Memory.Memset(header, 16, 0, 4);
      assert header[..] == Zeroed(s);
      BehindCrcField(s, header[..]);
      var currLba := Word(header[24..32]);
      ReadFields(header, s);

      if signature != SIGNATURE {
        return -3;
      }
      if gptRevision != REVISION {
        return -4;
      }
      if headerSize != HEADER_SIZE {
        return -5;
      }
      var crc := Crc.Calculate(header, headerSize);
      if crc != crc32Header {
        return -6;
      }
      if currLba != 1 {
        return -7;
      }
      return 0;
    }

    /** The middle part of `gpt_init`: the disk read, and the checks if it succeeds. */
    method ReadSector(disk: DiskRead) returns (status: int)
      modifies this
      ensures status == (if disk.ReadError? then -2 else Verdict(disk.sector))
      ensures if disk.ReadError? then unchanged(this) else Describes(disk.sector)
    {
      if disk.ReadError? {
        return -2;
      }
      var header := new Byte[SECTOR_SIZE](i requires 0 <= i < SECTOR_SIZE => disk.sector[i]);
      assert header[..] == disk.sector;
      status := ReadHeader(header, disk.sector);
    }

    /** `gpt_init`, with the outcome of the disk read as a parameter.  The buffer goes back to the
        heap on every path, so the heap is left as it was. */
    method Init(heap: Allocator, disk: DiskRead, grant: nat -> nat, outside: nat -> Header)
        returns (status: int)
      requires heap.Valid() && OutsideOk(heap.arenas, heap.highestLevel, outside)
      modifies this, heap, heap.memBlocks
      ensures heap.Valid() && heap.Blocks() == old(heap.Blocks())
      ensures status == -1 <==>
                forall a :: !FreeSpan(old(heap.arenas), old(heap.LiveBlocks()), a, TargetLevel(528))
      ensures status != -1 ==> status == (if disk.ReadError? then -2 else Verdict(disk.sector))
      ensures if status == -1 || disk.ReadError? then unchanged(this) else Describes(disk.sector)
    {
      ghost var before := heap.Blocks();
      var p := TakeBuffer(heap, grant, outside);
      if p == 0 {
        return -1;
      }
      status := ReadSector(disk);
      HeapLaws.FreeLatest(heap, p, TargetLevel(528), before, outside);
    }

    /** The buffer for one sector, or 0 if the heap has no room. */
    method TakeBuffer(heap: Allocator, grant: nat -> nat, outside: nat -> Header) returns (p: nat)
      requires heap.Valid()
      modifies heap, heap.memBlocks
      ensures heap.Valid() && heap.arenas == old(heap.arenas)
      ensures heap.highestLevel == old(heap.highestLevel)
      ensures p == 0 <==> forall a :: !FreeSpan(heap.arenas, old(heap.LiveBlocks()), a, TargetLevel(528))
      ensures p == 0 ==> heap.Blocks() == old(heap.Blocks())
      ensures p != 0 ==>
                && p > META_SIZE && FreeSpan(heap.arenas, old(heap.LiveBlocks()), p - META_SIZE, TargetLevel(528))
                && heap.LiveBlocks() == old(heap.LiveBlocks())[p - META_SIZE := TargetLevel(528)]
    {
      Fits(heap);
      var r := HeapLaws.AskWithin(heap, SECTOR_SIZE, grant, outside);
      p := if r.Payload? then r.addr else 0;
    }

    lemma Fits(heap: Allocator)
      requires heap.Valid()
      ensures SECTOR_SIZE + META_SIZE <= heap.highestBlockSize
    {
      Pow2Of32();
      SizeMonotone(PAGE_LEVEL, heap.highestLevel);
    }
  }

  /** Zeroing the CRC field changes nothing behind it. */
  lemma BehindCrcField(s: Sector, z: seq<Byte>)
    requires z == Zeroed(s)
    ensures forall i, j :: 20 <= i <= j <= SECTOR_SIZE ==> z[i..j] == s[i..j]
  {
  }

  /** Only the first 92 bytes count. */
  lemma VerdictReadsHeaderOnly(s: Sector, t: Sector)
    requires s[..HEADER_SIZE] == t[..HEADER_SIZE]
    ensures Verdict(s) == Verdict(t)
  {
    assert forall j :: 0 <= j < HEADER_SIZE ==> s[j] == s[..HEADER_SIZE][j] && t[j] == t[..HEADER_SIZE][j];
    assert Zeroed(s)[..HEADER_SIZE] == Zeroed(t)[..HEADER_SIZE];
    Part(s, t, 0, 8);
    Part(s, t, 8, 12);
    Part(s, t, 12, 16);
    Part(s, t, 16, 20);
    Part(s, t, 24, 32);
  }

  lemma Part(s: Sector, t: Sector, i: nat, j: nat)
    requires i <= j <= HEADER_SIZE && s[..HEADER_SIZE] == t[..HEADER_SIZE]
    ensures s[i..j] == t[i..j]
  {
    Prefix(s, HEADER_SIZE, i, j);
    Prefix(t, HEADER_SIZE, i, j);
  }

  lemma Prefix(s: seq<Byte>, n: nat, i: nat, j: nat)
    requires i <= j <= n <= |s|
    ensures s[..n][i..j] == s[i..j]
  {
  }

  /** An accepted header is rejected after any change inside 32 consecutive bits that end before the
      CRC field or inside it, or that start behind it. */
  lemma BurstIsRejected(s: Sector, t: Sector, i: nat)
    requires BitsDifferWithin(s[..HEADER_SIZE], t[..HEADER_SIZE], i)
    requires i <= 128 || i >= 160
    ensures Verdict(s) == 0 ==> Verdict(t) != 0
  {
    var a, b := Zeroed(s)[..HEADER_SIZE], Zeroed(t)[..HEADER_SIZE];
    var j := FirstDifference(s[..HEADER_SIZE], t[..HEADER_SIZE]);
    OutsideBytesAgree(s, t, i);
    if 96 < i <= 128 {
      if s[12..16] != t[12..16] {
        WordsDiffer(s[12..16], t[12..16]);
      } else {
        assert forall k :: 12 <= k < 16 ==> s[k] == s[12..16][k - 12] && t[k] == t[12..16][k - 12];
        assert a == b;
        assert s[16..20][j - 16] != t[16..20][j - 16];
        WordsDiffer(s[16..20], t[16..20]);
      }
    } else {
      assert s[16..20] == t[16..20];
      assert a[j] == s[j] && b[j] == t[j];
      ZeroedBitsDiffer(s, t, i);
      BitBurstDetected(a, b, i);
    }
  }

  /** A byte differs only if one of its bits is in the window. */
  lemma OutsideBytesAgree(s: Sector, t: Sector, i: nat)
    requires BitsDifferWithin(s[..HEADER_SIZE], t[..HEADER_SIZE], i)
    ensures forall j :: 0 <= j < HEADER_SIZE && s[j] != t[j] ==> i < 8 * j + 8 && 8 * j < i + 32
  {
    forall j | 0 <= j < HEADER_SIZE && s[j] != t[j]
      ensures i < 8 * j + 8 && 8 * j < i + 32
    {
      if !(i < 8 * j + 8 && 8 * j < i + 32) {
        SameByte(s[..HEADER_SIZE], t[..HEADER_SIZE], j);
      }
    }
  }

  lemma ZeroedBitsDiffer(s: Sector, t: Sector, i: nat)
    requires BitsDifferWithin(s[..HEADER_SIZE], t[..HEADER_SIZE], i)
    requires Zeroed(s)[..HEADER_SIZE] != Zeroed(t)[..HEADER_SIZE]
    ensures BitsDifferWithin(Zeroed(s)[..HEADER_SIZE], Zeroed(t)[..HEADER_SIZE], i)
  {
    var a, b := Zeroed(s)[..HEADER_SIZE], Zeroed(t)[..HEADER_SIZE];
    forall k: nat | k < 8 * |a| && !(i <= k < i + 32)
      ensures BitAt(a, k) <==> BitAt(b, k)
    {
      assert BitAt(s[..HEADER_SIZE], k) <==> BitAt(t[..HEADER_SIZE], k);
      assert 16 <= k / 8 < 20 || (a[k / 8] == s[k / 8] && b[k / 8] == t[k / 8]);
    }
  }

  lemma FirstDifference(a: seq<Byte>, b: seq<Byte>) returns (j: nat)
    requires |a| == |b| && a != b
    ensures j < |a| && a[j] != b[j]
  {
    j :| j < |a| && a[j] != b[j];
  }
}
