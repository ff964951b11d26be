// The file allocation table of a FAT32 volume (Microsoft FAT32 File System Specification 1.03,
// "FAT Data Structure" and "FAT Type Determination"), read and written through a disk port that
// transfers sectors of 512 bytes.
module Fat32 {
  import opened Bytes

  const SECTOR := 512
  const BUFFER_SIZE := 128 * 4096
  // An entry is 28 bits: `& 0x0FFFFFFF` is the remainder by this.
  const ENTRY_LIMIT := 0x1000_0000
  const WORD := 0x1_0000_0000

  // The fields of the boot sector the table code uses.
  datatype BootSector = BootSector(bytesPerSector: nat, sectorsPerCluster: nat, reservedSectors: nat,
                                   tableCount: nat, tableSize: nat, rootEntries: nat, totalSectors: nat)
  {
    predicate Valid() {
      && bytesPerSector in {512, 1024, 2048, 4096} && 1 <= sectorsPerCluster < 0x100
      && reservedSectors < 0x1_0000 && 1 <= tableCount < 0x100 && tableSize < WORD
      && rootEntries < 0x1_0000 && totalSectors < WORD
    }

    function RootDirSectors(): nat
      requires Valid()
    {
      rootEntries * 32 + (bytesPerSector - 1) / bytesPerSector
    }

    function FirstDataSector(): nat
      requires Valid()
    {
      (tableCount * tableSize + reservedSectors + RootDirSectors()) % WORD
    }

    function TotalClusters(): nat
      requires Valid()
    {
      totalSectors / sectorsPerCluster
    }

    // get_sector_number: 32-bit arithmetic.
    function SectorNumber(cluster: nat): nat
      requires Valid() && 2 <= cluster
    {
      (FirstDataSector() + (cluster - 2) * sectorsPerCluster) % WORD
    }

    // Where the entry of a cluster is looked for: a sector, and an offset from its start.
    function FatOffset(cluster: nat): nat { cluster * 4 % WORD }

    function FatSector(cluster: nat): nat
      requires Valid()
    {
      (reservedSectors + FatOffset(cluster) / bytesPerSector) % WORD
    }

    function EntryOffset(cluster: nat): nat
      requires Valid()
    {
      FatOffset(cluster) % bytesPerSector
    }

    predicate InRange(cluster: nat)
      requires Valid()
    {
      2 <= cluster <= TotalClusters()
    }
  }

  type Disk = d: seq<Byte> | |d| % SECTOR == 0

  predicate Transferable(disk: Disk, sector: nat, count: nat) {
    SECTOR * (sector + count) <= |disk|
  }

  // The disk with the sectors from `sector` on replaced by `bytes`.
  function Overwritten(disk: Disk, sector: nat, bytes: seq<Byte>): Disk
    requires |bytes| % SECTOR == 0 && SECTOR * sector + |bytes| <= |disk|
  {
    disk[..SECTOR * sector] + bytes + disk[SECTOR * sector + |bytes|..]
  }

  // ---- the table, as a value ----

  function ReadEntry(disk: Disk, b: BootSector, cluster: nat): nat
    requires b.Valid()
  {
    if !b.InRange(cluster) || !Transferable(disk, b.FatSector(cluster), 32) then 0
    else
      var at := SECTOR * b.FatSector(cluster) + b.EntryOffset(cluster);
      Le(disk[at..at + 4]) % ENTRY_LIMIT
  }

  function WriteEntry(disk: Disk, b: BootSector, cluster: nat, entry: nat): Disk
    requires b.Valid()
  {
    if !b.InRange(cluster) then disk
    else
      EntryFits(b, cluster);
      Patched(disk, b.FatSector(cluster), b.EntryOffset(cluster), ToLe(entry % ENTRY_LIMIT, 4))
  }

  // The disk with the word at offset `o` of a sector replaced, if the sector can be transferred
  // and the word lies within it.
  function Patched(disk: Disk, sector: nat, o: nat, w: seq<Byte>): Disk
    requires |w| == 4 && o % 4 == 0
  {
    if !Transferable(disk, sector, 1) || o >= SECTOR then disk
    else
      var at := SECTOR * sector + o;
      RoomForWord(o, SECTOR);
      disk[..at] + w + disk[at + 4..]
  }

  lemma EntryFits(b: BootSector, cluster: nat)
    requires b.Valid()
    ensures b.EntryOffset(cluster) % 4 == 0
    ensures b.EntryOffset(cluster) + 4 <= b.bytesPerSector
  {
    assert b.FatOffset(cluster) == 4 * (cluster % 0x4000_0000);
    WordFits(cluster % 0x4000_0000, b.bytesPerSector);
  }

  lemma SectorsAreSmall(b: BootSector)
    requires b.Valid()
    ensures b.bytesPerSector <= 4096
  {}

  lemma WordFits(y: nat, bps: nat)
    requires bps in {512, 1024, 2048, 4096}
    ensures 4 * y % bps % 4 == 0 && 4 * y % bps + 4 <= bps
  {
    if bps == 512 { FitsBy512(y); }
    else if bps == 1024 { FitsBy1024(y); }
    else if bps == 2048 { FitsBy2048(y); }
    else { FitsBy4096(y); }
  }

  lemma RoomForWord(o: nat, bps: nat)
    requires o % 4 == 0 && bps % 4 == 0 && o < bps
    ensures o + 4 <= bps
  {}

  lemma FitsBy512(y: nat)
    ensures 4 * y % 512 % 4 == 0 && 4 * y % 512 + 4 <= 512
  {
    Multiple512(y);
    InWords(y % 128);
  }

  lemma Multiple512(y: nat)
    ensures 4 * y % 512 == 4 * (y % 128)
  {}

  lemma FitsBy1024(y: nat)
    ensures 4 * y % 1024 % 4 == 0 && 4 * y % 1024 + 4 <= 1024
  {
    Multiple1024(y);
    InWords(y % 256);
  }

  lemma Multiple1024(y: nat)
    ensures 4 * y % 1024 == 4 * (y % 256)
  {}

  lemma FitsBy2048(y: nat)
    ensures 4 * y % 2048 % 4 == 0 && 4 * y % 2048 + 4 <= 2048
  {
    Multiple2048(y);
    InWords(y % 512);
  }

  lemma Multiple2048(y: nat)
    ensures 4 * y % 2048 == 4 * (y % 512)
  {}

  lemma FitsBy4096(y: nat)
    ensures 4 * y % 4096 % 4 == 0 && 4 * y % 4096 + 4 <= 4096
  {
    Multiple4096(y);
    InWords(y % 1024);
  }

  lemma Multiple4096(y: nat)
    ensures 4 * y % 4096 == 4 * (y % 1024)
  {}

  lemma InWords(m: nat)
    ensures 4 * m % 4 == 0
  {}

  // ---- the code ----

  class Port {
    var disk: Disk

    constructor (d: Disk)
      ensures disk == d
    {
      disk := d;
    }

    method Read(sector: nat, count: nat, buffer: array<Byte>) returns (ok: bool)
      requires SECTOR * count <= buffer.Length
      modifies buffer
      ensures ok == Transferable(disk, sector, count)
      ensures ok ==> forall i :: 0 <= i < SECTOR * count ==> buffer[i] == disk[SECTOR * sector + i]
      ensures ok ==> forall i :: SECTOR * count <= i < buffer.Length ==> buffer[i] == old(buffer[i])
      ensures !ok ==> forall i :: 0 <= i < buffer.Length ==> buffer[i] == old(buffer[i])
    {
      ok := SECTOR * (sector + count) <= |disk|;
      if ok {
        forall i | 0 <= i < SECTOR * count {
          buffer[i] := disk[SECTOR * sector + i];
        }
      }
    }

    method Write(sector: nat, count: nat, buffer: array<Byte>) returns (ok: bool)
      requires SECTOR * count <= buffer.Length
      modifies this
      ensures ok == Transferable(old(disk), sector, count)
      ensures disk == if ok then Overwritten(old(disk), sector, buffer[..SECTOR * count]) else old(disk)
    {
      ok := SECTOR * (sector + count) <= |disk|;
      if ok {
        disk := Overwritten(disk, sector, buffer[..SECTOR * count]);
      }
    }
  }

  class FAT32 {
    const port: Port
    const bootSector: BootSector

    constructor (port: Port, bootSector: BootSector)
      ensures this.port == port && this.bootSector == bootSector
    {
      this.port := port;
      this.bootSector := bootSector;
    }

    method ReadFatEntry(cluster: nat) returns (result: nat)
      requires bootSector.Valid()
      ensures result == ReadEntry(port.disk, bootSector, cluster)
    {
      hide Le, ToLe, BootSector.Valid, BootSector.FatSector, BootSector.EntryOffset, BootSector.TotalClusters;
      if cluster < 2 || cluster > bootSector.TotalClusters() {
        return 0;
      }
      EntryFits(bootSector, cluster);
      SectorsAreSmall(bootSector);
      var buffer := new Byte[BUFFER_SIZE](_ => 0);
      var fatSector := bootSector.FatSector(cluster);
      var entryOffset := bootSector.EntryOffset(cluster);
      var ok := port.Read(fatSector, 32, buffer);
      var word := buffer[entryOffset..entryOffset + 4];
      if ok {
        var at := SECTOR * fatSector + entryOffset;
        assert word == port.disk[at..at + 4];
      } else {
        assert word == [0, 0, 0, 0];
        ZeroWord();
      }
      result := Le(word) % ENTRY_LIMIT;
    }

    method WriteFatEntry(cluster: nat, entry: nat)
      requires bootSector.Valid()
      modifies port
      ensures port.disk == WriteEntry(old(port.disk), bootSector, cluster, entry)
    {
      if cluster < 2 || cluster > bootSector.TotalClusters() {
        return;
      }
      EntryFits(bootSector, cluster);
      PatchWord(bootSector.FatSector(cluster), bootSector.EntryOffset(cluster), entry % ENTRY_LIMIT);
    }

    // The read, the change in the buffer and the write of WriteFatEntry.
    method PatchWord(fatSector: nat, entryOffset: nat, v: nat)
      requires entryOffset % 4 == 0 && entryOffset + 4 <= 4096
      modifies port
      ensures port.disk == Patched(old(port.disk), fatSector, entryOffset, ToLe(v, 4))
    {
      hide ToLe, Overwritten, Patched;
      var buffer := new Byte[BUFFER_SIZE](_ => 0);
      var ok := port.Read(fatSector, 1, buffer);
      ghost var disk, before := port.disk, buffer[..];
      PutWord(buffer, entryOffset, v);
      ghost var after := buffer[..];
      SectorPatched(disk, fatSector, entryOffset, before, ToLe(v, 4), after);
      assert buffer[..SECTOR] == after[..SECTOR];
      ok := port.Write(fatSector, 1, buffer);
    }

    method FindFreeCluster() returns (cluster: nat)
      requires bootSector.Valid()
      ensures cluster == FirstFree(port.disk, bootSector, 2)
    {
      cluster := 2;
      while cluster < bootSector.TotalClusters()
        invariant 2 <= cluster
        invariant FirstFree(port.disk, bootSector, 2) == FirstFree(port.disk, bootSector, cluster)
        decreases bootSector.TotalClusters() - cluster
      {
        var entry := ReadFatEntry(cluster);
        if entry == 0 {
          return;
        }
        cluster := cluster + 1;
      }
      return 0;
    }
  }

  // Reading a sector, changing a word of the buffer and writing the sector back changes that word
  // of the disk, if it lies within the sector, and nothing else.
  lemma SectorPatched(disk: Disk, sector: nat, o: nat, before: seq<Byte>, w: seq<Byte>, after: seq<Byte>)
    requires |w| == 4 && o % 4 == 0 && SECTOR <= |before| && o + 4 <= |before|
    requires Transferable(disk, sector, 1) ==> before[..SECTOR] == disk[SECTOR * sector..SECTOR * (sector + 1)]
    requires after == before[..o] + w + before[o + 4..]
    ensures Patched(disk, sector, o, w) ==
      if Transferable(disk, sector, 1) then Overwritten(disk, sector, after[..SECTOR]) else disk
  {
    var at := SECTOR * sector;
    if !Transferable(disk, sector, 1) {
    } else if o < SECTOR {
      RoomForWord(o, SECTOR);
      assert after[..SECTOR] == before[..SECTOR][..o] + w + before[..SECTOR][o + 4..];
      ReplacedWithin(disk, at, at + SECTOR, o, w);
    } else {
      assert after[..SECTOR] == before[..SECTOR];
      assert disk[..at] + disk[at..at + SECTOR] + disk[at + SECTOR..] == disk;
    }
  }

  // Replacing a stretch whose only change is the word at its offset o replaces just that word.
  lemma ReplacedWithin(d: seq<Byte>, lo: nat, hi: nat, o: nat, w: seq<Byte>)
    requires lo + o + |w| <= hi <= |d|
    ensures d[..lo] + (d[lo..hi][..o] + w + d[lo..hi][o + |w|..]) + d[hi..] == d[..lo + o] + w + d[lo + o + |w|..]
  {
    assert d[lo..hi][..o] == d[lo..lo + o] && d[lo..hi][o + |w|..] == d[lo + o + |w|..hi];
    assert d[..lo] + d[lo..lo + o] == d[..lo + o];
    assert d[lo + o + |w|..hi] + d[hi..] == d[lo + o + |w|..];
  }

  lemma ZeroWord()
    ensures Le([0, 0, 0, 0]) == 0
  {
    assert [0, 0, 0, 0][1..] == [0, 0, 0] && [0, 0, 0][1..] == [0, 0] && [0, 0][1..] == [0] && [0][1..] == [];
    assert Le([0]) == 0 && Le([0, 0]) == 0 && Le([0, 0, 0]) == 0;
  }

  method PutWord(buffer: array<Byte>, o: nat, v: nat)
    requires o + 4 <= buffer.Length
    modifies buffer
    ensures buffer[..] == old(buffer[..o]) + ToLe(v, 4) + old(buffer[o + 4..])
  {
    var w := ToLe(v, 4);
    buffer[o], buffer[o + 1], buffer[o + 2], buffer[o + 3] := w[0], w[1], w[2], w[3];
  }

  // The first cluster from `from` on whose entry reads as zero, or 0.
  function FirstFree(disk: Disk, b: BootSector, from: nat): nat
    requires b.Valid()
    decreases if from < b.TotalClusters() then b.TotalClusters() - from else 0
  {
    if from >= b.TotalClusters() then 0
    else if ReadEntry(disk, b, from) == 0 then from
    else FirstFree(disk, b, from + 1)
  }
}
