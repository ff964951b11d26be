// What reading, writing and searching the file allocation table guarantee.
module Fat32Properties {
  import opened Bytes
  import opened Fat32

  // The entry exists and the transfer that reads it succeeds.
  predicate Readable(disk: Disk, b: BootSector, cluster: nat)
    requires b.Valid()
  {
    b.InRange(cluster) && Transferable(disk, b.FatSector(cluster), 32)
  }

  function EntryAt(b: BootSector, cluster: nat): nat
    requires b.Valid()
  {
    SECTOR * b.FatSector(cluster) + b.EntryOffset(cluster)
  }

  // The write of the entry takes place: its sector is transferred and it lies within it.
  predicate Writable(disk: Disk, b: BootSector, cluster: nat)
    requires b.Valid()
  {
    b.InRange(cluster) && Transferable(disk, b.FatSector(cluster), 1) && b.EntryOffset(cluster) < SECTOR
  }

  lemma WordValue(v: nat)
    requires v < 0x1000_0000
    ensures Le(ToLe(v, 4)) == v
  {
    assert Power256(4) == 256 * (256 * (256 * (256 * 1)));
    LeOfToLe(v, 4);
  }

  // A write changes the four bytes of its entry and no other byte of the disk, and nothing at all
  // when it does not take place.
  lemma OnlyItsEntryChanges(disk: Disk, b: BootSector, cluster: nat, entry: nat)
    requires b.Valid()
    ensures var after := WriteEntry(disk, b, cluster, entry);
      && |after| == |disk| && (!Writable(disk, b, cluster) ==> after == disk)
      && forall i :: 0 <= i < |disk| && !(EntryAt(b, cluster) <= i < EntryAt(b, cluster) + 4) ==> after[i] == disk[i]
  {
    hide ToLe, BootSector.FatSector, BootSector.EntryOffset;
    EntryFits(b, cluster);
  }

  lemma WrittenIsRead(disk: Disk, b: BootSector, cluster: nat, entry: nat)
    requires b.Valid() && Readable(disk, b, cluster) && b.EntryOffset(cluster) < SECTOR
    ensures ReadEntry(WriteEntry(disk, b, cluster, entry), b, cluster) == entry % 0x1000_0000
  {
    hide Le, ToLe, BootSector.FatSector, BootSector.EntryOffset;
    WordValue(entry % 0x1000_0000);
    EntryFits(b, cluster);
    var at, after := EntryAt(b, cluster), WriteEntry(disk, b, cluster, entry);
    assert after[at..at + 4] == ToLe(entry % 0x1000_0000, 4);
  }

  // Whatever is written to a cluster's entry is read back, in its low 28 bits, exactly when the
  // entry lies in the one sector of 512 bytes that is transferred: always with 512-byte sectors,
  // but not for the later entries of a larger sector.
  lemma RoundTripIff(disk: Disk, b: BootSector, cluster: nat)
    requires b.Valid() && Readable(disk, b, cluster)
    ensures (forall entry: nat :: ReadEntry(WriteEntry(disk, b, cluster, entry), b, cluster) == entry % 0x1000_0000)
       <==> b.EntryOffset(cluster) < SECTOR
  {
    if b.EntryOffset(cluster) < SECTOR {
      forall entry: nat ensures ReadEntry(WriteEntry(disk, b, cluster, entry), b, cluster) == entry % 0x1000_0000 {
        WrittenIsRead(disk, b, cluster, entry);
      }
    } else {
      var other := Other(ReadEntry(disk, b, cluster));
      assert WriteEntry(disk, b, cluster, other) == disk;
    }
  }

  // A value that reads back as something else than v.
  function Other(v: nat): (w: nat)
    ensures w % 0x1000_0000 == w != v
  {
    if v == 0 then 1 else 0
  }

  // ---- the table byte by byte ----

  lemma EntryPlace(b: BootSector, cluster: nat)
    requires b.Valid()
    ensures var x := 4 * cluster % 0x1_0000_0000;
      && EntryAt(b, cluster) == 512 * (b.reservedSectors + x / b.bytesPerSector) + x % b.bytesPerSector
      && b.FatSector(cluster) == b.reservedSectors + x / b.bytesPerSector
      && b.EntryOffset(cluster) == x % b.bytesPerSector
      && x % b.bytesPerSector % 4 == 0 && x % b.bytesPerSector + 4 <= 4096
  {
    EntryAddress(b, cluster);
    OffsetOfSlot(b, cluster);
    EntryFits(b, cluster);
    SectorsAreSmall(b);
    assert 4 * cluster % 0x1_0000_0000 == 4 * Slot(cluster);
    hide Slot, BootSector.Valid, BootSector.FatSector, BootSector.EntryOffset;
  }

  // The entry of a cluster: four bytes, the first counting least, less the upper half of the last one.
  // It is found four bytes behind that of the cluster before, from the first table's sector on.
  lemma EntryRead(disk: Disk, b: BootSector, cluster: nat)
    requires b.Valid()
    ensures var x := 4 * cluster % 0x1_0000_0000;
      var sector := b.reservedSectors + x / b.bytesPerSector;
      var at := 512 * sector + x % b.bytesPerSector;
      if 2 <= cluster <= b.totalSectors / b.sectorsPerCluster && 512 * (sector + 32) <= |disk| then
        && at + 4 <= |disk|
        && ReadEntry(disk, b, cluster)
           == disk[at] as int + 0x100 * (disk[at + 1] as int) + 0x1_0000 * (disk[at + 2] as int)
              + 0x100_0000 * (disk[at + 3] as int % 16)
      else
        ReadEntry(disk, b, cluster) == 0
  {
    EntryPlace(b, cluster);
    hide Le, BootSector.Valid, BootSector.FatSector, BootSector.EntryOffset, BootSector.FatOffset;
    if Readable(disk, b, cluster) {
      var at := EntryAt(b, cluster);
      LowBits(disk[at..at + 4]);
    }
  }

  lemma LowBits(w: seq<Byte>)
    requires |w| == 4
    ensures Le(w) % 0x1000_0000
         == w[0] as int + 0x100 * (w[1] as int) + 0x1_0000 * (w[2] as int) + 0x100_0000 * (w[3] as int % 16)
  {
    LeOfFour(w);
    hide Le;
    Nibble(w[0] as int + 0x100 * (w[1] as int) + 0x1_0000 * (w[2] as int), w[3]);
  }

  lemma Nibble(low: nat, high: nat)
    requires low < 0x100_0000
    ensures (low + 0x100_0000 * high) % 0x1000_0000 == low + 0x100_0000 * (high % 16)
  {
    Pieces(low + 0x100_0000 * high, high / 16, low + 0x100_0000 * (high % 16));
  }

  lemma Pieces(v: nat, q: nat, r: nat)
    requires v == 0x1000_0000 * q + r && r < 0x1000_0000
    ensures v % 0x1000_0000 == r
  {}

  // What is written: the low 28 bits of the value, in four bytes, at the same place.
  lemma EntryWritten(disk: Disk, b: BootSector, cluster: nat, entry: nat)
    requires b.Valid()
    ensures var x := 4 * cluster % 0x1_0000_0000;
      var sector := b.reservedSectors + x / b.bytesPerSector;
      var at := 512 * sector + x % b.bytesPerSector;
      var w := entry % 0x1000_0000;
      if 2 <= cluster <= b.totalSectors / b.sectorsPerCluster && 512 * (sector + 1) <= |disk|
         && x % b.bytesPerSector < 512 then
        && at + 4 <= |disk|
        && WriteEntry(disk, b, cluster, entry)
           == disk[..at] + [w % 0x100, w / 0x100 % 0x100, w / 0x1_0000 % 0x100, w / 0x100_0000] + disk[at + 4..]
      else
        WriteEntry(disk, b, cluster, entry) == disk
  {
    hide *;
    EntryPlace(b, cluster);
    ToLeFour(entry % 0x1000_0000);
    WrittenMeans(disk, b, cluster, entry);
    assert entry % 0x1000_0000 / 0x100_0000 % 0x100 == entry % 0x1000_0000 / 0x100_0000;
  }

  lemma WrittenMeans(disk: Disk, b: BootSector, cluster: nat, entry: nat)
    requires b.Valid()
    ensures b.EntryOffset(cluster) % 4 == 0
    ensures var at := EntryAt(b, cluster);
      if 2 <= cluster <= b.totalSectors / b.sectorsPerCluster && 512 * (b.FatSector(cluster) + 1) <= |disk|
         && b.EntryOffset(cluster) < 512 then
        && at + 4 <= |disk|
        && WriteEntry(disk, b, cluster, entry) == disk[..at] + ToLe(entry % 0x1000_0000, 4) + disk[at + 4..]
      else
        WriteEntry(disk, b, cluster, entry) == disk
  {
    hide ToLe, BootSector.Valid, BootSector.FatSector, BootSector.EntryOffset, BootSector.FatOffset;
    EntryFits(b, cluster);
  }

  // Behind the tables comes the root directory, counted as 32 sectors for each of its entries, and
  // then the clusters, from number 2 on.
  lemma ClusterSectors(b: BootSector, cluster: nat)
    requires b.Valid() && 2 <= cluster
    ensures b.SectorNumber(cluster)
         == (b.tableCount * b.tableSize + b.reservedSectors + 32 * b.rootEntries
             + (cluster - 2) * b.sectorsPerCluster) % 0x1_0000_0000
  {
    NothingOver(b.bytesPerSector);
    hide BootSector.Valid;
    SumModulo(b.tableCount * b.tableSize + b.reservedSectors + 32 * b.rootEntries, (cluster - 2) * b.sectorsPerCluster);
  }

  lemma SumModulo(a: nat, c: nat)
    ensures (a % 0x1_0000_0000 + c) % 0x1_0000_0000 == (a + c) % 0x1_0000_0000
  {}

  // ---- entries that share their bytes ----

  // Entries start at multiples of four bytes, so two of them are the same or apart.
  lemma SameOrApart(b: BootSector, c: nat, d: nat)
    requires b.Valid()
    ensures EntryAt(b, c) == EntryAt(b, d) || EntryAt(b, c) + 4 <= EntryAt(b, d) || EntryAt(b, d) + 4 <= EntryAt(b, c)
  {
    EntryFits(b, c);
    EntryFits(b, d);
    SectorInWords(b.FatSector(c), b.EntryOffset(c));
    SectorInWords(b.FatSector(d), b.EntryOffset(d));
  }

  lemma SectorInWords(sector: nat, o: nat)
    requires o % 4 == 0
    ensures SECTOR * sector + o == 4 * (128 * sector + o / 4)
  {}

  // After a write every cluster's entry reads as before, except those that stand at the same place
  // of the disk, whatever the sector size.
  lemma WriteThenReadAny(disk: Disk, b: BootSector, c: nat, d: nat, entry: nat)
    requires b.Valid()
    ensures ReadEntry(WriteEntry(disk, b, c, entry), b, d) ==
      if Writable(disk, b, c) && Readable(disk, b, d) && EntryAt(b, c) == EntryAt(b, d) then entry % 0x1000_0000
      else ReadEntry(disk, b, d)
  {
    OnlyItsEntryChanges(disk, b, c, entry);
    if Writable(disk, b, c) && Readable(disk, b, d) {
      hide WriteEntry;
      if EntryAt(b, c) == EntryAt(b, d) {
        WordIsThere(disk, b, c, entry);
        ReadsWord(WriteEntry(disk, b, c, entry), b, d, entry % 0x1000_0000);
      } else {
        SameOrApart(b, c, d);
        SameWord(disk, WriteEntry(disk, b, c, entry), b, d);
      }
    }
  }

  lemma WordIsThere(disk: Disk, b: BootSector, c: nat, entry: nat)
    requires b.Valid() && Writable(disk, b, c)
    ensures var at, after := EntryAt(b, c), WriteEntry(disk, b, c, entry);
      at + 4 <= |after| && after[at..at + 4] == ToLe(entry % 0x1000_0000, 4)
  {
    EntryFits(b, c);
    RoomForWord(b.EntryOffset(c), SECTOR);
    hide ToLe, BootSector.FatSector, BootSector.EntryOffset, BootSector.TotalClusters;
  }

  lemma ReadsWord(disk: Disk, b: BootSector, d: nat, v: nat)
    requires b.Valid() && Readable(disk, b, d) && v < 0x1000_0000
    requires EntryAt(b, d) + 4 <= |disk| && disk[EntryAt(b, d)..EntryAt(b, d) + 4] == ToLe(v, 4)
    ensures ReadEntry(disk, b, d) == v
  {
    hide Le, ToLe, BootSector.FatSector, BootSector.EntryOffset, BootSector.TotalClusters;
    WordValue(v);
  }

  lemma SameWord(disk: Disk, after: Disk, b: BootSector, d: nat)
    requires b.Valid() && Readable(disk, b, d) && |after| == |disk|
    requires forall i :: EntryAt(b, d) <= i < EntryAt(b, d) + 4 && i < |disk| ==> after[i] == disk[i]
    ensures ReadEntry(after, b, d) == ReadEntry(disk, b, d)
  {
    EntryFits(b, d);
    hide Le, BootSector.FatSector, BootSector.EntryOffset, BootSector.TotalClusters;
    var at := EntryAt(b, d);
    assert after[at..at + 4] == disk[at..at + 4];
  }

  // Entries are found modulo 2^30: the offset is computed in 32 bits.
  function Slot(cluster: nat): nat { cluster % 0x4000_0000 }

  lemma EntryAddress(b: BootSector, cluster: nat)
    requires b.Valid()
    ensures b.FatSector(cluster) == b.reservedSectors + 4 * Slot(cluster) / b.bytesPerSector
    ensures b.EntryOffset(cluster) == 4 * Slot(cluster) % b.bytesPerSector
    ensures b.bytesPerSector == SECTOR || Slot(cluster) < 128 ==>
      EntryAt(b, cluster) == SECTOR * b.reservedSectors + 4 * Slot(cluster) && b.EntryOffset(cluster) < SECTOR
  {
    var x := 4 * Slot(cluster);
    OffsetOfSlot(b, cluster);
    SectorBound(x, b.bytesPerSector);
    hide Slot, BootSector.FatOffset;
    assert b.reservedSectors < 0x1_0000 && b.bytesPerSector > 0;
    hide BootSector.Valid;
    Modulo(b.reservedSectors + x / b.bytesPerSector);
    assert Slot(cluster) < 128 ==> x < SECTOR;
  }

  lemma OffsetOfSlot(b: BootSector, cluster: nat)
    ensures b.FatOffset(cluster) == 4 * Slot(cluster) < WORD
  {}

  lemma SectorBound(x: nat, bps: nat)
    requires x < WORD && bps in {512, 1024, 2048, 4096}
    ensures x / bps < 0x80_0000
    ensures bps == SECTOR ==> x == SECTOR * (x / bps) + x % bps
    ensures x < SECTOR ==> x / bps == 0 && x % bps == x
  {
    if bps == 512 {} else if bps == 1024 {} else if bps == 2048 {} else {}
  }

  // Clusters 2 to n - 1 have entries of their own that are written where they are read: sectors of
  // 512 bytes and no more than 2^30 clusters, or all entries within the first 512 bytes.
  predicate OwnEntries(b: BootSector, n: nat) {
    n <= 128 || (b.bytesPerSector == SECTOR && n <= 0x4000_0002)
  }

  lemma OwnPlaces(b: BootSector, n: nat, c: nat, d: nat)
    requires b.Valid() && OwnEntries(b, n) && 2 <= c < n && 2 <= d < n
    ensures b.EntryOffset(c) < SECTOR && (EntryAt(b, c) == EntryAt(b, d) <==> c == d)
  {
    SlotsDiffer(n, c, d);
    EntryAddress(b, c);
    EntryAddress(b, d);
    hide EntryAt, Slot, BootSector.Valid, BootSector.EntryOffset;
  }

  lemma SlotsDiffer(n: nat, c: nat, d: nat)
    requires n <= 0x4000_0002 && 2 <= c < n && 2 <= d < n
    ensures Slot(c) == Slot(d) <==> c == d
    ensures n <= 128 ==> Slot(c) < 128 && Slot(d) < 128
  {}

  // The table holds clusters 2 to n - 1 as a map holds its keys: what is written to one is read
  // back, and the others keep their entries.
  ghost predicate IsMap(disk: Disk, b: BootSector, n: nat)
    requires b.Valid()
  {
    forall c: nat, d: nat, entry: nat :: 2 <= c < n && 2 <= d < n ==> ActsAsMap(disk, b, c, d, entry)
  }

  predicate ActsAsMap(disk: Disk, b: BootSector, c: nat, d: nat, entry: nat)
    requires b.Valid()
  {
    ReadEntry(WriteEntry(disk, b, c, entry), b, d) == if c == d then entry % 0x1000_0000 else ReadEntry(disk, b, d)
  }

  // On a disk that holds the whole table it does so exactly when the entries are their own.
  lemma IsMapIff(disk: Disk, b: BootSector, n: nat)
    requires b.Valid() && AllReadable(disk, b, n)
    ensures IsMap(disk, b, n) <==> OwnEntries(b, n)
  {
    hide ReadEntry, WriteEntry, OwnEntries, Readable;
    if OwnEntries(b, n) {
      forall c: nat, d: nat, entry: nat | 2 <= c < n && 2 <= d < n
        ensures ActsAsMap(disk, b, c, d, entry)
      {
        OwnPlaces(b, n, c, d);
        assert Readable(disk, b, c) && Readable(disk, b, d);
        ReadableIsWritable(disk, b, c);
        WriteThenReadAny(disk, b, c, d, entry);
      }
    } else {
      NotAMap(disk, b, n);
    }
  }

  lemma ReadableIsWritable(disk: Disk, b: BootSector, c: nat)
    requires b.Valid() && Readable(disk, b, c)
    ensures Writable(disk, b, c) <==> b.EntryOffset(c) < SECTOR
  {}

  lemma NotAMap(disk: Disk, b: BootSector, n: nat)
    requires b.Valid() && AllReadable(disk, b, n) && !OwnEntries(b, n)
    ensures !IsMap(disk, b, n)
  {
    hide ReadEntry, WriteEntry, Readable, Writable, EntryAt, BootSector.EntryOffset;
    var c: nat, d: nat := 128, 128;
    if b.bytesPerSector == SECTOR {
      c, d := 2, 0x4000_0002;
      EntriesMeet(b);
    } else {
      Entry128(b);
    }
    assert Readable(disk, b, c) && Readable(disk, b, d);
    ReadableIsWritable(disk, b, c);
    var v := ReadEntry(disk, b, d);
    WriteThenReadAny(disk, b, c, d, Other(v));
    assert !ActsAsMap(disk, b, c, d, Other(v));
  }

  lemma EntriesMeet(b: BootSector)
    requires b.Valid() && b.bytesPerSector == SECTOR
    ensures EntryAt(b, 2) == EntryAt(b, 0x4000_0002) && b.EntryOffset(2) < SECTOR
  {
    EntryAddress(b, 2);
    EntryAddress(b, 0x4000_0002);
    assert Slot(0x4000_0002) == 2 == Slot(2);
    hide EntryAt, Slot, BootSector.Valid, BootSector.EntryOffset;
  }

  lemma Entry128(b: BootSector)
    requires b.Valid() && b.bytesPerSector != SECTOR
    ensures b.EntryOffset(128) == 512
  {}

  const WIDE_SECTORS := BootSector(1024, 1, 32, 1, 8, 0, 1000)

  // With sectors of 1024 bytes, what is written for cluster 128 is lost.
  lemma EntryAt512IsLost(disk: Disk, entry: nat)
    requires SECTOR * 64 <= |disk|
    ensures WIDE_SECTORS.Valid() && Readable(disk, WIDE_SECTORS, 128)
    ensures WriteEntry(disk, WIDE_SECTORS, 128, entry) == disk
  {
    Entry128(WIDE_SECTORS);
    OnlyItsEntryChanges(disk, WIDE_SECTORS, 128, entry);
  }

  // And what is written for cluster 256 overwrites the entry of cluster 128.
  lemma EntriesShared(disk: Disk, entry: nat)
    requires SECTOR * 65 <= |disk|
    ensures WIDE_SECTORS.Valid() && EntryAt(WIDE_SECTORS, 128) == EntryAt(WIDE_SECTORS, 256)
    ensures ReadEntry(WriteEntry(disk, WIDE_SECTORS, 256, entry), WIDE_SECTORS, 128) == entry % 0x1000_0000
  {
    WideEntries();
    assert WIDE_SECTORS.InRange(128) && WIDE_SECTORS.InRange(256);
    hide EntryAt, ReadEntry, WriteEntry, BootSector.FatSector, BootSector.EntryOffset;
    WriteThenReadAny(disk, WIDE_SECTORS, 256, 128, entry);
  }

  lemma WideEntries()
    ensures WIDE_SECTORS.Valid()
    ensures WIDE_SECTORS.FatSector(128) == 32 && WIDE_SECTORS.EntryOffset(128) == 512
    ensures WIDE_SECTORS.FatSector(256) == 33 && WIDE_SECTORS.EntryOffset(256) == 0
    ensures EntryAt(WIDE_SECTORS, 128) == EntryAt(WIDE_SECTORS, 256)
  {
    assert WIDE_SECTORS.FatOffset(128) == 512 && WIDE_SECTORS.FatOffset(256) == 1024;
  }

  // ---- the root directory ----

  // The sectors of the root directory, rounded up.
  function RoundedUp(b: BootSector): nat
    requires b.Valid()
  {
    (b.rootEntries * 32 + b.bytesPerSector - 1) / b.bytesPerSector
  }

  // The sum is computed without the parentheses that rounding up needs: right exactly when there
  // are no entries, as on FAT32.
  lemma RootDirSectorsIff(b: BootSector)
    requires b.Valid()
    ensures b.RootDirSectors() == RoundedUp(b) <==> b.rootEntries == 0
  {
    var x := b.rootEntries * 32;
    assert (b.bytesPerSector - 1) / b.bytesPerSector == 0 by { NothingOver(b.bytesPerSector); }
    if b.bytesPerSector == 512 { RoundsBelow(x, 512); }
    else if b.bytesPerSector == 1024 { RoundsBelow(x, 1024); }
    else if b.bytesPerSector == 2048 { RoundsBelow(x, 2048); }
    else { RoundsBelow(x, 4096); }
  }

  lemma NothingOver(bps: nat)
    requires bps > 0
    ensures (bps - 1) / bps == 0
  {}

  lemma RoundsBelow(x: nat, bps: nat)
    requires bps in {512, 1024, 2048, 4096} && x % 32 == 0
    ensures (x + bps - 1) / bps == x <==> x == 0
  {
    if bps == 512 {} else if bps == 1024 {} else if bps == 2048 {} else {}
  }

  // A directory of 512 entries takes 32 sectors of 512 bytes; 16384 are counted.
  lemma RootDirMiscounted()
    ensures var b := BootSector(512, 1, 1, 2, 9, 512, 2880);
      b.Valid() && b.RootDirSectors() == 16384 && RoundedUp(b) == 32
  {}

  // ---- the data area ----

  // The first FAT has room for the entries of all clusters, and sector numbers fit 32 bits.
  predicate LaidOut(b: BootSector) {
    && b.Valid()
    && 4 * (b.TotalClusters() + 1) <= b.bytesPerSector * b.tableSize
    && b.tableCount * b.tableSize + b.reservedSectors + b.RootDirSectors() + b.totalSectors < WORD
  }

  lemma TableBeforeData(b: BootSector, c: nat, d: nat)
    requires LaidOut(b) && b.InRange(c) && b.InRange(d)
    ensures b.FatSector(c) < b.FirstDataSector() <= b.SectorNumber(d)
    ensures b.SectorNumber(d) == b.FirstDataSector() + (d - 2) * b.sectorsPerCluster
  {
    EntryAddress(b, c);
    DataSectors(b, d);
    AtLeastOnce(b.tableCount, b.tableSize);
    SlotAtMost(c);
    TableEnd(Slot(c), b.tableSize, b.bytesPerSector, c, b.TotalClusters());
    hide *;
    AddUp(b.reservedSectors, 4 * Slot(c) / b.bytesPerSector, b.tableSize, b.tableCount * b.tableSize, b.RootDirSectors(),
          d - 2, b.sectorsPerCluster);
  }

  lemma AddUp(reserved: nat, sector: nat, size: nat, tables: nat, root: nat, k: nat, spc: nat)
    requires sector < size <= tables
    ensures reserved + sector < tables + reserved + root <= tables + reserved + root + k * spc
  {}

  lemma SlotAtMost(c: nat)
    ensures Slot(c) <= c
  {}

  lemma AtLeastOnce(n: nat, x: nat)
    requires n >= 1
    ensures x <= n * x
  {}

  lemma TableEnd(slot: nat, size: nat, bps: nat, c: nat, n: nat)
    requires bps in {512, 1024, 2048, 4096} && slot <= c <= n && 4 * (n + 1) <= bps * size
    ensures 4 * slot / bps < size
  {
    if bps == 512 {} else if bps == 1024 {} else if bps == 2048 {} else {}
  }

  lemma DataSectors(b: BootSector, d: nat)
    requires LaidOut(b) && b.InRange(d)
    ensures b.FirstDataSector() == b.tableCount * b.tableSize + b.reservedSectors + b.RootDirSectors()
    ensures b.SectorNumber(d) == b.FirstDataSector() + (d - 2) * b.sectorsPerCluster
  {
    hide BootSector.Valid, BootSector.RootDirSectors, LaidOut;
    LaidOutMeans(b);
    ClustersFit(b.totalSectors, b.sectorsPerCluster, d - 2);
    var tables, clusters := b.tableCount * b.tableSize, (d - 2) * b.sectorsPerCluster;
    Modulo(tables + b.reservedSectors + b.RootDirSectors());
    Modulo(tables + b.reservedSectors + b.RootDirSectors() + clusters);
  }

  lemma LaidOutMeans(b: BootSector)
    requires LaidOut(b)
    ensures b.Valid() && b.sectorsPerCluster >= 1
    ensures b.tableCount * b.tableSize + b.reservedSectors + b.RootDirSectors() + b.totalSectors < WORD
  {
    hide BootSector.RootDirSectors, BootSector.TotalClusters;
  }

  lemma Modulo(x: nat)
    requires x < WORD
    ensures x % WORD == x
  {}

  lemma ClustersFit(total: nat, spc: nat, k: nat)
    requires spc >= 1 && k <= total / spc
    ensures k * spc <= total
  {
    assert k * spc <= total / spc * spc;
  }

  // Writing an entry leaves everything from the first sector of any cluster on alone.
  lemma WriteKeepsClusterData(disk: Disk, b: BootSector, c: nat, entry: nat, d: nat, i: nat)
    requires LaidOut(b) && b.InRange(c) && b.InRange(d)
    requires SECTOR * b.SectorNumber(d) <= i < |disk|
    ensures |WriteEntry(disk, b, c, entry)| == |disk| && WriteEntry(disk, b, c, entry)[i] == disk[i]
  {
    TableBeforeData(b, c, d);
    OnlyItsEntryChanges(disk, b, c, entry);
    if Writable(disk, b, c) {
      EntryFits(b, c);
      RoomForWord(b.EntryOffset(c), SECTOR);
    }
    hide WriteEntry, BootSector.FatSector, BootSector.SectorNumber, BootSector.FirstDataSector, BootSector.TotalClusters;
  }

  // The clusters the search looks at all lie within the volume exactly when what comes before the
  // data takes no more room than two clusters and the sectors left over: their number is computed
  // from all sectors of the volume.
  lemma SearchedWithinVolumeIff(b: BootSector)
    requires LaidOut(b) && b.TotalClusters() > 2
    ensures (forall c :: 2 <= c < b.TotalClusters() ==> b.SectorNumber(c) + b.sectorsPerCluster <= b.totalSectors)
       <==> b.FirstDataSector() <= 2 * b.sectorsPerCluster + b.totalSectors % b.sectorsPerCluster
  {
    var n, spc := b.TotalClusters(), b.sectorsPerCluster;
    SplitVolume(b);
    LastCluster(n, spc);
    TableBeforeData(b, 2, n - 1);
    hide BootSector.FirstDataSector, BootSector.SectorNumber, BootSector.TotalClusters;
    forall c | 2 <= c < n ensures b.SectorNumber(c) <= b.SectorNumber(n - 1) {
      TableBeforeData(b, 2, c);
      NoLater(c - 2, n - 3, spc);
    }
  }

  lemma SplitVolume(b: BootSector)
    requires b.Valid()
    ensures b.totalSectors == b.TotalClusters() * b.sectorsPerCluster + b.totalSectors % b.sectorsPerCluster
  {}

  lemma LastCluster(n: nat, spc: nat)
    requires n > 2
    ensures n * spc == (n - 1 - 2) * spc + spc + 2 * spc
  {}

  lemma NoLater(j: nat, k: nat, spc: nat)
    requires j <= k
    ensures j * spc <= k * spc
  {}

  // For instance: two tables of 600 sectors are not made up for by two clusters of one sector, and
  // cluster 69999 is looked for beyond the 70000 sectors of the volume.
  lemma SearchedBeyondVolume()
    ensures var b := BootSector(512, 1, 32, 2, 600, 0, 70000);
      && LaidOut(b) && 2 <= 69999 < b.TotalClusters() && b.SectorNumber(69999) >= b.totalSectors
  {}

  // ---- allocating clusters ----

  // The disk holds the entries of clusters 2 to n - 1.
  ghost predicate AllReadable(disk: Disk, b: BootSector, n: nat)
    requires b.Valid()
  {
    forall c :: 2 <= c < n ==> Readable(disk, b, c)
  }

  function FreeClusters(disk: Disk, b: BootSector): set<nat>
    requires b.Valid()
  {
    set c | 2 <= c < b.TotalClusters() && ReadEntry(disk, b, c) == 0
  }

  // The search returns the least free cluster, or 0 when there is none.
  lemma {:induction false} SearchFindsLeastFree(disk: Disk, b: BootSector, from: nat)
    requires b.Valid() && from >= 2
    ensures var c := FirstFree(disk, b, from);
      if c == 0 then forall d :: d in FreeClusters(disk, b) ==> d < from
      else c in FreeClusters(disk, b) && from <= c && forall d :: d in FreeClusters(disk, b) && from <= d ==> c <= d
    decreases if from < b.TotalClusters() then b.TotalClusters() - from else 0
  {
    hide ReadEntry, BootSector.TotalClusters, BootSector.Valid;
    if from < b.TotalClusters() && ReadEntry(disk, b, from) != 0 {
      SearchFindsLeastFree(disk, b, from + 1);
    }
  }

  // The free clusters that a write for cluster c takes.
  function TakenWith(disk: Disk, b: BootSector, c: nat): set<nat>
    requires b.Valid()
  {
    if b.EntryOffset(c) < SECTOR then set d | d in FreeClusters(disk, b) && EntryAt(b, d) == EntryAt(b, c) else {}
  }

  // Writing for the cluster the search has found takes the free clusters that share its entry, or
  // none when the write does not take place.
  lemma AllocateOne(disk: Disk, b: BootSector, entry: nat)
    requires b.Valid() && AllReadable(disk, b, b.TotalClusters())
    requires entry % 0x1000_0000 != 0 && FirstFree(disk, b, 2) != 0
    ensures var c := FirstFree(disk, b, 2); var after := WriteEntry(disk, b, c, entry);
      && AllReadable(after, b, b.TotalClusters())
      && c in FreeClusters(disk, b) && FreeClusters(after, b) == FreeClusters(disk, b) - TakenWith(disk, b, c)
      && (c in TakenWith(disk, b, c) <==> b.EntryOffset(c) < SECTOR)
      && (OwnEntries(b, b.TotalClusters()) ==> TakenWith(disk, b, c) == {c})
      && (b.EntryOffset(c) < SECTOR ==> forall d :: d in FreeClusters(after, b) ==> c < d)
      && (b.EntryOffset(c) >= SECTOR ==> after == disk)
  {
    SearchFindsLeastFree(disk, b, 2);
    hide ReadEntry, WriteEntry, BootSector.TotalClusters, BootSector.Valid, BootSector.FatSector, FirstFree;
    hide OwnEntries;
    var c := FirstFree(disk, b, 2);
    var after := WriteEntry(disk, b, c, entry);
    OnlyItsEntryChanges(disk, b, c, entry);
    assert Readable(disk, b, c);
    ReadableIsWritable(disk, b, c);
    forall d | 2 <= d < b.TotalClusters()
      ensures Readable(after, b, d)
      ensures ReadEntry(after, b, d) == 0 <==> d in FreeClusters(disk, b) - TakenWith(disk, b, c)
    {
      assert Readable(disk, b, d);
      WriteThenReadAny(disk, b, c, d, entry);
    }
    if OwnEntries(b, b.TotalClusters()) {
      forall d | 2 <= d < b.TotalClusters()
        ensures b.EntryOffset(c) < SECTOR && (EntryAt(b, c) == EntryAt(b, d) <==> c == d)
      {
        OwnPlaces(b, b.TotalClusters(), c, d);
      }
    }
  }

  // The clusters handed out by searching and writing over and over, until the volume is full.
  function Allocations(disk: Disk, b: BootSector, entries: seq<nat>): seq<nat>
    requires b.Valid()
    decreases |entries|
  {
    var c := FirstFree(disk, b, 2);
    if entries == [] || c == 0 then []
    else [c] + Allocations(WriteEntry(disk, b, c, entries[0]), b, entries[1..])
  }

  function DiskAfter(disk: Disk, b: BootSector, entries: seq<nat>): Disk
    requires b.Valid()
    decreases |entries|
  {
    var c := FirstFree(disk, b, 2);
    if entries == [] || c == 0 then disk else DiskAfter(WriteEntry(disk, b, c, entries[0]), b, entries[1..])
  }

  ghost predicate Increasing(cs: seq<nat>) {
    forall i, j :: 0 <= i < j < |cs| ==> cs[i] < cs[j]
  }

  // All of them but the last have their entries in the first 512 bytes of a sector.
  ghost predicate AllWritten(b: BootSector, cs: seq<nat>)
    requires b.Valid()
  {
    forall i :: 0 <= i < |cs| - 1 ==> b.EntryOffset(cs[i]) < SECTOR
  }

  // Whatever the sector size, they were all free, and they come in increasing order exactly as long
  // as each is written: one that is not comes again for ever.
  lemma {:induction false} AllocationsIncreaseIff(disk: Disk, b: BootSector, entries: seq<nat>)
    requires b.Valid() && AllReadable(disk, b, b.TotalClusters())
    requires forall i :: 0 <= i < |entries| ==> entries[i] % 0x1000_0000 != 0
    ensures var cs := Allocations(disk, b, entries);
      && (forall c :: c in cs ==> c in FreeClusters(disk, b))
      && (Increasing(cs) <==> AllWritten(b, cs))
    decreases |entries|
  {
    hide ReadEntry, WriteEntry, BootSector.TotalClusters, BootSector.Valid, FirstFree, FreeClusters, AllReadable, TakenWith;
    hide BootSector.EntryOffset, OwnEntries;
    var c, cs := FirstFree(disk, b, 2), Allocations(disk, b, entries);
    if c != 0 && entries != [] {
      AllocateOne(disk, b, entries[0]);
      var after, rest := WriteEntry(disk, b, c, entries[0]), cs[1..];
      AllocationsIncreaseIff(after, b, entries[1..]);
      assert cs == [c] + rest && rest == Allocations(after, b, entries[1..]);
      FirstIsLeast(cs);
      OneMoreWritten(b, c, rest);
      if b.EntryOffset(c) < SECTOR {
        forall k | 1 <= k < |cs| ensures c < cs[k] {
          assert cs[k] in rest;
        }
      } else if rest != [] {
        assert rest[0] == c;
      }
    }
  }

  // Every free cluster has its entry in the first 512 bytes of a sector.
  ghost predicate FreeAreWritable(disk: Disk, b: BootSector)
    requires b.Valid()
  {
    forall c :: c in FreeClusters(disk, b) ==> b.EntryOffset(c) < SECTOR
  }

  ghost predicate AllNonFree(entries: seq<nat>) {
    forall i :: 0 <= i < |entries| ==> entries[i] % 0x1000_0000 != 0
  }

  // Seen from the disk at the start: every run of allocations comes in increasing order exactly when
  // every free cluster has its entry in the first 512 bytes of a sector.
  lemma RunsIncreaseIff(disk: Disk, b: BootSector)
    requires b.Valid() && AllReadable(disk, b, b.TotalClusters())
    ensures (forall entries :: AllNonFree(entries) ==> Increasing(Allocations(disk, b, entries)))
       <==> FreeAreWritable(disk, b)
  {
    hide Allocations, Increasing, FreeClusters, AllReadable, BootSector.EntryOffset, BootSector.TotalClusters, BootSector.Valid;
    if FreeAreWritable(disk, b) {
      forall entries | AllNonFree(entries) ensures Increasing(Allocations(disk, b, entries)) {
        AllocationsIncreaseIff(disk, b, entries);
        assert forall i :: 0 <= i < |Allocations(disk, b, entries)| ==>
          Allocations(disk, b, entries)[i] in Allocations(disk, b, entries);
      }
    } else {
      var c :| c in FreeClusters(disk, b) && b.EntryOffset(c) >= SECTOR;
      FirstOfItsSlot(disk, b, c);
      var entries := RepeatingRun(disk, b, Slot(c));
    }
  }

  // The least cluster number with the same entry: it is free too.
  lemma FirstOfItsSlot(disk: Disk, b: BootSector, c: nat)
    requires b.Valid() && AllReadable(disk, b, b.TotalClusters())
    requires c in FreeClusters(disk, b) && b.EntryOffset(c) >= SECTOR
    ensures Slot(c) in FreeClusters(disk, b) && b.EntryOffset(Slot(c)) >= SECTOR && Slot(c) < 0x4000_0000
  {
    hide *;
    var s := Slot(c);
    SlotAtMost(c);
    SlotOfSlot(c);
    EntryAddress(b, c);
    EntryAddress(b, s);
    assert s >= 128;
    FreeMeans(disk, b, c);
    FreeMeans(disk, b, s);
    SamePlace(disk, b, c, s);
  }

  lemma SlotOfSlot(c: nat)
    ensures Slot(Slot(c)) == Slot(c) < 0x4000_0000
  {}

  lemma FreeMeans(disk: Disk, b: BootSector, c: nat)
    requires b.Valid() && AllReadable(disk, b, b.TotalClusters())
    ensures c in FreeClusters(disk, b) <==> 2 <= c < b.TotalClusters() && ReadEntry(disk, b, c) == 0
    ensures 2 <= c < b.TotalClusters() ==> Readable(disk, b, c)
  {
    hide ReadEntry, BootSector.TotalClusters, BootSector.Valid;
  }

  lemma SamePlace(disk: Disk, b: BootSector, c: nat, d: nat)
    requires b.Valid() && Readable(disk, b, c) && Readable(disk, b, d)
    requires b.FatSector(c) == b.FatSector(d) && b.EntryOffset(c) == b.EntryOffset(d)
    ensures ReadEntry(disk, b, c) == ReadEntry(disk, b, d)
  {
    hide Le, BootSector.FatSector, BootSector.EntryOffset, BootSector.TotalClusters;
  }

  // A cluster whose entry lies in the first 512 bytes of a sector and is shared by an entry further
  // on in a sector has the greater number.
  lemma SharedIsGreater(b: BootSector, d: nat, s: nat)
    requires b.Valid() && s < 0x4000_0000 && EntryAt(b, d) == EntryAt(b, s)
    requires b.EntryOffset(d) < SECTOR <= b.EntryOffset(s)
    ensures d > s
  {
    hide *;
    EntryAddress(b, d);
    EntryAddress(b, s);
    SlotAtMost(d);
    OwnSlot(s);
    LaterSector(b, d, s);
    ValidSectorSize(b);
    GreaterQuotient(4 * Slot(d), 4 * Slot(s), b.bytesPerSector);
  }

  lemma OwnSlot(s: nat)
    requires s < 0x4000_0000
    ensures Slot(s) == s
  {}

  lemma ValidSectorSize(b: BootSector)
    requires b.Valid()
    ensures b.bytesPerSector in {512, 1024, 2048, 4096}
  {}

  lemma LaterSector(b: BootSector, d: nat, s: nat)
    requires b.Valid() && EntryAt(b, d) == EntryAt(b, s) && b.EntryOffset(d) < SECTOR <= b.EntryOffset(s)
    ensures b.FatSector(d) > b.FatSector(s)
  {
    hide BootSector.FatSector, BootSector.EntryOffset, BootSector.Valid;
  }

  lemma GreaterQuotient(x: nat, y: nat, n: nat)
    requires n in {512, 1024, 2048, 4096} && x / n > y / n
    ensures x > y
  {
    if n == 512 {} else if n == 1024 {} else if n == 2048 {} else {}
  }

  // While such a cluster is free, some run repeats a cluster: the search gets to one that cannot be
  // written, at the latest to this one.
  lemma {:induction false} RepeatingRun(disk: Disk, b: BootSector, s: nat) returns (entries: seq<nat>)
    requires b.Valid() && AllReadable(disk, b, b.TotalClusters())
    requires s in FreeClusters(disk, b) && b.EntryOffset(s) >= SECTOR && s < 0x4000_0000
    ensures AllNonFree(entries) && !Increasing(Allocations(disk, b, entries))
    decreases |FreeClusters(disk, b)|
  {
    hide ReadEntry, WriteEntry, BootSector.TotalClusters, BootSector.Valid, FirstFree, FreeClusters, AllReadable;
    hide BootSector.EntryOffset, OwnEntries, EntryAt, Allocations, Increasing;
    FoundAtMost(disk, b, s);
    var c := FirstFree(disk, b, 2);
    AllocateOne(disk, b, 1);
    var after := WriteEntry(disk, b, c, 1);
    if b.EntryOffset(c) >= SECTOR {
      entries := [1, 1];
      FoundTwice(disk, b);
    } else {
      if EntryAt(b, s) == EntryAt(b, c) {
        SharedIsGreater(b, c, s);
      }
      assert s !in TakenWith(disk, b, c) && c in TakenWith(disk, b, c);
      assert FreeClusters(after, b) < FreeClusters(disk, b);
      FewerMembers(FreeClusters(after, b), FreeClusters(disk, b));
      var rest := RepeatingRun(after, b, s);
      entries := [1] + rest;
      OneMoreAllocation(disk, b, 1, rest);
      FirstIsLeast(Allocations(disk, b, entries));
      assert forall i :: 1 <= i < |entries| ==> entries[i] == rest[i - 1];
    }
  }

  lemma FewerMembers(a: set<nat>, b: set<nat>)
    requires a < b
    ensures |a| < |b|
  {
    assert b == a + (b - a) && b - a != {};
  }

  lemma FoundAtMost(disk: Disk, b: BootSector, s: nat)
    requires b.Valid() && s in FreeClusters(disk, b)
    ensures 2 <= FirstFree(disk, b, 2) <= s
  {
    SearchFindsLeastFree(disk, b, 2);
    NoneBelow2(disk, b);
    hide FreeClusters, FirstFree;
  }

  lemma OneMoreAllocation(disk: Disk, b: BootSector, entry: nat, rest: seq<nat>)
    requires b.Valid() && FirstFree(disk, b, 2) != 0
    ensures var c := FirstFree(disk, b, 2); var cs := Allocations(disk, b, [entry] + rest);
      cs != [] && cs[0] == c && cs[1..] == Allocations(WriteEntry(disk, b, c, entry), b, rest)
  {
    assert ([entry] + rest)[1..] == rest;
    hide FirstFree, WriteEntry;
  }

  lemma FoundTwice(disk: Disk, b: BootSector)
    requires b.Valid() && FirstFree(disk, b, 2) != 0 && WriteEntry(disk, b, FirstFree(disk, b, 2), 1) == disk
    ensures !Increasing(Allocations(disk, b, [1, 1]))
  {
    OneMoreAllocation(disk, b, 1, [1]);
    OneMoreAllocation(disk, b, 1, []);
    assert [1] + [1] == [1, 1] && [1] + [] == [1];
    hide FirstFree, WriteEntry, Allocations;
    var cs := Allocations(disk, b, [1, 1]);
    assert cs[1] == cs[1..][0] == cs[0];
  }

  lemma FirstIsLeast(cs: seq<nat>)
    requires cs != []
    ensures Increasing(cs) <==> Increasing(cs[1..]) && forall k :: 1 <= k < |cs| ==> cs[0] < cs[k]
  {
    var rest := cs[1..];
    if Increasing(cs) {
      forall i, j | 0 <= i < j < |rest| ensures rest[i] < rest[j] {
        assert cs[i + 1] < cs[j + 1];
      }
    }
    if Increasing(rest) {
      forall i, j | 1 <= i < j < |cs| ensures cs[i] < cs[j] {
        assert rest[i - 1] < rest[j - 1];
      }
    }
  }

  lemma OneMoreWritten(b: BootSector, c: nat, rest: seq<nat>)
    requires b.Valid()
    ensures AllWritten(b, [c] + rest) <==> AllWritten(b, rest) && (rest != [] ==> b.EntryOffset(c) < SECTOR)
  {
    hide BootSector.EntryOffset, BootSector.Valid;
    var cs := [c] + rest;
    assert forall i :: 0 <= i < |rest| ==> cs[i + 1] == rest[i];
    if AllWritten(b, cs) {
      forall i | 0 <= i < |rest| - 1 ensures b.EntryOffset(rest[i]) < SECTOR {
        assert b.EntryOffset(cs[i + 1]) < SECTOR;
      }
      assert rest != [] ==> b.EntryOffset(cs[0]) < SECTOR;
    }
  }

  // Where the entries are their own, they come without repetition, are no longer free afterwards,
  // and their number is that of the values or of the free clusters, whichever is less.
  lemma {:induction false} AllocationsAreFresh(disk: Disk, b: BootSector, entries: seq<nat>)
    requires b.Valid() && AllReadable(disk, b, b.TotalClusters()) && OwnEntries(b, b.TotalClusters())
    requires forall i :: 0 <= i < |entries| ==> entries[i] % 0x1000_0000 != 0
    ensures var cs := Allocations(disk, b, entries);
      && (forall i, j :: 0 <= i < j < |cs| ==> cs[i] < cs[j])
      && (forall c :: c in cs ==> c in FreeClusters(disk, b))
      && (forall c :: c in FreeClusters(DiskAfter(disk, b, entries), b) <==> c in FreeClusters(disk, b) && c !in cs)
      && |cs| == (if |entries| <= |FreeClusters(disk, b)| then |entries| else |FreeClusters(disk, b)|)
    decreases |entries|
  {
    hide ReadEntry, WriteEntry, BootSector.TotalClusters, BootSector.Valid, FirstFree, FreeClusters, AllReadable, TakenWith;
    hide BootSector.EntryOffset, OwnEntries;
    SearchFindsLeastFree(disk, b, 2);
    NoneBelow2(disk, b);
    var c := FirstFree(disk, b, 2);
    if c == 0 {
      assert FreeClusters(disk, b) == {};
    } else if entries != [] {
      AllocateOne(disk, b, entries[0]);
      var after := WriteEntry(disk, b, c, entries[0]);
      AllocationsAreFresh(after, b, entries[1..]);
      assert FreeClusters(disk, b) == FreeClusters(after, b) + {c};
      assert |FreeClusters(disk, b)| == |FreeClusters(after, b)| + 1;
      var cs, rest := Allocations(disk, b, entries), Allocations(after, b, entries[1..]);
      assert cs == [c] + rest;
      assert forall x :: x in cs <==> x == c || x in rest;
      assert forall j :: 0 <= j < |rest| ==> c < rest[j] by {
        forall j | 0 <= j < |rest| ensures c < rest[j] { assert rest[j] in rest; }
      }
    }
  }

  lemma NoneBelow2(disk: Disk, b: BootSector)
    requires b.Valid()
    ensures forall c :: c in FreeClusters(disk, b) ==> c >= 2
  {}
}
