/** What a boot sector says of the volume behind it, and what a freshly formatted volume means. */
module Mounting {
  import opened Sectors
  import opened FatDisk
  import opened Chains
  import opened Extents
  import opened Directory
  import opened FileSystem
  import opened EntrySteps

  /** A boot sector the driver takes its geometry from. */
  predicate HasBpb(b: Sector) {
    b[510] == 0x55 && b[511] == 0xAA && Le16(b[11], b[12]) == 512
    && b[13] > 0 && Le16(b[14], b[15]) > 0 && Le16(b[22], b[23]) > 0
  }

  /** The fields of a BIOS parameter block the driver uses; total counts the sectors of the volume. */
  datatype Bpb = Bpb(spc: nat, reserved: nat, numFats: nat, rootEntries: nat, fatSize: nat, total: nat)
  {
    /** Where the data clusters start, counted from the start of the volume. */
    function DataStart(): nat { reserved + numFats * fatSize + (rootEntries * 32 + 511) / 512 }

    function Clusters(): nat
      requires spc > 0
    {
      if total > DataStart() then (total - DataStart()) / spc else 0
    }
  }

  /** The block of a boot sector, or the fixed one of a 16 MB volume without a boot sector. */
  ghost function BpbOf(b: Sector): (p: Bpb)
    ensures 1 <= p.spc < 256 && p.reserved > 0 && p.fatSize > 0
  {
    if HasBpb(b) then
      Bpb(b[13], Le16(b[14], b[15]), b[16], Le16(b[17], b[18]), Le16(b[22], b[23]),
          if Le16(b[19], b[20]) != 0 then Le16(b[19], b[20]) else Le32(b[32], b[33], b[34], b[35]))
    else Bpb(16, 16, 2, 512, 16, 32768)
  }

  /** The fields by byte offset. */
  lemma BpbBytes(b: Sector)
    ensures
      BpbOf(b) ==
        if b[510] == 0x55 && b[511] == 0xAA && b[11] == 0 && b[12] == 2 && b[13] > 0
           && (b[14] > 0 || b[15] > 0) && (b[22] > 0 || b[23] > 0)
        then
          Bpb(b[13], b[14] as int + 256 * b[15] as int, b[16], b[17] as int + 256 * b[18] as int,
              b[22] as int + 256 * b[23] as int,
              if b[19] > 0 || b[20] > 0 then b[19] as int + 256 * b[20] as int
              else b[32] as int + 0x100 * b[33] as int + 0x1_0000 * b[34] as int + 0x100_0000 * b[35] as int)
        else Bpb(16, 16, 2, 512, 16, 32768)
  {
  }

  /** A floppy of 2880 sectors: its geometry is read from its boot sector. */
  lemma FloppyGeometry(d: Disk, lba: nat)
    requires lba < |d|
    requires d[lba][510] == 0x55 && d[lba][511] == 0xAA && d[lba][11] == 0 && d[lba][12] == 2
    requires d[lba][13] == 1 && d[lba][14] == 1 && d[lba][15] == 0 && d[lba][16] == 2 && d[lba][17] == 224
    requires d[lba][18] == 0 && d[lba][19] == 64 && d[lba][20] == 11 && d[lba][22] == 9 && d[lba][23] == 0
    ensures Mountable(d, lba) && GeometryAt(d, lba) == Geometry(lba + 1, lba + 19, lba + 33, 224, 1, 2, 9, 2847)
  {
    hide BpbOf;
    BpbBytes(d[lba]);
    assert BpbOf(d[lba]) == Bpb(1, 1, 2, 224, 9, 2880);
  }

  /** The geometry of the volume that starts at sector lba of the disk. */
  ghost function GeometryAt(d: Disk, lba: nat): Geometry
    requires lba < |d|
  {
    var p := BpbOf(d[lba]);
    var fat, root := lba + p.reserved, lba + p.reserved + p.numFats * p.fatSize;
    Geometry(fat, root, lba + p.DataStart(), p.rootEntries, p.spc, p.numFats, p.fatSize, p.Clusters())
  }

  /** The volume is one the driver mounts: it has clusters, and few enough of them for 12 bits. */
  ghost predicate Mountable(d: Disk, lba: nat)
    requires lba < |d|
  {
    1 <= BpbOf(d[lba]).Clusters() <= 4085
  }

  /** What mounting does not check: a FAT, long enough for every cluster, and the whole volume on the disk. */
  ghost predicate WellSized(d: Disk, lba: nat)
    requires lba < |d|
  {
    var p := BpbOf(d[lba]);
    1 <= p.numFats && (ByteOff(p.Clusters() + 1) + 1) / 512 < p.fatSize && lba + p.total <= |d|
  }

  /** A geometry computed from the block's fields is the one the volume is mounted with. */
  lemma MountedAs(g: Geometry, d: Disk, lba: nat, total: nat)
    requires lba < |d| && g.fatLba >= lba
    requires BpbOf(d[lba]) == Bpb(g.secPerClus, g.fatLba - lba, g.numFats, g.rootEntries, g.fatSize, total)
    requires g.rootLba == g.fatLba + g.numFats * g.fatSize
    requires g.dataLba == g.rootLba + (g.rootEntries * 32 + 511) / 512
    ensures g.secPerClus > 0 && lba < g.fatLba <= g.rootLba <= g.dataLba
    ensures Mountable(d, lba) <==> total > g.dataLba - lba && 1 <= (total - (g.dataLba - lba)) / g.secPerClus <= 4085
    ensures total > g.dataLba - lba && g.totalClusters == (total - (g.dataLba - lba)) / g.secPerClus ==>
              GeometryAt(d, lba) == g
    ensures total > g.dataLba - lba && g.totalClusters == (total - (g.dataLba - lba)) / g.secPerClus ==>
              (WellSized(d, lba) <==>
                 1 <= g.numFats && ((g.totalClusters + 1) * 3 / 2 + 1) / 512 < g.fatSize && lba + total <= |d|)
    ensures total > g.dataLba - lba && g.totalClusters == (total - (g.dataLba - lba)) / g.secPerClus
            && 1 <= g.totalClusters <= 4085 && WellSized(d, lba) ==>
              GeometryOk(g, |d|)
  {
    hide BpbOf, GeometryOk;
    var p := BpbOf(d[lba]);
    assert p.DataStart() == g.dataLba - lba;
    if total > g.dataLba - lba && g.totalClusters == (total - (g.dataLba - lba)) / g.secPerClus
       && 1 <= g.totalClusters <= 4085
    {
      MountedWhen(g, |d|, lba + total);
    }
  }

  ghost predicate AllClosed(fds: seq<FD>) {
    forall i | 0 <= i < |fds| :: !fds[i].used
  }

  /** An empty root directory and nothing else, apart from clusters marked bad. */
  ghost function EmptyModel(bad: set<nat>): Model { Model(map[], map[], map[], map[], 0, bad) }

  ghost predicate Formatted(v: Volume, bad: set<nat>) {
    && (forall c | 2 <= c < |v.fat| :: v.fat[c] == if c in bad then FAT_BAD else FAT_FREE)
    && (forall c | c in bad :: 2 <= c < |v.fat|)
    && (forall k | 0 <= k < |v.root| :: v.root[k] == ZeroSector())
  }

  /** A freshly formatted volume means an empty root directory and nothing else. */
  lemma FormattedInv(g: Geometry, v: Volume, fds: seq<FD>, bad: set<nat>)
    requires VolumeOk(g, v) && |v.fat| <= FAT_BAD && |fds| == MAX_FDS && AllClosed(fds) && Formatted(v, bad)
    ensures Inv(g, v, fds, EmptyModel(bad))
  {
    hide DirOk;
    var m := EmptyModel(bad);
    ZeroSlots(v.root);
    assert Conserved(v.fat, m.own, m.bad);
    var slots := SlotsOf(g, v, m, 0);
    assert AllEnd(slots);
    AllEndOk(slots, MaxEnts(g, 0));
  }

  /** Distance arithmetic of mounting. */
  lemma MountedWhen(g: Geometry, n: nat, end: nat)
    requires g.rootLba == g.fatLba + g.numFats * g.fatSize
    requires g.dataLba == g.rootLba + (g.rootEntries * 32 + 511) / 512
    requires 1 <= g.secPerClus < 256 && 1 <= g.totalClusters <= 4085
    requires g.dataLba <= end && g.totalClusters == (end - g.dataLba) / g.secPerClus
    ensures 1 <= g.numFats && (ByteOff(g.totalClusters + 1) + 1) / 512 < g.fatSize && end <= n ==> GeometryOk(g, n)
  {
    TimesIsProduct(g.totalClusters, g.secPerClus);
    var d := end - g.dataLba;
    assert d == d / g.secPerClus * g.secPerClus + d % g.secPerClus;
    assert d / g.secPerClus * g.secPerClus <= d;
    if 1 <= g.numFats { ProductMonotone(1, g.numFats, g.fatSize); }
    if 1 < g.numFats { ProductMonotone(2, g.numFats, g.fatSize); }
  }
}
