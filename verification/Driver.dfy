/** The driver: one scratch sector buffer, a geometry, a descriptor table and a disk. */
module Driver {
  import opened Sectors
  import opened FatDisk
  import opened Chains
  import opened Extents
  import opened Directory
  import opened FileSystem
  import opened FileSteps
  import opened EntrySteps
  import opened Operations
  import opened Paths
  import opened FileBytes
  import opened Mounting
  import opened Calls

  /** Compare two 8.3 names, letters in either case. */
  method Match83(a: Name, b: Name) returns (same: bool)
    ensures same <==> UpperName(a) == UpperName(b)
    ensures same <==> forall i | 0 <= i < 11 ::
      (if 97 <= a[i] <= 122 then a[i] - 32 else a[i]) == if 97 <= b[i] <= 122 then b[i] - 32 else b[i]
  {
    var i := 0;
    while i < 11
      invariant 0 <= i <= 11
      invariant forall j | 0 <= j < i :: Upper(a[j]) == Upper(b[j])
    {
      var x, y := a[i], b[i];
      if 97 <= x <= 122 { x := x - 32; }
      if 97 <= y <= 122 { y := y - 32; }
      if x != y {
        assert UpperName(a)[i] != UpperName(b)[i];
        return false;
      }
      i := i + 1;
    }
    return true;
  }

  /** Convert a path component to 8.3 form: up to eight bytes before the first dot, which is at d, up to three
      after it, upper-cased and space-padded. */
  method To83Name(comp: seq<Byte>) returns (name: seq<Byte>, ghost d: nat)
    ensures name == To83(comp)
    ensures comp == [] || comp[0] == 46 ==> forall i | 0 <= i < 11 :: name[i] == 32
    ensures comp != [] && comp[0] != 46 ==>
      0 < d <= |comp| && (forall k | 0 <= k < d :: comp[k] != 46) && (d < |comp| ==> comp[d] == 46)
    ensures comp != [] && comp[0] != 46 ==>
      (forall i | 0 <= i < 8 ::
         name[i] == if i >= d then 32 else if 97 <= comp[i] <= 122 then comp[i] - 32 else comp[i])
    ensures comp != [] && comp[0] != 46 ==>
      (forall i | 8 <= i < 11 ::
         name[i] == if d + i - 7 >= |comp| then 32
                    else if 97 <= comp[d + i - 7] <= 122 then comp[d + i - 7] - 32 else comp[d + i - 7])
  {
    hide Field, IndexOf, To83;
    d := 0;
    name := seq(11, i => SPACE);
    if comp == [] || comp[0] == DOT {
      To83Spaces(comp);
      return;
    }
    d := IndexOf(comp, DOT);
    To83Bytes(comp, d);
    To83Parts(comp);
    var dotPos;
    name, dotPos := FillStem(name, comp);
    while dotPos < |comp| && comp[dotPos] != DOT
      invariant dotPos <= d
    {
      NotDotYet(comp, dotPos);
      dotPos := dotPos + 1;
    }
    IndexReached(comp, dotPos);
    assert comp[|comp|..] == [];
    if dotPos < |comp| && comp[dotPos] == DOT {
      name := FillExtension(name, comp, dotPos + 1);
    }
    assert name == name[..8] + name[8..];
  }

  /** The eight places before the dot; i is how far the copy went. */
  method FillStem(blank: seq<Byte>, comp: seq<Byte>) returns (name: seq<Byte>, i: nat)
    requires blank == seq(11, i => SPACE)
    ensures |name| == 11 && name[..8] == Field(comp[..IndexOf(comp, DOT)], 8) && name[8..] == Field([], 3)
    ensures i <= IndexOf(comp, DOT)
  {
    name, i := blank, 0;
    while i < |comp| && comp[i] != DOT && i < 8
      invariant 0 <= i <= 8 && i <= IndexOf(comp, DOT) && |name| == 11
      invariant name == Field(comp[..i], 11)
    {
      NotDotYet(comp, i);
      var c := comp[i];
      if 97 <= c <= 122 { c := c - 32; }
      name := name[i := c];
      i := i + 1;
    }
    NameField(comp, i);
    assert name[8..] == Field([], 3);
  }

  /** The three places after the dot. */
  method FillExtension(start: seq<Byte>, comp: seq<Byte>, from: nat) returns (name: seq<Byte>)
    requires |start| == 11 && from <= |comp| && start[8..] == Field([], 3)
    ensures |name| == 11 && name[..8] == start[..8] && name[8..] == Field(comp[from..], 3)
  {
    name := start;
    var dotPos, j := from, 8;
    ghost var ext := comp[from..];
    while dotPos < |comp| && j < 11
      invariant 8 <= j <= 11 && dotPos == from + (j - 8) <= |comp| && |name| == 11
      invariant name[..8] == start[..8] && name[8..] == Field(ext[..j - 8], 3)
    {
      var c := comp[dotPos];
      if 97 <= c <= 122 { c := c - 32; }
      ghost var before := name;
      name := name[j := c];
      assert name[..8] == before[..8] && name[8..] == before[8..][j - 8 := c];
      assert ext[..j - 7] == ext[..j - 8] + [comp[dotPos]];
      j := j + 1;
      dotPos := dotPos + 1;
    }
    assert Field(ext[..j - 8], 3) == Field(ext, 3);
  }

  /** How many bytes stand before the next slash. */
  method ComponentLen(path: seq<Byte>, pos: nat) returns (len: nat)
    requires pos <= |path|
    ensures len == IndexOf(path[pos..], SLASH) && pos + len <= |path|
    ensures pos + len < |path| ==> path[pos + len] == SLASH
  {
    ghost var rest := path[pos..];
    len := 0;
    while pos + len < |path| && path[pos + len] != SLASH
      invariant 0 <= len <= IndexOf(rest, SLASH) && pos + len <= |path|
    {
      assert rest[len] == path[pos + len];
      IndexBeyond(rest, SLASH, len);
      len := len + 1;
    }
    assert pos + len < |path| ==> rest[len] == path[pos + len];
    IndexExact(rest, SLASH, len);
  }

  /** The 8.3 name of a component, of which at most 255 bytes are looked at; d is where its first dot is. */
  method ComponentName(path: seq<Byte>, pos: nat, len: nat) returns (name: Name, ghost d: nat)
    requires 0 < len && pos + len <= |path| && 0 !in path
    ensures name == CompName(path[pos..pos + len])
    ensures UpperName(name) == name && name[0] != DOT && name[0] != 0
    ensures var comp := path[pos..pos + if len < 255 then len else 255];
      if comp[0] == 46 then forall i | 0 <= i < 11 :: name[i] == 32
      else
        && 0 < d <= |comp| && (forall k | 0 <= k < d :: comp[k] != 46) && (d < |comp| ==> comp[d] == 46)
        && (forall i | 0 <= i < 8 ::
              name[i] == if i >= d then 32 else if 97 <= comp[i] <= 122 then comp[i] - 32 else comp[i])
        && (forall i | 8 <= i < 11 ::
              name[i] == if d + i - 7 >= |comp| then 32
                         else if 97 <= comp[d + i - 7] <= 122 then comp[d + i - 7] - 32 else comp[d + i - 7])
  {
    hide To83, UpperName;
    var comp := path[pos..pos + len][..if len < MAX_COMPONENT then len else MAX_COMPONENT];
    assert comp == path[pos..pos + if len < 255 then len else 255];
    assert 0 !in comp;
    name, d := To83Name(comp);
  }

  /** A byte position as a number of whole clusters and an offset into the next one. */
  method ClusterPlace(pos: nat, w: nat, ghost n: nat) returns (skip: nat, off: nat)
    requires w > 0
    ensures Times(skip, w) * 512 + off == pos && off < w * 512
    ensures skip < n <==> pos < Times(n, w) * 512
  {
    hide Times;
    var csz := w * 512;
    Locate(pos, w, 512);
    LocateInside(pos, w, 512, n);
    skip := pos / csz;
    off := pos % csz;
    assert pos == pos / 512 * 512 + pos % 512 && off == off / 512 * 512 + off % 512;
  }

  lemma NotDotYet(comp: seq<Byte>, i: nat)
    requires i < |comp| && i <= IndexOf(comp, DOT) && comp[i] != DOT
    ensures i < IndexOf(comp, DOT)
  {
  }

  lemma IndexReached(comp: seq<Byte>, i: nat)
    requires i <= IndexOf(comp, DOT) && (i == |comp| || comp[i] == DOT)
    ensures i == IndexOf(comp, DOT)
  {
  }

  lemma NameField(comp: seq<Byte>, i: nat)
    requires i <= IndexOf(comp, DOT) && i <= 8 && (i == 8 || i == IndexOf(comp, DOT) || comp[i] == DOT)
    ensures Field(comp[..i], 11)[..8] == Field(comp[..IndexOf(comp, DOT)], 8)
    ensures Field(comp[..i], 11)[8..] == Field([], 3)
  {
  }

  class Fat12 {
    var disk: Disk
    var geo: Geometry
    var fds: seq<FD>
    const buf: array<Byte>
    ghost var m: Model

    ghost predicate Mounted()
      reads this
    {
      GeometryOk(geo, |disk|) && buf.Length == 512
    }

    ghost function Vol(): Volume
      reads this
      requires Mounted()
    {
      VolumeOf(geo, disk)
    }

    /** The volume and the descriptors carry the meaning `m`. */
    ghost predicate Valid()
      reads this
    {
      Mounted() && Inv(geo, Vol(), fds, m)
    }

    lemma MountedBounds()
      requires Mounted()
      ensures 0 < geo.secPerClus < 256 && geo.totalClusters <= 4085
              && |Vol().fat| == |Vol().data| == geo.Limit() <= FAT_BAD
      ensures VolumeOk(geo, Vol())
      ensures Keeps(geo, disk, disk)
    {
    }

    /** The driver before mounting: no geometry, every descriptor unused. */
    constructor (d: Disk)
      ensures disk == d && buf.Length == 512 && fresh(buf)
      ensures |fds| == MAX_FDS && AllClosed(fds) && m == EmptyModel({})
    {
      disk := d;
      geo := Geometry(0, 0, 0, 0, 0, 0, 0, 0);
      fds := seq(MAX_FDS, i => FD(false, 0, 0, 0, 0, 0));
      buf := new Byte[512](i => 0);
      m := EmptyModel({});
    }

    /** Mount the volume that starts at sector `lbaStart`: exactly when its boot sector says so, with the
        geometry its boot sector says, and with every cluster number below the marks. */
    method Init(lbaStart: nat) returns (ok: bool, ghost total: nat)
      requires lbaStart < |disk| && buf.Length == 512 && |fds| == MAX_FDS
      modifies `geo, `fds, buf
      ensures |fds| == MAX_FDS && (ok <==> Mountable(disk, lbaStart))
      ensures ok ==> geo == GeometryAt(disk, lbaStart) && AllClosed(fds)
      ensures ok ==> geo.Limit() <= FAT_BAD && lbaStart < geo.fatLba <= geo.rootLba <= geo.dataLba
      ensures ok && WellSized(disk, lbaStart) ==> Mounted()
      ensures var b := disk[lbaStart];
        if b[510] == 0x55 && b[511] == 0xAA && b[11] == 0 && b[12] == 2 && b[13] > 0
           && (b[14] > 0 || b[15] > 0) && (b[22] > 0 || b[23] > 0)
        then
          && geo.secPerClus == b[13] && geo.fatLba == lbaStart + b[14] as int + 256 * b[15] as int
          && geo.numFats == b[16] && geo.rootEntries == b[17] as int + 256 * b[18] as int
          && geo.fatSize == b[22] as int + 256 * b[23] as int
          && total == if b[19] > 0 || b[20] > 0 then b[19] as int + 256 * b[20] as int
                      else b[32] as int + 0x100 * b[33] as int + 0x1_0000 * b[34] as int + 0x100_0000 * b[35] as int
        else
          && geo.secPerClus == 16 && geo.fatLba == lbaStart + 16 && geo.numFats == 2 && geo.rootEntries == 512
          && geo.fatSize == 16 && total == 32768
      ensures geo.rootLba == geo.fatLba + geo.numFats * geo.fatSize
      ensures geo.dataLba == geo.rootLba + (geo.rootEntries * 32 + 511) / 512
      ensures geo.secPerClus > 0
      ensures ok <==> total > geo.dataLba - lbaStart
                      && 1 <= (total - (geo.dataLba - lbaStart)) / geo.secPerClus <= 4085
      ensures ok ==> geo.totalClusters == (total - (geo.dataLba - lbaStart)) / geo.secPerClus
      ensures ok && geo.numFats >= 1 && ((geo.totalClusters + 1) * 3 / 2 + 1) / 512 < geo.fatSize
              && lbaStart + total <= |disk| ==>
                Mounted()
    {
      hide GeometryOk, Times, ByteOff, BpbOf, GeometryAt, Mountable, WellSized;
      var spc, reserved, numFats, rootEntries, fatSize, totalSectors := ReadBpb(lbaStart);
      total := totalSectors;
      ok := SetGeometry(lbaStart, spc, reserved, numFats, rootEntries, fatSize, totalSectors);
      MountedAs(geo, disk, lbaStart, total);
      if !ok { return; }
      fds := seq(MAX_FDS, i requires 0 <= i < MAX_FDS && |fds| == MAX_FDS reads this => fds[i].(used := false));
    }

    /** Where the regions of the volume are; false unless there are 1 to 4085 clusters. */
    method SetGeometry(lbaStart: nat, spc: nat, reserved: nat, numFats: nat, rootEntries: nat, fatSize: nat,
                       totalSectors: nat) returns (ok: bool)
      requires spc > 0
      modifies `geo
      ensures geo.fatLba == lbaStart + reserved && geo.secPerClus == spc && geo.numFats == numFats
      ensures geo.rootEntries == rootEntries && geo.fatSize == fatSize
      ensures geo.rootLba == geo.fatLba + geo.numFats * geo.fatSize
      ensures geo.dataLba == geo.rootLba + (geo.rootEntries * 32 + 511) / 512
      ensures ok <==> totalSectors > geo.dataLba - lbaStart
                      && 1 <= (totalSectors - (geo.dataLba - lbaStart)) / geo.secPerClus <= 4085
      ensures ok ==> geo.totalClusters == (totalSectors - (geo.dataLba - lbaStart)) / geo.secPerClus
    {
      var fatLba := lbaStart + reserved;
      var rootDirSectors := (rootEntries * 32 + 511) / 512;
      var rootLba := fatLba + numFats * fatSize;
      var dataLba := rootLba + rootDirSectors;
      geo := Geometry(fatLba, rootLba, dataLba, rootEntries, spc, numFats, fatSize, geo.totalClusters);
      if totalSectors <= dataLba - lbaStart { return false; }
      var dataSectors := totalSectors - (dataLba - lbaStart);
      var clusters := dataSectors / spc;
      geo := geo.(totalClusters := clusters);
      if clusters == 0 { return false; }
      if clusters > 4085 { return false; }
      return true;
    }

    /** The fields of the boot sector, or the fixed geometry of a 16 MB volume without one. */
    method ReadBpb(lbaStart: nat)
      returns (spc: nat, reserved: nat, numFats: nat, rootEntries: nat, fatSize: nat, totalSectors: nat)
      requires lbaStart < |disk| && buf.Length == 512
      modifies buf
      ensures Bpb(spc, reserved, numFats, rootEntries, fatSize, totalSectors) == BpbOf(disk[lbaStart])
      ensures var b := disk[lbaStart];
        if b[510] == 0x55 && b[511] == 0xAA && b[11] == 0 && b[12] == 2 && b[13] > 0
           && (b[14] > 0 || b[15] > 0) && (b[22] > 0 || b[23] > 0)
        then
          && spc == b[13] && numFats == b[16]
          && reserved == b[14] as int + 256 * b[15] as int && rootEntries == b[17] as int + 256 * b[18] as int
          && fatSize == b[22] as int + 256 * b[23] as int
          && totalSectors ==
               if b[19] > 0 || b[20] > 0 then b[19] as int + 256 * b[20] as int
               else b[32] as int + 0x100 * b[33] as int + 0x1_0000 * b[34] as int + 0x100_0000 * b[35] as int
        else
          && spc == 16 && reserved == 16 && numFats == 2 && rootEntries == 512 && fatSize == 16
          && totalSectors == 32768
    {
      BpbBytes(disk[lbaStart]);
      ReadSector(lbaStart);
      var b := buf[..];
      if HasBpb(b) {
        spc, reserved, numFats, rootEntries, fatSize :=
          b[13], Le16(b[14], b[15]), b[16], Le16(b[17], b[18]), Le16(b[22], b[23]);
        totalSectors := if Le16(b[19], b[20]) != 0 then Le16(b[19], b[20]) else Le32(b[32], b[33], b[34], b[35]);
      } else {
        spc, reserved, numFats, rootEntries, fatSize, totalSectors := 16, 16, 2, 512, 16, 32768;
      }
    }

    // ----- sectors -----

    method ReadSector(lba: nat)
      requires lba < |disk| && buf.Length == 512
      modifies buf
      ensures buf[..] == disk[lba]
    {
      forall i | 0 <= i < 512 { buf[i] := disk[lba][i]; }
    }

    method WriteSector(lba: nat)
      requires lba < |disk| && buf.Length == 512
      modifies `disk
      ensures disk == old(disk)[lba := buf[..]]
    {
      disk := disk[lba := buf[..]];
    }

    // ----- FAT entries -----

    /** Read one entry; it may straddle two sectors. */
    method FatGet(cluster: nat) returns (entry: nat)
      requires Mounted() && cluster < geo.Limit()
      modifies buf
      ensures entry == Vol().fat[cluster]
    {
      hide GeometryOk, VolumeOf, FatByte;
      var byteOff := cluster * 3 / 2;
      var secOff, inSec := byteOff / 512, byteOff % 512;
      EntryOfVolume(geo, disk, cluster);
      ReadSector(geo.fatLba + secOff);
      var b0, b1: Byte;
      if inSec == 511 {
        b0 := buf[511];
        ReadSector(geo.fatLba + secOff + 1);
        b1 := buf[0];
      } else {
        b0 := buf[inSec];
        b1 := buf[inSec + 1];
      }
      BytePlace(disk, geo.fatLba, byteOff);
      entry := if cluster % 2 == 1 then b0 / 16 + b1 * 16 else b0 + b1 % 16 * 256;
    }

    /** Patch one FAT copy; an entry that straddles two sectors takes two writes. */
    method WriteFat(fatBase: nat, cluster: nat, val: nat)
      requires buf.Length == 512 && val < 65536
      requires fatBase + (ByteOff(cluster) + 1) / 512 < |disk|
      modifies `disk, buf
      ensures disk == PutEntry(old(disk), fatBase, cluster, val)
    {
      hide PutEntry;
      NibblesFit(val);
      PutEntrySectors(disk, fatBase, cluster, val);
      var byteOff := cluster * 3 / 2;
      var secOff, inSec := byteOff / 512, byteOff % 512;
      if inSec == 511 {
        ReadSector(fatBase + secOff);
        var lo := buf[511];
        ReadSector(fatBase + secOff + 1);
        var hi := buf[0];
        if cluster % 2 == 1 {
          lo := lo % 16 + val * 16 % 256;
          hi := val / 16 % 256;
        } else {
          lo := val % 256;
          hi := hi / 16 * 16 + val / 256 % 16;
        }
        ReadSector(fatBase + secOff);
        buf[511] := lo;
        WriteSector(fatBase + secOff);
        ReadSector(fatBase + secOff + 1);
        buf[0] := hi;
        WriteSector(fatBase + secOff + 1);
      } else {
        ReadSector(fatBase + secOff);
        if cluster % 2 == 1 {
          buf[inSec] := buf[inSec] % 16 + val * 16 % 256;
          buf[inSec + 1] := val / 16 % 256;
        } else {
          buf[inSec] := val % 256;
          buf[inSec + 1] := buf[inSec + 1] / 16 * 16 + val / 256 % 16;
        }
        WriteSector(fatBase + secOff);
      }
    }

    /** Store one entry in the first two FAT copies. */
    method FatSet(cluster: nat, val: nat)
      requires Mounted() && cluster < geo.Limit() && val < 65536
      modifies `disk, buf
      ensures Mounted() && Keeps(geo, old(disk), disk)
      ensures Vol() == old(Vol()).(fat := old(Vol()).fat[cluster := val % 4096])
    {
      hide PutEntry, Keeps, GeometryOk, ByteOff;
      PutCopies(geo, disk, cluster, val);
      WriteFat(geo.fatLba, cluster, val);
      if geo.numFats > 1 {
        WriteFat(geo.fatLba + geo.fatSize, cluster, val);
      }
    }

    /** Find a free cluster, mark it the end of a chain; 0 when there is none. */
    method FatAlloc() returns (c: nat)
      requires Mounted()
      modifies `disk, buf
      ensures Mounted() && Keeps(geo, old(disk), disk)
      ensures c == 0 ==> disk == old(disk) && NoneFree(Vol().fat)
      ensures c != 0 ==> 2 <= c < geo.Limit() && old(Vol()).fat[c] == FAT_FREE
                         && Vol() == old(Vol()).(fat := old(Vol()).fat[c := FAT_EOC])
      ensures c != 0 ==> forall j | 2 <= j < c :: old(Vol()).fat[j] != FAT_FREE
      ensures c == 0 <==> forall j | 2 <= j < geo.totalClusters + 2 :: old(Vol()).fat[j] != 0
      ensures c != 0 ==> old(Vol()).fat[c] == 0 && Vol().fat[c] == 0xFF8
    {
      hide GeometryOk, Keeps, VolumeOf;
      MountedBounds();
      var i := 2;
      while i < geo.totalClusters + 2
        invariant 2 <= i && disk == old(disk)
        invariant forall j | 2 <= j < i && j < geo.Limit() :: Vol().fat[j] != FAT_FREE
      {
        var e := FatGet(i);
        if e == FAT_FREE {
          FatSet(i, FAT_EOC);
          return i;
        }
        i := i + 1;
      }
      return 0;
    }

    /** Walk a chain and free every entry visited. */
    method FatFreeChain(cluster: nat)
      requires Mounted() && LinksInside(Vol().fat) && (cluster < geo.Limit() || cluster >= FAT_BAD)
      modifies `disk, buf
      ensures Mounted() && Keeps(geo, old(disk), disk)
      ensures Vol() == old(Vol()).(fat := FreeWalk(old(Vol()).fat, cluster))
      ensures forall x | 0 <= x < |Vol().fat| ::
        Vol().fat[x] == if Reaches(old(Vol()).fat, cluster, x) then 0 else old(Vol()).fat[x]
    {
      hide Keeps, GeometryOk, VolumeOf, InUse, Reaches;
      MountedBounds();
      WalkFrees(Vol().fat, cluster);
      var c: nat := cluster;
      ghost var goal := FreeWalk(Vol().fat, cluster);
      while c >= 2 && c < FAT_BAD
        invariant Mounted() && Keeps(geo, old(disk), disk)
        invariant Vol().root == old(Vol()).root && Vol().data == old(Vol()).data
        invariant LinksInside(Vol().fat) && (c < geo.Limit() || c >= FAT_BAD)
        invariant FreeWalk(Vol().fat, c) == goal
        decreases InUse(Vol().fat), c
      {
        ghost var fat := Vol().fat;
        InUseDrops(fat, c);
        var next := FatGet(c);
        ghost var d := disk;
        FatSet(c, FAT_FREE);
        KeepsTrans(geo, old(disk), d, disk);
        if next >= FAT_EOC { break; }
        c := next;
      }
    }

    // ----- clusters and directory slots -----

    /** Overwrite every sector of a cluster with zeros. */
    method ZeroCluster(cluster: nat)
      requires Mounted() && 2 <= cluster < geo.Limit()
      modifies `disk, buf
      ensures Mounted() && Keeps(geo, old(disk), disk)
      ensures Vol() == old(Vol()).(data := Zeroed(old(Vol()).data, cluster, geo.secPerClus))
    {
      hide GeometryOk, Keeps, SetSector, Zeroed, ZeroedTo, VolumeOf;
      MountedBounds();
      forall i | 0 <= i < 512 { buf[i] := 0; }
      assert buf[..] == ZeroSector();
      var clba := geo.dataLba + (cluster - 2) * geo.secPerClus;
      TimesIsProduct(cluster - 2, geo.secPerClus);
      var s := 0;
      ghost var data := Vol().data;
      ZeroedAll(data, cluster, geo.secPerClus);
      while s < geo.secPerClus
        invariant 0 <= s <= geo.secPerClus && buf[..] == ZeroSector()
        invariant Mounted() && Keeps(geo, old(disk), disk)
        invariant Vol() == old(Vol()).(data := ZeroedTo(data, cluster, s))
      {
        ghost var d := disk;
        DataSector(geo, disk, cluster, s);
        WriteSector(clba + s);
        PutData(geo, d, cluster, s, ZeroSector());
        ZeroedStep(data, cluster, s);
        KeepsTrans(geo, old(disk), d, disk);
        s := s + 1;
      }
    }

    /** Read slot idx of a directory: the root has a fixed place, a subdirectory a chain. */
    method DirReadEntry(dc: nat, idx: nat, ghost chain: seq<nat>) returns (ok: bool, e: Raw)
      requires Mounted() && DirChain(Vol(), dc, chain)
      modifies buf
      ensures ok <==> idx < |DirSlots(geo, Vol(), dc, chain)|
      ensures ok ==> e == DirSlots(geo, Vol(), dc, chain)[idx]
    {
      hide GeometryOk, DirSlots;
      e := seq(32, i => 0);
      if dc == 0 {
        RootSlot(geo, disk, idx, chain);
        if idx >= geo.rootEntries { return false, e; }
        ReadSector(geo.rootLba + idx / 16);
        e := buf[..][idx % 16 * 32..idx % 16 * 32 + 32];
        return true, e;
      }
      var found, clus, sec, ent;
      ghost var j;
      found, clus, sec, ent, j := Locate(dc, idx, chain);
      if !found { return false, e; }
      SubSlot(geo, Vol(), dc, idx, chain, j, sec);
      DataSector(geo, disk, clus, sec);
      TimesIsProduct(clus - 2, geo.secPerClus);
      ReadSector(geo.dataLba + (clus - 2) * geo.secPerClus + sec);
      e := buf[..][ent * 32..ent * 32 + 32];
      return true, e;
    }

    /** Replace the 32 bytes of one entry in the buffered sector. */
    method PatchBuffer(ent: nat, e: Raw)
      requires buf.Length == 512 && ent < 16
      modifies buf
      ensures buf[..] == PatchEntry(old(buf[..]), ent, e)
    {
      forall i | 0 <= i < 32 { buf[ent * 32 + i] := e[i]; }
    }

    /** Write slot idx of a directory. */
    method DirWriteEntry(dc: nat, idx: nat, e: Raw, ghost chain: seq<nat>) returns (ok: bool)
      requires Mounted() && DirChain(Vol(), dc, chain)
      modifies `disk, buf
      ensures Mounted() && Keeps(geo, old(disk), disk)
      ensures ok <==> idx < |old(DirSlots(geo, Vol(), dc, chain))|
      ensures !ok ==> disk == old(disk)
      ensures ok ==> SlotWritten(geo, old(Vol()), Vol(), dc, chain, idx, e)
    {
      hide GeometryOk, DirSlots, Keeps, SlotWritten, PatchEntry, SetSector, VolumeOf;
      MountedBounds();
      ghost var d, v := disk, Vol();
      if dc == 0 {
        RootSlot(geo, disk, idx, chain);
        if idx >= geo.rootEntries { return false; }
        ReadSector(geo.rootLba + idx / 16);
        PatchBuffer(idx % 16, e);
        ghost var sec := buf[..];
        WriteSector(geo.rootLba + idx / 16);
        PutRoot(geo, d, idx / 16, sec);
        RootSlotWritten(geo, d, idx, e, chain);
        return true;
      }
      var found, clus, sec, ent;
      ghost var j;
      found, clus, sec, ent, j := Locate(dc, idx, chain);
      if !found { return false; }
      SubSlot(geo, Vol(), dc, idx, chain, j, sec);
      DataSector(geo, disk, clus, sec);
      TimesIsProduct(clus - 2, geo.secPerClus);
      var lba := geo.dataLba + (clus - 2) * geo.secPerClus + sec;
      ReadSector(lba);
      PatchBuffer(ent, e);
      ghost var s' := buf[..];
      WriteSector(lba);
      PutData(geo, d, clus, sec, s');
      SubSlotWritten(geo, v, dc, idx, chain, j, sec, e);
      return true;
    }

    /** The cluster, sector and slot where entry idx of a subdirectory lies. */
    method Locate(dc: nat, idx: nat, ghost chain: seq<nat>)
      returns (found: bool, clus: nat, sec: nat, ent: nat, ghost j: nat)
      requires Mounted() && dc != 0 && DirChain(Vol(), dc, chain)
      modifies buf
      ensures found <==> idx < |DirSlots(geo, Vol(), dc, chain)|
      ensures found ==> j < |chain| && clus == chain[j] && sec < geo.secPerClus
      ensures found ==> ent == idx % 16 && idx / 16 == Times(j, geo.secPerClus) + sec
    {
      hide GeometryOk, DirSlots, IsChain;
      var entriesPerClus := geo.secPerClus * 512 / 32;
      SlotCount(geo, Vol(), dc, chain);
      MountedBounds();
      assert entriesPerClus == geo.secPerClus * 16;
      Extents.Locate(idx, geo.secPerClus, 16);
      LocateInside(idx, geo.secPerClus, 16, |chain|);
      clus := dc;
      var skip := idx / entriesPerClus;
      sec, ent, j := 0, 0, skip;
      var i := 0;
      while i < skip
        invariant 0 <= i <= skip && i < |chain| && clus == chain[i]
      {
        ChainNext(Vol().fat, chain, i);
        clus := FatGet(clus);
        if clus >= FAT_EOC { return false, clus, sec, ent, j; }
        i := i + 1;
      }
      var entInClus := idx % entriesPerClus;
      return true, clus, entInClus / 16, entInClus % 16, j;
    }

    /** Find a live entry by name; a negative index when there is none. */
    method FindInDir(dc: nat, target: Name, ghost chain: seq<nat>) returns (idx: int, e: Raw)
      requires Mounted() && DirChain(Vol(), dc, chain) && target[0] != DOT
      modifies buf
      ensures idx < |DirSlots(geo, Vol(), dc, chain)| && idx < MaxEnts(geo, dc)
      ensures idx < 0 && DirOk(DirSlots(geo, Vol(), dc, chain), MaxEnts(geo, dc)) ==>
                UpperName(target) !in NamesOf(DirSlots(geo, Vol(), dc, chain), MaxEnts(geo, dc))
      ensures idx >= 0 ==> e == DirSlots(geo, Vol(), dc, chain)[idx] && Live(e) && Key(e) == UpperName(target)
    {
      hide GeometryOk, DirSlots, DirChain, DirOk, IsDot, Live, Key, UpperName;
      e := seq(32, i => 0);
      ghost var slots := DirSlots(geo, Vol(), dc, chain);
      var maxEnts := if dc == 0 then geo.rootEntries else SUBDIR_MAX_ENTS;
      var i := 0;
      while i < maxEnts
        invariant 0 <= i <= maxEnts && i <= |slots|
        invariant forall j | 0 <= j < i :: !(Live(slots[j]) && Key(slots[j]) == UpperName(target))
      {
        var ok;
        ok, e := DirReadEntry(dc, i, chain);
        if !ok {
          if DirOk(slots, maxEnts) { Unbound(slots, maxEnts, i, target); }
          return -1, e;
        }
        if e[0] == DIR_END {
          if DirOk(slots, maxEnts) { EndUnbound(slots, maxEnts, i, target); }
          return -1, e;
        }
        var matches := Match83(e[..11], target);
        if e[0] == DIR_FREE || e[11] % 16 != 0 || !matches {
          SkipUnbound(e, target);
          i := i + 1;
          continue;
        }
        FoundLive(e, target);
        return i, e;
      }
      if DirOk(slots, maxEnts) { Unbound(slots, maxEnts, i, target); }
      return -1, e;
    }

    /** Find a slot to take: the first end or free one, else grow a subdirectory by one cluster of
        end marks (c is that cluster; the index returned is then the scan limit). */
    method AllocDirEntry(dc: nat, ghost chain: seq<nat>) returns (idx: int, ghost c: nat)
      requires Mounted() && DirChain(Vol(), dc, chain)
      modifies `disk, buf
      ensures Mounted() && Keeps(geo, old(disk), disk)
      ensures c == 0 ==> disk == old(disk)
      ensures c == 0 && idx >= 0 ==> FirstVacant(old(DirSlots(geo, Vol(), dc, chain)), MaxEnts(geo, dc), idx)
      ensures idx < 0 ==> c == 0 && NoVacant(old(DirSlots(geo, Vol(), dc, chain)), MaxEnts(geo, dc))
                          && (dc == 0 || NoneFree(Vol().fat))
      ensures c != 0 ==>
        && idx == SUBDIR_MAX_ENTS && dc != 0
        && NoVacant(old(DirSlots(geo, Vol(), dc, chain)), MaxEnts(geo, dc))
        && 2 <= c < geo.Limit() && old(Vol()).fat[c] == FAT_FREE && chain != [] && chain[|chain| - 1] < geo.Limit()
        && Vol() == old(Vol()).(fat := Linkup(old(Vol()).fat, chain, c),
                                data := Zeroed(old(Vol()).data, c, geo.secPerClus))
    {
      hide GeometryOk, DirSlots, IsChain, Keeps, Zeroed, VolumeOf;
      MountedBounds();
      ghost var slots := DirSlots(geo, Vol(), dc, chain);
      var maxEnts := if dc == 0 then geo.rootEntries else SUBDIR_MAX_ENTS;
      var i := 0;
      while i < maxEnts
        invariant 0 <= i <= maxEnts && i <= |slots| && disk == old(disk)
        invariant forall j | 0 <= j < i :: !Vacant(slots[j])
      {
        var ok, e := DirReadEntry(dc, i, chain);
        if !ok { break; }
        if e[0] == DIR_END || e[0] == DIR_FREE { return i, 0; }
        i := i + 1;
      }
      if dc == 0 { return -1, 0; }
      var clus := LastCluster(dc, chain);
      ghost var v := Vol();
      var made := FatAlloc();
      if made == 0 { return -1, 0; }
      ghost var d1 := disk;
      ChainNotFree(v.fat, chain, made);
      FatSet(clus, made);
      ghost var d2 := disk;
      ZeroCluster(made);
      KeepsTrans(geo, old(disk), d1, d2);
      KeepsTrans(geo, old(disk), d2, disk);
      return maxEnts, made;
    }

    /** Follow a chain to its last cluster. */
    method LastCluster(dc: nat, ghost chain: seq<nat>) returns (clus: nat)
      requires Mounted() && dc != 0 && DirChain(Vol(), dc, chain)
      modifies buf
      ensures chain != [] && clus == chain[|chain| - 1] && 2 <= clus < geo.Limit()
    {
      hide GeometryOk, IsChain;
      MountedBounds();
      clus := dc;
      ghost var i := 0;
      ChainPositive(Vol().fat, chain);
      ChainNext(Vol().fat, chain, 0);
      while clus >= 2 && clus < FAT_EOC
        invariant 0 <= i < |chain| && clus == chain[i] && 2 <= clus < geo.Limit()
        decreases |chain| - i
      {
        ChainNext(Vol().fat, chain, i);
        var next := FatGet(clus);
        if next >= FAT_EOC { break; }
        clus := next;
        i := i + 1;
        ChainNext(Vol().fat, chain, i);
      }
    }

    // ----- names and paths -----

    /** Look a name up in a directory of the mounted volume. */
    method Find(dc: nat, name: Name) returns (idx: int, e: Raw)
      requires Valid() && IsDirectory(m, dc) && UpperName(name) == name && name[0] != DOT
      modifies buf
      ensures idx < 0 <==> name !in NamesIn(m, dc)
      ensures idx >= 0 ==> NamesIn(m, dc)[name] == idx && Key(e) == name
      ensures idx >= 0 ==> Slot(dc, idx) in m.ents && m.ents[Slot(dc, idx)] == e
    {
      hide GeometryOk, SlotsOf, OwnersOk, DescriptorsOk, FilesOk, Conserved, DirOk, VolumeOk;
      DirChainOf(geo, Vol(), m, dc);
      idx, e := FindInDir(dc, name, ChainOf(m, dc));
      NamesBridge(geo, Vol(), m, dc);
      if idx >= 0 { FoundMeaning(geo, Vol(), m, dc, idx, name); }
    }

    /** Walk a path to the directory and 8.3 name it denotes. */
    method ResolvePath(path: seq<Byte>) returns (place: Place)
      requires Valid() && 0 !in path
      modifies buf
      ensures place == Resolve(m, 0, path)
      ensures place != Missing ==> IsDirectory(m, place.dc)
      ensures place.Named? ==> UpperName(place.name) == place.name && place.name[0] != DOT && place.name[0] != 0
    {
      hide GeometryOk, Inv, HasSubdir, NamesIn, Resolve, Subdir, To83, VolumeOf;
      var pos := 0;
      if 0 < |path| && path[0] == SLASH {
        ResolveSkip(m, 0, path, 0);
        pos := 1;
      }
      assert path[0..] == path;
      var dc := 0;
      while true
        invariant 0 <= pos <= |path| && Valid() && IsDirectory(m, dc)
        invariant Resolve(m, dc, path[pos..]) == Resolve(m, 0, path)
        decreases |path| - pos
      {
        var len := ComponentLen(path, pos);
        if len == 0 {
          if pos == |path| {
            ResolveLast(m, dc, path, pos);
            return Itself(dc);
          }
          ResolveSkip(m, dc, path, pos);
          pos := pos + 1;
          continue;
        }
        var name, _ := ComponentName(path, pos, len);
        if pos + len == |path| {
          ResolveLast(m, dc, path, pos);
          assert path[pos..pos + len] == path[pos..];
          return Named(dc, name);
        }
        ResolveInto(m, dc, path, pos, len);
        var idx, e := Find(dc, name);
        SubdirMeaning(geo, Vol(), fds, m, dc, name, idx, e);
        if idx < 0 { return Missing; }
        if !IsDir(e) { return Missing; }
        dc := FirstCluster(e);
        pos := pos + len + 1;
      }
    }

    // ----- descriptors -----

    predicate FdIsValid(fd: int)
      reads this
    {
      0 <= fd < |fds| && fds[fd].used
    }

    method FdAlloc(first: nat, size: nat, dc: nat, idx: nat) returns (fd: int)
      requires |fds| == MAX_FDS
      modifies `fds
      ensures fd < 0 ==> fds == old(fds) && forall i | 0 <= i < |fds| :: fds[i].used
      ensures fd >= 0 ==> fd < |old(fds)| && !old(fds)[fd].used && forall i | 0 <= i < fd :: old(fds)[i].used
      ensures fd >= 0 ==> fds == old(fds)[fd := FD(true, first, size, 0, dc, idx)]
    {
      var i := 0;
      while i < MAX_FDS
        invariant 0 <= i <= MAX_FDS && fds == old(fds)
        invariant forall j | 0 <= j < i :: fds[j].used
      {
        if !fds[i].used {
          fds := fds[i := FD(true, first, size, 0, dc, idx)];
          return i;
        }
        i := i + 1;
      }
      return -1;
    }

    // ----- read -----

    /** Copy part of the buffered sector out. */
    method CopyOut(dst: array<Byte>, done: nat, start: nat, take: nat)
      requires buf.Length == 512 && dst != buf && done + take <= dst.Length && start + take <= 512
      modifies dst
      ensures dst[..] == old(dst[..done]) + buf[start..start + take] + old(dst[done + take..])
    {
      forall i | 0 <= i < take { dst[done + i] := buf[start + i]; }
    }

    /** Follow `skip` links of a chain that is long enough. */
    method Seek(first: nat, skip: nat, ghost chain: seq<nat>) returns (clus: nat)
      requires Mounted() && IsChain(Vol().fat, chain) && first == chain[0] && skip < |chain|
      modifies buf
      ensures clus == chain[skip]
    {
      hide GeometryOk, VolumeOf, IsChain;
      MountedBounds();
      clus := first;
      var i := 0;
      while i < skip
        invariant 0 <= i <= skip && clus == chain[i]
      {
        ChainNext(Vol().fat, chain, i);
        clus := FatGet(clus);
        i := i + 1;
      }
    }

    /** Copy one sector's share of a read: sector s of cluster ci, from byte `start`. */
    method ReadPart(dst: array<Byte>, clus: nat, s: nat, start: nat, done: nat, take: nat,
                    ghost chain: seq<nat>, ghost ci: nat, ghost pos: nat)
      requires Mounted() && IsChain(Vol().fat, chain) && ci < |chain| && clus == chain[ci] && s < geo.secPerClus
      requires dst != buf && done + take <= dst.Length && start + take <= 512
      requires (Times(ci, geo.secPerClus) + s) * 512 + start == pos + done
      requires pos + done <= |ChainBytes(Vol().data, chain)|
      requires dst[..done] == ChainBytes(Vol().data, chain)[pos..pos + done]
      modifies dst, buf
      ensures pos + done + take <= |ChainBytes(Vol().data, chain)|
      ensures dst[..done + take] == ChainBytes(Vol().data, chain)[pos..pos + done + take]
      ensures forall i | done + take <= i < dst.Length :: dst[i] == old(dst[i])
    {
      hide GeometryOk, VolumeOf, BytesOf, ChainSectors, Times, IsChain;
      MountedBounds();
      ghost var secs := ChainSectors(Vol().data, chain);
      SectorOf(geo, Vol(), chain, ci, s);
      ChainNext(Vol().fat, chain, ci);
      DataSector(geo, disk, clus, s);
      TimesIsProduct(clus - 2, geo.secPerClus);
      ReadSector(geo.dataLba + (clus - 2) * geo.secPerClus + s);
      BytesSlice(secs, Times(ci, geo.secPerClus) + s, start, take);
      CopyOut(dst, done, start, take);
    }

    /** Read on through one cluster, from offset off0, until it or the request is exhausted. */
    method ReadCluster(dst: array<Byte>, clus: nat, off0: nat, done0: nat, size: nat,
                       ghost chain: seq<nat>, ghost ci: nat, ghost pos: nat) returns (done: nat)
      requires Mounted() && IsChain(Vol().fat, chain) && ci < |chain| && clus == chain[ci]
      requires dst != buf && done0 <= size <= dst.Length && off0 < geo.secPerClus * 512
      requires Times(ci, geo.secPerClus) * 512 + off0 == pos + done0
      requires pos + size <= |ChainBytes(Vol().data, chain)|
      requires dst[..done0] == ChainBytes(Vol().data, chain)[pos..pos + done0]
      modifies dst, buf
      ensures done0 <= done <= size
      ensures done < size ==> (Times(ci, geo.secPerClus) + geo.secPerClus) * 512 == pos + done
      ensures dst[..done] == ChainBytes(Vol().data, chain)[pos..pos + done]
      ensures forall i | done <= i < dst.Length :: dst[i] == old(dst[i])
    {
      hide GeometryOk, VolumeOf, BytesOf, ChainSectors, Times, IsChain;
      var off: nat := off0;
      done := done0;
      var s := 0;
      while s < geo.secPerClus && done < size
        invariant 0 <= s <= geo.secPerClus && done0 <= done <= size
        invariant done < size ==> (Times(ci, geo.secPerClus) + s) * 512 + off == pos + done
        invariant off == 0 || off + s * 512 < geo.secPerClus * 512
        invariant dst[..done] == ChainBytes(Vol().data, chain)[pos..pos + done]
        invariant forall i | done <= i < dst.Length :: dst[i] == old(dst[i])
        decreases geo.secPerClus - s
      {
        if off >= 512 {
          off := off - 512;
          s := s + 1;
          continue;
        }
        var start := off;
        off := 0;
        var avail := 512 - start;
        var take := if size - done < avail then size - done else avail;
        ReadPart(dst, clus, s, start, done, take, chain, ci, pos);
        done := done + take;
        s := s + 1;
      }
    }

    /** Read up to n bytes from the descriptor's position. */
    method Read(fd: int, dst: array<Byte>, n: nat) returns (k: int)
      requires Valid() && dst != buf && n <= dst.Length
      modifies `fds, dst, buf
      ensures Valid()
      ensures !old(FdIsValid(fd)) ==> k == -1 && fds == old(fds) && dst[..] == old(dst[..])
      ensures old(FdIsValid(fd)) ==>
        var f := old(fds[fd]); f.At() in m.files && var c := m.files[f.At()];
        && f.pos <= |c| && k == (if n < |c| - f.pos then n else |c| - f.pos)
        && dst[..k] == c[f.pos..f.pos + k] && (forall i | k <= i < dst.Length :: dst[i] == old(dst[i]))
        && fds == old(fds)[fd := f.(pos := f.pos + k)]
    {
      hide GeometryOk, Inv, VolumeOf, ChainBytes, Times, IsChain;
      if !FdIsValid(fd) { return -1; }
      var f := fds[fd];
      OpenFacts(geo, Vol(), fds, m, fd);
      assert fds == fds[fd := f.(pos := f.pos + 0)];
      if f.pos >= f.size { return 0; }
      var left := f.size - f.pos;
      var size := if n > left then left else n;
      if size == 0 || f.first == 0 { return 0; }
      k := ReadChain(dst, f.first, f.pos, size, m.own[f.At()]);
      PrefixSlice(m.files[f.At()], ChainBytes(Vol().data, m.own[f.At()]), f.pos, f.pos + k);
      fds := fds[fd := f.(pos := f.pos + k)];
      PositionMoved(geo, Vol(), old(fds), m, fd, f.pos + k);
    }

    /** Read `size` bytes of a chain from position pos; they are all there. */
    method ReadChain(dst: array<Byte>, first: nat, pos: nat, size: nat, ghost chain: seq<nat>) returns (done: nat)
      requires Mounted() && IsChain(Vol().fat, chain) && first == chain[0]
      requires dst != buf && 0 < size <= dst.Length && pos + size <= |ChainBytes(Vol().data, chain)|
      modifies dst, buf
      ensures done == size && dst[..done] == ChainBytes(Vol().data, chain)[pos..pos + done]
      ensures forall i | done <= i < dst.Length :: dst[i] == old(dst[i])
    {
      hide GeometryOk, VolumeOf, ChainBytes, Times, IsChain;
      MountedBounds();
      ghost var bytes := ChainBytes(Vol().data, chain);
      ghost var w := geo.secPerClus;
      ChainBytesLength(geo, Vol(), chain);
      var skip, off := ClusterPlace(pos, geo.secPerClus, |chain|);
      var clus := Seek(first, skip, chain);
      ghost var ci := skip;
      done := 0;
      ChainNext(Vol().fat, chain, ci);
      while done < size && clus >= 2 && clus < FAT_EOC
        invariant 0 <= done <= size && ci < |chain| && clus == chain[ci] && 2 <= clus < FAT_EOC
        invariant done < size ==> Times(ci, w) * 512 + off == pos + done && off < w * 512
        invariant dst[..done] == bytes[pos..pos + done]
        invariant forall i | done <= i < dst.Length :: dst[i] == old(dst[i])
        decreases |chain| - ci, size - done
      {
        done := ReadCluster(dst, clus, off, done, size, chain, ci, pos);
        off := 0;
        if done < size {
          TimesNext(ci, |chain|, w);
          ChainNext(Vol().fat, chain, ci);
          var next := FatGet(clus);
          if next >= FAT_EOC { break; }
          clus := next;
          ci := ci + 1;
          ChainNext(Vol().fat, chain, ci);
        }
      }
    }

    // ----- write -----

    /** Give the file at fd one more zeroed cluster, after its last cluster `clus` if it has one. */
    method GrowChain(fd: nat, clus: nat) returns (c: nat)
      requires Valid() && fd < |fds| && fds[fd].used && fds[fd].At() in m.own
      requires m.own[fds[fd].At()] != [] ==> clus == m.own[fds[fd].At()][|m.own[fds[fd].At()]| - 1]
      modifies `disk, `fds, `m, buf
      ensures Valid() && geo == old(geo) && Keeps(geo, old(disk), disk)
      ensures c == 0 ==> NoneFree(Vol().fat) && fds == old(fds) && m == old(m) && disk == old(disk)
      ensures c != 0 ==> fds == GrownFds(old(fds), fd, c) && m == GrownModel(old(fds), old(m), fd, c)
      ensures c != 0 ==> 2 <= c && ChainBytes(Vol().data, old(m.own[fds[fd].At()]) + [c])
                         == old(ChainBytes(Vol().data, m.own[fds[fd].At()])) + ZeroBytes(geo.secPerClus * 512)
      ensures Budget(Vol(), m, old(fds[fd].At())) == Budget(old(Vol()), old(m), old(fds[fd].At()))
    {
      hide GeometryOk, Inv, VolumeOf, ChainBytes, ZeroBytes, Keeps, Zeroed, GrownModel, Budget;
      MountedBounds();
      ghost var v, chain := Vol(), m.own[fds[fd].At()];
      OpenFacts(geo, v, fds, m, fd);
      c := FatAlloc();
      if c == 0 { return; }
      ghost var d1 := disk;
      if fds[fd].first == 0 {
        assert chain == [];
        assert Vol() == v.(fat := v.fat[c := FAT_EOC]);
        GrowFile(geo, v, fds, m, fd, c);
        GrownBudget(geo, v, fds, m, fd, c);
        m := GrownModel(fds, m, fd, c);
        fds := fds[fd := fds[fd].(first := c)];
        ZeroCluster(c);
      } else {
        ChainPositive(v.fat, chain);
        ChainNext(v.fat, chain, |chain| - 1);
        ChainNotFree(v.fat, chain, c);
        GrowFile(geo, v, fds, m, fd, c);
        GrownBudget(geo, v, fds, m, fd, c);
        m := GrownModel(fds, m, fd, c);
        FatSet(clus, c);
        KeepsTrans(geo, old(disk), d1, disk);
        d1 := disk;
        ZeroCluster(c);
      }
      KeepsTrans(geo, old(disk), d1, disk);
      assert Vol() == GrownVolume(geo, v, chain, c);
    }

    /** Lay bytes over part of one sector of the file at fd. */
    method WritePart(fd: nat, clus: nat, s: nat, start: nat, part: seq<Byte>, ghost ci: nat)
      requires Valid() && fd < |fds| && fds[fd].used && fds[fd].At() in m.own && fds[fd].At() in m.files
      requires ci < |m.own[fds[fd].At()]| && clus == m.own[fds[fd].At()][ci] && s < geo.secPerClus
      requires start + |part| <= 512
      modifies `disk, `m, buf
      ensures Valid() && Keeps(geo, old(disk), disk) && Vol().fat == old(Vol()).fat
      ensures var chain := old(m.own[fds[fd].At()]);
        && var was := old(ChainSectors(Vol().data, m.own[fds[fd].At()]));
        && var k := Times(ci, geo.secPerClus) + s;
        && k < |was| && |was| == Times(|chain|, geo.secPerClus)
        && ChainSectors(Vol().data, chain) == was[k := PatchBytes(was[k], start, part)]
        && old(|m.files[fds[fd].At()]|) <= |ChainBytes(Vol().data, chain)|
        && m == Refreshed(fds, old(m), fd, ChainBytes(Vol().data, chain))
    {
      hide GeometryOk, Inv, VolumeOf, ChainSectors, BytesOf, SetSector, Keeps, Refreshed, Times, FileStep;
      MountedBounds();
      ghost var v, d := Vol(), disk;
      ghost var slot := fds[fd].At();
      InvLinked(geo, v, fds, m);
      PutSectors(geo, v, m, slot, ci, s, ZeroSector());
      DataSector(geo, disk, clus, s);
      TimesIsProduct(clus - 2, geo.secPerClus);
      var lba := geo.dataLba + (clus - 2) * geo.secPerClus + s;
      ReadSector(lba);
      ghost var was := buf[..];
      forall i | 0 <= i < |part| { buf[start + i] := part[i]; }
      ghost var sec: Sector := PatchBytes(was, start, part);
      assert buf[..] == sec;
      WriteSector(lba);
      PutData(geo, d, clus, s, sec);
      PutSectors(geo, v, m, slot, ci, s, sec);
      PutFile(geo, v, fds, m, fd, ci, s, sec, SetSector(v.data, clus, s, sec));
      m := Refreshed(fds, m, fd, ChainBytes(Vol().data, m.own[slot]));
    }

    /** Write on through one cluster, from offset off0, until it or the data is exhausted. */
    method WriteCluster(fd: nat, clus: nat, off0: nat, done0: nat, src: seq<Byte>, ghost ci: nat,
                        ghost fds0: seq<FD>, ghost m0: Model, ghost b0: seq<Byte>) returns (done: nat)
      requires Mounted() && WriteState(geo, Vol(), fds, m, fds0, m0, b0, fd, src, done0)
      requires ci < |m.own[fds0[fd].At()]| && clus == m.own[fds0[fd].At()][ci]
      requires off0 < geo.secPerClus * 512 && Times(ci, geo.secPerClus) * 512 + off0 == fds0[fd].pos + done0
      modifies `disk, `m, buf
      ensures Mounted() && Keeps(geo, old(disk), disk)
      ensures WriteState(geo, Vol(), fds, m, fds0, m0, b0, fd, src, done)
      ensures m.own == old(m.own) && Vol().fat == old(Vol()).fat
      ensures done0 <= done && (done0 < |src| ==> done0 < done)
      ensures done < |src| ==> (Times(ci, geo.secPerClus) + geo.secPerClus) * 512 == fds0[fd].pos + done
    {
      hide GeometryOk, WriteState, VolumeOf, BytesOf, ChainSectors, Times, Keeps, Inv, SetSector;
      MountedBounds();
      WriteStateFacts(geo, Vol(), fds, m, fds0, m0, b0, fd, src, done0);
      var off: nat := off0;
      done := done0;
      var s := 0;
      while s < geo.secPerClus && done < |src|
        invariant 0 <= s <= geo.secPerClus && done0 <= done && fd < |fds0|
        invariant done == done0 < |src| ==> s * 512 + off == off0
        invariant Mounted() && Keeps(geo, old(disk), disk) && m.own == old(m.own) && Vol().fat == old(Vol()).fat
        invariant WriteState(geo, Vol(), fds, m, fds0, m0, b0, fd, src, done)
        invariant done < |src| ==> (Times(ci, geo.secPerClus) + s) * 512 + off == fds0[fd].pos + done
        invariant off == 0 || off + s * 512 < geo.secPerClus * 512
        decreases geo.secPerClus - s
      {
        if off >= 512 {
          off := off - 512;
          s := s + 1;
          continue;
        }
        var start := off;
        off := 0;
        var avail := 512 - start;
        var take := if |src| - done < avail then |src| - done else avail;
        ghost var v, m1, d1 := Vol(), m, disk;
        WriteStateFacts(geo, v, fds, m, fds0, m0, b0, fd, src, done);
        ghost var secs := ChainSectors(v.data, m.own[fds[fd].At()]);
        WritePart(fd, clus, s, start, src[done..done + take], ci);
        KeepsTrans(geo, old(disk), d1, disk);
        WritePut(geo, v, Vol(), fds, m1, m, fds0, m0, b0, fd, src, done, secs,
                 Times(ci, geo.secPerClus) + s, start, take);
        done := done + take;
        s := s + 1;
      }
      WriteStateFacts(geo, Vol(), fds, m, fds0, m0, b0, fd, src, done);
    }

    /** Give the file its first cluster, or follow its chain to cluster `skip`, growing it as needed. */
    method SeekGrow(fd: nat, skip: nat, ghost fds0: seq<FD>, ghost m0: Model, ghost b0: seq<Byte>, src: seq<Byte>)
      returns (clus: nat)
      requires Mounted() && WriteState(geo, Vol(), fds, m, fds0, m0, b0, fd, src, 0)
      requires m.own[fds0[fd].At()] != []
      modifies `disk, `fds, `m, buf
      ensures Mounted() && geo == old(geo) && Keeps(geo, old(disk), disk)
      ensures WriteState(geo, Vol(), fds, m, fds0, m0, b0, fd, src, 0)
      ensures clus == 0 ==> NoneFree(Vol().fat) && |m.own[fds0[fd].At()]| <= skip
      ensures Budget(Vol(), m, fds0[fd].At()) == Budget(old(Vol()), old(m), fds0[fd].At())
      ensures old(m.own[fds0[fd].At()]) <= m.own[fds0[fd].At()]
      ensures m.own[fds0[fd].At()] == old(m.own[fds0[fd].At()]) || |m.own[fds0[fd].At()]| <= skip + 1
      ensures clus != 0 ==> skip < |m.own[fds0[fd].At()]| && clus == m.own[fds0[fd].At()][skip]
    {
      hide GeometryOk, WriteState, VolumeOf, ChainBytes, Keeps, Inv, GrownModel, GrownFds, IsChain, Budget;
      MountedBounds();
      WriteStateFacts(geo, Vol(), fds, m, fds0, m0, b0, fd, src, 0);
      OpenFacts(geo, Vol(), fds, m, fd);
      ghost var slot := fds0[fd].At();
      clus := fds[fd].first;
      var i := 0;
      while i < skip
        invariant 0 <= i <= skip && Mounted() && geo == old(geo) && Keeps(geo, old(disk), disk) && fd < |fds0|
        invariant WriteState(geo, Vol(), fds, m, fds0, m0, b0, fd, src, 0) && slot == fds0[fd].At()
        invariant slot in m.own && i < |m.own[slot]| && clus == m.own[slot][i] && clus != 0
        invariant Budget(Vol(), m, slot) == Budget(old(Vol()), old(m), slot)
        invariant old(m.own[slot]) <= m.own[slot]
        invariant m.own[slot] == old(m.own[slot]) || |m.own[slot]| <= i + 1
      {
        WriteStateFacts(geo, Vol(), fds, m, fds0, m0, b0, fd, src, 0);
        OpenFacts(geo, Vol(), fds, m, fd);
        ChainNext(Vol().fat, m.own[slot], i);
        var next := FatGet(clus);
        if next >= FAT_EOC {
          ghost var d := disk;
          next := WriteGrowth(fd, clus, fds0, m0, b0, src, 0);
          KeepsTrans(geo, old(disk), d, disk);
          if next == 0 { return 0; }
          WriteStateFacts(geo, Vol(), fds, m, fds0, m0, b0, fd, src, 0);
        }
        clus := next;
        i := i + 1;
      }
    }

    /** Grow the chain during a write. */
    method WriteGrowth(fd: nat, clus: nat, ghost fds0: seq<FD>, ghost m0: Model, ghost b0: seq<Byte>,
                       src: seq<Byte>, ghost done: nat) returns (c: nat)
      requires Mounted() && WriteState(geo, Vol(), fds, m, fds0, m0, b0, fd, src, done)
      requires m.own[fds0[fd].At()] != [] ==> clus == m.own[fds0[fd].At()][|m.own[fds0[fd].At()]| - 1]
      modifies `disk, `fds, `m, buf
      ensures Mounted() && geo == old(geo) && Keeps(geo, old(disk), disk)
      ensures WriteState(geo, Vol(), fds, m, fds0, m0, b0, fd, src, done)
      ensures c == 0 ==> NoneFree(Vol().fat) && fds == old(fds) && m == old(m) && disk == old(disk)
      ensures c != 0 ==> m.own[fds0[fd].At()] == old(m.own[fds0[fd].At()]) + [c]
      ensures Budget(Vol(), m, fds0[fd].At()) == Budget(old(Vol()), old(m), fds0[fd].At())
    {
      hide GeometryOk, WriteState, VolumeOf, ChainBytes, Keeps, Inv, GrownFds, IsChain, Budget;
      WriteStateFacts(geo, Vol(), fds, m, fds0, m0, b0, fd, src, done);
      OpenFacts(geo, Vol(), fds, m, fd);
      ghost var v, f1, m1 := Vol(), fds, m;
      c := GrowChain(fd, clus);
      if c != 0 {
        WriteGrow(geo, v, Vol(), f1, m1, fds0, m0, b0, fd, src, done, c);
      }
    }

    /** Write cluster after cluster until the data or the disk is exhausted, then move size and position. */
    method WriteClusters(fd: nat, first: nat, off0: nat, src: seq<Byte>, ghost skip: nat,
                         ghost fds0: seq<FD>, ghost m0: Model, ghost b0: seq<Byte>) returns (done: nat)
      requires Mounted() && WriteState(geo, Vol(), fds, m, fds0, m0, b0, fd, src, 0)
      requires skip < |m.own[fds0[fd].At()]| && first == m.own[fds0[fd].At()][skip]
      requires off0 < geo.secPerClus * 512 && Times(skip, geo.secPerClus) * 512 + off0 == fds0[fd].pos
      requires m0.files[fds0[fd].At()] == b0[..|m0.files[fds0[fd].At()]|] && fds0[fd].size == |m0.files[fds0[fd].At()]|
      requires src != []
      modifies `disk, `fds, `m, buf
      ensures Valid() && geo == old(geo) && Keeps(geo, old(disk), disk)
      ensures 0 < done <= |src| && (done < |src| ==> NoneFree(Vol().fat))
      ensures fds0[fd].At() in m.own && old(m.own[fds0[fd].At()]) <= m.own[fds0[fd].At()]
      ensures Budget(Vol(), m, fds0[fd].At()) == Budget(old(Vol()), old(m), fds0[fd].At())
      ensures fds0[fd].pos + done <= Times(|m.own[fds0[fd].At()]|, geo.secPerClus) * 512
      ensures m.own[fds0[fd].At()] == old(m.own[fds0[fd].At()])
              || Times(|m.own[fds0[fd].At()]| - 1, geo.secPerClus) * 512 < fds0[fd].pos + done
      ensures done < |src| ==> AtChainEnd(geo, m, fds0[fd].At(), fds0[fd].pos + done)
      ensures WroteBytes(fds0, m0, fds, m, fd, src[..done])
    {
      hide GeometryOk, WriteState, VolumeOf, ChainBytes, Keeps, Inv, Times, IsChain, WroteBytes, Budget;
      MountedBounds();
      WriteFacts(geo, Vol(), fds, m, fds0, m0, b0, fd, src, 0);
      var clus: nat, off: nat := first, off0;
      ghost var ci: nat, slot := skip, fds0[fd].At();
      done := 0;
      PlaceBelow(skip, |m.own[slot]|, geo.secPerClus, off, fds0[fd].pos);
      ChainNext(Vol().fat, m.own[slot], ci);
      while done < |src|
        invariant Mounted() && geo == old(geo) && Keeps(geo, old(disk), disk)
        invariant WriteState(geo, Vol(), fds, m, fds0, m0, b0, fd, src, done)
        invariant fd < |fds0| && slot == fds0[fd].At() && slot in m.own && done <= |src|
        invariant ci < |m.own[slot]| && clus == m.own[slot][ci] && 2 <= clus < FAT_EOC
        invariant done < |src| ==>
          Times(ci, geo.secPerClus) * 512 + off == fds0[fd].pos + done && off < geo.secPerClus * 512
        invariant fds0[fd].pos + done <= |ChainBytes(Vol().data, m.own[slot])|
        invariant Budget(Vol(), m, slot) == Budget(old(Vol()), old(m), slot) && old(m.own[slot]) <= m.own[slot]
        invariant m.own[slot] == old(m.own[slot]) || |m.own[slot]| == ci + 1
        invariant done == |src| ==> Times(ci, geo.secPerClus) * 512 < fds0[fd].pos + done
        decreases |src| - done
      {
        if clus < 2 || clus >= FAT_EOC { break; }
        ghost var d, done0 := disk, done;
        ghost var m1, v1 := m, Vol();
        done := WriteCluster(fd, clus, off, done, src, ci, fds0, m0, b0);
        BudgetKept(v1, m1, Vol(), m, slot);
        off := 0;
        KeepsTrans(geo, old(disk), d, disk);
        WriteFacts(geo, Vol(), fds, m, fds0, m0, b0, fd, src, done);
        if done < |src| {
          ChainNext(Vol().fat, m.own[slot], ci);
          var next := FatGet(clus);
          if next >= FAT_EOC {
            d := disk;
            next := WriteGrowth(fd, clus, fds0, m0, b0, src, done);
            KeepsTrans(geo, old(disk), d, disk);
            if next == 0 {
              TimesNext(ci, |m.own[slot]|, geo.secPerClus);
              assert AtChainEnd(geo, m, slot, fds0[fd].pos + done);
              break;
            }
          }
          clus := next;
          ci := ci + 1;
          WriteFacts(geo, Vol(), fds, m, fds0, m0, b0, fd, src, done);
          TimesNext(ci - 1, |m.own[slot]|, geo.secPerClus);
          ChainNext(Vol().fat, m.own[slot], ci);
        }
      }
      WriteFacts(geo, Vol(), fds, m, fds0, m0, b0, fd, src, done);
      ghost var m1 := m;
      FinishWrite(fd, src, done, fds0, m0, b0);
      BudgetKept(Vol(), m1, Vol(), m, slot);
    }

    /** The end of a write: the position moves past what was written, the size grows to it. */
    method FinishWrite(fd: nat, src: seq<Byte>, done: nat, ghost fds0: seq<FD>, ghost m0: Model, ghost b0: seq<Byte>)
      requires Mounted() && WriteState(geo, Vol(), fds, m, fds0, m0, b0, fd, src, done)
      requires m0.files[fds0[fd].At()] == b0[..|m0.files[fds0[fd].At()]|] && fds0[fd].size == |m0.files[fds0[fd].At()]|
      requires fds0[fd].pos + done <= |ChainBytes(Vol().data, m.own[fds0[fd].At()])|
      modifies `fds, `m
      ensures Valid() && WroteBytes(fds0, m0, fds, m, fd, src[..done]) && m.own == old(m.own)
    {
      hide GeometryOk, WriteState, VolumeOf, ChainBytes, Inv, WroteBytes;
      WriteStateFacts(geo, Vol(), fds, m, fds0, m0, b0, fd, src, done);
      ghost var fds1, m1 := WriteFinish(geo, Vol(), fds, m, fds0, m0, b0, fd, src, done);
      var pos := fds[fd].pos + done;
      fds := fds[fd := fds[fd].(pos := pos, size := if pos > fds[fd].size then pos else fds[fd].size)];
      m := m1;
    }

    /** Write from the position on, once the file has a first cluster. */
    method WriteFrom(fd: nat, src: seq<Byte>, ghost v0: Volume, ghost fds0: seq<FD>, ghost m0: Model,
                     ghost b0: seq<Byte>) returns (k: nat)
      requires Mounted() && src != [] && WriteState(geo, Vol(), fds, m, fds0, m0, b0, fd, src, 0)
      requires var s := fds0[fd].At();
        && m.own[s] != [] && (|m.own[s]| == |m0.own[s]| || |m.own[s]| == 1) && Budget(Vol(), m, s) == Budget(v0, m0, s)
        && b0 == ChainBytes(v0.data, m0.own[s]) && |b0| == Times(|m0.own[s]|, geo.secPerClus) * 512
        && m0.files[s] == b0[..|m0.files[s]|] && fds0[fd].size == |m0.files[s]|
      modifies `disk, `fds, `m, buf
      ensures Valid() && geo == old(geo) && Keeps(geo, old(disk), disk)
      ensures k <= |src| && (k < |src| ==> NoneFree(Vol().fat) && AtChainEnd(geo, m, fds0[fd].At(), fds0[fd].pos + k))
      ensures WroteBytes(fds0, m0, fds, m, fd, src[..k])
      ensures AsMuchAsFits(geo, v0, m0, m, fds0[fd].At(), fds0[fd].pos, |src|, k)
      ensures Budget(Vol(), m, fds0[fd].At()) == Budget(v0, m0, fds0[fd].At())
    {
      hide GeometryOk, WriteState, VolumeOf, ChainBytes, Keeps, Inv, Times, IsChain, WroteBytes, Budget, AsMuchAsFits;
      MountedBounds();
      WriteStateFacts(geo, Vol(), fds, m, fds0, m0, b0, fd, src, 0);
      WriteProgress(geo, Vol(), fds, m, fds0, m0, b0, fd, src, 0);
      ghost var slot := fds0[fd].At();
      var skip, off := ClusterPlace(fds[fd].pos, geo.secPerClus, 0);
      ghost var d := disk;
      var clus := SeekGrow(fd, skip, fds0, m0, b0, src);
      KeepsTrans(geo, old(disk), d, disk);
      WriteOwn(geo, Vol(), fds, m, fds0, m0, b0, fd, src, 0);
      if clus == 0 {
        FitsNoMore(geo, v0, m0, Vol(), m, slot, fds0[fd].pos, |src|, skip, off);
        WriteNothing(geo, Vol(), fds, m, fds0, m0, b0, fd, src);
        WriteStateFacts(geo, Vol(), fds, m, fds0, m0, b0, fd, src, 0);
        OpenFacts(geo, Vol(), fds, m, fd);
        PlaceBeyond(skip, |m.own[slot]|, geo.secPerClus, off, fds[fd].pos);
        return 0;
      }
      d := disk;
      ghost var own1 := m.own[slot];
      k := WriteClusters(fd, clus, off, src, skip, fds0, m0, b0);
      KeepsTrans(geo, old(disk), d, disk);
      LastTouched(geo.secPerClus, |own1|, |m.own[slot]|, skip, off, fds0[fd].pos, k);
      FitsSome(geo, v0, m0, Vol(), m, slot, fds0[fd].pos, |src|, k);
    }

    /** Write src at the descriptor's position; the return value is how much was accepted. */
    method Write(fd: int, src: seq<Byte>) returns (k: int)
      requires Valid()
      modifies `disk, `fds, `m, buf
      ensures Valid() && geo == old(geo) && Keeps(geo, old(disk), disk)
      ensures !old(FdIsValid(fd)) ==> k == -1
      ensures old(FdIsValid(fd)) && src == [] ==> k == 0
      ensures !old(FdIsValid(fd)) || src == [] || k < 0 ==> m == old(m) && fds == old(fds) && disk == old(disk)
      ensures old(FdIsValid(fd)) && src != [] ==> -1 <= k <= |src| && (k < |src| ==> NoneFree(Vol().fat))
      ensures old(FdIsValid(fd)) && src != [] && k < 0 ==> old(fds)[fd].At() in m.own && m.own[old(fds)[fd].At()] == []
      ensures old(FdIsValid(fd)) && src != [] && k >= 0 ==> WroteBytes(old(fds), old(m), fds, m, fd, src[..k])
      ensures old(FdIsValid(fd)) && 0 <= k < |src| ==> AtChainEnd(geo, m, old(fds)[fd].At(), old(fds)[fd].pos + k)
      ensures old(FdIsValid(fd)) && src != [] ==>
                AsMuchAsFits(geo, old(Vol()), old(m), m, old(fds)[fd].At(), old(fds)[fd].pos, |src|, k)
      ensures old(FdIsValid(fd)) ==>
                Budget(Vol(), m, old(fds)[fd].At()) == Budget(old(Vol()), old(m), old(fds)[fd].At())
      ensures old(FdIsValid(fd)) && src != [] && k >= 0 ==>
        var f, s := old(fds)[fd], old(fds)[fd].At();
        && s in old(m).files && s in m.files
        && |m.files[s]| == (if f.pos + k > |old(m).files[s]| then f.pos + k else |old(m).files[s]|)
        && (forall i | 0 <= i < |m.files[s]| ::
              m.files[s][i] == if f.pos <= i < f.pos + k then src[i - f.pos] else old(m).files[s][i])
        && (forall o | o in old(m).files && o != s :: o in m.files && m.files[o] == old(m).files[o])
        && fd < |fds| && fds[fd].pos == f.pos + k
    {
      hide GeometryOk, WriteState, VolumeOf, ChainBytes, Keeps, Inv, Times, IsChain, WroteBytes, Budget, AsMuchAsFits;
      MountedBounds();
      if !FdIsValid(fd) { return -1; }
      if src == [] { return 0; }
      ghost var fds0, m0, slot := fds, m, fds[fd].At();
      OpenFacts(geo, Vol(), fds, m, fd);
      ghost var b0 := ChainBytes(Vol().data, m.own[slot]);
      WriteBegin(geo, Vol(), fds, m, fd, src);
      ghost var v0, d := Vol(), disk;
      if fds[fd].first == 0 {
        var c := WriteGrowth(fd, 0, fds0, m0, b0, src, 0);
        if c == 0 {
          FitsNothing(geo, v0, m0, slot, fds0[fd].pos, |src|);
          return -1;
        }
        d := disk;
      }
      k := WriteFrom(fd, src, v0, fds0, m0, b0);
      WroteMeans(fds0, m0, fds, m, fd, src[..k]);
      KeepsTrans(geo, old(disk), d, disk);
    }

    // ----- open, flush, close, size -----

    /** Open the file a path names; a second descriptor for the same file is not refused. */
    method Open(path: seq<Byte>) returns (fd: int)
      requires Valid() && 0 !in path
      modifies `fds, buf
      ensures var found := FileAt(m, path);
        && (found.None? ==> fd < 0)
        && (fd < 0 ==> fds == old(fds) && (found.None? || forall i | 0 <= i < |fds| :: fds[i].used))
        && (fd >= 0 ==> found.value in m.ents && fd < |old(fds)| && !old(fds)[fd].used)
        && (fd >= 0 ==> fds == old(fds)[fd := Opened(m.ents[found.value], found.value)])
      ensures forall i | 0 <= i < fd :: old(fds)[i].used
      ensures var p := Resolve(m, 0, path);
        fd >= 0 <==> p.Named? && p.name in NamesIn(m, p.dc) && Slot(p.dc, NamesIn(m, p.dc)[p.name]) in m.ents
                     && m.ents[Slot(p.dc, NamesIn(m, p.dc)[p.name])][11] / 16 % 2 == 0
                     && exists i :: 0 <= i < |old(fds)| && !old(fds)[i].used
      ensures fd >= 0 ==> var p := Resolve(m, 0, path);
        && p.Named? && p.name in NamesIn(m, p.dc) && fd < |fds|
        && fds[fd].dir == p.dc && fds[fd].idx == NamesIn(m, p.dc)[p.name] && fds[fd].pos == 0 && fds[fd].used
      ensures fd < 0 || !IsOpen(old(fds), FileAt(m, path).value) ==> Valid()
    {
      FileAtMeans(m, path);
      hide GeometryOk, Inv, VolumeOf, NamesIn, IsDir, FirstCluster, FileSize, Resolve, FileAt, SlotAt;
      var place := ResolvePath(path);
      FileAtPlace(m, path);
      if !place.Named? { return -1; }
      var idx, e := Find(place.dc, place.name);
      if idx < 0 { return -1; }
      if IsDir(e) { return -1; }
      TableLength(geo, Vol(), fds, m);
      ghost var s := Slot(place.dc, idx);
      assert FileAt(m, path) == Some(s);
      fd := FdAlloc(FirstCluster(e), FileSize(e), place.dc, idx);
      if fd >= 0 && !IsOpen(old(fds), s) {
        FileKnown(geo, Vol(), old(fds), m, s);
        OpenStep(geo, Vol(), old(fds), m, fd, s);
      }
    }

    /** Write size and first cluster back to the file's directory entry. */
    method Flush(fd: int)
      requires Valid()
      modifies `disk, `m, buf
      ensures Valid() && Keeps(geo, old(disk), disk)
      ensures !FdIsValid(fd) ==> m == old(m) && disk == old(disk)
      ensures FdIsValid(fd) ==> var s := fds[fd].At();
        && s in old(m).ents && fds[fd].first < 65536 && fds[fd].size < 0x1_0000_0000
        && m == old(m).(ents := old(m).ents[s := WithSize(old(m).ents[s], fds[fd].first, fds[fd].size)])
        && SlotWritten(geo, old(Vol()), Vol(), s.dir, ChainOf(old(m), s.dir), s.idx,
                       WithSize(old(m).ents[s], fds[fd].first, fds[fd].size))
    {
      hide GeometryOk, Inv, VolumeOf, Keeps, SlotWritten, IsDir, FirstCluster, FileSize, WithSize;
      MountedBounds();
      if !FdIsValid(fd) { return; }
      var f := fds[fd];
      ghost var s := f.At();
      FlushFacts(geo, Vol(), fds, m, fd);
      ghost var chain := ChainOf(m, f.dir);
      var ok, e := DirReadEntry(f.dir, f.idx, chain);
      if !ok { return; }
      e := WithSize(e, f.first, f.size);
      ghost var v := Vol();
      ok := DirWriteEntry(f.dir, f.idx, e, chain);
      FlushStep(geo, v, Vol(), fds, m, fd);
      m := m.(ents := m.ents[s := e]);
    }

    /** Flush and release a descriptor. */
    method Close(fd: int)
      requires Valid()
      modifies `disk, `fds, `m, buf
      ensures Valid() && geo == old(geo) && Keeps(geo, old(disk), disk)
      ensures !old(FdIsValid(fd)) ==> m == old(m) && disk == old(disk) && fds == old(fds)
      ensures old(FdIsValid(fd)) ==> var f := old(fds)[fd]; var s := f.At();
        && s in old(m).ents && f.first < 65536 && f.size < 0x1_0000_0000
        && m == old(m).(ents := old(m).ents[s := WithSize(old(m).ents[s], f.first, f.size)])
        && SlotWritten(geo, old(Vol()), Vol(), s.dir, ChainOf(old(m), s.dir), s.idx,
                       WithSize(old(m).ents[s], f.first, f.size))
        && fds == old(fds)[fd := f.(used := false)]
    {
      hide GeometryOk, Inv, VolumeOf, Keeps, FirstCluster, FileSize, WithSize, SlotWritten;
      MountedBounds();
      InvParts(geo, Vol(), fds, m);
      if fd < 0 || fd >= MAX_FDS { return; }
      Flush(fd);
      CloseStep(geo, Vol(), fds, m, fd);
      fds := fds[fd := fds[fd].(used := false)];
      assert !old(FdIsValid(fd)) ==> fds == old(fds);
    }

    /** The size of an open file. */
    method Size(fd: int) returns (size: int)
      requires Valid()
      ensures !FdIsValid(fd) ==> size == -1
      ensures FdIsValid(fd) ==> fds[fd].At() in m.files && size == |m.files[fds[fd].At()]|
    {
      if !FdIsValid(fd) { return -1; }
      OpenFacts(geo, Vol(), fds, m, fd);
      return fds[fd].size;
    }

    // ----- create, delete, rename -----

    /** Take a slot of directory dc and write a new entry there; c is the cluster the directory
        grew by for it (0 if it did not). */
    method AddEntry(dc: nat, e: Raw) returns (ok: bool, idx: int, ghost c: nat)
      requires Valid() && IsDirectory(m, dc)
      modifies `disk, `m, buf
      ensures Mounted() && Keeps(geo, old(disk), disk)
      ensures c == 0 <==> m == old(m)
      ensures c == 0 && !ok ==> disk == old(disk) && Full(geo, old(Vol()), m, dc) && (dc == 0 || NoneFree(Vol().fat))
      ensures ok ==> 0 <= idx
      ensures idx < 0 <==> c == 0 && !ok
      ensures c == 0 && ok ==> TakesSlot(geo, old(Vol()), m, dc, idx)
                               && EntryMade(geo, old(Vol()), m, Vol(), Slot(dc, idx), e)
      ensures c != 0 ==> Full(geo, old(Vol()), old(m), dc) && Grown(old(Vol()), old(m), Vol(), m, dc, c)
      ensures c != 0 ==> (ok <==> !Roomy(geo, old(Vol()), old(m), dc)) && idx == SUBDIR_MAX_ENTS
      ensures c != 0 && !ok ==> Valid() && SlotsGrow(geo, old(Vol()), old(m), Vol(), m, dc)
      ensures c != 0 && ok && Key(e) !in NamesIn(old(m), dc) ==>
                OutOfReach(geo, old(Vol()), old(m), Vol(), m, dc, e)
    {
      hide GeometryOk, Inv, VolumeOf, Keeps, SlotWritten, DirSlots, Zeroed, Linkup, NoVacant, NamesIn, Key;
      hide OutOfReach, SlotsGrow;
      MountedBounds();
      TablesHold(geo, Vol(), fds, m);
      DirChainOf(geo, Vol(), m, dc);
      ghost var v := Vol();
      idx, c := AllocDirEntry(dc, ChainOf(m, dc));
      if idx < 0 { return false, idx, c; }
      if c != 0 {
        GrowDir(geo, v, fds, m, dc, c);
        m := Extended(m, dc, c);
        DirChainOf(geo, Vol(), m, dc);
        assert IsDirectory(m, dc);
      } else {
        VacantTakes(geo, v, m, dc, idx);
      }
      ghost var d, v1 := disk, Vol();
      ok := DirWriteEntry(dc, idx, e, ChainOf(m, dc));
      KeepsTrans(geo, old(disk), d, disk);
      if ok { SlotKeepsFat(geo, v1, Vol(), dc, ChainOf(m, dc), idx, e); }
      if c != 0 && ok && Key(e) !in NamesIn(old(m), dc) {
        PastTheEnd(geo, v, fds, old(m), v1, m, Vol(), dc, e);
      }
    }

    /** Write the entry of an empty file into directory dc and open it. */
    method CreateIn(dc: nat, e: Raw) returns (fd: int, ghost s: Slot)
      requires Valid() && IsDirectory(m, dc) && Key(e) !in NamesIn(m, dc)
      requires !IsDir(e) && FirstCluster(e) == 0 && FileSize(e) == 0
      modifies `disk, `fds, `m, buf
      ensures Mounted() && geo == old(geo) && Keeps(geo, old(disk), disk)
      ensures Live(e) && !Full(geo, old(Vol()), old(m), dc) ==>
        Valid() && CreatedFile(old(fds), old(m), fds, m, dc, e, s, fd) && s.dir == dc
        && EntryMade(geo, old(Vol()), old(m), Vol(), s, e)
      ensures Full(geo, old(Vol()), old(m), dc) && (Roomy(geo, old(Vol()), old(m), dc) || NoneFree(old(Vol()).fat)) ==>
        Valid() && fd < 0 && fds == old(fds) && GrewOnly(geo, old(Vol()), old(m), Vol(), m, dc)
      ensures Full(geo, old(Vol()), old(m), dc) && !Roomy(geo, old(Vol()), old(m), dc) && !NoneFree(old(Vol()).fat) ==>
        MadeOutOfReach(geo, old(Vol()), old(fds), old(m), Vol(), fds, m, dc, e, fd)
    {
      hide GeometryOk, Inv, VolumeOf, Keeps, SlotWritten, NamesIn, Full, Roomy, TakesSlot, Live, Key, IsDir,
           FirstCluster, FileSize, CreatedFile, Created, EntryMade, OutOfReach, Grown, NoneFree, SlotsGrow, GrewOnly,
           MadeOutOfReach;
      s := Slot(0, 0);
      MountedBounds();
      InvParts(geo, Vol(), fds, m);
      ghost var v := Vol();
      var ok, i;
      ghost var c;
      ok, i, c := AddEntry(dc, e);
      if c == 0 && ok { VacantNotFull(geo, v, m, dc, i); }
      if !ok {
        if c == 0 { GrewNothing(geo, v, m, dc); } else { GrewBy(geo, v, old(m), Vol(), m, dc, c); }
        return -1, s;
      }
      fd := FdAlloc(0, 0, dc, i);
      if c != 0 {
        LooksMade(geo, v, old(fds), old(m), Vol(), fds, m, dc, e, fd, c);
      } else if Live(e) {
        s := Slot(dc, i);
        EntryIn(geo, v, m, Vol(), s, e);
        CreateOpened(geo, v, Vol(), old(fds), fds, m, dc, i, e, fd);
        m := Created(m, s, e);
      }
    }

    /** Create an empty file and open it. */
    method Create(path: seq<Byte>) returns (fd: int, ghost s: Slot)
      requires Valid() && 0 !in path
      modifies `disk, `fds, `m, buf
      ensures Mounted() && geo == old(geo) && Keeps(geo, old(disk), disk)
      ensures !NamesNew(old(m), path) ==> fd < 0 && m == old(m) && fds == old(fds) && disk == old(disk) && Valid()
      ensures CanAdd(geo, old(Vol()), old(m), path) ==>
                Valid() && CreatedFile(old(fds), old(m), fds, m, DirOf(old(m), path),
                                       EntryFor(old(m), path, ATTR_ARCH, 0), s, fd)
      ensures CanAdd(geo, old(Vol()), old(m), path) ==>
                s.dir == DirOf(old(m), path)
                && EntryMade(geo, old(Vol()), old(m), Vol(), s, EntryFor(old(m), path, ATTR_ARCH, 0))
      ensures NoSlotFor(geo, old(Vol()), old(m), path)
              && (Roomy(geo, old(Vol()), old(m), DirOf(old(m), path)) || NoneFree(old(Vol()).fat)) ==>
                Valid() && fd < 0 && fds == old(fds)
                && GrewOnly(geo, old(Vol()), old(m), Vol(), m, DirOf(old(m), path))
      ensures NoSlotFor(geo, old(Vol()), old(m), path)
              && !Roomy(geo, old(Vol()), old(m), DirOf(old(m), path)) && !NoneFree(old(Vol()).fat) ==>
                MadeOutOfReach(geo, old(Vol()), old(fds), old(m), Vol(), fds, m, DirOf(old(m), path),
                               EntryFor(old(m), path, ATTR_ARCH, 0), fd)
    {
      hide GeometryOk, Inv, VolumeOf, Keeps, NamesIn, Full, Roomy, Resolve, UpperName, CreatedFile, NewEntry, Live,
           Key, IsDir, FirstCluster, FileSize, EntryMade, MadeOutOfReach, GrewOnly, NoneFree;
      s := Slot(0, 0);
      MountedBounds();
      var place := ResolvePath(path);
      if !place.Named? { return -1, s; }
      var idx, e := Find(place.dc, place.name);
      if idx >= 0 { return -1, s; }
      NewEntryLive(place.name, ATTR_ARCH, 0);
      fd, s := CreateIn(place.dc, NewEntry(place.name, ATTR_ARCH, 0));
    }

    /** Free the chain that starts at `first`, which is the chain of slot s or nothing. */
    method FreeOwned(first: nat, ghost s: Slot)
      requires Mounted() && Linked(geo, Vol(), m) && s in m.own && (first == 0 || first == Head(m.own[s]))
      modifies `disk, buf
      ensures Mounted() && Keeps(geo, old(disk), disk)
      ensures Vol() == if first >= 2 then old(Vol()).(fat := Freed(old(Vol()).fat, m.own[s])) else old(Vol())
    {
      hide GeometryOk, VolumeOf, Keeps, FreeWalk, Freed;
      MountedBounds();
      if first >= 2 {
        ConservedLinks(Vol().fat, m.own, m.bad);
        OwnWithin(geo, Vol(), m, s);
        FreeWalkChain(Vol().fat, m.own[s]);
        FatFreeChain(first);
      }
    }

    /** Delete the file at slot (dc, idx): free its chain, mark its entry deleted. */
    method DeleteAt(dc: nat, idx: nat, e: Raw)
      requires Valid() && Slot(dc, idx) in m.files && Slot(dc, idx) in m.ents && m.ents[Slot(dc, idx)] == e
      modifies `disk, `m, buf
      ensures Mounted() && Keeps(geo, old(disk), disk)
      ensures !IsOpen(fds, Slot(dc, idx)) ==> Valid() && m == Removed(old(m), Slot(dc, idx))
      ensures !IsOpen(fds, Slot(dc, idx)) ==> FreedExactly(old(Vol()), Vol(), old(m), Slot(dc, idx))
    {
      hide GeometryOk, VolumeOf, Keeps, Inv, SlotWritten, DirSlots, FirstCluster, Freed, Removed;
      ghost var s, v := Slot(dc, idx), Vol();
      DeleteFacts(geo, v, fds, m, s);
      FreeOwned(FirstCluster(e), s);
      ghost var m1 := if FirstCluster(e) >= 2 then m.(own := m.own - {s}) else m;
      AfterFree(geo, v, Vol(), fds, m, m1, s, FirstCluster(e));
      ghost var d := disk;
      var ok := DirWriteEntry(dc, idx, Deleted(e), ChainOf(m1, dc));
      KeepsTrans(geo, old(disk), d, disk);
      if !IsOpen(fds, s) {
        DeleteDone(geo, v, Vol(), fds, m, s, FirstCluster(e));
        m := Removed(m, s);
      }
    }

    /** Delete the file a path names. */
    method Delete(path: seq<Byte>) returns (ok: bool)
      requires Valid() && 0 !in path
      modifies `disk, `m, buf
      ensures Mounted() && Keeps(geo, old(disk), disk)
      ensures ok <==> FileAt(old(m), path).Some?
      ensures var p := Resolve(old(m), 0, path); var names := NamesIn(old(m), if p.Named? then p.dc else 0);
        ok <==> p.Named? && p.name in names && Slot(p.dc, names[p.name]) in old(m).ents
                && old(m).ents[Slot(p.dc, names[p.name])][11] / 16 % 2 == 0
      ensures !ok ==> Valid() && m == old(m) && disk == old(disk)
      ensures ok && !IsOpen(fds, FileAt(old(m), path).value) ==>
        Valid() && m == Removed(old(m), FileAt(old(m), path).value)
      ensures ok && !IsOpen(fds, FileAt(old(m), path).value) ==>
                FreedExactly(old(Vol()), Vol(), old(m), FileAt(old(m), path).value)
      ensures ok && !IsOpen(fds, FileAt(old(m), path).value) ==>
        var s := FileAt(old(m), path).value;
        s in old(m).own && |Vol().fat| == |old(Vol()).fat|
        && forall c | 0 <= c < |Vol().fat| :: Vol().fat[c] == if c in old(m).own[s] then 0 else old(Vol()).fat[c]
    {
      FileAtMeans(m, path);
      hide GeometryOk, Inv, VolumeOf, Keeps, NamesIn, Resolve, IsDir, FileAt, SlotAt, Removed;
      MountedBounds();
      var place := ResolvePath(path);
      FileAtPlace(m, path);
      if !place.Named? { return false; }
      var idx, e := Find(place.dc, place.name);
      if idx < 0 { return false; }
      if IsDir(e) { return false; }
      FileKnown(geo, Vol(), fds, m, Slot(place.dc, idx));
      assert FileAt(m, path) == Some(Slot(place.dc, idx));
      DeleteAt(place.dc, idx, e);
      return true;
    }

    /** Give the entry at slot (dc, idx) a new 8.3 name. */
    method RenameAt(dc: nat, idx: nat, e: Raw, name: Name)
      requires Valid() && Slot(dc, idx) in m.ents && m.ents[Slot(dc, idx)] == e
      requires UpperName(name) == name && name[0] != DOT && name[0] != 0
      modifies `disk, `m, buf
      ensures Mounted() && Keeps(geo, old(disk), disk)
      ensures name[0] != DIR_FREE && name !in NamesIn(old(m), dc) ==>
                Valid() && m == old(m).(ents := old(m).ents[Slot(dc, idx) := WithName(e, name)])
    {
      hide GeometryOk, VolumeOf, Keeps, Inv, SlotWritten, DirSlots, NamesIn, WithName, UpperName;
      ghost var s, v := Slot(dc, idx), Vol();
      SlotFacts(geo, v, fds, m, s);
      var ok := DirWriteEntry(dc, idx, WithName(e, name), ChainOf(m, dc));
      if name[0] != DIR_FREE && name !in NamesIn(m, dc) {
        RenameDone(geo, v, Vol(), fds, m, s, name);
        m := m.(ents := m.ents[s := WithName(e, name)]);
      }
    }

    /** Rename an entry; it stays in its slot whatever directory the new path names. */
    method Rename(oldPath: seq<Byte>, newPath: seq<Byte>) returns (ok: bool)
      requires Valid() && 0 !in oldPath && 0 !in newPath
      modifies `disk, `m, buf
      ensures Mounted() && Keeps(geo, old(disk), disk)
      ensures ok <==> SlotAt(old(m), oldPath).Some? && NamesNew(old(m), newPath)
      ensures var p, q := Resolve(old(m), 0, oldPath), Resolve(old(m), 0, newPath);
        ok <==> p.Named? && p.name in NamesIn(old(m), p.dc) && q.Named? && q.name !in NamesIn(old(m), q.dc)
      ensures !ok ==> Valid() && m == old(m) && disk == old(disk)
      ensures ok ==> var s := SlotAt(old(m), oldPath).value; var p := Resolve(old(m), 0, newPath);
        s in old(m).ents && (p.dc == s.dir && p.name[0] != DIR_FREE ==>
          Valid() && m == old(m).(ents := old(m).ents[s := WithName(old(m).ents[s], p.name)]))
    {
      SlotAtMeans(m, oldPath);
      SlotAtMeans(m, newPath);
      hide GeometryOk, Inv, VolumeOf, Keeps, NamesIn, Resolve, SlotAt, WithName, UpperName;
      MountedBounds();
      var place := ResolvePath(oldPath);
      FileAtPlace(m, oldPath);
      if !place.Named? { return false; }
      var idx, e := Find(place.dc, place.name);
      if idx < 0 { return false; }
      var target := ResolvePath(newPath);
      if !target.Named? { return false; }
      var taken, _ := Find(target.dc, target.name);
      if taken >= 0 { return false; }
      RenameAt(place.dc, idx, e, target.name);
      return true;
    }

    // ----- mkdir, rmdir -----

    /** Take and zero a cluster that no entry owns yet. */
    method TakeCluster(ghost dc: nat) returns (c: nat)
      requires Valid() && IsDirectory(m, dc)
      modifies `disk, `m, buf
      ensures Valid() && Keeps(geo, old(disk), disk)
      ensures c == 0 ==> m == old(m) && disk == old(disk) && NoneFree(Vol().fat)
      ensures c != 0 ==> Took(geo, old(Vol()), old(m), Vol(), m, dc, c)
    {
      hide GeometryOk, Inv, VolumeOf, Keeps, Zeroed, WithLost, NoneFree, Full, Roomy, NamesIn;
      MountedBounds();
      ghost var v := Vol();
      c := FatAlloc();
      if c != 0 {
        ghost var d := disk;
        ZeroCluster(c);
        KeepsTrans(geo, old(disk), d, disk);
        MkdirTaken(geo, v, Vol(), fds, m, c, dc);
        m := WithLost(m, c);
      }
    }

    /** Give a taken cluster back. */
    method GiveBack(c: nat, ghost v0: Volume, ghost m0: Model, ghost dc: nat)
      requires Valid() && Took(geo, v0, m0, Vol(), m, dc, c) && Inv(geo, v0, fds, m0)
      modifies `disk, `m, buf
      ensures Valid() && Keeps(geo, old(disk), disk) && m == m0 && Vol().fat == v0.fat
    {
      hide GeometryOk, Inv, VolumeOf, Keeps, Zeroed, Full, Roomy, NamesIn, WithoutLost;
      MountedBounds();
      ghost var v := Vol();
      FatSet(c, FAT_FREE);
      assert Vol().fat == v.fat[c := FAT_FREE];
      MkdirUndone(geo, v0, v, fds, m0, c, dc);
      m := WithoutLost(m);
    }

    /** Make directory dc a new, empty subdirectory. */
    method MkdirIn(dc: nat, name: Name) returns (ok: bool, ghost s: Slot, ghost made: nat)
      requires Valid() && IsDirectory(m, dc) && name !in NamesIn(m, dc)
      requires UpperName(name) == name && name[0] != DOT && name[0] != 0
      modifies `disk, `m, buf
      ensures Mounted() && Keeps(geo, old(disk), disk)
      ensures made < 65536 && (made == 0 <==> NoneFree(old(Vol()).fat))
      ensures made == 0 ==> !ok && Valid() && m == old(m) && disk == old(disk)
      ensures made != 0 && name[0] != DIR_FREE && !Full(geo, old(Vol()), old(m), dc) ==>
                ok && Valid() && MadeDir(old(m), m, dc, name, s, made) && EmptyDir(geo, old(Vol()), Vol(), m, made)
      ensures made != 0 && Full(geo, old(Vol()), old(m), dc) && !(dc != 0 && TwoFree(old(Vol()).fat)) ==>
                !ok && Valid() && m == old(m) && Vol().fat == old(Vol()).fat
      ensures made != 0 && Full(geo, old(Vol()), old(m), dc) && dc != 0 && TwoFree(old(Vol()).fat) ==>
                LostOne(old(Vol()), old(m), Vol(), m, dc)
                && (ok <==> !Roomy(geo, old(Vol()), old(m), dc))
      ensures !ok && made != 0 && Full(geo, old(Vol()), old(m), dc) && dc != 0 && TwoFree(old(Vol()).fat) ==>
                Valid() && SlotsGrow(geo, old(Vol()), old(m), Vol(), m, dc)
      ensures ok && Full(geo, old(Vol()), old(m), dc) ==>
                OutOfReach(geo, old(Vol()), old(m), Vol(), m, dc, NewEntry(name, ATTR_DIR, made))
    {
      hide GeometryOk, Inv, VolumeOf, Keeps, SlotWritten, NamesIn, NewEntry, Full, Roomy, TakesSlot, UpperName,
           Extended, Adopted, MadeDir, NoneFree, TwoFree, LostOne, Took, Grown, SlotsGrow, OutOfReach, EmptyDir;
      MountedBounds();
      s := Slot(0, 0);
      ghost var v0, m0 := Vol(), m;
      var c := TakeCluster(dc);
      made := c;
      if c == 0 { return false, s, made; }
      TookFacts(geo, v0, m0, Vol(), m, dc, c);
      ghost var v1, m1, d1 := Vol(), m, disk;
      var i;
      ghost var grown;
      ok, i, grown := AddEntry(dc, NewEntry(name, ATTR_DIR, c));
      ghost var d2 := disk;
      KeepsTrans(geo, old(disk), d1, d2);
      if i < 0 {
        GiveBack(c, v0, m0, dc);
        KeepsTrans(geo, old(disk), d2, disk);
        GiveBackCase(geo, v0, v1, fds, m0, m1, c, dc);
      } else if grown == 0 {
        VacantNotFull(geo, v1, m1, dc, i);
        if name[0] != DIR_FREE {
          s := Slot(dc, i);
          EntryIn(geo, v1, m1, Vol(), s, NewEntry(name, ATTR_DIR, c));
          MkdirDone(geo, v1, Vol(), fds, m0, dc, i, name, c);
          MkdirMade(geo, v1, fds, m0, dc, i, name, c);
          m := Adopted(m1, s, NewEntry(name, ATTR_DIR, c), c);
          SlotKeepsFat(geo, v1, Vol(), dc, ChainOf(m1, dc), i, NewEntry(name, ATTR_DIR, c));
          MadeEmpty(geo, v0, Vol(), m0, m, dc, name, s, c);
        }
      } else {
        NewEntryLive(name, ATTR_DIR, c);
        MkdirLost(geo, v0, fds, m0, v1, m1, Vol(), m, dc, c, grown);
        GrowthSeen(geo, v0, m0, v1, m1, Vol(), m, dc, c, NewEntry(name, ATTR_DIR, c));
      }
    }

    /** Make the directory a path names. */
    method Mkdir(path: seq<Byte>) returns (ok: bool, ghost s: Slot, ghost made: nat)
      requires Valid() && 0 !in path
      modifies `disk, `m, buf
      ensures Mounted() && Keeps(geo, old(disk), disk)
      ensures !NamesNew(old(m), path) ==> !ok && Valid() && m == old(m) && disk == old(disk)
      ensures made < 65536 && (NamesNew(old(m), path) ==> (made == 0 <==> NoneFree(old(Vol()).fat)))
      ensures made == 0 ==> !ok && Valid() && m == old(m) && disk == old(disk)
      ensures CanAdd(geo, old(Vol()), old(m), path) && made != 0 ==>
                ok && Valid() && MadeDir(old(m), m, DirOf(old(m), path), NameFor(old(m), path), s, made)
      ensures CanAdd(geo, old(Vol()), old(m), path) && made != 0 ==> EmptyDir(geo, old(Vol()), Vol(), m, made)
      ensures NoSlotFor(geo, old(Vol()), old(m), path) && !TakesTwo(geo, old(Vol()), old(m), path) ==>
                !ok && Valid() && m == old(m) && Vol().fat == old(Vol()).fat
      ensures TakesTwo(geo, old(Vol()), old(m), path) ==>
                LostOne(old(Vol()), old(m), Vol(), m, DirOf(old(m), path))
                && (ok <==> !Roomy(geo, old(Vol()), old(m), DirOf(old(m), path)))
      ensures TakesTwo(geo, old(Vol()), old(m), path) && !ok ==>
                Valid() && SlotsGrow(geo, old(Vol()), old(m), Vol(), m, DirOf(old(m), path))
      ensures TakesTwo(geo, old(Vol()), old(m), path) && ok ==>
                OutOfReach(geo, old(Vol()), old(m), Vol(), m, DirOf(old(m), path),
                           EntryFor(old(m), path, ATTR_DIR, made))
      ensures !NamesNew(old(m), path) || CanAdd(geo, old(Vol()), old(m), path)
              || NoSlotFor(geo, old(Vol()), old(m), path) ==>
                m.lost == old(m).lost + if TakesTwo(geo, old(Vol()), old(m), path) then 1 else 0
    {
      hide GeometryOk, Inv, VolumeOf, Keeps, NamesIn, Full, Roomy, Resolve, UpperName, MadeDir, NoneFree, TwoFree,
           LostOne, EmptyDir, SlotsGrow, OutOfReach, NewEntry, EntryFor, DirOf, NameFor, Extended;
      s, made := Slot(0, 0), 0;
      MountedBounds();
      var place := ResolvePath(path);
      if !place.Named? { return false, s, made; }
      PlaceFor(m, path, ATTR_DIR, 0);
      var idx, e := Find(place.dc, place.name);
      if idx >= 0 { return false, s, made; }
      ghost var v0, m0 := Vol(), m;
      ok, s, made := MkdirIn(place.dc, place.name);
      PlaceFor(m0, path, ATTR_DIR, made);
      TwoNotNone(v0.fat);
      LostCount(v0, m0, Vol(), m, place.dc, place.name, s, made);
    }

    /** Is there no live entry in a subdirectory? */
    method IsEmpty(dc: nat) returns (empty: bool)
      requires Valid() && dc in m.dirs
      modifies buf
      ensures empty <==> forall s | s in m.ents :: s.dir != dc
    {
      hide GeometryOk, Inv, VolumeOf, DirSlots, DirOk, Live;
      DirChainIn(geo, Vol(), fds, m, dc);
      ghost var slots := DirSlots(geo, Vol(), dc, ChainOf(m, dc));
      var maxEnts := if dc == 0 then geo.rootEntries else SUBDIR_MAX_ENTS;
      var i := 0;
      while i < maxEnts
        invariant 0 <= i <= maxEnts && i <= |slots|
        invariant forall j | 0 <= j < i :: !Live(slots[j])
      {
        var ok, e := DirReadEntry(dc, i, ChainOf(m, dc));
        if !ok { break; }
        if e[0] == DIR_END { break; }
        if e[0] == DIR_FREE || e[11] % 16 != 0 || (e[0] == DOT && (e[1] == SPACE || (e[1] == DOT && e[2] == SPACE))) {
          LiveTest(e);
          i := i + 1;
          continue;
        }
        LiveTest(e);
        NotEmpty(geo, Vol(), fds, m, dc, i);
        return false;
      }
      NoneLive(geo, Vol(), fds, m, dc, i);
      return true;
    }

    /** Remove the empty directory a path names. */
    method Rmdir(path: seq<Byte>) returns (ok: bool)
      requires Valid() && 0 !in path
      modifies `disk, `m, buf
      ensures Valid() && Keeps(geo, old(disk), disk)
      ensures ok <==> EmptyDirAt(old(m), path).Some?
      ensures var p := Resolve(old(m), 0, path);
        ok <==> p.Named? && p.name in NamesIn(old(m), p.dc) && Slot(p.dc, NamesIn(old(m), p.dc)[p.name]) in old(m).ents
                && var e := old(m).ents[Slot(p.dc, NamesIn(old(m), p.dc)[p.name])];
                   e[11] / 16 % 2 == 1 && forall o | o in old(m).ents :: o.dir != e[26] as int + 256 * e[27] as int
      ensures !ok ==> m == old(m) && disk == old(disk)
      ensures ok ==> EmptyDirAt(old(m), path).value in old(m).ents
      ensures ok ==> var s := EmptyDirAt(old(m), path).value;
                     m == Removed(Undir(old(m), FirstCluster(old(m).ents[s])), s)
      ensures ok ==> FreedExactly(old(Vol()), Vol(), old(m), EmptyDirAt(old(m), path).value)
      ensures ok ==>
        var s := EmptyDirAt(old(m), path).value;
        s in old(m).own && |Vol().fat| == |old(Vol()).fat|
        && forall c | 0 <= c < |Vol().fat| :: Vol().fat[c] == if c in old(m).own[s] then 0 else old(Vol()).fat[c]
    {
      EmptyDirMeans(m, path);
      hide GeometryOk, Inv, VolumeOf, Keeps, NamesIn, Resolve, IsDir, SlotAt, Removed, FirstCluster, Deleted,
           SlotWritten, Freed, DirSlots;
      MountedBounds();
      var place := ResolvePath(path);
      FileAtPlace(m, path);
      if !place.Named? { return false; }
      var idx, e := Find(place.dc, place.name);
      if idx < 0 { return false; }
      if !IsDir(e) { return false; }
      ghost var s, dc := Slot(place.dc, idx), FirstCluster(e);
      DirEntryHead(geo, Vol(), fds, m, s);
      var empty := IsEmpty(FirstCluster(e));
      if !empty { return false; }
      ghost var v, m1 := Vol(), m.(own := m.own - {s});
      InvLinked(geo, v, fds, m);
      FreeOwned(FirstCluster(e), s);
      RmdirFreed(geo, v, fds, m, s);
      ghost var d := disk;
      ok := DirWriteEntry(place.dc, idx, Deleted(e), ChainOf(m1, place.dc));
      KeepsTrans(geo, old(disk), d, disk);
      DeletedNotLive(e);
      SlotKeepsFat(geo, v.(fat := Freed(v.fat, m.own[s])), Vol(), s.dir, ChainOf(m1, s.dir), s.idx, Deleted(e));
      RmdirStep(geo, v, Vol(), fds, m, dc, Deleted(e));
      FreedMeans(v.fat, m.own[s]);
      m := Removed(Undir(m, dc), s);
    }
  }
}
