/** Mkdir in a full subdirectory does lose a cluster, from an empty volume on: a directory is made and filled
    with files, and then one more directory is made in it. */
module LostCluster {
  import opened Sectors
  import opened FatDisk
  import opened Chains
  import opened Directory
  import opened FileSystem
  import opened EntrySteps
  import opened Operations
  import opened Paths
  import opened Mounting
  import opened Calls
  import D = Driver
  import EndToEnd

  // ----- names -----

  /** "D", and three letters from A to P for the number i below it. */
  const PARENT: seq<Byte> := [68]

  function FileName(i: nat): (n: seq<Byte>)
    requires i < 4096
    ensures |n| == 3
  {
    [65 + i / 256, 65 + i / 16 % 16, 65 + i % 16]
  }

  function InParent(i: nat): seq<Byte>
    requires i < 4096
  {
    PARENT + [SLASH] + FileName(i)
  }

  lemma PlainName(n: seq<Byte>)
    requires 0 < |n| <= 3 && forall b | b in n :: 65 <= b <= 90
    ensures IndexOf(n, SLASH) == IndexOf(n, DOT) == |n|
    ensures |CompName(n)| == 11 && CompName(n)[..|n|] == n
    ensures UpperName(CompName(n)) == CompName(n) && CompName(n)[0] == n[0]
  {
    hide IndexOf;
    forall k | 0 <= k < |n| ensures 65 <= n[k] <= 90 { assert n[k] in n; }
    assert IndexOf(n, DOT) == |n|;
    assert n[..|n|] == n;
    assert To83(n) == Field(n, 8) + Field(n[|n|..], 3);
  }

  /** The name file i is found by. */
  function KeyOf(i: nat): (n: Name)
    requires i < 4096
    ensures UpperName(n) == n && 65 <= n[0] <= 80
  {
    PlainName(FileName(i));
    CompName(FileName(i))
  }

  lemma FileNamesDiffer(i: nat, j: nat)
    requires i < 4096 && j < 4096 && KeyOf(i) == KeyOf(j)
    ensures i == j
  {
    hide CompName;
    PlainName(FileName(i));
    PlainName(FileName(j));
    assert FileName(i) == FileName(j);
    Base16(i);
    Base16(j);
  }

  lemma Base16(i: nat)
    ensures i == i / 256 * 256 + i / 16 % 16 * 16 + i % 16
  {
    assert i / 256 == i / 16 / 16;
  }

  lemma ResolveParent(m: Model)
    ensures Resolve(m, 0, PARENT) == Named(0, CompName(PARENT))
    ensures 0 !in PARENT && UpperName(CompName(PARENT)) == CompName(PARENT) && CompName(PARENT)[0] == 68
  {
    PlainName(PARENT);
  }

  lemma ResolveInParent(m: Model, i: nat)
    requires i < 4096 && HasSubdir(m, 0, CompName(PARENT))
    ensures Resolve(m, 0, InParent(i)) == Named(Subdir(m, 0, CompName(PARENT)), KeyOf(i))
    ensures 0 !in InParent(i)
  {
    hide HasSubdir, Subdir, CompName;
    PlainName(PARENT);
    PlainName(FileName(i));
    var path := InParent(i);
    assert IndexOf(path, SLASH) == 1 by { assert path[1] == SLASH && path[0] != SLASH; }
    assert path[..1] == PARENT && path[2..] == FileName(i);
  }

  // ----- filling the directory -----

  /** The first i slots are taken, the others are end marks. */
  ghost predicate FilledTo(slots: seq<Raw>, i: nat) {
    && i <= |slots| && (forall j | 0 <= j < i :: !Vacant(slots[j]))
    && (forall j | i <= j < |slots| :: IsEnd(slots[j]))
  }

  ghost predicate NameOfOne(n: Name, j: nat) {
    j < 4096 && n == KeyOf(j)
  }

  /** Directory dc is "D" in the root and holds i files; two clusters are free and none is lost. */
  ghost predicate Filling(g: Geometry, v: Volume, fds: seq<FD>, m: Model, dc: nat, i: nat) {
    && AllClosed(fds) && m.lost == 0 && TwoFree(v.fat)
    && HasSubdir(m, 0, CompName(PARENT)) && Subdir(m, 0, CompName(PARENT)) == dc && dc != 0 && dc in m.dirs
    && |SlotsOf(g, v, m, dc)| == g.secPerClus * 16 && FilledTo(SlotsOf(g, v, m, dc), i)
    && (forall n | n in NamesIn(m, dc) :: exists j: nat :: j < i && NameOfOne(n, j))
  }

  lemma NextIsNew(g: Geometry, v: Volume, fds: seq<FD>, m: Model, dc: nat, i: nat)
    requires Filling(g, v, fds, m, dc, i) && i < 4096
    ensures NamesNew(m, InParent(i)) && 0 !in InParent(i)
    ensures DirOf(m, InParent(i)) == dc && NameFor(m, InParent(i)) == KeyOf(i) && AllClosed(fds)
  {
    hide Resolve, NamesIn, HasSubdir, Subdir, SlotsOf, CompName, KeyOf, FilledTo, TwoFree;
    ResolveInParent(m, i);
    if KeyOf(i) in NamesIn(m, dc) {
      var j: nat :| j < i && NameOfOne(KeyOf(i), j);
      FileNamesDiffer(i, j);
    }
  }

  lemma HasVacant(g: Geometry, v: Volume, fds: seq<FD>, m: Model, dc: nat, i: nat)
    requires Filling(g, v, fds, m, dc, i) && g.secPerClus < 256
    ensures Full(g, v, m, dc) <==> i == g.secPerClus * 16
    ensures Roomy(g, v, m, dc)
  {
    hide NamesIn, HasSubdir, Subdir, SlotsOf, CompName, TwoFree;
    if i < g.secPerClus * 16 { assert Vacant(SlotsOf(g, v, m, dc)[i]); }
  }

  lemma FilledSlots(slots: seq<Raw>, limit: nat, i: nat, idx: nat, e: Raw, r: Raw)
    requires FilledTo(slots, i) && i < |slots| && i < limit && FirstVacant(slots, limit, idx) && !Vacant(r)
    ensures idx == i && FilledTo(slots[idx := e][idx := r], i + 1)
  {
    assert Vacant(slots[i]);
  }

  /** The entry of the new file keeps its name when it is closed. */
  lemma ClosedEntry(n: Name, e: Raw, r: Raw)
    requires e == NewEntry(n, ATTR_ARCH, 0) && r == WithSize(e, 0, 0) && 65 <= n[0] <= 80 && UpperName(n) == n
    ensures Key(e) == Key(r) == n && !Vacant(r) && FirstCluster(e) == FileSize(e) == 0
  {
    hide NewEntry, WithSize, UpperName, FirstCluster, FileSize;
    SameNameFields(e, r);
    SamePrefix(e, r);
    assert NameOf(e) == n && r[0] == e[0] == NameOf(e)[0];
  }

  /** Nothing but the entry, the chain and the contents of the new file is new in the meaning. */
  lemma OneMoreFile(g: Geometry, v: Volume, fds: seq<FD>, m: Model, m2: Model, dc: nat, s: Slot, e: Raw, r: Raw)
    requires Inv(g, v, fds, m) && dc in m.dirs
    requires HasSubdir(m, 0, CompName(PARENT)) && Subdir(m, 0, CompName(PARENT)) == dc
    requires dc != 0 && s.dir == dc && s !in m.ents && Key(r) !in NamesIn(m, dc)
    requires m2 == Created(m, s, e).(ents := m.ents[s := r])
    ensures ChainOf(Created(m, s, e), dc) == ChainOf(m2, dc) == ChainOf(m, dc)
    ensures NamesIn(m2, dc) == NamesIn(m, dc)[Key(r) := s.idx]
    ensures HasSubdir(m2, 0, CompName(PARENT)) && Subdir(m2, 0, CompName(PARENT)) == dc
  {
    hide Inv, NamesIn, Key, CompName, IsDir, FirstCluster;
    InvParts(g, v, fds, m);
    DirKnown(g, v, fds, m, dc);
    NamesBind(m, m2, s, r);
  }

  lemma DirKnown(g: Geometry, v: Volume, fds: seq<FD>, m: Model, dc: nat)
    requires Inv(g, v, fds, m) && dc in m.dirs
    ensures m.dirs[dc] in m.ents
  {
  }

  lemma NamesMore(names: map<Name, nat>, more: map<Name, nat>, i: nat, idx: nat)
    requires i < 4096 && more == names[KeyOf(i) := idx]
    requires forall n | n in names :: exists j: nat :: j < i && NameOfOne(n, j)
    ensures forall n | n in more :: exists j: nat :: j < i + 1 && NameOfOne(n, j)
  {
    hide KeyOf;
    forall n | n in more ensures exists j: nat :: j < i + 1 && NameOfOne(n, j) {
      if n == KeyOf(i) {
        assert NameOfOne(n, i);
      } else {
        var j: nat :| j < i && NameOfOne(n, j);
        assert NameOfOne(n, j);
      }
    }
  }

  lemma SlotsAfter(g: Geometry, v: Volume, v1: Volume, v2: Volume, m: Model, m1: Model, m2: Model,
                   s: Slot, e: Raw, r: Raw)
    requires EntryMade(g, v, m, v1, s, e) && SlotWritten(g, v1, v2, s.dir, ChainOf(m1, s.dir), s.idx, r)
    requires ChainOf(m1, s.dir) == ChainOf(m2, s.dir) == ChainOf(m, s.dir)
    ensures FirstVacant(SlotsOf(g, v, m, s.dir), MaxEnts(g, s.dir), s.idx) && v2.fat == v.fat
    ensures SlotsOf(g, v2, m2, s.dir) == SlotsOf(g, v, m, s.dir)[s.idx := e][s.idx := r]
  {
  }

  /** A file was created with entry e in slot s and closed again, which wrote entry r. */
  ghost predicate MadeAndClosed(g: Geometry, v: Volume, fds: seq<FD>, m: Model, v2: Volume, fds2: seq<FD>, m2: Model,
                                s: Slot, e: Raw, r: Raw) {
    exists v1, fds1, m1, fd :: MadeThenClosed(g, v, fds, m, v1, fds1, m1, v2, fds2, m2, s, e, r, fd)
  }

  ghost predicate MadeThenClosed(g: Geometry, v: Volume, fds: seq<FD>, m: Model, v1: Volume, fds1: seq<FD>, m1: Model,
                                 v2: Volume, fds2: seq<FD>, m2: Model, s: Slot, e: Raw, r: Raw, fd: int) {
    && 0 <= fd < |fds1| && fds2 == fds1[fd := fds1[fd].(used := false)] && m2 == m1.(ents := m1.ents[s := r])
    && CreatedFile(fds, m, fds1, m1, s.dir, e, s, fd) && EntryMade(g, v, m, v1, s, e)
    && SlotWritten(g, v1, v2, s.dir, ChainOf(m1, s.dir), s.idx, r)
  }

  /** One file more. */
  lemma FilledOne(g: Geometry, v: Volume, fds: seq<FD>, m: Model, v2: Volume, fds2: seq<FD>, m2: Model,
                  s: Slot, e: Raw, r: Raw, i: nat, n: nat)
    requires i < 4096 && n == i + 1 && e == NewEntry(KeyOf(i), ATTR_ARCH, 0) && r == WithSize(e, 0, 0)
    requires i < g.secPerClus * 16 && KeyOf(i) !in NamesIn(m, s.dir)
    requires Inv(g, v, fds, m) && Filling(g, v, fds, m, s.dir, i)
    requires MadeAndClosed(g, v, fds, m, v2, fds2, m2, s, e, r)
    ensures Filling(g, v2, fds2, m2, s.dir, n)
  {
    hide Inv, NamesIn, HasSubdir, Subdir, SlotsOf, FilledTo, TwoFree, EntryMade, SlotWritten, CompName, KeyOf;
    hide NewEntry, WithSize, Key, UpperName, Resolve, FirstCluster, FileSize;
    var dc := s.dir;
    var v1, fds1, m1, fd :| MadeThenClosed(g, v, fds, m, v1, fds1, m1, v2, fds2, m2, s, e, r, fd);
    ClosedEntry(KeyOf(i), e, r);
    assert m1.ents[s := r] == m.ents[s := r];
    OneMoreFile(g, v, fds, m, m2, dc, s, e, r);
    SlotsAfter(g, v, v1, v2, m, m1, m2, s, e, r);
    FilledSlots(SlotsOf(g, v, m, dc), MaxEnts(g, dc), i, s.idx, e, r);
    NamesMore(NamesIn(m, dc), NamesIn(m2, dc), i, s.idx);
  }

  /** Create a file in the directory and close it. */
  method AddFile(d: D.Fat12, ghost dc: nat, i: nat)
    requires i < d.geo.secPerClus * 16 && d.Valid() && Filling(d.geo, d.Vol(), d.fds, d.m, dc, i)
    modifies d, d.buf
    ensures d.Valid() && d.geo == old(d.geo) && Filling(d.geo, d.Vol(), d.fds, d.m, dc, i + 1)
  {
    hide Inv, GeometryOk, VolumeOf, Filling, NamesIn, Resolve, Full, NewEntry, WithSize, SlotWritten, EntryMade, KeyOf;
    hide CreatedFile, FirstCluster, FileSize, DirOf, NameFor, Keeps, AllClosed;
    d.MountedBounds();
    ghost var g, v, f, m := d.geo, d.Vol(), d.fds, d.m;
    NextIsNew(g, v, f, m, dc, i);
    HasVacant(g, v, f, m, dc, i);
    ghost var e := NewEntry(KeyOf(i), ATTR_ARCH, 0);
    NotDeleted(i);
    var fd;
    ghost var s;
    fd, s := d.Create(InParent(i));
    ghost var v1, f1, m1 := d.Vol(), d.fds, d.m;
    OpenedNew(g, v, f, m, f1, m1, dc, s, e, fd);
    d.Close(fd);
    ghost var r := WithSize(e, 0, 0);
    assert MadeThenClosed(g, v, f, m, v1, f1, m1, d.Vol(), d.fds, d.m, s, e, r, fd);
    FilledOne(g, v, f, m, d.Vol(), d.fds, d.m, s, e, r, i, i + 1);
  }

  lemma NotDeleted(i: nat)
    requires i < 4096
    ensures KeyOf(i)[0] != DIR_FREE
  {
  }

  lemma OpenedNew(g: Geometry, v: Volume, fds: seq<FD>, m: Model, fds1: seq<FD>, m1: Model, dc: nat, s: Slot, e: Raw,
                  fd: int)
    requires Inv(g, v, fds, m) && AllClosed(fds) && CreatedFile(fds, m, fds1, m1, dc, e, s, fd)
    requires FirstCluster(e) == FileSize(e) == 0
    ensures s.dir == dc && 0 <= fd < |fds1| && fds1[fd] == FD(true, 0, 0, 0, s.dir, s.idx)
    ensures s in m1.ents && m1.ents[s] == e && |fds1| == MAX_FDS
  {
    hide Inv, NamesIn, Key;
    InvParts(g, v, fds, m);
    assert !fds[0].used;
  }

  // ----- from an empty volume -----

  lemma RootHasRoom(g: Geometry, v: Volume)
    requires VolumeOk(g, v) && Formatted(v, {}) && g.rootEntries >= 1 && |v.fat| > 4
    ensures NamesNew(EmptyModel({}), PARENT) && CanAdd(g, v, EmptyModel({}), PARENT) && 0 !in PARENT
    ensures DirOf(EmptyModel({}), PARENT) == 0 && NameFor(EmptyModel({}), PARENT) == CompName(PARENT)
    ensures !NoneFree(v.fat)
  {
    hide Resolve, CompName, Live, Key;
    ResolveParent(EmptyModel({}));
    ZeroSlots(v.root);
    var slots := SlotsOf(g, v, EmptyModel({}), 0);
    assert slots[0] == EntriesOf(v.root)[0] && Vacant(slots[0]);
    assert v.fat[2] == FAT_FREE;
  }

  lemma ParentMade(g: Geometry, v: Volume, v1: Volume, fds: seq<FD>, m1: Model, s: Slot, c: nat)
    requires Formatted(v, {}) && |v.fat| > 4 && AllClosed(fds)
    requires MadeDir(EmptyModel({}), m1, 0, CompName(PARENT), s, c) && EmptyDir(g, v, v1, m1, c)
    ensures Filling(g, v1, fds, m1, c, 0)
  {
    hide NamesIn, SlotsOf, CompName, FirstCluster, FileSize, NewEntry, IsDir, UpperName, Live, Key;
    NewEntryLive(CompName(PARENT), 0x10, c);
    assert Slot(0, s.idx) == s;
    assert v1.fat[if c == 2 then 3 else 2] == FAT_FREE && v1.fat[if c == 4 then 3 else 4] == FAT_FREE;
  }

  /** Make the directory in the root of an empty volume. */
  method MakeParent(d: D.Fat12) returns (ghost dc: nat)
    requires d.Valid() && d.m == EmptyModel({}) && AllClosed(d.fds) && Formatted(d.Vol(), {})
    requires d.geo.rootEntries >= 1 && d.geo.totalClusters >= 3
    modifies d, d.buf
    ensures d.Valid() && d.geo == old(d.geo) && Filling(d.geo, d.Vol(), d.fds, d.m, dc, 0)
  {
    hide Inv, GeometryOk, VolumeOf, Formatted, NamesIn, Filling, AllClosed, Keeps, MadeDir, EmptyDir, NoneFree;
    d.MountedBounds();
    ghost var v := d.Vol();
    RootHasRoom(d.geo, v);
    var ok;
    ghost var s;
    ok, s, dc := d.Mkdir(PARENT);
    ParentMade(d.geo, v, d.Vol(), d.fds, d.m, s, dc);
  }

  /** The cluster is in use, and no entry has it. */
  ghost predicate HeldByNobody(v: Volume, m: Model, c: nat) {
    && 2 <= c < |v.fat| && Held(v.fat[c])
    && forall s | s in m.ents :: s in m.own && c !in m.own[s]
  }

  lemma LostIsHeld(g: Geometry, v: Volume, fds: seq<FD>, m: Model)
    requires Inv(g, v, fds, m) && m.lost > 0
    ensures exists c :: HeldByNobody(v, m, c)
  {
    hide SlotsAreEnts, DirsOk, DescriptorsOk, FilesOk, FirstCluster, IsDir, EntsAreSlots;
    LostNotDir(g, v, fds, m);
    var p := Slot(1, m.lost - 1);
    var c := m.own[p][0];
    assert c in m.own[p] && Owned(m.own, c) && IsChain(v.fat, m.own[p]);
    forall s | s in m.ents ensures s in m.own && c !in m.own[s] { assert Disjoint(m.own[p], m.own[s]); }
    assert HeldByNobody(v, m, c);
  }

  /** Create and close files until the directory is full. */
  method FillParent(d: D.Fat12, ghost dc: nat)
    requires d.Valid() && Filling(d.geo, d.Vol(), d.fds, d.m, dc, 0)
    modifies d, d.buf
    ensures d.Valid() && d.geo == old(d.geo)
    ensures Filling(d.geo, d.Vol(), d.fds, d.m, dc, d.geo.secPerClus * 16)
  {
    hide Inv, GeometryOk, VolumeOf, Filling;
    var i, n := 0, d.geo.secPerClus * 16;
    while i < n
      invariant i <= n && d.Valid() && d.geo == old(d.geo) && Filling(d.geo, d.Vol(), d.fds, d.m, dc, i)
    {
      AddFile(d, dc, i);
      i := i + 1;
    }
  }

  /** One directory more. */
  method LoseNow(d: D.Fat12, ghost dc: nat)
    requires d.Valid() && Filling(d.geo, d.Vol(), d.fds, d.m, dc, d.geo.secPerClus * 16)
    modifies d, d.buf
    ensures d.Valid() && d.m.lost == 1
  {
    hide Inv, GeometryOk, VolumeOf, NamesIn, Filling, AllClosed, Keeps, Full, Roomy, Resolve, TwoFree, LostOne;
    hide SlotsGrow, OutOfReach, DirOf, NameFor, MadeDir, EmptyDir;
    d.MountedBounds();
    var n := d.geo.secPerClus * 16;
    NextIsNew(d.geo, d.Vol(), d.fds, d.m, dc, n);
    HasVacant(d.geo, d.Vol(), d.fds, d.m, dc, n);
    FillingFacts(d.geo, d.Vol(), d.fds, d.m, dc, n);
    var ok, _, _ := d.Mkdir(InParent(n));
  }

  /** On every formatted volume with three clusters and a root directory: the state in which a cluster is in use
      that no entry has is reached by a mkdir, as many creates and closes as a cluster has slots, and a mkdir. */
  method LoseOne(disk: Disk, lba: nat) returns (d: D.Fat12)
    requires lba < |disk| && Mountable(disk, lba) && WellSized(disk, lba)
    requires GeometryOk(GeometryAt(disk, lba), |disk|) ==> Formatted(VolumeOf(GeometryAt(disk, lba), disk), {})
    requires GeometryAt(disk, lba).rootEntries >= 1 && GeometryAt(disk, lba).totalClusters >= 3
    ensures fresh(d) && d.Valid() && d.m.lost == 1 && exists c :: HeldByNobody(d.Vol(), d.m, c)
  {
    hide Inv, GeometryOk, VolumeOf, Formatted, Filling, AllClosed, GeometryAt, Mountable, WellSized, HeldByNobody;
    d := EndToEnd.MountFormatted(disk, lba, {});
    ghost var dc := MakeParent(d);
    FillParent(d, dc);
    LoseNow(d, dc);
    LostIsHeld(d.geo, d.Vol(), d.fds, d.m);
  }

  lemma FillingFacts(g: Geometry, v: Volume, fds: seq<FD>, m: Model, dc: nat, i: nat)
    requires Filling(g, v, fds, m, dc, i)
    ensures m.lost == 0 && dc != 0 && TwoFree(v.fat)
  {
  }

  // ----- one disk -----

  /** A disk of 16 MB on which every byte is zero: it has no boot sector, so the fixed geometry is taken. */
  function BlankDisk(): Disk {
    seq(32768, i => ZeroSector())
  }

  lemma BlankEntry(base: nat, c: nat)
    requires base + (ByteOff(c) + 1) / 512 < 32768
    ensures Entry(BlankDisk(), base, c) == FAT_FREE
  {
  }

  lemma BlankMounts()
    ensures Mountable(BlankDisk(), 0) && WellSized(BlankDisk(), 0)
    ensures GeometryAt(BlankDisk(), 0) == Geometry(16, 48, 80, 512, 16, 2, 16, 2043)
  {
    assert BlankDisk()[0] == ZeroSector();
    assert !HasBpb(ZeroSector());
  }

  lemma BlankFormatted(g: Geometry)
    requires GeometryOk(g, 32768)
    ensures Formatted(VolumeOf(g, BlankDisk()), {})
  {
    hide BlankDisk, Entry;
    var d, v := BlankDisk(), VolumeOf(g, BlankDisk());
    BlankSectors();
    forall c | 2 <= c < |v.fat| ensures v.fat[c] == FAT_FREE {
      EntryOfVolume(g, d, c);
      BlankEntry(g.fatLba, c);
    }
    forall k | 0 <= k < |v.root| ensures v.root[k] == ZeroSector() { assert v.root[k] == d[g.rootLba + k]; }
  }

  lemma BlankSectors()
    ensures |BlankDisk()| == 32768 && forall i | 0 <= i < 32768 :: BlankDisk()[i] == ZeroSector()
  {
  }

  /** On the blank disk one cluster is lost after 258 calls. */
  method LoseOneOfBlank() returns (d: D.Fat12)
    ensures fresh(d) && d.Valid() && d.m.lost == 1 && exists c :: HeldByNobody(d.Vol(), d.m, c)
  {
    hide GeometryOk, HeldByNobody, Formatted, BlankDisk, GeometryAt, Mountable, WellSized;
    BlankSectors();
    BlankMounts();
    if GeometryOk(GeometryAt(BlankDisk(), 0), 32768) { BlankFormatted(GeometryAt(BlankDisk(), 0)); }
    d := LoseOne(BlankDisk(), 0);
  }
}
