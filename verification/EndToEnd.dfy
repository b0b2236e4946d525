/** What a caller sees across operations: what is stored under a name is what is read back, and
    what the mounted volume's FAT holds is what its entries own. */
module EndToEnd {
  import opened Sectors
  import opened FatDisk
  import opened Chains
  import opened Extents
  import opened Directory
  import opened FileSystem
  import opened EntrySteps
  import opened Operations
  import opened Paths
  import opened FileBytes
  import opened Mounting
  import opened Calls
  import opened Determined
  import D = Driver

  // ----- conservation -----

  /** With no chain lost, a cluster is in use exactly if it is in the chain of one live entry, bad exactly
      if it is recorded as bad, and free otherwise. */
  lemma NothingLost(g: Geometry, v: Volume, fds: seq<FD>, m: Model, c: nat)
    requires Inv(g, v, fds, m) && m.lost == 0 && 2 <= c < |v.fat|
    ensures Held(v.fat[c]) <==> exists s :: s in m.ents && s in m.own && c in m.own[s]
    ensures v.fat[c] == FAT_BAD <==> c in m.bad
    ensures v.fat[c] == FAT_FREE <==> c !in m.bad && !exists s :: s in m.ents && s in m.own && c in m.own[s]
    ensures forall s, o | s in m.own && o in m.own && s != o && c in m.own[s] :: c !in m.own[o]
  {
    hide EntsAreSlots, SlotsAreEnts, DirsOk, DescriptorsOk, FilesOk, IsChain;
    if Held(v.fat[c]) {
      assert Owned(m.own, c);
      var s :| s in m.own && c in m.own[s];
      assert s in m.ents;
    }
    if exists s :: s in m.ents && s in m.own && c in m.own[s] {
      assert Owned(m.own, c);
    }
    forall s, o | s in m.own && o in m.own && s != o && c in m.own[s] ensures c !in m.own[o] {
      assert Disjoint(m.own[s], m.own[o]);
    }
  }

  /** Once no cluster is free, none becomes free as long as chains only grow. */
  lemma NoneFreeStays(g: Geometry, v: Volume, fds: seq<FD>, m: Model, v': Volume, fds': seq<FD>, m': Model)
    requires Inv(g, v, fds, m) && Inv(g, v', fds', m') && OwnGrows(m, m') && NoneFree(v.fat)
    ensures NoneFree(v'.fat)
  {
    hide EntsAreSlots, SlotsAreEnts, DirsOk, DescriptorsOk, FilesOk, OwnersOk, IsChain, Rooted;
    forall c | 2 <= c < |v'.fat| ensures v'.fat[c] != FAT_FREE {
      assert v.fat[c] != FAT_FREE;
      if Held(v.fat[c]) {
        assert Owned(m.own, c);
        var s :| s in m.own && c in m.own[s];
        assert c in m'.own[s];
        assert Owned(m'.own, c);
      }
    }
  }

  /** No chain has lost a cluster, and the bad clusters are the same. */
  ghost predicate OwnGrows(m: Model, m': Model) {
    m'.bad == m.bad && forall s | s in m.own :: s in m'.own && m.own[s] <= m'.own[s]
  }

  // ----- mounting -----

  /** Mounting a formatted volume, of which some clusters may be marked bad, establishes the invariant: the start
      of every run. */
  method MountFormatted(disk: Disk, lba: nat, ghost bad: set<nat>) returns (d: D.Fat12)
    requires lba < |disk| && Mountable(disk, lba) && WellSized(disk, lba)
    requires GeometryOk(GeometryAt(disk, lba), |disk|) ==>
               Formatted(VolumeOf(GeometryAt(disk, lba), disk), bad)
    ensures fresh(d) && fresh(d.buf) && d.Valid() && d.disk == disk && d.geo == GeometryAt(disk, lba)
    ensures d.m == EmptyModel(bad) && AllClosed(d.fds)
  {
    hide GeometryOk, Inv, VolumeOf, Formatted, GeometryAt, Mountable, WellSized;
    d := new D.Fat12(disk);
    var ok, _ := d.Init(lba);
    d.MountedBounds();
    d.m := EmptyModel(bad);
    FormattedInv(d.geo, d.Vol(), d.fds, bad);
  }

  /** With every descriptor closed the meaning does not depend on the descriptors. */
  lemma ClosedSame(g: Geometry, v: Volume, fds: seq<FD>, fds': seq<FD>, m: Model)
    requires Inv(g, v, fds, m) && AllClosed(fds) && AllClosed(fds') && |fds'| == MAX_FDS
    ensures Inv(g, v, fds', m)
  {
    hide Linked, EntsAreSlots, SlotsAreEnts, DirsOk, Rooted, IsDir, FirstCluster, FileSize;
  }

  /** The mounted volume is the one at sector lba, and there is nothing wrong with its size. */
  ghost predicate MountedAt(g: Geometry, disk: Disk, lba: nat) {
    lba < |disk| && Mountable(disk, lba) && WellSized(disk, lba) && g == GeometryAt(disk, lba)
  }

  /** No operation touches the boot sector: what it said when the volume was mounted it still says. */
  lemma StillMountedAt(g: Geometry, disk: Disk, disk': Disk, lba: nat)
    requires MountedAt(g, disk, lba) && GeometryOk(g, |disk|) && Keeps(g, disk, disk')
    ensures MountedAt(g, disk', lba)
  {
    hide HasBpb, BpbOf, GeometryOk, ByteOff, Keeps;
    KeepsFront(g, disk, disk');
    assert lba < g.fatLba;
    assert disk'[..g.fatLba][lba] == disk[..g.fatLba][lba];
  }

  lemma KeepsFront(g: Geometry, disk: Disk, disk': Disk)
    requires GeometryOk(g, |disk|) && Keeps(g, disk, disk')
    ensures |disk'| == |disk| && g.fatLba <= |disk| && disk'[..g.fatLba] == disk[..g.fatLba]
  {
  }

  /** Mounting again, with every descriptor closed, gives the same meaning, and it is the one the volume determines:
      any other reading has the same directories, entries and files, and is the same if no cluster is lost. */
  method Remount(d: D.Fat12, lba: nat)
    requires d.Valid() && AllClosed(d.fds) && MountedAt(d.geo, d.disk, lba)
    modifies d, d.buf
    ensures d.Valid() && d.m == old(d.m) && d.disk == old(d.disk) && d.geo == old(d.geo) && AllClosed(d.fds)
    ensures forall m | Inv(d.geo, d.Vol(), d.fds, m) :: SameReading(d.m, m)
  {
    hide GeometryOk, Inv, VolumeOf, GeometryAt, Mountable, WellSized, AllClosed;
    InvParts(d.geo, d.Vol(), d.fds, d.m);
    var ok, _ := d.Init(lba);
    ClosedSame(d.geo, d.Vol(), old(d.fds), d.fds, d.m);
    forall m | Inv(d.geo, d.Vol(), d.fds, m) ensures SameReading(d.m, m) {
      OneMeaning(d.geo, d.Vol(), d.fds, d.m, m);
    }
  }

  // ----- names survive -----

  /** Every directory reachable by name stays reachable by the same name. */
  ghost predicate KeepsSubdirs(m: Model, m': Model) {
    forall dc, n | HasSubdir(m, dc, n) :: HasSubdir(m', dc, n) && Subdir(m', dc, n) == Subdir(m, dc, n)
  }

  lemma {:induction false} ResolveKept(m: Model, m': Model, dc: nat, path: seq<Byte>)
    requires KeepsSubdirs(m, m') && Resolve(m, dc, path).Named?
    ensures Resolve(m', dc, path) == Resolve(m, dc, path)
    decreases |path|
  {
    hide HasSubdir, Subdir, CompName;
    var i := IndexOf(path, SLASH);
    if i == |path| {
    } else if i == 0 {
      ResolveKept(m, m', dc, path[1..]);
    } else {
      assert HasSubdir(m, dc, CompName(path[..i]));
      ResolveKept(m, m', Subdir(m, dc, CompName(path[..i])), path[i + 1..]);
    }
  }

  /** Adding an entry, or rewriting an entry's size fields, keeps subdirectories reachable. */
  lemma SubdirsKept(m: Model, m': Model)
    requires forall s | s in m.ents && IsDir(m.ents[s]) :: s in m'.ents && m'.ents[s] == m.ents[s]
    requires forall dc, n | n in NamesIn(m, dc) :: n in NamesIn(m', dc) && NamesIn(m', dc)[n] == NamesIn(m, dc)[n]
    ensures KeepsSubdirs(m, m')
  {
    hide NamesIn, IsDir, FirstCluster;
  }

  // ----- one binding at a time -----

  /** The slot a path is bound to holds the entry of the name the path ends in. */
  lemma BoundEntry(m: Model, path: seq<Byte>)
    requires SlotAt(m, path).Some?
    ensures var s, p := SlotAt(m, path).value, Resolve(m, 0, path);
            p == Named(s.dir, Key(m.ents[s])) && s in m.ents && Key(m.ents[s]) in NamesIn(m, s.dir)
            && NamesIn(m, s.dir)[Key(m.ents[s])] == s.idx
  {
    hide Resolve, NamesIn, Key;
  }

  /** Deleting a file unbinds its name and no other, in its own directory and no other, and the path leads
      nowhere afterwards. */
  lemma DeletedName(g: Geometry, v: Volume, fds: seq<FD>, m: Model, path: seq<Byte>)
    requires Inv(g, v, fds, m) && FileAt(m, path).Some?
    ensures var s := FileAt(m, path).value; var m' := Removed(m, s);
            && Resolve(m, 0, path).Named? && Resolve(m, 0, path).dc == s.dir
            && NamesIn(m', s.dir) == NamesIn(m, s.dir) - {Resolve(m, 0, path).name}
            && (forall o | o != s.dir :: NamesIn(m', o) == NamesIn(m, o))
            && FileAt(m', path) == None
  {
    hide Inv, NamesIn, KeysUnique, Resolve, Key, IsDir;
    InvParts(g, v, fds, m);
    BoundEntry(m, path);
    var s := FileAt(m, path).value;
    var m' := Removed(m, s);
    NamesUnbind(m, m', s);
    FileGone(m, m', s);
    ResolveKept(m, m', 0, path);
    FileAtPlace(m', path);
  }

  /** Taking away an entry that is no directory keeps every subdirectory reachable. */
  lemma FileGone(m: Model, m': Model, s: Slot)
    requires s in m.ents && !IsDir(m.ents[s]) && m'.ents == m.ents - {s}
    requires Key(m.ents[s]) in NamesIn(m, s.dir) && NamesIn(m, s.dir)[Key(m.ents[s])] == s.idx
    requires NamesIn(m', s.dir) == NamesIn(m, s.dir) - {Key(m.ents[s])}
    requires forall o | o != s.dir :: NamesIn(m', o) == NamesIn(m, o)
    ensures KeepsSubdirs(m, m')
  {
    hide NamesIn, Key, IsDir, FirstCluster;
    forall dc, n | HasSubdir(m, dc, n) ensures HasSubdir(m', dc, n) && Subdir(m', dc, n) == Subdir(m, dc, n) {
      assert Slot(dc, NamesIn(m, dc)[n]) != s;
    }
  }

  /** Removing an empty directory unbinds its name and no other. */
  lemma RmdirName(g: Geometry, v: Volume, fds: seq<FD>, m: Model, path: seq<Byte>)
    requires Inv(g, v, fds, m) && EmptyDirAt(m, path).Some?
    ensures var s := EmptyDirAt(m, path).value;
            s in m.ents && var m' := Removed(Undir(m, FirstCluster(m.ents[s])), s);
            && Resolve(m, 0, path).Named? && Resolve(m, 0, path).dc == s.dir
            && NamesIn(m', s.dir) == NamesIn(m, s.dir) - {Resolve(m, 0, path).name}
            && forall o | o != s.dir :: NamesIn(m', o) == NamesIn(m, o)
  {
    hide Inv, NamesIn, KeysUnique, Resolve, Key, IsDir, FirstCluster;
    InvParts(g, v, fds, m);
    BoundEntry(m, path);
    var s := EmptyDirAt(m, path).value;
    NamesUnbind(m, Removed(Undir(m, FirstCluster(m.ents[s])), s), s);
  }

  /** Renaming within a directory moves one binding to the new name and keeps the slot; a renamed file is
      found under the new path and not under the old one. */
  lemma RenamedName(g: Geometry, v: Volume, fds: seq<FD>, m: Model, oldPath: seq<Byte>, newPath: seq<Byte>)
    requires Inv(g, v, fds, m) && SlotAt(m, oldPath).Some? && NamesNew(m, newPath)
    requires Resolve(m, 0, newPath).dc == SlotAt(m, oldPath).value.dir
    requires var n := Resolve(m, 0, newPath).name; n[0] != DIR_END && n[0] != DIR_FREE && n[0] != DOT
    ensures var s, n := SlotAt(m, oldPath).value, Resolve(m, 0, newPath).name;
            s in m.ents && var m' := m.(ents := m.ents[s := WithName(m.ents[s], n)]);
            && Resolve(m, 0, oldPath).Named?
            && NamesIn(m', s.dir) == (NamesIn(m, s.dir) - {Resolve(m, 0, oldPath).name})[n := s.idx]
            && (forall o | o != s.dir :: NamesIn(m', o) == NamesIn(m, o))
            && (!IsDir(m.ents[s]) ==> FileAt(m', newPath) == Some(s) && FileAt(m', oldPath) == None)
  {
    hide Inv, NamesIn, KeysUnique, Resolve, Key, IsDir, WithName, UpperName, Live, FirstCluster, FileSize;
    InvParts(g, v, fds, m);
    TablesHold(g, v, fds, m);
    LiveEntries(g, v, m);
    BoundEntry(m, oldPath);
    ResolvedUpper(m, 0, newPath);
    var s, n := SlotAt(m, oldPath).value, Resolve(m, 0, newPath).name;
    var e := WithName(m.ents[s], n);
    var m' := m.(ents := m.ents[s := e]);
    RenamedLive(m.ents[s], n);
    NamesRebind(m, m', s, e);
    if !IsDir(m.ents[s]) {
      FileMoved(m, m', s, e);
      ResolveKept(m, m', 0, oldPath);
      ResolveKept(m, m', 0, newPath);
      FileAtPlace(m', oldPath);
      FileAtPlace(m', newPath);
    }
  }

  lemma LiveEntries(g: Geometry, v: Volume, m: Model)
    requires Tables(g, v, m)
    ensures forall s | s in m.ents :: Live(m.ents[s])
  {
    hide Live, SlotsOf;
  }

  lemma FileMoved(m: Model, m': Model, s: Slot, e: Raw)
    requires s in m.ents && !IsDir(m.ents[s]) && m'.ents == m.ents[s := e]
    requires Key(m.ents[s]) in NamesIn(m, s.dir) && NamesIn(m, s.dir)[Key(m.ents[s])] == s.idx
    requires Key(e) !in NamesIn(m, s.dir)
    requires NamesIn(m', s.dir) == (NamesIn(m, s.dir) - {Key(m.ents[s])})[Key(e) := s.idx]
    requires forall o | o != s.dir :: NamesIn(m', o) == NamesIn(m, o)
    ensures KeepsSubdirs(m, m')
  {
    hide NamesIn, Key, IsDir, FirstCluster;
    forall dc, n | HasSubdir(m, dc, n) ensures HasSubdir(m', dc, n) && Subdir(m', dc, n) == Subdir(m, dc, n) {
      assert Slot(dc, NamesIn(m, dc)[n]) != s;
    }
  }

  // ----- make a directory and remove it -----

  /** The path of a directory just made leads to it, and it is empty. */
  lemma MadeIsEmpty(g: Geometry, v: Volume, fds: seq<FD>, m: Model, v1: Volume, m1: Model, path: seq<Byte>,
                    s: Slot, c: nat)
    requires Inv(g, v, fds, m) && Inv(g, v1, fds, m1) && NamesNew(m, path) && c != 0
    requires MadeDir(m, m1, DirOf(m, path), NameFor(m, path), s, c)
    ensures EmptyDirAt(m1, path) == Some(s) && s in m1.ents && FirstCluster(m1.ents[s]) == c
    ensures s in m1.own && m1.own[s] == [c]
    ensures Removed(Undir(m1, c), s) == m
  {
    hide Inv, NamesIn, KeysUnique, Resolve, Key, FirstCluster, FileSize, NewEntry, IsDir, Live, UpperName;
    InvParts(g, v, fds, m);
    InvParts(g, v1, fds, m1);
    NewEntryLive(NameFor(m, path), ATTR_DIR, c);
    NotOwnedYet(g, v, fds, m, v1, m1, s);
    NoneIn(m1, c);
    SubdirsKept(m, m1);
    ResolveKept(m, m1, 0, path);
    FileAtPlace(m1, path);
    MadeUndone(m, m1, DirOf(m, path), NameFor(m, path), s, c);
  }

  lemma MadeUndone(m: Model, m1: Model, dc: nat, name: Name, s: Slot, c: nat)
    requires MadeDir(m, m1, dc, name, s, c) && s !in m.own && s !in m.files
    ensures Removed(Undir(m1, c), s) == m
  {
    hide NamesIn, IsEntry, NewEntry;
    var r := Removed(Undir(m1, c), s);
    assert r.dirs == m.dirs && r.own == m.own && r.ents == m.ents && r.files == m.files;
  }

  lemma NoneIn(m: Model, dc: nat)
    requires KeysUnique(m) && NamesIn(m, dc) == map[]
    ensures forall o | o in m.ents :: o.dir != dc
  {
    hide Key, KeysUnique;
  }

  lemma NotOwnedYet(g: Geometry, v: Volume, fds: seq<FD>, m: Model, v1: Volume, m1: Model, s: Slot)
    requires Inv(g, v, fds, m) && Inv(g, v1, fds, m1) && s !in m.ents && s in m1.ents
    ensures s !in m.own && s !in m.files
  {
    hide Linked, DirsOk, DescriptorsOk, FirstCluster, FileSize, ChainBytes, SlotsOf, SlotsAreEnts, Live, Rooted;
    assert IsDirectory(m1, s.dir);
  }

  lemma TableBack(v: Volume, v1: Volume, v2: Volume, m1: Model, s: Slot, c: nat)
    requires c < |v.fat| && v.fat[c] == 0 && v1.fat == v.fat[c := FAT_EOC] && s in m1.own && m1.own[s] == [c]
    requires |v2.fat| == |v1.fat|
    requires forall x | 0 <= x < |v2.fat| :: v2.fat[x] == if x in m1.own[s] then 0 else v1.fat[x]
    ensures v2.fat == v.fat
  {
  }

  /** Making a directory and removing it again, at any depth: when the name is new, its directory has a slot and a
      cluster is free, both succeed, and the table, the names, the files and everything else the volume means are
      as they were. */
  method MakeAndRemove(d: D.Fat12, path: seq<Byte>) returns (made: bool, removed: bool)
    requires d.Valid() && 0 !in path && CanAdd(d.geo, d.Vol(), d.m, path) && !NoneFree(d.Vol().fat)
    modifies d, d.buf
    ensures d.Valid() && made && removed && d.m == old(d.m) && d.Vol().fat == old(d.Vol()).fat
  {
    hide Inv, GeometryOk, VolumeOf, Keeps, NamesIn, Resolve, NoneFree, MadeDir, DirOf, NameFor, Full, EmptyDirAt;
    hide FirstCluster, Removed, Undir;
    ghost var v, m := d.Vol(), d.m;
    ghost var s, c;
    made, s, c := d.Mkdir(path);
    ghost var v1, m1 := d.Vol(), d.m;
    MadeIsEmpty(d.geo, v, d.fds, m, v1, m1, path, s, c);
    removed := d.Rmdir(path);
    TableBack(v, v1, d.Vol(), m1, s, c);
  }

  // ----- store, close, reopen, read -----

  /** The bytes of each chunk that were accepted, in order. */
  function Accepted(chunks: seq<seq<Byte>>, taken: seq<int>): seq<Byte>
    requires |taken| == |chunks|
    requires forall i | 0 <= i < |chunks| :: taken[i] <= |chunks[i]|
  {
    if chunks == [] then [] else
      var n := |chunks| - 1;
      Accepted(chunks[..n], taken[..n]) + if taken[n] > 0 then chunks[n][..taken[n]] else []
  }

  lemma AcceptedNext(chunks: seq<seq<Byte>>, taken: seq<int>, i: nat, k: int)
    requires i < |chunks| && |taken| == i && k <= |chunks[i]|
    requires forall j | 0 <= j < i :: taken[j] <= |chunks[j]|
    ensures Accepted(chunks[..i + 1], taken + [k])
         == Accepted(chunks[..i], taken) + if k > 0 then chunks[i][..k] else []
  {
    assert chunks[..i + 1][..i] == chunks[..i] && (taken + [k])[..i] == taken;
  }

  lemma NoneAccepted(chunks: seq<seq<Byte>>)
    ensures Accepted(chunks[..0], []) == []
  {
  }

  /** All the chunks one after another. */
  function Flat(chunks: seq<seq<Byte>>): seq<Byte> {
    if chunks == [] then [] else Flat(chunks[..|chunks| - 1]) + chunks[|chunks| - 1]
  }

  /** What n bytes of room hold of s. */
  function Fitting(s: seq<Byte>, n: nat): seq<Byte> {
    if |s| < n then s else s[..n]
  }

  lemma NoneFlat(chunks: seq<seq<Byte>>, n: nat)
    ensures Fitting(Flat(chunks[..0]), n) == []
  {
  }

  lemma FlatNext(chunks: seq<seq<Byte>>, i: nat, n: nat, k: int)
    requires i < |chunks|
    requires var left := n - |Fitting(Flat(chunks[..i]), n)|;
             (if k > 0 then k else 0) == if |chunks[i]| < left then |chunks[i]| else left
    ensures Fitting(Flat(chunks[..i + 1]), n)
         == Fitting(Flat(chunks[..i]), n) + if k > 0 then chunks[i][..k] else []
  {
    assert chunks[..i + 1][..i] == chunks[..i];
    var was, now := Flat(chunks[..i]), Flat(chunks[..i + 1]);
    assert now == was + chunks[i];
    if |was| >= n {
      assert now[..n] == was[..n];
    } else if k > 0 && k < |chunks[i]| {
      assert now[..n] == was + chunks[i][..k];
    }
  }

  lemma OverwriteEnd(c: seq<Byte>, data: seq<Byte>)
    ensures Overwrite(c, |c|, data) == c + data
  {
  }

  /** The state while chunks are being written: file s holds what was accepted so far. */
  ghost predicate Storing(fds: seq<FD>, m: Model, m0: Model, fd: nat, s: Slot, done: seq<Byte>) {
    && fd < |fds| && fds[fd].used && fds[fd].At() == s && fds[fd].pos == |done|
    && s in m.files && m.files[s] == done && m.ents == m0.ents && m.dirs == m0.dirs
    && (forall o | o != s :: o in m.files <==> o in m0.files)
    && (forall o | o != s && o in m0.files :: m.files[o] == m0.files[o])
  }

  lemma StoringNext(fds: seq<FD>, m: Model, fds1: seq<FD>, m1: Model, m0: Model, fd: nat, s: Slot,
                    done: seq<Byte>, data: seq<Byte>)
    requires Storing(fds, m, m0, fd, s, done) && WroteBytes(fds, m, fds1, m1, fd, data)
    ensures Storing(fds1, m1, m0, fd, s, done + data)
  {
    OverwriteEnd(done, data);
  }

  lemma ClosedAfter(fds: seq<FD>, m: Model, fd: nat)
    requires DescriptorsOk(fds, m) && fd < |fds| && fds[fd].used
    ensures !IsOpen(fds[fd := fds[fd].(used := false)], fds[fd].At())
  {
  }

  /** The name created is the one found again once its entry has been brought up to date. */
  lemma FoundAgain(m: Model, m1: Model, path: seq<Byte>, s: Slot, e: Raw, first: nat, size: nat)
    requires KeysUnique(m) && s !in m.ents && !IsDir(e) && first < 65536 && size < 0x1_0000_0000
    requires Resolve(m, 0, path) == Named(s.dir, Key(e)) && Key(e) !in NamesIn(m, s.dir)
    requires m1.ents == m.ents[s := WithSize(e, first, size)]
    ensures FileAt(m1, path) == Some(s)
  {
    hide NamesIn, KeysUnique, Resolve, Key, IsDir, WithSize;
    var e1 := WithSize(e, first, size);
    SameNameFields(e, e1);
    NamesBind(m, m1, s, e1);
    SubdirsKept(m, m1);
    ResolveKept(m, m1, 0, path);
    FileAtPlace(m1, path);
  }

  /** Write the chunks one after another; `taken` are the return values. A chunk is cut short only when no
      cluster is free, and then none is at the end either. */
  method Store(d: D.Fat12, fd: nat, chunks: seq<seq<Byte>>, ghost s: Slot) returns (taken: seq<int>)
    requires d.Valid() && Storing(d.fds, d.m, d.m, fd, s, [])
    modifies d, d.buf
    ensures d.Valid() && d.geo == old(d.geo) && Keeps(d.geo, old(d.disk), d.disk)
    ensures |taken| == |chunks| && forall i | 0 <= i < |chunks| :: taken[i] <= |chunks[i]|
    ensures Storing(d.fds, d.m, old(d.m), fd, s, Accepted(chunks, taken)) && OthersSame(old(d.fds), d.fds, fd)
    ensures Accepted(chunks, taken) == Fitting(Flat(chunks), Room(old(d.geo), old(d.Vol()), old(d.m), s))
    ensures forall i | 0 <= i < |chunks| && taken[i] < |chunks[i]| :: NoneFree(d.Vol().fat)
  {
    hide Inv, WroteBytes, Storing, GeometryOk, Keeps, VolumeOf, NoneFree, OwnGrows, Accepted, OthersSame;
    hide Fitting, Flat, Room;
    taken := [];
    ghost var room := Room(d.geo, d.Vol(), d.m, s);
    NoneAccepted(chunks);
    NoneFlat(chunks, room);
    OthersTrans(d.fds, d.fds, d.fds, fd);
    var i := 0;
    d.MountedBounds();
    while i < |chunks|
      invariant 0 <= i <= |chunks| && |taken| == i && forall j | 0 <= j < i :: taken[j] <= |chunks[j]|
      invariant d.Valid() && Storing(d.fds, d.m, old(d.m), fd, s, Accepted(chunks[..i], taken))
      invariant d.geo == old(d.geo) && Keeps(d.geo, old(d.disk), d.disk) && OthersSame(old(d.fds), d.fds, fd)
      invariant forall j | 0 <= j < i && taken[j] < |chunks[j]| :: NoneFree(d.Vol().fat)
      invariant Accepted(chunks[..i], taken) == Fitting(Flat(chunks[..i]), room)
      invariant Room(d.geo, d.Vol(), d.m, s) == room
    {
      ghost var done, f, disk := Accepted(chunks[..i], taken), d.fds, d.disk;
      var k := StoreChunk(d, fd, chunks[i], s, old(d.m), done);
      KeepsTrans(d.geo, old(d.disk), disk, d.disk);
      OthersTrans(old(d.fds), f, d.fds, fd);
      AcceptedNext(chunks, taken, i, k);
      FlatNext(chunks, i, room, k);
      taken := taken + [k];
      i := i + 1;
    }
    assert chunks[..i] == chunks;
  }

  /** One chunk of it. */
  method StoreChunk(d: D.Fat12, fd: nat, chunk: seq<Byte>, ghost s: Slot, ghost m0: Model, ghost done: seq<Byte>)
    returns (k: int)
    requires d.Valid() && Storing(d.fds, d.m, m0, fd, s, done)
    modifies d, d.buf
    ensures d.Valid() && d.geo == old(d.geo) && Keeps(d.geo, old(d.disk), d.disk) && k <= |chunk|
    ensures Storing(d.fds, d.m, m0, fd, s, done + if k > 0 then chunk[..k] else []) && OthersSame(old(d.fds), d.fds, fd)
    ensures k < |chunk| || NoneFree(old(d.Vol()).fat) ==> NoneFree(d.Vol().fat)
    ensures var room := Room(old(d.geo), old(d.Vol()), old(d.m), s);
      && Room(d.geo, d.Vol(), d.m, s) == room
      && |done| <= room && (if k > 0 then k else 0) == if |chunk| < room - |done| then |chunk| else room - |done|
  {
    hide Inv, WroteBytes, Storing, GeometryOk, Keeps, VolumeOf, NoneFree, OwnGrows, Budget, Room, AsMuchAsFits;
    ghost var f, m, v := d.fds, d.m, d.Vol();
    d.MountedBounds();
    StoringFacts(f, m, m0, fd, s, done);
    PositionFits(d.geo, v, f, m, fd);
    k := d.Write(fd, chunk);
    RoomSame(d.geo, v, m, d.Vol(), d.m, s);
    if chunk != [] { ChunkFits(d.geo, v, m, d.m, s, |done|, |chunk|, k); }
    if chunk != [] && k >= 0 {
      StoringNext(f, m, d.fds, d.m, m0, fd, s, done, chunk[..k]);
      WroteGrows(f, m, d.fds, d.m, fd, chunk[..k]);
      assert k == 0 ==> chunk[..k] == [];
    } else {
      OwnSame(m);
      assert done + [] == done;
    }
    if NoneFree(v.fat) { NoneFreeStays(d.geo, v, f, m, d.Vol(), d.fds, d.m); }
  }

  lemma PositionFits(g: Geometry, v: Volume, fds: seq<FD>, m: Model, k: nat)
    requires Inv(g, v, fds, m) && k < |fds| && fds[k].used
    ensures fds[k].pos <= Room(g, v, m, fds[k].At())
  {
    hide Inv, ChainBytes, Times, FreeClusters;
    OpenFacts(g, v, fds, m, k);
    TimesMonotone(|m.own[fds[k].At()]|, Budget(v, m, fds[k].At()), g.secPerClus);
  }

  lemma RoomSame(g: Geometry, v: Volume, m: Model, v': Volume, m': Model, s: Slot)
    ensures Budget(v', m', s) == Budget(v, m, s) ==> Room(g, v', m', s) == Room(g, v, m, s)
  {
  }

  lemma ChunkFits(g: Geometry, v: Volume, m: Model, m': Model, s: Slot, pos: nat, n: nat, k: int)
    requires AsMuchAsFits(g, v, m, m', s, pos, n, k) && pos <= Room(g, v, m, s)
    ensures (if k > 0 then k else 0) == if n < Room(g, v, m, s) - pos then n else Room(g, v, m, s) - pos
  {
    hide ClustersFor, FreeClusters;
    if k < 0 { assert Budget(v, m, s) == 0; }
  }

  lemma OwnSame(m: Model)
    ensures OwnGrows(m, m)
  {
  }

  lemma WroteGrows(fds: seq<FD>, m: Model, fds1: seq<FD>, m1: Model, fd: nat, data: seq<Byte>)
    requires WroteBytes(fds, m, fds1, m1, fd, data)
    ensures OwnGrows(m, m1) && OthersSame(fds, fds1, fd)
  {
  }

  /** Only descriptor fd may have changed. */
  ghost predicate OthersSame(fds: seq<FD>, fds1: seq<FD>, fd: int) {
    |fds1| == |fds| && forall i | 0 <= i < |fds| && i != fd :: fds1[i] == fds[i]
  }

  lemma OthersTrans(fds: seq<FD>, fds1: seq<FD>, fds2: seq<FD>, fd: int)
    ensures OthersSame(fds, fds, fd)
    ensures OthersSame(fds, fds1, fd) && OthersSame(fds1, fds2, fd) ==> OthersSame(fds, fds2, fd)
  {
  }

  lemma StoringFacts(fds: seq<FD>, m: Model, m0: Model, fd: nat, s: Slot, done: seq<Byte>)
    requires Storing(fds, m, m0, fd, s, done)
    ensures fd < |fds| && fds[fd].used && fds[fd].At() == s && fds[fd].pos == |done|
    ensures s in m.files && m.files[s] == done && m.ents == m0.ents
  {
  }

  /** How many bytes the free clusters hold. */
  ghost function FreeBytes(g: Geometry, v: Volume): nat {
    Times(|FreeClusters(v.fat)|, g.secPerClus) * 512
  }

  lemma RoomOfNew(g: Geometry, v: Volume, m: Model, v': Volume, m': Model, s: Slot, e: Raw)
    requires EntryMade(g, v, m, v', s, e) && s in m'.own && m'.own[s] == []
    ensures Room(g, v', m', s) == FreeBytes(g, v)
  {
    hide Times, FreeClusters, DirSlots;
  }

  /** Create a file under a new name, write chunks and close: the path leads to a file of the chunks' bytes, as
      many as the clusters that were free before can hold, and no other file has changed. */
  method StoreAndClose(d: D.Fat12, path: seq<Byte>, chunks: seq<seq<Byte>>) returns (taken: seq<int>, ghost s: Slot)
    requires d.Valid() && 0 !in path && CanAdd(d.geo, d.Vol(), d.m, path)
    requires exists i :: 0 <= i < |d.fds| && !d.fds[i].used
    modifies d, d.buf
    ensures d.Valid() && d.geo == old(d.geo) && Keeps(d.geo, old(d.disk), d.disk)
    ensures |taken| == |chunks| && forall i | 0 <= i < |chunks| :: taken[i] <= |chunks[i]|
    ensures forall i | 0 <= i < |chunks| && taken[i] < |chunks[i]| :: NoneFree(d.Vol().fat)
    ensures FileAt(d.m, path) == Some(s) && s in d.m.files && d.m.files[s] == Accepted(chunks, taken)
    ensures Accepted(chunks, taken) == Fitting(Flat(chunks), FreeBytes(d.geo, old(d.Vol())))
    ensures !IsOpen(d.fds, s) && (exists i :: 0 <= i < |d.fds| && !d.fds[i].used)
    ensures AllClosed(old(d.fds)) ==> AllClosed(d.fds)
    ensures forall o | o in old(d.m).files :: o in d.m.files && d.m.files[o] == old(d.m).files[o]
  {
    hide Inv, CreatedFile, Storing, Resolve, NamesIn, KeysUnique, IsDir, WithSize, FirstCluster, FileSize,
         NewEntry, Key, FileAt, NamesNew, CanAdd, IsOpen, NoneFree, GeometryOk, Keeps, VolumeOf, OwnGrows,
         EntryMade, FreeBytes, Room, EntryFor, DirOf, NameFor;
    var fd;
    d.MountedBounds();
    ghost var m0, f0, d0, v0 := d.m, d.fds, d.disk, d.Vol();
    ghost var place := Resolve(m0, 0, path);
    ghost var e := NewName(d.geo, d.Vol(), f0, m0, path);
    PlaceFor(m0, path, ATTR_ARCH, 0);
    fd, s := d.Create(path);
    CreatedStored(f0, m0, d.fds, d.m, place.dc, e, s, fd);
    RoomOfNew(d.geo, v0, m0, d.Vol(), d.m, s, EntryFor(m0, path, ATTR_ARCH, 0));
    ghost var m1, f1, d1 := d.m, d.fds, d.disk;
    taken := Store(d, fd, chunks, s);
    KeepsTrans(d.geo, d0, d1, d.disk);
    ghost var stored, d2 := Accepted(chunks, taken), d.disk;
    StoringFacts(d.fds, d.m, m1, fd, s, stored);
    KeptFiles(d.fds, d.m, m1, fd, s, stored);
    ghost var f2, m2, v2 := d.fds, d.m, d.Vol();
    OpenDistinct(d.geo, v2, f2, m2, fd);
    d.Close(fd);
    KeepsTrans(d.geo, d0, d2, d.disk);
    ClosedFacts(f2, d.fds, fd);
    FoundAgain(m0, d.m, path, s, e, f2[fd].first, f2[fd].size);
    if NoneFree(v2.fat) {
      SameOwn(m2, d.m);
      NoneFreeStays(d.geo, v2, f2, m2, d.Vol(), d.fds, d.m);
    }
    if AllClosed(f0) { OthersClosed(f0, f1, m1, f2, m2, fd, s, stored); }
  }

  lemma SameOwn(m: Model, m': Model)
    requires m'.own == m.own && m'.bad == m.bad
    ensures OwnGrows(m, m')
  {
  }

  /** Create, write, close, open the same path and read: what comes back is exactly what was accepted. */
  method StoreAndReload(d: D.Fat12, path: seq<Byte>, chunks: seq<seq<Byte>>, dst: array<Byte>)
    returns (taken: seq<int>, k: int)
    requires d.Valid() && 0 !in path && CanAdd(d.geo, d.Vol(), d.m, path)
    requires exists i :: 0 <= i < |d.fds| && !d.fds[i].used
    requires dst != d.buf
    modifies d, d.buf, dst
    ensures d.Valid()
    ensures |taken| == |chunks| && forall i | 0 <= i < |chunks| :: taken[i] <= |chunks[i]|
    ensures forall i | 0 <= i < |chunks| && taken[i] < |chunks[i]| :: NoneFree(d.Vol().fat)
    ensures Accepted(chunks, taken) == Fitting(Flat(chunks), FreeBytes(old(d.geo), old(d.Vol())))
    ensures var stored := Accepted(chunks, taken);
            k == (if dst.Length < |stored| then dst.Length else |stored|) && dst[..k] == stored[..k]
    ensures forall o | o in old(d.m).files :: o in d.m.files && d.m.files[o] == old(d.m).files[o]
  {
    hide Inv, Resolve, NamesIn, IsDir, FirstCluster, FileSize, FileAt, CanAdd, IsOpen, NoneFree, GeometryOk,
         Keeps, VolumeOf;
    ghost var s;
    taken, s := StoreAndClose(d, path, chunks);
    k := Reload(d, path, s, Accepted(chunks, taken), dst);
  }

  /** The same across mounting the volume again: what was closed is on the disk. */
  method StoreAndRemount(d: D.Fat12, lba: nat, path: seq<Byte>, chunks: seq<seq<Byte>>, dst: array<Byte>)
    returns (taken: seq<int>, k: int)
    requires d.Valid() && 0 !in path && CanAdd(d.geo, d.Vol(), d.m, path)
    requires AllClosed(d.fds) && MountedAt(d.geo, d.disk, lba) && dst != d.buf
    modifies d, d.buf, dst
    ensures d.Valid()
    ensures |taken| == |chunks| && forall i | 0 <= i < |chunks| :: taken[i] <= |chunks[i]|
    ensures forall i | 0 <= i < |chunks| && taken[i] < |chunks[i]| :: NoneFree(d.Vol().fat)
    ensures Accepted(chunks, taken) == Fitting(Flat(chunks), FreeBytes(old(d.geo), old(d.Vol())))
    ensures var stored := Accepted(chunks, taken);
            k == (if dst.Length < |stored| then dst.Length else |stored|) && dst[..k] == stored[..k]
    ensures forall o | o in old(d.m).files :: o in d.m.files && d.m.files[o] == old(d.m).files[o]
  {
    hide Inv, Resolve, NamesIn, IsDir, FirstCluster, FileSize, FileAt, CanAdd, IsOpen, NoneFree, GeometryOk,
         Keeps, VolumeOf, MountedAt, AllClosed;
    InvParts(d.geo, d.Vol(), d.fds, d.m);
    NoneUsed(d.fds);
    ghost var s;
    taken, s := StoreAndClose(d, path, chunks);
    StillMountedAt(d.geo, old(d.disk), d.disk, lba);
    Remount(d, lba);
    NoneOpen(d.fds, s);
    InvParts(d.geo, d.Vol(), d.fds, d.m);
    NoneUsed(d.fds);
    k := Reload(d, path, s, Accepted(chunks, taken), dst);
  }

  /** Open a path and read from the start. */
  method Reload(d: D.Fat12, path: seq<Byte>, ghost s: Slot, ghost stored: seq<Byte>, dst: array<Byte>) returns (k: int)
    requires d.Valid() && 0 !in path && FileAt(d.m, path) == Some(s) && !IsOpen(d.fds, s)
    requires s in d.m.files && d.m.files[s] == stored
    requires (exists i :: 0 <= i < |d.fds| && !d.fds[i].used) && dst != d.buf
    modifies d`fds, d.buf, dst
    ensures d.Valid()
    ensures k == (if dst.Length < |stored| then dst.Length else |stored|) && dst[..k] == stored[..k]
  {
    hide Inv, Resolve, NamesIn, IsDir, FirstCluster, FileSize, FileAt, IsOpen, GeometryOk, Keeps, VolumeOf;
    var fd := d.Open(path);
    k := d.Read(fd, dst, dst.Length);
  }

  lemma NotInRoot(g: Geometry, v: Volume, m: Model, dc: nat)
    ensures !Roomy(g, v, m, dc) ==> dc != 0
  {
  }

  lemma NotScanned(g: Geometry, v: Volume, fds: seq<FD>, m: Model, v': Volume, fds': seq<FD>, m': Model,
                   dc: nat, e: Raw, fd: int)
    requires MadeOutOfReach(g, v, fds, m, v', fds', m', dc, e, fd)
    ensures DirChain(v', dc, ChainOf(m', dc)) && (fd < 0 ==> forall i | 0 <= i < |fds| :: fds[i].used)
    ensures var slots := DirSlots(g, v', dc, ChainOf(m', dc));
            forall j | 0 <= j < |slots| && j < SUBDIR_MAX_ENTS :: !(Live(slots[j]) && Key(slots[j]) == Key(e))
  {
    hide Live, Key, DirSlots, Grown, DirChain;
  }

  /** Creating a file in a full subdirectory that grows past the slots that are scanned: the call looks made, and
      the name is not found in that directory afterwards. */
  method CreatedNotFound(d: D.Fat12, path: seq<Byte>) returns (fd: int, idx: int)
    requires d.Valid() && 0 !in path && NoSlotFor(d.geo, d.Vol(), d.m, path)
    requires !Roomy(d.geo, d.Vol(), d.m, DirOf(d.m, path)) && !NoneFree(d.Vol().fat)
    modifies d, d.buf
    ensures fd < 0 ==> forall i | 0 <= i < |old(d.fds)| :: old(d.fds)[i].used
    ensures idx < 0
  {
    hide Inv, GeometryOk, VolumeOf, Keeps, Full, Roomy, NamesIn, Resolve, DirSlots, Live, Key, NoneFree, NewEntry;
    hide MadeOutOfReach, DirChain, UpperName, CreatedFile, EntryMade, GrewOnly, EntryFor, DirOf, NameFor;
    ghost var g, v, f, m := d.geo, d.Vol(), d.fds, d.m;
    d.MountedBounds();
    PlaceFor(m, path, ATTR_ARCH, 0);
    NotInRoot(g, v, m, DirOf(m, path));
    var place := d.ResolvePath(path);
    NewEntryLive(place.name, ATTR_ARCH, 0);
    ghost var s;
    fd, s := d.Create(path);
    NotScanned(g, v, f, m, d.Vol(), d.fds, d.m, place.dc, NewEntry(place.name, ATTR_ARCH, 0), fd);
    var e;
    idx, e := d.FindInDir(place.dc, place.name, ChainOf(d.m, place.dc));
  }

  lemma NoneUsed(fds: seq<FD>)
    requires AllClosed(fds) && |fds| == MAX_FDS
    ensures exists i :: 0 <= i < |fds| && !fds[i].used
  {
    assert !fds[0].used;
  }

  lemma NoneOpen(fds: seq<FD>, s: Slot)
    requires AllClosed(fds)
    ensures !IsOpen(fds, s)
  {
  }

  /** Only the descriptor of the file being written was in use. */
  lemma OthersClosed(f0: seq<FD>, f1: seq<FD>, m1: Model, f2: seq<FD>, m2: Model, fd: nat, s: Slot, done: seq<Byte>)
    requires AllClosed(f0) && OthersSame(f0, f1, fd) && OthersSame(f1, f2, fd)
    requires Storing(f2, m2, m1, fd, s, done)
    ensures AllClosed(f2[fd := f2[fd].(used := false)])
  {
  }

  /** The entry a create will write, and that its name is the one the path ends in. */
  lemma NewName(g: Geometry, v: Volume, fds: seq<FD>, m: Model, path: seq<Byte>) returns (e: Raw)
    requires Inv(g, v, fds, m) && CanAdd(g, v, m, path)
    ensures e == NewEntry(Resolve(m, 0, path).name, ATTR_ARCH, 0)
    ensures !IsDir(e) && FileSize(e) == 0 && KeysUnique(m)
    ensures Resolve(m, 0, path) == Named(Resolve(m, 0, path).dc, Key(e))
    ensures Key(e) !in NamesIn(m, Resolve(m, 0, path).dc)
    ensures forall o | o in m.files :: o in m.ents
  {
    hide Inv, NewEntry, Resolve, NamesIn, Key, IsDir, FileSize, KeysUnique;
    InvParts(g, v, fds, m);
    var n := Resolve(m, 0, path).name;
    e := NewEntry(n, ATTR_ARCH, 0);
    NewEntryLive(n, ATTR_ARCH, 0);
    ResolvedUpper(m, 0, path);
  }

  /** Path components come out in upper case. */
  lemma {:induction false} ResolvedUpper(m: Model, dc: nat, path: seq<Byte>)
    requires Resolve(m, dc, path).Named?
    ensures UpperName(Resolve(m, dc, path).name) == Resolve(m, dc, path).name
    decreases |path|
  {
    hide HasSubdir, Subdir, To83, UpperName;
    var i := IndexOf(path, SLASH);
    if i == |path| {
    } else if i == 0 {
      ResolvedUpper(m, dc, path[1..]);
    } else {
      ResolvedUpper(m, Subdir(m, dc, CompName(path[..i])), path[i + 1..]);
    }
  }

  lemma CreatedStored(fds: seq<FD>, m: Model, fds1: seq<FD>, m1: Model, dc: nat, e: Raw, s: Slot, fd: int)
    requires CreatedFile(fds, m, fds1, m1, dc, e, s, fd) && FileSize(e) == 0
    requires exists i :: 0 <= i < |fds| && !fds[i].used
    requires forall o | o in m.files :: o in m.ents
    ensures fd >= 0 && Storing(fds1, m1, m1, fd, s, []) && OthersSame(fds, fds1, fd)
    ensures s.dir == dc && s !in m.ents && m1.ents == m.ents[s := e] && s in m1.own && m1.own[s] == []
    ensures forall o | o in m.files :: o != s && o in m1.files && m1.files[o] == m.files[o]
  {
    hide NamesIn, Key, FirstCluster;
  }

  lemma KeptFiles(fds: seq<FD>, m: Model, m0: Model, fd: nat, s: Slot, done: seq<Byte>)
    requires Storing(fds, m, m0, fd, s, done)
    ensures forall o | o in m0.files && o != s :: o in m.files && m.files[o] == m0.files[o]
  {
  }

  lemma OpenDistinct(g: Geometry, v: Volume, fds: seq<FD>, m: Model, fd: nat)
    requires Inv(g, v, fds, m) && fd < |fds| && fds[fd].used
    ensures !IsOpen(fds[fd := fds[fd].(used := false)], fds[fd].At())
  {
    hide Linked, EntsAreSlots, SlotsAreEnts, DirsOk, OwnersOk, FilesOk;
    ClosedAfter(fds, m, fd);
  }

  lemma ClosedFacts(fds: seq<FD>, fds1: seq<FD>, fd: nat)
    requires fd < |fds| && fds1 == fds[fd := fds[fd].(used := false)]
    ensures fd < |fds1| && !fds1[fd].used
  {
  }
}
