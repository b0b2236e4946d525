/** What the driver's calls promise, in terms of the volume's meaning, and the facts they rest on. */
module Calls {
  import opened Sectors
  import opened FatDisk
  import opened Lists
  import opened Chains
  import opened Extents
  import opened Directory
  import opened FileSystem
  import opened EntrySteps
  import opened Operations
  import opened Paths
  import opened FileBytes

  // ----- where a directory slot lies -----

  lemma ChainPositive(fat: seq<nat>, chain: seq<nat>)
    requires IsChain(fat, chain)
    ensures |chain| > 0
  {
  }

  lemma ChainNext(fat: seq<nat>, chain: seq<nat>, i: nat)
    requires IsChain(fat, chain) && i < |chain| && |fat| <= FAT_BAD
    ensures 2 <= chain[i] < |fat|
    ensures fat[chain[i]] >= FAT_EOC <==> i + 1 == |chain|
    ensures i + 1 < |chain| ==> fat[chain[i]] == chain[i + 1] >= 2
  {
    assert LinkAt(fat, chain, i);
  }

  lemma RootSlot(g: Geometry, d: Disk, idx: nat, chain: seq<nat>)
    requires GeometryOk(g, |d|)
    ensures |DirSlots(g, VolumeOf(g, d), 0, chain)| == g.rootEntries
    ensures idx < g.rootEntries ==> g.rootLba + idx / 16 < g.dataLba <= |d|
    ensures idx < g.rootEntries ==>
              DirSlots(g, VolumeOf(g, d), 0, chain)[idx] == d[g.rootLba + idx / 16][idx % 16 * 32..idx % 16 * 32 + 32]
  {
  }

  /** A subdirectory has sixteen slots for every sector of its chain. */
  lemma SlotCount(g: Geometry, v: Volume, dc: nat, chain: seq<nat>)
    requires VolumeOk(g, v) && dc != 0 && DirChain(v, dc, chain)
    ensures |DirSlots(g, v, dc, chain)| == Times(|chain|, g.secPerClus) * 16
    ensures |chain| > 0 && chain[0] == dc && IsChain(v.fat, chain)
  {
    ChainUniform(g, v, chain);
    ChainLength(v.data, chain, g.secPerClus);
  }

  lemma SubSlot(g: Geometry, v: Volume, dc: nat, idx: nat, chain: seq<nat>, j: nat, sec: nat)
    requires VolumeOk(g, v) && dc != 0 && DirChain(v, dc, chain)
    requires idx < |DirSlots(g, v, dc, chain)|
    requires j < |chain| && sec < g.secPerClus && idx / 16 == Times(j, g.secPerClus) + sec
    ensures 2 <= chain[j] < |v.fat| && |v.data[chain[j]]| == g.secPerClus
    ensures DirSlots(g, v, dc, chain)[idx] == v.data[chain[j]][sec][idx % 16 * 32..idx % 16 * 32 + 32]
  {
    ChainUniform(g, v, chain);
    ChainIndex(v.data, chain, g.secPerClus, j, sec);
    ChainNext(v.fat, chain, j);
  }

  lemma RootSlotWritten(g: Geometry, d: Disk, idx: nat, e: Raw, chain: seq<nat>)
    requires GeometryOk(g, |d|) && idx < g.rootEntries
    requires g.rootLba + idx / 16 < g.dataLba <= |d|
    ensures var v := VolumeOf(g, d);
            SlotWritten(g, v, v.(root := v.root[idx / 16 := PatchEntry(d[g.rootLba + idx / 16], idx % 16, e)]),
                        0, chain, idx, e)
  {
    hide PatchEntry, EntryAt, EntriesOf;
    PatchEntryIsUpdate(VolumeOf(g, d).root, idx, e);
    assert VolumeOf(g, d).root[idx / 16] == d[g.rootLba + idx / 16];
  }

  lemma SubSlotWritten(g: Geometry, v: Volume, dc: nat, idx: nat, chain: seq<nat>, j: nat, sec: nat, e: Raw)
    requires VolumeOk(g, v) && dc != 0 && DirChain(v, dc, chain)
    requires idx < |DirSlots(g, v, dc, chain)|
    requires j < |chain| && sec < g.secPerClus && idx / 16 == Times(j, g.secPerClus) + sec
    requires 2 <= chain[j] < |v.fat| && |v.data[chain[j]]| == g.secPerClus
    ensures SlotWritten(g, v,
                        v.(data := SetSector(v.data, chain[j], sec, PatchEntry(v.data[chain[j]][sec], idx % 16, e))),
                        dc, chain, idx, e)
  {
    hide PatchEntry, EntryAt;
    ChainUniform(g, v, chain);
    ChainDistinct(v.fat, chain);
    ChainIndex(v.data, chain, g.secPerClus, j, sec);
    PatchEntryIsUpdate(ChainSectors(v.data, chain), idx, e);
    ChainUpdate(v.data, chain, g.secPerClus, j, sec, PatchEntry(v.data[chain[j]][sec], idx % 16, e));
  }

  lemma IndexBeyond(s: seq<Byte>, b: Byte, i: nat)
    requires i < |s| && i <= IndexOf(s, b) && s[i] != b
    ensures i < IndexOf(s, b)
  {
  }

  lemma IndexExact(s: seq<Byte>, b: Byte, i: nat)
    requires i <= IndexOf(s, b) && (i == |s| || s[i] == b)
    ensures i == IndexOf(s, b)
  {
  }

  lemma DirChainOf(g: Geometry, v: Volume, m: Model, dc: nat)
    requires Linked(g, v, m) && DirsOk(g, v, m) && IsDirectory(m, dc)
    ensures DirChain(v, dc, ChainOf(m, dc))
    ensures SlotsOf(g, v, m, dc) == DirSlots(g, v, dc, ChainOf(m, dc))
    ensures DirOk(DirSlots(g, v, dc, ChainOf(m, dc)), MaxEnts(g, dc))
  {
    ChainWithin(g, v, m, dc);
    if 0 in m.dirs { ChainWithin(g, v, m, 0); }
  }

  lemma FoundMeaning(g: Geometry, v: Volume, m: Model, dc: nat, idx: nat, name: Name)
    requires Tables(g, v, m) && IsDirectory(m, dc) && idx < |SlotsOf(g, v, m, dc)|
    requires Live(SlotsOf(g, v, m, dc)[idx]) && Key(SlotsOf(g, v, m, dc)[idx]) == name
    ensures name in NamesIn(m, dc) && NamesIn(m, dc)[name] == idx
    ensures Slot(dc, idx) in m.ents && m.ents[Slot(dc, idx)] == SlotsOf(g, v, m, dc)[idx]
  {
    hide Linked, Live, Key, SlotsOf, DirOk, NamesIn, KeysUnique;
    NamesBridge(g, v, m, dc);
    assert Slot(dc, idx) in m.ents;
  }

  lemma OpenIsFile(fds: seq<FD>, m: Model, s: Slot)
    requires DescriptorsOk(fds, m)
    ensures IsOpen(fds, s) ==> s in m.files
  {
  }

  /** A directory entry names its directory's first cluster: it is never open as a file. */
  lemma DirEntryHead(g: Geometry, v: Volume, fds: seq<FD>, m: Model, s: Slot)
    requires Inv(g, v, fds, m) && s in m.ents && IsDir(m.ents[s])
    ensures FirstCluster(m.ents[s]) in m.dirs && m.dirs[FirstCluster(m.ents[s])] == s
    ensures s in m.own && FirstCluster(m.ents[s]) == Head(m.own[s])
  {
    hide Linked, EntsAreSlots, SlotsAreEnts, DirsOk, IsDir, FirstCluster;
    OpenIsFile(fds, m, s);
  }

  lemma SubdirMeaning(g: Geometry, v: Volume, fds: seq<FD>, m: Model, dc: nat, name: Name, idx: int, e: Raw)
    requires Inv(g, v, fds, m) && (idx < 0 <==> name !in NamesIn(m, dc))
    requires idx >= 0 ==> NamesIn(m, dc)[name] == idx
    requires idx >= 0 ==> Slot(dc, idx) in m.ents && m.ents[Slot(dc, idx)] == e
    ensures HasSubdir(m, dc, name) <==> idx >= 0 && IsDir(e)
    ensures idx >= 0 && IsDir(e) ==> Subdir(m, dc, name) == FirstCluster(e) && IsDirectory(m, FirstCluster(e))
  {
    hide Inv, IsDir, FirstCluster, NamesIn;
    if idx >= 0 && IsDir(e) { DirEntryHead(g, v, fds, m, Slot(dc, idx)); }
  }

  // ----- an open file -----

  lemma OpenFacts(g: Geometry, v: Volume, fds: seq<FD>, m: Model, k: nat)
    requires Inv(g, v, fds, m) && k < |fds| && fds[k].used
    ensures var s := fds[k].At();
      && s in m.files && s in m.own && |fds| == MAX_FDS
      && fds[k].pos <= fds[k].size == |m.files[s]|
      && (fds[k].first == 0 <==> m.own[s] == [])
      && (m.own[s] != [] ==> IsChain(v.fat, m.own[s]) && fds[k].first == m.own[s][0])
      && |ChainBytes(v.data, m.own[s])| == Times(|m.own[s]|, g.secPerClus) * 512
      && m.files[s] <= ChainBytes(v.data, m.own[s]) && (m.own[s] == [] ==> m.files[s] == [])
  {
    hide EntsAreSlots, SlotsAreEnts, DirsOk, OwnersOk, BytesOf;
    FirstIsHead(g, v, fds, m, k);
    OwnWithin(g, v, m, fds[k].At());
    ChainLength(v.data, m.own[fds[k].At()], g.secPerClus);
  }

  /** A position in cluster j or later of n is at least the length of n clusters. */
  lemma PlaceBeyond(j: nat, n: nat, w: nat, off: nat, pos: nat)
    requires n <= j && Times(j, w) * 512 + off == pos
    ensures Times(n, w) * 512 <= pos
  {
    TimesMonotone(n, j, w);
  }

  /** A position is where the chain of slot s ends. */
  ghost predicate AtChainEnd(g: Geometry, m: Model, s: Slot, pos: nat) {
    s in m.own && pos == Times(|m.own[s]|, g.secPerClus) * 512
  }

  lemma PlaceBelow(j: nat, n: nat, w: nat, off: nat, pos: nat)
    requires j < n && off < w * 512 && Times(j, w) * 512 + off == pos
    ensures pos <= Times(n, w) * 512
  {
    TimesMonotone(j, n, w);
  }

  /** What a write in progress knows of the file's chain. */
  lemma WriteFacts(g: Geometry, v: Volume, fds: seq<FD>, m: Model,
                   fds0: seq<FD>, m0: Model, b0: seq<Byte>, k: nat, src: seq<Byte>, done: nat)
    requires WriteState(g, v, fds, m, fds0, m0, b0, k, src, done)
    ensures k < |fds0| && fds0[k].At() in m.own && done <= |src|
    ensures var own := m.own[fds0[k].At()];
      && (own != [] ==> IsChain(v.fat, own))
      && |ChainBytes(v.data, own)| == Times(|own|, g.secPerClus) * 512
      && (done == 0 || fds0[k].pos + done <= |ChainBytes(v.data, own)|)
  {
    hide Inv;
    WriteStateFacts(g, v, fds, m, fds0, m0, b0, k, src, done);
    WriteProgress(g, v, fds, m, fds0, m0, b0, k, src, done);
    OpenFacts(g, v, fds, m, k);
  }

  lemma WriteOwn(g: Geometry, v: Volume, fds: seq<FD>, m: Model,
                 fds0: seq<FD>, m0: Model, b0: seq<Byte>, k: nat, src: seq<Byte>, done: nat)
    requires WriteState(g, v, fds, m, fds0, m0, b0, k, src, done)
    ensures k < |fds0| && var s := fds0[k].At();
      s in m0.own && s in m.own && m0.own[s] <= m.own[s] && m.own == m0.own[s := m.own[s]]
  {
    hide Inv, ChainBytes;
  }

  /** A chain that had grown to reach the position is touched in its last cluster by the first byte written. */
  lemma LastTouched(w: nat, n: nat, n1: nat, skip: nat, off: nat, pos: nat, k: nat)
    requires n <= n1 && Times(skip, w) * 512 + off == pos && k > 0
    ensures n == skip + 1 == n1 ==> Times(n1 - 1, w) * 512 < pos + k
  {
  }

  lemma WriteProgress(g: Geometry, v: Volume, fds: seq<FD>, m: Model,
                      fds0: seq<FD>, m0: Model, b0: seq<Byte>, k: nat, src: seq<Byte>, done: nat)
    requires WriteState(g, v, fds, m, fds0, m0, b0, k, src, done)
    ensures fds0[k].pos <= |b0| && (done == 0 || fds0[k].pos + done <= |ChainBytes(v.data, m.own[fds0[k].At()])|)
  {
  }

  lemma InvParts(g: Geometry, v: Volume, fds: seq<FD>, m: Model)
    requires Inv(g, v, fds, m)
    ensures |fds| == MAX_FDS && KeysUnique(m)
    ensures forall s :: s in m.files <==> s in m.ents && !IsDir(m.ents[s])
    ensures forall s | s in m.ents :: IsDirectory(m, s.dir)
  {
    hide SlotsOf, DirOk, OwnersOk;
    NamesBridge(g, v, m, 0);
  }

  lemma TablesHold(g: Geometry, v: Volume, fds: seq<FD>, m: Model)
    requires Inv(g, v, fds, m)
    ensures Tables(g, v, m)
  {
  }

  lemma TableLength(g: Geometry, v: Volume, fds: seq<FD>, m: Model)
    requires Inv(g, v, fds, m)
    ensures |fds| == MAX_FDS
  {
  }

  lemma FileKnown(g: Geometry, v: Volume, fds: seq<FD>, m: Model, s: Slot)
    requires Inv(g, v, fds, m) && s in m.ents && !IsDir(m.ents[s])
    ensures s in m.files
  {
  }

  /** Sizes and cluster numbers of open files fit their directory fields. */
  lemma FlushFacts(g: Geometry, v: Volume, fds: seq<FD>, m: Model, k: nat)
    requires Inv(g, v, fds, m) && k < |fds| && fds[k].used && g.totalClusters <= 4085 && g.secPerClus < 256
    ensures fds[k].At() in m.ents && fds[k].At() in m.own && !IsDir(m.ents[fds[k].At()])
    ensures fds[k].first < 65536 && fds[k].size < 0x1_0000_0000
    ensures IsDirectory(m, fds[k].dir) && DirChain(v, fds[k].dir, ChainOf(m, fds[k].dir))
    ensures fds[k].idx < |DirSlots(g, v, fds[k].dir, ChainOf(m, fds[k].dir))|
    ensures DirSlots(g, v, fds[k].dir, ChainOf(m, fds[k].dir))[fds[k].idx] == m.ents[fds[k].At()]
  {
    hide SlotsAreEnts, DirSlots, DirOk, Live, IsDir, FirstCluster, FileSize, Conserved;
    OpenFacts(g, v, fds, m, k);
    DirChainOf(g, v, m, fds[k].dir);
    OwnBounded(g, v, m, fds[k].At());
  }

  lemma OwnBounded(g: Geometry, v: Volume, m: Model, s: Slot)
    requires Linked(g, v, m) && s in m.own && g.totalClusters <= 4085 && g.secPerClus < 256
    ensures Head(m.own[s]) < 65536 && Times(|m.own[s]|, g.secPerClus) * 512 < 0x1_0000_0000
  {
    var chain := m.own[s];
    OwnWithin(g, v, m, s);
    forall i | 0 <= i < |chain| ensures 2 <= chain[i] < g.Limit() { assert IsChain(v.fat, chain); }
    Pigeonhole(chain, g.Limit());
    TimesMonotone(|chain|, 4085, g.secPerClus);
    TimesIsProduct(4085, g.secPerClus);
  }

  lemma FlushStep(g: Geometry, v: Volume, v': Volume, fds: seq<FD>, m: Model, k: nat)
    requires Inv(g, v, fds, m) && k < |fds| && fds[k].used && fds[k].At() in m.ents && fds[k].At() in m.own
    requires fds[k].first < 65536 && fds[k].size < 0x1_0000_0000
    requires SlotWritten(g, v, v', fds[k].dir, ChainOf(m, fds[k].dir), fds[k].idx,
                         WithSize(m.ents[fds[k].At()], fds[k].first, fds[k].size))
    ensures Inv(g, v', fds, m.(ents := m.ents[fds[k].At() := WithSize(m.ents[fds[k].At()], fds[k].first, fds[k].size)]))
    ensures FirstCluster(WithSize(m.ents[fds[k].At()], fds[k].first, fds[k].size)) == fds[k].first
  {
    var e := m.ents[fds[k].At()];
    var e' := WithSize(e, fds[k].first, fds[k].size);
    SameNameFields(e, e');
    hide SlotsAreEnts, SlotsOf, DirsOk, Conserved, SlotWritten, WithSize, IsDir, Live, Key, FirstCluster, FileSize;
    assert IsOpen(fds, fds[k].At());
    UpdateStep(g, v, v', fds, m, fds[k].dir, fds[k].idx, e');
  }

  /** Entries that agree on their first 26 bytes are found, listed and typed alike. */
  lemma SameNameFields(e: Raw, r: Raw)
    requires r[..26] == e[..26]
    ensures Key(r) == Key(e) && (Live(r) <==> Live(e)) && (IsDir(r) <==> IsDir(e))
  {
    SamePrefix(e, r);
  }

  /** Every scanned slot of the directory is taken. */
  ghost predicate Full(g: Geometry, v: Volume, m: Model, dc: nat) {
    NoVacant(SlotsOf(g, v, m, dc), MaxEnts(g, dc))
  }

  /** One more cluster keeps the directory within the range that is scanned. */
  ghost predicate Roomy(g: Geometry, v: Volume, m: Model, dc: nat) {
    dc == 0 || |SlotsOf(g, v, m, dc)| + g.secPerClus * 16 <= SUBDIR_MAX_ENTS
  }

  /** The entry went into the first slot of directory dc that can be taken, and nothing else of the volume changed. */
  ghost predicate EntryMade(g: Geometry, v: Volume, m: Model, v': Volume, s: Slot, e: Raw) {
    && FirstVacant(SlotsOf(g, v, m, s.dir), MaxEnts(g, s.dir), s.idx)
    && SlotWritten(g, v, v', s.dir, ChainOf(m, s.dir), s.idx, e)
  }

  /** A free cluster c was linked to the end of directory dc's chain, and the table is otherwise the same. */
  ghost predicate Grown(v: Volume, m: Model, v': Volume, m': Model, dc: nat, c: nat) {
    && dc != 0 && dc in m.dirs && 2 <= c < |v.fat| && v.fat[c] == FAT_FREE
    && ChainOf(m, dc) != [] && ChainOf(m, dc)[|ChainOf(m, dc)| - 1] < |v.fat|
    && m' == Extended(m, dc, c) && v'.fat == Linkup(v.fat, ChainOf(m, dc), c)
  }

  /** The directory grew past the slots that are scanned, and the entry was written just behind them:
      no scan comes to a slot with its name. */
  ghost predicate OutOfReach(g: Geometry, v: Volume, m: Model, v': Volume, m': Model, dc: nat, e: Raw) {
    var was, now := SlotsOf(g, v, m, dc), SlotsOf(g, v', m', dc);
    && SUBDIR_MAX_ENTS < |now| == |was| + g.secPerClus * 16 && now[SUBDIR_MAX_ENTS] == e
    && (forall j | 0 <= j < |was| && j < SUBDIR_MAX_ENTS :: now[j] == was[j])
    && (forall j | 0 <= j < SUBDIR_MAX_ENTS :: !(Live(now[j]) && Key(now[j]) == Key(e)))
    && DirChain(v', dc, ChainOf(m', dc))
  }

  lemma PastTheEnd(g: Geometry, v: Volume, fds: seq<FD>, m: Model, v1: Volume, m1: Model, v': Volume,
                   dc: nat, e: Raw)
    requires Inv(g, v, fds, m) && IsDirectory(m, dc) && dc != 0 && Key(e) !in NamesIn(m, dc)
    requires SlotsGrow(g, v, m, v1, m1, dc) && Tables(g, v1, m1) && IsDirectory(m1, dc) && |v1.fat| <= FAT_BAD
    requires SlotWritten(g, v1, v', dc, ChainOf(m1, dc), SUBDIR_MAX_ENTS, e)
    ensures OutOfReach(g, v, m, v', m1, dc, e)
  {
    hide Inv, SlotWritten, NamesIn, Key, Live, DirOk, DirSlots, Conserved, IsEnd;
    TablesHold(g, v, fds, m);
    DirChainOf(g, v1, m1, dc);
    WrittenSlots(g, v1, v', m1, dc, e);
    NamesBridge(g, v, m, dc);
    var was, now := SlotsOf(g, v, m, dc), SlotsOf(g, v', m1, dc);
    forall j | 0 <= j < SUBDIR_MAX_ENTS ensures !(Live(now[j]) && Key(now[j]) == Key(e)) {
      if j < |was| {
        assert now[j] == was[j];
        if Live(was[j]) { NameBound(was, MaxEnts(g, dc), j); }
      } else {
        assert now[j] == SlotsOf(g, v1, m1, dc)[|was|..][j - |was|];
        EndNotLive(now[j]);
      }
    }
  }

  lemma WrittenSlots(g: Geometry, v: Volume, v': Volume, m: Model, dc: nat, e: Raw)
    requires SlotWritten(g, v, v', dc, ChainOf(m, dc), SUBDIR_MAX_ENTS, e)
    ensures SUBDIR_MAX_ENTS < |SlotsOf(g, v, m, dc)| && v'.fat == v.fat
    ensures SlotsOf(g, v', m, dc) == SlotsOf(g, v, m, dc)[SUBDIR_MAX_ENTS := e]
  {
  }

  lemma NameBound(slots: seq<Raw>, limit: nat, j: nat)
    requires DirOk(slots, limit) && j < |slots| && Live(slots[j])
    ensures Key(slots[j]) in NamesOf(slots, limit)
  {
    hide Live, Key;
  }

  lemma EndNotLive(e: Raw)
    requires IsEnd(e)
    ensures !Live(e)
  {
  }

  /** Nothing but the directory's size has changed: a subdirectory has one more cluster of end marks, if a
      cluster was free; else nothing has changed at all. */
  ghost predicate GrewOnly(g: Geometry, v: Volume, m: Model, v': Volume, m': Model, dc: nat) {
    if dc == 0 || NoneFree(v.fat) then m' == m && v' == v
    else
      SlotsGrow(g, v, m, v', m', dc) && exists c :: Grown(v, m, v', m', dc, c)
  }

  lemma GrewBy(g: Geometry, v: Volume, m: Model, v': Volume, m': Model, dc: nat, c: nat)
    requires Grown(v, m, v', m', dc, c) && SlotsGrow(g, v, m, v', m', dc)
    ensures GrewOnly(g, v, m, v', m', dc)
  {
  }

  lemma PlaceFor(m: Model, path: seq<Byte>, attr: Byte, first: nat)
    requires Resolve(m, 0, path).Named?
    ensures DirOf(m, path) == Resolve(m, 0, path).dc && NameFor(m, path) == Resolve(m, 0, path).name
    ensures first < 65536 ==> EntryFor(m, path, attr, first) == NewEntry(Resolve(m, 0, path).name, attr, first)
  {
    hide Resolve, NewEntry;
  }

  lemma EntryIn(g: Geometry, v: Volume, m: Model, v': Volume, s: Slot, e: Raw)
    requires EntryMade(g, v, m, v', s, e)
    ensures SlotWritten(g, v, v', s.dir, ChainOf(m, s.dir), s.idx, e)
  {
  }

  lemma GrewNothing(g: Geometry, v: Volume, m: Model, dc: nat)
    requires dc == 0 || NoneFree(v.fat)
    ensures GrewOnly(g, v, m, v, m, dc) && (Roomy(g, v, m, dc) || NoneFree(v.fat))
  {
    hide SlotsOf;
  }

  lemma LooksMade(g: Geometry, v: Volume, fds: seq<FD>, m: Model, v': Volume, fds': seq<FD>, m': Model,
                  dc: nat, e: Raw, fd: int, c: nat)
    requires OutOfReach(g, v, m, v', m', dc, e) && Grown(v, m, v', m', dc, c)
    requires fd < 0 ==> fds' == fds && forall i | 0 <= i < |fds| :: fds[i].used
    requires fd >= 0 ==> fd < |fds| && !fds[fd].used
                         && fds' == fds[fd := FD(true, 0, 0, 0, dc, SUBDIR_MAX_ENTS)]
    ensures MadeOutOfReach(g, v, fds, m, v', fds', m', dc, e, fd) && !NoneFree(v.fat)
  {
    hide OutOfReach;
  }

  /** The path names a directory that exists and a name in it that is not bound. */
  ghost predicate NamesNew(m: Model, path: seq<Byte>) {
    Resolve(m, 0, path).Named? && NameFor(m, path) !in NamesIn(m, DirOf(m, path))
  }

  /** The directory a path leads to, and the name in it; anything if it leads nowhere. */
  ghost function DirOf(m: Model, path: seq<Byte>): nat {
    if Resolve(m, 0, path).Named? then Resolve(m, 0, path).dc else 0
  }

  ghost function NameFor(m: Model, path: seq<Byte>): Name {
    if Resolve(m, 0, path).Named? then Resolve(m, 0, path).name else seq(11, i => SPACE)
  }

  /** The entry a new file or directory of that path gets. */
  ghost function EntryFor(m: Model, path: seq<Byte>, attr: Byte, first: nat): Raw {
    NewEntry(NameFor(m, path), attr, first % 65536)
  }

  lemma VacantTakes(g: Geometry, v: Volume, m: Model, dc: nat, i: nat)
    requires FirstVacant(SlotsOf(g, v, m, dc), MaxEnts(g, dc), i)
    ensures TakesSlot(g, v, m, dc, i)
  {
  }

  lemma VacantNotFull(g: Geometry, v: Volume, m: Model, dc: nat, i: nat)
    requires TakesSlot(g, v, m, dc, i)
    ensures !Full(g, v, m, dc)
  {
    assert Vacant(SlotsOf(g, v, m, dc)[i]);
  }

  lemma NewEntryLive(n: Name, attr: Byte, first: nat)
    requires first < 65536 && attr % 16 == 0
    ensures var e := NewEntry(n, attr, first);
      && (n[0] != DIR_END && n[0] != DIR_FREE && n[0] != DOT ==> Live(e))
      && Key(e) == UpperName(n) && (IsDir(e) <==> attr / 16 % 2 == 1)
  {
    hide NewEntry, UpperName;
    var e := NewEntry(n, attr, first);
    assert e[0] == NameOf(e)[0] == n[0];
  }

  lemma GrowDir(g: Geometry, v: Volume, fds: seq<FD>, m: Model, dc: nat, c: nat)
    requires Inv(g, v, fds, m) && dc != 0 && IsDirectory(m, dc) && 2 <= c < |v.fat| && v.fat[c] == FAT_FREE
    ensures ChainOf(m, dc) != [] && ChainOf(m, dc)[|ChainOf(m, dc)| - 1] < |v.fat| == |v.data|
    ensures var v' := v.(fat := Linkup(v.fat, ChainOf(m, dc), c), data := Zeroed(v.data, c, g.secPerClus));
      && Inv(g, v', fds, Extended(m, dc, c)) && Tables(g, v', Extended(m, dc, c))
      && |SlotsOf(g, v', Extended(m, dc, c), dc)| == |SlotsOf(g, v, m, dc)| + g.secPerClus * 16
      && Extended(m, dc, c) != m && SlotsGrow(g, v, m, v', Extended(m, dc, c), dc)
  {
    hide SlotsOf, EntsAreSlots, SlotsAreEnts, DirsOk, Conserved, OwnersOk, DescriptorsOk, FilesOk;
    ExtendStep(g, v, fds, m, dc, c);
    assert |Extended(m, dc, c).own[m.dirs[dc]]| == |m.own[m.dirs[dc]]| + 1;
  }

  /** What a successful create means: one name more, one empty file more, open at fd if a
      descriptor was left. */
  ghost predicate CreatedFile(fds0: seq<FD>, m0: Model, fds1: seq<FD>, m1: Model, dc: nat, e: Raw, s: Slot, fd: int) {
    && s.dir == dc && s !in m0.ents && m1 == Created(m0, s, e)
    && NamesIn(m1, dc) == NamesIn(m0, dc)[Key(e) := s.idx]
    && (forall o | o != dc :: NamesIn(m1, o) == NamesIn(m0, o))
    && (fd < 0 ==> fds1 == fds0 && forall i | 0 <= i < |fds0| :: fds0[i].used)
    && (fd >= 0 ==> fd < |fds0| && !fds0[fd].used && fds1 == fds0[fd := Opened(e, s)])
  }

  /** Create and open, put together. */
  lemma CreateOpened(g: Geometry, v: Volume, v': Volume, fds: seq<FD>, fds': seq<FD>, m: Model,
                     dc: nat, idx: nat, e: Raw, fd: int)
    requires Inv(g, v, fds, m) && IsDirectory(m, dc) && TakesSlot(g, v, m, dc, idx)
    requires Live(e) && !IsDir(e) && FirstCluster(e) == 0 && FileSize(e) == 0 && Key(e) !in NamesIn(m, dc)
    requires SlotWritten(g, v, v', dc, ChainOf(m, dc), idx, e)
    requires fd < 0 ==> fds' == fds && forall i | 0 <= i < |fds| :: fds[i].used
    requires fd >= 0 ==> fd < |fds| && !fds[fd].used && fds' == fds[fd := FD(true, 0, 0, 0, dc, idx)]
    ensures Inv(g, v', fds', Created(m, Slot(dc, idx), e))
    ensures CreatedFile(fds, m, fds', Created(m, Slot(dc, idx), e), dc, e, Slot(dc, idx), fd)
  {
    hide Inv, SlotWritten, NamesIn, TakesSlot, IsDir, Live, Key, FirstCluster, FileSize;
    InvParts(g, v, fds, m);
    var s := Slot(dc, idx);
    FreshOf(g, v, fds, m, dc, idx);
    CreateStep(g, v, v', fds, m, dc, idx, e);
    NamesBind(m, Created(m, s, e), s, e);
    if fd >= 0 { OpenStep(g, v', fds, Created(m, s, e), fd, s); }
  }

  /** The path names a new entry that is not taken for a deleted one, and the directory has a slot
      for it ... */
  ghost predicate CanAdd(g: Geometry, v: Volume, m: Model, path: seq<Byte>) {
    NamesNew(m, path) && NameFor(m, path)[0] != DIR_FREE && !Full(g, v, m, DirOf(m, path))
  }

  /** ... or has none. */
  ghost predicate NoSlotFor(g: Geometry, v: Volume, m: Model, path: seq<Byte>) {
    NamesNew(m, path) && Full(g, v, m, DirOf(m, path))
  }

  /** Making a directory would take two clusters: its own, and one for the full directory it is to be in. */
  ghost predicate TakesTwo(g: Geometry, v: Volume, m: Model, path: seq<Byte>) {
    NoSlotFor(g, v, m, path) && DirOf(m, path) != 0 && TwoFree(v.fat)
  }

  /** An empty file that looks made and may be open, but that no scan comes to. */
  ghost predicate MadeOutOfReach(g: Geometry, v: Volume, fds: seq<FD>, m: Model, v': Volume, fds': seq<FD>, m': Model,
                                 dc: nat, e: Raw, fd: int) {
    && OutOfReach(g, v, m, v', m', dc, e) && (exists c :: Grown(v, m, v', m', dc, c))
    && (fd < 0 ==> fds' == fds && forall i | 0 <= i < |fds| :: fds[i].used)
    && (fd >= 0 ==> fd < |fds| && !fds[fd].used && fds' == fds[fd := FD(true, 0, 0, 0, dc, SUBDIR_MAX_ENTS)])
  }

  lemma FreshOf(g: Geometry, v: Volume, fds: seq<FD>, m: Model, dc: nat, i: nat)
    requires Inv(g, v, fds, m) && IsDirectory(m, dc) && TakesSlot(g, v, m, dc, i)
    ensures Slot(dc, i) !in m.ents && Slot(dc, i) !in m.own && !IsOpen(fds, Slot(dc, i))
  {
    hide Linked, SlotsOf, DirsOk, FilesOk, TakesSlot;
    FreshSlot(g, v, fds, m, dc, i);
    CreatedClosed(fds, m, Slot(dc, i));
  }

  /** A slot that was not live had no descriptor. */
  lemma CreatedClosed(fds: seq<FD>, m: Model, s: Slot)
    requires DescriptorsOk(fds, m) && s !in m.own
    ensures !IsOpen(fds, s)
  {
  }

  /** Where a live entry is found again. */
  lemma SlotFacts(g: Geometry, v: Volume, fds: seq<FD>, m: Model, s: Slot)
    requires Inv(g, v, fds, m) && s in m.ents
    ensures IsDirectory(m, s.dir) && DirChain(v, s.dir, ChainOf(m, s.dir))
    ensures s.idx < |DirSlots(g, v, s.dir, ChainOf(m, s.dir))|
    ensures s in m.own && Linked(g, v, m)
  {
    hide SlotsAreEnts, DirSlots, DirOk, Live, Conserved;
    DirChainOf(g, v, m, s.dir);
  }

  lemma DeleteFacts(g: Geometry, v: Volume, fds: seq<FD>, m: Model, s: Slot)
    requires Inv(g, v, fds, m) && s in m.ents && s in m.files
    ensures s in m.own && Linked(g, v, m) && IsDirectory(m, s.dir)
    ensures FirstCluster(m.ents[s]) == 0 || FirstCluster(m.ents[s]) == Head(m.own[s])
    ensures !IsOpen(fds, s) ==> FirstCluster(m.ents[s]) == Head(m.own[s])
    ensures m.own[s] != [] ==> Head(m.own[s]) >= 2
    ensures forall dc | dc in m.dirs :: m.dirs[dc] != s
  {
    hide SlotsAreEnts, DirsOk, SlotsOf;
    FileNotDir(g, v, fds, m, s);
    if m.own[s] != [] { assert IsChain(v.fat, m.own[s]); }
  }

  lemma FileNotDir(g: Geometry, v: Volume, fds: seq<FD>, m: Model, s: Slot)
    requires OwnersOk(fds, m) && FilesOk(g, v, fds, m) && s in m.files
    ensures forall dc | dc in m.dirs :: m.dirs[dc] != s
  {
  }

  /** The directories stay readable after a file's chain is freed. */
  lemma AfterFree(g: Geometry, v: Volume, v1: Volume, fds: seq<FD>, m: Model, m1: Model, s: Slot, first: nat)
    requires Inv(g, v, fds, m) && s in m.ents && s in m.own && s in m.files && IsDirectory(m, s.dir)
    requires forall dc | dc in m.dirs :: m.dirs[dc] != s
    requires v1 == if first >= 2 then v.(fat := Freed(v.fat, m.own[s])) else v
    requires m1 == if first >= 2 then m.(own := m.own - {s}) else m
    ensures DirChain(v1, s.dir, ChainOf(m1, s.dir))
    ensures s.idx < |DirSlots(g, v1, s.dir, ChainOf(m1, s.dir))|
  {
    hide Conserved, DirSlots, DirOk, Live, Freed;
    if first >= 2 { FreeTables(g, v, m, s); }
    DirChainOf(g, v1, m1, s.dir);
    assert SlotsOf(g, v1, m1, s.dir) == SlotsOf(g, v, m, s.dir);
  }

  /** Every cluster of the chain of s is free, and no other table entry has changed. */
  ghost predicate FreedExactly(v: Volume, v': Volume, m: Model, s: Slot) {
    s in m.own && v'.fat == Freed(v.fat, m.own[s])
  }

  lemma SlotKeepsFat(g: Geometry, v: Volume, v': Volume, dc: nat, chain: seq<nat>, i: nat, e: Raw)
    requires SlotWritten(g, v, v', dc, chain, i, e)
    ensures v'.fat == v.fat
  {
  }

  lemma FreedNothing(fat: seq<nat>)
    ensures Freed(fat, []) == fat
  {
  }

  lemma DeletedNotLive(e: Raw)
    ensures !Live(Deleted(e)) && !IsEnd(Deleted(e))
  {
  }

  lemma DeleteDone(g: Geometry, v: Volume, v': Volume, fds: seq<FD>, m: Model, s: Slot, first: nat)
    requires Inv(g, v, fds, m) && s in m.ents && s in m.own && s in m.files && !IsOpen(fds, s)
    requires first == Head(m.own[s]) && (m.own[s] != [] ==> first >= 2)
    requires forall dc | dc in m.dirs :: m.dirs[dc] != s
    requires var v1 := if first >= 2 then v.(fat := Freed(v.fat, m.own[s])) else v;
             var m1 := if first >= 2 then m.(own := m.own - {s}) else m;
             SlotWritten(g, v1, v', s.dir, ChainOf(m1, s.dir), s.idx, Deleted(m.ents[s]))
    ensures Inv(g, v', fds, Removed(m, s)) && FreedExactly(v, v', m, s)
  {
    hide Inv, SlotWritten, Freed, Deleted;
    FreedNothing(v.fat);
    SlotKeepsFat(g, if first >= 2 then v.(fat := Freed(v.fat, m.own[s])) else v, v', s.dir,
                 ChainOf(if first >= 2 then m.(own := m.own - {s}) else m, s.dir), s.idx, Deleted(m.ents[s]));
    DeletedNotLive(m.ents[s]);
    var m1 := m.(own := m.own - {s});
    assert ChainOf(m1, s.dir) == ChainOf(m, s.dir);
    DeleteStep(g, v, v', fds, m, s, Deleted(m.ents[s]));
  }

  lemma RenamedLive(e: Raw, n: Name)
    requires Live(e) && n[0] != DIR_END && n[0] != DIR_FREE && n[0] != DOT && UpperName(n) == n
    ensures var r := WithName(e, n);
      Live(r) && Key(r) == n && IsDir(r) == IsDir(e) && FirstCluster(r) == FirstCluster(e) && FileSize(r) == FileSize(e)
  {
    hide WithName, UpperName;
    var r := WithName(e, n);
    assert r[0] == NameOf(r)[0] == n[0];
    forall i | 11 <= i < 32 ensures r[i] == e[i] { assert r[i] == r[11..][i - 11] && e[i] == e[11..][i - 11]; }
  }

  lemma RenameDone(g: Geometry, v: Volume, v': Volume, fds: seq<FD>, m: Model, s: Slot, n: Name)
    requires Inv(g, v, fds, m) && s in m.ents && s in m.own && IsDirectory(m, s.dir)
    requires n[0] != DIR_END && n[0] != DIR_FREE && n[0] != DOT && UpperName(n) == n && n !in NamesIn(m, s.dir)
    requires SlotWritten(g, v, v', s.dir, ChainOf(m, s.dir), s.idx, WithName(m.ents[s], n))
    ensures Inv(g, v', fds, m.(ents := m.ents[s := WithName(m.ents[s], n)]))
  {
    hide SlotWritten, WithName, Live, Key, IsDir, FirstCluster, FileSize, NamesIn, SlotsOf, Linked, SlotsAreEnts,
         DirsOk, OwnersOk, DescriptorsOk, FilesOk;
    RenamedLive(m.ents[s], n);
    UpdateStep(g, v, v', fds, m, s.dir, s.idx, WithName(m.ents[s], n));
  }

  // ----- mkdir and rmdir -----

  ghost predicate TwoFree(fat: seq<nat>) {
    exists c, d :: 2 <= c < |fat| && 2 <= d < |fat| && c != d && fat[c] == FAT_FREE && fat[d] == FAT_FREE
  }

  /** Two free clusters were taken: one is now without an owner, the other the last of directory dc. Nothing
      else of the meaning and of the table changed. */
  ghost predicate LostOne(v: Volume, m: Model, v': Volume, m': Model, dc: nat) {
    exists c, d :: LostBy(v, m, v', m', dc, c, d)
  }

  ghost predicate LostBy(v: Volume, m: Model, v': Volume, m': Model, dc: nat, c: nat, d: nat) {
    && 2 <= c < |v.fat| && 2 <= d < |v.fat| && c != d && v.fat[c] == v.fat[d] == FAT_FREE
    && dc in m.dirs && ChainOf(m, dc) != [] && ChainOf(m, dc)[|ChainOf(m, dc)| - 1] < |v.fat|
    && m' == Extended(WithLost(m, c), dc, d)
    && v'.fat == Linkup(v.fat[c := FAT_EOC], ChainOf(m, dc), d)
  }

  /** An entry of zero size with the given name, attribute and first cluster. */
  predicate IsEntry(e: Raw, name: Name, attr: Byte, first: nat) {
    first < 65536 && e == NewEntry(name, attr, first)
  }

  /** What a successful mkdir means: one name more, bound to an empty directory of one cluster. */
  ghost predicate MadeDir(m: Model, m': Model, dc: nat, name: Name, s: Slot, c: nat) {
    && s.dir == dc && s !in m.ents && c !in m.dirs && c < 65536
    && s in m'.ents && IsEntry(m'.ents[s], name, ATTR_DIR, c)
    && m' == m.(own := m.own[s := [c]], ents := m.ents[s := m'.ents[s]], dirs := m.dirs[c := s])
    && NamesIn(m', dc) == NamesIn(m, dc)[name := s.idx]
    && (forall o | o != dc :: NamesIn(m', o) == NamesIn(m, o))
    && NamesIn(m', c) == map[]
  }

  lemma TwoNotNone(fat: seq<nat>)
    ensures TwoFree(fat) ==> !NoneFree(fat)
  {
  }

  lemma LostCount(v: Volume, m: Model, v': Volume, m': Model, dc: nat, name: Name, s: Slot, c: nat)
    ensures MadeDir(m, m', dc, name, s, c) ==> m'.lost == m.lost
    ensures LostOne(v, m, v', m', dc) ==> m'.lost == m.lost + 1
  {
    hide NamesIn, Linkup, IsEntry;
  }

  /** A cluster that was free is now a directory of end marks. */
  ghost predicate EmptyDir(g: Geometry, v: Volume, v': Volume, m': Model, c: nat) {
    && 2 <= c < |v.fat| && v.fat[c] == FAT_FREE && v'.fat == v.fat[c := FAT_EOC] && ChainOf(m', c) == [c]
    && |SlotsOf(g, v', m', c)| == g.secPerClus * 16 && AllEnd(SlotsOf(g, v', m', c))
  }

  lemma MadeEmpty(g: Geometry, v: Volume, v': Volume, m: Model, m': Model, dc: nat, name: Name, s: Slot,
                  c: nat)
    requires MadeDir(m, m', dc, name, s, c) && AllEnd(SlotsOf(g, v', m', c)) && c != 0
    requires VolumeOk(g, v') && 2 <= c < |v.fat| && v.fat[c] == FAT_FREE && v'.fat == v.fat[c := FAT_EOC]
    ensures EmptyDir(g, v, v', m', c)
  {
    hide AllEnd, NamesIn, IsEntry;
    assert m'.dirs[c] == s && ChainOf(m', c) == [c];
    ChainLength(v'.data, [c], g.secPerClus);
    TimesIsProduct(1, g.secPerClus);
  }

  lemma MkdirTaken(g: Geometry, v: Volume, v': Volume, fds: seq<FD>, m: Model, c: nat, dc: nat)
    requires Inv(g, v, fds, m) && 2 <= c < |v.fat| && v.fat[c] == FAT_FREE && c < |v.data| && IsDirectory(m, dc)
    requires v' == v.(fat := v.fat[c := FAT_EOC], data := Zeroed(v.data, c, g.secPerClus))
    ensures Inv(g, v', fds, WithLost(m, c)) && IsDirectory(WithLost(m, c), dc)
    ensures c < 65536 ==> Took(g, v, m, v', WithLost(m, c), dc, c)
  {
    hide Inv, SlotsOf;
    LostStep(g, v, fds, m, c);
    NamesSame(m, WithLost(m, c));
  }

  /** A free cluster was taken, marked and zeroed, and waits for an owner. */
  ghost predicate Took(g: Geometry, v: Volume, m: Model, v': Volume, m': Model, dc: nat, c: nat) {
    && 2 <= c < |v.fat| && c < |v.data| && v.fat[c] == FAT_FREE && c < 65536
    && v' == v.(fat := v.fat[c := FAT_EOC], data := Zeroed(v.data, c, g.secPerClus))
    && m' == WithLost(m, c) && m' != m && IsDirectory(m, dc) && IsDirectory(m', dc) && Pending(m) !in m.own
    && (Full(g, v', m', dc) <==> Full(g, v, m, dc))
    && (Roomy(g, v', m', dc) <==> Roomy(g, v, m, dc))
    && NamesIn(m', dc) == NamesIn(m, dc)
    && (forall o | IsDirectory(m, o) :: SlotsOf(g, v', m', o) == SlotsOf(g, v, m, o))
  }

  lemma TookFacts(g: Geometry, v: Volume, m: Model, v': Volume, m': Model, dc: nat, c: nat)
    requires Took(g, v, m, v', m', dc, c)
    ensures 2 <= c < |v.fat| && v.fat[c] == FAT_FREE && c < 65536 && v'.fat == v.fat[c := FAT_EOC]
    ensures !NoneFree(v.fat)
    ensures c < |v'.data| && v'.data[c] == Zeroed(v'.data, c, g.secPerClus)[c]
    ensures m' == WithLost(m, c) && m' != m && IsDirectory(m', dc) && IsDirectory(m, dc) && Pending(m) !in m.own
    ensures Full(g, v', m', dc) <==> Full(g, v, m, dc)
    ensures Roomy(g, v', m', dc) <==> Roomy(g, v, m, dc)
    ensures NamesIn(m', dc) == NamesIn(m, dc)
  {
    hide Full, Roomy, NamesIn, WithLost, SlotsOf;
  }

  lemma GiveBackCase(g: Geometry, v: Volume, v1: Volume, fds: seq<FD>, m: Model, m1: Model, c: nat, dc: nat)
    requires Took(g, v, m, v1, m1, dc, c) && Inv(g, v, fds, m) && Inv(g, v1, fds, m1)
    ensures dc == 0 || NoneFree(v1.fat) ==> !(dc != 0 && TwoFree(v.fat))
  {
    hide Inv, Full, Roomy, NamesIn, NoneFree, TwoFree, Zeroed, SlotsOf;
    MkdirUndone(g, v, v1, fds, m, c, dc);
  }

  lemma MkdirUndone(g: Geometry, v: Volume, v1: Volume, fds: seq<FD>, m: Model, c: nat, dc: nat)
    requires Inv(g, v, fds, m) && 2 <= c < |v.fat| && v.fat[c] == FAT_FREE
    requires v1.fat == v.fat[c := FAT_EOC] && Inv(g, v1, fds, WithLost(m, c))
    ensures WithoutLost(WithLost(m, c)) == m
    ensures Inv(g, v1.(fat := v1.fat[c := FAT_FREE]), fds, m) && v1.fat[c := FAT_FREE] == v.fat
    ensures dc == 0 || NoneFree(v1.fat) ==> !(dc != 0 && TwoFree(v.fat))
  {
    hide Linked, EntsAreSlots, SlotsAreEnts, DirsOk, DescriptorsOk, FilesOk;
    PendingAbsent(g, v, fds, m);
    assert WithoutLost(WithLost(m, c)) == m;
    GiveBackStep(g, v1, fds, WithLost(m, c), c);
    if TwoFree(v.fat) {
      var x, y :| 2 <= x < |v.fat| && 2 <= y < |v.fat| && x != y && v.fat[x] == FAT_FREE && v.fat[y] == FAT_FREE;
      assert v1.fat[if x == c then y else x] == FAT_FREE;
    }
  }

  lemma PendingAbsent(g: Geometry, v: Volume, fds: seq<FD>, m: Model)
    requires Inv(g, v, fds, m)
    ensures Pending(m) !in m.own && Pending(m) !in m.ents
  {
    hide Linked, SlotsAreEnts, DirsOk, DescriptorsOk, FilesOk, SlotsOf;
    PendingFresh(g, v, fds, m);
  }

  lemma MkdirDone(g: Geometry, v1: Volume, v': Volume, fds: seq<FD>, m: Model, dc: nat, i: nat, name: Name, c: nat)
    requires Inv(g, v1, fds, WithLost(m, c)) && Pending(m) !in m.own && IsDirectory(m, dc) && 2 <= c < |v1.data|
    requires c < 65536 && TakesSlot(g, v1, WithLost(m, c), dc, i) && name !in NamesIn(m, dc)
    requires UpperName(name) == name && name[0] != DOT && name[0] != 0 && name[0] != DIR_FREE
    requires v1.data[c] == Zeroed(v1.data, c, g.secPerClus)[c]
    requires SlotWritten(g, v1, v', dc, ChainOf(WithLost(m, c), dc), i, NewEntry(name, ATTR_DIR, c))
    ensures Inv(g, v', fds, Adopted(WithLost(m, c), Slot(dc, i), NewEntry(name, ATTR_DIR, c), c))
    ensures AllEnd(SlotsOf(g, v', Adopted(WithLost(m, c), Slot(dc, i), NewEntry(name, ATTR_DIR, c), c), c))
  {
    hide Inv, SlotWritten, TakesSlot, NewEntry, NamesIn, UpperName, Live, Key, IsDir, FirstCluster, ZeroSector;
    hide SlotsOf, AllEnd;
    var e, s, m1 := NewEntry(name, ATTR_DIR, c), Slot(dc, i), WithLost(m, c);
    NewEntryLive(name, ATTR_DIR, c);
    NamesSame(m, m1);
    InvParts(g, v1, fds, m1);
    NewDirUntouched(g, v1, v', fds, m1, dc, i, e, c);
    AdoptStep(g, v1, v', fds, m1, s, e, c);
  }

  lemma MkdirMade(g: Geometry, v1: Volume, fds: seq<FD>, m: Model, dc: nat, i: nat, name: Name, c: nat)
    requires Inv(g, v1, fds, WithLost(m, c)) && Pending(m) !in m.own && IsDirectory(m, dc) && 2 <= c < |v1.data|
    requires c < 65536 && TakesSlot(g, v1, WithLost(m, c), dc, i) && name !in NamesIn(m, dc)
    requires UpperName(name) == name && name[0] != DOT && name[0] != 0 && name[0] != DIR_FREE
    ensures MadeDir(m, Adopted(WithLost(m, c), Slot(dc, i), NewEntry(name, ATTR_DIR, c), c), dc, name, Slot(dc, i), c)
  {
    hide Inv, TakesSlot, NewEntry, NamesIn, UpperName, Live, Key, IsDir, FirstCluster;
    var e, s, m1 := NewEntry(name, ATTR_DIR, c), Slot(dc, i), WithLost(m, c);
    NewEntryLive(name, ATTR_DIR, c);
    NamesSame(m, m1);
    InvParts(g, v1, fds, m1);
    FreshOf(g, v1, fds, m1, dc, i);
    AdoptFresh(g, v1, fds, m1, s, c);
    AdoptedIs(m, s, e, c);
    NamesBind(m1, Adopted(m1, s, e, c), s, e);
    NoNamesIn(g, v1, fds, m1, Adopted(m1, s, e, c), s, e, c);
  }

  lemma AdoptedIs(m: Model, s: Slot, e: Raw, c: nat)
    requires Pending(m) !in m.own
    ensures Adopted(WithLost(m, c), s, e, c)
        == m.(own := m.own[s := [c]], ents := m.ents[s := e], dirs := m.dirs[c := s])
  {
    assert WithoutLost(WithLost(m, c)) == m;
  }

  /** No entry lives in what is not a directory yet. */
  lemma NoNamesIn(g: Geometry, v: Volume, fds: seq<FD>, m: Model, m': Model, s: Slot, e: Raw, c: nat)
    requires Inv(g, v, fds, m) && IsDirectory(m, s.dir) && c > 0 && c !in m.dirs && m'.ents == m.ents[s := e]
    ensures NamesIn(m', c) == map[]
  {
    hide Inv, NamesIn, Key;
    InvParts(g, v, fds, m);
    forall o | o in m'.ents ensures o.dir != c { assert o == s || o in m.ents; }
    NamesEmpty(m', c);
  }

  lemma NamesEmpty(m: Model, dc: nat)
    requires forall o | o in m.ents :: o.dir != dc
    ensures NamesIn(m, dc) == map[]
  {
  }

  /** Writing the parent's entry leaves the new directory's cluster zeroed. */
  lemma NewDirUntouched(g: Geometry, v: Volume, v': Volume, fds: seq<FD>, m: Model, dc: nat, i: nat, e: Raw, c: nat)
    requires Inv(g, v, fds, m) && IsDirectory(m, dc) && m.lost > 0
    requires Slot(1, m.lost - 1) in m.own && m.own[Slot(1, m.lost - 1)] == [c]
    requires 2 <= c < |v.data| && v.data[c] == Zeroed(v.data, c, g.secPerClus)[c]
    requires SlotWritten(g, v, v', dc, ChainOf(m, dc), i, e)
    ensures c < |v'.data| && forall t | 0 <= t < |v'.data[c]| :: v'.data[c][t] == ZeroSector()
  {
    hide SlotsAreEnts, DirsOk, DescriptorsOk, FilesOk, SlotsOf, DirSlots, ZeroSector;
    var p := Slot(1, m.lost - 1);
    if dc in m.dirs {
      assert m.dirs[dc] in m.ents && IsDirectory(m, m.dirs[dc].dir) && !IsDirectory(m, 1);
      assert Disjoint(m.own[p], m.own[m.dirs[dc]]);
    }
    assert c in m.own[p] && c !in ChainOf(m, dc);
    assert v'.data[c] == v.data[c];
  }

  lemma MkdirLost(g: Geometry, v: Volume, fds: seq<FD>, m: Model, v1: Volume, m1: Model, v': Volume, m': Model,
                  dc: nat, c: nat, grown: nat)
    requires Inv(g, v, fds, m) && Took(g, v, m, v1, m1, dc, c) && Grown(v1, m1, v', m', dc, grown)
    ensures LostOne(v, m, v', m', dc) && TwoFree(v.fat) && dc != 0
  {
    hide Inv, Full, Roomy, NamesIn, SlotsOf, Zeroed, Conserved;
    InvLinked(g, v, fds, m);
    assert grown != c && v.fat[grown] == FAT_FREE;
    assert ChainOf(m1, dc) == ChainOf(m, dc);
    assert LostBy(v, m, v', m', dc, c, grown);
  }

  /** What the growth of the directory means does not depend on the cluster taken before. */
  lemma GrowthSeen(g: Geometry, v: Volume, m: Model, v1: Volume, m1: Model, v': Volume, m': Model,
                   dc: nat, c: nat, e: Raw)
    requires Took(g, v, m, v1, m1, dc, c)
    ensures SlotsGrow(g, v1, m1, v', m', dc) ==> SlotsGrow(g, v, m, v', m', dc)
    ensures OutOfReach(g, v1, m1, v', m', dc, e) ==> OutOfReach(g, v, m, v', m', dc, e)
  {
    hide Full, Roomy, NamesIn, SlotsOf, Zeroed, AllEnd, Live, Key, DirChain;
    assert SlotsOf(g, v1, m1, dc) == SlotsOf(g, v, m, dc);
  }

  lemma DirChainIn(g: Geometry, v: Volume, fds: seq<FD>, m: Model, dc: nat)
    requires Inv(g, v, fds, m) && IsDirectory(m, dc)
    ensures DirChain(v, dc, ChainOf(m, dc)) && 0 !in m.dirs
  {
    hide EntsAreSlots, SlotsAreEnts, DescriptorsOk, FilesOk, SlotsOf, DirOk, Conserved;
    DirChainOf(g, v, m, dc);
  }

  lemma LiveTest(e: Raw)
    ensures Live(e) <==> !(e[0] == DIR_END || e[0] == DIR_FREE || e[11] % 16 != 0
                           || (e[0] == DOT && (e[1] == SPACE || (e[1] == DOT && e[2] == SPACE))))
  {
  }

  lemma NotEmpty(g: Geometry, v: Volume, fds: seq<FD>, m: Model, dc: nat, i: nat)
    requires Inv(g, v, fds, m) && IsDirectory(m, dc)
    requires i < |DirSlots(g, v, dc, ChainOf(m, dc))| && Live(DirSlots(g, v, dc, ChainOf(m, dc))[i])
    ensures Slot(dc, i) in m.ents
  {
    hide Linked, EntsAreSlots, DirsOk, OwnersOk, DescriptorsOk, FilesOk, DirSlots, Live;
    assert SlotsOf(g, v, m, dc)[i] == DirSlots(g, v, dc, ChainOf(m, dc))[i];
  }

  /** The scan stopped at the end of the directory, at an end mark, or at the scan limit. */
  lemma NoneLive(g: Geometry, v: Volume, fds: seq<FD>, m: Model, dc: nat, i: nat)
    requires Inv(g, v, fds, m) && dc in m.dirs && i <= |DirSlots(g, v, dc, ChainOf(m, dc))|
    requires forall j | 0 <= j < i :: !Live(DirSlots(g, v, dc, ChainOf(m, dc))[j])
    requires i == |DirSlots(g, v, dc, ChainOf(m, dc))| || i == SUBDIR_MAX_ENTS
             || IsEnd(DirSlots(g, v, dc, ChainOf(m, dc))[i])
    ensures forall s | s in m.ents :: s.dir != dc
  {
    hide SlotsAreEnts, OwnersOk, DescriptorsOk, FilesOk, DirSlots, Live, Key, Conserved, DirOk;
    ChainWithin(g, v, m, dc);
    var slots := DirSlots(g, v, dc, ChainOf(m, dc));
    assert slots == SlotsOf(g, v, m, dc) && DirOk(slots, MaxEnts(g, dc));
    AllDead(slots, SUBDIR_MAX_ENTS, i);
    forall s | s in m.ents ensures s.dir != dc { assert Live(SlotsOf(g, v, m, s.dir)[s.idx]); }
  }

  lemma AllDead(slots: seq<Raw>, limit: nat, i: nat)
    requires DirOk(slots, limit) && i <= |slots| && (i == |slots| || i == limit || IsEnd(slots[i]))
    requires forall j | 0 <= j < i :: !Live(slots[j])
    ensures forall j | 0 <= j < |slots| :: !Live(slots[j])
  {
  }

  /** The slot of the empty directory a path is bound to. */
  ghost function EmptyDirAt(m: Model, path: seq<Byte>): Option<Slot> {
    var s := SlotAt(m, path);
    if s.Some? && s.value in m.ents && IsDir(m.ents[s.value])
       && (forall o | o in m.ents :: o.dir != FirstCluster(m.ents[s.value]))
    then s else None
  }

  lemma RmdirFreed(g: Geometry, v: Volume, fds: seq<FD>, m: Model, s: Slot)
    requires Inv(g, v, fds, m) && s in m.ents && s in m.own && IsDir(m.ents[s]) && Linked(g, v, m)
    requires forall o | o in m.ents :: o.dir != FirstCluster(m.ents[s])
    ensures FirstCluster(m.ents[s]) >= 2 && FirstCluster(m.ents[s]) in m.dirs && m.dirs[FirstCluster(m.ents[s])] == s
    ensures var v1 := v.(fat := Freed(v.fat, m.own[s])); var chain := ChainOf(m.(own := m.own - {s}), s.dir);
      DirChain(v1, s.dir, chain) && s.idx < |DirSlots(g, v1, s.dir, chain)|
  {
    hide DirSlots, DirOk, Live, Freed, IsDir, FirstCluster, Conserved, DescriptorsOk, FilesOk, OwnersOk;
    DirEntryHead(g, v, fds, m, s);
    var dc := FirstCluster(m.ents[s]);
    ChainWithin(g, v, m, dc);
    var m1 := Undir(m, dc);
    DropDirTables(g, v, m, dc);
    forall d | d in m1.dirs ensures m1.dirs[d] != s { HeadsApart(g, v, m, dc, d); }
    FreeTables(g, v, m1, s);
    assert s.dir != dc && IsDirectory(m1, s.dir);
    var v1, m2 := v.(fat := Freed(v.fat, m.own[s])), m1.(own := m1.own - {s});
    assert ChainOf(m.(own := m.own - {s}), s.dir) == ChainOf(m2, s.dir);
    DirChainOf(g, v1, m2, s.dir);
    assert SlotsOf(g, v1, m2, s.dir) == SlotsOf(g, v, m1, s.dir) == SlotsOf(g, v, m, s.dir);
  }

  lemma PrefixSlice(c: seq<Byte>, bytes: seq<Byte>, a: nat, b: nat)
    requires c <= bytes && a <= b <= |c|
    ensures c[a..b] == bytes[a..b]
  {
    assert c == bytes[..|c|];
  }

  lemma InvLinked(g: Geometry, v: Volume, fds: seq<FD>, m: Model)
    requires Inv(g, v, fds, m)
    ensures Linked(g, v, m) && VolumeOk(g, v)
  {
  }

  lemma ChainBytesLength(g: Geometry, v: Volume, chain: seq<nat>)
    requires VolumeOk(g, v) && IsChain(v.fat, chain)
    ensures |ChainBytes(v.data, chain)| == Times(|chain|, g.secPerClus) * 512
  {
    ChainUniform(g, v, chain);
    ChainLength(v.data, chain, g.secPerClus);
  }

  lemma SectorOf(g: Geometry, v: Volume, chain: seq<nat>, j: nat, t: nat)
    requires VolumeOk(g, v) && IsChain(v.fat, chain) && j < |chain| && t < g.secPerClus
    ensures chain[j] < |v.data| && t < |v.data[chain[j]]|
    ensures Times(j, g.secPerClus) + t < |ChainSectors(v.data, chain)|
    ensures ChainSectors(v.data, chain)[Times(j, g.secPerClus) + t] == v.data[chain[j]][t]
  {
    ChainUniform(g, v, chain);
    ChainIndex(v.data, chain, g.secPerClus, j, t);
  }

  lemma TimesNext(j: nat, n: nat, w: nat)
    requires j < n
    ensures Times(j + 1, w) == Times(j, w) + w
    ensures j + 1 == n || Times(j + 1, w) <= Times(n, w)
  {
    TimesMonotone(j + 1, n, w);
  }

  lemma PositionMoved(g: Geometry, v: Volume, fds: seq<FD>, m: Model, k: nat, pos: nat)
    requires Inv(g, v, fds, m) && k < |fds| && fds[k].used && pos <= fds[k].size
    ensures Inv(g, v, fds[k := fds[k].(pos := pos)], m)
  {
    hide EntsAreSlots, SlotsAreEnts, DirsOk, OwnersOk, Inv, ChainBytes;
    OpenFacts(g, v, fds, m, k);
    FinishFile(g, v, fds, m, k, m.files[fds[k].At()], pos);
    assert m.(files := m.files[fds[k].At() := m.files[fds[k].At()]]) == m;
    assert fds[k].(size := |m.files[fds[k].At()]|, pos := pos) == fds[k].(pos := pos);
  }

  // ----- scanning a directory -----

  predicate Vacant(e: Raw) { IsEnd(e) || IsFree(e) }

  ghost predicate FirstVacant(slots: seq<Raw>, limit: nat, i: nat) {
    i < |slots| && i < limit && Vacant(slots[i]) && forall j | 0 <= j < i :: !Vacant(slots[j])
  }

  ghost predicate NoVacant(slots: seq<Raw>, limit: nat) {
    forall j | 0 <= j < |slots| && j < limit :: !Vacant(slots[j])
  }

  lemma Unbound(slots: seq<Raw>, limit: nat, i: nat, target: Name)
    requires DirOk(slots, limit) && i <= |slots| && (i == |slots| || i == limit)
    requires forall j | 0 <= j < i :: !(Live(slots[j]) && Key(slots[j]) == UpperName(target))
    ensures UpperName(target) !in NamesOf(slots, limit)
  {
  }

  lemma EndUnbound(slots: seq<Raw>, limit: nat, i: nat, target: Name)
    requires DirOk(slots, limit) && i < |slots| && IsEnd(slots[i])
    requires forall j | 0 <= j < i :: !(Live(slots[j]) && Key(slots[j]) == UpperName(target))
    ensures UpperName(target) !in NamesOf(slots, limit)
  {
  }

  lemma SkipUnbound(e: Raw, target: Name)
    requires IsFree(e) || Skipped(e) || UpperName(NameOf(e)) != UpperName(target)
    ensures !(Live(e) && Key(e) == UpperName(target))
  {
  }

  /** A name that does not start with a dot is never that of a dot entry. */
  lemma FoundLive(e: Raw, target: Name)
    requires !IsEnd(e) && !IsFree(e) && !Skipped(e) && UpperName(NameOf(e)) == UpperName(target) && target[0] != DOT
    ensures Live(e) && Key(e) == UpperName(target)
  {
    assert Upper(e[0]) == UpperName(NameOf(e))[0] == UpperName(target)[0] == Upper(target[0]);
  }

  lemma ChainNotFree(fat: seq<nat>, chain: seq<nat>, c: nat)
    requires IsChain(fat, chain) && |fat| <= FAT_BAD && c < |fat| && fat[c] == FAT_FREE
    ensures c !in chain
  {
    forall i | 0 <= i < |chain| ensures chain[i] != c { ChainNext(fat, chain, i); }
  }

  ghost predicate NoneFree(fat: seq<nat>) {
    forall c | 2 <= c < |fat| :: fat[c] != FAT_FREE
  }

  /** The root has no chain; a subdirectory's starts at its number. */
  ghost predicate DirChain(v: Volume, dc: nat, chain: seq<nat>) {
    |v.fat| <= FAT_BAD && if dc == 0 then chain == [] else IsChain(v.fat, chain) && chain[0] == dc
  }

  ghost function ZeroedTo(data: seq<seq<Sector>>, c: nat, s: nat): seq<seq<Sector>>
    requires c < |data| && s <= |data[c]|
  {
    var row: seq<Sector> := seq(s, i => ZeroSector()) + data[c][s..];
    data[c := row]
  }

  lemma ZeroedStep(data: seq<seq<Sector>>, c: nat, s: nat)
    requires c < |data| && s < |data[c]|
    ensures SetSector(ZeroedTo(data, c, s), c, s, ZeroSector()) == ZeroedTo(data, c, s + 1)
  {
    assert SetSector(ZeroedTo(data, c, s), c, s, ZeroSector())[c] == ZeroedTo(data, c, s + 1)[c];
  }

  lemma ZeroedAll(data: seq<seq<Sector>>, c: nat, w: nat)
    requires c < |data| && |data[c]| == w
    ensures ZeroedTo(data, c, w) == Zeroed(data, c, w)
    ensures ZeroedTo(data, c, 0) == data
  {
    assert ZeroedTo(data, c, w)[c] == Zeroed(data, c, w)[c];
    assert ZeroedTo(data, c, 0)[c] == data[c];
  }

  lemma ChainUniform(g: Geometry, v: Volume, chain: seq<nat>)
    requires VolumeOk(g, v) && IsChain(v.fat, chain)
    ensures Uniform(v.data, chain, g.secPerClus)
  {
  }

  // ----- the conditions of the calls, spelled out -----

  /** A path is bound to a slot exactly when the walk ends at a name its directory binds. */
  lemma SlotAtMeans(m: Model, path: seq<Byte>)
    ensures var p := Resolve(m, 0, path);
      && (SlotAt(m, path).Some? <==> p.Named? && p.name in NamesIn(m, p.dc))
      && (SlotAt(m, path).Some? ==> SlotAt(m, path).value == Slot(p.dc, NamesIn(m, p.dc)[p.name]))
      && (NamesNew(m, path) <==> p.Named? && p.name !in NamesIn(m, p.dc))
  {
    hide Resolve, NamesIn;
  }

  /** It is bound to a file when attribute bit 4 of the entry is not set. */
  lemma FileAtMeans(m: Model, path: seq<Byte>)
    ensures var p := Resolve(m, 0, path);
      && (FileAt(m, path).Some? <==>
            p.Named? && p.name in NamesIn(m, p.dc) && Slot(p.dc, NamesIn(m, p.dc)[p.name]) in m.ents
            && m.ents[Slot(p.dc, NamesIn(m, p.dc)[p.name])][11] / 16 % 2 == 0)
      && (FileAt(m, path).Some? ==> FileAt(m, path).value == Slot(p.dc, NamesIn(m, p.dc)[p.name]))
  {
    hide Resolve, NamesIn;
  }

  /** It is bound to an empty directory when the bit is set and no entry lies in the directory that starts at the
      entry's first cluster. */
  lemma EmptyDirMeans(m: Model, path: seq<Byte>)
    ensures var p := Resolve(m, 0, path);
      && (EmptyDirAt(m, path).Some? <==>
            p.Named? && p.name in NamesIn(m, p.dc) && Slot(p.dc, NamesIn(m, p.dc)[p.name]) in m.ents
            && var e := m.ents[Slot(p.dc, NamesIn(m, p.dc)[p.name])];
               e[11] / 16 % 2 == 1 && forall o | o in m.ents :: o.dir != e[26] as int + 256 * e[27] as int)
      && (EmptyDirAt(m, path).Some? ==> EmptyDirAt(m, path).value == Slot(p.dc, NamesIn(m, p.dc)[p.name]))
  {
    hide Resolve, NamesIn;
  }

  /** A new name can be added while one of the scanned slots starts with byte 0 or 0xE5. */
  lemma CanAddMeans(g: Geometry, v: Volume, m: Model, path: seq<Byte>)
    ensures var p := Resolve(m, 0, path);
      p.Named? && p.name !in NamesIn(m, p.dc) ==>
        var slots, limit := SlotsOf(g, v, m, p.dc), if p.dc == 0 then g.rootEntries else 10000;
        var room := exists i :: 0 <= i < |slots| && i < limit && (slots[i][0] == 0 || slots[i][0] == 0xE5);
        && (CanAdd(g, v, m, path) <==> p.name[0] != 0xE5 && room)
        && (NoSlotFor(g, v, m, path) <==> !room)
        && (Roomy(g, v, m, p.dc) <==> p.dc == 0 || |slots| + g.secPerClus * 16 <= 10000)
        && (TakesTwo(g, v, m, path) <==>
              !room && p.dc != 0
              && exists c, d :: 2 <= c < d < |v.fat| && v.fat[c] == 0 && v.fat[d] == 0)
    ensures !(Resolve(m, 0, path).Named? && Resolve(m, 0, path).name !in NamesIn(m, Resolve(m, 0, path).dc)) ==>
              !CanAdd(g, v, m, path) && !NoSlotFor(g, v, m, path) && !TakesTwo(g, v, m, path)
  {
    hide Resolve, NamesIn, SlotsOf;
    TwoFreeMeans(v.fat);
    if Resolve(m, 0, path).Named? { FullMeans(g, v, m, Resolve(m, 0, path).dc); }
  }

  lemma TwoFreeMeans(fat: seq<nat>)
    ensures TwoFree(fat) <==> exists c, d :: 2 <= c < d < |fat| && fat[c] == 0 && fat[d] == 0
    ensures NoneFree(fat) <==> forall c | 2 <= c < |fat| :: fat[c] != 0
  {
    if TwoFree(fat) {
      var c, d :| 2 <= c < |fat| && 2 <= d < |fat| && c != d && fat[c] == FAT_FREE && fat[d] == FAT_FREE;
      assert if c < d then fat[c] == 0 && fat[d] == 0 else fat[d] == 0 && fat[c] == 0;
    }
  }

  lemma FullMeans(g: Geometry, v: Volume, m: Model, dc: nat)
    ensures var slots, limit := SlotsOf(g, v, m, dc), if dc == 0 then g.rootEntries else 10000;
      Full(g, v, m, dc) <==> forall i | 0 <= i < |slots| && i < limit :: slots[i][0] != 0 && slots[i][0] != 0xE5
  {
    hide SlotsOf;
  }

  lemma FreedMeans(fat: seq<nat>, chain: seq<nat>)
    ensures |Freed(fat, chain)| == |fat|
    ensures forall c | 0 <= c < |fat| :: Freed(fat, chain)[c] == if c in chain then 0 else fat[c]
  {
  }

  /** The slot a new entry takes: the first of those that are scanned that starts with 0 or 0xE5. */
  lemma EntryMadeMeans(g: Geometry, v: Volume, m: Model, v': Volume, s: Slot, e: Raw)
    requires EntryMade(g, v, m, v', s, e)
    ensures var slots := SlotsOf(g, v, m, s.dir);
      && s.idx < |slots| && s.idx < (if s.dir == 0 then g.rootEntries else 10000)
      && (slots[s.idx][0] == 0 || slots[s.idx][0] == 0xE5)
      && (forall i | 0 <= i < s.idx :: slots[i][0] != 0 && slots[i][0] != 0xE5)
      && v'.fat == v.fat
      && (s.dir in m.dirs || s.dir == 0 ==> DirSlots(g, v', s.dir, ChainOf(m, s.dir)) == slots[s.idx := e])
  {
    hide DirSlots;
  }

  /** The attributes of new files and directories, the limits of the tables, and the values of the table's entries. */
  lemma FormatNumbers()
    ensures ATTR_ARCH == 0x20 && ATTR_DIR == 0x10 && SUBDIR_MAX_ENTS == 10000 && MAX_FDS == 16
    ensures FAT_FREE == 0 && FAT_BAD == 0xFF7 && FAT_EOC == 0xFF8 && MAX_COMPONENT == 255
  {
  }

  /** A file just created is empty, and open at position 0 if a descriptor was free. */
  lemma CreatedMeans(fds0: seq<FD>, m0: Model, fds1: seq<FD>, m1: Model, dc: nat, e: Raw, s: Slot, fd: int)
    requires FirstCluster(e) == 0 && FileSize(e) == 0 && CreatedFile(fds0, m0, fds1, m1, dc, e, s, fd)
    ensures s !in m0.ents && s in m1.ents && s in m1.files && m1.files[s] == [] && s in m1.own && m1.own[s] == []
    ensures m1.ents[s] == e && m1.dirs == m0.dirs && m1.bad == m0.bad && m1.lost == m0.lost
    ensures fd >= 0 ==> fd < |fds1| && fds1[fd] == FD(true, 0, 0, 0, s.dir, s.idx)
    ensures fd >= 0 <==> exists i :: 0 <= i < |fds0| && !fds0[i].used
    ensures forall o | o in m0.files && o != s :: o in m1.files && m1.files[o] == m0.files[o]
  {
    hide NamesIn, Key, FirstCluster, FileSize;
  }

  /** A directory just made: its entry has the name, attribute 0x10 and its cluster, and zeros else. */
  lemma MadeDirMeans(m: Model, m1: Model, dc: nat, name: Name, s: Slot, c: nat)
    requires MadeDir(m, m1, dc, name, s, c)
    ensures s.dir == dc && s !in m.ents && s in m1.ents && s in m1.own && m1.own[s] == [c]
    ensures c in m1.dirs && m1.dirs[c] == s && m1.files == m.files && m1.bad == m.bad && m1.lost == m.lost
    ensures c < 65536 && m1.ents[s] == NewEntry(name, 0x10, c)
    ensures forall o | o in m.ents :: o in m1.ents && m1.ents[o] == m.ents[o]
  {
    hide NamesIn, NewEntry;
  }

  /** The two clusters of a directory that could not be made: the table marks the one as the end of a chain, links
      the other to the end of the full directory's chain, and marks it as the end; nobody owns the first. */
  lemma LostByMeans(v: Volume, m: Model, v': Volume, m': Model, dc: nat, c: nat, d: nat)
    requires LostBy(v, m, v', m', dc, c, d) && 0xFF8 > |v.fat|
    ensures v.fat[c] == 0 && v.fat[d] == 0 && c != d
    ensures v'.fat[c] == if ChainOf(m, dc)[|ChainOf(m, dc)| - 1] == c then d else 0xFF8
    ensures m'.lost == m.lost + 1 && m'.ents == m.ents && m'.files == m.files && m'.dirs == m.dirs
    ensures Slot(1, m.lost) != m.dirs[dc] ==> Slot(1, m.lost) in m'.own && m'.own[Slot(1, m.lost)] == [c]
    ensures Slot(1, m.lost) != m.dirs[dc] && m.dirs[dc] in m.own ==>
              m.dirs[dc] in m'.own && m'.own[m.dirs[dc]] == m.own[m.dirs[dc]] + [d]
    ensures forall x | 0 <= x < |v.fat| && x != c && x != d && x != ChainOf(m, dc)[|ChainOf(m, dc)| - 1] ::
      v'.fat[x] == v.fat[x]
  {
  }
}
