/** What a mounted volume means: which chains its entries own, the directories as maps,
    the files as byte strings. `Inv` ties this meaning to the volume and the descriptors. */
module FileSystem {
  import opened Sectors
  import opened FatDisk
  import opened Lists
  import opened Chains
  import opened Extents
  import opened Directory

  const SUBDIR_MAX_ENTS := 10000
  const MAX_FDS := 16

  /** An entry's place: the directory's first cluster (0 for the root) and the slot number. */
  datatype Slot = Slot(dir: nat, idx: nat)

  datatype FD = FD(used: bool, first: nat, size: nat, pos: nat, dir: nat, idx: nat)
  {
    function At(): Slot { Slot(dir, idx) }
  }

  /** own: the chain of each live entry (and each lost cluster, kept under Slot(1, k) as a chain of its own);
      dirs: the entry of each subdirectory, by first cluster; ents: the live entries;
      files: the contents of each file, open or not; lost: how many clusters have no owner;
      bad: the clusters marked bad. */
  datatype Model = Model(
    own: map<Slot, seq<nat>>, dirs: map<nat, Slot>, ents: map<Slot, Raw>,
    files: map<Slot, seq<Byte>>, lost: nat, bad: set<nat>)

  function Head(s: seq<nat>): nat { if s == [] then 0 else s[0] }

  function MaxEnts(g: Geometry, dc: nat): nat {
    if dc == 0 then g.rootEntries else SUBDIR_MAX_ENTS
  }

  ghost predicate IsOpen(fds: seq<FD>, s: Slot) {
    exists i :: 0 <= i < |fds| && fds[i].used && fds[i].At() == s
  }

  ghost predicate IsDirectory(m: Model, dc: nat) { dc == 0 || dc in m.dirs }

  /** Chains and subdirectories are in place. */
  ghost predicate Linked(g: Geometry, v: Volume, m: Model) {
    && VolumeOk(g, v)
    && Conserved(v.fat, m.own, m.bad)
    && (forall dc | dc in m.dirs :: m.dirs[dc] in m.own && m.own[m.dirs[dc]] != [] && m.own[m.dirs[dc]][0] == dc)
  }

  /** The chain of a subdirectory; the root has none. */
  ghost function ChainOf(m: Model, dc: nat): seq<nat> {
    if dc in m.dirs && m.dirs[dc] in m.own then m.own[m.dirs[dc]] else []
  }

  /** The slots of a directory with the given chain; the root has a fixed place instead. */
  ghost function DirSlots(g: Geometry, v: Volume, dc: nat, chain: seq<nat>): seq<Raw> {
    if dc != 0 then EntriesOf(ChainSectors(v.data, chain))
    else if g.rootEntries <= |v.root| * 16 then EntriesOf(v.root)[..g.rootEntries]
    else []
  }

  ghost function SlotsOf(g: Geometry, v: Volume, m: Model, dc: nat): seq<Raw> {
    DirSlots(g, v, dc, ChainOf(m, dc))
  }

  /** Every recorded entry is a live slot of a directory ... */
  ghost predicate EntsAreSlots(g: Geometry, v: Volume, m: Model) {
    forall s | s in m.ents :: IsDirectory(m, s.dir) && s.idx < |SlotsOf(g, v, m, s.dir)|
                              && SlotsOf(g, v, m, s.dir)[s.idx] == m.ents[s] && Live(m.ents[s])
  }

  /** ... and every live slot is recorded. */
  ghost predicate SlotsAreEnts(g: Geometry, v: Volume, m: Model) {
    forall dc, i | IsDirectory(m, dc) && 0 <= i < |SlotsOf(g, v, m, dc)| && Live(SlotsOf(g, v, m, dc)[i]) ::
      Slot(dc, i) in m.ents
  }

  ghost predicate TableOk(g: Geometry, v: Volume, m: Model) {
    EntsAreSlots(g, v, m) && SlotsAreEnts(g, v, m)
  }

  ghost predicate DirsOk(g: Geometry, v: Volume, m: Model) {
    forall dc | IsDirectory(m, dc) :: DirOk(SlotsOf(g, v, m, dc), MaxEnts(g, dc))
  }

  ghost predicate OwnersOk(fds: seq<FD>, m: Model) {
    && 0 !in m.dirs && 1 !in m.dirs
    && (forall s :: s in m.own <==> s in m.ents || (s.dir == 1 && s.idx < m.lost))
    && (forall s | s in m.own && s !in m.ents :: |m.own[s]| == 1)
    && (forall s | s in m.ents ::
          FirstCluster(m.ents[s]) == Head(m.own[s]) || (FirstCluster(m.ents[s]) == 0 && IsOpen(fds, s)))
    && (forall s | s in m.ents && IsDir(m.ents[s]) ::
          Head(m.own[s]) in m.dirs && m.dirs[Head(m.own[s])] == s)
    && (forall dc | dc in m.dirs :: m.dirs[dc] in m.ents && IsDir(m.ents[m.dirs[dc]]))
  }

  ghost predicate DescriptorsOk(fds: seq<FD>, m: Model) {
    && |fds| == MAX_FDS
    && (forall i | 0 <= i < |fds| && fds[i].used ::
          && fds[i].At() in m.files && fds[i].At() in m.own
          && fds[i].first == Head(m.own[fds[i].At()])
          && fds[i].pos <= fds[i].size == |m.files[fds[i].At()]|)
    && (forall i, j | 0 <= i < j < |fds| && fds[i].used && fds[j].used :: fds[i].At() != fds[j].At())
  }

  ghost predicate FilesOk(g: Geometry, v: Volume, fds: seq<FD>, m: Model) {
    && (forall s :: s in m.files <==> s in m.ents && !IsDir(m.ents[s]))
    && (forall s | s in m.files :: s in m.own && m.files[s] <= ChainBytes(v.data, m.own[s]))
    && (forall s | s in m.files && s in m.ents :: IsOpen(fds, s) || FileSize(m.ents[s]) == |m.files[s]|)
  }

  /** Going up from entry to directory, dc leads to the root in at most n steps. */
  ghost predicate Leads(dirs: map<nat, Slot>, dc: nat, n: nat)
    decreases n
  {
    dc == 0 || (n > 0 && dc in dirs && Leads(dirs, dirs[dc].dir, n - 1))
  }

  /** Every directory hangs below the root: no directories own each other's entries in a circle. */
  ghost predicate Rooted(dirs: map<nat, Slot>) {
    forall dc | dc in dirs :: exists n :: Leads(dirs, dc, n)
  }

  ghost predicate Inv(g: Geometry, v: Volume, fds: seq<FD>, m: Model) {
    && Linked(g, v, m)
    && TableOk(g, v, m)
    && DirsOk(g, v, m)
    && OwnersOk(fds, m)
    && DescriptorsOk(fds, m)
    && FilesOk(g, v, fds, m)
    && Rooted(m.dirs)
  }

  // ----- directories below the root -----

  lemma {:induction false} LeadsMore(dirs: map<nat, Slot>, dirs': map<nat, Slot>, dc: nat, n: nat)
    requires Leads(dirs, dc, n) && forall d | d in dirs :: d in dirs' && dirs'[d] == dirs[d]
    ensures Leads(dirs', dc, n)
    decreases n
  {
    if dc != 0 { LeadsMore(dirs, dirs', dirs[dc].dir, n - 1); }
  }

  /** A new directory below one there is. */
  lemma RootedAdd(dirs: map<nat, Slot>, c: nat, s: Slot)
    requires Rooted(dirs) && c !in dirs && (s.dir == 0 || s.dir in dirs)
    ensures Rooted(dirs[c := s])
  {
    var dirs' := dirs[c := s];
    forall dc | dc in dirs' ensures exists n :: Leads(dirs', dc, n) {
      if dc != c {
        var n :| Leads(dirs, dc, n);
        LeadsMore(dirs, dirs', dc, n);
      } else {
        var n: nat := 0;
        if s.dir != 0 { n :| Leads(dirs, s.dir, n); }
        LeadsMore(dirs, dirs', s.dir, n);
        assert Leads(dirs', c, n + 1);
      }
    }
  }

  lemma {:induction false} LeadsLess(dirs: map<nat, Slot>, gone: nat, dc: nat, n: nat)
    requires Leads(dirs, dc, n) && dc != gone && gone != 0
    requires forall d | d in dirs :: dirs[d].dir != gone
    ensures Leads(dirs - {gone}, dc, n)
    decreases n
  {
    if dc != 0 { LeadsLess(dirs, gone, dirs[dc].dir, n - 1); }
  }

  /** Taking away a directory without subdirectories. */
  lemma RootedDrop(dirs: map<nat, Slot>, gone: nat)
    requires Rooted(dirs) && gone != 0 && forall d | d in dirs :: dirs[d].dir != gone
    ensures Rooted(dirs - {gone})
  {
    forall dc | dc in dirs - {gone} ensures exists n :: Leads(dirs - {gone}, dc, n) {
      var n :| Leads(dirs, dc, n);
      LeadsLess(dirs, gone, dc, n);
    }
  }

  // ----- framing -----

  /** A change confined to the clusters of `touched`, disjoint from the chain. */
  lemma BytesFrame(data: seq<seq<Sector>>, data': seq<seq<Sector>>, touched: seq<nat>, s: seq<nat>)
    requires |data'| == |data| && Within(s, |data|)
    requires forall c | 0 <= c < |data| && c !in touched :: data'[c] == data[c]
    requires Disjoint(s, touched)
    ensures ChainSectors(data', s) == ChainSectors(data, s)
    ensures ChainBytes(data', s) == ChainBytes(data, s)
  {
    forall i | 0 <= i < |s| ensures data'[s[i]] == data[s[i]] { assert s[i] in s; }
    ChainSectorsFrame(data, data', s);
  }

  lemma OwnWithin(g: Geometry, v: Volume, m: Model, s: Slot)
    requires Linked(g, v, m) && s in m.own
    ensures Within(m.own[s], |v.data|) && Uniform(v.data, m.own[s], g.secPerClus) && Distinct(m.own[s])
  {
    if m.own[s] != [] { ChainDistinct(v.fat, m.own[s]); }
  }
}
