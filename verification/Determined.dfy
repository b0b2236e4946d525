/** A volume determines what it means: with every descriptor closed there is one reading of the directories,
    the files and the chains, found by going down from the root. */
module Determined {
  import opened Sectors
  import opened FatDisk
  import opened Chains
  import opened Extents
  import opened Directory
  import opened FileSystem
  import opened Operations
  import opened Mounting

  /** Both readings see directory dc in the same place with the same chain. */
  ghost predicate SameDir(m: Model, m': Model, dc: nat) {
    && IsDirectory(m', dc) && ChainOf(m', dc) == ChainOf(m, dc)
    && (dc in m.dirs ==> dc in m'.dirs && m'.dirs[dc] == m.dirs[dc])
  }

  /** Both readings see entry s, with the same bytes and the same chain. */
  ghost predicate SameEntry(m: Model, m': Model, s: Slot) {
    s in m.ents && s in m'.ents && m'.ents[s] == m.ents[s] && s in m.own && s in m'.own && m'.own[s] == m.own[s]
  }

  lemma SameChain(fat: seq<nat>, own: map<Slot, seq<nat>>, own': map<Slot, seq<nat>>,
                  bad: set<nat>, bad': set<nat>, s: Slot)
    requires Conserved(fat, own, bad) && Conserved(fat, own', bad') && s in own && s in own'
    requires Head(own[s]) == Head(own'[s])
    ensures own'[s] == own[s]
  {
    assert own[s] != [] ==> IsChain(fat, own[s]) && own[s][0] >= 2;
    assert own'[s] != [] ==> IsChain(fat, own'[s]) && own'[s][0] >= 2;
    if own[s] != [] { ChainUnique(fat, own[s], own'[s]); }
  }

  lemma EntryAgrees(g: Geometry, v: Volume, fds: seq<FD>, m: Model, m': Model, s: Slot)
    requires Inv(g, v, fds, m) && Inv(g, v, fds, m') && AllClosed(fds)
    requires s in m.ents && SameDir(m, m', s.dir)
    ensures SameEntry(m, m', s)
  {
    hide Conserved, DirsOk, DescriptorsOk, FilesOk, DirSlots, Live, FirstCluster, IsDir;
    assert SlotsOf(g, v, m', s.dir) == SlotsOf(g, v, m, s.dir);
    assert s in m'.ents by { assert Slot(s.dir, s.idx) == s; }
    SameChain(v.fat, m.own, m'.own, m.bad, m'.bad, s);
  }

  lemma {:induction false} DirAgrees(g: Geometry, v: Volume, fds: seq<FD>, m: Model, m': Model, dc: nat, n: nat)
    requires Inv(g, v, fds, m) && Inv(g, v, fds, m') && AllClosed(fds) && Leads(m.dirs, dc, n)
    ensures SameDir(m, m', dc)
    decreases n
  {
    hide Conserved, EntsAreSlots, SlotsAreEnts, DirsOk, DescriptorsOk, FilesOk, FirstCluster;
    if dc != 0 {
      var s := m.dirs[dc];
      DirAgrees(g, v, fds, m, m', s.dir, n - 1);
      EntryAgrees(g, v, fds, m, m', s);
    }
  }

  /** Every entry one reading sees the other one sees. */
  lemma EntriesAgree(g: Geometry, v: Volume, fds: seq<FD>, m: Model, m': Model)
    requires Inv(g, v, fds, m) && Inv(g, v, fds, m') && AllClosed(fds)
    ensures forall s | s in m.ents :: SameEntry(m, m', s)
    ensures forall dc | dc in m.dirs :: SameDir(m, m', dc)
  {
    hide Linked, SlotsAreEnts, DirsOk, OwnersOk, DescriptorsOk, FilesOk, SlotsOf, Live, SameDir, SameEntry;
    forall dc | IsDirectory(m, dc) ensures SameDir(m, m', dc) {
      var n: nat := 0;
      if dc != 0 { n :| Leads(m.dirs, dc, n); }
      DirAgrees(g, v, fds, m, m', dc, n);
    }
    forall s | s in m.ents ensures SameEntry(m, m', s) { EntryAgrees(g, v, fds, m, m', s); }
  }

  lemma SameFile(g: Geometry, v: Volume, fds: seq<FD>, m: Model, m': Model, s: Slot)
    requires FilesOk(g, v, fds, m) && FilesOk(g, v, fds, m') && AllClosed(fds) && SameEntry(m, m', s)
    ensures s in m.files <==> s in m'.files
    ensures s in m.files ==> m'.files[s] == m.files[s]
  {
    hide ChainBytes, FileSize, IsDir;
  }

  lemma SameFiles(g: Geometry, v: Volume, fds: seq<FD>, m: Model, m': Model)
    requires FilesOk(g, v, fds, m) && FilesOk(g, v, fds, m') && AllClosed(fds) && m'.ents == m.ents
    requires forall s | s in m.ents :: SameEntry(m, m', s)
    ensures m'.files == m.files
  {
    hide SameEntry;
    forall s | s in m.ents ensures (s in m.files <==> s in m'.files) && (s in m.files ==> m'.files[s] == m.files[s]) {
      SameFile(g, v, fds, m, m', s);
    }
  }

  lemma SameBad<K(!new)>(fat: seq<nat>, own: map<K, seq<nat>>, own': map<K, seq<nat>>, bad: set<nat>, bad': set<nat>)
    requires Conserved(fat, own, bad) && Conserved(fat, own', bad')
    ensures bad' == bad
  {
  }

  lemma OwnedAlike<K(!new)>(fat: seq<nat>, own: map<K, seq<nat>>, own': map<K, seq<nat>>, bad: set<nat>, bad': set<nat>,
                            c: nat)
    requires Conserved(fat, own, bad) && Conserved(fat, own', bad') && Owned(own', c)
    ensures Owned(own, c)
  {
    var k :| k in own' && c in own'[k];
    assert IsChain(fat, own'[k]);
    assert 2 <= c < |fat|;
  }

  lemma SameMaps(m: Model, m': Model)
    requires forall s | s in m.ents :: SameEntry(m, m', s)
    requires forall s | s in m'.ents :: SameEntry(m', m, s)
    requires forall dc | dc in m.dirs :: SameDir(m, m', dc)
    requires forall dc | dc in m'.dirs :: SameDir(m', m, dc)
    ensures m'.ents == m.ents && m'.dirs == m.dirs
    ensures forall s | s in m.ents :: s in m.own && s in m'.own && m'.own[s] == m.own[s]
  {
  }

  lemma NoneLostSame(fds: seq<FD>, m: Model, m': Model)
    requires OwnersOk(fds, m) && OwnersOk(fds, m') && m.lost == m'.lost == 0 && m'.ents == m.ents
    requires forall s | s in m.ents :: s in m.own && s in m'.own && m'.own[s] == m.own[s]
    ensures m'.own == m.own
  {
    hide FirstCluster, IsDir;
  }

  /** With no cluster lost in one reading, every chain of the other belongs to an entry ... */
  lemma OwnedByEntry(g: Geometry, v: Volume, fds: seq<FD>, m: Model, m': Model, p: Slot)
    requires Inv(g, v, fds, m) && Inv(g, v, fds, m') && m.lost == 0 && p in m'.own && m'.own[p] != []
    requires forall s | s in m.ents :: SameEntry(m, m', s)
    ensures p in m'.ents
  {
    hide EntsAreSlots, SlotsAreEnts, DirsOk, DescriptorsOk, FilesOk, FirstCluster, IsDir;
    var c := m'.own[p][0];
    assert c in m'.own[p] && Owned(m'.own, c);
    OwnedAlike(v.fat, m.own, m'.own, m.bad, m'.bad, c);
    var s :| s in m.own && c in m.own[s];
    assert SameEntry(m, m', s);
    assert s != p ==> Disjoint(m'.own[s], m'.own[p]);
  }

  /** ... and none is lost in that one either. */
  lemma NoneLost(g: Geometry, v: Volume, fds: seq<FD>, m: Model, m': Model)
    requires Inv(g, v, fds, m) && Inv(g, v, fds, m') && m.lost == 0
    requires forall s | s in m.ents :: SameEntry(m, m', s)
    ensures m'.lost == 0
  {
    hide EntsAreSlots, SlotsAreEnts, DirsOk, DescriptorsOk, FilesOk, FirstCluster, IsDir, Linked, SameEntry;
    if m'.lost > 0 {
      LostNotDir(g, v, fds, m');
      assert |m'.own[Slot(1, m'.lost - 1)]| == 1;
      OwnedByEntry(g, v, fds, m, m', Slot(1, m'.lost - 1));
    }
  }

  /** The same directories, entries, files, chains of entries and bad clusters; everything if no cluster is lost. */
  ghost predicate SameReading(m: Model, m': Model) {
    && m'.ents == m.ents && m'.dirs == m.dirs && m'.files == m.files && m'.bad == m.bad
    && (forall s | s in m.ents :: s in m.own && s in m'.own && m'.own[s] == m.own[s])
    && (m.lost == 0 ==> m' == m)
  }

  /** The volume determines the bad clusters, and, once every descriptor is closed, all names, entries, files and
      chains. */
  lemma OneMeaning(g: Geometry, v: Volume, fds: seq<FD>, m: Model, m': Model)
    requires Inv(g, v, fds, m) && Inv(g, v, fds, m') && AllClosed(fds)
    ensures SameReading(m, m')
  {
    hide Conserved, EntsAreSlots, SlotsAreEnts, DirsOk, DescriptorsOk, FilesOk, OwnersOk, SameEntry, SameDir;
    EntriesAgree(g, v, fds, m, m');
    EntriesAgree(g, v, fds, m', m);
    SameMaps(m, m');
    SameFiles(g, v, fds, m, m');
    SameBad(v.fat, m.own, m'.own, m.bad, m'.bad);
    if m.lost == 0 {
      NoneLost(g, v, fds, m, m');
      NoneLostSame(fds, m, m');
    }
  }
}
