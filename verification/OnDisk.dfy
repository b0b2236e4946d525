/** What the meaning of a mounted volume says of the sectors of its disk, byte by byte. */
module OnDisk {
  import opened Sectors
  import opened FatDisk
  import opened Chains
  import opened Extents
  import opened Directory
  import opened FileSystem
  import opened Operations
  import opened Calls

  /** An entry of the table is twelve bits: for an even cluster a byte and the low half of the next, for an odd one
      the high half of a byte and the next. */
  lemma TableBytes(g: Geometry, d: Disk, c: nat)
    requires GeometryOk(g, |d|) && c < g.totalClusters + 2
    ensures var o := c * 3 / 2;
      && g.fatLba + (o + 1) / 512 < |d|
      && VolumeOf(g, d).fat[c] ==
           if c % 2 == 0
           then d[g.fatLba + o / 512][o % 512] as int + d[g.fatLba + (o + 1) / 512][(o + 1) % 512] as int % 16 * 256
           else d[g.fatLba + o / 512][o % 512] as int / 16 + d[g.fatLba + (o + 1) / 512][(o + 1) % 512] as int * 16
  {
    EntryInside(g, |d|, c);
    EntryOfVolume(g, d, c);
  }

  /** Where sector t of cluster c is. */
  lemma ClusterSectors(g: Geometry, d: Disk, c: nat, t: nat)
    requires GeometryOk(g, |d|) && 2 <= c < g.totalClusters + 2 && t < g.secPerClus
    ensures var l := g.dataLba + (c - 2) * g.secPerClus + t;
      g.dataLba <= l < |d| && VolumeOf(g, d).data[c][t] == d[l]
  {
    hide GeometryOk;
    DataSector(g, d, c, t);
    TimesIsProduct(c - 2, g.secPerClus);
  }

  /** Sector j of a chain is sector t of its cluster q. */
  lemma ChainSector(g: Geometry, v: Volume, chain: seq<nat>, q: nat, t: nat, j: nat)
    requires j == q * g.secPerClus + t && q < |chain| && t < g.secPerClus && VolumeOk(g, v) && IsChain(v.fat, chain)
    ensures 2 <= chain[q] < |v.data| && t < |v.data[chain[q]]|
    ensures |ChainSectors(v.data, chain)| == |chain| * g.secPerClus > j
    ensures ChainSectors(v.data, chain)[j] == v.data[chain[q]][t]
  {
    hide ChainSectors, Times;
    var w := g.secPerClus;
    ChainUniform(g, v, chain);
    ChainIndex(v.data, chain, w, q, t);
    TimesIsProduct(q, w);
    TimesIsProduct(|chain|, w);
  }

  /** The slots of the root directory. */
  lemma RootBytes(g: Geometry, d: Disk, m: Model, i: nat)
    requires GeometryOk(g, |d|) && 0 !in m.dirs && i < g.rootEntries
    ensures |SlotsOf(g, VolumeOf(g, d), m, 0)| == g.rootEntries && g.rootLba + i / 16 < |d|
    ensures SlotsOf(g, VolumeOf(g, d), m, 0)[i] == d[g.rootLba + i / 16][i % 16 * 32..i % 16 * 32 + 32]
  {
    RootSlot(g, d, i, []);
  }

  /** The slots of a subdirectory follow its chain: slot e of sector t of cluster q is slot j * 16 + e. */
  lemma SubdirBytes(g: Geometry, v: Volume, fds: seq<FD>, m: Model, dc: nat, q: nat, t: nat, j: nat, e: nat)
    requires j == q * g.secPerClus + t && t < g.secPerClus && e < 16 && dc in m.dirs && m.dirs[dc] in m.own
    requires q < |m.own[m.dirs[dc]]| && Inv(g, v, fds, m)
    ensures var chain, slots := m.own[m.dirs[dc]], SlotsOf(g, v, m, dc);
      && 2 <= chain[q] < |v.data| && t < |v.data[chain[q]]| && chain[0] == dc
      && |slots| == |chain| * g.secPerClus * 16 > j * 16 + e
      && slots[j * 16 + e] == v.data[chain[q]][t][e * 32..e * 32 + 32]
  {
    hide Inv, IsChain, ChainSectors;
    var chain := m.own[m.dirs[dc]];
    OwnedChain(g, v, fds, m, m.dirs[dc]);
    ChainSector(g, v, chain, q, t, j);
    assert SlotsOf(g, v, m, dc) == EntriesOf(ChainSectors(v.data, chain));
    EntryOf(ChainSectors(v.data, chain), j, e);
  }

  lemma EntryOf(secs: seq<Sector>, j: nat, e: nat)
    requires j < |secs| && e < 16
    ensures EntriesOf(secs)[j * 16 + e] == secs[j][e * 32..e * 32 + 32]
  {
    assert (j * 16 + e) / 16 == j && (j * 16 + e) % 16 == e;
  }

  lemma ByteOf(secs: seq<Sector>, j: nat, b: nat)
    requires j < |secs| && b < 512
    ensures BytesOf(secs)[j * 512 + b] == secs[j][b]
  {
    assert (j * 512 + b) / 512 == j && (j * 512 + b) % 512 == b;
  }

  lemma OwnedChain(g: Geometry, v: Volume, fds: seq<FD>, m: Model, s: Slot)
    requires Inv(g, v, fds, m) && s in m.own
    ensures m.own[s] == [] || IsChain(v.fat, m.own[s])
    ensures forall i | 0 <= i < |m.own[s]| :: 2 <= m.own[s][i] < g.totalClusters + 2
    ensures VolumeOk(g, v)
    ensures forall dc | dc in m.dirs && m.dirs[dc] == s :: m.own[s] != [] && m.own[s][0] == dc && dc != 0
  {
    hide EntsAreSlots, SlotsAreEnts, DirsOk, DescriptorsOk, FilesOk, FirstCluster, IsDir;
  }

  /** The bytes of a file follow its chain: byte b of sector t of cluster q is byte j * 512 + b. */
  lemma FileBytesAt(g: Geometry, v: Volume, fds: seq<FD>, m: Model, s: Slot, q: nat, t: nat, j: nat, b: nat)
    requires j == q * g.secPerClus + t && t < g.secPerClus && b < 512 && s in m.files && s in m.own
    requires q < |m.own[s]| && j * 512 + b < |m.files[s]| && Inv(g, v, fds, m)
    ensures var chain := m.own[s];
      && 2 <= chain[q] < |v.data| && t < |v.data[chain[q]]|
      && m.files[s][j * 512 + b] == v.data[chain[q]][t][b]
  {
    hide Inv, IsChain, ChainSectors;
    var chain := m.own[s];
    OwnedChain(g, v, fds, m, s);
    ChainSector(g, v, chain, q, t, j);
    FileInChain(g, v, fds, m, s);
    ByteOf(ChainSectors(v.data, chain), j, b);
  }

  lemma FileInChain(g: Geometry, v: Volume, fds: seq<FD>, m: Model, s: Slot)
    requires Inv(g, v, fds, m) && s in m.files
    ensures s in m.own && m.files[s] <= BytesOf(ChainSectors(v.data, m.own[s]))
  {
    hide Linked, EntsAreSlots, SlotsAreEnts, DirsOk, OwnersOk, DescriptorsOk;
  }

  /** A chain starts at the cluster its entry names, each link is what the table holds for the one before, and the
      last one's entry is at least 0xFF8. */
  lemma ChainLinks(g: Geometry, v: Volume, fds: seq<FD>, m: Model, s: Slot, i: nat)
    requires Inv(g, v, fds, m) && s in m.own && i < |m.own[s]|
    ensures 2 <= m.own[s][i] < |v.fat|
    ensures i + 1 < |m.own[s]| ==> v.fat[m.own[s][i]] == m.own[s][i + 1]
    ensures i + 1 == |m.own[s]| ==> v.fat[m.own[s][i]] >= 0xFF8
    ensures s in m.ents && !IsOpen(fds, s) ==> m.own[s][0] == m.ents[s][26] as int + 256 * m.ents[s][27] as int
  {
    hide EntsAreSlots, SlotsAreEnts, DirsOk, DescriptorsOk, FilesOk;
    assert IsChain(v.fat, m.own[s]) && LinkAt(v.fat, m.own[s], i);
  }

  /** An entry of the table is 0 exactly for a cluster in nobody's chain that is not marked bad, 0xFF7 exactly for a
      bad one. */
  lemma TableMeans(g: Geometry, v: Volume, fds: seq<FD>, m: Model, c: nat)
    requires Inv(g, v, fds, m) && 2 <= c < |v.fat|
    ensures v.fat[c] == 0xFF7 <==> c in m.bad
    ensures v.fat[c] == 0 <==> c !in m.bad && forall s | s in m.own :: c !in m.own[s]
  {
    hide EntsAreSlots, SlotsAreEnts, DirsOk, OwnersOk, DescriptorsOk, FilesOk, IsChain;
    assert Held(v.fat[c]) <==> Owned(m.own, c);
  }

  /** The slots of a directory that count are its entries, and their names in upper case are what it binds. */
  lemma EntriesMean(g: Geometry, v: Volume, fds: seq<FD>, m: Model, dc: nat, i: nat)
    requires Inv(g, v, fds, m) && (dc == 0 || dc in m.dirs) && i < |SlotsOf(g, v, m, dc)|
    ensures var e := SlotsOf(g, v, m, dc)[i];
      && (Slot(dc, i) in m.ents <==>
            e[0] != 0 && e[0] != 0xE5 && e[11] % 16 == 0
            && !(e[0] == 46 && (e[1] == 32 || (e[1] == 46 && e[2] == 32))))
      && (Slot(dc, i) in m.ents ==> m.ents[Slot(dc, i)] == e && Key(e) in NamesIn(m, dc) && NamesIn(m, dc)[Key(e)] == i)
    ensures forall n | n in NamesIn(m, dc) :: Slot(dc, NamesIn(m, dc)[n]) in m.ents
    ensures forall n, k | n in NamesIn(m, dc) && 0 <= k < 11 ::
      n[k] == if 97 <= m.ents[Slot(dc, NamesIn(m, dc)[n])][k] <= 122 then m.ents[Slot(dc, NamesIn(m, dc)[n])][k] - 32
              else m.ents[Slot(dc, NamesIn(m, dc)[n])][k]
  {
    hide Linked, DirsOk, OwnersOk, DescriptorsOk, FilesOk, SlotsOf, NamesIn;
    EntryFields(SlotsOf(g, v, m, dc)[i]);
    InvParts(g, v, fds, m);
    forall n, k | n in NamesIn(m, dc) && 0 <= k < 11
      ensures n[k] == Key(m.ents[Slot(dc, NamesIn(m, dc)[n])])[k]
    {
    }
  }

  /** Files are the entries without the directory bit; a file that is not open is as long as its entry says. The
      subdirectories are the entries with it, by their first cluster. */
  lemma FilesMean(g: Geometry, v: Volume, fds: seq<FD>, m: Model, s: Slot)
    requires Inv(g, v, fds, m) && s in m.ents
    ensures s in m.files <==> m.ents[s][11] / 16 % 2 == 0
    ensures s in m.files && !IsOpen(fds, s) ==>
      |m.files[s]| == m.ents[s][28] as int + 0x100 * m.ents[s][29] as int + 0x1_0000 * m.ents[s][30] as int
                      + 0x100_0000 * m.ents[s][31] as int
    ensures m.ents[s][11] / 16 % 2 == 1 ==>
      s in m.own && m.own[s] != [] && m.own[s][0] in m.dirs && m.dirs[m.own[s][0]] == s
    ensures forall dc | dc in m.dirs :: m.dirs[dc] in m.ents && m.ents[m.dirs[dc]][11] / 16 % 2 == 1
  {
    hide Conserved, EntsAreSlots, SlotsAreEnts, DirsOk, DescriptorsOk, ChainBytes;
    EntryFields(m.ents[s]);
  }
}
