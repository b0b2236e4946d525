/** Steps that change one file's chain and bytes keep everything else. */
module FileSteps {
  import opened Sectors
  import opened FatDisk
  import opened Chains
  import opened Extents
  import opened Directory
  import opened FileSystem

  /** File s grows its chain and is rewritten inside it; no other cluster's data changes. */
  ghost predicate FileStep(g: Geometry, v: Volume, v': Volume, m: Model, s: Slot, chain: seq<nat>) {
    && VolumeOk(g, v')
    && s in m.own
    && Conserved(v'.fat, m.own[s := chain], m.bad)
    && m.own[s] <= chain
    && v'.root == v.root
    && |v'.data| == |v.data|
    && (forall c | 0 <= c < |v.data| && c !in chain :: v'.data[c] == v.data[c])
  }

  lemma FileStepLinked(g: Geometry, v: Volume, v': Volume, fds: seq<FD>, m: Model, s: Slot, chain: seq<nat>)
    requires Linked(g, v, m) && OwnersOk(fds, m) && FileStep(g, v, v', m, s, chain)
    requires s in m.ents && !IsDir(m.ents[s])
    ensures Linked(g, v', m.(own := m.own[s := chain]))
  {
  }

  lemma FileStepSlots(g: Geometry, v: Volume, v': Volume, fds: seq<FD>, m: Model, s: Slot, chain: seq<nat>, dc: nat)
    requires Linked(g, v, m) && OwnersOk(fds, m) && FileStep(g, v, v', m, s, chain)
    requires s in m.ents && !IsDir(m.ents[s]) && IsDirectory(m, dc)
    requires Linked(g, v', m.(own := m.own[s := chain]))
    ensures SlotsOf(g, v', m.(own := m.own[s := chain]), dc) == SlotsOf(g, v, m, dc)
  {
    if dc != 0 {
      var own' := m.own[s := chain];
      assert m.dirs[dc] != s;
      assert Disjoint(own'[m.dirs[dc]], own'[s]);
      BytesFrame(v.data, v'.data, chain, m.own[m.dirs[dc]]);
    }
  }

  lemma FileStepBytes(g: Geometry, v: Volume, v': Volume, m: Model, s: Slot, chain: seq<nat>, o: Slot)
    requires Linked(g, v, m) && FileStep(g, v, v', m, s, chain)
    requires o in m.own && o != s
    ensures Within(m.own[o], |v.data|)
    ensures ChainBytes(v'.data, m.own[o]) == ChainBytes(v.data, m.own[o])
  {
    var own' := m.own[s := chain];
    assert own'[o] == m.own[o];
    assert Disjoint(own'[o], own'[s]);
    OwnWithin(g, v, m, o);
    BytesFrame(v.data, v'.data, chain, m.own[o]);
  }

  /** Same directories with the same slots: the tables stay as they are. */
  lemma SameSlots(g: Geometry, v: Volume, v': Volume, m: Model, m': Model)
    requires Linked(g, v, m) && Linked(g, v', m') && TableOk(g, v, m) && DirsOk(g, v, m)
    requires m'.dirs == m.dirs && m'.ents == m.ents
    requires forall dc | IsDirectory(m, dc) :: SlotsOf(g, v', m', dc) == SlotsOf(g, v, m, dc)
    ensures TableOk(g, v', m') && DirsOk(g, v', m')
  {
    forall dc | IsDirectory(m', dc) ensures DirOk(SlotsOf(g, v', m', dc), MaxEnts(g, dc)) {
      assert IsDirectory(m, dc);
    }
    forall dc, i | IsDirectory(m', dc) && 0 <= i < |SlotsOf(g, v', m', dc)| && Live(SlotsOf(g, v', m', dc)[i])
      ensures Slot(dc, i) in m'.ents
    {
      assert IsDirectory(m, dc) && Live(SlotsOf(g, v, m, dc)[i]);
    }
  }

  lemma FileStepFiles(g: Geometry, v: Volume, v': Volume, fds: seq<FD>, fds': seq<FD>, m: Model, s: Slot,
                      chain: seq<nat>, content: seq<Byte>)
    requires Linked(g, v, m) && FileStep(g, v, v', m, s, chain) && FilesOk(g, v, fds, m)
    requires Linked(g, v', m.(own := m.own[s := chain]))
    requires s in m.files && IsOpen(fds, s) && forall o :: IsOpen(fds', o) <==> IsOpen(fds, o)
    requires Within(chain, |v'.data|) && content <= ChainBytes(v'.data, chain)
    ensures FilesOk(g, v', fds', m.(own := m.own[s := chain], files := m.files[s := content]))
  {
    hide Conserved, FirstCluster, FileSize, IsDir;
    forall o | o in m.files && o != s ensures m.files[o] <= ChainBytes(v'.data, m.own[o]) {
      FileStepBytes(g, v, v', m, s, chain, o);
    }
  }

  lemma FileStepDescriptors(fds: seq<FD>, m: Model, k: nat, chain: seq<nat>, content: seq<Byte>, pos: nat)
    requires DescriptorsOk(fds, m) && k < |fds| && fds[k].used && pos <= |content|
    ensures var s := fds[k].At();
            DescriptorsOk(fds[k := fds[k].(first := Head(chain), size := |content|, pos := pos)],
                          m.(own := m.own[s := chain], files := m.files[s := content]))
  {
  }

  /** The whole step: an open file's chain, contents and descriptor move together. */
  lemma FileStepInv(g: Geometry, v: Volume, v': Volume, fds: seq<FD>, m: Model, k: nat,
                    chain: seq<nat>, content: seq<Byte>, pos: nat)
    requires Inv(g, v, fds, m) && k < |fds| && fds[k].used
    requires var s := fds[k].At(); FileStep(g, v, v', m, s, chain)
    requires Within(chain, |v'.data|) && content <= ChainBytes(v'.data, chain) && pos <= |content|
    ensures var s := fds[k].At();
            Inv(g, v', fds[k := fds[k].(first := Head(chain), size := |content|, pos := pos)],
                m.(own := m.own[s := chain], files := m.files[s := content]))
  {
    var s := fds[k].At();
    var m' := m.(own := m.own[s := chain], files := m.files[s := content]);
    var fds' := fds[k := fds[k].(first := Head(chain), size := |content|, pos := pos)];
    assert s in m.files;
    FileStepLinked(g, v, v', fds, m, s, chain);
    forall dc | IsDirectory(m, dc) ensures SlotsOf(g, v', m', dc) == SlotsOf(g, v, m, dc) {
      FileStepSlots(g, v, v', fds, m, s, chain, dc);
    }
    SameSlots(g, v, v', m, m');
    OpenSame(fds, k, fds'[k]);
    assert IsOpen(fds, s);
    FileStepOwners(fds, fds', m, m', s);
    FileStepFiles(g, v, v', fds, fds', m, s, chain, content);
    FileStepDescriptors(fds, m, k, chain, content, pos);
  }

  /** Changing a descriptor without moving it leaves the same slots open. */
  lemma OpenSame(fds: seq<FD>, k: nat, f: FD)
    requires k < |fds| && f.used == fds[k].used && f.At() == fds[k].At()
    ensures forall s :: IsOpen(fds[k := f], s) <==> IsOpen(fds, s)
  {
    forall s ensures IsOpen(fds[k := f], s) <==> IsOpen(fds, s) {
      if IsOpen(fds, s) {
        var i :| 0 <= i < |fds| && fds[i].used && fds[i].At() == s;
        assert fds[k := f][i].used && fds[k := f][i].At() == s;
      }
    }
  }

  lemma FileStepOwners(fds: seq<FD>, fds': seq<FD>, m: Model, m': Model, s: Slot)
    requires OwnersOk(fds, m) && s in m.ents && !IsDir(m.ents[s]) && s in m.own && s in m'.own
    requires m'.own == m.own[s := m'.own[s]] && m.own[s] <= m'.own[s]
    requires m'.dirs == m.dirs && m'.ents == m.ents && m'.lost == m.lost
    requires IsOpen(fds, s) && forall o :: IsOpen(fds', o) <==> IsOpen(fds, o)
    ensures OwnersOk(fds', m')
  {
  }
}
