/** Steps that rewrite one directory slot, and what they mean for the directories, the owners
    and the files. */
module EntrySteps {
  import opened Sectors
  import opened FatDisk
  import opened Lists
  import opened Chains
  import opened Extents
  import opened Directory
  import opened FileSystem
  import opened FileSteps

  /** One slot of one directory is rewritten; nothing else on the volume changes. */
  ghost predicate SlotWritten(g: Geometry, v: Volume, v': Volume, dc: nat, chain: seq<nat>, i: nat, e: Raw) {
    && VolumeOk(g, v')
    && |v'.data| == |v.data|
    && v'.fat == v.fat
    && (dc != 0 ==> v'.root == v.root)
    && (dc == 0 ==> v'.data == v.data)
    && (forall c | 0 <= c < |v.data| && c !in chain :: v'.data[c] == v.data[c])
    && i < |DirSlots(g, v, dc, chain)|
    && DirSlots(g, v', dc, chain) == DirSlots(g, v, dc, chain)[i := e]
  }

  /** Directories in place, tabulated and in order. */
  ghost predicate Tables(g: Geometry, v: Volume, m: Model) {
    Linked(g, v, m) && TableOk(g, v, m) && DirsOk(g, v, m)
  }

  lemma ChainWithin(g: Geometry, v: Volume, m: Model, dc: nat)
    requires Linked(g, v, m)
    ensures Within(ChainOf(m, dc), |v.data|) && Distinct(ChainOf(m, dc))
    ensures Uniform(v.data, ChainOf(m, dc), g.secPerClus)
    ensures dc in m.dirs ==> IsChain(v.fat, ChainOf(m, dc)) && ChainOf(m, dc)[0] == dc
  {
    if dc in m.dirs { OwnWithin(g, v, m, m.dirs[dc]); }
  }

  /** The other directories keep their slots. */
  lemma OtherSlots(g: Geometry, v: Volume, v': Volume, m: Model, dc: nat, i: nat, e: Raw, o: nat)
    requires Linked(g, v, m) && Linked(g, v', m) && IsDirectory(m, dc) && IsDirectory(m, o) && o != dc
    requires SlotWritten(g, v, v', dc, ChainOf(m, dc), i, e)
    ensures SlotsOf(g, v', m, o) == SlotsOf(g, v, m, o)
  {
    if o != 0 {
      if dc != 0 { assert m.dirs[o] != m.dirs[dc]; assert Disjoint(m.own[m.dirs[o]], m.own[m.dirs[dc]]); }
      BytesFrame(v.data, v'.data, ChainOf(m, dc), m.own[m.dirs[o]]);
    }
  }

  /** Chains that are not the written directory's keep their bytes. */
  lemma OtherBytes(g: Geometry, v: Volume, v': Volume, m: Model, dc: nat, i: nat, e: Raw, s: Slot)
    requires Linked(g, v, m) && IsDirectory(m, dc) && s in m.own && (dc in m.dirs ==> s != m.dirs[dc])
    requires SlotWritten(g, v, v', dc, ChainOf(m, dc), i, e)
    ensures Within(m.own[s], |v'.data|)
    ensures ChainBytes(v'.data, m.own[s]) == ChainBytes(v.data, m.own[s])
  {
    OwnWithin(g, v, m, s);
    if dc != 0 { assert Disjoint(m.own[s], m.own[m.dirs[dc]]); }
    BytesFrame(v.data, v'.data, ChainOf(m, dc), m.own[s]);
  }

  function SetEnt(ents: map<Slot, Raw>, s: Slot, e: Raw): map<Slot, Raw> {
    if Live(e) then ents[s := e] else ents - {s}
  }

  lemma WriteSlotsAreEnts(g: Geometry, v: Volume, v': Volume, m: Model, m': Model, dc: nat, i: nat, e: Raw)
    requires Linked(g, v, m) && TableOk(g, v, m) && Linked(g, v', m') && IsDirectory(m, dc)
    requires m'.dirs == m.dirs && m'.ents == SetEnt(m.ents, Slot(dc, i), e)
    requires i < |SlotsOf(g, v, m, dc)| && SlotsOf(g, v', m', dc) == SlotsOf(g, v, m, dc)[i := e]
    requires forall o | IsDirectory(m, o) && o != dc :: SlotsOf(g, v', m', o) == SlotsOf(g, v, m, o)
    ensures SlotsAreEnts(g, v', m')
  {
    hide Linked, SlotsOf, Live;
    forall o, j | IsDirectory(m', o) && 0 <= j < |SlotsOf(g, v', m', o)| && Live(SlotsOf(g, v', m', o)[j])
      ensures Slot(o, j) in m'.ents
    {
      assert IsDirectory(m, o);
      if o != dc || j != i {
        assert Live(SlotsOf(g, v, m, o)[j]);
        assert Slot(o, j) in m.ents;
      }
    }
  }

  lemma WriteEntsAreSlots(g: Geometry, v: Volume, v': Volume, m: Model, m': Model, dc: nat, i: nat, e: Raw)
    requires Linked(g, v, m) && TableOk(g, v, m) && Linked(g, v', m') && IsDirectory(m, dc)
    requires m'.dirs == m.dirs && m'.ents == SetEnt(m.ents, Slot(dc, i), e)
    requires i < |SlotsOf(g, v, m, dc)| && SlotsOf(g, v', m', dc) == SlotsOf(g, v, m, dc)[i := e]
    requires forall o | IsDirectory(m, o) && o != dc :: SlotsOf(g, v', m', o) == SlotsOf(g, v, m, o)
    ensures EntsAreSlots(g, v', m')
  {
    hide Linked, SlotsOf, Live;
    forall s | s in m'.ents
      ensures IsDirectory(m', s.dir) && s.idx < |SlotsOf(g, v', m', s.dir)|
      ensures SlotsOf(g, v', m', s.dir)[s.idx] == m'.ents[s] && Live(m'.ents[s])
    {
      if s != Slot(dc, i) { assert s in m.ents && IsDirectory(m, s.dir); }
    }
  }

  /** Dropping or adding owners that hold no directory leaves the directories as they are. */
  lemma ReownTables(g: Geometry, v: Volume, v': Volume, m: Model, own': map<Slot, seq<nat>>)
    requires Tables(g, v, m)
    requires VolumeOk(g, v') && v'.root == v.root && Conserved(v'.fat, own', m.bad)
    requires forall dc | dc in m.dirs :: m.dirs[dc] in own' && own'[m.dirs[dc]] == m.own[m.dirs[dc]]
    requires forall dc, c | dc in m.dirs && c in m.own[m.dirs[dc]] :: v'.data[c] == v.data[c]
    ensures Tables(g, v', m.(own := own'))
    ensures forall dc | IsDirectory(m, dc) :: SlotsOf(g, v', m.(own := own'), dc) == SlotsOf(g, v, m, dc)
  {
    var m' := m.(own := own');
    forall dc | IsDirectory(m, dc) ensures SlotsOf(g, v', m', dc) == SlotsOf(g, v, m, dc) {
      ChainWithin(g, v, m, dc);
      if dc != 0 {
        var s := m.own[m.dirs[dc]];
        forall i | 0 <= i < |s| ensures v'.data[s[i]] == v.data[s[i]] { assert s[i] in s; }
        ChainSectorsFrame(v.data, v'.data, s);
      }
    }
    SameSlots(g, v, v', m, m');
  }

  ghost predicate AllEnd(slots: seq<Raw>) {
    forall i | 0 <= i < |slots| :: IsEnd(slots[i])
  }

  lemma ZeroSlots(secs: seq<Sector>)
    requires forall t | 0 <= t < |secs| :: secs[t] == ZeroSector()
    ensures AllEnd(EntriesOf(secs))
  {
    forall i | 0 <= i < |EntriesOf(secs)| ensures IsEnd(EntriesOf(secs)[i]) {
      assert EntriesOf(secs)[i] == EntryAt(secs, i);
    }
  }

  lemma NewDirSlots(g: Geometry, v: Volume, m: Model, c: nat, s: Slot)
    requires Linked(g, v, m) && s in m.own && m.own[s] == [c] && c > 0 && c !in m.dirs
    requires c < |v.data| && forall t | 0 <= t < |v.data[c]| :: v.data[c][t] == ZeroSector()
    ensures Linked(g, v, m.(dirs := m.dirs[c := s]))
    ensures AllEnd(SlotsOf(g, v, m.(dirs := m.dirs[c := s]), c))
    ensures forall dc | IsDirectory(m, dc) :: SlotsOf(g, v, m.(dirs := m.dirs[c := s]), dc) == SlotsOf(g, v, m, dc)
  {
    assert ChainSectors(v.data, [c]) == v.data[c] by { assert [c][..0] == []; }
    ZeroSlots(v.data[c]);
  }

  /** A new directory of end marks. */
  lemma AddDirTables(g: Geometry, v: Volume, m: Model, c: nat, s: Slot)
    requires Tables(g, v, m) && s in m.own && m.own[s] == [c] && c > 0 && c !in m.dirs
    requires c < |v.data| && forall t | 0 <= t < |v.data[c]| :: v.data[c][t] == ZeroSector()
    ensures Tables(g, v, m.(dirs := m.dirs[c := s]))
    ensures AllEnd(SlotsOf(g, v, m.(dirs := m.dirs[c := s]), c))
    ensures forall dc | IsDirectory(m, dc) :: SlotsOf(g, v, m.(dirs := m.dirs[c := s]), dc) == SlotsOf(g, v, m, dc)
  {
    var m' := m.(dirs := m.dirs[c := s]);
    NewDirSlots(g, v, m, c, s);
    forall dc | IsDirectory(m', dc) ensures DirOk(SlotsOf(g, v, m', dc), MaxEnts(g, dc)) {
      if dc == c { AllEndOk(SlotsOf(g, v, m', c), MaxEnts(g, c)); } else { assert IsDirectory(m, dc); }
    }
    assert SlotsAreEnts(g, v, m') by {
      forall dc, i | IsDirectory(m', dc) && 0 <= i < |SlotsOf(g, v, m', dc)| && Live(SlotsOf(g, v, m', dc)[i])
        ensures Slot(dc, i) in m'.ents
      {
        if dc != c { assert IsDirectory(m, dc); }
      }
    }
    assert EntsAreSlots(g, v, m');
  }

  lemma AllEndOk(slots: seq<Raw>, limit: nat)
    requires AllEnd(slots)
    ensures DirOk(slots, limit)
  {
  }

  /** Forgetting a directory without live entries. */
  lemma DropDirTables(g: Geometry, v: Volume, m: Model, dc: nat)
    requires Tables(g, v, m) && dc in m.dirs
    requires forall s | s in m.ents :: s.dir != dc
    ensures Tables(g, v, m.(dirs := m.dirs - {dc}))
    ensures forall o | IsDirectory(m, o) && o != dc ::
      SlotsOf(g, v, m.(dirs := m.dirs - {dc}), o) == SlotsOf(g, v, m, o)
  {
    hide Conserved, DirSlots, DirOk, Live;
    var m' := m.(dirs := m.dirs - {dc});
    ChainWithin(g, v, m, dc);
    assert dc != 0;
    forall o | IsDirectory(m, o) && o != dc ensures SlotsOf(g, v, m', o) == SlotsOf(g, v, m, o) {}
    forall o | IsDirectory(m', o) ensures DirOk(SlotsOf(g, v, m', o), MaxEnts(g, o)) {
      assert IsDirectory(m, o) && o != dc;
    }
    forall o, i | IsDirectory(m', o) && 0 <= i < |SlotsOf(g, v, m', o)| && Live(SlotsOf(g, v, m', o)[i])
      ensures Slot(o, i) in m'.ents
    {
      assert IsDirectory(m, o) && o != dc;
    }
  }
}
