/** What each operation's writes, taken together, do to the file system's meaning. */
module Operations {
  import opened Sectors
  import opened FatDisk
  import opened Chains
  import opened Extents
  import opened Directory
  import opened FileSystem
  import opened FileSteps
  import opened EntrySteps

  /** Slot i of directory dc is the first one free to take. */
  ghost predicate TakesSlot(g: Geometry, v: Volume, m: Model, dc: nat, i: nat) {
    var slots := SlotsOf(g, v, m, dc);
    && i < |slots| && i < MaxEnts(g, dc)
    && (IsEnd(slots[i]) || IsFree(slots[i]))
    && (forall j | 0 <= j < i :: !IsEnd(slots[j]))
  }

  /** Within a directory no two live entries are found by the same name. */
  ghost predicate KeysUnique(m: Model) {
    forall s, o | s in m.ents && o in m.ents && s.dir == o.dir && s != o :: Key(m.ents[s]) != Key(m.ents[o])
  }

  /** The directory dc as a map from names to slot numbers. */
  ghost function NamesIn(m: Model, dc: nat): (r: map<Name, nat>)
    ensures forall n | n in r :: Slot(dc, r[n]) in m.ents && Key(m.ents[Slot(dc, r[n])]) == n
    ensures KeysUnique(m) ==>
              forall s | s in m.ents && s.dir == dc :: Key(m.ents[s]) in r && r[Key(m.ents[s])] == s.idx
  {
    if KeysUnique(m) then map s | s in m.ents && s.dir == dc :: Key(m.ents[s]) := s.idx else map[]
  }

  /** The map is determined by what it says of each entry. */
  lemma NamesInUnique(m: Model, dc: nat, b: map<Name, nat>)
    requires KeysUnique(m)
    requires forall n | n in b :: Slot(dc, b[n]) in m.ents && Key(m.ents[Slot(dc, b[n])]) == n
    requires forall s | s in m.ents && s.dir == dc :: Key(m.ents[s]) in b
    ensures NamesIn(m, dc) == b
  {
    hide Key, NamesIn, KeysUnique;
    var a := NamesIn(m, dc);
    forall n | n in b ensures n in a && a[n] == b[n] { assert Slot(dc, b[n]) in m.ents; }
    forall n | n in a ensures n in b { assert Slot(dc, a[n]) in m.ents; }
    assert a.Keys == b.Keys;
  }

  /** The recorded map is the one the slots on disk give. */
  lemma NamesBridge(g: Geometry, v: Volume, m: Model, dc: nat)
    requires Tables(g, v, m) && IsDirectory(m, dc)
    ensures KeysUnique(m)
    ensures NamesOf(SlotsOf(g, v, m, dc), MaxEnts(g, dc)) == NamesIn(m, dc)
  {
    hide Linked, SlotsOf, Live, Key, NamesIn;
    forall s, o | s in m.ents && o in m.ents && s.dir == o.dir && s != o ensures Key(m.ents[s]) != Key(m.ents[o]) {
      var slots := SlotsOf(g, v, m, s.dir);
      assert slots[s.idx] == m.ents[s] && slots[o.idx] == m.ents[o];
      assert DirOk(slots, MaxEnts(g, s.dir));
    }
    NamesBridgeAt(g, v, m, dc);
  }

  lemma NamesBridgeAt(g: Geometry, v: Volume, m: Model, dc: nat)
    requires Tables(g, v, m) && IsDirectory(m, dc) && KeysUnique(m)
    ensures NamesOf(SlotsOf(g, v, m, dc), MaxEnts(g, dc)) == NamesIn(m, dc)
  {
    hide Linked, SlotsOf, Live, Key, DirOk, KeysUnique, NamesIn;
    var slots, names := SlotsOf(g, v, m, dc), NamesIn(m, dc);
    forall i | 0 <= i < |slots| && Live(slots[i]) ensures Key(slots[i]) in names {
      assert Slot(dc, i) in m.ents && m.ents[Slot(dc, i)] == slots[i];
    }
    forall n | n in names ensures names[n] < |slots| && Live(slots[names[n]]) && Key(slots[names[n]]) == n {
      var s := Slot(dc, names[n]);
      assert s in m.ents && SlotsOf(g, v, m, s.dir)[s.idx] == m.ents[s];
    }
    NamesUnique(slots, MaxEnts(g, dc), names);
  }

  // ----- how a change of the live entries changes the names -----

  lemma NamesSame(m: Model, m': Model)
    requires m'.ents == m.ents
    ensures forall dc :: NamesIn(m', dc) == NamesIn(m, dc)
  {
  }

  /** A new entry under an unbound name binds that name and no other. */
  lemma NamesBind(m: Model, m': Model, s: Slot, e: Raw)
    requires KeysUnique(m) && s !in m.ents && m'.ents == m.ents[s := e] && Key(e) !in NamesIn(m, s.dir)
    ensures KeysUnique(m')
    ensures NamesIn(m', s.dir) == NamesIn(m, s.dir)[Key(e) := s.idx]
    ensures forall o | o != s.dir :: NamesIn(m', o) == NamesIn(m, o)
  {
    hide Key, NamesIn;
    forall o | o in m.ents && o.dir == s.dir ensures Key(m.ents[o]) != Key(e) {
      assert Key(m.ents[o]) in NamesIn(m, s.dir);
    }
    assert KeysUnique(m');
    hide KeysUnique;
    NamesInUnique(m', s.dir, NamesIn(m, s.dir)[Key(e) := s.idx]);
    forall o | o != s.dir ensures NamesIn(m', o) == NamesIn(m, o) { NamesInUnique(m', o, NamesIn(m, o)); }
  }

  /** Dropping an entry unbinds its name and no other. */
  lemma NamesUnbind(m: Model, m': Model, s: Slot)
    requires KeysUnique(m) && s in m.ents && m'.ents == m.ents - {s}
    ensures KeysUnique(m')
    ensures NamesIn(m', s.dir) == NamesIn(m, s.dir) - {Key(m.ents[s])}
    ensures forall o | o != s.dir :: NamesIn(m', o) == NamesIn(m, o)
  {
    hide Key, NamesIn;
    assert KeysUnique(m');
    NamesInUnique(m', s.dir, NamesIn(m, s.dir) - {Key(m.ents[s])});
    forall o | o != s.dir ensures NamesIn(m', o) == NamesIn(m, o) { NamesInUnique(m', o, NamesIn(m, o)); }
  }

  /** Rewriting an entry under a name not otherwise bound moves its binding. */
  lemma NamesRebind(m: Model, m': Model, s: Slot, e: Raw)
    requires KeysUnique(m) && s in m.ents && m'.ents == m.ents[s := e]
    requires Key(e) == Key(m.ents[s]) || Key(e) !in NamesIn(m, s.dir)
    ensures KeysUnique(m')
    ensures NamesIn(m', s.dir) == (NamesIn(m, s.dir) - {Key(m.ents[s])})[Key(e) := s.idx]
    ensures forall o | o != s.dir :: NamesIn(m', o) == NamesIn(m, o)
  {
    hide Key, NamesIn, KeysUnique;
    var m1 := m.(ents := m.ents - {s});
    NamesUnbind(m, m1, s);
    NamesBind(m1, m', s, e);
  }

  lemma FreshSlot(g: Geometry, v: Volume, fds: seq<FD>, m: Model, dc: nat, i: nat)
    requires Linked(g, v, m) && TableOk(g, v, m) && OwnersOk(fds, m) && IsDirectory(m, dc) && TakesSlot(g, v, m, dc, i)
    ensures Slot(dc, i) !in m.ents && Slot(dc, i) !in m.own
  {
    assert !Live(SlotsOf(g, v, m, dc)[i]);
  }

  lemma EntrySlots(g: Geometry, v: Volume, v': Volume, m: Model, m': Model, dc: nat, i: nat, e: Raw)
    requires Linked(g, v, m) && IsDirectory(m, dc)
    requires SlotWritten(g, v, v', dc, ChainOf(m, dc), i, e)
    requires m'.dirs == m.dirs && Conserved(v'.fat, m'.own, m'.bad)
    requires forall d | d in m.dirs :: m.dirs[d] in m'.own && m'.own[m.dirs[d]] == m.own[m.dirs[d]]
    ensures Linked(g, v', m') && SlotsOf(g, v', m', dc) == SlotsOf(g, v, m, dc)[i := e]
    ensures forall o | IsDirectory(m, o) && o != dc :: SlotsOf(g, v', m', o) == SlotsOf(g, v, m, o)
  {
    forall o | IsDirectory(m, o) && o != dc ensures SlotsOf(g, v', m', o) == SlotsOf(g, v, m, o) {
      OtherSlots(g, v, v', m, dc, i, e, o);
    }
  }

  /** Writing one slot, with the owners of directories left alone. */
  lemma EntryTables(g: Geometry, v: Volume, v': Volume, m: Model, m': Model, dc: nat, i: nat, e: Raw)
    requires Tables(g, v, m) && IsDirectory(m, dc)
    requires SlotWritten(g, v, v', dc, ChainOf(m, dc), i, e)
    requires DirOk(SlotsOf(g, v, m, dc)[i := e], MaxEnts(g, dc))
    requires m'.dirs == m.dirs && m'.ents == SetEnt(m.ents, Slot(dc, i), e) && Conserved(v'.fat, m'.own, m'.bad)
    requires forall d | d in m.dirs :: m.dirs[d] in m'.own && m'.own[m.dirs[d]] == m.own[m.dirs[d]]
    ensures Tables(g, v', m')
  {
    EntrySlots(g, v, v', m, m', dc, i, e);
    WriteSlotsAreEnts(g, v, v', m, m', dc, i, e);
    WriteEntsAreSlots(g, v, v', m, m', dc, i, e);
    forall o | IsDirectory(m', o) ensures DirOk(SlotsOf(g, v', m', o), MaxEnts(g, o)) {
      assert IsDirectory(m, o);
    }
  }

  /** The files keep their bytes when a directory slot is written. */
  lemma FilesKept(g: Geometry, v: Volume, v': Volume, fds: seq<FD>, m: Model, dc: nat, i: nat, e: Raw, s: Slot)
    requires Linked(g, v, m) && FilesOk(g, v, fds, m) && OwnersOk(fds, m) && IsDirectory(m, dc) && s in m.files
    requires SlotWritten(g, v, v', dc, ChainOf(m, dc), i, e)
    ensures s in m.own && Within(m.own[s], |v'.data|) && m.files[s] <= ChainBytes(v'.data, m.own[s])
  {
    OtherBytes(g, v, v', m, dc, i, e, s);
  }

  // ----- create -----

  ghost function Created(m: Model, s: Slot, e: Raw): Model {
    m.(own := m.own[s := []], ents := m.ents[s := e], files := m.files[s := []])
  }

  lemma CreateOwners(fds: seq<FD>, m: Model, s: Slot, e: Raw)
    requires OwnersOk(fds, m) && s !in m.ents && s !in m.own && !IsDir(e) && FirstCluster(e) == 0
    ensures OwnersOk(fds, Created(m, s, e))
  {
  }

  lemma CreateDescriptors(fds: seq<FD>, m: Model, s: Slot, e: Raw)
    requires DescriptorsOk(fds, m) && s !in m.own
    ensures DescriptorsOk(fds, Created(m, s, e))
  {
  }

  lemma ConservedEmpty(fat: seq<nat>, own: map<Slot, seq<nat>>, bad: set<nat>, s: Slot)
    requires Conserved(fat, own, bad) && s !in own
    ensures Conserved(fat, own[s := []], bad)
  {
    var own' := own[s := []];
    forall x | 2 <= x < |fat| ensures Held(fat[x]) <==> Owned(own', x) {
      if Owned(own, x) { var k :| k in own && x in own[k]; assert k in own' && x in own'[k]; }
    }
  }

  lemma CreateFiles(g: Geometry, v: Volume, v': Volume, fds: seq<FD>, m: Model, dc: nat, i: nat, e: Raw)
    requires Linked(g, v, m) && FilesOk(g, v, fds, m) && OwnersOk(fds, m) && IsDirectory(m, dc)
    requires SlotWritten(g, v, v', dc, ChainOf(m, dc), i, e)
    requires var s := Slot(dc, i); s !in m.own && s !in m.ents && !IsDir(e) && FileSize(e) == 0
    requires Linked(g, v', Created(m, Slot(dc, i), e))
    ensures FilesOk(g, v', fds, Created(m, Slot(dc, i), e))
  {
    hide SlotWritten, Conserved, FirstCluster, FileSize, IsDir, Linked;
    forall s | s in m.files
      ensures s in m.own && Within(m.own[s], |v'.data|) && m.files[s] <= ChainBytes(v'.data, m.own[s])
    {
      FilesKept(g, v, v', fds, m, dc, i, e, s);
    }
  }

  lemma CreateTables(g: Geometry, v: Volume, v': Volume, fds: seq<FD>, m: Model, dc: nat, i: nat, e: Raw)
    requires Tables(g, v, m) && OwnersOk(fds, m) && IsDirectory(m, dc) && TakesSlot(g, v, m, dc, i)
    requires Live(e) && Key(e) !in NamesIn(m, dc)
    requires SlotWritten(g, v, v', dc, ChainOf(m, dc), i, e)
    ensures Slot(dc, i) !in m.ents && Slot(dc, i) !in m.own
    ensures Tables(g, v', Created(m, Slot(dc, i), e))
  {
    hide Conserved, SlotsOf, DirSlots, EntsAreSlots, SlotsAreEnts, OwnersOk, DirOk, Live, Key, IsEnd, IsFree;
    var s := Slot(dc, i);
    FreshSlot(g, v, fds, m, dc, i);
    NamesBridge(g, v, m, dc);
    Bind(SlotsOf(g, v, m, dc), MaxEnts(g, dc), i, e);
    ConservedEmpty(v'.fat, m.own, m.bad, s);
    EntryTables(g, v, v', m, Created(m, s, e), dc, i, e);
  }

  /** A new file: one more name, one more empty file. */
  lemma CreateStep(g: Geometry, v: Volume, v': Volume, fds: seq<FD>, m: Model, dc: nat, i: nat, e: Raw)
    requires Inv(g, v, fds, m) && IsDirectory(m, dc) && TakesSlot(g, v, m, dc, i)
    requires Live(e) && !IsDir(e) && FirstCluster(e) == 0 && FileSize(e) == 0
    requires Key(e) !in NamesIn(m, dc)
    requires SlotWritten(g, v, v', dc, ChainOf(m, dc), i, e)
    ensures Inv(g, v', fds, Created(m, Slot(dc, i), e))
  {
    hide Conserved, EntsAreSlots, SlotsAreEnts, DirsOk, SlotWritten, Linked;
    var s := Slot(dc, i);
    CreateTables(g, v, v', fds, m, dc, i, e);
    CreateOwners(fds, m, s, e);
    CreateDescriptors(fds, m, s, e);
    CreateFiles(g, v, v', fds, m, dc, i, e);
  }

  // ----- open and close -----

  function Opened(e: Raw, s: Slot): FD {
    FD(true, FirstCluster(e), FileSize(e), 0, s.dir, s.idx)
  }

  lemma OpenMore(fds: seq<FD>, k: nat, f: FD)
    requires k < |fds| && !fds[k].used && f.used
    ensures forall o :: IsOpen(fds[k := f], o) <==> IsOpen(fds, o) || o == f.At()
  {
    var fds' := fds[k := f];
    assert fds'[k].used;
    forall o | IsOpen(fds, o) ensures IsOpen(fds', o) {
      var i :| 0 <= i < |fds| && fds[i].used && fds[i].At() == o;
      assert fds'[i].used && fds'[i].At() == o;
    }
  }

  lemma OpenDescriptors(fds: seq<FD>, m: Model, k: nat, s: Slot)
    requires OwnersOk(fds, m) && DescriptorsOk(fds, m)
    requires k < |fds| && !fds[k].used && s in m.files && s in m.ents && s in m.own && !IsOpen(fds, s)
    requires FileSize(m.ents[s]) == |m.files[s]|
    ensures DescriptorsOk(fds[k := Opened(m.ents[s], s)], m)
  {
  }

  lemma OpenStep(g: Geometry, v: Volume, fds: seq<FD>, m: Model, k: nat, s: Slot)
    requires Inv(g, v, fds, m) && k < |fds| && !fds[k].used && s in m.files && !IsOpen(fds, s)
    ensures s in m.ents && Inv(g, v, fds[k := Opened(m.ents[s], s)], m)
  {
    hide Conserved, Linked, EntsAreSlots, SlotsAreEnts, DirsOk;
    OpenMore(fds, k, Opened(m.ents[s], s));
    OpenDescriptors(fds, m, k, s);
  }

  lemma CloseOthers(fds: seq<FD>, k: nat, o: Slot)
    requires k < |fds| && IsOpen(fds, o) && !(fds[k].used && o == fds[k].At())
    ensures IsOpen(fds[k := fds[k].(used := false)], o)
  {
    var fds' := fds[k := fds[k].(used := false)];
    var i :| 0 <= i < |fds| && fds[i].used && fds[i].At() == o;
    assert fds'[i].used && fds'[i].At() == o;
  }

  /** A descriptor whose entry is up to date can be dropped. */
  lemma CloseStep(g: Geometry, v: Volume, fds: seq<FD>, m: Model, k: nat)
    requires Inv(g, v, fds, m) && k < |fds|
    requires fds[k].used ==> fds[k].At() in m.ents
    requires fds[k].used ==> FirstCluster(m.ents[fds[k].At()]) == fds[k].first
    requires fds[k].used ==> FileSize(m.ents[fds[k].At()]) == fds[k].size
    ensures Inv(g, v, fds[k := fds[k].(used := false)], m)
  {
    hide Linked, EntsAreSlots, SlotsAreEnts, DirsOk, Conserved, FirstCluster, FileSize, IsDir;
    forall o | IsOpen(fds, o) && !(fds[k].used && o == fds[k].At())
      ensures IsOpen(fds[k := fds[k].(used := false)], o)
    {
      CloseOthers(fds, k, o);
    }
  }

  // ----- flush and rename: the same file under a rewritten entry -----

  lemma SameOwners(fds: seq<FD>, m: Model, s: Slot, e: Raw)
    requires OwnersOk(fds, m) && s in m.ents && s in m.own && IsDir(e) == IsDir(m.ents[s])
    requires FirstCluster(e) == FirstCluster(m.ents[s]) || FirstCluster(e) == Head(m.own[s])
    ensures OwnersOk(fds, m.(ents := m.ents[s := e]))
  {
  }

  lemma SameFiles(g: Geometry, v: Volume, v': Volume, fds: seq<FD>, m: Model, dc: nat, i: nat, e: Raw)
    requires Linked(g, v, m) && FilesOk(g, v, fds, m) && OwnersOk(fds, m) && IsDirectory(m, dc)
    requires SlotWritten(g, v, v', dc, ChainOf(m, dc), i, e)
    requires Slot(dc, i) in m.ents && IsDir(e) == IsDir(m.ents[Slot(dc, i)])
    requires FileSize(e) == FileSize(m.ents[Slot(dc, i)]) || IsOpen(fds, Slot(dc, i))
    requires Linked(g, v', m.(ents := m.ents[Slot(dc, i) := e]))
    ensures FilesOk(g, v', fds, m.(ents := m.ents[Slot(dc, i) := e]))
  {
    hide SlotWritten, Conserved, FirstCluster, FileSize, IsDir, ChainBytes, Linked;
    forall s | s in m.files
      ensures s in m.own && Within(m.own[s], |v'.data|) && m.files[s] <= ChainBytes(v'.data, m.own[s])
    {
      FilesKept(g, v, v', fds, m, dc, i, e, s);
    }
  }

  lemma UpdateTables(g: Geometry, v: Volume, v': Volume, m: Model, dc: nat, i: nat, e: Raw)
    requires Tables(g, v, m) && Slot(dc, i) in m.ents && Live(e) && IsDirectory(m, dc)
    requires Key(e) == Key(m.ents[Slot(dc, i)]) || Key(e) !in NamesIn(m, dc)
    requires SlotWritten(g, v, v', dc, ChainOf(m, dc), i, e)
    ensures Tables(g, v', m.(ents := m.ents[Slot(dc, i) := e]))
  {
    hide Conserved, DirSlots, SlotsOf, DirOk, Live, Key;
    var s := Slot(dc, i);
    assert SlotsOf(g, v, m, s.dir)[s.idx] == m.ents[s];
    NamesBridge(g, v, m, dc);
    Rebind(SlotsOf(g, v, m, dc), MaxEnts(g, dc), i, e);
    EntryTables(g, v, v', m, m.(ents := m.ents[s := e]), dc, i, e);
  }

  /** An entry rewritten for the same file: new name, or size and first cluster brought up to date. */
  lemma UpdateStep(g: Geometry, v: Volume, v': Volume, fds: seq<FD>, m: Model, dc: nat, i: nat, e: Raw)
    requires Inv(g, v, fds, m) && Slot(dc, i) in m.ents && IsDirectory(m, dc)
    requires Live(e) && IsDir(e) == IsDir(m.ents[Slot(dc, i)])
    requires FirstCluster(e) == FirstCluster(m.ents[Slot(dc, i)]) || FirstCluster(e) == Head(m.own[Slot(dc, i)])
    requires FileSize(e) == FileSize(m.ents[Slot(dc, i)]) || IsOpen(fds, Slot(dc, i))
    requires Key(e) == Key(m.ents[Slot(dc, i)]) || Key(e) !in NamesIn(m, dc)
    requires SlotWritten(g, v, v', dc, ChainOf(m, dc), i, e)
    ensures Inv(g, v', fds, m.(ents := m.ents[Slot(dc, i) := e]))
  {
    hide Conserved, SlotsAreEnts, DirsOk, SlotWritten, Linked;
    UpdateTables(g, v, v', m, dc, i, e);
    SameOwners(fds, m, Slot(dc, i), e);
    SameFiles(g, v, v', fds, m, dc, i, e);
  }

  // ----- freeing a chain and deleting its entry -----

  lemma FreeTables(g: Geometry, v: Volume, m: Model, s: Slot)
    requires Tables(g, v, m) && s in m.own
    requires forall dc | dc in m.dirs :: m.dirs[dc] != s
    ensures var v1 := v.(fat := Freed(v.fat, m.own[s]));
            && Tables(g, v1, m.(own := m.own - {s}))
            && (forall dc | IsDirectory(m, dc) :: SlotsOf(g, v1, m.(own := m.own - {s}), dc) == SlotsOf(g, v, m, dc))
  {
    hide Conserved, SlotsOf, EntsAreSlots, SlotsAreEnts, DirOk;
    var v1 := v.(fat := Freed(v.fat, m.own[s]));
    ConservedFree(v.fat, m.own, m.bad, s);
    ReownTables(g, v, v1, m, m.own - {s});
  }

  ghost function Removed(m: Model, s: Slot): Model {
    m.(own := m.own - {s}, ents := m.ents - {s}, files := m.files - {s})
  }

  lemma RemoveOwners(fds: seq<FD>, m: Model, s: Slot)
    requires OwnersOk(fds, m) && s in m.ents && s in m.own && s.dir != 1
    requires forall dc | dc in m.dirs :: m.dirs[dc] != s
    ensures OwnersOk(fds, Removed(m, s))
  {
  }

  lemma RemoveDescriptors(fds: seq<FD>, m: Model, s: Slot)
    requires DescriptorsOk(fds, m) && !IsOpen(fds, s)
    ensures DescriptorsOk(fds, Removed(m, s))
  {
  }

  lemma RemoveFiles(g: Geometry, v: Volume, v1: Volume, v': Volume, fds: seq<FD>, m: Model, s: Slot, e: Raw)
    requires Linked(g, v, m) && FilesOk(g, v, fds, m) && IsDirectory(m, s.dir)
    requires s in m.own && (s.dir in m.dirs ==> s != m.dirs[s.dir])
    requires forall o | o in m.files :: s.dir in m.dirs ==> o != m.dirs[s.dir]
    requires v1 == v.(fat := Freed(v.fat, m.own[s])) && Linked(g, v1, m.(own := m.own - {s}))
    requires SlotWritten(g, v1, v', s.dir, ChainOf(m.(own := m.own - {s}), s.dir), s.idx, e)
    ensures FilesOk(g, v', fds, Removed(m, s))
  {
    hide Conserved, SlotWritten, FirstCluster, FileSize, IsDir, Linked;
    var m1 := m.(own := m.own - {s});
    forall o | o in m.files && o != s ensures m.files[o] <= ChainBytes(v'.data, m.own[o]) {
      OtherBytes(g, v1, v', m1, s.dir, s.idx, e, o);
    }
  }

  lemma RemoveTables(g: Geometry, v1: Volume, v': Volume, m: Model, s: Slot, e: Raw)
    requires Tables(g, v1, m.(own := m.own - {s})) && s in m.ents && !Live(e) && !IsEnd(e)
    requires IsDirectory(m, s.dir)
    requires SlotWritten(g, v1, v', s.dir, ChainOf(m.(own := m.own - {s}), s.dir), s.idx, e)
    ensures Tables(g, v', Removed(m, s))
  {
    hide Conserved, SlotsOf, DirOk, Live, Key, IsEnd;
    var m1 := m.(own := m.own - {s});
    assert SlotsOf(g, v1, m1, s.dir)[s.idx] == m.ents[s];
    Unbind(SlotsOf(g, v1, m1, s.dir), MaxEnts(g, s.dir), s.idx, e);
    EntryTables(g, v1, v', m1, Removed(m, s), s.dir, s.idx, e);
  }

  /** Deleting a file that is not open: its chain is freed, its name unbound. */
  lemma DeleteStep(g: Geometry, v: Volume, v': Volume, fds: seq<FD>, m: Model, s: Slot, e: Raw)
    requires Inv(g, v, fds, m) && s in m.files && !IsOpen(fds, s) && !Live(e) && !IsEnd(e)
    requires var v1 := v.(fat := Freed(v.fat, m.own[s]));
             SlotWritten(g, v1, v', s.dir, ChainOf(m.(own := m.own - {s}), s.dir), s.idx, e)
    ensures Inv(g, v', fds, Removed(m, s))
  {
    hide Conserved, SlotsOf, SlotsAreEnts, SlotWritten, DirOk, VolumeOk;
    var v1 := v.(fat := Freed(v.fat, m.own[s]));
    FreeTables(g, v, m, s);
    RemoveTables(g, v1, v', m, s, e);
    RemoveOwners(fds, m, s);
    RemoveDescriptors(fds, m, s);
    RemoveFiles(g, v, v1, v', fds, m, s, e);
  }

  // ----- rmdir -----

  lemma RmdirOwners(fds: seq<FD>, m: Model, dc: nat)
    requires OwnersOk(fds, m) && dc in m.dirs && m.dirs[dc].dir != 1
    requires forall d | d in m.dirs :: m.dirs[d] in m.own && Head(m.own[m.dirs[d]]) == d
    ensures OwnersOk(fds, Removed(m.(dirs := m.dirs - {dc}), m.dirs[dc]))
  {
    assert forall d | d in m.dirs && d != dc :: m.dirs[d] != m.dirs[dc];
  }

  lemma RmdirDescriptors(fds: seq<FD>, m: Model, s: Slot)
    requires DescriptorsOk(fds, m) && s !in m.files
    ensures DescriptorsOk(fds, Removed(m, s))
  {
  }

  lemma HeadsApart(g: Geometry, v: Volume, m: Model, dc: nat, d: nat)
    requires Linked(g, v, m) && dc in m.dirs && d in m.dirs && d != dc
    ensures m.dirs[d] != m.dirs[dc]
  {
  }

  ghost function Undir(m: Model, dc: nat): Model { m.(dirs := m.dirs - {dc}) }

  lemma RmdirTables(g: Geometry, v: Volume, v': Volume, m: Model, dc: nat, e: Raw)
    requires Tables(g, v, m) && dc in m.dirs && !Live(e) && !IsEnd(e)
    requires forall o | o in m.ents :: o.dir != dc
    requires m.dirs[dc] in m.ents
    requires var s := m.dirs[dc]; var v1 := v.(fat := Freed(v.fat, m.own[s]));
             SlotWritten(g, v1, v', s.dir, ChainOf(m.(own := m.own - {s}), s.dir), s.idx, e)
    ensures Tables(g, v', Removed(Undir(m, dc), m.dirs[dc]))
  {
    hide Conserved, SlotsOf, SlotsAreEnts, SlotWritten, DirOk, VolumeOk, DirsOk;
    var s := m.dirs[dc];
    var m1 := Undir(m, dc);
    DropDirTables(g, v, m, dc);
    forall d | d in m1.dirs ensures m1.dirs[d] != s { HeadsApart(g, v, m, dc, d); }
    FreeTables(g, v, m1, s);
    assert IsDirectory(m1, s.dir);
    assert ChainOf(m.(own := m.own - {s}), s.dir) == ChainOf(m1.(own := m1.own - {s}), s.dir);
    RemoveTables(g, v.(fat := Freed(v.fat, m.own[s])), v', m1, s, e);
  }

  /** Removing a directory without live entries: its chain is freed, its name unbound. */
  lemma RmdirStep(g: Geometry, v: Volume, v': Volume, fds: seq<FD>, m: Model, dc: nat, e: Raw)
    requires Inv(g, v, fds, m) && dc in m.dirs && !Live(e) && !IsEnd(e)
    requires forall o | o in m.ents :: o.dir != dc
    requires var s := m.dirs[dc]; var v1 := v.(fat := Freed(v.fat, m.own[s]));
             SlotWritten(g, v1, v', s.dir, ChainOf(m.(own := m.own - {s}), s.dir), s.idx, e)
    ensures Inv(g, v', fds, Removed(Undir(m, dc), m.dirs[dc]))
  {
    RmdirTables(g, v, v', m, dc, e);
    RmdirRest(g, v, v', fds, m, dc, e);
    RmdirRooted(fds, m, dc);
  }

  lemma RmdirRooted(fds: seq<FD>, m: Model, dc: nat)
    requires OwnersOk(fds, m) && Rooted(m.dirs) && dc in m.dirs
    requires forall o | o in m.ents :: o.dir != dc
    ensures Rooted(m.dirs - {dc})
  {
    hide IsDir, FirstCluster;
    assert dc != 0;
    RootedDrop(m.dirs, dc);
  }

  lemma RmdirFiles(g: Geometry, v: Volume, v': Volume, fds: seq<FD>, m: Model, dc: nat, e: Raw)
    requires Linked(g, v, m) && OwnersOk(fds, m) && FilesOk(g, v, fds, m) && dc in m.dirs
    requires IsDirectory(m, m.dirs[dc].dir) && m.dirs[dc].dir != dc
    requires var s := m.dirs[dc]; var v1 := v.(fat := Freed(v.fat, m.own[s]));
             SlotWritten(g, v1, v', s.dir, ChainOf(m.(own := m.own - {s}), s.dir), s.idx, e)
    ensures FilesOk(g, v', fds, Removed(Undir(m, dc), m.dirs[dc]))
  {
    hide Conserved, SlotWritten, VolumeOk;
    var s := m.dirs[dc];
    var v1 := v.(fat := Freed(v.fat, m.own[s]));
    var m1 := Undir(m, dc);
    forall d | d in m.dirs && d != dc ensures m.dirs[d] != s { HeadsApart(g, v, m, dc, d); }
    FreeLinked(g, v, m1, s);
    assert ChainOf(m.(own := m.own - {s}), s.dir) == ChainOf(m1.(own := m1.own - {s}), s.dir);
    RemoveFiles(g, v, v1, v', fds, m1, s, e);
  }

  lemma RmdirRest(g: Geometry, v: Volume, v': Volume, fds: seq<FD>, m: Model, dc: nat, e: Raw)
    requires Inv(g, v, fds, m) && dc in m.dirs
    requires forall o | o in m.ents :: o.dir != dc
    requires var s := m.dirs[dc]; var v1 := v.(fat := Freed(v.fat, m.own[s]));
             SlotWritten(g, v1, v', s.dir, ChainOf(m.(own := m.own - {s}), s.dir), s.idx, e)
    ensures OwnersOk(fds, Removed(Undir(m, dc), m.dirs[dc]))
    ensures DescriptorsOk(fds, Removed(Undir(m, dc), m.dirs[dc]))
    ensures FilesOk(g, v', fds, Removed(Undir(m, dc), m.dirs[dc]))
  {
    hide Conserved, SlotsOf, SlotsAreEnts, SlotWritten, DirOk, VolumeOk, DirsOk;
    var s := m.dirs[dc];
    assert s in m.ents && s.dir != dc && IsDirectory(m, s.dir);
    forall d | d in m.dirs && d != dc ensures m.dirs[d] != s { HeadsApart(g, v, m, dc, d); }
    RmdirOwners(fds, m, dc);
    RmdirDescriptors(fds, Undir(m, dc), s);
    RmdirFiles(g, v, v', fds, m, dc, e);
  }

  lemma FreeLinked(g: Geometry, v: Volume, m: Model, s: Slot)
    requires Linked(g, v, m) && s in m.own
    requires forall dc | dc in m.dirs :: m.dirs[dc] != s
    ensures Linked(g, v.(fat := Freed(v.fat, m.own[s])), m.(own := m.own - {s}))
  {
    ConservedFree(v.fat, m.own, m.bad, s);
  }

  // ----- a cluster on its way to an owner -----

  function Pending(m: Model): Slot { Slot(1, m.lost) }

  /** The volume after a free cluster is taken, marked as a chain of its own and zeroed. */
  ghost function Taken(v: Volume, c: nat, w: nat): Volume
    requires c < |v.fat| && c < |v.data|
  {
    v.(fat := v.fat[c := FAT_EOC], data := Zeroed(v.data, c, w))
  }

  ghost function WithLost(m: Model, c: nat): Model {
    m.(own := m.own[Pending(m) := [c]], lost := m.lost + 1)
  }

  lemma LostFiles(g: Geometry, v: Volume, fds: seq<FD>, m: Model, c: nat, s: Slot)
    requires Linked(g, v, m) && FilesOk(g, v, fds, m) && s in m.files && c < |v.fat| && 2 <= c && v.fat[c] == FAT_FREE
    ensures s in m.own && m.files[s] <= ChainBytes(Taken(v, c, g.secPerClus).data, m.own[s])
  {
    FreeNotOwned(v.fat, m.own, m.bad, c, s);
    OwnWithin(g, v, m, s);
    BytesFrame(v.data, Taken(v, c, g.secPerClus).data, [c], m.own[s]);
  }

  /** The tables depend on the chains, the directories and the entries only. */
  lemma TablesIgnore(g: Geometry, v: Volume, m: Model, m': Model)
    requires Tables(g, v, m) && m'.own == m.own && m'.dirs == m.dirs && m'.ents == m.ents && m'.bad == m.bad
    ensures Tables(g, v, m') && forall dc :: SlotsOf(g, v, m', dc) == SlotsOf(g, v, m, dc)
  {
    hide Conserved, DirSlots, DirOk, Live;
    forall dc | IsDirectory(m', dc) ensures DirOk(SlotsOf(g, v, m', dc), MaxEnts(g, dc)) { assert IsDirectory(m, dc); }
    forall dc, i | IsDirectory(m', dc) && 0 <= i < |SlotsOf(g, v, m', dc)| && Live(SlotsOf(g, v, m', dc)[i])
      ensures Slot(dc, i) in m'.ents
    {
      assert IsDirectory(m, dc) && Live(SlotsOf(g, v, m, dc)[i]);
    }
  }

  lemma PendingFresh(g: Geometry, v: Volume, fds: seq<FD>, m: Model)
    requires OwnersOk(fds, m) && EntsAreSlots(g, v, m)
    ensures Pending(m) !in m.own && Pending(m) !in m.ents
  {
    hide SlotsOf, Live;
    assert !IsDirectory(m, 1);
  }

  lemma LostConserved(g: Geometry, v: Volume, m: Model, c: nat)
    requires Linked(g, v, m) && Pending(m) !in m.own && 2 <= c < |v.fat| && v.fat[c] == FAT_FREE
    ensures VolumeOk(g, Taken(v, c, g.secPerClus))
    ensures Conserved(v.fat[c := FAT_EOC], m.own[Pending(m) := [c]], m.bad)
    ensures forall s | s in m.own :: c !in m.own[s]
  {
    ConservedFirst(v.fat, m.own, m.bad, Pending(m), c);
    forall s | s in m.own ensures c !in m.own[s] { FreeNotOwned(v.fat, m.own, m.bad, c, s); }
  }

  lemma LostTables(g: Geometry, v: Volume, m: Model, c: nat)
    requires Tables(g, v, m) && Pending(m) !in m.own && 2 <= c < |v.fat| && v.fat[c] == FAT_FREE
    ensures Tables(g, Taken(v, c, g.secPerClus), WithLost(m, c))
    ensures forall dc | IsDirectory(m, dc) ::
      SlotsOf(g, Taken(v, c, g.secPerClus), WithLost(m, c), dc) == SlotsOf(g, v, m, dc)
  {
    hide SlotsOf, DirOk, EntsAreSlots, SlotsAreEnts, DirsOk;
    var v', own' := Taken(v, c, g.secPerClus), m.own[Pending(m) := [c]];
    LostConserved(g, v, m, c);
    forall dc | dc in m.dirs
      ensures m.dirs[dc] in own' && own'[m.dirs[dc]] == m.own[m.dirs[dc]] && c !in m.own[m.dirs[dc]]
    {
    }
    ReownTables(g, v, v', m, own');
    TablesIgnore(g, v', m.(own := own'), WithLost(m, c));
  }

  lemma LostOwners(fds: seq<FD>, m: Model, c: nat)
    requires OwnersOk(fds, m) && Pending(m) !in m.own
    ensures OwnersOk(fds, WithLost(m, c))
  {
  }

  lemma LostDescriptors(fds: seq<FD>, m: Model, c: nat)
    requires DescriptorsOk(fds, m) && Pending(m) !in m.own
    ensures DescriptorsOk(fds, WithLost(m, c))
  {
  }

  lemma LostFilesOk(g: Geometry, v: Volume, fds: seq<FD>, m: Model, c: nat)
    requires Linked(g, v, m) && FilesOk(g, v, fds, m) && 2 <= c < |v.fat| && v.fat[c] == FAT_FREE
    requires Pending(m) !in m.own
    ensures FilesOk(g, Taken(v, c, g.secPerClus), fds, WithLost(m, c))
  {
    hide Conserved, ChainBytes, FileSize, IsDir;
    forall s | s in m.files ensures s in m.own && m.files[s] <= ChainBytes(Taken(v, c, g.secPerClus).data, m.own[s]) {
      LostFiles(g, v, fds, m, c, s);
    }
  }

  /** Taking a cluster that no entry owns yet. */
  lemma LostStep(g: Geometry, v: Volume, fds: seq<FD>, m: Model, c: nat)
    requires Inv(g, v, fds, m) && 2 <= c < |v.fat| && v.fat[c] == FAT_FREE
    ensures Pending(m) !in m.own
    ensures Inv(g, Taken(v, c, g.secPerClus), fds, WithLost(m, c))
    ensures forall dc | IsDirectory(m, dc) ::
      SlotsOf(g, Taken(v, c, g.secPerClus), WithLost(m, c), dc) == SlotsOf(g, v, m, dc)
  {
    hide SlotsOf, EntsAreSlots, SlotsAreEnts, DirsOk, Conserved, VolumeOk;
    PendingFresh(g, v, fds, m);
    LostTables(g, v, m, c);
    LostOwners(fds, m, c);
    LostDescriptors(fds, m, c);
    LostFilesOk(g, v, fds, m, c);
  }

  // ----- giving it back -----

  /** The model without its last lost chain. */
  ghost function WithoutLost(m: Model): Model
    requires m.lost > 0
  {
    m.(own := m.own - {Slot(1, m.lost - 1)}, lost := m.lost - 1)
  }

  lemma FreedOne(fat: seq<nat>, c: nat)
    requires c < |fat|
    ensures Freed(fat, [c]) == fat[c := FAT_FREE]
  {
  }

  lemma GiveBackTables(g: Geometry, v: Volume, m: Model, c: nat)
    requires Tables(g, v, m) && m.lost > 0 && Slot(1, m.lost - 1) in m.own && m.own[Slot(1, m.lost - 1)] == [c]
    requires c < |v.fat| && forall dc | dc in m.dirs :: m.dirs[dc] != Slot(1, m.lost - 1)
    ensures Tables(g, v.(fat := v.fat[c := FAT_FREE]), WithoutLost(m))
  {
    hide SlotsOf, EntsAreSlots, SlotsAreEnts, DirsOk, Linked, Freed;
    var p := Slot(1, m.lost - 1);
    FreedOne(v.fat, c);
    FreeTables(g, v, m, p);
    TablesIgnore(g, v.(fat := v.fat[c := FAT_FREE]), m.(own := m.own - {p}), WithoutLost(m));
  }

  lemma LostNotDir(g: Geometry, v: Volume, fds: seq<FD>, m: Model)
    requires EntsAreSlots(g, v, m) && OwnersOk(fds, m) && m.lost > 0
    ensures Slot(1, m.lost - 1) !in m.ents
    ensures forall dc | dc in m.dirs :: m.dirs[dc] != Slot(1, m.lost - 1)
  {
    hide SlotsOf, Live, IsDir, FirstCluster;
    assert !IsDirectory(m, 1);
  }

  lemma GiveBackStep(g: Geometry, v: Volume, fds: seq<FD>, m: Model, c: nat)
    requires Inv(g, v, fds, m) && m.lost > 0 && Slot(1, m.lost - 1) in m.own && m.own[Slot(1, m.lost - 1)] == [c]
    requires c < |v.fat|
    ensures Inv(g, v.(fat := v.fat[c := FAT_FREE]), fds, WithoutLost(m))
  {
    hide EntsAreSlots, SlotsAreEnts, DirsOk, Linked, OwnersOk, IsDir, FileSize;
    LostNotDir(g, v, fds, m);
    GiveBackTables(g, v, m, c);
    GiveBackOwners(fds, m);
  }

  lemma GiveBackOwners(fds: seq<FD>, m: Model)
    requires OwnersOk(fds, m) && m.lost > 0 && Slot(1, m.lost - 1) !in m.ents
    ensures OwnersOk(fds, WithoutLost(m))
  {
  }

  // ----- mkdir: the pending cluster becomes a directory -----

  lemma ConservedRekey(fat: seq<nat>, own: map<Slot, seq<nat>>, bad: set<nat>, p: Slot, s: Slot)
    requires Conserved(fat, own, bad) && p in own && s !in own
    ensures Conserved(fat, (own - {p})[s := own[p]], bad)
  {
    var own' := (own - {p})[s := own[p]];
    forall k, k' | k in own' && k' in own' && k != k' ensures Disjoint(own'[k], own'[k']) {
      var j, j' := if k == s then p else k, if k' == s then p else k';
      assert Disjoint(own[j], own[j']);
    }
    forall x | 2 <= x < |fat| ensures Held(fat[x]) <==> Owned(own', x) {
      if Owned(own, x) {
        var k :| k in own && x in own[k];
        var j := if k == p then s else k;
        assert j in own' && x in own'[j];
      }
      if Owned(own', x) {
        var k :| k in own' && x in own'[k];
        var j := if k == s then p else k;
        assert j in own && x in own[j];
      }
    }
  }

  /** The model after mkdir: the last lost chain belongs to entry s, a directory. */
  ghost function Adopted(m: Model, s: Slot, e: Raw, c: nat): Model
    requires m.lost > 0
  {
    WithoutLost(m).(own := WithoutLost(m).own[s := [c]], ents := m.ents[s := e], dirs := m.dirs[c := s])
  }

  lemma AdoptOwners(fds: seq<FD>, m: Model, s: Slot, e: Raw, c: nat)
    requires OwnersOk(fds, m) && m.lost > 0 && Slot(1, m.lost - 1) !in m.ents
    requires s !in m.ents && s !in m.own && IsDir(e) && FirstCluster(e) == c && c > 1
    requires c !in m.dirs
    ensures OwnersOk(fds, Adopted(m, s, e, c))
  {
    hide FirstCluster, IsDir;
  }

  lemma AdoptDescriptors(fds: seq<FD>, m: Model, s: Slot, e: Raw, c: nat)
    requires DescriptorsOk(fds, m) && m.lost > 0 && s !in m.own && Slot(1, m.lost - 1) !in m.files
    ensures DescriptorsOk(fds, Adopted(m, s, e, c))
  {
  }

  lemma AdoptFiles(g: Geometry, v: Volume, v': Volume, fds: seq<FD>, m: Model, s: Slot, e: Raw, c: nat)
    requires Linked(g, v, m) && FilesOk(g, v, fds, m) && OwnersOk(fds, m) && IsDirectory(m, s.dir)
    requires SlotWritten(g, v, v', s.dir, ChainOf(m, s.dir), s.idx, e)
    requires m.lost > 0 && s !in m.own && s !in m.ents && IsDir(e) && Slot(1, m.lost - 1) !in m.files
    ensures FilesOk(g, v', fds, Adopted(m, s, e, c))
  {
    hide SlotWritten, Conserved, FirstCluster, FileSize, IsDir, Linked, ChainBytes;
    forall o | o in m.files ensures o in m.own && m.files[o] <= ChainBytes(v'.data, m.own[o]) {
      FilesKept(g, v, v', fds, m, s.dir, s.idx, e, o);
    }
  }

  /** The directory tables once the entry is written and the new directory is known. */
  lemma AdoptTables(g: Geometry, v: Volume, v': Volume, fds: seq<FD>, m: Model, s: Slot, e: Raw, c: nat)
    requires Tables(g, v, m) && OwnersOk(fds, m) && IsDirectory(m, s.dir) && TakesSlot(g, v, m, s.dir, s.idx)
    requires Live(e) && Key(e) !in NamesIn(m, s.dir)
    requires SlotWritten(g, v, v', s.dir, ChainOf(m, s.dir), s.idx, e)
    requires m.lost > 0 && Slot(1, m.lost - 1) in m.own && m.own[Slot(1, m.lost - 1)] == [c]
    requires s !in m.own && c > 1 && c !in m.dirs && Slot(1, m.lost - 1) !in m.ents
    requires forall d | d in m.dirs :: m.dirs[d] != Slot(1, m.lost - 1)
    requires c < |v'.data| && forall t | 0 <= t < |v'.data[c]| :: v'.data[c][t] == ZeroSector()
    ensures Tables(g, v', Adopted(m, s, e, c))
    ensures AllEnd(SlotsOf(g, v', Adopted(m, s, e, c), c))
  {
    hide Conserved, SlotsOf, DirSlots, EntsAreSlots, SlotsAreEnts, OwnersOk, DirOk, Live, Key, IsEnd, IsFree, AllEnd;
    var p := Slot(1, m.lost - 1);
    var m1 := m.(own := (m.own - {p})[s := [c]], ents := m.ents[s := e]);
    NamesBridge(g, v, m, s.dir);
    Bind(SlotsOf(g, v, m, s.dir), MaxEnts(g, s.dir), s.idx, e);
    ConservedRekey(v.fat, m.own, m.bad, p, s);
    EntryTables(g, v, v', m, m1, s.dir, s.idx, e);
    AddDirTables(g, v', m1, c, s);
    TablesIgnore(g, v', m1.(dirs := m1.dirs[c := s]), Adopted(m, s, e, c));
  }

  /** Mkdir's entry write: one more name, one more empty directory, nothing lost. */
  lemma AdoptStep(g: Geometry, v: Volume, v': Volume, fds: seq<FD>, m: Model, s: Slot, e: Raw, c: nat)
    requires Inv(g, v, fds, m) && IsDirectory(m, s.dir) && TakesSlot(g, v, m, s.dir, s.idx)
    requires Live(e) && IsDir(e) && FirstCluster(e) == c && Key(e) !in NamesIn(m, s.dir)
    requires SlotWritten(g, v, v', s.dir, ChainOf(m, s.dir), s.idx, e)
    requires m.lost > 0 && Slot(1, m.lost - 1) in m.own && m.own[Slot(1, m.lost - 1)] == [c]
    requires c < |v'.data| && forall t | 0 <= t < |v'.data[c]| :: v'.data[c][t] == ZeroSector()
    ensures Inv(g, v', fds, Adopted(m, s, e, c))
    ensures AllEnd(SlotsOf(g, v', Adopted(m, s, e, c), c))
  {
    hide SlotsOf, SlotsAreEnts, DirsOk, Conserved, VolumeOk, SlotWritten, TakesSlot, AllEnd, Live, Key, ZeroSector;
    var p := Slot(1, m.lost - 1);
    assert !IsDirectory(m, 1) && p !in m.ents;
    AdoptFresh(g, v, fds, m, s, c);
    RootedAdd(m.dirs, c, s);
    AdoptTables(g, v, v', fds, m, s, e, c);
    AdoptOwners(fds, m, s, e, c);
    AdoptDescriptors(fds, m, s, e, c);
    AdoptFiles(g, v, v', fds, m, s, e, c);
  }

  lemma AdoptFresh(g: Geometry, v: Volume, fds: seq<FD>, m: Model, s: Slot, c: nat)
    requires Inv(g, v, fds, m) && IsDirectory(m, s.dir) && TakesSlot(g, v, m, s.dir, s.idx)
    requires m.lost > 0 && Slot(1, m.lost - 1) in m.own && m.own[Slot(1, m.lost - 1)] == [c]
    ensures s !in m.own && s !in m.ents && c > 1 && c !in m.dirs
    ensures forall d | d in m.dirs :: m.dirs[d] != Slot(1, m.lost - 1)
  {
    hide SlotsOf, DirsOk, FilesOk, DescriptorsOk, VolumeOk, TakesSlot, Live;
    var p := Slot(1, m.lost - 1);
    FreshSlot(g, v, fds, m, s.dir, s.idx);
    assert IsChain(v.fat, m.own[p]) && m.own[p][0] == c;
    forall d | d in m.dirs ensures m.dirs[d] != p && d != c {
      assert !IsDirectory(m, 1) && IsDirectory(m, m.dirs[d].dir);
      assert Disjoint(m.own[m.dirs[d]], m.own[p]);
      assert d in m.own[m.dirs[d]] && c in m.own[p];
    }
  }

  // ----- a full subdirectory grows by one cluster of end marks -----

  ghost function Linkup(fat: seq<nat>, chain: seq<nat>, c: nat): seq<nat>
    requires c < |fat| && chain != [] && chain[|chain| - 1] < |fat|
  {
    fat[c := FAT_EOC][chain[|chain| - 1] := c]
  }

  ghost function Extended(m: Model, dc: nat, c: nat): Model
    requires dc in m.dirs
  {
    m.(own := m.own[m.dirs[dc] := ChainOf(m, dc) + [c]])
  }

  /** A chain that does not hold c keeps its sectors when c is zeroed. */
  lemma ZeroElsewhere(g: Geometry, v: Volume, m: Model, c: nat, s: Slot)
    requires Linked(g, v, m) && s in m.own && 2 <= c < |v.fat| && v.fat[c] == FAT_FREE
    ensures ChainSectors(Zeroed(v.data, c, g.secPerClus), m.own[s]) == ChainSectors(v.data, m.own[s])
  {
    FreeNotOwned(v.fat, m.own, m.bad, c, s);
    OwnWithin(g, v, m, s);
    BytesFrame(v.data, Zeroed(v.data, c, g.secPerClus), [c], m.own[s]);
  }

  lemma ExtendLinked(g: Geometry, v: Volume, m: Model, dc: nat, c: nat)
    requires Linked(g, v, m) && dc in m.dirs && 2 <= c < |v.fat| && v.fat[c] == FAT_FREE
    ensures ChainOf(m, dc) != [] && ChainOf(m, dc)[|ChainOf(m, dc)| - 1] < |v.fat|
    ensures var v' := v.(fat := Linkup(v.fat, ChainOf(m, dc), c), data := Zeroed(v.data, c, g.secPerClus));
            Linked(g, v', Extended(m, dc, c))
  {
    ConservedExtend(v.fat, m.own, m.bad, m.dirs[dc], c);
    forall d | d in m.dirs && d != dc ensures m.dirs[d] != m.dirs[dc] { HeadsApart(g, v, m, dc, d); }
  }

  lemma ExtendSlots(g: Geometry, v: Volume, m: Model, dc: nat, c: nat, w: nat)
    requires Linked(g, v, m) && dc in m.dirs && 2 <= c < |v.fat| && v.fat[c] == FAT_FREE && w == g.secPerClus
    ensures var v' := v.(data := Zeroed(v.data, c, w));
            exists z :: AllEnd(z) && |z| == w * 16 && SlotsOf(g, v', Extended(m, dc, c), dc) == SlotsOf(g, v, m, dc) + z
    ensures var v' := v.(data := Zeroed(v.data, c, w));
            forall o | IsDirectory(m, o) && o != dc :: SlotsOf(g, v', Extended(m, dc, c), o) == SlotsOf(g, v, m, o)
  {
    hide Conserved, EntryAt;
    var s := m.dirs[dc];
    ChainWithin(g, v, m, dc);
    assert dc >= 2 && Extended(m, dc, c).own[s] == m.own[s] + [c];
    var data' := Zeroed(v.data, c, w);
    var row: seq<Sector> := seq(w, i => ZeroSector());
    ZeroElsewhere(g, v, m, c, s);
    ChainAppend(data', m.own[s], c);
    EntriesOfConcat(ChainSectors(v.data, m.own[s]), row);
    ZeroSlots(row);
    var z := EntriesOf(row);
    assert AllEnd(z) && |z| == w * 16;
    assert SlotsOf(g, v.(data := data'), Extended(m, dc, c), dc) == SlotsOf(g, v, m, dc) + z;
    forall o | IsDirectory(m, o) && o != dc
      ensures SlotsOf(g, v.(data := data'), Extended(m, dc, c), o) == SlotsOf(g, v, m, o)
    {
      if o != 0 {
        HeadsApart(g, v, m, dc, o);
        ZeroElsewhere(g, v, m, c, m.dirs[o]);
      }
    }
  }

  lemma AppendEnds(slots: seq<Raw>, z: seq<Raw>, limit: nat)
    requires DirOk(slots, limit) && AllEnd(z)
    ensures DirOk(slots + z, limit) && NamesOf(slots + z, limit) == NamesOf(slots, limit)
  {
    NamesUnique(slots + z, limit, Names(slots, limit));
  }

  ghost predicate SlotsGrow(g: Geometry, v: Volume, m: Model, v': Volume, m': Model, dc: nat) {
    && |SlotsOf(g, v', m', dc)| == |SlotsOf(g, v, m, dc)| + g.secPerClus * 16
    && SlotsOf(g, v, m, dc) <= SlotsOf(g, v', m', dc)
    && AllEnd(SlotsOf(g, v', m', dc)[|SlotsOf(g, v, m, dc)|..])
    && (forall o | IsDirectory(m, o) && o != dc :: SlotsOf(g, v', m', o) == SlotsOf(g, v, m, o))
  }

  /** Growing a directory by end marks keeps its names and every other directory. */
  lemma GrowTables(g: Geometry, v: Volume, m: Model, v': Volume, m': Model, dc: nat)
    requires Tables(g, v, m) && Linked(g, v', m') && SlotsGrow(g, v, m, v', m', dc) && IsDirectory(m, dc)
    requires m'.dirs == m.dirs && m'.ents == m.ents
    ensures Tables(g, v', m')
  {
    hide Conserved, DirSlots, SlotsOf, DirOk, Live, IsEnd, Linked;
    var was, now := SlotsOf(g, v, m, dc), SlotsOf(g, v', m', dc);
    assert now == was + now[|was|..];
    AppendEnds(was, now[|was|..], MaxEnts(g, dc));
    forall o | IsDirectory(m', o) ensures DirOk(SlotsOf(g, v', m', o), MaxEnts(g, o)) {
      assert IsDirectory(m, o);
    }
    GrowSlotsAreEnts(g, v, m, v', m', dc);
    assert EntsAreSlots(g, v', m');
  }

  lemma GrowSlotsAreEnts(g: Geometry, v: Volume, m: Model, v': Volume, m': Model, dc: nat)
    requires SlotsAreEnts(g, v, m) && SlotsGrow(g, v, m, v', m', dc) && IsDirectory(m, dc)
    requires m'.dirs == m.dirs && m'.ents == m.ents
    ensures SlotsAreEnts(g, v', m')
  {
    hide SlotsOf;
    var n := |SlotsOf(g, v, m, dc)|;
    var grown := SlotsOf(g, v', m', dc);
    forall j | n <= j < |grown| ensures IsEnd(grown[j]) { assert grown[n..][j - n] == grown[j]; }
    forall o, i | IsDirectory(m', o) && 0 <= i < |SlotsOf(g, v', m', o)| && Live(SlotsOf(g, v', m', o)[i])
      ensures Slot(o, i) in m'.ents
    {
      assert IsDirectory(m, o);
      if o != dc || i < n { assert Live(SlotsOf(g, v, m, o)[i]); }
    }
  }

  lemma ExtendOwners(fds: seq<FD>, m: Model, dc: nat, c: nat)
    requires OwnersOk(fds, m) && DescriptorsOk(fds, m) && dc in m.dirs && m.dirs[dc] !in m.files
    requires m.dirs[dc] in m.own && m.own[m.dirs[dc]] != []
    ensures OwnersOk(fds, Extended(m, dc, c)) && DescriptorsOk(fds, Extended(m, dc, c))
  {
  }

  lemma ExtendFiles(g: Geometry, v: Volume, fds: seq<FD>, m: Model, dc: nat, c: nat)
    requires Linked(g, v, m) && FilesOk(g, v, fds, m)
    requires dc in m.dirs && m.dirs[dc] !in m.files && 2 <= c < |v.fat| && v.fat[c] == FAT_FREE
    ensures FilesOk(g, v.(data := Zeroed(v.data, c, g.secPerClus)), fds, Extended(m, dc, c))
  {
    hide Conserved, FileSize, IsDir;
    forall s | s in m.files ensures s in m.own && m.files[s] <= ChainBytes(Zeroed(v.data, c, g.secPerClus), m.own[s]) {
      ZeroElsewhere(g, v, m, c, s);
    }
  }

  lemma ExtendStep(g: Geometry, v: Volume, fds: seq<FD>, m: Model, dc: nat, c: nat)
    requires Inv(g, v, fds, m) && dc in m.dirs && 2 <= c < |v.fat| && v.fat[c] == FAT_FREE
    ensures ChainOf(m, dc) != [] && ChainOf(m, dc)[|ChainOf(m, dc)| - 1] < |v.fat|
    ensures var v' := v.(fat := Linkup(v.fat, ChainOf(m, dc), c), data := Zeroed(v.data, c, g.secPerClus));
            && Inv(g, v', fds, Extended(m, dc, c))
            && SlotsGrow(g, v, m, v', Extended(m, dc, c), dc)
  {
    hide Live, FirstCluster, FileSize, DirOk, SlotsOf, EntsAreSlots, SlotsAreEnts, DirsOk, Conserved, DescriptorsOk,
         AllEnd, IsDir;
    ExtendLinked(g, v, m, dc, c);
    ghost var fat := Linkup(v.fat, ChainOf(m, dc), c);
    assert m.dirs[dc] in m.ents && m.dirs[dc] !in m.files;
    ExtendOwners(fds, m, dc, c);
    ExtendFiles(g, v, fds, m, dc, c);
    ExtendSlots(g, v, m, dc, c, g.secPerClus);
    var v1 := v.(data := Zeroed(v.data, c, g.secPerClus));
    var v' := v1.(fat := fat);
    SlotsIgnoreFat(g, v1, v', Extended(m, dc, c));
    ghost var z :| AllEnd(z) && |z| == g.secPerClus * 16
                   && SlotsOf(g, v1, Extended(m, dc, c), dc) == SlotsOf(g, v, m, dc) + z;
    assert SlotsOf(g, v', Extended(m, dc, c), dc)[|SlotsOf(g, v, m, dc)|..] == z;
    GrowTables(g, v, m, v', Extended(m, dc, c), dc);
    FilesIgnoreFat(g, v1, v', fds, Extended(m, dc, c));
  }

  lemma SlotsIgnoreFat(g: Geometry, v: Volume, v': Volume, m: Model)
    requires v'.data == v.data && v'.root == v.root
    ensures forall dc :: SlotsOf(g, v', m, dc) == SlotsOf(g, v, m, dc)
  {
  }

  lemma FilesIgnoreFat(g: Geometry, v: Volume, v': Volume, fds: seq<FD>, m: Model)
    requires v'.data == v.data && FilesOk(g, v, fds, m)
    ensures FilesOk(g, v', fds, m)
  {
  }
}
