/** A file as a flat byte string: what a growing chain, a patched sector and a finished write
    mean for it. */
module FileBytes {
  import opened Sectors
  import opened FatDisk
  import opened Chains
  import opened Extents
  import opened FileSystem
  import opened FileSteps
  import opened Operations

  /** The contents after `data` is written at `pos`. */
  function Overwrite(c: seq<Byte>, pos: nat, data: seq<Byte>): (r: seq<Byte>)
    requires pos <= |c|
    ensures |r| == if pos + |data| > |c| then pos + |data| else |c|
  {
    c[..pos] + data + if pos + |data| < |c| then c[pos + |data|..] else []
  }

  /** n bytes: those of b, zeros after them, and `data` laid over them at `pos`. */
  function Splice(b: seq<Byte>, n: nat, pos: nat, data: seq<Byte>): (r: seq<Byte>)
    ensures |r| == n
  {
    seq(n, p requires 0 <= p < n =>
      if pos <= p < pos + |data| then data[p - pos] else if p < |b| then b[p] else 0)
  }

  function ZeroBytes(n: nat): seq<Byte> { seq(n, i => 0) }

  lemma SpliceStart(b: seq<Byte>, pos: nat)
    ensures Splice(b, |b|, pos, []) == b
  {
  }

  lemma SpliceGrow(b: seq<Byte>, n: nat, pos: nat, data: seq<Byte>, k: nat)
    requires |b| <= n && (pos + |data| <= n || data == [])
    ensures Splice(b, n, pos, data) + ZeroBytes(k) == Splice(b, n + k, pos, data)
  {
  }

  /** A finished write seen as contents. */
  lemma SpliceContents(b: seq<Byte>, n: nat, size: nat, pos: nat, data: seq<Byte>)
    requires pos <= size <= |b| <= n && pos + |data| <= n
    ensures var size' := if pos + |data| > size then pos + |data| else size;
            size' <= n && Splice(b, n, pos, data)[..size'] == Overwrite(b[..size], pos, data)
  {
  }

  /** A sector with `data` laid over it from byte `start`. */
  function PatchBytes(sec: Sector, start: nat, data: seq<Byte>): Sector
    requires start + |data| <= 512
  {
    sec[..start] + data + sec[start + |data|..]
  }

  lemma PatchBytesAt(sec: Sector, start: nat, data: seq<Byte>, o: nat)
    requires start + |data| <= 512 && o < 512
    ensures PatchBytes(sec, start, data)[o] == if start <= o < start + |data| then data[o - start] else sec[o]
  {
  }

  /** Patching the sector that holds the next position extends what has been written. */
  lemma SplicePut(b: seq<Byte>, secs: seq<Sector>, pos: nat, src: seq<Byte>, done: nat, k: nat, start: nat, take: nat)
    requires done + take <= |src| && BytesOf(secs) == Splice(b, |secs| * 512, pos, src[..done])
    requires k < |secs| && start + take <= 512 && k * 512 + start == pos + done
    ensures BytesOf(secs[k := PatchBytes(secs[k], start, src[done..done + take])])
         == Splice(b, |secs| * 512, pos, src[..done + take])
  {
    var sec := PatchBytes(secs[k], start, src[done..done + take]);
    var was, now := BytesOf(secs), BytesOf(secs[k := sec]);
    var goal := Splice(b, |secs| * 512, pos, src[..done + take]);
    forall p | 0 <= p < |secs| * 512 ensures now[p] == goal[p] {
      assert was[p] == Splice(b, |secs| * 512, pos, src[..done])[p];
      SplicePutAt(b, secs, pos, src, done, k, start, take, p);
    }
  }

  lemma SplicePutAt(b: seq<Byte>, secs: seq<Sector>, pos: nat, src: seq<Byte>, done: nat, k: nat, start: nat,
                    take: nat, p: nat)
    requires p < |secs| * 512 && done + take <= |src|
    requires BytesOf(secs)[p] == Splice(b, |secs| * 512, pos, src[..done])[p]
    requires k < |secs| && start + take <= 512 && k * 512 + start == pos + done
    ensures BytesOf(secs[k := PatchBytes(secs[k], start, src[done..done + take])])[p]
         == Splice(b, |secs| * 512, pos, src[..done + take])[p]
  {
    hide PatchBytes;
    if p / 512 == k {
      PatchBytesAt(secs[k], start, src[done..done + take], p % 512);
      assert p == k * 512 + p % 512;
    } else if p < k * 512 {
      assert p < pos + done;
    } else {
      assert p >= k * 512 + 512;
    }
  }

  lemma ZeroSectorBytes(w: nat)
    ensures BytesOf(seq(w, i => ZeroSector())) == ZeroBytes(w * 512)
  {
  }

  /** A byte position splits into a sector and an offset in it. */
  lemma ByteAt(secs: seq<Sector>, k: nat, o: nat)
    requires k < |secs| && o < 512
    ensures k * 512 + o < |BytesOf(secs)| && BytesOf(secs)[k * 512 + o] == secs[k][o]
  {
    assert (k * 512 + o) / 512 == k && (k * 512 + o) % 512 == o;
  }

  lemma BytesSlice(secs: seq<Sector>, k: nat, o: nat, n: nat)
    requires k < |secs| && o + n <= 512
    ensures k * 512 + o + n <= |BytesOf(secs)|
    ensures BytesOf(secs)[k * 512 + o..k * 512 + o + n] == secs[k][o..o + n]
  {
    var a, b := BytesOf(secs)[k * 512 + o..k * 512 + o + n], secs[k][o..o + n];
    forall i | 0 <= i < n ensures a[i] == b[i] { ByteAt(secs, k, o + i); }
  }

  // ----- steps on an open file -----

  /** The file at descriptor k given one more, zeroed, cluster. */
  ghost function GrownVolume(g: Geometry, v: Volume, chain: seq<nat>, c: nat): Volume
    requires c < |v.fat| && c < |v.data| && (chain != [] ==> chain[|chain| - 1] < |v.fat|)
  {
    if chain == [] then Taken(v, c, g.secPerClus)
    else v.(fat := Linkup(v.fat, chain, c), data := Zeroed(v.data, c, g.secPerClus))
  }

  lemma GrowStepOk(g: Geometry, v: Volume, m: Model, s: Slot, c: nat)
    requires Linked(g, v, m) && s in m.own && 2 <= c < |v.fat| && v.fat[c] == FAT_FREE
    ensures c < |v.data| && (m.own[s] != [] ==> m.own[s][|m.own[s]| - 1] < |v.fat|)
    ensures FileStep(g, v, GrownVolume(g, v, m.own[s], c), m, s, m.own[s] + [c])
    ensures ChainBytes(GrownVolume(g, v, m.own[s], c).data, m.own[s] + [c])
         == ChainBytes(v.data, m.own[s]) + ZeroBytes(g.secPerClus * 512)
  {
    var chain := m.own[s];
    if chain == [] {
      ConservedFirst(v.fat, m.own, m.bad, s, c);
      assert chain + [c] == [c];
    } else {
      ConservedExtend(v.fat, m.own, m.bad, s, c);
    }
    GrowBytes(g, v, m, s, c);
  }

  lemma GrowBytes(g: Geometry, v: Volume, m: Model, s: Slot, c: nat)
    requires Linked(g, v, m) && s in m.own && 2 <= c < |v.fat| && v.fat[c] == FAT_FREE
    ensures ChainBytes(Zeroed(v.data, c, g.secPerClus), m.own[s] + [c])
         == ChainBytes(v.data, m.own[s]) + ZeroBytes(g.secPerClus * 512)
  {
    hide Conserved, BytesOf;
    ZeroElsewhere(g, v, m, c, s);
    var data' := Zeroed(v.data, c, g.secPerClus);
    var row: seq<Sector> := seq(g.secPerClus, i => ZeroSector());
    ChainAppend(data', m.own[s], c);
    BytesOfConcat(ChainSectors(v.data, m.own[s]), row);
    ZeroSectorBytes(g.secPerClus);
  }

  /** How many clusters the chain of slot s has, or can still have. */
  ghost function Budget(v: Volume, m: Model, s: Slot): nat {
    (if s in m.own then |m.own[s]| else 0) + |FreeClusters(v.fat)|
  }

  lemma BudgetKept(v: Volume, m: Model, v': Volume, m': Model, s: Slot)
    requires m'.own == m.own && v'.fat == v.fat
    ensures Budget(v', m', s) == Budget(v, m, s)
  {
  }

  /** Where the bytes of a file must end at the latest: its own clusters and the free ones. */
  ghost function Room(g: Geometry, v: Volume, m: Model, s: Slot): nat {
    Times(Budget(v, m, s), g.secPerClus) * 512
  }

  /** How many clusters n bytes take. */
  function ClustersFor(n: nat, w: nat): nat
    requires w > 0
  {
    (n + w * 512 - 1) / (w * 512)
  }

  lemma ClustersForIs(n: nat, w: nat, c: nat)
    requires w > 0 && n <= Times(c, w) * 512
    ensures ClustersFor(n, w) <= c
    ensures c > 0 && Times(c - 1, w) * 512 < n ==> ClustersFor(n, w) == c
  {
    var u, q := w * 512, ClustersFor(n, w);
    TimesBytes(c, w);
    assert n + u - 1 == q * u + (n + u - 1) % u;
    if q > c { ProductGrows(c, q, u); }
    if c > 0 && Times(c - 1, w) * 512 < n {
      TimesBytes(c - 1, w);
      if q < c { ProductGrows(q, c, u); }
    }
  }

  lemma TimesBytes(c: nat, w: nat)
    ensures Times(c, w) * 512 == c * (w * 512)
  {
    TimesIsProduct(c, w);
    assert c * w * 512 == c * (w * 512);
  }

  /** A write that stops at the end of the data or of the room, and grows the chain only for bytes it has,
      writes what it can and takes no cluster it does not need. */
  lemma WroteEnough(w: nat, own: nat, own1: nat, budget: nat, pos: nat, n: nat, k: nat)
    requires w > 0 && own <= own1 <= budget && 0 < k <= n && pos + k <= Times(own1, w) * 512
    requires own1 == own || Times(own1 - 1, w) * 512 < pos + k
    requires k < n ==> own1 == budget && pos + k == Times(own1, w) * 512
    ensures pos <= Times(budget, w) * 512
    ensures k == if n < Times(budget, w) * 512 - pos then n else Times(budget, w) * 512 - pos
    ensures own1 == if own < ClustersFor(pos + k, w) then ClustersFor(pos + k, w) else own
  {
    hide Times, ClustersFor;
    TimesMonotone(own1, budget, w);
    ClustersForIs(pos + k, w, own1);
  }

  lemma GrownBudget(g: Geometry, v: Volume, fds: seq<FD>, m: Model, k: nat, c: nat)
    requires k < |fds| && fds[k].At() in m.own && 2 <= c < |v.fat| && v.fat[c] == FAT_FREE && c < |v.data|
    requires var chain := m.own[fds[k].At()];
             chain != [] ==> chain[|chain| - 1] < |v.fat| && v.fat[chain[|chain| - 1]] != FAT_FREE
    ensures Budget(GrownVolume(g, v, m.own[fds[k].At()], c), GrownModel(fds, m, k, c), fds[k].At())
         == Budget(v, m, fds[k].At())
  {
    hide FreeClusters, Zeroed;
    var chain := m.own[fds[k].At()];
    FreeIn(v.fat, c);
    if chain == [] { FreeTaken(v.fat, c); } else { LinkTakesOne(v.fat, chain[|chain| - 1], c); }
  }

  /** The descriptors and the meaning after file k's chain grew by c. */
  ghost function GrownModel(fds: seq<FD>, m: Model, k: nat, c: nat): Model
    requires k < |fds| && fds[k].At() in m.own
  {
    m.(own := m.own[fds[k].At() := m.own[fds[k].At()] + [c]])
  }

  function GrownFds(fds: seq<FD>, k: nat, c: nat): seq<FD>
    requires k < |fds|
  {
    if fds[k].first == 0 then fds[k := fds[k].(first := c)] else fds
  }

  /** FileStepInv with the new state named by the caller. */
  lemma FileStepTo(g: Geometry, v: Volume, v': Volume, fds: seq<FD>, fds': seq<FD>, m: Model, m': Model,
                   k: nat, chain: seq<nat>, content: seq<Byte>, pos: nat)
    requires Inv(g, v, fds, m) && k < |fds| && fds[k].used && FileStep(g, v, v', m, fds[k].At(), chain)
    requires content <= ChainBytes(v'.data, chain) && pos <= |content|
    requires m' == m.(own := m.own[fds[k].At() := chain], files := m.files[fds[k].At() := content])
    requires fds' == fds[k := fds[k].(first := Head(chain), size := |content|, pos := pos)]
    ensures Inv(g, v', fds', m')
  {
    WithinLimit(g, v, v', m, fds[k].At(), chain);
    FileStepInv(g, v, v', fds, m, k, chain, content, pos);
  }

  lemma GrownEqual(g: Geometry, v: Volume, fds: seq<FD>, m: Model, k: nat, c: nat)
    requires Linked(g, v, m) && DescriptorsOk(fds, m) && k < |fds| && fds[k].used
    ensures var s := fds[k].At();
      && s in m.own && s in m.files
      && GrownModel(fds, m, k, c) == m.(own := m.own[s := m.own[s] + [c]], files := m.files[s := m.files[s]])
      && GrownFds(fds, k, c)
          == fds[k := fds[k].(first := Head(m.own[s] + [c]), size := |m.files[s]|, pos := fds[k].pos)]
  {
    FirstIsHead(g, v, fds, m, k);
    assert m.files[fds[k].At() := m.files[fds[k].At()]] == m.files;
  }

  lemma FilePrefix(g: Geometry, v: Volume, fds: seq<FD>, m: Model, s: Slot)
    requires FilesOk(g, v, fds, m) && s in m.files
    ensures s in m.own && m.files[s] <= ChainBytes(v.data, m.own[s])
  {
  }

  lemma GrowFile(g: Geometry, v: Volume, fds: seq<FD>, m: Model, k: nat, c: nat)
    requires Inv(g, v, fds, m) && k < |fds| && fds[k].used && 2 <= c < |v.fat| && v.fat[c] == FAT_FREE
    requires fds[k].At() in m.own && c < |v.data|
    requires m.own[fds[k].At()] != [] ==> m.own[fds[k].At()][|m.own[fds[k].At()]| - 1] < |v.fat|
    ensures Inv(g, GrownVolume(g, v, m.own[fds[k].At()], c), GrownFds(fds, k, c), GrownModel(fds, m, k, c))
    ensures ChainBytes(GrownVolume(g, v, m.own[fds[k].At()], c).data, m.own[fds[k].At()] + [c])
         == ChainBytes(v.data, m.own[fds[k].At()]) + ZeroBytes(g.secPerClus * 512)
  {
    hide FileStep, Linked, EntsAreSlots, SlotsAreEnts, DirsOk, OwnersOk, FilesOk, GrownVolume, ZeroBytes,
      GrownModel, GrownFds, ChainBytes;
    var s := fds[k].At();
    GrownEqual(g, v, fds, m, k, c);
    FilePrefix(g, v, fds, m, s);
    GrowStepOk(g, v, m, s, c);
    FileStepTo(g, v, GrownVolume(g, v, m.own[s], c), fds, GrownFds(fds, k, c), m, GrownModel(fds, m, k, c),
               k, m.own[s] + [c], m.files[s], fds[k].pos);
  }

  lemma FirstIsHead(g: Geometry, v: Volume, fds: seq<FD>, m: Model, k: nat)
    requires Linked(g, v, m) && DescriptorsOk(fds, m) && k < |fds| && fds[k].used
    ensures fds[k].At() in m.own && fds[k].At() in m.files
    ensures fds[k].first == 0 <==> m.own[fds[k].At()] == []
    ensures m.own[fds[k].At()] != [] ==> fds[k].first == m.own[fds[k].At()][0]
  {
    var s := m.own[fds[k].At()];
    assert s != [] ==> 2 <= s[0];
  }

  lemma WithinLimit(g: Geometry, v: Volume, v': Volume, m: Model, s: Slot, chain: seq<nat>)
    requires Linked(g, v, m) && FileStep(g, v, v', m, s, chain)
    ensures Within(chain, |v'.data|)
  {
    var own' := m.own[s := chain];
    assert s in own' && own'[s] == chain;
  }

  /** The contents recorded for file k brought in line with the given chain bytes. */
  ghost function Refreshed(fds: seq<FD>, m: Model, k: nat, bytes: seq<Byte>): Model
    requires k < |fds| && fds[k].At() in m.files && |m.files[fds[k].At()]| <= |bytes|
  {
    m.(files := m.files[fds[k].At() := bytes[..|m.files[fds[k].At()]|]])
  }

  lemma RefreshedEqual(g: Geometry, v: Volume, fds: seq<FD>, m: Model, k: nat, bytes: seq<Byte>)
    requires Linked(g, v, m) && DescriptorsOk(fds, m) && k < |fds| && fds[k].used
    requires fds[k].At() in m.files && |m.files[fds[k].At()]| <= |bytes|
    ensures var s := fds[k].At(); var content := bytes[..|m.files[s]|];
      && s in m.own
      && Refreshed(fds, m, k, bytes) == m.(own := m.own[s := m.own[s]], files := m.files[s := content])
      && fds == fds[k := fds[k].(first := Head(m.own[s]), size := |content|, pos := fds[k].pos)]
  {
    FirstIsHead(g, v, fds, m, k);
    assert m.own[fds[k].At() := m.own[fds[k].At()]] == m.own;
  }

  lemma PutSectors(g: Geometry, v: Volume, m: Model, s: Slot, j: nat, t: nat, sec: Sector)
    requires Linked(g, v, m) && s in m.own && j < |m.own[s]| && t < g.secPerClus
    ensures var chain := m.own[s];
      && 2 <= chain[j] < |v.data| && t < |v.data[chain[j]]|
      && Times(j, g.secPerClus) + t < |ChainSectors(v.data, chain)| == Times(|chain|, g.secPerClus)
      && ChainSectors(v.data, chain)[Times(j, g.secPerClus) + t] == v.data[chain[j]][t]
      && ChainSectors(SetSector(v.data, chain[j], t, sec), chain)
          == ChainSectors(v.data, chain)[Times(j, g.secPerClus) + t := sec]
      && FileStep(g, v, v.(data := SetSector(v.data, chain[j], t, sec)), m, s, chain)
  {
    var chain := m.own[s];
    OwnWithin(g, v, m, s);
    assert 2 <= chain[j] by { assert IsChain(v.fat, chain); }
    ChainIndex(v.data, chain, g.secPerClus, j, t);
    ChainUpdate(v.data, chain, g.secPerClus, j, t, sec);
    PutStepOk(g, v, m, s, j, t, sec);
  }

  /** Rewriting one sector of an open file. */
  lemma PutFile(g: Geometry, v: Volume, fds: seq<FD>, m: Model, k: nat, j: nat, t: nat, sec: Sector,
                data': seq<seq<Sector>>)
    requires Inv(g, v, fds, m) && k < |fds| && fds[k].used && fds[k].At() in m.own && fds[k].At() in m.files
    requires j < |m.own[fds[k].At()]| && t < g.secPerClus
    requires m.own[fds[k].At()][j] < |v.data| && t < |v.data[m.own[fds[k].At()][j]]|
    requires data' == SetSector(v.data, m.own[fds[k].At()][j], t, sec)
    ensures |m.files[fds[k].At()]| <= |ChainBytes(data', m.own[fds[k].At()])|
    ensures Inv(g, v.(data := data'), fds, Refreshed(fds, m, k, ChainBytes(data', m.own[fds[k].At()])))
  {
    hide FileStep, EntsAreSlots, SlotsAreEnts, DirsOk, OwnersOk, FilesOk, SetSector, Refreshed, ChainSectors, Conserved;
    var s := fds[k].At();
    var bytes := ChainBytes(data', m.own[s]);
    FilePrefix(g, v, fds, m, s);
    PutSectors(g, v, m, s, j, t, sec);
    RefreshedEqual(g, v, fds, m, k, bytes);
    FileStepTo(g, v, v.(data := data'), fds, fds, m, Refreshed(fds, m, k, bytes), k, m.own[s],
               bytes[..|m.files[s]|], fds[k].pos);
  }

  lemma PutStepOk(g: Geometry, v: Volume, m: Model, s: Slot, j: nat, t: nat, sec: Sector)
    requires Linked(g, v, m) && s in m.own && j < |m.own[s]| && t < g.secPerClus
    requires m.own[s][j] < |v.data| && t < |v.data[m.own[s][j]]|
    ensures FileStep(g, v, v.(data := SetSector(v.data, m.own[s][j], t, sec)), m, s, m.own[s])
  {
    hide Conserved;
    assert m.own[s := m.own[s]] == m.own;
  }

  /** The end of a write: contents, size and position move. */
  lemma FinishFile(g: Geometry, v: Volume, fds: seq<FD>, m: Model, k: nat, content: seq<Byte>, pos: nat)
    requires Inv(g, v, fds, m) && k < |fds| && fds[k].used && fds[k].At() in m.own
    requires content <= ChainBytes(v.data, m.own[fds[k].At()]) && pos <= |content|
    ensures Inv(g, v, fds[k := fds[k].(size := |content|, pos := pos)], m.(files := m.files[fds[k].At() := content]))
  {
    hide FileStep, EntsAreSlots, SlotsAreEnts, DirsOk, OwnersOk, FilesOk, Conserved, ChainBytes;
    var s := fds[k].At();
    FirstIsHead(g, v, fds, m, k);
    assert m.own[s := m.own[s]] == m.own;
    SameStep(g, v, m, s);
    FileStepTo(g, v, v, fds, fds[k := fds[k].(size := |content|, pos := pos)], m, m.(files := m.files[s := content]),
               k, m.own[s], content, pos);
  }

  lemma SameStep(g: Geometry, v: Volume, m: Model, s: Slot)
    requires Linked(g, v, m) && s in m.own
    ensures FileStep(g, v, v, m, s, m.own[s])
  {
    assert m.own[s := m.own[s]] == m.own;
  }

  // ----- a write in progress -----

  /** How far a write of src at descriptor k has come, from the state (fds0, m0) with chain bytes
      b0: `done` bytes are in place, the chain may have grown, nothing else has changed. */
  ghost predicate WriteState(g: Geometry, v: Volume, fds: seq<FD>, m: Model,
                             fds0: seq<FD>, m0: Model, b0: seq<Byte>, k: nat, src: seq<Byte>, done: nat) {
    && Inv(g, v, fds, m) && k < |fds0| && fds0[k].used && done <= |src|
    && var s := fds0[k].At();
    && s in m0.own && s in m0.files && s in m.own
    && m0.own[s] <= m.own[s]
    && var bytes := ChainBytes(v.data, m.own[s]);
    && fds0[k].pos <= |m0.files[s]| <= |b0| <= |bytes|
    && (done == 0 || fds0[k].pos + done <= |bytes|)
    && bytes == Splice(b0, |bytes|, fds0[k].pos, src[..done])
    && m == m0.(own := m0.own[s := m.own[s]], files := m0.files[s := bytes[..|m0.files[s]|]])
    && fds == fds0[k := fds0[k].(first := Head(m.own[s]))]
  }

  lemma WriteStateFacts(g: Geometry, v: Volume, fds: seq<FD>, m: Model,
                        fds0: seq<FD>, m0: Model, b0: seq<Byte>, k: nat, src: seq<Byte>, done: nat)
    requires WriteState(g, v, fds, m, fds0, m0, b0, k, src, done)
    ensures Inv(g, v, fds, m) && k < |fds| && fds[k].used && fds[k].At() == fds0[k].At() && done <= |src|
    ensures fds[k].At() in m.own && fds[k].At() in m.files
    ensures k < |fds0| && fds[k].pos == fds0[k].pos && fds[k].size == fds0[k].size
  {
  }

  lemma WritePut(g: Geometry, v: Volume, v': Volume, fds: seq<FD>, m: Model, m': Model,
                 fds0: seq<FD>, m0: Model, b0: seq<Byte>, k: nat, src: seq<Byte>, done: nat,
                 secs: seq<Sector>, x: nat, start: nat, take: nat)
    requires WriteState(g, v, fds, m, fds0, m0, b0, k, src, done) && Inv(g, v', fds, m')
    requires done + take <= |src| && start + take <= 512
    requires x < |secs| && x * 512 + start == fds0[k].pos + done
    requires k < |fds| && fds[k].At() in m.own && secs == ChainSectors(v.data, m.own[fds[k].At()])
    requires ChainSectors(v'.data, m.own[fds[k].At()]) == secs[x := PatchBytes(secs[x], start, src[done..done + take])]
    requires fds[k].At() in m.files && |m.files[fds[k].At()]| <= |ChainBytes(v'.data, m.own[fds[k].At()])|
    requires m' == Refreshed(fds, m, k, ChainBytes(v'.data, m.own[fds[k].At()]))
    ensures WriteState(g, v', fds, m', fds0, m0, b0, k, src, done + take)
  {
    hide Inv, BytesOf, PatchBytes, Splice;
    SplicePut(b0, secs, fds0[k].pos, src, done, x, start, take);
  }

  lemma WriteGrow(g: Geometry, v: Volume, v': Volume, fds: seq<FD>, m: Model,
                  fds0: seq<FD>, m0: Model, b0: seq<Byte>, k: nat, src: seq<Byte>, done: nat, c: nat)
    requires WriteState(g, v, fds, m, fds0, m0, b0, k, src, done)
    requires k < |fds| && fds[k].At() in m.own && fds[k].At() in m.files && c > 0
    requires Inv(g, v', GrownFds(fds, k, c), GrownModel(fds, m, k, c))
    requires fds[k].first == Head(m.own[fds[k].At()]) && (fds[k].first == 0 ==> m.own[fds[k].At()] == [])
    requires ChainBytes(v'.data, m.own[fds[k].At()] + [c])
          == ChainBytes(v.data, m.own[fds[k].At()]) + ZeroBytes(g.secPerClus * 512)
    ensures WriteState(g, v', GrownFds(fds, k, c), GrownModel(fds, m, k, c), fds0, m0, b0, k, src, done)
  {
    hide Inv, ChainBytes, Splice;
    var s := fds[k].At();
    var was, now := ChainBytes(v.data, m.own[s]), ChainBytes(v'.data, m.own[s] + [c]);
    SpliceGrow(b0, |was|, fds0[k].pos, src[..done], g.secPerClus * 512);
    assert now[..|m0.files[s]|] == was[..|m0.files[s]|];
  }

  lemma WriteBegin(g: Geometry, v: Volume, fds: seq<FD>, m: Model, k: nat, src: seq<Byte>)
    requires Inv(g, v, fds, m) && k < |fds| && fds[k].used && fds[k].At() in m.own
    ensures WriteState(g, v, fds, m, fds, m, ChainBytes(v.data, m.own[fds[k].At()]), k, src, 0)
  {
    hide EntsAreSlots, SlotsAreEnts, DirsOk, OwnersOk, Splice, ChainBytes;
    var s := fds[k].At();
    var b0 := ChainBytes(v.data, m.own[s]);
    FirstIsHead(g, v, fds, m, k);
    SpliceStart(b0, fds[k].pos);
    assert m.files[s] == b0[..|m.files[s]|];
    assert m == m.(own := m.own[s := m.own[s]], files := m.files[s := b0[..|m.files[s]|]]);
    assert fds == fds[k := fds[k].(first := Head(m.own[s]))];
  }

  /** A write of `data` at descriptor k, as seen afterwards: the contents are overwritten from the
      old position, the position and size move, the chain may have grown, nothing else changes. */
  ghost predicate WroteBytes(fds0: seq<FD>, m0: Model, fds1: seq<FD>, m1: Model, k: nat, data: seq<Byte>) {
    && k < |fds0|
    && var s := fds0[k].At();
    && s in m0.files && s in m0.own && s in m1.own && s in m1.files
    && fds0[k].pos <= |m0.files[s]| && m0.own[s] <= m1.own[s]
    && m1 == m0.(own := m0.own[s := m1.own[s]], files := m0.files[s := Overwrite(m0.files[s], fds0[k].pos, data)])
    && fds1 == fds0[k := fds0[k].(first := Head(m1.own[s]), size := |m1.files[s]|, pos := fds0[k].pos + |data|)]
  }

  /** How much of n bytes a write at pos accepts, and how many clusters the chain has then: all there is room
      for, and no cluster more than the bytes take. It fails only for the first cluster. */
  ghost predicate AsMuchAsFits(g: Geometry, v0: Volume, m0: Model, m1: Model, s: Slot, pos: nat, n: nat, k: int) {
    && s in m0.own && s in m1.own && g.secPerClus > 0
    && (k < 0 <==> m0.own[s] == [] && FreeClusters(v0.fat) == {})
    && (k <= 0 ==> m1.own == m0.own)
    && (k >= 0 ==> pos <= Room(g, v0, m0, s)
                   && k == if n < Room(g, v0, m0, s) - pos then n else Room(g, v0, m0, s) - pos)
    && (k > 0 ==> |m1.own[s]| == if |m0.own[s]| < ClustersFor(pos + k, g.secPerClus)
                                 then ClustersFor(pos + k, g.secPerClus) else |m0.own[s]|)
  }

  lemma FitsNothing(g: Geometry, v0: Volume, m0: Model, s: Slot, pos: nat, n: nat)
    requires s in m0.own && m0.own[s] == [] && g.secPerClus > 0 && forall c | 2 <= c < |v0.fat| :: v0.fat[c] != FAT_FREE
    ensures AsMuchAsFits(g, v0, m0, m0, s, pos, n, -1)
  {
    hide Room, ClustersFor;
  }

  /** The position was at the end of the chain and no cluster is left. */
  lemma FitsNoMore(g: Geometry, v0: Volume, m0: Model, v1: Volume, m1: Model, s: Slot,
                   pos: nat, n: nat, skip: nat, off: nat)
    requires s in m0.own && s in m1.own && m0.own[s] <= m1.own[s] && m1.own[s] != [] && g.secPerClus > 0
    requires m1.own == m0.own[s := m1.own[s]] && n > 0
    requires Times(skip, g.secPerClus) * 512 + off == pos <= Times(|m0.own[s]|, g.secPerClus) * 512
    requires |m1.own[s]| <= skip && Budget(v1, m1, s) == Budget(v0, m0, s)
    requires forall c | 2 <= c < |v1.fat| :: v1.fat[c] != FAT_FREE
    ensures AsMuchAsFits(g, v0, m0, m1, s, pos, n, 0)
  {
    hide Times, ClustersFor;
    var own, own1 := m0.own[s], m1.own[s];
    if |own| < skip { TimesMonotone(|own|, skip, g.secPerClus); }
    assert own1 == own;
    assert m0.own[s := own] == m0.own;
    assert FreeClusters(v1.fat) == {};
  }

  lemma FitsSome(g: Geometry, v0: Volume, m0: Model, v1: Volume, m1: Model, s: Slot, pos: nat, n: nat, k: nat)
    requires s in m0.own && s in m1.own && |m0.own[s]| <= |m1.own[s]| && g.secPerClus > 0 && 0 < k <= n
    requires pos + k <= Times(|m1.own[s]|, g.secPerClus) * 512 && Budget(v1, m1, s) == Budget(v0, m0, s)
    requires |m1.own[s]| == |m0.own[s]| || Times(|m1.own[s]| - 1, g.secPerClus) * 512 < pos + k
    requires k < n ==> pos + k == Times(|m1.own[s]|, g.secPerClus) * 512
                       && forall c | 2 <= c < |v1.fat| :: v1.fat[c] != FAT_FREE
    ensures AsMuchAsFits(g, v0, m0, m1, s, pos, n, k)
  {
    hide ClustersFor;
    if k < n { assert FreeClusters(v1.fat) == {}; }
    WroteEnough(g.secPerClus, |m0.own[s]|, |m1.own[s]|, Budget(v0, m0, s), pos, n, k);
  }

  /** Byte by byte: the data stand at the old position, every other byte of the file and every other file is as it
      was, the file is longer only if the data reach past its end, and the position is behind them. */
  lemma WroteMeans(fds0: seq<FD>, m0: Model, fds1: seq<FD>, m1: Model, k: nat, data: seq<Byte>)
    requires WroteBytes(fds0, m0, fds1, m1, k, data)
    ensures k < |fds0| && var f, s := fds0[k], fds0[k].At();
      && s in m0.files && s in m1.files && |fds1| == |fds0|
      && |m1.files[s]| == (if f.pos + |data| > |m0.files[s]| then f.pos + |data| else |m0.files[s]|)
      && (forall i | 0 <= i < |m1.files[s]| ::
            m1.files[s][i] == if f.pos <= i < f.pos + |data| then data[i - f.pos] else m0.files[s][i])
      && (forall o | o != s :: o in m1.files <==> o in m0.files)
      && (forall o | o != s && o in m0.files :: m1.files[o] == m0.files[o])
      && fds1[k].pos == f.pos + |data| && fds1[k].size == |m1.files[s]| && fds1[k].used == f.used
      && (forall i | 0 <= i < |fds0| && i != k :: fds1[i] == fds0[i])
  {
  }

  lemma WriteNothing(g: Geometry, v: Volume, fds: seq<FD>, m: Model,
                     fds0: seq<FD>, m0: Model, b0: seq<Byte>, k: nat, src: seq<Byte>)
    requires WriteState(g, v, fds, m, fds0, m0, b0, k, src, 0)
    requires m0.files[fds0[k].At()] == b0[..|m0.files[fds0[k].At()]|] && fds0[k].size == |m0.files[fds0[k].At()]|
    ensures WroteBytes(fds0, m0, fds, m, k, src[..0])
  {
    hide Inv, ChainBytes;
    var s := fds0[k].At();
    var size := |m0.files[s]|;
    assert ChainBytes(v.data, m.own[s])[..size] == b0[..size];
    assert Overwrite(m0.files[s], fds0[k].pos, src[..0]) == m0.files[s];
  }

  /** The end of a write, as contents. */
  lemma WriteFinish(g: Geometry, v: Volume, fds: seq<FD>, m: Model,
                    fds0: seq<FD>, m0: Model, b0: seq<Byte>, k: nat, src: seq<Byte>, done: nat)
    returns (fds1: seq<FD>, m1: Model)
    requires WriteState(g, v, fds, m, fds0, m0, b0, k, src, done)
    requires m0.files[fds0[k].At()] == b0[..|m0.files[fds0[k].At()]|]
    requires fds0[k].pos + done <= |ChainBytes(v.data, m.own[fds0[k].At()])|
    ensures Inv(g, v, fds1, m1) && WroteBytes(fds0, m0, fds1, m1, k, src[..done])
    ensures k < |fds| && fds1 == fds[k := fds[k].(size := fds1[k].size, pos := fds0[k].pos + done)]
    ensures fds1[k].size
        == if fds0[k].pos + done > |m0.files[fds0[k].At()]| then fds0[k].pos + done else |m0.files[fds0[k].At()]|
    ensures m1.own == m.own
  {
    hide Inv, ChainBytes, Splice, Overwrite;
    var s := fds0[k].At();
    var bytes := ChainBytes(v.data, m.own[s]);
    SpliceContents(b0, |bytes|, |m0.files[s]|, fds0[k].pos, src[..done]);
    var c := Overwrite(m0.files[s], fds0[k].pos, src[..done]);
    assert c <= bytes;
    FinishFile(g, v, fds, m, k, c, fds0[k].pos + done);
    m1 := m0.(own := m0.own[s := m.own[s]], files := m0.files[s := c]);
    assert m.(files := m.files[s := c]) == m1;
    fds1 := fds[k := fds[k].(size := |c|, pos := fds0[k].pos + done)];
  }
}
