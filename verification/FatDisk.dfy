/** The on-disk layout: geometry, the FAT packed two 12-bit entries to three
    bytes, and the volume those bytes stand for. */
module FatDisk {
  import opened Sectors

  const FAT_FREE := 0x000
  const FAT_BAD := 0xFF7
  const FAT_EOC := 0xFF8

  datatype Geometry = Geometry(
    fatLba: nat, rootLba: nat, dataLba: nat, rootEntries: nat,
    secPerClus: nat, numFats: nat, fatSize: nat, totalClusters: nat)
  {
    /** One past the largest valid cluster number. */
    function Limit(): nat { totalClusters + 2 }
  }

  /** k times w, by repeated addition: the span of k runs of w sectors. */
  function Times(k: nat, w: nat): nat {
    if k == 0 then 0 else Times(k - 1, w) + w
  }

  lemma TimesIsProduct(k: nat, w: nat)
    ensures Times(k, w) == k * w
  {
    if k > 0 { TimesIsProduct(k - 1, w); }
  }

  lemma TimesMonotone(j: nat, k: nat, w: nat)
    requires j <= k
    ensures Times(j, w) <= Times(k, w)
    ensures j < k ==> Times(j, w) + w <= Times(k, w)
    decreases k
  {
    if j < k { TimesMonotone(j, k - 1, w); }
  }

  /** What a mounted volume needs of its geometry on a disk of `n` sectors: at least one FAT,
      each FAT long enough for every entry, and the regions in order and inside the disk. */
  ghost predicate GeometryOk(g: Geometry, n: nat) {
    && 1 <= g.secPerClus < 256
    && 1 <= g.numFats
    && 1 <= g.totalClusters <= 4085
    && g.fatLba + g.fatSize <= g.rootLba
    && (g.numFats > 1 ==> g.fatLba + 2 * g.fatSize <= g.rootLba)
    && g.rootLba <= g.dataLba
    && g.rootEntries <= (g.dataLba - g.rootLba) * 16
    && g.dataLba + Times(g.totalClusters, g.secPerClus) <= n
    && (ByteOff(g.totalClusters + 1) + 1) / 512 < g.fatSize
  }

  /** What the sectors stand for: the FAT as an array of entries, the root directory's sectors,
      and the sectors of each data cluster (indexed by cluster number; 0 and 1 hold none). */
  datatype Volume = Volume(fat: seq<nat>, root: seq<Sector>, data: seq<seq<Sector>>)

  // ----- bytes of one FAT copy -----

  /** Byte `off` of the FAT copy that starts at sector `base`. */
  function FatByte(d: Disk, base: nat, off: nat): Byte
    requires base + off / 512 < |d|
  {
    d[base + off / 512][off % 512]
  }

  /** Two neighbouring bytes, in one sector or in two. */
  lemma BytePlace(d: Disk, base: nat, off: nat)
    requires base + (off + 1) / 512 < |d|
    ensures base + off / 512 < |d| && FatByte(d, base, off) == d[base + off / 512][off % 512]
    ensures off % 512 == 511 ==>
      base + off / 512 + 1 < |d| && FatByte(d, base, off + 1) == d[base + off / 512 + 1][0]
    ensures off % 512 < 511 ==> FatByte(d, base, off + 1) == d[base + off / 512][off % 512 + 1]
  {
  }

  function PutByte(d: Disk, base: nat, off: nat, b: Byte): (r: Disk)
    requires base + off / 512 < |d|
    ensures |r| == |d|
  {
    d[base + off / 512 := d[base + off / 512][off % 512 := b]]
  }

  function ByteOff(c: nat): nat { c * 3 / 2 }

  /** The 12-bit value that the two bytes of entry `c` hold. */
  function Decode(c: nat, lo: Byte, hi: Byte): (v: nat)
    ensures v < 4096
  {
    if c % 2 == 1 then lo / 16 + hi * 16 else lo + hi % 16 * 256
  }

  /** The 12-bit entry of cluster `c` in the FAT copy at `base`. */
  function Entry(d: Disk, base: nat, c: nat): (v: nat)
    requires base + (ByteOff(c) + 1) / 512 < |d|
    ensures v < 4096
  {
    Decode(c, FatByte(d, base, ByteOff(c)), FatByte(d, base, ByteOff(c) + 1))
  }

  /** The two bytes of an entry after a 16-bit value is stored in it; the nibble that belongs
      to the neighbouring entry stays. */
  function NewLo(c: nat, lo: Byte, v: nat): Byte {
    if c % 2 == 1 then lo % 16 + v * 16 % 256 else v % 256
  }

  function NewHi(c: nat, hi: Byte, v: nat): Byte {
    if c % 2 == 1 then v / 16 % 256 else hi / 16 * 16 + v / 256 % 16
  }

  /** One FAT copy patched at entry `c`. */
  function PutEntry(d: Disk, base: nat, c: nat, v: nat): (r: Disk)
    requires base + (ByteOff(c) + 1) / 512 < |d|
    ensures |r| == |d|
  {
    var off := ByteOff(c);
    PutByte(PutByte(d, base, off, NewLo(c, FatByte(d, base, off), v)),
            base, off + 1, NewHi(c, FatByte(d, base, off + 1), v))
  }

  lemma PutByteGet(d: Disk, base: nat, off: nat, b: Byte, off': nat)
    requires base + off / 512 < |d| && base + off' / 512 < |d|
    ensures FatByte(PutByte(d, base, off, b), base, off') == if off' == off then b else FatByte(d, base, off')
  {
    if off / 512 == off' / 512 && off' != off {
      assert off % 512 != off' % 512;
    }
  }

  /** Two distinct entries share a byte only if they are an even entry and its successor. */
  lemma EntriesShare(c: nat, c': nat)
    requires c != c'
    ensures ByteOff(c') != ByteOff(c)
    ensures ByteOff(c') == ByteOff(c) + 1 ==> c % 2 == 0 && c' % 2 == 1
  {
  }

  /** A 12-bit value is its nibbles, split either way; a 16-bit value loses the rest. */
  lemma Digits(v: nat)
    ensures v % 4096 == v % 16 + v / 16 % 256 * 16
    ensures v % 4096 == v % 256 + v / 256 % 16 * 256
    ensures v * 16 % 256 == v % 16 * 16
  {
    LowNibble(v);
    LowByte(v);
    ShiftNibble(v);
  }

  lemma LowNibble(v: nat)
    ensures v % 4096 == v % 16 + v / 16 % 256 * 16
  {
    var q := v / 16;
    assert v == q * 16 + v % 16;
    assert q == q / 256 * 256 + q % 256;
    Remainder(v, q / 256, q % 256 * 16 + v % 16);
  }

  lemma Remainder(v: nat, k: nat, r: nat)
    requires v == k * 4096 + r && r < 4096
    ensures v % 4096 == r
  {
  }

  lemma LowByte(v: nat)
    ensures v % 4096 == v % 256 + v / 256 % 16 * 256
  {
    var q := v / 256;
    assert v == q * 256 + v % 256;
    assert q == q / 16 * 16 + q % 16;
    Remainder(v, q / 16, q % 16 * 256 + v % 256);
  }

  lemma ShiftNibble(v: nat)
    ensures v * 16 % 256 == v % 16 * 16
  {
    assert v * 16 == v / 16 * 256 + v % 16 * 16;
  }

  lemma DecodeNew(c: nat, lo: Byte, hi: Byte, v: nat)
    ensures Decode(c, NewLo(c, lo, v), NewHi(c, hi, v)) == v % 4096
  {
    Digits(v);
  }

  lemma NibbleKept(c: nat, b: Byte, v: nat)
    ensures c % 2 == 1 ==> NewLo(c, b, v) % 16 == b % 16
    ensures c % 2 == 0 ==> NewHi(c, b, v) / 16 == b / 16
  {
    Digits(v);
  }

  /** The bytes of a FAT copy after an entry was patched. */
  lemma PutEntryBytes(d: Disk, base: nat, c: nat, v: nat, x: nat)
    requires base + (ByteOff(c) + 1) / 512 < |d| && base + x / 512 < |d|
    ensures base + ByteOff(c) / 512 < |d|
    ensures FatByte(PutEntry(d, base, c, v), base, x)
         == if x == ByteOff(c) + 1 then NewHi(c, FatByte(d, base, ByteOff(c) + 1), v)
            else if x == ByteOff(c) then NewLo(c, FatByte(d, base, ByteOff(c)), v) else FatByte(d, base, x)
  {
    hide FatByte, PutByte, ByteOff, NewLo, NewHi;
    var off := ByteOff(c);
    var lo, hi := NewLo(c, FatByte(d, base, off), v), NewHi(c, FatByte(d, base, off + 1), v);
    PutByteGet(d, base, off, lo, x);
    PutByteGet(PutByte(d, base, off, lo), base, off + 1, hi, x);
  }

  /** What an entry c' decodes to when entry c, at another place, is rewritten. */
  lemma DecodeOther(c: nat, c': nat, lo0: Byte, hi0: Byte, v: nat, x: Byte, y: Byte)
    requires c != c'
    ensures ByteOff(c') == ByteOff(c) + 1 ==> Decode(c', NewHi(c, hi0, v), y) == Decode(c', hi0, y)
    ensures ByteOff(c) == ByteOff(c') + 1 ==> Decode(c', x, NewLo(c, lo0, v)) == Decode(c', x, lo0)
  {
    EntriesShare(c, c');
    EntriesShare(c', c);
    NibbleKept(c, lo0, v);
    NibbleKept(c, hi0, v);
  }

  lemma PutEntrySame(d: Disk, base: nat, c: nat, v: nat)
    requires base + (ByteOff(c) + 1) / 512 < |d|
    ensures Entry(PutEntry(d, base, c, v), base, c) == v % 4096
  {
    var off := ByteOff(c);
    var lo0, hi0 := FatByte(d, base, off), FatByte(d, base, off + 1);
    hide PutEntry, FatByte, ByteOff, NewLo, NewHi, Decode;
    PutEntryBytes(d, base, c, v, off);
    PutEntryBytes(d, base, c, v, off + 1);
    DecodeNew(c, lo0, hi0, v);
  }

  /** Half of one byte and half of another make a byte. */
  lemma NibblesFit(v: nat)
    ensures forall b: Byte :: 0 <= b % 16 + v * 16 % 256 < 256 && 0 <= b / 16 * 16 + v / 256 % 16 < 256
  {
    assert v * 16 % 256 == v % 16 * 16;
  }

  lemma PutEntryOther(d: Disk, base: nat, c: nat, v: nat, c': nat)
    requires base + (ByteOff(c) + 1) / 512 < |d|
    requires base + (ByteOff(c') + 1) / 512 < |d|
    requires c' != c
    ensures Entry(PutEntry(d, base, c, v), base, c') == Entry(d, base, c')
  {
    var off, off' := ByteOff(c), ByteOff(c');
    var lo0, hi0 := FatByte(d, base, off), FatByte(d, base, off + 1);
    var x, y := FatByte(d, base, off'), FatByte(d, base, off' + 1);
    hide PutEntry, FatByte, ByteOff, NewLo, NewHi, Decode;
    PutEntryBytes(d, base, c, v, off');
    PutEntryBytes(d, base, c, v, off' + 1);
    EntriesShare(c, c');
    DecodeOther(c, c', lo0, hi0, v, x, y);
  }

  /** The packed bytes behave as an array of 12-bit values: an entry written is read back, and
      every other entry, the neighbour that shares a byte included, keeps its value. */
  lemma PutEntryGet(d: Disk, base: nat, c: nat, v: nat, c': nat)
    requires base + (ByteOff(c) + 1) / 512 < |d|
    requires base + (ByteOff(c') + 1) / 512 < |d|
    ensures Entry(PutEntry(d, base, c, v), base, c') == if c' == c then v % 4096 else Entry(d, base, c')
  {
    hide PutEntry, Entry;
    if c' == c { PutEntrySame(d, base, c, v); } else { PutEntryOther(d, base, c, v, c'); }
  }

  /** Patching an entry is one sector write, or two when its bytes lie in two sectors. */
  lemma PutEntrySectors(d: Disk, base: nat, c: nat, v: nat)
    requires base + (ByteOff(c) + 1) / 512 < |d|
    ensures var l := base + ByteOff(c) / 512;
            var k := ByteOff(c) % 512;
            if k == 511
            then l + 1 < |d| && PutEntry(d, base, c, v)
                 == d[l := d[l][511 := NewLo(c, d[l][511], v)]][l + 1 := d[l + 1][0 := NewHi(c, d[l + 1][0], v)]]
            else l < |d| && PutEntry(d, base, c, v)
                 == d[l := d[l][k := NewLo(c, d[l][k], v)][k + 1 := NewHi(c, d[l][k + 1], v)]]
  {
    hide NewLo, NewHi;
  }

  /** Patching an entry touches only the sectors of that FAT copy that hold it. */
  lemma PutEntryFrame(d: Disk, base: nat, c: nat, v: nat, lba: nat)
    requires base + (ByteOff(c) + 1) / 512 < |d|
    requires lba < |d| && (lba < base || lba > base + (ByteOff(c) + 1) / 512)
    ensures PutEntry(d, base, c, v)[lba] == d[lba]
  {
  }

  /** The first two FAT copies agree byte for byte. */
  ghost predicate CopiesEqual(g: Geometry, d: Disk)
    requires GeometryOk(g, |d|)
  {
    g.numFats > 1 ==>
      d[g.fatLba..g.fatLba + g.fatSize] == d[g.fatLba + g.fatSize..g.fatLba + 2 * g.fatSize]
  }

  /** Sectors that belong to none of the first two FAT copies, the root directory and the clusters. */
  ghost predicate Outside(g: Geometry, l: nat) {
    || l < g.fatLba
    || g.fatLba + (if g.numFats > 1 then 2 * g.fatSize else g.fatSize) <= l < g.rootLba
    || g.dataLba + Times(g.totalClusters, g.secPerClus) <= l
  }

  /** What no driver operation after mounting disturbs: the disk's size, everything outside the FAT copies,
      the root directory and the clusters, and the agreement of the first two FAT copies. */
  ghost predicate Keeps(g: Geometry, d: Disk, d': Disk)
    requires GeometryOk(g, |d|)
  {
    && |d'| == |d|
    && (forall l | 0 <= l < |d| && Outside(g, l) :: d'[l] == d[l])
    && (CopiesEqual(g, d) ==> CopiesEqual(g, d'))
  }

  function ClusterLba(g: Geometry, c: nat): nat
    requires 2 <= c
  {
    g.dataLba + Times(c - 2, g.secPerClus)
  }

  lemma ClusterInside(g: Geometry, n: nat, c: nat)
    requires GeometryOk(g, n) && 2 <= c < g.Limit()
    ensures g.dataLba <= ClusterLba(g, c)
    ensures ClusterLba(g, c) + g.secPerClus <= g.dataLba + Times(g.totalClusters, g.secPerClus) <= n
  {
    TimesMonotone(c - 2, g.totalClusters, g.secPerClus);
  }

  /** Distinct clusters occupy disjoint sectors. */
  lemma ClustersApart(g: Geometry, c: nat, c': nat)
    requires 2 <= c && 2 <= c' && c != c'
    ensures ClusterLba(g, c) + g.secPerClus <= ClusterLba(g, c') || ClusterLba(g, c') + g.secPerClus <= ClusterLba(g, c)
  {
    if c < c' {
      TimesMonotone(c - 2, c' - 2, g.secPerClus);
    } else {
      TimesMonotone(c' - 2, c - 2, g.secPerClus);
    }
  }

  lemma EntryInside(g: Geometry, n: nat, c: nat)
    requires GeometryOk(g, n) && c < g.Limit()
    ensures (ByteOff(c) + 1) / 512 < g.fatSize
    ensures g.fatLba + g.fatSize <= n
    ensures g.numFats > 1 ==> g.fatLba + 2 * g.fatSize <= n
  {
    assert ByteOff(c) <= ByteOff(g.totalClusters + 1);
  }

  lemma EntryOfVolume(g: Geometry, d: Disk, c: nat)
    requires GeometryOk(g, |d|) && c < g.Limit()
    ensures g.fatLba + (ByteOff(c) + 1) / 512 < |d| && VolumeOf(g, d).fat[c] == Entry(d, g.fatLba, c)
  {
    EntryInside(g, |d|, c);
  }

  ghost function FatOf(g: Geometry, d: Disk): (fat: seq<nat>)
    requires GeometryOk(g, |d|)
    ensures |fat| == g.Limit()
  {
    seq(g.Limit(), c requires 0 <= c < g.Limit() => EntryInside(g, |d|, c); Entry(d, g.fatLba, c))
  }

  ghost function ClusterOf(g: Geometry, d: Disk, c: nat): (s: seq<Sector>)
    requires GeometryOk(g, |d|) && c < g.Limit()
    ensures |s| == if c < 2 then 0 else g.secPerClus
  {
    if c < 2 then [] else
      ClusterInside(g, |d|, c);
      d[ClusterLba(g, c)..ClusterLba(g, c) + g.secPerClus]
  }

  ghost function DataOf(g: Geometry, d: Disk): (data: seq<seq<Sector>>)
    requires GeometryOk(g, |d|)
    ensures |data| == g.Limit()
  {
    seq(g.Limit(), c requires 0 <= c < g.Limit() => ClusterOf(g, d, c))
  }

  ghost function VolumeOf(g: Geometry, d: Disk): (v: Volume)
    requires GeometryOk(g, |d|)
    ensures VolumeOk(g, v)
  {
    Volume(FatOf(g, d), d[g.rootLba..g.dataLba], DataOf(g, d))
  }

  ghost predicate VolumeOk(g: Geometry, v: Volume) {
    && |v.fat| == |v.data| == g.Limit()
    && g.rootEntries <= |v.root| * 16
    && (forall c | 2 <= c < |v.data| :: |v.data[c]| == g.secPerClus)
    && (forall c | 0 <= c < |v.fat| :: v.fat[c] < 4096)
  }

  /** The data clusters with sector `s` of cluster `c` replaced. */
  function SetSector(data: seq<seq<Sector>>, c: nat, s: nat, sec: Sector): seq<seq<Sector>>
    requires c < |data| && s < |data[c]|
  {
    var row: seq<Sector> := data[c];
    var row': seq<Sector> := row[s := sec];
    data[c := row']
  }

  /** The data clusters with cluster `c` overwritten by w zero sectors. */
  function Zeroed(data: seq<seq<Sector>>, c: nat, w: nat): seq<seq<Sector>>
    requires c < |data|
  {
    var row: seq<Sector> := seq(w, i => ZeroSector());
    data[c := row]
  }

  // ----- what each kind of sector write does to the volume -----

  lemma FatFrame(g: Geometry, d: Disk, d': Disk)
    requires GeometryOk(g, |d|) && |d'| == |d|
    requires forall l | g.fatLba <= l < g.fatLba + g.fatSize :: d'[l] == d[l]
    ensures FatOf(g, d') == FatOf(g, d)
  {
    forall c | 0 <= c < g.Limit()
      ensures FatOf(g, d')[c] == FatOf(g, d)[c]
    {
      EntryInside(g, |d|, c);
    }
  }

  lemma DataFrame(g: Geometry, d: Disk, d': Disk)
    requires GeometryOk(g, |d|) && |d'| == |d|
    requires forall l | g.dataLba <= l < |d| :: d'[l] == d[l]
    ensures DataOf(g, d') == DataOf(g, d)
  {
    forall c | 0 <= c < g.Limit()
      ensures ClusterOf(g, d', c) == ClusterOf(g, d, c)
    {
      if 2 <= c { ClusterInside(g, |d|, c); }
    }
  }

  lemma PutFirstCopy(g: Geometry, d: Disk, c: nat, v: nat)
    requires GeometryOk(g, |d|) && c < g.Limit()
    requires g.fatLba + (ByteOff(c) + 1) / 512 < |d|
    ensures var d' := PutEntry(d, g.fatLba, c, v);
            VolumeOf(g, d') == VolumeOf(g, d).(fat := FatOf(g, d)[c := v % 4096])
  {
    var d' := PutEntry(d, g.fatLba, c, v);
    EntryInside(g, |d|, c);
    forall c' | 0 <= c' < g.Limit()
      ensures FatOf(g, d')[c'] == FatOf(g, d)[c := v % 4096][c']
    {
      EntryInside(g, |d|, c');
      PutEntryGet(d, g.fatLba, c, v, c');
    }
    forall l | g.rootLba <= l < |d| ensures d'[l] == d[l] { PutEntryFrame(d, g.fatLba, c, v, l); }
    DataFrame(g, d, d');
  }

  lemma PutSecondCopy(g: Geometry, d: Disk, c: nat, v: nat)
    requires GeometryOk(g, |d|) && c < g.Limit() && g.numFats > 1
    requires g.fatLba + g.fatSize + (ByteOff(c) + 1) / 512 < |d|
    ensures VolumeOf(g, PutEntry(d, g.fatLba + g.fatSize, c, v)) == VolumeOf(g, d)
  {
    var d' := PutEntry(d, g.fatLba + g.fatSize, c, v);
    EntryInside(g, |d|, c);
    forall l | 0 <= l < g.fatLba + g.fatSize || g.rootLba <= l < |d| ensures d'[l] == d[l] {
      PutEntryFrame(d, g.fatLba + g.fatSize, c, v, l);
    }
    FatFrame(g, d, d');
    DataFrame(g, d, d');
  }

  lemma PutByteLocal(d: Disk, b: nat, e: Disk, b': nat, off: nat, x: Byte, n: nat)
    requires off / 512 < n && b + n <= |d| && b' + n <= |e|
    requires d[b..b + n] == e[b'..b' + n]
    ensures FatByte(d, b, off) == FatByte(e, b', off)
    ensures PutByte(d, b, off, x)[b..b + n] == PutByte(e, b', off, x)[b'..b' + n]
  {
    var k := off / 512;
    assert d[b..b + n][k] == e[b'..b' + n][k];
    assert PutByte(d, b, off, x)[b..b + n] == d[b..b + n][k := d[b + k][off % 512 := x]];
    assert PutByte(e, b', off, x)[b'..b' + n] == e[b'..b' + n][k := e[b' + k][off % 512 := x]];
  }

  /** Patching a copy is a function of that copy's own sectors. */
  lemma PutEntryLocal(d: Disk, b: nat, e: Disk, b': nat, c: nat, v: nat, n: nat)
    requires (ByteOff(c) + 1) / 512 < n
    requires b + n <= |d| && b' + n <= |e|
    requires d[b..b + n] == e[b'..b' + n]
    ensures PutEntry(d, b, c, v)[b..b + n] == PutEntry(e, b', c, v)[b'..b' + n]
  {
    var off := ByteOff(c);
    var lo, hi := NewLo(c, FatByte(d, b, off), v), NewHi(c, FatByte(d, b, off + 1), v);
    PutByteLocal(d, b, e, b', off, lo, n);
    PutByteLocal(d, b, e, b', off + 1, hi, n);
    PutByteLocal(PutByte(d, b, off, lo), b, PutByte(e, b', off, lo), b', off + 1, hi, n);
  }

  /** Patching both copies keeps them equal and touches no sector outside them. */
  lemma PutBothKeeps(g: Geometry, d: Disk, c: nat, v: nat)
    requires GeometryOk(g, |d|) && c < g.Limit() && g.numFats > 1
    requires g.fatLba + g.fatSize + (ByteOff(c) + 1) / 512 < |d|
    ensures Keeps(g, d, PutEntry(PutEntry(d, g.fatLba, c, v), g.fatLba + g.fatSize, c, v))
  {
    hide PutEntry, CopiesEqual;
    EntryInside(g, |d|, c);
    var b1, b2 := g.fatLba, g.fatLba + g.fatSize;
    var d1 := PutEntry(d, b1, c, v);
    var d2 := PutEntry(d1, b2, c, v);
    forall l | 0 <= l < |d| && Outside(g, l) ensures d2[l] == d[l] {
      PutEntryFrame(d, b1, c, v, l);
      PutEntryFrame(d1, b2, c, v, l);
    }
    if CopiesEqual(g, d) { PutBothEqual(g, d, c, v); }
  }

  lemma PutBothEqual(g: Geometry, d: Disk, c: nat, v: nat)
    requires GeometryOk(g, |d|) && c < g.Limit() && g.numFats > 1 && CopiesEqual(g, d)
    requires g.fatLba + g.fatSize + (ByteOff(c) + 1) / 512 < |d|
    ensures CopiesEqual(g, PutEntry(PutEntry(d, g.fatLba, c, v), g.fatLba + g.fatSize, c, v))
  {
    hide PutEntry;
    EntryInside(g, |d|, c);
    var b1, b2 := g.fatLba, g.fatLba + g.fatSize;
    var d1 := PutEntry(d, b1, c, v);
    var d2 := PutEntry(d1, b2, c, v);
    forall l | b2 <= l < |d| ensures d1[l] == d[l] { PutEntryFrame(d, b1, c, v, l); }
    forall l | 0 <= l < b2 ensures d2[l] == d1[l] { PutEntryFrame(d1, b2, c, v, l); }
    assert d1[b2..b2 + g.fatSize] == d[b2..b2 + g.fatSize];
    PutEntryLocal(d, b1, d1, b2, c, v, g.fatSize);
    assert d2[b1..b1 + g.fatSize] == d1[b1..b1 + g.fatSize];
  }

  lemma PutOneKeeps(g: Geometry, d: Disk, c: nat, v: nat)
    requires GeometryOk(g, |d|) && c < g.Limit() && g.numFats <= 1
    requires g.fatLba + (ByteOff(c) + 1) / 512 < |d|
    ensures Keeps(g, d, PutEntry(d, g.fatLba, c, v))
  {
    hide PutEntry;
    EntryInside(g, |d|, c);
    forall l | 0 <= l < |d| && Outside(g, l) ensures PutEntry(d, g.fatLba, c, v)[l] == d[l] {
      PutEntryFrame(d, g.fatLba, c, v, l);
    }
  }

  lemma KeepsTrans(g: Geometry, d: Disk, d1: Disk, d2: Disk)
    requires GeometryOk(g, |d|) && Keeps(g, d, d1) && GeometryOk(g, |d1|) && Keeps(g, d1, d2)
    ensures Keeps(g, d, d2)
  {
  }

  /** Storing an entry in the copies there are: the volume's FAT changes at that entry only. */
  lemma PutCopies(g: Geometry, d: Disk, c: nat, v: nat)
    requires GeometryOk(g, |d|) && c < g.Limit()
    ensures g.fatLba + (ByteOff(c) + 1) / 512 < |d|
    ensures g.numFats > 1 ==> g.fatLba + g.fatSize + (ByteOff(c) + 1) / 512 < |d|
    ensures var d1 := PutEntry(d, g.fatLba, c, v);
            var d2 := if g.numFats > 1 then PutEntry(d1, g.fatLba + g.fatSize, c, v) else d1;
            Keeps(g, d, d2) && VolumeOf(g, d2) == VolumeOf(g, d).(fat := FatOf(g, d)[c := v % 4096])
  {
    hide PutEntry, Keeps;
    EntryInside(g, |d|, c);
    PutFirstCopy(g, d, c, v);
    if g.numFats > 1 {
      PutSecondCopy(g, PutEntry(d, g.fatLba, c, v), c, v);
      PutBothKeeps(g, d, c, v);
    } else {
      PutOneKeeps(g, d, c, v);
    }
  }

  lemma PutAboveKeeps(g: Geometry, d: Disk, l: nat, sec: Sector)
    requires GeometryOk(g, |d|) && g.rootLba <= l < g.dataLba + Times(g.totalClusters, g.secPerClus)
    requires l < |d|
    ensures Keeps(g, d, d[l := sec])
  {
    var d' := d[l := sec];
    if g.numFats > 1 {
      assert d'[g.fatLba..g.fatLba + g.fatSize] == d[g.fatLba..g.fatLba + g.fatSize];
      assert d'[g.fatLba + g.fatSize..g.fatLba + 2 * g.fatSize] == d[g.fatLba + g.fatSize..g.fatLba + 2 * g.fatSize];
    }
  }

  lemma DataSector(g: Geometry, d: Disk, c: nat, s: nat)
    requires GeometryOk(g, |d|) && 2 <= c < g.Limit() && s < g.secPerClus
    ensures g.dataLba <= ClusterLba(g, c) + s < |d|
    ensures VolumeOf(g, d).data[c][s] == d[ClusterLba(g, c) + s]
  {
    ClusterInside(g, |d|, c);
  }

  lemma PutData(g: Geometry, d: Disk, c: nat, s: nat, sec: Sector)
    requires GeometryOk(g, |d|) && 2 <= c < g.Limit() && s < g.secPerClus
    requires ClusterLba(g, c) + s < |d|
    ensures var d' := d[ClusterLba(g, c) + s := sec]; var v := VolumeOf(g, d);
            && VolumeOf(g, d') == v.(data := SetSector(v.data, c, s, sec))
            && Keeps(g, d, d')
  {
    ClusterInside(g, |d|, c);
    var l := ClusterLba(g, c) + s;
    var d' := d[l := sec];
    forall c' | 0 <= c' < g.Limit()
      ensures ClusterOf(g, d', c') == SetSector(DataOf(g, d), c, s, sec)[c']
    {
      PutDataAt(g, d, c, s, sec, c');
    }
    FatFrame(g, d, d');
    PutAboveKeeps(g, d, l, sec);
  }

  lemma PutDataAt(g: Geometry, d: Disk, c: nat, s: nat, sec: Sector, c': nat)
    requires GeometryOk(g, |d|) && 2 <= c < g.Limit() && s < g.secPerClus && c' < g.Limit()
    requires ClusterLba(g, c) + s < |d|
    ensures ClusterOf(g, d[ClusterLba(g, c) + s := sec], c') == SetSector(DataOf(g, d), c, s, sec)[c']
  {
    ClusterInside(g, |d|, c);
    if 2 <= c' {
      ClusterInside(g, |d|, c');
      if c' != c { ClustersApart(g, c, c'); }
    }
  }

  lemma PutRoot(g: Geometry, d: Disk, k: nat, sec: Sector)
    requires GeometryOk(g, |d|) && g.rootLba + k < g.dataLba
    requires g.rootLba + k < |d|
    ensures var d' := d[g.rootLba + k := sec]; var v := VolumeOf(g, d);
            && VolumeOf(g, d') == v.(root := v.root[k := sec])
            && Keeps(g, d, d')
  {
    var d' := d[g.rootLba + k := sec];
    FatFrame(g, d, d');
    DataFrame(g, d, d');
    PutAboveKeeps(g, d, g.rootLba + k, sec);
  }
}
