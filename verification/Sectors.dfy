/** Bytes, 512-byte sectors, and the views of a run of sectors the driver uses:
    a flat byte string (files) and an array of 32-byte entries (directories). */
module Sectors {
  type Byte = x: int | 0 <= x < 256

  type Sector = s: seq<Byte> | |s| == 512 witness seq(512, i => 0)
  type Disk = seq<Sector>

  /** A directory entry as its 32 raw bytes. */
  type Raw = s: seq<Byte> | |s| == 32 witness seq(32, i => 0)

  function ZeroSector(): Sector {
    seq(512, i => 0)
  }

  /** The bytes of a run of sectors, in order. */
  function BytesOf(secs: seq<Sector>): (bs: seq<Byte>)
    ensures |bs| == |secs| * 512
  {
    seq(|secs| * 512, p requires 0 <= p < |secs| * 512 => secs[p / 512][p % 512])
  }

  /** The 32-byte entries of a run of sectors, sixteen to a sector. */
  function EntriesOf(secs: seq<Sector>): (es: seq<Raw>)
    ensures |es| == |secs| * 16
  {
    seq(|secs| * 16, i requires 0 <= i < |secs| * 16 => EntryAt(secs, i))
  }

  function EntryAt(secs: seq<Sector>, i: nat): Raw
    requires i < |secs| * 16
  {
    secs[i / 16][i % 16 * 32..i % 16 * 32 + 32]
  }

  /** A sector with the 32 bytes of entry slot `e` replaced. */
  function PatchEntry(sec: Sector, e: nat, raw: Raw): Sector
    requires e < 16
  {
    sec[..e * 32] + raw + sec[e * 32 + 32..]
  }

  /** Rewriting one entry in place changes that entry and no other. */
  lemma PatchEntryIsUpdate(secs: seq<Sector>, i: nat, raw: Raw)
    requires i < |secs| * 16
    ensures EntriesOf(secs[i / 16 := PatchEntry(secs[i / 16], i % 16, raw)]) == EntriesOf(secs)[i := raw]
  {
    var secs' := secs[i / 16 := PatchEntry(secs[i / 16], i % 16, raw)];
    forall j | 0 <= j < |secs| * 16
      ensures EntryAt(secs', j) == EntriesOf(secs)[i := raw][j]
    {
      if j / 16 == i / 16 && j != i {
        assert j % 16 != i % 16;
        assert j % 16 * 32 + 32 <= i % 16 * 32 || i % 16 * 32 + 32 <= j % 16 * 32;
        assert EntryAt(secs', j) == EntryAt(secs, j);
      }
    }
  }

  lemma DivShift(p: nat, a: nat, u: nat)
    requires u == 16 || u == 512
    requires a * u <= p
    ensures p / u - a == (p - a * u) / u && p % u == (p - a * u) % u
  {
    assert p == p / u * u + p % u;
  }

  lemma EntriesOfConcat(a: seq<Sector>, b: seq<Sector>)
    ensures EntriesOf(a + b) == EntriesOf(a) + EntriesOf(b)
  {
    forall j | 0 <= j < |a + b| * 16
      ensures EntryAt(a + b, j) == (EntriesOf(a) + EntriesOf(b))[j]
    {
      if j >= |a| * 16 {
        DivShift(j, |a|, 16);
      }
    }
  }

  lemma BytesOfConcat(a: seq<Sector>, b: seq<Sector>)
    ensures BytesOf(a + b) == BytesOf(a) + BytesOf(b)
  {
    forall p | 0 <= p < |a + b| * 512
      ensures BytesOf(a + b)[p] == (BytesOf(a) + BytesOf(b))[p]
    {
      if p >= |a| * 512 {
        DivShift(p, |a|, 512);
      }
    }
  }

  /** Little-endian 16- and 32-bit fields. */
  function Le16(lo: Byte, hi: Byte): nat {
    lo + 256 * hi
  }

  function Le32(b0: Byte, b1: Byte, b2: Byte, b3: Byte): nat {
    b0 + 256 * b1 + 65536 * b2 + 16777216 * b3
  }
}
