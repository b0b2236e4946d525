/** The kernel heap in memory: a linked list of 16-byte headers in front of their payloads, split and
    merged in place. Addresses are 32-bit numbers, 0 is the null pointer. */
module Heap {
  import opened Bits
  import opened Sectors
  import opened HeapBlocks

  const MAGIC := 0xDEADBEEF

  // ----- little-endian words in memory -----

  function Get32(m: seq<Byte>, a: nat): nat
    requires a + 4 <= |m|
  {
    m[a] as int + 0x100 * m[a + 1] as int + 0x1_0000 * m[a + 2] as int + 0x100_0000 * m[a + 3] as int
  }

  function Put32(m: seq<Byte>, a: nat, v: nat): (r: seq<Byte>)
    requires a + 4 <= |m| && v < WORD
    ensures |r| == |m|
  {
    m[a := v % 0x100][a + 1 := v / 0x100 % 0x100][a + 2 := v / 0x1_0000 % 0x100][a + 3 := v / 0x100_0000]
  }

  lemma GetPut32(m: seq<Byte>, a: nat, v: nat)
    requires a + 4 <= |m| && v < WORD
    ensures Get32(Put32(m, a, v), a) == v
  {
    var w := v / 0x100;
    assert v / 0x1_0000 == w / 0x100;
    assert v / 0x100_0000 == w / 0x100 / 0x100;
  }

  /** What a header says: its fields as they stand in memory. */
  datatype Header = Header(magic: nat, size: nat, free: nat, next: nat)

  function HeaderAt(m: seq<Byte>, off: nat): Header
    requires off + HEADER <= |m|
  {
    Header(Get32(m, off), Get32(m, off + 4), m[off + 8], Get32(m, off + 12))
  }

  /** Memory outside one header is the same. */
  ghost predicate OnlyHeader(m: seq<Byte>, r: seq<Byte>, off: nat) {
    |r| == |m| && forall k | 0 <= k < |m| && !(off <= k < off + HEADER) :: r[k] == m[k]
  }

  lemma OtherHeader(m: seq<Byte>, r: seq<Byte>, off: nat, other: nat)
    requires OnlyHeader(m, r, off) && other + HEADER <= |m|
    requires other + HEADER <= off || off + HEADER <= other
    ensures HeaderAt(r, other) == HeaderAt(m, other)
  {
  }

  // ----- memory that encodes a list of blocks -----

  function NextOf(pool: nat, bs: seq<Block>, i: nat): nat {
    if i + 1 < |bs| then pool + bs[i + 1].off else 0
  }

  function HeaderOf(b: Block, next: nat): Header {
    Header(MAGIC, b.size, if b.free then 1 else 0, next)
  }

  ghost predicate EncodedAt(m: seq<Byte>, pool: nat, bs: seq<Block>, i: nat)
    requires i < |bs|
  {
    bs[i].off + HEADER <= |m| && HeaderAt(m, bs[i].off) == HeaderOf(bs[i], NextOf(pool, bs, i))
  }

  ghost predicate Encoded(m: seq<Byte>, pool: nat, bs: seq<Block>) {
    |m| == HEAP_SIZE && forall i {:trigger EncodedAt(m, pool, bs, i)} | 0 <= i < |bs| :: EncodedAt(m, pool, bs, i)
  }

  /** The payload of block b is the same in both memories. */
  ghost predicate SamePayload(m: seq<Byte>, r: seq<Byte>, b: Block) {
    |m| == |r| && forall k | b.off + HEADER <= k < b.End() && k < |m| :: m[k] == r[k]
  }

  ghost predicate SamePayloads(m: seq<Byte>, r: seq<Byte>, live: set<Block>) {
    forall b | b in live :: SamePayload(m, r, b)
  }

  lemma SamePayloadsTrans(m: seq<Byte>, mid: seq<Byte>, r: seq<Byte>, live: set<Block>)
    requires SamePayloads(m, mid, live) || m == mid
    requires SamePayloads(mid, r, live) || mid == r
    ensures SamePayloads(m, r, live)
  {
  }

  lemma NoPayloads(m: seq<Byte>, r: seq<Byte>)
    ensures SamePayloads(m, r, {})
  {
  }

  lemma SamePayloadsLess(m: seq<Byte>, r: seq<Byte>, live: set<Block>, less: set<Block>)
    requires SamePayloads(m, r, live) && less <= live
    ensures SamePayloads(m, r, less)
  {
  }

  /** Rewriting the header of block i leaves every payload alone. */
  lemma HeaderKeepsPayloads(m: seq<Byte>, r: seq<Byte>, bs: seq<Block>, i: nat)
    requires Tiles(bs, 0) && i < |bs| && OnlyHeader(m, r, bs[i].off)
    ensures SamePayloads(m, r, Live(bs))
  {
    forall b | b in Live(bs) ensures SamePayload(m, r, b) {
      var j :| 0 <= j < |bs| && bs[j] == b;
      if j != i { BlocksApart(bs, i, j); }
    }
  }

  /** The list after two neighbours were joined by rewriting the header of the first. */
  lemma JoinEncoded(m: seq<Byte>, r: seq<Byte>, pool: nat, bs: seq<Block>, i: nat)
    requires Tiles(bs, 0) && Encoded(m, pool, bs) && i + 1 < |bs|
    requires OnlyHeader(m, r, bs[i].off) && bs[i].off + HEADER <= |r|
    requires HeaderAt(r, bs[i].off) == HeaderOf(Join(bs, i)[i], NextOf(pool, bs, i + 1))
    ensures Encoded(r, pool, Join(bs, i))
  {
    var js := Join(bs, i);
    forall j | 0 <= j < |js| ensures EncodedAt(r, pool, js, j) {
      if j != i {
        var k := if j < i then j else j + 1;
        assert EncodedAt(m, pool, bs, k);
        BlocksApart(bs, i, k);
        OtherHeader(m, r, bs[i].off, bs[k].off);
      }
    }
  }

  /** The list after block i was marked free or used by rewriting its header. */
  lemma MarkEncoded(m: seq<Byte>, r: seq<Byte>, pool: nat, bs: seq<Block>, i: nat, b: Block)
    requires Tiles(bs, 0) && Encoded(m, pool, bs) && i < |bs|
    requires OnlyHeader(m, r, bs[i].off) && bs[i].off + HEADER <= |r|
    requires b.off == bs[i].off && HeaderAt(r, b.off) == HeaderOf(b, NextOf(pool, bs, i))
    ensures Encoded(r, pool, bs[i := b])
  {
    var js := bs[i := b];
    forall j | 0 <= j < |js| ensures EncodedAt(r, pool, js, j) {
      if j != i {
        assert EncodedAt(m, pool, bs, j);
        BlocksApart(bs, i, j);
        OtherHeader(m, r, bs[i].off, bs[j].off);
      }
    }
  }

  /** The list after block i was split by writing a header inside it and rewriting its own. */
  lemma SplitEncoded(m: seq<Byte>, mid: seq<Byte>, r: seq<Byte>, pool: nat, bs: seq<Block>, i: nat, n: nat)
    requires Tiles(bs, 0) && Encoded(m, pool, bs) && i < |bs| && bs[i].size >= n + HEADER + 8
    requires bs[i].End() <= |m|
    requires OnlyHeader(m, mid, bs[i].off + HEADER + n) && OnlyHeader(mid, r, bs[i].off)
    requires HeaderAt(mid, bs[i].off + HEADER + n) == HeaderOf(AllocAt(bs, i, n)[i + 1], NextOf(pool, bs, i))
    requires HeaderAt(r, bs[i].off) == HeaderOf(AllocAt(bs, i, n)[i], pool + bs[i].off + HEADER + n)
    ensures Encoded(r, pool, AllocAt(bs, i, n))
  {
    var js := AllocAt(bs, i, n);
    forall j | 0 <= j < |js| ensures EncodedAt(r, pool, js, j) {
      if j == i + 1 {
        OtherHeader(mid, r, bs[i].off, js[j].off);
      } else if j != i {
        SplitOther(m, mid, r, pool, bs, i, if j < i then j else j - 1, js[i + 1].off);
      }
    }
  }

  /** The headers of the other blocks stay readable. */
  lemma SplitOther(m: seq<Byte>, mid: seq<Byte>, r: seq<Byte>, pool: nat, bs: seq<Block>, i: nat, k: nat, at: nat)
    requires Tiles(bs, 0) && Encoded(m, pool, bs) && i < |bs| && k < |bs| && k != i
    requires bs[i].off + HEADER <= at && at + HEADER <= bs[i].End() <= |m|
    requires OnlyHeader(m, mid, at) && OnlyHeader(mid, r, bs[i].off)
    ensures bs[k].off + HEADER <= |r| && HeaderAt(r, bs[k].off) == HeaderOf(bs[k], NextOf(pool, bs, k))
  {
    hide HeaderAt, HeaderOf, Encoded, Tiles;
    EncodedHeader(m, pool, bs, k);
    BlocksApart(bs, i, k);
    OtherHeader(m, mid, at, bs[k].off);
    OtherHeader(mid, r, bs[i].off, bs[k].off);
  }

  lemma EncodedHeader(m: seq<Byte>, pool: nat, bs: seq<Block>, k: nat)
    requires Encoded(m, pool, bs) && k < |bs|
    ensures bs[k].off + HEADER <= |m| && HeaderAt(m, bs[k].off) == HeaderOf(bs[k], NextOf(pool, bs, k))
  {
    assert EncodedAt(m, pool, bs, k);
  }

  lemma SplitKeepsPayloads(m: seq<Byte>, mid: seq<Byte>, r: seq<Byte>, bs: seq<Block>, i: nat, n: nat)
    requires Tiles(bs, 0) && i < |bs| && bs[i].free && bs[i].size >= n + HEADER + 8
    requires OnlyHeader(m, mid, bs[i].off + HEADER + n) && OnlyHeader(mid, r, bs[i].off)
    ensures SamePayloads(m, r, Live(bs))
  {
    forall b | b in Live(bs) ensures SamePayload(m, r, b) {
      var j :| 0 <= j < |bs| && bs[j] == b;
      BlocksApart(bs, i, j);
    }
  }

  // ----- requests -----

  /** A request rounded up to a multiple of 8, in 32-bit arithmetic. */
  function Aligned(n: nat): nat {
    (n + 7) % WORD / 8 * 8
  }

  /** Rounding covers the request exactly for requests up to 0xFFFFFFF8; larger ones wrap round to 0. */
  lemma AlignedCovers(n: nat)
    requires n < WORD
    ensures Aligned(n) % 8 == 0
    ensures n <= 0xFFFF_FFF8 <==> n <= Aligned(n)
    ensures n > 0xFFFF_FFF8 ==> Aligned(n) == 0
    ensures Aligned(n) < n + 8
  {
    var x := (n + 7) % WORD;
    assert x / 8 * 8 + x % 8 == x;
    if n <= 0xFFFF_FFF8 { assert x == n + 7; } else { assert x == n + 7 - WORD && x < 8; }
  }

  function InitialBlocks(): seq<Block> {
    [Block(0, HEAP_SIZE - HEADER, true)]
  }

  lemma InitialLayout()
    ensures Layout(InitialBlocks()) && Live(InitialBlocks()) == {}
  {
    assert (HEAP_SIZE - HEADER) % 8 == 0;
    assert JoinAt(InitialBlocks(), 0);
  }

  ghost function Sizes(bs: seq<Block>, free: bool): nat {
    if bs == [] then 0
    else Sizes(bs[..|bs| - 1], free) + if bs[|bs| - 1].free == free then bs[|bs| - 1].size else 0
  }

  /** Free bytes, used bytes and headers make up the heap up to block i. */
  lemma {:induction false} SizesAddUp(bs: seq<Block>, i: nat)
    requires Tiles(bs, 0) && 0 < i <= |bs|
    ensures Sizes(bs[..i], true) + Sizes(bs[..i], false) + HEADER * i == bs[i - 1].End()
    decreases i
  {
    assert bs[..i][..i - 1] == bs[..i - 1];
    if i > 1 {
      SizesAddUp(bs, i - 1);
      assert JoinAt(bs, i - 2);
    }
  }

  lemma TilesFirst(bs: seq<Block>)
    requires Tiles(bs, 0)
    ensures bs != [] && bs[0].off == 0
  {
  }

  lemma AllApart(bs: seq<Block>)
    requires forall i {:trigger ApartAt(bs, i)} | 0 <= i < |bs| - 1 :: ApartAt(bs, i)
    ensures Coalesced(bs)
  {
  }

  lemma LayoutTiles(bs: seq<Block>)
    requires Layout(bs)
    ensures Tiles(bs, 0) && bs != [] && bs[0].off == 0
  {
  }

  /** Block b has been handed out for n bytes: it is new, big enough, hardly bigger, and starts at the
      lowest address with room. */
  ghost predicate Granted(before: set<Block>, after: set<Block>, b: Block, n: nat) {
    && !b.free && b !in before && after == before + {b}
    && n <= b.size < n + HEADER + 8
    && Lowest(before, b.off, HEADER + n)
  }

  ghost predicate Lowest(live: set<Block>, at: nat, len: nat) {
    Gap(live, at, len) && forall a | Gap(live, a, len) :: at <= a
  }

  /** The grant c replaces block b. */
  ghost predicate Moved(before: set<Block>, after: set<Block>, b: Block, c: Block, n: nat) {
    && !c.free && c !in before && after == before - {b} + {c}
    && n <= c.size < n + HEADER + 8
    && Lowest(before, c.off, HEADER + n)
  }

  /** The old payload of b is the front of the new payload of c. */
  ghost predicate PrefixKept(m: seq<Byte>, r: seq<Byte>, b: Block, c: Block) {
    && b.size <= c.size && c.End() <= |r| && b.End() <= |m|
    && r[c.off + HEADER..c.off + HEADER + b.size] == m[b.off + HEADER..b.End()]
  }

  /** Memory outside the payload of c is the same. */
  ghost predicate OnlyPayload(m: seq<Byte>, r: seq<Byte>, c: Block) {
    |r| == |m| && forall k | 0 <= k < |m| && !(c.off + HEADER <= k < c.End()) :: r[k] == m[k]
  }

  // ----- the same, spelled out -----

  /** A stretch between live blocks, counting their 16-byte headers, inside the 512 KB of the heap. */
  lemma GapMeans(live: set<Block>, a: nat, len: nat)
    ensures Gap(live, a, len) <==>
      a + len <= 524288 && forall b | b in live :: a + len <= b.off || b.off + 16 + b.size <= a
    ensures Room(live, len) <==> exists at :: Gap(live, at, len)
    ensures MAGIC == 0xDEADBEEF
  {
  }

  /** What is granted for n bytes: a new block of n to n + 23 bytes at the lowest place with room for it and its
      header. A grant that replaces a block is made while that one is still live. */
  lemma GrantMeans(before: set<Block>, after: set<Block>, b: Block, c: Block, n: nat)
    ensures var len := 16 + n;
      Granted(before, after, c, n) ==>
        && !c.free && c !in before && after == before + {c} && n <= c.size < n + 24
        && Gap(before, c.off, len) && (forall a: nat | Gap(before, a, len) :: c.off <= a)
    ensures var len := 16 + n;
      Moved(before, after, b, c, n) ==>
        && !c.free && c !in before && after == before - {b} + {c} && n <= c.size < n + 24
        && Gap(before, c.off, len) && (forall a: nat | Gap(before, a, len) :: c.off <= a)
  {
    hide Gap;
  }

  /** Every byte behind the header of every such block is the same. */
  lemma PayloadsMean(m: seq<Byte>, r: seq<Byte>, live: set<Block>)
    requires SamePayloads(m, r, live) && live != {}
    ensures |m| == |r|
    ensures forall b, k | b in live && b.off + 16 <= k < b.off + 16 + b.size && k < |m| :: r[k] == m[k]
  {
    var b :| b in live;
    assert SamePayload(m, r, b);
    forall b, k | b in live && b.off + 16 <= k < b.off + 16 + b.size && k < |m| ensures r[k] == m[k] {
      assert SamePayload(m, r, b);
    }
  }

  lemma PrefixMeans(m: seq<Byte>, r: seq<Byte>, b: Block, c: Block)
    requires PrefixKept(m, r, b, c)
    ensures b.size <= c.size && c.off + 16 + c.size <= |r| && b.off + 16 + b.size <= |m|
    ensures forall k | c.off + 16 <= k < c.off + 16 + b.size :: r[k] == m[k - c.off + b.off]
  {
    forall k | c.off + 16 <= k < c.off + 16 + b.size ensures r[k] == m[k - c.off + b.off] {
      var i := k - c.off - HEADER;
      assert r[c.off + HEADER..c.off + HEADER + b.size][i] == m[b.off + HEADER..b.End()][i];
    }
  }

  /** A header in memory: the magic number, the size, the mark and the address of the next header, each number with
      its lowest byte first. */
  lemma HeaderBytes(m: seq<Byte>, pool: nat, bs: seq<Block>, i: nat)
    requires Encoded(m, pool, bs) && i < |bs|
    ensures var o := bs[i].off;
      && o + 16 <= |m| == 524288
      && m[o] == 0xEF && m[o + 1] == 0xBE && m[o + 2] == 0xAD && m[o + 3] == 0xDE
      && m[o + 4] as int + 0x100 * m[o + 5] as int + 0x1_0000 * m[o + 6] as int + 0x100_0000 * m[o + 7] as int
         == bs[i].size
      && m[o + 8] == (if bs[i].free then 1 else 0)
      && m[o + 12] as int + 0x100 * m[o + 13] as int + 0x1_0000 * m[o + 14] as int + 0x100_0000 * m[o + 15] as int
         == if i + 1 < |bs| then pool + bs[i + 1].off else 0
  {
    assert EncodedAt(m, pool, bs, i);
    MagicBytes(m[bs[i].off], m[bs[i].off + 1], m[bs[i].off + 2], m[bs[i].off + 3]);
  }

  lemma MagicBytes(a: Byte, b: Byte, c: Byte, d: Byte)
    requires a as int + 0x100 * b as int + 0x1_0000 * c as int + 0x100_0000 * d as int == 0xDEADBEEF
    ensures a == 0xEF && b == 0xBE && c == 0xAD && d == 0xDE
  {
  }

  lemma PayloadWritten(m: seq<Byte>, r: seq<Byte>, pool: nat, bs: seq<Block>, j: nat)
    requires Tiles(bs, 0) && Encoded(m, pool, bs) && j < |bs| && OnlyPayload(m, r, bs[j])
    ensures Encoded(r, pool, bs) && SamePayloads(m, r, Live(bs) - {bs[j]})
  {
    forall i | 0 <= i < |bs| ensures EncodedAt(r, pool, bs, i) {
      assert EncodedAt(m, pool, bs, i);
      if i != j { BlocksApart(bs, i, j); }
    }
    forall b | b in Live(bs) - {bs[j]} ensures SamePayload(m, r, b) {
      var i :| 0 <= i < |bs| && bs[i] == b;
      BlocksApart(bs, i, j);
    }
  }

  lemma GrantedFacts(before: set<Block>, after: set<Block>, b: Block, c: Block, n: nat)
    requires Granted(before, after, c, n) && b in before
    ensures b != c && b in after && c in after && n <= c.size && before <= after - {c}
  {
  }

  lemma FinishMove(m: seq<Byte>, mid: seq<Byte>, copied: seq<Byte>, r: seq<Byte>,
                   live: set<Block>, granted: set<Block>, after: set<Block>, b: Block, c: Block, n: nat)
    requires Granted(live, granted, c, n) && b in live && after == granted - {b}
    requires SamePayloads(m, mid, live) && SamePayloads(m, copied, live)
    requires PrefixKept(mid, copied, b, c) && SamePayloads(copied, r, after)
    ensures Moved(live, after, b, c, n) && PrefixKept(m, r, b, c)
    ensures SamePayloads(m, r, live - {b})
  {
    assert after == live - {b} + {c};
    assert SamePayload(copied, r, c) && SamePayload(m, mid, b);
    assert r[c.off + HEADER..c.off + HEADER + b.size] == copied[c.off + HEADER..c.off + HEADER + b.size];
    assert m[b.off + HEADER..b.End()] == mid[b.off + HEADER..b.End()];
    forall d | d in live - {b} ensures SamePayload(m, r, d) {
      assert SamePayload(m, copied, d) && SamePayload(copied, r, d);
    }
  }

  lemma GrantedByFirstFit(bs: seq<Block>, i: nat, n: nat)
    requires Layout(bs) && i < |bs| && bs[i].free && bs[i].size >= n
    requires forall j | 0 <= j < i :: !(bs[j].free && bs[j].size >= n)
    ensures Granted(Live(bs), Live(AllocAt(bs, i, n)), AllocAt(bs, i, n)[i], n)
    ensures Room(Live(bs), HEADER + n) && AllocAt(bs, i, n)[i].off == bs[i].off
  {
    hide Layout;
    LayoutTiles(bs);
    AllocLive(bs, i, n);
    FreeIsGap(bs, i, n);
    var len := HEADER + n;
    forall a | Gap(Live(bs), a, len) ensures bs[i].off <= a { FirstFitIsLowest(bs, i, n, a); }
    var b := AllocAt(bs, i, n)[i];
    forall c | c in Live(bs) ensures c.off != b.off {
      var j :| 0 <= j < |bs| && bs[j] == c;
      BlocksApart(bs, i, j);
    }
  }

  lemma SizesTotal(bs: seq<Block>)
    requires Tiles(bs, 0)
    ensures Sizes(bs, true) + Sizes(bs, false) + HEADER * |bs| == HEAP_SIZE
  {
    assert JoinAt(bs, |bs| - 1) && bs[..|bs|] == bs;
    SizesAddUp(bs, |bs|);
  }

  lemma SizesNone(bs: seq<Block>)
    ensures Sizes(bs[..0], true) == 0 && Sizes(bs[..0], false) == 0
  {
  }

  lemma SizesStep(bs: seq<Block>, i: nat)
    requires Tiles(bs, 0) && i < |bs|
    ensures Sizes(bs[..i + 1], bs[i].free) == (Sizes(bs[..i], bs[i].free) + bs[i].size) % WORD
    ensures Sizes(bs[..i + 1], !bs[i].free) == Sizes(bs[..i], !bs[i].free)
  {
    SizesAddUp(bs, i + 1);
    TilesOrder(bs, 0, i, i);
    assert bs[..i + 1][..i] == bs[..i];
  }

  /** One block more counts as used or as free, and none counts for nothing. */
  lemma SizesMean(bs: seq<Block>, b: Block)
    ensures Sizes([], true) == Sizes([], false) == 0
    ensures b.free ==> Sizes(bs + [b], true) == Sizes(bs, true) + b.size && Sizes(bs + [b], false) == Sizes(bs, false)
    ensures !b.free ==> Sizes(bs + [b], true) == Sizes(bs, true) && Sizes(bs + [b], false) == Sizes(bs, false) + b.size
  {
    assert (bs + [b])[..|bs|] == bs;
  }

  class Kmalloc {
    const pool: nat
    const mem: array<Byte>
    var head: nat
    var ready: bool
    /** The blocks the headers describe; before the heap is set up, the ones they are going to describe. */
    ghost var blocks: seq<Block>

    ghost predicate Valid()
      reads this, mem
    {
      && mem.Length == HEAP_SIZE && 0 < pool && pool + HEAP_SIZE <= WORD
      && Layout(blocks)
      && (ready ==> head == pool && Encoded(mem[..], pool, blocks))
      && (!ready ==> head == 0 && blocks == InitialBlocks())
    }

    /** The pointer a caller holds for block b. */
    ghost function PointerTo(b: Block): nat {
      pool + b.off + HEADER
    }

    ghost predicate IsLive(p: nat, b: Block)
      reads this
    {
      b in Live(blocks) && p == PointerTo(b)
    }

    constructor (pool: nat, mem: array<Byte>)
      requires mem.Length == HEAP_SIZE && 0 < pool && pool + HEAP_SIZE <= WORD
      ensures Valid() && this.mem == mem && this.pool == pool && !ready
      ensures blocks == [Block(0, 524272, true)]
    {
      this.pool := pool;
      this.mem := mem;
      head := 0;
      ready := false;
      blocks := InitialBlocks();
      InitialLayout();
    }

    // ----- header fields -----

    method Load32(a: nat) returns (v: nat)
      requires pool <= a && a - pool + 4 <= mem.Length
      ensures v == Get32(mem[..], a - pool)
    {
      var o := a - pool;
      v := mem[o] as int + 0x100 * mem[o + 1] as int + 0x1_0000 * mem[o + 2] as int + 0x100_0000 * mem[o + 3] as int;
    }

    method Store32(a: nat, v: nat)
      requires pool <= a && a - pool + 4 <= mem.Length && v < WORD
      modifies mem
      ensures mem[..] == Put32(old(mem[..]), a - pool, v)
      ensures Get32(mem[..], a - pool) == v
    {
      var o := a - pool;
      GetPut32(mem[..], o, v);
      mem[o] := v % 0x100;
      mem[o + 1] := v / 0x100 % 0x100;
      mem[o + 2] := v / 0x1_0000 % 0x100;
      mem[o + 3] := v / 0x100_0000;
    }

    method SetSize(h: nat, size: nat)
      requires pool <= h && h - pool + HEADER <= mem.Length && size < WORD
      modifies mem
      ensures OnlyHeader(old(mem[..]), mem[..], h - pool)
      ensures HeaderAt(mem[..], h - pool) == old(HeaderAt(mem[..], h - pool)).(size := size)
    {
      Store32(h + 4, size);
    }

    method SetNext(h: nat, next: nat)
      requires pool <= h && h - pool + HEADER <= mem.Length && next < WORD
      modifies mem
      ensures OnlyHeader(old(mem[..]), mem[..], h - pool)
      ensures HeaderAt(mem[..], h - pool) == old(HeaderAt(mem[..], h - pool)).(next := next)
    {
      Store32(h + 12, next);
    }

    method SetFree(h: nat, free: Byte)
      requires pool <= h && h - pool + HEADER <= mem.Length
      modifies mem
      ensures OnlyHeader(old(mem[..]), mem[..], h - pool)
      ensures HeaderAt(mem[..], h - pool) == old(HeaderAt(mem[..], h - pool)).(free := free)
    {
      mem[h - pool + 8] := free;
    }

    method SetMagic(h: nat, magic: nat)
      requires pool <= h && h - pool + HEADER <= mem.Length && magic < WORD
      modifies mem
      ensures OnlyHeader(old(mem[..]), mem[..], h - pool)
      ensures HeaderAt(mem[..], h - pool) == old(HeaderAt(mem[..], h - pool)).(magic := magic)
    {
      Store32(h, magic);
    }

    // ----- the allocator -----

    method Init()
      requires Valid() && !ready
      modifies this, mem
      ensures Valid() && ready && blocks == old(blocks)
    {
      hide Layout, Get32;
      head := pool;
      SetMagic(head, MAGIC);
      SetSize(head, HEAP_SIZE - HEADER);
      SetFree(head, 1);
      SetNext(head, 0);
      ready := true;
      assert EncodedAt(mem[..], pool, blocks, 0);
    }

    /** Two free neighbours become one block by rewriting the header of the first. */
    method MergeWithNext(cur: nat, next: nat, ghost i: nat)
      requires mem.Length == HEAP_SIZE && 0 < pool && pool + HEAP_SIZE <= WORD
      requires Tiles(blocks, 0) && Encoded(mem[..], pool, blocks)
      requires i + 1 < |blocks| && blocks[i].free && blocks[i + 1].free
      requires cur == pool + blocks[i].off && next == pool + blocks[i + 1].off
      modifies this`blocks, mem
      ensures blocks == Join(old(blocks), i)
      ensures Tiles(blocks, 0) && Encoded(mem[..], pool, blocks)
      ensures Live(blocks) == old(Live(blocks)) && SamePayloads(old(mem[..]), mem[..], Live(blocks))
    {
      hide Tiles, Encoded, SamePayloads, Live, Get32;
      HeaderRead(i);
      HeaderRead(i + 1);
      var size := Load32(cur + 4);
      var nextSize := Load32(next + 4);
      var nextNext := Load32(next + 12);
      assert nextNext == NextOf(pool, blocks, i + 1) < WORD by {
        if i + 2 < |blocks| { HeaderRead(i + 2); }
      }
      SetSize(cur, size + HEADER + nextSize);
      SetNext(cur, nextNext);
      HeaderKeepsPayloads(old(mem[..]), mem[..], blocks, i);
      JoinEncoded(old(mem[..]), mem[..], pool, blocks, i);
      JoinTiles(blocks, i);
      blocks := Join(blocks, i);
    }

    /** Join every run of free neighbours into one block. */
    method MergeFreeBlocks()
      requires ready && mem.Length == HEAP_SIZE && 0 < pool && pool + HEAP_SIZE <= WORD && head == pool
      requires Tiles(blocks, 0) && Encoded(mem[..], pool, blocks)
      modifies this`blocks, mem
      ensures Valid() && Live(blocks) == old(Live(blocks))
      ensures SamePayloads(old(mem[..]), mem[..], Live(blocks))
    {
      hide Tiles, Encoded, SamePayloads, Live, Coalesced, Get32;
      var cur := head;
      ghost var i := 0;
      TilesFirst(blocks);
      SamePayloadsTrans(mem[..], mem[..], mem[..], Live(blocks));
      HeaderRead(0);
      var next := Load32(cur + 12);
      while next != 0
        invariant Tiles(blocks, 0) && Encoded(mem[..], pool, blocks)
        invariant i < |blocks| && cur == pool + blocks[i].off && next == NextOf(pool, blocks, i)
        invariant forall j {:trigger ApartAt(blocks, j)} | 0 <= j < i :: ApartAt(blocks, j)
        invariant Live(blocks) == old(Live(blocks))
        invariant SamePayloads(old(mem[..]), mem[..], Live(blocks))
        decreases |blocks| - i
      {
        HeaderRead(i);
        HeaderRead(i + 1);
        var free := mem[cur - pool + 8];
        var nextFree := mem[next - pool + 8];
        if free != 0 && nextFree != 0 {
          ghost var before, was := mem[..], blocks;
          MergeWithNext(cur, next, i);
          SamePayloadsTrans(old(mem[..]), before, mem[..], Live(blocks));
          forall j | 0 <= j < i ensures ApartAt(blocks, j) { assert ApartAt(was, j); }
        } else {
          assert ApartAt(blocks, i);
          cur := next;
          i := i + 1;
        }
        HeaderRead(i);
        next := Load32(cur + 12);
      }
      AllApart(blocks);
    }

    /** Give block i to a request of n bytes, splitting off the rest when it can hold a block of its own. */
    method Take(cur: nat, n: nat, ghost i: nat)
      requires Valid() && ready && n % 8 == 0
      requires i < |blocks| && blocks[i].free && blocks[i].size >= n && cur == pool + blocks[i].off
      modifies this`blocks, mem
      ensures Valid() && blocks == AllocAt(old(blocks), i, n)
      ensures SamePayloads(old(mem[..]), mem[..], old(Live(blocks)))
    {
      hide Layout, Tiles, Encoded, SamePayloads, Live, Get32;
      LayoutTiles(blocks);
      HeaderRead(i);
      var size := Load32(cur + 4);
      if size >= n + HEADER + 8 {
        Split(cur, n, size, i);
      } else {
        SetFree(cur, 0);
        HeaderKeepsPayloads(old(mem[..]), mem[..], blocks, i);
        MarkEncoded(old(mem[..]), mem[..], pool, blocks, i, Used(blocks[i]));
      }
      AllocLayout(blocks, i, n);
      blocks := AllocAt(blocks, i, n);
    }

    /** Cut block i after n bytes: a header for the rest, and a new header for the block itself. */
    method Split(cur: nat, n: nat, size: nat, ghost i: nat)
      requires Valid() && ready && n % 8 == 0
      requires i < |blocks| && blocks[i].free && cur == pool + blocks[i].off
      requires blocks[i].size == size >= n + HEADER + 8
      modifies mem
      ensures Encoded(mem[..], pool, AllocAt(blocks, i, n))
      ensures SamePayloads(old(mem[..]), mem[..], Live(blocks))
    {
      hide Layout, Tiles, Encoded, SamePayloads, Live, Get32;
      LayoutTiles(blocks);
      HeaderRead(i);
      var next := Load32(cur + 12);
      assert next == NextOf(pool, blocks, i) < WORD by {
        if i + 1 < |blocks| { HeaderRead(i + 1); }
      }
      var split := cur + HEADER + n;
      SetMagic(split, MAGIC);
      SetSize(split, size - n - HEADER);
      SetFree(split, 1);
      SetNext(split, next);
      ghost var mid := mem[..];
      OtherHeader(old(mem[..]), mid, split - pool, blocks[i].off);
      SetSize(cur, n);
      SetNext(cur, split);
      SetFree(cur, 0);
      SplitEncoded(old(mem[..]), mid, mem[..], pool, blocks, i, n);
      SplitKeepsPayloads(old(mem[..]), mid, mem[..], blocks, i, n);
    }

    /** First fit. The result is null exactly for the empty request or when no stretch between live
        blocks has room for a header and the rounded request; otherwise it is a new block of that size
        at the lowest address with room, and nothing else changes. */
    method Alloc(size: nat) returns (p: nat, ghost b: Block)
      requires Valid() && size < WORD
      modifies this, mem
      ensures Valid() && ready
      ensures p == 0 <==> size == 0 || !Room(old(Live(blocks)), HEADER + Aligned(size))
      ensures p == 0 ==> blocks == old(blocks)
      ensures p != 0 ==> p == pool + b.off + 16 && Granted(old(Live(blocks)), Live(blocks), b, Aligned(size))
      ensures SamePayloads(old(mem[..]), mem[..], old(Live(blocks)))
    {
      hide Layout, Tiles, Encoded, SamePayloads, Live, Room, Granted, HeaderAt;
      if !ready {
        EmptyHeap();
        Init();
        NoPayloads(old(mem[..]), mem[..]);
      }
      b := Block(0, 0, false);
      if size == 0 {
        SamePayloadsTrans(mem[..], mem[..], mem[..], Live(blocks));
        return 0, b;
      }
      var aligned := (size + 7) % WORD / 8 * 8;
      AlignedCovers(size);
      ghost var at := mem[..];
      SamePayloadsTrans(at, at, at, Live(blocks));
      LayoutTiles(blocks);
      ghost var i := 0;
      var cur := head;
      while cur != 0
        invariant Valid() && ready && mem[..] == at && blocks == old(blocks)
        invariant i <= |blocks| && cur == if i < |blocks| then pool + blocks[i].off else 0
        invariant forall j | 0 <= j < i :: !(blocks[j].free && blocks[j].size >= aligned)
        decreases |blocks| - i
      {
        LayoutTiles(blocks);
        HeaderRead(i);
        FieldsRead(cur, i);
        var free := mem[cur - pool + 8];
        var have := Load32(cur + 4);
        if free != 0 && have >= aligned {
          b := AllocAt(blocks, i, aligned)[i];
          GrantedByFirstFit(blocks, i, aligned);
          Take(cur, aligned, i);
          SamePayloadsTrans(old(mem[..]), at, mem[..], old(Live(blocks)));
          return cur + HEADER, b;
        }
        cur := Load32(cur + 12);
        i := i + 1;
      }
      FitsIffGap(blocks, aligned);
      return 0, b;
    }

    lemma EmptyHeap()
      requires Valid() && !ready
      ensures Live(blocks) == {}
    {
      InitialLayout();
    }

    /** The fields of the header at address cur. */
    lemma FieldsRead(cur: nat, i: nat)
      requires Valid() && ready && i < |blocks| && cur == pool + blocks[i].off
      requires blocks[i].off + HEADER <= mem.Length
      ensures Get32(mem[..], cur - pool + 4) == blocks[i].size
      ensures mem[cur - pool + 8] as int == if blocks[i].free then 1 else 0
      ensures Get32(mem[..], cur - pool + 12) == NextOf(pool, blocks, i)
      ensures Get32(mem[..], cur - pool) == MAGIC
    {
      hide Layout;
      assert EncodedAt(mem[..], pool, blocks, i);
    }

    /** Give a live block back: exactly that block stops being live, and no other payload changes.
        Null is ignored. */
    method Free(p: nat, ghost b: Block)
      requires Valid() && (p == 0 || IsLive(p, b))
      modifies this`blocks, mem
      ensures Valid()
      ensures p == 0 ==> blocks == old(blocks) && mem[..] == old(mem[..])
      ensures p != 0 ==> Live(blocks) == old(Live(blocks)) - {b}
      ensures p != 0 ==> SamePayloads(old(mem[..]), mem[..], Live(blocks))
    {
      hide Layout, Tiles, Encoded, SamePayloads, Live, HeaderAt;
      if p == 0 { return; }
      var hdr := p - HEADER;
      ghost var i := IndexOfLive(p, b);
      LayoutTiles(blocks);
      HeaderRead(i);
      FieldsRead(hdr, i);
      var magic := Load32(hdr);
      if magic != MAGIC { return; }
      SetFree(hdr, 1);
      HeaderKeepsPayloads(old(mem[..]), mem[..], blocks, i);
      MarkEncoded(old(mem[..]), mem[..], pool, blocks, i, blocks[i].(free := true));
      ReleaseTiles(blocks, i);
      blocks := Release(blocks, i);
      SamePayloadsLess(old(mem[..]), mem[..], old(Live(blocks)), Live(blocks));
      ghost var mid := mem[..];
      MergeFreeBlocks();
      SamePayloadsTrans(old(mem[..]), mid, mem[..], Live(blocks));
    }

    /** Where a live block is in the list; the heap has been set up if there is one. */
    lemma IndexOfLive(p: nat, b: Block) returns (i: nat)
      requires Valid() && IsLive(p, b)
      ensures ready && i < |blocks| && blocks[i] == b && !b.free
      ensures b.End() <= HEAP_SIZE && p - HEADER == pool + b.off
    {
      if !ready { EmptyHeap(); }
      i :| 0 <= i < |blocks| && blocks[i] == b;
      TilesOrder(blocks, 0, i, i);
    }

    method Size(p: nat, ghost b: Block) returns (n: nat)
      requires Valid() && (p == 0 || IsLive(p, b))
      ensures n == if p == 0 then 0 else b.size
    {
      if p == 0 { return 0; }
      var hdr := p - HEADER;
      ghost var i := IndexOfLive(p, b);
      LayoutTiles(blocks);
      HeaderRead(i);
      FieldsRead(hdr, i);
      var magic := Load32(hdr);
      n := 0;
      if magic != MAGIC { return; }
      n := Load32(hdr + 4);
    }

    /** Resize. Null asks for a new block, size 0 gives the block back. A block that is big enough
        stays; otherwise a new one is granted while the old is still live, the whole old payload is
        copied to its front, and the old one is given back. Failing changes nothing. */
    method Realloc(p: nat, ghost b: Block, size: nat) returns (q: nat, ghost c: Block)
      requires Valid() && size < WORD && (p == 0 || IsLive(p, b))
      requires p != 0 && size > 0xFFFF_FFF8 ==> !Room(Live(blocks), HEADER)
      modifies this, mem
      ensures Valid()
      ensures p == 0 ==> (q == 0 <==> size == 0 || !Room(old(Live(blocks)), HEADER + Aligned(size)))
      ensures p == 0 && q != 0 ==>
        q == pool + c.off + 16 && Granted(old(Live(blocks)), Live(blocks), c, Aligned(size))
      ensures p == 0 && q == 0 ==> blocks == old(blocks)
      ensures p == 0 ==> SamePayloads(old(mem[..]), mem[..], old(Live(blocks)))
      ensures p != 0 && size == 0 ==> q == 0 && Live(blocks) == old(Live(blocks)) - {b}
      ensures p != 0 && 0 < size <= b.size ==> q == p && c == b && blocks == old(blocks) && mem[..] == old(mem[..])
      ensures p != 0 && size > b.size ==> (q == 0 <==> !Room(old(Live(blocks)), HEADER + Aligned(size)))
      ensures p != 0 && size > b.size && q == 0 ==> blocks == old(blocks)
      ensures p != 0 && size > b.size && q != 0 ==>
        q == pool + c.off + 16 && size <= c.size && Moved(old(Live(blocks)), Live(blocks), b, c, Aligned(size))
      ensures p != 0 && size > b.size && q != 0 ==> PrefixKept(old(mem[..]), mem[..], b, c)
      ensures p != 0 && (size == 0 || (size > b.size && q != 0)) ==>
        SamePayloads(old(mem[..]), mem[..], old(Live(blocks)) - {b})
      ensures p != 0 && size != 0 && q == 0 ==> SamePayloads(old(mem[..]), mem[..], old(Live(blocks)))
    {
      hide Layout, Tiles, Encoded, SamePayloads, Live, Room, Granted, HeaderAt, Aligned, Moved, PrefixKept;
      c := b;
      if p == 0 {
        q, c := Alloc(size);
        return;
      }
      if size == 0 {
        Free(p, b);
        return 0, c;
      }
      var hdr := p - HEADER;
      ghost var i := IndexOfLive(p, b);
      var have := Size(p, b);
      if have >= size { return p, b; }
      AlignedCovers(size);
      q, c := Alloc(size);
      if q == 0 { return; }
      ghost var mid, live := mem[..], old(Live(blocks));
      GrantedFacts(live, Live(blocks), b, c, Aligned(size));
      Copy(q, p, have, b, c);
      ghost var copied, granted := mem[..], Live(blocks);
      SamePayloadsLess(mid, copied, Live(blocks) - {c}, live);
      SamePayloadsTrans(old(mem[..]), mid, copied, live);
      Free(p, b);
      FinishMove(old(mem[..]), mid, copied, mem[..], live, granted, Live(blocks), b, c, Aligned(size));
    }

    method CopyBytes(dst: nat, src: nat, n: nat)
      requires pool <= dst && dst - pool + n <= mem.Length && pool <= src && src - pool + n <= mem.Length
      requires dst + n <= src || src + n <= dst
      modifies mem
      ensures mem[dst - pool..dst - pool + n] == old(mem[src - pool..src - pool + n])
      ensures forall x | 0 <= x < mem.Length && !(dst - pool <= x < dst - pool + n) :: mem[x] == old(mem[x])
    {
      for k := 0 to n
        invariant forall x | 0 <= x < mem.Length && !(dst - pool <= x < dst - pool + k) :: mem[x] == old(mem[x])
        invariant mem[dst - pool..dst - pool + k] == old(mem[src - pool..src - pool + k])
      {
        mem[dst - pool + k] := mem[src - pool + k];
      }
    }

    /** Copy the whole payload of live block b to the front of live block c. */
    method Copy(dst: nat, src: nat, n: nat, ghost b: Block, ghost c: Block)
      requires Valid() && IsLive(src, b) && IsLive(dst, c) && b != c && n == b.size <= c.size
      modifies mem
      ensures Valid() && SamePayloads(old(mem[..]), mem[..], Live(blocks) - {c})
      ensures PrefixKept(old(mem[..]), mem[..], b, c)
    {
      hide Layout, Tiles, Encoded, SamePayloads, Live, HeaderAt, Get32;
      ghost var i := IndexOfLive(src, b);
      ghost var j := IndexOfLive(dst, c);
      LayoutTiles(blocks);
      BlocksApart(blocks, i, j);
      CopyBytes(dst, src, n);
      PayloadWritten(old(mem[..]), mem[..], pool, blocks, j);
    }

    /** Totals of the payload sizes; with the headers they account for the whole heap. */
    method Info() returns (used: nat, free: nat)
      requires Valid()
      ensures !ready ==> used == 0 && free == 0
      ensures ready ==> used == Sizes(blocks, false) && free == Sizes(blocks, true)
      ensures ready ==> used + free + HEADER * |blocks| == HEAP_SIZE
    {
      hide Layout, Tiles, Encoded, Sizes, HeaderAt, HeaderOf, Get32;
      used, free := 0, 0;
      ghost var i := 0;
      var cur := head;
      LayoutTiles(blocks);
      SizesNone(blocks);
      while cur != 0
        invariant !ready ==> cur == 0 && i == 0
        invariant ready ==> i <= |blocks| && cur == if i < |blocks| then pool + blocks[i].off else 0
        invariant ready ==> used == Sizes(blocks[..i], false) && free == Sizes(blocks[..i], true)
        invariant !ready ==> used == 0 && free == 0
        decreases |blocks| - i
      {
        HeaderRead(i);
        FieldsRead(cur, i);
        SizesStep(blocks, i);
        var size := Load32(cur + 4);
        if mem[cur - pool + 8] != 0 {
          free := (free + size) % WORD;
        } else {
          used := (used + size) % WORD;
        }
        cur := Load32(cur + 12);
        i := i + 1;
      }
      if ready {
        assert blocks[..i] == blocks;
        SizesTotal(blocks);
      }
    }

    /** What reading the header of block i gives. */
    lemma HeaderRead(i: nat)
      requires mem.Length == HEAP_SIZE && pool + HEAP_SIZE <= WORD
      requires Tiles(blocks, 0) && Encoded(mem[..], pool, blocks) && i < |blocks|
      ensures blocks[i].off + HEADER <= mem.Length && blocks[i].End() <= HEAP_SIZE
      ensures HeaderAt(mem[..], blocks[i].off) == HeaderOf(blocks[i], NextOf(pool, blocks, i))
      ensures i + 1 < |blocks| ==> blocks[i].End() <= blocks[i + 1].off && blocks[i + 1].End() <= HEAP_SIZE
    {
      assert EncodedAt(mem[..], pool, blocks, i);
      TilesOrder(blocks, 0, i, i);
      if i + 1 < |blocks| { TilesOrder(blocks, 0, i, i + 1); }
    }
  }

  /** Allocating and giving the block back restores the identical list of blocks. */
  method AllocFree(h: Kmalloc, n: nat)
    requires h.Valid() && n < WORD
    modifies h, h.mem
    ensures h.Valid() && h.blocks == old(h.blocks)
    ensures SamePayloads(old(h.mem[..]), h.mem[..], Live(h.blocks))
  {
    var p, b := h.Alloc(n);
    ghost var taken, mid := h.blocks, h.mem[..];
    h.Free(p, b);
    if p != 0 {
      AllocThenFree(old(h.blocks), taken, h.blocks, b);
      SamePayloadsLess(old(h.mem[..]), mid, old(Live(h.blocks)), Live(h.blocks));
      SamePayloadsTrans(old(h.mem[..]), mid, h.mem[..], Live(h.blocks));
    }
  }

  /** Giving back every live block, in whatever order the list names them, restores the single free block. */
  method FreeAll(h: Kmalloc, ps: seq<nat>, ghost bs: seq<Block>)
    requires h.Valid() && |ps| == |bs|
    requires forall i | 0 <= i < |bs| :: ps[i] == h.PointerTo(bs[i])
    requires forall i, j | 0 <= i < j < |bs| :: bs[i] != bs[j]
    requires Live(h.blocks) == set b | b in bs
    modifies h, h.mem
    ensures h.Valid() && h.blocks == [Block(0, 524272, true)]
  {
    hide Layout, Live;
    for k := 0 to |ps|
      invariant h.Valid()
      invariant Live(h.blocks) == set b | b in bs[k..]
    {
      assert bs[k..] == [bs[k]] + bs[k + 1..];
      h.Free(ps[k], bs[k]);
    }
    AllFree(h.blocks);
  }
}
