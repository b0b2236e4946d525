/** The kernel heap as a list of blocks that tile it: what the list of headers in memory stands for. */
module HeapBlocks {
  const HEAP_SIZE := 524288
  const HEADER := 16

  /** A header at offset `off` followed by `size` payload bytes. */
  datatype Block = Block(off: nat, size: nat, free: bool)
  {
    function End(): nat { off + HEADER + size }
  }

  /** Block i ends where the next one starts; the last one ends with the heap. */
  ghost predicate JoinAt(bs: seq<Block>, i: nat)
    requires i < |bs|
  {
    bs[i].End() == if i + 1 < |bs| then bs[i + 1].off else HEAP_SIZE
  }

  ghost predicate Tiles(bs: seq<Block>, start: nat) {
    && bs != [] && bs[0].off == start
    && (forall i {:trigger JoinAt(bs, i)} | 0 <= i < |bs| :: JoinAt(bs, i))
    && (forall i | 0 <= i < |bs| :: bs[i].size % 8 == 0)
  }

  ghost predicate ApartAt(bs: seq<Block>, i: nat)
    requires i + 1 < |bs|
  {
    !(bs[i].free && bs[i + 1].free)
  }

  /** No two neighbours are both free. */
  ghost predicate Coalesced(bs: seq<Block>) {
    forall i {:trigger ApartAt(bs, i)} | 0 <= i < |bs| - 1 :: ApartAt(bs, i)
  }

  ghost predicate Layout(bs: seq<Block>) {
    Tiles(bs, 0) && Coalesced(bs)
  }

  ghost function Live(bs: seq<Block>): set<Block> {
    set b | b in bs && !b.free
  }

  lemma TilesTail(bs: seq<Block>, start: nat)
    requires Tiles(bs, start) && |bs| > 1
    ensures Tiles(bs[1..], bs[0].End())
    ensures Coalesced(bs) ==> Coalesced(bs[1..])
  {
    assert JoinAt(bs, 0);
    forall i | 0 <= i < |bs| - 1 ensures JoinAt(bs[1..], i) { assert JoinAt(bs, i + 1); }
    if Coalesced(bs) {
      forall i | 0 <= i < |bs| - 2 ensures ApartAt(bs[1..], i) { assert ApartAt(bs, i + 1); }
    }
  }

  /** Blocks come in address order and inside the heap. */
  lemma {:induction false} TilesOrder(bs: seq<Block>, start: nat, i: nat, j: nat)
    requires Tiles(bs, start) && i <= j < |bs|
    ensures start <= bs[i].off && bs[j].End() <= HEAP_SIZE
    ensures i < j ==> bs[i].End() <= bs[j].off
    decreases |bs|
  {
    assert JoinAt(bs, 0);
    if |bs| > 1 {
      TilesTail(bs, start);
      if i > 0 {
        TilesOrder(bs[1..], bs[0].End(), i - 1, j - 1);
      } else {
        TilesOrder(bs[1..], bs[0].End(), 0, if j > 0 then j - 1 else 0);
      }
    }
  }

  /** Blocks of a tiling occupy disjoint ranges. */
  lemma BlocksApart(bs: seq<Block>, i: nat, j: nat)
    requires Tiles(bs, 0) && i < |bs| && j < |bs| && i != j
    ensures bs[i].End() <= bs[j].off || bs[j].End() <= bs[i].off
  {
    if i < j { TilesOrder(bs, 0, i, j); } else { TilesOrder(bs, 0, j, i); }
  }

  // ----- the live blocks determine the list -----

  lemma LiveTail(bs: seq<Block>)
    requires |bs| > 1
    ensures Live(bs) == Live(bs[1..]) + (if bs[0].free then {} else {bs[0]})
  {
    assert bs == [bs[0]] + bs[1..];
  }

  lemma LiveAbove(bs: seq<Block>, start: nat, b: Block)
    requires Tiles(bs, start) && b in bs
    ensures start <= b.off && b.End() <= HEAP_SIZE && (b.off == start ==> b == bs[0])
    ensures b != bs[0] ==> bs[0].End() <= b.off
  {
    var j :| 0 <= j < |bs| && bs[j] == b;
    TilesOrder(bs, start, 0, j);
    TilesOrder(bs, start, j, j);
  }

  /** Two coalesced tilings with the same live blocks are the same list. */
  lemma {:induction false} Canonical(a: seq<Block>, b: seq<Block>, start: nat)
    requires Tiles(a, start) && Tiles(b, start) && Coalesced(a) && Coalesced(b)
    requires Live(a) == Live(b)
    ensures a == b
    decreases |a| + |b|
  {
    SameFirst(a, b, start);
    assert JoinAt(a, 0) && JoinAt(b, 0);
    if |a| > 1 || |b| > 1 {
      LiveAbove(a, start, a[|a| - 1]);
      LiveAbove(b, start, b[|b| - 1]);
      if |a| == 1 { LiveAbove(b, start, b[1]); }
      if |b| == 1 { LiveAbove(a, start, a[1]); }
      TilesTail(a, start);
      TilesTail(b, start);
      LiveTail(a);
      LiveTail(b);
      forall x | x in Live(a[1..]) ensures x != a[0] { LiveAbove(a[1..], a[0].End(), x); }
      forall x | x in Live(b[1..]) ensures x != b[0] { LiveAbove(b[1..], b[0].End(), x); }
      assert Live(a[1..]) == Live(b[1..]);
      Canonical(a[1..], b[1..], a[0].End());
      assert a == [a[0]] + a[1..] && b == [b[0]] + b[1..];
    }
  }

  lemma SameFirst(a: seq<Block>, b: seq<Block>, start: nat)
    requires Tiles(a, start) && Tiles(b, start) && Coalesced(a) && Coalesced(b)
    requires Live(a) == Live(b)
    ensures a[0] == b[0]
  {
    if !a[0].free {
      assert a[0] in Live(b);
      LiveAbove(b, start, a[0]);
    } else if !b[0].free {
      assert b[0] in Live(a);
      LiveAbove(a, start, b[0]);
    } else {
      NotShorter(a, b, start);
      NotShorter(b, a, start);
    }
  }

  /** A first free block reaches up to the first live block, whichever list it is in. */
  lemma NotShorter(a: seq<Block>, b: seq<Block>, start: nat)
    requires Tiles(a, start) && Tiles(b, start) && Coalesced(a)
    requires Live(a) == Live(b) && a[0].free && b[0].free
    ensures a[0].size >= b[0].size
  {
    assert JoinAt(a, 0);
    LiveAbove(b, start, b[0]);
    if |a| > 1 {
      assert ApartAt(a, 0);
      assert a[1] in Live(b);
      LiveAbove(b, start, a[1]);
    }
  }

  /** All blocks free: there is only one. */
  lemma AllFree(bs: seq<Block>)
    requires Layout(bs) && Live(bs) == {}
    ensures bs == [Block(0, HEAP_SIZE - HEADER, true)]
  {
    assert (HEAP_SIZE - HEADER) % 8 == 0;
    var one := [Block(0, HEAP_SIZE - HEADER, true)];
    assert JoinAt(one, 0);
    Canonical(bs, one, 0);
  }

  // ----- gaps -----

  /** `len` bytes from address a lie in the heap and touch no live block. */
  ghost predicate Gap(live: set<Block>, a: nat, len: nat) {
    a + len <= HEAP_SIZE && forall b | b in live :: a + len <= b.off || b.End() <= a
  }

  ghost predicate Fits(bs: seq<Block>, n: nat) {
    exists i :: 0 <= i < |bs| && bs[i].free && bs[i].size >= n
  }

  ghost predicate Room(live: set<Block>, len: nat) {
    exists a :: Gap(live, a, len)
  }

  /** A free block of n bytes exists exactly if somewhere between the live blocks there is room for
      a header and n bytes. */
  lemma FitsIffGap(bs: seq<Block>, n: nat)
    requires Layout(bs)
    ensures Fits(bs, n) <==> Room(Live(bs), HEADER + n)
  {
    if Fits(bs, n) {
      var i :| 0 <= i < |bs| && bs[i].free && bs[i].size >= n;
      FreeIsGap(bs, i, n);
    }
    if Room(Live(bs), HEADER + n) {
      var len := HEADER + n;
      var a :| Gap(Live(bs), a, len);
      var i := Covering(bs, a);
      GapIsFree(bs, a, HEADER + n, i);
    }
  }

  lemma FreeIsGap(bs: seq<Block>, i: nat, n: nat)
    requires Tiles(bs, 0) && i < |bs| && bs[i].free && bs[i].size >= n
    ensures Gap(Live(bs), bs[i].off, HEADER + n)
  {
    TilesOrder(bs, 0, i, i);
    forall b | b in Live(bs) ensures bs[i].off + HEADER + n <= b.off || b.End() <= bs[i].off {
      var j :| 0 <= j < |bs| && bs[j] == b;
      BlocksApart(bs, i, j);
    }
  }

  /** The block that covers an address. */
  lemma Covering(bs: seq<Block>, a: nat) returns (i: nat)
    requires Tiles(bs, 0) && a < HEAP_SIZE
    ensures i < |bs| && bs[i].off <= a < bs[i].End()
  {
    i := 0;
    while a >= bs[i].End()
      invariant i < |bs| && bs[i].off <= a
      decreases |bs| - i
    {
      assert JoinAt(bs, i);
      i := i + 1;
    }
  }

  lemma GapIsFree(bs: seq<Block>, a: nat, len: nat, i: nat)
    requires Layout(bs) && Gap(Live(bs), a, len) && len >= HEADER && i < |bs| && bs[i].off <= a < bs[i].End()
    ensures bs[i].free && bs[i].size >= len - HEADER
  {
    var b := bs[i];
    assert b.free || b in Live(bs);
    assert JoinAt(bs, i);
    if i + 1 < |bs| {
      assert ApartAt(bs, i);
      assert bs[i + 1] in Live(bs);
    }
  }

  /** The first block that fits starts at the lowest address with enough room. */
  lemma FirstFitIsLowest(bs: seq<Block>, i: nat, n: nat, a: nat)
    requires Layout(bs) && i < |bs|
    requires forall j | 0 <= j < i :: !(bs[j].free && bs[j].size >= n)
    requires Gap(Live(bs), a, HEADER + n)
    ensures bs[i].off <= a
  {
    var k := Covering(bs, a);
    GapIsFree(bs, a, HEADER + n, k);
    if i < k { BlocksApart(bs, i, k); TilesOrder(bs, 0, i, k); }
  }

  // ----- steps on the list -----

  function Used(b: Block): Block { b.(free := false) }

  /** Give block i to a request of n bytes, splitting off what is left if it can stand alone. */
  function AllocAt(bs: seq<Block>, i: nat, n: nat): seq<Block>
    requires i < |bs| && n <= bs[i].size
  {
    if bs[i].size >= n + HEADER + 8 then
      bs[..i] + [Block(bs[i].off, n, false), Block(bs[i].off + HEADER + n, bs[i].size - n - HEADER, true)] + bs[i + 1..]
    else bs[i := Used(bs[i])]
  }

  lemma AllocLayout(bs: seq<Block>, i: nat, n: nat)
    requires Layout(bs) && i < |bs| && bs[i].free && n <= bs[i].size && n % 8 == 0
    ensures Layout(AllocAt(bs, i, n))
  {
    var r := AllocAt(bs, i, n);
    var split := bs[i].size >= n + HEADER + 8;
    var k := if split then 1 else 0;
    forall j | 0 <= j < |r| ensures JoinAt(r, j) {
      assert JoinAt(bs, if j <= i then j else j - k);
      if j == i && split { assert r[j + 1].off == r[j].End(); }
    }
    forall j | 0 <= j < |r| - 1 ensures ApartAt(r, j) {
      if j < i { assert ApartAt(bs, j); }
      else if j > i && j - k < |bs| - 1 { assert ApartAt(bs, j - k); }
    }
    forall j | 0 <= j < |r| ensures r[j].size % 8 == 0 {
      if j == i + 1 && split { SizeLeft(bs[i].size, n); }
    }
  }

  lemma SizeLeft(s: nat, n: nat)
    requires s % 8 == 0 && n % 8 == 0 && s >= n + HEADER
    ensures (s - n - HEADER) % 8 == 0
  {
  }

  lemma AllocLive(bs: seq<Block>, i: nat, n: nat)
    requires i < |bs| && bs[i].free && n <= bs[i].size
    ensures !AllocAt(bs, i, n)[i].free && AllocAt(bs, i, n)[i].off == bs[i].off
    ensures Live(AllocAt(bs, i, n)) == Live(bs) + {AllocAt(bs, i, n)[i]}
  {
    var r := AllocAt(bs, i, n);
    forall b | b in Live(bs) ensures b in Live(r) {
      var j :| 0 <= j < |bs| && bs[j] == b;
      assert r[if j <= i then j else j + |r| - |bs|] == b;
    }
    forall b | b in Live(r) && b != r[i] ensures b in Live(bs) {
      var j :| 0 <= j < |r| && r[j] == b;
      if j < i { assert bs[j] == b; } else { assert j > i; assert bs[j - (|r| - |bs|)] == b; }
    }
  }

  /** Two free neighbours become one block. */
  function Join(bs: seq<Block>, i: nat): seq<Block>
    requires i + 1 < |bs|
  {
    bs[..i] + [Block(bs[i].off, bs[i].size + HEADER + bs[i + 1].size, true)] + bs[i + 2..]
  }

  lemma JoinTiles(bs: seq<Block>, i: nat)
    requires Tiles(bs, 0) && i + 1 < |bs| && bs[i].free && bs[i + 1].free
    ensures Tiles(Join(bs, i), 0) && Live(Join(bs, i)) == Live(bs)
  {
    var r := Join(bs, i);
    forall j | 0 <= j < |r| ensures JoinAt(r, j) {
      assert JoinAt(bs, if j < i then j else j + 1);
      if j == i { assert JoinAt(bs, i); }
    }
    forall b | b in Live(bs) ensures b in Live(r) {
      var j :| 0 <= j < |bs| && bs[j] == b;
      assert j != i && j != i + 1;
      assert r[if j < i then j else j - 1] == b;
    }
    forall b | b in Live(r) ensures b in Live(bs) {
      var j :| 0 <= j < |r| && r[j] == b;
      assert bs[if j < i then j else j + 1] == b;
    }
  }

  function Release(bs: seq<Block>, i: nat): seq<Block>
    requires i < |bs|
  {
    bs[i := bs[i].(free := true)]
  }

  lemma ReleaseTiles(bs: seq<Block>, i: nat)
    requires Tiles(bs, 0) && i < |bs| && !bs[i].free
    ensures Tiles(Release(bs, i), 0) && Live(Release(bs, i)) == Live(bs) - {bs[i]}
  {
    var r := Release(bs, i);
    forall j | 0 <= j < |r| ensures JoinAt(r, j) { assert JoinAt(bs, j); }
    forall b | b in Live(bs) - {bs[i]} ensures b in Live(r) {
      var j :| 0 <= j < |bs| && bs[j] == b;
      assert r[j] == b;
    }
    forall b | b in Live(r) ensures b in Live(bs) && b != bs[i] {
      var j :| 0 <= j < |r| && r[j] == b;
      assert bs[j] == b;
      BlocksApart(bs, i, j);
    }
  }

  /** Taking a block and giving it back restores the identical list. */
  lemma AllocThenFree(bs: seq<Block>, taken: seq<Block>, after: seq<Block>, b: Block)
    requires Layout(bs) && Layout(taken) && Layout(after)
    requires b !in Live(bs) && Live(taken) == Live(bs) + {b} && Live(after) == Live(taken) - {b}
    ensures after == bs
  {
    assert Live(after) == Live(bs);
    Canonical(after, bs, 0);
  }
}
