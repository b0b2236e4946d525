/** Where the allocators put things: the frame bitmap, the heap and the allocatable frames in one RAM region. */
module Placement {
  import opened Bits
  import opened Frames
  import HeapBlocks

  const POOL_SKIP := 8

  class Memory {
    var heapBase: nat
    var heapSize: nat

    constructor ()
      ensures heapBase == heapSize == 0
    {
      heapBase, heapSize := 0, 0;
    }

    method Init(rs: seq<Region>)
      requires heapBase == heapSize == 0
      modifies this
      ensures IsBest(rs, heapBase, heapSize)
    {
      for i := 0 to |rs|
        invariant IsBest(rs[..i], heapBase, heapSize)
      {
        BestStep(rs, i, heapBase, heapSize);
        if rs[i].kind == 1 && rs[i].base >= 0x10_0000 && rs[i].length > heapSize {
          heapBase := rs[i].base;
          heapSize := rs[i].length;
        }
      }
      assert rs[..|rs|] == rs;
    }

    /** Where the heap goes: 32 KB behind the start of the region, or behind 1 MB if there is none. */
    function PoolAddress(): (pool: nat)
      reads this
      ensures heapBase >= 1048576 ==> pool == heapBase + 32768
      ensures heapBase < 1048576 ==> pool == 1081344
    {
      (if heapBase < 0x10_0000 then 0x10_0000 else heapBase) + POOL_SKIP * PAGE
    }
  }

  datatype Range = Range(lo: nat, hi: nat)

  ghost predicate Apart(a: Range, b: Range) {
    a.hi <= b.lo || b.hi <= a.lo
  }

  function BitmapRange(base: nat, total: nat): Range {
    Range(base, base + BitmapBytes(total))
  }

  function HeapRange(pool: nat): Range {
    Range(pool, pool + HeapBlocks.HEAP_SIZE)
  }

  function FrameRange(base: nat, total: nat, skip: nat): Range {
    Range(base + skip * PAGE, base + total * PAGE)
  }

  /** The three areas stay out of each other's way. */
  ghost predicate Separate(base: nat, total: nat) {
    var heap := HeapRange(base + POOL_SKIP * PAGE);
    var bitmap := BitmapRange(base, total);
    var frames := FrameRange(base, total, BitmapPages(total) + HEAP_PAGES);
    Apart(bitmap, heap) && Apart(bitmap, frames) && Apart(heap, frames)
  }

  /** The areas by address: a bit for each frame in whole words, 512 KB of heap behind 32 KB, and the frames behind
      the bitmap's pages and 128 more. */
  lemma SeparateMeans(base: nat, total: nat)
    ensures var words := (total + 31) / 32;
      var bitmapEnd := base + 4 * words;
      var heap := base + 32768;
      var heapEnd := heap + 524288;
      var frames := base + 4096 * ((4 * words + 4095) / 4096 + 128);
      var framesEnd := base + 4096 * total;
      Separate(base, total) <==>
        && (bitmapEnd <= heap || heapEnd <= base)
        && (bitmapEnd <= frames || framesEnd <= base)
        && (heapEnd <= frames || framesEnd <= heap)
  {
  }

  lemma EightPages(total: nat)
    ensures BitmapPages(total) == 8 <==> 229377 <= total <= 262144
  {
    var words := (total + 31) / 32;
    assert BitmapPages(total) == (words * 4 + 4095) / 4096;
    assert BitmapPages(total) == 8 <==> 7169 <= words <= 8192;
  }

  /** With at least one frame to allocate, the areas are separate exactly when the bitmap takes the eight
      pages the heap placement takes for granted. */
  lemma SeparateExactly(base: nat, total: nat)
    requires total > BitmapPages(total) + HEAP_PAGES
    ensures Separate(base, total) <==> 229377 <= total <= 262144
  {
    EightPages(total);
    var pages := BitmapPages(total);
    assert (pages - 1) * PAGE < BitmapBytes(total) <= pages * PAGE;
  }

  /** A 128 MB region: the heap's tail is handed out again as page frames. */
  lemma SmallRegionOverlaps(base: nat)
    ensures !Separate(base, 32768)
    ensures FrameRange(base, 32768, BitmapPages(32768) + HEAP_PAGES).lo < HeapRange(base + POOL_SKIP * PAGE).hi
  {
    SeparateExactly(base, 32768);
  }

  /** Both scans settle on the same region, so the heap and the frame allocator share it and the heap,
      the bitmap and the frames are separate exactly for regions of 229377 to 262144 frames. */
  method Boot(rs: seq<Region>, pmm: Pmm, memory: Memory) returns (pool: nat)
    requires pmm.Valid() && pmm.skip == pmm.total == 0 && memory.heapBase == memory.heapSize == 0
    requires forall r | r in rs && Usable(r) :: r.base + r.length <= WORD
    modifies pmm, memory
    ensures pmm.Valid() && pool == memory.PoolAddress()
    ensures pmm.total > 0 ==> pmm.base == memory.heapBase && pool == pmm.base + POOL_SKIP * PAGE
    ensures pmm.total > pmm.skip ==>
      (Separate(pmm.base, pmm.total) <==> 229377 <= pmm.total <= 262144)
  {
    var length := pmm.Init(rs);
    memory.Init(rs);
    BestIsUnique(rs, if length > 0 then pmm.base else 0, length, memory.heapBase, memory.heapSize);
    pool := memory.PoolAddress();
    if pmm.total > pmm.skip { SeparateExactly(pmm.base, pmm.total); }
  }
}
