/** Physical page frames: the choice of the RAM region and the bitmap allocator over it. */
module Frames {
  import opened Bits

  const HEAP_PAGES := 128

  // ----- the firmware's memory map -----

  datatype Region = Region(base: nat, length: nat, kind: nat)

  predicate Usable(r: Region) {
    r.kind == 1 && r.base >= 0x10_0000
  }

  /** The first usable region of the greatest length, (0, 0) when no usable region has any. */
  ghost predicate IsBest(rs: seq<Region>, base: nat, length: nat) {
    && (forall r | r in rs && Usable(r) :: r.length <= length)
    && (length == 0 ==> base == 0)
    && (length > 0 ==> exists i :: FirstOfLength(rs, i, base, length))
  }

  ghost predicate FirstOfLength(rs: seq<Region>, i: int, base: nat, length: nat) {
    && 0 <= i < |rs| && Usable(rs[i]) && rs[i].base == base && rs[i].length == length
    && forall j | 0 <= j < i && Usable(rs[j]) :: rs[j].length < length
  }

  lemma BestIsLongest(rs: seq<Region>, base: nat, length: nat, base2: nat, length2: nat)
    requires IsBest(rs, base, length) && IsBest(rs, base2, length2)
    ensures length <= length2
  {
    if length > 0 {
      var i :| FirstOfLength(rs, i, base, length);
      assert rs[i] in rs;
    }
  }

  /** The description determines the region, so two scans of the same map cannot disagree. */
  lemma BestIsUnique(rs: seq<Region>, base: nat, length: nat, base2: nat, length2: nat)
    requires IsBest(rs, base, length) && IsBest(rs, base2, length2)
    ensures base == base2 && length == length2
  {
    BestIsLongest(rs, base, length, base2, length2);
    BestIsLongest(rs, base2, length2, base, length);
    if length > 0 {
      var i :| FirstOfLength(rs, i, base, length);
      var j :| FirstOfLength(rs, j, base2, length2);
    }
  }

  lemma BestStep(rs: seq<Region>, i: nat, base: nat, length: nat)
    requires i < |rs| && IsBest(rs[..i], base, length)
    ensures if Usable(rs[i]) && rs[i].length > length then IsBest(rs[..i + 1], rs[i].base, rs[i].length)
            else IsBest(rs[..i + 1], base, length)
  {
    assert rs[..i + 1] == rs[..i] + [rs[i]];
    if Usable(rs[i]) && rs[i].length > length {
      forall j | 0 <= j < i && Usable(rs[j]) ensures rs[j].length < rs[i].length {
        assert rs[..i][j] in rs[..i];
      }
      assert FirstOfLength(rs[..i + 1], i, rs[i].base, rs[i].length);
    } else if length > 0 {
      var k :| FirstOfLength(rs[..i], k, base, length);
      assert FirstOfLength(rs[..i + 1], k, base, length);
    }
  }

  lemma BestIsUsable(rs: seq<Region>, base: nat, length: nat)
    requires IsBest(rs, base, length) && length > 0
    ensures Region(base, length, 1) in rs && base >= 0x10_0000
  {
    var i :| FirstOfLength(rs, i, base, length);
    assert rs[i] == Region(base, length, 1);
  }

  /** Usable are the regions of kind 1 at or above 1 MB. */
  lemma BestMeans(rs: seq<Region>, base: nat, length: nat)
    requires IsBest(rs, base, length)
    ensures forall j | 0 <= j < |rs| && rs[j].kind == 1 && rs[j].base >= 0x10_0000 :: rs[j].length <= length
    ensures forall r | r in rs && r.kind == 1 && r.base >= 0x10_0000 :: r.length <= length
    ensures length > 0 ==> exists i ::
      && 0 <= i < |rs| && rs[i] == Region(base, length, 1) && base >= 0x10_0000
      && (forall j | 0 <= j < i && rs[j].kind == 1 && rs[j].base >= 0x10_0000 :: rs[j].length < length)
  {
    forall j | 0 <= j < |rs| && Usable(rs[j]) ensures rs[j].length <= length { assert rs[j] in rs; }
    if length > 0 {
      var i :| FirstOfLength(rs, i, base, length);
      assert rs[i] == Region(base, length, 1);
    }
  }

  lemma NothingBest(rs: seq<Region>, base: nat, length: nat)
    requires IsBest(rs, base, length) && (base == 0 || length == 0)
    ensures base == length == 0
  {
    if length > 0 { BestIsUsable(rs, base, length); }
  }

  // ----- bits of a bitmap -----

  predicate FrameSet(ws: seq<Word>, f: nat) {
    f / 32 < |ws| && Bit(ws[f / 32], f % 32)
  }

  lemma SameSplit(f: nat, g: nat)
    requires f / 32 == g / 32
    ensures f == g <==> f % 32 == g % 32
  {
  }

  lemma SetFrame(ws: seq<Word>, f: nat)
    requires f / 32 < |ws|
    ensures Or(ws[f / 32], Shl(f % 32)) < WORD
    ensures forall g: nat :: FrameSet(ws[f / 32 := Or(ws[f / 32], Shl(f % 32))], g) <==> FrameSet(ws, g) || g == f
  {
    SetBit(ws[f / 32], f % 32);
    var w := ws[f / 32 := Or(ws[f / 32], Shl(f % 32))];
    forall g: nat ensures FrameSet(w, g) <==> FrameSet(ws, g) || g == f {
      if g / 32 == f / 32 { SameSplit(f, g); }
    }
  }

  lemma ClearFrame(ws: seq<Word>, f: nat)
    requires f / 32 < |ws|
    ensures Shl(f % 32) < WORD && And(ws[f / 32], Not(Shl(f % 32))) < WORD
    ensures forall g: nat ::
      FrameSet(ws[f / 32 := And(ws[f / 32], Not(Shl(f % 32)))], g) <==> FrameSet(ws, g) && g != f
  {
    ClearBit(ws[f / 32], f % 32);
    var w := ws[f / 32 := And(ws[f / 32], Not(Shl(f % 32)))];
    forall g: nat ensures FrameSet(w, g) <==> FrameSet(ws, g) && g != f {
      if g / 32 == f / 32 { SameSplit(f, g); }
    }
  }

  /** A bitmap is its frames. */
  lemma SameFrames(a: seq<Word>, b: seq<Word>)
    requires |a| == |b| && forall f: nat :: FrameSet(a, f) <==> FrameSet(b, f)
    ensures a == b
  {
    forall i | 0 <= i < |a| ensures a[i] == b[i] {
      WordSize();
      forall k | 0 <= k < 32 ensures Bit(a[i], k) <==> Bit(b[i], k) {
        var f := 32 * i + k;
        assert f / 32 == i && f % 32 == k;
        assert FrameSet(a, f) <==> FrameSet(b, f);
      }
      SameBits(a[i], b[i], 32);
    }
  }

  /** The frames of [skip, total) that are marked. */
  ghost function TakenIn(ws: seq<Word>, skip: nat, total: nat): set<nat> {
    set f: nat | skip <= f < total && FrameSet(ws, f)
  }

  lemma {:induction false} FewTaken(taken: set<nat>, skip: nat, total: nat)
    requires forall f | f in taken :: skip <= f < total
    ensures |taken| <= if skip < total then total - skip else 0
    decreases total
  {
    if skip < total {
      FewTaken(taken - {total - 1}, skip, total - 1);
      if total - 1 in taken { assert |taken| == |taken - {total - 1}| + 1; }
    } else {
      assert taken == {};
    }
  }

  /** Everything outside [skip, total) is marked for good. */
  ghost predicate Reserved(ws: seq<Word>, skip: nat, total: nat) {
    forall f: nat | f < 32 * |ws| && !(skip <= f < total) :: FrameSet(ws, f)
  }

  /** With the rest reserved, the taken frames determine the bitmap word for word. */
  lemma TakenDetermines(a: seq<Word>, b: seq<Word>, skip: nat, total: nat)
    requires |a| == |b| == (total + 31) / 32
    requires Reserved(a, skip, total) && Reserved(b, skip, total)
    requires TakenIn(a, skip, total) == TakenIn(b, skip, total)
    ensures a == b
  {
    forall f: nat ensures FrameSet(a, f) <==> FrameSet(b, f) {
      if skip <= f < total {
        assert f in TakenIn(a, skip, total) <==> f in TakenIn(b, skip, total);
      }
    }
    SameFrames(a, b);
  }

  lemma NoneTaken(ws: seq<Word>, skip: nat, total: nat)
    requires forall f: nat | f < 32 * |ws| :: FrameSet(ws, f) <==> !(skip <= f < total)
    requires total <= 32 * |ws|
    ensures Reserved(ws, skip, total) && TakenIn(ws, skip, total) == {}
  {
  }

  function BitmapBytes(total: nat): nat {
    (total + 31) / 32 * 4
  }

  function BitmapPages(total: nat): nat {
    (BitmapBytes(total) + PAGE - 1) / PAGE
  }

  /** The scan of the memory map. */
  method LongestRegion(rs: seq<Region>) returns (bestBase: nat, bestLen: nat)
    ensures IsBest(rs, bestBase, bestLen)
  {
    bestBase, bestLen := 0, 0;
    for i := 0 to |rs|
      invariant IsBest(rs[..i], bestBase, bestLen)
    {
      BestStep(rs, i, bestBase, bestLen);
      if rs[i].kind == 1 && rs[i].base >= 0x10_0000 && rs[i].length > bestLen {
        bestBase := rs[i].base;
        bestLen := rs[i].length;
      }
    }
    assert rs[..|rs|] == rs;
  }

  /** A bitmap with every bit set. */
  method AllSet(words: nat) returns (b: array<Word>)
    ensures fresh(b) && b.Length == words && forall f: nat | f < 32 * words :: FrameSet(b[..], f)
  {
    b := new Word[words];
    for i := 0 to words
      invariant forall j | 0 <= j < i :: b[j] == 0xFFFF_FFFF
    {
      b[i] := 0xFFFF_FFFF;
    }
    forall f: nat | f < 32 * words ensures FrameSet(b[..], f) { AllOnes(f % 32); }
  }

  /** The whole frames of a region below 4 GB, and the pages its bitmap takes. */
  lemma WholeFrames(base: nat, length: nat)
    requires 0x10_0000 <= base && base + length <= WORD
    ensures base + length / PAGE * PAGE <= WORD && length / PAGE % WORD == length / PAGE
    ensures BitmapPages(length / PAGE) == ((length / 4096 + 31) / 32 * 4 + 4095) / 4096
  {
  }

  class Pmm {
    var base: nat
    var bitmap: array<Word>
    var total: nat
    var used: nat
    var skip: nat

    ghost function Taken(): set<nat>
      reads this, bitmap
    {
      TakenIn(bitmap[..], skip, total)
    }

    /** The counter is the skipped frames plus the marked ones of the allocatable range. */
    ghost predicate Valid()
      reads this, bitmap
    {
      && bitmap.Length == (total + 31) / 32
      && base + total * PAGE <= WORD
      && (skip == total == 0 || (base >= 0x10_0000 && skip == BitmapPages(total) + HEAP_PAGES))
      && Reserved(bitmap[..], skip, total)
      && used == skip + |Taken()|
    }

    function AddressOf(f: nat): nat
      reads this
    {
      base + f * PAGE
    }

    constructor ()
      ensures Valid() && fresh(bitmap) && total == 0
    {
      base, total, used, skip := 0, 0, 0, 0;
      bitmap := new Word[0];
    }

    /** Scan the memory map, put the bitmap at the start of the chosen region, and free every frame behind
        the bitmap and the pages kept for the heap. */
    method Init(rs: seq<Region>) returns (ghost length: nat)
      requires Valid() && skip == total == 0
      requires forall r | r in rs && Usable(r) :: r.base + r.length <= WORD
      modifies this
      ensures Valid() && (bitmap == old(bitmap) || fresh(bitmap)) && Taken() == {}
      ensures IsBest(rs, if length > 0 then base else 0, length)
      ensures total == length / PAGE
      ensures length == 0 ==> skip == 0 && forall r | r in rs && r.kind == 1 && r.base >= 0x10_0000 :: r.length == 0
      ensures length > 0 ==> skip == ((length / 4096 + 31) / 32 * 4 + 4095) / 4096 + 128 && used == skip
      ensures length > 0 ==> exists i ::
        && 0 <= i < |rs| && rs[i] == Region(base, length, 1) && base >= 0x10_0000
        && (forall j | 0 <= j < |rs| && rs[j].kind == 1 && rs[j].base >= 0x10_0000 :: rs[j].length <= length)
        && (forall j | 0 <= j < i && rs[j].kind == 1 && rs[j].base >= 0x10_0000 :: rs[j].length < length)
    {
      hide FrameSet, IsBest, Reserved, TakenIn;
      var bestBase, bestLen := LongestRegion(rs);
      length := bestLen;
      BestMeans(rs, bestBase, bestLen);
      if bestBase == 0 || bestLen == 0 {
        NothingBest(rs, bestBase, bestLen);
        NoneTaken(bitmap[..], skip, total);
        return;
      }
      BestIsUsable(rs, bestBase, bestLen);
      PlaceBitmap(bestBase, bestLen);
    }

    /** Lay the bitmap out at the start of the region. */
    method PlaceBitmap(bestBase: nat, bestLen: nat)
      requires 0x10_0000 <= bestBase && bestBase + bestLen <= WORD
      modifies this
      ensures Valid() && fresh(bitmap) && Taken() == {} && base == bestBase && total == bestLen / PAGE
      ensures skip == ((bestLen / 4096 + 31) / 32 * 4 + 4095) / 4096 + 128 && used == skip
    {
      hide FrameSet, Reserved, TakenIn;
      WholeFrames(bestBase, bestLen);
      total := bestLen / PAGE % WORD;
      base := bestBase;
      var words := (total + 31) / 32;
      var bytes := words * 4;
      skip := (bytes + PAGE - 1) / PAGE;
      skip := skip + HEAP_PAGES;
      bitmap := AllSet(words);
      FreeAllocatable();
      used := skip;
    }

    /** Clear the bits of the allocatable range. */
    method FreeAllocatable()
      requires total <= 32 * bitmap.Length && forall f: nat | f < 32 * bitmap.Length :: FrameSet(bitmap[..], f)
      modifies bitmap
      ensures Reserved(bitmap[..], skip, total) && Taken() == {}
    {
      hide FrameSet, Reserved, TakenIn;
      var i := skip;
      while i < total
        invariant i >= skip
        invariant forall f: nat | f < 32 * bitmap.Length ::
          FrameSet(bitmap[..], f) <==> !(skip <= f < i && f < total)
      {
        Clear(i);
        i := i + 1;
      }
      assert forall f: nat | f < 32 * bitmap.Length :: FrameSet(bitmap[..], f) <==> !(skip <= f < total);
      NoneTaken(bitmap[..], skip, total);
    }

    method Set(f: nat)
      requires f / 32 < bitmap.Length
      modifies bitmap
      ensures forall g: nat :: FrameSet(bitmap[..], g) <==> old(FrameSet(bitmap[..], g)) || g == f
      ensures Reserved(old(bitmap[..]), skip, total) && skip <= f < total ==>
        Reserved(bitmap[..], skip, total) && Taken() == old(Taken()) + {f}
    {
      SetFrame(bitmap[..], f);
      bitmap[f / 32] := Or(bitmap[f / 32], Shl(f % 32));
    }

    method Clear(f: nat)
      requires f / 32 < bitmap.Length
      modifies bitmap
      ensures forall g: nat :: FrameSet(bitmap[..], g) <==> old(FrameSet(bitmap[..], g)) && g != f
      ensures Reserved(old(bitmap[..]), skip, total) && skip <= f < total ==>
        Reserved(bitmap[..], skip, total) && Taken() == old(Taken()) - {f}
    {
      ClearFrame(bitmap[..], f);
      bitmap[f / 32] := And(bitmap[f / 32], Not(Shl(f % 32)));
    }

    /** Mark a clear frame and count it. */
    method Mark(f: nat)
      requires Valid() && skip <= f < total && !FrameSet(bitmap[..], f)
      modifies this`used, bitmap
      ensures Valid() && Taken() == old(Taken()) + {f} && used == old(used) + 1
    {
      hide FrameSet, Reserved, BitmapPages;
      FewTaken(Taken() + {f}, skip, total);
      Set(f);
      used := (used + 1) % WORD;
    }

    lemma Counted()
      requires Valid()
      ensures Reserved(bitmap[..], skip, total) && bitmap.Length == (total + 31) / 32
      ensures Taken() == TakenIn(bitmap[..], skip, total) && used == skip + |Taken()|
    {
    }

    /** The same taken frames mean the same bitmap and the same counter. */
    lemma Restored(was: seq<Word>, count: nat)
      requires Valid() && |was| == bitmap.Length && Reserved(was, skip, total)
      requires Taken() == TakenIn(was, skip, total) && count == skip + |Taken()|
      ensures bitmap[..] == was && used == count
    {
      TakenDetermines(bitmap[..], was, skip, total);
    }

    /** A taken frame has a nonzero address inside the 32-bit space. */
    lemma TakenInRange(f: nat)
      requires Valid() && f in Taken()
      ensures base + f * PAGE + PAGE <= WORD && base > 0 && f > 0 && skip <= f < total
    {
    }

    lemma InTaken()
      requires Valid()
      ensures bitmap.Length == (total + 31) / 32 && base + total * PAGE <= WORD
      ensures skip < total ==> base > 0
      ensures forall f: nat | skip <= f < total :: f in Taken() <==> FrameSet(bitmap[..], f)
    {
    }

    method Test(f: nat) returns (r: bool)
      requires f / 32 < bitmap.Length
      ensures r == FrameSet(bitmap[..], f)
    {
      r := Shr(bitmap[f / 32], f % 32) % 2 == 1;
    }

    lemma IfTaken(f: nat)
      requires Valid()
      ensures f in Taken() <==> skip <= f < total && FrameSet(bitmap[..], f)
      ensures skip <= f < total ==> f / 32 < bitmap.Length
      ensures f in Taken() ==> |Taken() - {f}| == |Taken()| - 1
    {
    }

    /** A frame counts as taken while its bit is set: bit f modulo 32 of word f / 32. */
    lemma TakenMeans(f: nat)
      requires Valid()
      ensures f in Taken() <==> skip <= f < total && f / 32 < bitmap.Length && Bit(bitmap[f / 32], f % 32)
    {
    }

    /** Hand out the lowest free frame; null exactly when every allocatable frame is taken. */
    method Alloc() returns (p: nat, ghost f: nat)
      requires Valid()
      modifies this`used, bitmap
      ensures Valid()
      ensures p == 0 <==> forall g: nat | skip <= g < total :: g in old(Taken())
      ensures p == 0 ==> bitmap[..] == old(bitmap[..]) && Taken() == old(Taken())
      ensures p != 0 ==> LowestFree(old(Taken()), skip, total, f) && p == AddressOf(f)
      ensures p != 0 ==> p == base + f * 4096 && skip <= f < total && f !in old(Taken())
      ensures p != 0 ==> forall g: nat | skip <= g < f :: g in old(Taken())
      ensures used == old(used) + if p == 0 then 0 else 1
      ensures p != 0 ==> Taken() == old(Taken()) + {f}
    {
      hide FrameSet, Reserved, BitmapPages, Valid;
      var i := skip;
      while i < total
        invariant i >= skip && used == old(used) && Valid() && Taken() == old(Taken())
        invariant forall g: nat | skip <= g < i && g < total :: FrameSet(bitmap[..], g)
        invariant bitmap[..] == old(bitmap[..])
      {
        InTaken();
        var t := Test(i);
        if !t {
          Mark(i);
          return (base + i * PAGE) % WORD, i;
        }
        i := i + 1;
      }
      InTaken();
      return 0, 0;
    }

    /** Give back the frame an address lies in; anything but a taken frame is ignored. */
    method Free(p: nat)
      requires Valid() && p < WORD
      modifies this`used, bitmap
      ensures Valid()
      ensures Taken() == if p == 0 then old(Taken()) else old(Taken()) - {(p - base) % WORD / PAGE}
      ensures used == old(used) - if p != 0 && (p - base) % 0x1_0000_0000 / 4096 in old(Taken()) then 1 else 0
    {
      hide FrameSet, Reserved, BitmapPages, TakenIn;
      Counted();
      if p == 0 { return; }
      var frame := (p - base) % WORD / PAGE;
      IfTaken(frame);
      if frame < skip || frame >= total { return; }
      var t := Test(frame);
      if !t { return; }
      Clear(frame);
      used := used - 1;
    }
  }

  ghost predicate LowestFree(taken: set<nat>, skip: nat, total: nat, f: nat) {
    skip <= f < total && f !in taken && forall g: nat | skip <= g < f :: g in taken
  }
}
