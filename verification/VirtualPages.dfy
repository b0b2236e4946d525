/** The kernel's virtual page allocator: a bump pointer over the page tables and the frame bitmap. */
module VirtualPages {
  import opened Bits
  import opened Frames
  import opened Paging

  const FIRST_VIRT := 0xD000_0000
  const LAST_VIRT := 0xFFFF_F000

  /** The part of a translation the allocator has handed out so far. */
  ghost function Issued(t: map<nat, nat>, next: nat): map<nat, nat> {
    map v: nat | v in t && 0xD_0000 <= v < next / PAGE :: t[v]
  }

  /** Every issued page that is mapped has a taken frame, and no two have the same one. */
  ghost predicate Ledger(issued: map<nat, nat>, taken: set<nat>, first: nat) {
    && (forall v | v in issued :: issued[v] >= first && issued[v] - first in taken)
    && (forall v, w | v in issued && w in issued && v != w :: issued[v] != issued[w])
  }

  /** Frame f is the one behind issued page v. */
  ghost predicate Behind(issued: map<nat, nat>, v: nat, first: nat, f: nat) {
    v in issued && issued[v] == first + f
  }

  /** The other direction: every taken frame is behind an issued page, with the ledger behind exactly one. */
  ghost predicate Backed(issued: map<nat, nat>, taken: set<nat>, first: nat) {
    forall f | f in taken :: exists v :: Behind(issued, v, first, f)
  }

  lemma BackedAdd(issued: map<nat, nat>, taken: set<nat>, first: nat, v: nat, f: nat)
    requires Backed(issued, taken, first) && v !in issued
    ensures Backed(issued[v := first + f], taken + {f}, first)
  {
    var after := issued[v := first + f];
    forall g | g in taken + {f} ensures exists w :: Behind(after, w, first, g) {
      if g in taken {
        var w :| Behind(issued, w, first, g);
        assert Behind(after, w, first, g);
      } else {
        assert Behind(after, v, first, g);
      }
    }
  }

  lemma BackedDrop(issued: map<nat, nat>, taken: set<nat>, first: nat, v: nat)
    requires Backed(issued, taken, first) && v in issued
    ensures Backed(issued - {v}, taken - {issued[v] - first}, first)
  {
    var after := issued - {v};
    forall g | g in taken && g != issued[v] - first ensures exists w :: Behind(after, w, first, g) {
      var w :| Behind(issued, w, first, g);
      assert Behind(after, w, first, g);
    }
  }

  /** Giving up a frame no other issued page has. */
  lemma LedgerFree(issued: map<nat, nat>, taken: set<nat>, first: nat, v: nat, f: int)
    requires Ledger(issued, taken, first) && OnlyOwner(issued, first, v, f)
    ensures Ledger(issued - {v}, taken - {f}, first)
  {
  }

  lemma LedgerAdd(issued: map<nat, nat>, taken: set<nat>, first: nat, v: nat, f: nat)
    requires Ledger(issued, taken, first) && f !in taken
    ensures Ledger(issued[v := first + f], taken + {f}, first) && Ledger(issued, taken + {f}, first)
  {
  }

  /** Giving up an issued page together with its frame. */
  lemma LedgerDrop(issued: map<nat, nat>, taken: set<nat>, first: nat, v: nat)
    requires Ledger(issued, taken, first) && v in issued
    ensures Ledger(issued - {v}, taken - {issued[v] - first}, first)
    ensures forall w | w in issued && w != v :: issued[w] - first != issued[v] - first
  {
  }

  lemma IssuedNext(t: map<nat, nat>, next: nat, n: nat)
    requires FIRST_VIRT <= next && next % PAGE == 0
    ensures Issued(t[Frame(next) := n], next + PAGE) == Issued(t, next)[Frame(next) := n]
    ensures Frame(next) !in Issued(t, next)
  {
  }

  lemma IssuedSet(t: map<nat, nat>, next: nat, v: nat, n: nat)
    ensures Issued(t[v := n], next) ==
            if 0xD_0000 <= v < next / PAGE then Issued(t, next)[v := n] else Issued(t, next)
  {
  }

  lemma PageOf(virt: Word, next: nat)
    requires FIRST_VIRT <= virt < next && next % PAGE == 0
    ensures 0xD_0000 <= Frame(virt) < next / PAGE
  {
  }

  lemma IssuedHas(t: map<nat, nat>, next: nat, v: nat)
    requires v in t && 0xD_0000 <= v < next / PAGE
    ensures v in Issued(t, next) && Issued(t, next)[v] == t[v]
  {
  }

  lemma LedgerTaken(issued: map<nat, nat>, taken: set<nat>, first: nat, v: nat)
    requires Ledger(issued, taken, first) && v in issued
    ensures issued[v] >= first && issued[v] - first in taken
  {
  }

  lemma LowestIsFree(taken: set<nat>, skip: nat, total: nat, f: nat)
    requires LowestFree(taken, skip, total, f)
    ensures f !in taken && !AllTaken(taken, skip, total)
  {
  }

  lemma IssuedDrop(t: map<nat, nat>, next: nat, v: nat)
    ensures Issued(t - {v}, next) == Issued(t, next) - {v}
  {
  }

  /** The frame pmm_free finds for the frame address f after the page tables dropped its low 12 bits. */
  ghost function FrameBehind(base: nat, f: nat): int {
    FrameGiven(base, Frame(base + f * PAGE) * PAGE)
  }

  /** It is f again exactly when the RAM region starts on a page boundary. */
  lemma AlignedBaseNeeded(base: nat, f: nat)
    requires base + f * PAGE + PAGE <= WORD && f > 0
    ensures FrameBehind(base, f) == f <==> base % PAGE == 0
    ensures base % PAGE != 0 ==> FrameBehind(base, f) == f - 1
  {
    var b, r := base / 4096, base % 4096;
    assert base == b * 4096 + r;
    assert Frame(base + f * 4096) == b + f;
    if r != 0 {
      var d := f * 4096 - r;
      assert 0 <= d < WORD && d / 4096 == f - 1;
      assert (b + f) * 4096 - base == d;
    }
  }

  lemma FrameOfAddress(base: nat, f: nat, low: nat)
    requires base % PAGE == 0 && base + f * PAGE + PAGE <= WORD && low < PAGE
    ensures ((base / PAGE + f) * PAGE + low - base) % WORD / PAGE == f
    ensures (base / PAGE + f) * PAGE + low > 0 || base == f == low == 0
    ensures (base / PAGE + f) * PAGE + low < WORD
    ensures Frame(base + f * PAGE) == base / PAGE + f
  {
    assert base == base / 4096 * 4096;
    assert (base / 4096 + f) * 4096 + low - base == f * 4096 + low;
  }

  class Vmm {
    const pmm: Pmm
    const pages: PageTables
    var nextVirt: Word

    ghost function IssuedPages(): map<nat, nat>
      requires pages.Valid()
      reads this, pages, pages.dir, pages.tables
    {
      Issued(pages.Translation(), nextVirt)
    }

    ghost predicate Valid()
      reads this, pmm, pmm.bitmap, pages, pages.dir, pages.tables
    {
      && pmm.Valid() && pages.Valid()
      && pmm.base % PAGE == 0 && pmm.bitmap != pages.dir
      && FIRST_VIRT <= nextVirt <= LAST_VIRT && nextVirt % PAGE == 0
      && Ledger(IssuedPages(), pmm.Taken(), pmm.base / PAGE)
    }

    /** Every taken frame is behind exactly one issued page: nobody else has taken any. */
    ghost predicate Exact()
      requires pages.Valid()
      reads this, pmm, pmm.bitmap, pages, pages.dir, pages.tables
    {
      Backed(IssuedPages(), pmm.Taken(), pmm.base / PAGE)
    }

    constructor (pmm: Pmm, pages: PageTables)
      requires pmm.Valid() && pages.Valid() && pmm.base % PAGE == 0 && pmm.bitmap != pages.dir
      ensures Valid() && this.pmm == pmm && this.pages == pages && IssuedPages() == map[] && nextVirt == FIRST_VIRT
      ensures pmm.Taken() == {} ==> Exact()
    {
      this.pmm := pmm;
      this.pages := pages;
      nextVirt := FIRST_VIRT;
    }

    /** Take a frame and map it: at the bump pointer when virt is 0, at virt otherwise. Fails, changing
        no frame, exactly when no frame is free or the pointer has reached the last page. */
    method Alloc(virt: Word, flags: nat) returns (v: nat, ghost f: nat)
      requires Valid()
      modifies this, pmm`used, pmm.bitmap, pages.dir, pages.tables
      ensures Valid()
      ensures v == 0 <==> (virt == 0 && old(nextVirt) == 0xFFFF_F000)
                          || forall g: nat | pmm.skip <= g < pmm.total :: g in old(pmm.Taken())
      ensures v == 0 ==> pmm.Taken() == old(pmm.Taken()) && nextVirt == old(nextVirt)
      ensures v == 0 ==> pages.Translation() == old(pages.Translation())
      ensures v != 0 ==> v == (if virt == 0 then old(nextVirt) else virt)
      ensures v != 0 ==> pmm.skip <= f < pmm.total && f !in old(pmm.Taken()) && pmm.Taken() == old(pmm.Taken()) + {f}
      ensures v != 0 ==> forall g: nat | pmm.skip <= g < f :: g in old(pmm.Taken())
      ensures v != 0 ==> pages.Translation() == old(pages.Translation())[Frame(v) := pmm.base / PAGE + f]
      ensures v != 0 ==> nextVirt == old(nextVirt) + if virt == 0 then PAGE else 0
      ensures virt == 0 && old(Exact()) ==> Exact()
      ensures v == 0 ==> forall x: nat | x < 0x10_0000 :: pages.Flags(x) == old(pages.Flags(x))
      ensures v != 0 ==> forall x: nat | x < 0x10_0000 ::
        pages.Flags(x) == if x == v / 4096 then flags % 4096 + (if flags % 2 == 0 then 1 else 0)
                          else old(pages.Flags(x))
    {
      hide Ledger, Backed, Frame, Issued, Pmm.Valid, PageTables.Valid, PageTables.Translation, TakenIn, LowestFree;
      hide PageTables.Flags, Pmm.Taken;
      var frame;
      frame, f := pmm.Alloc();
      if frame == 0 { return 0, f; }
      pmm.TakenInRange(f);
      FrameOfAddress(pmm.base, f, 0);
      LowestIsFree(old(pmm.Taken()), pmm.skip, pmm.total, f);
      v := virt;
      if virt == 0 {
        if (nextVirt + PAGE) % WORD < nextVirt {
          pmm.Free(frame);
          return 0, f;
        }
        v := nextVirt;
        IssuedNext(pages.Translation(), nextVirt, pmm.base / PAGE + f);
        if old(Exact()) { BackedAdd(old(IssuedPages()), old(pmm.Taken()), pmm.base / PAGE, Frame(v), f); }
        nextVirt := nextVirt + PAGE;
      } else {
        IssuedSet(pages.Translation(), nextVirt, Frame(v), pmm.base / PAGE + f);
      }
      LedgerAdd(old(IssuedPages()), old(pmm.Taken()), pmm.base / PAGE, Frame(v), f);
      SetPage(v, frame, flags);
    }

    /** Map one page. */
    method SetPage(v: Word, frame: Word, flags: nat)
      requires pages.Valid()
      modifies pages.dir, pages.tables
      ensures pages.Valid() && pages.Translation() == old(pages.Translation())[Frame(v) := Frame(frame)]
      ensures forall x: nat | x < 0x10_0000 ::
        pages.Flags(x) == if x == v / 4096 then flags % 4096 + (if flags % 2 == 0 then 1 else 0)
                          else old(pages.Flags(x))
    {
      hide Frame, PageTables.Valid, PageTables.Translation, PageTables.Flags;
      FrameIs(v);
      FlagsOf(0, flags);
      pages.MapPage(v, frame, flags);
    }

    /** The address the page tables give for virt, 0 when there is none. */
    ghost function PhysOf(virt: Word): nat
      requires pages.Valid()
      reads this, pages, pages.dir, pages.tables
    {
      if Frame(virt) in pages.Translation() then pages.Translation()[Frame(virt)] * PAGE + virt % PAGE else 0
    }

    /** Unmap a page and give the frame behind it back; a page that is not mapped is left alone. The ledger
        stays right unless the frame given back is that of another issued page, which for an issued page
        it never is. */
    method Free(virt: Word)
      requires Valid()
      modifies pmm`used, pmm.bitmap, pages.tables
      ensures pmm.Valid() && pages.Valid()
      ensures pages.Translation() == old(pages.Translation()) - if old(PhysOf(virt)) == 0 then {} else {Frame(virt)}
      ensures pmm.Taken() == old(pmm.Taken())
                             - if old(PhysOf(virt)) == 0 then {} else {FrameGiven(pmm.base, old(PhysOf(virt)))}
      ensures old(PhysOf(virt)) != 0 ==>
                OnlyOwner(old(IssuedPages()), pmm.base / PAGE, Frame(virt), FrameGiven(pmm.base, old(PhysOf(virt)))) ==>
                  Valid()
      ensures old(PhysOf(virt)) == 0 ==> Valid()
      ensures FIRST_VIRT <= virt < nextVirt ==> Valid() && (old(Exact()) ==> Exact())
      ensures FIRST_VIRT <= virt < nextVirt ==> pages.Translation() == old(pages.Translation()) - {Frame(virt)}
      ensures FIRST_VIRT <= virt < nextVirt ==>
                pmm.Taken() == old(pmm.Taken()) - if Frame(virt) in old(pages.Translation())
                                                  then {old(pages.Translation())[Frame(virt)] - pmm.base / PAGE} else {}
    {
      hide Ledger, Backed, Frame, Issued, Pmm.Valid, PageTables.Valid, PageTables.Translation, TakenIn, OnlyOwner;
      ghost var v, t, first := Frame(virt), pages.Translation(), pmm.base / PAGE;
      if FIRST_VIRT <= virt < nextVirt && v in t { FreeIssued(virt); }
      IssuedDrop(t, nextVirt, v);
      var phys := pages.GetPhysical(virt);
      assert phys == PhysOf(virt);
      if phys == 0 {
        assert v !in t ==> t - {v} == t;
        return;
      }
      if OnlyOwner(IssuedPages(), first, v, FrameGiven(pmm.base, phys)) {
        LedgerFree(IssuedPages(), pmm.Taken(), first, v, FrameGiven(pmm.base, phys));
      }
      pages.Unmap(virt);
      pmm.Free(phys);
    }

    /** What freeing an issued page gives back is its own frame, and no other issued page has it. */
    lemma FreeIssued(virt: Word)
      requires Valid() && FIRST_VIRT <= virt < nextVirt && Frame(virt) in pages.Translation()
      ensures var f := pages.Translation()[Frame(virt)] - pmm.base / PAGE;
              && PhysOf(virt) != 0 && FrameGiven(pmm.base, PhysOf(virt)) == f && Frame(virt) in IssuedPages()
              && OnlyOwner(IssuedPages(), pmm.base / PAGE, Frame(virt), f)
              && (Exact() ==> Backed(IssuedPages() - {Frame(virt)}, pmm.Taken() - {f}, pmm.base / PAGE))
    {
      hide Ledger, Backed, Frame, Issued, Pmm.Valid, PageTables.Valid, PageTables.Translation, TakenIn;
      var v, t, first := Frame(virt), pages.Translation(), pmm.base / PAGE;
      PageOf(virt, nextVirt);
      IssuedHas(t, nextVirt, v);
      LedgerTaken(IssuedPages(), pmm.Taken(), first, v);
      pmm.TakenInRange(t[v] - first);
      FrameOfAddress(pmm.base, t[v] - first, virt % PAGE);
      LedgerDrop(IssuedPages(), pmm.Taken(), first, v);
      if Exact() { BackedDrop(IssuedPages(), pmm.Taken(), first, v); }
    }
  }

  /** The frame the allocator takes an address to lie in. */
  ghost function FrameGiven(base: nat, phys: nat): int {
    (phys - base) % WORD / PAGE
  }

  /** No issued page but v has frame f. */
  ghost predicate OnlyOwner(issued: map<nat, nat>, first: nat, v: nat, f: int) {
    forall w | w in issued && w != v :: issued[w] - first != f
  }

  /** A frame taken, mapped, unmapped and given back through the page tables, as the allocator does it, but with
      no demand on where the RAM region starts: the frames are as before exactly when it starts on a page
      boundary; otherwise the frame stays taken and the one before it is given up. */
  method TakeAndReturn(pmm: Pmm, pages: PageTables, virt: Word, flags: nat) returns (p: nat, ghost f: nat)
    requires pmm.Valid() && pages.Valid() && pmm.bitmap != pages.dir && virt % PAGE == 0
    modifies pmm`used, pmm.bitmap, pages.dir, pages.tables
    ensures p != 0 ==> (pmm.Taken() == old(pmm.Taken()) <==> pmm.base % PAGE == 0)
    ensures p != 0 && pmm.base % PAGE != 0 ==> pmm.Taken() == old(pmm.Taken()) + {f} - {f - 1} && f !in old(pmm.Taken())
  {
    hide Pmm.Valid, PageTables.Valid, PageTables.Translation, TakenIn, Frame, LowestFree;
    p, f := pmm.Alloc();
    if p == 0 { return; }
    LowestIsFree(old(pmm.Taken()), pmm.skip, pmm.total, f);
    pmm.TakenInRange(f);
    AlignedBaseNeeded(pmm.base, f);
    pages.Map(virt, p, flags);
    var phys := pages.GetPhysical(virt);
    pages.Unmap(virt);
    pmm.Free(phys);
  }

  /** A region that starts in the middle of a page: frame 1000 of it is given back as frame 999. */
  lemma UnalignedRegion()
    ensures FrameBehind(0x10_0800, 1000) == 999
  {
    AlignedBaseNeeded(0x10_0800, 1000);
  }

  ghost predicate AllTaken(taken: set<nat>, skip: nat, total: nat) {
    forall g: nat | skip <= g < total :: g in taken
  }
}
