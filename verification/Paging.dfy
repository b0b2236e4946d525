/** Two-level 32-bit page tables. Masks are written as division and remainder: the low 12 bits of an
    entry are flags, the rest is the frame address. */
module Paging {
  import opened Bits

  const PRESENT := 1
  const WRITE := 2
  const USER := 4
  const BACKBUF := 0xA0_0000

  /** The frame part and the flag part of an address or entry. */
  function Frame(x: nat): nat { x / PAGE }

  predicate IsPresent(entry: nat) { entry % 2 == 1 }

  /** Mark an entry present. */
  function Present(entry: nat): nat { entry - entry % 2 + 1 }

  function UserOf(entry: nat): nat { entry / USER % 2 }

  lemma SplitAddress(virt: Word)
    ensures virt / 0x40_0000 == Frame(virt) / 1024 < 1024 && Frame(virt) < 0x10_0000
    ensures virt / 0x40_0000 * 1024 + Frame(virt) % 1024 == Frame(virt)
  {
  }

  lemma FrameOfRun(lo: nat, n: nat)
    ensures Frame(lo + n * PAGE) == Frame(lo) + n
  {
  }

  lemma SplitPage(v: nat, d: nat, t: nat)
    requires t < 1024
    ensures v / 1024 == d && v % 1024 == t <==> v == d * 1024 + t
  {
  }

  lemma PageParts(d: nat, t: nat)
    requires t < 1024
    ensures forall v: nat :: v / 1024 == d && v % 1024 == t <==> v == d * 1024 + t
  {
    forall v: nat ensures v / 1024 == d && v % 1024 == t <==> v == d * 1024 + t { SplitPage(v, d, t); }
  }

  /** A directory entry made of a table's address and flags is present and names that table. */
  lemma TableAddress(at: nat, d: nat)
    requires at % PAGE == 0
    ensures IsPresent(at + d * PAGE + WRITE + PRESENT) && Frame(at + d * PAGE + WRITE + PRESENT) == at / PAGE + d
  {
    assert at + d * PAGE + WRITE + PRESENT == 2 * (at / PAGE * 2048 + d * 2048 + 1) + 1;
  }

  lemma DirBits(e: nat, flags: nat)
    ensures IsPresent(e) <==> e % 2 == 1
    ensures UserOf(flags) == flags / 4 % 2 && UserOf(e) == e / 4 % 2
  {
  }

  /** Setting the user flag of a word that does not have it stays inside the word. */
  lemma BitOff(e: Word)
    requires UserOf(e) == 0
    ensures e + USER < WORD && IsPresent(e + USER) == IsPresent(e) && Frame(e + USER) == Frame(e)
  {
    assert e / USER == 2 * (e / USER / 2);
    assert e == e / 8 * 8 + e % 8 && e % 8 < USER;
  }

  lemma EntryParts(phys: Word, flags: nat)
    ensures phys - phys % PAGE + Present(flags % PAGE) < WORD
    ensures Frame(phys - phys % PAGE + Present(flags % PAGE)) == Frame(phys)
    ensures IsPresent(phys - phys % PAGE + Present(flags % PAGE))
  {
    var f := Present(flags % PAGE);
    assert f < PAGE && f % 2 == 1;
    assert phys - phys % PAGE + f == phys / PAGE * PAGE + f;
    assert phys / PAGE * PAGE == 2 * (phys / PAGE * 2048);
  }

  lemma FlagsOf(phys: Word, flags: nat)
    ensures (phys - phys % 4096 + flags % 4096 + if flags % 2 == 0 then 1 else 0) % PAGE == Present(flags % PAGE)
  {
    var f := Present(flags % PAGE);
    assert f < PAGE && f == flags % 4096 + if flags % 2 == 0 then 1 else 0;
    LowPart(phys / PAGE, f);
  }

  lemma LowPart(n: nat, f: nat)
    requires f < PAGE
    ensures (n * PAGE + f) % PAGE == f
  {
  }

  lemma EntryWord(phys: Word, flags: nat)
    ensures phys - phys % PAGE + Present(flags % PAGE)
         == phys - phys % 4096 + flags % 4096 + if flags % 2 == 0 then 1 else 0
  {
  }

  lemma FrameIs(x: nat)
    ensures Frame(x) == x / 4096
  {
  }

  class PageTables {
    const tablesAt: nat
    const dir: array<Word>
    const tables: array2<Word>

    /** A present directory entry names its own table; the tables of absent ones are empty. */
    ghost predicate Valid()
      reads this, dir, tables
    {
      && dir.Length == 1024 && tables.Length0 == 1024 && tables.Length1 == 1024
      && tablesAt % PAGE == 0 && tablesAt + 0x40_0000 <= WORD
      && (forall d | 0 <= d < 1024 && IsPresent(dir[d]) :: Frame(dir[d]) == tablesAt / PAGE + d)
      && (forall d, t | 0 <= d < 1024 && 0 <= t < 1024 && !IsPresent(dir[d]) :: !IsPresent(tables[d, t]))
    }

    /** The table entry the processor finds for page v: the directory entry says in which frame the table is. */
    ghost function Entry(v: nat): nat
      requires Valid() && v < 0x10_0000 && IsPresent(dir[v / 1024])
      reads this, dir, tables
    {
      tables[Frame(dir[v / 1024]) - tablesAt / PAGE, v % 1024]
    }

    /** The frame number page v is mapped to. */
    ghost function Target(v: nat): nat
      requires Valid() && v < 0x10_0000 && Mapped(v)
      reads this, dir, tables
    {
      Frame(Entry(v))
    }

    ghost predicate Mapped(v: nat)
      requires Valid() && v < 0x10_0000
      reads this, dir, tables
    {
      IsPresent(dir[v / 1024]) && IsPresent(Entry(v))
    }

    /** The translation: page numbers to frame numbers. */
    ghost function Translation(): map<nat, nat>
      requires Valid()
      reads this, dir, tables
    {
      map v: nat | v < 0x10_0000 && Mapped(v) :: Target(v)
    }

    /** The low twelve bits of page v's entry. */
    ghost function Flags(v: nat): nat
      requires Valid() && v < 0x10_0000
      reads this, dir, tables
    {
      tables[v / 1024, v % 1024] % PAGE
    }

    /** What the processor finds for page v: the entry of the directory says whether there is a table and where it
        is, the entry of the table whether the page is mapped and to which frame. */
    lemma Walk(v: nat)
      requires Valid() && v < 0x10_0000
      ensures v in Translation() <==> dir[v / 1024] % 2 == 1 && tables[v / 1024, v % 1024] % 2 == 1
      ensures v in Translation() ==>
        Translation()[v] == tables[v / 1024, v % 1024] / 4096 && dir[v / 1024] / 4096 == tablesAt / 4096 + v / 1024
    {
    }

    constructor (tablesAt: nat)
      requires tablesAt % PAGE == 0 && tablesAt + 0x40_0000 <= WORD
      ensures Valid() && this.tablesAt == tablesAt && fresh(dir) && fresh(tables) && Translation() == map[]
    {
      this.tablesAt := tablesAt;
      dir := new Word[1024](_ => WRITE);
      tables := new Word[1024, 1024]((_, _) => 0);
      new;
      hide Frame;
      assert forall d | 0 <= d < 1024 :: !IsPresent(dir[d]);
      assert Translation() == map[];
    }

    /** Map the page of virt to the frame of phys; every other page keeps its translation. */
    method Map(virt: Word, phys: Word, flags: nat)
      requires Valid()
      modifies dir, tables
      ensures Valid() && Translation() == old(Translation())[Frame(virt) := Frame(phys)]
      ensures tables[virt / 0x40_0000, virt / 4096 % 1024]
           == phys - phys % 4096 + flags % 4096 + if flags % 2 == 0 then 1 else 0
      ensures forall d, t | 0 <= d < 1024 && 0 <= t < 1024 && (d != virt / 0x40_0000 || t != virt / 4096 % 1024) ::
        tables[d, t] == old(tables[d, t])
      ensures forall d | 0 <= d < 1024 && d != virt / 0x40_0000 :: dir[d] == old(dir[d])
      ensures var d := virt / 0x40_0000;
        var was: nat := old(dir[d]);
        dir[d] as nat == if was % 2 == 0 then tablesAt + d * 4096 + 3
                         else if flags / 4 % 2 == 1 && was / 4 % 2 == 0 then was + 4 else was
    {
      ValidShape();
      SplitAddress(virt);
      EntryParts(phys, flags);
      EntryWord(phys, flags);
      var d, t := virt / 0x40_0000, virt / PAGE % 1024;
      var entry := phys - phys % PAGE + Present(flags % PAGE);
      assert d < 1024 && d * 1024 + t == Frame(virt) && Frame(entry) == Frame(phys);
      hide Valid, Translation, Present, Frame, IsPresent;
      MapAt(d, t, entry, flags);
    }

    /** Map the page of table d and place t. */
    method MapAt(d: nat, t: nat, entry: Word, flags: nat)
      requires Valid() && d < 1024 && t < 1024 && IsPresent(entry)
      modifies dir, tables
      ensures Valid() && Translation() == old(Translation())[d * 1024 + t := Frame(entry)]
      ensures tables[d, t] == entry
      ensures forall c, u | 0 <= c < 1024 && 0 <= u < 1024 && (c != d || u != t) :: tables[c, u] == old(tables[c, u])
      ensures forall c | 0 <= c < 1024 && c != d :: dir[c] == old(dir[c])
      ensures var was: nat := old(dir[d]);
        dir[d] as nat == if was % 2 == 0 then tablesAt + d * 4096 + 3
                         else if flags / 4 % 2 == 1 && was / 4 % 2 == 0 then was + 4 else was
    {
      ValidShape();
      hide Valid, Translation, Frame, IsPresent;
      PrepareTable(d, flags);
      SetEntry(d, t, entry);
    }

    /** Map a page; what its flags are then, and that every other page's are as before. */
    method MapPage(virt: Word, phys: Word, flags: nat)
      requires Valid()
      modifies dir, tables
      ensures Valid() && Translation() == old(Translation())[Frame(virt) := Frame(phys)]
      ensures forall v: nat | v < 0x10_0000 ::
        Flags(v) == if v == Frame(virt) then Present(flags % PAGE) else old(Flags(v))
    {
      hide Valid, Translation, Present;
      ValidShape();
      Map(virt, phys, flags);
      ValidShape();
      var d, t := virt / 0x40_0000, virt / PAGE % 1024;
      SplitAddress(virt);
      FrameIs(virt);
      assert d * 1024 + t == Frame(virt);
      hide Frame;
      FlagsOf(phys, flags);
      PageParts(d, t);
    }

    /** Make directory entry d name its table; the table is empty if it did not. */
    method PrepareTable(d: nat, flags: nat)
      requires Valid() && d < 1024
      modifies dir
      ensures Valid() && IsPresent(dir[d]) && Translation() == old(Translation())
      ensures forall c | 0 <= c < 1024 && c != d :: dir[c] == old(dir[c])
      ensures var was: nat := old(dir[d]);
        dir[d] as nat == if was % 2 == 0 then tablesAt + d * 4096 + 3
                         else if flags / 4 % 2 == 1 && was / 4 % 2 == 0 then was + 4 else was
    {
      hide UserOf, IsPresent, Frame;
      DirBits(dir[d], flags);
      if !IsPresent(dir[d]) {
        TableAddress(tablesAt, d);
        dir[d] := tablesAt + d * PAGE + WRITE + PRESENT;
      } else if UserOf(flags) == 1 && UserOf(dir[d]) == 0 {
        BitOff(dir[d]);
        dir[d] := dir[d] + USER;
      }
    }

    /** Write one present entry. */
    method SetEntry(d: nat, t: nat, entry: Word)
      requires Valid() && d < 1024 && t < 1024 && IsPresent(dir[d]) && IsPresent(entry)
      modifies tables
      ensures Valid() && Translation() == old(Translation())[d * 1024 + t := Frame(entry)]
      ensures tables[d, t] == entry
      ensures forall c, u | 0 <= c < 1024 && 0 <= u < 1024 && (c != d || u != t) :: tables[c, u] == old(tables[c, u])
    {
      hide Frame, IsPresent;
      tables[d, t] := entry;
      forall v: nat | v < 0x10_0000
        ensures v / 1024 == d && v % 1024 == t <==> v == d * 1024 + t
      {
        SplitPage(v, d, t);
      }
    }

    lemma ValidShape()
      requires Valid()
      ensures dir.Length == 1024 && tables.Length0 == 1024 && tables.Length1 == 1024
    {
    }

    method Unmap(virt: Word)
      requires Valid()
      modifies tables
      ensures forall d, t | 0 <= d < 1024 && 0 <= t < 1024 && (d != virt / 0x40_0000 || t != virt / 4096 % 1024) ::
        tables[d, t] == old(tables[d, t])
      ensures dir[virt / 0x40_0000] % 2 == 1 ==> tables[virt / 0x40_0000, virt / 4096 % 1024] == 0
      ensures Valid() && Translation() == old(Translation()) - {Frame(virt)}
    {
      var d, t := virt / 0x40_0000, virt / PAGE % 1024;
      SplitAddress(virt);
      if !IsPresent(dir[d]) { return; }
      ClearEntry(d, t);
    }

    /** Empty one table entry. */
    method ClearEntry(d: nat, t: nat)
      requires Valid() && d < 1024 && t < 1024
      modifies tables
      ensures Valid() && Translation() == old(Translation()) - {d * 1024 + t}
      ensures tables[d, t] == 0
      ensures forall c, u | 0 <= c < 1024 && 0 <= u < 1024 && (c != d || u != t) :: tables[c, u] == old(tables[c, u])
    {
      hide Frame;
      tables[d, t] := 0;
      assert !IsPresent(tables[d, t]);
      forall v: nat | v < 0x10_0000
        ensures v / 1024 == d && v % 1024 == t <==> v == d * 1024 + t
      {
        SplitPage(v, d, t);
      }
    }

    /** The physical address behind virt, 0 when its page is not mapped. */
    method GetPhysical(virt: Word) returns (phys: nat)
      requires Valid()
      ensures Frame(virt) in Translation() ==> phys == Translation()[Frame(virt)] * PAGE + virt % PAGE
      ensures Frame(virt) !in Translation() ==> phys == 0
      ensures phys < WORD
    {
      var d, t := virt / 0x40_0000, virt / PAGE % 1024;
      if !IsPresent(dir[d]) { return 0; }
      var entry := tables[d, t];
      if !IsPresent(entry) { return 0; }
      return entry - entry % PAGE + virt % PAGE;
    }

    /** Map a run of pages to the frames of the same addresses. */
    method MapIdentity(lo: Word, hi: Word, flags: nat)
      requires Valid() && (lo < hi ==> (hi - lo) % PAGE == 0)
      modifies dir, tables
      ensures Valid()
      ensures Translation() == WithIdentity(old(Translation()), Frame(lo), if lo < hi then (hi - lo) / PAGE else 0)
      ensures forall v: nat | v < 0x10_0000 ::
        Flags(v) == if lo / 4096 <= v && v < lo / 4096 + (if lo < hi then (hi - lo) / 4096 else 0)
                    then Present(flags % PAGE) else old(Flags(v))
    {
      FrameIs(lo);
      hide Frame, Valid, Translation, Flags, WithIdentity, Present;
      var addr := lo;
      ghost var n, pages := 0, if lo < hi then (hi - lo) / PAGE else 0;
      assert lo < hi ==> hi == lo + pages * PAGE;
      IdentityNone(Translation(), Frame(lo));
      while addr < hi
        invariant addr == lo + n * PAGE && n <= pages && Valid()
        invariant Translation() == WithIdentity(old(Translation()), Frame(lo), n)
        invariant forall v: nat | v < 0x10_0000 ::
          Flags(v) == if Frame(lo) <= v < Frame(lo) + n then Present(flags % PAGE) else old(Flags(v))
      {
        FrameOfRun(lo, n);
        IdentityNext(old(Translation()), Frame(lo), n);
        MapPage(addr, addr, flags);
        addr := (addr + PAGE) % WORD;
        n := n + 1;
      }
    }

    /** Every directory entry absent, every table entry zero. */
    method Clear()
      requires Valid()
      modifies dir, tables
      ensures Valid() && Translation() == map[]
    {
      for i := 0 to 1024
        invariant forall d | 0 <= d < i :: !IsPresent(dir[d])
        invariant forall d, t | 0 <= d < i && 0 <= t < 1024 :: !IsPresent(tables[d, t])
      {
        dir[i] := WRITE;
        for j := 0 to 1024
          invariant forall d | 0 <= d <= i :: !IsPresent(dir[d])
          invariant forall d, t | 0 <= d < i && 0 <= t < 1024 :: !IsPresent(tables[d, t])
          invariant forall t | 0 <= t < j :: !IsPresent(tables[i, t])
        {
          tables[i, j] := 0;
        }
      }
    }

    /** Set up paging: the low 64 MB and the frame buffer at fb map to themselves, nothing else is mapped. */
    method Init(fb: Word)
      requires Valid()
      modifies dir, tables
      ensures Valid()
      ensures Translation() == WithIdentity(WithIdentity(map[], 0, 0x4000),
                Frame(fb), if 0 < fb < WORD - 0x40_0000 then 0x400 else 0)
      ensures forall v: nat | v < 0x10_0000 ::
        (v in Translation() <==>
           v < 0x4000 || (0 < fb < 0x1_0000_0000 - 0x40_0000 && fb / 4096 <= v < fb / 4096 + 0x400))
        && (v in Translation() ==> Translation()[v] == v)
      ensures fb >= 0x400_0000 || fb == 0 ==>
        forall v: nat | v < 0x4000 :: Flags(v) == if 0xC0 <= v < 0x100 then 1 else 3
    {
      hide WithIdentity, Valid, Translation, Flags;
      Clear();
      IdentityIn(map[], 0, 0x4000);
      ghost var low: map<nat, nat> := WithIdentity(map[], 0, 0x4000);
      MapIdentity(0, 0x400_0000, PRESENT + WRITE);
      MapIdentity(0xA_0000, 0xC_0000, PRESENT + WRITE);
      MapIdentity(0xC_0000, 0x10_0000, PRESENT);
      Absorbed(low, 0xA0, 0x20);
      Absorbed(low, 0xC0, 0x40);
      assert Translation() == low;
      if fb > 0 { MapIdentity(fb, (fb + 0x40_0000) % WORD, PRESENT + WRITE); }
      Absorbed(low, Frame(fb), 0);
      ghost var n := if 0 < fb < WORD - 0x40_0000 then 0x400 else 0;
      assert Translation() == WithIdentity(low, Frame(fb), n);
      IdentityIn(low, Frame(fb), n);
      Absorbed(WithIdentity(low, Frame(fb), n), 0xA00, 0x400);
      MapIdentity(BACKBUF, BACKBUF + 0x40_0000, PRESENT + WRITE);
      TwoRuns(Frame(fb), n);
      assert Translation() == WithIdentity(low, Frame(fb), n);
      assert forall v: nat | v < 0x10_0000 ::
        v in WithIdentity(low, Frame(fb), n) <==> v < 0x4000 || fb / 4096 <= v < fb / 4096 + n;
    }
  }

  /** m with n pages from `first` mapped to themselves. */
  ghost function WithIdentity(m: map<nat, nat>, first: nat, n: nat): map<nat, nat> {
    if n == 0 then m else WithIdentity(m, first, n - 1)[first + n - 1 := first + n - 1]
  }

  lemma {:induction false} IdentityIn(m: map<nat, nat>, first: nat, n: nat)
    ensures forall v: nat | first <= v < first + n ::
      v in WithIdentity(m, first, n) && WithIdentity(m, first, n)[v] == v
    ensures forall v: nat | v in m && !(first <= v < first + n) ::
      v in WithIdentity(m, first, n) && WithIdentity(m, first, n)[v] == m[v]
    ensures forall v: nat | v in WithIdentity(m, first, n) :: v in m || first <= v < first + n
  {
    if n > 0 { IdentityIn(m, first, n - 1); }
  }

  lemma IdentityNone(m: map<nat, nat>, first: nat)
    ensures WithIdentity(m, first, 0) == m
  {
  }

  lemma IdentityNext(m: map<nat, nat>, first: nat, n: nat)
    ensures WithIdentity(m, first, n + 1) == WithIdentity(m, first, n)[first + n := first + n]
  {
  }

  /** The pages of two runs, each mapped to itself. */
  lemma TwoRuns(a: nat, n: nat)
    ensures var m := WithIdentity(WithIdentity(map[], 0, 0x4000), a, n);
      forall v: nat :: (v in m <==> v < 0x4000 || a <= v < a + n) && (v in m ==> m[v] == v)
  {
    hide WithIdentity;
    IdentityIn(map[], 0, 0x4000);
    IdentityIn(WithIdentity(map[], 0, 0x4000), a, n);
  }

  /** Mapping pages to themselves again changes nothing. */
  lemma {:induction false} Absorbed(m: map<nat, nat>, first: nat, n: nat)
    requires forall v: nat | first <= v < first + n :: v in m && m[v] == v
    ensures WithIdentity(m, first, n) == m
  {
    if n > 0 { Absorbed(m, first, n - 1); }
  }
}
