/** Named shared regions: runs of freshly mapped pages kept in a table of sixteen. */
module SharedMemory {
  import opened Bits
  import opened Lists
  import opened Sectors
  import opened Frames
  import opened Paging
  import opened VirtualPages

  const MAX_REGIONS := 16
  const NAME_SIZE := 32

  datatype Shared = Shared(name: string, used: bool, virt: nat, size: nat)
  {
    function FirstPage(): nat { virt / PAGE }
    function Pages(): nat { size / PAGE }
  }

  method NameEq(a: string, b: string) returns (r: bool)
    ensures r <==> a == b
  {
    var i := 0;
    while i < |a| && i < |b| && a[i] == b[i]
      invariant i <= |a| && i <= |b| && a[..i] == b[..i]
    {
      i := i + 1;
    }
    assert i == |a| ==> a[..i] == a;
    assert i == |b| ==> b[..i] == b;
    return i == |a| && i == |b|;
  }

  /** What a buffer of 32 bytes keeps of a name. */
  function Stored(name: string): (r: string)
    ensures |name| < NAME_SIZE ==> r == name
    ensures |r| < NAME_SIZE
  {
    if |name| < NAME_SIZE then name else name[..NAME_SIZE - 1]
  }

  method NameCopy(src: string) returns (dst: string)
    ensures dst == Stored(src)
  {
    dst := "";
    var i := 0;
    while i < |src| && i < NAME_SIZE - 1
      invariant i <= |src| && i <= NAME_SIZE - 1 && dst == src[..i]
    {
      dst := dst + [src[i]];
      i := i + 1;
    }
    assert i == |src| ==> src[..i] == src;
  }

  /** Pages for a request of so many bytes, in 32-bit arithmetic; at least one. */
  function PagesFor(size: nat): nat {
    var pages := (size + 0xFFF) % WORD / PAGE;
    if pages == 0 then 1 else pages
  }

  /** The pages cover the request exactly for sizes up to 0xFFFFF000. */
  lemma PagesCover(size: Word)
    ensures PagesFor(size) * PAGE >= size <==> size <= 0xFFFF_F000
    ensures size <= 0xFFFF_F000 && size > 0 ==> (PagesFor(size) - 1) * PAGE < size
    ensures size > 0xFFFF_F000 ==> PagesFor(size) == 1
  {
    var x := (size + 0xFFF) % WORD;
    assert x == x / PAGE * PAGE + x % PAGE;
  }

  // ----- runs of pages -----

  /** The translation t with consecutive pages from v mapped to the given frames. */
  ghost function WithRun(t: map<nat, nat>, v: nat, first: nat, frames: seq<nat>): map<nat, nat> {
    if frames == [] then t
    else
      var k := |frames| - 1;
      WithRun(t, v, first, frames[..k])[v + k := first + frames[k]]
  }

  ghost function Run(v: nat, n: nat): (r: set<nat>)
    ensures forall x: nat :: x in r <==> v <= x < v + n
  {
    if n == 0 then {} else Run(v, n - 1) + {v + n - 1}
  }

  ghost predicate MapsTo(w: map<nat, nat>, v: nat, first: nat, frames: seq<nat>, i: nat) {
    i < |frames| && v + i in w && w[v + i] == first + frames[i]
  }

  lemma {:induction false} WithRunAt(t: map<nat, nat>, v: nat, first: nat, frames: seq<nat>)
    ensures forall i: nat | i < |frames| :: MapsTo(WithRun(t, v, first, frames), v, first, frames, i)
    ensures forall x | x !in Run(v, |frames|) ::
      (x in WithRun(t, v, first, frames) <==> x in t)
      && (x in t ==> WithRun(t, v, first, frames)[x] == t[x])
  {
    if frames != [] {
      var k := |frames| - 1;
      WithRunAt(t, v, first, frames[..k]);
      forall i: nat | i < |frames| ensures MapsTo(WithRun(t, v, first, frames), v, first, frames, i) {
        if i < k { assert MapsTo(WithRun(t, v, first, frames[..k]), v, first, frames[..k], i); }
      }
    }
  }

  /** The frames behind a run of mapped pages. */
  ghost function FramesOf(t: map<nat, nat>, v: nat, n: nat, first: nat): set<int> {
    set x: nat | v <= x < v + n && x in t :: t[x] - first
  }

  lemma FramesOfRun(t: map<nat, nat>, v: nat, first: nat, frames: seq<nat>)
    ensures FramesOf(WithRun(t, v, first, frames), v, |frames|, first) == Elems(frames)
    ensures WithRun(t, v, first, frames) - Run(v, |frames|) == t - Run(v, |frames|)
  {
    WithRunAt(t, v, first, frames);
    var w := WithRun(t, v, first, frames);
    forall f | f in Elems(frames) ensures f in FramesOf(w, v, |frames|, first) {
      var i :| 0 <= i < |frames| && frames[i] == f;
      assert MapsTo(w, v, first, frames, i);
    }
    forall f | f in FramesOf(w, v, |frames|, first) ensures f in Elems(frames) {
      var x: nat :| v <= x < v + |frames| && x in w && w[x] - first == f;
      assert MapsTo(w, v, first, frames, x - v);
    }
  }

  // ----- counting frames -----

  /** How many more frames can be handed out. */
  ghost function Available(taken: set<nat>, skip: nat, total: nat): int {
    (if skip < total then total - skip else 0) - |taken|
  }

  lemma {:induction false} RunSize(v: nat, n: nat)
    ensures |Run(v, n)| == n
  {
    if n > 0 { RunSize(v, n - 1); }
  }

  /** Nothing is left exactly when every allocatable frame is taken. */
  lemma NoneAvailable(taken: set<nat>, skip: nat, total: nat)
    requires forall f | f in taken :: skip <= f < total
    ensures AllTaken(taken, skip, total) <==> Available(taken, skip, total) == 0
    ensures Available(taken, skip, total) >= 0
  {
    FewTaken(taken, skip, total);
    var all := Run(skip, if skip < total then total - skip else 0);
    RunSize(skip, if skip < total then total - skip else 0);
    assert taken <= all;
    if AllTaken(taken, skip, total) { assert taken == all; }
    if |taken| == |all| { SameSize(taken, all); }
  }

  lemma {:induction false} SameSize(a: set<nat>, b: set<nat>)
    requires a <= b && |a| == |b|
    ensures a == b
  {
    if x :| x in a {
      SameSize(a - {x}, b - {x});
    }
  }

  // ----- the table -----

  /** The pages of a region are issued and mapped. */
  ghost predicate RegionOk(r: Shared, t: map<nat, nat>, next: nat) {
    && |r.name| < NAME_SIZE && r.virt % PAGE == 0 && r.size % PAGE == 0 && r.size > 0
    && FIRST_VIRT <= r.virt && r.virt + r.size <= next
    && Run(r.FirstPage(), r.Pages()) <= t.Keys
  }

  ghost predicate Apart(r: Shared, s: Shared) {
    r.used && s.used ==> r.virt + r.size <= s.virt || s.virt + s.size <= r.virt
  }

  /** Used regions are mapped and do not overlap. */
  ghost predicate TableOk(rs: seq<Shared>, t: map<nat, nat>, next: nat) {
    && |rs| == MAX_REGIONS
    && (forall i | 0 <= i < |rs| && rs[i].used :: RegionOk(rs[i], t, next))
    && (forall i, j | 0 <= i < j < |rs| :: Apart(rs[i], rs[j]))
  }

  ghost predicate Named(r: Shared, name: string) {
    r.used && r.name == name
  }

  ghost predicate HasName(rs: seq<Shared>, name: string) {
    exists i :: 0 <= i < |rs| && Named(rs[i], name)
  }

  ghost predicate FirstNamed(rs: seq<Shared>, name: string, k: nat) {
    k < |rs| && Named(rs[k], name) && forall i | 0 <= i < k :: !Named(rs[i], name)
  }

  ghost predicate HasFree(rs: seq<Shared>) {
    exists i :: 0 <= i < |rs| && !rs[i].used
  }

  ghost predicate FirstFree(rs: seq<Shared>, k: nat) {
    k < |rs| && !rs[k].used && forall i | 0 <= i < k :: rs[i].used
  }

  /** The first unused place of the table was filled. */
  ghost predicate Entered(rs: seq<Shared>, after: seq<Shared>, r: Shared) {
    exists k: nat :: FirstFree(rs, k) && after == rs[k := r]
  }

  // ----- the same, spelled out -----

  /** A region is found by the exact name while it is in use. */
  lemma NamedMeans(rs: seq<Shared>, name: string)
    ensures HasName(rs, name) <==> exists i :: 0 <= i < |rs| && rs[i].used && rs[i].name == name
    ensures forall k: nat :: FirstNamed(rs, name, k) <==>
      (k < |rs| && rs[k].used && rs[k].name == name && forall i | 0 <= i < k :: !(rs[i].used && rs[i].name == name))
    ensures MAX_REGIONS == 16 && NAME_SIZE == 32 && FIRST_VIRT == 0xD000_0000 && LAST_VIRT == 0xFFFF_F000
  {
    if i :| 0 <= i < |rs| && rs[i].used && rs[i].name == name { assert Named(rs[i], name); }
  }

  /** A new region goes into the first place that is not in use, and no other place changes. */
  lemma EnteredMeans(rs: seq<Shared>, after: seq<Shared>, r: Shared)
    requires Entered(rs, after, r)
    ensures exists k ::
      && 0 <= k < |rs| == |after| && !rs[k].used && (forall i | 0 <= i < k :: rs[i].used) && after[k] == r
      && forall i | 0 <= i < |rs| && i != k :: after[i] == rs[i]
  {
    var k: nat :| FirstFree(rs, k) && after == rs[k := r];
    assert !rs[k].used && after[k] == r;
  }

  /** Closing takes the first region of that name out of use; its pages are unmapped, the frames behind them are
      free, and every other page and frame is as before. */
  lemma RemovedMeans(rs: seq<Shared>, after: seq<Shared>, name: string, t: map<nat, nat>, t2: map<nat, nat>,
                     taken: set<nat>, taken2: set<nat>, first: nat)
    requires Removed(rs, after, name, t, t2, taken, taken2, first)
    ensures exists k: nat ::
      && k < |rs| && rs[k].used && rs[k].name == name && after == rs[k := rs[k].(used := false)]
      && (forall x :: x in t2 <==> x in t && !(rs[k].virt / 4096 <= x < rs[k].virt / 4096 + rs[k].size / 4096))
      && (forall x | x in t2 :: t2[x] == t[x])
      && (forall f :: f in taken2 <==>
            f in taken && forall x | rs[k].virt / 4096 <= x < rs[k].virt / 4096 + rs[k].size / 4096 && x in t ::
              t[x] != first + f)
  {
    var k: nat :|
      && FirstNamed(rs, name, k) && after == rs[k := rs[k].(used := false)]
      && t2 == t - Run(rs[k].FirstPage(), rs[k].Pages())
      && taken2 == taken - FramesOf(t, rs[k].FirstPage(), rs[k].Pages(), first);
    assert rs[k].used && rs[k].name == name;
    forall f: nat ensures f in FramesOf(t, rs[k].FirstPage(), rs[k].Pages(), first) <==>
      exists x :: rs[k].virt / 4096 <= x < rs[k].virt / 4096 + rs[k].size / 4096 && x in t && t[x] == first + f
    {
      if x :| rs[k].virt / 4096 <= x < rs[k].virt / 4096 + rs[k].size / 4096 && x in t && t[x] == first + f {
        assert t[x] - first == f;
      }
    }
  }

  /** Page number i of a run is mapped to frame number i of the list; other pages are as before. */
  lemma RunMeans(t: map<nat, nat>, v: nat, first: nat, frames: seq<nat>)
    ensures forall x: nat | v <= x < v + |frames| ::
      x in WithRun(t, v, first, frames) && WithRun(t, v, first, frames)[x] == first + frames[x - v]
    ensures forall x | x !in Run(v, |frames|) :: x in WithRun(t, v, first, frames) <==> x in t
    ensures forall x | x !in Run(v, |frames|) && x in t :: WithRun(t, v, first, frames)[x] == t[x]
  {
    WithRunAt(t, v, first, frames);
    forall x: nat | v <= x < v + |frames|
      ensures x in WithRun(t, v, first, frames) && WithRun(t, v, first, frames)[x] == first + frames[x - v]
    {
      assert MapsTo(WithRun(t, v, first, frames), v, first, frames, x - v);
    }
  }

  /** Cleared frames hold zeros, and no other byte has changed. */
  lemma ClearedMeans(m: seq<Byte>, r: seq<Byte>, frames: seq<nat>)
    requires SameOutside(m, r, Elems(frames)) && forall f | f in frames :: ZeroFrame(r, f)
    ensures |r| == |m| && forall a | 0 <= a < |m| :: r[a] == if a / 4096 in frames then 0 else m[a]
  {
    forall a | 0 <= a < |m| && a / 4096 in frames ensures r[a] == 0 {
      assert ZeroFrame(r, a / 4096) && a / 4096 * PAGE <= a < a / 4096 * PAGE + PAGE;
    }
  }

  lemma FreeFound(rs: seq<Shared>, k: nat)
    requires k < |rs| && !rs[k].used && forall i | 0 <= i < k :: rs[i].used
    ensures FirstFree(rs, k) && HasFree(rs)
  {
  }

  lemma NoneFree(rs: seq<Shared>)
    requires forall i | 0 <= i < |rs| :: rs[i].used
    ensures !HasFree(rs)
  {
  }

  /** The first entry of that name went out of use, and its pages and frames were given up. */
  ghost predicate Removed(rs: seq<Shared>, after: seq<Shared>, name: string, t: map<nat, nat>, t2: map<nat, nat>,
                          taken: set<nat>, taken2: set<nat>, first: nat) {
    exists k: nat ::
      && FirstNamed(rs, name, k) && after == rs[k := rs[k].(used := false)]
      && t2 == t - Run(rs[k].FirstPage(), rs[k].Pages())
      && taken2 == taken - FramesOf(t, rs[k].FirstPage(), rs[k].Pages(), first)
  }

  /** Removing a region that has just been entered gives back exactly the frames taken for it. */
  lemma RemovedAgain(was: seq<Shared>, mid: seq<Shared>, after: seq<Shared>, name: string, r: Shared,
                     t: map<nat, nat>, t2: map<nat, nat>, taken: set<nat>, taken2: set<nat>, first: nat,
                     frames: seq<nat>)
    requires !HasName(was, name) && Entered(was, mid, r) && Named(r, name) && r.size == |frames| * PAGE
    requires Elems(frames) !! taken
    requires HasName(mid, name) ==>
               Removed(mid, after, name, WithRun(t, r.virt / PAGE, first, frames), t2,
                       taken + Elems(frames), taken2, first)
    ensures taken2 == taken
  {
    var k: nat :| FirstFree(was, k) && mid == was[k := r];
    assert Named(mid[k], name);
    var w := WithRun(t, r.virt / PAGE, first, frames);
    var j: nat :|
      && FirstNamed(mid, name, j) && after == mid[j := mid[j].(used := false)]
      && t2 == w - Run(mid[j].FirstPage(), mid[j].Pages())
      && taken2 == taken + Elems(frames) - FramesOf(w, mid[j].FirstPage(), mid[j].Pages(), first);
    var before := was[j];
    FramesOfRun(t, r.virt / PAGE, first, frames);
    assert r.Pages() == |frames|;
  }

  lemma RegionPlace(rs: seq<Shared>, t: map<nat, nat>, next: nat, name: string, k: nat)
    requires TableOk(rs, t, next) && FirstNamed(rs, name, k)
    ensures rs[k].used && RegionOk(rs[k], t, next)
    ensures rs[k].virt + rs[k].Pages() * PAGE <= next
  {
    RegionPages(rs[k], t, next);
  }

  /** A region that was entered under a new name is found by that name exactly if the name has fewer than
      32 characters, and then it is the first one of that name. */
  lemma FoundExactly(rs: seq<Shared>, after: seq<Shared>, name: string, virt: nat, size: nat)
    requires !HasName(rs, name) && Entered(rs, after, Shared(Stored(name), true, virt, size))
    ensures HasName(after, name) <==> |name| < NAME_SIZE
    ensures |name| < NAME_SIZE ==> forall j: nat | FirstNamed(after, name, j) :: after[j].virt == virt
  {
    var k: nat :| FirstFree(rs, k) && after == rs[k := Shared(Stored(name), true, virt, size)];
    assert forall i | 0 <= i < |after| && i != k :: after[i] == rs[i] && !Named(rs[i], name);
    assert |name| < NAME_SIZE ==> Named(after[k], name);
  }

  /** 32 letters are one too many. */
  lemma ThirtyTwoLetters(rs: seq<Shared>, after: seq<Shared>, virt: nat, size: nat)
    requires var name := "abcdefghijklmnopqrstuvwxyzabcdef";
             !HasName(rs, name) && Entered(rs, after, Shared(Stored(name), true, virt, size))
    ensures !HasName(after, "abcdefghijklmnopqrstuvwxyzabcdef")
    ensures Stored("abcdefghijklmnopqrstuvwxyzabcdef") == "abcdefghijklmnopqrstuvwxyzabcde"
  {
    FoundExactly(rs, after, "abcdefghijklmnopqrstuvwxyzabcdef", virt, size);
  }

  lemma {:induction false} RunKeys(t: map<nat, nat>, v: nat, first: nat, frames: seq<nat>)
    ensures WithRun(t, v, first, frames).Keys == t.Keys + Run(v, |frames|)
  {
    WithRunAt(t, v, first, frames);
    forall x | x in Run(v, |frames|) ensures x in WithRun(t, v, first, frames) {
      assert MapsTo(WithRun(t, v, first, frames), v, first, frames, x - v);
    }
  }

  lemma RegionPages(r: Shared, t: map<nat, nat>, next: nat)
    requires RegionOk(r, t, next)
    ensures r.virt == r.FirstPage() * PAGE && r.size == r.Pages() * PAGE
    ensures next % PAGE == 0 ==> r.FirstPage() + r.Pages() <= next / PAGE
  {
  }

  /** Adding a region of freshly mapped pages to an unused place of the table. */
  lemma TableAdd(rs: seq<Shared>, t: map<nat, nat>, next: nat, first: nat, frames: seq<nat>, k: nat, r: Shared)
    requires TableOk(rs, t, next) && k < |rs| && !rs[k].used && frames != []
    requires next % PAGE == 0 && next >= FIRST_VIRT
    requires r.virt == next && r.size == |frames| * PAGE && |r.name| < NAME_SIZE
    ensures TableOk(rs[k := r], WithRun(t, next / PAGE, first, frames), next + |frames| * PAGE)
  {
    var t2, next2, rs2 := WithRun(t, next / PAGE, first, frames), next + |frames| * PAGE, rs[k := r];
    RunKeys(t, next / PAGE, first, frames);
    forall i | 0 <= i < |rs2| && rs2[i].used ensures RegionOk(rs2[i], t2, next2) {
      if i == k { assert r.size / PAGE == |frames|; }
    }
    forall i, j | 0 <= i < j < |rs2| ensures Apart(rs2[i], rs2[j]) {
      if i != k && j != k { assert Apart(rs[i], rs[j]); }
      else if i == k && rs[j].used { assert RegionOk(rs[j], t, next); }
      else if j == k && rs[i].used { assert RegionOk(rs[i], t, next); }
    }
  }

  /** Pages past the pointer do not matter to the table. */
  lemma TableUndone(rs: seq<Shared>, t: map<nat, nat>, next: nat, k: nat)
    requires TableOk(rs, t, next) && next % PAGE == 0
    ensures TableOk(rs, t - Run(next / PAGE, k), next + k * PAGE)
  {
    var t2 := t - Run(next / PAGE, k);
    forall i | 0 <= i < |rs| && rs[i].used ensures RegionOk(rs[i], t2, next + k * PAGE) {
      RegionPages(rs[i], t, next);
    }
  }

  /** Taking a region and its pages out of the table. */
  lemma TableDrop(rs: seq<Shared>, t: map<nat, nat>, next: nat, k: nat)
    requires TableOk(rs, t, next) && k < |rs| && rs[k].used
    ensures TableOk(rs[k := rs[k].(used := false)], t - Run(rs[k].FirstPage(), rs[k].Pages()), next)
  {
    var t2, rs2 := t - Run(rs[k].FirstPage(), rs[k].Pages()), rs[k := rs[k].(used := false)];
    RegionPages(rs[k], t, next);
    forall i | 0 <= i < |rs2| && rs2[i].used ensures RegionOk(rs2[i], t2, next) {
      RegionPages(rs[i], t, next);
      assert Apart(rs[if i < k then i else k], rs[if i < k then k else i]);
    }
    forall i, j | 0 <= i < j < |rs2| ensures Apart(rs2[i], rs2[j]) { assert Apart(rs[i], rs[j]); }
  }

  // ----- contents -----

  ghost predicate ZeroFrame(m: seq<Byte>, f: nat) {
    forall a | f * PAGE <= a < f * PAGE + PAGE && a < |m| :: m[a] == 0
  }

  ghost predicate SameOutside(m: seq<Byte>, r: seq<Byte>, frames: set<nat>) {
    |m| == |r| && forall a | 0 <= a < |m| && a / PAGE !in frames :: r[a] == m[a]
  }

  /** The offset in RAM of byte b of a run of frames. */
  ghost function Place(frames: seq<nat>, b: nat): nat {
    if b / PAGE < |frames| then frames[b / PAGE] * PAGE + b % PAGE else 0
  }

  lemma PlaceOf(frames: seq<nat>, i: nat, a: nat)
    requires i < |frames| && frames[i] * PAGE <= a < frames[i] * PAGE + PAGE
    ensures Place(frames, i * PAGE + (a - frames[i] * PAGE)) == a
    ensures i * PAGE + (a - frames[i] * PAGE) < |frames| * PAGE
  {
    var o := a - frames[i] * PAGE;
    assert (i * PAGE + o) / PAGE == i && (i * PAGE + o) % PAGE == o;
  }

  lemma ByteAt(virt: nat, b: nat)
    requires virt % PAGE == 0
    ensures Frame(virt + b) == virt / PAGE + b / PAGE && (virt + b) % PAGE == b % PAGE
  {
  }

  lemma FreeStep(t: map<nat, nat>, v: nat, p: nat, first: nat)
    ensures FramesOf(t, v, p + 1, first) == FramesOf(t, v, p, first) + (if v + p in t then {t[v + p] - first} else {})
    ensures t - Run(v, p + 1) == t - Run(v, p) - {v + p}
    ensures v + p in t - Run(v, p) <==> v + p in t
  {
  }

  lemma FreeNone(t: map<nat, nat>, v: nat, first: nat)
    ensures FramesOf(t, v, 0, first) == {} && t - Run(v, 0) == t
  {
  }

  lemma RunStep(taken: set<nat>, frames: seq<nat>, f: nat)
    requires Distinct(frames) && Elems(frames) !! taken && f !in taken + Elems(frames)
    ensures Distinct(frames + [f]) && Elems(frames + [f]) !! taken
    ensures taken + Elems(frames + [f]) == taken + Elems(frames) + {f}
    ensures |taken + Elems(frames + [f])| == |taken + Elems(frames)| + 1
  {
    assert Elems(frames + [f]) == Elems(frames) + {f};
    assert taken + Elems(frames + [f]) == taken + Elems(frames) + {f};
  }

  lemma WithRunStep(t: map<nat, nat>, v: nat, first: nat, frames: seq<nat>, f: nat)
    ensures WithRun(t, v, first, frames + [f]) == WithRun(t, v, first, frames)[v + |frames| := first + f]
  {
    assert (frames + [f])[..|frames|] == frames;
  }

  lemma RunNone(t: map<nat, nat>, v: nat, first: nat, taken: set<nat>)
    ensures Distinct([]) && Elems([]) == {} && taken + Elems([]) == taken && WithRun(t, v, first, []) == t
    ensures Elems([]) !! taken
  {
  }

  /** A run of k pages was mapped from `next` on and unmapped again: they are gone, and the pointer is past them. */
  ghost predicate Undone(t: map<nat, nat>, after: map<nat, nat>, next: nat, nextAfter: nat, k: nat) {
    after == t - Run(next / PAGE, k) && nextAfter == next + k * PAGE
  }

  lemma UndoneBy(t: map<nat, nat>, after: map<nat, nat>, next: nat, nextAfter: nat, k: nat)
    requires after == t - Run(next / PAGE, k) && nextAfter == next + k * PAGE
    ensures Undone(t, after, next, nextAfter, k)
  {
  }

  lemma PageAt(virt: nat, p: nat)
    requires virt % PAGE == 0
    ensures Frame(virt + p * PAGE) == virt / PAGE + p
  {
  }

  class Shmem {
    const vmm: Vmm
    const ram: array<Byte>
    const regions: array<Shared>

    ghost predicate Valid()
      reads this, vmm, vmm.pmm, vmm.pmm.bitmap, vmm.pages, vmm.pages.dir, vmm.pages.tables, regions
    {
      && vmm.Valid() && ram.Length == vmm.pmm.total * PAGE
      && (ram as object) != vmm.pmm.bitmap && (ram as object) != vmm.pages.dir
      && regions.Length == MAX_REGIONS
      && TableOk(regions[..], vmm.pages.Translation(), vmm.nextVirt)
    }

    /** The table starts empty; ram holds the bytes of the frames. */
    constructor (vmm: Vmm, ram: array<Byte>)
      requires vmm.Valid() && ram.Length == vmm.pmm.total * PAGE
      requires (ram as object) != vmm.pmm.bitmap && (ram as object) != vmm.pages.dir
      ensures Valid() && this.vmm == vmm && this.ram == ram && fresh(regions)
      ensures forall i | 0 <= i < MAX_REGIONS :: !regions[i].used
    {
      this.vmm := vmm;
      this.ram := ram;
      regions := new Shared[MAX_REGIONS](_ => Shared("", false, 0, 0));
    }

    /** Free a run of issued pages one by one. */
    method FreeRun(virt: nat, n: nat)
      requires vmm.Valid()
      requires n > 0 ==> virt % PAGE == 0 && FIRST_VIRT <= virt && virt + n * PAGE <= vmm.nextVirt
      modifies vmm.pmm`used, vmm.pmm.bitmap, vmm.pages.tables
      ensures vmm.Valid()
      ensures vmm.pages.Translation() == old(vmm.pages.Translation()) - Run(virt / PAGE, n)
      ensures vmm.pmm.Taken() == old(vmm.pmm.Taken())
                                 - FramesOf(old(vmm.pages.Translation()), virt / PAGE, n, vmm.pmm.base / PAGE)
      ensures old(vmm.Exact()) ==> vmm.Exact()
    {
      hide Ledger, Backed, Pmm.Valid, PageTables.Valid, PageTables.Translation, Pmm.Taken, Run, FramesOf, Frame;
      ghost var t, first := vmm.pages.Translation(), vmm.pmm.base / PAGE;
      FreeNone(t, virt / PAGE, first);
      for p := 0 to n
        invariant vmm.Valid() && vmm.pages.Translation() == t - Run(virt / PAGE, p)
        invariant old(vmm.Exact()) ==> vmm.Exact()
        invariant vmm.pmm.Taken() == old(vmm.pmm.Taken()) - FramesOf(t, virt / PAGE, p, first)
      {
        PageAt(virt, p);
        FreeStep(t, virt / PAGE, p, first);
        vmm.Free(virt + p * PAGE);
      }
    }

    /** Map n new pages one after the other at the bump pointer; when one cannot be had, the pages mapped
        so far are freed again and only the bump pointer keeps its place. */
    method MapRun(n: nat) returns (virt: nat, ghost frames: seq<nat>)
      requires vmm.Valid() && n > 0
      modifies vmm, vmm.pmm`used, vmm.pmm.bitmap, vmm.pages.dir, vmm.pages.tables
      ensures vmm.Valid()
      ensures virt == 0 <==>
        n > old(Available(vmm.pmm.Taken(), vmm.pmm.skip, vmm.pmm.total)) || n > (LAST_VIRT - old(vmm.nextVirt)) / PAGE
      ensures virt == 0 ==> vmm.pmm.Taken() == old(vmm.pmm.Taken())
      ensures virt == 0 ==> exists k: nat :: k < n && Undone(old(vmm.pages.Translation()), vmm.pages.Translation(),
                                                            old(vmm.nextVirt), vmm.nextVirt, k)
      ensures virt != 0 ==> virt == old(vmm.nextVirt) && vmm.nextVirt == old(vmm.nextVirt) + n * PAGE
      ensures virt != 0 ==> |frames| == n && Distinct(frames) && Elems(frames) !! old(vmm.pmm.Taken())
      ensures virt != 0 ==> vmm.pmm.Taken() == old(vmm.pmm.Taken()) + Elems(frames)
      ensures virt != 0 ==>
        vmm.pages.Translation() == WithRun(old(vmm.pages.Translation()), virt / PAGE, vmm.pmm.base / PAGE, frames)
      ensures old(vmm.Exact()) ==> vmm.Exact()
      ensures virt != 0 ==>
        forall x: nat | virt / 4096 <= x && x < virt / 4096 + n && x < 0x10_0000 :: vmm.pages.Flags(x) == 7
    {
      hide Ledger, Backed, Pmm.Valid, PageTables.Valid, PageTables.Translation, Pmm.Taken, Run, FramesOf, Frame;
      hide Distinct, Elems, WithRun, PageTables.Flags;
      ghost var t, first, taken, next := vmm.pages.Translation(), vmm.pmm.base / PAGE, vmm.pmm.Taken(), vmm.nextVirt;
      ghost var avail := Available(taken, vmm.pmm.skip, vmm.pmm.total);
      VmmFacts();
      virt, frames := 0, [];
      RunNone(t, next / PAGE, first, taken);
      for p := 0 to n
        invariant vmm.Valid() && |frames| == p <= avail && vmm.nextVirt == next + p * PAGE
        invariant old(vmm.Exact()) ==> vmm.Exact()
        invariant virt == if p == 0 then 0 else next
        invariant Distinct(frames) && Elems(frames) !! taken
        invariant vmm.pmm.Taken() == taken + Elems(frames)
        invariant Available(vmm.pmm.Taken(), vmm.pmm.skip, vmm.pmm.total) == avail - p
        invariant vmm.pages.Translation() == WithRun(t, next / PAGE, first, frames)
        invariant forall x: nat | next / 4096 <= x < next / 4096 + p && x < 0x10_0000 :: vmm.pages.Flags(x) == 7
      {
        VmmFacts();
        var page, f := NextPage();
        if page == 0 {
          FramesOfRun(t, next / PAGE, first, frames);
          FreeNone(vmm.pages.Translation(), virt / PAGE, first);
          FreeNone(t, next / PAGE, first);
          FreeRun(virt, p);
          UndoneBy(t, vmm.pages.Translation(), next, vmm.nextVirt, p);
          return 0, [];
        }
        RunStep(taken, frames, f);
        WithRunStep(t, next / PAGE, first, frames, f);
        PageAt(next, p);
        frames := frames + [f];
        if p == 0 { virt := page; }
      }
      VmmFacts();
    }

    /** One more page at the bump pointer; null exactly when no frame is left or the pointer is at the last page. */
    method NextPage() returns (page: nat, ghost f: nat)
      requires vmm.Valid()
      modifies vmm, vmm.pmm`used, vmm.pmm.bitmap, vmm.pages.dir, vmm.pages.tables
      ensures vmm.Valid()
      ensures forall x: nat | x < 0x10_0000 ::
        vmm.pages.Flags(x) == if page != 0 && x == page / PAGE then 7 else old(vmm.pages.Flags(x))
      ensures page == 0 <==>
        old(vmm.nextVirt) == LAST_VIRT || old(Available(vmm.pmm.Taken(), vmm.pmm.skip, vmm.pmm.total)) == 0
      ensures page == 0 ==> vmm.nextVirt == old(vmm.nextVirt)
      ensures page != 0 ==> page == old(vmm.nextVirt) && vmm.nextVirt == old(vmm.nextVirt) + PAGE
      ensures page == 0 ==> vmm.pmm.Taken() == old(vmm.pmm.Taken())
      ensures page != 0 ==> f !in old(vmm.pmm.Taken()) && vmm.pmm.Taken() == old(vmm.pmm.Taken()) + {f}
      ensures page == 0 ==> vmm.pages.Translation() == old(vmm.pages.Translation())
      ensures page != 0 ==>
        vmm.pages.Translation() == old(vmm.pages.Translation())[page / PAGE := vmm.pmm.base / PAGE + f]
      ensures old(vmm.Exact()) ==> vmm.Exact()
    {
      hide Ledger, Backed, Pmm.Valid, PageTables.Valid, PageTables.Translation, Pmm.Taken, LowestFree, Available;
      hide PageTables.Flags, Issued;
      VmmFacts();
      FrameIs(vmm.nextVirt);
      page, f := vmm.Alloc(0, PRESENT + WRITE + USER);
    }

    lemma VmmFacts()
      requires vmm.Valid()
      ensures FIRST_VIRT <= vmm.nextVirt <= LAST_VIRT && vmm.nextVirt % PAGE == 0
      ensures Available(vmm.pmm.Taken(), vmm.pmm.skip, vmm.pmm.total) == 0 <==>
              forall g: nat | vmm.pmm.skip <= g < vmm.pmm.total :: g in vmm.pmm.Taken()
      ensures Available(vmm.pmm.Taken(), vmm.pmm.skip, vmm.pmm.total) >= 0
    {
      NoneAvailable(vmm.pmm.Taken(), vmm.pmm.skip, vmm.pmm.total);
    }

    /** Clear a run of mapped pages through their virtual addresses. */
    method Zero(virt: nat, n: nat, ghost frames: seq<nat>)
      requires vmm.Valid() && ram.Length == vmm.pmm.total * PAGE
      requires (ram as object) != vmm.pmm.bitmap && (ram as object) != vmm.pages.dir
      requires virt % PAGE == 0 && virt + n * PAGE <= LAST_VIRT && |frames| == n && Elems(frames) <= vmm.pmm.Taken()
      requires forall i: nat | i < n ::
        MapsTo(vmm.pages.Translation(), virt / PAGE, vmm.pmm.base / PAGE, frames, i)
      modifies ram
      ensures forall f | f in frames :: ZeroFrame(ram[..], f)
      ensures SameOutside(old(ram[..]), ram[..], Elems(frames))
    {
      hide Ledger, Backed, Pmm.Valid, PageTables.Valid, PageTables.Translation, Frame;
      var b := 0;
      while b < n * PAGE
        invariant b <= n * PAGE
        invariant forall c: nat | c < b :: Place(frames, c) < ram.Length && ram[Place(frames, c)] == 0
        invariant SameOutside(old(ram[..]), ram[..], Elems(frames))
      {
        ByteAt(virt, b);
        assert MapsTo(vmm.pages.Translation(), virt / PAGE, vmm.pmm.base / PAGE, frames, b / PAGE);
        vmm.pmm.TakenInRange(frames[b / PAGE]);
        var phys := vmm.pages.GetPhysical(virt + b);
        assert phys - vmm.pmm.base == Place(frames, b);
        ram[phys - vmm.pmm.base] := 0;
        b := b + 1;
      }
      forall f | f in frames ensures ZeroFrame(ram[..], f) {
        var i :| 0 <= i < n && frames[i] == f;
        forall a | f * PAGE <= a < f * PAGE + PAGE && a < ram.Length ensures ram[a] == 0 {
          PlaceOf(frames, i, a);
        }
      }
    }

    /** The index of the first used region of that name, or 16. */
    method Find(name: string) returns (k: nat)
      requires regions.Length == MAX_REGIONS
      ensures k < MAX_REGIONS ==> FirstNamed(regions[..], name, k) && HasName(regions[..], name)
      ensures k >= MAX_REGIONS ==> !HasName(regions[..], name)
    {
      k := 0;
      while k < MAX_REGIONS
        invariant k <= MAX_REGIONS && forall i | 0 <= i < k :: !Named(regions[..][i], name)
      {
        if regions[k].used {
          var eq := NameEq(regions[k].name, name);
          if eq {
            assert Named(regions[..][k], name);
            return;
          }
        }
        k := k + 1;
      }
    }

    method Open(name: string) returns (r: nat)
      requires Valid()
      ensures HasName(regions[..], name) ==>
        exists k: nat :: FirstNamed(regions[..], name, k) && r == regions[..][k].virt
      ensures r == 0 <==> !HasName(regions[..], name)
      ensures r == 0 <==> forall i | 0 <= i < 16 :: !(regions[..][i].used && regions[..][i].name == name)
      ensures r != 0 ==> exists k ::
        && 0 <= k < 16 && regions[..][k].used && regions[..][k].name == name && r == regions[..][k].virt
        && forall i | 0 <= i < k :: !(regions[..][i].used && regions[..][i].name == name)
    {
      var k := Find(name);
      if k < MAX_REGIONS {
        assert RegionOk(regions[..][k], vmm.pages.Translation(), vmm.nextVirt);
        return regions[k].virt;
      }
      return 0;
    }

    /** Write the table entry for a run that has just been mapped, and clear the run. */
    method Enter(slot: nat, name: string, virt: nat, pages: nat, ghost frames: seq<nat>, ghost t: map<nat, nat>)
      requires vmm.Valid() && ram.Length == vmm.pmm.total * PAGE && regions.Length == MAX_REGIONS
      requires (ram as object) != vmm.pmm.bitmap && (ram as object) != vmm.pages.dir
      requires TableOk(regions[..], t, virt) && FirstFree(regions[..], slot)
      requires virt % PAGE == 0 && virt >= FIRST_VIRT && |frames| == pages > 0
      requires vmm.nextVirt == virt + pages * PAGE && Elems(frames) <= vmm.pmm.Taken()
      requires vmm.pages.Translation() == WithRun(t, virt / PAGE, vmm.pmm.base / PAGE, frames)
      modifies regions, ram
      ensures Valid() && Entered(old(regions[..]), regions[..], Shared(Stored(name), true, virt, pages * PAGE))
      ensures SameOutside(old(ram[..]), ram[..], Elems(frames)) && forall f | f in frames :: ZeroFrame(ram[..], f)
    {
      hide Ledger, Backed, Pmm.Valid, PageTables.Valid, PageTables.Translation, Frame, TableOk;
      hide Run, WithRun, SameOutside, ZeroFrame, Pmm.Taken, Elems;
      ghost var was, entry := regions[..], Shared(Stored(name), true, virt, pages * PAGE);
      var stored := NameCopy(name);
      regions[slot] := Shared(stored, true, virt, pages * PAGE);
      assert regions[..] == was[slot := entry];
      TableAdd(was, t, virt, vmm.pmm.base / PAGE, frames, slot, entry);
      WithRunAt(t, virt / PAGE, vmm.pmm.base / PAGE, frames);
      Zero(virt, pages, frames);
    }

    /** Why a new region cannot be had: the table is full, or there are too few frames or virtual pages. */
    ghost predicate Exhausted(size: nat)
      reads this, vmm, vmm.pmm, vmm.pmm.bitmap, regions
    {
      || !HasFree(regions[..])
      || PagesFor(size) > Available(vmm.pmm.Taken(), vmm.pmm.skip, vmm.pmm.total)
      || PagesFor(size) > (LAST_VIRT - vmm.nextVirt) / PAGE
    }

    /** There is no place for a new region when all are in use, when its pages are more than the frames that are not
        taken, or more than the pages that are left up to 0xFFFFF000. */
    lemma ExhaustedMeans(size: nat)
      requires Valid()
      ensures Exhausted(size) <==>
        || (forall i | 0 <= i < 16 :: regions[..][i].used)
        || PagesFor(size) > (if vmm.pmm.skip < vmm.pmm.total then vmm.pmm.total - vmm.pmm.skip else 0)
                            - |vmm.pmm.Taken()|
        || PagesFor(size) > (0xFFFF_F000 - vmm.nextVirt) / 4096
    {
    }

    /** Map a new zero-filled region, or find the one that has the name already. Failing part way restores
        the frame bitmap and its counter exactly; success takes frames nobody had and clears them, and
        leaves the contents of every other frame alone. */
    method Create(name: string, size: Word) returns (r: nat, ghost frames: seq<nat>)
      requires Valid()
      modifies vmm, vmm.pmm`used, vmm.pmm.bitmap, vmm.pages.dir, vmm.pages.tables, regions, ram
      ensures Valid()
      ensures HasName(old(regions[..]), name) ==>
        exists k: nat :: FirstNamed(old(regions[..]), name, k) && r == old(regions[..])[k].virt
      ensures !HasName(old(regions[..]), name) ==> (r == 0 <==> old(Exhausted(size)))
      ensures HasName(old(regions[..]), name) || r == 0 ==>
        regions[..] == old(regions[..]) && ram[..] == old(ram[..])
        && vmm.pmm.bitmap[..] == old(vmm.pmm.bitmap[..]) && vmm.pmm.used == old(vmm.pmm.used)
      ensures HasName(old(regions[..]), name) ==>
        vmm.nextVirt == old(vmm.nextVirt) && vmm.pages.Translation() == old(vmm.pages.Translation())
      ensures r == 0 ==> exists k: nat ::
        Undone(old(vmm.pages.Translation()), vmm.pages.Translation(), old(vmm.nextVirt), vmm.nextVirt, k)
      ensures old(vmm.Exact()) ==> vmm.Exact()
      ensures !HasName(old(regions[..]), name) && r != 0 ==>
        r == old(vmm.nextVirt) && vmm.nextVirt == r + PagesFor(size) * PAGE && |frames| == PagesFor(size)
      ensures !HasName(old(regions[..]), name) && r != 0 ==>
        Entered(old(regions[..]), regions[..], Shared(Stored(name), true, r, PagesFor(size) * PAGE))
      ensures !HasName(old(regions[..]), name) && r != 0 ==>
        Distinct(frames) && Elems(frames) !! old(vmm.pmm.Taken())
        && vmm.pmm.Taken() == old(vmm.pmm.Taken()) + Elems(frames)
        && vmm.pages.Translation() == WithRun(old(vmm.pages.Translation()), r / PAGE, vmm.pmm.base / PAGE, frames)
      ensures !HasName(old(regions[..]), name) && r != 0 ==>
        SameOutside(old(ram[..]), ram[..], Elems(frames)) && forall f | f in frames :: ZeroFrame(ram[..], f)
      ensures !HasName(old(regions[..]), name) && r != 0 ==>
        forall x: nat | r / 4096 <= x && x < r / 4096 + |frames| && x < 0x10_0000 :: vmm.pages.Flags(x) == 7
    {
      hide Ledger, Backed, Pmm.Valid, PageTables.Valid, PageTables.Translation, Frame, TableOk, FirstNamed, HasName;
      hide PageTables.Flags;
      hide Run, WithRun, Distinct, SameOutside, ZeroFrame, Available, Pmm.Taken, HasFree, FirstFree, Elems, Entered,
           TakenIn, Reserved;
      frames := [];
      vmm.pmm.Counted();
      FreeNone(vmm.pages.Translation(), vmm.nextVirt / PAGE, 0);
      UndoneBy(vmm.pages.Translation(), vmm.pages.Translation(), vmm.nextVirt, vmm.nextVirt, 0);
      var same := Find(name);
      if same < MAX_REGIONS { return regions[same].virt, frames; }
      var slot := 0;
      while slot < MAX_REGIONS && regions[slot].used
        invariant slot <= MAX_REGIONS && forall i | 0 <= i < slot :: regions[..][i].used
      {
        slot := slot + 1;
      }
      if slot >= MAX_REGIONS {
        NoneFree(regions[..]);
        return 0, frames;
      }
      FreeFound(regions[..], slot);
      r, frames := NewRegion(slot, name, size);
    }

    /** Map a new zero-filled region and enter it in the table. */
    method NewRegion(slot: nat, name: string, size: Word) returns (r: nat, ghost frames: seq<nat>)
      requires Valid() && FirstFree(regions[..], slot)
      modifies vmm, vmm.pmm`used, vmm.pmm.bitmap, vmm.pages.dir, vmm.pages.tables, regions, ram
      ensures Valid()
      ensures r == 0 <==>
        || PagesFor(size) > old(Available(vmm.pmm.Taken(), vmm.pmm.skip, vmm.pmm.total))
        || PagesFor(size) > (LAST_VIRT - old(vmm.nextVirt)) / PAGE
      ensures r == 0 ==>
        regions[..] == old(regions[..]) && ram[..] == old(ram[..])
        && vmm.pmm.bitmap[..] == old(vmm.pmm.bitmap[..]) && vmm.pmm.used == old(vmm.pmm.used)
      ensures r == 0 ==> exists k: nat ::
        Undone(old(vmm.pages.Translation()), vmm.pages.Translation(), old(vmm.nextVirt), vmm.nextVirt, k)
      ensures old(vmm.Exact()) ==> vmm.Exact()
      ensures r != 0 ==> r == old(vmm.nextVirt) && vmm.nextVirt == r + PagesFor(size) * PAGE
      ensures r != 0 ==> |frames| == PagesFor(size)
      ensures r != 0 ==>
        Entered(old(regions[..]), regions[..], Shared(Stored(name), true, r, PagesFor(size) * PAGE))
      ensures r != 0 ==>
        Distinct(frames) && Elems(frames) !! old(vmm.pmm.Taken())
        && vmm.pmm.Taken() == old(vmm.pmm.Taken()) + Elems(frames)
        && vmm.pages.Translation() == WithRun(old(vmm.pages.Translation()), r / PAGE, vmm.pmm.base / PAGE, frames)
      ensures r != 0 ==>
        SameOutside(old(ram[..]), ram[..], Elems(frames)) && forall f | f in frames :: ZeroFrame(ram[..], f)
      ensures r != 0 ==>
        forall x: nat | r / 4096 <= x && x < r / 4096 + |frames| && x < 0x10_0000 :: vmm.pages.Flags(x) == 7
    {
      hide Ledger, Backed, Pmm.Valid, PageTables.Valid, PageTables.Translation, Frame, TableOk;
      hide PageTables.Flags;
      hide Run, WithRun, Distinct, SameOutside, ZeroFrame, Available, Pmm.Taken, HasFree, FirstFree, Elems, Entered,
           TakenIn, Reserved;
      frames := [];
      vmm.pmm.Counted();
      PagesCover(size);
      var pages := (size + 0xFFF) % WORD / PAGE;
      if pages == 0 { pages := 1; }
      assert pages == PagesFor(size);
      r, frames := MapRun(pages);
      if r == 0 {
        vmm.pmm.Restored(old(vmm.pmm.bitmap[..]), old(vmm.pmm.used));
        ghost var k: nat :| k < pages && Undone(old(vmm.pages.Translation()), vmm.pages.Translation(),
                                               old(vmm.nextVirt), vmm.nextVirt, k);
        TableUndone(regions[..], old(vmm.pages.Translation()), old(vmm.nextVirt), k);
        return;
      }
      Enter(slot, name, r, pages, frames, old(vmm.pages.Translation()));
    }

    /** Unmap the region of that name, free its frames and forget it; an unknown name changes nothing. */
    method Close(name: string)
      requires Valid()
      modifies vmm.pmm`used, vmm.pmm.bitmap, vmm.pages.tables, regions
      ensures Valid()
      ensures !HasName(old(regions[..]), name) ==>
        regions[..] == old(regions[..]) && vmm.pmm.Taken() == old(vmm.pmm.Taken())
        && vmm.pages.Translation() == old(vmm.pages.Translation())
      ensures HasName(old(regions[..]), name) ==>
        Removed(old(regions[..]), regions[..], name, old(vmm.pages.Translation()), vmm.pages.Translation(),
                old(vmm.pmm.Taken()), vmm.pmm.Taken(), vmm.pmm.base / PAGE)
      ensures old(vmm.Exact()) ==> vmm.Exact()
    {
      hide Ledger, Backed, Pmm.Valid, PageTables.Valid, PageTables.Translation, Frame, TableOk, FirstNamed, HasName;
      hide Run, FramesOf, Pmm.Taken;
      var i := Find(name);
      if i < MAX_REGIONS {
        ghost var was := regions[..];
        ghost var t := vmm.pages.Translation();
        RegionPlace(was, t, vmm.nextVirt, name, i);
        var pages := regions[i].size / PAGE;
        FreeRun(regions[i].virt, pages);
        regions[i] := regions[i].(used := false);
        TableDrop(was, t, vmm.nextVirt, i);
      }
    }
  }

  /** Opening a region under a new name of fewer than 32 characters and closing it again restores the frame
      bitmap and its counter, whatever the request and whether or not it succeeds. */
  method CreateClose(s: Shmem, name: string, size: Word)
    requires s.Valid() && |name| < NAME_SIZE && !HasName(s.regions[..], name)
    modifies s.vmm, s.vmm.pmm`used, s.vmm.pmm.bitmap, s.vmm.pages.dir, s.vmm.pages.tables, s.regions, s.ram
    ensures s.Valid() && s.vmm.pmm.bitmap[..] == old(s.vmm.pmm.bitmap[..]) && s.vmm.pmm.used == old(s.vmm.pmm.used)
  {
    hide Ledger, Backed, Pmm.Valid, PageTables.Valid, PageTables.Translation, Frame, TableOk, Run, FramesOf, Pmm.Taken;
    hide Reserved, TakenIn, WithRun, HasName, Entered, Removed, Distinct, Available;
    s.vmm.pmm.Counted();
    ghost var was, t, taken := s.regions[..], s.vmm.pages.Translation(), s.vmm.pmm.Taken();
    var r, frames := s.Create(name, size);
    ghost var mid := s.regions[..];
    s.vmm.pmm.Counted();
    s.Close(name);
    s.vmm.pmm.Counted();
    if r != 0 {
      RemovedAgain(was, mid, s.regions[..], name, Shared(name, true, r, PagesFor(size) * PAGE),
                   t, s.vmm.pages.Translation(), taken, s.vmm.pmm.Taken(), s.vmm.pmm.base / PAGE, frames);
    }
    s.vmm.pmm.Restored(old(s.vmm.pmm.bitmap[..]), old(s.vmm.pmm.used));
  }

  /** Create under a new name, then open: the address comes back exactly for names of fewer than 32
      characters. */
  method CreateOpen(s: Shmem, name: string, size: Word) returns (made: nat, found: nat)
    requires s.Valid() && !HasName(s.regions[..], name)
    modifies s.vmm, s.vmm.pmm`used, s.vmm.pmm.bitmap, s.vmm.pages.dir, s.vmm.pages.tables, s.regions, s.ram
    ensures s.Valid()
    ensures made != 0 ==> (HasName(s.regions[..], name) <==> |name| < NAME_SIZE)
    ensures made != 0 ==> found == if |name| < NAME_SIZE then made else 0
  {
    hide Ledger, Backed, Pmm.Valid, PageTables.Valid, PageTables.Translation, TableOk, HasName, FirstNamed, Entered,
         Shmem.Exhausted;
    ghost var frames;
    made, frames := s.Create(name, size);
    if made != 0 {
      FoundExactly(old(s.regions[..]), s.regions[..], name, made, PagesFor(size) * PAGE);
    }
    found := s.Open(name);
  }

  /** Page allocations beside the shared regions keep the table and the frame ledger. */
  method AllocBeside(s: Shmem, flags: nat) returns (v: nat, ghost f: nat)
    requires s.Valid()
    modifies s.vmm, s.vmm.pmm`used, s.vmm.pmm.bitmap, s.vmm.pages.dir, s.vmm.pages.tables
    ensures s.Valid()
    ensures v != 0 ==> f !in old(s.vmm.pmm.Taken()) && s.vmm.pmm.Taken() == old(s.vmm.pmm.Taken()) + {f}
    ensures old(s.vmm.Exact()) ==> s.vmm.Exact()
  {
    hide Ledger, Backed, Pmm.Valid, PageTables.Valid, PageTables.Translation, TableOk, Pmm.Taken, AllTaken, LowestFree;
    ghost var t, next := s.vmm.pages.Translation(), s.vmm.nextVirt;
    v, f := s.vmm.Alloc(0, flags);
    if v != 0 {
      LowestIsFree(old(s.vmm.pmm.Taken()), s.vmm.pmm.skip, s.vmm.pmm.total, f);
      TableGrows(s.regions[..], t, next, s.vmm.pmm.base / PAGE + f);
    }
  }

  lemma TableGrows(rs: seq<Shared>, t: map<nat, nat>, next: nat, n: nat)
    requires TableOk(rs, t, next)
    ensures TableOk(rs, t[Frame(next) := n], next + PAGE)
  {
    forall i | 0 <= i < |rs| && rs[i].used ensures RegionOk(rs[i], t[Frame(next) := n], next + PAGE) {
      assert RegionOk(rs[i], t, next);
    }
  }

  /** Freeing a page outside every shared region does too. */
  method FreeBeside(s: Shmem, virt: Word)
    requires s.Valid() && FIRST_VIRT <= virt < s.vmm.nextVirt
    requires forall i | 0 <= i < MAX_REGIONS && s.regions[i].used ::
      !(s.regions[i].virt <= virt < s.regions[i].virt + s.regions[i].size)
    modifies s.vmm.pmm`used, s.vmm.pmm.bitmap, s.vmm.pages.tables
    ensures s.Valid()
    ensures old(s.vmm.Exact()) ==> s.vmm.Exact()
  {
    hide Ledger, Backed, Pmm.Valid, PageTables.Valid, PageTables.Translation, TableOk, Pmm.Taken, Run;
    TableBeside(s.regions[..], s.vmm.pages.Translation(), s.vmm.nextVirt, virt);
    s.vmm.Free(virt);
  }

  lemma TableBeside(rs: seq<Shared>, t: map<nat, nat>, next: nat, virt: Word)
    requires TableOk(rs, t, next)
    requires forall i | 0 <= i < |rs| && rs[i].used :: !(rs[i].virt <= virt < rs[i].virt + rs[i].size)
    ensures TableOk(rs, t - {Frame(virt)}, next)
  {
    forall i | 0 <= i < |rs| && rs[i].used ensures RegionOk(rs[i], t - {Frame(virt)}, next) {
      RegionPages(rs[i], t, next);
      assert Frame(virt) * PAGE <= virt < Frame(virt) * PAGE + PAGE;
    }
  }
}
