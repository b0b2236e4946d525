/** The descriptor table shared by files, pipes and the console. */
module Descriptors {
  import opened Sectors
  import opened Pipes

  const FD_MAX := 32
  const PIPE_MAX := 8

  datatype FDType = None | Stdin | Stdout | Stderr | File | PipeRead | PipeWrite

  datatype FileDesc = FileDesc(used: bool, kind: FDType, fatFd: int, pipeId: int)

  const CLOSED := FileDesc(false, None, -1, -1)

  predicate ReaderOf(f: FileDesc, p: int) { f.used && f.kind == PipeRead && f.pipeId == p }

  predicate WriterOf(f: FileDesc, p: int) { f.used && f.kind == PipeWrite && f.pipeId == p }

  ghost predicate HasReader(fs: seq<FileDesc>, p: int) {
    exists i :: 0 <= i < |fs| && ReaderOf(fs[i], p)
  }

  ghost predicate HasWriter(fs: seq<FileDesc>, p: int) {
    exists i :: 0 <= i < |fs| && WriterOf(fs[i], p)
  }

  /** One reader and one writer at most for each pipe, and every end names a pipe. */
  ghost predicate EndsOk(fs: seq<FileDesc>) {
    && (forall i | 0 <= i < |fs| :: !fs[i].used ==> fs[i] == CLOSED)
    && (forall i | 0 <= i < |fs| && fs[i].kind in {PipeRead, PipeWrite} :: 0 <= fs[i].pipeId < PIPE_MAX)
    && (forall i, j, p | 0 <= i < |fs| && 0 <= j < |fs| && ReaderOf(fs[i], p) && ReaderOf(fs[j], p) :: i == j)
    && (forall i, j, p | 0 <= i < |fs| && 0 <= j < |fs| && WriterOf(fs[i], p) && WriterOf(fs[j], p) :: i == j)
  }

  /** A pipe is in use exactly while some open descriptor names it, and its write side is closed exactly
      when the writer is gone. */
  ghost predicate Lifecycle(fs: seq<FileDesc>, p: int, used: bool, closed: bool) {
    && (used <==> HasReader(fs, p) || HasWriter(fs, p))
    && (used ==> (closed <==> !HasWriter(fs, p)))
  }

  // ----- steps on the table -----

  lemma FillKeeps(fs: seq<FileDesc>, i: nat, f: FileDesc, p: int, used: bool, closed: bool)
    requires i < |fs| && fs[i] == CLOSED && Lifecycle(fs, p, used, closed)
    requires !ReaderOf(f, p) && !WriterOf(f, p)
    ensures Lifecycle(fs[i := f], p, used, closed)
  {
    var gs := fs[i := f];
    SameEnds(fs, gs, p, i);
  }

  /** Changing a descriptor that is no end of pipe p, before or after, changes nothing for p. */
  lemma SameEnds(fs: seq<FileDesc>, gs: seq<FileDesc>, p: int, i: nat)
    requires |gs| == |fs| && i < |fs| && gs == fs[i := gs[i]]
    requires !ReaderOf(fs[i], p) && !WriterOf(fs[i], p) && !ReaderOf(gs[i], p) && !WriterOf(gs[i], p)
    ensures HasReader(gs, p) == HasReader(fs, p) && HasWriter(gs, p) == HasWriter(fs, p)
  {
    if HasReader(fs, p) {
      var k :| 0 <= k < |fs| && ReaderOf(fs[k], p);
      assert gs[k] == fs[k];
    }
    if HasReader(gs, p) {
      var k :| 0 <= k < |gs| && ReaderOf(gs[k], p);
      assert fs[k] == gs[k];
    }
    if HasWriter(fs, p) {
      var k :| 0 <= k < |fs| && WriterOf(fs[k], p);
      assert gs[k] == fs[k];
    }
    if HasWriter(gs, p) {
      var k :| 0 <= k < |gs| && WriterOf(gs[k], p);
      assert fs[k] == gs[k];
    }
  }

  /** Entering the two ends of a pipe nobody names. */
  lemma MakeEnds(fs: seq<FileDesc>, r: nat, w: nat, pid: nat)
    requires EndsOk(fs) && r < |fs| && w < |fs| && r != w && !fs[r].used && !fs[w].used && pid < PIPE_MAX
    requires !HasReader(fs, pid) && !HasWriter(fs, pid)
    ensures EndsOk(Made(fs, r, w, pid)) && Lifecycle(Made(fs, r, w, pid), pid, true, false)
  {
    var gs := Made(fs, r, w, pid);
    assert ReaderOf(gs[r], pid) && WriterOf(gs[w], pid);
    forall i, j, p | 0 <= i < |gs| && 0 <= j < |gs| && ReaderOf(gs[i], p) && ReaderOf(gs[j], p) ensures i == j {
      assert i != r ==> ReaderOf(fs[i], p);
      assert j != r ==> ReaderOf(fs[j], p);
    }
    forall i, j, p | 0 <= i < |gs| && 0 <= j < |gs| && WriterOf(gs[i], p) && WriterOf(gs[j], p) ensures i == j {
      assert i != w ==> WriterOf(fs[i], p);
      assert j != w ==> WriterOf(fs[j], p);
    }
  }

  lemma MadeIs(fs: seq<FileDesc>, gs: seq<FileDesc>, r: nat, w: nat, pid: nat)
    requires r < |fs| && w < |fs| && r != w && |gs| == |fs|
    requires gs[r] == FileDesc(true, PipeRead, -1, pid) && gs[w] == FileDesc(true, PipeWrite, -1, pid)
    requires forall i | 0 <= i < |fs| && i != r && i != w :: gs[i] == fs[i]
    ensures gs == Made(fs, r, w, pid)
  {
  }

  lemma MakeKeeps(fs: seq<FileDesc>, r: nat, w: nat, pid: nat, p: int, used: bool, closed: bool)
    requires r < |fs| && w < |fs| && r != w && !fs[r].used && !fs[w].used && p != pid
    requires Lifecycle(fs, p, used, closed)
    ensures Lifecycle(Made(fs, r, w, pid), p, used, closed)
  {
    var gs := Made(fs, r, w, pid);
    var mid := fs[r := gs[r]];
    SameEnds(fs, mid, p, r);
    SameEnds(mid, gs, p, w);
  }

  function Made(fs: seq<FileDesc>, r: nat, w: nat, pid: nat): seq<FileDesc>
    requires r < |fs| && w < |fs|
  {
    fs[r := FileDesc(true, PipeRead, -1, pid)][w := FileDesc(true, PipeWrite, -1, pid)]
  }

  /** Whether pipe p is still in use after descriptor fd was closed. */
  ghost function UsedAfter(fs: seq<FileDesc>, fd: nat, p: int, used: bool): bool
    requires fd < |fs|
  {
    if WriterOf(fs[fd], p) then HasReader(fs, p) else if ReaderOf(fs[fd], p) then HasWriter(fs, p) else used
  }

  lemma CloseEnds(fs: seq<FileDesc>, fd: nat)
    requires EndsOk(fs) && fd < |fs|
    ensures EndsOk(fs[fd := CLOSED])
  {
    var gs := fs[fd := CLOSED];
    forall i, j, p | 0 <= i < |gs| && 0 <= j < |gs| && ReaderOf(gs[i], p) && ReaderOf(gs[j], p) ensures i == j {
      assert ReaderOf(fs[i], p) && ReaderOf(fs[j], p);
    }
    forall i, j, p | 0 <= i < |gs| && 0 <= j < |gs| && WriterOf(gs[i], p) && WriterOf(gs[j], p) ensures i == j {
      assert WriterOf(fs[i], p) && WriterOf(fs[j], p);
    }
  }

  /** Closing one descriptor: what is left of the pipe it named, and of every other. */
  lemma CloseKeeps(fs: seq<FileDesc>, fd: nat, p: int, used: bool, closed: bool)
    requires EndsOk(fs) && fd < |fs| && Lifecycle(fs, p, used, closed)
    ensures Lifecycle(fs[fd := CLOSED], p, UsedAfter(fs, fd, p, used), closed || WriterOf(fs[fd], p))
  {
    if WriterOf(fs[fd], p) || ReaderOf(fs[fd], p) {
      OtherEnd(fs, fd, p);
    } else {
      SameEnds(fs, fs[fd := CLOSED], p, fd);
    }
  }

  /** Closing one end of p removes the only one of its kind and leaves the other kind. */
  lemma OtherEnd(fs: seq<FileDesc>, fd: nat, p: int)
    requires EndsOk(fs) && fd < |fs|
    ensures WriterOf(fs[fd], p) ==>
      !HasWriter(fs[fd := CLOSED], p) && HasReader(fs[fd := CLOSED], p) == HasReader(fs, p)
    ensures ReaderOf(fs[fd], p) ==>
      !HasReader(fs[fd := CLOSED], p) && HasWriter(fs[fd := CLOSED], p) == HasWriter(fs, p)
  {
    var gs := fs[fd := CLOSED];
    forall i | 0 <= i < |gs| && i != fd ensures gs[i] == fs[i] {}
    if HasReader(fs, p) && !ReaderOf(fs[fd], p) {
      var k :| 0 <= k < |fs| && ReaderOf(fs[k], p);
      assert ReaderOf(gs[k], p);
    }
    if HasWriter(fs, p) && !WriterOf(fs[fd], p) {
      var k :| 0 <= k < |fs| && WriterOf(fs[k], p);
      assert WriterOf(gs[k], p);
    }
    if HasReader(gs, p) {
      var k :| 0 <= k < |gs| && ReaderOf(gs[k], p);
      assert ReaderOf(fs[k], p);
    }
    if HasWriter(gs, p) {
      var k :| 0 <= k < |gs| && WriterOf(gs[k], p);
      assert WriterOf(fs[k], p);
    }
  }

  lemma NoFree(fs: seq<FileDesc>)
    requires forall i :: !FreeAt(fs, i)
    ensures !TwoFree(fs)
  {
  }

  lemma OnlyOneFree(fs: seq<FileDesc>, r: nat, mid: seq<FileDesc>)
    requires FreeAt(fs, r) && mid == fs[r := fs[r].(used := true)]
    requires forall i :: !FreeAt(mid, i)
    ensures !TwoFree(fs)
  {
    forall i | i != r ensures !FreeAt(fs, i) { assert FreeAt(mid, i) == FreeAt(fs, i); }
  }

  lemma SecondFree(fs: seq<FileDesc>, r: nat, mid: seq<FileDesc>, w: int)
    requires FreeAt(fs, r) && (forall i | i < r :: !FreeAt(fs, i))
    requires mid == fs[r := fs[r].(used := true)] && FreeAt(mid, w) && (forall i | i < w :: !FreeAt(mid, i))
    ensures r < w && FreeAt(fs, w) && TwoFree(fs)
    ensures forall i | i < w && i != r :: !FreeAt(fs, i)
  {
    assert w != r && fs[w] == mid[w];
    assert FreeAt(fs, w);
    forall i | i < w && i != r ensures !FreeAt(fs, i) { assert FreeAt(mid, i) == FreeAt(fs, i); }
  }

  function Initial(i: nat): FileDesc {
    if i == 0 then FileDesc(true, Stdin, -1, -1)
    else if i == 1 then FileDesc(true, Stdout, -1, -1)
    else if i == 2 then FileDesc(true, Stderr, -1, -1)
    else CLOSED
  }

  lemma InitialOk(fs: seq<FileDesc>)
    requires forall i: nat | i < |fs| :: fs[i] == Initial(i)
    ensures EndsOk(fs) && forall p, closed :: Lifecycle(fs, p, false, closed)
  {
    forall i | 0 <= i < |fs| ensures fs[i] == Initial(i) {}
  }

  lemma InitialFds(fs: seq<FileDesc>)
    requires |fs| == 32 && forall i: nat | i < |fs| :: fs[i] == Initial(i)
    ensures fs[0] == FileDesc(true, Stdin, -1, -1) && fs[1] == FileDesc(true, Stdout, -1, -1)
    ensures fs[2] == FileDesc(true, Stderr, -1, -1)
    ensures forall i | 3 <= i < 32 :: fs[i] == FileDesc(false, None, -1, -1)
  {
  }

  /** What kind of descriptor a number names. */
  ghost function Kind(fs: seq<FileDesc>, fd: int): FDType {
    if 0 <= fd < |fs| && fs[fd].used then fs[fd].kind else None
  }

  lemma FreeClosed(fs: seq<FileDesc>)
    requires EndsOk(fs)
    ensures forall i | 0 <= i < |fs| && !fs[i].used :: fs[i] == CLOSED
  {
  }

  ghost predicate FreeAt(fs: seq<FileDesc>, i: int) {
    3 <= i < |fs| && !fs[i].used
  }

  ghost predicate TwoFree(fs: seq<FileDesc>) {
    exists i, j :: i < j && FreeAt(fs, i) && FreeAt(fs, j)
  }

  lemma FreeMeans(fs: seq<FileDesc>)
    requires |fs| == 32
    ensures forall i :: FreeAt(fs, i) <==> 3 <= i < 32 && !fs[i].used
  {
  }

  lemma TwoFreeMeans(fs: seq<FileDesc>)
    requires |fs| == 32
    ensures forall i :: FreeAt(fs, i) <==> 3 <= i < 32 && !fs[i].used
    ensures TwoFree(fs) <==> exists i, j :: 3 <= i < j < 32 && !fs[i].used && !fs[j].used
  {
    if i, j :| 3 <= i < j < 32 && !fs[i].used && !fs[j].used { assert FreeAt(fs, i) && FreeAt(fs, j); }
  }

  method NewPipes() returns (ps: seq<Pipe>)
    ensures |ps| == PIPE_MAX && forall j | 0 <= j < PIPE_MAX :: fresh(ps[j]) && fresh(ps[j].buf)
    ensures forall j | 0 <= j < PIPE_MAX :: ps[j].Valid() && !ps[j].used
    ensures forall j, k | 0 <= j < k < PIPE_MAX :: ps[j] != ps[k] && ps[j].buf != ps[k].buf
  {
    hide Pipe.Valid;
    ps := [];
    for i := 0 to PIPE_MAX
      invariant |ps| == i && (forall j | 0 <= j < i :: fresh(ps[j]) && fresh(ps[j].buf) && ps[j].Valid() && !ps[j].used)
      invariant forall j, k | 0 <= j < k < i :: ps[j] != ps[k] && ps[j].buf != ps[k].buf
    {
      var p := new Pipe();
      ps := ps + [p];
    }
  }

  class FdTable {
    const fds: array<FileDesc>
    const pipes: seq<Pipe>

    ghost predicate PipesOk()
      reads this, pipes, set p: Pipe | p in pipes :: p.buf
    {
      && |pipes| == PIPE_MAX
      && (forall i, j | 0 <= i < j < PIPE_MAX :: pipes[i] != pipes[j] && pipes[i].buf != pipes[j].buf)
      && (forall i | 0 <= i < PIPE_MAX :: pipes[i].Valid())
    }

    ghost predicate Valid()
      reads this, fds, pipes, set p: Pipe | p in pipes :: p.buf
    {
      && fds.Length == FD_MAX && PipesOk() && EndsOk(fds[..])
      && (forall p | 0 <= p < PIPE_MAX :: Lifecycle(fds[..], p, pipes[p].used, pipes[p].writeClosed))
    }

    constructor ()
      ensures Valid() && fresh(fds) && forall p | 0 <= p < PIPE_MAX :: !pipes[p].used
      ensures fds.Length == 32 && |pipes| == 8
      ensures fds[0] == FileDesc(true, Stdin, -1, -1) && fds[1] == FileDesc(true, Stdout, -1, -1)
      ensures fds[2] == FileDesc(true, Stderr, -1, -1)
      ensures forall i | 3 <= i < 32 :: fds[i] == FileDesc(false, None, -1, -1)
    {
      hide EndsOk, Lifecycle, Pipe.Valid, Initial;
      var ps := NewPipes();
      pipes := ps;
      fds := new FileDesc[FD_MAX](Initial);
      new;
      InitialOk(fds[..]);
      assert fds[..][0] == fds[0] && fds[..][1] == fds[1] && fds[..][2] == fds[2];
      InitialFds(fds[..]);
    }

    method AllocFd() returns (r: int)
      requires fds.Length == FD_MAX
      ensures r == -1 || FreeAt(fds[..], r)
      ensures forall i | i < (if r == -1 then FD_MAX else r) :: !FreeAt(fds[..], i)
    {
      for i := 3 to FD_MAX
        invariant forall j | 3 <= j < i :: fds[j].used
      {
        if !fds[i].used { return i; }
      }
      return -1;
    }

    method AllocPipe() returns (r: int)
      requires |pipes| == PIPE_MAX
      ensures r == -1 || (0 <= r < PIPE_MAX && !pipes[r].used)
      ensures forall i | 0 <= i < (if r == -1 then PIPE_MAX else r) :: pipes[i].used
    {
      for i := 0 to PIPE_MAX
        invariant forall j | 0 <= j < i :: pipes[j].used
      {
        if !pipes[i].used { return i; }
      }
      return -1;
    }

    /** A new pipe: its two ends go to the two lowest free descriptors. Failing changes nothing. */
    method MakePipe() returns (ok: bool, r: nat, w: nat, ghost pid: nat)
      requires Valid()
      modifies fds, pipes
      ensures Valid()
      ensures !ok ==> fds[..] == old(fds[..]) && forall p | 0 <= p < PIPE_MAX :: unchanged(pipes[p])
      ensures ok ==> pid < 8 && !old(pipes[pid].used)
      ensures ok <==> (exists p :: 0 <= p < 8 && !old(pipes[p].used))
                      && exists i, j :: 3 <= i < j < 32 && !old(fds[..])[i].used && !old(fds[..])[j].used
      ensures ok ==> 3 <= r < w < 32 && !old(fds[..])[r].used && !old(fds[..])[w].used
      ensures ok ==> forall i | 3 <= i < w && i != r :: old(fds[..])[i].used
      ensures ok ==> fds[r] == FileDesc(true, PipeRead, -1, pid) && fds[w] == FileDesc(true, PipeWrite, -1, pid)
      ensures ok ==> forall i | 0 <= i < 32 && i != r && i != w :: fds[i] == old(fds[..])[i]
      ensures ok ==> pipes[pid].used && !pipes[pid].writeClosed && pipes[pid].accepted == pipes[pid].Contents() == []
      ensures ok ==> forall p | 0 <= p < PIPE_MAX && p != pid :: unchanged(pipes[p])
    {
      hide EndsOk, Lifecycle, Pipe.Valid, Pipe.Contents, HasReader, HasWriter, TwoFree, Made;
      TwoFreeMeans(fds[..]);
      r, w, pid := 0, 0, 0;
      ok := false;
      FreeClosed(fds[..]);
      var id := AllocPipe();
      if id < 0 { return; }
      UnusedPipe(id);
      var rfd := AllocFd();
      if rfd < 0 {
        NoFree(fds[..]);
        return;
      }
      fds[rfd] := fds[rfd].(used := true);
      ghost var occupied := fds[..];
      var wfd := AllocFd();
      if wfd < 0 {
        fds[rfd] := fds[rfd].(used := false);
        OnlyOneFree(old(fds[..]), rfd, occupied);
        assert fds[..] == old(fds[..]);
        return;
      }
      SecondFree(old(fds[..]), rfd, occupied, wfd);
      EnterEnds(rfd, wfd, id, old(fds[..]));
      return true, rfd, wfd, id;
    }

    lemma PipeRoom(p: nat)
      requires PipesOk() && p < PIPE_MAX
      ensures pipes[p].buf.Length == PIPE_BUF
    {
    }

    /** Start pipe id anew and enter its ends in two descriptors that were free in fs. */
    method EnterEnds(r: nat, w: nat, id: nat, ghost fs: seq<FileDesc>)
      requires fds.Length == |fs| == FD_MAX && PipesOk() && id < PIPE_MAX && r < FD_MAX && w < FD_MAX && r != w
      requires EndsOk(fs) && !fs[r].used && !fs[w].used && !HasReader(fs, id) && !HasWriter(fs, id)
      requires forall p | 0 <= p < PIPE_MAX :: Lifecycle(fs, p, pipes[p].used, pipes[p].writeClosed)
      requires forall i | 0 <= i < FD_MAX && i != r :: fds[i] == fs[i]
      modifies fds, pipes[id]
      ensures Valid()
      ensures fds[r] == FileDesc(true, PipeRead, -1, id) && fds[w] == FileDesc(true, PipeWrite, -1, id)
      ensures forall i | 0 <= i < FD_MAX && i != r && i != w :: fds[i] == fs[i]
      ensures pipes[id].used && !pipes[id].writeClosed && pipes[id].accepted == pipes[id].Contents() == []
    {
      hide EndsOk, Lifecycle, Pipe.Valid, Pipe.Contents, HasReader, HasWriter, Made;
      PipeRoom(id);
      pipes[id].Reset();
      MakeEnds(fs, r, w, id);
      fds[r] := FileDesc(true, PipeRead, -1, id);
      fds[w] := FileDesc(true, PipeWrite, -1, id);
      MadeIs(fs, fds[..], r, w, id);
      forall p | 0 <= p < PIPE_MAX ensures Lifecycle(fds[..], p, pipes[p].used, pipes[p].writeClosed) {
        if p != id {
          MakeKeeps(fs, r, w, id, p, old(pipes[p].used), old(pipes[p].writeClosed));
        }
      }
    }

    /** Enter a file opened by the FAT driver as `fat` in the lowest free descriptor; -1 in the result means the
        caller must close it again. */
    method OpenFile(fat: int) returns (fd: int)
      requires Valid()
      modifies fds
      ensures Valid()
      ensures fd == -1 ==> fds[..] == old(fds[..])
      ensures fd == -1 <==> forall i | 3 <= i < 32 :: old(fds[..])[i].used
      ensures fd != -1 ==> 3 <= fd < 32 && !old(fds[..])[fd].used && forall i | 3 <= i < fd :: old(fds[..])[i].used
      ensures fd != -1 ==> fds[..] == old(fds[..])[fd := FileDesc(true, File, fat, -1)]
    {
      FreeMeans(fds[..]);
      fd := AllocFd();
      if fd < 0 { return -1; }
      forall p | 0 <= p < PIPE_MAX
        ensures Lifecycle(fds[..][fd := FileDesc(true, File, fat, -1)], p, pipes[p].used, pipes[p].writeClosed)
      {
        FillKeeps(fds[..], fd, FileDesc(true, File, fat, -1), p, pipes[p].used, pipes[p].writeClosed);
      }
      fds[fd] := FileDesc(true, File, fat, -1);
    }

    /** Read from a descriptor; `device` is what the console or the FAT driver returns. A read end hands
        out the oldest waiting bytes of its own pipe and touches no other. */
    method Read(fd: int, dst: array<Byte>, size: nat, device: int) returns (r: int)
      requires Valid() && size <= dst.Length && forall p | p in pipes :: dst != p.buf
      modifies pipes, dst
      ensures Valid()
      ensures fd < 0 || fd >= 32 || !fds[fd].used || fds[fd].kind !in {PipeRead, Stdin, File} ==> r == -1
      ensures 0 <= fd < 32 && fds[fd].used ==> Kind(fds[..], fd) == fds[fd].kind
      ensures Kind(fds[..], fd) !in {PipeRead, Stdin, File} ==> r == -1
      ensures Kind(fds[..], fd) in {Stdin, File} ==> r == device
      ensures Kind(fds[..], fd) != PipeRead ==> dst[..] == old(dst[..]) && forall p | p in pipes :: unchanged(p)
      ensures Kind(fds[..], fd) == PipeRead ==>
        forall p | 0 <= p < PIPE_MAX && p != fds[fd].pipeId :: unchanged(pipes[p])
      ensures Kind(fds[..], fd) == PipeRead ==>
        var p := pipes[fds[fd].pipeId];
        && r == (if size < old(p.count) then size else old(p.count)) && dst[r..] == old(dst[r..])
        && dst[..r] == old(p.Contents())[..r] && p.Contents() == old(p.Contents())[r..]
        && p.delivered == old(p.delivered) + dst[..r] && p.accepted == old(p.accepted)
    {
      hide EndsOk, Lifecycle, Pipe.Valid, Pipe.Contents;
      if fd < 0 || fd >= FD_MAX || !fds[fd].used { return -1; }
      match fds[fd].kind
      case Stdin => return device;
      case PipeRead =>
        EndNamed(fd);
        var p := pipes[fds[fd].pipeId];
        if p.count == 0 && p.writeClosed {
          p.EmptyContents();
          return 0;
        }
        var n := p.Take(dst, size);
        return n;
      case File => return device;
      case _ => return -1;
    }

    /** Write to a descriptor. A write end appends as much as its own pipe has room for. */
    method Write(fd: int, src: seq<Byte>, device: int) returns (r: int)
      requires Valid()
      modifies pipes, set p | p in pipes :: p.buf
      ensures Valid()
      ensures fd < 0 || fd >= 32 || !fds[fd].used || fds[fd].kind !in {PipeWrite, Stdout, Stderr, File} ==> r == -1
      ensures 0 <= fd < 32 && fds[fd].used ==> Kind(fds[..], fd) == fds[fd].kind
      ensures Kind(fds[..], fd) !in {PipeWrite, Stdout, Stderr, File} ==> r == -1
      ensures Kind(fds[..], fd) in {Stdout, Stderr} ==> r == |src|
      ensures Kind(fds[..], fd) == File ==> r == device
      ensures Kind(fds[..], fd) != PipeWrite ==> forall p | p in pipes :: unchanged(p) && unchanged(p.buf)
      ensures Kind(fds[..], fd) == PipeWrite ==>
        forall p | 0 <= p < PIPE_MAX && p != fds[fd].pipeId :: unchanged(pipes[p]) && unchanged(pipes[p].buf)
      ensures Kind(fds[..], fd) == PipeWrite ==>
        var p := pipes[fds[fd].pipeId];
        && r == (if |src| < 512 - old(p.count) then |src| else 512 - old(p.count))
        && p.Contents() == old(p.Contents()) + src[..r]
        && p.accepted == old(p.accepted) + src[..r] && p.delivered == old(p.delivered)
    {
      hide EndsOk, Lifecycle, Pipe.Valid, Pipe.Contents;
      if fd < 0 || fd >= FD_MAX || !fds[fd].used { return -1; }
      match fds[fd].kind
      case Stdout => return |src|;
      case Stderr => return |src|;
      case PipeWrite =>
        EndNamed(fd);
        var p := pipes[fds[fd].pipeId];
        if p.writeClosed { return -1; }
        var n := p.Put(src);
        return n;
      case File => return device;
      case _ => return -1;
    }

    /** Close a descriptor. The pipe it was an end of stays while the other end is open and is free for
        reuse when it is not; a closed write end is recorded. The result is the FAT descriptor to close, or -1. */
    method Close(fd: int) returns (fat: int)
      requires Valid()
      modifies fds, pipes
      ensures Valid()
      ensures fat == if Kind(old(fds[..]), fd) == File then old(fds[..])[fd].fatFd else -1
      ensures fds[..] == if 0 <= fd < 32 then old(fds[..])[fd := FileDesc(false, None, -1, -1)] else old(fds[..])
      ensures forall p | 0 <= p < PIPE_MAX ::
        pipes[p].accepted == old(pipes[p].accepted) && pipes[p].Contents() == old(pipes[p].Contents())
    {
      hide EndsOk, Lifecycle, Pipe.Valid, Pipe.Contents, HasReader, HasWriter;
      fat := -1;
      if fd < 0 || fd >= FD_MAX || !fds[fd].used {
        FreeClosed(fds[..]);
        return;
      }
      CloseEnds(fds[..], fd);
      if fds[fd].kind == File { fat := fds[fd].fatFd; }
      LeavePipe(fd);
      fds[fd] := CLOSED;
      assert fds[..] == old(fds[..])[fd := CLOSED];
    }

    /** What closing descriptor fd does to the pipe it is an end of. */
    method LeavePipe(fd: nat)
      requires Valid() && fd < FD_MAX && fds[fd].used
      modifies pipes
      ensures PipesOk()
      ensures forall p | 0 <= p < PIPE_MAX ::
        Lifecycle(fds[..][fd := CLOSED], p, pipes[p].used, pipes[p].writeClosed)
      ensures forall p | 0 <= p < PIPE_MAX ::
        pipes[p].accepted == old(pipes[p].accepted) && pipes[p].Contents() == old(pipes[p].Contents())
    {
      hide EndsOk, Lifecycle, Pipe.Valid, Pipe.Contents, HasReader, HasWriter;
      if fds[fd].kind == PipeWrite && fds[fd].pipeId >= 0 {
        EndNamed(fd);
        var p := pipes[fds[fd].pipeId];
        var anyReader := AnyReader(fds[fd].pipeId);
        p.EndWriting();
        if !anyReader { p.Release(); }
      }
      if fds[fd].kind == PipeRead && fds[fd].pipeId >= 0 {
        EndNamed(fd);
        var p := pipes[fds[fd].pipeId];
        var anyWriter := AnyWriter(fds[fd].pipeId);
        if !anyWriter { p.Release(); }
      }
      forall p | 0 <= p < PIPE_MAX
        ensures Lifecycle(fds[..][fd := CLOSED], p, pipes[p].used, pipes[p].writeClosed)
      {
        CloseKeeps(fds[..], fd, p, old(pipes[p].used), old(pipes[p].writeClosed));
      }
    }

    method AnyReader(p: int) returns (any: bool)
      requires fds.Length == FD_MAX
      ensures any <==> HasReader(fds[..], p)
    {
      any := false;
      for i := 0 to FD_MAX
        invariant any <==> exists j :: 0 <= j < i && ReaderOf(fds[..][j], p)
      {
        if fds[i].used && fds[i].kind == PipeRead && fds[i].pipeId == p {
          assert ReaderOf(fds[..][i], p);
          any := true;
        }
      }
    }

    method AnyWriter(p: int) returns (any: bool)
      requires fds.Length == FD_MAX
      ensures any <==> HasWriter(fds[..], p)
    {
      any := false;
      for i := 0 to FD_MAX
        invariant any <==> exists j :: 0 <= j < i && WriterOf(fds[..][j], p)
      {
        if fds[i].used && fds[i].kind == PipeWrite && fds[i].pipeId == p {
          assert WriterOf(fds[..][i], p);
          any := true;
        }
      }
    }

    /** What an open pipe end says about its pipe. */
    lemma EndNamed(fd: int)
      requires Valid() && 0 <= fd < FD_MAX && fds[fd].used && fds[fd].kind in {PipeRead, PipeWrite}
      ensures 0 <= fds[fd].pipeId < PIPE_MAX && pipes[fds[fd].pipeId].used
      ensures fds[fd].kind == PipeWrite ==> !pipes[fds[fd].pipeId].writeClosed
    {
      var p := fds[fd].pipeId;
      assert fds[..][fd].pipeId == p;
      assert Lifecycle(fds[..], p, pipes[p].used, pipes[p].writeClosed);
      assert ReaderOf(fds[..][fd], p) || WriterOf(fds[..][fd], p);
    }

    /** A pipe is in use exactly while a descriptor in use is an end of it, one of each kind at most, and then its
        write side is closed exactly when the write end is gone. */
    lemma PipeInUse(p: nat)
      requires Valid() && p < 8
      ensures pipes[p].used <==>
                exists i :: 0 <= i < 32 && fds[i].used && (fds[i].kind == PipeRead || fds[i].kind == PipeWrite)
                            && fds[i].pipeId == p
      ensures pipes[p].used ==>
                (pipes[p].writeClosed <==>
                   forall i | 0 <= i < 32 && fds[i].used && fds[i].kind == PipeWrite :: fds[i].pipeId != p)
      ensures forall i, j | 0 <= i < 32 && 0 <= j < 32 && fds[i].used && fds[j].used && fds[i].kind == fds[j].kind
                            && (fds[i].kind == PipeRead || fds[i].kind == PipeWrite)
                            && fds[i].pipeId == fds[j].pipeId == p :: i == j
    {
      var fs := fds[..];
      assert Lifecycle(fs, p, pipes[p].used, pipes[p].writeClosed);
      forall i | 0 <= i < 32
        ensures (ReaderOf(fs[i], p) <==> fds[i].used && fds[i].kind == PipeRead && fds[i].pipeId == p)
                && (WriterOf(fs[i], p) <==> fds[i].used && fds[i].kind == PipeWrite && fds[i].pipeId == p)
      {
      }
    }

    lemma UnusedPipe(p: nat)
      requires Valid() && p < PIPE_MAX && !pipes[p].used
      ensures !HasReader(fds[..], p) && !HasWriter(fds[..], p)
    {
      assert Lifecycle(fds[..], p, pipes[p].used, pipes[p].writeClosed);
    }
  }

  /** Making a pipe and closing both ends, in either order, frees its slot and restores the table. */
  method MakeAndClose(t: FdTable, writerFirst: bool)
    requires t.Valid()
    modifies t.fds, t.pipes
    ensures t.Valid() && t.fds[..] == old(t.fds[..])
    ensures forall p | 0 <= p < PIPE_MAX :: t.pipes[p].used == old(t.pipes[p].used)
  {
    hide EndsOk, Pipe.Valid, Pipe.Contents, HasReader, HasWriter;
    FreeClosed(t.fds[..]);
    var ok, r, w, pid := t.MakePipe();
    if ok {
      var fat := t.Close(if writerFirst then w else r);
      fat := t.Close(if writerFirst then r else w);
      assert t.fds[..] == old(t.fds[..]);
    }
    forall p | 0 <= p < PIPE_MAX ensures t.pipes[p].used == old(t.pipes[p].used) {
      assert Lifecycle(t.fds[..], p, t.pipes[p].used, t.pipes[p].writeClosed);
      assert Lifecycle(old(t.fds[..]), p, old(t.pipes[p].used), old(t.pipes[p].writeClosed));
    }
  }
}
