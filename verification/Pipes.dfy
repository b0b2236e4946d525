/** Pipes: 512-byte rings with the history of what went through them. */
module Pipes {
  import opened Sectors

  const PIPE_BUF := 512

  /** c bytes of the ring b from place r on, round the end if need be. */
  ghost function Ring(b: seq<Byte>, r: nat, c: nat): seq<Byte>
    requires |b| == PIPE_BUF
  {
    seq(c, i requires 0 <= i => b[(r + i) % PIPE_BUF])
  }

  lemma RoundOnce(r: nat, i: nat)
    ensures ((r % PIPE_BUF) + i) % PIPE_BUF == (r + i) % PIPE_BUF
  {
  }

  lemma RingDrop(b: seq<Byte>, r: nat, c: nat)
    requires |b| == PIPE_BUF && r < PIPE_BUF && c > 0
    ensures Ring(b, r, c)[0] == b[r]
    ensures Ring(b, (r + 1) % PIPE_BUF, c - 1) == Ring(b, r, c)[1..]
    ensures ((r + 1) % PIPE_BUF + (c - 1)) % PIPE_BUF == (r + c) % PIPE_BUF
  {
    var d, e := Ring(b, (r + 1) % PIPE_BUF, c - 1), Ring(b, r, c)[1..];
    forall i | 0 <= i < c - 1 ensures d[i] == e[i] { RoundOnce(r + 1, i); }
    RoundOnce(r + 1, c - 1);
  }

  lemma RingAdd(b: seq<Byte>, r: nat, c: nat, x: Byte)
    requires |b| == PIPE_BUF && r < PIPE_BUF && c < PIPE_BUF
    ensures Ring(b[(r + c) % PIPE_BUF := x], r, c + 1) == Ring(b, r, c) + [x]
    ensures ((r + c) % PIPE_BUF + 1) % PIPE_BUF == (r + c + 1) % PIPE_BUF
  {
    RoundOnce(r + c, 1);
    var d, e := Ring(b[(r + c) % PIPE_BUF := x], r, c + 1), Ring(b, r, c) + [x];
    forall i | 0 <= i < c ensures d[i] == e[i] { Apart(r + i, c - i); }
    assert d == e;
  }

  lemma Apart(a: nat, d: nat)
    requires 0 < d < PIPE_BUF
    ensures a % PIPE_BUF != (a + d) % PIPE_BUF
  {
    RoundOnce(a, d);
  }

  lemma HandOver(delivered: seq<Byte>, out: seq<Byte>, left: seq<Byte>, was: seq<Byte>, n: nat)
    requires n <= |was| && out == was[..n] && left == was[n..]
    ensures delivered + was == delivered + out + left
  {
  }

  class Pipe {
    var used: bool
    const buf: array<Byte>
    var readPos: nat
    var writePos: nat
    var count: nat
    var writeClosed: bool
    /** Every byte accepted, and every byte handed out, since the pipe was made. */
    ghost var accepted: seq<Byte>
    ghost var delivered: seq<Byte>

    /** The bytes waiting in the ring, oldest first. */
    ghost function Contents(): seq<Byte>
      requires buf.Length == PIPE_BUF
      reads this, buf
    {
      Ring(buf[..], readPos, count)
    }

    /** First in, first out: what was read followed by what is waiting is what was accepted. */
    ghost predicate Valid()
      reads this, buf
    {
      && buf.Length == PIPE_BUF && readPos < PIPE_BUF && count <= PIPE_BUF
      && writePos == (readPos + count) % PIPE_BUF
      && accepted == delivered + Contents()
    }

    constructor ()
      ensures Valid() && fresh(buf) && !used
    {
      used, readPos, writePos, count, writeClosed := false, 0, 0, 0, false;
      accepted, delivered := [], [];
      buf := new Byte[PIPE_BUF];
    }

    lemma EmptyContents()
      requires Valid() && count == 0
      ensures Contents() == []
    {
    }

    /** Make the pipe anew. */
    method Reset()
      requires buf.Length == PIPE_BUF
      modifies this
      ensures Valid() && used && !writeClosed && count == 0 && accepted == delivered == []
    {
      used, readPos, writePos, count, writeClosed := true, 0, 0, 0, false;
      accepted, delivered := [], [];
    }

    /** Record that the writer is gone. */
    method EndWriting()
      requires Valid()
      modifies this`writeClosed
      ensures Valid() && writeClosed && Contents() == old(Contents())
    {
      writeClosed := true;
    }

    /** Let the slot be used for another pipe. */
    method Release()
      requires Valid()
      modifies this`used
      ensures Valid() && !used && Contents() == old(Contents())
    {
      used := false;
    }

    /** Move the oldest bytes, as many as are there and fit, to the front of dst. */
    method Take(dst: array<Byte>, size: nat) returns (n: nat)
      requires Valid() && dst != buf && size <= dst.Length
      modifies this`readPos, this`count, this`delivered, dst
      ensures Valid() && n == (if size < old(count) then size else old(count))
      ensures delivered == old(delivered) + dst[..n] && dst[n..] == old(dst[n..])
      ensures dst[..n] == old(Contents())[..n] && Contents() == old(Contents())[n..]
      ensures |old(Contents())| == old(count) && |Contents()| == count == old(count) - n
    {
      n := 0;
      while n < size && count > 0
        invariant n <= size && n + count == old(count) && delivered == old(delivered)
        invariant readPos < PIPE_BUF && writePos == (readPos + count) % PIPE_BUF
        invariant Contents() == old(Contents())[n..]
        invariant dst[..n] == old(Contents())[..n] && dst[n..] == old(dst[n..])
        decreases size - n
      {
        RingDrop(buf[..], readPos, count);
        dst[n] := buf[readPos];
        n := n + 1;
        readPos := (readPos + 1) % PIPE_BUF;
        count := count - 1;
      }
      HandOver(delivered, dst[..n], Contents(), old(Contents()), n);
      delivered := delivered + dst[..n];
    }

    /** Append the first bytes of src, as many as there is room for. */
    method Put(src: seq<Byte>) returns (n: nat)
      requires Valid()
      modifies this`writePos, this`count, this`accepted, buf
      ensures Valid() && n == if |src| < 512 - old(count) then |src| else 512 - old(count)
      ensures |old(Contents())| == old(count) && |Contents()| == count == old(count) + n
      ensures accepted == old(accepted) + src[..n]
      ensures Contents() == old(Contents()) + src[..n]
    {
      n := 0;
      while n < |src| && count < PIPE_BUF
        invariant n <= |src| && count == old(count) + n <= PIPE_BUF && writePos == (readPos + count) % PIPE_BUF
        invariant Contents() == old(Contents()) + src[..n] && accepted == old(accepted)
        decreases |src| - n
      {
        RingAdd(buf[..], readPos, count, src[n]);
        buf[writePos] := src[n];
        n := n + 1;
        writePos := (writePos + 1) % PIPE_BUF;
        count := count + 1;
      }
      accepted := accepted + src[..n];
    }
  }
}
