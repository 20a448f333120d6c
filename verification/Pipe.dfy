/** The ring buffer of pipe.c with its 32-bit counters, and its loops. */
module Pipe {
  import opened Base

  const PIPESIZE := 512

  datatype Ring = Ring(data: seq<byte>, nread: uint, nwrite: uint, readopen: bool, writeopen: bool)

  /** Bytes written and not read, through counter wrap-around. */
  function Used(p: Ring): nat {
    (p.nwrite - p.nread) % TWO32
  }

  predicate Valid(p: Ring) {
    |p.data| == PIPESIZE && Used(p) <= PIPESIZE
  }

  /** The writing counter is PIPESIZE ahead of the reading one, modulo 2^32. */
  predicate Full(p: Ring) {
    p.nwrite == (p.nread + PIPESIZE) % TWO32
  }

  predicate Empty(p: Ring) {
    p.nread == p.nwrite
  }

  /** The bytes in the pipe, oldest first. */
  function Contents(p: Ring): (s: seq<byte>)
    requires Valid(p)
    ensures |s| == Used(p)
  {
    seq(Used(p), k requires 0 <= k < Used(p) => p.data[(p.nread + k) % PIPESIZE])
  }

  /** One byte goes into the cell of the writing counter, which moves on. */
  function Push(p: Ring, b: byte): Ring
    requires Valid(p)
  {
    p.(data := p.data[p.nwrite % PIPESIZE := b], nwrite := (p.nwrite + 1) % TWO32)
  }

  /** The reading counter moves on. */
  function Pop(p: Ring): Ring {
    p.(nread := (p.nread + 1) % TWO32)
  }

  lemma FullOrEmpty(p: Ring)
    requires Valid(p)
    ensures Full(p) <==> Used(p) == PIPESIZE
    ensures Empty(p) <==> Used(p) == 0
  {
  }

  lemma UsedPop(p: Ring)
    requires !Empty(p)
    ensures Used(Pop(p)) == Used(p) - 1
  {
  }

  lemma CountMore(w: uint, r: uint)
    requires (w - r) % TWO32 + 1 < TWO32
    ensures ((w + 1) % TWO32 - r) % TWO32 == (w - r) % TWO32 + 1
  {
  }

  lemma UsedPush(p: Ring, b: byte)
    requires Valid(p) && !Full(p)
    ensures Used(p) < PIPESIZE && Used(Push(p, b)) == Used(p) + 1
  {
    FullOrEmpty(p);
    CountMore(p.nwrite, p.nread);
  }

  /** The wrap of a counter is a whole number of rounds of the ring. */
  lemma NextCell(n: uint, k: nat)
    ensures ((n + 1) % TWO32 + k) % PIPESIZE == (n + (k + 1)) % PIPESIZE
  {
    if n + 1 == TWO32 { assert n + (k + 1) == k + PIPESIZE * 0x80_0000; }
  }

  /** The writing counter's cell lies Used cells on from the reading counter's. */
  lemma WriteCell(p: Ring)
    ensures p.nwrite % PIPESIZE == (p.nread + Used(p)) % PIPESIZE
  {
    if p.nwrite < p.nread { assert p.nread + Used(p) == p.nwrite + PIPESIZE * 0x80_0000; }
  }

  /** Two of the last PIPESIZE positions never share a cell. */
  lemma Apart(n: nat, k: nat, u: nat)
    requires k < u < PIPESIZE
    ensures (n + k) % PIPESIZE != (n + u) % PIPESIZE
  {
  }

  lemma ContentsAt(p: Ring, k: nat)
    requires Valid(p) && k < Used(p)
    ensures Contents(p)[k] == p.data[(p.nread + k) % PIPESIZE]
  {
  }

  lemma PushContents(p: Ring, b: byte)
    requires Valid(p) && !Full(p)
    ensures Valid(Push(p, b)) && Contents(Push(p, b)) == Contents(p) + [b]
  {
    var q, n := Push(p, b), Used(p);
    UsedPush(p, b);
    WriteCell(p);
    hide Used, Contents, Full;
    forall k | 0 <= k <= n ensures Contents(q)[k] == (Contents(p) + [b])[k] {
      ContentsAt(q, k);
      if k < n {
        ContentsAt(p, k);
        Apart(p.nread, k, n);
      }
    }
  }

  lemma PopContents(p: Ring)
    requires Valid(p) && !Empty(p)
    ensures Valid(Pop(p)) && Contents(p)[0] == p.data[p.nread % PIPESIZE]
    ensures Contents(Pop(p)) == Contents(p)[1..]
  {
    var q := Pop(p);
    UsedPop(p);
    hide Used, Contents;
    ContentsAt(p, 0);
    forall k | 0 <= k < Used(q) ensures Contents(q)[k] == Contents(p)[1..][k] {
      ContentsAt(q, k);
      ContentsAt(p, k + 1);
      NextCell(p.nread, k);
    }
  }

  // ---------------------------------------------------------------- the loops, up to a sleep or return

  /** How a stretch of pipewrite under the lock ends: returns n, returns -1, or sleeps at byte i. */
  datatype Exit = Done | Fail | Sleep

  /** pipewrite from byte i on: the pipe, how far it got, and how it ended. */
  function WriteRun(p: Ring, addr: seq<byte>, i: nat, killed: bool): (Ring, nat, Exit)
    requires Valid(p) && i <= |addr|
    decreases |addr| - i
  {
    if i == |addr| then (p, i, Done)
    else if Full(p) then (p, i, if !p.readopen || killed then Fail else Sleep)
    else
      PushContents(p, addr[i]);
      WriteRun(Push(p, addr[i]), addr, i + 1, killed)
  }

  lemma {:induction false} WriteRunContents(p: Ring, addr: seq<byte>, i: nat, killed: bool)
    requires Valid(p) && i <= |addr|
    ensures var (q, j, e) := WriteRun(p, addr, i, killed);
            && Valid(q) && i <= j <= |addr|
            && Contents(q) == Contents(p) + addr[i..j]
            && q.readopen == p.readopen && q.writeopen == p.writeopen
            && (e == Done <==> j == |addr|)
            && (e != Done ==> Full(q))
            && (e == Fail ==> !p.readopen || killed)
            && (e == Sleep ==> p.readopen && !killed)
    decreases |addr| - i
  {
    if i < |addr| && !Full(p) {
      PushContents(p, addr[i]);
      WriteRunContents(Push(p, addr[i]), addr, i + 1, killed);
      var (q, j, e) := WriteRun(p, addr, i, killed);
      assert addr[i..j] == [addr[i]] + addr[i + 1..j];
    }
  }

  /** piperead's copying loop: up to n bytes. */
  function ReadRun(p: Ring, n: nat): (Ring, seq<byte>)
    requires Valid(p)
    decreases n
  {
    if n == 0 || Empty(p) then (p, [])
    else
      PopContents(p);
      var (q, bytes) := ReadRun(Pop(p), n - 1);
      (q, [p.data[p.nread % PIPESIZE]] + bytes)
  }

  lemma {:induction false} ReadRunContents(p: Ring, n: nat)
    requires Valid(p)
    ensures var (q, bytes) := ReadRun(p, n);
            && Valid(q) && bytes + Contents(q) == Contents(p)
            && |bytes| == (if n < Used(p) then n else Used(p))
            && q.readopen == p.readopen && q.writeopen == p.writeopen
    decreases n
  {
    hide Contents, Used;
    FullOrEmpty(p);
    if n > 0 && !Empty(p) {
      UsedPop(p);
      PopContents(p);
      ReadRunContents(Pop(p), n - 1);
      var (q, bytes) := ReadRun(Pop(p), n - 1);
      assert [Contents(p)[0]] + bytes + Contents(q) == [Contents(p)[0]] + (bytes + Contents(q));
      assert Contents(p) == [Contents(p)[0]] + Contents(p)[1..];
    }
  }

  /** One byte of the loop, or its end. */
  lemma ReadRunStep(p: Ring, n: nat)
    requires Valid(p)
    ensures n == 0 || Empty(p) ==> ReadRun(p, n) == (p, [])
    ensures n > 0 && !Empty(p) ==>
              && Valid(Pop(p)) && ReadRun(p, n).0 == ReadRun(Pop(p), n - 1).0
              && ReadRun(p, n).1 == [p.data[p.nread % PIPESIZE]] + ReadRun(Pop(p), n - 1).1
  {
    hide Contents, Used;
    if n > 0 && !Empty(p) { PopContents(p); }
  }

  /** struct pipe, with the two loops as they run with the lock held. */
  class PipeBuffer {
    var data: array<byte>
    var nread: uint
    var nwrite: uint
    var readopen: bool
    var writeopen: bool

    ghost function State(): Ring
      reads this, data
    {
      Ring(data[..], nread, nwrite, readopen, writeopen)
    }

    /** The loop of pipewrite, from byte i until it returns or has to sleep. */
    method Write(addr: seq<byte>, i: nat, killed: bool) returns (j: nat, e: Exit)
      requires Valid(State()) && i <= |addr|
      modifies this`nwrite, data
      ensures Valid(State()) && (State(), j, e) == WriteRun(old(State()), addr, i, killed)
    {
      j := i;
      while j < |addr|
        invariant i <= j <= |addr| && Valid(State())
        invariant WriteRun(State(), addr, j, killed) == WriteRun(old(State()), addr, i, killed)
      {
        if nwrite == (nread + PIPESIZE) % TWO32 {
          return j, if !readopen || killed then Fail else Sleep;
        }
        ghost var p := State();
        PushContents(p, addr[j]);
        data[nwrite % PIPESIZE] := addr[j];
        nwrite := (nwrite + 1) % TWO32;
        assert State() == Push(p, addr[j]);
        j := j + 1;
      }
      e := Done;
    }

    /** The copying loop of piperead. */
    method Read(n: nat) returns (bytes: seq<byte>)
      requires Valid(State())
      modifies this`nread
      ensures Valid(State()) && (State(), bytes) == ReadRun(old(State()), n)
    {
      hide Contents, Used, ReadRun;
      bytes := [];
      var i := 0;
      ghost var (final, all) := ReadRun(State(), n);
      while i < n
        invariant 0 <= i <= n && Valid(State())
        invariant ReadRun(State(), n - i).0 == final && bytes + ReadRun(State(), n - i).1 == all
      {
        ghost var p := State();
        ReadRunStep(p, n - i);
        if nread == nwrite {
          break;
        }
        bytes := bytes + [data[nread % PIPESIZE]];
        nread := (nread + 1) % TWO32;
        assert State() == Pop(p);
        i := i + 1;
      }
      ReadRunStep(State(), n - i);
      assert bytes + [] == bytes;
    }
  }
}
