/**
 * The pipe's ring buffer, and calls that read and write it while giving up the processor in between.
 * A call runs from one yield to the next without interruption.
 */
module Pipes {
  import opened Common

  /** A pipe, its ring buffer seen as the bytes in it. */
  datatype PipeState = PipeState(readOpen: bool, writeOpen: bool, data: seq<bv8>)

  datatype ReadOutcome = Eof | Wait | Got(bytes: seq<bv8>)

  datatype ReadResult = ReadResult(pipe: PipeState, outcome: ReadOutcome)

  /** A read from its start or its last yield on: end of file, one more yield, or the bytes at the front. */
  function ReadFrom(p: PipeState, wanted: nat): ReadResult {
    if p.data == [] then ReadResult(p, if p.writeOpen then Wait else Eof)
    else
      var n := Min(wanted, |p.data|);
      ReadResult(p.(data := p.data[n..]), Got(p.data[..n]))
  }

  datatype WriteOutcome = Written | BrokenPipe | Yield

  datatype WriteResult = WriteResult(pipe: PipeState, count: nat, outcome: WriteOutcome)

  function Room(p: PipeState, size: nat): nat {
    if |p.data| < size then size - |p.data| else 0
  }

  /** A write from its last yield on, with `rest` still to go: as much as fits. */
  function WriteMore(p: PipeState, size: nat, rest: seq<bv8>): (r: WriteResult)
    ensures r.count <= |rest|
  {
    var n := Min(|rest|, Room(p, size));
    WriteResult(p.(data := p.data + rest[..n]), n, if n == |rest| then Written else if p.readOpen then Yield
        else BrokenPipe)
  }

  /** A write from its start on. */
  function WriteInto(p: PipeState, size: nat, src: seq<bv8>): (r: WriteResult)
    ensures r.count <= |src|
  {
    if !p.readOpen then WriteResult(p, 0, BrokenPipe) else WriteMore(p, size, src)
  }

  /** Position `k` places after `p` in a ring of `n`, for `k` up to `n`. */
  function Slot(p: nat, k: nat, n: nat): nat {
    if p + k < n then p + k else p + k - n
  }

  lemma NextSlot(p: nat, n: nat)
    requires p < n
    ensures (p + 1) % n == Slot(p, 1, n)
  {
    if p + 1 == n {
      assert n % n == 0;
    }
  }

  /** The `count` bytes from position `p` on, around the ring. */
  function Window(buf: seq<bv8>, p: nat, count: nat): (s: seq<bv8>)
    requires p < |buf| && count <= |buf|
    ensures |s| == count
  {
    seq(count, k requires 0 <= k < count => buf[Slot(p, k, |buf|)])
  }

  lemma WindowFront(buf: seq<bv8>, p: nat, count: nat)
    requires p < |buf| && 0 < count <= |buf|
    ensures Window(buf, p, count) == [buf[p]] + Window(buf, Slot(p, 1, |buf|), count - 1)
  {
  }

  lemma WindowBack(buf: seq<bv8>, p: nat, count: nat, x: bv8)
    requires p < |buf| && count < |buf|
    ensures Slot(p, count, |buf|) < |buf|
    ensures Window(buf[Slot(p, count, |buf|) := x], p, count + 1) == Window(buf, p, count) + [x]
  {
  }

  lemma Associate(a: seq<bv8>, b: seq<bv8>, c: seq<bv8>)
    ensures a + b + c == a + (b + c)
  {
  }

  lemma NextByte(src: seq<bv8>, from: nat, i: nat)
    requires from <= i < |src|
    ensures src[from..i + 1] == src[from..i] + [src[i]]
  {
  }

  lemma Front(data: seq<bv8>, bytes: seq<bv8>, rest: seq<bv8>)
    requires data == bytes + rest
    ensures bytes == data[..|bytes|] && rest == data[|bytes|..]
  {
  }

  lemma RestFrom(src: seq<bv8>, total: nat, total': nat)
    requires total <= total' <= |src|
    ensures src[total..total'] == src[total..][..total' - total]
  {
  }

  /** The pipe as the kernel has it. */
  class Ring {
    const buf: array<bv8>
    var readPos: nat
    var writePos: nat
    var count: nat
    var readOpen: bool
    var writeOpen: bool

    ghost predicate Valid()
      reads this
    {
      && readPos < buf.Length && count <= buf.Length
      && writePos == Slot(readPos, count, buf.Length) && writePos < buf.Length
    }

    ghost function Contents(): seq<bv8>
      reads this, buf
      requires Valid()
    {
      Window(buf[..], readPos, count)
    }

    ghost function View(): PipeState
      reads this, buf
      requires Valid()
    {
      PipeState(readOpen, writeOpen, Contents())
    }

    constructor (size: nat)
      requires 0 < size
      ensures Valid() && fresh(buf) && buf.Length == size && View() == PipeState(true, true, [])
    {
      buf := new bv8[size];
      readPos, writePos, count, readOpen, writeOpen := 0, 0, 0, true, true;
    }

    /** The pipe arm of `fd_read` from its start or its last yield on. */
    method ReadPass(wanted: nat) returns (out: ReadOutcome)
      requires Valid()
      modifies this`readPos, this`count
      ensures Valid() && ReadResult(View(), out) == ReadFrom(old(View()), wanted)
    {
      hide Window, Slot;
      if count == 0 {
        if !writeOpen {
          return Eof;
        }
        return Wait;
      }
      var dst: seq<bv8> := [];
      while |dst| < wanted && count > 0
        invariant Valid() && |dst| <= wanted && |dst| + count == old(count)
        invariant old(Contents()) == dst + Contents()
      {
        var x := Get();
        Associate(dst, [x], Contents());
        dst := dst + [x];
      }
      Front(old(Contents()), dst, Contents());
      return Got(dst);
    }

    /** One byte out. */
    method Get() returns (x: bv8)
      requires Valid() && 0 < count
      modifies this`readPos, this`count
      ensures Valid() && count == old(count) - 1
      ensures old(Contents()) == [x] + Contents()
    {
      WindowFront(buf[..], readPos, count);
      NextSlot(readPos, buf.Length);
      x := buf[readPos];
      readPos := (readPos + 1) % buf.Length;
      count := count - 1;
    }

    /** The pipe arm of `fd_write` up to its first yield or its return. */
    method WriteCall(src: seq<bv8>) returns (total: nat, outcome: WriteOutcome)
      requires Valid()
      modifies this`writePos, this`count, buf
      ensures Valid() && WriteResult(View(), total, outcome) == WriteInto(old(View()), buf.Length, src)
    {
      if !readOpen {
        return 0, BrokenPipe;
      }
      total, outcome := WritePass(src, 0);
      assert src[0..] == src;
    }

    /** The loop of `fd_write` with `total` bytes already in, up to its next yield or its return. */
    method WritePass(src: seq<bv8>, total: nat) returns (total': nat, outcome: WriteOutcome)
      requires Valid() && total <= |src|
      modifies this`writePos, this`count, buf
      ensures Valid() && total <= total' <= |src|
      ensures WriteResult(View(), total' - total, outcome) == WriteMore(old(View()), buf.Length, src[total..])
    {
      hide Window, Slot;
      total' := total;
      while total' < |src|
        invariant Valid() && old(count) <= count && total <= total' <= |src|
        invariant Contents() == old(Contents()) + src[total..total']
        decreases |src| - total'
      {
        if count == buf.Length {
          RestFrom(src, total, total');
          if !readOpen {
            return total', BrokenPipe;
          }
          return total', Yield;
        }
        ghost var start := total';
        while total' < |src| && count < buf.Length
          invariant Valid() && old(count) <= count && total <= total' <= |src|
          invariant Contents() == old(Contents()) + src[total..total']
          invariant total' > start || count < buf.Length
        {
          NextByte(src, total, total');
          Associate(old(Contents()), src[total..total'], [src[total']]);
          Put(src[total']);
          total' := total' + 1;
        }
      }
      RestFrom(src, total, total');
      return total', Written;
    }

    /** One byte in. */
    method Put(x: bv8)
      requires Valid() && count < buf.Length
      modifies this`writePos, this`count, buf
      ensures Valid() && count == old(count) + 1
      ensures Contents() == old(Contents()) + [x]
    {
      WindowBack(buf[..], readPos, count, x);
      NextSlot(writePos, buf.Length);
      ghost var before := buf[..];
      buf[writePos] := x;
      assert buf[..] == before[writePos := x];
      writePos := (writePos + 1) % buf.Length;
      count := count + 1;
    }
  }
}
