/**
 * All calls there are on one pipe, each somewhere between two of its yields.  A call only needs the
 * end its descriptor is to be open: the kernel does not look at whether that end is for reading or
 * for writing.
 */
module PipeTraffic {
  import opened Common
  import opened Pipes

  /** Bytes with the call that wrote or read them. */
  type Log = seq<(nat, bv8)>

  ghost function Bytes(log: Log): seq<bv8> {
    seq(|log|, k requires 0 <= k < |log| => log[k].1)
  }

  ghost function Tagged(id: nat, bytes: seq<bv8>): Log {
    seq(|bytes|, k requires 0 <= k < |bytes| => (id, bytes[k]))
  }

  /** The bytes of one call. */
  ghost function Own(log: Log, id: nat): seq<bv8> {
    if log == [] then []
    else
      var last := log[|log| - 1];
      Own(log[..|log| - 1], id) + (if last.0 == id then [last.1] else [])
  }

  lemma BytesAppend(log: Log, id: nat, bytes: seq<bv8>)
    ensures Bytes(log + Tagged(id, bytes)) == Bytes(log) + bytes
  {
  }

  lemma OwnPush(log: Log, id: nat, x: bv8, other: nat)
    ensures Own(log + [(id, x)], other) == Own(log, other) + (if other == id then [x] else [])
  {
    assert (log + [(id, x)])[..|log|] == log;
  }

  lemma {:induction false} OwnAppend(log: Log, id: nat, bytes: seq<bv8>, other: nat)
    ensures Own(log + Tagged(id, bytes), other) == Own(log, other) + (if other == id then bytes else [])
  {
    hide Own;
    if bytes == [] {
      assert log + Tagged(id, bytes) == log;
    } else {
      var init, x := bytes[..|bytes| - 1], bytes[|bytes| - 1];
      OwnAppend(log, id, init, other);
      OwnPush(log + Tagged(id, init), id, x, other);
      assert bytes == init + [x];
      assert log + Tagged(id, bytes) == log + Tagged(id, init) + [(id, x)];
    }
  }

  lemma {:induction false} OwnNone(log: Log, id: nat)
    requires forall k | 0 <= k < |log| :: log[k].0 < id
    ensures Own(log, id) == []
  {
    if log != [] {
      OwnNone(log[..|log| - 1], id);
    }
  }

  datatype End = ReadEnd | WriteEnd

  datatype WriteState = Writing | WriteDone | WriteFailed

  /** A call of write: how many of its bytes are in, and which end its descriptor is. */
  datatype WriteCall = WriteCall(src: seq<bv8>, total: nat, state: WriteState, via: End)

  /** A call of read: what it returned. */
  datatype ReadCall = ReadCall(wanted: nat, done: bool, bytes: seq<bv8>)

  datatype Stream = Stream(size: nat, pipe: PipeState, puts: seq<WriteCall>, gets: seq<ReadCall>, accepted: Log,
                           delivered: Log)

  /** A call enters, or goes on from its yield; or the last descriptor of an end closes. */
  datatype Event =
    | BeginWrite(via: End, src: seq<bv8>)
    | StepWrite(w: nat)
    | BeginRead(via: End, wanted: nat)
    | StepRead(r: nat)
    | Close(end: End)

  ghost function Initial(size: nat): Stream {
    Stream(size, PipeState(true, true, []), [], [], [], [])
  }

  predicate IsOpen(p: PipeState, end: End) {
    match end
    case ReadEnd => p.readOpen
    case WriteEnd => p.writeOpen
  }

  function Closed(p: PipeState, end: End): PipeState {
    match end
    case ReadEnd => p.(readOpen := false)
    case WriteEnd => p.(writeOpen := false)
  }

  ghost predicate Legal(s: Stream, e: Event) {
    match e
    case BeginWrite(via, _) => IsOpen(s.pipe, via)
    case StepWrite(w) => w < |s.puts| && s.puts[w].state == Writing && s.puts[w].total <= |s.puts[w].src|
    case BeginRead(via, _) => IsOpen(s.pipe, via)
    case StepRead(r) => r < |s.gets| && !s.gets[r].done
    case Close(_) => true
  }

  function StateOf(outcome: WriteOutcome): WriteState {
    match outcome
    case Written => WriteDone
    case BrokenPipe => WriteFailed
    case Yield => Writing
  }

  /** Call `w` put in `r.count` more bytes. */
  ghost function Wrote(s: Stream, w: nat, r: WriteResult): Stream
    requires w < |s.puts| && s.puts[w].total + r.count <= |s.puts[w].src|
  {
    var call := s.puts[w];
    s.(pipe := r.pipe,
       puts := s.puts[w := call.(total := call.total + r.count, state := StateOf(r.outcome))],
       accepted := s.accepted + Tagged(w, call.src[call.total..call.total + r.count]))
  }

  function Returned(outcome: ReadOutcome): seq<bv8> {
    if outcome.Got? then outcome.bytes else []
  }

  /** Call `i` got what `r` says. */
  ghost function WasRead(s: Stream, i: nat, r: ReadResult): Stream
    requires i < |s.gets|
  {
    if r.outcome.Wait? then s
    else
      var bytes := Returned(r.outcome);
      s.(pipe := r.pipe,
         gets := s.gets[i := s.gets[i].(done := true, bytes := bytes)],
         delivered := s.delivered + Tagged(i, bytes))
  }

  ghost function WithWrite(s: Stream, via: End, src: seq<bv8>): Stream {
    s.(puts := s.puts + [WriteCall(src, 0, Writing, via)])
  }

  ghost function WithRead(s: Stream, wanted: nat): Stream {
    s.(gets := s.gets + [ReadCall(wanted, false, [])])
  }

  ghost function After(s: Stream, e: Event): Stream
    requires Legal(s, e)
  {
    match e
    case BeginWrite(via, src) => Wrote(WithWrite(s, via, src), |s.puts|, WriteInto(s.pipe, s.size, src))
    case StepWrite(w) => Wrote(s, w, WriteMore(s.pipe, s.size, s.puts[w].src[s.puts[w].total..]))
    case BeginRead(_, wanted) => WasRead(WithRead(s, wanted), |s.gets|, ReadFrom(s.pipe, wanted))
    case StepRead(r) => WasRead(s, r, ReadFrom(s.pipe, s.gets[r].wanted))
    case Close(end) => s.(pipe := Closed(s.pipe, end))
  }

  /** What each call got or gave is what the logs say. */
  ghost predicate WriteOk(call: WriteCall, own: seq<bv8>) {
    && call.total <= |call.src| && own == call.src[..call.total]
    && (call.state == WriteDone ==> call.total == |call.src|)
    && (call.state == Writing ==> call.total < |call.src|)
  }

  ghost predicate WritesOk(puts: seq<WriteCall>, accepted: Log) {
    && (forall w | 0 <= w < |puts| :: WriteOk(puts[w], Own(accepted, w)))
    && (forall k | 0 <= k < |accepted| :: accepted[k].0 < |puts|)
  }

  ghost predicate ReadOk(call: ReadCall, own: seq<bv8>) {
    own == call.bytes && |call.bytes| <= call.wanted && (!call.done ==> call.bytes == [])
  }

  ghost predicate ReadsOk(gets: seq<ReadCall>, delivered: Log) {
    && (forall r | 0 <= r < |gets| :: ReadOk(gets[r], Own(delivered, r)))
    && (forall k | 0 <= k < |delivered| :: delivered[k].0 < |gets|)
  }

  /** Bytes returned by reads, in order, then the bytes in the buffer, are the bytes accepted by writes, in order. */
  ghost predicate Fifo(s: Stream) {
    Bytes(s.accepted) == Bytes(s.delivered) + s.pipe.data
  }

  ghost predicate Inv(s: Stream) {
    && 0 < s.size && |s.pipe.data| <= s.size && Fifo(s)
    && WritesOk(s.puts, s.accepted) && ReadsOk(s.gets, s.delivered)
  }

  lemma InitialInv(size: nat)
    requires 0 < size
    ensures Inv(Initial(size))
  {
  }

  lemma WriteAdds(puts: seq<WriteCall>, accepted: Log, w: nat, bytes: seq<bv8>, call: WriteCall)
    requires w <= |puts| && forall k | 0 <= k < |accepted| :: accepted[k].0 < |puts|
    requires forall v | 0 <= v < |puts| && v != w :: WriteOk(puts[v], Own(accepted, v))
    requires WriteOk(call, Own(accepted, w) + bytes)
    ensures w < |puts| ==> WritesOk(puts[w := call], accepted + Tagged(w, bytes))
    ensures w == |puts| ==> WritesOk(puts + [call], accepted + Tagged(w, bytes))
    ensures Bytes(accepted + Tagged(w, bytes)) == Bytes(accepted) + bytes
  {
    hide Own, Bytes;
    BytesAppend(accepted, w, bytes);
    forall v: nat
      ensures Own(accepted + Tagged(w, bytes), v) == Own(accepted, v) + (if v == w then bytes else [])
    {
      OwnAppend(accepted, w, bytes, v);
    }
  }

  lemma ReadAdds(gets: seq<ReadCall>, delivered: Log, r: nat, bytes: seq<bv8>, call: ReadCall)
    requires r <= |gets| && forall k | 0 <= k < |delivered| :: delivered[k].0 < |gets|
    requires forall v | 0 <= v < |gets| && v != r :: ReadOk(gets[v], Own(delivered, v))
    requires ReadOk(call, Own(delivered, r) + bytes)
    ensures r < |gets| ==> ReadsOk(gets[r := call], delivered + Tagged(r, bytes))
    ensures r == |gets| ==> ReadsOk(gets + [call], delivered + Tagged(r, bytes))
    ensures Bytes(delivered + Tagged(r, bytes)) == Bytes(delivered) + bytes
  {
    hide Own, Bytes;
    BytesAppend(delivered, r, bytes);
    forall v: nat
      ensures Own(delivered + Tagged(r, bytes), v) == Own(delivered, v) + (if v == r then bytes else [])
    {
      OwnAppend(delivered, r, bytes, v);
    }
  }

  /** A write pass, by a call that may have entered just now. */
  lemma WriteKeeps(s: Stream, w: nat, r: WriteResult)
    requires w < |s.puts| && s.puts[w].total <= |s.puts[w].src| && r.count <= |s.puts[w].src[s.puts[w].total..]|
    requires 0 < s.size && |s.pipe.data| <= s.size && Fifo(s) && ReadsOk(s.gets, s.delivered)
    requires forall v | 0 <= v < |s.puts| && v != w :: WriteOk(s.puts[v], Own(s.accepted, v))
    requires forall k | 0 <= k < |s.accepted| :: s.accepted[k].0 < |s.puts|
    requires Own(s.accepted, w) == s.puts[w].src[..s.puts[w].total]
    requires
      || r == WriteMore(s.pipe, s.size, s.puts[w].src[s.puts[w].total..])
      || (r == WriteResult(s.pipe, 0, BrokenPipe))
    ensures Inv(Wrote(s, w, r))
  {
    hide Own, Bytes, WritesOk, ReadsOk;
    var call := s.puts[w];
    var bytes := call.src[call.total..call.total + r.count];
    var call' := call.(total := call.total + r.count, state := StateOf(r.outcome));
    assert call.src[call.total..][..r.count] == bytes;
    assert call.src[..call.total] + bytes == call.src[..call'.total];
    WriteAdds(s.puts, s.accepted, w, bytes, call');
    Associate(Bytes(s.delivered), s.pipe.data, bytes);
    assert s.pipe.data + [] == s.pipe.data;
  }

  /** A read pass, by a call that may have entered just now. */
  lemma ReadKeeps(s: Stream, i: nat)
    requires i < |s.gets| && !s.gets[i].done && Inv(s)
    ensures Inv(WasRead(s, i, ReadFrom(s.pipe, s.gets[i].wanted)))
  {
    hide Own, Bytes, WritesOk, ReadFrom;
    var call, r := s.gets[i], ReadFrom(s.pipe, s.gets[i].wanted);
    ReadSplits(s.pipe, call.wanted);
    if !r.outcome.Wait? {
      var bytes := Returned(r.outcome);
      assert ReadOk(call, Own(s.delivered, i));
      assert [] + bytes == bytes;
      ReadAdds(s.gets, s.delivered, i, bytes, call.(done := true, bytes := bytes));
      Associate(Bytes(s.delivered), bytes, r.pipe.data);
    }
  }

  /** A read splits the contents. */
  lemma ReadSplits(p: PipeState, wanted: nat)
    ensures
      var r := ReadFrom(p, wanted);
      && p.data == Returned(r.outcome) + r.pipe.data && |Returned(r.outcome)| <= wanted
      && (r.outcome.Wait? ==> r.pipe == p) && |r.pipe.data| <= |p.data|
  {
  }

  lemma ReadEnters(s: Stream, wanted: nat)
    requires Inv(s)
    ensures Inv(WithRead(s, wanted))
  {
    hide Bytes;
    OwnNone(s.delivered, |s.gets|);
    ReadAdds(s.gets, s.delivered, |s.gets|, [], ReadCall(wanted, false, []));
    assert s.delivered + Tagged(|s.gets|, []) == s.delivered;
  }

  /** Every legal event keeps the invariant. */
  lemma StepInv(s: Stream, e: Event)
    requires Inv(s) && Legal(s, e)
    ensures Inv(After(s, e))
  {
    hide Bytes, Own;
    match e
    case BeginWrite(via, src) =>
      OwnNone(s.accepted, |s.puts|);
      assert src[0..] == src;
      WriteKeeps(WithWrite(s, via, src), |s.puts|, WriteInto(s.pipe, s.size, src));
    case StepWrite(w) =>
      assert WriteOk(s.puts[w], Own(s.accepted, w));
      WriteKeeps(s, w, WriteMore(s.pipe, s.size, s.puts[w].src[s.puts[w].total..]));
    case BeginRead(_, wanted) =>
      ReadEnters(s, wanted);
      ReadKeeps(WithRead(s, wanted), |s.gets|);
    case StepRead(r) => ReadKeeps(s, r);
    case Close(_) =>
  }

  ghost predicate LegalRun(s: Stream, events: seq<Event>)
    decreases events
  {
    events == [] || (Legal(s, events[0]) && LegalRun(After(s, events[0]), events[1..]))
  }

  ghost function RunOf(s: Stream, events: seq<Event>): Stream
    requires LegalRun(s, events)
    decreases events
  {
    if events == [] then s else RunOf(After(s, events[0]), events[1..])
  }

  /** First in, first out, over every interleaving. */
  lemma {:induction false} RunInv(s: Stream, events: seq<Event>)
    requires Inv(s) && LegalRun(s, events)
    ensures Inv(RunOf(s, events))
    decreases events
  {
    if events != [] {
      StepInv(s, events[0]);
      RunInv(After(s, events[0]), events[1..]);
    }
  }

  /** A finished write's bytes are in the stream, in order, and what was delivered is a prefix of it. */
  lemma Finished(s: Stream, w: nat)
    requires Inv(s) && w < |s.puts| && s.puts[w].state == WriteDone
    ensures Own(s.accepted, w) == s.puts[w].src && Bytes(s.delivered) <= Bytes(s.accepted)
  {
    assert WriteOk(s.puts[w], Own(s.accepted, w));
    assert s.puts[w].src[..|s.puts[w].src|] == s.puts[w].src;
  }

  /** No byte left and nobody to write one. */
  ghost predicate AtEof(s: Stream) {
    s.pipe.data == [] && !s.pipe.writeOpen
  }

  /** The read call that event `e` lets go on. */
  ghost function Reader(s: Stream, e: Event): nat
    requires e.BeginRead? || e.StepRead?
  {
    if e.BeginRead? then |s.gets| else e.r
  }

  /**
   * At the moment of a read of at least one byte: it returns no byte exactly if the write end is closed
   * and everything accepted so far has been delivered.
   */
  lemma EofExactly(s: Stream, e: Event)
    requires Inv(s) && Legal(s, e) && (e.BeginRead? || e.StepRead?)
    ensures
      var call := After(s, e).gets[Reader(s, e)];
      && (AtEof(s) <==> !s.pipe.writeOpen && Bytes(s.delivered) == Bytes(s.accepted))
      && (0 < call.wanted ==> (call.done && call.bytes == [] <==> AtEof(s)))
  {
    assert |Bytes(s.accepted)| == |Bytes(s.delivered)| + |s.pipe.data|;
    if s.pipe.data == [] {
      assert Bytes(s.delivered) + [] == Bytes(s.delivered);
    }
  }

  /** Once the write end is closed, only a descriptor of the read end can begin a write. */
  lemma OnlyReadEnd(s: Stream, via: End, src: seq<bv8>)
    requires !s.pipe.writeOpen && Legal(s, BeginWrite(via, src))
    ensures via == ReadEnd
  {
  }

  /** No write of at least one byte begins, and none that was inside its call goes on. */
  ghost predicate NoWrites(events: seq<Event>) {
    forall e | e in events :: !e.StepWrite? && (e.BeginWrite? ==> e.src == [])
  }

  /**
   * After an end of file the stream is final exactly if, in what follows, nobody writes through a
   * descriptor of the read end and no write left inside its call goes on.
   */
  lemma {:induction false} EofFinal(s: Stream, events: seq<Event>)
    requires Inv(s) && AtEof(s) && LegalRun(s, events)
    ensures RunOf(s, events).accepted == s.accepted <==> NoWrites(events)
    ensures NoWrites(events) ==> AtEof(RunOf(s, events))
    decreases events
  {
    hide Own, Bytes, WritesOk, ReadsOk;
    if events != [] {
      var e, s' := events[0], After(s, events[0]);
      assert events == [e] + events[1..];
      StepInv(s, e);
      if e.StepWrite? || (e.BeginWrite? && e.src != []) {
        Grows(s, e);
        AcceptedGrows(s', events[1..]);
        assert e in events;
      } else {
        Silent(s, e);
        EofFinal(s', events[1..]);
        assert NoWrites(events) <==> NoWrites(events[1..]);
      }
    }
  }

  /** A write that finds the buffer empty puts in at least one byte. */
  lemma Grows(s: Stream, e: Event)
    requires Inv(s) && AtEof(s) && Legal(s, e) && (e.StepWrite? || (e.BeginWrite? && e.src != []))
    ensures |s.accepted| < |After(s, e).accepted|
  {
    if e.StepWrite? {
      assert WriteOk(s.puts[e.w], Own(s.accepted, e.w));
    }
  }

  lemma Silent(s: Stream, e: Event)
    requires Inv(s) && AtEof(s) && Legal(s, e) && !e.StepWrite? && (e.BeginWrite? ==> e.src == [])
    ensures After(s, e).accepted == s.accepted && AtEof(After(s, e))
  {
    hide Own, Bytes, WritesOk, ReadsOk;
    if e.BeginWrite? {
      assert s.accepted + Tagged(|s.puts|, []) == s.accepted;
    }
  }

  lemma {:induction false} AcceptedGrows(s: Stream, events: seq<Event>)
    requires LegalRun(s, events)
    ensures |s.accepted| <= |RunOf(s, events).accepted|
    decreases events
  {
    if events != [] {
      AcceptedGrows(After(s, events[0]), events[1..]);
    }
  }

  /** It can happen: after an end of file a byte goes in through the read end, and is read. */
  lemma NotFinal(size: nat, x: bv8)
    requires 0 < size
    ensures
      var s := After(After(Initial(size), Close(WriteEnd)), BeginRead(ReadEnd, 1));
      var s' := After(After(s, BeginWrite(ReadEnd, [x])), BeginRead(ReadEnd, 1));
      && s.gets[0] == ReadCall(1, true, [])
      && s'.puts[0] == WriteCall([x], 1, WriteDone, ReadEnd) && s'.gets[1] == ReadCall(1, true, [x])
  {
  }

  /** The calls on a ring buffer. */
  class Traffic {
    const ring: Ring
    var puts: seq<WriteCall>
    var gets: seq<ReadCall>
    ghost var accepted: Log
    ghost var delivered: Log

    ghost function View(): Stream
      reads this, ring, ring.buf
      requires ring.Valid()
    {
      Stream(ring.buf.Length, ring.View(), puts, gets, accepted, delivered)
    }

    ghost predicate Valid()
      reads this, ring, ring.buf
    {
      ring.Valid() && Inv(View())
    }

    constructor (size: nat)
      requires 0 < size
      ensures Valid() && fresh(ring) && fresh(ring.buf) && View() == Initial(size)
    {
      ring := new Ring(size);
      puts, gets, accepted, delivered := [], [], [], [];
      new;
      InitialInv(size);
    }

    /** A write call enters. */
    method StartWrite(via: End, src: seq<bv8>)
      requires Valid() && Legal(View(), BeginWrite(via, src))
      modifies this, ring, ring.buf
      ensures Valid() && View() == After(old(View()), BeginWrite(via, src))
    {
      hide Inv;
      StepInv(View(), BeginWrite(via, src));
      var n, outcome := ring.WriteCall(src);
      accepted := accepted + Tagged(|puts|, src[0..n]);
      ghost var entered := puts + [WriteCall(src, 0, Writing, via)];
      puts := puts + [WriteCall(src, n, StateOf(outcome), via)];
      assert puts == entered[|entered| - 1 := puts[|puts| - 1]];
    }

    /** A write call runs to its next yield or its return. */
    method GoOnWriting(w: nat)
      requires Valid() && Legal(View(), StepWrite(w))
      modifies this, ring, ring.buf
      ensures Valid() && View() == After(old(View()), StepWrite(w))
    {
      hide Inv;
      StepInv(View(), StepWrite(w));
      var call := puts[w];
      var total, outcome := ring.WritePass(call.src, call.total);
      accepted := accepted + Tagged(w, call.src[call.total..total]);
      puts := puts[w := call.(total := total, state := StateOf(outcome))];
    }

    /** A read call enters. */
    method StartRead(via: End, wanted: nat)
      requires Valid() && Legal(View(), BeginRead(via, wanted))
      modifies this, ring
      ensures Valid() && View() == After(old(View()), BeginRead(via, wanted))
    {
      hide Inv;
      StepInv(View(), BeginRead(via, wanted));
      gets := gets + [ReadCall(wanted, false, [])];
      Pass(|gets| - 1);
    }

    /** A read call runs to its next yield or its return. */
    method GoOnReading(r: nat)
      requires Valid() && Legal(View(), StepRead(r))
      modifies this, ring
      ensures Valid() && View() == After(old(View()), StepRead(r))
    {
      hide Inv;
      StepInv(View(), StepRead(r));
      Pass(r);
    }

    method Pass(r: nat)
      requires ring.Valid() && r < |gets|
      modifies this`gets, this`delivered, ring
      ensures ring.Valid() && View() == WasRead(old(View()), r, ReadFrom(old(ring.View()), old(gets)[r].wanted))
    {
      var out := ring.ReadPass(gets[r].wanted);
      if !out.Wait? {
        var bytes := Returned(out);
        delivered := delivered + Tagged(r, bytes);
        gets := gets[r := gets[r].(done := true, bytes := bytes)];
      }
    }

    /** The last descriptor of an end closes. */
    method CloseEnd(end: End)
      requires Valid()
      modifies ring`readOpen, ring`writeOpen
      ensures Valid() && View() == After(old(View()), Close(end))
    {
      match end
      case ReadEnd => ring.readOpen := false;
      case WriteEnd => ring.writeOpen := false;
    }
  }
}
