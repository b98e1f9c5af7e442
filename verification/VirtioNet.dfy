/** The receive side of the network driver: which buffer slot each posted descriptor carries. */
module VirtioNet {
  import opened RingIndex
  import opened DescriptorQueue
  import opened Virtqueues

  const NET_HDR_SIZE: nat := 12
  const NET_RX_BUF_SIZE: nat := 1528
  const NET_RX_RING_SIZE: nat := 16
  const F_WRITE: bv16 := 2

  /** Buffer slot `slot` of the receive pool at `base`. */
  function RxBuf(base: nat, slot: nat): Buf {
    Buf(base + slot * NET_RX_BUF_SIZE, NET_RX_BUF_SIZE, F_WRITE)
  }

  /** Submission `s` is live, is slot `slot`'s buffer alone, and its descriptor is entered under that slot. */
  ghost predicate Carries(q: Queue, base: nat, table: seq<nat>, s: nat, slot: nat) {
    && IsLive(q, s)
    && var c := q.submitted[s];
       |c.descs| == 1 && c.descs[0] < |table| && table[c.descs[0]] == slot && c.bufs == [RxBuf(base, slot)]
  }

  /** Every slot below `n` is posted exactly once, as submission `holder[slot]`, and nothing else is posted. */
  ghost predicate Posted(q: Queue, base: nat, table: seq<nat>, holder: seq<nat>, n: nat) {
    && n == |holder|
    && (forall slot: nat | slot < n :: Carries(q, base, table, holder[slot], slot))
    && (forall s: nat | IsLive(q, s) :: s in holder)
  }

  /** One slot is off the queue, all others are posted. */
  ghost predicate PostedBut(q: Queue, base: nat, table: seq<nat>, holder: seq<nat>, n: nat, gone: nat) {
    && n == |holder| && gone < n
    && (forall slot: nat | slot < n && slot != gone :: Carries(q, base, table, holder[slot], slot))
    && (forall s: nat | IsLive(q, s) :: s in holder && s != holder[gone])
  }

  lemma PostMore(q: Queue, num: nat, base: nat, table: seq<nat>, holder: seq<nat>, n: nat)
    requires Inv(q, num) && num <= |table| && Posted(q, base, table, holder, n) && q.free != []
    ensures q.free[0] < |table|
    ensures Posted(Next(q, Add([RxBuf(base, n)])), base, table[q.free[0] := n], holder + [|q.submitted|], n + 1)
  {
    var q', table', holder' := Next(q, Add([RxBuf(base, n)])), table[q.free[0] := n], holder + [|q.submitted|];
    forall slot: nat | slot < n
      ensures Carries(q', base, table', holder'[slot], slot)
    {
      CarriesStill(q, num, base, table, holder[slot], slot, n);
    }
    forall s: nat | IsLive(q', s)
      ensures s in holder'
    {
      if s < |q.submitted| {
        assert IsLive(q, s);
      } else {
        assert holder'[n] == s;
      }
    }
  }

  lemma CarriesStill(q: Queue, num: nat, base: nat, table: seq<nat>, s: nat, slot: nat, posted: nat)
    requires Inv(q, num) && num <= |table| && Carries(q, base, table, s, slot) && q.free != []
    ensures Carries(Next(q, Add([RxBuf(base, posted)])), base, table[q.free[0] := posted], s, slot)
  {
    assert ChainOk(q, num, q.submitted[s]);
    assert q.submitted[s].descs[0] in q.submitted[s].descs;
  }

  lemma PostBack(q: Queue, num: nat, base: nat, table: seq<nat>, holder: seq<nat>, n: nat, gone: nat)
    requires Inv(q, num) && num <= |table| && PostedBut(q, base, table, holder, n, gone) && q.free != []
    ensures q.free[0] < |table|
    ensures Posted(Next(q, Add([RxBuf(base, gone)])), base, table[q.free[0] := gone], holder[gone := |q.submitted|], n)
  {
    var q', table', holder' := Next(q, Add([RxBuf(base, gone)])), table[q.free[0] := gone],
      holder[gone := |q.submitted|];
    forall slot: nat | slot < n
      ensures Carries(q', base, table', holder'[slot], slot)
    {
      if slot != gone {
        CarriesStill(q, num, base, table, holder[slot], slot, gone);
      }
    }
    forall s: nat | IsLive(q', s)
      ensures s in holder'
    {
      if s < |q.submitted| {
        assert IsLive(q, s);
        var slot :| 0 <= slot < n && holder[slot] == s;
        assert holder'[slot] == s;
      } else {
        assert holder'[gone] == s;
      }
    }
  }

  /** The table names the slot whose buffer the reclaimed chain carried. */
  lemma TakeBack(q: Queue, num: nat, base: nat, table: seq<nat>, holder: seq<nat>, n: nat)
    requires Inv(q, num) && Posted(q, base, table, holder, n) && q.reclaimed < |q.completed|
    ensures
      var s := q.completed[q.reclaimed].sub;
      && s < |q.submitted| && |q.submitted[s].descs| == 1 && q.submitted[s].descs[0] < |table|
      && var slot := table[q.submitted[s].descs[0]];
         slot < n && q.submitted[s].bufs == [RxBuf(base, slot)] && PostedBut(Next(q, Get), base, table, holder, n, slot)
  {
    var s := q.completed[q.reclaimed].sub;
    GetInv(q, num);
    var slot :| 0 <= slot < n && holder[slot] == s;
    assert Carries(q, base, table, holder[slot], slot);
    var q' := Next(q, Get);
    forall other: nat | other < n && other != slot
      ensures Carries(q', base, table, holder[other], other)
    {
      assert Carries(q, base, table, holder[other], other);
      assert forall k | 0 <= k < q'.reclaimed && k < |q'.completed| :: q'.completed[k].sub != holder[other];
    }
    forall t: nat | IsLive(q', t)
      ensures t in holder && t != s
    {
      assert q'.completed[q.reclaimed].sub != t;
      assert IsLive(q, t);
    }
  }

  /** What the device does in between takes no slot off the queue. */
  lemma DeviceKeepsPosted(q: Queue, num: nat, base: nat, table: seq<nat>, holder: seq<nat>, n: nat, e: Event)
    requires Inv(q, num) && Posted(q, base, table, holder, n) && (e.Fetch? || e.Complete?) && Enabled(q, e)
    ensures Posted(Next(q, e), base, table, holder, n)
  {
    var q' := Next(q, e);
    assert q'.submitted == q.submitted && q'.completed[..|q.completed|] == q.completed;
    forall s: nat
      ensures IsLive(q', s) <==> IsLive(q, s)
    {
    }
    forall slot: nat | slot < n
      ensures Carries(q', base, table, holder[slot], slot)
    {
      assert Carries(q, base, table, holder[slot], slot);
    }
  }

  class NetRx {
    const rxq: Virtqueue
    const base: nat
    const descToRxbuf: array<nat>
    /** The submission that carries each slot. */
    ghost var holder: seq<nat>

    ghost predicate Valid()
      reads this, rxq, rxq.desc, rxq.avail, rxq.used, descToRxbuf
    {
      Ready() && Posted(rxq.q, base, descToRxbuf[..], holder, |holder|)
    }

    ghost predicate Ready()
      reads this, rxq, rxq.desc, rxq.avail, rxq.used
    {
      rxq.Valid() && descToRxbuf.Length == VIRTQ_MAX_SIZE && descToRxbuf != rxq.avail
    }

    /** `fill_rx_queue` on a fresh queue posts every slot. */
    constructor (rxq: Virtqueue, base: nat)
      requires rxq.Valid() && rxq.q == Initial(rxq.num)
      modifies rxq, rxq.desc, rxq.avail
      ensures Valid() && this.rxq == rxq && this.base == base
      ensures |holder| == if NET_RX_RING_SIZE > rxq.num then rxq.num else NET_RX_RING_SIZE
    {
      this.rxq, this.base, this.holder := rxq, base, [];
      this.descToRxbuf := new nat[VIRTQ_MAX_SIZE](i => 0);
      new;
      var count := if NET_RX_RING_SIZE > rxq.num then rxq.num else NET_RX_RING_SIZE;
      for i := 0 to count
        invariant Valid() && |holder| == i && |rxq.q.free| == rxq.num - i
      {
        PostRxBuffer(i);
      }
    }

    /** `post_rx_buffer` of a slot that is not on the queue. */
    method PostRxBuffer(slot: nat)
      requires Ready() && rxq.q.free != []
      requires
        || (slot == |holder| && Posted(rxq.q, base, descToRxbuf[..], holder, slot))
        || (slot < |holder| && PostedBut(rxq.q, base, descToRxbuf[..], holder, |holder|, slot))
      modifies this, rxq, rxq.desc, rxq.avail, descToRxbuf
      ensures Valid() && |holder| == if slot == |old(holder)| then slot + 1 else |old(holder)|
      ensures rxq.q == Next(old(rxq.q), Add([RxBuf(base, slot)]))
    {
      ghost var q0, table0 := rxq.q, descToRxbuf[..];
      if slot == |holder| {
        PostMore(q0, rxq.num, base, table0, holder, slot);
      } else {
        PostBack(q0, rxq.num, base, table0, holder, |holder|, slot);
      }
      var descIdx := rxq.AddChain([RxBuf(base, slot)]);
      if descIdx != END_OF_LIST {
        descToRxbuf[descIdx] := slot;
      }
      assert descToRxbuf[..] == table0[q0.free[0] := slot];
      holder := if slot == |holder| then holder + [|q0.submitted|] else holder[slot := |q0.submitted|];
    }

    /** `virtio_net_rx`: hands over the frame of the oldest completion and posts its slot again. */
    method Receive(bufSize: nat) returns (frameLen: nat, ghost slot: nat)
      requires Valid()
      modifies this, rxq, rxq.desc, rxq.avail, descToRxbuf
      ensures Valid() && |holder| == |old(holder)|
      ensures old(rxq.q.reclaimed) == |old(rxq.q.completed)| ==> frameLen == 0 && rxq.q == old(rxq.q)
      ensures old(rxq.q.reclaimed) < |old(rxq.q.completed)| ==>
        var c := old(rxq.q.completed)[old(rxq.q.reclaimed)];
        && c.sub < |old(rxq.q.submitted)| && old(rxq.q.submitted)[c.sub].bufs == [RxBuf(base, slot)]
        && frameLen == (if c.len <= NET_HDR_SIZE then 0 else if c.len - NET_HDR_SIZE > bufSize then bufSize
           else c.len - NET_HDR_SIZE)
        && rxq.q == Next(Next(old(rxq.q), Get), Add([RxBuf(base, slot)]))
    {
      ghost var q0 := rxq.q;
      if q0.reclaimed < |q0.completed| {
        TakeBack(q0, rxq.num, base, descToRxbuf[..], holder, |holder|);
      }
      var got, descIdx, totalLen := rxq.GetUsed();
      slot := 0;
      if !got {
        return 0, 0;
      }
      var which := descToRxbuf[descIdx];
      slot := which;
      frameLen := 0;
      if totalLen > NET_HDR_SIZE {
        frameLen := totalLen - NET_HDR_SIZE;
        if frameLen > bufSize {
          frameLen := bufSize;
        }
      }
      PostRxBuffer(which);
    }
  }
}
