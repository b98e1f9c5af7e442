/** Arithmetic of the 16-bit ring indices. */
module RingIndex {

  const WRAP: nat := 0x1_0000

  lemma {:induction false} AddMultiple(n: nat, q: nat, r: nat)
    requires 0 < n
    ensures (n * q + r) % n == r % n
  {
    if q != 0 {
      AddMultiple(n, q - 1, r);
      assert n * q + r == n * (q - 1) + r + n;
      AddOnce(n, n * (q - 1) + r);
    }
  }

  lemma AddOnce(n: nat, x: nat)
    requires 0 < n
    ensures (x + n) % n == x % n
  {
    var q, r := x / n, x % n;
    assert x + n == n * (q + 1) + r;
    DivModUnique(x + n, n, q + 1, r);
  }

  lemma {:induction false} MulGap(n: nat, a: nat, b: nat)
    requires a < b
    ensures n * a + n <= n * b
  {
    if a + 1 < b {
      MulGap(n, a, b - 1);
      assert n * b == n * (b - 1) + n;
    }
  }

  /** A number has one quotient and one remainder. */
  lemma OneQuotient(n: nat, q: nat, r: nat, q': nat, r': nat)
    requires r < n && r' < n && n * q + r == n * q' + r'
    ensures q == q' && r == r'
  {
    if q' < q {
      MulGap(n, q', q);
    } else if q < q' {
      MulGap(n, q, q');
    }
  }

  lemma DivModUnique(x: nat, n: nat, q: nat, r: nat)
    requires r < n && x == n * q + r
    ensures x % n == r && x / n == q
  {
    OneQuotient(n, q, r, x / n, x % n);
  }

  /** Reducing modulo 2^16 first does not change the ring slot. */
  lemma SlotOfWrapped(k: nat, n: nat)
    requires 0 < n && WRAP % n == 0
    ensures k % WRAP % n == k % n
  {
    var a, b := k / WRAP, WRAP / n;
    assert WRAP == n * b;
    assert k == WRAP * a + k % WRAP;
    assert WRAP * a == n * (b * a);
    AddMultiple(n, b * a, k % WRAP);
  }

  /** Two positions less than `n` apart have different slots. */
  lemma SlotsDiffer(j: nat, k: nat, n: nat)
    requires j < k < j + n
    ensures j % n != k % n
  {
    if j % n == k % n {
      if j / n < k / n {
        MulGap(n, j / n, k / n);
      } else if k / n < j / n {
        MulGap(n, k / n, j / n);
      }
    }
  }

  /** `(uint16_t)(i + 1)` of a wrapped counter is the wrapped successor. */
  lemma NextWrapped(k: nat)
    ensures (k % WRAP + 1) % WRAP == (k + 1) % WRAP
  {
  }
}

/**
 * The driver half of a split virtqueue: one descriptor table holding the free list and the chains
 * in flight, and two rings with 16-bit indices.  The device's two steps are methods as well.
 */
module Virtqueues {
  import opened RingIndex
  import opened DescriptorQueue

  const END_OF_LIST: nat := 0xFFFF
  const KERN_VA_OFFSET: nat := 0xFFFF_FF80_0000_0000
  const VIRTQ_MAX_SIZE: nat := 256

  datatype Desc = Desc(addr: nat, len: nat, flags: bv16, next: nat)

  datatype UsedElem = UsedElem(id: nat, len: nat)

  function VirtToPhys(va: nat): nat {
    if va >= KERN_VA_OFFSET then va - KERN_VA_OFFSET else va + 0x1_0000_0000_0000_0000 - KERN_VA_OFFSET
  }

  /** VRING_DESC_F_NEXT is bit 0. */
  predicate HasNext(flags: bv16) {
    flags & 1 == 1
  }

  function WithNext(flags: bv16): bv16 {
    flags | 1
  }

  /** The flags the caller gave. */
  function Plain(flags: bv16): bv16 {
    flags & 0xFFFE
  }

  lemma NextBit(flags: bv16)
    ensures flags & 1 == 0 || flags & 1 == 1
  {
  }

  lemma NextBitSet(flags: bv16)
    ensures (flags | 1) & 1 == 1
  {
  }

  lemma NextBitDropped(flags: bv16)
    requires flags & 1 == 0
    ensures (flags | 1) & 0xFFFE == flags
  {
  }

  lemma NoBitDropped(flags: bv16)
    requires flags & 1 == 0
    ensures flags & 0xFFFE == flags
  {
  }

  lemma Flags(flags: bv16)
    requires !HasNext(flags)
    ensures HasNext(WithNext(flags))
    ensures Plain(WithNext(flags)) == flags && Plain(flags) == flags
  {
    NextBit(flags);
    NextBitSet(flags);
    NextBitDropped(flags);
    NoBitDropped(flags);
  }

  /** Callers leave the chaining flag to the queue. */
  predicate BufsOk(bufs: seq<Buf>) {
    forall i | 0 <= i < |bufs| :: !HasNext(bufs[i].flags)
  }

  function HeadAt(free: seq<nat>, i: nat): nat {
    if i < |free| then free[i] else END_OF_LIST
  }

  /** The free list threads through `next` from `head` to 0xFFFF. */
  ghost predicate FreeLinked(desc: seq<Desc>, free: seq<nat>, head: nat) {
    && head == HeadAt(free, 0)
    && forall i: nat | i < |free| :: free[i] < |desc| && desc[free[i]].next == HeadAt(free, i + 1)
  }

  /** Descriptor number `i` of a chain, as the device reads it. */
  function Stored(c: Chain, i: nat): Desc
    requires |c.descs| == |c.bufs| && i < |c.descs|
  {
    var b := c.bufs[i];
    if i == |c.descs| - 1 then Desc(VirtToPhys(b.addr), b.len, b.flags, 0)
    else Desc(VirtToPhys(b.addr), b.len, WithNext(b.flags), c.descs[i + 1])
  }

  ghost predicate ChainStored(desc: seq<Desc>, c: Chain) {
    && |c.descs| == |c.bufs| && BufsOk(c.bufs)
    && forall i: nat | i < |c.descs| :: c.descs[i] < |desc| && desc[c.descs[i]] == Stored(c, i)
  }

  /** The table holds the free list and every live chain. */
  ghost predicate TableOk(desc: seq<Desc>, q: Queue, head: nat) {
    && FreeLinked(desc, q.free, head)
    && forall s: nat | IsLive(q, s) :: ChainStored(desc, q.submitted[s])
  }

  ghost predicate AvailAt(avail: seq<nat>, q: Queue, k: nat) {
    k < |q.submitted| && 0 < |avail| && 0 < |q.submitted[k].descs| && avail[k % |avail|] == q.submitted[k].descs[0]
  }

  /** Every chain the device has still to fetch is in its slot. */
  ghost predicate AvailOk(avail: seq<nat>, q: Queue) {
    forall k: nat | q.consumed <= k < |q.submitted| :: AvailAt(avail, q, k)
  }

  ghost predicate UsedAt(used: seq<UsedElem>, q: Queue, k: nat) {
    && k < |q.completed| && 0 < |used|
    && var c := q.completed[k];
       c.sub < |q.submitted| && 0 < |q.submitted[c.sub].descs|
       && used[k % |used|] == UsedElem(q.submitted[c.sub].descs[0], c.len)
  }

  /** Every completion the driver has still to take is in its slot. */
  ghost predicate UsedOk(used: seq<UsedElem>, q: Queue) {
    forall k: nat | q.reclaimed <= k < |q.completed| :: UsedAt(used, q, k)
  }

  /** Only the descriptors in `descs` differ. */
  ghost predicate SameBut(desc: seq<Desc>, desc': seq<Desc>, descs: seq<nat>) {
    |desc| == |desc'| && forall d | 0 <= d < |desc| && d !in descs :: desc'[d] == desc[d]
  }

  lemma StoredStays(desc: seq<Desc>, desc': seq<Desc>, descs: seq<nat>, c: Chain)
    requires ChainStored(desc, c) && SameBut(desc, desc', descs) && Disjoint(c.descs, descs)
    ensures ChainStored(desc', c)
  {
    forall i: nat | i < |c.descs|
      ensures desc'[c.descs[i]] == Stored(c, i)
    {
      assert c.descs[i] in c.descs;
    }
  }

  /** After the chain is written, the shorter free list and all chains are in place. */
  lemma AddTable(desc: seq<Desc>, desc': seq<Desc>, q: Queue, num: nat, bufs: seq<Buf>, head: nat)
    requires Inv(q, num) && |desc| == num && TableOk(desc, q, head) && 0 < |bufs| <= |q.free|
    requires SameBut(desc, desc', q.free[..|bufs|])
    requires ChainStored(desc', Chain(q.free[..|bufs|], bufs))
    ensures TableOk(desc', Next(q, Add(bufs)), HeadAt(q.free, |bufs|))
  {
    var n := |bufs|;
    var q' := Next(q, Add(bufs));
    forall i: nat | i < |q'.free|
      ensures q'.free[i] < |desc'| && desc'[q'.free[i]].next == HeadAt(q'.free, i + 1)
    {
      assert q'.free[i] == q.free[n + i];
      assert q'.free[i] !in q.free[..n];
    }
    forall s: nat | IsLive(q', s)
      ensures ChainStored(desc', q'.submitted[s])
    {
      if s < |q.submitted| {
        assert IsLive(q, s);
        assert ChainOk(q, num, q.submitted[s]);
        assert Disjoint(q.submitted[s].descs, q.free[..n]);
        StoredStays(desc, desc', q.free[..n], q.submitted[s]);
      }
    }
  }

  /** After a chain is threaded onto the free list, the other chains are in place. */
  lemma GetTable(desc: seq<Desc>, desc': seq<Desc>, q: Queue, num: nat, head: nat, head': nat)
    requires Inv(q, num) && |desc| == num && TableOk(desc, q, head) && q.reclaimed < |q.completed|
    requires SameBut(desc, desc', q.submitted[q.completed[q.reclaimed].sub].descs)
    requires FreeLinked(desc', Next(q, Get).free, head')
    ensures TableOk(desc', Next(q, Get), head')
  {
    var q' := Next(q, Get);
    var r := q.completed[q.reclaimed].sub;
    GetInv(q, num);
    forall s: nat | IsLive(q', s)
      ensures ChainStored(desc', q'.submitted[s])
    {
      assert q'.completed[q.reclaimed].sub == r;
      assert IsLive(q, s) && s != r;
      assert Disjoint(q.submitted[s].descs, q.submitted[r].descs);
      StoredStays(desc, desc', q.submitted[r].descs, q.submitted[s]);
    }
  }

  /** Publishing the new head overwrites no slot the device has still to read. */
  lemma AvailAdded(avail: seq<nat>, avail': seq<nat>, q: Queue, bufs: seq<Buf>, slot: nat)
    requires 0 < |avail| && WRAP % |avail| == 0 && AvailOk(avail, q)
    requires 0 < |bufs| <= |q.free| && q.consumed <= |q.submitted| < q.consumed + |avail|
    requires slot == |q.submitted| % WRAP % |avail|
    requires avail' == avail[slot := q.free[0]]
    ensures AvailOk(avail', Next(q, Add(bufs)))
  {
    var q' := Next(q, Add(bufs));
    SlotOfWrapped(|q.submitted|, |avail|);
    forall k: nat | q'.consumed <= k < |q'.submitted|
      ensures AvailAt(avail', q', k)
    {
      if k < |q.submitted| {
        assert AvailAt(avail, q, k);
        SlotsDiffer(k, |q.submitted|, |avail|);
      }
    }
  }

  lemma UsedAdded(used: seq<UsedElem>, q: Queue, bufs: seq<Buf>)
    requires UsedOk(used, q) && 0 < |bufs| <= |q.free|
    ensures UsedOk(used, Next(q, Add(bufs)))
  {
    var q' := Next(q, Add(bufs));
    forall k: nat | q'.reclaimed <= k < |q'.completed|
      ensures UsedAt(used, q', k)
    {
      assert UsedAt(used, q, k);
    }
  }

  /** The device's entry goes to a slot the driver has already read. */
  lemma UsedCompleted(used: seq<UsedElem>, used': seq<UsedElem>, q: Queue, s: nat, len: nat, slot: nat)
    requires 0 < |used| && WRAP % |used| == 0 && UsedOk(used, q)
    requires s < |q.submitted| && 0 < |q.submitted[s].descs|
    requires q.reclaimed <= |q.completed| < q.reclaimed + |used|
    requires Pending(q, s)
    requires slot == |q.completed| % WRAP % |used|
    requires used' == used[slot := UsedElem(q.submitted[s].descs[0], len)]
    ensures UsedOk(used', Next(q, Complete(s, len)))
  {
    var q' := Next(q, Complete(s, len));
    SlotOfWrapped(|q.completed|, |used|);
    forall k: nat | q'.reclaimed <= k < |q'.completed|
      ensures UsedAt(used', q', k)
    {
      if k < |q.completed| {
        assert UsedAt(used, q, k);
        SlotsDiffer(k, |q.completed|, |used|);
        assert q'.completed[k] == q.completed[k];
      }
    }
  }

  /** The first `i` descriptors of the chain are written, all others untouched. */
  ghost predicate Filled(desc0: seq<Desc>, desc: seq<Desc>, c: Chain, i: nat)
    requires |c.descs| == |c.bufs| && i <= |c.descs|
  {
    SameBut(desc0, desc, c.descs[..i]) && forall j: nat | j < i ::
        c.descs[j] < |desc| && desc[c.descs[j]] == Stored(c, j)
  }

  lemma FillStart(desc: seq<Desc>, q: Queue, num: nat, head: nat, c: Chain)
    requires Inv(q, num) && TableOk(desc, q, head) && 0 < |c.descs| == |c.bufs| <= |q.free|
    requires c.descs == q.free[..|c.bufs|]
    ensures head == q.free[0] && Filled(desc, desc, c, 0) && NoDup(q.free) && Below(q.free, num)
    ensures FreeLinked(desc, q.free, head)
  {
  }

  /** The link out of the next descriptor is still the free list's. */
  lemma FillStep(desc0: seq<Desc>, desc: seq<Desc>, free: seq<nat>, bufs: seq<Buf>, i: nat)
    requires i < |bufs| <= |free| && NoDup(free) && Below(free, |desc0|) && FreeLinked(desc0, free, HeadAt(free, 0))
    requires Filled(desc0, desc, Chain(free[..|bufs|], bufs), i)
    ensures free[i] < |desc| && desc[free[i]].next == HeadAt(free, i + 1)
    ensures Filled(desc0, desc[free[i] := Stored(Chain(free[..|bufs|], bufs), i)], Chain(free[..|bufs|], bufs), i + 1)
  {
    var c := Chain(free[..|bufs|], bufs);
    assert c.descs[..i] == free[..i];
    assert free[i] !in c.descs[..i];
    FillMore(desc0, desc, c, i);
  }

  lemma FillMore(desc0: seq<Desc>, desc: seq<Desc>, c: Chain, i: nat)
    requires |c.descs| == |c.bufs| && i < |c.descs| && NoDup(c.descs) && c.descs[i] < |desc|
    requires Filled(desc0, desc, c, i)
    ensures Filled(desc0, desc[c.descs[i] := Stored(c, i)], c, i + 1)
  {
    hide Stored;
    var cur, desc' := c.descs[i], desc[c.descs[i] := Stored(c, i)];
    assert c.descs[..i + 1] == c.descs[..i] + [cur];
    forall j: nat | j < i + 1
      ensures desc'[c.descs[j]] == Stored(c, j)
    {
      if j < i {
        assert c.descs[j] != c.descs[i];
      }
    }
  }

  lemma FillDone(desc0: seq<Desc>, desc: seq<Desc>, c: Chain)
    requires |c.descs| == |c.bufs| && BufsOk(c.bufs) && Filled(desc0, desc, c, |c.descs|)
    ensures SameBut(desc0, desc, c.descs) && ChainStored(desc, c)
  {
    assert c.descs[..|c.descs|] == c.descs;
  }

  /** Pushing a descriptor onto the free list. */
  lemma PushFree(desc: seq<Desc>, list: seq<nat>, head: nat, cur: nat)
    requires FreeLinked(desc, list, head) && cur < |desc| && cur !in list
    ensures FreeLinked(desc[cur := desc[cur].(next := head)], [cur] + list, cur)
  {
    var desc', list' := desc[cur := desc[cur].(next := head)], [cur] + list;
    forall k: nat | k < |list'|
      ensures list'[k] < |desc'| && desc'[list'[k]].next == HeadAt(list', k + 1)
    {
      if k != 0 {
        assert list'[k] == list[k - 1] && list[k - 1] in list;
      }
    }
  }

  /** A descriptor the release loop has not reached holds what was stored; NEXT marks all but the last. */
  lemma StillStored(desc0: seq<Desc>, desc: seq<Desc>, c: Chain, i: nat)
    requires ChainStored(desc0, c) && NoDup(c.descs) && i < |c.descs| && SameBut(desc0, desc, c.descs[..i])
    ensures c.descs[i] < |desc| && desc[c.descs[i]] == Stored(c, i) && c.descs[i] !in c.descs[..i]
    ensures HasNext(desc[c.descs[i]].flags) <==> i < |c.descs| - 1
  {
    hide HasNext, WithNext, Plain;
    Flags(c.bufs[i].flags);
  }

  lemma ReverseGrows(s: seq<nat>, i: nat, rest: seq<nat>)
    requires i < |s|
    ensures Reverse(s[..i + 1]) + rest == [s[i]] + (Reverse(s[..i]) + rest)
  {
    assert s[..i + 1][..i] == s[..i];
  }

  /** One turn of the release loop: the descriptor still holds what was stored, and joins the list. */
  lemma ReleaseStep(desc0: seq<Desc>, desc: seq<Desc>, c: Chain, i: nat, free: seq<nat>, head: nat)
    requires ChainStored(desc0, c) && NoDup(c.descs) && Disjoint(c.descs, free) && i < |c.descs|
    requires SameBut(desc0, desc, c.descs[..i]) && FreeLinked(desc, Reverse(c.descs[..i]) + free, head)
    ensures c.descs[i] < |desc| && desc[c.descs[i]] == Stored(c, i)
    ensures HasNext(desc[c.descs[i]].flags) <==> i < |c.descs| - 1
    ensures SameBut(desc0, desc[c.descs[i] := desc[c.descs[i]].(next := head)], c.descs[..i + 1])
    ensures FreeLinked(desc[c.descs[i] := desc[c.descs[i]].(next := head)], Reverse(c.descs[..i + 1]) + free,
      c.descs[i])
  {
    hide FreeLinked, ChainStored, HasNext, Stored;
    var cur := c.descs[i];
    StillStored(desc0, desc, c, i);
    ReverseMembers(c.descs[..i]);
    assert cur in c.descs;
    ReverseGrows(c.descs, i, free);
    PushFree(desc, Reverse(c.descs[..i]) + free, head, cur);
    assert c.descs[..i + 1] == c.descs[..i] + [cur];
  }

  lemma ReleaseStart(desc: seq<Desc>, c: Chain, free: seq<nat>, head: nat)
    requires FreeLinked(desc, free, head)
    ensures SameBut(desc, desc, c.descs[..0]) && FreeLinked(desc, Reverse(c.descs[..0]) + free, head)
  {
    assert Reverse(c.descs[..0]) + free == free;
  }

  lemma QueueBounds(q: Queue, num: nat)
    requires Inv(q, num)
    ensures q.consumed <= |q.submitted| <= q.consumed + num
    ensures q.reclaimed <= |q.completed| <= q.reclaimed + num
    ensures |q.submitted| <= q.reclaimed + num
  {
    InFlight(q, num);
  }

  lemma WrappedDifference(j: nat, k: nat)
    requires j <= k < j + WRAP
    ensures (k % WRAP - j % WRAP) % WRAP == k - j
  {
    var a, b := k / WRAP, j / WRAP;
    assert k == a * WRAP + k % WRAP && j == b * WRAP + j % WRAP;
    assert a == b || a == b + 1;
  }

  /** The wrapped counters are equal only when the counters are. */
  lemma CountersMeet(j: nat, k: nat, num: nat)
    requires j <= k <= j + num && num < WRAP
    ensures j % WRAP == k % WRAP <==> j == k
  {
    if j < k {
      SlotsDiffer(j, k, WRAP);
    }
  }

  lemma NextReclaimed(desc: seq<Desc>, q: Queue, num: nat, head: nat)
    requires Inv(q, num) && TableOk(desc, q, head) && q.reclaimed < |q.completed|
    ensures
      var s := q.completed[q.reclaimed].sub;
      && s < |q.submitted| && ChainStored(desc, q.submitted[s]) && NoDup(q.submitted[s].descs)
      && Disjoint(q.submitted[s].descs, q.free) && 0 < |q.submitted[s].descs| && q.submitted[s].descs[0] < num
  {
    var s := q.completed[q.reclaimed].sub;
    GetInv(q, num);
    assert ChainOk(q, num, q.submitted[s]);
  }

  lemma GetRings(avail: seq<nat>, used: seq<UsedElem>, q: Queue)
    requires AvailOk(avail, q) && UsedOk(used, q) && q.reclaimed < |q.completed|
    ensures AvailOk(avail, Next(q, Get)) && UsedOk(used, Next(q, Get))
  {
    var q' := Next(q, Get);
    forall k: nat | q'.consumed <= k < |q'.submitted|
      ensures AvailAt(avail, q', k)
    {
      assert AvailAt(avail, q, k);
    }
    forall k: nat | q'.reclaimed <= k < |q'.completed|
      ensures UsedAt(used, q', k)
    {
      assert UsedAt(used, q, k);
    }
  }

  /** The slot the driver reads holds the oldest completion. */
  lemma UsedHead(used: seq<UsedElem>, q: Queue, slot: nat)
    requires UsedOk(used, q) && q.reclaimed < |q.completed|
    requires 0 < |used| && WRAP % |used| == 0 && slot == q.reclaimed % WRAP % |used|
    ensures
      var c := q.completed[q.reclaimed];
      && slot < |used| && c.sub < |q.submitted| && 0 < |q.submitted[c.sub].descs|
      && used[slot] == UsedElem(q.submitted[c.sub].descs[0], c.len)
  {
    SlotOfWrapped(q.reclaimed, |used|);
    assert UsedAt(used, q, q.reclaimed);
  }

  /** The slot the device reads holds the next published head. */
  lemma AvailHead(avail: seq<nat>, q: Queue, slot: nat)
    requires AvailOk(avail, q) && q.consumed < |q.submitted|
    requires 0 < |avail| && WRAP % |avail| == 0 && slot == q.consumed % WRAP % |avail|
    ensures slot < |avail| && 0 < |q.submitted[q.consumed].descs| && avail[slot] == q.submitted[q.consumed].descs[0]
  {
    SlotOfWrapped(q.consumed, |avail|);
    assert AvailAt(avail, q, q.consumed);
  }

  lemma FetchTable(desc: seq<Desc>, avail: seq<nat>, used: seq<UsedElem>, q: Queue, head: nat)
    requires TableOk(desc, q, head) && AvailOk(avail, q) && UsedOk(used, q) && q.consumed < |q.submitted|
    ensures TableOk(desc, Next(q, Fetch), head)
    ensures AvailOk(avail, Next(q, Fetch)) && UsedOk(used, Next(q, Fetch))
  {
    forall k: nat | q.consumed < k < |q.submitted|
      ensures AvailAt(avail, Next(q, Fetch), k)
    {
      assert AvailAt(avail, q, k);
    }
    forall s: nat
      ensures IsLive(Next(q, Fetch), s) <==> IsLive(q, s)
    {
    }
    forall k: nat | q.reclaimed <= k < |q.completed|
      ensures UsedAt(used, Next(q, Fetch), k)
    {
      assert UsedAt(used, q, k);
    }
  }

  lemma CompleteTable(desc: seq<Desc>, avail: seq<nat>, q: Queue, s: nat, len: nat, head: nat)
    requires TableOk(desc, q, head) && AvailOk(avail, q) && Pending(q, s) && q.reclaimed <= |q.completed|
    ensures TableOk(desc, Next(q, Complete(s, len)), head) && AvailOk(avail, Next(q, Complete(s, len)))
  {
    var q' := Next(q, Complete(s, len));
    assert q.completed == q'.completed[..|q.completed|];
    forall k: nat | q'.consumed <= k < |q'.submitted|
      ensures AvailAt(avail, q', k)
    {
      assert AvailAt(avail, q, k);
    }
    forall t: nat
      ensures IsLive(q', t) <==> IsLive(q, t)
    {
    }
  }

  /** A chain the device holds has not been reclaimed. */
  lemma PendingLive(q: Queue, num: nat, s: nat)
    requires Inv(q, num) && Pending(q, s)
    ensures IsLive(q, s) && s < |q.submitted|
  {
  }

  /** A stored descriptor gives back its buffer, and the way on to the next. */
  lemma StoredReads(c: Chain, i: nat)
    requires |c.descs| == |c.bufs| && i < |c.descs| && !HasNext(c.bufs[i].flags)
    ensures Stored(c, i).addr == VirtToPhys(c.bufs[i].addr) && Stored(c, i).len == c.bufs[i].len
    ensures Plain(Stored(c, i).flags) == c.bufs[i].flags
    ensures HasNext(Stored(c, i).flags) <==> i < |c.descs| - 1
    ensures i < |c.descs| - 1 ==> Stored(c, i).next == c.descs[i + 1]
  {
    hide HasNext, WithNext, Plain;
    Flags(c.bufs[i].flags);
  }

  lemma FirstFree(desc: seq<Desc>, q: Queue, num: nat, head: nat)
    requires Inv(q, num) && TableOk(desc, q, head) && q.free != []
    ensures head == q.free[0] < num
  {
  }

  class Virtqueue {
    const num: nat
    const desc: array<Desc>
    const avail: array<nat>
    const used: array<UsedElem>
    var freeHead: nat
    var availIdx: nat
    var lastUsedIdx: nat
    /** The index words of the two rings in shared memory. */
    var availRingIdx: nat
    var usedRingIdx: nat
    /** The device's own count of fetched chains. */
    var deviceIdx: nat
    ghost var q: Queue

    ghost predicate Valid()
      reads this, desc, avail, used
    {
      && desc.Length == num && avail.Length == num && used.Length == num
      && 0 < num <= VIRTQ_MAX_SIZE && WRAP % num == 0
      && Inv(q, num)
      && TableOk(desc[..], q, freeHead)
      && AvailOk(avail[..], q) && UsedOk(used[..], q)
      && IndicesOk()
    }

    /** Every 16-bit index is its unbounded counter, wrapped. */
    ghost predicate IndicesOk()
      reads this
    {
      && availIdx == |q.submitted| % WRAP && availRingIdx == availIdx
      && lastUsedIdx == q.reclaimed % WRAP && usedRingIdx == |q.completed| % WRAP
      && deviceIdx == q.consumed % WRAP
    }

    /** The difference of the driver's two indices, mod 2^16, is the number of unreclaimed chains. */
    lemma IndexDifference()
      requires Valid()
      ensures (availIdx - lastUsedIdx) % WRAP == LiveCount(q, |q.submitted|) <= num
    {
      InFlight(q, num);
      WrappedDifference(q.reclaimed, |q.submitted|);
    }

    /** `virtqueue_init`; the queue size is a power of two (section 2.7 of OASIS VIRTIO v1.2), so it divides 2^16. */
    constructor (num: nat)
      requires 0 < num && WRAP % num == 0
      ensures Valid() && fresh(desc) && fresh(avail) && fresh(used)
      ensures this.num == if num > VIRTQ_MAX_SIZE then VIRTQ_MAX_SIZE else num
      ensures q == Initial(this.num)
    {
      var n := if num > VIRTQ_MAX_SIZE then VIRTQ_MAX_SIZE else num;
      this.num := n;
      desc := new Desc[n](i => Desc(0, 0, 0, 0));
      avail := new nat[n](i => 0);
      used := new UsedElem[n](i => UsedElem(0, 0));
      freeHead, lastUsedIdx, availIdx, deviceIdx := 0, 0, 0, 0;
      availRingIdx, usedRingIdx := 0, 0;
      q := Initial(n);
      new;
      for i := 0 to n
        invariant desc.Length == n
        invariant freeHead == lastUsedIdx == availIdx == deviceIdx == availRingIdx == usedRingIdx == 0
        invariant q == Initial(n)
        invariant forall j | 0 <= j < i :: desc[j] == Desc(0, 0, 0, j + 1)
      {
        desc[i] := Desc(0, 0, 0, (i + 1) % WRAP);
      }
      desc[n - 1] := desc[n - 1].(next := END_OF_LIST);
      InitialInv(n);
    }

    /** The availability check: walks the free list for `count` entries. */
    method EnoughFree(count: nat) returns (ok: bool)
      requires Valid() && 0 < count
      ensures ok <==> count <= |q.free|
    {
      var idx := freeHead;
      for i := 0 to count
        invariant i <= |q.free| || i == count
        invariant i < count ==> idx == HeadAt(q.free, i)
        invariant i == count ==> count <= |q.free|
      {
        if i < |q.free| {
          assert q.free[i] < num;
        }
        if idx == END_OF_LIST {
          return false;
        }
        if i < count - 1 {
          idx := desc[idx].next;
        }
      }
      return true;
    }

    /** Writes a chain over the first free descriptors; `idx` runs along the free list. */
    method FillChain(bufs: seq<Buf>)
      requires Valid() && 0 < |bufs| <= |q.free| && BufsOk(bufs)
      modifies desc, `freeHead
      ensures SameBut(old(desc[..]), desc[..], q.free[..|bufs|])
      ensures ChainStored(desc[..], Chain(q.free[..|bufs|], bufs))
      ensures freeHead == HeadAt(q.free, |bufs|)
    {
      hide Inv, TableOk, AvailOk, UsedOk, FreeLinked, Filled;
      ghost var free, c, desc0 := q.free, Chain(q.free[..|bufs|], bufs), desc[..];
      FillStart(desc0, q, num, freeHead, c);
      var idx := freeHead;
      var count := |bufs|;
      for i := 0 to count
        invariant i < count ==> idx == free[i]
        invariant i == count ==> freeHead == HeadAt(free, count)
        invariant Filled(desc0, desc[..], c, i)
      {
        ghost var before := desc[..];
        FillStep(desc0, before, free, bufs, i);
        desc[idx] := Desc(VirtToPhys(bufs[i].addr), bufs[i].len, bufs[i].flags, desc[idx].next);
        if i < count - 1 {
          desc[idx] := desc[idx].(flags := WithNext(desc[idx].flags));
          idx := desc[idx].next;
        } else {
          freeHead := desc[idx].next;
          desc[idx] := desc[idx].(next := 0);
        }
        assert desc[..] == before[free[i] := Stored(c, i)];
      }
      FillDone(desc0, desc[..], c);
    }

    /** `virtqueue_add_chain`: 0xFFFF, and nothing changes, exactly when the free list is too short. */
    method AddChain(bufs: seq<Buf>) returns (head: nat)
      requires Valid() && 0 < |bufs| && BufsOk(bufs)
      modifies this, desc, avail
      ensures Valid()
      ensures head == END_OF_LIST <==> |old(q.free)| < |bufs|
      ensures head == END_OF_LIST ==>
        desc[..] == old(desc[..]) && avail[..] == old(avail[..]) && q == old(q) && freeHead == old(freeHead) &&
            availIdx == old(availIdx)
      ensures head != END_OF_LIST ==> q == Next(old(q), Add(bufs)) && head == old(q.free)[0]
    {
      hide Inv, TableOk, AvailOk, UsedOk, ChainStored, SameBut;
      var ok := EnoughFree(|bufs|);
      if !ok {
        return END_OF_LIST;
      }
      ghost var q0 := q;
      FirstFree(desc[..], q, num, freeHead);
      head := freeHead;
      FillChain(bufs);
      AddTable(old(desc[..]), desc[..], q0, num, bufs, head);
      Publish(head, bufs);
    }

    /** Enters a chain's head into the available ring and moves the ring's index. */
    method Publish(head: nat, ghost bufs: seq<Buf>)
      requires 0 < num && WRAP % num == 0 && avail.Length == num
      requires Inv(q, num) && 0 < |bufs| <= |q.free| && head == q.free[0]
      requires AvailOk(avail[..], q) && UsedOk(used[..], q) && IndicesOk()
      modifies avail, `availIdx, `availRingIdx, `q
      ensures q == Next(old(q), Add(bufs)) && Inv(q, num)
      ensures AvailOk(avail[..], q) && UsedOk(used[..], q) && IndicesOk()
    {
      hide Inv, AvailOk, UsedOk;
      ghost var q0, avail0 := q, avail[..];
      AddInv(q0, num, bufs);
      q := Next(q0, Add(bufs));
      QueueBounds(q0, num);
      QueueBounds(q, num);
      avail[availIdx % num] := head;
      assert avail[..] == avail0[availIdx % num := head];
      AvailAdded(avail0, avail[..], q0, bufs, availIdx % num);
      UsedAdded(used[..], q0, bufs);
      NextWrapped(|q0.submitted|);
      availIdx := (availIdx + 1) % WRAP;
      availRingIdx := availIdx;
    }

    /** Threads a chain back onto the free list, head first, following NEXT. */
    method ReleaseChain(head: nat, ghost c: Chain)
      requires Valid() && ChainStored(desc[..], c) && NoDup(c.descs) && Disjoint(c.descs, q.free)
      requires 0 < |c.descs| && head == c.descs[0]
      modifies desc, `freeHead
      ensures SameBut(old(desc[..]), desc[..], c.descs)
      ensures FreeLinked(desc[..], Reverse(c.descs) + q.free, freeHead)
    {
      hide Inv, AvailOk, UsedOk, FreeLinked, SameBut, ChainStored, HasNext;
      ghost var i, desc0 := 0, desc[..];
      ReleaseStart(desc0, c, q.free, freeHead);
      var cur := head;
      while true
        invariant i < |c.descs| && cur == c.descs[i]
        invariant SameBut(desc0, desc[..], c.descs[..i])
        invariant FreeLinked(desc[..], Reverse(c.descs[..i]) + q.free, freeHead)
        decreases |c.descs| - i
      {
        ghost var before := desc[..];
        ReleaseStep(desc0, before, c, i, q.free, freeHead);
        var next := desc[cur].next;
        var hasNext := HasNext(desc[cur].flags);
        desc[cur] := desc[cur].(next := freeHead);
        freeHead := cur;
        assert desc[..] == before[cur := before[cur].(next := desc[cur].next)];
        i := i + 1;
        if !hasNext {
          break;
        }
        cur := next;
      }
      assert c.descs[..|c.descs|] == c.descs;
    }

    /** `virtqueue_get_used`: takes the oldest completion, if any, and frees its chain. */
    method GetUsed() returns (got: bool, idx: nat, len: nat)
      requires Valid()
      modifies this, desc
      ensures Valid()
      ensures got <==> old(q.reclaimed) < |old(q.completed)|
      ensures !got ==> q == old(q) && desc[..] == old(desc[..]) && freeHead == old(freeHead)
      ensures got ==> q == Next(old(q), Get) && old(q.completed)[old(q.reclaimed)].sub < |q.submitted|
      ensures got ==>
        var c := old(q.completed)[old(q.reclaimed)];
        len == c.len && 0 < |q.submitted[c.sub].descs| && idx == q.submitted[c.sub].descs[0]
    {
      hide Inv, TableOk, AvailOk, UsedOk, ChainStored, FreeLinked;
      QueueBounds(q, num);
      CountersMeet(q.reclaimed, |q.completed|, num);
      idx, len := 0, 0;
      if lastUsedIdx == usedRingIdx {
        return false, idx, len;
      }
      var slot := lastUsedIdx % num;
      UsedHead(used[..], q, slot);
      ghost var q0 := q;
      ghost var c := q.submitted[q.completed[q.reclaimed].sub];
      assert used[slot] == used[..][slot];
      idx := used[slot].id % WRAP;
      len := used[slot].len;
      NextReclaimed(desc[..], q, num, freeHead);
      ReleaseChain(idx, c);
      GetTable(old(desc[..]), desc[..], q0, num, old(freeHead), freeHead);
      Advance();
      got := true;
    }

    /** Moves past the entry just taken from the used ring. */
    method Advance()
      requires Inv(q, num) && q.reclaimed < |q.completed|
      requires AvailOk(avail[..], q) && UsedOk(used[..], q) && IndicesOk()
      modifies `lastUsedIdx, `q
      ensures q == Next(old(q), Get) && Inv(q, num)
      ensures AvailOk(avail[..], q) && UsedOk(used[..], q) && IndicesOk()
    {
      hide Inv, AvailOk, UsedOk;
      GetInv(q, num);
      GetRings(avail[..], used[..], q);
      NextWrapped(q.reclaimed);
      lastUsedIdx := (lastUsedIdx + 1) % WRAP;
      q := Next(q, Get);
    }

    /** Device: fetches the next published chain. */
    method DeviceFetch() returns (got: bool, head: nat)
      requires Valid()
      modifies this
      ensures Valid()
      ensures got <==> old(q.consumed) < |old(q.submitted)|
      ensures !got ==> q == old(q)
      ensures got ==>
        q == Next(old(q), Fetch) && 0 < |old(q.submitted)[old(q.consumed)].descs| &&
            head == old(q.submitted)[old(q.consumed)].descs[0]
    {
      hide Inv, TableOk, AvailOk, UsedOk;
      QueueBounds(q, num);
      CountersMeet(q.consumed, |q.submitted|, num);
      if deviceIdx == availRingIdx {
        return false, 0;
      }
      var slot := deviceIdx % num;
      AvailHead(avail[..], q, slot);
      assert avail[slot] == avail[..][slot];
      head := avail[slot];
      ghost var q0 := q;
      FetchInv(q0, num);
      FetchTable(desc[..], avail[..], used[..], q0, freeHead);
      NextWrapped(q0.consumed);
      deviceIdx := (deviceIdx + 1) % WRAP;
      q := Next(q0, Fetch);
      got := true;
    }

    /** Device: following NEXT from a live chain's head gives its buffers, in order. */
    method DeviceRead(ghost s: nat, head: nat) returns (r: seq<Desc>)
      requires Valid() && IsLive(q, s) && 0 < |q.submitted[s].descs| && head == q.submitted[s].descs[0]
      ensures |r| == |q.submitted[s].bufs|
      ensures forall i | 0 <= i < |r| ::
        var b := q.submitted[s].bufs[i];
        r[i].addr == VirtToPhys(b.addr) && r[i].len == b.len && Plain(r[i].flags) == b.flags
    {
      hide Inv, AvailOk, UsedOk, Stored, HasNext, Plain;
      ghost var c := q.submitted[s];
      assert ChainStored(desc[..], c);
      ghost var i := 0;
      var cur := head;
      r := [];
      while true
        invariant i < |c.descs| && cur == c.descs[i] && |r| == i
        invariant forall j: nat | j < i :: r[j] == Stored(c, j)
        decreases |c.descs| - i
      {
        assert desc[..][c.descs[i]] == Stored(c, i);
        StoredReads(c, i);
        r := r + [desc[cur]];
        i := i + 1;
        if !HasNext(desc[cur].flags) {
          break;
        }
        cur := desc[cur].next;
      }
      forall j | 0 <= j < |r|
        ensures r[j].addr == VirtToPhys(c.bufs[j].addr) && r[j].len == c.bufs[j].len
        ensures Plain(r[j].flags) == c.bufs[j].flags
      {
        StoredReads(c, j);
      }
    }

    /** Device: returns a fetched chain, in any order. */
    method DeviceComplete(ghost s: nat, head: nat, len: nat)
      requires Valid() && Pending(q, s) && 0 < |q.submitted[s].descs| && head == q.submitted[s].descs[0]
      modifies this, used
      ensures Valid() && q == Next(old(q), Complete(s, len))
    {
      hide Inv, TableOk, AvailOk, UsedOk;
      ghost var q0, used0 := q, used[..];
      CompleteInv(q0, num, s, len);
      QueueBounds(q0, num);
      QueueBounds(Next(q0, Complete(s, len)), num);
      PendingLive(q0, num, s);
      used[usedRingIdx % num] := UsedElem(head, len);
      assert used[..] == used0[usedRingIdx % num := UsedElem(head, len)];
      UsedCompleted(used0, used[..], q0, s, len, usedRingIdx % num);
      CompleteTable(desc[..], avail[..], q0, s, len, freeHead);
      NextWrapped(|q0.completed|);
      usedRingIdx := (usedRingIdx + 1) % WRAP;
      q := Next(q0, Complete(s, len));
    }
  }
}
