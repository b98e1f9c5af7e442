/**
 * A split virtqueue without its rings: submissions, completions and the free list as unbounded
 * sequences (section 2.7 of OASIS VIRTIO v1.2).  Driver and device are two actors whose steps
 * interleave freely.
 */
module DescriptorQueue {

  datatype Buf = Buf(addr: nat, len: nat, flags: bv16)

  /** A submitted chain: its descriptors, head first, and the buffers they carry. */
  datatype Chain = Chain(descs: seq<nat>, bufs: seq<Buf>)

  /** The device is done with submission number `sub`. */
  datatype Completion = Completion(sub: nat, len: nat)

  datatype Queue = Queue(free: seq<nat>, submitted: seq<Chain>, consumed: nat, completed: seq<Completion>,
      reclaimed: nat)

  predicate NoDup(s: seq<nat>) {
    forall i, j | 0 <= i < j < |s| :: s[i] != s[j]
  }

  ghost predicate Below(s: seq<nat>, num: nat) {
    forall i | 0 <= i < |s| :: s[i] < num
  }

  /** Submission `s` still owns its descriptors. */
  ghost predicate IsLive(q: Queue, s: nat) {
    s < |q.submitted| && forall k | 0 <= k < q.reclaimed && k < |q.completed| :: q.completed[k].sub != s
  }

  /** The device has fetched `s` and not completed it. */
  predicate Pending(q: Queue, s: nat) {
    s < q.consumed && forall k | 0 <= k < |q.completed| :: q.completed[k].sub != s
  }

  /** Descriptor `d` belongs to the free list or to one live chain. */
  ghost predicate Owned(q: Queue, d: nat) {
    d in q.free || exists s: nat :: IsLive(q, s) && d in q.submitted[s].descs
  }

  ghost predicate ChainOk(q: Queue, num: nat, c: Chain) {
    0 < |c.descs| == |c.bufs| && NoDup(c.descs) && Below(c.descs, num) && forall d | d in c.descs :: d !in q.free
  }

  ghost predicate Disjoint(a: seq<nat>, b: seq<nat>) {
    forall d | d in a :: d !in b
  }

  /**
   * Every descriptor is on the free list or in one unreclaimed chain, once; completions name fetched chains,
   * once each.
   */
  ghost predicate Inv(q: Queue, num: nat) {
    && NoDup(q.free) && Below(q.free, num)
    && (forall s: nat | IsLive(q, s) :: ChainOk(q, num, q.submitted[s]))
    && (forall s: nat, s': nat | IsLive(q, s) && IsLive(q, s') && s != s' ::
       Disjoint(q.submitted[s].descs, q.submitted[s'].descs))
    && (forall d: nat | d < num :: Owned(q, d))
    && q.consumed <= |q.submitted| && q.reclaimed <= |q.completed|
    && (forall k | 0 <= k < |q.completed| :: q.completed[k].sub < q.consumed)
    && (forall j, k | 0 <= j < k < |q.completed| :: q.completed[j].sub != q.completed[k].sub)
  }

  ghost function Reverse(s: seq<nat>): (r: seq<nat>)
    ensures |r| == |s|
  {
    if s == [] then [] else [s[|s| - 1]] + Reverse(s[..|s| - 1])
  }

  lemma {:induction false} ReverseAt(s: seq<nat>, i: nat)
    requires i < |s|
    ensures Reverse(s)[i] == s[|s| - 1 - i]
  {
    if i != 0 {
      ReverseAt(s[..|s| - 1], i - 1);
    }
  }

  lemma ReverseMembers(s: seq<nat>)
    ensures forall d :: d in Reverse(s) <==> d in s
    ensures NoDup(s) ==> NoDup(Reverse(s))
  {
    forall i: nat | i < |s|
      ensures Reverse(s)[i] == s[|s| - 1 - i]
      ensures Reverse(s)[|s| - 1 - i] == s[i]
    {
      ReverseAt(s, i);
      ReverseAt(s, |s| - 1 - i);
    }
    if NoDup(s) {
      forall i, j | 0 <= i < j < |s|
        ensures Reverse(s)[i] != Reverse(s)[j]
      {
        assert s[|s| - 1 - j] != s[|s| - 1 - i];
      }
    }
    forall d | d in s
      ensures d in Reverse(s)
    {
      var i :| 0 <= i < |s| && s[i] == d;
      assert Reverse(s)[|s| - 1 - i] == d;
    }
  }

  lemma NoDupConcat(a: seq<nat>, b: seq<nat>)
    requires NoDup(a) && NoDup(b) && Disjoint(a, b)
    ensures NoDup(a + b)
  {
    forall i, j | 0 <= i < j < |a + b|
      ensures (a + b)[i] != (a + b)[j]
    {
      if i < |a| <= j {
        assert a[i] in a && b[j - |a|] in b;
      }
    }
  }

  /** The driver's steps and the device's. */
  datatype Event = Add(bufs: seq<Buf>) | Fetch | Complete(sub: nat, len: nat) | Get

  ghost predicate Enabled(q: Queue, e: Event) {
    match e
    case Add(bufs) => 0 < |bufs| <= |q.free|
    case Fetch => q.consumed < |q.submitted|
    case Complete(s, _) => Pending(q, s)
    case Get => q.reclaimed < |q.completed|
  }

  ghost function Next(q: Queue, e: Event): Queue
    requires Enabled(q, e)
  {
    match e
    case Add(bufs) => q.(free := q.free[|bufs|..], submitted := q.submitted + [Chain(q.free[..|bufs|], bufs)])
    case Fetch => q.(consumed := q.consumed + 1)
    case Complete(s, len) => q.(completed := q.completed + [Completion(s, len)])
    case Get =>
      var s := q.completed[q.reclaimed].sub;
      if s < |q.submitted| then q.(free := Reverse(q.submitted[s].descs) + q.free, reclaimed := q.reclaimed + 1) else q
  }

  /** An event that is not possible changes nothing. */
  ghost function Step(q: Queue, e: Event): Queue {
    if Enabled(q, e) then Next(q, e) else q
  }

  ghost function RunOf(q: Queue, events: seq<Event>): Queue {
    if events == [] then q else Step(RunOf(q, events[..|events| - 1]), events[|events| - 1])
  }

  ghost function Range(n: nat): (r: seq<nat>)
    ensures |r| == n && forall i | 0 <= i < n :: r[i] == i
  {
    seq(n, i => i)
  }

  ghost function Initial(num: nat): Queue {
    Queue(Range(num), [], 0, [], 0)
  }

  lemma InitialInv(num: nat)
    ensures Inv(Initial(num), num)
  {
    var q := Initial(num);
    forall d: nat | d < num
      ensures Owned(q, d)
    {
      assert q.free[d] == d;
    }
  }

  lemma AddInv(q: Queue, num: nat, bufs: seq<Buf>)
    requires Inv(q, num) && 0 < |bufs| <= |q.free|
    ensures Inv(Next(q, Add(bufs)), num)
  {
    var n := |bufs|;
    var q' := Next(q, Add(bufs));
    var c := Chain(q.free[..n], bufs);
    assert q.free == c.descs + q'.free;
    forall s: nat | IsLive(q', s)
      ensures s == |q.submitted| || IsLive(q, s)
      ensures ChainOk(q', num, q'.submitted[s])
    {
    }
    forall d: nat | d < num
      ensures Owned(q', d)
    {
      assert Owned(q, d);
      if d in c.descs {
        assert IsLive(q', |q.submitted|) && d in q'.submitted[|q.submitted|].descs;
      } else if d !in q.free {
        var s: nat :| IsLive(q, s) && d in q.submitted[s].descs;
        assert IsLive(q', s) && d in q'.submitted[s].descs;
      }
    }
  }

  lemma GetInv(q: Queue, num: nat)
    requires Inv(q, num) && q.reclaimed < |q.completed|
    ensures Inv(Next(q, Get), num)
    ensures IsLive(q, q.completed[q.reclaimed].sub) && !IsLive(Next(q, Get), q.completed[q.reclaimed].sub)
  {
    var q' := Next(q, Get);
    var r := q.completed[q.reclaimed].sub;
    assert IsLive(q, r);
    var descs := q.submitted[r].descs;
    ReverseMembers(descs);
    assert ChainOk(q, num, q.submitted[r]);
    NoDupConcat(Reverse(descs), q.free);
    forall i | 0 <= i < |q'.free|
      ensures q'.free[i] < num
    {
      if i < |descs| {
        assert Reverse(descs)[i] in descs;
      }
    }
    forall s: nat | IsLive(q', s)
      ensures IsLive(q, s) && s != r && ChainOk(q', num, q'.submitted[s])
    {
      assert q'.completed[q.reclaimed].sub != s;
      assert ChainOk(q, num, q.submitted[s]);
      assert Disjoint(q.submitted[s].descs, q.submitted[r].descs);
    }
    forall d: nat | d < num
      ensures Owned(q', d)
    {
      assert Owned(q, d);
      if d !in q.free {
        var s: nat :| IsLive(q, s) && d in q.submitted[s].descs;
        if s != r {
          assert IsLive(q', s) && d in q'.submitted[s].descs;
        }
      }
    }
  }

  lemma CompleteInv(q: Queue, num: nat, s: nat, len: nat)
    requires Inv(q, num) && Pending(q, s)
    ensures Inv(Next(q, Complete(s, len)), num)
  {
    var q' := Next(q, Complete(s, len));
    assert q.completed == q'.completed[..|q.completed|];
    forall t: nat
      ensures IsLive(q', t) <==> IsLive(q, t)
    {
    }
    forall d: nat | d < num
      ensures Owned(q', d)
    {
      assert Owned(q, d);
    }
  }

  lemma FetchInv(q: Queue, num: nat)
    requires Inv(q, num) && q.consumed < |q.submitted|
    ensures Inv(Next(q, Fetch), num)
  {
    var q' := Next(q, Fetch);
    forall t: nat
      ensures IsLive(q', t) <==> IsLive(q, t)
    {
    }
    forall d: nat | d < num
      ensures Owned(q', d)
    {
      assert Owned(q, d);
    }
  }

  /** The partition holds after every interleaving of driver and device. */
  lemma {:induction false} RunInv(num: nat, events: seq<Event>)
    ensures Inv(RunOf(Initial(num), events), num)
  {
    if events == [] {
      InitialInv(num);
    } else {
      RunInv(num, events[..|events| - 1]);
      var q, e := RunOf(Initial(num), events[..|events| - 1]), events[|events| - 1];
      if Enabled(q, e) {
        match e
        case Add(bufs) => AddInv(q, num, bufs);
        case Fetch => FetchInv(q, num);
        case Complete(s, len) => CompleteInv(q, num, s, len);
        case Get => GetInv(q, num);
      }
    }
  }

  /** The unreclaimed chains among the first `n` submissions. */
  ghost function LiveCount(q: Queue, n: nat): nat {
    if n == 0 then 0 else LiveCount(q, n - 1) + (if IsLive(q, n - 1) then 1 else 0)
  }

  /** The descriptors they hold. */
  ghost function LiveLength(q: Queue, n: nat): nat
    requires n <= |q.submitted|
  {
    if n == 0 then 0 else LiveLength(q, n - 1) + (if IsLive(q, n - 1) then |q.submitted[n - 1].descs| else 0)
  }

  ghost function Members(s: seq<nat>): set<nat> {
    set d | d in s
  }

  ghost function LiveMembers(q: Queue, n: nat): set<nat>
    requires n <= |q.submitted|
  {
    if n == 0 then {} else LiveMembers(q, n - 1) + (if IsLive(q, n - 1) then Members(q.submitted[n - 1].descs) else {})
  }

  lemma {:induction false} MembersSize(s: seq<nat>)
    requires NoDup(s)
    ensures |Members(s)| == |s|
  {
    if s != [] {
      var last, rest := s[|s| - 1], s[..|s| - 1];
      MembersSize(rest);
      assert s == rest + [last];
      assert Members(s) == Members(rest) + {last};
    }
  }

  ghost predicate ChainsDisjoint(q: Queue) {
    && (forall s: nat | IsLive(q, s) :: NoDup(q.submitted[s].descs) && 0 < |q.submitted[s].descs|)
    && (forall s: nat, s': nat | IsLive(q, s) && IsLive(q, s') && s != s' ::
       Disjoint(q.submitted[s].descs, q.submitted[s'].descs))
  }

  lemma {:induction false} InLiveMembers(q: Queue, n: nat, d: nat)
    requires n <= |q.submitted|
    ensures d in LiveMembers(q, n) ==> exists s: nat :: s < n && IsLive(q, s) && d in q.submitted[s].descs
  {
    hide IsLive;
    if n != 0 && d in LiveMembers(q, n) {
      if d in LiveMembers(q, n - 1) {
        InLiveMembers(q, n - 1, d);
      } else {
        assert n - 1 < n && IsLive(q, n - 1) && d in q.submitted[n - 1].descs;
      }
    }
  }

  lemma {:induction false} OfLiveMembers(q: Queue, n: nat, s: nat, d: nat)
    requires s < n <= |q.submitted| && IsLive(q, s) && d in q.submitted[s].descs
    ensures d in LiveMembers(q, n)
  {
    if s < n - 1 {
      OfLiveMembers(q, n - 1, s, d);
    }
  }

  /** The next live chain's descriptors are none of those before. */
  lemma NewMembers(q: Queue, n: nat)
    requires ChainsDisjoint(q) && n < |q.submitted| && IsLive(q, n)
    ensures LiveMembers(q, n) !! Members(q.submitted[n].descs)
    ensures NoDup(q.submitted[n].descs) && 0 < |q.submitted[n].descs|
  {
    hide IsLive, LiveMembers;
    var descs := q.submitted[n].descs;
    forall d | d in LiveMembers(q, n)
      ensures d !in descs
    {
      InLiveMembers(q, n, d);
      var s: nat :| s < n && IsLive(q, s) && d in q.submitted[s].descs;
      assert Disjoint(q.submitted[s].descs, descs);
    }
  }

  lemma UnionSize(a: set<nat>, b: set<nat>)
    requires a !! b
    ensures |a + b| == |a| + |b|
  {
  }

  lemma {:induction false} LiveMembersSize(q: Queue, n: nat)
    requires ChainsDisjoint(q) && n <= |q.submitted|
    ensures |LiveMembers(q, n)| == LiveLength(q, n)
    ensures LiveCount(q, n) <= LiveLength(q, n)
  {
    hide IsLive, ChainsDisjoint, Members, NoDup;
    if n != 0 {
      LiveMembersSize(q, n - 1);
      if IsLive(q, n - 1) {
        NewMembers(q, n - 1);
        MembersSize(q.submitted[n - 1].descs);
        UnionSize(LiveMembers(q, n - 1), Members(q.submitted[n - 1].descs));
      }
    }
  }

  lemma InvDisjoint(q: Queue, num: nat)
    requires Inv(q, num)
    ensures ChainsDisjoint(q)
  {
    forall s: nat | IsLive(q, s)
      ensures NoDup(q.submitted[s].descs) && 0 < |q.submitted[s].descs|
    {
      assert ChainOk(q, num, q.submitted[s]);
    }
  }

  /** The free list and the live chains cover the table and do not meet. */
  lemma Covered(q: Queue, num: nat, d: nat)
    requires Inv(q, num)
    ensures d < num <==> d in q.free || d in LiveMembers(q, |q.submitted|)
    ensures d in q.free ==> d !in LiveMembers(q, |q.submitted|)
  {
    if d < num {
      assert Owned(q, d);
      if d !in q.free {
        var s: nat :| IsLive(q, s) && d in q.submitted[s].descs;
        OfLiveMembers(q, |q.submitted|, s, d);
      }
    }
    if d in LiveMembers(q, |q.submitted|) {
      InLiveMembers(q, |q.submitted|, d);
      var s: nat :| s < |q.submitted| && IsLive(q, s) && d in q.submitted[s].descs;
      assert ChainOk(q, num, q.submitted[s]);
    }
  }

  lemma RangeMembers(num: nat)
    ensures forall d: nat :: d in Members(Range(num)) <==> d < num
    ensures |Members(Range(num))| == num
  {
    var all := Range(num);
    MembersSize(all);
    forall d: nat
      ensures d in Members(all) <==> d < num
    {
      if d < num {
        assert all[d] == d;
      }
    }
  }

  /** Conservation: free descriptors and descriptors in flight always add up to the queue size. */
  lemma DescriptorsConserved(q: Queue, num: nat)
    requires Inv(q, num)
    ensures |q.free| + LiveLength(q, |q.submitted|) == num
  {
    var live, free, all := LiveMembers(q, |q.submitted|), Members(q.free), Members(Range(num));
    InvDisjoint(q, num);
    LiveMembersSize(q, |q.submitted|);
    MembersSize(q.free);
    RangeMembers(num);
    forall d
      ensures d in all <==> d in free || d in live
      ensures d in free ==> d !in live
    {
      Covered(q, num, d);
    }
    hide *;
    assert free !! live && all == free + live;
  }

  ghost function ReclaimedSubs(c: seq<Completion>): set<nat> {
    if c == [] then {} else ReclaimedSubs(c[..|c| - 1]) + {c[|c| - 1].sub}
  }

  ghost predicate DistinctSubs(c: seq<Completion>) {
    forall j, k | 0 <= j < k < |c| :: c[j].sub != c[k].sub
  }

  lemma {:induction false} ReclaimedSubsMember(c: seq<Completion>, s: nat)
    ensures s in ReclaimedSubs(c) <==> exists k :: 0 <= k < |c| && c[k].sub == s
  {
    if c != [] {
      var rest := c[..|c| - 1];
      ReclaimedSubsMember(rest, s);
      if k :| 0 <= k < |c| && c[k].sub == s {
        if k < |c| - 1 {
          assert rest[k].sub == s;
        }
      }
    }
  }

  lemma {:induction false} ReclaimedSubsSize(c: seq<Completion>)
    requires DistinctSubs(c)
    ensures |ReclaimedSubs(c)| == |c|
  {
    if c != [] {
      ReclaimedSubsSize(c[..|c| - 1]);
      ReclaimedSubsMember(c[..|c| - 1], c[|c| - 1].sub);
    }
  }

  lemma {:induction false} LiveCountSize(q: Queue, n: nat, gone: set<nat>)
    requires n <= |q.submitted| && forall s: nat | s < n :: s in gone <==> !IsLive(q, s)
    requires forall s | s in gone :: s < n
    ensures LiveCount(q, n) == n - |gone|
  {
    if n == 0 {
      assert gone == {};
    } else {
      LiveCountSize(q, n - 1, gone - {n - 1});
    }
  }

  /** Each chain is reclaimed once: what is submitted minus what is reclaimed is what is live, at most `num`. */
  lemma InFlight(q: Queue, num: nat)
    requires Inv(q, num)
    ensures LiveCount(q, |q.submitted|) == |q.submitted| - q.reclaimed <= num
    ensures |q.submitted| - q.consumed <= num && |q.completed| - q.reclaimed <= num && |q.completed| <= q.consumed
  {
    var gone := ReclaimedSubs(q.completed[..q.reclaimed]);
    ReclaimedSubsSize(q.completed[..q.reclaimed]);
    forall s: nat
      ensures s in gone <==> exists k :: 0 <= k < q.reclaimed && q.completed[k].sub == s
    {
      ReclaimedSubsMember(q.completed[..q.reclaimed], s);
      if k :| 0 <= k < q.reclaimed && q.completed[k].sub == s {
        assert q.completed[..q.reclaimed][k].sub == s;
      }
    }
    LiveCountSize(q, |q.submitted|, gone);
    InvDisjoint(q, num);
    LiveMembersSize(q, |q.submitted|);
    DescriptorsConserved(q, num);
    CompletedBelow(q, num);
  }

  /** No more completions than fetched chains. */
  lemma CompletedBelow(q: Queue, num: nat)
    requires Inv(q, num)
    ensures |q.completed| <= q.consumed
  {
    var subs, all := ReclaimedSubs(q.completed), Members(Range(q.consumed));
    ReclaimedSubsSize(q.completed);
    RangeMembers(q.consumed);
    forall s | s in subs
      ensures s in all
    {
      ReclaimedSubsMember(q.completed, s);
    }
    assert all == subs + (all - subs);
  }
}
