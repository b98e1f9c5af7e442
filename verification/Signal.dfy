/** The pending mask of a task, as a set of signal numbers. */
module PendingSignals {
  import opened Common

  const NSIG: nat := 32

  function Mask(s: nat): bv32
    requires s < NSIG
  {
    1 << s
  }

  predicate Meets(p: bv32, x: bv32) {
    p & x != 0
  }

  predicate IsPending(p: bv32, s: nat)
    requires s < NSIG
  {
    Meets(p, Mask(s))
  }

  /** Signal numbers start at 1. */
  ghost function PendingSet(p: bv32): set<nat> {
    set s: nat | 1 <= s < NSIG && IsPending(p, s)
  }

  /** One bit each, perhaps the same. */
  predicate OneBits(x: bv32, y: bv32) {
    x != 0 && (x == y || x & y == 0)
  }

  lemma OwnBit(p: bv32, x: bv32)
    requires x != 0
    ensures Meets(p | x, x) && !Meets(p & !x, x)
  {
  }

  lemma JoinedOther(p: bv32, x: bv32, y: bv32)
    requires x & y == 0
    ensures Meets(p | x, y) == Meets(p, y)
  {
  }

  lemma WithoutOther(p: bv32, x: bv32, y: bv32)
    requires x & y == 0
    ensures Meets(p & !x, y) == Meets(p, y)
  {
  }

  lemma JoinedAll(p: bv32, x: bv32)
    ensures forall y :: OneBits(x, y) ==> Meets(p | x, y) == (x == y || Meets(p, y))
  {
    hide Meets;
    forall y | OneBits(x, y)
      ensures Meets(p | x, y) == (x == y || Meets(p, y))
    {
      if x == y {
        OwnBit(p, x);
      } else {
        JoinedOther(p, x, y);
      }
    }
  }

  lemma WithoutAll(p: bv32, x: bv32)
    ensures forall y :: OneBits(x, y) ==> Meets(p & !x, y) == (x != y && Meets(p, y))
  {
    hide Meets;
    forall y | OneBits(x, y)
      ensures Meets(p & !x, y) == (x != y && Meets(p, y))
    {
      if x == y {
        OwnBit(p, x);
      } else {
        WithoutOther(p, x, y);
      }
    }
  }

  /** `p | x` for a single bit `x`. */
  function Joined(p: bv32, x: bv32): (r: bv32)
    ensures forall y :: OneBits(x, y) ==> Meets(r, y) == (x == y || Meets(p, y))
  {
    JoinedAll(p, x);
    p | x
  }

  /** `p & ~x` for a single bit `x`. */
  function Without(p: bv32, x: bv32): (r: bv32)
    ensures forall y :: OneBits(x, y) ==> Meets(r, y) == (x != y && Meets(p, y))
  {
    WithoutAll(p, x);
    p & !x
  }

  lemma MaskOf(k: nat)
    requires k < NSIG
    ensures (k as bv32) < 32 && Mask(k) == 1 as bv32 << (k as bv32)
  {
  }

  lemma Narrow(k: nat)
    requires k < NSIG
    ensures (k as bv32) as nat == k
  {
    if k < 16 {
      assert k == 0 || k == 1 || k == 2 || k == 3 || k == 4 || k == 5 || k == 6 || k == 7
        || k == 8 || k == 9 || k == 10 || k == 11 || k == 12 || k == 13 || k == 14 || k == 15;
    } else {
      assert k == 16 || k == 17 || k == 18 || k == 19 || k == 20 || k == 21 || k == 22 || k == 23
        || k == 24 || k == 25 || k == 26 || k == 27 || k == 28 || k == 29 || k == 30 || k == 31;
    }
  }

  lemma DistinctMasks(k: bv32, j: bv32)
    requires k < 32 && j < 32
    ensures OneBits(1 << k, 1 << j) && (1 as bv32 << k == 1 << j ==> k == j)
  {
  }

  lemma MasksDiffer(k: nat, j: nat)
    requires k < NSIG && j < NSIG
    ensures OneBits(Mask(k), Mask(j)) && (Mask(k) == Mask(j) <==> k == j)
  {
    MaskOf(k);
    MaskOf(j);
    Narrow(k);
    Narrow(j);
    DistinctMasks(k as bv32, j as bv32);
  }

  /** `|= 1U << sig` and `&= ~(1U << sig)` add and remove one signal. */
  lemma SetAndClear(p: bv32, k: nat)
    requires 1 <= k < NSIG
    ensures PendingSet(Joined(p, Mask(k))) == PendingSet(p) + {k}
    ensures PendingSet(Without(p, Mask(k))) == PendingSet(p) - {k}
  {
    hide Mask, Meets, Joined, Without, OneBits;
    forall j: nat | 1 <= j < NSIG
      ensures IsPending(Joined(p, Mask(k)), j) == (k == j || IsPending(p, j))
      ensures IsPending(Without(p, Mask(k)), j) == (k != j && IsPending(p, j))
    {
      MasksDiffer(k, j);
    }
  }

  lemma NonePending()
    ensures PendingSet(0) == {}
  {
    forall s: nat | 1 <= s < NSIG
      ensures !IsPending(0, s)
    {
      assert 0 & (1 as bv32 << s) == 0;
    }
  }

  lemma {:induction false} LeastExists(p: set<nat>)
    requires p != {}
    ensures exists s :: IsLeast(p, s)
  {
    var t :| t in p;
    if p == {t} {
      assert IsLeast(p, t);
    } else {
      assert p - {t} != {};
      LeastExists(p - {t});
      var s :| IsLeast(p - {t}, s);
      assert forall u | u in p :: u == t || u in p - {t};
      assert IsLeast(p, if s < t then s else t);
    }
  }

  ghost function Least(p: set<nat>): (s: nat)
    requires p != {}
    ensures IsLeast(p, s)
  {
    LeastExists(p);
    var s :| IsLeast(p, s);
    s
  }

  /** What happens to a pending set: a signal is sent, or the task returns to user mode. */
  datatype Event = Send(sig: nat) | Deliver

  ghost function After(p: set<nat>, e: Event): set<nat> {
    match e
    case Send(s) => p + {s}
    case Deliver => if p == {} then p else p - {Least(p)}
  }

  ghost function AfterAll(p: set<nat>, events: seq<Event>): set<nat>
    decreases events
  {
    if events == [] then p else AfterAll(After(p, events[0]), events[1..])
  }

  /** How often signal `s` is taken in a run. */
  ghost function Taken(p: set<nat>, events: seq<Event>, s: nat): nat
    decreases events
  {
    if events == [] then 0
    else (if events[0].Deliver? && p != {} && Least(p) == s then 1 else 0) + Taken(After(p, events[0]), events[1..], s)
  }

  function Sent(events: seq<Event>, s: nat): nat {
    if events == [] then 0 else (if events[0] == Send(s) then 1 else 0) + Sent(events[1..], s)
  }

  /** A pending signal is taken once for at least one time it was sent, and never lost. */
  lemma {:induction false} TakenOnce(p: set<nat>, events: seq<Event>, s: nat)
    ensures Taken(p, events, s) + (if s in AfterAll(p, events) then 1 else 0) <= Sent(events, s) +
      (if s in p then 1 else 0)
    ensures s in p || 0 < Sent(events, s) ==> 0 < Taken(p, events, s) || s in AfterAll(p, events)
    decreases events
  {
    if events != [] {
      TakenOnce(After(p, events[0]), events[1..], s);
    }
  }

  /** The signals in the order in which returns to user mode take them when no more are sent. */
  ghost function Order(p: set<nat>): seq<nat>
    decreases |p|
  {
    if p == {} then [] else [Least(p)] + Order(p - {Least(p)})
  }

  /** Lowest number first, each once, all of them. */
  lemma {:induction false} OrderAscending(p: set<nat>)
    ensures forall i, j | 0 <= i < j < |Order(p)| :: Order(p)[i] < Order(p)[j]
    ensures forall s :: s in Order(p) <==> s in p
    decreases |p|
  {
    if p != {} {
      OrderAscending(p - {Least(p)});
      var rest := Order(p - {Least(p)});
      forall j | 0 <= j < |rest|
        ensures Least(p) < rest[j]
      {
        assert rest[j] in p - {Least(p)};
      }
    }
  }
}

/** Delivery of signals by frames on the user's stack, and sigreturn. */
module Signals {
  import opened Common
  import opened PendingSignals

  const WORD_LIMIT: nat := 0x1_0000_0000_0000_0000
  const SIGKILL: nat := 9
  const SIGCHLD: nat := 17
  const SIG_DFL: Word := 0
  const SIG_IGN: Word := 1

  /** The frame is 36 words: 34 registers, the signal number and the trampoline. */
  const SIGFRAME_SIZE: nat := 288

  /** `mov x8, #16; svc #0`, two instructions in one word. */
  const TRAMPOLINE: Word := 0xd2800208 + 0xd4000001 * 0x1_0000_0000

  type Word = w: nat | w < WORD_LIMIT

  /** What the user's program sees: x0 to x30, SP, PC, PSTATE, and its memory in words from address 0. */
  datatype Machine = Machine(regs: seq<Word>, mem: seq<Word>)

  ghost predicate Room(m: Machine) {
    |m.regs| == 34 && SIGFRAME_SIZE <= m.regs[31] <= 8 * |m.mem| && 8 * |m.mem| < WORD_LIMIT
  }

  /** Index of the word the frame starts at: below SP, 16-byte aligned. */
  function FrameIndex(sp: nat): (k: nat)
    requires SIGFRAME_SIZE <= sp
    ensures 8 * k + SIGFRAME_SIZE <= sp
  {
    2 * ((sp - SIGFRAME_SIZE) / 16)
  }

  lemma FrameAddress(sp: nat)
    requires SIGFRAME_SIZE <= sp
    ensures 8 * FrameIndex(sp) == (sp - SIGFRAME_SIZE) - (sp - SIGFRAME_SIZE) % 16
  {
  }

  /** The machine as the handler finds it. */
  ghost function Pushed(m: Machine, sig: nat, handler: Word): (r: Machine)
    requires Room(m) && sig < NSIG
    ensures |r.regs| == 34 && |r.mem| == |m.mem| && r.regs[31] == 8 * FrameIndex(m.regs[31])
  {
    var k := FrameIndex(m.regs[31]);
    Machine([sig] + m.regs[1..30] + [8 * k + 280, 8 * k, handler, m.regs[33]],
            m.mem[..k] + m.regs + [sig, TRAMPOLINE] + m.mem[k + 36..])
  }

  ghost predicate HasFrame(m: Machine) {
    |m.regs| == 34 && m.regs[31] % 8 == 0 && m.regs[31] + SIGFRAME_SIZE <= 8 * |m.mem|
  }

  /** The machine after sigreturn. */
  ghost function Popped(m: Machine): Machine
    requires HasFrame(m)
  {
    var k := m.regs[31] / 8;
    Machine(m.mem[k..k + 34], m.mem)
  }

  /** Memory at and above address `floor` is the same. */
  ghost predicate Keeps(m: Machine, m': Machine, floor: nat) {
    |m'.mem| == |m.mem| && forall k | 0 <= k < |m.mem| && floor <= 8 * k :: m'.mem[k] == m.mem[k]
  }

  /** A stretch of user code, or a signal whose handler runs `body` and then returns. */
  datatype Activity = Work(to: Machine) | Signal(sig: nat, handler: Word, body: seq<Activity>)

  /** Where a run ends. */
  ghost function Final(m: Machine, run: seq<Activity>): Machine
    decreases run
  {
    if run == [] then m else Final(Next(m, run[0]), run[1..])
  }

  ghost function Next(m: Machine, a: Activity): Machine
    decreases a
  {
    match a
    case Work(to) => to
    case Signal(sig, handler, body) =>
      if Room(m) && sig < NSIG && HasFrame(Final(Pushed(m, sig, handler), body)) then
          Popped(Final(Pushed(m, sig, handler), body)) else m
  }

  /**
   * Code that was entered with its stack pointer at `floor` leaves what is at or above alone; each handler
   * leaves the stack pointer as it found it.
   */
  ghost predicate WellNested(m: Machine, run: seq<Activity>, floor: nat)
    decreases run
  {
    run == [] || (Allowed(m, run[0], floor) && WellNested(Next(m, run[0]), run[1..], floor))
  }

  ghost predicate Allowed(m: Machine, a: Activity, floor: nat)
    decreases a
  {
    match a
    case Work(to) => |to.regs| == 34 && Keeps(m, to, floor)
    case Signal(sig, handler, body) =>
      && Room(m) && sig < NSIG && m.regs[31] <= floor
      && var entry := Pushed(m, sig, handler);
      && WellNested(entry, body, entry.regs[31])
      && |Final(entry, body).regs| == 34 && Final(entry, body).regs[31] == entry.regs[31]
  }

  lemma KeepsTwice(a: Machine, b: Machine, c: Machine, floor: nat)
    requires Keeps(a, b, floor) && Keeps(b, c, floor)
    ensures Keeps(a, c, floor)
  {
  }

  /**
   * Pushing a frame changes only memory below the stack pointer; while that is left alone, popping gives
   * every register back.
   */
  lemma PushPop(m: Machine, sig: nat, handler: Word, end: Machine)
    requires Room(m) && sig < NSIG && Keeps(Pushed(m, sig, handler), end, 8 * FrameIndex(m.regs[31]))
    requires |end.regs| == 34 && end.regs[31] == 8 * FrameIndex(m.regs[31])
    ensures HasFrame(end) && Popped(end).regs == m.regs && Keeps(m, Popped(end), m.regs[31])
  {
    var k := FrameIndex(m.regs[31]);
    var pushed := Pushed(m, sig, handler);
    assert end.regs[31] / 8 == k;
    forall j | 0 <= j < 34
      ensures end.mem[k..k + 34][j] == m.regs[j]
    {
      assert end.mem[k + j] == pushed.mem[k + j];
    }
  }

  /** A run leaves everything at and above its floor alone, however the deliveries in it nest. */
  lemma {:induction false} RunKeeps(m: Machine, run: seq<Activity>, floor: nat)
    requires |m.regs| == 34 && WellNested(m, run, floor)
    ensures |Final(m, run).regs| == 34 && Keeps(m, Final(m, run), floor)
    decreases run, 0
  {
    if run != [] {
      NextKeeps(m, run[0], floor);
      RunKeeps(Next(m, run[0]), run[1..], floor);
      KeepsTwice(m, Next(m, run[0]), Final(m, run), floor);
    }
  }

  lemma {:induction false} NextKeeps(m: Machine, a: Activity, floor: nat)
    requires |m.regs| == 34 && Allowed(m, a, floor)
    ensures |Next(m, a).regs| == 34 && Keeps(m, Next(m, a), floor)
    decreases a, 1
  {
    if a.Signal? {
      Restores(m, a, floor);
    }
  }

  /**
   * After a delivery, its handler and every delivery nested in that, all 34 words and the memory at and above
   * the stack pointer are what they were.
   */
  lemma {:induction false} Restores(m: Machine, a: Activity, floor: nat)
    requires |m.regs| == 34 && a.Signal? && Allowed(m, a, floor)
    ensures Next(m, a).regs == m.regs && Keeps(m, Next(m, a), m.regs[31])
    decreases a, 0
  {
    hide Popped, Pushed;
    var entry := Pushed(m, a.sig, a.handler);
    RunKeeps(entry, a.body, entry.regs[31]);
    PushPop(m, a.sig, a.handler, Final(entry, a.body));
  }

  /** Entry by entry, a pushed frame. */
  lemma PushedAt(m: Machine, sig: nat, handler: Word, r: Machine)
    requires Room(m) && sig < NSIG && |r.regs| == 34 && |r.mem| == |m.mem|
    requires
      var k := FrameIndex(m.regs[31]);
      && r.regs == m.regs[0 := sig][30 := 8 * k + 280][31 := 8 * k][32 := handler]
      && (forall j | 0 <= j < 34 :: r.mem[k + j] == m.regs[j])
      && r.mem[k + 34] == sig && r.mem[k + 35] == TRAMPOLINE
      && (forall j | 0 <= j < |m.mem| && !(k <= j < k + 36) :: r.mem[j] == m.mem[j])
    ensures r == Pushed(m, sig, handler)
  {
    var k := FrameIndex(m.regs[31]);
    var p := Pushed(m, sig, handler);
    forall j | 0 <= j < |m.mem|
      ensures r.mem[j] == p.mem[j]
    {
      if k <= j < k + 34 {
        assert r.mem[k + (j - k)] == m.regs[j - k];
      }
    }
    assert r.regs == p.regs;
  }

  /** What `signal_deliver` did; `Killed` does not come back. */
  datatype Delivery = Nothing | Ignored(sig: nat) | Killed(sig: nat) | Handled(sig: nat)

  function Outcome(sig: nat, handler: Word): Delivery {
    if sig == SIGKILL then Killed(sig)
    else if handler == SIG_IGN then Ignored(sig)
    else if handler == SIG_DFL then (if sig == SIGCHLD then Ignored(sig) else Killed(sig))
    else Handled(sig)
  }

  /** A task as the signal code sees it on a return to user mode. */
  class Task {
    const isUser: bool
    const handlers: array<Word>
    const regs: array<Word>
    const mem: array<Word>
    var pending: bv32

    ghost predicate Valid()
      reads this
    {
      handlers.Length == NSIG && regs.Length == 34 && handlers != regs && regs != mem && handlers != mem
    }

    ghost function State(): Machine
      reads this, regs, mem
    {
      Machine(regs[..], mem[..])
    }

    constructor (isUser: bool, regs: array<Word>, mem: array<Word>)
      requires regs.Length == 34 && regs != mem
      ensures Valid() && this.regs == regs && this.mem == mem && this.isUser == isUser && fresh(handlers)
      ensures PendingSet(pending) == {} && forall s | 0 <= s < NSIG :: handlers[s] == SIG_DFL
    {
      this.isUser, this.regs, this.mem := isUser, regs, mem;
      handlers := new Word[NSIG](i => SIG_DFL);
      pending := 0;
      new;
      NonePending();
    }

    /** The mask half of `signal_send`; a task that has not exited gets the signal. */
    method Send(sig: int) returns (r: int)
      modifies this`pending
      ensures r == (if 1 <= sig < NSIG then 0 else -1)
      ensures PendingSet(pending) == PendingSet(old(pending)) + (if r == 0 then {sig} else {})
    {
      if sig < 1 || sig >= NSIG {
        return -1;
      }
      hide Mask, Joined, IsPending;
      SetAndClear(pending, sig);
      pending := Joined(pending, Mask(sig));
      return 0;
    }

    method SetHandler(sig: int, handler: Word) returns (r: Word)
      requires Valid()
      modifies handlers
      ensures sig < 1 || sig >= NSIG || sig == SIGKILL ==> r == WORD_LIMIT - 1 && handlers[..] == old(handlers[..])
      ensures 1 <= sig < NSIG && sig != SIGKILL ==>
        r == old(handlers[sig]) && handlers[..] == old(handlers[..])[sig := handler]
    {
      if sig < 1 || sig >= NSIG || sig == SIGKILL {
        return WORD_LIMIT - 1;
      }
      r := handlers[sig];
      handlers[sig] := handler;
    }

    /** The next signal to be taken has a handler of the user's, who must have stack for its frame. */
    ghost predicate Entering()
      reads this, handlers
      requires Valid()
    {
      && isUser && PendingSet(pending) != {}
      && var sig := Least(PendingSet(pending)); sig < NSIG && Outcome(sig, handlers[sig]).Handled?
    }

    /** `signal_deliver`: takes the lowest pending signal. */
    method Deliver() returns (d: Delivery)
      requires Valid() && (Entering() ==> Room(State()))
      modifies this`pending, regs, mem
      ensures !isUser || PendingSet(old(pending)) == {} ==>
        d == Nothing && pending == old(pending) && State() == old(State())
      ensures isUser && PendingSet(old(pending)) != {} ==>
        && var sig := Least(PendingSet(old(pending)));
        && sig < NSIG && d == Outcome(sig, handlers[sig])
        && PendingSet(pending) == PendingSet(old(pending)) - {sig}
        && State() == (if d.Handled? then Pushed(old(State()), sig, handlers[sig]) else old(State()))
    {
      hide IsPending, Pushed, Mask, Joined, Without;
      if !isUser || pending == 0 {
        NonePending();
        return Nothing;
      }
      var sig: nat := 0;
      var i := 1;
      while i < NSIG && sig == 0
        invariant 1 <= i <= NSIG
        invariant sig == 0 ==> forall s | 1 <= s < i :: !IsPending(pending, s)
        invariant sig != 0 ==> sig == i - 1 && IsPending(pending, sig) && forall s | 1 <= s < sig ::
          !IsPending(pending, s)
      {
        if IsPending(pending, i) {
          sig := i;
        }
        i := i + 1;
      }
      if sig == 0 {
        assert PendingSet(pending) == {};
        return Nothing;
      }
      assert IsLeast(PendingSet(pending), sig);
      SetAndClear(pending, sig);
      pending := Without(pending, Mask(sig));
      d := Outcome(sig, handlers[sig]);
      if d.Handled? {
        PushFrame(sig, handlers[sig]);
      }
    }

    /** Saves the registers in a frame below the stack pointer and enters the handler. */
    method PushFrame(sig: nat, handler: Word)
      requires Valid() && Room(State()) && sig < NSIG
      modifies regs, mem
      ensures State() == Pushed(old(State()), sig, handler)
    {
      var sp := regs[31] - SIGFRAME_SIZE;
      sp := sp - sp % 16;
      FrameAddress(regs[31]);
      var frame := sp / 8;
      assert frame == FrameIndex(regs[31]);
      for i := 0 to 34
        invariant forall j | 0 <= j < i :: mem[frame + j] == old(regs[j])
        invariant forall k | 0 <= k < mem.Length && !(frame <= k < frame + i) :: mem[k] == old(mem[k])
        invariant regs[..] == old(regs[..])
      {
        mem[frame + i] := regs[i];
      }
      mem[frame + 34] := sig;
      mem[frame + 35] := TRAMPOLINE;
      regs[0] := sig;
      regs[30] := sp + 35 * 8;
      regs[31] := sp;
      regs[32] := handler;
      PushedAt(old(State()), sig, handler, State());
    }

    /** `signal_return`. */
    method Return()
      requires Valid() && HasFrame(State())
      modifies regs
      ensures State() == Popped(old(State()))
    {
      var frame := regs[31] / 8;
      for i := 0 to 34
        invariant forall j | 0 <= j < i :: regs[j] == mem[frame + j]
      {
        regs[i] := mem[frame + i];
      }
    }
  }
}
