/** The bits of one bitmap byte, as `1 << k` and `>> k` see them. */
module BitmapByte {

  predicate Bit(b: bv8, k: nat)
    requires k < 8
  {
    (b >> k) & 1 == 1
  }

  /** The lowest `n` bits, lowest first. */
  ghost function Bits(b: bv8, n: nat): (r: seq<bool>)
    requires n <= 8
    ensures |r| == n
  {
    if n == 0 then [] else Bits(b, n - 1) + [Bit(b, n - 1)]
  }

  lemma {:induction false} BitsAt(b: bv8, n: nat, k: nat)
    requires k < n <= 8
    ensures Bits(b, n)[k] == Bit(b, k)
  {
    if k < n - 1 {
      BitsAt(b, n - 1, k);
    }
  }

  function SetBit(b: bv8, k: nat): bv8
    requires k < 8
  {
    b | (1 << k)
  }

  function ClearBit(b: bv8, k: nat): bv8
    requires k < 8
  {
    b & !(1 << k)
  }

  /** `|= 1 << k` and `&= ~(1 << k)` change bit `k` alone. */
  lemma SetClearBit(b: bv8, k: nat)
    requires k < 8
    ensures Bits(SetBit(b, k), 8) == Bits(b, 8)[k := true]
    ensures Bits(ClearBit(b, k), 8) == Bits(b, 8)[k := false]
  {
    hide Bits, Bit, SetBit, ClearBit;
    forall j: nat | j < 8
      ensures Bits(SetBit(b, k), 8)[j] == Bits(b, 8)[k := true][j]
      ensures Bits(ClearBit(b, k), 8)[j] == Bits(b, 8)[k := false][j]
    {
      BitsAt(b, 8, j);
      BitsAt(SetBit(b, k), 8, j);
      BitsAt(ClearBit(b, k), 8, j);
      OtherBits(b, k, j);
      OwnBit(b, k);
    }
  }

  lemma OwnBit(b: bv8, k: nat)
    requires k < 8
    ensures Bit(SetBit(b, k), k) && !Bit(ClearBit(b, k), k)
  {
    Cases(k);
  }

  lemma OtherBits(b: bv8, k: nat, j: nat)
    requires k < 8 && j < 8
    ensures j != k ==> Bit(SetBit(b, k), j) == Bit(b, j) && Bit(ClearBit(b, k), j) == Bit(b, j)
  {
    if j != k {
      OtherBitSet(b, k, j);
      OtherBitCleared(b, k, j);
    }
  }

  lemma OtherBitSet(b: bv8, k: nat, j: nat)
    requires k < 8 && j < 8 && j != k
    ensures Bit(SetBit(b, k), j) == Bit(b, j)
  {
    Cases(k);
    Cases(j);
  }

  lemma OtherBitCleared(b: bv8, k: nat, j: nat)
    requires k < 8 && j < 8 && j != k
    ensures Bit(ClearBit(b, k), j) == Bit(b, j)
  {
    Cases(k);
    Cases(j);
  }

  lemma Cases(k: nat)
    requires k < 8
    ensures k == 0 || k == 1 || k == 2 || k == 3 || k == 4 || k == 5 || k == 6 || k == 7
  {
  }

  lemma ZeroByte()
    ensures Bits(0, 8) == seq(8, i => false)
  {
    forall j: nat | j < 8
      ensures !Bits(0, 8)[j]
    {
      BitsAt(0, 8, j);
      Cases(j);
    }
  }

  lemma BitsDetermineByte(a: bv8, b: bv8)
    requires Bits(a, 8) == Bits(b, 8)
    ensures a == b
  {
    forall k: nat | k < 8
      ensures Bit(a, k) == Bit(b, k)
    {
      BitsAt(a, 8, k);
      BitsAt(b, 8, k);
    }
    assert Bit(a, 0) == Bit(b, 0) && Bit(a, 1) == Bit(b, 1);
    assert Bit(a, 2) == Bit(b, 2) && Bit(a, 3) == Bit(b, 3);
    assert Bit(a, 4) == Bit(b, 4) && Bit(a, 5) == Bit(b, 5);
    assert Bit(a, 6) == Bit(b, 6) && Bit(a, 7) == Bit(b, 7);
  }
}

/**
 * The physical page allocator: one bit a page, 1 = used.  The bitmap and its two counters
 * refine a set of free page numbers.
 */
module PageAllocator {
  import opened Common
  import opened BitmapByte

  ghost predicate Used(bits: seq<bv8>, p: nat)
    requires p < 8 * |bits|
  {
    Bits(bits[p / 8], 8)[p % 8]
  }

  /** The page numbers below `n` whose bit is clear. */
  ghost function FreeSet(bits: seq<bv8>, n: nat): (r: set<nat>)
    requires n <= 8 * |bits|
    ensures forall p | p in r :: p < n
  {
    if n == 0 then {} else FreeSet(bits, n - 1) + (if Used(bits, n - 1) then {} else {n - 1})
  }

  lemma {:induction false} FreeSetMember(bits: seq<bv8>, n: nat, p: nat)
    requires p < n <= 8 * |bits|
    ensures p in FreeSet(bits, n) <==> !Used(bits, p)
  {
    hide Used;
    if p < n - 1 {
      FreeSetMember(bits, n - 1, p);
    }
  }

  /** The `n` page numbers from `s` on. */
  ghost function Run(s: nat, n: nat): (r: set<nat>)
    ensures forall p :: p in r <==> s <= p < s + n
    ensures |r| == n
  {
    if n == 0 then {} else Run(s, n - 1) + {s + n - 1}
  }

  function AlignUp(a: nat): nat {
    (a + 4095) / 4096 * 4096
  }

  function AlignDown(a: nat): nat {
    a / 4096 * 4096
  }

  ghost predicate IsRun(free: set<nat>, s: nat, n: nat) {
    forall p: nat | s <= p < s + n :: p in free
  }

  /** Setting a page's bit takes it out of the free set and changes no other page. */
  lemma SetBitRemoves(bits: seq<bv8>, p: nat)
    requires p < 8 * |bits|
    ensures FreeSet(bits[p / 8 := SetBit(bits[p / 8], p % 8)], 8 * |bits|) == FreeSet(bits, 8 * |bits|) - {p}
  {
    var after := bits[p / 8 := SetBit(bits[p / 8], p % 8)];
    SetClearBit(bits[p / 8], p % 8);
    forall q: nat | q < 8 * |bits|
      ensures q in FreeSet(after, 8 * |bits|) <==> q in FreeSet(bits, 8 * |bits|) && q != p
    {
      FreeSetMember(bits, 8 * |bits|, q);
      FreeSetMember(after, 8 * |bits|, q);
      if q / 8 == p / 8 && q % 8 == p % 8 {
        assert q == p;
      } else {
        assert Used(after, q) == Used(bits, q);
      }
    }
  }

  lemma ClearBitAdds(bits: seq<bv8>, p: nat)
    requires p < 8 * |bits|
    ensures FreeSet(bits[p / 8 := ClearBit(bits[p / 8], p % 8)], 8 * |bits|) == FreeSet(bits, 8 * |bits|) + {p}
  {
    var after := bits[p / 8 := ClearBit(bits[p / 8], p % 8)];
    SetClearBit(bits[p / 8], p % 8);
    forall q: nat | q < 8 * |bits|
      ensures q in FreeSet(after, 8 * |bits|) <==> q in FreeSet(bits, 8 * |bits|) || q == p
    {
      FreeSetMember(bits, 8 * |bits|, q);
      FreeSetMember(after, 8 * |bits|, q);
      if q / 8 == p / 8 && q % 8 == p % 8 {
        assert q == p;
      } else {
        assert Used(after, q) == Used(bits, q);
      }
    }
  }

  /** The free set determines the bitmap, byte for byte. */
  lemma FreeSetDeterminesBitmap(a: seq<bv8>, b: seq<bv8>)
    requires |a| == |b| && FreeSet(a, 8 * |a|) == FreeSet(b, 8 * |a|)
    ensures a == b
  {
    hide FreeSet, Bits;
    forall i | 0 <= i < |a|
      ensures a[i] == b[i]
    {
      forall k: nat | k < 8
        ensures Bits(a[i], 8)[k] == Bits(b[i], 8)[k]
      {
        SameBit(a, b, i, k);
      }
      BitsDetermineByte(a[i], b[i]);
    }
  }

  lemma SameBit(a: seq<bv8>, b: seq<bv8>, i: nat, k: nat)
    requires |a| == |b| && FreeSet(a, 8 * |a|) == FreeSet(b, 8 * |a|) && i < |a| && k < 8
    ensures Bits(a[i], 8)[k] == Bits(b[i], 8)[k]
  {
    hide FreeSet, Bits;
    var p := 8 * i + k;
    FreeSetMember(a, 8 * |a|, p);
    FreeSetMember(b, 8 * |a|, p);
    assert p / 8 == i && p % 8 == k;
  }

  lemma FreeSetSize(bits: seq<bv8>)
    ensures |FreeSet(bits, 8 * |bits|)| <= 8 * |bits|
  {
    SubsetSize(FreeSet(bits, 8 * |bits|), Run(0, 8 * |bits|));
  }

  lemma SubsetSize<T>(a: set<T>, b: set<T>)
    requires a <= b
    ensures |a| <= |b| && |b - a| == |b| - |a|
  {
    assert b == a + (b - a);
  }

  /** No run ends at page `i` when page `gap`, less than `count` back, is taken or below the first. */
  lemma NoRunThrough(free: set<nat>, i: nat, gap: int, count: nat)
    requires forall s: nat | s + count <= i :: !IsRun(free, s, count)
    requires i - count < gap <= i && (0 <= gap ==> gap !in free)
    ensures forall s: nat | s + count <= i + 1 :: !IsRun(free, s, count)
  {
    forall s: nat | s + count <= i + 1
      ensures !IsRun(free, s, count)
    {
      if s + count == i + 1 {
        assert s <= gap < s + count;
      }
    }
  }

  lemma NoRunBeyond(free: set<nat>, total: nat, count: nat)
    requires 0 < count && forall p | p in free :: p < total
    requires forall s: nat | s + count <= total :: !IsRun(free, s, count)
    ensures forall s: nat :: !IsRun(free, s, count)
  {
    forall s: nat
      ensures !IsRun(free, s, count)
    {
      if s + count > total {
        assert s + count - 1 !in free;
      }
    }
  }

  lemma RunFree(free: set<nat>, s: nat, n: nat)
    requires IsRun(free, s, n)
    ensures Run(s, n) <= free
  {
  }

  lemma TakeMore(was: set<nat>, start: nat, k: nat)
    ensures was - Run(start, k) - {start + k} == was - Run(start, k + 1)
  {
  }

  lemma MinusPlus<T>(a: set<T>, b: set<T>)
    requires b <= a
    ensures a - b + b == a
  {
  }

  lemma AllFree(bits: seq<bv8>)
    requires forall j | 0 <= j < |bits| :: bits[j] == 0
    ensures FreeSet(bits, 8 * |bits|) == Run(0, 8 * |bits|)
  {
    hide FreeSet;
    forall p: nat | p < 8 * |bits|
      ensures p in FreeSet(bits, 8 * |bits|)
    {
      ZeroByte();
      FreeSetMember(bits, 8 * |bits|, p);
    }
    FreeSetBelow(bits, 8 * |bits|);
  }

  lemma FreeSetBelow(bits: seq<bv8>, n: nat)
    requires n <= 8 * |bits|
    ensures forall p | p in FreeSet(bits, n) :: 0 <= p < n
  {
  }

  /** The pages between the start of RAM and the end of the kernel. */
  function Reserved(basePage: nat, kernelEnd: nat): nat
    requires 4096 * basePage <= kernelEnd
  {
    (AlignUp(kernelEnd) - 4096 * basePage) / 4096
  }

  /** The pages counted as reserved are those that begin below the end of the kernel. */
  lemma ReservedPages(basePage: nat, total: nat, kernelEnd: nat)
    requires 4096 * basePage <= kernelEnd <= 4096 * (basePage + total)
    ensures Reserved(basePage, kernelEnd) <= total
    ensures forall p: nat :: p < Reserved(basePage, kernelEnd) <==> PageAddr(4096 * basePage, p) < kernelEnd
  {
    assert Reserved(basePage, kernelEnd) == (kernelEnd + 4095) / 4096 - basePage;
  }

  lemma Aligned(basePage: nat, a: nat, p: nat)
    requires 4096 * basePage <= a
    ensures 4096 * basePage <= AlignDown(a) <= AlignUp(a)
    ensures (AlignDown(a) - 4096 * basePage) / 4096 <= p <==> a < PageAddr(4096 * basePage, p) + 4096
    ensures p < (AlignUp(a) - 4096 * basePage) / 4096 <==> PageAddr(4096 * basePage, p) < a
  {
    assert (AlignDown(a) - 4096 * basePage) / 4096 == a / 4096 - basePage;
    assert (AlignUp(a) - 4096 * basePage) / 4096 == (a + 4095) / 4096 - basePage;
  }

  class Pmm {
    const basePage: nat
    const ramBase: nat  // RAM_BASE, the first address of page 0
    const total: nat
    const bitmap: array<bv8>
    var freePages: nat
    var usedPages: nat

    ghost predicate Valid()
      reads this, bitmap
    {
      && 0 < basePage && ramBase == 4096 * basePage
      && total == 8 * bitmap.Length
      && total <= 0x10_0000
      && freePages == |Free()|
      && usedPages == total - |Free()|
    }

    ghost function Free(): set<nat>
      reads bitmap
    {
      FreeSet(bitmap[..], 8 * bitmap.Length)
    }

    predicate InRam(addr: nat) {
      ramBase <= addr < ramBase + total * 4096
    }

    function AddrToPage(addr: nat): nat
      requires ramBase <= addr
    {
      (addr - ramBase) / 4096
    }

    function PageToAddr(page: nat): nat {
      PageAddr(ramBase, page)
    }

    /** The free pages by physical address. */
    ghost function FreeAddrs(): set<nat>
      reads bitmap
    {
      Addrs(ramBase, Free())
    }

    /** Every page number below `total` survives the trip through its address. */
    lemma PageAddrRoundTrip(page: nat, offset: nat)
      requires ramBase == 4096 * basePage && page < total && offset < 4096
      ensures InRam(PageToAddr(page) + offset) && AddrToPage(PageToAddr(page) + offset) == page
    {
    }

    lemma InRamPage(addr: nat)
      requires InRam(addr)
      ensures AddrToPage(addr) < total
    {
    }

    constructor (basePage: nat, bytes: nat, kernelEnd: nat)
      requires 0 < basePage && 8 * bytes <= 0x10_0000
      requires 4096 * basePage <= kernelEnd <= 4096 * (basePage + 8 * bytes)
      ensures Valid() && fresh(bitmap)
      ensures this.basePage == basePage && total == 8 * bytes
      ensures forall p: nat :: p in Free() <==> p < total && kernelEnd <= PageToAddr(p)
    {
      this.basePage := basePage;
      this.ramBase := 4096 * basePage;
      this.total := 8 * bytes;
      this.bitmap := new bv8[bytes];
      this.freePages := 8 * bytes;
      this.usedPages := 0;
      new;
      hide FreeSet, Reserved, PageAddr;
      ClearAll();
      ReservedPages(basePage, total, kernelEnd);
      var reserved := Reserved(basePage, kernelEnd);
      TakeRun(0, reserved);
    }

    /** "Start with everything free." */
    method ClearAll()
      modifies bitmap
      ensures Free() == Run(0, 8 * bitmap.Length)
    {
      hide FreeSet;
      for i := 0 to bitmap.Length
        invariant forall j | 0 <= j < i :: bitmap[j] == 0
      {
        bitmap[i] := 0;
      }
      AllFree(bitmap[..]);
    }

    predicate BitTest(page: nat): (used: bool)
      requires page < 8 * bitmap.Length
      reads bitmap
      ensures used <==> page !in Free()
    {
      FreeSetMember(bitmap[..], 8 * bitmap.Length, page);
      BitsAt(bitmap[page / 8], 8, page % 8);
      Bit(bitmap[page / 8], page % 8)
    }

    method BitSet(page: nat)
      requires page < 8 * bitmap.Length
      modifies bitmap
      ensures Free() == old(Free()) - {page}
    {
      SetBitRemoves(bitmap[..], page);
      bitmap[page / 8] := SetBit(bitmap[page / 8], page % 8);
      assert bitmap[..] == old(bitmap[..])[page / 8 := bitmap[page / 8]];
    }

    method BitClear(page: nat)
      requires page < 8 * bitmap.Length
      modifies bitmap
      ensures Free() == old(Free()) + {page}
    {
      ClearBitAdds(bitmap[..], page);
      bitmap[page / 8] := ClearBit(bitmap[page / 8], page % 8);
      assert bitmap[..] == old(bitmap[..])[page / 8 := bitmap[page / 8]];
    }

    /** `bit_set` on a free page with its counter updates. */
    method Take(page: nat)
      requires Valid() && page in Free()
      modifies this, bitmap
      ensures Valid() && Free() == old(Free()) - {page}
    {
      BitSet(page);
      freePages := freePages - 1;
      usedPages := usedPages + 1;
    }

    /** Takes the lowest free page; 0 exactly when there is none. */
    method AllocPage() returns (addr: nat)
      requires Valid()
      modifies this, bitmap
      ensures Valid()
      ensures addr == 0 <==> old(Free()) == {}
      ensures addr == 0 ==> Free() == old(Free())
      ensures addr != 0 ==>
        exists p :: IsLeast(old(Free()), p) && addr == PageToAddr(p) && Free() == old(Free()) - {p}
    {
      for i := 0 to total
        invariant bitmap[..] == old(bitmap[..])
        invariant freePages == old(freePages) && usedPages == old(usedPages)
        invariant forall p: nat | p < i :: p !in Free()
      {
        if !BitTest(i) {
          Take(i);
          assert IsLeast(old(Free()), i);
          return PageToAddr(i);
        }
      }
      return 0;
    }

    method FreePage(addr: nat)
      requires Valid()
      modifies this, bitmap
      ensures Valid()
      ensures Free() == old(Free()) + PageAt(addr)
    {
      if addr < ramBase || addr >= ramBase + total * 4096 {
        return;
      }
      var page := AddrToPage(addr);
      InRamPage(addr);
      if BitTest(page) {
        BitClear(page);
        FreeSetSize(bitmap[..]);
        freePages := freePages + 1;
        usedPages := usedPages - 1;
      }
    }

    /** The page holding `addr`, none outside RAM. */
    ghost function PageAt(addr: nat): set<nat> {
      if InRam(addr) then {AddrToPage(addr)} else {}
    }

    /** Takes the lowest run of `count` free pages; 0 exactly when there is none (or `count` is 0). */
    method AllocPages(count: nat) returns (addr: nat)
      requires Valid()
      modifies this, bitmap
      ensures Valid()
      ensures addr == 0 <==> count == 0 || forall s: nat :: !IsRun(old(Free()), s, count)
      ensures addr == 0 ==> Free() == old(Free())
      ensures addr != 0 ==>
        exists s: nat ::
            IsLowestRun(old(Free()), s, count) && addr == PageToAddr(s) && Free() == old(Free()) - Run(s, count)
    {
      hide FreeSet, Run, IsRun;
      if count == 0 {
        return 0;
      }
      var found, start := FindRun(count);
      if !found {
        return 0;
      }
      RunFree(Free(), start, count);
      TakeRun(start, count);
      return PageToAddr(start);
    }

    /** The scan: `start` is where the lowest run of `count` free pages begins, if there is one. */
    method FindRun(count: nat) returns (found: bool, start: nat)
      requires Valid() && 0 < count
      ensures found ==> IsLowestRun(Free(), start, count) && start + count <= total
      ensures !found ==> forall s: nat :: !IsRun(Free(), s, count)
    {
      hide FreeSet;
      var run := 0;
      start := 0;
      for i := 0 to total
        invariant 0 <= run < count && run <= i && (run != 0 ==> start == i - run)
        invariant forall p: nat | i - run <= p < i :: p in Free()
        invariant run < i ==> i - run - 1 !in Free()
        invariant forall s: nat | s + count <= i :: !IsRun(Free(), s, count)
      {
        if !BitTest(i) {
          if run == 0 {
            start := i;
          }
          run := run + 1;
          if run == count {
            return true, start;
          }
          NoRunThrough(Free(), i, i - run, count);
        } else {
          run := 0;
          NoRunThrough(Free(), i, i, count);
        }
      }
      NoRunBeyond(Free(), total, count);
      return false, start;
    }

    /** The `bit_set` loop and counter updates of a found run. */
    method TakeRun(start: nat, count: nat)
      requires Valid() && start + count <= total && Run(start, count) <= Free()
      modifies this, bitmap
      ensures Valid() && Free() == old(Free()) - Run(start, count)
    {
      hide FreeSet;
      SubsetSize(Run(start, count), Free());
      SetRun(start, count);
      freePages := freePages - count;
      usedPages := usedPages + count;
    }

    /** The loop alone. */
    method SetRun(start: nat, count: nat)
      requires start + count <= 8 * bitmap.Length
      modifies bitmap
      ensures Free() == old(Free()) - Run(start, count)
    {
      hide FreeSet;
      ghost var was := Free();
      for j := start to start + count
        invariant Free() == was - Run(start, j - start)
      {
        TakeMore(was, start, j - start);
        BitSet(j);
      }
    }

    /** The pages of RAM that `count` steps of 4096 from `addr` land on. */
    ghost function Covered(addr: nat, count: nat): set<nat> {
      if count == 0 then {} else Covered(addr, count - 1) + PageAt(addr + (count - 1) * 4096)
    }

    lemma CoveredNone(addr: nat)
      ensures Covered(addr, 0) == {}
    {
    }

    lemma CoveredMore(addr: nat, count: nat)
      ensures Covered(addr, count + 1) == Covered(addr, count) + PageAt(addr + count * 4096)
    {
    }

    lemma {:induction false} CoveredRun(s: nat, count: nat)
      requires ramBase == 4096 * basePage && s + count <= total
      ensures Covered(PageToAddr(s), count) == Run(s, count)
    {
      if count != 0 {
        CoveredRun(s, count - 1);
        PageAddrRoundTrip(s + count - 1, 0);
        assert PageToAddr(s) + (count - 1) * 4096 == PageToAddr(s + count - 1);
        assert Run(s, count) == Run(s, count - 1) + {s + count - 1};
      }
    }

    method FreePages(addr: nat, count: nat)
      requires Valid() && count <= 0x10_0000  // the offset `i * PAGE_SIZE` is 32-bit in the source
      modifies this, bitmap
      ensures Valid()
      ensures Free() == old(Free()) + Covered(addr, count)
    {
      hide FreeSet, Pmm.Covered, Pmm.PageAt;
      CoveredNone(addr);
      for i := 0 to count
        invariant Valid()
        invariant Free() == old(Free()) + Covered(addr, i)
      {
        CoveredMore(addr, i);
        FreePage(addr + i * 4096);
      }
    }

    /** Freeing what `AllocPages` gave restores the bitmap, byte for byte, and both counters. */
    method AllocThenFree(count: nat) returns (addr: nat)
      requires Valid()
      modifies this, bitmap
      ensures Valid()
      ensures bitmap[..] == old(bitmap[..]) && freePages == old(freePages) && usedPages == old(usedPages)
    {
      hide FreeSet;
      addr := AllocPages(count);
      if addr != 0 {
        ghost var s: nat :| IsLowestRun(old(Free()), s, count) && addr == PageToAddr(s) &&
          Free() == old(Free()) - Run(s, count);
        FreePages(addr, count);
        assert s + count - 1 in old(Free());
        CoveredRun(s, count);
        assert Run(s, count) <= old(Free());
        MinusPlus(old(Free()), Run(s, count));
      }
      FreeSetDeterminesBitmap(bitmap[..], old(bitmap[..]));
    }

    /** `pmm_mark_used` for a range that meets RAM: exactly the pages the range touches become used. */
    method MarkUsed(start: nat, end: nat)
      requires Valid()
      requires start <= ramBase + total * 4096 && ramBase <= end
      modifies this, bitmap
      ensures Valid()
      ensures forall p: nat :: p in Free() <==> p in old(Free()) && !Touches(start, end, p)
    {
      hide FreeSet;
      var lo := if start < ramBase then ramBase else start;
      var hi := if end > ramBase + total * 4096 then ramBase + total * 4096 else end;
      var first := AddrToPage(AlignDown(lo));
      var last := AddrToPage(AlignUp(hi));
      ghost var was := Free();
      var i := first;
      while i < last && i < total
        invariant Valid()
        invariant i == first || first < i <= last
        invariant forall p: nat :: p in Free() <==> p in was && !(first <= p < i)
      {
        if !BitTest(i) {
          Take(i);
        }
        i := i + 1;
      }
      forall p: nat
        ensures p in Free() <==> p in was && !Touches(start, end, p)
      {
        if p in was {
          TouchedPages(start, end, p);
        }
      }
    }

    /** Page `p` holds an address of `[start, end)`. */
    predicate Touches(start: nat, end: nat, p: nat) {
      start < PageToAddr(p) + 4096 && PageToAddr(p) < end
    }

    lemma TouchedPages(start: nat, end: nat, p: nat)
      requires ramBase == 4096 * basePage && p < total
      requires start <= ramBase + total * 4096 && ramBase <= end
      ensures
        var lo := if start < ramBase then ramBase else start;
        var hi := if end > ramBase + total * 4096 then ramBase + total * 4096 else end;
        Touches(start, end, p) <==> AddrToPage(AlignDown(lo)) <= p < AddrToPage(AlignUp(hi))
    {
      var lo := if start < ramBase then ramBase else start;
      var hi := if end > ramBase + total * 4096 then ramBase + total * 4096 else end;
      Aligned(basePage, lo, p);
      Aligned(basePage, hi, p);
    }
  }

  function PageAddr(base: nat, p: nat): nat {
    base + p * 4096
  }

  /** The addresses of a set of pages. */
  ghost function Addrs(base: nat, pages: set<nat>): set<nat> {
    set p | p in pages :: PageAddr(base, p)
  }

  /** The addresses of `n` consecutive pages. */
  ghost function AddrRun(pa: nat, n: nat): (r: set<nat>)
  {
    if n == 0 then {} else AddrRun(pa, n - 1) + {PageAddr(pa, n - 1)}
  }

  lemma {:induction false} InAddrRun(pa: nat, n: nat, i: nat)
    requires i < n
    ensures PageAddr(pa, i) in AddrRun(pa, n)
  {
    if i < n - 1 {
      InAddrRun(pa, n - 1, i);
    }
  }

  lemma PageAddrInjective(base: nat, p: nat, q: nat)
    requires PageAddr(base, p) == PageAddr(base, q)
    ensures p == q
  {
  }

  lemma AddrsMinus(base: nat, a: set<nat>, b: set<nat>)
    ensures Addrs(base, a - b) == Addrs(base, a) - Addrs(base, b)
    ensures Addrs(base, a + b) == Addrs(base, a) + Addrs(base, b)
    ensures a <= b ==> Addrs(base, a) <= Addrs(base, b)
  {
    forall p, q | p in a && q in b && PageAddr(base, p) == PageAddr(base, q)
      ensures p == q
    {
      PageAddrInjective(base, p, q);
    }
    forall x | x in Addrs(base, a) && x !in Addrs(base, b)
      ensures x in Addrs(base, a - b)
    {
      var p :| p in a && x == PageAddr(base, p);
      assert p in a - b;
    }
    forall x | x in Addrs(base, a) + Addrs(base, b)
      ensures x in Addrs(base, a + b)
    {
      if x in Addrs(base, a) {
        var p :| p in a && x == PageAddr(base, p);
        assert p in a + b;
      } else {
        var p :| p in b && x == PageAddr(base, p);
        assert p in a + b;
      }
    }
  }

  lemma AddrsOfOne(base: nat, p: nat)
    ensures Addrs(base, {p}) == {PageAddr(base, p)}
  {
  }

  lemma AddrsPlus(base: nat, a: set<nat>, p: nat, r: set<nat>)
    requires r == a + {p}
    ensures Addrs(base, r) == Addrs(base, a) + {PageAddr(base, p)}
  {
    AddrsMinus(base, a, {p});
    AddrsOfOne(base, p);
  }

  lemma AddrsOfNone(base: nat, a: set<nat>)
    requires a == {}
    ensures Addrs(base, a) == {}
  {
  }

  lemma PageAddrAdds(base: nat, p: nat, q: nat)
    ensures PageAddr(base, p + q) == PageAddr(PageAddr(base, p), q)
  {
  }

  lemma {:induction false} AddrsOfRun(base: nat, s: nat, n: nat)
    ensures Addrs(base, Run(s, n)) == AddrRun(PageAddr(base, s), n)
  {
    hide Addrs, PageAddr;
    if n == 0 {
      AddrsOfNone(base, Run(s, n));
    } else {
      AddrsPlus(base, Run(s, n - 1), s + n - 1, Run(s, n));
      AddrsOfRun(base, s, n - 1);
      PageAddrAdds(base, s, n - 1);
    }
  }

  ghost predicate IsLowestRun(free: set<nat>, s: nat, n: nat) {
    IsRun(free, s, n) && forall s': nat | s' < s :: !IsRun(free, s', n)
  }

  ghost predicate NoRun(free: set<nat>, n: nat) {
    forall s: nat :: !IsRun(free, s, n)
  }

  /** `free'` is `free` without its lowest run of `n`. */
  ghost predicate Took(free: set<nat>, free': set<nat>, n: nat) {
    exists s: nat :: IsLowestRun(free, s, n) && free' == free - Run(s, n)
  }

  /** Room for a task: its `n` code pages, then its stack with the guard page, then four tables. */
  ghost predicate RoomForTask(free: set<nat>, n: nat, stackPages: nat) {
    exists free1, free2 :: Took(free, free1, n) && Took(free1, free2, stackPages) && 4 <= |free2|
  }

  lemma NoCodeRun(free: set<nat>, n: nat, stackPages: nat)
    requires NoRun(free, n)
    ensures !RoomForTask(free, n, stackPages)
  {
    NoneTook(free, n);
  }

  lemma NoStackRun(free: set<nat>, free1: set<nat>, n: nat, stackPages: nat)
    requires Took(free, free1, n) && NoRun(free1, stackPages)
    ensures !RoomForTask(free, n, stackPages)
  {
    hide Took, NoRun;
    NoneTook(free1, stackPages);
    forall a | Took(free, a, n)
      ensures a == free1
    {
      TookOnce(free, a, free1, n);
    }
  }

  lemma RoomLeft(free: set<nat>, free1: set<nat>, free2: set<nat>, n: nat, stackPages: nat)
    requires Took(free, free1, n) && Took(free1, free2, stackPages)
    ensures RoomForTask(free, n, stackPages) <==> 4 <= |free2|
  {
    hide Took;
    forall a, b | Took(free, a, n) && Took(a, b, stackPages)
      ensures b == free2
    {
      TookOnce(free, a, free1, n);
      TookOnce(free1, b, free2, stackPages);
    }
  }

  lemma TookOnce(free: set<nat>, a: set<nat>, b: set<nat>, n: nat)
    requires Took(free, a, n) && Took(free, b, n)
    ensures a == b
  {
    var s: nat :| IsLowestRun(free, s, n) && a == free - Run(s, n);
    var t: nat :| IsLowestRun(free, t, n) && b == free - Run(t, n);
    assert s == t;
  }

  lemma NoneTook(free: set<nat>, n: nat)
    requires NoRun(free, n)
    ensures forall free' :: !Took(free, free', n)
  {
  }
}
