/** What user tasks keep of their address spaces, as facts about memory and roles. */
module TaskMemory {
  import opened PageAllocator
  import opened PageTable
  import opened AddressSpaces

  const UINT64: nat := 0x1_0000_0000_0000_0000

  datatype Task = Task(ttbr0: nat, codePa: nat, codePages: nat, stackPa: nat, heapBreak: nat, parent: int)

  /** The virtual pages an exec'd task owns: code start up to the rounded-up break, and the stack. */
  predicate InLayout(heapBreak: nat, v: nat) {
    CODE_PAGE <= v < AlignUp(heapBreak) / 4096 || STACK_TOP - STACK_PAGES <= v < STACK_TOP
  }

  /** The pages of a program of `codeSize` bytes, four of them for its BSS. */
  function CodePages(codeSize: nat): (n: nat)
    ensures 5 <= n && (codeSize < 0xffff_f000 ==> n < 0x10_0005)
    ensures codeSize + 4 * 4096 <= 4096 * n
  {
    (if codeSize == 0 then 1 else (codeSize + 4095) / 4096) + 4
  }

  /** `old_break + increment` in 64 bits. */
  function NewBreak(heapBreak: nat, increment: nat): nat {
    if heapBreak + increment < UINT64 then heapBreak + increment else heapBreak + increment - UINT64
  }

  /** What every task keeps of its address space. */
  ghost predicate TaskOk(ram: Ram, role: map<nat, Role>, task: Task) {
    && Holds(role, task.ttbr0, L1)
    && Serves(role, task.codePa, task.codePages, task.ttbr0, CODE_PAGE)
    && Serves(role, task.stackPa, STACK_PAGES, task.ttbr0, STACK_TOP - STACK_PAGES)
    && 0 < task.codePages < 0x10_0005 && task.heapBreak < 0x2_0000_0000
    && forall v: nat | GUARD_PAGE <= v < STACK_TOP - STACK_PAGES || STACK_TOP <= v < VA_PAGES ::
       Walk(ram, task.ttbr0, v).Fault?
  }

  /** The task maps exactly its layout. */
  ghost predicate Exact(ram: Ram, task: Task) {
    && 4096 * CODE_PAGE <= task.heapBreak
    && forall v: nat | v < VA_PAGES :: Walk(ram, task.ttbr0, v).Page? <==> InLayout(task.heapBreak, v)
  }

  ghost predicate SameWalks(ram: Ram, ram': Ram, root: nat) {
    forall v: nat | v < VA_PAGES :: Walk(ram', root, v) == Walk(ram, root, v)
  }

  ghost predicate TasksOk(ram: Ram, role: map<nat, Role>, tasks: seq<Task>, clean: set<nat>) {
    && (forall t | 0 <= t < |tasks| :: TaskOk(ram, role, tasks[t]))
    && (forall t, u | 0 <= t < u < |tasks| :: tasks[t].ttbr0 != tasks[u].ttbr0)
    && (forall t | t in clean :: t < |tasks| && Exact(ram, tasks[t]))
  }

  lemma KeptTasks(ram: Ram, role: map<nat, Role>, ram': Ram, role': map<nat, Role>, tasks: seq<Task>, clean: set<nat>)
    requires TasksOk(ram, role, tasks, clean) && Extends(role, role')
    requires forall t | 0 <= t < |tasks| :: SameWalks(ram, ram', tasks[t].ttbr0)
    ensures TasksOk(ram', role', tasks, clean)
  {
    forall t | 0 <= t < |tasks|
      ensures TaskOk(ram', role', tasks[t])
    {
      assert TaskOk(ram, role, tasks[t]);
    }
    forall t | t in clean
      ensures Exact(ram', tasks[t])
    {
      assert Exact(ram, tasks[t]);
    }
  }

  ghost predicate Content(ram: Ram, p: nat, words: seq<nat>) {
    p in ram && ram[p] == words
  }

  function Get(ram: Ram, p: nat): seq<nat> {
    if p in ram then ram[p] else []
  }

  lemma {:induction false} AddrRunGrows(base: nat, p: nat, n: nat)
    requires p <= n
    ensures AddrRun(base, p) <= AddrRun(base, n)
    ensures forall i: nat | p <= i < n :: PageAddr(base, i) !in AddrRun(base, p)
  {
    AddrRunBelow(base, p);
    if p < n {
      AddrRunGrows(base, p, n - 1);
    }
  }

  lemma {:induction false} AddrRunBelow(base: nat, p: nat)
    ensures forall x | x in AddrRun(base, p) :: x < PageAddr(base, p)
  {
    if p != 0 {
      AddrRunBelow(base, p - 1);
    }
  }

  /** The words of page `p` of a zero-padded image. */
  function ImagePage(image: seq<nat>, p: nat): seq<nat> {
    seq(512, w requires 0 <= w < 512 => if 512 * p + w < |image| then image[512 * p + w] else 0)
  }

  ghost predicate HasImage(ram: Ram, base: nat, n: nat, image: seq<nat>) {
    forall p: nat | p < n :: Content(ram, PageAddr(base, p), ImagePage(image, p))
  }

  /** Memory after `n` pages of an image were stored from `base` on. */
  ghost function ImageStored(ram: Ram, base: nat, n: nat, image: seq<nat>): Ram {
    if n == 0 then ram else ImageStored(ram, base, n - 1, image)[PageAddr(base, n - 1) := ImagePage(image, n - 1)]
  }

  lemma {:induction false} LoadedPages(ram: Ram, base: nat, n: nat, image: seq<nat>)
    ensures ImageStored(ram, base, n, image).Keys == ram.Keys + AddrRun(base, n)
    ensures forall q | q in ram && q !in AddrRun(base, n) :: ImageStored(ram, base, n, image)[q] == ram[q]
    ensures forall q | q in AddrRun(base, n) :: |ImageStored(ram, base, n, image)[q]| == 512
    ensures forall p: nat | p < n :: Content(ImageStored(ram, base, n, image), PageAddr(base, p), ImagePage(image, p))
  {
    if n != 0 {
      LoadedPages(ram, base, n - 1, image);
    }
  }

  /** Memory after `n` pages were copied from `src` to `dst`. */
  ghost function Copied(ram: Ram, src: nat, dst: nat, n: nat): Ram {
    if n == 0 then ram else Copied(ram, src, dst, n - 1)[PageAddr(dst, n - 1) := Get(ram, PageAddr(src, n - 1))]
  }

  lemma {:induction false} CopiedPages(ram: Ram, src: nat, dst: nat, n: nat)
    ensures Copied(ram, src, dst, n).Keys == ram.Keys + AddrRun(dst, n)
    ensures forall q | q in ram && q !in AddrRun(dst, n) :: Copied(ram, src, dst, n)[q] == ram[q]
    ensures forall p: nat | p < n :: Content(Copied(ram, src, dst, n), PageAddr(dst, p), Get(ram, PageAddr(src, p)))
  {
    if n != 0 {
      CopiedPages(ram, src, dst, n - 1);
    }
  }

  ghost predicate HasCopy(ram: Ram, dst: nat, n: nat, ram0: Ram, src: nat) {
    forall p: nat | p < n :: Content(ram, PageAddr(dst, p), Get(ram0, PageAddr(src, p)))
  }

  lemma CopyStays(ram: Ram, dst: nat, n: nat, ram0: Ram, src: nat, free: set<nat>, ram': Ram)
    requires HasCopy(ram, dst, n, ram0, src) && KeepsUsed(ram, free, ram') && AddrRun(dst, n) !! free
    ensures HasCopy(ram', dst, n, ram0, src)
  {
    forall p: nat | p < n
      ensures Content(ram', PageAddr(dst, p), Get(ram0, PageAddr(src, p)))
    {
      InAddrRun(dst, n, p);
      assert Content(ram, PageAddr(dst, p), Get(ram0, PageAddr(src, p)));
    }
  }

  lemma CopySource(ram: Ram, dst: nat, n: nat, ram1: Ram, src: nat, ram0: Ram, free: set<nat>)
    requires HasCopy(ram, dst, n, ram1, src) && KeepsUsed(ram0, free, ram1) && AddrRun(src, n) !! free
    requires forall p: nat | p < n :: PageAddr(src, p) in ram0
    ensures HasCopy(ram, dst, n, ram0, src)
  {
    forall p: nat | p < n
      ensures Content(ram, PageAddr(dst, p), Get(ram0, PageAddr(src, p)))
    {
      InAddrRun(src, n, p);
      assert Content(ram, PageAddr(dst, p), Get(ram1, PageAddr(src, p)));
    }
  }

  /** The two copies of a fork survive the steps after them. */
  lemma ForkCopies(ram0: Ram, free0: set<nat>, ram1: Ram, run: set<nat>, ram3: Ram, free2: set<nat>, ram4: Ram,
                   parent: Task, code: nat, stack: nat)
    requires KeepsUsed(ram0, free0, ram1) && KeepsUsed(ram1, run, ram3) && KeepsUsed(ram3, free2, ram4)
    requires HasCopy(ram1, code, parent.codePages, ram0, parent.codePa)
    requires AddrRun(code, parent.codePages) !! run + free2
    requires HasCopy(ram3, stack, STACK_PAGES, ram1, parent.stackPa) && AddrRun(stack, STACK_PAGES) !! free2
    requires AddrRun(parent.stackPa, STACK_PAGES) !! free0
    requires forall p: nat | p < STACK_PAGES :: PageAddr(parent.stackPa, p) in ram0
    ensures HasCopy(ram4, code, parent.codePages, ram0, parent.codePa)
    ensures HasCopy(ram4, stack, STACK_PAGES, ram0, parent.stackPa)
  {
    hide HasCopy, KeepsUsed;
    CopyStays(ram1, code, parent.codePages, ram0, parent.codePa, run, ram3);
    CopyStays(ram3, code, parent.codePages, ram0, parent.codePa, free2, ram4);
    CopyStays(ram3, stack, STACK_PAGES, ram1, parent.stackPa, free2, ram4);
    CopySource(ram4, stack, STACK_PAGES, ram1, parent.stackPa, ram0, free0);
  }

  /** The pages of a task are pages of RAM, in use. */
  lemma TaskPages(ram: Ram, role: map<nat, Role>, tasks: seq<Task>, clean: set<nat>, task: Task)
    requires TablesOk(ram, role) && TasksOk(ram, role, tasks, clean) && task in tasks
    ensures forall p: nat | p < task.codePages :: PageOk(ram, PageAddr(task.codePa, p))
    ensures forall p: nat | p < STACK_PAGES :: PageOk(ram, PageAddr(task.stackPa, p))
    ensures AddrRun(task.codePa, task.codePages) <= role.Keys
    ensures AddrRun(task.stackPa, STACK_PAGES) <= role.Keys
    ensures 0 < task.codePages < 0x10_0005 && task.heapBreak < 0x2_0000_0000
  {
    assert TaskOk(ram, role, task);
    ServedRun(role, task.codePa, task.codePages, task.ttbr0, CODE_PAGE);
    ServedRun(role, task.stackPa, STACK_PAGES, task.ttbr0, STACK_TOP - STACK_PAGES);
    forall p: nat | p < task.codePages
      ensures PageOk(ram, PageAddr(task.codePa, p))
    {
      InAddrRun(task.codePa, task.codePages, p);
    }
    forall p: nat | p < STACK_PAGES
      ensures PageOk(ram, PageAddr(task.stackPa, p))
    {
      InAddrRun(task.stackPa, STACK_PAGES, p);
    }
  }

  lemma {:induction false} ServedRun(role: map<nat, Role>, base: nat, n: nat, root: nat, v0: nat)
    requires Serves(role, base, n, root, v0)
    ensures AddrRun(base, n) <= role.Keys
  {
    if n != 0 {
      assert Serves(role, base, n - 1, root, v0);
      assert Holds(role, PageAddr(base, n - 1), User(root, v0 + (n - 1) % 512));
      ServedRun(role, base, n - 1, root, v0);
    }
  }

  lemma {:induction false} CopiedOk(ram: Ram, src: nat, dst: nat, n: nat)
    requires forall p: nat | p < n :: PageOk(ram, PageAddr(src, p))
    ensures PagesStay(ram, Copied(ram, src, dst, n))
  {
    if n != 0 {
      CopiedOk(ram, src, dst, n - 1);
      assert PageOk(ram, PageAddr(src, n - 1));
    }
  }

  ghost predicate PagesStay(ram: Ram, ram': Ram) {
    forall q | PageOk(ram, q) :: PageOk(ram', q)
  }

  lemma {:induction false} AddrRunTail(base: nat, n: nat)
    ensures AddrRun(base + 4096, n) <= AddrRun(base, n + 1)
  {
    if n != 0 {
      AddrRunTail(base, n - 1);
    }
  }

  /** Writing only free pages and adding only roles changes no task's walk. */
  lemma KeptWalks(ram: Ram, role: map<nat, Role>, free: set<nat>, ram': Ram, role': map<nat, Role>)
    requires TablesOk(ram, role) && TablesOk(ram', role') && Extends(role, role')
    requires role.Keys !! free && KeepsUsed(ram, free, ram')
    ensures forall root :: Holds(role, root, L1) ==> SameWalks(ram, ram', root)
  {
    OutsideTables(ram, ram', role);
    SameTranslations(ram, role, ram', role');
  }

  /** Writing only free pages and adding only roles keeps every task as it is. */
  lemma TasksSurvive(ram: Ram, role: map<nat, Role>, free: set<nat>, ram': Ram, role': map<nat, Role>,
                     tasks: seq<Task>, clean: set<nat>)
    requires TablesOk(ram, role) && TablesOk(ram', role') && Extends(role, role')
    requires role.Keys !! free && KeepsUsed(ram, free, ram')
    requires TasksOk(ram, role, tasks, clean)
    ensures TasksOk(ram', role', tasks, clean)
    ensures forall t | 0 <= t < |tasks| :: SameWalks(ram, ram', tasks[t].ttbr0)
  {
    hide TablesOk;
    KeptWalks(ram, role, free, ram', role');
    RootsHeld(ram, role, tasks, clean);
    KeptTasks(ram, role, ram', role', tasks, clean);
  }

  lemma RootsHeld(ram: Ram, role: map<nat, Role>, tasks: seq<Task>, clean: set<nat>)
    requires TasksOk(ram, role, tasks, clean)
    ensures forall t | 0 <= t < |tasks| :: Holds(role, tasks[t].ttbr0, L1) && tasks[t].heapBreak < 0x2_0000_0000
  {
    forall t | 0 <= t < |tasks|
      ensures Holds(role, tasks[t].ttbr0, L1) && tasks[t].heapBreak < 0x2_0000_0000
    {
      assert TaskOk(ram, role, tasks[t]);
    }
  }

  lemma KeepsUsedReflexive(ram: Ram, free: set<nat>)
    ensures KeepsUsed(ram, free, ram)
  {
  }

  lemma CleanGrows(ram: Ram, role: map<nat, Role>, tasks: seq<Task>, clean: set<nat>, t: nat)
    requires TasksOk(ram, role, tasks, clean) && t < |tasks| && Exact(ram, tasks[t])
    ensures TasksOk(ram, role, tasks, clean + {t})
  {
  }

  lemma KeepsUsedTransitive(ram: Ram, free: set<nat>, ram1: Ram, free1: set<nat>, ram2: Ram)
    requires KeepsUsed(ram, free, ram1) && KeepsUsed(ram1, free1, ram2) && free1 <= free
    ensures KeepsUsed(ram, free, ram2)
  {
  }

  lemma LoadedStays(ram: Ram, base: nat, n: nat, image: seq<nat>, free: set<nat>, ram': Ram)
    requires KeepsUsed(ImageStored(ram, base, n, image), free, ram') && AddrRun(base, n) !! free
    ensures HasImage(ram', base, n, image)
  {
    LoadedPages(ram, base, n, image);
    forall p: nat | p < n
      ensures Content(ram', PageAddr(base, p), ImagePage(image, p))
    {
      InAddrRun(base, n, p);
    }
  }

  /** A fresh map covers the code pages that fit one table, and the stack. */
  lemma FreshMapped(code: nat, n: nat, stack: nat, v: nat)
    ensures FreshMap(code, n, stack, v).Page? <==>
      CODE_PAGE <= v < CODE_PAGE + (if n < 512 then n else 512) || STACK_TOP - STACK_PAGES <= v < STACK_TOP
    ensures FreshMap(code, n, stack, v).Page? || FreshMap(code, n, stack, v).Fault?
  {
    LastForExists(v % 512, n);
    if CODE_PAGE <= v < CODE_PAGE + 512 {
      assert v % 512 == v - CODE_PAGE;
    }
  }

  /** With 513 code pages the last one takes the place of the first, and the last virtual page is unmapped. */
  lemma LongCodeWraps(code: nat, stack: nat)
    ensures CodePages(509 * 4096) == 513
    ensures FreshMap(code, 513, stack, CODE_PAGE) == Page(PageAddr(code, 512), true)
    ensures FreshMap(code, 513, stack, CODE_PAGE + 512) == Fault && InLayout(4096 * (CODE_PAGE + 513), CODE_PAGE + 512)
  {
    assert LastFor(0, 513) == 512;
  }

  /** What a fresh task starts out with. */
  lemma FreshTaskOk(ram: Ram, role: map<nat, Role>, free: set<nat>, role': map<nat, Role>, task: Task)
    requires TablesOk(ram, role')
    requires NewTree(role, free, ram, role', task.ttbr0, task.codePa, task.codePages, task.stackPa)
    requires 0 < task.codePages < 0x10_0005 && task.heapBreak < 0x2_0000_0000
    ensures TaskOk(ram, role', task)
    ensures task.heapBreak == 4096 * (CODE_PAGE + task.codePages) ==> (Exact(ram, task) <==> task.codePages <= 512)
    ensures forall v: nat | v < VA_PAGES ::
      Walk(ram, task.ttbr0, v) == FreshMap(task.codePa, task.codePages, task.stackPa, v)
  {
    hide TablesOk, Walk, FreshMap, FreshTree;
    var l2, l3, l3s :| Created(role, free, ram, role', task.ttbr0, l2, l3, l3s, task.codePa, task.codePages,
      task.stackPa);
    forall v: nat | v < VA_PAGES
      ensures Walk(ram, task.ttbr0, v) == FreshMap(task.codePa, task.codePages, task.stackPa, v)
      ensures Walk(ram, task.ttbr0, v).Page? <==>
        CODE_PAGE <= v < CODE_PAGE + (if task.codePages < 512 then task.codePages else 512) ||
            STACK_TOP - STACK_PAGES <= v < STACK_TOP
      ensures Walk(ram, task.ttbr0, v).Page? || Walk(ram, task.ttbr0, v).Fault?
    {
      FreshWalk(ram, role', task.ttbr0, l2, l3, l3s, task.codePa, task.codePages, task.stackPa, v);
      FreshMapped(task.codePa, task.codePages, task.stackPa, v);
    }
    if task.codePages > 512 && task.heapBreak == 4096 * (CODE_PAGE + task.codePages) {
      assert InLayout(task.heapBreak, CODE_PAGE + 512);
    }
  }

  lemma GrowsReflexive(ram: Ram, role: map<nat, Role>, free: set<nat>)
    ensures Grows(ram, role, free, ram, role, free)
  {
  }

  lemma GrowsFresh(ram: Ram, role: map<nat, Role>, free: set<nat>, pa: nat)
    requires pa in free
    ensures Grows(ram, role, free, ram[pa := Zeros()], role, free)
  {
  }

  lemma GrowsBack(ram: Ram, role: map<nat, Role>, free: set<nat>, ram': Ram, role': map<nat, Role>, free': set<nat>,
                  pa: nat)
    requires Grows(ram, role, free, ram', role', free') && pa in free && pa !in role'
    ensures Grows(ram, role, free, ram', role', free' + {pa})
  {
  }

  /** A translation to a zeroed page that was free before. */
  ghost predicate FreshZero(ram: Ram, free: set<nat>, x: Translation) {
    x.Page? && x.user && x.pa in free && Content(ram, x.pa, Zeros())
  }

  /** The pages `f` to `x` of a task are mapped to fresh zeroed pages, its other pages are as they were. */
  ghost predicate HeapMapped(ram0: Ram, free0: set<nat>, ram: Ram, root: nat, f: nat, x: nat) {
    forall v: nat | v < VA_PAGES ::
      if f <= v < x then FreshZero(ram, free0, Walk(ram, root, v)) else Walk(ram, root, v) == Walk(ram0, root, v)
  }

  lemma AlignedBreaks(break0: nat, break1: nat)
    requires break1 < 4096 * GUARD_PAGE
    ensures AlignUp(break1) / 4096 <= GUARD_PAGE
    ensures break0 <= break1 ==> AlignUp(break0) / 4096 <= AlignUp(break1) / 4096
  {
  }

  lemma CleanShrinks(ram: Ram, role: map<nat, Role>, tasks: seq<Task>, clean: set<nat>, t: nat)
    requires TasksOk(ram, role, tasks, clean)
    ensures TasksOk(ram, role, tasks, clean - {t})
  {
  }

  lemma HeapMappedNone(ram: Ram, free: set<nat>, root: nat, f: nat)
    ensures HeapMapped(ram, free, ram, root, f, f)
  {
  }

  lemma BreakMoves(ram: Ram, role: map<nat, Role>, tasks: seq<Task>, clean: set<nat>, t: nat, newBreak: nat)
    requires TasksOk(ram, role, tasks, clean) && t < |tasks| && t !in clean && newBreak < 4096 * GUARD_PAGE
    ensures TasksOk(ram, role, tasks[t := tasks[t].(heapBreak := newBreak)], clean)
  {
    assert TaskOk(ram, role, tasks[t]);
  }

  /** Mapping the pages up to the new break extends an exact map to the new layout. */
  lemma GrownExact(ram0: Ram, free0: set<nat>, ram: Ram, tasks: seq<Task>, clean: set<nat>, role: map<nat, Role>,
                   t: nat, newBreak: nat)
    requires TasksOk(ram0, role, tasks, clean) && t in clean
    requires tasks[t].heapBreak <= newBreak < 4096 * GUARD_PAGE
    requires HeapMapped(ram0, free0, ram, tasks[t].ttbr0, AlignUp(tasks[t].heapBreak) / 4096, AlignUp(newBreak) / 4096)
    ensures Exact(ram, tasks[t].(heapBreak := newBreak))
  {
    AlignedBreaks(tasks[t].heapBreak, newBreak);
    assert Exact(ram0, tasks[t]);
    var f, e := AlignUp(tasks[t].heapBreak) / 4096, AlignUp(newBreak) / 4096;
    forall v: nat | v < VA_PAGES
      ensures Walk(ram, tasks[t].ttbr0, v).Page? <==> InLayout(newBreak, v)
    {
      assert if f <= v < e then FreshZero(ram, free0, Walk(ram, tasks[t].ttbr0, v))
        else Walk(ram, tasks[t].ttbr0, v) == Walk(ram0, tasks[t].ttbr0, v);
    }
  }

  /** A mapped page is a user page, so stores to tables and fresh pages leave it alone. */
  lemma HeapStep(ram0: Ram, role0: map<nat, Role>, free0: set<nat>, ram1: Ram, role1: map<nat, Role>, free1: set<nat>,
                 ram2: Ram, role2: map<nat, Role>, free2: set<nat>, tasks: seq<Task>, clean: set<nat>, t: nat, f: nat,
                     x: nat, ok: bool)
    requires TablesOk(ram1, role1) && TablesOk(ram2, role2) && role1.Keys !! free1
    requires Grows(ram0, role0, free0, ram1, role1, free1) && Grows(ram1, role1, free1, ram2, role2, free2)
    requires TasksOk(ram1, role1, tasks, clean) && t < |tasks| && t !in clean
    requires f <= x < GUARD_PAGE
    requires HeapMapped(ram0, free0, ram1, tasks[t].ttbr0, f, x)
    requires forall u | 0 <= u < |tasks| && u != t :: SameWalks(ram0, ram1, tasks[u].ttbr0)
    requires forall r, v: nat ::
      Holds(role1, r, L1) && v < VA_PAGES && !(ok && r == tasks[t].ttbr0 && v == x) ==>
          Walk(ram2, r, v) == Walk(ram1, r, v)
    requires ok ==> FreshZero(ram2, free1, Walk(ram2, tasks[t].ttbr0, x))
    ensures TasksOk(ram2, role2, tasks, clean)
    ensures HeapMapped(ram0, free0, ram2, tasks[t].ttbr0, f, if ok then x + 1 else x)
    ensures forall u | 0 <= u < |tasks| && u != t :: SameWalks(ram0, ram2, tasks[u].ttbr0)
  {
    RootsHeld(ram1, role1, tasks, clean);
    forall v: nat | v < VA_PAGES && f <= v < x
      ensures FreshZero(ram2, free0, Walk(ram2, tasks[t].ttbr0, v))
    {
      WalkOwned(ram1, role1, tasks[t].ttbr0, v);
    }
    forall u | 0 <= u < |tasks|
      ensures TaskOk(ram2, role2, tasks[u])
    {
      assert TaskOk(ram1, role1, tasks[u]);
    }
    forall u | u in clean
      ensures Exact(ram2, tasks[u])
    {
      assert Exact(ram1, tasks[u]);
    }
  }

  /** What a load by a task sees. */
  datatype Loaded = PageFault | Word(value: nat)

  ghost function Load(ram: Ram, root: nat, v: nat, i: nat): Loaded
    requires i < 512
  {
    match Walk(ram, root, v)
    case Page(pa, _) => Loaded.Word(PageTable.Word(ram, pa, i))
    case _ => PageFault
  }

  datatype Op =
    | Exec(image: seq<nat>, codeSize: nat)
    | Fork(t: nat)
    | Sbrk(t: nat, increment: nat)
    | Store(t: nat, v: nat, i: nat, word: nat)

  /**
   * The tasks that map exactly their layout after `op` returned `r`, if those in `exact` did before: a
   * program of at most 512 pages joins them, and a failed sbrk or one that lowers the break ends it.
   */
  function ExactAfter(exact: set<nat>, op: Op, r: int): set<nat> {
    match op
    case Exec(_, codeSize) => if 0 <= r && CodePages(codeSize) <= 512 then exact + {r} else exact
    case Sbrk(t, increment) => if r < 0 || NewBreak(r, increment) < r then exact - {t} else exact
    case _ => exact
  }

  /** And after a run. */
  function ExactTasks(ops: seq<Op>, results: seq<int>): set<nat>
    requires |ops| == |results|
  {
    if ops == [] then {}
    else ExactAfter(ExactTasks(ops[..|ops| - 1], results[..|ops| - 1]), ops[|ops| - 1], results[|ops| - 1])
  }

  lemma ExactMonotone(a: set<nat>, b: set<nat>, op: Op, r: int)
    requires a <= b
    ensures ExactAfter(a, op, r) <= ExactAfter(b, op, r)
  {
  }

  lemma ExactMore(ops: seq<Op>, results: seq<int>, k: nat, r: int)
    requires k < |ops| && |results| == k
    ensures ExactTasks(ops[..k + 1], results + [r]) == ExactAfter(ExactTasks(ops[..k], results), ops[k], r)
  {
    assert ops[..k + 1][..k] == ops[..k] && (results + [r])[..k] == results;
  }

  /** The table pages the walk of `v` reads. */
  ghost function TablesRead(ram: Ram, root: nat, v: nat): set<nat> {
    var e1 := PageTable.Word(ram, root, v / 262144);
    if !IsTable(e1) then {root}
    else
      var e2 := PageTable.Word(ram, TableAddr(e1), v / 512 % 512);
      {root, TableAddr(e1)} + (if IsTable(e2) then {TableAddr(e2)} else {})
  }

  /** Read off the memory alone: no page is mapped twice, no table is mapped, no guard page is mapped. */
  ghost predicate Isolated(ram: Ram, tasks: seq<Task>) {
    && (forall t, u, v: nat, w: nat | 0 <= t < |tasks| && 0 <= u < |tasks| && v < VA_PAGES && w < VA_PAGES ::
          Walk(ram, tasks[t].ttbr0, v).Page? && Walk(ram, tasks[u].ttbr0, w).Page?
          ==> (Walk(ram, tasks[t].ttbr0, v).pa == Walk(ram, tasks[u].ttbr0, w).pa ==> t == u && v == w))
    && (forall t, u, v: nat, w: nat | 0 <= t < |tasks| && 0 <= u < |tasks| && v < VA_PAGES && w < VA_PAGES ::
          Walk(ram, tasks[t].ttbr0, v).Page? ==> Walk(ram, tasks[t].ttbr0, v).pa !in TablesRead(ram, tasks[u].ttbr0, w))
    && (forall t | 0 <= t < |tasks| :: Walk(ram, tasks[t].ttbr0, GUARD_PAGE).Fault?)
  }

  lemma TablesReadOwned(ram: Ram, role: map<nat, Role>, root: nat, v: nat)
    requires TablesOk(ram, role) && Holds(role, root, L1) && v < VA_PAGES
    ensures forall p | p in TablesRead(ram, root, v) :: TableOf(role, p, root)
  {
    var e1 := ram[root][v / 262144];
    if e1 != 0 {
      EntryBits(e1 - 3);
      var e2 := ram[e1 - 3][v / 512 % 512];
      if e2 != 0 {
        EntryBits(e2 - 3);
      }
    }
  }

  lemma Isolation(ram: Ram, role: map<nat, Role>, tasks: seq<Task>, clean: set<nat>)
    requires TablesOk(ram, role) && TasksOk(ram, role, tasks, clean)
    ensures Isolated(ram, tasks)
  {
    hide TablesOk, Walk, TablesRead;
    RootsHeld(ram, role, tasks, clean);
    forall t, u, v: nat, w: nat | 0 <= t < |tasks| && 0 <= u < |tasks| && v < VA_PAGES && w < VA_PAGES
      && Walk(ram, tasks[t].ttbr0, v).Page?
      ensures Walk(ram, tasks[t].ttbr0, v).pa !in TablesRead(ram, tasks[u].ttbr0, w)
      ensures Walk(ram, tasks[u].ttbr0, w).Page? ==>
        Walk(ram, tasks[t].ttbr0, v).pa == Walk(ram, tasks[u].ttbr0, w).pa ==> t == u && v == w
    {
      WalkOwned(ram, role, tasks[t].ttbr0, v);
      WalkOwned(ram, role, tasks[u].ttbr0, w);
      TablesReadOwned(ram, role, tasks[u].ttbr0, w);
    }
    forall t | 0 <= t < |tasks|
      ensures Walk(ram, tasks[t].ttbr0, GUARD_PAGE).Fault?
    {
      assert TaskOk(ram, role, tasks[t]);
    }
  }

  /** Task `t` sees `word` at word `i` of its page `v`; nothing else changed for any task. */
  ghost predicate StoreSeen(ram: Ram, ram': Ram, tasks: seq<Task>, t: nat, v: nat, i: nat, word: nat) {
    forall u: nat, w: nat, j: nat | u < |tasks| && w < VA_PAGES && j < 512 ::
      Load(ram', tasks[u].ttbr0, w, j) ==
      if u == t && w == v && j == i then Loaded.Word(word) else Load(ram, tasks[u].ttbr0, w, j)
  }

  /** A store through one task's map changes one word that no other translation reaches. */
  lemma StoreIsolated(ram: Ram, role: map<nat, Role>, tasks: seq<Task>, clean: set<nat>, t: nat, v: nat, i: nat,
                      word: nat, pa: nat)
    requires TablesOk(ram, role) && TasksOk(ram, role, tasks, clean)
    requires t < |tasks| && v < VA_PAGES && i < 512
    requires Walk(ram, tasks[t].ttbr0, v) == Page(pa, true) && PageOk(ram, pa)
    ensures TablesOk(PageTable.Store(ram, pa, i, word), role)
    ensures TasksOk(PageTable.Store(ram, pa, i, word), role, tasks, clean)
    ensures StoreSeen(ram, PageTable.Store(ram, pa, i, word), tasks, t, v, i, word)
  {
    hide TablesOk, Walk, TasksOk;
    RootsHeld(ram, role, tasks, clean);
    WalkOwned(ram, role, tasks[t].ttbr0, v);
    UserStoreOk(ram, role, pa, i, word);
    var ram' := PageTable.Store(ram, pa, i, word);
    KeptTasks(ram, role, ram', role, tasks, clean);
    forall u: nat, w: nat, j: nat | u < |tasks| && w < VA_PAGES && j < 512
      ensures Load(ram', tasks[u].ttbr0, w, j) ==
              if u == t && w == v && j == i then Loaded.Word(word) else Load(ram, tasks[u].ttbr0, w, j)
    {
      WalkOwned(ram, role, tasks[u].ttbr0, w);
      assert Walk(ram', tasks[u].ttbr0, w) == Walk(ram, tasks[u].ttbr0, w);
      if tasks[t].ttbr0 == tasks[u].ttbr0 {
        DistinctRoots(ram, role, tasks, clean, t, u);
      }
    }
  }

  lemma DistinctRoots(ram: Ram, role: map<nat, Role>, tasks: seq<Task>, clean: set<nat>, t: nat, u: nat)
    requires TasksOk(ram, role, tasks, clean) && t < |tasks| && u < |tasks| && tasks[t].ttbr0 == tasks[u].ttbr0
    ensures t == u
  {
  }

  /** The content of a user page is nothing to the walks. */
  lemma UserStoreOk(ram: Ram, role: map<nat, Role>, pa: nat, i: nat, word: nat)
    requires TablesOk(ram, role) && IsUser(role, pa) && i < 512
    ensures pa in ram && |ram[pa]| == 512
    ensures TablesOk(PageTable.Store(ram, pa, i, word), role)
    ensures forall root :: Holds(role, root, L1) ==> SameWalks(ram, PageTable.Store(ram, pa, i, word), root)
  {
    var ram' := PageTable.Store(ram, pa, i, word);
    forall p | p in role
      ensures PageOk(ram', p) && TableOk(ram', role, p)
    {
      assert TableOk(ram, role, p);
    }
    forall root, v: nat | Holds(role, root, L1) && v < VA_PAGES
      ensures LeafWord(ram', root, v) == LeafWord(ram, root, v)
    {
      LeafFrame(ram, ram', role, root, v);
    }
    SameTranslations(ram, role, ram', role);
  }

  ghost predicate IsUser(role: map<nat, Role>, p: nat) {
    p in role && role[p].User?
  }
}
