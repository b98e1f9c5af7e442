/** Address spaces of user tasks: exec, fork, sbrk and the isolation they keep. */
module UserTasks {
  import opened PageAllocator
  import opened PageTable
  import opened AddressSpaces
  import opened TaskMemory

  class Tasks {
    const mmu: Mmu
    const maxTasks: nat
    var tasks: seq<Task>
    /** Tasks that were exec'd within 512 code pages and only ever grew their heap, successfully. */
    ghost var clean: set<nat>

    ghost predicate Valid()
      reads this, mmu, mmu.pmm, mmu.pmm.bitmap
    {
      && mmu.Valid()
      && |tasks| <= maxTasks
      && TasksOk(mmu.ram, mmu.role, tasks, clean)
    }

    constructor (mmu: Mmu, maxTasks: nat)
      requires mmu.Valid()
      ensures Valid() && this.mmu == mmu && this.maxTasks == maxTasks && tasks == [] && clean == {}
    {
      this.mmu, this.maxTasks, this.tasks, this.clean := mmu, maxTasks, [], {};
    }

    /** `pmm_alloc_pages`, seen by address. */
    method NewPages(n: nat) returns (base: nat)
      requires mmu.Valid() && 0 < n
      modifies mmu.pmm, mmu.pmm.bitmap
      ensures mmu.Valid()
      ensures base == 0 <==> NoRun(old(mmu.pmm.Free()), n)
      ensures base != 0 ==> Took(old(mmu.pmm.Free()), mmu.pmm.Free(), n)
      ensures base == 0 ==> mmu.pmm.FreeAddrs() == old(mmu.pmm.FreeAddrs())
      ensures base != 0 ==>
        AddrRun(base, n) <= old(mmu.pmm.FreeAddrs()) &&
            mmu.pmm.FreeAddrs() == old(mmu.pmm.FreeAddrs()) - AddrRun(base, n)
      ensures base != 0 ==> mmu.Mappable(base, n) && InRam(base, n)
    {
      hide TablesOk, PageOk;
      ghost var free := mmu.pmm.Free();
      mmu.FreeIsOk();
      base := mmu.pmm.AllocPages(n);
      if base != 0 {
        ghost var s: nat :| IsLowestRun(free, s, n) && base == mmu.pmm.PageToAddr(s) &&
          mmu.pmm.Free() == free - Run(s, n);
        assert s + n - 1 in free;
        AddrsMinus(mmu.pmm.ramBase, free, Run(s, n));
        AddrsMinus(mmu.pmm.ramBase, Run(s, n), free);
        AddrsOfRun(mmu.pmm.ramBase, s, n);
        assert Run(s, n) <= free;
      }
    }

    /** The `n` pages from `base` are pages of RAM. */
    ghost predicate InRam(base: nat, n: nat) {
      exists s: nat :: s + n <= mmu.pmm.total && base == mmu.pmm.PageToAddr(s)
    }

    method FreeRun(base: nat, n: nat)
      requires mmu.Valid() && InRam(base, n) && AddrRun(base, n) !! mmu.role.Keys
      modifies mmu.pmm, mmu.pmm.bitmap
      ensures mmu.Valid() && mmu.pmm.FreeAddrs() == old(mmu.pmm.FreeAddrs()) + AddrRun(base, n)
    {
      ghost var s: nat :| s + n <= mmu.pmm.total && base == mmu.pmm.PageToAddr(s);
      ghost var free := mmu.pmm.Free();
      mmu.pmm.FreePages(base, n);
      mmu.pmm.CoveredRun(s, n);
      AddrsMinus(mmu.pmm.ramBase, free, Run(s, n));
      AddrsOfRun(mmu.pmm.ramBase, s, n);
    }

    /** Copies a program image to `n` fresh pages, zero-filling the rest. */
    method CopyImage(base: nat, n: nat, image: seq<nat>)
      requires mmu.Valid() && mmu.Mappable(base, n)
      modifies mmu`ram
      ensures mmu.Valid()
      ensures mmu.ram == ImageStored(old(mmu.ram), base, n, image)
    {
      ghost var ram := mmu.ram;
      for p := 0 to n
        invariant mmu.ram == ImageStored(ram, base, p, image)
      {
        mmu.ram := mmu.ram[PageAddr(base, p) := ImagePage(image, p)];
      }
      LoadedPages(ram, base, n, image);
      OutsideTables(ram, mmu.ram, mmu.role);
    }

    /** Copies `n` pages to fresh ones. */
    method CopyPages(src: nat, dst: nat, n: nat)
      requires mmu.Valid() && mmu.Mappable(dst, n)
      requires forall p: nat | p < n :: PageOk(mmu.ram, PageAddr(src, p))
      requires AddrRun(dst, n) !! AddrRun(src, n)
      modifies mmu`ram
      ensures mmu.Valid()
      ensures mmu.ram == Copied(old(mmu.ram), src, dst, n) && PagesStay(old(mmu.ram), mmu.ram)
    {
      ghost var ram := mmu.ram;
      for p := 0 to n
        invariant mmu.ram == Copied(ram, src, dst, p)
      {
        InAddrRun(src, n, p);
        AddrRunGrows(dst, p, n);
        CopiedPages(ram, src, dst, p);
        mmu.ram := mmu.ram[PageAddr(dst, p) := mmu.ram[PageAddr(src, p)]];
      }
      CopiedPages(ram, src, dst, n);
      CopiedOk(ram, src, dst, n);
      OutsideTables(ram, mmu.ram, mmu.role);
    }

    /**
     * The page tables of a new task, its stack above the guard page of `salloc`; both runs are freed when the
     * tables cannot be built.
     */
    method NewSpace(code: nat, n: nat, salloc: nat) returns (pgd: nat)
      requires Valid()
      requires mmu.Mappable(code, n) && mmu.Mappable(salloc, STACK_PAGES + 1)
      requires AddrRun(code, n) !! AddrRun(salloc, STACK_PAGES + 1)
      requires InRam(code, n) && InRam(salloc, STACK_PAGES + 1)
      modifies mmu, mmu.pmm, mmu.pmm.bitmap
      ensures Valid()
      ensures KeepsUsed(old(mmu.ram), old(mmu.pmm.FreeAddrs()), mmu.ram)
      ensures Extends(old(mmu.role), mmu.role)
      ensures pgd == 0 <==> old(mmu.pmm.freePages) < 4
      ensures pgd == 0 ==> mmu.role == old(mmu.role)
      ensures pgd != 0 ==>
        NewTree(old(mmu.role), old(mmu.pmm.FreeAddrs()), mmu.ram, mmu.role, pgd, code, n, salloc + 4096)
    {
      AddrRunTail(salloc, STACK_PAGES);
      ghost var ram0, role0, free0 := mmu.ram, mmu.role, mmu.pmm.FreeAddrs();
      pgd := mmu.CreateUserPgd(code, n, salloc + 4096);
      TasksSurvive(ram0, role0, free0, mmu.ram, mmu.role, tasks, clean);
      if pgd == 0 {
        FreeRun(code, n);
        FreeRun(salloc, STACK_PAGES + 1);
      }
    }

    /** Fills the next task slot. */
    method AddTask(task: Task, ghost role0: map<nat, Role>, ghost free0: set<nat>)
      requires Valid() && |tasks| < maxTasks && 0 < task.codePages < 0x10_0005 && task.heapBreak < 0x2_0000_0000
      requires NewTree(role0, free0, mmu.ram, mmu.role, task.ttbr0, task.codePa, task.codePages, task.stackPa)
      requires forall t | 0 <= t < |tasks| :: Holds(role0, tasks[t].ttbr0, L1)
      requires role0.Keys !! free0
      modifies `tasks
      ensures Valid()
      ensures tasks == old(tasks) + [task]
      ensures forall v: nat | v < VA_PAGES ::
        mmu.Translate(task.ttbr0, v) == FreshMap(task.codePa, task.codePages, task.stackPa, v)
      ensures task.heapBreak == 4096 * (CODE_PAGE + task.codePages) ==>
        (Exact(mmu.ram, task) <==> task.codePages <= 512)
    {
      FreshTaskOk(mmu.ram, role0, free0, mmu.role, task);
      tasks := tasks + [task];
    }

    /** Pages allocated for a task under construction. */
    ghost predicate Reserved(base: nat, n: nat)
      reads mmu, mmu.pmm.bitmap
    {
      mmu.Mappable(base, n) && InRam(base, n) && AddrRun(base, n) !! mmu.pmm.FreeAddrs()
    }

    /** Fresh code pages holding the image; 0 when there is no run of `n` pages. */
    method LoadCode(image: seq<nat>, n: nat) returns (code: nat)
      requires Valid() && 0 < n
      modifies mmu`ram, mmu.pmm, mmu.pmm.bitmap
      ensures Valid() && mmu.pmm.FreeAddrs() <= old(mmu.pmm.FreeAddrs())
      ensures code == 0 <==> NoRun(old(mmu.pmm.Free()), n)
      ensures code != 0 ==> Took(old(mmu.pmm.Free()), mmu.pmm.Free(), n)
      ensures code == 0 ==> mmu.ram == old(mmu.ram)
      ensures code != 0 ==> Reserved(code, n) && mmu.ram == ImageStored(old(mmu.ram), code, n, image)
      ensures code != 0 ==> AddrRun(code, n) <= old(mmu.pmm.FreeAddrs())
      ensures KeepsUsed(old(mmu.ram), old(mmu.pmm.FreeAddrs()), mmu.ram)
    {
      hide TasksOk;
      code := NewPages(n);
      if code != 0 {
        CopyImage(code, n, image);
        LoadedPages(old(mmu.ram), code, n, image);
        TasksSurvive(old(mmu.ram), mmu.role, old(mmu.pmm.FreeAddrs()), mmu.ram, mmu.role, tasks, clean);
      }
    }

    /** The stack pages with their guard below; without them the code pages go back. */
    method NewStack(code: nat, n: nat) returns (salloc: nat)
      requires Valid() && Reserved(code, n)
      modifies mmu.pmm, mmu.pmm.bitmap
      ensures Valid()
      ensures salloc == 0 <==> NoRun(old(mmu.pmm.Free()), STACK_PAGES + 1)
      ensures salloc != 0 ==> Took(old(mmu.pmm.Free()), mmu.pmm.Free(), STACK_PAGES + 1)
      ensures salloc != 0 ==> Reserved(code, n) && Reserved(salloc, STACK_PAGES + 1)
      ensures salloc != 0 ==>
        AddrRun(salloc, STACK_PAGES + 1) <= old(mmu.pmm.FreeAddrs()) && mmu.pmm.FreeAddrs() <= old(mmu.pmm.FreeAddrs())
      ensures salloc != 0 ==> AddrRun(code, n) !! AddrRun(salloc, STACK_PAGES + 1)
    {
      hide TasksOk, TablesOk;
      salloc := NewPages(STACK_PAGES + 1);
      if salloc == 0 {
        FreeRun(code, n);
      }
    }

    /** Page tables and a task slot: the common end of exec and fork. */
    method Launch(code: nat, n: nat, salloc: nat, heapBreak: nat, parent: int) returns (tid: int)
      requires Valid() && |tasks| < maxTasks && 0 < n < 0x10_0005 && heapBreak < 0x2_0000_0000
      requires Reserved(code, n) && Reserved(salloc, STACK_PAGES + 1)
      requires AddrRun(code, n) !! AddrRun(salloc, STACK_PAGES + 1)
      modifies `tasks, mmu, mmu.pmm, mmu.pmm.bitmap
      ensures Valid()
      ensures KeepsUsed(old(mmu.ram), old(mmu.pmm.FreeAddrs()), mmu.ram)
      ensures Extends(old(mmu.role), mmu.role)
      ensures tid == -1 <==> old(mmu.pmm.freePages) < 4
      ensures tid == -1 ==> tasks == old(tasks)
      ensures tid != -1 ==> tid == |old(tasks)| && |tasks| == |old(tasks)| + 1 && tasks[..|old(tasks)|] == old(tasks)
      ensures tid != -1 ==> tasks[|old(tasks)|].codePa == code && tasks[|old(tasks)|].stackPa == salloc + 4096
      ensures tid != -1 ==> LaunchedAs(tasks[|old(tasks)|], code, n, salloc + 4096, heapBreak, parent)
    {
      hide TablesOk, TasksOk, Exact, KeepsUsed, NewTree, PageOk;
      ghost var role0, free0 := mmu.role, mmu.pmm.FreeAddrs();
      RootsHeld(mmu.ram, mmu.role, tasks, clean);
      var pgd := NewSpace(code, n, salloc);
      if pgd == 0 {
        return -1;
      }
      tid := |tasks|;
      AddTask(Task(pgd, code, n, salloc + 4096, heapBreak, parent), role0, free0);
    }

    /** The task has these fields and maps its code and its stack, nothing else. */
    ghost predicate LaunchedAs(task: Task, code: nat, n: nat, stack: nat, heapBreak: nat, parent: int)
      reads mmu
    {
      && task == Task(task.ttbr0, code, n, stack, heapBreak, parent)
      && (forall v: nat | v < VA_PAGES :: mmu.Translate(task.ttbr0, v) == FreshMap(code, n, stack, v))
      && (heapBreak == 4096 * (CODE_PAGE + n) ==> (Exact(mmu.ram, task) <==> n <= 512))
    }

    lemma LaunchedExact(task: Task, code: nat, n: nat, stack: nat, parent: int)
      requires LaunchedAs(task, code, n, stack, 4096 * (CODE_PAGE + n), parent) && n <= 512
      ensures Exact(mmu.ram, task)
    {
    }

    /** `sched_create_user`: a task from a program image, or -1. */
    method Exec(image: seq<nat>, codeSize: nat) returns (tid: int)
      requires Valid() && codeSize < 0xffff_f000  // the image lies in RAM
      requires |image| == (codeSize + 7) / 8  // its last word is filled with zero bytes
      modifies this, mmu, mmu.pmm, mmu.pmm.bitmap
      ensures Valid()
      ensures KeepsUsed(old(mmu.ram), old(mmu.pmm.FreeAddrs()), mmu.ram)
      ensures Extends(old(mmu.role), mmu.role)
      ensures tid == -1 <==>
        |old(tasks)| >= maxTasks || !RoomForTask(old(mmu.pmm.Free()), CodePages(codeSize), STACK_PAGES + 1)
      ensures tid == -1 ==> tasks == old(tasks) && clean == old(clean)
      ensures tid != -1 ==> tid == |old(tasks)| && |tasks| == |old(tasks)| + 1 && tasks[..|old(tasks)|] == old(tasks)
      ensures tid != -1 ==> Execed(tasks[|old(tasks)|], image, codeSize)
      ensures tid != -1 ==> clean == old(clean) + (if CodePages(codeSize) <= 512 then {|old(tasks)|} else {})
    {
      hide TablesOk, TasksOk, KeepsUsed, PageOk, HasImage, Mmu.Mappable, Tasks.InRam, Tasks.LaunchedAs, CodePages;
      hide NoRun, Took, RoomForTask, FreeSet;
      ghost var ram0, free0 := mmu.ram, mmu.pmm.FreeAddrs();
      ghost var pages0 := mmu.pmm.Free();
      KeepsUsedReflexive(ram0, free0);
      if |tasks| >= maxTasks {
        return -1;
      }
      var codePages := CodePages(codeSize);
      var code := LoadCode(image, codePages);
      if code == 0 {
        NoCodeRun(pages0, codePages, STACK_PAGES + 1);
        return -1;
      }
      ghost var ram1, pages1 := mmu.ram, mmu.pmm.Free();
      var salloc := NewStack(code, codePages);
      if salloc == 0 {
        NoStackRun(pages0, pages1, codePages, STACK_PAGES + 1);
        return -1;
      }
      RoomLeft(pages0, pages1, mmu.pmm.Free(), codePages, STACK_PAGES + 1);
      ghost var free2, n := mmu.pmm.FreeAddrs(), |tasks|;
      tid := Launch(code, codePages, salloc, 4096 * (CODE_PAGE + codePages), -1);
      KeepsUsedTransitive(ram0, free0, ram1, free2, mmu.ram);
      LoadedStays(ram0, code, codePages, image, free2, mmu.ram);
      if tid != -1 && codePages <= 512 {
        LaunchedExact(tasks[n], code, codePages, salloc + 4096, -1);
        CleanGrows(mmu.ram, mmu.role, tasks, clean, n);
        clean := clean + {n};
      }
    }

    /** The task was launched with its image in its code pages and its break right after them. */
    ghost predicate Execed(task: Task, image: seq<nat>, codeSize: nat)
      reads mmu
    {
      && LaunchedAs(task, task.codePa, CodePages(codeSize), task.stackPa, 4096 * (CODE_PAGE + CodePages(codeSize)), -1)
      && HasImage(mmu.ram, task.codePa, CodePages(codeSize), image)
    }

    /** Fresh pages with the content of `n` pages of a task; 0 when there is no run of `n` pages. */
    method CopyCode(task: Task) returns (code: nat)
      requires Valid() && task in tasks
      modifies mmu`ram, mmu.pmm, mmu.pmm.bitmap
      ensures Valid() && mmu.pmm.FreeAddrs() <= old(mmu.pmm.FreeAddrs())
      ensures code == 0 <==> NoRun(old(mmu.pmm.Free()), task.codePages)
      ensures code != 0 ==> Took(old(mmu.pmm.Free()), mmu.pmm.Free(), task.codePages)
      ensures code == 0 ==> mmu.ram == old(mmu.ram)
      ensures code != 0 ==> Reserved(code, task.codePages)
      ensures code != 0 ==> HasCopy(mmu.ram, code, task.codePages, old(mmu.ram), task.codePa)
      ensures KeepsUsed(old(mmu.ram), old(mmu.pmm.FreeAddrs()), mmu.ram)
    {
      hide TasksOk, TablesOk, PageOk;
      TaskPages(mmu.ram, mmu.role, tasks, clean, task);
      code := NewPages(task.codePages);
      if code != 0 {
        CopyPages(task.codePa, code, task.codePages);
        CopiedPages(old(mmu.ram), task.codePa, code, task.codePages);
        TasksSurvive(old(mmu.ram), mmu.role, old(mmu.pmm.FreeAddrs()), mmu.ram, mmu.role, tasks, clean);
      }
    }

    /** Copies a task's stack to fresh stack pages. */
    method CopyStack(task: Task, salloc: nat)
      requires Valid() && task in tasks && Reserved(salloc, STACK_PAGES + 1)
      modifies mmu`ram
      ensures Valid() && Reserved(salloc, STACK_PAGES + 1)
      ensures HasCopy(mmu.ram, salloc + 4096, STACK_PAGES, old(mmu.ram), task.stackPa)
      ensures KeepsUsed(old(mmu.ram), AddrRun(salloc, STACK_PAGES + 1), mmu.ram)
      ensures forall base, n :: old(Reserved(base, n)) ==> Reserved(base, n)
    {
      hide TasksOk, TablesOk, PageOk;
      ghost var run := AddrRun(salloc, STACK_PAGES + 1);
      TaskPages(mmu.ram, mmu.role, tasks, clean, task);
      AddrRunTail(salloc, STACK_PAGES);
      CopyPages(task.stackPa, salloc + 4096, STACK_PAGES);
      CopiedPages(old(mmu.ram), task.stackPa, salloc + 4096, STACK_PAGES);
      TasksSurvive(old(mmu.ram), mmu.role, run, mmu.ram, mmu.role, tasks, clean);
    }

    /** `sched_fork`: the child gets copies of the code and the stack pages, the parent's break, and no heap pages. */
    method Fork(p: nat) returns (tid: int)
      requires Valid() && p < |tasks|
      modifies `tasks, mmu, mmu.pmm, mmu.pmm.bitmap
      ensures Valid()
      ensures KeepsUsed(old(mmu.ram), old(mmu.pmm.FreeAddrs()), mmu.ram)
      ensures Extends(old(mmu.role), mmu.role)
      ensures tid == -1 <==>
        |old(tasks)| >= maxTasks || !RoomForTask(old(mmu.pmm.Free()), old(tasks)[p].codePages, STACK_PAGES + 1)
      ensures tid == -1 ==> tasks == old(tasks)
      ensures tid != -1 ==> tid == |old(tasks)| && |tasks| == |old(tasks)| + 1 && tasks[..|old(tasks)|] == old(tasks)
      ensures tid != -1 ==> Forked(old(mmu.ram), old(tasks)[p], p, tasks[|old(tasks)|])
    {
      hide TablesOk, TasksOk, KeepsUsed, PageOk, HasCopy, Mmu.Mappable, Tasks.InRam, Tasks.LaunchedAs;
      hide NoRun, Took, RoomForTask, FreeSet;
      ghost var ram0, free0 := mmu.ram, mmu.pmm.FreeAddrs();
      ghost var pages0 := mmu.pmm.Free();
      var parent := tasks[p];
      TaskRuns(parent);
      KeepsUsedReflexive(ram0, free0);
      if |tasks| >= maxTasks {
        return -1;
      }
      var code := CopyCode(parent);
      if code == 0 {
        NoCodeRun(pages0, parent.codePages, STACK_PAGES + 1);
        return -1;
      }
      ghost var ram1, pages1 := mmu.ram, mmu.pmm.Free();
      var salloc := NewStack(code, parent.codePages);
      if salloc == 0 {
        NoStackRun(pages0, pages1, parent.codePages, STACK_PAGES + 1);
        return -1;
      }
      RoomLeft(pages0, pages1, mmu.pmm.Free(), parent.codePages, STACK_PAGES + 1);
      ghost var free2, run := mmu.pmm.FreeAddrs(), AddrRun(salloc, STACK_PAGES + 1);
      CopyStack(parent, salloc);
      ghost var ram3 := mmu.ram;
      tid := Launch(code, parent.codePages, salloc, parent.heapBreak, p);
      AddrRunTail(salloc, STACK_PAGES);
      KeepsUsedTransitive(ram0, free0, ram1, run, ram3);
      KeepsUsedTransitive(ram0, free0, ram3, free2, mmu.ram);
      ForkCopies(ram0, free0, ram1, run, ram3, free2, mmu.ram, parent, code, salloc + 4096);
    }

    lemma TaskRuns(task: Task)
      requires Valid() && task in tasks
      ensures AddrRun(task.codePa, task.codePages) !! mmu.pmm.FreeAddrs()
      ensures AddrRun(task.stackPa, STACK_PAGES) !! mmu.pmm.FreeAddrs()
      ensures 0 < task.codePages < 0x10_0005 && task.heapBreak < 0x2_0000_0000
      ensures forall p: nat | p < STACK_PAGES :: PageAddr(task.stackPa, p) in mmu.ram
    {
      TaskPages(mmu.ram, mmu.role, tasks, clean, task);
    }

    /** The child's code and stack pages hold what the parent's held. */
    ghost predicate Forked(ram0: Ram, parent: Task, p: nat, child: Task)
      reads mmu
    {
      && LaunchedAs(child, child.codePa, parent.codePages, child.stackPa, parent.heapBreak, p)
      && HasCopy(mmu.ram, child.codePa, parent.codePages, ram0, parent.codePa)
      && HasCopy(mmu.ram, child.stackPa, STACK_PAGES, ram0, parent.stackPa)
    }

    /** One round of the sbrk loop: a zeroed page, mapped at `va`; on failure nothing is mapped. */
    method MapFresh(root: nat, va: nat) returns (ok: bool)
      requires mmu.Valid() && Holds(mmu.role, root, L1) && va / 4096 < VA_PAGES
      modifies mmu, mmu.pmm, mmu.pmm.bitmap
      ensures mmu.Valid()
      ensures Grows(old(mmu.ram), old(mmu.role), old(mmu.pmm.FreeAddrs()), mmu.ram, mmu.role, mmu.pmm.FreeAddrs())
      ensures !ok ==> mmu.pmm.freePages <= 1
      ensures ok ==>
        FreshZero(mmu.ram, old(mmu.pmm.FreeAddrs()), mmu.Translate(root, va / 4096)) &&
            IsUser(mmu.role, mmu.Translate(root, va / 4096).pa)
      ensures forall r, v: nat ::
        Holds(old(mmu.role), r, L1) && v < VA_PAGES && !(ok && r == root && v == va / 4096) ==>
        Walk(mmu.ram, r, v) == Walk(old(mmu.ram), r, v)
    {
      hide TablesOk, PageOk, Walk, Grows;
      ghost var ram0, role0, free0 := mmu.ram, mmu.role, mmu.pmm.FreeAddrs();
      GrowsReflexive(ram0, role0, free0);
      var pa := mmu.NewZeroPage();
      if pa == 0 {
        return false;
      }
      ghost var ram1, free1 := mmu.ram, mmu.pmm.FreeAddrs();
      assert free1 + {pa} == free0;
      KeptWalks(ram0, role0, free0, ram1, role0);
      GrowsFresh(ram0, role0, free0, pa);
      var r := mmu.MapUserPage(root, va, pa);
      GrowsTransitive(ram0, role0, free0, ram1, role0, free0, mmu.ram, mmu.role, mmu.pmm.FreeAddrs());
      if r < 0 {
        GrowsBack(ram0, role0, free0, mmu.ram, mmu.role, mmu.pmm.FreeAddrs(), pa);
        mmu.FreePage(pa);
        return false;
      }
      return true;
    }

    /** The sbrk loop over the virtual pages `f` to `e`: stops at the first page it cannot map. */
    method GrowHeap(t: nat, f: nat, e: nat) returns (failed: bool, ghost x: nat)
      requires Valid() && t < |tasks| && t !in clean && f <= e <= GUARD_PAGE
      modifies mmu, mmu.pmm, mmu.pmm.bitmap
      ensures Valid()
      ensures Grows(old(mmu.ram), old(mmu.role), old(mmu.pmm.FreeAddrs()), mmu.ram, mmu.role, mmu.pmm.FreeAddrs())
      ensures f <= x <= e && (!failed ==> x == e) && (failed ==> x < e && mmu.pmm.freePages <= 1)
      ensures HeapMapped(old(mmu.ram), old(mmu.pmm.FreeAddrs()), mmu.ram, tasks[t].ttbr0, f, x)
      ensures forall u | 0 <= u < |tasks| && u != t :: SameWalks(old(mmu.ram), mmu.ram, tasks[u].ttbr0)
    {
      hide TablesOk, PageOk, Walk, Grows, TasksOk;
      ghost var ram0, role0, free0 := mmu.ram, mmu.role, mmu.pmm.FreeAddrs();
      GrowsReflexive(ram0, role0, free0);
      x := f;
      var va := 4096 * f;
      while va < 4096 * e
        invariant Valid()
        invariant f <= x <= e && va == 4096 * x
        invariant Grows(ram0, role0, free0, mmu.ram, mmu.role, mmu.pmm.FreeAddrs())
        invariant HeapMapped(ram0, free0, mmu.ram, tasks[t].ttbr0, f, x)
        invariant forall u | 0 <= u < |tasks| && u != t :: SameWalks(ram0, mmu.ram, tasks[u].ttbr0)
      {
        ghost var ram1, role1, free1 := mmu.ram, mmu.role, mmu.pmm.FreeAddrs();
        RootsHeld(ram1, role1, tasks, clean);
        var ok := MapFresh(tasks[t].ttbr0, va);
        GrowsTransitive(ram0, role0, free0, ram1, role1, free1, mmu.ram, mmu.role, mmu.pmm.FreeAddrs());
        assert va / 4096 == x;
        HeapStep(ram0, role0, free0, ram1, role1, free1, mmu.ram, mmu.role, mmu.pmm.FreeAddrs(), tasks, clean, t, f,
            x, ok);
        if !ok {
          return true, x;
        }
        va := va + 4096;
        x := x + 1;
      }
      failed := false;
    }

    /**
     * The SYS_SBRK arm; -1 is `UINT64 - 1`. Past the guard check it fails only with at most one page left. A
     * failed call may leave the lowest of the new pages mapped.
     */
    method Sbrk(t: nat, increment: nat) returns (r: nat)
      requires Valid() && t < |tasks| && increment < UINT64
      modifies this, mmu, mmu.pmm, mmu.pmm.bitmap
      ensures Valid()
      ensures Grows(old(mmu.ram), old(mmu.role), old(mmu.pmm.FreeAddrs()), mmu.ram, mmu.role, mmu.pmm.FreeAddrs())
      ensures forall u | 0 <= u < |tasks| && u != t :: SameWalks(old(mmu.ram), mmu.ram, tasks[u].ttbr0)
      ensures
        var break0 := old(tasks[t].heapBreak);
        var break1 := NewBreak(break0, increment);
        && (increment == 0 || break1 >= 4096 * GUARD_PAGE ==>
           tasks == old(tasks) && clean == old(clean) && mmu.ram == old(mmu.ram))
        && (increment == 0 ==> r == break0)
        && (increment != 0 && break1 >= 4096 * GUARD_PAGE ==> r == UINT64 - 1)
        && (increment != 0 && break1 < 4096 * GUARD_PAGE ==>
           SbrkDone(old(mmu.ram), old(mmu.pmm.FreeAddrs()), old(tasks), t, break0, break1, r))
        && (increment != 0 && break1 < 4096 * GUARD_PAGE && r == UINT64 - 1 ==> mmu.pmm.freePages <= 1)
        && clean - {t} == old(clean) - {t}
        && (t in old(clean) && r != UINT64 - 1 && break0 <= break1 ==> t in clean)
    {
      hide TablesOk, TasksOk, PageOk, Grows, HeapMapped, Mmu.Valid, AlignUp;
      ghost var ram0, clean0, tasks0 := mmu.ram, clean, tasks;
      RootsHeld(mmu.ram, mmu.role, tasks, clean);
      var oldBreak := tasks[t].heapBreak;
      GrowsReflexive(mmu.ram, mmu.role, mmu.pmm.FreeAddrs());
      if increment == 0 {
        return oldBreak;
      }
      var newBreak := NewBreak(oldBreak, increment);
      if newBreak >= 4096 * GUARD_PAGE {
        return UINT64 - 1;
      }
      var f, e := AlignUp(oldBreak) / 4096, AlignUp(newBreak) / 4096;
      AlignedBreaks(oldBreak, newBreak);
      CleanShrinks(mmu.ram, mmu.role, tasks, clean, t);
      clean := clean - {t};
      HeapMappedNone(mmu.ram, mmu.pmm.FreeAddrs(), tasks[t].ttbr0, f);
      if f < e {
        var failed;
        ghost var x;
        failed, x := GrowHeap(t, f, e);
        if failed {
          return UINT64 - 1;
        }
      }
      BreakMoves(mmu.ram, mmu.role, tasks, clean, t, newBreak);
      tasks := tasks[t := tasks[t].(heapBreak := newBreak)];
      if t in clean0 && oldBreak <= newBreak {
        GrownExact(ram0, old(mmu.pmm.FreeAddrs()), mmu.ram, tasks0, clean0, old(mmu.role), t, newBreak);
        CleanGrows(mmu.ram, mmu.role, tasks, clean, t);
        clean := clean + {t};
      }
      r := oldBreak;
    }

    /** What a call that passed the guard check did. */
    ghost predicate SbrkDone(ram0: Ram, free0: set<nat>, tasks0: seq<Task>, t: nat, break0: nat, break1: nat, r: nat)
      requires t < |tasks0|
      reads this, mmu
    {
      var f, e := AlignUp(break0) / 4096, AlignUp(break1) / 4096;
      if r == UINT64 - 1 then
        tasks == tasks0 && exists x :: f <= x <= e && HeapMapped(ram0, free0, mmu.ram, tasks0[t].ttbr0, f, x)
      else
        && r == break0 && tasks == tasks0[t := tasks0[t].(heapBreak := break1)]
        && HeapMapped(ram0, free0, mmu.ram, tasks0[t].ttbr0, f, if f <= e then e else f)
    }

    /** A store by task `t` to word `i` of its virtual page `v`: a fault where nothing is mapped. */
    method UserStore(t: nat, v: nat, i: nat, word: nat) returns (ok: bool)
      requires Valid() && t < |tasks| && v < VA_PAGES && i < 512
      modifies mmu`ram
      ensures Valid()
      ensures ok <==> Walk(old(mmu.ram), tasks[t].ttbr0, v).Page?
      ensures !ok ==> mmu.ram == old(mmu.ram)
      ensures ok ==> StoreSeen(old(mmu.ram), mmu.ram, tasks, t, v, i, word)
    {
      hide TasksOk, Walk;
      var x := mmu.Translate(tasks[t].ttbr0, v);
      RootsHeld(mmu.ram, mmu.role, tasks, clean);
      WalkOwned(mmu.ram, mmu.role, tasks[t].ttbr0, v);
      if !x.Page? {
        return false;
      }
      StoreIsolated(mmu.ram, mmu.role, tasks, clean, t, v, i, word, x.pa);
      mmu.ram := PageTable.Store(mmu.ram, x.pa, i, word);
      return true;
    }

    /** One call, or -1 for one that names no task or cannot be made. */
    method Perform(op: Op) returns (r: int)
      requires Valid()
      modifies this, mmu, mmu.pmm, mmu.pmm.bitmap
      ensures Valid() && ExactAfter(old(clean), op, r) <= clean
    {
      hide TasksOk, Mmu.Valid, CodePages, RoomForTask;
      r := -1;
      match op
      case Exec(image, codeSize) =>
        if codeSize < 0xffff_f000 && |image| == (codeSize + 7) / 8 {
          r := Exec(image, codeSize);
        }
      case Fork(t) =>
        if t < |tasks| {
          r := Fork(t);
        }
      case Sbrk(t, increment) =>
        if t < |tasks| && increment < UINT64 {
          ghost var clean0, break0 := clean, tasks[t].heapBreak;
          TaskRuns(tasks[t]);
          var x := Sbrk(t, increment);
          r := if x == UINT64 - 1 then -1 else x;
          assert clean0 - {t} <= clean;
          assert x != UINT64 - 1 ==> x == break0 && break0 < UINT64;
        }
      case Store(t, v, i, word) =>
        if t < |tasks| && v < VA_PAGES && i < 512 {
          var ok := UserStore(t, v, i, word);
          r := if ok then 0 else -1;
        }
    }

    /**
     * Any run of execs, forks, sbrks and user stores, succeeding or failing, leaves the tasks isolated; and
     * a task exec'd within 512 code pages whose sbrks all succeeded without lowering its break maps exactly
     * its code start up to its rounded-up break, and its stack.
     */
    method RunAll(ops: seq<Op>) returns (results: seq<int>)
      requires Valid()
      modifies this, mmu, mmu.pmm, mmu.pmm.bitmap
      ensures Valid() && |results| == |ops|
      ensures Isolated(mmu.ram, tasks)
      ensures forall t | t in ExactTasks(ops, results) :: t < |tasks| && Exact(mmu.ram, tasks[t])
      ensures forall t, v: nat | 0 <= t < |tasks| && v < VA_PAGES && Walk(mmu.ram, tasks[t].ttbr0, v).Page? ::
        Walk(mmu.ram, tasks[t].ttbr0, v).pa !in mmu.pmm.FreeAddrs()
    {
      results := [];
      for k := 0 to |ops|
        invariant Valid() && |results| == k && ExactTasks(ops[..k], results) <= clean
      {
        ghost var clean0 := clean;
        var r := Perform(ops[k]);
        ExactMore(ops, results, k, r);
        ExactMonotone(ExactTasks(ops[..k], results), clean0, ops[k], r);
        results := results + [r];
      }
      assert ops[..|ops|] == ops;
      Isolation(mmu.ram, mmu.role, tasks, clean);
      forall t, v: nat | 0 <= t < |tasks| && v < VA_PAGES && Walk(mmu.ram, tasks[t].ttbr0, v).Page?
        ensures Walk(mmu.ram, tasks[t].ttbr0, v).pa !in mmu.pmm.FreeAddrs()
      {
        RootsHeld(mmu.ram, mmu.role, tasks, clean);
        WalkOwned(mmu.ram, mmu.role, tasks[t].ttbr0, v);
      }
    }
  }
}
