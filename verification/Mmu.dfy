/** The construction of user page tables in physical memory. */
module AddressSpaces {
  import opened Common
  import opened PageAllocator
  import opened PageTable

  /** USER_VA_CODE, USER_VA_STACK and the guard page below the stack, as virtual page numbers. */
  const CODE_PAGE: nat := 0x400
  const STACK_TOP: nat := 0x800
  const STACK_PAGES: nat := 4
  const GUARD_PAGE: nat := STACK_TOP - STACK_PAGES - 1

  /** The last of the pages 0..n-1 that lands in slot `k` of a 512-entry table, -1 if none does. */
  ghost function LastFor(k: nat, n: nat): (p: int)
    ensures p == -1 || (0 <= p < n && p % 512 == k)
  {
    if n == 0 then -1 else if (n - 1) % 512 == k then n - 1 else LastFor(k, n - 1)
  }

  lemma {:induction false} LastForExists(k: nat, n: nat)
    requires k < 512
    ensures LastFor(k, n) != -1 <==> k < n
    ensures n <= 512 && k < n ==> LastFor(k, n) == k
  {
    if n != 0 {
      LastForExists(k, n - 1);
    }
  }

  /** What a fresh task's tables map: `n` code pages from `code` and the stack from `stack`. */
  ghost function FreshMap(code: nat, n: nat, stack: nat, v: nat): Translation {
    if CODE_PAGE <= v < CODE_PAGE + 512 && LastFor(v % 512, n) != -1 then
      Page(PageAddr(code, LastFor(v % 512, n)), true)
    else if STACK_TOP - STACK_PAGES <= v < STACK_TOP then
      Page(PageAddr(stack, v - (STACK_TOP - STACK_PAGES)), true)
    else Fault
  }

  /**
   * One allocation-only step: pages leave the free set, roles are only added, and only tables and fresh pages
   * are written.
   */
  ghost predicate Grows(ram: Ram, role: map<nat, Role>, free: set<nat>, ram': Ram, role': map<nat, Role>,
                        free': set<nat>) {
    && free' <= free
    && (forall p | p in role :: Holds(role', p, role[p]))
    && (forall p | p in role' && p !in role :: p in free && p !in free')
    && (forall p | p in ram :: p in ram' && (ram'[p] == ram[p] || p in free || (p in role && !role[p].User?)))
  }

  lemma GrowsTransitive(ram: Ram, role: map<nat, Role>, free: set<nat>, ram1: Ram, role1: map<nat, Role>,
                        free1: set<nat>,
                        ram2: Ram, role2: map<nat, Role>, free2: set<nat>)
    requires Grows(ram, role, free, ram1, role1, free1) && Grows(ram1, role1, free1, ram2, role2, free2)
    ensures Grows(ram, role, free, ram2, role2, free2)
  {
  }

  /** A page in use and without a role keeps its content and stays so. */
  lemma GrowsKeeps(ram: Ram, role: map<nat, Role>, free: set<nat>, ram': Ram, role': map<nat, Role>, free': set<nat>,
                   pa: nat)
    requires Grows(ram, role, free, ram', role', free') && PageOk(ram, pa) && pa !in role && pa !in free
    ensures PageOk(ram', pa) && ram'[pa] == ram[pa] && pa !in role' && pa !in free'
  {
  }

  /** Pages in use keep their content. */
  ghost predicate KeepsUsed(ram: Ram, free: set<nat>, ram': Ram) {
    forall p | p in ram :: p in ram' && (ram'[p] == ram[p] || p in free)
  }

  /** The tables of a fresh task before the stack: `l3s` is 0, or linked next to the code table. */
  ghost predicate CodeTree(ram: Ram, root: nat, l2: nat, l3: nat, l3s: nat, code: nat, n: nat) {
    && PageOk(ram, root) && PageOk(ram, l2) && PageOk(ram, l3)
    && root != l2 && root != l3 && l2 != l3
    && (forall i | 0 <= i < 512 :: ram[root][i] == if i == 0 then TableEntry(l2) else 0)
    && (forall j | 0 <= j < 512 ::
       ram[l2][j] == if j == 2 then TableEntry(l3) else if j == 3 && l3s != 0 then TableEntry(l3s) else 0)
    && (forall k | 0 <= k < 512 :: ram[l3][k] == CodeWord(code, n, k))
  }

  lemma CodeLinked(ram: Ram, root: nat, l2: nat, l3: nat, code: nat, n: nat)
    requires PageOk(ram, root) && PageOk(ram, l2) && PageOk(ram, l3) && root != l2 && root != l3 && l2 != l3
    requires forall i | 0 <= i < 512 :: ram[root][i] == if i == 0 then TableEntry(l2) else 0
    requires ram[l2] == Zeros()
    requires forall k | 0 <= k < 512 :: ram[l3][k] == CodeWord(code, n, k)
    ensures CodeTree(Store(ram, l2, 2, TableEntry(l3)), root, l2, l3, 0, code, n)
  {
  }

  /** A new tree of fresh tables, its user pages given their roles. */
  ghost predicate Created(role: map<nat, Role>, free: set<nat>, ram: Ram, role': map<nat, Role>,
                          root: nat, l2: nat, l3: nat, l3s: nat, code: nat, n: nat, stack: nat) {
    && {root, l2, l3, l3s} <= free
    && RolesAdded(role, role', root, l2, l3, l3s, code, n, stack)
    && FreshTree(ram, root, l2, l3, l3s, code, n, stack)
  }

  /** `root` is the top of such a tree. */
  ghost predicate NewTree(role: map<nat, Role>, free: set<nat>, ram: Ram, role': map<nat, Role>, root: nat, code: nat,
                          n: nat, stack: nat) {
    exists l2, l3, l3s :: Created(role, free, ram, role', root, l2, l3, l3s, code, n, stack)
  }

  lemma GrowsMore(ram: Ram, role: map<nat, Role>, free: set<nat>, ram': Ram, role': map<nat, Role>, free': set<nat>,
                  pa: nat)
    requires Grows(ram, role, free, ram', role', free') && pa !in role'
    ensures Grows(ram, role, free + {pa}, ram', role', free' + {pa})
  {
  }

  /** Slot `k` of the code region's table after the pages 0..n-1 were entered. */
  ghost function CodeWord(code: nat, n: nat, k: nat): nat {
    if LastFor(k, n) == -1 then 0 else LeafEntry(PageAddr(code, LastFor(k, n)))
  }

  /** Slot `k` of the stack region's table after the lowest `n` stack pages were entered. */
  ghost function StackWord(stack: nat, n: nat, k: nat): nat {
    if 512 - STACK_PAGES <= k < 512 - STACK_PAGES + n then LeafEntry(PageAddr(stack, k - (512 - STACK_PAGES))) else 0
  }

  /** Entering page `n` of the code region overwrites one slot. */
  lemma CodeSlot(code: nat, n: nat)
    ensures (CODE_PAGE + n) % 512 == n % 512
    ensures forall k: nat | k < 512 ::
      CodeWord(code, n + 1, k) == if k == n % 512 then LeafEntry(PageAddr(code, n)) else CodeWord(code, n, k)
  {
    forall k: nat | k < 512
      ensures CodeWord(code, n + 1, k) == if k == n % 512 then LeafEntry(PageAddr(code, n)) else CodeWord(code, n, k)
    {
      assert LastFor(k, n + 1) == if n % 512 == k then n else LastFor(k, n);
    }
  }

  /** Stores outside the pages with a role leave every tree alone. */
  lemma OutsideTables(ram: Ram, ram': Ram, role: map<nat, Role>)
    requires TablesOk(ram, role)
    requires forall p | p in role :: p in ram' && ram'[p] == ram[p]
    ensures TablesOk(ram', role)
    ensures forall root, v: nat ::
      Holds(role, root, L1) && v < VA_PAGES ==> LeafWord(ram', root, v) == LeafWord(ram, root, v)
  {
    forall root, v: nat | Holds(role, root, L1) && v < VA_PAGES
      ensures LeafWord(ram', root, v) == LeafWord(ram, root, v)
    {
      LeafFrame(ram, ram', role, root, v);
    }
  }

  /** `role` with the `n` pages from `base` serving the virtual pages from `v0` on, modulo a table. */
  ghost function UserRoles(role: map<nat, Role>, base: nat, n: nat, root: nat, v0: nat): map<nat, Role> {
    if n == 0 then role
    else UserRoles(role, base, n - 1, root, v0)[PageAddr(base, n - 1) := User(root, v0 + (n - 1) % 512)]
  }

  ghost predicate Extends(role: map<nat, Role>, role': map<nat, Role>) {
    forall p | p in role :: Holds(role', p, role[p])
  }

  ghost predicate Serves(role: map<nat, Role>, base: nat, n: nat, root: nat, v0: nat) {
    forall p: nat | p < n :: Holds(role, PageAddr(base, p), User(root, v0 + p % 512))
  }

  lemma {:induction false} UserRolesServe(role: map<nat, Role>, base: nat, n: nat, root: nat, v0: nat)
    requires AddrRun(base, n) !! role.Keys
    ensures Extends(role, UserRoles(role, base, n, root, v0))
    ensures Serves(UserRoles(role, base, n, root, v0), base, n, root, v0)
    ensures forall p | p in UserRoles(role, base, n, root, v0) ::
      p in role || (p in AddrRun(base, n) && UserRoles(role, base, n, root, v0)[p].User?)
  {
    if n != 0 {
      UserRolesServe(role, base, n - 1, root, v0);
      forall p: nat | p < n - 1
        ensures PageAddr(base, p) != PageAddr(base, n - 1)
      {
      }
    }
  }

  ghost function TableRoles(role: map<nat, Role>, root: nat, l2: nat, l3: nat, l3s: nat): map<nat, Role> {
    role[root := L1][l2 := L2(root, 0)][l3 := L3(root, 2)][l3s := L3(root, 3)]
  }

  ghost function FreshRoles(role: map<nat, Role>, root: nat, l2: nat, l3: nat, l3s: nat, code: nat, n: nat,
                            stack: nat): map<nat, Role> {
    UserRoles(UserRoles(TableRoles(role, root, l2, l3, l3s), code, n, root, CODE_PAGE), stack, STACK_PAGES, root,
        STACK_TOP - STACK_PAGES)
  }

  /** The four tables of a fresh task. */
  ghost predicate FreshTree(ram: Ram, root: nat, l2: nat, l3: nat, l3s: nat, code: nat, n: nat, stack: nat) {
    && CodeTree(ram, root, l2, l3, l3s, code, n)
    && PageOk(ram, l3s) && root != l3s && l2 != l3s && l3 != l3s
    && (forall k | 0 <= k < 512 :: ram[l3s][k] == StackWord(stack, STACK_PAGES, k))
  }

  /** What `FreshRoles` does: the old roles stay, the tables and the user pages get theirs. */
  ghost predicate RolesAdded(role: map<nat, Role>, role': map<nat, Role>, root: nat, l2: nat, l3: nat, l3s: nat,
                             code: nat, n: nat, stack: nat) {
    && Extends(role, role')
    && Holds(role', root, L1) && Holds(role', l2, L2(root, 0)) && Holds(role', l3, L3(root, 2))
    && Holds(role', l3s, L3(root, 3))
    && Serves(role', code, n, root, CODE_PAGE) && Serves(role', stack, STACK_PAGES, root, STACK_TOP - STACK_PAGES)
    && forall p | p in role' ::
       p in role || p in {root, l2, l3, l3s} || (p in AddrRun(code, n) + AddrRun(stack, STACK_PAGES) && role'[p].User?)
  }

  /** Four fresh table pages and two runs of fresh user pages, none of them used twice. */
  ghost predicate AllFresh(role: map<nat, Role>, root: nat, l2: nat, l3: nat, l3s: nat, code: nat, n: nat, stack: nat) {
    && root !in role && l2 !in role && l3 !in role && l3s !in role
    && root != l2 && root != l3 && root != l3s && l2 != l3 && l2 != l3s && l3 != l3s
    && AddrRun(code, n) !! role.Keys + {root, l2, l3, l3s}
    && AddrRun(stack, STACK_PAGES) !! role.Keys + {root, l2, l3, l3s}
    && AddrRun(code, n) !! AddrRun(stack, STACK_PAGES)
  }

  lemma FreshRolesAdded(role: map<nat, Role>, root: nat, l2: nat, l3: nat, l3s: nat, code: nat, n: nat, stack: nat)
    requires AllFresh(role, root, l2, l3, l3s, code, n, stack)
    ensures RolesAdded(role, FreshRoles(role, root, l2, l3, l3s, code, n, stack), root, l2, l3, l3s, code, n, stack)
  {
    var role1 := TableRoles(role, root, l2, l3, l3s);
    assert role1.Keys == role.Keys + {root, l2, l3, l3s};
    assert Extends(role, role1);
    UserRolesServe(role1, code, n, root, CODE_PAGE);
    var role2 := UserRoles(role1, code, n, root, CODE_PAGE);
    assert AddrRun(stack, STACK_PAGES) !! role2.Keys;
    UserRolesServe(role2, stack, STACK_PAGES, root, STACK_TOP - STACK_PAGES);
  }

  /** The fresh tree joins the forest. */
  lemma FreshTreeOk(ram: Ram, role: map<nat, Role>, role': map<nat, Role>, root: nat, l2: nat, l3: nat, l3s: nat,
                    code: nat, n: nat, stack: nat)
    requires TablesOk(ram, role) && FreshTree(ram, root, l2, l3, l3s, code, n, stack)
    requires RolesAdded(role, role', root, l2, l3, l3s, code, n, stack)
    requires forall p | p in AddrRun(code, n) + AddrRun(stack, STACK_PAGES) :: PageOk(ram, p)
    ensures TablesOk(ram, role')
  {
    forall p | p in role'
      ensures PageOk(ram, p) && TableOk(ram, role', p)
    {
      if p in role {
        StillOk(ram, role, role', p);
      } else if p == root || p == l2 {
        UpperTablesOk(ram, role', root, l2, l3, l3s);
      } else if p == l3 {
        CodeTableOk(ram, role', root, l3, code, n);
      } else if p == l3s {
        StackTableOk(ram, role', root, l3s, stack);
      }
    }
  }

  lemma StillOk(ram: Ram, role: map<nat, Role>, role': map<nat, Role>, p: nat)
    requires TablesOk(ram, role) && p in role && Extends(role, role')
    ensures PageOk(ram, p) && TableOk(ram, role', p)
  {
    assert Holds(role', p, role[p]);
    assert TableOk(ram, role, p);
  }

  lemma UpperTablesOk(ram: Ram, role: map<nat, Role>, root: nat, l2: nat, l3: nat, l3s: nat)
    requires PageOk(ram, root) && forall i | 0 <= i < 512 :: ram[root][i] == if i == 0 then TableEntry(l2) else 0
    requires PageOk(ram, l2) &&
             forall j | 0 <= j < 512 ::
                 ram[l2][j] == if j == 2 then TableEntry(l3) else if j == 3 then TableEntry(l3s) else 0
    requires Holds(role, root, L1) && Holds(role, l2, L2(root, 0)) && Holds(role, l3, L3(root, 2))
    requires Holds(role, l3s, L3(root, 3))
    ensures TableOk(ram, role, root) && TableOk(ram, role, l2)
  {
  }

  lemma CodeTableOk(ram: Ram, role: map<nat, Role>, root: nat, l3: nat, code: nat, n: nat)
    requires PageOk(ram, l3) && forall k | 0 <= k < 512 :: ram[l3][k] == CodeWord(code, n, k)
    requires Holds(role, l3, L3(root, 2)) && Serves(role, code, n, root, CODE_PAGE)
    ensures TableOk(ram, role, l3)
  {
    forall k: nat | k < 512
      ensures Links(role, ram[l3][k], LEAF, User(root, 512 * 2 + k))
    {
      var p := LastFor(k, n);
      if p != -1 {
        assert Holds(role, PageAddr(code, p), User(root, CODE_PAGE + p % 512));
      }
    }
  }

  lemma StackTableOk(ram: Ram, role: map<nat, Role>, root: nat, l3: nat, stack: nat)
    requires PageOk(ram, l3) && forall k | 0 <= k < 512 :: ram[l3][k] == StackWord(stack, STACK_PAGES, k)
    requires Holds(role, l3, L3(root, 3)) && Serves(role, stack, STACK_PAGES, root, STACK_TOP - STACK_PAGES)
    ensures TableOk(ram, role, l3)
  {
    forall k: nat | k < 512
      ensures Links(role, ram[l3][k], LEAF, User(root, 512 * 3 + k))
    {
      if 512 - STACK_PAGES <= k {
        var p := k - (512 - STACK_PAGES);
        assert Holds(role, PageAddr(stack, p), User(root, STACK_TOP - STACK_PAGES + p % 512));
      }
    }
  }

  /** What the fresh tree translates to. */
  lemma FreshWalk(ram: Ram, role: map<nat, Role>, root: nat, l2: nat, l3: nat, l3s: nat, code: nat, n: nat,
                  stack: nat, v: nat)
    requires TablesOk(ram, role) && Holds(role, root, L1) && v < VA_PAGES
    requires FreshTree(ram, root, l2, l3, l3s, code, n, stack)
    ensures Walk(ram, root, v) == FreshMap(code, n, stack, v)
  {
    WalkIsLeaf(ram, role, root, v);
    PageIndex(v);
  }

  lemma GrowsLess(ram: Ram, role: map<nat, Role>, free: set<nat>, ram': Ram, role': map<nat, Role>, free': set<nat>,
                  pa: nat)
    requires Grows(ram, role, free, ram', role', free' + {pa})
    ensures Grows(ram, role, free, ram', role', free')
  {
  }

  class Mmu {
    const pmm: Pmm
    var ram: Ram
    ghost var role: map<nat, Role>

    ghost predicate Valid()
      reads this, pmm, pmm.bitmap
    {
      && pmm.Valid()
      && 4096 * (pmm.basePage + pmm.total) < 0x1_0000_0000_0000
      && (forall p: nat | p < pmm.total :: PageOk(ram, pmm.PageToAddr(p)))
      && TablesOk(ram, role)
      && role.Keys !! pmm.FreeAddrs()
    }

    /** What `task` tables at `root` make of virtual page `v`. */
    function Translate(root: nat, v: nat): Translation
      reads this
    {
      Walk(ram, root, v)
    }

    constructor (pmm: Pmm, ram: Ram)
      requires pmm.Valid() && 4096 * (pmm.basePage + pmm.total) < 0x1_0000_0000_0000
      requires forall p: nat | p < pmm.total :: PageOk(ram, pmm.PageToAddr(p))
      ensures Valid() && this.pmm == pmm && this.ram == ram && role == map[]
    {
      this.pmm, this.ram, this.role := pmm, ram, map[];
    }

    /** A free page is a page of RAM, and nobody's. */
    lemma FreeIsOk()
      requires Valid()
      ensures forall pa | pa in pmm.FreeAddrs() :: PageOk(ram, pa) && pa !in role
    {
      forall pa | pa in pmm.FreeAddrs()
        ensures PageOk(ram, pa)
      {
        var p :| p in pmm.Free() && pa == PageAddr(pmm.ramBase, p);
        assert PageOk(ram, pmm.PageToAddr(p));
      }
    }

    /** `pmm_alloc_page`, seen by address. */
    method NewPage() returns (pa: nat)
      requires Valid()
      modifies pmm, pmm.bitmap
      ensures Valid()
      ensures pa == 0 <==> old(pmm.freePages) == 0
      ensures pmm.freePages == if pa == 0 then 0 else old(pmm.freePages) - 1
      ensures pa == 0 ==> old(pmm.FreeAddrs()) == {} && pmm.FreeAddrs() == {}
      ensures pa != 0 ==> pa in old(pmm.FreeAddrs()) && pmm.FreeAddrs() == old(pmm.FreeAddrs()) - {pa}
      ensures pa != 0 ==> PageOk(ram, pa) && pa !in role && exists p: nat :: p < pmm.total && pa == pmm.PageToAddr(p)
    {
      ghost var free := pmm.Free();
      pa := pmm.AllocPage();
      if pa != 0 {
        ghost var p :| IsLeast(free, p) && pa == pmm.PageToAddr(p) && pmm.Free() == free - {p};
        AddrsMinus(pmm.ramBase, free, {p});
        AddrsOfOne(pmm.ramBase, p);
      }
    }

    /** `zero_table`. */
    method ZeroTable(table: nat)
      requires PageOk(ram, table)
      modifies `ram
      ensures ram == old(ram)[table := Zeros()]
    {
      for i := 0 to 512
        invariant ram.Keys == old(ram).Keys
        invariant forall p | p in ram && p != table :: ram[p] == old(ram)[p]
        invariant |ram[table]| == 512 && forall j | 0 <= j < i :: ram[table][j] == 0
      {
        ram := Store(ram, table, i, 0);
      }
      assert ram[table] == Zeros();
    }

    /** A zeroed page with role `r`, linked nowhere yet; 0 when no page is left. */
    method NewTable(ghost r: Role) returns (table: nat)
      requires Valid() && !r.User?
      modifies this, pmm, pmm.bitmap
      ensures Valid()
      ensures table == 0 ==> ram == old(ram) && role == old(role) && pmm.FreeAddrs() == {} && pmm.freePages == 0
      ensures table != 0 ==>
        && table in old(pmm.FreeAddrs()) && table !in old(role)
        && pmm.FreeAddrs() == old(pmm.FreeAddrs()) - {table}
        && role == old(role)[table := r] && PageOk(old(ram), table)
        && ram == old(ram)[table := Zeros()]
    {
      table := NewPage();
      if table != 0 {
        ZeroTable(table);
        assert TablesOk(ram, role);
        AddRoleOk(ram, role, table, r);
        role := role[table := r];
      }
    }

    /**
     * The table below entry `i` of table `t`, allocated, zeroed and linked if it is missing; 0 when
     * it is missing and no page is left.  No translation changes either way.
     */
    method Descend(t: nat, i: nat) returns (child: nat)
      requires Valid() && t in role && (role[t].L1? || role[t].L2?) && i < 512
      modifies this, pmm, pmm.bitmap
      ensures Valid()
      ensures Grows(old(ram), old(role), old(pmm.FreeAddrs()), ram, role, pmm.FreeAddrs())
      ensures child == 0 ==> ram == old(ram) && role == old(role) && pmm.FreeAddrs() == {} && pmm.freePages == 0
      ensures child != 0 ==> Holds(role, child, ChildRole(role, t, i)) && Word(ram, t, i) == TableEntry(child)
      ensures forall p | p in role && p !in old(role) :: p == child && !role[p].L1?
      ensures forall p | p in old(role) && p != t :: ram[p] == old(ram)[p]
      ensures forall root, v: nat ::
        Holds(old(role), root, L1) && v < VA_PAGES ==> LeafWord(ram, root, v) == LeafWord(old(ram), root, v)
    {
      var e := ram[t][i];
      TableSlot(ram, role, t, i);
      if IsTable(e) {
        child := TableAddr(e);
      } else {
        ghost var r := ChildRole(role, t, i);
        child := NewTable(r);
        if child != 0 {
          LinkFresh(old(ram), old(role), t, i, child, old(pmm.FreeAddrs()));
          ram := Store(ram, t, i, TableEntry(child));
        }
      }
    }

    /** Pages a caller may hand over for mapping: allocated, and nobody's. */
    ghost predicate Mappable(base: nat, n: nat)
      reads this, pmm.bitmap
    {
      forall pa | pa in AddrRun(base, n) :: MappablePage(pa)
    }

    ghost predicate MappablePage(pa: nat)
      reads this, pmm.bitmap
    {
      PageOk(ram, pa) && pa !in role && pa !in pmm.FreeAddrs()
    }

    /** A fresh zeroed page, still without a role. */
    method NewZeroPage() returns (pa: nat)
      requires Valid()
      modifies `ram, pmm, pmm.bitmap
      ensures Valid()
      ensures pa == 0 <==> old(pmm.freePages) == 0
      ensures pa != 0 ==> pmm.freePages == old(pmm.freePages) - 1
      ensures pa == 0 ==> ram == old(ram) && pmm.FreeAddrs() == old(pmm.FreeAddrs()) && pmm.freePages == 0
      ensures pa != 0 ==> pa in old(pmm.FreeAddrs()) && pmm.FreeAddrs() == old(pmm.FreeAddrs()) - {pa}
      ensures pa != 0 ==> PageOk(ram, pa) && pa !in role && ram == old(ram)[pa := Zeros()]
      ensures pa != 0 ==> exists p: nat :: p < pmm.total && pa == pmm.PageToAddr(p)
    {
      pa := NewPage();
      if pa != 0 {
        ZeroTable(pa);
        OutsideTables(old(ram), ram, role);
      }
    }

    /** Fills the level 3 table of the code region: one store a page, slots taken modulo 512. */
    method FillCode(l3: nat, code: nat, codePages: nat)
      requires Valid() && PageOk(ram, l3) && l3 !in role && ram[l3] == Zeros()
      modifies `ram
      ensures Valid()
      ensures ram.Keys == old(ram).Keys && forall p | p in ram && p != l3 :: ram[p] == old(ram)[p]
      ensures |ram[l3]| == 512 && forall k | 0 <= k < 512 :: ram[l3][k] == CodeWord(code, codePages, k)
    {
      for p := 0 to codePages
        invariant ram.Keys == old(ram).Keys && forall q | q in ram && q != l3 :: ram[q] == old(ram)[q]
        invariant |ram[l3]| == 512 && forall k | 0 <= k < 512 :: ram[l3][k] == CodeWord(code, p, k)
      {
        CodeSlot(code, p);
        ram := Store(ram, l3, (CODE_PAGE + p) % 512, LeafEntry(code + p * 4096));
      }
      OutsideTables(old(ram), ram, role);
    }

    /** Fills the level 3 table of the stack region. */
    method FillStack(l3: nat, stack: nat)
      requires Valid() && PageOk(ram, l3) && l3 !in role && ram[l3] == Zeros()
      modifies `ram
      ensures Valid()
      ensures ram.Keys == old(ram).Keys && forall p | p in ram && p != l3 :: ram[p] == old(ram)[p]
      ensures |ram[l3]| == 512 && forall k | 0 <= k < 512 :: ram[l3][k] == StackWord(stack, STACK_PAGES, k)
    {
      for p := 0 to STACK_PAGES
        invariant ram.Keys == old(ram).Keys && forall q | q in ram && q != l3 :: ram[q] == old(ram)[q]
        invariant |ram[l3]| == 512 && forall k | 0 <= k < 512 :: ram[l3][k] == StackWord(stack, p, k)
      {
        ram := Store(ram, l3, (STACK_TOP - STACK_PAGES + p) % 512, LeafEntry(stack + p * 4096));
      }
      OutsideTables(old(ram), ram, role);
    }

    /** One store to a page that is still without a role. */
    method StoreFresh(p: nat, i: nat, e: nat)
      requires Valid() && PageOk(ram, p) && p !in role && i < 512
      modifies `ram
      ensures Valid() && ram == Store(old(ram), p, i, e)
    {
      ram := Store(ram, p, i, e);
      OutsideTables(old(ram), ram, role);
    }

    /** Levels 1 and 2 and the filled table of the code region; 0 when a page is missing. */
    method BuildCode(code: nat, codePages: nat) returns (root: nat, l2: nat, l3: nat)
      requires Valid()
      modifies `ram, pmm, pmm.bitmap
      ensures Valid()
      ensures root == 0 <==> old(pmm.freePages) < 3
      ensures root != 0 ==> pmm.freePages == old(pmm.freePages) - 3
      ensures pmm.FreeAddrs() <= old(pmm.FreeAddrs())
      ensures KeepsUsed(old(ram), old(pmm.FreeAddrs()), ram)
      ensures root != 0 ==> {root, l2, l3} <= old(pmm.FreeAddrs()) - pmm.FreeAddrs()
      ensures root != 0 ==>
        root !in role && l2 !in role && l3 !in role && CodeTree(ram, root, l2, l3, 0, code, codePages)
    {
      hide TablesOk, Mmu.Valid, CodeWord, CodeTree;
      l2, l3 := 0, 0;
      root := NewZeroPage();
      if root == 0 {
        return;
      }
      l2 := NewZeroPage();
      if l2 == 0 {
        FreePage(root);
        root := 0;
        return;
      }
      StoreFresh(root, 0, TableEntry(l2));
      l3 := NewZeroPage();
      if l3 == 0 {
        root := 0;
        return;
      }
      FillCode(l3, code, codePages);
      CodeLinked(ram, root, l2, l3, code, codePages);
      StoreFresh(l2, 2, TableEntry(l3));
    }

    /** The filled table of the stack region, linked below `l2`; 0 when the page is missing. */
    method BuildStack(root: nat, l2: nat, l3: nat, stack: nat, ghost code: nat, ghost codePages: nat) returns (l3s: nat)
      requires Valid() && CodeTree(ram, root, l2, l3, 0, code, codePages)
      requires {root, l2, l3} !! role.Keys + pmm.FreeAddrs()
      modifies `ram, pmm, pmm.bitmap
      ensures Valid()
      ensures pmm.FreeAddrs() <= old(pmm.FreeAddrs())
      ensures forall p | p in old(ram) :: p in ram && (ram[p] == old(ram)[p] || p in old(pmm.FreeAddrs()) || p == l2)
      ensures l3s == 0 <==> old(pmm.freePages) == 0
      ensures l3s != 0 ==> l3s in old(pmm.FreeAddrs()) - pmm.FreeAddrs() && l3s !in role
      ensures l3s != 0 ==> FreshTree(ram, root, l2, l3, l3s, code, codePages, stack)
    {
      l3s := NewZeroPage();
      if l3s == 0 {
        return;
      }
      StoreFresh(l2, 3, TableEntry(l3s));
      FillStack(l3s, stack);
    }

    /** `mmu_create_user_pgd`: the tables of a fresh task, or 0 when a table cannot be allocated. */
    method CreateUserPgd(code: nat, codePages: nat, stack: nat) returns (root: nat)
      requires Valid()
      requires Mappable(code, codePages) && Mappable(stack, STACK_PAGES)
      requires AddrRun(code, codePages) !! AddrRun(stack, STACK_PAGES)
      modifies this, pmm, pmm.bitmap
      ensures Valid()
      ensures pmm.FreeAddrs() <= old(pmm.FreeAddrs())
      ensures KeepsUsed(old(ram), old(pmm.FreeAddrs()), ram)
      ensures root == 0 <==> old(pmm.freePages) < 4
      ensures root == 0 ==> role == old(role)
      ensures root != 0 ==> NewTree(old(role), old(pmm.FreeAddrs()), ram, role, root, code, codePages, stack)
    {
      var l2, l3;
      root, l2, l3 := BuildCode(code, codePages);
      if root == 0 {
        return 0;
      }
      var l3s := BuildStack(root, l2, l3, stack, code, codePages);
      if l3s == 0 {
        return 0;
      }
      Adopt(root, l2, l3, l3s, code, codePages, stack);
      assert Created(old(role), old(pmm.FreeAddrs()), ram, role, root, l2, l3, l3s, code, codePages, stack);
    }

    /** Gives the pages of a finished tree their roles. */
    ghost method Adopt(root: nat, l2: nat, l3: nat, l3s: nat, code: nat, codePages: nat, stack: nat)
      requires Valid()
      requires Mappable(code, codePages) && Mappable(stack, STACK_PAGES)
      requires AddrRun(code, codePages) !! AddrRun(stack, STACK_PAGES)
      requires forall p | p in {root, l2, l3, l3s} ::
        p !in role && p !in AddrRun(code, codePages) + AddrRun(stack, STACK_PAGES) + pmm.FreeAddrs()
      requires FreshTree(ram, root, l2, l3, l3s, code, codePages, stack)
      modifies `role
      ensures Valid()
      ensures RolesAdded(old(role), role, root, l2, l3, l3s, code, codePages, stack)
    {
      assert AllFresh(role, root, l2, l3, l3s, code, codePages, stack);
      FreshRolesAdded(role, root, l2, l3, l3s, code, codePages, stack);
      ghost var role' := FreshRoles(role, root, l2, l3, l3s, code, codePages, stack);
      FreshTreeOk(ram, role, role', root, l2, l3, l3s, code, codePages, stack);
      assert role'.Keys !! pmm.FreeAddrs();
      role := role';
    }

    /** `pmm_free_page` of a page without a role. */
    method FreePage(pa: nat)
      requires Valid() && pa !in role && exists p: nat :: p < pmm.total && pa == pmm.PageToAddr(p)
      modifies pmm, pmm.bitmap
      ensures Valid() && pmm.FreeAddrs() == old(pmm.FreeAddrs()) + {pa}
      ensures pmm.freePages <= old(pmm.freePages) + 1
    {
      ghost var p: nat :| p < pmm.total && pa == pmm.PageToAddr(p);
      ghost var free := pmm.Free();
      pmm.FreePage(pa);
      pmm.PageAddrRoundTrip(p, 0);
      AddrsMinus(pmm.ramBase, free, {p});
      AddrsOfOne(pmm.ramBase, p);
    }

    /**
     * `mmu_map_user_page_in_pgd`: success updates the translation of exactly one page of one task,
     * failure (no page left for a table) changes none.
     */
    method MapUserPage(pgd: nat, va: nat, pa: nat) returns (r: int)
      requires Valid() && Holds(role, pgd, L1) && va / 4096 < VA_PAGES
      requires pa in ram && PageOk(ram, pa) && pa !in role && pa !in pmm.FreeAddrs()
      modifies this, pmm, pmm.bitmap
      ensures Valid()
      ensures Grows(old(ram), old(role), old(pmm.FreeAddrs()) + {pa}, ram, role, pmm.FreeAddrs())
      ensures r == 0 || (r == -1 && pmm.FreeAddrs() == {} && pmm.freePages == 0 && pa !in role)
      ensures r == 0 ==> Holds(role, pa, User(pgd, va / 4096)) && pa in ram && pa in old(ram) && ram[pa] == old(ram)[pa]
      ensures forall root :: Holds(role, root, L1) <==> Holds(old(role), root, L1)
      ensures forall root, v: nat :: Holds(role, root, L1) && v < VA_PAGES ==>
        Walk(ram, root, v) ==
        if r == 0 && root == pgd && v == va / 4096 then Page(pa, true) else Walk(old(ram), root, v)
    {
      hide TablesOk, Grows, Walk, PageOk;
      ghost var v := va / 4096;
      ghost var l2;
      var l3;
      VaIndex(va);
      l2, l3 := FindLevel3(pgd, va / 0x4000_0000 % 512, va / 0x20_0000 % 512, v / 512);
      ghost var ram2, role2, free2 := ram, role, pmm.FreeAddrs();
      GrowsKeeps(old(ram), old(role), old(pmm.FreeAddrs()), ram, role, free2, pa);
      GrowsMore(old(ram), old(role), old(pmm.FreeAddrs()), ram2, role2, free2, pa);
      if l3 == 0 {
        SameTranslations(old(ram), old(role), ram, role);
        GrowsLess(old(ram), old(role), old(pmm.FreeAddrs()) + {pa}, ram, role, free2, pa);
        return -1;
      }
      WriteLeaf(pgd, v, l2, l3, va / 4096 % 512, pa);
      GrowsTransitive(old(ram), old(role), old(pmm.FreeAddrs()) + {pa}, ram2, role2, free2 + {pa}, ram, role, free2);
      OneTranslation(old(ram), old(role), ram, role, pgd, v, pa);
      return 0;
    }

    /** The walk from level 1 to the level 3 table of region `m`, allocating what is missing. */
    method FindLevel3(pgd: nat, i: nat, j: nat, ghost m: nat) returns (ghost l2: nat, l3: nat)
      requires Valid() && Holds(role, pgd, L1)
      requires i < 512 && j < 512 && i == m / 512 && j == m % 512
      modifies this, pmm, pmm.bitmap
      ensures Valid()
      ensures Grows(old(ram), old(role), old(pmm.FreeAddrs()), ram, role, pmm.FreeAddrs())
      ensures l3 == 0 ==> pmm.FreeAddrs() == {} && pmm.freePages == 0
      ensures l3 != 0 ==> Path(ram, pgd, m, l2, l3) && Holds(role, l3, L3(pgd, m))
      ensures forall root :: Holds(role, root, L1) <==> Holds(old(role), root, L1)
      ensures forall root, w: nat ::
        Holds(old(role), root, L1) && w < VA_PAGES ==> LeafWord(ram, root, w) == LeafWord(old(ram), root, w)
    {
      var table := Descend(pgd, i);
      l2, l3 := table, 0;
      if table != 0 {
        ghost var ram1, role1, free1 := ram, role, pmm.FreeAddrs();
        l3 := Descend(table, j);
        GrowsTransitive(old(ram), old(role), old(pmm.FreeAddrs()), ram1, role1, free1, ram, role, pmm.FreeAddrs());
        assert 512 * i + j == m;
      }
    }

    /** The level 3 store. */
    method WriteLeaf(ghost pgd: nat, ghost v: nat, ghost l2: nat, l3: nat, k: nat, pa: nat)
      requires Valid() && Holds(role, pgd, L1) && v < VA_PAGES && k == v % 512
      requires Path(ram, pgd, v / 512, l2, l3) && Holds(role, l3, L3(pgd, v / 512))
      requires PageOk(ram, pa) && pa !in role && pa !in pmm.FreeAddrs()
      modifies this
      ensures Valid()
      ensures role == old(role)[pa := User(pgd, v)] && pa in ram && ram[pa] == old(ram)[pa]
      ensures Grows(old(ram), old(role), pmm.FreeAddrs() + {pa}, ram, role, pmm.FreeAddrs())
      ensures forall root, w: nat :: Holds(old(role), root, L1) && w < VA_PAGES ==>
        LeafWord(ram, root, w) == if root == pgd && w == v then LeafEntry(pa) else LeafWord(old(ram), root, w)
    {
      MapLeaf(ram, role, pgd, v, l2, l3, pa);
      role := role[pa := User(pgd, v)];
      ram := Store(ram, l3, k, LeafEntry(pa));
    }
  }

  /** The three index fields of a page-table walk, in terms of the page number. */
  lemma VaIndex(va: nat)
    requires va / 4096 < VA_PAGES
    ensures va / 0x4000_0000 % 512 == va / 4096 / 512 / 512
    ensures va / 0x20_0000 % 512 == va / 4096 / 512 % 512
    ensures 512 * (va / 4096 / 512 / 512) + va / 4096 / 512 % 512 == va / 4096 / 512
  {
    assert va / 0x4000_0000 == va / 4096 / 512 / 512;
    assert va / 0x20_0000 == va / 4096 / 512;
  }

  /** An upper level descriptor is zero or a link the walk follows. */
  lemma TableSlot(ram: Ram, role: map<nat, Role>, t: nat, i: nat)
    requires TablesOk(ram, role) && t in role && (role[t].L1? || role[t].L2?) && i < 512
    ensures IsTable(ram[t][i]) ==>
      TableEntry(TableAddr(ram[t][i])) == ram[t][i] && Holds(role, TableAddr(ram[t][i]), ChildRole(role, t, i))
    ensures !IsTable(ram[t][i]) ==> ram[t][i] == 0
  {
    assert TableOk(ram, role, t);
    if ram[t][i] != 0 {
      EntryBits(ram[t][i] - 3);
    }
  }

  /** The memory after a fresh table is zeroed and linked. */
  ghost function Linked(ram: Ram, t: nat, i: nat, child: nat): Ram
    requires t in ram && i < |ram[t]| && t != child
  {
    Store(ram[child := Zeros()], t, i, TableEntry(child))
  }

  lemma LinkFresh(ram: Ram, role: map<nat, Role>, t: nat, i: nat, child: nat, free: set<nat>)
    requires TablesOk(ram, role) && t in role && (role[t].L1? || role[t].L2?) && i < 512 && ram[t][i] == 0
    requires child in free && child !in role && PageOk(ram, child)
    ensures TablesOk(Linked(ram, t, i, child), role[child := ChildRole(role, t, i)])
    ensures Grows(ram, role, free, Linked(ram, t, i, child), role[child := ChildRole(role, t, i)], free - {child})
    ensures forall root, v: nat :: Holds(role, root, L1) && v < VA_PAGES ==>
      LeafWord(Linked(ram, t, i, child), root, v) == LeafWord(ram, root, v)
  {
    var ram1, role1 := ram[child := Zeros()], role[child := ChildRole(role, t, i)];
    assert TablesOk(ram1, role);
    AddRoleOk(ram1, role, child, ChildRole(role, t, i));
    SetTableOk(ram1, role1, t, i, child);
    forall root, v: nat | Holds(role, root, L1) && v < VA_PAGES
      ensures LeafWord(Linked(ram, t, i, child), root, v) == LeafWord(ram, root, v)
    {
      LinkEmpty(ram1, role1, t, i, child, root, v);
      LeafFrame(ram, ram1, role, root, v);
    }
  }

  /** The last step of a mapping: one level 3 store. */
  lemma MapLeaf(ram: Ram, role: map<nat, Role>, pgd: nat, v: nat, l2: nat, l3: nat, pa: nat)
    requires TablesOk(ram, role) && Holds(role, pgd, L1) && v < VA_PAGES
    requires Path(ram, pgd, v / 512, l2, l3) && Holds(role, l3, L3(pgd, v / 512))
    requires PageOk(ram, pa) && pa !in role
    ensures TablesOk(Store(ram, l3, v % 512, LeafEntry(pa)), role[pa := User(pgd, v)])
    ensures forall root, w: nat :: Holds(role, root, L1) && w < VA_PAGES ==>
      LeafWord(Store(ram, l3, v % 512, LeafEntry(pa)), root, w) ==
      if root == pgd && w == v then LeafEntry(pa) else LeafWord(ram, root, w)
  {
    var role' := role[pa := User(pgd, v)];
    AddRoleOk(ram, role, pa, User(pgd, v));
    SetLeafOk(ram, role', pgd, v, l3, pa);
    forall root, w: nat | Holds(role, root, L1) && w < VA_PAGES
      ensures LeafWord(Store(ram, l3, v % 512, LeafEntry(pa)), root, w) ==
              if root == pgd && w == v then LeafEntry(pa) else LeafWord(ram, root, w)
    {
      SetLeaf(ram, role, pgd, v, l2, l3, pa, root, w);
    }
  }

  lemma OneTranslation(ram: Ram, role: map<nat, Role>, ram': Ram, role': map<nat, Role>, pgd: nat, v: nat, pa: nat)
    requires TablesOk(ram, role) && TablesOk(ram', role')
    requires forall root, w: nat :: Holds(role, root, L1) && w < VA_PAGES ==>
      LeafWord(ram', root, w) == if root == pgd && w == v then LeafEntry(pa) else LeafWord(ram, root, w)
    requires forall root :: Holds(role, root, L1) ==> Holds(role', root, L1)
    ensures forall root, w: nat :: Holds(role, root, L1) && w < VA_PAGES ==>
      Walk(ram', root, w) == if root == pgd && w == v then Page(pa, true) else Walk(ram, root, w)
  {
    forall root, w: nat | Holds(role, root, L1) && w < VA_PAGES
      ensures Walk(ram', root, w) == if root == pgd && w == v then Page(pa, true) else Walk(ram, root, w)
    {
      WalkIsLeaf(ram, role, root, w);
      WalkIsLeaf(ram', role', root, w);
    }
  }

  lemma SameTranslations(ram: Ram, role: map<nat, Role>, ram': Ram, role': map<nat, Role>)
    requires TablesOk(ram, role) && TablesOk(ram', role')
    requires forall root, v: nat ::
      Holds(role, root, L1) && v < VA_PAGES ==> LeafWord(ram', root, v) == LeafWord(ram, root, v)
    requires forall root :: Holds(role, root, L1) ==> Holds(role', root, L1)
    ensures forall root, v: nat :: Holds(role, root, L1) && v < VA_PAGES ==> Walk(ram', root, v) == Walk(ram, root, v)
  {
    forall root, v: nat | Holds(role, root, L1) && v < VA_PAGES
      ensures Walk(ram', root, v) == Walk(ram, root, v)
    {
      WalkIsLeaf(ram, role, root, v);
      WalkIsLeaf(ram', role', root, v);
    }
  }
}
