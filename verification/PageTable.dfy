/**
 * User page tables in raw memory: descriptor words (section D8.3 of Arm DDI 0487, 4KB granule,
 * 39-bit addresses) and the invariant that keeps every table of every task an unshared tree.
 * A page of RAM is named by its physical address; a virtual page by its number `va / 4096`.
 */
module PageTable {

  type Ram = map<nat, seq<nat>>

  const VA_PAGES: nat := 0x800_0000

  /** VALID | TABLE. */
  function TableEntry(pa: nat): nat {
    pa + 3
  }

  /** VALID | PAGE | ATTR_NORMAL | AP_RW_ALL | SH_INNER | AF | PXN. */
  const LEAF: nat := 1 + 2 + 4 + 64 + 768 + 1024 + 0x20_0000_0000_0000

  function LeafEntry(pa: nat): nat {
    pa + LEAF
  }

  /** What the table walk makes of a virtual page. */
  datatype Translation = Fault | Block | Page(pa: nat, user: bool)

  function Word(ram: Ram, page: nat, i: nat): nat {
    if page in ram && i < |ram[page]| then ram[page][i] else 0
  }

  /** One 64-bit store. */
  function Store(ram: Ram, page: nat, i: nat, e: nat): Ram
    requires page in ram && i < |ram[page]|
  {
    var words: seq<nat> := ram[page][i := e];
    ram[page := words]
  }

  /** Bits 1:0 of a descriptor: 3 is a table (or, at level 3, a page), 1 a block. */
  predicate IsTable(e: nat) {
    e % 4 == 3
  }

  /** `e & ~0xFFF`. */
  function TableAddr(e: nat): nat {
    e - e % 4096
  }

  /** Output address bits 47:12 and the access permission of a level 3 descriptor. */
  function DecodeLeaf(e: nat): Translation {
    if IsTable(e) then Page(e / 4096 % 0x10_0000_0000 * 4096, e / 64 % 4 == 1) else Fault
  }

  function Walk(ram: Ram, root: nat, v: nat): Translation {
    var e1 := Word(ram, root, v / 262144);
    if e1 % 4 == 1 then Block
    else if !IsTable(e1) then Fault
    else WalkL2(ram, TableAddr(e1), v)
  }

  function WalkL2(ram: Ram, l2: nat, v: nat): Translation {
    var e2 := Word(ram, l2, v / 512 % 512);
    if e2 % 4 == 1 then Block
    else if !IsTable(e2) then Fault
    else DecodeLeaf(Word(ram, TableAddr(e2), v % 512))
  }

  /** What a page of RAM serves as; `m` numbers the 512-page regions, `v` the virtual pages. */
  datatype Role = L1 | L2(root: nat, i: nat) | L3(root: nat, m: nat) | User(root: nat, v: nat)

  ghost predicate PageOk(ram: Ram, p: nat) {
    p in ram && |ram[p]| == 512 && p % 4096 == 0 && 0 < p < 0x1_0000_0000_0000
  }

  ghost predicate Holds(role: map<nat, Role>, p: nat, r: Role) {
    p in role && role[p] == r
  }

  /** Descriptor `e` is empty, or `flags` away from the page with role `r`. */
  ghost predicate Links(role: map<nat, Role>, e: nat, flags: nat, r: Role) {
    e == 0 || (e >= flags && Holds(role, e - flags, r))
  }

  ghost predicate TableOk(ram: Ram, role: map<nat, Role>, p: nat)
    requires p in role && PageOk(ram, p)
  {
    match role[p]
    case L1 => forall i: nat | i < 512 :: Links(role, ram[p][i], 3, L2(p, i))
    case L2(root, n) => forall i: nat | i < 512 :: Links(role, ram[p][i], 3, L3(root, 512 * n + i))
    case L3(root, n) => forall i: nat | i < 512 :: Links(role, ram[p][i], LEAF, User(root, 512 * n + i))
    case User(_, _) => true
  }

  /** Every non-zero descriptor points at the one page whose role is to sit there. */
  ghost predicate TablesOk(ram: Ram, role: map<nat, Role>) {
    forall p | p in role :: PageOk(ram, p) && TableOk(ram, role, p)
  }

  lemma EntryBits(q: nat)
    requires q % 4096 == 0
    ensures IsTable(TableEntry(q)) && TableAddr(TableEntry(q)) == q
  {
    LowBits(q / 4096 * 1024, 3);
    OffsetBits(q / 4096, 3);
  }

  lemma LeafBits(q: nat)
    requires q % 4096 == 0 && q < 0x1_0000_0000_0000
    ensures DecodeLeaf(LeafEntry(q)) == Page(q, true)
  {
    var f := q / 4096 + 0x200_0000_0000;
    assert LeafEntry(q) == 4096 * f + 1863;
    OffsetBits(f, 1863);
    LowBits(1024 * f + 465, 3);
    PermissionBits(f);
  }

  lemma LowBits(g: nat, r: nat)
    requires r < 4
    ensures (4 * g + r) % 4 == r
  {
  }

  lemma OffsetBits(g: nat, r: nat)
    requires r < 4096
    ensures (4096 * g + r) % 4096 == r && (4096 * g + r) / 4096 == g
  {
  }

  lemma PermissionBits(f: nat)
    ensures (4096 * f + 1863) / 64 % 4 == 1
  {
    assert (4096 * f + 1863) / 64 == 4 * (16 * f + 7) + 1;
    LowBits(16 * f + 7, 1);
  }

  lemma PageIndex(v: nat)
    ensures 512 * (v / 262144) + v / 512 % 512 == v / 512
    ensures 512 * (v / 512) + v % 512 == v
  {
    assert v / 262144 == v / 512 / 512;
  }

  /** The walk of a task's tree ends in nothing, or in the page whose role is this task's virtual page. */
  lemma WalkOwned(ram: Ram, role: map<nat, Role>, root: nat, v: nat)
    requires TablesOk(ram, role) && Holds(role, root, L1) && v < VA_PAGES
    ensures Walk(ram, root, v).Fault? || (Walk(ram, root, v).Page? && Walk(ram, root, v).user
            && Holds(role, Walk(ram, root, v).pa, User(root, v)))
  {
    PageIndex(v);
    var e1 := ram[root][v / 262144];
    if e1 != 0 {
      EntryBits(e1 - 3);
      var e2 := ram[e1 - 3][v / 512 % 512];
      if e2 != 0 {
        EntryBits(e2 - 3);
        var e3 := ram[e2 - 3][v % 512];
        if e3 != 0 {
          LeafBits(e3 - LEAF);
        }
      }
    }
  }

  /** The level 3 word a walk reads, 0 where a table is missing. */
  ghost function LeafWord(ram: Ram, root: nat, v: nat): nat {
    var e1 := Word(ram, root, v / 262144);
    if e1 < 3 then 0
    else
      var e2 := Word(ram, e1 - 3, v / 512 % 512);
      if e2 < 3 then 0 else Word(ram, e2 - 3, v % 512)
  }

  /** A walk of a well-formed tree is its level 3 word. */
  lemma WalkIsLeaf(ram: Ram, role: map<nat, Role>, root: nat, v: nat)
    requires TablesOk(ram, role) && Holds(role, root, L1) && v < VA_PAGES
    ensures Walk(ram, root, v) ==
            if LeafWord(ram, root, v) == 0 then Fault else Page(LeafWord(ram, root, v) - LEAF, true)
  {
    PageIndex(v);
    var e1 := ram[root][v / 262144];
    if e1 != 0 {
      EntryBits(e1 - 3);
      var e2 := ram[e1 - 3][v / 512 % 512];
      if e2 != 0 {
        EntryBits(e2 - 3);
        var e3 := ram[e2 - 3][v % 512];
        if e3 != 0 {
          LeafBits(e3 - LEAF);
        }
      }
    }
  }

  /** The task a table page belongs to. */
  ghost predicate TableOf(role: map<nat, Role>, p: nat, root: nat) {
    p in role && match role[p]
    case L1 => p == root
    case L2(r, _) => r == root
    case L3(r, _) => r == root
    case User(_, _) => false
  }

  ghost predicate SameTree(ram: Ram, ram': Ram, role: map<nat, Role>, root: nat) {
    forall p | TableOf(role, p, root) :: p in ram && p in ram' && ram[p] == ram'[p]
  }

  /** Only a task's own table pages matter to its walks. */
  lemma LeafFrame(ram: Ram, ram': Ram, role: map<nat, Role>, root: nat, v: nat)
    requires TablesOk(ram, role) && Holds(role, root, L1) && v < VA_PAGES
    requires SameTree(ram, ram', role, root)
    ensures LeafWord(ram', root, v) == LeafWord(ram, root, v)
  {
    PageIndex(v);
    assert TableOf(role, root, root);
    var e1 := ram[root][v / 262144];
    if e1 != 0 {
      assert TableOf(role, e1 - 3, root);
    }
  }

  ghost function Zeros(): (z: seq<nat>)
    ensures |z| == 512
  {
    seq(512, i => 0)
  }

  /** The role of the table that entry `i` of table `t` points at. */
  ghost function ChildRole(role: map<nat, Role>, t: nat, i: nat): Role
    requires t in role && (role[t].L1? || role[t].L2?)
  {
    if role[t].L1? then L2(t, i) else L3(role[t].root, 512 * role[t].i + i)
  }

  /** Pointing an empty descriptor at the table made for it. */
  lemma SetTableOk(ram: Ram, role: map<nat, Role>, t: nat, i: nat, q: nat)
    requires TablesOk(ram, role) && t in role && (role[t].L1? || role[t].L2?) && i < 512
    requires Holds(role, q, ChildRole(role, t, i))
    ensures TablesOk(Store(ram, t, i, TableEntry(q)), role)
  {
    var ram' := Store(ram, t, i, TableEntry(q));
    forall p | p in role
      ensures PageOk(ram', p) && TableOk(ram', role, p)
    {
      assert TableOk(ram, role, p);
    }
  }

  /** A page with no role yet gets one; its content must suit it. */
  lemma AddRoleOk(ram: Ram, role: map<nat, Role>, q: nat, r: Role)
    requires TablesOk(ram, role) && q !in role && PageOk(ram, q)
    requires r.User? || ram[q] == Zeros()
    ensures TablesOk(ram, role[q := r])
  {
    var role' := role[q := r];
    forall p | p in role'
      ensures PageOk(ram, p) && TableOk(ram, role', p)
    {
      if p != q {
        assert TableOk(ram, role, p);
      }
    }
  }

  /** Linking an empty table changes no translation. */
  lemma LinkEmpty(ram: Ram, role: map<nat, Role>, t: nat, i: nat, q: nat, root: nat, v: nat)
    requires TablesOk(ram, role) && t in role && (role[t].L1? || role[t].L2?) && i < 512
    requires Holds(role, q, ChildRole(role, t, i)) && ram[q] == Zeros() && ram[t][i] == 0
    requires Holds(role, root, L1) && v < VA_PAGES
    ensures LeafWord(Store(ram, t, i, TableEntry(q)), root, v) == LeafWord(ram, root, v)
  {
    PageIndex(v);
    var e1 := ram[root][v / 262144];
  }

  ghost predicate Path(ram: Ram, root: nat, m: nat, l2: nat, l3: nat) {
    Word(ram, root, m / 512) == TableEntry(l2) && Word(ram, l2, m % 512) == TableEntry(l3)
  }

  /** Writing a level 3 descriptor changes the translation of one virtual page of one task. */
  lemma SetLeaf(ram: Ram, role: map<nat, Role>, root: nat, v: nat, l2: nat, l3: nat, q: nat, root': nat, v': nat)
    requires TablesOk(ram, role) && Holds(role, root, L1) && v < VA_PAGES
    requires Path(ram, root, v / 512, l2, l3)
    requires Holds(role, root', L1) && v' < VA_PAGES
    ensures l3 in ram && |ram[l3]| == 512
    ensures LeafWord(Store(ram, l3, v % 512, LeafEntry(q)), root', v') ==
            if root' == root && v' == v then LeafEntry(q) else LeafWord(ram, root', v')
  {
    PageIndex(v);
    PageIndex(v');
    var e1 := ram[root'][v' / 262144];
    if e1 != 0 {
      var e2 := ram[e1 - 3][v' / 512 % 512];
    }
  }

  lemma SetLeafOk(ram: Ram, role: map<nat, Role>, root: nat, v: nat, l3: nat, q: nat)
    requires TablesOk(ram, role) && Holds(role, l3, L3(root, v / 512)) && Holds(role, q, User(root, v))
    ensures TablesOk(Store(ram, l3, v % 512, LeafEntry(q)), role)
  {
    PageIndex(v);
    var ram' := Store(ram, l3, v % 512, LeafEntry(q));
    forall p | p in role
      ensures PageOk(ram', p) && TableOk(ram', role, p)
    {
      assert TableOk(ram, role, p);
    }
  }
}
