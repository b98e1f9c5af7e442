/**
 * The shell's pipeline builder for `n` segments, interleaved system call by system call with the
 * set-up of the children it forks.
 */
module Pipeline {
  import opened Common
  import opened Pipes
  import opened FdTables

  /** Descriptors of the pipe between segment `j` and `j + 1`, in the shell's table. */
  datatype PipeFds = PipeFds(rfd: nat, wfd: nat)

  /** Read and write end of pipe number `j`, the pipe itself: three allocations from `base` each. */
  function PipeId(base: nat, j: nat): nat {
    base + 3 * j
  }

  function ReadEnd(base: nat, j: nat): nat {
    base + 3 * j + 1
  }

  function WriteEnd(base: nat, j: nat): nat {
    base + 3 * j + 2
  }

  ghost function Put(table: Table, fd: nat, f: nat): Table {
    if fd < |table| then table[fd := f] else table
  }

  /** The table with pipe `j`'s read end entered, if there is a pipe `j`. */
  ghost function PutRead(table: Table, base: nat, fds: seq<PipeFds>, j: int): Table {
    if 0 <= j < |fds| then Put(table, fds[j].rfd, ReadEnd(base, j)) else table
  }

  ghost function PutWrite(table: Table, base: nat, fds: seq<PipeFds>, j: int): Table {
    if 0 <= j < |fds| then Put(table, fds[j].wfd, WriteEnd(base, j)) else table
  }

  /** What iteration `i` of the launch loop has done: made its pipe, forked, closed the previous read end. */
  datatype Phase = Start | Made | Forked | Dropped

  /** The shell's table in iteration `i`. */
  ghost function ShellTable(home: Table, base: nat, fds: seq<PipeFds>, i: nat, phase: Phase): Table {
    match phase
    case Start => PutRead(home, base, fds, i - 1)
    case Dropped => PutWrite(PutRead(home, base, fds, i), base, fds, i)
    case _ => PutWrite(PutRead(PutRead(home, base, fds, i - 1), base, fds, i), base, fds, i)
  }

  /** Child `j`'s table after `pc` of its five set-up calls; 6 is after its exit. */
  ghost function ChildTable(home: Table, base: nat, fds: seq<PipeFds>, j: nat, pc: nat): Table {
    if pc >= 6 then Empty(|home|)
    else
      var stdin := if pc >= 1 && 0 < j <= |fds| then Put(home, 0, ReadEnd(base, j - 1)) else home;
      var both := if pc >= 3 && j < |fds| then Put(stdin, 1, WriteEnd(base, j)) else stdin;
      var prev := if pc >= 2 then both else PutRead(both, base, fds, j - 1);
      var write := if pc >= 4 then prev else PutWrite(prev, base, fds, j);
      if pc >= 5 then write else PutRead(write, base, fds, j)
  }

  /** The descriptors of the pipes are free in the shell's own table, and neighbours do not clash. */
  ghost predicate FdsOk(home: Table, fds: seq<PipeFds>) {
    && 2 < |home| && home[0] != NULL && home[1] != NULL
    && (forall j | 0 <= j < |fds| :: PairOk(home, fds[j]))
    && (forall j | 0 < j < |fds| :: fds[j].rfd != fds[j - 1].rfd && fds[j].wfd != fds[j - 1].rfd)
  }

  ghost predicate PairOk(home: Table, f: PipeFds) {
    1 < f.rfd < |home| && 1 < f.wfd < |home| && f.rfd != f.wfd && home[f.rfd] == NULL && home[f.wfd] == NULL
  }

  /** Dup2 and close as the children use them. */
  ghost function CloseIn(table: Table, fd: int): Table {
    if 0 <= fd < |table| then Put(table, fd, NULL) else table
  }

  ghost function DupIn(table: Table, oldfd: int, newfd: nat): Table {
    if 0 <= oldfd < |table| then Put(table, newfd, table[oldfd]) else table
  }

  function Rfd(fds: seq<PipeFds>, j: int): int {
    if 0 <= j < |fds| then fds[j].rfd else -1
  }

  function Wfd(fds: seq<PipeFds>, j: int): int {
    if 0 <= j < |fds| then fds[j].wfd else -1
  }

  /** The five set-up calls of child `j`, each on its own table. */
  ghost function ChildCall(table: Table, fds: seq<PipeFds>, j: nat, pc: nat): Table {
    if pc == 0 then DupIn(table, Rfd(fds, j - 1), 0)
    else if pc == 1 then CloseIn(table, Rfd(fds, j - 1))
    else if pc == 2 then DupIn(table, Wfd(fds, j), 1)
    else if pc == 3 then CloseIn(table, Wfd(fds, j))
    else CloseIn(table, Rfd(fds, j))
  }

  lemma ChildCalls(home: Table, base: nat, fds: seq<PipeFds>, j: nat, pc: nat)
    requires FdsOk(home, fds) && pc < 5 && j <= |fds|
    ensures ChildCall(ChildTable(home, base, fds, j, pc), fds, j, pc) == ChildTable(home, base, fds, j, pc + 1)
  {
    assert 0 < j ==> PairOk(home, fds[j - 1]);
    assert j < |fds| ==> PairOk(home, fds[j]);
  }

  /** A forked child starts from the shell's table. */
  lemma ForkedTable(home: Table, base: nat, fds: seq<PipeFds>, j: nat)
    requires FdsOk(home, fds) && j <= |fds|
    ensures ChildTable(home, base, fds, j, 0) == ShellTable(home, base, fds, j, Made)
  {
    assert 0 < j ==> PairOk(home, fds[j - 1]);
    assert j < |fds| ==> PairOk(home, fds[j]);
  }

  /** After its set-up a child holds its two pipe ends on 0 and 1 and otherwise what the shell had. */
  lemma ChildDone(home: Table, base: nat, fds: seq<PipeFds>, j: nat)
    requires FdsOk(home, fds) && j <= |fds|
    ensures |ChildTable(home, base, fds, j, 5)| == |home|
    ensures forall fd | 0 <= fd < |home| ::
      ChildTable(home, base, fds, j, 5)[fd] ==
      (if fd == 0 && 0 < j then ReadEnd(base, j - 1) else if fd == 1 && j < |fds| then WriteEnd(base, j) else home[fd])
  {
  }

  lemma ShellCalls(home: Table, base: nat, fds: seq<PipeFds>, i: nat)
    requires FdsOk(home, fds) && i <= |fds|
    ensures ShellTable(home, base, fds, i, Forked) == ShellTable(home, base, fds, i, Made)
    ensures CloseIn(ShellTable(home, base, fds, i, Forked), Rfd(fds, i - 1)) == ShellTable(home, base, fds, i, Dropped)
    ensures CloseIn(ShellTable(home, base, fds, i, Dropped), Wfd(fds, i)) == ShellTable(home, base, fds, i + 1, Start)
  {
    assert 0 < i ==> PairOk(home, fds[i - 1]);
    assert i < |fds| ==> PairOk(home, fds[i]);
  }

  ghost predicate ThreeFree(table: Table) {
    exists a, b, c :: 0 <= a < b < c < |table| && table[a] == NULL && table[b] == NULL && table[c] == NULL
  }

  /** With three free descriptors the next pipe always finds two. */
  lemma RoomForPipe(home: Table, base: nat, fds: seq<PipeFds>)
    requires FdsOk(home, fds) && ThreeFree(home)
    ensures TwoFree(ShellTable(home, base, fds, |fds|, Start))
  {
    var table := ShellTable(home, base, fds, |fds|, Start);
    var a, b, c :| 0 <= a < b < c < |home| && home[a] == NULL && home[b] == NULL && home[c] == NULL;
    var used := Rfd(fds, |fds| - 1);
    if used == a {
      assert table[b] == NULL && table[c] == NULL;
    } else if used == b {
      assert table[a] == NULL && table[c] == NULL;
    } else {
      assert table[a] == NULL && table[b] == NULL;
    }
  }

  /** The two lowest free descriptors for the next pipe clash with nothing. */
  lemma NextPipe(home: Table, base: nat, fds: seq<PipeFds>, rfd: nat, wfd: nat)
    requires FdsOk(home, fds)
    requires IsLowestFree(ShellTable(home, base, fds, |fds|, Start), rfd)
    requires IsLowestFree(Put(ShellTable(home, base, fds, |fds|, Start), rfd, ReadEnd(base, |fds|)), wfd)
    ensures FdsOk(home, fds + [PipeFds(rfd, wfd)])
    ensures Put(Put(ShellTable(home, base, fds, |fds|, Start), rfd, ReadEnd(base, |fds|)), wfd,
      WriteEnd(base, |fds|)) ==
            ShellTable(home, base, fds + [PipeFds(rfd, wfd)], |fds|, Made)
  {
    var i := |fds|;
    var table, fds' := ShellTable(home, base, fds, i, Start), fds + [PipeFds(rfd, wfd)];
    assert 0 < i ==> PairOk(home, fds[i - 1]);
    assert rfd != wfd && table[rfd] == NULL && table[wfd] == NULL;
    assert table[0] == home[0] && table[1] == home[1];
    forall j | 0 <= j < |fds'|
      ensures PairOk(home, fds'[j])
    {
      if j < i {
        assert PairOk(home, fds[j]);
      }
    }
  }

  lemma ChildStays(home: Table, base: nat, fds: seq<PipeFds>, more: PipeFds, j: nat, pc: nat)
    requires j < |fds|
    ensures ChildTable(home, base, fds + [more], j, pc) == ChildTable(home, base, fds, j, pc)
  {
  }

  /** Every table is what the program counters say it is. */
  ghost predicate Wired(tables: seq<Table>, others: seq<Table>, shell: nat, base: nat, fds: seq<PipeFds>, i: nat,
                        phase: Phase, pc: seq<nat>) {
    && shell < |others| && |tables| == |others| + |pc|
    && tables[shell] == ShellTable(others[shell], base, fds, i, phase)
    && (forall t | 0 <= t < |others| && t != shell :: tables[t] == others[t])
    && (forall j | 0 <= j < |pc| :: tables[|others| + j] == ChildTable(others[shell], base, fds, j, pc[j]))
  }

  /** The files of the pipes that are still open are the pipe ends they were made as. */
  ghost predicate EndsKept(files: map<nat, OpenFile>, base: nat, m: nat) {
    forall j: nat | j < m ::
        KindKept(files, ReadEnd(base, j), PipeEnd(PipeId(base, j), false)) &&
            KindKept(files, WriteEnd(base, j), PipeEnd(PipeId(base, j), true))
  }

  /** No other file is an end of these pipes. */
  ghost predicate EndsNamed(files: map<nat, OpenFile>, base: nat) {
    forall f | f in files && files[f].kind.PipeEnd? && base <= files[f].kind.pipe ::
        f == files[f].kind.pipe + (if files[f].kind.write then 2 else 1)
  }

  ghost predicate KindKept(files: map<nat, OpenFile>, f: nat, kind: Kind) {
    f in files ==> files[f].kind == kind
  }

  lemma EndsStay(files: map<nat, OpenFile>, files': map<nat, OpenFile>, base: nat, m: nat)
    requires EndsKept(files, base, m) && EndsNamed(files, base) && KindsKept(files, files')
    ensures EndsKept(files', base, m) && EndsNamed(files', base)
  {
    forall j: nat | j < m
      ensures KindKept(files', ReadEnd(base, j), PipeEnd(PipeId(base, j), false))
      ensures KindKept(files', WriteEnd(base, j), PipeEnd(PipeId(base, j), true))
    {
      assert KindKept(files, ReadEnd(base, j), PipeEnd(PipeId(base, j), false));
    }
  }

  lemma EndsAdded(files: map<nat, OpenFile>, base: nat, m: nat)
    requires EndsKept(files, base, m) && EndsNamed(files, base)
    ensures EndsKept(WithPipe(files, PipeId(base, m)), base, m + 1) && EndsNamed(WithPipe(files, PipeId(base, m)), base)
  {
    forall j: nat | j < m + 1
      ensures KindKept(WithPipe(files, PipeId(base, m)), ReadEnd(base, j), PipeEnd(PipeId(base, j), false))
      ensures KindKept(WithPipe(files, PipeId(base, m)), WriteEnd(base, j), PipeEnd(PipeId(base, j), true))
    {
      assert j < m ==> KindKept(files, ReadEnd(base, j), PipeEnd(PipeId(base, j), false));
    }
  }

  /** `tables[t] = table`. */
  ghost function WithTable(tables: seq<Table>, t: nat, table: Table): seq<Table>
    requires t < |tables|
  {
    tables[t := table]
  }

  lemma PipeWired(tables: seq<Table>, others: seq<Table>, shell: nat, base: nat, fds: seq<PipeFds>, pc: seq<nat>,
                  rfd: nat, wfd: nat)
    requires Wired(tables, others, shell, base, fds, |fds|, Start, pc) && |pc| == |fds| && FdsOk(others[shell], fds)
    requires rfd < |tables[shell]| && wfd < |tables[shell]| && IsLowestFree(tables[shell], rfd)
    requires IsLowestFree(WithSlot(tables, shell, rfd, ReadEnd(base, |fds|))[shell], wfd)
    ensures FdsOk(others[shell], fds + [PipeFds(rfd, wfd)])
    ensures Wired(WithSlot(WithSlot(tables, shell, rfd, ReadEnd(base, |fds|)), shell, wfd, WriteEnd(base, |fds|)),
      others, shell, base,
                  fds + [PipeFds(rfd, wfd)], |fds|, Made, pc)
  {
    hide FdsOk, ShellTable, ChildTable, IsLowestFree;
    var fds' := fds + [PipeFds(rfd, wfd)];
    assert WithSlot(tables, shell, rfd, ReadEnd(base, |fds|))[shell] == Put(tables[shell], rfd, ReadEnd(base, |fds|));
    NextPipe(others[shell], base, fds, rfd, wfd);
    forall j | 0 <= j < |pc|
      ensures ChildTable(others[shell], base, fds', j, pc[j]) == ChildTable(others[shell], base, fds, j, pc[j])
    {
      ChildStays(others[shell], base, fds, PipeFds(rfd, wfd), j, pc[j]);
    }
  }

  /** A call of the shell, or one that needs no call, on its own table. */
  lemma ShellWired(tables: seq<Table>, others: seq<Table>, shell: nat, base: nat, fds: seq<PipeFds>, i: nat,
                   phase: Phase, i': nat, phase': Phase, pc: seq<nat>)
    requires Wired(tables, others, shell, base, fds, i, phase, pc)
    ensures Wired(WithTable(tables, shell, ShellTable(others[shell], base, fds, i', phase')), others, shell, base,
      fds, i', phase', pc)
  {
  }

  lemma ForkWired(tables: seq<Table>, others: seq<Table>, shell: nat, base: nat, fds: seq<PipeFds>, i: nat,
                  pc: seq<nat>)
    requires Wired(tables, others, shell, base, fds, i, Made, pc) && |pc| == i <= |fds| && FdsOk(others[shell], fds)
    ensures Wired(tables + [tables[shell]], others, shell, base, fds, i, Forked, pc + [0])
  {
    ForkedTable(others[shell], base, fds, i);
    hide FdsOk, ChildTable;
  }

  lemma ChildWired(tables: seq<Table>, others: seq<Table>, shell: nat, base: nat, fds: seq<PipeFds>, i: nat,
                   phase: Phase, pc: seq<nat>, j: nat, k: nat)
    requires Wired(tables, others, shell, base, fds, i, phase, pc) && j < |pc|
    ensures Wired(WithTable(tables, |others| + j, ChildTable(others[shell], base, fds, j, k)), others, shell, base,
      fds, i, phase, pc[j := k])
  {
    hide ShellTable, ChildTable;
  }

  /** The descriptors a child duplicates are the pipe ends it is to connect. */
  lemma ChildOperand(home: Table, base: nat, fds: seq<PipeFds>, j: nat)
    requires FdsOk(home, fds) && j <= |fds|
    ensures 0 < j ==>
      1 < Rfd(fds, j - 1) < |home| && ChildTable(home, base, fds, j, 0)[Rfd(fds, j - 1)] == ReadEnd(base, j - 1)
    ensures j < |fds| ==>
      1 < Wfd(fds, j) < |home| && ChildTable(home, base, fds, j, 2)[Wfd(fds, j)] == WriteEnd(base, j)
    ensures forall k | 0 <= k < 6 :: |ChildTable(home, base, fds, j, k)| == |home|
  {
    assert 0 < j ==> PairOk(home, fds[j - 1]);
    assert j < |fds| ==> PairOk(home, fds[j]);
  }

  /** Closing through the kernel is `CloseIn`, an unused descriptor included. */
  lemma CloseTables(tables: seq<Table>, tables': seq<Table>, t: nat, fd: int, r: int)
    requires t < |tables|
    requires r == if 0 <= fd < |tables[t]| && tables[t][fd] != NULL then 0 else -1
    requires r == -1 ==> tables' == tables
    requires r == 0 ==> tables' == WithSlot(tables, t, fd, NULL)
    ensures tables' == WithTable(tables, t, CloseIn(tables[t], fd))
  {
    assert WithTable(tables, t, tables[t]) == tables;
    if r == -1 {
      assert CloseIn(tables[t], fd) == tables[t];
    }
  }

  lemma ShellHas(tables: seq<Table>, others: seq<Table>, shell: nat, base: nat, fds: seq<PipeFds>, i: nat,
                 phase: Phase, pc: seq<nat>)
    requires Wired(tables, others, shell, base, fds, i, phase, pc)
    ensures shell < |others| && |tables| == |others| + |pc|
    ensures tables[shell] == ShellTable(others[shell], base, fds, i, phase)
  {
  }

  lemma ChildHas(tables: seq<Table>, others: seq<Table>, shell: nat, base: nat, fds: seq<PipeFds>, i: nat,
                 phase: Phase, pc: seq<nat>, j: nat)
    requires Wired(tables, others, shell, base, fds, i, phase, pc) && j < |pc|
    ensures shell < |others| && |tables| == |others| + |pc|
    ensures tables[|others| + j] == ChildTable(others[shell], base, fds, j, pc[j])
  {
  }

  lemma LowestBound(table: Table, fd: int)
    requires IsLowestFree(table, fd)
    ensures 0 <= fd < |table|
  {
  }

  /** The last segment makes no pipe. */
  lemma LastMade(home: Table, base: nat, fds: seq<PipeFds>)
    ensures ShellTable(home, base, fds, |fds|, Start) == ShellTable(home, base, fds, |fds|, Made)
  {
  }

  lemma FdsGrow(fds: seq<PipeFds>, more: PipeFds)
    ensures forall j | j < |fds| :: Rfd(fds + [more], j) == Rfd(fds, j) && Wfd(fds + [more], j) == Wfd(fds, j)
    ensures Rfd(fds + [more], |fds|) == more.rfd && Wfd(fds + [more], |fds|) == more.wfd
  {
  }

  lemma PipesBelow(files: map<nat, OpenFile>, pipes: map<nat, PipeState>, ends: map<(nat, bool), nat>, next: nat)
    requires PipesOk(files, pipes, ends) && IdsBelow(files, pipes, next)
    ensures EndsNamed(files, next)
  {
  }

  /** All that the shell's table may hold beside its own files. */
  lemma ShellHolds(home: Table, base: nat, fds: seq<PipeFds>, i: nat, phase: Phase, g: nat)
    requires g != NULL && g in ShellTable(home, base, fds, i, phase)
    ensures
      || g in home
      || (phase != Dropped && 0 < i <= |fds| && g == ReadEnd(base, i - 1))
      || (phase != Start && i < |fds| && (g == ReadEnd(base, i) || g == WriteEnd(base, i)))
  {
    hide Put;
    var first := if phase == Dropped then home else PutRead(home, base, fds, i - 1);
    if 0 < i <= |fds| {
      PutHolds(home, fds[i - 1].rfd, ReadEnd(base, i - 1), g);
    }
    if i < |fds| {
      PutHolds(first, fds[i].rfd, ReadEnd(base, i), g);
      PutHolds(PutRead(first, base, fds, i), fds[i].wfd, WriteEnd(base, i), g);
    }
  }

  /** The shell has both ends of pipe `j` in iteration `j`, and the read end until the next iteration drops it. */
  lemma ShellEnds(home: Table, base: nat, fds: seq<PipeFds>, i: nat, phase: Phase, j: nat)
    requires FdsOk(home, fds) && j < |fds| && j <= i && forall fd | 0 <= fd < |home| :: home[fd] < base
    ensures WriteEnd(base, j) in ShellTable(home, base, fds, i, phase) <==> i == j && phase != Start
    ensures ReadEnd(base, j) in ShellTable(home, base, fds, i, phase) <==>
            (i == j && phase != Start) || (i == j + 1 && phase != Dropped)
  {
    var table := ShellTable(home, base, fds, i, phase);
    ShellKeeps(home, base, fds, i, phase, j);
    if WriteEnd(base, j) in table {
      ShellHolds(home, base, fds, i, phase, WriteEnd(base, j));
    }
    if ReadEnd(base, j) in table {
      ShellHolds(home, base, fds, i, phase, ReadEnd(base, j));
    }
  }

  lemma ShellKeeps(home: Table, base: nat, fds: seq<PipeFds>, i: nat, phase: Phase, j: nat)
    requires FdsOk(home, fds) && j < |fds| && j <= i
    ensures i == j && phase != Start ==> WriteEnd(base, j) in ShellTable(home, base, fds, i, phase)
    ensures i == j && phase != Start ==> ReadEnd(base, j) in ShellTable(home, base, fds, i, phase)
    ensures i == j + 1 && phase != Dropped ==> ReadEnd(base, j) in ShellTable(home, base, fds, i, phase)
  {
    assert PairOk(home, fds[j]);
    if i == j && phase != Start {
      assert ShellTable(home, base, fds, i, phase)[fds[j].rfd] == ReadEnd(base, j);
      assert ShellTable(home, base, fds, i, phase)[fds[j].wfd] == WriteEnd(base, j);
    } else if i == j + 1 && phase != Dropped {
      assert ShellTable(home, base, fds, i, phase)[fds[j].rfd] == ReadEnd(base, j);
    }
  }

  /** Only child `j` ever holds the write end of pipe `j`, until it exits. */
  lemma ChildWrites(home: Table, base: nat, fds: seq<PipeFds>, k: nat, pc: nat, j: nat)
    requires FdsOk(home, fds) && j < |fds| && forall fd | 0 <= fd < |home| :: home[fd] < base
    ensures WriteEnd(base, j) in ChildTable(home, base, fds, k, pc) <==> k == j && pc < 6
  {
    if k == j && pc < 6 {
      assert PairOk(home, fds[j]) && (0 < j ==> PairOk(home, fds[j - 1]));
      assert ChildTable(home, base, fds, j, pc)[if pc < 4 then fds[j].wfd else 1] == WriteEnd(base, j);
    } else if WriteEnd(base, j) in ChildTable(home, base, fds, k, pc) {
      ChildHolds(home, base, fds, k, pc, WriteEnd(base, j));
    }
  }

  /** The read end is child `j`'s until its last set-up call, and child `j + 1`'s until its exit. */
  lemma ChildReads(home: Table, base: nat, fds: seq<PipeFds>, k: nat, pc: nat, j: nat)
    requires FdsOk(home, fds) && j < |fds| && forall fd | 0 <= fd < |home| :: home[fd] < base
    ensures ReadEnd(base, j) in ChildTable(home, base, fds, k, pc) <==> (k == j && pc < 5) || (k == j + 1 && pc < 6)
  {
    if k == j && pc < 5 {
      assert PairOk(home, fds[j]) && (0 < j ==> PairOk(home, fds[j - 1]));
      assert ChildTable(home, base, fds, j, pc)[fds[j].rfd] == ReadEnd(base, j);
    } else if k == j + 1 && pc < 6 {
      assert PairOk(home, fds[j]) && (k < |fds| ==> PairOk(home, fds[k]));
      assert ChildTable(home, base, fds, k, pc)[if pc < 2 then fds[j].rfd else 0] == ReadEnd(base, j);
    } else if ReadEnd(base, j) in ChildTable(home, base, fds, k, pc) {
      ChildHolds(home, base, fds, k, pc, ReadEnd(base, j));
    }
  }

  lemma PutHolds(table: Table, fd: nat, f: nat, g: nat)
    ensures g in Put(table, fd, f) ==> g in table || g == f
  {
  }

  /** All that the table of child `k` may hold beside the shell's own files. */
  lemma ChildHolds(home: Table, base: nat, fds: seq<PipeFds>, k: nat, pc: nat, g: nat)
    requires g != NULL && g in ChildTable(home, base, fds, k, pc)
    ensures
      || g in home
      || (pc < 6 && 0 < k <= |fds| && g == ReadEnd(base, k - 1))
      || (pc < 6 && k < |fds| && g == WriteEnd(base, k))
      || (pc < 5 && k < |fds| && g == ReadEnd(base, k))
  {
    hide Put;
    if pc < 6 {
      var stdin := if pc >= 1 && 0 < k <= |fds| then Put(home, 0, ReadEnd(base, k - 1)) else home;
      if 0 < k {
        PutHolds(home, 0, ReadEnd(base, k - 1), g);
      }
      var both := if pc >= 3 && k < |fds| then Put(stdin, 1, WriteEnd(base, k)) else stdin;
      PutHolds(stdin, 1, WriteEnd(base, k), g);
      var prev := if pc >= 2 then both else PutRead(both, base, fds, k - 1);
      if 0 < k <= |fds| {
        PutHolds(both, fds[k - 1].rfd, ReadEnd(base, k - 1), g);
      }
      var write := if pc >= 4 then prev else PutWrite(prev, base, fds, k);
      if k < |fds| {
        PutHolds(prev, fds[k].wfd, WriteEnd(base, k), g);
        PutHolds(write, fds[k].rfd, ReadEnd(base, k), g);
      }
    }
  }

  /** Some slot of some table holds `f`. */
  ghost predicate Held(tables: seq<Table>, f: nat) {
    exists t | 0 <= t < |tables| :: f in tables[t]
  }

  lemma FileHeld(files: map<nat, OpenFile>, tables: seq<Table>, f: nat)
    requires CountsOk(files, tables) && f != NULL && f != CONSOLE
    ensures f in files <==> Held(tables, f)
  {
    FileLives(files, tables, f);
    if f in files {
      var t, fd :| 0 <= t < |tables| && 0 <= fd < |tables[t]| && tables[t][fd] == f;
      assert f in tables[t];
    }
  }

  /** Somebody has the write end of pipe `j`: the shell in iteration `j`, child `j` from its fork to its exit. */
  ghost predicate WriteHeld(i: nat, phase: Phase, pc: seq<nat>, j: nat) {
    (i == j && phase != Start) || (j < |pc| && pc[j] < 6)
  }

  /** The read end: the shell into iteration `j + 1`, child `j` in its set-up, child `j + 1` until its exit. */
  ghost predicate ReadHeld(i: nat, phase: Phase, pc: seq<nat>, j: nat) {
    || (i == j && phase != Start) || (i == j + 1 && phase != Dropped)
    || (j < |pc| && pc[j] < 5) || (j + 1 < |pc| && pc[j + 1] < 6)
  }

  /** Who holds the ends of a pipe, at every moment. */
  lemma EndsHeld(tables: seq<Table>, others: seq<Table>, shell: nat, base: nat, fds: seq<PipeFds>, i: nat,
                 phase: Phase, pc: seq<nat>, j: nat)
    requires Wired(tables, others, shell, base, fds, i, phase, pc) && FdsOk(others[shell], fds)
    requires forall t, fd | 0 <= t < |others| && 0 <= fd < |others[t]| :: others[t][fd] < base
    requires j < |fds| && j <= i
    ensures Held(tables, WriteEnd(base, j)) <==> WriteHeld(i, phase, pc, j)
    ensures Held(tables, ReadEnd(base, j)) <==> ReadHeld(i, phase, pc, j)
  {
    hide FdsOk, ShellTable, ChildTable;
    ShellEnds(others[shell], base, fds, i, phase, j);
    forall t | 0 <= t < |others| && t != shell
      ensures WriteEnd(base, j) !in tables[t] && ReadEnd(base, j) !in tables[t]
    {
    }
    forall t | |others| <= t < |tables|
      ensures WriteEnd(base, j) in tables[t] <==> t - |others| == j && pc[j] < 6
      ensures ReadEnd(base, j) in tables[t] <==>
              (t - |others| == j && pc[j] < 5) || (t - |others| == j + 1 && pc[j + 1] < 6)
    {
      var k := t - |others|;
      ChildHas(tables, others, shell, base, fds, i, phase, pc, k);
      ChildWrites(others[shell], base, fds, k, pc[k], j);
      ChildReads(others[shell], base, fds, k, pc[k], j);
    }
    assert tables[shell] == ShellTable(others[shell], base, fds, i, phase);
    if j < |pc| {
      assert pc[j] < 6 ==> WriteEnd(base, j) in tables[|others| + j];
      assert pc[j] < 5 ==> ReadEnd(base, j) in tables[|others| + j];
    }
    if j + 1 < |pc| && pc[j + 1] < 6 {
      assert ReadEnd(base, j) in tables[|others| + (j + 1)];
    }
  }

  /** Of every pipe that still exists: what was written is what was read and what is in it. */
  ghost predicate StreamsOk(pipes: map<nat, PipeState>, base: nat, sent: seq<seq<bv8>>, got: seq<seq<bv8>>) {
    |got| == |sent| && forall j: nat | j < |sent| :: StreamOk(pipes, PipeId(base, j), sent[j], got[j])
  }

  ghost predicate StreamOk(pipes: map<nat, PipeState>, p: nat, sent: seq<bv8>, got: seq<bv8>) {
    got <= sent && (p in pipes ==> sent == got + pipes[p].data)
  }

  lemma StreamsStay(pipes: map<nat, PipeState>, pipes': map<nat, PipeState>, base: nat, sent: seq<seq<bv8>>,
                    got: seq<seq<bv8>>)
    requires StreamsOk(pipes, base, sent, got) && DataKept(pipes, pipes')
    ensures StreamsOk(pipes', base, sent, got)
  {
    forall j: nat | j < |sent|
      ensures StreamOk(pipes', PipeId(base, j), sent[j], got[j])
    {
      assert StreamOk(pipes, PipeId(base, j), sent[j], got[j]);
    }
  }

  lemma StreamsAdded(pipes: map<nat, PipeState>, base: nat, sent: seq<seq<bv8>>, got: seq<seq<bv8>>)
    requires StreamsOk(pipes, base, sent, got)
    ensures StreamsOk(pipes[PipeId(base, |sent|) := PipeState(true, true, [])], base, sent + [[]], got + [[]])
  {
    var pipes', sent', got' := pipes[PipeId(base, |sent|) := PipeState(true, true, [])], sent + [[]], got + [[]];
    forall j: nat | j < |sent'|
      ensures StreamOk(pipes', PipeId(base, j), sent'[j], got'[j])
    {
      assert j < |sent| ==> StreamOk(pipes, PipeId(base, j), sent[j], got[j]);
    }
  }

  /** Bytes taken from one pipe, or put into it. */
  lemma StreamsMove(pipes: map<nat, PipeState>, base: nat, sent: seq<seq<bv8>>, got: seq<seq<bv8>>, j: nat,
                    pipe: PipeState, more: seq<bv8>, taken: seq<bv8>)
    requires StreamsOk(pipes, base, sent, got) && j < |sent| && PipeId(base, j) in pipes
    requires pipes[PipeId(base, j)].data + more == taken + pipe.data
    ensures StreamsOk(pipes[PipeId(base, j) := pipe], base, sent[j := sent[j] + more], got[j := got[j] + taken])
  {
    var pipes', sent', got' := pipes[PipeId(base, j) := pipe], sent[j := sent[j] + more], got[j := got[j] + taken];
    var data := pipes[PipeId(base, j)].data;
    forall k: nat | k < |sent'|
      ensures StreamOk(pipes', PipeId(base, k), sent'[k], got'[k])
    {
      assert StreamOk(pipes, PipeId(base, k), sent[k], got[k]);
      if k == j {
        Associate(got[j], data, more);
        Associate(got[j], taken, pipe.data);
      }
    }
  }

  /** The next bytes of the pipe are the next of its stream. */
  lemma StreamAt(pipes: map<nat, PipeState>, base: nat, sent: seq<seq<bv8>>, got: seq<seq<bv8>>, j: nat)
    requires StreamsOk(pipes, base, sent, got) && j < |sent|
    ensures got[j] <= sent[j]
    ensures PipeId(base, j) in pipes ==>
      && sent[j] == got[j] + pipes[PipeId(base, j)].data
      && (sent[j] == got[j] <==> pipes[PipeId(base, j)].data == [])
  {
    assert StreamOk(pipes, PipeId(base, j), sent[j], got[j]);
  }

  /** So the flags of the pipe are these. */
  lemma PipeFlags(files: map<nat, OpenFile>, pipes: map<nat, PipeState>, ends: map<(nat, bool), nat>, base: nat,
                  m: nat, j: nat)
    requires PipesOk(files, pipes, ends) && EndsKept(files, base, m) && EndsNamed(files, base) && j < m
    ensures PipeId(base, j) in pipes <==> ReadEnd(base, j) in files || WriteEnd(base, j) in files
    ensures PipeId(base, j) in pipes ==>
      && (pipes[PipeId(base, j)].readOpen <==> ReadEnd(base, j) in files)
      && (pipes[PipeId(base, j)].writeOpen <==> WriteEnd(base, j) in files)
  {
    hide PipesOk;
    var p := PipeId(base, j);
    assert KindKept(files, ReadEnd(base, j), PipeEnd(p, false)) && KindKept(files, WriteEnd(base, j), PipeEnd(p, true));
    PipeLives(files, pipes, ends, p);
    assert ReadEnd(base, j) in files ==> files[ReadEnd(base, j)].kind == PipeEnd(p, false);
    assert WriteEnd(base, j) in files ==> files[WriteEnd(base, j)].kind == PipeEnd(p, true);
  }

  /** The bytes a read returned. */
  function Returned(r: ReadOutcome): seq<bv8> {
    if r.Got? then r.bytes else []
  }

  lemma HomeSize(home: Table, fds: seq<PipeFds>)
    requires FdsOk(home, fds)
    ensures 2 < |home|
  {
  }

  lemma EndOpen(files: map<nat, OpenFile>, tables: seq<Table>, t: nat, fd: nat, base: nat, m: nat, j: nat)
    requires CountsOk(files, tables) && EndsKept(files, base, m) && j < m && t < |tables| && fd < |tables[t]|
    requires tables[t][fd] == ReadEnd(base, j) || tables[t][fd] == WriteEnd(base, j)
    ensures tables[t][fd] in files && tables[t][fd] != NULL
    ensures files[tables[t][fd]].kind == PipeEnd(PipeId(base, j), tables[t][fd] == WriteEnd(base, j))
  {
    SlotOpen(files, tables, t, fd);
    assert KindKept(files, ReadEnd(base, j), PipeEnd(PipeId(base, j), false));
  }

  /** Standard input is the pipe before stage `j` of `n`, standard output the pipe after it, all else as in `home`. */
  ghost predicate Connected(table: Table, home: Table, base: nat, n: nat, j: nat) {
    && |table| == |home|
    && forall fd | 0 <= fd < |home| ::
      table[fd] == (if fd == 0 && 0 < j then ReadEnd(base, j - 1)
          else if fd == 1 && j < n - 1 then WriteEnd(base, j) else home[fd])
  }

  /**
   * One system call of the shell, of a child's set-up, or a child's exit; or a stretch of a read of stage
   * `j + 1` from pipe `j`, or of a write of stage `j` to it, up to its next yield or its return.
   */
  datatype Move =
    | Parent
    | Child(j: nat)
    | ExitOf(j: nat)
    | Read(j: nat, count: nat)
    | Write(j: nat, src: seq<bv8>, goesOn: bool)

  class Shell {
    const sys: Fds
    const shell: nat
    const n: nat
    /** The table of the first child; the others follow. */
    const first: nat
    var i: nat
    var phase: Phase
    var prevReadFd: int
    var pipefd: (int, int)
    /** The children, in order of their forks: how many set-up calls each has made. */
    var pc: seq<nat>
    /** A child's copy of `prev_read_fd`, `pipefd[0]` and `pipefd[1]` at its fork. */
    var locals: seq<(int, int, int)>
    ghost const others: seq<Table>
    ghost const base: nat
    ghost var fds: seq<PipeFds>
    /** Of each pipe: the bytes stage `j` has had accepted, and those stage `j + 1` has read. */
    ghost var sent: seq<seq<bv8>>
    ghost var got: seq<seq<bv8>>

    ghost predicate Valid()
      reads this, sys
    {
      && sys.Valid() && Wired(sys.tables, others, shell, base, fds, i, phase, pc)
      && FdsOk(others[shell], fds) && ThreeFree(others[shell]) && |others[shell]| == sys.maxFds
      && (forall t, fd | 0 <= t < |others| && 0 <= fd < |others[t]| :: others[t][fd] < base)
      && EndsKept(sys.files, base, |fds|) && EndsNamed(sys.files, base) && 1 < base && first == |others|
      && sys.nextId == base + 3 * |fds|
      && |sent| == |got| == |fds| && StreamsOk(sys.pipes, base, sent, got)
      && Counters()
    }

    ghost predicate Counters()
      reads this
    {
      && i <= n && (i == n ==> phase == Start) && 1 <= n
      && |pc| == |locals| == (if phase == Forked || phase == Dropped then i + 1 else i)
      && |fds| == (if phase != Start && i < n - 1 then i + 1 else if i < n then i else n - 1)
      && prevReadFd == Rfd(fds, i - 1)
      && (phase != Start ==> pipefd == (Rfd(fds, i), Wfd(fds, i)))
      && (forall j | 0 <= j < |pc| :: pc[j] <= 6 && locals[j] == (Rfd(fds, j - 1), Rfd(fds, j), Wfd(fds, j)))
    }

    constructor (sys: Fds, shell: nat, n: nat)
      requires sys.Valid() && shell < |sys.tables| && 1 <= n
      requires sys.tables[shell][0] != NULL && sys.tables[shell][1] != NULL && ThreeFree(sys.tables[shell])
      ensures Valid() && this.sys == sys && this.shell == shell && this.n == n && i == 0 && others == sys.tables
      ensures base == sys.nextId
    {
      this.sys, this.shell, this.n, first := sys, shell, n, |sys.tables|;
      i, phase, prevReadFd, pipefd, pc, locals := 0, Start, -1, (-1, -1), [], [];
      others, base, fds, sent, got := sys.tables, sys.nextId, [], [], [];
      new;
      SlotsBelow(sys.files, sys.pipes, sys.tables, sys.nextId);
      PipesBelow(sys.files, sys.pipes, sys.ends, sys.nextId);
    }

    /** One system call of the shell, and the assignments after it. */
    method ParentStep()
      requires Valid() && i < n
      modifies this, sys
      ensures Valid()
      ensures old(phase) == Dropped ==> i == old(i) + 1 && phase == Start
      ensures old(phase) != Dropped ==> i == old(i) && phase != old(phase) && phase != Start
      ensures |pc| == |old(pc)| + (if old(phase) == Made then 1 else 0) && old(pc) <= pc
      ensures old(sent) <= sent && old(got) <= got
    {
      hide Shell.Valid, Shell.Counters;
      match phase
      case Start => MakeNext();
      case Made => ForkChild();
      case Forked => DropPrevious();
      case Dropped => DropWrite();
    }

    /** `pipe`, except for the last segment. */
    method MakeNext()
      requires Valid() && i < n && phase == Start
      modifies this`pipefd, this`phase, this`fds, this`sent, this`got, sys
      ensures Valid() && phase == Made && old(sent) <= sent && old(got) <= got
    {
      hide CountsOk, PipesOk, IdsBelow, FdsOk, ThreeFree, Wired, EndsKept, EndsNamed, StreamsOk, WithPipe;
      hide TwoFree, ShellTable, ChildTable, IsLowestFree, Refs;
      ghost var files, tables := sys.files, sys.tables;
      ShellHas(tables, others, shell, base, fds, i, phase, pc);
      if i < n - 1 {
        RoomForPipe(others[shell], base, fds);
        var r, rfd, wfd := sys.MakePipe(shell, 3);
        assert r == 0;
        LowestBound(tables[shell], rfd);
        LowestBound(WithSlot(tables, shell, rfd, ReadEnd(base, |fds|))[shell], wfd);
        PipeWired(tables, others, shell, base, fds, pc, rfd, wfd);
        EndsAdded(files, base, |fds|);
        FdsGrow(fds, PipeFds(rfd, wfd));
        StreamsAdded(old(sys.pipes), base, sent, got);
        sent, got := sent + [[]], got + [[]];
        fds := fds + [PipeFds(rfd, wfd)];
        pipefd := (rfd, wfd);
      } else {
        ShellWired(tables, others, shell, base, fds, i, Start, i, Made, pc);
        LastMade(others[shell], base, fds);
        assert WithTable(tables, shell, tables[shell]) == tables;
        pipefd := (-1, -1);
      }
      phase := Made;
    }

    /** `fork`: the child's table and its locals are copies. */
    method ForkChild()
      requires Valid() && i < n && phase == Made
      modifies this`pc, this`locals, this`phase, sys
      ensures Valid() && phase == Forked && pc == old(pc) + [0]
    {
      hide CountsOk, PipesOk, IdsBelow, FdsOk, ThreeFree, Wired, EndsKept, EndsNamed, StreamsOk, ShellTable;
      hide ChildTable, Refs, KindsKept;
      ShellHas(sys.tables, others, shell, base, fds, i, phase, pc);
      ForkWired(sys.tables, others, shell, base, fds, i, pc);
      ghost var files := sys.files;
      var _ := sys.TableDup(shell);
      EndsStay(files, sys.files, base, |fds|);
      pc := pc + [0];
      locals := locals + [(prevReadFd, pipefd.0, pipefd.1)];
      phase := Forked;
    }

    /** `if (prev_read_fd >= 0) close(prev_read_fd)`. */
    method DropPrevious()
      requires Valid() && i < n && phase == Forked
      modifies this`phase, sys
      ensures Valid() && phase == Dropped
    {
      hide CountsOk, PipesOk, IdsBelow, FdsOk, ThreeFree, Wired, EndsKept, EndsNamed, StreamsOk, ShellTable;
      hide ChildTable, Refs, KindsKept, DataKept, CloseIn;
      ShellHas(sys.tables, others, shell, base, fds, i, phase, pc);
      CloseMaybe(shell, prevReadFd);
      ShellCalls(others[shell], base, fds, i);
      ShellWired(old(sys.tables), others, shell, base, fds, i, Forked, i, Dropped, pc);
      phase := Dropped;
    }

    /** `if (pipefd[1] >= 0) close(pipefd[1]); prev_read_fd = pipefd[0]`. */
    method DropWrite()
      requires Valid() && i < n && phase == Dropped
      modifies this`phase, this`i, this`prevReadFd, sys
      ensures Valid() && phase == Start && i == old(i) + 1
    {
      hide CountsOk, PipesOk, IdsBelow, FdsOk, ThreeFree, Wired, EndsKept, EndsNamed, StreamsOk, ShellTable;
      hide ChildTable, Refs, KindsKept, DataKept, CloseIn;
      ShellHas(sys.tables, others, shell, base, fds, i, phase, pc);
      CloseMaybe(shell, pipefd.1);
      ShellCalls(others[shell], base, fds, i);
      ShellWired(old(sys.tables), others, shell, base, fds, i, Dropped, i + 1, Start, pc);
      prevReadFd := pipefd.0;
      i, phase := i + 1, Start;
    }

    /** `if (fd >= 0) close(fd)` by the task of table `t`. */
    method CloseMaybe(t: nat, fd: int)
      requires sys.Valid() && t < |sys.tables| && EndsKept(sys.files, base, |fds|) && EndsNamed(sys.files, base)
      requires StreamsOk(sys.pipes, base, sent, got)
      modifies sys
      ensures sys.Valid() && sys.nextId == old(sys.nextId) && EndsKept(sys.files, base, |fds|)
      ensures EndsNamed(sys.files, base)
      ensures sys.tables == WithTable(old(sys.tables), t, CloseIn(old(sys.tables)[t], fd))
      ensures StreamsOk(sys.pipes, base, sent, got)
    {
      hide CountsOk, PipesOk, IdsBelow, EndsKept, EndsNamed, StreamsOk, Refs, KindsKept, DataKept, CloseIn;
      var r := -1;
      if fd >= 0 {
        r := sys.Close(t, fd);
        EndsStay(old(sys.files), sys.files, base, |fds|);
        StreamsStay(old(sys.pipes), sys.pipes, base, sent, got);
      }
      CloseTables(old(sys.tables), sys.tables, t, fd, r);
    }

    /** One of child `j`'s five set-up calls. */
    method ChildStep(j: nat)
      requires Valid() && j < |pc| && pc[j] < 5
      modifies this`pc, sys
      ensures Valid() && pc == old(pc)[j := old(pc)[j] + 1]
    {
      hide CountsOk, PipesOk, IdsBelow, FdsOk, ThreeFree, Wired, EndsKept, EndsNamed, StreamsOk, ShellTable;
      hide ChildTable, Refs, KindsKept, DataKept, ChildCall;
      ChildHas(sys.tables, others, shell, base, fds, i, phase, pc, j);
      ChildCalls(others[shell], base, fds, j, pc[j]);
      ChildWired(sys.tables, others, shell, base, fds, i, phase, pc, j, pc[j] + 1);
      SetUpCall(j);
      pc := pc[j := pc[j] + 1];
    }

    /** The call itself, by the child's own copies of the variables. */
    method SetUpCall(j: nat)
      requires Valid() && j < |pc| && pc[j] < 5
      modifies sys
      ensures sys.Valid() && sys.nextId == old(sys.nextId) && EndsKept(sys.files, base, |fds|)
      ensures EndsNamed(sys.files, base)
      ensures sys.tables == WithTable(old(sys.tables), first + j, ChildCall(old(sys.tables)[first + j], fds, j, pc[j]))
      ensures StreamsOk(sys.pipes, base, sent, got)
    {
      hide CountsOk, PipesOk, IdsBelow, FdsOk, ThreeFree, Wired, EndsKept, EndsNamed, StreamsOk, ShellTable;
      hide ChildTable, Refs, KindsKept, DataKept, CloseIn, DupIn;
      ChildHas(sys.tables, others, shell, base, fds, i, phase, pc, j);
      ChildOperand(others[shell], base, fds, j);
      var (prev, rfd, wfd) := locals[j];
      match pc[j]
      case 0 => DupMaybe(first + j, prev, 0);
      case 1 => CloseMaybe(first + j, prev);
      case 2 => DupMaybe(first + j, wfd, 1);
      case 3 => CloseMaybe(first + j, wfd);
      case _ => CloseMaybe(first + j, rfd);
    }

    /** `if (oldfd >= 0) dup2(oldfd, newfd)` by the task of table `t`. */
    method DupMaybe(t: nat, oldfd: int, newfd: nat)
      requires sys.Valid() && t < |sys.tables| && EndsKept(sys.files, base, |fds|) && EndsNamed(sys.files, base)
      requires oldfd >= 0 ==> oldfd < sys.maxFds && newfd < sys.maxFds && oldfd != newfd && sys.tables[t][oldfd] != NULL
      requires StreamsOk(sys.pipes, base, sent, got)
      modifies sys
      ensures sys.Valid() && sys.nextId == old(sys.nextId) && EndsKept(sys.files, base, |fds|)
      ensures EndsNamed(sys.files, base)
      ensures sys.tables == WithTable(old(sys.tables), t, DupIn(old(sys.tables)[t], oldfd, newfd))
      ensures StreamsOk(sys.pipes, base, sent, got)
    {
      hide CountsOk, PipesOk, IdsBelow, EndsKept, EndsNamed, StreamsOk, Refs, KindsKept, DataKept;
      if oldfd >= 0 {
        var _ := sys.Dup2(t, oldfd, newfd);
        EndsStay(old(sys.files), sys.files, base, |fds|);
        StreamsStay(old(sys.pipes), sys.pipes, base, sent, got);
      } else {
        assert WithTable(sys.tables, t, sys.tables[t]) == sys.tables;
      }
    }

    /** Child `j` exits, whatever it has done with its command: its table is emptied. */
    method ChildExit(j: nat)
      requires Valid() && j < |pc| && pc[j] == 5
      modifies this`pc, sys
      ensures Valid() && pc == old(pc)[j := 6]
    {
      hide CountsOk, PipesOk, IdsBelow, FdsOk, ThreeFree, Wired, EndsKept, EndsNamed, StreamsOk, ShellTable;
      hide Refs, KindsKept, DataKept;
      ChildHas(sys.tables, others, shell, base, fds, i, phase, pc, j);
      ChildWired(sys.tables, others, shell, base, fds, i, phase, pc, j, 6);
      ghost var tables, files := sys.tables, sys.files;
      sys.TableDestroy(first + j);
      EndsStay(files, sys.files, base, |fds|);
      StreamsStay(old(sys.pipes), sys.pipes, base, sent, got);
      assert ChildTable(others[shell], base, fds, j, 6) == Empty(sys.maxFds);
      assert sys.tables == WithTable(tables, |others| + j, Empty(sys.maxFds));
      pc := pc[j := 6];
    }

    /** When the loop is over the shell and everyone else have the tables they started with. */
    lemma ShellRestored()
      requires Valid() && i == n
      ensures |sys.tables| == first + n && |fds| == n - 1 && prevReadFd == -1
      ensures forall t | 0 <= t < first :: sys.tables[t] == others[t]
    {
    }

    /**
     * And a child that has made its calls has its two neighbours on descriptors 0 and 1, and nothing else of
     * the pipes.
     */
    lemma Launched(j: nat)
      requires Valid() && i == n && j < n && pc[j] == 5
      ensures |sys.tables| == first + n && Connected(sys.tables[first + j], others[shell], base, n, j)
    {
      hide PipesOk, CountsOk, EndsKept, EndsNamed, StreamsOk, FdsOk, ThreeFree, ChildTable;
      ChildHas(sys.tables, others, shell, base, fds, i, phase, pc, j);
      ChildDone(others[shell], base, fds, j);
    }

    /** At every moment: which ends of pipe `j` are open, and whether there still is a pipe. */
    lemma OpenEnds(j: nat)
      requires Valid() && j < |fds|
      ensures
        var p, write, read := PipeId(base, j), WriteHeld(i, phase, pc, j), ReadHeld(i, phase, pc, j);
        && (p in sys.pipes <==> write || read)
        && (p in sys.pipes ==> sys.pipes[p].writeOpen == write && sys.pipes[p].readOpen == read)
    {
      hide PipesOk, CountsOk, EndsKept, EndsNamed, StreamsOk, Wired, FdsOk, ThreeFree, WriteHeld, ReadHeld;
      EndsHeld(sys.tables, others, shell, base, fds, i, phase, pc, j);
      FileHeld(sys.files, sys.tables, WriteEnd(base, j));
      FileHeld(sys.files, sys.tables, ReadEnd(base, j));
      PipeFlags(sys.files, sys.pipes, sys.ends, base, |fds|, j);
    }

    /** Descriptor `fd` of child `k`, which has made its calls, is this end of pipe `j`. */
    lemma ChildOnPipe(k: nat, fd: nat, j: nat)
      requires Valid() && k < |pc| && pc[k] == 5 && j < |fds|
      requires (fd == 0 && k == j + 1) || (fd == 1 && k == j)
      ensures sys.OnPipe(first + k, fd, PipeId(base, j))
    {
      hide PipesOk, CountsOk, EndsKept, EndsNamed, StreamsOk, FdsOk, ThreeFree, ChildTable, Wired;
      ChildHas(sys.tables, others, shell, base, fds, i, phase, pc, k);
      ChildDone(others[shell], base, fds, k);
      HomeSize(others[shell], fds);
      EndOpen(sys.files, sys.tables, first + k, fd, base, |fds|, j);
    }

    /**
     * Stage `j + 1` reads its standard input: end of file exactly when stage `j` has exited and everything
     * it had accepted has been read.
     */
    method ReadStdin(j: nat, count: nat) returns (r: ReadOutcome)
      requires Valid() && j < |fds| && j + 1 < |pc| && pc[j + 1] == 5
      modifies sys`pipes, this`got
      ensures Valid() && PipeId(base, j) in sys.pipes
      ensures got == old(got)[j := old(got)[j] + Returned(r)]
      ensures r.Eof? <==> old(got)[j] == sent[j] && pc[j] == 6
      ensures r.Wait? <==> old(got)[j] == sent[j] && pc[j] != 6
      ensures r.Got? ==> |r.bytes| == Min(count, |sent[j]| - |old(got)[j]|)
    {
      hide PipesOk, CountsOk, EndsKept, EndsNamed, StreamsOk, FdsOk, ThreeFree, Wired;
      OpenEnds(j);
      ChildOnPipe(j + 1, 0, j);
      StreamAt(sys.pipes, base, sent, got, j);
      ghost var pipes, p := sys.pipes, PipeId(base, j);
      ghost var q;
      r, q := sys.ReadPipe(first + j + 1, 0, count);
      assert pipes[p].data + [] == Returned(r) + sys.pipes[p].data;
      StreamsMove(pipes, base, sent, got, j, sys.pipes[p], [], Returned(r));
      assert sent[j] + [] == sent[j] && sent[j := sent[j]] == sent;
      got := got[j := got[j] + Returned(r)];
    }

    /**
     * Stage `j` writes to its standard output: as much as there is room for is accepted; short of that it
     * yields on a full pipe, or fails because nobody has the read end any more.
     */
    method WriteStdout(j: nat, src: seq<bv8>, goesOn: bool) returns (r: WriteOutcome, count: nat)
      requires Valid() && j < |fds| && j < |pc| && pc[j] == 5
      modifies sys`pipes, this`sent
      ensures Valid() && PipeId(base, j) in sys.pipes && count <= |src|
      ensures sent == old(sent)[j := old(sent)[j] + src[..count]]
      ensures
        var full := sys.pipeSize <= |sent[j]| - |got[j]|;
        && (!goesOn && !ReadHeld(i, phase, pc, j) ==> r == BrokenPipe && count == 0)
        && (goesOn || ReadHeld(i, phase, pc, j) ==>
              && (r == Written <==> count == |src|) && (r != Written ==> full)
              && (r == BrokenPipe <==> count < |src| && !ReadHeld(i, phase, pc, j)))
    {
      hide PipesOk, CountsOk, EndsKept, EndsNamed, StreamsOk, FdsOk, ThreeFree, Wired, ReadHeld, IdsBelow, Fits;
      OpenEnds(j);
      ChildOnPipe(j, 1, j);
      StreamAt(sys.pipes, base, sent, got, j);
      ghost var pipes, p := sys.pipes, PipeId(base, j);
      ghost var q;
      r, count, q := sys.WritePipe(first + j, 1, src, goesOn);
      assert pipes[p].data + src[..count] == [] + sys.pipes[p].data;
      StreamsMove(pipes, base, sent, got, j, sys.pipes[p], src[..count], []);
      assert got[j] + [] == got[j] && got[j := got[j]] == got;
      sent := sent[j := sent[j] + src[..count]];
      StreamAt(sys.pipes, base, sent, got, j);
    }

    /**
     * What a run leaves of each pipe: bytes are only added to the two logs, none to the first once stage `j`
     * has exited.
     */
    twostate predicate Onward()
      reads this
    {
      && |old(pc)| <= |pc| && |old(sent)| <= |sent| && |old(got)| <= |got|
      && (forall j | 0 <= j < |old(pc)| && old(pc)[j] == 6 :: pc[j] == 6)
      && (forall j | 0 <= j < |old(sent)| ::
         old(sent)[j] <= sent[j] && (j < |old(pc)| && old(pc)[j] == 6 ==> sent[j] == old(sent)[j]))
      && (forall j | 0 <= j < |old(got)| :: old(got)[j] <= got[j])
    }

    /**
     * Any interleaving of the shell, its children's calls, reads, writes and exits; a move that is not
     * possible is skipped.
     */
    method Run(moves: seq<Move>)
      requires Valid()
      modifies this, sys
      ensures Valid() && Onward()
    {
      for k := 0 to |moves|
        invariant Valid() && Onward()
      {
        Make(moves[k]);
      }
    }

    /** Segment `j` and `j + 1` have their pipe by the time either child is there. */
    lemma Sizes(j: nat)
      requires Valid()
      ensures |sent| == |got| == |fds|
      ensures j < |pc| && j < n - 1 ==> j < |fds|
      ensures j + 1 < |pc| ==> j < |fds|
    {
      hide Wired, FdsOk, ThreeFree, EndsKept, EndsNamed, StreamsOk;
    }

    method Make(move: Move)
      requires Valid()
      modifies this, sys
      ensures Valid() && Onward()
    {
      hide Shell.Valid;
      Sizes(0);
      match move
      case Parent =>
        if i < n {
          ParentStep();
        }
      case Child(j) =>
        if j < |pc| && pc[j] < 5 {
          ChildStep(j);
        }
      case ExitOf(j) =>
        if j < |pc| && pc[j] == 5 {
          ChildExit(j);
        }
      case Read(j, count) =>
        if j + 1 < |pc| && pc[j + 1] == 5 {
          Sizes(j);
          var _ := ReadStdin(j, count);
        }
      case Write(j, src, goesOn) =>
        if j < n - 1 && j < |pc| && pc[j] == 5 {
          Sizes(j);
          var _, _ := WriteStdout(j, src, goesOn);
        }
    }

    /** So an end of file is final: no later move of the run brings stage `j + 1` another byte. */
    twostate lemma StaysAtEof(j: nat)
      requires Valid() && old(Valid()) && Onward() && j < |old(pc)| && j < |old(sent)| && |old(got)| == |old(sent)|
      requires old(pc)[j] == 6 && old(got)[j] == old(sent)[j]
      ensures j < |fds| && got[j] == sent[j] == old(got)[j]
    {
      Streams(j);
    }

    /** Over every run: what stage `j + 1` has read, then what is in the pipe, is what stage `j` has had accepted. */
    lemma Streams(j: nat)
      requires Valid() && j < |fds|
      ensures got[j] <= sent[j]
      ensures PipeId(base, j) in sys.pipes ==> sent[j] == got[j] + sys.pipes[PipeId(base, j)].data
    {
      hide StreamsOk, PipesOk, CountsOk, EndsKept, EndsNamed, FdsOk, ThreeFree, Wired;
      StreamAt(sys.pipes, base, sent, got, j);
    }

    /**
     * The reading loop of the built-in filters, once the stage before has exited: it gets exactly the bytes
     * of that stage that are still to be read, then end of file.
     */
    method Drain(j: nat, count: nat) returns (out: seq<bv8>)
      requires Valid() && j < |fds| && j + 1 < |pc| && pc[j + 1] == 5 && pc[j] == 6 && 0 < count
      modifies sys`pipes, this`got
      ensures Valid() && got[j] == sent[j] == old(got)[j] + out
    {
      hide PipesOk, CountsOk, EndsKept, EndsNamed, StreamsOk, FdsOk, ThreeFree, ChildTable, Wired, sys.Valid;
      out := [];
      Streams(j);
      var r := ReadStdin(j, count);
      while r.Got?
        invariant Valid() && |got| == |sent| && got[j] == old(got)[j] + out + Returned(r)
        invariant r.Got? ==> r.bytes != []
        invariant !r.Wait? && (r.Eof? ==> got[j] == sent[j])
        decreases |sent[j]| - |got[j]| + |Returned(r)|
      {
        out := out + r.bytes;
        Streams(j);
        r := ReadStdin(j, count);
        Streams(j);
      }
      Streams(j);
    }
  }

  lemma SlotsBelow(files: map<nat, OpenFile>, pipes: map<nat, PipeState>, tables: seq<Table>, next: nat)
    requires CountsOk(files, tables) && IdsBelow(files, pipes, next)
    ensures forall t, fd | 0 <= t < |tables| && 0 <= fd < |tables[t]| :: tables[t][fd] < next
  {
    forall t, fd | 0 <= t < |tables| && 0 <= fd < |tables[t]|
      ensures tables[t][fd] < next
    {
      if tables[t][fd] != NULL {
        SlotOpen(files, tables, t, fd);
      }
    }
  }
}
