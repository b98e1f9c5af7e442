/**
 * Open files shared by the descriptor tables of all tasks.  Objects are named by the allocation
 * that made them; freeing one removes it, so a use after free would be a missing key.
 */
module FdTables {
  import opened Common
  import opened Pipes

  const NULL: nat := 0
  /** The statically allocated console file, never freed. */
  const CONSOLE: nat := 1

  datatype Kind =
    | Console
    | File(firstCluster: nat, fileSize: nat)
    | PipeEnd(pipe: nat, write: bool)

  datatype OpenFile = OpenFile(kind: Kind, refCount: int, position: nat)

  type Table = seq<nat>

  /** The slots of all tables that hold `f`. */
  ghost function Refs(tables: seq<Table>, f: nat): nat {
    if tables == [] then 0 else Refs(tables[..|tables| - 1], f) + multiset(tables[|tables| - 1])[f]
  }

  lemma {:induction false} RefsUpdate(tables: seq<Table>, t: nat, table: Table, f: nat)
    requires t < |tables|
    ensures Refs(tables[t := table], f) == Refs(tables, f) - multiset(tables[t])[f] + multiset(table)[f]
  {
    var last := |tables| - 1;
    if t == last {
      assert tables[t := table][..last] == tables[..last];
    } else {
      RefsUpdate(tables[..last], t, table, f);
      assert tables[t := table][..last] == tables[..last][t := table];
    }
  }

  /** `tables[t].fds[fd] = g`. */
  function WithSlot(tables: seq<Table>, t: nat, fd: nat, g: nat): seq<Table>
    requires t < |tables| && fd < |tables[t]|
  {
    var table: Table := tables[t][fd := g];
    tables[t := table]
  }

  lemma WithSlotTwice(tables: seq<Table>, t: nat, fd: nat, g: nat, h: nat)
    requires t < |tables| && fd < |tables[t]|
    ensures WithSlot(WithSlot(tables, t, fd, g), t, fd, h) == WithSlot(tables, t, fd, h)
  {
    var once: Table := tables[t][fd := g];
    var twice: Table := once[fd := h];
    assert twice == tables[t][fd := h];
  }

  /** Storing `g` in one slot moves one reference from the old content to `g`. */
  lemma RefsStore(tables: seq<Table>, t: nat, fd: nat, g: nat, f: nat)
    requires t < |tables| && fd < |tables[t]|
    ensures Refs(WithSlot(tables, t, fd, g), f) ==
            Refs(tables, f) - (if tables[t][fd] == f then 1 else 0) + (if g == f then 1 else 0)
  {
    var table: Table := tables[t][fd := g];
    RefsUpdate(tables, t, table, f);
    assert multiset(table) == multiset(tables[t]) - multiset{tables[t][fd]} + multiset{g};
  }

  lemma {:induction false} RefsSlot(tables: seq<Table>, t: nat, fd: nat)
    requires t < |tables| && fd < |tables[t]|
    ensures 0 < Refs(tables, tables[t][fd])
  {
    if t < |tables| - 1 {
      RefsSlot(tables[..|tables| - 1], t, fd);
    } else {
      assert tables[t][fd] in multiset(tables[t]);
    }
  }

  /** Every reference count is the number of slots that point at the file; others are not pointed at. */
  ghost predicate CountsOk(files: map<nat, OpenFile>, tables: seq<Table>) {
    && NULL !in files && CONSOLE in files && files[CONSOLE].kind == Console
    && (forall f | f in files :: files[f].refCount == Refs(tables, f) && (f == CONSOLE || 0 < files[f].refCount))
    && (forall f | f in files && files[f].kind == Console :: f == CONSOLE)
    && (forall f: nat | f != NULL && f !in files :: Refs(tables, f) == 0)
  }

  /** The open flags of a pipe say which of its two files exist; `ends` names them. */
  ghost predicate PipesOk(files: map<nat, OpenFile>, pipes: map<nat, PipeState>, ends: map<(nat, bool), nat>) {
    && (forall f | f in files && files[f].kind.PipeEnd? ::
          (files[f].kind.pipe, files[f].kind.write) in ends && ends[(files[f].kind.pipe, files[f].kind.write)] == f)
    && (forall e | e in ends :: e.0 in pipes && ends[e] in files && files[ends[e]].kind == PipeEnd(e.0, e.1))
    && (forall p | p in pipes :: pipes[p].readOpen == ((p, false) in ends) && pipes[p].writeOpen == ((p, true) in ends))
    && (forall p | p in pipes :: pipes[p].readOpen || pipes[p].writeOpen)
  }

  ghost predicate IdsBelow(files: map<nat, OpenFile>, pipes: map<nat, PipeState>, next: nat) {
    CONSOLE < next && (forall f | f in files :: f < next) && (forall p | p in pipes :: p < next)
  }

  /** Surviving files are what they were. */
  ghost predicate KindsKept(files: map<nat, OpenFile>, files': map<nat, OpenFile>) {
    forall f | f in files' :: f in files && files'[f].kind == files[f].kind && files'[f].position == files[f].position
  }

  predicate IsLowestFree(table: Table, fd: int) {
    0 <= fd < |table| && table[fd] == NULL && forall i | 0 <= i < fd :: table[i] != NULL
  }

  /** The files after one reference to `f` is gone. */
  function Dropped(files: map<nat, OpenFile>, f: nat): map<nat, OpenFile>
    requires f in files
  {
    if files[f].refCount <= 1 && f != CONSOLE then files - {f}
    else files[f := files[f].(refCount := files[f].refCount - 1)]
  }

  /** A last reference closes its end of the pipe; a pipe with no end left is gone. */
  function DroppedPipes(files: map<nat, OpenFile>, pipes: map<nat, PipeState>, f: nat): map<nat, PipeState>
    requires f in files && (files[f].kind.PipeEnd? ==> files[f].kind.pipe in pipes)
  {
    if !files[f].kind.PipeEnd? || files[f].refCount > 1 then pipes
    else
      var p := files[f].kind.pipe;
      if files[f].kind.write then
        if pipes[p].readOpen then pipes[p := pipes[p].(writeOpen := false)] else pipes - {p}
      else
        if pipes[p].writeOpen then pipes[p := pipes[p].(readOpen := false)] else pipes - {p}
  }

  ghost function DroppedEnds(files: map<nat, OpenFile>, ends: map<(nat, bool), nat>, f: nat): map<(nat, bool), nat>
    requires f in files
  {
    if !files[f].kind.PipeEnd? || files[f].refCount > 1 then ends
        else ends - {(files[f].kind.pipe, files[f].kind.write)}
  }

  lemma CloseCounts(files: map<nat, OpenFile>, tables: seq<Table>, t: nat, fd: nat)
    requires CountsOk(files, tables) && t < |tables| && fd < |tables[t]| && tables[t][fd] != NULL
    ensures tables[t][fd] in files && (files[tables[t][fd]].kind.PipeEnd? ==> tables[t][fd] != CONSOLE)
    ensures CountsOk(Dropped(files, tables[t][fd]), WithSlot(tables, t, fd, NULL))
  {
    var f := tables[t][fd];
    RefsSlot(tables, t, fd);
    forall g: nat | g != NULL
      ensures Refs(WithSlot(tables, t, fd, NULL), g) == Refs(tables, g) - (if g == f then 1 else 0)
    {
      RefsStore(tables, t, fd, NULL, g);
    }
  }

  lemma ClosePipes(files: map<nat, OpenFile>, pipes: map<nat, PipeState>, ends: map<(nat, bool), nat>, f: nat)
    requires PipesOk(files, pipes, ends) && f in files && f != NULL && (files[f].kind.PipeEnd? ==> f != CONSOLE)
    ensures files[f].kind.PipeEnd? ==> files[f].kind.pipe in pipes
    ensures PipesOk(Dropped(files, f), DroppedPipes(files, pipes, f), DroppedEnds(files, ends, f))
  {
    if files[f].kind.PipeEnd? && files[f].refCount <= 1 {
      LastClose(files, pipes, ends, f);
    }
  }

  /** The last reference to one end of a pipe goes. */
  lemma LastClose(files: map<nat, OpenFile>, pipes: map<nat, PipeState>, ends: map<(nat, bool), nat>, f: nat)
    requires PipesOk(files, pipes, ends) && f in files && f != CONSOLE && files[f].kind.PipeEnd?
    requires files[f].refCount <= 1
    ensures files[f].kind.pipe in pipes
    ensures PipesOk(files - {f}, DroppedPipes(files, pipes, f), ends - {(files[f].kind.pipe, files[f].kind.write)})
  {
    var p, w := files[f].kind.pipe, files[f].kind.write;
    assert (p, w) in ends && ends[(p, w)] == f;
    var files', pipes', ends' := files - {f}, DroppedPipes(files, pipes, f), ends - {(p, w)};
    forall g | g in files' && files'[g].kind.PipeEnd?
      ensures (files'[g].kind.pipe, files'[g].kind.write) in ends'
      ensures ends'[(files'[g].kind.pipe, files'[g].kind.write)] == g
    {
    }
    forall e | e in ends'
      ensures e.0 in pipes' && ends'[e] in files' && files'[ends'[e]].kind == PipeEnd(e.0, e.1)
    {
      assert e == (e.0, e.1);
    }
  }

  lemma CloseKept(files: map<nat, OpenFile>, pipes: map<nat, PipeState>, next: nat, f: nat)
    requires f in files && (files[f].kind.PipeEnd? ==> files[f].kind.pipe in pipes) && IdsBelow(files, pipes, next)
    ensures IdsBelow(Dropped(files, f), DroppedPipes(files, pipes, f), next)
    ensures KindsKept(files, Dropped(files, f)) && DataKept(pipes, DroppedPipes(files, pipes, f))
  {
  }

  /** A file other than the console exists exactly while some slot points at it. */
  lemma FileLives(files: map<nat, OpenFile>, tables: seq<Table>, f: nat)
    requires CountsOk(files, tables) && f != NULL && f != CONSOLE
    ensures f in files <==> exists t, fd :: 0 <= t < |tables| && 0 <= fd < |tables[t]| && tables[t][fd] == f
  {
    if 0 < Refs(tables, f) {
      RefsSomewhere(tables, f);
    }
    if t, fd :| 0 <= t < |tables| && 0 <= fd < |tables[t]| && tables[t][fd] == f {
      RefsSlot(tables, t, fd);
    }
  }

  lemma {:induction false} RefsSomewhere(tables: seq<Table>, f: nat)
    requires 0 < Refs(tables, f)
    ensures exists t, fd :: 0 <= t < |tables| && 0 <= fd < |tables[t]| && tables[t][fd] == f
  {
    var last := |tables| - 1;
    if f in multiset(tables[last]) {
      assert f in tables[last];
      var fd :| 0 <= fd < |tables[last]| && tables[last][fd] == f;
      assert 0 <= last < |tables| && 0 <= fd < |tables[last]| && tables[last][fd] == f;
    } else {
      RefsSomewhere(tables[..last], f);
      var t, fd :| 0 <= t < last && 0 <= fd < |tables[..last][t]| && tables[..last][t][fd] == f;
      assert tables[t][fd] == f;
    }
  }

  /** A pipe exists exactly while one of its files does, and its flags say which. */
  lemma PipeLives(files: map<nat, OpenFile>, pipes: map<nat, PipeState>, ends: map<(nat, bool), nat>, p: nat)
    requires PipesOk(files, pipes, ends)
    ensures p in pipes <==> exists f :: f in files && files[f].kind.PipeEnd? && files[f].kind.pipe == p
    ensures p in pipes ==> (pipes[p].readOpen <==> exists f :: f in files && files[f].kind == PipeEnd(p, false))
    ensures p in pipes ==> (pipes[p].writeOpen <==> exists f :: f in files && files[f].kind == PipeEnd(p, true))
  {
    if p in pipes {
      assert (p, false) in ends ==> files[ends[(p, false)]].kind == PipeEnd(p, false);
      assert (p, true) in ends ==> files[ends[(p, true)]].kind == PipeEnd(p, true);
    }
  }

  lemma EndsInPipes(files: map<nat, OpenFile>, pipes: map<nat, PipeState>, ends: map<(nat, bool), nat>, f: nat)
    requires PipesOk(files, pipes, ends) && f in files && files[f].kind.PipeEnd?
    ensures files[f].kind.pipe in pipes
    ensures files[f].kind.write ==> pipes[files[f].kind.pipe].writeOpen
    ensures !files[f].kind.write ==> pipes[files[f].kind.pipe].readOpen
  {
  }

  /** Bytes going in or out change nothing else. */
  lemma PipeMoves(files: map<nat, OpenFile>, pipes: map<nat, PipeState>, ends: map<(nat, bool), nat>, next: nat, p: nat,
                  data: seq<bv8>, size: nat)
    requires PipesOk(files, pipes, ends) && IdsBelow(files, pipes, next) && Fits(pipes, size) && p in pipes
    requires |data| <= size || |data| <= |pipes[p].data|
    ensures PipesOk(files, pipes[p := pipes[p].(data := data)], ends)
    ensures IdsBelow(files, pipes[p := pipes[p].(data := data)], next)
    ensures Fits(pipes[p := pipes[p].(data := data)], size)
  {
  }

  lemma KeptReflexive(files: map<nat, OpenFile>, pipes: map<nat, PipeState>)
    ensures KindsKept(files, files) && DataKept(pipes, pipes)
  {
  }

  function Referenced(files: map<nat, OpenFile>, f: nat): map<nat, OpenFile>
    requires f in files
  {
    files[f := files[f].(refCount := files[f].refCount + 1)]
  }

  lemma ReferenceOk(files: map<nat, OpenFile>, pipes: map<nat, PipeState>, ends: map<(nat, bool), nat>,
                    tables: seq<Table>, t: nat, fd: nat, f: nat)
    requires CountsOk(files, tables) && PipesOk(files, pipes, ends)
    requires t < |tables| && fd < |tables[t]| && tables[t][fd] == NULL && f in files
    ensures CountsOk(Referenced(files, f), WithSlot(tables, t, fd, f)) && PipesOk(Referenced(files, f), pipes, ends)
    ensures KindsKept(files, Referenced(files, f))
  {
    forall g: nat | g != NULL
      ensures Refs(WithSlot(tables, t, fd, f), g) == Refs(tables, g) + (if g == f then 1 else 0)
    {
      RefsStore(tables, t, fd, f, g);
    }
  }

  function Empty(n: nat): Table {
    seq(n, i => NULL)
  }

  function ConsoleTable(n: nat): Table
    requires 3 <= n
  {
    [CONSOLE, CONSOLE, CONSOLE] + seq(n - 3, i => NULL)
  }

  lemma EmptyCounts(files: map<nat, OpenFile>, tables: seq<Table>, n: nat)
    requires CountsOk(files, tables)
    ensures CountsOk(files, tables + [Empty(n)])
  {
    forall g: nat | g != NULL
      ensures Refs(tables + [Empty(n)], g) == Refs(tables, g)
    {
      assert (tables + [Empty(n)])[..|tables|] == tables;
      assert g !in Empty(n);
    }
  }

  lemma ConsoleSteps(tables: seq<Table>, t: nat, n: nat)
    requires 3 <= n && t + 1 == |tables| && tables[t] == Empty(n)
    ensures |tables[t]| == n && tables[t][0] == tables[t][1] == tables[t][2] == NULL
    ensures WithSlot(WithSlot(WithSlot(tables, t, 0, CONSOLE), t, 1, CONSOLE), t, 2, CONSOLE) == tables[..t] +
      [ConsoleTable(n)]
  {
    var table: Table := Empty(n)[0 := CONSOLE][1 := CONSOLE][2 := CONSOLE];
    assert table == ConsoleTable(n);
  }

  /** A slot that is not empty points at an open file. */
  lemma SlotOpen(files: map<nat, OpenFile>, tables: seq<Table>, t: nat, fd: nat)
    requires CountsOk(files, tables) && t < |tables| && fd < |tables[t]| && tables[t][fd] != NULL
    ensures tables[t][fd] in files
  {
    RefsSlot(tables, t, fd);
  }

  /** A fresh file with its one slot. */
  lemma NewFile(files: map<nat, OpenFile>, pipes: map<nat, PipeState>, ends: map<(nat, bool), nat>,
                tables: seq<Table>, t: nat, fd: nat, f: nat, kind: Kind)
    requires CountsOk(files, tables) && PipesOk(files, pipes, ends) && f !in files && f != NULL && kind.File?
    requires t < |tables| && fd < |tables[t]| && tables[t][fd] == NULL
    ensures CountsOk(files[f := OpenFile(kind, 1, 0)], WithSlot(tables, t, fd, f))
    ensures PipesOk(files[f := OpenFile(kind, 1, 0)], pipes, ends)
  {
    NewCounts(files, tables, t, fd, f, kind);
  }

  lemma NewCounts(files: map<nat, OpenFile>, tables: seq<Table>, t: nat, fd: nat, f: nat, kind: Kind)
    requires CountsOk(files, tables) && f !in files && f != NULL && kind != Console
    requires t < |tables| && fd < |tables[t]| && tables[t][fd] == NULL
    ensures CountsOk(files[f := OpenFile(kind, 1, 0)], WithSlot(tables, t, fd, f))
  {
    forall g: nat | g != NULL
      ensures Refs(WithSlot(tables, t, fd, f), g) == Refs(tables, g) + (if g == f then 1 else 0)
    {
      RefsStore(tables, t, fd, f, g);
    }
  }

  ghost predicate TwoFree(table: Table) {
    exists i, j :: 0 <= i < j < |table| && table[i] == NULL && table[j] == NULL
  }

  lemma TwoFreeSlots(table: Table, low: int, high: int, mark: nat, rf: nat)
    requires IsLowestFree(table, low) && mark != NULL && rf != NULL
    requires
      var marked: Table := table[low := mark];
      (high == -1 <==> NULL !in marked) && (high != -1 ==> IsLowestFree(marked, high))
    ensures high == -1 <==> !TwoFree(table)
    ensures high != -1 ==>
      && high != low && table[high] == NULL
      && var held: Table := table[low := rf]; IsLowestFree(held, high)
  {
    var marked: Table := table[low := mark];
    if TwoFree(table) {
      var i, j :| 0 <= i < j < |table| && table[i] == NULL && table[j] == NULL;
      assert marked[j] == NULL;
    }
    if high != -1 {
      assert marked[low] != NULL && low < high && table[low] == NULL && table[high] == NULL;
      var held: Table := table[low := rf];
      forall i | 0 <= i < high
        ensures held[i] != NULL
      {
        assert marked[i] != NULL;
      }
    }
  }

  function WithPipe(files: map<nat, OpenFile>, p: nat): map<nat, OpenFile> {
    files[p + 1 := OpenFile(PipeEnd(p, false), 1, 0)][p + 2 := OpenFile(PipeEnd(p, true), 1, 0)]
  }

  /** A fresh pipe with its two files. */
  lemma NewPipe(files: map<nat, OpenFile>, tables: seq<Table>, t: nat, low: nat, high: nat, p: nat)
    requires CountsOk(files, tables) && p + 1 !in files && p + 2 !in files
    requires t < |tables| && low < |tables[t]| && high < |tables[t]| && low != high && tables[t][low] == NULL
    requires tables[t][high] == NULL
    ensures CountsOk(WithPipe(files, p), WithSlot(WithSlot(tables, t, low, p + 1), t, high, p + 2))
  {
    hide CountsOk;
    NewCounts(files, tables, t, low, p + 1, PipeEnd(p, false));
    NewCounts(files[p + 1 := OpenFile(PipeEnd(p, false), 1, 0)], WithSlot(tables, t, low, p + 1), t, high, p + 2,
        PipeEnd(p, true));
  }

  lemma NewPipeEnds(files: map<nat, OpenFile>, pipes: map<nat, PipeState>, ends: map<(nat, bool), nat>, p: nat)
    requires PipesOk(files, pipes, ends) && IdsBelow(files, pipes, p)
    ensures PipesOk(WithPipe(files, p), pipes[p := PipeState(true, true, [])],
      ends[(p, false) := p + 1][(p, true) := p + 2])
    ensures IdsBelow(WithPipe(files, p), pipes[p := PipeState(true, true, [])], p + 3)
    ensures p !in pipes && p + 1 !in files && p + 2 !in files
  {
  }

  datatype Dup2Result = Ret(fd: int) | NullDereference

  class Fds {
    const maxFds: nat
    /** The bytes a pipe holds. */
    const pipeSize: nat
    var files: map<nat, OpenFile>
    var pipes: map<nat, PipeState>
    var tables: seq<Table>
    var nextId: nat
    ghost var ends: map<(nat, bool), nat>

    ghost predicate Valid()
      reads this
    {
      && 3 <= maxFds && 0 < pipeSize && Fits(pipes, pipeSize)
      && (forall t | 0 <= t < |tables| :: |tables[t]| == maxFds)
      && CountsOk(files, tables) && PipesOk(files, pipes, ends) && IdsBelow(files, pipes, nextId)
    }

    constructor (maxFds: nat, pipeSize: nat)
      requires 3 <= maxFds && 0 < pipeSize
      ensures Valid() && tables == [] && pipes == map[] && this.maxFds == maxFds && this.pipeSize == pipeSize
    {
      this.maxFds, this.pipeSize := maxFds, pipeSize;
      files := map[CONSOLE := OpenFile(Console, 0, 0)];
      pipes, tables, nextId, ends := map[], [], 2, map[];
    }

    /** `find_free_fd`: the lowest empty slot. */
    method FindFree(table: Table) returns (fd: int)
      ensures fd == -1 <==> NULL !in table
      ensures fd != -1 ==> IsLowestFree(table, fd)
    {
      for i := 0 to |table|
        invariant forall j | 0 <= j < i :: table[j] != NULL
      {
        if table[i] == NULL {
          return i;
        }
      }
      return -1;
    }

    /**
     * `fd_close`: empties the slot; a file whose last reference this was is freed, and with it a pipe whose
     * other end is gone.
     */
    method Close(t: nat, fd: int) returns (r: int)
      requires Valid() && t < |tables|
      modifies this
      ensures Valid() && nextId == old(nextId)
      ensures r == if 0 <= fd < maxFds && old(tables[t])[fd] != NULL then 0 else -1
      ensures r == -1 ==> tables == old(tables) && files == old(files) && pipes == old(pipes)
      ensures r == 0 ==> tables == WithSlot(old(tables), t, fd, NULL)
      ensures KindsKept(old(files), files) && DataKept(old(pipes), pipes)
    {
      hide CountsOk, PipesOk, KindsKept, DataKept, Dropped, DroppedPipes, DroppedEnds, IdsBelow, Refs;
      KeptReflexive(files, pipes);
      if fd < 0 || fd >= maxFds || tables[t][fd] == NULL {
        return -1;
      }
      var f := tables[t][fd];
      CloseCounts(files, tables, t, fd);
      ClosePipes(files, pipes, ends, f);
      CloseKept(files, pipes, nextId, f);
      FitsKept(pipes, DroppedPipes(files, pipes, f), pipeSize);
      tables := WithSlot(tables, t, fd, NULL);
      Unreference(f);
      return 0;
    }

    /** The rest of `fd_close`, after the slot is cleared. */
    method Unreference(f: nat)
      requires f in files && (files[f].kind.PipeEnd? ==> files[f].kind.pipe in pipes)
      modifies `files, `pipes, `ends
      ensures files == Dropped(old(files), f)
      ensures pipes == DroppedPipes(old(files), old(pipes), f)
      ensures ends == DroppedEnds(old(files), old(ends), f)
    {
      var file := files[f].(refCount := files[f].refCount - 1);
      ghost var files0 := files;
      if file.kind.PipeEnd? && file.refCount <= 0 {
        var p := file.kind.pipe;
        if file.kind.write {
          pipes := pipes[p := pipes[p].(writeOpen := false)];
        } else {
          pipes := pipes[p := pipes[p].(readOpen := false)];
        }
        if !pipes[p].readOpen && !pipes[p].writeOpen {
          pipes := pipes - {p};
        }
      }
      ends := DroppedEnds(files0, ends, f);
      if file.refCount <= 0 && f != CONSOLE {
        files := files - {f};
      } else {
        files := files[f := file];
      }
    }

    /** Points an empty slot at an open file. */
    method Reference(t: nat, fd: nat, f: nat)
      requires Valid() && t < |tables| && fd < maxFds && tables[t][fd] == NULL && f in files
      modifies `files, `tables
      ensures Valid() && tables == WithSlot(old(tables), t, fd, f) && KindsKept(old(files), files)
      ensures files.Keys == old(files).Keys
    {
      hide PipesOk, CountsOk, KindsKept;
      ReferenceOk(files, pipes, ends, tables, t, fd, f);
      tables := WithSlot(tables, t, fd, f);
      files := Referenced(files, f);
    }

    /** A task slot's descriptor table, all empty. */
    method AddTable()
      requires Valid()
      modifies `tables
      ensures Valid() && tables == old(tables) + [Empty(maxFds)]
    {
      hide PipesOk, CountsOk;
      EmptyCounts(files, tables, maxFds);
      tables := tables + [Empty(maxFds)];
    }

    /** `fd_table_init` for a new task: the console on 0, 1 and 2. */
    method TableInit() returns (t: nat)
      requires Valid()
      modifies this
      ensures Valid() && t == |old(tables)| && tables == old(tables) + [ConsoleTable(maxFds)]
      ensures pipes == old(pipes) && KindsKept(old(files), files) && nextId == old(nextId)
    {
      hide PipesOk, Empty, ConsoleTable;
      t := |tables|;
      ghost var tables0 := tables;
      AddTable();
      ConsoleSteps(tables, t, maxFds);
      Reference(t, 0, CONSOLE);
      Reference(t, 1, CONSOLE);
      Reference(t, 2, CONSOLE);
      assert tables[..t] == tables0;
    }

    /** `fd_table_dup` for a forked task: every open slot of the parent gets one more reference. */
    method TableDup(parent: nat) returns (t: nat)
      requires Valid() && parent < |tables|
      modifies this
      ensures Valid() && t == |old(tables)| && tables == old(tables) + [old(tables)[parent]]
      ensures pipes == old(pipes) && KindsKept(old(files), files) && files.Keys == old(files).Keys
      ensures nextId == old(nextId)
    {
      hide PipesOk, IdsBelow, CountsOk;
      t := |tables|;
      ghost var tables0 := tables;
      AddTable();
      assert tables[t] == Empty(maxFds);
      for i := 0 to maxFds
        invariant Valid() && pipes == old(pipes) && KindsKept(old(files), files) && files.Keys == old(files).Keys
        invariant nextId == old(nextId)
        invariant |tables| == t + 1 && tables[..t] == tables0 && |tables[t]| == maxFds
        invariant forall j | 0 <= j < i :: tables[t][j] == tables0[parent][j]
        invariant forall j | i <= j < maxFds :: tables[t][j] == NULL
      {
        var f := tables[parent][i];
        assert f == tables0[parent][i];
        if f != NULL {
          SlotOpen(files, tables, parent, i);
          Reference(t, i, f);
        }
      }
      assert tables[t] == tables0[parent];
    }

    /** `fd_table_destroy`: closes every open slot. */
    method TableDestroy(t: nat)
      requires Valid() && t < |tables|
      modifies this
      ensures Valid() && |tables| == |old(tables)| && nextId == old(nextId)
      ensures tables[t] == Empty(maxFds) && forall u | 0 <= u < |tables| && u != t :: tables[u] == old(tables)[u]
      ensures KindsKept(old(files), files) && DataKept(old(pipes), pipes)
    {
      hide PipesOk, CountsOk;
      for i := 0 to maxFds
        invariant Valid() && |tables| == |old(tables)| && nextId == old(nextId)
        invariant forall j | 0 <= j < i :: tables[t][j] == NULL
        invariant forall u | 0 <= u < |tables| && u != t :: tables[u] == old(tables)[u]
        invariant KindsKept(old(files), files) && DataKept(old(pipes), pipes)
      {
        if tables[t][i] != NULL {
          var _ := Close(t, i);
        }
      }
      assert tables[t] == Empty(maxFds);
    }

    /** `fd_open`; `found` is what the lookup of the path gave, `allocOk` whether there is memory for the file. */
    method Open(t: nat, found: bool, firstCluster: nat, fileSize: nat, allocOk: bool) returns (fd: int)
      requires Valid() && t < |tables|
      modifies this
      ensures Valid()
      ensures fd == -1 <==> NULL !in old(tables)[t] || !found || !allocOk
      ensures fd == -1 ==> tables == old(tables) && files == old(files)
      ensures fd != -1 ==>
        && IsLowestFree(old(tables)[t], fd) && tables == WithSlot(old(tables), t, fd, old(nextId))
        && old(nextId) !in old(files)
        && files == old(files)[old(nextId) := OpenFile(File(firstCluster, fileSize), 1, 0)]
      ensures pipes == old(pipes)
    {
      hide PipesOk, CountsOk;
      fd := FindFree(tables[t]);
      if fd < 0 || !found || !allocOk {
        return -1;
      }
      NewFile(files, pipes, ends, tables, t, fd, nextId, File(firstCluster, fileSize));
      files := files[nextId := OpenFile(File(firstCluster, fileSize), 1, 0)];
      tables := WithSlot(tables, t, fd, nextId);
      nextId := nextId + 1;
    }

    /**
     * `fd_pipe`: the two lowest empty slots get the ends of a fresh pipe; `allocs` is how many of its three
     * allocations succeed.
     */
    method MakePipe(t: nat, allocs: nat) returns (r: int, rfd: int, wfd: int)
      requires Valid() && t < |tables|
      modifies this
      ensures Valid()
      ensures r == 0 || r == -1
      ensures r == -1 <==> allocs < 3 || !TwoFree(old(tables)[t])
      ensures r == -1 ==> tables == old(tables) && files == old(files) && pipes == old(pipes)
      ensures r == 0 ==>
        && var p, rf, wf := old(nextId), old(nextId) + 1, old(nextId) + 2;
        && IsLowestFree(old(tables)[t], rfd) && IsLowestFree(WithSlot(old(tables), t, rfd, rf)[t], wfd)
        && tables == WithSlot(WithSlot(old(tables), t, rfd, rf), t, wfd, wf)
        && p !in old(pipes) && rf !in old(files) && wf !in old(files)
        && files == WithPipe(old(files), p)
        && pipes == old(pipes)[p := PipeState(true, true, [])]
        && nextId == old(nextId) + 3
    {
      hide PipesOk, CountsOk;
      rfd, wfd := -1, -1;
      var low := FindFree(tables[t]);
      if low < 0 {
        return -1, rfd, wfd;
      }
      var marked: Table := tables[t][low := nextId];
      var high := FindFree(marked);
      TwoFreeSlots(tables[t], low, high, nextId, nextId + 1);
      if high < 0 || allocs < 3 {
        return -1, rfd, wfd;
      }
      NewPipeEnds(files, pipes, ends, nextId);
      NewPipe(files, tables, t, low, high, nextId);
      FitsMoved(pipes, nextId, PipeState(true, true, []), pipeSize);
      pipes := pipes[nextId := PipeState(true, true, [])];
      var rf, wf := nextId + 1, nextId + 2;
      files := files[rf := OpenFile(PipeEnd(nextId, false), 1, 0)][wf := OpenFile(PipeEnd(nextId, true), 1, 0)];
      tables := WithSlot(WithSlot(tables, t, low, nextId + 1), t, high, nextId + 2);
      ends := ends[(nextId, false) := nextId + 1][(nextId, true) := nextId + 2];
      nextId := nextId + 3;
      return 0, low, high;
    }

    /** `fd_dup2`: closing `newfd` first makes a descriptor duplicated onto itself a null pointer. */
    method Dup2(t: nat, oldfd: int, newfd: int) returns (r: Dup2Result)
      requires Valid() && t < |tables|
      modifies this
      ensures Valid() && nextId == old(nextId)
      ensures KindsKept(old(files), files) && DataKept(old(pipes), pipes)
      ensures
        var open := 0 <= oldfd < maxFds && old(tables)[t][oldfd] != NULL;
        && (r == NullDereference <==> open && oldfd == newfd)
        && (r == Ret(-1) <==> !open || !(0 <= newfd < maxFds))
        && (r != NullDereference && r != Ret(-1) ==>
           r == Ret(newfd) && tables == WithSlot(old(tables), t, newfd, old(tables)[t][oldfd]))
        && (r == Ret(-1) ==> tables == old(tables) && files == old(files) && pipes == old(pipes))
    {
      hide PipesOk, CountsOk;
      if oldfd < 0 || oldfd >= maxFds || tables[t][oldfd] == NULL {
        return Ret(-1);
      }
      if newfd < 0 || newfd >= maxFds {
        return Ret(-1);
      }
      if tables[t][newfd] != NULL {
        var _ := Close(t, newfd);
      }
      var f := tables[t][oldfd];
      if f == NULL {
        return NullDereference;
      }
      SlotOpen(files, tables, t, oldfd);
      Reference(t, newfd, f);
      WithSlotTwice(old(tables), t, newfd, NULL, f);
      return Ret(newfd);
    }

    /** The pipe of an open descriptor that is an end of one. */
    ghost predicate OnPipe(t: nat, fd: nat, p: nat)
      reads this
    {
      && t < |tables| && fd < |tables[t]| && tables[t][fd] != NULL && tables[t][fd] in files
      && files[tables[t][fd]].kind.PipeEnd? && files[tables[t][fd]].kind.pipe == p
    }

    /** The pipe arm of `fd_read` from its start or its last yield up to its next yield or its return. */
    method ReadPipe(t: nat, fd: nat, count: nat) returns (r: ReadOutcome, ghost p: nat)
      requires Valid() && exists p :: OnPipe(t, fd, p)
      modifies `pipes
      ensures Valid() && OnPipe(t, fd, p) && p in old(pipes)
      ensures r == ReadFrom(old(pipes)[p], count).outcome
      ensures pipes == old(pipes)[p := ReadFrom(old(pipes)[p], count).pipe]
    {
      hide CountsOk, PipesOk, IdsBelow, Fits;
      EndsInPipes(files, pipes, ends, tables[t][fd]);
      var q := files[tables[t][fd]].kind.pipe;
      p := q;
      var result := ReadFrom(pipes[q], count);
      PipeMoves(files, pipes, ends, nextId, q, result.pipe.data, pipeSize);
      pipes := pipes[q := result.pipe];
      return result.outcome, p;
    }

    /**
     * The pipe arm of `fd_write`, from its start or, if it `goesOn`, from its last yield, up to its next
     * yield or its return.  Whether the descriptor is the end for writing is not looked at.
     */
    method WritePipe(t: nat, fd: nat, src: seq<bv8>, goesOn: bool) returns (r: WriteOutcome, count: nat, ghost p: nat)
      requires Valid() && exists p :: OnPipe(t, fd, p)
      modifies `pipes
      ensures Valid() && OnPipe(t, fd, p) && p in old(pipes)
      ensures
        var result := if goesOn then WriteMore(old(pipes)[p], pipeSize, src)
          else WriteInto(old(pipes)[p], pipeSize, src);
        r == result.outcome && count == result.count && pipes == old(pipes)[p := result.pipe]
    {
      hide CountsOk, PipesOk, IdsBelow, Fits;
      EndsInPipes(files, pipes, ends, tables[t][fd]);
      var q := files[tables[t][fd]].kind.pipe;
      p := q;
      var result := if goesOn then WriteMore(pipes[q], pipeSize, src) else WriteInto(pipes[q], pipeSize, src);
      FitsAt(pipes, q, pipeSize);
      PipeMoves(files, pipes, ends, nextId, q, result.pipe.data, pipeSize);
      pipes := pipes[q := result.pipe];
      return result.outcome, result.count, p;
    }
  }

  lemma FitsAt(pipes: map<nat, PipeState>, p: nat, size: nat)
    requires Fits(pipes, size) && p in pipes
    ensures |pipes[p].data| <= size
  {
  }

  /** No pipe holds more than there is room for. */
  ghost predicate Fits(pipes: map<nat, PipeState>, size: nat) {
    forall p | p in pipes :: |pipes[p].data| <= size
  }

  lemma FitsKept(pipes: map<nat, PipeState>, pipes': map<nat, PipeState>, size: nat)
    requires Fits(pipes, size) && DataKept(pipes, pipes')
    ensures Fits(pipes', size)
  {
  }

  lemma FitsMoved(pipes: map<nat, PipeState>, p: nat, pipe: PipeState, size: nat)
    requires Fits(pipes, size) && |pipe.data| <= size
    ensures Fits(pipes[p := pipe], size)
  {
  }

  /** Surviving pipes keep their bytes. */
  ghost predicate DataKept(pipes: map<nat, PipeState>, pipes': map<nat, PipeState>) {
    forall p | p in pipes' :: p in pipes && pipes'[p].data == pipes[p].data
  }
}
