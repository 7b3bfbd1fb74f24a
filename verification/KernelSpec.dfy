/** How the kernel's memory (page tables, user frames, reference counts) stands for a flat state of
    the copy-on-write model. */
module KernelSpec {
  import opened Wrappers
  import opened Words
  import opened CowSpec
  import opened CowProof
  import opened PageTable

  /** A process: its root table, its areas, and the start and the end of its heap. */
  datatype Task = Task(root: nat, vmas: seq<Vma>, startBrk: nat, brk: nat)

  function MovedEnd(task: Task, k: nat, end: nat): Task
    requires k < |task.vmas|
  {
    task.(vmas := task.vmas[k := task.vmas[k].(end := end)])
  }

  /** The flat state that a memory stands for. */
  function Flat(tasks: seq<Task>, tables: Tables, data: map<nat, Page>, counts: seq<nat>): State {
    State(seq(|tasks|, i requires 0 <= i < |tasks| => Proc(tasks[i].vmas, PtOf(tables, tasks[i].root))),
          map f | f in data :: Frame(if f < |counts| then counts[f] else 0, data[f]))
  }

  /** Frames in use are counted, and hold a table or user data but not both. */
  ghost predicate FramesOk(tables: Tables, data: map<nat, Page>, counts: seq<nat>) {
    && tables.Keys !! data.Keys
    && (forall f :: f in tables ==> f < |counts| && counts[f] > 0)
    && (forall f :: f in data ==> f < |counts| && counts[f] > 0)
  }

  /** The template that root tables are copied from maps kernel addresses only. */
  ghost predicate KernelHalf(t: Table, lay: Layout) {
    && (forall i :: 0 <= i < 256 ==> !t[i].flags.v)
    && (forall i :: 256 <= i < 512 && t[i].flags.v ==> t[i].ppn in lay.kmid)
  }

  ghost predicate TasksOk(tasks: seq<Task>, lay: Layout) {
    && (forall i :: 0 <= i < |tasks| ==> tasks[i].root in lay.roots && UserAreas(tasks[i].vmas))
    && (forall i, j :: 0 <= i < j < |tasks| ==> tasks[i].root != tasks[j].root)
  }

  /** Areas end at USER_END at the latest. */
  ghost predicate UserAreas(vmas: seq<Vma>) {
    forall v :: v in vmas ==> v.end <= 0x40_0000_0000
  }

  ghost predicate MemOk(tasks: seq<Task>, tables: Tables, data: map<nat, Page>, counts: seq<nat>, lay: Layout,
                        swapper: Table) {
    Tree(tables, lay) && FramesOk(tables, data, counts) && TasksOk(tasks, lay) && KernelHalf(swapper, lay)
  }

  /** Counts of frames in use did not change. */
  ghost predicate CountsKept(before: seq<nat>, after: seq<nat>) {
    |before| == |after| && forall f :: 0 <= f < |before| && before[f] > 0 ==> after[f] == before[f]
  }

  // ---------------------------------------------------------------- flat states of changed memories

  /** One page of one process mapped anew. */
  lemma FlatSet(tasks: seq<Task>, before: Tables, after: Tables, data: map<nat, Page>, counts: seq<nat>, lay: Layout,
                i: nat, page: nat, pte: Pte)
    requires TasksOk(tasks, lay) && i < |tasks| && page < USER_PAGES
    requires SameElsewhere(before, after, lay, tasks[i].root, page)
    requires Lookup(after, tasks[i].root, page) == Some(pte)
    ensures Flat(tasks, after, data, counts) == SetPte(Flat(tasks, before, data, counts), i, page, pte)
  {
    forall j | 0 <= j < |tasks|
      ensures PtOf(after, tasks[j].root)
           == if j == i then PtOf(before, tasks[j].root)[page := pte]
              else PtOf(before, tasks[j].root)
    {
      if j == i {
        PtSet(before, after, lay, tasks[i].root, page, pte);
      } else {
        PtSame(before, after, lay, tasks[i].root, page, tasks[j].root);
      }
    }
  }

  lemma PtSet(before: Tables, after: Tables, lay: Layout, root: nat, page: nat, pte: Pte)
    requires root in lay.roots && page < USER_PAGES
    requires SameElsewhere(before, after, lay, root, page) && Lookup(after, root, page) == Some(pte)
    ensures PtOf(after, root) == PtOf(before, root)[page := pte]
  {
    hide Lookup;
  }

  lemma PtClear(before: Tables, after: Tables, lay: Layout, root: nat, page: nat)
    requires root in lay.roots && page < USER_PAGES
    requires SameElsewhere(before, after, lay, root, page) && Lookup(after, root, page) == None
    ensures PtOf(after, root) == PtOf(before, root) - {page}
  {
    hide Lookup;
  }

  lemma PtSame(before: Tables, after: Tables, lay: Layout, root: nat, page: nat, other: nat)
    requires other in lay.roots && other != root
    requires SameElsewhere(before, after, lay, root, page)
    ensures PtOf(after, other) == PtOf(before, other)
  {
    hide Lookup;
  }

  /** One page of one process unmapped. */
  lemma FlatClear(tasks: seq<Task>, before: Tables, after: Tables, data: map<nat, Page>, counts: seq<nat>, lay: Layout,
                  i: nat, page: nat)
    requires TasksOk(tasks, lay) && i < |tasks| && page < USER_PAGES
    requires SameElsewhere(before, after, lay, tasks[i].root, page)
    requires Lookup(after, tasks[i].root, page) == None
    ensures Flat(tasks, after, data, counts) == ClearPte(Flat(tasks, before, data, counts), i, page)
  {
    forall j | 0 <= j < |tasks|
      ensures PtOf(after, tasks[j].root)
           == if j == i then PtOf(before, tasks[j].root) - {page}
              else PtOf(before, tasks[j].root)
    {
      if j == i {
        PtClear(before, after, lay, tasks[i].root, page);
      } else {
        PtSame(before, after, lay, tasks[i].root, page, tasks[j].root);
      }
    }
  }

  /** Counts of frames that hold no user data do not show. */
  lemma FlatCounts(tasks: seq<Task>, tables: Tables, data: map<nat, Page>, before: seq<nat>, after: seq<nat>)
    requires |before| == |after| && forall f :: f in data && f < |before| ==> before[f] == after[f]
    ensures Flat(tasks, tables, data, after) == Flat(tasks, tables, data, before)
  {}

  /** A new process with a root table of its own. */
  lemma FlatSpawn(tasks: seq<Task>, tables: Tables, data: map<nat, Page>, counts: seq<nat>, lay: Layout,
                  swapper: Table, child: Task, parent: nat)
    requires Tree(tables, lay) && TasksOk(tasks, lay) && KernelHalf(swapper, lay) && child.root !in tables
             && parent < |tasks|
    requires child.vmas == Reverse(tasks[parent].vmas)
    ensures Flat(tasks + [child], tables[child.root := swapper], data, counts)
         == Spawn(Flat(tasks, tables, data, counts), parent)
  {
    forall j | 0 <= j < |tasks|
      ensures PtOf(tables[child.root := swapper], tasks[j].root) == PtOf(tables, tasks[j].root)
    {
      NewRootKeepsPt(tables, lay, swapper, child.root, tasks[j].root);
    }
    NewRootIsEmpty(tables, lay, swapper, child.root);
  }

  lemma NewRootLookup(tables: Tables, lay: Layout, swapper: Table, root: nat, r: nat, p: nat)
    requires Tree(tables, lay) && root !in tables && r in lay.roots
    ensures Lookup(tables[root := swapper], r, p) == Lookup(tables, r, p)
  {
    TreeReaches(tables, lay, r, p);
  }

  lemma NewRootKeepsPt(tables: Tables, lay: Layout, swapper: Table, root: nat, r: nat)
    requires Tree(tables, lay) && root !in tables && r in lay.roots
    ensures PtOf(tables[root := swapper], r) == PtOf(tables, r)
  {
    forall p | 0 <= p < USER_PAGES
      ensures Lookup(tables[root := swapper], r, p) == Lookup(tables, r, p)
    {
      NewRootLookup(tables, lay, swapper, root, r, p);
    }
    hide Lookup;
  }

  lemma NewRootIsEmpty(tables: Tables, lay: Layout, swapper: Table, root: nat)
    requires KernelHalf(swapper, lay)
    ensures PtOf(tables[root := swapper], root) == map[]
  {
    var after := tables[root := swapper];
    forall p: nat | p < USER_PAGES
      ensures Vpn2(p) < 256
    {
      Recompose(p);
    }
    assert forall p: nat :: p < USER_PAGES ==> Walk(after, root, p) == None;
  }

  lemma NewRootTree(tables: Tables, lay: Layout, swapper: Table, root: nat)
    requires Tree(tables, lay) && KernelHalf(swapper, lay) && root !in tables
    ensures Tree(tables[root := swapper], lay.(roots := lay.roots + {root}))
  {
    var after, now := tables[root := swapper], lay.(roots := lay.roots + {root});
    forall r, k | r in now.roots && 0 <= k < 256 && after[r][k].flags.v
      ensures HangsFrom(now, after[r][k].ppn, Mid(r, k))
    {
      if r != root { assert HangsFrom(lay, tables[r][k].ppn, Mid(r, k)); }
    }
    forall t, k | t in now.owner && now.owner[t].Mid? && 0 <= k < 512 && after[t][k].flags.v
      ensures HangsFrom(now, after[t][k].ppn, Low(t, k))
    {
      assert HangsFrom(lay, tables[t][k].ppn, Low(t, k));
    }
  }

  // ---------------------------------------------------------------- what the frames hold

  /** A frame of RAM, as it was last written: as bytes or as page table entries. */
  datatype Contents = Bytes(page: Page) | Entries(table: Table)

  /** Reading a little-endian entry out of bytes.  All that matters of an entry without PTE_V is that
      it is not valid. */
  function EntryIn(page: Page, i: nat): Pte
    requires i < 512
  {
    var low: nat, next: nat := page[8 * i], page[8 * i + 1];
    if low % 2 == 0 then NoPte()
    else
      Pte(FrameIn(page, i),
          Flags(true, Bit(low, 1), Bit(low, 2), Bit(low, 3), Bit(low, 4), Bit(low, 5), Bit(low, 6), Bit(low, 7),
                Bit(next, 0), Bit(next, 1)))
  }

  /** The physical page number in bits 10 to 53, counted from the start of RAM. */
  function FrameIn(page: Page, i: nat): nat
    requires i < 512
  {
    var b1: int, b2: int, b3: int := page[8 * i + 1], page[8 * i + 2], page[8 * i + 3];
    var b4: int, b5: int, b6: int := page[8 * i + 4], page[8 * i + 5], page[8 * i + 6];
    var ppn := b1 / 4 + 0x40 * b2 + 0x4000 * b3 + 0x40_0000 * b4 + 0x4000_0000 * b5 + 0x40_0000_0000 * (b6 % 0x40);
    if ppn < 0x8_0000 then 0 else ppn - 0x8_0000
  }

  /** A frame read as a table. */
  function TableIn(c: Contents): Table {
    match c
    case Entries(table) => table
    case Bytes(page) => seq(512, i requires 0 <= i < 512 => EntryIn(page, i))
  }

  lemma ZeroPageIsZeroTable()
    ensures TableIn(Bytes(ZeroPage())) == ZeroTable()
  {}

  /** Tables and user data are what the frames hold, and a frame that nobody has allocated is still as
      it was at boot: zero. */
  ghost predicate RamOk(ram: seq<Contents>, tables: Tables, data: map<nat, Page>, counts: seq<nat>) {
    && |ram| == |counts|
    && (forall f :: f in tables ==> f < |ram| && ram[f] == Entries(tables[f]))
    && (forall f :: f in data ==> f < |ram| && ram[f] == Bytes(data[f]))
    && (forall f :: 0 <= f < |ram| && counts[f] == 0 ==> ram[f] == Bytes(ZeroPage()))
  }

  lemma TableInRam(ram: seq<Contents>, tables: Tables, data: map<nat, Page>, counts: seq<nat>, f: nat)
    requires RamOk(ram, tables, data, counts) && f in tables
    ensures f < |ram| && ram[f] == Entries(tables[f])
  {}

  lemma PageInRam(ram: seq<Contents>, tables: Tables, data: map<nat, Page>, counts: seq<nat>, f: nat)
    requires RamOk(ram, tables, data, counts) && f in data
    ensures f < |ram| && ram[f] == Bytes(data[f])
  {}

  /** An unused frame reads as zeros, and as an empty table. */
  lemma FreshFrameIsZero(ram: seq<Contents>, tables: Tables, data: map<nat, Page>, counts: seq<nat>, f: nat)
    requires RamOk(ram, tables, data, counts) && f < |counts| && counts[f] == 0
    ensures f < |ram| && ram[f] == Bytes(ZeroPage()) && TableIn(ram[f]) == ZeroTable()
  {
    ZeroPageIsZeroTable();
  }

  /** Frames in use stay in use. */
  ghost predicate StillUsed(before: seq<nat>, after: seq<nat>) {
    |before| == |after| && forall f :: 0 <= f < |before| && before[f] > 0 ==> after[f] > 0
  }

  lemma OneTaken(counts: seq<nat>, f: nat)
    requires f < |counts|
    ensures StillUsed(counts, counts[f := 1])
  {}

  lemma OneMoreRef(counts: seq<nat>, f: nat)
    requires f < |counts|
    ensures StillUsed(counts, counts[f := counts[f] + 1])
  {}

  lemma OneFewer(counts: seq<nat>, f: nat)
    requires f < |counts| && counts[f] >= 2
    ensures StillUsed(counts, counts[f := counts[f] - 1])
  {}

  lemma RamKept(ram: seq<Contents>, tables: Tables, data: map<nat, Page>, counts: seq<nat>, counts': seq<nat>)
    requires RamOk(ram, tables, data, counts) && StillUsed(counts, counts')
    ensures RamOk(ram, tables, data, counts')
  {}

  /** An entry written to a table. */
  lemma RamEntry(ram: seq<Contents>, tables: Tables, data: map<nat, Page>, counts: seq<nat>, f: nat, table: Table)
    requires RamOk(ram, tables, data, counts) && f in tables && f < |counts| && counts[f] > 0
    ensures f < |ram| && RamOk(ram[f := Entries(table)], tables[f := table], data, counts)
  {}

  /** A frame that was neither a table nor user data becomes a table. */
  lemma RamTable(ram: seq<Contents>, tables: Tables, data: map<nat, Page>, counts: seq<nat>, f: nat, table: Table)
    requires RamOk(ram, tables, data, counts) && f !in data && f < |counts| && counts[f] > 0
    ensures f < |ram| && RamOk(ram[f := Entries(table)], tables[f := table], data, counts)
  {}

  /** A frame that is not a table becomes, or stays, user data. */
  lemma RamPage(ram: seq<Contents>, tables: Tables, data: map<nat, Page>, counts: seq<nat>, f: nat, page: Page)
    requires RamOk(ram, tables, data, counts) && f !in tables && f < |counts| && counts[f] > 0
    ensures f < |ram| && RamOk(ram[f := Bytes(page)], tables, data[f := page], counts)
  {}

  /** A frame that is neither holds something else. */
  lemma RamRecord(ram: seq<Contents>, tables: Tables, data: map<nat, Page>, counts: seq<nat>, f: nat, page: Page)
    requires RamOk(ram, tables, data, counts) && f !in tables && f !in data && f < |counts| && counts[f] > 0
    ensures f < |ram| && RamOk(ram[f := Bytes(page)], tables, data, counts)
  {}

  // ---------------------------------------------------------------- heaps

  /** The heap is an area of its own that reaches at least to the page of the break. */
  ghost predicate HeapAt(task: Task, k: nat) {
    && k < |task.vmas| && task.vmas[k].start == task.startBrk
    && 0 < task.startBrk && task.startBrk % 4096 == 0 && task.brk + 4095 < WORD
    && task.startBrk <= RoundUp(task.brk) <= task.vmas[k].end
  }

  ghost predicate HasHeap(task: Task) { exists k :: HeapAt(task, k) }

  ghost predicate HeapsOk(tasks: seq<Task>) {
    forall i :: 0 <= i < |tasks| ==> HasHeap(tasks[i])
  }

  /** A heap that grows to `end` stays below USER_END and clear of the other areas. */
  ghost predicate GrowthFits(task: Task, end: nat) {
    forall k: nat :: HeapAt(task, k) && end > task.vmas[k].end ==>
      end <= 0x40_0000_0000 && VmasOk(task.vmas[k := task.vmas[k].(end := end)])
  }

  /** `find_vma` finds the heap at its break, wherever the break is. */
  lemma HeapIsFound(task: Task, k: nat)
    requires HeapAt(task, k) && VmasOk(task.vmas)
    ensures FindVma(task.vmas, RoundUp(task.brk)) == Some(task.vmas[k])
  {
    var va := RoundUp(task.brk);
    FindVmaFinds(task.vmas, va, k);
    FindVmaIsMember(task.vmas, va);
    AreaIsUnique(task.vmas, task.vmas[k], FindVma(task.vmas, va).value, va, 0);
  }

  /** An end that moves down, but not below the start, keeps the areas apart. */
  lemma ShorterAreaFits(vmas: seq<Vma>, k: nat, end: nat)
    requires VmasOk(vmas) && k < |vmas| && vmas[k].start <= end <= vmas[k].end
    ensures VmasOk(vmas[k := vmas[k].(end := end)])
  {}

  /** An end that moves up keeps the areas apart if and only if it stays below the start of every area
      behind. */
  lemma LongerAreaFits(vmas: seq<Vma>, k: nat, end: nat)
    requires VmasOk(vmas) && k < |vmas| && vmas[k].end <= end
    ensures VmasOk(vmas[k := vmas[k].(end := end)])
       <==> forall l :: 0 <= l < |vmas| && vmas[l].start > vmas[k].start ==> end < vmas[l].start
  {
    var moved := vmas[k := vmas[k].(end := end)];
    hide VmasOk;
    forall l | 0 <= l < |vmas| && l != k
      ensures Apart(moved[k], moved[l]) <==> (vmas[l].start > vmas[k].start ==> end < vmas[l].start)
    {
      OneNeighbour(vmas, k, l, end);
    }
    ApartFromTheRest(vmas, k, end);
  }

  lemma OneNeighbour(vmas: seq<Vma>, k: nat, l: nat, end: nat)
    requires VmasOk(vmas) && k < |vmas| && l < |vmas| && l != k && vmas[k].end <= end
    ensures Apart(vmas[k].(end := end), vmas[l]) <==> (vmas[l].start > vmas[k].start ==> end < vmas[l].start)
  {
    assert Apart(vmas[k], vmas[l]);
  }

  lemma ApartFromTheRest(vmas: seq<Vma>, k: nat, end: nat)
    requires VmasOk(vmas) && k < |vmas| && vmas[k].end <= end
    ensures var moved := vmas[k := vmas[k].(end := end)];
            VmasOk(moved) <==> forall l :: 0 <= l < |vmas| && l != k ==> Apart(moved[k], moved[l])
  {
    var moved := vmas[k := vmas[k].(end := end)];
    if forall l :: 0 <= l < |vmas| && l != k ==> Apart(moved[k], moved[l]) {
      forall i, j | 0 <= i < |vmas| && 0 <= j < |vmas| && i != j
        ensures Apart(moved[i], moved[j])
      {
        if i == k { assert Apart(moved[k], moved[j]); } else if j == k { assert Apart(moved[k], moved[i]); }
        else { assert Apart(vmas[i], vmas[j]); }
      }
    }
  }

  // ---------------------------------------------------------------- the address USER_END

  /** The stack area of `task_init`, the last page below USER_END. */
  function StackArea(): Vma { Vma(0x3f_ffff_f000, 0x40_0000_0000, 0, 0, VmFlags(true, true, false, true)) }

  /** `find_vma` accepts the address USER_END as the stack's end, although its page is indexed by the
      kernel's half of the root table. */
  lemma UserEndIsInTheStackArea()
    ensures VmasOk([StackArea()]) && UserAreas([StackArea()])
    ensures FindVma([StackArea()], 0x40_0000_0000) == Some(StackArea()) && Permits(StackArea(), Store)
    ensures Vpn2(0x40_0000_0000 / 4096) == 256
  {
    assert [StackArea()][0] == StackArea();
  }

  /** `sys_brk` does not look: it lets the heap grow over the stack, whose pages then belong to two areas. */
  lemma HeapMayCoverStack()
    ensures var heap := Vma(0x1000, 0x1000, 0, 0, StackArea().flags);
            var grown := heap.(end := 0x40_0000_0000);
            && HeapAt(Task(0, [heap, StackArea()], 0x1000, 0x1000), 0) && VmasOk([heap, StackArea()])
            && !GrowthFits(Task(0, [heap, StackArea()], 0x1000, 0x1000), 0x40_0000_0000)
            && FindVma([heap, StackArea()], 0x3f_ffff_f000) == Some(StackArea())
            && FindVma([grown, StackArea()], 0x3f_ffff_f000) == Some(grown)
  {
    var heap := Vma(0x1000, 0x1000, 0, 0, StackArea().flags);
    var task := Task(0, [heap, StackArea()], 0x1000, 0x1000);
    assert RoundUp(0x1000) == 0x1000;
    assert HeapAt(task, 0);
    assert [heap, StackArea()][1..] == [StackArea()];
    LongerAreaFits(task.vmas, 0, 0x40_0000_0000);
    assert task.vmas[1].start > task.vmas[0].start;
  }
}
