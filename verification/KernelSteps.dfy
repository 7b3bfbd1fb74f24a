/** The steps that the kernel's memory code is made of, on plain values: what each does to tables,
    contents and counts, and that it keeps memory in order. */
module KernelSteps {
  import opened Wrappers
  import opened Words
  import opened CowSpec
  import opened CowProof
  import opened PageTable
  import opened KernelSpec
  import CowTheorems
  import BuddySpec
  import BuddyTree

  /** The number of pages that the loop visits. */
  function PagesIn(sz: nat): nat { (sz + 4095) / 4096 }

  /** Memory is in order again, with the same roots, kernel tables and slots, and no count in use
      has changed. */
  ghost predicate Grown(tasks: seq<Task>, data: map<nat, Page>, swapper: Table, lay: Layout, counts: seq<nat>,
                        tables': Tables, lay': Layout, counts': seq<nat>) {
    MemOk(tasks, tables', data, counts', lay', swapper) && CountsKept(counts, counts') && LayoutGrows(lay, lay')
  }

  /** `n` pages from `first` on lead to consecutive frames; every other translation, in this or
      another address space, user or kernel, is what it was. */
  ghost predicate RangeMapped(before: Tables, after: Tables, roots: set<nat>, root: nat, first: nat, n: nat,
                              frame: nat, perm: Flags) {
    && (forall p: nat :: first <= p < first + n ==> Lookup(after, root, p) == Some(Pte(frame + p - first, Leaf(perm))))
    && (forall r, p: nat :: r in roots && p < 2 * USER_PAGES && !(r == root && first <= p < first + n)
          ==> Lookup(after, r, p) == Lookup(before, r, p))
  }

  /** What a mapped range means for addresses: byte by byte it is one piece of physical memory, from the start
      of its first frame on, with the permissions asked for. */
  lemma RangeIsContiguous(before: Tables, after: Tables, roots: set<nat>, root: nat, va: nat, sz: nat, frame: nat,
                          perm: Flags, at: nat)
    requires RangeMapped(before, after, roots, root, va / 4096, PagesIn(sz), frame, perm)
    requires va % 4096 == 0 && va <= at < va + sz
    ensures Lookup(after, root, at / 4096).Some?
    ensures var pte := Lookup(after, root, at / 4096).value;
      && pte.ppn * 4096 + at % 4096 == frame * 4096 + (at - va)
      && pte.flags.v && pte.flags.a && pte.flags.d && pte.flags.r == perm.r && pte.flags.w == perm.w
      && pte.flags.x == perm.x && pte.flags.u == perm.u && pte.flags.s == perm.s
  {
    hide Lookup;
    assert va / 4096 <= at / 4096 < va / 4096 + PagesIn(sz);
  }

  lemma NothingMapped(tasks: seq<Task>, tables: Tables, data: map<nat, Page>, counts: seq<nat>, lay: Layout,
                      swapper: Table, root: nat, first: nat, frame: nat, perm: Flags)
    requires MemOk(tasks, tables, data, counts, lay, swapper)
    ensures Grown(tasks, data, swapper, lay, counts, tables, lay, counts)
    ensures RangeMapped(tables, tables, lay.roots, root, first, 0, frame, perm)
  {}

  lemma StillGrown(tasks: seq<Task>, data: map<nat, Page>, swapper: Table, lay: Layout, counts: seq<nat>,
                   tables': Tables, lay': Layout, counts': seq<nat>)
    requires Grown(tasks, data, swapper, lay, counts, tables', lay', counts')
    ensures MemOk(tasks, tables', data, counts', lay', swapper) && lay'.roots == lay.roots
  {}

  lemma GrownTwice(tasks: seq<Task>, data: map<nat, Page>, swapper: Table, lay: Layout, counts: seq<nat>,
                   tables1: Tables, lay1: Layout, counts1: seq<nat>, tables2: Tables, lay2: Layout, counts2: seq<nat>)
    requires Grown(tasks, data, swapper, lay, counts, tables1, lay1, counts1)
    requires Grown(tasks, data, swapper, lay1, counts1, tables2, lay2, counts2)
    ensures Grown(tasks, data, swapper, lay, counts, tables2, lay2, counts2)
  {
    hide MemOk;
  }

  lemma OneMore(before: Tables, between: Tables, after: Tables, roots: set<nat>, root: nat, first: nat, k: nat,
                frame: nat, perm: Flags)
    requires RangeMapped(before, between, roots, root, first, k, frame, perm)
    requires RangeMapped(between, after, roots, root, first + k, 1, frame + k, perm)
    requires root in roots && first + k < USER_PAGES
    ensures RangeMapped(before, after, roots, root, first, k + 1, frame, perm)
  {
    hide Lookup;
  }

  lemma RootSlot(tasks: seq<Task>, tables: Tables, data: map<nat, Page>, counts: seq<nat>, lay: Layout, swapper: Table,
                 root: nat, page: nat)
    requires MemOk(tasks, tables, data, counts, lay, swapper) && root in lay.roots && page < USER_PAGES
    ensures root in tables && SlotOk(lay, root, Vpn2(page), Mid(root, Vpn2(page)))
  {
    Recompose(page);
  }

  lemma MidSlot(tasks: seq<Task>, data: map<nat, Page>, swapper: Table,
                tables: Tables, lay: Layout, counts: seq<nat>, tables': Tables, lay': Layout, counts': seq<nat>,
                root: nat, page: nat, mid: nat)
    requires Ensured(tasks, data, swapper, tables, lay, counts, tables', lay', counts', root, Vpn2(page),
             Mid(root, Vpn2(page)), mid)
    ensures MemOk(tasks, tables', data, counts', lay', swapper)
    ensures mid in tables' && SlotOk(lay', mid, Vpn1(page), Low(mid, Vpn1(page)))
  {}

  lemma MapStep(tasks: seq<Task>, data: map<nat, Page>, swapper: Table,
                tables0: Tables, lay0: Layout, counts0: seq<nat>, tables1: Tables, lay1: Layout, counts1: seq<nat>,
                tables2: Tables, lay2: Layout, counts2: seq<nat>,
                root: nat, page: nat, mid: nat, low: nat, frame: nat, perm: Flags)
    requires root in lay0.roots && page < USER_PAGES
    requires Ensured(tasks, data, swapper, tables0, lay0, counts0, tables1, lay1, counts1, root, Vpn2(page),
             Mid(root, Vpn2(page)), mid)
    requires Ensured(tasks, data, swapper, tables1, lay1, counts1, tables2, lay2, counts2, mid, Vpn1(page),
             Low(mid, Vpn1(page)), low)
    ensures low in tables2 && low < |counts2| && counts2[low] > 0
    ensures var tables3 := SetLeaf(tables2, low, Vpn0(page), Pte(frame, Leaf(perm)));
      Grown(tasks, data, swapper, lay0, counts0, tables3, lay2, counts2)
        && RangeMapped(tables0, tables3, lay2.roots, root, page, 1, frame, perm)
  {
    hide Tree, Lookup, SameLookups;
    assert Leads(tables2, root, Vpn2(page), mid);
    assert OnPath(tables2, lay2, root, page, mid, low);
    var pte := Pte(frame, Leaf(perm));
    SetLeafTree(tables2, lay2, root, page, mid, low, pte);
    LeafRange(tables0, tables1, tables2, lay2, root, page, mid, low, frame, perm);
  }

  lemma LeafRange(tables0: Tables, tables1: Tables, tables2: Tables, lay: Layout,
                  root: nat, page: nat, mid: nat, low: nat, frame: nat, perm: Flags)
    requires SameLookups(tables0, tables1, lay.roots) && SameLookups(tables1, tables2, lay.roots)
    requires Tree(tables2, lay) && OnPath(tables2, lay, root, page, mid, low) && low in tables2
    ensures RangeMapped(tables0, SetLeaf(tables2, low, Vpn0(page), Pte(frame, Leaf(perm))), lay.roots, root, page, 1,
            frame, perm)
  {
    hide Tree, Lookup, OnPath;
    var pte := Pte(frame, Leaf(perm));
    SetLeafLookup(tables2, lay, root, page, mid, low, pte);
    forall r, p: nat | r in lay.roots && p < 2 * USER_PAGES && !(r == root && page <= p < page + 1)
      ensures Lookup(SetLeaf(tables2, low, Vpn0(page), pte), r, p) == Lookup(tables0, r, p)
    {
      SetLeafElsewhere(tables2, lay, root, page, mid, low, pte, r, p);
    }
  }

  /** Entry `i` of table `t` is a place for `slot`. */
  ghost predicate SlotOk(lay: Layout, t: nat, i: nat, slot: Slot) {
    && i < 512
    && ((slot == Mid(t, i) && t in lay.roots && i < 256)
        || (slot == Low(t, i) && t in lay.owner && lay.owner[t].Mid?))
  }

  lemma SlotIndex(lay: Layout, t: nat, i: nat, slot: Slot)
    requires SlotOk(lay, t, i, slot)
    ensures i < 512
  {}

  /** The new layout keeps the roots, the kernel's tables, and every slot in use. */
  ghost predicate LayoutGrows(before: Layout, after: Layout) {
    && after.roots == before.roots && after.kmid == before.kmid && after.klow == before.klow
    && (forall t :: t in before.owner ==> t in after.owner && after.owner[t] == before.owner[t])
  }

  /** Entry `i` of table `t` leads to table `next`; no translation, no count in use and no other
      entry in use changed. */
  ghost predicate Ensured(tasks: seq<Task>, data: map<nat, Page>, swapper: Table,
                          tables: Tables, lay: Layout, counts: seq<nat>, tables': Tables, lay': Layout,
                          counts': seq<nat>, t: nat, i: nat, slot: Slot, next: nat) {
    && MemOk(tasks, tables', data, counts', lay', swapper) && CountsKept(counts, counts')
    && SameLookups(tables, tables', lay.roots) && LayoutGrows(lay, lay')
    && HangsFrom(lay', next, slot) && Leads(tables', t, i, next)
    && (forall u, k, v :: Leads(tables, u, k, v) ==> Leads(tables', u, k, v))
  }

  predicate Leads(tables: Tables, t: nat, i: nat, next: nat) {
    t in tables && i < 512 && next in tables && tables[t][i].flags.v && tables[t][i].ppn == next
  }

  lemma AlreadyThere(tasks: seq<Task>, tables: Tables, data: map<nat, Page>, counts: seq<nat>, lay: Layout,
                     swapper: Table, t: nat, i: nat, slot: Slot)
    requires MemOk(tasks, tables, data, counts, lay, swapper) && t in tables && SlotOk(lay, t, i, slot)
    requires tables[t][i].flags.v
    ensures Ensured(tasks, data, swapper, tables, lay, counts, tables, lay, counts, t, i, slot, tables[t][i].ppn)
  {
    assert HangsFrom(lay, tables[t][i].ppn, slot);
  }

  lemma FreshFrame(tasks: seq<Task>, tables: Tables, data: map<nat, Page>, counts: seq<nat>, lay: Layout,
                   swapper: Table, f: nat)
    requires MemOk(tasks, tables, data, counts, lay, swapper) && f < |counts| && counts[f] == 0
    ensures f !in tables && f !in data
  {}

  /** Tables and user data are counted. */
  lemma TableIsCounted(tasks: seq<Task>, tables: Tables, data: map<nat, Page>, counts: seq<nat>, lay: Layout,
                       swapper: Table, t: nat)
    requires MemOk(tasks, tables, data, counts, lay, swapper) && t in tables
    ensures t < |counts| && counts[t] > 0
  {}

  lemma DataIsCounted(tasks: seq<Task>, tables: Tables, data: map<nat, Page>, counts: seq<nat>, lay: Layout,
                      swapper: Table, f: nat)
    requires MemOk(tasks, tables, data, counts, lay, swapper) && f in data
    ensures f < |counts| && counts[f] > 0 && f !in tables
  {}

  /** The memory's side of hanging frame `f`, just allocated, from a table. */
  lemma HangRam(ram: seq<Contents>, tables: Tables, data: map<nat, Page>, counts: seq<nat>, t: nat, i: nat, f: nat)
    requires RamOk(ram, tables, data, counts) && t in tables && i < 512
    requires f !in tables && f !in data && f < |counts| && counts[f] == 0 && t < |counts| && counts[t] > 0
    ensures t < |ram| && ram[t] == Entries(tables[t]) && f < |ram|
    ensures var used := ram[f := Entries(TableIn(ram[f]))];
            RamOk(used[t := Entries(tables[t][i := Pointer(f)])], Hang(tables, t, i, f), data, counts[f := 1])
  {
    FreshFrameIsZero(ram, tables, data, counts, f);
    TableInRam(ram, tables, data, counts, t);
    RamKept(ram, tables, data, counts, counts[f := 1]);
    RamTable(ram, tables, data, counts[f := 1], f, ZeroTable());
    var with := tables[f := ZeroTable()];
    RamEntry(ram[f := Entries(ZeroTable())], with, data, counts[f := 1], t, tables[t][i := Pointer(f)]);
  }

  lemma HangStep(tasks: seq<Task>, tables: Tables, data: map<nat, Page>, counts: seq<nat>, lay: Layout, swapper: Table,
                 t: nat, i: nat, f: nat, slot: Slot)
    requires MemOk(tasks, tables, data, counts, lay, swapper) && t in tables && SlotOk(lay, t, i, slot)
    requires !tables[t][i].flags.v && f < |counts| && counts[f] == 0
    ensures f !in tables
    ensures Ensured(tasks, data, swapper, tables, lay, counts, Hang(tables, t, i, f),
            lay.(owner := lay.owner[f := slot]),
                    counts[f := 1], t, i, slot, f)
  {
    hide Tree, SameLookups;
    if slot.Mid? { HangMid(tables, lay, t, i, f); } else { HangLow(tables, lay, t, i, f); }
    HangSame(tables, lay, t, i, f);
    OwnersAreTables(tables, lay);
    assert f !in lay.owner;
  }

  lemma OwnersAreTables(tables: Tables, lay: Layout)
    requires Tree(tables, lay)
    ensures lay.owner.Keys <= tables.Keys
  {}

  /** No translation changed. */
  ghost predicate SameLookups(before: Tables, after: Tables, roots: set<nat>) {
    forall r, p: nat :: r in roots && p < 2 * USER_PAGES ==> Lookup(after, r, p) == Lookup(before, r, p)
  }

  lemma HangSame(tables: Tables, lay: Layout, t: nat, i: nat, f: nat)
    requires Tree(tables, lay) && t in tables && i < 512 && f !in tables && !tables[t][i].flags.v
    requires t in lay.roots || (t in lay.owner && lay.owner[t].Mid?)
    ensures SameLookups(tables, Hang(tables, t, i, f), lay.roots)
  {
    forall r, p: nat | r in lay.roots && p < 2 * USER_PAGES
      ensures Lookup(Hang(tables, t, i, f), r, p) == Lookup(tables, r, p)
    {
      LowIsLow(tables, lay, r, p);
      HangKeepsLookups(tables, t, i, f, r, p);
    }
  }

  /** Allocating one page takes a frame whose count was zero and sets it to 1. */
  lemma OneFrame(s: BuddySpec.State, t: BuddySpec.State, f: nat)
    requires BuddySpec.Consistent(s) && BuddySpec.Next(s, BuddySpec.GetPages(1, f), t)
    ensures f < |s.refs| && s.refs[f] == 0 && t.refs == s.refs[f := 1]
  {
    var n :| BuddySpec.LowestFit(s.size, s.used, BuddySpec.Rounded(1), n) && BuddyTree.Start(s.size, n) == f
      && t == BuddySpec.Insert(s, n);
    BuddySpec.InsertKeepsConsistent(s, n);
    BuddySpec.FreeIsNotBlockStart(s.size, s.used, n);
  }

  // ---------------------------------------------------------------- counts and contents

  lemma FlatFacts(tasks: seq<Task>, tables: Tables, data: map<nat, Page>, counts: seq<nat>, i: nat, page: nat)
    requires i < |tasks| && page < USER_PAGES
    ensures var s := Flat(tasks, tables, data, counts);
      && |s.procs| == |tasks| && s.procs[i].vmas == tasks[i].vmas && s.frames.Keys == data.Keys
      && (page in s.procs[i].pt <==> Lookup(tables, tasks[i].root, page).Some?)
      && (page in s.procs[i].pt ==> s.procs[i].pt[page] == Lookup(tables, tasks[i].root, page).value)
      && (forall f :: f in data ==> s.frames[f] == Frame(if f < |counts| then counts[f] else 0, data[f]))
  {
    hide Lookup;
  }

  /** What a present page's entry says about its frame. */
  lemma EntryFacts(tasks: seq<Task>, tables: Tables, data: map<nat, Page>, counts: seq<nat>, lay: Layout,
                   swapper: Table, i: nat, page: nat)
    requires MemOk(tasks, tables, data, counts, lay, swapper) && Inv(Flat(tasks, tables, data, counts))
    requires i < |tasks| && page < USER_PAGES && Lookup(tables, tasks[i].root, page).Some?
    ensures tasks[i].root in lay.roots
    ensures var pte := Lookup(tables, tasks[i].root, page).value;
            pte.ppn in data && pte.ppn < |counts|
    ensures |counts| !in data
  {
    hide Lookup, CountsOk, PrivateOk, ProcOk, Tree;
    FlatFacts(tasks, tables, data, counts, i, page);
    assert MapsFrames(Flat(tasks, tables, data, counts), i);
  }

  /** Dropping one reference to a mapped frame leaves at least one. */
  lemma StillCounted(tasks: seq<Task>, tables: Tables, data: map<nat, Page>, counts: seq<nat>, lay: Layout,
                     swapper: Table, i: nat, page: nat)
    requires MemOk(tasks, tables, data, counts, lay, swapper) && Inv(Flat(tasks, tables, data, counts))
    requires i < |tasks| && page < USER_PAGES && Lookup(tables, tasks[i].root, page).Some?
    ensures var f := Lookup(tables, tasks[i].root, page).value.ppn;
            f in data && f < |counts| && counts[f] >= 2
              && MemOk(tasks, tables, data, counts[f := counts[f] - 1], lay, swapper)
  {
    hide Lookup, Inv, Tree;
    EntryFacts(tasks, tables, data, counts, lay, swapper, i, page);
    FlatFacts(tasks, tables, data, counts, i, page);
    MappedIsCounted(Flat(tasks, tables, data, counts), i, page);
  }

  /** A free frame becomes user data. */
  lemma NewData(tasks: seq<Task>, tables: Tables, data: map<nat, Page>, counts: seq<nat>, lay: Layout, swapper: Table,
                f: nat, page: Page)
    requires MemOk(tasks, tables, data, counts, lay, swapper) && f < |counts| && counts[f] == 0
    ensures f !in data && MemOk(tasks, tables, data[f := page], counts[f := 1], lay, swapper)
  {
    hide Tree;
  }

  lemma FreshCount(tasks: seq<Task>, data: map<nat, Page>, swapper: Table, lay: Layout, counts: seq<nat>,
                   tables': Tables, lay': Layout, counts': seq<nat>, f: nat)
    requires Grown(tasks, data, swapper, lay, counts, tables', lay', counts')
    requires f < |counts| && counts[f] > 0
    ensures f < |counts'| && counts'[f] == counts[f]
            && MemOk(tasks, tables', data, counts'[f := counts'[f] + 1], lay', swapper)
  {
    hide Tree;
  }

  // ---------------------------------------------------------------- faults on shared pages

  /** The copy branch: the shared frame loses a reference, the process gets a copy of its own. */
  function CopyShared(s: State, i: nat, page: nat, f: nat, vma: Vma): State
    requires i < |s.procs| && page in s.procs[i].pt && s.procs[i].pt[page].ppn in s.frames
  {
    var p := s.procs[i].pt[page].ppn;
    var t := DropRef(s, p);
    SetPte(t.(frames := t.frames[f := Frame(2, s.frames[p].data)]), i, page, Pte(f, PermsOf(vma)))
  }

  /** What a fault on a shared page does. */
  ghost predicate Broke(s: State, i: nat, page: nat, f: nat, vma: Vma, t: State) {
    && i < |s.procs| && page in s.procs[i].pt && s.procs[i].pt[page].ppn in s.frames
    && var pte := s.procs[i].pt[page];
       t == if s.frames[pte.ppn].count == 0
         then SetPte(s, i, page, Pte(pte.ppn, Leaf(pte.flags.(s := false, w := true))))
            else CopyShared(s, i, page, f, vma)
  }

  lemma OneRange(before: Tables, after: Tables, lay: Layout, root: nat, page: nat, frame: nat, perm: Flags)
    requires RangeMapped(before, after, lay.roots, root, page, 1, frame, perm)
    ensures SameElsewhere(before, after, lay, root, page)
    ensures Lookup(after, root, page) == Some(Pte(frame, Leaf(perm)))
  {
    hide Lookup;
  }

  /** The branch for `deref_page` returning -1 is dead: a mapped frame is counted. */
  lemma MappedFrameIsCounted(tasks: seq<Task>, tables: Tables, data: map<nat, Page>, counts: seq<nat>, lay: Layout,
                             swapper: Table, f: nat)
    requires MemOk(tasks, tables, data, counts, lay, swapper) && f in data
    ensures f < |counts| && counts[f] > 0
  {}

  lemma Copied(tasks: seq<Task>, data: map<nat, Page>, swapper: Table, tables: Tables, lay: Layout, counts: seq<nat>,
               counts2: seq<nat>,
               tables': Tables, lay': Layout, counts3: seq<nat>, i: nat, page: nat, pte: Pte, vma: Vma, f: nat)
    requires MemOk(tasks, tables, data, counts, lay, swapper) && i < |tasks| && page < USER_PAGES && f !in data
    requires Lookup(tables, tasks[i].root, page) == Some(pte) && pte.ppn in data && pte.ppn < |counts|
             && counts[pte.ppn] >= 2
    requires f < |counts| && counts2 == counts[pte.ppn := counts[pte.ppn] - 1][f := 1]
    requires Grown(tasks, data[f := data[pte.ppn]], swapper, lay, counts2, tables', lay', counts3)
    requires RangeMapped(tables, tables', lay'.roots, tasks[i].root, page * 4096 / 4096, PagesIn(4096), f, PermsOf(vma))
    ensures counts3[f] == 1
    ensures Broke(Flat(tasks, tables, data, counts), i, page, f, vma,
            Flat(tasks, tables', data[f := data[pte.ppn]], counts3[f := 2]))
  {
    hide Lookup, Tree, RangeMapped, Flat, KernelHalf;
    FlatFacts(tasks, tables, data, counts, i, page);
    OneRange(tables, tables', lay', tasks[i].root, page, f, PermsOf(vma));
    var data' := data[f := data[pte.ppn]];
    FlatSet(tasks, tables, tables', data', counts3[f := 2], lay', i, page, Pte(f, PermsOf(vma)));
    CopiedFrames(tasks, tables, data, counts, counts3, pte.ppn, f);
  }

  lemma CopiedFrames(tasks: seq<Task>, tables: Tables, data: map<nat, Page>, counts: seq<nat>, counts3: seq<nat>,
                     p: nat, f: nat)
    requires FramesOk(tables, data, counts) && p in data && f !in data && p < |counts| && f < |counts| && counts[p] >= 2
    requires CountsKept(counts[p := counts[p] - 1][f := 1], counts3)
    ensures counts3[f] == 1
    ensures var s := Flat(tasks, tables, data, counts); var t := DropRef(s, p);
            Flat(tasks, tables, data[f := data[p]], counts3[f := 2])
              == t.(frames := t.frames[f := Frame(2, s.frames[p].data)])
  {
    hide PtOf;
  }

  // ---------------------------------------------------------------- demand faults

  /** What a fault on an unmapped page does. */
  ghost predicate Loads(image: Image, s: State, i: nat, page: nat, f: nat, vma: Vma, t: State) {
    i < |s.procs| &&
    t == SetPte(s.(frames := s.frames[f := Frame(2, Loaded(image, vma, page, ZeroPage()))]), i, page,
      Pte(f, PermsOf(vma)))
  }

  lemma PageLoaded(image: Image, tasks: seq<Task>, data: map<nat, Page>, swapper: Table, tables: Tables, lay: Layout,
                   counts: seq<nat>,
                   tables': Tables, lay': Layout, counts2: seq<nat>, i: nat, page: nat, vma: Vma, f: nat)
    requires MemOk(tasks, tables, data, counts, lay, swapper) && i < |tasks| && page < USER_PAGES
    requires f < |counts| && counts[f] == 0 && f !in data
    requires Grown(tasks, data[f := ZeroPage()], swapper, lay, counts[f := 1], tables', lay', counts2)
    requires RangeMapped(tables, tables', lay'.roots, tasks[i].root, page * 4096 / 4096, PagesIn(4096), f, PermsOf(vma))
    ensures f < |counts2| && counts2[f] == 1
    ensures var data' := data[f := Loaded(image, vma, page, ZeroPage())];
            MemOk(tasks, tables', data', counts2[f := 2], lay', swapper)
            && Loads(image, Flat(tasks, tables, data, counts), i, page, f, vma,
               Flat(tasks, tables', data', counts2[f := 2]))
  {
    hide Lookup, Tree, RangeMapped, Flat, KernelHalf, Loaded;
    OneRange(tables, tables', lay', tasks[i].root, page, f, PermsOf(vma));
    var contents := Loaded(image, vma, page, ZeroPage());
    assert data[f := contents] == data[f := ZeroPage()][f := contents];
    FlatSet(tasks, tables, tables', data[f := contents], counts2[f := 2], lay', i, page, Pte(f, PermsOf(vma)));
    FlatFacts(tasks, tables, data, counts, i, page);
    LoadedFrames(tasks, tables, data, counts, counts2, f, contents);
  }

  lemma LoadedFrames(tasks: seq<Task>, tables: Tables, data: map<nat, Page>, counts: seq<nat>, counts2: seq<nat>,
                     f: nat, contents: Page)
    requires FramesOk(tables, data, counts) && f !in data && f < |counts| && CountsKept(counts[f := 1], counts2)
    ensures counts2[f] == 1
    ensures var s := Flat(tasks, tables, data, counts);
            Flat(tasks, tables, data[f := contents], counts2[f := 2]) == s.(frames := s.frames[f := Frame(2, contents)])
  {
    hide PtOf;
  }

  /** A frame just allocated becomes user data as it is, which is zero. */
  lemma FreshUserFrame(tasks: seq<Task>, ram: seq<Contents>, tables: Tables, data: map<nat, Page>, counts: seq<nat>,
                       lay: Layout, swapper: Table, f: nat)
    requires MemOk(tasks, tables, data, counts, lay, swapper) && RamOk(ram, tables, data, counts)
    requires f < |counts| && counts[f] == 0
    ensures f !in data && f < |ram| && ram[f] == Bytes(ZeroPage())
    ensures MemOk(tasks, tables, data[f := ram[f].page], counts[f := 1], lay, swapper)
    ensures RamOk(ram, tables, data[f := ram[f].page], counts[f := 1])
  {
    hide MemOk, RamOk;
    FreshFrameIsZero(ram, tables, data, counts, f);
    FreshFrame(tasks, tables, data, counts, lay, swapper, f);
    NewData(tasks, tables, data, counts, lay, swapper, f, ram[f].page);
    OneTaken(counts, f);
    RamKept(ram, tables, data, counts, counts[f := 1]);
    RamPage(ram, tables, data, counts[f := 1], f, ram[f].page);
    assert ram[f := Bytes(ram[f].page)] == ram;
  }

  lemma LoadedRam(tasks: seq<Task>, ram: seq<Contents>, tables: Tables, data: map<nat, Page>, counts: seq<nat>,
                  lay: Layout, swapper: Table, lay0: Layout, counts0: seq<nat>, f: nat, contents: Page)
    requires Grown(tasks, data, swapper, lay0, counts0, tables, lay, counts) && RamOk(ram, tables, data, counts)
             && f in data
    ensures f < |ram| && RamOk(ram[f := Bytes(contents)], tables, data[f := contents], counts)
  {
    hide MemOk, RamOk;
    StillGrown(tasks, data, swapper, lay0, counts0, tables, lay, counts);
    DataIsCounted(tasks, tables, data, counts, lay, swapper, f);
    RamPage(ram, tables, data, counts, f, contents);
  }

  // ---------------------------------------------------------------- faults as steps of the flat machine

  lemma FaultFacts(image: Image, tasks: seq<Task>, tables: Tables, data: map<nat, Page>, counts: seq<nat>, lay: Layout,
                   swapper: Table, i: nat, va: nat)
    requires MemOk(tasks, tables, data, counts, lay, swapper) && Inv(Flat(tasks, tables, data, counts)) && i < |tasks|
             && va < 0x40_0000_0000
    ensures tasks[i].root in lay.roots && tasks[i].root in tables && Reaches(tables, tasks[i].root, va / 4096)
    ensures var s := Flat(tasks, tables, data, counts);
      && |s.procs| == |tasks| && MapsFrames(s, i) && s.procs[i].vmas == tasks[i].vmas && s.frames.Keys == data.Keys
      && |counts| !in s.frames
      && (va / 4096 in s.procs[i].pt <==> Lookup(tables, tasks[i].root, va / 4096).Some?)
      && (va / 4096 in s.procs[i].pt ==> s.procs[i].pt[va / 4096] == Lookup(tables, tasks[i].root, va / 4096).value)
  {
    hide Lookup, CountsOk, PrivateOk, ProcOk, Tree;
    FlatFacts(tasks, tables, data, counts, i, va / 4096);
    TreeReaches(tables, lay, tasks[i].root, va / 4096);
    RootsAreTables(tables, lay);
  }

  lemma RootsAreTables(tables: Tables, lay: Layout)
    requires Tree(tables, lay)
    ensures lay.roots <= tables.Keys
  {}

  lemma NothingToDo(image: Image, s: State, i: nat, va: nat, cause: Cause, f: nat)
    requires Inv(s) && i < |s.procs| && f !in s.frames
    requires var found := FindVma(s.procs[i].vmas, va);
             found.None? || !Permits(found.value, cause)
               || (va / 4096 in s.procs[i].pt && !s.procs[i].pt[va / 4096].flags.s)
    ensures CowTheorems.Next(image, s, FaultAt(i, va, cause, f), s)
  {
    hide CountsOk, PrivateOk, ProcOk, FindVma;
  }

  lemma BrokeIsFault(image: Image, s: State, i: nat, va: nat, cause: Cause, f: nat, vma: Vma, t: State)
    requires Inv(s) && i < |s.procs| && f !in s.frames && Broke(s, i, va / 4096, f, vma, t)
    requires FindVma(s.procs[i].vmas, va) == Some(vma) && Permits(vma, cause) && s.procs[i].pt[va / 4096].flags.s
    ensures CowTheorems.Next(image, s, FaultAt(i, va, cause, f), t) && Inv(t)
  {
    hide CountsOk, PrivateOk, ProcOk, FindVma, PermsOf;
    CowTheorems.StepRefines(image, s, FaultAt(i, va, cause, f));
  }

  lemma LoadIsFault(image: Image, s: State, i: nat, va: nat, cause: Cause, f: nat, vma: Vma, t: State)
    requires Inv(s) && i < |s.procs| && f !in s.frames && Loads(image, s, i, va / 4096, f, vma, t)
    requires FindVma(s.procs[i].vmas, va) == Some(vma) && Permits(vma, cause) && va / 4096 !in s.procs[i].pt
    ensures CowTheorems.Next(image, s, FaultAt(i, va, cause, f), t) && Inv(t)
  {
    hide CountsOk, PrivateOk, ProcOk, FindVma, PermsOf, Loaded;
    CowTheorems.StepRefines(image, s, FaultAt(i, va, cause, f));
  }

  // ---------------------------------------------------------------- unmapping

  lemma EntryCleared(tasks: seq<Task>, tables: Tables, data: map<nat, Page>, counts: seq<nat>, lay: Layout,
                     swapper: Table, root: nat, page: nat, at: (nat, nat))
    requires MemOk(tasks, tables, data, counts, lay, swapper) && root in lay.roots && page < USER_PAGES
    requires Walk(tables, root, page) == Some(at)
    ensures at.0 in tables && at.1 < 512
    ensures var after := SetLeaf(tables, at.0, at.1, NoPte());
            MemOk(tasks, after, data, counts, lay, swapper) && Lookup(after, root, page) == None
              && SameElsewhere(tables, after, lay, root, page)
  {
    hide Tree, Lookup;
    var mid := WalkOnPath(tables, lay, root, page, at);
    SetLeafTree(tables, lay, root, page, mid, at.0, NoPte());
    SetLeafLookup(tables, lay, root, page, mid, at.0, NoPte());
    forall r, p: nat | r in lay.roots && p < 2 * USER_PAGES && (r, p) != (root, page)
      ensures Lookup(SetLeaf(tables, at.0, at.1, NoPte()), r, p) == Lookup(tables, r, p)
    {
      SetLeafElsewhere(tables, lay, root, page, mid, at.0, NoPte(), r, p);
    }
  }

  lemma WalkOnPath(tables: Tables, lay: Layout, root: nat, page: nat, at: (nat, nat)) returns (mid: nat)
    requires Tree(tables, lay) && root in lay.roots && page < USER_PAGES && Walk(tables, root, page) == Some(at)
    ensures OnPath(tables, lay, root, page, mid, at.0) && at.1 == Vpn0(page)
  {
    Recompose(page);
    mid := tables[root][Vpn2(page)].ppn;
    assert HangsFrom(lay, mid, Mid(root, Vpn2(page)));
    assert HangsFrom(lay, at.0, Low(mid, Vpn1(page)));
  }

  lemma CopyIsMapped(tasks: seq<Task>, before: Tables, tables: Tables, data: map<nat, Page>, counts: seq<nat>,
                     lay: Layout, swapper: Table, root: nat, page: nat, f: nat)
    requires MemOk(tasks, tables, data, counts, lay, swapper) && root in lay.roots
    requires RangeMapped(before, tables, lay.roots, root, page, 1, f, NoPte().flags)
    ensures root in tables && Reaches(tables, root, page) && Lookup(tables, root, page).Some?
  {
    hide Lookup;
    TreeReaches(tables, lay, root, page);
  }

  lemma SameTwice(tables0: Tables, tables1: Tables, tables2: Tables, lay: Layout, root: nat, page: nat, f: nat,
                  perm: Flags)
    requires RangeMapped(tables0, tables1, lay.roots, root, page, 1, f, perm)
             && SameElsewhere(tables1, tables2, lay, root, page)
    ensures SameElsewhere(tables0, tables2, lay, root, page)
  {
    hide Lookup;
  }

  lemma NothingMappedThere(image: Image, s: State, i: nat, page: nat, f: nat)
    requires Inv(s) && i < |s.procs| && f !in s.frames && page !in s.procs[i].pt
    ensures CowTheorems.Next(image, s, UnmapPage(i, page, f), s)
  {
    hide CountsOk, PrivateOk, ProcOk;
  }

  lemma UnmapPlain(image: Image, tasks: seq<Task>, data: map<nat, Page>, swapper: Table, tables: Tables, lay: Layout,
                   counts: seq<nat>, tables': Tables, i: nat, page: nat, pte: Pte, f: nat)
    requires MemOk(tasks, tables, data, counts, lay, swapper) && Inv(Flat(tasks, tables, data, counts)) && i < |tasks|
             && page < USER_PAGES
    requires Lookup(tables, tasks[i].root, page) == Some(pte) && !pte.flags.s && f !in data
    requires pte.ppn in data && pte.ppn < |counts| && counts[pte.ppn] >= 2
    requires SameElsewhere(tables, tables', lay, tasks[i].root, page) && Lookup(tables', tasks[i].root, page) == None
    ensures var t := Flat(tasks, tables', data, counts[pte.ppn := counts[pte.ppn] - 1]);
            CowTheorems.Next(image, Flat(tasks, tables, data, counts), UnmapPage(i, page, f), t) && Inv(t)
  {
    hide Lookup, Tree, SameElsewhere, Flat, KernelHalf, Inv;
    var s := Flat(tasks, tables, data, counts);
    FlatFacts(tasks, tables, data, counts, i, page);
    FlatClear(tasks, tables, tables', data, counts[pte.ppn := counts[pte.ppn] - 1], lay, i, page);
    DroppedFrame(tasks, tables, data, counts, pte.ppn);
    CowTheorems.StepRefines(image, s, UnmapPage(i, page, f));
  }

  lemma DroppedFrame(tasks: seq<Task>, tables: Tables, data: map<nat, Page>, counts: seq<nat>, p: nat)
    requires p in data && p < |counts| && counts[p] > 0
    ensures p in Flat(tasks, tables, data, counts).frames
    ensures Flat(tasks, tables, data, counts[p := counts[p] - 1]) == DropRef(Flat(tasks, tables, data, counts), p)
  {
    hide PtOf;
  }

  lemma UnmapCopied(image: Image, tasks: seq<Task>, data: map<nat, Page>, swapper: Table, tables: Tables, lay: Layout,
                    counts: seq<nat>,
                    tables': Tables, lay': Layout, counts': seq<nat>, i: nat, page: nat, pte: Pte, f: nat)
    requires MemOk(tasks, tables, data, counts, lay, swapper) && Inv(Flat(tasks, tables, data, counts)) && i < |tasks|
             && page < USER_PAGES
    requires Lookup(tables, tasks[i].root, page) == Some(pte) && pte.flags.s && f !in data && f < |counts|
    requires pte.ppn in data && pte.ppn < |counts| && counts[pte.ppn] >= 2
    requires CountsKept(counts[pte.ppn := counts[pte.ppn] - 1][f := 1], counts') && lay'.roots == lay.roots
    requires SameElsewhere(tables, tables', lay', tasks[i].root, page) && Lookup(tables', tasks[i].root, page) == None
    ensures var t := Flat(tasks, tables', data[f := data[pte.ppn]], counts');
            CowTheorems.Next(image, Flat(tasks, tables, data, counts), UnmapPage(i, page, f), t) && Inv(t)
  {
    hide Lookup, Tree, Flat, KernelHalf, Inv, CountsKept;
    var s := Flat(tasks, tables, data, counts);
    FlatFacts(tasks, tables, data, counts, i, page);
    FlatClear(tasks, tables, tables', data[f := data[pte.ppn]], counts', lay, i, page);
    OrphanedFrame(tasks, tables, data, counts, counts', pte.ppn, f);
    CowTheorems.StepRefines(image, s, UnmapPage(i, page, f));
  }

  lemma OrphanedFrame(tasks: seq<Task>, tables: Tables, data: map<nat, Page>, counts: seq<nat>, counts': seq<nat>,
                      p: nat, f: nat)
    requires FramesOk(tables, data, counts) && p in data && f !in data && p < |counts| && f < |counts| && counts[p] >= 2
    requires CountsKept(counts[p := counts[p] - 1][f := 1], counts')
    ensures var s := Flat(tasks, tables, data, counts); var t := DropRef(s, p);
            Flat(tasks, tables, data[f := data[p]], counts') == t.(frames := t.frames[f := Frame(1, s.frames[p].data)])
  {
    hide PtOf;
  }

  /** A run of unmapping steps over the given pages of process `i`. */
  ghost predicate UnmapRun(image: Image, states: seq<State>, events: seq<Event>, i: nat, pages: seq<nat>) {
    && CowTheorems.IsRun(image, states, events) && |events| == |pages|
    && forall k :: 0 <= k < |events| ==> events[k].UnmapPage? && events[k].proc == i && events[k].page == pages[k]
  }

  /** Such a run leads from `s` to `t`. */
  ghost predicate UnmapLeads(image: Image, s: State, states: seq<State>, events: seq<Event>, i: nat, pages: seq<nat>,
                             t: State) {
    UnmapRun(image, states, events, i, pages) && states[0] == s && states[|events|] == t
  }

  /** `pages` are those from `start` to before `va`. */
  ghost predicate Visited(pages: seq<nat>, start: nat, va: nat, end: nat) {
    pages + PagesFrom(va, end) == PagesFrom(start, end)
  }

  lemma NoneVisited(start: nat, end: nat)
    ensures Visited([], start, start, end)
  {
    assert [] + PagesFrom(start, end) == PagesFrom(start, end);
  }

  lemma OneMoreVisited(pages: seq<nat>, start: nat, va: nat, end: nat)
    requires Visited(pages, start, va, end) && va < end
    ensures Visited(pages + [va / 4096], start, va + 4096, end)
  {
    assert pages + [va / 4096] + PagesFrom(va + 4096, end) == pages + PagesFrom(va, end);
  }

  lemma AllVisited(pages: seq<nat>, start: nat, va: nat, end: nat)
    requires Visited(pages, start, va, end) && va >= end
    ensures pages == PagesFrom(start, end)
  {
    assert pages + [] == pages;
  }

  lemma EmptyRun(image: Image, s: State, i: nat)
    ensures UnmapLeads(image, s, [s], [], i, [], s)
  {}

  lemma LongerRun(image: Image, s0: State, states: seq<State>, events: seq<Event>, i: nat, pages: seq<nat>, s: State,
                  page: nat, f: nat, t: State)
    requires UnmapLeads(image, s0, states, events, i, pages, s) && CowTheorems.Next(image, s, UnmapPage(i, page, f), t)
    ensures UnmapLeads(image, s0, states + [t], events + [UnmapPage(i, page, f)], i, pages + [page], t)
  {
    hide CowTheorems.Next;
  }

  /** Unmapping a range takes exactly its pages from the process, and nothing from any other. */
  lemma {:induction false} UnmapRunClears(image: Image, states: seq<State>, events: seq<Event>, i: nat, pages: seq<nat>)
    requires UnmapRun(image, states, events, i, pages) && i < |states[0].procs|
    ensures |states[|events|].procs| == |states[0].procs|
    ensures var p, q := states[0].procs[i], states[|events|].procs[i];
            q.vmas == p.vmas && q.pt == p.pt - (set k | 0 <= k < |pages| :: pages[k])
    ensures forall j :: 0 <= j < |states[0].procs| && j != i ==> states[|events|].procs[j] == states[0].procs[j]
    decreases |events|
  {
    if events == [] {
      assert states[0].procs[i].pt - {} == states[0].procs[i].pt;
    } else {
      var n := |events| - 1;
      UnmapRunClears(image, states[..n + 1], events[..n], i, pages[..n]);
      assert CowTheorems.Next(image, states[n], events[n], states[n + 1]);
      assert (set k | 0 <= k < |pages| :: pages[k]) == (set k | 0 <= k < n :: pages[..n][k]) + {pages[n]};
      assert states[n + 1].procs[i].pt == states[n].procs[i].pt - {pages[n]};
    }
  }

  // ---------------------------------------------------------------- stores

  lemma Stored(image: Image, tasks: seq<Task>, tables: Tables, data: map<nat, Page>, counts: seq<nat>, lay: Layout,
               swapper: Table, i: nat, va: nat, b: byte, pte: Pte)
    requires MemOk(tasks, tables, data, counts, lay, swapper) && Inv(Flat(tasks, tables, data, counts)) && i < |tasks|
             && va < 0x40_0000_0000
    requires Lookup(tables, tasks[i].root, va / 4096) == Some(pte) && pte.flags.v && pte.flags.w && pte.flags.u
             && pte.ppn in data
    ensures var data' := data[pte.ppn := data[pte.ppn][va % 4096 := b]];
            MemOk(tasks, tables, data', counts, lay, swapper) && Inv(Flat(tasks, tables, data', counts))
            && CowTheorems.Next(image, Flat(tasks, tables, data, counts), StoreAt(i, va, b),
               Flat(tasks, tables, data', counts))
  {
    hide Lookup, Tree, KernelHalf, CountsOk, PrivateOk, ProcOk, PtOf;
    var s := Flat(tasks, tables, data, counts);
    FlatFacts(tasks, tables, data, counts, i, va / 4096);
    assert MapsFrames(s, i);
    assert Flat(tasks, tables, data[pte.ppn := data[pte.ppn][va % 4096 := b]], counts) == Poke(s, i, va, b);
    CowTheorems.StepRefines(image, s, StoreAt(i, va, b));
  }

  // ---------------------------------------------------------------- fork

  lemma RecordTaken(tasks: seq<Task>, tables: Tables, data: map<nat, Page>, counts: seq<nat>, lay: Layout,
                    swapper: Table, f: nat)
    requires MemOk(tasks, tables, data, counts, lay, swapper) && f < |counts| && counts[f] == 0
    ensures MemOk(tasks, tables, data, counts[f := 1], lay, swapper)
    ensures Flat(tasks, tables, data, counts[f := 1]) == Flat(tasks, tables, data, counts)
  {
    hide Tree;
    FlatCounts(tasks, tables, data, counts, counts[f := 1]);
  }

  lemma Spawned(tasks: seq<Task>, tables: Tables, data: map<nat, Page>, counts: seq<nat>, lay: Layout, swapper: Table,
                parent: nat, child: Task)
    requires MemOk(tasks, tables, data, counts, lay, swapper) && parent < |tasks|
    requires child.root < |counts| && counts[child.root] == 0 && child.vmas == Reverse(tasks[parent].vmas)
    ensures child.root !in tables
    ensures var tasks', f := tasks + [child], child.root;
            MemOk(tasks', tables[f := swapper], data, counts[f := 1], lay.(roots := lay.roots + {f}), swapper)
            && |tasks| == |Flat(tasks, tables, data, counts).procs|
            && Flat(tasks', tables[f := swapper], data, counts[f := 1])
               == Spawn(Flat(tasks, tables, data, counts), parent)
  {
    hide Tree, Flat, Spawn;
    var f := child.root;
    NewRootTree(tables, lay, swapper, f);
    FlatSpawn(tasks, tables, data, counts[f := 1], lay, swapper, child, parent);
    RecordTaken(tasks, tables, data, counts, lay, swapper, f);
    RootsAreTables(tables, lay);
    ReversedUserAreas(tasks[parent].vmas);
    FlatProcs(tasks, tables, data, counts);
  }

  lemma FlatProcs(tasks: seq<Task>, tables: Tables, data: map<nat, Page>, counts: seq<nat>)
    ensures |Flat(tasks, tables, data, counts).procs| == |tasks|
    ensures forall i :: 0 <= i < |tasks| ==> Flat(tasks, tables, data, counts).procs[i].vmas == tasks[i].vmas
  {}

  lemma SameRoots(before: Tables, after: Tables, lay: Layout, lay': Layout, root: nat, page: nat)
    requires SameElsewhere(before, after, lay, root, page) && lay.roots == lay'.roots
    ensures SameElsewhere(before, after, lay', root, page)
  {
    hide Lookup;
  }

  lemma ReversedUserAreas(vmas: seq<Vma>)
    requires UserAreas(vmas)
    ensures UserAreas(Reverse(vmas))
  {
    forall v | v in Reverse(vmas)
      ensures v.end <= 0x40_0000_0000
    {
      ReverseMembers(vmas, v);
    }
  }

  /** What the copy loop needs to know of the parent. */
  ghost predicate Ready(s: State, parent: nat) {
    && parent < |s.procs| && MapsFrames(s, parent)
    && forall p :: p in s.procs[parent].pt ==> var g := s.procs[parent].pt[p].flags; g.v && g.a && g.d
  }

  ghost predicate Forked(s: State, parent: nat, child: nat, page: nat, t: State) {
    parent < |s.procs| && child < |s.procs| && MapsFrames(s, parent) && t == ForkOne(s, parent, child, page)
  }

  lemma ForkFacts(tasks: seq<Task>, tables: Tables, data: map<nat, Page>, counts: seq<nat>, lay: Layout, swapper: Table,
                  parent: nat, child: nat, page: nat)
    requires MemOk(tasks, tables, data, counts, lay, swapper) && parent < |tasks| && child < |tasks|
             && page < USER_PAGES
    requires Ready(Flat(tasks, tables, data, counts), parent)
    ensures tasks[parent].root in lay.roots && tasks[child].root in lay.roots
    ensures tasks[parent].root in tables && Reaches(tables, tasks[parent].root, page)
    ensures var s := Flat(tasks, tables, data, counts);
      && |s.procs| == |tasks| && (page in s.procs[parent].pt <==> Lookup(tables, tasks[parent].root, page).Some?)
    ensures Lookup(tables, tasks[parent].root, page).Some? ==>
      var pte := Lookup(tables, tasks[parent].root, page).value;
      pte.ppn in data && pte.ppn < |counts| && pte.flags.v && pte.flags.a && pte.flags.d
  {
    hide Lookup, Tree;
    FlatFacts(tasks, tables, data, counts, parent, page);
    TreeReaches(tables, lay, tasks[parent].root, page);
    RootsAreTables(tables, lay);
  }

  lemma NothingToFork(s: State, parent: nat, child: nat, page: nat)
    requires Ready(s, parent) && child < |s.procs| && page !in s.procs[parent].pt
    ensures Forked(s, parent, child, page, s)
  {}

  lemma MemValidRef(tasks: seq<Task>, tables: Tables, data: map<nat, Page>, counts: seq<nat>, lay: Layout,
                    swapper: Table, f: nat)
    requires MemOk(tasks, tables, data, counts, lay, swapper) && f in data
    ensures f < |counts| && counts[f] > 0 && MemOk(tasks, tables, data, counts[f := counts[f] + 1], lay, swapper)
  {
    hide Tree;
  }

  lemma KeptTwice(a: seq<nat>, b: seq<nat>, c: seq<nat>)
    requires CountsKept(a, b) && CountsKept(b, c)
    ensures CountsKept(a, c)
  {}

  lemma ForkedPage(tasks: seq<Task>, data: map<nat, Page>, swapper: Table, tables0: Tables, lay0: Layout,
                   counts0: seq<nat>,
                   tables1: Tables, tables2: Tables, lay2: Layout, counts2: seq<nat>, parent: nat, child: nat,
                   page: nat, pte: Pte)
    requires MemOk(tasks, tables0, data, counts0, lay0, swapper) && parent < |tasks| && child < |tasks|
             && page < USER_PAGES
    requires Lookup(tables0, tasks[parent].root, page) == Some(pte) && pte.ppn in data && pte.ppn < |counts0|
    requires Ready(Flat(tasks, tables0, data, counts0), parent)
    requires pte.flags.v && pte.flags.a && pte.flags.d
    requires lay2.roots == lay0.roots && MemOk(tasks, tables2, data, counts2, lay2, swapper)
    requires SameElsewhere(tables0, tables1, lay2, tasks[parent].root, page)
    requires Lookup(tables1, tasks[parent].root, page) == Some(Pte(pte.ppn, SharedFlags(pte.flags)))
    requires RangeMapped(tables1, tables2, lay2.roots, tasks[child].root, page, 1, pte.ppn, SharedFlags(pte.flags))
    requires CountsKept(counts0[pte.ppn := counts0[pte.ppn] + 1], counts2)
    ensures Ready(Flat(tasks, tables2, data, counts2), parent)
    ensures Forked(Flat(tasks, tables0, data, counts0), parent, child, page, Flat(tasks, tables2, data, counts2))
  {
    hide Lookup, Tree, SameElsewhere, RangeMapped, Flat, KernelHalf;
    var s := Flat(tasks, tables0, data, counts0);
    var shared := Pte(pte.ppn, SharedFlags(pte.flags));
    FlatFacts(tasks, tables0, data, counts0, parent, page);
    OneRange(tables1, tables2, lay2, tasks[child].root, page, pte.ppn, shared.flags);
    FlatSet(tasks, tables0, tables1, data, counts2, lay2, parent, page, shared);
    FlatSet(tasks, tables1, tables2, data, counts2, lay2, child, page, shared);
    RaisedFrame(tasks, tables0, data, counts0, counts2, pte.ppn);
  }

  lemma RaisedFrame(tasks: seq<Task>, tables: Tables, data: map<nat, Page>, counts: seq<nat>, counts2: seq<nat>, p: nat)
    requires FramesOk(tables, data, counts) && p in data && p < |counts|
             && CountsKept(counts[p := counts[p] + 1], counts2)
    ensures p in Flat(tasks, tables, data, counts).frames
    ensures Flat(tasks, tables, data, counts2) == AddRef(Flat(tasks, tables, data, counts), p)
  {
    hide PtOf;
  }

  lemma NoPagesForked(s: State, parent: nat, child: nat)
    requires parent < |s.procs| && child < |s.procs| && MapsFrames(s, parent)
    ensures ForkPages(s, parent, child, []) == s
  {}

  lemma {:induction false} ForkPagesAppend(s: State, parent: nat, child: nat, pages: seq<nat>, page: nat)
    requires parent < |s.procs| && child < |s.procs| && MapsFrames(s, parent)
    ensures var t := ForkPages(s, parent, child, pages);
            |t.procs| == |s.procs| && MapsFrames(t, parent)
            && ForkPages(s, parent, child, pages + [page]) == ForkOne(t, parent, child, page)
    decreases |pages|
  {
    if pages == [] {
      assert [page][1..] == [];
      ForkOneKeepsFrames(s, parent, child, page);
    } else {
      ForkOneKeepsFrames(s, parent, child, pages[0]);
      ForkPagesAppend(ForkOne(s, parent, child, pages[0]), parent, child, pages[1..], page);
      assert (pages + [page])[1..] == pages[1..] + [page];
    }
  }

  lemma OneMoreForked(s: State, parent: nat, child: nat, done: seq<nat>, page: nat, before: State, t: State)
    requires parent < |s.procs| && child < |s.procs| && MapsFrames(s, parent)
    requires before == ForkPages(s, parent, child, done) && Forked(before, parent, child, page, t)
    ensures t == ForkPages(s, parent, child, done + [page])
  {
    ForkPagesAppend(s, parent, child, done, page);
  }

  lemma AreaBound(tasks: seq<Task>, tables: Tables, data: map<nat, Page>, counts: seq<nat>, lay: Layout,
                  swapper: Table, i: nat, k: nat)
    requires MemOk(tasks, tables, data, counts, lay, swapper) && i < |tasks| && k < |tasks[i].vmas|
    ensures tasks[i].vmas[k].end <= 0x40_0000_0000
  {}

  lemma SpawnIsReady(s: State, parent: nat)
    requires Inv(s) && parent < |s.procs|
    ensures Ready(Spawn(s, parent), parent)
    ensures |Spawn(s, parent).procs| == |s.procs| + 1 && MapsFrames(Spawn(s, parent), parent)
  {
    assert MapsFrames(s, parent) && ProcOk(s, parent);
  }

  lemma ForkDone(image: Image, s: State, parent: nat, t: State)
    requires Inv(s) && parent < |s.procs| && MapsFrames(Spawn(s, parent), parent)
    requires t == ForkPages(Spawn(s, parent), parent, |s.procs|, ForkOrder(s.procs[parent].vmas))
    ensures CowTheorems.Next(image, s, ForkOf(parent), t) && Inv(t)
  {
    hide CountsOk, PrivateOk, ProcOk;
    assert MapsFrames(s, parent);
    CowTheorems.StepRefines(image, s, ForkOf(parent));
  }

  // ---------------------------------------------------------------- accesses that are retried

  lemma LoadGranted(image: Image, s: State, i: nat, va: nat, f: nat, t: State)
    requires Inv(s) && i < |s.procs| && CowTheorems.Next(image, s, FaultAt(i, va, Load, f), t)
    requires FindVma(s.procs[i].vmas, va).Some? && FindVma(s.procs[i].vmas, va).value.flags.read
    ensures |t.procs| == |s.procs| && va / 4096 in t.procs[i].pt
    ensures var g := t.procs[i].pt[va / 4096].flags; g.v && g.r && g.u
  {
    hide CountsOk, PrivateOk, ProcOk, FindVma, Step;
    CowTheorems.LoadFaultGrantsLoad(image, s, i, va, f);
  }

  lemma StoreGranted(image: Image, s: State, i: nat, va: nat, f: nat, t: State)
    requires Inv(s) && i < |s.procs| && CowTheorems.Next(image, s, FaultAt(i, va, Store, f), t)
    requires FindVma(s.procs[i].vmas, va).Some? && FindVma(s.procs[i].vmas, va).value.flags.write
    ensures CanStore(t, i, va)
  {
    hide CountsOk, PrivateOk, ProcOk, FindVma, Step;
    CowTheorems.StoreFaultGrantsStore(image, s, i, va, f);
  }

  lemma StoreSeen(image: Image, s: State, i: nat, va: nat, b: byte, t: State)
    requires Inv(s) && CowTheorems.Next(image, s, StoreAt(i, va, b), t)
    ensures Mapped(t) && i < |t.procs| && CowTheorems.ByteSeen(View(t, i), va) == Some(b)
  {
    hide CountsOk, PrivateOk, ProcOk, Step;
    CowTheorems.StoreIsSeen(image, s, i, va, b, va);
  }

  // ---------------------------------------------------------------- moving an area's end

  ghost predicate CanMoveEnd(s: State, i: nat, k: nat, end: nat) {
    && i < |s.procs| && k < |s.procs[i].vmas|
    && VmasOk(s.procs[i].vmas[k := s.procs[i].vmas[k].(end := end)])
  }

  lemma EndMoved(image: Image, tasks: seq<Task>, tables: Tables, data: map<nat, Page>, counts: seq<nat>, lay: Layout,
                 swapper: Table, i: nat, k: nat, end: nat)
    requires MemOk(tasks, tables, data, counts, lay, swapper) && Inv(Flat(tasks, tables, data, counts))
    requires i < |tasks| && k < |tasks[i].vmas| && end <= 0x40_0000_0000
             && CanMoveEnd(Flat(tasks, tables, data, counts), i, k, end)
    ensures var tasks' := tasks[i := MovedEnd(tasks[i], k, end)];
            MemOk(tasks', tables, data, counts, lay, swapper) && Inv(Flat(tasks', tables, data, counts))
            && CowTheorems.Next(image, Flat(tasks, tables, data, counts), MoveEnd(i, k, end),
               Flat(tasks', tables, data, counts))
  {
    hide Tree, KernelHalf, CountsOk, PrivateOk, ProcOk, PtOf, VmasOk;
    var s := Flat(tasks, tables, data, counts);
    var tasks' := tasks[i := MovedEnd(tasks[i], k, end)];
    assert Flat(tasks', tables, data, counts) == SetEnd(s, i, k, end);
    CowTheorems.StepRefines(image, s, MoveEnd(i, k, end));
  }

  // ---------------------------------------------------------------- the break

  /** A child's heap is its parent's. */
  lemma ChildHasHeap(tasks: seq<Task>, parent: nat, child: Task)
    requires HeapsOk(tasks) && parent < |tasks| && child.vmas == Reverse(tasks[parent].vmas)
    requires child.startBrk == tasks[parent].startBrk && child.brk == tasks[parent].brk
    ensures HeapsOk(tasks + [child])
  {
    assert HasHeap(tasks[parent]);
    var k :| HeapAt(tasks[parent], k);
    ReverseLength(tasks[parent].vmas);
    ReverseAt(tasks[parent].vmas, |child.vmas| - 1 - k);
    assert HeapAt(child, |child.vmas| - 1 - k);
  }

  /** What `sys_brk` returns and records. */
  ghost predicate BrkResult(before: Task, after: Task, brk: word, r: nat) {
    if brk == 0 then r == RoundUp(before.brk) && after == before
    else if RoundUp(brk) < before.startBrk then r == before.brk && after == before
    else
      && r == brk && after.startBrk == before.startBrk && after.root == before.root
      && after.brk == if RoundUp(brk) == RoundUp(before.brk) then before.brk else brk
  }

  /** What `sys_brk` does to memory, area `k` being the heap: nothing, or the area's end moves to the
      page of the new break, or the pages behind the new break go and the end moves to the old one. */
  ghost predicate BrkDone(image: Image, task: Task, i: nat, k: nat, brk: word,
                          s: State, states: seq<State>, events: seq<Event>, t: State) {
    var oldBrk, newBrk := RoundUp(task.brk), RoundUp(brk);
    if brk == 0 || newBrk < task.startBrk || newBrk == oldBrk then t == s
    else if newBrk > oldBrk then CowTheorems.Next(image, s, MoveEnd(i, k, newBrk), t)
    else
      && |states| > 0 && CowTheorems.Next(image, s, MoveEnd(i, k, oldBrk), states[0])
      && UnmapRun(image, states, events, i, PagesFrom(newBrk, oldBrk)) && states[|events|] == t
  }

  lemma HeapFacts(tasks: seq<Task>, tables: Tables, data: map<nat, Page>, counts: seq<nat>, lay: Layout, swapper: Table,
                  i: nat) returns (k: nat)
    requires MemOk(tasks, tables, data, counts, lay, swapper) && Inv(Flat(tasks, tables, data, counts))
    requires HeapsOk(tasks) && i < |tasks|
    ensures HeapAt(tasks[i], k) && k < |tasks[i].vmas|
    ensures FindVma(tasks[i].vmas, RoundUp(tasks[i].brk)) == Some(tasks[i].vmas[k])
    ensures forall a :: 0 <= a < |tasks[i].vmas| && tasks[i].vmas[a] == tasks[i].vmas[k] ==> a == k
  {
    hide Flat, CountsOk, PrivateOk, MemOk, FindVma, HeapAt;
    assert HasHeap(tasks[i]);
    k :| HeapAt(tasks[i], k);
    AreasAreOk(tasks, tables, data, counts, i);
    HeapIsFound(tasks[i], k);
    HeapIndex(tasks[i], k);
  }

  lemma AreasAreOk(tasks: seq<Task>, tables: Tables, data: map<nat, Page>, counts: seq<nat>, i: nat)
    requires Inv(Flat(tasks, tables, data, counts)) && i < |tasks|
    ensures VmasOk(tasks[i].vmas)
  {
    hide CountsOk, PrivateOk;
    FlatProcs(tasks, tables, data, counts);
    assert ProcOk(Flat(tasks, tables, data, counts), i);
  }

  lemma HeapIndex(task: Task, k: nat)
    requires HeapAt(task, k) && VmasOk(task.vmas)
    ensures k < |task.vmas| && forall a :: 0 <= a < |task.vmas| && task.vmas[a] == task.vmas[k] ==> a == k
  {
    forall a | 0 <= a < |task.vmas| && task.vmas[a] == task.vmas[k]
      ensures a == k
    {
      assert a == k || Apart(task.vmas[a], task.vmas[k]);
    }
  }

  /** Shrinking a heap asks nothing of its surroundings. */
  lemma ShrinkFits(tasks: seq<Task>, tables: Tables, data: map<nat, Page>, counts: seq<nat>, lay: Layout,
                   swapper: Table, i: nat, k: nat)
    requires MemOk(tasks, tables, data, counts, lay, swapper) && Inv(Flat(tasks, tables, data, counts))
    requires i < |tasks| && HeapAt(tasks[i], k)
    ensures CanMoveEnd(Flat(tasks, tables, data, counts), i, k, RoundUp(tasks[i].brk))
    ensures RoundUp(tasks[i].brk) <= 0x40_0000_0000
  {
    hide Flat, Inv, RoundUp, VmasOk, Tree, FramesOk, KernelHalf;
    AreasAreOk(tasks, tables, data, counts, i);
    FlatProcs(tasks, tables, data, counts);
    ShorterAreaFits(tasks[i].vmas, k, RoundUp(tasks[i].brk));
  }

  lemma GrowFits(tasks: seq<Task>, tables: Tables, data: map<nat, Page>, counts: seq<nat>, lay: Layout, swapper: Table,
                 i: nat, k: nat, end: nat)
    requires MemOk(tasks, tables, data, counts, lay, swapper) && Inv(Flat(tasks, tables, data, counts))
    requires i < |tasks| && HeapAt(tasks[i], k) && GrowthFits(tasks[i], end) && end > RoundUp(tasks[i].brk)
    ensures CanMoveEnd(Flat(tasks, tables, data, counts), i, k, end) && end <= 0x40_0000_0000
  {
    hide Flat, Inv, RoundUp, VmasOk, Tree, FramesOk, KernelHalf;
    AreasAreOk(tasks, tables, data, counts, i);
    FlatProcs(tasks, tables, data, counts);
    if end <= tasks[i].vmas[k].end { ShorterAreaFits(tasks[i].vmas, k, end); }
  }

  lemma BrkRecorded(tasks: seq<Task>, tables: Tables, data: map<nat, Page>, counts: seq<nat>, lay: Layout,
                    swapper: Table, i: nat, brk: nat)
    requires MemOk(tasks, tables, data, counts, lay, swapper) && i < |tasks|
    ensures var tasks' := tasks[i := tasks[i].(brk := brk)];
            MemOk(tasks', tables, data, counts, lay, swapper)
              && Flat(tasks', tables, data, counts) == Flat(tasks, tables, data, counts)
  {
    hide Tree, KernelHalf, FramesOk, PtOf;
  }

  lemma HeapMoved(tasks: seq<Task>, i: nat, k: nat, end: nat, brk: word)
    requires HeapsOk(tasks) && i < |tasks| && HeapAt(tasks[i], k) && tasks[i].startBrk <= RoundUp(brk) <= end
    ensures HeapsOk(tasks[i := MovedEnd(tasks[i], k, end).(brk := brk)])
  {
    var tasks' := tasks[i := MovedEnd(tasks[i], k, end).(brk := brk)];
    if brk + 4095 >= WORD { RoundUpAtTop(brk); }
    forall j | 0 <= j < |tasks'|
      ensures HasHeap(tasks'[j])
    {
      if j == i {
        assert HeapAt(tasks'[j], k);
      } else {
        assert HasHeap(tasks[j]);
      }
    }
  }

  /** The process of `BrkRun`. */
  function HeapTask(root: nat, end: nat, brk: nat): Task { Task(root, [CowTheorems.HeapArea(end)], 0x1000, brk) }

  /** The three moves of the break in `BrkRun` are what `sys_brk` does: from 0x1000 up to 0x6000, down to
      0x2000, up to 0x3000. */
  lemma BrkRunIsSysBrk(image: Image, f: nat, root: nat)
    ensures var states, events := CowTheorems.BrkStates(f), CowTheorems.BrkEvents(f);
      && BrkDone(image, HeapTask(root, 0x1000, 0x1000), 0, 0, 0x6000, states[0], [], [], states[1])
      && BrkDone(image, HeapTask(root, 0x6000, 0x6000), 0, 0, 0x2000, states[1], states[2..7], events[2..6], states[6])
      && BrkDone(image, HeapTask(root, 0x6000, 0x2000), 0, 0, 0x3000, states[8], [], [], states[9])
  {
    hide CowTheorems.Next, CowTheorems.BrkStates, CowTheorems.BrkEvents, UnmapRun, PagesFrom;
    BrkMoves(image, f);
    BrkUnmaps(image, f);
  }

  lemma BrkMoves(image: Image, f: nat)
    ensures var states := CowTheorems.BrkStates(f);
      && |states| == 11
      && CowTheorems.Next(image, states[0], MoveEnd(0, 0, 0x6000), states[1])
      && CowTheorems.Next(image, states[1], MoveEnd(0, 0, 0x6000), states[2])
      && CowTheorems.Next(image, states[8], MoveEnd(0, 0, 0x3000), states[9])
  {
    hide CowTheorems.Next, CowTheorems.EmptyHeap, CowTheorems.HeldPage, Spawn;
    CowTheorems.HeapMoves(image, f, ZeroPage()[0 := 7]);
  }

  lemma BrkUnmaps(image: Image, f: nat)
    ensures var states, events := CowTheorems.BrkStates(f), CowTheorems.BrkEvents(f);
      |states| == 11 && |events| == 10 && UnmapRun(image, states[2..7], events[2..6], 0, PagesFrom(0x2000, 0x6000))
  {
    hide CowTheorems.Next, CowTheorems.EmptyHeap, CowTheorems.HeldPage, Spawn;
    CowTheorems.HeapMoves(image, f, ZeroPage());
    FourPages();
    var s := CowTheorems.EmptyHeap(0x6000);
    assert CowTheorems.BrkStates(f)[2..7] == [s, s, s, s, s];
    assert CowTheorems.BrkEvents(f)[2..6]
           == [UnmapPage(0, 2, f), UnmapPage(0, 3, f), UnmapPage(0, 4, f), UnmapPage(0, 5, f)];
  }

  lemma FourPages()
    ensures PagesFrom(0x2000, 0x6000) == [2, 3, 4, 5]
  {
    assert PagesFrom(0x6000, 0x6000) == [] && PagesFrom(0x5000, 0x6000) == [5] + [];
    assert PagesFrom(0x4000, 0x6000) == [4] + [5] && PagesFrom(0x3000, 0x6000) == [3] + [4, 5];
  }

  // ---------------------------------------------------------------- boot

  /** The kernel's own tables: the template's upper half leads to middle tables, those to leaves. */
  ghost predicate KernelTables(kernel: Tables, kmid: set<nat>, klow: set<nat>, swapper: Table) {
    && kernel.Keys == kmid + klow
    && (forall i :: 0 <= i < 256 ==> !swapper[i].flags.v)
    && (forall i :: 256 <= i < 512 && swapper[i].flags.v ==> swapper[i].ppn in kmid)
    && (forall t, i :: t in kmid && 0 <= i < 512 && kernel[t][i].flags.v ==> kernel[t][i].ppn in klow)
  }

  lemma Booted(kernel: Tables, kmid: set<nat>, klow: set<nat>, swapper: Table, task: Task, counts: seq<nat>)
    requires KernelTables(kernel, kmid, klow, swapper) && task.root !in kernel && VmasOk(task.vmas)
             && UserAreas(task.vmas)
    requires forall f :: f in kernel || f == task.root ==> f < |counts| && counts[f] > 0
    ensures var tables := kernel[task.root := swapper];
            MemOk([task], tables, map[], counts, Layout({task.root}, map[], kmid, klow), swapper)
            && Flat([task], tables, map[], counts) == State([Proc(task.vmas, map[])], map[])
            && Inv(State([Proc(task.vmas, map[])], map[]))
  {
    NewRootIsEmpty(kernel, Layout({task.root}, map[], kmid, klow), swapper, task.root);
    CowTheorems.BootIsFine(task.vmas);
  }
}
