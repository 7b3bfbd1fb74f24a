/** The kernel's memory code: page tables built in frames of the buddy allocator
    (arch/riscv/kernel/vm.c), fork's copy-on-write loop (proc.c), the page-fault handler (trap.c) and
    unmapping (vma.c).

    Every method that allocates returns false when memory runs out; the kernel resets the machine
    then, so nothing is promised for that case. */
module Kernel {
  import opened Wrappers
  import opened Words
  import opened CowSpec
  import opened CowProof
  import opened PageTable
  import opened KernelSpec
  import opened KernelSteps
  import CowTheorems
  import Buddy
  import BuddySpec

  class Machine {
    const mm: Buddy.Allocator
    const image: Image
    const swapper: Table
    /** What every frame of the allocator holds. */
    var ram: seq<Contents>
    var tasks: seq<Task>
    /** The frames that hold tables and those that hold user data. */
    ghost var tables: Tables
    ghost var data: map<nat, Page>
    ghost var lay: Layout

    /** After `task_init`: one process, which has touched nothing; its root table is a copy of the
        kernel's, whose own tables are the only others. */
    constructor (mm: Buddy.Allocator, image: Image, swapper: Table, ram: seq<Contents>, task: Task,
                 ghost kernel: Tables, ghost kmid: set<nat>, ghost klow: set<nat>)
      requires mm.Valid() && KernelTables(kernel, kmid, klow, swapper) && task.root !in kernel
      requires forall f :: f in kernel || f == task.root ==> f < mm.refCnt.Length && mm.refCnt[f] > 0
      requires RamOk(ram, kernel[task.root := swapper], map[], mm.refCnt[..])
      requires VmasOk(task.vmas) && UserAreas(task.vmas)
      ensures this.mm == mm && this.image == image && this.swapper == swapper && tasks == [task]
      ensures Valid() && Abs() == State([Proc(task.vmas, map[])], map[])
    {
      this.mm, this.image, this.swapper := mm, image, swapper;
      this.ram := ram;
      this.tasks := [task];
      this.tables := kernel[task.root := swapper];
      this.data := map[];
      this.lay := Layout({task.root}, map[], kmid, klow);
      new;
      Booted(kernel, kmid, klow, swapper, task, Counts());
    }

    ghost function Counts(): seq<nat>
      reads this, mm, mm.refCnt
    {
      mm.refCnt[..]
    }

    /** The flat copy-on-write state that this memory implements. */
    ghost function Abs(): State
      reads this, mm, mm.refCnt
    {
      Flat(tasks, tables, data, Counts())
    }

    ghost predicate MemValid()
      reads this, mm, mm.bitmap, mm.refCnt
    {
      && mm.Valid() && MemOk(tasks, tables, data, Counts(), lay, swapper)
      && RamOk(ram, tables, data, Counts())
    }

    ghost predicate Valid()
      reads this, mm, mm.bitmap, mm.refCnt
    {
      MemValid() && Inv(Abs())
    }

    /** `alloc_page`: the lowest frame that nothing uses.  Its contents are left as they are. */
    method AllocPage() returns (r: Option<nat>)
      requires mm.Valid()
      modifies mm`used, mm.bitmap, mm.refCnt
      ensures mm.Valid() && (r.None? <==> BuddySpec.NoFit(mm.size, old(mm.used), 1))
      ensures r.Some? ==> BuddySpec.Next(old(mm.Abstract()), BuddySpec.GetPages(1, r.value), mm.Abstract())
      ensures r.Some? ==> r.value < |old(Counts())| && old(Counts())[r.value] == 0
      ensures r.Some? ==> Counts() == old(Counts())[r.value := 1]
    {
      hide BuddySpec.NoFit, BuddySpec.Next;
      ghost var s := mm.Abstract();
      r := mm.Alloc(1);
      if r.Some? { OneFrame(s, mm.Abstract(), r.value); }
    }

    /** `walk_page_table` */
    method WalkPageTable(root: nat, page: nat) returns (r: Option<(nat, nat)>)
      requires root in tables && Reaches(tables, root, page) && RamOk(ram, tables, data, Counts())
      ensures r == Walk(tables, root, page) && r.Some? == Lookup(tables, root, page).Some?
    {
      hide RamOk;
      TableInRam(ram, tables, data, Counts(), root);
      var e2 := ram[root].table[Vpn2(page)];
      if !e2.flags.v { return None; }
      TableInRam(ram, tables, data, Counts(), e2.ppn);
      var e1 := ram[e2.ppn].table[Vpn1(page)];
      if !e1.flags.v { return None; }
      TableInRam(ram, tables, data, Counts(), e1.ppn);
      if !ram[e1.ppn].table[Vpn0(page)].flags.v { return None; }
      return Some((e1.ppn, Vpn0(page)));
    }

    /** The step of `vm_create_mapping` that makes sure entry `i` of table `t` leads to a table.  A new
        table is used as the frame was found. */
    method EnsureTable(t: nat, i: nat, ghost slot: Slot) returns (ok: bool, next: nat)
      requires MemValid() && t in tables && SlotOk(lay, t, i, slot)
      modifies this`ram, this`tables, this`lay, mm`used, mm.bitmap, mm.refCnt
      ensures mm.Valid()
      ensures ok ==> RamOk(ram, tables, data, Counts())
      ensures ok ==> Ensured(tasks, data, swapper, old(tables), old(lay), old(Counts()), tables, lay, Counts(),
                             t, i, slot, next)
    {
      hide MemOk, Ensured, SlotOk, Flat, RamOk, Buddy.Allocator.Valid;
      SlotIndex(lay, t, i, slot);
      TableInRam(ram, tables, data, Counts(), t);
      if ram[t].table[i].flags.v {
        next := ram[t].table[i].ppn;
        AlreadyThere(tasks, tables, data, Counts(), lay, swapper, t, i, slot);
        return true, next;
      }
      ghost var counts := Counts();
      TableIsCounted(tasks, tables, data, counts, lay, swapper, t);
      var r := AllocPage();
      if r.None? { return false, 0; }
      next := r.value;
      FreshFrame(tasks, tables, data, counts, lay, swapper, next);
      HangStep(tasks, tables, data, counts, lay, swapper, t, i, next, slot);
      HangRam(ram, tables, data, counts, t, i, next);
      ram := ram[next := Entries(TableIn(ram[next]))];
      ram := ram[t := Entries(ram[t].table[i := Pointer(next)])];
      tables := Hang(tables, t, i, next);
      lay := lay.(owner := lay.owner[next := slot]);
      ok := true;
    }

    /** One turn of `vm_create_mapping`. */
    method MapPage(root: nat, page: nat, frame: nat, perm: Flags) returns (ok: bool)
      requires MemValid() && root in lay.roots && page < USER_PAGES
      modifies this`ram, this`tables, this`lay, mm`used, mm.bitmap, mm.refCnt
      ensures mm.Valid()
      ensures ok ==> Grown(tasks, data, swapper, old(lay), old(Counts()), tables, lay, Counts())
      ensures ok ==> RamOk(ram, tables, data, Counts())
      ensures ok ==> RangeMapped(old(tables), tables, lay.roots, root, page, 1, frame, perm)
    {
      hide MemOk, Ensured, SlotOk, Flat, RangeMapped, Grown, RamOk, Buddy.Allocator.Valid;
      ghost var tables0, lay0, counts0 := tables, lay, Counts();
      RootSlot(tasks, tables, data, Counts(), lay, swapper, root, page);
      var mid, low;
      ok, mid := EnsureTable(root, Vpn2(page), Mid(root, Vpn2(page)));
      if !ok { return; }
      ghost var tables1, lay1, counts1 := tables, lay, Counts();
      MidSlot(tasks, data, swapper, tables0, lay0, counts0, tables1, lay1, counts1, root, page, mid);
      ok, low := EnsureTable(mid, Vpn1(page), Low(mid, Vpn1(page)));
      if !ok { return; }
      MapStep(tasks, data, swapper, tables0, lay0, counts0, tables1, lay1, counts1, tables, lay, Counts(),
              root, page, mid, low, frame, perm);
      TableInRam(ram, tables, data, Counts(), low);
      RamEntry(ram, tables, data, Counts(), low, tables[low][Vpn0(page) := Pte(frame, Leaf(perm))]);
      ram := ram[low := Entries(ram[low].table[Vpn0(page) := Pte(frame, Leaf(perm))])];
      tables := SetLeaf(tables, low, Vpn0(page), Pte(frame, Leaf(perm)));
    }

    /** `vm_create_mapping`: `sz` bytes from `va` on, to consecutive frames. */
    method VmCreateMapping(root: nat, va: nat, frame: nat, sz: nat, perm: Flags) returns (ok: bool)
      requires MemValid() && root in lay.roots && va / 4096 + PagesIn(sz) <= USER_PAGES
      modifies this`ram, this`tables, this`lay, mm`used, mm.bitmap, mm.refCnt
      ensures mm.Valid()
      ensures ok ==> Grown(tasks, data, swapper, old(lay), old(Counts()), tables, lay, Counts())
      ensures ok ==> RamOk(ram, tables, data, Counts())
      ensures ok ==> RangeMapped(old(tables), tables, lay.roots, root, va / 4096, PagesIn(sz), frame, perm)
    {
      hide MemOk, Flat, RangeMapped, Grown, RamOk, Buddy.Allocator.Valid;
      NothingMapped(tasks, tables, data, Counts(), lay, swapper, root, va / 4096, frame, perm);
      var VA, pa := va, frame;
      ghost var k: nat := 0;
      while VA < va + sz
        invariant VA == va + 4096 * k && pa == frame + k && k <= PagesIn(sz)
        invariant lay.roots == old(lay.roots)
        invariant mm.Valid() && Grown(tasks, data, swapper, old(lay), old(Counts()), tables, lay, Counts())
        invariant RamOk(ram, tables, data, Counts())
        invariant RangeMapped(old(tables), tables, lay.roots, root, va / 4096, k, frame, perm)
      {
        ghost var tables1, lay1, counts1 := tables, lay, Counts();
        StillGrown(tasks, data, swapper, old(lay), old(Counts()), tables, lay, Counts());
        ok := MapPage(root, VA / 4096, pa, perm);
        if !ok { return; }
        StillGrown(tasks, data, swapper, lay1, counts1, tables, lay, Counts());
        GrownTwice(tasks, data, swapper, old(lay), old(Counts()), tables1, lay1, counts1, tables, lay, Counts());
        OneMore(old(tables), tables1, tables, lay.roots, root, va / 4096, k, frame, perm);
        VA, pa, k := VA + 4096, pa + 1, k + 1;
      }
      ok := true;
    }

    /** `ref_page` */
    method RefPage(f: nat) returns (counted: bool)
      requires mm.Valid() && f < |Counts()|
      modifies mm.refCnt
      ensures mm.Valid() && counted == (old(Counts())[f] > 0)
      ensures Counts() == if counted then old(Counts())[f := old(Counts())[f] + 1] else old(Counts())
    {
      counted := mm.RefPage(f);
    }

    /** `deref_page` */
    method DerefPage(f: nat) returns (counted: bool)
      requires mm.Valid() && f < |Counts()|
      modifies mm`used, mm.bitmap, mm.refCnt
      ensures mm.Valid() && counted == (old(Counts())[f] > 0)
      ensures Counts() == if counted then old(Counts())[f := old(Counts())[f] - 1] else old(Counts())
    {
      ghost var s := mm.Abstract();
      counted := mm.DerefPage(f);
      assert BuddySpec.DropsRef(s, f, mm.Abstract());
    }

    /** The loop of `find_vma`. */
    method FindArea(vmas: seq<Vma>, va: nat) returns (k: nat)
      ensures k <= |vmas| && FindVma(vmas, va) == if k < |vmas| then Some(vmas[k]) else None
    {
      k := 0;
      while k < |vmas| && (vmas[k].start > va || vmas[k].end < va)
        invariant 0 <= k <= |vmas| && FindVma(vmas, va) == FindVma(vmas[k..], va)
      {
        k := k + 1;
      }
    }

    /** The branch of `do_page_fault` for a page with PTE_S. */
    method BreakShare(i: nat, page: nat, vma: Vma, pte: Pte) returns (ok: bool, ghost f: nat)
      requires Valid() && i < |tasks| && page < USER_PAGES && Lookup(tables, tasks[i].root, page) == Some(pte)
      modifies this`ram, this`tables, this`data, this`lay, mm`used, mm.bitmap, mm.refCnt
      ensures mm.Valid()
      ensures ok ==> MemValid() && f !in old(data) && Broke(old(Abs()), i, page, f, vma, Abs())
    {
      hide Inv, MemOk, Flat, Lookup, Broke, RangeMapped, Grown, RamOk, StillUsed, Buddy.Allocator.Valid;
      ghost var counts := Counts();
      EntryFacts(tasks, tables, data, counts, lay, swapper, i, page);
      ghost var tables0, lay0 := tables, lay;
      var counted := DerefPage(pte.ppn);
      if !counted {
        f := |counts|;
        ok := Unshare(i, page, pte);
        MappedFrameIsCounted(tasks, tables0, data, counts, lay0, swapper, pte.ppn);
      } else {
        StillCounted(tasks, tables, data, counts, lay, swapper, i, page);
        OneFewer(counts, pte.ppn);
        RamKept(ram, tables, data, counts, Counts());
        ok, f := TakeCopy(i, page, vma, pte, counts);
      }
    }

    /** The branch for `deref_page` returning -1: the page becomes writable where it is. */
    method Unshare(i: nat, page: nat, pte: Pte) returns (ok: bool)
      requires MemValid() && i < |tasks| && page < USER_PAGES && tasks[i].root in lay.roots
      modifies this`ram, this`tables, this`lay, mm`used, mm.bitmap, mm.refCnt
      ensures mm.Valid()
      ensures ok ==> MemValid()
      ensures ok ==> Lookup(tables, tasks[i].root, page) == Some(Pte(pte.ppn, Leaf(pte.flags.(s := false, w := true))))
    {
      hide MemOk, Lookup, RamOk, Buddy.Allocator.Valid;
      ok := VmCreateMapping(tasks[i].root, page * 4096, pte.ppn, 4096, pte.flags.(s := false, w := true));
      if ok {
        OneRange(old(tables), tables, lay, tasks[i].root, page, pte.ppn, pte.flags.(s := false, w := true));
      }
    }

    /** `alloc_page` and `memcpy` from a user frame. */
    method CopyFrame(src: nat) returns (r: Option<nat>)
      requires MemValid() && src in data
      modifies this`ram, this`data, mm`used, mm.bitmap, mm.refCnt
      ensures mm.Valid()
      ensures r.Some? ==> MemValid() && r.value !in old(data)
      ensures r.Some? ==> r.value < |old(Counts())| && old(Counts())[r.value] == 0
      ensures r.Some? ==> data == old(data)[r.value := old(data)[src]] && Counts() == old(Counts())[r.value := 1]
    {
      hide MemOk, RamOk, StillUsed, Buddy.Allocator.Valid;
      ghost var counts := Counts();
      r := AllocPage();
      if r.None? { return; }
      FreshFrame(tasks, tables, data, counts, lay, swapper, r.value);
      NewData(tasks, tables, data, counts, lay, swapper, r.value, data[src]);
      PageInRam(ram, tables, data, counts, src);
      OneTaken(counts, r.value);
      RamKept(ram, tables, data, counts, Counts());
      RamPage(ram, tables, data, Counts(), r.value, data[src]);
      data := data[r.value := data[src]];
      ram := ram[r.value := Bytes(ram[src].page)];
    }

    /** The branch that copies the page, with one reference to the shared frame already dropped. */
    method TakeCopy(i: nat, page: nat, vma: Vma, pte: Pte, ghost counts: seq<nat>) returns (ok: bool, ghost f: nat)
      requires mm.Valid() && i < |tasks| && page < USER_PAGES && Lookup(tables, tasks[i].root, page) == Some(pte)
      requires MemOk(tasks, tables, data, counts, lay, swapper)
      requires tasks[i].root in lay.roots && pte.ppn in data && pte.ppn < |counts| && counts[pte.ppn] >= 2
      requires Counts() == counts[pte.ppn := counts[pte.ppn] - 1] && MemValid()
      modifies this`ram, this`tables, this`data, this`lay, mm`used, mm.bitmap, mm.refCnt
      ensures mm.Valid()
      ensures ok ==> MemValid() && f !in old(data)
      ensures ok ==> Broke(Flat(tasks, old(tables), old(data), counts), i, page, f, vma, Abs())
    {
      hide Inv, MemOk, Flat, Lookup, Broke, RangeMapped, Grown, RamOk, StillUsed, Buddy.Allocator.Valid;
      ghost var tables0, data0, lay0 := tables, data, lay;
      var r := CopyFrame(pte.ppn);
      if r.None? { return false, 0; }
      f := r.value;
      ghost var counts2 := Counts();
      ok := VmCreateMapping(tasks[i].root, page * 4096, r.value, 4096, PermsOf(vma));
      if !ok { return; }
      ghost var counts3 := Counts();
      FreshCount(tasks, data, swapper, lay0, counts2, tables, lay, counts3, f);
      var counted := RefPage(r.value);
      OneMoreRef(counts3, f);
      RamKept(ram, tables, data, counts3, Counts());
      Copied(tasks, data0, swapper, tables0, lay0, counts, counts2, tables, lay, counts3, i, page, pte, vma, f);
    }

    /** `alloc_page` for a page of the process: the frame is zero, though nobody clears it. */
    method NewUserFrame() returns (r: Option<nat>)
      requires MemValid()
      modifies this`data, mm`used, mm.bitmap, mm.refCnt
      ensures mm.Valid()
      ensures r.Some? ==> MemValid() && r.value !in old(data) && data == old(data)[r.value := ZeroPage()]
      ensures r.Some? ==> r.value < |old(Counts())| && old(Counts())[r.value] == 0
      ensures r.Some? ==> Counts() == old(Counts())[r.value := 1]
    {
      hide MemOk, RamOk, ZeroPage, Buddy.Allocator.Valid;
      ghost var counts := Counts();
      r := AllocPage();
      if r.None? { return; }
      FreshUserFrame(tasks, ram, tables, data, counts, lay, swapper, r.value);
      data := data[r.value := ram[r.value].page];
    }

    /** The branch of `do_page_fault` for a page that is not mapped. */
    method LoadPage(i: nat, page: nat, vma: Vma) returns (ok: bool, ghost f: nat)
      requires MemValid() && i < |tasks| && page < USER_PAGES && tasks[i].root in lay.roots
      modifies this`ram, this`tables, this`data, this`lay, mm`used, mm.bitmap, mm.refCnt
      ensures mm.Valid()
      ensures ok ==> MemValid() && f !in old(data) && Loads(image, old(Abs()), i, page, f, vma, Abs())
    {
      hide MemOk, Flat, Lookup, Loads, RangeMapped, Grown, Loaded, PermsOf, ZeroPage, RamOk, StillUsed,
        Buddy.Allocator.Valid;
      ghost var tables0, data0, lay0, counts0 := tables, data, lay, Counts();
      var r := NewUserFrame();
      if r.None? { return false, 0; }
      f := r.value;
      ghost var counts1 := Counts();
      ok := VmCreateMapping(tasks[i].root, page * 4096, r.value, 4096, PermsOf(vma));
      if !ok { return; }
      ghost var counts2 := Counts();
      PageInRam(ram, tables, data, counts2, f);
      var contents := Load(vma, page, ram[r.value].page);
      LoadedRam(tasks, ram, tables, data, counts2, lay, swapper, lay0, counts1, f, contents);
      ram := ram[r.value := Bytes(contents)];
      data := data[f := contents];
      assert data == data0[f := contents];
      FreshCount(tasks, data0[f := ZeroPage()], swapper, lay0, counts1, tables, lay, counts2, f);
      var counted := RefPage(r.value);
      OneMoreRef(counts2, f);
      RamKept(ram, tables, data, counts2, Counts());
      PageLoaded(image, tasks, data0, swapper, tables0, lay0, counts0, tables, lay, counts2, i, page, vma, f);
    }

    /** The copying that `do_page_fault` does into a new page. */
    method Load(vma: Vma, page: nat, frame: Page) returns (r: Page)
      ensures r == Loaded(image, vma, page, frame)
    {
      r := frame;
      if !vma.flags.anon {
        r := ImagePage(image, vma.pgoff + page * 4096 - vma.start);
        if Wrap(page * 4096 - vma.start) >= vma.filesz {
          r := ZeroPage();
        }
      }
    }

    /** `do_page_fault` for a user address, on behalf of process `i`. */
    method DoPageFault(i: nat, cause: Cause, va: nat) returns (ok: bool, ghost f: nat)
      requires Valid() && i < |tasks| && va < 0x40_0000_0000
      modifies this`ram, this`tables, this`data, this`lay, mm`used, mm.bitmap, mm.refCnt
      ensures mm.Valid()
      ensures ok ==> Valid() && CowTheorems.Next(image, old(Abs()), FaultAt(i, va, cause, f), Abs())
    {
      hide Inv, MemOk, Flat, Lookup, Broke, Loads, CowTheorems.Next, FindVma, RamOk, Buddy.Allocator.Valid;
      ghost var s := Abs();
      ok, f := true, |Counts()|;
      FaultFacts(image, tasks, tables, data, Counts(), lay, swapper, i, va);
      var k := FindArea(tasks[i].vmas, va);
      if k == |tasks[i].vmas| {
        NothingToDo(image, s, i, va, cause, f);
        return;
      }
      var vma := tasks[i].vmas[k];
      if (cause.Fetch? && !vma.flags.exec) || (cause.Load? && !vma.flags.read) || (cause.Store? && !vma.flags.write) {
        NothingToDo(image, s, i, va, cause, f);
        return;
      }
      var at := WalkPageTable(tasks[i].root, va / 4096);
      if at.Some? {
        var pte := EntryAt(at.value, i, va / 4096);
        if pte.flags.s {
          ok, f := BreakShare(i, va / 4096, vma, pte);
          if ok { BrokeIsFault(image, s, i, va, cause, f, vma, Abs()); }
        } else {
          NothingToDo(image, s, i, va, cause, f);
        }
      } else {
        ok, f := LoadPage(i, va / 4096, vma);
        if ok { LoadIsFault(image, s, i, va, cause, f, vma, Abs()); }
      }
    }

    method EntryAt(at: (nat, nat), ghost i: nat, ghost page: nat) returns (pte: Pte)
      requires i < |tasks| && Walk(tables, tasks[i].root, page) == Some(at) && RamOk(ram, tables, data, Counts())
      ensures Lookup(tables, tasks[i].root, page) == Some(pte)
    {
      hide RamOk;
      TableInRam(ram, tables, data, Counts(), at.0);
      pte := ram[at.0].table[at.1];
    }

    /** `*pte_addr = 0` */
    method ClearEntry(ghost i: nat, ghost page: nat, at: (nat, nat))
      requires MemValid() && i < |tasks| && page < USER_PAGES && tasks[i].root in lay.roots
      requires Walk(tables, tasks[i].root, page) == Some(at)
      modifies this`ram, this`tables
      ensures MemValid() && Lookup(tables, tasks[i].root, page) == None
      ensures SameElsewhere(old(tables), tables, lay, tasks[i].root, page)
    {
      hide MemOk, Lookup, Walk, SameElsewhere, RamOk, Buddy.Allocator.Valid;
      EntryCleared(tasks, tables, data, Counts(), lay, swapper, tasks[i].root, page, at);
      TableIsCounted(tasks, tables, data, Counts(), lay, swapper, at.0);
      TableInRam(ram, tables, data, Counts(), at.0);
      RamEntry(ram, tables, data, Counts(), at.0, tables[at.0][at.1 := NoPte()]);
      ram := ram[at.0 := Entries(ram[at.0].table[at.1 := NoPte()])];
      tables := SetLeaf(tables, at.0, at.1, NoPte());
    }

    /** The branch of `unmap_page` for a shared page: the process gets a copy, which is not counted
        a second time, and the entry of the copy is cleared. */
    method UnmapShared(i: nat, va: nat, pte: Pte, ghost counts: seq<nat>) returns (ok: bool, ghost f: nat)
      requires MemValid() && Counts() == counts
      requires i < |tasks| && va / 4096 < USER_PAGES && tasks[i].root in lay.roots && pte.ppn in data
      modifies this`ram, this`tables, this`data, this`lay, mm`used, mm.bitmap, mm.refCnt
      ensures mm.Valid()
      ensures ok ==> MemValid() && lay.roots == old(lay.roots) && f !in old(data) && f < |counts|
      ensures ok ==> data == old(data)[f := old(data)[pte.ppn]] && CountsKept(counts[f := 1], Counts())
      ensures ok ==> Lookup(tables, tasks[i].root, va / 4096) == None
      ensures ok ==> SameElsewhere(old(tables), tables, lay, tasks[i].root, va / 4096)
    {
      hide MemOk, RangeMapped, RamOk, Lookup, Walk, SameElsewhere, Buddy.Allocator.Valid;
      ghost var page, tables0 := va / 4096, tables;
      var r := CopyFrame(pte.ppn);
      if r.None? { return false, 0; }
      f := r.value;
      ok := VmCreateMapping(tasks[i].root, va, r.value, 4096, NoPte().flags);
      if !ok { return; }
      CopyIsMapped(tasks, tables0, tables, data, Counts(), lay, swapper, tasks[i].root, page, f);
      var at := WalkPageTable(tasks[i].root, va / 4096);
      ghost var tables1 := tables;
      ClearEntry(i, page, at.value);
      SameTwice(tables0, tables1, tables, lay, tasks[i].root, page, f, NoPte().flags);
    }

    /** One turn of `unmap_page`. */
    method UnmapOnePage(i: nat, va: nat) returns (ok: bool, ghost f: nat)
      requires Valid() && i < |tasks| && va / 4096 < USER_PAGES
      modifies this`ram, this`tables, this`data, this`lay, mm`used, mm.bitmap, mm.refCnt
      ensures mm.Valid()
      ensures ok ==> Valid() && CowTheorems.Next(image, old(Abs()), UnmapPage(i, va / 4096, f), Abs())
    {
      hide Inv, MemOk, Flat, Lookup, Walk, CowTheorems.Next, RangeMapped, SameElsewhere, CountsKept, RamOk, StillUsed,
        Buddy.Allocator.Valid;
      ghost var page, tables0, data0, counts0, lay0 := va / 4096, tables, data, Counts(), lay;
      ok, f := true, |Counts()|;
      FaultFacts(image, tasks, tables, data, Counts(), lay, swapper, i, page * 4096);
      var at := WalkPageTable(tasks[i].root, va / 4096);
      if at.None? {
        NothingMappedThere(image, Abs(), i, page, f);
        return;
      }
      var pte := EntryAt(at.value, i, page);
      EntryFacts(tasks, tables, data, Counts(), lay, swapper, i, page);
      StillCounted(tasks, tables, data, Counts(), lay, swapper, i, page);
      var counted := DerefPage(pte.ppn);
      ghost var counts1 := Counts();
      OneFewer(counts0, pte.ppn);
      RamKept(ram, tables, data, counts0, counts1);
      if counted && pte.flags.s {
        ok, f := UnmapShared(i, va, pte, counts1);
        if !ok { return; }
        UnmapCopied(image, tasks, data0, swapper, tables0, lay0, counts0, tables, lay, Counts(), i, page, pte, f);
      } else {
        ClearEntry(i, page, at.value);
        UnmapPlain(image, tasks, data0, swapper, tables0, lay, counts0, tables, i, page, pte, f);
      }
    }

    /** `unmap_page`: every page that the loop visits goes through one unmapping step. */
    method UnmapPages(i: nat, start: nat, end: nat)
      returns (ok: bool, ghost states: seq<State>, ghost events: seq<Event>)
      requires Valid() && i < |tasks| && end <= 0x40_0000_0000
      modifies this`ram, this`tables, this`data, this`lay, mm`used, mm.bitmap, mm.refCnt
      ensures mm.Valid()
      ensures ok ==> Valid() && UnmapRun(image, states, events, i, PagesFrom(start, end))
      ensures ok ==> states[0] == old(Abs()) && states[|events|] == Abs()
    {
      hide Inv, MemOk, Flat, CowTheorems.Next, RamOk, PagesFrom, UnmapRun, Visited, Buddy.Allocator.Valid;
      states, events := [Abs()], [];
      NoneVisited(start, end);
      ghost var pages: seq<nat> := [];
      EmptyRun(image, Abs(), i);
      var va := start;
      while va < end
        invariant Valid() && Visited(pages, start, va, end)
        invariant UnmapLeads(image, old(Abs()), states, events, i, pages, Abs())
        decreases end - va
      {
        OneMoreVisited(pages, start, va, end);
        ghost var f, s := 0, Abs();
        ok, f := UnmapOnePage(i, va);
        if !ok { return; }
        LongerRun(image, old(Abs()), states, events, i, pages, s, va / 4096, f, Abs());
        states, events := states + [Abs()], events + [UnmapPage(i, va / 4096, f)];
        pages := pages + [va / 4096];
        va := va + 4096;
      }
      AllVisited(pages, start, va, end);
      ok := true;
    }

    /** `do_vma_mmap`: the caller sees to it that the area stays apart from the others.  The new end
        may lie below pages that are in use. */
    method DoVmaMmap(i: nat, k: nat, end: nat)
      requires Valid() && i < |tasks| && k < |tasks[i].vmas| && end <= 0x40_0000_0000
      requires CanMoveEnd(Abs(), i, k, end)
      modifies this`tasks
      ensures Valid() && CowTheorems.Next(image, old(Abs()), MoveEnd(i, k, end), Abs())
      ensures tasks == old(tasks)[i := MovedEnd(old(tasks)[i], k, end)]
    {
      hide Inv, MemOk, Flat, CanMoveEnd, CowTheorems.Next, RamOk, Buddy.Allocator.Valid;
      EndMoved(image, tasks, tables, data, Counts(), lay, swapper, i, k, end);
      tasks := tasks[i := MovedEnd(tasks[i], k, end)];
    }

    /** `do_vma_munmap`: the area's end is set to the end of the range, not to its start. */
    method DoVmaMunmap(i: nat, k: nat, start: nat, end: nat)
      returns (ok: bool, ghost states: seq<State>, ghost events: seq<Event>)
      requires Valid() && i < |tasks| && k < |tasks[i].vmas| && end <= 0x40_0000_0000
      requires CanMoveEnd(Abs(), i, k, end)
      modifies this`ram, this`tables, this`data, this`lay, this`tasks, mm`used, mm.bitmap, mm.refCnt
      ensures mm.Valid()
      ensures ok ==> Valid() && |states| > 0 && CowTheorems.Next(image, old(Abs()), MoveEnd(i, k, end), states[0])
      ensures ok ==> UnmapRun(image, states, events, i, PagesFrom(start, end)) && states[|events|] == Abs()
      ensures tasks == old(tasks)[i := MovedEnd(old(tasks)[i], k, end)]
    {
      hide Inv, MemOk, Flat, CanMoveEnd, CowTheorems.Next, RamOk, Buddy.Allocator.Valid;
      DoVmaMmap(i, k, end);
      ok, states, events := UnmapPages(i, start, end);
    }

    /** `sys_brk` for process `i`.  That a growing heap stays clear of the other areas is up to the
        caller: the code does not look. */
    method SysBrk(i: nat, brk: word)
      returns (ok: bool, r: nat, ghost k: nat, ghost states: seq<State>, ghost events: seq<Event>)
      requires Valid() && HeapsOk(tasks) && i < |tasks| && GrowthFits(tasks[i], RoundUp(brk))
      modifies this`ram, this`tables, this`data, this`lay, this`tasks, mm`used, mm.bitmap, mm.refCnt
      ensures mm.Valid()
      ensures ok ==> Valid() && HeapsOk(tasks) && |tasks| == |old(tasks)| && HeapAt(old(tasks)[i], k)
      ensures ok ==> BrkDone(image, old(tasks)[i], i, k, brk, old(Abs()), states, events, Abs())
      ensures ok ==> BrkResult(old(tasks)[i], tasks[i], brk, r) && tasks == old(tasks)[i := tasks[i]]
    {
      hide Inv, MemOk, Flat, CowTheorems.Next, RamOk, HeapAt, GrowthFits, Buddy.Allocator.Valid, RoundUp, VmasOk,
        FindVma;
      var task := tasks[i];
      ghost var s := Abs();
      k := HeapFacts(tasks, tables, data, Counts(), lay, swapper, i);
      states, events, ok, r := [s], [], true, brk;
      var oldBrk, newBrk := RoundUp(task.brk), RoundUp(brk);
      if brk == 0 { return true, oldBrk, k, states, events; }
      if newBrk < task.startBrk { return true, task.brk, k, states, events; }
      if newBrk == oldBrk { return true, brk, k, states, events; }
      var area := FindArea(task.vmas, oldBrk);
      if newBrk < oldBrk {
        ShrinkFits(tasks, tables, data, Counts(), lay, swapper, i, k);
        ok, states, events := DoVmaMunmap(i, area, newBrk, oldBrk);
        if !ok { return; }
      } else {
        GrowFits(tasks, tables, data, Counts(), lay, swapper, i, k, newBrk);
        DoVmaMmap(i, area, newBrk);
      }
      BrkRecorded(tasks, tables, data, Counts(), lay, swapper, i, brk);
      HeapMoved(old(tasks), i, k, if newBrk < oldBrk then oldBrk else newBrk, brk);
      tasks := tasks[i := tasks[i].(brk := brk)];
      assert tasks == old(tasks)[i := MovedEnd(task, k, if newBrk < oldBrk then oldBrk else newBrk).(brk := brk)];
    }

    /** A store by process `i`: the hardware writes if the entry permits it, and faults otherwise. */
    method Store(i: nat, va: nat, b: byte) returns (done: bool)
      requires Valid() && i < |tasks| && va < 0x40_0000_0000
      modifies this`ram, this`data
      ensures Valid() && done == CanStore(old(Abs()), i, va)
      ensures done ==> CowTheorems.Next(image, old(Abs()), StoreAt(i, va, b), Abs())
      ensures !done ==> Abs() == old(Abs())
    {
      hide Inv, MemOk, Flat, Lookup, Walk, CowTheorems.Next, RamOk, Buddy.Allocator.Valid;
      FaultFacts(image, tasks, tables, data, Counts(), lay, swapper, i, va);
      var at := WalkPageTable(tasks[i].root, va / 4096);
      if at.None? { return false; }
      var pte := EntryAt(at.value, i, va / 4096);
      if !(pte.flags.v && pte.flags.w && pte.flags.u) { return false; }
      EntryFacts(tasks, tables, data, Counts(), lay, swapper, i, va / 4096);
      Stored(image, tasks, tables, data, Counts(), lay, swapper, i, va, b, pte);
      DataIsCounted(tasks, tables, data, Counts(), lay, swapper, pte.ppn);
      PageInRam(ram, tables, data, Counts(), pte.ppn);
      RamPage(ram, tables, data, Counts(), pte.ppn, data[pte.ppn][va % 4096 := b]);
      ram := ram[pte.ppn := Bytes(ram[pte.ppn].page[va % 4096 := b])];
      data := data[pte.ppn := data[pte.ppn][va % 4096 := b]];
      return true;
    }

    /** A load: what the process sees is what its flat view says. */
    method LoadByte(i: nat, va: nat) returns (r: Option<byte>)
      requires Valid() && i < |tasks| && va < 0x40_0000_0000
      ensures Mapped(Abs()) && i < |Abs().procs|
      ensures r.Some? ==> va / 4096 in View(Abs(), i).pages && r.value == View(Abs(), i).pages[va / 4096][va % 4096]
      ensures r.None? <==> !(va / 4096 in Abs().procs[i].pt
                             && var g := Abs().procs[i].pt[va / 4096].flags; g.v && g.r && g.u)
    {
      hide CountsOk, PrivateOk, ProcOk, MemOk, Flat, Lookup, Walk, RamOk, Buddy.Allocator.Valid;
      FaultFacts(image, tasks, tables, data, Counts(), lay, swapper, i, va);
      FlatFacts(tasks, tables, data, Counts(), i, va / 4096);
      var at := WalkPageTable(tasks[i].root, va / 4096);
      if at.None? { return None; }
      var pte := EntryAt(at.value, i, va / 4096);
      if !(pte.flags.v && pte.flags.r && pte.flags.u) { return None; }
      EntryFacts(tasks, tables, data, Counts(), lay, swapper, i, va / 4096);
      PageInRam(ram, tables, data, Counts(), pte.ppn);
      return Some(ram[pte.ppn].page[va % 4096]);
    }

    /** A load that is retried after its fault: in an area with VM_READ it succeeds. */
    method LoadAfterFault(i: nat, va: nat) returns (ok: bool, r: Option<byte>)
      requires Valid() && i < |tasks| && va < 0x40_0000_0000
      requires FindVma(tasks[i].vmas, va).Some? && FindVma(tasks[i].vmas, va).value.flags.read
      modifies this`ram, this`tables, this`data, this`lay, mm`used, mm.bitmap, mm.refCnt
      ensures mm.Valid() && (ok ==> Valid() && r.Some?)
    {
      hide Inv, MemOk, RamOk, FindVma, Flat, View, Buddy.Allocator.Valid, CowTheorems.Next, Step;
      ghost var s := Abs();
      FlatProcs(tasks, tables, data, Counts());
      ghost var f;
      ok, f := DoPageFault(i, Cause.Load, va);
      if !ok { return false, None; }
      LoadGranted(image, s, i, va, f, Abs());
      r := LoadByte(i, va);
    }

    /** Likewise a store in an area with VM_WRITE. */
    method StoreAfterFault(i: nat, va: nat, b: byte) returns (ok: bool)
      requires Valid() && i < |tasks| && va < 0x40_0000_0000
      requires FindVma(tasks[i].vmas, va).Some? && FindVma(tasks[i].vmas, va).value.flags.write
      modifies this`ram, this`tables, this`data, this`lay, mm`used, mm.bitmap, mm.refCnt
      ensures mm.Valid() && (ok ==> Valid())
      ensures ok ==> Mapped(Abs()) && i < |Abs().procs| && CowTheorems.ByteSeen(View(Abs(), i), va) == Some(b)
    {
      hide Inv, MemOk, RamOk, FindVma, Flat, View, Buddy.Allocator.Valid, CowTheorems.Next, Step, CanStore;
      ghost var s := Abs();
      FlatProcs(tasks, tables, data, Counts());
      ghost var f;
      ok, f := DoPageFault(i, Cause.Store, va);
      if !ok { return false; }
      ghost var t := Abs();
      StoreGranted(image, s, i, va, f, t);
      var done := Store(i, va, b);
      StoreSeen(image, t, i, va, b, Abs());
    }

    /** A page for the kernel's own records, which the kernel fills. */
    method AllocRecord(record: Page) returns (ok: bool)
      requires Valid()
      modifies this`ram, mm`used, mm.bitmap, mm.refCnt
      ensures mm.Valid()
      ensures ok ==> Valid() && Abs() == old(Abs())
    {
      hide Inv, MemOk, Flat, RamOk, StillUsed, Buddy.Allocator.Valid;
      ghost var counts := Counts();
      var r := AllocPage();
      if r.None? { return false; }
      FreshFrame(tasks, tables, data, counts, lay, swapper, r.value);
      RecordTaken(tasks, tables, data, counts, lay, swapper, r.value);
      OneTaken(counts, r.value);
      RamKept(ram, tables, data, counts, Counts());
      RamRecord(ram, tables, data, Counts(), r.value, record);
      ram := ram[r.value := Bytes(record)];
      ok := true;
    }

    /** The pages of a task, its signal handlers, its signals and its memory descriptor. */
    method AllocTask(records: nat -> Page) returns (ok: bool)
      requires Valid()
      modifies this`ram, mm`used, mm.bitmap, mm.refCnt
      ensures mm.Valid()
      ensures ok ==> Valid() && Abs() == old(Abs())
    {
      hide Inv, MemOk, Flat, RamOk, Buddy.Allocator.Valid;
      ok := AllocRecord(records(0));
      if ok { ok := AllocRecord(records(1)); }
      if ok { ok := AllocRecord(records(2)); }
      if ok { ok := AllocRecord(records(3)); }
    }

    /** The loop of `do_fork` that copies the area list, one page each, front insertion. */
    method CopyAreas(parent: nat, records: nat -> Page) returns (ok: bool, vmas: seq<Vma>)
      requires Valid() && parent < |tasks|
      modifies this`ram, mm`used, mm.bitmap, mm.refCnt
      ensures mm.Valid()
      ensures ok ==> Valid() && Abs() == old(Abs()) && vmas == Reverse(tasks[parent].vmas)
    {
      hide Inv, MemOk, Flat, RamOk, Buddy.Allocator.Valid;
      var all, k: nat := tasks[parent].vmas, 0;
      vmas := [];
      while k < |all|
        invariant k <= |all| && Valid() && Abs() == old(Abs())
        invariant Reverse(all) == Reverse(all[k..]) + vmas
      {
        ok := AllocRecord(records(k));
        if !ok { return; }
        vmas := [all[k]] + vmas;
        k := k + 1;
      }
      ok := true;
    }

    /** The child's root table, a copy of the kernel's, and its entry in the task list. */
    method SpawnChild(parent: nat, vmas: seq<Vma>) returns (ok: bool)
      requires Valid() && parent < |tasks| && vmas == Reverse(tasks[parent].vmas)
      modifies this`ram, this`tables, this`tasks, this`lay, mm`used, mm.bitmap, mm.refCnt
      ensures mm.Valid()
      ensures ok ==> MemValid() && Abs() == Spawn(old(Abs()), parent)
      ensures ok ==> |tasks| == |old(tasks)| + 1 && tasks[..|old(tasks)|] == old(tasks)
      ensures ok ==> var p, c := tasks[parent], tasks[|old(tasks)|];
                     c.vmas == vmas && c.startBrk == p.startBrk && c.brk == p.brk
    {
      hide MemOk, Inv, Flat, Spawn, RamOk, StillUsed, Buddy.Allocator.Valid;
      ghost var counts := Counts();
      var r := AllocPage();
      if r.None? { return false; }
      var child := Task(r.value, vmas, tasks[parent].startBrk, tasks[parent].brk);
      FreshFrame(tasks, tables, data, counts, lay, swapper, r.value);
      Spawned(tasks, tables, data, counts, lay, swapper, parent, child);
      OneTaken(counts, r.value);
      RamKept(ram, tables, data, counts, Counts());
      RamTable(ram, tables, data, Counts(), r.value, swapper);
      ram := ram[r.value := Entries(swapper)];
      tables := tables[r.value := swapper];
      lay := lay.(roots := lay.roots + {r.value});
      tasks := tasks + [child];
      ok := true;
    }

    /** In the parent, a writable page becomes read-only and shared. */
    method SharePage(parent: nat, va: nat, pte: Pte) returns (ok: bool, perm: Flags)
      requires MemValid() && parent < |tasks| && va / 4096 < USER_PAGES && tasks[parent].root in lay.roots
      requires Lookup(tables, tasks[parent].root, va / 4096) == Some(pte) && pte.flags.v && pte.flags.a && pte.flags.d
      modifies this`ram, this`tables, this`lay, mm`used, mm.bitmap, mm.refCnt
      ensures mm.Valid() && perm == SharedFlags(pte.flags)
      ensures ok ==> MemValid() && lay.roots == old(lay.roots) && CountsKept(old(Counts()), Counts())
      ensures ok ==> SameElsewhere(old(tables), tables, lay, tasks[parent].root, va / 4096)
      ensures ok ==> Lookup(tables, tasks[parent].root, va / 4096) == Some(Pte(pte.ppn, perm))
    {
      hide MemOk, Lookup, RamOk, Buddy.Allocator.Valid;
      perm := pte.flags;
      ok := true;
      if pte.flags.w {
        perm := pte.flags.(w := false, s := true);
        ok := VmCreateMapping(tasks[parent].root, va, pte.ppn, 4096, perm);
        if ok { OneRange(old(tables), tables, lay, tasks[parent].root, va / 4096, pte.ppn, perm); }
      }
    }

    /** One turn of `do_fork`'s copy loop. */
    method ForkPage(parent: nat, child: nat, va: nat) returns (ok: bool)
      requires MemValid() && parent < |tasks| && child < |tasks| && va / 4096 < USER_PAGES && Ready(Abs(), parent)
      modifies this`ram, this`tables, this`lay, mm`used, mm.bitmap, mm.refCnt
      ensures mm.Valid()
      ensures ok ==> MemValid() && Ready(Abs(), parent) && Forked(old(Abs()), parent, child, va / 4096, Abs())
    {
      hide MemOk, Flat, Lookup, Walk, Ready, Forked, SameElsewhere, CountsKept, SharedFlags, RamOk, StillUsed,
        Buddy.Allocator.Valid;
      ghost var page, tables0, counts0, lay0 := va / 4096, tables, Counts(), lay;
      ForkFacts(tasks, tables, data, Counts(), lay, swapper, parent, child, page);
      var at := WalkPageTable(tasks[parent].root, va / 4096);
      if at.None? {
        NothingToFork(Abs(), parent, child, page);
        return true;
      }
      var pte := EntryAt(at.value, parent, page);
      var counted := RefPage(pte.ppn);
      MemValidRef(tasks, tables, data, counts0, lay, swapper, pte.ppn);
      ghost var counts1 := Counts();
      OneMoreRef(counts0, pte.ppn);
      RamKept(ram, tables, data, counts0, counts1);
      var perm;
      ok, perm := SharePage(parent, va, pte);
      if !ok { return; }
      ghost var tables1, counts2, lay1 := tables, Counts(), lay;
      ok := VmCreateMapping(tasks[child].root, va, pte.ppn, 4096, perm);
      if !ok { return; }
      KeptTwice(counts1, counts2, Counts());
      SameRoots(tables0, tables1, lay1, lay, tasks[parent].root, page);
      ForkedPage(tasks, data, swapper, tables0, lay0, counts0, tables1, tables, lay, Counts(), parent, child, page,
        pte);
    }

    /** The copy loop of `do_fork` for one area: from its start to before its end. */
    method CopyArea(parent: nat, child: nat, vma: Vma, ghost s: State, ghost done: seq<nat>) returns (ok: bool)
      requires MemValid() && parent < |tasks| && child < |tasks| && Ready(Abs(), parent) && vma.end <= 0x40_0000_0000
      requires parent < |s.procs| && child < |s.procs| && MapsFrames(s, parent)
               && Abs() == ForkPages(s, parent, child, done)
      modifies this`ram, this`tables, this`lay, mm`used, mm.bitmap, mm.refCnt
      ensures mm.Valid()
      ensures ok ==> MemValid() && Ready(Abs(), parent)
      ensures ok ==> Abs() == ForkPages(s, parent, child, done + PagesFrom(vma.start, vma.end))
    {
      hide MemOk, Flat, Ready, MapsFrames, RamOk, Buddy.Allocator.Valid, ForkPages;
      var va := vma.start;
      ghost var visited: seq<nat> := done;
      while va < vma.end
        invariant MemValid() && Ready(Abs(), parent) && Abs() == ForkPages(s, parent, child, visited)
        invariant visited + PagesFrom(va, vma.end) == done + PagesFrom(vma.start, vma.end)
        decreases vma.end - va
      {
        ghost var before := Abs();
        ok := ForkPage(parent, child, va);
        if !ok { return; }
        OneMoreForked(s, parent, child, visited, va / 4096, before, Abs());
        visited := visited + [va / 4096];
        va := va + 4096;
      }
      assert visited == done + PagesFrom(vma.start, vma.end);
      ok := true;
    }

    /** The copy loop of `do_fork`: the areas in list order. */
    method CopyPages(parent: nat, child: nat) returns (ok: bool)
      requires MemValid() && parent < |tasks| && child < |tasks| && Ready(Abs(), parent)
      requires parent < |Abs().procs| && child < |Abs().procs| && MapsFrames(Abs(), parent)
      modifies this`ram, this`tables, this`lay, mm`used, mm.bitmap, mm.refCnt
      ensures mm.Valid()
      ensures ok ==> MemValid() && Abs() == ForkPages(old(Abs()), parent, child, ForkOrder(tasks[parent].vmas))
    {
      hide MemOk, Flat, Ready, MapsFrames, RamOk, Buddy.Allocator.Valid, ForkPages, PagesFrom;
      ghost var s := Abs();
      ghost var done: seq<nat> := [];
      NoPagesForked(s, parent, child);
      var vmas, k: nat := tasks[parent].vmas, 0;
      while k < |vmas|
        invariant k <= |vmas| && MemValid() && Ready(Abs(), parent)
        invariant ForkOrder(vmas) == done + ForkOrder(vmas[k..])
        invariant Abs() == ForkPages(s, parent, child, done)
      {
        AreaBound(tasks, tables, data, Counts(), lay, swapper, parent, k);
        ok := CopyArea(parent, child, vmas[k], s, done);
        if !ok { return; }
        done := done + PagesFrom(vmas[k].start, vmas[k].end);
        k := k + 1;
      }
      assert done == ForkOrder(vmas);
      ok := true;
    }

    /** `do_fork` on behalf of process `parent`.  What the kernel writes into its own records (registers,
        signal state, areas, open files) is `records`.  The task list has room for eight processes. */
    method DoFork(parent: nat, records: nat -> Page) returns (ok: bool)
      requires Valid() && parent < |tasks| < 8
      modifies this`ram, this`tables, this`tasks, this`lay, mm`used, mm.bitmap, mm.refCnt
      ensures mm.Valid()
      ensures ok ==> Valid() && CowTheorems.Next(image, old(Abs()), ForkOf(parent), Abs())
      ensures ok && HeapsOk(old(tasks)) ==> HeapsOk(tasks)
      ensures ok ==> |tasks| == |old(tasks)| + 1 && tasks[..|old(tasks)|] == old(tasks)
      ensures ok ==> var p, c := old(tasks)[parent], tasks[|old(tasks)|];
                     c.vmas == Reverse(p.vmas) && c.startBrk == p.startBrk && c.brk == p.brk
    {
      hide Inv, MemOk, Flat, Ready, Fork, Spawn, CowTheorems.Next, RamOk, HeapsOk, Buddy.Allocator.Valid, ForkPages;
      ghost var s := Abs();
      ok := AllocTask(records);
      if !ok { return; }
      var vmas;
      ok, vmas := CopyAreas(parent, k => records(4 + k));
      if !ok { return; }
      var child := |tasks|;
      ok := SpawnChild(parent, vmas);
      if !ok { return; }
      FlatProcs(old(tasks), old(tables), old(data), old(Counts()));
      SpawnIsReady(s, parent);
      if HeapsOk(old(tasks)) {
        ChildHasHeap(old(tasks), parent, tasks[child]);
        assert tasks == old(tasks) + [tasks[child]];
      }
      ok := CopyPages(parent, child);
      if !ok { return; }
      ForkDone(image, s, parent, Abs());
      ok := AllocRecord(records(5 + |vmas|));
    }
  }
}
