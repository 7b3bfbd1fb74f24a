/** Copy-on-write memory, with page tables flattened to one map per process.

    `State` is what the kernel keeps: page table entries, shared frames and their counts.
    `Eager` is what a process may rely on: its own bytes, copied in full at every fork. */
module CowSpec {
  import opened Wrappers
  import opened Words

  type Page = s: seq<byte> | |s| == 4096 witness seq(4096, _ => 0)

  function ZeroPage(): Page { seq(4096, _ => 0) }

  // ---------------------------------------------------------------- page table entries, areas

  /** The ten low bits of a page table entry.  `s` is the kernel's own PTE_S, "shared". */
  datatype Flags = Flags(v: bool, r: bool, w: bool, x: bool, u: bool, g: bool, a: bool, d: bool, s: bool, bit9: bool)

  /** A page table entry.  Frames are named by their number in the allocator. */
  datatype Pte = Pte(ppn: nat, flags: Flags)

  datatype VmFlags = VmFlags(read: bool, write: bool, exec: bool, anon: bool)

  /** `struct vm_area_struct`, without its links. */
  datatype Vma = Vma(start: nat, end: nat, pgoff: nat, filesz: nat, flags: VmFlags)

  /** Page-fault causes 12, 13 and 15. */
  datatype Cause = Fetch | Load | Store

  /** The bytes of the program image, by offset. */
  type Image = int -> byte

  /** A page's worth of the image. */
  function ImagePage(image: Image, offset: int): Page { seq(4096, k requires 0 <= k => image(offset + k)) }

  /** `find_vma`: the end address counts as inside. */
  function FindVma(vmas: seq<Vma>, va: nat): Option<Vma> {
    if vmas == [] then None
    else if vmas[0].start <= va <= vmas[0].end then Some(vmas[0])
    else FindVma(vmas[1..], va)
  }

  predicate Permits(vma: Vma, cause: Cause) {
    match cause
    case Fetch => vma.flags.exec
    case Load => vma.flags.read
    case Store => vma.flags.write
  }

  /** The flags of a freshly faulted page: `(vm_flags << 1) | PTE_U`, with V, A and D. */
  function PermsOf(vma: Vma): Flags {
    Flags(true, vma.flags.read, vma.flags.write, vma.flags.exec, true, false, true, true, false, false)
  }

  /** The flags that `vm_create_mapping` writes for given permissions. */
  function Leaf(g: Flags): Flags { g.(v := true, a := true, d := true) }

  /** What a demand fault leaves in a frame that held `frame`: the program's page, zero beyond the
      file part, or, for anonymous memory, whatever was there. */
  function Loaded(image: Image, vma: Vma, page: nat, frame: Page): Page {
    if vma.flags.anon then frame
    else if Wrap(page * 4096 - vma.start) >= vma.filesz then ZeroPage()
    else ImagePage(image, vma.pgoff + page * 4096 - vma.start)
  }

  /** The image byte at an offset from the area's start. */
  function FileByte(image: Image, vma: Vma, at: nat): byte { image(vma.pgoff + at) }

  /** A page holds what the program header asks for: the file's bytes as far as they go, zeros behind. */
  ghost predicate AsAsked(image: Image, vma: Vma, page: nat, contents: Page)
    requires vma.start <= page * 4096
  {
    forall k :: 0 <= k < 4096 ==>
      contents[k] == (var at: nat := page * 4096 + k - vma.start;
                      if at < vma.filesz then FileByte(image, vma, at) else 0)
  }

  /** A page of a program's area is loaded as its header asks if and only if the image happens to hold
      zeros behind the file part, within the page; there is nothing behind it unless the file part ends
      inside the page. */
  lemma LoadedIsAsAsked(image: Image, vma: Vma, page: nat, frame: Page)
    requires !vma.flags.anon && vma.start <= page * 4096 < 0x40_0000_0000
    ensures AsAsked(image, vma, page, Loaded(image, vma, page, frame))
       <==> forall at: nat :: page * 4096 - vma.start < vma.filesz <= at < page * 4096 - vma.start + 4096
              ==> FileByte(image, vma, at) == 0
  {
    var first: nat := page * 4096 - vma.start;
    var loaded := Loaded(image, vma, page, frame);
    if first < vma.filesz {
      forall k | 0 <= k < 4096
        ensures loaded[k] == FileByte(image, vma, first + k)
      {
        assert vma.pgoff + page * 4096 - vma.start + k == vma.pgoff + (first + k);
      }
      if AsAsked(image, vma, page, loaded) {
        forall at: nat | vma.filesz <= at < first + 4096
          ensures FileByte(image, vma, at) == 0
        {
          assert loaded[at - first] == 0;
        }
      }
    }
  }

  /** So every image is loaded as asked if and only if the file part does not end inside the page: the
      lines that would clear the rest of such a page are commented out. */
  lemma LoadingIsExact(vma: Vma, page: nat, frame: Page)
    requires !vma.flags.anon && vma.start <= page * 4096 < 0x40_0000_0000
    ensures (forall image: Image :: AsAsked(image, vma, page, Loaded(image, vma, page, frame)))
       <==> !(page * 4096 < vma.start + vma.filesz < page * 4096 + 4096)
  {
    if page * 4096 < vma.start + vma.filesz < page * 4096 + 4096 {
      var ones: Image := offset => 1;
      LoadedIsAsAsked(ones, vma, page, frame);
      assert FileByte(ones, vma, vma.filesz) != 0;
    } else {
      forall image: Image
        ensures AsAsked(image, vma, page, Loaded(image, vma, page, frame))
      {
        LoadedIsAsAsked(image, vma, page, frame);
      }
    }
  }

  /** The pages that the loops over an area visit: from its start to before its end. */
  predicate Covers(vma: Vma, page: nat) { vma.start <= page * 4096 < vma.end }

  // ---------------------------------------------------------------- the kernel's state

  datatype Proc = Proc(vmas: seq<Vma>, pt: map<nat, Pte>)

  /** A user frame: its reference count and its contents. */
  datatype Frame = Frame(count: nat, data: Page)

  datatype State = State(procs: seq<Proc>, frames: map<nat, Frame>)

  function FrameData(s: State, f: nat): Page {
    if f in s.frames then s.frames[f].data else ZeroPage()
  }

  function SetPte(s: State, i: nat, page: nat, pte: Pte): State
    requires i < |s.procs|
  {
    s.(procs := s.procs[i := s.procs[i].(pt := s.procs[i].pt[page := pte])])
  }

  function ClearPte(s: State, i: nat, page: nat): State
    requires i < |s.procs|
  {
    s.(procs := s.procs[i := s.procs[i].(pt := s.procs[i].pt - {page})])
  }

  function AddRef(s: State, f: nat): State
    requires f in s.frames
  {
    s.(frames := s.frames[f := Frame(s.frames[f].count + 1, s.frames[f].data)])
  }

  function DropRef(s: State, f: nat): State
    requires f in s.frames
  {
    s.(frames := s.frames[f := Frame(if s.frames[f].count == 0 then 0 else s.frames[f].count - 1, s.frames[f].data)])
  }

  /** `do_page_fault` for process `i`, when the allocator hands out frame `f`. */
  function Fault(image: Image, s: State, i: nat, va: nat, cause: Cause, f: nat): State
    requires i < |s.procs| && MapsFrames(s, i)
  {
    var found := FindVma(s.procs[i].vmas, va);
    if found.None? || !Permits(found.value, cause) then s
    else
      var vma, page := found.value, va / 4096;
      if page in s.procs[i].pt then
        var pte := s.procs[i].pt[page];
        if !pte.flags.s then s
        else if s.frames[pte.ppn].count == 0 then
          SetPte(s, i, page, Pte(pte.ppn, Leaf(pte.flags.(s := false, w := true))))
        else
          var t := DropRef(s, pte.ppn);
          SetPte(t.(frames := t.frames[f := Frame(2, s.frames[pte.ppn].data)]), i, page, Pte(f, PermsOf(vma)))
      else
        SetPte(s.(frames := s.frames[f := Frame(2, Loaded(image, vma, page, FrameData(s, f)))]), i, page,
          Pte(f, PermsOf(vma)))
  }

  /** A store by process `i` that its page table permits. */
  function Poke(s: State, i: nat, va: nat, b: byte): State
    requires i < |s.procs| && MapsFrames(s, i) && CanStore(s, i, va)
  {
    var f := s.procs[i].pt[va / 4096].ppn;
    s.(frames := s.frames[f := Frame(s.frames[f].count, s.frames[f].data[va % 4096 := b])])
  }

  predicate CanStore(s: State, i: nat, va: nat) {
    i < |s.procs| && va / 4096 in s.procs[i].pt
    && var g := s.procs[i].pt[va / 4096].flags; g.v && g.w && g.u
  }

  /** One turn of `unmap_page`, when the allocator hands out frame `f` for the copy of a shared page. */
  function UnmapOne(s: State, i: nat, page: nat, f: nat): State
    requires i < |s.procs| && MapsFrames(s, i)
  {
    if page !in s.procs[i].pt then s
    else
      var pte := s.procs[i].pt[page];
      var t := ClearPte(DropRef(s, pte.ppn), i, page);
      if s.frames[pte.ppn].count > 0 && pte.flags.s then
        t.(frames := t.frames[f := Frame(1, s.frames[pte.ppn].data)])
      else t
  }

  /** `do_vma_mmap`: `vm_end` moves, nothing else. */
  function SetEnd(s: State, i: nat, k: nat, end: nat): State
    requires i < |s.procs| && k < |s.procs[i].vmas|
  {
    s.(procs := s.procs[i := s.procs[i].(vmas := s.procs[i].vmas[k := s.procs[i].vmas[k].(end := end)])])
  }

  /** The flags a page has after fork: a writable page becomes shared in parent and child alike. */
  function SharedFlags(g: Flags): Flags { if g.w then g.(w := false, s := true) else g }

  /** The body of fork's copy loop for one page. */
  function ForkOne(s: State, parent: nat, child: nat, page: nat): State
    requires parent < |s.procs| && child < |s.procs| && MapsFrames(s, parent)
  {
    if page !in s.procs[parent].pt then s
    else
      var pte := s.procs[parent].pt[page];
      var shared := Pte(pte.ppn, SharedFlags(pte.flags));
      SetPte(SetPte(AddRef(s, pte.ppn), parent, page, shared), child, page, shared)
  }

  function Reverse<T>(xs: seq<T>): seq<T> {
    if xs == [] then [] else Reverse(xs[1..]) + [xs[0]]
  }

  /** Fork before its copy loop: the child has the areas, in reverse order, and no pages. */
  function Spawn(s: State, parent: nat): State
    requires parent < |s.procs|
  {
    s.(procs := s.procs + [Proc(Reverse(s.procs[parent].vmas), map[])])
  }

  /** Every entry of process `i` names a user frame. */
  predicate MapsFrames(s: State, i: nat)
    requires i < |s.procs|
  {
    forall p :: p in s.procs[i].pt ==> s.procs[i].pt[p].ppn in s.frames
  }

  // ---------------------------------------------------------------- the eager machine

  /** A process with memory of its own: the pages it has touched. */
  datatype EProc = EProc(vmas: seq<Vma>, pages: map<nat, Page>)

  type Eager = seq<EProc>

  function EFault(image: Image, e: Eager, i: nat, va: nat, cause: Cause): Eager
    requires i < |e|
  {
    var found := FindVma(e[i].vmas, va);
    if found.None? || !Permits(found.value, cause) || va / 4096 in e[i].pages then e
    else e[i := e[i].(pages := e[i].pages[va / 4096 := Loaded(image, found.value, va / 4096, ZeroPage())])]
  }

  function EStore(e: Eager, i: nat, va: nat, b: byte): Eager
    requires i < |e| && va / 4096 in e[i].pages
  {
    e[i := e[i].(pages := e[i].pages[va / 4096 := e[i].pages[va / 4096][va % 4096 := b]])]
  }

  function EUnmapOne(e: Eager, i: nat, page: nat): Eager
    requires i < |e|
  {
    e[i := e[i].(pages := e[i].pages - {page})]
  }

  function ESetEnd(e: Eager, i: nat, k: nat, end: nat): Eager
    requires i < |e| && k < |e[i].vmas|
  {
    e[i := e[i].(vmas := e[i].vmas[k := e[i].vmas[k].(end := end)])]
  }

  /** Fork that copies every page at once. */
  function EFork(e: Eager, parent: nat): Eager
    requires parent < |e|
  {
    e + [EProc(Reverse(e[parent].vmas), e[parent].pages)]
  }

  /** What process `i` of a kernel state sees. */
  function View(s: State, i: nat): EProc
    requires i < |s.procs| && MapsFrames(s, i)
  {
    EProc(s.procs[i].vmas, map p | p in s.procs[i].pt :: s.frames[s.procs[i].pt[p].ppn].data)
  }

  function Abstract(s: State): Eager
    requires forall i :: 0 <= i < |s.procs| ==> MapsFrames(s, i)
  {
    seq(|s.procs|, i requires 0 <= i < |s.procs| => View(s, i))
  }
}
