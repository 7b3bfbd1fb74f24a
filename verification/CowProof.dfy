/** Copy-on-write refines eager copying, and the invariants that make it so. */
module CowProof {
  import opened Words
  import opened Wrappers
  import opened CowSpec

  // ---------------------------------------------------------------- areas

  /** Areas start on page boundaries and lie on different pages, end addresses included. */
  ghost predicate VmasOk(vmas: seq<Vma>) {
    && (forall k :: 0 <= k < |vmas| ==> vmas[k].start % 4096 == 0 && vmas[k].start <= vmas[k].end)
    && (forall k, l :: 0 <= k < |vmas| && 0 <= l < |vmas| && k != l ==> Apart(vmas[k], vmas[l]))
  }

  predicate Apart(a: Vma, b: Vma) {
    a.end / 4096 < b.start / 4096 || b.end / 4096 < a.start / 4096
  }

  /** A page that a fault inside the area can fill: an area reaches the page its end lies on. */
  predicate Spans(vma: Vma, page: nat) { vma.start <= page * 4096 <= vma.end }

  lemma {:induction false} FindVmaIsMember(vmas: seq<Vma>, va: nat)
    requires FindVma(vmas, va).Some?
    ensures FindVma(vmas, va).value in vmas
    ensures FindVma(vmas, va).value.start <= va <= FindVma(vmas, va).value.end
  {
    if !(vmas[0].start <= va <= vmas[0].end) { FindVmaIsMember(vmas[1..], va); }
  }

  lemma {:induction false} FindVmaFinds(vmas: seq<Vma>, va: nat, k: nat)
    requires k < |vmas| && vmas[k].start <= va <= vmas[k].end
    ensures FindVma(vmas, va).Some?
  {
    if !(vmas[0].start <= va <= vmas[0].end) { FindVmaFinds(vmas[1..], va, k - 1); }
  }

  /** At most one area holds an address or reaches a page. */
  lemma AreaIsUnique(vmas: seq<Vma>, a: Vma, b: Vma, va: nat, page: nat)
    requires VmasOk(vmas) && a in vmas && b in vmas
    requires (a.start <= va <= a.end && b.start <= va <= b.end) || (Spans(a, page) && Spans(b, page))
    ensures a == b
  {
    var k :| 0 <= k < |vmas| && vmas[k] == a;
    var l :| 0 <= l < |vmas| && vmas[l] == b;
    assert k == l;
  }

  /** An address that an area holds lies on a page that the area reaches. */
  lemma AddressIsSpanned(vmas: seq<Vma>, vma: Vma, va: nat)
    requires VmasOk(vmas) && vma in vmas && vma.start <= va <= vma.end
    ensures Spans(vma, va / 4096)
    ensures va < vma.end ==> Covers(vma, va / 4096)
  {
    var k :| 0 <= k < |vmas| && vmas[k] == vma;
  }

  // ---------------------------------------------------------------- reversing the area list

  lemma {:induction false} ReverseMembers(vmas: seq<Vma>, v: Vma)
    ensures v in Reverse(vmas) <==> v in vmas
  {
    if vmas != [] { ReverseMembers(vmas[1..], v); }
  }

  lemma {:induction false} ReverseLength(vmas: seq<Vma>)
    ensures |Reverse(vmas)| == |vmas|
  {
    if vmas != [] { ReverseLength(vmas[1..]); }
  }

  lemma {:induction false} ReverseAt(vmas: seq<Vma>, k: nat)
    requires k < |vmas|
    ensures |Reverse(vmas)| == |vmas| && Reverse(vmas)[k] == vmas[|vmas| - 1 - k]
  {
    ReverseLength(vmas[1..]);
    if k < |vmas| - 1 { ReverseAt(vmas[1..], k); }
  }

  lemma ReverseKeepsVmas(vmas: seq<Vma>)
    requires VmasOk(vmas)
    ensures VmasOk(Reverse(vmas))
  {
    var r := Reverse(vmas);
    ReverseLength(vmas);
    forall k | 0 <= k < |r|
      ensures r[k] == vmas[|vmas| - 1 - k]
    {
      ReverseAt(vmas, k);
    }
  }

  /** Looking an address up in the reversed list finds the same area. */
  lemma ReverseFindsSame(vmas: seq<Vma>, va: nat)
    requires VmasOk(vmas)
    ensures FindVma(Reverse(vmas), va) == FindVma(vmas, va)
  {
    var a, b := FindVma(vmas, va), FindVma(Reverse(vmas), va);
    if a.Some? {
      FindVmaIsMember(vmas, va);
      ReverseMembers(vmas, a.value);
      var k :| 0 <= k < |Reverse(vmas)| && Reverse(vmas)[k] == a.value;
      FindVmaFinds(Reverse(vmas), va, k);
    }
    if b.Some? {
      FindVmaIsMember(Reverse(vmas), va);
      ReverseMembers(vmas, b.value);
      var k :| 0 <= k < |vmas| && vmas[k] == b.value;
      FindVmaFinds(vmas, va, k);
      FindVmaIsMember(vmas, va);
      AreaIsUnique(vmas, a.value, b.value, va, 0);
    }
  }

  // ---------------------------------------------------------------- the invariant

  /** Flags of a present page in an area: a writable area's page has exactly one of W and S. */
  predicate FlagsOk(vma: Vma, g: Flags) {
    && g.v && g.u && g.a && g.d && g.r == vma.flags.read && g.x == vma.flags.exec
    && if vma.flags.write then g.w != g.s else !g.w && !g.s
  }

  /** The area a page belongs to: of those that start at or below it, the one that starts last.  Its
      end does not matter: an end can move below a page that is in use. */
  ghost predicate Owns(vmas: seq<Vma>, v: Vma, page: nat) {
    && v in vmas && v.start <= page * 4096
    && forall u :: u in vmas && u.start <= page * 4096 ==> u.start <= v.start
  }

  ghost predicate PteOk(vmas: seq<Vma>, page: nat, g: Flags) {
    exists v :: Owns(vmas, v, page) && FlagsOk(v, g)
  }

  /** An area that reaches a page is the one the page belongs to. */
  lemma SpanningOwns(vmas: seq<Vma>, v: Vma, page: nat)
    requires VmasOk(vmas) && v in vmas && Spans(v, page)
    ensures Owns(vmas, v, page)
  {
    forall u | u in vmas && u.start <= page * 4096
      ensures u.start <= v.start
    {
      var k :| 0 <= k < |vmas| && vmas[k] == u;
      var l :| 0 <= l < |vmas| && vmas[l] == v;
      assert k == l || Apart(vmas[k], vmas[l]);
    }
  }

  /** A page belongs to one area. */
  lemma OneOwner(vmas: seq<Vma>, a: Vma, b: Vma, page: nat)
    requires VmasOk(vmas) && Owns(vmas, a, page) && Owns(vmas, b, page)
    ensures a == b
  {
    var k :| 0 <= k < |vmas| && vmas[k] == a;
    var l :| 0 <= l < |vmas| && vmas[l] == b;
    assert k == l || Apart(vmas[k], vmas[l]);
  }

  ghost predicate ProcOk(s: State, i: nat)
    requires i < |s.procs|
  {
    && VmasOk(s.procs[i].vmas)
    && forall p :: p in s.procs[i].pt ==> PteOk(s.procs[i].vmas, p, s.procs[i].pt[p].flags)
  }

  /** The page table entries, over all processes, that map frame `f`. */
  ghost function Mappers(s: State, f: nat): set<(nat, nat)> {
    set i: nat, p: nat | i < |s.procs| && p in s.procs[i].pt && s.procs[i].pt[p].ppn == f :: (i, p)
  }

  ghost predicate CountsOk(s: State) {
    forall f :: f in s.frames ==> s.frames[f].count == 1 + |Mappers(s, f)|
  }

  /** A frame mapped writable is mapped by that one entry only. */
  ghost predicate PrivateOk(s: State) {
    forall i: nat, p: nat :: i < |s.procs| && p in s.procs[i].pt && s.procs[i].pt[p].flags.w
      ==> Mappers(s, s.procs[i].pt[p].ppn) == {(i, p)}
  }

  ghost predicate Inv(s: State) {
    && (forall i: nat :: i < |s.procs| ==> MapsFrames(s, i))
    && (forall i: nat :: i < |s.procs| ==> ProcOk(s, i))
    && CountsOk(s) && PrivateOk(s)
  }

  // ---------------------------------------------------------------- mappers under updates

  lemma MappersSet(s: State, i: nat, page: nat, pte: Pte, f: nat)
    requires i < |s.procs|
    ensures Mappers(SetPte(s, i, page, pte), f)
         == Mappers(s, f) - {(i, page)} + if pte.ppn == f then {(i, page)} else {}
  {
    var t := SetPte(s, i, page, pte);
    forall j: nat, p: nat
      ensures (j, p) in Mappers(t, f) 
         <==> (j, p) in Mappers(s, f) - {(i, page)} + if pte.ppn == f then {(i, page)} else {}
    {}
  }

  lemma MappersClear(s: State, i: nat, page: nat, f: nat)
    requires i < |s.procs|
    ensures Mappers(ClearPte(s, i, page), f) == Mappers(s, f) - {(i, page)}
  {
    var t := ClearPte(s, i, page);
    forall j: nat, p: nat
      ensures (j, p) in Mappers(t, f) <==> (j, p) in Mappers(s, f) - {(i, page)}
    {}
  }

  lemma MappersFrames(s: State, t: State, f: nat)
    requires s.procs == t.procs
    ensures Mappers(s, f) == Mappers(t, f)
  {}

  lemma MappersMember(s: State, i: nat, page: nat)
    requires i < |s.procs| && page in s.procs[i].pt
    ensures (i, page) in Mappers(s, s.procs[i].pt[page].ppn)
  {}

  lemma MappersNonMember(s: State, i: nat, page: nat, f: nat)
    requires i < |s.procs| && (page !in s.procs[i].pt || s.procs[i].pt[page].ppn != f)
    ensures (i, page) !in Mappers(s, f)
  {}

  lemma FreshIsUnmapped(s: State, f: nat)
    requires (forall i: nat :: i < |s.procs| ==> MapsFrames(s, i)) && f !in s.frames
    ensures Mappers(s, f) == {}
  {
    forall i: nat, p: nat | i < |s.procs| && p in s.procs[i].pt
      ensures s.procs[i].pt[p].ppn != f
    {
      assert MapsFrames(s, i);
    }
  }

  /** In every state that satisfies the invariant, a mapped frame has a count of at least 2, so
      dropping one reference never frees it and never fails. */
  lemma MappedIsCounted(s: State, i: nat, page: nat)
    requires Inv(s) && i < |s.procs| && page in s.procs[i].pt
    ensures s.procs[i].pt[page].ppn in s.frames
    ensures s.frames[s.procs[i].pt[page].ppn].count >= 2
  {
    assert MapsFrames(s, i);
    var f := s.procs[i].pt[page].ppn;
    MappersMember(s, i, page);
    assert |Mappers(s, f) - {(i, page)}| == |Mappers(s, f)| - 1;
  }

  // ---------------------------------------------------------------- events

  datatype Event =
    | FaultAt(proc: nat, va: nat, cause: Cause, frame: nat)
    | StoreAt(proc: nat, va: nat, value: byte)
    | UnmapPage(proc: nat, page: nat, frame: nat)
    | MoveEnd(proc: nat, area: nat, end: nat)
    | ForkOf(proc: nat)

  /** The addresses a loop from `va` to before `end` visits, as pages. */
  function PagesFrom(va: nat, end: nat): seq<nat>
    decreases end - va
  {
    if va >= end then [] else [va / 4096] + PagesFrom(va + 4096, end)
  }

  /** The pages fork's copy loop visits: the areas in list order, each from start to end. */
  function ForkOrder(vmas: seq<Vma>): seq<nat> {
    if vmas == [] then [] else PagesFrom(vmas[0].start, vmas[0].end) + ForkOrder(vmas[1..])
  }

  ghost function ForkPages(s: State, parent: nat, child: nat, pages: seq<nat>): State
    requires parent < |s.procs| && child < |s.procs|
    requires MapsFrames(s, parent)
    decreases |pages|
  {
    if pages == [] then s
    else
      ForkOneKeepsFrames(s, parent, child, pages[0]);
      ForkPages(ForkOne(s, parent, child, pages[0]), parent, child, pages[1..])
  }

  lemma ForkOneKeepsFrames(s: State, parent: nat, child: nat, page: nat)
    requires parent < |s.procs| && child < |s.procs| && MapsFrames(s, parent)
    ensures var t := ForkOne(s, parent, child, page);
            |t.procs| == |s.procs| && MapsFrames(t, parent)
  {}

  /** `do_fork` */
  ghost function Fork(s: State, parent: nat): State
    requires parent < |s.procs| && MapsFrames(s, parent)
  {
    var t := Spawn(s, parent);
    assert MapsFrames(t, parent);
    ForkPages(t, parent, |s.procs|, ForkOrder(s.procs[parent].vmas))
  }

  /** Every page of process `i` is one that fork's loop visits. */
  ghost predicate AllCovered(s: State, i: nat)
    requires i < |s.procs|
  {
    forall p :: p in s.procs[i].pt ==> exists v :: v in s.procs[i].vmas && Covers(v, p)
  }

  /** When an event can happen: frames handed out are new, stores are permitted by the page table,
      areas stay apart.  Nothing is asked of faults. */
  ghost predicate Enabled(s: State, e: Event) {
    match e
    case FaultAt(i, va, cause, f) => i < |s.procs| && f !in s.frames
    case StoreAt(i, va, b) => i < |s.procs| && CanStore(s, i, va)
    case UnmapPage(i, page, f) => i < |s.procs| && f !in s.frames
    case MoveEnd(i, k, end) =>
      i < |s.procs| && k < |s.procs[i].vmas|
      && VmasOk(s.procs[i].vmas[k := s.procs[i].vmas[k].(end := end)])
    case ForkOf(i) => i < |s.procs|
  }

  /** Every entry of every process names a user frame. */
  ghost predicate Mapped(s: State) { forall i: nat :: i < |s.procs| ==> MapsFrames(s, i) }

  ghost function Step(image: Image, s: State, e: Event): State
    requires Mapped(s) && Enabled(s, e)
  {
    match e
    case FaultAt(i, va, cause, f) => (Fault(image, s, i, va, cause, f))
    case StoreAt(i, va, b) => (Poke(s, i, va, b))
    case UnmapPage(i, page, f) => (UnmapOne(s, i, page, f))
    case MoveEnd(i, k, end) => SetEnd(s, i, k, end)
    case ForkOf(i) => (Fork(s, i))
  }

  /** The same event on the machine that copies eagerly. */
  ghost function EagerStep(image: Image, m: Eager, e: Event): Eager {
    match e
    case FaultAt(i, va, cause, f) => if i < |m| then EFault(image, m, i, va, cause) else m
    case StoreAt(i, va, b) => if i < |m| && va / 4096 in m[i].pages then EStore(m, i, va, b) else m
    case UnmapPage(i, page, f) => if i < |m| then EUnmapOne(m, i, page) else m
    case MoveEnd(i, k, end) => if i < |m| && k < |m[i].vmas| then ESetEnd(m, i, k, end) else m
    case ForkOf(i) => if i < |m| then EFork(m, i) else m
  }

  // ---------------------------------------------------------------- one page in, one page out

  /** All processes but `i` keep what they have, and their pages' frames. */
  ghost predicate OnlyProc(s: State, t: State, i: nat) {
    && |t.procs| == |s.procs| && i < |s.procs| && t.procs[i].vmas == s.procs[i].vmas
    && forall j: nat :: j < |s.procs| && j != i ==> t.procs[j] == s.procs[j]
  }

  /** The frames of `s`, other than `f`, keep contents and presence in `t`. */
  ghost predicate KeepsData(s: State, t: State) {
    forall g :: g in s.frames ==> g in t.frames && t.frames[g].data == s.frames[g].data
  }

  lemma OthersUntouched(s: State, t: State, i: nat, j: nat)
    requires OnlyProc(s, t, i) && KeepsData(s, t) && j < |s.procs| && j != i
    requires MapsFrames(s, j) && ProcOk(s, j)
    ensures MapsFrames(t, j) && ProcOk(t, j) && View(t, j) == View(s, j)
  {}

  /** Dropping a page: one entry and one reference fewer. */
  function DropPage(s: State, i: nat, page: nat): State
    requires i < |s.procs| && MapsFrames(s, i) && page in s.procs[i].pt
  {
    ClearPte(DropRef(s, s.procs[i].pt[page].ppn), i, page)
  }

  lemma DropPageMappers(s: State, i: nat, page: nat, g: nat)
    requires i < |s.procs| && MapsFrames(s, i) && page in s.procs[i].pt
    ensures Mappers(DropPage(s, i, page), g) == Mappers(s, g) - {(i, page)}
  {
    var d := DropRef(s, s.procs[i].pt[page].ppn);
    MappersClear(d, i, page, g);
    MappersFrames(s, d, g);
  }

  lemma DropPageCounts(s: State, i: nat, page: nat)
    requires Inv(s) && i < |s.procs| && page in s.procs[i].pt
    ensures MapsFrames(s, i) && CountsOk(DropPage(s, i, page))
  {
    assert MapsFrames(s, i);
    MappedIsCounted(s, i, page);
    var t, f := DropPage(s, i, page), s.procs[i].pt[page].ppn;
    forall g | g in t.frames
      ensures t.frames[g].count == 1 + |Mappers(t, g)|
    {
      DropPageMappers(s, i, page, g);
      if g == f {
        MappersMember(s, i, page);
      } else {
        MappersNonMember(s, i, page, g);
      }
    }
  }

  lemma DropPagePrivate(s: State, i: nat, page: nat)
    requires Inv(s) && i < |s.procs| && page in s.procs[i].pt
    ensures MapsFrames(s, i) && PrivateOk(DropPage(s, i, page))
  {
    assert MapsFrames(s, i);
    var t := DropPage(s, i, page);
    forall j: nat, p: nat | j < |t.procs| && p in t.procs[j].pt && t.procs[j].pt[p].flags.w
      ensures Mappers(t, t.procs[j].pt[p].ppn) == {(j, p)}
    {
      assert p in s.procs[j].pt && s.procs[j].pt[p] == t.procs[j].pt[p];
      assert Mappers(s, s.procs[j].pt[p].ppn) == {(j, p)};
      DropPageMappers(s, i, page, t.procs[j].pt[p].ppn);
    }
  }

  lemma DropPageProc(s: State, i: nat, page: nat)
    requires i < |s.procs| && MapsFrames(s, i) && ProcOk(s, i) && page in s.procs[i].pt
    ensures var t := DropPage(s, i, page);
            OnlyProc(s, t, i) && KeepsData(s, t) && t.frames.Keys == s.frames.Keys
            && MapsFrames(t, i) && ProcOk(t, i)
            && |t.procs| == |s.procs| && t.procs[i].vmas == s.procs[i].vmas && page !in t.procs[i].pt
            && View(t, i) == View(s, i).(pages := View(s, i).pages - {page})
  {
    hide PteOk, VmasOk;
    DropPageView(s, i, page);
  }

  lemma DropPageView(s: State, i: nat, page: nat)
    requires i < |s.procs| && MapsFrames(s, i) && page in s.procs[i].pt
    ensures MapsFrames(DropPage(s, i, page), i)
    ensures View(DropPage(s, i, page), i) == View(s, i).(pages := View(s, i).pages - {page})
  {
    assert View(DropPage(s, i, page), i).pages == View(s, i).pages - {page};
  }

  /** Invariant over all processes from the one that changed. */
  lemma AllProcs(s: State, t: State, i: nat)
    requires Inv(s) && OnlyProc(s, t, i) && KeepsData(s, t)
    requires MapsFrames(t, i) && ProcOk(t, i) && CountsOk(t) && PrivateOk(t)
    ensures Inv(t)
  {
    hide ProcOk, MapsFrames, CountsOk, PrivateOk, KeepsData;
    forall j: nat | j < |t.procs|
      ensures MapsFrames(t, j) && ProcOk(t, j)
    {
      if j != i { OthersUntouched(s, t, i, j); }
    }
  }

  lemma DropPageStep(s: State, i: nat, page: nat)
    requires Inv(s) && i < |s.procs| && page in s.procs[i].pt
    ensures MapsFrames(s, i) && Inv(DropPage(s, i, page))
    ensures OnlyProc(s, DropPage(s, i, page), i) && KeepsData(s, DropPage(s, i, page))
    ensures View(DropPage(s, i, page), i) == View(s, i).(pages := View(s, i).pages - {page})
    ensures DropPage(s, i, page).frames.Keys == s.frames.Keys
    ensures |DropPage(s, i, page).procs| == |s.procs| && page !in DropPage(s, i, page).procs[i].pt
    ensures DropPage(s, i, page).procs[i].vmas == s.procs[i].vmas
  {
    hide ProcOk, MapsFrames, CountsOk, PrivateOk, KeepsData, OnlyProc, View, DropPage;
    assert MapsFrames(s, i) && ProcOk(s, i);
    DropPageProc(s, i, page);
    DropPageCounts(s, i, page);
    DropPagePrivate(s, i, page);
    AllProcs(s, DropPage(s, i, page), i);
  }

  /** A frame that is allocated but mapped nowhere. */
  function AddOrphan(s: State, f: nat, data: Page): State {
    s.(frames := s.frames[f := Frame(1, data)])
  }

  lemma AddOrphanStep(s: State, f: nat, data: Page)
    requires Inv(s) && f !in s.frames
    ensures Inv(AddOrphan(s, f, data)) && KeepsData(s, AddOrphan(s, f, data))
  {
    var t := AddOrphan(s, f, data);
    FreshIsUnmapped(s, f);
    forall g
      ensures Mappers(t, g) == Mappers(s, g)
    {
      MappersFrames(s, t, g);
    }
    forall j: nat | j < |t.procs|
      ensures MapsFrames(t, j) && ProcOk(t, j)
    {
      assert MapsFrames(s, j) && ProcOk(s, j);
    }
  }

  /** Installing a page in a frame of its own, with the flags of its area. */
  function Install(s: State, i: nat, page: nat, f: nat, data: Page, vma: Vma): State
    requires i < |s.procs|
  {
    SetPte(s.(frames := s.frames[f := Frame(2, data)]), i, page, Pte(f, PermsOf(vma)))
  }

  lemma InstallMappers(s: State, i: nat, page: nat, f: nat, data: Page, vma: Vma, g: nat)
    requires i < |s.procs| && page !in s.procs[i].pt && Mappers(s, f) == {}
    ensures Mappers(Install(s, i, page, f, data, vma), g) == if g == f then {(i, page)} else Mappers(s, g)
  {
    var s1 := s.(frames := s.frames[f := Frame(2, data)]);
    MappersNonMember(s, i, page, g);
    MappersSet(s1, i, page, Pte(f, PermsOf(vma)), g);
    MappersFrames(s, s1, g);
  }

  lemma InstallCounts(s: State, i: nat, page: nat, f: nat, data: Page, vma: Vma)
    requires CountsOk(s) && i < |s.procs| && page !in s.procs[i].pt && Mappers(s, f) == {}
    ensures CountsOk(Install(s, i, page, f, data, vma))
  {
    var t := Install(s, i, page, f, data, vma);
    forall g | g in t.frames
      ensures t.frames[g].count == 1 + |Mappers(t, g)|
    {
      InstallMappers(s, i, page, f, data, vma, g);
    }
  }

  lemma InstallPrivate(s: State, i: nat, page: nat, f: nat, data: Page, vma: Vma)
    requires PrivateOk(s) && i < |s.procs| && page !in s.procs[i].pt && Mappers(s, f) == {}
    ensures PrivateOk(Install(s, i, page, f, data, vma))
  {
    var t := Install(s, i, page, f, data, vma);
    forall j: nat, p: nat | j < |t.procs| && p in t.procs[j].pt && t.procs[j].pt[p].flags.w
      ensures Mappers(t, t.procs[j].pt[p].ppn) == {(j, p)}
    {
      InstallMappers(s, i, page, f, data, vma, t.procs[j].pt[p].ppn);
      if (j, p) != (i, page) {
        assert p in s.procs[j].pt && s.procs[j].pt[p] == t.procs[j].pt[p];
        MappersMember(s, j, p);
      }
    }
  }

  lemma InstallProc(s: State, i: nat, page: nat, f: nat, data: Page, vma: Vma)
    requires i < |s.procs| && MapsFrames(s, i) && ProcOk(s, i) && f !in s.frames && page !in s.procs[i].pt
    requires vma in s.procs[i].vmas && Spans(vma, page)
    ensures var t := Install(s, i, page, f, data, vma);
            OnlyProc(s, t, i) && KeepsData(s, t) && MapsFrames(t, i) && ProcOk(t, i) && |t.procs| == |s.procs|
  {
    var t := Install(s, i, page, f, data, vma);
    SpanningOwns(s.procs[i].vmas, vma, page);
    assert FlagsOk(vma, PermsOf(vma));
    assert t.procs[i].vmas == s.procs[i].vmas;
    forall p | p in t.procs[i].pt
      ensures PteOk(t.procs[i].vmas, p, t.procs[i].pt[p].flags)
    {
      if p != page { assert PteOk(s.procs[i].vmas, p, s.procs[i].pt[p].flags); }
    }
  }

  lemma InstallView(s: State, i: nat, page: nat, f: nat, data: Page, vma: Vma)
    requires i < |s.procs| && MapsFrames(s, i) && f !in s.frames
    requires MapsFrames(Install(s, i, page, f, data, vma), i)
    ensures View(Install(s, i, page, f, data, vma), i) == View(s, i).(pages := View(s, i).pages[page := data])
  {
    assert View(Install(s, i, page, f, data, vma), i).pages == View(s, i).pages[page := data];
  }

  lemma InstallStep(s: State, i: nat, page: nat, f: nat, data: Page, vma: Vma)
    requires Inv(s) && i < |s.procs| && f !in s.frames && page !in s.procs[i].pt
    requires vma in s.procs[i].vmas && Spans(vma, page)
    ensures Inv(Install(s, i, page, f, data, vma)) && MapsFrames(s, i)
    ensures |Install(s, i, page, f, data, vma).procs| == |s.procs|
    ensures OnlyProc(s, Install(s, i, page, f, data, vma), i) && KeepsData(s, Install(s, i, page, f, data, vma))
    ensures View(Install(s, i, page, f, data, vma), i) == View(s, i).(pages := View(s, i).pages[page := data])
  {
    hide ProcOk, MapsFrames, CountsOk, PrivateOk, KeepsData, OnlyProc, View, Install, Mappers;
    FreshIsUnmapped(s, f);
    assert MapsFrames(s, i) && ProcOk(s, i);
    InstallProc(s, i, page, f, data, vma);
    InstallView(s, i, page, f, data, vma);
    InstallCounts(s, i, page, f, data, vma);
    InstallPrivate(s, i, page, f, data, vma);
    AllProcs(s, Install(s, i, page, f, data, vma), i);
  }

  // ---------------------------------------------------------------- the events, one by one

  /** A change confined to one process, as the eager machine sees it. */
  lemma AbstractUpdate(s: State, t: State, i: nat, now: EProc)
    requires Inv(s) && Inv(t) && OnlyProc(s, t, i) && KeepsData(s, t)
    requires MapsFrames(t, i) && View(t, i) == now
    ensures |Abstract(s)| == |s.procs| && Abstract(t) == Abstract(s)[i := now]
  {
    forall j: nat | j < |s.procs| && j != i
      ensures MapsFrames(t, j) && View(t, j) == View(s, j)
    {
      assert MapsFrames(s, j) && ProcOk(s, j);
      OthersUntouched(s, t, i, j);
    }
  }

  /** Taking a private copy of a page: its shared frame loses a reference, a new frame is installed. */
  lemma CopyStep(s: State, i: nat, page: nat, f: nat, vma: Vma)
    requires Inv(s) && i < |s.procs| && f !in s.frames && page in s.procs[i].pt
    requires vma in s.procs[i].vmas && Spans(vma, page)
    ensures MapsFrames(s, i)
    ensures var t := Install(DropPage(s, i, page), i, page, f, s.frames[s.procs[i].pt[page].ppn].data, vma);
            Inv(t) && Abstract(t) == Abstract(s)
  {
    hide ProcOk, MapsFrames, CountsOk, PrivateOk, KeepsData, OnlyProc, View, Install, DropPage, Mappers, Abstract;
    DropPageStep(s, i, page);
    MappedData(s, i, page);
    var d, data := DropPage(s, i, page), s.frames[s.procs[i].pt[page].ppn].data;
    InstallStep(d, i, page, f, data, vma);
    var t := Install(d, i, page, f, data, vma);
    PutBack(View(s, i).pages, page, data);
    AbstractUpdate(s, d, i, View(d, i));
    AbstractUpdate(d, t, i, View(s, i));
    ViewIsAbstract(s, i);
  }

  lemma MappedData(s: State, i: nat, page: nat)
    requires Inv(s) && i < |s.procs| && page in s.procs[i].pt
    ensures MapsFrames(s, i) && s.procs[i].pt[page].ppn in s.frames
    ensures page in View(s, i).pages && View(s, i).pages[page] == s.frames[s.procs[i].pt[page].ppn].data
  {
    assert MapsFrames(s, i);
  }

  lemma PutBack(pages: map<nat, Page>, page: nat, data: Page)
    requires page in pages && pages[page] == data
    ensures (pages - {page})[page := data] == pages
  {}

  lemma ViewIsAbstract(s: State, i: nat)
    requires Inv(s) && i < |s.procs|
    ensures |Abstract(s)| == |s.procs| && MapsFrames(s, i) && Abstract(s)[i] == View(s, i)
  {
    assert MapsFrames(s, i);
  }

  lemma FaultStep(image: Image, s: State, i: nat, va: nat, cause: Cause, f: nat)
    requires Inv(s) && i < |s.procs| && f !in s.frames
    ensures MapsFrames(s, i) && Inv(Fault(image, s, i, va, cause, f))
    ensures Abstract(Fault(image, s, i, va, cause, f)) == EFault(image, Abstract(s), i, va, cause)
  {
    hide CountsOk, PrivateOk, KeepsData, OnlyProc, View, Install, DropPage, Mappers, Abstract, FindVma, Spans, Loaded,
      FrameData, PermsOf;
    assert MapsFrames(s, i) && ProcOk(s, i);
    ViewIsAbstract(s, i);
    ViewPages(s, i);
    var found, page := FindVma(s.procs[i].vmas, va), va / 4096;
    if found.Some? && Permits(found.value, cause) {
      FindVmaIsMember(s.procs[i].vmas, va);
      AddressIsSpanned(s.procs[i].vmas, found.value, va);
      if page in s.procs[i].pt {
        MappedIsCounted(s, i, page);
        if s.procs[i].pt[page].flags.s {
          CopyStep(s, i, page, f, found.value);
          FaultIsCopy(image, s, i, va, cause, f);
        }
      } else {
        DemandStep(image, s, i, va, cause, f);
      }
    }
  }

  lemma ViewPages(s: State, i: nat)
    requires i < |s.procs| && MapsFrames(s, i)
    ensures View(s, i).vmas == s.procs[i].vmas && View(s, i).pages.Keys == s.procs[i].pt.Keys
  {}

  lemma DemandStep(image: Image, s: State, i: nat, va: nat, cause: Cause, f: nat)
    requires Inv(s) && i < |s.procs| && f !in s.frames && va / 4096 !in s.procs[i].pt
    requires FindVma(s.procs[i].vmas, va).Some? && Permits(FindVma(s.procs[i].vmas, va).value, cause)
    requires FindVma(s.procs[i].vmas, va).value in s.procs[i].vmas
             && Spans(FindVma(s.procs[i].vmas, va).value, va / 4096)
    ensures MapsFrames(s, i) && Inv(Fault(image, s, i, va, cause, f))
    ensures Abstract(Fault(image, s, i, va, cause, f)) == EFault(image, Abstract(s), i, va, cause)
  {
    hide CountsOk, PrivateOk, ProcOk, KeepsData, OnlyProc, View, Mappers, Abstract, FindVma, Spans, Loaded, PermsOf;
    assert MapsFrames(s, i);
    var vma, page := FindVma(s.procs[i].vmas, va).value, va / 4096;
    ViewIsAbstract(s, i);
    ViewPages(s, i);
    var data := Loaded(image, vma, page, FrameData(s, f));
    InstallStep(s, i, page, f, data, vma);
    var t := Install(s, i, page, f, data, vma);
    assert MapsFrames(t, i);
    AbstractUpdate(s, t, i, View(s, i).(pages := View(s, i).pages[page := data]));
  }

  lemma FaultIsCopy(image: Image, s: State, i: nat, va: nat, cause: Cause, f: nat)
    requires i < |s.procs| && MapsFrames(s, i) && FindVma(s.procs[i].vmas, va).Some?
    requires var vma, page := FindVma(s.procs[i].vmas, va).value, va / 4096;
             Permits(vma, cause) && page in s.procs[i].pt && s.procs[i].pt[page].flags.s
             && s.frames[s.procs[i].pt[page].ppn].count > 0
    ensures var vma, page := FindVma(s.procs[i].vmas, va).value, va / 4096;
            Fault(image, s, i, va, cause, f)
            == Install(DropPage(s, i, page), i, page, f, s.frames[s.procs[i].pt[page].ppn].data, vma)
  {
    var page, pt := va / 4096, s.procs[i].pt;
    var pte := Pte(f, PermsOf(FindVma(s.procs[i].vmas, va).value));
    assert (pt - {page})[page := pte] == pt[page := pte];
  }

  lemma PokeStep(s: State, i: nat, va: nat, b: byte)
    requires Inv(s) && CanStore(s, i, va)
    ensures MapsFrames(s, i) && Inv(Poke(s, i, va, b))
    ensures va / 4096 in Abstract(s)[i].pages
    ensures Abstract(Poke(s, i, va, b)) == EStore(Abstract(s), i, va, b)
  {
    hide Mappers, CountsOk, PrivateOk, View;
    PokeKeeps(s, i, va, b);
    PokeOwn(s, i, va, b);
    var t := Poke(s, i, va, b);
    ViewIsAbstract(s, i);
    ViewIsAbstract(t, i);
    forall j: nat | j < |s.procs| && j != i
      ensures Abstract(t)[j] == Abstract(s)[j]
    {
      PokeOther(s, i, va, b, j);
      ViewIsAbstract(s, j);
      ViewIsAbstract(t, j);
    }
  }

  lemma PokeKeeps(s: State, i: nat, va: nat, b: byte)
    requires Inv(s) && CanStore(s, i, va)
    ensures MapsFrames(s, i) && Inv(Poke(s, i, va, b))
  {
    assert MapsFrames(s, i);
    var t := Poke(s, i, va, b);
    forall g
      ensures Mappers(t, g) == Mappers(s, g)
    {
      MappersFrames(s, t, g);
    }
    hide Mappers;
    forall j: nat | j < |t.procs|
      ensures MapsFrames(t, j) && ProcOk(t, j)
    {
      assert MapsFrames(s, j) && ProcOk(s, j);
    }
  }

  /** The frame written is mapped by that one page of that one process. */
  lemma WrittenFrameIsPrivate(s: State, i: nat, va: nat, j: nat, p: nat)
    requires Inv(s) && CanStore(s, i, va) && j < |s.procs| && p in s.procs[j].pt && (j, p) != (i, va / 4096)
    ensures s.procs[j].pt[p].ppn != s.procs[i].pt[va / 4096].ppn
  {
    MappersMember(s, j, p);
    assert Mappers(s, s.procs[i].pt[va / 4096].ppn) == {(i, va / 4096)};
  }

  lemma PokeOther(s: State, i: nat, va: nat, b: byte, j: nat)
    requires Inv(s) && CanStore(s, i, va) && j < |s.procs| && j != i
    ensures MapsFrames(s, i) && MapsFrames(s, j) && MapsFrames(Poke(s, i, va, b), j)
    ensures View(Poke(s, i, va, b), j) == View(s, j)
  {
    assert MapsFrames(s, i) && MapsFrames(s, j);
    forall p | p in s.procs[j].pt
      ensures s.procs[j].pt[p].ppn != s.procs[i].pt[va / 4096].ppn
    {
      WrittenFrameIsPrivate(s, i, va, j, p);
    }
    UnwrittenView(s, i, va, b, j);
  }

  lemma UnwrittenView(s: State, i: nat, va: nat, b: byte, j: nat)
    requires CanStore(s, i, va) && j < |s.procs| && j != i && MapsFrames(s, i) && MapsFrames(s, j)
    requires forall p :: p in s.procs[j].pt ==> s.procs[j].pt[p].ppn != s.procs[i].pt[va / 4096].ppn
    ensures MapsFrames(Poke(s, i, va, b), j) && View(Poke(s, i, va, b), j) == View(s, j)
  {}

  lemma PokeOwn(s: State, i: nat, va: nat, b: byte)
    requires Inv(s) && CanStore(s, i, va)
    ensures MapsFrames(s, i) && MapsFrames(Poke(s, i, va, b), i) && va / 4096 in View(s, i).pages
    ensures View(Poke(s, i, va, b), i)
         == View(s, i).(pages := View(s, i).pages[va / 4096 := View(s, i).pages[va / 4096][va % 4096 := b]])
  {
    assert MapsFrames(s, i);
    forall p | p in s.procs[i].pt && p != va / 4096
      ensures s.procs[i].pt[p].ppn != s.procs[i].pt[va / 4096].ppn
    {
      WrittenFrameIsPrivate(s, i, va, i, p);
    }
    OwnPageUpdate(s, i, va, b);
  }

  lemma OwnPageUpdate(s: State, i: nat, va: nat, b: byte)
    requires i < |s.procs| && MapsFrames(s, i) && CanStore(s, i, va)
    requires forall p :: p in s.procs[i].pt && p != va / 4096 ==> s.procs[i].pt[p].ppn != s.procs[i].pt[va / 4096].ppn
    ensures MapsFrames(Poke(s, i, va, b), i) && va / 4096 in View(s, i).pages
    ensures View(Poke(s, i, va, b), i)
         == View(s, i).(pages := View(s, i).pages[va / 4096 := View(s, i).pages[va / 4096][va % 4096 := b]])
  {
    var t, page := Poke(s, i, va, b), va / 4096;
    assert View(t, i).pages == View(s, i).pages[page := View(s, i).pages[page][va % 4096 := b]];
  }

  lemma UnmapStep(s: State, i: nat, page: nat, f: nat)
    requires Inv(s) && i < |s.procs| && f !in s.frames
    ensures MapsFrames(s, i) && Inv(UnmapOne(s, i, page, f))
    ensures Abstract(UnmapOne(s, i, page, f)) == EUnmapOne(Abstract(s), i, page)
  {
    assert MapsFrames(s, i);
    if page !in s.procs[i].pt {
      assert View(s, i).pages - {page} == View(s, i).pages;
    } else {
      DropPageStep(s, i, page);
      var t := DropPage(s, i, page);
      AbstractUpdate(s, t, i, View(s, i).(pages := View(s, i).pages - {page}));
      MappedIsCounted(s, i, page);
      if s.procs[i].pt[page].flags.s {
        var data := s.frames[s.procs[i].pt[page].ppn].data;
        AddOrphanStep(t, f, data);
        OrphanUnseen(t, f, data);
      }
    }
  }

  lemma OrphanUnseen(s: State, f: nat, data: Page)
    requires Inv(s) && Inv(AddOrphan(s, f, data)) && f !in s.frames
    ensures Abstract(AddOrphan(s, f, data)) == Abstract(s)
  {
    hide CountsOk, PrivateOk, ProcOk, MapsFrames, View;
    var t := AddOrphan(s, f, data);
    forall j: nat | j < |s.procs|
      ensures MapsFrames(s, j) && MapsFrames(t, j) && View(t, j) == View(s, j)
    {
      OrphanView(s, f, data, j);
    }
  }

  lemma OrphanView(s: State, f: nat, data: Page, j: nat)
    requires j < |s.procs| && MapsFrames(s, j) && f !in s.frames
    ensures MapsFrames(AddOrphan(s, f, data), j) && View(AddOrphan(s, f, data), j) == View(s, j)
  {}

  lemma SetEndStep(s: State, i: nat, k: nat, end: nat)
    requires Inv(s) && i < |s.procs| && k < |s.procs[i].vmas|
    requires VmasOk(s.procs[i].vmas[k := s.procs[i].vmas[k].(end := end)])
    ensures Inv(SetEnd(s, i, k, end)) && Abstract(SetEnd(s, i, k, end)) == ESetEnd(Abstract(s), i, k, end)
  {
    var t := SetEnd(s, i, k, end);
    forall g
      ensures Mappers(t, g) == Mappers(s, g)
    {
      SameEntries(s, t, g);
    }
    forall j: nat | j < |t.procs|
      ensures MapsFrames(t, j) && ProcOk(t, j)
    {
      assert MapsFrames(s, j) && ProcOk(s, j);
      if j == i { SetEndProc(s, i, k, end); }
    }
    assert View(t, i).pages == View(s, i).pages;
  }

  lemma SameEntries(s: State, t: State, g: nat)
    requires |s.procs| == |t.procs| && forall j :: 0 <= j < |s.procs| ==> s.procs[j].pt == t.procs[j].pt
    ensures Mappers(t, g) == Mappers(s, g)
  {
    forall j: nat, p: nat
      ensures (j, p) in Mappers(t, g) <==> (j, p) in Mappers(s, g)
    {}
  }

  /** Ownership depends on the areas' starts only. */
  lemma SameStarts(vmas: seq<Vma>, k: nat, end: nat, l: nat, page: nat)
    requires k < |vmas| && l < |vmas| && Owns(vmas, vmas[l], page)
    ensures var moved := vmas[k := vmas[k].(end := end)]; Owns(moved, moved[l], page)
  {
    var moved := vmas[k := vmas[k].(end := end)];
    forall u | u in moved && u.start <= page * 4096
      ensures u.start <= moved[l].start
    {
      var m :| 0 <= m < |moved| && moved[m] == u;
      assert vmas[m] in vmas;
    }
  }

  lemma SetEndProc(s: State, i: nat, k: nat, end: nat)
    requires i < |s.procs| && ProcOk(s, i) && k < |s.procs[i].vmas|
    requires VmasOk(s.procs[i].vmas[k := s.procs[i].vmas[k].(end := end)])
    ensures ProcOk(SetEnd(s, i, k, end), i)
  {
    var vmas := s.procs[i].vmas;
    var grown := vmas[k := vmas[k].(end := end)];
    forall p | p in s.procs[i].pt
      ensures PteOk(grown, p, s.procs[i].pt[p].flags)
    {
      var v :| Owns(vmas, v, p) && FlagsOk(v, s.procs[i].pt[p].flags);
      var l :| 0 <= l < |vmas| && vmas[l] == v;
      SameStarts(vmas, k, end, l, p);
      assert FlagsOk(grown[l], s.procs[i].pt[p].flags);
    }
  }

  // ---------------------------------------------------------------- fork, page by page

  /** Making a page shared in the process that has it: the flags change, the frame stays. */
  lemma ShareStep(s: State, i: nat, page: nat)
    requires Inv(s) && i < |s.procs| && page in s.procs[i].pt
    ensures var pte := s.procs[i].pt[page];
            var t := SetPte(s, i, page, Pte(pte.ppn, SharedFlags(pte.flags)));
            Inv(t) && Abstract(t) == Abstract(s) && OnlyProc(s, t, i)
  {
    var pte := s.procs[i].pt[page];
    var t := SetPte(s, i, page, Pte(pte.ppn, SharedFlags(pte.flags)));
    assert MapsFrames(s, i) && ProcOk(s, i);
    ShareMappers(s, i, page);
    ShareProc(s, i, page);
    hide Mappers, ProcOk, View, SharedFlags;
    assert CountsOk(t);
    AllProcs(s, t, i);
    ViewIsAbstract(s, i);
    AbstractUpdate(s, t, i, View(s, i));
  }

  lemma ShareMappers(s: State, i: nat, page: nat)
    requires Inv(s) && i < |s.procs| && page in s.procs[i].pt
    ensures var pte := s.procs[i].pt[page];
            var t := SetPte(s, i, page, Pte(pte.ppn, SharedFlags(pte.flags)));
            (forall g :: Mappers(t, g) == Mappers(s, g)) && PrivateOk(t)
  {
    var pte := s.procs[i].pt[page];
    var t := SetPte(s, i, page, Pte(pte.ppn, SharedFlags(pte.flags)));
    forall g
      ensures Mappers(t, g) == Mappers(s, g)
    {
      MappersSet(s, i, page, Pte(pte.ppn, SharedFlags(pte.flags)), g);
      if g == pte.ppn { MappersMember(s, i, page); } else { MappersNonMember(s, i, page, g); }
    }
    hide Mappers;
    forall j: nat, p: nat | j < |t.procs| && p in t.procs[j].pt && t.procs[j].pt[p].flags.w
      ensures Mappers(t, t.procs[j].pt[p].ppn) == {(j, p)}
    {
      assert p in s.procs[j].pt && s.procs[j].pt[p] == t.procs[j].pt[p];
    }
  }

  lemma ShareProc(s: State, i: nat, page: nat)
    requires i < |s.procs| && MapsFrames(s, i) && ProcOk(s, i) && page in s.procs[i].pt
    ensures var pte := s.procs[i].pt[page];
            var t := SetPte(s, i, page, Pte(pte.ppn, SharedFlags(pte.flags)));
            MapsFrames(t, i) && ProcOk(t, i) && View(t, i) == View(s, i) && OnlyProc(s, t, i) && KeepsData(s, t)
  {
    var pte := s.procs[i].pt[page];
    var t := SetPte(s, i, page, Pte(pte.ppn, SharedFlags(pte.flags)));
    SharePteOk(s, i, page);
    ShareView(s, i, page);
    assert t.procs[i].vmas == s.procs[i].vmas;
    hide PteOk, View, SharedFlags;
  }

  lemma ShareView(s: State, i: nat, page: nat)
    requires i < |s.procs| && MapsFrames(s, i) && page in s.procs[i].pt
    ensures var pte := s.procs[i].pt[page];
            var t := SetPte(s, i, page, Pte(pte.ppn, SharedFlags(pte.flags)));
            MapsFrames(t, i) && View(t, i) == View(s, i)
  {
    var pte := s.procs[i].pt[page];
    var t := SetPte(s, i, page, Pte(pte.ppn, SharedFlags(pte.flags)));
    assert View(t, i).pages == View(s, i).pages;
  }

  lemma SharePteOk(s: State, i: nat, page: nat)
    requires i < |s.procs| && ProcOk(s, i) && page in s.procs[i].pt
    ensures var pte := s.procs[i].pt[page];
            var t := SetPte(s, i, page, Pte(pte.ppn, SharedFlags(pte.flags)));
            forall p :: p in t.procs[i].pt ==> PteOk(t.procs[i].vmas, p, t.procs[i].pt[p].flags)
  {
    var pte := s.procs[i].pt[page];
    var t := SetPte(s, i, page, Pte(pte.ppn, SharedFlags(pte.flags)));
    forall p | p in t.procs[i].pt
      ensures PteOk(t.procs[i].vmas, p, t.procs[i].pt[p].flags)
    {
      var v :| Owns(s.procs[i].vmas, v, p) && FlagsOk(v, s.procs[i].pt[p].flags);
      assert FlagsOk(v, t.procs[i].pt[p].flags);
    }
  }

  /** A further entry, without write permission, for a frame that is already mapped. */
  function AddMapping(s: State, i: nat, page: nat, pte: Pte): State
    requires i < |s.procs| && pte.ppn in s.frames
  {
    SetPte(AddRef(s, pte.ppn), i, page, pte)
  }

  lemma AddMappingMappers(s: State, i: nat, page: nat, pte: Pte, g: nat)
    requires i < |s.procs| && pte.ppn in s.frames && page !in s.procs[i].pt
    ensures Mappers(AddMapping(s, i, page, pte), g) == Mappers(s, g) + if g == pte.ppn then {(i, page)} else {}
    ensures (i, page) !in Mappers(s, g)
  {
    var s1 := AddRef(s, pte.ppn);
    MappersSet(s1, i, page, pte, g);
    MappersFrames(s, s1, g);
    MappersNonMember(s, i, page, g);
  }

  lemma AddMappingCounts(s: State, i: nat, page: nat, pte: Pte)
    requires CountsOk(s) && i < |s.procs| && pte.ppn in s.frames && page !in s.procs[i].pt
    ensures CountsOk(AddMapping(s, i, page, pte))
  {
    var t := AddMapping(s, i, page, pte);
    forall g | g in t.frames
      ensures t.frames[g].count == 1 + |Mappers(t, g)|
    {
      AddMappingMappers(s, i, page, pte, g);
    }
  }

  lemma AddMappingPrivate(s: State, i: nat, page: nat, pte: Pte, j: nat, q: nat)
    requires PrivateOk(s) && i < |s.procs| && pte.ppn in s.frames && page !in s.procs[i].pt && !pte.flags.w
    requires j < |s.procs| && q in s.procs[j].pt && s.procs[j].pt[q].ppn == pte.ppn && !s.procs[j].pt[q].flags.w
    ensures PrivateOk(AddMapping(s, i, page, pte))
  {
    var t := AddMapping(s, i, page, pte);
    MappersMember(s, j, q);
    forall k: nat, p: nat | k < |t.procs| && p in t.procs[k].pt && t.procs[k].pt[p].flags.w
      ensures Mappers(t, t.procs[k].pt[p].ppn) == {(k, p)}
    {
      assert p in s.procs[k].pt && s.procs[k].pt[p] == t.procs[k].pt[p];
      AddMappingMappers(s, i, page, pte, t.procs[k].pt[p].ppn);
    }
  }

  lemma AddMappingProc(s: State, i: nat, page: nat, pte: Pte)
    requires i < |s.procs| && MapsFrames(s, i) && ProcOk(s, i) && pte.ppn in s.frames && page !in s.procs[i].pt
    requires PteOk(s.procs[i].vmas, page, pte.flags)
    ensures var t := AddMapping(s, i, page, pte);
            MapsFrames(t, i) && ProcOk(t, i) && OnlyProc(s, t, i) && KeepsData(s, t)
            && View(t, i) == View(s, i).(pages := View(s, i).pages[page := s.frames[pte.ppn].data])
  {
    AddMappingPtes(s, i, page, pte);
    AddMappingView(s, i, page, pte);
  }

  lemma AddMappingPtes(s: State, i: nat, page: nat, pte: Pte)
    requires i < |s.procs| && MapsFrames(s, i) && ProcOk(s, i) && pte.ppn in s.frames && page !in s.procs[i].pt
    requires PteOk(s.procs[i].vmas, page, pte.flags)
    ensures var t := AddMapping(s, i, page, pte);
            MapsFrames(t, i) && ProcOk(t, i) && OnlyProc(s, t, i) && KeepsData(s, t)
  {
    hide PteOk;
    var t := AddMapping(s, i, page, pte);
    forall p | p in t.procs[i].pt
      ensures PteOk(t.procs[i].vmas, p, t.procs[i].pt[p].flags)
    {
      if p != page { assert PteOk(s.procs[i].vmas, p, s.procs[i].pt[p].flags); }
    }
  }

  lemma AddMappingView(s: State, i: nat, page: nat, pte: Pte)
    requires i < |s.procs| && MapsFrames(s, i) && pte.ppn in s.frames && page !in s.procs[i].pt
    requires MapsFrames(AddMapping(s, i, page, pte), i)
    ensures View(AddMapping(s, i, page, pte), i)
            == View(s, i).(pages := View(s, i).pages[page := s.frames[pte.ppn].data])
  {
    var t := AddMapping(s, i, page, pte);
    assert View(t, i).pages == View(s, i).pages[page := s.frames[pte.ppn].data];
  }

  lemma AddMappingStep(s: State, i: nat, page: nat, pte: Pte, j: nat, q: nat)
    requires Inv(s) && i < |s.procs| && pte.ppn in s.frames && page !in s.procs[i].pt && !pte.flags.w
    requires j < |s.procs| && q in s.procs[j].pt && s.procs[j].pt[q].ppn == pte.ppn && !s.procs[j].pt[q].flags.w
    requires PteOk(s.procs[i].vmas, page, pte.flags)
    ensures MapsFrames(s, i)
    ensures var t := AddMapping(s, i, page, pte);
            Inv(t) && OnlyProc(s, t, i)
            && Abstract(t) == Abstract(s)[i := View(s, i).(pages := View(s, i).pages[page := s.frames[pte.ppn].data])]
  {
    hide Mappers, ProcOk, CountsOk, PrivateOk, View, AddMapping, PteOk, KeepsData, OnlyProc;
    assert MapsFrames(s, i) && ProcOk(s, i);
    AddMappingProc(s, i, page, pte);
    AddMappingCounts(s, i, page, pte);
    AddMappingPrivate(s, i, page, pte, j, q);
    var t := AddMapping(s, i, page, pte);
    AllProcs(s, t, i);
    AbstractUpdate(s, t, i, View(s, i).(pages := View(s, i).pages[page := s.frames[pte.ppn].data]));
  }

  /** The areas of a process have the pages of another when they are the same areas. */
  lemma SameAreasSamePte(a: seq<Vma>, b: seq<Vma>, page: nat, g: Flags)
    requires PteOk(a, page, g) && b == Reverse(a)
    ensures PteOk(b, page, SharedFlags(g))
  {
    var v :| Owns(a, v, page) && FlagsOk(v, g);
    forall u
      ensures u in b <==> u in a
    {
      ReverseMembers(a, u);
    }
    assert Owns(b, v, page) && FlagsOk(v, SharedFlags(g));
  }

  lemma ForkOneStep(s: State, parent: nat, child: nat, page: nat)
    requires Inv(s) && parent < |s.procs| && child < |s.procs| && parent != child
    requires s.procs[child].vmas == Reverse(s.procs[parent].vmas) && page !in s.procs[child].pt
    ensures MapsFrames(s, parent) && |Abstract(s)| == |s.procs|
    ensures var t := ForkOne(s, parent, child, page);
            Inv(t) && |t.procs| == |s.procs|
            && t.procs[child].vmas == s.procs[child].vmas && t.procs[parent].vmas == s.procs[parent].vmas
            && Abstract(t) == Abstract(s)[child := CopyPage(Abstract(s)[parent], Abstract(s)[child], page)]
  {
    assert MapsFrames(s, parent) && ProcOk(s, parent);
    ViewIsAbstract(s, parent);
    ViewIsAbstract(s, child);
    if page in s.procs[parent].pt {
      var pte := s.procs[parent].pt[page];
      var shared := Pte(pte.ppn, SharedFlags(pte.flags));
      var mid := SetPte(s, parent, page, shared);
      ShareStep(s, parent, page);
      SameAreasSamePte(s.procs[parent].vmas, s.procs[child].vmas, page, pte.flags);
      AddMappingStep(mid, child, page, shared, parent, page);
      ViewIsAbstract(mid, child);
      assert ForkOne(s, parent, child, page) == AddMapping(mid, child, page, shared);
    }
  }

  /** Copying one page from process `a` to process `b`, if `a` has it. */
  function CopyPage(a: EProc, b: EProc, page: nat): EProc {
    if page in a.pages then b.(pages := b.pages[page := a.pages[page]]) else b
  }

  // ---------------------------------------------------------------- fork, as a whole

  ghost predicate NoDup(pages: seq<nat>) {
    forall k, l :: 0 <= k < l < |pages| ==> pages[k] != pages[l]
  }

  lemma {:induction false} PagesFromMember(va: nat, end: nat, page: nat)
    requires va % 4096 == 0
    ensures page in PagesFrom(va, end) <==> va <= page * 4096 < end
    decreases end - va
  {
    if va < end { PagesFromMember(va + 4096, end, page); }
  }

  lemma {:induction false} PagesFromNoDup(va: nat, end: nat)
    requires va % 4096 == 0
    ensures NoDup(PagesFrom(va, end))
    decreases end - va
  {
    if va < end {
      PagesFromNoDup(va + 4096, end);
      PagesFromMember(va + 4096, end, va / 4096);
    }
  }

  /** Fork's loop visits exactly the pages its areas cover. */
  lemma {:induction false} ForkOrderMember(vmas: seq<Vma>, page: nat)
    requires VmasOk(vmas)
    ensures page in ForkOrder(vmas) <==> exists v :: v in vmas && Covers(v, page)
  {
    if vmas != [] {
      VmasOkTail(vmas);
      ForkOrderMember(vmas[1..], page);
      PagesFromMember(vmas[0].start, vmas[0].end, page);
      if page in ForkOrder(vmas) {
        if Covers(vmas[0], page) {
          assert vmas[0] in vmas;
        } else {
          var v :| v in vmas[1..] && Covers(v, page);
          assert v in vmas;
        }
      }
      if v :| v in vmas && Covers(v, page) {
        assert v == vmas[0] || v in vmas[1..];
      }
    }
  }

  lemma VmasOkTail(vmas: seq<Vma>)
    requires VmasOk(vmas) && vmas != []
    ensures VmasOk(vmas[1..])
    ensures forall v :: v in vmas[1..] ==> Apart(vmas[0], v)
  {
    forall k, l | 0 <= k < |vmas[1..]| && 0 <= l < |vmas[1..]| && k != l
      ensures Apart(vmas[1..][k], vmas[1..][l])
    {
      assert Apart(vmas[k + 1], vmas[l + 1]);
    }
    forall v | v in vmas[1..]
      ensures Apart(vmas[0], v)
    {
      var k :| 0 <= k < |vmas[1..]| && vmas[1..][k] == v;
      assert Apart(vmas[0], vmas[k + 1]);
    }
  }

  lemma {:induction false} ForkOrderNoDup(vmas: seq<Vma>)
    requires VmasOk(vmas)
    ensures NoDup(ForkOrder(vmas))
  {
    if vmas != [] {
      VmasOkTail(vmas);
      ForkOrderNoDup(vmas[1..]);
      PagesFromNoDup(vmas[0].start, vmas[0].end);
      var a, b := PagesFrom(vmas[0].start, vmas[0].end), ForkOrder(vmas[1..]);
      forall page | page in a
        ensures page !in b
      {
        PagesFromMember(vmas[0].start, vmas[0].end, page);
        ForkOrderMember(vmas[1..], page);
        assert Covers(vmas[0], page);
      }
      NoDupConcat(a, b);
    }
  }

  lemma NoDupConcat(a: seq<nat>, b: seq<nat>)
    requires NoDup(a) && NoDup(b) && forall p :: p in a ==> p !in b
    ensures NoDup(a + b)
  {
    forall k, l | 0 <= k < l < |a + b|
      ensures (a + b)[k] != (a + b)[l]
    {
      if k < |a| <= l {
        assert a[k] in a && b[l - |a|] in b;
      }
    }
  }

  /** Copying pages one after the other from `a` to `b`. */
  function CopyPages(a: EProc, b: EProc, pages: seq<nat>): EProc
    decreases |pages|
  {
    if pages == [] then b else CopyPages(a, CopyPage(a, b, pages[0]), pages[1..])
  }

  lemma {:induction false} CopyPagesKeys(a: EProc, b: EProc, pages: seq<nat>, p: nat)
    ensures CopyPages(a, b, pages).vmas == b.vmas
    ensures p in CopyPages(a, b, pages).pages <==> p in b.pages || (p in a.pages && p in pages)
    ensures p in a.pages && p in pages ==> CopyPages(a, b, pages).pages[p] == a.pages[p]
    ensures p in b.pages && !(p in a.pages && p in pages) ==> CopyPages(a, b, pages).pages[p] == b.pages[p]
    decreases |pages|
  {
    if pages != [] {
      CopyPagesKeys(a, CopyPage(a, b, pages[0]), pages[1..], p);
      assert p in pages <==> p == pages[0] || p in pages[1..];
    }
  }

  lemma {:induction false} ForkPagesStep(s: State, parent: nat, child: nat, pages: seq<nat>)
    requires Inv(s) && parent < |s.procs| && child < |s.procs| && parent != child
    requires s.procs[child].vmas == Reverse(s.procs[parent].vmas) && NoDup(pages)
    requires forall p :: p in pages ==> p !in s.procs[child].pt
    ensures MapsFrames(s, parent) && |Abstract(s)| == |s.procs|
    ensures var t := ForkPages(s, parent, child, pages);
            Inv(t) && Abstract(t) == Abstract(s)[child := CopyPages(Abstract(s)[parent], Abstract(s)[child], pages)]
    decreases |pages|
  {
    hide ProcOk, CountsOk, PrivateOk, View, Abstract, CopyPage;
    assert MapsFrames(s, parent);
    ViewIsAbstract(s, parent);
    if pages == [] {
      assert Abstract(s)[child := Abstract(s)[child]] == Abstract(s);
    } else {
      var t := ForkOne(s, parent, child, pages[0]);
      ForkOneStep(s, parent, child, pages[0]);
      StillMissing(s, parent, child, pages);
      ForkPagesStep(t, parent, child, pages[1..]);
    }
  }

  lemma StillMissing(s: State, parent: nat, child: nat, pages: seq<nat>)
    requires parent < |s.procs| && child < |s.procs| && parent != child && MapsFrames(s, parent)
    requires pages != [] && NoDup(pages) && forall p :: p in pages ==> p !in s.procs[child].pt
    ensures NoDup(pages[1..])
    ensures forall p :: p in pages[1..] ==> p !in ForkOne(s, parent, child, pages[0]).procs[child].pt
  {
    forall p | p in pages[1..]
      ensures p in pages && p != pages[0]
    {}
  }

  lemma SpawnStep(s: State, parent: nat)
    requires Inv(s) && parent < |s.procs|
    ensures Inv(Spawn(s, parent))
    ensures Abstract(Spawn(s, parent)) == Abstract(s) + [EProc(Reverse(s.procs[parent].vmas), map[])]
  {
    hide ProcOk, PrivateOk, CountsOk, View;
    SpawnKeeps(s, parent);
    forall j: nat | j < |s.procs| + 1
      ensures MapsFrames(Spawn(s, parent), j) && ProcOk(Spawn(s, parent), j)
      ensures View(Spawn(s, parent), j)
           == if j < |s.procs| then (assert MapsFrames(s, j); View(s, j))
              else EProc(Reverse(s.procs[parent].vmas), map[])
    {
      SpawnProc(s, parent, j);
    }
  }

  lemma SpawnKeeps(s: State, parent: nat)
    requires Inv(s) && parent < |s.procs|
    ensures CountsOk(Spawn(s, parent)) && PrivateOk(Spawn(s, parent))
  {
    var t := Spawn(s, parent);
    forall g
      ensures Mappers(t, g) == Mappers(s, g)
    {
      SpawnMappers(s, parent, g);
    }
  }

  lemma SpawnProc(s: State, parent: nat, j: nat)
    requires Inv(s) && parent < |s.procs| && j <= |s.procs|
    ensures var t := Spawn(s, parent); MapsFrames(t, j) && ProcOk(t, j)
    ensures j < |s.procs| ==> MapsFrames(s, j) && View(Spawn(s, parent), j) == View(s, j)
    ensures j == |s.procs| ==> View(Spawn(s, parent), j) == EProc(Reverse(s.procs[parent].vmas), map[])
  {
    if j < |s.procs| {
      assert MapsFrames(s, j) && ProcOk(s, j);
    } else {
      assert ProcOk(s, parent);
      ReverseKeepsVmas(s.procs[parent].vmas);
      assert View(Spawn(s, parent), j).pages == map[];
    }
  }

  lemma SpawnMappers(s: State, parent: nat, g: nat)
    requires parent < |s.procs|
    ensures Mappers(Spawn(s, parent), g) == Mappers(s, g)
  {
    var t := Spawn(s, parent);
    forall j: nat, p: nat
      ensures (j, p) in Mappers(t, g) <==> (j, p) in Mappers(s, g)
    {}
  }

  /** Fork keeps the invariant and hands the child copies of the pages its loop visits. */
  lemma ForkStep(s: State, parent: nat)
    requires Inv(s) && parent < |s.procs|
    ensures MapsFrames(s, parent) && Inv(Fork(s, parent)) && |Abstract(s)| == |s.procs|
    ensures Abstract(Fork(s, parent)) == Abstract(s)
         + [CopyPages(Abstract(s)[parent], EProc(Reverse(s.procs[parent].vmas), map[]),
                      ForkOrder(s.procs[parent].vmas))]
  {
    assert MapsFrames(s, parent) && ProcOk(s, parent);
    ViewIsAbstract(s, parent);
    SpawnStep(s, parent);
    ForkOrderNoDup(s.procs[parent].vmas);
    var t := Spawn(s, parent);
    ForkPagesStep(t, parent, |s.procs|, ForkOrder(s.procs[parent].vmas));
  }

  /** A fork agrees with one that copies every page at once if and only if the parent has no page
      that the copy loop skips. */
  lemma ForkIsEagerCopy(s: State, parent: nat)
    requires Inv(s) && parent < |s.procs|
    ensures MapsFrames(s, parent) && Inv(Fork(s, parent)) && |Abstract(s)| == |s.procs|
    ensures Abstract(Fork(s, parent)) == EFork(Abstract(s), parent) <==> AllCovered(s, parent)
  {
    ForkStep(s, parent);
    ViewIsAbstract(s, parent);
    ViewPages(s, parent);
    var vmas := s.procs[parent].vmas;
    var a := Abstract(s)[parent];
    var blank := EProc(Reverse(vmas), map[]);
    var copy := CopyPages(a, blank, ForkOrder(vmas));
    assert VmasOk(vmas) by { assert ProcOk(s, parent); }
    CopyOfCovered(a, vmas);
    assert AllCovered(s, parent) <==> forall p :: p in a.pages ==> exists v :: v in vmas && Covers(v, p);
    LastElement(Abstract(s), copy, EProc(Reverse(vmas), a.pages));
  }

  lemma LastElement(e: Eager, x: EProc, y: EProc)
    ensures e + [x] == e + [y] <==> x == y
  {
    assert (e + [x])[|e|] == x && (e + [y])[|e|] == y;
  }

  /** Copying the covered pages copies all pages exactly when all pages are covered. */
  lemma CopyOfCovered(a: EProc, vmas: seq<Vma>)
    requires VmasOk(vmas)
    ensures CopyPages(a, EProc(Reverse(vmas), map[]), ForkOrder(vmas)) == EProc(Reverse(vmas), a.pages)
       <==> forall p :: p in a.pages ==> exists v :: v in vmas && Covers(v, p)
  {
    var blank := EProc(Reverse(vmas), map[]);
    var copy := CopyPages(a, blank, ForkOrder(vmas));
    CopyPagesKeys(a, blank, ForkOrder(vmas), 0);
    forall p
      ensures p in copy.pages <==> p in a.pages && exists v :: v in vmas && Covers(v, p)
      ensures p in copy.pages ==> copy.pages[p] == a.pages[p]
    {
      ForkOrderMember(vmas, p);
      CopyPagesKeys(a, blank, ForkOrder(vmas), p);
    }
    if copy.pages == a.pages {
      forall p | p in a.pages
        ensures exists v :: v in vmas && Covers(v, p)
      {
        assert p in copy.pages;
      }
    }
  }
}
