/** What copy-on-write promises over whole runs. */
module CowTheorems {
  import opened Words
  import opened Wrappers
  import opened CowSpec
  import opened CowProof

  ghost predicate Next(image: Image, s: State, e: Event, t: State) {
    Mapped(s) && Enabled(s, e) && t == Step(image, s, e)
  }

  ghost predicate IsRun(image: Image, states: seq<State>, events: seq<Event>) {
    |states| == |events| + 1 && forall k :: 0 <= k < |events| ==> Next(image, states[k], events[k], states[k + 1])
  }

  ghost function EagerRun(image: Image, m: Eager, events: seq<Event>): Eager {
    if events == [] then m
    else EagerStep(image, EagerRun(image, m, events[..|events| - 1]), events[|events| - 1])
  }

  /** Fork is only asked of processes whose pages it will all visit. */
  ghost predicate ForkCovered(s: State, e: Event) {
    e.ForkOf? && e.proc < |s.procs| ==> AllCovered(s, e.proc)
  }

  /** A fault address is below the end of the area that holds it, and an end does not move below a
      page of its area. */
  ghost predicate InRange(m: Eager, e: Event) {
    && (e.FaultAt? && e.proc < |m| ==>
          var found := FindVma(m[e.proc].vmas, e.va);
          found.Some? ==> e.va < found.value.end)
    && (e.MoveEnd? && e.proc < |m| && e.area < |m[e.proc].vmas| ==>
          StaysCovered(m[e.proc].pages.Keys, m[e.proc].vmas[e.area], e.end))
  }

  predicate StaysCovered(pages: set<nat>, vma: Vma, end: nat) {
    forall p :: p in pages && Covers(vma, p) ==> Covers(vma.(end := end), p)
  }

  /** A single process that has touched nothing: the state after boot. */
  lemma BootIsFine(vmas: seq<Vma>)
    requires VmasOk(vmas)
    ensures Inv(State([Proc(vmas, map[])], map[])) && ECovered(Abstract(State([Proc(vmas, map[])], map[])))
  {
    var s := State([Proc(vmas, map[])], map[]);
    assert View(s, 0).pages == map[];
  }

  /** One step keeps the invariant and, seen from the processes, is the eager machine's step. */
  lemma StepRefines(image: Image, s: State, e: Event)
    requires Inv(s) && Enabled(s, e)
    ensures Mapped(s) && Inv(Step(image, s, e))
    ensures ForkCovered(s, e) ==> Abstract(Step(image, s, e)) == EagerStep(image, Abstract(s), e)
  {
    match e
    case FaultAt(i, va, cause, f) => FaultStep(image, s, i, va, cause, f);
    case StoreAt(i, va, b) => PokeStep(s, i, va, b);
    case UnmapPage(i, page, f) => UnmapStep(s, i, page, f);
    case MoveEnd(i, k, end) => SetEndStep(s, i, k, end);
    case ForkOf(i) => ForkIsEagerCopy(s, i);
  }

  /** The invariant holds in every reachable state. */
  lemma {:induction false} RunKeepsInv(image: Image, states: seq<State>, events: seq<Event>, k: nat)
    requires IsRun(image, states, events) && Inv(states[0]) && k < |states|
    ensures Inv(states[k])
  {
    if k > 0 {
      RunKeepsInv(image, states, events, k - 1);
      assert Next(image, states[k - 1], events[k - 1], states[k]);
      StepRefines(image, states[k - 1], events[k - 1]);
    }
  }

  /** Copy-on-write refines eager copying: along any run in which fork is asked only of processes
      all of whose pages it visits, every process sees, at every moment, exactly the bytes it would
      see if every fork had copied every page at once. */
  lemma {:induction false} CopyOnWriteRefinesEagerCopy(image: Image, states: seq<State>, events: seq<Event>, k: nat)
    requires IsRun(image, states, events) && Inv(states[0]) && k < |states|
    requires forall l :: 0 <= l < k ==> ForkCovered(states[l], events[l])
    ensures Inv(states[k]) && Inv(states[0])
    ensures Abstract(states[k]) == EagerRun(image, Abstract(states[0]), events[..k])
  {
    if k > 0 {
      CopyOnWriteRefinesEagerCopy(image, states, events, k - 1);
      assert Next(image, states[k - 1], events[k - 1], states[k]);
      StepRefines(image, states[k - 1], events[k - 1]);
      assert events[..k][..k - 1] == events[..k - 1];
    }
  }

  /** In state `k` of a run every process sees what it would see if every fork had copied at once. */
  ghost predicate Agrees(image: Image, states: seq<State>, events: seq<Event>, k: nat) {
    && k < |states| && k <= |events| && Mapped(states[0]) && Mapped(states[k])
    && Abstract(states[k]) == EagerRun(image, Abstract(states[0]), events[..k])
  }

  /** The condition is exact: copy-on-write agrees with eager copying throughout a run if and only if
      no fork of the run is asked of a process with a page that it does not visit. */
  lemma AgreesIffForksCover(image: Image, states: seq<State>, events: seq<Event>)
    requires IsRun(image, states, events) && Inv(states[0])
    ensures (forall k :: 0 <= k < |states| ==> Agrees(image, states, events, k))
       <==> (forall l :: 0 <= l < |events| ==> ForkCovered(states[l], events[l]))
  {
    if forall l :: 0 <= l < |events| ==> ForkCovered(states[l], events[l]) {
      forall k | 0 <= k < |states|
        ensures Agrees(image, states, events, k)
      {
        CopyOnWriteRefinesEagerCopy(image, states, events, k);
      }
    }
    if forall k :: 0 <= k < |states| ==> Agrees(image, states, events, k) {
      forall l | 0 <= l < |events|
        ensures ForkCovered(states[l], events[l])
      {
        assert Agrees(image, states, events, l) && Agrees(image, states, events, l + 1);
        AgreeingForkCovers(image, states, events, l);
      }
    }
  }

  lemma AgreeingForkCovers(image: Image, states: seq<State>, events: seq<Event>, l: nat)
    requires IsRun(image, states, events) && Inv(states[0]) && l < |events|
    requires Agrees(image, states, events, l) && Agrees(image, states, events, l + 1)
    ensures ForkCovered(states[l], events[l])
  {
    var s, e := states[l], events[l];
    RunKeepsInv(image, states, events, l);
    assert Next(image, s, e, states[l + 1]);
    assert events[..l + 1][..l] == events[..l];
    if e.ForkOf? && e.proc < |s.procs| { ForkIsEagerCopy(s, e.proc); }
  }

  // ---------------------------------------------------------------- accesses within the areas

  /** Every page of every process is one that fork visits. */
  ghost predicate ECovered(m: Eager) {
    forall i: nat :: i < |m| ==> PagesCovered(m[i])
  }

  ghost predicate PagesCovered(q: EProc) {
    && VmasOk(q.vmas)
    && forall p :: p in q.pages ==> exists v :: v in q.vmas && Covers(v, p)
  }

  lemma CoveredMeansCovered(s: State, i: nat)
    requires Inv(s) && ECovered(Abstract(s)) && i < |s.procs|
    ensures AllCovered(s, i)
  {
    ViewIsAbstract(s, i);
    ViewPages(s, i);
    assert PagesCovered(Abstract(s)[i]);
  }

  lemma FaultKeepsCovered(image: Image, m: Eager, i: nat, va: nat, cause: Cause)
    requires ECovered(m) && i < |m|
    requires FindVma(m[i].vmas, va).Some? ==> va < FindVma(m[i].vmas, va).value.end
    ensures ECovered(EFault(image, m, i, va, cause))
  {
    var after := EFault(image, m, i, va, cause);
    assert PagesCovered(m[i]);
    if FindVma(m[i].vmas, va).Some? {
      FindVmaIsMember(m[i].vmas, va);
      AddressIsSpanned(m[i].vmas, FindVma(m[i].vmas, va).value, va);
    }
    hide FindVma;
    forall j: nat | j < |after|
      ensures PagesCovered(after[j])
    {
      assert PagesCovered(m[j]);
    }
  }

  lemma SetEndKeepsCovered(m: Eager, i: nat, k: nat, end: nat)
    requires ECovered(m) && i < |m| && k < |m[i].vmas| && StaysCovered(m[i].pages.Keys, m[i].vmas[k], end)
    requires VmasOk(m[i].vmas[k := m[i].vmas[k].(end := end)])
    ensures ECovered(ESetEnd(m, i, k, end))
  {
    var after := ESetEnd(m, i, k, end);
    var vmas := m[i].vmas;
    var grown := vmas[k := vmas[k].(end := end)];
    assert PagesCovered(m[i]);
    forall p | p in m[i].pages
      ensures exists v :: v in grown && Covers(v, p)
    {
      var v :| v in vmas && Covers(v, p);
      var l :| 0 <= l < |vmas| && vmas[l] == v;
      assert grown[l] in grown && Covers(grown[l], p);
    }
    forall j: nat | j < |after|
      ensures PagesCovered(after[j])
    {
      assert PagesCovered(m[j]);
    }
  }

  lemma ForkKeepsCovered(m: Eager, i: nat)
    requires ECovered(m) && i < |m|
    ensures ECovered(EFork(m, i))
  {
    var q := m[i];
    assert PagesCovered(q);
    ReverseKeepsVmas(q.vmas);
    forall p | p in q.pages
      ensures exists v :: v in Reverse(q.vmas) && Covers(v, p)
    {
      var v :| v in q.vmas && Covers(v, p);
      ReverseMembers(q.vmas, v);
    }
    forall j: nat | j < |EFork(m, i)|
      ensures PagesCovered(EFork(m, i)[j])
    {
      if j < |m| { assert PagesCovered(m[j]); }
    }
  }

  lemma EagerStepKeepsCovered(image: Image, s: State, e: Event)
    requires Inv(s) && Enabled(s, e) && ECovered(Abstract(s)) && InRange(Abstract(s), e)
    ensures ECovered(EagerStep(image, Abstract(s), e))
  {
    hide ECovered, CountsOk, PrivateOk, ProcOk, View, EFault, EStore, EFork, ESetEnd, EUnmapOne, VmasOk, FindVma;
    var m := Abstract(s);
    if e.proc < |s.procs| {
      ViewIsAbstract(s, e.proc);
      ViewPages(s, e.proc);
    }
    match e
    case FaultAt(i, va, cause, f) => FaultKeepsCovered(image, m, i, va, cause);
    case StoreAt(i, va, b) => StoreKeepsCovered(m, i, va, b);
    case UnmapPage(i, page, f) => UnmapKeepsCovered(m, i, page);
    case MoveEnd(i, k, end) => SetEndKeepsCovered(m, i, k, end);
    case ForkOf(i) => ForkKeepsCovered(m, i);
  }

  lemma StoreKeepsCovered(m: Eager, i: nat, va: nat, b: byte)
    requires ECovered(m) && i < |m| && va / 4096 in m[i].pages
    ensures ECovered(EStore(m, i, va, b))
  {
    forall j: nat | j < |m|
      ensures PagesCovered(EStore(m, i, va, b)[j])
    {
      assert PagesCovered(m[j]);
    }
  }

  lemma UnmapKeepsCovered(m: Eager, i: nat, page: nat)
    requires ECovered(m) && i < |m|
    ensures ECovered(EUnmapOne(m, i, page))
  {
    forall j: nat | j < |m|
      ensures PagesCovered(EUnmapOne(m, i, page)[j])
    {
      assert PagesCovered(m[j]);
    }
  }

  /** As long as no access hits the end address of an area and no end moves below a page, fork misses
      no page; so the refinement holds along every such run. */
  lemma {:induction false} InRangeRunsRefine(image: Image, states: seq<State>, events: seq<Event>, k: nat)
    requires IsRun(image, states, events) && Inv(states[0]) && ECovered(Abstract(states[0])) && k < |states|
    requires forall l :: 0 <= l < k ==> Mapped(states[l]) && InRange(Abstract(states[l]), events[l])
    ensures Inv(states[k]) && Inv(states[0]) && ECovered(Abstract(states[k]))
    ensures Abstract(states[k]) == EagerRun(image, Abstract(states[0]), events[..k])
  {
    if k > 0 {
      InRangeRunsRefine(image, states, events, k - 1);
      var s, e := states[k - 1], events[k - 1];
      assert Next(image, s, e, states[k]);
      if e.ForkOf? { CoveredMeansCovered(s, e.proc); }
      StepRefines(image, s, e);
      EagerStepKeepsCovered(image, s, e);
      assert events[..k][..k - 1] == events[..k - 1];
    }
  }

  // ---------------------------------------------------------------- an access at the end address

  /** A process whose only area is one anonymous, writable page; the same process with the page
      behind the area's end mapped and holding a 7. */
  function OneArea(): Vma { Vma(0, 4096, 0, 0, VmFlags(true, true, false, true)) }

  function Untouched(): State { State([Proc([OneArea()], map[])], map[]) }

  function Faulted(f: nat, data: Page): State {
    State([Proc([OneArea()], map[1 := Pte(f, PermsOf(OneArea()))])], map[f := Frame(2, data)])
  }

  lemma FaultAtEnd(image: Image, f: nat)
    ensures Fault(image, Untouched(), 0, 4096, Store, f) == Faulted(f, ZeroPage())
  {
    assert FindVma([OneArea()], 4096) == Some(OneArea());
  }

  lemma StoreAtEnd(f: nat)
    ensures CanStore(Faulted(f, ZeroPage()), 0, 4096) && MapsFrames(Faulted(f, ZeroPage()), 0)
    ensures Poke(Faulted(f, ZeroPage()), 0, 4096, 7) == Faulted(f, ZeroPage()[0 := 7])
  {}

  lemma ForkAtEnd(f: nat, data: Page)
    ensures MapsFrames(Faulted(f, data), 0) && Fork(Faulted(f, data), 0) == Spawn(Faulted(f, data), 0)
  {
    var s := Faulted(f, data);
    assert PagesFrom(4096, 4096) == [] && PagesFrom(0, 4096) == [0] + PagesFrom(4096, 4096);
    assert ForkOrder([OneArea()]) == PagesFrom(0, 4096) + ForkOrder([]);
    assert ForkOrder([OneArea()]) == [0];
    assert ForkOne(Spawn(s, 0), 0, 1, 0) == Spawn(s, 0);
    assert ForkPages(Spawn(s, 0), 0, 1, []) == Spawn(s, 0);
    assert [0][1..] == [];
  }

  /** What goes wrong without that restriction: a process stores at the end address of its only area,
      which `find_vma` accepts, and forks.  The parent sees its store, the child has lost the page. */
  lemma StoreAtAreaEndIsLostByFork(image: Image, f: nat)
    ensures var events := [FaultAt(0, 4096, Store, f), StoreAt(0, 4096, 7), ForkOf(0)];
            var s1, s2 := Faulted(f, ZeroPage()), Faulted(f, ZeroPage()[0 := 7]);
            var s3 := Spawn(s2, 0);
            IsRun(image, [Untouched(), s1, s2, s3], events) && Inv(Untouched()) && Inv(s3)
            && View(s3, 0).pages == map[1 := ZeroPage()[0 := 7]] && View(s3, 1).pages == map[]
  {
    var events := [FaultAt(0, 4096, Store, f), StoreAt(0, 4096, 7), ForkOf(0)];
    var s1, s2 := Faulted(f, ZeroPage()), Faulted(f, ZeroPage()[0 := 7]);
    var s3 := Spawn(s2, 0);
    BootIsFine([OneArea()]);
    FaultAtEnd(image, f);
    StoreAtEnd(f);
    ForkAtEnd(f, ZeroPage()[0 := 7]);
    SpawnedViews(f, ZeroPage()[0 := 7]);
    hide Fault, Fork, Poke, Inv, View, Spawn, Faulted;
    var states := [Untouched(), s1, s2, s3];
    assert Mapped(Untouched()) && Mapped(s1) && Mapped(s2) by { OneProcMapped(f); }
    assert Next(image, states[0], events[0], states[1]);
    assert Next(image, states[1], events[1], states[2]);
    assert Next(image, states[2], events[2], states[3]);
    RunKeepsInv(image, states, events, 3);
  }

  lemma OneProcMapped(f: nat)
    ensures Mapped(Untouched()) && |Untouched().procs| == 1 && f !in Untouched().frames
    ensures forall data :: Mapped(Faulted(f, data)) && |Faulted(f, data).procs| == 1
  {}

  lemma SpawnedViews(f: nat, data: Page)
    ensures var t := Spawn(Faulted(f, data), 0);
            |t.procs| == 2 && MapsFrames(t, 0) && MapsFrames(t, 1)
            && View(t, 0).pages == map[1 := data] && View(t, 1).pages == map[]
  {}

  // ---------------------------------------------------------------- a break that shrinks and grows again

  /** A process whose only area is its heap; the same with the fifth page mapped and holding `data`. */
  function HeapArea(end: nat): Vma { Vma(0x1000, end, 0, 0, VmFlags(true, true, false, true)) }

  function EmptyHeap(end: nat): State { State([Proc([HeapArea(end)], map[])], map[]) }

  function HeldPage(end: nat, f: nat, data: Page): State {
    State([Proc([HeapArea(end)], map[5 := Pte(f, PermsOf(HeapArea(0x1000)))])], map[f := Frame(2, data)])
  }

  /** What `sys_brk` does for five pages up, four pages down, a store to the fifth page, and one page up
      again; then the process forks. */
  function BrkEvents(f: nat): seq<Event> {
    [MoveEnd(0, 0, 0x6000),
     MoveEnd(0, 0, 0x6000), UnmapPage(0, 2, f), UnmapPage(0, 3, f), UnmapPage(0, 4, f), UnmapPage(0, 5, f),
     FaultAt(0, 0x5000, Store, f), StoreAt(0, 0x5000, 7),
     MoveEnd(0, 0, 0x3000), ForkOf(0)]
  }

  function BrkStates(f: nat): seq<State> {
    var grown := EmptyHeap(0x6000);
    var written := ZeroPage()[0 := 7];
    [EmptyHeap(0x1000), grown, grown, grown, grown, grown, grown,
     HeldPage(0x6000, f, ZeroPage()), HeldPage(0x6000, f, written), HeldPage(0x3000, f, written),
     Spawn(HeldPage(0x3000, f, written), 0)]
  }

  lemma FaultOnHeap(image: Image, f: nat)
    ensures Fault(image, EmptyHeap(0x6000), 0, 0x5000, Store, f) == HeldPage(0x6000, f, ZeroPage())
  {
    assert FindVma([HeapArea(0x6000)], 0x5000) == Some(HeapArea(0x6000));
  }

  lemma StoreOnHeap(f: nat)
    ensures var s := HeldPage(0x6000, f, ZeroPage());
            MapsFrames(s, 0) && CanStore(s, 0, 0x5000)
              && Poke(s, 0, 0x5000, 7) == HeldPage(0x6000, f, ZeroPage()[0 := 7])
  {}

  lemma ForkOnHeap(f: nat, data: Page)
    ensures var s := HeldPage(0x3000, f, data); MapsFrames(s, 0) && Fork(s, 0) == Spawn(s, 0)
  {
    var s := HeldPage(0x3000, f, data);
    assert PagesFrom(0x3000, 0x3000) == [] && PagesFrom(0x2000, 0x3000) == [2] + PagesFrom(0x3000, 0x3000);
    assert PagesFrom(0x1000, 0x3000) == [1] + PagesFrom(0x2000, 0x3000);
    assert ForkOrder([HeapArea(0x3000)]) == PagesFrom(0x1000, 0x3000) + ForkOrder([]);
    assert ForkOrder([HeapArea(0x3000)]) == [1, 2];
    SkippedPages(Spawn(s, 0), [1, 2]);
  }

  lemma {:induction false} SkippedPages(s: State, pages: seq<nat>)
    requires |s.procs| == 2 && MapsFrames(s, 0) && forall p :: p in pages ==> p !in s.procs[0].pt
    ensures ForkPages(s, 0, 1, pages) == s
    decreases |pages|
  {
    if pages != [] {
      assert pages[0] in pages && forall p :: p in pages[1..] ==> p in pages;
      SkippedPages(s, pages[1..]);
    }
  }

  /** Heap states may take every step of the run: they are mapped and have one process. */
  lemma HeapStatesFit(f: nat)
    ensures forall end :: Mapped(EmptyHeap(end)) && |EmptyHeap(end).procs| == 1 && f !in EmptyHeap(end).frames
    ensures forall end, data :: Mapped(HeldPage(end, f, data)) && |HeldPage(end, f, data).procs| == 1
    ensures forall end :: end >= 0x1000 ==> VmasOk([HeapArea(end)])
  {}

  lemma BrkRun(image: Image, f: nat)
    ensures IsRun(image, BrkStates(f), BrkEvents(f))
  {
    FaultOnHeap(image, f);
    StoreOnHeap(f);
    ForkOnHeap(f, ZeroPage()[0 := 7]);
    HeapMoves(image, f, ZeroPage()[0 := 7]);
    HeapStatesFit(f);
    hide Fault, Fork, Poke, Spawn, HeldPage, EmptyHeap, Mapped, CanStore;
    var states, events := BrkStates(f), BrkEvents(f);
    forall k | 0 <= k < |events|
      ensures Next(image, states[k], events[k], states[k + 1])
    {}
  }

  lemma HeapMoves(image: Image, f: nat, data: Page)
    ensures Next(image, EmptyHeap(0x1000), MoveEnd(0, 0, 0x6000), EmptyHeap(0x6000))
    ensures Next(image, EmptyHeap(0x6000), MoveEnd(0, 0, 0x6000), EmptyHeap(0x6000))
    ensures Next(image, HeldPage(0x6000, f, data), MoveEnd(0, 0, 0x3000), HeldPage(0x3000, f, data))
    ensures forall p :: Next(image, EmptyHeap(0x6000), UnmapPage(0, p, f), EmptyHeap(0x6000))
  {
    MoveHeap(map[], map[], 0x1000, 0x6000);
    MoveHeap(map[], map[], 0x6000, 0x6000);
    MoveHeap(map[5 := Pte(f, PermsOf(HeapArea(0x1000)))], map[f := Frame(2, data)], 0x6000, 0x3000);
  }

  lemma MoveHeap(pt: map<nat, Pte>, frames: map<nat, Frame>, from: nat, to: nat)
    ensures SetEnd(State([Proc([HeapArea(from)], pt)], frames), 0, 0, to) == State([Proc([HeapArea(to)], pt)], frames)
    ensures [HeapArea(from)][0 := HeapArea(from).(end := to)] == [HeapArea(to)]
  {
    assert [HeapArea(from)][0 := HeapArea(from).(end := to)] == [HeapArea(to)];
    assert [Proc([HeapArea(from)], pt)][0 := Proc([HeapArea(to)], pt)] == [Proc([HeapArea(to)], pt)];
  }

  /** What comes of `do_vma_munmap` leaving the end where it was: every access of this run is below the
      end of its area, yet the child has lost the page that its parent still sees. */
  lemma StoreBehindBreakIsLostByFork(image: Image, f: nat)
    ensures var states, events := BrkStates(f), BrkEvents(f);
            && IsRun(image, states, events) && Inv(states[0]) && Inv(states[10])
            && FindVma([HeapArea(0x6000)], 0x5000) == Some(HeapArea(0x6000)) && 0x5000 < HeapArea(0x6000).end
            && View(states[10], 0).pages == map[5 := ZeroPage()[0 := 7]] && View(states[10], 1).pages == map[]
  {
    BrkRun(image, f);
    BootIsFine([HeapArea(0x1000)]);
    assert FindVma([HeapArea(0x6000)], 0x5000) == Some(HeapArea(0x6000));
    RunKeepsInv(image, BrkStates(f), BrkEvents(f), 10);
    HeldViews(f, ZeroPage()[0 := 7]);
  }

  lemma HeldViews(f: nat, data: Page)
    ensures var t := Spawn(HeldPage(0x3000, f, data), 0);
            |t.procs| == 2 && MapsFrames(t, 0) && MapsFrames(t, 1)
            && View(t, 0).pages == map[5 := data] && View(t, 1).pages == map[]
  {}

  // ---------------------------------------------------------------- stores

  /** No store by one process is visible to another. */
  lemma StoreIsPrivate(image: Image, s: State, i: nat, va: nat, b: byte, j: nat)
    requires Inv(s) && CanStore(s, i, va) && j < |s.procs| && j != i
    ensures Mapped(s) && Mapped(Step(image, s, StoreAt(i, va, b)))
    ensures View(Step(image, s, StoreAt(i, va, b)), j) == View(s, j)
  {
    PokeStep(s, i, va, b);
    ViewIsAbstract(s, j);
    ViewIsAbstract(Step(image, s, StoreAt(i, va, b)), j);
  }

  /** A permitted store fault leaves the page writable and mapped nowhere else, so that the store
      succeeds when it is retried. */
  lemma StoreFaultGrantsStore(image: Image, s: State, i: nat, va: nat, f: nat)
    requires Inv(s) && i < |s.procs| && f !in s.frames
    requires FindVma(s.procs[i].vmas, va).Some? && FindVma(s.procs[i].vmas, va).value.flags.write
    ensures Mapped(s)
    ensures var t := Step(image, s, FaultAt(i, va, Store, f));
            CanStore(t, i, va) && Mappers(t, t.procs[i].pt[va / 4096].ppn) == {(i, va / 4096)}
  {
    assert MapsFrames(s, i) && ProcOk(s, i);
    FaultStep(image, s, i, va, Store, f);
    FaultedFlags(image, s, i, va, f);
    hide FindVma, ProcOk, CountsOk, Fault, Mappers;
    var t := Fault(image, s, i, va, Store, f);
    assert PrivateOk(t);
  }

  lemma FaultedFlags(image: Image, s: State, i: nat, va: nat, f: nat)
    requires Inv(s) && i < |s.procs| && MapsFrames(s, i) && ProcOk(s, i)
    requires FindVma(s.procs[i].vmas, va).Some? && FindVma(s.procs[i].vmas, va).value.flags.write
    ensures var t := Fault(image, s, i, va, Store, f);
            |t.procs| == |s.procs| && va / 4096 in t.procs[i].pt
            && t.procs[i].pt[va / 4096].flags.v && t.procs[i].pt[va / 4096].flags.w && t.procs[i].pt[va / 4096].flags.u
  {
    hide Mappers, CountsOk, PrivateOk, FindVma;
    var vma, page := FindVma(s.procs[i].vmas, va).value, va / 4096;
    FindVmaIsMember(s.procs[i].vmas, va);
    AddressIsSpanned(s.procs[i].vmas, vma, va);
    if page in s.procs[i].pt {
      MappedIsCounted(s, i, page);
      PresentFlags(s, i, page, vma);
    }
  }

  /** A load fault in a readable area leaves the page readable. */
  lemma LoadFaultGrantsLoad(image: Image, s: State, i: nat, va: nat, f: nat)
    requires Inv(s) && i < |s.procs| && f !in s.frames
    requires FindVma(s.procs[i].vmas, va).Some? && FindVma(s.procs[i].vmas, va).value.flags.read
    ensures Mapped(s)
    ensures var t := Step(image, s, FaultAt(i, va, Load, f));
            |t.procs| == |s.procs| && va / 4096 in t.procs[i].pt
            && var g := t.procs[i].pt[va / 4096].flags; g.v && g.r && g.u
  {
    assert MapsFrames(s, i) && ProcOk(s, i);
    FaultedEntry(image, s, i, va, Load, f);
  }

  /** A fetch fault in an executable area leaves the page executable. */
  lemma FetchFaultGrantsFetch(image: Image, s: State, i: nat, va: nat, f: nat)
    requires Inv(s) && i < |s.procs| && f !in s.frames
    requires FindVma(s.procs[i].vmas, va).Some? && FindVma(s.procs[i].vmas, va).value.flags.exec
    ensures Mapped(s)
    ensures var t := Step(image, s, FaultAt(i, va, Fetch, f));
            |t.procs| == |s.procs| && va / 4096 in t.procs[i].pt
            && var g := t.procs[i].pt[va / 4096].flags; g.v && g.x && g.u
  {
    assert MapsFrames(s, i) && ProcOk(s, i);
    FaultedEntry(image, s, i, va, Fetch, f);
  }

  /** An access that no area allows changes nothing: there is none at the address, or the one there lacks
      VM_READ for a load, VM_WRITE for a store, VM_EXEC for a fetch. */
  lemma RefusedFaultChangesNothing(image: Image, s: State, i: nat, va: nat, cause: Cause, f: nat)
    requires Inv(s) && i < |s.procs| && f !in s.frames
    requires FindVma(s.procs[i].vmas, va).Some? ==>
               var g := FindVma(s.procs[i].vmas, va).value.flags;
               (cause == Load && !g.read) || (cause == Store && !g.write) || (cause == Fetch && !g.exec)
    ensures Mapped(s) && Step(image, s, FaultAt(i, va, cause, f)) == s
  {
    hide FindVma;
  }

  /** The entry after a fault that is allowed is one of the area, with the flags of the area. */
  lemma FaultedEntry(image: Image, s: State, i: nat, va: nat, cause: Cause, f: nat)
    requires Inv(s) && i < |s.procs| && MapsFrames(s, i) && ProcOk(s, i)
    requires FindVma(s.procs[i].vmas, va).Some? && Permits(FindVma(s.procs[i].vmas, va).value, cause)
    ensures var t := Fault(image, s, i, va, cause, f);
            |t.procs| == |s.procs| && va / 4096 in t.procs[i].pt
            && FlagsOk(FindVma(s.procs[i].vmas, va).value, t.procs[i].pt[va / 4096].flags)
  {
    hide Mappers, CountsOk, PrivateOk, FindVma;
    var vma, page := FindVma(s.procs[i].vmas, va).value, va / 4096;
    FindVmaIsMember(s.procs[i].vmas, va);
    AddressIsSpanned(s.procs[i].vmas, vma, va);
    if page in s.procs[i].pt {
      MappedIsCounted(s, i, page);
      PresentFlags(s, i, page, vma);
    }
  }

  /** The byte at an address of a process. */
  function ByteSeen(p: EProc, va: nat): Option<byte> {
    if va / 4096 in p.pages then Some(p.pages[va / 4096][va % 4096]) else None
  }

  /** A store is seen at its address, and at no other. */
  lemma StoreIsSeen(image: Image, s: State, i: nat, va: nat, b: byte, wa: nat)
    requires Inv(s) && Enabled(s, StoreAt(i, va, b))
    ensures var t := Step(image, s, StoreAt(i, va, b));
            Mapped(s) && Mapped(t) && |t.procs| == |s.procs|
            && ByteSeen(View(t, i), wa) == if wa == va then Some(b) else ByteSeen(View(s, i), wa)
  {
    assert MapsFrames(s, i);
    PokeStep(s, i, va, b);
    ViewIsAbstract(s, i);
    ViewIsAbstract(Poke(s, i, va, b), i);
  }

  /** A fault changes no byte that the process sees already; a page it brings into an anonymous area
      holds zeros. */
  lemma FaultKeepsBytes(image: Image, s: State, i: nat, va: nat, cause: Cause, f: nat, wa: nat)
    requires Inv(s) && i < |s.procs| && f !in s.frames
    ensures var t := Step(image, s, FaultAt(i, va, cause, f));
            Mapped(s) && Mapped(t) && |t.procs| == |s.procs|
            && (ByteSeen(View(s, i), wa).Some? ==> ByteSeen(View(t, i), wa) == ByteSeen(View(s, i), wa))
            && (FindVma(s.procs[i].vmas, va).Some? && FindVma(s.procs[i].vmas, va).value.flags.anon
                && ByteSeen(View(s, i), va).None? && ByteSeen(View(t, i), va).Some? ==>
                  ByteSeen(View(t, i), va) == Some(0))
  {
    assert MapsFrames(s, i);
    FaultStep(image, s, i, va, cause, f);
    ViewIsAbstract(s, i);
    ViewIsAbstract(Fault(image, s, i, va, cause, f), i);
  }

  /** A present page's flags are those of the one area it lies in. */
  lemma PresentFlags(s: State, i: nat, page: nat, vma: Vma)
    requires i < |s.procs| && ProcOk(s, i) && page in s.procs[i].pt
    requires vma in s.procs[i].vmas && Spans(vma, page)
    ensures FlagsOk(vma, s.procs[i].pt[page].flags)
  {
    var v :| Owns(s.procs[i].vmas, v, page) && FlagsOk(v, s.procs[i].pt[page].flags);
    SpanningOwns(s.procs[i].vmas, vma, page);
    OneOwner(s.procs[i].vmas, v, vma, page);
  }

  /** Frames stay allocated for good: a step never releases one, and every user frame's count is 1
      plus the number of entries that map it. */
  lemma FramesAreNeverRecycled(image: Image, s: State, e: Event)
    requires Inv(s) && Enabled(s, e)
    ensures Mapped(s) && s.frames.Keys <= Step(image, s, e).frames.Keys
    ensures forall f :: f in Step(image, s, e).frames ==>
              Step(image, s, e).frames[f].count == 1 + |Mappers(Step(image, s, e), f)|
  {
    hide Abstract, EagerStep, ProcOk, PrivateOk, MapsFrames, Mappers, Step;
    StepRefines(image, s, e);
    StepKeepsFrames(image, s, e);
    assert CountsOk(Step(image, s, e));
  }

  lemma StepKeepsFrames(image: Image, s: State, e: Event)
    requires Mapped(s) && Enabled(s, e)
    ensures s.frames.Keys <= Step(image, s, e).frames.Keys
  {
    hide FindVma, Loaded, PermsOf;
    match e
    case ForkOf(i) =>
      assert MapsFrames(s, i) && MapsFrames(Spawn(s, i), i);
      ForkKeepsFrames(Spawn(s, i), i, |s.procs|, ForkOrder(s.procs[i].vmas));
    case _ =>
  }

  lemma {:induction false} ForkKeepsFrames(s: State, parent: nat, child: nat, pages: seq<nat>)
    requires parent < |s.procs| && child < |s.procs| && MapsFrames(s, parent)
    ensures s.frames.Keys <= ForkPages(s, parent, child, pages).frames.Keys
    decreases |pages|
  {
    if pages != [] {
      ForkOneKeepsFrames(s, parent, child, pages[0]);
      ForkKeepsFrames(ForkOne(s, parent, child, pages[0]), parent, child, pages[1..]);
    }
  }
}
