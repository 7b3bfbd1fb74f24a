/** What `sys_brk` means for the process that calls it. */
module BrkTheorems {
  import opened Words
  import opened Wrappers
  import opened CowSpec
  import opened CowProof
  import opened KernelSpec
  import opened KernelSteps
  import CowTheorems

  /** A request that is granted answers with itself and is what the next call with 0 reports, to the page;
      one below the heap's start answers with the old break, which stays. */
  lemma BrkAnswers(t0: Task, t1: Task, t2: Task, brk: word, r: nat, r2: nat)
    requires BrkResult(t0, t1, brk, r) && BrkResult(t1, t2, 0, r2) && brk != 0
    ensures RoundUp(brk) >= t0.startBrk ==> r == brk && r2 == RoundUp(brk)
    ensures RoundUp(brk) < t0.startBrk ==> r == t0.brk && r2 == RoundUp(t0.brk)
    ensures t2 == t1
  {}

  /** After the heap has grown, every address up to the page of the new break is in the heap. */
  lemma GrownHeapIsUsable(image: Image, task: Task, i: nat, k: nat, brk: word, s: State, states: seq<State>,
                          events: seq<Event>, t: State, va: nat)
    requires Inv(s) && i < |s.procs| && s.procs[i].vmas == task.vmas && HeapAt(task, k)
    requires BrkDone(image, task, i, k, brk, s, states, events, t) && RoundUp(brk) > RoundUp(task.brk)
    requires task.startBrk <= va < RoundUp(brk)
    ensures i < |t.procs| && FindVma(t.procs[i].vmas, va).Some?
    ensures FindVma(t.procs[i].vmas, va).value.flags == task.vmas[k].flags
  {
    hide RoundUp, CountsOk, PrivateOk;
    RoundUpIsAbove(0);
    var heap := task.vmas[k].(end := RoundUp(brk));
    assert ProcOk(s, i);
    var vmas := task.vmas[k := heap];
    assert t.procs[i].vmas == vmas && vmas[k] == heap;
    FindVmaFinds(vmas, va, k);
    FindVmaIsMember(vmas, va);
    AreaIsUnique(vmas, FindVma(vmas, va).value, heap, va, 0);
  }

  /** After it has shrunk, exactly the pages from the new break to the old one are gone, and other processes
      keep theirs. */
  lemma ShrunkHeapIsGone(image: Image, task: Task, i: nat, k: nat, brk: word, s: State, states: seq<State>,
                         events: seq<Event>, t: State, page: nat)
    requires Inv(s) && i < |s.procs| && s.procs[i].vmas == task.vmas && HeapAt(task, k)
    requires BrkDone(image, task, i, k, brk, s, states, events, t) && brk != 0
    requires task.startBrk <= RoundUp(brk) < RoundUp(task.brk)
    ensures |t.procs| == |s.procs|
    ensures page in t.procs[i].pt.Keys
       <==> page in s.procs[i].pt.Keys && !(RoundUp(brk) <= page * 4096 < RoundUp(task.brk))
    ensures forall j :: 0 <= j < |s.procs| && j != i ==> t.procs[j].pt.Keys == s.procs[j].pt.Keys
  {
    hide CountsOk, PrivateOk, ProcOk, VmasOk;
    RoundedIsAligned(brk);
    var pages := PagesFrom(RoundUp(brk), RoundUp(task.brk));
    PagesFromMember(RoundUp(brk), RoundUp(task.brk), page);
    UnmapRunClears(image, states, events, i, pages);
    assert page in pages <==> page in (set n | 0 <= n < |pages| :: pages[n]);
  }

  lemma RoundedIsAligned(a: nat)
    ensures RoundUp(a) % 4096 == 0
  {}
}
