/** What the allocator's operations mean, as relations between abstract states: the allocated
    nodes of the tree and the reference count of every frame. */
module BuddySpec {
  import opened Words
  import opened FixSize
  import opened BuddyTree

  datatype State = State(size: nat, used: set<nat>, refs: seq<nat>)

  /** The block a request for `n` pages is rounded to. */
  function Rounded(n: nat): nat {
    if n == 0 then 1 else Pow2(BitLength(n - 1))
  }

  /** `p` is the first frame of an allocated block. */
  ghost predicate BlockStart(size: nat, used: set<nat>, p: nat) {
    exists n :: n in used && Start(size, n) == p
  }

  /** Counted frames are exactly the first frames of allocated blocks. */
  ghost predicate Consistent(s: State) {
    && WellFormed(s.size, s.used)
    && |s.refs| == s.size
    && forall p :: 0 <= p < s.size ==> (s.refs[p] > 0 <==> BlockStart(s.size, s.used, p))
  }

  /** The bitmap that stands for a set of allocated nodes: the right entry for every node, and zero in
      the last element, which belongs to none. */
  ghost predicate Represents(size: nat, used: set<nat>, bitmap: seq<nat>) {
    && |bitmap| == 2 * size > 0 && bitmap[2 * size - 1] == 0
    && forall i :: 0 <= i && IsNode(size, i) ==> bitmap[i] == Expected(size, used, i)
  }

  /** `n` is the lowest free block of `want` frames. */
  ghost predicate LowestFit(size: nat, used: set<nat>, want: nat, n: nat) {
    && Free(size, used, n) && NodeSize(size, n) == want
    && forall j :: Free(size, used, j) && NodeSize(size, j) == want ==> Start(size, n) <= Start(size, j)
  }

  ghost predicate NoFit(size: nat, used: set<nat>, want: nat) {
    forall j :: Free(size, used, j) ==> NodeSize(size, j) != want
  }

  /** Allocating block `n`. */
  function Insert(s: State, n: nat): State
    requires Start(s.size, n) < |s.refs|
  {
    s.(used := s.used + {n}, refs := s.refs[Start(s.size, n) := 1])
  }

  ghost predicate Allocates(s: State, want: nat, t: State, pfn: nat) {
    pfn < |s.refs| && exists n ::
      LowestFit(s.size, s.used, want, n) && Start(s.size, n) == pfn && t == Insert(s, n)
  }

  ghost predicate AddsRef(s: State, pfn: nat, t: State) {
    pfn < |s.refs| && t == if s.refs[pfn] == 0 then s else s.(refs := s.refs[pfn := s.refs[pfn] + 1])
  }

  ghost predicate DropsRef(s: State, pfn: nat, t: State) {
    && pfn < |s.refs|
    && (s.refs[pfn] == 0 ==> t == s)
    && (s.refs[pfn] > 1 ==> t == s.(refs := s.refs[pfn := s.refs[pfn] - 1]))
    && (s.refs[pfn] == 1 ==> exists n :: n in s.used && Start(s.size, n) == pfn && t == Remove(s, n))
  }

  /** Releasing block `n`. */
  function Remove(s: State, n: nat): State
    requires Start(s.size, n) < |s.refs|
  {
    s.(used := s.used - {n}, refs := s.refs[Start(s.size, n) := 0])
  }

  datatype Op = GetPages(count: nat, result: nat) | RefPage(pfn: nat) | DerefPage(pfn: nat)

  ghost predicate Next(s: State, op: Op, t: State) {
    match op
    case GetPages(count, result) => Allocates(s, Rounded(count), t, result)
    case RefPage(pfn) => AddsRef(s, pfn, t)
    case DerefPage(pfn) => DropsRef(s, pfn, t)
  }

  /** A run of successful operations, one state longer than its operations. */
  ghost predicate IsRun(states: seq<State>, ops: seq<Op>) {
    |states| == |ops| + 1 && forall k :: 0 <= k < |ops| ==> Next(states[k], ops[k], states[k + 1])
  }

  // ---------------------------------------------------------------- what the relations keep

  lemma RoundedIsLeast(n: nat)
    ensures LeastPow2AtLeast(Rounded(n), if n == 0 then 1 else n)
  {
    if n > 0 { LeastAbove(n - 1, BitLength(n - 1)); }
  }

  /** First frames identify allocated blocks. */
  lemma StartIsUnique(size: nat, used: set<nat>, m: nat, n: nat)
    requires WellFormed(size, used) && m in used && n in used && Start(size, m) == Start(size, n)
    ensures m == n
  {
    SizeFacts(size, m);
    SizeFacts(size, n);
    if NodeSize(size, m) <= NodeSize(size, n) {
      InsideIsUnder(size, n, m);
      OneCoveringNode(size, used, m, n, m);
    } else {
      InsideIsUnder(size, m, n);
      OneCoveringNode(size, used, m, n, n);
    }
  }

  /** A free block does not start where an allocated one does. */
  lemma FreeIsNotBlockStart(size: nat, used: set<nat>, n: nat)
    requires WellFormed(size, used) && Free(size, used, n)
    ensures !BlockStart(size, used, Start(size, n))
  {
    if BlockStart(size, used, Start(size, n)) {
      var m :| m in used && Start(size, m) == Start(size, n);
      SizeFacts(size, m);
      SizeFacts(size, n);
      if NodeSize(size, m) <= NodeSize(size, n) {
        InsideIsUnder(size, n, m);
        OccupiedBy(size, used, n, m);
      } else {
        InsideIsUnder(size, m, n);
        CoveredBy(used, m, n);
      }
    }
  }

  lemma StartInRange(size: nat, n: nat)
    requires IsPow2(size) && IsNode(size, n)
    ensures Start(size, n) < size
  {
    StartFormula(size, n);
    SizeFacts(size, n);
  }

  lemma InsertKeepsConsistent(s: State, n: nat)
    requires Consistent(s) && Free(s.size, s.used, n)
    ensures Start(s.size, n) < s.size && Consistent(Insert(s, n))
  {
    StartInRange(s.size, n);
    InsertKeepsWellFormed(s.size, s.used, n);
    var t := Insert(s, n);
    forall p | 0 <= p < s.size
      ensures t.refs[p] > 0 <==> BlockStart(s.size, t.used, p)
    {
      if BlockStart(s.size, s.used, p) {
        var m :| m in s.used && Start(s.size, m) == p;
        assert m in t.used;
      }
      if p == Start(s.size, n) { assert n in t.used; }
    }
  }

  lemma RemoveKeepsConsistent(s: State, n: nat)
    requires Consistent(s) && n in s.used
    ensures Start(s.size, n) < s.size && Consistent(Remove(s, n))
  {
    var p := Start(s.size, n);
    StartInRange(s.size, n);
    var t := Remove(s, n);
    RemoveKeepsWellFormed(s.size, s.used, n);
    forall q | 0 <= q < s.size
      ensures t.refs[q] > 0 <==> BlockStart(s.size, t.used, q)
    {
      if BlockStart(s.size, s.used, q) {
        var m :| m in s.used && Start(s.size, m) == q;
        if m != n { assert m in t.used; }
      }
      if q == p && BlockStart(s.size, t.used, q) {
        var m :| m in t.used && Start(s.size, m) == q;
        StartIsUnique(s.size, s.used, m, n);
      }
    }
  }

  lemma NextKeepsConsistent(s: State, op: Op, t: State)
    requires Consistent(s) && Next(s, op, t)
    ensures Consistent(t) && t.size == s.size
  {
    match op
    case GetPages(count, result) =>
      var n :| LowestFit(s.size, s.used, Rounded(count), n) && Start(s.size, n) == result && t == Insert(s, n);
      InsertKeepsConsistent(s, n);
    case RefPage(pfn) =>
    case DerefPage(pfn) =>
      if s.refs[pfn] == 1 {
        var n :| n in s.used && Start(s.size, n) == pfn && t == Remove(s, n);
        RemoveKeepsConsistent(s, n);
      }
  }

  /** Every reachable state is consistent. */
  lemma {:induction false} RunKeepsConsistent(states: seq<State>, ops: seq<Op>, k: nat)
    requires IsRun(states, ops) && Consistent(states[0]) && k < |states|
    ensures Consistent(states[k]) && states[k].size == states[0].size
  {
    if k > 0 {
      RunKeepsConsistent(states, ops, k - 1);
      assert Next(states[k - 1], ops[k - 1], states[k]);
      NextKeepsConsistent(states[k - 1], ops[k - 1], states[k]);
    }
  }

  // ---------------------------------------------------------------- frames, not nodes

  /** Frame `p` belongs to the block of node `n`. */
  predicate InBlock(size: nat, n: nat, p: nat) {
    Start(size, n) <= p < Start(size, n) + NodeSize(size, n)
  }

  /** Allocated blocks are aligned runs of a power of two of frames, pairwise disjoint. */
  lemma BlocksAreDisjointAndAligned(s: State, m: nat, n: nat, p: nat)
    requires Consistent(s) && m in s.used && n in s.used
    ensures IsPow2(NodeSize(s.size, m)) && Start(s.size, m) + NodeSize(s.size, m) <= s.size
    ensures Start(s.size, m) % NodeSize(s.size, m) == 0
    ensures m != n ==> !(InBlock(s.size, m, p) && InBlock(s.size, n, p))
  {
    SizeFacts(s.size, m);
    SizeFacts(s.size, n);
    StartFormula(s.size, m);
    StartFormula(s.size, n);
    StartIsAligned(s.size, m);
    if m != n && InBlock(s.size, m, p) && InBlock(s.size, n, p) {
      var leaf := FrameLeaf(s.size, m, p);
      leaf := FrameLeaf(s.size, n, p);
      OneCoveringNode(s.size, s.used, m, n, leaf);
    }
  }

  lemma StartIsAligned(size: nat, n: nat)
    requires IsPow2(size) && IsNode(size, n)
    ensures NodeSize(size, n) > 0 && Start(size, n) % NodeSize(size, n) == 0
  {
    var s := NodeSize(size, n);
    SizeFacts(size, n);
    StartFormula(size, n);
    Pow2Multiple(size, s);
    Arith.DivFacts(size, s);
    var q := size / s;
    Arith.MulSub(n + 1, q, s);
    Arith.DivUnique(Start(size, n), s, n + 1 - q, 0);
  }

  /** The leaf of a frame lies below every node whose block holds the frame. */
  lemma FrameLeaf(size: nat, n: nat, p: nat) returns (leaf: nat)
    requires IsPow2(size) && IsNode(size, n) && InBlock(size, n, p)
    ensures leaf == p + size - 1 && IsNode(size, leaf) && Under(n, leaf)
    ensures Start(size, leaf) == p && NodeSize(size, leaf) == 1
  {
    StartFormula(size, n);
    leaf := p + size - 1;
    LeafFacts(size, p);
    SizeFacts(size, n);
    InsideIsUnder(size, n, leaf);
  }

  lemma LeafFacts(size: nat, p: nat)
    requires IsPow2(size) && p < size
    ensures IsNode(size, p + size - 1) && IsLeaf(size, p + size - 1)
    ensures Start(size, p + size - 1) == p && NodeSize(size, p + size - 1) == 1
  {
    SizeFacts(size, p + size - 1);
    StartFormula(size, p + size - 1);
  }

  /** A node is free exactly when none of its frames is allocated: the tree's notion of a free
      block is that of aligned runs of frames. */
  lemma FreeMeansNoFrameAllocated(s: State, i: nat)
    requires Consistent(s) && IsNode(s.size, i)
    ensures Free(s.size, s.used, i)
       <==> forall p, n :: n in s.used && InBlock(s.size, i, p) ==> !InBlock(s.size, n, p)
  {
    SizeFacts(s.size, i);
    StartFormula(s.size, i);
    if Free(s.size, s.used, i) {
      forall p, n | n in s.used && InBlock(s.size, i, p)
        ensures !InBlock(s.size, n, p)
      {
        if InBlock(s.size, n, p) {
          var leaf := FrameLeaf(s.size, i, p);
          leaf := FrameLeaf(s.size, n, p);
          FreeBelow(s.size, s.used, i, leaf);
          CoveredBy(s.used, n, leaf);
        }
      }
    } else if Covered(s.used, i) {
      var n := CoveringNode(s.used, i);
      UnderIsInside(s.size, n, i);
      assert InBlock(s.size, i, Start(s.size, i)) && InBlock(s.size, n, Start(s.size, i));
    } else {
      var n := OccupyingNode(s.size, s.used, i);
      UnderIsInside(s.size, i, n);
      SizeFacts(s.size, n);
      assert InBlock(s.size, i, Start(s.size, n)) && InBlock(s.size, n, Start(s.size, n));
    }
  }

  /** A live node's bitmap entry is the size of the largest free block below it, or 0. */
  lemma BitmapHoldsLargestFreeBlock(s: State, i: nat)
    requires Consistent(s) && IsNode(s.size, i) && !Covered(s.used, i)
    ensures forall j :: Free(s.size, s.used, j) && Under(i, j) ==> NodeSize(s.size, j) <= Expected(s.size, s.used, i)
    ensures Expected(s.size, s.used, i) > 0 ==>
      exists j :: Free(s.size, s.used, j) && Under(i, j) && NodeSize(s.size, j) == Expected(s.size, s.used, i)
  {
    forall j | Free(s.size, s.used, j) && Under(i, j)
      ensures NodeSize(s.size, j) <= Expected(s.size, s.used, i)
    {
      LongestIsUpperBound(s.size, s.used, i, j);
    }
    if Expected(s.size, s.used, i) > 0 {
      var j := LongestIsAttained(s.size, s.used, i);
    }
  }

  // ---------------------------------------------------------------- freeing undoes allocating

  /** Dropping the only reference of the block just allocated restores the allocator: the same
      blocks, the same counts, and the same bitmap, element by element. */
  lemma FreeUndoesAlloc(s: State, count: nat, pfn: nat, t: State, u: State, before: seq<nat>, after: seq<nat>)
    requires Consistent(s) && Next(s, GetPages(count, pfn), t) && Next(t, DerefPage(pfn), u)
    requires Represents(s.size, s.used, before) && Represents(u.size, u.used, after)
    ensures u == s && after == before
  {
    var n :| LowestFit(s.size, s.used, Rounded(count), n) && Start(s.size, n) == pfn && t == Insert(s, n);
    InsertKeepsConsistent(s, n);
    FreeIsNotBlockStart(s.size, s.used, n);
    var m :| m in t.used && Start(t.size, m) == pfn && u == Remove(t, m);
    StartIsUnique(t.size, t.used, m, n);
    assert u.used == s.used;
    assert u.refs == s.refs;
  }

  /** After any run that leaves no frame referenced, in whatever order the references went, the
      tree is coalesced: every node, the root included, is back to its full size. */
  lemma DrainedTreeIsFull(states: seq<State>, ops: seq<Op>, i: nat)
    requires IsRun(states, ops) && Consistent(states[0])
    requires forall p :: 0 <= p < |states[|ops|].refs| ==> states[|ops|].refs[p] == 0
    requires IsNode(states[0].size, i)
    ensures states[|ops|].used == {}
    ensures Expected(states[0].size, states[|ops|].used, i) == NodeSize(states[0].size, i)
    ensures Expected(states[0].size, states[|ops|].used, 0) == states[0].size
  {
    var t := states[|ops|];
    RunKeepsConsistent(states, ops, |ops|);
    forall n | n in t.used
      ensures false
    {
      StartInRange(t.size, n);
      assert BlockStart(t.size, t.used, Start(t.size, n));
    }
    EmptyTreeIsFull(t.size, i);
    EmptyTreeIsFull(t.size, 0);
  }

  lemma EmptyTreeIsFull(size: nat, i: nat)
    requires IsPow2(size) && IsNode(size, i)
    ensures Expected(size, {}, i) == NodeSize(size, i)
    ensures Free(size, {}, i)
  {
    NothingCovered(i);
    if i > 0 { NothingCovered(Parent(i)); }
    if Occupied(size, {}, i) { var n := OccupyingNode(size, {}, i); }
    LongestBounds(size, {}, i);
  }

  lemma {:induction false} NothingCovered(i: nat)
    ensures !Covered({}, i)
    decreases i
  {
    if i > 0 { NothingCovered(Parent(i)); }
  }
}
