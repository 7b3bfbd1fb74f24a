/** The buddy allocator's code (arch/riscv/kernel/mm.c): two arrays updated in place.

    The reset that the kernel performs when memory runs out is the result `None`. */
module Buddy {
  import opened Wrappers
  import opened Words
  import opened FixSize
  import opened BuddyTree
  import opened BuddySpec

  class Allocator {
    var bitmap: array<nat>
    var refCnt: array<nat>
    var size: nat
    ghost var used: set<nat>

    /** The bitmap is the one its set of allocated nodes determines. */
    ghost predicate TreeValid()
      reads this, bitmap, refCnt
    {
      && WellFormed(size, used)
      && bitmap.Length == 2 * size && refCnt.Length == size && bitmap != refCnt
      && Represents(size, used, bitmap[..])
    }

    ghost function Abstract(): State
      reads this, refCnt
    {
      State(size, used, refCnt[..])
    }

    ghost predicate Valid()
      reads this, bitmap, refCnt
    {
      TreeValid() && Consistent(Abstract())
    }

    /** `buddy_init` up to the reservation loop.  A physical memory of less than 2^64 bytes has
        fewer than 2^52 frames. */
    constructor (frames: word)
      requires 1 <= frames < 0x10_0000_0000_0000
      ensures Valid() && fresh(bitmap) && fresh(refCnt)
      ensures LeastPow2AtLeast(size, frames) && used == {}
      ensures forall p :: 0 <= p < size ==> refCnt[p] == 0
    {
      var sz := RoundPages(frames);
      size := sz;
      used := {};
      bitmap := new nat[2 * sz](_ => 0);
      refCnt := new nat[sz](_ => 0);
      new;
      SizeBelow2To52(frames, sz);
      FillFull();
      forall j | 0 <= j && IsNode(size, j)
        ensures bitmap[..][j] == Expected(size, used, j)
      {
        EmptyTreeIsFull(size, j);
      }
    }

    /** The loop of `buddy_init` that makes every node full, row by row. */
    method FillFull()
      requires IsPow2(size) && size <= 0x10_0000_0000_0000 && bitmap.Length == 2 * size
      modifies bitmap
      ensures forall j :: 0 <= j && IsNode(size, j) ==> bitmap[j] == NodeSize(size, j)
      ensures bitmap[2 * size - 1] == old(bitmap[2 * size - 1])
    {
      SizeFacts(size, 0);
      hide IsPow2, PowerOf2Test, NodeSize;
      var nodeSize: nat := 2 * size;
      var i: nat := 0;
      while i < 2 * size - 1
        invariant 0 <= i <= 2 * size - 1
        invariant nodeSize == if i == 0 then 2 * size else NodeSize(size, i - 1)
        invariant forall j :: 0 <= j < i ==> bitmap[j] == NodeSize(size, j)
        invariant bitmap[2 * size - 1] == old(bitmap[2 * size - 1])
      {
        RowTest(size, i);
        if PowerOf2Test(i + 1) {
          nodeSize := nodeSize / 2;
        }
        bitmap[i] := nodeSize;
        i := i + 1;
      }
    }

    /** The reservation loop of `buddy_init`: `count` single frames.  It reserves exactly the
        lowest `count` frames, or runs out when there are not so many. */
    method ReserveLow(count: nat) returns (ok: bool)
      requires Valid() && used == {}
      modifies this`used, bitmap, refCnt
      ensures ok <==> count <= size
      ensures ok ==> Valid() && used == LowLeaves(size, count)
      ensures ok ==> forall p :: 0 <= p < size ==> (refCnt[p] > 0 <==> p < count)
    {
      hide NoFit, Consistent, BuddySpec.Next, LowLeaves, Expected;
      SizeFacts(size, 0);
      NoLeaves(size);
      var pfn: nat := count;
      while pfn > 0
        invariant 0 <= pfn <= count && count - pfn <= size
        invariant Valid() && used == LowLeaves(size, count - pfn)
      {
        ghost var s := Abstract();
        var r := Alloc(1);
        LowFramesReserved(s, count - pfn);
        if r.None? {
          return false;
        }
        OneReserved(s, Abstract(), r.value, count - pfn);
        pfn := pfn - 1;
      }
      LowLeavesCount(Abstract(), count);
      return true;
    }

    /** `buddy_alloc`.  Above 2^63 pages the rounded size is 0 and the descent leaves the tree. */
    method Alloc(nrpages: word) returns (r: Option<nat>)
      requires Valid() && nrpages <= HALF
      modifies this`used, bitmap, refCnt
      ensures Valid()
      ensures r.None? <==> NoFit(size, old(used), Rounded(nrpages))
      ensures r.None? ==> Abstract() == old(Abstract()) && bitmap[..] == old(bitmap[..])
      ensures r.Some? ==> Next(old(Abstract()), GetPages(nrpages, r.value), Abstract())
    {
      var want := RoundPages(nrpages);
      RoundedIsLeast(nrpages);
      assert want == Rounded(nrpages);
      if bitmap[0] < want {
        NothingLargeEnough(size, used, want);
        return None;
      }
      var n := Descend(want);
      ghost var before := Abstract();
      InsertKeepsConsistent(before, n);
      SizeFacts(size, n);
      StartFormula(size, n);
      var pfn := (n + 1) * want - size;
      PutBlock(n);
      refCnt[pfn] := 1;
      assert Abstract() == Insert(before, n);
      return Some(pfn);
    }

    /** The descent of `buddy_alloc`: to the left whenever the left half is large enough. */
    method Descend(want: nat) returns (index: nat)
      requires TreeValid() && IsPow2(want) && bitmap[0] >= want
      ensures LowestFit(size, used, want, index)
    {
      index := 0;
      var nodeSize := size;
      RootIsLive(size, used, want);
      while nodeSize != want
        invariant IsNode(size, index) && nodeSize == NodeSize(size, index)
        invariant !Covered(used, index) && Longest(size, used, index) >= want
        invariant NothingBefore(size, used, want, Start(size, index))
        decreases nodeSize
      {
        DescendStep(size, used, want, index);
        ChildFacts(size, index);
        if bitmap[Left(index)] >= want {
          index := Left(index);
        } else {
          SkipLeft(size, used, want, index);
          index := Right(index);
        }
        nodeSize := nodeSize / 2;
      }
      LongestBounds(size, used, index);
    }

    /** The write and the climb that end `buddy_alloc`. */
    method PutBlock(n: nat)
      requires TreeValid() && BuddyTree.Free(size, used, n)
      modifies this`used, bitmap
      ensures TreeValid() && used == old(used) + {n}
    {
      hide MatchesExcept, Covered, Expected, Longest, Under, NodeSize, WellFormed;
      ghost var more := used + {n};
      InsertKeepsWellFormed(size, used, n);
      var index: nat := n;
      bitmap[index] := 0;
      AfterInsert(size, used, n, old(bitmap[..]), bitmap[..]);
      UnderSelf(n);
      while index > 0
        invariant Under(index, n) && IsNode(size, index) && bitmap.Length == 2 * size && used == old(used)
        invariant MatchesExcept(size, more, bitmap[..], index)
        decreases index
      {
        ghost var was := bitmap[..];
        ghost var child := index;
        ClimbFacts(size, more - {n}, child, n);
        index := Parent(index);
        OccupiedParentValue(size, more, index, n);
        ParentValue(size, more, index);
        SiblingsMatch(size, more, was, child);
        var left, right := bitmap[Left(index)], bitmap[Right(index)];
        bitmap[index] := if left > right then left else right;
        StepUp(size, more, was, bitmap[..], child);
      }
      used := more;
      MatchesAtRoot(size, used, bitmap[..]);
    }

    /** `buddy_free`, for every frame.  A counted frame is left alone; an uncounted frame inside an
        allocated block releases the whole block; an uncounted frame outside every block makes the
        climb run past the root, which ends up claiming twice the memory there is. */
    method Free(pfn: nat)
      requires TreeValid() && pfn < size
      modifies this`used, bitmap
      ensures refCnt[pfn] != 0 ==> used == old(used) && bitmap[..] == old(bitmap[..])
      ensures refCnt[pfn] == 0 && Covered(old(used), pfn + size - 1) ==>
        TreeValid() && exists n :: n in old(used) && InBlock(size, n, pfn) && used == old(used) - {n}
      ensures refCnt[pfn] == 0 && !Covered(old(used), pfn + size - 1) ==>
        used == old(used) && bitmap[..] == old(bitmap[..])[0 := 2 * size]
    {
      if refCnt[pfn] != 0 {
        return;
      }
      var nodeSize: nat := 1;
      var index: nat := pfn + size - 1;
      LeafFacts(size, pfn);
      ghost var leaf := index;
      while bitmap[index] != 0
        invariant IsNode(size, index) && Under(index, leaf)
        invariant nodeSize == NodeSize(size, index)
        invariant Covered(used, leaf) ==> Covered(used, index)
        modifies {}
        decreases index
      {
        LiveEntry(size, used, index, leaf);
        SizeFacts(size, index);
        nodeSize := nodeSize * 2;
        if index == 0 { break; }
        UnderTransitive(Parent(index), index, leaf);
        index := Parent(index);
      }
      if Covered(used, leaf) {
        ClimbEndsAtBlock(size, used, index, leaf);
        UnderIsInside(size, index, leaf);
      } else {
        LiveEntry(size, used, index, leaf);
        if index in used { CoveredBy(used, index, leaf); }
      }
      Release(index, nodeSize);
    }

    /** The write and the climb that end `buddy_free`: from an allocated node, or from the root when
        the search found none. */
    method Release(n: nat, size0: nat)
      requires TreeValid() && IsNode(size, n)
      requires if n in used then size0 == NodeSize(size, n) else n == 0
      modifies this`used, bitmap
      ensures n in old(used) ==> TreeValid() && used == old(used) - {n}
      ensures n !in old(used) ==> used == old(used) && bitmap[..] == old(bitmap[..])[0 := size0]
    {
      hide MatchesExcept, Covered, Expected, Longest, Under, NodeSize, WellFormed;
      ghost var found, less := n in used, used - {n};
      var index: nat, nodeSize := n, size0;
      bitmap[index] := nodeSize;
      assert found ==> Represents(size, used, old(bitmap[..]));
      UnderSelf(n);
      if found {
        RemoveKeepsWellFormed(size, used, n);
        AfterRemove(size, used, n, old(bitmap[..]), bitmap[..]);
      }
      while index > 0
        invariant Under(index, n) && IsNode(size, index) && bitmap.Length == 2 * size && used == old(used)
        invariant found ==> nodeSize == NodeSize(size, index) && !Covered(less, index)
        invariant found ==> MatchesExcept(size, less, bitmap[..], index)
        invariant !found ==> n == 0 && bitmap[..] == old(bitmap[..])[0 := size0]
        decreases index
      {
        ghost var was := bitmap[..];
        ghost var child := index;
        ClimbFacts(size, less, child, n);
        index := Parent(index);
        nodeSize := nodeSize * 2;
        ParentValue(size, less, index);
        SiblingsMatch(size, less, was, child);
        var left, right := bitmap[Left(index)], bitmap[Right(index)];
        if left + right == nodeSize {
          bitmap[index] := nodeSize;
        } else {
          bitmap[index] := if left > right then left else right;
        }
        StepUp(size, less, was, bitmap[..], child);
      }
      used := less;
      if found { MatchesAtRoot(size, used, bitmap[..]); }
    }

    /** `free_pages`: releases nothing as long as the block is counted, and on an uncounted frame
        breaks the allocator.  It keeps the allocator consistent exactly when it does nothing. */
    method FreePages(pfn: nat)
      requires Valid() && pfn < size
      modifies this`used, bitmap
      ensures refCnt[pfn] != 0 ==> Abstract() == old(Abstract()) && bitmap[..] == old(bitmap[..])
      ensures Valid() <==> refCnt[pfn] != 0
    {
      ghost var s := Abstract();
      Free(pfn);
      if refCnt[pfn] == 0 {
        if Covered(s.used, pfn + size - 1) {
          ghost var n :| n in s.used && InBlock(size, n, pfn) && used == s.used - {n};
          LostBlock(s, n);
        } else {
          LongestBounds(size, used, 0);
          assert bitmap[0] == 2 * size;
        }
      }
    }

    /** `ref_page`: false stands for the result -1. */
    method RefPage(pfn: nat) returns (ok: bool)
      requires Valid() && pfn < size
      modifies refCnt
      ensures Valid() && Next(old(Abstract()), BuddySpec.RefPage(pfn), Abstract())
      ensures ok <==> old(refCnt[pfn]) != 0
    {
      if refCnt[pfn] == 0 {
        return false;
      }
      ghost var s := Abstract();
      refCnt[pfn] := refCnt[pfn] + 1;
      assert AddsRef(s, pfn, Abstract());
      NextKeepsConsistent(s, BuddySpec.RefPage(pfn), Abstract());
      return true;
    }

    /** `deref_page` */
    method DerefPage(pfn: nat) returns (ok: bool)
      requires Valid() && pfn < size
      modifies this`used, bitmap, refCnt
      ensures Valid() && Next(old(Abstract()), BuddySpec.DerefPage(pfn), Abstract())
      ensures ok <==> old(refCnt[pfn]) != 0
    {
      if refCnt[pfn] == 0 {
        return false;
      }
      ghost var s := Abstract();
      refCnt[pfn] := refCnt[pfn] - 1;
      if refCnt[pfn] == 0 {
        CountedFrameIsCovered(s, pfn);
        Free(pfn);
        ghost var n :| n in s.used && InBlock(size, n, pfn) && used == s.used - {n};
        CountedFrameStartsBlock(s, pfn, n);
        assert Abstract() == Remove(s, n);
      }
      assert DropsRef(s, pfn, Abstract());
      NextKeepsConsistent(s, BuddySpec.DerefPage(pfn), Abstract());
      return true;
    }
  }

  // ---------------------------------------------------------------- lemmas for the loops

  /** Every entry is right except those of the proper ancestors of `index`. */
  ghost predicate MatchesExcept(size: nat, used: set<nat>, bitmap: seq<nat>, index: nat) {
    |bitmap| == 2 * size > 0 && bitmap[2 * size - 1] == 0 &&
    forall j :: 0 <= j && IsNode(size, j) && (j == index || !Under(j, index)) ==> bitmap[j] == Expected(size, used, j)
  }

  lemma UnderSelf(n: nat)
    ensures Under(n, n)
  {}

  /** One step up from `child` towards the root, above node `n`. */
  lemma ClimbFacts(size: nat, used: set<nat>, child: nat, n: nat)
    requires IsPow2(size) && IsNode(size, child) && child > 0 && Under(child, n)
    ensures Under(Parent(child), n) && Parent(child) != n && IsNode(size, Parent(child))
    ensures NodeSize(size, Parent(child)) == 2 * NodeSize(size, child) && !IsLeaf(size, Parent(child))
    ensures !Covered(used, child) ==> !Covered(used, Parent(child))
  {
    SizeFacts(size, child);
    SizeFacts(size, Parent(child));
    UnderIsBelow(child, n);
    UnderTransitive(Parent(child), child, n);
  }

  lemma MatchesAtRoot(size: nat, used: set<nat>, bitmap: seq<nat>)
    requires MatchesExcept(size, used, bitmap, 0)
    ensures Represents(size, used, bitmap)
  {
    forall j | 0 <= j && IsNode(size, j)
      ensures bitmap[j] == Expected(size, used, j)
    {
      if Under(j, 0) { UnderIsBelow(j, 0); }
    }
  }

  lemma AfterInsert(size: nat, used: set<nat>, n: nat, before: seq<nat>, after: seq<nat>)
    requires WellFormed(size, used) && BuddyTree.Free(size, used, n)
    requires Represents(size, used, before) && after == before[n := 0]
    ensures MatchesExcept(size, used + {n}, after, n)
  {
    InsertKeepsWellFormed(size, used, n);
    forall j | 0 <= j && IsNode(size, j) && (j == n || !Under(j, n))
      ensures after[j] == Expected(size, used + {n}, j)
    {
      if j != n { InsertIsLocal(size, used, n, j); }
    }
  }

  lemma AfterRemove(size: nat, used: set<nat>, n: nat, before: seq<nat>, after: seq<nat>)
    requires WellFormed(size, used) && n in used
    requires Represents(size, used, before) && after == before[n := NodeSize(size, n)]
    ensures MatchesExcept(size, used - {n}, after, n) && !Covered(used - {n}, n)
  {
    var less := used - {n};
    RemoveKeepsWellFormed(size, used, n);
    assert less + {n} == used;
    LongestBounds(size, less, n);
    forall j | 0 <= j && IsNode(size, j) && (j == n || !Under(j, n))
      ensures after[j] == Expected(size, less, j)
    {
      if j != n { InsertIsLocal(size, less, n, j); }
    }
  }

  /** Both children of a node on the climb hold their final values. */
  lemma SiblingsMatch(size: nat, used: set<nat>, bitmap: seq<nat>, child: nat)
    requires child > 0 && IsNode(size, child) && MatchesExcept(size, used, bitmap, child)
    ensures !IsLeaf(size, Parent(child))
    ensures forall c :: c == Left(Parent(child)) || c == Right(Parent(child)) ==>
              IsNode(size, c) && bitmap[c] == Expected(size, used, c)
  {
    forall c | c == Left(Parent(child)) || c == Right(Parent(child))
      ensures c == child || !Under(c, child)
    {
      if c != child && Under(c, child) {
        UnderIsBelow(c, Parent(child));
      }
    }
  }

  lemma StepUp(size: nat, used: set<nat>, was: seq<nat>, now: seq<nat>, child: nat)
    requires child > 0 && IsNode(size, child) && MatchesExcept(size, used, was, child)
    requires |was| == |now| && now == was[Parent(child) := Expected(size, used, Parent(child))]
    ensures MatchesExcept(size, used, now, Parent(child))
  {
    var p := Parent(child);
    forall j | 0 <= j && IsNode(size, j) && (j == p || !Under(j, p))
      ensures now[j] == Expected(size, used, j)
    {
      if j != p {
        assert j == child || !Under(j, child);
      }
    }
  }

  /** No free block of `want` frames starts before `bound`. */
  ghost predicate NothingBefore(size: nat, used: set<nat>, want: nat, bound: nat) {
    forall j :: BuddyTree.Free(size, used, j) && NodeSize(size, j) == want ==> bound <= Start(size, j)
  }

  lemma RootIsLive(size: nat, used: set<nat>, want: nat)
    requires WellFormed(size, used) && want > 0 && Expected(size, used, 0) >= want
    ensures !Covered(used, 0) && NothingBefore(size, used, want, Start(size, 0))
  {}

  lemma NothingLargeEnough(size: nat, used: set<nat>, want: nat)
    requires WellFormed(size, used) && Expected(size, used, 0) < want
    ensures NoFit(size, used, want)
  {
    forall j | BuddyTree.Free(size, used, j)
      ensures NodeSize(size, j) != want
    {
      UnderRoot(j);
      LongestIsUpperBound(size, used, 0, j);
    }
  }

  /** One step down: a block of `want` frames fits in one of the halves. */
  lemma DescendStep(size: nat, used: set<nat>, want: nat, i: nat)
    requires WellFormed(size, used) && IsNode(size, i) && !Covered(used, i) && IsPow2(want)
    requires Longest(size, used, i) >= want && NodeSize(size, i) != want
    ensures !IsLeaf(size, i) && IsNode(size, Left(i)) && IsNode(size, Right(i))
    ensures NodeSize(size, i) == 2 * NodeSize(size, Left(i)) == 2 * NodeSize(size, Right(i)) && NodeSize(size, i) >= 2
    ensures want <= NodeSize(size, Left(i)) && i !in used
    ensures Longest(size, used, Left(i)) < want ==> Longest(size, used, Right(i)) >= want
  {
    LongestBounds(size, used, i);
    SizeFacts(size, i);
    Pow2Gap(want, NodeSize(size, i));
    ChildFacts(size, i);
    LongestBounds(size, used, Left(i));
    LongestBounds(size, used, Right(i));
  }

  /** When the left half is too small, no candidate starts in it. */
  lemma SkipLeft(size: nat, used: set<nat>, want: nat, i: nat)
    requires WellFormed(size, used) && IsNode(size, i) && !IsLeaf(size, i) && IsNode(size, Left(i))
    requires want <= NodeSize(size, Left(i)) && Longest(size, used, Left(i)) < want
    requires NothingBefore(size, used, want, Start(size, i))
    ensures NothingBefore(size, used, want, Start(size, Right(i)))
  {
    ChildFacts(size, i);
    forall j | BuddyTree.Free(size, used, j) && NodeSize(size, j) == want
      ensures Start(size, Right(i)) <= Start(size, j)
    {
      if Start(size, j) < Start(size, Right(i)) {
        InsideIsUnder(size, Left(i), j);
        LongestIsUpperBound(size, used, Left(i), j);
      }
    }
  }

  /** On the climb of `buddy_free`: a zero entry is an allocated node or lies above one, and an
      entry on the path to an uncovered leaf is never zero. */
  lemma LiveEntry(size: nat, used: set<nat>, i: nat, leaf: nat)
    requires WellFormed(size, used) && IsNode(size, i) && IsNode(size, leaf) && Under(i, leaf) && IsLeaf(size, leaf)
    ensures !Covered(used, leaf) ==> Expected(size, used, i) != 0
    ensures Expected(size, used, i) != 0 && Covered(used, i) ==> i > 0 && Covered(used, Parent(i))
  {
    SizeFacts(size, i);
    SizeFacts(size, leaf);
    if !Covered(used, leaf) {
      if Covered(used, i) {
        var n := CoveringNode(used, i);
        UnderTransitive(n, i, leaf);
        CoveredBy(used, n, leaf);
      }
      if Occupied(size, used, leaf) {
        var n := OccupyingNode(size, used, leaf);
        UnderIsInside(size, leaf, n);
        CoveredBy(used, n, leaf);
      }
      LongestIsUpperBound(size, used, i, leaf);
    }
  }

  lemma ClimbEndsAtBlock(size: nat, used: set<nat>, i: nat, leaf: nat)
    requires WellFormed(size, used) && IsNode(size, i) && Under(i, leaf) && Covered(used, i)
    requires Expected(size, used, i) == 0
    ensures i in used
  {
    if i !in used {
      SizeFacts(size, i);
    }
  }

  lemma CountedFrameIsCovered(s: State, p: nat)
    requires Consistent(s) && p < s.size && s.refs[p] > 0
    ensures Covered(s.used, p + s.size - 1)
  {
    hide Covered, Under, IsPow2, NodeSize, Start;
    var n :| n in s.used && Start(s.size, n) == p;
    SizeFacts(s.size, n);
    var leaf := FrameLeaf(s.size, n, p);
    CoveredBy(s.used, n, leaf);
  }

  lemma CountedFrameStartsBlock(s: State, p: nat, n: nat)
    requires Consistent(s) && p < s.size && s.refs[p] > 0 && n in s.used && InBlock(s.size, n, p)
    ensures Start(s.size, n) == p
  {
    var m :| m in s.used && Start(s.size, m) == p;
    SizeFacts(s.size, m);
    BlocksAreDisjointAndAligned(s, m, n, p);
  }

  /** Releasing a block without its count leaves a counted frame that starts no block. */
  lemma LostBlock(s: State, n: nat)
    requires Consistent(s) && n in s.used
    ensures !Consistent(s.(used := s.used - {n}))
  {
    var t := s.(used := s.used - {n});
    var p := Start(s.size, n);
    StartInRange(s.size, n);
    assert BlockStart(s.size, s.used, p);
    if BlockStart(s.size, t.used, p) {
      var m :| m in t.used && Start(s.size, m) == p;
      StartIsUnique(s.size, s.used, m, n);
    }
  }

  /** Node sizes halve exactly at the indices one below a power of two. */
  lemma {:induction false} RowStep(size: nat, i: nat)
    requires IsPow2(size) && IsNode(size, i)
    ensures i == 0 ==> IsPow2(i + 1)
    ensures i > 0 ==> NodeSize(size, i) == if IsPow2(i + 1) then NodeSize(size, i - 1) / 2 else NodeSize(size, i - 1)
    decreases i
  {
    if i > 1 {
      if i % 2 == 1 {
        RowStep(size / 2, Parent(i));
      } else {
        assert Parent(i) == Parent(i - 1);
      }
    }
  }

  lemma RowTest(size: nat, i: nat)
    requires IsPow2(size) && IsNode(size, i) && size <= 0x10_0000_0000_0000
    ensures i == 0 ==> PowerOf2Test(i + 1)
    ensures NodeSize(size, i) == if PowerOf2Test(i + 1) then (if i == 0 then 2 * size else NodeSize(size, i - 1)) / 2
                                 else NodeSize(size, i - 1)
  {
    hide And, NodeSize;
    RowStep(size, i);
    RootSize(size);
    PowerOf2TestIsCorrect(i + 1);
  }

  lemma RootSize(size: nat)
    requires size > 0
    ensures NodeSize(size, 0) == size
  {}

  lemma SizeBelow2To52(frames: word, sz: nat)
    requires 1 <= frames < 0x10_0000_0000_0000 && LeastPow2AtLeast(sz, frames)
    ensures sz <= 0x10_0000_0000_0000
  {
    Pow2IsPow2(52);
    assert Pow2(8) == 0x100;
    assert Pow2(16) == 0x1_0000;
    assert Pow2(24) == 0x100_0000;
    assert Pow2(32) == 0x1_0000_0000;
    assert Pow2(40) == 0x100_0000_0000;
    assert Pow2(48) == 0x1_0000_0000_0000;
    assert Pow2(52) == 0x10_0000_0000_0000;
  }

  lemma SingleFrameNode(size: nat, n: nat)
    requires IsPow2(size) && IsNode(size, n) && NodeSize(size, n) == 1
    ensures n == Start(size, n) + size - 1
  {
    StartFormula(size, n);
  }

  /** The leaves of the lowest `k` frames. */
  function LowLeaves(size: nat, k: nat): set<nat>
    requires size > 0
  {
    if k == 0 then {} else LowLeaves(size, k - 1) + {size - 1 + (k - 1)}
  }

  lemma {:induction false} InLowLeaves(size: nat, k: nat, n: nat)
    requires size > 0
    ensures n in LowLeaves(size, k) <==> size - 1 <= n < size - 1 + k
  {
    if k > 0 { InLowLeaves(size, k - 1, n); }
  }

  /** Among single frames, exactly those from frame `k` up are free. */
  lemma LeafFree(s: State, k: nat, j: nat)
    requires Consistent(s) && s.size > 0 && s.used == LowLeaves(s.size, k)
    requires IsNode(s.size, j) && NodeSize(s.size, j) == 1
    ensures BuddyTree.Free(s.size, s.used, j) <==> j >= s.size - 1 + k
  {
    InLowLeaves(s.size, k, j);
    SizeFacts(s.size, j);
    if j >= s.size - 1 + k && Covered(s.used, j) {
      var n := CoveringNode(s.used, j);
      InLowLeaves(s.size, k, n);
      SizeFacts(s.size, n);
      UnderIsInside(s.size, n, j);
    }
  }

  /** After `k` single-frame reservations the lowest free frame is frame `k`, if there is one. */
  lemma LowFramesReserved(s: State, k: nat)
    requires Consistent(s) && s.size > 0 && k <= s.size && s.used == LowLeaves(s.size, k)
    ensures Rounded(1) == 1
    ensures NoFit(s.size, s.used, 1) <==> k == s.size
    ensures forall n :: LowestFit(s.size, s.used, 1, n) ==> n == s.size - 1 + k
  {
    forall j: nat | IsNode(s.size, j) && NodeSize(s.size, j) == 1
      ensures BuddyTree.Free(s.size, s.used, j) <==> j >= s.size - 1 + k
      ensures j == Start(s.size, j) + s.size - 1
    {
      SingleFrameNode(s.size, j);
      LeafFree(s, k, j);
    }
    if k < s.size {
      LeafFacts(s.size, k);
      assert BuddyTree.Free(s.size, s.used, k + s.size - 1);
    }
  }

  lemma NoLeaves(size: nat)
    requires size > 0
    ensures LowLeaves(size, 0) == {}
  {}

  lemma OneReserved(s: State, t: State, pfn: nat, k: nat)
    requires Consistent(s) && s.size > 0 && k < s.size && s.used == LowLeaves(s.size, k)
    requires Next(s, GetPages(1, pfn), t)
    ensures t.size == s.size && t.used == LowLeaves(s.size, k + 1)
  {
    hide LowestFit, Consistent, WellFormed;
    LowFramesReserved(s, k);
  }

  lemma LowLeavesCount(s: State, k: nat)
    requires Consistent(s) && s.size > 0 && s.used == LowLeaves(s.size, k)
    ensures forall p :: 0 <= p < s.size ==> (s.refs[p] > 0 <==> p < k)
  {
    forall p | 0 <= p < s.size
      ensures BlockStart(s.size, s.used, p) <==> p < k
    {
      LeafFacts(s.size, p);
      InLowLeaves(s.size, k, p + s.size - 1);
      if BlockStart(s.size, s.used, p) {
        var n :| n in s.used && Start(s.size, n) == p;
        InLowLeaves(s.size, k, n);
        SizeFacts(s.size, n);
        SingleFrameNode(s.size, n);
      }
    }
  }
}
