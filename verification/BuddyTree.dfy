/** The implicit binary tree of the buddy allocator, as mathematics.

    Node 0 is the root and node i has children 2i+1 and 2i+2.  A state of the allocator is
    described by the set `used` of nodes whose whole block is allocated; everything the
    bitmap holds is a function of that set (`Expected`). */
module BuddyTree {
  import opened Arith

  function Left(i: nat): nat { 2 * i + 1 }

  function Right(i: nat): nat { 2 * i + 2 }

  function Parent(i: nat): nat
    requires i > 0
  {
    (i + 1) / 2 - 1
  }

  predicate IsPow2(n: nat) {
    n == 1 || (n > 1 && n % 2 == 0 && IsPow2(n / 2))
  }

  predicate IsNode(size: nat, i: nat) { i + 1 < 2 * size }

  predicate IsLeaf(size: nat, i: nat) { i + 1 >= size }

  /** Number of frames below node `i` of a tree over `size` frames. */
  function NodeSize(size: nat, i: nat): nat {
    if i == 0 then size else NodeSize(size / 2, Parent(i))
  }

  /** First frame below node `i`. */
  function Start(size: nat, i: nat): nat {
    if i == 0 then 0
    else Start(size, Parent(i)) + if i == Left(Parent(i)) then 0 else NodeSize(size, i)
  }

  /** `i` lies in the subtree rooted at `a`. */
  predicate Under(a: nat, i: nat) {
    a == i || (i > a && Under(a, Parent(i)))
  }

  /** `i` or one of its ancestors is allocated. */
  predicate Covered(used: set<nat>, i: nat) {
    i in used || (i > 0 && Covered(used, Parent(i)))
  }

  /** `i` or one of its descendants is allocated. */
  predicate Occupied(size: nat, used: set<nat>, i: nat)
    decreases 2 * size - i
  {
    i in used || (!IsLeaf(size, i) && (Occupied(size, used, Left(i)) || Occupied(size, used, Right(i))))
  }

  /** No frame of node `i` is allocated. */
  predicate Free(size: nat, used: set<nat>, i: nat) {
    IsNode(size, i) && !Covered(used, i) && !Occupied(size, used, i)
  }

  /** Allocated nodes exist, and none lies below another. */
  ghost predicate WellFormed(size: nat, used: set<nat>) {
    && IsPow2(size)
    && (forall n :: n in used ==> IsNode(size, n))
    && (forall n :: n in used && n > 0 ==> !Covered(used, Parent(n)))
  }

  function Combine(l: nat, r: nat, s: nat): nat {
    if l + r == s then s else if l > r then l else r
  }

  /** The value of a node that has no allocated proper ancestor. */
  function Longest(size: nat, used: set<nat>, i: nat): nat
    decreases 2 * size - i
  {
    if i in used then 0
    else if IsLeaf(size, i) then 1
    else Combine(Longest(size, used, Left(i)), Longest(size, used, Right(i)), NodeSize(size, i))
  }

  /** The bitmap entry of node `i`: everything below an allocated node is full. */
  function Expected(size: nat, used: set<nat>, i: nat): nat {
    if i > 0 && Covered(used, Parent(i)) then NodeSize(size, i) else Longest(size, used, i)
  }

  // ---------------------------------------------------------------- sizes and positions

  lemma {:induction false} SizeFacts(size: nat, i: nat)
    requires IsPow2(size) && IsNode(size, i)
    ensures NodeSize(size, i) >= 1 && IsPow2(NodeSize(size, i))
    ensures IsLeaf(size, i) <==> NodeSize(size, i) == 1
    ensures i > 0 ==> NodeSize(size, Parent(i)) == 2 * NodeSize(size, i)
    decreases i
  {
    if i > 0 {
      SizeFacts(size / 2, Parent(i));
      HalfTree(size, i);
    }
  }

  lemma {:induction false} HalfTree(size: nat, i: nat)
    requires IsPow2(size) && IsNode(size, i) && i > 0
    ensures NodeSize(size, Parent(i)) == 2 * NodeSize(size / 2, Parent(i))
    decreases i
  {
    if Parent(i) > 0 {
      HalfTree(size / 2, Parent(i));
    }
  }

  lemma ChildFacts(size: nat, i: nat)
    requires IsPow2(size) && IsNode(size, i) && !IsLeaf(size, i)
    ensures IsNode(size, Left(i)) && IsNode(size, Right(i))
    ensures NodeSize(size, i) == 2 * NodeSize(size, Left(i)) == 2 * NodeSize(size, Right(i))
    ensures Parent(Left(i)) == i == Parent(Right(i))
    ensures Start(size, Left(i)) == Start(size, i)
    ensures Start(size, Right(i)) == Start(size, i) + NodeSize(size, Right(i))
    ensures NodeSize(size, Left(i)) >= 1
  {
    SizeFacts(size, Left(i));
    SizeFacts(size, Right(i));
  }

  /** The position formula of `buddy_alloc`. */
  lemma {:induction false} StartFormula(size: nat, i: nat)
    requires IsPow2(size) && IsNode(size, i)
    ensures (i + 1) * NodeSize(size, i) == Start(size, i) + size
    ensures Start(size, i) + NodeSize(size, i) <= size
    decreases i
  {
    if i > 0 {
      var p, s := Parent(i), NodeSize(size, i);
      StartFormula(size, p);
      SizeFacts(size, i);
      MulDouble(p + 1, s);
      MulCommute(p + 1, 2 * s);
      MulCommute(p + 1, s);
      MulDouble(s, p + 1);
      if i == Right(p) {
        MulAdd(2 * (p + 1), 1, s);
      }
    }
  }

  /** Two nodes of one size are the same node or occupy disjoint frames. */
  lemma SameSize(size: nat, i: nat, j: nat)
    requires IsPow2(size) && IsNode(size, i) && IsNode(size, j)
    requires NodeSize(size, i) == NodeSize(size, j) && i < j
    ensures Start(size, i) + NodeSize(size, i) <= Start(size, j)
  {
    var s := NodeSize(size, i);
    StartFormula(size, i);
    StartFormula(size, j);
    MulMonotone(i + 2, j + 1, s);
    MulAdd(i + 1, 1, s);
  }

  /** A node's frames lie inside those of every node above it. */
  lemma {:induction false} UnderIsInside(size: nat, a: nat, i: nat)
    requires IsPow2(size) && IsNode(size, i) && Under(a, i)
    ensures IsNode(size, a)
    ensures Start(size, a) <= Start(size, i)
    ensures Start(size, i) + NodeSize(size, i) <= Start(size, a) + NodeSize(size, a)
    ensures a < i ==> 2 * NodeSize(size, i) <= NodeSize(size, a)
    decreases i
  {
    if a != i {
      SizeFacts(size, i);
      UnderIsInside(size, a, Parent(i));
    }
  }

  /** ... and conversely, a node no larger than `a` that starts inside `a` is below `a`. */
  lemma {:induction false} InsideIsUnder(size: nat, a: nat, i: nat)
    requires IsPow2(size) && IsNode(size, a) && IsNode(size, i)
    requires NodeSize(size, i) <= NodeSize(size, a)
    requires Start(size, a) <= Start(size, i) < Start(size, a) + NodeSize(size, a)
    ensures Under(a, i)
    decreases i
  {
    SizeFacts(size, i);
    SizeFacts(size, a);
    if NodeSize(size, i) == NodeSize(size, a) {
      if i < a { SameSize(size, i, a); }
      if a < i { SameSize(size, a, i); }
    } else {
      StartFormula(size, a);
      var b := Climb(size, i, NodeSize(size, a));
      UnderIsInside(size, b, i);
      if b < a { SameSize(size, b, a); }
      if a < b { SameSize(size, a, b); }
    }
  }

  lemma {:induction false} Pow2Gap(x: nat, y: nat)
    requires IsPow2(x) && IsPow2(y) && x < y
    ensures 2 * x <= y
  {
    if x > 1 { Pow2Gap(x / 2, y / 2); }
  }

  /** The ancestor of `i` that has `s` frames. */
  lemma {:induction false} Climb(size: nat, i: nat, s: nat) returns (b: nat)
    requires IsPow2(size) && IsNode(size, i) && IsPow2(s) && NodeSize(size, i) <= s <= size
    ensures Under(b, i) && IsNode(size, b) && NodeSize(size, b) == s
    decreases i
  {
    b := i;
    if NodeSize(size, i) != s {
      SizeFacts(size, i);
      Pow2Gap(NodeSize(size, i), s);
      b := Climb(size, Parent(i), s);
      UnderIsBelow(b, Parent(i));
    }
  }

  lemma {:induction false} UnderIsBelow(a: nat, i: nat)
    requires Under(a, i)
    ensures a <= i
  {}

  lemma {:induction false} UnderTransitive(a: nat, b: nat, i: nat)
    requires Under(a, b) && Under(b, i)
    ensures Under(a, i)
    decreases i
  {
    UnderIsBelow(a, b);
    if b != i { UnderTransitive(a, b, Parent(i)); }
  }

  lemma {:induction false} UnderRoot(i: nat)
    ensures Under(0, i)
  {
    if i > 0 { UnderRoot(Parent(i)); }
  }

  /** Below `i` and not `i` itself means below one of the children. */
  lemma {:induction false} UnderChild(i: nat, j: nat)
    requires Under(i, j) && i != j
    ensures Under(Left(i), j) || Under(Right(i), j)
    decreases j
  {
    if Parent(j) == i {
      assert j == Left(i) || j == Right(i);
    } else {
      UnderChild(i, Parent(j));
      var c := if Under(Left(i), Parent(j)) then Left(i) else Right(i);
      UnderIsBelow(c, Parent(j));
    }
  }

  /** Every aligned run of a power-of-two length is a node. */
  lemma AlignedRunIsNode(size: nat, start: nat, len: nat) returns (i: nat)
    requires IsPow2(size) && IsPow2(len)
    requires start % len == 0 && start + len <= size
    ensures IsNode(size, i) && Start(size, i) == start && NodeSize(size, i) == len
  {
    DivFacts(start, len);
    i := RunNode(size, start / len, len, start);
  }

  lemma {:induction false} RunNode(size: nat, q: nat, len: nat, start: nat) returns (i: nat)
    requires IsPow2(size) && IsPow2(len)
    requires start == q * len && start + len <= size
    ensures IsNode(size, i) && Start(size, i) == start && NodeSize(size, i) == len
    decreases size - len
  {
    if len >= size {
      return 0;
    }
    Pow2Gap(len, size);
    assert IsPow2(2 * len);
    hide Start, NodeSize, IsPow2;
    var up := EnclosingRun(size, q, len);
    var p := RunNode(size, q / 2, 2 * len, up);
    SizeFacts(size, p);
    ChildFacts(size, p);
    if q % 2 == 0 { return Left(p); } else { return Right(p); }
  }

  /** An aligned run is one half of an aligned run twice as long. */
  lemma EnclosingRun(size: nat, q: nat, len: nat) returns (up: nat)
    requires IsPow2(size) && IsPow2(len) && 2 * len <= size && q * len + len <= size
    ensures up == (q / 2) * (2 * len) && q * len == up + (if q % 2 == 0 then 0 else len)
    ensures up + 2 * len <= size
  {
    var h := q / 2;
    up := h * (2 * len);
    MulCommute(h, 2 * len);
    MulDouble(len, h);
    MulCommute(h, len);
    MulDouble(h, len);
    MulAdd(2 * h, q % 2, len);
    NoStraddle(size, h, 2 * len);
  }

  lemma NoStraddle(size: nat, h: nat, d: nat)
    requires IsPow2(size) && IsPow2(d) && d <= size && h * d < size
    ensures h * d + d <= size
  {
    Pow2Multiple(size, d);
    DivFacts(size, d);
    if h * d + d > size {
      Between(d, h, size / d);
    }
  }

  lemma Between(d: nat, h: nat, m: nat)
    requires d > 0 && m * d < h * d + d
    ensures m * d <= h * d
  {
    if m > h {
      MulMonotone(h + 1, m, d);
      MulAdd(h, 1, d);
    } else {
      MulMonotone(m, h, d);
    }
  }

  lemma {:induction false} Pow2Multiple(x: nat, y: nat)
    requires IsPow2(x) && IsPow2(y) && y <= x
    ensures x % y == 0
    decreases x
  {
    if y < x {
      Pow2Gap(y, x);
      Pow2Multiple(x / 2, y);
      DivFacts(x / 2, y);
      var q := (x / 2) / y;
      MulDouble(q, y);
      DivUnique(x, y, 2 * q, 0);
    } else {
      DivUnique(x, y, 1, 0);
    }
  }

  // ---------------------------------------------------------------- covered and occupied nodes

  lemma {:induction false} CoveredBy(used: set<nat>, n: nat, i: nat)
    requires n in used && Under(n, i)
    ensures Covered(used, i)
    decreases i
  {
    if n != i { CoveredBy(used, n, Parent(i)); }
  }

  lemma {:induction false} CoveringNode(used: set<nat>, i: nat) returns (n: nat)
    requires Covered(used, i)
    ensures n in used && Under(n, i)
    decreases i
  {
    if i in used {
      n := i;
    } else {
      n := CoveringNode(used, Parent(i));
      UnderIsBelow(n, Parent(i));
    }
  }

  lemma {:induction false} OccupiedBy(size: nat, used: set<nat>, i: nat, n: nat)
    requires IsPow2(size) && n in used && Under(i, n) && IsNode(size, n)
    ensures Occupied(size, used, i)
    decreases 2 * size - i
  {
    if n != i {
      UnderChild(i, n);
      var c := if Under(Left(i), n) then Left(i) else Right(i);
      UnderIsBelow(c, n);
      OccupiedBy(size, used, c, n);
    }
  }

  lemma {:induction false} OccupyingNode(size: nat, used: set<nat>, i: nat) returns (n: nat)
    requires Occupied(size, used, i)
    ensures n in used && Under(i, n)
    decreases 2 * size - i
  {
    if i in used {
      n := i;
    } else {
      var c := if Occupied(size, used, Left(i)) then Left(i) else Right(i);
      n := OccupyingNode(size, used, c);
      UnderTransitive(i, c, n);
    }
  }

  /** Two allocated nodes covering one node are the same. */
  lemma OneCoveringNode(size: nat, used: set<nat>, m: nat, n: nat, i: nat)
    requires WellFormed(size, used) && m in used && n in used && Under(m, i) && Under(n, i)
    ensures m == n
  {
    if m != n {
      var low, high := if m < n then m else n, if m < n then n else m;
      Comparable(low, high, i);
      CoveredBy(used, low, Parent(high));
    }
  }

  /** Two ancestors of a node lie on one path. */
  lemma {:induction false} Comparable(m: nat, n: nat, i: nat)
    requires Under(m, i) && Under(n, i) && m < n
    ensures Under(m, Parent(n))
    decreases i
  {
    if n == i {
      assert m != i;
    } else {
      UnderIsBelow(n, Parent(i));
      Comparable(m, n, Parent(i));
    }
  }

  /** A descendant of an uncovered, unoccupied node is uncovered and unoccupied. */
  lemma {:induction false} FreeBelow(size: nat, used: set<nat>, i: nat, j: nat)
    requires WellFormed(size, used) && Free(size, used, i) && Under(i, j) && IsNode(size, j)
    ensures Free(size, used, j)
  {
    if Covered(used, j) {
      var n := CoveringNode(used, j);
      if n < i {
        Comparable(n, i, j);
        UnderTransitive(n, Parent(i), Parent(i));
        CoveredBy(used, n, Parent(i));
      } else if n == i {
      } else {
        Comparable(i, n, j);
        OccupiedBy(size, used, i, n);
      }
    }
    if Occupied(size, used, j) {
      var n := OccupyingNode(size, used, j);
      UnderTransitive(i, j, n);
      OccupiedBy(size, used, i, n);
    }
  }

  // ---------------------------------------------------------------- the cached value

  lemma {:induction false} LongestBounds(size: nat, used: set<nat>, i: nat)
    requires IsPow2(size) && IsNode(size, i)
    ensures Longest(size, used, i) <= NodeSize(size, i)
    ensures Longest(size, used, i) == NodeSize(size, i) <==> !Occupied(size, used, i)
    ensures Longest(size, used, i) == 0 || IsPow2(Longest(size, used, i))
    decreases 2 * size - i
  {
    SizeFacts(size, i);
    if i !in used && !IsLeaf(size, i) {
      ChildFacts(size, i);
      LongestBounds(size, used, Left(i));
      LongestBounds(size, used, Right(i));
    }
  }

  /** An inner node's value is at least each child's. */
  lemma ChildValue(size: nat, used: set<nat>, i: nat, c: nat)
    requires IsPow2(size) && IsNode(size, i) && !IsLeaf(size, i) && i !in used
    requires c == Left(i) || c == Right(i)
    ensures IsNode(size, c) && Longest(size, used, c) <= Longest(size, used, i)
  {
    ChildFacts(size, i);
    LongestBounds(size, used, Left(i));
    LongestBounds(size, used, Right(i));
  }

  /** The cached value of a node is at least the size of every free block below it ... */
  lemma {:induction false} LongestIsUpperBound(size: nat, used: set<nat>, i: nat, j: nat)
    requires IsPow2(size) && IsNode(size, i) && Free(size, used, j) && Under(i, j)
    ensures NodeSize(size, j) <= Longest(size, used, i)
    decreases 2 * size - i
  {
    if i == j {
      LongestBounds(size, used, i);
    } else {
      if i in used { CoveredBy(used, i, j); }
      UnderIsBelow(i, j);
      UnderIsInside(size, i, j);
      UnderChild(i, j);
      SizeFacts(size, i);
      SizeFacts(size, j);
      var c := if Under(Left(i), j) then Left(i) else Right(i);
      hide *;
      ChildValue(size, used, i, c);
      LongestIsUpperBound(size, used, c, j);
    }
  }

  /** ... and is attained by one of them. */
  lemma {:induction false} LongestIsAttained(size: nat, used: set<nat>, i: nat) returns (j: nat)
    requires IsPow2(size) && IsNode(size, i) && !Covered(used, i) && Longest(size, used, i) > 0
    ensures Free(size, used, j) && Under(i, j) && NodeSize(size, j) == Longest(size, used, i)
    decreases 2 * size - i
  {
    LongestBounds(size, used, i);
    j := i;
    if Occupied(size, used, i) {
      SizeFacts(size, i);
      ChildFacts(size, i);
      var l, r := Left(i), Right(i);
      LongestBounds(size, used, l);
      LongestBounds(size, used, r);
      var c := if Longest(size, used, l) > Longest(size, used, r) then l else r;
      j := LongestIsAttained(size, used, c);
      UnderTransitive(i, c, j);
    }
  }

  // ---------------------------------------------------------------- adding an allocated node

  /** Allocating a free node keeps the set well formed. */
  lemma InsertKeepsWellFormed(size: nat, used: set<nat>, n: nat)
    requires WellFormed(size, used) && Free(size, used, n)
    ensures WellFormed(size, used + {n})
  {
    var more := used + {n};
    forall m | m in more && m > 0
      ensures !Covered(more, Parent(m))
    {
      if Covered(more, Parent(m)) {
        var a := CoveringNode(more, Parent(m));
        UnderIsBelow(a, Parent(m));
        if a != n {
          assert m == n by { if m != n { CoveredBy(used, a, Parent(m)); } }
          CoveredBy(used, a, Parent(n));
        } else if m != n {
          OccupiedBy(size, used, n, m);
        }
      }
    }
  }

  /** Releasing an allocated node keeps the set well formed and leaves the node free. */
  lemma RemoveKeepsWellFormed(size: nat, used: set<nat>, n: nat)
    requires WellFormed(size, used) && n in used
    ensures WellFormed(size, used - {n}) && Free(size, used - {n}, n)
  {
    var less := used - {n};
    forall m | m in less && m > 0
      ensures !Covered(less, Parent(m))
    {
      if Covered(less, Parent(m)) {
        var a := CoveringNode(less, Parent(m));
        CoveredBy(used, a, Parent(m));
      }
    }
    if Covered(less, n) {
      var a := CoveringNode(less, n);
      CoveredBy(used, a, Parent(n));
    }
    if Occupied(size, less, n) {
      var a := OccupyingNode(size, less, n);
      CoveredBy(used, n, Parent(a));
    }
  }

  /** Only the ancestors of an allocated node can change their value. */
  lemma InsertIsLocal(size: nat, used: set<nat>, n: nat, j: nat)
    requires WellFormed(size, used) && Free(size, used, n) && IsNode(size, j) && !Under(j, n)
    ensures Expected(size, used + {n}, j) == Expected(size, used, j)
  {
    var more := used + {n};
    if j > 0 && Covered(more, Parent(j)) {
      var a := CoveringNode(more, Parent(j));
      if a != n {
        CoveredBy(used, a, Parent(j));
      } else {
        UnderIsBelow(n, Parent(j));
        assert Under(n, j);
        FreeBelow(size, used, n, j);
        LongestBounds(size, used, j);
      }
    } else {
      if j > 0 && Covered(used, Parent(j)) {
        var a := CoveringNode(used, Parent(j));
        CoveredBy(more, a, Parent(j));
      }
      LongestIsLocal(size, used, n, j);
    }
  }

  lemma {:induction false} LongestIsLocal(size: nat, used: set<nat>, n: nat, j: nat)
    requires IsPow2(size) && IsNode(size, j) && !Under(j, n)
    ensures Longest(size, used + {n}, j) == Longest(size, used, j)
    decreases 2 * size - j
  {
    if !IsLeaf(size, j) {
      if Under(Left(j), n) { UnderTransitive(j, Left(j), n); }
      if Under(Right(j), n) { UnderTransitive(j, Right(j), n); }
      LongestIsLocal(size, used, n, Left(j));
      LongestIsLocal(size, used, n, Right(j));
    }
  }

  /** The value of an inner node with no allocated node above or at it, from its children's. */
  lemma ParentValue(size: nat, used: set<nat>, p: nat)
    requires IsPow2(size) && IsNode(size, p) && !IsLeaf(size, p) && !Covered(used, p)
    ensures Expected(size, used, p)
         == Combine(Expected(size, used, Left(p)), Expected(size, used, Right(p)), NodeSize(size, p))
  {
    assert Parent(Left(p)) == p == Parent(Right(p));
  }

  /** Under an inner node that holds an allocated block, the two halves are never both full. */
  lemma OccupiedParentValue(size: nat, used: set<nat>, p: nat, n: nat)
    requires WellFormed(size, used) && n in used && IsNode(size, p) && Under(p, n) && p != n
    ensures !IsLeaf(size, p) && !Covered(used, p)
    ensures Expected(size, used, Left(p)) + Expected(size, used, Right(p)) < NodeSize(size, p)
  {
    UnderIsBelow(p, n);
    UnderChild(p, n);
    var c := if Under(Left(p), n) then Left(p) else Right(p);
    UnderIsBelow(c, n);
    if Covered(used, p) {
      var a := CoveringNode(used, p);
      UnderTransitive(a, p, Parent(n));
      CoveredBy(used, a, Parent(n));
    }
    SizeFacts(size, p);
    UnderIsInside(size, p, n);
    ChildFacts(size, p);
    LongestBounds(size, used, Left(p));
    LongestBounds(size, used, Right(p));
    OccupiedBy(size, used, c, n);
  }
}
