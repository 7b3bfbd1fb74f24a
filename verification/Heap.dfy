/** The user heap (user/src/memalloc.c) on top of `sbrk` (user/src/syscalls.c) and the kernel's
    `sys_brk` (arch/riscv/kernel/ksyscalls.c).  Addresses are 64-bit words, 0 is NULL. */
module Heap {
  import opened Wrappers
  import opened Words

  /** `union header`, 24 bytes. */
  datatype Header = Header(size: nat, isFree: bool, next: nat)

  /** A block: the address of its header, the size of what follows the header, and whether it is free. */
  datatype Block = Block(addr: nat, size: nat, free: bool)

  function End(b: Block): nat { b.addr + 24 + b.size }

  // ---------------------------------------------------------------- blocks in order

  /** The blocks lie end to end from `base` to `brk`. */
  ghost predicate Tiles(bs: seq<Block>, base: nat, brk: nat) {
    && (if bs == [] then base == brk else bs[0].addr == base && End(bs[|bs| - 1]) == brk)
    && (forall k :: 0 <= k < |bs| - 1 ==> End(bs[k]) == bs[k + 1].addr)
    && (forall k :: 0 <= k < |bs| ==> bs[k].size > 0)
  }

  /** The headers in memory form a list of these blocks. */
  ghost predicate Linked(bs: seq<Block>, mem: map<nat, Header>, head: nat, tail: nat) {
    && head == (if bs == [] then 0 else bs[0].addr)
    && tail == (if bs == [] then 0 else bs[|bs| - 1].addr)
    && forall k :: 0 <= k < |bs| ==> InMemory(bs, mem, k)
  }

  ghost predicate InMemory(bs: seq<Block>, mem: map<nat, Header>, k: nat)
    requires k < |bs|
  {
    bs[k].addr in mem && mem[bs[k].addr] == Header(bs[k].size, bs[k].free, if k + 1 < |bs| then bs[k + 1].addr else 0)
  }

  /** Block `k` is the first free block with room for `size` bytes. */
  ghost predicate FirstFit(bs: seq<Block>, size: nat, k: nat) {
    k < |bs| && bs[k].free && bs[k].size >= size && forall l :: 0 <= l < k ==> !(bs[l].free && bs[l].size >= size)
  }

  ghost predicate NoFit(bs: seq<Block>, size: nat) {
    forall l :: 0 <= l < |bs| ==> !(bs[l].free && bs[l].size >= size)
  }

  /** Blocks do not overlap, and all of them lie between the heap's base and the break. */
  lemma {:induction false} BlocksAreDisjoint(bs: seq<Block>, base: nat, brk: nat, k: nat, l: nat)
    requires Tiles(bs, base, brk) && k < l < |bs|
    ensures base <= bs[k].addr && End(bs[k]) <= bs[l].addr && End(bs[l]) <= brk
    decreases l - k
  {
    BlockIsInside(bs, base, brk, k);
    BlockIsInside(bs, base, brk, l);
    if k + 1 < l {
      BlocksAreDisjoint(bs, base, brk, k + 1, l);
    }
  }

  lemma BlockIsInside(bs: seq<Block>, base: nat, brk: nat, k: nat)
    requires Tiles(bs, base, brk) && k < |bs|
    ensures base <= bs[k].addr && End(bs[k]) <= brk
  {
    AfterBase(bs, base, brk, k);
    BeforeBreak(bs, base, brk, k);
  }

  lemma {:induction false} AfterBase(bs: seq<Block>, base: nat, brk: nat, k: nat)
    requires Tiles(bs, base, brk) && k < |bs|
    ensures base <= bs[k].addr
  {
    if k > 0 { AfterBase(bs, base, brk, k - 1); }
  }

  lemma {:induction false} BeforeBreak(bs: seq<Block>, base: nat, brk: nat, k: nat)
    requires Tiles(bs, base, brk) && k < |bs|
    ensures End(bs[k]) <= brk
    decreases |bs| - k
  {
    if k + 1 < |bs| { BeforeBreak(bs, base, brk, k + 1); }
  }

  /** The block that ends at the break is the last one. */
  lemma EndsAtBreak(bs: seq<Block>, base: nat, brk: nat, k: nat)
    requires Tiles(bs, base, brk) && k < |bs|
    ensures End(bs[k]) == brk <==> k == |bs| - 1
  {
    if k < |bs| - 1 { BlocksAreDisjoint(bs, base, brk, k, k + 1); }
  }

  /** Addresses identify blocks. */
  lemma SameAddress(bs: seq<Block>, base: nat, brk: nat, k: nat, l: nat)
    requires Tiles(bs, base, brk) && k < |bs| && l < |bs| && bs[k].addr == bs[l].addr
    ensures k == l
  {
    if k < l { BlocksAreDisjoint(bs, base, brk, k, l); }
    if l < k { BlocksAreDisjoint(bs, base, brk, l, k); }
  }

  // ---------------------------------------------------------------- what the operations mean

  /** The heap: its blocks and its break. */
  datatype State = State(blocks: seq<Block>, brk: nat)

  /** `malloc` of `size` bytes when the break can move: the first fit, or a new block at the break. */
  ghost predicate Mallocs(s: State, size: nat, t: State, result: nat) {
    if size == 0 then t == s && result == 0
    else if NoFit(s.blocks, size) then
      t == State(s.blocks + [Block(s.brk, size, false)], s.brk + 24 + size) && result == s.brk + 24
    else
      exists k: nat :: Reuses(s, size, t, result, k)
  }

  /** Block `k` is the first free block that is large enough, and is taken whole. */
  ghost predicate Reuses(s: State, size: nat, t: State, result: nat, k: nat) {
    && FirstFit(s.blocks, size, k) && t == s.(blocks := s.blocks[k := s.blocks[k].(free := false)])
    && result == s.blocks[k].addr + 24
  }

  /** `free` of block `k`. */
  function Freed(s: State, k: nat): State
    requires k < |s.blocks|
  {
    if End(s.blocks[k]) == s.brk then State(s.blocks[..k], s.blocks[k].addr)
    else s.(blocks := s.blocks[k := s.blocks[k].(free := true)])
  }

  lemma MallocKeepsTiles(s: State, base: nat, size: nat, t: State, result: nat)
    requires Tiles(s.blocks, base, s.brk) && Mallocs(s, size, t, result)
    ensures Tiles(t.blocks, base, t.brk)
  {
    if size > 0 && !NoFit(s.blocks, size) {
      var k: nat :| Reuses(s, size, t, result, k);
    }
  }

  /** A free block that is large enough is taken before the heap grows, and of several the one at the lowest
      address; it keeps its size, and every other block stays as it was. */
  lemma MallocPrefersLowAddresses(s: State, base: nat, size: nat, t: State, result: nat, l: nat)
    requires Tiles(s.blocks, base, s.brk) && Mallocs(s, size, t, result) && size > 0
    requires l < |s.blocks| && s.blocks[l].free && s.blocks[l].size >= size
    ensures t.brk == s.brk && |t.blocks| == |s.blocks| && result <= s.blocks[l].addr + 24
    ensures forall k :: 0 <= k < |s.blocks| ==>
              t.blocks[k] == if result == s.blocks[k].addr + 24 then s.blocks[k].(free := false) else s.blocks[k]
  {
    var k: nat :| Reuses(s, size, t, result, k);
    if k < l { BlocksAreDisjoint(s.blocks, base, s.brk, k, l); }
    forall j: nat | j < |s.blocks| && j != k
      ensures s.blocks[j].addr != s.blocks[k].addr
    {
      BlocksAreDisjoint(s.blocks, base, s.brk, if j < k then j else k, if j < k then k else j);
    }
  }

  lemma FreeKeepsTiles(s: State, base: nat, k: nat)
    requires Tiles(s.blocks, base, s.brk) && k < |s.blocks|
    ensures Tiles(Freed(s, k).blocks, base, Freed(s, k).brk)
  {
    EndsAtBreak(s.blocks, base, s.brk, k);
  }

  /** What `malloc` returns: room for `size` bytes inside the heap, in a block that was not live and
      that overlaps no other block. */
  lemma MallocGivesRoom(s: State, base: nat, size: nat, t: State, result: nat)
    requires Tiles(s.blocks, base, s.brk) && Mallocs(s, size, t, result) && size > 0
    ensures exists k :: 0 <= k < |t.blocks| && result == t.blocks[k].addr + 24 && !t.blocks[k].free
              && (k < |s.blocks| ==> s.blocks[k].free)
              && base <= t.blocks[k].addr && result + size <= End(t.blocks[k]) <= t.brk
              && forall l :: 0 <= l < |t.blocks| && l != k ==>
                   End(t.blocks[l]) <= t.blocks[k].addr || End(t.blocks[k]) <= t.blocks[l].addr
  {
    MallocKeepsTiles(s, base, size, t, result);
    var k: nat;
    if NoFit(s.blocks, size) {
      k := |s.blocks|;
    } else {
      k :| Reuses(s, size, t, result, k);
    }
    BlockIsInside(t.blocks, base, t.brk, k);
    forall l | 0 <= l < |t.blocks| && l != k
      ensures End(t.blocks[l]) <= t.blocks[k].addr || End(t.blocks[k]) <= t.blocks[l].addr
    {
      BlocksAreDisjoint(t.blocks, base, t.brk, if l < k then l else k, if l < k then k else l);
    }
  }

  /** Freeing what `malloc` has just returned undoes it, except that a free block at the break that
      had been reused goes back to the kernel. */
  lemma FreeUndoesMalloc(s: State, base: nat, size: nat, t: State, result: nat, k: nat)
    requires Tiles(s.blocks, base, s.brk) && Mallocs(s, size, t, result) && size > 0
    requires k < |t.blocks| && t.blocks[k].addr + 24 == result
    ensures Freed(t, k) == if k == |s.blocks| - 1 then State(s.blocks[..k], s.blocks[k].addr) else s
  {
    MallocKeepsTiles(s, base, size, t, result);
    var l: nat;
    if NoFit(s.blocks, size) {
      l := |s.blocks|;
    } else {
      l :| Reuses(s, size, t, result, l);
    }
    SameAddress(t.blocks, base, t.brk, k, l);
    EndsAtBreak(t.blocks, base, t.brk, k);
    if k < |s.blocks| {
      assert t.blocks[k := t.blocks[k].(free := true)] == s.blocks;
      assert t.blocks[..k] == s.blocks[..k];
    }
  }

  // ---------------------------------------------------------------- the code

  class Process {
    /** The kernel's side: `mm->start_brk` and `mm->brk`. */
    const start: nat
    var kernelBrk: nat
    /** The static variable of `sbrk`. */
    var currentBrk: nat
    /** The heap's list. */
    var head: nat
    var tail: nat
    var mem: map<nat, Header>
    ghost var blocks: seq<Block>

    /** The break as the process sees it. */
    ghost function Break(): nat
      reads this
    {
      if currentBrk == 0 then RoundUp(kernelBrk) else currentBrk
    }

    /** Where a refused request leaves the break: at what the kernel has on record. */
    ghost function BreakAfterRefusal(increment: word): nat
      reads this
    {
      if Wrap(Break() + increment) == 0 then RoundUp(kernelBrk) else kernelBrk
    }

    /** The requests for new memory that keep the heap in order: those that the kernel grants at an
        address that does not wrap around, and those it refuses without moving the break. */
    ghost predicate Harmless(size: word)
      reads this
    {
      Break() + 24 + size + 4095 < WORD
      || (RoundUp(Wrap(Break() + Wrap(24 + size))) < start && BreakAfterRefusal(Wrap(24 + size)) == Break())
    }

    ghost function Now(): State
      reads this
    {
      State(blocks, Break())
    }

    /** Kernel and process agree on the page of the break, if not on the break. */
    ghost predicate BreaksOk()
      reads this
    {
      && 0 < start && start % 4096 == 0 && start <= kernelBrk && start <= Break()
      && kernelBrk + 4095 < WORD && Break() + 4095 < WORD
      && RoundUp(kernelBrk) == RoundUp(Break())
    }

    ghost predicate Valid()
      reads this
    {
      BreaksOk() && Tiles(blocks, start, Break()) && Linked(blocks, mem, head, tail)
    }

    constructor (start: nat)
      requires 0 < start && start % 4096 == 0 && start + 4095 < WORD
      ensures Valid() && Now() == State([], start) && this.start == start
    {
      this.start, kernelBrk, currentBrk := start, start, 0;
      head, tail, mem, blocks := 0, 0, map[], [];
    }

    /** `sys_brk`, apart from what it maps and unmaps. */
    method SysBrk(brk: word) returns (r: word)
      requires start <= kernelBrk < WORD
      modifies this`kernelBrk
      ensures brk == 0 ==> r == RoundUp(old(kernelBrk)) && kernelBrk == old(kernelBrk)
      ensures brk != 0 && RoundUp(brk) < start ==> r == old(kernelBrk) && kernelBrk == old(kernelBrk)
      ensures brk != 0 && RoundUp(brk) >= start ==>
        r == brk && kernelBrk == if RoundUp(brk) == RoundUp(old(kernelBrk)) then old(kernelBrk) else brk
    {
      if brk == 0 { return RoundUp(kernelBrk); }
      var oldBrk, newBrk, origBrk := RoundUp(kernelBrk), RoundUp(brk), kernelBrk;
      if newBrk < start { return origBrk; }
      if newBrk == oldBrk { return brk; }
      kernelBrk := brk;
      return brk;
    }

    /** `sbrk`: None stands for -1. */
    method Sbrk(increment: word) returns (r: Option<nat>)
      requires BreaksOk()
      modifies this`kernelBrk, this`currentBrk
      ensures r.Some? <==> RoundUp(Wrap(old(Break()) + increment)) >= start
      ensures r.Some? ==> r.value == old(Break()) && currentBrk == Wrap(old(Break()) + increment)
      ensures r.Some?
          ==> kernelBrk == (if RoundUp(currentBrk) == RoundUp(old(kernelBrk)) then old(kernelBrk) else currentBrk)
      ensures r.None? ==> kernelBrk == old(kernelBrk) && currentBrk == old(BreakAfterRefusal(increment))
    {
      hide RoundUp, Wrap;
      RoundUpIsAbove(kernelBrk);
      RoundUpIsAbove(0);
      if currentBrk == 0 {
        currentBrk := SysBrk(0);
      }
      assert currentBrk == old(Break());
      var ret := currentBrk;
      var newBrk := Wrap(currentBrk + increment);
      currentBrk := SysBrk(newBrk);
      if currentBrk != newBrk {
        return None;
      }
      return Some(ret);
    }

    /** `get_free_block` */
    method GetFreeBlock(size: word) returns (r: nat, ghost k: nat)
      requires Valid()
      ensures r == 0 ==> NoFit(blocks, size)
      ensures r != 0 ==> FirstFit(blocks, size, k) && r == blocks[k].addr
    {
      r, k := head, 0;
      while r != 0
        invariant k <= |blocks| && r == if k < |blocks| then blocks[k].addr else 0
        invariant forall l :: 0 <= l < k ==> !(blocks[l].free && blocks[l].size >= size)
        decreases |blocks| - k
      {
        HeaderAt(k);
        if mem[r].isFree && mem[r].size >= size {
          return;
        }
        r := mem[r].next;
        k := k + 1;
        if k < |blocks| { AddressPositive(k); }
      }
      if k < |blocks| { AddressPositive(k); }
    }

    lemma HeaderAt(k: nat)
      requires Valid() && k < |blocks|
      ensures blocks[k].addr != 0 && InMemory(blocks, mem, k)
    {
      AddressPositive(k);
    }

    lemma AddressPositive(k: nat)
      requires Valid() && k < |blocks|
      ensures blocks[k].addr > 0
    {
      BlockIsInside(blocks, start, Break(), k);
    }

    /** `malloc`.  A request that no free block can meet and that wraps around the address space
        either fails or is granted in part; the contract says which requests leave the heap in order,
        and that after any other no list of blocks fits the headers and the break. */
    method Malloc(size: word) returns (r: nat)
      requires Valid()
      modifies this
      ensures size == 0 || !old(NoFit(blocks, size)) || old(Break()) + 24 + size + 4095 < WORD ==>
        Mallocs(old(Now()), size, Now(), r)
      ensures size > 0 && old(NoFit(blocks, size)) && RoundUp(Wrap(old(Break()) + Wrap(24 + size))) < start ==>
        r == 0 && blocks == old(blocks)
      ensures size == 0 || !old(NoFit(blocks, size)) || old(Harmless(size)) ==> Valid()
      ensures size > 0 && old(NoFit(blocks, size)) && !old(Harmless(size)) ==> Broken()
    {
      if size == 0 {
        return 0;
      }
      var header; ghost var k;
      header, k := GetFreeBlock(size);
      if header != 0 {
        Reuse(header, k);
        assert Reuses(old(Now()), size, Now(), header + 24, k);
        return header + 24;
      }
      r := NewBlock(size);
    }

    /** No list of blocks fits the headers and the break. */
    ghost predicate Broken()
      reads this
    {
      forall bs :: !(Tiles(bs, start, Break()) && Linked(bs, mem, head, tail))
    }

    method NewBlock(size: word) returns (r: nat)
      requires Valid() && size > 0 && NoFit(blocks, size)
      modifies this
      ensures old(Break()) + 24 + size + 4095 < WORD ==> Mallocs(old(Now()), size, Now(), r)
      ensures RoundUp(Wrap(old(Break()) + Wrap(24 + size))) < start ==> r == 0 && blocks == old(blocks)
      ensures if old(Harmless(size)) then Valid() else Broken()
    {
      hide Linked, RoundUp, Tiles;
      ghost var brk, before := Break(), blocks;
      BreakFacts(size);
      var at := Sbrk(Wrap(24 + size));
      if at.None? {
        OneBreak(blocks, mem, head, tail, start, brk, Break());
        return 0;
      }
      Append(at.value, size);
      OneBreak(blocks, mem, head, tail, start, brk + 24 + size, Break());
      return at.value + 24;
    }

    /** What a request does to the break, wrap-around included. */
    lemma BreakFacts(size: word)
      requires BreaksOk()
      ensures Break() + 24 + size + 4095 < WORD ==>
        Wrap(Break() + Wrap(24 + size)) == Break() + 24 + size && RoundUp(Break() + 24 + size) >= start
      ensures RoundUp(Wrap(Break() + Wrap(24 + size))) >= start
              ==> Break() + 24 + size + 4095 < WORD || Break() + 24 + size >= WORD
      ensures RoundUp(Break()) >= start && RoundUp(0) == 0
    {
      hide RoundUp, Wrap;
      WrapTwice(Break(), 24 + size);
      if Break() + 24 + size + 4095 < WORD {
        RoundUpIsAbove(Break() + 24 + size);
      } else if Break() + 24 + size < WORD {
        RoundUpAtTop(Break() + 24 + size);
      }
      RoundUpIsAbove(Break());
      RoundUpIsAbove(0);
    }

    /** The part of `malloc` that links a new block behind the last. */
    method Append(block: nat, size: word)
      requires Tiles(blocks, start, block) && Linked(blocks, mem, head, tail) && size > 0 && start > 0
      modifies this`mem, this`head, this`tail, this`blocks
      ensures blocks == old(blocks) + [Block(block, size, false)]
      ensures Tiles(blocks, start, block + 24 + size) && Linked(blocks, mem, head, tail)
    {
      Appended(blocks, mem, head, tail, start, block, size);
      mem := mem[block := Header(size, false, 0)];
      if head == 0 {
        head := block;
      } else {
        mem := mem[tail := mem[tail].(next := block)];
      }
      tail := block;
      blocks := blocks + [Block(block, size, false)];
    }

    method Reuse(header: nat, ghost k: nat)
      requires Valid() && k < |blocks| && header == blocks[k].addr
      modifies this`mem, this`blocks
      ensures Valid() && blocks == old(blocks)[k := old(blocks)[k].(free := false)]
    {
      HeaderAt(k);
      SetFree(blocks, mem, head, tail, start, Break(), k, false);
      mem := mem[header := mem[header].(isFree := false)];
      blocks := blocks[k := blocks[k].(free := false)];
    }

    /** The part of `free` that takes the last block off the list. */
    method UnlinkTail()
      requires Valid() && blocks != []
      modifies this`mem, this`head, this`tail
      ensures Linked(blocks[..|blocks| - 1], mem, head, tail)
    {
      if head == tail {
        OneBlock();
        head, tail := 0, 0;
      } else {
        var current := head;
        ghost var k := 0;
        OneBlock();
        HeaderAt(0);
        while mem[current].next != tail
          invariant k + 1 < |blocks| && current == blocks[k].addr && InMemory(blocks, mem, k)
          invariant mem == old(mem) && head == old(head) && tail == old(tail)
          decreases |blocks| - k
        {
          HeaderAt(k + 1);
          current := mem[current].next;
          k := k + 1;
        }
        SameAddress(blocks, start, Break(), k + 1, |blocks| - 1);
        DropTail(blocks, mem, head, tail, start, Break());
        mem := mem[current := mem[current].(next := 0)];
        tail := current;
      }
    }

    lemma OneBlock()
      requires Valid() && blocks != []
      ensures head == tail <==> |blocks| == 1
    {
      if head == tail { SameAddress(blocks, start, Break(), 0, |blocks| - 1); }
    }

    method MarkFree(header: nat, ghost k: nat)
      requires Valid() && k < |blocks| && header == blocks[k].addr
      modifies this`mem, this`blocks
      ensures Valid() && blocks == old(blocks)[k := old(blocks)[k].(free := true)]
    {
      HeaderAt(k);
      SetFree(blocks, mem, head, tail, start, Break(), k, true);
      mem := mem[header := mem[header].(isFree := true)];
      blocks := blocks[k := blocks[k].(free := true)];
    }

    /** `sbrk(0)`: nothing moves. */
    method AskBreak() returns (brk: nat)
      requires Valid()
      modifies this`kernelBrk, this`currentBrk
      ensures Valid() && brk == Break() == old(Break())
    {
      hide Linked, Tiles, RoundUp, Wrap;
      WrapBack(Break(), 0);
      RoundUpIsAbove(Break());
      var r := Sbrk(0);
      brk := r.value;
    }

    /** `free` of nothing, or of block `k`. */
    method Free(ptr: nat, ghost k: nat)
      requires Valid() && (ptr != 0 ==> k < |blocks| && ptr == blocks[k].addr + 24)
      modifies this
      ensures Valid() && Now() == if ptr == 0 then old(Now()) else Freed(old(Now()), k)
    {
      if ptr == 0 {
        return;
      }
      hide Linked, RoundUp, Tiles, Wrap, BreaksOk;
      var header := ptr - 24;
      HeaderAt(k);
      var brk := AskBreak();
      if ptr + mem[header].size == brk {
        GiveBack(header, k);
      } else {
        MarkFree(header, k);
      }
    }

    /** The last block leaves the list and the break moves down to where it began. */
    method GiveBack(header: nat, ghost k: nat)
      requires Valid() && k < |blocks| && header == blocks[k].addr && End(blocks[k]) == Break()
      modifies this
      ensures Valid() && Now() == State(old(blocks)[..k], header)
    {
      hide Linked, RoundUp, Tiles, Wrap;
      HeaderAt(k);
      FreeFacts(k);
      var back: int := -24 - mem[header].size;
      UnlinkTail();
      var brk := Sbrk(Wrap(back));
      blocks := blocks[..k];
    }

    lemma FreeFacts(k: nat)
      requires Valid() && k < |blocks|
      ensures blocks[k].addr in mem && mem[blocks[k].addr].size == blocks[k].size
      ensures RoundUp(Wrap(Break() + 0)) >= start && Wrap(Break() + 0) == Break()
      ensures End(blocks[k]) <= Break() && (End(blocks[k]) == Break() <==> k == |blocks| - 1)
      ensures End(blocks[k]) == Break() ==> Wrap(Break() + Wrap(-24 - blocks[k].size)) == blocks[k].addr
      ensures RoundUp(blocks[k].addr) >= start && start <= blocks[k].addr
      ensures Tiles(blocks[..k], start, blocks[k].addr)
    {
      hide RoundUp, Wrap, Linked;
      HeaderAt(k);
      BlockIsInside(blocks, start, Break(), k);
      EndsAtBreak(blocks, start, Break(), k);
      RoundUpIsAbove(Break());
      RoundUpIsAbove(blocks[k].addr);
      WrapBack(Break(), 0);
      WrapBack(Break(), Break() - blocks[k].addr);
    }
  }

  lemma WrapTwice(a: nat, n: nat)
    requires a < WORD
    ensures a + n < WORD ==> Wrap(a + Wrap(n)) == a + n
  {}

  lemma WrapBack(a: nat, n: nat)
    requires n <= a < WORD
    ensures Wrap(a) == a && Wrap(a + Wrap(0 as int - n)) == a - n
  {
    var minus: int := 0 as int - n;
    if n > 0 { assert Wrap(minus) == WORD - n; }
  }

  lemma Appended(bs: seq<Block>, mem: map<nat, Header>, head: nat, tail: nat, base: nat, brk: nat, size: nat)
    requires Tiles(bs, base, brk) && Linked(bs, mem, head, tail) && size > 0 && base > 0
    ensures head == 0 <==> bs == []
    ensures head != 0 ==> tail in mem && tail != brk
    ensures var cs := bs + [Block(brk, size, false)];
            var with := mem[brk := Header(size, false, 0)];
            Tiles(cs, base, brk + 24 + size)
            && Linked(cs, if head == 0 then with else with[tail := mem[tail].(next := brk)],
                      if head == 0 then brk else head, brk)
  {
    var cs := bs + [Block(brk, size, false)];
    if bs != [] { assert InMemory(bs, mem, |bs| - 1); BlockIsInside(bs, base, brk, |bs| - 1); }
    var with := mem[brk := Header(size, false, 0)];
    var after := if head == 0 then with else with[tail := mem[tail].(next := brk)];
    forall l | 0 <= l < |cs|
      ensures InMemory(cs, after, l)
    {
      if l < |bs| {
        assert InMemory(bs, mem, l);
        BlockIsInside(bs, base, brk, l);
        if bs[l].addr == tail { SameAddress(bs, base, brk, l, |bs| - 1); }
      }
    }
  }

  /** The headers determine the break. */
  lemma OneBreak(bs: seq<Block>, mem: map<nat, Header>, head: nat, tail: nat, base: nat, brk: nat, other: nat)
    requires Tiles(bs, base, brk) && Linked(bs, mem, head, tail) && base > 0
    ensures brk != other ==> forall cs :: !(Tiles(cs, base, other) && Linked(cs, mem, head, tail))
  {
    forall cs | Tiles(cs, base, other) && Linked(cs, mem, head, tail)
      ensures brk == other
    {
      if bs != [] { assert InMemory(bs, mem, |bs| - 1); }
      if cs != [] { assert InMemory(cs, mem, |cs| - 1); }
    }
  }

  lemma SetFree(bs: seq<Block>, mem: map<nat, Header>, head: nat, tail: nat, base: nat, brk: nat, k: nat, free: bool)
    requires Tiles(bs, base, brk) && Linked(bs, mem, head, tail) && k < |bs|
    ensures bs[k].addr in mem
    ensures var cs := bs[k := bs[k].(free := free)];
            Tiles(cs, base, brk) && Linked(cs, mem[bs[k].addr := mem[bs[k].addr].(isFree := free)], head, tail)
  {
    assert InMemory(bs, mem, k);
    var cs := bs[k := bs[k].(free := free)];
    var after := mem[bs[k].addr := mem[bs[k].addr].(isFree := free)];
    forall l | 0 <= l < |cs|
      ensures InMemory(cs, after, l)
    {
      assert InMemory(bs, mem, l);
      if bs[l].addr == bs[k].addr { SameAddress(bs, base, brk, k, l); }
    }
  }

  lemma DropTail(bs: seq<Block>, mem: map<nat, Header>, head: nat, tail: nat, base: nat, brk: nat)
    requires Tiles(bs, base, brk) && Linked(bs, mem, head, tail) && |bs| > 1
    ensures var last := bs[|bs| - 2].addr;
            last in mem && Linked(bs[..|bs| - 1], mem[last := mem[last].(next := 0)], head, last)
  {
    var n := |bs| - 2;
    assert InMemory(bs, mem, n);
    var cs, after := bs[..n + 1], mem[bs[n].addr := mem[bs[n].addr].(next := 0)];
    forall l | 0 <= l <= n
      ensures InMemory(cs, after, l)
    {
      assert InMemory(bs, mem, l);
      if bs[l].addr == bs[n].addr { SameAddress(bs, base, brk, n, l); }
    }
  }
}
