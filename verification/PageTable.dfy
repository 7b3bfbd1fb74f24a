/** Three-level Sv39 page tables in memory (vm_create_mapping and walk_page_table), and when they
    amount to one map from pages to entries per address space.  See the RISC-V Privileged
    Architecture (20211203), section 4.3.2. */
module PageTable {
  import opened Words
  import opened Wrappers
  import opened CowSpec

  /** Pages below USER_END, which root tables index with their lower halves. */
  const USER_PAGES: nat := 0x400_0000

  type Table = t: seq<Pte> | |t| == 512 witness seq(512, _ => NoPte())
  type Tables = map<nat, Table>

  function NoPte(): Pte { Pte(0, Flags(false, false, false, false, false, false, false, false, false, false)) }

  function ZeroTable(): Table { seq(512, _ => NoPte()) }

  /** An entry that points to the next level: `(newpage >> 12 << 10) | PTE_V`. */
  function Pointer(f: nat): Pte { Pte(f, NoPte().flags.(v := true)) }

  function Vpn0(page: nat): (i: nat)
    ensures i < 512
  {
    page % 512
  }

  function Vpn1(page: nat): (i: nat)
    ensures i < 512
  {
    page / 512 % 512
  }

  function Vpn2(page: nat): (i: nat)
    ensures i < 512
  {
    page / 262144 % 512
  }

  lemma IndicesIdentify(p: nat, q: nat)
    requires p < USER_PAGES && q < USER_PAGES
    requires Vpn0(p) == Vpn0(q) && Vpn1(p) == Vpn1(q) && Vpn2(p) == Vpn2(q)
    ensures p == q && Vpn2(p) < 256
  {
    Recompose(p);
    Recompose(q);
  }

  lemma Recompose(p: nat)
    requires p < USER_PAGES
    ensures p == 262144 * Vpn2(p) + 512 * Vpn1(p) + Vpn0(p) && Vpn2(p) < 256
  {
    assert p / 512 / 512 == p / 262144;
  }

  /** `walk_page_table`: the table and index of the leaf entry, if every level is valid. */
  function Walk(tables: Tables, root: nat, page: nat): Option<(nat, nat)> {
    if root !in tables then None
    else
      var e2 := tables[root][Vpn2(page)];
      if !e2.flags.v || e2.ppn !in tables then None
      else
        var e1 := tables[e2.ppn][Vpn1(page)];
        if !e1.flags.v || e1.ppn !in tables then None
        else if !tables[e1.ppn][Vpn0(page)].flags.v then None
        else Some((e1.ppn, Vpn0(page)))
  }

  lemma WalkInTables(tables: Tables, root: nat, page: nat)
    requires Walk(tables, root, page).Some?
    ensures Walk(tables, root, page).value.0 in tables && Walk(tables, root, page).value.1 < 512
  {}

  /** The translation of a page. */
  function Lookup(tables: Tables, root: nat, page: nat): Option<Pte> {
    match Walk(tables, root, page)
    case None => None
    case Some(at) =>
      WalkInTables(tables, root, page);
      Some(tables[at.0][at.1])
  }

  /** The user half of an address space, as one map. */
  function PtOf(tables: Tables, root: nat): map<nat, Pte> {
    map p | 0 <= p < USER_PAGES && Lookup(tables, root, p).Some? :: Lookup(tables, root, p).value
  }

  // ---------------------------------------------------------------- who owns which table

  /** The entry a table hangs from: entry `i` of a root, or of a middle table. */
  datatype Slot = Mid(root: nat, i: nat) | Low(mid: nat, i: nat)

  /** Root tables, the slot that each user table hangs from, and the kernel's own tables, which all
      roots share. */
  datatype Layout = Layout(roots: set<nat>, owner: map<nat, Slot>, kmid: set<nat>, klow: set<nat>)

  /** No user table hangs from two slots; kernel-half entries lead to kernel tables only. */
  ghost predicate Tree(tables: Tables, lay: Layout) {
    && lay.roots <= tables.Keys && lay.owner.Keys <= tables.Keys
    && lay.kmid <= tables.Keys && lay.klow <= tables.Keys
    && lay.roots !! lay.owner.Keys && lay.roots !! lay.kmid + lay.klow && lay.owner.Keys !! lay.kmid + lay.klow
    && (forall r, i :: r in lay.roots && 0 <= i < 256 && tables[r][i].flags.v ==>
          HangsFrom(lay, tables[r][i].ppn, Mid(r, i)))
    && (forall t, i :: t in lay.owner && lay.owner[t].Mid? && 0 <= i < 512 && tables[t][i].flags.v
          ==> HangsFrom(lay, tables[t][i].ppn, Low(t, i)))
    && (forall r, i :: r in lay.roots && 256 <= i < 512 && tables[r][i].flags.v ==> tables[r][i].ppn in lay.kmid)
    && (forall t, i :: t in lay.kmid && 0 <= i < 512 && tables[t][i].flags.v ==> tables[t][i].ppn in lay.klow)
  }

  predicate HangsFrom(lay: Layout, t: nat, slot: Slot) {
    t in lay.owner && lay.owner[t] == slot
  }

  /** Nothing but user-half translations of `root` for `page` may differ. */
  ghost predicate SameElsewhere(before: Tables, after: Tables, lay: Layout, root: nat, page: nat) {
    forall r, p: nat :: r in lay.roots && p < 2 * USER_PAGES && (r, p) != (root, page) ==>
      Lookup(after, r, p) == Lookup(before, r, p)
  }

  // ---------------------------------------------------------------- growing the tree

  /** A fresh table `f` hung from entry `i` of table `t`. */
  function Hang(tables: Tables, t: nat, i: nat, f: nat): Tables
    requires t in tables && i < 512
  {
    tables[f := ZeroTable()][t := tables[t][i := Pointer(f)]]
  }

  lemma HangMid(tables: Tables, lay: Layout, root: nat, i: nat, f: nat)
    requires Tree(tables, lay) && root in lay.roots && i < 256 && f !in tables
    requires !tables[root][i].flags.v
    ensures Tree(Hang(tables, root, i, f), lay.(owner := lay.owner[f := Mid(root, i)]))
  {
    var after, now := Hang(tables, root, i, f), lay.(owner := lay.owner[f := Mid(root, i)]);
    forall r, k | r in now.roots && 0 <= k < 256 && after[r][k].flags.v
      ensures HangsFrom(now, after[r][k].ppn, Mid(r, k))
    {
      if (r, k) != (root, i) { assert HangsFrom(lay, tables[r][k].ppn, Mid(r, k)); }
    }
    forall t, k | t in now.owner && now.owner[t].Mid? && 0 <= k < 512 && after[t][k].flags.v
      ensures HangsFrom(now, after[t][k].ppn, Low(t, k))
    {
      if t != f { assert HangsFrom(lay, tables[t][k].ppn, Low(t, k)); }
    }
  }

  lemma HangLow(tables: Tables, lay: Layout, mid: nat, i: nat, f: nat)
    requires Tree(tables, lay) && mid in lay.owner && lay.owner[mid].Mid? && i < 512 && f !in tables
    requires !tables[mid][i].flags.v
    ensures Tree(Hang(tables, mid, i, f), lay.(owner := lay.owner[f := Low(mid, i)]))
  {
    var after, now := Hang(tables, mid, i, f), lay.(owner := lay.owner[f := Low(mid, i)]);
    forall r, k | r in now.roots && 0 <= k < 256 && after[r][k].flags.v
      ensures HangsFrom(now, after[r][k].ppn, Mid(r, k))
    {
      assert HangsFrom(lay, tables[r][k].ppn, Mid(r, k));
    }
    forall t, k | t in now.owner && now.owner[t].Mid? && 0 <= k < 512 && after[t][k].flags.v
      ensures HangsFrom(now, after[t][k].ppn, Low(t, k))
    {
      if (t, k) != (mid, i) { assert HangsFrom(lay, tables[t][k].ppn, Low(t, k)); }
    }
  }

  /** A fresh, empty table changes no translation, unless it is hung from a leaf table. */
  lemma HangKeepsLookups(tables: Tables, t: nat, i: nat, f: nat, r: nat, p: nat)
    requires t in tables && i < 512 && f !in tables && !tables[t][i].flags.v
    requires Reaches(tables, r, p) && LowOf(tables, r, p) != Some(t)
    ensures Lookup(Hang(tables, t, i, f), r, p) == Lookup(tables, r, p)
  {}

  /** The leaf table on the path of a page. */
  function LowOf(tables: Tables, r: nat, p: nat): Option<nat>
    requires Reaches(tables, r, p)
  {
    var e2 := tables[r][Vpn2(p)];
    if !e2.flags.v then None
    else
      var e1 := tables[e2.ppn][Vpn1(p)];
      if !e1.flags.v then None else Some(e1.ppn)
  }

  /** Leaf tables are neither roots nor middle tables. */
  lemma LowIsLow(tables: Tables, lay: Layout, r: nat, p: nat)
    requires Tree(tables, lay) && r in lay.roots
    ensures Reaches(tables, r, p)
    ensures LowOf(tables, r, p).Some? ==> var low := LowOf(tables, r, p).value;
              low in lay.klow || (low in lay.owner && lay.owner[low].Low?)
  {
    TreeReaches(tables, lay, r, p);
    var e2 := tables[r][Vpn2(p)];
    if e2.flags.v && Vpn2(p) < 256 {
      assert HangsFrom(lay, e2.ppn, Mid(r, Vpn2(p)));
      var e1 := tables[e2.ppn][Vpn1(p)];
      if e1.flags.v { assert HangsFrom(lay, e1.ppn, Low(e2.ppn, Vpn1(p))); }
    }
  }

  /** Valid entries along the path of a page lead to tables. */
  predicate Reaches(tables: Tables, r: nat, p: nat) {
    r in tables && (tables[r][Vpn2(p)].flags.v ==>
      var mid := tables[r][Vpn2(p)].ppn;
      mid in tables && (tables[mid][Vpn1(p)].flags.v ==> tables[mid][Vpn1(p)].ppn in tables))
  }

  lemma TreeReaches(tables: Tables, lay: Layout, r: nat, p: nat)
    requires Tree(tables, lay) && r in lay.roots
    ensures Reaches(tables, r, p)
  {
    var e2 := tables[r][Vpn2(p)];
    if e2.flags.v && Vpn2(p) < 256 {
      assert HangsFrom(lay, e2.ppn, Mid(r, Vpn2(p)));
      var e1 := tables[e2.ppn][Vpn1(p)];
      if e1.flags.v { assert HangsFrom(lay, e1.ppn, Low(e2.ppn, Vpn1(p))); }
    }
  }

  /** The middle and low tables on the path of a user page exist. */
  ghost predicate OnPath(tables: Tables, lay: Layout, root: nat, page: nat, mid: nat, low: nat) {
    && root in lay.roots && root in tables && page < USER_PAGES
    && HangsFrom(lay, mid, Mid(root, Vpn2(page))) && HangsFrom(lay, low, Low(mid, Vpn1(page)))
    && mid in tables && low in tables
    && tables[root][Vpn2(page)] .flags.v && tables[root][Vpn2(page)].ppn == mid
    && tables[mid][Vpn1(page)].flags.v && tables[mid][Vpn1(page)].ppn == low
  }

  /** Writing a leaf entry. */
  function SetLeaf(tables: Tables, low: nat, i: nat, pte: Pte): Tables
    requires low in tables && i < 512
  {
    tables[low := tables[low][i := pte]]
  }

  lemma SetLeafTree(tables: Tables, lay: Layout, root: nat, page: nat, mid: nat, low: nat, pte: Pte)
    requires Tree(tables, lay) && OnPath(tables, lay, root, page, mid, low)
    ensures Tree(SetLeaf(tables, low, Vpn0(page), pte), lay)
  {
    var after := SetLeaf(tables, low, Vpn0(page), pte);
    forall r, k | r in lay.roots && 0 <= k < 256 && after[r][k].flags.v
      ensures HangsFrom(lay, after[r][k].ppn, Mid(r, k))
    {
      assert HangsFrom(lay, tables[r][k].ppn, Mid(r, k));
    }
    forall t, k | t in lay.owner && lay.owner[t].Mid? && 0 <= k < 512 && after[t][k].flags.v
      ensures HangsFrom(lay, after[t][k].ppn, Low(t, k))
    {
      assert HangsFrom(lay, tables[t][k].ppn, Low(t, k));
    }
  }

  lemma SetLeafLookup(tables: Tables, lay: Layout, root: nat, page: nat, mid: nat, low: nat, pte: Pte)
    requires Tree(tables, lay) && OnPath(tables, lay, root, page, mid, low)
    ensures Lookup(SetLeaf(tables, low, Vpn0(page), pte), root, page) == if pte.flags.v then Some(pte) else None
  {}

  /** Writing the leaf entry of one page of one process changes no other translation, in that or any
      other process, user or kernel. */
  lemma SetLeafElsewhere(tables: Tables, lay: Layout, root: nat, page: nat, mid: nat, low: nat, pte: Pte, r: nat,
                         p: nat)
    requires Tree(tables, lay) && OnPath(tables, lay, root, page, mid, low)
    requires r in lay.roots && (r, p) != (root, page) && p < 2 * USER_PAGES
    ensures Lookup(SetLeaf(tables, low, Vpn0(page), pte), r, p) == Lookup(tables, r, p)
  {
    TreeReaches(tables, lay, r, p);
    var e2 := tables[r][Vpn2(p)];
    if e2.flags.v {
      var e1 := tables[e2.ppn][Vpn1(p)];
      if Vpn2(p) < 256 {
        assert HangsFrom(lay, e2.ppn, Mid(r, Vpn2(p)));
        if e1.flags.v {
          assert HangsFrom(lay, e1.ppn, Low(e2.ppn, Vpn1(p)));
          if e1.ppn == low && Vpn0(p) == Vpn0(page) {
            UpperHalf(p);
            IndicesIdentify(p, page);
          }
        }
      }
    }
  }

  lemma UpperHalf(p: nat)
    requires p < 2 * USER_PAGES
    ensures Vpn2(p) < 256 <==> p < USER_PAGES
  {
    assert p / 262144 < 512;
  }
}
