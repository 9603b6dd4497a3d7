/** Four-level page tables (pagetable.cc, pagetable.hh) without large pages: `map`
    as an update of a radix tree in memory, and what it does to the addresses the
    tree translates. */
module PageTable {
  import opened Options

  // ---- addresses -----------------------------------------------------------

  const PAGE_SIZE := 0x1000

  /** The page number less the low `level - 1` nine-bit fields. */
  function Above(v: nat, level: nat): nat
    requires 1 <= level
  {
    if level == 1 then v / PAGE_SIZE else Above(v, level - 1) / 512
  }

  /** The index of an address in the tables of a level: 4 is the root (PML4), then
      directory pointers, directory, and 1 the page table. */
  function Index(v: nat, level: nat): (i: nat)
    requires 1 <= level <= 4
    ensures i < 512
  {
    Above(v, level) % 512
  }

  /** The 36 bits of page number that the four indices cover. */
  function PageOf(v: nat): nat {
    v / PAGE_SIZE % 0x10_0000_0000
  }

  lemma PageFromIndices(v: nat)
    ensures PageOf(v) == ((Index(v, 4) * 512 + Index(v, 3)) * 512 + Index(v, 2)) * 512 + Index(v, 1)
  {
    var q := Above(v, 5);
    var page := ((Index(v, 4) * 512 + Index(v, 3)) * 512 + Index(v, 2)) * 512 + Index(v, 1);
    assert Above(v, 4) == q * 512 + Index(v, 4);
    assert Above(v, 3) == Above(v, 4) * 512 + Index(v, 3);
    assert Above(v, 2) == Above(v, 3) * 512 + Index(v, 2);
    assert Above(v, 1) == Above(v, 2) * 512 + Index(v, 1) == q * 0x10_0000_0000 + page;
    Remainder(q, page);
  }

  lemma Remainder(q: nat, r: nat)
    requires r < 0x10_0000_0000
    ensures (q * 0x10_0000_0000 + r) % 0x10_0000_0000 == r
  {
  }

  lemma {:induction false} FieldsUnique(a: nat, b: nat, i: nat, j: nat)
    requires i < 512 && j < 512 && a * 512 + i == b * 512 + j
    ensures a == b && i == j
  {
  }

  /** Two addresses lie in one page exactly if all four indices agree. */
  lemma SamePage(v: nat, w: nat)
    ensures PageOf(v) == PageOf(w) <==> forall l | 1 <= l <= 4 :: Index(v, l) == Index(w, l)
  {
    PageFromIndices(v);
    PageFromIndices(w);
    hide Index, PageOf;
    var a := (Index(v, 4) * 512 + Index(v, 3)) * 512 + Index(v, 2);
    var b := (Index(w, 4) * 512 + Index(w, 3)) * 512 + Index(w, 2);
    if PageOf(v) == PageOf(w) {
      FieldsUnique(a, b, Index(v, 1), Index(w, 1));
      FieldsUnique(Index(v, 4) * 512 + Index(v, 3), Index(w, 4) * 512 + Index(w, 3), Index(v, 2), Index(w, 2));
    }
  }

  // ---- tables in memory ----------------------------------------------------

  /** The fields of an entry that `map` reads or writes, and its other bits. `addr`
      is the 40-bit frame number; `large` the page-size bit. */
  datatype Entry = Entry(present: bool, readWrite: bool, large: bool, addr: nat, others: nat)

  const ZERO := Entry(false, false, false, 0, 0)

  /** Frame number to table, for the frames that hold tables. */
  type Memory = map<nat, seq<Entry>>

  function ZeroPage(): seq<Entry> {
    seq(512, _ => ZERO)
  }

  function EntryAt(mem: Memory, frame: nat, i: nat): Entry {
    if frame in mem && i < |mem[frame]| then mem[frame][i] else ZERO
  }

  function Write(mem: Memory, frame: nat, i: nat, e: Entry): Memory
    requires frame in mem && i < |mem[frame]|
  {
    mem[frame := mem[frame][i := e]]
  }

  /** Levels of frames: a shape that makes the memory a tree of tables. Entries
      above the last level are zero or point to a table one level down, to which
      nothing else points; there are no large pages. */
  ghost predicate Tree(mem: Memory, root: nat, level: map<nat, nat>) {
    && level.Keys == mem.Keys && root in mem && level[root] == 4 && 0 !in mem
    && (forall f | f in mem :: |mem[f]| == 512 && 1 <= level[f] <= 4)
    && (forall f, i | f in mem && 0 <= i < 512 :: EntryOk(mem, level, f, i))
    && (forall t, f, i, g, j | PointsTo(mem, level, f, i, t) && PointsTo(mem, level, g, j, t) :: f == g && i == j)
  }

  /** Entry `i` of a table above the last level points to table `t`. */
  ghost predicate PointsTo(mem: Memory, level: map<nat, nat>, f: nat, i: nat, t: nat) {
    f in mem && f in level && i < 512 && level[f] > 1 && EntryAt(mem, f, i).present && EntryAt(mem, f, i).addr == t
  }

  ghost predicate EntryOk(mem: Memory, level: map<nat, nat>, f: nat, i: nat)
    requires f in level
  {
    var e := EntryAt(mem, f, i);
    && (!e.present ==> e == ZERO)
    && (e.present && level[f] > 1 ==> !e.large && e.addr in mem && e.addr in level && level[e.addr] + 1 == level[f])
  }

  /** The table of a level on the way to an address. */
  function TableAt(mem: Memory, root: nat, v: nat, level: nat): Option<nat>
    requires 1 <= level <= 4
    decreases 4 - level
  {
    if level == 4 then Some(root)
    else
      match TableAt(mem, root, v, level + 1)
      case None => None
      case Some(t) =>
        var e := EntryAt(mem, t, Index(v, level + 1));
        if e.present then Some(e.addr) else None
  }

  /** The entry that the four-level walk of an address ends in, if it is present. */
  function Leaf(mem: Memory, root: nat, v: nat): Option<Entry> {
    match TableAt(mem, root, v, 1)
    case None => None
    case Some(t) =>
      var e := EntryAt(mem, t, Index(v, 1));
      if e.present then Some(e) else None
  }

  /** The translation of an address: the frame in that entry. */
  function Walk(mem: Memory, root: nat, v: nat): Option<nat> {
    match Leaf(mem, root, v)
    case None => None
    case Some(e) => Some(e.addr)
  }

  /** All entries on the way to an address, from the root down to level `l`, are present
      and writable; from level 1 on, that is what it takes to write to the address. */
  predicate Writable(mem: Memory, root: nat, v: nat, l: nat)
    requires 1 <= l <= 4
    decreases 4 - l
  {
    match TableAt(mem, root, v, l)
    case None => false
    case Some(t) =>
      var e := EntryAt(mem, t, Index(v, l));
      e.present && e.readWrite && (l == 4 || Writable(mem, root, v, l + 1))
  }

  lemma {:induction false} TableInTree(mem: Memory, root: nat, level: map<nat, nat>, v: nat, l: nat)
    requires Tree(mem, root, level) && 1 <= l <= 4
    ensures TableAt(mem, root, v, l).Some? ==>
              TableAt(mem, root, v, l).value in mem && level[TableAt(mem, root, v, l).value] == l
    decreases 4 - l
  {
    if l < 4 {
      TableInTree(mem, root, level, v, l + 1);
      var t := TableAt(mem, root, v, l + 1);
      if t.Some? {
        assert EntryOk(mem, level, t.value, Index(v, l + 1));
      }
    }
  }

  /** In a tree a table is reached one way only: addresses that meet in a table
      agree on all indices above it. */
  lemma {:induction false} OnePath(mem: Memory, root: nat, level: map<nat, nat>, v: nat, w: nat, l: nat, k: nat)
    requires Tree(mem, root, level) && 1 <= l < k <= 4
    requires TableAt(mem, root, v, l).Some? && TableAt(mem, root, v, l) == TableAt(mem, root, w, l)
    ensures Index(v, k) == Index(w, k)
    decreases 4 - l
  {
    TableInTree(mem, root, level, v, l + 1);
    TableInTree(mem, root, level, w, l + 1);
    var t, u := TableAt(mem, root, v, l + 1).value, TableAt(mem, root, w, l + 1).value;
    var meet := TableAt(mem, root, v, l).value;
    assert PointsTo(mem, level, t, Index(v, l + 1), meet) && PointsTo(mem, level, u, Index(w, l + 1), meet);
    if k > l + 1 {
      OnePath(mem, root, level, v, w, l + 1, k);
    }
  }

  // ---- the two updates of a level ------------------------------------------

  /** An entry that is present already is made writable, no more. */
  function Touch(mem: Memory, f: nat, i: nat): Memory
    requires f in mem && i < |mem[f]|
  {
    Write(mem, f, i, mem[f][i].(present := true, readWrite := true))
  }

  lemma {:induction false} TouchTables(mem: Memory, root: nat, f: nat, i: nat, w: nat, l: nat)
    requires f in mem && i < |mem[f]| && mem[f][i].present && 1 <= l <= 4
    ensures TableAt(Touch(mem, f, i), root, w, l) == TableAt(mem, root, w, l)
    decreases 4 - l
  {
    if l < 4 {
      TouchTables(mem, root, f, i, w, l + 1);
    }
  }

  lemma TouchKeeps(mem: Memory, root: nat, level: map<nat, nat>, f: nat, i: nat)
    requires Tree(mem, root, level) && f in mem && f in level && level[f] > 1 && i < 512 && mem[f][i].present
    ensures Tree(Touch(mem, f, i), root, level)
    ensures forall w :: Leaf(Touch(mem, f, i), root, w) == Leaf(mem, root, w)
  {
    var mem' := Touch(mem, f, i);
    forall g, j | g in mem' && 0 <= j < 512
      ensures EntryOk(mem', level, g, j)
    {
      assert EntryOk(mem, level, g, j);
    }
    assert forall t, g, j | PointsTo(mem', level, g, j, t) :: PointsTo(mem, level, g, j, t);
    forall w
      ensures Leaf(mem', root, w) == Leaf(mem, root, w)
    {
      TouchTables(mem, root, f, i, w, 1);
      TableInTree(mem, root, level, w, 1);
    }
  }

  /** An entry that is not present gets a fresh table of zeros below it. */
  function Grow(mem: Memory, f: nat, i: nat, n: nat): Memory
    requires f in mem && i < |mem[f]|
  {
    Write(mem, f, i, mem[f][i].(present := true, readWrite := true, addr := n))[n := ZeroPage()]
  }

  /** Tables that were on the way to an address still are; the only new one is
      the fresh table. */
  lemma {:induction false} GrowTables(mem: Memory, root: nat, level: map<nat, nat>, f: nat, i: nat, n: nat,
                                      w: nat, l: nat)
    requires Tree(mem, root, level) && f in mem && level[f] > 1 && i < 512 && !mem[f][i].present
    requires n !in mem && n != 0 && 1 <= l <= 4
    ensures TableAt(Grow(mem, f, i, n), root, w, l) == TableAt(mem, root, w, l)
         || (TableAt(mem, root, w, l) == None && TableAt(Grow(mem, f, i, n), root, w, l) == Some(n))
    decreases 4 - l
  {
    hide Tree, Index, Grow, EntryAt;
    if l < 4 {
      var j := Index(w, l + 1);
      GrowTables(mem, root, level, f, i, n, w, l + 1);
      TableInTree(mem, root, level, w, l + 1);
      GrowEntryAt(mem, root, level, f, i, n, n, j);
      if TableAt(mem, root, w, l + 1).Some? {
        GrowEntryAt(mem, root, level, f, i, n, TableAt(mem, root, w, l + 1).value, j);
      }
    }
  }

  /** The entries after growth: only the one at `i` of table `f` is different, and
      those of the fresh table are zero. */
  lemma GrowEntryAt(mem: Memory, root: nat, level: map<nat, nat>, f: nat, i: nat, n: nat, t: nat, j: nat)
    requires Tree(mem, root, level) && f in mem && i < 512 && !mem[f][i].present && n !in mem && j < 512
    requires t in mem || t == n
    ensures var e := EntryAt(Grow(mem, f, i, n), t, j);
            if t == n then e == ZERO
            else if t == f && j == i then e.present && e.addr == n && !EntryAt(mem, t, j).present
            else e == EntryAt(mem, t, j)
  {
    hide EntryOk, PointsTo;
  }

  lemma GrowLeaf(mem: Memory, root: nat, level: map<nat, nat>, f: nat, i: nat, n: nat, w: nat)
    requires Tree(mem, root, level) && f in mem && level[f] > 1 && i < 512 && !mem[f][i].present
    requires n !in mem && n != 0
    ensures Leaf(Grow(mem, f, i, n), root, w) == Leaf(mem, root, w)
  {
    GrowTables(mem, root, level, f, i, n, w, 1);
    TableInTree(mem, root, level, w, 1);
  }

  lemma GrowEntries(mem: Memory, root: nat, level: map<nat, nat>, f: nat, i: nat, n: nat, g: nat, j: nat)
    requires Tree(mem, root, level) && f in mem && level[f] > 1 && i < 512 && !mem[f][i].present
    requires n !in mem && n != 0 && g in Grow(mem, f, i, n) && j < 512
    ensures EntryOk(Grow(mem, f, i, n), level[n := level[f] - 1], g, j)
  {
    if g in mem {
      assert EntryOk(mem, level, g, j);
    }
  }

  lemma GrowKeeps(mem: Memory, root: nat, level: map<nat, nat>, f: nat, i: nat, n: nat)
    requires Tree(mem, root, level) && f in mem && level[f] > 1 && i < 512 && !mem[f][i].present
    requires n !in mem && n != 0
    ensures Tree(Grow(mem, f, i, n), root, level[n := level[f] - 1])
  {
    var mem', level' := Grow(mem, f, i, n), level[n := level[f] - 1];
    forall g, j | g in mem' && 0 <= j < 512
      ensures EntryOk(mem', level', g, j)
    {
      GrowEntries(mem, root, level, f, i, n, g, j);
    }
    forall t, g, j | PointsTo(mem', level', g, j, t)
      ensures if t == n then g == f && j == i else PointsTo(mem, level, g, j, t)
    {
      if g in mem {
        assert EntryOk(mem, level, g, j);
      }
    }
  }

  // ---- the last write ------------------------------------------------------

  function SetPage(mem: Memory, f: nat, i: nat, page: nat): Memory
    requires f in mem && i < |mem[f]|
  {
    Write(mem, f, i, mem[f][i].(present := true, readWrite := true, addr := page))
  }

  lemma {:induction false} SetPageTables(mem: Memory, root: nat, level: map<nat, nat>, f: nat, i: nat, page: nat,
                                         w: nat, l: nat)
    requires Tree(mem, root, level) && f in mem && level[f] == 1 && i < 512 && 1 <= l <= 4
    ensures TableAt(SetPage(mem, f, i, page), root, w, l) == TableAt(mem, root, w, l)
    decreases 4 - l
  {
    hide Index, EntryOk, PointsTo;
    if l < 4 {
      SetPageTables(mem, root, level, f, i, page, w, l + 1);
      TableInTree(mem, root, level, w, l + 1);
    }
  }

  lemma SetPageKeeps(mem: Memory, root: nat, level: map<nat, nat>, f: nat, i: nat, page: nat)
    requires Tree(mem, root, level) && f in mem && level[f] == 1 && i < 512
    ensures Tree(SetPage(mem, f, i, page), root, level)
  {
    var mem' := SetPage(mem, f, i, page);
    forall g, j | g in mem' && 0 <= j < 512
      ensures EntryOk(mem', level, g, j)
    {
      assert EntryOk(mem, level, g, j);
    }
    assert forall t, g, j | PointsTo(mem', level, g, j, t) :: PointsTo(mem, level, g, j, t);
  }

  /** The entry of a page once it is mapped: what else was in it stays. */
  function Mapped(was: Option<Entry>, page: nat): Entry {
    (if was.Some? then was.value else ZERO).(present := true, readWrite := true, addr := page)
  }

  /** Writing the leaf of `v` maps the page of `v` and no other. */
  lemma SetPageLeaf(mem: Memory, root: nat, level: map<nat, nat>, v: nat, page: nat, w: nat)
    requires Tree(mem, root, level) && TableAt(mem, root, v, 1).Some?
    requires TableAt(mem, root, v, 1).value in mem && |mem[TableAt(mem, root, v, 1).value]| == 512
    ensures Leaf(SetPage(mem, TableAt(mem, root, v, 1).value, Index(v, 1), page), root, w)
         == if PageOf(w) == PageOf(v) then Some(Mapped(Leaf(mem, root, v), page)) else Leaf(mem, root, w)
  {
    var f := TableAt(mem, root, v, 1).value;
    TableInTree(mem, root, level, v, 1);
    assert EntryOk(mem, level, f, Index(v, 1));
    hide Index, PageOf, TableAt, Tree;
    SetPageTables(mem, root, level, f, Index(v, 1), page, w, 1);
    SamePage(v, w);
    if TableAt(mem, root, w, 1) == Some(f) {
      OnePath(mem, root, level, v, w, 1, 2);
      OnePath(mem, root, level, v, w, 1, 3);
      OnePath(mem, root, level, v, w, 1, 4);
    } else if PageOf(w) == PageOf(v) {
      SameIndicesSameTable(mem, root, v, w, 1);
    }
  }

  lemma {:induction false} SameIndicesSameTable(mem: Memory, root: nat, v: nat, w: nat, l: nat)
    requires 1 <= l <= 4 && forall k | 1 <= k <= 4 :: Index(v, k) == Index(w, k)
    ensures TableAt(mem, root, v, l) == TableAt(mem, root, w, l)
    decreases 4 - l
  {
    if l < 4 {
      SameIndicesSameTable(mem, root, v, w, l + 1);
    }
  }

  // ---- what can be written stays so ----------------------------------------

  /** No table on the way to an address changes, and no entry that is present and
      writable stops being so. */
  ghost predicate Extends(mem: Memory, mem': Memory, root: nat) {
    && (forall w, l | 1 <= l <= 4 && TableAt(mem, root, w, l).Some? ::
          TableAt(mem', root, w, l) == TableAt(mem, root, w, l))
    && (forall t, j | Open(mem, t, j) :: Open(mem', t, j))
  }

  predicate Open(mem: Memory, t: nat, j: nat) {
    EntryAt(mem, t, j).present && EntryAt(mem, t, j).readWrite
  }

  lemma {:induction false} ExtendsWritable(mem: Memory, mem': Memory, root: nat, w: nat, l: nat)
    requires Extends(mem, mem', root) && 1 <= l <= 4 && Writable(mem, root, w, l)
    ensures Writable(mem', root, w, l)
    decreases 4 - l
  {
    hide Index, EntryAt;
    assert TableAt(mem', root, w, l) == TableAt(mem, root, w, l);
    assert Open(mem, TableAt(mem, root, w, l).value, Index(w, l));
    assert Open(mem', TableAt(mem, root, w, l).value, Index(w, l));
    if l < 4 {
      ExtendsWritable(mem, mem', root, w, l + 1);
    }
  }

  lemma TouchExtends(mem: Memory, root: nat, f: nat, i: nat)
    requires f in mem && i < |mem[f]| && mem[f][i].present
    ensures Extends(mem, Touch(mem, f, i), root) && Open(Touch(mem, f, i), f, i)
  {
    forall w, l | 1 <= l <= 4
      ensures TableAt(Touch(mem, f, i), root, w, l) == TableAt(mem, root, w, l)
    {
      TouchTables(mem, root, f, i, w, l);
    }
  }

  lemma GrowExtends(mem: Memory, root: nat, level: map<nat, nat>, f: nat, i: nat, n: nat)
    requires Tree(mem, root, level) && f in mem && level[f] > 1 && i < 512 && !mem[f][i].present
    requires n !in mem && n != 0
    ensures Extends(mem, Grow(mem, f, i, n), root) && Open(Grow(mem, f, i, n), f, i)
  {
    forall w, l | 1 <= l <= 4 && TableAt(mem, root, w, l).Some?
      ensures TableAt(Grow(mem, f, i, n), root, w, l) == TableAt(mem, root, w, l)
    {
      GrowTables(mem, root, level, f, i, n, w, l);
    }
    hide EntryOk, PointsTo;
  }

  lemma SetPageExtends(mem: Memory, root: nat, level: map<nat, nat>, f: nat, i: nat, page: nat)
    requires Tree(mem, root, level) && f in mem && level[f] == 1 && i < 512
    ensures Extends(mem, SetPage(mem, f, i, page), root) && Open(SetPage(mem, f, i, page), f, i)
  {
    forall w, l | 1 <= l <= 4
      ensures TableAt(SetPage(mem, f, i, page), root, w, l) == TableAt(mem, root, w, l)
    {
      SetPageTables(mem, root, level, f, i, page, w, l);
    }
    hide EntryOk, PointsTo;
  }

  /** One level further down. */
  lemma NextWritable(mem: Memory, mem': Memory, root: nat, v: nat, l: nat, f: nat)
    requires Extends(mem, mem', root) && 1 <= l <= 4 && TableAt(mem, root, v, l) == Some(f)
    requires Open(mem', f, Index(v, l)) && (l < 4 ==> Writable(mem, root, v, l + 1))
    ensures Writable(mem', root, v, l)
  {
    hide Index, EntryAt;
    assert TableAt(mem', root, v, l) == Some(f);
    if l < 4 {
      ExtendsWritable(mem, mem', root, v, l + 1);
    }
  }

  lemma AllStayWritable(mem: Memory, mem': Memory, root: nat)
    requires Extends(mem, mem', root)
    ensures forall w, l | 1 <= l <= 4 && Writable(mem, root, w, l) :: Writable(mem', root, w, l)
  {
    forall w, l | 1 <= l <= 4 && Writable(mem, root, w, l)
      ensures Writable(mem', root, w, l)
    {
      ExtendsWritable(mem, mem', root, w, l);
    }
  }

  /** Addresses of one page are writable together. */
  lemma {:induction false} SamePageWritable(mem: Memory, root: nat, v: nat, w: nat, l: nat)
    requires 1 <= l <= 4 && (forall k | 1 <= k <= 4 :: Index(v, k) == Index(w, k)) && Writable(mem, root, v, l)
    ensures Writable(mem, root, w, l)
    decreases 4 - l
  {
    SameIndicesSameTable(mem, root, v, w, l);
    if l < 4 {
      SamePageWritable(mem, root, v, w, l + 1);
    }
  }

  // ---- how many tables are missing -----------------------------------------

  /** The tables below level `l` that an address does not have yet. */
  function Missing(mem: Memory, root: nat, v: nat, l: nat): nat
    requires 1 <= l <= 4
  {
    if l == 1 then 0
    else Missing(mem, root, v, l - 1) + if TableAt(mem, root, v, l - 1).None? then 1 else 0
  }

  /** Without a table there are none below it. */
  lemma {:induction false} AllMissing(mem: Memory, root: nat, v: nat, l: nat)
    requires 1 <= l <= 4 && TableAt(mem, root, v, l).None?
    ensures Missing(mem, root, v, l) == l - 1
    decreases l
  {
    if l > 1 {
      AllMissing(mem, root, v, l - 1);
    }
  }

  lemma {:induction false} TouchMissing(mem: Memory, root: nat, f: nat, i: nat, v: nat, l: nat)
    requires f in mem && i < |mem[f]| && mem[f][i].present && 1 <= l <= 4
    ensures Missing(Touch(mem, f, i), root, v, l) == Missing(mem, root, v, l)
    decreases l
  {
    if l > 1 {
      TouchTables(mem, root, f, i, v, l - 1);
      TouchMissing(mem, root, f, i, v, l - 1);
    }
  }

  /** A fresh table has nothing below it. */
  lemma FreshMissing(mem: Memory, root: nat, v: nat, l: nat, n: nat)
    requires 1 <= l <= 4 && TableAt(mem, root, v, l) == Some(n) && n in mem && mem[n] == ZeroPage()
    ensures Missing(mem, root, v, l) == l - 1
  {
    if l > 1 {
      assert TableAt(mem, root, v, l - 1).None?;
      AllMissing(mem, root, v, l - 1);
    }
  }

  // ---- map and is_mapped ---------------------------------------------------

  /** The tables that CR3 points to, and the page allocator that feeds them. */
  class Mmu {
    const root: nat
    var mem: Memory
    var allocationFrame: nat        // allocation_addr, as a frame number
    ghost const poolEnd: nat        // the allocator owns the frames from here to allocationFrame
    ghost var level: map<nat, nat>

    /** The memory is a tree, and no frame still to be allocated is in it. */
    ghost predicate Valid()
      reads this
    {
      && Tree(mem, root, level)
      && 1 <= poolEnd <= allocationFrame <= 0x100_0000_0000
      && forall f | poolEnd <= f < allocationFrame :: f !in mem
    }

    /** An empty root table, and an allocator with `pool` frames above `poolEnd`. */
    constructor (root: nat, poolEnd: nat, pool: nat)
      requires root != 0 && 1 <= poolEnd && poolEnd + pool <= 0x100_0000_0000
      requires !(poolEnd <= root < poolEnd + pool)
      ensures Valid() && allocationFrame - this.poolEnd == pool
      ensures forall w :: Walk(mem, this.root, w) == None
    {
      this.root := root;
      this.poolEnd := poolEnd;
      mem := map[root := ZeroPage()];
      level := map[root := 4];
      allocationFrame := poolEnd + pool;
      new;
      forall w
        ensures Walk(mem, this.root, w) == None
      {
        assert TableAt(mem, this.root, w, 3) == None && TableAt(mem, this.root, w, 2) == None;
      }
    }

    /** memory::alloc_page: the next page down, zeroed. */
    method AllocPage() returns (frame: nat)
      requires poolEnd < allocationFrame
      modifies this`mem, this`allocationFrame
      ensures allocationFrame == old(allocationFrame) - 1 && frame == allocationFrame
      ensures mem == old(mem)[frame := ZeroPage()]
    {
      allocationFrame := allocationFrame - 1;
      frame := allocationFrame;
      mem := mem[frame := ZeroPage()];
    }

    /** One level of `map`: makes the entry present and writable, allocating the
        table below it if there is none, and returns that table. */
    method Descend(v: nat, l: nat, table: nat) returns (child: nat)
      requires Valid() && 2 <= l <= 4 && poolEnd + Missing(mem, root, v, l) <= allocationFrame
      requires TableAt(mem, root, v, l) == Some(table) && (l < 4 ==> Writable(mem, root, v, l + 1))
      modifies this`mem, this`level, this`allocationFrame
      ensures Valid() && Writable(mem, root, v, l)
      ensures forall w, k | 1 <= k <= 4 && old(Writable(mem, root, w, k)) :: Writable(mem, root, w, k)
      ensures allocationFrame - Missing(mem, root, v, l - 1) == old(allocationFrame - Missing(mem, root, v, l))
      ensures TableAt(mem, root, v, l - 1) == Some(child)
      ensures forall w :: Leaf(mem, root, w) == old(Leaf(mem, root, w))
    {
      ghost var was := mem;
      var i := Index(v, l);
      LevelFacts(mem, root, level, v, l, table);
      TouchedEntry(mem, table, i);
      hide Tree, Index, TableAt, Leaf, Grow, Missing, Touch, Write, EntryAt, ZeroPage, Extends, Open, Writable;
      mem := Touch(mem, table, i);
      child := mem[table][i].addr;
      if child == 0 {
        child := AllocPage();
        mem := Write(mem, table, i, mem[table][i].(addr := child));
        GrowInSteps(was, table, i, child);
        Grown(was, mem, root, level, v, l, table, child);
        level := level[child := l - 1];
      } else {
        Touched(was, mem, root, level, v, l, table);
      }
      NextWritable(was, mem, root, v, l, table);
      AllStayWritable(was, mem, root);
    }

    /** map: three levels of descent, then the entry of the page itself. Every
        address of the page of `v` now translates to the frame of `phys` and can be
        written to; what else was in its entry stays. Every other page keeps its
        entry, and can be written to if it could. The allocator gives up one page for
        each table that was missing, no more. */
    method Map(v: nat, phys: nat)
      requires Valid() && poolEnd + Missing(mem, root, v, 4) <= allocationFrame
      modifies this`mem, this`level, this`allocationFrame
      ensures Valid() && allocationFrame == old(allocationFrame - Missing(mem, root, v, 4))
      ensures forall w | PageOf(w) == PageOf(v) :: Walk(mem, root, w) == Some(phys / PAGE_SIZE % 0x100_0000_0000)
      ensures forall w | PageOf(w) == PageOf(v) :: Writable(mem, root, w, 1)
      ensures forall w | PageOf(w) == PageOf(v) ::
                var e, was := Leaf(mem, root, w), old(Leaf(mem, root, v));
                && e.Some? && e.value.present && e.value.readWrite
                && (was.Some? ==> e.value.large == was.value.large && e.value.others == was.value.others)
                && (was.None? ==> !e.value.large && e.value.others == 0)
      ensures forall w | PageOf(w) != PageOf(v) :: Leaf(mem, root, w) == old(Leaf(mem, root, w))
      ensures forall w | PageOf(w) != PageOf(v) :: Walk(mem, root, w) == old(Walk(mem, root, w))
      ensures forall w | old(Writable(mem, root, w, 1)) :: Writable(mem, root, w, 1)
    {
      hide Tree, Index, Leaf, PageOf, EntryAt, Writable, Extends, Open;
      var pdpt := Descend(v, 4, root);
      var pd := Descend(v, 3, pdpt);
      var pt := Descend(v, 2, pd);
      LeafFacts(mem, root, level, v, pt);
      ghost var was := mem;
      var i := Index(v, 1);
      var page := phys / PAGE_SIZE % 0x100_0000_0000;
      mem := SetPage(mem, pt, i, page);
      SetPageKeeps(was, root, level, pt, i, page);
      SetPageExtends(was, root, level, pt, i, page);
      NextWritable(was, mem, root, v, 1, pt);
      AllStayWritable(was, mem, root);
      forall w
        ensures Leaf(mem, root, w)
             == if PageOf(w) == PageOf(v) then Some(Mapped(Leaf(was, root, v), page)) else Leaf(was, root, w)
        ensures PageOf(w) == PageOf(v) ==> Writable(mem, root, w, 1)
      {
        SetPageLeaf(was, root, level, v, page, w);
        if PageOf(w) == PageOf(v) {
          SamePage(v, w);
          SamePageWritable(mem, root, v, w, 1);
        }
      }
    }

    /** is_mappped: gives up at the first entry that is not present. */
    method IsMapped(v: nat) returns (mapped: bool)
      requires Valid()
      ensures mapped == Walk(mem, root, v).Some?
    {
      TableInTree(mem, root, level, v, 3);
      TableInTree(mem, root, level, v, 2);
      TableInTree(mem, root, level, v, 1);
      hide Index;
      var pml4e := mem[root][Index(v, 4)];
      if !pml4e.present { return false; }
      assert TableAt(mem, root, v, 3) == Some(pml4e.addr);
      var pdpte := mem[pml4e.addr][Index(v, 3)];
      if !pdpte.present { return false; }
      assert TableAt(mem, root, v, 2) == Some(pdpte.addr);
      assert EntryOk(mem, level, pdpte.addr, 0);
      if mem[pdpte.addr][0].large { return true; }
      var pde := mem[pdpte.addr][Index(v, 2)];
      if !pde.present { return false; }
      assert TableAt(mem, root, v, 1) == Some(pde.addr);
      return mem[pde.addr][Index(v, 1)].present;
    }
  }

  lemma LeafFacts(mem: Memory, root: nat, level: map<nat, nat>, v: nat, table: nat)
    requires Tree(mem, root, level) && TableAt(mem, root, v, 1) == Some(table)
    ensures table in mem && |mem[table]| == 512 && table in level && level[table] == 1
  {
    TableInTree(mem, root, level, v, 1);
  }

  /** The entry of `v` in its table at a level above the last. */
  lemma LevelFacts(mem: Memory, root: nat, level: map<nat, nat>, v: nat, l: nat, table: nat)
    requires Tree(mem, root, level) && 2 <= l <= 4 && TableAt(mem, root, v, l) == Some(table)
    ensures table in mem && |mem[table]| == 512 && table in level && level[table] == l
    ensures var e := mem[table][Index(v, l)]; e.addr != 0 <==> e.present
  {
    TableInTree(mem, root, level, v, l);
    assert EntryOk(mem, level, table, Index(v, l));
  }

  /** Marking the entry, clearing the new page and storing its address. */
  lemma GrowInSteps(mem: Memory, f: nat, i: nat, n: nat)
    requires f in mem && i < |mem[f]| && n !in mem
    ensures var m: Memory := Touch(mem, f, i)[n := ZeroPage()];
            Write(m, f, i, m[f][i].(addr := n)) == Grow(mem, f, i, n)
  {
    var m: Memory := Touch(mem, f, i)[n := ZeroPage()];
    var a: Memory, b: Memory := Write(m, f, i, m[f][i].(addr := n)), Grow(mem, f, i, n);
    assert a[f] == b[f] && a.Keys == b.Keys;
  }

  /** What a level of descent amounts to, with a fresh table or without. */
  lemma Grown(mem: Memory, mem': Memory, root: nat, level: map<nat, nat>, v: nat, l: nat, f: nat, n: nat)
    requires Tree(mem, root, level) && 2 <= l <= 4 && TableAt(mem, root, v, l) == Some(f)
    requires f in mem && |mem[f]| == 512 && !mem[f][Index(v, l)].present && n !in mem && n != 0
    requires mem' == Grow(mem, f, Index(v, l), n)
    ensures Tree(mem', root, level[n := l - 1]) && mem'.Keys == mem.Keys + {n}
    ensures TableAt(mem', root, v, l - 1) == Some(n) && Missing(mem', root, v, l - 1) == l - 2
    ensures Missing(mem, root, v, l) == l - 1
    ensures forall w :: Leaf(mem', root, w) == Leaf(mem, root, w)
    ensures Extends(mem, mem', root) && Open(mem', f, Index(v, l))
  {
    TableInTree(mem, root, level, v, l);
    GrowExtends(mem, root, level, f, Index(v, l), n);
    hide Extends, Open;
    NextMissing(mem, root, v, l, f);
    GrowLevel(mem, root, level, v, l, f, n);
    hide Tree, Index, Leaf, Missing, TableAt, Grow;
    FreshMissing(mem', root, v, l - 1, n);
  }

  lemma Touched(mem: Memory, mem': Memory, root: nat, level: map<nat, nat>, v: nat, l: nat, f: nat)
    requires Tree(mem, root, level) && 2 <= l <= 4 && TableAt(mem, root, v, l) == Some(f)
    requires f in mem && |mem[f]| == 512 && mem[f][Index(v, l)].present
    requires mem' == Touch(mem, f, Index(v, l))
    ensures Tree(mem', root, level) && mem'.Keys == mem.Keys
    ensures TableAt(mem', root, v, l - 1) == Some(mem[f][Index(v, l)].addr)
    ensures Missing(mem', root, v, l - 1) == Missing(mem, root, v, l)
    ensures forall w :: Leaf(mem', root, w) == Leaf(mem, root, w)
    ensures Extends(mem, mem', root) && Open(mem', f, Index(v, l))
  {
    TouchExtends(mem, root, f, Index(v, l));
    hide Extends, Open;
    TouchedEntry(mem, f, Index(v, l));
    NextMissing(mem, root, v, l, f);
    TouchLevel(mem, root, level, v, l, f);
    hide Tree, Index, Leaf, Missing, TableAt;
    TouchMissing(mem, root, f, Index(v, l), v, l - 1);
  }

  lemma TouchedEntry(mem: Memory, f: nat, i: nat)
    requires f in mem && i < |mem[f]|
    ensures var mem' := Touch(mem, f, i);
            mem'.Keys == mem.Keys && |mem'[f]| == |mem[f]| && mem'[f][i].addr == mem[f][i].addr
  {
  }

  /** The next table is missing exactly if its entry is not present. */
  lemma NextMissing(mem: Memory, root: nat, v: nat, l: nat, table: nat)
    requires 2 <= l <= 4 && TableAt(mem, root, v, l) == Some(table)
    ensures EntryAt(mem, table, Index(v, l)).present ==> Missing(mem, root, v, l) == Missing(mem, root, v, l - 1)
    ensures !EntryAt(mem, table, Index(v, l)).present ==> Missing(mem, root, v, l) == l - 1
  {
    if !EntryAt(mem, table, Index(v, l)).present {
      AllMissing(mem, root, v, l - 1);
    }
  }

  lemma GrowLevel(mem: Memory, root: nat, level: map<nat, nat>, v: nat, l: nat, f: nat, n: nat)
    requires Tree(mem, root, level) && 2 <= l <= 4 && TableAt(mem, root, v, l) == Some(f)
    requires f in mem && f in level && level[f] == l && |mem[f]| == 512 && !mem[f][Index(v, l)].present
    requires n !in mem && n != 0
    ensures var mem' := Grow(mem, f, Index(v, l), n);
            && Tree(mem', root, level[n := l - 1])
            && TableAt(mem', root, v, l - 1) == Some(n)
            && (forall w :: Leaf(mem', root, w) == Leaf(mem, root, w))
            && mem'.Keys == mem.Keys + {n} && mem'[n] == ZeroPage()
  {
    hide Tree, Index, Leaf;
    var i := Index(v, l);
    GrowKeeps(mem, root, level, f, i, n);
    GrowTables(mem, root, level, f, i, n, v, l);
    forall w
      ensures Leaf(Grow(mem, f, i, n), root, w) == Leaf(mem, root, w)
    {
      GrowLeaf(mem, root, level, f, i, n, w);
    }
  }

  lemma TouchLevel(mem: Memory, root: nat, level: map<nat, nat>, v: nat, l: nat, f: nat)
    requires Tree(mem, root, level) && 2 <= l <= 4 && TableAt(mem, root, v, l) == Some(f)
    requires f in mem && |mem[f]| == 512 && mem[f][Index(v, l)].present
    ensures var mem' := Touch(mem, f, Index(v, l));
            && Tree(mem', root, level)
            && TableAt(mem', root, v, l - 1) == Some(mem'[f][Index(v, l)].addr)
            && (forall w :: Leaf(mem', root, w) == Leaf(mem, root, w))
            && mem'.Keys == mem.Keys
  {
    TableInTree(mem, root, level, v, l);
    hide Tree, Index, Leaf;
    TouchKeeps(mem, root, level, f, Index(v, l));
    TouchTables(mem, root, f, Index(v, l), v, l);
  }
}
