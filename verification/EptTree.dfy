/** The radix tree of a private EPT as a map from tree positions to table frames, the hardware walk
    over it, and the agreement of that walk with a scan of the leaf list. */
module EptTree {
  import opened Wrappers
  import opened EptEntry
  import opened EptFrames
  import opened ImeeView

  /** A position in the tree: the indices taken from the root. */
  datatype Path = Root | Child(parent: Path, idx: nat)

  function Depth(p: Path): nat {
    match p
    case Root => 0
    case Child(q, _) => Depth(q) + 1
  }

  /** `idx[i]`: bits 35:27, 26:18, 17:9 and 8:0 of the guest frame number. */
  function Index(gfn: nat, i: nat): nat
    requires i < 4
  {
    (if i == 0 then gfn / 0x800_0000 else if i == 1 then gfn / 0x4_0000 else if i == 2 then gfn / 0x200 else gfn) % 512
  }

  function PathAt(gfn: nat, depth: nat): (p: Path)
    requires depth < 4
    ensures Depth(p) == depth
  {
    if depth == 0 then Root else Child(PathAt(gfn, depth - 1), Index(gfn, depth - 1))
  }

  function LeafPath(gfn: nat): Path { PathAt(gfn, 3) }

  /** Two frames below 2^36 have the same leaf position iff they lie in the same 2 MB region. */
  lemma SameLeafPath(g: nat, h: nat)
    requires g < GFN_LIMIT && h < GFN_LIMIT
    ensures LeafPath(g) == LeafPath(h) <==> SameTable(g, h)
  {
    LeafPathIndices(g);
    LeafPathIndices(h);
    Recompose(g);
    Recompose(h);
  }

  lemma LeafPathIndices(g: nat)
    ensures LeafPath(g) == Child(Child(Child(Root, Index(g, 0)), Index(g, 1)), Index(g, 2))
  {
    assert PathAt(g, 1) == Child(Root, Index(g, 0));
    assert PathAt(g, 2) == Child(PathAt(g, 1), Index(g, 1));
  }

  lemma Recompose(g: nat)
    requires g < GFN_LIMIT
    ensures g / 512 == Index(g, 0) * 0x4_0000 + Index(g, 1) * 512 + Index(g, 2)
  {
    TwoLevels(g);
    ThreeLevels(g);
    TopIndex(g);
  }

  lemma TwoLevels(n: nat)
    ensures n / 0x4_0000 == n / 512 / 512
  {
  }

  lemma ThreeLevels(n: nat)
    ensures n / 0x800_0000 == n / 0x4_0000 / 512
  {
  }

  lemma TopIndex(g: nat)
    requires g < GFN_LIMIT
    ensures g / 0x800_0000 % 512 == g / 0x800_0000
  {
  }

  /** `struct kvm_mmu_page`, the part used here. */
  datatype MmuPage = MmuPage(spt: nat, level: nat, gfn: nat)

  /** The entry of the leaf list that `get_epte` stops at. */
  function First(leaves: seq<MmuPage>, gfn: nat): Option<MmuPage> {
    if leaves == [] then None
    else if leaves[0].gfn == gfn / 512 * 512 then Some(leaves[0])
    else First(leaves[1..], gfn)
  }

  function ListSlot(leaves: seq<MmuPage>, gfn: nat): Option<Slot> {
    match First(leaves, gfn)
    case None => None
    case Some(l) => Some(Slot(l.spt, gfn % 512))
  }

  /** The leaf entries that the list reaches. */
  ghost function ViewOf(mem: Memory, leaves: seq<MmuPage>): View {
    map g: nat | g < GFN_LIMIT && First(leaves, g).Some? :: Read(mem, Slot(First(leaves, g).value.spt, g % 512))
  }

  type Tables = map<Path, nat>

  /** `tables` is prefix-closed, at most four levels deep, and no frame sits at two positions. */
  ghost predicate Shape(tables: Tables) {
    && Root in tables
    && (forall p, i: nat {:trigger Child(p, i)} :: Child(p, i) in tables ==> p in tables && Depth(p) < 3 && i < ENTRIES)
    && (forall p, q {:trigger tables[p], tables[q]} :: p in tables && q in tables && tables[p] == tables[q] ==> p == q)
  }

  function LinkTo(tables: Tables, p: Path): Epte { if p in tables then TableEntry(tables[p]) else ABSENT }

  /** Every non-leaf entry in memory is the link to the table below, or zero. */
  ghost predicate Links(mem: Memory, tables: Tables) {
    forall p, i: nat {:trigger Child(p, i)} ::
      p in tables && Depth(p) < 3 && i < ENTRIES ==> Read(mem, Slot(tables[p], i)) == LinkTo(tables, Child(p, i))
  }

  /** The leaf tables in the tree are the first list entries of their regions. */
  ghost predicate LeavesLinked(tables: Tables, leaves: seq<MmuPage>) {
    forall g: nat {:trigger First(leaves, g)} :: g < GFN_LIMIT ==>
      && (LeafPath(g) in tables <==> First(leaves, g).Some?)
      && (First(leaves, g).Some? ==> tables[LeafPath(g)] == First(leaves, g).value.spt)
  }

  // ----- the hardware walk

  datatype Walk = Violation | LargePage(entry: Epte) | Leaf(slot: Slot)

  /** Intel SDM Vol. 3C, section 28.2.2: from the table at level 4 - i down to the EPT entry of a 4 KB page.
      The hardware takes bits 51:12 of an entry as the next table. */
  function HwWalk(mem: Memory, table: nat, gfn: nat, i: nat): Walk
    requires i < 4
    decreases 4 - i
  {
    var s := Slot(table, Index(gfn, i));
    var e := Read(mem, s);
    if i == 3 then Leaf(s)
    else if !Present(e) then Violation
    else if i > 0 && e.low & 0x80 != 0 then LargePage(e)
    else HwWalk(mem, e.frame % FRAME_LIMIT, gfn, i + 1)
  }

  lemma PrefixInTree(tables: Tables, gfn: nat, i: nat)
    requires Shape(tables) && i < 4 && LeafPath(gfn) in tables
    ensures PathAt(gfn, i) in tables
    decreases 4 - i
  {
    if i < 3 {
      PrefixInTree(tables, gfn, i + 1);
      assert PathAt(gfn, i + 1) == Child(PathAt(gfn, i), Index(gfn, i));
    }
  }

  lemma {:induction false} WalkFollowsPath(mem: Memory, tables: Tables, gfn: nat, i: nat)
    requires Shape(tables) && Links(mem, tables) && i < 4 && PathAt(gfn, i) in tables
    requires forall p :: p in tables ==> tables[p] < FRAME_LIMIT
    ensures HwWalk(mem, tables[PathAt(gfn, i)], gfn, i)
         == if LeafPath(gfn) in tables then Leaf(Slot(tables[LeafPath(gfn)], Index(gfn, 3))) else Violation
    decreases 4 - i
  {
    if i < 3 {
      var p := PathAt(gfn, i);
      var next := PathAt(gfn, i + 1);
      assert next == Child(p, Index(gfn, i));
      if next in tables {
        WalkFollowsPath(mem, tables, gfn, i + 1);
      } else if LeafPath(gfn) in tables {
        PrefixInTree(tables, gfn, i + 1);
      }
    }
  }

  /** The walk from the root ends at exactly the slot that a scan of the leaf list finds. */
  lemma WalkAgreesWithList(mem: Memory, tables: Tables, leaves: seq<MmuPage>, gfn: nat)
    requires Shape(tables) && Links(mem, tables) && LeavesLinked(tables, leaves) && gfn < GFN_LIMIT
    requires forall p :: p in tables ==> tables[p] < FRAME_LIMIT
    ensures HwWalk(mem, tables[Root], gfn, 0) ==
              match ListSlot(leaves, gfn) case None => Violation case Some(s) => Leaf(s)
  {
    WalkFollowsPath(mem, tables, gfn, 0);
    assert First(leaves, gfn).Some? <==> LeafPath(gfn) in tables;
  }

  // ----- tables that were not cleared

  ghost predicate SameWords(mem: Memory, mem': Memory, table: nat) {
    forall k :: 0 <= k < ENTRIES ==> Read(mem', Slot(table, k)) == Read(mem, Slot(table, k))
  }

  /** Whatever the rest of memory holds, the hardware finds nothing below the table, as in an empty one. */
  ghost predicate Harmless(mem: Memory, table: nat, i: nat)
    requires i < 4
  {
    forall mem', gfn: nat :: SameWords(mem, mem', table) && gfn < GFN_LIMIT ==> HwWalk(mem', table, gfn, i) == Violation
  }

  ghost predicate NonePresent(mem: Memory, table: nat) {
    forall k :: 0 <= k < ENTRIES ==> !Present(Read(mem, Slot(table, k)))
  }

  /** `map_epte` builds a table of its own below the entry, for every guest frame. */
  ghost predicate BuildsAfresh(mem: Memory, table: nat, i: nat)
    requires i < 4
  {
    forall gfn: nat :: gfn < GFN_LIMIT ==> Read(mem, Slot(table, Index(gfn, i))) == ABSENT
  }

  /** The frame whose four indices are all `k`. */
  function Diagonal(k: nat): nat { k * 0x800_0000 + k * 0x4_0000 + k * 0x200 + k }

  lemma DiagonalIndex(k: nat, i: nat)
    requires k < ENTRIES && i < 4
    ensures Index(Diagonal(k), i) == k && Diagonal(k) < GFN_LIMIT
  {
    var top := k * 512 + k;
    Cut(Diagonal(k), top * 512 + k, k);
    Cut(top * 512 + k, top, k);
    Cut(top, k, k);
    TwoLevels(Diagonal(k));
    ThreeLevels(Diagonal(k));
    assert k % 512 == k;
  }

  lemma Cut(n: nat, high: nat, low: nat)
    requires n == high * 512 + low && low < 512
    ensures n / 512 == high && n % 512 == low
  {
  }

  lemma {:induction false} DiagonalWalk(mem: Memory, table: nat, k: nat, i: nat)
    requires k < ENTRIES && i < 4
    requires i < 3 ==>
               var next := Read(mem, Slot(table, k)).frame % FRAME_LIMIT;
               && Present(Read(mem, Slot(table, k)))
               && Present(Read(mem, Slot(next, k))) && Read(mem, Slot(next, k)).frame % FRAME_LIMIT == next
    ensures HwWalk(mem, table, Diagonal(k), i) != Violation
    decreases 4 - i
  {
    DiagonalIndex(k, i);
    if i < 3 {
      DiagonalWalk(mem, Read(mem, Slot(table, k)).frame % FRAME_LIMIT, k, i + 1);
    }
  }

  /** A present word leads the hardware on, whatever it links: its frame may hold a further link. */
  lemma PresentWordHarms(mem: Memory, table: nat, i: nat, k: nat)
    requires table < FRAME_LIMIT && i < 3 && k < ENTRIES && Present(Read(mem, Slot(table, k)))
    ensures !Harmless(mem, table, i)
  {
    hide Present, Index, Diagonal, HwWalk, TableEntry;
    var next := Read(mem, Slot(table, k)).frame % FRAME_LIMIT;
    var mem' := if next == table then mem else mem[Slot(next, k) := TableEntry(next)];
    TableEntryPresent(next);
    DiagonalIndex(k, 0);
    DiagonalWalk(mem', table, k, i);
    assert SameWords(mem, mem', table);
  }

  lemma TableEntryPresent(frame: nat)
    ensures Present(TableEntry(frame)) && TableEntry(frame).low & 0x80 == 0 && TableEntry(frame).frame == frame
  {
  }

  /** A non-leaf table that was not cleared is harmless to the hardware exactly if none of its words is present; and
      `map_epte`, which tests for zero instead, takes it for an empty table exactly if it is zeroed. */
  lemma UnclearedTable(mem: Memory, table: nat, i: nat)
    requires table < FRAME_LIMIT && i < 3
    ensures Harmless(mem, table, i) <==> NonePresent(mem, table)
    ensures BuildsAfresh(mem, table, i) <==> Zeroed(mem, table)
  {
    hide Present, Index, Diagonal;
    if NonePresent(mem, table) {
      forall mem', gfn: nat | SameWords(mem, mem', table) && gfn < GFN_LIMIT
        ensures HwWalk(mem', table, gfn, i) == Violation
      {
        IndexBound(gfn, i);
        assert Read(mem', Slot(table, Index(gfn, i))) == Read(mem, Slot(table, Index(gfn, i)));
      }
    } else {
      var k: nat :| k < ENTRIES && Present(Read(mem, Slot(table, k)));
      PresentWordHarms(mem, table, i, k);
    }
    forall gfn: nat | gfn < GFN_LIMIT
      ensures Index(gfn, i) < ENTRIES
    {
      IndexBound(gfn, i);
    }
    if BuildsAfresh(mem, table, i) {
      forall k | 0 <= k < ENTRIES
        ensures Read(mem, Slot(table, k)) == ABSENT
      {
        DiagonalIndex(k, i);
      }
    }
  }

  lemma IndexBound(gfn: nat, i: nat)
    requires i < 4
    ensures Index(gfn, i) < ENTRIES
  {
  }

  /** A table whose first word links the table itself. */
  lemma SelfLinked(mem: Memory, table: nat)
    requires table < FRAME_LIMIT && Read(mem, Slot(table, 0)) == TableEntry(table)
    ensures HwWalk(mem, table, 0, 0) == Leaf(Slot(table, 0)) && !Harmless(mem, table, 0)
  {
    TableEntryPresent(table);
    assert HwWalk(mem, table, 0, 3) == Leaf(Slot(table, 0));
    assert HwWalk(mem, table, 0, 2) == HwWalk(mem, table, 0, 3);
    assert HwWalk(mem, table, 0, 1) == HwWalk(mem, table, 0, 2);
    assert SameWords(mem, mem, table);
  }

  /** The first frame of a chunk comes as it is, and as a root it is harmless exactly if no word of it is present. */
  method UnclearedRoot(host: FrameAllocator) returns (root: nat)
    requires host.Valid() && host.pBase != 0 && host.count < CALLS && FirstOfChunk(host.count + 1)
    requires GrantsDisjoint(host.grant) && Granted(host.grant, host.session, host.count + 1)
    modifies host
    ensures root == FrameAt(host.grant, host.session, old(host.count) + 1) && host.mem == old(host.mem)
    ensures Harmless(host.mem, root, 0) <==> NonePresent(old(host.mem), root)
    ensures BuildsAfresh(host.mem, root, 0) <==> Zeroed(old(host.mem), root)
  {
    FramesDistinct(host.grant, host.session, host.count, host.count + 1);
    root := host.GetEptPage();
    UnclearedTable(host.mem, root, 0);
  }

  /** Such a root exists: the kernel's second block starts with a word that reads as a link, and the session's 1024th
      frame becomes a root.  The hardware then finds a slot for guest frame 0, and the empty leaf list has none. */
  method StaleRoot() returns (host: FrameAllocator, root: nat)
    ensures fresh(host) && host.Valid() && host.count == CHUNK && root == FrameAt(host.grant, 0, CHUNK)
    ensures HwWalk(host.mem, root, 0, 0) == Leaf(Slot(root, 0)) && ListSlot([], 0) == None
    ensures !Harmless(host.mem, root, 0)
  {
    var stale := TableEntry(0x2000);
    host := new FrameAllocator([0x1000, 0x2000], map[Slot(0x2000, 0) := stale]);
    host.InitEptFrames();
    var n := 1;
    while n < CHUNK
      invariant 1 <= n <= CHUNK && host.Valid() && host.pBase != 0 && host.session == 0 && host.count == n - 1
      invariant Read(host.mem, Slot(0x2000, 0)) == stale
    {
      var p := host.GetEptPage();
      n := n + 1;
    }
    root := host.GetEptPage();
    SelfLinked(host.mem, root);
  }

  // ----- growing the tree

  ghost predicate CanAdd(tables: Tables, p: Path, i: nat, f: nat) {
    && p in tables && Depth(p) < 3 && i < ENTRIES && Child(p, i) !in tables
    && forall q :: q in tables ==> tables[q] != f
  }

  lemma AddKeepsShape(tables: Tables, p: Path, i: nat, f: nat)
    requires Shape(tables) && CanAdd(tables, p, i, f)
    ensures Shape(tables[Child(p, i) := f])
  {
  }

  /** No table hangs below a position outside the tree. */
  lemma NothingBelow(tables: Tables, q: Path, j: nat)
    requires Shape(tables) && q !in tables
    ensures Child(q, j) !in tables
  {
  }

  lemma AddKeepsLinks(mem: Memory, tables: Tables, p: Path, i: nat, f: nat)
    requires Shape(tables) && Links(mem, tables) && CanAdd(tables, p, i, f)
    requires Depth(p) < 2 ==> Zeroed(mem, f)
    ensures Links(mem[Slot(tables[p], i) := TableEntry(f)], tables[Child(p, i) := f])
  {
    var t := tables[Child(p, i) := f];
    var m := mem[Slot(tables[p], i) := TableEntry(f)];
    forall q, j: nat | q in t && Depth(q) < 3 && j < ENTRIES
      ensures Read(m, Slot(t[q], j)) == LinkTo(t, Child(q, j))
    {
      if q == Child(p, i) {
        NothingBelow(tables, q, j);
      } else {
        SameFrameSamePath(tables, q, p);
      }
    }
  }

  lemma SameFrameSamePath(tables: Tables, q: Path, p: Path)
    requires Shape(tables) && q in tables && p in tables
    ensures tables[q] == tables[p] <==> q == p
  {
  }

  /** Linking a zeroed frame that the tree does not use below the table at `p`. */
  lemma AddTable(mem: Memory, tables: Tables, p: Path, i: nat, f: nat)
    requires Shape(tables) && Links(mem, tables) && CanAdd(tables, p, i, f)
    requires Depth(p) < 2 ==> Zeroed(mem, f)
    ensures Shape(tables[Child(p, i) := f])
    ensures Links(mem[Slot(tables[p], i) := TableEntry(f)], tables[Child(p, i) := f])
  {
    hide Shape, Links, CanAdd;
    AddKeepsShape(tables, p, i, f);
    AddKeepsLinks(mem, tables, p, i, f);
  }

  /** How many tables are missing below level 4 - i on the way to the leaf entry of `gfn`. */
  function Missing(tables: Tables, gfn: nat, i: nat): (n: nat)
    requires i < 4
    ensures n <= 3 - i
    decreases 4 - i
  {
    if i == 3 then 0 else if PathAt(gfn, i + 1) in tables then Missing(tables, gfn, i + 1) else 3 - i
  }

  lemma {:induction false} NoneMissing(tables: Tables, gfn: nat, i: nat)
    requires Shape(tables) && i < 4
    ensures Missing(tables, gfn, i) == 0 <==> LeafPath(gfn) in tables || i == 3
    decreases 4 - i
  {
    if i < 3 {
      if PathAt(gfn, i + 1) in tables {
        NoneMissing(tables, gfn, i + 1);
      } else if LeafPath(gfn) in tables {
        PrefixInTree(tables, gfn, i + 1);
      }
    }
  }

  /** Filling the first gap leaves the tables below it missing. */
  lemma OneLessMissing(tables: Tables, gfn: nat, i: nat, f: nat)
    requires Shape(tables) && i < 3 && PathAt(gfn, i + 1) !in tables
    ensures Missing(tables[PathAt(gfn, i + 1) := f], gfn, i + 1) == Missing(tables, gfn, i) - 1
  {
    if i < 2 {
      assert PathAt(gfn, i + 2) == Child(PathAt(gfn, i + 1), Index(gfn, i + 1));
      NothingBelow(tables, PathAt(gfn, i + 1), Index(gfn, i + 1));
    }
  }

  lemma FirstOfCons(l: MmuPage, leaves: seq<MmuPage>, gfn: nat)
    ensures First([l] + leaves, gfn) == if l.gfn == gfn / 512 * 512 then Some(l) else First(leaves, gfn)
  {
    assert ([l] + leaves)[1..] == leaves;
  }

  lemma {:induction false} FirstOfSnoc(leaves: seq<MmuPage>, l: MmuPage, gfn: nat)
    ensures First(leaves + [l], gfn) ==
            if First(leaves, gfn).Some? then First(leaves, gfn) else if l.gfn == gfn / 512 * 512 then Some(l) else None
  {
    if leaves == [] {
      assert leaves + [l] == [l] && [l][1..] == [];
    } else {
      assert (leaves + [l])[1..] == leaves[1..] + [l];
      FirstOfSnoc(leaves[1..], l, gfn);
    }
  }

  lemma {:induction false} FirstIsListed(leaves: seq<MmuPage>, gfn: nat)
    ensures First(leaves, gfn).Some? ==>
              First(leaves, gfn).value in leaves && First(leaves, gfn).value.gfn == gfn / 512 * 512
  {
    if leaves != [] { FirstIsListed(leaves[1..], gfn); }
  }
}
