/** The introspection context of kvm/imee.c: a private EPT whose leaf tables are copied from the guest,
    extended on demand by `map_epte`, with one code entry hijacked at a time. */
module ImeeEpt {
  import opened Wrappers
  import opened EptEntry
  import opened EptFrames
  import opened ImeeView
  import opened EptTree

  const GPA_LIMIT := 0x1_0000_0000_0000  // 2^48

  /** A page of the guest's own EPT, as found on `active_mmu_pages`. */
  datatype GuestPage = GuestPage(level: nat, gfn: nat, spt: seq<Epte>)

  ghost predicate WellFormed(active: seq<GuestPage>) {
    forall k :: 0 <= k < |active| ==>
        |active[k].spt| == ENTRIES && active[k].gfn % 512 == 0 && active[k].gfn < GFN_LIMIT
  }

  /** Tables and leaf pages are frames of the context. */
  ghost predicate Known(frames: set<nat>, tables: Tables, leaves: seq<MmuPage>) {
    && (forall p :: p in tables ==> tables[p] in frames)
    && (forall l :: l in leaves ==> l.spt in frames)
  }

  /** What operations on a context can reach: memory, the frames handed out, and those that are the context's own. */
  datatype Footprint = Footprint(mem: Memory, issued: set<nat>, frames: set<nat>)

  /** The context changed memory in its own frames only, and all frames handed out meanwhile are its own. */
  ghost predicate OwnOnly(a: Footprint, b: Footprint) {
    && a.issued <= b.issued && b.frames == a.frames + (b.issued - a.issued)
    && forall s: Slot :: s.table !in b.frames ==> Read(b.mem, s) == Read(a.mem, s)
  }

  lemma OwnOnlyTwice(a: Footprint, b: Footprint, c: Footprint)
    requires OwnOnly(a, b) && OwnOnly(b, c)
    ensures OwnOnly(a, c)
  {
  }

  lemma OwnOnlySame(a: Footprint)
    ensures OwnOnly(a, a)
  {
  }

  /** A zeroed frame that nothing used is handed out to the context. */
  ghost predicate Takes(a: Footprint, b: Footprint, page: nat) {
    && page !in a.issued && b.issued == a.issued + {page} && b.frames == a.frames + {page}
    && 0 < page < FRAME_LIMIT && Zeroed(b.mem, page)
    && forall s: Slot :: s.table != page ==> Read(b.mem, s) == Read(a.mem, s)
  }

  /** After taking a frame the context writes one entry of a table of its own. */
  lemma TakeAndStore(a: Footprint, b: Footprint, page: nat, s: Slot, e: Epte)
    requires Takes(a, b, page) && s.table in b.frames
    ensures OwnOnly(a, b) && OwnOnly(a, b.(mem := b.mem[s := e]))
  {
  }

  /** Writes to other frames than a context's own leave its tables and its view alone. */
  lemma Elsewhere(mem: Memory, mem': Memory, tables: Tables, leaves: seq<MmuPage>, frames: set<nat>)
    requires Linked(mem, tables, leaves, leaves) && Known(frames, tables, leaves)
    requires forall s: Slot :: s.table in frames ==> Read(mem', s) == Read(mem, s)
    ensures Linked(mem', tables, leaves, leaves) && ViewOf(mem', leaves) == ViewOf(mem, leaves)
  {
    LinksSame(mem, mem', tables);
    ViewSame(mem, mem', leaves);
  }

  /** Leaf pages have frames of their own, and the leaf tables in the tree are among the linked ones. */
  ghost predicate Apart(tables: Tables, leaves: seq<MmuPage>, linked: seq<MmuPage>) {
    && (forall j, k :: 0 <= j < k < |leaves| ==> leaves[j].spt != leaves[k].spt)
    && (forall p, l {:trigger tables[p], l.spt} :: p in tables && Depth(p) < 3 && l in leaves ==> tables[p] != l.spt)
    && (forall p {:trigger IsLeafTable(tables, linked, p)} :: IsLeafTable(tables, linked, p))
  }

  ghost predicate IsLeafTable(tables: Tables, linked: seq<MmuPage>, p: Path) {
    p in tables && Depth(p) == 3 ==> exists l :: l in linked && l.spt == tables[p]
  }

  /** The entries in memory form the tree `tables`, which links the pages `linked` of the list `leaves`. */
  ghost predicate Linked(mem: Memory, tables: Tables, leaves: seq<MmuPage>, linked: seq<MmuPage>) {
    Shape(tables) && Links(mem, tables) && Apart(tables, leaves, linked) && LeavesLinked(tables, linked)
  }

  /** An entry is zero exactly where no table hangs. */
  lemma LinkIsEntry(tables: Tables, p: Path)
    ensures LinkTo(tables, p) == ABSENT <==> p !in tables
    ensures p in tables ==> LinkTo(tables, p).frame == tables[p]
  {
  }

  ghost predicate SameOn(mem: Memory, mem': Memory, leaves: seq<MmuPage>) {
    forall l, i: nat {:trigger Slot(l.spt, i)} :: l in leaves ==>
        Read(mem', Slot(l.spt, i)) == Read(mem, Slot(l.spt, i))
  }

  lemma ViewSame(mem: Memory, mem': Memory, leaves: seq<MmuPage>)
    requires SameOn(mem, mem', leaves)
    ensures ViewOf(mem', leaves) == ViewOf(mem, leaves)
  {
    forall g: nat | g < GFN_LIMIT && First(leaves, g).Some?
      ensures var s := Slot(First(leaves, g).value.spt, g % 512); Read(mem', s) == Read(mem, s)
    {
      FirstIsListed(leaves, g);
    }
  }

  /** Memory that agrees on the non-leaf tables holds the same links. */
  lemma LinksSame(mem: Memory, mem': Memory, tables: Tables)
    requires Links(mem, tables)
    requires forall p, i: nat {:trigger Slot(tables[p], i)} :: p in tables && Depth(p) < 3 && i < ENTRIES ==>
               Read(mem', Slot(tables[p], i)) == Read(mem, Slot(tables[p], i))
    ensures Links(mem', tables)
  {
  }

  /** A frame that neither the tree nor the leaf list uses. */
  ghost predicate Unused(tables: Tables, leaves: seq<MmuPage>, f: nat) {
    (forall p :: p in tables ==> tables[p] != f) && (forall l :: l in leaves ==> l.spt != f)
  }

  /** `map_epte` links a new non-leaf table below level 4 or 3. */
  lemma LinkNonLeaf(mem: Memory, tables: Tables, leaves: seq<MmuPage>, linked: seq<MmuPage>, gfn: nat, i: nat, f: nat)
    requires Linked(mem, tables, leaves, linked) && i < 2
    requires PathAt(gfn, i) in tables && PathAt(gfn, i + 1) !in tables && Unused(tables, leaves, f) && Zeroed(mem, f)
    ensures var mem' := mem[Slot(tables[PathAt(gfn, i)], Index(gfn, i)) := TableEntry(f)];
            && Linked(mem', tables[PathAt(gfn, i + 1) := f], leaves, linked)
            && ViewOf(mem', leaves) == ViewOf(mem, leaves)
  {
    var p := PathAt(gfn, i);
    var t := tables[PathAt(gfn, i + 1) := f];
    AddTable(mem, tables, p, Index(gfn, i), f);
    ViewSame(mem, mem[Slot(tables[p], Index(gfn, i)) := TableEntry(f)], leaves);
    forall q
      ensures IsLeafTable(t, linked, q)
    {
      assert IsLeafTable(tables, linked, q);
    }
    forall g: nat | g < GFN_LIMIT
      ensures LeafPath(g) in t <==> LeafPath(g) in tables
    {
      assert Depth(LeafPath(g)) == 3;
    }
  }

  /** The head of the list answers for its own region, which nothing covered before. */
  lemma FirstWithHead(tables: Tables, leaves: seq<MmuPage>, gfn: nat, l: MmuPage)
    requires LeavesLinked(tables, leaves) && gfn < GFN_LIMIT && l.gfn == gfn / 512 * 512 && LeafPath(gfn) !in tables
    ensures forall g: nat :: g < GFN_LIMIT ==>
              First([l] + leaves, g) == if SameTable(g, gfn) then Some(l) else First(leaves, g)
    ensures forall g: nat :: g < GFN_LIMIT && SameTable(g, gfn) ==>
              First(leaves, g) == None && LeafPath(g) == LeafPath(gfn)
    ensures forall g: nat :: g < GFN_LIMIT && !SameTable(g, gfn) ==> LeafPath(g) != LeafPath(gfn)
  {
    forall g: nat | g < GFN_LIMIT
      ensures First([l] + leaves, g) == if SameTable(g, gfn) then Some(l) else First(leaves, g)
      ensures LeafPath(g) == LeafPath(gfn) <==> SameTable(g, gfn)
      ensures SameTable(g, gfn) ==> First(leaves, g) == None
    {
      FirstOfCons(l, leaves, g);
      SameLeafPath(g, gfn);
    }
  }

  /** It puts a new leaf table at the head of the list and links it below level 2. */
  lemma LinkLeaf(mem: Memory, tables: Tables, leaves: seq<MmuPage>, gfn: nat, l: MmuPage)
    requires Linked(mem, tables, leaves, leaves) && gfn < GFN_LIMIT && l.gfn == gfn / 512 * 512
    requires PathAt(gfn, 2) in tables && LeafPath(gfn) !in tables && Unused(tables, leaves, l.spt)
    ensures Linked(mem[Slot(tables[PathAt(gfn, 2)], Index(gfn, 2)) := TableEntry(l.spt)],
                   tables[LeafPath(gfn) := l.spt], [l] + leaves, [l] + leaves)
  {
    var t := tables[LeafPath(gfn) := l.spt];
    var ls := [l] + leaves;
    AddTable(mem, tables, PathAt(gfn, 2), Index(gfn, 2), l.spt);
    forall q
      ensures IsLeafTable(t, ls, q)
    {
      assert l in ls && IsLeafTable(tables, leaves, q);
    }
    FirstWithHead(tables, leaves, gfn, l);
    assert LeavesLinked(t, ls);
  }

  /** The new leaf table covers its region with empty entries. */
  lemma ViewOfLinkedLeaf(mem: Memory, mem': Memory, tables: Tables, leaves: seq<MmuPage>, gfn: nat, l: MmuPage)
    requires LeavesLinked(tables, leaves) && gfn < GFN_LIMIT && l.gfn == gfn / 512 * 512 && LeafPath(gfn) !in tables
    requires Zeroed(mem', l.spt)
    requires SameOn(mem, mem', leaves)
    ensures gfn !in ViewOf(mem, leaves)
    ensures ViewOf(mem', [l] + leaves) == Covered(ViewOf(mem, leaves), gfn)
  {
    var v, w := ViewOf(mem', [l] + leaves), Covered(ViewOf(mem, leaves), gfn);
    FirstWithHead(tables, leaves, gfn, l);
    ViewSame(mem, mem', leaves);
    forall g: nat
      ensures g in v <==> g in w
      ensures g in v ==> v[g] == w[g]
    {
      EmptyTableKeys(gfn, g);
      if g < GFN_LIMIT && SameTable(g, gfn) {
        assert Read(mem', Slot(l.spt, g % 512)) == ABSENT;
      }
    }
  }

  /** The leaf pages keep their contents when a link is written into a non-leaf table. */
  lemma LeavesKept(m0: Memory, m1: Memory, tables: Tables, leaves: seq<MmuPage>, linked: seq<MmuPage>, p: Path,
      i: nat, e: Epte)
    requires Apart(tables, leaves, linked) && p in tables && Depth(p) < 3
    requires SameOn(m0, m1, leaves)
    ensures SameOn(m0, m1[Slot(tables[p], i) := e], leaves)
  {
  }

  /** Both facts about the new leaf table, for the memory before its frame was taken (`m0`) and the memory in
      which the link is written (`m1`). */
  lemma GrowLeafFacts(m0: Memory, m1: Memory, tables: Tables, leaves: seq<MmuPage>, gfn: nat, l: MmuPage)
    requires Linked(m0, tables, leaves, leaves) && Unused(tables, leaves, l.spt)
    requires gfn < GFN_LIMIT && l.gfn == gfn / 512 * 512 && PathAt(gfn, 2) in tables && LeafPath(gfn) !in tables
    requires Zeroed(m1, l.spt) && forall s: Slot :: s.table != l.spt ==> Read(m1, s) == Read(m0, s)
    ensures var m2 := m1[Slot(tables[PathAt(gfn, 2)], Index(gfn, 2)) := TableEntry(l.spt)];
            && Linked(m2, tables[LeafPath(gfn) := l.spt], [l] + leaves, [l] + leaves)
            && gfn !in ViewOf(m0, leaves) && ViewOf(m2, [l] + leaves) == Covered(ViewOf(m0, leaves), gfn)
  {
    LinksSame(m0, m1, tables);
    LinkLeaf(m1, tables, leaves, gfn, l);
    LeavesKept(m0, m1, tables, leaves, leaves, PathAt(gfn, 2), Index(gfn, 2), TableEntry(l.spt));
    ViewOfLinkedLeaf(m0, m1[Slot(tables[PathAt(gfn, 2)], Index(gfn, 2)) := TableEntry(l.spt)], tables, leaves, gfn, l);
  }

  lemma KnownGrows(frames: set<nat>, tables: Tables, leaves: seq<MmuPage>, p: Path, l: MmuPage)
    requires Known(frames, tables, leaves)
    ensures Known(frames + {l.spt}, tables[p := l.spt], [l] + leaves)
    ensures l.spt !in frames ==> Unused(tables, leaves, l.spt)
  {
  }

  lemma GrowNonLeafFacts(m0: Memory, m1: Memory, tables: Tables, leaves: seq<MmuPage>, linked: seq<MmuPage>,
                         frames: set<nat>, gfn: nat, i: nat, f: nat)
    requires Linked(m0, tables, leaves, linked) && linked <= leaves && Known(frames, tables, leaves) &&
              f !in frames && i < 2
    requires PathAt(gfn, i) in tables && PathAt(gfn, i + 1) !in tables
    requires Zeroed(m1, f) && forall s: Slot :: s.table != f ==> Read(m1, s) == Read(m0, s)
    ensures var m2 := m1[Slot(tables[PathAt(gfn, i)], Index(gfn, i)) := TableEntry(f)];
            && Linked(m2, tables[PathAt(gfn, i + 1) := f], leaves, linked)
            && ViewOf(m2, leaves) == ViewOf(m0, leaves)
    ensures Known(frames + {f}, tables[PathAt(gfn, i + 1) := f], leaves)
  {
    LinksSame(m0, m1, tables);
    ViewSame(m0, m1, leaves);
    LinkNonLeaf(m1, tables, leaves, linked, gfn, i, f);
  }

  /** A leaf table is none of the tables above it, so writing it keeps all links. */
  lemma WriteKeepsLinks(mem: Memory, tables: Tables, leaves: seq<MmuPage>, l: MmuPage, i: nat, e: Epte)
    requires Links(mem, tables) && Apart(tables, leaves, leaves) && l in leaves
    ensures Links(mem[Slot(l.spt, i) := e], tables)
  {
    LinksSame(mem, mem[Slot(l.spt, i) := e], tables);
  }

  /** Two frames are found in the same slot only if they are the same. */
  lemma SlotsDiffer(tables: Tables, leaves: seq<MmuPage>, g: nat, h: nat)
    requires Shape(tables) && LeavesLinked(tables, leaves) && g < GFN_LIMIT && h < GFN_LIMIT
    requires First(leaves, g).Some? && First(leaves, h).Some?
    ensures ListSlot(leaves, g) == ListSlot(leaves, h) ==> g == h
  {
    SameFirstInTree(tables, leaves, g, h);
    SameFirstInTree(tables, leaves, h, g);
    SameLeafPath(g, h);
    if First(leaves, g).value.spt == First(leaves, h).value.spt {
      SameFrameSamePath(tables, LeafPath(g), LeafPath(h));
    }
  }

  lemma WriteChangesView(mem: Memory, tables: Tables, leaves: seq<MmuPage>, gfn: nat, e: Epte)
    requires Shape(tables) && LeavesLinked(tables, leaves) && gfn < GFN_LIMIT && First(leaves, gfn).Some?
    ensures ViewOf(mem[Slot(First(leaves, gfn).value.spt, gfn % 512) := e], leaves) == ViewOf(mem, leaves)[gfn := e]
  {
    hide Shape, LeavesLinked;
    forall g: nat | g < GFN_LIMIT && First(leaves, g).Some?
      ensures Slot(First(leaves, g).value.spt, g % 512) == Slot(First(leaves, gfn).value.spt, gfn % 512) ==> g == gfn
    {
      SlotsDiffer(tables, leaves, g, gfn);
    }
  }

  /** It, and the hijack, write one entry of the leaf table that covers `gfn`. */
  lemma WriteLeaf(mem: Memory, tables: Tables, leaves: seq<MmuPage>, gfn: nat, e: Epte)
    requires Linked(mem, tables, leaves, leaves) && gfn < GFN_LIMIT && First(leaves, gfn).Some?
    ensures var mem' := mem[Slot(First(leaves, gfn).value.spt, gfn % 512) := e];
            && Linked(mem', tables, leaves, leaves)
            && ViewOf(mem', leaves) == ViewOf(mem, leaves)[gfn := e]
  {
    hide Shape, Links, Apart, LeavesLinked, ViewOf;
    FirstIsListed(leaves, gfn);
    WriteKeepsLinks(mem, tables, leaves, First(leaves, gfn).value, gfn % 512, e);
    WriteChangesView(mem, tables, leaves, gfn, e);
  }

  // ----- building the tree from copied leaf tables

  /** The level-1 pages of the guest in the order of the copied list: each copy goes to the head. */
  function Copied(active: seq<GuestPage>): seq<GuestPage> {
    if active == [] then [] else
    var n := |active| - 1;
    if active[n].level == 1 then [active[n]] + Copied(active[..n]) else Copied(active[..n])
  }

  /** `leaves` holds copies of `pages`, without write and execute permission. */
  ghost predicate CopiesOf(mem: Memory, leaves: seq<MmuPage>, pages: seq<GuestPage>) {
    |leaves| == |pages| && forall k :: 0 <= k < |leaves| ==> CopyOf(mem, leaves[k], pages[k])
  }

  ghost predicate CopyOf(mem: Memory, l: MmuPage, page: GuestPage) {
    && |page.spt| == ENTRIES && l.gfn == page.gfn && l.gfn % 512 == 0 && l.gfn < GFN_LIMIT
    && forall i :: 0 <= i < ENTRIES ==> Read(mem, Slot(l.spt, i)) == Stripped(page.spt[i])
  }

  /** The entry of the first copied page that covers a frame. */
  function GuestEntry(pages: seq<GuestPage>, gfn: nat): Option<Epte>
    requires forall k :: 0 <= k < |pages| ==> |pages[k].spt| == ENTRIES
  {
    if pages == [] then None
    else if pages[0].gfn == gfn / 512 * 512 then Some(Stripped(pages[0].spt[gfn % 512]))
    else GuestEntry(pages[1..], gfn)
  }

  lemma {:induction false} FirstCopy(mem: Memory, leaves: seq<MmuPage>, pages: seq<GuestPage>, gfn: nat)
    requires CopiesOf(mem, leaves, pages)
    ensures forall k :: 0 <= k < |pages| ==> |pages[k].spt| == ENTRIES
    ensures First(leaves, gfn).Some? <==> GuestEntry(pages, gfn).Some?
    ensures First(leaves, gfn).Some? ==>
              Read(mem, Slot(First(leaves, gfn).value.spt, gfn % 512)) == GuestEntry(pages, gfn).value
  {
    assert forall k :: 0 <= k < |pages| ==> CopyOf(mem, leaves[k], pages[k]);
    if leaves != [] && leaves[0].gfn != gfn / 512 * 512 {
      assert CopiesOf(mem, leaves[1..], pages[1..]);
      FirstCopy(mem, leaves[1..], pages[1..], gfn);
    }
  }

  /** What the copy of a guest's EPT maps: the first copied page of each region, readable at most. */
  ghost function GuestView(pages: seq<GuestPage>): View
    requires forall k :: 0 <= k < |pages| ==> |pages[k].spt| == ENTRIES
  {
    map g: nat | g < GFN_LIMIT && GuestEntry(pages, g).Some? :: GuestEntry(pages, g).value
  }

  /** What a copy gives for a frame, read off the guest's list itself: if `k` ends the last level-1 page of the frame's
      region on the list, that page's entry without write and execute; nothing if the list has no such page. */
  lemma {:induction false} CopiedEntry(active: seq<GuestPage>, gfn: nat, k: nat)
    requires k <= |active| && forall j :: 0 <= j < |active| ==> |active[j].spt| == ENTRIES
    requires forall j :: k <= j < |active| ==> active[j].level != 1 || active[j].gfn != gfn - gfn % 512
    ensures forall j :: 0 <= j < |Copied(active)| ==> |Copied(active)[j].spt| == ENTRIES
    ensures k == 0 ==> GuestEntry(Copied(active), gfn) == None
    ensures k > 0 && active[k - 1].level == 1 && active[k - 1].gfn == gfn - gfn % 512 ==>
              GuestEntry(Copied(active), gfn) == Some(Stripped(active[k - 1].spt[gfn % 512]))
  {
    if active != [] {
      var n := |active| - 1;
      CopiedEntry(active[..n], gfn, if k <= n then k else n);
      assert active[n].level == 1 ==> Copied(active)[1..] == Copied(active[..n]);
    }
  }

  lemma StrippedIsInert(e: Epte)
    ensures !Writable(Stripped(e)) && !Executable(Stripped(e))
  {
  }

  lemma {:induction false} GuestEntryIsInert(pages: seq<GuestPage>, gfn: nat)
    requires forall k :: 0 <= k < |pages| ==> |pages[k].spt| == ENTRIES
    ensures GuestEntry(pages, gfn).Some? ==>
              !Writable(GuestEntry(pages, gfn).value) && !Executable(GuestEntry(pages, gfn).value)
  {
    if pages != [] {
      StrippedIsInert(pages[0].spt[gfn % 512]);
      GuestEntryIsInert(pages[1..], gfn);
    }
  }

  lemma CopiedView(mem: Memory, leaves: seq<MmuPage>, pages: seq<GuestPage>)
    requires CopiesOf(mem, leaves, pages)
    ensures forall k :: 0 <= k < |pages| ==> |pages[k].spt| == ENTRIES
    ensures ViewOf(mem, leaves) == GuestView(pages)
  {
    FirstCopy(mem, leaves, pages, 0);
    forall g: nat | g < GFN_LIMIT
      ensures First(leaves, g).Some? <==> GuestEntry(pages, g).Some?
      ensures First(leaves, g).Some? ==>
                Read(mem, Slot(First(leaves, g).value.spt, g % 512)) == GuestEntry(pages, g).value
    {
      FirstCopy(mem, leaves, pages, g);
    }
  }

  /** Copied guest entries are neither writable nor executable, and cover whole regions. */
  lemma GuestViewIsInert(pages: seq<GuestPage>)
    requires forall k :: 0 <= k < |pages| ==> |pages[k].spt| == ENTRIES
    ensures Whole(GuestView(pages)) && Inert(GuestView(pages))
  {
    var v := GuestView(pages);
    forall g | g in v
      ensures !Writable(v[g]) && !Executable(v[g])
    {
      GuestEntryIsInert(pages, g);
    }
    forall g, k: nat | g in v && SameTable(k, g)
      ensures k in v
    {
      SameGuestRegion(pages, g, k);
    }
  }

  lemma {:induction false} SameGuestRegion(pages: seq<GuestPage>, g: nat, k: nat)
    requires forall j :: 0 <= j < |pages| ==> |pages[j].spt| == ENTRIES
    requires SameTable(k, g)
    ensures GuestEntry(pages, g).Some? <==> GuestEntry(pages, k).Some?
  {
    if pages != [] { SameGuestRegion(pages[1..], g, k); }
  }

  lemma {:induction false} CopiedWellFormed(active: seq<GuestPage>)
    requires WellFormed(active)
    ensures forall k :: 0 <= k < |Copied(active)| ==> |Copied(active)[k].spt| == ENTRIES
  {
    if active != [] { CopiedWellFormed(active[..|active| - 1]); }
  }

  lemma ViewIsWhole(mem: Memory, leaves: seq<MmuPage>)
    ensures Whole(ViewOf(mem, leaves))
  {
    forall g, k: nat | g in ViewOf(mem, leaves) && SameTable(k, g)
      ensures k in ViewOf(mem, leaves)
    {
      SameFirst(leaves, g, k);
    }
  }

  lemma {:induction false} SameFirst(leaves: seq<MmuPage>, g: nat, k: nat)
    requires SameTable(k, g)
    ensures First(leaves, g) == First(leaves, k)
  {
    if leaves != [] { SameFirst(leaves[1..], g, k); }
  }

  /** `make_imee_ept` links the next copied page, unless its region already has a leaf table. */
  lemma LinkCopied(mem: Memory, tables: Tables, leaves: seq<MmuPage>, k: nat)
    requires k < |leaves| && Linked(mem, tables, leaves, leaves[..k])
    requires leaves[k].gfn % 512 == 0 && leaves[k].gfn < GFN_LIMIT && PathAt(leaves[k].gfn, 2) in tables
    ensures var l := leaves[k];
            var p := PathAt(l.gfn, 2);
            if LeafPath(l.gfn) in tables then Linked(mem, tables, leaves, leaves[..k + 1])
            else Linked(mem[Slot(tables[p], Index(l.gfn, 2)) := TableEntry(l.spt)],
                        tables[LeafPath(l.gfn) := l.spt], leaves, leaves[..k + 1])
  {
    var l, linked, more := leaves[k], leaves[..k], leaves[..k + 1];
    var present := LeafPath(l.gfn) in tables;
    var t := if present then tables else tables[LeafPath(l.gfn) := l.spt];
    assert more == linked + [l];
    if !present {
      forall q | q in tables
        ensures tables[q] != l.spt
      {
        if Depth(q) == 3 { assert IsLeafTable(tables, linked, q); } else { DepthBound(tables, q); }
      }
      AddTable(mem, tables, PathAt(l.gfn, 2), Index(l.gfn, 2), l.spt);
    }
    forall q
      ensures IsLeafTable(t, more, q)
    {
      assert IsLeafTable(tables, linked, q);
    }
    forall g: nat | g < GFN_LIMIT
      ensures LeafPath(g) in t <==> First(more, g).Some?
      ensures First(more, g).Some? ==> t[LeafPath(g)] == First(more, g).value.spt
    {
      FirstOfSnoc(linked, l, g);
      SameLeafPath(g, l.gfn);
      SameFirstInTree(tables, linked, g, l.gfn);
    }
  }

  /** The entry that a walk consults is zero exactly where no table hangs, and links the table that does. */
  lemma LinkedEntry(mem: Memory, tables: Tables, leaves: seq<MmuPage>, linked: seq<MmuPage>, gfn: nat, i: nat)
    requires Linked(mem, tables, leaves, linked) && i < 3 && PathAt(gfn, i) in tables
    ensures var e := Read(mem, Slot(tables[PathAt(gfn, i)], Index(gfn, i)));
            && (e == ABSENT <==> PathAt(gfn, i + 1) !in tables)
            && (PathAt(gfn, i + 1) in tables ==> e.frame == tables[PathAt(gfn, i + 1)])
  {
    IndexBound(gfn, i);
    assert PathAt(gfn, i + 1) == Child(PathAt(gfn, i), Index(gfn, i));
    LinkIsEntry(tables, PathAt(gfn, i + 1));
  }

  lemma LinkKeepsView(mem: Memory, tables: Tables, leaves: seq<MmuPage>, linked: seq<MmuPage>, gfn: nat, e: Epte)
    requires Linked(mem, tables, leaves, linked) && PathAt(gfn, 2) in tables
    ensures ViewOf(mem[Slot(tables[PathAt(gfn, 2)], Index(gfn, 2)) := e], leaves) == ViewOf(mem, leaves)
  {
    LeavesKept(mem, mem, tables, leaves, linked, PathAt(gfn, 2), Index(gfn, 2), e);
    ViewSame(mem, mem[Slot(tables[PathAt(gfn, 2)], Index(gfn, 2)) := e], leaves);
  }

  /** A zeroed root alone links nothing. */
  lemma EmptyTree(mem: Memory, root: nat, leaves: seq<MmuPage>)
    requires Zeroed(mem, root) && DistinctFrames(leaves) && forall l :: l in leaves ==> l.spt != root
    ensures Linked(mem, map[Root := root], leaves, [])
  {
  }

  lemma SameFirstInTree(tables: Tables, linked: seq<MmuPage>, g: nat, h: nat)
    requires LeavesLinked(tables, linked) && g < GFN_LIMIT && h < GFN_LIMIT
    ensures LeafPath(g) in tables <==> First(linked, g).Some?
    ensures First(linked, g).Some? ==> tables[LeafPath(g)] == First(linked, g).value.spt
    ensures LeafPath(h) in tables <==> First(linked, h).Some?
  {
  }

  lemma DepthBound(tables: Tables, q: Path)
    requires Shape(tables) && q in tables
    ensures Depth(q) <= 3
  {
    match q
    case Root =>
    case Child(p, i) => assert Child(p, i) in tables;
  }

  lemma {:induction false} CopiedGrows(active: seq<GuestPage>, k: nat)
    requires k < |active|
    ensures Copied(active[..k + 1]) == (if active[k].level == 1 then [active[k]] else []) + Copied(active[..k])
    ensures |Copied(active[..k + 1])| <= |Copied(active)|
  {
    assert active[..k + 1][..k] == active[..k];
    if k + 1 < |active| {
      CopiedGrows(active[..|active| - 1], k);
      assert active[..|active| - 1][..k + 1] == active[..k + 1];
    } else {
      assert active[..k + 1] == active;
    }
  }

  ghost predicate DistinctFrames(leaves: seq<MmuPage>) {
    forall j, k :: 0 <= j < k < |leaves| ==> leaves[j].spt != leaves[k].spt
  }

  class IntroCtx {
    const host: FrameAllocator
    const kvm: nat               // the VM it introspects
    var visited: nat
    var eptptr: nat
    var leafPage: seq<MmuPage>
    var nonLeafPage: seq<MmuPage>
    var codeEptPteP: Option<Slot>
    var codeEptPte: Epte
    ghost var tables: Tables
    ghost var frames: set<nat>   // the frames it took
    ghost var hijackedGfn: nat   // whose slot `codeEptPteP` is

    /** The tree links the pages `linked`, a prefix of the leaf list. */
    ghost predicate Building(linked: seq<MmuPage>)
      reads this, host
    {
      && linked <= leafPage && host.Ready() && frames <= host.issued
      && Linked(host.mem, tables, leafPage, linked)
      && Known(frames, tables, leafPage)
      && Root in tables && tables[Root] == eptptr
    }

    ghost predicate Ready()
      reads this, host
    {
      Building(leafPage)
    }

    ghost function View(): View
      reads this, host
    {
      ViewOf(host.mem, leafPage)
    }

    ghost function Foot(): Footprint
      reads this, host
    {
      Footprint(host.mem, host.issued, frames)
    }

    /** At most `n` frames were taken since the allocator had handed out `count`, and it has not failed. */
    ghost predicate Spent(count: nat, base: nat, n: nat)
      reads host
    {
      count <= host.count <= count + n && (base != 0 ==> host.pBase != 0)
    }

    /** The saved slot, if any, is the one the leaf list has for `hijackedGfn`. */
    ghost predicate Valid()
      reads this, host
      ensures Valid() ==> host.Ready() && frames <= host.issued
    {
      && Ready()
      && (codeEptPteP.Some? ==> hijackedGfn < GFN_LIMIT && ListSlot(leafPage, hijackedGfn) == codeEptPteP)
    }

    ghost function State(): Hijacking
      reads this, host
    {
      Hijacking(View(), if codeEptPteP.Some? then Some((hijackedGfn, codeEptPte)) else None)
    }

    /** The hardware walk from `eptptr`, a scan of the leaf list and the view agree on every guest frame. */
    lemma HardwareSeesView(gfn: nat)
      requires Ready() && gfn < GFN_LIMIT
      ensures gfn in View() <==> ListSlot(leafPage, gfn).Some?
      ensures HwWalk(host.mem, eptptr, gfn, 0) ==
                if gfn in View() then Leaf(ListSlot(leafPage, gfn).value) else Violation
      ensures gfn in View() ==> Read(host.mem, ListSlot(leafPage, gfn).value) == View()[gfn]
    {
      forall p | p in tables
        ensures tables[p] < FRAME_LIMIT
      {
        assert Accounted(host.grant, host.session, host.count, host.issued, tables[p]);
      }
      WalkAgreesWithList(host.mem, tables, leafPage, gfn);
    }

    /** Any operation on another context of the same allocator leaves this one as it was: its state, its hardware
        walks, and the frames that only it owns. */
    twostate lemma Bystander(other: IntroCtx)
      requires old(Valid()) && unchanged(this) && other.host == host && host.Ready()
      requires old(frames !! other.frames) && OwnOnly(old(other.Foot()), other.Foot())
      ensures Valid() && State() == old(State()) && frames !! other.frames
      ensures forall g: nat :: g < GFN_LIMIT ==> HwWalk(host.mem, eptptr, g, 0) == old(HwWalk(host.mem, eptptr, g, 0))
    {
      hide Linked, Known, FrameAllocator.Ready, ViewOf;
      assert forall s: Slot :: s.table in frames ==> s.table !in other.frames;
      Elsewhere(old(host.mem), host.mem, tables, leafPage, frames);
      forall g: nat | g < GFN_LIMIT
        ensures HwWalk(host.mem, eptptr, g, 0) == old(HwWalk(host.mem, eptptr, g, 0))
      {
        HardwareSeesView(g);
        SameWalk(old(host.mem), g);
      }
    }

    /** The part of it that does not speak of the hardware. */
    twostate lemma Kept(other: IntroCtx)
      requires old(Valid()) && unchanged(this) && other.host == host && host.Ready()
      requires old(frames !! other.frames) && OwnOnly(old(other.Foot()), other.Foot())
      ensures Valid() && State() == old(State()) && frames !! other.frames
    {
      Bystander(other);
    }

    /** Counting a visit changes nothing else. */
    twostate lemma VisitOnly()
      requires old(Valid()) && unchanged(host) && unchanged(`eptptr) && unchanged(`leafPage) && unchanged(`tables)
      requires unchanged(`frames) && unchanged(`codeEptPteP) && unchanged(`codeEptPte) && unchanged(`hijackedGfn)
      ensures Valid() && State() == old(State())
    {
    }

    /** The walk in an earlier memory that held the same tree. */
    lemma SameWalk(mem: Memory, gfn: nat)
      requires Ready() && gfn < GFN_LIMIT && Linked(mem, tables, leafPage, leafPage)
      ensures HwWalk(mem, eptptr, gfn, 0) == HwWalk(host.mem, eptptr, gfn, 0)
    {
      forall p | p in tables
        ensures tables[p] < FRAME_LIMIT
      {
        assert Accounted(host.grant, host.session, host.count, host.issued, tables[p]);
      }
      WalkAgreesWithList(mem, tables, leafPage, gfn);
      WalkAgreesWithList(host.mem, tables, leafPage, gfn);
    }

    constructor (host: FrameAllocator, kvm: nat)
      ensures this.host == host && this.kvm == kvm && visited == 0 && frames == {}
      ensures leafPage == [] && nonLeafPage == [] && codeEptPteP == None && codeEptPte == ABSENT
    {
      this.host, this.kvm, visited := host, kvm, 0;
      eptptr, leafPage, nonLeafPage, codeEptPteP, codeEptPte := 0, [], [], None, ABSENT;
      tables, frames, hijackedGfn := map[], {}, 0;
    }

    method GetEpte(gpa: nat) returns (r: Option<Slot>)
      ensures r == ListSlot(leafPage, gpa / 0x1000)
    {
      var needle := gpa / 0x1000;
      var i := 0;
      while i < |leafPage|
        invariant 0 <= i <= |leafPage| && First(leafPage, needle) == First(leafPage[i..], needle)
      {
        if leafPage[i].gfn == needle / 512 * 512 {
          return Some(Slot(leafPage[i].spt, needle % 512));
        }
        assert leafPage[i..][1..] == leafPage[i + 1..];
        i := i + 1;
      }
      r := None;
    }

    /** `kmalloc` is taken to succeed; the frame is null when the allocator has none left. */
    method AllocNonLeafPage(lv: nat) returns (page: nat)
      requires host.Valid()
      modifies host, this`nonLeafPage, this`frames
      ensures host.Valid() && host.session == old(host.session)
      ensures Handed(host.grant, host.session, old(host.pBase), old(host.count), page, host.pBase, host.count)
      ensures nonLeafPage == [MmuPage(page, lv, 0)] + old(nonLeafPage)
      ensures old(host.Ready() && host.Provides(1)) ==> host.Ready() && Takes(old(Foot()), Foot(), page)
    {
      page := host.GetTableFrame();
      frames := frames + {page};
      nonLeafPage := [MmuPage(page, lv, 0)] + nonLeafPage;
    }

    method AllocLeafPage(gpa: nat) returns (page: nat)
      requires host.Valid()
      modifies host, this`leafPage, this`frames
      ensures host.Valid() && host.session == old(host.session)
      ensures Handed(host.grant, host.session, old(host.pBase), old(host.count), page, host.pBase, host.count)
      ensures leafPage == [MmuPage(page, 1, gpa / 0x1000 / 512 * 512)] + old(leafPage)
      ensures old(host.Ready() && host.Provides(1)) ==> host.Ready() && Takes(old(Foot()), Foot(), page)
    {
      page := host.GetTableFrame();
      frames := frames + {page};
      leafPage := [MmuPage(page, 1, gpa / 0x1000 / 512 * 512)] + leafPage;
    }

    /** `table[idx[i]] = __pa (tbl) | 0x7` for a missing table below level 4 or 3. */
    method GrowNonLeaf(gfn: nat, i: nat, table: nat, ghost linked: seq<MmuPage>) returns (tbl: nat)
      requires Building(linked) && host.Provides(1) && i < 2
      requires PathAt(gfn, i) in tables && tables[PathAt(gfn, i)] == table && PathAt(gfn, i + 1) !in tables
      modifies host, this`nonLeafPage, this`tables, this`frames
      ensures Building(linked) && View() == old(View()) && eptptr == old(eptptr) && OwnOnly(old(Foot()), Foot())
      ensures host.count == old(host.count) + 1 && host.session == old(host.session) && host.pBase != 0
      ensures tables == old(tables)[PathAt(gfn, i + 1) := tbl]
    {
      hide FrameAllocator.Ready, Linked, ViewOf;
      tbl := AllocNonLeafPage(4 - i);
      GrowNonLeafFacts(old(host.mem), host.mem, tables, leafPage, linked, old(frames), gfn, i, tbl);
      TakeAndStore(old(Foot()), Foot(), tbl, Slot(table, Index(gfn, i)), TableEntry(tbl));
      host.Store(Slot(table, Index(gfn, i)), TableEntry(tbl));
      tables := tables[PathAt(gfn, i + 1) := tbl];
    }

    method GrowLeaf(gpa: nat, gfn: nat, table: nat) returns (tbl: nat)
      requires Ready() && host.Provides(1) && gfn == gpa / 0x1000 && gfn < GFN_LIMIT
      requires PathAt(gfn, 2) in tables && tables[PathAt(gfn, 2)] == table && LeafPath(gfn) !in tables
      modifies host, this`leafPage, this`tables, this`frames
      ensures Ready() && eptptr == old(eptptr) && OwnOnly(old(Foot()), Foot())
      ensures gfn !in old(View()) && View() == Covered(old(View()), gfn)
      ensures host.count == old(host.count) + 1 && host.session == old(host.session) && host.pBase != 0
      ensures tables == old(tables)[LeafPath(gfn) := tbl]
    {
      hide FrameAllocator.Ready, Linked, ViewOf;
      ghost var leaves, m0 := leafPage, host.mem;
      tbl := AllocLeafPage(gpa);
      ghost var l, m1 := leafPage[0], host.mem;
      KnownGrows(old(frames), tables, leaves, LeafPath(gfn), l);
      GrowLeafFacts(m0, m1, tables, leaves, gfn, l);
      TakeAndStore(old(Foot()), Foot(), tbl, Slot(table, Index(gfn, 2)), TableEntry(tbl));
      host.Store(Slot(table, Index(gfn, 2)), TableEntry(tbl));
      tables := tables[LeafPath(gfn) := tbl];
    }

    /** Writing the leaf entry of a covered frame. */
    method SetLeaf(ghost gfn: nat, s: Slot, e: Epte)
      requires Ready() && gfn < GFN_LIMIT && ListSlot(leafPage, gfn) == Some(s)
      modifies host`mem
      ensures Ready() && View() == old(View())[gfn := e] && OwnOnly(old(Foot()), Foot())
    {
      hide FrameAllocator.Ready, Linked, ViewOf;
      FirstIsListed(leafPage, gfn);
      WriteLeaf(host.mem, tables, leafPage, gfn, e);
      host.Store(s, e);
    }

    /** The last iteration of `map_epte`. */
    method SetMapping(gfn: nat, table: nat, newHpa: nat, perm: bv12) returns (r: Option<Slot>)
      requires Ready() && gfn < GFN_LIMIT && LeafPath(gfn) in tables && tables[LeafPath(gfn)] == table && gfn in View()
      modifies host`mem
      ensures Ready() && View() == old(View())[gfn := MappedOver(old(View())[gfn], newHpa, perm)]
      ensures r == ListSlot(leafPage, gfn) && r.Some? && OwnOnly(old(Foot()), Foot())
    {
      hide FrameAllocator.Ready, MappedOver, Linked, Known, ViewOf, OwnOnly, First;
      var s := Slot(table, Index(gfn, 3));
      InView(gfn);
      SetLeaf(gfn, s, MappedOver(Read(host.mem, s), newHpa, perm));
      r := Some(s);
    }

    /** One iteration of `map_epte` above the leaf level: follow the entry or fill it with a new table. */
    method Descend(gpa: nat, gfn: nat, i: nat, table: nat) returns (next: nat)
      requires Ready() && i < 3 && gfn == gpa / 0x1000 && gfn < GFN_LIMIT
      requires Missing(tables, gfn, i) > 0 ==> host.Provides(Missing(tables, gfn, i))
      requires PathAt(gfn, i) in tables && tables[PathAt(gfn, i)] == table
      modifies host, this`leafPage, this`nonLeafPage, this`tables, this`frames
      ensures Ready() && eptptr == old(eptptr) && OwnOnly(old(Foot()), Foot())
      ensures PathAt(gfn, i + 1) in tables && tables[PathAt(gfn, i + 1)] == next
      ensures View() == if i == 2 then Covered(old(View()), gfn) else old(View())
      ensures host.count + Missing(tables, gfn, i + 1) == old(host.count) + old(Missing(tables, gfn, i))
      ensures host.count >= old(host.count)
      ensures host.session == old(host.session) && (old(host.pBase) != 0 ==> host.pBase != 0)
    {
      hide FrameAllocator.Ready, Linked, ViewOf;
      var entry := Read(host.mem, Slot(table, Index(gfn, i)));
      LinkedEntry(host.mem, tables, leafPage, leafPage, gfn, i);
      OwnOnlySame(Foot());
      if entry == ABSENT {
        MissingShape();
        ghost var t := tables;
        if i < 2 {
          next := GrowNonLeaf(gfn, i, table, leafPage);
        } else {
          next := GrowLeaf(gpa, gfn, table);
        }
        OneLessMissing(t, gfn, i, next);
      } else {
        if i == 2 { InView(gfn); }
        next := entry.frame;
      }
    }

    /** Returns the slot that `get_epte` finds from then on; on the way exactly the missing tables are added. */
    method MapEpte(gpa: nat, newHpa: nat, perm: bv12) returns (r: Option<Slot>)
      requires Ready() && gpa < GPA_LIMIT
      requires gpa / 0x1000 in View() || host.Provides(Missing(tables, gpa / 0x1000, 0))
      modifies host, this`leafPage, this`nonLeafPage, this`tables, this`frames
      ensures Ready() && eptptr == old(eptptr) && host.session == old(host.session)
      ensures OwnOnly(old(Foot()), Foot())
      ensures host.count == old(host.count) + old(Missing(tables, gpa / 0x1000, 0))
      ensures gpa / 0x1000 in old(View()) ==> host.count == old(host.count)
      ensures old(host.pBase) != 0 ==> host.pBase != 0
      ensures View() == Mapped(old(View()), gpa / 0x1000, newHpa, perm)
      ensures r == ListSlot(leafPage, gpa / 0x1000) && r.Some?
    {
      hide Linked, Known, FrameAllocator.Ready, ViewOf, OwnOnly, Missing;
      var gfn := gpa / 0x1000;
      ghost var v, n := View(), Missing(tables, gfn, 0);
      CoveredMissesNothing(gfn);
      OwnOnlySame(Foot());
      var table := eptptr;
      var i := 0;
      while i < 3
        invariant 0 <= i <= 3 && Ready() && eptptr == old(eptptr)
        invariant PathAt(gfn, i) in tables && tables[PathAt(gfn, i)] == table
        invariant View() == if i == 3 then Covered(v, gfn) else v
        invariant host.session == old(host.session) && (old(host.pBase) != 0 ==> host.pBase != 0)
        invariant host.count + Missing(tables, gfn, i) == old(host.count) + n
        invariant Missing(tables, gfn, i) > 0 ==> host.Provides(Missing(tables, gfn, i))
        invariant OwnOnly(old(Foot()), Foot())
      {
        ghost var before := Foot();
        table := Descend(gpa, gfn, i, table);
        OwnOnlyTwice(old(Foot()), before, Foot());
        i := i + 1;
      }
      NothingMissing(gfn);
      CoveredLookup(v, gfn);
      ghost var before := Foot();
      r := SetMapping(gfn, table, newHpa, perm);
      OwnOnlyTwice(old(Foot()), before, Foot());
    }

    /** The list, the view and the tree cover the same frames with the same slots. */
    lemma InView(gfn: nat)
      requires Ready() && gfn < GFN_LIMIT
      ensures gfn in View() <==> LeafPath(gfn) in tables
      ensures gfn in View() <==> ListSlot(leafPage, gfn).Some?
      ensures gfn in View() ==> && ListSlot(leafPage, gfn) == Some(Slot(tables[LeafPath(gfn)], Index(gfn, 3)))
                                && View()[gfn] == Read(host.mem, ListSlot(leafPage, gfn).value)
    {
      SameFirstInTree(tables, leafPage, gfn, gfn);
    }

    lemma MissingShape()
      requires Ready()
      ensures Shape(tables)
    {
    }

    /** A covered frame has all its tables. */
    lemma CoveredMissesNothing(gfn: nat)
      requires Ready() && gfn < GFN_LIMIT
      ensures gfn in View() <==> Missing(tables, gfn, 0) == 0
    {
      NoneMissing(tables, gfn, 0);
      SameFirstInTree(tables, leafPage, gfn, gfn);
    }

    lemma NothingMissing(gfn: nat)
      ensures Missing(tables, gfn, 3) == 0
    {
    }

    /** `pte[i] = page->spt[i] & ~0x6` for all 512 entries. */
    method CopyEntries(newpage: nat, spt: seq<Epte>)
      requires host.Ready() && newpage in host.issued && |spt| == ENTRIES
      modifies host`mem
      ensures host.Ready()
      ensures forall i :: 0 <= i < ENTRIES ==> Read(host.mem, Slot(newpage, i)) == Stripped(spt[i])
      ensures forall s: Slot :: s.table != newpage ==> Read(host.mem, s) == Read(old(host.mem), s)
    {
      hide FrameAllocator.Ready, Stripped;
      var i := 0;
      while i < ENTRIES
        invariant 0 <= i <= ENTRIES && host.Ready()
        invariant forall j :: 0 <= j < i ==> Read(host.mem, Slot(newpage, j)) == Stripped(spt[j])
        invariant forall s: Slot :: s.table != newpage ==> Read(host.mem, s) == Read(old(host.mem), s)
      {
        host.Store(Slot(newpage, i), Stripped(spt[i]));
        i := i + 1;
      }
    }

    /** The copied pages are frames of the context. */
    ghost predicate Copying(pages: seq<GuestPage>)
      reads this, host
    {
      && host.Ready() && frames <= host.issued && CopiesOf(host.mem, leafPage, pages) && DistinctFrames(leafPage)
      && forall l :: l in leafPage ==> l.spt in frames
    }

    /** `copy_leaf_ept`: one copied page goes to the head of the leaf list. */
    method CopyPage(page: GuestPage, ghost pages: seq<GuestPage>)
      requires Copying(pages) && host.Provides(1)
      requires |page.spt| == ENTRIES && page.gfn % 512 == 0 && page.gfn < GFN_LIMIT
      modifies host, this`leafPage, this`frames
      ensures Copying([page] + pages) && OwnOnly(old(Foot()), Foot())
      ensures host.session == old(host.session) && host.pBase != 0 && host.count == old(host.count) + 1
    {
      hide FrameAllocator.Ready;
      ghost var was, leaves := host.mem, leafPage;
      var newpage := host.GetTableFrame();
      CopyEntries(newpage, page.spt);
      leafPage := [MmuPage(newpage, 1, page.gfn)] + leafPage;
      frames := frames + {newpage};
      forall j | 0 <= j < |leaves|
        ensures CopyOf(host.mem, leaves[j], pages[j])
      {
        assert leaves[j] in leaves && CopyOf(was, leaves[j], pages[j]);
      }
    }

    method CopyLeafEpt(active: seq<GuestPage>)
      requires host.Ready() && leafPage == [] && frames == {} && WellFormed(active) && host.Provides(|Copied(active)|)
      modifies host, this`leafPage, this`frames
      ensures Copying(Copied(active)) && OwnOnly(old(Foot()), Foot())
      ensures host.session == old(host.session) && host.pBase != 0 && host.count == old(host.count) + |Copied(active)|
    {
      hide OwnOnly, FrameAllocator.Ready;
      OwnOnlySame(Foot());
      var k := 0;
      while k < |active|
        invariant 0 <= k <= |active| && Copying(Copied(active[..k])) && OwnOnly(old(Foot()), Foot())
        invariant host.session == old(host.session) && host.pBase != 0
        invariant host.count == old(host.count) + |Copied(active[..k])|
      {
        CopiedGrows(active, k);
        if active[k].level == 1 {
          ghost var before := Foot();
          CopyPage(active[k], Copied(active[..k]));
          OwnOnlyTwice(old(Foot()), before, Foot());
        }
        k := k + 1;
      }
      assert active[..|active|] == active;
    }

    /** The table below `table` on the way to a leaf page, found or built. */
    method NextTable(gfn: nat, i: nat, table: nat, ghost linked: seq<MmuPage>) returns (next: nat)
      requires Building(linked) && host.Provides(1) && i < 2
      requires PathAt(gfn, i) in tables && tables[PathAt(gfn, i)] == table
      modifies host, this`nonLeafPage, this`tables, this`frames
      ensures Building(linked) && View() == old(View()) && eptptr == old(eptptr) && OwnOnly(old(Foot()), Foot())
      ensures PathAt(gfn, i + 1) in tables && tables[PathAt(gfn, i + 1)] == next
      ensures host.session == old(host.session) && Spent(old(host.count), old(host.pBase), 1)
    {
      hide FrameAllocator.Ready, Linked, ViewOf;
      var entry := Read(host.mem, Slot(table, Index(gfn, i)));
      LinkedEntry(host.mem, tables, leafPage, linked, gfn, i);
      OwnOnlySame(Foot());
      if entry == ABSENT {
        next := GrowNonLeaf(gfn, i, table, linked);
      } else {
        next := entry.frame;
      }
    }

    /** The body of the loop in `make_imee_ept`: find or build the tables above the k-th leaf page, then link it
        unless its region already has a leaf table. */
    method LinkPage(k: nat)
      requires k < |leafPage| && Building(leafPage[..k]) && host.Provides(2)
      requires leafPage[k].gfn % 512 == 0 && leafPage[k].gfn < GFN_LIMIT
      modifies host, this`nonLeafPage, this`tables, this`frames
      ensures Building(leafPage[..k + 1]) && View() == old(View()) && eptptr == old(eptptr)
      ensures host.session == old(host.session) && Spent(old(host.count), old(host.pBase), 2)
      ensures OwnOnly(old(Foot()), Foot())
    {
      hide OwnOnly, FrameAllocator.Ready, Linked, ViewOf, Known;
      var cur := leafPage[k];
      ghost var a := Foot();
      var pdpt := NextTable(cur.gfn, 0, eptptr, leafPage[..k]);
      ghost var b := Foot();
      var pd := NextTable(cur.gfn, 1, pdpt, leafPage[..k]);
      ghost var c := Foot();
      OwnOnlyTwice(a, b, c);
      LinkInto(k, pd);
      OwnOnlyTwice(a, c, Foot());
    }

    /** `if (pd[pd_ind] == 0) pd[pd_ind] = __pa (cur->spt) | 0x7`. */
    method LinkInto(k: nat, pd: nat)
      requires k < |leafPage| && Building(leafPage[..k]) && leafPage[k].gfn % 512 == 0 && leafPage[k].gfn < GFN_LIMIT
      requires PathAt(leafPage[k].gfn, 2) in tables && tables[PathAt(leafPage[k].gfn, 2)] == pd
      modifies host`mem, this`tables
      ensures Building(leafPage[..k + 1]) && View() == old(View()) && OwnOnly(old(Foot()), Foot())
    {
      hide FrameAllocator.Ready, Linked, ViewOf;
      var cur := leafPage[k];
      var slot := Slot(pd, Index(cur.gfn, 2));
      LinkedEntry(host.mem, tables, leafPage, leafPage[..k], cur.gfn, 2);
      LinkCopied(host.mem, tables, leafPage, k);
      if Read(host.mem, slot) == ABSENT {
        LinkKeepsView(host.mem, tables, leafPage, leafPage[..k], cur.gfn, TableEntry(cur.spt));
        host.Store(slot, TableEntry(cur.spt));
        tables := tables[LeafPath(cur.gfn) := cur.spt];
      }
    }

    method MakeImeeEpt(ghost pages: seq<GuestPage>)
      requires Copying(pages) && host.Provides(1 + 2 * |leafPage|)
      modifies host, this`nonLeafPage, this`tables, this`eptptr, this`frames
      ensures Ready() && View() == old(View()) && OwnOnly(old(Foot()), Foot())
      ensures host.session == old(host.session) && Spent(old(host.count), old(host.pBase), 1 + 2 * |leafPage|)
    {
      hide OwnOnly, FrameAllocator.Ready, Linked, ViewOf;
      PlantRoot(pages);
      var k := 0;
      while k < |leafPage|
        invariant 0 <= k <= |leafPage| && Building(leafPage[..k]) && View() == old(View())
        invariant host.session == old(host.session) && Spent(old(host.count), old(host.pBase), 1 + 2 * k)
        invariant OwnOnly(old(Foot()), Foot())
      {
        ghost var before := Foot();
        assert CopyOf(old(host.mem), leafPage[k], pages[k]);
        LinkPage(k);
        OwnOnlyTwice(old(Foot()), before, Foot());
        k := k + 1;
      }
      assert leafPage[..k] == leafPage;
    }

    /** The root page, which links nothing yet. */
    method PlantRoot(ghost pages: seq<GuestPage>)
      requires Copying(pages) && host.Provides(1)
      modifies host, this`nonLeafPage, this`tables, this`eptptr, this`frames
      ensures Building(leafPage[..0]) && View() == old(View()) && OwnOnly(old(Foot()), Foot())
      ensures host.session == old(host.session) && Spent(old(host.count), old(host.pBase), 1)
    {
      hide FrameAllocator.Ready, ViewOf;
      eptptr := AllocNonLeafPage(4);
      tables := map[Root := eptptr];
      ViewSame(old(host.mem), host.mem, leafPage);
      EmptyTree(host.mem, eptptr, leafPage);
    }

    /** One of the five calls of `map_local_page_tables`: its region is covered unless it is the first. */
    method MapLocal(ghost v: View, ghost done: seq<Request>, r: Request)
      requires Ready() && View() == MapAll(v, done) && PD_GFN <= r.gfn <= DATA_GFN
      requires PD_GFN in View() || (host.Provides(3) && r.gfn == PD_GFN)
      modifies host, this`leafPage, this`nonLeafPage, this`tables, this`frames
      ensures Ready() && PD_GFN in View() && View() == MapAll(v, done + [r]) && host.session == old(host.session)
      ensures eptptr == old(eptptr) && OwnOnly(old(Foot()), Foot())
      ensures Spent(old(host.count), old(host.pBase), if PD_GFN in old(View()) then 0 else 3)
    {
      hide Linked, Known, FrameAllocator.Ready, ViewOf, MapAll, Mapped, OwnOnly;
      ghost var w := View();
      assert PD_GFN in w ==> r.gfn in w by {
        ViewIsWhole(host.mem, leafPage);
        assert SameTable(r.gfn, PD_GFN);
      }
      MapAllSnoc(v, done, r);
      MappedLookup(w, r.gfn, r.frame, r.perm, PD_GFN);
      FewerNeeded(r.gfn);
      var slot := MapEpte(r.gfn * 0x1000, r.frame, r.perm);
    }

    /** Three frames are always enough for one mapping. */
    lemma FewerNeeded(gfn: nat)
      ensures host.Provides(3) ==> host.Provides(Missing(tables, gfn, 0))
    {
    }

    method MapLocalPageTables(l: Local)
      requires Ready() && host.Provides(3)
      modifies host, this`leafPage, this`nonLeafPage, this`tables, this`frames
      ensures Ready() && View() == WithLocals(old(View()), l) && host.session == old(host.session) &&
                Spent(old(host.count), old(host.pBase), 3) && eptptr == old(eptptr) && OwnOnly(old(Foot()), Foot())
    {
      hide Linked, Known, FrameAllocator.Ready, ViewOf, OwnOnly;
      ghost var v := View();
      var r := LocalRequests(l);
      assert r[..1] == [] + [r[0]] && r[..2] == r[..1] + [r[1]] && r[..3] == r[..2] + [r[2]];
      assert r[..4] == r[..3] + [r[3]] && r == r[..4] + [r[4]];
      ghost var a := Foot();
      MapLocal(v, [], r[0]);
      ghost var b := Foot();
      MapLocal(v, r[..1], r[1]);
      OwnOnlyTwice(a, b, Foot());
      b := Foot();
      MapLocal(v, r[..2], r[2]);
      OwnOnlyTwice(a, b, Foot());
      b := Foot();
      MapLocal(v, r[..3], r[3]);
      OwnOnlyTwice(a, b, Foot());
      b := Foot();
      MapLocal(v, r[..4], r[4]);
      OwnOnlyTwice(a, b, Foot());
    }

    method RestoreCode()
      requires Valid()
      modifies host`mem
      ensures Valid() && View() == Restored(old(State())) && OwnOnly(old(Foot()), Foot())
    {
      hide Linked, Known, FrameAllocator.Ready, ViewOf, OwnOnly;
      OwnOnlySame(Foot());
      if codeEptPteP.Some? {
        SetLeaf(hijackedGfn, codeEptPteP.value, codeEptPte);
      }
    }

    /** Saves the entry that the list finds for `gfn` and redirects it. */
    method HijackSlot(ghost gfn: nat, epte: Slot, code: nat)
      requires Ready() && gfn < GFN_LIMIT && ListSlot(leafPage, gfn) == Some(epte)
      modifies host`mem, this`codeEptPteP, this`codeEptPte, this`hijackedGfn
      ensures Valid() && OwnOnly(old(Foot()), Foot())
      ensures var e := Lookup(old(View()), gfn);
              State() == Hijacking(old(View())[gfn := Hijacked(e, code)], Some((gfn, e)))
    {
      hide Linked, Known, FrameAllocator.Ready, Hijacked, OwnOnly, ViewOf;
      InView(gfn);
      codeEptPteP := Some(epte);
      codeEptPte := Read(host.mem, epte);
      hijackedGfn := gfn;
      SetLeaf(gfn, epte, Hijacked(codeEptPte, code));
    }

    /** Restores the entry hijacked last, then points the entry of `gpa` at the code page. */
    method RemapGpaCode(gpa: nat, code: nat)
      requires Valid() && gpa < GPA_LIMIT
      requires gpa / 0x1000 in View() || host.Provides(Missing(tables, gpa / 0x1000, 0))
      modifies this, host
      ensures Valid() && eptptr == old(eptptr) && visited == old(visited)
      ensures State() == Hijack(old(State()), gpa / 0x1000, code) && OwnOnly(old(Foot()), Foot())
      ensures host.session == old(host.session) && Spent(old(host.count), old(host.pBase), 3)
      ensures gpa / 0x1000 in old(View()) ==> host.count == old(host.count)
    {
      hide Linked, Known, FrameAllocator.Ready, OwnOnly, Mapped, Hijacked, Missing, ViewOf, ListSlot;
      ghost var a := Foot();
      InView(gpa / 0x1000);
      var epte := GetEpte(gpa);
      RestoreCode();
      ghost var b := Foot();
      if epte.Some? {
        HijackSlot(gpa / 0x1000, epte.value, code);
      } else {
        codeEptPteP := MapEpte(gpa, code, EXEC);
        codeEptPte := ABSENT;
        hijackedGfn := gpa / 0x1000;
      }
      OwnOnlyTwice(a, b, Foot());
    }

    /** The EPT part of `create_introspection_context`: with L copied leaf tables it takes at most 3L + 4 frames. */
    method CreateIntrospectionContext(active: seq<GuestPage>, l: Local)
      requires WellFormed(active) && leafPage == [] && codeEptPteP == None && frames == {}
      requires host.Ready() && host.Provides(3 * |Copied(active)| + 4)
      modifies this, host
      ensures forall k :: 0 <= k < |Copied(active)| ==> |Copied(active)[k].spt| == ENTRIES
      ensures Valid() && State() == Hijacking(WithLocals(GuestView(Copied(active)), l), None)
      ensures OwnOnly(old(Foot()), Foot()) && visited == old(visited)
      ensures host.session == old(host.session) && Spent(old(host.count), old(host.pBase), 3 * |Copied(active)| + 4)
    {
      hide Linked, Known, FrameAllocator.Ready, ViewOf, OwnOnly;
      ghost var a := Foot();
      CopyLeafEpt(active);
      CopiedView(host.mem, leafPage, Copied(active));
      ghost var b := Foot();
      MakeImeeEpt(Copied(active));
      ghost var c := Foot();
      OwnOnlyTwice(a, b, c);
      MapLocalPageTables(l);
      OwnOnlyTwice(a, c, Foot());
    }
  }
}
