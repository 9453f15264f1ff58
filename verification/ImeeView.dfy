/** What an IMEE context maps, without its tables: the leaf entry of every covered guest frame.
    The runs of `remap_gpa_code` (kvm/imee.c:850-879) and the two-dimensional translation of the
    agent's addresses are stated here; module `ImeeEpt` proves that the radix tree and the leaf list
    implement exactly these operations. */
module ImeeView {
  import opened Wrappers
  import opened EptEntry

  // GPA bits 47:12 (4-level EPT)
  const GFN_LIMIT := 0x10_0000_0000

  // kvm/imee.h:64-68, as frame numbers
  const PD_GFN := 0xF0000
  const PT_EXEC_GFN := 0xF0001
  const PT_DATA_GFN := 0xF0002
  const CODE_GFN := 0xF0003
  const DATA_GFN := 0xF0004

  /** Frames covered by some leaf table, with their entries. */
  type View = map<nat, Epte>

  function Lookup(v: View, gfn: nat): Epte { if gfn in v then v[gfn] else ABSENT }

  /** Frames in the same 2 MB region share a leaf table. */
  predicate SameTable(g: nat, h: nat) { g / 512 == h / 512 }

  /** The 512 empty entries of a new leaf table. */
  function EmptyTable(gfn: nat): View {
    map g: nat | gfn / 512 * 512 <= g < gfn / 512 * 512 + 512 && SameTable(g, gfn) :: ABSENT
  }

  function Covered(v: View, gfn: nat): View { if gfn in v then v else EmptyTable(gfn) + v }

  /** `map_epte`. */
  function Mapped(v: View, gfn: nat, frame: nat, perm: bv12): View {
    Covered(v, gfn)[gfn := MappedOver(Lookup(v, gfn), frame, perm)]
  }

  /** Leaf tables are whole: a covered frame brings its 2 MB region with it. */
  ghost predicate Whole(v: View) { forall g, k: nat {:trigger SameTable(k, g)} :: g in v && SameTable(k, g) ==> k in v }

  lemma EmptyTableKeys(gfn: nat, g: nat)
    ensures g in EmptyTable(gfn) <==> SameTable(g, gfn)
  {
  }

  lemma CoveredLookup(v: View, gfn: nat)
    ensures gfn in Covered(v, gfn) && Covered(v, gfn)[gfn] == Lookup(v, gfn)
  {
    EmptyTableKeys(gfn, gfn);
  }

  lemma MappedLookup(v: View, gfn: nat, frame: nat, perm: bv12, g: nat)
    ensures Lookup(Mapped(v, gfn, frame, perm), g) ==
              if g == gfn then MappedOver(Lookup(v, gfn), frame, perm) else Lookup(v, g)
    ensures g in Mapped(v, gfn, frame, perm) <==> g in v || g == gfn || (gfn !in v && SameTable(g, gfn))
  {
    EmptyTableKeys(gfn, g);
  }

  lemma MappedWhole(v: View, gfn: nat, frame: nat, perm: bv12)
    requires Whole(v)
    ensures Whole(Mapped(v, gfn, frame, perm))
    ensures forall g: nat :: g in Mapped(v, gfn, frame, perm) <==> g in v || SameTable(g, gfn)
  {
    var w := Mapped(v, gfn, frame, perm);
    forall g: nat
      ensures g in w <==> g in v || SameTable(g, gfn)
    {
      MappedLookup(v, gfn, frame, perm, g);
    }
  }

  datatype Request = Request(gfn: nat, frame: nat, perm: bv12)

  function MapAll(v: View, rs: seq<Request>): View {
    if rs == [] then v else
    var r := rs[|rs| - 1];
    Mapped(MapAll(v, rs[..|rs| - 1]), r.gfn, r.frame, r.perm)
  }

  lemma MapAllSnoc(v: View, done: seq<Request>, r: Request)
    ensures MapAll(v, done + [r]) == Mapped(MapAll(v, done), r.gfn, r.frame, r.perm)
  {
    assert (done + [r])[..|done|] == done;
  }

  ghost predicate Distinct(rs: seq<Request>) { forall i, j :: 0 <= i < j < |rs| ==> rs[i].gfn != rs[j].gfn }

  /** A batch of mappings of distinct frames changes exactly these frames. */
  lemma {:induction false} MapAllLookup(v: View, rs: seq<Request>)
    requires Whole(v) && Distinct(rs)
    ensures Whole(MapAll(v, rs))
    ensures forall i :: 0 <= i < |rs| ==> rs[i].gfn in MapAll(v, rs)
    ensures forall i :: 0 <= i < |rs| ==>
                          Lookup(MapAll(v, rs), rs[i].gfn) == MappedOver(Lookup(v, rs[i].gfn), rs[i].frame, rs[i].perm)
    ensures forall g: nat :: (forall i :: 0 <= i < |rs| ==> rs[i].gfn != g) ==> Lookup(MapAll(v, rs), g) == Lookup(v, g)
  {
    if rs != [] {
      var n, r := |rs| - 1, rs[|rs| - 1];
      var w := MapAll(v, rs[..n]);
      MapAllLookup(v, rs[..n]);
      MappedWhole(w, r.gfn, r.frame, r.perm);
      forall g: nat
        ensures Lookup(MapAll(v, rs), g) ==
                  if g == r.gfn then MappedOver(Lookup(w, r.gfn), r.frame, r.perm) else Lookup(w, g)
      {
        MappedLookup(w, r.gfn, r.frame, r.perm, g);
      }
      assert forall i :: 0 <= i < n ==> rs[..n][i] == rs[i];
    }
  }

  // ----- the hijacked code entry

  /** `code_ept_pte_p` and `code_ept_pte`: the frame whose entry was replaced, and what it held. */
  datatype Hijacking = Hijacking(view: View, saved: Option<(nat, Epte)>)

  function Restored(h: Hijacking): View {
    match h.saved
    case None => h.view
    case Some((gfn, e)) => h.view[gfn := e]
  }

  /** `remap_gpa_code`; the lookup decides between the branches before the old entry is restored. */
  function Hijack(h: Hijacking, gfn: nat, code: nat): Hijacking {
    var v := Restored(h);
    if gfn in h.view then
      var e := Lookup(v, gfn);
      Hijacking(v[gfn := Hijacked(e, code)], Some((gfn, e)))
    else
      Hijacking(Mapped(v, gfn, code, EXEC), Some((gfn, ABSENT)))
  }

  function Run(v: View, gfns: seq<nat>, code: nat): Hijacking {
    if gfns == [] then Hijacking(v, None)
    else Hijack(Run(v, gfns[..|gfns| - 1], code), gfns[|gfns| - 1], code)
  }

  /** A leaf table for `gfn` exists before the last of these hijacks. */
  ghost predicate HasTable(v: View, gfns: seq<nat>, gfn: nat) {
    gfn in v || exists i :: 0 <= i < |gfns| && SameTable(gfn, gfns[i])
  }

  /** One hijack first restores, then replaces one entry and saves it. */
  lemma HijackStep(h: Hijacking, gfn: nat, code: nat)
    requires Whole(h.view) && (h.saved.Some? ==> h.saved.value.0 in h.view)
    ensures var r := Hijack(h, gfn, code);
            && Whole(r.view)
            && (forall g: nat :: g in r.view <==> g in h.view || SameTable(g, gfn))
            && r.saved == Some((gfn, Lookup(Restored(h), gfn)))
            && (forall g: nat :: Lookup(r.view, g) == if g != gfn then Lookup(Restored(h), g)
                  else if gfn in h.view then Hijacked(Lookup(Restored(h), gfn), code)
                  else MappedOver(ABSENT, code, EXEC))
            && (forall g: nat :: Lookup(Restored(r), g) == Lookup(Restored(h), g))
  {
    var v := Restored(h);
    assert v.Keys == h.view.Keys;
    assert Whole(v);
    if gfn !in h.view {
      MappedWhole(v, gfn, code, EXEC);
      forall g: nat
        ensures Lookup(Mapped(v, gfn, code, EXEC), g) ==
                  if g == gfn then MappedOver(ABSENT, code, EXEC) else Lookup(v, g)
      {
        MappedLookup(v, gfn, code, EXEC, g);
      }
    }
  }

  lemma HasTableStep(v: View, prefix: seq<nat>, last: nat, g: nat)
    ensures HasTable(v, prefix + [last], g) <==> HasTable(v, prefix, g) || SameTable(g, last)
  {
    var gfns := prefix + [last];
    assert gfns[|prefix|] == last;
    assert forall i :: 0 <= i < |prefix| ==> gfns[i] == prefix[i];
  }

  /** `HijackStep` for one frame. */
  lemma HijackStepAt(h: Hijacking, gfn: nat, code: nat, g: nat)
    requires Whole(h.view) && (h.saved.Some? ==> h.saved.value.0 in h.view)
    ensures var r := Hijack(h, gfn, code);
            && (g in r.view <==> g in h.view || SameTable(g, gfn))
            && r.saved == Some((gfn, Lookup(Restored(h), gfn)))
            && Lookup(r.view, g) == (if g != gfn then Lookup(Restored(h), g)
                                     else if gfn in h.view then Hijacked(Lookup(Restored(h), gfn), code)
                                     else MappedOver(ABSENT, code, EXEC))
            && Lookup(Restored(r), g) == Lookup(Restored(h), g)
  {
    hide Hijack, Restored, Lookup, SameTable, Whole;
    HijackStep(h, gfn, code);
  }

  lemma {:induction false} RunIsWhole(v: View, gfns: seq<nat>, code: nat)
    requires Whole(v)
    ensures var r := Run(v, gfns, code);
            Whole(r.view) && if gfns == [] then r.saved == None
                             else r.saved.Some? && r.saved.value.0 == gfns[|gfns| - 1] && gfns[|gfns| - 1] in r.view
  {
    hide Hijack, Restored, Lookup, Whole;
    if gfns != [] {
      var prefix, last := gfns[..|gfns| - 1], gfns[|gfns| - 1];
      RunIsWhole(v, prefix, code);
      HijackStep(Run(v, prefix, code), last, code);
      assert SameTable(last, last);
    }
  }

  lemma {:induction false} RunCovers(v: View, gfns: seq<nat>, code: nat, g: nat)
    requires Whole(v)
    ensures g in Run(v, gfns, code).view <==> HasTable(v, gfns, g)
    ensures Lookup(Restored(Run(v, gfns, code)), g) == Lookup(v, g)
  {
    hide Hijack, Restored, Lookup, Whole, SameTable, HasTable;
    if gfns == [] {
      NoRun(v, code, g);
    } else {
      var prefix, last := gfns[..|gfns| - 1], gfns[|gfns| - 1];
      RunCovers(v, prefix, code, g);
      RunIsWhole(v, prefix, code);
      HijackStepAt(Run(v, prefix, code), last, code, g);
      HasTableStep(v, prefix, last, g);
      assert gfns == prefix + [last];
    }
  }

  lemma NoRun(v: View, code: nat, g: nat)
    ensures Restored(Run(v, [], code)) == v && (HasTable(v, [], g) <==> g in v)
  {
  }

  /** After any run of hijacks exactly the frame hijacked last differs from the pristine view; the saved
      pair names it and holds its pristine entry.  Its entry keeps the pristine attribute bits, except
      that a slot created by this very hijack also gets memory type 0x270. */
  lemma RunOfHijacks(v: View, gfns: seq<nat>, code: nat)
    requires Whole(v)
    ensures Whole(Run(v, gfns, code).view)
    ensures forall g: nat :: g in Run(v, gfns, code).view <==> HasTable(v, gfns, g)
    ensures forall g: nat :: Lookup(Restored(Run(v, gfns, code)), g) == Lookup(v, g)
    ensures gfns != [] ==>
              var last := gfns[|gfns| - 1];
              var r := Run(v, gfns, code);
              && r.saved == Some((last, Lookup(v, last)))
              && (forall g: nat :: g != last ==> Lookup(r.view, g) == Lookup(v, g))
              && Lookup(r.view, last) == if HasTable(v, gfns[..|gfns| - 1], last) then Hijacked(Lookup(v, last), code)
                                         else MappedOver(ABSENT, code, EXEC)
  {
    hide Hijack, Restored, Lookup, Whole, SameTable, HasTable;
    RunIsWhole(v, gfns, code);
    forall g: nat
      ensures g in Run(v, gfns, code).view <==> HasTable(v, gfns, g)
      ensures Lookup(Restored(Run(v, gfns, code)), g) == Lookup(v, g)
    {
      RunCovers(v, gfns, code, g);
    }
    if gfns != [] {
      var prefix, last := gfns[..|gfns| - 1], gfns[|gfns| - 1];
      RunIsWhole(v, prefix, code);
      RunCovers(v, prefix, code, last);
      forall g: nat
        ensures g != last ==> Lookup(Run(v, gfns, code).view, g) == Lookup(v, g)
      {
        RunCovers(v, prefix, code, g);
        HijackStepAt(Run(v, prefix, code), last, code, g);
      }
      HijackStepAt(Run(v, prefix, code), last, code, last);
    }
  }

  /** Hijacking the same uncovered frame twice in a row does not reproduce the entry: the second time the
      leaf table exists, so the memory-type bits 0x270 of `map_epte` are not set again. */
  lemma RepeatedHijackLosesMemoryType(v: View, gfn: nat, code: nat)
    requires Whole(v) && gfn !in v
    ensures Lookup(Run(v, [gfn], code).view, gfn).low == 0x274
    ensures Lookup(Run(v, [gfn, gfn], code).view, gfn).low == 0x4
  {
    RunOfHijacks(v, [gfn], code);
    RunOfHijacks(v, [gfn, gfn], code);
    assert [gfn, gfn][..1] == [gfn];
    assert !HasTable(v, [gfn][..0], gfn);
    assert [gfn][0] == gfn;
    assert HasTable(v, [gfn], gfn);
  }

  // ----- permissions

  /** The host frames behind the five local pages. */
  datatype Local = Local(pd: nat, ptExec: nat, ptData: nat, data: nat, code: nat)

  predicate WritableGfn(gfn: nat) { gfn == PD_GFN || gfn == PT_EXEC_GFN || gfn == PT_DATA_GFN || gfn == DATA_GFN }

  /** The run does not end on a writable local page. */
  predicate SparesLocals(gfns: seq<nat>) { gfns == [] || !WritableGfn(gfns[|gfns| - 1]) }

  predicate FakeTableGfn(gfn: nat) { WritableGfn(gfn) && gfn != DATA_GFN }

  predicate LocalFrame(l: Local, frame: nat) {
    frame == l.pd || frame == l.ptExec || frame == l.ptData || frame == l.data
  }

  /** `map_local_page_tables` (kvm/imee.c:1304-1312). */
  function LocalRequests(l: Local): seq<Request> {
    [Request(PD_GFN, l.pd, READ | WRITE), Request(PT_EXEC_GFN, l.ptExec, READ | WRITE),
     Request(PT_DATA_GFN, l.ptData, READ | WRITE),
     Request(DATA_GFN, l.data, READ | WRITE), Request(CODE_GFN, l.code, EXEC)]
  }

  function WithLocals(v: View, l: Local): View { MapAll(v, LocalRequests(l)) }

  predicate Inert(v: View) { forall g | g in v :: !Writable(v[g]) && !Executable(v[g]) }

  /** Only the four local frames are writable and only the code frame is executable. */
  ghost predicate Confined(v: View, l: Local) {
    forall g ::
      && (Writable(Lookup(v, g)) ==> LocalFrame(l, Lookup(v, g).frame))
      && (Executable(Lookup(v, g)) ==> Lookup(v, g).frame == l.code)
  }

  ghost predicate HasLocals(w: View, v: View, l: Local) {
    && (forall g: nat :: g < PD_GFN || g > DATA_GFN ==> Lookup(w, g) == Lookup(v, g))
    && (forall g: nat :: PD_GFN <= g <= DATA_GFN ==> g in w)
    && Lookup(w, PD_GFN) == MappedOver(Lookup(v, PD_GFN), l.pd, READ | WRITE)
    && Lookup(w, PT_EXEC_GFN) == MappedOver(Lookup(v, PT_EXEC_GFN), l.ptExec, READ | WRITE)
    && Lookup(w, PT_DATA_GFN) == MappedOver(Lookup(v, PT_DATA_GFN), l.ptData, READ | WRITE)
    && Lookup(w, DATA_GFN) == MappedOver(Lookup(v, DATA_GFN), l.data, READ | WRITE)
    && Lookup(w, CODE_GFN) == MappedOver(Lookup(v, CODE_GFN), l.code, EXEC)
  }

  lemma LocalEntries(v: View, l: Local)
    requires Whole(v)
    ensures Whole(WithLocals(v, l)) && HasLocals(WithLocals(v, l), v, l)
  {
    var rs := LocalRequests(l);
    MapAllLookup(v, rs);
    assert rs[0].gfn == PD_GFN && rs[1].gfn == PT_EXEC_GFN && rs[2].gfn == PT_DATA_GFN && rs[3].gfn == DATA_GFN &&
        rs[4].gfn == CODE_GFN;
  }

  lemma HijackedPermissions(e: Epte, code: nat)
    ensures Writable(Hijacked(e, code)) == Writable(e) && Executable(Hijacked(e, code))
    ensures !Writable(MappedOver(ABSENT, code, EXEC)) && Executable(MappedOver(ABSENT, code, EXEC))
  {
  }

  lemma MappedPermissions(e: Epte, frame: nat)
    ensures Writable(MappedOver(e, frame, READ | WRITE)) && !Executable(MappedOver(e, frame, READ | WRITE))
    ensures !Writable(MappedOver(e, frame, EXEC)) && Executable(MappedOver(e, frame, EXEC))
  {
  }

  /** The confinement holds after a run of hijacks exactly when the run did not end on one of the four
      writable local pages. */
  lemma ConfinedRun(v: View, l: Local, gfns: seq<nat>)
    requires Whole(v) && Inert(v) && !LocalFrame(l, l.code)
    ensures Confined(Run(WithLocals(v, l), gfns, l.code).view, l) <==> SparesLocals(gfns)
  {
    var w := WithLocals(v, l);
    LocalEntries(v, l);
    RunOfHijacks(w, gfns, l.code);
    var r := Run(w, gfns, l.code).view;
    forall g: nat
      ensures Writable(Lookup(w, g)) <==> WritableGfn(g)
      ensures Writable(Lookup(w, g)) ==> LocalFrame(l, Lookup(w, g).frame)
      ensures Executable(Lookup(w, g)) ==> Lookup(w, g).frame == l.code
    {
      if PD_GFN <= g <= DATA_GFN {
        MappedPermissions(Lookup(v, g), Lookup(w, g).frame);
      } else {
        assert g in v ==> Lookup(w, g) == v[g];
      }
    }
    if gfns != [] {
      var last := gfns[|gfns| - 1];
      HijackedPermissions(Lookup(w, last), l.code);
      if WritableGfn(last) {
        assert last in w;
        assert Lookup(r, last) == Hijacked(Lookup(w, last), l.code);
      }
    }
  }

  // ----- the agent's address space

  /** A 32-bit paging-structure entry: frame number and low twelve bits. */
  datatype Pte32 = Pte32(frame: nat, low: bv12)

  /** Contents of host frames, read as 32-bit paging structures. */
  type Frames = map<nat, seq<Pte32>>

  predicate Present32(e: Pte32) { e.low & 0x1 != 0 }

  /** Intel SDM Vol. 3A, section 4.3: fetch entry `idx` of the structure in guest frame `gfn`; the fetch is
      itself a guest-physical read, so the EPT must allow it. */
  function Fetch(v: View, phys: Frames, gfn: nat, idx: nat): Option<Pte32> {
    var e := Lookup(v, gfn);
    if e.low & READ != 0 && e.frame in phys && idx < |phys[e.frame]| && Present32(phys[e.frame][idx])
    then Some(phys[e.frame][idx]) else None
  }

  /** Where the walk of a linear address ends: the EPT leaf entry that governs the access, and the low bits of the
      directory entry and of the table entry on the way. */
  datatype Reached = Reached(entry: Epte, pde: bv12, pte: bv12)

  /** With CR3 = PD_GPA.  A directory entry with bit 7 set would map a large page; there is none in the fake
      directory. */
  function Translate(v: View, phys: Frames, va: nat): Option<Reached> {
    var pde := Fetch(v, phys, PD_GFN, va / 0x40_0000);
    if pde.None? || pde.value.low & 0x80 != 0 then None else
    var pte := Fetch(v, phys, pde.value.frame, va / 0x1000 % 1024);
    if pte.None? then None else Some(Reached(Lookup(v, pte.value.frame), pde.value.low, pte.value.low))
  }

  /** Both levels allow user-mode reads and writes (Intel SDM Vol. 3A, section 4.6: bits 1 and 2 set in both), so that
      the EPT alone restricts the access; neither needs an accessed or dirty flag set (bits 5 and 6); the page is
      ordinary memory (bits 3, 4 and 7 clear), and its translation is global (bit 8), so it survives loads of CR3. */
  predicate OpenBelow(t: Reached) {
    && t.pde & t.pte & 0x6 == 0x6 && t.pde & t.pte & 0x60 == 0x60
    && (t.pde | t.pte) & 0x98 == 0 && t.pte & 0x100 == 0x100
  }

  /** Addresses below 0x1000 reach the data page, readable and writable, all others the code page for execution; the
      fake tables allow user mode everything. */
  ghost predicate ReachesRight(v: View, phys: Frames, l: Local, va: nat) {
    var t := Translate(v, phys, va);
    && t.Some? && OpenBelow(t.value)
    && if va < 0x1000 then t.value.entry.frame == l.data && t.value.entry.low & 0x3 == 0x3
       else t.value.entry.frame == l.code && Executable(t.value.entry)
  }

  ghost predicate AgentSpace(v: View, phys: Frames, l: Local) {
    forall va: nat :: va < 0x1_0000_0000 ==> ReachesRight(v, phys, l, va)
  }

  function FakePd(): seq<Pte32> {
    seq(1024, i => if i == 0 then Pte32(PT_DATA_GFN, 0x67) else Pte32(PT_EXEC_GFN, 0x67))
  }
  function FakePtData(): seq<Pte32> {
    seq(1024, i => if i == 0 then Pte32(DATA_GFN, 0x167) else Pte32(CODE_GFN, 0x167))
  }
  function FakePtExec(): seq<Pte32> { seq(1024, i => Pte32(CODE_GFN, 0x167)) }

  ghost predicate HoldsFakeTables(phys: Frames, l: Local) {
    && l.pd in phys && phys[l.pd] == FakePd()
    && l.ptData in phys && phys[l.ptData] == FakePtData()
    && l.ptExec in phys && phys[l.ptExec] == FakePtExec()
  }

  /** The code page does not read as a paging structure: one of its 1024 words has the present bit clear. */
  ghost predicate NoTable(phys: Frames, frame: nat) {
    frame in phys ==> exists i :: 0 <= i < 1024 && !(i < |phys[frame]| && Present32(phys[frame][i]))
  }

  /** The local pages as a walk needs them, except maybe the one at `gone`. */
  ghost predicate TablesMapped(r: View, l: Local, gone: nat) {
    && (gone != PD_GFN ==> Lookup(r, PD_GFN).frame == l.pd && Lookup(r, PD_GFN).low & READ != 0)
    && (gone != PT_EXEC_GFN ==> Lookup(r, PT_EXEC_GFN).frame == l.ptExec && Lookup(r, PT_EXEC_GFN).low & READ != 0)
    && (gone != PT_DATA_GFN ==> Lookup(r, PT_DATA_GFN).frame == l.ptData && Lookup(r, PT_DATA_GFN).low & READ != 0)
    && (gone != DATA_GFN ==> Lookup(r, DATA_GFN).frame == l.data && Lookup(r, DATA_GFN).low & 0x3 == 0x3)
    && Lookup(r, CODE_GFN).frame == l.code && Executable(Lookup(r, CODE_GFN))
  }

  lemma MappedBits(e: Epte, frame: nat)
    ensures MappedOver(e, frame, READ | WRITE).low & READ != 0 && MappedOver(e, frame, READ | WRITE).low & 0x3 == 0x3
    ensures Executable(MappedOver(e, frame, EXEC))
  {
  }

  /** Where the code page took the place of one of the fake tables, it must not happen to read as one. */
  ghost predicate CodeIsNoTable(phys: Frames, l: Local, gfns: seq<nat>) {
    gfns != [] && FakeTableGfn(gfns[|gfns| - 1]) ==> NoTable(phys, l.code)
  }

  /** A run of hijacks leaves every local page in place but the one it ended on, which it sends to the code frame. */
  lemma LocalsAfterRun(v: View, l: Local, gfns: seq<nat>)
    requires Whole(v)
    ensures var r := Run(WithLocals(v, l), gfns, l.code).view;
            if gfns == [] then TablesMapped(r, l, CODE_GFN)
            else && TablesMapped(r, l, gfns[|gfns| - 1])
                 && (PD_GFN <= gfns[|gfns| - 1] <= DATA_GFN ==> Lookup(r, gfns[|gfns| - 1]).frame == l.code)
  {
    var w := WithLocals(v, l);
    LocalEntries(v, l);
    RunOfHijacks(w, gfns, l.code);
    MappedBits(Lookup(v, PD_GFN), l.pd);
    MappedBits(Lookup(v, PT_EXEC_GFN), l.ptExec);
    MappedBits(Lookup(v, PT_DATA_GFN), l.ptData);
    MappedBits(Lookup(v, DATA_GFN), l.data);
    MappedBits(Lookup(v, CODE_GFN), l.code);
    HijackedPermissions(Lookup(w, CODE_GFN), l.code);
  }

  lemma FakeEntriesOpen()
    ensures forall e: Epte :: OpenBelow(Reached(e, 0x67, 0x167))
  {
  }

  /** With all local pages in place every address is translated as the fake tables say. */
  lemma FakeTablesTranslate(r: View, phys: Frames, l: Local)
    requires HoldsFakeTables(phys, l) && TablesMapped(r, l, CODE_GFN)
    ensures AgentSpace(r, phys, l)
  {
    forall va: nat | va < 0x1_0000_0000
      ensures ReachesRight(r, phys, l, va)
    {
      var i, j := va / 0x40_0000, va / 0x1000 % 1024;
      assert Fetch(r, phys, PD_GFN, i) == Some(FakePd()[i]);
      if i == 0 {
        assert Fetch(r, phys, PT_DATA_GFN, j) == Some(FakePtData()[j]);
        assert j == 0 <==> va < 0x1000;
      } else {
        assert Fetch(r, phys, PT_EXEC_GFN, j) == Some(FakePtExec()[j]);
      }
      FakeEntriesOpen();
    }
  }

  /** With one of the four writable local pages sent to the code frame, some address faults or reaches a wrong page. */
  lemma HijackedLocalBreaks(r: View, phys: Frames, l: Local, last: nat)
    requires HoldsFakeTables(phys, l) && TablesMapped(r, l, last)
    requires WritableGfn(last) && Lookup(r, last).frame == l.code
    requires l.data != l.code && (last != DATA_GFN ==> NoTable(phys, l.code))
    ensures !AgentSpace(r, phys, l)
  {
    var k := 0;
    if last != DATA_GFN { k := BadWord(phys, l.code); }
    var va := if last == PD_GFN then k * 0x40_0000 else if last == PT_EXEC_GFN then 0x40_0000 + k * 0x1000
              else if last == PT_DATA_GFN then k * 0x1000 else 0;
    Decompose(k);
    if last != PD_GFN { assert Fetch(r, phys, PD_GFN, va / 0x40_0000) == Some(FakePd()[va / 0x40_0000]); }
    if last == DATA_GFN { assert Fetch(r, phys, PT_DATA_GFN, 0) == Some(FakePtData()[0]); }
    assert !ReachesRight(r, phys, l, va);
  }

  lemma BadWord(phys: Frames, frame: nat) returns (k: nat)
    requires NoTable(phys, frame)
    ensures k < 1024 && (frame in phys ==> !(k < |phys[frame]| && Present32(phys[frame][k])))
  {
    k := 0;
    if frame in phys {
      k :| k < 1024 && !(k < |phys[frame]| && Present32(phys[frame][k]));
    }
  }

  lemma Decompose(k: nat)
    requires k < 1024
    ensures k * 0x40_0000 / 0x40_0000 == k && (0x40_0000 + k * 0x1000) / 0x40_0000 == 1 && k * 0x1000 / 0x40_0000 == 0
    ensures (0x40_0000 + k * 0x1000) / 0x1000 % 1024 == k && k * 0x1000 / 0x1000 % 1024 == k
  {
  }

  /** The two-dimensional walk is as it was set up, whatever the guest's copied tables hold, after exactly those runs
      of hijacks that do not end on one of the four writable local pages. */
  lemma AgentSpaceAfterRun(v: View, phys: Frames, l: Local, gfns: seq<nat>)
    requires Whole(v) && HoldsFakeTables(phys, l) && l.data != l.code && CodeIsNoTable(phys, l, gfns)
    ensures AgentSpace(Run(WithLocals(v, l), gfns, l.code).view, phys, l) <==> SparesLocals(gfns)
  {
    hide Run, WithLocals, Lookup, HoldsFakeTables, NoTable, AgentSpace, Executable;
    var r := Run(WithLocals(v, l), gfns, l.code).view;
    LocalsAfterRun(v, l, gfns);
    if gfns != [] && WritableGfn(gfns[|gfns| - 1]) {
      HijackedLocalBreaks(r, phys, l, gfns[|gfns| - 1]);
    } else {
      FakeTablesTranslate(r, phys, l);
    }
  }
}
