/** The steps that drive the contexts: setting up the agent's page tables and one context per VM
    (kvm/imee.c:1245-1302, 1442-1486, 1531-1565), picking the next context (kvm/imee.c:1150-1172, 1567-1677), and
    serving EPT violations (kvm/vmx.c:5735-5773). */
module ImeeDriver {
  import opened Wrappers
  import opened EptEntry
  import opened EptFrames
  import opened ImeeView
  import opened EptTree
  import opened ImeeEpt

  const PD_GPA := PD_GFN * 0x1000

  /** Fills the three zeroed pages.  A host page that is not mapped ends the call with -1. */
  method InitLocalPageTables(dataPte: Option<nat>, codePte: Option<nat>)
    returns (r: int, dataHpa: nat, codeHpa: nat, pd: array<Pte32>, ptExec: array<Pte32>, ptData: array<Pte32>)
    ensures r == 0 <==> dataPte.Some? && codePte.Some?
    ensures r != 0 ==> r == -1
    ensures r == 0 ==> dataHpa == dataPte.value && codeHpa == codePte.value
    ensures r == 0 ==> pd[..] == FakePd() && ptExec[..] == FakePtExec() && ptData[..] == FakePtData()
    ensures r == 0 ==>
              forall i :: 0 <= i < 1024 ==>
                && pd[i] == Pte32(if i == 0 then 0xF0002 else 0xF0001, 0x67)
                && ptData[i] == Pte32(if i == 0 then 0xF0004 else 0xF0003, 0x167) && ptExec[i] == Pte32(0xF0003, 0x167)
  {
    r, dataHpa, codeHpa := -1, 0, 0;
    pd := new Pte32[1024](_ => Pte32(0, 0));
    ptExec := new Pte32[1024](_ => Pte32(0, 0));
    ptData := new Pte32[1024](_ => Pte32(0, 0));
    if dataPte.None? { return; }
    dataHpa := dataPte.value;
    if codePte.None? { return; }
    codeHpa := codePte.value;

    pd[0] := Pte32(PT_DATA_GFN, 0x7 | 0x60);
    var i := 1;
    while i < 1024
      invariant 1 <= i <= 1024
      invariant forall j :: 0 <= j < i ==> pd[j] == FakePd()[j]
    {
      pd[i] := Pte32(PT_EXEC_GFN, 0x7 | 0x60);
      i := i + 1;
    }

    ptData[0] := Pte32(DATA_GFN, 0x7 | 0x100 | 0x60);
    ptExec[0] := Pte32(CODE_GFN, 0x7 | 0x100 | 0x60);
    i := 1;
    while i < 1024
      invariant 1 <= i <= 1024
      invariant forall j :: 0 <= j < i ==> ptData[j] == FakePtData()[j] && ptExec[j] == FakePtExec()[j]
      invariant forall j :: 0 <= j < 1024 ==> pd[j] == FakePd()[j]
    {
      ptData[i] := Pte32(CODE_GFN, 0x7 | 0x100 | 0x60);
      ptExec[i] := Pte32(CODE_GFN, 0x7 | 0x100 | 0x60);
      i := i + 1;
    }
    r := 0;
  }

  // ----- what the agent can reach

  /** For every guest and every run of hijacks: the agent can write nothing but the four local frames and execute
      nothing but its code page, and its own address space is as it was set up, both exactly unless the last hijack
      hit a writable local page. */
  lemma AgentIsConfined(pages: seq<GuestPage>, phys: Frames, l: Local, gfns: seq<nat>)
    requires forall k :: 0 <= k < |pages| ==> |pages[k].spt| == ENTRIES
    requires HoldsFakeTables(phys, l) && !LocalFrame(l, l.code) && CodeIsNoTable(phys, l, gfns)
    ensures var v := Run(WithLocals(GuestView(pages), l), gfns, l.code).view;
            (Confined(v, l) <==> SparesLocals(gfns)) && (AgentSpace(v, phys, l) <==> SparesLocals(gfns))
  {
    hide Run, WithLocals, Confined, AgentSpace, HoldsFakeTables, Whole, Inert;
    GuestViewIsInert(pages);
    ConfinedRun(GuestView(pages), l, gfns);
    AgentSpaceAfterRun(GuestView(pages), phys, l, gfns);
  }

  /** What the hardware maps from `eptptr`: the entry that its walk of a guest frame ends in, if it ends in one. */
  ghost function HardwareView(ctx: IntroCtx): View
    reads ctx, ctx.host
  {
    map g: nat | g < GFN_LIMIT && HwWalk(ctx.host.mem, ctx.eptptr, g, 0).Leaf? ::
      Read(ctx.host.mem, HwWalk(ctx.host.mem, ctx.eptptr, g, 0).slot)
  }

  lemma HardwareIsView(ctx: IntroCtx)
    requires ctx.Valid()
    ensures HardwareView(ctx) == ctx.State().view
    ensures forall g: nat :: g < GFN_LIMIT ==> !HwWalk(ctx.host.mem, ctx.eptptr, g, 0).LargePage?
  {
    forall g: nat | g < GFN_LIMIT
      ensures !HwWalk(ctx.host.mem, ctx.eptptr, g, 0).LargePage?
      ensures g in HardwareView(ctx) <==> g in ctx.View()
      ensures g in ctx.View() ==> HardwareView(ctx)[g] == ctx.View()[g]
    {
      ctx.HardwareSeesView(g);
    }
  }

  // ----- one context per VM

  /** A VM on `vm_list`; `own` is the one that runs the agent. */
  datatype Vm = Vm(id: nat, own: bool, active: seq<GuestPage>)

  ghost predicate AllWellFormed(vms: seq<Vm>) { forall k :: 0 <= k < |vms| ==> WellFormed(vms[k].active) }

  predicate Knows(vms: seq<Vm>, id: nat) { exists k :: 0 <= k < |vms| && vms[k].id == id }

  /** The VMs that get a context, the last one first, as `list_add` leaves them. */
  function Targets(vms: seq<Vm>): seq<Vm> {
    if vms == [] then [] else
    var rest, vm := Targets(vms[..|vms| - 1]), vms[|vms| - 1];
    if vm.own || Knows(rest, vm.id) then rest else [vm] + rest
  }

  lemma KnowsOneMore(vm: Vm, rest: seq<Vm>, id: nat)
    ensures Knows([vm] + rest, id) <==> vm.id == id || Knows(rest, id)
  {
    var all := [vm] + rest;
    assert all[0] == vm;
    if j :| 0 <= j < |rest| && rest[j].id == id { assert all[j + 1].id == id; }
  }

  /** Some VM other than the agent's own has the id. */
  ghost predicate Listed(vms: seq<Vm>, id: nat) { exists k :: 0 <= k < |vms| && !vms[k].own && vms[k].id == id }

  lemma ListedOneMore(vms: seq<Vm>, n: nat, id: nat)
    requires n + 1 == |vms|
    ensures Listed(vms, id) <==> (!vms[n].own && vms[n].id == id) || Listed(vms[..n], id)
  {
    if k :| 0 <= k < n && !vms[..n][k].own && vms[..n][k].id == id { assert vms[k].id == id; }
    if k :| 0 <= k < n && !vms[k].own && vms[k].id == id { assert vms[..n][k].id == id; }
  }

  lemma {:induction false} KnownTargets(vms: seq<Vm>, id: nat)
    ensures Knows(Targets(vms), id) <==> Listed(vms, id)
  {
    hide Knows, Listed;
    if vms == [] {
      NoneKnown(id);
    } else {
      var n := |vms| - 1;
      KnownTargets(vms[..n], id);
      KnownTargets(vms[..n], vms[n].id);
      ListedOneMore(vms, n, id);
      KnowsOneMore(vms[n], Targets(vms[..n]), id);
    }
  }

  lemma NoneKnown(id: nat)
    ensures !Knows([], id) && !Listed([], id)
  {
  }

  /** The VM at `i` is not the agent's own, and no such VM with its id comes before it. */
  ghost predicate FirstOfItsId(vms: seq<Vm>, i: nat) {
    i < |vms| && !vms[i].own && forall j :: 0 <= j < i ==> vms[j].own || vms[j].id != vms[i].id
  }

  lemma FirstBefore(vms: seq<Vm>, n: nat)
    requires n + 1 == |vms|
    ensures forall i: nat :: i < n ==> (FirstOfItsId(vms, i) <==> FirstOfItsId(vms[..n], i))
    ensures FirstOfItsId(vms, n) <==> !vms[n].own && !Knows(Targets(vms[..n]), vms[n].id)
  {
    KnownTargets(vms[..n], vms[n].id);
    assert forall k :: 0 <= k < n ==> vms[..n][k] == vms[k];
  }

  /** The contexts are for the first VM of each id that is not the agent's own, and for no other; they stand in the
      reverse of the order in which the VMs stand on `vm_list`. */
  lemma {:induction false} TargetsAre(vms: seq<Vm>) returns (at: seq<nat>)
    ensures |at| == |Targets(vms)|
    ensures forall k :: 0 <= k < |at| ==> at[k] < |vms| && Targets(vms)[k] == vms[at[k]]
    ensures forall j, k :: 0 <= j < k < |at| ==> at[k] < at[j]
    ensures forall i: nat :: i in at <==> FirstOfItsId(vms, i)
  {
    at := [];
    if vms != [] {
      hide FirstOfItsId, Knows;
      var n := |vms| - 1;
      at := TargetsAre(vms[..n]);
      FirstBefore(vms, n);
      var before := at;
      assert forall i: nat :: i in before <==> i < n && FirstOfItsId(vms, i) by {
        OnlyInside(vms[..n]);
      }
      OnlyInside(vms);
      if FirstOfItsId(vms, n) {
        at := [n] + at;
        assert forall i :: i in at <==> i == n || i in before;
        assert forall k :: 0 < k < |at| ==> at[k] == before[k - 1];
      }
    }
  }

  lemma OnlyInside(vms: seq<Vm>)
    ensures forall i: nat :: FirstOfItsId(vms, i) ==> i < |vms|
  {
  }

  /** Frames that are enough for the contexts of these VMs. */
  function Budget(vms: seq<Vm>): nat {
    if vms == [] then 0 else Budget(vms[..|vms| - 1]) + 3 * |Copied(vms[|vms| - 1].active)| + 4
  }

  lemma {:induction false} BudgetGrows(vms: seq<Vm>, k: nat)
    requires k < |vms|
    ensures Budget(vms[..k]) + 3 * |Copied(vms[k].active)| + 4 == Budget(vms[..k + 1]) <= Budget(vms)
    ensures Targets(vms[..k + 1]) ==
            if vms[k].own || Knows(Targets(vms[..k]), vms[k].id) then Targets(vms[..k])
            else [vms[k]] + Targets(vms[..k])
  {
    assert vms[..k + 1][..k] == vms[..k];
    if k + 1 < |vms| {
      BudgetGrows(vms[..|vms| - 1], k);
      assert vms[..|vms| - 1][..k + 1] == vms[..k + 1] && vms[..|vms| - 1][..k] == vms[..k];
    } else {
      assert vms[..k + 1] == vms;
    }
  }

  /** What a new context maps: the stripped guest with the local pages. */
  ghost function Pristine(vm: Vm, l: Local): View
    requires WellFormed(vm.active)
  {
    CopiedWellFormed(vm.active);
    WithLocals(GuestView(Copied(vm.active)), l)
  }

  ghost function Views(vms: seq<Vm>, l: Local): seq<View>
    requires AllWellFormed(vms)
  {
    seq(|vms|, k requires 0 <= k < |vms| => Pristine(vms[k], l))
  }

  // ----- which violation hits which context

  /** `Intercept`: the agent asks for the next VM; `answered` tells whether the guest core reported its CR3 in time.
      `Violation`: the agent's vCPU exits on a guest-physical address. */
  datatype Event = Intercept(guestCr3: nat, answered: bool) | Violation(gpa: nat)

  /** How many contexts were picked, whether a violation will be served, and the frames hijacked in each context. */
  datatype Sched = Sched(picked: nat, armed: bool, hits: seq<seq<nat>>)

  function NextSched(s: Sched, e: Event): (r: Sched)
    ensures |r.hits| == |s.hits|
  {
    match e
    case Intercept(_, answered) =>
      if s.picked < |s.hits| then s.(picked := s.picked + 1, armed := s.armed || answered) else s
    case Violation(gpa) =>
      if s.armed && 0 < s.picked <= |s.hits|
      then s.(armed := false, hits := s.hits[s.picked - 1 := s.hits[s.picked - 1] + [gpa / 0x1000]])
      else s
  }

  function After(n: nat, events: seq<Event>): (r: Sched)
    ensures |r.hits| == n
  {
    if events == [] then Sched(0, false, seq(n, _ => []))
    else NextSched(After(n, events[..|events| - 1]), events[|events| - 1])
  }

  /** However intercepts and violations come, each context is hijacked at most once. */
  lemma {:induction false} HitOnce(n: nat, events: seq<Event>)
    ensures var s := After(n, events);
            && s.picked <= n && (s.armed ==> 0 < s.picked && s.hits[s.picked - 1] == [])
            && (forall k :: 0 <= k < n ==> |s.hits[k]| <= 1)
            && (forall k :: s.picked <= k < n ==> s.hits[k] == [])
  {
    if events != [] { HitOnce(n, events[..|events| - 1]); }
  }

  lemma AfterStep(n: nat, events: seq<Event>, k: nat)
    requires k < |events|
    ensures After(n, events[..k + 1]) == NextSched(After(n, events[..k]), events[k])
  {
    assert events[..k + 1][..k] == events[..k];
  }

  /** The globals of kvm/imee.c and the registers of the agent's vCPU that its exits change. */
  class Imee {
    const host: FrameAllocator
    var contexts: seq<IntroCtx>     // introspection_contexts
    var currentTarget: IntroCtx?
    var local: Local                // data_hpa, code_hpa and the three fake_cr3 pages
    var trialRun: bool
    var doSwitch: bool
    var rootHpa: nat
    var cr3: nat
    var rbx: nat
    var lastCr3: nat

    ghost predicate Member(c: IntroCtx)
      reads c, host
    {
      c.host == host && c.Valid()
    }

    ghost predicate Strangers(c: IntroCtx, d: IntroCtx)
      reads c, d
    {
      c != d && c.kvm != d.kvm && c.frames !! d.frames
    }

    /** All contexts live on one allocator, each on frames of its own. */
    ghost predicate Family()
      reads this`contexts, host, contexts
    {
      FamilyOf(contexts)
    }

    ghost predicate FamilyOf(cs: seq<IntroCtx>)
      reads host, cs
    {
      && host.Ready()
      && (forall k :: 0 <= k < |cs| ==> Member(cs[k]))
      && (forall j, k :: 0 <= j < k < |cs| ==> Strangers(cs[j], cs[k]))
    }

    lemma FamilyGrows(c: IntroCtx, cs: seq<IntroCtx>)
      requires FamilyOf(cs) && Member(c) && forall k :: 0 <= k < |cs| ==> Strangers(c, cs[k])
      ensures FamilyOf([c] + cs)
    {
      hide Member, Strangers, FrameAllocator.Ready;
    }

    /** The vCPU runs on the tables of the context that serves its violations. */
    ghost predicate Valid()
      reads this, host, contexts
    {
      && Family() && (trialRun ==> currentTarget != null)
      && (currentTarget != null ==> currentTarget in contexts && rootHpa == currentTarget.eptptr)
    }

    constructor (host: FrameAllocator, local: Local)
      ensures this.host == host && this.local == local && contexts == [] && !trialRun && currentTarget == null
    {
      this.host, this.local, contexts, currentTarget := host, local, [], null;
      trialRun, doSwitch, rootHpa, cr3, rbx, lastCr3 := false, false, 0, 0, 0, 0;
    }

    /** `kvm_to_ctx`. */
    method KvmToCtx(id: nat) returns (r: IntroCtx?)
      ensures r == null <==> forall k :: 0 <= k < |contexts| ==> contexts[k].kvm != id
      ensures r != null ==> r in contexts && r.kvm == id
    {
      var k := 0;
      while k < |contexts|
        invariant 0 <= k <= |contexts| && forall j :: 0 <= j < k ==> contexts[j].kvm != id
      {
        if contexts[k].kvm == id { return contexts[k]; }
        k := k + 1;
      }
      r := null;
    }

    /** `init_local_page_tables` with the three pages that `get_zeroed_page` gives it; `ram` is what host memory holds.
        Its failures are ignored by the caller, and leave the globals as far as they were set. */
    method InitLocals(ram: Frames, dataPte: Option<nat>, codePte: Option<nat>, pd: nat, ptExec: nat, ptData: nat)
      returns (r: int, phys: Frames)
      requires pd != ptExec && pd != ptData && ptExec != ptData
      modifies this`local
      ensures r == 0 <==> dataPte.Some? && codePte.Some?
      ensures r == 0 ==> local == Local(pd, ptExec, ptData, dataPte.value, codePte.value)
      ensures r == 0 ==> HoldsFakeTables(phys, local) && phys - {pd, ptExec, ptData} == ram - {pd, ptExec, ptData}
      ensures r != 0 ==> r == -1 && phys == ram &&
                         local == if dataPte.Some? then old(local).(data := dataPte.value) else old(local)
    {
      hide FakePd, FakePtData, FakePtExec;
      var dataHpa, codeHpa, pdPage, execPage, dataPage;
      r, dataHpa, codeHpa, pdPage, execPage, dataPage := InitLocalPageTables(dataPte, codePte);
      phys := ram;
      if dataPte.Some? { local := local.(data := dataPte.value); }
      if r == 0 {
        local := Local(pd, ptExec, ptData, dataHpa, codeHpa);
        phys := ram[pd := pdPage[..]][ptExec := execPage[..]][ptData := dataPage[..]];
      }
    }

    /** The contexts are those of `vms`, not picked yet, each with the pristine view of its VM. */
    ghost predicate Serves(vms: seq<Vm>)
      requires AllWellFormed(vms)
      reads this`contexts, this`local, host, contexts
    {
      ServesOf(contexts, vms)
    }

    ghost predicate ServesOf(cs: seq<IntroCtx>, vms: seq<Vm>)
      requires AllWellFormed(vms)
      reads this`local, host, cs
    {
      |cs| == |vms| && forall k :: 0 <= k < |vms| ==> New(cs[k], vms[k])
    }

    lemma ServesOneMore(c: IntroCtx, cs: seq<IntroCtx>, vm: Vm, vms: seq<Vm>)
      requires AllWellFormed(vms) && WellFormed(vm.active) && ServesOf(cs, vms) && New(c, vm)
      ensures AllWellFormed([vm] + vms) && ServesOf([c] + cs, [vm] + vms)
    {
      hide WellFormed, New;
    }

    ghost predicate New(c: IntroCtx, vm: Vm)
      requires WellFormed(vm.active)
      reads this`local, host, c
    {
      c.host == host && c.kvm == vm.id && c.visited == 0 && c.State() == Hijacking(Pristine(vm, local), None)
    }

    /** Building a context next to the others leaves all of them as they were. */
    method NewContext(vm: Vm, ghost vms: seq<Vm>) returns (ctx: IntroCtx)
      requires Valid() && AllWellFormed(vms) && Serves(vms) && WellFormed(vm.active)
      requires host.Provides(3 * |Copied(vm.active)| + 4)
      requires forall k :: 0 <= k < |contexts| ==> contexts[k].kvm != vm.id
      modifies host
      ensures fresh(ctx) && Member(ctx) && New(ctx, vm) && host.Ready()
      ensures FamilyOf(contexts) && ServesOf(contexts, vms)
      ensures forall k :: 0 <= k < |contexts| ==> Strangers(ctx, contexts[k])
      ensures forall c :: c in contexts ==> c.State() == old(c.State())
      ensures host.session == old(host.session) && host.pBase != 0
      ensures old(host.count) <= host.count <= old(host.count) + 3 * |Copied(vm.active)| + 4
    {
      hide FrameAllocator.Ready, IntroCtx.Valid, IntroCtx.State, Copied, OwnOnly, Pristine, WellFormed;
      ctx := new IntroCtx(host, vm.id);
      label Before:
      assert forall k :: 0 <= k < |contexts| ==> Member(contexts[k]) && New(contexts[k], vms[k]);
      ctx.CreateIntrospectionContext(vm.active, local);
      Created(ctx, vm);
      forall k | 0 <= k < |contexts|
        ensures Member(contexts[k]) && contexts[k].State() == old(contexts[k].State())
        ensures contexts[k].frames !! ctx.frames
      {
        contexts[k].Kept@Before(ctx);
      }
    }

    lemma Created(ctx: IntroCtx, vm: Vm)
      requires WellFormed(vm.active) && ctx.host == host && ctx.kvm == vm.id && ctx.visited == 0
      requires forall k :: 0 <= k < |Copied(vm.active)| ==> |Copied(vm.active)[k].spt| == ENTRIES
      requires ctx.State() == Hijacking(WithLocals(GuestView(Copied(vm.active)), local), None)
      ensures New(ctx, vm)
    {
    }

    lemma SameIds(vms: seq<Vm>, id: nat)
      requires AllWellFormed(vms) && Serves(vms)
      ensures Knows(vms, id) <==> !forall k :: 0 <= k < |contexts| ==> contexts[k].kvm != id
    {
      hide WellFormed;
      assert forall k :: 0 <= k < |vms| ==> New(contexts[k], vms[k]);
    }

    /** `create_introspection_context`: nothing for the agent's own VM or one that has a context; otherwise a new
        context at the head of the list, and none of the others is touched. */
    method CreateContext(vm: Vm, ghost vms: seq<Vm>)
      requires Valid() && AllWellFormed(vms) && Serves(vms) && WellFormed(vm.active) && currentTarget == null
      requires host.Provides(3 * |Copied(vm.active)| + 4)
      modifies this`contexts, host
      ensures Valid() && AllWellFormed([vm] + vms)
      ensures Serves(if vm.own || Knows(vms, vm.id) then vms else [vm] + vms)
      ensures forall c :: c in old(contexts) ==> c in contexts && c.State() == old(c.State())
      ensures forall c :: c in contexts ==> c in old(contexts) || fresh(c)
      ensures host.session == old(host.session) && host.pBase != 0
      ensures old(host.count) <= host.count <= old(host.count) + 3 * |Copied(vm.active)| + 4
    {
      hide FamilyOf, ServesOf, IntroCtx.State, Copied, WellFormed, New, Member, Strangers, Knows;
      if vm.own { return; }
      var known := KvmToCtx(vm.id);
      SameIds(vms, vm.id);
      if known != null { return; }
      var ctx := NewContext(vm, vms);
      FamilyGrows(ctx, contexts);
      ServesOneMore(ctx, contexts, vm, vms);
      contexts := [ctx] + contexts;
    }

    /** A context for every VM on the list but the agent's own. */
    method CreateContexts(vms: seq<Vm>)
      requires Valid() && contexts == [] && currentTarget == null && AllWellFormed(vms)
      requires host.count == 0 && host.Provides(Budget(vms))
      modifies this`contexts, host
      ensures Valid() && AllWellFormed(Targets(vms)) && Serves(Targets(vms)) && fresh(set c | c in contexts)
      ensures host.pBase != 0 && host.session == old(host.session) && host.count <= Budget(vms)
    {
      hide Copied, IntroCtx.State, WellFormed, Family, New, Knows;
      var k := 0;
      assert Targets(vms[..0]) == [];
      while k < |vms|
        invariant 0 <= k <= |vms| && Valid() && AllWellFormed(Targets(vms[..k])) && Serves(Targets(vms[..k]))
        invariant fresh(set c | c in contexts)
        invariant host.pBase != 0 && host.session == old(host.session) && host.count <= Budget(vms[..k])
      {
        BudgetGrows(vms, k);
        CreateContext(vms[k], Targets(vms[..k]));
        k := k + 1;
      }
      assert vms[..k] == vms;
    }

    /** The set-up part of `kvm_imee_get_guest_context`, after the module was loaded or stopped: a chunk, the fake page
        tables, and the contexts. */
    method GetGuestContext(vms: seq<Vm>, ram: Frames, dataPte: Option<nat>, codePte: Option<nat>,
                           pd: nat, ptExec: nat, ptData: nat)
      returns (r: int, phys: Frames)
      requires contexts == [] && currentTarget == null && !trialRun && host.Valid() && host.pBase == 0
      requires GrantsDisjoint(host.grant)
      requires forall n :: 0 < n <= CALLS ==> ArrivesZeroed(host.mem, host.grant, host.calls, n)
      requires AllWellFormed(vms) && Granted(host.grant, host.calls, Budget(vms)) && Budget(vms) <= CALLS
      requires pd != ptExec && pd != ptData && ptExec != ptData
      modifies this, host
      ensures Valid() && AllWellFormed(Targets(vms)) && Serves(Targets(vms)) && currentTarget == null && !trialRun
      ensures fresh(set c | c in contexts)
      ensures host.pBase != 0 && host.session == old(host.calls) && host.count <= Budget(vms)
      ensures r == 0 <==> dataPte.Some? && codePte.Some?
      ensures r == 0 ==>
                local == Local(pd, ptExec, ptData, dataPte.value, codePte.value) && HoldsFakeTables(phys, local)
    {
      hide HoldsFakeTables, FrameAllocator.Valid, Serves, AllWellFormed, Targets, Budget, ArrivesZeroed, GrantsDisjoint;
      host.InitEptFrames();
      r, phys := InitLocals(ram, dataPte, codePte, pd, ptExec, ptData);
      CreateContexts(vms);
    }

    /** The first `n` contexts were picked, the n-th of them last. */
    ghost predicate Picked(n: nat)
      reads this`contexts, this`currentTarget, contexts
    {
      && n <= |contexts| && (forall k :: 0 <= k < |contexts| ==> (contexts[k].visited == 0 <==> n <= k))
      && currentTarget == if n == 0 then null else contexts[n - 1]
    }

    /** `get_next_ctx`: the first context not visited yet. */
    method GetNextCtx(ghost n: nat) returns (next: IntroCtx?)
      requires Family() && Picked(n)
      modifies this`currentTarget, contexts`visited
      ensures next == if n == |contexts| then null else contexts[n]
      ensures Family() && Picked(if n < |contexts| then n + 1 else n)
      ensures n == |contexts| ==> currentTarget == old(currentTarget)
      ensures forall k :: 0 <= k < |contexts| ==>
                contexts[k].State() == old(contexts[k].State()) && contexts[k].eptptr == old(contexts[k].eptptr)
    {
      hide FrameAllocator.Ready, IntroCtx.Valid, IntroCtx.State;
      var k := 0;
      while k < |contexts|
        invariant 0 <= k <= n
      {
        if contexts[k].visited == 0 {
          next := contexts[k];
          assert forall j :: 0 <= j < |contexts| && j != k ==> contexts[j] != next by {
            assert forall j :: 0 <= j < k ==> Strangers(contexts[j], next);
            assert forall j :: k < j < |contexts| ==> Strangers(next, contexts[j]);
          }
          next.visited := next.visited + 1;
          currentTarget := next;
          forall j | 0 <= j < |contexts|
            ensures Member(contexts[j]) && contexts[j].State() == old(contexts[j].State())
          {
            assert old(Member(contexts[j]));
            contexts[j].VisitOnly();
          }
          return;
        }
        k := k + 1;
      }
      next := null;
    }

    /** `start_guest_intercept`: the next context becomes the one that the vCPU runs on; a violation will be served once
        the guest core has reported its CR3.  Without a context left, or an answer, it fails. */
    method StartGuestIntercept(guestCr3: nat, answered: bool, ghost n: nat) returns (r: int)
      requires Valid() && Picked(n)
      modifies this`currentTarget, this`rootHpa, this`rbx, this`lastCr3, this`trialRun, contexts`visited
      ensures Valid() && Picked(if n < |contexts| then n + 1 else n)
      ensures r == if n < |contexts| && answered then 0 else -1
      ensures trialRun <==> old(trialRun) || r == 0
      ensures n < |contexts| ==> rootHpa == contexts[n].eptptr && rbx == 0
      ensures lastCr3 == if r == 0 then guestCr3 else 0
      ensures forall k :: 0 <= k < |contexts| ==> contexts[k].State() == old(contexts[k].State())
    {
      hide IntroCtx.State, Family;
      lastCr3 := 0;
      var next := GetNextCtx(n);
      if next == null { return -1; }
      rootHpa := next.eptptr;  // switch_intro_ctx
      rbx := 0;                // reset_general_regs
      if !answered { return -1; }
      lastCr3 := guestCr3;
      trialRun := true;
      r := 0;
    }

    /** Only the first violation after arming is served, by hijacking its page in the context that the vCPU runs on; it
        installs the fake CR3 unless a running agent asked for the switch.  No other context is touched.  Any other
        violation changes nothing and ends the run. */
    method HandleEptViolation(gpa: nat) returns (r: int)
      requires Valid()
      requires trialRun ==> gpa < GPA_LIMIT && (gpa / 0x1000 in currentTarget.View() ||
                              host.Provides(Missing(currentTarget.tables, gpa / 0x1000, 0)))
      modifies this`trialRun, this`doSwitch, this`cr3, this`rbx, contexts, host
      ensures Valid() && r == (if old(trialRun) then 1 else -1) && !trialRun
      ensures forall k :: 0 <= k < |contexts| ==> contexts[k].visited == old(contexts[k].visited)
      ensures forall c :: c in contexts && !(old(trialRun) && c == currentTarget) ==> c.State() == old(c.State())
      ensures old(trialRun) ==>
                && currentTarget.State() == Hijack(old(currentTarget.State()), gpa / 0x1000, local.code)
                && host.session == old(host.session) && old(host.count) <= host.count <= old(host.count) + 3
                && (old(host.pBase) != 0 ==> host.pBase != 0)
                && !doSwitch
                && (cr3, rbx) == if old(doSwitch) then (old(cr3), old(rbx)) else (PD_GPA, lastCr3)
      ensures !old(trialRun) ==> unchanged(this) && unchanged(host) && forall c :: c in contexts ==> unchanged(c)
    {
      hide Family, IntroCtx.Valid, IntroCtx.State, IntroCtx.View, Hijack, Missing, FrameAllocator.Provides;
      if !trialRun { return -1; }
      trialRun := false;
      RemapGpa(gpa);
      if doSwitch {
        doSwitch := false;
      } else {
        cr3 := PD_GPA;
        rbx := lastCr3;
      }
      r := 1;
    }

    /** `remap_gpa` on the current target, which `kvm_to_ctx` finds again. */
    method RemapGpa(gpa: nat)
      requires Family() && currentTarget != null && currentTarget in contexts && gpa < GPA_LIMIT
      requires gpa / 0x1000 in currentTarget.View() || host.Provides(Missing(currentTarget.tables, gpa / 0x1000, 0))
      modifies contexts, host
      ensures Family() && currentTarget.eptptr == old(currentTarget.eptptr)
      ensures forall c :: c in contexts ==> c.visited == old(c.visited)
      ensures currentTarget.State() == Hijack(old(currentTarget.State()), gpa / 0x1000, local.code)
      ensures forall c :: c in contexts && c != currentTarget ==> c.State() == old(c.State())
      ensures host.session == old(host.session) && host.count <= old(host.count) + 3
      ensures old(host.count) <= host.count && (old(host.pBase) != 0 ==> host.pBase != 0)
    {
      hide FrameAllocator.Ready, IntroCtx.Valid, IntroCtx.State, OwnOnly, Hijack, Missing, Family, Strangers;
      ghost var k := IndexOf(currentTarget);
      Members();
      var ctx := KvmToCtx(currentTarget.kvm);
      OneVmEach(ctx, k);
      ctx.RemapGpaCode(gpa, local.code);
      forall j | 0 <= j < |contexts| && j != k
        ensures Member(contexts[j]) && contexts[j].State() == old(contexts[j].State())
        ensures contexts[j].frames !! ctx.frames
      {
        contexts[j].Kept(ctx);
      }
      FamilyAgain(k);
    }

    lemma Members()
      requires Family()
      ensures host.Ready() && forall j :: 0 <= j < |contexts| ==> Member(contexts[j])
    {
    }

    /** One context took frames that no other has; all of them are still valid. */
    twostate lemma FamilyAgain(k: nat)
      requires old(Family()) && contexts == old(contexts) && k < |contexts| && host.Ready()
      requires forall j :: 0 <= j < |contexts| ==> Member(contexts[j])
      requires forall j :: 0 <= j < |contexts| && j != k ==>
                 contexts[j].frames == old(contexts[j].frames) && contexts[j].frames !! contexts[k].frames
      ensures Family()
    {
      hide Member, FrameAllocator.Ready;
      forall i, j | 0 <= i < j < |contexts|
        ensures Strangers(contexts[i], contexts[j])
      {
        assert old(Strangers(contexts[i], contexts[j]));
      }
    }

    lemma IndexOf(c: IntroCtx) returns (k: nat)
      requires Family() && c in contexts
      ensures k < |contexts| && contexts[k] == c && Member(c)
    {
      k :| k < |contexts| && contexts[k] == c;
    }

    /** The contexts are told apart by their VMs, and share no frame. */
    lemma OneVmEach(c: IntroCtx?, k: nat)
      requires Family() && k < |contexts|
      requires c == null <==> forall j :: 0 <= j < |contexts| ==> contexts[j].kvm != contexts[k].kvm
      requires c != null ==> c in contexts && c.kvm == contexts[k].kvm
      ensures c == contexts[k]
      ensures forall j :: 0 <= j < |contexts| && j != k ==> contexts[j] != c && contexts[j].frames !! c.frames
    {
      hide Member, FrameAllocator.Ready;
      forall j | 0 <= j < |contexts| && j != k
        ensures contexts[j].kvm != contexts[k].kvm && contexts[j] != contexts[k]
        ensures contexts[j].frames !! contexts[k].frames
      {
        if j < k { assert Strangers(contexts[j], contexts[k]); } else { assert Strangers(contexts[k], contexts[j]); }
      }
    }

    /** `hits` are the frames hijacked in the context so far. */
    ghost predicate Hit(c: IntroCtx, v: View, hits: seq<nat>)
      reads c, host, this`local
    {
      c.host == host && c.State() == Run(v, hits, local.code)
    }

    /** The contexts and the globals are where the schedule says. */
    ghost predicate Follows(s: Sched, views: seq<View>)
      reads this, host, contexts
    {
      && Valid() && Picked(s.picked) && trialRun == s.armed && |views| == |contexts| == |s.hits|
      && forall k :: 0 <= k < |contexts| ==> Hit(contexts[k], views[k], s.hits[k])
    }

    lemma OneMore(v: View, hits: seq<nat>, gfn: nat)
      ensures Run(v, hits + [gfn], local.code) == Hijack(Run(v, hits, local.code), gfn, local.code)
    {
      hide Hijack;
      assert (hits + [gfn])[..|hits|] == hits;
    }

    method Serve(e: Event, ghost s: Sched, ghost views: seq<View>)
      requires Follows(s, views)
      requires e.Violation? && s.armed ==> e.gpa < GPA_LIMIT && host.Provides(3)
      modifies this`currentTarget, this`rootHpa, this`rbx, this`lastCr3, this`trialRun, this`doSwitch, this`cr3
      modifies contexts, host
      ensures Follows(NextSched(s, e), views) && host.session == old(host.session)
      ensures old(host.count) <= host.count <= old(host.count) + if e.Violation? && s.armed then 3 else 0
      ensures old(host.pBase) != 0 ==> host.pBase != 0
    {
      hide IntroCtx.State, Family, Run, Hijack, Missing, IntroCtx.View;
      match e
      case Intercept(guestCr3, answered) =>
        var r := StartGuestIntercept(guestCr3, answered, s.picked);
      case Violation(gpa) =>
        if trialRun {
          ghost var last := s.picked - 1;
          currentTarget.FewerNeeded(gpa / 0x1000);
          assert Hit(contexts[last], views[last], s.hits[last]);
          OneMore(views[last], s.hits[last], gpa / 0x1000);
          forall k | 0 <= k < |contexts| && k != last
            ensures contexts[k] != currentTarget && Hit(contexts[k], views[k], s.hits[k])
          {
            DistinctContexts(k, last);
          }
        }
        var r := HandleEptViolation(gpa);
    }

    lemma DistinctContexts(j: nat, k: nat)
      requires Family() && j < |contexts| && k < |contexts| && j != k
      ensures contexts[j] != contexts[k]
    {
      hide Member, FrameAllocator.Ready;
      assert Strangers(contexts[if j < k then j else k], contexts[if j < k then k else j]);
    }

    /** Any run of intercepts and violations from set-up: three more frames per context are enough, however long it is,
        and each context ends as its own run of hijacks prescribes. */
    method Rounds(events: seq<Event>, ghost views: seq<View>)
      requires Follows(Sched(0, false, seq(|contexts|, _ => [])), views) && host.Provides(3 * |contexts|)
      requires forall e :: e in events && e.Violation? ==> e.gpa < GPA_LIMIT
      modifies this`currentTarget, this`rootHpa, this`rbx, this`lastCr3, this`trialRun, this`doSwitch, this`cr3
      modifies contexts, host
      ensures Follows(After(|contexts|, events), views)
    {
      hide Follows, FrameAllocator.Ready;
      ghost var n, served := |contexts|, 0;
      var k := 0;
      ghost var s := After(n, events[..0]);
      while k < |events|
        invariant 0 <= k <= |events| && s == After(n, events[..k]) && Follows(s, views)
        invariant host.session == old(host.session) && host.pBase != 0
        invariant old(host.count) <= host.count <= old(host.count) + 3 * served
        invariant served + (if s.armed then 1 else 0) <= s.picked <= n
      {
        AfterStep(n, events, k);
        HitOnce(n, events[..k]);
        assert events[k] in events;
        Serve(events[k], s, views);
        served := if events[k].Violation? && s.armed then served + 1 else served;
        s := NextSched(s, events[k]);
        k := k + 1;
      }
      assert events[..k] == events;
    }

    /** What the hardware maps for a context is what its run of hijacks prescribes, and the agent is confined, with its
        address space as set up, exactly unless the last hijack hit a writable local page. */
    ghost predicate Introspected(c: IntroCtx, vm: Vm, phys: Frames, hits: seq<nat>)
      requires WellFormed(vm.active)
      reads this`local, c, c.host
    {
      && HardwareView(c) == Run(Pristine(vm, local), hits, local.code).view
      && (HoldsFakeTables(phys, local) && !LocalFrame(local, local.code) && CodeIsNoTable(phys, local, hits) ==>
            && (Confined(HardwareView(c), local) <==> SparesLocals(hits))
            && (AgentSpace(HardwareView(c), phys, local) <==> SparesLocals(hits)))
    }

    lemma HardwareConfines(c: IntroCtx, vm: Vm, phys: Frames, hits: seq<nat>)
      requires Member(c) && WellFormed(vm.active) && Hit(c, Pristine(vm, local), hits)
      ensures Introspected(c, vm, phys, hits)
    {
      hide Run, WithLocals, Confined, AgentSpace, HoldsFakeTables, CodeIsNoTable, SparesLocals, GuestView;
      HardwareIsView(c);
      CopiedWellFormed(vm.active);
      if HoldsFakeTables(phys, local) && !LocalFrame(local, local.code) && CodeIsNoTable(phys, local, hits) {
        AgentIsConfined(Copied(vm.active), phys, local, hits);
      }
    }

    /** After set-up the schedule has not begun. */
    lemma NothingHit(vms: seq<Vm>)
      requires Valid() && AllWellFormed(vms) && Serves(vms) && currentTarget == null && !trialRun
      ensures Follows(Sched(0, false, seq(|contexts|, _ => [])), Views(vms, local))
    {
      hide Family, IntroCtx.State, Pristine, WellFormed;
      forall k | 0 <= k < |contexts|
        ensures Hit(contexts[k], Views(vms, local)[k], []) && contexts[k].visited == 0
      {
        assert New(contexts[k], vms[k]);
      }
    }

    /** From set-up through any run of intercepts and violations: every VM but the agent's own has a context, each was
        hijacked at most once, and `Introspected` says what the hardware maps for it. */
    method Introspect(vms: seq<Vm>, ram: Frames, dataPte: Option<nat>, codePte: Option<nat>,
                      pd: nat, ptExec: nat, ptData: nat, events: seq<Event>)
      returns (phys: Frames)
      requires contexts == [] && currentTarget == null && !trialRun && host.Valid() && host.pBase == 0
      requires GrantsDisjoint(host.grant)
      requires forall n :: 0 < n <= CALLS ==> ArrivesZeroed(host.mem, host.grant, host.calls, n)
      requires AllWellFormed(vms) && Budget(vms) + 3 * |Targets(vms)| <= CALLS
      requires Granted(host.grant, host.calls, Budget(vms) + 3 * |Targets(vms)|)
      requires pd != ptExec && pd != ptData && ptExec != ptData
      requires forall e :: e in events && e.Violation? ==> e.gpa < GPA_LIMIT
      modifies this, host
      ensures Valid() && |contexts| == |Targets(vms)| && AllWellFormed(Targets(vms))
      ensures dataPte.Some? && codePte.Some? ==>
                local == Local(pd, ptExec, ptData, dataPte.value, codePte.value) && HoldsFakeTables(phys, local)
      ensures forall k :: 0 <= k < |contexts| ==>
                var hits := After(|contexts|, events).hits[k];
                |hits| <= 1 && Introspected(contexts[k], Targets(vms)[k], phys, hits)
    {
      hide Run, HoldsFakeTables, IntroCtx.State, Targets, Budget, WellFormed, Introspected, Hit, Family, Picked, Views,
           ArrivesZeroed, GrantsDisjoint, New, FrameAllocator.Valid;
      var r;
      r, phys := GetGuestContext(vms, ram, dataPte, codePte, pd, ptExec, ptData);
      ghost var ts := Targets(vms);
      NothingHit(ts);
      Rounds(events, Views(ts, local));
      HitOnce(|contexts|, events);
      Conclude(ts, phys, After(|contexts|, events).hits);
    }

    lemma Conclude(vms: seq<Vm>, phys: Frames, hits: seq<seq<nat>>)
      requires AllWellFormed(vms) && Family() && |vms| == |contexts| == |hits|
      requires forall k :: 0 <= k < |contexts| ==> Hit(contexts[k], Views(vms, local)[k], hits[k])
      ensures forall k :: 0 <= k < |contexts| ==> Introspected(contexts[k], vms[k], phys, hits[k])
    {
      hide Introspected, Hit, Pristine, Member, Strangers, WellFormed;
      forall k | 0 <= k < |contexts|
        ensures Introspected(contexts[k], vms[k], phys, hits[k])
      {
        HardwareConfines(contexts[k], vms[k], phys, hits[k]);
      }
    }
  }
}
