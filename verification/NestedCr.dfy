/** CR0 and CR4 of a nested guest (kvm/vmx.c): what L2 reads while L0 runs it, and what L1 gets back, per
    Intel SDM Vol. 3C, section 24.6.6.

    A register is the set of its one bits, so `&`, `|`, `& ~` and `^` on words are `*`, `+`, `-` and
    `Differ`.  A guest/host mask of the hardware VMCS is kept as its complement, the bits that the guest
    owns; VMCS fields are plain fields. */
module NestedCr {
  import opened Words

  type Reg = set<nat>

  const PE: Reg := {0}
  const MP: Reg := {1}
  const TS: Reg := {3}
  const ET: Reg := {4}
  const NE: Reg := {5}
  const WP: Reg := {16}
  const NW: Reg := {29}
  const CD: Reg := {30}
  const PG: Reg := {31}
  const CR0_DEFINED: Reg := {0, 1, 2, 3, 4, 5, 16, 18, 29, 30, 31}  // ~CR0_RESERVED_BITS
  const VMXON_CR0_ALWAYSON: Reg := {0, 5, 31}

  const CR4_VME: Reg := {0}
  const CR4_PSE: Reg := {4}
  const CR4_PAE: Reg := {5}
  const CR4_PGE: Reg := {7}
  const CR4_VMXE: Reg := {13}
  const CR4_SMEP_SMAP: Reg := {20, 21}
  const KVM_CR4_GUEST_OWNED_BITS: Reg := {1, 3, 8, 9, 10}  // PVI, DE, PCE, OSFXSR, OSXMMEXCPT
  const CR4_DEFINED: Reg := {0, 1, 2, 3, 4, 5, 6, 7, 8, 9, 10, 13, 16, 17, 18, 20}  // ~CR4_RESERVED_BITS
  const CR4_OWNABLE: Reg := {1, 3, 7, 8, 9, 10}

  function Differ(a: Reg, b: Reg): Reg { (a - b) + (b - a) }

  /** Two registers agree on some bits. */
  ghost predicate Agree(a: Reg, b: Reg, bits: Reg) {
    forall k :: k in bits ==> (k in a <==> k in b)
  }

  /** L1's VMCS for L2, the control-register part. */
  datatype Vmcs12 = Vmcs12(guestCr0: Reg, cr0Mask: Reg, cr0Shadow: Reg, guestCr4: Reg, cr4Mask: Reg, cr4Shadow: Reg)

  /** The hardware rule for MOV from CR: bits the guest does not own come from the read shadow. */
  function Read(guest: Reg, owned: Reg, shadow: Reg): Reg { guest * owned + (shadow - owned) }

  function NestedReadCr0(v: Vmcs12): Reg { (v.guestCr0 - v.cr0Mask) + v.cr0Shadow * v.cr0Mask }
  function NestedReadCr4(v: Vmcs12): Reg { (v.guestCr4 - v.cr4Mask) + v.cr4Shadow * v.cr4Mask }

  /** `vmcs12_guest_cr0` and `vmcs12_guest_cr4`. */
  function GuestBack(guest: Reg, shadow: Reg, owned: Reg, guest12: Reg, mask12: Reg): Reg {
    guest * owned + guest12 * mask12 + (shadow - (mask12 + owned))
  }

  /** The C expressions of `nested_read_cr0` and of `vmcs12_guest_cr0` on 64-bit words. */
  lemma NestedReadWord(v: Vmcs12, guest: bv64, mask: bv64, shadow: bv64)
    requires v.guestCr0 == Bits(guest) && v.cr0Mask == Bits(mask) && v.cr0Shadow == Bits(shadow)
    ensures Bits(Or(AndNot(guest, mask), And(shadow, mask))) == NestedReadCr0(v)
  {
    hide Bits, Or, And, AndNot;
    WordOperations(guest, mask);
    WordOperations(shadow, mask);
    WordOperations(AndNot(guest, mask), And(shadow, mask));
  }

  lemma GuestBackWord(guest: bv64, shadow: bv64, owned: bv64, guest12: bv64, mask12: bv64)
    ensures Bits(Or(Or(And(guest, owned), And(guest12, mask12)), AndNot(shadow, Or(mask12, owned))))
         == GuestBack(Bits(guest), Bits(shadow), Bits(owned), Bits(guest12), Bits(mask12))
  {
    hide Bits, Or, And, AndNot;
    WordOperations(guest, owned);
    WordOperations(guest12, mask12);
    WordOperations(mask12, owned);
    WordOperations(shadow, Or(mask12, owned));
    WordOperations(And(guest, owned), And(guest12, mask12));
    WordOperations(Or(And(guest, owned), And(guest12, mask12)), AndNot(shadow, Or(mask12, owned)));
  }

  /** L1 gets its own bits back where it trapped them, and what L2 reads everywhere else. */
  lemma GuestBackIsView(guest: Reg, shadow: Reg, owned: Reg, guest12: Reg, mask12: Reg)
    requires owned !! mask12
    ensures GuestBack(guest, shadow, owned, guest12, mask12) == guest12 * mask12 + (Read(guest, owned, shadow) - mask12)
  {
  }

  function OwnedCr0(fpuActive: bool, mask12: Reg): Reg { if fpuActive then TS - mask12 else {} }

  function OwnedCr4(ept: bool, mask12: Reg): Reg {
    (if ept then KVM_CR4_GUEST_OWNED_BITS + CR4_PGE else KVM_CR4_GUEST_OWNED_BITS) - mask12
  }

  /** What L2 owns, bit by bit: TS while it has the FPU, the guest-owned bits of CR4, and PGE under EPT, each unless
      L1 traps it. */
  lemma OwnedBits(fpuActive: bool, ept: bool, mask0: Reg, mask4: Reg, k: nat)
    ensures k in OwnedCr0(fpuActive, mask0) <==> k == 3 && fpuActive && 3 !in mask0
    ensures k in OwnedCr4(ept, mask4) <==>
              k !in mask4 && (k == 1 || k == 3 || (k == 7 && ept) || k == 8 || k == 9 || k == 10)
  {
  }

  /** `hw_cr4` in `vmx_set_cr4`. */
  function HwCr4(val: Reg, ept: bool, paging: bool, unrestricted: bool, vm86: bool): Reg {
    var hw := val + (if vm86 then CR4_VME + CR4_PAE + CR4_VMXE else CR4_PAE + CR4_VMXE);
    var hw1 := if ept && !paging then (hw - CR4_PAE) + CR4_PSE else if ept && CR4_PAE !! val then hw - CR4_PAE else hw;
    if !unrestricted && !paging then hw1 - CR4_SMEP_SMAP else hw1
  }

  /** `hw_cr0` in `vmx_set_cr0`. */
  function HwCr0(val: Reg, ept: bool, unrestricted: bool, fpuActive: bool): Reg {
    var hw := (val - (NW + CD)) + (if unrestricted then WP + NE else WP + NE + PG + PE);
    var hw1 := if ept && WP !! val then hw - WP else hw;
    if fpuActive then hw1 else hw1 + TS + MP
  }

  /** The hardware's CR4, bit by bit: VMXE on, PAE and PSE as paging demands, everything else as in `val`. */
  lemma HwCr4Bits(val: Reg, ept: bool, paging: bool, unrestricted: bool, vm86: bool, k: nat)
    ensures k in HwCr4(val, ept, paging, unrestricted, vm86) <==>
              if k == 13 then true
              else if k == 0 then vm86 || 0 in val
              else if k == 4 then (ept && !paging) || 4 in val
              else if k == 5 then !ept || (paging && 5 in val)
              else if k == 20 || k == 21 then (unrestricted || paging) && k in val
              else k in val
  {
  }

  /** The hardware's CR0, bit by bit: caching never off, NE on, TS and MP on without the FPU, WP and the paging bits
      on where L0 must emulate them. */
  lemma HwCr0Bits(val: Reg, ept: bool, unrestricted: bool, fpuActive: bool, k: nat)
    ensures k in HwCr0(val, ept, unrestricted, fpuActive) <==>
              if k == 29 || k == 30 then false
              else if k == 5 then true
              else if k == 0 || k == 31 then !unrestricted || k in val
              else if k == 16 then !ept || 16 in val
              else if k == 1 || k == 3 then !fpuActive || k in val
              else k in val
  {
  }

  /** What the hardware must see while L2 runs: caching on, NE and VMXE set, paging on where L0 emulates its absence,
      and a trap on the first use of an FPU that is not L2's. */
  predicate HwSafe(hw0: Reg, hw4: Reg, unrestricted: bool, fpuActive: bool) {
    && 29 !in hw0 && 30 !in hw0 && 5 in hw0 && 13 in hw4
    && (unrestricted || (0 in hw0 && 31 in hw0)) && (fpuActive || (1 in hw0 && 3 in hw0))
  }

  lemma HwIsSafe(val: Reg, ept: bool, unrestricted: bool, fpuActive: bool, hw4: Reg)
    ensures HwSafe(HwCr0(val, ept, unrestricted, fpuActive), hw4, unrestricted, fpuActive) <==> 13 in hw4
  {
  }

  lemma VmxeIsOn(hw0: Reg, hw4: Reg, unrestricted: bool, fpuActive: bool)
    requires HwSafe(hw0, hw4, unrestricted, fpuActive)
    ensures 13 in hw4
  {
  }

  lemma TakenFpuIsSafe(hw0: Reg, hw4: Reg, unrestricted: bool, fpuActive: bool)
    requires HwSafe(hw0, hw4, unrestricted, fpuActive)
    ensures HwSafe(hw0 + TS + MP, hw4, unrestricted, false)
  {
  }

  lemma HwKeepsOwnable(val: Reg, ept: bool, paging: bool, unrestricted: bool, vm86: bool, fpuActive: bool)
    ensures Agree(HwCr4(val, ept, paging, unrestricted, vm86), val, CR4_OWNABLE)
    ensures Agree(HwCr0(val, ept, unrestricted, fpuActive), if fpuActive then val else TS, TS)
  {
  }

  /** Bits the guest owns are read back from the VMCS. */
  function Decached(cr: Reg, guest: Reg, owned: Reg): Reg { (cr - owned) + guest * owned }

  /** L1's values in the bits it traps, the new value elsewhere. */
  function Merged(val: Reg, guest12: Reg, mask12: Reg): Reg { (val - mask12) + guest12 * mask12 }

  /** The CR0 state while L2 runs: trapped bits show L1's shadow, and `arch.cr0` knows TS. */
  ghost predicate Cr0Ok(cr0: Reg, fpuActive: bool, shadow0: Reg, v: Vmcs12) {
    && Agree(shadow0, v.cr0Shadow, v.cr0Mask)
    && (TS <= v.cr0Mask ==> Agree(cr0, v.guestCr0, TS))
    && (TS !! v.cr0Mask && !fpuActive ==> Agree(cr0, shadow0, TS))
  }

  /** Reading TS back from the VMCS, where L2 may own it, keeps the state. */
  lemma DecachedCr0Ok(cr0: Reg, guest: Reg, fpuActive: bool, shadow0: Reg, v: Vmcs12)
    requires Cr0Ok(cr0, fpuActive, shadow0, v)
    ensures Cr0Ok(Decached(cr0, guest, OwnedCr0(fpuActive, v.cr0Mask)), fpuActive, shadow0, v)
    ensures Decached(cr0, guest, OwnedCr0(fpuActive, v.cr0Mask)) - TS == cr0 - TS
  {
    assert TS <= v.cr0Mask || TS !! v.cr0Mask;
  }

  /** The CR4 state: `arch.cr4` has L1's values where L1 traps and L2's elsewhere. */
  ghost predicate Cr4Ok(ept: bool, cr4: Reg, shadow4: Reg, v: Vmcs12) {
    && Agree(cr4, v.guestCr4, v.cr4Mask)
    && Differ(cr4, shadow4) <= v.cr4Mask + OwnedCr4(ept, v.cr4Mask)
    && CR4_VMXE <= cr4
  }

  /** L1's CR4 read shadow is what L2 reads in the bits that L1 traps. */
  ghost predicate Intact4(shadow4: Reg, v: Vmcs12) { Agree(shadow4, v.cr4Shadow, v.cr4Mask) }

  ghost function ViewCr0(guest: Reg, shadow: Reg, fpuActive: bool, v: Vmcs12): Reg {
    Read(guest, OwnedCr0(fpuActive, v.cr0Mask), shadow)
  }

  ghost function ViewCr4(guest: Reg, shadow: Reg, ept: bool, v: Vmcs12): Reg {
    Read(guest, OwnedCr4(ept, v.cr4Mask), shadow)
  }

  /** Entry: with the shadow that L1's fields imply, L2 reads what L1 set up. */
  lemma EntryCr0(guest: Reg, fpuActive: bool, v: Vmcs12)
    requires Agree(guest, if fpuActive then v.guestCr0 else TS, TS)
    ensures ViewCr0(guest, NestedReadCr0(v), fpuActive, v) == NestedReadCr0(v)
    ensures Cr0Ok(v.guestCr0, fpuActive, NestedReadCr0(v), v)
  {
  }

  lemma EntryCr4(guest: Reg, ept: bool, v: Vmcs12)
    requires Agree(guest, v.guestCr4, CR4_OWNABLE) && CR4_VMXE <= v.guestCr4
    ensures ViewCr4(guest, NestedReadCr4(v), ept, v) == NestedReadCr4(v)
    ensures Cr4Ok(ept, v.guestCr4, NestedReadCr4(v), v) && Intact4(NestedReadCr4(v), v)
  {
  }

  /** A write that the hardware lets through gives L2 the value it wrote. */
  lemma DirectWrite(val: Reg, guest: Reg, owned: Reg, shadow: Reg)
    requires Differ(val, shadow) <= owned
    ensures Read((guest - owned) + val * owned, owned, shadow) == val
  {
  }

  /** A MOV to CR0 that L1 does not want: L0 loads the merged value and shows L2 its own. */
  lemma HandledCr0(val: Reg, loaded: Reg, guest: Reg, fpuActive: bool, v: Vmcs12)
    requires Agree(val, v.cr0Shadow, v.cr0Mask) && Agree(loaded, Merged(val, v.guestCr0, v.cr0Mask), TS)
    requires Agree(guest, if fpuActive then loaded else TS, TS)
    ensures ViewCr0(guest, val, fpuActive, v) == val && Cr0Ok(loaded, fpuActive, val, v)
  {
  }

  lemma HandledCr4(val: Reg, guest: Reg, ept: bool, v: Vmcs12)
    requires Agree(val, v.cr4Shadow, v.cr4Mask)
    requires var m := Merged(val, v.guestCr4, v.cr4Mask); Agree(guest, m, CR4_OWNABLE) && CR4_VMXE <= m
    ensures ViewCr4(guest, val, ept, v) == val
    ensures Cr4Ok(ept, Merged(val, v.guestCr4, v.cr4Mask), val, v) && Intact4(val, v)
  {
  }

  /** Reloading CR4 makes `arch.cr4` the read shadow.  L2 then reads the same as before exactly if L1's shadow
      agrees with L1's CR4 on every bit that L1 traps. */
  lemma ReloadedCr4(cr4: Reg, guest: Reg, shadow: Reg, guest': Reg, ept: bool, v: Vmcs12)
    requires Cr4Ok(ept, cr4, shadow, v)
    requires var r := Decached(cr4, guest, OwnedCr4(ept, v.cr4Mask)); Agree(guest', r, CR4_OWNABLE)
    ensures var r := Decached(cr4, guest, OwnedCr4(ept, v.cr4Mask));
            && Cr4Ok(ept, r, r, v)
            && ViewCr4(guest', r, ept, v) == Merged(ViewCr4(guest, shadow, ept, v), v.guestCr4, v.cr4Mask)
            && (Intact4(shadow, v) ==>
                  (ViewCr4(guest', r, ept, v) == ViewCr4(guest, shadow, ept, v) <==>
                      Agree(v.guestCr4, v.cr4Shadow, v.cr4Mask)))
            && (Intact4(r, v) <==> Agree(v.guestCr4, v.cr4Shadow, v.cr4Mask))
  {
    var owned := OwnedCr4(ept, v.cr4Mask);
    var r := Decached(cr4, guest, owned);
    var after, before := ViewCr4(guest', r, ept, v), ViewCr4(guest, shadow, ept, v);
    forall k
      ensures k !in v.cr4Mask ==> (k in after <==> k in before)
      ensures k in v.cr4Mask ==> (k in after <==> k in v.guestCr4) && (k in before <==> k in shadow)
    {
      assert k !in Differ(cr4, shadow) || k in v.cr4Mask + owned;
    }
  }

  /** Activating the FPU hands TS to L2, unless L1 traps it, without changing what L2 reads. */
  lemma ActivatedFpu(cr0: Reg, guest: Reg, shadow: Reg, v: Vmcs12)
    requires Cr0Ok(cr0, false, shadow, v)
    ensures var g := (guest - (TS + MP)) + cr0 * (TS + MP);
            ViewCr0(g, shadow, true, v) == ViewCr0(guest, shadow, false, v) && Cr0Ok(cr0, true, shadow, v)
  {
  }

  /** What `vmx_fpu_deactivate` writes back to L1's fields: TS only. */
  function WithTs(v: Vmcs12, cr0: Reg): Vmcs12 { v.(guestCr0 := (v.guestCr0 - TS) + cr0 * TS) }

  /** Deactivating recomputes the read shadow from L1's copy of CR0, in which only TS is up to date.  What L2
      reads survives exactly if the old read shadow agreed with that copy on every bit that L1 does not trap,
      TS aside, i.e. if L2 has not changed such a bit since it was entered. */
  lemma DeactivatedFpu(cr0: Reg, guest: Reg, guest': Reg, shadow: Reg, fpuActive: bool, v: Vmcs12)
    requires Cr0Ok(cr0, fpuActive, shadow, v)
    ensures var c := Decached(cr0, guest, OwnedCr0(fpuActive, v.cr0Mask));
            var w := WithTs(v, c);
            && (ViewCr0(guest', NestedReadCr0(w), false, w) == ViewCr0(guest, shadow, fpuActive, v) <==>
                  Differ(shadow, v.guestCr0) <= v.cr0Mask + TS)
            && Cr0Ok(c, false, NestedReadCr0(w), w)
            && Agree(w.guestCr0, v.guestCr0, v.cr0Mask)
            && w == v.(guestCr0 := w.guestCr0) && w.guestCr0 - TS == v.guestCr0 - TS && (31 in c <==> 31 in cr0)
            && ViewCr0(guest', NestedReadCr0(w), false, w)
            == (v.guestCr0 - (v.cr0Mask + TS)) + ViewCr0(guest, shadow, fpuActive, v) * (v.cr0Mask + TS)
  {
    var c := Decached(cr0, guest, OwnedCr0(fpuActive, v.cr0Mask));
    var w := WithTs(v, c);
    var after, before := ViewCr0(guest', NestedReadCr0(w), false, w), ViewCr0(guest, shadow, fpuActive, v);
    assert 3 in v.cr0Mask <==> TS <= v.cr0Mask;
    assert 3 !in v.cr0Mask <==> TS !! v.cr0Mask;
    forall k
      ensures (k in after <==> k in before) <==> k !in Differ(shadow, v.guestCr0) || k in v.cr0Mask + TS
    {
    }
    if after == before {
      assert Differ(shadow, v.guestCr0) <= v.cr0Mask + TS;
    }
  }

  /** L2 sets WP, which L1 does not trap; the deactivation makes it read WP as clear again. */
  lemma DeactivationLosesWrite(guest': Reg)
    ensures var v := Vmcs12({0, 5, 31}, {}, {}, {13}, {}, {});
            var written: Reg := {0, 5, 16, 31};
            && Cr0Ok(written, true, written, v)
            && 16 in ViewCr0(written, written, true, v)
            && 16 !in ViewCr0(guest', NestedReadCr0(WithTs(v, Decached(written, written, TS))), false, v)
  {
  }

  /** L1 traps CR4 bit 7 and shadows it as clear while it is set; after a reload L2 reads it as set. */
  lemma ReloadShowsTrappedBit()
    ensures var v := Vmcs12({0, 5, 31}, {}, {}, {7, 13}, {7}, {});
            var shadow := NestedReadCr4(v);
            && Cr4Ok(true, v.guestCr4, shadow, v) && Intact4(shadow, v)
            && 7 !in ViewCr4(v.guestCr4, shadow, true, v)
            && 7 in ViewCr4(v.guestCr4, Decached(v.guestCr4, v.guestCr4, OwnedCr4(true, v.cr4Mask)), true, v)
  {
  }

  predicate NestedCr0Valid(unrestricted: bool, val: Reg) {
    (if unrestricted then VMXON_CR0_ALWAYSON - (PE + PG) else VMXON_CR0_ALWAYSON) <= val
  }

  /** What L2 does to its control registers, and what L0 does in between.  `accepted` stands for the checks of
      `kvm_set_cr0` and `kvm_set_cr4` that concern other state: CPUID, EFER, CR3 and, for CR0, CR4's PCIDE. */
  datatype Event = MovCr0(val: Reg, accepted: bool) | MovCr4(val: Reg, accepted: bool)
                 | Clts | FpuActivate | FpuDeactivate

  datatype Outcome = Done | Fault | ToL1

  /** By L1's own mask and shadow: does the event leave L2 for L1? */
  ghost predicate Intercepted(v: Vmcs12, e: Event) {
    match e
    case MovCr0(val, _) => !Agree(val, v.cr0Shadow, v.cr0Mask)
    case MovCr4(val, _) => !Agree(val, v.cr4Shadow, v.cr4Mask)
    case Clts => TS <= v.cr0Mask && TS <= v.cr0Shadow
    case _ => false
  }

  /** What L2 must read from CR0 after the event, having read `seen` before. */
  function Seen0(mask12: Reg, seen: Reg, e: Event): Reg {
    match e
    case MovCr0(val, _) => val
    case Clts => if TS <= mask12 then seen else seen - TS
    case _ => seen
  }

  function Seen4(seen: Reg, e: Event): Reg { if e.MovCr4? then e.val else seen }

  /** The values, in bits, that L0 loads for no guest: NE clear; PE or PG clear, unless L1 may and does use
      unrestricted guests; NW without CD; PG without PE; a bit of the upper half. */
  predicate BadCr0(unrestricted: bool, m: Reg) {
    || 5 !in m || (!unrestricted && (0 !in m || 31 !in m)) || (29 in m && 30 !in m) || (31 in m && 0 !in m)
    || exists k :: k in m && 32 <= k
  }

  /** VMXE clear, or a reserved bit set. */
  predicate BadCr4(m: Reg) { 13 !in m || exists k :: k in m && k !in CR4_DEFINED }

  /** L2's write cannot take effect with L1's values in the bits that L1 traps. */
  predicate MustFault(unrestricted: bool, v: Vmcs12, e: Event) {
    match e
    case MovCr0(val, accepted) => !accepted || BadCr0(unrestricted, Merged(val, v.guestCr0, v.cr0Mask))
    case MovCr4(val, accepted) => !accepted || BadCr4(Merged(val, v.guestCr4, v.cr4Mask))
    case _ => false
  }

  /** The value that `handle_set_cr0` and `kvm_set_cr0` load for L2's write. */
  function Loaded(val: Reg, v: Vmcs12): Reg { (Merged(val, v.guestCr0, v.cr0Mask) + ET) * CR0_DEFINED }

  /** The checks of `handle_set_cr0` and `kvm_set_cr0` on the value, in the order of the code, refuse exactly the bad
      values. */
  lemma RefusedIsBad(unrestricted: bool, m: Reg)
    ensures var d := (m + ET) * CR0_DEFINED;
            BadCr0(unrestricted, m) <==>
              || !NestedCr0Valid(unrestricted, m) || (exists k :: k in m + ET && 32 <= k)
              || (NW <= d && CD !! d) || (PG <= d && PE !! d)
  {
    var d := (m + ET) * CR0_DEFINED;
    assert (NW <= d && CD !! d) <==> 29 in m && 30 !in m;
    assert (PG <= d && PE !! d) <==> 31 in m && 0 !in m;
    assert (exists k :: k in m + ET && 32 <= k) <==> exists k :: k in m && 32 <= k;
  }

  // ----- the whole course of L2, from what it reads

  /** What decides the course of L2: what it reads from each register, whether it has the FPU, whether L0 has
      paging on. */
  datatype L2State = L2State(cr0: Reg, cr4: Reg, fpu: bool, paging: bool)

  /** The hardware lets the write through: it changes only bits that L2 owns. */
  predicate Direct(ept: bool, v: Vmcs12, s: L2State, e: Event) {
    match e
    case MovCr0(val, _) => Differ(val, s.cr0) <= OwnedCr0(s.fpu, v.cr0Mask)
    case MovCr4(val, _) => Differ(val, s.cr4) <= OwnedCr4(ept, v.cr4Mask)
    case _ => false
  }

  ghost function Course(ept: bool, unrestricted: bool, v: Vmcs12, s: L2State, e: Event): Outcome {
    if Direct(ept, v, s, e) then Done
    else if Intercepted(v, e) then ToL1
    else if MustFault(unrestricted, v, e) then Fault
    else Done
  }

  /** The course of a write, on single bits: by itself if it changes nothing but bits that L2 owns; else to L1 if it
      changes a bit from what L1 shows where L1 traps it; else a fault if L0 cannot load it; else it takes effect. */
  lemma CourseOfWrites(ept: bool, unrestricted: bool, v: Vmcs12, s: L2State, e: Event)
    ensures e.MovCr0? ==>
              var m := (e.val - v.cr0Mask) + v.guestCr0 * v.cr0Mask;
              Course(ept, unrestricted, v, s, e) ==
                if forall k: nat :: (k in e.val) != (k in s.cr0) ==> k == 3 && s.fpu && 3 !in v.cr0Mask then Done
                else if exists k :: k in v.cr0Mask && (k in e.val) != (k in v.cr0Shadow) then ToL1
                else if !e.accepted || 5 !in m || (!unrestricted && (0 !in m || 31 !in m)) || (29 in m && 30 !in m)
                        || (31 in m && 0 !in m) || exists k :: k in m && 32 <= k then Fault
                else Done
    ensures e.MovCr4? ==>
              var m := (e.val - v.cr4Mask) + v.guestCr4 * v.cr4Mask;
              Course(ept, unrestricted, v, s, e) ==
                if forall k: nat :: (k in e.val) != (k in s.cr4) ==>
                     k !in v.cr4Mask && (k == 1 || k == 3 || (k == 7 && ept) || k == 8 || k == 9 || k == 10) then Done
                else if exists k :: k in v.cr4Mask && (k in e.val) != (k in v.cr4Shadow) then ToL1
                else if !e.accepted || 13 !in m || exists k :: k in m && k !in CR4_DEFINED then Fault
                else Done
    ensures e == Clts ==>
              Course(ept, unrestricted, v, s, e) == if 3 in v.cr0Mask && 3 in v.cr0Shadow then ToL1 else Done
  {
    hide OwnedCr0, OwnedCr4, Differ;
    if e.MovCr0? {
      WithinOwned(e.val, s.cr0, OwnedCr0(s.fpu, v.cr0Mask));
      forall k: nat { OwnedBits(s.fpu, ept, v.cr0Mask, v.cr4Mask, k); }
    }
    if e.MovCr4? {
      WithinOwned(e.val, s.cr4, OwnedCr4(ept, v.cr4Mask));
      forall k: nat { OwnedBits(s.fpu, ept, v.cr0Mask, v.cr4Mask, k); }
    }
  }

  lemma WithinOwned(a: Reg, b: Reg, owned: Reg)
    ensures Differ(a, b) <= owned <==> forall k: nat :: (k in a) != (k in b) ==> k in owned
  {
    if Differ(a, b) <= owned {
      forall k: nat | (k in a) != (k in b)
        ensures k in owned
      {
        assert k in Differ(a, b);
      }
    }
  }

  /** L2 after an event.  A write to CR0 that L0 handles while paging is off or goes on or off gives L2 L1's CR4 in
      the bits that L1 traps; taking the FPU away gives it L1's CR0 in the bits that L1 does not trap. */
  ghost function Next(ept: bool, unrestricted: bool, v: Vmcs12, s: L2State, e: Event): L2State {
    if Course(ept, unrestricted, v, s, e) != Done then s else
    match e
    case MovCr0(val, _) =>
      if Direct(ept, v, s, e) then s.(cr0 := val) else
      var paging := 31 in Merged(val, v.guestCr0, v.cr0Mask);
      s.(cr0 := val, paging := paging,
         cr4 := if ept && !(paging && s.paging) then Merged(s.cr4, v.guestCr4, v.cr4Mask) else s.cr4)
    case MovCr4(val, _) => s.(cr4 := val)
    case Clts => s.(cr0 := if 3 in v.cr0Mask then s.cr0 else s.cr0 - TS, fpu := s.fpu || 3 in s.cr0)
    case FpuActivate => s.(fpu := true)
    case FpuDeactivate =>
      s.(cr0 := (v.guestCr0 - (v.cr0Mask + TS)) + s.cr0 * (v.cr0Mask + TS), fpu := false)
  }

  /** L2 after a run of events. */
  ghost function After(ept: bool, unrestricted: bool, v: Vmcs12, s: L2State, events: seq<Event>): L2State {
    if events == [] then s else
    var n := |events| - 1;
    Next(ept, unrestricted, v, After(ept, unrestricted, v, s, events[..n]), events[n])
  }

  lemma NoEvents(ept: bool, unrestricted: bool, v: Vmcs12, s: L2State, events: seq<Event>)
    ensures After(ept, unrestricted, v, s, events[..0]) == s
  {
  }

  lemma AfterStep(ept: bool, unrestricted: bool, v: Vmcs12, s: L2State, events: seq<Event>, k: nat)
    requires k < |events|
    ensures After(ept, unrestricted, v, s, events[..k + 1])
         == Next(ept, unrestricted, v, After(ept, unrestricted, v, s, events[..k]), events[k])
  {
    hide Next;
    assert events[..k + 1][..k] == events[..k];
  }

  /** While L2 runs, L1's fields change in TS alone, which decides nothing. */
  lemma SameForL1(ept: bool, unrestricted: bool, v: Vmcs12, w: Vmcs12, s: L2State, e: Event)
    requires w == v.(guestCr0 := w.guestCr0) && w.guestCr0 * v.cr0Mask == v.guestCr0 * v.cr0Mask
    requires w.guestCr0 - TS == v.guestCr0 - TS
    ensures Intercepted(w, e) == Intercepted(v, e) && (e.FpuDeactivate? ==> !Intercepted(v, e))
    ensures MustFault(unrestricted, w, e) == MustFault(unrestricted, v, e)
    ensures Course(ept, unrestricted, w, s, e) == Course(ept, unrestricted, v, s, e)
    ensures Next(ept, unrestricted, w, s, e) == Next(ept, unrestricted, v, s, e)
  {
    hide BadCr0, BadCr4, Agree;
    assert w.guestCr0 - (v.cr0Mask + TS) == v.guestCr0 - (v.cr0Mask + TS) by {
      assert forall k :: k !in TS ==> (k in w.guestCr0 - TS <==> k in v.guestCr0 - TS);
    }
  }

  /** Outside the bits that L2 owns it reads the read shadow, so either shows whether a write stays within them. */
  lemma DirectIsSeen(val: Reg, guest: Reg, owned: Reg, shadow: Reg)
    ensures Differ(val, Read(guest, owned, shadow)) <= owned <==> Differ(val, shadow) <= owned
  {
    var seen := Read(guest, owned, shadow);
    assert forall k :: k !in owned ==> (k in Differ(val, seen) <==> k in Differ(val, shadow));
    assert forall k :: k in Differ(val, seen) - owned ==> k in Differ(val, shadow);
    assert forall k :: k in Differ(val, shadow) - owned ==> k in Differ(val, seen);
  }

  /** A write that stays within the bits that L2 owns is not one that L1 traps. */
  lemma DirectIsOurs(val: Reg, shadow: Reg, owned: Reg, shadow12: Reg, mask12: Reg)
    requires Agree(shadow, shadow12, mask12) && Differ(val, shadow) <= owned && owned !! mask12
    ensures Agree(val, shadow12, mask12)
  {
    forall k | k in mask12
      ensures k in val <==> k in shadow
    {
      assert k !in Differ(val, shadow);
    }
  }

  /** The C test `mask & (a ^ b)`. */
  lemma AgreeTest(a: Reg, b: Reg, mask: Reg)
    ensures Agree(a, b, mask) <==> mask * Differ(a, b) == {}
    ensures Agree(a, b, mask) <==> !exists k :: k in mask && (k in a) != (k in b)
  {
    if Agree(a, b, mask) {
      assert forall k :: k in mask ==> k !in Differ(a, b);
    } else {
      var k :| k in mask && (k in a <==> k !in b);
      assert k in mask * Differ(a, b);
    }
  }

  lemma LoadedTs(val: Reg, v: Vmcs12)
    ensures Agree(Loaded(val, v), Merged(val, v.guestCr0, v.cr0Mask), TS)
  {
  }

  /** What L2 must read from CR0 after a run of events, of which the `done` ones took effect. */
  function Told0(v: Vmcs12, events: seq<Event>, done: seq<bool>): Reg
    requires |done| == |events|
  {
    if events == [] then NestedReadCr0(v) else
    var n := |events| - 1;
    var seen := Told0(v, events[..n], done[..n]);
    if done[n] then Seen0(v.cr0Mask, seen, events[n]) else seen
  }

  lemma NothingTold(v: Vmcs12, events: seq<Event>)
    ensures Untouched(v, events[..0], []) && Told0(v, events[..0], []) == NestedReadCr0(v)
    ensures Told4(v, events[..0], []) == NestedReadCr4(v)
  {
  }

  lemma ToldStep(v: Vmcs12, events: seq<Event>, done: seq<bool>, k: nat, d: bool)
    requires k == |done| < |events|
    ensures var seen := Told0(v, events[..k], done);
            Told0(v, events[..k + 1], done + [d]) == if d then Seen0(v.cr0Mask, seen, events[k]) else seen
    ensures var seen := Told4(v, events[..k], done);
            Told4(v, events[..k + 1], done + [d]) == if d then Seen4(seen, events[k]) else seen
  {
    hide Seen0, Seen4;
    assert events[..k + 1][..k] == events[..k] && (done + [d])[..k] == done;
  }

  /** So far L2 has changed no bit, TS aside, that L1 does not trap. */
  ghost predicate Undisturbed(v: Vmcs12, events: seq<Event>, done: seq<bool>)
    requires |done| == |events|
  {
    Differ(Told0(v, events, done), v.guestCr0) <= v.cr0Mask + TS
  }

  /** Every deactivation of the FPU found L2's untrapped bits as L1 had set them. */
  ghost predicate Untouched(v: Vmcs12, events: seq<Event>, done: seq<bool>)
    requires |done| == |events|
  {
    forall k :: 0 <= k < |events| && events[k] == FpuDeactivate ==> Undisturbed(v, events[..k], done[..k])
  }

  lemma UntouchedStep(v: Vmcs12, events: seq<Event>, done: seq<bool>, k: nat, d: bool)
    requires k == |done| < |events|
    ensures Untouched(v, events[..k + 1], done + [d]) <==>
              Untouched(v, events[..k], done) && (events[k] == FpuDeactivate ==> Undisturbed(v, events[..k], done))
  {
    var es, ds := events[..k + 1], done + [d];
    assert es[..k] == events[..k] && ds[..k] == done;
    assert forall j :: 0 <= j < k ==> es[..j] == events[..k][..j] && ds[..j] == done[..j];
  }

  /** What L2 reads and the read shadow differ at most in TS, so either shows whether a bit was changed. */
  lemma SeenDiffers(guest: Reg, shadow: Reg, owned: Reg, now: Reg, entry: Reg, mask: Reg)
    requires owned <= TS && now - TS == entry - TS
    ensures Differ(Read(guest, owned, shadow), entry) <= mask + TS <==> Differ(shadow, now) <= mask + TS
  {
    var seen := Read(guest, owned, shadow);
    forall k | k !in TS
      ensures (k in now <==> k in entry) && (k in seen <==> k in shadow)
    {
      assert k in now - TS <==> k in entry - TS;
    }
    assert forall k :: k in Differ(seen, entry) ==> k in Differ(shadow, now) + TS;
    assert forall k :: k in Differ(shadow, now) ==> k in Differ(seen, entry) + TS;
  }

  /** The event took effect, or is a write that L2 may not make by itself and that must fault. */
  ghost predicate Went(ept: bool, unrestricted: bool, v: Vmcs12, s: L2State, e: Event, done: bool) {
    && (Intercepted(v, e) ==> Direct(ept, v, s, e))
    && (done <==> Direct(ept, v, s, e) || !MustFault(unrestricted, v, e))
  }

  lemma CourseIs(ept: bool, unrestricted: bool, v: Vmcs12, s: L2State, e: Event)
    ensures Course(ept, unrestricted, v, s, e) == ToL1 <==> Intercepted(v, e) && !Direct(ept, v, s, e)
    ensures Course(ept, unrestricted, v, s, e) != ToL1 ==>
              Went(ept, unrestricted, v, s, e, Course(ept, unrestricted, v, s, e) == Done)
    ensures Course(ept, unrestricted, v, s, e) != Done ==> Next(ept, unrestricted, v, s, e) == s
  {
    hide Intercepted, Direct, MustFault;
  }

  /** L2 ran as far as the first event that L1 wants and that L2 may not do by itself. */
  ghost predicate Followed(ept: bool, unrestricted: bool, v: Vmcs12, s: L2State, events: seq<Event>, done: seq<bool>)
    requires |done| <= |events|
  {
    var n := |done|;
    && (forall k :: 0 <= k < n ==>
          Went(ept, unrestricted, v, After(ept, unrestricted, v, s, events[..k]), events[k], done[k]))
    && (n < |events| ==>
          Intercepted(v, events[n]) && !Direct(ept, v, After(ept, unrestricted, v, s, events[..n]), events[n]))
  }

  function Told4(v: Vmcs12, events: seq<Event>, done: seq<bool>): Reg
    requires |done| == |events|
  {
    if events == [] then NestedReadCr4(v) else
    var n := |events| - 1;
    var seen := Told4(v, events[..n], done[..n]);
    if done[n] then Seen4(seen, events[n]) else seen
  }

  lemma SameTrapped(a: Reg, b: Reg, mask: Reg)
    requires Agree(a, b, mask)
    ensures a * mask == b * mask
  {
  }

  class NestedVcpu {
    const enableEpt: bool
    const unrestricted: bool        // enable_unrestricted_guest
    const nestedUnrestricted: bool  // L1 may use it and does
    const vm86: bool
    // vcpu->arch
    var cr0: Reg
    var cr4: Reg
    var owned0: Reg
    var owned4: Reg
    var fpuActive: bool
    // the current VMCS; hwOwned is the complement of the guest/host mask
    var guestCr0: Reg
    var shadow0: Reg
    var hwOwned0: Reg
    var guestCr4: Reg
    var shadow4: Reg
    var hwOwned4: Reg
    var vmcs12: Vmcs12

    ghost predicate Running()
      reads this
    {
      && hwOwned0 == owned0 && owned0 == OwnedCr0(fpuActive, vmcs12.cr0Mask)
      && hwOwned4 == owned4 && owned4 == OwnedCr4(enableEpt, vmcs12.cr4Mask)
      && Cr0Ok(cr0, fpuActive, shadow0, vmcs12) && Cr4Ok(enableEpt, cr4, shadow4, vmcs12)
      && HwSafe(guestCr0, guestCr4, unrestricted, fpuActive)
    }

    lemma OwnsTsAtMost()
      requires Running()
      ensures hwOwned0 <= TS
    {
    }

    /** What a MOV from CR0 and from CR4 gives L2. */
    ghost function View0(): Reg
      reads this
    {
      Read(guestCr0, hwOwned0, shadow0)
    }

    ghost function View4(): Reg
      reads this
    {
      Read(guestCr4, hwOwned4, shadow4)
    }

    ghost function Seen(): L2State
      reads this
    {
      L2State(View0(), View4(), fpuActive, 31 in cr0)
    }

    /** `vmx_set_cr0` reloads CR4 for a CR0 without paging, and when paging is turned on. */
    predicate ReloadsCr4(val: Reg)
      reads this
    {
      enableEpt && (PG !! val || PG !! cr0)
    }

    /** `vmx_decache_cr4_guest_bits`, as `kvm_read_cr4` runs it. */
    method ReadCr4() returns (r: Reg)
      modifies this`cr4
      ensures r == cr4 == Decached(old(cr4), guestCr4, owned4)
    {
      cr4 := cr4 - owned4;
      cr4 := cr4 + guestCr4 * owned4;
      r := cr4;
    }

    /** `vmx_decache_cr0_guest_bits`, as `kvm_set_cr0` runs it before its checks. */
    method ReadCr0() returns (r: Reg)
      requires Running()
      modifies this`cr0
      ensures Running() && r == cr0 == Decached(old(cr0), guestCr0, owned0) && cr0 - TS == old(cr0) - TS
    {
      DecachedCr0Ok(cr0, guestCr0, fpuActive, shadow0, vmcs12);
      cr0 := cr0 - owned0;
      cr0 := cr0 + guestCr0 * owned0;
      r := cr0;
    }

    /** A refused write to CR0 may have fetched TS into `arch.cr0`, and has changed nothing else. */
    twostate predicate Refused()
      reads this
    {
      && unchanged(`cr4) && unchanged(`owned0) && unchanged(`owned4) && unchanged(`fpuActive) && unchanged(`vmcs12)
      && unchanged(`guestCr0) && unchanged(`shadow0) && unchanged(`hwOwned0)
      && unchanged(`guestCr4) && unchanged(`shadow4) && unchanged(`hwOwned4)
      && (cr0 == old(cr0) || cr0 == Decached(old(cr0), guestCr0, owned0))
    }

    /** `vmx_set_cr4` in guest mode, where VMX is allowed and on. */
    method SetCr4(val: Reg) returns (failed: bool)
      modifies this`cr4, this`guestCr4, this`shadow4
      ensures failed <==> !(CR4_VMXE <= val)
      ensures failed ==> unchanged(this)
      ensures !failed ==> cr4 == val && shadow4 == val && Agree(guestCr4, val, CR4_OWNABLE)
      ensures !failed ==> guestCr4 == HwCr4(val, enableEpt, 31 in cr0, unrestricted, vm86) && 13 in guestCr4
    {
      hide HwCr4, HwCr0;
      if !(CR4_VMXE <= val) { return true; }
      cr4 := val;
      var hw := HwCr4(val, enableEpt, PG <= cr0, unrestricted, vm86);
      HwKeepsOwnable(val, enableEpt, PG <= cr0, unrestricted, vm86, fpuActive);
      HwCr4Bits(val, enableEpt, PG <= cr0, unrestricted, vm86, 13);
      shadow4 := val;
      guestCr4 := hw;
      failed := false;
    }

    /** `vmx_set_cr0`. */
    method SetCr0(val: Reg)
      modifies this`cr0, this`guestCr0, this`shadow0, this`cr4, this`guestCr4, this`shadow4
      ensures cr0 == val && shadow0 == val && Agree(guestCr0, if fpuActive then val else TS, TS)
      ensures guestCr0 == HwCr0(val, enableEpt, unrestricted, fpuActive)
      ensures !old(ReloadsCr4(val)) ==> cr4 == old(cr4) && guestCr4 == old(guestCr4) && shadow4 == old(shadow4)
      ensures old(ReloadsCr4(val)) ==>
                && cr4 == Decached(old(cr4), old(guestCr4), owned4)
                && (CR4_VMXE <= cr4 ==>
                      && shadow4 == cr4 && Agree(guestCr4, cr4, CR4_OWNABLE) && 13 in guestCr4
                      && guestCr4 == HwCr4(cr4, enableEpt, 31 in val, unrestricted, vm86))
    {
      hide HwCr4, HwCr0;
      if ReloadsCr4(val) {
        cr0 := val;
        var r := ReadCr4();
        var failed := SetCr4(r);
      }
      HwKeepsOwnable(val, enableEpt, PG <= cr0, unrestricted, vm86, fpuActive);
      shadow0 := val;
      guestCr0 := HwCr0(val, enableEpt, unrestricted, fpuActive);
      cr0 := val;
    }

    /** The control-register part of `prepare_vmcs02`, after the checks of `nested_vmx_run`. */
    method PrepareVmcs02()
      requires owned0 == (if fpuActive then TS else {})
      requires NestedCr0Valid(nestedUnrestricted, vmcs12.guestCr0) && CR4_VMXE <= vmcs12.guestCr4
      modifies this
      ensures Running() && Intact4(shadow4, vmcs12) && vmcs12 == old(vmcs12) && fpuActive == old(fpuActive)
      ensures View0() == NestedReadCr0(vmcs12) && View4() == NestedReadCr4(vmcs12)
      ensures cr0 == vmcs12.guestCr0
    {
      hide Agree, Decached, Cr0Ok, Cr4Ok, Intact4, Read, NestedReadCr0, NestedReadCr4, OwnedCr4, HwCr0, HwCr4,
           HwSafe, Differ, NestedCr0Valid;
      owned0 := owned0 - vmcs12.cr0Mask;
      hwOwned0 := owned0;
      owned4 := OwnedCr4(enableEpt, vmcs12.cr4Mask);
      hwOwned4 := owned4;
      SetCr0(vmcs12.guestCr0);
      EntryCr0(guestCr0, fpuActive, vmcs12);
      shadow0 := NestedReadCr0(vmcs12);
      var failed := SetCr4(vmcs12.guestCr4);
      EntryCr4(guestCr4, enableEpt, vmcs12);
      HwIsSafe(vmcs12.guestCr0, enableEpt, unrestricted, fpuActive, guestCr4);
      shadow4 := NestedReadCr4(vmcs12);
    }

    /** The accepted part of `handle_set_cr0`: L1's merged value is loaded and L2 is shown its own. */
    method LoadCr0(val: Reg, c: Reg)
      requires Running() && Agree(val, vmcs12.cr0Shadow, vmcs12.cr0Mask) && c == Loaded(val, vmcs12)
      modifies this`cr0, this`guestCr0, this`shadow0, this`cr4, this`guestCr4, this`shadow4
      ensures Running() && View0() == val && cr0 == c
      ensures !old(ReloadsCr4(Loaded(val, vmcs12))) ==> View4() == old(View4()) && shadow4 == old(shadow4)
      ensures old(ReloadsCr4(Loaded(val, vmcs12))) ==>
                View4() == Merged(old(View4()), vmcs12.guestCr4, vmcs12.cr4Mask)
      ensures old(ReloadsCr4(Loaded(val, vmcs12))) && old(Intact4(shadow4, vmcs12)) ==>
                && (View4() == old(View4()) <==> Agree(vmcs12.guestCr4, vmcs12.cr4Shadow, vmcs12.cr4Mask))
                && (Intact4(shadow4, vmcs12) <==> Agree(vmcs12.guestCr4, vmcs12.cr4Shadow, vmcs12.cr4Mask))
    {
      hide Loaded, Merged, HwCr0, HwCr4, HwSafe;
      assert 13 in guestCr4 by { VmxeIsOn(guestCr0, guestCr4, unrestricted, fpuActive); }
      SetCr0(c);
      HwIsSafe(c, enableEpt, unrestricted, fpuActive, guestCr4);
      shadow0 := val;
      LoadedTs(val, vmcs12);
      HandledCr0(val, c, guestCr0, fpuActive, vmcs12);
      if old(ReloadsCr4(Loaded(val, vmcs12))) {
        ReloadedCr4(old(cr4), old(guestCr4), old(shadow4), guestCr4, enableEpt, vmcs12);
      }
    }

    /** `handle_set_cr0` for L2.  A reload of CR4 on the way turns the CR4 read shadow into `arch.cr4`. */
    method HandleSetCr0(val: Reg, accepted: bool) returns (err: bool)
      requires Running() && Agree(val, vmcs12.cr0Shadow, vmcs12.cr0Mask)
      modifies this
      ensures Running() && vmcs12 == old(vmcs12)
      ensures err <==>
                var m := (val - vmcs12.cr0Mask) + vmcs12.guestCr0 * vmcs12.cr0Mask;
                || !accepted || 5 !in m || (!nestedUnrestricted && (0 !in m || 31 !in m)) || (29 in m && 30 !in m)
                || (31 in m && 0 !in m) || exists k :: k in m && 32 <= k
      ensures err ==> Refused() && (31 in cr0 <==> 31 in old(cr0))
      ensures !err ==>
                cr0 == (((val - vmcs12.cr0Mask) + vmcs12.guestCr0 * vmcs12.cr0Mask) + {4})
                       * {0, 1, 2, 3, 4, 5, 16, 18, 29, 30, 31}
      ensures !err ==>
                fpuActive == old(fpuActive) && (31 in cr0 <==> 31 in Merged(val, vmcs12.guestCr0, vmcs12.cr0Mask))
      ensures !err && old(ReloadsCr4(Loaded(val, vmcs12))) ==>
                View4() == Merged(old(View4()), vmcs12.guestCr4, vmcs12.cr4Mask)
      ensures !err ==> View0() == val
      ensures !old(ReloadsCr4(Loaded(val, vmcs12))) ==> View4() == old(View4()) && shadow4 == old(shadow4)
      ensures !err && old(ReloadsCr4(Loaded(val, vmcs12))) && old(Intact4(shadow4, vmcs12)) ==>
                && (View4() == old(View4()) <==> Agree(vmcs12.guestCr4, vmcs12.cr4Shadow, vmcs12.cr4Mask))
                && (Intact4(shadow4, vmcs12) <==> Agree(vmcs12.guestCr4, vmcs12.cr4Shadow, vmcs12.cr4Mask))
    {
      hide Agree, Cr0Ok, Cr4Ok, Intact4, Read, Decached, OwnedCr4, OwnedCr0;
      var merged := Merged(val, vmcs12.guestCr0, vmcs12.cr0Mask);
      RefusedIsBad(nestedUnrestricted, merged);
      if !NestedCr0Valid(nestedUnrestricted, merged) { return true; }
      var before := ReadCr0();
      assert PG !! cr0 <==> PG !! old(cr0) by { assert 31 in cr0 - TS <==> 31 in old(cr0) - TS; }
      var c := merged + ET;
      if exists k :: k in c && 32 <= k { return true; }
      c := c * CR0_DEFINED;
      if NW <= c && CD !! c { return true; }
      if PG <= c && PE !! c { return true; }
      if !accepted { return true; }
      LoadCr0(val, c);
      err := false;
    }

    /** L2's MOV to CR0: direct if it changes only bits that L2 owns, otherwise for L1 if L1 traps a changed bit
        (`nested_vmx_exit_handled_cr`), otherwise for L0 (`handle_set_cr0`). */
    method L2MovCr0(val: Reg, accepted: bool) returns (o: Outcome)
      requires Running()
      modifies this
      ensures Running() && vmcs12 == old(vmcs12)
      ensures o == ToL1 <==> Intercepted(vmcs12, MovCr0(val, accepted))
      ensures o == ToL1 <==> exists k :: k in vmcs12.cr0Mask && (k in val) != (k in vmcs12.cr0Shadow)
      ensures o == Done ==> View0() == val
      ensures o == ToL1 ==> unchanged(this)
      ensures o == Fault ==> Refused()
      ensures o == Course(enableEpt, nestedUnrestricted, vmcs12, old(Seen()), MovCr0(val, accepted))
      ensures Seen() == Next(enableEpt, nestedUnrestricted, vmcs12, old(Seen()), MovCr0(val, accepted))
      ensures !old(ReloadsCr4(Loaded(val, vmcs12))) ==> View4() == old(View4()) && shadow4 == old(shadow4)
      ensures o == Done && old(Intact4(shadow4, vmcs12)) && Agree(vmcs12.guestCr4, vmcs12.cr4Shadow, vmcs12.cr4Mask) ==>
                View4() == old(View4()) && Intact4(shadow4, vmcs12)
    {
      hide Agree, Differ, Read, OwnedCr4, Cr4Ok, Intact4, Decached;
      DirectIsSeen(val, guestCr0, hwOwned0, shadow0);
      AgreeTest(val, vmcs12.cr0Shadow, vmcs12.cr0Mask);
      if Differ(val, shadow0) <= hwOwned0 {
        DirectIsOurs(val, shadow0, hwOwned0, vmcs12.cr0Shadow, vmcs12.cr0Mask);
        DirectWrite(val, guestCr0, hwOwned0, shadow0);
        guestCr0 := (guestCr0 - hwOwned0) + val * hwOwned0;
        return Done;
      }
      if vmcs12.cr0Mask * Differ(val, vmcs12.cr0Shadow) != {} { return ToL1; }
      var err := HandleSetCr0(val, accepted);
      o := if err then Fault else Done;
    }

    /** L2's MOV to CR4, along the same three ways. */
    method L2MovCr4(val: Reg, accepted: bool) returns (o: Outcome)
      requires Running()
      modifies this
      ensures Running() && vmcs12 == old(vmcs12) && View0() == old(View0()) && shadow0 == old(shadow0)
      ensures old(Intact4(shadow4, vmcs12)) ==> (o == ToL1 <==> Intercepted(vmcs12, MovCr4(val, accepted)))
      ensures o == Done ==> View4() == val && (old(Intact4(shadow4, vmcs12)) ==> Intact4(shadow4, vmcs12))
      ensures o != Done ==> View4() == old(View4()) && shadow4 == old(shadow4)
      ensures o == Course(enableEpt, nestedUnrestricted, vmcs12, old(Seen()), MovCr4(val, accepted))
      ensures Seen() == Next(enableEpt, nestedUnrestricted, vmcs12, old(Seen()), MovCr4(val, accepted))
    {
      hide Differ, Read, OwnedCr0, Cr0Ok, Cr4Ok;
      DirectIsSeen(val, guestCr4, hwOwned4, shadow4);
      AgreeTest(val, vmcs12.cr4Shadow, vmcs12.cr4Mask);
      if Differ(val, shadow4) <= hwOwned4 {
        if Intact4(shadow4, vmcs12) { DirectIsOurs(val, shadow4, hwOwned4, vmcs12.cr4Shadow, vmcs12.cr4Mask); }
        DirectWrite(val, guestCr4, hwOwned4, shadow4);
        guestCr4 := (guestCr4 - hwOwned4) + val * hwOwned4;
        return Done;
      }
      if vmcs12.cr4Mask * Differ(val, vmcs12.cr4Shadow) != {} { return ToL1; }
      o := HandleSetCr4(val, accepted);
    }

    /** `handle_set_cr4` for L2. */
    method HandleSetCr4(val: Reg, accepted: bool) returns (o: Outcome)
      requires Running() && Agree(val, vmcs12.cr4Shadow, vmcs12.cr4Mask)
      modifies this`cr4, this`guestCr4, this`shadow4
      ensures Running() && o != ToL1
      ensures o == Fault ==> View4() == old(View4()) && shadow4 == old(shadow4)
      ensures o == Fault <==>
                var m := (val - vmcs12.cr4Mask) + vmcs12.guestCr4 * vmcs12.cr4Mask;
                !accepted || 13 !in m || exists k :: k in m && k !in CR4_DEFINED
      ensures o == Done ==> View4() == val && Intact4(shadow4, vmcs12)
      ensures o == Done ==> cr4 == (val - vmcs12.cr4Mask) + vmcs12.guestCr4 * vmcs12.cr4Mask
    {
      var merged := Merged(val, vmcs12.guestCr4, vmcs12.cr4Mask);
      var oldCr4 := ReadCr4();
      if exists k :: k in merged && k !in CR4_DEFINED { return Fault; }
      if !accepted { return Fault; }
      var failed := SetCr4(merged);
      if failed { return Fault; }
      shadow4 := val;
      HandledCr4(val, guestCr4, enableEpt, vmcs12);
      o := Done;
    }

    /** `vmx_fpu_activate`, from CLTS or from a device-not-available fault. */
    method FpuActivated()
      requires Running()
      modifies this
      ensures Running() && vmcs12 == old(vmcs12) && fpuActive
      ensures View0() == old(View0()) && View4() == old(View4()) && shadow0 == old(shadow0) && shadow4 == old(shadow4)
      ensures cr0 == old(cr0)
      ensures guestCr0 == if old(fpuActive) then old(guestCr0) else (old(guestCr0) - {1, 3}) + cr0 * {1, 3}
    {
      if fpuActive { return; }
      fpuActive := true;
      ActivatedFpu(cr0, guestCr0, shadow0, vmcs12);
      var g := guestCr0 - (TS + MP);
      g := g + cr0 * (TS + MP);
      guestCr0 := g;
      owned0 := TS;
      owned0 := owned0 - vmcs12.cr0Mask;
      hwOwned0 := owned0;
    }

    /** The request handler of `vcpu_enter_guest` with `vmx_fpu_deactivate`.  What L2 reads from CR0 survives
        exactly if L2 has changed no bit, besides TS, that L1 does not trap. */
    method FpuDeactivated()
      requires Running()
      modifies this
      ensures Running() && !fpuActive && View4() == old(View4()) && shadow4 == old(shadow4)
      ensures vmcs12 == old(vmcs12).(guestCr0 := vmcs12.guestCr0) && vmcs12.guestCr0 - TS == old(vmcs12).guestCr0 - TS
      ensures Agree(vmcs12.guestCr0, old(vmcs12).guestCr0, vmcs12.cr0Mask)
      ensures View0() == old(View0()) <==> old(Differ(shadow0, vmcs12.guestCr0) <= vmcs12.cr0Mask + TS)
      ensures View0() == old((vmcs12.guestCr0 - (vmcs12.cr0Mask + TS)) + View0() * (vmcs12.cr0Mask + TS))
      ensures 31 in cr0 <==> 31 in old(cr0)
      ensures guestCr0 == old(guestCr0) + {1, 3}
    {
      hide Agree, Differ, Decached, NestedReadCr0, Read, OwnedCr4, HwSafe, WithTs;
      ghost var active := fpuActive;
      TakenFpuIsSafe(guestCr0, guestCr4, unrestricted, active);
      fpuActive := false;
      cr0 := Decached(cr0, guestCr0, owned0);
      guestCr0 := guestCr0 + TS + MP;
      DeactivatedFpu(old(cr0), old(guestCr0), guestCr0, shadow0, active, vmcs12);
      owned0 := {};
      hwOwned0 := owned0;
      vmcs12 := WithTs(vmcs12, cr0);
      shadow0 := NestedReadCr0(vmcs12);
    }

    /** L2's CLTS: in hardware if L2 owns TS, for L1 if it traps TS and shadows it as set, else `handle_clts`. */
    method L2Clts() returns (o: Outcome)
      requires Running()
      modifies this
      ensures Running() && vmcs12 == old(vmcs12) && View4() == old(View4()) && shadow4 == old(shadow4)
      ensures o != Fault && (o == ToL1 <==> Intercepted(vmcs12, Clts))
      ensures o == ToL1 <==> 3 in vmcs12.cr0Mask && 3 in vmcs12.cr0Shadow
      ensures o == ToL1 ==> View0() == old(View0())
      ensures o == Done ==> View0() == if TS <= vmcs12.cr0Mask then old(View0()) else old(View0()) - TS
      ensures o == Done ==> fpuActive == (old(fpuActive) || 3 in old(View0()))
      ensures o == ToL1 ==> unchanged(this)
      ensures 31 in cr0 <==> 31 in old(cr0)
    {
      assert TS <= vmcs12.cr0Mask <==> 3 in vmcs12.cr0Mask;
      if TS <= hwOwned0 {
        guestCr0 := guestCr0 - TS;
        return Done;
      }
      if TS !! shadow0 {
        return Done;
      }
      if TS <= vmcs12.cr0Mask && TS <= vmcs12.cr0Shadow { return ToL1; }
      shadow0 := shadow0 - TS;
      cr0 := cr0 - TS;
      FpuActivated();
      o := Done;
    }

    /** `prepare_vmcs12`: L1 gets back its own value in the bits it traps and what L2 reads in all others. */
    method PrepareVmcs12()
      requires Running()
      modifies this`vmcs12
      ensures vmcs12 == old(vmcs12).(guestCr0 := vmcs12.guestCr0, guestCr4 := vmcs12.guestCr4)
      ensures vmcs12.guestCr0 == old(vmcs12).guestCr0 * vmcs12.cr0Mask + (old(View0()) - vmcs12.cr0Mask)
      ensures vmcs12.guestCr4 == old(vmcs12).guestCr4 * vmcs12.cr4Mask + (old(View4()) - vmcs12.cr4Mask)
    {
      GuestBackIsView(guestCr0, shadow0, owned0, vmcs12.guestCr0, vmcs12.cr0Mask);
      GuestBackIsView(guestCr4, shadow4, owned4, vmcs12.guestCr4, vmcs12.cr4Mask);
      vmcs12 := vmcs12.(guestCr0 := GuestBack(guestCr0, shadow0, owned0, vmcs12.guestCr0, vmcs12.cr0Mask));
      vmcs12 := vmcs12.(guestCr4 := GuestBack(guestCr4, shadow4, owned4, vmcs12.guestCr4, vmcs12.cr4Mask));
    }

    method Step(e: Event) returns (o: Outcome)
      requires Running()
      modifies this
      ensures Running() && vmcs12 == old(vmcs12).(guestCr0 := vmcs12.guestCr0)
      ensures Agree(vmcs12.guestCr0, old(vmcs12).guestCr0, vmcs12.cr0Mask)
      ensures vmcs12.guestCr0 - TS == old(vmcs12).guestCr0 - TS
      ensures !e.MovCr4? || old(Intact4(shadow4, vmcs12)) ==> (o == ToL1 <==> Intercepted(old(vmcs12), e))
      ensures o == Course(enableEpt, nestedUnrestricted, old(vmcs12), old(Seen()), e)
      ensures Seen() == Next(enableEpt, nestedUnrestricted, old(vmcs12), old(Seen()), e)
      ensures e.FpuDeactivate? && !old(Differ(shadow0, vmcs12.guestCr0) <= vmcs12.cr0Mask + TS) ==>
                View0() != old(View0())
      ensures !e.FpuDeactivate? || old(Differ(shadow0, vmcs12.guestCr0) <= vmcs12.cr0Mask + TS) ==>
                View0() == if o == Done then Seen0(vmcs12.cr0Mask, old(View0()), e) else old(View0())
      ensures && old(Intact4(shadow4, vmcs12))
              && (old(KeepsCr4(e)) || Agree(vmcs12.guestCr4, vmcs12.cr4Shadow, vmcs12.cr4Mask)) ==>
                Intact4(shadow4, vmcs12) && View4() == if o == Done then Seen4(old(View4()), e) else old(View4())
    {
      match e
      case MovCr0(val, accepted) => o := L2MovCr0(val, accepted);
      case MovCr4(val, accepted) => o := L2MovCr4(val, accepted);
      case Clts => o := L2Clts();
      case FpuActivate => FpuActivated(); o := Done;
      case FpuDeactivate => FpuDeactivated(); o := Done;
    }

    /** The event does not make L0 reload CR4. */
    ghost predicate KeepsCr4(e: Event)
      reads this
    {
      e.MovCr0? ==> !ReloadsCr4(Loaded(e.val, vmcs12))
    }

    /** L2 runs until L1 wants an event.  `done` tells which events took effect; the others faulted.  `clean4`: L1's
        CR4 and its shadow agree on the trapped bits, or no CR0 write made L0 reload CR4. */
    method RunL2(events: seq<Event>) returns (ghost done: seq<bool>, ghost clean4: bool)
      requires Running() && Intact4(shadow4, vmcs12)
      requires View0() == NestedReadCr0(vmcs12) && View4() == NestedReadCr4(vmcs12)
      modifies this
      ensures Running() && vmcs12 == old(vmcs12).(guestCr0 := vmcs12.guestCr0)
      ensures vmcs12.guestCr0 * vmcs12.cr0Mask == old(vmcs12).guestCr0 * vmcs12.cr0Mask
      ensures |done| <= |events|
      ensures Untouched(old(vmcs12), events[..|done|], done) ==> View0() == Told0(old(vmcs12), events[..|done|], done)
      ensures clean4 ==> View4() == Told4(old(vmcs12), events[..|done|], done)
      ensures clean4 && |done| < |events| ==> Intercepted(old(vmcs12), events[|done|])
      ensures clean4 ==> forall k :: 0 <= k < |done| ==> !Intercepted(old(vmcs12), events[k])
      ensures Followed(enableEpt, nestedUnrestricted, old(vmcs12), old(Seen()), events, done)
      ensures Seen() == After(enableEpt, nestedUnrestricted, old(vmcs12), old(Seen()), events[..|done|])
      ensures !enableEpt || Agree(old(vmcs12).guestCr4, old(vmcs12).cr4Shadow, old(vmcs12).cr4Mask) ==> clean4
      ensures (forall k :: 0 <= k < |events| ==> !events[k].MovCr0?) ==> clean4
    {
      ghost var v, s := vmcs12, Seen();
      hide Agree, Differ, Cr0Ok, Cr4Ok, Intact4, Read, NestedReadCr0, NestedReadCr4, OwnedCr4, OwnedCr0, Loaded,
           Seen0, Seen4, Untouched, Running, View4, Told0, Told4, Intercepted, Course, Next, After, MustFault, Direct,
           Went;
      done, clean4 := [], true;
      NothingTold(v, events);
      NoEvents(enableEpt, nestedUnrestricted, v, s, events);
      var k := 0;
      while k < |events|
        invariant 0 <= k == |done| <= |events| && Running() && vmcs12 == v.(guestCr0 := vmcs12.guestCr0)
        invariant vmcs12.guestCr0 * v.cr0Mask == v.guestCr0 * v.cr0Mask
        invariant vmcs12.guestCr0 - TS == v.guestCr0 - TS
        invariant Untouched(v, events[..k], done) ==> View0() == Told0(v, events[..k], done)
        invariant clean4 ==> View4() == Told4(v, events[..k], done) && Intact4(shadow4, vmcs12)
        invariant clean4 ==> forall j :: 0 <= j < k ==> !Intercepted(v, events[j])
        invariant forall j :: 0 <= j < k ==>
                    Went(enableEpt, nestedUnrestricted, v, After(enableEpt, nestedUnrestricted, v, s, events[..j]),
                         events[j], done[j])
        invariant Seen() == After(enableEpt, nestedUnrestricted, v, s, events[..k])
        invariant (forall j :: 0 <= j < k ==> !events[j].MovCr0?) ==> clean4
        invariant !enableEpt || Agree(v.guestCr4, v.cr4Shadow, v.cr4Mask) ==> clean4
      {
        ghost var e, w := events[k], vmcs12;
        OwnsTsAtMost();
        SeenDiffers(guestCr0, shadow0, hwOwned0, vmcs12.guestCr0, v.guestCr0, v.cr0Mask);
        clean4 := clean4 && (KeepsCr4(e) || Agree(vmcs12.guestCr4, vmcs12.cr4Shadow, vmcs12.cr4Mask));
        ghost var before := Seen();
        var o := Step(events[k]);
        SameTrapped(vmcs12.guestCr0, w.guestCr0, v.cr0Mask);
        SameForL1(enableEpt, nestedUnrestricted, v, w, before, e);
        AfterStep(enableEpt, nestedUnrestricted, v, s, events, k);
        CourseIs(enableEpt, nestedUnrestricted, v, before, e);
        if o == ToL1 { return; }
        ToldStep(v, events, done, k, o == Done);
        UntouchedStep(v, events, done, k, o == Done);
        done := done + [o == Done];
        k := k + 1;
      }
    }

    /** From one nested entry to the next nested exit L1 gets back, in every bit that it does not trap, what L2's
        own writes made of the value at entry, and in every bit that it traps its own value. */
    method RunNested(events: seq<Event>) returns (ghost done: seq<bool>, ghost clean4: bool)
      requires owned0 == (if fpuActive then TS else {})
      requires NestedCr0Valid(nestedUnrestricted, vmcs12.guestCr0) && CR4_VMXE <= vmcs12.guestCr4
      modifies this
      ensures |done| <= |events|
      ensures var v, n := old(vmcs12), |done|;
              && (Untouched(v, events[..n], done) ==>
                    vmcs12.guestCr0 == v.guestCr0 * v.cr0Mask + (Told0(v, events[..n], done) - v.cr0Mask))
              && (clean4 ==> vmcs12.guestCr4 == v.guestCr4 * v.cr4Mask + (Told4(v, events[..n], done) - v.cr4Mask))
              && (clean4 && n < |events| ==> Intercepted(v, events[n]))
              && (clean4 ==> forall k :: 0 <= k < n ==> !Intercepted(v, events[k]))
              && var s := L2State(NestedReadCr0(v), NestedReadCr4(v), old(fpuActive), 31 in v.guestCr0);
              && var end := After(enableEpt, nestedUnrestricted, v, s, events[..n]);
              && Followed(enableEpt, nestedUnrestricted, v, s, events, done)
              && vmcs12.guestCr0 == v.guestCr0 * v.cr0Mask + (end.cr0 - v.cr0Mask)
              && vmcs12.guestCr4 == v.guestCr4 * v.cr4Mask + (end.cr4 - v.cr4Mask)
              && ((forall k :: 0 <= k < |events| ==> !events[k].MovCr0?) ==> clean4)
              && (!enableEpt || Agree(v.guestCr4, v.cr4Shadow, v.cr4Mask) ==> clean4)
    {
      hide Agree, Differ, Cr0Ok, Cr4Ok, Intact4, Read, NestedReadCr0, NestedReadCr4, OwnedCr4, OwnedCr0, Told0,
          Told4, Followed, After;
      PrepareVmcs02();
      done, clean4 := RunL2(events);
      PrepareVmcs12();
    }
  }
}
