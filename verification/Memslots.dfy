/** The guest's memory slots and their updates (kvm/kvm_main.c:444-451, 665-941).  A slot table is a value:
    the code copies it (`kmemdup`), changes the copy and publishes it, while readers keep the old one. */
module Memslots {
  import opened Wrappers

  const USER_SLOTS := 125  // KVM_USER_MEM_SLOTS
  const NUM := 128         // KVM_MEM_SLOTS_NUM
  const PAGE := 0x1000
  const ADDR_LIMIT := 0x1_0000_0000_0000_0000
  const GENERATIONS := 0x1_0000_0000_0000_0000  // the generation is an unsigned 64-bit word
  const MAX_NR_PAGES := 0x7FFF_FFFF  // KVM_MEM_MAX_NR_PAGES

  const EINVAL := 22
  const EEXIST := 17
  const ENOMEM := 12

  datatype Slot = Slot(id: nat, baseGfn: nat, npages: nat, userAddr: nat,
                       readonly: bool, logDirty: bool, invalid: bool, hasBitmap: bool)

  type Generation = g: nat | g < GENERATIONS

  function Next(g: Generation): Generation { (g + 1) % GENERATIONS }

  datatype Memslots = Memslots(slots: seq<Slot>, idToIndex: seq<nat>, generation: Generation)

  /** `kvm_userspace_memory_region`; `otherFlags`: some flag besides LOG_DIRTY_PAGES and READONLY is set,
      `accessOk`: the host range may be accessed. */
  datatype Region = Region(slot: nat, guestPhys: nat, size: nat, userAddr: nat,
                           logDirty: bool, readonly: bool, otherFlags: bool, accessOk: bool)

  /** What the rest of the kernel answers during one call.  `stop` is the index at which `kvm_for_each_memslot`
      ends: its definition is not part of this repository, and the proofs only need that it skips no slot with pages. */
  datatype Env = Env(createOk: bool, bitmapOk: bool, copyOk: bool, mmapAddr: int, iommu: int, stop: nat)

  // ----- the order of the table

  ghost predicate Ordered(s: seq<Slot>, i: int, j: int) { 0 <= i <= j < |s| ==> s[i].npages >= s[j].npages }
  ghost predicate SortedBySize(s: seq<Slot>) { forall i, j :: Ordered(s, i, j) }

  /** `id_to_index` and the slots' ids are inverse to each other. */
  ghost predicate Inverse(m: Memslots) {
    && |m.slots| == NUM && |m.idToIndex| == NUM
    && (forall i {:trigger m.slots[i]} :: 0 <= i < NUM ==> m.slots[i].id < NUM && m.idToIndex[m.slots[i].id] == i)
    && (forall id {:trigger m.idToIndex[id]} :: 0 <= id < NUM ==>
        m.idToIndex[id] < NUM && m.slots[m.idToIndex[id]].id == id)
  }

  function ById(m: Memslots, id: nat): Slot
    requires Inverse(m) && id < NUM
  {
    m.slots[m.idToIndex[id]]
  }

  ghost predicate Apart(a: Slot, b: Slot) {
    a.npages == 0 || b.npages == 0 || a.baseGfn + a.npages <= b.baseGfn || b.baseGfn + b.npages <= a.baseGfn
  }

  /** User slots with pages do not overlap. */
  ghost predicate DisjointUsers(m: Memslots)
    requires Inverse(m)
  {
    forall a, b {:trigger ById(m, a), ById(m, b)} :: 0 <= a < b < USER_SLOTS ==> Apart(ById(m, a), ById(m, b))
  }

  ghost predicate Good(m: Memslots) { Inverse(m) && SortedBySize(m.slots) && DisjointUsers(m) }

  /** `kvm_init_memslots_id` on zeroed memory; the generation starts at -150, close to its wrap. */
  function Initial(): Memslots {
    Memslots(seq(NUM, (i: nat) => Slot(i, 0, 0, 0, false, false, false, false)), seq(NUM, (i: nat) => i),
             GENERATIONS - 150)
  }

  lemma InitialIsGood()
    ensures Good(Initial())
  {
  }

  // ----- sorting

  function Insert(x: Slot, s: seq<Slot>): (r: seq<Slot>)
    ensures multiset(r) == multiset(s) + multiset{x} && |r| == |s| + 1
  {
    if s == [] then [x]
    else if x.npages >= s[0].npages then [x] + s
    else
      assert s == [s[0]] + s[1..];
      [s[0]] + Insert(x, s[1..])
  }

  lemma SortedCons(x: Slot, s: seq<Slot>)
    requires SortedBySize(s) && (s != [] ==> x.npages >= s[0].npages)
    ensures SortedBySize([x] + s)
  {
    forall i, j
      ensures Ordered([x] + s, i, j)
    {
      assert Ordered(s, 0, j - 1) && Ordered(s, i - 1, j - 1);
    }
  }

  lemma SortedTail(s: seq<Slot>)
    requires SortedBySize(s) && s != []
    ensures SortedBySize(s[1..]) && (|s| > 1 ==> s[0].npages >= s[1].npages)
  {
    forall i, j
      ensures Ordered(s[1..], i, j)
    {
      assert Ordered(s, i + 1, j + 1);
    }
    assert Ordered(s, 0, 1);
  }

  lemma {:induction false} InsertSorted(x: Slot, s: seq<Slot>)
    requires SortedBySize(s)
    ensures SortedBySize(Insert(x, s))
    ensures Insert(x, s)[0] == x || (s != [] && Insert(x, s)[0] == s[0])
  {
    if s == [] || x.npages >= s[0].npages {
      SortedCons(x, s);
    } else {
      SortedTail(s);
      InsertSorted(x, s[1..]);
      SortedCons(s[0], Insert(x, s[1..]));
    }
  }

  /** The kernel's `sort` with `cmp_memslot`: some permutation with the larger slots first. */
  method Sort(s: seq<Slot>) returns (r: seq<Slot>)
    ensures SortedBySize(r) && multiset(r) == multiset(s) && |r| == |s|
  {
    r := [];
    var k := 0;
    while k < |s|
      invariant 0 <= k <= |s| && SortedBySize(r) && multiset(r) == multiset(s[..k]) && |r| == k
    {
      InsertSorted(s[k], r);
      r := Insert(s[k], r);
      assert s[..k + 1] == s[..k] + [s[k]];
      k := k + 1;
    }
    assert s[..k] == s;
  }

  // ----- replacing one slot

  ghost predicate DistinctIds(s: seq<Slot>) { forall i, j :: 0 <= i < j < |s| ==> s[i].id != s[j].id }

  lemma MultiplicityTwo(s: seq<Slot>, i: nat, j: nat)
    requires i < j < |s| && s[i] == s[j]
    ensures multiset(s)[s[i]] >= 2
  {
    assert s == s[..j] + s[j..];
    assert s[i] in s[..j] && s[j] in s[j..];
    assert s[..j][i] == s[i] && s[j..][0] == s[j];
  }

  lemma {:induction false} MultiplicityOne(s: seq<Slot>, k: nat)
    requires DistinctIds(s) && k < |s|
    ensures multiset(s)[s[k]] == 1
  {
    var n := |s| - 1;
    assert s == s[..n] + [s[n]];
    if k < n {
      MultiplicityOne(s[..n], k);
    } else {
      assert s[n] !in s[..n];
      assert multiset(s[..n])[s[n]] == 0;
    }
  }

  /** A permutation of a table with distinct ids has the same slots under the same ids. */
  lemma PermutedIds(s: seq<Slot>, r: seq<Slot>)
    requires multiset(s) == multiset(r) && DistinctIds(s)
    ensures DistinctIds(r)
    ensures forall i :: 0 <= i < |r| ==> r[i] in s
    ensures forall i :: 0 <= i < |s| ==> s[i] in r
  {
    forall i | 0 <= i < |r|
      ensures r[i] in s
    {
      assert r[i] in multiset(r);
    }
    forall i | 0 <= i < |s|
      ensures s[i] in r
    {
      assert s[i] in multiset(s);
    }
    forall i, j | 0 <= i < j < |r|
      ensures r[i].id != r[j].id
    {
      var a :| 0 <= a < |s| && s[a] == r[i];
      var b :| 0 <= b < |s| && s[b] == r[j];
      if r[i].id == r[j].id {
        assert a == b;
        MultiplicityTwo(r, i, j);
        MultiplicityOne(s, a);
        assert false;
      }
    }
  }

  /** `update_memslots`: the slot with the new one's id is replaced, every other slot keeps its contents, and the
      table is sorted again if the size changed. */
  method UpdateMemslots(m: Memslots, new_: Slot) returns (r: Memslots)
    requires Inverse(m) && SortedBySize(m.slots) && new_.id < NUM
    ensures Inverse(r) && SortedBySize(r.slots) && r.generation == m.generation
    ensures forall id :: 0 <= id < NUM ==> ById(r, id) == if id == new_.id then new_ else ById(m, id)
  {
    var k := m.idToIndex[new_.id];
    var npages := m.slots[k].npages;
    r := m.(slots := m.slots[k := new_]);
    if new_.npages != npages {
      r := SortMemslots(r);
    } else {
      forall i, j
        ensures Ordered(r.slots, i, j)
      {
        assert Ordered(m.slots, i, j);
      }
    }
  }

  /** `sort_memslots`. */
  method SortMemslots(m: Memslots) returns (r: Memslots)
    requires Inverse(m)
    ensures Inverse(r) && SortedBySize(r.slots) && r.generation == m.generation
    ensures forall id :: 0 <= id < NUM ==> ById(r, id) == ById(m, id)
  {
    var slots := Sort(m.slots);
    var index: seq<nat> := m.idToIndex;
    PermutedIds(m.slots, slots);
    var i: nat := 0;
    while i < NUM
      invariant 0 <= i <= NUM && |index| == NUM
      invariant forall j :: 0 <= j < i ==> slots[j].id < NUM && index[slots[j].id] == j
    {
      assert slots[i] in m.slots;
      index := index[slots[i].id := i];
      i := i + 1;
    }
    r := Memslots(slots, index, m.generation);
    forall id | 0 <= id < NUM
      ensures index[id] < NUM && slots[index[id]] == m.slots[m.idToIndex[id]]
    {
      var s := m.slots[m.idToIndex[id]];
      assert s.id == id && s in slots;
      var j :| 0 <= j < NUM && slots[j] == s;
    }
  }

  // ----- the overlap check

  /** The part of the table that the loop visits leaves out no slot with pages. */
  predicate VisitsAll(m: Memslots, stop: nat) {
    stop <= |m.slots| && forall i :: stop <= i < |m.slots| ==> m.slots[i].npages == 0
  }

  /** `slot` lets the range pass. */
  predicate Passes(slot: Slot, id: nat, base: nat, npages: nat) {
    slot.id >= USER_SLOTS || slot.id == id || base + npages <= slot.baseGfn || base >= slot.baseGfn + slot.npages
  }

  method CheckOverlaps(m: Memslots, stop: nat, id: nat, base: nat, npages: nat) returns (ok: bool)
    requires stop <= |m.slots|
    ensures ok <==> forall i :: 0 <= i < stop ==> Passes(m.slots[i], id, base, npages)
  {
    var i := 0;
    while i < stop
      invariant 0 <= i <= stop && forall j :: 0 <= j < i ==> Passes(m.slots[j], id, base, npages)
    {
      if !Passes(m.slots[i], id, base, npages) { return false; }
      i := i + 1;
    }
    ok := true;
  }

  /** What the loop refuses, on the slots' fields. */
  lemma RefusedRange(m: Memslots, stop: nat, id: nat, base: nat, npages: nat)
    requires stop <= |m.slots|
    ensures (forall i :: 0 <= i < stop ==> Passes(m.slots[i], id, base, npages)) <==>
              !exists i :: 0 <= i < stop
                 && (var s := m.slots[i];
                     s.id < 125 && s.id != id && base < s.baseGfn + s.npages && s.baseGfn < base + npages)
  {
    forall i | 0 <= i < stop
      ensures var s := m.slots[i];
              Passes(s, id, base, npages) <==>
                !(s.id < 125 && s.id != id && base < s.baseGfn + s.npages && s.baseGfn < base + npages)
    {
    }
  }

  ghost predicate Free(m: Memslots, id: nat, base: nat, npages: nat)
    requires Inverse(m)
  {
    forall k :: 0 <= k < USER_SLOTS && k != id ==>
      ById(m, k).npages == 0 || base + npages <= ById(m, k).baseGfn || ById(m, k).baseGfn + ById(m, k).npages <= base
  }

  /** An empty user slot, not the named one, whose old base lies strictly inside the range. */
  predicate StaleBase(slot: Slot, id: nat, base: nat, npages: nat) {
    slot.id < USER_SLOTS && slot.id != id && slot.npages == 0 && base < slot.baseGfn < base + npages
  }

  /** The loop accepts a range exactly if it is free and no visited slot without pages has a stale base in it. */
  lemma AcceptedIsFree(m: Memslots, stop: nat, id: nat, base: nat, npages: nat)
    requires Good(m) && VisitsAll(m, stop) && npages > 0
    ensures (forall i :: 0 <= i < stop ==> Passes(m.slots[i], id, base, npages)) <==>
              Free(m, id, base, npages) && forall i :: 0 <= i < stop ==> !StaleBase(m.slots[i], id, base, npages)
    ensures (exists i :: 0 <= i < stop
               && (var s := m.slots[i];
                   s.id < 125 && s.id != id && base < s.baseGfn + s.npages && s.baseGfn < base + npages)) <==>
              !Free(m, id, base, npages) || exists i :: 0 <= i < stop && StaleBase(m.slots[i], id, base, npages)
  {
    RefusedRange(m, stop, id, base, npages);
    if forall i :: 0 <= i < stop ==> Passes(m.slots[i], id, base, npages) {
      forall k | 0 <= k < USER_SLOTS && k != id && ById(m, k).npages != 0
        ensures base + npages <= ById(m, k).baseGfn || ById(m, k).baseGfn + ById(m, k).npages <= base
      {
        assert m.idToIndex[k] < stop;
        assert Passes(m.slots[m.idToIndex[k]], id, base, npages);
      }
    }
    if Free(m, id, base, npages) && forall i :: 0 <= i < stop ==> !StaleBase(m.slots[i], id, base, npages) {
      forall i | 0 <= i < stop
        ensures Passes(m.slots[i], id, base, npages)
      {
        assert ById(m, m.slots[i].id) == m.slots[i] && !StaleBase(m.slots[i], id, base, npages);
      }
    }
  }

  /** Such a loop can always stop at the first empty slot, because the table is sorted by size. */
  lemma SizesAllowStop(m: Memslots) returns (stop: nat)
    requires Good(m)
    ensures VisitsAll(m, stop) && forall i :: 0 <= i < stop ==> m.slots[i].npages > 0
  {
    stop := 0;
    while stop < NUM && m.slots[stop].npages > 0
      invariant stop <= NUM && forall i :: 0 <= i < stop ==> m.slots[i].npages > 0
    {
      stop := stop + 1;
    }
    forall i | stop <= i < NUM
      ensures m.slots[i].npages == 0
    {
      assert Ordered(m.slots, stop, i);
    }
  }

  /** A table without any pages in which slot 7 was deleted at base 5: a loop over the whole table refuses frames 4 and
      5 for slot 0, although they are free. */
  lemma DeletedSlotBlocks()
    ensures var m := Initial().(slots := Initial().slots[7 := Initial().slots[7].(baseGfn := 5)]);
            && Good(m) && VisitsAll(m, NUM) && Free(m, 0, 4, 2)
            && !forall i :: 0 <= i < NUM ==> Passes(m.slots[i], 0, 4, 2)
  {
    var m := Initial().(slots := Initial().slots[7 := Initial().slots[7].(baseGfn := 5)]);
    assert !Passes(m.slots[7], 0, 4, 2);
  }

  lemma FlaggedIs(m: Memslots, n: Memslots, id: nat)
    requires Inverse(m) && n == m.(generation := n.generation) && id < NUM
    ensures Inverse(n) && ById(n, id) == ById(m, id)
  {
  }

  // ----- publishing

  /** One step of the published table: a new table under the next odd generation, or the same table settling. */
  ghost predicate Published(a: Memslots, b: Memslots) {
    b.generation == Next(a.generation) && (a.generation % 2 == 1 ==> b == a.(generation := b.generation))
  }

  ghost predicate History(h: seq<Memslots>) {
    h != [] && forall i :: 0 < i < |h| ==> Published(h[i - 1], h[i])
  }

  /** Along a history the generation counts the publications, modulo 2^64; so two tables have the same generation
      exactly if a multiple of 2^64 publications lies between them. */
  lemma {:induction false} GenerationsCount(h: seq<Memslots>, i: nat, j: nat)
    requires History(h) && i <= j < |h|
    ensures h[j].generation == (h[i].generation + (j - i)) % GENERATIONS
    ensures h[i].generation == h[j].generation <==> (j - i) % GENERATIONS == 0
    decreases j
  {
    if i < j {
      assert Published(h[j - 1], h[j]);
      GenerationsCount(h, i, j - 1);
      CountOn(h[i].generation, j - 1 - i);
    }
    SameCount(h[i].generation, j - i);
  }

  lemma CountOn(g: Generation, n: nat)
    ensures Next((g + n) % GENERATIONS) == (g + (n + 1)) % GENERATIONS
  {
  }

  lemma SameCount(g: Generation, n: nat)
    ensures g == (g + n) % GENERATIONS <==> n % GENERATIONS == 0
  {
  }

  datatype Change = Create | Delete | Move | FlagsOnly
  datatype Verdict = Refuse | Nothing | Apply(change: Change)

  /** The sanity checks on a request. */
  predicate WellFormed(mem: Region) {
    && !mem.otherFlags && mem.size % PAGE == 0 && mem.guestPhys % PAGE == 0
    && (mem.slot < USER_SLOTS ==> mem.userAddr % PAGE == 0 && mem.accessOk)
    && mem.slot < NUM && mem.guestPhys + mem.size < ADDR_LIMIT && mem.size / PAGE <= MAX_NR_PAGES
  }

  /** What a request asks of the slot it names. */
  function Classify(prev: Slot, mem: Region): Verdict {
    var baseGfn, npages, logDirty := mem.guestPhys / PAGE, mem.size / PAGE, mem.logDirty && mem.size / PAGE > 0;
    if npages == 0 then
      if prev.npages == 0 then Refuse else Apply(Delete)
    else if prev.npages == 0 then Apply(Create)
    else if mem.userAddr != prev.userAddr || npages != prev.npages || mem.readonly != prev.readonly then Refuse
    else if baseGfn != prev.baseGfn then Apply(Move)
    else if logDirty != prev.logDirty || prev.invalid then Apply(FlagsOnly)
    else Nothing
  }

  /** The slot that a request leaves under its id. */
  function Requested(prev: Slot, mem: Region, env: Env): Slot {
    var npages := mem.size / PAGE;
    var log := mem.logDirty && npages > 0;
    var addr := if npages == 0 || prev.npages > 0 then prev.userAddr
                else if mem.slot >= USER_SLOTS && env.mmapAddr >= 0 then env.mmapAddr else mem.userAddr;
    Slot(mem.slot, mem.guestPhys / PAGE, npages, addr, mem.readonly, log, false, log)
  }

  ghost predicate Committed(m: Memslots, m': Memslots, mem: Region, env: Env) {
    && Inverse(m) && Inverse(m') && mem.slot < NUM
    && ById(m', mem.slot) == Requested(ById(m, mem.slot), mem, env)
    && forall id :: 0 <= id < NUM && id != mem.slot ==> ById(m', id) == ById(m, id)
  }

  /** Every allocation succeeds. */
  predicate Cooperates(env: Env) { env.createOk && env.bitmapOk && env.copyOk && env.mmapAddr >= 0 }

  /** The change places pages at a new range. */
  predicate Places(v: Verdict) { v == Apply(Create) || v == Apply(Move) }

  /** Every committed request keeps the user slots disjoint: a placed range is free, any other change keeps the
      range or empties it. */
  lemma CommitKeepsDisjoint(m: Memslots, m': Memslots, mem: Region, env: Env)
    requires Good(m) && Committed(m, m', mem, env) && Classify(ById(m, mem.slot), mem).Apply?
    requires Places(Classify(ById(m, mem.slot), mem)) && mem.slot < USER_SLOTS ==>
               Free(m, mem.slot, mem.guestPhys / PAGE, mem.size / PAGE)
    ensures DisjointUsers(m')
  {
    var v := Classify(ById(m, mem.slot), mem);
    forall a, b | 0 <= a < b < USER_SLOTS
      ensures Apart(ById(m', a), ById(m', b))
    {
      assert Apart(ById(m, a), ById(m, b));
      assert ById(m', a) == if a == mem.slot then Requested(ById(m, a), mem, env) else ById(m, a);
      assert ById(m', b) == if b == mem.slot then Requested(ById(m, b), mem, env) else ById(m, b);
    }
  }

  class Kvm {
    var memslots: Memslots
    ghost var history: seq<Memslots>

    ghost predicate Valid()
      reads this
    {
      && Good(memslots) && memslots.generation % 2 == 0
      && History(history) && history[|history| - 1] == memslots
    }

    constructor ()
      ensures Valid() && memslots == Initial() && history == [Initial()]
      ensures memslots.generation == 0x1_0000_0000_0000_0000 - 150
      ensures forall id :: 0 <= id < 128 ==> ById(memslots, id) == Slot(id, 0, 0, 0, false, false, false, false)
    {
      memslots := Initial();
      history := [Initial()];
      InitialIsGood();
    }

    method Publish(m: Memslots)
      modifies this
      ensures memslots == m && history == old(history) + [m]
    {
      memslots := m;
      history := history + [m];
    }

    /** `install_new_memslots`: the table goes out under an odd generation, which rises again once no reader uses the
        old table. */
    method InstallNewMemslots(slots: Memslots, new_: Option<Slot>)
      requires History(history) && history[|history| - 1] == memslots && memslots.generation % 2 == 0
      requires Inverse(slots) && SortedBySize(slots.slots) && (new_.Some? ==> new_.value.id < NUM)
      modifies this
      ensures Inverse(memslots) && SortedBySize(memslots.slots)
      ensures forall id :: 0 <= id < NUM ==>
                ById(memslots, id) == if new_.Some? && id == new_.value.id then new_.value else ById(slots, id)
      ensures memslots.generation % 2 == 0
      ensures History(history) && history[|history| - 1] == memslots
      ensures history == old(history) + [memslots.(generation := Next(old(memslots).generation)), memslots]
    {
      var m := slots.(generation := Next(memslots.generation));
      assert forall id :: 0 <= id < NUM ==> ById(m, id) == ById(slots, id);
      if new_.Some? {
        m := UpdateMemslots(m, new_.value);
      }
      Publish(m);
      Publish(m.(generation := Next(m.generation)));
      assert forall id :: 0 <= id < NUM ==> ById(memslots, id) == ById(m, id);
    }

    /** The first half of a delete or move: the slot goes out flagged INVALID, everything else as it was. */
    method Invalidate(id: nat)
      requires Valid() && id < NUM
      modifies this
      ensures Inverse(memslots) && memslots.generation % 2 == 0
      ensures History(history) && history[|history| - 1] == memslots
      ensures history == old(history) + [memslots.(generation := Next(old(memslots).generation)), memslots]
      ensures ById(memslots, id) == ById(old(memslots), id).(invalid := true)
      ensures forall k :: 0 <= k < NUM && k != id ==> ById(memslots, k) == ById(old(memslots), k)
    {
      var m := memslots;
      var i := m.idToIndex[id];
      var flagged := m.(slots := m.slots[i := m.slots[i].(invalid := true)]);
      forall i, j
        ensures Ordered(flagged.slots, i, j)
      {
        assert Ordered(m.slots, i, j);
      }
      InstallNewMemslots(flagged, None);
    }

    /** The second half: `slots`, the table before the call, goes out with `new_` in it. */
    method Replace(slots: Memslots, new_: Slot, mem: Region, env: Env)
      requires History(history) && history[|history| - 1] == memslots && memslots.generation % 2 == 0
      requires Good(slots) && mem.slot < NUM && new_ == Requested(ById(slots, mem.slot), mem, env)
      requires Classify(ById(slots, mem.slot), mem).Apply?
      requires Places(Classify(ById(slots, mem.slot), mem)) && mem.slot < USER_SLOTS ==>
                 Free(slots, mem.slot, mem.guestPhys / PAGE, mem.size / PAGE)
      modifies this
      ensures Valid() && Committed(slots, memslots, mem, env)
      ensures old(history) < history && |history| == |old(history)| + 2
    {
      hide SortedBySize;
      InstallNewMemslots(slots, Some(new_));
      CommitKeepsDisjoint(slots, memslots, mem, env);
    }

    /** The last part of `__kvm_set_memory_region`: invalidate, prepare, replace. */
    method CommitChange(mem: Region, env: Env, change: Change, slot: Slot) returns (r: int, ghost committed: bool)
      requires Valid() && mem.slot < NUM && Classify(ById(memslots, mem.slot), mem) == Apply(change)
      requires Places(Apply(change)) && mem.slot < USER_SLOTS ==>
                 Free(memslots, mem.slot, mem.guestPhys / PAGE, mem.size / PAGE)
      requires var wanted := Requested(ById(memslots, mem.slot), mem, env);
               && slot.(userAddr := wanted.userAddr) == wanted
               && (mem.slot < USER_SLOTS || change != Create ==> slot == wanted)
      modifies this
      ensures Valid() && old(history) <= history
      ensures !committed ==> unchanged(this)
      ensures committed ==>
                && Committed(old(memslots), memslots, mem, env)
                && |history| == |old(history)| + if change == Delete || change == Move then 4 else 2
      ensures committed && (change == Delete || change == Move) ==>
                var flagged := history[|old(history)|];
                Inverse(flagged) && ById(flagged, mem.slot) == ById(old(memslots), mem.slot).(invalid := true)
      ensures var noAddress := mem.slot >= USER_SLOTS && change == Create && env.mmapAddr < 0;
              && (committed <==> !noAddress && env.copyOk)
              && r == if noAddress then env.mmapAddr
                      else if !env.copyOk then -ENOMEM
                      else if change == Create || change == Move then env.iommu else 0
    {
      hide Inverse, SortedBySize, History, DisjointUsers, Free;
      var new_ := slot;
      var slots := memslots;
      if change == Delete || change == Move {
        if !env.copyOk { return -ENOMEM, false; }
        Invalidate(mem.slot);
        FlaggedIs(memslots, history[|old(history)|], mem.slot);
      }

      // kvm_arch_prepare_memory_region
      if mem.slot >= USER_SLOTS && change == Create {
        if env.mmapAddr < 0 { return env.mmapAddr, false; }
        new_ := new_.(userAddr := env.mmapAddr);
      }
      if (change == Create || change == FlagsOnly) && !env.copyOk { return -ENOMEM, false; }
      if change == Delete {
        new_ := new_.(hasBitmap := false);
      }
      Replace(slots, new_, mem, env);
      r, committed := if change == Create || change == Move then env.iommu else 0, true;
    }

    /** `__kvm_set_memory_region`, with the exact result for every request and every failure.  A request that is
        refused, or that asks for nothing new, changes nothing.  A committed one changes only the slot named, exactly
        as requested, after two publications, or four where the old slot goes out flagged INVALID first.  Pages are
        placed only where no visited user slot's pages, or stale base, meet the range. */
    method SetMemoryRegion(mem: Region, env: Env) returns (r: int, ghost committed: bool)
      requires Valid() && VisitsAll(memslots, env.stop) && mem.guestPhys < ADDR_LIMIT && mem.size < ADDR_LIMIT
      modifies this
      ensures Valid() && old(history) <= history
      ensures !committed ==> unchanged(this)
      ensures WellFormed(mem) <==>
                && !mem.otherFlags && mem.size % 0x1000 == 0 && mem.guestPhys % 0x1000 == 0
                && (mem.slot < 125 ==> mem.userAddr % 0x1000 == 0 && mem.accessOk) && mem.slot < 128
                && mem.guestPhys + mem.size < 0x1_0000_0000_0000_0000 && mem.size / 0x1000 <= 0x7FFF_FFFF
      ensures !WellFormed(mem) ==> r == -22 && !committed
      ensures WellFormed(mem) ==>
                var p, base, n := ById(old(memslots), mem.slot), mem.guestPhys / 0x1000, mem.size / 0x1000;
                var create, delete := n > 0 && p.npages == 0, n == 0;
                var move, log := n > 0 && p.npages > 0 && base != p.baseGfn, n > 0 && mem.logDirty;
                if (delete && p.npages == 0)
                   || (n > 0 && p.npages > 0
                       && (mem.userAddr != p.userAddr || n != p.npages || mem.readonly != p.readonly)) then
                  r == -22 && !committed
                else if n > 0 && p.npages > 0 && base == p.baseGfn && log == p.logDirty && !p.invalid then
                  r == 0 && !committed
                else if (create || move)
                        && exists i :: 0 <= i < env.stop
                             && (var s := old(memslots).slots[i];
                                 && s.id < 125 && s.id != mem.slot
                                 && base < s.baseGfn + s.npages && s.baseGfn < base + n) then
                  r == -17 && !committed
                else if (create && !env.createOk) || (log && !p.hasBitmap && !env.bitmapOk) then
                  r == -12 && !committed
                else if create && mem.slot >= 125 && env.mmapAddr < 0 then
                  r == env.mmapAddr && !committed
                else if !env.copyOk then
                  r == -12 && !committed
                else
                  && committed && r == if create || move then env.iommu else 0
      ensures committed ==>
                && WellFormed(mem) && Classify(ById(old(memslots), mem.slot), mem).Apply?
                && Committed(old(memslots), memslots, mem, env)
      ensures committed ==>
                && mem.slot < NUM
                && var p, q, n := ById(old(memslots), mem.slot), ById(memslots, mem.slot), mem.size / 0x1000;
                && q.id == mem.slot && q.baseGfn == mem.guestPhys / 0x1000 && q.npages == n
                && q.userAddr == (if n == 0 || p.npages > 0 then p.userAddr
                                  else if mem.slot >= 125 then env.mmapAddr else mem.userAddr)
                && q.readonly == mem.readonly && !q.invalid && q.logDirty == q.hasBitmap == (n > 0 && mem.logDirty)
                && (forall id :: 0 <= id < NUM && id != mem.slot ==> ById(memslots, id) == ById(old(memslots), id))
                && var hidden := n == 0 || (p.npages > 0 && mem.guestPhys / 0x1000 != p.baseGfn);
                && |history| == |old(history)| + (if hidden then 4 else 2)
                && (hidden ==>
                      var flagged := history[|old(history)|];
                      Inverse(flagged) && ById(flagged, mem.slot) == p.(invalid := true))
    {
      hide Inverse, SortedBySize, History, DisjointUsers, Passes, Free, StaleBase;
      committed := false;
      if !WellFormed(mem) { return -EINVAL, false; }

      var prev := ById(memslots, mem.slot);
      var verdict := Classify(prev, mem);
      if verdict == Refuse { return -EINVAL, false; }
      if verdict == Nothing { return 0, false; }
      var change := verdict.change;
      var baseGfn, npages := mem.guestPhys / PAGE, mem.size / PAGE;
      var new_ := prev.(id := mem.slot, baseGfn := baseGfn, npages := npages,
                        logDirty := mem.logDirty && npages != 0, readonly := mem.readonly, invalid := false);

      if change == Create || change == Move {
        var ok := CheckOverlaps(memslots, env.stop, mem.slot, baseGfn, npages);
        AcceptedIsFree(memslots, env.stop, mem.slot, baseGfn, npages);
        if !ok { return -EEXIST, false; }
      }
      if !new_.logDirty {
        new_ := new_.(hasBitmap := false);
      }
      if change == Create {
        new_ := new_.(userAddr := mem.userAddr);
        if !env.createOk { return -ENOMEM, false; }
      }
      if new_.logDirty && !new_.hasBitmap {
        if !env.bitmapOk { return -ENOMEM, false; }
        new_ := new_.(hasBitmap := true);
      }

      r, committed := CommitChange(mem, env, change, new_);
    }

    /** Any run of requests, whatever each of them meets, keeps the table good and its generation even; the tables
        that readers saw on the way form one history, and the generation counts them modulo 2^64. */
    method Run(requests: seq<(Region, Env)>)
      requires Valid()
      modifies this
      ensures Good(memslots) && memslots.generation % 2 == 0 && Valid() && old(history) <= history
      ensures memslots.generation == (old(memslots).generation + (|history| - |old(history)|)) % GENERATIONS
    {
      assert history != [];
      hide Good, History;
      var k := 0;
      while k < |requests|
        invariant 0 <= k <= |requests| && Valid() && old(history) <= history
      {
        var (mem, env) := requests[k];
        if VisitsAll(memslots, env.stop) && mem.guestPhys < ADDR_LIMIT && mem.size < ADDR_LIMIT {
          var r;
          ghost var committed;
          r, committed := SetMemoryRegion(mem, env);
        }
        k := k + 1;
      }
      Counted(old(history));
    }

    lemma Counted(before: seq<Memslots>)
      requires Valid() && before <= history && before != []
      ensures memslots.generation == (before[|before| - 1].generation + (|history| - |before|)) % GENERATIONS
    {
      GenerationsCount(history, |before| - 1, |history| - 1);
    }
  }
}
