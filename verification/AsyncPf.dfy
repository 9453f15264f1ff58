/** The per-vCPU hash table of pages with an asynchronous fault in flight (kvm/x86.c:7364-7423): open
    addressing with linear probing and deletion by backward shift. */
module AsyncPf {

  const N := 64                             // roundup_pow_of_two (ASYNC_PF_PER_VCPU)
  const EMPTY: nat := 0xFFFF_FFFF_FFFF_FFFF  // ~0

  type Table = t: seq<nat> | |t| == N witness seq(N, i => EMPTY)

  /** Any hash into the table will do. */
  ghost predicate IsHash(hash: nat -> nat) { forall g :: InRange(hash(g)) }
  predicate InRange(k: nat) { k < N }

  /** `kvm_async_pf_next_probe`. */
  function Next(k: nat): nat
    requires k < N
  {
    if k + 1 == N then 0 else k + 1
  }

  /** Steps of `Next` from `a` to `b`. */
  function Dist(a: nat, b: nat): nat
    requires a < N && b < N
  {
    if a <= b then b - a else N - a + b
  }

  function Contents(t: seq<nat>): multiset<nat> { multiset(t)[EMPTY := 0] }

  /** The entry at `p`, if any, is reachable from its hash slot without crossing an empty slot other than `hole`. */
  ghost predicate Reachable(t: Table, hash: nat -> nat, p: nat, hole: int)
    requires IsHash(hash) && p < N
  {
    assert InRange(hash(t[p]));
    t[p] != EMPTY ==>
      forall q :: 0 <= q < N && q != hole && Dist(hash(t[p]), q) < Dist(hash(t[p]), p) ==> t[q] != EMPTY
  }

  ghost predicate AllReachable(t: Table, hash: nat -> nat, hole: int)
    requires IsHash(hash)
  {
    forall p :: 0 <= p < N ==> Reachable(t, hash, p, hole)
  }

  const NONE := -1

  /** `kvm_async_pf_gfn_slot`, from its i-th probe on. */
  function SlotFrom(t: Table, g: nat, key: nat, i: nat): (k: nat)
    requires key < N && i <= N
    ensures k < N
    decreases N - i
  {
    if i < N && t[key] != g && t[key] != EMPTY then SlotFrom(t, g, Next(key), i + 1) else key
  }

  function Slot(t: Table, hash: nat -> nat, g: nat): (k: nat)
    requires hash(g) < N
    ensures k < N
  {
    SlotFrom(t, g, hash(g), 0)
  }

  ghost predicate Full(t: Table) { forall p :: 0 <= p < N ==> t[p] != EMPTY }

  lemma {:induction false} SlotFromSpec(t: Table, hash: nat -> nat, g: nat, key: nat, i: nat)
    requires IsHash(hash) && AllReachable(t, hash, NONE) && g != EMPTY && InRange(hash(g))
    requires key < N && i <= N && (i < N ==> Dist(hash(g), key) == i) && (i == N ==> key == hash(g))
    requires forall q :: 0 <= q < N && Dist(hash(g), q) < i ==> t[q] != g && t[q] != EMPTY
    ensures var k := SlotFrom(t, g, key, i);
            if g in t then t[k] == g else if Full(t) then k == hash(g) else t[k] == EMPTY
    decreases N - i
  {
    if g in t {
      var p :| 0 <= p < N && t[p] == g;
      assert Reachable(t, hash, p, NONE);
    }
    if i < N && t[key] != g && t[key] != EMPTY {
      SlotFromSpec(t, hash, g, Next(key), i + 1);
    }
  }

  /** The probe finds the gfn if it is there, otherwise an empty slot, otherwise it comes back to the hash slot. */
  lemma SlotSpec(t: Table, hash: nat -> nat, g: nat)
    requires IsHash(hash) && AllReachable(t, hash, NONE) && g != EMPTY && InRange(hash(g))
    ensures var k := Slot(t, hash, g);
            if g in t then t[k] == g else if Full(t) then k == hash(g) else t[k] == EMPTY
  {
    SlotFromSpec(t, hash, g, hash(g), 0);
  }

  // ----- backward shift

  /** Total displacement of the entries in slots below `n`. */
  ghost function Displacement(t: Table, hash: nat -> nat, n: nat): nat
    requires n <= N && IsHash(hash)
  {
    if n == 0 then 0 else Displacement(t, hash, n - 1) + EntryDist(hash, t[n - 1], n - 1)
  }

  ghost function EntryDist(hash: nat -> nat, g: nat, p: nat): nat
    requires p < N && IsHash(hash)
  {
    assert InRange(hash(g));
    if g == EMPTY then 0 else Dist(hash(g), p)
  }

  lemma {:induction false} DisplacementUpdate(t: Table, hash: nat -> nat, n: nat, i: nat, g: nat)
    requires IsHash(hash) && n <= N && i < N
    ensures Displacement(t[i := g], hash, n) ==
            if i < n then Displacement(t, hash, n) - EntryDist(hash, t[i], i) + EntryDist(hash, g, i)
            else Displacement(t, hash, n)
  {
    if n > 0 { DisplacementUpdate(t, hash, n - 1, i, g); }
  }

  /** Entries between the hole and `j` do not need the hole: their probe paths start after it. */
  ghost predicate Scanned(t: Table, hash: nat -> nat, hole: nat, j: nat)
    requires IsHash(hash) && hole < N && j < N
  {
    forall p {:trigger t[p]} :: 0 <= p < N && 0 < Dist(hole, p) <= Dist(hole, j) ==>
      t[p] != EMPTY && InRange(hash(t[p])) && Dist(hash(t[p]), p) < Dist(hole, p)
  }

  /** Reaching an empty slot ends the deletion: nothing is left that needs the hole. */
  lemma HoleClosed(t: Table, hash: nat -> nat, hole: nat, j: nat, e: nat)
    requires IsHash(hash) && hole < N && j < N && t[hole] == EMPTY && AllReachable(t, hash, hole)
    requires Scanned(t, hash, hole, j) && e == Next(j) && t[e] == EMPTY
    ensures AllReachable(t, hash, NONE)
  {
    forall p | 0 <= p < N
      ensures Reachable(t, hash, p, NONE)
    {
      assert Reachable(t, hash, p, hole);
      assert InRange(hash(t[p]));
    }
  }

  /** Moving an entry whose hash lies outside (hole, j] back into the hole makes `j` the new hole. */
  lemma HoleMoved(t: Table, hash: nat -> nat, hole: nat, j: nat)
    requires IsHash(hash) && hole < N && j < N && hole != j && t[hole] == EMPTY && t[j] != EMPTY
    requires AllReachable(t, hash, hole) && InRange(hash(t[j])) && Dist(hole, j) <= Dist(hash(t[j]), j)
    ensures AllReachable(t[hole := t[j]][j := EMPTY], hash, j)
    ensures Dist(hash(t[j]), hole) < Dist(hash(t[j]), j)
  {
    var s := t[hole := t[j]][j := EMPTY];
    forall p | 0 <= p < N
      ensures Reachable(s, hash, p, j)
    {
      assert Reachable(t, hash, p, hole) && Reachable(t, hash, j, hole);
      assert InRange(hash(s[p]));
    }
  }

  /** Emptying a slot of a table without holes leaves that one hole. */
  lemma HoleOpened(t: Table, hash: nat -> nat, i: nat)
    requires IsHash(hash) && i < N && AllReachable(t, hash, NONE)
    ensures AllReachable(t[i := EMPTY], hash, i)
  {
    var s := t[i := EMPTY];
    forall p | 0 <= p < N
      ensures Reachable(s, hash, p, i)
    {
      assert Reachable(t, hash, p, NONE);
    }
  }

  lemma ContentsFilled(t: Table, i: nat, g: nat)
    requires i < N && t[i] == EMPTY && g != EMPTY
    ensures Contents(t[i := g]) == Contents(t) + multiset{g}
  {
    assert multiset(t[i := g]) == multiset(t) - multiset{EMPTY} + multiset{g} by { MultisetUpdate(t, i, g); }
  }

  lemma ContentsErased(t: Table, i: nat)
    requires i < N
    ensures Contents(t[i := EMPTY]) == Contents(t) - multiset{t[i]}
  {
    MultisetUpdate(t, i, EMPTY);
    assert multiset(t)[t[i]] > 0;
  }

  /** Moving an entry back keeps the contents and lowers the total displacement. */
  lemma MoveEntry(t: Table, hash: nat -> nat, i: nat, j: nat)
    requires IsHash(hash) && i < N && j < N && i != j && t[i] == EMPTY && t[j] != EMPTY && InRange(hash(t[j]))
    requires Dist(hash(t[j]), i) < Dist(hash(t[j]), j)
    ensures Contents(t[i := t[j]][j := EMPTY]) == Contents(t)
    ensures Displacement(t[i := t[j]][j := EMPTY], hash, N) < Displacement(t, hash, N)
  {
    ContentsFilled(t, i, t[j]);
    ContentsErased(t[i := t[j]], j);
    DisplacementUpdate(t, hash, N, i, t[j]);
    DisplacementUpdate(t[i := t[j]], hash, N, j, EMPTY);
  }

  lemma MultisetUpdate(t: Table, i: nat, g: nat)
    requires i < N
    ensures multiset(t[i := g]) == multiset(t) - multiset{t[i]} + multiset{g}
  {
    assert t == t[..i] + [t[i]] + t[i + 1..] && t[i := g] == t[..i] + [g] + t[i + 1..];
  }

  lemma {:induction false} NothingIn(n: nat)
    ensures Contents(seq(n, i => EMPTY)) == multiset{}
  {
    if n > 0 {
      NothingIn(n - 1);
      assert seq(n, i => EMPTY) == seq(n - 1, i => EMPTY) + [EMPTY];
    }
  }

  /** What a deletion asked for `g` does: it removes the entry its probe stops at. */
  ghost predicate Deleted(t: Table, hash: nat -> nat, g: nat, t': Table)
    requires IsHash(hash) && InRange(hash(g))
  {
    && AllReachable(t', hash, NONE)
    && Contents(t') == Contents(t) - multiset{t[Slot(t, hash, g)]}
  }

  ghost predicate Added(t: Table, hash: nat -> nat, g: nat, t': Table)
    requires IsHash(hash)
  {
    AllReachable(t', hash, NONE) && Contents(t') == Contents(t) + multiset{g}
  }

  lemma InContents(t: Table, g: nat)
    requires g != EMPTY
    ensures g in Contents(t) <==> g in t
  {
    assert g in multiset(t) <==> g in t;
  }

  /** Deleting removes one copy of the gfn, and nothing else, exactly when the gfn is in the table or the table
      has an empty slot.  Asked for an absent gfn, a full table loses the entry in the gfn's hash slot. */
  lemma DeletesTheGfn(t: Table, hash: nat -> nat, g: nat, t': Table)
    requires IsHash(hash) && InRange(hash(g)) && g != EMPTY && AllReachable(t, hash, NONE) && Deleted(t, hash, g, t')
    ensures Contents(t') == Contents(t) - multiset{g} <==> g in t || !Full(t)
    ensures Full(t) && g !in t ==> Contents(t') == Contents(t) - multiset{t[hash(g)]}
  {
    SlotSpec(t, hash, g);
    InContents(t, g);
    if g !in t {
      assert Contents(t) - multiset{g} == Contents(t);
      if Full(t) {
        InContents(t, t[hash(g)]);
        assert (Contents(t) - multiset{t[hash(g)]})[t[hash(g)]] < Contents(t)[t[hash(g)]];
      } else {
        assert Contents(t) - multiset{EMPTY} == Contents(t);
      }
    }
  }

  datatype Op = Add(g: nat) | Del(g: nat)

  /** What the callers mean by an operation. */
  function Apply(m: multiset<nat>, op: Op): multiset<nat> {
    match op
    case Add(g) => m + multiset{g}
    case Del(g) => m - multiset{g}
  }

  function Fold(m: multiset<nat>, ops: seq<Op>): multiset<nat> {
    if ops == [] then m else Apply(Fold(m, ops[..|ops| - 1]), ops[|ops| - 1])
  }

  ghost predicate Legal(t: Table, op: Op) {
    op.g != EMPTY && (!Full(t) || (op.Del? && op.g in t))
  }

  ghost predicate Step(t: Table, hash: nat -> nat, op: Op, t': Table)
    requires IsHash(hash)
  {
    match op
    case Add(g) => Added(t, hash, g, t')
    case Del(g) => InRange(hash(g)) && Deleted(t, hash, g, t')
  }

  /** Over any run of legal additions and deletions the table holds the multiset that the run describes, and a
      probe stops at a gfn exactly when the multiset has it. */
  lemma {:induction false} RunTracksMultiset(ts: seq<Table>, hash: nat -> nat, ops: seq<Op>)
    requires IsHash(hash) && |ts| == |ops| + 1 && AllReachable(ts[0], hash, NONE)
    requires forall k :: 0 <= k < |ops| ==> Legal(ts[k], ops[k]) && Step(ts[k], hash, ops[k], ts[k + 1])
    ensures AllReachable(ts[|ops|], hash, NONE) && Contents(ts[|ops|]) == Fold(Contents(ts[0]), ops)
    ensures forall g :: g != EMPTY && InRange(hash(g)) ==>
              (ts[|ops|][Slot(ts[|ops|], hash, g)] == g <==> g in Fold(Contents(ts[0]), ops))
  {
    var n := |ops|;
    if n > 0 {
      RunTracksMultiset(ts[..n], hash, ops[..n - 1]);
      if ops[n - 1].Del? { DeletesTheGfn(ts[n - 1], hash, ops[n - 1].g, ts[n]); }
    }
    forall g | g != EMPTY && InRange(hash(g))
      ensures ts[n][Slot(ts[n], hash, g)] == g <==> g in Fold(Contents(ts[0]), ops)
    {
      SlotSpec(ts[n], hash, g);
      InContents(ts[n], g);
    }
  }

  class PageFaultTable {
    const gfns: array<nat>
    const hash: nat -> nat

    ghost predicate Valid()
      reads this, gfns
    {
      gfns.Length == N && IsHash(hash) && AllReachable(gfns[..], hash, NONE)
    }

    /** `kvm_async_pf_hash_reset`. */
    constructor (hash: nat -> nat)
      requires IsHash(hash)
      ensures Valid() && fresh(gfns) && this.hash == hash && Contents(gfns[..]) == multiset{}
    {
      this.hash := hash;
      gfns := new nat[N](_ => EMPTY);
      new;
      assert gfns[..] == seq(N, i => EMPTY);
      NothingIn(N);
    }

    method Add(gfn: nat)
      requires Valid() && gfn != EMPTY && !Full(gfns[..])
      modifies gfns
      ensures Valid() && Added(old(gfns[..]), hash, gfn, gfns[..])
    {
      assert InRange(hash(gfn));
      var key: nat := hash(gfn);
      ghost var e: nat :| e < N && gfns[e] == EMPTY;
      while gfns[key] != EMPTY
        invariant key < N && Dist(hash(gfn), key) <= Dist(hash(gfn), e)
        invariant forall q :: 0 <= q < N && Dist(hash(gfn), q) < Dist(hash(gfn), key) ==> gfns[q] != EMPTY
        decreases Dist(key, e)
      {
        key := Next(key);
      }
      ghost var t := gfns[..];
      gfns[key] := gfn;
      assert gfns[..] == t[key := gfn];
      ContentsFilled(t, key, gfn);
      forall p | 0 <= p < N
        ensures Reachable(gfns[..], hash, p, NONE)
      {
        assert Reachable(t, hash, p, NONE);
      }
    }

    method GfnSlot(gfn: nat) returns (key: nat)
      requires gfns.Length == N && IsHash(hash) && InRange(hash(gfn))
      ensures key == Slot(gfns[..], hash, gfn)
    {
      key := hash(gfn);
      var i := 0;
      while i < N && gfns[key] != gfn && gfns[key] != EMPTY
        invariant 0 <= i <= N && key < N && SlotFrom(gfns[..], gfn, key, i) == Slot(gfns[..], hash, gfn)
      {
        key := Next(key);
        i := i + 1;
      }
    }

    method Find(gfn: nat) returns (found: bool)
      requires Valid() && gfn != EMPTY
      ensures found <==> gfn in Contents(gfns[..])
    {
      assert InRange(hash(gfn));
      var k := GfnSlot(gfn);
      SlotSpec(gfns[..], hash, gfn);
      found := gfns[k] == gfn;
    }

    /** The inner loop of `kvm_del_async_pf_gfn`: from the hole `i`, the next entry that may not stay where it is. */
    method NextMisplaced(i: nat) returns (found: bool, j: nat)
      requires gfns.Length == N && IsHash(hash) && i < N && gfns[i] == EMPTY && AllReachable(gfns[..], hash, i)
      ensures !found ==> AllReachable(gfns[..], hash, NONE)
      ensures found ==>
                j < N && j != i && gfns[j] != EMPTY && InRange(hash(gfns[j])) && Dist(i, j) <= Dist(hash(gfns[j]), j)
    {
      ghost var last: nat := i;
      j, found := i, false;
      while !found
        invariant last < N && j == (if found then Next(last) else last) && Scanned(gfns[..], hash, i, last)
        invariant found ==> j != i && gfns[j] != EMPTY && InRange(hash(gfns[j])) && Dist(i, j) <= Dist(hash(gfns[j]), j)
        decreases !found, N - Dist(i, last)
      {
        last := j;
        j := Next(j);
        if gfns[j] == EMPTY {
          HoleClosed(gfns[..], hash, i, last, j);
          return false, j;
        }
        assert InRange(hash(gfns[j]));
        var k := hash(gfns[j]);
        found := !(if i <= j then i < k && k <= j else i < k || k <= j);
        if !found { last := j; }
      }
    }

    /** Removes the entry at which the probe for `gfn` stops.  Every round moves one entry back towards its hash
        slot, so the loop ends even when the table is full. */
    method Delete(gfn: nat)
      requires Valid() && gfn != EMPTY && InRange(hash(gfn))
      modifies gfns
      ensures Valid() && Deleted(old(gfns[..]), hash, gfn, gfns[..])
    {
      ghost var t0 := gfns[..];
      var i: nat := GfnSlot(gfn);
      ContentsErased(t0, i);
      HoleOpened(t0, hash, i);
      hide AllReachable, Displacement, Slot;
      while true
        invariant i < N
        invariant Contents(gfns[..][i := EMPTY]) == Contents(t0) - multiset{t0[Slot(t0, hash, gfn)]}
        invariant AllReachable(gfns[..][i := EMPTY], hash, i)
        decreases Displacement(gfns[..][i := EMPTY], hash, N)
      {
        ghost var t := gfns[..][i := EMPTY];
        gfns[i] := EMPTY;
        assert gfns[..] == t;
        var found, j := NextMisplaced(i);
        if !found { return; }
        HoleMoved(t, hash, i, j);
        MoveEntry(t, hash, i, j);
        gfns[i] := gfns[j];
        assert gfns[..] == t[i := t[j]];
        i := j;
      }
    }
  }
}
