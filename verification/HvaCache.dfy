/** The generation-stamped `gfn_to_hva_cache` (kvm/kvm_main.c:1557-1643) under concurrent slot updates.  `h` is the
    sequence of tables a whole run publishes, as `Memslots.Kvm` records it.  A call reads the published table several
    times; the reads may see different tables, each no older than the one before. */
module HvaCache {
  import opened Wrappers
  import opened Memslots
  import opened GuestMemory

  /** `views[k]` is the table at time `at[k]`. */
  ghost predicate Observed(h: seq<Memslots>, at: seq<nat>, views: seq<Memslots>) {
    && |at| == |views| && (forall k :: 0 <= k < |at| ==> at[k] < |h| && views[k] == h[at[k]])
    && (forall i, j :: 0 <= i < j < |at| ==> at[i] <= at[j])
  }

  function Pages(gpa: nat, len: nat): nat
    requires len > 0
  {
    (gpa + len - 1) / PAGE - gpa / PAGE + 1
  }

  ghost predicate InRegion(f: nat, gpa: nat, len: nat)
    requires len > 0
  {
    gpa / PAGE <= f <= (gpa + len - 1) / PAGE
  }

  ghost predicate BlockedAt(m: Memslots, f: nat) { FindSlot(m.slots, f).Some? && GfnToHva(m, f, true).None? }

  /** Some frame of the region has a slot that is read-only or being removed. */
  ghost predicate Blocked(m: Memslots, gpa: nat, len: nat)
    requires len > 0
  {
    exists f :: InRegion(f, gpa, len) && BlockedAt(m, f)
  }

  /** No two slots hold the frame. */
  ghost predicate OneHolder(m: Memslots, f: nat) {
    forall a, b :: a in m.slots && b in m.slots && Holds(a, f) && Holds(b, f) ==> a == b
  }

  ghost predicate OneHolderEach(m: Memslots, gpa: nat, len: nat)
    requires len > 0
  {
    forall f :: InRegion(f, gpa, len) ==> OneHolder(m, f)
  }

  /** Cached values that agree with `m`: an address is the current one, an error has a cause. */
  ghost predicate Sound(m: Memslots, gpa: nat, len: nat, memslot: Option<Slot>, hva: Option<nat>)
    requires len > 0
  {
    memslot.Some? ==>
      if hva.None? then Blocked(m, gpa, len)
      else Pages(gpa, len) == 1 && FindSlot(m.slots, gpa / PAGE) == memslot
           && GfnToHva(m, gpa / PAGE, true).Some? && hva.value == GfnToHva(m, gpa / PAGE, true).value + gpa % PAGE
  }

  /** No slot is cached only where a frame has none, or where the region crosses pages and every frame is writable. */
  ghost predicate Complete(m: Memslots, gpa: nat, len: nat, memslot: Option<Slot>)
    requires len > 0
  {
    memslot.None? && OneHolderEach(m, gpa, len) ==>
      || (exists f :: InRegion(f, gpa, len) && FindSlot(m.slots, f).None?)
      || WritableRegion(m, gpa, len)
  }

  /** Every frame of the region has an address for writing. */
  ghost predicate WritableRegion(m: Memslots, gpa: nat, len: nat)
    requires len > 0
  {
    forall f :: InRegion(f, gpa, len) ==> GfnToHva(m, f, true).Some?
  }

  /** Every frame of the stretch that only one slot holds has an address for writing. */
  ghost predicate Cleared(m: Memslots, from: nat, to: nat) {
    forall f :: from <= f < to && OneHolder(m, f) ==> GfnToHva(m, f, true).Some?
  }

  /** A hop to the end of a slot passes only such frames. */
  lemma HopsOver(m: Memslots, from: nat, f: nat)
    requires Cleared(m, from, f) && from <= f && GfnToHva(m, f, true).Some?
    ensures var s := FindSlot(m.slots, f).value; Cleared(m, from, s.baseGfn + s.npages)
  {
    var s := FindSlot(m.slots, f).value;
    forall g | f <= g < s.baseGfn + s.npages && OneHolder(m, g)
      ensures GfnToHva(m, g, true).Some?
    {
      assert Holds(s, g);
      assert FindSlot(m.slots, g) == Some(s);
    }
  }

  ghost predicate AllSame(views: seq<Memslots>) { forall k :: 0 <= k < |views| ==> views[k] == views[0] }

  lemma CompleteWithSlot(m: Memslots, gpa: nat, len: nat, memslot: Option<Slot>)
    requires len > 0 && memslot.Some?
    ensures Complete(m, gpa, len, memslot)
  {
  }

  lemma ClearedIsComplete(m: Memslots, gpa: nat, len: nat)
    requires len > 0 && Cleared(m, gpa / PAGE, (gpa + len - 1) / PAGE + 1)
    ensures OneHolderEach(m, gpa, len) ==> WritableRegion(m, gpa, len)
  {
    if OneHolderEach(m, gpa, len) {
      forall f: nat | InRegion(f, gpa, len)
        ensures GfnToHva(m, f, true).Some?
      {
        assert OneHolder(m, f);
      }
    }
  }

  /** A stamp read before the last lookup matches a later table, fewer than 2^64 publications on, only if nothing was
      published in between. */
  lemma StampMatches(h: seq<Memslots>, at: seq<nat>, views: seq<Memslots>, t: nat)
    requires History(h) && Observed(h, at, views) && views != []
    requires at[|at| - 1] <= t < |h| && t < at[0] + GENERATIONS && h[t].generation == views[0].generation
    ensures AllSame(views) && views[0] == h[t]
  {
    GenerationsCount(h, at[0], t);
    if at[0] < t {
      assert false;
    }
  }

  /** The bound is exact: a stamp matches a later table exactly if the number of publications in between is a multiple
      of 2^64.  Then the counter has come round, and nothing is known of the cache. */
  lemma StampRepeats(h: seq<Memslots>, at: seq<nat>, views: seq<Memslots>, t: nat)
    requires History(h) && Observed(h, at, views) && views != [] && at[0] <= t < |h|
    ensures h[t].generation == views[0].generation <==> (t - at[0]) % GENERATIONS == 0
  {
    GenerationsCount(h, at[0], t);
  }

  /** A cached address reaches the same bytes as the table it agrees with. */
  lemma CachedAddress(m: Memslots, mem: Host, gpa: nat, len: nat, memslot: Option<Slot>, hva: Option<nat>, n: nat,
      write: bool)
    requires len > 0 && n <= len && Sound(m, gpa, len, memslot, hva) && memslot.Some? && hva.Some?
    ensures Addresses(m, gpa, n) == Range(hva.value, n)
    ensures AllReachable(m, mem, gpa, n, write) <==> AllIn(mem, hva.value, n)
  {
    hide FindSlot, Addresses, Range, AllReachable, AllIn;
    assert GfnToHva(m, gpa / PAGE, write) == GfnToHva(m, gpa / PAGE, true);
    PageAddresses(m, mem, gpa / PAGE, gpa % PAGE, n, write);
  }

  /** A frame without an address for writing keeps the region from being written. */
  lemma UnwritableFrame(m: Memslots, mem: Host, gpa: nat, len: nat, f: nat)
    requires len > 0 && InRegion(f, gpa, len) && GfnToHva(m, f, true).None?
    ensures !AllReachable(m, mem, gpa, len, true)
  {
    var g := if gpa < f * PAGE then f * PAGE else gpa;
    assert g / PAGE == f;
    assert !Reachable(m, mem, g, true);
  }

  lemma UnreadableFrame(m: Memslots, mem: Host, gpa: nat, len: nat, f: nat)
    requires len > 0 && InRegion(f, gpa, len) && FindSlot(m.slots, f).None?
    ensures !AllReachable(m, mem, gpa, len, false) && !AllReachable(m, mem, gpa, len, true)
  {
    var g := if gpa < f * PAGE then f * PAGE else gpa;
    assert g / PAGE == f;
    assert !Reachable(m, mem, g, false) && !Reachable(m, mem, g, true);
  }

  lemma WritableFrames(m: Memslots, mem: Host, gpa: nat, len: nat)
    requires len > 0 && WritableRegion(m, gpa, len)
    ensures AllReachable(m, mem, gpa, len, false) <==> AllReachable(m, mem, gpa, len, true)
  {
    forall g | gpa <= g < gpa + len
      ensures Reachable(m, mem, g, false) <==> Reachable(m, mem, g, true)
    {
      assert InRegion(g / PAGE, gpa, len);
    }
  }

  /** Where no slot is cached, reading and writing the region succeed together. */
  lemma SlowPath(m: Memslots, mem: Host, gpa: nat, len: nat)
    requires len > 0 && OneHolderEach(m, gpa, len) && Complete(m, gpa, len, None)
    ensures AllReachable(m, mem, gpa, len, false) <==> AllReachable(m, mem, gpa, len, true)
  {
    hide AllReachable, OneHolder;
    if f :| InRegion(f, gpa, len) && FindSlot(m.slots, f).None? {
      UnreadableFrame(m, mem, gpa, len, f);
    } else {
      WritableFrames(m, mem, gpa, len);
    }
  }

  /** Where an error is cached, the region cannot be written. */
  lemma CachedError(m: Memslots, mem: Host, gpa: nat, len: nat)
    requires len > 0 && Blocked(m, gpa, len)
    ensures !AllReachable(m, mem, gpa, len, true)
  {
    var f :| InRegion(f, gpa, len) && BlockedAt(m, f);
    UnwritableFrame(m, mem, gpa, len, f);
  }

  /** Read-only slots are the whole difference: a region that can be read can be written exactly if none of its frames
      lies in one. */
  lemma OnlyReadonlyDiffers(m: Memslots, mem: Host, gpa: nat, len: nat)
    requires len > 0 && AllReachable(m, mem, gpa, len, false)
    ensures AllReachable(m, mem, gpa, len, true) <==>
              forall f :: InRegion(f, gpa, len) ==> FindSlot(m.slots, f).Some? && !FindSlot(m.slots, f).value.readonly
  {
    forall f: nat | InRegion(f, gpa, len)
      ensures GfnToHva(m, f, false).Some?
    {
      var g := if gpa < f * PAGE then f * PAGE else gpa;
      assert g / PAGE == f;
      assert Reachable(m, mem, g, false);
    }
    if AllReachable(m, mem, gpa, len, true) {
      forall f: nat | InRegion(f, gpa, len)
        ensures GfnToHva(m, f, true).Some?
      {
        if GfnToHva(m, f, true).None? {
          UnwritableFrame(m, mem, gpa, len, f);
        }
      }
    } else if forall f :: InRegion(f, gpa, len) ==> !FindSlot(m.slots, f).value.readonly {
      WritableFrames(m, mem, gpa, len);
    }
  }

  class Cache {
    var gpa: nat
    var len: nat
    var generation: nat
    var memslot: Option<Slot>
    var hva: Option<nat>
    ghost var stamped: nat  // when the stamp was read

    /** From time `since` on, until 2^64 publications after the stamp was read, whenever the stamp matches the published
        generation, the cache agrees with the published table. */
    ghost predicate CurrentSince(h: seq<Memslots>, since: nat)
      reads this
    {
      && len > 0 && stamped <= since < |h|
      && forall t :: since <= t < |h| && t < stamped + GENERATIONS && h[t].generation == generation ==>
           Sound(h[t], gpa, len, memslot, hva) && Complete(h[t], gpa, len, memslot)
    }

    /** The loop of `kvm_gfn_to_hva_cache_init` over the slots of a region; `views` gives its lookups. */
    method CheckRegion(views: seq<Memslots>) returns (r: int, ghost decided: nat)
      requires len > 0 && |views| == Pages(gpa, len)
      modifies this`memslot, this`hva
      ensures r == 0 || r == -EFAULT
      ensures decided < |views| && Sound(views[decided], gpa, len, memslot, hva)
      ensures r != 0 ==> !WritableRegion(views[decided], gpa, len)
      ensures AllSame(views) ==>
                && Complete(views[0], gpa, len, memslot)
                && (r == 0 && OneHolderEach(views[0], gpa, len) ==> WritableRegion(views[0], gpa, len))
    {
      hide FindSlot, OneHolder;
      var startGfn: nat, endGfn := gpa / PAGE, (gpa + len - 1) / PAGE;
      var next: nat := 0;
      while startGfn <= endGfn
        invariant gpa / PAGE <= startGfn && next <= startGfn - gpa / PAGE
        invariant AllSame(views) ==> Cleared(views[0], gpa / PAGE, startGfn)
        decreases endGfn + 1 - startGfn
      {
        var view := views[next];
        memslot := FindSlot(view.slots, startGfn);
        hva := Hva(memslot, startGfn, true);
        if hva.None? {
          assert memslot.Some? ==> BlockedAt(view, startGfn) && InRegion(startGfn, gpa, len);
          assert memslot.None? ==> InRegion(startGfn, gpa, len) && FindSlot(view.slots, startGfn).None?;
          assert InRegion(startGfn, gpa, len) && GfnToHva(view, startGfn, true).None?;
          return -EFAULT, next;
        }
        if AllSame(views) { HopsOver(views[0], gpa / PAGE, startGfn); }
        startGfn := memslot.value.baseGfn + memslot.value.npages;
        next := next + 1;
      }
      memslot := None;
      if AllSame(views) { ClearedIsComplete(views[0], gpa, len); }
      return 0, 0;
    }

    /** `kvm_gfn_to_hva_cache_init`: `views[0]` gives the stamp and each later view one lookup.  Whatever is published
        in between, the cache is current from the last lookup on. */
    method Init(gpa: nat, len: nat, views: seq<Memslots>, ghost h: seq<Memslots>, ghost at: seq<nat>)
      returns (r: int, ghost decided: nat)
      requires len > 0 && |views| == Pages(gpa, len) + 2 && History(h) && Observed(h, at, views)
      modifies this
      ensures this.gpa == gpa && this.len == len && generation == views[0].generation && stamped == at[0]
      ensures r == 0 || r == -EFAULT
      ensures decided < |views| && Sound(views[decided], gpa, len, memslot, hva)
      ensures r != 0 ==> !WritableRegion(views[decided], gpa, len)
      ensures AllSame(views) && r == 0 && OneHolderEach(views[0], gpa, len) ==> WritableRegion(views[0], gpa, len)
      ensures AllSame(views) ==> Complete(views[0], gpa, len, memslot)
      ensures CurrentSince(h, at[|at| - 1])
    {
      hide FindSlot, History, Complete, OneHolder, Blocked;
      var startGfn := gpa / PAGE;
      this.gpa := gpa;
      generation, stamped := views[0].generation, at[0];
      this.len := len;
      memslot := FindSlot(views[1].slots, startGfn);
      hva := Hva(memslot, startGfn, true);
      if hva.Some? && Pages(gpa, len) <= 1 {
        hva := Some(hva.value + gpa % PAGE);
        decided, r := 1, 0;
        CompleteWithSlot(views[1], gpa, len, memslot);
        assert forall f :: InRegion(f, gpa, len) ==> f == startGfn;
      } else {
        r, decided := CheckRegion(views[2..]);
        assert views[2..][decided] == views[decided + 2];
        assert AllSame(views) ==> AllSame(views[2..]) && views[2..][0] == views[0];
        decided := decided + 2;
      }
      assert AllSame(views) ==> Complete(views[0], gpa, len, memslot);
      forall t | at[|at| - 1] <= t < |h| && t < stamped + GENERATIONS && h[t].generation == generation
        ensures Sound(h[t], gpa, len, memslot, hva) && Complete(h[t], gpa, len, memslot)
      {
        StampMatches(h, at, views, t);
      }
    }

    /** The generation check at the head of the cached accesses, fewer than 2^64 publications after the cache was
        filled: a matching stamp is used as it is, any other cache is filled again.  Either way the cache then agrees
        with some table published during the call. */
    method Refresh(views: seq<Memslots>, ghost h: seq<Memslots>, ghost at: seq<nat>, ghost since: nat)
      returns (ghost decided: nat, ghost since': nat)
      requires CurrentSince(h, since) && History(h) && Observed(h, at, views)
      requires |views| == Pages(gpa, len) + 3 && since <= at[0] < stamped + GENERATIONS
      modifies this
      ensures gpa == old(gpa) && len == old(len) && len > 0
      ensures decided < |views| && Sound(views[decided], gpa, len, memslot, hva)
      ensures CurrentSince(h, since') && since' <= at[|at| - 1]
      ensures AllSame(views) ==> Complete(views[0], gpa, len, memslot)
    {
      hide FindSlot, History, Sound, Complete;
      decided, since' := 0, since;
      if views[0].generation != generation {
        var r;
        r, decided := Init(gpa, len, views[1..], h, at[1..]);
        assert views[1..][decided] == views[decided + 1];
        decided, since' := decided + 1, at[|at| - 1];
        assert AllSame(views) ==> AllSame(views[1..]) && views[1] == views[0];
      }
    }

    /** `kvm_read_guest_cached`.  What it returns is what an uncached read returns under a table published during the
        call.  It can fail where that read succeeds only through a read-only slot: with no update during the call, the
        whole region is read exactly if it could be written. */
    method Read(guest: Guest, size: nat, views: seq<Memslots>, ghost h: seq<Memslots>, ghost at: seq<nat>,
                ghost since: nat)
      returns (r: int, data: seq<Byte>, ghost decided: nat, ghost since': nat)
      requires CurrentSince(h, since) && History(h) && Observed(h, at, views)
      requires |views| == Pages(gpa, len) + 3 && since <= at[0] < stamped + GENERATIONS
      requires size <= len && guest.memslots == views[|views| - 1]
      modifies this
      ensures gpa == old(gpa) && len == old(len) && CurrentSince(h, since') && since' <= at[|at| - 1]
      ensures decided < |views| && (r == 0 || r == -EFAULT)
      ensures r == 0 ==> Fetched(guest.mem, Addresses(views[decided], gpa, size), data)
      ensures r == 0 ==> AllReachable(views[decided], guest.mem, gpa, size, false)
      ensures !Blocked(views[decided], gpa, len) ==>
                (r == 0 <==> AllReachable(views[decided], guest.mem, gpa, size, false))
      ensures AllSame(views) && OneHolderEach(views[0], gpa, len) && size == len ==>
                (r == 0 <==> AllReachable(views[0], guest.mem, gpa, len, true))
    {
      hide AllReachable, Addresses, Range, AllIn, Fetched, Complete, Blocked, OneHolderEach, History, CurrentSince,
           FindSlot, GfnToHva;
      decided, since' := Refresh(views, h, at, since);
      data := [];
      if memslot.None? {
        decided := |views| - 1;
        if AllSame(views) && OneHolderEach(views[0], gpa, len) {
          SlowPath(views[0], guest.mem, gpa, len);
        }
        r, data := guest.ReadGuest(gpa, size);
        return;
      }
      if hva.None? {
        CachedError(views[decided], guest.mem, gpa, len);
        return -EFAULT, data, decided, since';
      }
      CachedAddress(views[decided], guest.mem, gpa, len, memslot, hva, size, false);
      CachedAddress(views[decided], guest.mem, gpa, len, memslot, hva, size, true);
      var left;
      left, data := guest.CopyFrom(hva.value, size);
      r := if left != 0 then -EFAULT else 0;
    }

    /** `kvm_write_guest_cached`.  It stores what an uncached write stores, or nothing, and marks the same pages; only
        when there is nothing to store can it mark a page where the uncached write marks none. */
    method Write(guest: Guest, data: seq<Byte>, views: seq<Memslots>, ghost h: seq<Memslots>, ghost at: seq<nat>,
                 ghost since: nat)
      returns (r: int, ghost decided: nat, ghost since': nat, ghost stored: nat)
      requires CurrentSince(h, since) && History(h) && Observed(h, at, views)
      requires |views| == Pages(gpa, len) + 3 && since <= at[0] < stamped + GENERATIONS
      requires |data| <= len && guest.memslots == views[|views| - 1]
      modifies this, guest`mem, guest`dirty
      ensures gpa == old(gpa) && len == old(len) && CurrentSince(h, since') && since' <= at[|at| - 1]
      ensures decided < |views| && (r == 0 || r == -EFAULT)
      ensures r == 0 ==> AllReachable(views[decided], old(guest.mem), gpa, |data|, true)
      ensures stored <= |data| && (r == 0 ==> stored == |data|) && (r != 0 && data != [] ==> stored < |data|)
      ensures guest.mem == Put(old(guest.mem), Addresses(views[decided], gpa, stored), data[..stored])
      ensures !Blocked(views[decided], gpa, len) || |data| == len ==>
                (r == 0 <==> AllReachable(views[decided], old(guest.mem), gpa, |data|, true))
      ensures r == 0 && data != [] ==>
                guest.dirty == old(guest.dirty) + Bits(views[decided], gpa / PAGE, EndGfn(gpa, |data|))
      ensures r == 0 && data == [] ==>
                guest.dirty == old(guest.dirty) +
                  if memslot.Some? then Bits(views[decided], gpa / PAGE, gpa / PAGE + 1) else {}
    {
      hide AllReachable, Addresses, Range, AllIn, Put, Bits, Complete, Blocked, OneHolderEach, History, CurrentSince,
           Observed, AllSame, FindSlot, GfnToHva;
      decided, since' := Refresh(views, h, at, since);
      if memslot.None? {
        decided := |views| - 1;
        NothingPut(views[decided], guest.mem, gpa, data);
        r, stored := guest.WriteGuest(gpa, data);
        return;
      }
      if hva.None? {
        CachedError(views[decided], guest.mem, gpa, len);
        NothingPut(views[decided], guest.mem, gpa, data);
        return -EFAULT, decided, since', 0;
      }
      CachedAddress(views[decided], guest.mem, gpa, len, memslot, hva, |data|, true);
      var left := guest.CopyTo(hva.value, data);
      stored := |data| - left;
      CachedAddress(views[decided], guest.mem, gpa, len, memslot, hva, stored, true);
      if left != 0 { return -EFAULT, decided, since', stored; }
      MarkInSlot(guest, views[decided]);
      r := 0;
    }

    /** `mark_page_dirty_in_slot` on the cached slot. */
    method MarkInSlot(guest: Guest, ghost view: Memslots)
      requires memslot.Some? && memslot == FindSlot(view.slots, gpa / PAGE)
      modifies guest`dirty
      ensures guest.dirty == old(guest.dirty) + Bits(view, gpa / PAGE, gpa / PAGE + 1)
      ensures var s := memslot.value;
              guest.dirty == old(guest.dirty) + if s.hasBitmap then {(s.id, gpa / 0x1000 - s.baseGfn)} else {}
    {
      OneBit(view, gpa / PAGE);
      if memslot.value.hasBitmap {
        guest.dirty := guest.dirty + {(memslot.value.id, gpa / PAGE - memslot.value.baseGfn)};
      }
    }
  }
}
