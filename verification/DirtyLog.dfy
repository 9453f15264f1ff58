/** Dirty logging of one slot (kvm/kvm_main.c:652-663, 1672-1680; kvm/x86.c:3555-3633): marks made by any thread while
    the log is harvested.  A word of the bitmap is the set of its bits. */
module DirtyLog {

  const BITS := 64  // BITS_PER_LONG
  const EFAULT := 14

  type Word = w: set<nat> | forall b :: b in w ==> b < BITS

  const EMPTY: Word := {}

  /** The frames, relative to the slot, that the words stand for. */
  function Frames(words: seq<Word>): set<nat> {
    set f: nat | f < BITS * |words| && f % BITS in words[f / BITS]
  }

  function FramesOf(i: nat, word: Word): set<nat> { set b | b in word :: i * BITS + b }

  lemma NoFrames(i: nat)
    ensures FramesOf(i, EMPTY) == {} && Frames([]) == {}
  {
  }

  /** A frame is bit `f % 64` of word `f / 64`. */
  lemma FrameBits(words: seq<Word>)
    ensures forall f :: f in Frames(words) <==> 0 <= f && f / 64 < |words| && f % 64 in words[f / 64]
  {
  }

  lemma BitSet(words: seq<Word>, f: nat)
    requires f < BITS * |words|
    ensures Frames(words[f / BITS := words[f / BITS] + {f % BITS}]) == Frames(words) + {f}
  {
  }

  lemma WordCleared(words: seq<Word>, i: nat)
    requires i < |words|
    ensures Frames(words[i := EMPTY]) == Frames(words) - FramesOf(i, words[i])
    ensures FramesOf(i, words[i]) <= Frames(words)
  {
    assert forall f: nat :: f in Frames(words) && f / BITS == i ==> f == i * BITS + f % BITS;
  }

  lemma WordFilled(words: seq<Word>, i: nat, mask: Word)
    requires i < |words| && words[i] == {}
    ensures Frames(words[i := mask]) == Frames(words) + FramesOf(i, mask)
  {
    assert forall f: nat :: f < BITS * |words| && f / BITS == i ==> f == i * BITS + f % BITS;
  }

  lemma WordMembers(words: seq<Word>, i: nat)
    requires i < |words|
    ensures forall f: nat :: f / BITS == i ==> (f in Frames(words) <==> f in FramesOf(i, words[i]))
    ensures forall f: nat :: f in FramesOf(i, words[i]) ==> f / BITS == i
  {
    assert forall f: nat :: f / BITS == i ==> f == i * BITS + f % BITS;
  }

  /** What other threads do to a frame.  `Mark`: the kernel stores to it and calls `mark_page_dirty_in_slot`.
      `Store`: a vCPU stores to it through its TLB.  `Fault`: a vCPU's store faults, and the fault handler, under
      `mmu_lock`, marks the frame and maps it writable. */
  datatype Event = Mark(frame: nat) | Store(frame: nat) | Fault(frame: nat)

  predicate Allowed(events: seq<Event>, npages: nat, locked: bool) {
    forall e :: e in events ==> e.frame < npages && (locked ==> !e.Fault?)
  }

  /** The frames that the events mark. */
  function Marked(events: seq<Event>): set<nat> { set e | e in events && !e.Store? :: e.frame }

  lemma MarkedConcat(a: seq<Event>, b: seq<Event>)
    ensures Marked(a + b) == Marked(a) + Marked(b)
  {
    assert forall e :: e in a + b <==> e in a || e in b;
  }

  lemma MarkedSplit(events: seq<Event>, k: nat)
    requires k < |events|
    ensures Marked(events[..k + 1]) == Marked(events[..k]) + Marked([events[k]])
  {
    assert events[..k + 1] == events[..k] + [events[k]];
    assert forall e :: e in events[..k + 1] <==> e in events[..k] || e in [events[k]];
  }

  /** The events of several gaps, in order. */
  function Flat(gaps: seq<(seq<Event>, seq<Event>)>): seq<Event> {
    if gaps == [] then [] else Flat(gaps[..|gaps| - 1]) + (gaps[|gaps| - 1].0 + gaps[|gaps| - 1].1)
  }

  lemma FlatStart(gaps: seq<(seq<Event>, seq<Event>)>)
    ensures Marked(Flat(gaps[..0])) == {}
  {
  }

  lemma FlatSplit(gaps: seq<(seq<Event>, seq<Event>)>, k: nat)
    requires k < |gaps|
    ensures Marked(Flat(gaps[..k + 1])) == Marked(Flat(gaps[..k])) + Marked(gaps[k].0 + gaps[k].1)
  {
    assert gaps[..k + 1][..k] == gaps[..k];
    MarkedConcat(Flat(gaps[..k]), gaps[k].0 + gaps[k].1);
  }

  /** `kvm_dirty_bitmap_bytes` in words: the least number that has a bit for each page. */
  function WordsFor(npages: nat): (w: nat)
    ensures forall f: nat :: f < npages ==> f / BITS < w
    ensures npages <= w * 64 && (w > 0 ==> (w - 1) * 64 < npages)
  {
    (npages + BITS - 1) / BITS
  }

  class SlotLog {
    const npages: nat
    const bitmap: array<Word>
    var writable: set<nat>  // frames mapped writable
    var tlb: set<nat>       // frames that some vCPU can store to without a fault
    ghost var unreported: set<nat>  // frames stored to, and in no log delivered since

    ghost predicate Shaped()
    {
      bitmap.Length == 2 * WordsFor(npages)
    }

    function Live(): set<nat>
      requires Shaped()
      reads bitmap
    {
      Frames(bitmap[..WordsFor(npages)])
    }

    function Snapshot(): set<nat>
      requires Shaped()
      reads bitmap
    {
      Frames(bitmap[WordsFor(npages)..])
    }

    /** Between harvests every unreported store, and every frame that could be stored to unnoticed, is marked. */
    ghost predicate Valid()
      reads this, bitmap
    {
      Shaped() && writable <= tlb && tlb + unreported <= Live()
    }

    /** `kvm_create_dirty_bitmap`: both halves zeroed, and no frame mapped writable yet. */
    constructor (npages: nat)
      ensures Valid() && this.npages == npages && fresh(bitmap) && Live() == {} && unreported == {}
    {
      this.npages := npages;
      bitmap := new Word[2 * WordsFor(npages)](_ => {});
      writable, tlb, unreported := {}, {}, {};
    }

    /** `mark_page_dirty_in_slot`: only the live half changes. */
    method MarkPageDirty(frame: nat)
      requires Shaped() && frame < npages
      modifies bitmap
      ensures Live() == old(Live()) + {frame}
      ensures bitmap[WordsFor(npages)..] == old(bitmap[WordsFor(npages)..])
      ensures frame / 64 < bitmap.Length
      ensures bitmap[..] == old(bitmap[..])[frame / 64 := old(bitmap[..])[frame / 64] + {frame % 64}]
    {
      BitSet(bitmap[..WordsFor(npages)], frame);
      ghost var before := bitmap[..WordsFor(npages)];
      bitmap[frame / BITS] := bitmap[frame / BITS] + {frame % BITS};
      assert bitmap[..WordsFor(npages)] == before[frame / BITS := before[frame / BITS] + {frame % BITS}];
    }

    /** What holds at any time: a frame that is unreported, or could be stored to unnoticed, is marked or, during a
        harvest, in the snapshot. */
    ghost predicate Covered(locked: bool)
      reads this, bitmap
    {
      Shaped() && writable <= tlb && tlb + unreported <= Live() + if locked then Snapshot() else {}
    }

    /** One step of another thread. */
    method Step(e: Event, locked: bool)
      requires Covered(locked) && e.frame < npages && (locked ==> !e.Fault?)
      modifies bitmap, this
      ensures Covered(locked) && bitmap[WordsFor(npages)..] == old(bitmap[WordsFor(npages)..])
      ensures Snapshot() == old(Snapshot())
      ensures Live() == old(Live()) + Marked([e])
      ensures locked ==> writable == old(writable) && tlb == old(tlb)
      ensures old(unreported) + Marked([e]) <= unreported <= old(unreported) + Marked([e]) + tlb
    {
      hide Frames, WordsFor;
      assert Marked([e]) == if e.Store? then {} else {e.frame} by { assert e in [e]; }
      if e.Store? {
        if e.frame in tlb { unreported := unreported + {e.frame}; }
      } else {
        unreported := unreported + {e.frame};
        MarkPageDirty(e.frame);
        if e.Fault? {
          writable, tlb := writable + {e.frame}, tlb + {e.frame};
        }
      }
    }

    /** Some steps of other threads: their marks, and only those, are added to the live half. */
    method Others(events: seq<Event>, locked: bool)
      requires Covered(locked) && Allowed(events, npages, locked)
      modifies bitmap, this
      ensures Covered(locked) && bitmap[WordsFor(npages)..] == old(bitmap[WordsFor(npages)..])
      ensures Snapshot() == old(Snapshot())
      ensures Live() == old(Live()) + Marked(events)
      ensures locked ==> writable == old(writable) && tlb == old(tlb)
      ensures old(unreported) + Marked(events) <= unreported
      ensures locked ==> unreported <= old(unreported) + Marked(events) + tlb
    {
      assert Marked(events[..0]) == {} && Shaped();
      hide Covered, Live, Marked;
      var k := 0;
      while k < |events|
        invariant 0 <= k <= |events| && Covered(locked)
        invariant bitmap[WordsFor(npages)..] == old(bitmap[WordsFor(npages)..])
        invariant Live() == old(Live()) + Marked(events[..k])
        invariant locked ==> writable == old(writable) && tlb == old(tlb)
        invariant old(unreported) + Marked(events[..k]) <= unreported
        invariant locked ==> unreported <= old(unreported) + Marked(events[..k]) + tlb
      {
        MarkedSplit(events, k);
        Step(events[k], locked);
        k := k + 1;
      }
      assert events[..k] == events;
    }

    /** `xchg` on word `i`, and the store of its old value into the snapshot half. */
    method Exchange(i: nat) returns (mask: Word)
      requires Covered(true) && i < WordsFor(npages) && bitmap[WordsFor(npages) + i] == {}
      modifies bitmap
      ensures Covered(true) && mask == old(bitmap[i])
      ensures Live() == old(Live()) - FramesOf(i, mask) && FramesOf(i, mask) <= old(Live())
      ensures Snapshot() == old(Snapshot()) + FramesOf(i, mask)
      ensures bitmap[WordsFor(npages)..] == old(bitmap[WordsFor(npages)..])[i := mask]
    {
      hide Frames, FramesOf, WordsFor;
      var w := WordsFor(npages);
      ghost var live, snap := bitmap[..w], bitmap[w..];
      mask := bitmap[i];
      WordCleared(live, i);
      WordFilled(snap, i, mask);
      bitmap[i] := {};
      bitmap[w + i] := mask;
      assert bitmap[..w] == live[i := EMPTY] && bitmap[w..] == snap[i := mask];
    }

    /** The loop body for word `i`; `before` happens between the test and the exchange, `after` between the exchange
        and the write protection. */
    method HarvestWord(i: nat, before: seq<Event>, after: seq<Event>) returns (moved: bool)
      requires Covered(true) && writable <= Live() && i < WordsFor(npages) && bitmap[WordsFor(npages) + i] == {}
      requires Allowed(before, npages, true) && Allowed(after, npages, true)
      modifies bitmap, this
      ensures Covered(true) && writable <= Live()
      ensures Live() + Snapshot() == old(Live() + Snapshot()) + Marked(before + after)
      ensures old(Snapshot()) <= Snapshot() && (!moved ==> Snapshot() == old(Snapshot()))
      ensures forall f :: f in old(Live()) ==> if f / BITS == i then f in Snapshot() else f in Live()
      ensures forall f :: f in Live() ==> f in Marked(before + after) || (f in old(Live()) && f / BITS != i)
      ensures bitmap[WordsFor(npages) + i + 1..] == old(bitmap[WordsFor(npages) + i + 1..])
      ensures old(unreported) + Marked(before + after) <= unreported
      ensures tlb == old(tlb)
    {
      hide Frames, FramesOf, Marked, WordsFor, Allowed;
      MarkedConcat(before, after);
      var w := WordsFor(npages);
      ghost var live := bitmap[..w];
      var seen := bitmap[i];
      assert live[i] == seen;
      WordMembers(live, i);
      Others(before, true);
      if seen == {} {
        NoFrames(i);
        Others(after, true);
        assert bitmap[w + i + 1..] == bitmap[w..][i + 1..] && old(bitmap[w + i + 1..]) == old(bitmap[w..])[i + 1..];
        return false;
      }
      ghost var now := bitmap[..w];
      assert now[i] == bitmap[i];
      WordMembers(now, i);
      assert bitmap[w..][i] == {} && bitmap[w + i] == bitmap[w..][i];
      var mask := Exchange(i);
      Others(after, true);
      writable := writable - FramesOf(i, mask);  // kvm_mmu_write_protect_pt_masked
      moved := true;
    }

    /** The harvest under `mmu_lock`, with `gaps[i]` the steps of other threads around word `i`. */
    method Harvest(gaps: seq<(seq<Event>, seq<Event>)>) returns (isDirty: bool)
      requires Covered(true) && writable <= Live() && Snapshot() == {} && |gaps| == WordsFor(npages)
      requires forall k :: WordsFor(npages) <= k < bitmap.Length ==> bitmap[k] == {}
      requires forall g :: g in gaps ==> Allowed(g.0, npages, true) && Allowed(g.1, npages, true)
      modifies bitmap, this
      ensures Covered(true) && writable <= Live() && tlb == old(tlb) && (!isDirty ==> Snapshot() == {})
      ensures Live() + Snapshot() == old(Live()) + Marked(Flat(gaps))
      ensures old(Live()) <= Snapshot() && Live() <= Marked(Flat(gaps))
      ensures old(unreported) + Marked(Flat(gaps)) <= unreported
    {
      hide Frames, Marked, WordsFor, Allowed, Covered, Live, Snapshot, Flat;
      FlatStart(gaps);
      LiveBounded();
      isDirty := false;
      var i: nat := 0;
      while i < WordsFor(npages)
        invariant i <= WordsFor(npages) && Covered(true) && writable <= Live() && tlb == old(tlb)
        invariant forall k :: WordsFor(npages) + i <= k < bitmap.Length ==> bitmap[k] == {}
        invariant Live() + Snapshot() == old(Live()) + Marked(Flat(gaps[..i]))
        invariant forall f :: f in old(Live()) ==> if f / BITS < i then f in Snapshot() else f in Live()
        invariant forall f :: f in Live() ==> f in Marked(Flat(gaps[..i])) || (f in old(Live()) && f / BITS >= i)
        invariant !isDirty ==> Snapshot() == {}
        invariant old(unreported) + Marked(Flat(gaps[..i])) <= unreported
      {
        FlatSplit(gaps, i);
        assert gaps[i] in gaps;
        var tail := bitmap[WordsFor(npages) + i + 1..];
        var moved := HarvestWord(i, gaps[i].0, gaps[i].1);
        isDirty := isDirty || moved;
        assert forall k :: WordsFor(npages) + i + 1 <= k < bitmap.Length ==>
          bitmap[k] == tail[k - (WordsFor(npages) + i + 1)];
        i := i + 1;
      }
      assert gaps[..i] == gaps;
    }

    lemma LiveBounded()
      requires Covered(true)
      ensures Shaped() && forall f :: f in Live() ==> f / BITS < WordsFor(npages)
    {
    }

    /** The call up to the flush: the snapshot takes every mark made before `mmu_lock`, the live half keeps only later
        ones, and no frame can be stored to unnoticed any more. */
    method Collect(early: seq<Event>, gaps: seq<(seq<Event>, seq<Event>)>, last: seq<Event>)
      requires Valid() && |gaps| == WordsFor(npages)
      requires Allowed(early, npages, false) && Allowed(last, npages, true)
      requires forall g :: g in gaps ==> Allowed(g.0, npages, true) && Allowed(g.1, npages, true)
      modifies bitmap, this
      ensures Covered(true) && tlb <= Live()
      ensures Live() + Snapshot() == old(Live()) + Marked(early) + Marked(Flat(gaps)) + Marked(last)
      ensures old(Live()) + Marked(early) <= Snapshot() && Live() <= Marked(Flat(gaps)) + Marked(last)
      ensures old(unreported) + Marked(early) + Marked(Flat(gaps)) + Marked(last) <= unreported
    {
      hide Frames, Marked, WordsFor, Allowed, Live, Snapshot, Flat;
      Others(early, false);
      ClearSnapshot();
      var isDirty := Harvest(gaps);
      Others(last, true);
      if isDirty {
        tlb := writable;  // kvm_flush_remote_tlbs
      }
    }

    /** `kvm_vm_ioctl_get_dirty_log`: other threads run before `mmu_lock` is taken (`early`), while it is held (`gaps`,
        and `last` before the flush), and before the copy to user space (`late`).  `lost` are the frames whose stores
        no log will report: none if the copy succeeds; if it fails, every frame with an unreported store that was not
        marked again in time. */
    method GetDirtyLog(early: seq<Event>, gaps: seq<(seq<Event>, seq<Event>)>, last: seq<Event>, late: seq<Event>,
                       copyOk: bool)
      returns (r: int, log: seq<Word>, ghost lost: set<nat>)
      requires Valid() && |gaps| == WordsFor(npages)
      requires Allowed(early, npages, false) && Allowed(last, npages, true) && Allowed(late, npages, false)
      requires forall g :: g in gaps ==> Allowed(g.0, npages, true) && Allowed(g.1, npages, true)
      modifies bitmap, this
      ensures Valid() && r == if copyOk then 0 else -EFAULT
      ensures var later := Marked(Flat(gaps)) + Marked(last) + Marked(late);
              && Live() + Snapshot() == old(Live()) + Marked(early) + later
              && old(unreported) + Marked(early) + later <= unreported + lost + Frames(log)
              && (r != 0 ==> (old(unreported) + Marked(early)) - later <= lost)
      ensures lost !! Live() && (r == 0 ==> lost == {} && old(unreported) + Marked(early) <= Frames(log))
      ensures Frames(log) == if r == 0 then Snapshot() else {}
      ensures r == 0 ==> npages <= |log| * 64 && (|log| > 0 ==> (|log| - 1) * 64 < npages)
      ensures r == 0 ==>
                forall f :: f in old(unreported) + Marked(early) ==> f / 64 < |log| && f % 64 in log[f / 64]
    {
      hide Frames, Marked, WordsFor, Allowed, Live, Flat;
      Collect(early, gaps, last);
      ghost var snapshot := Snapshot();
      ghost var owed := unreported * snapshot;
      unreported := unreported - snapshot;
      Others(late, false);
      lost := {};
      log := [];
      NoFrames(0);
      if copyOk {
        log := bitmap[WordsFor(npages)..];
        assert Frames(log) == Snapshot();
        FrameBits(log);
        r := 0;
      } else {
        lost := owed - Live();
        unreported := unreported + owed * Live();
        r := -EFAULT;
      }
    }

    /** The `memset` of the snapshot half. */
    method ClearSnapshot()
      requires Shaped()
      modifies bitmap
      ensures Snapshot() == {} && bitmap[..WordsFor(npages)] == old(bitmap[..WordsFor(npages)]) && Live() == old(Live())
      ensures forall k :: WordsFor(npages) <= k < bitmap.Length ==> bitmap[k] == {}
    {
      hide WordsFor;
      var w := WordsFor(npages);
      var k := w;
      while k < bitmap.Length
        invariant w <= k <= bitmap.Length && bitmap[..w] == old(bitmap[..w])
        invariant forall j :: w <= j < k ==> bitmap[j] == {}
      {
        bitmap[k] := {};
        k := k + 1;
      }
    }
  }
}
