/** The frame allocator behind IMEE's private EPT (kvm/imee.c:918-1011) and the host memory it hands
    out.  Addresses are frame numbers; `__pa` and `__va` are the identity on them. */
module EptFrames {
  import opened EptEntry

  const NBASE := 4
  const CHUNK := 1024      // 1 << PAGE_ORDER
  const ENTRIES := 512     // PAGE_SIZE / sizeof (ulong)
  const CALLS := 4095      // (CHUNK - 1) + 3 * CHUNK
  const FRAME_LIMIT := 0x100_0000_0000   // host physical addresses fit in 52 bits

  /** A `u64*` into a page-table page. */
  datatype Slot = Slot(table: nat, idx: nat)

  type Memory = map<Slot, Epte>

  function Read(mem: Memory, s: Slot): Epte { if s in mem then mem[s] else ABSENT }

  ghost predicate Zeroed(mem: Memory, frame: nat) {
    forall i :: 0 <= i < ENTRIES ==> Read(mem, Slot(frame, i)) == ABSENT
  }

  /** First frame of the block that the k-th `__get_free_pages` call returns, 0 when it fails. */
  function Grant(grant: seq<nat>, k: nat): nat { if k < |grant| then grant[k] else 0 }

  function ChunkOf(n: nat): nat {
    if n < CHUNK then 0 else if n < 2 * CHUNK then 1 else if n < 3 * CHUNK then 2 else 3
  }

  predicate FirstOfChunk(n: nat) { n == ChunkOf(n) * CHUNK }

  /** The frame returned by the n-th call, 1 <= n <= CALLS, of a session whose first chunk is
      `Grant(grant, session)`. */
  function FrameAt(grant: seq<nat>, session: nat, n: nat): nat {
    Grant(grant, session + ChunkOf(n)) + (n - ChunkOf(n) * CHUNK)
  }

  /** Two granted blocks do not overlap and lie below 2^52. */
  predicate Separate(grant: seq<nat>, i: nat, j: nat) {
    var a, b := Grant(grant, i), Grant(grant, j);
    a + CHUNK <= FRAME_LIMIT && (i != j && a != 0 && b != 0 ==> a + CHUNK <= b || b + CHUNK <= a)
  }

  /** What `__get_free_pages` promises about blocks that it has not got back. */
  ghost predicate GrantsDisjoint(grant: seq<nat>) { forall i, j :: Separate(grant, i, j) }

  /** All chunks that the first `n` calls of a session need were granted. */
  ghost predicate Granted(grant: seq<nat>, session: nat, n: nat) {
    && Grant(grant, session) != 0
    && (n >= CHUNK ==> Grant(grant, session + 1) != 0)
    && (n >= 2 * CHUNK ==> Grant(grant, session + 2) != 0)
    && (n >= 3 * CHUNK ==> Grant(grant, session + 3) != 0)
  }

  /** If the n-th frame is the first of its chunk, the kernel grants it zeroed. */
  ghost predicate ArrivesZeroed(mem: Memory, grant: seq<nat>, session: nat, n: nat) {
    FirstOfChunk(n) && Granted(grant, session, n) ==> Zeroed(mem, FrameAt(grant, session, n))
  }

  ghost predicate Issued(grant: seq<nat>, session: nat, count: nat, frame: nat) {
    exists n :: 1 <= n <= count && FrameAt(grant, session, n) == frame
  }

  /** Frames of one session are pairwise distinct and lie inside their chunk. */
  lemma FramesDistinct(grant: seq<nat>, session: nat, m: nat, n: nat)
    requires GrantsDisjoint(grant) && Granted(grant, session, n) && m < n <= CALLS
    ensures FrameAt(grant, session, m) != FrameAt(grant, session, n)
    ensures FrameAt(grant, session, n) < FRAME_LIMIT
  {
    var c, d := session + ChunkOf(m), session + ChunkOf(n);
    assert Separate(grant, d, c);
  }

  lemma NextFrameIsNew(grant: seq<nat>, session: nat, count: nat)
    requires GrantsDisjoint(grant) && Granted(grant, session, count + 1) && count < CALLS
    ensures !Issued(grant, session, count, FrameAt(grant, session, count + 1))
  {
    forall n | 1 <= n <= count
      ensures FrameAt(grant, session, n) != FrameAt(grant, session, count + 1)
    {
      FramesDistinct(grant, session, n, count + 1);
    }
  }

  /** What one call gives, after `count` calls of the session gave frames; `base` is the current chunk, null if none. */
  ghost predicate Handed(grant: seq<nat>, session: nat, base: nat, count: nat, p: nat, base': nat, count': nat) {
    if base == 0 then p == 0 && base' == 0
    else if count >= CALLS then p == 0 && base' != 0 && count' == count
    else if !Granted(grant, session, count + 1) then p == 0 && base' == 0
    else p == FrameAt(grant, session, count + 1) && p != 0 && base' != 0 && count' == count + 1
  }

  ghost predicate Accounted(grant: seq<nat>, session: nat, count: nat, issued: set<nat>, frame: nat) {
    frame in issued ==> Issued(grant, session, count, frame) && frame < FRAME_LIMIT
  }

  /** Writes to the n-th frame do not reach a later one. */
  lemma StaysZeroed(mem: Memory, mem': Memory, grant: seq<nat>, session: nat, n: nat, m: nat)
    requires GrantsDisjoint(grant) && ArrivesZeroed(mem, grant, session, m) && n < m <= CALLS
    requires forall s: Slot :: s.table != FrameAt(grant, session, n) ==> Read(mem', s) == Read(mem, s)
    ensures ArrivesZeroed(mem', grant, session, m)
  {
    if Granted(grant, session, m) { FramesDistinct(grant, session, n, m); }
  }

  class FrameAllocator {
    var mem: Memory
    var pBases: seq<nat>
    var pBase: nat
    var pBaseIdx: nat
    var pIdx: nat
    const grant: seq<nat>            // the blocks the kernel will grant, in order
    var calls: nat                   // calls of `__get_free_pages` so far
    ghost var session: nat           // calls made before the current session
    ghost var outstanding: set<nat>  // blocks not given back
    ghost var count: nat             // frames handed out in this session
    ghost var issued: set<nat>       // the ones that table builders got
    ghost var asked: nat             // calls of `get_ept_page` in this session that found a chunk

    ghost predicate Valid()
      reads this
    {
      && (pBase != 0 ==>
            && Granted(grant, session, count)
            && count == (if pBaseIdx < NBASE then pBaseIdx * CHUNK + pIdx else CALLS)
            && if pBaseIdx < NBASE then pIdx < CHUNK && pBase == Grant(grant, session + pBaseIdx) &&
                calls == session + pBaseIdx + 1 && asked == count
               else pIdx >= CHUNK && calls == session + NBASE && asked > CALLS)
      && (pBase == 0 ==> pBaseIdx < NBASE && (asked == 0 || !Granted(grant, session, CALLS)))
    }

    /** What table builders rely on: `issued` is accounted for, and the first frames of the chunks still to
        come hold zeros when the kernel grants them. */
    ghost predicate Ready()
      reads this
      ensures Ready() ==> Valid()
    {
      && Valid() && GrantsDisjoint(grant)
      && (forall f :: Accounted(grant, session, count, issued, f))
      && (forall n :: count < n <= CALLS ==> ArrivesZeroed(mem, grant, session, n))
    }

    /** No block is remembered in `p_bases`, and none has gone back to the kernel. */
    ghost predicate AllOutstanding()
      reads this
    {
      && pBases == [0, 0, 0, 0]
      && forall k: nat {:trigger Grant(grant, k)} :: k < calls && Grant(grant, k) != 0 ==>
          Grant(grant, k) in outstanding
    }

    /** The next `n` calls cannot fail. */
    ghost predicate Provides(n: nat)
      reads this
    {
      pBase != 0 && count + n <= CALLS && Granted(grant, session, count + n)
    }

    constructor (grant: seq<nat>, mem: Memory)
      ensures Valid() && AllOutstanding() && pBase == 0 && calls == 0 && this.grant == grant &&
                this.mem == mem && outstanding == {} && issued == {}
    {
      this.grant, this.mem := grant, mem;
      pBases, pBase, pBaseIdx, pIdx := [0, 0, 0, 0], 0, 0, 0;
      calls, session, outstanding, count, issued, asked := 0, 0, {}, 0, {}, 0;
    }

    /** The C code passes `p_bases[p_base_idx]` by value, so the result never gets there. */
    method DoAllocEptFrames() returns (base: nat)
      modifies this`calls, this`outstanding
      ensures base == Grant(grant, old(calls)) && calls == old(calls) + 1
      ensures outstanding == if base != 0 then old(outstanding) + {base} else old(outstanding)
    {
      base := Grant(grant, calls);
      calls := calls + 1;
      outstanding := if base != 0 then outstanding + {base} else outstanding;
    }

    method InitEptFrames()
      requires Valid()
      modifies this
      ensures Valid() && mem == old(mem)
      ensures old(pBase) != 0 ==> unchanged(this)
      ensures old(pBase) == 0 ==>
                session == old(calls) && pBase == Grant(grant, session) && count == 0 && issued == {} && asked == 0
      ensures old(AllOutstanding()) ==> AllOutstanding()
    {
      if pBase == 0 {
        pIdx, pBaseIdx := 0, 0;
        session, count, issued, asked := calls, 0, {}, 0;
        pBase := DoAllocEptFrames();
      }
    }

    /** `free_pages` ignores a null block; the `p_bases` entries are never anything else. */
    method FreePages(base: nat)
      modifies this`outstanding
      ensures outstanding == if base == 0 then old(outstanding) else old(outstanding) - {base}
    {
      outstanding := if base == 0 then outstanding else outstanding - {base};
    }

    /** Gives nothing back: every block granted so far stays outstanding.  `ok` is false when the loop reads behind
        `p_bases`, which happens exactly if a session with all four chunks granted asked for a 4096th frame; what
        `free_pages` then gets is not known. */
    method ReleaseEptFrames() returns (ok: bool)
      requires Valid() && AllOutstanding()
      modifies this
      ensures ok <==> !(old(asked) > CALLS && Granted(grant, old(session), CALLS))
      ensures ok ==> Valid() && pBase == 0 && pIdx == 0 && pBaseIdx == 0
      ensures AllOutstanding() && mem == old(mem) && calls == old(calls) && outstanding == old(outstanding)
    {
      var i := 0;
      while i <= pBaseIdx
        invariant 0 <= i <= pBaseIdx + 1 && i <= NBASE && pBases == [0, 0, 0, 0] && outstanding == old(outstanding)
        invariant unchanged(this`mem) && unchanged(this`calls) && unchanged(this`session) && unchanged(this`pBaseIdx)
      {
        if i == NBASE { return false; }
        FreePages(pBases[i]);
        pBases := pBases[i := 0];
        i := i + 1;
      }
      pBaseIdx, pBase, pIdx, count, issued, asked := 0, 0, 0, 0, {}, 0;
      ok := true;
    }

    method ClearPage(p: nat)
      modifies this`mem
      ensures Zeroed(mem, p)
      ensures forall s: Slot :: s.table != p ==> Read(mem, s) == Read(old(mem), s)
    {
      var i := 0;
      while i < ENTRIES
        invariant 0 <= i <= ENTRIES
        invariant forall j :: 0 <= j < i ==> Read(mem, Slot(p, j)) == ABSENT
        invariant forall s: Slot :: s.table != p ==> Read(mem, s) == Read(old(mem), s)
      {
        mem := mem[Slot(p, i) := ABSENT];
        i := i + 1;
      }
    }

    /** The branch of `get_ept_page` taken when the current chunk is used up. */
    method NextChunk() returns (p: nat)
      requires Valid() && pBase != 0 && pIdx + 1 >= CHUNK
      modifies this`pBase, this`pBaseIdx, this`pIdx, this`calls, this`outstanding, this`count, this`asked
      ensures Valid()
      ensures p == if old(count) == CALLS then 0 else Grant(grant, session + ChunkOf(old(count) + 1))
      ensures pBase == 0 <==> p == 0 && old(count) < CALLS
      ensures pBase != 0 ==> count == if old(count) == CALLS then CALLS else old(count) + 1
      ensures asked == old(asked) + 1
      ensures old(AllOutstanding()) ==> AllOutstanding()
    {
      asked := asked + 1;
      pIdx := pIdx + 1;
      pBaseIdx := pBaseIdx + 1;
      if pBaseIdx < NBASE {
        pBase := DoAllocEptFrames();
        pIdx := 0;
        p := pBase;
        count := count + 1;
      } else {
        p := 0;
      }
    }

    /** The n-th call of a session returns `FrameAt(grant, session, n)` as long as n <= 4095 and the kernel
        grants its chunk; every other call returns null.  The frame is cleared unless it is the first of
        its chunk. */
    method GetEptPage() returns (p: nat)
      requires Valid()
      modifies this`mem, this`pBase, this`pBaseIdx, this`pIdx, this`calls, this`outstanding, this`count, this`asked
      ensures Valid()
      ensures Handed(grant, session, old(pBase), old(count), p, pBase, count)
      ensures asked == if old(pBase) == 0 then old(asked) else old(asked) + 1
      ensures p == 0 || FirstOfChunk(count) ==> mem == old(mem)
      ensures p != 0 && !FirstOfChunk(count) ==> Zeroed(mem, p)
      ensures forall s: Slot :: s.table != p ==> Read(mem, s) == Read(old(mem), s)
      ensures old(AllOutstanding()) ==> AllOutstanding()
    {
      if pBase != 0 {
        if pIdx + 1 < CHUNK {
          pIdx := pIdx + 1;
          count, asked := count + 1, asked + 1;
          p := pBase + pIdx;
          ClearPage(p);
        } else {
          p := NextChunk();
        }
      } else {
        p := 0;
      }
    }

    /** `get_ept_page` as its callers use it.  With frames to spare that arrive zeroed, it gives a zeroed frame that
        nothing uses yet. */
    method GetTableFrame() returns (p: nat)
      requires Valid()
      modifies this
      ensures Valid() && session == old(session)
      ensures Handed(grant, session, old(pBase), old(count), p, pBase, count)
      ensures forall s: Slot :: s.table != p ==> Read(mem, s) == Read(old(mem), s)
      ensures old(Ready() && Provides(1)) ==>
                && Ready() && p !in old(issued) && issued == old(issued) + {p}
                && 0 < p < FRAME_LIMIT && Zeroed(mem, p)
    {
      hide Granted, FirstOfChunk, FrameAt, ArrivesZeroed, Zeroed, Issued, GrantsDisjoint;
      ghost var careful := Ready() && Provides(1);
      ghost var was, before, n := mem, issued, count;
      if careful { NextFrame(); }
      p := GetEptPage();
      if careful {
        issued := issued + {p};
        RemainsReady(was, before, n);
      }
    }

    /** The frame that the next call gives. */
    lemma NextFrame()
      requires Ready() && Provides(1)
      ensures var f := FrameAt(grant, session, count + 1);
              && pBase != 0 && count < CALLS && Granted(grant, session, count + 1)
              && f !in issued && 0 < f < FRAME_LIMIT && (FirstOfChunk(count + 1) ==> Zeroed(mem, f))
    {
      NextFrameIsNew(grant, session, count);
      FramesDistinct(grant, session, 0, count + 1);
      assert ArrivesZeroed(mem, grant, session, count + 1);
      assert Accounted(grant, session, count, issued, FrameAt(grant, session, count + 1));
    }

    /** Handing out the frame after the n-th keeps the account and the frames still to come. */
    lemma RemainsReady(was: Memory, before: set<nat>, n: nat)
      requires Valid() && GrantsDisjoint(grant) && count == n + 1 <= CALLS && Granted(grant, session, count)
      requires forall f :: Accounted(grant, session, n, before, f)
      requires forall m :: n < m <= CALLS ==> ArrivesZeroed(was, grant, session, m)
      requires var p := FrameAt(grant, session, count);
               && issued == before + {p} && p < FRAME_LIMIT
               && forall s: Slot :: s.table != p ==> Read(mem, s) == Read(was, s)
      ensures Ready()
    {
      var p := FrameAt(grant, session, count);
      forall f
        ensures Accounted(grant, session, count, issued, f)
      {
        assert Accounted(grant, session, n, before, f);
      }
      forall m | count < m <= CALLS
        ensures ArrivesZeroed(mem, grant, session, m)
      {
        StaysZeroed(was, mem, grant, session, count, m);
      }
    }

    /** Writing one entry of a page-table page that was handed out. */
    method Store(s: Slot, e: Epte)
      requires Ready() && s.table in issued
      modifies this`mem
      ensures Ready() && mem == old(mem)[s := e]
    {
      assert Accounted(grant, session, count, issued, s.table);
      ghost var k :| 1 <= k <= count && FrameAt(grant, session, k) == s.table;
      ghost var was := mem;
      mem := mem[s := e];
      forall m | count < m <= CALLS
        ensures ArrivesZeroed(mem, grant, session, m)
      {
        StaysZeroed(was, mem, grant, session, k, m);
      }
    }
  }
}
