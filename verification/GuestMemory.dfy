/** Guest memory copies split over pages (kvm/kvm_main.c:1010-1104, 1456-1555, 1672-1688).  One call sees one slot
    table.  Host memory is a map from the addresses that can be accessed to their bytes. */
module GuestMemory {
  import opened Wrappers
  import opened Memslots

  const EFAULT := 14

  type Byte = b: nat | b < 256
  type Host = map<nat, Byte>

  // ----- translation

  predicate Holds(s: Slot, gfn: nat) { s.baseGfn <= gfn < s.baseGfn + s.npages }

  /** `__gfn_to_memslot`: the first slot of the table that holds the frame. */
  function FindSlot(s: seq<Slot>, gfn: nat): (r: Option<Slot>)
    ensures r.Some? ==> r.value in s && Holds(r.value, gfn)
    ensures r.None? ==> forall k :: 0 <= k < |s| ==> !Holds(s[k], gfn)
  {
    if s == [] then None else if Holds(s[0], gfn) then Some(s[0]) else FindSlot(s[1..], gfn)
  }

  /** `__gfn_to_hva_many`: no slot, a slot being removed and a write to a read-only slot have no address. */
  function Hva(s: Option<Slot>, gfn: nat, write: bool): Option<nat>
    requires s.Some? ==> Holds(s.value, gfn)
  {
    if s.None? || s.value.invalid || (s.value.readonly && write) then None
    else Some(s.value.userAddr + (gfn - s.value.baseGfn) * PAGE)
  }

  function GfnToHva(m: Memslots, gfn: nat, write: bool): Option<nat> { Hva(FindSlot(m.slots, gfn), gfn, write) }

  /** The guest byte at `gpa` can be reached. */
  predicate Reachable(m: Memslots, mem: Host, gpa: nat, write: bool) {
    GfnToHva(m, gpa / PAGE, write).Some? && GfnToHva(m, gpa / PAGE, write).value + gpa % PAGE in mem
  }

  /** The host address of the guest byte at `gpa`, for reading. */
  function At(m: Memslots, gpa: nat): nat {
    match GfnToHva(m, gpa / PAGE, false)
    case None => 0
    case Some(hva) => hva + gpa % PAGE
  }

  predicate AllReachable(m: Memslots, mem: Host, gpa: nat, n: nat, write: bool) {
    forall g :: gpa <= g < gpa + n ==> Reachable(m, mem, g, write)
  }

  /** Host addresses that follow each other. */
  function Range(addr: nat, n: nat): (r: seq<nat>)
    ensures |r| == n && forall i :: 0 <= i < n ==> r[i] == addr + i
  {
    seq<nat>(n, (i: nat) => addr + i)
  }

  predicate AllIn(mem: Host, addr: nat, n: nat) { forall a :: addr <= a < addr + n ==> a in mem }

  function Addresses(m: Memslots, gpa: nat, n: nat): (r: seq<nat>)
    ensures |r| == n
  {
    seq<nat>(n, (i: nat) => At(m, gpa + i))
  }

  // ----- storing bytes in order

  /** `data[i]` is stored at `addrs[i]`, in order. */
  function Put(mem: Host, addrs: seq<nat>, data: seq<Byte>): (r: Host)
    requires |addrs| == |data|
  {
    if data == [] then mem
    else Put(mem, addrs[..|data| - 1], data[..|data| - 1])[addrs[|data| - 1] := data[|data| - 1]]
  }

  lemma {:induction false} PutAppend(mem: Host, a: seq<nat>, d: seq<Byte>, b: seq<nat>, e: seq<Byte>)
    requires |a| == |d| && |b| == |e|
    ensures Put(mem, a + b, d + e) == Put(Put(mem, a, d), b, e)
  {
    if e == [] {
      assert a + b == a && d + e == d;
    } else {
      var n := |e| - 1;
      PutAppend(mem, a, d, b[..n], e[..n]);
      assert (a + b)[..|d + e| - 1] == a + b[..n] && (d + e)[..|d + e| - 1] == d + e[..n];
    }
  }

  /** The byte stored last at an address. */
  lemma {:induction false} PutLast(mem: Host, addrs: seq<nat>, data: seq<Byte>, i: nat)
    requires |addrs| == |data| && i < |data| && addrs[i] !in addrs[i + 1..]
    ensures addrs[i] in Put(mem, addrs, data) && Put(mem, addrs, data)[addrs[i]] == data[i]
  {
    var n := |data| - 1;
    if i < n {
      assert addrs[i + 1..][n - i - 1] == addrs[n];
      assert addrs[i + 1..] == addrs[..n][i + 1..] + [addrs[n]];
      PutLast(mem, addrs[..n], data[..n], i);
    }
  }

  lemma {:induction false} PutOthers(mem: Host, addrs: seq<nat>, data: seq<Byte>, h: nat)
    requires |addrs| == |data|
    ensures h in Put(mem, addrs, data) <==> h in mem || h in addrs
    ensures h !in addrs && h in mem ==> Put(mem, addrs, data)[h] == mem[h]
  {
    if data != [] {
      var n := |data| - 1;
      PutOthers(mem, addrs[..n], data[..n], h);
      assert addrs == addrs[..n] + [addrs[n]];
    }
  }

  /** The last byte stored at an address stays there, and every other address keeps its byte. */
  lemma PutLookup(mem: Host, addrs: seq<nat>, data: seq<Byte>, h: nat)
    requires |addrs| == |data|
    ensures h in Put(mem, addrs, data) <==> h in mem || h in addrs
    ensures h !in addrs && h in mem ==> Put(mem, addrs, data)[h] == mem[h]
    ensures forall i :: 0 <= i < |data| && addrs[i] == h && h !in addrs[i + 1..] ==> Put(mem, addrs, data)[h] == data[i]
  {
    hide Put;
    PutOthers(mem, addrs, data, h);
    forall i | 0 <= i < |data| && addrs[i] == h && h !in addrs[i + 1..]
      ensures Put(mem, addrs, data)[h] == data[i]
    {
      PutLast(mem, addrs, data, i);
    }
  }

  // ----- dirty marks

  predicate Marks(m: Memslots, gfn: nat) {
    var s := FindSlot(m.slots, gfn);
    s.Some? && s.value.hasBitmap
  }

  /** The bit that stands for a frame: its slot and its offset in the slot. */
  function Bit(m: Memslots, gfn: nat): (nat, nat)
    requires Marks(m, gfn)
  {
    var s := FindSlot(m.slots, gfn).value;
    (s.id, gfn - s.baseGfn)
  }

  function Bits(m: Memslots, from: nat, to: nat): set<(nat, nat)> {
    set gfn | from <= gfn < to && Marks(m, gfn) :: Bit(m, gfn)
  }

  /** The first frame after `n` bytes from `gpa`. */
  function EndGfn(gpa: nat, n: nat): nat { if n == 0 then gpa / PAGE else (gpa + n - 1) / PAGE + 1 }

  /** `next_segment`. */
  function NextSegment(len: nat, offset: nat): nat
    requires offset < PAGE
  {
    if len > PAGE - offset then PAGE - offset else len
  }

  /** The bytes at `addrs`, in order. */
  ghost predicate Fetched(mem: Host, addrs: seq<nat>, data: seq<Byte>) {
    |data| == |addrs| && forall i :: 0 <= i < |data| ==> addrs[i] in mem && data[i] == mem[addrs[i]]
  }

  // ----- the same on the slots' own fields

  /** A frame's slot is the first of the table that holds it. */
  lemma {:induction false} FirstHolder(s: seq<Slot>, gfn: nat, k: nat)
    requires k <= |s| && forall j :: 0 <= j < k ==> gfn < s[j].baseGfn || s[j].baseGfn + s[j].npages <= gfn
    ensures k == |s| ==> FindSlot(s, gfn) == None
    ensures k < |s| && s[k].baseGfn <= gfn < s[k].baseGfn + s[k].npages ==> FindSlot(s, gfn) == Some(s[k])
  {
    if k > 0 { FirstHolder(s[1..], gfn, k - 1); }
  }

  /** A guest byte can be reached exactly if its slot is neither being removed nor, for a write, read-only, and the
      host byte that lies as far from the slot's host address as the guest byte from its base can be accessed. */
  lemma ByteFields(m: Memslots, mem: Host, g: nat, write: bool)
    ensures var s := FindSlot(m.slots, g / 0x1000);
            && (Reachable(m, mem, g, write) <==>
                  && s.Some? && !s.value.invalid && !(write && s.value.readonly)
                  && s.value.userAddr + (g - s.value.baseGfn * 0x1000) in mem)
            && (Reachable(m, mem, g, write) ==>
                  At(m, g) == s.value.userAddr + (g - s.value.baseGfn * 0x1000))
  {
  }

  lemma RangeFields(m: Memslots, mem: Host, gpa: nat, n: nat, write: bool)
    ensures AllReachable(m, mem, gpa, n, write) <==>
              forall g :: gpa <= g < gpa + n ==>
                var s := FindSlot(m.slots, g / 0x1000);
                && s.Some? && !s.value.invalid && !(write && s.value.readonly)
                && s.value.userAddr + (g - s.value.baseGfn * 0x1000) in mem
  {
    hide FindSlot, Reachable, At;
    if AllReachable(m, mem, gpa, n, write) {
      forall g | gpa <= g < gpa + n
        ensures var s := FindSlot(m.slots, g / 0x1000);
                && s.Some? && !s.value.invalid && !(write && s.value.readonly)
                && s.value.userAddr + (g - s.value.baseGfn * 0x1000) in mem
      {
        ByteFields(m, mem, g, write);
        assert Reachable(m, mem, g, write);
      }
    } else {
      var g :| gpa <= g < gpa + n && !Reachable(m, mem, g, write);
      ByteFields(m, mem, g, write);
    }
  }

  /** The host addresses of a range that can be reached. */
  lemma AddressFields(m: Memslots, mem: Host, gpa: nat, n: nat, write: bool)
    requires AllReachable(m, mem, gpa, n, write)
    ensures forall g :: gpa <= g < gpa + n ==>
              var s := FindSlot(m.slots, g / 0x1000);
              s.Some? && Addresses(m, gpa, n)[g - gpa] == s.value.userAddr + (g - s.value.baseGfn * 0x1000)
  {
    hide FindSlot, Reachable, At;
    forall g | gpa <= g < gpa + n
      ensures var s := FindSlot(m.slots, g / 0x1000);
              s.Some? && Addresses(m, gpa, n)[g - gpa] == s.value.userAddr + (g - s.value.baseGfn * 0x1000)
    {
      ByteFields(m, mem, g, write);
      assert Reachable(m, mem, g, write);
      assert Addresses(m, gpa, n)[g - gpa] == At(m, gpa + (g - gpa));
    }
  }

  /** The bits of some frames: for each whose slot has a bitmap, the slot and the frame's offset from its base. */
  lemma BitFields(m: Memslots, from: nat, to: nat, id: nat, offset: nat)
    ensures (id, offset) in Bits(m, from, to) <==>
              exists gfn :: from <= gfn < to
                && (var s := FindSlot(m.slots, gfn);
                    s.Some? && s.value.hasBitmap && s.value.id == id && gfn == s.value.baseGfn + offset)
  {
    if (id, offset) in Bits(m, from, to) {
      var gfn :| from <= gfn < to && Marks(m, gfn) && Bit(m, gfn) == (id, offset);
      assert FindSlot(m.slots, gfn).value.id == id && gfn == FindSlot(m.slots, gfn).value.baseGfn + offset;
    } else {
      forall gfn | from <= gfn < to && FindSlot(m.slots, gfn).Some? && FindSlot(m.slots, gfn).value.hasBitmap
        ensures (FindSlot(m.slots, gfn).value.id, gfn - FindSlot(m.slots, gfn).value.baseGfn) != (id, offset)
      {
        assert Marks(m, gfn) && Bit(m, gfn) in Bits(m, from, to);
      }
    }
  }

  /** Some byte of the range lies in a frame whose slot has a bitmap, at this offset from the base of this slot. */
  ghost predicate Touched(m: Memslots, gpa: nat, n: nat, id: nat, offset: nat) {
    exists g :: gpa <= g < gpa + n
      && (var s := FindSlot(m.slots, g / 0x1000);
          s.Some? && s.value.hasBitmap && s.value.id == id && g / 0x1000 == s.value.baseGfn + offset)
  }

  lemma BitsAreTouched(m: Memslots, gpa: nat, n: nat)
    ensures forall id: nat, offset: nat ::
              (id, offset) in Bits(m, gpa / PAGE, EndGfn(gpa, n)) <==> Touched(m, gpa, n, id, offset)
  {
    hide Bits, FindSlot, Touched;
    forall id: nat, offset: nat
      ensures (id, offset) in Bits(m, gpa / PAGE, EndGfn(gpa, n)) <==> Touched(m, gpa, n, id, offset)
    {
      BitIsTouched(m, gpa, n, id, offset);
    }
  }

  lemma BitIsTouched(m: Memslots, gpa: nat, n: nat, id: nat, offset: nat)
    ensures (id, offset) in Bits(m, gpa / PAGE, EndGfn(gpa, n)) <==> Touched(m, gpa, n, id, offset)
  {
    hide Bits, FindSlot;
    BitFields(m, gpa / PAGE, EndGfn(gpa, n), id, offset);
    if (id, offset) in Bits(m, gpa / PAGE, EndGfn(gpa, n)) {
      var gfn :| gpa / PAGE <= gfn < EndGfn(gpa, n)
        && (var s := FindSlot(m.slots, gfn);
            s.Some? && s.value.hasBitmap && s.value.id == id && gfn == s.value.baseGfn + offset);
      var g := if gpa < gfn * PAGE then gfn * PAGE else gpa;
      assert gpa <= g < gpa + n && g / 0x1000 == gfn;
      assert FindSlot(m.slots, g / 0x1000) == FindSlot(m.slots, gfn);
    }
    if Touched(m, gpa, n, id, offset) {
      var g :| gpa <= g < gpa + n
        && (var s := FindSlot(m.slots, g / 0x1000);
            s.Some? && s.value.hasBitmap && s.value.id == id && g / 0x1000 == s.value.baseGfn + offset);
      var gfn := g / 0x1000;
      assert gpa / PAGE <= gfn < EndGfn(gpa, n) && FindSlot(m.slots, gfn).Some?;
    }
  }

  // ----- one page at a time

  /** One byte of a page. */
  lemma InPage(m: Memslots, mem: Host, gfn: nat, g: nat, write: bool)
    requires GfnToHva(m, gfn, write).Some? && gfn * PAGE <= g < gfn * PAGE + PAGE
    ensures At(m, g) == GfnToHva(m, gfn, write).value + (g - gfn * PAGE)
    ensures Reachable(m, mem, g, write) <==> At(m, g) in mem
  {
    hide FindSlot;
    assert g / PAGE == gfn;
    assert GfnToHva(m, gfn, false) == GfnToHva(m, gfn, write);
  }

  /** Within a page the host addresses follow each other. */
  lemma PageAddresses(m: Memslots, mem: Host, gfn: nat, offset: nat, n: nat, write: bool)
    requires GfnToHva(m, gfn, write).Some? && offset + n <= PAGE
    ensures Addresses(m, gfn * PAGE + offset, n) == Range(GfnToHva(m, gfn, write).value + offset, n)
    ensures AllReachable(m, mem, gfn * PAGE + offset, n, write) <==>
              AllIn(mem, GfnToHva(m, gfn, write).value + offset, n)
  {
    hide At, GfnToHva, Reachable;
    var hva, gpa := GfnToHva(m, gfn, write).value, gfn * PAGE + offset;
    forall g | gpa <= g < gpa + n
      ensures At(m, g) == hva + (g - gfn * PAGE) && (Reachable(m, mem, g, write) <==> At(m, g) in mem)
    {
      InPage(m, mem, gfn, g, write);
    }
    if AllReachable(m, mem, gpa, n, write) {
      forall a | hva + offset <= a < hva + offset + n
        ensures a in mem
      {
        assert Reachable(m, mem, a - hva + gfn * PAGE, write);
      }
    }
  }

  lemma Unreached(m: Memslots, mem: Host, gfn: nat, offset: nat, n: nat, write: bool)
    requires GfnToHva(m, gfn, write).None? && offset + n <= PAGE && n > 0
    ensures !AllReachable(m, mem, gfn * PAGE + offset, n, write)
  {
    assert !Reachable(m, mem, gfn * PAGE + offset, write);
  }

  lemma NothingPut(m: Memslots, mem: Host, gpa: nat, data: seq<Byte>)
    ensures Put(mem, Addresses(m, gpa, 0), data[..0]) == mem && AllReachable(m, mem, gpa, 0, true)
    ensures Bits(m, gpa / PAGE, EndGfn(gpa, 0)) == {}
  {
  }

  lemma OneBit(m: Memslots, gfn: nat)
    ensures Bits(m, gfn, gfn + 1) == if Marks(m, gfn) then {Bit(m, gfn)} else {}
  {
    if Marks(m, gfn) {
      assert Bit(m, gfn) in Bits(m, gfn, gfn + 1);
    }
  }

  lemma BitsSplit(m: Memslots, from: nat, mid: nat, to: nat)
    requires from <= mid <= to
    ensures Bits(m, from, to) == Bits(m, from, mid) + Bits(m, mid, to)
  {
  }

  lemma ReachableSplit(m: Memslots, mem: Host, gpa: nat, a: nat, b: nat, write: bool)
    ensures AllReachable(m, mem, gpa, a + b, write) <==>
              AllReachable(m, mem, gpa, a, write) && AllReachable(m, mem, gpa + a, b, write)
  {
    if AllReachable(m, mem, gpa, a, write) && AllReachable(m, mem, gpa + a, b, write) {
      forall g | gpa <= g < gpa + (a + b)
        ensures Reachable(m, mem, g, write)
      {
        assert g < gpa + a || gpa + a <= g < gpa + a + b;
      }
    }
  }

  lemma AddressesSplit(m: Memslots, gpa: nat, a: nat, b: nat)
    ensures Addresses(m, gpa, a + b) == Addresses(m, gpa, a) + Addresses(m, gpa + a, b)
  {
    hide At;
  }

  lemma SameKeys(m: Memslots, mem: Host, mem': Host, gpa: nat, n: nat, write: bool)
    requires mem.Keys == mem'.Keys
    ensures AllReachable(m, mem, gpa, n, write) <==> AllReachable(m, mem', gpa, n, write)
  {
    forall g
      ensures Reachable(m, mem, g, write) <==> Reachable(m, mem', g, write)
    {
      assert forall a :: a in mem.Keys <==> a in mem'.Keys;
    }
  }

  /** A segment of which `n` bytes are stored extends what was stored before. */
  lemma Stitch(m: Memslots, mem: Host, gpa: nat, done: nat, data: seq<Byte>, n: nat, seg: nat)
    requires n <= seg && done + seg <= |data|
    ensures Put(Put(mem, Addresses(m, gpa, done), data[..done]), Addresses(m, gpa + done, n),
              data[done..done + seg][..n]) ==
              Put(mem, Addresses(m, gpa, done + n), data[..done + n])
    ensures AllReachable(m, mem, gpa, done + seg, true) <==>
              AllReachable(m, mem, gpa, done, true) && AllReachable(m, mem, gpa + done, seg, true)
    ensures AllReachable(m, mem, gpa, |data|, true) ==> AllReachable(m, mem, gpa, done + seg, true)
  {
    hide AllReachable, Addresses, Put;
    AddressesSplit(m, gpa, done, n);
    assert data[..done + n] == data[..done] + data[done..done + seg][..n];
    PutAppend(mem, Addresses(m, gpa, done), data[..done], Addresses(m, gpa + done, n), data[done..done + seg][..n]);
    ReachableSplit(m, mem, gpa, done, seg, true);
    ReachableSplit(m, mem, gpa, done + seg, |data| - done - seg, true);
  }

  // ----- what a write means to the guest

  /** No two bytes of the range that share a host byte differ in `data`. */
  ghost predicate Consistent(addrs: seq<nat>, data: seq<Byte>)
    requires |addrs| == |data|
  {
    forall i, j :: 0 <= i < j < |data| && addrs[i] == addrs[j] ==> data[i] == data[j]
  }

  /** Bytes stored at `addrs` are fetched back exactly when the data is consistent. */
  lemma {:induction false} FetchAfterPut(mem: Host, addrs: seq<nat>, data: seq<Byte>)
    requires |addrs| == |data|
    ensures Fetched(Put(mem, addrs, data), addrs, data) <==> Consistent(addrs, data)
  {
    var after := Put(mem, addrs, data);
    if Fetched(after, addrs, data) {
      assert forall i :: 0 <= i < |data| ==> data[i] == after[addrs[i]];
    } else if Consistent(addrs, data) {
      forall i | 0 <= i < |data|
        ensures addrs[i] in after && after[addrs[i]] == data[i]
      {
        PutLookup(mem, addrs, data, addrs[i]);
        var j := LastIndex(addrs, i);
        assert after[addrs[i]] == data[j];
      }
      assert false;
    }
  }

  lemma LastIndex(addrs: seq<nat>, i: nat) returns (j: nat)
    requires i < |addrs|
    ensures i <= j < |addrs| && addrs[j] == addrs[i] && addrs[i] !in addrs[j + 1..]
  {
    j := |addrs| - 1;
    while addrs[j] != addrs[i]
      invariant i <= j < |addrs| && addrs[i] !in addrs[j + 1..]
      decreases j
    {
      assert addrs[j..] == [addrs[j]] + addrs[j + 1..];
      j := j - 1;
    }
  }

  ghost predicate HostApart(a: Slot, b: Slot) {
    a.userAddr + a.npages * PAGE <= b.userAddr || b.userAddr + b.npages * PAGE <= a.userAddr
  }

  /** Different slots have different host ranges. */
  ghost predicate NoAlias(m: Memslots) {
    forall a, b {:trigger HostApart(a, b)} :: a in m.slots && b in m.slots && a != b ==> HostApart(a, b)
  }

  lemma WritableIsReadable(m: Memslots, mem: Host, gpa: nat, n: nat)
    requires AllReachable(m, mem, gpa, n, true)
    ensures AllReachable(m, mem, gpa, n, false)
  {
    forall g | gpa <= g < gpa + n
      ensures Reachable(m, mem, g, false)
    {
      assert Reachable(m, mem, g, true);
    }
  }

  /** Without aliases, different guest bytes are different host bytes. */
  lemma DistinctHomes(m: Memslots, mem: Host, g: nat, g': nat)
    requires NoAlias(m) && Reachable(m, mem, g, false) && Reachable(m, mem, g', false) && g != g'
    ensures At(m, g) != At(m, g')
  {
    var s, s' := FindSlot(m.slots, g / PAGE).value, FindSlot(m.slots, g' / PAGE).value;
    if s != s' {
      assert HostApart(s, s');
    }
  }

  /** What the guest reads after `n` bytes of `data` were written at `gpa`: the written bytes in the range, and
      what was there before everywhere else. */
  lemma GuestSees(m: Memslots, mem: Host, gpa: nat, data: seq<Byte>, g: nat)
    requires NoAlias(m) && AllReachable(m, mem, gpa, |data|, true) && Reachable(m, mem, g, false)
    ensures var after := Put(mem, Addresses(m, gpa, |data|), data);
            At(m, g) in after && after[At(m, g)] == if gpa <= g < gpa + |data| then data[g - gpa] else mem[At(m, g)]
  {
    assert At(m, g) in mem;
    hide AllReachable, Reachable, Addresses, Put, At, GfnToHva, NoAlias;
    var addrs := Addresses(m, gpa, |data|);
    WritableIsReadable(m, mem, gpa, |data|);
    OneHome(m, mem, gpa, |data|, g);
    PutLookup(mem, addrs, data, At(m, g));
    if gpa <= g < gpa + |data| {
      var j := LastIndex(addrs, g - gpa);
      assert addrs[g - gpa] == At(m, g) == addrs[j];
    }
  }

  lemma OneHome(m: Memslots, mem: Host, gpa: nat, n: nat, g: nat)
    requires NoAlias(m) && AllReachable(m, mem, gpa, n, false) && Reachable(m, mem, g, false)
    ensures forall i :: 0 <= i < n ==> (Addresses(m, gpa, n)[i] == At(m, g) <==> i == g - gpa)
  {
    hide At, Reachable, NoAlias;
    forall i | 0 <= i < n && gpa + i != g
      ensures Addresses(m, gpa, n)[i] != At(m, g)
    {
      DistinctHomes(m, mem, gpa + i, g);
    }
  }

  lemma NoAliasIsConsistent(m: Memslots, mem: Host, gpa: nat, data: seq<Byte>)
    requires NoAlias(m) && AllReachable(m, mem, gpa, |data|, false)
    ensures Consistent(Addresses(m, gpa, |data|), data)
  {
    hide At, Reachable, NoAlias;
    forall i, j | 0 <= i < j < |data|
      ensures Addresses(m, gpa, |data|)[i] != Addresses(m, gpa, |data|)[j]
    {
      DistinctHomes(m, mem, gpa + i, gpa + j);
    }
  }

  /** The bits of a range are those of the frames that hold a byte of it. */
  lemma DirtyIsTouched(m: Memslots, gpa: nat, n: nat, gfn: nat)
    requires Inverse(m) && Marks(m, gfn)
    ensures Bit(m, gfn) in Bits(m, gpa / PAGE, EndGfn(gpa, n)) <==> exists g :: gpa <= g < gpa + n && g / PAGE == gfn
  {
    forall f | Marks(m, f) && Bit(m, f) == Bit(m, gfn)
      ensures f == gfn
    {
      SameId(m, FindSlot(m.slots, f).value, FindSlot(m.slots, gfn).value);
    }
    if gpa / PAGE <= gfn < EndGfn(gpa, n) {
      var g := if gpa < gfn * PAGE then gfn * PAGE else gpa;
      assert gpa <= g < gpa + n && g / PAGE == gfn;
    }
    if g :| gpa <= g < gpa + n && g / PAGE == gfn {
      assert gpa / PAGE <= gfn < EndGfn(gpa, n);
    }
  }

  lemma SameId(m: Memslots, a: Slot, b: Slot)
    requires Inverse(m) && a in m.slots && b in m.slots && a.id == b.id
    ensures a == b
  {
  }

  /** After a write that failed, a stored byte is in a marked page exactly unless it shares the page in which the
      copy stopped: that page is changed without a mark. */
  lemma TornPage(m: Memslots, gpa: nat, stored: nat, g: nat)
    requires Inverse(m) && gpa <= g < gpa + stored && Marks(m, g / PAGE)
    ensures Bit(m, g / PAGE) in Bits(m, gpa / PAGE, (gpa + stored) / PAGE) <==> g / PAGE != (gpa + stored) / PAGE
  {
    forall f | Marks(m, f) && Bit(m, f) == Bit(m, g / PAGE)
      ensures f == g / PAGE
    {
      SameId(m, FindSlot(m.slots, f).value, FindSlot(m.slots, g / PAGE).value);
    }
  }

  class Guest {
    var memslots: Memslots
    var mem: Host
    var dirty: set<(nat, nat)>

    /** `__copy_to_user`: a fault stops the copy after a prefix. */
    method CopyTo(addr: nat, data: seq<Byte>) returns (left: nat)
      modifies this`mem
      ensures left <= |data| && mem == Put(old(mem), Range(addr, |data| - left), data[..|data| - left])
      ensures left == 0 <==> AllIn(old(mem), addr, |data|)
      ensures mem.Keys == old(mem).Keys
    {
      var n: nat := 0;
      while n < |data| && addr + n in mem
        invariant n <= |data| && mem == Put(old(mem), Range(addr, n), data[..n])
        invariant AllIn(old(mem), addr, n)
        invariant mem.Keys == old(mem).Keys
      {
        mem := mem[addr + n := data[n]];
        assert data[..n + 1][..n] == data[..n];
        assert Range(addr, n + 1)[..n] == Range(addr, n);
        n := n + 1;
      }
      left := |data| - n;
    }

    /** `mark_page_dirty`. */
    method MarkPageDirty(gfn: nat)
      modifies this`dirty
      ensures dirty == old(dirty) + Bits(memslots, gfn, gfn + 1)
      ensures var s := FindSlot(memslots.slots, gfn);
              dirty == old(dirty) +
                if s.Some? && s.value.hasBitmap then {(s.value.id, gfn - s.value.baseGfn)} else {}
    {
      var slot := FindSlot(memslots.slots, gfn);
      OneBit(memslots, gfn);
      if slot.Some? && slot.value.hasBitmap {
        dirty := dirty + {(slot.value.id, gfn - slot.value.baseGfn)};
      }
    }

    /** `kvm_write_guest_page`. */
    method WriteGuestPage(gfn: nat, data: seq<Byte>, offset: nat) returns (r: int, ghost stored: nat)
      requires offset + |data| <= PAGE && data != []
      modifies this`mem, this`dirty
      ensures r == 0 || r == -EFAULT
      ensures r == 0 <==> AllReachable(memslots, old(mem), gfn * PAGE + offset, |data|, true)
      ensures stored <= |data| && (r == 0 <==> stored == |data|)
      ensures mem == Put(old(mem), Addresses(memslots, gfn * PAGE + offset, stored), data[..stored])
      ensures mem.Keys == old(mem).Keys
      ensures dirty == old(dirty) + if r == 0 then Bits(memslots, gfn, gfn + 1) else {}
    {
      hide AllReachable, AllIn, Addresses, Range, Put, Bits, FindSlot, Fetched;
      var addr := GfnToHva(memslots, gfn, true);
      if addr.None? {
        Unreached(memslots, mem, gfn, offset, |data|, true);
        NothingPut(memslots, mem, gfn * PAGE + offset, data);
        return -EFAULT, 0;
      }
      var left := CopyTo(addr.value + offset, data);
      stored := |data| - left;
      PageAddresses(memslots, old(mem), gfn, offset, |data|, true);
      PageAddresses(memslots, old(mem), gfn, offset, stored, true);
      if left != 0 { return -EFAULT, stored; }
      MarkPageDirty(gfn);
      r := 0;
    }

    /** `kvm_write_guest`.  It succeeds exactly when every byte can be reached; then all of `data` is stored in order
        and exactly the pages of the range are marked.  Otherwise a prefix is stored, and the page where it ends is
        not marked although part of it may have been written. */
    method WriteGuest(gpa: nat, data: seq<Byte>) returns (r: int, ghost stored: nat)
      modifies this`mem, this`dirty
      ensures r == 0 || r == -EFAULT
      ensures r == 0 <==> AllReachable(memslots, old(mem), gpa, |data|, true)
      ensures stored <= |data| && (r == 0 <==> stored == |data|)
      ensures mem == Put(old(mem), Addresses(memslots, gpa, stored), data[..stored]) && mem.Keys == old(mem).Keys
      ensures dirty == old(dirty) +
                Bits(memslots, gpa / PAGE, if r == 0 then EndGfn(gpa, |data|) else (gpa + stored) / PAGE)
      ensures r == 0 <==>
                forall g :: gpa <= g < gpa + |data| ==>
                  var s := FindSlot(memslots.slots, g / 0x1000);
                  && s.Some? && !s.value.invalid && !s.value.readonly
                  && s.value.userAddr + (g - s.value.baseGfn * 0x1000) in old(mem)
      ensures r == 0 ==>
                forall g :: gpa <= g < gpa + |data| ==>
                  var s := FindSlot(memslots.slots, g / 0x1000);
                  && s.Some?
                  && Addresses(memslots, gpa, |data|)[g - gpa] == s.value.userAddr + (g - s.value.baseGfn * 0x1000)
      ensures r == 0 ==>
                forall id: nat, offset: nat :: (id, offset) in dirty <==>
                  (id, offset) in old(dirty) || Touched(memslots, gpa, |data|, id, offset)
    {
      hide AllReachable, Addresses, Put, Bits, FindSlot, Touched, Fetched, Marks, Reachable, GfnToHva, At;
      RangeFields(memslots, mem, gpa, |data|, true);
      var gfn, offset: nat, len: nat, done: nat := gpa / PAGE, gpa % PAGE, |data|, 0;
      NothingPut(memslots, mem, gpa, data);
      while NextSegment(len, offset) != 0
        invariant offset < PAGE && done + len == |data| && gfn == EndGfn(gpa, done)
        invariant len > 0 ==> gpa + done == gfn * PAGE + offset
        invariant AllReachable(memslots, old(mem), gpa, done, true)
        invariant mem == Put(old(mem), Addresses(memslots, gpa, done), data[..done]) && mem.Keys == old(mem).Keys
        invariant dirty == old(dirty) + Bits(memslots, gpa / PAGE, gfn)
        decreases len
      {
        var seg := NextSegment(len, offset);
        var piece := data[done..done + seg];
        var before := mem;
        var ret;
        ghost var n;
        ret, n := WriteGuestPage(gfn, piece, offset);
        SameKeys(memslots, before, old(mem), gpa + done, seg, true);
        Stitch(memslots, old(mem), gpa, done, data, n, seg);
        if ret < 0 {
          return ret, done + n;
        }
        BitsSplit(memslots, gpa / PAGE, gfn, gfn + 1);
        offset, len, done, gfn := 0, len - seg, done + seg, gfn + 1;
      }
      assert data[..done] == data;
      AddressFields(memslots, old(mem), gpa, |data|, true);
      BitsAreTouched(memslots, gpa, |data|);
      return 0, done;
    }

    /** `__copy_from_user`. */
    method CopyFrom(addr: nat, len: nat) returns (left: nat, data: seq<Byte>)
      ensures left == 0 <==> AllIn(mem, addr, len)
      ensures left == 0 ==> Fetched(mem, Range(addr, len), data)
    {
      var n: nat := 0;
      data := [];
      while n < len && addr + n in mem
        invariant n <= len && AllIn(mem, addr, n) && Fetched(mem, Range(addr, n), data)
      {
        data := data + [mem[addr + n]];
        n := n + 1;
      }
      left := len - n;
    }

    /** `kvm_read_guest_page`. */
    method ReadGuestPage(gfn: nat, offset: nat, len: nat) returns (r: int, data: seq<Byte>)
      requires 0 < len && offset + len <= PAGE
      ensures r == 0 || r == -EFAULT
      ensures r == 0 <==> AllReachable(memslots, mem, gfn * PAGE + offset, len, false)
      ensures r == 0 ==> Fetched(mem, Addresses(memslots, gfn * PAGE + offset, len), data)
    {
      hide AllReachable, AllIn, Addresses, Range, Put, Bits, FindSlot, Fetched;
      var addr := GfnToHva(memslots, gfn, false);
      if addr.None? {
        Unreached(memslots, mem, gfn, offset, len, false);
        return -EFAULT, [];
      }
      var left;
      left, data := CopyFrom(addr.value + offset, len);
      PageAddresses(memslots, mem, gfn, offset, len, false);
      r := if left != 0 then -EFAULT else 0;
    }

    /** `kvm_read_guest`. */
    method ReadGuest(gpa: nat, size: nat) returns (r: int, data: seq<Byte>)
      ensures r == 0 || r == -EFAULT
      ensures r == 0 <==> AllReachable(memslots, mem, gpa, size, false)
      ensures r == 0 ==> Fetched(mem, Addresses(memslots, gpa, size), data)
      ensures r == 0 <==>
                forall g :: gpa <= g < gpa + size ==>
                  var s := FindSlot(memslots.slots, g / 0x1000);
                  && s.Some? && !s.value.invalid && s.value.userAddr + (g - s.value.baseGfn * 0x1000) in mem
      ensures r == 0 ==>
                && |data| == size
                && forall g :: gpa <= g < gpa + size ==>
                     var s := FindSlot(memslots.slots, g / 0x1000);
                     && s.Some? && var home := s.value.userAddr + (g - s.value.baseGfn * 0x1000);
                     home in mem && data[g - gpa] == mem[home]
    {
      assert AllReachable(memslots, mem, gpa, 0, false);
      hide AllReachable, Reachable, At, GfnToHva, FindSlot;
      RangeFields(memslots, mem, gpa, size, false);
      var gfn, offset: nat, len: nat := gpa / PAGE, gpa % PAGE, size;
      data := [];
      while NextSegment(len, offset) != 0
        invariant offset < PAGE && |data| + len == size
        invariant len > 0 ==> gpa + |data| == gfn * PAGE + offset
        invariant AllReachable(memslots, mem, gpa, |data|, false)
        invariant Fetched(mem, Addresses(memslots, gpa, |data|), data)
        decreases len
      {
        var seg := NextSegment(len, offset);
        var ret, piece := ReadGuestPage(gfn, offset, seg);
        ReachableSplit(memslots, mem, gpa, |data|, seg, false);
        ReachableSplit(memslots, mem, gpa, |data| + seg, len - seg, false);
        if ret < 0 { return ret, data; }
        AddressesSplit(memslots, gpa, |data|, seg);
        data := data + piece;
        offset, len, gfn := 0, len - seg, gfn + 1;
      }
      AddressFields(memslots, mem, gpa, size, false);
      r := 0;
    }

    /** A write followed by a read of the same range.  Without aliases among the slots the read returns the data. */
    method WriteThenRead(gpa: nat, data: seq<Byte>) returns (r: int, back: seq<Byte>)
      modifies this`mem, this`dirty
      ensures r == 0 <==> AllReachable(memslots, old(mem), gpa, |data|, true)
      ensures r == 0 ==> (back == data <==> Consistent(Addresses(memslots, gpa, |data|), data))
      ensures r == 0 && NoAlias(memslots) ==> back == data
    {
      hide AllReachable, Reachable, At, GfnToHva, FindSlot, Put, NoAlias, Bits;
      ghost var stored;
      r, stored := WriteGuest(gpa, data);
      if r != 0 { return r, []; }
      var addrs := Addresses(memslots, gpa, |data|);
      assert data[..stored] == data;
      FetchAfterPut(old(mem), addrs, data);
      WritableIsReadable(memslots, old(mem), gpa, |data|);
      SameKeys(memslots, old(mem), mem, gpa, |data|, false);
      var ret;
      ret, back := ReadGuest(gpa, |data|);
      if NoAlias(memslots) {
        NoAliasIsConsistent(memslots, old(mem), gpa, data);
      }
    }
  }
}
