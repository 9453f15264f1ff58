/** Emulated memory accesses (kvm/x86.c:3923-3963, 4171-4326, 6209-6252): one access is split over two pages, in-kernel
    devices and exits to user space, and reads are put together again. */
module Mmio {
  import opened Wrappers

  const PAGE := 0x1000
  const PIECE := 8
  const MAX_FRAGMENTS := 2  // KVM_MAX_MMIO_FRAGMENTS

  type Byte = b: nat | b < 256

  /** Who takes a span: guest memory, an in-kernel device (its `k`-th piece of that page), or user space. */
  datatype Place = Ram | Device(k: nat) | User
  /** A stretch of the access: its bytes are `off` up to `off + len`, and it starts at `gpa`. */
  datatype Span = Span(off: nat, gpa: nat, len: nat, place: Place)
  /** The bytes that moved for one span. */
  datatype Transfer = Transfer(span: Span, data: seq<Byte>)

  /** `kvm_mmio_fragment`; `data` is an index into the access's buffer. */
  datatype Fragment = Fragment(gpa: nat, data: nat, len: nat)
  /** The `mmio` part of `kvm_run`. */
  datatype Exit = Exit(physAddr: nat, data: seq<Byte>, len: nat, isWrite: bool)

  /** What one page answers.  `ram`: the copy from or to guest memory succeeds, and gives these bytes on a read.
      `devices`: the in-kernel devices take this many pieces of up to 8 bytes, and give these bytes on a read. */
  datatype Page = Fault | Page(gpa: nat, ram: Option<seq<Byte>>, devices: seq<seq<Byte>>)

  datatype Rc = Continue | PropagateFault | IoNeeded

  function Min(a: nat, b: nat): nat { if a < b then a else b }

  // ----- how an access is laid out

  /** The spans follow each other from `a` to `b`. */
  ghost predicate Tiles(s: seq<Span>, a: nat, b: nat) {
    if s == [] then a == b
    else s[|s| - 1].len > 0 && s[|s| - 1].off + s[|s| - 1].len == b && Tiles(s[..|s| - 1], a, s[|s| - 1].off)
  }

  /** Pieces of at most 8 bytes, in order. */
  function Chunks(off: nat, gpa: nat, len: nat): (r: seq<Span>)
    ensures len > 0 ==> r != []
    decreases len
  {
    if len == 0 then []
    else [Span(off, gpa, Min(len, PIECE), User)] +
         Chunks(off + Min(len, PIECE), gpa + Min(len, PIECE), len - Min(len, PIECE))
  }

  function Users(s: seq<Span>): seq<Span> {
    if s == [] then [] else Users(s[..|s| - 1]) + if s[|s| - 1].place.User? then [s[|s| - 1]] else []
  }

  function Handled(s: seq<Span>): seq<Span> {
    if s == [] then [] else Handled(s[..|s| - 1]) + if s[|s| - 1].place.User? then [] else [s[|s| - 1]]
  }

  /** The exits still owed for some fragments. */
  function Plan(f: seq<Fragment>): (r: seq<Span>) {
    if f == [] then [] else Chunks(f[0].data, f[0].gpa, f[0].len) + Plan(f[1..])
  }

  predicate Answers(page: Page, len: nat) {
    page.Page? ==> (page.ram.Some? ==> |page.ram.value| == len) && forall d :: d in page.devices ==> |d| == PIECE
  }

  /** The pieces that the devices take, the k-th first, of which there are at most `n`. */
  function DeviceSpans(off: nat, gpa: nat, len: nat, k: nat, n: nat): seq<Span>
    requires k <= n
    decreases len
  {
    if len == 0 || k == n then []
    else [Span(off, gpa, Min(len, PIECE), Device(k))] +
         DeviceSpans(off + Min(len, PIECE), gpa + Min(len, PIECE), len - Min(len, PIECE), k + 1, n)
  }

  /** Behind `before` come the devices' pieces: the k-th one, then those of the rest. */
  lemma NextDevice(before: seq<Span>, off: nat, gpa: nat, len: nat, k: nat, n: nat)
    requires k <= n
    ensures len == 0 || k == n ==> before + DeviceSpans(off, gpa, len, k, n) == before
    ensures len > 0 && k < n ==>
              var m := Min(len, PIECE);
              before + DeviceSpans(off, gpa, len, k, n) ==
                before + [Span(off, gpa, m, Device(k))] + DeviceSpans(off + m, gpa + m, len - m, k + 1, n)
  {
  }

  /** Where the bytes of one page go: all to guest memory if it takes them, else to the devices as long as they take
      pieces, and the rest to user space. */
  function PageSpans(off: nat, len: nat, page: Page): seq<Span>
    requires page.Page?
  {
    if page.ram.Some? then [Span(off, page.gpa, len, Ram)]
    else
      var handled := Min(len, PIECE * |page.devices|);
      DeviceSpans(off, page.gpa, len, 0, |page.devices|) + Chunks(off + handled, page.gpa + handled, len - handled)
  }

  /** One access.  Its first `now` bytes lie in the page `first`, the others in `second`; `now` is 0 for an access
      within one page. */
  datatype Access = Access(now: nat, first: Page, second: Page, write: bool) {
    function PageOf(off: nat): Page { if off < now then first else second }

    ghost predicate InOnePage(off: nat, len: nat) { off < now ==> off + len <= now }

    /** Where the translation puts byte `off`. */
    function GpaOf(off: nat): nat
      requires PageOf(off).Page?
    {
      if off < now then first.gpa + off else second.gpa + (off - now)
    }

    /** Where byte `off` lies in its page's part of the access. */
    function Rel(off: nat): nat { if off < now then off else off - now }

    /** A span is where the translation puts it, within a page, and with the taker that the page has for it: guest
        memory takes all or nothing, the k-th piece of 8 bytes goes to the k-th device that answers, and user space
        gets what lies behind those. */
    ghost predicate Placed(s: Span) {
      && PageOf(s.off).Page? && s.gpa == GpaOf(s.off) && InOnePage(s.off, s.len) && (!s.place.Ram? ==> s.len <= 8)
      && var page := PageOf(s.off);
         match s.place
         case Ram => page.ram.Some? && Rel(s.off) == 0
         case Device(k) => page.ram.None? && k < |page.devices| && Rel(s.off) == 8 * k
         case User => page.ram.None? && 8 * |page.devices| <= Rel(s.off)
    }

    /** A read got these bytes from the memory or device that took the span. */
    ghost predicate Honest(t: Transfer) {
      !write && PageOf(t.span.off).Page? ==>
        match t.span.place
        case Ram => PageOf(t.span.off).ram == Some(t.data)
        case Device(k) => k < |PageOf(t.span.off).devices| && t.data <= PageOf(t.span.off).devices[k]
        case User => true
    }
  }

  predicate Inside(f: Fragment, n: nat) { f.len > 0 && f.data + f.len <= n }

  predicate Crosses(addr: nat, len: nat) { addr % PAGE + len > PAGE }

  function SecondLen(addr: nat, len: nat): nat { if Crosses(addr, len) then addr % PAGE + len - PAGE else len }

  /** Where the bytes of an access go that does not fault. */
  function AccessSpans(acc: Access, bytes: nat): seq<Span>
    requires acc.now <= bytes && acc.second.Page? && (acc.now > 0 ==> acc.first.Page?)
  {
    (if acc.now > 0 then PageSpans(0, acc.now, acc.first) else []) + PageSpans(acc.now, bytes - acc.now, acc.second)
  }

  /** The transfer agrees with the buffer. */
  ghost predicate Kept(t: Transfer, val: seq<Byte>) {
    |t.data| == t.span.len && t.span.off + t.span.len <= |val| && val[t.span.off..t.span.off + t.span.len] == t.data
  }

  function Spans(m: seq<Transfer>): (r: seq<Span>)
    ensures |r| == |m|
  {
    seq(|m|, (i: nat) requires i < |m| => m[i].span)
  }

  /** The buffer with `data` at `off`. */
  function Spliced(val: seq<Byte>, off: nat, data: seq<Byte>): (r: seq<Byte>)
    requires off + |data| <= |val|
    ensures |r| == |val|
  {
    val[..off] + data + val[off + |data|..]
  }

  lemma {:induction false} TilesAppend(s: seq<Span>, t: seq<Span>, a: nat, b: nat, c: nat)
    requires Tiles(s, a, b) && Tiles(t, b, c)
    ensures Tiles(s + t, a, c)
  {
    if t == [] {
      assert s + t == s;
    } else {
      TilesAppend(s, t[..|t| - 1], a, b, t[|t| - 1].off);
      assert (s + t)[..|s + t| - 1] == s + t[..|t| - 1];
    }
  }

  lemma {:induction false} UsersAppend(s: seq<Span>, t: seq<Span>)
    ensures Users(s + t) == Users(s) + Users(t) && Handled(s + t) == Handled(s) + Handled(t)
  {
    if t == [] {
      assert s + t == s;
    } else {
      UsersAppend(s, t[..|t| - 1]);
      assert (s + t)[..|s + t| - 1] == s + t[..|t| - 1];
    }
  }

  lemma {:induction false} ChunksTile(off: nat, gpa: nat, len: nat)
    ensures Tiles(Chunks(off, gpa, len), off, off + len)
    decreases len
  {
    if len > 0 {
      var n := Min(len, PIECE);
      var first := [Span(off, gpa, n, User)];
      assert first[..0] == [];
      ChunksTile(off + n, gpa + n, len - n);
      TilesAppend(first, Chunks(off + n, gpa + n, len - n), off, off + n, off + len);
    }
  }

  /** The pieces of a fragment lie within it, have at most 8 bytes and are all for user space. */
  lemma {:induction false} ChunkMembers(off: nat, gpa: nat, len: nat, s: Span)
    requires s in Chunks(off, gpa, len)
    ensures s.place.User? && off <= s.off < s.off + s.len <= off + len && s.gpa == gpa + (s.off - off)
    ensures (s.off - off) % 8 == 0 && s.len <= 8 && (s.len == 8 || s.off + s.len == off + len)
    decreases len
  {
    var n := Min(len, PIECE);
    if s != Span(off, gpa, n, User) {
      ChunkMembers(off + n, gpa + n, len - n, s);
    }
  }

  lemma {:induction false} UsersAll(s: seq<Span>)
    requires forall x :: x in s ==> x.place.User?
    ensures Users(s) == s && Handled(s) == []
  {
    if s != [] {
      UsersAll(s[..|s| - 1]);
      assert s == s[..|s| - 1] + [s[|s| - 1]];
    }
  }

  /** Two spans of a layout are apart. */
  lemma {:induction false} TilesApart(s: seq<Span>, a: nat, b: nat, i: nat, j: nat)
    requires Tiles(s, a, b) && i < j < |s|
    ensures a <= s[i].off && s[i].len > 0 && s[i].off + s[i].len <= s[j].off && s[j].off + s[j].len <= b && s[j].len > 0
  {
    var n := |s| - 1;
    if j < n {
      TilesApart(s[..n], a, s[n].off, i, j);
    } else {
      TilesWithin(s[..n], a, s[n].off, i);
    }
  }

  lemma {:induction false} TilesWithin(s: seq<Span>, a: nat, b: nat, i: nat)
    requires Tiles(s, a, b) && i < |s|
    ensures a <= s[i].off && s[i].len > 0 && s[i].off + s[i].len <= b
  {
    var n := |s| - 1;
    TilesStart(s, a, b);
    if i < n {
      TilesWithin(s[..n], a, s[n].off, i);
      TilesStart(s[..n], a, s[n].off);
    } else {
      TilesStart(s[..n], a, s[n].off);
    }
  }

  lemma {:induction false} TilesStart(s: seq<Span>, a: nat, b: nat)
    requires Tiles(s, a, b)
    ensures a <= b
  {
    if s != [] {
      TilesStart(s[..|s| - 1], a, s[|s| - 1].off);
    }
  }

  /** Every byte of the access lies in a span of the layout. */
  lemma {:induction false} TilesCover(s: seq<Span>, a: nat, b: nat, o: nat) returns (i: nat)
    requires Tiles(s, a, b) && a <= o < b
    ensures i < |s| && s[i].off <= o < s[i].off + s[i].len
  {
    var n := |s| - 1;
    if s[n].off <= o {
      i := n;
    } else {
      i := TilesCover(s[..n], a, s[n].off, o);
    }
  }

  lemma {:induction false} UsersMembers(s: seq<Span>, x: Span)
    ensures x in Users(s) <==> x in s && x.place.User?
    ensures x in Handled(s) <==> x in s && !x.place.User?
  {
    if s != [] {
      UsersMembers(s[..|s| - 1], x);
      assert s == s[..|s| - 1] + [s[|s| - 1]];
    }
  }

  lemma {:induction false} PlanAppend(f: seq<Fragment>, g: Fragment)
    ensures Plan(f + [g]) == Plan(f) + Chunks(g.data, g.gpa, g.len)
  {
    if f == [] {
      assert f + [g] == [g] && [g][1..] == [];
    } else {
      PlanAppend(f[1..], g);
      assert (f + [g])[1..] == f[1..] + [g];
    }
  }

  /** Transfers of what is laid out so far are not touched by a change behind it. */
  lemma KeptBelow(layout: seq<Span>, moved: seq<Transfer>, val: seq<Byte>, val': seq<Byte>, upto: nat)
    requires Tiles(layout, 0, upto) && upto <= |val| == |val'| && val[..upto] == val'[..upto]
    requires Spans(moved) == Handled(layout) && forall t :: t in moved ==> Kept(t, val)
    ensures forall t :: t in moved ==> Kept(t, val')
  {
    forall t | t in moved
      ensures Kept(t, val')
    {
      var i :| 0 <= i < |moved| && moved[i] == t;
      assert t.span == Spans(moved)[i];
      UsersMembers(layout, t.span);
      var j :| 0 <= j < |layout| && layout[j] == t.span;
      TilesWithin(layout, 0, upto, j);
      assert val[t.span.off..t.span.off + t.span.len] == val[..upto][t.span.off..t.span.off + t.span.len];
      assert val'[t.span.off..t.span.off + t.span.len] == val'[..upto][t.span.off..t.span.off + t.span.len];
    }
  }

  lemma OneMore(layout: seq<Span>, span: Span)
    requires Tiles(layout, 0, span.off) && span.len > 0
    ensures Tiles(layout + [span], 0, span.off + span.len)
    ensures Handled(layout + [span]) == Handled(layout) + if span.place.User? then [] else [span]
    ensures Users(layout + [span]) == Users(layout) + if span.place.User? then [span] else []
  {
    assert (layout + [span])[..|layout|] == layout;
  }

  lemma NoChunks(off: nat, gpa: nat)
    ensures Chunks(off, gpa, 0) == []
  {
  }

  lemma FragmentLaidOut(acc: Access, layout: seq<Span>, f: Fragment)
    requires Tiles(layout, 0, f.data) && acc.InOnePage(f.data, f.len)
    requires acc.PageOf(f.data).Page? && f.gpa == acc.GpaOf(f.data)
    requires acc.PageOf(f.data).ram.None? && 8 * |acc.PageOf(f.data).devices| <= acc.Rel(f.data)
    ensures var c := Chunks(f.data, f.gpa, f.len);
            && Tiles(layout + c, 0, f.data + f.len) && Users(layout + c) == Users(layout) + c
            && Handled(layout + c) == Handled(layout) && forall s :: s in c ==> acc.Placed(s)
  {
    hide Tiles, Users, Handled;
    var c := Chunks(f.data, f.gpa, f.len);
    ChunksTile(f.data, f.gpa, f.len);
    TilesAppend(layout, c, 0, f.data, f.data + f.len);
    forall s | s in c
      ensures s.place.User? && acc.Placed(s)
    {
      ChunkMembers(f.data, f.gpa, f.len, s);
    }
    UsersAll(c);
    UsersAppend(layout, c);
  }

  /** The user spans of a layout keep its order, and so do the handled ones. */
  lemma {:induction false} KeepOrder(s: seq<Span>, a: nat, b: nat, i: nat, j: nat)
    requires Tiles(s, a, b) && i < j
    ensures j < |Users(s)| ==> Users(s)[i].off + Users(s)[i].len <= Users(s)[j].off
    ensures j < |Handled(s)| ==> Handled(s)[i].off + Handled(s)[i].len <= Handled(s)[j].off
  {
    if s != [] {
      var n := |s| - 1;
      KeepOrder(s[..n], a, s[n].off, i, j);
      if j == |Users(s[..n])| { Earlier(s[..n], a, s[n].off, Users(s[..n])[i]); }
      if j == |Handled(s[..n])| { Earlier(s[..n], a, s[n].off, Handled(s[..n])[i]); }
    }
  }

  lemma Earlier(s: seq<Span>, a: nat, b: nat, u: Span)
    requires Tiles(s, a, b) && (u in Users(s) || u in Handled(s))
    ensures u.off + u.len <= b
  {
    UsersMembers(s, u);
    var k :| 0 <= k < |s| && s[k] == u;
    TilesWithin(s, a, b, k);
  }

  /** The next user span is apart from everything that has moved. */
  lemma NextIsApart(layout: seq<Span>, n: nat, done: seq<Span>, s: Span, rest: seq<Span>, t: Span)
    requires Tiles(layout, 0, n) && done + [s] + rest == Handled(layout) + Users(layout)
    requires |done| >= |Handled(layout)| && t in done
    ensures t.off + t.len <= s.off || s.off + s.len <= t.off
    ensures s in layout && s.off + s.len <= n && s.len > 0
  {
    var h := |Handled(layout)|;
    assert (done + [s] + rest)[|done|] == s == Users(layout)[|done| - h];
    UsersMembers(layout, s);
    var l :| 0 <= l < |layout| && layout[l] == s;
    TilesWithin(layout, 0, n, l);
    var i :| 0 <= i < |done| && done[i] == t;
    assert (done + [s] + rest)[i] == t;
    if i < h {
      assert t == Handled(layout)[i];
      UsersMembers(layout, t);
      var j :| 0 <= j < |layout| && layout[j] == t;
      if j < l { TilesApart(layout, 0, n, j, l); } else { TilesApart(layout, 0, n, l, j); }
    } else {
      assert t == Users(layout)[i - h];
      KeepOrder(layout, 0, n, i - h, |done| - h);
    }
  }

  /** When nothing is owed any more, the spans that moved are those of the layout, each once. */
  lemma {:induction false} SameSpans(layout: seq<Span>)
    ensures multiset(Handled(layout) + Users(layout)) == multiset(layout)
  {
    if layout == [] {
      assert Handled(layout) + Users(layout) == [];
    } else {
      hide Handled, Users;
      var rest, x := layout[..|layout| - 1], layout[|layout| - 1];
      SameSpans(rest);
      Peeled(layout, rest, x);
      assert layout == rest + [x];
      if x.place.User? {
        assert Handled(layout) + Users(layout) == Handled(rest) + Users(rest) + [x];
      } else {
        Swapped(Handled(rest), Users(rest), x);
      }
    }
  }

  lemma Peeled(layout: seq<Span>, rest: seq<Span>, x: Span)
    requires layout != [] && rest == layout[..|layout| - 1] && x == layout[|layout| - 1]
    ensures Handled(layout) == if x.place.User? then Handled(rest) else Handled(rest) + [x]
    ensures Users(layout) == if x.place.User? then Users(rest) + [x] else Users(rest)
  {
  }

  lemma Swapped(a: seq<Span>, b: seq<Span>, x: Span)
    ensures multiset(a + [x] + b) == multiset(a + b + [x])
  {
  }

  predicate Covers(s: Span, o: nat) { s.off <= o < s.off + s.len }

  /** The page alone decides who takes a byte: guest memory if it takes the page, else the device of its piece of 8
      bytes, else user space. */
  lemma TakerOfByte(acc: Access, s: Span, o: nat)
    requires acc.Placed(s) && Covers(s, o)
    ensures var page, q := if o < acc.now then acc.first else acc.second, if o < acc.now then o else o - acc.now;
            && page.Page?
            && s.place == if page.ram.Some? then Ram else if q < 8 * |page.devices| then Device(q / 8) else User
  {
    assert s.off < acc.now <==> o < acc.now;
    if s.place.Device? {
      assert acc.Rel(o) == 8 * s.place.k + (o - s.off);
    }
  }

  /** A byte of the access came from, or went to, exactly one transfer, with the taker that its page has for it, and
      the buffer holds that transfer's byte: on a read the memory's or the device's own. */
  lemma EachByteOnce(acc: Access, layout: seq<Span>, moved: seq<Transfer>, val: seq<Byte>, o: nat) returns (i: nat)
    requires Tiles(layout, 0, |val|) && Spans(moved) == Handled(layout) + Users(layout) && o < |val|
    requires forall s :: s in layout ==> acc.Placed(s)
    requires forall t :: t in moved ==> Kept(t, val) && acc.Honest(t)
    ensures i < |moved| && Covers(moved[i].span, o) && moved[i].span in layout && Kept(moved[i], val)
    ensures forall j :: 0 <= j < |moved| && j != i ==> !Covers(moved[j].span, o)
    ensures var page, q := if o < acc.now then acc.first else acc.second, if o < acc.now then o else o - acc.now;
            && page.Page? && o - moved[i].span.off < |moved[i].data| && val[o] == moved[i].data[o - moved[i].span.off]
            && moved[i].span.place ==
                 (if page.ram.Some? then Ram else if q < 8 * |page.devices| then Device(q / 8) else User)
            && (!acc.write && page.ram.Some? ==> q < |page.ram.value| && val[o] == page.ram.value[q])
            && (!acc.write && page.ram.None? && q < 8 * |page.devices| ==>
                  q % 8 < |page.devices[q / 8]| && val[o] == page.devices[q / 8][q % 8])
  {
    i := CoveringTransfer(layout, moved, val, o);
    TakerOfByte(acc, moved[i].span, o);
    var s := moved[i].span;
    assert val[o] == val[s.off..s.off + s.len][o - s.off];
  }

  lemma CoveringTransfer(layout: seq<Span>, moved: seq<Transfer>, val: seq<Byte>, o: nat) returns (i: nat)
    requires Tiles(layout, 0, |val|) && Spans(moved) == Handled(layout) + Users(layout) && o < |val|
    requires forall t :: t in moved ==> Kept(t, val)
    ensures i < |moved| && Covers(moved[i].span, o) && moved[i].span in layout && Kept(moved[i], val)
    ensures forall j :: 0 <= j < |moved| && j != i ==> !Covers(moved[j].span, o)
  {
    hide Tiles, Users, Handled, Kept;
    var l := TilesCover(layout, 0, |val|, o);
    UsersMembers(layout, layout[l]);
    assert layout[l] in Handled(layout) + Users(layout);
    i :| 0 <= i < |Spans(moved)| && Spans(moved)[i] == layout[l];
    forall j | 0 <= j < |moved| && j != i
      ensures !Covers(moved[j].span, o)
    {
      assert Spans(moved)[j] == moved[j].span;
      if i < j { MovedApart(layout, |val|, i, j); } else { MovedApart(layout, |val|, j, i); }
    }
  }

  lemma MovedApart(layout: seq<Span>, n: nat, i: nat, j: nat)
    requires Tiles(layout, 0, n) && i < j < |Handled(layout) + Users(layout)|
    ensures var all := Handled(layout) + Users(layout);
            all[i].off + all[i].len <= all[j].off || all[j].off + all[j].len <= all[i].off
  {
    var all, h := Handled(layout) + Users(layout), |Handled(layout)|;
    UsersMembers(layout, all[i]);
    UsersMembers(layout, all[j]);
    if j < h {
      KeepOrder(layout, 0, n, i, j);
    } else if i >= h {
      KeepOrder(layout, 0, n, i - h, j - h);
    } else {
      assert all[i] in Handled(layout) && all[j] in Users(layout);
      var k :| 0 <= k < |layout| && layout[k] == all[i];
      var l :| 0 <= l < |layout| && layout[l] == all[j];
      if k < l { TilesApart(layout, 0, n, k, l); } else { TilesApart(layout, 0, n, l, k); }
    }
  }

  /** A read piece leaves what moved before it in place. */
  lemma KeptApart(acc: Access, layout: seq<Span>, moved: seq<Transfer>, val: seq<Byte>, val': seq<Byte>, s: Span,
                  rest: seq<Span>)
    requires Tiles(layout, 0, |val|) && Spans(moved) + [s] + rest == Handled(layout) + Users(layout)
    requires |moved| >= |Handled(layout)| && forall t :: t in moved ==> Kept(t, val)
    requires |val'| == |val| && forall o :: 0 <= o < |val| && !(s.off <= o < s.off + s.len) ==> val'[o] == val[o]
    ensures forall t :: t in moved ==> Kept(t, val')
  {
    forall t | t in moved
      ensures Kept(t, val')
    {
      var i :| 0 <= i < |moved| && moved[i] == t;
      assert Spans(moved)[i] == t.span;
      NextIsApart(layout, |val|, Spans(moved), s, rest, t.span);
      assert val'[t.span.off..t.span.off + t.span.len] == val[t.span.off..t.span.off + t.span.len];
    }
  }

  /** The pieces of a fragment: one of at most 8 bytes, then those of the rest. */
  lemma PlanStep(f: seq<Fragment>, cur: nat, nr: nat)
    requires cur < nr <= |f| && f[cur].len > 0
    ensures var n := Min(f[cur].len, PIECE);
            Plan(f[cur..nr]) == [Span(f[cur].data, f[cur].gpa, n, User)] +
              if f[cur].len <= PIECE then Plan(f[cur + 1..nr])
              else Plan(f[cur := Fragment(f[cur].gpa + n, f[cur].data + n, f[cur].len - n)][cur..nr])
  {
    var n := Min(f[cur].len, PIECE);
    var g := Fragment(f[cur].gpa + n, f[cur].data + n, f[cur].len - n);
    assert f[cur..nr][1..] == f[cur + 1..nr];
    assert f[cur := g][cur..nr] == [g] + f[cur + 1..nr];
    assert ([g] + f[cur + 1..nr])[1..] == f[cur + 1..nr];
    assert Chunks(g.data, g.gpa, 0) == [];
  }

  /** The first `h` bytes from `off` on are those that the devices gave, 8 from each. */
  ghost predicate FromDevices(val: seq<Byte>, off: nat, h: nat, devices: seq<seq<Byte>>) {
    && off + h <= |val| && h <= 8 * |devices| && (forall d :: d in devices ==> |d| == 8)
    && forall o :: 0 <= o < h ==> val[off + o] == devices[o / 8][o % 8]
  }

  /** Two buffers differ at most in the `h` bytes from `off` on. */
  ghost predicate SameOutside(was: seq<Byte>, val: seq<Byte>, off: nat, h: nat) {
    |val| == |was| && forall o :: 0 <= o < |was| && !(off <= o < off + h) ==> val[o] == was[o]
  }

  /** The k-th piece of 8 bytes of a page that guest memory does not take is for the k-th device. */
  lemma DevicePlaced(acc: Access, off: nat, len: nat, k: nat, n: nat)
    requires acc.PageOf(off).Page? && acc.PageOf(off).ram.None? && acc.Rel(off) == 0 && acc.InOnePage(off, len)
    requires forall d :: d in acc.PageOf(off).devices ==> |d| == 8
    requires k < |acc.PageOf(off).devices| && 8 * k < len && n == Min(len - 8 * k, 8)
    ensures var s := Span(off + 8 * k, acc.GpaOf(off) + 8 * k, n, Device(k));
            acc.Placed(s) && acc.Honest(Transfer(s, acc.PageOf(off).devices[k][..n]))
  {
  }

  /** `b` is what a page gives for byte `q` of its part of a read: its memory's, a device's, or as before. */
  ghost predicate Gave(page: Page, q: nat, b: Byte, was: Byte)
    requires page.Page?
  {
    if page.ram.Some? then q < |page.ram.value| && b == page.ram.value[q]
    else if q < 8 * |page.devices| then |page.devices[q / 8]| == 8 && b == page.devices[q / 8][q % 8]
    else b == was
  }

  ghost predicate PageGave(page: Page, was: seq<Byte>, val: seq<Byte>, off: nat, len: nat)
    requires page.Page? && |val| == |was| && off + len <= |val|
  {
    forall o :: off <= o < off + len ==> Gave(page, o - off, val[o], was[o])
  }

  lemma PageRead(page: Page, was: seq<Byte>, val: seq<Byte>, off: nat, len: nat)
    requires page.Page? && |val| == |was| && off + len <= |val| && Answers(page, len)
    requires page.ram.Some? ==> val[off..off + len] == page.ram.value
    requires page.ram.None? ==>
               var h := if len < 8 * |page.devices| then len else 8 * |page.devices|;
               FromDevices(val, off, h, page.devices) && SameOutside(was, val, off, h)
    requires page.ram.Some? ==> SameOutside(was, val, off, len)
    ensures PageGave(page, was, val, off, len) && SameOutside(was, val, off, len)
  {
    if page.ram.None? {
      DevicesGave(was, val, off, if len < 8 * |page.devices| then len else 8 * |page.devices|, page.devices);
    }
    forall o | off <= o < off + len
      ensures Gave(page, o - off, val[o], was[o])
    {
      assert val[o] == val[off..off + len][o - off];
    }
  }

  /** A read got every byte from where it belongs. */
  ghost predicate AllGave(acc: Access, was: seq<Byte>, val: seq<Byte>) {
    && |val| == |was|
    && forall o :: 0 <= o < |val| ==> acc.PageOf(o).Page? && Gave(acc.PageOf(o), acc.Rel(o), val[o], was[o])
  }

  /** Two pages read one after the other. */
  lemma BothGave(acc: Access, was: seq<Byte>, mid: seq<Byte>, val: seq<Byte>)
    requires (acc.now > 0 ==> acc.first.Page?) && acc.second.Page? && |was| == |mid| == |val| && acc.now <= |val|
    requires acc.now > 0 ==> PageGave(acc.first, was, mid, 0, acc.now)
    requires PageGave(acc.second, mid, val, acc.now, |val| - acc.now)
    requires SameOutside(was, mid, 0, acc.now) && SameOutside(mid, val, acc.now, |val| - acc.now)
    ensures AllGave(acc, was, val)
  {
    hide Gave;
  }

  lemma ReadBack(acc: Access, was: seq<Byte>, val: seq<Byte>)
    requires AllGave(acc, was, val) && acc.second.Page? && (acc.now > 0 ==> acc.first.Page?) && acc.now <= |val|
    requires (acc.now > 0 ==> Answers(acc.first, acc.now)) && Answers(acc.second, |val| - acc.now)
    ensures |was| == |val|
    ensures forall o :: 0 <= o < acc.now ==>
              val[o] == if acc.first.ram.Some? then acc.first.ram.value[o]
                        else if o < 8 * |acc.first.devices| then acc.first.devices[o / 8][o % 8] else was[o]
    ensures forall o :: acc.now <= o < |val| ==>
              var q := o - acc.now;
              val[o] == if acc.second.ram.Some? then acc.second.ram.value[q]
                        else if q < 8 * |acc.second.devices| then acc.second.devices[q / 8][q % 8] else was[o]
  {
    forall o | 0 <= o < acc.now
      ensures val[o] == if acc.first.ram.Some? then acc.first.ram.value[o]
                        else if o < 8 * |acc.first.devices| then acc.first.devices[o / 8][o % 8] else was[o]
    {
      assert Gave(acc.PageOf(o), acc.Rel(o), val[o], was[o]);
    }
    forall o | acc.now <= o < |val|
      ensures var q := o - acc.now;
              val[o] == if acc.second.ram.Some? then acc.second.ram.value[q]
                        else if q < 8 * |acc.second.devices| then acc.second.devices[q / 8][q % 8] else was[o]
    {
      assert Gave(acc.PageOf(o), acc.Rel(o), val[o], was[o]);
    }
  }

  lemma PageSpansBehind(before: seq<Span>, off: nat, len: nat, page: Page)
    requires page.Page?
    ensures page.ram.Some? ==> before + PageSpans(off, len, page) == before + [Span(off, page.gpa, len, Ram)]
    ensures page.ram.None? ==>
              var h, d := Min(len, 8 * |page.devices|), DeviceSpans(off, page.gpa, len, 0, |page.devices|);
              before + PageSpans(off, len, page) ==
                if h == len then before + d else before + d + Chunks(off + h, page.gpa + h, len - h)
  {
    NoChunks(off + len, page.gpa + len);
  }

  lemma PageStart(acc: Access, off: nat, len: nat)
    requires acc.PageOf(off).Page? && (off == 0 || off == acc.now)
    ensures acc.Rel(off) == 0 && acc.GpaOf(off) == acc.PageOf(off).gpa
  {
  }

  lemma RamPlaced(acc: Access, off: nat, len: nat)
    requires acc.PageOf(off).Page? && acc.PageOf(off).ram.Some? && acc.Rel(off) == 0 && acc.InOnePage(off, len)
    ensures var s := Span(off, acc.GpaOf(off), len, Ram);
            acc.Placed(s) && acc.Honest(Transfer(s, acc.PageOf(off).ram.value))
  {
  }

  lemma WithinPage(acc: Access, off: nat, len: nat, h: nat)
    requires acc.PageOf(off).Page? && acc.InOnePage(off, len) && h < len
    ensures acc.PageOf(off + h) == acc.PageOf(off) && acc.InOnePage(off + h, len - h)
    ensures acc.GpaOf(off + h) == acc.GpaOf(off) + h && acc.Rel(off + h) == acc.Rel(off) + h
  {
  }

  lemma SplicedAt(val: seq<Byte>, off: nat, data: seq<Byte>)
    requires off + |data| <= |val|
    ensures var v := Spliced(val, off, data);
            v[off..off + |data|] == data && forall o :: 0 <= o < |val| && !(off <= o < off + |data|) ==> v[o] == val[o]
  {
  }

  lemma NoneYet(val: seq<Byte>, off: nat, devices: seq<seq<Byte>>)
    requires off <= |val| && forall d :: d in devices ==> |d| == 8
    ensures FromDevices(val, off, 0, devices) && SameOutside(val, val, off, 0)
  {
  }

  lemma DevicesGave(was: seq<Byte>, val: seq<Byte>, off: nat, h: nat, devices: seq<seq<Byte>>)
    requires FromDevices(val, off, h, devices) && SameOutside(was, val, off, h)
    ensures off + h <= |val| == |was|
    ensures forall o :: off <= o < off + h ==> val[o] == devices[(o - off) / 8][(o - off) % 8]
    ensures forall o :: 0 <= o < |was| && !(off <= o < off + h) ==> val[o] == was[o]
  {
    forall o | off <= o < off + h
      ensures val[o] == devices[(o - off) / 8][(o - off) % 8]
    {
      assert val[o] == val[off + (o - off)];
    }
  }

  lemma DeviceStep(was: seq<Byte>, val: seq<Byte>, off: nat, k: nat, n: nat, devices: seq<seq<Byte>>)
    requires FromDevices(val, off, 8 * k, devices) && SameOutside(was, val, off, 8 * k)
    requires k < |devices| && n <= 8 && off + 8 * k + n <= |val|
    ensures var v := Spliced(val, off + 8 * k, devices[k][..n]);
            FromDevices(v, off, 8 * k + n, devices) && SameOutside(was, v, off, 8 * k + n)
  {
    var v := Spliced(val, off + 8 * k, devices[k][..n]);
    forall o | 0 <= o < 8 * k + n
      ensures v[off + o] == devices[o / 8][o % 8]
    {
      if o >= 8 * k {
        assert o / 8 == k && o % 8 == o - 8 * k;
      }
    }
  }

  /** From `base` on, the transfers are the first `k` of `all`, with what user space answered on a read. */
  ghost predicate ServedBy(moved: seq<Transfer>, base: nat, all: seq<Span>, answers: seq<seq<Byte>>, k: nat,
      write: bool) {
    && base + k <= |moved| && k <= |all| && k <= |answers|
    && forall i :: base <= i < base + k ==>
         moved[i].span == all[i - base] && (!write ==> moved[i].data <= answers[i - base])
  }

  lemma ServedStep(m: seq<Transfer>, m': seq<Transfer>, base: nat, all: seq<Span>, answers: seq<seq<Byte>>, k: nat,
                   write: bool)
    requires ServedBy(m, base, all, answers, k, write) && k < |all| && k < |answers|
    requires m <= m' && |m| == base + k && |m'| == |m| + 1
    requires m'[|m|].span == all[k] && (!write ==> m'[|m|].data <= answers[k])
    ensures ServedBy(m', base, all, answers, k + 1, write)
  {
  }

  class Vcpu {
    var fragments: seq<Fragment>
    var nrFragments: nat
    var curFragment: nat
    var needed: bool
    var isWrite: bool
    var readCompleted: bool
    var run: Exit
    var val: seq<Byte>  // the access's buffer
    ghost var layout: seq<Span>
    ghost var moved: seq<Transfer>

    constructor (val: seq<Byte>)
      ensures !needed && !readCompleted && this.val == val && |fragments| == MAX_FRAGMENTS && |run.data| == PIECE
    {
      fragments := seq(MAX_FRAGMENTS, _ => Fragment(0, 0, 0));
      nrFragments, curFragment, needed, isWrite, readCompleted := 0, 0, false, false, false;
      run := Exit(0, seq(PIECE, _ => 0), 0, false);
      this.val := val;
      layout, moved := [], [];
    }

    /** The first `upto` bytes are laid out; what is not left to user space has moved. */
    ghost predicate LaidOut(acc: Access, upto: nat)
      reads this
    {
      && Tiles(layout, 0, upto) && upto <= |val| && Spans(moved) == Handled(layout)
      && |fragments| == MAX_FRAGMENTS && nrFragments <= MAX_FRAGMENTS
      && Users(layout) == Plan(fragments[..nrFragments])
      && (forall k :: 0 <= k < nrFragments ==> Inside(fragments[k], |val|))
      && (forall s :: s in layout ==> acc.Placed(s))
      && (forall t :: t in moved ==> Kept(t, val) && acc.Honest(t))
    }

    lemma NothingLaidOut(acc: Access)
      requires layout == [] && moved == [] && nrFragments == 0 && |fragments| == MAX_FRAGMENTS
      ensures LaidOut(acc, 0)
    {
    }

    /** A piece is taken without user space. */
    method Take(ghost acc: Access, span: Span, data: seq<Byte>, write: bool)
      requires LaidOut(acc, span.off) && write == acc.write && !span.place.User? && span.len > 0
      requires span.off + span.len <= |val| && acc.Placed(span)
      requires !write ==> span.len <= |data| && acc.Honest(Transfer(span, data[..span.len]))
      modifies this`val, this`layout, this`moved
      ensures LaidOut(acc, span.off + span.len) && |val| == |old(val)| && (write ==> val == old(val))
      ensures layout == old(layout) + [span]
      ensures val == if write then old(val) else Spliced(old(val), span.off, data[..span.len])
      ensures moved == old(moved) + [Transfer(span, val[span.off..span.off + span.len])]
    {
      hide Tiles, Users, Handled, Plan, Chunks;
      if !write {
        val := Spliced(val, span.off, data[..span.len]);
      }
      var piece := val[span.off..span.off + span.len];
      assert !write ==> piece == data[..span.len];
      assert val[..span.off] == old(val)[..span.off];
      KeptBelow(layout, moved, old(val), val, span.off);
      OneMore(layout, span);
      ghost var t := Transfer(span, piece);
      assert Spans(moved + [t]) == Spans(moved) + [span];
      layout := layout + [span];
      moved := moved + [t];
    }

    /** The k-th piece of a page, for the k-th device. */
    method DevicePiece(ghost acc: Access, off: nat, gpa: nat, len: nat, k: nat, n: nat,
        devices: seq<seq<Byte>>, ghost was: seq<Byte>, write: bool)
      requires LaidOut(acc, off + 8 * k) && write == acc.write && off + len <= |val| && acc.InOnePage(off, len)
      requires acc.PageOf(off).Page? && acc.PageOf(off).ram.None? && acc.Rel(off) == 0
      requires gpa == acc.GpaOf(off) && devices == acc.PageOf(off).devices && forall d :: d in devices ==> |d| == 8
      requires k < |devices| && 8 * k < len && n == Min(len - 8 * k, 8)
      requires !write ==> FromDevices(val, off, 8 * k, devices) && SameOutside(was, val, off, 8 * k)
      modifies this`val, this`layout, this`moved
      ensures LaidOut(acc, off + 8 * k + n) && |val| == |old(val)| && (write ==> val == old(val))
      ensures layout == old(layout) + [Span(off + 8 * k, gpa + 8 * k, n, Device(k))]
      ensures !write ==> FromDevices(val, off, 8 * k + n, devices) && SameOutside(was, val, off, 8 * k + n)
    {
      hide LaidOut, FromDevices, SameOutside, Spliced, Access.Placed, Access.Honest, Access.GpaOf, Access.PageOf,
           Access.InOnePage, Access.Rel;
      DevicePlaced(acc, off, len, k, n);
      if !write { DeviceStep(was, val, off, k, n, devices); }
      Take(acc, Span(off + 8 * k, gpa + 8 * k, n, Device(k)), devices[k], write);
    }

    /** `vcpu_mmio_write` and `vcpu_mmio_read`: the devices take pieces of at most 8 bytes until one takes none. */
    method VcpuMmio(ghost acc: Access, off: nat, gpa: nat, len: nat, devices: seq<seq<Byte>>, write: bool)
      returns (handled: nat)
      requires LaidOut(acc, off) && write == acc.write && 0 < len && off + len <= |val| && acc.InOnePage(off, len)
      requires acc.PageOf(off).Page? && devices == acc.PageOf(off).devices && gpa == acc.GpaOf(off)
      requires forall d :: d in devices ==> |d| == PIECE
      requires acc.PageOf(off).ram.None? && acc.Rel(off) == 0
      modifies this`val, this`layout, this`moved
      ensures handled == Min(len, PIECE * |devices|) && LaidOut(acc, off + handled)
      ensures |val| == |old(val)| && (write ==> val == old(val))
      ensures layout == old(layout) + DeviceSpans(off, gpa, len, 0, |devices|)
      ensures !write ==> FromDevices(val, off, handled, devices) && SameOutside(old(val), val, off, handled)
    {
      hide LaidOut, DeviceSpans, FromDevices, SameOutside, Spliced, Access.Placed, Access.Honest, Access.GpaOf,
           Access.PageOf, Access.InOnePage, Access.Rel;
      handled := 0;
      NoneYet(val, off, devices);
      var k: nat := 0;
      while handled < len
        invariant handled <= len && LaidOut(acc, off + handled) && |val| == |old(val)| && (write ==> val == old(val))
        invariant k <= |devices| && handled == Min(len, PIECE * k)
        invariant !write ==> FromDevices(val, off, handled, devices) && SameOutside(old(val), val, off, handled)
        invariant layout + DeviceSpans(off + handled, gpa + handled, len - handled, k, |devices|) ==
                    old(layout) + DeviceSpans(off, gpa, len, 0, |devices|)
        decreases len - handled
      {
        var n := Min(len - handled, PIECE);
        NextDevice(layout, off + handled, gpa + handled, len - handled, k, |devices|);
        if k == |devices| { break; }
        DevicePiece(acc, off, gpa, len, k, n, devices, old(val), write);
        handled, k := handled + n, k + 1;
      }
      NextDevice(layout, off + handled, gpa + handled, len - handled, k, |devices|);
    }

    /** `read_write_emulate` where guest memory takes the page: `ram` is what it holds. */
    method ReadWriteEmulate(ghost acc: Access, off: nat, gpa: nat, len: nat, ram: seq<Byte>, write: bool)
      requires LaidOut(acc, off) && write == acc.write && 0 < len && off + len <= |val| && acc.InOnePage(off, len)
      requires acc.PageOf(off).Page? && acc.PageOf(off).ram == Some(ram) && |ram| == len
      requires gpa == acc.GpaOf(off) && acc.Rel(off) == 0
      modifies this`val, this`layout, this`moved
      ensures LaidOut(acc, off + len) && layout == old(layout) + [Span(off, gpa, len, Ram)]
      ensures |val| == |old(val)| && (write ==> val == old(val)) && (!write ==> val[off..off + len] == ram)
      ensures moved == old(moved) + [Transfer(Span(off, gpa, len, Ram), val[off..off + len])]
      ensures SameOutside(old(val), val, off, len)
    {
      hide LaidOut, Spliced, Access.Placed, Access.Honest, Access.GpaOf, Access.PageOf, Access.InOnePage, Access.Rel;
      RamPlaced(acc, off, len);
      assert ram[..len] == ram;
      if !write { SplicedAt(val, off, ram); }
      Take(acc, Span(off, gpa, len, Ram), ram, write);
    }

    /** `emulator_read_write_onepage`: guest memory, then the devices; what they leave becomes a fragment. */
    method OnePage(ghost acc: Access, off: nat, len: nat, page: Page, write: bool) returns (rc: Rc)
      requires LaidOut(acc, off) && write == acc.write && 0 < len && off + len <= |val| && acc.InOnePage(off, len)
      requires page == acc.PageOf(off) && Answers(page, len) && (off == 0 || off == acc.now)
      requires nrFragments < MAX_FRAGMENTS
      modifies this`val, this`layout, this`moved, this`fragments, this`nrFragments
      ensures rc == if page.Fault? then PropagateFault else Continue
      ensures rc == Continue ==> LaidOut(acc, off + len) && layout == old(layout) + PageSpans(off, len, page)
      ensures |val| == |old(val)| && (write ==> val == old(val))
      ensures page.Page? && page.ram.Some? ==>
                && fragments == old(fragments) && nrFragments == old(nrFragments)
                && moved == old(moved) + [Transfer(Span(off, page.gpa, len, Ram), val[off..off + len])]
                && (!write ==> val[off..off + len] == page.ram.value && SameOutside(old(val), val, off, len))
      ensures page.Page? && page.ram.None? ==>
                var h := if len < 8 * |page.devices| then len else 8 * |page.devices|;
                && (!write ==> FromDevices(val, off, h, page.devices) && SameOutside(old(val), val, off, h))
                && (if h == len then fragments == old(fragments) && nrFragments == old(nrFragments)
                    else && nrFragments == old(nrFragments) + 1
                         && fragments == old(fragments)[old(nrFragments) := Fragment(page.gpa + h, off + h, len - h)])
    {
      hide LaidOut, DeviceSpans, PageSpans, Chunks, Spliced, FromDevices, SameOutside, Access.Placed, Access.Honest,
           Access.GpaOf, Access.PageOf, Access.InOnePage, Access.Rel;
      if page.Fault? { return PropagateFault; }
      PageStart(acc, off, len);
      PageSpansBehind(layout, off, len, page);
      if page.ram.Some? {
        ReadWriteEmulate(acc, off, page.gpa, len, page.ram.value, write);
        return Continue;
      }
      var handled := VcpuMmio(acc, off, page.gpa, len, page.devices, write);
      if handled != len {
        WithinPage(acc, off, len, handled);
        LeaveToUser(acc, Fragment(page.gpa + handled, off + handled, len - handled));
      }
      rc := Continue;
    }

    /** The rest of a page becomes a fragment. */
    method LeaveToUser(ghost acc: Access, f: Fragment)
      requires LaidOut(acc, f.data) && f.len > 0 && f.data + f.len <= |val| && nrFragments < MAX_FRAGMENTS
      requires acc.InOnePage(f.data, f.len) && acc.PageOf(f.data).Page? && f.gpa == acc.GpaOf(f.data)
      requires acc.PageOf(f.data).ram.None? && 8 * |acc.PageOf(f.data).devices| <= acc.Rel(f.data)
      modifies this`layout, this`fragments, this`nrFragments
      ensures LaidOut(acc, f.data + f.len) && nrFragments == old(nrFragments) + 1
      ensures layout == old(layout) + Chunks(f.data, f.gpa, f.len)
      ensures fragments == old(fragments)[old(nrFragments) := f]
    {
      hide Tiles, Users, Handled, Plan, Chunks, Kept, Spans, Access.Honest, Access.Placed, Access.PageOf, Access.GpaOf,
           Access.Rel;
      ghost var c := Chunks(f.data, f.gpa, f.len);
      FragmentLaidOut(acc, layout, f);
      PlanAppend(fragments[..nrFragments], f);
      fragments := fragments[nrFragments := f];
      nrFragments := nrFragments + 1;
      assert fragments[..nrFragments] == old(fragments[..nrFragments]) + [f];
      layout := layout + c;
    }

    /** The exits still to be made. */
    function Owed(): seq<Span>
      reads this
    {
      if curFragment <= nrFragments <= |fragments| then Plan(fragments[curFragment..nrFragments]) else []
    }

    /** The exit in `run` is the one for `s`. */
    ghost predicate Posted(s: Span)
      reads this
    {
      && run.physAddr == s.gpa && run.len == s.len && run.isWrite == isWrite && |run.data| == PIECE
      && s.off + s.len <= |val| && s.len <= PIECE && (isWrite ==> run.data[..s.len] == val[s.off..s.off + s.len])
    }

    /** The whole access is laid out, and the buffer holds what has moved. */
    ghost predicate Sound(acc: Access)
      reads this`isWrite, this`val, this`layout, this`moved
    {
      && isWrite == acc.write && Tiles(layout, 0, |val|) && (forall s :: s in layout ==> acc.Placed(s))
      && |moved| >= |Handled(layout)| && (forall t :: t in moved ==> Kept(t, val) && acc.Honest(t))
    }

    /** Everything is laid out; what moved and what is owed to user space are together the whole layout. */
    ghost predicate InFlight(acc: Access)
      reads this
    {
      && Sound(acc) && curFragment <= nrFragments <= |fragments| == MAX_FRAGMENTS
      && Spans(moved) + Owed() == Handled(layout) + Users(layout)
      && (forall k :: curFragment <= k < nrFragments ==> Inside(fragments[k], |val|))
    }

    ghost predicate Waiting(acc: Access)
      reads this
    {
      needed && InFlight(acc) && curFragment < nrFragments && Owed() != [] && Posted(Owed()[0])
    }

    /** Fills `run` for the piece at the head of the current fragment. */
    method Post()
      requires curFragment < nrFragments <= |fragments| && fragments[curFragment].len > 0 && |run.data| == PIECE
      requires fragments[curFragment].data + fragments[curFragment].len <= |val|
      modifies this`run
      ensures Owed() != [] && Posted(Owed()[0])
    {
      hide Plan, Chunks;
      PlanStep(fragments, curFragment, nrFragments);
      var f := fragments[curFragment];
      var n := Min(f.len, PIECE);
      var data := run.data;
      if isWrite {
        data := Spliced(data, 0, val[f.data..f.data + n]);
        assert data[..n] == val[f.data..f.data + n];
      }
      run := Exit(f.gpa, data, n, isWrite);
    }

    /** The piece in `run` is recorded, and stored if it was read. */
    method Absorb(ghost acc: Access, ghost s: Span, ghost rest: seq<Span>, off: nat, len: nat)
      requires Sound(acc) && Spans(moved) + [s] + rest == Handled(layout) + Users(layout) && s.place.User?
      requires s.off == off && s.len == len <= PIECE && off + len <= |val| && Posted(s)
      modifies this`val, this`moved
      ensures Sound(acc) && |val| == |old(val)| && (acc.write ==> val == old(val))
      ensures moved == old(moved) + [Transfer(s, run.data[..len])]
      ensures Spans(moved) == old(Spans(moved)) + [s]
    {
      hide Tiles, Users, Handled, Access.Placed, Access.PageOf;
      ghost var t := Transfer(s, run.data[..len]);
      if !isWrite {
        val := Spliced(val, off, run.data[..len]);
        KeptApart(acc, layout, moved, old(val), val, s, rest);
      }
      assert Kept(t, val) && acc.Honest(t);
      moved := moved + [t];
    }

    /** The fragment, or the access, moves on by the piece in `run`. */
    method Advance(ghost acc: Access)
      requires Waiting(acc)
      modifies this`val, this`fragments, this`curFragment, this`moved
      ensures InFlight(acc) && Owed() == old(Owed())[1..]
      ensures moved == old(moved) + [Transfer(old(Owed()[0]), run.data[..run.len])]
      ensures acc.write ==> val == old(val)
    {
      hide Plan, Chunks, Tiles, Users, Handled, Sound, Spans;
      ghost var s, rest, done := Owed()[0], Owed()[1..], Spans(moved);
      assert done + [s] + rest == done + Owed();
      PlanStep(fragments, curFragment, nrFragments);
      var f := fragments[curFragment];
      var len := Min(f.len, PIECE);
      Absorb(acc, s, rest, f.data, len);
      if f.len <= PIECE {
        curFragment := curFragment + 1;
      } else {
        fragments := fragments[curFragment := Fragment(f.gpa + len, f.data + len, f.len - len)];
      }
    }

    /** `complete_emulated_mmio`: the piece in `run` has been served.  It is the next one owed; `r` is 1 exactly when
        it was the last. */
    method CompleteEmulatedMmio(ghost acc: Access) returns (r: int)
      requires Waiting(acc)
      modifies this
      ensures moved == old(moved) + [Transfer(old(Owed()[0]), old(run.data)[..old(run.len)])]
      ensures layout == old(layout) && InFlight(acc) && Owed() == old(Owed())[1..]
      ensures if r == 1 then !needed && Owed() == [] && (!acc.write ==> readCompleted) else r == 0 && Waiting(acc)
      ensures acc.write ==> val == old(val) && readCompleted == old(readCompleted)
      ensures needed ==>
                && Owed() != [] && var s := Owed()[0];
                && run.physAddr == s.gpa && run.len == s.len <= 8 && run.isWrite == acc.write && |run.data| == 8
                && s.off + s.len <= |val| && (acc.write ==> run.data[..s.len] == val[s.off..s.off + s.len])
    {
      hide Chunks, Tiles, Users, Handled;
      assert acc.write == isWrite;
      Advance(acc);
      if curFragment >= nrFragments {
        needed := false;
        if !isWrite {
          readCompleted := true;
        }
        return 1;
      }
      Post();
      r := 0;
    }

    /** `emulator_read_write` on the buffer `val`.  A read that user space has just completed finds its bytes there.
        Otherwise the access is laid out page by page, and the first exit is posted if any piece is left over. */
    method ReadWrite(addr: nat, first: Page, second: Page, write: bool) returns (rc: Rc, ghost acc: Access)
      requires !needed && 0 < |val| <= PAGE && |fragments| == MAX_FRAGMENTS && |run.data| == PIECE
      requires Answers(first, PAGE - addr % PAGE) && Answers(second, SecondLen(addr, |val|))
      modifies this
      ensures old(readCompleted) && !write ==>
                !needed && !readCompleted && rc == Continue && val == old(val) && moved == old(moved)
      ensures acc == Access(if Crosses(addr, |val|) then PAGE - addr % PAGE else 0, first, second, write)
      ensures !(old(readCompleted) && !write) ==>
                && (rc == PropagateFault <==> (Crosses(addr, |val|) && first.Fault?) || second.Fault?)
                && |val| == |old(val)| && (write ==> val == old(val))
                && (rc == PropagateFault ==> !needed)
                && (rc != PropagateFault ==> InFlight(acc) && (needed ==> Waiting(acc)) && (!needed ==> Owed() == []))
                && (rc != PropagateFault ==> rc == if needed && !write then IoNeeded else Continue)
                && (rc != PropagateFault ==> layout == AccessSpans(acc, |val|))
                && (rc != PropagateFault && needed ==>
                      && Owed() != [] && var s := Owed()[0];
                      && run.physAddr == s.gpa && run.len == s.len <= 8 && run.isWrite == write && |run.data| == 8
                      && s.off + s.len <= |val| && (write ==> run.data[..s.len] == val[s.off..s.off + s.len]))
                && (rc != PropagateFault ==>
                      (needed <==>
                         || (acc.now > 0 && first.ram.None? && 8 * |first.devices| < acc.now)
                         || (second.ram.None? && 8 * |second.devices| < |val| - acc.now)))
      ensures !old(readCompleted) && !write && rc != PropagateFault ==>
                && (forall o :: 0 <= o < acc.now ==>
                      val[o] == if first.ram.Some? then first.ram.value[o]
                                else if o < 8 * |first.devices| then first.devices[o / 8][o % 8] else old(val)[o])
                && (forall o :: acc.now <= o < |val| ==>
                      var q := o - acc.now;
                      val[o] == if second.ram.Some? then second.ram.value[q]
                                else if q < 8 * |second.devices| then second.devices[q / 8][q % 8] else old(val)[o])
    {
      hide LaidOut, InFlight, Waiting, Answers, AllGave, AccessSpans;
      var crosses := (addr + |val| - 1) / PAGE != addr / PAGE;
      var now: nat := if crosses then (PAGE - addr % PAGE) % PAGE else 0;
      acc := Access(now, first, second, write);
      if !write && readCompleted {
        readCompleted := false;
        return Continue, acc;
      }
      nrFragments := 0;
      rc := LayOut(acc, now, |val|, first, second, write);
      if rc != Continue { return; }
      if !write {
        assert Answers(second, |val| - now) && (now > 0 ==> Answers(first, now));
        ReadBack(acc, old(val), val);
      }
      StartExits(acc, write);
      rc := if needed && !write then IoNeeded else Continue;
    }

    /** The first exit, if there is any. */
    method StartExits(ghost acc: Access, write: bool)
      requires LaidOut(acc, |val|) && !needed && |run.data| == PIECE && write == acc.write
      modifies this`needed, this`curFragment, this`isWrite, this`run
      ensures needed <==> nrFragments > 0
      ensures needed ==>
                && Owed() != [] && var s := Owed()[0];
                && run.physAddr == s.gpa && run.len == s.len <= 8 && run.isWrite == write && |run.data| == 8
                && s.off + s.len <= |val| && (write ==> run.data[..s.len] == val[s.off..s.off + s.len])
      ensures InFlight(acc) && if needed then Waiting(acc) else Owed() == []
    {
      assert Plan([]) == [];
      hide Plan, Tiles, Users, Handled;
      curFragment := 0;
      isWrite := write;
      if nrFragments == 0 { return; }
      needed := true;
      Post();
    }

    /** The two halves of `emulator_read_write`'s page split. */
    method LayOut(ghost acc: Access, now: nat, bytes: nat, first: Page, second: Page, write: bool) returns (rc: Rc)
      requires nrFragments == 0 && |fragments| == MAX_FRAGMENTS && bytes == |val| && now < bytes
      requires acc == Access(now, first, second, write)
      requires Answers(second, bytes - now) && (now > 0 ==> Answers(first, now))
      modifies this`val, this`layout, this`moved, this`fragments, this`nrFragments
      ensures rc == if (now > 0 && first.Fault?) || second.Fault? then PropagateFault else Continue
      ensures |val| == |old(val)| && (write ==> val == old(val))
      ensures rc == Continue ==> LaidOut(acc, bytes) && layout == AccessSpans(acc, bytes)
      ensures rc == Continue ==>
                (nrFragments > 0 <==>
                   || (now > 0 && first.ram.None? && 8 * |first.devices| < now)
                   || (second.ram.None? && 8 * |second.devices| < bytes - now))
      ensures rc == Continue && !write ==> AllGave(acc, old(val), val)
    {
      hide LaidOut, PageSpans, Answers, Gave, PageGave, AllGave, FromDevices;
      layout, moved := [], [];
      NothingLaidOut(acc);
      if now > 0 {
        rc := OnePage(acc, 0, now, first, write);
        if rc != Continue { return; }
        if !write { PageRead(first, old(val), val, 0, now); }
      }
      ghost var mid := val;
      rc := OnePage(acc, now, bytes - now, second, write);
      if rc == Continue && !write {
        PageRead(second, mid, val, now, bytes - now);
        BothGave(acc, old(val), mid, val);
      }
    }

    /** User space serves one exit; on a read it fills in the data. */
    method ServeOne(ghost acc: Access, answer: seq<Byte>)
      requires Waiting(acc) && |answer| == PIECE
      modifies this
      ensures layout == old(layout) && Owed() == old(Owed())[1..] && InFlight(acc)
      ensures if needed then Waiting(acc) && Owed() != [] else Owed() == [] && (!acc.write ==> readCompleted)
      ensures |moved| == |old(moved)| + 1 && old(moved) <= moved
      ensures moved[|old(moved)|].span == old(Owed())[0] && (!acc.write ==> moved[|old(moved)|].data <= answer)
      ensures acc.write ==> val == old(val)
    {
      if !isWrite {
        run := run.(data := answer);
      }
      var r := CompleteEmulatedMmio(acc);
    }

    /** User space serves every exit: exactly the pieces owed, in order, and then the access is over. */
    method Serve(ghost acc: Access, answers: seq<seq<Byte>>)
      requires Waiting(acc) && |answers| >= |Owed()| && forall a :: a in answers ==> |a| == PIECE
      modifies this
      ensures !needed && InFlight(acc) && Owed() == [] && layout == old(layout)
      ensures |moved| == |old(moved)| + |old(Owed())|
      ensures old(moved) <= moved
      ensures ServedBy(moved, |old(moved)|, old(Owed()), answers, |old(Owed())|, acc.write)
      ensures if acc.write then val == old(val) else readCompleted
    {
      ghost var all, was := Owed(), moved;
      assert needed && Owed() != [];
      assert ServedBy(moved, |was|, all, answers, 0, acc.write);
      hide InFlight, Owed, Waiting, ServedBy;
      var k: nat := 0;
      while needed
        invariant k <= |all| && Owed() == all[k..] && layout == old(layout)
        invariant if needed then Waiting(acc) && k < |all|
                  else InFlight(acc) && k == |all| && (!acc.write ==> readCompleted)
        invariant |moved| == |was| + k && was <= moved
        invariant ServedBy(moved, |was|, all, answers, k, acc.write)
        invariant acc.write ==> val == old(val)
        decreases |all| - k
      {
        ghost var before := moved;
        ServeOne(acc, answers[k]);
        ServedStep(before, moved, |was|, all, answers, k, acc.write);
        k := k + 1;
      }
    }
  }
}
