/** One 64-bit EPT entry, cut along the fields that EPT_MASK (kvm/imee.c:108) separates: bit 63,
    the page frame number in bits 62..12, and the low twelve bits.  `OfWord` is the cut itself; the
    lemmas below it show that each operation on `Epte` is the C expression on the 64-bit word. */
module EptEntry {

  datatype Epte = Epte(top: bool, frame: nat, low: bv12)

  const ABSENT := Epte(false, 0, 0)
  const EPT_MASK: bv64 := 0x8000_0000_0000_0FFF

  const READ: bv12 := 0x1
  const WRITE: bv12 := 0x2
  const EXEC: bv12 := 0x4

  /** Intel SDM Vol. 3C, section 28.2.2: an entry is present iff one of bits 2:0 is set. */
  predicate Present(e: Epte) { e.low & 0x7 != 0 }
  predicate Writable(e: Epte) { e.low & WRITE != 0 }
  predicate Executable(e: Epte) { e.low & EXEC != 0 }

  /** The entry that links a lower table: `__pa (tbl) | 0x7`. */
  function TableEntry(frame: nat): Epte { Epte(false, frame, 0x7) }

  /** A guest leaf entry as `copy_leaf_ept` copies it, without write and execute permission. */
  function Stripped(e: Epte): Epte { e.(low := e.low & 0xFF9) }

  /** A leaf entry redirected to the agent's code page by `remap_gpa_code`. */
  function Hijacked(e: Epte, code: nat): Epte { Epte(e.top, code, e.low | EXEC) }

  /** What `map_epte` stores in a slot that held zero, and in one that did not. */
  function MappedOver(prev: Epte, frame: nat, perm: bv12): Epte {
    Epte(false, frame, if prev == ABSENT then perm | 0x270 else perm)
  }

  function TopOf(w: bv64): bv64 { w >> 63 }
  function FrameOf(w: bv64): bv64 { (w >> 12) & 0x7_FFFF_FFFF_FFFF }
  function LowOf(w: bv64): bv12 { (w & 0xFFF) as bv12 }

  /** `pfn` is any numbering of page frames that keeps 0 apart. */
  ghost predicate Numbering(pfn: bv64 -> nat) { forall f :: pfn(f) == 0 <==> f == 0 }

  function OfWord(w: bv64, pfn: bv64 -> nat): Epte {
    Epte(TopOf(w) == 1, pfn(FrameOf(w)), LowOf(w))
  }

  /** The test `!entry` of `map_epte`. */
  lemma AbsentWord(w: bv64, pfn: bv64 -> nat)
    requires Numbering(pfn)
    ensures OfWord(w, pfn) == ABSENT <==> w == 0
  {
    CutsOfZero(w);
  }

  lemma CutsOfZero(w: bv64)
    ensures w == 0 <==> TopOf(w) != 1 && FrameOf(w) == 0 && LowOf(w) == 0
  {
  }

  lemma TableEntryWord(pa: bv64, pfn: bv64 -> nat)
    requires pa & EPT_MASK == 0
    ensures OfWord(pa | 0x7, pfn) == TableEntry(pfn(FrameOf(pa)))
  {
    assert FrameOf(pa | 0x7) == FrameOf(pa);
  }

  lemma StrippedWord(w: bv64, pfn: bv64 -> nat)
    ensures OfWord(w & !(0x6 as bv64), pfn) == Stripped(OfWord(w, pfn))
  {
    assert FrameOf(w & !(0x6 as bv64)) == FrameOf(w);
  }

  lemma CutsOfHijacked(w: bv64, code: bv64)
    requires code & EPT_MASK == 0
    ensures var h := (w & EPT_MASK) | code | 0x4;
            TopOf(h) == TopOf(w) && FrameOf(h) == FrameOf(code) && LowOf(h) == LowOf(w) | EXEC
  {
  }

  lemma HijackedWord(w: bv64, code: bv64, pfn: bv64 -> nat)
    requires code & EPT_MASK == 0
    ensures OfWord((w & EPT_MASK) | code | 0x4, pfn) == Hijacked(OfWord(w, pfn), pfn(FrameOf(code)))
  {
    CutsOfHijacked(w, code);
  }

  lemma CutsOfMapped(hpa: bv64, perm: bv64)
    ensures var m := (hpa & !EPT_MASK) | (perm & 0xFFF);
            TopOf(m) == 0 && FrameOf(m) == FrameOf(hpa) && LowOf(m) == LowOf(perm)
  {
  }

  lemma CutsOfTyped(m: bv64)
    ensures TopOf(m | 0x270) == TopOf(m) && FrameOf(m | 0x270) == FrameOf(m) && LowOf(m | 0x270) == LowOf(m) | 0x270
  {
  }

  lemma MappedFreshWord(hpa: bv64, perm: bv64, pfn: bv64 -> nat)
    ensures OfWord(((hpa & !EPT_MASK) | (perm & 0xFFF)) | 0x270, pfn)
         == MappedOver(ABSENT, pfn(FrameOf(hpa)), LowOf(perm))
  {
    CutsOfMapped(hpa, perm);
    CutsOfTyped((hpa & !EPT_MASK) | (perm & 0xFFF));
  }

  lemma MappedOverWord(prev: bv64, hpa: bv64, perm: bv64, pfn: bv64 -> nat)
    requires Numbering(pfn) && prev != 0
    ensures OfWord((hpa & !EPT_MASK) | (perm & 0xFFF), pfn)
         == MappedOver(OfWord(prev, pfn), pfn(FrameOf(hpa)), LowOf(perm))
  {
    AbsentWord(prev, pfn);
    CutsOfMapped(hpa, perm);
  }
}
