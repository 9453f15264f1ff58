/** Facts about single operations on 64-bit words, apart from everything that builds on them. */
module BitFacts {

  lemma HalfXor(a: bv64, b: bv64)
    ensures (a ^ b) >> 1 == (a >> 1) ^ (b >> 1)
  {
  }

  lemma XorOfDifferent(a: bv64, b: bv64)
    ensures a ^ b == 0 <==> a == b
  {
  }

  lemma HalfAndNot(a: bv64, b: bv64)
    ensures (a & !b) >> 1 == (a >> 1) & !(b >> 1)
  {
  }

  lemma OddAndNot(a: bv64, b: bv64)
    ensures (a & !b) & 1 == 1 <==> a & 1 == 1 && b & 1 != 1
  {
  }
}

/** A 64-bit word as the set of its one bits, as `NestedCr` models control registers and `DirtyLog` the words of a
    bitmap: the cut loses nothing, and each C operation on words is the set operation that the models use. */
module Words {
  import BitFacts

  function Odd(w: bv64): bool { w & 1 == 1 }
  function Half(w: bv64): bv64 { w >> 1 }

  function And(a: bv64, b: bv64): bv64 { a & b }
  function Or(a: bv64, b: bv64): bv64 { a | b }
  function Xor(a: bv64, b: bv64): bv64 { a ^ b }
  function AndNot(a: bv64, b: bv64): bv64 { a & !b }

  function Bit(w: bv64, i: nat): bool
    decreases i
  {
    if i == 0 then Odd(w) else Bit(Half(w), i - 1)
  }

  function Bits(w: bv64): set<nat> { set i: nat | i < 64 && Bit(w, i) }

  lemma OddAnd(a: bv64, b: bv64)
    ensures Odd(And(a, b)) <==> Odd(a) && Odd(b)
  {
  }

  lemma OddOr(a: bv64, b: bv64)
    ensures Odd(Or(a, b)) <==> Odd(a) || Odd(b)
  {
  }

  lemma OddXor(a: bv64, b: bv64)
    ensures Odd(Xor(a, b)) <==> Odd(a) != Odd(b)
  {
  }

  lemma HalfAnd(a: bv64, b: bv64)
    ensures Half(And(a, b)) == And(Half(a), Half(b))
  {
  }

  lemma HalfOr(a: bv64, b: bv64)
    ensures Half(Or(a, b)) == Or(Half(a), Half(b))
  {
  }

  lemma HalfXor(a: bv64, b: bv64)
    ensures Half(Xor(a, b)) == Xor(Half(a), Half(b))
  {
    BitFacts.HalfXor(a, b);
  }

  lemma HalfAndNot(a: bv64, b: bv64)
    ensures Half(AndNot(a, b)) == AndNot(Half(a), Half(b))
  {
    BitFacts.HalfAndNot(a, b);
  }

  lemma OddAndNot(a: bv64, b: bv64)
    ensures Odd(AndNot(a, b)) <==> Odd(a) && !Odd(b)
  {
    BitFacts.OddAndNot(a, b);
  }

  lemma {:induction false} BitOf(a: bv64, b: bv64, i: nat)
    ensures Bit(And(a, b), i) <==> Bit(a, i) && Bit(b, i)
    ensures Bit(Or(a, b), i) <==> Bit(a, i) || Bit(b, i)
    ensures Bit(Xor(a, b), i) <==> Bit(a, i) != Bit(b, i)
    ensures Bit(AndNot(a, b), i) <==> Bit(a, i) && !Bit(b, i)
    decreases i
  {
    hide Odd, Half, And, Or, Xor, AndNot;
    if i == 0 {
      OddAnd(a, b);
      OddOr(a, b);
      OddXor(a, b);
      OddAndNot(a, b);
    } else {
      HalfAnd(a, b);
      HalfOr(a, b);
      HalfXor(a, b);
      HalfAndNot(a, b);
      BitOf(Half(a), Half(b), i - 1);
    }
  }

  lemma ZeroIsEven()
    ensures !Odd(0)
  {
  }

  lemma HalfOfZero()
    ensures Half(0) == 0
  {
  }

  lemma {:induction false} ZeroHasNone(i: nat)
    ensures !Bit(0, i)
  {
    hide Odd, Half;
    ZeroIsEven();
    HalfOfZero();
    if i > 0 { ZeroHasNone(i - 1); }
  }

  /** `&`, `|`, `^` and `& ~` on words are intersection, union, symmetric difference and difference. */
  lemma WordOperations(a: bv64, b: bv64)
    ensures Bits(And(a, b)) == Bits(a) * Bits(b)
    ensures Bits(Or(a, b)) == Bits(a) + Bits(b)
    ensures Bits(Xor(a, b)) == (Bits(a) - Bits(b)) + (Bits(b) - Bits(a))
    ensures Bits(AndNot(a, b)) == Bits(a) - Bits(b)
  {
    hide And, Or, Xor, AndNot, Bit;
    forall i: nat | i < 64
      ensures Bit(And(a, b), i) <==> Bit(a, i) && Bit(b, i)
      ensures Bit(Or(a, b), i) <==> Bit(a, i) || Bit(b, i)
      ensures Bit(Xor(a, b), i) <==> Bit(a, i) != Bit(b, i)
      ensures Bit(AndNot(a, b), i) <==> Bit(a, i) && !Bit(b, i)
    {
      BitOf(a, b, i);
    }
  }

  // ----- no two words have the same bits

  /** `w` halved `n` times. */
  function Halved(w: bv64, n: nat): bv64
    decreases n
  {
    if n == 0 then w else Halved(Half(w), n - 1)
  }

  lemma {:induction false} HalvedTwice(w: bv64, m: nat, n: nat)
    ensures Halved(Halved(w, m), n) == Halved(w, m + n)
    decreases m
  {
    hide Half;
    if m > 0 { HalvedTwice(Half(w), m - 1, n); }
  }

  function Shr4(w: bv64): bv64 { w >> 4 }
  function Shr16(w: bv64): bv64 { w >> 16 }

  lemma FourHalves(w: bv64)
    ensures Half(Half(Half(Half(w)))) == Shr4(w)
  {
  }

  lemma FourShifts(w: bv64)
    ensures Shr4(Shr4(Shr4(Shr4(w)))) == Shr16(w)
  {
  }

  lemma AllShifted(w: bv64)
    ensures Shr16(Shr16(Shr16(Shr16(w)))) == 0
  {
  }

  lemma HalvedFour(w: bv64)
    ensures Halved(w, 4) == Shr4(w)
  {
    hide Half, Shr4;
    var v := Half(w);
    assert Halved(w, 4) == Halved(v, 3) == Halved(Half(v), 2) == Halved(Half(Half(v)), 1);
    FourHalves(w);
  }

  lemma HalvedSixteen(w: bv64)
    ensures Halved(w, 16) == Shr16(w)
  {
    hide Half, Halved, Shr4, Shr16;
    var v := Shr4(w);
    HalvedFour(w);
    HalvedFour(v);
    HalvedFour(Shr4(v));
    HalvedFour(Shr4(Shr4(v)));
    HalvedTwice(w, 4, 4);
    HalvedTwice(w, 8, 4);
    HalvedTwice(w, 12, 4);
    FourShifts(w);
  }

  lemma HalvedAll(w: bv64)
    ensures Halved(w, 64) == 0
  {
    hide Half, Halved, Shr16;
    var v := Shr16(w);
    HalvedSixteen(w);
    HalvedSixteen(v);
    HalvedSixteen(Shr16(v));
    HalvedSixteen(Shr16(Shr16(v)));
    HalvedTwice(w, 16, 16);
    HalvedTwice(w, 32, 16);
    HalvedTwice(w, 48, 16);
    AllShifted(w);
  }

  lemma HalfOfEven(w: bv64)
    requires w != 0 && !Odd(w)
    ensures Half(w) != 0
  {
  }

  /** A word other than zero that `n` halvings make zero has one of its first `n` bits. */
  lemma {:induction false} SomeBit(w: bv64, n: nat) returns (i: nat)
    requires w != 0 && Halved(w, n) == 0
    ensures i < n && Bit(w, i)
    decreases n
  {
    hide Odd, Half;
    if Odd(w) {
      i := 0;
    } else {
      HalfOfEven(w);
      i := SomeBit(Half(w), n - 1);
      i := i + 1;
    }
  }

  lemma XorOfDifferent(a: bv64, b: bv64)
    ensures Xor(a, b) == 0 <==> a == b
  {
    BitFacts.XorOfDifferent(a, b);
  }

  lemma NoBits()
    ensures Bits(0) == {}
  {
    hide Bit;
    forall i: nat
      ensures !Bit(0, i)
    {
      ZeroHasNone(i);
    }
  }

  lemma NoBitsIsZero(w: bv64)
    ensures Bits(w) == {} <==> w == 0
  {
    hide Bit, Halved;
    NoBits();
    if w != 0 {
      HalvedAll(w);
      var i := SomeBit(w, 64);
      assert i in Bits(w);
    }
  }

  lemma NoDifference(a: set<nat>, b: set<nat>)
    ensures (a - b) + (b - a) == {} <==> a == b
  {
    assert forall i :: i !in (a - b) + (b - a) ==> (i in a <==> i in b);
  }

  lemma NothingShared(a: set<nat>, b: set<nat>)
    ensures a !! b <==> a * b == {}
  {
    if a !! b {
      assert forall i :: i !in a * b;
    } else {
      var i :| i in a && i in b;
      assert i in a * b;
    }
  }

  /** A word is known by its bits. */
  lemma WordsAreTheirBits(a: bv64, b: bv64)
    ensures a == b <==> Bits(a) == Bits(b)
  {
    hide Xor, Bits;
    WordOperations(a, b);
    NoBitsIsZero(Xor(a, b));
    XorOfDifferent(a, b);
    NoDifference(Bits(a), Bits(b));
  }

  /** The C test `a & b` tells whether two words share a bit. */
  lemma SharedBits(a: bv64, b: bv64)
    ensures And(a, b) == 0 <==> Bits(a) !! Bits(b)
  {
    hide And, Bits;
    WordOperations(a, b);
    NoBitsIsZero(And(a, b));
    NothingShared(Bits(a), Bits(b));
  }
}
