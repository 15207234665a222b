/** The 64-bit words of the allocation bitmap, most significant bit first: bit j of a word is the one
    that j left shifts bring to the top. A shift by a variable amount is that many shifts by one. */
module BitWord {

  const PAGE_FULL: bv64 := 0xFFFF_FFFF_FFFF_FFFF
  const PAGES_PER_ENTRY: nat := 64

  function Up(x: bv64): bv64 { x << 1 }
  function Down(x: bv64): bv64 { x >> 1 }
  function Or(a: bv64, b: bv64): bv64 { a | b }
  function And(a: bv64, b: bv64): bv64 { a & b }
  function AndNot(a: bv64, b: bv64): bv64 { a & !b }
  predicate Top(w: bv64) { w >= 0x8000_0000_0000_0000 }

  function Shl(x: bv64, k: nat): bv64
    decreases k
  {
    if k == 0 then x else Shl(Up(x), k - 1)
  }

  function Shr(x: bv64, k: nat): bv64
    decreases k
  {
    if k == 0 then x else Shr(Down(x), k - 1)
  }

  predicate Bit(w: bv64, j: nat) { Top(Shl(w, j)) }

  /** memory_allocator_convert_to_mask. */
  function Mask(number: nat, offset: nat): bv64
    requires number <= PAGES_PER_ENTRY
  {
    Shr(Shl(PAGE_FULL, PAGES_PER_ENTRY - number), offset)
  }

  /** The low half of a word, which is all that a uint32_t variable keeps of it. */
  function Low32(w: bv64): bv64 { w & 0x0000_0000_FFFF_FFFF }

  // ---- one-bit facts ----------------------------------------------------------------------

  lemma OrUp(a: bv64, b: bv64)
    ensures Up(Or(a, b)) == Or(Up(a), Up(b))
  {
  }

  lemma NotTop(a: bv64)
    ensures Top(!a) <==> !Top(a)
  {
  }

  lemma OrTop(a: bv64, b: bv64)
    ensures Top(Or(a, b)) <==> Top(a) || Top(b)
  {
    hide Top;
    AndTop(!a, !b);
    NotTop(a);
    NotTop(b);
    NotTop(Or(a, b));
    assert And(!a, !b) == !Or(a, b);
  }

  lemma AndUp(a: bv64, b: bv64)
    ensures Up(And(a, b)) == And(Up(a), Up(b))
  {
  }

  lemma AndTop(a: bv64, b: bv64)
    ensures Top(And(a, b)) <==> Top(a) && Top(b)
  {
  }

  lemma AndNotUp(a: bv64, b: bv64)
    ensures Up(AndNot(a, b)) == AndNot(Up(a), Up(b))
  {
  }

  lemma AndNotTop(a: bv64, b: bv64)
    ensures Top(AndNot(a, b)) <==> Top(a) && !Top(b)
  {
    hide Top;
    AndTop(a, !b);
    NotTop(b);
  }

  lemma DownStep(a: bv64)
    ensures Up(Down(a)) == AndNot(a, 1) && !Top(Down(a))
  {
  }

  lemma TopStep(a: bv64)
    ensures Up(a) == 0 && !Top(a) <==> a == 0
  {
  }

  // ---- bits of the operators --------------------------------------------------------------

  lemma {:induction false} OrBitRec(a: bv64, b: bv64, j: nat)
    ensures Bit(Or(a, b), j) <==> Bit(a, j) || Bit(b, j)
    decreases j
  {
    hide Top, Or, Up;
    OrUp(a, b);
    OrTop(a, b);
    if j > 0 {
      OrBitRec(Up(a), Up(b), j - 1);
    }
  }

  lemma OrBit(a: bv64, b: bv64, j: nat)
    ensures Bit(a | b, j) <==> Bit(a, j) || Bit(b, j)
  {
    hide Bit;
    OrBitRec(a, b, j);
  }

  lemma {:induction false} AndBitRec(a: bv64, b: bv64, j: nat)
    ensures Bit(And(a, b), j) <==> Bit(a, j) && Bit(b, j)
    decreases j
  {
    hide Top, And, Up;
    AndUp(a, b);
    AndTop(a, b);
    if j > 0 {
      AndBitRec(Up(a), Up(b), j - 1);
    }
  }

  lemma AndBit(a: bv64, b: bv64, j: nat)
    ensures Bit(a & b, j) <==> Bit(a, j) && Bit(b, j)
  {
    hide Bit;
    AndBitRec(a, b, j);
  }

  lemma {:induction false} AndNotBitRec(a: bv64, b: bv64, j: nat)
    ensures Bit(AndNot(a, b), j) <==> Bit(a, j) && !Bit(b, j)
    decreases j
  {
    hide Top, AndNot, Up;
    AndNotUp(a, b);
    AndNotTop(a, b);
    if j > 0 {
      AndNotBitRec(Up(a), Up(b), j - 1);
    }
  }

  lemma AndNotBit(a: bv64, b: bv64, j: nat)
    ensures Bit(a & !b, j) <==> Bit(a, j) && !Bit(b, j)
  {
    hide Bit;
    AndNotBitRec(a, b, j);
  }

  lemma {:induction false} ShlShl(x: bv64, a: nat, b: nat)
    ensures Shl(Shl(x, a), b) == Shl(x, a + b)
    decreases a
  {
    hide Up;
    if a > 0 {
      ShlShl(Up(x), a - 1, b);
    }
  }

  // ---- running off the end ----------------------------------------------------------------

  lemma ShlBy4(x: bv64)
    ensures Shl(x, 4) == x << 4
  {
    var a, b, c := Up(x), Up(Up(x)), Up(Up(Up(x)));
    assert Shl(x, 4) == Up(c) by {
      hide Up;
      assert Shl(x, 4) == Shl(a, 3) == Shl(b, 2) == Shl(c, 1) == Shl(Up(c), 0);
    }
  }

  lemma ShlBy16(x: bv64)
    ensures Shl(x, 16) == x << 16
  {
    hide Up;
    var a := x << 4;
    var b := a << 4;
    var c := b << 4;
    ShlShl(x, 4, 12);
    ShlShl(a, 4, 8);
    ShlShl(b, 4, 4);
    ShlBy4(x);
    ShlBy4(a);
    ShlBy4(b);
    ShlBy4(c);
  }

  /** Shifting everything out leaves nothing. */
  lemma ShlBy64(x: bv64)
    ensures Shl(x, 64) == 0
  {
    hide Up;
    var a := x << 16;
    var b := a << 16;
    var c := b << 16;
    ShlShl(x, 16, 48);
    ShlShl(a, 16, 32);
    ShlShl(b, 16, 16);
    ShlBy16(x);
    ShlBy16(a);
    ShlBy16(b);
    ShlBy16(c);
  }

  lemma {:induction false} ZeroBit(j: nat)
    ensures !Bit(0, j)
    decreases j
  {
    if j > 0 {
      assert Up(0) == 0;
      ZeroBit(j - 1);
    }
  }

  lemma NoBitBeyond(x: bv64, j: nat)
    requires j >= 64
    ensures !Bit(x, j)
  {
    hide Up;
    ShlBy64(x);
    ShlShl(x, 64, j - 64);
    ZeroBit(j - 64);
  }

  lemma {:induction false} NoBitsUpTo(w: bv64, k: nat)
    requires Shl(w, k) == 0 && forall j :: 0 <= j < k ==> !Bit(w, j)
    ensures w == 0
    decreases k
  {
    hide Up, Top;
    if k > 0 {
      assert !Bit(w, 0);
      forall j: nat | j < k - 1
        ensures !Bit(Up(w), j)
      {
        assert !Bit(w, j + 1);
      }
      NoBitsUpTo(Up(w), k - 1);
      TopStep(w);
    }
  }

  /** A word without a bit is zero. */
  lemma NoBits(w: bv64)
    ensures w == 0 <==> forall j :: 0 <= j < 64 ==> !Bit(w, j)
  {
    hide Up, Top, Shl;
    ShlBy64(w);
    if w == 0 {
      forall j: nat | j < 64
        ensures !Bit(w, j)
      {
        ZeroBit(j);
      }
    } else if forall j :: 0 <= j < 64 ==> !Bit(w, j) {
      NoBitsUpTo(w, 64);
    }
  }

  // ---- right shifts -----------------------------------------------------------------------

  lemma {:induction false} ShrShr(x: bv64, a: nat, b: nat)
    ensures Shr(Shr(x, a), b) == Shr(x, a + b)
    decreases a
  {
    hide Down;
    if a > 0 {
      ShrShr(Down(x), a - 1, b);
    }
  }

  lemma ShrBy4(x: bv64)
    ensures Shr(x, 4) == x >> 4
  {
    var a, b, c := Down(x), Down(Down(x)), Down(Down(Down(x)));
    assert Shr(x, 4) == Down(c) by {
      hide Down;
      assert Shr(x, 4) == Shr(a, 3) == Shr(b, 2) == Shr(c, 1) == Shr(Down(c), 0);
    }
  }

  lemma ShrBy16(x: bv64)
    ensures Shr(x, 16) == x >> 16
  {
    hide Down;
    var a := x >> 4;
    var b := a >> 4;
    var c := b >> 4;
    ShrShr(x, 4, 12);
    ShrShr(a, 4, 8);
    ShrShr(b, 4, 4);
    ShrBy4(x);
    ShrBy4(a);
    ShrBy4(b);
    ShrBy4(c);
  }

  /** One right shift moves a bit one place down, or drops it. */
  lemma DownBitOnly(x: bv64, j: nat)
    ensures Bit(Down(x), j) ==> j > 0 && Bit(x, j - 1)
  {
    hide Up, Down, Top, AndNot;
    DownStep(x);
    if j > 0 {
      AndNotBitRec(x, 1, j - 1);
    }
  }

  lemma {:induction false} ShrBitOnly(x: bv64, o: nat, j: nat)
    ensures Bit(Shr(x, o), j) ==> j >= o && Bit(x, j - o)
    decreases o
  {
    hide Down, Bit;
    if o > 0 {
      ShrBitOnly(Down(x), o - 1, j);
      if Bit(Shr(x, o), j) {
        DownBitOnly(x, j - (o - 1));
      }
    }
  }

  /** The word 1 has no bit but bit 63. */
  lemma LowBit(j: nat)
    ensures Bit(1, j) ==> j >= 63
  {
    hide Up, Down, Bit;
    var top: bv64 := 0x8000_0000_0000_0000;
    ShrBy16(top);
    ShrBy16(top >> 16);
    ShrBy16((top >> 16) >> 16);
    ShrBy4(0x8000);
    ShrBy4(0x800);
    ShrBy4(0x80);
    ShrBy4(0x10);
    ShrShr(top, 16, 32);
    ShrShr(top >> 16, 16, 16);
    ShrShr(0x8000, 4, 12);
    ShrShr(0x800, 4, 8);
    ShrShr(0x80, 4, 4);
    assert Shr(top, 48) == 0x8000;
    ShrBy15();
    ShrShr(top, 48, 15);
    ShrBitOnly(top, 63, j);
  }

  lemma ShrBy15()
    ensures Shr(0x8000, 15) == 1
  {
    ShrShr(0x8000, 4, 11);
    ShrShr(0x800, 4, 7);
    ShrShr(0x80, 4, 3);
    ShrBy4(0x8000);
    ShrBy4(0x800);
    ShrBy4(0x80);
    assert Shr(8, 3) == Shr(4, 2) == Shr(2, 1) == Shr(1, 0);
  }

  lemma DownBit(x: bv64, j: nat)
    requires j < 64
    ensures Bit(Down(x), j) <==> j > 0 && Bit(x, j - 1)
  {
    hide Up, Down, Top, AndNot;
    DownBitOnly(x, j);
    if j > 0 {
      DownStep(x);
      AndNotBitRec(x, 1, j - 1);
      LowBit(j - 1);
    }
  }

  lemma {:induction false} ShrBit(x: bv64, o: nat, j: nat)
    requires j < 64
    ensures Bit(Shr(x, o), j) <==> j >= o && Bit(x, j - o)
    decreases o
  {
    hide Down, Bit;
    if o > 0 {
      ShrBit(Down(x), o - 1, j);
      if j >= o - 1 {
        DownBit(x, j - (o - 1));
      }
    }
  }

  // ---- what the allocator needs -----------------------------------------------------------

  lemma OnesBit(j: nat)
    ensures Bit(PAGE_FULL, j) <==> j < 64
  {
    hide Shr;
    if j < 64 {
      var one := Shr(0x8000_0000_0000_0000, j);
      ShrBit(0x8000_0000_0000_0000, j, j);
      OrBit(PAGE_FULL, one, j);
      assert PAGE_FULL | one == PAGE_FULL;
    } else {
      NoBitBeyond(PAGE_FULL, j);
    }
  }

  /** The mask lemma: number bits from bit offset on, cut off at the end of the word. */
  lemma MaskBit(number: nat, offset: nat, j: nat)
    requires number <= PAGES_PER_ENTRY && j < 64
    ensures Bit(Mask(number, offset), j) <==> offset <= j < offset + number
  {
    hide Shl, Shr, Top;
    ShrBit(Shl(PAGE_FULL, PAGES_PER_ENTRY - number), offset, j);
    if offset <= j {
      ShlShl(PAGE_FULL, PAGES_PER_ENTRY - number, j - offset);
      OnesBit(PAGES_PER_ENTRY - number + (j - offset));
    }
  }

  /** Words with the same bits are the same. */
  lemma Extensional(a: bv64, b: bv64)
    requires forall j :: 0 <= j < 64 ==> (Bit(a, j) <==> Bit(b, j))
    ensures a == b
  {
    hide Bit;
    var d, e := a & !b, b & !a;
    NoBits(d);
    NoBits(e);
    forall j: nat | j < 64
      ensures !Bit(d, j) && !Bit(e, j)
    {
      AndNotBit(a, b, j);
      AndNotBit(b, a, j);
    }
    NoDifference(a, b);
  }

  lemma NoDifference(a: bv64, b: bv64)
    requires a & !b == 0 && b & !a == 0
    ensures a == b
  {
  }

  /** current_entry == PAGE_FULL exactly when no page of the word is free. */
  lemma FullBits(w: bv64)
    ensures w == PAGE_FULL <==> forall j :: 0 <= j < 64 ==> Bit(w, j)
  {
    hide Bit;
    if w == PAGE_FULL {
      forall j: nat | j < 64
        ensures Bit(w, j)
      {
        OnesBit(j);
      }
    } else if forall j :: 0 <= j < 64 ==> Bit(w, j) {
      forall j: nat | j < 64
        ensures Bit(w, j) <==> Bit(PAGE_FULL, j)
      {
        OnesBit(j);
      }
      Extensional(w, PAGE_FULL);
    }
  }

  lemma NoCommonBit(w: bv64, m: bv64)
    ensures And(w, m) == 0 <==> forall j :: 0 <= j < 64 ==> !(Bit(w, j) && Bit(m, j))
  {
    hide Bit, And;
    var d := And(w, m);
    NoBits(d);
    NoCommonBitOf(w, m, d);
  }

  lemma NoCommonBitOf(w: bv64, m: bv64, d: bv64)
    requires d == And(w, m)
    ensures forall j :: 0 <= j < 64 ==> (Bit(d, j) <==> Bit(w, j) && Bit(m, j))
  {
    hide Bit, And;
    forall j: nat | j < 64
      ensures Bit(d, j) <==> Bit(w, j) && Bit(m, j)
    {
      AndBitRec(w, m, j);
    }
  }

  /** current_entry & current_mask is 0 exactly when no page of the masked run is claimed. */
  lemma MaskedZero(w: bv64, number: nat, offset: nat)
    requires number <= PAGES_PER_ENTRY
    ensures And(w, Mask(number, offset)) == 0 <==>
            forall j :: 0 <= j < 64 && offset <= j < offset + number ==> !Bit(w, j)
  {
    hide Bit, Mask, And;
    var m := Mask(number, offset);
    NoCommonBit(w, m);
    forall j: nat | j < 64
      ensures Bit(m, j) <==> offset <= j < offset + number
    {
      MaskBit(number, offset, j);
    }
  }

  /** A uint32_t keeps pages 32..63 of the word and forgets pages 0..31. */
  lemma Low32Bit(w: bv64, j: nat)
    requires j < 64
    ensures Bit(Low32(w), j) <==> j >= 32 && Bit(w, j)
  {
    hide Bit, Up, Down;
    ShlBy16(PAGE_FULL);
    ShlBy16(PAGE_FULL << 16);
    ShlShl(PAGE_FULL, 16, 16);
    ShrBy16(0xFFFF_FFFF_0000_0000);
    ShrBy16(0x0000_FFFF_FFFF_0000);
    ShrShr(0xFFFF_FFFF_0000_0000, 16, 16);
    assert Mask(32, 32) == 0x0000_0000_FFFF_FFFF;
    MaskBit(32, 32, j);
    AndBit(w, 0x0000_0000_FFFF_FFFF, j);
  }

  /** __builtin_clzll, looking at the first limit bits. */
  function LeadingZeros(w: bv64, limit: nat): (n: nat)
    ensures n <= limit
    ensures n < limit ==> Bit(w, n)
    ensures forall j :: 0 <= j < n ==> !Bit(w, j)
    decreases limit
  {
    if limit == 0 || Top(w) then 0
    else
      var n := 1 + LeadingZeros(Up(w), limit - 1);
      assert forall j :: 0 <= j < n ==> !Bit(w, j) by {
        forall j | 0 <= j < n ensures !Bit(w, j) {
          if j > 0 { assert Bit(w, j) == Bit(Up(w), j - 1); }
        }
      }
      n
  }
}
