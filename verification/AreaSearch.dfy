/**
 bitmap_find_next_zero_area: the least aligned run of zero bits, with the 32-bit sums of the source, for the
 documented ffz and for the shipped one.
 */
module AreaSearch {
  import opened Bitmap
  import opened Strides
  import opened BitSearch

  /** The least multiple of align at or above x. */
  function AlignUp(x: int, align: int): int
    requires 0 <= x && 1 <= align
  {
    (x + align - 1) / align * align
  }

  lemma AlignUpLeast(x: int, align: int)
    requires 0 <= x && 1 <= align
    ensures x <= AlignUp(x, align) < x + align && AlignUp(x, align) % align == 0
    ensures forall y :: x <= y && y % align == 0 ==> AlignUp(x, align) <= y
  {
    var q := (x + align - 1) / align;
    DivMod(x + align - 1, align);
    DivExact(q, 0, align);
    forall y | x <= y && y % align == 0 ensures q * align <= y {
      DivMod(y, align);
      assert q * align < (y / align + 1) * align;
      Compare(q, y / align + 1, align);
      MulMonotone(q, y / align, align);
    }
  }

  /** __ALIGN_MASK(x, align - 1) in 32 bits, for a power of two align: (x + mask) & ~mask. */
  function AlignMask(x: int, align: int): int
    requires 1 <= align
  {
    var y := (x + align - 1) % LIMIT;
    y - y % align
  }

  /** In 32 bits rounding up is exact up to 2^32 - align, and comes out as 0 above. */
  lemma AlignMaskIs(x: int, align: int)
    requires 0 <= x < LIMIT && 1 <= align <= LIMIT && LIMIT % align == 0
    ensures x <= LIMIT - align ==> x <= AlignMask(x, align) == AlignUp(x, align) <= LIMIT - align
    ensures x > LIMIT - align ==> AlignMask(x, align) == 0 && LIMIT <= AlignUp(x, align)
  {
    MultipleBelow(x, align);
    if x <= LIMIT - align {
      AlignUpLeast(x, align);
      TopMultiple(align);
      RoundDown(x + align - 1, align);
    } else {
      DivExact(0, x + align - 1 - LIMIT, align);
    }
    hide AlignUp;
  }

  /** There is no multiple of align between LIMIT - align and LIMIT. */
  lemma MultipleBelow(x: int, align: int)
    requires 0 <= x && 1 <= align <= LIMIT && LIMIT % align == 0
    ensures AlignUp(x, align) < LIMIT <==> x <= LIMIT - align
  {
    AlignUpLeast(x, align);
    TopMultiple(align);
    var y := AlignUp(x, align);
    DivMod(y, align);
    DivMod(LIMIT, align);
    Compare(y / align, LIMIT / align, align);
    if y < LIMIT { MulMonotone(y / align, LIMIT / align - 1, align); }
    hide AlignUp;
  }

  lemma RoundDown(s: int, align: int)
    requires 1 <= align && 0 <= s < LIMIT
    ensures s % LIMIT == s && s - s % align == s / align * align
  {
    DivMod(s, align);
  }

  lemma TopMultiple(align: int)
    requires 1 <= align <= LIMIT && LIMIT % align == 0
    ensures (LIMIT - align) % align == 0
  {
    DivMod(LIMIT, align);
    var q := LIMIT / align;
    assert LIMIT - align == (q - 1) * align + 0;
    DivExact(q - 1, 0, align);
  }

  /** An aligned run of nr zero bits at y inside the bitmap. */
  ghost predicate ZeroArea(a: seq<Word>, size: int, start: int, nr: int, align: int, y: int)
    requires 1 <= align
  {
    start <= y && y + nr <= size && y % align == 0 && forall i :: y <= i < y + nr ==> !At(a, i)
  }

  /** What bitmap_find_next_zero_area promises: the least zero area, or a value above size when there is none. */
  ghost predicate RightArea(a: seq<Word>, size: int, start: int, nr: int, align: int, r: int)
    requires 1 <= align
  {
    && (r <= size ==> ZeroArea(a, size, start, nr, align, r))
    && forall y :: start <= y && (y < r || r > size) ==> !ZeroArea(a, size, start, nr, align, y)
  }

  /** The least set bit in [i, size), or size: the specification of find_next_bit as a function. */
  ghost function LeastOne(a: seq<Word>, size: int, i: int): (z: int)
    ensures IsNext(a, true, size, i, z)
    decreases size - i
  {
    if i >= size then size else if At(a, i) then i else LeastOne(a, size, i + 1)
  }

  lemma LeastOneIs(a: seq<Word>, size: int, i: int, z: int)
    requires IsNext(a, true, size, i, z)
    ensures z == LeastOne(a, size, i)
  {
    hide At;
    var y := LeastOne(a, size, i);
    assert y < z && i < size ==> At(a, y);
    assert z < y && i < size ==> At(a, z);
  }

  datatype Pass = Done(r: int) | Again(start: int)

  /** The rest of a pass of the `again` loop once the aligned index is known; end is a 32-bit sum. */
  ghost function PassFrom(a: seq<Word>, size: int, nr: int, index: int): Pass {
    var end := (index + nr) % LIMIT;
    if end > size then Done(end)
    else
      var i := LeastOne(a, end, index);
      if i < end then Again(i + 1) else Done(index)
  }

  /** One pass from `start`. */
  ghost function AreaPass(a: seq<Word>, size: int, start: int, nr: int, align: int, ffz: Word -> int): Pass
    requires 1 <= align
  {
    PassFrom(a, size, nr, AlignMask(NextZero(a, size, start, ffz), align))
  }

  /** One pass as the source computes it, for any ffz. */
  method OnePass(a: seq<Word>, size: int, start: int, nr: int, align: int, ffz: Word -> int) returns (p: Pass)
    requires 0 <= start && 0 <= size <= 32 * |a| && 1 <= align
    ensures p == AreaPass(a, size, start, nr, align, ffz)
  {
    hide At, NextZero, LeastOne, IsNext;
    var index := FindNextZeroBit(a, size, start, ffz);
    index := AlignMask(index, align);
    AlignMaskPositive(NextZero(a, size, start, ffz), align);
    var end := (index + nr) % LIMIT;
    if end > size {
      return Done(end);
    }
    var i := FindNextBit(a, end, index);
    LeastOneIs(a, end, index, i);
    if i < end {
      return Again(i + 1);
    }
    return Done(index);
  }

  lemma AlignMaskPositive(x: int, align: int)
    requires 1 <= align
    ensures 0 <= AlignMask(x, align)
  {
    var y := (x + align - 1) % LIMIT;
    DivMod(y, align);
    if y < align { DivExact(0, y, align); }
  }

  // ------------------------------------------------------ with the documented ffz

  /** The aligned index of the pass that ends the search, in unbounded arithmetic. */
  ghost function LastIndex(a: seq<Word>, size: int, start: int, nr: int, align: int): (x: int)
    requires 0 <= start && 0 <= size && 0 <= nr && 1 <= align
    ensures 0 <= x
    decreases size - start
  {
    var x := AlignUp(LeastZero(a, size, start), align);
    AlignUpLeast(LeastZero(a, size, start), align);
    if x + nr > size then x
    else
      var i := LeastOne(a, x + nr, x);
      if i < x + nr then LastIndex(a, size, i + 1, nr, align) else x
  }

  lemma LastIndexStep(a: seq<Word>, size: int, start: int, nr: int, align: int)
    requires 0 <= start && 0 <= size && 0 <= nr && 1 <= align
    ensures var x := AlignUp(LeastZero(a, size, start), align);
      var i := LeastOne(a, x + nr, x);
      && 0 <= x < size + align && (x + nr <= size && i < x + nr ==> start <= i)
      && LastIndex(a, size, start, nr, align)
         == if x + nr <= size && i < x + nr then LastIndex(a, size, i + 1, nr, align) else x
  {
    AlignUpLeast(LeastZero(a, size, start), align);
    hide At, LeastZero, LeastOne, AlignUp;
  }

  /** No zero area starts between `start` and the aligned position after the next zero bit. */
  lemma SkipToZero(a: seq<Word>, size: int, start0: int, start: int, nr: int, align: int, z: int, r: int)
    requires 0 <= start0 <= start && 1 <= align && z == LeastZero(a, size, start) && 0 <= z
    requires z <= r && forall y :: z <= y && y % align == 0 ==> r <= y
    ensures nr >= 1 ==> forall y :: start <= y < r ==> !ZeroArea(a, size, start0, nr, align, y)
  {
    hide At, LeastZero;
    if nr >= 1 {
      forall y | start <= y < r ensures !ZeroArea(a, size, start0, nr, align, y) {
        assert y < z && y < size ==> At(a, y);
      }
    }
  }

  /** That index is the least zero area if its area fits, and no area exists otherwise. */
  lemma {:induction false} LastIndexRight(a: seq<Word>, size: int, start0: int, start: int, nr: int, align: int)
    requires 0 <= start0 <= start && 0 <= size && 1 <= nr && 1 <= align
    requires forall y :: start0 <= y < start ==> !ZeroArea(a, size, start0, nr, align, y)
    ensures var x := LastIndex(a, size, start, nr, align);
      && (x + nr <= size ==> ZeroArea(a, size, start0, nr, align, x))
      && forall y :: start0 <= y && (y < x || x + nr > size) ==> !ZeroArea(a, size, start0, nr, align, y)
    decreases size - start
  {
    hide At, LeastZero, LeastOne, AlignUp, ZeroArea, LastIndex;
    FirstPass(a, size, start0, start, nr, align);
    LastIndexStep(a, size, start, nr, align);
    var x := AlignUp(LeastZero(a, size, start), align);
    if x + nr <= size {
      var i := LeastOne(a, x + nr, x);
      if i < x + nr {
        BitInTheWay(a, size, start0, nr, align, x, i);
        LastIndexRight(a, size, start0, i + 1, nr, align);
      }
    }
  }

  /** What one pass of the search knows about areas. */
  lemma FirstPass(a: seq<Word>, size: int, start0: int, start: int, nr: int, align: int)
    requires 0 <= start0 <= start && 0 <= size && 1 <= nr && 1 <= align
    requires forall y :: start0 <= y < start ==> !ZeroArea(a, size, start0, nr, align, y)
    ensures var x := AlignUp(LeastZero(a, size, start), align);
      && 0 <= x && (x + nr <= size ==> start <= x)
      && (forall y :: start0 <= y < x ==> !ZeroArea(a, size, start0, nr, align, y))
      && (x + nr <= size && LeastOne(a, x + nr, x) >= x + nr ==> ZeroArea(a, size, start0, nr, align, x))
      && (x + nr > size ==> forall y :: x <= y ==> !ZeroArea(a, size, start0, nr, align, y))
  {
    hide At, LeastZero, LeastOne, AlignUp, ZeroArea;
    var z := LeastZero(a, size, start);
    AlignUpLeast(z, align);
    SkipToZero(a, size, start0, start, nr, align, z, AlignUp(z, align));
    LastPass(a, size, start0, nr, align, AlignUp(z, align));
  }

  lemma LastPass(a: seq<Word>, size: int, start: int, nr: int, align: int, x: int)
    requires 1 <= align && x % align == 0
    ensures start <= x && x + nr <= size && LeastOne(a, x + nr, x) >= x + nr ==> ZeroArea(a, size, start, nr, align, x)
    ensures x + nr > size ==> forall y :: x <= y ==> !ZeroArea(a, size, start, nr, align, y)
  {
    hide At, LeastOne;
  }

  lemma BitInTheWay(a: seq<Word>, size: int, start: int, nr: int, align: int, x: int, i: int)
    requires 1 <= align && At(a, i) && i < x + nr
    ensures forall y :: x <= y <= i ==> !ZeroArea(a, size, start, nr, align, y)
  {
    hide At;
    forall y | x <= y <= i ensures !ZeroArea(a, size, start, nr, align, y) {
      assert y <= i < y + nr;
    }
  }

  /** What the 32-bit code returns when the last pass stands at index x. */
  function Outcome(size: int, nr: int, x: int): int {
    if x + nr <= size || (x + nr) % LIMIT <= size then x else (x + nr) % LIMIT
  }

  /** A pass with the documented ffz; if rounding up wraps, it stands at index 0. */
  lemma DocumentedPass(a: seq<Word>, size: int, start: int, nr: int, align: int, ffz: Word -> int)
    requires DocumentedFfz(ffz) && 0 <= start && 0 <= size <= 32 * |a| && size < LIMIT && 0 <= nr < LIMIT
    requires 1 <= align <= LIMIT && LIMIT % align == 0
    ensures var z := LeastZero(a, size, start);
      var x := AlignUp(z, align);
      var i := LeastOne(a, x + nr, x);
      && (x < LIMIT <==> z <= LIMIT - align)
      && AreaPass(a, size, start, nr, align, ffz)
         == if x >= LIMIT then PassFrom(a, size, nr, 0)
            else if x + nr <= size && i < x + nr then Again(i + 1) else Done(Outcome(size, nr, x))
  {
    hide At, NextZero, LeastZero, LeastOne, AlignUp, AlignMask, PassFrom, Outcome;
    NextZeroDocumented(a, size, start, ffz);
    var z := LeastZero(a, size, start);
    MultipleBelow(z, align);
    AlignMaskIs(z, align);
    if z <= LIMIT - align { PassAt(a, size, nr, AlignUp(z, align)); }
  }

  /** A pass in terms of its index, with the 32-bit sum spelled out. */
  lemma PassAt(a: seq<Word>, size: int, nr: int, x: int)
    requires 0 <= x < LIMIT && 0 <= nr < LIMIT && 0 <= size < LIMIT
    ensures var i := LeastOne(a, x + nr, x);
      PassFrom(a, size, nr, x) == if x + nr <= size && i < x + nr then Again(i + 1) else Done(Outcome(size, nr, x))
  {
    hide At;
  }

  /** Rounding up wraps in some pass: the unbounded search would end beyond the 32-bit numbers. */
  ghost predicate Wraps(a: seq<Word>, size: int, start: int, nr: int, align: int)
    requires 0 <= start && 0 <= size && 0 <= nr && 1 <= align
  {
    LastIndex(a, size, start, nr, align) >= LIMIT
  }

  /** Where the search goes on behind the pass at index 0 that follows a wrap. */
  ghost function Restart(a: seq<Word>, nr: int): (i: int)
    requires 0 <= nr
    ensures 1 <= i
  {
    LeastOne(a, nr, 0) + 1
  }

  /** The search ends, unless it wraps, finds a bit in its way at index 0, and wraps again from there. */
  ghost predicate Ends(a: seq<Word>, size: int, start: int, nr: int, align: int)
    requires 0 <= start && 0 <= size && 0 <= nr && 1 <= align
  {
    !Wraps(a, size, start, nr, align) || nr > size || Restart(a, nr) > nr || !Wraps(a, size, Restart(a, nr), nr, align)
  }

  /** What it then returns. */
  ghost function Answer(a: seq<Word>, size: int, start: int, nr: int, align: int): int
    requires 0 <= start && 0 <= size && 0 <= nr && 1 <= align
  {
    if !Wraps(a, size, start, nr, align) then Outcome(size, nr, LastIndex(a, size, start, nr, align))
    else if nr > size then nr
    else if Restart(a, nr) > nr then 0
    else Outcome(size, nr, LastIndex(a, size, Restart(a, nr), nr, align))
  }

  /**
   bitmap_find_next_zero_area with the documented ffz, whenever it ends: what it returns is right exactly when neither
   rounding up nor the sum index + nr of the last pass wraps, or what is returned lies above size anyway.
   */
  method FindNextZeroArea(a: seq<Word>, size: int, start0: int, nr: int, align: int, ffz: Word -> int) returns (r: int)
    requires 0 <= start0 < LIMIT && 0 <= nr < LIMIT && 0 <= size <= 32 * |a| && size < LIMIT && DocumentedFfz(ffz)
    requires 1 <= align <= LIMIT && LIMIT % align == 0 && Ends(a, size, start0, nr, align)
    ensures r == Answer(a, size, start0, nr, align)
    ensures var x := LastIndex(a, size, start0, nr, align);
      nr >= 1 ==>
        (RightArea(a, size, start0, nr, align, r) <==> if x < LIMIT then x > size || x + nr < LIMIT else r > size)
  {
    hide At, AreaPass, DocumentedFfz, AlignUp, RightArea, LeastOne, LeastZero, LastIndex, PassFrom, Outcome, Restart;
    var start := start0;
    ghost var again := Wraps(a, size, start0, nr, align);
    AnswerIff(a, size, start0, nr, align);
    while true
      invariant 0 <= start && Ends(a, size, start, nr, align)
      invariant Answer(a, size, start, nr, align) == Answer(a, size, start0, nr, align)
      invariant again <==> Wraps(a, size, start, nr, align)
      decreases again, size - start
    {
      var p := OnePass(a, size, start, nr, align, ffz);
      DocumentedPass(a, size, start, nr, align, ffz);
      LastIndexStep(a, size, start, nr, align);
      WrappedPass(a, size, nr);
      if p.Done? {
        return p.r;
      }
      start := p.start;
      again := Wraps(a, size, start, nr, align);
    }
  }

  /** The pass at index 0. */
  lemma WrappedPass(a: seq<Word>, size: int, nr: int)
    requires 0 <= nr < LIMIT && 0 <= size < LIMIT
    ensures PassFrom(a, size, nr, 0)
         == if nr > size then Done(nr) else if Restart(a, nr) <= nr then Again(Restart(a, nr)) else Done(0)
  {
    hide At;
  }

  lemma AreaIff(a: seq<Word>, size: int, start: int, nr: int, align: int)
    requires 0 <= start && 0 <= nr < LIMIT && 0 <= size < LIMIT && 1 <= align && !Wraps(a, size, start, nr, align)
    ensures var x := LastIndex(a, size, start, nr, align);
      nr >= 1 ==> (RightArea(a, size, start, nr, align, Outcome(size, nr, x)) <==> x > size || x + nr < LIMIT)
  {
    if nr >= 1 {
      LastIndexRight(a, size, start, start, nr, align);
      hide At, LastIndex;
    }
  }

  lemma AnswerIff(a: seq<Word>, size: int, start: int, nr: int, align: int)
    requires 0 <= start && 0 <= nr < LIMIT && 0 <= size < LIMIT && 1 <= align
    ensures var x, r := LastIndex(a, size, start, nr, align), Answer(a, size, start, nr, align);
      nr >= 1 ==>
        (RightArea(a, size, start, nr, align, r) <==> if x < LIMIT then x > size || x + nr < LIMIT else r > size)
  {
    if !Wraps(a, size, start, nr, align) {
      AreaIff(a, size, start, nr, align);
    } else if nr >= 1 {
      LastIndexRight(a, size, start, start, nr, align);
      hide At, LastIndex, Outcome, Restart, LeastOne, ZeroArea;
    }
  }

  lemma {:induction false} LastBound(a: seq<Word>, size: int, start: int, nr: int, align: int)
    requires 0 <= start && 0 <= nr && 0 <= size && 1 <= align
    ensures LastIndex(a, size, start, nr, align) < size + align
    decreases size - start
  {
    hide At, LeastZero, LeastOne, AlignUp, LastIndex;
    LastIndexStep(a, size, start, nr, align);
    var x := AlignUp(LeastZero(a, size, start), align);
    var i := LeastOne(a, x + nr, x);
    if x + nr <= size && i < x + nr { LastBound(a, size, i + 1, nr, align); }
  }

  /** A caller who keeps size + align + nr within 2^32 always gets a right answer. */
  lemma NoWrapRight(a: seq<Word>, size: int, start: int, nr: int, align: int)
    requires 0 <= start && 1 <= nr && 0 <= size && 1 <= align && size + align + nr <= LIMIT
    ensures RightArea(a, size, start, nr, align, Outcome(size, nr, LastIndex(a, size, start, nr, align)))
  {
    LastBound(a, size, start, nr, align);
    AreaIff(a, size, start, nr, align);
    hide RightArea, LastIndex;
  }

  /** In an empty map of 32 bits, asked for 2^32 - 1 bits from 1 on, the sum wraps to 0 and the answer is 1. */
  lemma SumWrapExample()
    ensures var a := [Zero()];
      && LastIndex(a, 32, 1, 0xFFFF_FFFF, 1) == 1 && Outcome(32, 0xFFFF_FFFF, 1) == 1
      && !RightArea(a, 32, 1, 0xFFFF_FFFF, 1, 1)
  {
    var a := [Zero()];
    assert !At(a, 1);
    assert LeastZero(a, 32, 1) == 1;
    hide At, LeastZero, LeastOne, AlignUp;
    AlignUpLeast(1, 1);
  }

  /** Above 2^32 - align the rounded index comes out as 0, and the pass starts over at the bottom of the map. */
  lemma AlignWrapPass(a: seq<Word>, size: int, start: int, nr: int, align: int, ffz: Word -> int)
    requires DocumentedFfz(ffz) && 0 <= start && 0 <= size <= 32 * |a| && size < LIMIT && 0 <= nr < LIMIT
    requires 1 <= align <= LIMIT && LIMIT % align == 0 && LeastZero(a, size, start) > LIMIT - align
    ensures AreaPass(a, size, start, nr, align, ffz)
         == if nr > size then Done(nr) else if LeastOne(a, nr, 0) < nr then Again(LeastOne(a, nr, 0) + 1) else Done(0)
  {
    hide At, NextZero, LeastZero, LeastOne, AlignMask, AlignUp, PassFrom;
    NextZeroDocumented(a, size, start, ffz);
    AlignMaskIs(LeastZero(a, size, start), align);
    PassAt(a, size, nr, 0);
  }

  /**
   With the mask 0xFFFFFFFF every index but 0 rounds up to 2^32, that is to 0.  Asked for one bit from 1 on, a map of 32
   bits whose bit 0 is clear yields the index 0, below start; with bit 0 set the search has no end.
   */
  lemma AlignWrapExample(a: seq<Word>)
    requires |a| == 1 && !At(a, 1)
    ensures Ends(a, 32, 1, 1, LIMIT) <==> !At(a, 0)
    ensures !At(a, 0) ==> Answer(a, 32, 1, 1, LIMIT) == 0 && !RightArea(a, 32, 1, 1, LIMIT, 0)
  {
    assert LeastZero(a, 32, 1) == 1;
    LastIndexStep(a, 32, 1, 1, LIMIT);
    AlignUpLeast(1, LIMIT);
    assert LeastOne(a, 1, 0) == if At(a, 0) then 0 else 1;
    hide At, LeastZero, LeastOne, AlignUp, LastIndex;
  }

  // -------------------------------------------------------- with the shipped ffz

  /** Two indices lead to the same pass although they differ: both areas fit and meet the same first set bit. */
  ghost predicate Shared(a: seq<Word>, size: int, nr: int, p: int, q: int) {
    var m, n := if p < q then p else q, if p < q then q else p;
    p + nr <= size && q + nr <= size && n <= LeastOne(a, m + nr, m) < m + nr
  }

  lemma SamePass(a: seq<Word>, size: int, nr: int, p: int, q: int)
    requires 0 <= p && 0 <= q && 1 <= nr && 0 <= size && p + nr < LIMIT && q + nr < LIMIT
    ensures PassFrom(a, size, nr, p) == PassFrom(a, size, nr, q) <==> p == q || Shared(a, size, nr, p, q)
  {
    hide At, LeastOne;
    if p < q { SamePassAbove(a, size, nr, p, q); } else if q < p { SamePassAbove(a, size, nr, q, p); }
  }

  lemma SamePassAbove(a: seq<Word>, size: int, nr: int, p: int, q: int)
    requires 0 <= p < q && 1 <= nr && 0 <= size && q + nr < LIMIT
    ensures PassFrom(a, size, nr, p) == PassFrom(a, size, nr, q) <==> Shared(a, size, nr, p, q)
  {
    hide At;
    var i := LeastOne(a, p + nr, p);
    if Shared(a, size, nr, p, q) {
      LeastOneIs(a, q + nr, q, i);
    }
  }

  /** Where the shipped find_next_zero_bit points: to the bottom of the word it starts in, or not below start. */
  lemma ShippedIndex(a: seq<Word>, size: int, start: int, ffz: Word -> int)
    requires ShippedFfz(ffz) && 0 <= ffz(Zero()) && 0 <= start && 0 <= size <= 32 * |a|
    ensures var z := LeastZero(a, size, start);
      var p := NextZero(a, size, start, ffz);
      && (z < size && start % 32 != 0 && z / 32 == start / 32 ==> p == 32 * (start / 32))
      && (z < size && !(start % 32 != 0 && z / 32 == start / 32) ==> start <= p)
      && (z >= size ==> p == size)
      && 0 <= p <= size + 31 + ffz(Zero())
  {
    hide Ffs;
    var z := LeastZero(a, size, start);
    if z < size {
      var w := ZeroWord(a, z / 32, start, size);
      assert !w[z % 32];
      if start % 32 != 0 && z / 32 == start / 32 {
        assert w[0];
      }
    }
  }

  /** The shipped search comes back to a start it has already passed. */
  ghost predicate Back(a: seq<Word>, size: int, start: int, nr: int, align: int)
    requires 0 <= start && 1 <= align
  {
    var z := LeastZero(a, size, start);
    var x := AlignUp(32 * (start / 32), align);
    && start % 32 != 0 && z < size && z / 32 == start / 32 && x + nr <= size
    && LeastOne(a, x + nr, x) < x + nr && LeastOne(a, x + nr, x) < start
  }

  /** Numbers so small that neither an index nor its rounding leaves 32 bits, whatever bsf makes of 0. */
  ghost predicate Roomy(size: int, nr: int, align: int, ffz: Word -> int) {
    && 0 <= size && 0 <= nr < LIMIT && 1 <= align <= LIMIT && LIMIT % align == 0
    && 0 <= ffz(Zero()) && size + 32 + ffz(Zero()) + align <= LIMIT
  }

  /** A pass comes back to a start no larger than its own exactly then. */
  lemma BackIff(a: seq<Word>, size: int, start: int, nr: int, align: int, ffz: Word -> int)
    requires ShippedFfz(ffz) && 0 <= start && size <= 32 * |a| && Roomy(size, nr, align, ffz)
    ensures var p := AreaPass(a, size, start, nr, align, ffz);
      p.Again? && p.start <= start <==> Back(a, size, start, nr, align)
    ensures var p := AreaPass(a, size, start, nr, align, ffz);
      p.Again? ==> 0 <= p.start <= size
  {
    hide At, NextZero, LeastZero, LeastOne, AlignMask, AlignUp, ShippedFfz, PassFrom;
    ShippedIndex(a, size, start, ffz);
    var p := NextZero(a, size, start, ffz);
    AlignMaskIs(p, align);
    BackPass(a, size, start, nr, AlignMask(p, align));
  }

  lemma BackPass(a: seq<Word>, size: int, start: int, nr: int, x: int)
    requires 0 <= x < LIMIT && 0 <= nr < LIMIT && 0 <= size < LIMIT
    ensures var p, i := PassFrom(a, size, nr, x), LeastOne(a, x + nr, x);
      && (p.Again? && p.start <= start <==> x + nr <= size && i < x + nr && i < start)
      && (p.Again? ==> x < p.start <= size)
  {
    PassAt(a, size, nr, x);
    hide At, PassFrom;
  }

  /** The shipped pass is the documented one exactly when both reach one aligned index, or meet one set bit. */
  lemma ShippedPassIff(a: seq<Word>, size: int, start: int, nr: int, align: int, ffz: Word -> int,
                       documented: Word -> int)
    requires ShippedFfz(ffz) && DocumentedFfz(documented) && 0 <= start && size <= 32 * |a| && 1 <= nr
    requires Roomy(size, nr, align, ffz) && size + 32 + ffz(Zero()) + align + nr <= LIMIT
    ensures var p, q := NextZero(a, size, start, ffz), LeastZero(a, size, start);
      && 0 <= p
      && (AreaPass(a, size, start, nr, align, ffz) == AreaPass(a, size, start, nr, align, documented) <==>
          AlignUp(p, align) == AlignUp(q, align) || Shared(a, size, nr, AlignUp(p, align), AlignUp(q, align)))
  {
    hide At, NextZero, LeastZero, LeastOne, AlignMask, AlignUp, PassFrom, Shared, ShippedFfz, DocumentedFfz;
    NextZeroDocumented(a, size, start, documented);
    ShippedIndex(a, size, start, ffz);
    var p, q := NextZero(a, size, start, ffz), LeastZero(a, size, start);
    AlignMaskIs(p, align);
    AlignMaskIs(q, align);
    AlignUpLeast(p, align);
    AlignUpLeast(q, align);
    SamePass(a, size, nr, AlignUp(p, align), AlignUp(q, align));
  }

  /**
   They can agree although find_next_zero_bit went wrong: where bit 1 is the first set bit, asked for two bits from 0
   on, the documented pass stands at 0, the shipped one at 1, and both go on behind bit 1.
   */
  lemma SharedExample(a: seq<Word>, size: int, ffz: Word -> int, documented: Word -> int)
    requires ShippedFfz(ffz) && DocumentedFfz(documented) && 3 <= size <= 32 * |a| && !At(a, 0) && At(a, 1)
    requires Roomy(size, 2, 1, ffz) && size + 35 + ffz(Zero()) <= LIMIT
    ensures NextZero(a, size, 0, ffz) == 1 && LeastZero(a, size, 0) == 0
    ensures AreaPass(a, size, 0, 2, 1, ffz) == AreaPass(a, size, 0, 2, 1, documented) == Again(2)
  {
    PointsToOne(a, size, ffz);
    var two := 2;
    LeastOneIs(a, two, 0, 1);
    hide At, LeastZero, LeastOne, AlignUp, AlignMask, PassFrom, NextZero;
    AlignUpLeast(0, 1);
    AlignUpLeast(1, 1);
    ShippedPassIff(a, size, 0, two, 1, ffz, documented);
    DocumentedPass(a, size, 0, two, 1, documented);
  }

  lemma PointsToOne(a: seq<Word>, size: int, ffz: Word -> int)
    requires ShippedFfz(ffz) && 3 <= size <= 32 * |a| && !At(a, 0) && At(a, 1)
    ensures NextZero(a, size, 0, ffz) == 1 && LeastZero(a, size, 0) == 0
  {
    hide Ffs;
    var w := ZeroWord(a, 0, 0, size);
    assert w[1] && !w[0];
  }

  // ------------------------------------------------------------------ whole searches

  /** The state after n passes from `start`. */
  ghost function After(a: seq<Word>, size: int, start: int, nr: int, align: int, ffz: Word -> int, n: nat): Pass
    requires 1 <= align
  {
    if n == 0 then Again(start)
    else
      var p := After(a, size, start, nr, align, ffz, n - 1);
      if p.Done? then p else AreaPass(a, size, p.start, nr, align, ffz)
  }

  ghost predicate NeverEnds(a: seq<Word>, size: int, start: int, nr: int, align: int, ffz: Word -> int)
    requires 1 <= align
  {
    forall n: nat :: After(a, size, start, nr, align, ffz, n).Again?
  }

  /** The shipped search goes the way of the documented one as long as every pass finds the right zero bit. */
  lemma {:induction false} ShippedAgrees(a: seq<Word>, size: int, start: int, nr: int, align: int,
                                         ffz: Word -> int, documented: Word -> int, n: nat)
    requires DocumentedFfz(documented) && 0 <= start && 0 <= size <= 32 * |a| && 1 <= align
    requires forall k: nat :: k < n ==>
      var p := After(a, size, start, nr, align, ffz, k);
      p.Again? ==> 0 <= p.start && NextZero(a, size, p.start, ffz) == LeastZero(a, size, p.start)
    ensures After(a, size, start, nr, align, ffz, n) == After(a, size, start, nr, align, documented, n)
  {
    hide At, NextZero, LeastZero, AlignMask, PassFrom, DocumentedFfz;
    if n > 0 {
      ShippedAgrees(a, size, start, nr, align, ffz, documented, n - 1);
      var p := After(a, size, start, nr, align, ffz, n - 1);
      if p.Again? { NextZeroDocumented(a, size, p.start, documented); }
    }
  }

  /** A pass of a documented search that will not end leads to a start from which it will not end. */
  lemma WrapsAgain(a: seq<Word>, size: int, start: int, nr: int, align: int, ffz: Word -> int)
    requires DocumentedFfz(ffz) && 0 <= start && 0 <= size <= 32 * |a| && size < LIMIT && 0 <= nr < LIMIT
    requires 1 <= align <= LIMIT && LIMIT % align == 0 && !Ends(a, size, start, nr, align)
    ensures var p := AreaPass(a, size, start, nr, align, ffz);
      p.Again? && 0 <= p.start && !Ends(a, size, p.start, nr, align)
  {
    hide At, AreaPass, DocumentedFfz, AlignUp, LeastOne, LeastZero, LastIndex, PassFrom, Outcome, Restart;
    DocumentedPass(a, size, start, nr, align, ffz);
    LastIndexStep(a, size, start, nr, align);
    WrappedPass(a, size, nr);
  }

  lemma {:induction false} WrapsForever(a: seq<Word>, size: int, start: int, nr: int, align: int, ffz: Word -> int,
                                        n: nat)
    requires DocumentedFfz(ffz) && 0 <= start && 0 <= size <= 32 * |a| && size < LIMIT && 0 <= nr < LIMIT
    requires 1 <= align <= LIMIT && LIMIT % align == 0 && !Ends(a, size, start, nr, align)
    ensures var p := After(a, size, start, nr, align, ffz, n);
      p.Again? && 0 <= p.start && !Ends(a, size, p.start, nr, align)
  {
    hide Ends, AreaPass, DocumentedFfz;
    if n > 0 {
      WrapsForever(a, size, start, nr, align, ffz, n - 1);
      WrapsAgain(a, size, After(a, size, start, nr, align, ffz, n - 1).start, nr, align, ffz);
    }
  }

  /** Otherwise some pass returns the answer. */
  lemma {:induction false} AnswersAfter(a: seq<Word>, size: int, start: int, nr: int, align: int, ffz: Word -> int)
    returns (n: nat)
    requires DocumentedFfz(ffz) && 0 <= start && 0 <= size <= 32 * |a| && size < LIMIT && 0 <= nr < LIMIT
    requires 1 <= align <= LIMIT && LIMIT % align == 0 && Ends(a, size, start, nr, align)
    ensures After(a, size, start, nr, align, ffz, n) == Done(Answer(a, size, start, nr, align))
    decreases Wraps(a, size, start, nr, align), size - start
  {
    hide At, AreaPass, DocumentedFfz, AlignUp, LeastOne, LeastZero, LastIndex, PassFrom, Outcome, Restart;
    DocumentedPass(a, size, start, nr, align, ffz);
    LastIndexStep(a, size, start, nr, align);
    WrappedPass(a, size, nr);
    var p := AreaPass(a, size, start, nr, align, ffz);
    FirstOfAll(a, size, start, nr, align, ffz);
    n := 1;
    if p.Again? {
      var m := AnswersAfter(a, size, p.start, nr, align, ffz);
      AfterFrom(a, size, start, nr, align, ffz, 1, p.start, m);
      n := 1 + m;
    }
  }

  lemma FirstOfAll(a: seq<Word>, size: int, start: int, nr: int, align: int, ffz: Word -> int)
    requires 1 <= align
    ensures After(a, size, start, nr, align, ffz, 1) == AreaPass(a, size, start, nr, align, ffz)
  {
    hide AreaPass;
    assert After(a, size, start, nr, align, ffz, 0) == Again(start);
  }

  lemma {:induction false} StaysDone(a: seq<Word>, size: int, start: int, nr: int, align: int, ffz: Word -> int,
                                     k: nat, n: nat)
    requires 1 <= align && k <= n && After(a, size, start, nr, align, ffz, k).Done?
    ensures After(a, size, start, nr, align, ffz, n) == After(a, size, start, nr, align, ffz, k)
    decreases n
  {
    hide AreaPass;
    if k < n { StaysDone(a, size, start, nr, align, ffz, k, n - 1); }
  }

  /** The documented search, pass by pass: it never ends exactly when Ends says so, and when it ends, with Answer. */
  lemma DocumentedEndsIff(a: seq<Word>, size: int, start: int, nr: int, align: int, ffz: Word -> int)
    requires DocumentedFfz(ffz) && 0 <= start && 0 <= size <= 32 * |a| && size < LIMIT && 0 <= nr < LIMIT
    requires 1 <= align <= LIMIT && LIMIT % align == 0
    ensures NeverEnds(a, size, start, nr, align, ffz) <==> !Ends(a, size, start, nr, align)
    ensures forall n: nat :: After(a, size, start, nr, align, ffz, n).Done? ==>
              After(a, size, start, nr, align, ffz, n).r == Answer(a, size, start, nr, align)
  {
    hide Ends, Answer, AreaPass, DocumentedFfz, After;
    if Ends(a, size, start, nr, align) {
      var m := AnswersAfter(a, size, start, nr, align, ffz);
      forall n: nat | After(a, size, start, nr, align, ffz, n).Done?
        ensures After(a, size, start, nr, align, ffz, n).r == Answer(a, size, start, nr, align)
      {
        StaysDone(a, size, start, nr, align, ffz, m, if m < n then n else m);
        StaysDone(a, size, start, nr, align, ffz, n, if m < n then n else m);
      }
      assert !After(a, size, start, nr, align, ffz, m).Again?;
    } else {
      forall n: nat ensures After(a, size, start, nr, align, ffz, n).Again? {
        WrapsForever(a, size, start, nr, align, ffz, n);
      }
    }
  }

  /**
   What the shipped search returns when every pass finds the least zero bit is the documented answer, right under the
   same condition.
   */
  lemma ShippedRight(a: seq<Word>, size: int, start: int, nr: int, align: int, ffz: Word -> int,
                     documented: Word -> int, n: nat)
    requires DocumentedFfz(documented) && 0 <= start && 0 <= size <= 32 * |a| && size < LIMIT && 1 <= nr < LIMIT
    requires 1 <= align <= LIMIT && LIMIT % align == 0 && After(a, size, start, nr, align, ffz, n).Done?
    requires forall k: nat :: k < n ==>
      var p := After(a, size, start, nr, align, ffz, k);
      p.Again? ==> 0 <= p.start && NextZero(a, size, p.start, ffz) == LeastZero(a, size, p.start)
    ensures var r, x := After(a, size, start, nr, align, ffz, n).r, LastIndex(a, size, start, nr, align);
      && r == Answer(a, size, start, nr, align)
      && (RightArea(a, size, start, nr, align, r) <==> if x < LIMIT then x > size || x + nr < LIMIT else r > size)
  {
    hide At, NextZero, LeastZero, LastIndex, Answer, AreaPass, DocumentedFfz, After, RightArea;
    ShippedAgrees(a, size, start, nr, align, ffz, documented, n);
    DocumentedEndsIff(a, size, start, nr, align, documented);
    AnswerIff(a, size, start, nr, align);
  }

  /** A search that comes back once stays where it came back to. */
  lemma BackAgain(a: seq<Word>, size: int, start: int, nr: int, align: int, ffz: Word -> int)
    requires ShippedFfz(ffz) && 0 <= start && size <= 32 * |a| && Roomy(size, nr, align, ffz)
    requires Back(a, size, start, nr, align)
    ensures var p := AreaPass(a, size, start, nr, align, ffz);
      p.Again? && 0 <= p.start && Back(a, size, p.start, nr, align) && AreaPass(a, size, p.start, nr, align, ffz) == p
  {
    hide At, NextZero, LeastZero, LeastOne, AlignMask, AlignUp, PassFrom, ShippedFfz;
    BackIff(a, size, start, nr, align, ffz);
    BackTo(a, size, start, nr, align, ffz);
    var t := AreaPass(a, size, start, nr, align, ffz).start;
    AlignUpLeast(32 * (start / 32), align);
    SameWord(a, size, start, t);
    BackTo(a, size, t, nr, align, ffz);
  }

  /** Where it comes back to: behind the first set bit from the bottom of the word. */
  lemma BackTo(a: seq<Word>, size: int, start: int, nr: int, align: int, ffz: Word -> int)
    requires ShippedFfz(ffz) && 0 <= start && size <= 32 * |a| && Roomy(size, nr, align, ffz)
    requires Back(a, size, start, nr, align)
    ensures var x := AlignUp(32 * (start / 32), align);
      AreaPass(a, size, start, nr, align, ffz) == Again(LeastOne(a, x + nr, x) + 1)
  {
    hide At, NextZero, LeastZero, LeastOne, AlignMask, AlignUp, PassFrom, ShippedFfz;
    ShippedIndex(a, size, start, ffz);
    AlignMaskIs(32 * (start / 32), align);
    PassAt(a, size, nr, AlignUp(32 * (start / 32), align));
  }

  lemma SameWord(a: seq<Word>, size: int, start: int, t: int)
    requires 0 <= start && start % 32 != 0 && LeastZero(a, size, start) < size
    requires LeastZero(a, size, start) / 32 == start / 32
    requires 32 * (start / 32) < t <= start
    ensures t % 32 != 0 && t / 32 == start / 32 && LeastZero(a, size, t) < size
    ensures LeastZero(a, size, t) / 32 == start / 32
  {
    hide At;
    var z, y := LeastZero(a, size, start), LeastZero(a, size, t);
    assert y <= z;
  }

  /** From a start that comes back, the shipped search never ends. */
  lemma BackForever(a: seq<Word>, size: int, start: int, nr: int, align: int, ffz: Word -> int)
    requires ShippedFfz(ffz) && 0 <= start && size <= 32 * |a| && Roomy(size, nr, align, ffz)
    requires Back(a, size, start, nr, align)
    ensures NeverEnds(a, size, start, nr, align, ffz)
  {
    forall n: nat ensures After(a, size, start, nr, align, ffz, n).Again? {
      BackAfter(a, size, start, nr, align, ffz, n);
    }
  }

  lemma {:induction false} BackAfter(a: seq<Word>, size: int, start: int, nr: int, align: int, ffz: Word -> int, n: nat)
    requires ShippedFfz(ffz) && 0 <= start && size <= 32 * |a| && Roomy(size, nr, align, ffz)
    requires Back(a, size, start, nr, align)
    ensures var p := After(a, size, start, nr, align, ffz, n);
      p.Again? && 0 <= p.start && Back(a, size, p.start, nr, align)
  {
    hide Back, AreaPass, ShippedFfz;
    if n > 0 {
      BackAfter(a, size, start, nr, align, ffz, n - 1);
      BackAgain(a, size, After(a, size, start, nr, align, ffz, n - 1).start, nr, align, ffz);
    }
  }

  /** Pass k starts at s, where the search comes back. */
  ghost predicate ComesBack(a: seq<Word>, size: int, start: int, nr: int, align: int, ffz: Word -> int, k: nat, s: nat)
    requires 1 <= align
  {
    After(a, size, start, nr, align, ffz, k) == Again(s) && Back(a, size, s, nr, align)
  }

  /** Without coming back, each pass moves the start up. */
  lemma {:induction false} MovesUp(a: seq<Word>, size: int, start: int, nr: int, align: int, ffz: Word -> int, n: nat)
    requires ShippedFfz(ffz) && 0 <= start && size <= 32 * |a| && Roomy(size, nr, align, ffz)
    requires forall k: nat, s: nat :: !ComesBack(a, size, start, nr, align, ffz, k, s)
    ensures var p := After(a, size, start, nr, align, ffz, n); p.Again? ==>
              start + n <= p.start && (n > 0 ==> p.start <= size)
  {
    hide Back, AreaPass, ShippedFfz;
    if n > 0 {
      MovesUp(a, size, start, nr, align, ffz, n - 1);
      var p := After(a, size, start, nr, align, ffz, n - 1);
      if p.Again? {
        var s: nat := p.start;
        assert !ComesBack(a, size, start, nr, align, ffz, n - 1, s);
        BackIff(a, size, s, nr, align, ffz);
      }
    }
  }

  lemma {:induction false} AfterFrom(a: seq<Word>, size: int, start: int, nr: int, align: int, ffz: Word -> int,
                                     k: nat, s: int, n: nat)
    requires 1 <= align && After(a, size, start, nr, align, ffz, k) == Again(s)
    ensures After(a, size, start, nr, align, ffz, k + n) == After(a, size, s, nr, align, ffz, n)
  {
    hide AreaPass;
    if n > 0 { AfterFrom(a, size, start, nr, align, ffz, k, s, n - 1); }
  }

  lemma {:induction false} StillAgain(a: seq<Word>, size: int, start: int, nr: int, align: int, ffz: Word -> int,
                                      k: nat, n: nat)
    requires 1 <= align && k <= n && After(a, size, start, nr, align, ffz, n).Again?
    ensures After(a, size, start, nr, align, ffz, k).Again?
    decreases n
  {
    hide AreaPass;
    if k < n { StillAgain(a, size, start, nr, align, ffz, k, n - 1); }
  }

  /** The shipped search never ends exactly when one of its passes starts where it comes back. */
  lemma ShippedEndsIff(a: seq<Word>, size: int, start: int, nr: int, align: int, ffz: Word -> int)
    requires ShippedFfz(ffz) && 0 <= start && size <= 32 * |a| && Roomy(size, nr, align, ffz)
    ensures NeverEnds(a, size, start, nr, align, ffz) <==>
              exists k: nat, s: nat :: ComesBack(a, size, start, nr, align, ffz, k, s)
  {
    hide Back, AreaPass, ShippedFfz, After;
    if k: nat, s: nat :| ComesBack(a, size, start, nr, align, ffz, k, s) {
      BackForever(a, size, s, nr, align, ffz);
      forall n: nat ensures After(a, size, start, nr, align, ffz, n).Again? {
        AfterFrom(a, size, start, nr, align, ffz, k, s, n);
        StillAgain(a, size, start, nr, align, ffz, n, k + n);
      }
    } else {
      MovesUp(a, size, start, nr, align, ffz, size + 1);
      assert !After(a, size, start, nr, align, ffz, size + 1).Again?;
    }
  }

  /** On the map {0}, asked for one bit from 1 on, it comes back at once. */
  lemma ShippedAreaNeverEnds(ffz: Word -> int)
    requires ShippedFfz(ffz) && 0 <= ffz(Zero()) < 32
    ensures NeverEnds([LowMask(1)], 32, 1, 1, 1, ffz)
  {
    var a := [LowMask(1)];
    assert At(a, 0) && !At(a, 1);
    assert LeastZero(a, 32, 1) == 1 && LeastOne(a, 1, 0) == 0;
    hide At, LeastZero, LeastOne, AlignUp;
    AlignUpLeast(0, 1);
    BackForever(a, 32, 1, 1, 1, ffz);
  }
}
