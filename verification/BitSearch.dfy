/** Ranges of bits and searches: set_bit, bitmap_clear and find_next_bit.c. */
module BitSearch {
  import opened Bitmap

  /** set_bit */
  function SetBit(a: seq<Word>, i: int): seq<Word>
    requires 0 <= i < 32 * |a|
  {
    a[i / 32 := a[i / 32][i % 32 := true]]
  }

  lemma SetBitAt(a: seq<Word>, i: int)
    requires 0 <= i < 32 * |a|
    ensures |SetBit(a, i)| == |a| && forall j :: At(SetBit(a, i), j) <==> At(a, j) || j == i
  {
  }

  /** bitmap_clear: exactly the bits [start, start + nr) become zero. */
  method ClearRange(words: array<Word>, start: int, nr0: int)
    requires 0 <= start && 0 <= nr0 && start + nr0 <= 32 * words.Length
    modifies words
    ensures forall i :: At(words[..], i) <==> old(At(words[..], i)) && !(start <= i < start + nr0)
  {
    hide At;
    ghost var s := words[..];
    var nr, p := nr0, start / 32;
    var size := start + nr;
    var bits := 32 - start % 32;
    var mask := FirstWordMask(start);
    RangeStart(s, start, nr0);
    while nr - bits >= 0
      invariant 0 <= nr <= nr0 && bits == 32 - (size - nr) % 32 && p == (size - nr) / 32
      invariant mask == FirstWordMask(size - nr)
      invariant nr == nr0 || (size - nr) % 32 == 0
      invariant Cleared(s, words[..], start, size - nr)
      decreases nr
    {
      ghost var d := words[..];
      words[p] := And(words[p], Not(mask));
      ClearStep(s, d, words[..], start, size - nr, size - nr + bits, mask);
      nr := nr - bits;
      bits := 32;
      mask := LowMask(32);
      p := p + 1;
      FirstMaskAligned(size - nr);
    }
    if nr != 0 {
      ghost var d := words[..];
      LastMask(size - nr, size);
      mask := And(mask, LastWordMask(size));
      words[p] := And(words[p], Not(mask));
      ClearStep(s, d, words[..], start, size - nr, size, mask);
    }
    ClearEnd(s, words[..], start, size);
  }

  /** The bits of d are those of s with [start, upto) cleared. */
  predicate Cleared(s: seq<Word>, d: seq<Word>, start: int, upto: int) {
    |d| == |s| && forall i :: 0 <= i < 32 * |s| ==> (At(d, i) <==> At(s, i) && !(start <= i < upto))
  }

  lemma RangeStart(s: seq<Word>, start: int, nr: int)
    requires 0 <= start && 0 <= nr
    ensures Cleared(s, s, start, start)
  {
  }

  lemma ClearEnd(s: seq<Word>, d: seq<Word>, start: int, upto: int)
    requires Cleared(s, d, start, upto)
    ensures forall i :: At(d, i) <==> At(s, i) && !(start <= i < upto)
  {
  }

  lemma FirstMaskAligned(pos: int)
    requires 0 <= pos && pos % 32 == 0
    ensures FirstWordMask(pos) == LowMask(32)
  {
  }

  /** The mask of the part of a word from bit `pos` up to, but not including, bit `size`. */
  lemma LastMask(pos: int, size: int)
    requires 0 <= pos < size <= pos - pos % 32 + 32
    ensures forall b :: 0 <= b < 32 ==>
                (And(FirstWordMask(pos), LastWordMask(size))[b] <==> pos <= pos - pos % 32 + b < size)
  {
  }

  lemma ClearStep(s: seq<Word>, d: seq<Word>, d': seq<Word>, start: int, pos: int, upto: int, mask: Word)
    requires Cleared(s, d, start, pos) && 0 <= start <= pos <= upto <= pos - pos % 32 + 32 && pos / 32 < |s| == |d'|
    requires d' == d[pos / 32 := And(d[pos / 32], Not(mask))]
    requires forall b :: 0 <= b < 32 ==> (mask[b] <==> pos <= pos - pos % 32 + b < upto)
    ensures Cleared(s, d', start, upto)
  {
    forall i | 0 <= i < 32 * |s| ensures At(d', i) <==> At(s, i) && !(start <= i < upto) {
      assert At(d, i) <==> At(s, i) && !(start <= i < pos);
      if i / 32 == pos / 32 {
        assert i == pos - pos % 32 + i % 32;
        assert d'[pos / 32][i % 32] == (d[pos / 32][i % 32] && !mask[i % 32]);
      }
    }
  }

  // ------------------------------------------------------------------ searching a word

  /** The lowest set bit at or above i. */
  ghost function Lowest(w: Word, i: int): (r: int)
    requires 0 <= i <= 32
    ensures i <= r <= 32 && (r < 32 ==> w[r]) && forall j :: i <= j < r ==> !w[j]
    decreases 32 - i
  {
    if i == 32 || w[i] then i else Lowest(w, i + 1)
  }

  /** v is w shifted right by n, and the lowest set bit k of w lies in [n, n + width). */
  ghost predicate Narrowed(w: Word, v: Word, n: int, width: int, k: int) {
    && 0 <= n && n + width <= 32 && n <= k < n + width && w[k]
    && (forall j :: 0 <= j < k ==> !w[j])
    && v == Shr(w, n)
  }

  /** __ffs: the lowest set bit of a non-zero word, by halving. */
  function Ffs(w: Word): (r: int)
    requires w != Zero()
    ensures 0 <= r < 32 && w[r] && forall j :: 0 <= j < r ==> !w[j]
  {
    ghost var k := Lowest(w, 0);
    NonZero(w);
    var s0 := HalfStep(w, 0, 16, w, k);
    var s1 := HalfStep(s0.1, s0.0, 8, w, k);
    var s2 := HalfStep(s1.1, s1.0, 4, w, k);
    var s3 := HalfStep(s2.1, s2.0, 2, w, k);
    HalfStep(s3.1, s3.0, 1, w, k).0
  }

  lemma NonZero(w: Word)
    requires w != Zero()
    ensures Narrowed(w, w, 0, 32, Lowest(w, 0))
  {
    assert exists j :: 0 <= j < 32 && w[j] != Zero()[j];
    assert w == Shr(w, 0);
  }

  /** One line of __ffs: skip h low zero bits. */
  function HalfStep(v: Word, n: int, h: int, ghost w: Word, ghost k: int): (r: (int, Word))
    requires 1 <= h && Narrowed(w, v, n, 2 * h, k)
    ensures Narrowed(w, r.1, r.0, h, k)
  {
    HalfStepBits(v, n, h, w, k);
    if And(v, LowMask(h)) == Zero() then (n + h, Shr(v, h)) else (n, v)
  }

  lemma HalfStepBits(v: Word, n: int, h: int, w: Word, k: int)
    requires 1 <= h && Narrowed(w, v, n, 2 * h, k)
    ensures And(v, LowMask(h)) == Zero() <==> n + h <= k
    ensures Shr(v, h) == Shr(w, n + h)
  {
    var m := And(v, LowMask(h));
    if k < n + h {
      assert m[k - n] && !Zero()[k - n];
    } else {
      forall j | 0 <= j < 32 ensures m[j] == Zero()[j] {
        if j < h { assert !w[j + n]; }
      }
    }
  }

  /** Least index in [offset, size) whose bit equals `b`, or `size`. */
  predicate IsNext(a: seq<Word>, b: bool, size: int, offset: int, r: int) {
    && (forall i :: offset <= i < r && i < size ==> At(a, i) != b)
    && (if offset >= size then r == size else offset <= r <= size)
    && (r < size ==> At(a, r) == b)
  }

  // ---------------------------------------------------------------- searching a bitmap

  /** Word j with the bits below `lo` and from `hi` on switched off (the masking in find_next_bit). */
  ghost predicate Window(a: seq<Word>, tmp: Word, j: int, lo: int, hi: int) {
    forall b :: 0 <= b < 32 ==> (tmp[b] <==> lo <= 32 * j + b < hi && At(a, 32 * j + b))
  }

  /** `found_middle`: the answer lies in this word. */
  lemma WindowHit(a: seq<Word>, tmp: Word, j: int, lo: int, hi: int)
    requires 0 <= j < |a| && 0 <= lo && 32 * j < hi && Window(a, tmp, j, lo, hi)
    ensures tmp != Zero() ==> var r := 32 * j + Ffs(tmp);
      lo <= r < hi && At(a, r) && forall i :: lo <= i < r && 32 * j <= i ==> !At(a, i)
    ensures tmp == Zero() ==> forall i :: lo <= i < hi && 32 * j <= i < 32 * j + 32 ==> !At(a, i)
  {
    hide At, Ffs;
    if tmp == Zero() {
      forall i | lo <= i < hi && 32 * j <= i < 32 * j + 32 ensures !At(a, i) {
        assert !tmp[i - 32 * j] && 32 * j + (i - 32 * j) == i;
      }
    } else {
      var r := 32 * j + Ffs(tmp);
      forall i | lo <= i < r && 32 * j <= i ensures !At(a, i) {
        assert !tmp[i - 32 * j] && 32 * j + (i - 32 * j) == i;
      }
    }
  }

  /** The first two masks of find_next_bit: a word from `offset` on, and a whole word. */
  lemma WindowMasks(a: seq<Word>, j: int, lo: int)
    requires 0 <= j < |a|
    ensures 32 * j <= lo < 32 * j + 32 ==> Window(a, And(a[j], Shl(LowMask(32), lo % 32)), j, lo, 32 * j + 32)
    ensures lo <= 32 * j ==> Window(a, a[j], j, lo, 32 * j + 32)
  {
    forall b | 0 <= b < 32 ensures At(a, 32 * j + b) == a[j][b] { AtWord(a, j, b); }
    hide At;
  }

  lemma WindowLow(a: seq<Word>, tmp: Word, j: int, lo: int, size: int)
    requires 0 < size < 32 && Window(a, tmp, j, lo, 32 * j + 32)
    ensures Window(a, And(tmp, Shr(LowMask(32), 32 - size)), j, lo, 32 * j + size)
  {
  }

  /** find_next_bit */
  method FindNextBit(a: seq<Word>, size0: int, offset0: int) returns (r: int)
    requires 0 <= offset0 && 0 <= size0 <= 32 * |a|
    ensures IsNext(a, true, size0, offset0, r)
  {
    hide At, And, Shl, Shr, Window, Ffs;
    if offset0 >= size0 {
      return size0;
    }
    var p, result := offset0 / 32, offset0 - offset0 % 32;
    var size, offset := size0 - result, offset0 % 32;
    var tmp;
    if offset != 0 {
      WindowMasks(a, p, offset0);
      tmp := And(a[p], Shl(LowMask(32), offset));
      if size < 32 {
        r := FoundFirst(a, tmp, p, size, offset0);
        return;
      }
      WindowHit(a, tmp, p, offset0, result + 32);
      if tmp != Zero() {
        return result + Ffs(tmp);
      }
      p := p + 1;
      size := size - 32;
      result := result + 32;
    }
    while size >= 32
      invariant 0 <= size && result + size == size0 && result == 32 * p && offset0 <= result
      invariant forall i :: offset0 <= i < result ==> !At(a, i)
    {
      WindowMasks(a, p, offset0);
      tmp := a[p];
      WindowHit(a, tmp, p, offset0, result + 32);
      if tmp != Zero() {
        return result + Ffs(tmp);
      }
      p := p + 1;
      result := result + 32;
      size := size - 32;
    }
    if size == 0 {
      return result;
    }
    WindowMasks(a, p, offset0);
    r := FoundFirst(a, a[p], p, size, offset0);
  }

  /** find_next_bit from `found_first` on: the last, partial word. */
  method FoundFirst(a: seq<Word>, tmp0: Word, p: int, size: int, ghost lo: int) returns (r: int)
    requires 0 < size < 32 && 0 <= p < |a| && 0 <= lo < 32 * p + size && Window(a, tmp0, p, lo, 32 * p + 32)
    ensures lo <= r || 32 * p <= r
    ensures r <= 32 * p + size && (r < 32 * p + size ==> lo <= r && At(a, r))
    ensures forall i :: lo <= i < r && 32 * p <= i ==> !At(a, i)
  {
    hide At, And, Shl, Shr, Window, Ffs;
    WindowLow(a, tmp0, p, lo, size);
    var tmp := And(tmp0, Shr(LowMask(32), 32 - size));
    WindowHit(a, tmp, p, lo, 32 * p + size);
    if tmp == Zero() {
      return 32 * p + size;
    }
    return 32 * p + Ffs(tmp);
  }

  /** find_first_bit */
  method FindFirstBit(a: seq<Word>, size0: int) returns (r: int)
    requires 0 <= size0 <= 32 * |a|
    ensures IsNext(a, true, size0, 0, r)
  {
    hide At, And, Shl, Shr, Window, Ffs;
    var p, result, size := 0, 0, size0;
    while size >= 32
      invariant 0 <= size && result + size == size0 && result == 32 * p && 0 <= p
      invariant forall i :: 0 <= i < result ==> !At(a, i)
    {
      WindowMasks(a, p, 0);
      WindowHit(a, a[p], p, 0, result + 32);
      if a[p] != Zero() {
        return result + Ffs(a[p]);
      }
      p := p + 1;
      result := result + 32;
      size := size - 32;
    }
    if size == 0 {
      return result;
    }
    WindowMasks(a, p, 0);
    r := FoundFirst(a, a[p], p, size, 0);
  }

  // ------------------------------------------------------------------------ zero bits

  /** Word j with every bit outside [lo, hi) switched on (the masking in find_next_zero_bit). */
  ghost function ZeroWord(a: seq<Word>, j: int, lo: int, hi: int): Word {
    seq(32, b requires 0 <= b < 32 => !(lo <= 32 * j + b < hi && !At(a, 32 * j + b)))
  }

  /** The least zero bit in [i, size), or size. */
  ghost function LeastZero(a: seq<Word>, size: int, i: int): (z: int)
    ensures IsNext(a, false, size, i, z)
    decreases size - i
  {
    if i >= size then size else if !At(a, i) then i else LeastZero(a, size, i + 1)
  }

  /** What find_next_zero_bit returns when its helper is `ffz`. */
  ghost function NextZero(a: seq<Word>, size: int, offset: int, ffz: Word -> int): int {
    var z := LeastZero(a, size, offset);
    if z >= size then size else 32 * (z / 32) + ffz(ZeroWord(a, z / 32, offset, size))
  }

  /** "Find First Zero in word", as include/asm/bitops.h:64-67 documents it. */
  ghost predicate DocumentedFfz(ffz: Word -> int) {
    forall w: Word :: w != LowMask(32) ==> 0 <= ffz(w) < 32 && !w[ffz(w)] && forall j :: 0 <= j < ffz(w) ==> w[j]
  }

  /** The body at include/asm/bitops.h:69-72: a bare bsf, undefined on zero. */
  ghost predicate ShippedFfz(ffz: Word -> int) {
    forall w: Word :: w != Zero() ==> ffz(w) == Ffs(w)
  }

  lemma ZeroWordMasks(a: seq<Word>, j: int, lo: int, hi: int)
    requires 0 <= j < |a|
    ensures 32 * j <= lo < 32 * j + 32 && lo % 32 != 0 && 32 * j + 32 <= hi ==>
              Or(a[j], Shr(LowMask(32), 32 - lo % 32)) == ZeroWord(a, j, lo, hi)
    ensures lo <= 32 * j && 32 * j + 32 <= hi ==> a[j] == ZeroWord(a, j, lo, hi)
    ensures 32 * j <= lo < 32 * j + 32 && lo % 32 != 0 && 32 * j < hi < 32 * j + 32 ==>
              Or(Or(a[j], Shr(LowMask(32), 32 - lo % 32)), Shl(LowMask(32), hi - 32 * j)) == ZeroWord(a, j, lo, hi)
    ensures lo <= 32 * j && 32 * j < hi < 32 * j + 32 ==>
              Or(a[j], Shl(LowMask(32), hi - 32 * j)) == ZeroWord(a, j, lo, hi)
  {
    forall b | 0 <= b < 32 ensures At(a, 32 * j + b) == a[j][b] { AtWord(a, j, b); }
  }

  /** Whether a word holds the least zero, read off its masked form. */
  lemma ZeroWordHit(a: seq<Word>, j: int, lo: int, hi: int)
    requires 0 <= j && 0 <= lo
    requires forall i :: lo <= i < hi && i < 32 * j ==> At(a, i)
    ensures ZeroWord(a, j, lo, hi) != LowMask(32) ==>
              32 * j <= LeastZero(a, hi, lo) < hi && LeastZero(a, hi, lo) / 32 == j
    ensures ZeroWord(a, j, lo, hi) == LowMask(32) ==> forall i :: lo <= i < hi && i < 32 * j + 32 ==> At(a, i)
  {
    hide At;
    var w, z := ZeroWord(a, j, lo, hi), LeastZero(a, hi, lo);
    if w == LowMask(32) {
      forall i | lo <= i < hi && 32 * j <= i < 32 * j + 32 ensures At(a, i) { assert w[i - 32 * j]; }
    } else {
      var b :| 0 <= b < 32 && w[b] != LowMask(32)[b];
      assert lo <= 32 * j + b < hi && !At(a, 32 * j + b);
      assert z <= 32 * j + b;
    }
  }

  /** find_next_zero_bit, for any helper ffz. */
  method FindNextZeroBit(a: seq<Word>, size0: int, offset0: int, ffz: Word -> int) returns (r: int)
    requires 0 <= offset0 && 0 <= size0 <= 32 * |a|
    ensures r == NextZero(a, size0, offset0, ffz)
  {
    hide At, Or, Shl, Shr, ZeroWord, LeastZero;
    if offset0 >= size0 {
      return size0;
    }
    var p, result := offset0 / 32, offset0 - offset0 % 32;
    var size, offset := size0 - result, offset0 % 32;
    var tmp;
    if offset != 0 {
      ZeroWordMasks(a, p, offset0, size0);
      ZeroWordHit(a, p, offset0, size0);
      tmp := Or(a[p], Shr(LowMask(32), 32 - offset));
      if size < 32 {
        tmp := Or(tmp, Shl(LowMask(32), size));
        if tmp == LowMask(32) {
          return result + size;
        }
        return result + ffz(tmp);
      }
      if Not(tmp) != Zero() {
        NotOnes(tmp);
        return result + ffz(tmp);
      }
      NotOnes(tmp);
      p := p + 1;
      size := size - 32;
      result := result + 32;
    }
    while size >= 32
      invariant 0 <= size && result + size == size0 && result == 32 * p && offset0 <= result
      invariant forall i :: offset0 <= i < result ==> At(a, i)
    {
      ZeroWordMasks(a, p, offset0, size0);
      ZeroWordHit(a, p, offset0, size0);
      NotOnes(a[p]);
      if Not(a[p]) != Zero() {
        return result + ffz(a[p]);
      }
      p := p + 1;
      result := result + 32;
      size := size - 32;
    }
    if size == 0 {
      return result;
    }
    ZeroWordMasks(a, p, offset0, size0);
    ZeroWordHit(a, p, offset0, size0);
    tmp := Or(a[p], Shl(LowMask(32), size));
    if tmp == LowMask(32) {
      return result + size;
    }
    return result + ffz(tmp);
  }

  lemma NotOnes(w: Word)
    ensures Not(w) == Zero() <==> w == LowMask(32)
  {
    if Not(w) == Zero() {
      forall b | 0 <= b < 32 ensures w[b] == LowMask(32)[b] { assert Not(w)[b] == Zero()[b]; }
    }
  }

  /** With the documented helper the search is right on every input. */
  lemma NextZeroDocumented(a: seq<Word>, size: int, offset: int, ffz: Word -> int)
    requires DocumentedFfz(ffz) && 0 <= offset && 0 <= size <= 32 * |a|
    ensures NextZero(a, size, offset, ffz) == LeastZero(a, size, offset)
  {
    var z := LeastZero(a, size, offset);
    if z < size {
      var j := z / 32;
      var w := ZeroWord(a, j, offset, size);
      assert !w[z % 32];
      assert forall b :: 0 <= b < z % 32 ==> w[b];
      assert w != LowMask(32);
    }
  }

  /**
   With the shipped helper the search is right exactly when the range holds no zero bit, or when
   the word with the least zero is entirely zero and the undefined value of bsf(0) happens to be 0.
   */
  lemma NextZeroShipped(a: seq<Word>, size: int, offset: int, ffz: Word -> int)
    requires ShippedFfz(ffz) && 0 <= offset && 0 <= size <= 32 * |a|
    ensures var z := LeastZero(a, size, offset);
      NextZero(a, size, offset, ffz) == z <==>
        || z == size
        || (ZeroWord(a, z / 32, offset, size) == Zero() && ffz(Zero()) == 0)
  {
    hide Ffs;
    var z := LeastZero(a, size, offset);
    if z < size {
      var w := ZeroWord(a, z / 32, offset, size);
      assert !w[z % 32];
      assert w[0] || z % 32 == 0;
      if w != Zero() {
        assert w[Ffs(w)];
      }
    }
  }
}
