/**
 Bitmaps of lib32/bitmap.c: arrays of 32-bit words.  A word is given by its bits, lowest
 first, so the C operators <<, >>, &, | and ~ on unsigned long are the pointwise ones here.
 The specification of a bitmap is the predicate `At`, the value of each single bit.
 */
module Bitmap {
  type Word = w: seq<bool> | |w| == 32 witness seq(32, _ => false)

  function Zero(): Word { seq(32, _ => false) }

  function Shl(w: Word, k: int): Word
    requires 0 <= k <= 32
  {
    seq(32, i requires 0 <= i < 32 => i >= k && w[i - k])
  }

  function Shr(w: Word, k: int): Word
    requires 0 <= k <= 32
  {
    seq(32, i requires 0 <= i < 32 => i + k < 32 && w[i + k])
  }

  function And(v: Word, w: Word): Word { seq(32, i requires 0 <= i < 32 => v[i] && w[i]) }

  function Or(v: Word, w: Word): Word { seq(32, i requires 0 <= i < 32 => v[i] || w[i]) }

  function Not(w: Word): Word { seq(32, i requires 0 <= i < 32 => !w[i]) }

  /** (1UL << n) - 1 */
  function LowMask(n: int): Word
    requires 0 <= n <= 32
  {
    seq(32, i requires 0 <= i < 32 => i < n)
  }

  /** BITS_TO_LONGS */
  function Words(bits: int): int
    requires 0 <= bits
  {
    (bits + 31) / 32
  }

  /** BITMAP_LAST_WORD_MASK */
  function LastWordMask(bits: int): Word
    requires 0 <= bits
  {
    if bits % 32 != 0 then LowMask(bits % 32) else LowMask(32)
  }

  /** BITMAP_FIRST_WORD_MASK */
  function FirstWordMask(start: int): Word
    requires 0 <= start
  {
    Shl(LowMask(32), start % 32)
  }

  /** The value of bit i; false outside the array. */
  predicate At(a: seq<Word>, i: int) {
    0 <= i < 32 * |a| && a[i / 32][i % 32]
  }

  lemma AtWord(a: seq<Word>, j: int, b: int)
    requires 0 <= j < |a| && 0 <= b < 32
    ensures At(a, 32 * j + b) == a[j][b]
  {
    assert (32 * j + b) / 32 == j && (32 * j + b) % 32 == b;
  }

  // ------------------------------------------------------------------- shifting left

  /** The word written at index j >= off by __bitmap_shift_left. */
  function LeftWord(s: seq<Word>, off: int, rem: int, bits: int, j: int): Word
    requires 0 <= bits && 0 <= rem < 32 && 0 <= off <= j < Words(bits) <= |s|
  {
    var lim, left, k := Words(bits), bits % 32, j - off;
    var lower := if rem != 0 && k > 0 then s[k - 1] else Zero();
    var upper := if left != 0 && k == lim - 1 then And(s[k], LowMask(left)) else s[k];
    var w := Or(Shr(lower, 32 - rem), Shl(upper, rem));
    if left != 0 && j == lim - 1 then And(w, LowMask(left)) else w
  }

  /** LeftWord as the loop computes it, for the word it takes its upper part from. */
  lemma LeftWordIs(s: seq<Word>, off: int, rem: int, bits: int, k: int)
    requires 0 <= bits && 0 <= rem < 32 && 0 <= off && 0 <= k && k + off < Words(bits) <= |s|
    ensures var lim, left := Words(bits), bits % 32;
      var lower := if rem != 0 && k > 0 then s[k - 1] else Zero();
      var upper := if left != 0 && k == lim - 1 then And(s[k], LowMask(left)) else s[k];
      var w := Or(Shr(lower, 32 - rem), Shl(upper, rem));
      LeftWord(s, off, rem, bits, k + off) == if left != 0 && k + off == lim - 1 then And(w, LowMask(left)) else w
  {
    hide Shl, Shr, And, Or, LowMask;
  }

  lemma LeftWordBit(s: seq<Word>, shift: int, bits: int, j: int, b: int)
    requires 0 <= shift && 0 <= bits && shift / 32 <= j < Words(bits) <= |s| && 0 <= b < 32
    ensures LeftWord(s, shift / 32, shift % 32, bits, j)[b]
         == (32 * j + b < bits && shift <= 32 * j + b && At(s, 32 * j + b - shift))
  {
    var off, rem := shift / 32, shift % 32;
    if b >= rem {
      MaskedBit(s, bits, j - off, b - rem);
    } else if j > off {
      AtWord(s, j - off - 1, b - rem + 32);
    }
  }

  lemma LeftDone(d: seq<Word>, s: seq<Word>, shift: int, bits: int)
    requires 0 <= shift && 0 <= bits && Words(bits) <= |s| && Words(bits) <= |d| && shift / 32 <= Words(bits)
    requires forall j :: shift / 32 <= j < Words(bits) ==> d[j] == LeftWord(s, shift / 32, shift % 32, bits, j)
    requires forall j :: 0 <= j < shift / 32 ==> d[j] == Zero()
    ensures forall i :: 0 <= i < 32 * Words(bits) ==> (At(d, i) <==> i < bits && shift <= i && At(s, i - shift))
  {
    hide LeftWord;
    forall i | 0 <= i < 32 * Words(bits)
      ensures At(d, i) == (i < bits && shift <= i && At(s, i - shift))
    {
      var j, b := i / 32, i % 32;
      AtWord(d, j, b);
      if shift / 32 <= j {
        LeftWordBit(s, shift, bits, j, b);
      }
    }
  }

  /** __bitmap_shift_left; dst and src may be the same array. */
  method ShiftLeft(dst: array<Word>, src: array<Word>, shift: int, bits: int)
    requires 0 <= shift && 0 <= bits && Words(bits) <= dst.Length && Words(bits) <= src.Length
    requires shift / 32 <= Words(bits)
    modifies dst
    ensures forall i :: 0 <= i < bits ==> (At(dst[..], i) <==> shift <= i && old(At(src[..], i - shift)))
    ensures forall i :: bits <= i < 32 * Words(bits) ==> !At(dst[..], i)
    ensures dst[Words(bits)..] == old(dst[Words(bits)..])
  {
    hide At, Shl, Shr, And, Or, LowMask, LeftWord;
    ghost var s := src[..];
    var lim, left := Words(bits), bits % 32;
    var off, rem := shift / 32, shift % 32;
    var k := lim - off - 1;
    while k >= 0
      invariant -1 <= k < lim - off
      invariant forall j :: k + off < j < lim ==> dst[j] == LeftWord(s, off, rem, bits, j)
      invariant forall j :: 0 <= j <= k + off < src.Length ==> src[j] == s[j]
      invariant forall j :: lim <= j < dst.Length ==> dst[j] == old(dst[j])
    {
      LeftWordIs(s, off, rem, bits, k);
      var lower := if rem != 0 && k > 0 then src[k - 1] else Zero();
      var upper := src[k];
      if left != 0 && k == lim - 1 {
        upper := And(upper, LowMask(left));
      }
      dst[k + off] := Or(Shr(lower, 32 - rem), Shl(upper, rem));
      if left != 0 && k + off == lim - 1 {
        dst[k + off] := And(dst[k + off], LowMask(left));
      }
      k := k - 1;
    }
    ClearWords(dst, 0, off);
    assert dst[lim..] == old(dst[lim..]);
    LeftDone(dst[..], s, shift, bits);
  }

  /** memset(&a[from], 0, n * sizeof(unsigned long)) */
  method ClearWords(a: array<Word>, from: int, n: int)
    requires 0 <= from && 0 <= n && from + n <= a.Length
    modifies a
    ensures forall j :: from <= j < from + n ==> a[j] == Zero()
    ensures forall j :: 0 <= j < a.Length && !(from <= j < from + n) ==> a[j] == old(a[j])
  {
    var i := from;
    while i < from + n
      invariant from <= i <= from + n
      invariant forall j :: from <= j < i ==> a[j] == Zero()
      invariant forall j :: 0 <= j < a.Length && !(from <= j < i) ==> a[j] == old(a[j])
    {
      a[i] := Zero();
      i := i + 1;
    }
  }

  // ------------------------------------------------------------------ shifting right

  function RightCore(s: seq<Word>, off: int, rem: int, bits: int, k: int): Word
    requires 0 <= rem < 32 && 0 <= off && 0 <= k && 0 <= bits && off + k < Words(bits) <= |s|
  {
    var lim, left := Words(bits), bits % 32;
    var mask := LowMask(left);
    var upper := if rem == 0 || off + k + 1 >= lim then Zero()
                 else if off + k + 1 == lim - 1 && left != 0 then And(s[off + k + 1], mask) else s[off + k + 1];
    var lower := if left != 0 && off + k == lim - 1 then And(s[off + k], mask) else s[off + k];
    Or(Shl(upper, 32 - rem), Shr(lower, rem))
  }

  /** The word written at index k by __bitmap_shift_right. */
  function RightWord(s: seq<Word>, off: int, rem: int, bits: int, k: int): Word
    requires 0 <= rem < 32 && 0 <= off && 0 <= k && 0 <= bits && off + k < Words(bits) <= |s|
  {
    var w := RightCore(s, off, rem, bits, k);
    if bits % 32 != 0 && k == Words(bits) - 1 then And(w, LowMask(bits % 32)) else w
  }

  /** Bits of the last word above `bits` are cut off, so reading a masked word is reading below `bits`. */
  lemma MaskedBit(s: seq<Word>, bits: int, j: int, b: int)
    requires 0 <= bits && 0 <= j < Words(bits) <= |s| && 0 <= b < 32
    ensures var w := if bits % 32 != 0 && j == Words(bits) - 1 then And(s[j], LowMask(bits % 32)) else s[j];
            w[b] == (32 * j + b < bits && At(s, 32 * j + b))
  {
    AtWord(s, j, b);
  }

  lemma RightWordBit(s: seq<Word>, off: int, rem: int, bits: int, k: int, b: int)
    requires 0 <= rem < 32 && 0 <= off && 0 <= bits && 0 <= k && off + k < Words(bits) <= |s| && 0 <= b < 32
    ensures var i := 32 * (off + k) + rem + b;
            RightWord(s, off, rem, bits, k)[b] == (i < bits && At(s, i))
  {
    hide At;
    if b + rem < 32 {
      MaskedBit(s, bits, off + k, b + rem);
    } else if off + k + 1 < Words(bits) {
      MaskedBit(s, bits, off + k + 1, b + rem - 32);
    }
    assert RightCore(s, off, rem, bits, k)[b]
        == (32 * (off + k) + rem + b < bits && At(s, 32 * (off + k) + rem + b));
    hide RightCore;
    assert k == Words(bits) - 1 ==> off == 0;
  }

  lemma RightDone(d: seq<Word>, s: seq<Word>, shift: int, bits: int)
    requires 0 <= shift && 0 <= bits && Words(bits) <= |s| && Words(bits) <= |d| && shift / 32 <= Words(bits)
    requires forall j :: 0 <= j < Words(bits) - shift / 32 ==> d[j] == RightWord(s, shift / 32, shift % 32, bits, j)
    requires forall j :: Words(bits) - shift / 32 <= j < Words(bits) ==> d[j] == Zero()
    ensures forall i :: 0 <= i < 32 * Words(bits) ==> (At(d, i) <==> i + shift < bits && At(s, i + shift))
  {
    hide RightWord;
    var lim := Words(bits);
    forall i | 0 <= i < 32 * lim
      ensures At(d, i) == (i + shift < bits && At(s, i + shift))
    {
      var j, b := i / 32, i % 32;
      AtWord(d, j, b);
      if j < lim - shift / 32 {
        RightWordBit(s, shift / 32, shift % 32, bits, j, b);
        assert 32 * (shift / 32 + j) + shift % 32 + b == i + shift;
      }
    }
  }

  /** __bitmap_shift_right; dst and src may be the same array. */
  method ShiftRight(dst: array<Word>, src: array<Word>, shift: int, bits: int)
    requires 0 <= shift && 0 <= bits && Words(bits) <= dst.Length && Words(bits) <= src.Length
    requires shift / 32 <= Words(bits)
    modifies dst
    ensures forall i :: 0 <= i < 32 * Words(bits) ==>
                (At(dst[..], i) <==> i + shift < bits && old(At(src[..], i + shift)))
    ensures dst[Words(bits)..] == old(dst[Words(bits)..])
  {
    hide At, Shl, Shr, And, Or, LowMask;
    ghost var s := src[..];
    var lim, left := Words(bits), bits % 32;
    var off, rem := shift / 32, shift % 32;
    var mask := LowMask(left);
    var k := 0;
    while off + k < lim
      invariant 0 <= k <= lim - off
      invariant forall j :: 0 <= j < k ==> dst[j] == RightWord(s, off, rem, bits, j)
      invariant forall j :: off + k <= j < src.Length ==> src[j] == s[j]
      invariant dst[lim..] == old(dst[lim..])
    {
      var upper;
      if rem == 0 || off + k + 1 >= lim {
        upper := Zero();
      } else {
        upper := src[off + k + 1];
        if off + k + 1 == lim - 1 && left != 0 {
          upper := And(upper, mask);
        }
      }
      var lower := src[off + k];
      if left != 0 && off + k == lim - 1 {
        lower := And(lower, mask);
      }
      dst[k] := Or(Shl(upper, 32 - rem), Shr(lower, rem));
      if left != 0 && k == lim - 1 {
        dst[k] := And(dst[k], mask);
      }
      k := k + 1;
    }
    ClearWords(dst, lim - off, off);
    RightDone(dst[..], s, shift, bits);
  }
}
