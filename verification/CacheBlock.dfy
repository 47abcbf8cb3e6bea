/** One block of the register cache: adjacent registers with a presence bitmap. */
module CacheBlock {
  import opened Bitmap
  import opened BitSearch
  import opened Strides

  /** struct regcache_rbtree_node without its tree links. */
  datatype Block = Block(base: int, len: int, vals: seq<int>, present: seq<Word>)

  ghost predicate BlockOk(b: Block, stride: int) {
    && 1 <= stride && 1 <= b.len && 0 <= b.base && b.base % stride == 0 && TopReg(b.base, b.len, stride) < LIMIT
    && |b.vals| == b.len && |b.present| == Words(b.len)
    && forall i :: b.len <= i < 32 * |b.present| ==> !At(b.present, i)
  }

  /** Register index of the first register, and of the one after the last. */
  ghost function Lo(b: Block, stride: int): int
    requires 1 <= stride
  {
    b.base / stride
  }

  ghost function Hi(b: Block, stride: int): int
    requires 1 <= stride
  {
    b.base / stride + b.len
  }

  ghost predicate Covers(b: Block, stride: int, u: int)
    requires 1 <= stride
  {
    Lo(b, stride) <= u < Hi(b, stride)
  }

  /** The block holds a value for register index u. */
  ghost predicate Holds(b: Block, stride: int, u: int)
    requires 1 <= stride
  {
    Covers(b, stride, u) && At(b.present, u - Lo(b, stride))
  }

  ghost function ValueAt(b: Block, stride: int, u: int): int
    requires 1 <= stride
  {
    var i := u - Lo(b, stride);
    if 0 <= i < |b.vals| then b.vals[i] else 0
  }

  /** regcache_rbtree_set_register */
  function SetRegister(b: Block, idx: int, value: int): Block
    requires 0 <= idx < |b.vals| && idx < 32 * |b.present|
  {
    b.(present := SetBit(b.present, idx), vals := b.vals[idx := value])
  }

  lemma SetRegisterHolds(b: Block, stride: int, u: int, value: int)
    requires BlockOk(b, stride) && Covers(b, stride, u)
    ensures u - Lo(b, stride) < 32 * |b.present|
    ensures var b' := SetRegister(b, u - Lo(b, stride), value);
      && BlockOk(b', stride) && Lo(b', stride) == Lo(b, stride) && Hi(b', stride) == Hi(b, stride)
      && (forall v :: Holds(b', stride, v) <==> Holds(b, stride, v) || v == u)
      && (forall v :: Covers(b, stride, v) ==>
             ValueAt(b', stride, v) == if v == u then value else ValueAt(b, stride, v))
  {
    SetBitAt(b.present, u - Lo(b, stride));
  }

  lemma SmallShift(w: Word, n: int, nbits: int)
    requires 0 <= n <= nbits && 1 <= nbits <= 32
    ensures forall i :: 0 <= i < 32 ==>
                (At([And(Shl(w, n), LastWordMask(nbits))], i) <==> i < nbits && n <= i && At([w], i - n))
  {
  }

  /** bitmap_shift_left of include/linux/bitmap.h: one word is handled inline, by a C shift of less than 32. */
  method ShiftPresent(present: array<Word>, n: int, nbits: int)
    requires 0 <= n <= nbits && 1 <= nbits && Words(nbits) == present.Length && (nbits <= 32 ==> n < 32)
    modifies present
    ensures forall i :: 0 <= i < 32 * present.Length ==>
              (At(present[..], i) <==> i < nbits && n <= i && old(At(present[..], i - n)))
  {
    hide At, And, Shl, LastWordMask;
    if nbits <= 32 {
      SmallShift(present[0], n, nbits);
      ghost var p0 := present[..];
      present[0] := And(Shl(present[0], n), LastWordMask(nbits));
      assert p0 == [p0[0]] && present[..] == [present[0]];
    } else {
      ShiftLeft(present, present, n, nbits);
    }
  }

  /** krealloc of cache_present: the old words, then zero words. */
  method GrowPresent(p: seq<Word>, n: int) returns (a: array<Word>)
    requires |p| <= n
    ensures fresh(a) && a.Length == n && forall i :: At(a[..], i) <==> At(p, i)
  {
    a := new Word[n](_ => Zero());
    forall j | 0 <= j < |p| { a[j] := p[j]; }
  }

  /** krealloc of the block followed by the memmove of insert_to_block; the rest is uninitialised. */
  method GrowBuffer(vals: seq<int>, n: int, offset: int) returns (r: seq<int>)
    requires 0 <= offset && |vals| + offset <= n
    ensures |r| == n && forall i :: 0 <= i < |vals| ==> r[i + offset] == vals[i]
  {
    var blk := new int[n];
    forall i | 0 <= i < |vals| { blk[i] := vals[i]; }
    if offset != 0 {
      forall i | 0 <= i < |vals| { blk[i + offset] := blk[i]; }
    }
    r := blk[..];
  }

  /**
   regcache_rbtree_insert_to_block: grow the block to reach `reg` on either side.  The grown
   buffers start with the old contents (krealloc) and otherwise hold arbitrary values.
   */
  method InsertToBlock(b: Block, stride: int, baseReg: int, topReg: int, reg: int, value: int) returns (b': Block)
    requires BlockOk(b, stride) && 0 <= reg < LIMIT && reg % stride == 0 && !Covers(b, stride, reg / stride)
    requires baseReg == (if reg < b.base then reg else b.base)
    requires topReg == (if reg > TopReg(b.base, b.len, stride) then reg else TopReg(b.base, b.len, stride))
    ensures BlockOk(b', stride)
    ensures Lo(b', stride) == (if reg < b.base then reg / stride else Lo(b, stride))
    ensures Hi(b', stride) == (if reg < b.base then Hi(b, stride) else reg / stride + 1)
    ensures forall v :: Holds(b', stride, v) <==> Holds(b, stride, v) || v == reg / stride
    ensures forall v :: Covers(b', stride, v) && (Covers(b, stride, v) || v == reg / stride) ==>
              ValueAt(b', stride, v) == if v == reg / stride then value else ValueAt(b, stride, v)
    ensures b'.base == baseReg && TopReg(b'.base, b'.len, stride) == topReg
  {
    hide At, TopReg, SetBit;
    GrowArithmetic(b, stride, baseReg, topReg, reg);
    AtRange(b.present);
    var blklen := (topReg - baseReg) / stride + 1;
    var pos := (reg - baseReg) / stride;
    var offset := (b.base - baseReg) / stride;

    var blk := GrowBuffer(b.vals, blklen, if pos == 0 then offset else 0);
    var present := GrowPresent(b.present, Words(blklen));
    if pos == 0 {
      ShiftPresent(present, offset, blklen);
    }
    b' := Block(baseReg, blklen, blk, present[..]);
    GrownBlock(b, b', stride, offset);
    SetRegisterHolds(b', stride, reg / stride, value);
    b' := SetRegister(b', pos, value);
  }

  lemma Span(base: int, top: int, stride: int)
    requires 1 <= stride && base % stride == 0 && top % stride == 0
    ensures (top - base) / stride == top / stride - base / stride
    ensures TopReg(base, (top - base) / stride + 1, stride) == top
  {
    DivMod(top, stride);
    DivMod(base, stride);
    assert top - base == (top / stride - base / stride) * stride;
    DivExact(top / stride - base / stride, 0, stride);
  }

  /** Lengths and offsets of the grown block, in register indices. */
  lemma GrowArithmetic(b: Block, stride: int, baseReg: int, topReg: int, reg: int)
    requires BlockOk(b, stride) && 0 <= reg && reg % stride == 0 && !Covers(b, stride, reg / stride)
    requires baseReg == (if reg < b.base then reg else b.base)
    requires topReg == (if reg > TopReg(b.base, b.len, stride) then reg else TopReg(b.base, b.len, stride))
    ensures var u, l, h := reg / stride, Lo(b, stride), Hi(b, stride);
      && (reg < b.base <==> u < l) && (reg > TopReg(b.base, b.len, stride) <==> u >= h)
      && baseReg % stride == 0 && baseReg / stride == (if u < l then u else l)
      && (topReg - baseReg) / stride + 1 == (if u < l then h - u else u + 1 - l)
      && (reg - baseReg) / stride == (if u < l then 0 else u - l)
      && (b.base - baseReg) / stride == (if u < l then l - u else 0)
      && TopReg(baseReg, (topReg - baseReg) / stride + 1, stride) == topReg
  {
    hide TopReg;
    var top := TopReg(b.base, b.len, stride);
    Aligned(stride, reg, b.base, b.len);
    Aligned(stride, top, b.base, 1);
    Aligned(stride, reg, top, 1);
    Aligned(stride, b.base, reg, 1);
    Span(baseReg, reg, stride);
    Span(baseReg, topReg, stride);
  }

  /** The buffers after the move: the old registers are where they belong and nothing else is present. */
  lemma GrownBlock(b: Block, g: Block, stride: int, offset: int)
    requires BlockOk(b, stride) && 1 <= g.len && 0 <= g.base && g.base % stride == 0
    requires TopReg(g.base, g.len, stride) < LIMIT
    requires |g.vals| == g.len && |g.present| == Words(g.len)
    requires 0 <= offset && offset + b.len <= g.len && Lo(g, stride) + offset == Lo(b, stride)
    requires forall i :: 0 <= i < b.len ==> g.vals[i + offset] == b.vals[i]
    requires forall i :: 0 <= i < 32 * |g.present| ==> (At(g.present, i) <==> offset <= i && At(b.present, i - offset))
    ensures BlockOk(g, stride)
    ensures forall v :: Holds(g, stride, v) <==> Holds(b, stride, v)
    ensures forall v :: Covers(b, stride, v) ==> Covers(g, stride, v) && ValueAt(g, stride, v) == ValueAt(b, stride, v)
  {
    AtRange(b.present);
    hide At;
    forall v | Covers(b, stride, v) ensures ValueAt(g, stride, v) == ValueAt(b, stride, v) {
      var i := v - Lo(b, stride);
      assert g.vals[i + offset] == b.vals[i];
    }
    forall v ensures Holds(g, stride, v) <==> Holds(b, stride, v) {
      var i := v - Lo(g, stride);
      if 0 <= i < g.len { assert At(g.present, i) <==> offset <= i && At(b.present, i - offset); }
    }
  }

  lemma AtRange(a: seq<Word>)
    ensures forall i :: At(a, i) ==> 0 <= i < 32 * |a|
  {
  }
}
