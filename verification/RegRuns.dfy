/** Whole runs of the cache operations, from an empty cache. */
module RegRuns {
  import opened Strides
  import opened RedBlackTree
  import opened RbArena
  import opened CacheBlock
  import opened RegCache

  datatype Op = WriteOp(reg: int, value: int) | ReadOp(reg: int) | DropOp(min: int, max: int)

  /** What a caller may ask for: stride-aligned registers, and any range to drop. */
  ghost predicate Legal(op: Op, stride: int)
    requires 1 <= stride
  {
    match op
    case WriteOp(reg, _) => 0 <= reg < LIMIT && reg % stride == 0
    case ReadOp(reg) => 0 <= reg && reg % stride == 0
    case DropOp(min, max) => 0 <= min <= max
  }

  /** Entry i of the run writes register reg. */
  ghost predicate Writes(op: Op, reg: int) {
    op.WriteOp? && op.reg == reg
  }

  ghost predicate Drops(op: Op, reg: int) {
    op.DropOp? && op.min <= reg <= op.max
  }

  /** Entry i is the last write of reg, and nothing drops reg after it. */
  ghost predicate LastWrite(ops: seq<Op>, reg: int, i: int) {
    0 <= i < |ops| && Writes(ops[i], reg) && forall j :: i < j < |ops| ==> !Writes(ops[j], reg) && !Drops(ops[j], reg)
  }

  /** The answer owed to a read of reg after the run `ops`. */
  ghost predicate Answers(ops: seq<Op>, reg: int, res: Result) {
    match res
    case Ok(value) => exists i :: LastWrite(ops, reg, i) && ops[i].value == value
    case NoEntry => forall i :: !LastWrite(ops, reg, i)
  }

  /** A run owes each register exactly one answer. */
  lemma OneAnswer(ops: seq<Op>, reg: int, a: Result, b: Result)
    requires Answers(ops, reg, a) && Answers(ops, reg, b)
    ensures a == b
  {
    if a.Ok? && b.Ok? {
      var i :| LastWrite(ops, reg, i) && ops[i].value == a.value;
      var j :| LastWrite(ops, reg, j) && ops[j].value == b.value;
      assert Writes(ops[i], reg) && Writes(ops[j], reg);
    }
  }

  /** The map holds, for every aligned register, what the run so far says. */
  ghost predicate Recalls(contents: map<int, int>, ops: seq<Op>, stride: int)
    requires 1 <= stride
  {
    forall reg :: 0 <= reg && reg % stride == 0 ==>
      Answers(ops, reg, if reg / stride in contents then Ok(contents[reg / stride]) else NoEntry)
  }

  /** One more operation, seen from one register. */
  lemma AnswersStep(ops: seq<Op>, op: Op, reg: int, res: Result)
    requires Answers(ops, reg, res)
    ensures Answers(ops + [op], reg, if Writes(op, reg) then Ok(op.value) else if Drops(op, reg) then NoEntry else res)
  {
    var all := ops + [op];
    if Writes(op, reg) {
      assert LastWrite(all, reg, |ops|);
    } else if Drops(op, reg) {
      forall i ensures !LastWrite(all, reg, i) {
        assert 0 <= i < |ops| ==> Drops(all[|ops|], reg);
      }
    } else {
      forall i ensures LastWrite(all, reg, i) <==> LastWrite(ops, reg, i) {
        SameLastWrite(ops, op, reg, i);
      }
    }
  }

  lemma SameLastWrite(ops: seq<Op>, op: Op, reg: int, i: int)
    requires !Writes(op, reg) && !Drops(op, reg)
    ensures LastWrite(ops + [op], reg, i) <==> LastWrite(ops, reg, i)
  {
    var all := ops + [op];
    assert forall j :: 0 <= j < |ops| ==> all[j] == ops[j];
    assert all[|ops|] == op;
    if LastWrite(all, reg, i) {
      forall j | i < j < |ops| ensures !Writes(ops[j], reg) && !Drops(ops[j], reg) {
        assert all[j] == ops[j];
      }
    }
  }

  lemma RecallsWrite(contents: map<int, int>, ops: seq<Op>, stride: int, reg: int, value: int)
    requires 1 <= stride && Recalls(contents, ops, stride) && reg % stride == 0
    ensures Recalls(contents[reg / stride := value], ops + [WriteOp(reg, value)], stride)
  {
    var contents' := contents[reg / stride := value];
    forall r | 0 <= r && r % stride == 0
      ensures Answers(ops + [WriteOp(reg, value)], r,
                      if r / stride in contents' then Ok(contents'[r / stride]) else NoEntry)
    {
      AnswersStep(ops, WriteOp(reg, value), r, if r / stride in contents then Ok(contents[r / stride]) else NoEntry);
      DivMod(r, stride);
      DivMod(reg, stride);
    }
  }

  lemma RecalledAt(contents: map<int, int>, ops: seq<Op>, stride: int, reg: int)
    requires 1 <= stride && Recalls(contents, ops, stride) && 0 <= reg && reg % stride == 0
    ensures Answers(ops, reg, if reg / stride in contents then Ok(contents[reg / stride]) else NoEntry)
  {
  }

  lemma RecallsRead(contents: map<int, int>, ops: seq<Op>, stride: int, reg: int)
    requires 1 <= stride && Recalls(contents, ops, stride)
    ensures Recalls(contents, ops + [ReadOp(reg)], stride)
  {
    forall r | 0 <= r && r % stride == 0
      ensures Answers(ops + [ReadOp(reg)], r, if r / stride in contents then Ok(contents[r / stride]) else NoEntry)
    {
      AnswersStep(ops, ReadOp(reg), r, if r / stride in contents then Ok(contents[r / stride]) else NoEntry);
    }
  }

  lemma RecallsDrop(contents: map<int, int>, contents': map<int, int>, ops: seq<Op>, stride: int, min: int, max: int,
                    first: int)
    requires 1 <= stride && Recalls(contents, ops, stride) && 0 <= min <= max
    requires contents' == map u | u in contents && !(first <= u <= max / stride) :: contents[u]
    requires min / stride <= first <= min / stride + One(min % stride != 0)
    requires min % stride != 0 && first == min / stride ==> first !in contents
    ensures Recalls(contents', ops + [DropOp(min, max)], stride)
  {
    var op := DropOp(min, max);
    forall r | 0 <= r && r % stride == 0
      ensures Answers(ops + [op], r, if r / stride in contents' then Ok(contents'[r / stride]) else NoEntry)
    {
      AnswersStep(ops, op, r, if r / stride in contents then Ok(contents[r / stride]) else NoEntry);
      InWindow(r, min, max, stride);
    }
  }

  lemma InWindow(r: int, min: int, max: int, stride: int)
    requires 1 <= stride && r % stride == 0
    ensures min <= r <= max <==> min / stride + One(min % stride != 0) <= r / stride <= max / stride
  {
    var u := r / stride;
    DivMod(r, stride);
    DivMod(min, stride);
    BelowMultiple(stride, max, u);
    BelowMultiple(stride, min, u);
    BelowMultiple(stride, min, u + 1);
    assert (u + 1) * stride == u * stride + stride;
  }

  /** A write whose window does not wrap, a read, or a drop that begins at a register. */
  ghost predicate Plain(op: Op, stride: int, wordSize: int)
    requires 1 <= stride && 1 <= wordSize
  {
    match op
    case WriteOp(reg, _) => reg + MaxDist(stride, wordSize) < LIMIT
    case ReadOp(_) => true
    case DropOp(min, _) => min % stride == 0
  }

  /** A write that makes blocks overlap, or a drop that loses a register outside its range. */
  ghost predicate Stops(op: Op, shape: Tree, blk: Blocks, stride: int, wordSize: int, contents: map<int, int>)
    requires 1 <= wordSize && CacheOk(InOrder(shape), blk, stride, contents)
  {
    match op
    case WriteOp(reg, _) => 0 <= reg && GrowthOverlaps(shape, blk, stride, wordSize, reg)
    case ReadOp(_) => false
    case DropOp(min, _) => DropsBelow(InOrder(shape), blk, stride, min, contents)
  }

  /**
   Every run from an empty cache, up to the first write that would grow a block over another one, or the first drop
   that would take a register below its range along, if there is one: each read returns the last value written to its
   register and not dropped since, or -ENOENT when there is none.  A run whose windows do not wrap and whose drops
   begin at registers goes through.  The tests before writes and drops change nothing, so the run is exactly `ops`.
   */
  method RunAll(stride: int, wordSize: int, ops: seq<Op>)
    returns (answers: seq<Result>, done: int, ghost shape: Tree, ghost blk: Blocks, ghost contents: map<int, int>)
    requires 1 <= stride && 1 <= wordSize && forall i :: 0 <= i < |ops| ==> Legal(ops[i], stride)
    ensures 0 <= done == |answers| <= |ops|
    ensures forall i :: 0 <= i < done && ops[i].ReadOp? ==> Answers(ops[..i], ops[i].reg, answers[i])
    ensures CacheOk(InOrder(shape), blk, stride, contents) && Recalls(contents, ops[..done], stride)
    ensures done < |ops| ==> Stops(ops[done], shape, blk, stride, wordSize, contents)
    ensures (forall i :: 0 <= i < |ops| ==> Plain(ops[i], stride, wordSize)) ==> done == |ops|
  {
    hide Answers, LastWrite, CacheOk, Recalls, GrowthOverlaps, GrowthSafe, MaxDist, InOrder, Across;
    var cache := new RbTreeCache(stride, wordSize);
    answers := [];
    EmptyRecalls(stride);
    done := 0;
    while done < |ops|
      invariant 0 <= done <= |ops| && |answers| == done && cache.Valid() && fresh(cache) && fresh(cache.tree)
      invariant cache.stride == stride && cache.wordSize == wordSize
      invariant Recalls(cache.contents, ops[..done], stride)
      invariant forall i :: 0 <= i < done && ops[i].ReadOp? ==> Answers(ops[..i], ops[i].reg, answers[i])
    {
      var res := NoEntry;
      assert Legal(ops[done], stride);
      ghost var before := cache.contents;
      match ops[done] {
        case WriteOp(reg, value) =>
          var safe := cache.SafeToWrite(reg);
          if reg + MaxDist(stride, wordSize) < LIMIT {
            NoWrapSafe(cache.tree.shape, cache.blk, stride, wordSize, reg, cache.contents);
          }
          if !safe {
            StoppedAt(cache.tree.mem, cache.tree.root, cache.tree.shape, cache.blk, stride, wordSize, reg,
                cache.contents);
            shape, blk, contents := cache.tree.shape, cache.blk, cache.contents;
            return;
          }
          cache.Write(reg, value);
          RecallsWrite(before, ops[..done], stride, reg, value);
        case ReadOp(reg) =>
          res := cache.Read(reg);
          RecalledAt(before, ops[..done], stride, reg);
          RecallsRead(before, ops[..done], stride, reg);
        case DropOp(min, max) =>
          var below := cache.WouldDropBelow(min);
          if below {
            shape, blk, contents := cache.tree.shape, cache.blk, cache.contents;
            return;
          }
          CacheFacts(InOrder(cache.tree.shape), cache.blk, stride, cache.contents);
          ghost var first := FirstDropped(InOrder(cache.tree.shape), cache.blk, stride, min);
          cache.Drop(min, max);
          RecallsDrop(before, cache.contents, ops[..done], stride, min, max, first);
      }
      assert ops[..done + 1] == ops[..done] + [ops[done]];
      answers := answers + [res];
      done := done + 1;
    }
    shape, blk, contents := cache.tree.shape, cache.blk, cache.contents;
  }

  lemma StoppedAt(m: Store, root: Ref, shape: Tree, blk: Blocks, stride: int, wordSize: int, reg: int,
                  contents: map<int, int>)
    requires Focus(m, root, Top, shape) && CacheOk(InOrder(shape), blk, stride, contents)
    requires 1 <= wordSize && 0 <= reg && reg % stride == 0 && !GrowthSafe(shape, blk, stride, wordSize, reg)
    ensures GrowthOverlaps(shape, blk, stride, wordSize, reg)
  {
    FocusDistinct(m, root, shape);
    hide Focus, CacheOk, Distinct, Pick, Near;
    UnsafeOverlaps(shape, SearchPath(Top, shape, blk, stride, reg), blk, stride, wordSize, reg, contents);
  }

  lemma EmptyRecalls(stride: int)
    requires 1 <= stride
    ensures Recalls(map[], [], stride)
  {
  }

  // ------------------------------------------------------------- a run that goes wrong

  /** Register stride 2^27. */
  const WIDE: int := 0x800_0000

  /** A block over the register indices lo..hi at that stride. */
  ghost predicate Spans(b: Block, lo: int, hi: int) {
    BlockOk(b, WIDE) && Lo(b, WIDE) == lo && Hi(b, WIDE) == hi
  }

  lemma SpansBounds(b: Block, lo: int, hi: int)
    requires Spans(b, lo, hi)
    ensures b.base == lo * WIDE && TopReg(b.base, b.len, WIDE) == (hi - 1) * WIDE
  {
  }

  /** The window of a register: 14 registers down and, in 32 bits, 14 up. */
  lemma Windows()
    ensures MaxDist(WIDE, 2) == 14 * WIDE
    ensures Near(30 * WIDE, WIDE, 2) == Range(16 * WIDE, 12 * WIDE)
    ensures Near(17 * WIDE, WIDE, 2) == Range(3 * WIDE, 31 * WIDE)
    ensures Near(31 * WIDE, WIDE, 2) == Range(17 * WIDE, 13 * WIDE)
  {
  }

  lemma SingleSpans(u: int, value: int)
    requires 0 <= u < 32
    ensures Spans(Single(u * WIDE, value), u, u + 1)
  {
  }

  /** Register 30 beside a block at 12: the window wraps to 12, and the block, too far below, does not pass. */
  lemma SecondWrite(blk: Blocks)
    requires 1 in blk && Spans(blk[1], 12, 13)
    ensures var shape := FIRST;
      var c := SearchPath(Top, shape, blk, WIDE, 30 * WIDE);
      && c == In(Top, Right, 1, false, Leaf) && Frames(c, blk)
      && Pick(c, blk, WIDE, 30 * WIDE, Near(30 * WIDE, WIDE, 2)).node == NIL
      && GrowthSafe(shape, blk, WIDE, 2, 30 * WIDE)
  {
    Windows();
    SpansBounds(blk[1], 12, 13);
    hide Near, TopReg;
    var c := In(Top, Right, 1, false, Leaf);
    assert Pick(Top, blk, WIDE, 30 * WIDE, Near(30 * WIDE, WIDE, 2)) == Choice(NIL, LIMIT - 1);
  }

  /** Register 17 between blocks at 12 and 30: the nearer one is picked. */
  lemma ThirdWrite(blk: Blocks)
    requires 1 in blk && Spans(blk[1], 12, 13) && 2 in blk && Spans(blk[2], 30, 31)
    ensures var shape := SECOND;
      var c := SearchPath(Top, shape, blk, WIDE, 17 * WIDE);
      Frames(c, blk) && Pick(c, blk, WIDE, 17 * WIDE, Near(17 * WIDE, WIDE, 2)).node == 1
  {
    Windows();
    SpansBounds(blk[1], 12, 13);
    SpansBounds(blk[2], 30, 31);
    hide Near, TopReg;
    var c1 := In(Top, Right, 1, false, Leaf);
    assert Pick(c1, blk, WIDE, 17 * WIDE, Near(17 * WIDE, WIDE, 2)) == Choice(1, 5 * WIDE);
  }

  /** Register 31 behind blocks 12..17 and 30: the window wraps to 13, and only the far block passes. */
  lemma FourthWrite(blk: Blocks)
    requires 1 in blk && Spans(blk[1], 12, 18) && 2 in blk && Spans(blk[2], 30, 31)
    ensures var shape := SECOND;
      var c := SearchPath(Top, shape, blk, WIDE, 31 * WIDE);
      Frames(c, blk) && Pick(c, blk, WIDE, 31 * WIDE, Near(31 * WIDE, WIDE, 2)).node == 1
  {
    Windows();
    SpansBounds(blk[1], 12, 18);
    SpansBounds(blk[2], 30, 31);
    hide Near, TopReg;
    var c1 := In(Top, Right, 1, false, Leaf);
    assert Pick(c1, blk, WIDE, 31 * WIDE, Near(31 * WIDE, WIDE, 2)) == Choice(1, 14 * WIDE);
  }

  const FIRST: Tree := Node(Leaf, 1, false, Leaf)
  const SECOND: Tree := Node(Leaf, 1, false, Node(Leaf, 2, true, Leaf))

  /** No block of the tree covers the register index u. */
  ghost predicate Missing(shape: Tree, blk: Blocks, u: int) {
    forall x :: x in InOrder(shape) ==> x in blk && !Covers(blk[x], WIDE, u)
  }

  lemma AfterFirst(shape: Tree, blk: Blocks, nextRef: Ref, cached: Ref, value: int)
    requires Wrote(Leaf, map[], 1, shape, blk, nextRef, cached, WIDE, 2, 12 * WIDE, value)
    ensures shape == FIRST && nextRef == 2 && 1 in blk && Spans(blk[1], 12, 13) && Missing(shape, blk, 30)
  {
    hide Near, Single, Spans;
    SingleSpans(12, value);
    SpansCovers(blk[1], 12, 13, 30);
    assert InOrder(FIRST) == [1];
  }

  lemma SpansCovers(b: Block, lo: int, hi: int, u: int)
    requires Spans(b, lo, hi)
    ensures Covers(b, WIDE, u) <==> lo <= u < hi
    ensures Holds(b, WIDE, u) ==> lo <= u < hi
  {
  }

  lemma AfterSecond(blk0: Blocks, shape: Tree, blk: Blocks, nextRef: Ref, cached: Ref, value: int)
    requires 1 in blk0 && Spans(blk0[1], 12, 13)
    requires Wrote(FIRST, blk0, 2, shape, blk, nextRef, cached, WIDE, 2, 30 * WIDE, value)
    ensures shape == SECOND && nextRef == 3 && 1 in blk && 2 in blk && Spans(blk[1], 12, 13) && Spans(blk[2], 30, 31)
    ensures Missing(shape, blk, 17)
  {
    SecondWrite(blk0);
    hide Near, Single, Spans, Pick, SearchPath;
    SingleSpans(30, value);
    SpansCovers(blk[1], 12, 13, 17);
    SpansCovers(blk[2], 30, 31, 17);
    assert InOrder(SECOND) == [1, 2];
  }

  lemma AfterThird(blk0: Blocks, shape: Tree, blk: Blocks, nextRef: Ref, cached: Ref, value: int)
    requires 1 in blk0 && Spans(blk0[1], 12, 13) && 2 in blk0 && Spans(blk0[2], 30, 31)
    requires Wrote(SECOND, blk0, 3, shape, blk, nextRef, cached, WIDE, 2, 17 * WIDE, value)
    ensures shape == SECOND && nextRef == 3 && 1 in blk && 2 in blk && Spans(blk[1], 12, 18) && Spans(blk[2], 30, 31)
    ensures Missing(shape, blk, 31)
  {
    ThirdWrite(blk0);
    hide Near, Pick, SearchPath, BlockOk, Holds, Covers, ValueAt;
    assert Spans(blk[1], 12, 18);
    SpansCovers(blk[1], 12, 18, 31);
    SpansCovers(blk[2], 30, 31, 31);
    assert InOrder(SECOND) == [1, 2];
  }

  lemma AfterFourth(blk0: Blocks, shape: Tree, blk: Blocks, nextRef: Ref, cached: Ref, value: int)
    requires 1 in blk0 && Spans(blk0[1], 12, 18) && 2 in blk0 && Spans(blk0[2], 30, 31)
    requires Wrote(SECOND, blk0, 3, shape, blk, nextRef, cached, WIDE, 2, 31 * WIDE, value)
    ensures cached == 1 && 1 in blk && BlockOk(blk[1], WIDE) && Covers(blk[1], WIDE, 30) && !Holds(blk[1], WIDE, 30)
  {
    FourthWrite(blk0);
    SpansCovers(blk0[1], 12, 18, 30);
    hide Near, Pick, SearchPath, BlockOk, Holds, Covers, ValueAt;
    assert Spans(blk[1], 12, 32);
    SpansCovers(blk[1], 12, 32, 30);
  }

  /** With stride 2^27 and words of two bytes, registers 12, 30 and 17 are written to an empty cache. */
  method ThreeWrites(value: int) returns (cache: RbTreeCache)
    ensures fresh(cache) && fresh(cache.tree) && cache.Valid() && cache.stride == WIDE && cache.wordSize == 2
    ensures cache.contents == map[12 := value, 30 := value, 17 := value]
    ensures cache.tree.shape == SECOND && cache.nextRef == 3 && 1 in cache.blk && 2 in cache.blk
    ensures Spans(cache.blk[1], 12, 18) && Spans(cache.blk[2], 30, 31) && Missing(SECOND, cache.blk, 31)
  {
    hide SearchPath, Pick, Near, Frames, Grown, Single, Covers, Spans, Wrote, CacheOk, GrowthSafe, GrowthOverlaps;
    hide Holds, ValueAt, InOrder;
    Windows();
    cache := new RbTreeCache(WIDE, 2);
    NoWrapSafe(cache.tree.shape, cache.blk, WIDE, 2, 12 * WIDE, cache.contents);
    MissingNothing(cache.blk);
    cache.Write(12 * WIDE, value);
    AfterFirst(cache.tree.shape, cache.blk, cache.nextRef, cache.cached, value);
    SecondWrite(cache.blk);
    ghost var blk1 := cache.blk;
    cache.Write(30 * WIDE, value);
    AfterSecond(blk1, cache.tree.shape, cache.blk, cache.nextRef, cache.cached, value);
    NoWrapSafe(cache.tree.shape, cache.blk, WIDE, 2, 17 * WIDE, cache.contents);
    ghost var blk2 := cache.blk;
    cache.Write(17 * WIDE, value);
    AfterThird(blk2, cache.tree.shape, cache.blk, cache.nextRef, cache.cached, value);
  }

  /**
   After these, a write of register 31 and a read of register 30 that gives -ENOENT: the write has grown the block of
   register 12 over that of register 30.
   */
  method WrapRun(value: int) returns (res: Result)
    ensures res == NoEntry
  {
    hide SearchPath, Pick, Near, Frames, Grown, Single, Covers, Spans, Wrote, CacheOk, GrowthSafe, GrowthOverlaps;
    hide Holds, ValueAt, InOrder;
    var cache := ThreeWrites(value);
    ghost var blk3 := cache.blk;
    cache.Write(31 * WIDE, value);
    AfterFourth(blk3, cache.tree.shape, cache.blk, cache.nextRef, cache.cached, value);
    res := cache.Read(30 * WIDE);
  }

  /** Or a drop of the one byte address behind register 12, which loses register 12. */
  method UnalignedDropRun(value: int) returns (res: Result)
    ensures res == NoEntry
  {
    hide SearchPath, Pick, Near, Frames, Spans, CacheOk, Holds, ValueAt, Across;
    var cache := ThreeWrites(value);
    SpansCovers(cache.blk[1], 12, 18, 12);
    SpansCovers(cache.blk[1], 12, 18, 13);
    AcrossBy(InOrder(SECOND), cache.blk, WIDE, 12, 1);
    cache.Drop(12 * WIDE + 1, 12 * WIDE + 1);
    res := cache.Read(12 * WIDE);
  }

  lemma AcrossBy(s: seq<Ref>, blk: Blocks, stride: int, u: int, x: Ref)
    requires 1 <= stride && Stored(s, blk) && x in s
    requires Covers(blk[x], stride, u) && Covers(blk[x], stride, u + 1)
    ensures Across(s, blk, stride, u)
  {
  }

  lemma MissingNothing(blk: Blocks)
    ensures Missing(Leaf, blk, 12)
  {
  }
}
