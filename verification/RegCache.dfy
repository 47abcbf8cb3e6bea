/**
 regcache-rbtree.c: blocks of registers in a red-black tree, refining a plain map from
 register index (reg / stride) to value.
 */
module RegCache {
  import opened RedBlackTree
  import opened RbArena
  import opened RbTree
  import opened RbUnlink
  import opened CacheBlock
  import opened Strides
  import opened Bitmap
  import opened BitSearch

  /** sizeof(struct regcache_rbtree_node): four words and a struct rb_node of three. */
  const NODE_SIZE: int := 28

  type Blocks = map<Ref, Block>

  datatype Result = Ok(value: int) | NoEntry

  ghost predicate Stored(s: seq<Ref>, blk: Blocks) {
    (forall x :: x in s ==> x in blk) && forall i :: 0 <= i < |s| ==> s[i] in blk
  }

  /** The blocks along the in-order sequence are disjoint and ascending. */
  ghost predicate Ascending(s: seq<Ref>, blk: Blocks, stride: int)
    requires 1 <= stride && Stored(s, blk)
  {
    forall i, j :: 0 <= i < j < |s| ==> Hi(blk[s[i]], stride) <= Lo(blk[s[j]], stride)
  }

  ghost predicate AllBelow(s: seq<Ref>, blk: Blocks, stride: int, u: int)
    requires 1 <= stride && Stored(s, blk)
  {
    forall x :: x in s ==> Hi(blk[x], stride) <= u
  }

  ghost predicate AllAbove(s: seq<Ref>, blk: Blocks, stride: int, u: int)
    requires 1 <= stride && Stored(s, blk)
  {
    forall x :: x in s ==> u < Lo(blk[x], stride)
  }

  /** The blocks hold exactly the map: what is present is in the map with its value, and conversely. */
  ghost predicate Represents(s: seq<Ref>, blk: Blocks, stride: int, contents: map<int, int>)
    requires 1 <= stride && Stored(s, blk)
  {
    && (forall x, u :: x in s && Covers(blk[x], stride, u) ==> (u in contents <==> Holds(blk[x], stride, u)))
    && (forall x, u :: x in s && Holds(blk[x], stride, u) ==>
           u in contents && contents[u] == ValueAt(blk[x], stride, u))
    && (forall u :: u in contents ==> exists x :: x in s && Covers(blk[x], stride, u))
  }

  ghost predicate CacheOk(s: seq<Ref>, blk: Blocks, stride: int, contents: map<int, int>) {
    && 1 <= stride && Stored(s, blk)
    && (forall x :: x in s ==> BlockOk(blk[x], stride))
    && Ascending(s, blk, stride)
    && Represents(s, blk, stride, contents)
  }

  /** A node splits the in-order sequence into what is below and what is above its block. */
  lemma SplitAt(a: seq<Ref>, l: seq<Ref>, x: Ref, r: seq<Ref>, b: seq<Ref>, blk: Blocks, stride: int)
    requires 1 <= stride && Stored(a + (l + [x] + r) + b, blk) && Ascending(a + (l + [x] + r) + b, blk, stride)
    ensures x in blk && Stored(l, blk) && Stored(r, blk)
    ensures AllBelow(l, blk, stride, Lo(blk[x], stride))
    ensures forall y :: y in r ==> Hi(blk[x], stride) <= Lo(blk[y], stride)
  {
    var s := a + (l + [x] + r) + b;
    var k := |a| + |l|;
    assert s[k] == x;
    forall y | y in l ensures y in blk && Hi(blk[y], stride) <= Lo(blk[x], stride) {
      var i :| 0 <= i < |l| && l[i] == y;
      assert s[|a| + i] == y;
    }
    forall y | y in r ensures y in blk && Hi(blk[x], stride) <= Lo(blk[y], stride) {
      var i :| 0 <= i < |r| && r[i] == y;
      assert s[k + 1 + i] == y;
    }
  }

  class RbTreeCache {
    const stride: int
    const wordSize: int
    const tree: RbRoot
    var blk: Blocks
    var cached: Ref
    var nextRef: Ref
    ghost var contents: map<int, int>

    ghost predicate Valid()
      reads this, tree
    {
      && 1 <= stride && 1 <= wordSize && tree.Valid()
      && CacheOk(InOrder(tree.shape), blk, stride, contents)
      && (cached != NIL ==> cached in InOrder(tree.shape))
      && 0 < nextRef && forall x :: x in Ids(tree.shape) ==> x < nextRef
    }

    /** regcache_rbtree_init without defaults. */
    constructor (stride: int, wordSize: int)
      requires 1 <= stride && 1 <= wordSize
      ensures Valid() && contents == map[] && this.stride == stride && this.wordSize == wordSize && fresh(tree)
      ensures tree.shape == Leaf && blk == map[] && nextRef == 1
    {
      this.stride, this.wordSize := stride, wordSize;
      tree := new RbRoot();
      blk, cached, nextRef, contents := map[], NIL, 1, map[];
    }

    /** The one-entry shortcut covers the register. */
    ghost predicate Shortcut(reg: int)
      reads this
      requires 1 <= stride
    {
      cached != NIL && cached in blk && BlockOk(blk[cached], stride) && Covers(blk[cached], stride, reg / stride)
    }

    /** The descent of regcache_rbtree_lookup to the block that covers the register. */
    method Descend(reg: int) returns (r: Ref)
      requires Valid() && 0 <= reg && reg % stride == 0
      ensures r != NIL ==> r in InOrder(tree.shape) && Covers(blk[r], stride, reg / stride)
      ensures r == NIL ==> forall x :: x in InOrder(tree.shape) ==> !Covers(blk[x], stride, reg / stride)
    {
      hide Covers, Holds, ValueAt, Represents, RedBlack, Distinct, Rep, CtxRep, Ids, CtxIds, CtxDistinct, Before, After;
      ghost var u := reg / stride;
      r := tree.root;
      ghost var c, t := Top, tree.shape;
      WalkStart(tree.mem, tree.root, tree.shape, blk, stride, u);
      while r != NIL
        invariant Focus(tree.mem, tree.root, c, t) && r == RootId(t) && Plug(c, t) == tree.shape
        invariant Stored(Before(c), blk) && AllBelow(Before(c), blk, stride, u)
        invariant Stored(After(c), blk) && AllAbove(After(c), blk, stride, u)
        decreases t
      {
        WalkStep(tree.mem, tree.root, c, t, blk, stride, reg);
        BlockTest(blk[r], stride, reg);
        var base, top := blk[r].base, TopReg(blk[r].base, blk[r].len, stride);
        if reg >= base && reg <= top {
          return r;
        } else if reg > top {
          r := tree.mem[r].right;
          c, t := In(c, Right, t.id, t.red, t.left), t.right;
        } else if reg < base {
          r := tree.mem[r].left;
          c, t := In(c, Left, t.id, t.red, t.right), t.left;
        }
      }
      WalkEnd(tree.mem, tree.root, c, t, blk, stride, u);
    }

    /**
     regcache_rbtree_lookup: the block covering the register, through the one-entry shortcut or the tree.  The shortcut
     answers whatever state the tree is in.
     */
    method Lookup(reg: int) returns (r: Ref)
      requires 1 <= stride && 0 <= reg && reg % stride == 0 && (Valid() || Shortcut(reg))
      modifies this`cached
      ensures old(Shortcut(reg)) ==> r == cached == old(cached)
      ensures old(Valid()) ==> Valid()
      ensures old(Valid()) && r != NIL ==> r in InOrder(tree.shape) && Covers(blk[r], stride, reg / stride)
      ensures old(Valid()) && r == NIL ==>
                forall x :: x in InOrder(tree.shape) ==> !Covers(blk[x], stride, reg / stride)
    {
      hide Covers, Holds, ValueAt, Represents, RedBlack, Distinct, Rep, CtxRep, Ids, CtxIds, CtxDistinct, Before, After;
      if cached != NIL {
        BlockTest(blk[cached], stride, reg);
        if reg >= blk[cached].base && reg <= TopReg(blk[cached].base, blk[cached].len, stride) {
          return cached;
        }
      }
      r := Descend(reg);
      if r != NIL {
        cached := r;
      }
    }

    /** regcache_rbtree_read: the last value written and not dropped since, or -ENOENT. */
    method Read(reg: int) returns (res: Result)
      requires 1 <= stride && 0 <= reg && reg % stride == 0 && (Valid() || Shortcut(reg))
      modifies this`cached
      ensures old(Valid()) ==>
                Valid() && res == if reg / stride in contents then Ok(contents[reg / stride]) else NoEntry
      ensures old(Shortcut(reg)) ==>
                var u := reg / stride;
                res == old(if Holds(blk[cached], stride, u) then Ok(ValueAt(blk[cached], stride, u)) else NoEntry)
    {
      var rbnode := Lookup(reg);
      if old(Valid()) {
        EntryAt(InOrder(tree.shape), blk, stride, contents, rbnode, reg);
      }
      if old(Shortcut(reg)) {
        Aligned(stride, reg, blk[cached].base, blk[cached].len);
      }
      hide CacheOk, RedBlack, Focus, Ids, InOrder, TopReg, At;
      if rbnode != NIL {
        var b := blk[rbnode];
        var idx := (reg - b.base) / stride;
        if !At(b.present, idx) {
          return NoEntry;
        }
        return Ok(b.vals[idx]);
      }
      return NoEntry;
    }

    /** The walk of regcache_rbtree_write that looks for an adjacent block. */
    method FindAdjacent(reg: int) returns (rbnode: Ref, newBase: int, newTop: int, ghost c: Ctx)
      requires Valid() && 0 <= reg < LIMIT && reg % stride == 0
      requires forall x :: x in InOrder(tree.shape) ==> !Covers(blk[x], stride, reg / stride)
      ensures Plug(c, Leaf) == tree.shape && Stored(Before(c), blk) && Stored(After(c), blk)
      ensures AllBelow(Before(c), blk, stride, reg / stride) && AllAbove(After(c), blk, stride, reg / stride)
      ensures Frames(c, blk) && rbnode == Pick(c, blk, stride, reg, Near(reg, stride, wordSize)).node
      ensures c == SearchPath(Top, tree.shape, blk, stride, reg)
      ensures rbnode != NIL ==> rbnode in blk
      ensures rbnode != NIL ==> newBase == if reg < blk[rbnode].base then reg else blk[rbnode].base
      ensures rbnode != NIL ==>
                var top := TopReg(blk[rbnode].base, blk[rbnode].len, stride); newTop == if reg > top then reg else top
    {
      hide Covers, Holds, ValueAt, Represents, RedBlack, Distinct, Rep, CtxRep, Ids, CtxIds, CtxDistinct, Before, After;
      hide Focus, Plug, InOrder, Ascending, MaxDist, TopReg, Lo, Hi, AllBelow, AllAbove;
      ghost var u := reg / stride;
      var maxDist := MaxDist(stride, wordSize);
      var min := if reg < maxDist then 0 else reg - maxDist;
      var max := (reg + maxDist) % LIMIT;
      ghost var near := Near(reg, stride, wordSize);
      assert near == Range(min, max);
      hide Near;
      var bestDist := LIMIT - 1;
      rbnode, newBase, newTop := NIL, 0, 0;
      var node := tree.root;
      ghost var t := tree.shape;
      c := Top;
      WalkStart(tree.mem, tree.root, tree.shape, blk, stride, u);
      while node != NIL
        invariant Focus(tree.mem, tree.root, c, t) && node == RootId(t) && Plug(c, t) == tree.shape
        invariant Stored(Before(c), blk) && AllBelow(Before(c), blk, stride, u)
        invariant Stored(After(c), blk) && AllAbove(After(c), blk, stride, u)
        invariant Frames(c, blk) && Choice(rbnode, bestDist) == Pick(c, blk, stride, reg, near)
        invariant SearchPath(c, t, blk, stride, reg) == SearchPath(Top, tree.shape, blk, stride, reg)
        invariant rbnode != NIL ==> rbnode in blk
        invariant rbnode != NIL ==> newBase == if reg < blk[rbnode].base then reg else blk[rbnode].base
        invariant rbnode != NIL ==>
                    var top := TopReg(blk[rbnode].base, blk[rbnode].len, stride);
                    newTop == if reg > top then reg else top
        decreases t
      {
        WalkStep(tree.mem, tree.root, c, t, blk, stride, reg);
        BlockTest(blk[node], stride, reg);
        var base, top := blk[node].base, TopReg(blk[node].base, blk[node].len, stride);
        if base <= max && top >= min {
          var dist := if reg < base then base - reg else if reg > top then reg - top else 0;
          if dist < bestDist {
            rbnode, bestDist := node, dist;
            newBase := if reg < base then reg else base;
            newTop := if reg > top then reg else top;
          }
        }
        if reg < base {
          c, t, node := In(c, Left, t.id, t.red, t.right), t.left, tree.mem[node].left;
        } else if reg > top {
          c, t, node := In(c, Right, t.id, t.red, t.left), t.right, tree.mem[node].right;
        } else {
          assert false;
        }
      }
      WalkEnd(tree.mem, tree.root, c, t, blk, stride, u);
    }

    /** The walk of regcache_rbtree_insert to an empty link. */
    method FindLink(reg: int) returns (parent: Ref, side: Side, ghost c: Ctx)
      requires Valid() && 0 <= reg && reg % stride == 0
      requires forall x :: x in InOrder(tree.shape) ==> !Covers(blk[x], stride, reg / stride)
      ensures Plug(c, Leaf) == tree.shape && parent == CtxParent(c) && (c.In? ==> side == c.side)
      ensures Stored(Before(c), blk) && AllBelow(Before(c), blk, stride, reg / stride)
      ensures Stored(After(c), blk) && AllAbove(After(c), blk, stride, reg / stride)
      ensures c == SearchPath(Top, tree.shape, blk, stride, reg)
    {
      hide Covers, Holds, ValueAt, Represents, RedBlack, Distinct, Rep, CtxRep, Ids, CtxIds, CtxDistinct, Before, After;
      hide Focus, Plug, InOrder, Ascending;
      ghost var u := reg / stride;
      ghost var t := tree.shape;
      c, parent, side := Top, NIL, Left;
      var node := tree.root;
      WalkStart(tree.mem, tree.root, tree.shape, blk, stride, u);
      while node != NIL
        invariant Focus(tree.mem, tree.root, c, t) && node == RootId(t) && Plug(c, t) == tree.shape
        invariant parent == CtxParent(c) && (c.In? ==> side == c.side)
        invariant SearchPath(c, t, blk, stride, reg) == SearchPath(Top, tree.shape, blk, stride, reg)
        invariant Stored(Before(c), blk) && AllBelow(Before(c), blk, stride, u)
        invariant Stored(After(c), blk) && AllAbove(After(c), blk, stride, u)
        decreases t
      {
        WalkStep(tree.mem, tree.root, c, t, blk, stride, reg);
        BlockTest(blk[node], stride, reg);
        parent := node;
        if reg >= blk[node].base && reg <= TopReg(blk[node].base, blk[node].len, stride) {
          assert false;
        } else if reg > TopReg(blk[node].base, blk[node].len, stride) {
          c, t, side, node := In(c, Right, t.id, t.red, t.left), t.right, Right, tree.mem[node].right;
        } else {
          c, t, side, node := In(c, Left, t.id, t.red, t.right), t.left, Left, tree.mem[node].left;
        }
      }
      WalkEnd(tree.mem, tree.root, c, t, blk, stride, u);
    }

    /** regcache_rbtree_insert: link the new node and rebalance. */
    method InsertNode(id: Ref, ghost value: int)
      requires Valid() && id == nextRef && id in blk
      requires 0 <= blk[id].base < LIMIT && blk[id].base % stride == 0
      requires blk[id] == SetRegister(Block(blk[id].base, 1, [0], [Zero()]), 0, value)
      requires forall x :: x in InOrder(tree.shape) ==> !Covers(blk[x], stride, blk[id].base / stride)
      modifies this, tree
      ensures blk == old(blk) && nextRef == id + 1 && id in InOrder(tree.shape)
      ensures Linked(tree.shape, id, SearchPath(Top, old(tree.shape), blk, stride, blk[id].base))
      ensures Valid() && contents == old(contents)[blk[id].base / stride := value]
    {
      hide CacheOk, AllBelow, AllAbove, Distinct, Rep, CtxRep, Ids, CtxIds, CtxDistinct, Before, After, Focus, Plug;
      hide InOrder, RedBlack, SetRegister;
      var parent, side, c := FindLink(blk[id].base);
      ghost var shape := tree.shape;
      NotStored(shape, id);
      AddBlock(shape, c, blk, stride, contents, id, value);
      tree.LinkNode(id, parent, side, c);
      tree.InsertColor(id, c);
      contents := contents[blk[id].base / stride := value];
      nextRef := id + 1;
      IdsAfterInsert(shape, tree.shape, c, id);
    }

    /** regcache_rbtree_write on a register inside an existing block. */
    method WritePresent(rbnode: Ref, reg: int, value: int)
      requires Valid() && 0 <= reg && reg % stride == 0 && rbnode in InOrder(tree.shape)
      requires Covers(blk[rbnode], stride, reg / stride)
      modifies this`blk, this`contents
      ensures Valid() && contents == old(contents)[reg / stride := value]
    {
      var b := blk[rbnode];
      ghost var u := reg / stride;
      Aligned(stride, reg, b.base, b.len);
      SetRegisterHolds(b, stride, u, value);
      SetInPlace(tree.shape, blk, stride, contents, rbnode, u, value, SetRegister(b, u - Lo(b, stride), value));
      hide CacheOk, SetRegister, InOrder, Ids;
      blk := blk[rbnode := SetRegister(b, (reg - b.base) / stride, value)];
      contents := contents[u := value];
    }

    /** Growing a block up to the register, whether or not another block lies in between. */
    method GrowBlock(rbnode: Ref, newBase: int, newTop: int, reg: int, value: int)
      requires 1 <= stride && 0 <= reg < LIMIT && reg % stride == 0 && rbnode in blk && BlockOk(blk[rbnode], stride)
      requires !Covers(blk[rbnode], stride, reg / stride)
      requires newBase == if reg < blk[rbnode].base then reg else blk[rbnode].base
      requires var top := TopReg(blk[rbnode].base, blk[rbnode].len, stride); newTop == if reg > top then reg else top
      modifies this`blk, this`cached
      ensures cached == rbnode && rbnode in blk && blk == old(blk)[rbnode := blk[rbnode]]
      ensures Grown(old(blk[rbnode]), blk[rbnode], stride, reg / stride, value)
    {
      BlockTest(blk[rbnode], stride, reg);
      hide Covers, Holds, ValueAt, BlockOk;
      var b' := InsertToBlock(blk[rbnode], stride, newBase, newTop, reg, value);
      blk := blk[rbnode := b'];
      cached := rbnode;
    }

    /** regcache_rbtree_write into the block the walk has picked. */
    method WriteGrown(rbnode: Ref, newBase: int, newTop: int, reg: int, value: int, ghost c: Ctx)
      requires Valid() && 0 <= reg < LIMIT && reg % stride == 0 && Hole(tree.shape, c, blk, stride, reg / stride)
      requires c == SearchPath(Top, tree.shape, blk, stride, reg)
      requires rbnode != NIL && rbnode == Pick(c, blk, stride, reg, Near(reg, stride, wordSize)).node && rbnode in blk
      requires newBase == if reg < blk[rbnode].base then reg else blk[rbnode].base
      requires var top := TopReg(blk[rbnode].base, blk[rbnode].len, stride); newTop == if reg > top then reg else top
      modifies this`blk, this`contents, this`cached
      ensures old(GrowthSafe(tree.shape, blk, stride, wordSize, reg)) ==>
                Valid() && contents == old(contents)[reg / stride := value]
      ensures !old(GrowthSafe(tree.shape, blk, stride, wordSize, reg)) ==>
                GrowthOverlaps(tree.shape, old(blk), stride, wordSize, reg)
      ensures cached == rbnode && rbnode in blk && blk == old(blk)[rbnode := blk[rbnode]]
      ensures Grown(old(blk[rbnode]), blk[rbnode], stride, reg / stride, value)
    {
      hide Covers, Holds, ValueAt, InOrder, Before, After, Plug, RedBlack, Focus, Represents, Ids, Pick, Grown, CacheOk;
      hide GrowthOverlaps, GrowthSafe, SearchPath, BlockOk, Hole, Frames, Neighbour;
      ghost var blk0 := blk;
      FocusDistinct(tree.mem, tree.root, tree.shape);
      PickedBlock(tree.shape, c, blk, stride, wordSize, reg, contents);
      GrowBlock(rbnode, newBase, newTop, reg, value);
      if GrowthSafe(tree.shape, blk0, stride, wordSize, reg) {
        SafeNeighbour(tree.shape, c, blk0, stride, wordSize, reg, contents);
        GrownSafely(tree.shape, c, blk0, stride, contents, rbnode, reg / stride, value, blk[rbnode]);
        contents := contents[reg / stride := value];
      } else {
        UnsafeOverlaps(tree.shape, c, blk0, stride, wordSize, reg, contents);
      }
    }

    /** regcache_rbtree_write into a new block: regcache_rbtree_node_alloc without a read table. */
    method WriteNew(reg: int, value: int)
      requires Valid() && 0 <= reg < LIMIT && reg % stride == 0
      requires forall x :: x in InOrder(tree.shape) ==> !Covers(blk[x], stride, reg / stride)
      modifies this, tree
      ensures Valid() && contents == old(contents)[reg / stride := value]
      ensures cached == old(nextRef) && nextRef == old(nextRef) + 1 && blk == old(blk)[cached := Single(reg, value)]
      ensures Linked(tree.shape, cached, SearchPath(Top, old(tree.shape), old(blk), stride, reg))
    {
      hide Covers, InOrder, Ids, RedBlack, Focus, Ascending, Represents, SetRegister, BlockOk;
      var id := nextRef;
      NotStored(tree.shape, nextRef);
      blk := blk[id := Block(reg, 1, [0], [Zero()])];
      blk := blk[id := SetRegister(blk[id], reg - blk[id].base, value)];
      SetRegisterBase(reg, value);
      AddUnused(InOrder(tree.shape), old(blk), blk, id, stride, contents);
      SamePath(Top, tree.shape, old(blk), blk, stride, reg, id);
      InsertNode(id, value);
      cached := id;
    }

    /** The body of the loop of regcache_rbtree_drop for a block that meets the range. */
    method DropBlock(node: Ref, min: int, max: int, ghost first: int)
      requires Valid() && 0 <= min <= max && node in InOrder(tree.shape) && blk[node].base <= max
      requires DropsFrom(blk[node], stride, min, first)
      modifies this`blk, this`contents
      ensures Valid() && blk.Keys == old(blk).Keys && forall x :: x in blk ==> SameRange(old(blk)[x], blk[x], stride)
      ensures forall u :: u in contents <==>
                u in old(contents) && !(Covers(old(blk)[node], stride, u) && first <= u <= max / stride)
      ensures forall u :: u in contents ==> contents[u] == old(contents)[u]
    {
      hide Represents, RedBlack, Focus, Ids, InOrder, Ascending, At, Lo, Hi, Part, DropsFrom;
      var b := blk[node];
      var hit, start, end := Overlapping(b, stride, min, max, first);
      ghost var contents' := contents;
      if hit {
        contents' := MinusRange(contents, Lo(b, stride) + start, Lo(b, stride) + end);
        var present := ClearPresent(b.present, start, end - start);
        DropOne(InOrder(tree.shape), blk, stride, contents, node, start, end, b.(present := present), contents');
        blk := blk[node := b.(present := present)];
      }
      hide CacheOk, BlockOk, MinusRange;
      RangeGone(old(contents), contents', b, stride, hit, start, end, first, max / stride);
      contents := contents';
    }

    /** regcache_rbtree_drop: exactly the registers from min to max leave the map, and one below an unaligned min. */
    method Drop(min: int, max: int)
      requires Valid() && 0 <= min <= max
      modifies this`blk, this`contents
      ensures Valid()
      ensures var first := old(FirstDropped(InOrder(tree.shape), blk, stride, min));
        contents == map u | u in old(contents) && !(first <= u <= max / stride) :: old(contents)[u]
      ensures min % stride == 0 ==> old(FirstDropped(InOrder(tree.shape), blk, stride, min)) == min / stride
    {
      hide Represents, BlockOk, RedBlack, Ids, InOrder, Covers, Ascending, AllDropFrom, DropsFrom, Across;
      hide SameRange;
      ghost var first := FirstDropped(InOrder(tree.shape), blk, stride, min);
      FirstDroppedFits(InOrder(tree.shape), blk, stride, min, contents);
      ghost var s := InOrder(tree.shape);
      var node := tree.First();
      ghost var i := 0;
      FirstIndex(tree.shape, tree.mem, tree.root);
      hide Focus;
      while node != NIL
        invariant Valid() && AllDropFrom(s, blk, stride, min, first)
        invariant 0 <= i <= |s| && (node != NIL ==> i < |s| && node == s[i]) && (node == NIL ==> i == |s|)
        invariant DroppedSoFar(old(contents), contents, s[..i], blk, stride, first, max / stride)
        decreases |s| - i
      {
        assert s[i] in s;
        FloorTests(stride, max, blk[node].base, blk[node].len) by { BlockFacts(blk[node], stride); }
        if blk[node].base > max {
          break;
        }
        ghost var c0, b0 := contents, blk;
        DropsFromAt(s, blk, stride, min, first, node);
        DropBlock(node, min, max, first);
        SameDropsFrom(s, b0, blk, stride, min, first);
        DropMore(old(contents), c0, contents, s, i, b0, blk, stride, first, max / stride);
        NodeListed(tree.shape, node);
        node := tree.Next(node);
        FollowsAt(s, i, node);
        assert i + 1 < |s| ==> s[i + 1] in s;
        i := i + 1;
      }
      DropDone(old(contents), contents, s, i, blk, stride, first, max / stride);
    }

    /** Whether a drop from min on would take a register below min along. */
    method WouldDropBelow(min: int) returns (b: bool)
      requires Valid() && 0 <= min
      ensures b == DropsBelow(InOrder(tree.shape), blk, stride, min, contents)
    {
      hide InOrder, RedBlack, Ids, Focus, CacheOk, Covers, Across, TopReg;
      CacheFacts(InOrder(tree.shape), blk, stride, contents);
      if min % stride == 0 {
        return false;
      }
      var reg := min - min % stride;
      Rounded(min, stride);
      var x := Descend(reg);
      if x == NIL {
        NotAcross(InOrder(tree.shape), blk, stride, min / stride);
        return false;
      }
      AcrossTest(InOrder(tree.shape), blk, stride, min, contents, x);
      if TopReg(blk[x].base, blk[x].len, stride) < min {
        return false;
      }
      EntryAt(InOrder(tree.shape), blk, stride, contents, x, reg);
      b := At(blk[x].present, (reg - blk[x].base) / stride);
    }

    /** The block just below a missing register: the last node at which its search turns right. */
    method FindBelow(reg: int) returns (pred: Ref, ghost c: Ctx)
      requires Valid() && 0 <= reg && reg % stride == 0
      requires forall x :: x in InOrder(tree.shape) ==> !Covers(blk[x], stride, reg / stride)
      ensures c == SearchPath(Top, tree.shape, blk, stride, reg) && pred == Last(Before(c))
    {
      hide Covers, Holds, ValueAt, Represents, RedBlack, Distinct, Rep, CtxRep, Ids, CtxIds, CtxDistinct, Before, After;
      hide Focus, Plug, InOrder, Ascending;
      ghost var u := reg / stride;
      ghost var t := tree.shape;
      c, pred := Top, NIL;
      var node := tree.root;
      WalkStart(tree.mem, tree.root, tree.shape, blk, stride, u);
      while node != NIL
        invariant Focus(tree.mem, tree.root, c, t) && node == RootId(t) && Plug(c, t) == tree.shape
        invariant pred == Last(Before(c))
        invariant SearchPath(c, t, blk, stride, reg) == SearchPath(Top, tree.shape, blk, stride, reg)
        invariant Stored(Before(c), blk) && AllBelow(Before(c), blk, stride, u)
        invariant Stored(After(c), blk) && AllAbove(After(c), blk, stride, u)
        decreases t
      {
        WalkStep(tree.mem, tree.root, c, t, blk, stride, reg);
        BlockTest(blk[node], stride, reg);
        LastBefore(c, t.id, t.red, t.left, t.right);
        if reg >= blk[node].base && reg <= TopReg(blk[node].base, blk[node].len, stride) {
          assert false;
        } else if reg > TopReg(blk[node].base, blk[node].len, stride) {
          pred := node;
          c, t, node := In(c, Right, t.id, t.red, t.left), t.right, tree.mem[node].right;
        } else {
          c, t, node := In(c, Left, t.id, t.red, t.right), t.left, tree.mem[node].left;
        }
      }
      WalkEnd(tree.mem, tree.root, c, t, blk, stride, u);
    }

    /** Whether a write to the register is safe, as a caller can find out beforehand. */
    method SafeToWrite(reg: int) returns (safe: bool)
      requires Valid() && 0 <= reg < LIMIT && reg % stride == 0
      ensures safe == GrowthSafe(tree.shape, blk, stride, wordSize, reg)
    {
      NearMin(reg, stride, wordSize);
      hide Covers, InOrder, Ids, RedBlack, Focus, CacheOk, Plug, Before, After, Pick, Frames, Distinct, Stored;
      hide SearchPath, Hole;
      hide GrowthSafe, Near, MaxDist, AllBelow, AllAbove, TopReg, Last;
      var rbnode := Descend(reg);
      if rbnode != NIL {
        CoveredSafe(tree.shape, blk, stride, wordSize, reg, contents, rbnode);
        return true;
      }
      var newBase, newTop;
      ghost var c, c';
      rbnode, newBase, newTop, c := FindAdjacent(reg);
      FocusDistinct(tree.mem, tree.root, tree.shape);
      MakeHole(tree.shape, c, blk, stride, reg / stride);
      if rbnode == NIL {
        NoneSafe(tree.shape, c, blk, stride, wordSize, reg, contents);
        return true;
      }
      var below;
      below, c' := FindBelow(reg);
      SafeByBase(tree.shape, c, blk, stride, wordSize, reg, contents);
      safe := blk[rbnode].base > reg || blk[below].base <= (reg + MaxDist(stride, wordSize)) % LIMIT;
    }

    /**
     regcache_rbtree_write.  When the block that the walk would grow is safe to grow, the map gains or replaces exactly
     one entry; otherwise that block is grown over another one.
     */
    method Write(reg: int, value: int)
      requires Valid() && 0 <= reg < LIMIT && reg % stride == 0
      modifies this, tree
      ensures old(GrowthSafe(tree.shape, blk, stride, wordSize, reg)) ==>
                Valid() && contents == old(contents)[reg / stride := value]
      ensures !old(GrowthSafe(tree.shape, blk, stride, wordSize, reg)) ==>
                tree.shape == old(tree.shape) && GrowthOverlaps(tree.shape, old(blk), stride, wordSize, reg)
      ensures (forall x :: x in InOrder(old(tree.shape)) ==>
                  x in old(blk) && !Covers(old(blk)[x], stride, reg / stride)) ==>
                Wrote(old(tree.shape), old(blk), old(nextRef), tree.shape, blk, nextRef, cached, stride, wordSize, reg,
                    value)
    {
      NearMin(reg, stride, wordSize);
      hide Covers, InOrder, Ids, RedBlack, Focus, CacheOk, Plug, Before, After, Pick, Neighbour, Frames, Distinct;
      hide Stored, Near, MaxDist, GrowthSafe;
      hide Grown, Linked, Wrote, GrowthOverlaps, SearchPath, Hole, Single;
      var rbnode := Lookup(reg);
      if rbnode != NIL {
        CoveredSafe(tree.shape, blk, stride, wordSize, reg, contents, rbnode);
        WritePresent(rbnode, reg, value);
        return;
      }
      var newBase, newTop;
      ghost var c;
      ghost var shape0, blk0, fresh0 := tree.shape, blk, nextRef;
      rbnode, newBase, newTop, c := FindAdjacent(reg);
      FocusDistinct(tree.mem, tree.root, tree.shape);
      MakeHole(tree.shape, c, blk, stride, reg / stride);
      if rbnode == NIL {
        NoneSafe(tree.shape, c, blk, stride, wordSize, reg, contents);
        WriteNew(reg, value);
        WroteNew(shape0, blk0, fresh0, tree.shape, blk, cached, stride, wordSize, reg, value);
        return;
      }
      WriteGrown(rbnode, newBase, newTop, reg, value, c);
      WroteGrown(shape0, blk0, fresh0, blk, cached, stride, wordSize, reg, value);
    }
  }

  lemma FocusDistinct(m: Store, root: Ref, t: Tree)
    requires Focus(m, root, Top, t)
    ensures Distinct(t)
  {
  }

  lemma SetRegisterBase(reg: int, value: int)
    ensures SetRegister(Block(reg, 1, [0], [Zero()]), 0, value).base == reg
  {
  }

  /** Testing a register against base_reg and top_reg. */
  lemma BlockTest(b: Block, stride: int, reg: int)
    requires BlockOk(b, stride) && 0 <= reg && reg % stride == 0
    ensures Covers(b, stride, reg / stride) <==> reg >= b.base && reg <= TopReg(b.base, b.len, stride)
    ensures reg > TopReg(b.base, b.len, stride) <==> Hi(b, stride) <= reg / stride
    ensures reg < b.base <==> reg / stride < Lo(b, stride)
    ensures b.base <= TopReg(b.base, b.len, stride)
  {
    Aligned(stride, reg, b.base, b.len);
    MulMonotone(0, b.len - 1, stride);
  }

  /** What a lookup result says about the map. */
  lemma EntryAt(s: seq<Ref>, blk: Blocks, stride: int, contents: map<int, int>, x: Ref, reg: int)
    requires CacheOk(s, blk, stride, contents) && 0 <= reg && reg % stride == 0
    requires if x != NIL then x in s && Covers(blk[x], stride, reg / stride)
             else forall y :: y in s ==> !Covers(blk[y], stride, reg / stride)
    ensures x == NIL ==> reg / stride !in contents
    ensures x != NIL ==> x in blk && 0 <= (reg - blk[x].base) / stride < |blk[x].vals|
    ensures x != NIL ==> (reg / stride in contents <==> At(blk[x].present, (reg - blk[x].base) / stride))
    ensures x != NIL && reg / stride in contents ==> contents[reg / stride] == blk[x].vals[(reg - blk[x].base) / stride]
  {
    hide At, Ascending;
    if x != NIL {
      BlockTest(blk[x], stride, reg);
      Aligned(stride, reg, blk[x].base, blk[x].len);
    }
  }

  lemma WalkStart(m: Store, root: Ref, t: Tree, blk: Blocks, stride: int, u: int)
    requires 1 <= stride && Focus(m, root, Top, t)
    ensures root == RootId(t)
    ensures Plug(Top, t) == t && Before(Top) == [] && After(Top) == []
    ensures Stored([], blk) && AllBelow([], blk, stride, u) && AllAbove([], blk, stride, u)
  {
  }

  /** One step of a search: what lies outside the child subtree cannot cover the register. */
  lemma WalkStep(m: Store, root: Ref, c: Ctx, t: Tree, blk: Blocks, stride: int, reg: int)
    requires 1 <= stride && 0 <= reg && reg % stride == 0
    requires Focus(m, root, c, t) && t.Node? && Stored(InOrder(Plug(c, t)), blk)
    requires Ascending(InOrder(Plug(c, t)), blk, stride)
    requires forall x :: x in InOrder(Plug(c, t)) ==> BlockOk(blk[x], stride)
    requires Stored(Before(c), blk) && AllBelow(Before(c), blk, stride, reg / stride)
    requires Stored(After(c), blk) && AllAbove(After(c), blk, stride, reg / stride)
    ensures t.id in m && m[t.id].left == RootId(t.left) && m[t.id].right == RootId(t.right)
    ensures t.id in InOrder(Plug(c, t)) && t.id != NIL
    ensures var cl := In(c, Left, t.id, t.red, t.right);
      && Focus(m, root, cl, t.left) && Plug(cl, t.left) == Plug(c, t)
      && Stored(Before(cl), blk) && AllBelow(Before(cl), blk, stride, reg / stride) && Stored(After(cl), blk)
      && (reg / stride < Lo(blk[t.id], stride) ==> AllAbove(After(cl), blk, stride, reg / stride))
    ensures var cr := In(c, Right, t.id, t.red, t.left);
      && Focus(m, root, cr, t.right) && Plug(cr, t.right) == Plug(c, t)
      && Stored(Before(cr), blk) && Stored(After(cr), blk) && AllAbove(After(cr), blk, stride, reg / stride)
      && (Hi(blk[t.id], stride) <= reg / stride ==> AllBelow(Before(cr), blk, stride, reg / stride))
  {
    InOrderPlug(c, t);
    WalkSides(Before(c), InOrder(t.left), t.id, InOrder(t.right), After(c), blk, stride, reg / stride);
    hide BlockOk, Lo, Hi, AllBelow, AllAbove, Ascending, Stored;
    FocusStep(m, root, c, Left, t.id, t.red, t.right, t.left);
    FocusStep(m, root, c, Right, t.id, t.red, t.left, t.right);
    RepRoot(m, t, CtxParent(c));
  }

  lemma WalkSides(b: seq<Ref>, l: seq<Ref>, x: Ref, r: seq<Ref>, a: seq<Ref>, blk: Blocks, stride: int, u: int)
    requires 1 <= stride && Stored(b + (l + [x] + r) + a, blk) && Ascending(b + (l + [x] + r) + a, blk, stride)
    requires forall y :: y in b + (l + [x] + r) + a ==> BlockOk(blk[y], stride)
    requires Stored(b, blk) && Stored(a, blk) && AllBelow(b, blk, stride, u) && AllAbove(a, blk, stride, u)
    ensures x in b + (l + [x] + r) + a && x in blk
    ensures Stored([x] + r + a, blk) && (u < Lo(blk[x], stride) ==> AllAbove([x] + r + a, blk, stride, u))
    ensures Stored(b + l + [x], blk) && (Hi(blk[x], stride) <= u ==> AllBelow(b + l + [x], blk, stride, u))
  {
    assert (b + (l + [x] + r) + a)[|b| + |l|] == x;
    SplitAt(b, l, x, r, a, blk, stride);
    BlockRange(blk[x], stride);
    hide BlockOk, Lo, Hi;
  }

  /** The search fell off the tree: no block covers the register. */
  lemma WalkEnd(m: Store, root: Ref, c: Ctx, t: Tree, blk: Blocks, stride: int, u: int)
    requires 1 <= stride && Focus(m, root, c, t) && RootId(t) == NIL
    requires Stored(Before(c), blk) && AllBelow(Before(c), blk, stride, u)
    requires Stored(After(c), blk) && AllAbove(After(c), blk, stride, u)
    ensures t == Leaf && InOrder(Plug(c, t)) == Before(c) + After(c)
    ensures forall x :: x in InOrder(Plug(c, t)) ==> x in blk && !Covers(blk[x], stride, u)
  {
    RepRoot(m, t, CtxParent(c));
    InOrderPlug(c, t);
  }

  /** The path from the root that the search for a register takes, to an empty link or to the block that covers it. */
  ghost function SearchPath(c: Ctx, t: Tree, blk: Blocks, stride: int, reg: int): Ctx
    decreases t
  {
    if t.Leaf? || t.id !in blk then c
    else if reg < blk[t.id].base then SearchPath(In(c, Left, t.id, t.red, t.right), t.left, blk, stride, reg)
    else if reg > TopReg(blk[t.id].base, blk[t.id].len, stride) then
      SearchPath(In(c, Right, t.id, t.red, t.left), t.right, blk, stride, reg)
    else c
  }

  lemma {:induction false} SamePath(c: Ctx, t: Tree, blk: Blocks, blk': Blocks, stride: int, reg: int, id: Ref)
    requires id !in Ids(t) && forall x :: x != id ==> (x in blk <==> x in blk') && (x in blk ==> blk'[x] == blk[x])
    ensures SearchPath(c, t, blk', stride, reg) == SearchPath(c, t, blk, stride, reg)
    decreases t
  {
    if t.Node? {
      SamePath(In(c, Left, t.id, t.red, t.right), t.left, blk, blk', stride, reg, id);
      SamePath(In(c, Right, t.id, t.red, t.left), t.right, blk, blk', stride, reg, id);
    }
  }

  /** id hangs where the path ended; rebalancing leaves it there when its parent is black. */
  ghost predicate Linked(shape: Tree, id: Ref, c: Ctx) {
    && InOrder(shape) == Before(c) + [id] + After(c)
    && (c.Top? ==> shape == Node(Leaf, id, false, Leaf))
    && (c.In? && !c.red ==> shape == Plug(c, Node(Leaf, id, true, Leaf)))
  }

  /** A block of one register. */
  function Single(reg: int, value: int): Block {
    SetRegister(Block(reg, 1, [0], [Zero()]), 0, value)
  }

  /** b' is b extended to register index u, with one more entry. */
  ghost predicate Grown(b: Block, b': Block, stride: int, u: int, value: int) {
    && BlockOk(b', stride)
    && (if u < Lo(b, stride) then Lo(b', stride) == u && Hi(b', stride) == Hi(b, stride)
        else Lo(b', stride) == Lo(b, stride) && Hi(b', stride) == u + 1)
    && (forall v :: Holds(b', stride, v) <==> Holds(b, stride, v) || v == u)
    && (forall v :: Covers(b', stride, v) && (Covers(b, stride, v) || v == u) ==>
          ValueAt(b', stride, v) == if v == u then value else ValueAt(b, stride, v))
  }

  // -------------------------------------------------------- choosing the block to grow

  datatype Choice = Choice(node: Ref, dist: int)

  /** max_dist, in 32-bit arithmetic. */
  function MaxDist(stride: int, wordSize: int): int
    requires 1 <= wordSize
  {
    stride * NODE_SIZE % LIMIT / wordSize
  }

  lemma NearMin(reg: int, stride: int, wordSize: int)
    requires 1 <= stride && 1 <= wordSize && 0 <= reg
    ensures 0 <= MaxDist(stride, wordSize) && Near(reg, stride, wordSize).min <= reg
    ensures Near(reg, stride, wordSize).max == (reg + MaxDist(stride, wordSize)) % LIMIT
  {
  }

  lemma NearNoWrap(reg: int, stride: int, wordSize: int)
    requires 1 <= wordSize && 0 <= reg
    ensures 0 <= MaxDist(stride, wordSize)
    ensures reg + MaxDist(stride, wordSize) < LIMIT ==>
              Near(reg, stride, wordSize).min <= reg <= Near(reg, stride, wordSize).max
  {
    DivMod(stride * NODE_SIZE % LIMIT, wordSize);
    if MaxDist(stride, wordSize) < 0 { MulMonotone(MaxDist(stride, wordSize), -1, wordSize); }
  }

  /** min and max in regcache_rbtree_write; max is computed in 32 bits. */
  datatype Range = Range(min: int, max: int)

  function Near(reg: int, stride: int, wordSize: int): Range
    requires 1 <= wordSize
  {
    var d := MaxDist(stride, wordSize);
    Range(if reg < d then 0 else reg - d, (reg + d) % LIMIT)
  }

  ghost predicate Passes(b: Block, stride: int, near: Range) {
    b.base <= near.max && TopReg(b.base, b.len, stride) >= near.min
  }

  function Distance(b: Block, stride: int, reg: int): int {
    var top := TopReg(b.base, b.len, stride);
    if reg < b.base then b.base - reg else if reg > top then reg - top else 0
  }

  ghost predicate Frames(c: Ctx, blk: Blocks) {
    c.In? ==> c.id in blk && Frames(c.up, blk)
  }

  /** The candidate after visiting the nodes on the path `c`, from the root down. */
  ghost function Pick(c: Ctx, blk: Blocks, stride: int, reg: int, near: Range): Choice
    requires Frames(c, blk)
  {
    if c.Top? then Choice(NIL, LIMIT - 1)
    else
      var p, d := Pick(c.up, blk, stride, reg, near), Distance(blk[c.id], stride, reg);
      if Passes(blk[c.id], stride, near) && d < p.dist then Choice(c.id, d) else p
  }

  function Last(s: seq<Ref>): Ref {
    if s == [] then NIL else s[|s| - 1]
  }

  function Head(s: seq<Ref>): Ref {
    if s == [] then NIL else s[0]
  }

  /** x is the block just below or just above the hole of `c`. */
  ghost predicate Neighbour(c: Ctx, x: Ref) {
    x == NIL || x == Last(Before(c)) || x == Head(After(c))
  }

  /** Pick's candidate passes the distance filter and lies at the recorded distance. */
  lemma {:induction false} PickPasses(c: Ctx, blk: Blocks, stride: int, reg: int, near: Range)
    requires Frames(c, blk)
    ensures var p := Pick(c, blk, stride, reg, near);
      p.node != NIL ==>
        && p.node in blk && Passes(blk[p.node], stride, near)
        && p.dist == Distance(blk[p.node], stride, reg)
  {
    if c.In? { PickPasses(c.up, blk, stride, reg, near); }
  }

  /** The block lies within d of the register, without wrap. */
  ghost predicate Within(b: Block, stride: int, reg: int, d: int) {
    b.base <= reg + d && reg - d <= b.base + (b.len - 1) * stride
  }

  /** Registers between the block and reg. */
  ghost function Gap(b: Block, stride: int, reg: int): int {
    if reg < b.base then b.base - reg
    else if reg > b.base + (b.len - 1) * stride then reg - (b.base + (b.len - 1) * stride) else 0
  }

  /** On the way down the path, x is the first of the nearest blocks in the window. */
  ghost predicate FirstNearest(c: Ctx, blk: Blocks, stride: int, reg: int, d: int, x: Ref) {
    && c.In? && c.id in blk && x in blk
    && if c.id == x && FirstBelow(c.up, blk, stride, reg, d, Gap(blk[x], stride, reg))
       then Within(blk[x], stride, reg, d)
       else
         && (Within(blk[c.id], stride, reg, d) ==> Gap(blk[x], stride, reg) <= Gap(blk[c.id], stride, reg))
         && FirstNearest(c.up, blk, stride, reg, d, x)
  }

  /** No block on the path lies in the window as near as this. */
  ghost predicate FirstBelow(c: Ctx, blk: Blocks, stride: int, reg: int, d: int, gap: int) {
    c.In? ==>
      && c.id in blk && (Within(blk[c.id], stride, reg, d) ==> gap < Gap(blk[c.id], stride, reg))
      && FirstBelow(c.up, blk, stride, reg, d, gap)
  }

  ghost predicate SortedSides(c: Ctx, blk: Blocks, stride: int, u: int) {
    && 1 <= stride && Stored(Before(c), blk) && Stored(After(c), blk)
    && Ascending(Before(c), blk, stride) && Ascending(After(c), blk, stride)
    && AllBelow(Before(c), blk, stride, u) && AllAbove(After(c), blk, stride, u)
    && (forall x :: x in Before(c) || x in After(c) ==> x != NIL && BlockOk(blk[x], stride))
  }

  /** Below an in-order predecessor: a block on the far side of another one is farther away. */
  lemma Farther(x: Block, y: Block, stride: int, reg: int)
    requires BlockOk(x, stride) && BlockOk(y, stride) && Hi(x, stride) <= Lo(y, stride) && 0 <= reg && reg % stride == 0
    ensures x.base < y.base && TopReg(x.base, x.len, stride) < TopReg(y.base, y.len, stride)
    ensures Hi(y, stride) <= reg / stride ==> Distance(y, stride, reg) < Distance(x, stride, reg)
    ensures reg / stride < Lo(x, stride) ==> Distance(x, stride, reg) < Distance(y, stride, reg)
    ensures TopReg(x.base, x.len, stride) < y.base
  {
    Aligned(stride, y.base, x.base, x.len);
    BlockTest(x, stride, reg);
    BlockTest(y, stride, reg);
  }

  /**
   Where the walk settles, wrap or no wrap: on the block just above the register, or on a block below
   it, which is the one just below unless that one fails the distance filter.
   */
  lemma {:induction false} PickSides(c: Ctx, blk: Blocks, stride: int, reg: int, near: Range)
    requires Frames(c, blk) && 0 <= reg && 1 <= stride && reg % stride == 0 && SortedSides(c, blk, stride, reg / stride)
    requires near.min <= reg
    ensures var x := Pick(c, blk, stride, reg, near).node;
      && (x == NIL || x in Before(c) || x == Head(After(c)))
      && (x in Before(c) && Passes(blk[Last(Before(c))], stride, near) ==> x == Last(Before(c)))
  {
    if c.In? {
      UpSorted(c, blk, stride, reg / stride);
      PickSides(c.up, blk, stride, reg, near);
      PickPasses(c.up, blk, stride, reg, near);
      var p := Pick(c.up, blk, stride, reg, near).node;
      BlockTest(blk[c.id], stride, reg);
      if p != NIL {
        NextFrame(c, blk, stride, reg / stride, p);
        if p in Before(c.up) && c.side == Right { Farther(blk[p], blk[c.id], stride, reg); }
        if p == Head(After(c.up)) && c.side == Left { Farther(blk[c.id], blk[p], stride, reg); }
      }
    }
  }

  ghost predicate OnPath(c: Ctx, x: Ref) {
    c.In? && (c.id == x || OnPath(c.up, x))
  }

  /** The in-order neighbours of a missing register both lie on its search path. */
  lemma {:induction false} NeighboursOnPath(c: Ctx)
    ensures Before(c) != [] ==> OnPath(c, Last(Before(c)))
    ensures After(c) != [] ==> OnPath(c, Head(After(c)))
  {
    hide InOrder;
    if c.In? { NeighboursOnPath(c.up); }
  }

  /** When the 32-bit sum reg + max_dist does not wrap the walk settles on one of them. */
  lemma PickNeighbour(c: Ctx, blk: Blocks, stride: int, reg: int, near: Range)
    requires Frames(c, blk) && 0 <= reg && 1 <= stride && reg % stride == 0 && SortedSides(c, blk, stride, reg / stride)
    requires near.min <= reg <= near.max
    ensures Neighbour(c, Pick(c, blk, stride, reg, near).node)
  {
    PickSides(c, blk, stride, reg, near);
    PickPasses(c, blk, stride, reg, near);
    var x := Pick(c, blk, stride, reg, near).node;
    if x in Before(c) && x != Last(Before(c)) {
      LastBelow(Before(c), blk, stride, x);
      Farther(blk[x], blk[Last(Before(c))], stride, reg);
      BlockTest(blk[Last(Before(c))], stride, reg);
    }
  }

  lemma LastBelow(s: seq<Ref>, blk: Blocks, stride: int, x: Ref)
    requires 1 <= stride && Stored(s, blk) && Ascending(s, blk, stride) && x in s && x != Last(s)
    ensures Last(s) in s && Hi(blk[x], stride) <= Lo(blk[Last(s)], stride)
  {
    var i :| 0 <= i < |s| && s[i] == x;
    assert i < |s| - 1;
  }

  /** The sides of the path one level up are a prefix and a suffix of the sides here. */
  lemma UpSorted(c: Ctx, blk: Blocks, stride: int, u: int)
    requires c.In? && SortedSides(c, blk, stride, u)
    ensures SortedSides(c.up, blk, stride, u)
    ensures c.id in blk && c.id != NIL && BlockOk(blk[c.id], stride)
    ensures if c.side == Right then c.id == Last(Before(c)) && Hi(blk[c.id], stride) <= u
                else c.id == Head(After(c)) && u < Lo(blk[c.id], stride)
  {
    var b, a := Before(c), After(c);
    var b', a' := Before(c.up), After(c.up);
    if c.side == Right {
      assert forall i :: 0 <= i < |b'| ==> b[i] == b'[i];
      assert b[|b| - 1] == c.id;
    } else {
      var k := 1 + |InOrder(c.sib)|;
      assert forall i :: 0 <= i < |a'| ==> a[k + i] == a'[i];
      assert a[0] == c.id;
    }
  }

  lemma NextFrame(c: Ctx, blk: Blocks, stride: int, u: int, p: Ref)
    requires c.In? && SortedSides(c, blk, stride, u) && p != NIL && (p in Before(c.up) || p == Head(After(c.up)))
    ensures p in blk && BlockOk(blk[p], stride) && c.id in blk
    ensures c.side == Right && p in Before(c.up) ==>
              Hi(blk[p], stride) <= Lo(blk[c.id], stride) && p in Before(c) && p != c.id
    ensures c.side == Left && p == Head(After(c.up)) ==> Hi(blk[c.id], stride) <= Lo(blk[p], stride)
    ensures c.side == Right ==> After(c) == After(c.up) && c.id in Before(c) && Last(Before(c)) == c.id
    ensures c.side == Left ==> Before(c) == Before(c.up) && Head(After(c)) == c.id
    ensures c.side == Right && p == Head(After(c.up)) ==> p !in Before(c)
    ensures c.side == Left && p == Head(After(c.up)) ==> p !in Before(c)
  {
    UpSorted(c, blk, stride, u);
    var b, a := Before(c), After(c);
    var b', a' := Before(c.up), After(c.up);
    if c.side == Right && p in b' {
      var i :| 0 <= i < |b'| && b'[i] == p;
      assert b[i] == p && b[|b| - 1] == c.id;
      BlockRange(blk[c.id], stride);
    }
    if c.side == Left && a' != [] {
      assert a[1 + |InOrder(c.sib)|] == a'[0] && a[0] == c.id;
    }
    if p == Head(a') { BlockRange(blk[p], stride); }
  }

  lemma PickIsNeighbour(shape: Tree, c: Ctx, blk: Blocks, stride: int, reg: int, near: Range, contents: map<int, int>)
    requires Plug(c, Leaf) == shape && CacheOk(InOrder(shape), blk, stride, contents) && Distinct(shape)
    requires Frames(c, blk) && 0 <= reg && reg % stride == 0 && near.min <= reg <= near.max
    requires Stored(Before(c), blk) && Stored(After(c), blk)
    requires AllBelow(Before(c), blk, stride, reg / stride) && AllAbove(After(c), blk, stride, reg / stride)
    ensures Neighbour(c, Pick(c, blk, stride, reg, near).node)
  {
    HoleSides(shape, c, blk, stride, reg / stride, contents);
    hide InOrder, Before, After, Plug, Pick, CacheOk, SortedSides;
    PickNeighbour(c, blk, stride, reg, near);
  }

  lemma SidesAscending(b: seq<Ref>, a: seq<Ref>, blk: Blocks, stride: int)
    requires 1 <= stride && Stored(b + a, blk) && Ascending(b + a, blk, stride) && Stored(b, blk) && Stored(a, blk)
    ensures Ascending(b, blk, stride) && Ascending(a, blk, stride)
  {
    hide Lo, Hi;
    var s := b + a;
    forall i, j | 0 <= i < j < |b| ensures Hi(blk[b[i]], stride) <= Lo(blk[b[j]], stride) {
      assert s[i] == b[i] && s[j] == b[j];
    }
    forall i, j | 0 <= i < j < |a| ensures Hi(blk[a[i]], stride) <= Lo(blk[a[j]], stride) {
      assert s[|b| + i] == a[i] && s[|b| + j] == a[j];
    }
  }

  /** A block at u fits between what is below u and what is above u. */
  lemma MiddleAscending(b: seq<Ref>, id: Ref, a: seq<Ref>, blk: Blocks, stride: int, u: int)
    requires 1 <= stride && Stored(b + a, blk) && Ascending(b + a, blk, stride) && Stored(b, blk) && Stored(a, blk)
    requires id in blk && Lo(blk[id], stride) == u && Hi(blk[id], stride) == u + 1
    requires AllBelow(b, blk, stride, u) && AllAbove(a, blk, stride, u)
    ensures Stored(b + [id] + a, blk) && Ascending(b + [id] + a, blk, stride)
  {
    hide Lo, Hi;
    var s, s', n := b + a, b + [id] + a, |b|;
    forall i, j | 0 <= i < j < |s'| ensures Hi(blk[s'[i]], stride) <= Lo(blk[s'[j]], stride) {
      assert i < n ==> s'[i] == s[i] && s'[i] == b[i];
      assert j > n ==> s'[j] == s[j - 1] && s'[j] == a[j - n - 1];
      assert i > n ==> s'[i] == s[i - 1];
      assert j < n ==> s'[j] == s[j];
    }
  }

  // --------------------------------------------------------------- updating the blocks

  /** blk' differs from blk at x only, where the block now also holds `value` for u. */
  ghost predicate Updated(s: seq<Ref>, blk: Blocks, s': seq<Ref>, blk': Blocks, stride: int, x: Ref, u: int, value: int)
    requires 1 <= stride && Stored(s, blk) && Stored(s', blk')
  {
    && x in s' && BlockOk(blk'[x], stride) && Covers(blk'[x], stride, u)
    && (forall y :: y in s ==> y in s') && (forall y :: y in s' && y != x ==> y in s && blk'[y] == blk[y])
    && (forall v :: Holds(blk'[x], stride, v) <==> v == u || (x in s && Holds(blk[x], stride, v)))
    && (x in s ==> forall v :: Covers(blk[x], stride, v) ==> Covers(blk'[x], stride, v))
    && ValueAt(blk'[x], stride, u) == value
    && (x in s ==> forall v :: v != u && Covers(blk[x], stride, v) ==>
           ValueAt(blk'[x], stride, v) == ValueAt(blk[x], stride, v))
  }

  lemma OneBlock(s: seq<Ref>, blk: Blocks, stride: int, x: Ref, y: Ref, v: int)
    requires 1 <= stride && Stored(s, blk) && Ascending(s, blk, stride) && x in s && y in s
    requires Covers(blk[x], stride, v) && Covers(blk[y], stride, v)
    ensures x == y
  {
    var i :| 0 <= i < |s| && s[i] == x;
    var j :| 0 <= j < |s| && s[j] == y;
    AscendingAt(s, blk, stride, i, j);
    AscendingAt(s, blk, stride, j, i);
  }

  lemma AscendingAt(s: seq<Ref>, blk: Blocks, stride: int, i: int, j: int)
    requires 1 <= stride && Stored(s, blk) && Ascending(s, blk, stride) && 0 <= i < |s| && 0 <= j < |s|
    ensures i < j ==> Hi(blk[s[i]], stride) <= Lo(blk[s[j]], stride)
  {
  }

  /** A write to one block changes the represented map at one register index. */
  lemma UpdateRepresents(s: seq<Ref>, blk: Blocks, s': seq<Ref>, blk': Blocks, stride: int, contents: map<int, int>,
                         x: Ref, u: int, value: int)
    requires CacheOk(s, blk, stride, contents) && Stored(s', blk') && Ascending(s', blk', stride)
    requires Updated(s, blk, s', blk', stride, x, u, value)
    ensures CacheOk(s', blk', stride, contents[u := value])
  {
    hide Holds, Covers, ValueAt, Ascending, BlockOk;
    var contents' := contents[u := value];
    forall y, v | y in s' && Covers(blk'[y], stride, v)
      ensures v in contents' <==> Holds(blk'[y], stride, v)
      ensures Holds(blk'[y], stride, v) ==> contents'[v] == ValueAt(blk'[y], stride, v)
    {
      UpdateAt(s, blk, s', blk', stride, contents, x, u, value, y, v);
    }
    forall v | v in contents' ensures exists y :: y in s' && Covers(blk'[y], stride, v) {
      if v == u {
        assert x in s' && Covers(blk'[x], stride, u);
      } else {
        var y :| y in s && Covers(blk[y], stride, v);
        assert y in s' && Covers(blk'[y], stride, v);
      }
    }
    MakeRepresents(s', blk', stride, contents');
  }

  lemma HoldsCovers(b: Block, stride: int, v: int)
    requires 1 <= stride
    ensures Holds(b, stride, v) ==> Covers(b, stride, v)
  {
  }

  lemma UpdateAt(s: seq<Ref>, blk: Blocks, s': seq<Ref>, blk': Blocks, stride: int, contents: map<int, int>, x: Ref,
                 u: int, value: int, y: Ref, v: int)
    requires CacheOk(s, blk, stride, contents) && Stored(s', blk') && Ascending(s', blk', stride)
    requires Updated(s, blk, s', blk', stride, x, u, value)
    requires y in s' && Covers(blk'[y], stride, v)
    ensures var contents' := contents[u := value];
      && (v in contents' <==> Holds(blk'[y], stride, v))
      && (Holds(blk'[y], stride, v) ==> contents'[v] == ValueAt(blk'[y], stride, v))
  {
    hide Holds, Covers, ValueAt, Ascending, BlockOk;
    if y != x {
      if v == u { OneBlock(s', blk', stride, x, y, u); }
    } else if v != u {
      if v in contents {
        var z :| z in s && Covers(blk[z], stride, v);
        assert z in s' && Covers(blk'[z], stride, v);
        OneBlock(s', blk', stride, x, z, v);
      } else if x in s {
        HoldsCovers(blk[x], stride, v);
      }
    }
  }

  /** The register lies in an existing block. */
  lemma SetInPlace(shape: Tree, blk: Blocks, stride: int, contents: map<int, int>, x: Ref, u: int, value: int,
                   b': Block)
    requires CacheOk(InOrder(shape), blk, stride, contents) && x in InOrder(shape) && Covers(blk[x], stride, u)
    requires u - Lo(blk[x], stride) < 32 * |blk[x].present|
    requires b' == SetRegister(blk[x], u - Lo(blk[x], stride), value)
    ensures CacheOk(InOrder(shape), blk[x := b'], stride, contents[u := value])
  {
    SetRegisterHolds(blk[x], stride, u, value);
    hide SetRegister, InOrder, Represents, Holds, BlockOk;
    var s := InOrder(shape);
    SameRangeAscending(s, blk, stride, x, b');
    UpdateRepresents(s, blk, s, blk[x := b'], stride, contents, x, u, value);
  }

  lemma SameRangeAscending(s: seq<Ref>, blk: Blocks, stride: int, x: Ref, b': Block)
    requires 1 <= stride && Stored(s, blk) && Ascending(s, blk, stride) && x in s
    requires Lo(b', stride) == Lo(blk[x], stride) && Hi(b', stride) == Hi(blk[x], stride)
    ensures Stored(s, blk[x := b']) && Ascending(s, blk[x := b'], stride)
  {
    hide Lo, Hi;
  }

  /** Growing a neighbour of the missing register up to it meets no other block. */
  lemma GrowNeighbour(shape: Tree, c: Ctx, blk: Blocks, stride: int, contents: map<int, int>, x: Ref, u: int,
                      value: int, b': Block)
    requires CacheOk(InOrder(shape), blk, stride, contents) && Distinct(shape) && Plug(c, Leaf) == shape
    requires Stored(Before(c), blk) && Stored(After(c), blk)
    requires AllBelow(Before(c), blk, stride, u) && AllAbove(After(c), blk, stride, u)
    requires x != NIL && Neighbour(c, x) && x in blk && BlockOk(blk[x], stride) && BlockOk(b', stride)
    requires if u < Lo(blk[x], stride) then Lo(b', stride) == u && Hi(b', stride) == Hi(blk[x], stride)
             else Lo(b', stride) == Lo(blk[x], stride) && Hi(b', stride) == u + 1
    requires forall v :: Holds(b', stride, v) <==> Holds(blk[x], stride, v) || v == u
    requires forall v :: Covers(b', stride, v) && (Covers(blk[x], stride, v) || v == u) ==>
               ValueAt(b', stride, v) == if v == u then value else ValueAt(blk[x], stride, v)
    ensures x in InOrder(shape) && CacheOk(InOrder(shape), blk[x := b'], stride, contents[u := value])
  {
    NeighbourAscending(shape, c, blk, stride, contents, x, u, b');
    hide InOrder, Before, After, Represents, Holds, ValueAt, Ascending, AllBelow, AllAbove, Neighbour, BlockOk;
    GrownUpdated(InOrder(shape), blk, stride, x, u, value, b');
    UpdateRepresents(InOrder(shape), blk, InOrder(shape), blk[x := b'], stride, contents, x, u, value);
  }

  lemma GrownUpdated(s: seq<Ref>, blk: Blocks, stride: int, x: Ref, u: int, value: int, b': Block)
    requires 1 <= stride && Stored(s, blk) && x in s && BlockOk(b', stride) && BlockOk(blk[x], stride)
    requires if u < Lo(blk[x], stride) then Lo(b', stride) == u && Hi(b', stride) == Hi(blk[x], stride)
             else Lo(b', stride) == Lo(blk[x], stride) && Hi(b', stride) == u + 1
    requires Hi(blk[x], stride) <= u || u < Lo(blk[x], stride)
    requires forall v :: Holds(b', stride, v) <==> Holds(blk[x], stride, v) || v == u
    requires forall v :: Covers(b', stride, v) && (Covers(blk[x], stride, v) || v == u) ==>
               ValueAt(b', stride, v) == if v == u then value else ValueAt(blk[x], stride, v)
    ensures Stored(s, blk[x := b']) && Updated(s, blk, s, blk[x := b'], stride, x, u, value)
  {
    hide Holds, ValueAt;
    assert Covers(b', stride, u);
  }

  lemma NeighbourAscending(shape: Tree, c: Ctx, blk: Blocks, stride: int, contents: map<int, int>, x: Ref, u: int,
                           b': Block)
    requires CacheOk(InOrder(shape), blk, stride, contents) && Distinct(shape) && Plug(c, Leaf) == shape
    requires Stored(Before(c), blk) && Stored(After(c), blk)
    requires AllBelow(Before(c), blk, stride, u) && AllAbove(After(c), blk, stride, u)
    requires x != NIL && Neighbour(c, x) && x in blk
    requires if u < Lo(blk[x], stride) then Lo(b', stride) == u && Hi(b', stride) == Hi(blk[x], stride)
             else Lo(b', stride) == Lo(blk[x], stride) && Hi(b', stride) == u + 1
    ensures var s := InOrder(shape);
      x in s && BlockOk(blk[x], stride) && Stored(s, blk[x := b']) && Ascending(s, blk[x := b'], stride)
    ensures Hi(blk[x], stride) <= u || u < Lo(blk[x], stride)
  {
    hide InOrder, Before, After, Represents, Plug, Distinct, Ascending, BlockOk, AllBelow, AllAbove, Stored, Last, Head;
    InOrderLeaf(c);
    InOrderInjective(shape);
    NeighbourSeq(Before(c), After(c), blk, stride, x, u, b');
  }

  lemma InOrderLeaf(c: Ctx)
    ensures InOrder(Plug(c, Leaf)) == Before(c) + After(c)
  {
    InOrderPlug(c, Leaf);
    hide Plug, Before, After;
    assert Before(c) + [] + After(c) == Before(c) + After(c);
  }

  /** The same on the two halves of the sequence. */
  lemma NeighbourSeq(l: seq<Ref>, h: seq<Ref>, blk: Blocks, stride: int, x: Ref, u: int, b': Block)
    requires 1 <= stride && Stored(l + h, blk) && Ascending(l + h, blk, stride)
    requires (forall y :: y in l + h ==> BlockOk(blk[y], stride))
    requires forall i, j :: 0 <= i < j < |l + h| ==> (l + h)[i] != (l + h)[j]
    requires Stored(l, blk) && Stored(h, blk) && AllBelow(l, blk, stride, u) && AllAbove(h, blk, stride, u)
    requires x != NIL && (x == Last(l) || x == Head(h)) && x in blk
    requires if u < Lo(blk[x], stride) then Lo(b', stride) == u && Hi(b', stride) == Hi(blk[x], stride)
             else Lo(b', stride) == Lo(blk[x], stride) && Hi(b', stride) == u + 1
    ensures x in l + h && BlockOk(blk[x], stride) && Stored(l + h, blk[x := b'])
    ensures Ascending(l + h, blk[x := b'], stride)
    ensures Hi(blk[x], stride) <= u || u < Lo(blk[x], stride)
  {
    hide BlockOk, Lo, Hi, Ascending;
    var s, n := l + h, |l|;
    var k := if x == Last(l) then n - 1 else n;
    assert 0 <= k < |s| && s[k] == x;
    InParts(l, h);
    assert x in s;
    BlockRange(blk[x], stride);
    assert Hi(blk[x], stride) <= u <==> k == n - 1;
    GrownAscending(s, n, blk, stride, k, u, b');
  }

  lemma InParts(a: seq<Ref>, b: seq<Ref>)
    ensures forall i :: 0 <= i < |a| ==> (a + b)[i] in a
    ensures forall i :: |a| <= i < |a + b| ==> (a + b)[i] in b
  {
  }

  lemma BlockRange(b: Block, stride: int)
    requires BlockOk(b, stride)
    ensures Lo(b, stride) < Hi(b, stride)
  {
  }

  lemma GrownAscending(s: seq<Ref>, n: int, blk: Blocks, stride: int, k: int, u: int, b': Block)
    requires 1 <= stride && Stored(s, blk) && Ascending(s, blk, stride)
    requires forall i, j :: 0 <= i < j < |s| ==> s[i] != s[j]
    requires 0 <= n <= |s| && 0 <= k < |s| && (k == n - 1 || k == n)
    requires forall i :: 0 <= i < n ==> Hi(blk[s[i]], stride) <= u
    requires forall i :: n <= i < |s| ==> u < Lo(blk[s[i]], stride)
    requires if k == n then Lo(b', stride) == u && Hi(b', stride) == Hi(blk[s[k]], stride)
             else Lo(b', stride) == Lo(blk[s[k]], stride) && Hi(b', stride) == u + 1
    ensures Stored(s, blk[s[k] := b']) && Ascending(s, blk[s[k] := b'], stride)
  {
    hide Lo, Hi;
  }

  lemma NotStored(shape: Tree, nextRef: Ref)
    requires forall x :: x in Ids(shape) ==> x < nextRef
    ensures nextRef !in InOrder(shape) && nextRef !in Ids(shape)
  {
    InOrderIds(shape, nextRef);
  }

  /** A block not yet in the tree does not matter. */
  lemma AddUnused(s: seq<Ref>, blk: Blocks, blk': Blocks, x: Ref, stride: int, contents: map<int, int>)
    requires CacheOk(s, blk, stride, contents) && x !in s && x in blk' && blk'.Keys == blk.Keys + {x}
    requires forall y :: y in blk && y != x ==> blk'[y] == blk[y]
    ensures CacheOk(s, blk', stride, contents)
  {
    hide BlockOk, Covers, Holds, ValueAt;
    forall y | y in s ensures y in blk' && y in blk && blk'[y] == blk[y] {
      assert y in blk && y != x;
    }
    forall i | 0 <= i < |s| ensures s[i] in blk' { assert s[i] in s; }
    assert Stored(s, blk');
    forall v | v in contents ensures exists y :: y in s && Covers(blk'[y], stride, v) {
      var y :| y in s && Covers(blk[y], stride, v);
      assert Covers(blk'[y], stride, v);
    }
  }

  /** A new one-register block at the place where the search ended. */
  lemma AddBlock(shape: Tree, c: Ctx, blk: Blocks, stride: int, contents: map<int, int>, id: Ref, value: int)
    requires CacheOk(InOrder(shape), blk, stride, contents) && Plug(c, Leaf) == shape
    requires id !in InOrder(shape) && id in blk && 0 <= blk[id].base < LIMIT && blk[id].base % stride == 0
    requires blk[id] == SetRegister(Block(blk[id].base, 1, [0], [Zero()]), 0, value)
    requires Stored(Before(c), blk) && Stored(After(c), blk)
    requires AllBelow(Before(c), blk, stride, blk[id].base / stride)
    requires AllAbove(After(c), blk, stride, blk[id].base / stride)
    ensures CacheOk(Before(c) + [id] + After(c), blk, stride, contents[blk[id].base / stride := value])
  {
    var u := blk[id].base / stride;
    NewBlock(blk[id].base, stride, value);
    InOrderPlug(c, Leaf);
    var s, s' := InOrder(shape), Before(c) + [id] + After(c);
    assert s == Before(c) + After(c);
    hide InOrder, Before, After, Represents, SetRegister, BlockOk, Holds, ValueAt;
    MiddleAscending(Before(c), id, After(c), blk, stride, u);
    AddedUpdated(Before(c), id, After(c), blk, stride, u, value);
    hide Ascending, AllBelow, AllAbove, Updated;
    UpdateRepresents(s, blk, s', blk, stride, contents, id, u, value);
  }

  lemma AddedUpdated(b: seq<Ref>, id: Ref, a: seq<Ref>, blk: Blocks, stride: int, u: int, value: int)
    requires 1 <= stride && Stored(b + a, blk) && Stored(b + [id] + a, blk) && id !in b + a && BlockOk(blk[id], stride)
    requires Covers(blk[id], stride, u) && ValueAt(blk[id], stride, u) == value
    requires forall v :: Holds(blk[id], stride, v) <==> v == u
    ensures Updated(b + a, blk, b + [id] + a, blk, stride, id, u, value)
  {
    hide Covers, Holds, ValueAt, BlockOk;
  }

  lemma NewBlock(base: int, stride: int, value: int)
    requires 1 <= stride && 0 <= base < LIMIT && base % stride == 0
    ensures var b, u := SetRegister(Block(base, 1, [0], [Zero()]), 0, value), base / stride;
      && BlockOk(b, stride) && Lo(b, stride) == u && Hi(b, stride) == u + 1 && ValueAt(b, stride, u) == value
      && forall v :: Holds(b, stride, v) <==> v == u
  {
    var b0, u := Block(base, 1, [0], [Zero()]), base / stride;
    assert BlockOk(b0, stride) && forall v :: !Holds(b0, stride, v);
    SetRegisterHolds(b0, stride, u, value);
  }

  lemma IdsAfterInsert(shape: Tree, shape': Tree, c: Ctx, id: Ref)
    requires Plug(c, Leaf) == shape && InOrder(shape') == Before(c) + [id] + After(c)
    requires forall x :: x in Ids(shape) ==> x < id
    ensures forall x :: x in Ids(shape') ==> x < id + 1
    ensures id in InOrder(shape') && forall x :: x in InOrder(shape) ==> x in InOrder(shape')
  {
    InOrderPlug(c, Leaf);
    forall x ensures (x in Ids(shape') ==> x < id + 1) && (x in InOrder(shape) ==> x in InOrder(shape')) {
      InOrderIds(shape, x);
      InOrderIds(shape', x);
    }
  }

  // -------------------------------------------------------- when the 32-bit sum wraps

  /** c is the empty link where the search for register index u ends. */
  ghost predicate Hole(shape: Tree, c: Ctx, blk: Blocks, stride: int, u: int) {
    && Plug(c, Leaf) == shape && Frames(c, blk) && 1 <= stride && Stored(Before(c), blk) && Stored(After(c), blk)
    && AllBelow(Before(c), blk, stride, u) && AllAbove(After(c), blk, stride, u)
  }

  /** The picked block is not one below the register with the block just below it beyond max. */
  ghost predicate SafeAt(c: Ctx, blk: Blocks, stride: int, reg: int, near: Range)
    requires Frames(c, blk) && Stored(Before(c), blk)
  {
    var x := Pick(c, blk, stride, reg, near).node;
    !(x in Before(c) && blk[Last(Before(c))].base > near.max)
  }

  ghost predicate GrowthSafe(shape: Tree, blk: Blocks, stride: int, wordSize: int, reg: int)
    requires 1 <= stride && 1 <= wordSize
  {
    var c := SearchPath(Top, shape, blk, stride, reg);
    Hole(shape, c, blk, stride, reg / stride) ==> SafeAt(c, blk, stride, reg, Near(reg, stride, wordSize))
  }

  /** The range of the block grown up to the register. */
  ghost function Stretched(b: Block, stride: int, reg: int): Block
    requires 1 <= stride
  {
    if reg < b.base then b.(base := reg, len := b.base / stride + b.len - reg / stride)
        else b.(len := reg / stride + 1 - b.base / stride)
  }

  /** Growing the picked block makes two blocks of the tree overlap. */
  ghost predicate GrowthOverlaps(shape: Tree, blk: Blocks, stride: int, wordSize: int, reg: int) {
    && 1 <= stride && 1 <= wordSize
    && var c := SearchPath(Top, shape, blk, stride, reg);
      && Hole(shape, c, blk, stride, reg / stride)
      && var x := Pick(c, blk, stride, reg, Near(reg, stride, wordSize)).node;
        && x in blk && Stored(InOrder(shape), blk[x := Stretched(blk[x], stride, reg)])
        && !Ascending(InOrder(shape), blk[x := Stretched(blk[x], stride, reg)], stride)
  }

  /** What a write to a register that no block covers does to the tree and the blocks. */
  ghost predicate Wrote(shape0: Tree, blk0: Blocks, fresh0: Ref, shape: Tree, blk: Blocks, nextRef: Ref, cached: Ref,
                        stride: int, wordSize: int, reg: int, value: int)
  {
    && 1 <= stride && 1 <= wordSize
    && var c := SearchPath(Top, shape0, blk0, stride, reg);
      && Frames(c, blk0)
      && var p := Pick(c, blk0, stride, reg, Near(reg, stride, wordSize)).node;
        if p == NIL then
          && cached == fresh0 && nextRef == fresh0 + 1
          && blk == blk0[fresh0 := Single(reg, value)] && Linked(shape, fresh0, c)
        else
          && cached == p && nextRef == fresh0 && shape == shape0
          && p in blk0 && p in blk && blk == blk0[p := blk[p]] && Grown(blk0[p], blk[p], stride, reg / stride, value)
  }

  lemma WroteNew(shape0: Tree, blk0: Blocks, fresh0: Ref, shape: Tree, blk: Blocks, cached: Ref,
                 stride: int, wordSize: int, reg: int, value: int)
    requires 1 <= stride && 1 <= wordSize
    requires var c := SearchPath(Top, shape0, blk0, stride, reg);
      Frames(c, blk0) && Pick(c, blk0, stride, reg, Near(reg, stride, wordSize)).node == NIL && Linked(shape, fresh0, c)
    requires cached == fresh0 && blk == blk0[fresh0 := Single(reg, value)]
    ensures Wrote(shape0, blk0, fresh0, shape, blk, fresh0 + 1, cached, stride, wordSize, reg, value)
  {
    hide SearchPath, Linked, Pick, Near, Single;
  }

  lemma WroteGrown(shape0: Tree, blk0: Blocks, fresh0: Ref, blk: Blocks, cached: Ref,
                   stride: int, wordSize: int, reg: int, value: int)
    requires 1 <= stride && 1 <= wordSize && cached != NIL && cached in blk0 && cached in blk
    requires var c := SearchPath(Top, shape0, blk0, stride, reg);
      Frames(c, blk0) && Pick(c, blk0, stride, reg, Near(reg, stride, wordSize)).node == cached
    requires blk == blk0[cached := blk[cached]] && Grown(blk0[cached], blk[cached], stride, reg / stride, value)
    ensures Wrote(shape0, blk0, fresh0, shape0, blk, fresh0, cached, stride, wordSize, reg, value)
  {
    hide SearchPath, Grown, Pick, Near;
  }

  lemma MakeHole(shape: Tree, c: Ctx, blk: Blocks, stride: int, u: int)
    requires Plug(c, Leaf) == shape && Frames(c, blk) && 1 <= stride && Stored(Before(c), blk) && Stored(After(c), blk)
    requires AllBelow(Before(c), blk, stride, u) && AllAbove(After(c), blk, stride, u)
    ensures Hole(shape, c, blk, stride, u)
  {
  }

  /** A register that a block covers has no hole, so nothing is grown for it. */
  lemma CoveredSafe(shape: Tree, blk: Blocks, stride: int, wordSize: int, reg: int, contents: map<int, int>, x: Ref)
    requires CacheOk(InOrder(shape), blk, stride, contents) && 1 <= wordSize && 0 <= reg
    requires x in InOrder(shape) && Covers(blk[x], stride, reg / stride)
    ensures GrowthSafe(shape, blk, stride, wordSize, reg)
  {
    var c := SearchPath(Top, shape, blk, stride, reg);
    hide Pick, Near, SearchPath, Represents, Ascending, SafeAt, Frames;
    InOrderLeaf(c);
    assert Plug(c, Leaf) == shape ==> x in Before(c) || x in After(c);
  }

  /** Nothing is grown when no block passes the window. */
  lemma NoneSafe(shape: Tree, c: Ctx, blk: Blocks, stride: int, wordSize: int, reg: int, contents: map<int, int>)
    requires CacheOk(InOrder(shape), blk, stride, contents) && Distinct(shape)
    requires Hole(shape, c, blk, stride, reg / stride)
    requires 1 <= wordSize && c == SearchPath(Top, shape, blk, stride, reg)
    requires Pick(c, blk, stride, reg, Near(reg, stride, wordSize)).node == NIL
    ensures GrowthSafe(shape, blk, stride, wordSize, reg)
  {
    hide Pick, Near, SearchPath, Represents, Ascending;
    HoleSides(shape, c, blk, stride, reg / stride, contents);
  }

  lemma LastBefore(c: Ctx, id: Ref, red: bool, l: Tree, r: Tree)
    ensures Last(Before(In(c, Right, id, red, l))) == id
    ensures Last(Before(In(c, Left, id, red, r))) == Last(Before(c))
  {
    hide InOrder;
  }

  /** Safety, read off the base registers of the picked block and of the block just below. */
  lemma SafeByBase(shape: Tree, c: Ctx, blk: Blocks, stride: int, wordSize: int, reg: int, contents: map<int, int>)
    requires CacheOk(InOrder(shape), blk, stride, contents) && Distinct(shape)
    requires Hole(shape, c, blk, stride, reg / stride)
    requires 1 <= wordSize && 0 <= reg && reg % stride == 0 && c == SearchPath(Top, shape, blk, stride, reg)
    requires Pick(c, blk, stride, reg, Near(reg, stride, wordSize)).node != NIL
    ensures var x, y := Pick(c, blk, stride, reg, Near(reg, stride, wordSize)).node, Last(Before(c));
      && x in blk && (blk[x].base <= reg ==> y in blk)
      && (GrowthSafe(shape, blk, stride, wordSize, reg) <==>
          blk[x].base > reg || blk[y].base <= Near(reg, stride, wordSize).max)
  {
    var near := Near(reg, stride, wordSize);
    NearMin(reg, stride, wordSize);
    HoleSides(shape, c, blk, stride, reg / stride, contents);
    PickSides(c, blk, stride, reg, near);
    PickedBlock(shape, c, blk, stride, wordSize, reg, contents);
    var x := Pick(c, blk, stride, reg, near).node;
    BlockTest(blk[x], stride, reg);
    hide Pick, Before, After, InOrder, Plug, CacheOk, Near, SearchPath, Ascending, BlockOk;
    assert x in Before(c) <==> blk[x].base <= reg;
  }

  /** A window that does not wrap is safe. */
  lemma NoWrapSafe(shape: Tree, blk: Blocks, stride: int, wordSize: int, reg: int, contents: map<int, int>)
    requires CacheOk(InOrder(shape), blk, stride, contents) && 1 <= wordSize && 0 <= reg && reg % stride == 0
    requires reg + MaxDist(stride, wordSize) < LIMIT
    ensures GrowthSafe(shape, blk, stride, wordSize, reg)
  {
    NearNoWrap(reg, stride, wordSize);
    var near, c := Near(reg, stride, wordSize), SearchPath(Top, shape, blk, stride, reg);
    hide Near, MaxDist, Pick, Represents, Ascending, SearchPath;
    if Hole(shape, c, blk, stride, reg / stride) && Before(c) != [] {
      var y := Last(Before(c));
      InOrderLeaf(c);
      assert y in Before(c) && y in InOrder(shape);
      BlockTest(blk[y], stride, reg);
    }
  }

  /** The blocks on the path are blocks of the tree. */
  ghost predicate PathOk(c: Ctx, blk: Blocks, stride: int) {
    c.In? ==> c.id in blk && c.id != NIL && BlockOk(blk[c.id], stride) && PathOk(c.up, blk, stride)
  }

  lemma {:induction false} SortedPath(c: Ctx, blk: Blocks, stride: int, u: int)
    requires SortedSides(c, blk, stride, u)
    ensures PathOk(c, blk, stride)
  {
    hide SortedSides;
    if c.In? {
      UpSorted(c, blk, stride, u);
      SortedPath(c.up, blk, stride, u);
    }
  }

  lemma {:induction false} FirstBelowLess(c: Ctx, blk: Blocks, stride: int, reg: int, d: int, g: int, g': int)
    requires FirstBelow(c, blk, stride, reg, d, g) && g' <= g
    ensures FirstBelow(c, blk, stride, reg, d, g')
  {
    hide Within, Gap;
    if c.In? { FirstBelowLess(c.up, blk, stride, reg, d, g, g'); }
  }

  lemma PassesIs(b: Block, stride: int, reg: int, d: int)
    requires BlockOk(b, stride) && 0 <= reg
    ensures Passes(b, stride, Range(if reg < d then 0 else reg - d, reg + d)) <==> Within(b, stride, reg, d)
    ensures Distance(b, stride, reg) == Gap(b, stride, reg)
    ensures Within(b, stride, reg, d) ==> 0 <= Gap(b, stride, reg) <= if d < 0 then 0 else d
  {
    MulMonotone(0, b.len - 1, stride);
  }

  /** The walk picks the first of the nearest blocks on its path. */
  lemma {:induction false} PickOnPath(c: Ctx, blk: Blocks, stride: int, reg: int, d: int)
    requires Frames(c, blk) && PathOk(c, blk, stride) && 0 <= reg && 0 <= d < LIMIT - 1
    ensures var p := Pick(c, blk, stride, reg, Range(if reg < d then 0 else reg - d, reg + d));
      && FirstBelow(c, blk, stride, reg, d, p.dist - 1)
      && (if p.node == NIL then p.dist == LIMIT - 1 else FirstNearest(c, blk, stride, reg, d, p.node))
      && (p.node != NIL ==>
            p.node in blk && Within(blk[p.node], stride, reg, d) && p.dist == Gap(blk[p.node], stride, reg))
  {
    hide Within, Gap, Passes, Distance, BlockOk;
    if c.In? {
      PickOnPath(c.up, blk, stride, reg, d);
      PassesIs(blk[c.id], stride, reg, d);
      var near := Range(if reg < d then 0 else reg - d, reg + d);
      var p0, p := Pick(c.up, blk, stride, reg, near), Pick(c, blk, stride, reg, near);
      FirstBelowLess(c.up, blk, stride, reg, d, p0.dist - 1, p.dist - 1);
      if p.node != p0.node { FirstBelowLess(c.up, blk, stride, reg, d, p0.dist - 1, p.dist); }
    }
  }

  lemma {:induction false} OnPathGap(c: Ctx, blk: Blocks, stride: int, reg: int, d: int, g: int, z: Ref)
    requires FirstBelow(c, blk, stride, reg, d, g) && OnPath(c, z)
    ensures z in blk && (Within(blk[z], stride, reg, d) ==> g < Gap(blk[z], stride, reg))
  {
    hide Within, Gap;
    if c.id != z { OnPathGap(c.up, blk, stride, reg, d, g, z); }
  }

  /** Any block in the window has a neighbour of the register in the window that is at least as near. */
  lemma NearerNeighbour(c: Ctx, blk: Blocks, stride: int, reg: int, d: int, y: Ref)
    requires 1 <= stride && 0 <= reg && reg % stride == 0 && 0 <= d && SortedSides(c, blk, stride, reg / stride)
    requires (y in Before(c) || y in After(c)) && Within(blk[y], stride, reg, d)
    ensures var z := if y in Before(c) then Last(Before(c)) else Head(After(c));
      z in blk && OnPath(c, z) && Within(blk[z], stride, reg, d) && Gap(blk[z], stride, reg) <= Gap(blk[y], stride, reg)
  {
    NeighboursOnPath(c);
    if y in Before(c) {
      var z := Last(Before(c));
      BlockTest(blk[z], stride, reg);
      if y != z {
        LastBelow(Before(c), blk, stride, y);
        Farther(blk[y], blk[z], stride, reg);
      }
    } else {
      var z := Head(After(c));
      BlockTest(blk[z], stride, reg);
      if y != z {
        HeadAbove(After(c), blk, stride, y);
        Farther(blk[z], blk[y], stride, reg);
      }
    }
  }

  lemma HeadAbove(s: seq<Ref>, blk: Blocks, stride: int, x: Ref)
    requires 1 <= stride && Stored(s, blk) && Ascending(s, blk, stride) && x in s && x != Head(s)
    ensures Head(s) in s && Hi(blk[Head(s)], stride) <= Lo(blk[x], stride)
  {
    var i :| 0 <= i < |s| && s[i] == x;
    assert i > 0;
  }

  lemma WindowSize(stride: int, wordSize: int)
    requires 1 <= stride && 1 <= wordSize
    ensures 0 <= stride * 28 % 0x1_0000_0000 / wordSize <= 0xffff_fffc
    ensures MaxDist(stride, wordSize) == stride * 28 % 0x1_0000_0000 / wordSize
  {
    var m := stride * 28 % 0x1_0000_0000;
    assert m <= 0xffff_fffc by {
      var k := stride * 28 / 0x1_0000_0000;
      assert m == 4 * (stride * 7 - k * 0x4000_0000);
    }
    DivMod(m, wordSize);
    var q := m / wordSize;
    if q < 0 { MulMonotone(q, -1, wordSize); }
    if q > m { MulMonotone(1, wordSize, q); }
  }

  /**
   Which block a write to a register that no block covers grows, when reg + max_dist does not wrap: of all blocks of the
   tree within max_dist of the register the nearest, and of two as near the one that the search meets first; none if and
   only if no block lies that near.
   */
  lemma PickNearest(shape: Tree, c: Ctx, blk: Blocks, stride: int, wordSize: int, reg: int, contents: map<int, int>)
    requires CacheOk(InOrder(shape), blk, stride, contents) && Distinct(shape)
    requires Hole(shape, c, blk, stride, reg / stride)
    requires 1 <= wordSize && 0 <= reg && reg % stride == 0
    requires reg + stride * 28 % 0x1_0000_0000 / wordSize < 0x1_0000_0000
    ensures var x, d := Pick(c, blk, stride, reg, Near(reg, stride, wordSize)).node,
                        stride * 28 % 0x1_0000_0000 / wordSize;
      if x == NIL then forall y :: y in InOrder(shape) && y in blk ==> !Within(blk[y], stride, reg, d)
      else
        && x in InOrder(shape) && x in blk && Within(blk[x], stride, reg, d) && FirstNearest(c, blk, stride, reg, d, x)
        && forall y :: y in InOrder(shape) && y in blk && Within(blk[y], stride, reg, d) ==>
             Gap(blk[x], stride, reg) <= Gap(blk[y], stride, reg)
  {
    hide Within, Gap, Distinct, CacheOk, FirstNearest, Pick, InOrder, AllBelow, AllAbove, Stored, Frames;
    var d := stride * 28 % 0x1_0000_0000 / wordSize;
    WindowSize(stride, wordSize);
    assert Near(reg, stride, wordSize) == Range(if reg < d then 0 else reg - d, reg + d);
    NearestBlock(shape, c, blk, stride, reg, d, contents);
  }

  /** The same for any window. */
  lemma NearestBlock(shape: Tree, c: Ctx, blk: Blocks, stride: int, reg: int, d: int, contents: map<int, int>)
    requires 1 <= stride && 0 <= reg && reg % stride == 0 && 0 <= d < LIMIT - 1
    requires CacheOk(InOrder(shape), blk, stride, contents) && Distinct(shape)
    requires Hole(shape, c, blk, stride, reg / stride)
    ensures var x := Pick(c, blk, stride, reg, Range(if reg < d then 0 else reg - d, reg + d)).node;
      if x == NIL then forall y :: y in InOrder(shape) && y in blk ==> !Within(blk[y], stride, reg, d)
      else
        && x in InOrder(shape) && x in blk && Within(blk[x], stride, reg, d) && FirstNearest(c, blk, stride, reg, d, x)
        && forall y :: y in InOrder(shape) && y in blk && Within(blk[y], stride, reg, d) ==>
             Gap(blk[x], stride, reg) <= Gap(blk[y], stride, reg)
  {
    hide Within, Gap, Passes, Distance, Before, After, InOrder, Plug, CacheOk, Ascending, Pick, Frames, Distinct;
    hide SortedSides, FirstNearest, FirstBelow, BlockOk, PathOk, OnPath;
    var near := Range(if reg < d then 0 else reg - d, reg + d);
    var p := Pick(c, blk, stride, reg, near);
    HoleSides(shape, c, blk, stride, reg / stride, contents);
    SortedPath(c, blk, stride, reg / stride);
    PickOnPath(c, blk, stride, reg, d);
    PickSides(c, blk, stride, reg, near);
    InOrderLeaf(c);
    assert InOrder(shape) == Before(c) + After(c);
    forall y | y in InOrder(shape) && y in blk && Within(blk[y], stride, reg, d)
      ensures p.dist <= Gap(blk[y], stride, reg) <= d
    {
      NearerNeighbour(c, blk, stride, reg, d, y);
      var z := if y in Before(c) then Last(Before(c)) else Head(After(c));
      OnPathGap(c, blk, stride, reg, d, p.dist - 1, z);
      GapWithin(blk[y], stride, reg, d);
    }
    if p.node == Head(After(c)) && p.node != NIL { assert p.node in After(c) by { HeadIn(After(c)); } }
  }

  lemma HeadIn(s: seq<Ref>)
    requires Head(s) != NIL
    ensures Head(s) in s
  {
  }

  lemma GapWithin(b: Block, stride: int, reg: int, d: int)
    requires Within(b, stride, reg, d) && 0 <= d
    ensures Gap(b, stride, reg) <= d
  {
  }

  /** The picked block is one of the tree, and does not cover the register. */
  lemma PickedBlock(shape: Tree, c: Ctx, blk: Blocks, stride: int, wordSize: int, reg: int, contents: map<int, int>)
    requires CacheOk(InOrder(shape), blk, stride, contents) && Distinct(shape)
    requires Hole(shape, c, blk, stride, reg / stride)
    requires 1 <= wordSize && 0 <= reg && reg % stride == 0
    ensures var x := Pick(c, blk, stride, reg, Near(reg, stride, wordSize)).node;
      x != NIL ==> x in InOrder(shape) && x in blk && BlockOk(blk[x], stride) && !Covers(blk[x], stride, reg / stride)
  {
    var near := Near(reg, stride, wordSize);
    NearMin(reg, stride, wordSize);
    HoleSides(shape, c, blk, stride, reg / stride, contents);
    PickSides(c, blk, stride, reg, near);
    InOrderLeaf(c);
    hide Pick, Near, Before, After, InOrder, Plug, Represents, Ascending, BlockOk;
    var x := Pick(c, blk, stride, reg, near).node;
    assert x != NIL ==> x in Before(c) || x in After(c);
  }

  /** A safe candidate is the block just below or just above the register. */
  lemma SafeNeighbour(shape: Tree, c: Ctx, blk: Blocks, stride: int, wordSize: int, reg: int, contents: map<int, int>)
    requires CacheOk(InOrder(shape), blk, stride, contents) && Distinct(shape)
    requires Hole(shape, c, blk, stride, reg / stride)
    requires c == SearchPath(Top, shape, blk, stride, reg)
    requires 1 <= wordSize && 0 <= reg && reg % stride == 0 && GrowthSafe(shape, blk, stride, wordSize, reg)
    ensures Neighbour(c, Pick(c, blk, stride, reg, Near(reg, stride, wordSize)).node)
  {
    var near := Near(reg, stride, wordSize);
    assert SafeAt(c, blk, stride, reg, near);
    NearMin(reg, stride, wordSize);
    HoleSides(shape, c, blk, stride, reg / stride, contents);
    PickSides(c, blk, stride, reg, near);
    PickPasses(c, blk, stride, reg, near);
    var x := Pick(c, blk, stride, reg, near).node;
    hide Pick, Before, After, InOrder, Plug, CacheOk, Near, SortedSides, SearchPath;
    if x != NIL { SidePick(c, blk, stride, reg, near, x); }
  }

  /** Growing a safe candidate adds one entry to the map. */
  lemma GrownSafely(shape: Tree, c: Ctx, blk: Blocks, stride: int, contents: map<int, int>, x: Ref, u: int, value: int,
                    b': Block)
    requires CacheOk(InOrder(shape), blk, stride, contents) && Distinct(shape) && Hole(shape, c, blk, stride, u)
    requires x != NIL && Neighbour(c, x) && x in blk && BlockOk(blk[x], stride) && Grown(blk[x], b', stride, u, value)
    ensures x in InOrder(shape) && CacheOk(InOrder(shape), blk[x := b'], stride, contents[u := value])
  {
    hide CacheOk, Distinct, Plug, Before, After, BlockOk, Holds, ValueAt, Covers;
    GrowNeighbour(shape, c, blk, stride, contents, x, u, value, b');
  }

  /** An unsafe candidate overlaps another block once it is grown. */
  lemma UnsafeOverlaps(shape: Tree, c: Ctx, blk: Blocks, stride: int, wordSize: int, reg: int, contents: map<int, int>)
    requires CacheOk(InOrder(shape), blk, stride, contents) && Distinct(shape)
    requires Hole(shape, c, blk, stride, reg / stride)
    requires c == SearchPath(Top, shape, blk, stride, reg)
    requires 1 <= wordSize && 0 <= reg && reg % stride == 0 && !GrowthSafe(shape, blk, stride, wordSize, reg)
    ensures GrowthOverlaps(shape, blk, stride, wordSize, reg)
  {
    var near := Near(reg, stride, wordSize);
    var x := Pick(c, blk, stride, reg, near).node;
    assert !SafeAt(c, blk, stride, reg, near);
    NearMin(reg, stride, wordSize);
    HoleSides(shape, c, blk, stride, reg / stride, contents);
    PickedBlock(shape, c, blk, stride, wordSize, reg, contents);
    BlockTest(blk[x], stride, reg);
    StretchedRange(blk[x], stride, reg);
    hide Pick, Before, After, InOrder, Plug, CacheOk, Near, SortedSides, SearchPath, Ascending, Stored, Stretched;
    hide BlockOk;
    GrowthSafeIff(shape, c, blk, stride, contents, reg, near, Stretched(blk[x], stride, reg));
  }

  lemma StretchedRange(b: Block, stride: int, reg: int)
    requires BlockOk(b, stride) && 0 <= reg && reg % stride == 0
    ensures var b', u := Stretched(b, stride, reg), reg / stride;
      if u < Lo(b, stride) then Lo(b', stride) == u && Hi(b', stride) == Hi(b, stride)
      else Lo(b', stride) == Lo(b, stride) && Hi(b', stride) == u + 1
  {
    BlockTest(b, stride, reg);
  }

  lemma HoleSides(shape: Tree, c: Ctx, blk: Blocks, stride: int, u: int, contents: map<int, int>)
    requires CacheOk(InOrder(shape), blk, stride, contents) && Distinct(shape) && Hole(shape, c, blk, stride, u)
    ensures SortedSides(c, blk, stride, u)
  {
    InOrderLeaf(c);
    var b, a := Before(c), After(c);
    var s := InOrder(shape);
    SidesAscending(b, a, blk, stride);
    hide InOrder, Before, After, Plug, Represents, Ascending, BlockOk;
    forall x | x in b || x in a ensures x != NIL && BlockOk(blk[x], stride) {
      assert x in s;
      InOrderIds(shape, x);
      NilNotIn(shape);
    }
  }

  /**
   Growing the picked block keeps the blocks disjoint exactly when it is not a block below the
   register while the block just below fails the test base_reg <= max of regcache-rbtree.c:426.
   */
  lemma GrowthSafeIff(shape: Tree, c: Ctx, blk: Blocks, stride: int, contents: map<int, int>, reg: int, near: Range,
                      b': Block)
    requires CacheOk(InOrder(shape), blk, stride, contents) && Distinct(shape) && Plug(c, Leaf) == shape
    requires Frames(c, blk) && 0 <= reg && reg % stride == 0 && near.min <= reg
    requires SortedSides(c, blk, stride, reg / stride)
    requires var x := Pick(c, blk, stride, reg, near).node; x != NIL && x in blk
    requires var x, u := Pick(c, blk, stride, reg, near).node, reg / stride;
      if u < Lo(blk[x], stride) then Lo(b', stride) == u && Hi(b', stride) == Hi(blk[x], stride)
      else Lo(b', stride) == Lo(blk[x], stride) && Hi(b', stride) == u + 1
    ensures var x := Pick(c, blk, stride, reg, near).node;
      && Stored(InOrder(shape), blk[x := b'])
      && (Ascending(InOrder(shape), blk[x := b'], stride) <==>
             !(x in Before(c) && blk[Last(Before(c))].base > near.max))
  {
    var x, u := Pick(c, blk, stride, reg, near).node, reg / stride;
    PickSides(c, blk, stride, reg, near);
    PickPasses(c, blk, stride, reg, near);
    SidePick(c, blk, stride, reg, near, x);
    hide InOrder, Before, After, Represents, Pick, Ascending, TopReg, SortedSides, BlockOk, Passes, Plug, Distinct;
    hide Stored;
    SideGrowth(shape, c, blk, stride, contents, u, x, b');
  }

  /** Growing a block beside the register keeps the order exactly when no block lies in between. */
  lemma SideGrowth(shape: Tree, c: Ctx, blk: Blocks, stride: int, contents: map<int, int>, u: int, x: Ref, b': Block)
    requires CacheOk(InOrder(shape), blk, stride, contents) && Distinct(shape) && Plug(c, Leaf) == shape
    requires Stored(Before(c), blk) && Ascending(Before(c), blk, stride) && Stored(After(c), blk)
    requires AllBelow(Before(c), blk, stride, u) && AllAbove(After(c), blk, stride, u)
    requires x != NIL && x in blk && (x in Before(c) || x == Head(After(c)))
    requires if u < Lo(blk[x], stride) then Lo(b', stride) == u && Hi(b', stride) == Hi(blk[x], stride)
             else Lo(b', stride) == Lo(blk[x], stride) && Hi(b', stride) == u + 1
    requires x in Before(c) ==> Last(Before(c)) in blk && Lo(blk[x], stride) < Hi(blk[x], stride)
    requires x in Before(c) && x != Last(Before(c)) ==> Lo(blk[Last(Before(c))], stride) <= u
    ensures Stored(InOrder(shape), blk[x := b'])
    ensures Ascending(InOrder(shape), blk[x := b'], stride) <==> !(x in Before(c) && x != Last(Before(c)))
  {
    hide Before, After, Represents, Ascending, BlockOk, Stored, AllBelow, AllAbove, Lo, Hi, Distinct;
    if x in Before(c) && x != Last(Before(c)) {
      SidesOrder(shape, c);
      assert Hi(b', stride) > Lo(blk[Last(Before(c))], stride) by { BelowHi(Before(c), blk, stride, u, x); }
      FarGrowthOverlaps(Before(c), After(c), blk, stride, x, b');
    } else {
      NeighbourAscending(shape, c, blk, stride, contents, x, u, b');
    }
  }

  lemma SidesOrder(shape: Tree, c: Ctx)
    requires Plug(c, Leaf) == shape
    ensures InOrder(shape) == Before(c) + After(c)
  {
    InOrderPlug(c, Leaf);
  }

  lemma BelowHi(s: seq<Ref>, blk: Blocks, stride: int, u: int, x: Ref)
    requires 1 <= stride && Stored(s, blk) && AllBelow(s, blk, stride, u) && x in s
    ensures x in blk && Hi(blk[x], stride) <= u
  {
  }

  /** A picked block below the register, compared with the block just below. */
  lemma SidePick(c: Ctx, blk: Blocks, stride: int, reg: int, near: Range, x: Ref)
    requires 0 <= reg && 1 <= stride && reg % stride == 0 && SortedSides(c, blk, stride, reg / stride)
    requires x != NIL && x in blk && Passes(blk[x], stride, near) && (x in Before(c) || x == Head(After(c)))
    requires x in Before(c) && Passes(blk[Last(Before(c))], stride, near) ==> x == Last(Before(c))
    ensures Stored(Before(c), blk) && Ascending(Before(c), blk, stride) && Stored(After(c), blk)
    ensures AllBelow(Before(c), blk, stride, reg / stride) && AllAbove(After(c), blk, stride, reg / stride)
    ensures x in Before(c) ==>
              Last(Before(c)) in blk && Hi(blk[x], stride) <= reg / stride && Lo(blk[x], stride) < Hi(blk[x], stride)
    ensures x in Before(c) && x != Last(Before(c)) ==>
              blk[Last(Before(c))].base > near.max && Lo(blk[Last(Before(c))], stride) <= reg / stride
    ensures x in Before(c) && x == Last(Before(c)) ==> blk[x].base <= near.max
    ensures x !in Before(c) ==> x == Head(After(c))
  {
    if x in Before(c) {
      BlockRange(blk[x], stride);
      if x != Last(Before(c)) {
        LastBelow(Before(c), blk, stride, x);
        BlockRange(blk[Last(Before(c))], stride);
        Farther(blk[x], blk[Last(Before(c))], stride, reg);
      }
    }
  }

  lemma FarGrowthOverlaps(b: seq<Ref>, a: seq<Ref>, blk: Blocks, stride: int, x: Ref, b': Block)
    requires 1 <= stride && Stored(b, blk) && Ascending(b, blk, stride) && Stored(b + a, blk)
    requires x in b && x != Last(b) && Hi(b', stride) > Lo(blk[Last(b)], stride)
    ensures Stored(b + a, blk[x := b']) && !Ascending(b + a, blk[x := b'], stride)
  {
    hide Lo, Hi;
    var s := b + a;
    var i :| 0 <= i < |b| && b[i] == x;
    var j := |b| - 1;
    assert s[i] == x && s[j] == Last(b);
    Overlap(s, blk, blk[x := b'], stride, i, j);
  }

  lemma Overlap(s: seq<Ref>, blk: Blocks, blk': Blocks, stride: int, i: int, j: int)
    requires 1 <= stride && Stored(s, blk) && blk.Keys <= blk'.Keys && 0 <= i < j < |s|
    requires s[i] in blk' && s[j] in blk' && Hi(blk'[s[i]], stride) > Lo(blk'[s[j]], stride)
    ensures Stored(s, blk') && !Ascending(s, blk', stride)
  {
  }

  // -------------------------------------------------------------------------- dropping

  ghost predicate SameRange(b: Block, b': Block, stride: int) {
    b'.base == b.base && b'.len == b.len && b'.vals == b.vals
  }

  /** contents is contents0 without the registers in [lo, hi] that the blocks in `done` cover. */
  ghost predicate DroppedSoFar(contents0: map<int, int>, contents: map<int, int>, done: seq<Ref>, blk: Blocks,
                               stride: int, lo: int, hi: int)
    requires 1 <= stride
  {
    && (forall u :: u in contents ==> u in contents0 && contents[u] == contents0[u])
    && (forall u :: u in contents0 && u !in contents ==> lo <= u <= hi)
    && (forall x, u :: x in done && x in blk && Covers(blk[x], stride, u) && lo <= u <= hi ==> u !in contents)
  }

  lemma FirstIndex(t: Tree, m: Store, root: Ref)
    requires Focus(m, root, Top, t)
    ensures t == Leaf <==> |InOrder(t)| == 0
    ensures NIL !in InOrder(t)
  {
    NilNotIn(t);
    InOrderIds(t, NIL);
  }

  lemma NodeListed(t: Tree, x: Ref)
    requires x in InOrder(t)
    ensures x in Ids(t)
  {
    InOrderIds(t, x);
  }

  lemma BlockFacts(b: Block, stride: int)
    requires BlockOk(b, stride)
    ensures b.base % stride == 0 && 1 <= b.len
  {
  }

  /** start and end of regcache_rbtree_drop and regcache_rbtree_sync. */
  function StartIndex(b: Block, stride: int, min: int): int
    requires 1 <= stride
  {
    if min > b.base then (min - b.base) / stride else 0
  }

  function EndIndex(b: Block, stride: int, max: int): int
    requires 1 <= stride
  {
    if max < TopReg(b.base, b.len, stride) then (max - b.base) / stride + 1 else b.len
  }

  /**
   The least register index that regcache_rbtree_drop drops.  The division rounds down, so an unaligned min
   takes the register below it along, unless that one is the last of its block: then top_reg < min.
   */
  ghost function FirstDropped(s: seq<Ref>, blk: Blocks, stride: int, min: int): int
    requires 1 <= stride && Stored(s, blk)
  {
    min / stride + One(min % stride != 0 && !Across(s, blk, stride, min / stride))
  }

  /** One block covers the registers u and u + 1. */
  ghost predicate Across(s: seq<Ref>, blk: Blocks, stride: int, u: int)
    requires 1 <= stride && Stored(s, blk)
  {
    exists x :: x in s && Covers(blk[x], stride, u) && Covers(blk[x], stride, u + 1)
  }

  /** A drop from min on takes along a register below min that the cache holds. */
  ghost predicate DropsBelow(s: seq<Ref>, blk: Blocks, stride: int, min: int, contents: map<int, int>)
    requires 1 <= stride && Stored(s, blk)
  {
    min % stride != 0 && Across(s, blk, stride, min / stride) && min / stride in contents
  }

  lemma CacheFacts(s: seq<Ref>, blk: Blocks, stride: int, contents: map<int, int>)
    requires CacheOk(s, blk, stride, contents)
    ensures 1 <= stride && Stored(s, blk)
  {
  }

  lemma Rounded(min: int, stride: int)
    requires 1 <= stride && 0 <= min
    ensures var reg := min - min % stride;
      0 <= reg && reg % stride == 0 && reg / stride == min / stride
  {
    DivMod(min, stride);
    DivExact(min / stride, 0, stride);
    BelowMultiple(stride, min, 0);
  }

  lemma NotAcross(s: seq<Ref>, blk: Blocks, stride: int, u: int)
    requires 1 <= stride && Stored(s, blk) && forall x :: x in s ==> !Covers(blk[x], stride, u)
    ensures !Across(s, blk, stride, u)
  {
  }

  lemma AcrossTest(s: seq<Ref>, blk: Blocks, stride: int, min: int, contents: map<int, int>, x: Ref)
    requires CacheOk(s, blk, stride, contents) && 0 <= min && min % stride != 0
    requires x in s && Covers(blk[x], stride, min / stride)
    ensures Across(s, blk, stride, min / stride) <==> TopReg(blk[x].base, blk[x].len, stride) >= min
  {
    var u := min / stride;
    AboveTop(stride, min, blk[x].base, blk[x].len);
    if Across(s, blk, stride, u) {
      var y :| y in s && Covers(blk[y], stride, u) && Covers(blk[y], stride, u + 1);
      OneBlock(s, blk, stride, x, y, u);
    }
  }

  /** As far as block b is concerned, dropping from min on is dropping from register index first on. */
  ghost predicate DropsFrom(b: Block, stride: int, min: int, first: int)
    requires 1 <= stride
  {
    && min / stride <= first <= min / stride + One(min % stride != 0)
    && (min % stride != 0 && Covers(b, stride, min / stride) ==>
          (first == min / stride <==> Covers(b, stride, min / stride + 1)))
  }

  ghost predicate AllDropFrom(s: seq<Ref>, blk: Blocks, stride: int, min: int, first: int)
    requires 1 <= stride && Stored(s, blk)
  {
    forall x :: x in s ==> DropsFrom(blk[x], stride, min, first)
  }

  lemma FirstDroppedFits(s: seq<Ref>, blk: Blocks, stride: int, min: int, contents: map<int, int>)
    requires CacheOk(s, blk, stride, contents)
    ensures AllDropFrom(s, blk, stride, min, FirstDropped(s, blk, stride, min))
  {
    var u := min / stride;
    forall x | x in s ensures DropsFrom(blk[x], stride, min, FirstDropped(s, blk, stride, min)) {
      if min % stride != 0 && Covers(blk[x], stride, u) && Across(s, blk, stride, u) {
        var y :| y in s && Covers(blk[y], stride, u) && Covers(blk[y], stride, u + 1);
        OneBlock(s, blk, stride, x, y, u);
      }
    }
  }

  lemma DropsFromAt(s: seq<Ref>, blk: Blocks, stride: int, min: int, first: int, x: Ref)
    requires 1 <= stride && Stored(s, blk) && AllDropFrom(s, blk, stride, min, first) && x in s
    ensures DropsFrom(blk[x], stride, min, first)
  {
  }

  lemma SameDropsFrom(s: seq<Ref>, blk: Blocks, blk': Blocks, stride: int, min: int, first: int)
    requires 1 <= stride && Stored(s, blk) && AllDropFrom(s, blk, stride, min, first)
    requires blk'.Keys == blk.Keys && forall x :: x in blk' ==> SameRange(blk[x], blk'[x], stride)
    ensures Stored(s, blk') && AllDropFrom(s, blk', stride, min, first)
  {
  }

  /** What the comparisons and the indices mean in register indices. */
  lemma DropTests(b: Block, stride: int, min: int, max: int)
    requires BlockOk(b, stride) && 0 <= min <= max
    ensures b.base > max <==> Lo(b, stride) > max / stride
    ensures TopReg(b.base, b.len, stride) < min <==> Hi(b, stride) <= min / stride + One(min % stride != 0)
    ensures b.base <= max && TopReg(b.base, b.len, stride) >= min ==>
      && 0 <= StartIndex(b, stride, min) <= EndIndex(b, stride, max) <= b.len
      && Lo(b, stride) + StartIndex(b, stride, min)
         == (if min / stride > Lo(b, stride) then min / stride else Lo(b, stride))
      && Lo(b, stride) + EndIndex(b, stride, max)
         == (if max / stride < Hi(b, stride) - 1 then max / stride + 1 else Hi(b, stride))
  {
    FloorTests(stride, min, b.base, b.len);
    FloorTests(stride, max, b.base, b.len);
    AboveTop(stride, min, b.base, b.len);
    DivMonotone(min, max, stride);
    var top := TopReg(b.base, b.len, stride);
    hide TopReg;
    DropIndices(b.base, top, min, max, b.base / stride, b.len, min / stride, max / stride,
      (min - b.base) / stride, (max - b.base) / stride);
  }

  /** The same over plain numbers: l, mn and mx are the register indices of base, min and max. */
  lemma DropIndices(base: int, top: int, min: int, max: int, l: int, len: int, mn: int, mx: int, q: int, q': int)
    requires (min < base <==> mn < l) && (min <= top ==> mn <= l + len - 1) && (min >= base ==> q == mn - l)
    requires (base > max <==> l > mx) && (max < top <==> mx < l + len - 1) && (base <= max ==> q' == mx - l)
    requires min <= max && mn <= mx && 1 <= len && (min == base ==> mn == l)
    ensures base <= max && top >= min ==>
      var start := if min > base then q else 0;
      var end := if max < top then q' + 1 else len;
      && 0 <= start <= end <= len
      && l + start == (if mn > l then mn else l)
      && l + end == (if mx < l + len - 1 then mx + 1 else l + len)
  {
  }

  /** Comparing a register that need not be aligned with the ends of a block. */
  lemma FloorTests(stride: int, max: int, base: int, len: int)
    requires 1 <= stride && base % stride == 0 && 1 <= len && 0 <= max
    ensures base > max <==> base / stride > max / stride
    ensures max < TopReg(base, len, stride) <==> max / stride < base / stride + len - 1
    ensures base <= max ==> (max - base) / stride == max / stride - base / stride
  {
    var l, m := base / stride, max / stride;
    DivMod(max, stride);
    DivMod(base, stride);
    BelowMultiple(stride, max, l);
    BelowMultiple(stride, max, l + len - 1);
    assert TopReg(base, len, stride) == (l + len - 1) * stride;
    assert max - base == (m - l) * stride + max % stride;
    DivExact(m - l, max % stride, stride);
  }

  lemma AboveTop(stride: int, min: int, base: int, len: int)
    requires 1 <= stride && base % stride == 0 && 1 <= len && 0 <= min
    ensures TopReg(base, len, stride) < min <==> base / stride + len <= min / stride + One(min % stride != 0)
    ensures min == base ==> min / stride == base / stride
  {
    var top := base / stride + len - 1;
    DivMod(min, stride);
    DivMod(base, stride);
    assert TopReg(base, len, stride) == top * stride;
    BelowMultiple(stride, min, top);
    BelowMultiple(stride, min, top + 1);
    if min / stride == top { assert min == top * stride + min % stride; }
    if min / stride > top { assert (top + 1) * stride == top * stride + stride; }
  }

  lemma BelowMultiple(stride: int, x: int, q: int)
    requires 1 <= stride
    ensures x < q * stride <==> x / stride < q
  {
    DivMod(x, stride);
    if x / stride < q { MulMonotone(x / stride + 1, q, stride); } else { MulMonotone(q, x / stride, stride); }
  }

  /** The indices from start to end are the registers of the block in [lo, hi]. */
  ghost predicate Part(b: Block, stride: int, start: int, end: int, lo: int, hi: int)
    requires 1 <= stride
  {
    forall u :: Covers(b, stride, u) && lo <= u <= hi <==> Lo(b, stride) + start <= u < Lo(b, stride) + end
  }

  /** The part of a block between min and max, as regcache_rbtree_drop and regcache_rbtree_sync compute it. */
  method Overlapping(b: Block, stride: int, min: int, max: int, ghost first: int)
    returns (hit: bool, start: int, end: int)
    requires BlockOk(b, stride) && 0 <= min <= max && b.base <= max && DropsFrom(b, stride, min, first)
    ensures !hit ==> forall u :: Covers(b, stride, u) ==> !(first <= u <= max / stride)
    ensures hit ==> 0 <= start <= end <= b.len <= 32 * |b.present|
    ensures hit ==> Part(b, stride, start, end, first, max / stride)
  {
    DropTests(b, stride, min, max);
    WordsEnough(b.len);
    hide TopReg, StartIndex, EndIndex, Words;
    hit, start, end := false, 0, 0;
    if TopReg(b.base, b.len, stride) >= min {
      hit, start, end := true, StartIndex(b, stride, min), EndIndex(b, stride, max);
    }
  }

  lemma WordsEnough(n: int)
    requires 0 <= n
    ensures n <= 32 * Words(n)
  {
  }

  /** bitmap_clear on the presence bits of one block. */
  method ClearPresent(p: seq<Word>, start: int, nr: int) returns (p': seq<Word>)
    requires 0 <= start && 0 <= nr && start + nr <= 32 * |p|
    ensures |p'| == |p| && forall i :: At(p', i) <==> At(p, i) && !(start <= i < start + nr)
  {
    var a := GrowPresent(p, |p|);
    ClearRange(a, start, nr);
    p' := a[..];
  }

  ghost function MinusRange(m: map<int, int>, a: int, b: int): map<int, int> {
    map u | u in m && !(a <= u < b) :: m[u]
  }

  lemma RangeGone(m: map<int, int>, m': map<int, int>, b: Block, stride: int, hit: bool, start: int, end: int, lo: int,
                  hi: int)
    requires 1 <= stride && m' == if hit then MinusRange(m, Lo(b, stride) + start, Lo(b, stride) + end) else m
    requires !hit ==> forall u :: Covers(b, stride, u) ==> !(lo <= u <= hi)
    requires hit ==> Part(b, stride, start, end, lo, hi)
    ensures forall u :: u in m' <==> u in m && !(Covers(b, stride, u) && lo <= u <= hi)
    ensures forall u :: u in m' ==> m'[u] == m[u]
  {
    hide Lo, Hi;
    forall u ensures u in m' <==> u in m && !(Covers(b, stride, u) && lo <= u <= hi) {
      var c := Covers(b, stride, u);
    }
  }

  /** Clearing presence bits of one block drops exactly those registers from the map. */
  lemma DropOne(s: seq<Ref>, blk: Blocks, stride: int, contents: map<int, int>, x: Ref, start: int, end: int,
                b': Block, contents': map<int, int>)
    requires CacheOk(s, blk, stride, contents) && x in s && 0 <= start <= end <= blk[x].len
    requires contents' == MinusRange(contents, Lo(blk[x], stride) + start, Lo(blk[x], stride) + end)
    requires SameRange(blk[x], b', stride) && |b'.present| == |blk[x].present|
    requires forall i :: At(b'.present, i) <==> At(blk[x].present, i) && !(start <= i < end)
    ensures CacheOk(s, blk[x := b'], stride, contents')
  {
    DropShape(s, blk, stride, x, b');
    DropExists(s, blk, stride, contents, x, start, end, b', contents');
    hide At, Ascending, BlockOk, ValueAt, Covers, Holds, MinusRange, Lo, Represents;
    var blk' := blk[x := b'];
    forall y, v | y in s && Covers(blk'[y], stride, v)
      ensures v in contents' <==> Holds(blk'[y], stride, v)
      ensures Holds(blk'[y], stride, v) ==> contents'[v] == ValueAt(blk'[y], stride, v)
    {
      DropAt(s, blk, stride, contents, x, start, end, b', contents', y, v);
    }
    MakeRepresents(s, blk', stride, contents');
  }

  lemma MakeRepresents(s: seq<Ref>, blk: Blocks, stride: int, contents: map<int, int>)
    requires 1 <= stride && Stored(s, blk)
    requires forall y, v :: y in s && Covers(blk[y], stride, v) ==> (v in contents <==> Holds(blk[y], stride, v))
    requires forall y, v :: y in s && Covers(blk[y], stride, v) && Holds(blk[y], stride, v) ==>
                 contents[v] == ValueAt(blk[y], stride, v)
    requires forall v :: v in contents ==> exists y :: y in s && Covers(blk[y], stride, v)
    ensures Represents(s, blk, stride, contents)
  {
  }

  lemma DropExists(s: seq<Ref>, blk: Blocks, stride: int, contents: map<int, int>, x: Ref, start: int, end: int,
                   b': Block, contents': map<int, int>)
    requires CacheOk(s, blk, stride, contents) && x in s && SameRange(blk[x], b', stride)
    requires contents' == MinusRange(contents, Lo(blk[x], stride) + start, Lo(blk[x], stride) + end)
    ensures forall v :: v in contents' ==> exists y :: y in s && Covers(blk[x := b'][y], stride, v)
  {
    hide At, Ascending, BlockOk, ValueAt, Holds, Covers, Lo;
    forall v | v in contents' ensures exists y :: y in s && Covers(blk[x := b'][y], stride, v) {
      var y :| y in s && Covers(blk[y], stride, v);
      SameRangeCovers(blk[y], blk[x := b'][y], stride, v);
    }
  }

  lemma SameRangeCovers(b: Block, b': Block, stride: int, v: int)
    requires 1 <= stride && SameRange(b, b', stride)
    ensures Covers(b', stride, v) <==> Covers(b, stride, v)
  {
  }

  lemma DropShape(s: seq<Ref>, blk: Blocks, stride: int, x: Ref, b': Block)
    requires 1 <= stride && Stored(s, blk) && Ascending(s, blk, stride) && x in s
    requires (forall y :: y in s ==> BlockOk(blk[y], stride))
    requires SameRange(blk[x], b', stride) && |b'.present| == |blk[x].present|
    requires forall i :: At(b'.present, i) ==> At(blk[x].present, i)
    ensures BlockOk(b', stride) && Stored(s, blk[x := b']) && Ascending(s, blk[x := b'], stride)
    ensures forall y :: y in s ==> BlockOk(blk[x := b'][y], stride)
  {
    hide At;
  }

  lemma DropAt(s: seq<Ref>, blk: Blocks, stride: int, contents: map<int, int>, x: Ref, start: int, end: int, b': Block,
               contents': map<int, int>, y: Ref, v: int)
    requires CacheOk(s, blk, stride, contents) && x in s && 0 <= start <= end <= blk[x].len
    requires contents' == MinusRange(contents, Lo(blk[x], stride) + start, Lo(blk[x], stride) + end)
    requires SameRange(blk[x], b', stride) && |b'.present| == |blk[x].present|
    requires forall i :: At(b'.present, i) <==> At(blk[x].present, i) && !(start <= i < end)
    requires y in s && Covers(blk[x := b'][y], stride, v)
    ensures var b := blk[x := b'][y];
      && (v in contents' <==> Holds(b, stride, v))
      && (Holds(b, stride, v) ==> contents'[v] == ValueAt(b, stride, v))
  {
    hide At, Ascending;
    var l := Lo(blk[x], stride);
    assert Covers(blk[y], stride, v);
    if y != x && l + start <= v < l + end { OneBlock(s, blk, stride, x, y, v); }
  }

  lemma DropMore(contents0: map<int, int>, contents: map<int, int>, contents': map<int, int>, s: seq<Ref>, i: int,
                 blk: Blocks, blk': Blocks, stride: int, lo: int, hi: int)
    requires 1 <= stride && 0 <= i < |s| && blk'.Keys == blk.Keys && s[i] in blk
    requires DroppedSoFar(contents0, contents, s[..i], blk, stride, lo, hi)
    requires forall x :: x in blk ==> SameRange(blk[x], blk'[x], stride)
    requires forall u :: u in contents' ==> u in contents && contents'[u] == contents[u]
    requires forall u :: u in contents && u !in contents' ==> lo <= u <= hi
    requires forall u :: Covers(blk[s[i]], stride, u) && lo <= u <= hi ==> u !in contents'
    ensures DroppedSoFar(contents0, contents', s[..i + 1], blk', stride, lo, hi)
  {
    forall x, u | x in s[..i + 1] && x in blk' && Covers(blk'[x], stride, u) && lo <= u <= hi ensures u !in contents' {
      assert Covers(blk[x], stride, u);
      if x != s[i] { assert x in s[..i]; }
    }
  }

  lemma DropDone(contents0: map<int, int>, contents: map<int, int>, s: seq<Ref>, i: int, blk: Blocks, stride: int,
                 lo: int, hi: int)
    requires CacheOk(s, blk, stride, contents) && 0 <= i <= |s|
    requires DroppedSoFar(contents0, contents, s[..i], blk, stride, lo, hi)
    requires i < |s| ==> Lo(blk[s[i]], stride) > hi
    ensures contents == map u | u in contents0 && !(lo <= u <= hi) :: contents0[u]
  {
    forall u | u in contents ensures !(lo <= u <= hi) {
      var x :| x in s && Covers(blk[x], stride, u);
      var j :| 0 <= j < |s| && s[j] == x;
      if j < i {
        assert s[..i][j] == x;
      } else {
        BeyondLast(s, i, j, blk, stride, hi);
      }
    }
  }

  /** Every block from index i on lies above hi when block i does. */
  lemma BeyondLast(s: seq<Ref>, i: int, j: int, blk: Blocks, stride: int, hi: int)
    requires 1 <= stride && Stored(s, blk) && Ascending(s, blk, stride) && 0 <= i <= j < |s|
    requires forall x :: x in s ==> BlockOk(blk[x], stride)
    requires Lo(blk[s[i]], stride) > hi
    ensures Lo(blk[s[j]], stride) > hi
  {
    var x := s[i];
    assert x in s;
    BlockRange(blk[x], stride);
    assert i < j ==> Hi(blk[s[i]], stride) <= Lo(blk[s[j]], stride);
  }
}
