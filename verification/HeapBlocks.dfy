/** The blocks of the ring-0 heap of malloc.c as values: sizes by address, and the two lists. */
module HeapBlocks {
  import opened Lists

  type Addr = int

  /** sizeof(MEMBLOCK) - 4 */
  const HDR: int := 12
  const HEAP_SIZE: int := 262144
  /** HDR_SIZE + MIN_FragSize */
  const MIN_LEFTOVER: int := 16

  type Sizes = map<Addr, int>

  /** after(pmb): the first address behind the block. */
  function After(size: Sizes, a: Addr): Addr
    requires a in size
  {
    a + size[a] + HDR
  }

  ghost predicate Known(size: Sizes, l: seq<Addr>) {
    (forall a :: a in l ==> a in size) && forall i :: 0 <= i < |l| ==> l[i] in size
  }

  ghost predicate Inside(size: Sizes, a: Addr, p: int)
    requires a in size
  {
    a <= p < After(size, a)
  }

  ghost predicate Covered(size: Sizes, bs: set<Addr>, p: int)
    requires forall a :: a in bs ==> a in size
  {
    exists a :: a in bs && Inside(size, a, p)
  }

  /** The blocks in `bs` cut [lo, hi) into pieces: none sticks out, no two overlap, nothing is left over. */
  ghost predicate Tiled(size: Sizes, bs: set<Addr>, lo: int, hi: int)
    requires forall a :: a in bs ==> a in size
  {
    && (forall a :: a in bs ==> lo <= a && 0 <= size[a] && After(size, a) <= hi)
    && (forall a, b :: a in bs && b in bs && a < b ==> After(size, a) <= b)
    && (forall p :: lo <= p < hi ==> Covered(size, bs, p))
  }

  /** Bytes of the listed blocks, headers included. */
  function Bytes(size: Sizes, l: seq<Addr>): int
    requires Known(size, l)
  {
    if l == [] then 0 else HDR + size[l[0]] + Bytes(size, l[1..])
  }

  ghost function Blocks(used: seq<Addr>, free: seq<Addr>): set<Addr> {
    (set a | a in used) + (set a | a in free)
  }

  /** What every reachable state of the heap at [lo, hi) satisfies. */
  ghost predicate Sound(size: Sizes, used: seq<Addr>, free: seq<Addr>, lo: int, hi: int) {
    && Known(size, used) && Known(size, free)
    && Distinct(used) && Distinct(free) && (forall a :: a in used ==> a !in free)
    && Tiled(size, Blocks(used, free), lo, hi)
    && (forall a :: a in Blocks(used, free) ==> (a - lo) % 4 == 0)
    && Bytes(size, used) + Bytes(size, free) == hi - lo
  }

  // ------------------------------------------------------------------------ sums

  lemma WithoutFirst(l: seq<Addr>)
    requires |l| > 0
    ensures Without(l, 0) == l[1..]
  {
  }

  lemma WithoutBehind(x: Addr, l: seq<Addr>, j: int)
    requires 0 <= j < |l|
    ensures Without([x] + l, j + 1) == [x] + Without(l, j)
  {
  }

  lemma WithoutAt(l: seq<Addr>, j: int, k: int)
    requires 0 <= j < |l| && 0 <= k < |l| - 1
    ensures |Without(l, j)| == |l| - 1 && Without(l, j)[k] == l[if k < j then k else k + 1]
  {
  }

  lemma PushContains(a: Addr, l: seq<Addr>)
    ensures forall b :: b in [a] + l <==> b == a || b in l
    ensures Distinct(l) && a !in l ==> Distinct([a] + l)
  {
    assert forall i :: 0 < i < |l| + 1 ==> ([a] + l)[i] == l[i - 1] && ([a] + l)[i] in l;
  }

  lemma {:induction false} BytesSame(size: Sizes, size': Sizes, l: seq<Addr>)
    requires Known(size, l) && Known(size', l) && forall a :: a in l ==> size'[a] == size[a]
    ensures Bytes(size', l) == Bytes(size, l)
  {
    if l != [] {
      var a := l[0];
      assert a in l && size'[a] == size[a];
      BytesSame(size, size', l[1..]);
    }
  }

  lemma {:induction false} BytesWithout(size: Sizes, l: seq<Addr>, i: int)
    requires Known(size, l) && 0 <= i < |l|
    ensures Known(size, Without(l, i)) && l[i] in size
    ensures Bytes(size, l) == Bytes(size, Without(l, i)) + HDR + size[l[i]]
  {
    WithoutContains(l, i);
    assert l[i] in l;
    if i == 0 {
      assert Without(l, 0) == l[1..];
    } else {
      BytesWithout(size, l[1..], i - 1);
      assert Without(l, i) == [l[0]] + Without(l[1..], i - 1);
      assert Without(l, i)[1..] == Without(l[1..], i - 1);
    }
  }

  /** Changing the size of one listed block. */
  lemma BytesChange(size: Sizes, l: seq<Addr>, i: int, n: int)
    requires Known(size, l) && 0 <= i < |l| && Distinct(l)
    ensures l[i] in size && Known(size[l[i] := n], l) && Bytes(size[l[i] := n], l) == Bytes(size, l) + n - size[l[i]]
  {
    assert l[i] in l;
    WithoutContains(l, i);
    var size' := size[l[i] := n];
    BytesWithout(size, l, i);
    BytesWithout(size', l, i);
    BytesSame(size, size', Without(l, i));
  }

  lemma BytesPush(size: Sizes, a: Addr, l: seq<Addr>)
    requires Known(size, l) && a in size
    ensures Known(size, [a] + l) && Bytes(size, [a] + l) == HDR + size[a] + Bytes(size, l)
  {
    assert ([a] + l)[1..] == l;
  }

  // ------------------------------------------------------------------- splitting

  /** What npvAllocateBlock does to a free block that is large enough. */
  predicate Splits(size: Sizes, a: Addr, request: int)
    requires a in size
  {
    size[a] >= request + MIN_LEFTOVER
  }

  lemma SplitTiled(size: Sizes, bs: set<Addr>, a: Addr, request: int, lo: int, hi: int)
    requires (forall b :: b in bs ==> b in size) && Tiled(size, bs, lo, hi) && a in bs
    requires 0 <= request && Splits(size, a, request)
    ensures var rest := a + HDR + request;
      var size' := size[rest := size[a] - (request + HDR)][a := request];
      (forall b :: b in bs + {rest} ==> b in size') && rest !in bs && Tiled(size', bs + {rest}, lo, hi)
  {
    var rest := a + HDR + request;
    var size' := size[rest := size[a] - (request + HDR)][a := request];
    forall p | lo <= p < hi ensures Covered(size', bs + {rest}, p) {
      assert Covered(size, bs, p);
      var b :| b in bs && Inside(size, b, p);
      if b == a {
        assert Inside(size', a, p) || Inside(size', rest, p);
      } else {
        assert Inside(size', b, p);
      }
    }
  }

  lemma JoinTiled(size: Sizes, bs: set<Addr>, a: Addr, b: Addr, lo: int, hi: int)
    requires (forall c :: c in bs ==> c in size) && Tiled(size, bs, lo, hi) && a in bs && b in bs && After(size, a) == b
    ensures Tiled(size[a := size[a] + HDR + size[b]], bs - {b}, lo, hi) && a != b
  {
    var size' := size[a := size[a] + HDR + size[b]];
    forall p | lo <= p < hi ensures Covered(size', bs - {b}, p) {
      assert Covered(size, bs, p);
      var c :| c in bs && Inside(size, c, p);
      assert Inside(size', if c == b then a else c, p);
    }
  }

  // ------------------------------------------------- what each step does to a sound heap

  /** A free block handed out whole. */
  lemma TakeWhole(size: Sizes, used: seq<Addr>, free: seq<Addr>, i: int, lo: int, hi: int)
    requires Sound(size, used, free, lo, hi) && 0 <= i < |free|
    ensures Sound(size, [free[i]] + used, Without(free, i), lo, hi)
  {
    WithoutContains(free, i);
    BytesWithout(size, free, i);
    BytesPush(size, free[i], used);
    PushContains(free[i], used);
    assert free[i] in free;
    hide Distinct, Tiled, Bytes;
    assert Blocks([free[i]] + used, Without(free, i)) == Blocks(used, free);
  }

  /** A used block put at the head of the free list. */
  lemma GiveBack(size: Sizes, used: seq<Addr>, free: seq<Addr>, i: int, lo: int, hi: int)
    requires Sound(size, used, free, lo, hi) && 0 <= i < |used|
    ensures Sound(size, Without(used, i), [used[i]] + free, lo, hi)
  {
    WithoutContains(used, i);
    BytesWithout(size, used, i);
    BytesPush(size, used[i], free);
    PushContains(used[i], free);
    assert used[i] in used;
    hide Distinct, Tiled, Bytes;
    assert Blocks(Without(used, i), [used[i]] + free) == Blocks(used, free);
  }

  /** A free block of which only the front part is handed out. */
  lemma TakeFront(size: Sizes, used: seq<Addr>, free: seq<Addr>, i: int, request: int, lo: int, hi: int)
    requires Sound(size, used, free, lo, hi) && 0 <= i < |free| && 0 <= request && request % 4 == 0
    requires free[i] in size && Splits(size, free[i], request)
    ensures var a := free[i];
      var rest := a + HDR + request;
      Sound(size[rest := size[a] - (request + HDR)][a := request], [a] + used, free[i := rest], lo, hi)
  {
    hide Distinct, Tiled, Bytes;
    var a := free[i];
    var rest := a + HDR + request;
    var size' := size[rest := size[a] - (request + HDR)][a := request];
    var bs := Blocks(used, free);
    assert a in free && a in bs;
    SplitTiled(size, bs, a, request, lo, hi);
    assert rest !in used && rest !in free;
    SplitBlocks(used, free, i, rest);
    FrontBytes(size, used, free, i, request);
    assert (rest - lo) % 4 == 0;
    hide Blocks, Known;
  }

  lemma SplitBlocks(used: seq<Addr>, free: seq<Addr>, i: int, rest: Addr)
    requires 0 <= i < |free| && Distinct(used) && Distinct(free)
    requires (forall a :: a in used ==> a !in free) && rest !in used && rest !in free
    ensures Blocks([free[i]] + used, free[i := rest]) == Blocks(used, free) + {rest}
    ensures Distinct([free[i]] + used) && Distinct(free[i := rest])
    ensures forall a :: a in [free[i]] + used ==> a !in free[i := rest]
  {
    assert free[i] in free;
    ReplacedContains(free, i, rest);
    PushContains(free[i], used);
    hide Distinct;
    forall a ensures a in Blocks([free[i]] + used, free[i := rest]) <==> a in Blocks(used, free) + {rest} {}
  }

  lemma ReplacedContains(l: seq<Addr>, i: int, b: Addr)
    requires 0 <= i < |l| && Distinct(l) && b !in l
    ensures Distinct(l[i := b]) && l[i] !in l[i := b] && b in l[i := b]
    ensures forall a :: a in l[i := b] ==> a in l || a == b
    ensures forall a :: a in l && a != l[i] ==> a in l[i := b]
  {
    forall a | a in l && a != l[i] ensures a in l[i := b] {
      var j :| 0 <= j < |l| && l[j] == a;
      assert l[i := b][j] == a;
    }
    assert l[i := b][i] == b;
  }

  lemma FrontBytes(size: Sizes, used: seq<Addr>, free: seq<Addr>, i: int, request: int)
    requires Known(size, used) && Known(size, free) && Distinct(free) && 0 <= i < |free|
    requires (forall a :: a in used ==> a !in free)
    requires var rest := free[i] + HDR + request; rest !in used && rest !in free
    ensures var a := free[i];
      var rest := a + HDR + request;
      var size' := size[rest := size[a] - (request + HDR)][a := request];
      && Known(size', [a] + used) && Known(size', free[i := rest])
      && Bytes(size', [a] + used) + Bytes(size', free[i := rest]) == Bytes(size, used) + Bytes(size, free)
      && Bytes(size', free[i := rest]) == Bytes(size, free) - (request + HDR)
  {
    var a := free[i];
    var rest := a + HDR + request;
    var size' := size[rest := size[a] - (request + HDR)][a := request];
    var l := free[i := rest];
    assert a in free;
    ReplacedContains(free, i, rest);
    WithoutContains(free, i);
    assert Without(l, i) == Without(free, i);
    BytesWithout(size, free, i);
    assert Known(size', l);
    BytesWithout(size', l, i);
    BytesSame(size, size', Without(free, i));
    BytesSame(size, size', used);
    BytesPush(size', a, used);
  }

  lemma JoinBlocks(used: seq<Addr>, free: seq<Addr>, j: int)
    requires 0 <= j < |free| && Distinct(free) && forall a :: a in used ==> a !in free
    ensures Blocks(used, Without(free, j)) == Blocks(used, free) - {free[j]}
    ensures Distinct(Without(free, j)) && forall a :: a in Without(free, j) ==> a in free
  {
    assert free[j] in free;
    WithoutContains(free, j);
    hide Distinct, Without;
    forall a ensures a in Blocks(used, Without(free, j)) <==> a in Blocks(used, free) - {free[j]} {}
  }

  /** Free block j lies right behind free block i; i grows over it and j leaves the list. */
  lemma JoinSound(size: Sizes, used: seq<Addr>, free: seq<Addr>, i: int, j: int, lo: int, hi: int)
    requires Sound(size, used, free, lo, hi) && 0 <= i < |free| && 0 <= j < |free|
    requires free[i] in size && free[j] in size && After(size, free[i]) == free[j]
    ensures i != j
    ensures var size' := size[free[i] := size[free[i]] + HDR + size[free[j]]];
      && Sound(size', used, Without(free, j), lo, hi)
      && Bytes(size', Without(free, j)) == Bytes(size, free)
  {
    var a, b := free[i], free[j];
    var size' := size[a := size[a] + HDR + size[b]];
    var bs := Blocks(used, free);
    assert a in bs && b in bs;
    JoinTiled(size, bs, a, b, lo, hi);
    JoinBlocks(used, free, j);
    hide Tiled, Without, Distinct;
    assert a in free;
    BytesSame(size, size', used);
    BytesChange(size, free, i, size[a] + HDR + size[b]);
    BytesWithout(size', free, j);
  }
}
