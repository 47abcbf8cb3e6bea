/** The ring-0 heap of malloc.c: first-fit allocation over intrusive used and free lists. */
module Heap {
  import opened Lists
  import opened Strides
  import opened HeapBlocks
  import opened HeapCompact
  import opened HeapPairs

  const NULL: Addr := 0

  /** (ulSize + 3) & -4 */
  function Align4(n: int): (m: int)
    ensures m % 4 == 0 && n <= m < n + 4
  {
    (n + 3) / 4 * 4
  }

  function EntryAt(l: seq<Addr>, i: int): Addr
    requires 0 <= i
  {
    if i < |l| then l[i] else NULL
  }

  /** The pointers from `head` on run through exactly the blocks of l and end in NULL. */
  ghost predicate Chain(next: map<Addr, Addr>, head: Addr, l: seq<Addr>) {
    && head == EntryAt(l, 0)
    && forall i :: 0 <= i < |l| ==> l[i] in next && l[i] != NULL && next[l[i]] == EntryAt(l, i + 1)
  }

  lemma ChainAt(next: map<Addr, Addr>, head: Addr, l: seq<Addr>, i: int)
    requires Chain(next, head, l) && 0 <= i <= |l|
    ensures i < |l| ==> l[i] in next && l[i] != NULL && next[l[i]] == EntryAt(l, i + 1)
    ensures head == EntryAt(l, 0)
  {
  }

  lemma ChainFrame(next: map<Addr, Addr>, next': map<Addr, Addr>, head: Addr, l: seq<Addr>)
    requires Chain(next, head, l) && forall a :: a in l ==> a in next' && a in next && next'[a] == next[a]
    ensures Chain(next', head, l)
  {
    assert forall i :: 0 <= i < |l| ==> l[i] in l;
  }

  lemma ChainPush(next: map<Addr, Addr>, head: Addr, l: seq<Addr>, a: Addr)
    requires Chain(next, head, l) && a !in l && a != NULL
    ensures Chain(next[a := head], a, [a] + l)
  {
    var m := [a] + l;
    forall i | 0 <= i < |m|
      ensures m[i] in next[a := head] && m[i] != NULL && next[a := head][m[i]] == EntryAt(m, i + 1)
    {
      if i > 0 { assert m[i] == l[i - 1] && m[i] in l; }
    }
  }

  /** Entry i is unlinked by redirecting the pointer that leads to it. */
  lemma ChainDrop(next: map<Addr, Addr>, head: Addr, l: seq<Addr>, i: int)
    requires Chain(next, head, l) && Distinct(l) && 0 <= i < |l|
    ensures i == 0 ==> Chain(next, next[l[0]], l[1..])
    ensures i > 0 ==> Chain(next[l[i - 1] := next[l[i]]], head, Without(l, i))
  {
    if i > 0 {
      var next' := next[l[i - 1] := next[l[i]]];
      var w := Without(l, i);
      forall k | 0 <= k < |w| ensures w[k] in next' && w[k] != NULL && next'[w[k]] == EntryAt(w, k + 1) {
        var k' := if k < i then k else k + 1;
        assert w[k] == l[k'];
      }
    }
  }

  /** Entry i is replaced by a block not in the list. */
  lemma ChainReplace(next: map<Addr, Addr>, head: Addr, l: seq<Addr>, i: int, b: Addr)
    requires Chain(next, head, l) && Distinct(l) && 0 <= i < |l| && b !in l && b != NULL
    ensures var next' := next[b := next[l[i]]];
      && (i == 0 ==> Chain(next', b, l[0 := b]))
      && (i > 0 ==> Chain(next'[l[i - 1] := b], head, l[i := b]))
  {
    var next1 := next[b := next[l[i]]];
    var next' := if i > 0 then next1[l[i - 1] := b] else next1;
    var w := l[i := b];
    forall k | 0 <= k < |w| ensures w[k] in next' && w[k] != NULL && next'[w[k]] == EntryAt(w, k + 1) {
      assert l[k] in l;
      if k != i { assert w[k] == l[k]; }
    }
  }

  /** No free block is large enough. */
  ghost predicate NoFit(size: Sizes, free: seq<Addr>, request: int) {
    forall a :: a in free && a in size ==> size[a] < request
  }

  /** Entry i is the first that is large enough. */
  ghost predicate FirstFit(size: Sizes, free: seq<Addr>, request: int, i: int) {
    && 0 <= i < |free| && free[i] in size && size[free[i]] >= request
    && forall k :: 0 <= k < i ==> free[k] in size && size[free[k]] < request
  }

  /** uMemFree as a 32-bit count of n free bytes, less one header. */
  ghost predicate Counts(uMemFree: int, n: int) {
    0 <= uMemFree < LIMIT && (uMemFree + HDR - n) % LIMIT == 0
  }

  lemma CountsChange(u: int, n: int, d: int)
    requires Counts(u, n)
    ensures Counts((u + d) % LIMIT, n + d)
  {
    assert (u + d) - (u + d) % LIMIT == (u + d) / LIMIT * LIMIT;
    assert u + HDR - n == (u + HDR - n) / LIMIT * LIMIT;
    var q := (u + HDR - n) / LIMIT - (u + d) / LIMIT;
    assert (u + d) % LIMIT + HDR - (n + d) == q * LIMIT;
  }

  /** A block whose end is not the end of the heap has a size that is a multiple of 4. */
  lemma SizesAligned(size: Sizes, used: seq<Addr>, free: seq<Addr>, lo: int, hi: int, a: Addr)
    requires Sound(size, used, free, lo, hi) && a in Blocks(used, free)
    ensures After(size, a) != hi || (hi - lo) % 4 == 0 ==> size[a] % 4 == 0
    ensures After(size, a) != hi ==> After(size, a) in Blocks(used, free)
  {
    var bs, p := Blocks(used, free), After(size, a);
    assert (a - lo) % 4 == 0;
    if p != hi {
      assert Covered(size, bs, p);
      var b :| b in bs && Inside(size, b, p);
      assert b == p;
      assert (b - lo) % 4 == 0;
    }
  }

  /** In a heap of a multiple of 4 bytes a block that holds n bytes also holds the rounded request. */
  lemma FitsRounded(size: Sizes, used: seq<Addr>, free: seq<Addr>, lo: int, hi: int, n: int)
    requires Sound(size, used, free, lo, hi) && (hi - lo) % 4 == 0
    ensures NoFit(size, free, Align4(n)) <==> forall a :: a in free ==> a in size && size[a] < n
  {
    forall a | a in free ensures a in size && (size[a] < Align4(n) <==> size[a] < n) {
      BlockMembers(used, free);
      SizesAligned(size, used, free, lo, hi, a);
    }
  }

  lemma OneFits(size: Sizes, free: seq<Addr>, m: int, i: int)
    requires FirstFit(size, free, m, i)
    ensures 0 <= i < |free| && free[i] in free && free[i] in size && size[free[i]] >= m && !NoFit(size, free, m)
  {
    var a := free[i];
    assert a in free && a in size && !(size[a] < m);
  }

  /** Exactly what a first fit does to the free list and the sizes. */
  lemma TakenIs(size: Sizes, used: seq<Addr>, free: seq<Addr>, lo: int, hi: int, m: int, i: int)
    requires Sound(size, used, free, lo, hi) && FirstFit(size, free, m, i)
    ensures forall j :: 0 <= j < |free| && free[j] == free[i] ==> j == i
    ensures free[i] in free && lo <= free[i] && m <= size[free[i]]
    ensures forall k :: 0 <= k < i ==> free[k] in size && size[free[k]] < m
    ensures var a, t := free[i], Taken(FreeSpace(free, size), i, m);
      if size[a] < m + 16 then t.size == size && t.free == free[..i] + free[i + 1..]
      else t.size == size[a + 12 + m := size[a] - m - 12][a := m] && t.free == free[i := a + 12 + m]
  {
    BlockMembers(used, free);
  }

  // ------------------------------------------------------------- links after each step

  lemma TakeFrontLinks(next: map<Addr, Addr>, head: Addr, used: seq<Addr>, fhead: Addr, free: seq<Addr>, i: int,
                       rest: Addr)
    requires Chain(next, head, used) && Chain(next, fhead, free) && Distinct(free) && 0 <= i < |free|
    requires (forall a :: a in used ==> a !in free) && rest !in used && rest !in free && rest != NULL
    ensures var a := free[i];
      var next1 := next[rest := next[a]][a := head][rest := next[a]];
      var next' := if i > 0 then next1[free[i - 1] := rest] else next1;
      && Chain(next', a, [a] + used)
      && Chain(next', if i > 0 then fhead else rest, free[i := rest])
  {
    var a := free[i];
    var next1 := next[rest := next[a]][a := head][rest := next[a]];
    var next' := if i > 0 then next1[free[i - 1] := rest] else next1;
    assert a in free && (i > 0 ==> free[i - 1] in free);
    ChainPush(next, head, used, a);
    PushContains(a, used);
    hide Distinct;
    ChainFrame(next[a := head], next', a, [a] + used);
    ChainReplace(next, fhead, free, i, rest);
    ReplacedContains(free, i, rest);
    var next2 := if i > 0 then next[rest := next[a]][free[i - 1] := rest] else next[rest := next[a]];
    hide Chain;
    ChainFrame(next2, next', if i > 0 then fhead else rest, free[i := rest]);
  }

  lemma TakeWholeLinks(next: map<Addr, Addr>, head: Addr, used: seq<Addr>, fhead: Addr, free: seq<Addr>, i: int)
    requires Chain(next, head, used) && Chain(next, fhead, free) && Distinct(free) && 0 <= i < |free|
    requires forall a :: a in used ==> a !in free
    ensures var a := free[i];
      var next1 := next[a := head];
      var next' := if i > 0 then next1[free[i - 1] := next[a]] else next1;
      && Chain(next', a, [a] + used)
      && Chain(next', if i > 0 then fhead else next[a], Without(free, i))
  {
    var a := free[i];
    var next' := if i > 0 then next[a := head][free[i - 1] := next[a]] else next[a := head];
    assert a in free && (i > 0 ==> free[i - 1] in free);
    ChainPush(next, head, used, a);
    PushContains(a, used);
    WithoutContains(free, i);
    ChainFrame(next[a := head], next', a, [a] + used);
    ChainDrop(next, fhead, free, i);
    if i == 0 { WithoutFirst(free); }
    var next2 := if i > 0 then next[free[i - 1] := next[a]] else next;
    hide Chain;
    ChainFrame(next2, next', if i > 0 then fhead else next[a], Without(free, i));
  }

  class RingHeap {
    var acHeap: Addr
    var pmbUsed: Addr
    var pmbFree: Addr
    var uMemFree: int
    /** ulSize and pmbNext of the block headers, by block address. */
    var size: Sizes
    var next: map<Addr, Addr>
    /** The memory; storing into a header overwrites its HDR bytes. */
    var bytes: map<Addr, int>
    ghost var top: int
    ghost var used: seq<Addr>
    ghost var free: seq<Addr>

    ghost predicate Linked()
      reads this
    {
      Chain(next, pmbUsed, used) && Chain(next, pmbFree, free)
    }

    /** The lists are sound, and uMemFree is the free bytes less one header, modulo 2^32. */
    ghost predicate Valid()
      reads this
    {
      && Linked() && 0 <= acHeap <= top <= acHeap + HEAP_SIZE && Sound(size, used, free, acHeap, top)
      && (acHeap == NULL ==> used == [] && free == [])
      && (acHeap != NULL ==> Counts(uMemFree, Bytes(size, free)))
      && (forall p :: acHeap <= p < top ==> p in bytes)
    }

    constructor ()
      ensures Valid() && acHeap == NULL
    {
      acHeap, pmbUsed, pmbFree, uMemFree, size, next, bytes := NULL, NULL, NULL, 0, map[], map[], map[];
      top, used, free := 0, [], [];
      new;
      hide Sound;
      NoBlocks();
    }

    /** pmb->ulSize = n */
    method SetSize(pmb: Addr, n: int)
      modifies this`size, this`bytes
      ensures size == old(size)[pmb := n] && HeadersOnly(old(bytes), bytes, {pmb})
    {
      size := size[pmb := n];
      Scribbled(bytes, pmb);
      bytes := Scribble(bytes, pmb);
    }

    /** pmb->pmbNext = to */
    method SetNext(pmb: Addr, to: Addr)
      modifies this`next, this`bytes
      ensures next == old(next)[pmb := to] && HeadersOnly(old(bytes), bytes, {pmb})
    {
      next := next[pmb := to];
      Scribbled(bytes, pmb);
      bytes := Scribble(bytes, pmb);
    }

    /**
     HeapInit; addr and mem are the memory VMAlloc delivers, addr is NULL when it fails.  The heap is sound
     afterwards exactly when no block was in use and the size holds a header.
     */
    method HeapInit(ulSize: int, addr: Addr, mem: map<Addr, int>) returns (r: int)
      requires Valid() && 0 <= ulSize < LIMIT && 0 <= addr && forall p :: addr <= p < addr + HEAP_SIZE ==> p in mem
      requires acHeap != NULL && addr != NULL ==> addr + HEAP_SIZE <= acHeap || top <= addr
      modifies this
      ensures addr == NULL ==>
                && Valid() && r == 0 && acHeap == old(acHeap) && size == old(size) && used == old(used)
                && free == old(free) && bytes == old(bytes)
      ensures addr != NULL ==>
                && acHeap == addr && used == old(used) && free == [addr]
                && addr in size && r == uMemFree == size[addr] == (top - addr - 12) % 0x1_0000_0000
      ensures addr != NULL ==>
                if ulSize == 0 then top == addr + 256 * 1024
                else if ulSize <= 256 * 1024 then top == addr + ulSize else top == addr + 256 * 1024
      ensures addr != NULL ==> (Valid() <==> used == [] && 12 <= top - addr)
    {
      hide Sound, Bytes, Chain, Counts, Scribble;
      FirstLinks(next, pmbUsed, used, addr);
      FirstMemory(bytes, mem, addr);
      var n := ulSize;
      if n == 0 { n := HEAP_SIZE; }
      if n > HEAP_SIZE { n := HEAP_SIZE; }
      if addr == NULL {
        return 0;
      }
      SoundAgain(size, used, free, acHeap, top, addr, n);
      if HDR <= n { FirstCount(n); }
      acHeap := addr;
      pmbFree := addr;
      size := size[addr := (n - HDR) % LIMIT];
      next := next[addr := NULL];
      bytes := Scribble(bytes + mem, addr);
      uMemFree := size[addr];
      top, free := addr + n, [addr];
      return size[addr];
    }

    /** The pointer that leads to a free block, in its predecessor or in pmbFree, leads to `to` instead. */
    method RedirectFree(pmbPrev: Addr, to: Addr)
      modifies this`next, this`pmbFree, this`bytes
      ensures next == (if pmbPrev != NULL then old(next)[pmbPrev := to] else old(next))
      ensures pmbFree == (if pmbPrev != NULL then old(pmbFree) else to)
      ensures HeadersOnly(old(bytes), bytes, if pmbPrev != NULL then {pmbPrev} else {})
    {
      if pmbPrev != NULL {
        SetNext(pmbPrev, to);
      } else {
        pmbFree := to;
      }
    }

    /** The header of a new free block behind the first `request` bytes of pmb. */
    method SplitOff(pmb: Addr, request: int) returns (pmbNewFree: Addr)
      requires pmb in size && pmb in next && 0 <= request
      modifies this`size, this`next, this`bytes
      ensures pmbNewFree == pmb + HDR + request
      ensures size == old(size)[pmbNewFree := old(size[pmb]) - (request + HDR)][pmb := request]
      ensures next == old(next)[pmbNewFree := old(next[pmb])]
      ensures HeadersOnly(old(bytes), bytes, {pmb, pmbNewFree})
    {
      pmbNewFree := pmb + HDR + request;
      SetSize(pmbNewFree, size[pmb] - (request + HDR));
      SetNext(pmbNewFree, next[pmb]);
      SetSize(pmb, size[pmb] - (size[pmbNewFree] + HDR));
    }

    /** The end of npvAllocateBlock: pmb goes to the head of the used list, and its rest takes its place. */
    method Relink(pmb: Addr, pmbNewFree: Addr, pmbPrev: Addr)
      requires pmb in next
      modifies this`next, this`bytes, this`pmbUsed, this`pmbFree
      ensures var next1 := old(next)[pmb := old(pmbUsed)];
        var next2 := if pmbNewFree != NULL then next1[pmbNewFree := old(next[pmb])] else next1;
        var to := if pmbNewFree != NULL then pmbNewFree else old(next[pmb]);
        && next == (if pmbPrev != NULL then next2[pmbPrev := to] else next2)
        && pmbFree == (if pmbPrev != NULL then old(pmbFree) else to)
      ensures pmbUsed == pmb && HeadersOnly(old(bytes), bytes, StoredHeaders(pmb, pmbNewFree, pmbPrev))
    {
      hide HeadersOnly;
      ghost var hs := StoredHeaders(pmb, pmbNewFree, pmbPrev);
      var pmbOldNext := next[pmb];
      SetNext(pmb, pmbUsed);
      MoreStores(old(bytes), bytes, bytes, {pmb}, {}, hs);
      ghost var bytes1 := bytes;
      pmbUsed := pmb;
      if pmbNewFree != NULL {
        SetNext(pmbNewFree, pmbOldNext);
        MoreStores(old(bytes), bytes1, bytes, hs, {pmbNewFree}, hs);
        bytes1 := bytes;
      }
      RedirectFree(pmbPrev, if pmbNewFree != NULL then pmbNewFree else pmbOldNext);
      MoreStores(old(bytes), bytes1, bytes, hs, if pmbPrev != NULL then {pmbPrev} else {}, hs);
    }

    /** npvAllocateBlock: hand out free block i, or its front part when the rest is worth keeping. */
    method AllocateBlock(pmb: Addr, request: int, pmbPrev: Addr, ghost i: int) returns (r: Addr)
      requires Valid() && 0 <= i < |free| && pmb == free[i] && pmbPrev == (if i == 0 then NULL else free[i - 1])
      requires acHeap != NULL && 0 < request && request % 4 == 0 && size[pmb] >= request
      modifies this`size, this`next, this`bytes, this`pmbUsed, this`pmbFree, this`uMemFree, this`used, this`free
      ensures Valid() && r == pmb + HDR && used == [pmb] + old(used)
      ensures HeadersOnly(old(bytes), bytes, old(Blocks(used, free)) + Blocks(used, free))
      ensures FreeSpace(free, size) == old(Taken(FreeSpace(free, size), i, request))
      ensures forall a :: a in old(used) ==> a in old(size) && a in size && size[a] == old(size[a])
      ensures pmb in size && uMemFree == (old(uMemFree) - (size[pmb] + HDR)) % LIMIT
    {
      hide Sound, Bytes, Distinct, Chain, Counts, Without, HeadersOnly, Blocks, StoredHeaders;
      BlockFacts(size, used, free, acHeap, top, i);
      ChainAt(next, pmbFree, free, i);
      var pmbNewFree := NULL;
      ghost var used0, free0, size0, next0 := used, free, size, next;
      if size[pmb] >= request + MIN_LEFTOVER {
        SplitFacts(size, used, free, acHeap, top, i, request);
        pmbNewFree := SplitOff(pmb, request);
        TakeFront(size0, used, free, i, request, acHeap, top);
        TakeFrontLinks(next0, pmbUsed, used, pmbFree, free, i, pmbNewFree);
        free := free[i := pmbNewFree];
      } else {
        NoStores(bytes, {});
        TakeWhole(size, used, free, i, acHeap, top);
        BytesWithout(size, free, i);
        TakeWholeLinks(next, pmbUsed, used, pmbFree, free, i);
        free := Without(free, i);
      }
      CountsChange(uMemFree, Bytes(size0, free0), -(size[pmb] + HDR));
      uMemFree := (uMemFree - (size[pmb] + HDR)) % LIMIT;
      ghost var bytes1 := bytes;
      Relink(pmb, pmbNewFree, pmbPrev);
      used := [pmb] + used;
      AllocatedHeaders(used0, free0, used, free, i, pmbNewFree);
      MoreStores(old(bytes), bytes1, bytes, if pmbNewFree != NULL then {pmb, pmbNewFree} else {},
                 StoredHeaders(pmb, pmbNewFree, pmbPrev), Blocks(used0, free0) + Blocks(used, free));
      return pmb + HDR;
    }

    /** The walk of malloc along the free list to the first block that is large enough. */
    method FindFit(request: int) returns (pmb: Addr, pmbPrev: Addr, ghost k: int)
      requires Linked() && Known(size, free)
      ensures pmb == NULL ==> NoFit(size, free, request)
      ensures pmb != NULL ==>
                && FirstFit(size, free, request, k) && pmb == free[k]
                && pmbPrev == if k == 0 then NULL else free[k - 1]
    {
      hide Chain;
      pmbPrev, pmb, k := NULL, pmbFree, 0;
      ChainAt(next, pmbFree, free, 0);
      while pmb != NULL
        invariant 0 <= k <= |free| && pmb == EntryAt(free, k) && pmbPrev == (if k == 0 then NULL else free[k - 1])
        invariant forall j :: 0 <= j < k ==> free[j] in size && size[free[j]] < request
        decreases |free| - k
      {
        ChainAt(next, pmbFree, free, k);
        if size[pmb] >= request {
          return;
        }
        pmbPrev, pmb := pmb, next[pmb];
        k := k + 1;
      }
      EndOfChain(next, pmbFree, free, k);
    }

    /** malloc: NULL for a legal size exactly when no free block is large enough; otherwise the first fit. */
    method Malloc(n: int) returns (r: Addr)
      requires Valid() && 0 <= n < LIMIT
      modifies this`size, this`next, this`bytes, this`pmbUsed, this`pmbFree, this`uMemFree, this`used, this`free
      ensures Valid()
      ensures r == NULL <==> acHeap == NULL || n == 0 || n > HEAP_SIZE || old(NoFit(size, free, Align4(n)))
      ensures r == NULL ==>
                && size == old(size) && used == old(used) && free == old(free)
                && uMemFree == old(uMemFree) && bytes == old(bytes)
      ensures r != NULL ==> exists i ::
                && old(FirstFit(size, free, Align4(n), i)) && r == old(free[i]) + HDR
                && FreeSpace(free, size) == old(Taken(FreeSpace(free, size), i, Align4(n)))
      ensures |Pairs(FreeSpace(free, size))| <= old(|Pairs(FreeSpace(free, size))|)
      ensures r != NULL ==> used == [r - HDR] + old(used) && n <= size[r - HDR] < Align4(n) + MIN_LEFTOVER
      ensures acHeap != NULL && 1 <= n <= 256 * 1024 && (top - acHeap) % 4 == 0 ==>
                (r == NULL <==> forall a :: a in old(free) ==> a in old(size) && old(size)[a] < n)
      ensures r != NULL ==> r - 12 in old(free) && r - 12 in size && n <= size[r - 12] < n + 19
      ensures forall i :: r != NULL && 0 <= i < |old(free)| && old(free)[i] == r - 12 ==>
                var a, m := old(free)[i], Align4(n);
                && m <= old(size)[a] && (forall k :: 0 <= k < i ==> old(size)[old(free)[k]] < m)
                && (old(size)[a] < m + 16 ==> size == old(size) && free == old(free)[..i] + old(free)[i + 1..])
                && (old(size)[a] >= m + 16 ==>
                      && size == old(size)[a + 12 + m := old(size)[a] - m - 12][a := m]
                      && free == old(free)[i := a + 12 + m])
      ensures r != NULL ==> uMemFree == (old(uMemFree) - (size[r - 12] + 12)) % 0x1_0000_0000
      ensures forall a :: a in old(used) ==> a in old(size) && a in size && size[a] == old(size[a])
      ensures forall a :: a in old(used) ==> SamePayload(old(bytes), bytes, size, a)
    {
      hide Sound, Bytes, Distinct, Chain, Counts, HeadersOnly, SamePayload, Blocks, Pairs;
      hide NoFit, FirstFit, Taken, Align4, Without, Known;
      PayloadsKept(bytes, size, used, free, acHeap, top);
      UsedKnown(size, used, free, acHeap, top);
      if acHeap == NULL || n == 0 || n > HEAP_SIZE {
        return NULL;
      }
      if (top - acHeap) % 4 == 0 { FitsRounded(size, used, free, acHeap, top, n); }
      var request := Align4(n);
      var pmb, pmbPrev, k := FindFit(request);
      if pmb == NULL {
        return NULL;
      }
      OneFits(size, free, request, k);
      TakenPairs(FreeSpace(free, size), used, k, request, acHeap, top);
      TakenIs(size, used, free, acHeap, top, request, k);
      r := AllocateBlock(pmb, request, pmbPrev, k);
      HeadersKeep(old(bytes), bytes, old(size), old(used), old(free), size, used, free, acHeap, top);
    }

    /** h_remove: unlink entry i of the free list. */
    method HRemove(pmb: Addr, ghost i: int)
      requires Linked() && Distinct(free) && 0 <= i < |free| && pmb == free[i] && forall a :: a in used ==> a !in free
      modifies this`next, this`bytes, this`pmbFree, this`free
      ensures HeadersOnly(old(bytes), bytes, Members(old(free)))
      ensures Linked() && free == (if i == 0 then old(free[1..]) else Without(old(free), i))
      ensures pmb in old(next) && pmb in next && next[pmb] == old(next[pmb])
    {
      hide Chain, Distinct, HeadersOnly;
      NoStores(bytes, Members(free));
      ChainAt(next, pmbFree, free, i);
      ChainAt(next, pmbFree, free, 0);
      ChainDrop(next, pmbFree, free, i);
      SamePlace(free, 0, i);
      if pmb == pmbFree {
        pmbFree := next[pmbFree];
        free := free[1..];
        return;
      }
      var pmbPrev := pmbFree;
      ghost var k := 0;
      while pmbPrev != NULL
        invariant Linked() && Distinct(free) && free == old(free) && next == old(next) && pmbFree == old(pmbFree)
        invariant bytes == old(bytes) && used == old(used)
        invariant 0 <= k < i && pmbPrev == free[k] && pmbPrev != NULL
        decreases i - k
      {
        ChainAt(next, pmbFree, free, k);
        SamePlace(free, k + 1, i);
        SamePlace(free, k, i);
        if next[pmbPrev] == pmb {
          assert k == i - 1;
          assert pmbPrev in free;
          ChainFrame(next, next[pmbPrev := next[pmb]], pmbUsed, used) by { ChainMembers(next, pmbUsed, used); }
          SetNext(pmbPrev, next[pmb]);
          MoreStores(old(bytes), bytes, bytes, {pmbPrev}, {}, Members(free));
          free := Without(free, i);
          return;
        }
        pmbPrev := next[pmbPrev];
        k := k + 1;
        ChainAt(next, pmbFree, free, k);
      }
      assert false;
    }

    /** compact: the free list afterwards is Compact of the list before. */
    method CompactList()
      requires Linked() && |free| > 0 && Sound(size, used, free, acHeap, top)
      modifies this`size, this`next, this`bytes, this`pmbFree, this`free
      ensures HeadersOnly(old(bytes), bytes, Members(old(free)))
      ensures Linked() && Sound(size, used, free, acHeap, top)
      ensures old(Known(size, free)) && FreeSpace(free, size) == old(Compact(FreeSpace(free, size), 1, 0))
    {
      hide Chain, Sound, Compact, Distinct, Without, HeadersOnly;
      ghost var hs := Members(free);
      NoStores(bytes, hs);
      var sFreed := 0;
      UsedKnown(size, used, free, acHeap, top);
      ChainAt(next, pmbFree, free, 0);
      var pmb := next[pmbFree];
      ghost var k := 1;
      while pmb != NULL
        invariant Linked() && Sound(size, used, free, acHeap, top) && 1 <= k <= |free| && pmb == EntryAt(free, k)
        invariant Known(size, free)
        invariant Compact(FreeSpace(free, size), k, sFreed) == old(Compact(FreeSpace(free, size), 1, 0))
        invariant 0 <= sFreed < 2 && HeadersOnly(old(bytes), bytes, hs) && forall a :: a in free ==> a in hs
        decreases |free| - k
      {
        ghost var f := FreeSpace(free, size);
        ghost var bytes1 := bytes;
        UsedKnown(size, used, free, acHeap, top);
        ChainAt(next, pmbFree, free, 0);
        ChainAt(next, pmbFree, free, k);
        if After(size, pmb) == pmbFree {
          HeadStep(f, used, k, sFreed, acHeap, top);
          SetSize(pmb, size[pmb] + HDR + size[pmbFree]);
          MoreStores(old(bytes), bytes1, bytes, hs, {pmb}, hs);
          bytes1 := bytes;
          HRemove(pmbFree, 0);
          MoreStores(old(bytes), bytes1, bytes, hs, Members(f.free), hs);
          sFreed := sFreed + 1;
          if sFreed == 2 {
            return;
          }
          UsedKnown(size, used, free, acHeap, top);
          ChainAt(next, pmbFree, free, k - 1);
          pmb := next[pmb];
        } else if After(size, pmbFree) == pmb {
          EntryStep(f, used, k, sFreed, acHeap, top);
          SetSize(pmbFree, size[pmbFree] + HDR + size[pmb]);
          MoreStores(old(bytes), bytes1, bytes, hs, {pmbFree}, hs);
          bytes1 := bytes;
          HRemove(pmb, k);
          MoreStores(old(bytes), bytes1, bytes, hs, Members(f.free), hs);
          WithoutContains(f.free, k);
          sFreed := sFreed + 1;
          if sFreed == 2 {
            return;
          }
          UsedKnown(size, used, free, acHeap, top);
          NextAfterDrop(f.free, k);
          pmb := next[pmb];
        } else {
          Skip(f, k, k + 1, sFreed);
          pmb := next[pmb];
          k := k + 1;
        }
      }
      EndOfChain(next, pmbFree, free, k);
      AtEnd(FreeSpace(free, size), k, sFreed);
    }

    /** The walk of free to a block of the used list, and the block that leads to it. */
    method FindUsed(pmbBlock: Addr) returns (pmbPrev: Addr)
      requires Linked() && Distinct(used) && pmbBlock in used
      ensures var i := IndexOf(used, pmbBlock);
        if i == 0 then pmbPrev == NULL else pmbPrev == used[i - 1] != NULL
    {
      hide Chain, Distinct;
      ghost var i, k := IndexOf(used, pmbBlock), 0;
      var pmb := pmbUsed;
      pmbPrev := NULL;
      ChainAt(next, pmbUsed, used, 0);
      while pmb != pmbBlock
        invariant 0 <= k <= i < |used| && pmb == used[k] && pmbPrev == (if k == 0 then NULL else used[k - 1])
        decreases i - k
      {
        ChainAt(next, pmbUsed, used, k);
        SamePlace(used, k, i);
        pmbPrev, pmb := pmb, next[pmb];
        k := k + 1;
      }
      SamePlace(used, k, i);
      if i > 0 { ChainAt(next, pmbUsed, used, i - 1); }
    }

    /** free moves a block from the used list to the head of the free one. */
    method GiveBackNode(pmbBlock: Addr)
      requires Linked() && Sound(size, used, free, acHeap, top) && pmbBlock in used
      modifies this`next, this`bytes, this`pmbUsed, this`pmbFree, this`used, this`free
      ensures Linked() && Sound(size, used, free, acHeap, top)
      ensures used == Without(old(used), IndexOf(old(used), pmbBlock)) && free == [pmbBlock] + old(free)
      ensures HeadersOnly(old(bytes), bytes, old(Blocks(used, free)))
    {
      hide Chain, Sound, Distinct, Without, HeadersOnly, Blocks;
      UsedKnown(size, used, free, acHeap, top);
      ghost var i, hs := IndexOf(used, pmbBlock), Blocks(used, free);
      var pmbPrev := FindUsed(pmbBlock);
      GiveBackLinks(next, pmbUsed, used, pmbFree, free, i);
      GiveBack(size, used, free, i, acHeap, top);
      ChainAt(next, pmbUsed, used, i);
      BlockMembers(used, free);
      NoStores(bytes, hs);
      if pmbPrev != NULL {
        SetNext(pmbPrev, next[pmbBlock]);
        MoreStores(old(bytes), bytes, bytes, {pmbPrev}, {}, hs);
      } else {
        pmbUsed := next[pmbBlock];
      }
      ghost var bytes1 := bytes;
      SetNext(pmbBlock, pmbFree);
      MoreStores(old(bytes), bytes1, bytes, hs, {pmbBlock}, hs);
      pmbFree := pmbBlock;
      used, free := Without(used, i), [pmbBlock] + free;
    }

    /** free: the block leaves the used list, heads the free list and is joined with its neighbours. */
    method Free(pvBlock: Addr)
      requires Valid() && (acHeap == NULL || pvBlock == NULL || pvBlock - HDR in used)
      modifies this`size, this`next, this`bytes, this`pmbUsed, this`pmbFree, this`uMemFree, this`used, this`free
      ensures Valid()
      ensures acHeap == NULL || pvBlock == NULL ==>
                && size == old(size) && used == old(used) && free == old(free)
                && uMemFree == old(uMemFree) && bytes == old(bytes)
      ensures acHeap != NULL && pvBlock != NULL ==> used == Without(old(used), IndexOf(old(used), pvBlock - HDR))
      ensures acHeap != NULL && pvBlock != NULL ==> Known(old(size), [pvBlock - HDR] + old(free))
      ensures acHeap != NULL && pvBlock != NULL ==>
                FreeSpace(free, size) == Compact(FreeSpace([pvBlock - HDR] + old(free), old(size)), 1, 0)
      ensures forall a :: a in used ==> a in old(used) && a in old(size) && a in size && size[a] == old(size[a])
      ensures forall a :: a in used ==> SamePayload(old(bytes), bytes, size, a)
      ensures acHeap != NULL && pvBlock != NULL ==>
                uMemFree == (old(uMemFree) + old(size)[pvBlock - 12] + 12) % 0x1_0000_0000
      ensures acHeap != NULL && pvBlock != NULL && old(NoneAdjacent(FreeSpace(free, size))) ==>
                (NoneAdjacent(FreeSpace(free, size)) <==> NoneMissed(old(size), old(free), pvBlock - HDR))
      ensures |Pairs(FreeSpace(free, size))|
           <= old(|Pairs(FreeSpace(free, size))| + One(BothFree(size, free, pvBlock - HDR)))
    {
      hide Chain, Sound, Compact, Distinct, Bytes, Counts, Without, NoneAdjacent, NoneMissed, HeadersOnly, SamePayload;
      hide Pairs, One, BothFree;
      hide Blocks;
      PayloadsKept(bytes, size, used, free, acHeap, top);
      UsedKnown(size, used, free, acHeap, top);
      if acHeap == NULL || pvBlock == NULL {
        return;
      }
      var pmbBlock := pvBlock - HDR;
      ghost var i := IndexOf(used, pmbBlock);
      ghost var n := Bytes(size, free);
      CountsChange(uMemFree, n, size[pmbBlock] + HDR);
      uMemFree := (uMemFree + (size[pmbBlock] + HDR)) % LIMIT;
      BytesPush(size, pmbBlock, free);
      BlockMembers(used, free);
      ghost var hs := Blocks(used, free);
      GiveBackNode(pmbBlock);
      ghost var bytes1 := bytes;
      CompactKeeps(FreeSpace(free, size), used, 1, 0, acHeap, top);
      UsedKnown(size, used, free, acHeap, top);
      FreeLeftover(size, used, old(free), pmbBlock, acHeap, top);
      FreedPairs(size, used, old(free), pmbBlock, acHeap, top);
      PushContains(pmbBlock, old(free));
      CompactList();
      MoreStores(old(bytes), bytes1, bytes, hs, Members([pmbBlock] + old(free)), hs);
      UsedKnown(size, used, free, acHeap, top);
      WithoutContains(old(used), i);
      MoreStores(old(bytes), bytes, bytes, hs, {}, hs + Blocks(used, free));
      HeadersKeep(old(bytes), bytes, old(size), old(used), old(free), size, used, free, acHeap, top);
    }

    /** _msize */
    method Msize(pvBlock: Addr) returns (n: int)
      requires Valid() && (pvBlock == NULL || pvBlock - HDR in used)
      ensures n == (if pvBlock == NULL then 0 else size[pvBlock - HDR])
    {
      if pvBlock == NULL {
        return 0;
      }
      return size[pvBlock - HDR];
    }

    /** The end of realloc: copy what fits and give the old block back. */
    method Move(pvBlock: Addr, pv: Addr, n: int)
      requires Valid() && acHeap != NULL && pvBlock != NULL && pvBlock - HDR in used && pv - HDR in used
      requires pv != pvBlock
      requires 0 <= n <= size[pv - HDR]
      modifies this`bytes, this`size, this`next, this`pmbUsed, this`pmbFree, this`uMemFree, this`used, this`free
      ensures Valid() && used == Without(old(used), IndexOf(old(used), pvBlock - HDR))
      ensures Copies(old(bytes), bytes, pvBlock, pv, Min(n, old(size[pvBlock - HDR])))
      ensures forall a :: a in used ==> a in old(used) && size[a] == old(size[a])
      ensures forall a :: a in used && a != pv - HDR ==> SamePayload(old(bytes), bytes, size, a)
      ensures |Pairs(FreeSpace(free, size))| <= old(|Pairs(FreeSpace(free, size))|) + 1
    {
      hide Chain, Sound, Compact, Distinct, Bytes, Counts, Without, NoneAdjacent, SamePayload, Copies;
      var count := Msize(pvBlock);
      if n < count { count := n; }
      PayloadsInside(size, used, free, acHeap, top, pvBlock - HDR);
      CopySpec(bytes, size, used, free, acHeap, top, pv - HDR, pvBlock - HDR, count);
      bytes := MemCopy(bytes, pv, pvBlock, count);
      ghost var copied := bytes;
      WithoutContains(used, IndexOf(used, pvBlock - HDR));
      Free(pvBlock);
      SizesKept(old(bytes), copied, old(size), size, used, free, acHeap, top);
      PayloadsThrough(old(bytes), copied, bytes, size, used, free, acHeap, top);
      CopiesInto(old(bytes), copied, bytes, size, pvBlock, pv, count);
    }

    /**
     realloc: the new block starts with the old contents, up to the shorter of the two lengths, and
     no other live block changes.
     */
    method Realloc(pvBlock: Addr, n: int) returns (r: Addr)
      requires Valid() && 0 <= n < LIMIT && (pvBlock == NULL || (acHeap != NULL && pvBlock - HDR in used))
      modifies this
      ensures Valid() && acHeap == old(acHeap) && top == old(top)
      ensures pvBlock == NULL && r != NULL ==> used == [r - HDR] + old(used)
      ensures pvBlock != NULL && n == 0 ==> r == NULL && used == Without(old(used), IndexOf(old(used), pvBlock - HDR))
      ensures (pvBlock == NULL || n != 0) ==>
                (r == NULL <==> acHeap == NULL || n == 0 || n > HEAP_SIZE || old(NoFit(size, free, Align4(n))))
      ensures (pvBlock == NULL || n != 0) && r == NULL ==>
                size == old(size) && used == old(used) && free == old(free) && bytes == old(bytes)
      ensures acHeap != NULL && 1 <= n <= 256 * 1024 && (top - acHeap) % 4 == 0 ==>
                (r == NULL <==> forall a :: a in old(free) ==> a in old(size) && old(size)[a] < n)
      ensures r != NULL ==>
                && r - 12 in used && r - 12 !in old(used) && r - 12 in old(free) && r - 12 in size
                && n <= size[r - 12] < n + 19
      ensures pvBlock != NULL && r != NULL ==>
                used == [r - HDR] + Without(old(used), IndexOf(old(used), pvBlock - HDR))
      ensures pvBlock != NULL && r != NULL ==>
                Copies(old(bytes), bytes, pvBlock, r, Min(n, old(size[pvBlock - HDR])))
      ensures forall a :: a in used && a != r - HDR ==>
                a in old(used) && size[a] == old(size[a]) && SamePayload(old(bytes), bytes, size, a)
      ensures |Pairs(FreeSpace(free, size))| <= old(|Pairs(FreeSpace(free, size))|) + 1
    {
      hide Chain, Sound, Compact, Distinct, Bytes, Counts, Without, NoneAdjacent, SamePayload, Copies;
      hide Pairs, One, BothFree, Taken, FirstFit, NoneMissed, NoFit, Linked, Align4, IndexOf, Known, After, Blocks;
      if pvBlock == NULL {
        PayloadsKept(bytes, size, used, free, acHeap, top);
        r := Malloc(n);
        if r != NULL { NewBlock(size, old(used), r - HDR, free, acHeap, top); }
        return;
      }
      if n == 0 {
        Free(pvBlock);
        PayloadsKept(bytes, size, used, free, acHeap, top);
        return NULL;
      }
      PayloadsKept(bytes, size, used, free, acHeap, top);
      r := Malloc(n);
      if r == NULL {
        return NULL;
      }
      NewBlock(size, old(used), r - HDR, free, acHeap, top);
      WithoutSecond(r - HDR, old(used), pvBlock - HDR);
      ghost var before, size1 := bytes, size;
      Move(pvBlock, r, n);
      UsedKnown(size, used, free, acHeap, top);
      CopiesFrom(old(bytes), before, bytes, size1, pvBlock, r, Min(n, old(size[pvBlock - HDR])));
      SizesKept(old(bytes), before, size1, size, used, free, acHeap, top);
      PayloadsThrough(old(bytes), before, bytes, size, used, free, acHeap, top);
    }
  }

  ghost function Members(l: seq<Addr>): set<Addr> {
    set a | a in l
  }

  /** Memory after a store into the header at a; what its bytes are does not matter. */
  function Scribble(bytes: map<Addr, int>, a: Addr): map<Addr, int> {
    map p | p in bytes :: if a <= p < a + HDR then 0 else bytes[p]
  }

  /** The address lies in none of these headers. */
  ghost predicate NoHeader(hs: set<Addr>, p: Addr) {
    forall a :: a in hs ==> !(a <= p < a + HDR)
  }

  /** Only bytes in these headers have changed. */
  ghost predicate HeadersOnly(bytes: map<Addr, int>, bytes': map<Addr, int>, hs: set<Addr>) {
    bytes'.Keys == bytes.Keys && forall p :: p in bytes && NoHeader(hs, p) ==> bytes'[p] == bytes[p]
  }

  lemma Scribbled(bytes: map<Addr, int>, a: Addr)
    ensures HeadersOnly(bytes, Scribble(bytes, a), {a})
  {
    forall p | p in bytes && NoHeader({a}, p) ensures Scribble(bytes, a)[p] == bytes[p] {
      assert a in {a};
    }
  }

  /** The headers that the end of npvAllocateBlock stores into. */
  ghost function StoredHeaders(pmb: Addr, rest: Addr, prev: Addr): set<Addr> {
    {pmb} + (if rest != NULL then {rest} else {}) + (if prev != NULL then {prev} else {})
  }

  lemma NoStores(bytes: map<Addr, int>, hs: set<Addr>)
    ensures HeadersOnly(bytes, bytes, hs)
  {
  }

  lemma MoreStores(bytes0: map<Addr, int>, bytes1: map<Addr, int>, bytes2: map<Addr, int>, hs1: set<Addr>,
                   hs2: set<Addr>, hs: set<Addr>)
    requires HeadersOnly(bytes0, bytes1, hs1) && (bytes1 == bytes2 || HeadersOnly(bytes1, bytes2, hs2)) && hs1 <= hs
    requires hs2 <= hs
    ensures HeadersOnly(bytes0, bytes2, hs)
  {
    forall p | p in bytes0 && NoHeader(hs, p) ensures bytes2[p] == bytes0[p] {
      assert NoHeader(hs1, p) && NoHeader(hs2, p);
    }
  }

  lemma BlockMembers(used: seq<Addr>, free: seq<Addr>)
    ensures forall a :: a in Blocks(used, free) <==> a in used || a in free
  {
  }

  /** The headers that npvAllocateBlock stores into are headers of the old or of the new heap. */
  lemma AllocatedHeaders(used: seq<Addr>, free: seq<Addr>, used': seq<Addr>, free': seq<Addr>, i: int, rest: Addr)
    requires 0 <= i < |free| && used' == [free[i]] + used
    requires free' == if rest != NULL then free[i := rest] else Without(free, i)
    ensures StoredHeaders(free[i], rest, if i == 0 then NULL else free[i - 1])
         <= Blocks(used, free) + Blocks(used', free')
    ensures rest != NULL ==> {free[i], rest} <= Blocks(used, free) + Blocks(used', free')
  {
    assert free[i] in free && (i > 0 ==> free[i - 1] in free);
    assert rest != NULL ==> free'[i] == rest;
  }

  /** A header of one block of a sound heap lies outside the payload of every used block. */
  lemma HeaderOutside(size: Sizes, used: seq<Addr>, free: seq<Addr>, lo: int, hi: int, u: Addr, p: int)
    requires Sound(size, used, free, lo, hi) && u in used && u + HDR <= p < After(size, u)
    ensures NoHeader(Blocks(used, free), p)
  {
    assert u in Blocks(used, free);
    forall a | a in Blocks(used, free) ensures !(a <= p < a + HDR) {
      assert a < u ==> After(size, a) <= u;
      assert u < a ==> After(size, u) <= a;
    }
  }

  /** Stores into headers of the heap before and after a call leave the payload of every block that stays used alone. */
  lemma HeadersKeep(bytes: map<Addr, int>, bytes': map<Addr, int>, size: Sizes, used: seq<Addr>, free: seq<Addr>,
                    size': Sizes, used': seq<Addr>, free': seq<Addr>, lo: int, hi: int)
    requires Sound(size, used, free, lo, hi) && Sound(size', used', free', lo, hi)
    requires (forall p :: lo <= p < hi ==> p in bytes)
    requires HeadersOnly(bytes, bytes', Blocks(used, free) + Blocks(used', free'))
    ensures forall u :: u in used && u in used' && size'[u] == size[u] ==> SamePayload(bytes, bytes', size', u)
  {
    UsedKnown(size, used, free, lo, hi);
    UsedKnown(size', used', free', lo, hi);
    hide Sound, Blocks;
    forall u | u in used && u in used' && size'[u] == size[u] ensures SamePayload(bytes, bytes', size', u) {
      PayloadsInside(size, used, free, lo, hi, u);
      forall p | u + HDR <= p < After(size', u) ensures p in bytes && p in bytes' && bytes'[p] == bytes[p] {
        HeaderOutside(size, used, free, lo, hi, u, p);
        HeaderOutside(size', used', free', lo, hi, u, p);
        assert NoHeader(Blocks(used, free) + Blocks(used', free'), p);
      }
    }
  }

  /** memcpy(dst, src, n) */
  function MemCopy(bytes: map<Addr, int>, dst: Addr, src: Addr, n: int): map<Addr, int>
    requires 0 <= n && forall p :: src <= p < src + n ==> p in bytes
  {
    if n == 0 then bytes else MemCopy(bytes, dst, src, n - 1)[dst + n - 1 := bytes[src + n - 1]]
  }

  ghost function Min(m: int, n: int): int {
    if m < n then m else n
  }

  ghost predicate Copies(bytes: map<Addr, int>, bytes': map<Addr, int>, src: Addr, dst: Addr, n: int) {
    forall p :: dst <= p < dst + n ==> SameByte(bytes, bytes', src, dst, p)
  }

  ghost predicate SameByte(bytes: map<Addr, int>, bytes': map<Addr, int>, src: Addr, dst: Addr, p: Addr) {
    p in bytes' && p - dst + src in bytes && bytes'[p] == bytes[p - dst + src]
  }

  ghost predicate SamePayload(bytes: map<Addr, int>, bytes': map<Addr, int>, size: Sizes, a: Addr)
    requires a in size
  {
    forall p :: a + HDR <= p < After(size, a) ==> p in bytes && p in bytes' && bytes'[p] == bytes[p]
  }

  lemma {:induction false} MemCopyAt(bytes: map<Addr, int>, dst: Addr, src: Addr, n: int)
    requires 0 <= n && forall p :: src <= p < src + n ==> p in bytes
    ensures Copies(bytes, MemCopy(bytes, dst, src, n), src, dst, n)
    ensures forall p :: p in bytes ==> p in MemCopy(bytes, dst, src, n)
    ensures forall p :: p in bytes && !(dst <= p < dst + n) ==> MemCopy(bytes, dst, src, n)[p] == bytes[p]
  {
    if n > 0 {
      var less, all := MemCopy(bytes, dst, src, n - 1), MemCopy(bytes, dst, src, n);
      MemCopyAt(bytes, dst, src, n - 1);
      forall p | dst <= p < dst + n ensures SameByte(bytes, all, src, dst, p) {
        assert p < dst + n - 1 ==> SameByte(bytes, less, src, dst, p);
      }
    }
  }

  /** The bytes of a used block lie in the heap, outside every other block. */
  lemma PayloadsInside(size: Sizes, used: seq<Addr>, free: seq<Addr>, lo: int, hi: int, a: Addr)
    requires Sound(size, used, free, lo, hi) && a in used
    ensures lo <= a && 0 <= size[a] && After(size, a) <= hi
    ensures forall b :: b in used && a < b ==> After(size, a) <= b
    ensures forall b :: b in used && b < a ==> After(size, b) <= a
  {
    assert forall b :: b in used ==> b in Blocks(used, free);
  }

  lemma PayloadsKept(bytes: map<Addr, int>, size: Sizes, used: seq<Addr>, free: seq<Addr>, lo: int, hi: int)
    requires Sound(size, used, free, lo, hi) && forall p :: lo <= p < hi ==> p in bytes
    ensures forall a :: a in used ==> SamePayload(bytes, bytes, size, a)
  {
    forall a | a in used ensures SamePayload(bytes, bytes, size, a) {
      PayloadsInside(size, used, free, lo, hi, a);
    }
  }

  /** Copying from block b into block a changes no block but a. */
  lemma CopySpec(bytes: map<Addr, int>, size: Sizes, used: seq<Addr>, free: seq<Addr>, lo: int, hi: int, a: Addr,
                 b: Addr, n: int)
    requires Sound(size, used, free, lo, hi) && (forall p :: lo <= p < hi ==> p in bytes)
    requires a in used && b in used && 0 <= n <= size[a] && n <= size[b]
    ensures forall p :: b + HDR <= p < b + HDR + n ==> p in bytes
    ensures var bytes' := MemCopy(bytes, a + HDR, b + HDR, n);
      && (forall p :: lo <= p < hi ==> p in bytes') && Copies(bytes, bytes', b + HDR, a + HDR, n)
      && forall c :: c in used && c != a ==> SamePayload(bytes, bytes', size, c)
  {
    PayloadsInside(size, used, free, lo, hi, a);
    PayloadsInside(size, used, free, lo, hi, b);
    MemCopyAt(bytes, a + HDR, b + HDR, n);
    var bytes' := MemCopy(bytes, a + HDR, b + HDR, n);
    forall c | c in used && c != a ensures SamePayload(bytes, bytes', size, c) {
      PayloadsInside(size, used, free, lo, hi, c);
    }
  }

  lemma SizesKept(bytes: map<Addr, int>, bytes': map<Addr, int>, size: Sizes, size': Sizes, used: seq<Addr>,
                  free: seq<Addr>, lo: int, hi: int)
    requires Sound(size', used, free, lo, hi)
    ensures forall a :: a in used && a in size && size'[a] == size[a] && SamePayload(bytes, bytes', size, a) ==>
                SamePayload(bytes, bytes', size', a)
  {
  }

  /** Two steps that leave a payload alone leave it alone together. */
  lemma PayloadsThrough(bytes0: map<Addr, int>, bytes1: map<Addr, int>, bytes2: map<Addr, int>, size: Sizes,
                        used: seq<Addr>, free: seq<Addr>, lo: int, hi: int)
    requires Sound(size, used, free, lo, hi)
    ensures forall a :: a in used && SamePayload(bytes0, bytes1, size, a) && SamePayload(bytes1, bytes2, size, a) ==>
                SamePayload(bytes0, bytes2, size, a)
  {
  }

  lemma CopiesInto(bytes0: map<Addr, int>, bytes1: map<Addr, int>, bytes2: map<Addr, int>, size: Sizes, src: Addr,
                   dst: Addr, n: int)
    requires Copies(bytes0, bytes1, src, dst, n) && dst - HDR in size && n <= size[dst - HDR]
    requires SamePayload(bytes1, bytes2, size, dst - HDR)
    ensures Copies(bytes0, bytes2, src, dst, n)
  {
    forall p | dst <= p < dst + n ensures SameByte(bytes0, bytes2, src, dst, p) {
      assert SameByte(bytes0, bytes1, src, dst, p);
    }
  }

  lemma CopiesFrom(bytes0: map<Addr, int>, bytes1: map<Addr, int>, bytes2: map<Addr, int>, size: Sizes, src: Addr,
                   dst: Addr, n: int)
    requires Copies(bytes1, bytes2, src, dst, n) && src - HDR in size && n <= size[src - HDR]
    requires SamePayload(bytes0, bytes1, size, src - HDR)
    ensures Copies(bytes0, bytes2, src, dst, n)
  {
    forall p | dst <= p < dst + n ensures SameByte(bytes0, bytes2, src, dst, p) {
      assert SameByte(bytes1, bytes2, src, dst, p);
    }
  }

  lemma NewBlock(size: Sizes, used: seq<Addr>, a: Addr, free: seq<Addr>, lo: int, hi: int)
    requires Sound(size, [a] + used, free, lo, hi)
    ensures a !in used && a in [a] + used
  {
    var l := [a] + used;
    assert forall i :: 0 < i < |l| ==> l[i] == used[i - 1] && l[i] != l[0];
  }

  lemma WithoutSecond(b: Addr, l: seq<Addr>, a: Addr)
    requires a in l && b != a
    ensures a in [b] + l && Without([b] + l, IndexOf([b] + l, a)) == [b] + Without(l, IndexOf(l, a))
  {
    assert ([b] + l)[1..] == l;
    WithoutBehind(b, l, IndexOf(l, a));
  }

  lemma HeadStep(f: FreeSpace, used: seq<Addr>, k: int, freed: int, lo: int, hi: int)
    requires Sound(f.size, used, f.free, lo, hi) && 0 < k < |f.free| && After(f.size, f.free[k]) == f.free[0]
    ensures var g := JoinHead(f, k);
      && Sound(g.size, used, g.free, lo, hi)
      && Compact(f, k, freed) == if freed + 1 == 2 then g else Compact(g, k, freed + 1)
  {
    StepHead(f, k, freed);
    JoinHeadKeeps(f, used, k, lo, hi);
    hide Sound, Compact;
  }

  lemma EntryStep(f: FreeSpace, used: seq<Addr>, k: int, freed: int, lo: int, hi: int)
    requires Sound(f.size, used, f.free, lo, hi) && 0 < k < |f.free|
    requires After(f.size, f.free[k]) != f.free[0] && After(f.size, f.free[0]) == f.free[k]
    ensures var g := JoinEntry(f, k);
      && Sound(g.size, used, g.free, lo, hi)
      && Compact(f, k, freed) == if freed + 1 == 2 then g else Compact(g, k, freed + 1)
  {
    StepEntry(f, k, freed);
    JoinEntryKeeps(f, used, k, lo, hi);
    hide Sound, Compact;
  }

  lemma NextAfterDrop(l: seq<Addr>, k: int)
    requires 0 < k < |l|
    ensures |Without(l, k)| == |l| - 1 && EntryAt(Without(l, k), k) == EntryAt(l, k + 1)
  {
  }

  lemma AtEnd(f: FreeSpace, k: int, freed: int)
    requires Known(f.size, f.free) && 0 < k == |f.free|
    ensures Compact(f, k, freed) == f
  {
  }

  lemma GiveBackLinks(next: map<Addr, Addr>, head: Addr, used: seq<Addr>, fhead: Addr, free: seq<Addr>, i: int)
    requires Chain(next, head, used) && Chain(next, fhead, free) && Distinct(used) && 0 <= i < |used|
    requires forall a :: a in used ==> a !in free
    ensures var a := used[i];
      var next1 := if i > 0 then next[used[i - 1] := next[a]] else next;
      var next' := next1[a := fhead];
      && Chain(next', a, [a] + free)
      && Chain(next', if i > 0 then head else next[a], Without(used, i))
  {
    var a := used[i];
    var next1 := if i > 0 then next[used[i - 1] := next[a]] else next;
    assert a in used && (i > 0 ==> used[i - 1] in used);
    ChainFrame(next, next1, fhead, free) by { ChainMembers(next, fhead, free); }
    ChainPush(next1, fhead, free, a);
    WithoutContains(used, i);
    ChainDrop(next, head, used, i);
    if i == 0 { WithoutFirst(used); }
    hide Chain;
    ChainMembers(next1, if i > 0 then head else next[a], Without(used, i));
    ChainFrame(next1, next1[a := fhead], if i > 0 then head else next[a], Without(used, i));
  }

  lemma ChainMembers(next: map<Addr, Addr>, head: Addr, l: seq<Addr>)
    requires Chain(next, head, l)
    ensures forall a :: a in l ==> a in next && a != NULL
  {
  }

  lemma EndOfChain(next: map<Addr, Addr>, head: Addr, l: seq<Addr>, k: int)
    requires Chain(next, head, l) && 0 <= k <= |l| && EntryAt(l, k) == NULL
    ensures k == |l|
  {
  }

  lemma SamePlace(l: seq<Addr>, i: int, j: int)
    requires Distinct(l) && 0 <= i < |l| && 0 <= j < |l|
    ensures l[i] == l[j] <==> i == j
  {
  }

  lemma UsedKnown(size: Sizes, used: seq<Addr>, free: seq<Addr>, lo: int, hi: int)
    requires Sound(size, used, free, lo, hi)
    ensures Known(size, used) && Known(size, free) && Distinct(used) && Distinct(free)
    ensures forall a :: a in used ==> a !in free
  {
  }

  lemma BlockFacts(size: Sizes, used: seq<Addr>, free: seq<Addr>, lo: int, hi: int, i: int)
    requires Sound(size, used, free, lo, hi) && 0 <= i < |free|
    ensures free[i] in size && 0 <= size[free[i]] && lo <= free[i] && Distinct(free) && free[i] !in used
    ensures i > 0 ==> lo <= free[i - 1] && free[i - 1] in size
    ensures Known(size, free) && Known(size, used) && forall a :: a in used ==> a !in free
  {
    var a := free[i];
    assert a in free && a in Blocks(used, free);
    if i > 0 {
      var b := free[i - 1];
      assert b in free && b in Blocks(used, free);
    }
  }

  lemma SplitFacts(size: Sizes, used: seq<Addr>, free: seq<Addr>, lo: int, hi: int, i: int, request: int)
    requires Sound(size, used, free, lo, hi) && 0 <= i < |free| && free[i] in size && Splits(size, free[i], request)
    requires 0 <= request
    ensures var rest := free[i] + HDR + request;
      && rest !in used && rest !in free && rest > lo
      && var size' := size[rest := size[free[i]] - (request + HDR)][free[i] := request];
        Known(size', free[i := rest]) && Bytes(size', free[i := rest]) == Bytes(size, free) - (request + HDR)
  {
    var a := free[i];
    var rest := a + HDR + request;
    assert a in free && a in Blocks(used, free);
    SplitTiled(size, Blocks(used, free), a, request, lo, hi);
    FrontBytes(size, used, free, i, request);
  }

  lemma NoBlocks()
    ensures Sound(map[], [], [], 0, 0)
  {
  }

  /** A new heap at addr beside the blocks that were in use in the old one. */
  lemma SoundAgain(size: Sizes, used: seq<Addr>, free: seq<Addr>, lo: int, hi: int, addr: Addr, n: int)
    requires Sound(size, used, free, lo, hi) && 0 < n <= HEAP_SIZE
    requires used != [] ==> addr + HEAP_SIZE <= lo || hi <= addr
    ensures var size' := size[addr := (n - HDR) % LIMIT];
      && (used == [] && HDR <= n ==> Sound(size', used, [addr], addr, addr + n) && Bytes(size', [addr]) == n)
      && (Sound(size', used, [addr], addr, addr + n) ==> used == [] && HDR <= n)
  {
    hide Sound, Bytes;
    var size' := size[addr := (n - HDR) % LIMIT];
    if used == [] && HDR <= n { OneBlock(size', addr, n); }
    if Sound(size', used, [addr], addr, addr + n) {
      SoundBounds(size', used, [addr], addr, addr + n, addr);
      if used != [] {
        var a := used[0];
        SoundBounds(size, used, free, lo, hi, a);
        SoundBounds(size', used, [addr], addr, addr + n, a);
      }
    }
  }

  lemma FirstLinks(next: map<Addr, Addr>, head: Addr, used: seq<Addr>, addr: Addr)
    requires Chain(next, head, used)
    ensures addr != NULL ==> Chain(next[addr := NULL], addr, [addr])
    ensures used == [] ==> Chain(next[addr := NULL], head, used)
  {
  }

  lemma FirstMemory(bytes: map<Addr, int>, mem: map<Addr, int>, addr: Addr)
    requires forall p :: addr <= p < addr + HEAP_SIZE ==> p in mem
    ensures forall p :: addr <= p < addr + HEAP_SIZE ==> p in Scribble(bytes + mem, addr)
  {
  }

  lemma FirstCount(n: int)
    requires HDR <= n <= HEAP_SIZE
    ensures Counts((n - HDR) % LIMIT, n)
  {
  }

  lemma SoundBounds(size: Sizes, used: seq<Addr>, free: seq<Addr>, lo: int, hi: int, a: Addr)
    requires Sound(size, used, free, lo, hi) && (a in used || a in free)
    ensures a in size && lo <= a && a + HDR <= After(size, a) <= hi
  {
    assert a in Blocks(used, free);
  }

  lemma OneBlock(size: Sizes, a: Addr, n: int)
    requires HDR <= n && a in size && size[a] == n - HDR
    ensures Sound(size, [], [a], a, a + n) && Bytes(size, [a]) == n
  {
    forall p | a <= p < a + n ensures Covered(size, {a}, p) {
      assert Inside(size, a, p);
    }
    assert Blocks([], [a]) == {a};
    assert Bytes(size, [a][1..]) == 0;
  }
}
