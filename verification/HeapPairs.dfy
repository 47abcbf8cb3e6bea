/** Free blocks that touch each other: what malloc, free and compact() do to their number, in every state. */
module HeapPairs {
  import opened Lists
  import opened Strides
  import opened HeapBlocks
  import opened HeapCompact

  /** The free blocks that end where another free block begins. */
  ghost function Pairs(f: FreeSpace): set<Addr> {
    set a | a in f.free && a in f.size && After(f.size, a) in f.free
  }

  /** The stretches of free memory, each of which may be cut into several blocks. */
  ghost function Stretches(f: FreeSpace): int {
    |f.free| - |Pairs(f)|
  }

  /** Free memory once `request` bytes of entry i are handed out. */
  ghost function Taken(f: FreeSpace, i: int, request: int): FreeSpace
    requires 0 <= i < |f.free| && f.free[i] in f.size
  {
    var a := f.free[i];
    var rest := a + HDR + request;
    if Splits(f.size, a, request)
    then FreeSpace(f.free[i := rest], f.size[rest := f.size[a] - (request + HDR)][a := request])
    else FreeSpace(Without(f.free, i), f.size)
  }

  /** No two free blocks end at the same address. */
  ghost predicate Apart(f: FreeSpace) {
    && Known(f.size, f.free) && Distinct(f.free) && (forall a :: a in f.free ==> 0 <= f.size[a])
    && forall a, b :: a in f.free && b in f.free && After(f.size, a) == After(f.size, b) ==> a == b
  }

  lemma SoundApart(f: FreeSpace, used: seq<Addr>, lo: int, hi: int)
    requires Sound(f.size, used, f.free, lo, hi)
    ensures Apart(f)
  {
    assert forall a :: a in f.free ==> a in Blocks(used, f.free);
  }

  ghost predicate Joins(f: FreeSpace, g: FreeSpace, p: Addr, q: Addr) {
    && Apart(f) && p in f.free && q in f.free && After(f.size, p) == q
    && g.size == f.size[p := f.size[p] + HDR + f.size[q]] && forall a :: a in g.free <==> a in f.free && a != q
  }

  /** A join of two touching blocks p and q makes one pair fewer. */
  lemma JoinPairs(f: FreeSpace, g: FreeSpace, p: Addr, q: Addr)
    requires Joins(f, g, p, q)
    ensures |Pairs(g)| == |Pairs(f)| - 1
  {
    hide Joins, Pairs;
    var gone := if q in Pairs(f) then q else p;
    JoinPair(f, g, p, q, p);
    forall a ensures a in Pairs(g) <==> a in Pairs(f) && a != gone {
      JoinPair(f, g, p, q, a);
    }
    assert Pairs(g) == Pairs(f) - {gone};
  }

  lemma JoinPair(f: FreeSpace, g: FreeSpace, p: Addr, q: Addr, a: Addr)
    requires Joins(f, g, p, q)
    ensures a in Pairs(g) <==> a in Pairs(f) && a != if q in Pairs(f) then q else p
    ensures p in Pairs(f)
  {
    hide Distinct;
    if a in f.free && a != p && a != q { assert After(f.size, a) != q; }
  }

  ghost predicate Touches(f: FreeSpace, k: int) {
    && Known(f.size, f.free) && 0 < k
    && exists i :: k <= i < |f.free| && !Aloof(f, i)
  }

  lemma JoinHeadPairs(f: FreeSpace, used: seq<Addr>, k: int, lo: int, hi: int)
    requires Sound(f.size, used, f.free, lo, hi) && 0 < k < |f.free| && After(f.size, f.free[k]) == f.free[0]
    ensures Stretches(JoinHead(f, k)) == Stretches(f) && |JoinHead(f, k).free| == |f.free| - 1
  {
    SoundApart(f, used, lo, hi);
    WithoutFirst(f.free);
    WithoutContains(f.free, 0);
    assert f.free[k] in f.free && f.free[0] in f.free;
    hide Without, Sound, Pairs;
    JoinPairs(f, JoinHead(f, k), f.free[k], f.free[0]);
  }

  lemma JoinEntryPairs(f: FreeSpace, used: seq<Addr>, k: int, lo: int, hi: int)
    requires Sound(f.size, used, f.free, lo, hi) && 0 < k < |f.free| && After(f.size, f.free[0]) == f.free[k]
    ensures Stretches(JoinEntry(f, k)) == Stretches(f) && |JoinEntry(f, k).free| == |f.free| - 1
  {
    SoundApart(f, used, lo, hi);
    WithoutContains(f.free, k);
    assert f.free[k] in f.free && f.free[0] in f.free;
    hide Sound, Pairs;
    JoinPairs(f, JoinEntry(f, k), f.free[0], f.free[k]);
  }

  /**
   compact() keeps the number of stretches whatever the list looks like, and joins at least once when
   the head touches an entry that is still to come.
   */
  lemma {:induction false} CompactStretches(f: FreeSpace, used: seq<Addr>, k: int, freed: int, lo: int, hi: int)
    requires Sound(f.size, used, f.free, lo, hi) && 0 < k
    ensures Stretches(Compact(f, k, freed)) == Stretches(f) && |Compact(f, k, freed).free| <= |f.free|
    ensures Touches(f, k) ==> |Compact(f, k, freed).free| < |f.free|
    decreases |f.free| - k
  {
    hide Tiled, Distinct, Bytes, Blocks, Stretches;
    if k < |f.free| {
      if After(f.size, f.free[k]) == f.free[0] {
        JoinHeadKeeps(f, used, k, lo, hi);
        JoinHeadPairs(f, used, k, lo, hi);
        if freed + 1 != 2 { CompactStretches(JoinHead(f, k), used, k, freed + 1, lo, hi); }
      } else if After(f.size, f.free[0]) == f.free[k] {
        JoinEntryKeeps(f, used, k, lo, hi);
        JoinEntryPairs(f, used, k, lo, hi);
        if freed + 1 != 2 { CompactStretches(JoinEntry(f, k), used, k, freed + 1, lo, hi); }
      } else {
        assert Aloof(f, k);
        CompactStretches(f, used, k + 1, freed, lo, hi);
        if Touches(f, k) {
          var i :| k <= i < |f.free| && !Aloof(f, i);
          assert Touches(f, k + 1);
        }
      }
    }
  }

  ghost predicate FreeBefore(size: Sizes, free: seq<Addr>, x: Addr) {
    exists p :: p in free && p in size && After(size, p) == x
  }

  ghost predicate FreeBehind(size: Sizes, free: seq<Addr>, x: Addr) {
    x in size && After(size, x) in free
  }

  ghost predicate BothFree(size: Sizes, free: seq<Addr>, x: Addr) {
    FreeBefore(size, free, x) && FreeBehind(size, free, x)
  }

  /** A block put in front of the free list makes a pair with each free neighbour. */
  lemma PushPairs(size: Sizes, free: seq<Addr>, x: Addr)
    requires Apart(FreeSpace([x] + free, size)) && x !in free
    ensures |Pairs(FreeSpace([x] + free, size))|
         == |Pairs(FreeSpace(free, size))| + One(FreeBefore(size, free, x)) + One(FreeBehind(size, free, x))
  {
    hide Apart, Pairs;
    var f, g := FreeSpace(free, size), FreeSpace([x] + free, size);
    var behind := if FreeBehind(size, free, x) then {x} else {};
    PushPair(size, free, x, x);
    if FreeBefore(size, free, x) {
      var p :| p in free && p in size && After(size, p) == x;
      PushPair(size, free, x, p);
      hide FreeBefore, FreeBehind;
      forall a ensures a in Pairs(g) <==> a in Pairs(f) + {p} + behind {
        PushPair(size, free, x, a);
        OneBefore(size, free, x, a, p);
      }
      assert Pairs(g) == Pairs(f) + {p} + behind;
    } else {
      forall a ensures a in Pairs(g) <==> a in Pairs(f) + behind { PushPair(size, free, x, a); }
      assert Pairs(g) == Pairs(f) + behind;
    }
  }

  lemma PushPair(size: Sizes, free: seq<Addr>, x: Addr, a: Addr)
    requires Apart(FreeSpace([x] + free, size)) && x !in free
    ensures a in Pairs(FreeSpace([x] + free, size)) <==>
              || a in Pairs(FreeSpace(free, size)) || (a == x && FreeBehind(size, free, x))
              || (a in free && a in size && After(size, a) == x)
    ensures x !in Pairs(FreeSpace(free, size))
    ensures a in size && After(size, a) == x ==> a !in Pairs(FreeSpace(free, size))
  {
    PushContains(x, free);
    assert x in [x] + free && 0 <= size[x];
  }

  lemma OneBefore(size: Sizes, free: seq<Addr>, x: Addr, a: Addr, p: Addr)
    requires Apart(FreeSpace([x] + free, size)) && p in free && p in size && After(size, p) == x
    ensures a in free && a in size && After(size, a) == x ==> a == p
  {
    PushContains(x, free);
  }

  lemma PushTouches(size: Sizes, free: seq<Addr>, x: Addr)
    requires Known(size, [x] + free)
    ensures FreeBefore(size, free, x) || FreeBehind(size, free, x) ==> Touches(FreeSpace([x] + free, size), 1)
  {
    var f := FreeSpace([x] + free, size);
    if FreeBefore(size, free, x) {
      var p :| p in free && p in size && After(size, p) == x;
      assert f.free[IndexOf(free, p) + 1] == p;
      assert !Aloof(f, IndexOf(free, p) + 1);
    } else if FreeBehind(size, free, x) {
      assert f.free[IndexOf(free, After(size, x)) + 1] == After(size, x);
      assert !Aloof(f, IndexOf(free, After(size, x)) + 1);
    }
  }

  /**
   free() of block x in any heap: it starts a new stretch, extends one or joins two, and the number of
   touching pairs grows by at most one, and only when both neighbours of x are free.
   */
  lemma FreedPairs(size: Sizes, used: seq<Addr>, free: seq<Addr>, x: Addr, lo: int, hi: int)
    requires Sound(size, used, [x] + free, lo, hi)
    ensures var f, r := FreeSpace(free, size), Compact(FreeSpace([x] + free, size), 1, 0);
      && Stretches(r) == Stretches(f) + 1 - One(FreeBefore(size, free, x)) - One(FreeBehind(size, free, x))
      && |Pairs(r)| <= |Pairs(f)| + One(BothFree(size, free, x))
  {
    var g := FreeSpace([x] + free, size);
    SoundApart(g, used, lo, hi);
    assert x !in free by {
      assert forall j :: 0 <= j < |free| ==> g.free[j + 1] == free[j] && g.free[0] == x;
    }
    PushPairs(size, free, x);
    PushTouches(size, free, x);
    CompactStretches(g, used, 1, 0, lo, hi);
  }

  /** malloc makes no new pair. */
  lemma TakenPairs(f: FreeSpace, used: seq<Addr>, i: int, request: int, lo: int, hi: int)
    requires Sound(f.size, used, f.free, lo, hi) && 0 <= i < |f.free| && f.free[i] in f.size && 0 <= request
    ensures |Pairs(Taken(f, i, request))| <= |Pairs(f)|
  {
    SoundApart(f, used, lo, hi);
    var a, g := f.free[i], Taken(f, i, request);
    assert a in f.free && a in Blocks(used, f.free);
    if Splits(f.size, a, request) {
      var rest := a + HDR + request;
      TakenRest(f, used, i, request, lo, hi);
      RestPairs(f, g, a, rest);
    } else {
      WithoutContains(f.free, i);
      assert Pairs(g) <= Pairs(f);
      Subset(Pairs(g), Pairs(f));
    }
  }

  lemma TakenRest(f: FreeSpace, used: seq<Addr>, i: int, request: int, lo: int, hi: int)
    requires Sound(f.size, used, f.free, lo, hi) && 0 <= i < |f.free| && 0 <= request
    requires f.free[i] in f.size && Splits(f.size, f.free[i], request)
    ensures RestOf(f, Taken(f, i, request), f.free[i], f.free[i] + HDR + request)
  {
    var a, bs := f.free[i], Blocks(used, f.free);
    assert a in f.free && forall b :: b in f.free ==> b in bs;
    SplitTiled(f.size, bs, a, request, lo, hi);
    ReplacedContains(f.free, i, a + HDR + request);
  }

  ghost predicate RestOf(f: FreeSpace, g: FreeSpace, a: Addr, rest: Addr) {
    && Known(f.size, f.free) && a in f.free && rest !in f.free
    && (forall b :: b in g.free <==> b == rest || (b in f.free && b != a))
    && rest in g.size && After(g.size, rest) == After(f.size, a) != rest
    && forall b :: b in f.free && b != a ==> b in g.size && g.size[b] == f.size[b] && After(f.size, b) != rest
  }

  lemma RestPairs(f: FreeSpace, g: FreeSpace, a: Addr, rest: Addr)
    requires RestOf(f, g, a, rest)
    ensures |Pairs(g)| <= |Pairs(f)|
  {
    hide Pairs, RestOf;
    forall b | b in Pairs(g) ensures if b == rest then a in Pairs(f) else b in Pairs(f) && b != a {
      RestPair(f, g, a, rest, b);
    }
    RestPair(f, g, a, rest, rest);
    if rest in Pairs(g) {
      Subset(Pairs(g), (Pairs(f) - {a}) + {rest});
    } else {
      Subset(Pairs(g), Pairs(f));
    }
  }

  lemma RestPair(f: FreeSpace, g: FreeSpace, a: Addr, rest: Addr, b: Addr)
    requires RestOf(f, g, a, rest)
    ensures rest !in Pairs(f)
    ensures b in Pairs(g) ==> if b == rest then a in Pairs(f) else b in Pairs(f) && b != a
  {
  }

  lemma {:induction false} Subset<T>(s: set<T>, t: set<T>)
    requires s <= t
    ensures |s| <= |t|
  {
    assert t == s + (t - s);
  }
}
