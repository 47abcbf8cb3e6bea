/** compact() of malloc.c: what joining neighbours of the list head does, and what it leaves behind. */
module HeapCompact {
  import opened Lists
  import opened HeapBlocks

  datatype FreeSpace = FreeSpace(free: seq<Addr>, size: Sizes)

  /** List entry k ends where the head begins: the head is merged into it and leaves the list. */
  function JoinHead(f: FreeSpace, k: int): FreeSpace
    requires 0 < k < |f.free| && f.free[k] in f.size && f.free[0] in f.size
  {
    FreeSpace(f.free[1..], f.size[f.free[k] := f.size[f.free[k]] + HDR + f.size[f.free[0]]])
  }

  /** The head ends where list entry k begins: the entry is merged into the head. */
  function JoinEntry(f: FreeSpace, k: int): FreeSpace
    requires 0 < k < |f.free| && f.free[k] in f.size && f.free[0] in f.size
  {
    FreeSpace(Without(f.free, k), f.size[f.free[0] := f.size[f.free[0]] + HDR + f.size[f.free[k]]])
  }

  /** The loop of compact() from list index k on, after `freed` joins; it stops after the second. */
  function Compact(f: FreeSpace, k: int, freed: int): (r: FreeSpace)
    requires Known(f.size, f.free) && 0 < k
    decreases |f.free| - k
  {
    if k >= |f.free| then f
    else if After(f.size, f.free[k]) == f.free[0] then
      if freed + 1 == 2 then JoinHead(f, k) else Compact(JoinHead(f, k), k, freed + 1)
    else if After(f.size, f.free[0]) == f.free[k] then
      WithoutContains(f.free, k);
      if freed + 1 == 2 then JoinEntry(f, k) else Compact(JoinEntry(f, k), k, freed + 1)
    else Compact(f, k + 1, freed)
  }

  /** r is a sound heap again, with the same used blocks and as many free bytes as f. */
  ghost predicate Keeps(f: FreeSpace, r: FreeSpace, used: seq<Addr>, lo: int, hi: int)
    requires Known(f.size, f.free) && Known(f.size, used)
  {
    && Sound(r.size, used, r.free, lo, hi) && Bytes(r.size, r.free) == Bytes(f.size, f.free)
    && (forall a :: a in used ==> r.size[a] == f.size[a])
    && (forall a :: a in r.free ==> a in f.free && r.size[a] >= f.size[a])
  }

  lemma JoinHeadKeeps(f: FreeSpace, used: seq<Addr>, k: int, lo: int, hi: int)
    requires Sound(f.size, used, f.free, lo, hi) && 0 < k < |f.free| && After(f.size, f.free[k]) == f.free[0]
    ensures Keeps(f, JoinHead(f, k), used, lo, hi)
  {
    hide Without, Tiled, Distinct, Blocks, Bytes;
    JoinSound(f.size, used, f.free, k, 0, lo, hi);
    WithoutFirst(f.free);
    SizesGrow(f, used, k, 0, lo, hi);
    hide Tiled, Distinct, Blocks, Bytes, Without, Sound, Known;
  }

  lemma JoinEntryKeeps(f: FreeSpace, used: seq<Addr>, k: int, lo: int, hi: int)
    requires Sound(f.size, used, f.free, lo, hi) && 0 < k < |f.free| && After(f.size, f.free[0]) == f.free[k]
    ensures Keeps(f, JoinEntry(f, k), used, lo, hi)
  {
    hide Tiled, Distinct, Blocks, Bytes;
    JoinSound(f.size, used, f.free, 0, k, lo, hi);
    WithoutContains(f.free, k);
    SizesGrow(f, used, 0, k, lo, hi);
    hide Tiled, Distinct, Blocks, Bytes, Without, Sound, Known;
  }

  lemma SizesGrow(f: FreeSpace, used: seq<Addr>, i: int, j: int, lo: int, hi: int)
    requires Sound(f.size, used, f.free, lo, hi) && 0 <= i < |f.free| && 0 <= j < |f.free|
    ensures f.free[i] !in used && 0 <= f.size[f.free[i]] && 0 <= f.size[f.free[j]]
  {
    var a, b := f.free[i], f.free[j];
    assert a in f.free && b in f.free;
    assert a in Blocks(used, f.free) && b in Blocks(used, f.free);
  }

  /** Compaction keeps the heap sound, the number of free bytes, and the used blocks. */
  lemma {:induction false} CompactKeeps(f: FreeSpace, used: seq<Addr>, k: int, freed: int, lo: int, hi: int)
    requires Sound(f.size, used, f.free, lo, hi) && 0 < k
    ensures Keeps(f, Compact(f, k, freed), used, lo, hi)
    decreases |f.free| - k
  {
    hide Tiled, Distinct, Bytes, Blocks;
    if k < |f.free| {
      if After(f.size, f.free[k]) == f.free[0] {
        JoinHeadKeeps(f, used, k, lo, hi);
        if freed + 1 != 2 { CompactKeeps(JoinHead(f, k), used, k, freed + 1, lo, hi); }
      } else if After(f.size, f.free[0]) == f.free[k] {
        JoinEntryKeeps(f, used, k, lo, hi);
        if freed + 1 != 2 { CompactKeeps(JoinEntry(f, k), used, k, freed + 1, lo, hi); }
      } else {
        CompactKeeps(f, used, k + 1, freed, lo, hi);
      }
    }
  }

  // --------------------------------------------------- which neighbours stay unjoined

  /** Some list entry ends where another begins. */
  ghost predicate Adjacent(f: FreeSpace, a: Addr, b: Addr) {
    a in f.free && b in f.free && a in f.size && After(f.size, a) == b
  }

  ghost predicate NoneAdjacent(f: FreeSpace) {
    forall a, b :: !Adjacent(f, a, b)
  }

  /** Neither neighbour of the head is list entry k. */
  ghost predicate Aloof(f: FreeSpace, k: int)
    requires Known(f.size, f.free) && 0 < k < |f.free|
  {
    After(f.size, f.free[k]) != f.free[0] && After(f.size, f.free[0]) != f.free[k]
  }

  lemma StepHead(f: FreeSpace, k: int, freed: int)
    requires Known(f.size, f.free) && 0 < k < |f.free| && After(f.size, f.free[k]) == f.free[0]
    ensures Known(JoinHead(f, k).size, JoinHead(f, k).free)
    ensures Compact(f, k, freed) == if freed + 1 == 2 then JoinHead(f, k) else Compact(JoinHead(f, k), k, freed + 1)
  {
  }

  lemma StepEntry(f: FreeSpace, k: int, freed: int)
    requires Known(f.size, f.free) && 0 < k < |f.free|
    requires After(f.size, f.free[k]) != f.free[0] && After(f.size, f.free[0]) == f.free[k]
    ensures Known(JoinEntry(f, k).size, JoinEntry(f, k).free)
    ensures Compact(f, k, freed) == if freed + 1 == 2 then JoinEntry(f, k) else Compact(JoinEntry(f, k), k, freed + 1)
  {
    WithoutContains(f.free, k);
  }

  /** The loop passes over entries that do not touch the head. */
  lemma {:induction false} Skip(f: FreeSpace, k: int, j: int, freed: int)
    requires Known(f.size, f.free) && 0 < k <= j <= |f.free| && forall i :: k <= i < j ==> Aloof(f, i)
    ensures Compact(f, k, freed) == Compact(f, j, freed)
    decreases j - k
  {
    if k < j {
      assert Aloof(f, k);
      Skip(f, k + 1, j, freed);
    }
  }

  /** Block x has just been put in front of a free list without adjacent entries. */
  ghost predicate Fresh(size: Sizes, free: seq<Addr>, x: Addr) {
    && x in size && Known(size, free) && Distinct(free) && x !in free
    && 0 <= size[x] && (forall a :: a in free ==> 0 <= size[a])
    && (forall a, b :: a in free && b in free && After(size, a) == x && After(size, b) == x ==> a == b)
    && NoneAdjacent(FreeSpace(free, size))
  }

  lemma SoundFresh(size: Sizes, used: seq<Addr>, free: seq<Addr>, x: Addr, lo: int, hi: int)
    requires Sound(size, used, [x] + free, lo, hi) && NoneAdjacent(FreeSpace(free, size))
    ensures Fresh(size, free, x)
  {
    var l := [x] + free;
    PushContains(x, free);
    assert l[0] == x && forall i :: 0 <= i < |free| ==> l[i + 1] == free[i];
    assert forall a :: a in l ==> a in Blocks(used, l);
  }

  /** Entry i of the old list ends where x begins. */
  ghost predicate Before(size: Sizes, free: seq<Addr>, x: Addr, i: int)
    requires Known(size, free)
  {
    0 <= i < |free| && After(size, free[i]) == x
  }

  /** Entry j of the old list begins where x ends. */
  ghost predicate Behind(size: Sizes, free: seq<Addr>, x: Addr, j: int)
    requires x in size
  {
    0 <= j < |free| && After(size, x) == free[j]
  }

  /** The case in which compact() misses a neighbour. */
  ghost predicate Missed(size: Sizes, free: seq<Addr>, x: Addr, i: int, j: int)
    requires x in size && Known(size, free)
  {
    0 < i < j && Before(size, free, x, i) && Behind(size, free, x, j)
  }

  ghost predicate NoneMissed(size: Sizes, free: seq<Addr>, x: Addr)
    requires x in size && Known(size, free)
  {
    forall i, j :: !Missed(size, free, x, i, j)
  }

  ghost function Compacted(size: Sizes, free: seq<Addr>, x: Addr): FreeSpace
    requires Fresh(size, free, x)
  {
    PushContains(x, free);
    Compact(FreeSpace([x] + free, size), 1, 0)
  }

  lemma NotAdjacent(size: Sizes, free: seq<Addr>, x: Addr, a: Addr, b: Addr)
    requires Fresh(size, free, x) && a in free && b in free
    ensures After(size, a) != b
  {
    assert !Adjacent(FreeSpace(free, size), a, b);
  }

  /** Up to the first neighbour of x the loop changes nothing. */
  lemma SkipFront(size: Sizes, free: seq<Addr>, x: Addr, n: int)
    requires Fresh(size, free, x) && 0 <= n <= |free|
    requires forall i :: 0 <= i < n ==> !Before(size, free, x, i) && !Behind(size, free, x, i)
    ensures Known(size, [x] + free) && Compacted(size, free, x) == Compact(FreeSpace([x] + free, size), n + 1, 0)
  {
    var f := FreeSpace([x] + free, size);
    PushContains(x, free);
    forall i | 1 <= i < n + 1 ensures Aloof(f, i) {
      assert f.free[i] == free[i - 1];
      assert !Before(size, free, x, i - 1) && !Behind(size, free, x, i - 1);
    }
    Skip(f, 1, n + 1, 0);
  }

  lemma NoNeighbour(size: Sizes, free: seq<Addr>, x: Addr)
    requires Fresh(size, free, x) && forall i :: !Before(size, free, x, i) && !Behind(size, free, x, i)
    ensures NoneAdjacent(Compacted(size, free, x))
  {
    SkipFront(size, free, x, |free|);
    var f := FreeSpace([x] + free, size);
    forall a, b ensures !Adjacent(f, a, b) {
      PushContains(x, free);
      if Adjacent(f, a, b) {
        if a in free && b in free {
          NotAdjacent(size, free, x, a, b);
        } else if a in free {
          var i :| 0 <= i < |free| && free[i] == a;
          assert Before(size, free, x, i);
        } else if b in free {
          var i :| 0 <= i < |free| && free[i] == b;
          assert Behind(size, free, x, i);
        }
      }
    }
  }

  /** The preceding neighbour, at index i, is met first: x is merged into it. */
  lemma MeetBefore(size: Sizes, free: seq<Addr>, x: Addr, i: int)
    requires Fresh(size, free, x) && Before(size, free, x, i)
    requires forall k :: 0 <= k < i ==> !Before(size, free, x, k) && !Behind(size, free, x, k)
    ensures var size' := size[free[i] := size[free[i]] + HDR + size[x]];
      Known(size', free) && Compacted(size, free, x) == Compact(FreeSpace(free, size'), i + 1, 1)
  {
    SkipFront(size, free, x, i);
    var f := FreeSpace([x] + free, size);
    hide Compact, Compacted, NoneAdjacent;
    assert f.free[i + 1] == free[i] && f.free[1..] == free;
    StepHead(f, i + 1, 0);
  }

  lemma BehindFacts(size: Sizes, free: seq<Addr>, x: Addr, j: int)
    requires Fresh(size, free, x) && Behind(size, free, x, j)
    ensures x in size && free[j] in size && Known(size, free) && x !in free && After(size, free[j]) != x
  {
    assert free[j] in free;
  }

  /** The following neighbour, at index j, is met first: it is merged into x, which stays the head. */
  lemma MeetBehind(size: Sizes, free: seq<Addr>, x: Addr, j: int)
    requires Fresh(size, free, x) && Behind(size, free, x, j)
    requires forall k :: 0 <= k < j ==> !Before(size, free, x, k) && !Behind(size, free, x, k)
    ensures var size' := size[x := size[x] + HDR + size[free[j]]];
      var l := [x] + Without(free, j);
      Known(size', l) && Compacted(size, free, x) == Compact(FreeSpace(l, size'), j + 1, 1)
  {
    hide Fresh, Compact, Compacted, Without, Known;
    BehindFacts(size, free, x, j);
    SkipFront(size, free, x, j);
    var f := FreeSpace([x] + free, size);
    WithoutContains(free, j);
    PushContains(x, Without(free, j));
    WithoutBehind(x, free, j);
    assert f.free[j + 1] == free[j];
    StepEntry(f, j + 1, 0);
  }

  /** Joined to a preceding neighbour that is not first in the list, x is no longer looked at. */
  lemma LoseTrack(size: Sizes, free: seq<Addr>, x: Addr, i: int)
    requires Fresh(size, free, x) && Before(size, free, x, i) && 0 < i
    requires forall k :: 0 <= k < i ==> !Before(size, free, x, k) && !Behind(size, free, x, k)
    ensures Compacted(size, free, x) == FreeSpace(free, size[free[i] := size[free[i]] + HDR + size[x]])
    ensures forall a, b :: Adjacent(Compacted(size, free, x), a, b) <==>
                a == free[i] && b == After(size, x) && b in free
  {
    MeetBefore(size, free, x, i);
    var size' := size[free[i] := size[free[i]] + HDR + size[x]];
    var g := FreeSpace(free, size');
    forall k | i + 1 <= k < |free| ensures Aloof(g, k) {
      assert free[k] in free && free[0] in free;
      NotAdjacent(size, free, x, free[k], free[0]);
      NotAdjacent(size, free, x, free[0], free[k]);
    }
    Skip(g, i + 1, |free|, 1);
    assert free[i] in free;
    forall a, b ensures Adjacent(g, a, b) <==> a == free[i] && b == After(size, x) && b in free {
      if a in free && b in free { NotAdjacent(size, free, x, a, b); }
    }
  }

  /** A list of free blocks in which free[i] has taken in x and free[j]. */
  ghost predicate JoinedBoth(size: Sizes, free: seq<Addr>, x: Addr, i: int, j: int, r: FreeSpace)
    requires x in size && Known(size, free) && 0 <= i < |free| && 0 <= j < |free|
  {
    && r.free == Without(free, j) && Known(r.size, r.free) && free[i] in r.size
    && r.size[free[i]] == size[free[i]] + HDR + size[x] + HDR + size[free[j]]
    && forall a :: a in r.free && a != free[i] ==> a in size && r.size[a] == size[a]
  }

  /** Joined to a preceding neighbour that is first in the list, x is still the head. */
  lemma KeepTrack(size: Sizes, free: seq<Addr>, x: Addr)
    requires Fresh(size, free, x) && Before(size, free, x, 0)
    ensures NoneAdjacent(Compacted(size, free, x))
    ensures if After(size, x) in free
            then JoinedBoth(size, free, x, 0, IndexOf(free, After(size, x)), Compacted(size, free, x))
            else Compacted(size, free, x) == FreeSpace(free, size[free[0] := size[free[0]] + HDR + size[x]])
  {
    hide Compact, Compacted, NoneAdjacent, JoinedBoth, Aloof;
    MeetBefore(size, free, x, 0);
    var g := FreeSpace(free, size[free[0] := size[free[0]] + HDR + size[x]]);
    var j := if After(size, x) in free then IndexOf(free, After(size, x)) else |free|;
    KeepTrackEnd(size, free, x, j);
    HeadAloof(size, free, x, j);
    Skip(g, 1, j, 1);
  }

  lemma HeadAloof(size: Sizes, free: seq<Addr>, x: Addr, j: int)
    requires Fresh(size, free, x) && Before(size, free, x, 0) && 0 <= j <= |free|
    requires if j == |free| then After(size, x) !in free else After(size, x) == free[j]
    ensures var g := FreeSpace(free, size[free[0] := size[free[0]] + HDR + size[x]]);
      Known(g.size, free) && forall k :: 1 <= k < j ==> Aloof(g, k)
  {
    var g := FreeSpace(free, size[free[0] := size[free[0]] + HDR + size[x]]);
    assert free[0] in free;
    forall k | 1 <= k < j ensures Aloof(g, k) {
      assert free[k] in free;
      NotAdjacent(size, free, x, free[k], free[0]);
    }
  }

  lemma BehindPlace(size: Sizes, free: seq<Addr>, x: Addr)
    requires x in size && Distinct(free)
    ensures forall j :: Behind(size, free, x, j) <==> After(size, x) in free && j == IndexOf(free, After(size, x))
  {
  }

  lemma KeepTrackEnd(size: Sizes, free: seq<Addr>, x: Addr, j: int)
    requires Fresh(size, free, x) && Before(size, free, x, 0) && 0 <= j <= |free|
    requires if j == |free| then After(size, x) !in free else After(size, x) == free[j]
    ensures 0 < j && Known(size[free[0] := size[free[0]] + HDR + size[x]], free)
    ensures var r := Compact(FreeSpace(free, size[free[0] := size[free[0]] + HDR + size[x]]), j, 1);
      && NoneAdjacent(r)
      && if j == |free| then r == FreeSpace(free, size[free[0] := size[free[0]] + HDR + size[x]])
         else JoinedBoth(size, free, x, 0, j, r)
  {
    var p := free[0];
    assert p in free;
    var g := FreeSpace(free, size[p := size[p] + HDR + size[x]]);
    if j == |free| {
      forall a, b ensures !Adjacent(g, a, b) {
        if a in free && b in free { NotAdjacent(size, free, x, a, b); }
      }
    } else {
      var q := free[j];
      assert q in free;
      NotAdjacent(size, free, x, q, p);
      WithoutContains(free, j);
      var r := JoinEntry(g, j);
      forall a, b ensures !Adjacent(r, a, b) {
        if a in r.free && b in r.free {
          NotAdjacent(size, free, x, a, b);
          NotAdjacent(size, free, x, q, b);
        }
      }
    }
  }

  /** Once the following neighbour is merged into x, the preceding one is still found. */
  lemma BehindFirst(size: Sizes, free: seq<Addr>, x: Addr, j: int)
    requires Fresh(size, free, x) && Behind(size, free, x, j)
    requires forall k :: 0 <= k < j ==> !Before(size, free, x, k) && !Behind(size, free, x, k)
    ensures NoneAdjacent(Compacted(size, free, x))
    ensures free[j] in size
    ensures (forall i :: !Before(size, free, x, i)) ==>
              var size' := size[x := size[x] + HDR + size[free[j]]];
              Compacted(size, free, x) == FreeSpace([x] + Without(free, j), size')
    ensures forall i :: Before(size, free, x, i) ==> JoinedBoth(size, free, x, i, j, Compacted(size, free, x))
  {
    MeetBehind(size, free, x, j);
    var size' := size[x := size[x] + HDR + size[free[j]]];
    var l := [x] + Without(free, j);
    var g := FreeSpace(l, size');
    assert |l| == |free|;
    hide Compact, Compacted, Without, Fresh, NoneAdjacent;
    forall k | j + 1 <= k < |l| && !Before(size, free, x, k) ensures Aloof(g, k) {
      BehindTail(size, free, x, j, k);
    }
    if i :| j < i < |free| && Before(size, free, x, i) {
      forall k | j + 1 <= k < i ensures !Before(size, free, x, k) { OnePlace(size, free, x, i, k); }
      Skip(g, j + 1, i, 1);
      BothJoined(size, free, x, i, j);
    } else {
      Skip(g, j + 1, |l|, 1);
      AtListEnd(g, 1);
      OnePlace(size, free, x, j, j);
      BehindOnly(size, free, x, j);
    }
  }

  lemma AtListEnd(f: FreeSpace, freed: int)
    requires Known(f.size, f.free) && 0 < |f.free|
    ensures Compact(f, |f.free|, freed) == f
  {
  }

  /** With the following neighbour merged into x, only the preceding one still touches x. */
  lemma BehindTail(size: Sizes, free: seq<Addr>, x: Addr, j: int, k: int)
    requires Fresh(size, free, x) && Behind(size, free, x, j) && j < k < |free| && !Before(size, free, x, k)
    ensures var l := [x] + Without(free, j);
      var size' := size[x := size[x] + HDR + size[free[j]]];
      Known(size', l) && k < |l| && Aloof(FreeSpace(l, size'), k)
  {
    var q, y := free[j], free[k];
    assert q in free && y in free;
    WithoutAt(free, j, k - 1);
    WithoutContains(free, j);
    PushContains(x, Without(free, j));
    NotAdjacent(size, free, x, q, y);
    hide Without, NoneAdjacent;
    assert ([x] + Without(free, j))[k] == y;
  }

  lemma BothJoined(size: Sizes, free: seq<Addr>, x: Addr, i: int, j: int)
    requires Fresh(size, free, x) && Before(size, free, x, i) && Behind(size, free, x, j) && j < i
    ensures var l := [x] + Without(free, j);
      var size' := size[x := size[x] + HDR + size[free[j]]];
      && Known(size', l) && NoneAdjacent(Compact(FreeSpace(l, size'), i, 1))
      && JoinedBoth(size, free, x, i, j, Compact(FreeSpace(l, size'), i, 1))
  {
    hide Compact, Without, Distinct;
    var p, q, w := free[i], free[j], Without(free, j);
    assert p in free && q in free;
    var size' := size[x := size[x] + HDR + size[q]];
    WithoutContains(free, j);
    PushContains(x, w);
    var g := FreeSpace([x] + w, size');
    WithoutAt(free, j, i - 1);
    assert g.free[i] == w[i - 1] == p && g.free[0] == x;
    StepHead(g, i, 1);
    var r := JoinHead(g, i);
    assert r.free == w;
    forall a, b ensures !Adjacent(r, a, b) {
      if a in r.free && b in r.free {
        NotAdjacent(size, free, x, a, b);
        NotAdjacent(size, free, x, q, b);
      }
    }
  }

  lemma BehindOnly(size: Sizes, free: seq<Addr>, x: Addr, j: int)
    requires Fresh(size, free, x) && Behind(size, free, x, j) && forall i :: !Before(size, free, x, i)
    ensures NoneAdjacent(FreeSpace([x] + Without(free, j), size[x := size[x] + HDR + size[free[j]]]))
  {
    var q := free[j];
    assert q in free;
    var r := FreeSpace([x] + Without(free, j), size[x := size[x] + HDR + size[q]]);
    WithoutContains(free, j);
    PushContains(x, Without(free, j));
    forall a, b ensures !Adjacent(r, a, b) {
      if a in r.free && b in r.free {
        if a in free {
          var i := IndexOf(free, a);
          assert !Before(size, free, x, i);
          if b in free { NotAdjacent(size, free, x, a, b); }
        } else if b in free {
          NotAdjacent(size, free, x, q, b);
        }
      }
    }
  }

  /**
   What free() leaves behind when no two free blocks touched before it: the heap is fully compacted
   exactly when it is not the case that both neighbours were free, the preceding one came earlier in
   the list than the following one, and was not first; and then a single pair stays unjoined.
   */
  lemma LeftoverPair(size: Sizes, free: seq<Addr>, x: Addr)
    requires Fresh(size, free, x)
    ensures NoneAdjacent(Compacted(size, free, x)) <==> NoneMissed(size, free, x)
    ensures forall i, j :: Missed(size, free, x, i, j) ==>
              forall a, b :: Adjacent(Compacted(size, free, x), a, b) <==> a == free[i] && b == free[j]
  {
    if forall i :: !Before(size, free, x, i) && !Behind(size, free, x, i) {
      NoNeighbour(size, free, x);
    } else {
      var n := FirstNeighbour(size, free, x);
      if Behind(size, free, x, n) {
        BehindFirst(size, free, x, n);
        MissedOrder(size, free, x, n);
      } else if n == 0 {
        KeepTrack(size, free, x);
        MissedOrder(size, free, x, n);
      } else {
        LoseTrack(size, free, x, n);
        MissedTail(size, free, x, n);
        if After(size, x) in free { assert Adjacent(Compacted(size, free, x), free[n], After(size, x)); }
      }
    }
  }

  /** The same for the heap as a whole. */
  lemma FreeLeftover(size: Sizes, used: seq<Addr>, free: seq<Addr>, x: Addr, lo: int, hi: int)
    requires Sound(size, used, [x] + free, lo, hi)
    ensures x in size && Known(size, free)
    ensures NoneAdjacent(FreeSpace(free, size)) ==>
              (NoneAdjacent(Compact(FreeSpace([x] + free, size), 1, 0)) <==> NoneMissed(size, free, x))
  {
    PushContains(x, free);
    assert ([x] + free)[0] == x && forall i :: 0 <= i < |free| ==> ([x] + free)[i + 1] == free[i];
    if NoneAdjacent(FreeSpace(free, size)) {
      SoundFresh(size, used, free, x, lo, hi);
      LeftoverPair(size, free, x);
    }
  }

  /** What free() makes of the free list and of the sizes when no two free blocks touched before it. */
  lemma FreedIs(size: Sizes, free: seq<Addr>, x: Addr)
    requires Fresh(size, free, x)
    ensures var r := Compacted(size, free, x);
      && ((forall i :: !Before(size, free, x, i) && !Behind(size, free, x, i)) ==> r == FreeSpace([x] + free, size))
      && (forall j :: Behind(size, free, x, j) && (forall i :: !Before(size, free, x, i)) ==>
            && r.free == [x] + Without(free, j) && free[j] in size
            && r.size == size[x := size[x] + 12 + size[free[j]]])
      && (forall i :: Before(size, free, x, i) && (forall j :: Behind(size, free, x, j) ==> 0 < i < j) ==>
            r == FreeSpace(free, size[free[i] := size[free[i]] + 12 + size[x]]))
      && (forall i, j :: Before(size, free, x, i) && Behind(size, free, x, j) && !(0 < i < j) ==>
            JoinedBoth(size, free, x, i, j, r))
  {
    hide Compact, Compacted, NoneAdjacent, JoinedBoth, Before, Behind, Distinct, Without, IndexOf;
    if forall i :: !Before(size, free, x, i) && !Behind(size, free, x, i) {
      SkipFront(size, free, x, |free|);
      AtListEnd(FreeSpace([x] + free, size), 0);
    } else {
      var n := FirstNeighbour(size, free, x);
      Places(size, free, x);
      if Behind(size, free, x, n) {
        BehindFirst(size, free, x, n);
      } else if n == 0 {
        KeepTrack(size, free, x);
        assert After(size, x) in free ==> Behind(size, free, x, IndexOf(free, After(size, x)));
      } else {
        LoseTrack(size, free, x, n);
      }
    }
  }

  /** Each neighbour has one place, and they are different blocks. */
  lemma Places(size: Sizes, free: seq<Addr>, x: Addr)
    requires Fresh(size, free, x)
    ensures forall i, j :: Before(size, free, x, i) && Before(size, free, x, j) ==> i == j
    ensures forall j :: Behind(size, free, x, j) <==> After(size, x) in free && j == IndexOf(free, After(size, x))
    ensures forall i :: Before(size, free, x, i) ==> 0 <= i < |free| && free[i] in size && x in size
    ensures forall j :: Behind(size, free, x, j) ==> 0 <= j < |free| && free[j] in size
  {
    forall i, j | Before(size, free, x, i) && Before(size, free, x, j) ensures i == j { OnePlace(size, free, x, i, j); }
    BehindPlace(size, free, x);
  }

  ghost function FirstNeighbour(size: Sizes, free: seq<Addr>, x: Addr): (n: int)
    requires Fresh(size, free, x) && exists i :: Before(size, free, x, i) || Behind(size, free, x, i)
    ensures Before(size, free, x, n) || Behind(size, free, x, n)
    ensures forall k :: 0 <= k < n ==> !Before(size, free, x, k) && !Behind(size, free, x, k)
  {
    var i :| Before(size, free, x, i) || Behind(size, free, x, i);
    FirstUpTo(size, free, x, i)
  }

  ghost function FirstUpTo(size: Sizes, free: seq<Addr>, x: Addr, i: int): (n: int)
    requires Fresh(size, free, x) && (Before(size, free, x, i) || Behind(size, free, x, i))
    ensures Before(size, free, x, n) || Behind(size, free, x, n)
    ensures forall k :: 0 <= k < n ==> !Before(size, free, x, k) && !Behind(size, free, x, k)
    decreases i
  {
    if k :| 0 <= k < i && (Before(size, free, x, k) || Behind(size, free, x, k)) then FirstUpTo(size, free, x, k) else i
  }

  /** Each neighbour has one place in the list. */
  lemma OnePlace(size: Sizes, free: seq<Addr>, x: Addr, i: int, j: int)
    requires Fresh(size, free, x) && 0 <= i < |free| && 0 <= j < |free|
    ensures Before(size, free, x, i) && Before(size, free, x, j) ==> i == j
    ensures Behind(size, free, x, i) && Behind(size, free, x, j) ==> i == j
    ensures Before(size, free, x, i) && Behind(size, free, x, j) ==> i != j
  {
    assert free[i] in free && free[j] in free;
  }

  lemma MissedOrder(size: Sizes, free: seq<Addr>, x: Addr, n: int)
    requires Fresh(size, free, x) && (Behind(size, free, x, n) || (n == 0 && Before(size, free, x, 0)))
    requires forall k :: 0 <= k < n ==> !Before(size, free, x, k)
    ensures forall i, j :: !Missed(size, free, x, i, j)
  {
    forall i, j ensures !Missed(size, free, x, i, j) {
      if Missed(size, free, x, i, j) {
        OnePlace(size, free, x, n, j);
        OnePlace(size, free, x, n, i);
        OnePlace(size, free, x, i, n);
      }
    }
  }

  lemma MissedTail(size: Sizes, free: seq<Addr>, x: Addr, n: int)
    requires Fresh(size, free, x) && 0 < n && Before(size, free, x, n)
    requires forall k :: 0 <= k < n ==> !Behind(size, free, x, k)
    ensures (exists i, j :: Missed(size, free, x, i, j)) <==> After(size, x) in free
    ensures forall i, j :: Missed(size, free, x, i, j) ==> i == n && After(size, x) == free[j]
  {
    if After(size, x) in free {
      var j := IndexOf(free, After(size, x));
      assert Behind(size, free, x, j);
      OnePlace(size, free, x, n, j);
      assert Missed(size, free, x, n, j);
    }
    forall i, j | Missed(size, free, x, i, j) ensures i == n && After(size, x) == free[j] && After(size, x) in free {
      OnePlace(size, free, x, n, i);
      assert free[j] in free;
    }
  }

  /** Blocks of 16 bytes at 16, 48, 64 and 80: freeing 64 joins it to 48 but leaves 48 next to 80. */
  lemma MissedExample()
    ensures var size := map[16 := 4, 32 := 4, 48 := 4, 64 := 4, 80 := 4];
      var free := [16, 48, 80];
      && Fresh(size, free, 64) && Missed(size, free, 64, 1, 2) && Adjacent(Compacted(size, free, 64), 48, 80)
  {
    var size := map[16 := 4, 32 := 4, 48 := 4, 64 := 4, 80 := 4];
    var free := [16, 48, 80];
    assert Missed(size, free, 64, 1, 2);
    LeftoverPair(size, free, 64);
  }
}
