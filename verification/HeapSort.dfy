/** sort() of lib32/misc.c: heapsort with byte offsets as indices. */
module HeapSort {
  import opened Strides

  /** A comparison function, as sort expects it: negative, zero or positive. */
  ghost predicate TotalPreorder<T(!new)>(cmp: (T, T) -> int) {
    && (forall x, y :: cmp(x, y) < 0 <==> cmp(y, x) > 0)
    && (forall x, y, z :: cmp(x, y) <= 0 && cmp(y, z) <= 0 ==> cmp(x, z) <= 0)
  }

  ghost predicate Ge<T(!new)>(cmp: (T, T) -> int, x: T, y: T) {
    cmp(x, y) >= 0
  }

  lemma GeTrans<T(!new)>(cmp: (T, T) -> int, x: T, y: T, z: T)
    requires TotalPreorder(cmp) && Ge(cmp, x, y) && Ge(cmp, y, z)
    ensures Ge(cmp, x, z)
  {
    assert cmp(y, x) <= 0 && cmp(z, y) <= 0;
    assert cmp(z, x) <= 0;
  }

  /** In s[..n], every entry below an entry from lo on is no larger than that entry. */
  ghost predicate Heap<T(!new)>(cmp: (T, T) -> int, s: seq<T>, lo: int, n: int)
    requires 0 <= n <= |s|
  {
    forall c :: 1 <= c < n && lo <= Parent(c) ==> Ge(cmp, s[Parent(c)], s[c])
  }

  function Parent(c: int): int
    requires 1 <= c
    ensures 0 <= Parent(c) < c
  {
    (c - 1) / 2
  }

  /** The same but for the entries right below r, which respect only what is above r. */
  ghost predicate HeapBut<T(!new)>(cmp: (T, T) -> int, s: seq<T>, lo: int, n: int, r: int)
    requires 0 <= n <= |s| && 0 <= lo
  {
    && (forall c :: 1 <= c < n && lo <= Parent(c) != r ==> Ge(cmp, s[Parent(c)], s[c]))
    && (forall c :: 1 <= c < n && Parent(c) == r && r >= 1 && lo <= Parent(r) ==> Ge(cmp, s[Parent(r)], s[c]))
  }

  function Swap<T>(s: seq<T>, i: int, j: int): seq<T>
    requires 0 <= i < |s| && 0 <= j < |s|
  {
    s[i := s[j]][j := s[i]]
  }

  /** s' rearranges the first n entries of s. */
  ghost predicate Rearranged<T(!new)>(s: seq<T>, s': seq<T>, n: int)
    requires 0 <= n <= |s|
  {
    |s'| == |s| && multiset(s') == multiset(s) && s'[n..] == s[n..] && forall k :: 0 <= k < n ==> s'[k] in s[..n]
  }

  lemma SwapRearranges<T(!new)>(s: seq<T>, s': seq<T>, i: int, j: int, n: int)
    requires 0 <= n <= |s| && Rearranged(s, s', n) && 0 <= i < n && 0 <= j < n
    ensures Rearranged(s, Swap(s', i, j), n)
  {
    assert Swap(s', i, j)[n..] == s'[n..];
  }

  /** Moving the larger child of r up. */
  lemma SiftStep<T(!new)>(cmp: (T, T) -> int, s: seq<T>, lo: int, n: int, r: int, c: int)
    requires TotalPreorder(cmp) && 0 <= n <= |s| && 0 <= lo <= r && HeapBut(cmp, s, lo, n, r)
    requires 1 <= c < n && Parent(c) == r && Ge(cmp, s[c], s[r])
    requires forall d :: 1 <= d < n && Parent(d) == r ==> Ge(cmp, s[c], s[d])
    ensures HeapBut(cmp, Swap(s, r, c), lo, n, c)
  {
    var t := Swap(s, r, c);
    forall d | 1 <= d < n && lo <= Parent(d) != c ensures Ge(cmp, t[Parent(d)], t[d]) {
      if d == r {
        assert Ge(cmp, s[Parent(r)], s[c]);
      }
    }
    forall d | 1 <= d < n && Parent(d) == c ensures Ge(cmp, t[r], t[d]) {
      assert Ge(cmp, s[c], s[d]);
    }
  }

  /** r is no smaller than its larger child, or has none: the heap is whole again. */
  lemma SiftDone<T(!new)>(cmp: (T, T) -> int, s: seq<T>, lo: int, n: int, r: int)
    requires 0 <= n <= |s| && 0 <= lo && HeapBut(cmp, s, lo, n, r)
    requires forall d :: 1 <= d < n && Parent(d) == r ==> Ge(cmp, s[r], s[d])
    ensures Heap(cmp, s, lo, n)
  {
  }

  /** The root of a heap is a largest entry. */
  lemma {:induction false} RootLargest<T(!new)>(cmp: (T, T) -> int, s: seq<T>, n: int, k: int)
    requires TotalPreorder(cmp) && 0 <= k < n <= |s| && Heap(cmp, s, 0, n)
    ensures Ge(cmp, s[0], s[k])
    decreases k
  {
    if k > 0 {
      RootLargest(cmp, s, n, Parent(k));
      GeTrans(cmp, s[0], s[Parent(k)], s[k]);
    } else {
      Reflexive(cmp, s[0]);
    }
  }

  lemma Reflexive<T(!new)>(cmp: (T, T) -> int, x: T)
    requires TotalPreorder(cmp)
    ensures cmp(x, x) == 0
  {
    assert cmp(x, x) < 0 <==> cmp(x, x) > 0;
  }

  /** The byte offset of element k. */
  function Off(k: int, size: int): int {
    k * size
  }

  /** The element at byte offset i. */
  function Elem(i: int, size: int): int
    requires 1 <= size
  {
    i / size
  }

  /** Offsets are ints; next to the unsigned size they are compared modulo 2^32. */
  const HALF: int := 0x8000_0000

  function Unsigned(x: int): int {
    x % LIMIT
  }

  lemma ElemOff(k: int, size: int)
    requires 1 <= size
    ensures Elem(Off(k, size), size) == k
  {
    DivExact(k, 0, size);
  }

  lemma OffAdd(k: int, size: int)
    ensures Off(2 * k + 1, size) == Off(k, size) * 2 + size && Off(2 * k + 2, size) == Off(k, size) * 2 + size + size
  {
  }

  lemma OffBelow(k: int, m: int, size: int)
    requires 1 <= size
    ensures Off(k, size) < Off(m, size) <==> k < m
  {
    Compare(k, m, size);
  }

  /** The children of element k, at byte offset k * size, within m elements. */
  lemma Offsets(k: int, m: int, size: int)
    requires 1 <= size
    ensures var r, n := Off(k, size), Off(m, size);
      var c := r * 2 + size;
      && c == Off(2 * k + 1, size) && c + size == Off(2 * k + 2, size)
      && (c < n <==> 2 * k + 1 < m) && (c < n - size <==> 2 * k + 2 < m)
      && Elem(r, size) == k && Elem(c, size) == 2 * k + 1 && Elem(c + size, size) == 2 * k + 2
      && (0 <= k < m && n < HALF ==> Unsigned(c) == c && 0 <= n - size)
  {
    hide Off, Elem, Unsigned;
    OffAdd(k, size);
    OffBelow(2 * k + 1, m, size);
    OffBelow(2 * k + 2, m, size);
    if 0 <= k < m && Off(m, size) < HALF { FitsUnsigned(k, m, size); }
    ElemOff(k, size);
    ElemOff(2 * k + 1, size);
    ElemOff(2 * k + 2, size);
  }

  lemma FitsUnsigned(k: int, m: int, size: int)
    requires 1 <= size && 0 <= k < m && Off(m, size) < HALF
    ensures var c := Off(k, size) * 2 + size; Unsigned(c) == c && size <= Off(m, size)
  {
    MulMonotone(k + 1, m, size);
    MulMonotone(0, k, size);
    assert (k + 1) * size == k * size + size;
    SmallUnsigned(Off(k, size) * 2 + size);
  }

  lemma SmallUnsigned(x: int)
    requires 0 <= x < LIMIT
    ensures Unsigned(x) == x
  {
  }

  /** swap_func on two elements, at byte offsets i and j. */
  method SwapAt<T>(a: array<T>, size: int, i: int, j: int)
    requires 1 <= size && 0 <= Elem(i, size) < a.Length && 0 <= Elem(j, size) < a.Length
    modifies a
    ensures a[..] == Swap(old(a[..]), Elem(i, size), Elem(j, size))
  {
    var t := a[Elem(i, size)];
    a[Elem(i, size)] := a[Elem(j, size)];
    a[Elem(j, size)] := t;
  }

  /** The larger child of the element at offset r, the first one when they are equal. */
  method PickChild<T(!new)>(a: array<T>, size: int, r: int, n: int, cmp: (T, T) -> int, ghost k: int, ghost m: int)
    returns (c: int, ghost d: int)
    requires TotalPreorder(cmp) && 1 <= size && r == Off(k, size) && n == Off(m, size) && 0 <= k < m <= a.Length
    requires r * 2 + size < n
    ensures c == Off(d, size) && Elem(c, size) == d && Elem(r, size) == k && k < d < m && Parent(d) == k
    ensures forall e :: 1 <= e < m && Parent(e) == k ==> Ge(cmp, a[d], a[e])
  {
    hide TotalPreorder, Ge, Off, Elem, Parent;
    Offsets(k, m, size);
    c, d := r * 2 + size, 2 * k + 1;
    if c < n - size && cmp(a[Elem(c, size)], a[Elem(c + size, size)]) < 0 {
      c, d := c + size, d + 1;
    }
    LargerChild(cmp, a[..], k, m, d);
    forall e | 1 <= e < m && Parent(e) == k ensures Ge(cmp, a[d], a[e]) {
      assert Ge(cmp, a[..][d], a[..][e]);
    }
  }

  /** The inner loop: sift the element at offset r0 down within the first n bytes. */
  method SiftDown<T(!new)>(a: array<T>, size: int, r0: int, n: int, cmp: (T, T) -> int, ghost k0: int, ghost m: int)
    requires TotalPreorder(cmp) && 1 <= size && r0 == Off(k0, size) && n == Off(m, size) && 0 <= k0 < m <= a.Length
    requires n < HALF && HeapBut(cmp, a[..], k0, m, k0)
    modifies a
    ensures Heap(cmp, a[..], k0, m) && Rearranged(old(a[..]), a[..], m)
  {
    hide TotalPreorder, HeapBut, Heap, Rearranged, Swap, Ge, Off, Elem, Parent, Unsigned;
    var r := r0;
    ghost var k := k0;
    SelfRearranged(a[..], m);
    Offsets(k, m, size);
    while Unsigned(r * 2 + size) < n
      invariant r == Off(k, size) && k0 <= k < m
      invariant Unsigned(r * 2 + size) == r * 2 + size && (r * 2 + size < n <==> 2 * k + 1 < m)
      invariant HeapBut(cmp, a[..], k0, m, k) && Rearranged(old(a[..]), a[..], m)
      decreases m - k
    {
      var c, d := PickChild(a, size, r, n, cmp, k, m);
      if cmp(a[Elem(r, size)], a[Elem(c, size)]) >= 0 {
        TopOfChildren(cmp, a[..], k, m, d);
        SiftDone(cmp, a[..], k0, m, k);
        return;
      }
      Reverse(cmp, a[k], a[d]);
      SiftStep(cmp, a[..], k0, m, k, d);
      SwapRearranges(old(a[..]), a[..], k, d, m);
      SwapAt(a, size, r, c);
      Offsets(d, m, size);
      r, k := c, d;
    }
    NoChildren(cmp, a[..], k, m);
    SiftDone(cmp, a[..], k0, m, k);
  }

  lemma NoChildren<T(!new)>(cmp: (T, T) -> int, s: seq<T>, k: int, m: int)
    requires 0 <= k < m <= |s| && 2 * k + 1 >= m
    ensures forall e :: 1 <= e < m && Parent(e) == k ==> Ge(cmp, s[k], s[e])
  {
    forall e | 1 <= e < m ensures Parent(e) != k {}
  }

  lemma SelfRearranged<T(!new)>(s: seq<T>, n: int)
    requires 0 <= n <= |s|
    ensures Rearranged(s, s, n)
  {
    assert forall k :: 0 <= k < n ==> s[k] == s[..n][k];
  }

  lemma Reverse<T(!new)>(cmp: (T, T) -> int, x: T, y: T)
    requires TotalPreorder(cmp)
    ensures cmp(x, y) < 0 ==> Ge(cmp, y, x)
    ensures cmp(x, y) <= 0 <==> Ge(cmp, y, x)
  {
    assert cmp(y, x) < 0 <==> cmp(x, y) > 0;
    assert cmp(x, y) < 0 <==> cmp(y, x) > 0;
  }

  /** The child the loop picks is no smaller than its sibling. */
  lemma LargerChild<T(!new)>(cmp: (T, T) -> int, s: seq<T>, k: int, m: int, d: int)
    requires TotalPreorder(cmp) && 0 <= k < m <= |s| && d < m && (d == 2 * k + 1 || d == 2 * k + 2)
    requires d == 2 * k + 1 && 2 * k + 2 < m ==> cmp(s[d], s[2 * k + 2]) >= 0
    requires d == 2 * k + 2 ==> cmp(s[2 * k + 1], s[d]) < 0
    ensures Parent(d) == k && forall e :: 1 <= e < m && Parent(e) == k ==> Ge(cmp, s[d], s[e])
  {
    Reflexive(cmp, s[d]);
    Reverse(cmp, s[2 * k + 1], s[d]);
    forall e | 1 <= e < m && Parent(e) == k ensures Ge(cmp, s[d], s[e]) {
      assert e == 2 * k + 1 || e == 2 * k + 2;
    }
  }

  lemma TopOfChildren<T(!new)>(cmp: (T, T) -> int, s: seq<T>, k: int, m: int, d: int)
    requires TotalPreorder(cmp) && 0 <= k < m <= |s| && 0 <= d < m && cmp(s[k], s[d]) >= 0
    requires forall e :: 1 <= e < m && Parent(e) == k ==> Ge(cmp, s[d], s[e])
    ensures forall e :: 1 <= e < m && Parent(e) == k ==> Ge(cmp, s[k], s[e])
  {
    forall e | 1 <= e < m && Parent(e) == k ensures Ge(cmp, s[k], s[e]) {
      assert Ge(cmp, s[k], s[d]);
      GeTrans(cmp, s[k], s[d], s[e]);
    }
  }

  lemma HeapToBut<T(!new)>(cmp: (T, T) -> int, s: seq<T>, k: int, n: int)
    requires 0 <= k && 0 <= n <= |s| && Heap(cmp, s, k + 1, n)
    ensures HeapBut(cmp, s, k, n, k)
  {
  }

  lemma NoParents<T(!new)>(cmp: (T, T) -> int, s: seq<T>)
    ensures Heap(cmp, s, |s| / 2, |s|)
  {
  }

  // ------------------------------------------------------------------ the sorting phase

  /** Every entry behind index k is no smaller than all entries before it. */
  ghost predicate Settled<T(!new)>(cmp: (T, T) -> int, s: seq<T>, k: int) {
    forall p, q :: 0 <= p < q < |s| && k < q ==> Ge(cmp, s[q], s[p])
  }

  ghost predicate Sorted<T(!new)>(cmp: (T, T) -> int, s: seq<T>) {
    forall p, q :: 0 <= p < q < |s| ==> cmp(s[p], s[q]) <= 0
  }

  /** The root, swapped to index k, settles there. */
  lemma SettleRoot<T(!new)>(cmp: (T, T) -> int, s: seq<T>, k: int)
    requires TotalPreorder(cmp) && 1 <= k < |s| && Heap(cmp, s, 0, k + 1) && Settled(cmp, s, k)
    ensures Settled(cmp, Swap(s, 0, k), k - 1)
    ensures HeapBut(cmp, Swap(s, 0, k), 0, k, 0)
    ensures multiset(Swap(s, 0, k)) == multiset(s)
  {
    var t := Swap(s, 0, k);
    forall p, q | 0 <= p < q < |t| && k - 1 < q ensures Ge(cmp, t[q], t[p]) {
      var p' := if p == 0 then k else if p == k then 0 else p;
      assert t[p] == s[p'];
      if q == k {
        RootLargest(cmp, s, k + 1, p');
      } else {
        assert t[q] == s[q];
      }
    }
  }

  lemma SettledStays<T(!new)>(cmp: (T, T) -> int, t: seq<T>, u: seq<T>, k: int)
    requires 0 <= k <= |t| && Settled(cmp, t, k - 1) && Rearranged(t, u, k)
    ensures Settled(cmp, u, k - 1)
  {
    assert forall q :: k <= q < |u| ==> u[q] == u[k..][q - k] && t[q] == t[k..][q - k];
    forall p, q | 0 <= p < q < |u| && k - 1 < q ensures Ge(cmp, u[q], u[p]) {
      assert u[q] == t[q];
      if p < k {
        var p' :| 0 <= p' < k && t[..k][p'] == u[p];
        assert t[p'] == u[p];
      } else {
        assert u[p] == t[p];
      }
    }
  }

  lemma AllSettled<T(!new)>(cmp: (T, T) -> int, s: seq<T>, k: int)
    requires TotalPreorder(cmp) && k <= 0 && Settled(cmp, s, k)
    ensures Sorted(cmp, s)
  {
    forall p, q | 0 <= p < q < |s| ensures cmp(s[p], s[q]) <= 0 {
      Reverse(cmp, s[p], s[q]);
    }
  }

  lemma NothingSettled<T(!new)>(cmp: (T, T) -> int, s: seq<T>)
    ensures Settled(cmp, s, |s| - 1)
  {
  }

  lemma StillThere<T(!new)>(s: seq<T>, t: seq<T>, n: int)
    requires 0 <= n <= |s| && Rearranged(s, t, n)
    ensures |t| == |s| && multiset(t) == multiset(s)
  {
  }

  /** sort: an ordered permutation of the input, for every total preorder, of any array that fits an int in bytes. */
  method Sort<T(!new)>(a: array<T>, size: int, cmp: (T, T) -> int)
    requires TotalPreorder(cmp) && 1 <= size && a.Length * size < HALF
    modifies a
    ensures Sorted(cmp, a[..]) && multiset(a[..]) == multiset(old(a[..]))
  {
    hide TotalPreorder, HeapBut, Heap, Rearranged, Swap, Settled, Sorted, Elem, Off;
    var num := a.Length;
    Sign(num, size);
    Sign(num / 2 - 1, size);
    var i, n := (num / 2 - 1) * size, num * size;
    ghost var k := num / 2 - 1;
    NoParents(cmp, a[..]);
    assert a[..] == old(a[..]);
    while i >= 0
      invariant i == Off(k, size) && -1 <= k < num / 2 + 1 && k < num
      invariant Heap(cmp, a[..], k + 1, num) && multiset(a[..]) == multiset(old(a[..]))
      decreases k
    {
      Sign(k, size);
      HeapToBut(cmp, a[..], k, num);
      ghost var s := a[..];
      SiftDown(a, size, i, n, cmp, k, num);
      StillThere(s, a[..], num);
      i, k := i - size, k - 1;
    }
    Sign(k, size);
    assert k == -1;
    i, k := n - size, num - 1;
    NothingSettled(cmp, a[..]);
    while i > 0
      invariant i == Off(k, size) && -1 <= k < num
      invariant Heap(cmp, a[..], 0, k + 1) && Settled(cmp, a[..], k) && multiset(a[..]) == multiset(old(a[..]))
      decreases k
    {
      Sign(k, size);
      SettleRoot(cmp, a[..], k);
      Offsets(k, num, size);
      Offsets(0, num, size);
      SwapAt(a, size, 0, i);
      ghost var t := a[..];
      SiftDown(a, size, 0, i, cmp, 0, k);
      SettledStays(cmp, t, a[..], k);
      StillThere(t, a[..], k);
      i, k := i - size, k - 1;
    }
    Sign(k, size);
    AllSettled(cmp, a[..], k);
  }

  /** The sign of the offset of element k, and the offset of the element before it. */
  lemma Sign(k: int, size: int)
    requires 1 <= size
    ensures Off(k, size) == k * size && (Off(k, size) > 0 <==> k > 0) && (Off(k, size) >= 0 <==> k >= 0)
    ensures Off(k - 1, size) == Off(k, size) - size && Off(0, size) == 0
  {
    Compare(0, k, size);
    Compare(k, 0, size);
  }
}
