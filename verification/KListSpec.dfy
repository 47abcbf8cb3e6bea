/**
 klist.c as atomic steps on a value: a list whose nodes carry reference counts and may be deleted
 while iterators stand on them.  `counting` says whether kref_get increments.
 */
module KListSpec {
  import opened Lists

  type Node = int
  type Iter = int

  /** i_cur */
  datatype Cursor = Idle | At(node: Node)

  /**
   home: the nodes whose n_klist is not NULL.  stale: where n_node.next of an unlinked node, which list_del leaves
   alone, still leads, Idle for the list head.  gets and puts collect the calls of the embedding object's get and put
   functions.
   */
  datatype State = State(list: seq<Node>, ref: map<Node, int>, dead: set<Node>, home: set<Node>,
                         stale: map<Node, Cursor>, cur: map<Iter, Cursor>, gets: multiset<Node>, puts: multiset<Node>)

  datatype Op =
    | AddHead(n: Node)
    | AddTail(n: Node)
    | AddAfter(n: Node, pos: Node)
    | AddBefore(n: Node, pos: Node)
    | Del(n: Node)
    | InitNode(i: Iter, start: Cursor)
    | Exit(i: Iter)
    | Next(i: Iter)

  const EMPTY: State := State([], map[], {}, {}, map[], map[], multiset{}, multiset{})

  function Insert(l: seq<Node>, k: int, n: Node): seq<Node>
    requires 0 <= k <= |l|
  {
    l[..k] + [n] + l[k..]
  }

  /** The place of n, and the place behind it. */
  function Before(l: seq<Node>, n: Node): (k: int)
    ensures 0 <= k <= |l|
  {
    if n in l then IndexOf(l, n) else |l|
  }

  function Behind(l: seq<Node>, n: Node): (k: int)
    ensures 0 <= k <= |l|
  {
    if n in l then IndexOf(l, n) + 1 else |l|
  }

  function Unlinked(l: seq<Node>, n: Node): seq<Node> {
    if n in l then Without(l, IndexOf(l, n)) else l
  }

  function Spot(l: seq<Node>, k: int): Cursor
    requires 0 <= k
  {
    if k < |l| then At(l[k]) else Idle
  }

  function RefOf(s: State, n: Node): int {
    if n in s.ref then s.ref[n] else 0
  }

  // ------------------------------------------------------------------------ the steps

  /** klist_node_init and linking at position k. */
  function Attach(s: State, n: Node, k: int): State
    requires 0 <= k <= |s.list|
  {
    s.(list := Insert(s.list, k, n), ref := s.ref[n := 1], dead := s.dead - {n}, home := s.home + {n},
        stale := s.stale - {n}, gets := s.gets + multiset{n})
  }

  function KrefGet(s: State, n: Node, counting: bool): map<Node, int> {
    if counting then s.ref[n := RefOf(s, n) + 1] else s.ref
  }

  /** Where the next link of a node, or of the list head, leads. */
  function LinkOf(s: State, c: Cursor): Cursor {
    match c
    case Idle => Spot(s.list, 0)
    case At(n) => if n in s.list then Spot(s.list, Behind(s.list, n)) else if n in s.stale then s.stale[n] else Idle
  }

  /** klist_release, and the put function after it. */
  function Release(s: State, n: Node): State {
    s.(list := Unlinked(s.list, n), dead := s.dead - {n}, home := s.home - {n}, stale := s.stale[n := LinkOf(s, At(n))],
        puts := s.puts + multiset{n})
  }

  /** klist_put: drop one reference; with the last one the node is unlinked and put runs. */
  function Put(s: State, n: Node, kill: bool): State {
    var left := s.(ref := s.ref[n := RefOf(s, n) - 1], dead := if kill then s.dead + {n} else s.dead);
    if RefOf(s, n) == 1 then Release(left, n) else left
  }

  /** The first node from index k on that is not dead. */
  function FirstLive(l: seq<Node>, dead: set<Node>, k: int): Cursor
    requires 0 <= k
    decreases |l| - k
  {
    if k >= |l| then Idle else if l[k] !in dead then At(l[k]) else FirstLive(l, dead, k + 1)
  }

  /** The loop of klist_next from a link on; an unlinked node has no n_klist, hence no dead mark. */
  function PassDead(s: State, c: Cursor): Cursor {
    if c.At? && c.node in s.list then FirstLive(s.list, s.dead, Before(s.list, c.node)) else c
  }

  /** What klist_next will return. */
  function NextOf(s: State, i: Iter): Cursor {
    if i in s.cur then PassDead(s, LinkOf(s, s.cur[i])) else Idle
  }

  function Land(s: State, i: Iter, c: Cursor, counting: bool): State {
    s.(cur := s.cur[i := c], ref := if c.At? then KrefGet(s, c.node, counting) else s.ref)
  }

  /** Giving up the reference to the node an iterator stands on, if it stands on one. */
  function Leave(s: State, c: Cursor): State {
    if c.At? then Put(s, c.node, false) else s
  }

  /** The node has been added at some time, so its links are set. */
  predicate Known(s: State, n: Node) {
    n in s.list || n in s.stale
  }

  /**
   What the callers of each function have to see to.  A kref_get that counts must not meet a node whose count is 0
   (include/linux/kref.h:42-45); with one that does not, callers have no means of keeping a node linked.
   */
  predicate Legal(s: State, op: Op, counting: bool) {
    match op
    case AddHead(n) => n !in s.list
    case AddTail(n) => n !in s.list
    case AddAfter(n, pos) => n !in s.list && Known(s, pos)
    case AddBefore(n, pos) => n !in s.list && Known(s, pos)
    case Del(n) => Known(s, n) && n !in s.dead
    case InitNode(i, start) =>
      && (i in s.cur ==> s.cur[i] == Idle)
      && (start.At? ==> if counting then start.node in s.list else Known(s, start.node))
    case Exit(i) => i in s.cur
    case Next(i) => i in s.cur
  }

  /** The function would go to the list of a node whose n_klist is NULL. */
  predicate Faults(s: State, op: Op) {
    match op
    case AddAfter(n, pos) => pos !in s.home
    case AddBefore(n, pos) => pos !in s.home
    case Del(n) => n !in s.home
    case Exit(i) => i in s.cur && s.cur[i].At? && s.cur[i].node !in s.home
    case _ => false
  }

  function Step(s: State, op: Op, counting: bool): State
    requires Legal(s, op, counting) && !Faults(s, op)
  {
    match op
    case AddHead(n) => Attach(s, n, 0)
    case AddTail(n) => Attach(s, n, |s.list|)
    case AddAfter(n, pos) => Attach(s, n, Behind(s.list, pos))
    case AddBefore(n, pos) => Attach(s, n, Before(s.list, pos))
    case Del(n) => Put(s, n, true)
    case InitNode(i, start) => Land(s, i, start, counting)
    case Exit(i) => Land(Leave(s, s.cur[i]), i, Idle, counting)
    case Next(i) => Land(Leave(s, s.cur[i]), i, NextOf(s, i), counting)
  }

  // ---------------------------------------------------------------------- the invariant

  /** The iterators standing on n. */
  ghost function Holders(cur: map<Iter, Cursor>, n: Node): set<Iter> {
    set i | i in cur && cur[i] == At(n)
  }

  /** n_klist is set exactly in the linked nodes, and only they can be dead. */
  ghost predicate Tied(s: State) {
    && Distinct(s.list) && s.home == (set n | n in s.list)
    && s.dead <= s.home && forall n :: n in s.stale ==> n !in s.list
  }

  /** An iterator stands on, and a stale link leads to, a node that has been added at some time. */
  ghost predicate Closed(s: State) {
    && (forall i :: i in s.cur && s.cur[i].At? ==> Known(s, s.cur[i].node))
    && (forall n :: n in s.stale && s.stale[n].At? ==> Known(s, s.stale[n].node))
  }

  ghost predicate CountOk(s: State, n: Node) {
    && RefOf(s, n) == (if n in s.list && n !in s.dead then 1 else 0) + |Holders(s.cur, n)|
    && (n in s.list <==> RefOf(s, n) > 0)
    && s.gets[n] == s.puts[n] + (if n in s.list then 1 else 0)
  }

  /**
   Each count is one for a node not deleted plus one for each iterator on it; a node is linked
   exactly while its count is positive; put has run once for each get whose node is gone.
   */
  ghost predicate Counted(s: State) {
    Tied(s) && Closed(s) && forall n :: CountOk(s, n)
  }

  // ------------------------------------------------------------------- list and set facts

  lemma InsertFacts(l: seq<Node>, k: int, n: Node)
    requires 0 <= k <= |l| && Distinct(l) && n !in l
    ensures Distinct(Insert(l, k, n)) && forall m :: m in Insert(l, k, n) <==> m in l || m == n
  {
    var w := Insert(l, k, n);
    assert forall a :: 0 <= a < |w| ==> w[a] == if a < k then l[a] else if a == k then n else l[a - 1];
    forall m | m in l ensures m in w {
      var a :| 0 <= a < |l| && l[a] == m;
      assert w[if a < k then a else a + 1] == m;
    }
    assert w[k] == n;
  }

  lemma RemoveFacts(l: seq<Node>, k: int)
    requires 0 <= k < |l| && Distinct(l)
    ensures Distinct(Without(l, k)) && forall m :: m in Without(l, k) <==> m in l && m != l[k]
  {
    var w := Without(l, k);
    assert forall a :: 0 <= a < |w| ==> w[a] == if a < k then l[a] else l[a + 1];
    forall m | m in l && m != l[k] ensures m in w {
      var a :| 0 <= a < |l| && l[a] == m;
      assert w[if a < k then a else a - 1] == m;
    }
  }

  lemma OneOut(h: set<Iter>, i: Iter)
    ensures |h| == |h - {i}| + if i in h then 1 else 0
  {
    if i !in h { assert h - {i} == h; }
  }

  lemma HoldersElse(cur: map<Iter, Cursor>, i: Iter, c: Cursor, n: Node)
    ensures Holders(cur[i := c], n) - {i} == Holders(cur, n) - {i}
    ensures i in Holders(cur, n) <==> i in cur && cur[i] == At(n)
    ensures i in Holders(cur[i := c], n) <==> c == At(n)
  {
    var h, h' := Holders(cur, n), Holders(cur[i := c], n);
    forall j ensures j in h' - {i} <==> j in h - {i} {}
  }

  lemma HoldersMove(cur: map<Iter, Cursor>, i: Iter, c: Cursor, n: Node)
    ensures var was := i in cur && cur[i] == At(n);
      |Holders(cur[i := c], n)| == |Holders(cur, n)| - (if was then 1 else 0) + (if c == At(n) then 1 else 0)
  {
    hide Holders;
    HoldersElse(cur, i, c, n);
    OneOut(Holders(cur, n), i);
    OneOut(Holders(cur[i := c], n), i);
  }

  lemma {:induction false} FirstLiveIs(l: seq<Node>, dead: set<Node>, k: int)
    requires 0 <= k
    ensures var c := FirstLive(l, dead, k);
      && (c.At? ==> c.node in l && c.node !in dead)
      && (c.At? ==> exists q :: k <= q < |l| && l[q] == c.node && forall j :: k <= j < q ==> l[j] in dead)
      && (c.Idle? ==> forall j :: k <= j < |l| ==> l[j] in dead)
    decreases |l| - k
  {
    if k < |l| && l[k] in dead { FirstLiveIs(l, dead, k + 1); }
  }

  /** While the iterator stands on a linked node, klist_next goes to the first node behind it that is not dead. */
  lemma NextOfAt(s: State, i: Iter)
    requires Distinct(s.list) && i in s.cur && (s.cur[i].At? ==> s.cur[i].node in s.list)
    ensures NextOf(s, i) == FirstLive(s.list, s.dead, if s.cur[i].At? then IndexOf(s.list, s.cur[i].node) + 1 else 0)
  {
    var k := if s.cur[i].At? then IndexOf(s.list, s.cur[i].node) + 1 else 0;
    if k < |s.list| {
      assert s.list[k] in s.list;
    }
  }

  // ---------------------------------------------------- every step keeps Tied and Closed

  lemma AttachTied(s: State, n: Node, k: int)
    requires Tied(s) && n !in s.list && 0 <= k <= |s.list|
    ensures Tied(Attach(s, n, k)) && (Closed(s) ==> Closed(Attach(s, n, k)))
    ensures forall m :: m in Attach(s, n, k).list <==> m in s.list || m == n
  {
    InsertFacts(s.list, k, n);
    hide Insert, Distinct;
  }

  lemma PutTied(s: State, n: Node, kill: bool)
    requires Tied(s) && (RefOf(s, n) == 1 || kill ==> n in s.list)
    ensures Tied(Put(s, n, kill))
    ensures RefOf(s, n) != 1 ==> Put(s, n, kill).list == s.list
    ensures RefOf(s, n) == 1 ==>
              && Put(s, n, kill).list == Without(s.list, IndexOf(s.list, n))
              && forall m :: m in Put(s, n, kill).list <==> m in s.list && m != n
  {
    if RefOf(s, n) == 1 {
      RemoveFacts(s.list, IndexOf(s.list, n));
      hide Without, IndexOf, Distinct, LinkOf;
    }
  }

  lemma PutClosed(s: State, n: Node, kill: bool)
    requires Tied(s) && Closed(s) && (RefOf(s, n) == 1 || kill ==> n in s.list)
    ensures Closed(Put(s, n, kill))
  {
    PutTied(s, n, kill);
    LinkKnown(s, n);
    hide Tied, Without, IndexOf, LinkOf;
    var s' := Put(s, n, kill);
    forall m | Known(s, m) ensures Known(s', m) {}
    hide Known;
  }

  lemma LandTied(s: State, i: Iter, c: Cursor, counting: bool)
    requires Tied(s) && Closed(s) && (c.At? ==> Known(s, c.node))
    ensures Tied(Land(s, i, c, counting)) && Closed(Land(s, i, c, counting))
  {
    hide Distinct;
  }

  lemma LinkKnown(s: State, n: Node)
    requires Closed(s)
    ensures var c := LinkOf(s, At(n)); c.At? ==> Known(s, c.node)
  {
  }

  // -------------------------------------------------------- every step keeps the invariant

  lemma AttachKeeps(s: State, n: Node, k: int)
    requires Counted(s) && n !in s.list && 0 <= k <= |s.list|
    ensures Counted(Attach(s, n, k))
  {
    AttachTied(s, n, k);
    hide Tied, Closed, Insert;
    var s' := Attach(s, n, k);
    forall m ensures CountOk(s', m) { assert CountOk(s, m); }
  }

  /** Land on c while standing nowhere, with a counting kref_get. */
  lemma LandKeeps(s: State, i: Iter, c: Cursor)
    requires Counted(s) && (i in s.cur ==> s.cur[i] == Idle) && (c.At? ==> c.node in s.list)
    ensures Counted(Land(s, i, c, true))
  {
    LandTied(s, i, c, true);
    hide Tied, Closed;
    var s' := Land(s, i, c, true);
    forall m ensures CountOk(s', m) {
      assert CountOk(s, m);
      HoldersMove(s.cur, i, c, m);
    }
  }

  lemma DelKeeps(s: State, n: Node)
    requires Counted(s) && n in s.list && n !in s.dead
    ensures Counted(Put(s, n, true))
  {
    PutTied(s, n, true);
    PutClosed(s, n, true);
    hide Tied, Closed, Without, IndexOf, LinkOf;
    var s' := Put(s, n, true);
    forall m ensures CountOk(s', m) { assert CountOk(s, m); }
  }

  /** Leaving the node an iterator stands on. */
  lemma LeaveKeeps(s: State, i: Iter)
    requires Counted(s) && i in s.cur && s.cur[i].At?
    ensures s.cur[i].node in s.list
    ensures Counted(Land(Put(s, s.cur[i].node, false), i, Idle, true))
  {
    var n := s.cur[i].node;
    assert CountOk(s, n);
    assert i in Holders(s.cur, n);
    PutTied(s, n, false);
    PutClosed(s, n, false);
    LandTied(Put(s, n, false), i, Idle, true);
    hide Tied, Closed, Without, IndexOf, LinkOf;
    var s' := Land(Put(s, n, false), i, Idle, true);
    forall m ensures CountOk(s', m) {
      assert CountOk(s, m);
      HoldersMove(s.cur, i, Idle, m);
    }
  }
}
