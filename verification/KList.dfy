/**
 klist.c over the doubly linked lists of list.h: struct klist with its nodes and iterators.  Each function stores links,
 counts and cursors, and what it does to the list they form is an atomic step of KListSpec.
 */
module KList {
  import opened Lists
  import opened KListSpec
  import opened KListRuns
  import opened KListShipped

  /** &k_list, the list_head that is no node. */
  const HEAD: Node := -1

  type Links = map<Node, Node>

  /** The list_head at place i of the ring: the head before the first and behind the last node. */
  function Place(l: seq<Node>, i: int): Node
    requires -1 <= i <= |l|
  {
    if 0 <= i < |l| then l[i] else HEAD
  }

  /** Places i and i + 1 are linked to each other. */
  ghost predicate Linked(next: Links, prev: Links, l: seq<Node>, i: int)
    requires -1 <= i < |l|
  {
    && Place(l, i) in next && next[Place(l, i)] == Place(l, i + 1)
    && Place(l, i + 1) in prev && prev[Place(l, i + 1)] == Place(l, i)
  }

  /** next and prev link the head and the nodes of l into one ring, in this order. */
  ghost predicate Ring(next: Links, prev: Links, l: seq<Node>) {
    HEAD !in l && Distinct(l) && forall i :: -1 <= i < |l| ==> Linked(next, prev, l, i)
  }

  lemma RingAt(next: Links, prev: Links, l: seq<Node>, i: int)
    requires Ring(next, prev, l) && -1 <= i < |l|
    ensures Place(l, i) in next && next[Place(l, i)] == Place(l, i + 1)
    ensures Place(l, i + 1) in prev && prev[Place(l, i + 1)] == Place(l, i)
  {
    assert Linked(next, prev, l, i);
  }

  /** The links of a node outside the ring do not matter. */
  lemma RingFrame(next: Links, prev: Links, l: seq<Node>, n: Node, p: Node, q: Node)
    requires Ring(next, prev, l) && n !in l && n != HEAD
    ensures Ring(next[n := q], prev[n := p], l)
  {
    var next', prev' := next[n := q], prev[n := p];
    forall i | -1 <= i < |l| ensures Linked(next', prev', l, i) {
      assert Linked(next, prev, l, i);
      assert (0 <= i ==> l[i] in l) && (i + 1 < |l| ==> l[i + 1] in l);
    }
  }

  /** __list_add between places k - 1 and k of the ring. */
  lemma RingInsert(next: Links, prev: Links, l: seq<Node>, k: int, n: Node)
    requires Ring(next, prev, l) && 0 <= k <= |l| && n !in l && n != HEAD
    ensures Ring(next[n := Place(l, k)][Place(l, k - 1) := n], prev[Place(l, k) := n][n := Place(l, k - 1)],
                 Insert(l, k, n))
  {
    var next' := next[n := Place(l, k)][Place(l, k - 1) := n];
    var prev' := prev[Place(l, k) := n][n := Place(l, k - 1)];
    var w := Insert(l, k, n);
    InsertFacts(l, k, n);
    forall i | -1 <= i < |w| ensures Linked(next', prev', w, i) {
      InsertPlaces(l, k, n, i);
      if i < k - 1 { RingAt(next, prev, l, i); }
      if i > k { RingAt(next, prev, l, i - 1); }
    }
  }

  lemma InsertPlaces(l: seq<Node>, k: int, n: Node, i: int)
    requires Distinct(l) && HEAD !in l && 0 <= k <= |l| && n !in l && n != HEAD && -1 <= i < |l| + 1
    ensures |Insert(l, k, n)| == |l| + 1
    ensures Place(Insert(l, k, n), i) == if i < k then Place(l, i) else if i == k then n else Place(l, i - 1)
    ensures Place(Insert(l, k, n), i + 1) ==
            if i + 1 < k then Place(l, i + 1) else if i + 1 == k then n else Place(l, i)
    ensures i < k - 1 ==>
              && Place(l, i) != Place(l, k - 1) && Place(l, i) != n
              && Place(l, i + 1) != n && Place(l, i + 1) != Place(l, k)
    ensures i > k ==>
              && Place(l, i - 1) != Place(l, k - 1) && Place(l, i - 1) != n
              && Place(l, i) != n && Place(l, i) != Place(l, k)
    ensures Place(l, k) != n && Place(l, k - 1) != n
  {
    assert i < k - 1 && 0 <= i ==> l[i] in l;
    assert forall j :: 0 <= j < |l| ==> l[j] in l && l[j] != n && l[j] != HEAD;
  }

  /** __list_del around place k of the ring. */
  lemma RingRemove(next: Links, prev: Links, l: seq<Node>, k: int)
    requires Ring(next, prev, l) && 0 <= k < |l|
    ensures Ring(next[Place(l, k - 1) := Place(l, k + 1)], prev[Place(l, k + 1) := Place(l, k - 1)], Without(l, k))
  {
    var next' := next[Place(l, k - 1) := Place(l, k + 1)];
    var prev' := prev[Place(l, k + 1) := Place(l, k - 1)];
    var w := Without(l, k);
    RemoveFacts(l, k);
    forall i | -1 <= i < |w| ensures Linked(next', prev', w, i) {
      RemovePlaces(l, k, i);
      if i < k { RingAt(next, prev, l, i); }
      if i >= k { RingAt(next, prev, l, i + 1); }
    }
  }

  lemma RemovePlaces(l: seq<Node>, k: int, i: int)
    requires Distinct(l) && HEAD !in l && 0 <= k < |l| && -1 <= i < |l| - 1
    ensures |Without(l, k)| == |l| - 1
    ensures Place(Without(l, k), i) == if i < k then Place(l, i) else Place(l, i + 1)
    ensures Place(Without(l, k), i + 1) == if i + 1 < k then Place(l, i + 1) else Place(l, i + 2)
    ensures i < k - 1 ==> Place(l, i) != Place(l, k - 1) && Place(l, i + 1) != Place(l, k + 1)
    ensures i >= k ==> Place(l, i + 1) != Place(l, k - 1) && Place(l, i + 2) != Place(l, k + 1)
  {
    assert forall j :: 0 <= j < |l| ==> l[j] in l && l[j] != HEAD;
  }

  /** The list_head a link leads to. */
  function Ref(c: Cursor): Node {
    if c.At? then c.node else HEAD
  }

  /** Unlinked nodes keep the next link they had when they were unlinked. */
  ghost predicate Loose(next: Links, stale: map<Node, Cursor>, l: seq<Node>) {
    HEAD !in stale && forall n :: n in stale ==> n !in l && n in next && next[n] == Ref(stale[n])
  }

  /** The invariant that the steps keep, for either kref_get. */
  ghost predicate Sound(s: State, counting: bool) {
    if counting then Counted(s) else Single(s)
  }

  lemma SoundStep(s: State, op: Op, counting: bool)
    requires Sound(s, counting) && Legal(s, op, counting) && !Faults(s, op)
    ensures Sound(Step(s, op, counting), counting)
  {
    hide Counted, Single, Step, Legal, Faults;
    if counting { StepKeeps(s, op); } else { LinkedStep(s, op, 0); }
  }

  lemma SoundFacts(s: State, counting: bool)
    requires Sound(s, counting)
    ensures Tied(s) && Closed(s)
  {
  }

  /** Only a linked node has a count of 1. */
  lemma SoundRef(s: State, counting: bool, n: Node)
    requires Sound(s, counting)
    ensures RefOf(s, n) == 1 ==> n in s.list
  {
    if counting { assert CountOk(s, n); } else { assert SingleAt(s, n); }
  }

  lemma HomeIs(s: State, n: Node)
    requires Tied(s)
    ensures n in s.home <==> n in s.list
    ensures n in s.dead ==> n in s.list
  {
  }

  lemma StandsOnKnown(s: State, i: Iter)
    requires Closed(s) && i in s.cur && s.cur[i].At?
    ensures Known(s, s.cur[i].node)
  {
  }

  /** The next link of any node that has been added, linked or not. */
  lemma NextAt(next: Links, prev: Links, s: State, n: Node)
    requires Ring(next, prev, s.list) && Loose(next, s.stale, s.list) && Known(s, n)
    ensures n in next && next[n] == Ref(LinkOf(s, At(n)))
  {
    if n in s.list { RingAt(next, prev, s.list, IndexOf(s.list, n)); }
  }

  lemma HeadAt(next: Links, prev: Links, s: State)
    requires Ring(next, prev, s.list)
    ensures HEAD in next && next[HEAD] == Ref(LinkOf(s, Idle))
  {
    RingAt(next, prev, s.list, -1);
  }

  /** The loop of klist_next finds the same node before and after the last node is put. */
  lemma PassAfterPut(s: State, n: Node)
    requires Tied(s) && (RefOf(s, n) == 1 ==> n in s.list)
    ensures PassDead(Put(s, n, false), LinkOf(s, At(n))) == PassDead(s, LinkOf(s, At(n)))
  {
    if RefOf(s, n) == 1 {
      PassUnlinked(s.list, s.dead, IndexOf(s.list, n));
    }
  }

  /** With node k unlinked, its successor has its place, and the search from there finds the same node. */
  lemma PassUnlinked(l: seq<Node>, dead: set<Node>, k: int)
    requires Distinct(l) && 0 <= k < |l|
    ensures k + 1 < |l| ==>
              var w := Without(l, k);
              && l[k + 1] in w && l[k + 1] in l && Before(w, l[k + 1]) == k && Before(l, l[k + 1]) == k + 1
              && FirstLive(w, dead - {l[k]}, k) == FirstLive(l, dead, k + 1)
  {
    if k + 1 < |l| {
      var w := Without(l, k);
      RemoveFacts(l, k);
      assert w[k] == l[k + 1];
      SuffixLive(l, dead, k, k);
    }
  }

  lemma {:induction false} SuffixLive(l: seq<Node>, dead: set<Node>, k: int, j: int)
    requires Distinct(l) && 0 <= k < |l| && k <= j
    ensures FirstLive(Without(l, k), dead - {l[k]}, j) == FirstLive(l, dead, j + 1)
    decreases |l| - j
  {
    if j < |l| - 1 {
      assert Without(l, k)[j] == l[j + 1] != l[k];
      SuffixLive(l, dead, k, j + 1);
    }
  }

  lemma EndOfRing(l: seq<Node>, j: int)
    requires HEAD !in l && 0 <= j <= |l| && Place(l, j) == HEAD
    ensures j == |l|
  {
  }

  lemma NotOwnNeighbour(l: seq<Node>, k: int)
    requires Distinct(l) && HEAD !in l && 0 <= k < |l|
    ensures Place(l, k) != Place(l, k - 1) && Place(l, k) != Place(l, k + 1)
  {
    assert l[k] in l;
  }

  /** The link of place k leads to place k + 1. */
  lemma LinkPlace(s: State, n: Node)
    requires n in s.list
    ensures Ref(LinkOf(s, At(n))) == Place(s.list, IndexOf(s.list, n) + 1)
  {
  }

  lemma RingNodes(next: Links, prev: Links, l: seq<Node>)
    requires Ring(next, prev, l)
    ensures HEAD !in l && Distinct(l)
  {
  }

  lemma LooseInsert(next: Links, stale: map<Node, Cursor>, l: seq<Node>, k: int, n: Node)
    requires Loose(next, stale, l) && Distinct(l) && 0 <= k <= |l| && n !in l && n !in stale
    ensures Loose(next[n := Place(l, k)][Place(l, k - 1) := n], stale, Insert(l, k, n))
  {
    InsertFacts(l, k, n);
    assert 0 <= k - 1 ==> l[k - 1] in l;
  }

  lemma LooseRemove(next: Links, stale: map<Node, Cursor>, l: seq<Node>, k: int, c: Cursor)
    requires Loose(next, stale, l) && Distinct(l) && HEAD !in l && 0 <= k < |l| && l[k] in next && next[l[k]] == Ref(c)
    ensures Loose(next[Place(l, k - 1) := next[l[k]]], stale[l[k] := c], Without(l, k))
  {
    RemoveFacts(l, k);
    assert l[k] in l && (0 <= k - 1 ==> l[k - 1] in l);
  }

  lemma LooseInit(next: Links, stale: map<Node, Cursor>, l: seq<Node>, n: Node)
    requires Loose(next, stale, l)
    ensures Loose(next[n := n], stale - {n}, l)
  {
  }

  /** Dead marks and counts say nothing of links. */
  lemma SameLink(s: State, dead: set<Node>, n: Node)
    ensures forall ref :: LinkOf(s.(ref := ref, dead := dead), At(n)) == LinkOf(s, At(n))
    ensures LinkOf(s.(dead := dead), At(n)) == LinkOf(s, At(n))
  {
  }

  lemma NextParts(s: State, i: Iter)
    requires i in s.cur
    ensures NextOf(s, i) == PassDead(s, LinkOf(s, s.cur[i]))
    ensures forall counting ::
      Step(s, KListSpec.Next(i), counting) == Land(KListSpec.Leave(s, s.cur[i]), i, NextOf(s, i), counting)
    ensures forall counting ::
      var t := Step(s, KListSpec.Next(i), counting); t.cur == s.cur[i := NextOf(s, i)] && t.gets == s.gets
  {
  }

  lemma SameLists(s: State, t: State, c: Cursor)
    requires s.list == t.list && s.dead == t.dead && s.stale == t.stale
    ensures PassDead(s, c) == PassDead(t, c) && (c.At? ==> (Known(s, c.node) <==> Known(t, c.node)))
  {
  }

  /** After leaving n: no dead node is unlinked, and the search goes on as if n had not been put. */
  lemma AfterLeave(s: State, n: Node)
    requires Tied(s) && Closed(s) && (RefOf(s, n) == 1 ==> n in s.list)
    ensures PassDead(Put(s, n, false), LinkOf(s, At(n))) == PassDead(s, LinkOf(s, At(n)))
    ensures forall m :: m in Put(s, n, false).dead ==> m in Put(s, n, false).list
    ensures forall m :: Known(s, m) ==> Known(Put(s, n, false), m)
  {
    PassAfterPut(s, n);
    PutTied(s, n, false);
    hide LinkOf, Without, IndexOf;
  }

  lemma NoDeadOutside(s: State)
    requires Tied(s)
    ensures forall m :: m in s.dead ==> m in s.list
  {
  }

  lemma LinkLeads(next: Links, prev: Links, s: State, c: Cursor)
    requires Closed(s) && Ring(next, prev, s.list) && Loose(next, s.stale, s.list)
    ensures var q := LinkOf(s, c); q.At? ==> Known(s, q.node) && q.node != HEAD
  {
  }

  lemma StartPlace(l: seq<Node>, c: Cursor)
    requires HEAD !in l
    ensures if c.At? then c.node in l ==> Place(l, Before(l, c.node)) == c.node else Place(l, |l|) == HEAD
  {
  }

  lemma PlaceIn(l: seq<Node>, j: int)
    requires 0 <= j <= |l|
    ensures if j < |l| then Place(l, j) == l[j] && l[j] in l else Place(l, j) == HEAD
  {
  }

  lemma InsertEnds(l: seq<Node>, n: Node)
    ensures Insert(l, 0, n) == [n] + l && Insert(l, |l|, n) == l + [n]
  {
  }

  lemma InsertBeside(l: seq<Node>, n: Node, pos: Node)
    requires Distinct(l) && pos in l
    ensures forall k :: 0 <= k < |l| && l[k] == pos ==>
              && Insert(l, IndexOf(l, pos) + 1, n) == l[..k + 1] + [n] + l[k + 1..]
              && Insert(l, IndexOf(l, pos), n) == l[..k] + [n] + l[k..]
  {
  }

  lemma LinkedIsCounted(s: State, n: Node)
    requires Sound(s, true) && n in s.list
    ensures n in s.ref && s.ref[n] > 0
  {
    assert CountOk(s, n);
  }

  class Klist {
    /** Whether kref_get increments; in the shipped kref.h it does not. */
    const counting: bool
    /** n_node.next and n_node.prev of each node, and the head's */
    var next: Links
    var prev: Links
    /** n_ref of each node */
    var ref: map<Node, int>
    /** The nodes with KNODE_DEAD set */
    var dead: set<Node>
    /** The nodes whose n_klist is not NULL */
    var home: set<Node>
    /** i_cur of each iterator */
    var cur: map<Iter, Cursor>
    var gets: multiset<Node>
    var puts: multiset<Node>
    /** The nodes in the order of the links */
    ghost var list: seq<Node>
    /** Where the next links of unlinked nodes lead */
    ghost var stale: map<Node, Cursor>

    /** What the links say. */
    ghost predicate Wired()
      reads this
    {
      Ring(next, prev, list) && Loose(next, stale, list)
    }

    ghost predicate Valid()
      reads this
    {
      Wired() && Sound(View(), counting)
    }

    ghost function View(): State
      reads this
    {
      State(list, ref, dead, home, stale, cur, gets, puts)
    }

    /** klist_init */
    constructor (counting: bool)
      ensures Valid() && View() == EMPTY && this.counting == counting
    {
      this.counting := counting;
      next, prev := map[HEAD := HEAD], map[HEAD := HEAD];
      ref, dead, home, cur, gets, puts := map[], {}, {}, map[], multiset{}, multiset{};
      list, stale := [], map[];
      EmptyCounted();
      EmptySingle();
    }

    /** __list_add: n goes between two neighbouring places. */
    method LinkBetween(n: Node, p: Node, q: Node, ghost k: int)
      requires Wired() && 0 <= k <= |list| && p == Place(list, k - 1) && q == Place(list, k)
      requires n !in list && n !in stale && n != HEAD
      modifies this`next, this`prev, this`list
      ensures Wired() && list == Insert(old(list), k, n)
    {
      RingInsert(next, prev, list, k, n);
      LooseInsert(next, stale, list, k, n);
      hide Ring, Insert, Loose;
      prev := prev[q := n];
      next := next[n := q];
      prev := prev[n := p];
      next := next[p := n];
      list := Insert(list, k, n);
    }

    /** list_add: right after the list_head h. */
    method ListAdd(n: Node, h: Node, ghost k: int)
      requires Wired() && 0 <= k <= |list| && h == Place(list, k - 1) && n !in list && n !in stale && n != HEAD
      modifies this`next, this`prev, this`list
      ensures Wired() && list == Insert(old(list), k, n)
    {
      RingAt(next, prev, list, k - 1);
      hide Ring, Insert, Loose;
      LinkBetween(n, h, next[h], k);
    }

    /** list_add_tail: right before the list_head h. */
    method ListAddTail(n: Node, h: Node, ghost k: int)
      requires Wired() && 0 <= k <= |list| && h == Place(list, k) && n !in list && n !in stale && n != HEAD
      modifies this`next, this`prev, this`list
      ensures Wired() && list == Insert(old(list), k, n)
    {
      RingAt(next, prev, list, k - 1);
      hide Ring, Insert, Loose;
      LinkBetween(n, prev[h], h, k);
    }

    /** list_del: its neighbours point to each other; its own links stay as they are. */
    method ListDel(n: Node)
      requires Wired() && n in list
      modifies this`next, this`prev, this`list, this`stale
      ensures Wired() && list == Unlinked(old(list), n)
      ensures stale == old(stale)[n := LinkOf(old(View()), At(n))]
      ensures n in old(next) && n in next && next[n] == old(next[n])
    {
      hide Ring, Loose, Without, LinkOf;
      ghost var k, c := IndexOf(list, n), LinkOf(View(), At(n));
      RingNodes(next, prev, list);
      RingAt(next, prev, list, k - 1);
      RingAt(next, prev, list, k);
      RingRemove(next, prev, list, k);
      NotOwnNeighbour(list, k);
      NextAt(next, prev, View(), n);
      LooseRemove(next, stale, list, k, c);
      var p, q := prev[n], next[n];
      prev := prev[q := p];
      next := next[p := q];
      list, stale := Without(list, k), stale[n := c];
    }

    /** klist_node_init */
    method NodeInit(n: Node)
      requires Wired() && n !in list && n != HEAD
      modifies this`next, this`prev, this`ref, this`dead, this`home, this`gets, this`stale
      ensures Wired()
      ensures ref == old(ref)[n := 1] && dead == old(dead) - {n} && home == old(home) + {n}
      ensures stale == old(stale) - {n} && gets == old(gets) + multiset{n}
    {
      RingFrame(next, prev, list, n, n, n);
      LooseInit(next, stale, list, n);
      hide Ring, Loose;
      next, prev := next[n := n], prev[n := n];
      ref := ref[n := 1];
      dead := dead - {n};
      home := home + {n};
      gets := gets + multiset{n};
      stale := stale - {n};
    }

    /** klist_add_head */
    method AddHead(n: Node)
      requires Valid() && Legal(View(), KListSpec.AddHead(n), counting) && n != HEAD
      modifies this
      ensures Valid() && View() == Step(old(View()), KListSpec.AddHead(n), counting)
      ensures list == [n] + old(list)
      ensures ref == old(ref)[n := 1] && dead == old(dead) - {n} && home == old(home) + {n} && cur == old(cur)
      ensures gets == old(gets) + multiset{n} && puts == old(puts)
    {
      hide Ring, Loose, Sound, Insert;
      SoundStep(View(), KListSpec.AddHead(n), counting);
      InsertEnds(list, n);
      NodeInit(n);
      ListAdd(n, HEAD, 0);
    }

    /** klist_add_tail */
    method AddTail(n: Node)
      requires Valid() && Legal(View(), KListSpec.AddTail(n), counting) && n != HEAD
      modifies this
      ensures Valid() && View() == Step(old(View()), KListSpec.AddTail(n), counting)
      ensures list == old(list) + [n]
      ensures ref == old(ref)[n := 1] && dead == old(dead) - {n} && home == old(home) + {n} && cur == old(cur)
      ensures gets == old(gets) + multiset{n} && puts == old(puts)
    {
      hide Ring, Loose, Sound, Insert;
      SoundStep(View(), KListSpec.AddTail(n), counting);
      InsertEnds(list, n);
      NodeInit(n);
      ListAddTail(n, HEAD, |list|);
    }

    /** klist_add_after; false where the source goes to the list of a node that has none. */
    method AddAfter(n: Node, pos: Node) returns (ok: bool)
      requires Valid() && Legal(View(), KListSpec.AddAfter(n, pos), counting) && n != HEAD
      modifies this
      ensures Valid() && ok == (pos in old(list)) == !Faults(old(View()), KListSpec.AddAfter(n, pos))
      ensures ok ==> View() == Step(old(View()), KListSpec.AddAfter(n, pos), counting)
      ensures forall k :: ok && 0 <= k < |old(list)| && old(list)[k] == pos ==>
                            list == old(list)[..k + 1] + [n] + old(list)[k + 1..]
      ensures ok ==>
                && ref == old(ref)[n := 1] && dead == old(dead) - {n} && home == old(home) + {n} && cur == old(cur)
                && gets == old(gets) + multiset{n} && puts == old(puts)
      ensures !ok ==> View() == old(View())
    {
      hide Ring, Loose, Sound, Insert, IndexOf;
      SoundFacts(View(), counting);
      HomeIs(View(), pos);
      if pos !in home {
        return false;
      }
      SoundStep(View(), KListSpec.AddAfter(n, pos), counting);
      InsertBeside(list, n, pos);
      NodeInit(n);
      ListAdd(n, pos, IndexOf(list, pos) + 1);
      return true;
    }

    /** klist_add_before; false where the source goes to the list of a node that has none. */
    method AddBefore(n: Node, pos: Node) returns (ok: bool)
      requires Valid() && Legal(View(), KListSpec.AddBefore(n, pos), counting) && n != HEAD
      modifies this
      ensures Valid() && ok == (pos in old(list)) == !Faults(old(View()), KListSpec.AddBefore(n, pos))
      ensures ok ==> View() == Step(old(View()), KListSpec.AddBefore(n, pos), counting)
      ensures forall k :: ok && 0 <= k < |old(list)| && old(list)[k] == pos ==>
                            list == old(list)[..k] + [n] + old(list)[k..]
      ensures ok ==>
                && ref == old(ref)[n := 1] && dead == old(dead) - {n} && home == old(home) + {n} && cur == old(cur)
                && gets == old(gets) + multiset{n} && puts == old(puts)
      ensures !ok ==> View() == old(View())
    {
      hide Ring, Loose, Sound, Insert, IndexOf;
      SoundFacts(View(), counting);
      HomeIs(View(), pos);
      if pos !in home {
        return false;
      }
      SoundStep(View(), KListSpec.AddBefore(n, pos), counting);
      InsertBeside(list, n, pos);
      NodeInit(n);
      ListAddTail(n, pos, IndexOf(list, pos));
      return true;
    }

    /** klist_node_attached */
    method NodeAttached(n: Node) returns (attached: bool)
      requires Valid()
      ensures attached == (n in list)
    {
      hide Sound, Wired;
      SoundFacts(View(), counting);
      HomeIs(View(), n);
      attached := n in home;
    }

    /** klist_dec_and_del: true when the last reference is gone and klist_release has unlinked the node. */
    method DecAndDel(n: Node) returns (gone: bool)
      requires Wired() && (RefOf(View(), n) == 1 ==> n in list)
      modifies this`next, this`prev, this`list, this`stale, this`ref, this`dead, this`home
      ensures Wired() && gone == (RefOf(old(View()), n) == 1) && ref == old(ref)[n := RefOf(old(View()), n) - 1]
      ensures gone ==>
                && list == Unlinked(old(list), n) && dead == old(dead) - {n} && home == old(home) - {n}
                && stale == old(stale)[n := LinkOf(old(View()), At(n))]
      ensures !gone ==> list == old(list) && dead == old(dead) && home == old(home) && stale == old(stale)
    {
      hide Ring, Loose, Unlinked;
      ghost var s := View();
      ref := ref[n := (if n in ref then ref[n] else 0) - 1];
      if ref[n] == 0 {
        ListDel(n);
        dead := dead - {n};
        home := home - {n};
        return true;
      }
      return false;
    }

    /** klist_put; false where the source goes to the list of a node that has none. */
    method PutNode(n: Node, kill: bool) returns (ok: bool)
      requires Wired() && (RefOf(View(), n) == 1 ==> n in list)
      modifies this`next, this`prev, this`list, this`stale, this`ref, this`dead, this`home, this`puts
      ensures ok == (n in old(home)) && Wired() && View() == if ok then Put(old(View()), n, kill) else old(View())
    {
      hide Ring, Loose, Unlinked, LinkOf;
      if n !in home {
        return false;
      }
      ghost var s := View();
      SameLink(s, dead + {n}, n);
      if kill {
        dead := dead + {n};
      }
      var gone := DecAndDel(n);
      if gone {
        puts := puts + multiset{n};
      }
      SameLink(s, if kill then s.dead + {n} else s.dead, n);
      return true;
    }

    /** klist_del */
    method Del(n: Node) returns (ok: bool)
      requires Valid() && Legal(View(), KListSpec.Del(n), counting)
      modifies this
      ensures Valid() && ok == (n in old(list)) == !Faults(old(View()), KListSpec.Del(n))
      ensures View() == if ok then Step(old(View()), KListSpec.Del(n), counting) else old(View())
    {
      hide Ring, Loose, Sound, Put;
      SoundFacts(View(), counting);
      SoundRef(View(), counting, n);
      HomeIs(View(), n);
      if n in home { SoundStep(View(), KListSpec.Del(n), counting); }
      ok := PutNode(n, true);
    }

    method KrefGetNode(n: Node)
      modifies this`ref
      ensures ref == KrefGet(old(View()), n, counting)
    {
      if counting {
        ref := ref[n := (if n in ref then ref[n] else 0) + 1];
      }
    }

    /** klist_iter_init_node; klist_iter_init passes Idle. */
    method IterInitNode(i: Iter, start: Cursor)
      requires Valid() && Legal(View(), InitNode(i, start), counting)
      modifies this
      ensures Valid() && View() == Step(old(View()), InitNode(i, start), counting)
      ensures cur == old(cur)[i := start] && list == old(list) && dead == old(dead) && home == old(home)
      ensures gets == old(gets) && puts == old(puts)
      ensures start.At? && counting ==>
                start.node in old(ref) && ref == old(ref)[start.node := old(ref)[start.node] + 1]
      ensures start.Idle? || !counting ==> ref == old(ref)
    {
      hide Ring, Loose, Sound;
      SoundStep(View(), InitNode(i, start), counting);
      if start.At? && counting { LinkedIsCounted(View(), start.node); }
      cur := cur[i := start];
      if start.At? {
        KrefGetNode(start.node);
      }
    }

    /** klist_iter_exit; false where the source goes to the list of a node that has none. */
    method IterExit(i: Iter) returns (ok: bool)
      requires Valid() && Legal(View(), Exit(i), counting)
      modifies this
      ensures Valid() && ok == (old(cur[i]).At? ==> old(cur[i]).node in old(list)) == !Faults(old(View()), Exit(i))
      ensures View() == if ok then Step(old(View()), Exit(i), counting) else old(View())
      ensures ok ==> cur == old(cur)[i := Idle] && gets == old(gets)
    {
      hide Ring, Loose, Sound, Put;
      SoundFacts(View(), counting);
      ok := true;
      if cur[i].At? {
        var n := cur[i].node;
        SoundRef(View(), counting, n);
        HomeIs(View(), n);
        if n in home { SoundStep(View(), Exit(i), counting); }
        ok := PutNode(n, false);
      } else {
        SoundStep(View(), Exit(i), counting);
      }
      if ok {
        cur := cur[i := Idle];
      }
    }

    /** The loop of klist_next, from any list_head on. */
    method SkipDead(start: Node, ghost c: Cursor) returns (r: Cursor)
      requires Wired() && start == Ref(c) && (c.At? ==> Known(View(), c.node) && c.node != HEAD)
      requires forall n :: n in dead ==> n in list
      ensures r == PassDead(View(), c)
    {
      hide Ring, Loose, Place;
      RingNodes(next, prev, list);
      var node := start;
      ghost var j := if c.At? then Before(list, c.node) else |list|;
      StartPlace(list, c);
      while node != HEAD
        invariant 0 <= j <= |list| && (node == Place(list, j) || (c == At(node) && node !in list))
        invariant node in list || node == HEAD ==> PassDead(View(), c) == FirstLive(list, dead, j)
        decreases |list| - j
      {
        PlaceIn(list, j);
        if node !in dead {
          return At(node);
        }
        RingAt(next, prev, list, j);
        node := next[node];
        j := j + 1;
        PlaceIn(list, j);
      }
      EndOfRing(list, j);
      return Idle;
    }

    /** The first part of klist_next: note where the next link leads, then drop the reference to the last node. */
    method Leave(n: Node) returns (node: Node, gone: bool)
      requires Valid() && Known(View(), n)
      modifies this`next, this`prev, this`list, this`stale, this`ref, this`dead, this`home
      ensures Wired() && node == Ref(LinkOf(old(View()), At(n))) && gone == (RefOf(old(View()), n) == 1)
      ensures View().(puts := old(puts) + if gone then multiset{n} else multiset{}) == Put(old(View()), n, false)
    {
      hide Ring, Loose, Sound, Unlinked, LinkOf;
      SoundRef(View(), counting, n);
      NextAt(next, prev, View(), n);
      ghost var s := View();
      node := next[n];
      gone := DecAndDel(n);
      SameLink(s, s.dead, n);
    }

    /** The same, from the list head if there is no last node. */
    method Depart(last: Cursor) returns (node: Node, put: bool)
      requires Valid() && (last.At? ==> Known(View(), last.node))
      modifies this`next, this`prev, this`list, this`stale, this`ref, this`dead, this`home
      ensures Wired() && put == (last.At? && RefOf(old(View()), last.node) == 1)
      ensures View().(puts := old(puts) + if put then multiset{last.node} else multiset{})
           == KListSpec.Leave(old(View()), last)
      ensures var c := LinkOf(old(View()), last);
        && node == Ref(c) && (c.At? ==> Known(View(), c.node) && c.node != HEAD)
        && PassDead(View(), c) == PassDead(old(View()), c)
      ensures forall m :: m in dead ==> m in list
    {
      hide Ring, Loose, Sound, Put, LinkOf, PassDead, Known;
      ghost var s := View();
      SoundFacts(s, counting);
      LinkLeads(next, prev, s, last);
      if last.At? {
        SoundRef(s, counting, last.node);
        node, put := Leave(last.node);
        AfterLeave(s, last.node);
        SameLists(View(), Put(s, last.node, false), LinkOf(s, last));
      } else {
        HeadAt(next, prev, s);
        NoDeadOutside(s);
        node, put := next[HEAD], false;
      }
    }

    /** The last part of klist_next: store the node found, take a reference to it, and call put for the last node. */
    method Arrive(i: Iter, r: Cursor, last: Cursor, put: bool)
      requires Wired() && (put ==> last.At?)
      modifies this`cur, this`ref, this`puts
      ensures Wired()
      ensures var t := old(View()).(puts := old(puts) + if put then multiset{last.node} else multiset{});
        View() == Land(t, i, r, counting)
    {
      hide Ring, Loose;
      cur := cur[i := r];
      if r.At? {
        KrefGetNode(r.node);
      }
      if put && last.At? {
        puts := puts + multiset{last.node};
      }
    }

    /** klist_next: leave the last node, linked or not, and stop at the next one that is not dead. */
    method Next(i: Iter) returns (r: Cursor)
      requires Valid() && Legal(View(), KListSpec.Next(i), counting)
      modifies this
      ensures Valid() && View() == Step(old(View()), KListSpec.Next(i), counting) && r == NextOf(old(View()), i)
      ensures cur == old(cur)[i := r] && gets == old(gets)
    {
      hide Ring, Loose, Sound, LinkOf, PassDead, Known, KListSpec.Leave, Land, KrefGet, NextOf, Step;
      ghost var s := View();
      SoundStep(s, KListSpec.Next(i), counting);
      SoundFacts(s, counting);
      var last := cur[i];
      if last.At? { StandsOnKnown(s, i); }
      var node, put := Depart(last);
      r := SkipDead(node, LinkOf(s, last));
      Arrive(i, r, last, put);
      NextParts(s, i);
    }
  }
}
