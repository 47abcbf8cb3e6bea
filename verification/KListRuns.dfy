/** Whole runs of klist steps with a kref_get that counts: the references, and what an iteration returns. */
module KListRuns {
  import opened Lists
  import opened KListSpec

  /** Moving on is leaving the old node and then landing on the next one. */
  lemma NextInTwo(s: State, i: Iter)
    requires Counted(s) && Legal(s, Next(i), true) && s.cur[i].At?
    ensures var n := s.cur[i].node;
      Step(s, Next(i), true) == Land(Land(Put(s, n, false), i, Idle, true), i, NextOf(s, i), true)
  {
    var n, c := s.cur[i].node, NextOf(s, i);
    var t := Put(s, n, false);
    assert t.cur[i := Idle][i := c] == t.cur[i := c];
  }

  lemma StandsInList(s: State, i: Iter)
    requires Counted(s) && i in s.cur && s.cur[i].At?
    ensures s.cur[i].node in s.list
  {
    assert CountOk(s, s.cur[i].node);
    assert i in Holders(s.cur, s.cur[i].node);
  }

  lemma CountedDistinct(s: State)
    requires Counted(s)
    ensures Distinct(s.list)
  {
  }

  lemma NodeHome(s: State, n: Node)
    requires Counted(s)
    ensures n in s.home <==> n in s.list
  {
  }

  /** With a kref_get that counts an iterator can always be exited: the node it stands on still names its list. */
  lemma ExitReaches(s: State, i: Iter)
    requires Counted(s)
    ensures !Faults(s, Exit(i))
  {
    if i in s.cur && s.cur[i].At? { StandsInList(s, i); }
  }

  /** The node klist_next lands on is linked, not dead, and is not the one it leaves. */
  lemma NextLive(s: State, i: Iter)
    requires Counted(s) && Legal(s, Next(i), true) && NextOf(s, i).At?
    ensures var q := NextOf(s, i).node; q in s.list && q !in s.dead && s.cur[i] != At(q)
  {
    if s.cur[i].At? { StandsInList(s, i); }
    NextOfAt(s, i);
    var k := if s.cur[i].At? then IndexOf(s.list, s.cur[i].node) + 1 else 0;
    FirstLiveIs(s.list, s.dead, k);
  }

  lemma StepKeeps(s: State, op: Op)
    requires Counted(s) && Legal(s, op, true) && !Faults(s, op)
    ensures Counted(Step(s, op, true))
  {
    hide Counted, Attach, Put, Land;
    match op
    case AddHead(n) => AttachKeeps(s, n, 0);
    case AddTail(n) => AttachKeeps(s, n, |s.list|);
    case AddAfter(n, pos) => AttachKeeps(s, n, Behind(s.list, pos));
    case AddBefore(n, pos) => AttachKeeps(s, n, Before(s.list, pos));
    case Del(n) =>
      NodeHome(s, n);
      DelKeeps(s, n);
    case InitNode(i, start) => LandKeeps(s, i, start);
    case Exit(i) => if s.cur[i].At? { LeaveKeeps(s, i); } else { LandKeeps(s, i, Idle); }
    case Next(i) =>
      if NextOf(s, i).At? { NextLive(s, i); }
      if s.cur[i].At? {
        LeaveKeeps(s, i);
        NextInTwo(s, i);
        var t := Land(Put(s, s.cur[i].node, false), i, Idle, true);
        LeftList(s, i);
        LandKeeps(t, i, NextOf(s, i));
      } else {
        LandKeeps(s, i, NextOf(s, i));
      }
  }

  lemma LeftList(s: State, i: Iter)
    requires Counted(s) && i in s.cur && s.cur[i].At? && s.cur[i].node in s.list
    ensures var t := Land(Put(s, s.cur[i].node, false), i, Idle, true);
      && i in t.cur && t.cur[i] == Idle && forall m :: m in s.list && m != s.cur[i].node ==> m in t.list
  {
    RemoveFacts(s.list, IndexOf(s.list, s.cur[i].node));
  }

  /** klist_remove waits for klist_release, which has run with klist_del exactly when no iterator is on the node. */
  lemma RemoveAtOnce(s: State, n: Node)
    requires Counted(s) && Legal(s, Del(n), true) && !Faults(s, Del(n))
    ensures n !in Step(s, Del(n), true).list <==> Holders(s.cur, n) == {}
  {
    assert CountOk(s, n);
    RemoveFacts(s.list, IndexOf(s.list, n));
  }

  // --------------------------------------------------------------------------- runs

  /** tr lists the states that the operations go through. */
  ghost predicate Run(tr: seq<State>, ops: seq<Op>, counting: bool) {
    && |tr| == |ops| + 1
    && forall t :: 0 <= t < |ops| ==>
          Legal(tr[t], ops[t], counting) && !Faults(tr[t], ops[t]) && tr[t + 1] == Step(tr[t], ops[t], counting)
  }

  lemma RunLength(tr: seq<State>, ops: seq<Op>, counting: bool)
    requires Run(tr, ops, counting)
    ensures |tr| == |ops| + 1
  {
  }

  lemma RunAt(tr: seq<State>, ops: seq<Op>, counting: bool, t: int)
    requires Run(tr, ops, counting) && 0 <= t < |tr| - 1
    ensures |tr| == |ops| + 1
    ensures Legal(tr[t], ops[t], counting) && !Faults(tr[t], ops[t]) && tr[t + 1] == Step(tr[t], ops[t], counting)
  {
  }

  /** One more step. */
  lemma RunOn(tr: seq<State>, ops: seq<Op>, counting: bool, op: Op, s': State)
    requires Run(tr, ops, counting) && Legal(tr[|ops|], op, counting) && !Faults(tr[|ops|], op)
    requires s' == Step(tr[|ops|], op, counting)
    ensures Run(tr + [s'], ops + [op], counting)
  {
    hide Legal, Faults, Step;
  }

  /** Over every interleaving the counts are right in every state. */
  lemma {:induction false} RunCounted(tr: seq<State>, ops: seq<Op>, t: int)
    requires Run(tr, ops, true) && Counted(tr[0]) && 0 <= t < |tr|
    ensures Counted(tr[t])
    decreases t
  {
    if t > 0 {
      RunCounted(tr, ops, t - 1);
      StepKeeps(tr[t - 1], ops[t - 1]);
    }
  }

  lemma EmptyCounted()
    ensures Counted(EMPTY)
  {
    assert forall n :: Holders(EMPTY.cur, n) == {};
  }

  // ------------------------------------------------------------ the order of the list

  ghost predicate Precedes(l: seq<Node>, n: Node, m: Node) {
    exists a, b :: 0 <= a < b < |l| && l[a] == n && l[b] == m
  }

  /** Both lists order the nodes they share in the same way. */
  ghost predicate SameOrder(l: seq<Node>, l': seq<Node>) {
    forall n, m :: n in l && m in l && n in l' && m in l' ==> (Precedes(l, n, m) <==> Precedes(l', n, m))
  }

  lemma InsertOrder(l: seq<Node>, k: int, x: Node)
    requires 0 <= k <= |l| && Distinct(l) && x !in l
    ensures SameOrder(l, Insert(l, k, x))
  {
    forall n, m | n in l && m in l ensures Precedes(l, n, m) <==> Precedes(Insert(l, k, x), n, m) {
      InsertPair(l, k, x, n, m);
    }
  }

  lemma InsertAt(l: seq<Node>, k: int, x: Node, a: int)
    requires 0 <= k <= |l| && 0 <= a < |l| + 1
    ensures |Insert(l, k, x)| == |l| + 1
    ensures Insert(l, k, x)[a] == if a < k then l[a] else if a == k then x else l[a - 1]
  {
  }

  lemma InsertPair(l: seq<Node>, k: int, x: Node, n: Node, m: Node)
    requires 0 <= k <= |l| && x !in l && n in l && m in l
    ensures Precedes(l, n, m) <==> Precedes(Insert(l, k, x), n, m)
  {
    hide Insert;
    var w := Insert(l, k, x);
    InsertAt(l, k, x, k);
    if Precedes(l, n, m) {
      var a, b :| 0 <= a < b < |l| && l[a] == n && l[b] == m;
      var a', b' := if a < k then a else a + 1, if b < k then b else b + 1;
      InsertAt(l, k, x, a');
      InsertAt(l, k, x, b');
      assert w[a'] == n && w[b'] == m;
    }
    if Precedes(w, n, m) {
      var a', b' :| 0 <= a' < b' < |w| && w[a'] == n && w[b'] == m;
      InsertAt(l, k, x, a');
      InsertAt(l, k, x, b');
      var a, b := if a' < k then a' else a' - 1, if b' < k then b' else b' - 1;
      assert l[a] == n && l[b] == m;
    }
  }

  lemma RemoveOrder(l: seq<Node>, k: int)
    requires 0 <= k < |l| && Distinct(l)
    ensures SameOrder(l, Without(l, k))
  {
    RemoveFacts(l, k);
    var w := Without(l, k);
    assert Insert(w, k, l[k]) == l;
    InsertOrder(w, k, l[k]);
  }

  lemma PutOrder(s: State, n: Node, kill: bool)
    requires Distinct(s.list)
    ensures SameOrder(s.list, Put(s, n, kill).list)
  {
    hide SameOrder;
    SelfOrder(s.list);
    if n in s.list { RemoveOrder(s.list, IndexOf(s.list, n)); }
  }

  /** No step reorders the nodes that stay, with either kref_get. */
  lemma StepOrder(s: State, op: Op, counting: bool)
    requires Distinct(s.list) && Legal(s, op, counting) && !Faults(s, op)
    ensures SameOrder(s.list, Step(s, op, counting).list)
  {
    hide SameOrder, Put, Insert;
    SelfOrder(s.list);
    match op
    case AddHead(n) => InsertOrder(s.list, 0, n);
    case AddTail(n) => InsertOrder(s.list, |s.list|, n);
    case AddAfter(n, pos) => InsertOrder(s.list, Behind(s.list, pos), n);
    case AddBefore(n, pos) => InsertOrder(s.list, Before(s.list, pos), n);
    case Del(n) => PutOrder(s, n, true);
    case InitNode(i, start) =>
    case Exit(i) => if s.cur[i].At? { PutOrder(s, s.cur[i].node, false); }
    case Next(i) => if s.cur[i].At? { PutOrder(s, s.cur[i].node, false); }
  }

  lemma SelfOrder(l: seq<Node>)
    ensures SameOrder(l, l)
  {
  }

  // ------------------------------------------------------------------ a full iteration

  /** The nodes klist_next has returned to iterator i during the first t steps. */
  ghost function Returned(tr: seq<State>, ops: seq<Op>, i: Iter, t: int): seq<Node>
    requires 0 <= t <= |ops| < |tr|
  {
    if t == 0 then []
    else if ops[t - 1] == Next(i) && NextOf(tr[t - 1], i).At?
    then Returned(tr, ops, i, t - 1) + [NextOf(tr[t - 1], i).node]
    else Returned(tr, ops, i, t - 1)
  }

  /** During the first t steps iterator i is neither reset nor exited, and each klist_next finds a node. */
  ghost predicate Iterating(tr: seq<State>, ops: seq<Op>, i: Iter, t: int)
    requires 0 <= t <= |ops| < |tr|
  {
    forall k :: 0 <= k < t ==>
        !(ops[k].InitNode? && ops[k].i == i) && ops[k] != Exit(i) && (ops[k] == Next(i) ==> NextOf(tr[k], i).At?)
  }

  /** n is linked and not deleted in every state. */
  ghost predicate AliveThroughout(tr: seq<State>, n: Node) {
    forall t :: 0 <= t < |tr| ==> n in tr[t].list && n !in tr[t].dead
  }

  ghost predicate UpTo(l: seq<Node>, n: Node, m: Node) {
    n == m || Precedes(l, n, m)
  }

  /**
   Iterator i stands on the last node it returned; of the nodes in `a` it has returned exactly those
   up to there, each once and in list order.
   */
  ghost predicate Progress(s: State, i: Iter, r: seq<Node>, a: set<Node>) {
    && i in s.cur && s.cur[i] == (if r == [] then Idle else At(r[|r| - 1]))
    && (r != [] ==> forall n :: n in a ==> (n in r <==> UpTo(s.list, n, r[|r| - 1])))
    && (forall j, k :: 0 <= j < k < |r| && r[j] in a && r[k] in a ==> Precedes(s.list, r[j], r[k]))
  }

  /** A step that leaves iterator i alone. */
  lemma OthersStep(s: State, s': State, i: Iter, r: seq<Node>, a: set<Node>)
    requires Counted(s) && Counted(s') && Progress(s, i, r, a) && SameOrder(s.list, s'.list)
    requires i in s'.cur && s'.cur[i] == s.cur[i] && forall n :: n in a ==> n in s.list && n in s'.list
    ensures Progress(s', i, r, a)
  {
    if r != [] {
      var last := r[|r| - 1];
      StandsInList(s, i);
      StandsInList(s', i);
      forall n | n in a ensures n in r <==> UpTo(s'.list, n, last) {
        assert Precedes(s.list, n, last) <==> Precedes(s'.list, n, last);
      }
    }
  }

  /** Where klist_next goes, in terms of the order: everything in between is dead. */
  lemma NextOrder(s: State, i: Iter, n: Node)
    requires Counted(s) && Legal(s, Next(i), true) && n in s.list && n !in s.dead
    ensures var c := NextOf(s, i);
      && (s.cur[i].At? && c.At? ==> (UpTo(s.list, n, c.node) <==> UpTo(s.list, n, s.cur[i].node) || n == c.node))
      && (s.cur[i].At? && c.At? ==> !UpTo(s.list, c.node, s.cur[i].node))
      && (s.cur[i].At? && c.Idle? ==> UpTo(s.list, n, s.cur[i].node))
      && (s.cur[i].Idle? ==> c.At? && (UpTo(s.list, n, c.node) <==> n == c.node))
  {
    hide NextOf, Counted;
    CountedDistinct(s);
    if s.cur[i].At? { StandsInList(s, i); }
    NextOfAt(s, i);
    var l, d := s.list, IndexOf(s.list, n);
    if s.cur[i].At? {
      var p := IndexOf(l, s.cur[i].node);
      FirstLiveIs(l, s.dead, p + 1);
      PlaceOrder(l, d, p);
      if NextOf(s, i).At? {
        var q :| p + 1 <= q < |l| && l[q] == NextOf(s, i).node && forall j :: p + 1 <= j < q ==> l[j] in s.dead;
        PlaceOrder(l, d, q);
        PlaceOrder(l, q, p);
      }
    } else {
      FirstLiveIs(l, s.dead, 0);
      if NextOf(s, i).At? {
        var q :| 0 <= q < |l| && l[q] == NextOf(s, i).node && forall j :: 0 <= j < q ==> l[j] in s.dead;
        PlaceOrder(l, d, q);
      }
    }
  }

  lemma PlaceOrder(l: seq<Node>, a: int, b: int)
    requires Distinct(l) && 0 <= a < |l| && 0 <= b < |l|
    ensures Precedes(l, l[a], l[b]) <==> a < b
    ensures l[a] == l[b] <==> a == b
  {
  }

  /** A klist_next that finds a node. */
  lemma NextStep(s: State, i: Iter, r: seq<Node>, a: set<Node>)
    requires Counted(s) && Legal(s, Next(i), true) && NextOf(s, i).At? && Progress(s, i, r, a)
    requires forall n :: n in a ==> n in s.list && n !in s.dead
    ensures Progress(s.(cur := s.cur[i := NextOf(s, i)]), i, r + [NextOf(s, i).node], a)
  {
    var q := NextOf(s, i).node;
    var r' := r + [q];
    NextLive(s, i);
    forall n | n in a ensures n in r' <==> UpTo(s.list, n, q) {
      NextOrder(s, i, n);
      assert n in r' <==> n in r || n == q;
    }
    forall j, k | 0 <= j < k < |r'| && r'[j] in a && r'[k] in a ensures Precedes(s.list, r'[j], r'[k]) {
      if k == |r| {
        var n := r'[j];
        assert n == r[j] && n in r;
        NextOrder(s, i, n);
        assert UpTo(s.list, n, q);
        NextOrder(s, i, q);
      }
    }
  }

  lemma {:induction false} Iterate(tr: seq<State>, ops: seq<Op>, i: Iter, a: set<Node>, t: int)
    requires Run(tr, ops, true) && Counted(tr[0]) && i in tr[0].cur && tr[0].cur[i] == Idle
    requires 0 <= t <= |ops| && Iterating(tr, ops, i, t) && forall n :: n in a ==> AliveThroughout(tr, n)
    ensures Progress(tr[t], i, Returned(tr, ops, i, t), a)
    decreases t
  {
    if t > 0 {
      Iterate(tr, ops, i, a, t - 1);
      RunCounted(tr, ops, t - 1);
      assert forall n :: n in a ==>
               AliveThroughout(tr, n) && n in tr[t - 1].list && n !in tr[t - 1].dead && n in tr[t].list;
      hide Counted, Progress, AliveThroughout, NextOf, Step, Legal;
      IterateStep(tr[t - 1], ops[t - 1], i, Returned(tr, ops, i, t - 1), a);
    }
  }

  /** One step of a run, seen by iterator i. */
  lemma IterateStep(s: State, op: Op, i: Iter, r: seq<Node>, a: set<Node>)
    requires Counted(s) && Legal(s, op, true) && !Faults(s, op) && Progress(s, i, r, a)
    requires !(op.InitNode? && op.i == i) && op != Exit(i) && (op == Next(i) ==> NextOf(s, i).At?)
    requires forall n :: n in a ==> n in s.list && n !in s.dead && n in Step(s, op, true).list
    ensures Progress(Step(s, op, true), i, if op == Next(i) then r + [NextOf(s, i).node] else r, a)
  {
    var s' := Step(s, op, true);
    StepKeeps(s, op);
    StepOrder(s, op, true);
    if op == Next(i) {
      NextStep(s, i, r, a);
      NextCursor(s, i);
      NextLive(s, i);
      hide Counted, SameOrder, Progress, Step, NextOf;
      MovedList(s, s', i, r + [NextOf(s, i).node], a);
    } else {
      OtherCursor(s, op, i, r, a);
      hide Counted, SameOrder, Progress, Step, NextOf;
      OthersStep(s, s', i, r, a);
    }
  }

  lemma NextCursor(s: State, i: Iter)
    requires Legal(s, Next(i), true)
    ensures Step(s, Next(i), true).cur == s.cur[i := NextOf(s, i)]
  {
  }

  lemma OtherCursor(s: State, op: Op, i: Iter, r: seq<Node>, a: set<Node>)
    requires Legal(s, op, true) && !Faults(s, op) && Progress(s, i, r, a)
    requires op != Next(i) && op != Exit(i) && !(op.InitNode? && op.i == i)
    ensures i in s.cur && i in Step(s, op, true).cur && Step(s, op, true).cur[i] == s.cur[i]
  {
  }

  /** The list as klist_next leaves it. */
  lemma MovedList(s: State, s': State, i: Iter, r: seq<Node>, a: set<Node>)
    requires Counted(s) && Counted(s') && i in s.cur && i in s'.cur
    requires Progress(s.(cur := s.cur[i := s'.cur[i]]), i, r, a)
    requires SameOrder(s.list, s'.list) && s'.cur[i].At? && s'.cur[i].node in s.list
    requires r != [] && forall n :: n in a ==> n in s.list && n in s'.list
    ensures Progress(s', i, r, a)
  {
    var last := r[|r| - 1];
    StandsInList(s', i);
    forall n | n in a ensures n in r <==> UpTo(s'.list, n, last) {
      assert Precedes(s.list, n, last) <==> Precedes(s'.list, n, last);
    }
  }

  /**
   A full iteration, interleaved with any other steps: it returns each node that stays alive
   throughout exactly once, two such nodes in the order of the list, and never a dead node.
   */
  lemma FullIteration(tr: seq<State>, ops: seq<Op>, i: Iter)
    requires Run(tr, ops, true) && Counted(tr[0]) && i in tr[0].cur && tr[0].cur[i] == Idle
    requires |ops| > 0 && Iterating(tr, ops, i, |ops| - 1)
    requires ops[|ops| - 1] == Next(i) && NextOf(tr[|ops| - 1], i).Idle?
    ensures var r := Returned(tr, ops, i, |ops|);
      && (forall n :: AliveThroughout(tr, n) ==> n in r)
      && (forall n, j, k :: AliveThroughout(tr, n) && 0 <= j < |r| && 0 <= k < |r| && r[j] == n && r[k] == n ==> j == k)
      && (forall j, k :: 0 <= j < k < |r| && AliveThroughout(tr, r[j]) && AliveThroughout(tr, r[k]) ==>
             Precedes(tr[0].list, r[j], r[k]))
    ensures forall t :: 0 <= t < |ops| && ops[t] == Next(i) && NextOf(tr[t], i).At? ==>
                NextOf(tr[t], i).node !in tr[t].dead
  {
    var t, r := |ops| - 1, Returned(tr, ops, i, |ops|);
    forall n | AliveThroughout(tr, n) ensures n in r {
      Iterate(tr, ops, i, {n}, t);
      RunCounted(tr, ops, t);
      assert n in tr[t].list && n !in tr[t].dead;
      NextOrder(tr[t], i, n);
    }
    forall j, k | 0 <= j < k < |r| && AliveThroughout(tr, r[j]) && AliveThroughout(tr, r[k])
      ensures Precedes(tr[0].list, r[j], r[k]) && r[j] != r[k]
    {
      Iterate(tr, ops, i, {r[j], r[k]}, t);
      RunCounted(tr, ops, t);
      NotSelf(tr[t].list, r[j]);
      SameThroughout(tr, ops, r[j], r[k], t);
    }
    forall t | 0 <= t < |ops| && ops[t] == Next(i) && NextOf(tr[t], i).At?
      ensures NextOf(tr[t], i).node !in tr[t].dead {
      RunCounted(tr, ops, t);
      NextLive(tr[t], i);
    }
  }

  lemma NotSelf(l: seq<Node>, n: Node)
    requires Distinct(l)
    ensures !Precedes(l, n, n)
  {
  }

  lemma {:induction false} SameThroughout(tr: seq<State>, ops: seq<Op>, n: Node, m: Node, t: int)
    requires Run(tr, ops, true) && Counted(tr[0]) && AliveThroughout(tr, n) && AliveThroughout(tr, m) && 0 <= t < |tr|
    ensures Precedes(tr[0].list, n, m) <==> Precedes(tr[t].list, n, m)
    decreases t
  {
    if t > 0 {
      SameThroughout(tr, ops, n, m, t - 1);
      RunCounted(tr, ops, t - 1);
      StepOrder(tr[t - 1], ops[t - 1], true);
      assert n in tr[t].list && m in tr[t].list && n in tr[t - 1].list && m in tr[t - 1].list;
    }
  }
}
