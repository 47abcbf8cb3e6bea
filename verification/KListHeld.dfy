/** An iteration with the shipped kref_get, interleaved with any other steps, as long as its own node is left to it. */
module KListHeld {
  import opened Lists
  import opened KListSpec
  import opened KListRuns
  import opened KListShipped

  /** During the first t steps nobody else gives up a reference to the node iterator i stands on. */
  ghost predicate Held(tr: seq<State>, ops: seq<Op>, i: Iter, t: int)
    requires 0 <= t <= |ops| < |tr|
  {
    forall k :: 0 <= k < t ==> HeldStep(tr[k], ops[k], i)
  }

  ghost predicate HeldStep(s: State, op: Op, i: Iter) {
    i in s.cur && s.cur[i].At? && PutsOn(s, op, s.cur[i].node) ==> op == Next(i)
  }

  /** n is linked at first, never added anew, and only iterator i gives up a reference to it. */
  ghost predicate Spared(tr: seq<State>, ops: seq<Op>, i: Iter, n: Node) {
    |ops| < |tr| && n in tr[0].list && forall k :: 0 <= k < |ops| ==> SparedStep(tr[k], ops[k], i, n)
  }

  ghost predicate SparedStep(s: State, op: Op, i: Iter, n: Node) {
    !Adds(op, n) && (PutsOn(s, op, n) ==> op == Next(i))
  }

  /** Nodes of `a` that are linked, in the order they had in l0. */
  ghost predicate Ordered(l0: seq<Node>, l: seq<Node>, a: set<Node>) {
    forall n, m :: n in a && m in a && n in l && m in l ==> (Precedes(l, n, m) <==> Precedes(l0, n, m))
  }

  /**
   Iterator i stands on the last node it returned, which is linked; of `a` it has yet to return exactly the nodes behind
   that one, and it has returned the others once each, in the order they had at first, and unlinked them.
   */
  ghost predicate Ahead(l0: seq<Node>, s: State, i: Iter, r: seq<Node>, a: set<Node>) {
    && i in s.cur && s.cur[i] == (if r == [] then Idle else At(r[|r| - 1]))
    && (r != [] ==> r[|r| - 1] in s.list)
    && (forall n :: n in a ==> (n in s.list <==> n !in r || n == r[|r| - 1]))
    && (forall n :: n in a && n !in r && r != [] ==> Precedes(s.list, r[|r| - 1], n))
    && (forall j, n :: 0 <= j < |r| && r[j] in a && n in a && n !in r ==> Precedes(l0, r[j], n))
    && (forall j, k :: 0 <= j < k < |r| && r[j] in a && r[k] in a ==> Precedes(l0, r[j], r[k]))
  }

  /** What the link of a linked node, or of the head, says of the order. */
  lemma LinkOrder(s: State, c: Cursor, n: Node)
    requires Distinct(s.list) && n in s.list && (c.At? ==> c.node in s.list)
    requires c.At? ==> Precedes(s.list, c.node, n)
    ensures var q := LinkOf(s, c);
      q.At? && q.node in s.list && c != q && (n == q.node || Precedes(s.list, q.node, n))
  {
    var l, d := s.list, IndexOf(s.list, n);
    var p := if c.At? then IndexOf(l, c.node) else -1;
    if c.At? { PlaceOrder(l, p, d); }
    assert LinkOf(s, c) == At(l[p + 1]);
    PlaceOrder(l, p + 1, d);
    if c.At? { PlaceOrder(l, p, p + 1); }
  }

  lemma OrderedStep(l0: seq<Node>, s: State, op: Op, i: Iter, a: set<Node>)
    requires Single(s) && Legal(s, op, false) && !Faults(s, op) && Ordered(l0, s.list, a)
    requires forall n :: n in a ==> SparedStep(s, op, i, n)
    ensures Ordered(l0, Step(s, op, false).list, a)
  {
    hide Step, Single, Legal, Faults, Precedes;
    SingleDistinct(s);
    StepOrder(s, op, false);
    var s' := Step(s, op, false);
    forall n, m | n in a && m in a && n in s'.list && m in s'.list
      ensures Precedes(s'.list, n, m) <==> Precedes(l0, n, m)
    {
      assert SparedStep(s, op, i, n) && SparedStep(s, op, i, m);
      LinkedStep(s, op, n);
      LinkedStep(s, op, m);
      assert Precedes(s.list, n, m) <==> Precedes(s'.list, n, m);
    }
  }

  lemma SingleDistinct(s: State)
    requires Single(s)
    ensures Distinct(s.list)
  {
  }

  /** A step that leaves iterator i alone. */
  lemma OthersAhead(l0: seq<Node>, s: State, op: Op, i: Iter, r: seq<Node>, a: set<Node>)
    requires Single(s) && Legal(s, op, false) && !Faults(s, op) && Ahead(l0, s, i, r, a)
    requires op != Next(i) && op != Exit(i) && !(op.InitNode? && op.i == i)
    requires HeldStep(s, op, i) && forall n :: n in a ==> SparedStep(s, op, i, n)
    ensures Ahead(l0, Step(s, op, false), i, r, a)
  {
    hide Step, Single, Legal, Faults, Precedes;
    var s' := Step(s, op, false);
    CursorStays(s, op, i);
    SingleDistinct(s);
    StepOrder(s, op, false);
    forall n | n in a ensures n in s'.list <==> n in s.list {
      assert SparedStep(s, op, i, n);
      LinkedStep(s, op, n);
    }
    if r != [] {
      var last := r[|r| - 1];
      LinkedStep(s, op, last);
      forall n | n in a && n !in r ensures Precedes(s'.list, last, n) {
        assert n in s.list && n in s'.list;
        assert Precedes(s.list, last, n) <==> Precedes(s'.list, last, n);
      }
    }
  }

  lemma CursorStays(s: State, op: Op, i: Iter)
    requires Legal(s, op, false) && !Faults(s, op) && i in s.cur
    requires op != Next(i) && op != Exit(i) && !(op.InitNode? && op.i == i)
    ensures i in Step(s, op, false).cur && Step(s, op, false).cur[i] == s.cur[i]
  {
    hide LinkOf, Unlinked, NextOf, Insert;
  }

  /** A klist_next of iterator i that finds a node. */
  lemma NextAhead(l0: seq<Node>, s: State, i: Iter, r: seq<Node>, a: set<Node>)
    requires Single(s) && Ahead(l0, s, i, r, a) && Ordered(l0, s.list, a) && NextOf(s, i).At?
    requires forall n :: n in a ==> n in l0
    ensures var q := NextOf(s, i).node;
      q in s.list && Ahead(l0, Step(s, Next(i), false), i, r + [q], a)
  {
    hide Step, Single, Precedes, LinkOf;
    var q, s' := NextOf(s, i).node, Step(s, Next(i), false);
    var c, r' := s.cur[i], r + [q];
    SingleDistinct(s);
    NextKnown(s, i);
    NextEffect(s, i);
    hide NextOf;
    StepOrder(s, Next(i), false);
    NotBack(s, c);
    LinkedStep(s, Next(i), q);
    forall n | n in a ensures n in s'.list <==> n !in r' || n == q {
      LinkedStep(s, Next(i), n);
      NotReturned(l0, s, c, i, r, a, n);
    }
    forall n | n in a && n !in r' ensures Precedes(s'.list, q, n) && (q in a ==> Precedes(l0, q, n)) {
      LinkedStep(s, Next(i), n);
      LinkOrder(s, c, n);
      assert Precedes(s.list, q, n) <==> Precedes(s'.list, q, n);
    }
  }

  lemma NotBack(s: State, c: Cursor)
    requires Distinct(s.list) && (c.At? ==> c.node in s.list) && LinkOf(s, c).At?
    ensures LinkOf(s, c).node in s.list && LinkOf(s, c) != c
  {
  }

  /** A spared node that has been returned and left is no longer linked, so it is not where klist_next goes. */
  lemma NotReturned(l0: seq<Node>, s: State, c: Cursor, i: Iter, r: seq<Node>, a: set<Node>, n: Node)
    requires Ahead(l0, s, i, r, a) && c == s.cur[i] && n in a
    ensures n in s.list && c != At(n) ==> n !in r
    ensures n in r && c == At(n) ==> n in s.list
    ensures n !in r ==> n in s.list && c != At(n)
  {
    hide Precedes;
  }

  lemma {:induction false} HeldRun(tr: seq<State>, ops: seq<Op>, i: Iter, a: set<Node>, t: int)
    requires Run(tr, ops, false) && Single(tr[0]) && i in tr[0].cur && tr[0].cur[i] == Idle
    requires 0 <= t <= |ops| && Iterating(tr, ops, i, t) && Held(tr, ops, i, t)
    requires forall n :: n in a ==> Spared(tr, ops, i, n)
    ensures Ahead(tr[0].list, tr[t], i, Returned(tr, ops, i, t), a) && Ordered(tr[0].list, tr[t].list, a)
    decreases t
  {
    hide Run, Single, Step, Legal, Faults, Ahead, Ordered, NextOf, Precedes;
    RunLength(tr, ops, false);
    if t == 0 {
      HeldStart(tr, ops, i, a);
    } else {
      RunAt(tr, ops, false, t - 1);
      AlwaysSingle(tr, ops, t - 1);
      HeldRun(tr, ops, i, a, t - 1);
      var s, op, r := tr[t - 1], ops[t - 1], Returned(tr, ops, i, t - 1);
      assert HeldStep(s, op, i);
      forall n | n in a ensures SparedStep(s, op, i, n) && n in tr[0].list { assert Spared(tr, ops, i, n); }
      OrderedStep(tr[0].list, s, op, i, a);
      if op == Next(i) {
        NextAhead(tr[0].list, s, i, r, a);
      } else {
        OthersAhead(tr[0].list, s, op, i, r, a);
      }
    }
  }

  lemma HeldStart(tr: seq<State>, ops: seq<Op>, i: Iter, a: set<Node>)
    requires |tr| == |ops| + 1 && i in tr[0].cur && tr[0].cur[i] == Idle
    requires forall n :: n in a ==> Spared(tr, ops, i, n)
    ensures Ahead(tr[0].list, tr[0], i, [], a) && Ordered(tr[0].list, tr[0].list, a)
  {
    hide Precedes;
  }

  /**
   A full iteration with the shipped kref_get, interleaved with any other steps, during which nobody else gives up a
   reference to the node it stands on: every node it returns is linked at that time, and it returns each node that was
   linked at first and was neither deleted, left by another iterator nor added anew, exactly once, in list order.
   */
  lemma HeldIteration(tr: seq<State>, ops: seq<Op>, i: Iter)
    requires Run(tr, ops, false) && Single(tr[0]) && i in tr[0].cur && tr[0].cur[i] == Idle
    requires |ops| > 0 && Iterating(tr, ops, i, |ops| - 1) && Held(tr, ops, i, |ops|)
    requires ops[|ops| - 1] == Next(i) && NextOf(tr[|ops| - 1], i).Idle?
    ensures var r := Returned(tr, ops, i, |ops|);
      && (forall n :: Spared(tr, ops, i, n) ==> n in r)
      && (forall j, k :: 0 <= j < k < |r| && Spared(tr, ops, i, r[j]) && Spared(tr, ops, i, r[k]) ==>
             r[j] != r[k] && Precedes(tr[0].list, r[j], r[k]))
    ensures forall t :: 0 <= t < |ops| && ops[t] == Next(i) && NextOf(tr[t], i).At? ==>
                NextOf(tr[t], i).node in tr[t].list
  {
    hide Run, Single, Step, Legal, Faults, NextOf, Precedes, Spared;
    RunLength(tr, ops, false);
    var t, r := |ops| - 1, Returned(tr, ops, i, |ops|);
    forall n | Spared(tr, ops, i, n) ensures n in r {
      HeldRun(tr, ops, i, {n}, t);
      AlwaysSingle(tr, ops, t);
      AllReturned(tr[0].list, tr[t], i, r, n);
    }
    forall j, k | 0 <= j < k < |r| && Spared(tr, ops, i, r[j]) && Spared(tr, ops, i, r[k])
      ensures r[j] != r[k] && Precedes(tr[0].list, r[j], r[k])
    {
      HeldRun(tr, ops, i, {r[j], r[k]}, t);
      SingleDistinct(tr[0]);
      NotSelf(tr[0].list, r[j]);
    }
    forall t | 0 <= t < |ops| && ops[t] == Next(i) && NextOf(tr[t], i).At?
      ensures NextOf(tr[t], i).node in tr[t].list
    {
      HeldRun(tr, ops, i, {}, t);
      AlwaysSingle(tr, ops, t);
      NextAhead(tr[0].list, tr[t], i, Returned(tr, ops, i, t), {});
    }
  }

  lemma AllReturned(l0: seq<Node>, s: State, i: Iter, r: seq<Node>, n: Node)
    requires Single(s) && Ahead(l0, s, i, r, {n}) && NextOf(s, i).Idle?
    ensures n in r
  {
    hide Single, Precedes, LinkOf;
    SingleDistinct(s);
    NextKnown(s, i);
    hide NextOf;
    if n !in r {
      LinkOrder(s, s.cur[i], n);
    }
  }
}
