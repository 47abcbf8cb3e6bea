/** klist runs with the kref_get of include/linux/kref.h:40-47, which counts nothing: what then holds of every run. */
module KListShipped {
  import opened Lists
  import opened KListSpec
  import opened KListRuns

  /** The step ends with an iterator on a node it has just reached. */
  predicate Acquires(s: State, op: Op) {
    (op.InitNode? && op.start.At?) || (op.Next? && NextOf(s, op.i).At?)
  }

  lemma ShippedStep(s: State, op: Op)
    requires Counted(s) && Legal(s, op, false) && !Faults(s, op)
    ensures Counted(Step(s, op, false)) <==> !Acquires(s, op)
  {
    if op.InitNode? && op.start.At? && op.start.node !in s.list {
      var bad, n := Step(s, op, false), op.start.node;
      assert CountOk(s, n);
      assert op.i in Holders(bad.cur, n);
      assert !CountOk(bad, n);
    } else {
      StepKeeps(s, op);
      if Acquires(s, op) { AcquireMiscounts(s, op); }
    }
  }

  lemma AcquireMiscounts(s: State, op: Op)
    requires Counted(s) && Legal(s, op, true) && !Faults(s, op) && Acquires(s, op) && Counted(Step(s, op, true))
    ensures !Counted(Step(s, op, false))
  {
    var good, bad := Step(s, op, true), Step(s, op, false);
    var q := if op.InitNode? then op.start.node else NextOf(s, op.i).node;
    if op.Next? { NextLive(s, op.i); }
    assert bad.list == good.list && bad.dead == good.dead && bad.cur == good.cur;
    assert CountOk(good, q);
    hide NextOf, Leave;
    assert RefOf(bad, q) == RefOf(good, q) - 1;
    assert !CountOk(bad, q);
  }

  /** With the shipped kref_get the counts are right throughout a run exactly when no iterator reaches a node. */
  lemma {:induction false} ShippedRun(tr: seq<State>, ops: seq<Op>)
    requires Run(tr, ops, false) && Counted(tr[0])
    ensures (forall t :: 0 <= t < |tr| ==> Counted(tr[t])) <==>
                (forall t :: 0 <= t < |ops| ==> !Acquires(tr[t], ops[t]))
  {
    if forall t :: 0 <= t < |tr| ==> Counted(tr[t]) {
      forall t | 0 <= t < |ops| ensures !Acquires(tr[t], ops[t]) {
        assert Counted(tr[t]) && Counted(tr[t + 1]);
        ShippedStep(tr[t], ops[t]);
      }
    }
    if forall t :: 0 <= t < |ops| ==> !Acquires(tr[t], ops[t]) {
      forall t | 0 <= t < |tr| ensures Counted(tr[t]) { ShippedPrefix(tr, ops, t); }
    }
  }

  lemma {:induction false} ShippedPrefix(tr: seq<State>, ops: seq<Op>, t: int)
    requires Run(tr, ops, false) && Counted(tr[0]) && 0 <= t < |tr|
    requires forall k :: 0 <= k < t ==> !Acquires(tr[k], ops[k])
    ensures Counted(tr[t])
    decreases t
  {
    if t > 0 {
      ShippedPrefix(tr, ops, t - 1);
      ShippedStep(tr[t - 1], ops[t - 1]);
    }
  }

  // ------------------------------------------------------------ what the runs do instead

  ghost predicate SingleAt(s: State, n: Node) {
    && (if n in s.list then RefOf(s, n) == 1 else RefOf(s, n) <= 0)
    && s.gets[n] == s.puts[n] + (if n in s.list then 1 else 0)
  }

  /**
   Every linked node has one reference, whoever stands on it, and none is dead; an unlinked node has none left, and
   possibly fewer; put has run once for each get whose node is gone.
   */
  ghost predicate Single(s: State) {
    Tied(s) && Closed(s) && s.dead == {} && forall n :: SingleAt(s, n)
  }

  lemma PutSingle(s: State, n: Node, kill: bool)
    requires Single(s) && (kill ==> n in s.list)
    ensures var s' := Put(s, n, kill);
      && Single(s') && s'.cur == s.cur && RefOf(s', n) == RefOf(s, n) - 1
      && s'.list == Unlinked(s.list, n) && (forall m :: m in s'.list <==> m in s.list && m != n)
      && s'.puts == (if n in s.list then s.puts + multiset{n} else s.puts)
      && s'.stale == (if n in s.list then s.stale[n := LinkOf(s, At(n))] else s.stale)
  {
    assert SingleAt(s, n);
    PutTied(s, n, kill);
    PutClosed(s, n, kill);
    hide Tied, Closed, Without, IndexOf, LinkOf;
    var s' := Put(s, n, kill);
    forall m ensures SingleAt(s', m) { assert SingleAt(s, m); }
  }

  lemma AttachSingle(s: State, n: Node, k: int)
    requires Single(s) && n !in s.list && 0 <= k <= |s.list|
    ensures Single(Attach(s, n, k)) && forall m :: m in Attach(s, n, k).list <==> m in s.list || m == n
  {
    AttachTied(s, n, k);
    hide Tied, Closed, Insert;
    var s' := Attach(s, n, k);
    forall m ensures SingleAt(s', m) { assert SingleAt(s, m); }
  }

  lemma LandSingle(s: State, i: Iter, c: Cursor)
    requires Single(s) && (c.At? ==> Known(s, c.node))
    ensures Single(Land(s, i, c, false)) && Land(s, i, c, false).list == s.list
  {
    LandTied(s, i, c, false);
    hide Tied, Closed;
    var s' := Land(s, i, c, false);
    forall m ensures SingleAt(s', m) { assert SingleAt(s, m); }
  }

  ghost predicate Adds(op: Op, n: Node) {
    (op.AddHead? || op.AddTail? || op.AddAfter? || op.AddBefore?) && op.n == n
  }

  /** The step gives up a reference to n: it deletes n, or an iterator leaves n. */
  ghost predicate PutsOn(s: State, op: Op, n: Node) {
    op == Del(n) || ((op.Exit? || op.Next?) && op.i in s.cur && s.cur[op.i] == At(n))
  }

  /** Every step: a node is linked by adding it, and unlinked by the first reference given up, whoever gives it up. */
  lemma LinkedStep(s: State, op: Op, n: Node)
    requires Single(s) && Legal(s, op, false) && !Faults(s, op)
    ensures Single(Step(s, op, false))
    ensures n in Step(s, op, false).list <==> Adds(op, n) || (n in s.list && !PutsOn(s, op, n))
  {
    hide Attach, Put, Land, Single, Unlinked, Insert, NextOf, Leave;
    match op
    case AddHead(m) => AttachSingle(s, m, 0);
    case AddTail(m) => AttachSingle(s, m, |s.list|);
    case AddAfter(m, pos) => AttachSingle(s, m, Behind(s.list, pos));
    case AddBefore(m, pos) => AttachSingle(s, m, Before(s.list, pos));
    case Del(m) =>
      SingleHome(s, m);
      PutSingle(s, m, true);
    case InitNode(i, start) => LandSingle(s, i, start);
    case Exit(i) => Leaving(s, i, Idle, n);
    case Next(i) =>
      NextKnown(s, i);
      Leaving(s, i, NextOf(s, i), n);
  }

  lemma SingleHome(s: State, n: Node)
    requires Single(s)
    ensures n in s.home <==> n in s.list
  {
  }

  /** With no node dead klist_next goes where the next link leads, linked node or not. */
  lemma NextIsLink(s: State, i: Iter)
    requires Single(s) && i in s.cur
    ensures NextOf(s, i) == LinkOf(s, s.cur[i])
  {
    hide LinkOf;
  }

  lemma NextKnown(s: State, i: Iter)
    requires Single(s) && i in s.cur
    ensures NextOf(s, i) == LinkOf(s, s.cur[i]) && (NextOf(s, i).At? ==> Known(s, NextOf(s, i).node))
    ensures (s.cur[i].At? ==> s.cur[i].node in s.list) && NextOf(s, i).At? ==> NextOf(s, i).node in s.list
  {
    NextIsLink(s, i);
    hide NextOf;
  }

  lemma Leaving(s: State, i: Iter, c: Cursor, n: Node)
    requires Single(s) && i in s.cur && (c.At? ==> Known(s, c.node))
    ensures var s' := Land(Leave(s, s.cur[i]), i, c, false);
      Single(s') && (n in s'.list <==> n in s.list && s.cur[i] != At(n))
  {
    if s.cur[i].At? {
      PutSingle(s, s.cur[i].node, false);
      PutKnown(s, s.cur[i].node, c);
      LandSingle(Put(s, s.cur[i].node, false), i, c);
    } else {
      LandSingle(s, i, c);
    }
  }

  lemma PutKnown(s: State, n: Node, c: Cursor)
    requires Single(s) && (c.At? ==> Known(s, c.node))
    ensures c.At? ==> Known(Put(s, n, false), c.node)
  {
    assert SingleAt(s, n);
    PutTied(s, n, false);
    hide LinkOf, Without, IndexOf, Single;
  }

  /** What klist_next does to the list, whether the node it leaves is linked or not. */
  lemma NextEffect(s: State, i: Iter)
    requires Single(s) && i in s.cur
    ensures var c, s' := s.cur[i], Step(s, Next(i), false);
      && s'.cur == s.cur[i := NextOf(s, i)]
      && s'.list == (if c.At? then Unlinked(s.list, c.node) else s.list)
      && s'.puts == (if c.At? && c.node in s.list then s.puts + multiset{c.node} else s.puts)
      && s'.stale == (if c.At? && c.node in s.list then s.stale[c.node := LinkOf(s, c)] else s.stale)
      && forall m :: RefOf(s', m) == RefOf(s, m) - if c == At(m) then 1 else 0
  {
    if s.cur[i].At? { PutSingle(s, s.cur[i].node, false); }
    hide Single, Unlinked, LinkOf, NextOf;
  }

  /** From the empty list on, every state of every run is one of these. */
  lemma {:induction false} AlwaysSingle(tr: seq<State>, ops: seq<Op>, t: int)
    requires Run(tr, ops, false) && Single(tr[0]) && 0 <= t < |tr|
    ensures Single(tr[t])
    decreases t
  {
    if t > 0 {
      AlwaysSingle(tr, ops, t - 1);
      LinkedStep(tr[t - 1], ops[t - 1], 0);
    }
  }

  lemma EmptySingle()
    ensures Single(EMPTY)
  {
    forall n ensures SingleAt(EMPTY, n) {}
  }

  ghost predicate AddedBetween(ops: seq<Op>, k: int, t: int, n: Node)
    requires 0 <= k <= t <= |ops|
  {
    exists m :: k < m < t && Adds(ops[m], n)
  }

  /** Since step a, every reference given up to n was followed by adding n anew. */
  ghost predicate Untouched(tr: seq<State>, ops: seq<Op>, a: int, t: int, n: Node)
    requires 0 <= a <= t <= |ops| < |tr|
  {
    forall k :: a <= k < t && PutsOn(tr[k], ops[k], n) ==> AddedBetween(ops, k, t, n)
  }

  /**
   A node that was linked when an iterator reached it is still linked exactly when nobody has given up a reference to it
   since, neither by deleting it nor by leaving it with another iterator, unless it was added anew.
   */
  lemma {:induction false} StandsLinked(tr: seq<State>, ops: seq<Op>, a: int, t: int, n: Node)
    requires Run(tr, ops, false) && Single(tr[0]) && 0 <= a <= t < |tr| && n in tr[a].list
    ensures n in tr[t].list <==> Untouched(tr, ops, a, t, n)
    decreases t
  {
    if a < t {
      StandsLinked(tr, ops, a, t - 1, n);
      AlwaysSingle(tr, ops, t - 1);
      LinkedStep(tr[t - 1], ops[t - 1], n);
      hide Single, Step, Legal;
      UntouchedStep(tr, ops, a, t, n);
    }
  }

  lemma UntouchedStep(tr: seq<State>, ops: seq<Op>, a: int, t: int, n: Node)
    requires 0 <= a < t <= |ops| < |tr|
    ensures Untouched(tr, ops, a, t, n) <==>
      Adds(ops[t - 1], n) || (Untouched(tr, ops, a, t - 1, n) && !PutsOn(tr[t - 1], ops[t - 1], n))
  {
    if Adds(ops[t - 1], n) {
      forall k | a <= k < t && PutsOn(tr[k], ops[k], n) ensures AddedBetween(ops, k, t, n) {
        assert k < t - 1;
      }
    } else {
      forall k | a <= k < t - 1 ensures AddedBetween(ops, k, t, n) <==> AddedBetween(ops, k, t - 1, n) {}
      if PutsOn(tr[t - 1], ops[t - 1], n) { assert !AddedBetween(ops, t - 1, t, n); }
    }
  }

  /** klist_del and klist_iter_exit find the list exactly when the node they are about is still linked. */
  lemma ReachesIff(tr: seq<State>, ops: seq<Op>, a: int, t: int, n: Node, i: Iter)
    requires Run(tr, ops, false) && Single(tr[0]) && 0 <= a <= t < |tr| && n in tr[a].list
    ensures !Faults(tr[t], Del(n)) <==> Untouched(tr, ops, a, t, n)
    ensures i in tr[t].cur && tr[t].cur[i] == At(n) ==> (!Faults(tr[t], Exit(i)) <==> Untouched(tr, ops, a, t, n))
  {
    StandsLinked(tr, ops, a, t, n);
    AlwaysSingle(tr, ops, t);
    SingleHome(tr[t], n);
    hide Single, Untouched;
  }

  // ------------------------------------------------------- going on from an unlinked node

  /** Step u unlinked n, and n has not been linked again up to t. */
  ghost predicate UnlinkedAt(tr: seq<State>, n: Node, u: int, t: int) {
    0 <= u < t < |tr| && n in tr[u].list && forall k :: u < k <= t ==> n !in tr[k].list
  }

  /** klist_next leaves n. */
  ghost predicate Departs(s: State, op: Op, n: Node) {
    op.Next? && op.i in s.cur && s.cur[op.i] == At(n)
  }

  ghost function Departures(tr: seq<State>, ops: seq<Op>, n: Node, a: int, t: int): int
    requires 0 <= a <= t <= |ops| < |tr|
    decreases t
  {
    if a == t then 0 else Departures(tr, ops, n, a, t - 1) + if Departs(tr[t - 1], ops[t - 1], n) then 1 else 0
  }

  /** One step, seen from the next link and the count of a node that stays unlinked. */
  lemma StaleStep(s: State, op: Op, n: Node)
    requires Single(s) && Legal(s, op, false) && !Faults(s, op) && n !in Step(s, op, false).list
    ensures var s' := Step(s, op, false);
      && (n in s.list ==> n in s'.stale && s'.stale[n] == LinkOf(s, At(n)) && RefOf(s', n) == 0)
      && (n !in s.list ==>
            && (n in s'.stale <==> n in s.stale) && (n in s.stale ==> s'.stale[n] == s.stale[n])
            && RefOf(s', n) == RefOf(s, n) - if Departs(s, op, n) then 1 else 0)
  {
    assert SingleAt(s, n);
    hide Insert, Single, SingleAt, Unlinked, LinkOf, NextOf, Put, Known;
    if op.Del? {
      SingleHome(s, op.n);
      PutSingle(s, op.n, true);
      PutRef(s, op.n, true, n);
    } else if (op.Exit? || op.Next?) && s.cur[op.i].At? {
      if op.Exit? { SingleHome(s, s.cur[op.i].node); }
      PutSingle(s, s.cur[op.i].node, false);
      PutRef(s, s.cur[op.i].node, false, n);
    } else {
      LinkedStep(s, op, n);
    }
  }

  lemma PutRef(s: State, m: Node, kill: bool, n: Node)
    ensures RefOf(Put(s, m, kill), n) == RefOf(s, n) - if m == n then 1 else 0
  {
    hide LinkOf, Unlinked;
  }

  /** The next link of an unlinked node leads where it led when the node was unlinked. */
  lemma {:induction false} StaleSince(tr: seq<State>, ops: seq<Op>, n: Node, u: int, t: int)
    requires Run(tr, ops, false) && Single(tr[0]) && UnlinkedAt(tr, n, u, t)
    ensures n in tr[t].stale && tr[t].stale[n] == LinkOf(tr[u], At(n))
    decreases t
  {
    hide Single, Step, Legal, Faults, LinkOf, Run;
    RunAt(tr, ops, false, t - 1);
    AlwaysSingle(tr, ops, t - 1);
    assert n !in tr[t].list;
    if u < t - 1 { StaleSince(tr, ops, n, u, t - 1); }
    StaleStep(tr[t - 1], ops[t - 1], n);
  }

  /** The count of an unlinked node goes on falling: it is minus the times klist_next has left the node since. */
  lemma {:induction false} CountSince(tr: seq<State>, ops: seq<Op>, n: Node, u: int, t: int)
    requires Run(tr, ops, false) && Single(tr[0]) && UnlinkedAt(tr, n, u, t)
    ensures RefOf(tr[t], n) == -Departures(tr, ops, n, u + 1, t)
    decreases t
  {
    hide Single, Step, Legal, Faults, LinkOf, Run;
    RunAt(tr, ops, false, t - 1);
    AlwaysSingle(tr, ops, t - 1);
    assert n !in tr[t].list;
    if u < t - 1 { CountSince(tr, ops, n, u, t - 1); }
    StaleStep(tr[t - 1], ops[t - 1], n);
  }

  /** Every unlinked node whose links are set was unlinked by some step. */
  lemma {:induction false} WasLinked(tr: seq<State>, ops: seq<Op>, n: Node, t: int) returns (u: int)
    requires Run(tr, ops, false) && tr[0] == EMPTY && 0 <= t < |tr| && n in tr[t].stale && n !in tr[t].list
    ensures UnlinkedAt(tr, n, u, t)
    decreases t
  {
    EmptySingle();
    AlwaysSingle(tr, ops, t - 1);
    u := t - 1;
    StaleStep(tr[t - 1], ops[t - 1], n);
    hide Single, Step, Legal, Faults, LinkOf;
    if n !in tr[t - 1].list {
      u := WasLinked(tr, ops, n, t - 1);
    }
  }

  /** Step u unlinked the node that iterator i stands on at t, and the node behind it has since been unlinked too. */
  ghost predicate LeftBehind(tr: seq<State>, ops: seq<Op>, i: Iter, u: int, t: int)
    requires 0 <= t <= |ops| < |tr| && i in tr[t].cur
  {
    && tr[t].cur[i].At? && UnlinkedAt(tr, tr[t].cur[i].node, u, t)
    && var c := LinkOf(tr[u], tr[t].cur[i]);
    c.At? && !Untouched(tr, ops, u, t, c.node)
  }

  /**
   What klist_next returns in any run from the empty list.  From a linked node, or at the start, it is the next linked
   one.  From an unlinked node it is what was behind it when it was unlinked, whatever was added or removed since, and
   so a node that is no longer linked exactly when a reference to that one has been given up since as well.
   */
  lemma NextLinkedIff(tr: seq<State>, ops: seq<Op>, i: Iter, t: int)
    requires Run(tr, ops, false) && tr[0] == EMPTY && 0 <= t < |tr| && i in tr[t].cur
    ensures var c, from := NextOf(tr[t], i), tr[t].cur[i];
      && ((from.At? ==> from.node in tr[t].list) ==> c == LinkOf(tr[t], from))
      && (from.At? && from.node !in tr[t].list ==>
            exists u :: UnlinkedAt(tr, from.node, u, t) && c == LinkOf(tr[u], from))
      && (c.At? && c.node !in tr[t].list <==> exists u :: LeftBehind(tr, ops, i, u, t))
  {
    EmptySingle();
    AlwaysSingle(tr, ops, t);
    var from := tr[t].cur[i];
    NextKnown(tr[t], i);
    StandsKnown(tr[t], i);
    hide NextOf, Single;
    if from.At? && from.node !in tr[t].list {
      var u := WasLinked(tr, ops, from.node, t);
      BehindIff(tr, ops, i, u, t);
      forall v | LeftBehind(tr, ops, i, v, t) ensures v == u {}
    }
  }

  lemma StandsKnown(s: State, i: Iter)
    requires Single(s) && i in s.cur
    ensures s.cur[i].At? ==> Known(s, s.cur[i].node)
  {
  }

  lemma BehindIff(tr: seq<State>, ops: seq<Op>, i: Iter, u: int, t: int)
    requires Run(tr, ops, false) && Single(tr[0]) && 0 <= t <= |ops| && i in tr[t].cur && tr[t].cur[i].At?
    requires UnlinkedAt(tr, tr[t].cur[i].node, u, t)
    ensures NextOf(tr[t], i) == LinkOf(tr[u], tr[t].cur[i])
    ensures NextOf(tr[t], i).At? && NextOf(tr[t], i).node !in tr[t].list <==> LeftBehind(tr, ops, i, u, t)
  {
    AlwaysSingle(tr, ops, t);
    NextIsLink(tr[t], i);
    StaleSince(tr, ops, tr[t].cur[i].node, u, t);
    var c := LinkOf(tr[u], tr[t].cur[i]);
    if c.At? { StandsLinked(tr, ops, u, t, c.node); }
    hide NextOf, Single, Untouched, Step;
  }

  // ---------------------------------------------------------------- runs that go wrong

  /** klist_remove never waits: klist_del has unlinked the node and put has run, whoever stands on it. */
  lemma RemoveShipped(s: State, n: Node)
    requires Single(s) && Legal(s, Del(n), false) && !Faults(s, Del(n))
    ensures var s' := Step(s, Del(n), false);
      n !in s'.list && s'.puts == s.puts + multiset{n} && s'.cur == s.cur
  {
    SingleHome(s, n);
    PutSingle(s, n, true);
  }

  /** The run so far, whose last state meets the invariant. */
  ghost predicate SoFar(tr: seq<State>, ops: seq<Op>) {
    Run(tr, ops, false) && tr[0] == EMPTY && Single(tr[|ops|])
  }

  lemma SoFarEmpty()
    ensures SoFar([EMPTY], [])
  {
    EmptySingle();
  }

  /** The run goes on with op, to a state that meets the invariant. */
  ghost predicate GoesOn(tr: seq<State>, ops: seq<Op>, op: Op, tr': seq<State>, ops': seq<Op>) {
    SoFar(tr', ops') && ops' == ops + [op] && |tr'| == |tr| + 1 && tr <= tr'
  }

  lemma StepOn(tr: seq<State>, ops: seq<Op>, op: Op) returns (tr': seq<State>, ops': seq<Op>)
    requires SoFar(tr, ops) && Legal(tr[|ops|], op, false) && !Faults(tr[|ops|], op)
    ensures GoesOn(tr, ops, op, tr', ops') && tr'[|ops'|] == Step(tr[|ops|], op, false)
  {
    var s := tr[|ops|];
    LinkedStep(s, op, 0);
    hide Step, Single, Legal, Faults, Run;
    tr', ops' := tr + [Step(s, op, false)], ops + [op];
    RunOn(tr, ops, false, op, Step(s, op, false));
  }

  lemma AddOn(tr: seq<State>, ops: seq<Op>, n: Node) returns (tr': seq<State>, ops': seq<Op>)
    requires SoFar(tr, ops) && n !in tr[|ops|].list
    ensures GoesOn(tr, ops, AddTail(n), tr', ops')
    ensures var s, s' := tr[|ops|], tr'[|ops'|];
      s'.list == s.list + [n] && s'.cur == s.cur && s'.puts == s.puts
  {
    hide SoFar, Run, Single;
    tr', ops' := StepOn(tr, ops, AddTail(n));
  }

  lemma BeginOn(tr: seq<State>, ops: seq<Op>, i: Iter) returns (tr': seq<State>, ops': seq<Op>)
    requires SoFar(tr, ops) && i !in tr[|ops|].cur
    ensures GoesOn(tr, ops, InitNode(i, Idle), tr', ops')
    ensures var s, s' := tr[|ops|], tr'[|ops'|];
      s'.list == s.list && s'.cur == s.cur[i := Idle] && s'.puts == s.puts
  {
    hide SoFar, Run, Single;
    tr', ops' := StepOn(tr, ops, InitNode(i, Idle));
  }

  lemma DelOn(tr: seq<State>, ops: seq<Op>, n: Node) returns (tr': seq<State>, ops': seq<Op>)
    requires SoFar(tr, ops) && n in tr[|ops|].list
    ensures GoesOn(tr, ops, Del(n), tr', ops')
    ensures tr'[|ops'|].cur == tr[|ops|].cur && n !in tr'[|ops'|].list
  {
    hide Run;
    SoFarRun(tr, ops);
    SingleHome(tr[|ops|], n);
    RemoveShipped(tr[|ops|], n);
    tr', ops' := StepOn(tr, ops, Del(n));
  }

  lemma NextOn(tr: seq<State>, ops: seq<Op>, i: Iter) returns (tr': seq<State>, ops': seq<Op>)
    requires SoFar(tr, ops) && i in tr[|ops|].cur
    ensures GoesOn(tr, ops, Next(i), tr', ops')
    ensures var s, s', c := tr[|ops|], tr'[|ops'|], tr[|ops|].cur[i];
      && NextOf(s, i) == LinkOf(s, c) && s'.cur == s.cur[i := LinkOf(s, c)]
      && s'.list == (if c.At? then Unlinked(s.list, c.node) else s.list)
      && s'.puts == (if c.At? && c.node in s.list then s.puts + multiset{c.node} else s.puts)
      && s'.stale == (if c.At? && c.node in s.list then s.stale[c.node := LinkOf(s, c)] else s.stale)
      && forall m :: RefOf(s', m) == RefOf(s, m) - if c == At(m) then 1 else 0
  {
    hide Step, NextOf, Single, Run, LinkOf, Unlinked;
    SoFarRun(tr, ops);
    NextIsLink(tr[|ops|], i);
    NextEffect(tr[|ops|], i);
    tr', ops' := StepOn(tr, ops, Next(i));
  }

  /** What calls on an unlinked node would come to. */
  lemma OnUnlinked(tr: seq<State>, ops: seq<Op>, n: Node)
    requires SoFar(tr, ops) && n !in tr[|ops|].list
    ensures Faults(tr[|ops|], Del(n)) && (n in tr[|ops|].stale ==> Legal(tr[|ops|], Del(n), false))
    ensures forall i :: i in tr[|ops|].cur && tr[|ops|].cur[i] == At(n) ==> Faults(tr[|ops|], Exit(i))
  {
    hide Run;
    SoFarRun(tr, ops);
    SingleHome(tr[|ops|], n);
  }

  lemma SoFarRun(tr: seq<State>, ops: seq<Op>)
    requires SoFar(tr, ops)
    ensures Run(tr, ops, false) && tr[0] == EMPTY && |tr| == |ops| + 1
  {
  }

  /**
   Iterating once over a list of one node unlinks it although nobody deleted it; a klist_del of it afterwards follows a
   NULL list.
   */
  lemma ShippedExample()
    ensures var ops := [AddTail(1), InitNode(7, Idle), Next(7), Next(7)];
      exists tr: seq<State> ::
        && Run(tr, ops, false) && tr[0] == EMPTY && tr[2].list == [1] && NextOf(tr[2], 7) == At(1)
        && tr[4].list == [] && tr[4].puts == multiset{1} && Legal(tr[4], Del(1), false) && Faults(tr[4], Del(1))
  {
    hide Step, NextOf, SoFar, Run, Single;
    SoFarEmpty();
    var tr, ops := AddOn([EMPTY], [], 1);
    tr, ops := BeginOn(tr, ops, 7);
    tr, ops := NextOn(tr, ops, 7);
    tr, ops := NextOn(tr, ops, 7);
    OnUnlinked(tr, ops, 1);
    SoFarRun(tr, ops);
    assert ops == [AddTail(1), InitNode(7, Idle), Next(7), Next(7)];
  }

  /** Deleting the node an iterator stands on, which a klist is made for: klist_iter_exit then follows a NULL list. */
  lemma ExitExample()
    ensures var ops := [AddTail(1), InitNode(7, Idle), Next(7), Del(1)];
      exists tr: seq<State> :: Run(tr, ops, false) && tr[0] == EMPTY && Faults(tr[4], Exit(7))
  {
    hide Step, NextOf, SoFar, Run, Single;
    SoFarEmpty();
    var tr, ops := AddOn([EMPTY], [], 1);
    tr, ops := BeginOn(tr, ops, 7);
    tr, ops := NextOn(tr, ops, 7);
    tr, ops := DelOn(tr, ops, 1);
    OnUnlinked(tr, ops, 1);
    SoFarRun(tr, ops);
    assert ops == [AddTail(1), InitNode(7, Idle), Next(7), Del(1)];
  }

  const THREE: seq<Op> := [AddTail(1), AddTail(2), AddTail(3), InitNode(7, Idle), InitNode(8, Idle)]

  /** The list [1, 2, 3] with iterators 7 and 8 at its start. */
  lemma ThreeNodes() returns (tr: seq<State>)
    ensures SoFar(tr, THREE) && |tr| == 6
    ensures tr[5].list == [1, 2, 3] && tr[5].cur == map[7 := Idle, 8 := Idle] && tr[5].puts == multiset{}
    ensures RefOf(tr[5], 1) == 1
  {
    hide Step, NextOf, SoFar, Run, Single;
    SoFarEmpty();
    var ops;
    tr, ops := AddOn([EMPTY], [], 1);
    tr, ops := AddOn(tr, ops, 2);
    tr, ops := AddOn(tr, ops, 3);
    tr, ops := BeginOn(tr, ops, 7);
    tr, ops := BeginOn(tr, ops, 8);
    assert ops == THREE;
    LinkedOnce(tr, ops, 1);
  }

  lemma LinkedOnce(tr: seq<State>, ops: seq<Op>, n: Node)
    requires SoFar(tr, ops) && n in tr[|ops|].list
    ensures RefOf(tr[|ops|], n) == 1
  {
    assert SingleAt(tr[|ops|], n);
  }

  /** Both iterators go to node 1. */
  lemma BothAtOne() returns (tr: seq<State>)
    ensures SoFar(tr, THREE + [Next(7), Next(8)]) && |tr| == 8
    ensures tr[7].list == [1, 2, 3] && tr[7].cur == map[7 := At(1), 8 := At(1)] && tr[7].puts == multiset{}
    ensures RefOf(tr[7], 1) == 1
  {
    hide Step, NextOf, SoFar, Run, Single;
    tr := ThreeNodes();
    var ops;
    tr, ops := NextOn(tr, THREE, 7);
    tr, ops := NextOn(tr, ops, 8);
    assert ops == THREE + [Next(7), Next(8)];
  }

  /** Leaving the first node of a list. */
  lemma LeavesFirst(s: State, n: Node, rest: seq<Node>)
    requires s.list == [n] + rest
    ensures n in s.list && Unlinked(s.list, n) == rest && LinkOf(s, At(n)) == Spot(rest, 0)
  {
  }

  /** The second goes on to node 3. */
  lemma SecondGoesOn() returns (tr: seq<State>)
    ensures SoFar(tr, THREE + [Next(7), Next(8), Next(8), Next(8)]) && |tr| == 10
    ensures tr[9].list == [3] && tr[9].cur == map[7 := At(1), 8 := At(3)] && tr[9].puts == multiset{1, 2}
    ensures 1 in tr[9].stale && tr[9].stale[1] == At(2) && RefOf(tr[9], 1) == 0
  {
    hide Step, NextOf, SoFar, Run, Single, LinkOf, Unlinked;
    tr := BothAtOne();
    LeavesFirst(tr[7], 1, [2, 3]);
    var ops;
    tr, ops := NextOn(tr, THREE + [Next(7), Next(8)], 8);
    assert tr[8].list == [2, 3] && tr[8].cur == map[7 := At(1), 8 := At(2)] && tr[8].puts == multiset{1};
    LeavesFirst(tr[8], 2, [3]);
    tr, ops := NextOn(tr, ops, 8);
    assert ops == THREE + [Next(7), Next(8), Next(8), Next(8)];
  }

  /**
   Two iterators on [1, 2, 3]: both stand on 1, the second moves on to 3, which unlinks 1 and 2, and klist_next then
   returns to the first the released node 2, while the count of 1 falls to -1.
   */
  lemma ReleasedExample()
    ensures var ops := [AddTail(1), AddTail(2), AddTail(3), InitNode(7, Idle), InitNode(8, Idle),
                        Next(7), Next(8), Next(8), Next(8), Next(7)];
      exists tr: seq<State> ::
        && Run(tr, ops, false) && tr[0] == EMPTY && tr[9].list == [3] && tr[9].puts == multiset{1, 2}
        && NextOf(tr[9], 7) == At(2) && RefOf(tr[10], 1) == -1
  {
    hide Step, NextOf, SoFar, Run, Single;
    var tr := SecondGoesOn();
    var ops;
    tr, ops := NextOn(tr, THREE + [Next(7), Next(8), Next(8), Next(8)], 7);
    SoFarRun(tr, ops);
    assert ops == [AddTail(1), AddTail(2), AddTail(3), InitNode(7, Idle), InitNode(8, Idle),
                   Next(7), Next(8), Next(8), Next(8), Next(7)];
  }

  // ------------------------------------------------------------- an undisturbed iteration

  /** The state after iterator i has called klist_next t times. */
  ghost function Sweep(s: State, i: Iter, t: nat): State {
    if t == 0 then s
    else
      var p := Sweep(s, i, t - 1);
      if i in p.cur then Step(p, Next(i), false) else p
  }

  /** After t calls the first t - 1 nodes are gone, and the iterator stands on the first one left. */
  ghost predicate Swept(s: State, i: Iter, t: nat, w: State)
    requires t <= |s.list| + 1
  {
    var gone := if t == 0 then 0 else t - 1;
    && Single(w) && w.list == s.list[gone..] && w.puts == s.puts + multiset(s.list[..gone])
    && i in w.cur && w.cur[i] == if 0 < t <= |s.list| then At(s.list[gone]) else Idle
  }

  lemma {:induction false} SweepIs(s: State, i: Iter, t: nat)
    requires Single(s) && i in s.cur && s.cur[i] == Idle && t <= |s.list| + 1
    ensures Swept(s, i, t, Sweep(s, i, t))
  {
    if t == 0 {
      assert s.list[..0] == [];
    } else {
      SweepIs(s, i, t - 1);
      SweepStep(s, i, t - 1, Sweep(s, i, t - 1));
    }
  }

  /** One call: it returns the next node of the old list and unlinks the one it leaves. */
  lemma SweepStep(s: State, i: Iter, t: nat, w: State)
    requires t <= |s.list| && Swept(s, i, t, w)
    ensures i in w.cur && NextOf(w, i) == Spot(s.list, t)
    ensures Swept(s, i, t + 1, Step(w, Next(i), false))
  {
    NextIsLink(w, i);
    NextEffect(w, i);
    LinkedStep(w, Next(i), 0);
    hide Step, NextOf, Single, Legal, Faults;
    if t > 0 {
      FirstUnlinked(s.list, t - 1);
    }
    hide Unlinked, Behind;
  }

  lemma FirstUnlinked(l: seq<Node>, t: int)
    requires 0 <= t < |l|
    ensures var w := l[t..];
      && w[0] == l[t] && l[t] in w && Unlinked(w, l[t]) == l[t + 1..]
      && Spot(w, Behind(w, l[t])) == Spot(l, t + 1) && multiset(l[..t + 1]) == multiset(l[..t]) + multiset{l[t]}
  {
    assert l[..t + 1] == l[..t] + [l[t]];
  }

  /**
   An undisturbed iteration with the shipped kref_get, on every list: it returns every node once and in order, and
   leaves the list empty, with one put for each node.
   */
  lemma ShippedSweep(s: State, i: Iter)
    requires Single(s) && i in s.cur && s.cur[i] == Idle
    ensures forall t: nat :: t <= |s.list| ==>
              && i in Sweep(s, i, t).cur
              && NextOf(Sweep(s, i, t), i) == Spot(s.list, t)
    ensures var w := Sweep(s, i, |s.list| + 1);
      w.list == [] && i in w.cur && w.cur[i] == Idle && w.puts == s.puts + multiset(s.list)
  {
    hide Step, Single;
    forall t: nat | t <= |s.list|
      ensures i in Sweep(s, i, t).cur
      ensures NextOf(Sweep(s, i, t), i) == Spot(s.list, t)
    {
      SweepIs(s, i, t);
      SweepStep(s, i, t, Sweep(s, i, t));
    }
    SweepIs(s, i, |s.list| + 1);
    assert s.list[..|s.list|] == s.list;
  }
}
