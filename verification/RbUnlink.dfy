/**
 Taking a node out of the tree before rebalancing: __rb_erase_augmented of
 include/linux/rbtree_augmented.h, case by case.
 */
module RbUnlink {
  import opened RedBlackTree
  import opened RbArena
  import opened RbRotations
  import opened RbErase

  function Black(t: Tree): Tree {
    if t.Leaf? then Leaf else t.(red := false)
  }

  /** The leftmost node, its parent, its right subtree, and the tree without it. */
  function MinId(t: Tree): Ref
    requires t.Node?
  {
    if t.left.Leaf? then t.id else MinId(t.left)
  }

  function MinRed(t: Tree): bool
    requires t.Node?
  {
    if t.left.Leaf? then t.red else MinRed(t.left)
  }

  function MinParent(t: Tree, parent: Ref): Ref
    requires t.Node?
  {
    if t.left.Leaf? then parent else MinParent(t.left, t.id)
  }

  function MinRight(t: Tree): Tree
    requires t.Node?
  {
    if t.left.Leaf? then t.right else MinRight(t.left)
  }

  function DropMin(t: Tree): Tree
    requires t.Node?
  {
    if t.left.Leaf? then Black(t.right) else t.(left := DropMin(t.left))
  }

  /** The path to the leftmost node of `t`, below `base`. */
  function MinCtx(base: Ctx, t: Tree): Ctx
    requires t.Node?
    decreases t
  {
    if t.left.Leaf? then base else MinCtx(In(base, Left, t.id, t.red, t.right), t.left)
  }

  lemma {:induction false} MinFacts(base: Ctx, t: Tree, parent: Ref)
    requires t.Node?
    ensures Plug(MinCtx(base, t), Node(Leaf, MinId(t), MinRed(t), MinRight(t))) == Plug(base, t)
    ensures Plug(MinCtx(base, t), Black(MinRight(t))) == Plug(base, DropMin(t))
    ensures InOrder(t) == [MinId(t)] + InOrder(DropMin(t))
    ensures parent == CtxParent(base) ==> MinParent(t, parent) == CtxParent(MinCtx(base, t))
    ensures base.In? ==> MinCtx(base, t).In?
    decreases t
  {
    if t.left.Leaf? {
    } else {
      MinFacts(In(base, Left, t.id, t.red, t.right), t.left, t.id);
    }
  }

  lemma {:induction false} MinIds(t: Tree)
    requires t.Node? && Distinct(t)
    ensures Ids(t) == Ids(DropMin(t)) + {MinId(t)} && MinId(t) !in Ids(DropMin(t)) && Distinct(DropMin(t))
    ensures MinId(t) != NIL
    ensures Ids(MinRight(t)) <= Ids(DropMin(t)) && Distinct(MinRight(t))
    ensures t.left.Node? ==>
              && DropMin(t).Node? && DropMin(t).id == t.id && DropMin(t).red == t.red
              && MinId(t) != t.id && t.id !in Ids(MinRight(t))
    ensures t.left.Node? ==> forall p :: MinParent(t, p) in Ids(DropMin(t)) && MinParent(t, p) !in Ids(MinRight(t))
    ensures t.left.Leaf? ==> MinId(t) == t.id
  {
    if t.left.Leaf? {
      assert Ids(Black(t.right)) == Ids(t.right);
    } else {
      MinIds(t.left);
    }
  }

  /** Which cells of `t` differ after its leftmost node was bypassed, and how. */
  predicate Bypassed(m: Store, m': Store, t: Tree, parent: Ref)
    requires t.Node?
  {
    var c2, pm := MinRight(t), MinParent(t, parent);
    forall x :: x in Ids(t) && x != MinId(t) ==>
      && x in m && x in m'
      && m'[x] == if x == pm then m[x].(left := RootId(c2))
                  else if c2.Node? && x == c2.id then m[x].(parent := pm, red := false)
                  else m[x]
  }

  lemma {:induction false} DropMinRep(m: Store, m': Store, t: Tree, parent: Ref)
    requires t.Node? && Rep(m, t, parent) && Distinct(t) && parent !in Ids(t) && Bypassed(m, m', t, parent)
    ensures Rep(m', DropMin(t), parent)
  {
    MinIds(t);
    if t.left.Leaf? {
      var c2 := t.right;
      if c2.Node? {
        assert c2.id in Ids(t);
        Recolour(m, m', c2, t.id, parent, false);
      }
    } else {
      MinIds(t.left);
      RootInIds(MinRight(t));
      assert forall x :: x in Ids(t.right) ==> x != MinParent(t, parent) && x !in Ids(MinRight(t));
      assert Bypassed(m, m', t.left, t.id);
      DropMinRep(m, m', t.left, t.id);
      RepFrame(m, m', t.right, t.id);
      assert t.id in Ids(t);
    }
  }

  // -------------------------------------------------------------- at most one child

  /** The node is replaced by its only subtree `q`, which takes over its parent and colour. */
  lemma SpliceRep(m: Store, root: Ref, c: Ctx, s: Side, q: Tree, x: Ref, red: bool)
    requires Focus(m, root, c, Mk(s, q, x, red, Leaf))
    ensures x in m && m[x] == MkCell(s, RootId(q), NIL, CtxParent(c), red)
    ensures (CtxParent(c) != NIL ==> CtxParent(c) in m)
    ensures q.Node? ==> q.id in m && q.id != NIL && q.id != CtxParent(c)
    ensures var m1 := Relink(m, x, RootId(q), CtxParent(c));
            var m2 := if q.Leaf? then m1 else SetParentColor(m1, q.id, CtxParent(c), red);
            && m2.Keys == m.Keys
            && Focus(m2, if c.Top? then RootId(q) else root, c, if q.Leaf? then q else q.(red := red))
  {
    CtxRoot(m, root, c, x);
    OpenNode(m, s, q, x, red, Leaf, CtxParent(c));
    RelinkIsChangeChild(m, c, x, RootId(q));
    var m1 := ChangeChild(m, c, RootId(q));
    var root1 := if c.Top? then RootId(q) else root;
    assert CtxRep(m1, root1, c, RootId(q)) by { ChangeChildRep(m, root, c, x, RootId(q)); }
    assert Rep(m1, q, x) by { RepFrame(m, m1, q, x); }
    if q.Node? {
      var m2 := SetParentColor(m1, q.id, CtxParent(c), red);
      Recolour(m1, m2, q, x, CtxParent(c), red);
      CtxRepFrame(m1, m2, root1, c, q.id);
    }
  }

  lemma SpliceColours(c: Ctx, s: Side, q: Tree, x: Ref, red: bool)
    requires RedBlack(Plug(c, Mk(s, q, x, red, Leaf)))
    ensures q.Node? ==> RedBlack(Plug(c, q.(red := red)))
    ensures q.Leaf? && red ==> RedBlack(Plug(c, Leaf))
    ensures q.Leaf? && c.Top? ==> RedBlack(Plug(c, Leaf))
    ensures q.Leaf? && !red && c.In? ==> Deficient(c, Leaf, 0)
  {
    var t := Mk(s, q, x, red, Leaf);
    PlugRedBlack(c, t);
    if q.Node? {
      assert BlackHeight(q) == 0 && Sub(q, 0);
      assert q.red && !red;
      assert Sub(q.(red := false), 1);
      PlugRedBlack(c, q.(red := red));
    } else {
      PlugRedBlack(c, Leaf);
      if red { AcceptsBlack(c, 0); }
    }
  }

  // ------------------------------------------------------------------- two children

  /** The stores of the two-child case up to the call of __rb_change_child. */
  function HangSuccessor(m: Store, node: Ref, child: Ref, succ: Ref, parent: Ref, child2: Ref): Store
    requires node in m && child in m && succ in m && parent in m && m[node].left in m
  {
    var m1 := if succ == child then m
              else SetParent(SetChild(SetChild(m, Left, parent, child2), Right, succ, child), child, succ);
    SetParent(SetChild(m1, Left, succ, m[node].left), m[node].left, succ)
  }

  /** All the stores of the two-child case except the one made by __rb_change_child. */
  function UnlinkStores(m: Store, node: Ref, child: Ref, succ: Ref, parent: Ref, child2: Ref): Store
    requires node in m && child in m && succ in m && parent in m && m[node].left in m && (child2 != NIL ==> child2 in m)
  {
    var m3 := HangBlack(HangSuccessor(m, node, child, succ, parent, child2), child2, parent);
    m3[succ := m3[succ].(parent := m[node].parent, red := m[node].red)]
  }

  lemma UnlinkCells(m: Store, node: Ref, child: Ref, succ: Ref, parent: Ref, child2: Ref)
    requires node in m && child in m && succ in m && parent in m && m[node].left in m && (child2 != NIL ==> child2 in m)
    requires var l := m[node].left; l != node && l != child && l != succ && l != parent && l != child2
    requires node != child && node != succ && node != parent && node != child2 && succ != child2
    requires if succ == child then parent == succ
                 else parent != succ && (child2 != NIL ==> child2 != parent && child2 != child)
    requires m[succ].left == NIL && m[succ].right == child2
    ensures var m' := UnlinkStores(m, node, child, succ, parent, child2);
      && m'.Keys == m.Keys
      && m'[succ] == Cell(m[node].left, if succ == child then child2 else child, m[node].parent, m[node].red)
      && m'[m[node].left] == m[m[node].left].(parent := succ)
      && (child2 != NIL ==> m'[child2] == m[child2].(parent := parent, red := false))
      && (succ != child && parent != child ==>
             m'[parent] == m[parent].(left := child2) && m'[child] == m[child].(parent := succ))
      && (succ != child && parent == child ==> m'[child] == m[child].(left := child2, parent := succ))
      && forall x ::
           x in m && x != succ && x != m[node].left && (x != child2 || child2 == NIL) && x != parent && x != child ==>
             m'[x] == m[x]
  {
  }

  /** The cells after the stores hold the tree whose root is the successor. */
  lemma UnlinkTree(m: Store, l: Tree, node: Ref, red: bool, r: Tree, np: Ref)
    requires Rep(m, Node(l, node, red, r), np) && Distinct(Node(l, node, red, r)) && l.Node? && r.Node?
    ensures node in m && r.id in m && MinId(r) in m && m[node] == Cell(l.id, r.id, np, red) && l.id in m
    ensures var parent, c2 := MinParent(r, MinId(r)), MinRight(r);
      && parent in m && (c2.Node? ==> c2.id in m && c2.id != NIL)
      && m[MinId(r)].left == NIL && m[MinId(r)].right == RootId(c2)
      && (var m' := UnlinkStores(m, node, r.id, MinId(r), parent, RootId(c2));
          && m'.Keys == m.Keys
          && (forall x :: x in m && x !in Ids(l) && x !in Ids(r) ==> m'[x] == m[x])
          && Rep(m', Node(l, MinId(r), red, DropMin(r)), np))
  {
    hide Rep, Ids, Distinct;
    var sc, pm, c2 := MinId(r), MinParent(r, MinId(r)), MinRight(r);
    OpenNode(m, Left, l, node, red, r, np);
    MinIds(r);
    RepRoot(m, l, node);
    MinCells(m, r, node);
    UnlinkDisjoint(l, r);
    UnlinkCells(m, node, r.id, sc, pm, RootId(c2));
    var m' := UnlinkStores(m, node, r.id, sc, pm, RootId(c2));
    UnlinkedPieces(m, m', l, node, r);
    NodeRep(m', l, sc, red, DropMin(r), np);
  }

  lemma NodeRep(m: Store, l: Tree, id: Ref, red: bool, r: Tree, parent: Ref)
    requires id in m && id != NIL && m[id] == Cell(RootId(l), RootId(r), parent, red) && Rep(m, l, id) && Rep(m, r, id)
    ensures Rep(m, Node(l, id, red, r), parent)
  {
  }

  /** The result of UnlinkCells, read as trees. */
  predicate Unlinked(m: Store, m': Store, l: Tree, sc: Ref, r: Tree)
    requires l.Node? && r.Node?
  {
    var pm, c2 := MinParent(r, sc), MinRight(r);
    && m'.Keys == m.Keys
    && l.id in m && m'[l.id] == m[l.id].(parent := sc)
    && (c2.Node? ==> c2.id in m && m'[c2.id] == m[c2.id].(parent := pm, red := false))
    && (r.left.Node? ==>
        && pm in m && r.id in m
        && (pm != r.id ==> m'[pm] == m[pm].(left := RootId(c2)) && m'[r.id] == m[r.id].(parent := sc))
        && (pm == r.id ==> m'[r.id] == m[r.id].(left := RootId(c2), parent := sc)))
    && forall x :: x in m && x != sc && x != l.id && (c2.Leaf? || x != c2.id) && x != pm && x != r.id ==> m'[x] == m[x]
  }

  lemma UnlinkedPieces(m: Store, m': Store, l: Tree, node: Ref, r: Tree)
    requires l.Node? && r.Node? && Distinct(l) && Distinct(r) && Ids(l) !! Ids(r) && node !in Ids(r)
    requires Rep(m, l, node) && Rep(m, r, node) && Unlinked(m, m', l, MinId(r), r)
    ensures Rep(m', l, MinId(r)) && Rep(m', DropMin(r), MinId(r))
  {
    var sc, pm, c2 := MinId(r), MinParent(r, MinId(r)), MinRight(r);
    MinIds(r);
    UnlinkDisjoint(l, r);
    RootInIds(r);
    RootInIds(l);
    assert Rep(m', l, sc) by { Reparent(m, m', l, node, sc); }
    if r.left.Leaf? {
      if c2.Node? { Recolour(m, m', c2, r.id, sc, false); }
    } else {
      AllInStore(m, r, node);
      var ma := m'[r.id := m'[r.id].(parent := node)];
      MinParentAnywhere(r, sc, node);
      RootParent(m, r, node);
      assert Bypassed(m, ma, r, node);
      DropMinRep(m, ma, r, node);
      Reparent(ma, m', DropMin(r), node, sc);
    }
  }

  lemma RootParent(m: Store, t: Tree, parent: Ref)
    requires Rep(m, t, parent) && t.Node?
    ensures t.id in m && m[t.id].parent == parent
  {
  }

  lemma MinParentAnywhere(t: Tree, p: Ref, q: Ref)
    requires t.Node? && t.left.Node?
    ensures MinParent(t, p) == MinParent(t, q)
  {
  }

  /** The successor, its parent and its right subtree lie in r. */
  lemma UnlinkDisjoint(l: Tree, r: Tree)
    requires l.Node? && r.Node? && Distinct(l) && Distinct(r) && Ids(l) !! Ids(r)
    ensures MinId(r) in Ids(r) && MinParent(r, MinId(r)) in Ids(r) && (MinRight(r).Node? ==> MinRight(r).id in Ids(r))
    ensures MinRight(r).Node? ==> MinRight(r).id != NIL && MinRight(r).id != MinId(r)
    ensures r.left.Leaf? ==> MinParent(r, MinId(r)) == MinId(r) == r.id
    ensures r.left.Node? ==> MinId(r) != r.id && MinParent(r, MinId(r)) != MinId(r)
    ensures r.left.Node? && MinRight(r).Node? ==> MinRight(r).id != MinParent(r, MinId(r)) && MinRight(r).id != r.id
  {
    MinIds(r);
    RootInIds(r);
    RootInIds(MinRight(r));
    assert forall x :: x in Ids(DropMin(r)) ==> x in Ids(r);
  }

  lemma {:induction false} MinCells(m: Store, t: Tree, parent: Ref)
    requires t.Node? && Rep(m, t, parent) && Distinct(t)
    ensures MinId(t) in m && m[MinId(t)] == Cell(NIL, RootId(MinRight(t)), MinParent(t, parent), MinRed(t))
    ensures Rep(m, MinRight(t), MinId(t))
    ensures t.left.Node? ==> forall p :: MinParent(t, p) in m
    ensures forall x :: x in Ids(t) ==> x in m
  {
    AllInStore(m, t, parent);
    if t.left.Node? {
      MinCells(m, t.left, t.id);
      MinIds(t);
    }
  }

  lemma {:induction false} AllInStore(m: Store, t: Tree, parent: Ref)
    requires Rep(m, t, parent)
    ensures forall x :: x in Ids(t) ==> x in m
  {
    if t.Node? {
      AllInStore(m, t.left, t.id);
      AllInStore(m, t.right, t.id);
    }
  }

  /** The two-child case as a whole: the successor takes the place of the node. */
  lemma UnlinkRep(m: Store, root: Ref, c: Ctx, l: Tree, node: Ref, red: bool, r: Tree)
    requires Focus(m, root, c, Node(l, node, red, r)) && l.Node? && r.Node?
    ensures node in m && r.id in m && MinId(r) in m && m[node] == Cell(l.id, r.id, CtxParent(c), red) && l.id in m
    ensures l.id != NIL
    ensures var pm, c2 := MinParent(r, MinId(r)), MinRight(r);
      && pm in m && (c2.Node? ==> c2.id in m && c2.id != NIL)
      && m[MinId(r)].left == NIL && m[MinId(r)].right == RootId(c2) && m[MinId(r)].red == MinRed(r)
      && CtxParent(c) !in Ids(l) && CtxParent(c) !in Ids(r) && CtxParent(c) != node
      && (CtxParent(c) != NIL ==> CtxParent(c) in m)
      && (var m' := Relink(UnlinkStores(m, node, r.id, MinId(r), pm, RootId(c2)), node, MinId(r), CtxParent(c));
          && m'.Keys == m.Keys
          && Focus(m', if c.Top? then MinId(r) else root, c, Node(l, MinId(r), red, DropMin(r))))
  {
    hide Rep, CtxRep, UnlinkStores, Relink, Ids, CtxIds, Distinct, CtxDistinct, MinId, MinParent, MinRight, MinRed;
    hide DropMin;
    var np := CtxParent(c);
    CtxRoot(m, root, c, node);
    OpenNode(m, Left, l, node, red, r, np);
    NilNotIn(l);
    NilNotIn(r);
    UnlinkTree(m, l, node, red, r, np);
    MinCells(m, r, node);
    MinIds(r);
    SuccessorNode(l, MinId(r), red, DropMin(r), r);
    Rehang(m, root, c, node, Node(l, MinId(r), red, DropMin(r)),
           UnlinkStores(m, node, r.id, MinId(r), MinParent(r, MinId(r)), RootId(MinRight(r))));
  }

  lemma SuccessorNode(l: Tree, sc: Ref, red: bool, r': Tree, r: Tree)
    requires Distinct(l) && Distinct(r') && sc != NIL && sc !in Ids(r') && Ids(r) == Ids(r') + {sc} && Ids(l) !! Ids(r)
    ensures Distinct(Node(l, sc, red, r')) && Ids(Node(l, sc, red, r')) == Ids(l) + Ids(r)
  {
    assert sc in Ids(r);
  }

  lemma {:induction false} NilNotIn(t: Tree)
    requires Distinct(t)
    ensures NIL !in Ids(t)
  {
    if t.Node? { NilNotIn(t.left); NilNotIn(t.right); }
  }

  /** Where the missing black node ends up, and what happened to the in-order sequence. */
  lemma UnlinkColours(c: Ctx, l: Tree, node: Ref, red: bool, r: Tree)
    requires RedBlack(Plug(c, Node(l, node, red, r))) && l.Node? && r.Node?
    ensures var t' := Node(l, MinId(r), red, DropMin(r));
            var c' := MinCtx(In(c, Right, MinId(r), red, l), r);
      && Plug(c', Black(MinRight(r))) == Plug(c, t')
      && InOrder(t') == InOrder(l) + InOrder(r)
      && CtxParent(c') == MinParent(r, MinId(r)) && c'.In?
      && (MinRight(r).Node? || MinRed(r) ==> RedBlack(Plug(c, t')))
      && (MinRight(r).Leaf? && !MinRed(r) ==> Deficient(c', Leaf, 0))
  {
    var b0, b1 := In(c, Right, node, red, l), In(c, Right, MinId(r), red, l);
    var t' := Node(l, MinId(r), red, DropMin(r));
    var c0, c' := MinCtx(b0, r), MinCtx(b1, r);
    MinFacts(b0, r, node);
    MinFacts(b1, r, MinId(r));
    assert Plug(b1, DropMin(r)) == Plug(c, t') && Plug(b0, r) == Plug(c, Node(l, node, red, r));
    assert InOrder(l) + ([MinId(r)] + InOrder(DropMin(r))) == InOrder(l) + [MinId(r)] + InOrder(DropMin(r));
    SpliceColours(c0, Right, MinRight(r), MinId(r), MinRed(r));
    AlikeRefl(c);
    SameColours(b0, b1, r);
    if MinRight(r).Node? {
      AcceptsAnyId(c0, c', MinRight(r).(red := MinRed(r)));
      MinIsBlack(c0, MinRight(r), MinId(r), MinRed(r));
    } else {
      AcceptsAnyId(c0, c', Leaf);
    }
  }

  lemma MinIsBlack(c: Ctx, q: Tree, x: Ref, red: bool)
    requires RedBlack(Plug(c, Node(Leaf, x, red, q))) && q.Node?
    ensures !red
  {
    PlugRedBlack(c, Node(Leaf, x, red, q));
    assert Sub(q, 0);
  }

  /** Two paths with the same colours and siblings. */
  predicate Alike(c: Ctx, d: Ctx) {
    match c
    case Top => d.Top?
    case In(up, s, _, red, sib) => d.In? && d.side == s && d.red == red && d.sib == sib && Alike(up, d.up)
  }

  lemma {:induction false} SameColours(b0: Ctx, b1: Ctx, t: Tree)
    requires t.Node? && Alike(b0, b1)
    ensures Alike(MinCtx(b0, t), MinCtx(b1, t))
    decreases t
  {
    if t.left.Node? {
      SameColours(In(b0, Left, t.id, t.red, t.right), In(b1, Left, t.id, t.red, t.right), t.left);
    }
  }

  lemma {:induction false} AlikeRefl(c: Ctx)
    ensures Alike(c, c)
  {
    if c.In? { AlikeRefl(c.up); }
  }

  lemma {:induction false} AlikeAccepts(c: Ctx, d: Ctx, h: nat, red: bool)
    requires Alike(c, d)
    ensures Accepts(c, h, red) <==> Accepts(d, h, red)
  {
    if c.In? { AlikeAccepts(c.up, d.up, h + if c.red then 0 else 1, c.red); }
  }

  lemma AcceptsAnyId(c: Ctx, d: Ctx, t: Tree)
    requires Alike(c, d)
    ensures RedBlack(Plug(c, t)) <==> RedBlack(Plug(d, t))
    ensures forall h: nat :: Deficient(c, t, h) <==> Deficient(d, t, h)
  {
    PlugRedBlack(c, t);
    PlugRedBlack(d, t);
    AlikeAccepts(c, d, BlackHeight(t), IsRed(t));
    forall h: nat ensures Deficient(c, t, h) <==> Deficient(d, t, h) {
      AlikeAccepts(c, d, h + 1, false);
    }
  }

  /** Swapping __rb_change_child with the stores after it changes nothing: they touch other cells. */
  lemma RelinkLast(m: Store, node: Ref, succ: Ref, np: Ref, child2: Ref, parent: Ref, nred: bool)
    requires succ in m
    requires np != succ && (np != NIL ==> np in m) && (child2 != NIL ==> child2 in m && np != child2)
    ensures var m1 := HangBlack(Relink(m, node, succ, np), child2, parent);
            var m2 := HangBlack(m, child2, parent);
            m1[succ := m1[succ].(parent := np, red := nred)]
            == Relink(m2[succ := m2[succ].(parent := np, red := nred)], node, succ, np)
  {
  }

  lemma HangSuccessorKeeps(m: Store, node: Ref, child: Ref, succ: Ref, parent: Ref, child2: Ref)
    requires node in m && child in m && succ in m && parent in m && m[node].left in m
    requires node != succ && node != child && node != parent && node != m[node].left && succ != m[node].left
    requires succ == child || succ != parent
    ensures var m2 := HangSuccessor(m, node, child, succ, parent, child2);
            m2.Keys == m.Keys && m2[node] == m[node] && m2[succ].red == m[succ].red
  {
  }

  lemma UnlinkLinks(m: Store, root: Ref, c: Ctx, l: Tree, node: Ref, red: bool, r: Tree)
    requires Focus(m, root, c, Node(l, node, red, r)) && l.Node? && r.Node?
    ensures Rep(m, r, node) && Distinct(r) && node !in Ids(r) && l.id !in Ids(r) && l.id != node
    ensures MinId(r) in Ids(r) && r.id in Ids(r) && MinParent(r, MinId(r)) in Ids(r)
    ensures (MinRight(r).Node? ==> MinRight(r).id in Ids(r))
    ensures MinRight(r).Node? ==> MinRight(r).id != MinId(r)
    ensures MinParent(r, MinId(r)) != NIL
    ensures if MinId(r) == r.id then MinParent(r, MinId(r)) == r.id else MinParent(r, MinId(r)) != MinId(r)
  {
    OpenNode(m, Left, l, node, red, r, CtxParent(c));
    UnlinkDisjoint(l, r);
    RootInIds(r);
    NilNotIn(r);
  }

  /** What rb_erase reads at the node itself. */
  lemma EraseLinks(m: Store, root: Ref, c: Ctx, t: Tree)
    requires Focus(m, root, c, t) && t.Node?
    ensures t.id in m && m[t.id] == Cell(RootId(t.left), RootId(t.right), CtxParent(c), t.red)
    ensures (t.left.Leaf? <==> RootId(t.left) == NIL) && (t.right.Leaf? <==> RootId(t.right) == NIL)
    ensures (CtxParent(c) != NIL ==> CtxParent(c) in m) && (c.Top? <==> CtxParent(c) == NIL)
  {
    CtxRoot(m, root, c, t.id);
    OpenNode(m, Left, t.left, t.id, t.red, t.right, CtxParent(c));
  }

  lemma EraseOrder(c: Ctx, l: Tree, x: Ref, red: bool, r: Tree)
    requires Distinct(Plug(c, Node(l, x, red, r)))
    ensures var s := InOrder(Plug(c, Node(l, x, red, r)));
      forall i :: 0 <= i < |s| && s[i] == x ==> s[..i] + s[i + 1..] == Before(c) + InOrder(l) + InOrder(r) + After(c)
  {
    var t := Node(l, x, red, r);
    InOrderPlug(c, t);
    InOrderInjective(Plug(c, t));
    Cut(Before(c), InOrder(l), x, InOrder(r), After(c));
  }

  lemma Cut(a: seq<Ref>, b: seq<Ref>, x: Ref, c: seq<Ref>, d: seq<Ref>)
    ensures var s := a + (b + [x] + c) + d;
      s[|a| + |b|] == x && s[..|a| + |b|] + s[|a| + |b| + 1..] == a + b + c + d
  {
  }

  lemma Concat4(a: seq<Ref>, b: seq<Ref>, c: seq<Ref>, d: seq<Ref>)
    ensures a + (b + c) + d == a + b + c + d
  {
  }

  lemma SpliceOrder(c: Ctx, l: Tree, r: Tree, red: bool)
    requires l.Leaf? || r.Leaf?
    ensures var n' := if l.Node? then l.(red := red) else if r.Node? then r.(red := red) else Leaf;
      InOrder(Plug(c, n')) == Before(c) + InOrder(l) + InOrder(r) + After(c)
  {
    var n' := if l.Node? then l.(red := red) else if r.Node? then r.(red := red) else Leaf;
    assert InOrder(n') == InOrder(l) + InOrder(r);
    UnlinkOrder(c, n', l, r);
  }

  lemma UnlinkOrder(c: Ctx, t': Tree, l: Tree, r: Tree)
    requires InOrder(t') == InOrder(l) + InOrder(r)
    ensures InOrder(Plug(c, t')) == Before(c) + InOrder(l) + InOrder(r) + After(c)
  {
    InOrderPlug(c, t');
    Concat4(Before(c), InOrder(l), InOrder(r), After(c));
  }

  // ----------------------------------------------------------------------- rb_next

  /** The in-order successor of the node at the focus. */
  lemma NextOrder(c: Ctx, l: Tree, x: Ref, red: bool, r: Tree)
    requires Distinct(Plug(c, Node(l, x, red, r)))
    ensures var s := InOrder(Plug(c, Node(l, x, red, r)));
      forall i :: 0 <= i < |s| && s[i] == x ==>
        && s[i + 1..] == InOrder(r) + After(c)
        && (i + 1 < |s| <==> |InOrder(r) + After(c)| > 0)
        && (i + 1 < |s| ==> s[i + 1] == (InOrder(r) + After(c))[0])
  {
    var t := Node(l, x, red, r);
    InOrderPlug(c, t);
    InOrderInjective(Plug(c, t));
    assert InOrder(t) == InOrder(l) + [x] + InOrder(r);
    hide InOrder, Plug, Distinct, Before, After;
    Tail(Before(c), InOrder(l), x, InOrder(r), After(c));
  }

  /** Where x occurs once, what follows it. */
  lemma Tail(a: seq<Ref>, b: seq<Ref>, x: Ref, c: seq<Ref>, d: seq<Ref>)
    ensures var s := a + (b + [x] + c) + d;
      forall i :: 0 <= i < |s| && s[i] == x && (forall j :: 0 <= j < |s| && s[j] == x ==> i == j) ==>
          s[i + 1..] == c + d
  {
    var s, k := a + (b + [x] + c) + d, |a| + |b|;
    assert s[k] == x && s[k + 1..] == c + d;
  }

  /** Which child the focus is, read from the parent's cell, and what a step up does to After. */
  lemma UpOneLevel(m: Store, root: Ref, c: Ctx, t: Tree)
    requires Focus(m, root, c, t) && t.Node? && c.In?
    ensures Focus(m, root, c.up, Mk(c.side, t, c.id, c.red, c.sib)) && Mk(c.side, t, c.id, c.red, c.sib).id == c.id
    ensures c.id in m && (m[c.id].right == t.id <==> c.side == Right)
    ensures After(c) == if c.side == Right then After(c.up) else [c.id] + InOrder(c.sib) + After(c.up)
  {
    FocusStep(m, root, c.up, c.side, c.id, c.red, c.sib, t);
    RepRoot(m, t, c.id);
    RootInIds(c.sib);
  }
}
