/**
 The pointer surgery of the rebalancing cases: each function is the exact sequence of
 stores of one case, and the lemma beside it says which tree the cells hold afterwards.
 */
module RbRotations {
  import opened RedBlackTree
  import opened RbArena

  function SetChild(m: Store, s: Side, x: Ref, v: Ref): Store
    requires x in m
  {
    if s.Left? then m[x := m[x].(left := v)] else m[x := m[x].(right := v)]
  }

  /** rb_set_parent_color */
  function SetParentColor(m: Store, x: Ref, p: Ref, red: bool): Store
    requires x in m
  {
    m[x := m[x].(parent := p, red := red)]
  }

  /** rb_set_parent */
  function SetParent(m: Store, x: Ref, p: Ref): Store
    requires x in m
  {
    m[x := m[x].(parent := p)]
  }

  /** The guarded form `if (x) rb_set_parent_color(x, p, RB_BLACK)`. */
  function HangBlack(m: Store, x: Ref, p: Ref): Store
    requires x != NIL ==> x in m
  {
    if x == NIL then m else SetParentColor(m, x, p, false)
  }

  /** The store made by __rb_change_child when the replaced node is not the root. */
  function Relink(m: Store, oldNode: Ref, newNode: Ref, parent: Ref): Store
    requires parent != NIL ==> parent in m
  {
    if parent == NIL then m
    else if m[parent].left == oldNode then SetChild(m, Left, parent, newNode)
    else SetChild(m, Right, parent, newNode)
  }

  /** __rb_rotate_set_parents: `newNode` takes over oldNode's parent and colour. */
  function RotateSetParents(m: Store, oldNode: Ref, newNode: Ref, red: bool): Store
    requires oldNode in m && newNode in m
    requires m[oldNode].parent != NIL ==> m[oldNode].parent in m
  {
    var parent := m[oldNode].parent;
    var m1 := m[newNode := m[newNode].(parent := m[oldNode].parent, red := m[oldNode].red)];
    var m2 := SetParentColor(m1, oldNode, newNode, red);
    Relink(m2, oldNode, newNode, parent)
  }

  lemma RelinkIsChangeChild(m: Store, c: Ctx, oldNode: Ref, newNode: Ref)
    requires c.In? ==> c.id != NIL && c.id in m
    requires c.In? ==> m[c.id] == MkCell(c.side, oldNode, RootId(c.sib), CtxParent(c.up), c.red)
    requires c.In? ==> oldNode != RootId(c.sib)
    ensures Relink(m, oldNode, newNode, CtxParent(c)) == ChangeChild(m, c, newNode)
  {
  }

  lemma SameOrder(c: Ctx, a: Tree, b: Tree)
    requires InOrder(a) == InOrder(b)
    ensures InOrder(Plug(c, a)) == InOrder(Plug(c, b))
  {
    InOrderPlug(c, a);
    InOrderPlug(c, b);
  }

  /** Re-hanging a rotated pair below the path `up`: the part every single rotation shares. */
  lemma Rehang(m: Store, root: Ref, up: Ctx, oldNode: Ref, t: Tree, m': Store)
    requires CtxRep(m, root, up, oldNode) && CtxDistinct(up)
    requires t.Node? && Rep(m', t, CtxParent(up)) && Distinct(t) && CtxIds(up) !! Ids(t)
    requires m'.Keys == m.Keys && forall x :: x in m && x !in Ids(t) ==> m'[x] == m[x]
    requires oldNode != NIL && oldNode !in CtxIds(up)
    ensures CtxParent(up) != NIL ==> CtxParent(up) in m'
    ensures Focus(Relink(m', oldNode, t.id, CtxParent(up)), if up.Top? then t.id else root, up, t)
    ensures Relink(m', oldNode, t.id, CtxParent(up)).Keys == m.Keys
  {
    CtxRepFrame(m, m', root, up, oldNode);
    RelinkIsChangeChild(m', up, oldNode, t.id);
    ChangeChildRep(m', root, up, oldNode, t.id);
    RepFrame(m', ChangeChild(m', up, t.id), t, CtxParent(up));
  }

  /** The cells of a subtree after its root was hung below `parent` and painted black. */
  function Hung(m: Store, x: Ref, parent: Ref): Store
    requires x != NIL ==> x in m
  {
    if x == NIL then m else m[x := m[x].(parent := parent)]
  }

  lemma HungRep(m: Store, t: Tree, parent: Ref, parent': Ref)
    requires Rep(m, t, parent) && Distinct(t)
    ensures t.Node? ==> t.id in m
    ensures Rep(Hung(m, RootId(t), parent'), t, parent')
    ensures Hung(m, RootId(t), parent').Keys == m.Keys
    ensures forall x :: x in m && x !in Ids(t) ==> Hung(m, RootId(t), parent')[x] == m[x]
  {
    Reparent(m, Hung(m, RootId(t), parent'), t, parent, parent');
  }

  // ------------------------------------------------------------------- insertion

  /** Insert case 1: the uncle is red. */
  lemma InsertFlip(m: Store, root: Ref, up: Ctx, s: Side, g: Ref, u: Tree, s': Side, p: Ref, b: Tree, n: Tree)
    requires Focus(m, root, up, Mk(s, Mk(s', n, p, true, b), g, false, u)) && u.Node?
    ensures u.id in m && p in m && g in m
    ensures var m1 := SetParentColor(SetParentColor(m, u.id, g, false), p, g, false);
      var m' := SetParentColor(m1, g, CtxParent(up), true);
            var t' := Mk(s, Mk(s', n, p, false, b), g, true, u.(red := false));
            Focus(m', root, up, t') && m'.Keys == m.Keys
  {
    hide Rep, Ids, Distinct, CtxRep, CtxIds, CtxDistinct;
    var x := Mk(s', n, p, true, b);
    OpenNode(m, s, x, g, false, u, CtxParent(up));
    OpenNode(m, s', n, p, true, b, g);
    var m1 := SetParentColor(m, u.id, g, false);
    var m' := SetParentColor(SetParentColor(m1, p, g, false), g, CtxParent(up), true);
    Recolour(m, m1, u, g, g, false);
    RepFrame(m1, m', u.(red := false), g);
    RepFrame(m, m', n, p);
    RepFrame(m, m', b, p);
    CtxRepFrame(m, m', root, up, g);
    CloseNode(m', s', n, p, false, b, g);
    CloseNode(m', s, Mk(s', n, p, false, b), g, true, u.(red := false), CtxParent(up));
  }

  lemma FlipKeepsColours(up: Ctx, s: Side, g: Ref, u: Tree, s': Side, p: Ref, b: Tree, n: Tree, h: nat)
    requires IsRed(u) && Sub(n, h) && IsRed(n) && Sub(b, h) && !IsRed(b) && Sub(u, h)
    ensures var t' := Mk(s, Mk(s', n, p, false, b), g, true, u.(red := false));
            && IsRed(t') && Sub(t', h + 1)
            && InOrder(Plug(up, t')) == InOrder(Plug(up, Mk(s, Mk(s', n, p, true, b), g, false, u)))
  {
    var x, x' := Mk(s', n, p, true, b), Mk(s', n, p, false, b);
    assert InOrder(x) == InOrder(x') && Sub(x', h + 1);
    SameOrder(up, Mk(s, x', g, true, u.(red := false)), Mk(s, x, g, false, u));
  }

  /** The stores of insert case 3 (rotate at the grandparent). */
  function InsertCase3(m: Store, s: Side, g: Ref, p: Ref, b: Ref): Store
    requires g in m && p in m && (b != NIL ==> b in m)
    requires m[g].parent != NIL ==> m[g].parent in m
    requires g != b
  {
    var m1 := SetChild(SetChild(m, s, g, b), Opposite(s), p, g);
    RotateSetParents(HangBlack(m1, b, g), g, p, true)
  }

  /** Case 3 cell by cell. */
  lemma Case3Cells(m: Store, s: Side, g: Ref, p: Ref, b: Ref, n: Ref, u: Ref, x: Ref, gp: Ref)
    requires g in m && p in m && (b != NIL ==> b in m && !m[b].red)
    requires gp != NIL ==> gp in m && gp != g && gp != p && gp != b
    requires m[g] == MkCell(s, x, u, gp, false) && m[p] == MkCell(s, n, b, m[p].parent, true)
    requires g != p && g != b && p != b
    ensures InsertCase3(m, s, g, p, b)
         == Relink(RotatedCells(m, s, n, p, false, b, g, true, u, gp), g, p, gp)
  {
    var m1 := SetChild(SetChild(m, s, g, b), Opposite(s), p, g);
    var m2 := HangBlack(m1, b, g);
    var m3 := m2[p := m2[p].(parent := m2[g].parent, red := m2[g].red)];
    assert SetParentColor(m3, g, p, true) == RotatedCells(m, s, n, p, false, b, g, true, u, gp);
  }

  predicate Apart(x: Ref, a: Tree, b: Tree, c: Tree) {
    x != NIL && x !in Ids(a) && x !in Ids(b) && x !in Ids(c)
  }

  predicate Disjoint3(a: Tree, b: Tree, c: Tree) {
    && Distinct(a) && Distinct(b) && Distinct(c)
    && Ids(a) !! Ids(b) && Ids(a) !! Ids(c) && Ids(b) !! Ids(c)
  }

  /** The two cells rewritten by a rotation of p over g, with b moved from p (or elsewhere) to g. */
  function RotatedCells(m: Store, s: Side, n: Ref, p: Ref, pred: bool, b: Ref, g: Ref, gred: bool, u: Ref,
                        up: Ref): Store
    requires b != NIL ==> b in m
  {
    Hung(m, b, g)[p := MkCell(s, n, g, up, pred)][g := MkCell(s, b, u, p, gred)]
  }

  lemma PiecesApart(n: Tree, p: Ref, b: Tree, g: Ref, u: Tree)
    requires Apart(p, n, b, u) && Apart(g, n, b, u) && Disjoint3(n, b, u)
    ensures {p, g} !! Ids(b) && {p, g} + RootSet(b) !! Ids(n) && {p, g} + RootSet(b) !! Ids(u)
  {
    RootInIds(b);
    hide Ids;
  }

  lemma RotatedTree(m: Store, m4: Store, s: Side, n: Tree, p: Ref, b: Tree, bp: Ref, g: Ref, gred: bool, u: Tree)
    requires p != g && Apart(p, n, b, u) && Apart(g, n, b, u) && Disjoint3(n, b, u)
    requires Rep(m, n, p) && Rep(m, b, bp) && Rep(m, u, g)
    requires Same(m, m4, {p, g} + RootSet(b)) && g in m && m4[g] == MkCell(s, RootId(b), RootId(u), p, gred)
    requires b.Node? ==> b.id in m && m4[b.id] == m[b.id].(parent := g)
    ensures Rep(m4, n, p) && Rep(m4, b, g) && Rep(m4, u, g)
  {
    hide Rep, Ids, Distinct;
    PiecesApart(n, p, b, g, u);
    hide Apart, Disjoint3, RootSet;
    assert Rep(m4, b, g) by { ReparentSame(m, m4, {p, g}, b, bp, g); }
    assert Rep(m4, n, p) by { RepSame(m, m4, {p, g} + RootSet(b), n, p); }
    assert Rep(m4, u, g) by { RepSame(m, m4, {p, g} + RootSet(b), u, g); }
  }

  lemma RotatedCellsAt(m: Store, s: Side, n: Ref, p: Ref, pred: bool, b: Tree, g: Ref, gred: bool, u: Ref, up: Ref)
    requires (b.Node? ==> b.id in m && b.id != NIL) && p in m && g in m && p != g && p != RootId(b) && g != RootId(b)
    ensures var m4 := RotatedCells(m, s, n, p, pred, RootId(b), g, gred, u, up);
            && Same(m, m4, {p, g} + RootSet(b))
            && m4[p] == MkCell(s, n, g, up, pred) && m4[g] == MkCell(s, RootId(b), u, p, gred)
            && (b.Node? ==> m4[b.id] == m[b.id].(parent := g))
  {
  }

  /** Disjoint pieces n, b, u and two nodes p, g below the path `up`, ready to be reassembled. */
  predicate Rotatable(m: Store, root: Ref, up: Ctx, oldNode: Ref, n: Tree, p: Ref, b: Tree, bp: Ref, g: Ref, u: Tree) {
    && CtxRep(m, root, up, oldNode) && CtxDistinct(up) && oldNode != NIL && oldNode !in CtxIds(up)
    && p != g && Apart(p, n, b, u) && Apart(g, n, b, u) && Disjoint3(n, b, u)
    && Rep(m, n, p) && Rep(m, b, bp) && Rep(m, u, g) && p in m && g in m
    && CtxIds(up) !! Ids(n) && CtxIds(up) !! Ids(b) && CtxIds(up) !! Ids(u) && p !in CtxIds(up) && g !in CtxIds(up)
  }

  /** Rotating p over g, both hanging from the path `up`: the cells afterwards. */
  lemma RotateRep(m: Store, root: Ref, up: Ctx, oldNode: Ref, s: Side, n: Tree, p: Ref, pred: bool,
                  b: Tree, bp: Ref, g: Ref, gred: bool, u: Tree)
    requires Rotatable(m, root, up, oldNode, n, p, b, bp, g, u)
    ensures b.Node? ==> b.id in m
    ensures CtxParent(up) != NIL ==> CtxParent(up) in m
    ensures var m4 := RotatedCells(m, s, RootId(n), p, pred, RootId(b), g, gred, RootId(u), CtxParent(up));
            var m' := Relink(m4, oldNode, p, CtxParent(up));
            && Focus(m', if up.Top? then p else root, up, Mk(s, n, p, pred, Mk(s, b, g, gred, u)))
            && m'.Keys == m.Keys
  {
    hide Rep, Ids, Distinct, CtxRep, CtxIds, CtxDistinct, Focus, RotatedCells, Relink;
    RepRoot(m, b, bp);
    CtxRoot(m, root, up, oldNode);
    var m4 := RotatedCells(m, s, RootId(n), p, pred, RootId(b), g, gred, RootId(u), CtxParent(up));
    RotatedCellsAt(m, s, RootId(n), p, pred, b, g, gred, RootId(u), CtxParent(up));
    RotatedTree(m, m4, s, n, p, b, bp, g, gred, u);
    var y := Mk(s, b, g, gred, u);
    CloseNode(m4, s, b, g, gred, u, p);
    CloseNode(m4, s, n, p, pred, y, CtxParent(up));
    Rehang(m, root, up, oldNode, Mk(s, n, p, pred, y), m4);
  }

  lemma InsertRotateOuter(m: Store, root: Ref, up: Ctx, s: Side, g: Ref, u: Tree, p: Ref, b: Tree, n: Tree)
    requires Focus(m, root, up, Mk(s, Mk(s, n, p, true, b), g, false, u)) && !IsRed(b)
    ensures g in m && p in m && (b.Node? ==> b.id in m) && m[g].parent == CtxParent(up) && g != RootId(b)
    ensures CtxParent(up) != NIL ==> CtxParent(up) in m
    ensures var m' := InsertCase3(m, s, g, p, RootId(b));
            && Focus(m', if up.Top? then p else root, up, Mk(s, n, p, false, Mk(s, b, g, true, u)))
            && m'.Keys == m.Keys
  {
    hide Rep, Ids, Distinct, CtxRep, CtxIds, CtxDistinct, RotatedCells, Relink, InsertCase3;
    CtxRoot(m, root, up, g);
    OpenNode(m, s, Mk(s, n, p, true, b), g, false, u, CtxParent(up));
    OpenNode(m, s, n, p, true, b, g);
    RotateRep(m, root, up, g, s, n, p, false, b, p, g, true, u);
    Case3Cells(m, s, g, p, RootId(b), RootId(n), RootId(u), p, CtxParent(up));
  }

  lemma InsertRotatedIsRedBlack(up: Ctx, s: Side, n: Tree, p: Ref, b: Tree, g: Ref, u: Tree, h: nat)
    requires Sub(n, h) && Sub(b, h) && !IsRed(b) && Sub(u, h) && !IsRed(u) && Accepts(up, h + 1, false)
    ensures RedBlack(Plug(up, Mk(s, n, p, false, Mk(s, b, g, true, u))))
    ensures InOrder(Plug(up, Mk(s, n, p, false, Mk(s, b, g, true, u))))
         == InOrder(Plug(up, Mk(s, Mk(s, n, p, true, b), g, false, u)))
  {
    var y := Mk(s, b, g, true, u);
    assert Sub(y, h);
    PlugRedBlack(up, Mk(s, n, p, false, y));
    Rotated(s, n, p, b, g, u, false, true, true, false);
    SameOrder(up, Mk(s, n, p, false, y), Mk(s, Mk(s, n, p, true, b), g, false, u));
  }

  lemma Rotated(s: Side, a: Tree, p: Ref, b: Tree, q: Ref, c: Tree, c1: bool, c2: bool, c3: bool, c4: bool)
    ensures InOrder(Mk(s, a, p, c1, Mk(s, b, q, c2, c))) == InOrder(Mk(s, Mk(s, a, p, c3, b), q, c4, c))
  {
    if s.Left? {
      Concat5(InOrder(a), [p], InOrder(b), [q], InOrder(c));
    } else {
      Concat5(InOrder(c), [q], InOrder(b), [p], InOrder(a));
    }
  }

  /** The stores of insert case 2 (rotate at the parent). */
  function InsertCase2(m: Store, s: Side, p: Ref, n: Ref, a: Ref): Store
    requires p in m && n in m && (a != NIL ==> a in m)
  {
    var m1 := SetChild(SetChild(m, Opposite(s), p, a), s, n, p);
    SetParentColor(HangBlack(m1, a, p), p, n, true)
  }

  lemma Case2Cells(m: Store, s: Side, p: Ref, n: Ref, a: Ref, b: Ref, d: Ref)
    requires p in m && n in m && (a != NIL ==> a in m && !m[a].red)
    requires n != p && n != a && p != a
    requires m[n] == MkCell(s, a, d, p, true) && m[p] == MkCell(Opposite(s), n, b, m[p].parent, true)
    ensures InsertCase2(m, s, p, n, a) == Hung(m, a, p)[p := MkCell(s, b, a, n, true)][n := MkCell(s, p, d, p, true)]
  {
  }

  /**
   Insert cases 2 and 3: the node is its parent's inner child.  Between the two the
   grandparent's link still names the old parent, so the cells hold a tree only after both.
   */
  lemma InsertRotateInner(m: Store, root: Ref, up: Ctx, s: Side, g: Ref, u: Tree, p: Ref, b: Tree, n: Ref, a: Tree,
                          d: Tree)
    requires Focus(m, root, up, Mk(s, Mk(Opposite(s), Mk(s, a, n, true, d), p, true, b), g, false, u)) && !IsRed(a)
    requires !IsRed(d)
    ensures g in m && p in m && n in m && (a.Node? ==> a.id in m) && (d.Node? ==> d.id in m) && g != RootId(d)
    ensures var m2 := InsertCase2(m, s, p, n, RootId(a));
            && m2[g].parent == CtxParent(up) && m2.Keys == m.Keys
            && m2[n] == MkCell(s, p, RootId(d), p, true)
    ensures CtxParent(up) != NIL ==> CtxParent(up) in m
    ensures var m' := InsertCase3(InsertCase2(m, s, p, n, RootId(a)), s, g, n, RootId(d));
            && Focus(m', if up.Top? then n else root, up, Mk(s, Mk(s, b, p, true, a), n, false, Mk(s, d, g, true, u)))
            && m'.Keys == m.Keys
  {
    hide Rep, Ids, Distinct, CtxRep, CtxIds, CtxDistinct, RotatedCells, Relink, InsertCase2, InsertCase3, Mk, Hung;
    var nn := Mk(s, a, n, true, d);
    OpenNode(m, s, Mk(Opposite(s), nn, p, true, b), g, false, u, CtxParent(up));
    CtxRoot(m, root, up, g);
    OpenNode(m, Opposite(s), nn, p, true, b, g);
    OpenNode(m, s, a, n, true, d, p);
    Case2Cells(m, s, p, n, RootId(a), RootId(b), RootId(d));
    var m2 := InsertCase2(m, s, p, n, RootId(a));
    InnerRep(m, root, up, s, g, u, p, b, n, a, d);
    RepRoot(m2, d, n);
    Case3Cells(m2, s, g, n, RootId(d), p, RootId(u), p, CtxParent(up));
    RotateRep(m2, root, up, g, s, Mk(s, b, p, true, a), n, false, d, n, g, true, u);
  }

  /** The pieces of the tree between cases 2 and 3. */
  lemma InnerRep(m: Store, root: Ref, up: Ctx, s: Side, g: Ref, u: Tree, p: Ref, b: Tree, n: Ref, a: Tree, d: Tree)
    requires CtxRep(m, root, up, g) && p in m && n in m && g in m && p != n && g != n && g != p && p != NIL && n != NIL
    requires Rep(m, a, n) && Rep(m, d, n) && Rep(m, b, p) && Rep(m, u, g)
    requires Distinct(a) && Distinct(b) && Ids(a) !! Ids(b) && Ids(a) !! Ids(d) && Ids(a) !! Ids(u)
    requires p !in Ids(a) + Ids(b) + Ids(d) + Ids(u) && n !in Ids(a) + Ids(b) + Ids(d) + Ids(u) && g !in Ids(a)
    requires CtxIds(up) !! Ids(a) + {p, n}
    ensures a.Node? ==> a.id in m
    ensures var m1 := Hung(m, RootId(a), p)[p := MkCell(s, RootId(b), RootId(a), n, true)];
      var m2 := m1[n := MkCell(s, p, RootId(d), p, true)];
            && CtxRep(m2, root, up, g) && Rep(m2, d, n) && Rep(m2, u, g) && m2[g] == m[g]
            && Rep(m2, Mk(s, b, p, true, a), n) && Distinct(Mk(s, b, p, true, a))
            && Ids(Mk(s, b, p, true, a)) == Ids(b) + {p} + Ids(a) && RootId(Mk(s, b, p, true, a)) == p
            && m2.Keys == m.Keys
  {
    hide Rep, Ids, Distinct, CtxRep, CtxIds, CtxDistinct;
    RepRoot(m, a, n);
    HungRep(m, a, n, p);
    var m0 := Hung(m, RootId(a), p);
    var m2 := m0[p := MkCell(s, RootId(b), RootId(a), n, true)][n := MkCell(s, p, RootId(d), p, true)];
    RepFrame(m0, m2, a, p);
    RepFrame(m, m2, b, p);
    RepFrame(m, m2, d, n);
    RepFrame(m, m2, u, g);
    CtxRepFrame(m, m2, root, up, g);
    CloseNode(m2, s, b, p, true, a, n);
  }

  lemma InnerOrder(s: Side, b: Tree, p: Ref, a: Tree, n: Ref, d: Tree, g: Ref, u: Tree)
    ensures InOrder(Mk(s, Mk(s, b, p, true, a), n, false, Mk(s, d, g, true, u)))
         == InOrder(Mk(s, Mk(Opposite(s), Mk(s, a, n, true, d), p, true, b), g, false, u))
  {
    var x := Mk(s, b, p, true, a);
    Rotated(s, x, n, d, g, u, false, true, true, false);
    Rotated(s, b, p, a, n, d, true, true, true, true);
  }

  /** What the loop of __rb_insert finds around a red node whose parent is red too. */
  lemma InsertOpen(m: Store, root: Ref, c: Ctx, t: Tree, h: nat)
    requires Focus(m, root, c, t) && IsRed(t) && Sub(t, h) && Accepts(c, h, false) && c.In? && c.red
    ensures c.up.In? && !c.up.red
    ensures var g := c.up;
      && Focus(m, root, g.up, Mk(g.side, Mk(c.side, t, c.id, true, c.sib), g.id, false, g.sib))
      && Plug(c, t) == Plug(g.up, Mk(g.side, Mk(c.side, t, c.id, true, c.sib), g.id, false, g.sib))
      && Sub(c.sib, h) && !IsRed(c.sib) && Sub(g.sib, h) && Accepts(g.up, h + 1, false)
      && t.id in m && c.id in m && g.id in m && t.id != NIL && c.id != NIL && g.id != NIL
      && m[t.id] == Cell(RootId(t.left), RootId(t.right), c.id, true)
      && m[c.id] == MkCell(c.side, t.id, RootId(c.sib), g.id, true)
      && m[g.id] == MkCell(g.side, c.id, RootId(g.sib), CtxParent(g.up), false)
      && RootId(g.sib) != c.id && RootId(c.sib) != t.id
      && (g.sib.Node? ==> g.sib.id in m && g.sib.id != NIL && m[g.sib.id].red == g.sib.red)
      && (g.sib.Node? ==> g.sib.id != g.id) && t.id != c.id && c.id != g.id
      && !IsRed(t.left) && !IsRed(t.right)
      && (t.left.Node? ==> t.left.id in m && t.left.id != NIL)
      && (t.right.Node? ==> t.right.id in m && t.right.id != NIL)
      && (c.sib.Node? ==> c.sib.id in m && c.sib.id != NIL)
      && (CtxParent(g.up) != NIL ==> CtxParent(g.up) in m) && (g.up.Top? <==> CtxParent(g.up) == NIL)
  {
    var g := c.up;
    var pt := Mk(c.side, t, c.id, true, c.sib);
    FocusStep(m, root, g, c.side, c.id, true, c.sib, t);
    FocusStep(m, root, g.up, g.side, g.id, false, g.sib, pt);
    InsertOpenCells(m, root, g.up, g.side, g.id, g.sib, c.side, c.id, c.sib, t);
  }

  lemma InsertOpenCells(m: Store, root: Ref, up: Ctx, gs: Side, g: Ref, u: Tree, ps: Side, p: Ref, b: Tree, t: Tree)
    requires Focus(m, root, up, Mk(gs, Mk(ps, t, p, true, b), g, false, u)) && t.Node?
    ensures t.id in m && p in m && g in m && t.id != NIL && p != NIL && g != NIL
    ensures m[t.id] == Cell(RootId(t.left), RootId(t.right), p, t.red)
    ensures m[p] == MkCell(ps, t.id, RootId(b), g, true) && m[g] == MkCell(gs, p, RootId(u), CtxParent(up), false)
    ensures RootId(u) != p && RootId(b) != t.id && (u.Node? ==> u.id in m && u.id != NIL && m[u.id].red == u.red)
    ensures u.Node? ==> u.id != g
    ensures t.id != p && p != g && (b.Node? ==> b.id in m && b.id != NIL)
    ensures t.left.Node? ==> t.left.id in m && t.left.id != NIL
    ensures t.right.Node? ==> t.right.id in m && t.right.id != NIL
    ensures (CtxParent(up) != NIL ==> CtxParent(up) in m) && (up.Top? <==> CtxParent(up) == NIL)
  {
    hide Rep, Ids, Distinct, CtxRep, CtxIds, CtxDistinct;
    var pt := Mk(ps, t, p, true, b);
    CtxRoot(m, root, up, g);
    OpenNode(m, gs, pt, g, false, u, CtxParent(up));
    OpenNode(m, ps, t, p, true, b, g);
    OpenNode(m, Left, t.left, t.id, t.red, t.right, p);
  }

  lemma InsertInnerIsRedBlack(up: Ctx, s: Side, b: Tree, p: Ref, a: Tree, n: Ref, d: Tree, g: Ref, u: Tree, h: nat)
    requires Sub(b, h) && !IsRed(b) && Sub(Mk(s, a, n, true, d), h) && Sub(u, h) && !IsRed(u)
    requires Accepts(up, h + 1, false)
    ensures RedBlack(Plug(up, Mk(s, Mk(s, b, p, true, a), n, false, Mk(s, d, g, true, u))))
    ensures InOrder(Plug(up, Mk(s, Mk(s, b, p, true, a), n, false, Mk(s, d, g, true, u))))
         == InOrder(Plug(up, Mk(s, Mk(Opposite(s), Mk(s, a, n, true, d), p, true, b), g, false, u)))
  {
    var x := Mk(s, b, p, true, a);
    assert Sub(a, h) && Sub(d, h) && !IsRed(a) && !IsRed(d);
    assert Sub(x, h);
    InsertRotatedIsRedBlack(up, s, x, n, d, g, u, h);
    InnerOrder(s, b, p, a, n, d, g, u);
    SameOrder(up, Mk(s, x, n, false, Mk(s, d, g, true, u)),
        Mk(s, Mk(Opposite(s), Mk(s, a, n, true, d), p, true, b), g, false, u));
  }

  /** The state on entry to the loop of __rb_insert. */
  lemma InsertStart(m: Store, root: Ref, c: Ctx, n: Ref)
    requires Focus(m, root, c, Node(Leaf, n, true, Leaf)) && RedBlack(Plug(c, Leaf))
    ensures Sub(Node(Leaf, n, true, Leaf), 0) && Accepts(c, 0, false)
    ensures InOrder(Plug(c, Node(Leaf, n, true, Leaf))) == Before(c) + [n] + After(c)
    ensures n in m && m[n].parent == CtxParent(c)
  {
    PlugRedBlack(c, Leaf);
    InOrderPlug(c, Node(Leaf, n, true, Leaf));
    assert InOrder(Node(Leaf, n, true, Leaf)) == [n];
  }

  /** The two ways the loop of __rb_insert ends without rotating. */
  lemma InsertCell(m: Store, root: Ref, c: Ctx, t: Tree, h: nat)
    requires Focus(m, root, c, t) && IsRed(t) && Sub(t, h) && Accepts(c, h, false)
    ensures t.id in m && m[t.id].parent == CtxParent(c) && (c.Top? <==> CtxParent(c) == NIL)
    ensures c.In? ==> c.id in m && m[c.id].red == c.red
    ensures c.Top? ==> Focus(SetParentColor(m, t.id, NIL, false), root, Top, t.(red := false))
    ensures c.Top? ==> RedBlack(t.(red := false)) && InOrder(t.(red := false)) == InOrder(Plug(c, t))
    ensures c.In? && !c.red ==> RedBlack(Plug(c, t)) && Focus(m, root, Top, Plug(c, t))
  {
    CtxRoot(m, root, c, t.id);
    if c.Top? {
      Recolour(m, SetParentColor(m, t.id, NIL, false), t, NIL, NIL, false);
    } else if !c.red {
      PlugRedBlack(c, t);
      FocusIffRep(m, root, c, t);
    }
  }
}
