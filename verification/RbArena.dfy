/**
 The linked form of a red-black tree: struct rb_node cells with left, right and parent
 pointers and a colour, addressed by reference.  `Rep` ties the cells to a tree value.
 */
module RbArena {
  import opened RedBlackTree

  datatype Cell = Cell(left: Ref, right: Ref, parent: Ref, red: bool)

  type Store = map<Ref, Cell>

  /** A cell whose child on side `s` is `a` and whose other child is `b`. */
  function MkCell(s: Side, a: Ref, b: Ref, parent: Ref, red: bool): Cell {
    if s.Left? then Cell(a, b, parent, red) else Cell(b, a, parent, red)
  }

  function Child(x: Cell, s: Side): Ref {
    if s.Left? then x.left else x.right
  }

  /** The cells below hold exactly the tree `t`, hanging from `parent`. */
  predicate Rep(m: Store, t: Tree, parent: Ref) {
    match t
    case Leaf => true
    case Node(l, id, red, r) =>
      && id in m && m[id] == Cell(RootId(l), RootId(r), parent, red)
      && Rep(m, l, id) && Rep(m, r, id)
  }

  /** The cells of the path `c` are linked up to `root`, with `hole` in the place of the focus. */
  predicate CtxRep(m: Store, root: Ref, c: Ctx, hole: Ref) {
    match c
    case Top => root == hole
    case In(up, s, id, red, sib) =>
      && id in m && m[id] == MkCell(s, hole, RootId(sib), CtxParent(up), red)
      && Rep(m, sib, id) && CtxRep(m, root, up, id)
  }

  /** The whole linked structure: a tree of distinct nodes seen from the focus (c, t). */
  predicate Focus(m: Store, root: Ref, c: Ctx, t: Tree) {
    && CtxRep(m, root, c, RootId(t)) && Rep(m, t, CtxParent(c))
    && CtxDistinct(c) && Distinct(t) && CtxIds(c) !! Ids(t)
  }

  predicate Agree(m: Store, m': Store, s: set<Ref>) {
    forall x :: x in s && x in m ==> x in m' && m'[x] == m[x]
  }

  lemma {:induction false} RepFrame(m: Store, m': Store, t: Tree, parent: Ref)
    requires Rep(m, t, parent) && Agree(m, m', Ids(t))
    ensures Rep(m', t, parent)
  {
    match t
    case Leaf =>
    case Node(l, id, _, r) => RepFrame(m, m', l, id); RepFrame(m, m', r, id);
  }

  lemma {:induction false} CtxRepFrame(m: Store, m': Store, root: Ref, c: Ctx, hole: Ref)
    requires CtxRep(m, root, c, hole) && Agree(m, m', CtxIds(c))
    ensures CtxRep(m', root, c, hole)
  {
    match c
    case Top =>
    case In(up, _, id, _, sib) =>
      RepFrame(m, m', sib, id);
      CtxRepFrame(m, m', root, up, id);
  }

  /** Only the cells in `touched` differ. */
  predicate Same(m: Store, m': Store, touched: set<Ref>) {
    m'.Keys == m.Keys && forall x :: x in m && x !in touched ==> m'[x] == m[x]
  }

  function RootSet(t: Tree): set<Ref> {
    if t.Leaf? then {} else {t.id}
  }

  lemma RootInIds(t: Tree)
    ensures t.Node? ==> t.id in Ids(t)
  {
  }

  lemma RepRoot(m: Store, t: Tree, parent: Ref)
    requires Rep(m, t, parent) && Distinct(t)
    ensures t.Node? ==> t.id in Ids(t) && t.id != NIL && t.id in m && m[t.id].red == t.red && m[t.id].parent == parent
  {
  }

  lemma CtxRoot(m: Store, root: Ref, c: Ctx, hole: Ref)
    requires CtxRep(m, root, c, hole) && CtxDistinct(c)
    ensures c.Top? <==> CtxParent(c) == NIL
    ensures c.In? ==>
              c.id in CtxIds(c) && c.id in m && m[c.id] == MkCell(c.side, hole, RootId(c.sib), CtxParent(c.up), c.red)
    ensures c.In? ==> c.id !in CtxIds(c.up) && CtxRep(m, root, c.up, c.id) && CtxDistinct(c.up)
  {
  }

  lemma RepSame(m: Store, m': Store, touched: set<Ref>, t: Tree, parent: Ref)
    requires Rep(m, t, parent) && Same(m, m', touched) && touched !! Ids(t)
    ensures Rep(m', t, parent)
  {
    RepFrame(m, m', t, parent);
  }

  /** Moving the parent pointer of a subtree's root hangs the subtree elsewhere. */
  lemma Reparent(m: Store, m': Store, t: Tree, parent: Ref, parent': Ref)
    requires Rep(m, t, parent) && Distinct(t)
    requires t.Node? ==> t.id in m' && m'[t.id] == m[t.id].(parent := parent')
    requires Agree(m, m', Ids(t) - {RootId(t)})
    ensures Rep(m', t, parent')
  {
    match t
    case Leaf =>
    case Node(l, id, _, r) => RepFrame(m, m', l, id); RepFrame(m, m', r, id);
  }

  lemma ReparentSame(m: Store, m': Store, touched: set<Ref>, t: Tree, parent: Ref, parent': Ref)
    requires Rep(m, t, parent) && Distinct(t) && Same(m, m', touched + RootSet(t)) && touched !! Ids(t)
    requires t.Node? ==> t.id in m && m'[t.id] == m[t.id].(parent := parent')
    ensures Rep(m', t, parent')
  {
    Reparent(m, m', t, parent, parent');
  }

  /** Same as `Reparent`, also giving the root a new colour. */
  lemma Recolour(m: Store, m': Store, t: Tree, parent: Ref, parent': Ref, red': bool)
    requires t.Node? && Rep(m, t, parent) && Distinct(t)
    requires t.id in m' && m'[t.id] == m[t.id].(parent := parent', red := red')
    requires Agree(m, m', Ids(t) - {t.id})
    ensures Rep(m', t.(red := red'), parent') && Distinct(t.(red := red')) && Ids(t.(red := red')) == Ids(t)
  {
    RepFrame(m, m', t.left, t.id);
    RepFrame(m, m', t.right, t.id);
  }

  /** The link that leads from the path `c` down to its hole (the effect of __rb_change_child). */
  function ChangeChild(m: Store, c: Ctx, hole': Ref): Store
    requires c.In? ==> c.id in m
  {
    match c
    case Top => m
    case In(_, s, id, _, _) =>
      if s.Left? then m[id := m[id].(left := hole')] else m[id := m[id].(right := hole')]
  }

  lemma ChangeChildRep(m: Store, root: Ref, c: Ctx, hole: Ref, hole': Ref)
    requires CtxRep(m, root, c, hole) && CtxDistinct(c)
    ensures CtxRep(ChangeChild(m, c, hole'), if c.Top? then hole' else root, c, hole')
  {
    match c
    case Top =>
    case In(up, s, id, red, sib) =>
      var m' := ChangeChild(m, c, hole');
      RepFrame(m, m', sib, id);
      CtxRepFrame(m, m', root, up, id);
  }

  /** What `Rep` and `Distinct` say about one node, side-generic. */
  lemma OpenNode(m: Store, s: Side, a: Tree, id: Ref, red: bool, b: Tree, parent: Ref)
    requires Rep(m, Mk(s, a, id, red, b), parent) && Distinct(Mk(s, a, id, red, b))
    ensures id in m && m[id] == MkCell(s, RootId(a), RootId(b), parent, red) && id != NIL
    ensures Rep(m, a, id) && Rep(m, b, id) && Distinct(a) && Distinct(b)
    ensures id !in Ids(a) && id !in Ids(b) && Ids(a) !! Ids(b)
    ensures Ids(Mk(s, a, id, red, b)) == Ids(a) + {id} + Ids(b) && RootId(Mk(s, a, id, red, b)) == id
    ensures a.Node? ==> a.id in Ids(a) && a.id in m && a.id != NIL && m[a.id].red == a.red && m[a.id].parent == id
    ensures b.Node? ==> b.id in Ids(b) && b.id in m && b.id != NIL && m[b.id].red == b.red && m[b.id].parent == id
  {
  }

  lemma CloseNode(m: Store, s: Side, a: Tree, id: Ref, red: bool, b: Tree, parent: Ref)
    requires id in m && m[id] == MkCell(s, RootId(a), RootId(b), parent, red) && id != NIL
    requires Rep(m, a, id) && Rep(m, b, id) && Distinct(a) && Distinct(b)
    requires id !in Ids(a) && id !in Ids(b) && Ids(a) !! Ids(b)
    ensures Rep(m, Mk(s, a, id, red, b), parent) && Distinct(Mk(s, a, id, red, b))
    ensures Ids(Mk(s, a, id, red, b)) == Ids(a) + {id} + Ids(b)
    ensures RootId(Mk(s, a, id, red, b)) == id
  {
  }

  /** Moving the focus one node up or down. */
  lemma FocusStep(m: Store, root: Ref, up: Ctx, s: Side, id: Ref, red: bool, sib: Tree, t: Tree)
    ensures Focus(m, root, In(up, s, id, red, sib), t) <==> Focus(m, root, up, Mk(s, t, id, red, sib))
    ensures Plug(In(up, s, id, red, sib), t) == Plug(up, Mk(s, t, id, red, sib))
  {
    var c, t' := In(up, s, id, red, sib), Mk(s, t, id, red, sib);
    if Focus(m, root, c, t) {
      assert Rep(m, t', CtxParent(up));
    }
  }

  /** Seeing the tree from a focus or from its root is the same thing. */
  lemma {:induction false} FocusIffRep(m: Store, root: Ref, c: Ctx, t: Tree)
    ensures Focus(m, root, c, t) <==> Focus(m, root, Top, Plug(c, t))
  {
    match c
    case Top =>
    case In(up, s, id, red, sib) =>
      FocusStep(m, root, up, s, id, red, sib, t);
      FocusIffRep(m, root, up, Mk(s, t, id, red, sib));
  }
}
