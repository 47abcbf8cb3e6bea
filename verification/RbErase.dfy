/**
 The cases of ____rb_erase_color.  The focus is the deficient position: `n` has black
 height h where its context expects h + 1.  `s` is the side of `n` below its parent `p`,
 so the sibling hangs on the other side; "near" is the sibling's child towards `n`.
 */
module RbErase {
  import opened RedBlackTree
  import opened RbArena
  import opened RbRotations

  /** All leaf paths through the focus carry one black node less than the others (rbtree.c:236-242). */
  predicate Deficient(c: Ctx, n: Tree, h: nat) {
    c.In? && Sub(n, h) && !IsRed(n) && Accepts(c, h + 1, false)
  }

  /** What the loop finds around a deficient position. */
  lemma EraseOpen(m: Store, root: Ref, c: Ctx, n: Tree, h: nat)
    requires Focus(m, root, c, n) && Deficient(c, n, h)
    ensures c.sib.Node? && Sub(c.sib, h + 1) && (c.red ==> !c.sib.red)
    ensures Accepts(c.up, h + 1 + (if c.red then 0 else 1), c.red)
    ensures Focus(m, root, c.up, Mk(c.side, n, c.id, c.red, c.sib))
    ensures Plug(c, n) == Plug(c.up, Mk(c.side, n, c.id, c.red, c.sib))
    ensures c.id in m && c.id != NIL && m[c.id] == MkCell(c.side, RootId(n), c.sib.id, CtxParent(c.up), c.red)
    ensures RootId(n) != c.sib.id && c.sib.id in m && c.sib.id != NIL && c.sib.id != c.id
    ensures m[c.sib.id] == Cell(RootId(c.sib.left), RootId(c.sib.right), c.id, c.sib.red)
    ensures var l := c.sib.left; l.Node? ==>
              l.id in m && l.id != NIL && m[l.id].red == l.red && l.id != c.sib.id && l.id != c.id
    ensures var r := c.sib.right; r.Node? ==>
              r.id in m && r.id != NIL && m[r.id].red == r.red && r.id != c.sib.id && r.id != c.id
    ensures (CtxParent(c.up) != NIL ==> CtxParent(c.up) in m) && (c.up.Top? <==> CtxParent(c.up) == NIL)
  {
    FocusStep(m, root, c.up, c.side, c.id, c.red, c.sib, n);
    assert c.sib.Node?;
    EraseOpenCells(m, root, c.up, c.side, c.id, c.red, n, c.sib);
  }

  lemma EraseOpenCells(m: Store, root: Ref, up: Ctx, s: Side, p: Ref, pred: bool, n: Tree, sib: Tree)
    requires Focus(m, root, up, Mk(s, n, p, pred, sib)) && sib.Node?
    ensures p in m && p != NIL && m[p] == MkCell(s, RootId(n), sib.id, CtxParent(up), pred)
    ensures RootId(n) != sib.id && sib.id in m && sib.id != NIL && sib.id != p
    ensures m[sib.id] == Cell(RootId(sib.left), RootId(sib.right), p, sib.red)
    ensures var l := sib.left; l.Node? ==>
              l.id in m && l.id != NIL && m[l.id].red == l.red && l.id != sib.id && l.id != p
    ensures var r := sib.right; r.Node? ==>
              r.id in m && r.id != NIL && m[r.id].red == r.red && r.id != sib.id && r.id != p
    ensures (CtxParent(up) != NIL ==> CtxParent(up) in m) && (up.Top? <==> CtxParent(up) == NIL)
  {
    hide Rep, Ids, Distinct, CtxRep, CtxIds, CtxDistinct;
    CtxRoot(m, root, up, p);
    OpenNode(m, s, n, p, pred, sib, CtxParent(up));
    OpenNode(m, Left, sib.left, sib.id, sib.red, sib.right, p);
  }

  // --------------------------------------------------------------- case 1: red sibling

  lemma EraseRedSibling(m: Store, root: Ref, up: Ctx, s: Side, p: Ref, n: Tree, sb: Ref, near: Tree, far: Tree)
    requires Focus(m, root, up, Mk(s, n, p, false, Mk(s, near, sb, true, far))) && !IsRed(near)
    ensures p in m && sb in m && (near.Node? ==> near.id in m) && p != RootId(near) && m[p].parent == CtxParent(up)
    ensures CtxParent(up) != NIL ==> CtxParent(up) in m
    ensures var m' := InsertCase3(m, Opposite(s), p, sb, RootId(near));
            var c' := In(In(up, s, sb, false, far), s, p, true, near);
            && Focus(m', if up.Top? then sb else root, c', n)
            && m'.Keys == m.Keys
  {
    hide Rep, Ids, Distinct, CtxRep, CtxIds, CtxDistinct, RotatedCells, Relink, InsertCase3, Focus;
    EraseCells1(m, root, up, s, p, n, sb, near, far);
    var m' := InsertCase3(m, Opposite(s), p, sb, RootId(near));
    var root' := if up.Top? then sb else root;
    var x := Mk(s, n, p, true, near);
    FocusStep(m', root', up, s, sb, false, far, x);
    FocusStep(m', root', In(up, s, sb, false, far), s, p, true, near, n);
  }

  lemma EraseCells1(m: Store, root: Ref, up: Ctx, s: Side, p: Ref, n: Tree, sb: Ref, near: Tree, far: Tree)
    requires Focus(m, root, up, Mk(s, n, p, false, Mk(s, near, sb, true, far))) && !IsRed(near)
    ensures p in m && sb in m && (near.Node? ==> near.id in m) && p != RootId(near) && m[p].parent == CtxParent(up)
    ensures CtxParent(up) != NIL ==> CtxParent(up) in m
    ensures var m' := InsertCase3(m, Opposite(s), p, sb, RootId(near));
            && Focus(m', if up.Top? then sb else root, up, Mk(s, Mk(s, n, p, true, near), sb, false, far))
            && m'.Keys == m.Keys
  {
    hide Rep, Ids, Distinct, CtxRep, CtxIds, CtxDistinct, RotatedCells, Relink, InsertCase3;
    CtxRoot(m, root, up, p);
    var sib := Mk(s, near, sb, true, far);
    OpenNode(m, s, n, p, false, sib, CtxParent(up));
    OpenNode(m, s, near, sb, true, far, p);
    RotateRep(m, root, up, p, Opposite(s), far, sb, false, near, sb, p, true, n);
    Case3Cells(m, Opposite(s), p, sb, RootId(near), RootId(far), RootId(n), sb, CtxParent(up));
  }

  lemma RedSiblingKeeps(up: Ctx, s: Side, p: Ref, n: Tree, sb: Ref, near: Tree, far: Tree, h: nat)
    requires Sub(n, h) && !IsRed(n) && Sub(Mk(s, near, sb, true, far), h + 1) && Accepts(up, h + 2, false)
    ensures !IsRed(near) && near.Node?
    ensures Deficient(In(In(up, s, sb, false, far), s, p, true, near), n, h)
    ensures InOrder(Plug(In(In(up, s, sb, false, far), s, p, true, near), n))
         == InOrder(Plug(up, Mk(s, n, p, false, Mk(s, near, sb, true, far))))
  {
    assert Sub(near, h + 1) && Sub(far, h + 1);
    assert Accepts(In(up, s, sb, false, far), h + 1, true);
    assert Plug(In(In(up, s, sb, false, far), s, p, true, near), n) ==
               Plug(up, Mk(s, Mk(s, n, p, true, near), sb, false, far));
    Rotated(s, n, p, near, sb, far, false, true, true, false);
    SameOrder(up, Mk(s, n, p, false, Mk(s, near, sb, true, far)), Mk(s, Mk(s, n, p, true, near), sb, false, far));
  }

  // ------------------------------------------------ case 2: black sibling, black nephews

  lemma EraseFlip(m: Store, root: Ref, up: Ctx, s: Side, p: Ref, pred: bool, n: Tree, sib: Tree)
    requires Focus(m, root, up, Mk(s, n, p, pred, sib)) && sib.Node?
    ensures sib.id in m && p in m
    ensures Focus(SetParentColor(m, sib.id, p, true), root, up, Mk(s, n, p, pred, sib.(red := true)))
    ensures var m1 := SetParentColor(m, sib.id, p, true);
            Focus(m1[p := m1[p].(red := false)], root, up, Mk(s, n, p, false, sib.(red := true)))
  {
    hide Rep, Ids, Distinct, CtxRep, CtxIds, CtxDistinct;
    OpenNode(m, s, n, p, pred, sib, CtxParent(up));
    var m1 := SetParentColor(m, sib.id, p, true);
    Recolour(m, m1, sib, p, p, true);
    RepFrame(m, m1, n, p);
    CtxRepFrame(m, m1, root, up, p);
    CloseNode(m1, s, n, p, pred, sib.(red := true), CtxParent(up));
    var m2 := m1[p := m1[p].(red := false)];
    RepFrame(m1, m2, n, p);
    RepFrame(m1, m2, sib.(red := true), p);
    CtxRepFrame(m1, m2, root, up, p);
    CloseNode(m2, s, n, p, false, sib.(red := true), CtxParent(up));
  }

  lemma FlipKeeps(up: Ctx, s: Side, p: Ref, pred: bool, n: Tree, sib: Tree, h: nat)
    requires Sub(n, h) && !IsRed(n) && Sub(sib, h + 1) && sib.Node? && !sib.red && !IsRed(sib.left) && !IsRed(sib.right)
    requires Accepts(up, h + 1 + (if pred then 0 else 1), pred)
    ensures var t' := Mk(s, n, p, false, sib.(red := true));
      && InOrder(Plug(up, t')) == InOrder(Plug(up, Mk(s, n, p, pred, sib)))
      && (pred ==> RedBlack(Plug(up, t')))
      && (!pred && up.Top? ==> RedBlack(t') && Plug(up, t') == t')
      && (!pred && up.In? ==> Deficient(up, t', h + 1))
  {
    var t' := Mk(s, n, p, false, sib.(red := true));
    assert Sub(sib.(red := true), h);
    assert Sub(t', h + 1);
    PlugRedBlack(up, t');
    SameOrder(up, t', Mk(s, n, p, pred, sib));
    if pred {
      AcceptsBlack(up, h + 1);
    }
  }

  /** Where a red root fits, a black one of the same black height fits as well. */
  lemma AcceptsBlack(c: Ctx, h: nat)
    requires Accepts(c, h, true)
    ensures Accepts(c, h, false)
  {
  }

  // ------------------------------------------------------- case 4: the far nephew is red

  /** The stores of case 4; `far` is tmp1 and `near` is tmp2 of the source. */
  function EraseCase4(m: Store, s: Side, p: Ref, sb: Ref, far: Ref, near: Ref): Store
    requires p in m && sb in m && far in m && (near != NIL ==> near in m)
    requires m[p].parent != NIL ==> m[p].parent in m
    requires p != far && p != near
  {
    var m1 := SetChild(SetChild(m, Opposite(s), p, near), s, sb, p);
    var m2 := SetParentColor(m1, far, sb, false);
    var m3 := if near == NIL then m2 else SetParent(m2, near, p);
    RotateSetParents(m3, p, sb, false)
  }

  lemma Case4Cells(m: Store, s: Side, p: Ref, pred: bool, n: Ref, sb: Ref, x: Ref, far: Ref, near: Ref, gp: Ref,
                   y: Ref, sred: bool)
    requires p in m && sb in m && far in m && (near != NIL ==> near in m)
    requires p != sb && p != far && p != near && sb != far && sb != near && far != near
    requires gp != NIL ==> gp in m
    requires m[p] == MkCell(s, n, x, gp, pred) && m[sb] == MkCell(s, near, far, y, sred)
    ensures EraseCase4(m, s, p, sb, far, near)
         == Relink(RotatedCells(SetParentColor(m, far, sb, false), Opposite(s), far, sb, pred, near, p, false, n, gp),
                   p, sb, gp)
  {
    var m1 := SetChild(SetChild(m, Opposite(s), p, near), s, sb, p);
    var a, b := MkCell(s, n, near, gp, pred), MkCell(s, p, far, y, sred);
    assert m1 == m[p := a][sb := b];
    var m0 := SetParentColor(m, far, sb, false);
    Case4Hang(m, m1, p, a, sb, b, far, near);
    var m2 := SetParentColor(m1, far, sb, false);
    var m3 := if near == NIL then m2 else SetParent(m2, near, p);
    Case4Turn(m3, m0, s, p, pred, n, sb, far, near, gp, y, sred);
  }

  lemma Case4Hang(m: Store, m1: Store, p: Ref, a: Cell, sb: Ref, b: Cell, far: Ref, near: Ref)
    requires p in m && sb in m && far in m && (near != NIL ==> near in m)
    requires p != sb && p != far && p != near && sb != far && sb != near && far != near
    requires m1 == m[p := a][sb := b]
    ensures var m2 := SetParentColor(m1, far, sb, false);
            var m0 := SetParentColor(m, far, sb, false);
            (if near == NIL then m2 else SetParent(m2, near, p)) == Hung(m0, near, p)[p := a][sb := b]
  {
  }

  lemma TurnedCells(m3: Store, m0: Store, s: Side, p: Ref, pred: bool, n: Ref, sb: Ref, far: Ref, near: Ref, gp: Ref,
                    y: Ref, sred: bool)
    requires p in m3 && sb in m3 && p != sb && (near != NIL ==> near in m0)
    requires m3 == Hung(m0, near, p)[p := MkCell(s, n, near, gp, pred)][sb := MkCell(s, p, far, y, sred)]
    ensures m3[p].parent == gp && m3[p].red == pred
    ensures m3[sb := m3[sb].(parent := gp, red := pred)][p := m3[p].(parent := sb, red := false)]
         == RotatedCells(m0, Opposite(s), far, sb, pred, near, p, false, n, gp)
  {
    hide Hung;
    var h := Hung(m0, near, p);
  }

  lemma Case4Turn(m3: Store, m0: Store, s: Side, p: Ref, pred: bool, n: Ref, sb: Ref, far: Ref, near: Ref, gp: Ref,
                  y: Ref, sred: bool)
    requires p in m3 && sb in m3 && p != sb && (near != NIL ==> near in m0) && (gp != NIL ==> gp in m3)
    requires m3 == Hung(m0, near, p)[p := MkCell(s, n, near, gp, pred)][sb := MkCell(s, p, far, y, sred)]
    ensures RotateSetParents(m3, p, sb, false)
         == Relink(RotatedCells(m0, Opposite(s), far, sb, pred, near, p, false, n, gp), p, sb, gp)
  {
    TurnedCells(m3, m0, s, p, pred, n, sb, far, near, gp, y, sred);
    hide Relink, RotatedCells, Hung;
    var m4 := m3[sb := m3[sb].(parent := m3[p].parent, red := m3[p].red)];
    assert SetParentColor(m4, p, sb, false) == RotatedCells(m0, Opposite(s), far, sb, pred, near, p, false, n, gp);
  }

  lemma EraseRotateOuter(m: Store, root: Ref, up: Ctx, s: Side, p: Ref, pred: bool, n: Tree, sb: Ref, near: Tree,
                         far: Tree)
    requires Focus(m, root, up, Mk(s, n, p, pred, Mk(s, near, sb, false, far))) && far.Node?
    ensures p in m && sb in m && far.id in m && (near.Node? ==> near.id in m) && p != far.id && p != RootId(near)
    ensures m[p].parent == CtxParent(up) && (CtxParent(up) != NIL ==> CtxParent(up) in m)
    ensures var m' := EraseCase4(m, s, p, sb, far.id, RootId(near));
            && Focus(m', if up.Top? then sb else root, up,
                     Mk(s, Mk(s, n, p, false, near), sb, pred, far.(red := false)))
            && m'.Keys == m.Keys
  {
    hide Rep, Ids, Distinct, CtxRep, CtxIds, CtxDistinct, RotatedCells, Relink, EraseCase4;
    CtxRoot(m, root, up, p);
    var sib := Mk(s, near, sb, false, far);
    OpenNode(m, s, n, p, pred, sib, CtxParent(up));
    OpenNode(m, s, near, sb, false, far, p);
    var m0 := SetParentColor(m, far.id, sb, false);
    Recolour(m, m0, far, sb, sb, false);
    RepFrame(m, m0, n, p);
    RepFrame(m, m0, near, sb);
    CtxRepFrame(m, m0, root, up, p);
    RotateRep(m0, root, up, p, Opposite(s), far.(red := false), sb, pred, near, sb, p, false, n);
    Case4Cells(m, s, p, pred, RootId(n), sb, sb, far.id, RootId(near), CtxParent(up), p, false);
  }

  lemma OuterKeeps(up: Ctx, s: Side, p: Ref, pred: bool, n: Tree, sb: Ref, near: Tree, far: Tree, h: nat)
    requires Sub(n, h) && !IsRed(n) && Sub(Mk(s, near, sb, false, far), h + 1) && IsRed(far)
    requires Accepts(up, h + 1 + (if pred then 0 else 1), pred)
    ensures var t' := Mk(s, Mk(s, n, p, false, near), sb, pred, far.(red := false));
      && RedBlack(Plug(up, t'))
      && InOrder(Plug(up, t')) == InOrder(Plug(up, Mk(s, n, p, pred, Mk(s, near, sb, false, far))))
  {
    assert Sub(near, h) && Sub(far, h);
    var a, b := Mk(s, n, p, false, near), far.(red := false);
    assert Sub(a, h + 1) && Sub(b, h + 1);
    PlugRedBlack(up, Mk(s, a, sb, pred, b));
    Rotated(s, n, p, near, sb, far, pred, false, false, pred);
    assert InOrder(b) == InOrder(far);
    SameOrder(up, Mk(s, a, sb, pred, b), Mk(s, n, p, pred, Mk(s, near, sb, false, far)));
  }

  // ------------------------------------- cases 3 and 4: only the near nephew is red

  /** The stores of case 3; `nr` is tmp2 of the source and `y` the subtree it gives away. */
  function EraseCase3(m: Store, s: Side, p: Ref, sb: Ref, nr: Ref, y: Ref): Store
    requires p in m && sb in m && nr in m && (y != NIL ==> y in m)
  {
    var m1 := SetChild(SetChild(SetChild(m, s, sb, y), Opposite(s), nr, sb), Opposite(s), p, nr);
    HangBlack(m1, y, sb)
  }

  lemma EraseCells3(m: Store, s: Side, p: Ref, pred: bool, n: Ref, gp: Ref, sb: Ref, far: Ref, nr: Ref, x: Ref, y: Ref)
    requires p in m && sb in m && nr in m && (y != NIL ==> y in m && !m[y].red)
    requires p != sb && p != nr && sb != nr && y != p && y != sb && y != nr
    requires m[p] == MkCell(s, n, sb, gp, pred) && m[sb] == MkCell(s, nr, far, p, false)
    requires m[nr] == MkCell(s, x, y, sb, true)
    ensures EraseCase3(m, s, p, sb, nr, y)
         == Hung(m, y, sb)[sb := MkCell(s, y, far, p, false)][nr := MkCell(s, x, sb, sb, true)]
                          [p := MkCell(s, n, nr, gp, pred)]
    ensures SetParentColor(EraseCase3(m, s, p, sb, nr, y), sb, nr, false) ==
                InnerCells(m, s, p, pred, n, gp, sb, far, nr, x, y)
    ensures EraseCase3(m, s, p, sb, nr, y).Keys == m.Keys
  {
    var a, b, c := MkCell(s, y, far, p, false), MkCell(s, x, sb, sb, true), MkCell(s, n, nr, gp, pred);
    var m1 := SetChild(SetChild(SetChild(m, s, sb, y), Opposite(s), nr, sb), Opposite(s), p, nr);
    assert m1 == m[sb := a][nr := b][p := c];
    InnerHang(m, m1, p, c, sb, a, nr, b, y);
  }

  lemma InnerHang(m: Store, m1: Store, p: Ref, c: Cell, sb: Ref, a: Cell, nr: Ref, b: Cell, y: Ref)
    requires p in m && sb in m && nr in m && (y != NIL ==> y in m && !m[y].red)
    requires p != sb && p != nr && sb != nr && y != p && y != sb && y != nr && !a.red
    requires m1 == m[sb := a][nr := b][p := c]
    ensures HangBlack(m1, y, sb) == Hung(m, y, sb)[sb := a][nr := b][p := c]
    ensures SetParentColor(HangBlack(m1, y, sb), sb, nr, false) ==
                Hung(m, y, sb)[sb := a.(parent := nr)][nr := b][p := c]
  {
  }

  function InnerCells(m: Store, s: Side, p: Ref, pred: bool, n: Ref, gp: Ref, sb: Ref, far: Ref, nr: Ref, x: Ref,
                      y: Ref): Store
    requires y != NIL ==> y in m
  {
    Hung(m, y, sb)[sb := MkCell(s, y, far, nr, false)][nr := MkCell(s, x, sb, sb, true)]
                  [p := MkCell(s, n, nr, gp, pred)]
  }

  lemma InnerCellsAt(m: Store, s: Side, p: Ref, pred: bool, n: Ref, gp: Ref, sb: Ref, far: Ref, nr: Ref, x: Ref,
                     y: Ref)
    requires (y != NIL ==> y in m) && p in m && sb in m && nr in m && p != sb && p != nr && sb != nr
    ensures var m0, m2 := Hung(m, y, sb), InnerCells(m, s, p, pred, n, gp, sb, far, nr, x, y);
      && m2.Keys == m.Keys && m0.Keys == m.Keys && m2[sb] == MkCell(s, y, far, nr, false)
      && (forall z :: z in m && z != p && z != sb && z != nr ==> m2[z] == m0[z])
      && (forall z :: z in m && z != p && z != sb && z != nr && z != y ==> m2[z] == m[z])
  {
  }

  /** The pieces of the tree between cases 3 and 4, with the sibling already hung below nr. */
  lemma EraseInnerRep(m: Store, root: Ref, up: Ctx, s: Side, p: Ref, pred: bool, n: Tree, sb: Ref, far: Tree, nr: Ref,
                      x: Tree, y: Tree)
    requires CtxRep(m, root, up, p) && p in m && sb in m && nr in m && p != NIL && sb != NIL && nr != NIL
    requires p != sb && p != nr && sb != nr
    requires Rep(m, n, p) && Rep(m, far, sb) && Rep(m, x, nr) && Rep(m, y, nr) && Distinct(far) && Distinct(y)
    requires Ids(y) !! Ids(n) && Ids(y) !! Ids(far) && Ids(y) !! Ids(x) && Ids(y) !! CtxIds(up)
    requires p !in Ids(n) && p !in Ids(far) && p !in Ids(x) && p !in Ids(y) && p !in CtxIds(up)
    requires sb !in Ids(n) && sb !in Ids(far) && sb !in Ids(x) && sb !in Ids(y) && sb !in CtxIds(up)
    requires nr !in Ids(n) && nr !in Ids(far) && nr !in Ids(x) && nr !in Ids(y) && nr !in CtxIds(up)
    ensures y.Node? ==> y.id in m
    ensures var m2 := InnerCells(m, s, p, pred, RootId(n), CtxParent(up), sb, RootId(far), nr, RootId(x), RootId(y));
            var z := Mk(s, y, sb, false, far);
            && m2.Keys == m.Keys && CtxRep(m2, root, up, p)
            && Rep(m2, n, p) && Rep(m2, x, nr) && Rep(m2, z, nr) && Distinct(z) && Ids(z) == Ids(y) + {sb} + Ids(far)
  {
    hide Rep, Ids, Distinct, CtxRep, CtxIds, CtxDistinct, Hung, InnerCells;
    RepRoot(m, y, nr);
    HungRep(m, y, nr, sb);
    RootInIds(y);
    InnerCellsAt(m, s, p, pred, RootId(n), CtxParent(up), sb, RootId(far), nr, RootId(x), RootId(y));
    var m0 := Hung(m, RootId(y), sb);
    var m2 := InnerCells(m, s, p, pred, RootId(n), CtxParent(up), sb, RootId(far), nr, RootId(x), RootId(y));
    assert Rep(m2, y, sb) by { RepFrame(m0, m2, y, sb); }
    assert Rep(m2, n, p) by { RepFrame(m, m2, n, p); }
    assert Rep(m2, x, nr) by { RepFrame(m, m2, x, nr); }
    assert Rep(m2, far, sb) by { RepFrame(m, m2, far, sb); }
    assert CtxRep(m2, root, up, p) by { CtxRepFrame(m, m2, root, up, p); }
    CloseNode(m2, s, y, sb, false, far, nr);
  }

  lemma EraseRotateInner(m: Store, root: Ref, up: Ctx, s: Side, p: Ref, pred: bool, n: Tree, sb: Ref, far: Tree,
                         nr: Ref, x: Tree, y: Tree)
    requires Focus(m, root, up, Mk(s, n, p, pred, Mk(s, Mk(s, x, nr, true, y), sb, false, far))) && !IsRed(y)
    ensures p in m && sb in m && nr in m
    ensures (y.Node? ==> y.id in m) && (x.Node? ==> x.id in m) && p != sb && p != RootId(x)
    ensures CtxParent(up) != NIL ==> CtxParent(up) in m
    ensures var m3 := EraseCase3(m, s, p, sb, nr, RootId(y));
            m3.Keys == m.Keys && m3[p].parent == CtxParent(up) && m3[nr] == MkCell(s, RootId(x), sb, sb, true)
    ensures var m' := EraseCase4(EraseCase3(m, s, p, sb, nr, RootId(y)), s, p, nr, sb, RootId(x));
            && Focus(m', if up.Top? then nr else root, up,
                     Mk(s, Mk(s, n, p, false, x), nr, pred, Mk(s, y, sb, false, far)))
            && m'.Keys == m.Keys
  {
    hide Rep, Ids, Distinct, CtxRep, CtxIds, CtxDistinct, RotatedCells, Relink, EraseCase3, EraseCase4, Rotatable;
    EraseInnerPieces(m, root, up, s, p, pred, n, sb, far, nr, x, y);
    var m3 := EraseCase3(m, s, p, sb, nr, RootId(y));
    Case4Cells(m3, s, p, pred, RootId(n), nr, nr, sb, RootId(x), CtxParent(up), sb, true);
    var m0 := SetParentColor(m3, sb, nr, false);
    RotateRep(m0, root, up, p, Opposite(s), Mk(s, y, sb, false, far), nr, pred, x, nr, p, false, n);
  }

  /** The cells case 3 reads below the near nephew. */
  lemma EraseInnerRoots(m: Store, root: Ref, up: Ctx, s: Side, p: Ref, pred: bool, n: Tree, sb: Ref, far: Tree,
                        nr: Ref, x: Tree, y: Tree)
    requires Focus(m, root, up, Mk(s, n, p, pred, Mk(s, Mk(s, x, nr, true, y), sb, false, far)))
    ensures nr in m && m[nr] == MkCell(s, RootId(x), RootId(y), sb, true)
    ensures p in m && sb in m && p != sb && p != nr && sb != nr && p != NIL && sb != NIL && nr != NIL
    ensures (x.Node? ==> x.id in m && x.id != NIL) && (y.Node? ==> y.id in m && y.id != NIL)
  {
    hide Rep, Ids, Distinct, CtxRep, CtxIds, CtxDistinct;
    var nn := Mk(s, x, nr, true, y);
    OpenNode(m, s, n, p, pred, Mk(s, nn, sb, false, far), CtxParent(up));
    OpenNode(m, s, nn, sb, false, far, p);
    OpenNode(m, s, x, nr, true, y, sb);
  }

  lemma EraseInnerPieces(m: Store, root: Ref, up: Ctx, s: Side, p: Ref, pred: bool, n: Tree, sb: Ref, far: Tree,
                         nr: Ref, x: Tree, y: Tree)
    requires Focus(m, root, up, Mk(s, n, p, pred, Mk(s, Mk(s, x, nr, true, y), sb, false, far))) && !IsRed(y)
    ensures p in m && sb in m && nr in m && (y.Node? ==> y.id in m) && (x.Node? ==> x.id in m && x.id != NIL)
    ensures p != sb && p != nr && sb != nr && p != RootId(x) && sb != RootId(x) && nr != RootId(x)
    ensures CtxParent(up) != NIL ==> CtxParent(up) in m
    ensures var m3 := EraseCase3(m, s, p, sb, nr, RootId(y));
            && m3.Keys == m.Keys && m3[nr] == MkCell(s, RootId(x), sb, sb, true)
            && m3[p] == MkCell(s, RootId(n), nr, CtxParent(up), pred)
            && Rotatable(SetParentColor(m3, sb, nr, false), root, up, p, Mk(s, y, sb, false, far), nr, x, nr, p, n)
  {
    hide Rep, Ids, Distinct, CtxRep, CtxIds, CtxDistinct, EraseCase3, InnerCells, Mk, MkCell, Hung, SetParentColor;
    var nn := Mk(s, x, nr, true, y);
    OpenNode(m, s, n, p, pred, Mk(s, nn, sb, false, far), CtxParent(up));
    CtxRoot(m, root, up, p);
    OpenNode(m, s, nn, sb, false, far, p);
    OpenNode(m, s, x, nr, true, y, sb);
    EraseCells3(m, s, p, pred, RootId(n), CtxParent(up), sb, RootId(far), nr, RootId(x), RootId(y));
    EraseInnerRep(m, root, up, s, p, pred, n, sb, far, nr, x, y);
  }

  lemma InnerKeeps(up: Ctx, s: Side, p: Ref, pred: bool, n: Tree, sb: Ref, far: Tree, nr: Ref, x: Tree, y: Tree, h: nat)
    requires Sub(n, h) && !IsRed(n) && Sub(Mk(s, Mk(s, x, nr, true, y), sb, false, far), h + 1) && !IsRed(far)
    requires Accepts(up, h + 1 + (if pred then 0 else 1), pred)
    ensures !IsRed(x) && !IsRed(y)
    ensures var t' := Mk(s, Mk(s, n, p, false, x), nr, pred, Mk(s, y, sb, false, far));
      && RedBlack(Plug(up, t'))
      && InOrder(Plug(up, t')) == InOrder(Plug(up, Mk(s, n, p, pred, Mk(s, Mk(s, x, nr, true, y), sb, false, far))))
  {
    var nn := Mk(s, x, nr, true, y);
    assert Sub(nn, h) && Sub(far, h);
    assert Sub(x, h) && Sub(y, h);
    var a, b := Mk(s, n, p, false, x), Mk(s, y, sb, false, far);
    assert Sub(a, h + 1) && Sub(b, h + 1);
    PlugRedBlack(up, Mk(s, a, nr, pred, b));
    InnerEraseOrder(s, n, p, pred, x, nr, y, sb, far);
    SameOrder(up, Mk(s, a, nr, pred, b), Mk(s, n, p, pred, Mk(s, nn, sb, false, far)));
  }

  lemma InnerEraseOrder(s: Side, n: Tree, p: Ref, pred: bool, x: Tree, nr: Ref, y: Tree, sb: Ref, far: Tree)
    ensures InOrder(Mk(s, Mk(s, n, p, false, x), nr, pred, Mk(s, y, sb, false, far)))
         == InOrder(Mk(s, n, p, pred, Mk(s, Mk(s, x, nr, true, y), sb, false, far)))
  {
    var b := Mk(s, y, sb, false, far);
    Rotated(s, x, nr, y, sb, far, true, false, true, false);
    Rotated(s, n, p, x, nr, b, pred, true, false, pred);
  }
}
