/**
 struct rb_root and the operations of rbtree.c on it: linking, rebalancing after an
 insertion, in-order traversal.
 */
module RbTree {
  import opened RedBlackTree
  import opened RbArena
  import opened RbRotations
  import opened RbErase
  import opened RbUnlink

  /** r comes right after n in s; NIL when n is last. */
  ghost predicate Follows(s: seq<Ref>, n: Ref, r: Ref) {
    forall i :: 0 <= i < |s| && s[i] == n ==> r == if i + 1 < |s| then s[i + 1] else NIL
  }

  lemma FollowsAt(s: seq<Ref>, k: int, r: Ref)
    requires 0 <= k < |s| && Follows(s, s[k], r)
    ensures r == if k + 1 < |s| then s[k + 1] else NIL
  {
  }

  lemma KeepsRed(m: Store, node: Ref, successor: Ref, np: Ref)
    requires successor in m && np != successor && (np != NIL ==> np in m)
    ensures var m' := Relink(m, node, successor, np); m'.Keys == m.Keys && m'[successor] == m[successor]
  {
  }

  class RbRoot {
    var mem: Store
    var root: Ref
    ghost var shape: Tree

    /** The cells form one tree of distinct nodes with consistent child and parent links. */
    ghost predicate Linked()
      reads this
    {
      Focus(mem, root, Top, shape)
    }

    ghost predicate Valid()
      reads this
    {
      Linked() && RedBlack(shape)
    }

    constructor ()
      ensures Valid() && shape == Leaf && mem == map[]
    {
      mem, root, shape := map[], NIL, Leaf;
    }

    /** __rb_change_child, where `oldNode` is the child being replaced. */
    method ChangeChild(oldNode: Ref, newNode: Ref, parent: Ref)
      requires parent != NIL ==> parent in mem
      modifies this`mem, this`root
      ensures mem == Relink(old(mem), oldNode, newNode, parent)
      ensures root == if parent == NIL then newNode else old(root)
    {
      if parent != NIL {
        if mem[parent].left == oldNode {
          mem := SetChild(mem, Left, parent, newNode);
        } else {
          mem := SetChild(mem, Right, parent, newNode);
        }
      } else {
        root := newNode;
      }
    }

    /** __rb_rotate_set_parents */
    method RotateParents(oldNode: Ref, newNode: Ref, red: bool)
      requires oldNode in mem && newNode in mem && (mem[oldNode].parent != NIL ==> mem[oldNode].parent in mem)
      modifies this`mem, this`root
      ensures mem == RotateSetParents(old(mem), oldNode, newNode, red)
      ensures root == if old(mem)[oldNode].parent == NIL then newNode else old(root)
    {
      var parent := mem[oldNode].parent;
      mem := mem[newNode := mem[newNode].(parent := mem[oldNode].parent, red := mem[oldNode].red)];
      mem := SetParentColor(mem, oldNode, newNode, red);
      ChangeChild(oldNode, newNode, parent);
    }

    /** rb_link_node: hang a new red leaf at an empty link. */
    method LinkNode(node: Ref, parent: Ref, side: Side, ghost c: Ctx)
      requires Linked() && Plug(c, Leaf) == shape
      requires parent == CtxParent(c) && (c.In? ==> side == c.side)
      requires node != NIL && node !in Ids(shape)
      modifies this
      ensures mem.Keys == old(mem).Keys + {node}
      ensures Focus(mem, root, c, Node(Leaf, node, true, Leaf))
    {
      DistinctPlug(c, Leaf);
      FocusIffRep(mem, root, c, Leaf);
      ghost var m0 := mem;
      mem := mem[node := Cell(NIL, NIL, parent, true)];
      CtxRepFrame(m0, mem, root, c, NIL);
      ChangeChildRep(mem, root, c, NIL, node);
      CtxRoot(mem, root, c, NIL);
      if parent == NIL {
        root := node;
      } else {
        mem := SetChild(mem, side, parent, node);
      }
    }

    /** Case 1 of __rb_insert: colour flips, then climb two levels. */
    method Flip(uncle: Ref, parent: Ref, gparent: Ref, ghost c: Ctx, ghost t: Tree, ghost h: nat)
      returns (node': Ref, parent': Ref)
      requires Focus(mem, root, c, t) && IsRed(t) && Sub(t, h) && Accepts(c, h, false) && c.In? && c.red
      requires parent == c.id && c.up.In? && gparent == c.up.id && IsRed(c.up.sib) && uncle == c.up.sib.id
      modifies this`mem
      ensures var t' := Mk(c.up.side, Mk(c.side, t, parent, false, c.sib), gparent, true, c.up.sib.(red := false));
        && Focus(mem, root, c.up.up, t') && IsRed(t') && t'.id == node' && parent' == CtxParent(c.up.up)
        && Sub(t', h + 1) && Accepts(c.up.up, h + 1, false)
        && InOrder(Plug(c.up.up, t')) == InOrder(Plug(c, t))
      ensures mem.Keys == old(mem).Keys
    {
      hide Rep, Ids, Distinct, CtxRep, CtxIds, CtxDistinct, Focus, InOrder, Sub, Accepts, Plug;
      InsertOpen(mem, root, c, t, h);
      ghost var g := c.up;
      InsertFlip(mem, root, g.up, g.side, gparent, g.sib, c.side, parent, c.sib, t);
      FlipKeepsColours(g.up, g.side, gparent, g.sib, c.side, parent, c.sib, t, h);
      mem := SetParentColor(mem, uncle, gparent, false);
      mem := SetParentColor(mem, parent, gparent, false);
      node' := gparent;
      parent' := mem[node'].parent;
      mem := SetParentColor(mem, node', parent', true);
    }

    /** Case 2 of __rb_insert: rotate at parent. */
    method RotateParent(s: Side, node: Ref, parent: Ref)
      requires node in mem && parent in mem && (Child(mem[node], s) != NIL ==> Child(mem[node], s) in mem)
      modifies this`mem
      ensures mem == InsertCase2(old(mem), s, parent, node, Child(old(mem)[node], s))
    {
      var tmp := Child(mem[node], s);
      mem := SetChild(mem, Opposite(s), parent, tmp);
      mem := SetChild(mem, s, node, parent);
      if tmp != NIL {
        mem := SetParentColor(mem, tmp, parent, false);
      }
      mem := SetParentColor(mem, parent, node, true);
    }

    /** Case 3 of __rb_insert, also case 1 of ____rb_erase_color: rotate at gparent. */
    method RotateGrandparent(s: Side, parent: Ref, gparent: Ref, tmp: Ref)
      requires gparent in mem && parent in mem && (tmp != NIL ==> tmp in mem) && gparent != tmp
      requires mem[gparent].parent != NIL ==> mem[gparent].parent in mem
      modifies this`mem, this`root
      ensures mem == InsertCase3(old(mem), s, gparent, parent, tmp)
      ensures root == if old(mem)[gparent].parent == NIL then parent else old(root)
    {
      mem := SetChild(mem, s, gparent, tmp);
      mem := SetChild(mem, Opposite(s), parent, gparent);
      if tmp != NIL {
        mem := SetParentColor(mem, tmp, gparent, false);
      }
      RotateParents(gparent, parent, true);
    }

    /** Cases 2 and 3 of __rb_insert: the parent is gparent's child on side s and the uncle is black. */
    method RotateAt(s: Side, node: Ref, parent0: Ref, gparent: Ref, ghost c: Ctx, ghost t: Tree, ghost h: nat)
      requires Focus(mem, root, c, t) && IsRed(t) && Sub(t, h) && Accepts(c, h, false) && c.In? && c.red
      requires node == t.id && parent0 == c.id && c.up.In? && gparent == c.up.id && c.up.side == s && !IsRed(c.up.sib)
      modifies this
      ensures Valid() && InOrder(shape) == InOrder(Plug(c, t)) && mem.Keys == old(mem).Keys
    {
      hide Rep, Ids, Distinct, CtxRep, CtxIds, CtxDistinct, Focus, InOrder, Sub, Accepts, Plug, RedBlack, InsertCase2;
      hide InsertCase3;
      InsertOpen(mem, root, c, t, h);
      ghost var up, u, b := c.up.up, c.up.sib, c.sib;
      var parent := parent0;
      var tmp := Child(mem[parent], Opposite(s));
      if node == tmp {
        ghost var near, far := Subtree(t, s), Subtree(t, Opposite(s));
        InsertRotateInner(mem, root, up, s, gparent, u, parent, b, node, near, far);
        InsertInnerIsRedBlack(up, s, b, parent, near, node, far, gparent, u, h);
        RotateParent(s, node, parent);
        shape := Mk(s, Mk(s, b, parent, true, near), node, false, Mk(s, far, gparent, true, u));
        parent := node;
        tmp := Child(mem[node], Opposite(s));
      } else {
        InsertRotateOuter(mem, root, up, s, gparent, u, parent, b, t);
        InsertRotatedIsRedBlack(up, s, t, parent, b, gparent, u, h);
        shape := Mk(s, t, parent, false, Mk(s, b, gparent, true, u));
      }
      RotateGrandparent(s, parent, gparent, tmp);
      FocusIffRep(mem, root, up, shape);
      shape := Plug(up, shape);
    }

    /**
     rb_insert_color: whatever the position of the newly linked red leaf, the loop ends with a
     red-black tree over the same links and the same in-order sequence.
     */
    method InsertColor(n: Ref, ghost c0: Ctx)
      requires Focus(mem, root, c0, Node(Leaf, n, true, Leaf))
      requires RedBlack(Plug(c0, Leaf))
      modifies this
      ensures Valid()
      ensures InOrder(shape) == Before(c0) + [n] + After(c0)
      ensures mem.Keys == old(mem).Keys
      ensures c0.Top? ==> shape == Node(Leaf, n, false, Leaf)
      ensures c0.In? && !c0.red ==> shape == Plug(c0, Node(Leaf, n, true, Leaf))
    {
      hide Rep, Ids, Distinct, CtxRep, CtxIds, CtxDistinct, Focus, InOrder, Sub, Accepts, Plug, RedBlack, Before, After;
      hide Mk;
      ghost var t := Node(Leaf, n, true, Leaf);
      ghost var c, h := c0, 0;
      InsertStart(mem, root, c0, n);
      ghost var order := Before(c0) + [n] + After(c0);
      var node, parent := n, mem[n].parent;
      while true
        invariant Focus(mem, root, c, t)
        invariant IsRed(t) && t.id == node && parent == CtxParent(c)
        invariant Sub(t, h) && Accepts(c, h, false)
        invariant InOrder(Plug(c, t)) == order
        invariant mem.Keys == old(mem).Keys
        invariant (c == c0 && t == Node(Leaf, n, true, Leaf)) || (c0.In? && c0.red)
        decreases c
      {
        InsertCell(mem, root, c, t, h);
        if parent == NIL {
          mem := SetParentColor(mem, node, NIL, false);
          shape := t.(red := false);
          break;
        }
        if !mem[parent].red {
          shape := Plug(c, t);
          break;
        }
        InsertOpen(mem, root, c, t, h);
        var gparent := mem[parent].parent;
        ghost var t' :=
          if IsRed(c.up.sib)
          then Mk(c.up.side, Mk(c.side, t, parent, false, c.sib), gparent, true, c.up.sib.(red := false))
          else t;
        var tmp := mem[gparent].right;
        if parent != tmp {
          if tmp != NIL && mem[tmp].red {
            // case 1: colour flips
            node, parent := Flip(tmp, parent, gparent, c, t, h);
            t, c, h := t', c.up.up, h + 1;
            continue;
          }
          RotateAt(Left, node, parent, gparent, c, t, h);
          break;
        } else {
          tmp := mem[gparent].left;
          if tmp != NIL && mem[tmp].red {
            node, parent := Flip(tmp, parent, gparent, c, t, h);
            t, c, h := t', c.up.up, h + 1;
            continue;
          }
          RotateAt(Right, node, parent, gparent, c, t, h);
          break;
        }
      }
    }

    // ------------------------------------------------------------------- erasing

    /** Case 2: colour flip at the sibling; either the tree is repaired or the loop climbs. */
    method FlipSibling(parent: Ref, sibling: Ref, ghost c: Ctx, ghost n: Tree, ghost h: nat)
      returns (done: bool, node': Ref, parent': Ref, ghost n': Tree)
      requires Focus(mem, root, c, n) && Deficient(c, n, h) && parent == c.id && RootId(c.sib) == sibling
      requires c.sib.Node? && !c.sib.red && !IsRed(c.sib.left) && !IsRed(c.sib.right)
      modifies this
      ensures mem.Keys == old(mem).Keys
      ensures done ==> Valid() && InOrder(shape) == InOrder(Plug(c, n))
      ensures !done ==> !c.red && Focus(mem, root, c.up, n') && Deficient(c.up, n', h + 1)
      ensures !done ==> node' == RootId(n') && parent' == c.up.id && InOrder(Plug(c.up, n')) == InOrder(Plug(c, n))
    {
      hide Rep, Ids, Distinct, CtxRep, CtxIds, CtxDistinct, Focus, InOrder, Sub, Accepts, Plug, RedBlack;
      EraseOpen(mem, root, c, n, h);
      EraseFlip(mem, root, c.up, c.side, parent, c.red, n, c.sib);
      FlipKeeps(c.up, c.side, parent, c.red, n, c.sib, h);
      n' := Mk(c.side, n, parent, false, c.sib.(red := true));
      node', parent', done := parent, NIL, true;
      mem := SetParentColor(mem, sibling, parent, true);
      if mem[parent].red {
        mem := mem[parent := mem[parent].(red := false)];
      } else {
        node' := parent;
        parent' := mem[node'].parent;
        if parent' != NIL {
          return false, node', parent', n';
        }
      }
      FocusIffRep(mem, root, c.up, n');
      shape := Plug(c.up, n');
    }

    /** Case 1 of ____rb_erase_color: the sibling is red, rotate at parent. */
    method RedSibling(s: Side, parent: Ref, sibling: Ref, ghost c: Ctx, ghost n: Tree, ghost h: nat)
      returns (sibling': Ref, ghost c': Ctx)
      requires Focus(mem, root, c, n) && Deficient(c, n, h) && c.side == s && parent == c.id
      requires RootId(c.sib) == sibling && IsRed(c.sib)
      modifies this`mem, this`root
      ensures Focus(mem, root, c', n) && Deficient(c', n, h) && c'.side == s && c'.id == parent && c'.red
      ensures c'.sib.Node? && sibling' == c'.sib.id && InOrder(Plug(c', n)) == InOrder(Plug(c, n))
      ensures mem.Keys == old(mem).Keys
    {
      hide Rep, Ids, Distinct, CtxRep, CtxIds, CtxDistinct, Focus, InOrder, Sub, Accepts, Plug, InsertCase3;
      EraseOpen(mem, root, c, n, h);
      ghost var near, far := Subtree(c.sib, s), Subtree(c.sib, Opposite(s));
      RedSiblingKeeps(c.up, s, parent, n, sibling, near, far, h);
      EraseRedSibling(mem, root, c.up, s, parent, n, sibling, near, far);
      c' := In(In(c.up, s, sibling, false, far), s, parent, true, near);
      var tmp1 := Child(mem[sibling], s);
      RotateGrandparent(Opposite(s), sibling, parent, tmp1);
      sibling' := tmp1;
    }

    /** Case 3 of ____rb_erase_color: rotate at sibling. */
    method RotateSibling(s: Side, parent: Ref, sibling: Ref, tmp2: Ref)
      requires parent in mem && sibling in mem && tmp2 in mem
      requires Child(mem[tmp2], Opposite(s)) != NIL ==> Child(mem[tmp2], Opposite(s)) in mem
      modifies this`mem
      ensures mem == EraseCase3(old(mem), s, parent, sibling, tmp2, Child(old(mem)[tmp2], Opposite(s)))
    {
      var tmp1 := Child(mem[tmp2], Opposite(s));
      mem := SetChild(mem, s, sibling, tmp1);
      mem := SetChild(mem, Opposite(s), tmp2, sibling);
      mem := SetChild(mem, Opposite(s), parent, tmp2);
      if tmp1 != NIL {
        mem := SetParentColor(mem, tmp1, sibling, false);
      }
    }

    /** Case 4 of ____rb_erase_color: rotate at parent and flip colours. */
    method RotateDeficient(s: Side, parent: Ref, sibling: Ref, tmp1: Ref)
      requires parent in mem && sibling in mem && tmp1 in mem && parent != tmp1
      requires var near := Child(mem[sibling], s); parent != near && (near != NIL ==> near in mem)
      requires mem[parent].parent != NIL ==> mem[parent].parent in mem
      modifies this`mem, this`root
      ensures mem == EraseCase4(old(mem), s, parent, sibling, tmp1, Child(old(mem)[sibling], s))
      ensures root == if old(mem)[parent].parent == NIL then sibling else old(root)
    {
      var tmp2 := Child(mem[sibling], s);
      mem := SetChild(mem, Opposite(s), parent, tmp2);
      mem := SetChild(mem, s, sibling, parent);
      mem := SetParentColor(mem, tmp1, sibling, false);
      if tmp2 != NIL {
        mem := SetParent(mem, tmp2, parent);
      }
      RotateParents(parent, sibling, false);
    }

    /** Cases 3 and 4 of ____rb_erase_color: one of the sibling's children is red. */
    method RedNephew(s: Side, parent: Ref, sibling0: Ref, ghost c: Ctx, ghost n: Tree, ghost h: nat)
      requires Focus(mem, root, c, n) && Deficient(c, n, h) && c.side == s && parent == c.id
      requires RootId(c.sib) == sibling0
      requires c.sib.Node? && !c.sib.red && (IsRed(c.sib.left) || IsRed(c.sib.right))
      modifies this
      ensures Valid() && InOrder(shape) == InOrder(Plug(c, n)) && mem.Keys == old(mem).Keys
    {
      hide Rep, Ids, Distinct, CtxRep, CtxIds, CtxDistinct, Focus, InOrder, Sub, Accepts, Plug, RedBlack, EraseCase3;
      hide EraseCase4;
      EraseOpen(mem, root, c, n, h);
      ghost var near, far := Subtree(c.sib, s), Subtree(c.sib, Opposite(s));
      var sibling := sibling0;
      var tmp1 := Child(mem[sibling], Opposite(s));
      if tmp1 == NIL || !mem[tmp1].red {
        var tmp2 := Child(mem[sibling], s);
        ghost var x, y := Subtree(near, s), Subtree(near, Opposite(s));
        InnerKeeps(c.up, s, parent, c.red, n, sibling, far, tmp2, x, y, h);
        EraseRotateInner(mem, root, c.up, s, parent, c.red, n, sibling, far, tmp2, x, y);
        EraseInnerRoots(mem, root, c.up, s, parent, c.red, n, sibling, far, tmp2, x, y);
        shape := Mk(s, Mk(s, n, parent, false, x), tmp2, c.red, Mk(s, y, sibling, false, far));
        RotateSibling(s, parent, sibling, tmp2);
        tmp1 := sibling;
        sibling := tmp2;
      } else {
        OuterKeeps(c.up, s, parent, c.red, n, sibling, near, far, h);
        EraseRotateOuter(mem, root, c.up, s, parent, c.red, n, sibling, near, far);
        shape := Mk(s, Mk(s, n, parent, false, near), sibling, c.red, far.(red := false));
      }
      RotateDeficient(s, parent, sibling, tmp1);
      FocusIffRep(mem, root, c.up, shape);
      shape := Plug(c.up, shape);
    }

    /**
     ____rb_erase_color: from any tree in which the paths through one empty non-root position
     are exactly one black node short, the loop restores every red-black property.
     */
    method EraseColor(parent0: Ref, ghost c0: Ctx)
      requires Focus(mem, root, c0, Leaf) && Deficient(c0, Leaf, 0) && parent0 == c0.id
      modifies this
      ensures Valid() && InOrder(shape) == InOrder(Plug(c0, Leaf))
      ensures mem.Keys == old(mem).Keys
    {
      hide Rep, Ids, Distinct, CtxRep, CtxIds, CtxDistinct, Focus, InOrder, Sub, Accepts, Plug, RedBlack;
      var node, parent := NIL, parent0;
      ghost var c, n: Tree, h := c0, Leaf, 0;
      while true
        invariant Focus(mem, root, c, n) && Deficient(c, n, h)
        invariant parent == c.id && node == RootId(n)
        invariant InOrder(Plug(c, n)) == InOrder(Plug(c0, Leaf))
        invariant mem.Keys == old(mem).Keys
        decreases c
      {
        EraseOpen(mem, root, c, n, h);
        ghost var cc := c;
        var sibling := mem[parent].right;
        if node != sibling {
          if mem[sibling].red {
            sibling, cc := RedSibling(Left, parent, sibling, c, n, h);
            EraseOpen(mem, root, cc, n, h);
          }
          var tmp1 := mem[sibling].right;
          if tmp1 == NIL || !mem[tmp1].red {
            var tmp2 := mem[sibling].left;
            if tmp2 == NIL || !mem[tmp2].red {
              var done, node', parent', n' := FlipSibling(parent, sibling, cc, n, h);
              if done {
                break;
              }
              node, parent := node', parent';
              c, n, h := cc.up, n', h + 1;
              continue;
            }
          }
          RedNephew(Left, parent, sibling, cc, n, h);
          break;
        } else {
          sibling := mem[parent].left;
          if mem[sibling].red {
            sibling, cc := RedSibling(Right, parent, sibling, c, n, h);
            EraseOpen(mem, root, cc, n, h);
          }
          var tmp1 := mem[sibling].left;
          if tmp1 == NIL || !mem[tmp1].red {
            var tmp2 := mem[sibling].right;
            if tmp2 == NIL || !mem[tmp2].red {
              var done, node', parent', n' := FlipSibling(parent, sibling, cc, n, h);
              if done {
                break;
              }
              node, parent := node', parent';
              c, n, h := cc.up, n', h + 1;
              continue;
            }
          }
          RedNephew(Right, parent, sibling, cc, n, h);
          break;
        }
      }
    }

    /** The walk to the in-order successor of a node whose right child is `child`. */
    method FindSuccessor(child: Ref, ghost r: Tree, ghost np: Ref) returns (successor: Ref, parent: Ref)
      requires r.Node? && r.id == child && Rep(mem, r, np) && Distinct(r)
      ensures successor == MinId(r) && parent == MinParent(r, MinId(r))
    {
      successor, parent := child, child;
      var tmp := mem[child].left;
      ghost var q, qp := r, np;
      while tmp != NIL
        invariant q.Node? && successor == q.id && Rep(mem, q, qp) && Distinct(q) && tmp == RootId(q.left)
        invariant MinId(q) == MinId(r) && parent == (if q == r then child else qp)
        invariant q != r ==> MinParent(q, qp) == MinParent(r, MinId(r))
        decreases q
      {
        parent := successor;
        successor := tmp;
        tmp := mem[tmp].left;
        q, qp := q.left, q.id;
      }
      RepRoot(mem, q, qp);
      if q.left.Node? {
        RepRoot(mem, q.left, q.id);
      }
    }

    method LinkSuccessor(node: Ref, child: Ref, successor: Ref, parent: Ref, child2: Ref)
      requires node in mem && child in mem && successor in mem && parent in mem && mem[node].left in mem
      requires node != successor && node != child && node != parent
      modifies this`mem
      ensures mem == HangSuccessor(old(mem), node, child, successor, parent, child2)
    {
      if successor != child {
        mem := SetChild(mem, Left, parent, child2);
        mem := SetChild(mem, Right, successor, child);
        mem := SetParent(mem, child, successor);
      }
      var tmp := mem[node].left;
      mem := SetChild(mem, Left, successor, tmp);
      mem := SetParent(mem, tmp, successor);
    }

    /** The last part of it: the successor takes over the node's parent link, parent and colour. */
    method TakePlace(node: Ref, successor: Ref, parent: Ref, child2: Ref) returns (rebalance: Ref)
      requires node in mem && successor in mem && node != successor && mem[node].parent != successor
      requires mem[node].parent != NIL ==> mem[node].parent in mem
      requires child2 != NIL ==> child2 in mem && mem[node].parent != child2 && child2 != successor
      modifies this`mem, this`root
      ensures rebalance == if child2 == NIL && !old(mem[successor].red) then parent else NIL
      ensures root == if old(mem[node].parent) == NIL then successor else old(root)
      ensures var m, np := HangBlack(old(mem), child2, parent), old(mem[node].parent);
        && m.Keys == old(mem).Keys
        && mem == Relink(m[successor := m[successor].(parent := np, red := old(mem[node].red))], node, successor, np)
    {
      hide Relink;
      var np, nred := mem[node].parent, mem[node].red;
      ghost var m2 := mem;
      KeepsRed(mem, node, successor, np);
      ChangeChild(node, successor, np);
      if child2 != NIL {
        mem := SetParentColor(mem, child2, parent, false);
        rebalance := NIL;
      } else {
        rebalance := if !mem[successor].red then parent else NIL;
      }
      mem := mem[successor := mem[successor].(parent := np, red := nred)];
      RelinkLast(m2, node, successor, np, child2, parent, nred);
    }

    /** The two-child case of __rb_erase_augmented. */
    method ReplaceBySuccessor(node: Ref, ghost c: Ctx, ghost l: Tree, ghost red: bool, ghost r: Tree)
      returns (rebalance: Ref)
      requires Focus(mem, root, c, Node(l, node, red, r)) && l.Node? && r.Node?
      modifies this`mem, this`root
      ensures Focus(mem, root, c, Node(l, MinId(r), red, DropMin(r)))
      ensures rebalance == if MinRight(r).Leaf? && !MinRed(r) then MinParent(r, MinId(r)) else NIL
      ensures MinRight(r).Leaf? && !MinRed(r) ==> rebalance != NIL
      ensures mem.Keys == old(mem).Keys
    {
      UnlinkRep(mem, root, c, l, node, red, r);
      UnlinkLinks(mem, root, c, l, node, red, r);
      hide Rep, Ids, Distinct, CtxRep, CtxIds, CtxDistinct, Focus, MinId, MinParent, MinRight, MinRed, DropMin;
      var child := mem[node].right;
      var successor, parent := FindSuccessor(child, r, node);
      var child2 := mem[successor].right;
      HangSuccessorKeeps(mem, node, child, successor, parent, child2);
      LinkSuccessor(node, child, successor, parent, child2);
      rebalance := TakePlace(node, successor, parent, child2);
    }

    /** Case 1 of __rb_erase_augmented: at most one child, which takes over the node's parent and colour. */
    method SpliceOut(s: Side, node: Ref, child: Ref, parent: Ref, red: bool, ghost c: Ctx, ghost q: Tree)
      returns (rebalance: Ref)
      requires Focus(mem, root, c, Mk(s, q, node, red, Leaf)) && RedBlack(Plug(c, Mk(s, q, node, red, Leaf)))
      requires child == RootId(q) && parent == CtxParent(c)
      requires (c.Top? <==> parent == NIL) && (q.Leaf? <==> child == NIL)
      modifies this`mem, this`root
      ensures mem.Keys == old(mem).Keys
      ensures var q' := if child == NIL then Leaf else q.(red := red);
        && Focus(mem, root, c, q') && (rebalance == NIL ==> RedBlack(Plug(c, q')))
        && (rebalance != NIL ==> rebalance == parent && child == NIL && Deficient(c, Leaf, 0))
    {
      hide Rep, Ids, Distinct, CtxRep, CtxIds, CtxDistinct, Focus, Plug, RedBlack;
      SpliceRep(mem, root, c, s, q, node, red);
      SpliceColours(c, s, q, node, red);
      ChangeChild(node, child, parent);
      if child != NIL {
        mem := SetParentColor(mem, child, parent, red);
        rebalance := NIL;
      } else {
        rebalance := if !red then parent else NIL;
      }
    }

    /** __rb_erase_augmented: unlink the node; a non-NULL result is the parent of a deficient position. */
    method EraseAugmented(node: Ref) returns (rebalance: Ref, ghost c': Ctx)
      requires Valid() && node in Ids(shape)
      modifies this
      ensures Linked() && mem.Keys == old(mem).Keys
      ensures forall i :: 0 <= i < |old(InOrder(shape))| && old(InOrder(shape))[i] == node ==>
                InOrder(shape) == old(InOrder(shape))[..i] + old(InOrder(shape))[i + 1..]
      ensures rebalance == NIL ==> RedBlack(shape)
      ensures rebalance != NIL ==> Deficient(c', Leaf, 0) && rebalance == c'.id && Plug(c', Leaf) == shape
    {
      ghost var (c, t) := Locate(Top, shape, node);
      assert t == Mk(Right, t.right, node, t.red, t.left) == Mk(Left, t.left, node, t.red, t.right);
      EraseOrder(c, t.left, node, t.red, t.right);
      FocusIffRep(mem, root, c, t);
      hide Rep, Ids, Distinct, CtxRep, CtxIds, CtxDistinct, Focus, InOrder, Plug, RedBlack, MinId, MinParent, MinRight;
      hide MinRed, DropMin, Relink, MinCtx, Black, Before, After;
      EraseLinks(mem, root, c, t);
      var child, tmp, parent, red := mem[node].right, mem[node].left, mem[node].parent, mem[node].red;
      c', rebalance := c, NIL;
      if tmp == NIL {
        SpliceOrder(c, t.left, t.right, red);
        rebalance := SpliceOut(Right, node, child, parent, red, c, t.right);
        shape := if child == NIL then Leaf else t.right.(red := red);
      } else if child == NIL {
        SpliceOrder(c, t.left, t.right, red);
        rebalance := SpliceOut(Left, node, tmp, parent, red, c, t.left);
        shape := t.left.(red := red);
      } else {
        UnlinkColours(c, t.left, node, t.red, t.right);
        rebalance := ReplaceBySuccessor(node, c, t.left, t.red, t.right);
        shape := Node(t.left, MinId(t.right), t.red, DropMin(t.right));
        UnlinkOrder(c, shape, t.left, t.right);
        c' := MinCtx(In(c, Right, MinId(t.right), t.red, t.left), t.right);
      }
      FocusIffRep(mem, root, c, shape);
      shape := Plug(c, shape);
    }

    /** rb_erase: the tree loses exactly the given node and is a red-black tree again. */
    method Erase(node: Ref)
      requires Valid() && node in Ids(shape)
      modifies this
      ensures Valid()
      ensures forall i :: 0 <= i < |old(InOrder(shape))| && old(InOrder(shape))[i] == node ==>
                InOrder(shape) == old(InOrder(shape))[..i] + old(InOrder(shape))[i + 1..]
      ensures mem.Keys == old(mem).Keys
    {
      var rebalance, c' := EraseAugmented(node);
      if rebalance != NIL {
        FocusIffRep(mem, root, c', Leaf);
        EraseColor(rebalance, c');
      }
    }

    // ----------------------------------------------------------------- traversal

    /** Down to the outermost node on side `s` of a subtree: rb_first, rb_last and parts of rb_next, rb_prev. */
    method Outermost(s: Side, start: Ref, ghost t: Tree, ghost parent: Ref) returns (n: Ref)
      requires Rep(mem, t, parent) && Distinct(t) && t.Node? && t.id == start
      ensures n in Ids(t) && |InOrder(t)| > 0
      ensures n == if s.Left? then InOrder(t)[0] else InOrder(t)[|InOrder(t)| - 1]
    {
      n := start;
      ghost var q, qp := t, parent;
      while Child(mem[n], s) != NIL
        invariant Rep(mem, q, qp) && Distinct(q) && q.Node? && q.id == n
        invariant Ids(q) <= Ids(t) && |InOrder(q)| > 0 && |InOrder(t)| > 0
        invariant s.Left? ==> InOrder(q)[0] == InOrder(t)[0]
        invariant s.Right? ==> InOrder(q)[|InOrder(q)| - 1] == InOrder(t)[|InOrder(t)| - 1]
        decreases q
      {
        n := Child(mem[n], s);
        q, qp := Subtree(q, s), q.id;
      }
      if Subtree(q, s).Node? {
        RepRoot(mem, Subtree(q, s), q.id);
      }
    }

    /** rb_first: the node with nothing before it, or NULL for an empty tree. */
    method First() returns (n: Ref)
      requires Linked()
      ensures if shape == Leaf then n == NIL else |InOrder(shape)| > 0 && n == InOrder(shape)[0]
    {
      n := root;
      if n == NIL {
        RepRoot(mem, shape, NIL);
        return;
      }
      n := Outermost(Left, n, shape, NIL);
    }

    /** rb_next: the in-order successor, found through child links below or parent links above. */
    method Next(n: Ref) returns (r: Ref)
      requires Linked() && n in Ids(shape)
      ensures Follows(InOrder(shape), n, r)
    {
      ghost var (c0, t0) := Locate(Top, shape, n);
      FocusIffRep(mem, root, c0, t0);
      NextOrder(c0, t0.left, n, t0.red, t0.right);
      EraseLinks(mem, root, c0, t0);
      if mem[n].right != NIL {
        OpenNode(mem, Left, t0.left, n, t0.red, t0.right, CtxParent(c0));
        r := Outermost(Left, mem[n].right, t0.right, n);
        return;
      }
      hide Rep, Ids, Distinct, CtxRep, CtxIds, CtxDistinct, InOrder;
      var node := n;
      r := mem[node].parent;
      ghost var c, t := c0, t0;
      while r != NIL && node == mem[r].right
        invariant Focus(mem, root, c, t) && t.Node? && t.id == node && r == CtxParent(c)
        invariant r != NIL ==> r in mem
        invariant After(c) == After(c0)
        decreases c
      {
        node := r;
        UpOneLevel(mem, root, c, t);
        t, c := Mk(c.side, t, c.id, c.red, c.sib), c.up;
        EraseLinks(mem, root, c, t);
        r := mem[node].parent;
      }
      if r == NIL {
        CtxRoot(mem, root, c, node);
      } else {
        UpOneLevel(mem, root, c, t);
      }
    }
  }
}
