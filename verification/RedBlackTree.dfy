/**
 Red-black trees as values: colours, black heights, and one-hole contexts (zippers).

 A tree is seen from a focus: `Plug(c, t)` is the whole tree, `t` the subtree at the
 focus and `c` the path from the focus up to the root.  The rebalancing loops of
 rbtree.c climb the tree through parent pointers; here they move frames from `c`
 into `t`.  The two mirrored halves of every case share one lemma, indexed by a side.
 */
module RedBlackTree {

  type Ref = int

  const NIL: Ref := 0

  datatype Side = Left | Right

  function Opposite(s: Side): Side {
    if s.Left? then Right else Left
  }

  datatype Tree = Leaf | Node(left: Tree, id: Ref, red: bool, right: Tree)

  /** The path from a focus to the root: each frame is a node whose `side` child is the hole. */
  datatype Ctx = Top | In(up: Ctx, side: Side, id: Ref, red: bool, sib: Tree)

  /** The node `id` with `a` on side `s` and `b` on the other side. */
  function Mk(s: Side, a: Tree, id: Ref, red: bool, b: Tree): Tree {
    if s.Left? then Node(a, id, red, b) else Node(b, id, red, a)
  }

  function Subtree(t: Tree, s: Side): Tree
    requires t.Node?
  {
    if s.Left? then t.left else t.right
  }

  function Plug(c: Ctx, t: Tree): Tree {
    match c
    case Top => t
    case In(up, s, id, red, sib) => Plug(up, Mk(s, t, id, red, sib))
  }

  function RootId(t: Tree): Ref {
    if t.Leaf? then NIL else t.id
  }

  function CtxParent(c: Ctx): Ref {
    if c.Top? then NIL else c.id
  }

  function Ids(t: Tree): set<Ref> {
    match t
    case Leaf => {}
    case Node(l, id, _, r) => Ids(l) + {id} + Ids(r)
  }

  function CtxIds(c: Ctx): set<Ref> {
    match c
    case Top => {}
    case In(up, _, id, _, sib) => CtxIds(up) + {id} + Ids(sib)
  }

  /** No node occurs twice, and none is NULL. */
  predicate Distinct(t: Tree) {
    match t
    case Leaf => true
    case Node(l, id, _, r) =>
      && id != NIL && id !in Ids(l) && id !in Ids(r) && Ids(l) !! Ids(r)
      && Distinct(l) && Distinct(r)
  }

  predicate CtxDistinct(c: Ctx) {
    match c
    case Top => true
    case In(up, _, id, _, sib) =>
      && id != NIL && id !in CtxIds(up) && id !in Ids(sib) && Ids(sib) !! CtxIds(up)
      && Distinct(sib) && CtxDistinct(up)
  }

  function InOrder(t: Tree): seq<Ref> {
    match t
    case Leaf => []
    case Node(l, id, _, r) => InOrder(l) + [id] + InOrder(r)
  }

  /** What the in-order walk visits before the hole. */
  function Before(c: Ctx): seq<Ref> {
    match c
    case Top => []
    case In(up, s, id, _, sib) =>
      if s.Left? then Before(up) else Before(up) + InOrder(sib) + [id]
  }

  /** What the in-order walk visits after the hole. */
  function After(c: Ctx): seq<Ref> {
    match c
    case Top => []
    case In(up, s, id, _, sib) =>
      if s.Left? then [id] + InOrder(sib) + After(up) else After(up)
  }

  lemma {:induction false} InOrderPlug(c: Ctx, t: Tree)
    ensures InOrder(Plug(c, t)) == Before(c) + InOrder(t) + After(c)
  {
    match c
    case Top =>
    case In(up, s, id, red, sib) =>
      var inner := Mk(s, t, id, red, sib);
      InOrderPlug(up, inner);
      Concat5(Before(up), if s.Left? then InOrder(t) else InOrder(sib), [id],
              if s.Left? then InOrder(sib) else InOrder(t), After(up));
  }

  lemma Concat5(a: seq<Ref>, b: seq<Ref>, c: seq<Ref>, d: seq<Ref>, e: seq<Ref>)
    ensures a + (b + c + d) + e == a + b + (c + d + e)
    ensures a + (b + c + d) + e == (a + b + c) + d + e
  {
  }

  lemma {:induction false} DistinctPlug(c: Ctx, t: Tree)
    ensures Ids(Plug(c, t)) == CtxIds(c) + Ids(t)
    ensures Distinct(Plug(c, t)) <==> CtxDistinct(c) && Distinct(t) && CtxIds(c) !! Ids(t)
  {
    match c
    case Top =>
    case In(up, s, id, red, sib) => DistinctPlug(up, Mk(s, t, id, red, sib));
  }

  lemma {:induction false} InOrderIds(t: Tree, x: Ref)
    ensures x in InOrder(t) <==> x in Ids(t)
  {
    match t
    case Leaf =>
    case Node(l, _, _, r) => InOrderIds(l, x); InOrderIds(r, x);
  }

  lemma {:induction false} InOrderInjective(t: Tree)
    requires Distinct(t)
    ensures forall i, j :: 0 <= i < j < |InOrder(t)| ==> InOrder(t)[i] != InOrder(t)[j]
  {
    match t
    case Leaf =>
    case Node(l, id, _, r) =>
      InOrderInjective(l);
      InOrderInjective(r);
      forall x ensures (x in InOrder(l) <==> x in Ids(l)) && (x in InOrder(r) <==> x in Ids(r)) {
        InOrderIds(l, x);
        InOrderIds(r, x);
      }
      var a, b := InOrder(l), InOrder(r);
      forall i, j | 0 <= i < j < |InOrder(t)| ensures InOrder(t)[i] != InOrder(t)[j] {
        if i < |a| { assert InOrder(t)[i] == a[i] && a[i] in Ids(l); }
        if j > |a| { assert InOrder(t)[j] == b[j - |a| - 1] && b[j - |a| - 1] in Ids(r); }
        if i > |a| { assert InOrder(t)[i] == b[i - |a| - 1]; }
      }
  }

  /** The focus at the node `x` of `t`. */
  ghost function Locate(c: Ctx, t: Tree, x: Ref): (r: (Ctx, Tree))
    requires x in Ids(t)
    ensures r.1.Node? && r.1.id == x && Plug(r.0, r.1) == Plug(c, t)
    decreases t
  {
    if t.id == x then (c, t)
    else if x in Ids(t.left) then Locate(In(c, Left, t.id, t.red, t.right), t.left, x)
    else Locate(In(c, Right, t.id, t.red, t.left), t.right, x)
  }

  // ---------------------------------------------------------------- red-black properties

  predicate IsRed(t: Tree) {
    t.Node? && t.red
  }

  /** Black nodes on the leftmost path, the NULL leaf not counted. */
  function BlackHeight(t: Tree): nat {
    match t
    case Leaf => 0
    case Node(l, _, red, _) => BlackHeight(l) + if red then 0 else 1
  }

  /** Every path to a leaf carries the same number of black nodes. */
  predicate Balanced(t: Tree) {
    match t
    case Leaf => true
    case Node(l, _, _, r) => BlackHeight(l) == BlackHeight(r) && Balanced(l) && Balanced(r)
  }

  predicate NoRedRed(t: Tree) {
    match t
    case Leaf => true
    case Node(l, _, red, r) => (red ==> !IsRed(l) && !IsRed(r)) && NoRedRed(l) && NoRedRed(r)
  }

  /** The properties listed at rbtree.c:18-31 (colours and black leaves hold by construction). */
  predicate RedBlack(t: Tree) {
    !IsRed(t) && NoRedRed(t) && Balanced(t)
  }

  predicate Sub(t: Tree, h: nat) {
    Balanced(t) && NoRedRed(t) && BlackHeight(t) == h
  }

  /** Plugging a subtree of black height `h` with a root of colour `red` gives a red-black tree. */
  predicate Accepts(c: Ctx, h: nat, red: bool) {
    match c
    case Top => !red
    case In(up, _, _, cred, sib) =>
      && Sub(sib, h)
      && (cred ==> !red && !IsRed(sib))
      && Accepts(up, h + if cred then 0 else 1, cred)
  }

  lemma {:induction false} PlugRedBlack(c: Ctx, t: Tree)
    ensures RedBlack(Plug(c, t)) <==> Sub(t, BlackHeight(t)) && Accepts(c, BlackHeight(t), IsRed(t))
  {
    match c
    case Top =>
    case In(up, s, id, red, sib) => PlugRedBlack(up, Mk(s, t, id, red, sib));
  }

  // ------------------------------------------------- the shortest and the longest path

  /** Number of nodes on the longest path to a leaf. */
  function Height(t: Tree): nat {
    match t
    case Leaf => 0
    case Node(l, _, _, r) => 1 + if Height(l) > Height(r) then Height(l) else Height(r)
  }

  function Size(t: Tree): nat {
    match t
    case Leaf => 0
    case Node(l, _, _, r) => Size(l) + 1 + Size(r)
  }

  function Pow2(n: nat): nat {
    if n == 0 then 1 else 2 * Pow2(n - 1)
  }

  lemma {:induction false} HeightBounds(t: Tree)
    requires Balanced(t) && NoRedRed(t)
    ensures Height(t) <= 2 * BlackHeight(t) + (if IsRed(t) then 1 else 0)
    ensures Pow2(BlackHeight(t)) <= Size(t) + 1
  {
    match t
    case Leaf =>
    case Node(l, _, _, r) => HeightBounds(l); HeightBounds(r);
  }

  /** The O(log n) promise of rbtree.c:28-31: a tree of height 2k holds at least 2^k - 1 nodes. */
  lemma LogarithmicHeight(t: Tree)
    requires RedBlack(t)
    ensures Pow2((Height(t) + 1) / 2) <= Size(t) + 1
  {
    HeightBounds(t);
    Pow2Monotone((Height(t) + 1) / 2, BlackHeight(t));
  }

  lemma {:induction false} Pow2Monotone(a: nat, b: nat)
    requires a <= b
    ensures Pow2(a) <= Pow2(b)
  {
    if a < b { Pow2Monotone(a, b - 1); }
  }
}
