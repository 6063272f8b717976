/** How a red-black shape is laid out in memory: an arena of nodes with left, right and parent
    links.  NIL is the address of the sentinel; what its links hold is never relied on, except
    for the parent that delete stores there. */
module RedBlackLinks {
  import opened RedBlackShapes

  const NIL: Id := 0
  const NULL: Id := -1

  datatype Node = Node(left: Id, right: Id, parent: Id, color: Color)
  type Mem = map<Id, Node>

  /** The arena together with the root pointer. */
  datatype Linked = Linked(mem: Mem, root: Id)

  /** Pointer x, whose parent field has to be p, represents t. */
  predicate Rep(m: Mem, t: Tree, x: Id, p: Id) {
    match t
    case E => x == NIL
    case N(c, l, k, r) =>
      && x == k && k != NIL && k in m
      && m[k].color == c && m[k].parent == p
      && Rep(m, l, m[k].left, k) && Rep(m, r, m[k].right, k)
  }

  /** Pointer x hangs below p in a tree whose root pointer is `root` and whose root's parent
      field holds rp. */
  predicate RepAround(m: Mem, ctx: Context, x: Id, p: Id, root: Id, rp: Id) {
    match ctx
    case Top => x == root && p == rp
    case LeftOf(c, k, r, up) =>
      && p == k && k != NIL && k in m && m[k].color == c && m[k].left == x
      && Rep(m, r, m[k].right, k) && RepAround(m, up, k, m[k].parent, root, rp)
    case RightOf(c, k, l, up) =>
      && p == k && k != NIL && k in m && m[k].color == c && m[k].right == x
      && Rep(m, l, m[k].left, k) && RepAround(m, up, k, m[k].parent, root, rp)
  }

  /** The loops' view: the tree is ctx around t, and x points at t below p. */
  ghost predicate At(s: Linked, ctx: Context, t: Tree, x: Id, p: Id, rp: Id) {
    && NIL in s.mem && s.mem[NIL].color == Black
    && Apart(ctx, t)
    && Rep(s.mem, t, x, p) && RepAround(s.mem, ctx, x, p, s.root, rp)
  }

  // ---------------------------------------------------------------- framing

  ghost predicate SameOn(m: Mem, m': Mem, ids: set<Id>) {
    forall i :: i in ids && i in m ==> i in m' && m'[i] == m[i]
  }

  lemma FrameRep(m: Mem, m': Mem, t: Tree, x: Id, p: Id)
    requires Rep(m, t, x, p) && SameOn(m, m', Ids(t))
    ensures Rep(m', t, x, p)
  {
    match t
    case E =>
    case N(_, l, k, r) =>
      assert k in Ids(t);
      FrameRep(m, m', l, m[k].left, k);
      FrameRep(m, m', r, m[k].right, k);
  }

  lemma FrameAround(m: Mem, m': Mem, ctx: Context, x: Id, p: Id, root: Id, rp: Id)
    requires RepAround(m, ctx, x, p, root, rp) && SameOn(m, m', IdsAround(ctx))
    ensures RepAround(m', ctx, x, p, root, rp)
  {
    match ctx
    case Top =>
    case LeftOf(c, k, r, up) =>
      FrameRep(m, m', r, m[k].right, k);
      FrameAround(m, m', up, k, m[k].parent, root, rp);
    case RightOf(c, k, l, up) =>
      FrameRep(m, m', l, m[k].left, k);
      FrameAround(m, m', up, k, m[k].parent, root, rp);
  }

  lemma RepIds(m: Mem, t: Tree, x: Id, p: Id)
    requires Rep(m, t, x, p)
    ensures Ids(t) <= m.Keys && NIL !in Ids(t)
    ensures x == NIL <==> t.E?
    ensures t.N? ==> x in Ids(t)
  {
  }

  lemma AroundIds(m: Mem, ctx: Context, x: Id, p: Id, root: Id, rp: Id)
    requires RepAround(m, ctx, x, p, root, rp)
    ensures IdsAround(ctx) <= m.Keys && NIL !in IdsAround(ctx)
    ensures !ctx.Top? ==> root in IdsAround(ctx) && p in IdsAround(ctx)
  {
    match ctx
    case Top =>
    case LeftOf(c, k, r, up) =>
      RepIds(m, r, m[k].right, k);
      AroundIds(m, up, k, m[k].parent, root, rp);
    case RightOf(c, k, l, up) =>
      RepIds(m, l, m[k].left, k);
      AroundIds(m, up, k, m[k].parent, root, rp);
  }

  /** At the top exactly when the pointer is the root pointer. */
  lemma TopIffRoot(s: Linked, ctx: Context, t: Tree, x: Id, p: Id, rp: Id)
    requires At(s, ctx, t, x, p, rp)
    ensures ctx.Top? <==> x == s.root
  {
    RepIds(s.mem, t, x, p);
    AroundIds(s.mem, ctx, x, p, s.root, rp);
  }

  lemma {:induction false} PlugRep(m: Mem, ctx: Context, t: Tree, x: Id, p: Id, root: Id, rp: Id)
    requires Rep(m, t, x, p) && RepAround(m, ctx, x, p, root, rp)
    ensures Rep(m, Plug(ctx, t), root, rp)
  {
    match ctx
    case Top =>
    case LeftOf(c, k, r, up) => PlugRep(m, up, N(c, t, k, r), k, m[k].parent, root, rp);
    case RightOf(c, k, l, up) => PlugRep(m, up, N(c, l, k, t), k, m[k].parent, root, rp);
  }

  lemma {:induction false} UnplugRep(m: Mem, ctx: Context, t: Tree, root: Id, rp: Id)
    returns (x: Id, p: Id)
    requires Rep(m, Plug(ctx, t), root, rp)
    ensures Rep(m, t, x, p) && RepAround(m, ctx, x, p, root, rp)
  {
    match ctx
    case Top => x, p := root, rp;
    case LeftOf(c, k, r, up) =>
      var y, q := UnplugRep(m, up, N(c, t, k, r), root, rp);
      x, p := m[k].left, k;
    case RightOf(c, k, l, up) =>
      var y, q := UnplugRep(m, up, N(c, l, k, t), root, rp);
      x, p := m[k].right, k;
  }

  // ---------------------------------------------------------------- single assignments

  function SetLeft(m: Mem, x: Id, v: Id): Mem
    requires x in m
  {
    m[x := m[x].(left := v)]
  }

  function SetRight(m: Mem, x: Id, v: Id): Mem
    requires x in m
  {
    m[x := m[x].(right := v)]
  }

  function SetParent(m: Mem, x: Id, v: Id): Mem
    requires x in m
  {
    m[x := m[x].(parent := v)]
  }

  function SetColor(m: Mem, x: Id, c: Color): Mem
    requires x in m
  {
    m[x := m[x].(color := c)]
  }

  /** Giving a subtree a new parent touches its root only. */
  lemma Reparent(m: Mem, t: Tree, x: Id, p: Id, q: Id)
    requires t.N? && Rep(m, t, x, p) && Distinct(t)
    ensures Rep(SetParent(m, x, q), t, x, q)
  {
    FrameRep(m, SetParent(m, x, q), t.left, m[x].left, x);
    FrameRep(m, SetParent(m, x, q), t.right, m[x].right, x);
  }

  lemma Recolor(m: Mem, t: Tree, x: Id, p: Id, c: Color)
    requires t.N? && Rep(m, t, x, p) && Distinct(t)
    ensures Rep(SetColor(m, x, c), t.(color := c), x, p)
  {
    FrameRep(m, SetColor(m, x, c), t.left, m[x].left, x);
    FrameRep(m, SetColor(m, x, c), t.right, m[x].right, x);
  }

  lemma RecolorAround(m: Mem, ctx: Context, x: Id, p: Id, root: Id, rp: Id, c: Color)
    requires !ctx.Top? && RepAround(m, ctx, x, p, root, rp) && DistinctAround(ctx)
    ensures RepAround(SetColor(m, p, c), Repainted(ctx, c), x, p, root, rp)
  {
    var m' := SetColor(m, p, c);
    match ctx
    case LeftOf(_, k, r, up) =>
      FrameRep(m, m', r, m[k].right, k);
      FrameAround(m, m', up, k, m[k].parent, root, rp);
    case RightOf(_, k, l, up) =>
      FrameRep(m, m', l, m[k].left, k);
      FrameAround(m, m', up, k, m[k].parent, root, rp);
  }

  /** Make y the child of x's parent in the place of x; `atRoot` says that x is the root. */
  function ReplaceChild(s: Linked, x: Id, y: Id, p: Id, atRoot: bool): Linked
    requires !atRoot ==> p in s.mem
  {
    if atRoot then Linked(s.mem, y)
    else if x == s.mem[p].left then Linked(SetLeft(s.mem, p, y), s.root)
    else Linked(SetRight(s.mem, p, y), s.root)
  }

  lemma ReplaceChildAround(s: Linked, ctx: Context, x: Id, y: Id, p: Id, rp: Id)
    requires RepAround(s.mem, ctx, x, p, s.root, rp) && DistinctAround(ctx)
    requires x != NIL && x !in IdsAround(ctx)
    ensures !ctx.Top? ==> OneChildLink(s.mem, x, p)
    ensures
      var s' := ReplaceChild(s, x, y, p, ctx.Top?);
      && RepAround(s'.mem, ctx, y, p, s'.root, rp)
      && SameOn(s.mem, s'.mem, s.mem.Keys - IdsAround(ctx))
  {
    AroundIds(s.mem, ctx, x, p, s.root, rp);
    var s' := ReplaceChild(s, x, y, p, ctx.Top?);
    match ctx
    case Top =>
    case LeftOf(_, k, r, up) =>
      RepIds(s.mem, r, s.mem[k].right, k);
      FrameRep(s.mem, s'.mem, r, s.mem[k].right, k);
      FrameAround(s.mem, s'.mem, up, k, s.mem[k].parent, s.root, rp);
    case RightOf(_, k, l, up) =>
      RepIds(s.mem, l, s.mem[k].left, k);
      FrameRep(s.mem, s'.mem, l, s.mem[k].left, k);
      FrameAround(s.mem, s'.mem, up, k, s.mem[k].parent, s.root, rp);
  }

  // ---------------------------------------------------------------- rotations

  /** Exactly one of the two links of p points at x. */
  predicate OneChildLink(m: Mem, x: Id, p: Id) {
    p in m && p != x && (m[p].left == x) != (m[p].right == x)
  }

  predicate CanRotateLeft(s: Linked, x: Id, atRoot: bool) {
    && x in s.mem
    && var y := s.mem[x].right;
    && y in s.mem && y != x && s.mem[y].left != x
    && (s.mem[y].left != NIL ==> s.mem[y].left in s.mem)
    && (!atRoot ==> OneChildLink(s.mem, x, s.mem[x].parent))
  }

  predicate CanRotateRight(s: Linked, x: Id, atRoot: bool) {
    && x in s.mem
    && var y := s.mem[x].left;
    && y in s.mem && y != x && s.mem[y].right != x
    && (s.mem[y].right != NIL ==> s.mem[y].right in s.mem)
    && (!atRoot ==> OneChildLink(s.mem, x, s.mem[x].parent))
  }

  /** The first assignments of a left rotation at x: its right child's left subtree becomes its
      right subtree, and that child gets the parent of x. */
  function SwingMiddleLeft(m: Mem, x: Id): (m': Mem)
    requires x in m && m[x].right in m
    requires m[m[x].right].left != NIL ==> m[m[x].right].left in m
    ensures m'.Keys == m.Keys
  {
    var y := m[x].right;
    var b := m[y].left;
    var m := SetRight(m, x, b);
    var m := if b != NIL then SetParent(m, b, x) else m;
    SetParent(m, y, m[x].parent)
  }

  function SwingMiddleRight(m: Mem, x: Id): (m': Mem)
    requires x in m && m[x].left in m
    requires m[m[x].left].right != NIL ==> m[m[x].left].right in m
    ensures m'.Keys == m.Keys
  {
    var y := m[x].left;
    var b := m[y].right;
    var m := SetLeft(m, x, b);
    var m := if b != NIL then SetParent(m, b, x) else m;
    SetParent(m, y, m[x].parent)
  }

  /** All assignments of a left rotation at x. */
  function LeftRotated(s: Linked, x: Id, atRoot: bool): Linked
    requires CanRotateLeft(s, x, atRoot)
  {
    var y := s.mem[x].right;
    var m := SwingMiddleLeft(s.mem, x);
    var s := ReplaceChild(Linked(m, s.root), x, y, m[x].parent, atRoot);
    var m := SetLeft(s.mem, y, x);
    Linked(SetParent(m, x, y), s.root)
  }

  function RightRotated(s: Linked, x: Id, atRoot: bool): Linked
    requires CanRotateRight(s, x, atRoot)
  {
    var y := s.mem[x].left;
    var m := SwingMiddleRight(s.mem, x);
    var s := ReplaceChild(Linked(m, s.root), x, y, m[x].parent, atRoot);
    var m := SetRight(s.mem, y, x);
    Linked(SetParent(m, x, y), s.root)
  }

  lemma LeftRotatedKeys(s: Linked, x: Id, atRoot: bool)
    requires CanRotateLeft(s, x, atRoot)
    ensures LeftRotated(s, x, atRoot).mem.Keys == s.mem.Keys
  {
  }

  lemma RightRotatedKeys(s: Linked, x: Id, atRoot: bool)
    requires CanRotateRight(s, x, atRoot)
    ensures RightRotated(s, x, atRoot).mem.Keys == s.mem.Keys
  {
  }

  predicate RotatableLeft(t: Tree) {
    t.N? && t.right.N?
  }

  predicate RotatableRight(t: Tree) {
    t.N? && t.left.N?
  }

  function RotateLeft(t: Tree): (r: Tree)
    requires RotatableLeft(t)
    ensures Ids(r) == Ids(t)
    ensures Order(r) == Order(t)
  {
    var N(cx, a, x, N(cy, b, y, c)) := t;
    assert Order(a) + [x] + (Order(b) + [y] + Order(c)) == (Order(a) + [x] + Order(b)) + [y] + Order(c);
    N(cy, N(cx, a, x, b), y, c)
  }

  function RotateRight(t: Tree): (r: Tree)
    requires RotatableRight(t)
    ensures Ids(r) == Ids(t)
    ensures Order(r) == Order(t)
  {
    var N(cx, N(cy, a, y, b), x, c) := t;
    assert Order(a) + [y] + (Order(b) + [x] + Order(c)) == (Order(a) + [y] + Order(b)) + [x] + Order(c);
    N(cy, a, y, N(cx, b, x, c))
  }

  lemma RotateLeftDistinct(t: Tree)
    requires RotatableLeft(t) && Distinct(t)
    ensures Distinct(RotateLeft(t))
  {
    assert Distinct(t.right);
    assert Ids(t.right) == Ids(t.right.left) + {t.right.id} + Ids(t.right.right);
  }

  lemma RotateRightDistinct(t: Tree)
    requires RotatableRight(t) && Distinct(t)
    ensures Distinct(RotateRight(t))
  {
    assert Distinct(t.left);
    assert Ids(t.left) == Ids(t.left.left) + {t.left.id} + Ids(t.left.right);
  }

  /** The part of the rotation below x: the middle subtree changes its parent. */
  lemma LeftRotationBelow(m: Mem, t: Tree, x: Id, p: Id) returns (m3: Mem, a: Id, b: Id, c: Id)
    requires RotatableLeft(t) && Rep(m, t, x, p) && Distinct(t)
    ensures x in m && t.right.id in m && m[x].right == t.right.id
    ensures m[t.right.id].left != x && (m[t.right.id].left != NIL ==> m[t.right.id].left in m)
    ensures m3 == SwingMiddleLeft(m, x) && SameOn(m, m3, m.Keys - Ids(t)) && m3.Keys == m.Keys
    ensures
      var N(cx, ta, _, N(cy, tb, y, tc)) := t;
      && m3[x].parent == m3[y].parent == p && m3[x].color == cx && m3[y].color == cy
      && m3[x].left == a && m3[x].right == b && m3[y].right == c
      && Rep(m3, ta, a, x) && Rep(m3, tb, b, x) && Rep(m3, tc, c, y)
  {
    var N(cx, ta, _, N(cy, tb, y, tc)) := t;
    assert Rep(m, t.right, m[x].right, x) && Distinct(t.right);
    assert Ids(t.right) == Ids(tb) + {y} + Ids(tc);
    a, b, c := m[x].left, m[y].left, m[y].right;
    RepIds(m, t, x, p);
    RepIds(m, tb, b, y);
    var m1 := SetRight(m, x, b);
    var m2 := if b != NIL then SetParent(m1, b, x) else m1;
    FrameRep(m, m1, tb, b, y);
    if b != NIL {
      Reparent(m1, tb, b, y, x);
    }
    m3 := SetParent(m2, y, m2[x].parent);
    FrameRep(m2, m3, tb, b, x);
    FrameRep(m, m3, ta, a, x);
    FrameRep(m, m3, tc, c, y);
  }

  lemma LeftRotationTop(m: Mem, t: Tree, x: Id, p: Id, a: Id, b: Id, c: Id)
    requires RotatableLeft(t) && t.id == x && Distinct(t)
    requires x in m && t.right.id in m && x != NIL && t.right.id != NIL
    requires
      var N(cx, ta, _, N(cy, tb, y, tc)) := t;
      && m[y].parent == p && m[x].color == cx && m[y].color == cy
      && m[x].left == a && m[x].right == b && m[y].right == c
      && Rep(m, ta, a, x) && Rep(m, tb, b, x) && Rep(m, tc, c, y)
    ensures
      var y := t.right.id;
      var m' := SetParent(SetLeft(m, y, x), x, y);
      Rep(m', RotateLeft(t), y, p) && SameOn(m, m', m.Keys - Ids(t))
  {
    var N(cx, ta, _, N(cy, tb, y, tc)) := t;
    assert Ids(t.right) == Ids(tb) + {y} + Ids(tc) && Distinct(t.right);
    var m' := SetParent(SetLeft(m, y, x), x, y);
    FrameRep(m, m', ta, a, x);
    FrameRep(m, m', tb, b, x);
    FrameRep(m, m', tc, c, y);
    assert Rep(m', N(cx, ta, x, tb), x, y);
  }

  lemma LeftRotationParts(m: Mem, m': Mem, t: Tree, x: Id, p: Id, a: Id, b: Id, c: Id)
    requires RotatableLeft(t) && t.id == x && x in m && t.right.id in m && SameOn(m, m', Ids(t))
    requires
      var N(cx, ta, _, N(cy, tb, y, tc)) := t;
      && Rep(m, ta, a, x) && Rep(m, tb, b, x) && Rep(m, tc, c, y)
    ensures x in m' && t.right.id in m' && m'[x] == m[x] && m'[t.right.id] == m[t.right.id]
    ensures
      var N(cx, ta, _, N(cy, tb, y, tc)) := t;
      && Rep(m', ta, a, x) && Rep(m', tb, b, x) && Rep(m', tc, c, y)
  {
    var N(cx, ta, _, N(cy, tb, y, tc)) := t;
    assert Ids(t.right) == Ids(tb) + {y} + Ids(tc);
    FrameRep(m, m', ta, a, x);
    FrameRep(m, m', tb, b, x);
    FrameRep(m, m', tc, c, y);
  }

  /** The pointer assignments of a left rotation carry out the rotation of the shape, wherever
      in the tree it happens, and leave the sentinel alone. */
  lemma LeftRotation(s: Linked, ctx: Context, t: Tree, x: Id, p: Id, rp: Id)
    requires At(s, ctx, t, x, p, rp) && RotatableLeft(t)
    ensures CanRotateLeft(s, x, ctx.Top?)
    ensures
      var s' := LeftRotated(s, x, ctx.Top?);
      && At(s', ctx, RotateLeft(t), t.right.id, p, rp)
      && s'.mem[NIL] == s.mem[NIL] && s'.mem.Keys == s.mem.Keys
  {
    var y := t.right.id;
    RepIds(s.mem, t, x, p);
    AroundIds(s.mem, ctx, x, p, s.root, rp);
    var m3, a, b, c := LeftRotationBelow(s.mem, t, x, p);
    FrameAround(s.mem, m3, ctx, x, p, s.root, rp);
    ReplaceChildAround(Linked(m3, s.root), ctx, x, y, p, rp);
    var s4 := ReplaceChild(Linked(m3, s.root), x, y, p, ctx.Top?);
    LeftRotationParts(m3, s4.mem, t, x, p, a, b, c);
    LeftRotationTop(s4.mem, t, x, p, a, b, c);
    RotateLeftDistinct(t);
    LeftRotatedKeys(s, x, ctx.Top?);
    FrameAround(s4.mem, SetParent(SetLeft(s4.mem, y, x), x, y), ctx, y, p, s4.root, rp);
  }

  /** The part of the rotation below x: the middle subtree changes its parent. */
  lemma RightRotationBelow(m: Mem, t: Tree, x: Id, p: Id) returns (m3: Mem, a: Id, b: Id, c: Id)
    requires RotatableRight(t) && Rep(m, t, x, p) && Distinct(t)
    ensures x in m && t.left.id in m && m[x].left == t.left.id
    ensures m[t.left.id].right != x && (m[t.left.id].right != NIL ==> m[t.left.id].right in m)
    ensures m3 == SwingMiddleRight(m, x) && SameOn(m, m3, m.Keys - Ids(t)) && m3.Keys == m.Keys
    ensures
      var N(cx, N(cy, ta, y, tb), _, tc) := t;
      && m3[x].parent == m3[y].parent == p && m3[x].color == cx && m3[y].color == cy
      && m3[y].left == a && m3[x].left == b && m3[x].right == c
      && Rep(m3, ta, a, y) && Rep(m3, tb, b, x) && Rep(m3, tc, c, x)
  {
    var N(cx, N(cy, ta, y, tb), _, tc) := t;
    assert Rep(m, t.left, m[x].left, x) && Distinct(t.left);
    assert Ids(t.left) == Ids(ta) + {y} + Ids(tb);
    a, b, c := m[y].left, m[y].right, m[x].right;
    RepIds(m, t, x, p);
    RepIds(m, tb, b, y);
    var m1 := SetLeft(m, x, b);
    var m2 := if b != NIL then SetParent(m1, b, x) else m1;
    FrameRep(m, m1, tb, b, y);
    if b != NIL {
      Reparent(m1, tb, b, y, x);
    }
    m3 := SetParent(m2, y, m2[x].parent);
    FrameRep(m2, m3, tb, b, x);
    FrameRep(m, m3, ta, a, y);
    FrameRep(m, m3, tc, c, x);
  }

  lemma RightRotationTop(m: Mem, t: Tree, x: Id, p: Id, a: Id, b: Id, c: Id)
    requires RotatableRight(t) && t.id == x && Distinct(t)
    requires x in m && t.left.id in m && x != NIL && t.left.id != NIL
    requires
      var N(cx, N(cy, ta, y, tb), _, tc) := t;
      && m[y].parent == p && m[x].color == cx && m[y].color == cy
      && m[y].left == a && m[x].left == b && m[x].right == c
      && Rep(m, ta, a, y) && Rep(m, tb, b, x) && Rep(m, tc, c, x)
    ensures
      var y := t.left.id;
      var m' := SetParent(SetRight(m, y, x), x, y);
      Rep(m', RotateRight(t), y, p) && SameOn(m, m', m.Keys - Ids(t))
  {
    var N(cx, N(cy, ta, y, tb), _, tc) := t;
    assert Ids(t.left) == Ids(ta) + {y} + Ids(tb) && Distinct(t.left);
    var m' := SetParent(SetRight(m, y, x), x, y);
    FrameRep(m, m', ta, a, y);
    FrameRep(m, m', tb, b, x);
    FrameRep(m, m', tc, c, x);
    assert Rep(m', N(cx, tb, x, tc), x, y);
  }

  lemma RightRotationParts(m: Mem, m': Mem, t: Tree, x: Id, p: Id, a: Id, b: Id, c: Id)
    requires RotatableRight(t) && t.id == x && x in m && t.left.id in m && SameOn(m, m', Ids(t))
    requires
      var N(cx, N(cy, ta, y, tb), _, tc) := t;
      && Rep(m, ta, a, y) && Rep(m, tb, b, x) && Rep(m, tc, c, x)
    ensures x in m' && t.left.id in m' && m'[x] == m[x] && m'[t.left.id] == m[t.left.id]
    ensures
      var N(cx, N(cy, ta, y, tb), _, tc) := t;
      && Rep(m', ta, a, y) && Rep(m', tb, b, x) && Rep(m', tc, c, x)
  {
    var N(cx, N(cy, ta, y, tb), _, tc) := t;
    assert Ids(t.left) == Ids(ta) + {y} + Ids(tb);
    FrameRep(m, m', ta, a, y);
    FrameRep(m, m', tb, b, x);
    FrameRep(m, m', tc, c, x);
  }

  /** The pointer assignments of a right rotation carry out the rotation of the shape, wherever
      in the tree it happens, and leave the sentinel alone. */
  lemma RightRotation(s: Linked, ctx: Context, t: Tree, x: Id, p: Id, rp: Id)
    requires At(s, ctx, t, x, p, rp) && RotatableRight(t)
    ensures CanRotateRight(s, x, ctx.Top?)
    ensures
      var s' := RightRotated(s, x, ctx.Top?);
      && At(s', ctx, RotateRight(t), t.left.id, p, rp)
      && s'.mem[NIL] == s.mem[NIL] && s'.mem.Keys == s.mem.Keys
  {
    var y := t.left.id;
    RepIds(s.mem, t, x, p);
    AroundIds(s.mem, ctx, x, p, s.root, rp);
    var m3, a, b, c := RightRotationBelow(s.mem, t, x, p);
    FrameAround(s.mem, m3, ctx, x, p, s.root, rp);
    ReplaceChildAround(Linked(m3, s.root), ctx, x, y, p, rp);
    var s4 := ReplaceChild(Linked(m3, s.root), x, y, p, ctx.Top?);
    RightRotationParts(m3, s4.mem, t, x, p, a, b, c);
    RightRotationTop(s4.mem, t, x, p, a, b, c);
    RotateRightDistinct(t);
    RightRotatedKeys(s, x, ctx.Top?);
    FrameAround(s4.mem, SetParent(SetRight(s4.mem, y, x), x, y), ctx, y, p, s4.root, rp);
  }

  // ---------------------------------------------------------------- moving the focus

  lemma Ascend(s: Linked, ctx: Context, t: Tree, x: Id, p: Id, rp: Id)
    requires At(s, ctx, t, x, p, rp) && !ctx.Top?
    ensures p == ctx.id && p in s.mem && p != NIL && s.mem[p].color == ctx.color
    ensures ctx.LeftOf? ==> s.mem[p].left == x && (t.N? ==> s.mem[p].right != x)
    ensures ctx.RightOf? ==> s.mem[p].right == x && (t.N? ==> s.mem[p].left != x)
    ensures At(s, ctx.up, Joined(ctx, t), p, s.mem[p].parent, rp)
    ensures OrderAt(ctx.up, Joined(ctx, t)) == OrderAt(ctx, t)
  {
    OrderJoined(ctx, t);
    RepIds(s.mem, t, x, p);
    match ctx
    case LeftOf(_, k, r, _) => RepIds(s.mem, r, s.mem[k].right, k);
    case RightOf(_, k, l, _) => RepIds(s.mem, l, s.mem[k].left, k);
  }

  lemma DescendLeft(s: Linked, ctx: Context, t: Tree, x: Id, p: Id, rp: Id)
    requires At(s, ctx, t, x, p, rp) && t.N?
    ensures x in s.mem && x != NIL && x == t.id && s.mem[x].color == t.color && s.mem[x].parent == p
    ensures s.mem[x].left == NIL <==> t.left.E?
    ensures s.mem[x].left in s.mem && s.mem[s.mem[x].left].color == ColorOf(t.left)
    ensures At(s, LeftOf(t.color, x, t.right, ctx), t.left, s.mem[x].left, x, rp)
    ensures OrderAt(LeftOf(t.color, x, t.right, ctx), t.left) == OrderAt(ctx, t)
  {
    OrderJoined(LeftOf(t.color, x, t.right, ctx), t.left);
    RepIds(s.mem, t.left, s.mem[x].left, x);
  }

  lemma DescendRight(s: Linked, ctx: Context, t: Tree, x: Id, p: Id, rp: Id)
    requires At(s, ctx, t, x, p, rp) && t.N?
    ensures x in s.mem && x != NIL && x == t.id && s.mem[x].color == t.color && s.mem[x].parent == p
    ensures s.mem[x].right == NIL <==> t.right.E?
    ensures s.mem[x].right in s.mem && s.mem[s.mem[x].right].color == ColorOf(t.right)
    ensures At(s, RightOf(t.color, x, t.left, ctx), t.right, s.mem[x].right, x, rp)
    ensures OrderAt(RightOf(t.color, x, t.left, ctx), t.right) == OrderAt(ctx, t)
  {
    OrderJoined(RightOf(t.color, x, t.left, ctx), t.right);
    RepIds(s.mem, t.right, s.mem[x].right, x);
  }

  function Painted(s: Linked, x: Id, c: Color): Linked
    requires x in s.mem
  {
    Linked(SetColor(s.mem, x, c), s.root)
  }

  lemma PaintHere(s: Linked, ctx: Context, t: Tree, x: Id, p: Id, rp: Id, c: Color)
    requires At(s, ctx, t, x, p, rp) && t.N?
    ensures x in s.mem && x != NIL
    ensures At(Painted(s, x, c), ctx, t.(color := c), x, p, rp)
  {
    Recolor(s.mem, t, x, p, c);
    FrameAround(s.mem, SetColor(s.mem, x, c), ctx, x, p, s.root, rp);
  }

  lemma PaintParent(s: Linked, ctx: Context, t: Tree, x: Id, p: Id, rp: Id, c: Color)
    requires At(s, ctx, t, x, p, rp) && !ctx.Top?
    ensures p in s.mem && p != NIL
    ensures At(Painted(s, p, c), Repainted(ctx, c), t, x, p, rp)
  {
    RecolorAround(s.mem, ctx, x, p, s.root, rp, c);
    FrameRep(s.mem, SetColor(s.mem, p, c), t, x, p);
  }

  /** The pointer x at the head of a subtree, whatever its parent field holds. */
  ghost predicate Focus(s: Linked, ctx: Context, t: Tree, x: Id, rp: Id) {
    x in s.mem && At(s, ctx, t, x, s.mem[x].parent, rp)
  }

  /** Painting a sibling subtree's root, seen from the other child. */
  lemma PaintSibling(s: Linked, ctx: Context, t: Tree, x: Id, p: Id, rp: Id, c: Color)
    requires At(s, ctx, t, x, p, rp) && !ctx.Top? && Sibling(ctx).N?
    ensures Sibling(ctx).id in s.mem && Sibling(ctx).id != NIL
    ensures
      At(Painted(s, Sibling(ctx).id, c), WithSibling(ctx, Sibling(ctx).(color := c)), t, x, p, rp)
  {
    Ascend(s, ctx, t, x, p, rp);
    var w := Sibling(ctx).id;
    var q := s.mem[p].parent;
    match ctx
    case LeftOf(_, k, r, up) =>
      DescendRight(s, up, Joined(ctx, t), p, q, rp);
      PaintHere(s, RightOf(ctx.color, k, t, up), r, w, p, rp, c);
      Ascend(Painted(s, w, c), RightOf(ctx.color, k, t, up), r.(color := c), w, p, rp);
      DescendLeft(Painted(s, w, c), up, N(ctx.color, t, k, r.(color := c)), p, q, rp);
    case RightOf(_, k, l, up) =>
      DescendLeft(s, up, Joined(ctx, t), p, q, rp);
      PaintHere(s, LeftOf(ctx.color, k, t, up), l, w, p, rp, c);
      Ascend(Painted(s, w, c), LeftOf(ctx.color, k, t, up), l.(color := c), w, p, rp);
      DescendRight(Painted(s, w, c), up, N(ctx.color, l.(color := c), k, t), p, q, rp);
  }

  /** The three assignments for a red uncle. */
  lemma RecolorPointers(s: Linked, ctx: Context, t: Tree, x: Id, rp: Id) returns (s': Linked)
    requires Focus(s, ctx, t, x, rp) && !ctx.Top? && !ctx.up.Top? && Sibling(ctx.up).N?
    ensures
      var parent, uncle, grand := ctx.id, Sibling(ctx.up).id, ctx.up.id;
      var up := WithSibling(Repainted(ctx.up, Red), Blackened(Sibling(ctx.up)));
      && parent in s.mem && uncle in s.mem && grand in s.mem
      && s' == Painted(Painted(Painted(s, parent, Black), uncle, Black), grand, Red)
      && Focus(s', ctx.up.up, Joined(up, Joined(Repainted(ctx, Black), t)), grand, rp)
      && OrderAt(ctx.up.up, Joined(up, Joined(Repainted(ctx, Black), t))) == OrderAt(ctx, t)
  {
    var parent, uncle, grand := ctx.id, Sibling(ctx.up).id, ctx.up.id;
    var t1 := Joined(Repainted(ctx, Black), t);
    PaintParent(s, ctx, t, x, s.mem[x].parent, rp, Black);
    var s1 := Painted(s, parent, Black);
    Ascend(s1, Repainted(ctx, Black), t, x, parent, rp);
    PaintSibling(s1, ctx.up, t1, parent, s1.mem[parent].parent, rp, Black);
    var s2 := Painted(s1, uncle, Black);
    var up2 := WithSibling(ctx.up, Blackened(Sibling(ctx.up)));
    PaintParent(s2, up2, t1, parent, s1.mem[parent].parent, rp, Red);
    s' := Painted(s2, grand, Red);
    Ascend(s', Repainted(up2, Red), t1, parent, s1.mem[parent].parent, rp);
    PaintingKeepsOrder(ctx, t, Black);
    OrderJoined(Repainted(ctx, Black), t);
  }

  lemma PaintingKeepsOrder(ctx: Context, t: Tree, c: Color)
    requires !ctx.Top?
    ensures OrderAt(Repainted(ctx, c), t) == OrderAt(ctx, t)
  {
  }

  lemma SiblingKeepsOrder(ctx: Context, t: Tree, w: Tree)
    requires !ctx.Top? && Order(w) == Order(Sibling(ctx))
    ensures OrderAt(WithSibling(ctx, w), t) == OrderAt(ctx, t)
  {
  }

  /** Rotating left at the focus. */
  lemma FocusLeftRotation(s: Linked, ctx: Context, t: Tree, x: Id, rp: Id) returns (s': Linked)
    requires Focus(s, ctx, t, x, rp) && RotatableLeft(t)
    ensures CanRotateLeft(s, x, x == s.root) && s' == LeftRotated(s, x, x == s.root)
    ensures Focus(s', ctx, RotateLeft(t), RotateLeft(t).id, rp)
    ensures OrderAt(ctx, RotateLeft(t)) == OrderAt(ctx, t)
    ensures s'.mem[NIL] == s.mem[NIL] && s'.mem.Keys == s.mem.Keys
  {
    TopIffRoot(s, ctx, t, x, s.mem[x].parent, rp);
    LeftRotation(s, ctx, t, x, s.mem[x].parent, rp);
    s' := LeftRotated(s, x, x == s.root);
  }

  /** The focus is the inner child: rotating its parent makes the path straight. */
  lemma BentLeftPointers(s: Linked, ctx: Context, t: Tree, x: Id, rp: Id) returns (s': Linked)
    requires Focus(s, ctx, t, x, rp) && t.N? && ctx.RightOf?
    ensures CanRotateLeft(s, ctx.id, ctx.id == s.root) && s' == LeftRotated(s, ctx.id, ctx.id == s.root)
    ensures
      && Focus(s', LeftOf(t.color, t.id, t.right, ctx.up), N(ctx.color, ctx.left, ctx.id, t.left), ctx.id, rp)
      && OrderAt(LeftOf(t.color, t.id, t.right, ctx.up), N(ctx.color, ctx.left, ctx.id, t.left)) == OrderAt(ctx, t)
      && s'.mem.Keys == s.mem.Keys
  {
    Ascend(s, ctx, t, x, s.mem[x].parent, rp);
    s' := FocusLeftRotation(s, ctx.up, Joined(ctx, t), ctx.id, rp);
    DescendLeft(s', ctx.up, RotateLeft(Joined(ctx, t)), x, s'.mem[x].parent, rp);
  }

  /** The two assignments and the rotation for a black uncle and a straight path. */
  lemma StraightLeftPointers(s: Linked, ctx: Context, t: Tree, x: Id, rp: Id) returns (s': Linked)
    requires Focus(s, ctx, t, x, rp) && t.N? && ctx.RightOf? && ctx.up.RightOf?
    ensures
      var parent, grand := ctx.id, ctx.up.id;
      && parent in s.mem && grand in s.mem
      && var s2 := Painted(Painted(s, parent, Black), grand, Red);
      && CanRotateLeft(s2, grand, grand == s2.root) && s' == LeftRotated(s2, grand, grand == s2.root)
      && Focus(s', RightOf(Black, ctx.id, N(Red, ctx.up.left, ctx.up.id, ctx.left), ctx.up.up), t, x, rp)
      && OrderAt(RightOf(Black, ctx.id, N(Red, ctx.up.left, ctx.up.id, ctx.left), ctx.up.up), t) == OrderAt(ctx, t)
      && s'.mem.Keys == s.mem.Keys
  {
    var parent, grand := ctx.id, ctx.up.id;
    var t1 := Joined(Repainted(ctx, Black), t);
    PaintParent(s, ctx, t, x, s.mem[x].parent, rp, Black);
    var s1 := Painted(s, parent, Black);
    Ascend(s1, Repainted(ctx, Black), t, x, parent, rp);
    PaintParent(s1, ctx.up, t1, parent, s1.mem[parent].parent, rp, Red);
    var s2 := Painted(s1, grand, Red);
    Ascend(s2, Repainted(ctx.up, Red), t1, parent, s1.mem[parent].parent, rp);
    var t2 := Joined(Repainted(ctx.up, Red), t1);
    s' := FocusLeftRotation(s2, ctx.up.up, t2, grand, rp);
    DescendRight(s', ctx.up.up, RotateLeft(t2), parent, s'.mem[parent].parent, rp);
    PaintingKeepsOrder(ctx, t, Black);
    OrderJoined(Repainted(ctx, Black), t);
    PaintingKeepsOrder(ctx.up, t1, Red);
  }

  /** Rotating right at the focus. */
  lemma FocusRightRotation(s: Linked, ctx: Context, t: Tree, x: Id, rp: Id) returns (s': Linked)
    requires Focus(s, ctx, t, x, rp) && RotatableRight(t)
    ensures CanRotateRight(s, x, x == s.root) && s' == RightRotated(s, x, x == s.root)
    ensures Focus(s', ctx, RotateRight(t), RotateRight(t).id, rp)
    ensures OrderAt(ctx, RotateRight(t)) == OrderAt(ctx, t)
    ensures s'.mem[NIL] == s.mem[NIL] && s'.mem.Keys == s.mem.Keys
  {
    TopIffRoot(s, ctx, t, x, s.mem[x].parent, rp);
    RightRotation(s, ctx, t, x, s.mem[x].parent, rp);
    s' := RightRotated(s, x, x == s.root);
  }

  /** The focus is the inner child: rotating its parent makes the path straight. */
  lemma BentRightPointers(s: Linked, ctx: Context, t: Tree, x: Id, rp: Id) returns (s': Linked)
    requires Focus(s, ctx, t, x, rp) && t.N? && ctx.LeftOf?
    ensures CanRotateRight(s, ctx.id, ctx.id == s.root) && s' == RightRotated(s, ctx.id, ctx.id == s.root)
    ensures
      && Focus(s', RightOf(t.color, t.id, t.left, ctx.up), N(ctx.color, t.right, ctx.id, ctx.right), ctx.id, rp)
      && OrderAt(RightOf(t.color, t.id, t.left, ctx.up), N(ctx.color, t.right, ctx.id, ctx.right)) == OrderAt(ctx, t)
      && s'.mem.Keys == s.mem.Keys
  {
    Ascend(s, ctx, t, x, s.mem[x].parent, rp);
    s' := FocusRightRotation(s, ctx.up, Joined(ctx, t), ctx.id, rp);
    DescendRight(s', ctx.up, RotateRight(Joined(ctx, t)), x, s'.mem[x].parent, rp);
  }

  /** The two assignments and the rotation for a black uncle and a straight path. */
  lemma StraightRightPointers(s: Linked, ctx: Context, t: Tree, x: Id, rp: Id) returns (s': Linked)
    requires Focus(s, ctx, t, x, rp) && t.N? && ctx.LeftOf? && ctx.up.LeftOf?
    ensures
      var parent, grand := ctx.id, ctx.up.id;
      && parent in s.mem && grand in s.mem
      && var s2 := Painted(Painted(s, parent, Black), grand, Red);
      && CanRotateRight(s2, grand, grand == s2.root) && s' == RightRotated(s2, grand, grand == s2.root)
      && Focus(s', LeftOf(Black, ctx.id, N(Red, ctx.right, ctx.up.id, ctx.up.right), ctx.up.up), t, x, rp)
      && OrderAt(LeftOf(Black, ctx.id, N(Red, ctx.right, ctx.up.id, ctx.up.right), ctx.up.up), t) == OrderAt(ctx, t)
      && s'.mem.Keys == s.mem.Keys
  {
    var parent, grand := ctx.id, ctx.up.id;
    var t1 := Joined(Repainted(ctx, Black), t);
    PaintParent(s, ctx, t, x, s.mem[x].parent, rp, Black);
    var s1 := Painted(s, parent, Black);
    Ascend(s1, Repainted(ctx, Black), t, x, parent, rp);
    PaintParent(s1, ctx.up, t1, parent, s1.mem[parent].parent, rp, Red);
    var s2 := Painted(s1, grand, Red);
    Ascend(s2, Repainted(ctx.up, Red), t1, parent, s1.mem[parent].parent, rp);
    var t2 := Joined(Repainted(ctx.up, Red), t1);
    s' := FocusRightRotation(s2, ctx.up.up, t2, grand, rp);
    DescendLeft(s', ctx.up.up, RotateRight(t2), parent, s'.mem[parent].parent, rp);
    PaintingKeepsOrder(ctx, t, Black);
    OrderJoined(Repainted(ctx, Black), t);
    PaintingKeepsOrder(ctx.up, t1, Red);
  }

  // ---------------------------------------------------------------- hanging a new leaf

  /** Let the hole's parent point at y. */
  function SetHole(m: Mem, ctx: Context, y: Id): Mem
    requires !ctx.Top? && ctx.id in m
  {
    if ctx.LeftOf? then SetLeft(m, ctx.id, y) else SetRight(m, ctx.id, y)
  }

  lemma SetHoleAround(m: Mem, ctx: Context, x: Id, y: Id, p: Id, root: Id, rp: Id)
    requires !ctx.Top? && RepAround(m, ctx, x, p, root, rp) && DistinctAround(ctx)
    ensures ctx.id in m && p == ctx.id
    ensures RepAround(SetHole(m, ctx, y), ctx, y, p, root, rp)
    ensures SameOn(m, SetHole(m, ctx, y), m.Keys - {p})
  {
    var m' := SetHole(m, ctx, y);
    FrameRep(m, m', Sibling(ctx), if ctx.LeftOf? then m[p].right else m[p].left, p);
    FrameAround(m, m', ctx.up, p, m[p].parent, root, rp);
  }

  /** The four assignments that make a node a red leaf. */
  lemma LeafMade(m: Mem, node: Id, p: Id)
    requires node in m
    ensures
      SetColor(SetRight(SetLeft(SetParent(m, node, p), node, NIL), node, NIL), node, Red)
        == m[node := Node(NIL, NIL, p, Red)]
  {
  }

  /** Storing a fresh red leaf in a hole. */
  lemma HangLeaf(s: Linked, ctx: Context, p: Id, rp: Id, node: Id)
    requires At(s, ctx, E, NIL, p, rp) && !ctx.Top?
    requires node in s.mem && node != NIL && node !in IdsAround(ctx)
    ensures p == ctx.id && p in s.mem
    ensures
      var m := SetHole(s.mem, ctx, node);
      var m' := m[node := Node(NIL, NIL, p, Red)];
      Focus(Linked(m', s.root), ctx, N(Red, E, node, E), node, rp) && m'.Keys == s.mem.Keys
  {
    SetHoleAround(s.mem, ctx, NIL, node, p, s.root, rp);
    AroundIds(s.mem, ctx, NIL, p, s.root, rp);
    var m := SetHole(s.mem, ctx, node);
    FrameAround(m, m[node := Node(NIL, NIL, p, Red)], ctx, node, p, s.root, rp);
  }

  /** From a focus back to the whole tree. */
  lemma Whole(s: Linked, ctx: Context, t: Tree, x: Id, p: Id, rp: Id)
    requires At(s, ctx, t, x, p, rp)
    ensures At(s, Top, Plug(ctx, t), s.root, rp, rp)
    ensures Order(Plug(ctx, t)) == OrderAt(ctx, t)
  {
    PlugRep(s.mem, ctx, t, x, p, s.root, rp);
    DistinctPlug(ctx, t);
    OrderPlug(ctx, t);
  }

  /** What the guards of the fixup loops read. */
  lemma GuardFacts(s: Linked, ctx: Context, t: Tree, x: Id, rp: Id)
    requires Focus(s, ctx, t, x, rp)
    ensures x == s.root <==> ctx.Top?
    ensures !ctx.Top? ==> s.mem[x].parent in s.mem && s.mem[s.mem[x].parent].color == ctx.color
  {
    TopIffRoot(s, ctx, t, x, s.mem[x].parent, rp);
    if !ctx.Top? {
      Ascend(s, ctx, t, x, s.mem[x].parent, rp);
    }
  }

  /** Painting the root black ends the insertion repair. */
  lemma InsertionEnds(s: Linked, ctx: Context, t: Tree, x: Id, rp: Id, n: nat)
    requires Focus(s, ctx, t, x, rp) && RedAt(ctx, t, n) && !RedParent(ctx)
    ensures s.root in s.mem
    ensures At(Painted(s, s.root, Black), Top, Blackened(Plug(ctx, t)), s.root, rp, rp)
    ensures RedBlack(Blackened(Plug(ctx, t)))
    ensures Order(Blackened(Plug(ctx, t))) == OrderAt(ctx, t)
  {
    Whole(s, ctx, t, x, s.mem[x].parent, rp);
    IdsPlug(ctx, t);
    var whole := Plug(ctx, t);
    assert whole.N?;
    PaintHere(s, Top, whole, s.root, rp, rp, Black);
    var m := BalancedPlug(ctx, t, n);
    NoRedRedPlug(ctx, t);
    assert Balanced(Blackened(whole), if whole.color == Red then m + 1 else m);
  }

  // ---------------------------------------------------------------- the deletion repair

  /** The sentinel may be the focus: then its parent field has to lead back. */
  lemma Refocus(s: Linked, ctx: Context, t: Tree, y: Id, p: Id, rp: Id, x: Id)
    requires At(s, ctx, t, y, p, rp)
    requires t.N? ==> x == t.id
    requires t.E? ==> x == NIL && s.mem[NIL].parent == p
    ensures Focus(s, ctx, t, x, rp)
  {
  }

  lemma FocusColor(s: Linked, ctx: Context, t: Tree, x: Id, rp: Id)
    requires Focus(s, ctx, t, x, rp)
    ensures s.mem[x].color == ColorOf(t)
    ensures x == s.root <==> ctx.Top?
    ensures x == NIL <==> t.E?
    ensures t.N? ==> x == t.id
  {
    RepIds(s.mem, t, x, s.mem[x].parent);
    TopIffRoot(s, ctx, t, x, s.mem[x].parent, rp);
  }

  /** What the repair reads around the focus: its parent, its sibling w and the children of w. */
  lemma SiblingFacts(s: Linked, ctx: Context, t: Tree, x: Id, rp: Id)
    requires Focus(s, ctx, t, x, rp) && !ctx.Top? && Sibling(ctx).N?
    ensures s.mem[x].parent == ctx.id && ctx.id in s.mem && s.mem[ctx.id].color == ctx.color
    ensures (x == s.mem[ctx.id].left) == ctx.LeftOf?
    ensures
      var w := if ctx.LeftOf? then s.mem[ctx.id].right else s.mem[ctx.id].left;
      && w == Sibling(ctx).id && w in s.mem && w != NIL && s.mem[w].color == Sibling(ctx).color
      && s.mem[w].left in s.mem && s.mem[s.mem[w].left].color == ColorOf(Sibling(ctx).left)
      && s.mem[w].right in s.mem && s.mem[s.mem[w].right].color == ColorOf(Sibling(ctx).right)
      && (Sibling(ctx).left.N? ==> s.mem[w].left == Sibling(ctx).left.id)
      && (Sibling(ctx).right.N? ==> s.mem[w].right == Sibling(ctx).right.id)
  {
    var p := s.mem[x].parent;
    Ascend(s, ctx, t, x, p, rp);
    var q := s.mem[p].parent;
    FocusColor(s, ctx, t, x, rp);
    if ctx.LeftOf? {
      DescendRight(s, ctx.up, Joined(ctx, t), p, q, rp);
      var w := s.mem[p].right;
      DescendLeft(s, RightOf(ctx.color, p, t, ctx.up), ctx.right, w, p, rp);
      DescendRight(s, RightOf(ctx.color, p, t, ctx.up), ctx.right, w, p, rp);
    } else {
      DescendLeft(s, ctx.up, Joined(ctx, t), p, q, rp);
      var w := s.mem[p].left;
      DescendLeft(s, LeftOf(ctx.color, p, t, ctx.up), ctx.left, w, p, rp);
      DescendRight(s, LeftOf(ctx.color, p, t, ctx.up), ctx.left, w, p, rp);
    }
  }

  lemma PaintLeftChild(s: Linked, ctx: Context, t: Tree, x: Id, p: Id, rp: Id, c: Color)
    requires At(s, ctx, t, x, p, rp) && t.N? && t.left.N?
    ensures t.left.id in s.mem && t.left.id != NIL
    ensures At(Painted(s, t.left.id, c), ctx, t.(left := t.left.(color := c)), x, p, rp)
  {
    DescendLeft(s, ctx, t, x, p, rp);
    PaintHere(s, LeftOf(t.color, x, t.right, ctx), t.left, t.left.id, x, rp, c);
    Ascend(Painted(s, t.left.id, c), LeftOf(t.color, x, t.right, ctx), t.left.(color := c), t.left.id, x, rp);
  }

  lemma PaintRightChild(s: Linked, ctx: Context, t: Tree, x: Id, p: Id, rp: Id, c: Color)
    requires At(s, ctx, t, x, p, rp) && t.N? && t.right.N?
    ensures t.right.id in s.mem && t.right.id != NIL
    ensures At(Painted(s, t.right.id, c), ctx, t.(right := t.right.(color := c)), x, p, rp)
  {
    DescendRight(s, ctx, t, x, p, rp);
    PaintHere(s, RightOf(t.color, x, t.left, ctx), t.right, t.right.id, x, rp, c);
    Ascend(Painted(s, t.right.id, c), RightOf(t.color, x, t.left, ctx), t.right.(color := c), t.right.id, x, rp);
  }

  /** The assignment that moves the shortage up. */
  lemma ShortageUpPointers(s: Linked, ctx: Context, t: Tree, x: Id, rp: Id) returns (s': Linked)
    requires Focus(s, ctx, t, x, rp) && !ctx.Top? && Sibling(ctx).N?
    ensures Sibling(ctx).id in s.mem && s' == Painted(s, Sibling(ctx).id, Red)
    ensures
      var t' := Joined(WithSibling(ctx, Sibling(ctx).(color := Red)), t);
      && Focus(s', ctx.up, t', ctx.id, rp) && OrderAt(ctx.up, t') == OrderAt(ctx, t)
      && s'.mem.Keys == s.mem.Keys
  {
    PaintSibling(s, ctx, t, x, s.mem[x].parent, rp, Red);
    s' := Painted(s, Sibling(ctx).id, Red);
    var ctx1 := WithSibling(ctx, Sibling(ctx).(color := Red));
    Ascend(s', ctx1, t, x, s.mem[x].parent, rp);
    SiblingKeepsOrder(ctx, t, Sibling(ctx).(color := Red));
  }

  /** A red sibling on the right: two assignments and a rotation. */
  lemma RedSiblingLeftPointers(s: Linked, ctx: Context, t: Tree, x: Id, rp: Id) returns (s': Linked)
    requires Focus(s, ctx, t, x, rp) && ctx.LeftOf? && ctx.right.N?
    ensures
      var w := ctx.right;
      && w.id in s.mem && ctx.id in s.mem
      && var s2 := Painted(Painted(s, w.id, Black), ctx.id, Red);
      && CanRotateLeft(s2, ctx.id, ctx.id == s2.root) && s' == LeftRotated(s2, ctx.id, ctx.id == s2.root)
      && Focus(s', LeftOf(Red, ctx.id, w.left, LeftOf(Black, w.id, w.right, ctx.up)), t, x, rp)
      && OrderAt(LeftOf(Red, ctx.id, w.left, LeftOf(Black, w.id, w.right, ctx.up)), t) == OrderAt(ctx, t)
      && s'.mem.Keys == s.mem.Keys
  {
    var w, p := ctx.right, s.mem[x].parent;
    FocusColor(s, ctx, t, x, rp);
    PaintSibling(s, ctx, t, x, p, rp, Black);
    var s1 := Painted(s, w.id, Black);
    var ctx1 := WithSibling(ctx, w.(color := Black));
    PaintParent(s1, ctx1, t, x, p, rp, Red);
    var s2 := Painted(s1, p, Red);
    var ctx2 := Repainted(ctx1, Red);
    Ascend(s2, ctx2, t, x, p, rp);
    s' := FocusLeftRotation(s2, ctx.up, Joined(ctx2, t), p, rp);
    DescendLeft(s', ctx.up, RotateLeft(Joined(ctx2, t)), w.id, s'.mem[w.id].parent, rp);
    DescendLeft(s', LeftOf(Black, w.id, w.right, ctx.up), N(Red, t, ctx.id, w.left), p, w.id, rp);
    Refocus(s', LeftOf(Red, ctx.id, w.left, LeftOf(Black, w.id, w.right, ctx.up)), t, s'.mem[p].left, p, rp, x);
    SiblingKeepsOrder(ctx, t, w.(color := Black));
    PaintingKeepsOrder(ctx1, t, Red);
  }

  /** The near child of the sibling is red: two assignments and a rotation at the sibling. */
  lemma NearRedLeftPointers(s: Linked, ctx: Context, t: Tree, x: Id, rp: Id) returns (s': Linked)
    requires Focus(s, ctx, t, x, rp) && ctx.LeftOf? && ctx.right.N? && ctx.right.left.N?
    ensures
      var w := ctx.right;
      && w.id in s.mem && w.left.id in s.mem
      && var s2 := Painted(Painted(s, w.left.id, Black), w.id, Red);
      && CanRotateRight(s2, w.id, w.id == s2.root) && s' == RightRotated(s2, w.id, w.id == s2.root)
      && Focus(s', WithSibling(ctx, N(Black, w.left.left, w.left.id, N(Red, w.left.right, w.id, w.right))), t, x, rp)
      && OrderAt(WithSibling(ctx, N(Black, w.left.left, w.left.id, N(Red, w.left.right, w.id, w.right))), t) == OrderAt(ctx, t)
      && s'.mem.Keys == s.mem.Keys
  {
    var w, p := ctx.right, s.mem[x].parent;
    FocusColor(s, ctx, t, x, rp);
    Ascend(s, ctx, t, x, p, rp);
    DescendRight(s, ctx.up, Joined(ctx, t), p, s.mem[p].parent, rp);
    var wctx := RightOf(ctx.color, ctx.id, t, ctx.up);
    PaintLeftChild(s, wctx, w, w.id, p, rp, Black);
    var s1 := Painted(s, w.left.id, Black);
    var w1 := w.(left := w.left.(color := Black));
    PaintHere(s1, wctx, w1, w.id, p, rp, Red);
    var s2 := Painted(s1, w.id, Red);
    var w2 := w1.(color := Red);
    s' := FocusRightRotation(s2, wctx, w2, w.id, rp);
    var turned := N(Black, w.left.left, w.left.id, N(Red, w.left.right, w.id, w.right));
    assert turned == RotateRight(w2);
    Ascend(s', wctx, turned, turned.id, s'.mem[turned.id].parent, rp);
    DescendLeft(s', ctx.up, Joined(wctx, turned), p, s'.mem[p].parent, rp);
    Refocus(s', WithSibling(ctx, turned), t, s'.mem[p].left, p, rp, x);
    assert Order(w2) == Order(w1) == Order(w);
    SiblingKeepsOrder(ctx, t, turned);
  }

  /** The far child of the sibling is red: three assignments and a rotation at the parent. */
  lemma FarRedLeftPointers(s: Linked, ctx: Context, t: Tree, x: Id, rp: Id) returns (s': Linked)
    requires Focus(s, ctx, t, x, rp) && ctx.LeftOf? && ctx.right.N? && ctx.right.right.N?
    ensures
      var w := ctx.right;
      var whole := N(ctx.color, N(Black, t, ctx.id, w.left), w.id, Blackened(w.right));
      && w.id in s.mem && ctx.id in s.mem && w.right.id in s.mem
      && var s3 := Painted(Painted(Painted(s, w.id, ctx.color), ctx.id, Black), w.right.id, Black);
      && CanRotateLeft(s3, ctx.id, ctx.id == s3.root) && s' == LeftRotated(s3, ctx.id, ctx.id == s3.root)
      && Focus(s', ctx.up, whole, w.id, rp)
      && OrderAt(ctx.up, whole) == OrderAt(ctx, t)
      && s'.mem.Keys == s.mem.Keys
  {
    var w, p := ctx.right, s.mem[x].parent;
    FocusColor(s, ctx, t, x, rp);
    PaintSibling(s, ctx, t, x, p, rp, ctx.color);
    var s1 := Painted(s, w.id, ctx.color);
    var w1 := w.(color := ctx.color);
    var ctx1 := WithSibling(ctx, w1);
    PaintParent(s1, ctx1, t, x, p, rp, Black);
    var s2 := Painted(s1, p, Black);
    var ctx2 := Repainted(ctx1, Black);
    Ascend(s2, ctx2, t, x, p, rp);
    var q := s2.mem[p].parent;
    DescendRight(s2, ctx.up, Joined(ctx2, t), p, q, rp);
    var wctx := RightOf(Black, ctx.id, t, ctx.up);
    PaintRightChild(s2, wctx, w1, w.id, p, rp, Black);
    var s3 := Painted(s2, w.right.id, Black);
    var w3 := w1.(right := w1.right.(color := Black));
    Ascend(s3, wctx, w3, w.id, p, rp);
    s' := FocusLeftRotation(s3, ctx.up, Joined(wctx, w3), p, rp);
    assert RotateLeft(Joined(wctx, w3)) == N(ctx.color, N(Black, t, ctx.id, w.left), w.id, Blackened(w.right));
    assert Order(w3) == Order(w);
    SiblingKeepsOrder(ctx, t, w3);
    PaintingKeepsOrder(WithSibling(ctx, w3), t, Black);
    OrderJoined(Repainted(WithSibling(ctx, w3), Black), t);
  }

  /** A red sibling on the left: two assignments and a rotation. */
  lemma RedSiblingRightPointers(s: Linked, ctx: Context, t: Tree, x: Id, rp: Id) returns (s': Linked)
    requires Focus(s, ctx, t, x, rp) && ctx.RightOf? && ctx.left.N?
    ensures
      var w := ctx.left;
      && w.id in s.mem && ctx.id in s.mem
      && var s2 := Painted(Painted(s, w.id, Black), ctx.id, Red);
      && CanRotateRight(s2, ctx.id, ctx.id == s2.root) && s' == RightRotated(s2, ctx.id, ctx.id == s2.root)
      && Focus(s', RightOf(Red, ctx.id, w.right, RightOf(Black, w.id, w.left, ctx.up)), t, x, rp)
      && OrderAt(RightOf(Red, ctx.id, w.right, RightOf(Black, w.id, w.left, ctx.up)), t) == OrderAt(ctx, t)
      && s'.mem.Keys == s.mem.Keys
  {
    var w, p := ctx.left, s.mem[x].parent;
    FocusColor(s, ctx, t, x, rp);
    PaintSibling(s, ctx, t, x, p, rp, Black);
    var s1 := Painted(s, w.id, Black);
    var ctx1 := WithSibling(ctx, w.(color := Black));
    PaintParent(s1, ctx1, t, x, p, rp, Red);
    var s2 := Painted(s1, p, Red);
    var ctx2 := Repainted(ctx1, Red);
    Ascend(s2, ctx2, t, x, p, rp);
    s' := FocusRightRotation(s2, ctx.up, Joined(ctx2, t), p, rp);
    DescendRight(s', ctx.up, RotateRight(Joined(ctx2, t)), w.id, s'.mem[w.id].parent, rp);
    DescendRight(s', RightOf(Black, w.id, w.left, ctx.up), N(Red, w.right, ctx.id, t), p, w.id, rp);
    Refocus(s', RightOf(Red, ctx.id, w.right, RightOf(Black, w.id, w.left, ctx.up)), t, s'.mem[p].right, p, rp, x);
    SiblingKeepsOrder(ctx, t, w.(color := Black));
    PaintingKeepsOrder(ctx1, t, Red);
  }

  /** The near child of the sibling is red: two assignments and a rotation at the sibling. */
  lemma NearRedRightPointers(s: Linked, ctx: Context, t: Tree, x: Id, rp: Id) returns (s': Linked)
    requires Focus(s, ctx, t, x, rp) && ctx.RightOf? && ctx.left.N? && ctx.left.right.N?
    ensures
      var w := ctx.left;
      && w.id in s.mem && w.right.id in s.mem
      && var s2 := Painted(Painted(s, w.right.id, Black), w.id, Red);
      && CanRotateLeft(s2, w.id, w.id == s2.root) && s' == LeftRotated(s2, w.id, w.id == s2.root)
      && Focus(s', WithSibling(ctx, N(Black, N(Red, w.left, w.id, w.right.left), w.right.id, w.right.right)), t, x, rp)
      && OrderAt(WithSibling(ctx, N(Black, N(Red, w.left, w.id, w.right.left), w.right.id, w.right.right)), t) == OrderAt(ctx, t)
      && s'.mem.Keys == s.mem.Keys
  {
    var w, p := ctx.left, s.mem[x].parent;
    FocusColor(s, ctx, t, x, rp);
    Ascend(s, ctx, t, x, p, rp);
    DescendLeft(s, ctx.up, Joined(ctx, t), p, s.mem[p].parent, rp);
    var wctx := LeftOf(ctx.color, ctx.id, t, ctx.up);
    PaintRightChild(s, wctx, w, w.id, p, rp, Black);
    var s1 := Painted(s, w.right.id, Black);
    var w1 := w.(right := w.right.(color := Black));
    PaintHere(s1, wctx, w1, w.id, p, rp, Red);
    var s2 := Painted(s1, w.id, Red);
    var w2 := w1.(color := Red);
    s' := FocusLeftRotation(s2, wctx, w2, w.id, rp);
    var turned := N(Black, N(Red, w.left, w.id, w.right.left), w.right.id, w.right.right);
    assert turned == RotateLeft(w2);
    Ascend(s', wctx, turned, turned.id, s'.mem[turned.id].parent, rp);
    DescendRight(s', ctx.up, Joined(wctx, turned), p, s'.mem[p].parent, rp);
    Refocus(s', WithSibling(ctx, turned), t, s'.mem[p].right, p, rp, x);
    assert Order(w2) == Order(w1) == Order(w);
    SiblingKeepsOrder(ctx, t, turned);
  }

  /** The far child of the sibling is red: three assignments and a rotation at the parent. */
  lemma FarRedRightPointers(s: Linked, ctx: Context, t: Tree, x: Id, rp: Id) returns (s': Linked)
    requires Focus(s, ctx, t, x, rp) && ctx.RightOf? && ctx.left.N? && ctx.left.left.N?
    ensures
      var w := ctx.left;
      var whole := N(ctx.color, Blackened(w.left), w.id, N(Black, w.right, ctx.id, t));
      && w.id in s.mem && ctx.id in s.mem && w.left.id in s.mem
      && var s3 := Painted(Painted(Painted(s, w.id, ctx.color), ctx.id, Black), w.left.id, Black);
      && CanRotateRight(s3, ctx.id, ctx.id == s3.root) && s' == RightRotated(s3, ctx.id, ctx.id == s3.root)
      && Focus(s', ctx.up, whole, w.id, rp)
      && OrderAt(ctx.up, whole) == OrderAt(ctx, t)
      && s'.mem.Keys == s.mem.Keys
  {
    var w, p := ctx.left, s.mem[x].parent;
    FocusColor(s, ctx, t, x, rp);
    PaintSibling(s, ctx, t, x, p, rp, ctx.color);
    var s1 := Painted(s, w.id, ctx.color);
    var w1 := w.(color := ctx.color);
    var ctx1 := WithSibling(ctx, w1);
    PaintParent(s1, ctx1, t, x, p, rp, Black);
    var s2 := Painted(s1, p, Black);
    var ctx2 := Repainted(ctx1, Black);
    Ascend(s2, ctx2, t, x, p, rp);
    var q := s2.mem[p].parent;
    DescendLeft(s2, ctx.up, Joined(ctx2, t), p, q, rp);
    var wctx := LeftOf(Black, ctx.id, t, ctx.up);
    PaintLeftChild(s2, wctx, w1, w.id, p, rp, Black);
    var s3 := Painted(s2, w.left.id, Black);
    var w3 := w1.(left := w1.left.(color := Black));
    Ascend(s3, wctx, w3, w.id, p, rp);
    s' := FocusRightRotation(s3, ctx.up, Joined(wctx, w3), p, rp);
    assert RotateRight(Joined(wctx, w3)) == N(ctx.color, Blackened(w.left), w.id, N(Black, w.right, ctx.id, t));
    assert Order(w3) == Order(w);
    SiblingKeepsOrder(ctx, t, w3);
    PaintingKeepsOrder(WithSibling(ctx, w3), t, Black);
    OrderJoined(Repainted(WithSibling(ctx, w3), Black), t);
  }

  lemma RootFocus(s: Linked, t: Tree, rp: Id)
    requires At(s, Top, t, s.root, rp, rp) && t.N?
    ensures Focus(s, Top, t, s.root, rp)
  {
  }

  lemma OrderAtTop(t: Tree)
    ensures OrderAt(Top, t) == Order(t)
  {
  }

  /** A subtree that fits its context settles the whole tree. */
  lemma BackToRoot(s: Linked, ctx: Context, t: Tree, x: Id, rp: Id, n: nat) returns (whole: Tree, m: nat)
    requires Focus(s, ctx, t, x, rp) && t.N?
    requires Balanced(t, n) && BalancedAround(ctx, n) && NoRedRed(t) && NoRedRedAround(ctx)
    requires ColorOf(t) == Red ==> ctx.Top? || ctx.color == Black
    ensures Focus(s, Top, whole, s.root, rp) && Short(Top, whole, m)
    ensures OrderAt(Top, whole) == OrderAt(ctx, t)
  {
    whole := Plug(ctx, t);
    m := ShortAtTop(ctx, t, n);
    Whole(s, ctx, t, x, s.mem[x].parent, rp);
    IdsPlug(ctx, t);
    OrderAtTop(whole);
    RootFocus(s, whole, rp);
  }

  // ---------------------------------------------------------------- taking a node out

  lemma {:induction false} AppendAround(m: Mem, inner: Context, outer: Context, x: Id, p: Id, y: Id, q: Id, root: Id, rp: Id)
    requires RepAround(m, inner, x, p, y, q) && RepAround(m, outer, y, q, root, rp)
    ensures RepAround(m, Append(inner, outer), x, p, root, rp)
  {
    match inner
    case Top =>
    case LeftOf(_, k, _, up) => AppendAround(m, up, outer, k, m[k].parent, y, q, root, rp);
    case RightOf(_, k, _, up) => AppendAround(m, up, outer, k, m[k].parent, y, q, root, rp);
  }

  /** Giving the topmost node of a path another parent. */
  lemma {:induction false} TopReparent(m: Mem, ctx: Context, x: Id, p: Id, y: Id, q: Id, q': Id)
    requires !ctx.Top? && RepAround(m, ctx, x, p, y, q) && DistinctAround(ctx)
    ensures y in m && RepAround(SetParent(m, y, q'), ctx, x, p, y, q')
  {
    AroundIds(m, ctx, x, p, y, q);
    var m' := SetParent(m, y, q');
    if ctx.up.Top? {
      FrameRep(m, m', Sibling(ctx), if ctx.LeftOf? then m[p].right else m[p].left, p);
    } else {
      TopReparent(m, ctx.up, p, m[p].parent, y, q, q');
      AroundIds(m, ctx.up, p, m[p].parent, y, q);
      FrameRep(m, m', Sibling(ctx), if ctx.LeftOf? then m[p].right else m[p].left, p);
    }
  }

  /** Let the parent of subst point at temp instead. */
  function Bypassed(m: Mem, subst: Id, temp: Id): (m': Mem)
    requires subst in m && m[subst].parent in m
    ensures m'.Keys == m.Keys
  {
    var p := m[subst].parent;
    if subst == m[p].left then SetLeft(m, p, temp) else SetRight(m, p, temp)
  }

  /** The links of a node stay inside the arena. */
  predicate Closed(m: Mem, x: Id) {
    x in m && (m[x].left == NIL || m[x].left in m) && (m[x].right == NIL || m[x].right in m)
  }

  /** Bypass subst, and let the node that moves up know its parent. */
  function Detached(m: Mem, node: Id, subst: Id, temp: Id): (m': Mem)
    requires subst in m && m[subst].parent in m && temp in m && Closed(m, node)
    ensures m'.Keys == m.Keys && Closed(m', node)
  {
    var m1 := Bypassed(m, subst, temp);
    SetParent(m1, temp, if m1[subst].parent == node then subst else m1[subst].parent)
  }

  /** subst takes over the links and the colour of node, and its place below the parent. */
  function Promoted(s: Linked, node: Id, subst: Id): (s': Linked)
    requires subst in s.mem && node in s.mem
    requires node != s.root ==> s.mem[node].parent in s.mem
    ensures s'.mem.Keys == s.mem.Keys
  {
    var m := s.mem[subst := s.mem[node]];
    ReplaceChild(Linked(m, s.root), node, subst, m[subst].parent, node == s.root)
  }

  /** The children of subst learn their new parent. */
  function Adopted(m: Mem, subst: Id): (m': Mem)
    requires Closed(m, subst)
    ensures m'.Keys == m.Keys
  {
    var l := m[subst].left;
    var m1 := if l != NIL then SetParent(m, l, subst) else m;
    var r := m1[subst].right;
    if r != NIL && r in m1 then SetParent(m1, r, subst) else m1
  }

  /** A node with two children, and the leftmost node of its right subtree. */
  ghost predicate Doomed(s: Linked, ctx: Context, t: Tree, node: Id, rp: Id, inner: Context, last: Tree) {
    && Focus(s, ctx, t, node, rp) && t.N? && t.left.N?
    && last.N? && last.left.E? && LeftSpine(inner) && t.right == Plug(inner, last)
  }

  /** Everything the deletion of such a node rests on: who hangs where, and that the pieces have
      no node in common. */
  ghost predicate Dissected(s: Linked, ctx: Context, t: Tree, node: Id, rp: Id, inner: Context, last: Tree,
                            p: Id, lp: Id, ptr: Id, ps: Id, temp: Id)
    requires t.N? && last.N?
  {
    && Hung(s, ctx, t, node, rp, inner, last, p, lp, ptr, ps, temp)
    && PiecesApart(s, ctx, t, node, inner, last)
  }

  ghost predicate Hung(s: Linked, ctx: Context, t: Tree, node: Id, rp: Id, inner: Context, last: Tree,
                       p: Id, lp: Id, ptr: Id, ps: Id, temp: Id)
    requires t.N? && last.N?
  {
    && node in s.mem && last.id in s.mem && node != NIL && last.id != NIL
    && s.mem[node] == Node(lp, ptr, p, t.color) && s.mem[last.id] == Node(NIL, temp, ps, last.color)
    && lp != NIL && ptr != NIL && lp in s.mem && ptr in s.mem && temp in s.mem && ps in s.mem
    && Rep(s.mem, t.left, lp, node) && Rep(s.mem, last.right, temp, last.id)
    && RepAround(s.mem, inner, last.id, ps, ptr, node)
    && RepAround(s.mem, ctx, node, p, s.root, rp)
    && (if inner.Top? then ps == node && ptr == last.id
        else ps in IdsAround(inner) && ptr in IdsAround(inner) && s.mem[ps].left == last.id)
    && (if ctx.Top? then node == s.root && p == rp
        else node != s.root && p in IdsAround(ctx) && OneChildLink(s.mem, node, p))
    && lp in Ids(t.left) && (temp == NIL <==> last.right.E?) && (last.right.N? ==> temp in Ids(last.right))
  }

  ghost predicate PiecesApart(s: Linked, ctx: Context, t: Tree, node: Id, inner: Context, last: Tree)
    requires t.N? && last.N?
  {
    var pieces := Ids(t.left) + Ids(last.right) + IdsAround(inner) + IdsAround(ctx);
    && NIL !in pieces && pieces <= s.mem.Keys
    && node !in pieces && last.id !in pieces && node != last.id
    && Disjoint4(Ids(t.left), Ids(last.right), IdsAround(inner), IdsAround(ctx))
    && Distinct(t.left) && Distinct(last.right) && DistinctAround(inner) && DistinctAround(ctx)
  }

  lemma DoomedFacts(s: Linked, ctx: Context, t: Tree, node: Id, rp: Id, inner: Context, last: Tree)
    returns (p: Id, lp: Id, ptr: Id, ps: Id, temp: Id)
    requires Doomed(s, ctx, t, node, rp, inner, last)
    ensures Dissected(s, ctx, t, node, rp, inner, last, p, lp, ptr, ps, temp)
  {
    p, lp, ptr := s.mem[node].parent, s.mem[node].left, s.mem[node].right;
    var y, q := UnplugRep(s.mem, inner, last, ptr, node);
    ps, temp := q, s.mem[last.id].right;
    RepIds(s.mem, t, node, p);
    RepIds(s.mem, t.left, lp, node);
    RepIds(s.mem, t.right, ptr, node);
    RepIds(s.mem, last.right, temp, last.id);
    AroundIds(s.mem, ctx, node, p, s.root, rp);
    AroundIds(s.mem, inner, last.id, ps, ptr, node);
    TopIffRoot(s, ctx, t, node, p, rp);
    ReplaceChildAround(s, ctx, node, node, p, rp);
    IdsPlug(inner, last);
    DistinctPlug(inner, last);
  }

  ghost predicate Disjoint4(a: set<Id>, b: set<Id>, c: set<Id>, d: set<Id>) {
    a !! b && a !! c && a !! d && b !! c && b !! d && c !! d
  }

  /** The loose pieces while a node is being taken out: its left subtree l below `owner`, the
      subtree r that moves up below q, the path between them, and the context, whose hole is x. */
  ghost predicate Parts(s: Linked, ctx: Context, x: Id, p: Id, rp: Id, l: Tree, lp: Id, owner: Id,
                        r: Tree, temp: Id, q: Id, inner: Context, ptr: Id) {
    && Rep(s.mem, l, lp, owner) && Rep(s.mem, r, temp, q)
    && (!inner.Top? ==> RepAround(s.mem, inner, temp, q, ptr, owner))
    && RepAround(s.mem, ctx, x, p, s.root, rp)
    && temp in s.mem && s.mem[temp].parent == q
  }

  lemma DetachParts(s: Linked, ctx: Context, t: Tree, node: Id, rp: Id, inner: Context, last: Tree)
    requires Doomed(s, ctx, t, node, rp, inner, last)
    ensures node in s.mem && last.id in s.mem
    ensures
      var subst, temp := last.id, s.mem[last.id].right;
      && temp in s.mem && s.mem[subst].parent in s.mem && Closed(s.mem, node)
      && var m := Detached(s.mem, node, subst, temp);
      var q := if inner.Top? then subst else s.mem[subst].parent;
      var ptr := if inner.Top? then temp else s.mem[node].right;
      && m[node] == s.mem[node].(right := ptr)
      && Parts(Linked(m, s.root), ctx, node, s.mem[node].parent, rp, t.left, s.mem[node].left, node,
               last.right, temp, q, inner, ptr)
      && (m[NIL].color == Black)
  {
    var p, lp, ptr, ps, temp := DoomedFacts(s, ctx, t, node, rp, inner, last);
    var subst := last.id;
    var m1 := Bypassed(s.mem, subst, temp);
    var q := if inner.Top? then subst else ps;
    var m := Detached(s.mem, node, subst, temp);
    assert m == SetParent(m1, temp, q);
    FrameRep(s.mem, m, t.left, lp, node);
    FrameAround(s.mem, m, ctx, node, p, s.root, rp);
    FrameRep(s.mem, m1, last.right, temp, subst);
    if last.right.N? {
      Reparent(m1, last.right, temp, subst, q);
    }
    if !inner.Top? {
      SetHoleAround(s.mem, inner, subst, temp, ps, ptr, node);
      assert m1 == SetHole(s.mem, inner, temp);
      FrameAround(m1, m, inner, temp, ps, ptr, node);
    }
  }

  lemma PromoteParts(s: Linked, ctx: Context, p: Id, rp: Id, l: Tree, lp: Id, node: Id,
                     r: Tree, temp: Id, q: Id, inner: Context, ptr: Id, subst: Id)
    requires Parts(s, ctx, node, p, rp, l, lp, node, r, temp, q, inner, ptr)
    requires DistinctAround(ctx) && node !in IdsAround(ctx) && node != NIL
    requires node in s.mem && subst in s.mem && s.mem[node].parent == p
    requires subst !in Ids(l) + Ids(r) + IdsAround(inner) + IdsAround(ctx) + {temp, node}
    requires Disjoint4(Ids(l), Ids(r), IdsAround(inner), IdsAround(ctx))
    requires temp !in IdsAround(ctx)
    ensures node != s.root ==> s.mem[node].parent in s.mem
    ensures
      var s' := Promoted(s, node, subst);
      && Parts(s', ctx, subst, p, rp, l, lp, node, r, temp, q, inner, ptr)
      && s'.mem[subst] == s.mem[node] && SameOn(s.mem, s'.mem, s.mem.Keys - IdsAround(ctx) - {subst})
      && (NIL in s.mem && subst != NIL ==> s'.mem[NIL] == s.mem[NIL])
  {
    AroundIds(s.mem, ctx, node, p, s.root, rp);
    assert node == s.root <==> ctx.Top?;
    var m1 := s.mem[subst := s.mem[node]];
    FrameAround(s.mem, m1, ctx, node, p, s.root, rp);
    ReplaceChildAround(Linked(m1, s.root), ctx, node, subst, p, rp);
    var s' := Promoted(s, node, subst);
    FrameRep(s.mem, s'.mem, l, lp, node);
    FrameRep(s.mem, s'.mem, r, temp, q);
    if !inner.Top? {
      FrameAround(s.mem, s'.mem, inner, temp, q, ptr, node);
    }
  }

  lemma AdoptParts(s: Linked, ctx: Context, p: Id, rp: Id, l: Tree, lp: Id, node: Id, c: Color,
                   r: Tree, temp: Id, q: Id, inner: Context, ptr: Id, subst: Id)
    requires Parts(s, ctx, subst, p, rp, l, lp, node, r, temp, q, inner, ptr)
    requires NIL in s.mem && subst in s.mem && subst != NIL && s.mem[subst] == Node(lp, ptr, p, c)
    requires l.N? && lp in Ids(l) && Distinct(l) && Distinct(r) && DistinctAround(inner) && DistinctAround(ctx)
    requires NIL !in Ids(l) + Ids(r) + IdsAround(inner) + IdsAround(ctx)
    requires subst !in Ids(l) + Ids(r) + IdsAround(inner) + IdsAround(ctx) + {temp}
    requires Disjoint4(Ids(l), Ids(r), IdsAround(inner), IdsAround(ctx))
    requires inner.Top? ==> ptr == temp && q == subst
    requires temp == NIL <==> r.E?
    ensures Closed(s.mem, subst)
    ensures
      var s' := Linked(Adopted(s.mem, subst), s.root);
      var outer := RightOf(c, subst, l, ctx);
      && Rep(s'.mem, r, temp, q) && RepAround(s'.mem, Append(inner, outer), temp, q, s'.root, rp)
      && temp in s'.mem && s'.mem[temp].parent == q && s'.mem[NIL] == s.mem[NIL]
  {
    var outer := RightOf(c, subst, l, ctx);
    RepIds(s.mem, l, lp, node);
    RepIds(s.mem, r, temp, q);
    if !inner.Top? {
      AroundIds(s.mem, inner, temp, q, ptr, node);
    }
    var m := Adopted(s.mem, subst);
    Reparent(s.mem, l, lp, node, subst);
    FrameRep(SetParent(s.mem, lp, subst), m, l, lp, subst);
    FrameAround(s.mem, m, ctx, subst, p, s.root, rp);
    if inner.Top? {
      if r.N? {
        Reparent(s.mem, r, temp, q, subst);
        FrameRep(SetParent(s.mem, temp, subst), m, r, temp, subst);
      }
      assert RepAround(m, outer, temp, subst, s.root, rp);
    } else {
      FrameRep(s.mem, m, r, temp, q);
      TopReparent(s.mem, inner, temp, q, ptr, node, subst);
      FrameAround(SetParent(s.mem, ptr, subst), m, inner, temp, q, ptr, subst);
      assert RepAround(m, outer, ptr, subst, s.root, rp);
      AppendAround(m, inner, outer, temp, q, ptr, subst, s.root, rp);
    }
  }

  /** All assignments that replace `node` by the leftmost node of its right subtree. */
  lemma Transplant(s: Linked, ctx: Context, t: Tree, node: Id, rp: Id, inner: Context, last: Tree)
    returns (s1: Linked, s2: Linked, s3: Linked)
    requires Doomed(s, ctx, t, node, rp, inner, last)
    ensures node in s.mem && last.id in s.mem && node != last.id
    ensures
      var subst, temp := last.id, s.mem[last.id].right;
      && temp in s.mem && s.mem[subst].parent in s.mem && Closed(s.mem, node)
      && s1 == Linked(Detached(s.mem, node, subst, temp), s.root)
      && node in s1.mem && (node != s1.root ==> s1.mem[node].parent in s1.mem)
      && s2 == Promoted(s1, node, subst) && Closed(s2.mem, subst)
      && s3 == Linked(Adopted(s2.mem, subst), s2.root)
      && s3.mem.Keys == s.mem.Keys
      && Focus(s3, Append(inner, RightOf(t.color, subst, t.left, ctx)), last.right, temp, rp)
  {
    var p, lp, ptr, ps, temp := DoomedFacts(s, ctx, t, node, rp, inner, last);
    var subst := last.id;
    DetachParts(s, ctx, t, node, rp, inner, last);
    s1 := Linked(Detached(s.mem, node, subst, temp), s.root);
    var q := if inner.Top? then subst else ps;
    var ptr' := if inner.Top? then temp else ptr;
    PromoteParts(s1, ctx, p, rp, t.left, lp, node, last.right, temp, q, inner, ptr', subst);
    s2 := Promoted(s1, node, subst);
    AdoptParts(s2, ctx, p, rp, t.left, lp, node, t.color, last.right, temp, q, inner, ptr', subst);
    s3 := Linked(Adopted(s2.mem, subst), s2.root);
    SubstApart(s, ctx, t, node, inner, last);
  }

  lemma SubstApart(s: Linked, ctx: Context, t: Tree, node: Id, inner: Context, last: Tree)
    requires t.N? && last.N? && PiecesApart(s, ctx, t, node, inner, last)
    ensures Apart(Append(inner, RightOf(t.color, last.id, t.left, ctx)), last.right)
  {
    var outer := RightOf(t.color, last.id, t.left, ctx);
    IdsAppend(inner, outer);
    DistinctAppend(inner, outer);
  }

  lemma AdoptChild(m: Mem, child: Tree, x: Id, p: Id, q: Id)
    requires Rep(m, child, x, p) && Distinct(child) && x in m
    ensures Rep(SetParent(m, x, q), child, x, q)
  {
    if child.N? {
      Reparent(m, child, x, p, q);
    }
  }

  /** Where a node with at most one child hangs, and the child. */
  lemma OnlyChild(s: Linked, ctx: Context, t: Tree, node: Id, rp: Id, child: Tree, temp: Id)
    requires Focus(s, ctx, t, node, rp) && t.N? && !ctx.Top?
    requires (t.left.E? && child == t.right && temp == s.mem[node].right)
          || (t.right.E? && child == t.left && temp == s.mem[node].left)
    ensures
      var p := s.mem[node].parent;
      && p in s.mem && p == ctx.id && temp in s.mem && node == t.id
      && (node == s.mem[p].left <==> ctx.LeftOf?)
      && Rep(s.mem, child, temp, node) && Apart(ctx, child) && node !in Ids(child) + IdsAround(ctx)
  {
    var p := s.mem[node].parent;
    Ascend(s, ctx, t, node, p, rp);
    DescendLeft(s, ctx, t, node, p, rp);
    DescendRight(s, ctx, t, node, p, rp);
  }

  /** The assignments that bypass a node with at most one child. */
  lemma BypassSelf(s: Linked, ctx: Context, t: Tree, node: Id, rp: Id, child: Tree, temp: Id)
    requires Focus(s, ctx, t, node, rp) && t.N? && !ctx.Top?
    requires (t.left.E? && child == t.right && temp == s.mem[node].right)
          || (t.right.E? && child == t.left && temp == s.mem[node].left)
    ensures s.mem[node].parent in s.mem && temp in s.mem
    ensures
      var m := SetParent(Bypassed(s.mem, node, temp), temp, s.mem[node].parent);
      Focus(Linked(m, s.root), ctx, child, temp, rp) && m.Keys == s.mem.Keys
  {
    var p := s.mem[node].parent;
    OnlyChild(s, ctx, t, node, rp, child, temp);
    AroundIds(s.mem, ctx, node, p, s.root, rp);
    RepIds(s.mem, child, temp, node);
    SetHoleAround(s.mem, ctx, node, temp, p, s.root, rp);
    var m1 := Bypassed(s.mem, node, temp);
    var m := SetParent(m1, temp, p);
    FrameRep(s.mem, m1, child, temp, node);
    AdoptChild(m1, child, temp, node, p);
    FrameAround(m1, m, ctx, temp, p, s.root, rp);
  }

  /** A node outside the tree may be overwritten. */
  lemma ClearOutside(s: Linked, ctx: Context, t: Tree, x: Id, rp: Id, node: Id, v: Node)
    requires Focus(s, ctx, t, x, rp)
    requires node != NIL && node !in Ids(t) && node !in IdsAround(ctx)
    ensures Focus(Linked(s.mem[node := v], s.root), ctx, t, x, rp)
  {
    var p := s.mem[x].parent;
    RepIds(s.mem, t, x, p);
    FrameRep(s.mem, s.mem[node := v], t, x, p);
    FrameAround(s.mem, s.mem[node := v], ctx, x, p, s.root, rp);
  }

  /** The focus on a given node of a tree. */
  lemma FocusOn(s: Linked, whole: Tree, rp: Id, node: Id) returns (ctx: Context, t: Tree)
    requires At(s, Top, whole, s.root, rp, rp) && node in Ids(whole)
    ensures Plug(ctx, t) == whole && t.N? && t.id == node
    ensures Focus(s, ctx, t, node, rp)
    ensures OrderAt(ctx, t) == Order(whole)
  {
    ctx, t := Locate(whole, node);
    var x, p := UnplugRep(s.mem, ctx, t, s.root, rp);
    DistinctPlug(ctx, t);
    OrderPlug(ctx, t);
  }

  /** Painting the end point of the deletion repair gives a red-black tree. */
  lemma RepairEnds(s: Linked, ctx: Context, t: Tree, x: Id, rp: Id, n: nat)
    requires Focus(s, ctx, t, x, rp) && Short(ctx, t, n)
    requires x == s.root || s.mem[x].color == Red
    ensures
      var whole := Plug(ctx, Blackened(t));
      && At(Painted(s, x, Black), Top, whole, s.root, rp, rp) && RedBlack(whole)
      && Order(whole) == OrderAt(ctx, t) && Ids(whole) == IdsAround(ctx) + Ids(t)
  {
    FocusColor(s, ctx, t, x, rp);
    var p := s.mem[x].parent;
    if t.N? {
      PaintHere(s, ctx, t, x, p, rp, Black);
    } else {
      assert SetColor(s.mem, x, Black) == s.mem;
    }
    DeletionEnds(ctx, t, n);
    assert Order(Blackened(t)) == Order(t) && Ids(Blackened(t)) == Ids(t);
    IdsPlug(ctx, Blackened(t));
    Whole(Painted(s, x, Black), ctx, Blackened(t), x, p, rp);
  }

  lemma SubstIsNotRoot(s: Linked, ctx: Context, t: Tree, node: Id, rp: Id, inner: Context, last: Tree)
    requires Doomed(s, ctx, t, node, rp, inner, last)
    ensures last.id != node && last.id != s.root
  {
    var p, lp, ptr, ps, temp := DoomedFacts(s, ctx, t, node, rp, inner, last);
    AroundIds(s.mem, ctx, node, p, s.root, rp);
  }
}
