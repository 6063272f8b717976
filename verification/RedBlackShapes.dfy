/** Red-black trees as shapes: which node sits where and in which colour, without pointers.
    A tree is taken apart into a subtree and the context around it, which is how the fixup
    loops walk. */
module RedBlackShapes {

  type Id = int

  datatype Color = Red | Black
  datatype Tree = E | N(color: Color, left: Tree, id: Id, right: Tree)

  /** The path from a hole up to the root: the hole is a left or a right child. */
  datatype Context =
    | Top
    | LeftOf(color: Color, id: Id, right: Tree, up: Context)
    | RightOf(color: Color, id: Id, left: Tree, up: Context)

  function Plug(ctx: Context, t: Tree): Tree {
    match ctx
    case Top => t
    case LeftOf(c, k, r, up) => Plug(up, N(c, t, k, r))
    case RightOf(c, k, l, up) => Plug(up, N(c, l, k, t))
  }

  function Append(inner: Context, outer: Context): Context {
    match inner
    case Top => outer
    case LeftOf(c, k, r, up) => LeftOf(c, k, r, Append(up, outer))
    case RightOf(c, k, l, up) => RightOf(c, k, l, Append(up, outer))
  }

  function Ids(t: Tree): set<Id> {
    match t
    case E => {}
    case N(_, l, k, r) => Ids(l) + {k} + Ids(r)
  }

  function IdsAround(ctx: Context): set<Id> {
    match ctx
    case Top => {}
    case LeftOf(_, k, r, up) => {k} + Ids(r) + IdsAround(up)
    case RightOf(_, k, l, up) => {k} + Ids(l) + IdsAround(up)
  }

  predicate Distinct(t: Tree) {
    match t
    case E => true
    case N(_, l, k, r) =>
      && Distinct(l) && Distinct(r)
      && k !in Ids(l) && k !in Ids(r) && Ids(l) !! Ids(r)
  }

  predicate DistinctAround(ctx: Context) {
    match ctx
    case Top => true
    case LeftOf(_, k, r, up) =>
      && Distinct(r) && DistinctAround(up)
      && k !in Ids(r) && k !in IdsAround(up) && Ids(r) !! IdsAround(up)
    case RightOf(_, k, l, up) =>
      && Distinct(l) && DistinctAround(up)
      && k !in Ids(l) && k !in IdsAround(up) && Ids(l) !! IdsAround(up)
  }

  /** A subtree and a context with no node in common. */
  predicate Apart(ctx: Context, t: Tree) {
    Distinct(t) && DistinctAround(ctx) && Ids(t) !! IdsAround(ctx)
  }

  function Order(t: Tree): seq<Id> {
    match t
    case E => []
    case N(_, l, k, r) => Order(l) + [k] + Order(r)
  }

  function OrderBefore(ctx: Context): seq<Id> {
    match ctx
    case Top => []
    case LeftOf(_, _, _, up) => OrderBefore(up)
    case RightOf(_, k, l, up) => OrderBefore(up) + Order(l) + [k]
  }

  function OrderAfter(ctx: Context): seq<Id> {
    match ctx
    case Top => []
    case LeftOf(_, k, r, up) => [k] + Order(r) + OrderAfter(up)
    case RightOf(_, _, _, up) => OrderAfter(up)
  }

  function ColorOf(t: Tree): Color {
    if t.E? then Black else t.color
  }

  function Weight(c: Color): nat {
    if c == Black then 1 else 0
  }

  /** Every path down to a leaf passes n black nodes. */
  predicate Balanced(t: Tree, n: nat) {
    match t
    case E => n == 0
    case N(c, l, _, r) => n >= Weight(c) && Balanced(l, n - Weight(c)) && Balanced(r, n - Weight(c))
  }

  predicate NoRedRed(t: Tree) {
    match t
    case E => true
    case N(c, l, _, r) =>
      && NoRedRed(l) && NoRedRed(r)
      && (c == Red ==> ColorOf(l) == Black && ColorOf(r) == Black)
  }

  /** No red node has a red child, except that the root itself may. */
  predicate NoRedRedBelow(t: Tree) {
    t.N? ==> NoRedRed(t.left) && NoRedRed(t.right)
  }

  /** The context expects a subtree of black height n. */
  predicate BalancedAround(ctx: Context, n: nat) {
    match ctx
    case Top => true
    case LeftOf(c, _, r, up) => Balanced(r, n) && BalancedAround(up, n + Weight(c))
    case RightOf(c, _, l, up) => Balanced(l, n) && BalancedAround(up, n + Weight(c))
  }

  predicate HasBlackParent(up: Context) {
    !up.Top? && up.color == Black
  }

  /** The nodes of the context have no red-red edge among them, and its root is black. */
  predicate NoRedRedAround(ctx: Context) {
    match ctx
    case Top => true
    case LeftOf(c, _, r, up) =>
      NoRedRed(r) && NoRedRedAround(up) && (c == Red ==> ColorOf(r) == Black && HasBlackParent(up))
    case RightOf(c, _, l, up) =>
      NoRedRed(l) && NoRedRedAround(up) && (c == Red ==> ColorOf(l) == Black && HasBlackParent(up))
  }

  /** A red-black tree: black root, no red-red edge, equal black height. */
  ghost predicate RedBlack(t: Tree) {
    ColorOf(t) == Black && NoRedRed(t) && exists n: nat :: Balanced(t, n)
  }

  function Blackened(t: Tree): Tree {
    if t.E? then E else t.(color := Black)
  }

  // ---------------------------------------------------------------- contexts

  lemma Regroup(a: seq<Id>, b: seq<Id>, c: seq<Id>, d: seq<Id>, e: seq<Id>)
    ensures a + (b + c + d) + e == (a + b + c) + d + e
    ensures a + (b + c + d) + e == a + b + (c + d + e)
  {
  }

  lemma {:induction false} OrderPlug(ctx: Context, t: Tree)
    ensures Order(Plug(ctx, t)) == OrderBefore(ctx) + Order(t) + OrderAfter(ctx)
  {
    match ctx
    case Top =>
    case LeftOf(c, k, r, up) =>
      OrderPlug(up, N(c, t, k, r));
      Regroup(OrderBefore(up), Order(t), [k], Order(r), OrderAfter(up));
    case RightOf(c, k, l, up) =>
      OrderPlug(up, N(c, l, k, t));
      Regroup(OrderBefore(up), Order(l), [k], Order(t), OrderAfter(up));
  }

  lemma IdsPlug(ctx: Context, t: Tree)
    ensures Ids(Plug(ctx, t)) == IdsAround(ctx) + Ids(t)
  {
  }

  lemma {:induction false} DistinctPlug(ctx: Context, t: Tree)
    ensures Distinct(Plug(ctx, t)) <==> Apart(ctx, t)
  {
    match ctx
    case Top =>
    case LeftOf(c, k, r, up) => DistinctPlug(up, N(c, t, k, r));
    case RightOf(c, k, l, up) => DistinctPlug(up, N(c, l, k, t));
  }

  lemma PlugAppend(inner: Context, outer: Context, t: Tree)
    ensures Plug(Append(inner, outer), t) == Plug(outer, Plug(inner, t))
  {
  }

  lemma IdsAppend(inner: Context, outer: Context)
    ensures IdsAround(Append(inner, outer)) == IdsAround(inner) + IdsAround(outer)
  {
  }

  /** Filling the hole with what the context expects gives a balanced tree. */
  lemma {:induction false} BalancedPlug(ctx: Context, t: Tree, n: nat) returns (m: nat)
    requires Balanced(t, n) && BalancedAround(ctx, n)
    ensures Balanced(Plug(ctx, t), m)
  {
    match ctx
    case Top => m := n;
    case LeftOf(c, k, r, up) => m := BalancedPlug(up, N(c, t, k, r), n + Weight(c));
    case RightOf(c, k, l, up) => m := BalancedPlug(up, N(c, l, k, t), n + Weight(c));
  }

  lemma {:induction false} NoRedRedPlug(ctx: Context, t: Tree)
    requires NoRedRed(t) && NoRedRedAround(ctx)
    requires ColorOf(t) == Red ==> ctx.Top? || ctx.color == Black
    ensures NoRedRed(Plug(ctx, t))
    ensures !ctx.Top? ==> ColorOf(Plug(ctx, t)) == Black
  {
    match ctx
    case Top =>
    case LeftOf(c, k, r, up) => NoRedRedPlug(up, N(c, t, k, r));
    case RightOf(c, k, l, up) => NoRedRedPlug(up, N(c, l, k, t));
  }

  /** Taking a subtree out of a balanced tree leaves a context that expects its height. */
  lemma {:induction false} BalancedUnplug(ctx: Context, t: Tree, m: nat) returns (n: nat)
    requires Balanced(Plug(ctx, t), m)
    ensures Balanced(t, n) && BalancedAround(ctx, n)
  {
    match ctx
    case Top => n := m;
    case LeftOf(c, k, r, up) =>
      var h := BalancedUnplug(up, N(c, t, k, r), m);
      n := h - Weight(c);
    case RightOf(c, k, l, up) =>
      var h := BalancedUnplug(up, N(c, l, k, t), m);
      n := h - Weight(c);
  }

  lemma {:induction false} NoRedRedUnplug(ctx: Context, t: Tree)
    requires NoRedRed(Plug(ctx, t)) && ColorOf(Plug(ctx, t)) == Black
    ensures NoRedRed(t) && NoRedRedAround(ctx)
    ensures ColorOf(t) == Red ==> HasBlackParent(ctx)
  {
    match ctx
    case Top =>
    case LeftOf(c, k, r, up) => NoRedRedUnplug(up, N(c, t, k, r));
    case RightOf(c, k, l, up) => NoRedRedUnplug(up, N(c, l, k, t));
  }

  /** Every node of a tree is the root of some subtree. */
  lemma {:induction false} Locate(t: Tree, x: Id) returns (ctx: Context, sub: Tree)
    requires x in Ids(t)
    ensures Plug(ctx, sub) == t && sub.N? && sub.id == x
  {
    if t.id == x {
      return Top, t;
    }
    var inner: Context;
    if x in Ids(t.left) {
      inner, sub := Locate(t.left, x);
      ctx := Append(inner, LeftOf(t.color, t.id, t.right, Top));
      PlugAppend(inner, LeftOf(t.color, t.id, t.right, Top), sub);
    } else {
      inner, sub := Locate(t.right, x);
      ctx := Append(inner, RightOf(t.color, t.id, t.left, Top));
      PlugAppend(inner, RightOf(t.color, t.id, t.left, Top), sub);
    }
  }

  // ---------------------------------------------------------------- moving the focus

  /** The subtree one step up: the parent with the hole filled. */
  function Joined(ctx: Context, t: Tree): Tree
    requires !ctx.Top?
  {
    match ctx
    case LeftOf(c, k, r, _) => N(c, t, k, r)
    case RightOf(c, k, l, _) => N(c, l, k, t)
  }

  /** The in-order sequence of the whole tree. */
  function OrderAt(ctx: Context, t: Tree): seq<Id> {
    OrderBefore(ctx) + Order(t) + OrderAfter(ctx)
  }

  lemma OrderJoined(ctx: Context, t: Tree)
    requires !ctx.Top?
    ensures OrderAt(ctx.up, Joined(ctx, t)) == OrderAt(ctx, t)
  {
    match ctx
    case LeftOf(c, k, r, up) => Regroup(OrderBefore(up), Order(t), [k], Order(r), OrderAfter(up));
    case RightOf(c, k, l, up) => Regroup(OrderBefore(up), Order(l), [k], Order(t), OrderAfter(up));
  }

  // ---------------------------------------------------------------- insertion

  function Sibling(ctx: Context): Tree
    requires !ctx.Top?
  {
    match ctx
    case LeftOf(_, _, r, _) => r
    case RightOf(_, _, l, _) => l
  }

  function Repainted(ctx: Context, c: Color): Context
    requires !ctx.Top?
  {
    match ctx
    case LeftOf(_, k, r, up) => LeftOf(c, k, r, up)
    case RightOf(_, k, l, up) => RightOf(c, k, l, up)
  }

  function WithSibling(ctx: Context, t: Tree): Context
    requires !ctx.Top?
  {
    match ctx
    case LeftOf(c, k, _, up) => LeftOf(c, k, t, up)
    case RightOf(c, k, _, up) => RightOf(c, k, t, up)
  }

  function Depth(ctx: Context): nat {
    if ctx.Top? then 0 else 1 + Depth(ctx.up)
  }

  /** A red subtree that fits its context except that its parent may be red too. */
  predicate RedAt(ctx: Context, t: Tree, n: nat) {
    && t.N? && t.color == Red && Balanced(t, n) && NoRedRed(t)
    && BalancedAround(ctx, n) && NoRedRedAround(ctx)
  }

  predicate RedParent(ctx: Context) {
    !ctx.Top? && ctx.color == Red
  }

  lemma RedParentHasGrandparent(ctx: Context)
    requires NoRedRedAround(ctx) && RedParent(ctx)
    ensures HasBlackParent(ctx.up)
  {
  }

  lemma Unfold(ctx: Context, n: nat)
    requires !ctx.Top? && BalancedAround(ctx, n) && NoRedRedAround(ctx)
    ensures Balanced(Sibling(ctx), n) && NoRedRed(Sibling(ctx))
    ensures BalancedAround(ctx.up, n + Weight(ctx.color)) && NoRedRedAround(ctx.up)
    ensures ctx.color == Red ==> ColorOf(Sibling(ctx)) == Black && HasBlackParent(ctx.up)
  {
  }

  /** A red uncle: the colours move one level up. */
  lemma RecolorMovesUp(ctx: Context, t: Tree, n: nat)
    requires RedAt(ctx, t, n) && RedParent(ctx)
    requires HasBlackParent(ctx.up) && ColorOf(Sibling(ctx.up)) == Red
    ensures
      var up := WithSibling(Repainted(ctx.up, Red), Blackened(Sibling(ctx.up)));
      RedAt(ctx.up.up, Joined(up, Joined(Repainted(ctx, Black), t)), n + 1)
  {
    Unfold(ctx, n);
    Unfold(ctx.up, n);
  }

  /** A black uncle and a straight path: one rotation ends the repair. */
  lemma StraightRotationRepairs(ctx: Context, t: Tree, n: nat)
    requires RedAt(ctx, t, n) && RedParent(ctx)
    requires HasBlackParent(ctx.up) && ColorOf(Sibling(ctx.up)) == Black
    ensures ctx.LeftOf? ==>
      RedAt(LeftOf(Black, ctx.id, N(Red, ctx.right, ctx.up.id, Sibling(ctx.up)), ctx.up.up), t, n)
    ensures ctx.RightOf? ==>
      RedAt(RightOf(Black, ctx.id, N(Red, Sibling(ctx.up), ctx.up.id, ctx.left), ctx.up.up), t, n)
  {
    Unfold(ctx, n);
    Unfold(ctx.up, n);
  }

  /** A bent path becomes straight: the parent takes the node's place below it. */
  lemma BentRotationStraightens(ctx: Context, t: Tree, n: nat)
    requires RedAt(ctx, t, n) && RedParent(ctx) && HasBlackParent(ctx.up)
    ensures ctx.RightOf? ==>
      RedAt(LeftOf(Red, t.id, t.right, ctx.up), N(Red, ctx.left, ctx.id, t.left), n)
    ensures ctx.LeftOf? ==>
      RedAt(RightOf(Red, t.id, t.left, ctx.up), N(Red, t.right, ctx.id, ctx.right), n)
  {
    Unfold(ctx, n);
  }

  ghost function Elements(order: seq<Id>): set<Id> {
    set x | x in order
  }

  lemma {:induction false} IdsOfOrder(t: Tree)
    ensures Ids(t) == Elements(Order(t))
  {
    if t.N? {
      IdsOfOrder(t.left);
      IdsOfOrder(t.right);
    }
  }

  /** The nodes around and in the focus are those of the order. */
  lemma RestIds(ctx: Context, t: Tree)
    ensures IdsAround(ctx) + Ids(t) == Elements(OrderAt(ctx, t))
  {
    OrderPlug(ctx, t);
    IdsPlug(ctx, t);
    IdsOfOrder(Plug(ctx, t));
  }

  lemma SameOrderSameIds(ctx: Context, t: Tree, ctx': Context, t': Tree)
    requires OrderAt(ctx, t) == OrderAt(ctx', t')
    ensures IdsAround(ctx) + Ids(t) == IdsAround(ctx') + Ids(t')
    ensures Ids(Blackened(Plug(ctx, t))) == IdsAround(ctx') + Ids(t')
  {
    RestIds(ctx, t);
    RestIds(ctx', t');
    IdsPlug(ctx, t);
    assert Ids(Blackened(Plug(ctx, t))) == Ids(Plug(ctx, t));
  }

  /** No node occurs twice in the order. */
  lemma {:induction false} DistinctOrder(t: Tree)
    requires Distinct(t)
    ensures forall i, j :: 0 <= i < j < |Order(t)| ==> Order(t)[i] != Order(t)[j]
  {
    if t.N? {
      DistinctOrder(t.left);
      DistinctOrder(t.right);
      var l, r := Order(t.left), Order(t.right);
      IdsOfOrder(t.left);
      IdsOfOrder(t.right);
      forall i, j | 0 <= i < j < |Order(t)|
        ensures Order(t)[i] != Order(t)[j]
      {
        if i < |l| {
          assert Order(t)[i] in l && l[i] in Ids(t.left);
        }
        if j > |l| {
          assert Order(t)[j] == r[j - |l| - 1];
          assert Order(t)[j] in r && Order(t)[j] in Ids(t.right);
        }
      }
    }
  }

  lemma NodeLeaves(whole: Tree, ctx: Context, t: Tree)
    requires Plug(ctx, t) == whole && t.N? && Distinct(whole)
    ensures t.id !in NodesBefore(ctx, t) + NodesAfter(ctx, t)
  {
    DistinctOrder(whole);
    OrderPlug(ctx, t);
    NodeInOrder(ctx, t);
    var b, a := NodesBefore(ctx, t), NodesAfter(ctx, t);
    assert Order(whole)[|b|] == t.id;
    forall i | 0 <= i < |b + a|
      ensures (b + a)[i] != t.id
    {
      assert (b + a)[i] == Order(whole)[if i < |b| then i else i + 1];
    }
  }

  lemma RemainderIds(whole: Tree, ctx: Context, t: Tree, ctx': Context, t': Tree)
    requires Plug(ctx, t) == whole && t.N? && Distinct(whole)
    requires OrderAt(ctx', t') == NodesBefore(ctx, t) + NodesAfter(ctx, t)
    ensures IdsAround(ctx') + Ids(t') <= Ids(whole) && t.id !in IdsAround(ctx') + Ids(t')
  {
    NodeLeaves(whole, ctx, t);
    RestIds(ctx', t');
    IdsOfOrder(whole);
    OrderPlug(ctx, t);
    NodeInOrder(ctx, t);
  }

  /** A red leaf fits any hole of a red-black tree, but for its parent's colour. */
  lemma LeafFits(ctx: Context, node: Id, whole: Tree)
    requires Plug(ctx, E) == whole && RedBlack(whole)
    ensures RedAt(ctx, N(Red, E, node, E), 0)
    ensures OrderAt(ctx, N(Red, E, node, E)) == OrderBefore(ctx) + [node] + OrderAfter(ctx)
    ensures IdsAround(ctx) == Ids(whole)
  {
    var m: nat :| Balanced(whole, m);
    var n := BalancedUnplug(ctx, E, m);
    NoRedRedUnplug(ctx, E);
    IdsPlug(ctx, E);
    assert Order(N(Red, E, node, E)) == [node];
  }

  lemma HoleSplitsOrder(ctx: Context, order: seq<Id>)
    requires order == Order(Plug(ctx, E))
    ensures |OrderBefore(ctx)| <= |order|
    ensures order[..|OrderBefore(ctx)|] == OrderBefore(ctx)
    ensures order[|OrderBefore(ctx)|..] == OrderAfter(ctx)
  {
    OrderPlug(ctx, E);
  }

  // ---------------------------------------------------------------- deletion

  /** A subtree that is one black node short of what its context expects. */
  predicate Short(ctx: Context, t: Tree, n: nat) {
    && Balanced(t, n) && NoRedRedBelow(t)
    && BalancedAround(ctx, n + 1) && NoRedRedAround(ctx)
  }

  /** The sibling of a short subtree is never the sentinel. */
  lemma ShortHasSibling(ctx: Context, t: Tree, n: nat)
    requires Short(ctx, t, n) && !ctx.Top?
    ensures Sibling(ctx).N?
  {
  }

  /** A black sibling with black children gives up its colour: the shortage moves up. */
  lemma ShortageMovesUp(ctx: Context, t: Tree, n: nat)
    requires Short(ctx, t, n) && !ctx.Top? && ColorOf(t) == Black
    requires
      var w := Sibling(ctx);
      w.N? && w.color == Black && ColorOf(w.left) == Black && ColorOf(w.right) == Black
    ensures
      Short(ctx.up, Joined(WithSibling(ctx, Sibling(ctx).(color := Red)), t), n + Weight(ctx.color))
  {
    Unfold(ctx, n + 1);
    var w := Sibling(ctx).(color := Red);
    assert Balanced(w, n) && NoRedRed(w);
  }

  /** A subtree that fits its context in height, short at the top only. */
  lemma ShortAtTop(ctx: Context, t: Tree, n: nat) returns (m: nat)
    requires Balanced(t, n) && BalancedAround(ctx, n) && NoRedRed(t) && NoRedRedAround(ctx)
    requires ColorOf(t) == Red ==> ctx.Top? || ctx.color == Black
    ensures Short(Top, Plug(ctx, t), m)
  {
    m := BalancedPlug(ctx, t, n);
    NoRedRedPlug(ctx, t);
  }

  /** The repair is over at a red node or at the root: painting it black settles the height. */
  lemma DeletionEnds(ctx: Context, t: Tree, n: nat)
    requires Short(ctx, t, n) && (ctx.Top? || ColorOf(t) == Red)
    ensures RedBlack(Plug(ctx, Blackened(t)))
  {
    var b := Blackened(t);
    if t.E? {
      assert Balanced(E, 0);
    } else if t.color == Red {
      assert Balanced(b, n + 1) && NoRedRed(b);
      var m := BalancedPlug(ctx, b, n + 1);
      NoRedRedPlug(ctx, b);
    }
  }

  predicate LeftSpine(ctx: Context) {
    ctx.Top? || (ctx.LeftOf? && LeftSpine(ctx.up))
  }

  lemma DistinctAppend(inner: Context, outer: Context)
    requires DistinctAround(inner) && DistinctAround(outer) && IdsAround(inner) !! IdsAround(outer)
    ensures DistinctAround(Append(inner, outer))
  {
    if !inner.Top? {
      DistinctAppend(inner.up, outer);
      IdsAppend(inner.up, outer);
    }
  }

  lemma {:induction false} OrderAppend(inner: Context, outer: Context)
    requires LeftSpine(inner)
    ensures OrderBefore(inner) == [] && OrderBefore(Append(inner, outer)) == OrderBefore(outer)
    ensures OrderAfter(Append(inner, outer)) == OrderAfter(inner) + OrderAfter(outer)
  {
    if !inner.Top? {
      OrderAppend(inner.up, outer);
    }
  }

  /** Colours and heights along a path do not depend on which node sits in one of its frames. */
  lemma {:induction false} RenameFrame(inner: Context, c: Color, k: Id, k': Id, l: Tree, up: Context, n: nat)
    ensures BalancedAround(Append(inner, RightOf(c, k, l, up)), n)
        ==> BalancedAround(Append(inner, RightOf(c, k', l, up)), n)
    ensures NoRedRedAround(Append(inner, RightOf(c, k, l, up)))
        ==> NoRedRedAround(Append(inner, RightOf(c, k', l, up)))
    ensures HasBlackParent(Append(inner, RightOf(c, k, l, up)))
        ==> HasBlackParent(Append(inner, RightOf(c, k', l, up)))
  {
    if !inner.Top? {
      RenameFrame(inner.up, c, k, k', l, up, n + Weight(inner.color));
    }
  }

  /** The nodes before and after the focus node. */
  function NodesBefore(ctx: Context, t: Tree): seq<Id>
    requires t.N?
  {
    OrderBefore(ctx) + Order(t.left)
  }

  function NodesAfter(ctx: Context, t: Tree): seq<Id>
    requires t.N?
  {
    Order(t.right) + OrderAfter(ctx)
  }

  lemma SliceAround(order: seq<Id>, before: seq<Id>, x: Id, after: seq<Id>)
    requires order == before + [x] + after
    ensures |before| < |order| && order[|before|] == x
    ensures order[..|before|] == before && order[|before| + 1..] == after
  {
  }

  lemma NodeInOrder(ctx: Context, t: Tree)
    requires t.N?
    ensures OrderAt(ctx, t) == NodesBefore(ctx, t) + [t.id] + NodesAfter(ctx, t)
  {
  }

  lemma OrderWithoutSingle(ctx: Context, t: Tree, child: Tree)
    requires t.N?
    requires (t.left.E? && child == t.right) || (t.right.E? && child == t.left)
    ensures OrderAt(ctx, child) == NodesBefore(ctx, t) + NodesAfter(ctx, t)
  {
  }

  /** Taking a leftmost node out of the right subtree of `node` and putting it in node's place
      removes node from the order. */
  lemma OrderWithout(ctx: Context, t: Tree, inner: Context, last: Tree)
    requires t.N? && last.N? && last.left.E? && LeftSpine(inner) && t.right == Plug(inner, last)
    ensures
      OrderAt(Append(inner, RightOf(t.color, last.id, t.left, ctx)), last.right)
      == NodesBefore(ctx, t) + NodesAfter(ctx, t)
  {
    var outer := RightOf(t.color, last.id, t.left, ctx);
    OrderAppend(inner, outer);
    OrderPlug(inner, last);
    assert Order(last) == [last.id] + Order(last.right) by {
      assert Order(last.left) == [];
    }
    assert Order(t.right) == [last.id] + Order(last.right) + OrderAfter(inner) by {
      assert OrderBefore(inner) == [];
    }
    RegroupSuffix(OrderBefore(ctx) + Order(t.left), [last.id], Order(last.right), OrderAfter(inner), OrderAfter(ctx));
  }

  lemma RegroupSuffix(a: seq<Id>, b: seq<Id>, c: seq<Id>, d: seq<Id>, e: seq<Id>)
    ensures (a + b) + c + (d + e) == a + ((b + c + d) + e)
  {
  }

  /** What is left after bypassing a node with at most one child, in shape. */
  lemma BypassShort(ctx: Context, t: Tree, whole: Tree)
    returns (n: nat)
    requires Plug(ctx, t) == whole && RedBlack(whole) && t.N? && t.left.E?
    ensures Balanced(t.right, n) && BalancedAround(ctx, n + Weight(t.color))
    ensures NoRedRed(t.right) && NoRedRedAround(ctx)
    ensures t.color == Red ==> ColorOf(t.right) == Black && HasBlackParent(ctx)
  {
    var m: nat :| Balanced(whole, m);
    var h := BalancedUnplug(ctx, t, m);
    NoRedRedUnplug(ctx, t);
    n := h - Weight(t.color);
  }

  lemma BypassShortLeft(ctx: Context, t: Tree, whole: Tree)
    returns (n: nat)
    requires Plug(ctx, t) == whole && RedBlack(whole) && t.N? && t.right.E?
    ensures Balanced(t.left, n) && BalancedAround(ctx, n + Weight(t.color))
    ensures NoRedRed(t.left) && NoRedRedAround(ctx)
    ensures t.color == Red ==> ColorOf(t.left) == Black && HasBlackParent(ctx)
  {
    var m: nat :| Balanced(whole, m);
    var h := BalancedUnplug(ctx, t, m);
    NoRedRedUnplug(ctx, t);
    n := h - Weight(t.color);
  }

  /** What is left in the place of a node of colour c that was taken out below the root. */
  predicate Spliced(ctx: Context, t: Tree, n: nat, c: Color) {
    && !ctx.Top? && NoRedRed(t) && NoRedRedAround(ctx)
    && Balanced(t, n) && BalancedAround(ctx, n + Weight(c))
    && (c == Red ==> ColorOf(t) == Black)
  }

  lemma SplicedRedIsRedBlack(ctx: Context, t: Tree, n: nat)
    requires Spliced(ctx, t, n, Red)
    ensures RedBlack(Plug(ctx, t))
  {
    var m := BalancedPlug(ctx, t, n);
    NoRedRedPlug(ctx, t);
  }

  /** Taking the leftmost node of the right subtree instead of its owner. */
  lemma TransplantShort(ctx: Context, t: Tree, whole: Tree, inner: Context, last: Tree)
    returns (n: nat)
    requires Plug(ctx, t) == whole && RedBlack(whole) && t.N?
    requires last.N? && last.left.E? && t.right == Plug(inner, last)
    ensures Spliced(Append(inner, RightOf(t.color, last.id, t.left, ctx)), last.right, n, last.color)
  {
    var path := Append(inner, RightOf(t.color, t.id, t.left, ctx));
    PlugAppend(inner, RightOf(t.color, t.id, t.left, ctx), last);
    n := BypassShort(path, last, whole);
    RenameFrame(inner, t.color, t.id, last.id, t.left, ctx, n + Weight(last.color));
    assert !Append(inner, RightOf(t.color, last.id, t.left, ctx)).Top?;
  }

  /** The root of a two-level tree: its only child becomes the root. */
  lemma OnlyChildIsRedBlack(t: Tree, child: Tree)
    requires RedBlack(t) && t.N?
    requires (t.left.E? && child == t.right) || (t.right.E? && child == t.left)
    ensures RedBlack(Blackened(child))
  {
    var m: nat :| Balanced(t, m);
    assert Balanced(child, m - 1) && NoRedRed(child);
    if child.N? {
      assert Balanced(Blackened(child), m - 1 + (1 - Weight(child.color)));
    } else {
      assert Balanced(E, 0);
    }
  }

  /** A red sibling on the right: rotating turns it into a black one. */
  lemma RedSiblingTurnsLeft(ctx: Context, t: Tree, n: nat)
    requires Short(ctx, t, n) && ctx.LeftOf? && ColorOf(ctx.right) == Red
    ensures
      var w := ctx.right;
      && Short(LeftOf(Red, ctx.id, w.left, LeftOf(Black, w.id, w.right, ctx.up)), t, n)
      && ColorOf(w.left) == Black && ctx.color == Black
  {
    Unfold(ctx, n + 1);
    var w := ctx.right;
    assert Balanced(w.left, n + 1) && Balanced(w.right, n + 1);
    assert NoRedRed(w.left) && NoRedRed(w.right);
  }

  /** A black sibling whose near child only is red: rotating it brings the red to the far side. */
  lemma NearRedTurnsLeft(ctx: Context, t: Tree, n: nat)
    requires Short(ctx, t, n) && ctx.LeftOf?
    requires
      var w := ctx.right;
      w.N? && w.color == Black && ColorOf(w.right) == Black && ColorOf(w.left) == Red
    ensures
      var w := ctx.right;
      Short(WithSibling(ctx, N(Black, w.left.left, w.left.id, N(Red, w.left.right, w.id, w.right))), t, n)
  {
    Unfold(ctx, n + 1);
    var w := ctx.right;
    var v := w.left;
    assert Balanced(v.left, n) && Balanced(v.right, n) && NoRedRed(v.left) && NoRedRed(v.right);
    assert Balanced(w.right, n) && NoRedRed(w.right);
    var turned := N(Black, w.left.left, w.left.id, N(Red, w.left.right, w.id, w.right));
    assert Balanced(turned.right, n) && NoRedRed(turned.right);
  }

  /** A black sibling with a red far child: one rotation ends the shortage. */
  lemma FarRedRepairsLeft(ctx: Context, t: Tree, n: nat)
    requires Short(ctx, t, n) && ctx.LeftOf? && ColorOf(t) == Black
    requires ctx.right.N? && ctx.right.color == Black && ColorOf(ctx.right.right) == Red
    ensures
      var w := ctx.right;
      var whole := N(ctx.color, N(Black, t, ctx.id, w.left), w.id, Blackened(w.right));
      && Balanced(whole, n + 1 + Weight(ctx.color)) && NoRedRed(whole)
      && BalancedAround(ctx.up, n + 1 + Weight(ctx.color)) && NoRedRedAround(ctx.up)
      && (ctx.color == Red ==> HasBlackParent(ctx.up))
  {
    Unfold(ctx, n + 1);
    var w := ctx.right;
    assert Balanced(w.left, n) && NoRedRed(w.left);
    assert Balanced(Blackened(w.right), n + 1) && NoRedRed(Blackened(w.right));
  }

  /** A red sibling on the left: rotating turns it into a black one. */
  lemma RedSiblingTurnsRight(ctx: Context, t: Tree, n: nat)
    requires Short(ctx, t, n) && ctx.RightOf? && ColorOf(ctx.left) == Red
    ensures
      var w := ctx.left;
      && Short(RightOf(Red, ctx.id, w.right, RightOf(Black, w.id, w.left, ctx.up)), t, n)
      && ColorOf(w.right) == Black && ctx.color == Black
  {
    Unfold(ctx, n + 1);
    var w := ctx.left;
    assert Balanced(w.left, n + 1) && Balanced(w.right, n + 1);
    assert NoRedRed(w.left) && NoRedRed(w.right);
  }

  /** A black sibling whose near child only is red: rotating it brings the red to the far side. */
  lemma NearRedTurnsRight(ctx: Context, t: Tree, n: nat)
    requires Short(ctx, t, n) && ctx.RightOf?
    requires
      var w := ctx.left;
      w.N? && w.color == Black && ColorOf(w.left) == Black && ColorOf(w.right) == Red
    ensures
      var w := ctx.left;
      Short(WithSibling(ctx, N(Black, N(Red, w.left, w.id, w.right.left), w.right.id, w.right.right)), t, n)
  {
    Unfold(ctx, n + 1);
    var w := ctx.left;
    var v := w.right;
    assert Balanced(v.left, n) && Balanced(v.right, n) && NoRedRed(v.left) && NoRedRed(v.right);
    assert Balanced(w.left, n) && NoRedRed(w.left);
    var turned := N(Black, N(Red, w.left, w.id, w.right.left), w.right.id, w.right.right);
    assert Balanced(turned.left, n) && NoRedRed(turned.left);
  }

  /** A black sibling with a red far child: one rotation ends the shortage. */
  lemma FarRedRepairsRight(ctx: Context, t: Tree, n: nat)
    requires Short(ctx, t, n) && ctx.RightOf? && ColorOf(t) == Black
    requires ctx.left.N? && ctx.left.color == Black && ColorOf(ctx.left.left) == Red
    ensures
      var w := ctx.left;
      var whole := N(ctx.color, Blackened(w.left), w.id, N(Black, w.right, ctx.id, t));
      && Balanced(whole, n + 1 + Weight(ctx.color)) && NoRedRed(whole)
      && BalancedAround(ctx.up, n + 1 + Weight(ctx.color)) && NoRedRedAround(ctx.up)
      && (ctx.color == Red ==> HasBlackParent(ctx.up))
  {
    Unfold(ctx, n + 1);
    var w := ctx.left;
    assert Balanced(w.right, n) && NoRedRed(w.right);
    assert Balanced(Blackened(w.left), n + 1) && NoRedRed(Blackened(w.left));
  }

  // ---------------------------------------------------------------- height

  function Size(t: Tree): nat {
    match t
    case E => 0
    case N(_, l, _, r) => Size(l) + 1 + Size(r)
  }

  function Height(t: Tree): nat {
    match t
    case E => 0
    case N(_, l, _, r) => 1 + if Height(l) > Height(r) then Height(l) else Height(r)
  }

  function Pow2(n: nat): (p: nat)
    ensures p >= 1
  {
    if n == 0 then 1 else 2 * Pow2(n - 1)
  }

  lemma Pow2Monotone(m: nat, n: nat)
    requires m <= n
    ensures Pow2(m) <= Pow2(n)
  {
  }

  lemma {:induction false} BlackHeightBounds(t: Tree, n: nat)
    requires Balanced(t, n) && NoRedRed(t)
    ensures Pow2(n) <= Size(t) + 1
    ensures Height(t) <= 2 * n + (1 - Weight(ColorOf(t)))
  {
    match t
    case E =>
    case N(c, l, _, r) =>
      BlackHeightBounds(l, n - Weight(c));
      BlackHeightBounds(r, n - Weight(c));
  }

  lemma {:induction false} Pow2Double(n: nat)
    ensures Pow2(2 * n) == Pow2(n) * Pow2(n)
  {
    if n > 0 {
      Pow2Double(n - 1);
      assert Pow2(2 * n) == 2 * Pow2(2 * n - 1);
      assert Pow2(2 * n - 1) == 2 * Pow2(2 * (n - 1));
    }
  }

  /** The height of a red-black tree of n nodes is at most 2 * log2(n + 1). */
  lemma HeightBound(t: Tree)
    requires RedBlack(t)
    ensures Pow2(Height(t)) <= (Size(t) + 1) * (Size(t) + 1)
  {
    var n: nat :| Balanced(t, n);
    BlackHeightBounds(t, n);
    Pow2Monotone(Height(t), 2 * n);
    Pow2Double(n);
    MulMonotone(Pow2(n), Size(t) + 1);
  }

  lemma {:induction false} OrderHasAll(t: Tree)
    ensures |Order(t)| == Size(t)
  {
    if t.N? {
      OrderHasAll(t.left);
      OrderHasAll(t.right);
    }
  }

  lemma MulMonotone(a: nat, b: nat)
    requires a <= b
    ensures a * a <= b * b
  {
  }
}
