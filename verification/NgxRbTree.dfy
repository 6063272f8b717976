/** The red-black tree of the timer component (rbtree.c, rbtree.h): nodes with parent pointers,
    one shared sentinel, and a root whose own parent field is never read. */
module NgxRbTree {
  import opened Arithmetic
  import opened RedBlackShapes
  import opened RedBlackLinks
  import opened RedBlackRepair

  const WORD := 0x1_0000_0000
  const HALF := 0x8000_0000

  /** The timer comparison: the signed 32-bit difference is negative. */
  predicate Before(a: nat, b: nat) {
    (a - b) % WORD >= HALF
  }

  /** The path to the hole is the one the timer comparison takes. */
  predicate Descends(ctx: Context, key: map<Id, nat>, node: Id) {
    match ctx
    case Top => true
    case LeftOf(_, k, _, up) => k in key && node in key && Before(key[node], key[k]) && Descends(up, key, node)
    case RightOf(_, k, _, up) => k in key && node in key && !Before(key[node], key[k]) && Descends(up, key, node)
  }

  // ---------------------------------------------------------------- circular order

  /** How far a key lies past the start of an arc. */
  function Past(key: nat, base: nat): (r: nat)
    ensures r < WORD
  {
    (key - base) % WORD
  }

  /** Within an arc of fewer than 2^31 ticks the timer comparison is the order of the arc. */
  lemma BeforeInArc(a: nat, b: nat, base: nat)
    requires Past(a, base) < HALF && Past(b, base) < HALF
    ensures Before(a, b) <==> Past(a, base) < Past(b, base)
  {
    var d := Past(a, base) - Past(b, base);
    var qa, qb := (a - base) / WORD, (b - base) / WORD;
    assert a - b == (qa - qb) * WORD + d;
    DivAdd(qa - qb, d, WORD);
  }

  ghost predicate InArc(nodes: seq<Id>, key: map<Id, nat>, base: nat) {
    forall i :: 0 <= i < |nodes| ==> nodes[i] in key && Past(key[nodes[i]], base) < HALF
  }

  /** All keys lie within an arc of fewer than 2^31 ticks. */
  ghost predicate Close(nodes: seq<Id>, key: map<Id, nat>) {
    exists base: nat :: InArc(nodes, key, base)
  }

  /** No node is before one to its left. */
  ghost predicate Ordered(nodes: seq<Id>, key: map<Id, nat>) {
    && (forall i :: 0 <= i < |nodes| ==> nodes[i] in key)
    && forall i, j :: 0 <= i < j < |nodes| ==> !Before(key[nodes[j]], key[nodes[i]])
  }

  /** The neighbours of the hole are on the right sides of the node. */
  lemma {:induction false} HoleNeighbours(ctx: Context, key: map<Id, nat>, node: Id)
    requires Descends(ctx, key, node) && node in key
    ensures
      var b, a := OrderBefore(ctx), OrderAfter(ctx);
      && (b != [] ==> b[|b| - 1] in key && !Before(key[node], key[b[|b| - 1]]))
      && (a != [] ==> a[0] in key && Before(key[node], key[a[0]]))
  {
    match ctx
    case Top =>
    case LeftOf(_, _, _, up) => HoleNeighbours(up, key, node);
    case RightOf(_, _, _, up) => HoleNeighbours(up, key, node);
  }

  lemma OrderedInArc(before: seq<Id>, node: Id, after: seq<Id>, key: map<Id, nat>, base: nat)
    requires Ordered(before + after, key) && InArc(before + after + [node], key, base)
    requires node in key && (forall x :: x in before + after ==> x in key)
    requires before != [] ==> before[|before| - 1] in key && !Before(key[node], key[before[|before| - 1]])
    requires after != [] ==> after[0] in key && Before(key[node], key[after[0]])
    ensures Ordered(before + [node] + after, key)
  {
    var old_ := before + after;
    var all := old_ + [node];
    var nodes := before + [node] + after;
    var n := |before|;
    assert all[|old_|] == node;
    assert forall i :: 0 <= i < |old_| ==> all[i] == old_[i];
    assert forall i :: 0 <= i < n ==> nodes[i] == old_[i];
    assert forall i :: n < i < |nodes| ==> nodes[i] == old_[i - 1];
    forall i | 0 <= i < n
      ensures !Before(key[node], key[nodes[i]])
    {
      BeforeInArc(key[node], key[old_[i]], base);
      BeforeInArc(key[node], key[old_[n - 1]], base);
      BeforeInArc(key[old_[n - 1]], key[old_[i]], base);
    }
    forall i | n < i < |nodes|
      ensures !Before(key[nodes[i]], key[node])
    {
      BeforeInArc(key[old_[i - 1]], key[node], base);
      BeforeInArc(key[node], key[old_[n]], base);
      BeforeInArc(key[old_[i - 1]], key[old_[n]], base);
    }
  }

  /** Ordered nodes always lie in one arc, the one that starts at the first of them. */
  lemma OrderedIsClose(nodes: seq<Id>, key: map<Id, nat>, others: seq<Id>)
    requires Ordered(nodes, key) && nodes != []
    requires forall x :: x in others ==> x in nodes
    ensures Close(others, key)
  {
    var base := key[nodes[0]];
    forall i | 0 <= i < |others|
      ensures others[i] in key && Past(key[others[i]], base) < HALF
    {
      assert others[i] in others;
      var j :| 0 <= j < |nodes| && nodes[j] == others[i];
      assert j > 0 ==> !Before(key[nodes[j]], key[nodes[0]]);
    }
    assert InArc(others, key, base);
  }

  /** Hanging the node where the comparison leads keeps the nodes ordered, exactly when the keys
      with the new one lie in an arc of fewer than 2^31 ticks. */
  lemma DescentKeepsOrdered(ctx: Context, key: map<Id, nat>, node: Id)
    requires Descends(ctx, key, node) && node in key && Ordered(Order(Plug(ctx, E)), key)
    ensures Close(Order(Plug(ctx, E)) + [node], key)
      <==> Ordered(OrderBefore(ctx) + [node] + OrderAfter(ctx), key)
  {
    var nodes := OrderBefore(ctx) + [node] + OrderAfter(ctx);
    OrderPlug(ctx, E);
    assert OrderBefore(ctx) + [] + OrderAfter(ctx) == OrderBefore(ctx) + OrderAfter(ctx);
    HoleNeighbours(ctx, key, node);
    if Close(Order(Plug(ctx, E)) + [node], key) {
      var base: nat :| InArc(Order(Plug(ctx, E)) + [node], key, base);
      OrderedInArc(OrderBefore(ctx), node, OrderAfter(ctx), key, base);
    }
    if Ordered(nodes, key) {
      OrderedIsClose(nodes, key, Order(Plug(ctx, E)) + [node]);
    }
  }

  lemma SingletonIsOrdered(node: Id, key: map<Id, nat>)
    requires node in key
    ensures Ordered([node], key) && Close([] + [node], key)
  {
    OrderedIsClose([node], key, [] + [node]);
  }

  /** Three keys a third of the circle apart: each is before the next, all the way round. */
  lemma WideArcIsCyclic()
    ensures Before(0, 0x6000_0000) && Before(0x6000_0000, 0xC000_0000) && Before(0xC000_0000, 0)
  {
  }

  /** Without one node, the others stay ordered, whatever becomes of that node's key. */
  lemma RemainsOrdered(nodes: seq<Id>, pos: nat, node: Id, key: map<Id, nat>, rest: seq<Id>)
    requires pos < |nodes| && rest == nodes[..pos] + nodes[pos + 1..] && node !in rest
    ensures Ordered(nodes, key) ==> Ordered(rest, key[node := 0])
  {
    if Ordered(nodes, key) {
      forall i | 0 <= i < |rest|
        ensures rest[i] in key && rest[i] != node
      {
        assert rest[i] in rest;
      }
      forall i, j | 0 <= i < j < |rest|
        ensures !Before(key[rest[j]], key[rest[i]])
      {
        var i' := if i < pos then i else i + 1;
        var j' := if j < pos then j else j + 1;
        assert rest[i] == nodes[i'] && rest[j] == nodes[j'];
      }
    }
  }

  /** A node that occurs once is followed by what is behind it. */
  lemma Follows(before: seq<Id>, node: Id, after: seq<Id>)
    requires forall i, j :: 0 <= i < j < |before + [node] + after| ==> (before + [node] + after)[i] != (before + [node] + after)[j]
    ensures
      var nodes := before + [node] + after;
      node in nodes && forall i :: 0 <= i < |nodes| && nodes[i] == node ==>
        i == |before| && if after == [] then i + 1 == |nodes| else i + 1 < |nodes| && nodes[i + 1] == after[0]
  {
    var nodes := before + [node] + after;
    assert nodes[|before|] == node;
  }

  class Tree {
    const links: Links                   // the nodes and the root pointer, which rotations compare with
    var key: map<Id, nat>
    ghost var shape: RedBlackShapes.Tree

    /** The in-order sequence of nodes. */
    ghost function Nodes(): seq<Id>
      reads this, links
    {
      Order(shape)
    }

    ghost predicate Valid()
      reads this, links
    {
      && At(links.State(), Top, shape, links.root, links.rootParent, links.rootParent)
      && !links.byParent
      && RedBlack(shape)
      && Ids(shape) <= key.Keys
    }

    /** Walk down from `temp` to the leaf position of the node's deadline and hang it there, red. */
    method InsertTimerValue(start: Id, node: Id) returns (ghost ctx: Context)
      requires Valid() && shape.N? && start == links.root
      requires node in links.mem && node in key && node != NIL && node !in Ids(shape)
      modifies links`mem
      ensures Focus(links.State(), ctx, N(Red, E, node, E), node, links.rootParent)
      ensures Plug(ctx, E) == shape && Descends(ctx, key, node) && !ctx.Top?
      ensures links.mem.Keys == old(links.mem.Keys)
    {
      var temp := start;
      ghost var t := shape;
      ctx := Top;
      var left := false;
      while true
        invariant Focus(links.State(), ctx, t, temp, links.rootParent) && t.N?
        invariant Plug(ctx, t) == shape && Descends(ctx, key, node)
        invariant links.mem == old(links.mem) && temp in key
        decreases t
      {
        IdsPlug(ctx, t);
        DescendLeft(links.State(), ctx, t, temp, links.mem[temp].parent, links.rootParent);
        DescendRight(links.State(), ctx, t, temp, links.mem[temp].parent, links.rootParent);
        left := Before(key[node], key[temp]);
        var next := if left then links.mem[temp].left else links.mem[temp].right;
        ctx, t := if left then LeftOf(t.color, temp, t.right, ctx) else RightOf(t.color, temp, t.left, ctx),
                  if left then t.left else t.right;
        if next == NIL {
          break;
        }
        RepIds(links.mem, t, next, temp);
        IdsPlug(ctx, t);
        temp := next;
      }
      IdsPlug(ctx, t);
      links.HangNode(temp, node, left, ctx);
    }

    /** Add a node: it goes to one place in the order, nothing else moves, and the tree is a
        red-black tree again. */
    method Insert(node: Id) returns (ghost pos: nat)
      requires Valid()
      requires node in links.mem && node in key && node != NIL && node !in Ids(shape)
      modifies this, links
      ensures Valid() && key == old(key) && links.mem.Keys == old(links.mem.Keys)
      ensures pos <= |old(Nodes())|
      ensures Nodes() == old(Nodes())[..pos] + [node] + old(Nodes())[pos..]
      ensures Ordered(old(Nodes()), key) ==>
        (Ordered(Nodes(), key) <==> Close(old(Nodes()) + [node], key))
    {
      RepIds(links.mem, shape, links.root, links.rootParent);
      if links.root == NIL {
        InsertFirst(node);
        SingletonIsOrdered(node, key);
        return 0;
      }
      ghost var ctx := InsertTimerValue(links.root, node);
      pos := |OrderBefore(ctx)|;
      LeafFits(ctx, node, shape);
      if Ordered(old(Nodes()), key) {
        DescentKeepsOrdered(ctx, key, node);
      }
      HoleSplitsOrder(ctx, old(Nodes()));
      Rebalance(node, ctx);
    }

    method InsertFirst(node: Id)
      requires Valid() && shape.E?
      requires node in links.mem && node in key && node != NIL
      modifies this, links
      ensures Valid() && key == old(key) && links.mem.Keys == old(links.mem.Keys)
      ensures Nodes() == [node]
    {
      links.mem := SetParent(links.mem, node, NULL);
      links.mem := SetLeft(links.mem, node, NIL);
      links.mem := SetRight(links.mem, node, NIL);
      links.mem := SetColor(links.mem, node, Black);
      links.root := node;
      shape, links.rootParent := N(Black, E, node, E), NULL;
      assert Balanced(shape, 1) && Balanced(E, 0);
      assert Rep(links.mem, E, NIL, node) && Order(E) == [];
      assert Ids(E) == {} && Distinct(E);
    }

    /** The repair loop after an insertion. */
    method Rebalance(start: Id, ghost hole: Context)
      requires Focus(links.State(), hole, N(Red, E, start, E), start, links.rootParent)
      requires RedAt(hole, N(Red, E, start, E), 0)
      requires IdsAround(hole) + {start} <= key.Keys
      requires !links.byParent
      modifies links`mem, links`root, `shape
      ensures Valid() && links.mem.Keys == old(links.mem.Keys)
      ensures Nodes() == OrderAt(hole, N(Red, E, start, E))
    {
      var node := start;
      ghost var ctx, t, n := hole, RedBlackShapes.Tree.N(Red, E, start, E), 0;
      GuardFacts(links.State(), ctx, t, node, links.rootParent);
      while node != links.root && links.mem[links.mem[node].parent].color == Red
        invariant Focus(links.State(), ctx, t, node, links.rootParent) && RedAt(ctx, t, n)
        invariant OrderAt(ctx, t) == OrderAt(hole, N(Red, E, start, E))
        invariant node == links.root <==> ctx.Top?
        invariant !ctx.Top? ==> links.mem[node].parent in links.mem && links.mem[links.mem[node].parent].color == ctx.color
        invariant links.mem.Keys == old(links.mem.Keys)
        decreases if RedParent(ctx) then 1 + Depth(ctx) else 0
      {
        RedParentHasGrandparent(ctx);
        var parent, grand := links.ParentAndGrandparent(node, ctx, t);
        if parent == links.mem[grand].left {
          node, ctx, t, n := links.FixRedLeft(node, ctx, t, n);
        } else {
          node, ctx, t, n := links.FixRedRight(node, ctx, t, n);
        }
        GuardFacts(links.State(), ctx, t, node, links.rootParent);
      }
      SameOrderSameIds(ctx, t, hole, N(Red, E, start, E));
      FinishInsertion(node, ctx, t, n);
    }

    /** The assignment after the loop: the root is black. */
    method FinishInsertion(node: Id, ghost ctx: Context, ghost t: RedBlackShapes.Tree, ghost n: nat)
      requires Focus(links.State(), ctx, t, node, links.rootParent) && RedAt(ctx, t, n) && !RedParent(ctx)
      requires IdsAround(ctx) + Ids(t) <= key.Keys
      requires !links.byParent
      modifies links`mem, `shape
      ensures Valid() && links.mem.Keys == old(links.mem.Keys)
      ensures Nodes() == OrderAt(ctx, t)
    {
      InsertionEnds(links.State(), ctx, t, node, links.rootParent, n);
      IdsPlug(ctx, t);
      links.mem := SetColor(links.mem, links.root, Black);
      shape := Blackened(Plug(ctx, t));
    }

    /** The repair loop after a deletion, up to the final painting. */
    method RepairDeletion(start: Id, ghost ctx0: Context, ghost t0: RedBlackShapes.Tree, ghost n0: nat)
      requires Focus(links.State(), ctx0, t0, start, links.rootParent) && Short(ctx0, t0, n0)
      requires IdsAround(ctx0) + Ids(t0) <= key.Keys
      requires !links.byParent
      modifies links`mem, links`root, `shape
      ensures Valid() && links.mem.Keys == old(links.mem.Keys)
      ensures Nodes() == OrderAt(ctx0, t0)
    {
      var temp := start;
      ghost var ctx, t, n := ctx0, t0, n0;
      FocusColor(links.State(), ctx, t, temp, links.rootParent);
      while temp != links.root && links.mem[temp].color == Black
        invariant Focus(links.State(), ctx, t, temp, links.rootParent) && Short(ctx, t, n)
        invariant OrderAt(ctx, t) == OrderAt(ctx0, t0)
        invariant links.mem[temp].color == ColorOf(t) && (temp == links.root <==> ctx.Top?)
        invariant links.mem.Keys == old(links.mem.Keys)
        decreases if !ctx.Top? && ColorOf(t) == Black then 1 + Depth(ctx) else 0
      {
        ShortHasSibling(ctx, t, n);
        SiblingFacts(links.State(), ctx, t, temp, links.rootParent);
        if temp == links.mem[links.mem[temp].parent].left {
          temp, ctx, t, n := links.FixShortLeft(temp, ctx, t, n);
        } else {
          temp, ctx, t, n := links.FixShortRight(temp, ctx, t, n);
        }
        FocusColor(links.State(), ctx, t, temp, links.rootParent);
      }
      SameOrderSameIds(ctx, t, ctx0, t0);
      FinishDeletion(temp, ctx, t, n);
    }

    /** The assignment after the loop. */
    method FinishDeletion(temp: Id, ghost ctx: Context, ghost t: RedBlackShapes.Tree, ghost n: nat)
      requires Focus(links.State(), ctx, t, temp, links.rootParent) && Short(ctx, t, n)
      requires temp == links.root || links.mem[temp].color == Red
      requires IdsAround(ctx) + Ids(t) <= key.Keys
      requires !links.byParent
      modifies links`mem, `shape
      ensures Valid() && links.mem.Keys == old(links.mem.Keys)
      ensures Nodes() == OrderAt(ctx, t)
    {
      RepairEnds(links.State(), ctx, t, temp, links.rootParent, n);
      links.mem := SetColor(links.mem, temp, Black);
      shape := Plug(ctx, Blackened(t));
    }

    /** Bypass a node with at most one child. */
    method SpliceSingle(node: Id, temp: Id, ghost ctx: Context, ghost t: RedBlackShapes.Tree, ghost child: RedBlackShapes.Tree)
      returns (ghost n: nat)
      requires Valid() && Focus(links.State(), ctx, t, node, links.rootParent) && t.N? && Plug(ctx, t) == shape
      requires node != links.root
      requires (t.left.E? && child == t.right && temp == links.mem[node].right)
            || (t.right.E? && child == t.left && temp == links.mem[node].left)
      modifies links`mem
      ensures Focus(links.State(), ctx, child, temp, links.rootParent) && Spliced(ctx, child, n, t.color)
      ensures links.mem.Keys == old(links.mem.Keys)
    {
      TopIffRoot(links.State(), ctx, t, node, links.mem[node].parent, links.rootParent);
      if t.left.E? && child == t.right {
        n := BypassShort(ctx, t, shape);
      } else {
        n := BypassShortLeft(ctx, t, shape);
      }
      Bypass(node, temp, ctx, t, child);
    }

    /** The parent of `node` points at temp, and temp back at it. */
    method Bypass(node: Id, temp: Id, ghost ctx: Context, ghost t: RedBlackShapes.Tree, ghost child: RedBlackShapes.Tree)
      requires Focus(links.State(), ctx, t, node, links.rootParent) && t.N? && !ctx.Top?
      requires (t.left.E? && child == t.right && temp == links.mem[node].right)
            || (t.right.E? && child == t.left && temp == links.mem[node].left)
      modifies links`mem
      ensures Focus(links.State(), ctx, child, temp, links.rootParent) && links.mem.Keys == old(links.mem.Keys)
    {
      BypassSelf(links.State(), ctx, t, node, links.rootParent, child, temp);
      if node == links.mem[links.mem[node].parent].left {
        links.mem := SetLeft(links.mem, links.mem[node].parent, temp);
      } else {
        links.mem := SetRight(links.mem, links.mem[node].parent, temp);
      }
      links.mem := SetParent(links.mem, temp, links.mem[node].parent);
    }

    /** Bypass the leftmost node of the right subtree and put it in the place of `node`. */
    method SpliceDouble(node: Id, subst: Id, temp: Id, ghost ctx: Context, ghost t: RedBlackShapes.Tree,
                        ghost inner: Context, ghost last: RedBlackShapes.Tree)
      returns (ghost ctx': Context)
      requires Valid() && Plug(ctx, t) == shape && Doomed(links.State(), ctx, t, node, links.rootParent, inner, last)
      requires subst == last.id && subst in links.mem && temp == links.mem[subst].right
      modifies links`mem, links`root
      ensures ctx' == Append(inner, RightOf(t.color, subst, t.left, ctx))
      ensures Focus(links.State(), ctx', last.right, temp, links.rootParent)
      ensures links.mem.Keys == old(links.mem.Keys)
    {
      ghost var s1, s2, s3 := Transplant(links.State(), ctx, t, node, links.rootParent, inner, last);
      ctx' := Append(inner, RightOf(t.color, subst, t.left, ctx));
      MoveUp(node, subst, temp, s1, s2, s3);
    }

    /** The three groups of assignments. */
    method MoveUp(node: Id, subst: Id, temp: Id, ghost s1: Linked, ghost s2: Linked, ghost s3: Linked)
      requires subst in links.mem && links.mem[subst].parent in links.mem && temp in links.mem && Closed(links.mem, node) && node != subst
      requires s1 == Linked(Detached(links.mem, node, subst, temp), links.root)
      requires node in s1.mem && (node != s1.root ==> s1.mem[node].parent in s1.mem)
      requires s2 == Promoted(s1, node, subst) && Closed(s2.mem, subst)
      requires s3 == Linked(Adopted(s2.mem, subst), s2.root)
      modifies links`mem, links`root
      ensures links.State() == s3
    {
      Detach(node, subst, temp);
      assert links.State() == s1;
      Promote(node, subst);
      assert links.State() == s2;
      Adopt(subst);
    }

    method Detach(node: Id, subst: Id, temp: Id)
      requires subst in links.mem && links.mem[subst].parent in links.mem && temp in links.mem && Closed(links.mem, node)
      modifies links`mem
      ensures links.mem == Detached(old(links.mem), node, subst, temp)
    {
      if subst == links.mem[links.mem[subst].parent].left {
        links.mem := SetLeft(links.mem, links.mem[subst].parent, temp);
      } else {
        links.mem := SetRight(links.mem, links.mem[subst].parent, temp);
      }
      if links.mem[subst].parent == node {
        links.mem := SetParent(links.mem, temp, subst);
      } else {
        links.mem := SetParent(links.mem, temp, links.mem[subst].parent);
      }
    }

    method Promote(node: Id, subst: Id)
      requires subst in links.mem && node in links.mem && node != subst
      requires node != links.root ==> links.mem[node].parent in links.mem
      modifies links`mem, links`root
      ensures links.State() == Promoted(old(links.State()), node, subst)
    {
      ghost var before := links.mem;
      links.mem := SetLeft(links.mem, subst, links.mem[node].left);
      links.mem := SetRight(links.mem, subst, links.mem[node].right);
      links.mem := SetParent(links.mem, subst, links.mem[node].parent);
      links.mem := SetColor(links.mem, subst, links.mem[node].color);
      assert links.mem == before[subst := before[node]];
      if node == links.root {
        links.root := subst;
      } else if node == links.mem[links.mem[node].parent].left {
        links.mem := SetLeft(links.mem, links.mem[node].parent, subst);
      } else {
        links.mem := SetRight(links.mem, links.mem[node].parent, subst);
      }
    }

    method Adopt(subst: Id)
      requires Closed(links.mem, subst)
      modifies links`mem
      ensures links.mem == Adopted(old(links.mem), subst)
    {
      if links.mem[subst].left != NIL {
        links.mem := SetParent(links.mem, links.mem[subst].left, subst);
      }
      if links.mem[subst].right != NIL {
        links.mem := SetParent(links.mem, links.mem[subst].right, subst);
      }
    }

    /** The root has at most one child, which becomes the root. */
    method DeleteRoot(node: Id, temp: Id, ghost child: RedBlackShapes.Tree)
      requires Valid() && shape.N? && node == links.root && node in links.mem
      requires (shape.left.E? && child == shape.right && temp == links.mem[node].right)
            || (shape.right.E? && child == shape.left && temp == links.mem[node].left)
      modifies this, links
      ensures Valid() && shape == Blackened(child)
      ensures links.mem.Keys == old(links.mem.Keys) && key == old(key)[node := 0]
    {
      DescendLeft(links.State(), Top, shape, node, links.rootParent, links.rootParent);
      DescendRight(links.State(), Top, shape, node, links.rootParent, links.rootParent);
      OnlyChildIsRedBlack(shape, child);
      RepIds(links.mem, child, temp, node);
      ghost var before := links.mem;
      links.root := temp;
      links.mem := SetColor(links.mem, temp, Black);
      if child.N? {
        Recolor(before, child, temp, node, Black);
        FrameRep(links.mem, links.mem[node := Node(NULL, NULL, NULL, links.mem[node].color)], Blackened(child), temp, node);
      }
      links.mem := links.mem[node := Node(NULL, NULL, NULL, links.mem[node].color)];
      key := key[node := 0];
      shape := Blackened(child);
      links.rootParent := node;
    }

    /** The node that leaves its place (the node itself, or the leftmost one to its right), and
        the one that moves up. */
    method ChooseSubst(node: Id, ghost ctx: Context, ghost t: RedBlackShapes.Tree)
      returns (subst: Id, temp: Id, ghost inner: Context, ghost last: RedBlackShapes.Tree, ghost child: RedBlackShapes.Tree)
      requires Focus(links.State(), ctx, t, node, links.rootParent) && t.N? && t.id == node
      ensures subst in links.mem
      ensures subst == node ==>
        || (t.left.E? && child == t.right && temp == links.mem[node].right)
        || (t.right.E? && child == t.left && temp == links.mem[node].left)
      ensures subst != node ==>
        && Doomed(links.State(), ctx, t, node, links.rootParent, inner, last)
        && subst == last.id && temp == links.mem[subst].right && child == last.right
      ensures links.mem[subst].color == (if subst == node then t else last).color
      ensures subst == links.root <==> subst == node && ctx.Top?
    {
      DescendLeft(links.State(), ctx, t, node, links.mem[node].parent, links.rootParent);
      DescendRight(links.State(), ctx, t, node, links.mem[node].parent, links.rootParent);
      TopIffRoot(links.State(), ctx, t, node, links.mem[node].parent, links.rootParent);
      inner, last := Top, t;
      if links.mem[node].left == NIL {
        temp, subst, child := links.mem[node].right, node, t.right;
      } else if links.mem[node].right == NIL {
        temp, subst, child := links.mem[node].left, node, t.left;
      } else {
        subst, inner, last := links.Min(links.mem[node].right, RightOf(t.color, node, t.left, ctx), t.right);
        // The leftmost node has no left child, so the code's other choice of temp is never made.
        assert links.mem[subst].left == NIL;
        temp, child := links.mem[subst].right, last.right;
        SubstIsNotRoot(links.State(), ctx, t, node, links.rootParent, inner, last);
      }
    }

    /** Take `node` out of the tree; the subtree at temp moves up. */
    method Splice(node: Id, subst: Id, temp: Id, ghost ctx: Context, ghost t: RedBlackShapes.Tree,
                  ghost inner: Context, ghost last: RedBlackShapes.Tree, ghost child: RedBlackShapes.Tree)
      returns (ghost ctx': Context, ghost n: nat)
      requires Valid() && Focus(links.State(), ctx, t, node, links.rootParent) && t.N? && t.id == node
      requires Plug(ctx, t) == shape && subst != links.root && subst in links.mem
      requires subst == node ==>
        || (t.left.E? && child == t.right && temp == links.mem[node].right)
        || (t.right.E? && child == t.left && temp == links.mem[node].left)
      requires subst != node ==>
        && Doomed(links.State(), ctx, t, node, links.rootParent, inner, last)
        && subst == last.id && temp == links.mem[subst].right && child == last.right
      modifies links`mem, links`root
      ensures Focus(links.State(), ctx', child, temp, links.rootParent) && links.mem.Keys == old(links.mem.Keys)
      ensures Spliced(ctx', child, n, (if subst == node then t else last).color)
      ensures OrderAt(ctx', child) == NodesBefore(ctx, t) + NodesAfter(ctx, t)
    {
      if subst == node {
        OrderWithoutSingle(ctx, t, child);
        ctx' := ctx;
        n := SpliceSingle(node, temp, ctx, t, child);
      } else {
        OrderWithout(ctx, t, inner, last);
        n := TransplantShort(ctx, t, shape, inner, last);
        ctx' := SpliceDouble(node, subst, temp, ctx, t, inner, last);
      }
    }

    /** Forget the links and the key of the node that was taken out. */
    method Clear(node: Id, temp: Id, ghost ctx: Context, ghost t: RedBlackShapes.Tree)
      requires Focus(links.State(), ctx, t, temp, links.rootParent)
      requires node in links.mem && node != NIL && node !in IdsAround(ctx) + Ids(t)
      modifies links`mem, `key
      ensures Focus(links.State(), ctx, t, temp, links.rootParent)
      ensures links.mem.Keys == old(links.mem.Keys) && key == old(key)[node := 0]
    {
      ClearOutside(links.State(), ctx, t, temp, links.rootParent, node, Node(NULL, NULL, NULL, links.mem[node].color));
      links.mem := links.mem[node := Node(NULL, NULL, NULL, links.mem[node].color)];
      key := key[node := 0];
    }

    /** The general case: bypass, clear, and repair if a black node left its place. */
    method DeleteBelowRoot(node: Id, subst: Id, temp: Id, ghost ctx: Context, ghost t: RedBlackShapes.Tree,
                           ghost inner: Context, ghost last: RedBlackShapes.Tree, ghost child: RedBlackShapes.Tree)
      requires Valid() && Focus(links.State(), ctx, t, node, links.rootParent) && t.N? && t.id == node
      requires Plug(ctx, t) == shape && subst != links.root && subst in links.mem
      requires subst == node ==>
        || (t.left.E? && child == t.right && temp == links.mem[node].right)
        || (t.right.E? && child == t.left && temp == links.mem[node].left)
      requires subst != node ==>
        && Doomed(links.State(), ctx, t, node, links.rootParent, inner, last)
        && subst == last.id && temp == links.mem[subst].right && child == last.right
      requires links.mem[subst].color == (if subst == node then t else last).color
      modifies this, links
      ensures Valid() && links.mem.Keys == old(links.mem.Keys) && key == old(key)[node := 0]
      ensures Nodes() == NodesBefore(ctx, t) + NodesAfter(ctx, t)
    {
      FocusColor(links.State(), ctx, t, node, links.rootParent);
      var red := links.mem[subst].color == Red;
      ghost var ctx', n := Splice(node, subst, temp, ctx, t, inner, last, child);
      RemainderIds(shape, ctx, t, ctx', child);
      Clear(node, temp, ctx', child);
      Settle(temp, red, ctx', child, n);
    }

    /** A red node leaves nothing to repair. */
    method Settle(temp: Id, red: bool, ghost ctx: Context, ghost t: RedBlackShapes.Tree, ghost n: nat)
      requires Focus(links.State(), ctx, t, temp, links.rootParent)
      requires Spliced(ctx, t, n, if red then Red else Black)
      requires IdsAround(ctx) + Ids(t) <= key.Keys
      requires !links.byParent
      modifies links`mem, links`root, `shape
      ensures Valid() && links.mem.Keys == old(links.mem.Keys)
      ensures Nodes() == OrderAt(ctx, t)
    {
      if red {
        SplicedRedIsRedBlack(ctx, t, n);
        Whole(links.State(), ctx, t, temp, links.mem[temp].parent, links.rootParent);
        IdsPlug(ctx, t);
        shape := Plug(ctx, t);
      } else {
        RepairDeletion(temp, ctx, t, n);
      }
    }

    /** Take a node out: it alone leaves the order, and the tree is a red-black tree again. */
    method Delete(node: Id) returns (ghost pos: nat)
      requires Valid() && node in Ids(shape)
      modifies this, links
      ensures Valid() && links.mem.Keys == old(links.mem.Keys) && key == old(key)[node := 0]
      ensures pos < |old(Nodes())| && old(Nodes())[pos] == node && node !in Ids(shape)
      ensures Nodes() == old(Nodes())[..pos] + old(Nodes())[pos + 1..]
      ensures Ordered(old(Nodes()), old(key)) ==> Ordered(Nodes(), key)
    {
      ghost var ctx, t := FocusOn(links.State(), shape, links.rootParent, node);
      NodeInOrder(ctx, t);
      pos := |NodesBefore(ctx, t)|;
      SliceAround(Nodes(), NodesBefore(ctx, t), node, NodesAfter(ctx, t));
      var subst, temp;
      ghost var inner, last, child;
      subst, temp, inner, last, child := ChooseSubst(node, ctx, t);
      NodeLeaves(shape, ctx, t);
      if subst == links.root {
        OrderWithoutSingle(Top, t, child);
        DeleteRoot(node, temp, child);
      } else {
        DeleteBelowRoot(node, subst, temp, ctx, t, inner, last, child);
      }
      IdsOfOrder(shape);
      RemainsOrdered(old(Nodes()), pos, node, old(key), Nodes());
    }

    /** The node with the earliest deadline, across the wrap of the clock. */
    method Earliest() returns (node: Id)
      requires Valid() && shape.N?
      ensures node in Ids(shape) && node == Nodes()[0]
      ensures Ordered(Nodes(), key) ==> forall x :: x in Ids(shape) ==> !Before(key[x], key[node])
    {
      RootFocus(links.State(), shape, links.rootParent);
      ghost var inner, last;
      node, inner, last := links.Min(links.root, Top, shape);
      IdsOfOrder(shape);
      assert Nodes()[0] in Nodes();
      if Ordered(Nodes(), key) {
        forall x | x in Ids(shape)
          ensures !Before(key[x], key[node])
        {
          var i :| 0 <= i < |Nodes()| && Nodes()[i] == x;
        }
      }
    }

    /** The in-order successor, or NULL for the last node. */
    method Next(node: Id) returns (next: Id)
      requires Valid() && node in Ids(shape)
      ensures node in Nodes()
      ensures forall i :: 0 <= i < |Nodes()| && Nodes()[i] == node ==>
        next == if i + 1 < |Nodes()| then Nodes()[i + 1] else NULL
    {
      ghost var ctx, t := FocusOn(links.State(), shape, links.rootParent, node);
      NodeInOrder(ctx, t);
      DistinctOrder(shape);
      next := NextAfter(node, ctx, t);
      Follows(NodesBefore(ctx, t), node, NodesAfter(ctx, t));
    }

    /** The leftmost node of the right subtree, or else a climb. */
    method NextAfter(node: Id, ghost ctx: Context, ghost t: RedBlackShapes.Tree) returns (next: Id)
      requires Focus(links.State(), ctx, t, node, links.rootParent) && t.N?
      ensures next == if NodesAfter(ctx, t) == [] then NULL else NodesAfter(ctx, t)[0]
    {
      DescendRight(links.State(), ctx, t, node, links.mem[node].parent, links.rootParent);
      if links.mem[node].right != NIL {
        ghost var inner, last;
        next, inner, last := links.Min(links.mem[node].right, RightOf(t.color, node, t.left, ctx), t.right);
        return;
      }
      next := ClimbRight(node, ctx, t);
    }

    /** Climb while the path turns left: the first parent reached from its left side comes next. */
    method ClimbRight(start: Id, ghost ctx0: Context, ghost t0: RedBlackShapes.Tree) returns (next: Id)
      requires Focus(links.State(), ctx0, t0, start, links.rootParent) && t0.N?
      ensures next == if OrderAfter(ctx0) == [] then NULL else OrderAfter(ctx0)[0]
    {
      var node := start;
      ghost var ctx, t := ctx0, t0;
      while true
        invariant Focus(links.State(), ctx, t, node, links.rootParent) && t.N?
        invariant OrderAfter(ctx) == OrderAfter(ctx0)
        decreases ctx
      {
        TopIffRoot(links.State(), ctx, t, node, links.mem[node].parent, links.rootParent);
        if node == links.root {
          return NULL;
        }
        var parent := links.mem[node].parent;
        Ascend(links.State(), ctx, t, node, parent, links.rootParent);
        if node == links.mem[parent].left {
          return parent;
        }
        ctx, t := ctx.up, Joined(ctx, t);
        node := parent;
      }
    }

    /** An empty tree over an arena of nodes; the sentinel is black. */
    constructor (arena: Mem, keys: map<Id, nat>)
      requires NIL in arena
      ensures Valid() && Nodes() == [] && links.mem.Keys == arena.Keys && key == keys && fresh(links)
    {
      links := new Links(arena, false);
      key := keys;
      shape := E;
      new;
      assert Balanced(E, 0);
    }
  }
}
