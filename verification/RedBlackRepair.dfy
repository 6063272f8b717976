/** The steps that both red-black trees repair themselves with: the rotations and the branches of
    the two fixup loops, on links that are rewritten in place. */
module RedBlackRepair {
  import opened RedBlackShapes
  import opened RedBlackLinks

  /** A node other than the root has a parent; the root has none if its parent field holds nil. */
  lemma ParentOfRoot(s: Linked, ctx: Context, t: Tree, x: Id, rp: Id)
    requires Focus(s, ctx, t, x, rp)
    ensures x == s.root <==> ctx.Top?
    ensures rp == NIL ==> (s.mem[x].parent == NIL <==> ctx.Top?)
  {
    TopIffRoot(s, ctx, t, x, s.mem[x].parent, rp);
    if !ctx.Top? {
      Ascend(s, ctx, t, x, s.mem[x].parent, rp);
    }
  }

  lemma GrandparentOfRoot(s: Linked, ctx: Context, t: Tree, x: Id, rp: Id)
    requires Focus(s, ctx, t, x, rp) && !ctx.Top? && !ctx.up.Top?
    ensures ctx.up.id in s.mem && (rp == NIL ==> (s.mem[ctx.up.id].parent == NIL <==> ctx.up.id == s.root))
  {
    var p := s.mem[x].parent;
    Ascend(s, ctx, t, x, p, rp);
    Ascend(s, ctx.up, Joined(ctx, t), p, s.mem[p].parent, rp);
    ParentOfRoot(s, ctx.up.up, Joined(ctx.up, Joined(ctx, t)), ctx.up.id, rp);
  }

  lemma SiblingsAreBelow(s: Linked, ctx: Context, t: Tree, x: Id, rp: Id)
    requires Focus(s, ctx, t, x, rp) && !ctx.Top? && Sibling(ctx).N?
    ensures ctx.id in s.mem && (rp == NIL ==> (s.mem[ctx.id].parent == NIL <==> ctx.id == s.root))
    ensures Sibling(ctx).id in s.mem && Sibling(ctx).id != s.root
    ensures rp == NIL ==> s.mem[Sibling(ctx).id].parent != NIL
  {
    var p := s.mem[x].parent;
    Ascend(s, ctx, t, x, p, rp);
    ParentOfRoot(s, ctx.up, Joined(ctx, t), p, rp);
    if ctx.LeftOf? {
      DescendRight(s, ctx.up, Joined(ctx, t), p, s.mem[p].parent, rp);
      ParentOfRoot(s, RightOf(ctx.color, p, t, ctx.up), ctx.right, ctx.right.id, rp);
    } else {
      DescendLeft(s, ctx.up, Joined(ctx, t), p, s.mem[p].parent, rp);
      ParentOfRoot(s, LeftOf(ctx.color, p, t, ctx.up), ctx.left, ctx.left.id, rp);
    }
  }

  class Links {
    var root: Id
    var mem: Mem
    const byParent: bool                 // how rotations know the root: by its parent, the sentinel
    ghost var rootParent: Id             // whatever the root's parent field holds

    ghost function State(): Linked
      reads this
    {
      Linked(mem, root)
    }

    /** The test for the root that the rotations make agrees with the root pointer. */
    ghost predicate RootSeen(x: Id)
      requires x in mem
      reads this
    {
      byParent ==> (mem[x].parent == NIL <==> x == root)
    }

    ghost predicate RootKnown()
      reads this
    {
      byParent ==> rootParent == NIL
    }

    /** No tree yet, over an arena of nodes; the sentinel is black. */
    constructor (arena: Mem, byParent: bool)
      requires NIL in arena
      ensures root == NIL && mem.Keys == arena.Keys && this.byParent == byParent && RootKnown()
      ensures At(State(), Top, E, NIL, rootParent, rootParent)
    {
      root := NIL;
      mem := if byParent then SetParent(SetColor(arena, NIL, Black), NIL, NIL) else SetColor(arena, NIL, Black);
      this.byParent := byParent;
      rootParent := if byParent then NIL else NULL;
    }

    /** x goes down to the left, its right child up. */
    method LeftRotate(x: Id)
      requires CanRotateLeft(State(), x, x == root) && RootSeen(x)
      modifies `mem, `root
      ensures State() == LeftRotated(old(State()), x, x == old(root))
    {
      var y := mem[x].right;
      mem := SetRight(mem, x, mem[y].left);
      if mem[y].left != NIL {
        mem := SetParent(mem, mem[y].left, x);
      }
      mem := SetParent(mem, y, mem[x].parent);
      if (if byParent then mem[x].parent == NIL else x == root) {
        root := y;
      } else if x == mem[mem[x].parent].left {
        mem := SetLeft(mem, mem[x].parent, y);
      } else {
        mem := SetRight(mem, mem[x].parent, y);
      }
      mem := SetLeft(mem, y, x);
      mem := SetParent(mem, x, y);
    }

    /** x goes down to the right, its left child up. */
    method RightRotate(x: Id)
      requires CanRotateRight(State(), x, x == root) && RootSeen(x)
      modifies `mem, `root
      ensures State() == RightRotated(old(State()), x, x == old(root))
    {
      var y := mem[x].left;
      mem := SetLeft(mem, x, mem[y].right);
      if mem[y].right != NIL {
        mem := SetParent(mem, mem[y].right, x);
      }
      mem := SetParent(mem, y, mem[x].parent);
      if (if byParent then mem[x].parent == NIL else x == root) {
        root := y;
      } else if x == mem[mem[x].parent].right {
        mem := SetRight(mem, mem[x].parent, y);
      } else {
        mem := SetLeft(mem, mem[x].parent, y);
      }
      mem := SetRight(mem, y, x);
      mem := SetParent(mem, x, y);
    }

    /** The two nodes above the focus, as the loop reads them. */
    method ParentAndGrandparent(x: Id, ghost ctx: Context, ghost t: Tree)
      returns (parent: Id, grand: Id)
      requires Focus(State(), ctx, t, x, rootParent) && t.N? && !ctx.Top? && !ctx.up.Top?
      ensures parent == mem[x].parent == ctx.id && parent in mem && parent != NIL
      ensures grand == mem[parent].parent == ctx.up.id && grand in mem && grand != NIL
      ensures mem[parent].color == ctx.color
      ensures (x == mem[parent].left) == ctx.LeftOf? && (x == mem[parent].right) == ctx.RightOf?
      ensures (parent == mem[grand].left) == ctx.up.LeftOf?
      ensures
        var uncle := if ctx.up.LeftOf? then mem[grand].right else mem[grand].left;
        && uncle in mem && mem[uncle].color == ColorOf(Sibling(ctx.up))
        && (Sibling(ctx.up).N? ==> uncle == Sibling(ctx.up).id)
    {
      parent := mem[x].parent;
      Ascend(State(), ctx, t, x, parent, rootParent);
      grand := mem[parent].parent;
      Ascend(State(), ctx.up, Joined(ctx, t), parent, grand, rootParent);
      DescendRight(State(), ctx.up.up, Joined(ctx.up, Joined(ctx, t)), grand, mem[grand].parent, rootParent);
      DescendLeft(State(), ctx.up.up, Joined(ctx.up, Joined(ctx, t)), grand, mem[grand].parent, rootParent);
    }

    /** Red uncle: parent and uncle become black, the grandparent red. */
    method MoveRedUp(x: Id, parent: Id, temp: Id, grand: Id,
                     ghost ctx: Context, ghost t: Tree, ghost n: nat)
      returns (node: Id, ghost ctx': Context, ghost t': Tree)
      requires Focus(State(), ctx, t, x, rootParent)
      requires RedAt(ctx, t, n) && RedParent(ctx) && HasBlackParent(ctx.up)
      requires ColorOf(Sibling(ctx.up)) == Red
      requires parent == ctx.id && grand == ctx.up.id && temp == Sibling(ctx.up).id
      modifies `mem
      ensures Focus(State(), ctx', t', node, rootParent) && RedAt(ctx', t', n + 1)
      ensures OrderAt(ctx', t') == OrderAt(ctx, t)
      ensures Depth(ctx') < Depth(ctx) && mem.Keys == old(mem.Keys)
    {
      ghost var s' := RecolorPointers(State(), ctx, t, x, rootParent);
      RecolorMovesUp(ctx, t, n);
      mem := SetColor(mem, parent, Black);
      mem := SetColor(mem, temp, Black);
      mem := SetColor(mem, grand, Red);
      node, ctx' := grand, ctx.up.up;
      t' := Joined(WithSibling(Repainted(ctx.up, Red), Blackened(Sibling(ctx.up))), Joined(Repainted(ctx, Black), t));
    }

    /** Rotate an inner child to the outside: the path becomes straight. */
    method StraightenLeft(x: Id, ghost ctx: Context, ghost t: Tree, ghost n: nat)
      returns (node: Id, ghost ctx': Context, ghost t': Tree)
      requires Focus(State(), ctx, t, x, rootParent)
      requires RedAt(ctx, t, n) && RedParent(ctx) && HasBlackParent(ctx.up) && ctx.up.LeftOf? && ctx.RightOf?
      requires RootKnown()
      modifies `mem, `root
      ensures Focus(State(), ctx', t', node, rootParent) && RedAt(ctx', t', n)
      ensures OrderAt(ctx', t') == OrderAt(ctx, t)
      ensures ctx'.LeftOf? && ctx'.color == Red && ctx'.up == ctx.up && mem.Keys == old(mem.Keys)
    {
      BentRotationStraightens(ctx, t, n);
      ghost var s' := BentLeftPointers(State(), ctx, t, x, rootParent);
      Ascend(State(), ctx, t, x, mem[x].parent, rootParent);
      node := mem[x].parent;
      ParentOfRoot(State(), ctx.up, Joined(ctx, t), node, rootParent);
      LeftRotate(node);
      ctx', t' := LeftOf(Red, t.id, t.right, ctx.up), N(Red, ctx.left, ctx.id, t.left);
    }

    /** A straight path: recolour and rotate at the grandparent. */
    method RotateStraightLeft(node: Id, ghost ctx: Context, ghost t: Tree, ghost n: nat)
      returns (ghost ctx': Context)
      requires Focus(State(), ctx, t, node, rootParent)
      requires RedAt(ctx, t, n) && RedParent(ctx) && HasBlackParent(ctx.up) && ctx.up.LeftOf? && ctx.LeftOf?
      requires ColorOf(Sibling(ctx.up)) == Black
      requires RootKnown()
      modifies `mem, `root
      ensures Focus(State(), ctx', t, node, rootParent) && RedAt(ctx', t, n)
      ensures OrderAt(ctx', t) == OrderAt(ctx, t)
      ensures !RedParent(ctx') && mem.Keys == old(mem.Keys)
    {
      StraightRotationRepairs(ctx, t, n);
      var parent, grand := ParentAndGrandparent(node, ctx, t);
      GrandparentOfRoot(State(), ctx, t, node, rootParent);
      ghost var s' := StraightRightPointers(State(), ctx, t, node, rootParent);
      mem := SetColor(mem, parent, Black);
      mem := SetColor(mem, mem[parent].parent, Red);
      RightRotate(mem[parent].parent);
      ctx' := LeftOf(Black, ctx.id, N(Red, ctx.right, ctx.up.id, ctx.up.right), ctx.up.up);
    }

    /** Black uncle, the red parent a left child: one or two rotations end the repair. */
    method RotateRedLeft(x: Id, ghost ctx: Context, ghost t: Tree, ghost n: nat)
      returns (node: Id, ghost ctx': Context, ghost t': Tree)
      requires Focus(State(), ctx, t, x, rootParent)
      requires RedAt(ctx, t, n) && RedParent(ctx) && HasBlackParent(ctx.up) && ctx.up.LeftOf?
      requires ColorOf(Sibling(ctx.up)) == Black
      requires RootKnown()
      modifies `mem, `root
      ensures Focus(State(), ctx', t', node, rootParent) && RedAt(ctx', t', n)
      ensures OrderAt(ctx', t') == OrderAt(ctx, t)
      ensures !RedParent(ctx') && mem.Keys == old(mem.Keys)
    {
      node, ctx', t' := x, ctx, t;
      var parent, grand := ParentAndGrandparent(x, ctx, t);
      if x == mem[parent].right {
        node, ctx', t' := StraightenLeft(x, ctx, t, n);
      }
      ctx' := RotateStraightLeft(node, ctx', t', n);
    }

    /** One round of the insertion repair for a red parent that is a left child. */
    method FixRedLeft(x: Id, ghost ctx: Context, ghost t: Tree, ghost n: nat)
      returns (node: Id, ghost ctx': Context, ghost t': Tree, ghost n': nat)
      requires Focus(State(), ctx, t, x, rootParent)
      requires RedAt(ctx, t, n) && RedParent(ctx) && ctx.up.LeftOf?
      requires RootKnown()
      modifies `mem, `root
      ensures Focus(State(), ctx', t', node, rootParent) && RedAt(ctx', t', n')
      ensures OrderAt(ctx', t') == OrderAt(ctx, t)
      ensures RedParent(ctx') ==> Depth(ctx') < Depth(ctx)
      ensures mem.Keys == old(mem.Keys)
    {
      RedParentHasGrandparent(ctx);
      var parent, grand := ParentAndGrandparent(x, ctx, t);
      var temp := mem[grand].right;
      if mem[temp].color == Red {
        n' := n + 1;
        node, ctx', t' := MoveRedUp(x, parent, temp, grand, ctx, t, n);
      } else {
        n' := n;
        node, ctx', t' := RotateRedLeft(x, ctx, t, n);
      }
    }

    /** Rotate an inner child to the outside: the path becomes straight. */
    method StraightenRight(x: Id, ghost ctx: Context, ghost t: Tree, ghost n: nat)
      returns (node: Id, ghost ctx': Context, ghost t': Tree)
      requires Focus(State(), ctx, t, x, rootParent)
      requires RedAt(ctx, t, n) && RedParent(ctx) && HasBlackParent(ctx.up) && ctx.up.RightOf? && ctx.LeftOf?
      requires RootKnown()
      modifies `mem, `root
      ensures Focus(State(), ctx', t', node, rootParent) && RedAt(ctx', t', n)
      ensures OrderAt(ctx', t') == OrderAt(ctx, t)
      ensures ctx'.RightOf? && ctx'.color == Red && ctx'.up == ctx.up && mem.Keys == old(mem.Keys)
    {
      BentRotationStraightens(ctx, t, n);
      ghost var s' := BentRightPointers(State(), ctx, t, x, rootParent);
      Ascend(State(), ctx, t, x, mem[x].parent, rootParent);
      node := mem[x].parent;
      ParentOfRoot(State(), ctx.up, Joined(ctx, t), node, rootParent);
      RightRotate(node);
      ctx', t' := RightOf(Red, t.id, t.left, ctx.up), N(Red, t.right, ctx.id, ctx.right);
    }

    /** A straight path: recolour and rotate at the grandparent. */
    method RotateStraightRight(node: Id, ghost ctx: Context, ghost t: Tree, ghost n: nat)
      returns (ghost ctx': Context)
      requires Focus(State(), ctx, t, node, rootParent)
      requires RedAt(ctx, t, n) && RedParent(ctx) && HasBlackParent(ctx.up) && ctx.up.RightOf? && ctx.RightOf?
      requires ColorOf(Sibling(ctx.up)) == Black
      requires RootKnown()
      modifies `mem, `root
      ensures Focus(State(), ctx', t, node, rootParent) && RedAt(ctx', t, n)
      ensures OrderAt(ctx', t) == OrderAt(ctx, t)
      ensures !RedParent(ctx') && mem.Keys == old(mem.Keys)
    {
      StraightRotationRepairs(ctx, t, n);
      var parent, grand := ParentAndGrandparent(node, ctx, t);
      GrandparentOfRoot(State(), ctx, t, node, rootParent);
      ghost var s' := StraightLeftPointers(State(), ctx, t, node, rootParent);
      mem := SetColor(mem, parent, Black);
      mem := SetColor(mem, mem[parent].parent, Red);
      LeftRotate(mem[parent].parent);
      ctx' := RightOf(Black, ctx.id, N(Red, ctx.up.left, ctx.up.id, ctx.left), ctx.up.up);
    }

    /** Black uncle, the red parent a right child: one or two rotations end the repair. */
    method RotateRedRight(x: Id, ghost ctx: Context, ghost t: Tree, ghost n: nat)
      returns (node: Id, ghost ctx': Context, ghost t': Tree)
      requires Focus(State(), ctx, t, x, rootParent)
      requires RedAt(ctx, t, n) && RedParent(ctx) && HasBlackParent(ctx.up) && ctx.up.RightOf?
      requires ColorOf(Sibling(ctx.up)) == Black
      requires RootKnown()
      modifies `mem, `root
      ensures Focus(State(), ctx', t', node, rootParent) && RedAt(ctx', t', n)
      ensures OrderAt(ctx', t') == OrderAt(ctx, t)
      ensures !RedParent(ctx') && mem.Keys == old(mem.Keys)
    {
      node, ctx', t' := x, ctx, t;
      var parent, grand := ParentAndGrandparent(x, ctx, t);
      if x == mem[parent].left {
        node, ctx', t' := StraightenRight(x, ctx, t, n);
      }
      ctx' := RotateStraightRight(node, ctx', t', n);
    }

    /** One round of the insertion repair for a red parent that is a right child. */
    method FixRedRight(x: Id, ghost ctx: Context, ghost t: Tree, ghost n: nat)
      returns (node: Id, ghost ctx': Context, ghost t': Tree, ghost n': nat)
      requires Focus(State(), ctx, t, x, rootParent)
      requires RedAt(ctx, t, n) && RedParent(ctx) && ctx.up.RightOf?
      requires RootKnown()
      modifies `mem, `root
      ensures Focus(State(), ctx', t', node, rootParent) && RedAt(ctx', t', n')
      ensures OrderAt(ctx', t') == OrderAt(ctx, t)
      ensures RedParent(ctx') ==> Depth(ctx') < Depth(ctx)
      ensures mem.Keys == old(mem.Keys)
    {
      RedParentHasGrandparent(ctx);
      var parent, grand := ParentAndGrandparent(x, ctx, t);
      var temp := mem[grand].left;
      if mem[temp].color == Red {
        n' := n + 1;
        node, ctx', t' := MoveRedUp(x, parent, temp, grand, ctx, t, n);
      } else {
        n' := n;
        node, ctx', t' := RotateRedRight(x, ctx, t, n);
      }
    }

    /** The sibling on the right is red: afterwards it is black, and the parent red. */
    method TurnRedSiblingLeft(temp: Id, w: Id, ghost ctx: Context, ghost t: Tree, ghost n: nat)
      returns (ghost ctx': Context)
      requires Focus(State(), ctx, t, temp, rootParent) && Short(ctx, t, n)
      requires ctx.LeftOf? && ColorOf(ctx.right) == Red && w == ctx.right.id
      requires RootKnown()
      modifies `mem, `root
      ensures Focus(State(), ctx', t, temp, rootParent) && Short(ctx', t, n)
      ensures ctx'.LeftOf? && ctx'.color == Red && ColorOf(Sibling(ctx')) == Black
      ensures OrderAt(ctx', t) == OrderAt(ctx, t) && mem.Keys == old(mem.Keys)
    {
      SiblingFacts(State(), ctx, t, temp, rootParent);
      RedSiblingTurnsLeft(ctx, t, n);
      SiblingsAreBelow(State(), ctx, t, temp, rootParent);
      ghost var s' := RedSiblingLeftPointers(State(), ctx, t, temp, rootParent);
      mem := SetColor(mem, w, Black);
      mem := SetColor(mem, mem[temp].parent, Red);
      LeftRotate(mem[temp].parent);
      ghost var w := ctx.right;
      ctx' := LeftOf(Red, ctx.id, w.left, LeftOf(Black, w.id, w.right, ctx.up));
    }

    /** The sibling's near child alone is red: afterwards its far child is. */
    method TurnNearRedLeft(temp: Id, w: Id, ghost ctx: Context, ghost t: Tree, ghost n: nat)
      returns (ghost ctx': Context)
      requires Focus(State(), ctx, t, temp, rootParent) && Short(ctx, t, n)
      requires ctx.LeftOf? && ctx.right.N? && ctx.right.color == Black && w == ctx.right.id
      requires ColorOf(ctx.right.right) == Black && ColorOf(ctx.right.left) == Red
      requires RootKnown()
      modifies `mem, `root
      ensures Focus(State(), ctx', t, temp, rootParent) && Short(ctx', t, n)
      ensures ctx'.LeftOf? && ctx'.color == ctx.color && ctx'.up == ctx.up
      ensures ctx'.right.N? && ctx'.right.color == Black && ColorOf(ctx'.right.right) == Red
      ensures OrderAt(ctx', t) == OrderAt(ctx, t) && mem.Keys == old(mem.Keys)
    {
      SiblingFacts(State(), ctx, t, temp, rootParent);
      NearRedTurnsLeft(ctx, t, n);
      SiblingsAreBelow(State(), ctx, t, temp, rootParent);
      ghost var s' := NearRedLeftPointers(State(), ctx, t, temp, rootParent);
      mem := SetColor(mem, mem[w].left, Black);
      mem := SetColor(mem, w, Red);
      RightRotate(w);
      ghost var w := ctx.right;
      ctx' := WithSibling(ctx, N(Black, w.left.left, w.left.id, N(Red, w.left.right, w.id, w.right)));
    }

    /** The sibling takes the parent's colour; the parent and the sibling's far child become black. */
    method PaintThree(temp: Id, w: Id, far: Id)
      requires temp in mem && w in mem && far in mem && mem[temp].parent in mem
      modifies `mem
      ensures
        var p := old(mem)[temp].parent;
        State() == Painted(Painted(Painted(old(State()), w, old(mem)[p].color), p, Black), far, Black)
      ensures mem[temp].parent == old(mem)[temp].parent
    {
      mem := SetColor(mem, w, mem[mem[temp].parent].color);
      mem := SetColor(mem, mem[temp].parent, Black);
      mem := SetColor(mem, far, Black);
    }

    /** The three assignments and the rotation for a red far child. */
    method RotateFarRedLeft(temp: Id, w: Id, ghost ctx: Context, ghost t: Tree)
      returns (ghost whole: Tree)
      requires Focus(State(), ctx, t, temp, rootParent)
      requires ctx.LeftOf? && ctx.right.N? && ctx.right.right.N? && w == ctx.right.id
      requires RootKnown()
      modifies `mem, `root
      ensures var w := ctx.right; whole == N(ctx.color, N(Black, t, ctx.id, w.left), w.id, Blackened(w.right))
      ensures Focus(State(), ctx.up, whole, w, rootParent)
      ensures OrderAt(ctx.up, whole) == OrderAt(ctx, t) && mem.Keys == old(mem.Keys)
    {
      SiblingFacts(State(), ctx, t, temp, rootParent);
      SiblingsAreBelow(State(), ctx, t, temp, rootParent);
      ghost var s' := FarRedLeftPointers(State(), ctx, t, temp, rootParent);
      PaintThree(temp, w, mem[w].right);
      LeftRotate(mem[temp].parent);
      ghost var w := ctx.right;
      whole := N(ctx.color, N(Black, t, ctx.id, w.left), w.id, Blackened(w.right));
    }

    /** The sibling's far child is red: the shortage is repaired and the loop ends at the root. */
    method SettleFarRedLeft(temp: Id, w: Id, ghost ctx: Context, ghost t: Tree, ghost n: nat)
      returns (node: Id, ghost t': Tree, ghost n': nat)
      requires Focus(State(), ctx, t, temp, rootParent) && Short(ctx, t, n) && ColorOf(t) == Black
      requires ctx.LeftOf? && ctx.right.N? && ctx.right.color == Black && w == ctx.right.id
      requires ColorOf(ctx.right.right) == Red
      requires RootKnown()
      modifies `mem, `root
      ensures Focus(State(), Top, t', node, rootParent) && Short(Top, t', n')
      ensures OrderAt(Top, t') == OrderAt(ctx, t) && mem.Keys == old(mem.Keys)
    {
      FarRedRepairsLeft(ctx, t, n);
      ghost var whole := RotateFarRedLeft(temp, w, ctx, t);
      t', n' := BackToRoot(State(), ctx.up, whole, w, rootParent, n + 1 + Weight(ctx.color));
      node := root;
    }

    /** The sibling and its children are black: it turns red, and the shortage moves up. */
    method MoveShortUp(temp: Id, w: Id, ghost ctx: Context, ghost t: Tree, ghost n: nat)
      returns (node: Id, ghost t': Tree, ghost n': nat)
      requires Focus(State(), ctx, t, temp, rootParent) && Short(ctx, t, n) && ColorOf(t) == Black && !ctx.Top?
      requires Sibling(ctx).N? && Sibling(ctx).color == Black && w == Sibling(ctx).id
      requires ColorOf(Sibling(ctx).left) == Black && ColorOf(Sibling(ctx).right) == Black
      modifies `mem
      ensures Focus(State(), ctx.up, t', node, rootParent) && Short(ctx.up, t', n')
      ensures OrderAt(ctx.up, t') == OrderAt(ctx, t) && mem.Keys == old(mem.Keys) && ColorOf(t') == ctx.color
    {
      SiblingFacts(State(), ctx, t, temp, rootParent);
      ShortageMovesUp(ctx, t, n);
      ghost var s' := ShortageUpPointers(State(), ctx, t, temp, rootParent);
      node := mem[temp].parent;
      mem := SetColor(mem, w, Red);
      t' := Joined(WithSibling(ctx, Sibling(ctx).(color := Red)), t);
      n' := n + Weight(ctx.color);
    }

    /** The sibling is black: recolour and move up, or rotate and be done. */
    method SettleBlackSiblingLeft(temp: Id, w0: Id, ghost ctx0: Context, ghost t: Tree, ghost n: nat)
      returns (node: Id, ghost ctx': Context, ghost t': Tree, ghost n': nat)
      requires Focus(State(), ctx0, t, temp, rootParent) && Short(ctx0, t, n) && ColorOf(t) == Black
      requires ctx0.LeftOf? && ctx0.right.N? && ctx0.right.color == Black && w0 == ctx0.right.id
      requires RootKnown()
      modifies `mem, `root
      ensures Focus(State(), ctx', t', node, rootParent) && Short(ctx', t', n')
      ensures OrderAt(ctx', t') == OrderAt(ctx0, t) && mem.Keys == old(mem.Keys)
      ensures ctx'.Top? || (ctx' == ctx0.up && ColorOf(t') == ctx0.color)
    {
      ghost var ctx := ctx0;
      var w := w0;
      SiblingFacts(State(), ctx, t, temp, rootParent);
      if mem[mem[w].left].color == Black && mem[mem[w].right].color == Black {
        ctx' := ctx.up;
        node, t', n' := MoveShortUp(temp, w, ctx, t, n);
      } else {
        if mem[mem[w].right].color == Black {
          ctx := TurnNearRedLeft(temp, w, ctx, t, n);
          SiblingFacts(State(), ctx, t, temp, rootParent);
          w := mem[mem[temp].parent].right;
        }
        ctx' := Top;
        node, t', n' := SettleFarRedLeft(temp, w, ctx, t, n);
      }
    }

    /** One round of the deletion repair for a short left child. */
    method FixShortLeft(temp: Id, ghost ctx0: Context, ghost t: Tree, ghost n: nat)
      returns (node: Id, ghost ctx': Context, ghost t': Tree, ghost n': nat)
      requires Focus(State(), ctx0, t, temp, rootParent) && Short(ctx0, t, n)
      requires ctx0.LeftOf? && ColorOf(t) == Black
      requires RootKnown()
      modifies `mem, `root
      ensures Focus(State(), ctx', t', node, rootParent) && Short(ctx', t', n')
      ensures OrderAt(ctx', t') == OrderAt(ctx0, t) && mem.Keys == old(mem.Keys)
      ensures !ctx'.Top? && ColorOf(t') == Black ==> Depth(ctx') < Depth(ctx0)
    {
      ghost var ctx := ctx0;
      ShortHasSibling(ctx, t, n);
      SiblingFacts(State(), ctx, t, temp, rootParent);
      var w := mem[mem[temp].parent].right;
      if mem[w].color == Red {
        ctx := TurnRedSiblingLeft(temp, w, ctx, t, n);
        ShortHasSibling(ctx, t, n);
        SiblingFacts(State(), ctx, t, temp, rootParent);
        w := mem[mem[temp].parent].right;
      }
      node, ctx', t', n' := SettleBlackSiblingLeft(temp, w, ctx, t, n);
    }

    /** The sibling on the left is red: afterwards it is black, and the parent red. */
    method TurnRedSiblingRight(temp: Id, w: Id, ghost ctx: Context, ghost t: Tree, ghost n: nat)
      returns (ghost ctx': Context)
      requires Focus(State(), ctx, t, temp, rootParent) && Short(ctx, t, n)
      requires ctx.RightOf? && ColorOf(ctx.left) == Red && w == ctx.left.id
      requires RootKnown()
      modifies `mem, `root
      ensures Focus(State(), ctx', t, temp, rootParent) && Short(ctx', t, n)
      ensures ctx'.RightOf? && ctx'.color == Red && ColorOf(Sibling(ctx')) == Black
      ensures OrderAt(ctx', t) == OrderAt(ctx, t) && mem.Keys == old(mem.Keys)
    {
      SiblingFacts(State(), ctx, t, temp, rootParent);
      RedSiblingTurnsRight(ctx, t, n);
      SiblingsAreBelow(State(), ctx, t, temp, rootParent);
      ghost var s' := RedSiblingRightPointers(State(), ctx, t, temp, rootParent);
      mem := SetColor(mem, w, Black);
      mem := SetColor(mem, mem[temp].parent, Red);
      RightRotate(mem[temp].parent);
      ghost var w := ctx.left;
      ctx' := RightOf(Red, ctx.id, w.right, RightOf(Black, w.id, w.left, ctx.up));
    }

    /** The sibling's near child alone is red: afterwards its far child is. */
    method TurnNearRedRight(temp: Id, w: Id, ghost ctx: Context, ghost t: Tree, ghost n: nat)
      returns (ghost ctx': Context)
      requires Focus(State(), ctx, t, temp, rootParent) && Short(ctx, t, n)
      requires ctx.RightOf? && ctx.left.N? && ctx.left.color == Black && w == ctx.left.id
      requires ColorOf(ctx.left.left) == Black && ColorOf(ctx.left.right) == Red
      requires RootKnown()
      modifies `mem, `root
      ensures Focus(State(), ctx', t, temp, rootParent) && Short(ctx', t, n)
      ensures ctx'.RightOf? && ctx'.color == ctx.color && ctx'.up == ctx.up
      ensures ctx'.left.N? && ctx'.left.color == Black && ColorOf(ctx'.left.left) == Red
      ensures OrderAt(ctx', t) == OrderAt(ctx, t) && mem.Keys == old(mem.Keys)
    {
      SiblingFacts(State(), ctx, t, temp, rootParent);
      NearRedTurnsRight(ctx, t, n);
      SiblingsAreBelow(State(), ctx, t, temp, rootParent);
      ghost var s' := NearRedRightPointers(State(), ctx, t, temp, rootParent);
      mem := SetColor(mem, mem[w].right, Black);
      mem := SetColor(mem, w, Red);
      LeftRotate(w);
      ghost var w := ctx.left;
      ctx' := WithSibling(ctx, N(Black, N(Red, w.left, w.id, w.right.left), w.right.id, w.right.right));
    }

    /** The three assignments and the rotation for a red far child. */
    method RotateFarRedRight(temp: Id, w: Id, ghost ctx: Context, ghost t: Tree)
      returns (ghost whole: Tree)
      requires Focus(State(), ctx, t, temp, rootParent)
      requires ctx.RightOf? && ctx.left.N? && ctx.left.left.N? && w == ctx.left.id
      requires RootKnown()
      modifies `mem, `root
      ensures var w := ctx.left; whole == N(ctx.color, Blackened(w.left), w.id, N(Black, w.right, ctx.id, t))
      ensures Focus(State(), ctx.up, whole, w, rootParent)
      ensures OrderAt(ctx.up, whole) == OrderAt(ctx, t) && mem.Keys == old(mem.Keys)
    {
      SiblingFacts(State(), ctx, t, temp, rootParent);
      SiblingsAreBelow(State(), ctx, t, temp, rootParent);
      ghost var s' := FarRedRightPointers(State(), ctx, t, temp, rootParent);
      PaintThree(temp, w, mem[w].left);
      RightRotate(mem[temp].parent);
      ghost var w := ctx.left;
      whole := N(ctx.color, Blackened(w.left), w.id, N(Black, w.right, ctx.id, t));
    }

    /** The sibling's far child is red: the shortage is repaired and the loop ends at the root. */
    method SettleFarRedRight(temp: Id, w: Id, ghost ctx: Context, ghost t: Tree, ghost n: nat)
      returns (node: Id, ghost t': Tree, ghost n': nat)
      requires Focus(State(), ctx, t, temp, rootParent) && Short(ctx, t, n) && ColorOf(t) == Black
      requires ctx.RightOf? && ctx.left.N? && ctx.left.color == Black && w == ctx.left.id
      requires ColorOf(ctx.left.left) == Red
      requires RootKnown()
      modifies `mem, `root
      ensures Focus(State(), Top, t', node, rootParent) && Short(Top, t', n')
      ensures OrderAt(Top, t') == OrderAt(ctx, t) && mem.Keys == old(mem.Keys)
    {
      FarRedRepairsRight(ctx, t, n);
      ghost var whole := RotateFarRedRight(temp, w, ctx, t);
      t', n' := BackToRoot(State(), ctx.up, whole, w, rootParent, n + 1 + Weight(ctx.color));
      node := root;
    }

    /** The sibling is black: recolour and move up, or rotate and be done. */
    method SettleBlackSiblingRight(temp: Id, w0: Id, ghost ctx0: Context, ghost t: Tree, ghost n: nat)
      returns (node: Id, ghost ctx': Context, ghost t': Tree, ghost n': nat)
      requires Focus(State(), ctx0, t, temp, rootParent) && Short(ctx0, t, n) && ColorOf(t) == Black
      requires ctx0.RightOf? && ctx0.left.N? && ctx0.left.color == Black && w0 == ctx0.left.id
      requires RootKnown()
      modifies `mem, `root
      ensures Focus(State(), ctx', t', node, rootParent) && Short(ctx', t', n')
      ensures OrderAt(ctx', t') == OrderAt(ctx0, t) && mem.Keys == old(mem.Keys)
      ensures ctx'.Top? || (ctx' == ctx0.up && ColorOf(t') == ctx0.color)
    {
      ghost var ctx := ctx0;
      var w := w0;
      SiblingFacts(State(), ctx, t, temp, rootParent);
      if mem[mem[w].left].color == Black && mem[mem[w].right].color == Black {
        ctx' := ctx.up;
        node, t', n' := MoveShortUp(temp, w, ctx, t, n);
      } else {
        if mem[mem[w].left].color == Black {
          ctx := TurnNearRedRight(temp, w, ctx, t, n);
          SiblingFacts(State(), ctx, t, temp, rootParent);
          w := mem[mem[temp].parent].left;
        }
        ctx' := Top;
        node, t', n' := SettleFarRedRight(temp, w, ctx, t, n);
      }
    }

    /** One round of the deletion repair for a short right child. */
    method FixShortRight(temp: Id, ghost ctx0: Context, ghost t: Tree, ghost n: nat)
      returns (node: Id, ghost ctx': Context, ghost t': Tree, ghost n': nat)
      requires Focus(State(), ctx0, t, temp, rootParent) && Short(ctx0, t, n)
      requires ctx0.RightOf? && ColorOf(t) == Black
      requires RootKnown()
      modifies `mem, `root
      ensures Focus(State(), ctx', t', node, rootParent) && Short(ctx', t', n')
      ensures OrderAt(ctx', t') == OrderAt(ctx0, t) && mem.Keys == old(mem.Keys)
      ensures !ctx'.Top? && ColorOf(t') == Black ==> Depth(ctx') < Depth(ctx0)
    {
      ghost var ctx := ctx0;
      ShortHasSibling(ctx, t, n);
      SiblingFacts(State(), ctx, t, temp, rootParent);
      var w := mem[mem[temp].parent].left;
      if mem[w].color == Red {
        ctx := TurnRedSiblingRight(temp, w, ctx, t, n);
        ShortHasSibling(ctx, t, n);
        SiblingFacts(State(), ctx, t, temp, rootParent);
        w := mem[mem[temp].parent].left;
      }
      node, ctx', t', n' := SettleBlackSiblingRight(temp, w, ctx, t, n);
    }

    /** Store the node in the chosen link of `temp`. */
    method HangNode(temp: Id, node: Id, left: bool, ghost ctx: Context)
      requires At(State(), ctx, E, NIL, temp, rootParent) && !ctx.Top? && left == ctx.LeftOf?
      requires node in mem && node != NIL && node !in IdsAround(ctx)
      modifies `mem
      ensures Focus(State(), ctx, N(Red, E, node, E), node, rootParent)
      ensures mem.Keys == old(mem.Keys)
    {
      HangLeaf(State(), ctx, temp, rootParent, node);
      mem := if left then SetLeft(mem, temp, node) else SetRight(mem, temp, node);
      LeafMade(mem, node, temp);
      mem := SetParent(mem, node, temp);
      mem := SetLeft(mem, node, NIL);
      mem := SetRight(mem, node, NIL);
      mem := SetColor(mem, node, Red);
    }

    /** The leftmost node of a subtree. */
    method Min(start: Id, ghost ctx: Context, ghost t: Tree)
      returns (node: Id, ghost inner: Context, ghost last: Tree)
      requires Focus(State(), ctx, t, start, rootParent) && t.N?
      ensures LeftSpine(inner) && t == Plug(inner, last) && last.N? && last.left.E?
      ensures node == last.id && node in mem && node != NIL && mem[node].left == NIL
      ensures mem[node].color == last.color
      ensures Order(t) != [] && node == Order(t)[0]
    {
      node, inner, last := start, Top, t;
      DescendLeft(State(), ctx, t, start, mem[start].parent, rootParent);
      while mem[node].left != NIL
        invariant LeftSpine(inner) && t == Plug(inner, last) && last.N?
        invariant Focus(State(), Append(inner, ctx), last, node, rootParent)
        invariant mem[node].left == NIL <==> last.left.E?
        decreases last
      {
        DescendLeft(State(), Append(inner, ctx), last, node, mem[node].parent, rootParent);
        inner, last := LeftOf(last.color, node, last.right, inner), last.left;
        node := mem[node].left;
        DescendLeft(State(), Append(inner, ctx), last, node, mem[node].parent, rootParent);
      }
      DescendLeft(State(), Append(inner, ctx), last, node, mem[node].parent, rootParent);
      OrderAppend(inner, Top);
      OrderPlug(inner, last);
      assert Order(last)[0] == node by {
        assert Order(last.left) == [];
      }
    }
  }
}
