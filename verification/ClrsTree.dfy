/** The red-black tree of "1. Data_structure/rbtree.c", in the manner of the textbook by Cormen,
    Leiserson, Rivest and Stein: keys are unique, the root's parent is the sentinel, and a node with
    two children is deleted by copying its successor into it and unlinking the successor. */
module ClrsTree {
  import opened RedBlackShapes
  import opened RedBlackLinks
  import opened RedBlackRepair

  // ---------------------------------------------------------------- the finite map

  ghost predicate Sorted(nodes: seq<Id>, key: map<Id, int>) {
    && (forall i :: 0 <= i < |nodes| ==> nodes[i] in key)
    && forall i, j :: 0 <= i < j < |nodes| ==> key[nodes[i]] < key[nodes[j]]
  }

  ghost predicate Within(nodes: seq<Id>, key: map<Id, int>, value: map<Id, int>) {
    forall i :: 0 <= i < |nodes| ==> nodes[i] in key && nodes[i] in value
  }

  /** The map that the nodes store. */
  ghost function MapOf(nodes: seq<Id>, key: map<Id, int>, value: map<Id, int>): map<int, int>
    requires Within(nodes, key, value)
  {
    if nodes == [] then map[]
    else
      var last := nodes[|nodes| - 1];
      MapOf(nodes[..|nodes| - 1], key, value)[key[last] := value[last]]
  }

  lemma {:induction false} MapHolds(nodes: seq<Id>, key: map<Id, int>, value: map<Id, int>)
    requires Within(nodes, key, value) && Sorted(nodes, key)
    ensures forall i :: 0 <= i < |nodes| ==>
      key[nodes[i]] in MapOf(nodes, key, value) && MapOf(nodes, key, value)[key[nodes[i]]] == value[nodes[i]]
    ensures forall k :: k in MapOf(nodes, key, value) ==> exists i :: 0 <= i < |nodes| && key[nodes[i]] == k
  {
    if nodes != [] {
      var n := |nodes| - 1;
      var front := nodes[..n];
      MapHolds(front, key, value);
      assert forall i :: 0 <= i < n ==> front[i] == nodes[i];
      forall k | k in MapOf(nodes, key, value) ensures exists i :: 0 <= i < |nodes| && key[nodes[i]] == k {
        if k in MapOf(front, key, value) {
          var i :| 0 <= i < n && key[front[i]] == k;
          assert key[nodes[i]] == k;
        } else {
          assert key[nodes[n]] == k;
        }
      }
    }
  }

  /** As many keys as nodes. */
  lemma {:induction false} MapSize(nodes: seq<Id>, key: map<Id, int>, value: map<Id, int>)
    requires Within(nodes, key, value) && Sorted(nodes, key)
    ensures |MapOf(nodes, key, value)| == |nodes|
  {
    if nodes != [] {
      var n := |nodes| - 1;
      MapSize(nodes[..n], key, value);
      MapHolds(nodes[..n], key, value);
      var front, k := MapOf(nodes[..n], key, value), key[nodes[n]];
      assert k !in front;
      assert front[k := value[nodes[n]]].Keys == front.Keys + {k};
      assert |front| == |front.Keys|;
    }
  }

  /** m holds what the nodes store, and nothing else. */
  ghost predicate Stores(nodes: seq<Id>, key: map<Id, int>, value: map<Id, int>, m: map<int, int>)
    requires Within(nodes, key, value)
  {
    && (forall i :: 0 <= i < |nodes| ==> key[nodes[i]] in m && m[key[nodes[i]]] == value[nodes[i]])
    && forall k :: k in m ==> exists i :: 0 <= i < |nodes| && key[nodes[i]] == k
  }

  lemma MapIs(nodes: seq<Id>, key: map<Id, int>, value: map<Id, int>, m: map<int, int>)
    requires Within(nodes, key, value) && Sorted(nodes, key) && Stores(nodes, key, value, m)
    ensures MapOf(nodes, key, value) == m
  {
    MapHolds(nodes, key, value);
    var a := MapOf(nodes, key, value);
    forall k | k in a ensures k in m && m[k] == a[k] {
      var i :| 0 <= i < |nodes| && key[nodes[i]] == k;
    }
    forall k | k in m ensures k in a {
      var i :| 0 <= i < |nodes| && key[nodes[i]] == k;
    }
  }

  lemma LongerAt(nodes: seq<Id>, p: int, x: Id, i: int)
    requires 0 <= p <= |nodes| && 0 <= i <= |nodes|
    ensures (nodes[..p] + [x] + nodes[p..])[i] == if i < p then nodes[i] else if i == p then x else nodes[i - 1]
  {
  }

  /** One more node: one more key. */
  lemma MapWith(nodes: seq<Id>, p: int, x: Id, key: map<Id, int>, value: map<Id, int>)
    requires 0 <= p <= |nodes| && Within(nodes, key, value) && x in key && x in value
    requires Sorted(nodes, key) && Sorted(nodes[..p] + [x] + nodes[p..], key)
    ensures Within(nodes[..p] + [x] + nodes[p..], key, value)
    ensures MapOf(nodes[..p] + [x] + nodes[p..], key, value) == MapOf(nodes, key, value)[key[x] := value[x]]
  {
    var longer := nodes[..p] + [x] + nodes[p..];
    var m := MapOf(nodes, key, value)[key[x] := value[x]];
    MapHolds(nodes, key, value);
    LongerAt(nodes, p, x, p);
    forall i | 0 <= i < |longer|
      ensures longer[i] in key && longer[i] in value && key[longer[i]] in m && m[key[longer[i]]] == value[longer[i]]
    {
      LongerAt(nodes, p, x, i);
    }
    forall k | k in m ensures exists i :: 0 <= i < |longer| && key[longer[i]] == k {
      if k == key[x] {
        assert key[longer[p]] == k;
      } else {
        HeldInLonger(nodes, p, x, key, value, k);
      }
    }
    MapIs(longer, key, value, m);
  }

  lemma HeldInLonger(nodes: seq<Id>, p: int, x: Id, key: map<Id, int>, value: map<Id, int>, k: int)
    requires 0 <= p <= |nodes| && Within(nodes, key, value) && Sorted(nodes, key) && k in MapOf(nodes, key, value)
    ensures
      var longer := nodes[..p] + [x] + nodes[p..];
      exists i :: 0 <= i < |longer| && longer[i] in key && key[longer[i]] == k
  {
    MapHolds(nodes, key, value);
    var i :| 0 <= i < |nodes| && key[nodes[i]] == k;
    var j := if i < p then i else i + 1;
    LongerAt(nodes, p, x, j);
    assert (nodes[..p] + [x] + nodes[p..])[j] == nodes[i];
  }

  /** One node less: one key less. */
  lemma MapWithout(nodes: seq<Id>, p: int, x: Id, key: map<Id, int>, value: map<Id, int>)
    requires 0 <= p <= |nodes|
    requires
      var longer := nodes[..p] + [x] + nodes[p..];
      Sorted(longer, key) && Within(longer, key, value)
    ensures Sorted(nodes, key) && Within(nodes, key, value) && x in key
    ensures MapOf(nodes, key, value) == MapOf(nodes[..p] + [x] + nodes[p..], key, value) - {key[x]}
  {
    WithoutOne(nodes, p, x, key, value);
    MapWith(nodes, p, x, key, value);
    NotAKey(nodes, key, value, key[x]);
    MapBack(MapOf(nodes, key, value), key[x], value[x]);
  }

  lemma WithoutOne(nodes: seq<Id>, p: int, x: Id, key: map<Id, int>, value: map<Id, int>)
    requires 0 <= p <= |nodes|
    requires
      var longer := nodes[..p] + [x] + nodes[p..];
      Sorted(longer, key) && Within(longer, key, value)
    ensures Sorted(nodes, key) && Within(nodes, key, value) && x in key && x in value
    ensures forall i :: 0 <= i < |nodes| ==> key[nodes[i]] != key[x]
  {
    var longer := nodes[..p] + [x] + nodes[p..];
    LongerAt(nodes, p, x, p);
    forall i | 0 <= i < |nodes| ensures nodes[i] == longer[if i < p then i else i + 1] {
      LongerAt(nodes, p, x, if i < p then i else i + 1);
    }
    SubsetSorted(nodes, p, longer, key);
    forall i | 0 <= i < |nodes| ensures key[nodes[i]] != key[x] && nodes[i] in value {
      var j := if i < p then i else i + 1;
      assert key[longer[j]] != key[longer[p]];
    }
  }

  lemma NotAKey(nodes: seq<Id>, key: map<Id, int>, value: map<Id, int>, k: int)
    requires Sorted(nodes, key) && Within(nodes, key, value)
    requires forall i :: 0 <= i < |nodes| ==> key[nodes[i]] != k
    ensures k !in MapOf(nodes, key, value)
  {
    MapHolds(nodes, key, value);
  }

  lemma MapBack(m: map<int, int>, k: int, v: int)
    requires k !in m
    ensures m[k := v] - {k} == m
  {
  }

  lemma SubsetSorted(nodes: seq<Id>, p: int, longer: seq<Id>, key: map<Id, int>)
    requires Sorted(longer, key) && |longer| == |nodes| + 1
    requires forall i :: 0 <= i < |nodes| ==> nodes[i] == longer[if i < p then i else i + 1]
    ensures Sorted(nodes, key)
  {
    forall i, j | 0 <= i < j < |nodes| ensures nodes[i] in key && nodes[j] in key && key[nodes[i]] < key[nodes[j]] {
      assert nodes[i] == longer[if i < p then i else i + 1] && nodes[j] == longer[if j < p then j else j + 1];
    }
    forall i | 0 <= i < |nodes| ensures nodes[i] in key {
      assert nodes[i] == longer[if i < p then i else i + 1];
    }
  }

  /** The node between two stretches leaves. */
  lemma MapSpliced(before: seq<Id>, y: Id, after: seq<Id>, key: map<Id, int>, value: map<Id, int>)
    requires Sorted(before + [y] + after, key) && Within(before + [y] + after, key, value)
    ensures Sorted(before + after, key) && Within(before + after, key, value) && y in key
    ensures MapOf(before + after, key, value) == MapOf(before + [y] + after, key, value) - {key[y]}
  {
    var rest, n := before + after, |before|;
    assert rest[..n] == before && rest[n..] == after;
    MapWithout(rest, n, y, key, value);
  }

  /** The same keys and values in other nodes. */
  lemma {:induction false} MapRenamed(nodes: seq<Id>, key: map<Id, int>, value: map<Id, int>,
                                      nodes': seq<Id>, key': map<Id, int>, value': map<Id, int>)
    requires Within(nodes, key, value) && Within(nodes', key', value') && |nodes| == |nodes'|
    requires forall i :: 0 <= i < |nodes| ==> key'[nodes'[i]] == key[nodes[i]] && value'[nodes'[i]] == value[nodes[i]]
    ensures MapOf(nodes', key', value') == MapOf(nodes, key, value)
    ensures Sorted(nodes, key) ==> Sorted(nodes', key')
  {
    if nodes != [] {
      var n := |nodes| - 1;
      MapRenamed(nodes[..n], key, value, nodes'[..n], key', value');
    }
  }

  /** z takes over the key and the value of the node y behind it, which leaves: only z's key is gone. */
  lemma MapMoved(before: seq<Id>, z: Id, y: Id, after: seq<Id>, key: map<Id, int>, value: map<Id, int>)
    requires Sorted(before + [z, y] + after, key) && Within(before + [z, y] + after, key, value)
    ensures z in key && y in key && z in value && y in value
    ensures
      var key', value', nodes' := key[z := key[y]], value[z := value[y]], before + [z] + after;
      && Sorted(nodes', key') && Within(nodes', key', value')
      && MapOf(nodes', key', value') == MapOf(before + [z, y] + after, key, value) - {key[z]}
  {
    var tail := [y] + after;
    assert before + [z] + tail == before + [z, y] + after;
    assert (before + [z] + tail)[|before|] == z && tail[0] == y;
    MapSpliced(before, z, tail, key, value);
    NotAmong(before, z, tail, key);
    assert (before + tail)[|before|] == y;
    MapTaken(before, z, y, after, key, value);
  }

  /** z in the place of y, with its key and value. */
  lemma MapTaken(before: seq<Id>, z: Id, y: Id, after: seq<Id>, key: map<Id, int>, value: map<Id, int>)
    requires Sorted(before + ([y] + after), key) && Within(before + ([y] + after), key, value)
    requires z !in before + ([y] + after) && y in key && y in value
    ensures
      var key', value', nodes' := key[z := key[y]], value[z := value[y]], before + [z] + after;
      && Sorted(nodes', key') && Within(nodes', key', value')
      && MapOf(nodes', key', value') == MapOf(before + ([y] + after), key, value)
  {
    var rest, n := before + ([y] + after), |before|;
    var nodes', key', value' := before + [z] + after, key[z := key[y]], value[z := value[y]];
    forall i | 0 <= i < |rest|
      ensures nodes'[i] in key' && nodes'[i] in value'
      ensures key'[nodes'[i]] == key[rest[i]] && value'[nodes'[i]] == value[rest[i]]
    {
      assert if i == n then nodes'[i] == z && rest[i] == y else nodes'[i] == rest[i] && rest[i] != z;
    }
    MapRenamed(rest, key, value, nodes', key', value');
  }

  /** What is left when y leaves the nodes, and z, if it is the one before, takes over what y held. */
  lemma MapLeft(before0: seq<Id>, before: seq<Id>, y: Id, after: seq<Id>, z: Id,
                key0: map<Id, int>, value0: map<Id, int>, key: map<Id, int>, value: map<Id, int>)
    requires Sorted(before + [y] + after, key0) && Within(before + [y] + after, key0, value0)
    requires z in key0 && y in key0 && y in value0
    requires y == z ==> key == key0 && value == value0
    requires y != z ==> before == before0 + [z] && key == key0[z := key0[y]] && value == value0[z := value0[y]]
    ensures Sorted(before + after, key) && Within(before + after, key, value)
    ensures MapOf(before + after, key, value) == MapOf(before + [y] + after, key0, value0) - {key0[z]}
    ensures y !in before + after && (y != z ==> z in before + after)
  {
    NotAmong(before, y, after, key0);
    if y == z {
      MapSpliced(before, y, after, key0, value0);
    } else {
      assert before0 + [z] + [y] + after == before0 + [z, y] + after;
      MapMoved(before0, z, y, after, key0, value0);
      assert (before0 + [z] + after)[|before0|] == z;
    }
  }

  // ---------------------------------------------------------------- searching

  /** The comparisons with k lead to the hole. */
  predicate Leads(ctx: Context, key: map<Id, int>, k: int) {
    match ctx
    case Top => true
    case LeftOf(_, x, _, up) => x in key && k < key[x] && Leads(up, key, k)
    case RightOf(_, x, _, up) => x in key && k > key[x] && Leads(up, key, k)
  }

  lemma {:induction false} HoleNeighbours(ctx: Context, key: map<Id, int>, k: int)
    requires Leads(ctx, key, k)
    ensures
      var b, a := OrderBefore(ctx), OrderAfter(ctx);
      && (b != [] ==> b[|b| - 1] in key && key[b[|b| - 1]] < k)
      && (a != [] ==> a[0] in key && k < key[a[0]])
  {
    match ctx
    case Top =>
    case LeftOf(_, _, _, up) => HoleNeighbours(up, key, k);
    case RightOf(_, _, _, up) => HoleNeighbours(up, key, k);
  }

  /** Smaller keys are before the hole and greater ones behind it. */
  lemma HoleSplits(ctx: Context, key: map<Id, int>, k: int)
    requires Leads(ctx, key, k) && Sorted(Order(Plug(ctx, E)), key)
    ensures Order(Plug(ctx, E)) == OrderBefore(ctx) + OrderAfter(ctx)
    ensures forall i :: 0 <= i < |OrderBefore(ctx)| ==> OrderBefore(ctx)[i] in key && key[OrderBefore(ctx)[i]] < k
    ensures forall i :: 0 <= i < |OrderAfter(ctx)| ==> OrderAfter(ctx)[i] in key && k < key[OrderAfter(ctx)[i]]
  {
    OrderPlug(ctx, E);
    HoleNeighbours(ctx, key, k);
    assert OrderBefore(ctx) + [] + OrderAfter(ctx) == OrderBefore(ctx) + OrderAfter(ctx);
    SplitsAround(OrderBefore(ctx), OrderAfter(ctx), key, k);
  }

  lemma SplitsAround(before: seq<Id>, after: seq<Id>, key: map<Id, int>, k: int)
    requires Sorted(before + after, key)
    requires before != [] ==> before[|before| - 1] in key && key[before[|before| - 1]] < k
    requires after != [] ==> after[0] in key && k < key[after[0]]
    ensures forall i :: 0 <= i < |before| ==> before[i] in key && key[before[i]] < k
    ensures forall i :: 0 <= i < |after| ==> after[i] in key && k < key[after[i]]
  {
    var nodes, n := before + after, |before|;
    forall i | 0 <= i < n ensures before[i] in key && key[before[i]] < k {
      assert before[i] == nodes[i] && before[n - 1] == nodes[n - 1];
    }
    forall i | 0 <= i < |after| ensures after[i] in key && k < key[after[i]] {
      assert after[i] == nodes[n + i] && after[0] == nodes[n];
    }
  }

  lemma SortedWith(before: seq<Id>, x: Id, after: seq<Id>, key: map<Id, int>)
    requires Sorted(before + after, key) && x in key
    requires forall i :: 0 <= i < |before| ==> before[i] in key && key[before[i]] < key[x]
    requires forall i :: 0 <= i < |after| ==> after[i] in key && key[x] < key[after[i]]
    ensures Sorted(before + [x] + after, key)
  {
    var nodes, longer := before + after, before + [x] + after;
    assert nodes[..|before|] == before && nodes[|before|..] == after;
    forall i | 0 <= i < |longer| ensures longer[i] in key {
      LongerAt(nodes, |before|, x, i);
    }
    forall i, j | 0 <= i < j < |longer| ensures key[longer[i]] < key[longer[j]] {
      LongerAt(nodes, |before|, x, i);
      LongerAt(nodes, |before|, x, j);
      assert i < |before| ==> nodes[i] == before[i];
      assert j > |before| ==> nodes[j - 1] == after[j - 1 - |before|];
    }
  }

  lemma NotAmong(before: seq<Id>, y: Id, after: seq<Id>, key: map<Id, int>)
    requires Sorted(before + [y] + after, key)
    ensures y !in before + after
  {
    var s := before + [y] + after;
    assert s[|before|] == y;
    assert forall i :: 0 <= i < |before| ==> s[i] == before[i];
    assert forall i :: 0 <= i < |after| ==> s[|before| + 1 + i] == after[i];
  }

  // ---------------------------------------------------------------- unlinking

  /** The leftmost node of the right subtree, in the focus. */
  lemma SuccessorFocus(s: Linked, whole: RedBlackShapes.Tree, ctx: Context, t: RedBlackShapes.Tree,
                       inner: Context, last: RedBlackShapes.Tree)
    requires At(s, Top, whole, s.root, NIL, NIL) && Plug(ctx, t) == whole && t.N?
    requires LeftSpine(inner) && t.right == Plug(inner, last) && last.N? && last.left.E?
    ensures
      var cy := Append(inner, RightOf(t.color, t.id, t.left, ctx));
      && Focus(s, cy, last, last.id, NIL) && Plug(cy, last) == whole && last.id != t.id
      && NodesBefore(cy, last) == NodesBefore(ctx, t) + [t.id]
  {
    var outer := RightOf(t.color, t.id, t.left, ctx);
    var cy := Append(inner, outer);
    PlugAppend(inner, outer, last);
    var x, p := UnplugRep(s.mem, cy, last, s.root, NIL);
    DistinctPlug(cy, last);
    OrderAppend(inner, outer);
    IdsAppend(inner, outer);
    assert Order(last.left) == [];
    assert OrderBefore(cy) + [] == OrderBefore(cy);
  }

  /** The link from p to x and the link back may be set in either order. */
  lemma LinkAndParent(m: Mem, p: Id, x: Id)
    requires p in m && x in m
    ensures SetLeft(SetParent(m, x, p), p, x) == SetParent(SetLeft(m, p, x), x, p)
    ensures SetRight(SetParent(m, x, p), p, x) == SetParent(SetRight(m, p, x), x, p)
  {
  }

  /** The assignments that unlink y: the memory after them. */
  lemma UnlinkFacts(s: Linked, cy: Context, ty: RedBlackShapes.Tree, y: Id, x: Id, child: RedBlackShapes.Tree)
    returns (m: Mem)
    requires Focus(s, cy, ty, y, NIL) && ty.N?
    requires (ty.left.E? && child == ty.right && x == s.mem[y].right)
          || (ty.right.E? && child == ty.left && x == s.mem[y].left)
    ensures x in s.mem && x != y && s.mem[y].parent in s.mem
    ensures
      var p := s.mem[y].parent;
      var m1 := SetParent(s.mem, x, p);
      && m == (if p == NIL then m1 else if y == s.mem[p].left then SetLeft(m1, p, x) else SetRight(m1, p, x))
      && m1[y] == s.mem[y] && (p != NIL ==> m1[p].left == s.mem[p].left && p != y)
      && Focus(Linked(m, if p == NIL then x else s.root), cy, child, x, NIL) && m.Keys == s.mem.Keys
  {
    var p := s.mem[y].parent;
    ParentOfRoot(s, cy, ty, y, NIL);
    DescendLeft(s, cy, ty, y, p, NIL);
    DescendRight(s, cy, ty, y, p, NIL);
    RepIds(s.mem, child, x, y);
    var m1 := SetParent(s.mem, x, p);
    if cy.Top? {
      m := m1;
      if child.N? {
        Reparent(s.mem, child, x, y, p);
      }
    } else {
      Ascend(s, cy, ty, y, p, NIL);
      AroundIds(s.mem, cy, y, p, s.root, NIL);
      BypassSelf(s, cy, ty, y, NIL, child, x);
      LinkAndParent(s.mem, p, x);
      m := if y == s.mem[p].left then SetLeft(m1, p, x) else SetRight(m1, p, x);
    }
  }

  class Tree {
    const links: Links                   // the nodes and the root pointer; rotations test the parent field
    var key: map<Id, int>
    var value: map<Id, int>
    ghost var shape: RedBlackShapes.Tree

    ghost function Nodes(): seq<Id>
      reads this, links
    {
      Order(shape)
    }

    /** The tree is linked and red-black. */
    ghost predicate Shaped()
      reads this, links
    {
      && At(links.State(), Top, shape, links.root, NIL, NIL) && RedBlack(shape)
      && links.byParent && links.rootParent == NIL
    }

    ghost predicate Valid()
      reads this, links
    {
      Shaped() && Sorted(Nodes(), key) && Within(Nodes(), key, value)
    }

    /** The finite map that the tree stands for. */
    ghost function Contents(): map<int, int>
      requires Valid()
      reads this, links
    {
      MapOf(Nodes(), key, value)
    }

    /** An empty tree over nodes that are not in it yet; the sentinel is black. */
    constructor (nodes: Mem, key: map<Id, int>, value: map<Id, int>)
      requires NIL in nodes
      ensures Valid() && Contents() == map[] && links.mem.Keys == nodes.Keys && fresh(links)
      ensures this.key == key && this.value == value
    {
      links := new Links(nodes, true);
      this.key, this.value := key, value;
      shape := E;
      new;
      assert Balanced(E, 0);
    }

    method InsertFixup(start: Id, ghost hole: Context)
      requires Focus(links.State(), hole, N(Red, E, start, E), start, NIL)
      requires RedAt(hole, N(Red, E, start, E), 0)
      requires links.byParent && links.rootParent == NIL
      modifies links`mem, links`root, `shape
      ensures Shaped() && links.mem.Keys == old(links.mem.Keys) && Nodes() == OrderAt(hole, N(Red, E, start, E))
    {
      var z := start;
      ghost var ctx, t, n := hole, RedBlackShapes.Tree.N(Red, E, start, E), 0;
      LoopGuard(ctx, t, z);
      while links.mem[links.mem[z].parent].color == Red
        invariant Focus(links.State(), ctx, t, z, NIL) && RedAt(ctx, t, n)
        invariant OrderAt(ctx, t) == OrderAt(hole, N(Red, E, start, E))
        invariant links.mem[z].parent in links.mem && (links.mem[links.mem[z].parent].color == Red <==> RedParent(ctx))
        invariant links.mem.Keys == old(links.mem.Keys)
        decreases if RedParent(ctx) then 1 + Depth(ctx) else 0
      {
        RedParentHasGrandparent(ctx);
        var parent, grand := links.ParentAndGrandparent(z, ctx, t);
        if parent == links.mem[grand].left {
          z, ctx, t, n := links.FixRedLeft(z, ctx, t, n);
        } else {
          z, ctx, t, n := links.FixRedRight(z, ctx, t, n);
        }
        LoopGuard(ctx, t, z);
      }
      InsertionEnds(links.State(), ctx, t, z, NIL, n);
      links.mem := SetColor(links.mem, links.root, Black);
      shape := Blackened(Plug(ctx, t));
    }

    /** The sentinel is black, so that the loop also ends at the root. */
    lemma LoopGuard(ctx: Context, t: RedBlackShapes.Tree, z: Id)
      requires Focus(links.State(), ctx, t, z, NIL)
      ensures links.mem[z].parent in links.mem && (links.mem[links.mem[z].parent].color == Red <==> RedParent(ctx))
    {
      ParentOfRoot(links.State(), ctx, t, z, NIL);
      GuardFacts(links.State(), ctx, t, z, NIL);
    }

    method DeleteFixup(start: Id, ghost ctx0: Context, ghost t0: RedBlackShapes.Tree, ghost n0: nat)
      requires Focus(links.State(), ctx0, t0, start, NIL) && Short(ctx0, t0, n0)
      requires links.byParent && links.rootParent == NIL
      modifies links`mem, links`root, `shape
      ensures Shaped() && links.mem.Keys == old(links.mem.Keys) && Nodes() == OrderAt(ctx0, t0)
    {
      var x := start;
      ghost var ctx, t, n := ctx0, t0, n0;
      FocusColor(links.State(), ctx, t, x, NIL);
      while x != links.root && links.mem[x].color == Black
        invariant Focus(links.State(), ctx, t, x, NIL) && Short(ctx, t, n)
        invariant OrderAt(ctx, t) == OrderAt(ctx0, t0)
        invariant links.mem[x].color == ColorOf(t) && (x == links.root <==> ctx.Top?)
        invariant links.mem.Keys == old(links.mem.Keys)
        decreases if !ctx.Top? && ColorOf(t) == Black then 1 + Depth(ctx) else 0
      {
        ShortHasSibling(ctx, t, n);
        SiblingFacts(links.State(), ctx, t, x, NIL);
        if x == links.mem[links.mem[x].parent].left {
          x, ctx, t, n := links.FixShortLeft(x, ctx, t, n);
        } else {
          x, ctx, t, n := links.FixShortRight(x, ctx, t, n);
        }
        FocusColor(links.State(), ctx, t, x, NIL);
      }
      PaintBlack(x, ctx, t, n);
    }

    /** The line behind the loop. */
    method PaintBlack(x: Id, ghost ctx: Context, ghost t: RedBlackShapes.Tree, ghost n: nat)
      requires Focus(links.State(), ctx, t, x, NIL) && Short(ctx, t, n) && (ctx.Top? || ColorOf(t) == Red)
      requires links.byParent && links.rootParent == NIL
      modifies links`mem, `shape
      ensures Shaped() && links.mem.Keys == old(links.mem.Keys) && Nodes() == OrderAt(ctx, t)
    {
      RepairEnds(links.State(), ctx, t, x, NIL, n);
      links.mem := SetColor(links.mem, x, Black);
      shape := Plug(ctx, Blackened(t));
    }

    /** Where k is, or the hole where it would be. */
    method Find(k: int) returns (x: Id, y: Id, ghost ctx: Context, ghost t: RedBlackShapes.Tree)
      requires Valid()
      ensures At(links.State(), ctx, t, x, y, NIL) && Plug(ctx, t) == shape && Leads(ctx, key, k)
      ensures if x == NIL then t.E? else t.N? && t.id == x && x in key && key[x] == k
      ensures y == NIL <==> ctx.Top?
    {
      x, y, ctx, t := links.root, NIL, Top, shape;
      RepIds(links.mem, shape, links.root, NIL);
      while x != NIL
        invariant At(links.State(), ctx, t, x, y, NIL) && Plug(ctx, t) == shape && Leads(ctx, key, k)
        invariant x == NIL <==> t.E?
        invariant y == NIL <==> ctx.Top?
        decreases t
      {
        DescendLeft(links.State(), ctx, t, x, y, NIL);
        DescendRight(links.State(), ctx, t, x, y, NIL);
        NodeHasKey(ctx, t);
        if k < key[x] {
          x, y, ctx, t := links.mem[x].left, x, LeftOf(t.color, x, t.right, ctx), t.left;
        } else if k > key[x] {
          x, y, ctx, t := links.mem[x].right, x, RightOf(t.color, x, t.left, ctx), t.right;
        } else {
          return;
        }
      }
    }

    lemma NodeHasKey(ctx: Context, t: RedBlackShapes.Tree)
      requires Valid() && Plug(ctx, t) == shape && t.N?
      ensures t.id in key && t.id in value && t.id in Ids(shape)
      ensures key[t.id] in Contents() && Contents()[key[t.id]] == value[t.id]
    {
      IdsPlug(ctx, t);
      OrderPlug(ctx, t);
      NodeInOrder(ctx, t);
      var i := |NodesBefore(ctx, t)|;
      assert Nodes()[i] == t.id;
      MapHolds(Nodes(), key, value);
    }

    /** No node holds a key that leads to a hole. */
    lemma NotThere(ctx: Context, k: int)
      requires Valid() && Plug(ctx, E) == shape && Leads(ctx, key, k)
      ensures k !in Contents()
    {
      HoleSplits(ctx, key, k);
      MapHolds(Nodes(), key, value);
      var b, a := OrderBefore(ctx), OrderAfter(ctx);
      forall i | 0 <= i < |Nodes()| ensures key[Nodes()[i]] != k {
        assert Nodes()[i] == if i < |b| then b[i] else a[i - |b|];
      }
    }

    /** The height is at most 2 * log2(n + 1) for n keys. */
    lemma HeightByKeys()
      requires Valid()
      ensures Pow2(Height(shape)) <= (|Contents()| + 1) * (|Contents()| + 1)
    {
      HeightBound(shape);
      OrderHasAll(shape);
      MapSize(Nodes(), key, value);
    }

    /** rbtree_search */
    method Search(k: int) returns (node: Id)
      requires Valid()
      ensures node == NIL <==> k !in Contents()
      ensures node != NIL ==> node in Ids(shape) && node in key && key[node] == k
      ensures node != NIL ==> node in value && Contents()[k] == value[node]
    {
      ghost var y, ctx, t;
      node, y, ctx, t := Find(k);
      if node != NIL {
        NodeHasKey(ctx, t);
      } else {
        NotThere(ctx, k);
      }
    }

    /** A key that is there already is left alone, with its value; any other is added. */
    method Insert(z: Id)
      requires Valid() && z in links.mem && z != NIL && z !in Ids(shape) && z in key && z in value
      modifies this, links
      ensures Valid() && links.mem.Keys == old(links.mem.Keys) && key == old(key) && value == old(value)
      ensures
        if key[z] in old(Contents()) then links.State() == old(links.State()) && Contents() == old(Contents())
        else Contents() == old(Contents())[key[z] := value[z]] && z in Ids(shape)
    {
      var x, y;
      ghost var ctx, t;
      x, y, ctx, t := Find(key[z]);
      if x != NIL {
        NodeHasKey(ctx, t);
        return;
      }
      NotThere(ctx, key[z]);
      HoleSplits(ctx, key, key[z]);
      ghost var nodes := Nodes();
      InsertAt(y, z, ctx);
      SortedWith(OrderBefore(ctx), z, OrderAfter(ctx), key);
      ghost var p := |OrderBefore(ctx)|;
      assert nodes[..p] == OrderBefore(ctx) && nodes[p..] == OrderAfter(ctx);
      MapWith(nodes, p, z, key, value);
      IdsOfOrder(shape);
      assert Nodes()[p] == z;
    }

    /** z becomes a red leaf below y, and the tree is repaired. */
    method InsertAt(y: Id, z: Id, ghost ctx: Context)
      requires Shaped() && At(links.State(), ctx, E, NIL, y, NIL) && Plug(ctx, E) == shape && (y == NIL <==> ctx.Top?)
      requires z in links.mem && z in key && z != NIL && z !in Ids(shape)
      requires !ctx.Top? ==> y in key && (key[z] < key[y] <==> ctx.LeftOf?)
      modifies links`mem, links`root, `shape
      ensures Shaped() && links.mem.Keys == old(links.mem.Keys) && Nodes() == OrderBefore(ctx) + [z] + OrderAfter(ctx)
    {
      LeafFits(ctx, z, shape);
      if y == NIL {
        links.mem := SetParent(links.mem, z, y);
        links.root := z;
        links.mem := SetLeft(links.mem, z, NIL);
        links.mem := SetRight(links.mem, z, NIL);
        links.mem := SetColor(links.mem, z, Red);
        assert Rep(links.mem, E, NIL, z) && Ids(E) == {} && Distinct(E);
        assert Focus(links.State(), ctx, N(Red, E, z, E), z, NIL);
      } else {
        links.HangNode(y, z, key[z] < key[y], ctx);
      }
      InsertFixup(z, ctx);
    }

    // -------------------------------------------------------------- deletion

    /** The next node in order, or the sentinel. */
    method Successor(x0: Id, ghost ctx0: Context, ghost t0: RedBlackShapes.Tree)
      returns (y: Id, ghost inner: Context, ghost last: RedBlackShapes.Tree)
      requires Shaped() && Focus(links.State(), ctx0, t0, x0, NIL) && t0.N? && Plug(ctx0, t0) == shape
      ensures y == if NodesAfter(ctx0, t0) == [] then NIL else NodesAfter(ctx0, t0)[0]
      ensures t0.right.N? ==>
        LeftSpine(inner) && t0.right == Plug(inner, last) && last.N? && last.left.E? && y == last.id
    {
      var x := x0;
      y, inner, last := links.mem[x].parent, Top, t0;
      DescendRight(links.State(), ctx0, t0, x, links.mem[x].parent, NIL);
      if links.mem[x].right != NIL {
        y, inner, last := links.Min(links.mem[x].right, RightOf(t0.color, x, t0.left, ctx0), t0.right);
        return;
      }
      ghost var ctx, t := ctx0, t0;
      ParentOfRoot(links.State(), ctx, t, x, NIL);
      if !ctx.Top? {
        Ascend(links.State(), ctx, t, x, y, NIL);
      }
      while y != NIL && x == links.mem[y].right
        invariant Focus(links.State(), ctx, t, x, NIL) && t.N? && y == links.mem[x].parent
        invariant OrderAfter(ctx) == OrderAfter(ctx0) && (y == NIL <==> ctx.Top?)
        invariant y != NIL ==> y in links.mem && y == ctx.id && (x == links.mem[y].right <==> ctx.RightOf?)
        decreases ctx
      {
        Ascend(links.State(), ctx, t, x, y, NIL);
        ctx, t := ctx.up, Joined(ctx, t);
        x := y;
        y := links.mem[y].parent;
        ParentOfRoot(links.State(), ctx, t, x, NIL);
        if !ctx.Top? {
          Ascend(links.State(), ctx, t, x, y, NIL);
        }
      }
    }

    /** The node that will be unlinked: it has at most one child. */
    method ChooseLeaver(z: Id, ghost ctx: Context, ghost t: RedBlackShapes.Tree)
      returns (y: Id, ghost cy: Context, ghost ty: RedBlackShapes.Tree)
      requires Shaped() && Focus(links.State(), ctx, t, z, NIL) && t.N? && t.id == z && Plug(ctx, t) == shape
      ensures Focus(links.State(), cy, ty, y, NIL) && ty.N? && ty.id == y && Plug(cy, ty) == shape
      ensures OrderAt(cy, ty) == OrderAt(ctx, t) && (ty.left.E? || ty.right.E?)
      ensures y == z ==> cy == ctx && ty == t
      ensures y != z ==> NodesBefore(cy, ty) == NodesBefore(ctx, t) + [z]
    {
      DescendLeft(links.State(), ctx, t, z, links.mem[z].parent, NIL);
      DescendRight(links.State(), ctx, t, z, links.mem[z].parent, NIL);
      if links.mem[z].left == NIL || links.mem[z].right == NIL {
        y, cy, ty := z, ctx, t;
      } else {
        ghost var inner, last;
        y, inner, last := Successor(z, ctx, t);
        cy, ty := Append(inner, RightOf(t.color, z, t.left, ctx)), last;
        SuccessorFocus(links.State(), shape, ctx, t, inner, last);
      }
      OrderPlug(ctx, t);
      OrderPlug(cy, ty);
    }

    /** The first lines of the deletion. */
    method Prepare(z: Id)
      returns (y: Id, ghost ctx: Context, ghost t: RedBlackShapes.Tree, ghost cy: Context, ghost ty: RedBlackShapes.Tree)
      requires Valid() && z in Ids(shape)
      ensures t.N? && t.id == z && Nodes() == OrderAt(ctx, t) == OrderAt(cy, ty)
      ensures Focus(links.State(), cy, ty, y, NIL) && ty.N? && ty.id == y && Plug(cy, ty) == shape
      ensures ty.left.E? || ty.right.E?
      ensures y == z ==> cy == ctx && ty == t
      ensures y != z ==> NodesBefore(cy, ty) == NodesBefore(ctx, t) + [z]
      ensures z in key && z in value && y in key && y in value && y in Ids(shape)
    {
      ctx, t := FocusOn(links.State(), shape, NIL, z);
      y, cy, ty := ChooseLeaver(z, ctx, t);
      NodeHasKey(ctx, t);
      NodeHasKey(cy, ty);
    }

    /** x takes the place of y. */
    method Unlink(y: Id, x: Id, ghost cy: Context, ghost ty: RedBlackShapes.Tree, ghost child: RedBlackShapes.Tree)
      requires Focus(links.State(), cy, ty, y, NIL) && ty.N?
      requires (ty.left.E? && child == ty.right && x == links.mem[y].right)
            || (ty.right.E? && child == ty.left && x == links.mem[y].left)
      modifies links`mem, links`root
      ensures Focus(links.State(), cy, child, x, NIL) && links.mem.Keys == old(links.mem.Keys)
      ensures links.mem[y].color == old(links.mem)[y].color
    {
      ParentOfRoot(links.State(), cy, ty, y, NIL);
      ghost var m := UnlinkFacts(links.State(), cy, ty, y, x, child);
      links.mem := SetParent(links.mem, x, links.mem[y].parent);
      if links.mem[y].parent == NIL {
        links.root := x;
      } else if y == links.mem[links.mem[y].parent].left {
        links.mem := SetLeft(links.mem, links.mem[y].parent, x);
      } else {
        links.mem := SetRight(links.mem, links.mem[y].parent, x);
      }
      assert links.mem == m;
    }

    /** y leaves the tree, which is repaired when y was black. */
    method TakeOut(y: Id, ghost cy: Context, ghost ty: RedBlackShapes.Tree)
      returns (x: Id, ghost child: RedBlackShapes.Tree, ghost n: nat)
      requires Shaped() && Focus(links.State(), cy, ty, y, NIL) && ty.N? && ty.id == y && Plug(cy, ty) == shape
      requires ty.left.E? || ty.right.E?
      modifies links`mem, links`root
      ensures Focus(links.State(), cy, child, x, NIL) && links.mem.Keys == old(links.mem.Keys)
      ensures y in links.mem && links.mem[y].color == ty.color
      ensures Balanced(child, n) && NoRedRed(child)
      ensures BalancedAround(cy, n + Weight(ty.color)) && NoRedRedAround(cy)
      ensures ty.color == Red ==> ColorOf(child) == Black && HasBlackParent(cy)
      ensures OrderAt(cy, child) == NodesBefore(cy, ty) + NodesAfter(cy, ty)
    {
      DescendLeft(links.State(), cy, ty, y, links.mem[y].parent, NIL);
      DescendRight(links.State(), cy, ty, y, links.mem[y].parent, NIL);
      x := NIL;
      child := ty.right;
      if links.mem[y].left != NIL {
        x, child := links.mem[y].left, ty.left;
        n := BypassShortLeft(cy, ty, shape);
      } else {
        if links.mem[y].right != NIL {
          x := links.mem[y].right;
        }
        n := BypassShort(cy, ty, shape);
      }
      OrderWithoutSingle(cy, ty, child);
      Unlink(y, x, cy, ty, child);
    }

    /** A red node leaves nothing to repair. */
    ghost method KeepShape(x: Id, cy: Context, child: RedBlackShapes.Tree, n: nat)
      requires Focus(links.State(), cy, child, x, NIL) && Balanced(child, n) && NoRedRed(child)
      requires BalancedAround(cy, n) && NoRedRedAround(cy) && ColorOf(child) == Black && HasBlackParent(cy)
      requires links.byParent && links.rootParent == NIL
      modifies `shape
      ensures Shaped() && Nodes() == OrderAt(cy, child)
    {
      SplicedRedIsRedBlack(cy, child, n);
      Whole(links.State(), cy, child, x, links.mem[x].parent, NIL);
      shape := Plug(cy, child);
    }

    /** The last test of the deletion. */
    method Repair(x: Id, black: bool, ghost cy: Context, ghost child: RedBlackShapes.Tree, ghost n: nat)
      requires Focus(links.State(), cy, child, x, NIL) && Balanced(child, n) && NoRedRed(child)
      requires BalancedAround(cy, if black then n + 1 else n) && NoRedRedAround(cy)
      requires !black ==> ColorOf(child) == Black && HasBlackParent(cy)
      requires links.byParent && links.rootParent == NIL
      modifies links`mem, links`root, `shape
      ensures Shaped() && links.mem.Keys == old(links.mem.Keys) && Nodes() == OrderAt(cy, child)
    {
      if black {
        DeleteFixup(x, cy, child, n);
      } else {
        KeepShape(x, cy, child, n);
      }
    }

    /** What is left, as a map. */
    lemma LeftOver(nodes: seq<Id>, key0: map<Id, int>, value0: map<Id, int>, ctx: Context, t: RedBlackShapes.Tree,
                   cy: Context, ty: RedBlackShapes.Tree, y: Id, z: Id)
      requires Shaped() && Sorted(nodes, key0) && Within(nodes, key0, value0)
      requires t.N? && t.id == z && ty.N? && ty.id == y && nodes == OrderAt(ctx, t) == OrderAt(cy, ty)
      requires y == z ==> cy == ctx && ty == t && key == key0 && value == value0
      requires z in key0 && y in key0 && z in value0 && y in value0
      requires y != z ==> NodesBefore(cy, ty) == NodesBefore(ctx, t) + [z]
      requires y != z ==> key == key0[z := key0[y]] && value == value0[z := value0[y]]
      requires Nodes() == NodesBefore(cy, ty) + NodesAfter(cy, ty)
      ensures Valid() && z in key0 && Contents() == MapOf(nodes, key0, value0) - {key0[z]}
      ensures y !in Ids(shape) && (y != z ==> z in Ids(shape))
    {
      NodeInOrder(cy, ty);
      IdsOfOrder(shape);
      MapLeft(NodesBefore(ctx, t), NodesBefore(cy, ty), y, NodesAfter(cy, ty), z, key0, value0, key, value);
    }

    /** The lines from the copy on. */
    method Finish(z: Id, y: Id, x: Id, ghost cy: Context, ghost child: RedBlackShapes.Tree, ghost n: nat)
      requires Focus(links.State(), cy, child, x, NIL) && Balanced(child, n) && NoRedRed(child)
      requires y in links.mem && y in key && y in value
      requires BalancedAround(cy, n + Weight(links.mem[y].color)) && NoRedRedAround(cy)
      requires links.mem[y].color == Red ==> ColorOf(child) == Black && HasBlackParent(cy)
      requires links.byParent && links.rootParent == NIL
      modifies this, links`mem, links`root
      ensures Shaped() && links.mem.Keys == old(links.mem.Keys) && Nodes() == OrderAt(cy, child)
      ensures key == if y == z then old(key) else old(key)[z := old(key)[y]]
      ensures value == if y == z then old(value) else old(value)[z := old(value)[y]]
    {
      if y != z {
        key := key[z := key[y]];
        value := value[z := value[y]];
      }
      Repair(x, links.mem[y].color == Black, cy, child, n);
    }

    /** Deletes the key of z.  The node that leaves, and is returned, is z or its successor, whose key
        and value z then has. */
    method Delete(z: Id) returns (y: Id)
      requires Valid() && z in Ids(shape)
      modifies this, links
      ensures Valid() && links.mem.Keys == old(links.mem.Keys)
      ensures z in old(key) && Contents() == old(Contents()) - {old(key)[z]}
      ensures y in old(Ids(shape)) && y !in Ids(shape) && y in old(key) && y in old(value)
      ensures y != z ==> z in Ids(shape) && key == old(key)[z := old(key)[y]] && value == old(value)[z := old(value)[y]]
      ensures y == z ==> key == old(key) && value == old(value)
    {
      ghost var ctx, t, cy, ty;
      y, ctx, t, cy, ty := Prepare(z);
      ghost var child, n;
      var x;
      x, child, n := TakeOut(y, cy, ty);
      Finish(z, y, x, cy, child, n);
      LeftOver(old(Nodes()), old(key), old(value), ctx, t, cy, ty, y, z);
    }
  }
}
