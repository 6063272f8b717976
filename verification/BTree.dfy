/** The B-tree of btree.c: insertion with pre-emptive splitting, and the borrow and merge steps that
    deletion takes before it descends. */
module BTree {
  import opened BTreeShapes
  import opened BTreeLinks

  const NULL: Id := 0

  /** dst[d + j] = src[s + j] for j < n */
  method Copy<T>(dst: seq<T>, d: int, src: seq<T>, s: int, n: int) returns (r: seq<T>)
    requires 0 <= d && 0 <= s && 0 <= n && d + n <= |dst| && s + n <= |src|
    ensures |r| == |dst|
    ensures forall j :: 0 <= j < |dst| ==> r[j] == if d <= j < d + n then src[s + j - d] else dst[j]
  {
    r := dst;
    var j := 0;
    while j < n
      invariant 0 <= j <= n && |r| == |dst|
      invariant forall l :: 0 <= l < |dst| ==> r[l] == if d <= l < d + j then src[s + l - d] else dst[l]
    {
      r := r[d + j := src[s + j]];
      j := j + 1;
    }
  }

  /** a[j + 1] = a[j] for j from `to` down to `from` */
  method ShiftUp<T>(a: seq<T>, from: int, to: int) returns (r: seq<T>)
    requires 0 <= from <= to + 1 < |a|
    ensures |r| == |a|
    ensures forall j :: from < j <= to + 1 ==> r[j] == a[j - 1]
    ensures forall j :: 0 <= j <= from || to + 1 < j < |a| ==> r[j] == a[j]
  {
    r := a;
    var j := to;
    while j >= from
      invariant from - 1 <= j <= to && |r| == |a|
      invariant forall l :: j + 1 < l <= to + 1 ==> r[l] == a[l - 1]
      invariant forall l :: 0 <= l <= j + 1 || to + 1 < l < |a| ==> r[l] == a[l]
    {
      r := r[j + 1 := r[j]];
      j := j - 1;
    }
  }

  /** a[i - 1] = a[i] for i from `from` up to `to` - 1 */
  method ShiftDown<T>(a: seq<T>, from: int, to: int) returns (r: seq<T>)
    requires 1 <= from <= to <= |a|
    ensures |r| == |a|
    ensures forall j :: from - 1 <= j < to - 1 ==> r[j] == a[j + 1]
    ensures forall j :: 0 <= j < from - 1 || to - 1 <= j < |a| ==> r[j] == a[j]
  {
    r := a;
    var i := from;
    while i < to
      invariant from <= i <= to && |r| == |a|
      invariant forall l :: from - 1 <= l < i - 1 ==> r[l] == a[l + 1]
      invariant forall l :: 0 <= l < from - 1 || i - 1 <= l < |a| ==> r[l] == a[l]
    {
      r := r[i - 1 := r[i]];
      i := i + 1;
    }
  }

  /** Looking from the right for the place of k: behind the last key that is at most k. */
  method FindPlace(keys: seq<int>, num: int, k: int) returns (p: int)
    requires 0 <= num <= |keys|
    ensures 0 <= p <= num && (p == 0 || keys[p - 1] <= k) && (forall j :: p <= j < num ==> k < keys[j])
  {
    var i := num - 1;
    while i >= 0 && keys[i] > k
      invariant -1 <= i < num
      invariant forall j :: i < j < num ==> k < keys[j]
    {
      i := i - 1;
    }
    p := i + 1;
  }

  /** The same search in a leaf, which moves the greater keys up on the way and stores k. */
  method Place(keys: seq<int>, num: int, k: int) returns (r: seq<int>, ghost p: int)
    requires 0 <= num < |keys|
    ensures 0 <= p <= num && (p == 0 || keys[p - 1] <= k) && (forall j :: p <= j < num ==> k < keys[j])
    ensures |r| == |keys| && r[..num + 1] == Inserted(keys[..num], p, k)
  {
    r := keys;
    var i := num - 1;
    while i >= 0 && r[i] > k
      invariant -1 <= i < num && |r| == |keys|
      invariant forall j :: i + 1 < j <= num ==> r[j] == keys[j - 1]
      invariant forall j :: 0 <= j <= i + 1 || num < j < |keys| ==> r[j] == keys[j]
      invariant forall j :: i < j < num ==> k < keys[j]
    {
      r := r[i + 1 := r[i]];
      i := i - 1;
    }
    r := r[i + 1 := k];
    p := i + 1;
  }

  /** A node without its child at i, between its other children. */
  lemma RowOfOne(tree: Tree, i: int)
    requires 0 <= i < |tree.kids|
    ensures
      var row := [tree.kids[i]];
      && tree.kids == tree.kids[..i] + row + tree.kids[i + 1..]
      && Grand(row) == tree.kids[i].kids && Roots(row) == {tree.kids[i].id}
  {
    var row := [tree.kids[i]];
    assert Grand(row) == row[0].kids + Grand([]);
    assert row[0].id in Roots(row);
  }

  lemma RowOfTwo(a: Tree, b: Tree)
    ensures Grand([a, b]) == a.kids + b.kids && Roots([a, b]) == {a.id, b.id}
  {
    assert [a, b][1..] == [b] && [b][1..] == [];
    assert Grand([b]) == b.kids + [];
    assert [a, b][0].id in Roots([a, b]) && [a, b][1].id in Roots([a, b]);
  }

  lemma RowOfHalves(y: Tree, t: int, z: Id)
    requires |y.keys| == 2 * t - 1 && t >= 2 && (y.kids == [] || |y.kids| == 2 * t)
    ensures Grand([Lower(y, t), Upper(y, t, z)]) == y.kids && Roots([Lower(y, t), Upper(y, t, z)]) == {y.id, z}
  {
    RowOfTwo(Lower(y, t), Upper(y, t, z));
    assert y.kids != [] ==> y.kids == y.kids[..t] + y.kids[t..];
  }

  lemma HoldsLower(cell: Cell, y: Tree, t: int)
    requires Holds(cell, y) && |y.keys| == 2 * t - 1 && t >= 2
    ensures Holds(cell.(num := t - 1), Lower(y, t))
  {
  }

  lemma HoldsUpper(cell: Cell, y: Tree, t: int, z: Id, zCell: Cell)
    requires Holds(cell, y) && |y.keys| == 2 * t - 1 && t >= 2
    requires zCell.num == t - 1 && zCell.leaf == cell.leaf && t - 1 <= |zCell.keys| && t <= |zCell.childrens|
    requires forall j :: 0 <= j < t - 1 ==> zCell.keys[j] == cell.keys[t + j]
    requires !cell.leaf ==> forall j :: 0 <= j < t ==> zCell.childrens[j] == cell.childrens[t + j]
    ensures Holds(zCell, Upper(y, t, z))
  {
    var u := Upper(y, t, z);
    assert cell.keys[..cell.num][t..] == u.keys;
    assert zCell.keys[..t - 1] == u.keys;
    forall j | 0 <= j < |u.kids| ensures zCell.childrens[j] == u.kids[j].id {
      assert u.kids[j] == y.kids[t + j];
    }
  }

  lemma HoldsSplit(cell: Cell, tree: Tree, i: int, t: int, z: Id, keys: seq<int>, childrens: seq<Id>)
    requires Holds(cell, tree) && CanSplit(tree, i, t) && |tree.keys| < |keys| && |tree.kids| < |childrens|
    requires keys[..cell.num + 1] == Inserted(tree.keys, i, tree.kids[i].keys[t - 1])
    requires forall j :: 0 <= j <= i ==> childrens[j] == cell.childrens[j]
    requires childrens[i + 1] == z && forall j :: i + 1 < j <= |tree.kids| ==> childrens[j] == cell.childrens[j - 1]
    ensures Holds(Cell(keys, childrens, cell.num + 1, cell.leaf), Split(tree, i, t, z))
  {
    var r := Split(tree, i, t, z);
    forall j | 0 <= j < |r.kids| ensures childrens[j] == r.kids[j].id {
      assert r.kids[j] == if j < i then tree.kids[j] else if j == i then Lower(tree.kids[i], t)
                          else if j == i + 1 then Upper(tree.kids[i], t, z) else tree.kids[j - 1];
    }
  }

  lemma KidStands(mem: Memory, tree: Tree, i: int)
    requires Stands(mem, tree) && 0 <= i < |tree.kids|
    ensures
      var kid := tree.kids[i];
      mem[tree.id].childrens[i] == kid.id && kid.id in mem && Holds(mem[kid.id], kid) && kid.id != tree.id
  {
    assert Rep(mem, tree.kids[i]);
    KidId(tree.kids[i]);
  }

  lemma KeysInserted(cell: Cell, tree: Tree, i: int, k: int, keys: seq<int>)
    requires Holds(cell, tree) && 0 <= i <= cell.num < |keys| && keys[i] == k
    requires forall j :: 0 <= j < i ==> keys[j] == cell.keys[j]
    requires forall j :: i < j <= cell.num ==> keys[j] == cell.keys[j - 1]
    ensures keys[..cell.num + 1] == Inserted(tree.keys, i, k)
  {
    HeldKeys(cell, tree);
    forall j | 0 <= j <= cell.num ensures keys[j] == Inserted(tree.keys, i, k)[j] {
      InsertedAt(tree.keys, i, k, j);
    }
  }

  /** The links after a split: x and y rewritten, z new. */
  lemma SplitLinks(mem: Memory, mem': Memory, tree: Tree, i: int, t: int, z: Id)
    requires Rep(mem, tree) && Distinct(tree) && CanSplit(tree, i, t) && z !in mem
    requires Same(mem, mem', {tree.id, tree.kids[i].id})
    requires
      var y, r := tree.kids[i], Split(tree, i, t, z);
      && tree.id in mem' && Holds(mem'[tree.id], r)
      && y.id in mem' && Holds(mem'[y.id], Lower(y, t))
      && z in mem' && Holds(mem'[z], Upper(y, t, z))
    ensures
      var r := Split(tree, i, t, z);
      Rep(mem', r) && Distinct(r) && forall id :: id in Ids(r) && id in mem ==> id in Ids(tree)
  {
    var y := tree.kids[i];
    var lo, hi := Lower(y, t), Upper(y, t, z);
    var before, behind := tree.kids[..i], tree.kids[i + 1..];
    var keys := Inserted(tree.keys, i, y.keys[t - 1]);
    RowOfOne(tree, i);
    RowOfHalves(y, t, z);
    IdsAllocated(mem, tree);
    KidIds(tree, i);
    KidId(y);
    RegroupedDistinct(tree, keys, before, [y], behind, [lo, hi], mem.Keys);
    RegroupedRep(mem, mem', tree, keys, before, [y], behind, [lo, hi]);
  }

  /** A child rewritten inside its own nodes leaves its parent's other nodes alone. */
  lemma KidRewritten(mem: Memory, mem': Memory, tree: Tree, p: int, kid: Tree)
    requires Stands(mem, tree) && 0 <= p < |tree.kids|
    requires Stands(mem', kid) && kid.id == tree.kids[p].id
    requires Same(mem, mem', Ids(tree.kids[p]))
    requires forall id :: id in Ids(kid) && id in mem ==> id in Ids(tree.kids[p])
    ensures
      var r := WithKid(tree, p, kid);
      && Stands(mem', r) && Same(mem, mem', Ids(tree))
      && forall id :: id in Ids(r) && id in mem ==> id in Ids(tree)
  {
    IdsAllocated(mem, tree);
    KidIds(tree, p);
    RepWithKid(mem, mem', tree, p, kid);
    DistinctWithKid(tree, p, kid, mem.Keys);
  }

  lemma HeldKeys(cell: Cell, tree: Tree)
    requires Holds(cell, tree)
    ensures forall j :: 0 <= j < |tree.keys| ==> tree.keys[j] == cell.keys[j]
  {
    assert forall j :: 0 <= j < |tree.keys| ==> cell.keys[..cell.num][j] == cell.keys[j];
  }

  /** A tree in memory with room for a key at its root. */
  ghost predicate CanTake(mem: Memory, tree: Tree, t: int, h: nat, least: int) {
    Stands(mem, tree) && Shaped(tree, t, h, least) && |tree.keys| < 2 * t - 1
  }

  lemma TakesBelow(tree: Tree, k: int, r: Tree, p: int, kid: Tree, h: nat)
    requires h > 0 && Opens(tree, k, r, p) && Takes(r.kids[p], k, kid, h - 1)
    ensures Takes(tree, k, WithKid(r, p, kid), h)
  {
    assert Relinks(r, p, kid, WithKid(r, p, kid));
  }

  /** The key taken by a child. */
  lemma TakenBelow(mem: Memory, mem1: Memory, mem2: Memory, tree: Tree, r: Tree, p: int, kid: Tree,
                   t: int, h: nat, least: int, k: int)
    requires h > 0 && Grown(mem, mem1, tree, r, t, h, least) && Opens(tree, k, r, p)
    requires Took(mem1, mem2, r.kids[p], kid, t, h - 1, t - 1, k)
    ensures Took(mem, mem2, tree, WithKid(r, p, kid), t, h, least, k)
  {
    GrownBelow(mem, mem1, mem2, tree, r, p, kid, t, h, least);
    TakesBelow(tree, k, r, p, kid, h);
  }

  /** And with no split before. */
  lemma TakenHere(mem: Memory, mem': Memory, tree: Tree, p: int, kid: Tree, t: int, h: nat, least: int, k: int)
    requires h > 0 && Stands(mem, tree) && Shaped(tree, t, h, least) && PlaceOf(tree, p, k)
    requires Took(mem, mem', tree.kids[p], kid, t, h - 1, t - 1, k)
    ensures Took(mem, mem', tree, WithKid(tree, p, kid), t, h, least, k)
  {
    TakenBelow(mem, mem, mem', tree, tree, p, kid, t, h, least, k);
  }

  /** What is known of a child before descending. */
  lemma Below(mem: Memory, tree: Tree, t: int, h: nat, least: int, p: int)
    requires t >= 2 && Stands(mem, tree) && Shaped(tree, t, h, least) && h > 0 && 0 <= p < |tree.kids|
    ensures
      var kid := tree.kids[p];
      && mem[tree.id].childrens[p] == kid.id
      && Stands(mem, kid) && Shaped(kid, t, h - 1, t - 1)
      && kid.id in mem && mem[kid.id].num == |kid.keys|
      && (|kid.keys| == 2 * t - 1 ==> CanSplit(tree, p, t))
  {
    assert Rep(mem, tree.kids[p]) && Shaped(tree.kids[p], t, h - 1, t - 1) && Distinct(tree.kids[p]);
  }

  /** And the key has been taken. */
  ghost predicate Took(mem: Memory, mem': Memory, tree: Tree, tree': Tree, t: int, h: nat, least: int, k: int) {
    Grown(mem, mem', tree, tree', t, h, least) && Takes(tree, k, tree', h)
  }

  /** What an insertion below a node changes: nothing outside, and all below stays in shape. */
  ghost predicate Grown(mem: Memory, mem': Memory, tree: Tree, tree': Tree, t: int, h: nat, least: int) {
    && Stands(mem', tree') && tree'.id == tree.id && Shaped(tree', t, h, least)
    && mem.Keys <= mem'.Keys && Same(mem, mem', Ids(tree))
    && forall id :: id in Ids(tree') && id in mem ==> id in Ids(tree)
  }

  lemma GrownBelow(mem: Memory, mem1: Memory, mem2: Memory, tree: Tree, r: Tree, p: int, kid: Tree,
                   t: int, h: nat, least: int)
    requires h > 0 && Grown(mem, mem1, tree, r, t, h, least) && 0 <= p < |r.kids|
    requires Grown(mem1, mem2, r.kids[p], kid, t, h - 1, t - 1)
    ensures Grown(mem, mem2, tree, WithKid(r, p, kid), t, h, least)
  {
    KidRewritten(mem1, mem2, r, p, kid);
    ShapedWithKid(r, t, h, least, p, kid);
    SameSteps(mem, mem1, mem2, Ids(tree), Ids(r));
  }

  // ---------------------------------------------------------------- the links after borrowing and merging

  /** Two neighbouring children have been rewritten into `row`, which keeps all their children. */
  lemma PairLinks(mem: Memory, mem': Memory, tree: Tree, i: int, keys: seq<int>, row: seq<Tree>)
    requires Rep(mem, tree) && Distinct(tree) && 0 <= i && i + 1 < |tree.kids|
    requires Grand(row) == tree.kids[i].kids + tree.kids[i + 1].kids && RootsDiffer(row)
    requires Roots(row) <= {tree.kids[i].id, tree.kids[i + 1].id}
    requires Same(mem, mem', {tree.id, tree.kids[i].id, tree.kids[i + 1].id})
    requires tree.id in mem' && Holds(mem'[tree.id], Node(tree.id, keys, tree.kids[..i] + row + tree.kids[i + 2..]))
    requires forall j :: 0 <= j < |row| ==> row[j].id in mem' && Holds(mem'[row[j].id], row[j])
    ensures
      var r := Node(tree.id, keys, tree.kids[..i] + row + tree.kids[i + 2..]);
      Rep(mem', r) && Distinct(r) && Ids(r) <= Ids(tree)
  {
    var a, b := tree.kids[i], tree.kids[i + 1];
    var before, behind := tree.kids[..i], tree.kids[i + 2..];
    var r := Node(tree.id, keys, before + row + behind);
    assert tree.kids == before + [a, b] + behind;
    RowOfTwo(a, b);
    RegroupedDistinct(tree, keys, before, [a, b], behind, row, Ids(tree) + Ids(r));
    RegroupedRep(mem, mem', tree, keys, before, [a, b], behind, row);
  }

  lemma RowOfOneTree(a: Tree)
    ensures Grand([a]) == a.kids && Roots([a]) == {a.id} && RootsDiffer([a])
  {
    assert [a][1..] == [];
    assert Grand([a]) == a.kids + [];
    assert [a][0].id in Roots([a]);
  }

  ghost predicate CanMerge(tree: Tree, i: int, t: int) {
    && t >= 2 && |tree.kids| == |tree.keys| + 1 && 0 <= i < |tree.keys|
    && |tree.kids[i].keys| == t - 1 == |tree.kids[i + 1].keys|
    && (tree.kids[i].kids == [] <==> tree.kids[i + 1].kids == [])
    && Regular(tree.kids[i]) && Regular(tree.kids[i + 1])
  }

  /** The tree that the keys 1 to 8 make for t = 2, inserted in this order: a full root. */
  ghost function FullParent(): Tree {
    Node(2, [2, 4, 6], [Node(1, [1], []), Node(3, [3], []), Node(4, [5], []), Node(5, [7, 8], [])])
  }

  /** And its nodes.  What stands behind the live part of an array is left over from splits. */
  ghost function FullParentCells(): Memory {
    map[1 := Cell([1, 2, 3], [NULL, NULL, NULL, NULL], 1, true),
        2 := Cell([2, 4, 6], [1, 3, 4, 5], 3, false),
        3 := Cell([3, 4, 5], [NULL, NULL, NULL, NULL], 1, true),
        4 := Cell([5, 6, 7], [NULL, NULL, NULL, NULL], 1, true),
        5 := Cell([7, 8, 0], [NULL, NULL, NULL, NULL], 2, true)]
  }

  lemma LeafStands(mem: Memory, id: Id, keys: seq<int>)
    requires id in mem && mem[id].leaf && mem[id].num == |keys| && keys <= mem[id].keys
    ensures var leaf := Node(id, keys, []); Rep(mem, leaf) && Distinct(leaf) && Ids(leaf) == {id}
  {
    assert Holds(mem[id], Node(id, keys, []));
  }

  lemma FullParentStands()
    ensures Arena(FullParentCells(), 6, 2) && Stands(FullParentCells(), FullParent())
  {
    var mem := FullParentCells();
    LeafStands(mem, 1, [1]);
    LeafStands(mem, 3, [3]);
    LeafStands(mem, 4, [5]);
    LeafStands(mem, 5, [7, 8]);
    RootStands(mem, FullParent());
  }

  /** A node over leaves of its own. */
  lemma RootStands(mem: Memory, tree: Tree)
    requires tree.id in mem && Holds(mem[tree.id], tree)
    requires forall i :: 0 <= i < |tree.kids| ==>
      var kid := tree.kids[i];
      Rep(mem, kid) && Distinct(kid) && Ids(kid) == {kid.id} && kid.id != tree.id
    requires forall i, j :: 0 <= i < j < |tree.kids| ==> tree.kids[i].id != tree.kids[j].id
    ensures Stands(mem, tree)
  {
  }

  lemma FullParentText()
    ensures InOrder(FullParent()) == [1, 2, 3, 4, 5, 6, 7, 8]
  {
    var tree := FullParent();
    var texts := [[1], [3], [5], [7, 8]];
    forall i | 0 <= i < 4
      ensures Texts(tree.kids)[i] == texts[i]
    {
      LeafText(tree.kids[i]);
    }
    assert Texts(tree.kids) == texts;
    InOrderWeaves(tree);
    FullParentWeave();
  }

  lemma FullParentWeave()
    ensures Weave([2, 4, 6], [[1], [3], [5], [7, 8]]) == [1, 2, 3, 4, 5, 6, 7, 8]
  {
    WeaveAround([2, 4, 6], [[1], [3], [5], [7, 8]], 2);
    assert [2, 4, 6][..2] == [2, 4] && [2, 4, 6][2..] == [6];
    assert [[1], [3], [5], [7, 8]][..2] == [[1], [3]] && [[1], [3], [5], [7, 8]][3..] == [[7, 8]];
    assert Heads([2, 4], [[1], [3]]) == [1, 2, 3, 4] by {
      assert [2, 4][..1] == [2] && [[1], [3]][..1] == [[1]];
      assert Heads([2], [[1]]) == [1, 2];
    }
    assert Tails([6], [[7, 8]]) == [6, 7, 8];
  }

  /** It is a valid tree.  Its first two children have to be merged before a deletion descends into
      the first, and the write behind the last child of the root does not fit. */
  lemma MergeBelowFullParent()
    ensures Arena(FullParentCells(), 6, 2) && Stands(FullParentCells(), FullParent())
    ensures Shaped(FullParent(), 2, 1, 1) && InOrder(FullParent()) == [1, 2, 3, 4, 5, 6, 7, 8]
    ensures CanMerge(FullParent(), 0, 2) && !Spare(FullParent(), 0, 2) && |FullParent().keys| > 2 * 2 - 2
  {
    FullParentStands();
    FullParentText();
  }

  /** The cell of the left sibling after it has taken the key k and the right sibling in. */
  lemma HoldsMerged(a: Cell, b: Cell, l: Tree, k: int, r: Tree, t: int, cell: Cell)
    requires Holds(a, l) && Holds(b, r) && t >= 2 && |l.keys| == t - 1 == |r.keys|
    requires (l.kids == [] <==> r.kids == []) && |a.childrens| == 2 * t == |b.childrens|
    requires |cell.keys| == 2 * t - 1 && |cell.childrens| == 2 * t && cell.num == 2 * t - 1 && cell.leaf == a.leaf
    requires (forall j :: 0 <= j < t - 1 ==> cell.keys[j] == a.keys[j]) && cell.keys[t - 1] == k
    requires forall j :: t <= j < 2 * t - 1 ==> cell.keys[j] == b.keys[j - t]
    requires forall j :: 0 <= j < t ==> cell.childrens[j] == a.childrens[j]
    requires !a.leaf ==> forall j :: t <= j < 2 * t ==> cell.childrens[j] == b.childrens[j - t]
    ensures Holds(cell, Merged(l, k, r))
  {
    var m := Merged(l, k, r);
    HeldKeys(a, l);
    HeldKeys(b, r);
    assert cell.keys[..2 * t - 1] == m.keys;
    forall j | 0 <= j < |m.kids| ensures cell.childrens[j] == m.kids[j].id {
      assert m.kids[j] == if j < |l.kids| then l.kids[j] else r.kids[j - |l.kids|];
    }
  }

  /** The cell of the parent after its key at i and its child at i + 1 are gone. */
  lemma HoldsParent(cell: Cell, tree: Tree, i: int, keys: seq<int>, childrens: seq<Id>)
    requires Holds(cell, tree) && |tree.kids| == |tree.keys| + 1 && 0 <= i < |tree.keys|
    requires |keys| == |cell.keys| && |childrens| == |cell.childrens|
    requires forall j :: 0 <= j < |tree.keys| - 1 ==> keys[j] == cell.keys[if j < i then j else j + 1]
    requires forall j :: 0 <= j < |tree.kids| - 1 ==> childrens[j] == cell.childrens[if j <= i then j else j + 1]
    ensures Holds(Cell(keys, childrens, cell.num - 1, cell.leaf), Merge(tree, i))
  {
    var m := Merge(tree, i);
    HeldKeys(cell, tree);
    assert forall j :: 0 <= j < |m.keys| ==> m.keys[j] == tree.keys[if j < i then j else j + 1];
    assert keys[..cell.num - 1] == m.keys;
    forall j | 0 <= j < |m.kids| ensures childrens[j] == m.kids[j].id {
      assert m.kids[j].id == tree.kids[if j <= i then j else j + 1].id;
    }
  }

  lemma TwoBelow(mem: Memory, tree: Tree, i: int)
    requires Stands(mem, tree) && |tree.kids| == |tree.keys| + 1 && 0 <= i < |tree.keys|
    ensures
      var l, r := tree.kids[i], tree.kids[i + 1];
      && mem[tree.id].childrens[i] == l.id && mem[tree.id].childrens[i + 1] == r.id
      && l.id in mem && r.id in mem && l.id != r.id && l.id != tree.id && r.id != tree.id
      && Holds(mem[l.id], l) && Holds(mem[r.id], r)
      && {tree.id, l.id, r.id} <= Ids(tree)
  {
    var l, r := tree.kids[i], tree.kids[i + 1];
    assert Rep(mem, tree.kids[i]) && Rep(mem, tree.kids[i + 1]);
    KidId(l);
    KidId(r);
    KidId(tree);
    KidIds(tree, i);
    KidIds(tree, i + 1);
    assert Ids(tree.kids[i]) !! Ids(tree.kids[i + 1]);
  }

  lemma MergeLinks(mem: Memory, mem': Memory, tree: Tree, i: int, t: int)
    requires Stands(mem, tree) && CanMerge(tree, i, t)
    requires Same(mem, mem', {tree.id, tree.kids[i].id, tree.kids[i + 1].id})
    requires tree.id in mem' && Holds(mem'[tree.id], Merge(tree, i))
    requires
      var l, r := tree.kids[i], tree.kids[i + 1];
      l.id in mem' && Holds(mem'[l.id], Merged(l, tree.keys[i], r))
    ensures Stands(mem', Merge(tree, i)) && Ids(Merge(tree, i)) <= Ids(tree)
    ensures Same(mem, mem', Ids(tree))
  {
    var m := Merged(tree.kids[i], tree.keys[i], tree.kids[i + 1]);
    TwoBelow(mem, tree, i);
    RowOfOneTree(m);
    PairLinks(mem, mem', tree, i, Removed(tree.keys, i), [m]);
  }

  /** The child at i and its next sibling are of one kind and within bounds. */
  ghost predicate CanLend(tree: Tree, i: int, t: int) {
    && t >= 2 && |tree.kids| == |tree.keys| + 1 && 0 <= i < |tree.keys| <= 2 * t - 1
    && |tree.kids[i].keys| <= 2 * t - 1 && |tree.kids[i + 1].keys| <= 2 * t - 1
    && (tree.kids[i].kids == [] <==> tree.kids[i + 1].kids == [])
    && Regular(tree.kids[i]) && Regular(tree.kids[i + 1])
  }

  /** The cell of the parent after a key and the two children around it are replaced in place. */
  lemma HoldsTwo(cell: Cell, tree: Tree, i: int, k: int, a: Tree, b: Tree)
    requires Holds(cell, tree) && |tree.kids| == |tree.keys| + 1 && 0 <= i < |tree.keys|
    requires a.id == tree.kids[i].id && b.id == tree.kids[i + 1].id
    ensures
      Holds(cell.(keys := cell.keys[i := k]), Node(tree.id, tree.keys[i := k], tree.kids[i := a][i + 1 := b]))
  {
    HeldKeys(cell, tree);
    assert cell.keys[i := k][..cell.num] == tree.keys[i := k];
  }

  /** The two nodes after borrowing from the next sibling. */
  lemma NextParts(tree: Tree, i: int) returns (a: Tree, b: Tree)
    requires |tree.kids| == |tree.keys| + 1 && 0 <= i < |tree.keys| && tree.kids[i + 1].keys != []
    ensures
      var c, next := tree.kids[i], tree.kids[i + 1];
      && a == Node(c.id, c.keys + [tree.keys[i]], c.kids + (if next.kids == [] then [] else next.kids[..1]))
      && b == Node(next.id, next.keys[1..], if next.kids == [] then [] else next.kids[1..])
      && a.kids + b.kids == c.kids + next.kids
      && BorrowedNext(tree, i) == Node(tree.id, tree.keys[i := next.keys[0]], tree.kids[i := a][i + 1 := b])
  {
    var c, next := tree.kids[i], tree.kids[i + 1];
    a := Node(c.id, c.keys + [tree.keys[i]], c.kids + (if next.kids == [] then [] else next.kids[..1]));
    b := Node(next.id, next.keys[1..], if next.kids == [] then [] else next.kids[1..]);
    assert next.kids != [] ==> next.kids == next.kids[..1] + next.kids[1..];
  }

  /** The two nodes after borrowing from the previous sibling. */
  lemma PrevParts(tree: Tree, i: int) returns (a: Tree, b: Tree)
    requires |tree.kids| == |tree.keys| + 1 && 0 <= i < |tree.keys| && tree.kids[i].keys != []
    ensures
      var prev, c := tree.kids[i], tree.kids[i + 1];
      var n, m := |prev.keys|, |prev.kids|;
      && a == Node(prev.id, prev.keys[..n - 1], if prev.kids == [] then [] else prev.kids[..m - 1])
      && b == Node(c.id, [tree.keys[i]] + c.keys, (if prev.kids == [] then [] else prev.kids[m - 1..]) + c.kids)
      && a.kids + b.kids == prev.kids + c.kids
      && BorrowedPrev(tree, i) == Node(tree.id, tree.keys[i := prev.keys[n - 1]], tree.kids[i := a][i + 1 := b])
  {
    var prev, c := tree.kids[i], tree.kids[i + 1];
    var n, m := |prev.keys|, |prev.kids|;
    a := Node(prev.id, prev.keys[..n - 1], if prev.kids == [] then [] else prev.kids[..m - 1]);
    b := Node(c.id, [tree.keys[i]] + c.keys, (if prev.kids == [] then [] else prev.kids[m - 1..]) + c.kids);
    assert prev.kids != [] ==> prev.kids == prev.kids[..m - 1] + prev.kids[m - 1..];
  }

  lemma TwoReplaced(tree: Tree, i: int, a: Tree, b: Tree)
    requires 0 <= i && i + 1 < |tree.kids|
    ensures tree.kids[i := a][i + 1 := b] == tree.kids[..i] + [a, b] + tree.kids[i + 2..]
  {
  }

  /** Two rewritten neighbours that share out the children the two had. */
  lemma LendLinks(mem: Memory, mem': Memory, tree: Tree, i: int, k: int, a: Tree, b: Tree)
    requires Stands(mem, tree) && |tree.kids| == |tree.keys| + 1 && 0 <= i < |tree.keys|
    requires a.id == tree.kids[i].id && b.id == tree.kids[i + 1].id
    requires a.kids + b.kids == tree.kids[i].kids + tree.kids[i + 1].kids
    requires Same(mem, mem', {tree.id, a.id, b.id})
    requires tree.id in mem' && a.id in mem' && b.id in mem' && Holds(mem'[a.id], a) && Holds(mem'[b.id], b)
    requires mem'[tree.id] == mem[tree.id].(keys := mem[tree.id].keys[i := k])
    ensures
      var r := Node(tree.id, tree.keys[i := k], tree.kids[i := a][i + 1 := b]);
      Stands(mem', r) && Ids(r) <= Ids(tree) && Same(mem, mem', Ids(tree))
  {
    TwoBelow(mem, tree, i);
    HoldsTwo(mem[tree.id], tree, i, k, a, b);
    TwoReplaced(tree, i, a, b);
    RowOfTwo(a, b);
    PairLinks(mem, mem', tree, i, tree.keys[i := k], [a, b]);
  }

  /** A sibling of the child at i can give a key away. */
  ghost predicate Spare(tree: Tree, i: int, t: int) {
    (0 < i <= |tree.kids| && |tree.kids[i - 1].keys| >= t) || (0 <= i < |tree.kids| - 1 && |tree.kids[i + 1].keys| >= t)
  }

  /** What is known of a child and its siblings. */
  lemma Neighbours(mem: Memory, tree: Tree, t: int, h: nat, least: int, i: int)
    requires t >= 2 && Stands(mem, tree) && Shaped(tree, t, h, least) && h > 0
    requires 0 <= i < |tree.kids| && least >= 1
    requires forall id :: id in mem ==> id > NULL
    ensures mem[tree.id].num == |tree.keys| && mem[tree.id].childrens[i] == tree.kids[i].id
    ensures i > 0 ==>
      var l := mem[tree.id].childrens[i - 1];
      l == tree.kids[i - 1].id && l in mem && l != NULL && mem[l].num == |tree.kids[i - 1].keys| >= t - 1
    ensures i < |tree.keys| ==>
      var r := mem[tree.id].childrens[i + 1];
      r == tree.kids[i + 1].id && r in mem && r != NULL && mem[r].num == |tree.kids[i + 1].keys| >= t - 1
    ensures i > 0 ==> CanLend(tree, i - 1, t)
    ensures i < |tree.keys| ==> CanLend(tree, i, t)
  {
    assert Rep(mem, tree.kids[i]) && Shaped(tree.kids[i], t, h - 1, t - 1);
    if i > 0 {
      assert Rep(mem, tree.kids[i - 1]) && Shaped(tree.kids[i - 1], t, h - 1, t - 1);
    }
    if i < |tree.keys| {
      assert Rep(mem, tree.kids[i + 1]) && Shaped(tree.kids[i + 1], t, h - 1, t - 1);
    }
  }

  /** A new root above a tree. */
  lemma RootAbove(mem: Memory, mem': Memory, tree: Tree, id: Id)
    requires Stands(mem, tree) && id !in mem && Same(mem, mem', {}) && id in mem'
    requires Holds(mem'[id], Node(id, [], [tree]))
    ensures
      var r := Node(id, [], [tree]);
      Stands(mem', r) && InOrder(r) == InOrder(tree)
  {
    IdsAllocated(mem, tree);
    RepKept(mem, mem', tree);
    SingleText(Node(id, [], [tree]));
  }

  class BTree {
    var t: int
    var root: Id
    var mem: Memory
    var next: Id

    /** What the nodes below root stand for, and how deep its leaves are. */
    ghost var tree: Tree
    ghost var height: nat

    ghost predicate Linked(tree: Tree)
      reads this
    {
      Arena(mem, next, t) && Stands(mem, tree)
    }

    ghost predicate Valid()
      reads this
    {
      && Linked(tree) && tree.id == root
      && Shaped(tree, t, height, if height == 0 then 0 else 1)
      && Sorted(InOrder(tree))
    }

    ghost function Contents(): seq<int>
      reads this
    {
      InOrder(tree)
    }

    constructor (t: int)
      requires t >= 2
      ensures Valid() && Contents() == [] && this.t == t
    {
      this.t := t;
      mem := map[1 := Cell(seq(2 * t - 1, _ => 0), seq(2 * t, _ => NULL), 0, true)];
      root, next := 1, 2;
      tree, height := Node(1, [], []), 0;
      new;
      assert mem[1].keys[..0] == [];
    }

    method CreateNode(leaf: bool) returns (id: Id)
      requires Arena(mem, next, t)
      modifies this`mem, this`next
      ensures Arena(mem, next, t) && id == old(next) && id !in old(mem) && next == old(next) + 1
      ensures id in mem && mem == old(mem)[id := mem[id]]
      ensures mem[id].num == 0 && mem[id].leaf == leaf
    {
      id := next;
      mem := mem[id := Cell(seq(2 * t - 1, _ => 0), seq(2 * t, _ => NULL), 0, leaf)];
      next := next + 1;
    }

    /** The upper half of y goes to z. */
    method FillUpper(y: Id, z: Id)
      requires y in mem && z in mem && y != z && Arena(mem, next, t)
      modifies this`mem
      ensures z in mem && mem == old(mem)[z := mem[z]] && Arena(mem, next, t)
      ensures mem[z].num == t - 1 && mem[z].leaf == old(mem)[z].leaf
      ensures forall j :: 0 <= j < t - 1 ==> mem[z].keys[j] == old(mem)[y].keys[t + j]
      ensures !old(mem)[y].leaf ==>
        forall j :: 0 <= j < t ==> mem[z].childrens[j] == old(mem)[y].childrens[t + j]
    {
      var keys := Copy(mem[z].keys, 0, mem[y].keys, t, t - 1);
      var childrens := mem[z].childrens;
      if !mem[y].leaf {
        childrens := Copy(childrens, 0, mem[y].childrens, t, t);
      }
      mem := mem[z := mem[z].(keys := keys, childrens := childrens, num := t - 1)];
    }

    /** x makes room for the key k and the child z behind its child at i. */
    method LinkUpper(x: Id, i: int, k: int, z: Id)
      requires Arena(mem, next, t) && x in mem && 0 <= i <= mem[x].num < 2 * t - 1
      modifies this`mem
      ensures x in mem && mem == old(mem)[x := mem[x]] && Arena(mem, next, t)
      ensures mem[x].num == old(mem)[x].num + 1 && mem[x].leaf == old(mem)[x].leaf
      ensures mem[x].keys[i] == k && (forall j :: 0 <= j < i ==> mem[x].keys[j] == old(mem)[x].keys[j])
      ensures forall j :: i < j <= old(mem)[x].num ==> mem[x].keys[j] == old(mem)[x].keys[j - 1]
      ensures forall j :: 0 <= j <= i ==> mem[x].childrens[j] == old(mem)[x].childrens[j]
      ensures mem[x].childrens[i + 1] == z
      ensures forall j :: i + 1 < j <= old(mem)[x].num + 1 ==> mem[x].childrens[j] == old(mem)[x].childrens[j - 1]
    {
      var childrens := ShiftUp(mem[x].childrens, i + 1, mem[x].num);
      childrens := childrens[i + 1 := z];
      var keys := ShiftUp(mem[x].keys, i, mem[x].num - 1);
      keys := keys[i := k];
      mem := mem[x := mem[x].(keys := keys, childrens := childrens, num := mem[x].num + 1)];
    }

    /** The nodes of the halves of y. */
    method Halve(y: Id, ghost kid: Tree) returns (z: Id)
      requires Arena(mem, next, t) && y in mem && Holds(mem[y], kid)
      requires |kid.keys| == 2 * t - 1 && (kid.kids == [] || |kid.kids| == 2 * t)
      modifies this`mem, this`next
      ensures Arena(mem, next, t) && z == old(next) && z !in old(mem) && next == old(next) + 1
      ensures z in mem && y in mem && z != y && mem == old(mem)[z := mem[z]][y := mem[y]]
      ensures Holds(mem[y], Lower(kid, t)) && Holds(mem[z], Upper(kid, t, z)) && mem[y].keys == old(mem)[y].keys
    {
      ghost var full := mem[y];
      z := CreateNode(mem[y].leaf);
      FillUpper(y, z);
      HoldsUpper(full, kid, t, z, mem[z]);
      mem := mem[y := mem[y].(num := t - 1)];
      HoldsLower(full, kid, t);
    }

    /** The three cells that a split writes. */
    method SplitCells(x: Id, i: int, y: Id, ghost tree: Tree)
      requires Arena(mem, next, t) && x in mem && Holds(mem[x], tree) && CanSplit(tree, i, t) && |tree.keys| < 2 * t - 1
      requires y in mem && Holds(mem[y], tree.kids[i]) && y != x
      modifies this`mem, this`next
      ensures Arena(mem, next, t) && old(mem).Keys <= mem.Keys && old(next) < next && old(next) !in old(mem)
      ensures Same(old(mem), mem, {x, y}) && old(next) in mem && x in mem && y in mem
      ensures Holds(mem[x], Split(tree, i, t, old(next)))
      ensures Holds(mem[y], Lower(tree.kids[i], t)) && Holds(mem[old(next)], Upper(tree.kids[i], t, old(next)))
    {
      ghost var above := mem[x];
      HeldKeys(mem[y], tree.kids[i]);
      var z := Halve(y, tree.kids[i]);
      var middle := mem[y].keys[t - 1];
      LinkUpper(x, i, middle, z);
      KeysInserted(above, tree, i, middle, mem[x].keys);
      HoldsSplit(above, tree, i, t, z, mem[x].keys, mem[x].childrens);
    }

    method SplitChild(x: Id, i: int, ghost tree: Tree)
      requires Linked(tree) && tree.id == x && CanSplit(tree, i, t) && |tree.keys| < 2 * t - 1
      modifies this`mem, this`next
      ensures Linked(Split(tree, i, t, old(next))) && old(mem).Keys <= mem.Keys && old(next) < next
      ensures Same(old(mem), mem, {x, tree.kids[i].id})
      ensures forall id :: id in Ids(Split(tree, i, t, old(next))) && id in old(mem) ==> id in Ids(tree)
    {
      var y := mem[x].childrens[i];
      ghost var was, z := mem, next;
      KidStands(mem, tree, i);
      SplitCells(x, i, y, tree);
      SplitLinks(was, mem, tree, i, t, z);
    }

    method InsertLeaf(x: Id, k: int, ghost tree: Tree, ghost h: nat, ghost least: int) returns (ghost tree': Tree)
      requires Arena(mem, next, t) && CanTake(mem, tree, t, h, least) && tree.id == x && tree.kids == []
      modifies this`mem
      ensures Arena(mem, next, t) && Took(old(mem), mem, tree, tree', t, h, least, k)
    {
      ghost var p;
      var keys;
      keys, p := Place(mem[x].keys, mem[x].num, k);
      HeldKeys(mem[x], tree);
      mem := mem[x := mem[x].(keys := keys, num := mem[x].num + 1)];
      tree' := Node(x, Inserted(tree.keys, p, k), []);
      assert LeafTakes(tree, p, k, tree');
      assert Holds(mem[x], tree');
    }

    /** The child to go on in: never a full one. */
    method ChooseChild(x: Id, k: int, ghost tree: Tree, ghost h: nat, ghost least: int)
      returns (p: int, child: Id, ghost tree': Tree)
      requires Arena(mem, next, t) && CanTake(mem, tree, t, h, least) && tree.id == x && h > 0
      modifies this`mem, this`next
      ensures Arena(mem, next, t) && Grown(old(mem), mem, tree, tree', t, h, least)
      ensures Opens(tree, k, tree', p) && child == tree'.kids[p].id
      ensures CanTake(mem, tree'.kids[p], t, h - 1, t - 1)
    {
      p := FindPlace(mem[x].keys, mem[x].num, k);
      HeldKeys(mem[x], tree);
      Below(mem, tree, t, h, least, p);
      if mem[mem[x].childrens[p]].num == 2 * t - 1 {
        p, tree' := SplitAndChoose(x, p, k, tree, h, least);
      } else {
        tree' := tree;
      }
      Below(mem, tree', t, h, least, p);
      child := mem[x].childrens[p];
    }

    method SplitAndChoose(x: Id, p: int, k: int, ghost tree: Tree, ghost h: nat, ghost least: int)
      returns (q: int, ghost tree': Tree)
      requires Linked(tree) && tree.id == x && Shaped(tree, t, h, least) && h > 0 && |tree.keys| < 2 * t - 1
      requires CanSplit(tree, p, t) && PlaceOf(tree, p, k)
      modifies this`mem, this`next
      ensures Arena(mem, next, t) && Grown(old(mem), mem, tree, tree', t, h, least)
      ensures Opens(tree, k, tree', q) && |tree'.kids[q].keys| < 2 * t - 1
    {
      tree' := SplitPlace(x, p, tree, h, least);
      PlaceAfterSplit(tree, p, t, old(next), k);
      HeldKeys(mem[x], tree');
      q := p;
      if k > mem[x].keys[q] {
        q := q + 1;
      }
    }

    /** SplitChild, seen as a step of an insertion. */
    method SplitPlace(x: Id, p: int, ghost tree: Tree, ghost h: nat, ghost least: int) returns (ghost tree': Tree)
      requires Linked(tree) && tree.id == x && Shaped(tree, t, h, least) && h > 0 && |tree.keys| < 2 * t - 1
      requires CanSplit(tree, p, t)
      modifies this`mem, this`next
      ensures Arena(mem, next, t) && Grown(old(mem), mem, tree, tree', t, h, least)
      ensures tree' == Split(tree, p, t, old(next)) && InOrder(tree') == InOrder(tree)
    {
      tree' := Split(tree, p, t, next);
      SplitKeepsShape(tree, t, h, least, p, next);
      SplitKeepsText(tree, p, t, next);
      KidIds(tree, p);
      KidId(tree.kids[p]);
      KidId(tree);
      SplitChild(x, p, tree);
    }

    method InsertNonfull(x: Id, k: int, ghost tree: Tree, ghost h: nat, ghost least: int) returns (ghost tree': Tree)
      requires Arena(mem, next, t) && CanTake(mem, tree, t, h, least) && tree.id == x
      modifies this`mem, this`next
      ensures Arena(mem, next, t) && Took(old(mem), mem, tree, tree', t, h, least, k)
      decreases h, 1
    {
      if mem[x].leaf {
        tree' := InsertLeaf(x, k, tree, h, least);
      } else {
        tree' := InsertBelow(x, k, tree, h, least);
      }
    }

    /** The branch for inner nodes. */
    method InsertBelow(x: Id, k: int, ghost tree: Tree, ghost h: nat, ghost least: int) returns (ghost tree': Tree)
      requires Arena(mem, next, t) && CanTake(mem, tree, t, h, least) && tree.id == x && h > 0
      modifies this`mem, this`next
      ensures Arena(mem, next, t) && Took(old(mem), mem, tree, tree', t, h, least, k)
      decreases h, 0
    {
      var p, child;
      ghost var r;
      p, child, r := ChooseChild(x, k, tree, h, least);
      ghost var mem1 := mem;
      ghost var kid := InsertNonfull(child, k, r.kids[p], h - 1, t - 1);
      tree' := WithKid(r, p, kid);
      TakenBelow(old(mem), mem1, mem, tree, r, p, kid, t, h, least, k);
    }

    /** A full root gets a new root above it. */
    method AddRoot()
      requires Valid()
      modifies this
      ensures Linked(tree) && tree == Node(root, [], [old(tree)]) && t == old(t) && height == old(height)
      ensures InOrder(tree) == old(Contents())
    {
      var r := root;
      ghost var was, memory := tree, mem;
      var node := CreateNode(false);
      root := node;
      mem := mem[node := mem[node].(childrens := mem[node].childrens[0 := r])];
      tree := Node(node, [], [was]);
      assert Holds(mem[node], tree) by {
        assert mem[node].keys[..0] == [];
      }
      RootAbove(memory, mem, was, node);
    }

    /** It is split. */
    method SplitRoot()
      requires Valid() && |tree.keys| == 2 * t - 1
      modifies this
      ensures Linked(tree) && root == tree.id && t == old(t) && height == old(height)
      ensures Halves(tree, t, height) && InOrder(tree) == old(Contents())
    {
      ghost var was := tree;
      AddRoot();
      HalvesShaped(tree, was, t, height, next);
      SplitTop();
    }

    /** btree_split_child(T, node, 0) */
    method SplitTop()
      requires Linked(tree) && root == tree.id && CanSplit(tree, 0, t) && |tree.keys| < 2 * t - 1
      modifies this`mem, this`next, this`tree
      ensures Linked(tree) && tree == Split(old(tree), 0, t, old(next))
    {
      ghost var z := next;
      SplitChild(root, 0, tree);
      tree := Split(tree, 0, t, z);
    }

    method ChooseHalf(key: int, ghost halves: Tree) returns (i: int)
      requires Rep(mem, halves) && root == halves.id && |halves.keys| == 1 && halves.kids != []
      ensures PlaceOf(halves, i, key)
    {
      HeldKeys(mem[root], halves);
      i := 0;
      if mem[root].keys[0] < key {
        i := i + 1;
      }
    }

    /** The key goes into one of the halves. */
    method InsertHalf(key: int, ghost halves: Tree, ghost h: nat) returns (ghost r: Tree)
      requires Linked(halves) && root == halves.id && Halves(halves, t, h)
      modifies this`mem, this`next
      ensures Arena(mem, next, t) && Took(old(mem), mem, halves, r, t, h + 1, 1, key)
    {
      var i := ChooseHalf(key, halves);
      r := InsertInto(i, key, halves, h);
    }

    method InsertInto(i: int, key: int, ghost halves: Tree, ghost h: nat) returns (ghost r: Tree)
      requires Linked(halves) && root == halves.id && Shaped(halves, t, h + 1, 1) && PlaceOf(halves, i, key)
      requires |halves.kids[i].keys| < 2 * t - 1
      modifies this`mem, this`next
      ensures Arena(mem, next, t) && Took(old(mem), mem, halves, r, t, h + 1, 1, key)
    {
      ghost var mem1 := mem;
      Below(mem, halves, t, h + 1, 1, i);
      ghost var half := halves.kids[i];
      ghost var kid := InsertNonfull(mem[root].childrens[i], key, half, h, t - 1);
      r := WithKid(halves, i, kid);
      TakenHere(mem1, mem, halves, i, kid, t, h + 1, 1, key);
    }

    /** Any key, one that is there already included, goes into any valid tree. */
    method Insert(key: int)
      requires Valid()
      modifies this
      ensures Valid() && t == old(t)
      ensures PutIn(old(Contents()), key, Contents())
    {
      ghost var was := Contents();
      if mem[root].num == 2 * t - 1 {
        InsertFull(key);
      } else {
        InsertRoomy(key);
      }
      PutInSorts(was, key, Contents());
    }

    /** Valid, but for the order of the keys. */
    ghost predicate Formed()
      reads this
    {
      Linked(tree) && tree.id == root && Shaped(tree, t, height, if height == 0 then 0 else 1)
    }

    method InsertFull(key: int)
      requires Valid() && |tree.keys| == 2 * t - 1
      modifies this
      ensures Formed() && t == old(t) && PutIn(old(Contents()), key, Contents())
    {
      SplitRoot();
      ghost var halves := tree;
      tree := InsertHalf(key, halves, height);
      height := height + 1;
      TakesPutsIn(halves, key, tree, height);
    }

    method InsertRoomy(key: int)
      requires Valid() && |tree.keys| < 2 * t - 1
      modifies this
      ensures Formed() && t == old(t) && PutIn(old(Contents()), key, Contents())
    {
      ghost var was := tree;
      tree := InsertNonfull(root, key, was, height, if height == 0 then 0 else 1);
      TakesPutsIn(was, key, tree, height);
    }

    // -------------------------------------------------------------- borrowing and merging

    /** The left sibling takes the key between and everything of the right one. */
    method JoinInto(left: Id, k: int, right: Id)
      requires Arena(mem, next, t) && left in mem && right in mem && left != right
      requires mem[left].num == t - 1 == mem[right].num
      modifies this`mem
      ensures left in mem && mem == old(mem)[left := mem[left]] && Arena(mem, next, t)
      ensures mem[left].num == 2 * t - 1 && mem[left].leaf == old(mem)[left].leaf
      ensures forall j :: 0 <= j < t - 1 ==> mem[left].keys[j] == old(mem)[left].keys[j]
      ensures mem[left].keys[t - 1] == k
      ensures forall j :: t <= j < 2 * t - 1 ==> mem[left].keys[j] == old(mem)[right].keys[j - t]
      ensures forall j :: 0 <= j < t ==> mem[left].childrens[j] == old(mem)[left].childrens[j]
      ensures !old(mem)[left].leaf ==>
        forall j :: t <= j < 2 * t ==> mem[left].childrens[j] == old(mem)[right].childrens[j - t]
    {
      var keys := mem[left].keys[t - 1 := k];
      keys := Copy(keys, t, mem[right].keys, 0, t - 1);
      var childrens := mem[left].childrens;
      if !mem[left].leaf {
        childrens := Copy(childrens, t, mem[right].childrens, 0, t);
      }
      mem := mem[left := mem[left].(keys := keys, childrens := childrens, num := mem[left].num + t)];
    }

    /** The parent closes the gap.  The loop ends with i == num, and the entry behind the next is
        cleared: outside the array when the node was full. */
    method CloseGap(x: Id, idx: int) returns (fits: bool)
      requires Arena(mem, next, t) && x in mem && 0 <= idx < mem[x].num <= 2 * t - 1
      modifies this`mem
      ensures x in mem && mem == old(mem)[x := mem[x]] && Arena(mem, next, t)
      ensures fits <==> old(mem)[x].num <= 2 * t - 2
      ensures mem[x].num == old(mem)[x].num - 1 && mem[x].leaf == old(mem)[x].leaf
      ensures forall j :: 0 <= j < mem[x].num ==> mem[x].keys[j] == old(mem)[x].keys[if j < idx then j else j + 1]
      ensures forall j :: 0 <= j <= mem[x].num ==>
        mem[x].childrens[j] == old(mem)[x].childrens[if j <= idx then j else j + 1]
    {
      var num := mem[x].num;
      var keys := ShiftDown(mem[x].keys, idx + 1, num);
      var childrens := ShiftDown(mem[x].childrens, idx + 2, num + 1);
      fits := num + 1 < 2 * t;
      if fits {
        childrens := childrens[num + 1 := NULL];
      }
      mem := mem[x := mem[x].(keys := keys, childrens := childrens, num := num - 1)];
    }

    /** The cells that a merge writes and removes. */
    method MergeCells(x: Id, idx: int, left: Id, right: Id, ghost tree: Tree) returns (fits: bool)
      requires Arena(mem, next, t) && CanMerge(tree, idx, t) && x in mem && Holds(mem[x], tree)
      requires left in mem && right in mem && left != right && left != x && right != x
      requires Holds(mem[left], tree.kids[idx]) && Holds(mem[right], tree.kids[idx + 1])
      modifies this`mem
      ensures Arena(mem, next, t) && x in mem && left in mem && right !in mem
      ensures Same(old(mem), mem, {x, left, right}) && (fits <==> |tree.keys| <= 2 * t - 2)
      ensures Holds(mem[x], Merge(tree, idx))
      ensures Holds(mem[left], Merged(tree.kids[idx], tree.keys[idx], tree.kids[idx + 1]))
    {
      ghost var a, b, above := mem[left], mem[right], mem[x];
      HeldKeys(above, tree);
      JoinInto(left, mem[x].keys[idx], right);
      HoldsMerged(a, b, tree.kids[idx], tree.keys[idx], tree.kids[idx + 1], t, mem[left]);
      mem := mem - {right};
      fits := CloseGap(x, idx);
      HoldsParent(above, tree, idx, mem[x].keys, mem[x].childrens);
    }

    /** btree_merge.  A root left without keys gives way to the merged node. */
    method MergeChildren(x: Id, idx: int, ghost tree: Tree) returns (fits: bool)
      requires Linked(tree) && tree.id == x && CanMerge(tree, idx, t)
      requires |tree.keys| >= 2 || x == root
      modifies this`mem, this`root
      ensures fits <==> |tree.keys| <= 2 * t - 2
      ensures
        if |tree.keys| >= 2 then Linked(Merge(tree, idx)) && root == old(root)
        else Linked(Merge(tree, idx).kids[0]) && root == Merge(tree, idx).kids[0].id && x !in mem
      ensures tree.kids[idx + 1].id !in mem
      ensures Same(old(mem), mem, Ids(tree)) && Ids(Merge(tree, idx)) <= Ids(tree)
    {
      var left := mem[x].childrens[idx];
      var right := mem[x].childrens[idx + 1];
      ghost var was := mem;
      TwoBelow(mem, tree, idx);
      fits := MergeCells(x, idx, left, right, tree);
      MergeLinks(was, mem, tree, idx, t);
      if mem[x].num == 0 {
        Collapse(x, left, Merge(tree, idx));
      }
    }

    /** A node without keys is removed, and its only child becomes the root. */
    method Collapse(x: Id, left: Id, ghost tree: Tree)
      requires Linked(tree) && tree.id == x && |tree.kids| == 1 && tree.kids[0].id == left
      modifies this`mem, this`root
      ensures Linked(tree.kids[0]) && root == left && mem == old(mem) - {x}
    {
      root := left;
      assert Stands(mem, tree.kids[0]) && x !in Ids(tree.kids[0]);
      RepKept(mem, mem - {x}, tree.kids[0]);
      mem := mem - {x};
    }

    /** child takes a key and a link behind its own. */
    method TakeAtEnd(child: Id, k: int, link: Id, ghost tree: Tree, ghost more: seq<Tree>)
      requires Arena(mem, next, t) && child in mem && Holds(mem[child], tree) && |tree.keys| < 2 * t - 1
      requires if tree.kids == [] then more == [] else |more| == 1 && more[0].id == link
      modifies this`mem
      ensures child in mem && mem == old(mem)[child := mem[child]] && Arena(mem, next, t)
      ensures Holds(mem[child], Node(tree.id, tree.keys + [k], tree.kids + more))
    {
      var cell := mem[child];
      HeldKeys(cell, tree);
      var n := cell.num;
      mem := mem[child := cell.(keys := cell.keys[n := k], childrens := cell.childrens[n + 1 := link], num := n + 1)];
      ghost var r := Node(tree.id, tree.keys + [k], tree.kids + more);
      assert mem[child].keys[..n + 1] == r.keys;
    }

    /** right loses its first key and link. */
    method DropFirst(right: Id, ghost tree: Tree)
      requires Arena(mem, next, t) && right in mem && Holds(mem[right], tree) && 1 < |tree.keys| <= 2 * t - 1
      modifies this`mem
      ensures right in mem && mem == old(mem)[right := mem[right]] && Arena(mem, next, t)
      ensures Holds(mem[right], Node(tree.id, tree.keys[1..], if tree.kids == [] then [] else tree.kids[1..]))
    {
      var cell := mem[right];
      HeldKeys(cell, tree);
      var n := cell.num;
      var keys := ShiftDown(cell.keys, 1, n);
      var childrens := ShiftDown(cell.childrens, 1, n);
      keys := keys[n - 1 := 0];
      childrens := childrens[n - 1 := childrens[n]];
      childrens := childrens[n := NULL];
      mem := mem[right := cell.(keys := keys, childrens := childrens, num := n - 1)];
      ghost var r := Node(tree.id, tree.keys[1..], if tree.kids == [] then [] else tree.kids[1..]);
      assert keys[..n - 1] == r.keys;
      assert forall j :: 0 <= j < |r.kids| ==> r.kids[j] == tree.kids[j + 1];
    }

    /** child takes a key and a link before its own. */
    method TakeAtFront(child: Id, k: int, link: Id, ghost tree: Tree, ghost more: seq<Tree>)
      requires Arena(mem, next, t) && child in mem && Holds(mem[child], tree) && |tree.keys| < 2 * t - 1
      requires if tree.kids == [] then more == [] else |more| == 1 && more[0].id == link
      modifies this`mem
      ensures child in mem && mem == old(mem)[child := mem[child]] && Arena(mem, next, t)
      ensures Holds(mem[child], Node(tree.id, [k] + tree.keys, more + tree.kids))
    {
      var cell := mem[child];
      HeldKeys(cell, tree);
      var n := cell.num;
      var keys := ShiftUp(cell.keys, 0, n - 1);
      var childrens := ShiftUp(cell.childrens, 1, n);
      childrens := childrens[1 := childrens[0]];
      childrens := childrens[0 := link];
      keys := keys[0 := k];
      mem := mem[child := cell.(keys := keys, childrens := childrens, num := n + 1)];
      ghost var r := Node(tree.id, [k] + tree.keys, more + tree.kids);
      assert keys[..n + 1] == r.keys;
      assert forall j :: 1 <= j < |r.kids| ==> r.kids[j] == tree.kids[j - 1];
    }

    /** left loses its last key and link. */
    method DropLast(left: Id, ghost tree: Tree)
      requires Arena(mem, next, t) && left in mem && Holds(mem[left], tree) && 1 < |tree.keys| <= 2 * t - 1
      modifies this`mem
      ensures left in mem && mem == old(mem)[left := mem[left]] && Arena(mem, next, t)
      ensures
        Holds(mem[left], Node(tree.id, tree.keys[..|tree.keys| - 1],
                              if tree.kids == [] then [] else tree.kids[..|tree.kids| - 1]))
    {
      var cell := mem[left];
      HeldKeys(cell, tree);
      var n := cell.num;
      mem := mem[left := cell.(keys := cell.keys[n - 1 := 0], childrens := cell.childrens[n := NULL], num := n - 1)];
      assert mem[left].keys[..n - 1] == tree.keys[..n - 1];
    }

    /** The branch "borrow from next": a key goes from right to the node and from there to child. */
    method MoveDown(x: Id, idx: int, child: Id, right: Id, ghost c: Tree, ghost r: Tree, ghost more: seq<Tree>)
      requires Arena(mem, next, t) && x in mem && child in mem && right in mem
      requires x != child && x != right && child != right && 0 <= idx < mem[x].num <= 2 * t - 1
      requires Holds(mem[child], c) && Holds(mem[right], r) && |c.keys| < 2 * t - 1 && 1 < |r.keys| <= 2 * t - 1
      requires (c.kids == [] <==> r.kids == []) && more == if r.kids == [] then [] else r.kids[..1]
      modifies this`mem
      ensures Arena(mem, next, t) && mem.Keys == old(mem).Keys && Same(old(mem), mem, {x, child, right})
      ensures mem[x] == old(mem)[x].(keys := old(mem)[x].keys[idx := r.keys[0]])
      ensures Holds(mem[child], Node(c.id, c.keys + [old(mem)[x].keys[idx]], c.kids + more))
      ensures Holds(mem[right], Node(r.id, r.keys[1..], if r.kids == [] then [] else r.kids[1..]))
    {
      HeldKeys(mem[right], r);
      TakeAtEnd(child, mem[x].keys[idx], mem[right].childrens[0], c, more);
      mem := mem[x := mem[x].(keys := mem[x].keys[idx := mem[right].keys[0]])];
      DropFirst(right, r);
    }

    method BorrowFromNext(x: Id, idx: int, ghost tree: Tree)
      requires Linked(tree) && tree.id == x && CanLend(tree, idx, t)
      requires |tree.kids[idx].keys| == t - 1 && |tree.kids[idx + 1].keys| >= t
      modifies this`mem
      ensures Linked(BorrowedNext(tree, idx)) && Same(old(mem), mem, Ids(tree))
      ensures Ids(BorrowedNext(tree, idx)) <= Ids(tree)
    {
      ghost var c, r := tree.kids[idx], tree.kids[idx + 1];
      TwoBelow(mem, tree, idx);
      HeldKeys(mem[x], tree);
      ghost var a, b := NextParts(tree, idx);
      MoveDown(x, idx, mem[x].childrens[idx], mem[x].childrens[idx + 1], c, r, if r.kids == [] then [] else r.kids[..1]);
      LendLinks(old(mem), mem, tree, idx, r.keys[0], a, b);
    }

    /** The branch "borrow from prev": a key goes from left to the node and from there to child. */
    method MoveUp(x: Id, idx: int, left: Id, child: Id, ghost l: Tree, ghost c: Tree, ghost more: seq<Tree>)
      requires Arena(mem, next, t) && x in mem && child in mem && left in mem
      requires x != child && x != left && child != left && 0 <= idx < mem[x].num <= 2 * t - 1
      requires Holds(mem[child], c) && Holds(mem[left], l) && |c.keys| < 2 * t - 1 && 1 < |l.keys| <= 2 * t - 1
      requires (c.kids == [] <==> l.kids == []) && more == if l.kids == [] then [] else l.kids[|l.kids| - 1..]
      modifies this`mem
      ensures Arena(mem, next, t) && mem.Keys == old(mem).Keys && Same(old(mem), mem, {x, child, left})
      ensures mem[x] == old(mem)[x].(keys := old(mem)[x].keys[idx := l.keys[|l.keys| - 1]])
      ensures Holds(mem[child], Node(c.id, [old(mem)[x].keys[idx]] + c.keys, more + c.kids))
      ensures
        Holds(mem[left], Node(l.id, l.keys[..|l.keys| - 1], if l.kids == [] then [] else l.kids[..|l.kids| - 1]))
    {
      HeldKeys(mem[left], l);
      TakeAtFront(child, mem[x].keys[idx], mem[left].childrens[mem[left].num], c, more);
      mem := mem[x := mem[x].(keys := mem[x].keys[idx := mem[left].keys[mem[left].num - 1]])];
      DropLast(left, l);
    }

    /** Its child is the one at idx + 1. */
    method BorrowFromPrev(x: Id, idx: int, ghost tree: Tree)
      requires Linked(tree) && tree.id == x && CanLend(tree, idx, t)
      requires |tree.kids[idx].keys| >= t && |tree.kids[idx + 1].keys| == t - 1
      modifies this`mem
      ensures Linked(BorrowedPrev(tree, idx)) && Same(old(mem), mem, Ids(tree))
      ensures Ids(BorrowedPrev(tree, idx)) <= Ids(tree)
    {
      ghost var l, c := tree.kids[idx], tree.kids[idx + 1];
      TwoBelow(mem, tree, idx);
      HeldKeys(mem[x], tree);
      ghost var a, b := PrevParts(tree, idx);
      MoveUp(x, idx, mem[x].childrens[idx], mem[x].childrens[idx + 1], l, c,
             if l.kids == [] then [] else l.kids[|l.kids| - 1..]);
      LendLinks(old(mem), mem, tree, idx, l.keys[|l.keys| - 1], a, b);
    }

    /** The steps taken when the child to descend into has only t - 1 keys: it borrows from a sibling
        that can spare a key, or is merged with one.  One of the two is always possible. */
    method Refill(x: Id, idx: int, ghost tree: Tree, ghost h: nat, ghost least: int)
      returns (child: Id, fits: bool, ghost r: Tree, ghost kid: Tree)
      requires Linked(tree) && tree.id == x && Shaped(tree, t, h, least) && h > 0 && least >= 1
      requires 0 <= idx < |tree.kids| && |tree.kids[idx].keys| == t - 1
      requires |tree.keys| >= 2 || x == root
      modifies this`mem, this`root
      ensures Linked(r) && Ids(r) <= Ids(tree) && Same(old(mem), mem, Ids(tree))
      ensures Enriched(tree, idx, t, h, least - 1, r, kid) && child == kid.id
      ensures root == if old(root) == x then r.id else old(root)
      ensures fits <==> |tree.keys| <= 2 * t - 2 || Spare(tree, idx, t)
    {
      child := mem[x].childrens[idx];
      fits := true;
      var left, right := Siblings(x, idx, tree, h, least);
      SpareOrPoor(x, idx, left, right, tree);
      if (left != NULL && mem[left].num >= t) || (right != NULL && mem[right].num >= t) {
        r, kid := Borrow(x, idx, left, right, tree, h, least);
      } else {
        // the second test of the source holds whenever its first fails
        child, fits, r, kid := Join(x, idx, left, right, tree, h, least);
      }
    }

    /** Before a deletion descends into the first child of that tree, the write does not fit. */
    method RefillBelowFullParent() returns (fits: bool)
      requires Valid() && t == 2 && tree == FullParent()
      modifies this`mem, this`root
      ensures !fits
    {
      ghost var r, kid;
      var child;
      child, fits, r, kid := Refill(root, 0, tree, height, 1);
    }

    /** left and right are the siblings of the child at idx, as far as there are any. */
    ghost predicate AreSiblings(x: Id, idx: int, left: Id, right: Id, tree: Tree)
      reads this
    {
      && x in mem && 0 <= idx < |tree.kids| && |tree.kids| == |tree.keys| + 1 && idx < |mem[x].childrens|
      && mem[x].childrens[idx] == tree.kids[idx].id
      && (left == NULL <==> idx == 0) && (right == NULL <==> idx == |tree.keys|)
      && (left != NULL ==> left in mem && left == tree.kids[idx - 1].id
                           && mem[left].num == |tree.kids[idx - 1].keys| >= t - 1 && CanLend(tree, idx - 1, t))
      && (right != NULL ==> right in mem && right == tree.kids[idx + 1].id
                            && mem[right].num == |tree.kids[idx + 1].keys| >= t - 1 && CanLend(tree, idx, t))
    }

    /** A sibling has a key to spare, or all have the least number. */
    lemma SpareOrPoor(x: Id, idx: int, left: Id, right: Id, tree: Tree)
      requires AreSiblings(x, idx, left, right, tree)
      ensures Spare(tree, idx, t) <==> (left != NULL && mem[left].num >= t) || (right != NULL && mem[right].num >= t)
      ensures !Spare(tree, idx, t) ==>
        (left == NULL || mem[left].num == t - 1) && (right == NULL || mem[right].num == t - 1)
    {
    }

    method Siblings(x: Id, idx: int, ghost tree: Tree, ghost h: nat, ghost least: int) returns (left: Id, right: Id)
      requires Linked(tree) && tree.id == x && Shaped(tree, t, h, least) && h > 0 && least >= 1
      requires 0 <= idx < |tree.kids|
      ensures AreSiblings(x, idx, left, right, tree)
    {
      Neighbours(mem, tree, t, h, least, idx);
      left, right := NULL, NULL;
      if idx - 1 >= 0 {
        left := mem[x].childrens[idx - 1];
      }
      if idx + 1 <= mem[x].num {
        right := mem[x].childrens[idx + 1];
      }
    }

    /** One of the siblings has a key to spare. */
    method Borrow(x: Id, idx: int, left: Id, right: Id, ghost tree: Tree, ghost h: nat, ghost least: int)
      returns (ghost r: Tree, ghost kid: Tree)
      requires Linked(tree) && tree.id == x && Shaped(tree, t, h, least) && h > 0
      requires AreSiblings(x, idx, left, right, tree) && |tree.kids[idx].keys| == t - 1
      requires (left != NULL && mem[left].num >= t) || (right != NULL && mem[right].num >= t)
      modifies this`mem
      ensures Linked(r) && Ids(r) <= Ids(tree) && Same(old(mem), mem, Ids(tree)) && r.id == x
      ensures Enriched(tree, idx, t, h, least - 1, r, kid) && kid.id == tree.kids[idx].id
    {
      var next := RicherRight(left, right);
      if next {
        r, kid := LendAt(x, idx, tree, h, least, true);
      } else {
        r, kid := LendAt(x, idx - 1, tree, h, least, false);
      }
    }

    /** None has: the child is merged with one of them. */
    method Join(x: Id, idx: int, left: Id, right: Id, ghost tree: Tree, ghost h: nat, ghost least: int)
      returns (child: Id, fits: bool, ghost r: Tree, ghost kid: Tree)
      requires Linked(tree) && tree.id == x && Shaped(tree, t, h, least) && h > 0 && least >= 1
      requires AreSiblings(x, idx, left, right, tree) && |tree.kids[idx].keys| == t - 1
      requires (left == NULL || mem[left].num == t - 1) && (right == NULL || mem[right].num == t - 1)
      requires |tree.keys| >= 2 || x == root
      modifies this`mem, this`root
      ensures Linked(r) && Ids(r) <= Ids(tree) && Same(old(mem), mem, Ids(tree))
      ensures Enriched(tree, idx, t, h, least - 1, r, kid) && child == kid.id
      ensures root == if old(root) == x then r.id else old(root)
      ensures fits <==> |tree.keys| <= 2 * t - 2
    {
      child := mem[x].childrens[idx];
      if left != NULL && mem[left].num == t - 1 {
        fits, r, kid := MergeAt(x, idx - 1, tree, h, least, idx);
        child := left;
      } else {
        assert right != NULL && mem[right].num == t - 1;
        fits, r, kid := MergeAt(x, idx, tree, h, least, idx);
      }
    }

    /** Whether to borrow from the right sibling: the richer of two, or the only one. */
    method RicherRight(left: Id, right: Id) returns (next: bool)
      requires (left != NULL ==> left in mem) && (right != NULL ==> right in mem)
      ensures next <==> right != NULL && mem[right].num >= t && (left == NULL || mem[right].num > mem[left].num)
    {
      var richR := false;
      if right != NULL {
        richR := true;
      }
      if left != NULL && right != NULL {
        richR := mem[right].num > mem[left].num;
      }
      next := right != NULL && mem[right].num >= t && richR;
    }

    /** Borrowing, seen as such a step: the child at i from its next sibling or the one at i + 1
        from its previous one. */
    method LendAt(x: Id, i: int, ghost tree: Tree, ghost h: nat, ghost least: int, next: bool)
      returns (ghost r: Tree, ghost kid: Tree)
      requires Linked(tree) && tree.id == x && Shaped(tree, t, h, least) && h > 0 && CanLend(tree, i, t)
      requires if next then |tree.kids[i].keys| == t - 1 && |tree.kids[i + 1].keys| >= t
               else |tree.kids[i].keys| >= t && |tree.kids[i + 1].keys| == t - 1
      modifies this`mem
      ensures Linked(r) && Ids(r) <= Ids(tree) && Same(old(mem), mem, Ids(tree)) && r.id == x
      ensures
        var which := if next then i else i + 1;
        Enriched(tree, which, t, h, least - 1, r, kid) && kid.id == tree.kids[which].id
    {
      if next {
        BorrowedNextEnriches(tree, t, h, least, i);
        BorrowFromNext(x, i, tree);
        r, kid := BorrowedNext(tree, i), BorrowedNext(tree, i).kids[i];
      } else {
        BorrowedPrevEnriches(tree, t, h, least, i);
        BorrowFromPrev(x, i, tree);
        r, kid := BorrowedPrev(tree, i), BorrowedPrev(tree, i).kids[i + 1];
      }
    }

    /** MergeChildren, seen as such a step. */
    method MergeAt(x: Id, i: int, ghost tree: Tree, ghost h: nat, ghost least: int, ghost which: int)
      returns (fits: bool, ghost r: Tree, ghost kid: Tree)
      requires Linked(tree) && tree.id == x && Shaped(tree, t, h, least) && h > 0 && least >= 1
      requires CanMerge(tree, i, t) && i <= which <= i + 1
      requires |tree.keys| >= 2 || x == root
      modifies this`mem, this`root
      ensures Linked(r) && Ids(r) <= Ids(tree) && Same(old(mem), mem, Ids(tree))
      ensures Enriched(tree, which, t, h, least - 1, r, kid) && kid.id == tree.kids[i].id
      ensures root == if old(root) == x then r.id else old(root)
      ensures fits <==> |tree.keys| <= 2 * t - 2
    {
      ghost var m := Merge(tree, i);
      assert m.kids[i] == Merged(tree.kids[i], tree.keys[i], tree.kids[i + 1]);
      KidId(tree.kids[i]);
      assert tree.id !in Ids(tree.kids[i]);
      if |tree.keys| >= 2 {
        MergeEnriches(tree, t, h, least, i, which);
      } else {
        CollapseEnriches(tree, t, h, least, which);
      }
      fits := MergeChildren(x, i, tree);
      r, kid := if |tree.keys| >= 2 then m else m.kids[0], m.kids[i];
      KidIds(m, i);
    }

    /** The keys that main inserts, in any number and order. */
    method InsertAll(keys: seq<int>)
      requires Valid()
      modifies this
      ensures Valid() && t == old(t)
      ensures multiset(Contents()) == multiset(old(Contents())) + multiset(keys)
    {
      ghost var first, bag := multiset(Contents()), multiset(Contents());
      var i := 0;
      NoneAndAll(first, keys);
      while i < |keys|
        invariant 0 <= i <= |keys| && Valid() && t == old(t)
        invariant Holding(bag) && bag == first + multiset(keys[..i])
      {
        InsertNext(keys[i], bag);
        BagStep(first, bag, keys, i);
        bag := bag + multiset{keys[i]};
        i := i + 1;
      }
    }

    ghost predicate Holding(bag: multiset<int>)
      reads this
    {
      multiset(Contents()) == bag
    }

    /** Insert, counting what is there. */
    method InsertNext(key: int, ghost bag: multiset<int>)
      requires Valid() && Holding(bag)
      modifies this
      ensures Valid() && t == old(t) && Holding(bag + multiset{key})
    {
      ghost var was := Contents();
      Insert(key);
      PutInSorts(was, key, Contents());
    }
  }

  lemma NoneAndAll(first: multiset<int>, keys: seq<int>)
    ensures first + multiset(keys[..0]) == first && keys[..|keys|] == keys
  {
    assert keys[..0] == [];
  }

  lemma BagStep(first: multiset<int>, bag: multiset<int>, keys: seq<int>, i: int)
    requires 0 <= i < |keys| && bag == first + multiset(keys[..i])
    ensures bag + multiset{keys[i]} == first + multiset(keys[..i + 1])
  {
    assert keys[..i + 1] == keys[..i] + [keys[i]];
  }

  /** A root with a single key over two nodes with the least number of keys. */
  ghost predicate Halves(tree: Tree, t: int, h: nat) {
    Shaped(tree, t, h + 1, 1) && |tree.keys| == 1 && |tree.kids[0].keys| == t - 1 == |tree.kids[1].keys|
  }

  /** A new root over one full node, and its two halves. */
  lemma HalvesShaped(above: Tree, was: Tree, t: int, h: nat, z: Id)
    requires t >= 2 && above == Node(above.id, [], [was])
    requires Shaped(was, t, h, if h == 0 then 0 else 1) && |was.keys| == 2 * t - 1
    ensures CanSplit(above, 0, t) && Halves(Split(above, 0, t, z), t, h)
    ensures InOrder(Split(above, 0, t, z)) == InOrder(above)
  {
    assert Shaped(was, t, h, t - 1);
    assert Shaped(above, t, h + 1, 0);
    SplitKeepsShape(above, t, h + 1, 0, 0, z);
    SplitKeepsText(above, 0, t, z);
    var s := Split(above, 0, t, z);
    assert s.kids[0] == Lower(was, t) && s.kids[1] == Upper(was, t, z);
    assert |s.keys| == 1 && Shaped(s, t, h + 1, 0);
    forall i | 0 <= i < |s.kids| ensures Shaped(s.kids[i], t, h, t - 1) {
      assert Shaped(s.kids[i], t, h + 1 - 1, t - 1);
    }
  }

  /** Two rewrites in a row. */
  lemma SameSteps(a: Memory, b: Memory, c: Memory, first: set<Id>, second: set<Id>)
    requires Same(a, b, first) && Same(b, c, second) && a.Keys <= b.Keys
    requires forall id :: id in second && id in a ==> id in first
    ensures Same(a, c, first)
  {
  }
}
