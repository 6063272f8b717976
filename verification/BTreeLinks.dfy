/** How linked B-tree nodes of fixed capacity represent the trees of BTreeShapes. */
module BTreeLinks {
  import opened BTreeShapes

  /** struct _btree_node: the live part of keys is [..num], of childrens [..num + 1]. */
  datatype Cell = Cell(keys: seq<int>, childrens: seq<Id>, num: int, leaf: bool)

  type Memory = map<Id, Cell>

  ghost function Ids(tree: Tree): set<Id> {
    {tree.id} + set i, x | 0 <= i < |tree.kids| && x in Ids(tree.kids[i]) :: x
  }

  /** No node occurs twice. */
  ghost predicate Distinct(tree: Tree) {
    && (forall i {:trigger Distinct(tree.kids[i])} {:trigger Ids(tree.kids[i])} ::
          0 <= i < |tree.kids| ==> Distinct(tree.kids[i]) && tree.id !in Ids(tree.kids[i]))
    && (forall i, j {:trigger Ids(tree.kids[i]), Ids(tree.kids[j])} ::
          0 <= i < j < |tree.kids| ==> Ids(tree.kids[i]) !! Ids(tree.kids[j]))
  }

  /** A cell holds the keys and the links of a node. */
  ghost predicate Holds(cell: Cell, tree: Tree) {
    && cell.num == |tree.keys| <= |cell.keys| && cell.keys[..cell.num] == tree.keys
    && (cell.leaf <==> tree.kids == [])
    && Regular(tree) && |tree.kids| <= |cell.childrens|
    && forall i :: 0 <= i < |tree.kids| ==> cell.childrens[i] == tree.kids[i].id
  }

  ghost predicate Rep(mem: Memory, tree: Tree) {
    && tree.id in mem && Holds(mem[tree.id], tree)
    && forall i {:trigger Rep(mem, tree.kids[i])} :: 0 <= i < |tree.kids| ==> Rep(mem, tree.kids[i])
  }

  /** The memory holds the tree, each of its nodes in a cell of its own. */
  ghost predicate Stands(mem: Memory, tree: Tree) {
    Rep(mem, tree) && Distinct(tree)
  }

  /** Every node was allocated with room for 2t - 1 keys. */
  ghost predicate Arena(mem: Memory, next: Id, t: int) {
    && t >= 2 && next > 0
    && forall id :: id in mem ==> 0 < id < next && |mem[id].keys| == 2 * t - 1 && |mem[id].childrens| == 2 * t
  }

  /** Nodes outside a set are untouched. */
  ghost predicate Same(mem: Memory, mem': Memory, outside: set<Id>) {
    forall id :: id in mem && id !in outside ==> id in mem' && mem'[id] == mem[id]
  }

  lemma {:induction false} RepKept(mem: Memory, mem': Memory, tree: Tree)
    requires Rep(mem, tree)
    requires forall id :: id in Ids(tree) && id in mem ==> id in mem' && mem'[id] == mem[id]
    ensures Rep(mem', tree)
  {
    forall i | 0 <= i < |tree.kids| ensures Rep(mem', tree.kids[i]) {
      forall id | id in Ids(tree.kids[i]) && id in mem ensures id in mem' && mem'[id] == mem[id] {
        assert id in Ids(tree);
      }
      RepKept(mem, mem', tree.kids[i]);
    }
  }

  lemma {:induction false} IdsAllocated(mem: Memory, tree: Tree)
    requires Rep(mem, tree)
    ensures forall id :: id in Ids(tree) ==> id in mem
  {
    forall i | 0 <= i < |tree.kids| ensures forall id :: id in Ids(tree.kids[i]) ==> id in mem {
      IdsAllocated(mem, tree.kids[i]);
    }
  }

  lemma KidIds(tree: Tree, i: int)
    requires 0 <= i < |tree.kids|
    ensures Ids(tree.kids[i]) <= Ids(tree)
  {
  }

  lemma KidId(tree: Tree)
    ensures tree.id in Ids(tree)
  {
  }

  /** A kid's subtree has been rewritten in place. */
  ghost function WithKid(tree: Tree, i: int, kid: Tree): Tree
    requires 0 <= i < |tree.kids|
  {
    Node(tree.id, tree.keys, tree.kids[i := kid])
  }

  lemma RepWithKid(mem: Memory, mem': Memory, tree: Tree, i: int, kid: Tree)
    requires Rep(mem, tree) && Distinct(tree) && 0 <= i < |tree.kids|
    requires Rep(mem', kid) && kid.id == tree.kids[i].id
    requires Same(mem, mem', Ids(tree.kids[i]))
    ensures Rep(mem', WithKid(tree, i, kid))
  {
    var r := WithKid(tree, i, kid);
    forall j | 0 <= j < |r.kids| ensures Rep(mem', r.kids[j]) {
      if j != i {
        assert Ids(tree.kids[i]) !! Ids(tree.kids[j]);
        RepKept(mem, mem', tree.kids[j]);
      }
    }
  }

  lemma DistinctWithKid(tree: Tree, i: int, kid: Tree, before: set<Id>)
    requires Distinct(tree) && Ids(tree) <= before && 0 <= i < |tree.kids|
    requires Distinct(kid) && kid.id == tree.kids[i].id
    requires forall id :: id in Ids(kid) && id in before ==> id in Ids(tree.kids[i])
    ensures Distinct(WithKid(tree, i, kid))
    ensures forall id :: id in Ids(WithKid(tree, i, kid)) && id in before ==> id in Ids(tree)
  {
    var r := WithKid(tree, i, kid);
    KidId(tree);
    forall j | 0 <= j < |r.kids|
      ensures Distinct(r.kids[j]) && tree.id !in Ids(r.kids[j])
      ensures forall id :: id in Ids(r.kids[j]) && id in before ==> id in Ids(tree.kids[j]) && id in Ids(tree)
    {
      KidIds(tree, j);
    }
    forall j, l | 0 <= j < l < |r.kids| ensures Ids(r.kids[j]) !! Ids(r.kids[l]) {
      KidIds(tree, j);
      KidIds(tree, l);
      assert Ids(tree.kids[j]) !! Ids(tree.kids[l]);
    }
  }

  // ---------------------------------------------------------------- regrouping siblings

  ghost function IdsOf(kids: seq<Tree>): set<Id> {
    set i, x | 0 <= i < |kids| && x in Ids(kids[i]) :: x
  }

  /** Trees that share no node, each without repetition. */
  ghost predicate Apart(kids: seq<Tree>) {
    && (forall i {:trigger Distinct(kids[i])} {:trigger Ids(kids[i])} :: 0 <= i < |kids| ==> Distinct(kids[i]))
    && (forall i, j {:trigger Ids(kids[i]), Ids(kids[j])} :: 0 <= i < j < |kids| ==> Ids(kids[i]) !! Ids(kids[j]))
  }

  lemma DistinctIsApart(tree: Tree)
    ensures Ids(tree) == {tree.id} + IdsOf(tree.kids)
    ensures Distinct(tree) <==> Apart(tree.kids) && tree.id !in IdsOf(tree.kids)
  {
  }

  lemma IdsOfJoin(a: seq<Tree>, b: seq<Tree>)
    ensures IdsOf(a + b) == IdsOf(a) + IdsOf(b)
  {
    forall x | x in IdsOf(b) ensures x in IdsOf(a + b) {
      var i :| 0 <= i < |b| && x in Ids(b[i]);
      assert (a + b)[|a| + i] == b[i];
    }
    forall x | x in IdsOf(a) ensures x in IdsOf(a + b) {
      var i :| 0 <= i < |a| && x in Ids(a[i]);
      assert (a + b)[i] == a[i];
    }
  }

  lemma ApartJoin(a: seq<Tree>, b: seq<Tree>)
    ensures Apart(a + b) <==> Apart(a) && Apart(b) && IdsOf(a) !! IdsOf(b)
  {
    var c := a + b;
    assert forall i :: 0 <= i < |a| ==> c[i] == a[i];
    assert forall i :: 0 <= i < |b| ==> c[|a| + i] == b[i];
    if Apart(c) {
      forall i, j | 0 <= i < j < |b| ensures Ids(b[i]) !! Ids(b[j]) {
        assert Ids(c[|a| + i]) !! Ids(c[|a| + j]);
      }
      forall i, j | 0 <= i < |a| && 0 <= j < |b| ensures Ids(a[i]) !! Ids(b[j]) {
        assert Ids(c[i]) !! Ids(c[|a| + j]);
      }
      forall i | 0 <= i < |b| ensures Distinct(b[i]) {
        assert Distinct(c[|a| + i]);
      }
    }
    if Apart(a) && Apart(b) && IdsOf(a) !! IdsOf(b) {
      forall i, j | 0 <= i < j < |c| ensures Ids(c[i]) !! Ids(c[j]) {
        if j >= |a| && i < |a| {
          assert Ids(a[i]) <= IdsOf(a) && Ids(b[j - |a|]) <= IdsOf(b);
        }
      }
    }
  }

  /** The children of a row of siblings, from left to right. */
  ghost function Grand(row: seq<Tree>): seq<Tree> {
    if row == [] then [] else row[0].kids + Grand(row[1..])
  }

  ghost function Roots(row: seq<Tree>): set<Id> {
    set i | 0 <= i < |row| :: row[i].id
  }

  lemma RowIds(row: seq<Tree>)
    ensures IdsOf(row) == Roots(row) + IdsOf(Grand(row))
  {
    if row != [] {
      var top := row[0];
      assert row == [top] + row[1..];
      IdsOfJoin([top], row[1..]);
      IdsOfJoin(top.kids, Grand(row[1..]));
      DistinctIsApart(top);
      assert [top][0] == top && IdsOf([top]) == Ids(top);
      RowIds(row[1..]);
      forall x | x in Roots(row) ensures x == top.id || x in Roots(row[1..]) {
        var i :| 0 <= i < |row| && row[i].id == x;
        if i > 0 {
          assert row[1..][i - 1] == row[i];
        }
      }
      forall x | x in Roots(row[1..]) ensures x in Roots(row) {
        var i :| 0 <= i < |row[1..]| && row[1..][i].id == x;
        assert row[i + 1].id == x;
      }
      assert row[0].id in Roots(row);
    }
  }

  ghost predicate RootsDiffer(row: seq<Tree>) {
    forall i, j :: 0 <= i < j < |row| ==> row[i].id != row[j].id
  }

  /** A row of siblings shares no node exactly when the children do not and the siblings are new among them. */
  lemma RowApart(row: seq<Tree>)
    ensures Apart(row) <==> Apart(Grand(row)) && RootsDiffer(row) && Roots(row) !! IdsOf(Grand(row))
  {
    if row != [] {
      var top, rest := row[0], row[1..];
      assert row == [top] + rest;
      ApartJoin([top], rest);
      ApartJoin(top.kids, Grand(rest));
      IdsOfJoin(top.kids, Grand(rest));
      DistinctIsApart(top);
      assert [top][0] == top && IdsOf([top]) == Ids(top);
      RowIds(rest);
      RowApart(rest);
    }
  }

  lemma MiddleApart(before: seq<Tree>, row: seq<Tree>, behind: seq<Tree>)
    ensures Apart(before + row + behind) <==>
      && Apart(before) && Apart(row) && Apart(behind)
      && IdsOf(before) !! IdsOf(row) && IdsOf(before) !! IdsOf(behind) && IdsOf(row) !! IdsOf(behind)
    ensures IdsOf(before + row + behind) == IdsOf(before) + IdsOf(row) + IdsOf(behind)
  {
    ApartJoin(before + row, behind);
    ApartJoin(before, row);
    IdsOfJoin(before + row, behind);
    IdsOfJoin(before, row);
  }

  /** The siblings in `row` hand their children over to `row'`, whose nodes are among them or new. */
  lemma RegroupedDistinct(tree: Tree, keys: seq<int>, before: seq<Tree>, row: seq<Tree>, behind: seq<Tree>,
                          row': seq<Tree>, used: set<Id>)
    requires tree.kids == before + row + behind && Distinct(tree) && Ids(tree) <= used
    requires Grand(row') == Grand(row) && RootsDiffer(row')
    requires forall id :: id in Roots(row') ==> id in Roots(row) || id !in used
    ensures
      var r := Node(tree.id, keys, before + row' + behind);
      Distinct(r) && forall id :: id in Ids(r) && id in used ==> id in Ids(tree)
  {
    var r := Node(tree.id, keys, before + row' + behind);
    DistinctIsApart(tree);
    DistinctIsApart(r);
    MiddleApart(before, row, behind);
    MiddleApart(before, row', behind);
    RowApart(row);
    RowApart(row');
    RowIds(row);
    RowIds(row');
  }

  /** Where a grandchild hangs. */
  lemma {:induction false} InGrand(row: seq<Tree>, i: int, j: int)
    requires 0 <= i < |row| && 0 <= j < |row[i].kids|
    ensures row[i].kids[j] in Grand(row)
  {
    if i > 0 {
      InGrand(row[1..], i - 1, j);
    }
  }

  /** All of some trees are in memory. */
  ghost predicate AllRep(mem: Memory, kids: seq<Tree>) {
    forall i {:trigger Rep(mem, kids[i])} :: 0 <= i < |kids| ==> Rep(mem, kids[i])
  }

  lemma AllRepJoin(mem: Memory, a: seq<Tree>, b: seq<Tree>)
    ensures AllRep(mem, a + b) <==> AllRep(mem, a) && AllRep(mem, b)
  {
    assert forall i :: 0 <= i < |a| ==> (a + b)[i] == a[i];
    assert forall i :: 0 <= i < |b| ==> (a + b)[|a| + i] == b[i];
  }

  lemma {:induction false} GrandRep(mem: Memory, row: seq<Tree>)
    requires AllRep(mem, row)
    ensures AllRep(mem, Grand(row))
  {
    if row != [] {
      assert row == [row[0]] + row[1..];
      AllRepJoin(mem, [row[0]], row[1..]);
      assert Rep(mem, [row[0]][0]) && AllRep(mem, row[0].kids);
      GrandRep(mem, row[1..]);
      AllRepJoin(mem, row[0].kids, Grand(row[1..]));
    }
  }

  lemma AllRepKept(mem: Memory, mem': Memory, kids: seq<Tree>, touched: set<Id>)
    requires AllRep(mem, kids) && Same(mem, mem', touched) && IdsOf(kids) !! touched
    ensures AllRep(mem', kids)
  {
    forall i | 0 <= i < |kids| ensures Rep(mem', kids[i]) {
      assert Ids(kids[i]) <= IdsOf(kids);
      RepKept(mem, mem', kids[i]);
    }
  }

  lemma RowRep(mem: Memory, row: seq<Tree>)
    requires AllRep(mem, Grand(row))
    requires forall i :: 0 <= i < |row| ==> row[i].id in mem && Holds(mem[row[i].id], row[i])
    ensures AllRep(mem, row)
  {
    forall i | 0 <= i < |row| ensures Rep(mem, row[i]) {
      forall j | 0 <= j < |row[i].kids| ensures Rep(mem, row[i].kids[j]) {
        InGrand(row, i, j);
      }
    }
  }

  lemma RegroupedRep(mem: Memory, mem': Memory, tree: Tree, keys: seq<int>,
                     before: seq<Tree>, row: seq<Tree>, behind: seq<Tree>, row': seq<Tree>)
    requires tree.kids == before + row + behind && Rep(mem, tree) && Distinct(tree)
    requires Grand(row') == Grand(row)
    requires Same(mem, mem', {tree.id} + Roots(row))
    requires tree.id in mem' && Holds(mem'[tree.id], Node(tree.id, keys, before + row' + behind))
    requires forall i :: 0 <= i < |row'| ==> row'[i].id in mem' && Holds(mem'[row'[i].id], row'[i])
    ensures Rep(mem', Node(tree.id, keys, before + row' + behind))
  {
    var touched := {tree.id} + Roots(row);
    assert AllRep(mem, tree.kids);
    AllRepJoin(mem, before + row, behind);
    AllRepJoin(mem, before, row);
    GrandRep(mem, row);
    TouchedApart(tree, before, row, behind);
    AllRepKept(mem, mem', before, touched);
    AllRepKept(mem, mem', behind, touched);
    AllRepKept(mem, mem', Grand(row), touched);
    RowRep(mem', row');
    AllRepJoin(mem', before, row');
    AllRepJoin(mem', before + row', behind);
    assert AllRep(mem', before + row' + behind);
  }

  lemma TouchedApart(tree: Tree, before: seq<Tree>, row: seq<Tree>, behind: seq<Tree>)
    requires tree.kids == before + row + behind && Distinct(tree)
    ensures
      var touched := {tree.id} + Roots(row);
      IdsOf(before) !! touched && IdsOf(behind) !! touched && IdsOf(Grand(row)) !! touched
  {
    DistinctIsApart(tree);
    MiddleApart(before, row, behind);
    RowApart(row);
    RowIds(row);
  }
}
