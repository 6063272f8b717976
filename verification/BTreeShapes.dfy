/** B-trees as values: the key sequence a tree stands for, its shape, and what splitting, borrowing
    and merging do to both.  Node identities are kept so that the trees can describe linked nodes. */
module BTreeShapes {

  type Id = int

  /** A node with its subtrees; a leaf has none. */
  datatype Tree = Node(id: Id, keys: seq<int>, kids: seq<Tree>)

  // ---------------------------------------------------------------- key sequences

  /** Each key followed by the text to its right. */
  function Tails(keys: seq<int>, texts: seq<seq<int>>): seq<int> {
    if keys == [] || texts == [] then keys
    else [keys[0]] + texts[0] + Tails(keys[1..], texts[1..])
  }

  /** Each text followed by the key to its right. */
  function Heads(keys: seq<int>, texts: seq<seq<int>>): seq<int> {
    if keys == [] || texts == [] then keys
    else Heads(keys[..|keys| - 1], texts[..|texts| - 1]) + texts[|texts| - 1] + [keys[|keys| - 1]]
  }

  /** Texts with the keys between them. */
  function Weave(keys: seq<int>, texts: seq<seq<int>>): seq<int> {
    if texts == [] then keys else texts[0] + Tails(keys, texts[1..])
  }

  /** The order in which btree_traverse visits the keys. */
  function InOrder(tree: Tree): seq<int> {
    Weave(tree.keys, seq(|tree.kids|, i requires 0 <= i < |tree.kids| => InOrder(tree.kids[i])))
  }

  function Texts(kids: seq<Tree>): (texts: seq<seq<int>>)
    ensures |texts| == |kids|
  {
    seq(|kids|, i requires 0 <= i < |kids| => InOrder(kids[i]))
  }

  lemma InOrderWeaves(tree: Tree)
    ensures InOrder(tree) == Weave(tree.keys, Texts(tree.kids))
  {
    assert seq(|tree.kids|, i requires 0 <= i < |tree.kids| => InOrder(tree.kids[i])) == Texts(tree.kids);
  }

  /** The sequence around the text at i. */
  function Around(keys: seq<int>, texts: seq<seq<int>>, i: int): seq<int>
    requires |texts| == |keys| + 1 && 0 <= i < |texts|
  {
    Heads(keys[..i], texts[..i]) + texts[i] + Tails(keys[i..], texts[i + 1..])
  }

  lemma {:induction false} WeaveAround(keys: seq<int>, texts: seq<seq<int>>, i: int)
    requires |texts| == |keys| + 1 && 0 <= i < |texts|
    ensures Weave(keys, texts) == Around(keys, texts, i)
  {
    if i == 0 {
      assert keys[0..] == keys && Heads(keys[..0], texts[..0]) == [];
    } else {
      WeaveAround(keys, texts, i - 1);
      var before, behind := Heads(keys[..i - 1], texts[..i - 1]), Tails(keys[i..], texts[i + 1..]);
      HeadsLast(keys, texts, i);
      TailsFirst(keys, texts, i);
      Regroup(before, texts[i - 1], [keys[i - 1]], texts[i], behind);
    }
  }

  lemma HeadsLast(keys: seq<int>, texts: seq<seq<int>>, i: int)
    requires |texts| == |keys| + 1 && 0 < i < |texts|
    ensures Heads(keys[..i], texts[..i]) == Heads(keys[..i - 1], texts[..i - 1]) + texts[i - 1] + [keys[i - 1]]
  {
    assert keys[..i][..i - 1] == keys[..i - 1] && texts[..i][..i - 1] == texts[..i - 1];
  }

  lemma TailsFirst(keys: seq<int>, texts: seq<seq<int>>, i: int)
    requires |texts| == |keys| + 1 && 0 < i < |texts|
    ensures Tails(keys[i - 1..], texts[i..]) == [keys[i - 1]] + texts[i] + Tails(keys[i..], texts[i + 1..])
  {
    assert keys[i - 1..][1..] == keys[i..] && texts[i..][1..] == texts[i + 1..];
  }

  lemma Regroup(a: seq<int>, b: seq<int>, c: seq<int>, d: seq<int>, e: seq<int>)
    ensures a + b + (c + d + e) == (a + b + c) + d + e
  {
  }

  /** Two woven stretches joined by a key. */
  lemma {:induction false} TailsJoin(a: seq<int>, A: seq<seq<int>>, k: int, b: seq<int>, B: seq<seq<int>>)
    requires |A| == |a| && |B| == |b| + 1
    ensures Tails(a + [k] + b, A + B) == Tails(a, A) + [k] + Weave(b, B)
  {
    if a == [] {
      assert a + [k] + b == [k] + b && A + B == B;
      assert ([k] + b)[1..] == b;
      assert [k] + B[0] + Tails(b, B[1..]) == [k] + (B[0] + Tails(b, B[1..]));
    } else {
      assert (a + [k] + b)[1..] == a[1..] + [k] + b && (A + B)[1..] == A[1..] + B;
      TailsJoin(a[1..], A[1..], k, b, B);
      var rest := Tails(a[1..], A[1..]);
      assert [a[0]] + A[0] + (rest + [k] + Weave(b, B)) == ([a[0]] + A[0] + rest) + [k] + Weave(b, B);
    }
  }

  lemma WeaveJoin(a: seq<int>, A: seq<seq<int>>, k: int, b: seq<int>, B: seq<seq<int>>)
    requires |A| == |a| + 1 && |B| == |b| + 1
    ensures Weave(a + [k] + b, A + B) == Weave(a, A) + [k] + Weave(b, B)
  {
    assert (A + B)[1..] == A[1..] + B;
    TailsJoin(a, A[1..], k, b, B);
    var t := Tails(a, A[1..]);
    assert A[0] + (t + [k] + Weave(b, B)) == (A[0] + t) + [k] + Weave(b, B);
  }

  /** Parts before and behind two neighbouring texts. */
  lemma WeavePair(keys: seq<int>, texts: seq<seq<int>>, i: int)
    requires |texts| == |keys| + 1 && 0 <= i < |keys|
    ensures Weave(keys, texts)
         == Heads(keys[..i], texts[..i]) + (texts[i] + [keys[i]] + texts[i + 1]) + Tails(keys[i + 1..], texts[i + 2..])
  {
    WeaveAround(keys, texts, i);
    assert keys[i..][1..] == keys[i + 1..] && texts[i + 1..][1..] == texts[i + 2..];
    var h, t := Heads(keys[..i], texts[..i]), Tails(keys[i + 1..], texts[i + 2..]);
    assert h + texts[i] + ([keys[i]] + texts[i + 1] + t) == h + (texts[i] + [keys[i]] + texts[i + 1]) + t;
  }

  // ---------------------------------------------------------------- shape

  function Removed<T>(s: seq<T>, i: int): (r: seq<T>)
    requires 0 <= i < |s|
    ensures |r| == |s| - 1
  {
    s[..i] + s[i + 1..]
  }

  function Inserted<T>(s: seq<T>, i: int, x: T): (r: seq<T>)
    requires 0 <= i <= |s|
    ensures |r| == |s| + 1
  {
    s[..i] + [x] + s[i..]
  }

  /** Leaves at depth h, between `least` and 2t - 1 keys here and at least t - 1 below. */
  ghost predicate Shaped(tree: Tree, t: int, h: nat, least: int) {
    && least <= |tree.keys| <= 2 * t - 1
    && if h == 0 then tree.kids == []
       else
         && |tree.kids| == |tree.keys| + 1
         && forall i {:trigger Shaped(tree.kids[i], t, h - 1, t - 1)} ::
             0 <= i < |tree.kids| ==> Shaped(tree.kids[i], t, h - 1, t - 1)
  }

  ghost predicate Sorted(s: seq<int>) {
    forall i, j :: 0 <= i < j < |s| ==> s[i] <= s[j]
  }

  /** s' is s with k put between what is at most k and what is at least k. */
  ghost predicate PutIn(s: seq<int>, k: int, s': seq<int>) {
    exists p :: PutAt(s, p, k, s')
  }

  ghost predicate PutAt(s: seq<int>, p: int, k: int, s': seq<int>) {
    && 0 <= p <= |s| && s' == Inserted(s, p, k)
    && (forall i :: 0 <= i < p ==> s[i] <= k) && (forall i :: p <= i < |s| ==> k <= s[i])
  }

  /** Putting a key in keeps a sequence sorted and adds exactly that key. */
  lemma PutInSorts(s: seq<int>, k: int, s': seq<int>)
    requires Sorted(s) && PutIn(s, k, s')
    ensures Sorted(s') && multiset(s') == multiset(s) + multiset{k}
  {
    var p :| PutAt(s, p, k, s');
    forall i, j | 0 <= i < j < |s'| ensures s'[i] <= s'[j] {
      InsertedAt(s, p, k, i);
      InsertedAt(s, p, k, j);
    }
    InsertedAdds(s, p, k);
  }

  lemma InsertedAt(s: seq<int>, p: int, k: int, j: int)
    requires 0 <= p <= |s| && 0 <= j <= |s|
    ensures Inserted(s, p, k)[j] == if j < p then s[j] else if j == p then k else s[j - 1]
  {
  }

  lemma InsertedAdds(s: seq<int>, p: int, k: int)
    requires 0 <= p <= |s|
    ensures multiset(Inserted(s, p, k)) == multiset(s) + multiset{k}
  {
    assert s == s[..p] + s[p..];
  }

  /** Putting a key into the text at i, when the keys around it allow that. */
  lemma PutInAround(keys: seq<int>, texts: seq<seq<int>>, i: int, k: int, text: seq<int>)
    requires |texts| == |keys| + 1 && 0 <= i < |texts|
    requires Sorted(Weave(keys, texts)) && PutIn(texts[i], k, text)
    requires i == 0 || keys[i - 1] <= k
    requires i == |keys| || k <= keys[i]
    ensures PutIn(Weave(keys, texts), k, Weave(keys, texts[i := text]))
  {
    var p :| PutAt(texts[i], p, k, text);
    var before, behind := Heads(keys[..i], texts[..i]), Tails(keys[i..], texts[i + 1..]);
    WeaveAround(keys, texts, i);
    WeaveAround(keys, texts[i := text], i);
    assert texts[i := text][..i] == texts[..i] && texts[i := text][i + 1..] == texts[i + 1..];
    if i > 0 {
      HeadsEnd(keys[..i], texts[..i]);
    }
    if i < |keys| {
      TailsStart(keys[i..], texts[i + 1..]);
    }
    PutInMiddle(before, texts[i], behind, p, k, text);
  }

  lemma PutInMiddle(before: seq<int>, text: seq<int>, behind: seq<int>, p: int, k: int, text': seq<int>)
    requires Sorted(before + text + behind) && PutAt(text, p, k, text')
    requires before == [] || before[|before| - 1] <= k
    requires behind == [] || k <= behind[0]
    ensures PutAt(before + text + behind, |before| + p, k, before + text' + behind)
  {
    var s := before + text + behind;
    InsertedMiddle(before, text, behind, p, k);
    forall i | 0 <= i < |before| + p ensures s[i] <= k {
      if i < |before| {
        assert s[i] == before[i] && s[|before| - 1] == before[|before| - 1];
      } else {
        assert s[i] == text[i - |before|];
      }
    }
    forall i | |before| + p <= i < |s| ensures k <= s[i] {
      if i < |before| + |text| {
        assert s[i] == text[i - |before|];
      } else {
        assert s[|before| + |text|] == behind[0] && s[i] == behind[i - |before| - |text|];
      }
    }
  }

  lemma InsertedMiddle(before: seq<int>, text: seq<int>, behind: seq<int>, p: int, k: int)
    requires 0 <= p <= |text|
    ensures before + Inserted(text, p, k) + behind == Inserted(before + text + behind, |before| + p, k)
  {
  }

  lemma HeadsEnd(keys: seq<int>, texts: seq<seq<int>>)
    requires |keys| == |texts| > 0
    ensures var s := Heads(keys, texts); |s| > 0 && s[|s| - 1] == keys[|keys| - 1]
  {
  }

  lemma TailsStart(keys: seq<int>, texts: seq<seq<int>>)
    requires |keys| == |texts| > 0
    ensures var s := Tails(keys, texts); |s| > 0 && s[0] == keys[0]
  {
  }

  // ---------------------------------------------------------------- merging and splitting

  /** The node btree_merge makes of two siblings and the key between them. */
  function Merged(left: Tree, k: int, right: Tree): Tree {
    Node(left.id, left.keys + [k] + right.keys, left.kids + right.kids)
  }

  function Merge(tree: Tree, i: int): (r: Tree)
    requires |tree.kids| == |tree.keys| + 1 && 0 <= i < |tree.keys|
    ensures |r.kids| == |r.keys| + 1
  {
    Node(tree.id, Removed(tree.keys, i),
         tree.kids[..i] + [Merged(tree.kids[i], tree.keys[i], tree.kids[i + 1])] + tree.kids[i + 2..])
  }

  function Lower(y: Tree, t: int): Tree
    requires |y.keys| == 2 * t - 1 && t >= 2 && (y.kids == [] || |y.kids| == 2 * t)
  {
    Node(y.id, y.keys[..t - 1], if y.kids == [] then [] else y.kids[..t])
  }

  function Upper(y: Tree, t: int, z: Id): Tree
    requires |y.keys| == 2 * t - 1 && t >= 2 && (y.kids == [] || |y.kids| == 2 * t)
  {
    Node(z, y.keys[t..], if y.kids == [] then [] else y.kids[t..])
  }

  ghost predicate CanSplit(tree: Tree, i: int, t: int) {
    && t >= 2 && |tree.kids| == |tree.keys| + 1 && 0 <= i < |tree.kids|
    && |tree.kids[i].keys| == 2 * t - 1 && (tree.kids[i].kids == [] || |tree.kids[i].kids| == 2 * t)
  }

  /** The full kid at i split around its middle key, which moves up; z names the new node. */
  ghost function Split(tree: Tree, i: int, t: int, z: Id): (r: Tree)
    requires CanSplit(tree, i, t)
    ensures |r.kids| == |r.keys| + 1
  {
    var y := tree.kids[i];
    Node(tree.id, Inserted(tree.keys, i, y.keys[t - 1]),
         tree.kids[..i] + [Lower(y, t), Upper(y, t, z)] + tree.kids[i + 1..])
  }

  ghost predicate Regular(tree: Tree) {
    tree.kids == [] || |tree.kids| == |tree.keys| + 1
  }

  lemma LeafText(tree: Tree)
    requires tree.kids == []
    ensures InOrder(tree) == tree.keys
  {
    InOrderWeaves(tree);
  }

  lemma JoinTexts(a: seq<Tree>, b: seq<Tree>)
    ensures Texts(a + b) == Texts(a) + Texts(b)
  {
  }

  /** The text of a merged node. */
  lemma MergedText(left: Tree, k: int, right: Tree)
    requires Regular(left) && Regular(right) && (left.kids == [] <==> right.kids == [])
    ensures InOrder(Merged(left, k, right)) == InOrder(left) + [k] + InOrder(right)
  {
    if left.kids != [] {
      InOrderWeaves(left);
      InOrderWeaves(right);
      InOrderWeaves(Merged(left, k, right));
      JoinTexts(left.kids, right.kids);
      WeaveJoin(left.keys, Texts(left.kids), k, right.keys, Texts(right.kids));
    } else {
      LeafText(left);
      LeafText(right);
      LeafText(Merged(left, k, right));
    }
  }

  lemma MergedParts(y: Tree, t: int, z: Id)
    requires |y.keys| == 2 * t - 1 && t >= 2 && (y.kids == [] || |y.kids| == 2 * t)
    ensures Merged(Lower(y, t), y.keys[t - 1], Upper(y, t, z)) == y
    ensures InOrder(y) == InOrder(Lower(y, t)) + [y.keys[t - 1]] + InOrder(Upper(y, t, z))
  {
    assert y.keys == y.keys[..t - 1] + [y.keys[t - 1]] + y.keys[t..];
    if y.kids != [] {
      assert y.kids == y.kids[..t] + y.kids[t..];
    }
    MergedText(Lower(y, t), y.keys[t - 1], Upper(y, t, z));
  }

  lemma JoinAt<T>(s: seq<T>, i: int, x: T)
    requires 0 <= i <= |s|
    ensures Removed(Inserted(s, i, x), i) == s && Inserted(s, i, x)[i] == x
  {
  }

  /** Merging undoes splitting: every key and child is back where it was. */
  lemma MergeUndoesSplit(tree: Tree, i: int, t: int, z: Id)
    requires CanSplit(tree, i, t)
    ensures Merge(Split(tree, i, t, z), i) == tree
  {
    var y := tree.kids[i];
    MergedParts(y, t, z);
    JoinAt(tree.keys, i, y.keys[t - 1]);
    RowBack(tree.kids, i, Lower(y, t), Upper(y, t, z));
  }

  lemma RowBack(kids: seq<Tree>, i: int, lo: Tree, hi: Tree)
    requires 0 <= i < |kids|
    ensures
      var s := kids[..i] + [lo, hi] + kids[i + 1..];
      s[i] == lo && s[i + 1] == hi && s[..i] + [kids[i]] + s[i + 2..] == kids
  {
    var s := kids[..i] + [lo, hi] + kids[i + 1..];
    assert s[..i] == kids[..i] && s[i + 2..] == kids[i + 1..];
  }

  /** Splitting undoes merging two smallest siblings. */
  lemma SplitUndoesMerge(tree: Tree, i: int, t: int)
    requires |tree.kids| == |tree.keys| + 1 && 0 <= i < |tree.keys| && t >= 2
    requires |tree.kids[i].keys| == t - 1 == |tree.kids[i + 1].keys|
    requires Regular(tree.kids[i]) && Regular(tree.kids[i + 1])
    requires tree.kids[i].kids == [] <==> tree.kids[i + 1].kids == []
    ensures CanSplit(Merge(tree, i), i, t) && Split(Merge(tree, i), i, t, tree.kids[i + 1].id) == tree
  {
    var l, k, r := tree.kids[i], tree.keys[i], tree.kids[i + 1];
    var y := Merged(l, k, r);
    var m := Merge(tree, i);
    assert m.kids[i] == y && y.keys[t - 1] == k;
    assert y.keys[..t - 1] == l.keys && y.keys[t..] == r.keys;
    if l.kids != [] {
      assert y.kids[..t] == l.kids && y.kids[t..] == r.kids;
    }
    assert Lower(y, t) == l && Upper(y, t, r.id) == r;
    assert m.kids[..i] == tree.kids[..i] && m.kids[i + 1..] == tree.kids[i + 2..];
    assert tree.kids == tree.kids[..i] + [l, r] + tree.kids[i + 2..];
    assert tree.keys == Inserted(Removed(tree.keys, i), i, k);
  }

  lemma WeaveOne(keys: seq<int>, texts: seq<seq<int>>, i: int, text: seq<int>)
    requires |texts| == |keys| + 1 && 0 <= i < |keys| && text == texts[i] + [keys[i]] + texts[i + 1]
    ensures Weave(Removed(keys, i), texts[..i] + [text] + texts[i + 2..]) == Weave(keys, texts)
  {
    var keys', texts' := Removed(keys, i), texts[..i] + [text] + texts[i + 2..];
    WeavePair(keys, texts, i);
    WeaveAround(keys', texts', i);
    assert keys'[..i] == keys[..i] && keys'[i..] == keys[i + 1..];
    assert texts'[..i] == texts[..i] && texts'[i + 1..] == texts[i + 2..];
  }

  lemma WeaveTwo(keys: seq<int>, texts: seq<seq<int>>, i: int, a: seq<int>, k: int, b: seq<int>)
    requires |texts| == |keys| + 1 && 0 <= i < |keys| && a + [k] + b == texts[i] + [keys[i]] + texts[i + 1]
    ensures Weave(keys[i := k], texts[i := a][i + 1 := b]) == Weave(keys, texts)
  {
    var keys', texts' := keys[i := k], texts[i := a][i + 1 := b];
    WeavePair(keys, texts, i);
    WeavePair(keys', texts', i);
    assert keys'[..i] == keys[..i] && keys'[i + 1..] == keys[i + 1..];
    assert texts'[..i] == texts[..i] && texts'[i + 2..] == texts[i + 2..];
  }

  /** Two neighbours replaced by one node with the same text. */
  lemma OneForTwo(tree: Tree, i: int, one: Tree)
    requires |tree.kids| == |tree.keys| + 1 && 0 <= i < |tree.keys|
    requires InOrder(one) == InOrder(tree.kids[i]) + [tree.keys[i]] + InOrder(tree.kids[i + 1])
    ensures InOrder(Node(tree.id, Removed(tree.keys, i), tree.kids[..i] + [one] + tree.kids[i + 2..])) == InOrder(tree)
  {
    var texts, kids' := Texts(tree.kids), tree.kids[..i] + [one] + tree.kids[i + 2..];
    InOrderWeaves(tree);
    InOrderWeaves(Node(tree.id, Removed(tree.keys, i), kids'));
    WeaveOne(tree.keys, texts, i, InOrder(one));
    assert Texts(kids') == texts[..i] + [InOrder(one)] + texts[i + 2..];
  }

  /** Two neighbours and the key between them replaced without changing their text. */
  lemma TwoForTwo(tree: Tree, i: int, a: Tree, k: int, b: Tree)
    requires |tree.kids| == |tree.keys| + 1 && 0 <= i < |tree.keys|
    requires InOrder(a) + [k] + InOrder(b) == InOrder(tree.kids[i]) + [tree.keys[i]] + InOrder(tree.kids[i + 1])
    ensures InOrder(Node(tree.id, tree.keys[i := k], tree.kids[i := a][i + 1 := b])) == InOrder(tree)
  {
    var texts, kids' := Texts(tree.kids), tree.kids[i := a][i + 1 := b];
    InOrderWeaves(tree);
    InOrderWeaves(Node(tree.id, tree.keys[i := k], kids'));
    WeaveTwo(tree.keys, texts, i, InOrder(a), k, InOrder(b));
    assert Texts(kids') == texts[i := InOrder(a)][i + 1 := InOrder(b)];
  }

  lemma MergeKeepsText(tree: Tree, i: int)
    requires |tree.kids| == |tree.keys| + 1 && 0 <= i < |tree.keys|
    requires Regular(tree.kids[i]) && Regular(tree.kids[i + 1])
    requires tree.kids[i].kids == [] <==> tree.kids[i + 1].kids == []
    ensures InOrder(Merge(tree, i)) == InOrder(tree)
  {
    MergedText(tree.kids[i], tree.keys[i], tree.kids[i + 1]);
    OneForTwo(tree, i, Merged(tree.kids[i], tree.keys[i], tree.kids[i + 1]));
  }

  lemma SplitKeepsText(tree: Tree, i: int, t: int, z: Id)
    requires CanSplit(tree, i, t)
    ensures InOrder(Split(tree, i, t, z)) == InOrder(tree)
  {
    var s := Split(tree, i, t, z);
    assert s.kids[i] == Lower(tree.kids[i], t) && s.kids[i + 1] == Upper(tree.kids[i], t, z);
    MergeUndoesSplit(tree, i, t, z);
    MergeKeepsText(s, i);
  }

  /** A node with the kid at i replaced. */
  lemma ShapedWithKid(tree: Tree, t: int, h: nat, least: int, i: int, kid: Tree)
    requires Shaped(tree, t, h, least) && h > 0 && 0 <= i < |tree.kids| && Shaped(kid, t, h - 1, t - 1)
    ensures Shaped(tree.(kids := tree.kids[i := kid]), t, h, least)
  {
  }

  lemma SplitKeepsShape(tree: Tree, t: int, h: nat, least: int, i: int, z: Id)
    requires Shaped(tree, t, h, least) && h > 0 && CanSplit(tree, i, t) && |tree.keys| < 2 * t - 1
    ensures Shaped(Split(tree, i, t, z), t, h, least)
  {
    var y := tree.kids[i];
    var s := Split(tree, i, t, z);
    assert Shaped(y, t, h - 1, t - 1);
    assert Shaped(Lower(y, t), t, h - 1, t - 1) && Shaped(Upper(y, t, z), t, h - 1, t - 1);
    forall j | 0 <= j < |s.kids| ensures Shaped(s.kids[j], t, h - 1, t - 1) {
      assert s.kids[j] == if j < i then tree.kids[j] else if j == i then Lower(y, t)
                          else if j == i + 1 then Upper(y, t, z) else tree.kids[j - 1];
    }
  }

  lemma MergeKeepsShape(tree: Tree, t: int, h: nat, least: int, i: int)
    requires t >= 2 && Shaped(tree, t, h, least) && h > 0 && 0 <= i < |tree.keys|
    requires |tree.kids[i].keys| == t - 1 == |tree.kids[i + 1].keys|
    ensures Shaped(Merge(tree, i), t, h, least - 1)
  {
    var l, k, r := tree.kids[i], tree.keys[i], tree.kids[i + 1];
    assert Shaped(l, t, h - 1, t - 1) && Shaped(r, t, h - 1, t - 1);
    var y := Merged(l, k, r);
    assert Shaped(y, t, h - 1, t - 1) by {
      if h - 1 > 0 {
        forall j | 0 <= j < |y.kids| ensures Shaped(y.kids[j], t, h - 2, t - 1) {
          assert y.kids[j] == if j < |l.kids| then l.kids[j] else r.kids[j - |l.kids|];
        }
      }
    }
    var m := Merge(tree, i);
    forall j | 0 <= j < |m.kids| ensures Shaped(m.kids[j], t, h - 1, t - 1) {
      assert m.kids[j] == if j < i then tree.kids[j] else if j == i then y else tree.kids[j + 1];
    }
  }

  // ---------------------------------------------------------------- borrowing

  /** The kid at i takes the key behind it and the first child of its next sibling. */
  function BorrowedNext(tree: Tree, i: int): (r: Tree)
    requires |tree.kids| == |tree.keys| + 1 && 0 <= i < |tree.keys|
    requires tree.kids[i + 1].keys != []
  {
    var c, next := tree.kids[i], tree.kids[i + 1];
    var c' := Node(c.id, c.keys + [tree.keys[i]], c.kids + (if next.kids == [] then [] else next.kids[..1]));
    var next' := Node(next.id, next.keys[1..], if next.kids == [] then [] else next.kids[1..]);
    Node(tree.id, tree.keys[i := next.keys[0]], tree.kids[i := c'][i + 1 := next'])
  }

  /** The kid at i + 1 takes the key before it and the last child of its previous sibling. */
  function BorrowedPrev(tree: Tree, i: int): (r: Tree)
    requires |tree.kids| == |tree.keys| + 1 && 0 <= i < |tree.keys|
    requires tree.kids[i].keys != []
  {
    var prev, c := tree.kids[i], tree.kids[i + 1];
    var n, m := |prev.keys|, |prev.kids|;
    var prev' := Node(prev.id, prev.keys[..n - 1], if m == 0 then [] else prev.kids[..m - 1]);
    var c' := Node(c.id, [tree.keys[i]] + c.keys, (if m == 0 then [] else prev.kids[m - 1..]) + c.kids);
    Node(tree.id, tree.keys[i := prev.keys[n - 1]], tree.kids[i := prev'][i + 1 := c'])
  }

  /** A tree cut at a key: its text is that of the two parts and the key. */
  lemma CutText(y: Tree, n: int)
    requires 0 <= n < |y.keys| && Regular(y)
    ensures
      var a := Node(y.id, y.keys[..n], if y.kids == [] then [] else y.kids[..n + 1]);
      var b := Node(y.id, y.keys[n + 1..], if y.kids == [] then [] else y.kids[n + 1..]);
      InOrder(y) == InOrder(a) + [y.keys[n]] + InOrder(b)
  {
    var a := Node(y.id, y.keys[..n], if y.kids == [] then [] else y.kids[..n + 1]);
    var b := Node(y.id, y.keys[n + 1..], if y.kids == [] then [] else y.kids[n + 1..]);
    assert y.keys == y.keys[..n] + [y.keys[n]] + y.keys[n + 1..];
    if y.kids != [] {
      assert y.kids == y.kids[..n + 1] + y.kids[n + 1..];
    }
    assert Merged(a, y.keys[n], b) == y;
    MergedText(a, y.keys[n], b);
  }

  /** A node without keys over at most one subtree. */
  lemma SingleText(tree: Tree)
    requires tree.keys == [] && |tree.kids| <= 1
    ensures InOrder(tree) == if tree.kids == [] then [] else InOrder(tree.kids[0])
  {
    InOrderWeaves(tree);
    if tree.kids != [] {
      assert Tails([], Texts(tree.kids)[1..]) == [];
    }
  }

  lemma IdIsNotText(a: Tree, b: Tree)
    requires a.keys == b.keys && a.kids == b.kids
    ensures InOrder(a) == InOrder(b)
  {
    InOrderWeaves(a);
    InOrderWeaves(b);
  }

  lemma Regroup5(a: seq<int>, b: seq<int>, c: seq<int>, d: seq<int>, e: seq<int>)
    ensures a + b + (c + d + e) == (a + b + c) + d + e
  {
  }

  lemma BorrowedNextKeepsText(tree: Tree, i: int)
    requires |tree.kids| == |tree.keys| + 1 && 0 <= i < |tree.keys|
    requires tree.kids[i + 1].keys != [] && Regular(tree.kids[i]) && Regular(tree.kids[i + 1])
    requires tree.kids[i].kids == [] <==> tree.kids[i + 1].kids == []
    ensures InOrder(BorrowedNext(tree, i)) == InOrder(tree)
    ensures InOrder(BorrowedNext(tree, i).kids[i])
         == InOrder(tree.kids[i]) + [tree.keys[i]] + (if tree.kids[i + 1].kids == [] then [] else InOrder(tree.kids[i + 1].kids[0]))
  {
    var c, k, next := tree.kids[i], tree.keys[i], tree.kids[i + 1];
    var first := Node(next.id, [], if next.kids == [] then [] else next.kids[..1]);
    var r := BorrowedNext(tree, i);
    var rest := Node(next.id, next.keys[1..], if next.kids == [] then [] else next.kids[1..]);
    CutText(next, 0);
    assert next.keys[..0] == [] && InOrder(next) == InOrder(first) + [next.keys[0]] + InOrder(rest);
    MergedText(c, k, first);
    assert c.keys + [k] + [] == c.keys + [k];
    assert r.kids[i] == Merged(c, k, first) && r.kids[i + 1] == rest;
    SingleText(first);
    Regroup5(InOrder(c), [k], InOrder(first), [next.keys[0]], InOrder(rest));
    TwoForTwo(tree, i, r.kids[i], next.keys[0], rest);
  }

  lemma BorrowedPrevKeepsText(tree: Tree, i: int)
    requires |tree.kids| == |tree.keys| + 1 && 0 <= i < |tree.keys|
    requires tree.kids[i].keys != [] && Regular(tree.kids[i]) && Regular(tree.kids[i + 1])
    requires tree.kids[i].kids == [] <==> tree.kids[i + 1].kids == []
    ensures InOrder(BorrowedPrev(tree, i)) == InOrder(tree)
    ensures var prev := tree.kids[i];
      InOrder(BorrowedPrev(tree, i).kids[i + 1])
        == (if prev.kids == [] then [] else InOrder(prev.kids[|prev.kids| - 1])) + [tree.keys[i]] + InOrder(tree.kids[i + 1])
  {
    var prev, k, c := tree.kids[i], tree.keys[i], tree.kids[i + 1];
    var n, m := |prev.keys|, |prev.kids|;
    var last := Node(prev.id, [], if m == 0 then [] else prev.kids[m - 1..]);
    var rest := Node(prev.id, prev.keys[..n - 1], if m == 0 then [] else prev.kids[..m - 1]);
    var r := BorrowedPrev(tree, i);
    CutLast(prev);
    BorrowedPrevKid(prev, k, c, r.kids[i + 1]);
    Regroup5(InOrder(rest), [prev.keys[n - 1]], InOrder(last), [k], InOrder(c));
    TwoForTwo(tree, i, rest, prev.keys[n - 1], r.kids[i + 1]);
  }

  /** The text of the kid that has borrowed. */
  lemma BorrowedPrevKid(prev: Tree, k: int, c: Tree, taken: Tree)
    requires Regular(prev) && Regular(c) && (prev.kids == [] <==> c.kids == [])
    requires taken.keys == [k] + c.keys
    requires taken.kids == (if prev.kids == [] then [] else prev.kids[|prev.kids| - 1..]) + c.kids
    ensures
      var last := Node(prev.id, [], if |prev.kids| == 0 then [] else prev.kids[|prev.kids| - 1..]);
      && InOrder(taken) == InOrder(last) + [k] + InOrder(c)
      && InOrder(last) == if prev.kids == [] then [] else InOrder(prev.kids[|prev.kids| - 1])
  {
    var last := Node(prev.id, [], if |prev.kids| == 0 then [] else prev.kids[|prev.kids| - 1..]);
    TakenFront(last, k, c, taken);
    SingleText(last);
  }

  lemma CutLast(prev: Tree)
    requires prev.keys != [] && Regular(prev)
    ensures
      var n, m := |prev.keys|, |prev.kids|;
      var last := Node(prev.id, [], if m == 0 then [] else prev.kids[m - 1..]);
      var rest := Node(prev.id, prev.keys[..n - 1], if m == 0 then [] else prev.kids[..m - 1]);
      InOrder(prev) == InOrder(rest) + [prev.keys[n - 1]] + InOrder(last)
  {
    var n := |prev.keys|;
    CutText(prev, n - 1);
    assert prev.keys[n - 1 + 1..] == [];
  }

  lemma TakenFront(last: Tree, k: int, c: Tree, taken: Tree)
    requires last.keys == [] && Regular(last) && Regular(c) && (last.kids == [] <==> c.kids == [])
    requires taken.keys == [k] + c.keys && taken.kids == last.kids + c.kids
    ensures InOrder(taken) == InOrder(last) + [k] + InOrder(c)
  {
    var m := Merged(last, k, c);
    assert m.keys == taken.keys by {
      assert [] + [k] + c.keys == [k] + c.keys;
    }
    IdIsNotText(taken, m);
    MergedText(last, k, c);
  }

  /** A key moved from a sibling that can spare one keeps the shape, and gives the poor kid t keys. */
  lemma BorrowedNextKeepsShape(tree: Tree, t: int, h: nat, least: int, i: int)
    requires t >= 2 && Shaped(tree, t, h, least) && h > 0 && 0 <= i < |tree.keys|
    requires |tree.kids[i].keys| == t - 1 && |tree.kids[i + 1].keys| >= t
    ensures Shaped(BorrowedNext(tree, i), t, h, least) && |BorrowedNext(tree, i).kids[i].keys| == t
  {
    var r := BorrowedNext(tree, i);
    assert Shaped(tree.kids[i], t, h - 1, t - 1) && Shaped(tree.kids[i + 1], t, h - 1, t - 1);
    if h > 1 {
      GrandkidsShaped(tree, t, h, least, i);
    }
    var both := tree.kids[i].kids + tree.kids[i + 1].kids;
    assert forall kid :: kid in both ==> kid in tree.kids[i].kids || kid in tree.kids[i + 1].kids;
    KidsShaped(r.kids[i], t, h - 1, both);
    KidsShaped(r.kids[i + 1], t, h - 1, both);
    TwoShaped(tree, t, h, least, i, r.keys, r.kids[i], r.kids[i + 1]);
  }

  lemma BorrowedPrevKeepsShape(tree: Tree, t: int, h: nat, least: int, i: int)
    requires t >= 2 && Shaped(tree, t, h, least) && h > 0 && 0 <= i < |tree.keys|
    requires |tree.kids[i].keys| >= t && |tree.kids[i + 1].keys| == t - 1
    ensures Shaped(BorrowedPrev(tree, i), t, h, least) && |BorrowedPrev(tree, i).kids[i + 1].keys| == t
  {
    var r := BorrowedPrev(tree, i);
    assert Shaped(tree.kids[i], t, h - 1, t - 1) && Shaped(tree.kids[i + 1], t, h - 1, t - 1);
    if h > 1 {
      GrandkidsShaped(tree, t, h, least, i);
    }
    var both := tree.kids[i].kids + tree.kids[i + 1].kids;
    assert forall kid :: kid in both ==> kid in tree.kids[i].kids || kid in tree.kids[i + 1].kids;
    KidsShaped(r.kids[i], t, h - 1, both);
    KidsShaped(r.kids[i + 1], t, h - 1, both);
    TwoShaped(tree, t, h, least, i, r.keys, r.kids[i], r.kids[i + 1]);
  }

  /** A node with two neighbouring kids replaced. */
  lemma TwoShaped(tree: Tree, t: int, h: nat, least: int, i: int, keys: seq<int>, a: Tree, b: Tree)
    requires Shaped(tree, t, h, least) && h > 0 && 0 <= i < |tree.keys| == |keys|
    requires Shaped(a, t, h - 1, t - 1) && Shaped(b, t, h - 1, t - 1)
    ensures Shaped(Node(tree.id, keys, tree.kids[i := a][i + 1 := b]), t, h, least)
  {
    var r := Node(tree.id, keys, tree.kids[i := a][i + 1 := b]);
    forall j | 0 <= j < |r.kids| ensures Shaped(r.kids[j], t, h - 1, t - 1) {
      assert r.kids[j] == if j == i then a else if j == i + 1 then b else tree.kids[j];
    }
  }

  lemma GrandkidsShaped(tree: Tree, t: int, h: nat, least: int, i: int)
    requires Shaped(tree, t, h, least) && h > 1 && 0 <= i < |tree.keys|
    ensures forall kid :: kid in tree.kids[i].kids || kid in tree.kids[i + 1].kids ==> Shaped(kid, t, h - 2, t - 1)
  {
    assert Shaped(tree.kids[i], t, h - 1, t - 1) && Shaped(tree.kids[i + 1], t, h - 1, t - 1);
  }

  lemma KidsShaped(y: Tree, t: int, h: nat, from: seq<Tree>)
    requires t - 1 <= |y.keys| <= 2 * t - 1
    requires if h == 0 then y.kids == [] else |y.kids| == |y.keys| + 1
    requires forall kid :: kid in y.kids ==> kid in from
    requires h > 0 ==> forall kid :: kid in from ==> Shaped(kid, t, h - 1, t - 1)
    ensures Shaped(y, t, h, t - 1)
  {
    if h > 0 {
      forall j | 0 <= j < |y.kids| ensures Shaped(y.kids[j], t, h - 1, t - 1) {
        assert y.kids[j] in from;
      }
    }
  }

  // ---------------------------------------------------------------- insertion

  lemma KidSorted(tree: Tree, i: int)
    requires Sorted(InOrder(tree)) && |tree.kids| == |tree.keys| + 1 && 0 <= i < |tree.kids|
    ensures Sorted(InOrder(tree.kids[i]))
  {
    InOrderWeaves(tree);
    var texts := Texts(tree.kids);
    WeaveAround(tree.keys, texts, i);
    SortedMiddle(Heads(tree.keys[..i], texts[..i]), texts[i], Tails(tree.keys[i..], texts[i + 1..]));
  }

  lemma SortedMiddle(before: seq<int>, text: seq<int>, behind: seq<int>)
    requires Sorted(before + text + behind)
    ensures Sorted(text)
  {
    var s := before + text + behind;
    forall i, j | 0 <= i < j < |text| ensures text[i] <= text[j] {
      assert s[|before| + i] == text[i] && s[|before| + j] == text[j];
    }
  }

  /** A leaf with k put in at p. */
  lemma LeafPutIn(tree: Tree, p: int, k: int)
    requires tree.kids == [] && Sorted(InOrder(tree)) && 0 <= p <= |tree.keys|
    requires (p == 0 || tree.keys[p - 1] <= k) && forall j :: p <= j < |tree.keys| ==> k < tree.keys[j]
    ensures PutIn(InOrder(tree), k, InOrder(Node(tree.id, Inserted(tree.keys, p, k), [])))
  {
    LeafText(tree);
    LeafText(Node(tree.id, Inserted(tree.keys, p, k), []));
    assert PutAt(tree.keys, p, k, Inserted(tree.keys, p, k));
  }

  /** A tree whose kid at p, the place of k, has taken k in. */
  lemma KidPutIn(tree: Tree, p: int, k: int, kid: Tree)
    requires Sorted(InOrder(tree)) && |tree.kids| == |tree.keys| + 1 && 0 <= p < |tree.kids|
    requires (p == 0 || tree.keys[p - 1] <= k) && (p == |tree.keys| || k <= tree.keys[p])
    requires PutIn(InOrder(tree.kids[p]), k, InOrder(kid))
    ensures PutIn(InOrder(tree), k, InOrder(tree.(kids := tree.kids[p := kid])))
  {
    InOrderWeaves(tree);
    InOrderWeaves(tree.(kids := tree.kids[p := kid]));
    PutInAround(tree.keys, Texts(tree.kids), p, k, InOrder(kid));
    assert Texts(tree.kids[p := kid]) == Texts(tree.kids)[p := InOrder(kid)];
  }

  /** p is the child of the tree in whose text k belongs. */
  ghost predicate PlaceOf(tree: Tree, p: int, k: int) {
    && 0 <= p < |tree.kids| && |tree.kids| == |tree.keys| + 1
    && (p == 0 || tree.keys[p - 1] <= k) && (p == |tree.keys| || k <= tree.keys[p])
  }

  /** The place of k after its full place has been split. */
  lemma PlaceAfterSplit(tree: Tree, p: int, t: int, z: Id, k: int)
    requires CanSplit(tree, p, t) && PlaceOf(tree, p, k)
    ensures
      var r := Split(tree, p, t, z);
      var q := if k > r.keys[p] then p + 1 else p;
      PlaceOf(r, q, k) && |r.kids[q].keys| < 2 * t - 1
  {
    var r := Split(tree, p, t, z);
    assert r.kids[p] == Lower(tree.kids[p], t) && r.kids[p + 1] == Upper(tree.kids[p], t, z);
    assert p > 0 ==> r.keys[p - 1] == tree.keys[p - 1];
    assert p < |tree.keys| ==> r.keys[p + 1] == tree.keys[p];
  }

  ghost predicate LeafTakes(tree: Tree, p: int, k: int, tree': Tree) {
    && tree.kids == [] && 0 <= p <= |tree.keys|
    && (p == 0 || tree.keys[p - 1] <= k) && (forall j :: p <= j < |tree.keys| ==> k < tree.keys[j])
    && tree' == Node(tree.id, Inserted(tree.keys, p, k), [])
  }

  /** r is the tree, perhaps with a child split, and q the place of k in it. */
  ghost predicate Opens(tree: Tree, k: int, r: Tree, q: int) {
    InOrder(r) == InOrder(tree) && PlaceOf(r, q, k)
  }

  ghost predicate Relinks(r: Tree, q: int, kid: Tree, tree': Tree) {
    0 <= q < |r.kids| && tree' == r.(kids := r.kids[q := kid])
  }

  /** k has gone down to a leaf of the tree, at its place on every level. */
  ghost predicate Takes(tree: Tree, k: int, tree': Tree, h: nat)
    decreases h
  {
    if h == 0 then exists p :: LeafTakes(tree, p, k, tree')
    else exists r, q, kid ::
      Relinks(r, q, kid, tree') && Opens(tree, k, r, q) && Takes(r.kids[q], k, kid, h - 1)
  }

  /** Then exactly k has been put into the sorted key sequence. */
  lemma {:induction false} TakesPutsIn(tree: Tree, k: int, tree': Tree, h: nat)
    requires Takes(tree, k, tree', h) && Sorted(InOrder(tree))
    ensures PutIn(InOrder(tree), k, InOrder(tree'))
    decreases h
  {
    if h == 0 {
      var p :| LeafTakes(tree, p, k, tree');
      LeafPutIn(tree, p, k);
    } else {
      var r, q, kid :| Relinks(r, q, kid, tree') && Opens(tree, k, r, q) && Takes(r.kids[q], k, kid, h - 1);
      KidSorted(r, q);
      TakesPutsIn(r.kids[q], k, kid, h - 1);
      KidPutIn(r, q, k, kid);
    }
  }

  // ---------------------------------------------------------------- before a deletion descends

  /** s occurs in the larger text. */
  ghost predicate Within(s: seq<int>, text: seq<int>) {
    exists n :: WithinAt(s, text, n)
  }

  ghost predicate WithinAt(s: seq<int>, text: seq<int>, n: int) {
    0 <= n && n + |s| <= |text| && text[n..n + |s|] == s
  }

  lemma WithinParts(a: seq<int>, s: seq<int>, b: seq<int>)
    ensures Within(s, a + s + b)
  {
    assert WithinAt(s, a + s + b, |a|);
  }

  /** The child at i had the least number of keys; `kid`, at r or right below it, has one more at
      least and still holds all of that child's keys.  Nothing else about the tree has changed. */
  ghost predicate Enriched(tree: Tree, i: int, t: int, h: nat, least: int, r: Tree, kid: Tree) {
    && h > 0 && 0 <= i < |tree.kids|
    && InOrder(r) == InOrder(tree)
    && Shaped(kid, t, h - 1, t) && Within(InOrder(tree.kids[i]), InOrder(kid))
    && if r.id == tree.id then Shaped(r, t, h, least) && kid in r.kids
       else kid == r && |tree.keys| == 1
  }

  lemma BorrowedNextEnriches(tree: Tree, t: int, h: nat, least: int, i: int)
    requires t >= 2 && Shaped(tree, t, h, least) && h > 0 && 0 <= i < |tree.keys|
    requires |tree.kids[i].keys| == t - 1 && |tree.kids[i + 1].keys| >= t
    ensures Enriched(tree, i, t, h, least, BorrowedNext(tree, i), BorrowedNext(tree, i).kids[i])
  {
    var c, next, kid := tree.kids[i], tree.kids[i + 1], BorrowedNext(tree, i).kids[i];
    assert Shaped(c, t, h - 1, t - 1) && Shaped(next, t, h - 1, t - 1);
    BorrowedNextKeepsText(tree, i);
    BorrowedNextKeepsShape(tree, t, h, least, i);
    assert Shaped(kid, t, h - 1, t - 1);
    var rest := [tree.keys[i]] + (if next.kids == [] then [] else InOrder(next.kids[0]));
    assert InOrder(kid) == [] + InOrder(c) + rest;
    WithinParts([], InOrder(c), rest);
  }

  lemma BorrowedPrevEnriches(tree: Tree, t: int, h: nat, least: int, i: int)
    requires t >= 2 && Shaped(tree, t, h, least) && h > 0 && 0 <= i < |tree.keys|
    requires |tree.kids[i].keys| >= t && |tree.kids[i + 1].keys| == t - 1
    ensures Enriched(tree, i + 1, t, h, least, BorrowedPrev(tree, i), BorrowedPrev(tree, i).kids[i + 1])
  {
    var prev, c, kid := tree.kids[i], tree.kids[i + 1], BorrowedPrev(tree, i).kids[i + 1];
    assert Shaped(prev, t, h - 1, t - 1) && Shaped(c, t, h - 1, t - 1);
    BorrowedPrevKeepsText(tree, i);
    BorrowedPrevKeepsShape(tree, t, h, least, i);
    assert Shaped(kid, t, h - 1, t - 1);
    var first := (if prev.kids == [] then [] else InOrder(prev.kids[|prev.kids| - 1])) + [tree.keys[i]];
    assert InOrder(kid) == first + InOrder(c) + [];
    WithinParts(first, InOrder(c), []);
  }

  /** The merged node: full, and over everything that either sibling held. */
  lemma MergedKid(tree: Tree, t: int, h: nat, least: int, i: int, which: int)
    requires t >= 2 && Shaped(tree, t, h, least) && h > 0 && 0 <= i < |tree.keys| && i <= which <= i + 1
    requires |tree.kids[i].keys| == t - 1 == |tree.kids[i + 1].keys|
    ensures
      var kid := Merged(tree.kids[i], tree.keys[i], tree.kids[i + 1]);
      && Merge(tree, i).kids[i] == kid && Shaped(kid, t, h - 1, t)
      && Within(InOrder(tree.kids[which]), InOrder(kid))
  {
    var l, k, r := tree.kids[i], tree.keys[i], tree.kids[i + 1];
    assert Shaped(l, t, h - 1, t - 1) && Shaped(r, t, h - 1, t - 1);
    assert Merge(tree, i).kids[i] == Merged(l, k, r) && Shaped(Merge(tree, i).kids[i], t, h - 1, t - 1) by {
      MergeKeepsShape(tree, t, h, least, i);
    }
    MergedWithin(l, k, r);
  }

  lemma MergedWithin(l: Tree, k: int, r: Tree)
    requires Regular(l) && Regular(r) && (l.kids == [] <==> r.kids == [])
    ensures Within(InOrder(l), InOrder(Merged(l, k, r))) && Within(InOrder(r), InOrder(Merged(l, k, r)))
  {
    MergedText(l, k, r);
    MergedHolds(InOrder(l), k, InOrder(r));
  }

  lemma MergedTexts(tree: Tree, t: int, h: nat, least: int, i: int)
    requires Shaped(tree, t, h, least) && h > 0 && 0 <= i < |tree.keys|
    ensures InOrder(Merge(tree, i)) == InOrder(tree)
    ensures |tree.keys| == 1 ==> InOrder(Merge(tree, i).kids[0]) == InOrder(tree)
  {
    assert Shaped(tree.kids[i], t, h - 1, t - 1) && Shaped(tree.kids[i + 1], t, h - 1, t - 1);
    MergeKeepsText(tree, i);
    if |tree.keys| == 1 {
      SingleText(Merge(tree, i));
    }
  }

  /** Merging siblings enriches either of them. */
  lemma MergeEnriches(tree: Tree, t: int, h: nat, least: int, i: int, which: int)
    requires t >= 2 && Shaped(tree, t, h, least) && h > 0 && 0 <= i < |tree.keys| && i <= which <= i + 1
    requires |tree.kids[i].keys| == t - 1 == |tree.kids[i + 1].keys|
    ensures Enriched(tree, which, t, h, least - 1, Merge(tree, i), Merge(tree, i).kids[i])
  {
    MergedKid(tree, t, h, least, i, which);
    MergedTexts(tree, t, h, least, i);
    MergeKeepsShape(tree, t, h, least, i);
  }

  /** A root with a single key gives way to the merged node. */
  lemma CollapseEnriches(tree: Tree, t: int, h: nat, least: int, which: int)
    requires t >= 2 && Shaped(tree, t, h, least) && h > 0 && |tree.keys| == 1 && 0 <= which <= 1
    requires |tree.kids[0].keys| == t - 1 == |tree.kids[1].keys| && tree.kids[0].id != tree.id
    ensures Enriched(tree, which, t, h, least - 1, Merge(tree, 0).kids[0], Merge(tree, 0).kids[0])
  {
    MergedKid(tree, t, h, least, 0, which);
    MergedTexts(tree, t, h, least, 0);
  }

  lemma MergedHolds(l: seq<int>, k: int, r: seq<int>)
    ensures Within(l, l + [k] + r) && Within(r, l + [k] + r)
  {
    assert l + [k] + r == [] + l + ([k] + r) && l + [k] + r == (l + [k]) + r + [];
    WithinParts([], l, [k] + r);
    WithinParts(l + [k], r, []);
  }
}
