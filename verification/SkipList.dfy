/** The timer queue of skiplist.c: a skip list whose nodes may have any number of levels from 1 to 32. */
module SkipList {

  type Id = int

  const NULL: Id := 0
  const MAX_LEVEL := 32

  type Links = map<Id, seq<Id>>

  // ---------------------------------------------------------------- the list of one level

  /** The nodes with more than i levels, in order. */
  ghost function Row(height: map<Id, int>, base: seq<Id>, i: int): seq<Id> {
    if base == [] then []
    else
      var n := |base| - 1;
      Row(height, base[..n], i) + if base[n] in height && height[base[n]] > i then [base[n]] else []
  }

  lemma {:induction false} RowMembers(height: map<Id, int>, base: seq<Id>, i: int)
    ensures forall x :: x in Row(height, base, i) <==> x in base && x in height && height[x] > i
  {
    if base != [] {
      var n := |base| - 1;
      RowMembers(height, base[..n], i);
      assert base == base[..n] + [base[n]];
    }
  }

  lemma {:induction false} RowJoin(height: map<Id, int>, a: seq<Id>, b: seq<Id>, i: int)
    ensures Row(height, a + b, i) == Row(height, a, i) + Row(height, b, i)
    decreases |b|
  {
    if b == [] {
      assert a + b == a;
    } else {
      var n := |b| - 1;
      var tail := if b[n] in height && height[b[n]] > i then [b[n]] else [];
      assert (a + b)[..|a| + n] == a + b[..n];
      RowJoin(height, a, b[..n], i);
      assert Row(height, a, i) + Row(height, b[..n], i) + tail == Row(height, a, i) + (Row(height, b[..n], i) + tail);
    }
  }

  ghost predicate SameOn(height: map<Id, int>, height': map<Id, int>, base: seq<Id>) {
    forall k :: 0 <= k < |base| ==> base[k] in height && base[k] in height' && height'[base[k]] == height[base[k]]
  }

  lemma {:induction false} RowKept(height: map<Id, int>, height': map<Id, int>, base: seq<Id>, i: int)
    requires SameOn(height, height', base)
    ensures Row(height', base, i) == Row(height, base, i)
  {
    if base != [] {
      RowKept(height, height', base[..|base| - 1], i);
    }
  }

  /** The list of level i is a part of the list of level i - 1, in the same order. */
  ghost predicate Sublist(a: seq<Id>, b: seq<Id>) {
    a == [] || (b != [] && Sublist(if a[|a| - 1] == b[|b| - 1] then a[..|a| - 1] else a, b[..|b| - 1]))
  }

  lemma {:induction false} RowIsSublist(height: map<Id, int>, base: seq<Id>, i: int)
    requires NoRepeat(base)
    ensures Sublist(Row(height, base, i + 1), Row(height, base, i))
  {
    if base != [] {
      var n := |base| - 1;
      var last := base[n];
      RowIsSublist(height, base[..n], i);
      var up, low := Row(height, base[..n], i + 1), Row(height, base[..n], i);
      if last in height && height[last] > i {
        assert (low + [last])[..|low|] == low;
        if height[last] > i + 1 {
          assert (up + [last])[..|up|] == up;
        } else {
          assert up + [] == up;
          RowMembers(height, base[..n], i + 1);
          assert last !in base[..n];
          assert up != [] ==> up[|up| - 1] in up;
        }
      } else {
        assert up + [] == up && low + [] == low;
      }
    }
  }

  ghost predicate NoRepeat(s: seq<Id>) {
    forall a, b :: 0 <= a < b < |s| ==> s[a] != s[b]
  }

  function At(row: seq<Id>, k: int): Id {
    if 0 <= k < |row| then row[k] else NULL
  }

  /** Following forward pointers of level i passes through row and ends with NULL. */
  ghost predicate Linked(forward: Links, i: int, row: seq<Id>) {
    forall k :: 0 <= k < |row| ==>
      row[k] in forward && 0 <= i < |forward[row[k]]| && forward[row[k]][i] == At(row, k + 1)
  }

  /** Only the pointer of u at level i may differ. */
  ghost predicate OnlyAt(forward: Links, forward': Links, u: Id, i: int) {
    forall y :: y in forward ==>
      && y in forward' && |forward'[y]| == |forward[y]|
      && forall j :: 0 <= j < |forward[y]| && (y != u || j != i) ==> forward'[y][j] == forward[y][j]
  }

  /** x linked in behind the first part. */
  lemma LinkIn(forward: Links, forward': Links, i: int, a: seq<Id>, u: Id, x: Id, b: seq<Id>)
    requires a != [] && u == a[|a| - 1] && Linked(forward, i, a + b) && NoRepeat(a + b)
    requires OnlyAt(forward, forward', u, i) && u in forward' && 0 <= i < |forward'[u]| && forward'[u][i] == x
    requires x in forward' && 0 <= i < |forward'[x]| && forward'[x][i] == At(b, 0)
    ensures Linked(forward', i, a + [x] + b)
  {
    var row, row' := a + b, a + [x] + b;
    assert row[|a| - 1] == u;
    forall k | 0 <= k < |row'|
      ensures row'[k] in forward' && 0 <= i < |forward'[row'[k]]| && forward'[row'[k]][i] == At(row', k + 1)
    {
      if k < |a| {
        assert row'[k] == row[k];
      } else if k > |a| {
        assert row'[k] == row[k - 1] && row[k - 1] != u;
        assert At(row', k + 1) == At(row, k);
      }
    }
  }

  /** x unlinked from behind the first part. */
  lemma LinkOut(forward: Links, forward': Links, i: int, a: seq<Id>, u: Id, x: Id, b: seq<Id>)
    requires a != [] && u == a[|a| - 1] && Linked(forward, i, a + [x] + b) && NoRepeat(a + [x] + b)
    requires OnlyAt(forward, forward', u, i) && u in forward' && 0 <= i < |forward'[u]| && forward'[u][i] == At(b, 0)
    ensures Linked(forward', i, a + b)
  {
    var row, row' := a + [x] + b, a + b;
    assert row[|a| - 1] == u;
    forall k | 0 <= k < |row'|
      ensures row'[k] in forward' && 0 <= i < |forward'[row'[k]]| && forward'[row'[k]][i] == At(row', k + 1)
    {
      if k < |a| {
        assert row'[k] == row[k];
      } else {
        assert row'[k] == row[k + 1] && row[k + 1] != u;
        assert At(row', k + 1) == At(row, k + 2);
      }
    }
  }

  /** Another level does not notice. */
  lemma LinkedElsewhere(forward: Links, forward': Links, u: Id, i: int, j: int, row: seq<Id>)
    requires Linked(forward, j, row) && OnlyAt(forward, forward', u, i) && (j != i || u !in row)
    ensures Linked(forward', j, row)
  {
    forall k | 0 <= k < |row|
      ensures row[k] in forward' && 0 <= j < |forward'[row[k]]| && forward'[row[k]][j] == At(row, k + 1)
    {
      var y := row[k];
      assert y in row && y in forward && 0 <= j < |forward[y]|;
      assert |forward'[y]| == |forward[y]| && forward'[y][j] == forward[y][j];
    }
  }

  // ---------------------------------------------------------------- sorted by score

  ghost predicate Scored(score: map<Id, int>, base: seq<Id>) {
    forall k :: 0 <= k < |base| ==> base[k] in score
  }

  ghost predicate Sorted(score: map<Id, int>, base: seq<Id>) {
    && Scored(score, base)
    && forall a, b :: 0 <= a < b < |base| ==> score[base[a]] <= score[base[b]]
  }

  /** base is a part with smaller scores and a part with scores of at least s. */
  ghost predicate CutAt(score: map<Id, int>, base: seq<Id>, s: int, p: int) {
    && 0 <= p <= |base| && Scored(score, base)
    && (forall k :: 0 <= k < p ==> score[base[k]] < s) && (forall k :: p <= k < |base| ==> score[base[k]] >= s)
  }

  ghost function CutPoint(score: map<Id, int>, base: seq<Id>, s: int): (p: int)
    requires Sorted(score, base)
    ensures CutAt(score, base, s, p)
  {
    if base == [] then 0
    else
      var n := |base| - 1;
      if score[base[n]] < s then
        n + 1
      else
        var p := CutPoint(score, base[..n], s);
        assert forall k :: 0 <= k < n ==> base[..n][k] == base[k];
        p
  }

  // ---------------------------------------------------------------- all levels together

  /** Every level is linked from the header, level i through the nodes of base with more than i levels. */
  ghost predicate Levels(forward: Links, height: map<Id, int>, header: Id, base: seq<Id>) {
    forall i :: 0 <= i < MAX_LEVEL ==> Linked(forward, i, [header] + Row(height, base, i))
  }

  /** What is known of the nodes: allocated, and as tall as they say. */
  ghost predicate Nodes(score: map<Id, int>, forward: Links, height: map<Id, int>, header: Id, base: seq<Id>,
                        level: int, next: Id) {
    && header in forward && |forward[header]| == MAX_LEVEL && NULL < header < next && header !in base
    && NoRepeat(base) && Sorted(score, base) && 1 <= level <= MAX_LEVEL
    && (forall id :: id in forward ==> id < next)
    && forall k :: 0 <= k < |base| ==>
         && base[k] in forward && base[k] in height && NULL < base[k] < next
         && 1 <= height[base[k]] <= level && |forward[base[k]]| == height[base[k]]
  }

  /** No level in use is empty, but for the lowest. */
  ghost predicate Tight(height: map<Id, int>, base: seq<Id>, level: int) {
    level > 1 ==> Row(height, base, level - 1) != []
  }

  lemma {:induction false} RowBounded(height: map<Id, int>, base: seq<Id>, i: int)
    requires forall k :: 0 <= k < |base| && base[k] in height ==> height[base[k]] <= i
    ensures Row(height, base, i) == []
  {
    if base != [] {
      RowBounded(height, base[..|base| - 1], i);
    }
  }

  /** Above the level in use the header points nowhere. */
  lemma AboveIsNull(score: map<Id, int>, forward: Links, height: map<Id, int>, header: Id, base: seq<Id>,
                    level: int, next: Id, i: int)
    requires Nodes(score, forward, height, header, base, level, next) && Levels(forward, height, header, base)
    requires level <= i < MAX_LEVEL
    ensures forward[header][i] == NULL
  {
    RowBounded(height, base, i);
    assert Linked(forward, i, [header] + Row(height, base, i));
    assert ([header] + Row(height, base, i))[0] == header;
  }

  lemma {:induction false} RowNoRepeat(height: map<Id, int>, base: seq<Id>, i: int)
    requires NoRepeat(base)
    ensures NoRepeat(Row(height, base, i))
  {
    if base != [] {
      var n := |base| - 1;
      RowNoRepeat(height, base[..n], i);
      RowMembers(height, base[..n], i);
      assert base[n] !in base[..n];
    }
  }

  /** The row of a level is cut where base is. */
  lemma BehindHeader(score: map<Id, int>, header: Id, a: seq<Id>, b: seq<Id>, s: int)
    requires forall k :: 0 <= k < |a| ==> a[k] in score && score[a[k]] < s
    requires forall k :: 0 <= k < |b| ==> b[k] in score && score[b[k]] >= s
    requires NULL !in a + b
    ensures
      var row := [header] + (a + b);
      && (forall k :: 0 <= k <= |a| ==> row[k] == ([header] + a)[k])
      && forall k :: 1 <= k < |row| ==> row[k] in score && row[k] != NULL && (score[row[k]] < s <==> k <= |a|)
  {
    var row := [header] + (a + b);
    forall k | 1 <= k < |row| ensures row[k] in score && row[k] != NULL && (score[row[k]] < s <==> k <= |a|) {
      assert row[k] == (a + b)[k - 1] && row[k] == if k <= |a| then a[k - 1] else b[k - 1 - |a|];
    }
  }

  lemma RowCut(score: map<Id, int>, height: map<Id, int>, base: seq<Id>, s: int, p: int, i: int)
    requires CutAt(score, base, s, p)
    ensures
      var a, b := Row(height, base[..p], i), Row(height, base[p..], i);
      && Row(height, base, i) == a + b
      && (forall k :: 0 <= k < |a| ==> a[k] in score && score[a[k]] < s)
      && (forall k :: 0 <= k < |b| ==> b[k] in score && score[b[k]] >= s)
  {
    var a, b := Row(height, base[..p], i), Row(height, base[p..], i);
    RowJoin(height, base[..p], base[p..], i);
    assert base[..p] + base[p..] == base;
    RowMembers(height, base[..p], i);
    RowMembers(height, base[p..], i);
    forall k | 0 <= k < |a| ensures a[k] in score && score[a[k]] < s {
      assert a[k] in a;
      var j :| 0 <= j < p && base[..p][j] == a[k];
      assert base[j] == a[k];
    }
    forall k | 0 <= k < |b| ensures b[k] in score && score[b[k]] >= s {
      assert b[k] in b;
      var j :| 0 <= j < |base| - p && base[p..][j] == b[k];
      assert base[p + j] == b[k];
    }
  }

  /** The last node before the cut on level i. */
  ghost function Before(height: map<Id, int>, header: Id, base: seq<Id>, p: int, i: int): Id
    requires 0 <= p <= |base|
  {
    var a := Row(height, base[..p], i);
    if a == [] then header else a[|a| - 1]
  }

  /** It is met again on the level below. */
  lemma BeforeBelow(height: map<Id, int>, header: Id, base: seq<Id>, p: int, i: int) returns (k: int)
    requires 0 <= p <= |base|
    ensures
      var a := Row(height, base[..p], i);
      0 <= k <= |a| && ([header] + a)[k] == Before(height, header, base, p, i + 1)
  {
    var up, a := Row(height, base[..p], i + 1), Row(height, base[..p], i);
    if up == [] {
      k := 0;
    } else {
      RowMembers(height, base[..p], i);
      RowMembers(height, base[..p], i + 1);
      assert up[|up| - 1] in up;
      var j :| 0 <= j < |a| && a[j] == up[|up| - 1];
      k := j + 1;
    }
  }

  // ---------------------------------------------------------------- one node in or out

  /** The row of level i around the place p: with the nodes mid there. */
  ghost function RowWith(height: map<Id, int>, header: Id, base: seq<Id>, p: int, mid: seq<Id>, i: int): seq<Id>
    requires 0 <= p <= |base|
  {
    [header] + Row(height, base[..p], i) + mid + Row(height, base[p..], i)
  }

  /** The row of level i, with x if the level is one of those from lo up to hi and x is tall enough. */
  ghost predicate LevelPart(forward: Links, height: map<Id, int>, header: Id, base: seq<Id>, p: int, x: Id, tall: int,
                            lo: int, hi: int, i: int)
    requires 0 <= p <= |base|
  {
    Linked(forward, i, RowWith(height, header, base, p, if lo <= i < hi && i < tall then [x] else [], i))
  }

  ghost predicate PartlyIn(forward: Links, height: map<Id, int>, header: Id, base: seq<Id>, p: int, x: Id, tall: int,
                           lo: int, hi: int)
    requires 0 <= p <= |base|
  {
    forall i :: 0 <= i < MAX_LEVEL ==> LevelPart(forward, height, header, base, p, x, tall, lo, hi, i)
  }

  /** What the steps below share: x is a node of its own. */
  ghost predicate Apart(header: Id, base: seq<Id>, p: int, x: Id) {
    0 <= p <= |base| && NoRepeat(base) && header !in base && x != header && x !in base && NULL !in base && x != NULL
  }

  lemma LinkHere(f: Links, f1: Links, f2: Links, height: map<Id, int>, header: Id, base: seq<Id>, p: int,
                 x: Id, u: Id, i: int)
    requires Apart(header, base, p, x) && Linked(f, i, RowWith(height, header, base, p, [], i))
    requires u == Before(height, header, base, p, i) && x in f && 0 <= i < |f[x]| && u in f && i < |f[u]|
    requires f1 == f[x := f[x][i := f[u][i]]] && u in f1 && i < |f1[u]| && f2 == f1[u := f1[u][i := x]]
    ensures Linked(f2, i, RowWith(height, header, base, p, [x], i))
  {
    var a, b := [header] + Row(height, base[..p], i), Row(height, base[p..], i);
    var row := RowWith(height, header, base, p, [], i);
    RowWithNoRepeat(height, header, base, p, x, i);
    assert row == a + b && row[|a| - 1] == u;
    LinkedElsewhere(f, f1, x, i, i, row);
    assert At(row, |a|) == At(b, 0);
    LinkIn(f1, f2, i, a, u, x, b);
  }

  lemma UnlinkHere(f: Links, f': Links, height: map<Id, int>, header: Id, base: seq<Id>, p: int,
                   x: Id, u: Id, i: int)
    requires Apart(header, base, p, x) && Linked(f, i, RowWith(height, header, base, p, [x], i))
    requires u == Before(height, header, base, p, i) && u in f && 0 <= i < |f[u]| && x in f && i < |f[x]|
    requires f' == f[u := f[u][i := f[x][i]]]
    ensures Linked(f', i, RowWith(height, header, base, p, [], i))
  {
    var a, b := [header] + Row(height, base[..p], i), Row(height, base[p..], i);
    RowWithNoRepeat(height, header, base, p, x, i);
    var row := RowWith(height, header, base, p, [x], i);
    assert row == a + [x] + b && row[|a|] == x && At(row, |a| + 1) == At(b, 0);
    LinkOut(f, f', i, a, u, x, b);
    assert RowWith(height, header, base, p, [], i) == a + b;
  }

  /** One pass of the loop of zslInsert, as two assignments. */
  lemma LinkStep(f: Links, f1: Links, f2: Links, height: map<Id, int>, header: Id, base: seq<Id>, p: int,
                 x: Id, u: Id, tall: int, i: int)
    requires Apart(header, base, p, x) && 0 <= i < tall <= MAX_LEVEL
    requires PartlyIn(f, height, header, base, p, x, tall, 0, i) && u == Before(height, header, base, p, i)
    requires x in f && |f[x]| == tall && u in f && i < |f[u]|
    requires f1 == f[x := f[x][i := f[u][i]]] && u in f1 && i < |f1[u]| && f2 == f1[u := f1[u][i := x]]
    ensures PartlyIn(f2, height, header, base, p, x, tall, 0, i + 1)
  {
    var hi := i + 1;
    forall j | 0 <= j < MAX_LEVEL ensures LevelPart(f2, height, header, base, p, x, tall, 0, hi, j) {
      assert LevelPart(f, height, header, base, p, x, tall, 0, i, j);
      if j != i {
        var row := RowWith(height, header, base, p, if j < i && j < tall then [x] else [], j);
        LinkedElsewhere(f, f1, x, i, j, row);
        LinkedElsewhere(f1, f2, u, i, j, row);
      } else {
        LinkHere(f, f1, f2, height, header, base, p, x, u, i);
      }
    }
  }

  lemma NextInRow(f: Links, i: int, a: seq<Id>, mid: seq<Id>, b: seq<Id>, x: Id)
    requires Linked(f, i, a + mid + b) && a != [] && x != NULL
    requires mid == [x] || (mid == [] && x !in a + mid + b)
    ensures
      var u := a[|a| - 1];
      && u in f && 0 <= i < |f[u]| && (f[u][i] == x <==> mid == [x])
      && (mid == [x] ==> x in f && i < |f[x]|)
  {
    var row, n := a + mid + b, |a|;
    assert row[n - 1] == a[n - 1];
    if mid == [x] {
      assert row[n] == x;
    } else if b != [] {
      assert row[n] == b[0] && row[n] in row;
    }
  }

  /** Whether x follows u on level i. */
  lemma Follows(f: Links, height: map<Id, int>, header: Id, base: seq<Id>, p: int, x: Id, u: Id, tall: int,
                lo: int, hi: int, i: int)
    requires Apart(header, base, p, x) && lo <= i < hi && 0 <= i < MAX_LEVEL
    requires PartlyIn(f, height, header, base, p, x, tall, lo, hi) && u == Before(height, header, base, p, i)
    ensures u in f && i < |f[u]| && (f[u][i] == x <==> i < tall)
    ensures i < tall ==> x in f && i < |f[x]|
  {
    assert LevelPart(f, height, header, base, p, x, tall, lo, hi, i);
    RowWithNoRepeat(height, header, base, p, x, i);
    var a, b := [header] + Row(height, base[..p], i), Row(height, base[p..], i);
    NextInRow(f, i, a, if i < tall then [x] else [], b, x);
  }

  lemma AtBefore(f: Links, height: map<Id, int>, header: Id, base: seq<Id>, p: int, x: Id, tall: int,
                 lo: int, hi: int, i: int)
    requires 0 <= p <= |base| && 0 <= i < MAX_LEVEL && PartlyIn(f, height, header, base, p, x, tall, lo, hi)
    ensures var u := Before(height, header, base, p, i); u in f && i < |f[u]|
  {
    assert LevelPart(f, height, header, base, p, x, tall, lo, hi, i);
    var a := Row(height, base[..p], i);
    var row := RowWith(height, header, base, p, if lo <= i < hi && i < tall then [x] else [], i);
    assert row[|a|] == Before(height, header, base, p, i);
  }

  /** One pass of the loops that unlink x, where it follows u. */
  lemma UnlinkStep(f: Links, f': Links, height: map<Id, int>, header: Id, base: seq<Id>, p: int,
                   x: Id, u: Id, tall: int, lo: int, hi: int, i: int, lo': int, hi': int)
    requires Apart(header, base, p, x) && lo <= i < hi && 0 <= i < MAX_LEVEL && i < tall
    requires (lo' == lo + 1 && hi' == hi && i == lo) || (lo' == lo && hi' == hi - 1 && i == hi - 1)
    requires PartlyIn(f, height, header, base, p, x, tall, lo, hi) && u == Before(height, header, base, p, i)
    requires u in f && i < |f[u]| && x in f && i < |f[x]| && f' == f[u := f[u][i := f[x][i]]]
    ensures PartlyIn(f', height, header, base, p, x, tall, lo', hi')
  {
    forall j | 0 <= j < MAX_LEVEL ensures LevelPart(f', height, header, base, p, x, tall, lo', hi', j) {
      assert LevelPart(f, height, header, base, p, x, tall, lo, hi, j);
      if j != i {
        LinkedElsewhere(f, f', u, i, j, RowWith(height, header, base, p, if lo <= j < hi && j < tall then [x] else [], j));
      } else {
        UnlinkHere(f, f', height, header, base, p, x, u, i);
      }
    }
  }

  /** Levels that x does not reach need no step. */
  lemma NoStep(f: Links, height: map<Id, int>, header: Id, base: seq<Id>, p: int, x: Id, tall: int,
               lo: int, hi: int, lo': int, hi': int)
    requires 0 <= p <= |base| && PartlyIn(f, height, header, base, p, x, tall, lo, hi)
    requires (lo' == lo + 1 && hi' == hi && lo >= tall) || (lo' == lo && hi' == hi - 1 && hi' >= tall)
    ensures PartlyIn(f, height, header, base, p, x, tall, lo', hi')
  {
    forall j | 0 <= j < MAX_LEVEL ensures LevelPart(f, height, header, base, p, x, tall, lo', hi', j) {
      assert LevelPart(f, height, header, base, p, x, tall, lo, hi, j);
      assert (lo <= j < hi && j < tall) == (lo' <= j < hi' && j < tall);
    }
  }

  /** None of these nodes occurs twice, nor is x among them. */
  lemma RowWithNoRepeat(height: map<Id, int>, header: Id, base: seq<Id>, p: int, x: Id, i: int)
    requires NoRepeat(base) && 0 <= p <= |base| && header !in base && x != header && x !in base
    ensures NoRepeat(RowWith(height, header, base, p, [x], i)) && NoRepeat(RowWith(height, header, base, p, [], i))
    ensures x !in RowWith(height, header, base, p, [], i)
  {
    var a, b := Row(height, base[..p], i), Row(height, base[p..], i);
    RowWithout(height, header, base, p, i);
    RowNoRepeat(height, base, i);
    RowMembers(height, base, i);
    var row := Row(height, base, i);
    assert [] + [header] + row == [header] + row && [] + row == row;
    InsertNoRepeat([], header, row);
    assert ([header] + a) + b == [header] + a + [] + b;
    InsertNoRepeat([header] + a, x, b);
  }

  lemma InsertNoRepeat(a: seq<Id>, x: Id, b: seq<Id>)
    requires NoRepeat(a + b) && x !in a + b
    ensures NoRepeat(a + [x] + b)
  {
    var row, row' := a + b, a + [x] + b;
    forall k, l | 0 <= k < l < |row'| ensures row'[k] != row'[l] {
      assert row'[k] == if k < |a| then row[k] else if k == |a| then x else row[k - 1];
      assert row'[l] == if l < |a| then row[l] else if l == |a| then x else row[l - 1];
    }
  }

  /** The rows of the nodes with x among them. */
  lemma RowsWithNode(height: map<Id, int>, height': map<Id, int>, base: seq<Id>, p: int, x: Id, i: int)
    requires 0 <= p <= |base| && SameOn(height, height', base) && x in height'
    ensures Row(height', base[..p] + [x] + base[p..], i)
         == Row(height, base[..p], i) + (if i < height'[x] then [x] else []) + Row(height, base[p..], i)
  {
    RowJoin(height', base[..p] + [x], base[p..], i);
    RowJoin(height', base[..p], [x], i);
    assert Row(height', [x], i) == if i < height'[x] then [x] else [] by {
      assert [x][..0] == [];
    }
    assert forall k :: 0 <= k < p ==> base[..p][k] == base[k];
    assert forall k :: 0 <= k < |base| - p ==> base[p..][k] == base[p + k];
    RowKept(height, height', base[..p], i);
    RowKept(height, height', base[p..], i);
  }

  lemma RowLonger(height: map<Id, int>, height': map<Id, int>, header: Id, base: seq<Id>, p: int, x: Id, i: int)
    requires 0 <= p <= |base| && SameOn(height, height', base) && x in height'
    ensures [header] + Row(height', base[..p] + [x] + base[p..], i)
         == RowWith(height, header, base, p, if i < height'[x] then [x] else [], i)
  {
    RowsWithNode(height, height', base, p, x, i);
    Regroup(header, Row(height, base[..p], i), if i < height'[x] then [x] else [], Row(height, base[p..], i));
  }

  lemma Regroup(header: Id, a: seq<Id>, mid: seq<Id>, b: seq<Id>)
    ensures [header] + (a + mid + b) == [header] + a + mid + b
  {
  }

  lemma RowWithout(height: map<Id, int>, header: Id, base: seq<Id>, p: int, i: int)
    requires 0 <= p <= |base|
    ensures RowWith(height, header, base, p, [], i) == [header] + Row(height, base, i)
  {
    RowJoin(height, base[..p], base[p..], i);
    assert base[..p] + base[p..] == base;
    Regroup(header, Row(height, base[..p], i), [], Row(height, base[p..], i));
    WithNothing(Row(height, base[..p], i), Row(height, base[p..], i));
  }

  lemma WithNothing(a: seq<Id>, b: seq<Id>)
    ensures a + [] + b == a + b
  {
  }

  /** All in: the levels of the longer list. */
  lemma AllIn(f: Links, height: map<Id, int>, height': map<Id, int>, header: Id, base: seq<Id>, p: int, x: Id, hi: int)
    requires 0 <= p <= |base| && SameOn(height, height', base) && x in height' && height'[x] <= hi
    requires PartlyIn(f, height, header, base, p, x, height'[x], 0, hi)
    ensures Levels(f, height', header, base[..p] + [x] + base[p..])
  {
    var longer := base[..p] + [x] + base[p..];
    forall i | 0 <= i < MAX_LEVEL ensures Linked(f, i, [header] + Row(height', longer, i)) {
      assert LevelPart(f, height, header, base, p, x, height'[x], 0, hi, i);
      RowLonger(height, height', header, base, p, x, i);
    }
  }

  lemma StartAllIn(f: Links, height: map<Id, int>, header: Id, base: seq<Id>, p: int, x: Id, hi: int)
    requires 0 <= p <= |base| && SameOn(height, height, base) && x in height && height[x] <= hi
    requires Levels(f, height, header, base[..p] + [x] + base[p..])
    ensures PartlyIn(f, height, header, base, p, x, height[x], 0, hi)
  {
    var longer := base[..p] + [x] + base[p..];
    forall i | 0 <= i < MAX_LEVEL ensures LevelPart(f, height, header, base, p, x, height[x], 0, hi, i) {
      assert Linked(f, i, [header] + Row(height, longer, i));
      RowLonger(height, height, header, base, p, x, i);
    }
  }

  /** None in: the levels of the list without x. */
  lemma NoneIn(f: Links, height: map<Id, int>, header: Id, base: seq<Id>, p: int, x: Id, tall: int, lo: int, hi: int)
    requires 0 <= p <= |base| && (lo >= hi || lo >= tall)
    requires PartlyIn(f, height, header, base, p, x, tall, lo, hi)
    ensures Levels(f, height, header, base)
  {
    forall i | 0 <= i < MAX_LEVEL ensures Linked(f, i, [header] + Row(height, base, i)) {
      assert LevelPart(f, height, header, base, p, x, tall, lo, hi, i);
      RowWithout(height, header, base, p, i);
    }
  }

  lemma StartNoneIn(f: Links, height: map<Id, int>, header: Id, base: seq<Id>, p: int, x: Id, tall: int)
    requires 0 <= p <= |base| && Levels(f, height, header, base)
    ensures PartlyIn(f, height, header, base, p, x, tall, 0, 0)
  {
    forall i | 0 <= i < MAX_LEVEL ensures LevelPart(f, height, header, base, p, x, tall, 0, 0, i) {
      assert Linked(f, i, [header] + Row(height, base, i));
      RowWithout(height, header, base, p, i);
    }
  }

  /** The same nodes with arrays of the same sizes. */
  ghost predicate SameSizes(f: Links, f': Links) {
    f.Keys == f'.Keys && forall y :: y in f ==> |f'[y]| == |f[y]|
  }

  /** The nodes with x among them. */
  lemma NodesWith(score: map<Id, int>, f: Links, f': Links, height: map<Id, int>, header: Id, base: seq<Id>,
                  level: int, next: Id, p: int, x: Id, s: int, tall: int, level': int)
    requires Nodes(score, f, height, header, base, level, next) && CutAt(score, base, s, p)
    requires x == next && 1 <= tall <= level' <= MAX_LEVEL && level <= level'
    requires f'.Keys == f.Keys + {x} && |f'[x]| == tall && forall y :: y in f ==> |f'[y]| == |f[y]|
    ensures
      var base' := base[..p] + [x] + base[p..];
      Nodes(score[x := s], f', height[x := tall], header, base', level', next + 1)
  {
    var base' := base[..p] + [x] + base[p..];
    InsertSorted(score, base, s, p, x);
    assert base[..p] + base[p..] == base && x !in base;
    InsertNoRepeat(base[..p], x, base[p..]);
    forall k | 0 <= k < |base'|
      ensures base'[k] in f' && base'[k] in height[x := tall] && NULL < base'[k] < next + 1 && base'[k] != header
      ensures 1 <= height[x := tall][base'[k]] <= level' && |f'[base'[k]]| == height[x := tall][base'[k]]
    {
      assert base'[k] == if k < p then base[k] else if k == p then x else base[k - 1];
    }
  }

  lemma InsertSorted(score: map<Id, int>, base: seq<Id>, s: int, p: int, x: Id)
    requires Sorted(score, base) && CutAt(score, base, s, p) && x !in base
    ensures Sorted(score[x := s], base[..p] + [x] + base[p..])
  {
    var base' := base[..p] + [x] + base[p..];
    forall k | 0 <= k < |base'|
      ensures base'[k] == if k < p then base[k] else if k == p then x else base[k - 1]
    {
    }
  }

  lemma {:induction false} FullRow(height: map<Id, int>, base: seq<Id>)
    requires forall k :: 0 <= k < |base| ==> base[k] in height && height[base[k]] >= 1
    ensures Row(height, base, 0) == base
  {
    if base != [] {
      FullRow(height, base[..|base| - 1]);
    }
  }

  /** The header's pointer of the highest level tells whether the level is empty. */
  lemma EmptyTop(score: map<Id, int>, f: Links, height: map<Id, int>, header: Id, base: seq<Id>, level: int, next: Id)
    requires Nodes(score, f, height, header, base, level, next) && Levels(f, height, header, base) && level > 1
    ensures f[header][level - 1] == NULL <==> Row(height, base, level - 1) == []
    ensures Row(height, base, level - 1) == [] ==> Nodes(score, f, height, header, base, level - 1, next)
  {
    var top := Row(height, base, level - 1);
    var row := [header] + top;
    assert Linked(f, level - 1, row) && row[0] == header;
    RowMembers(height, base, level - 1);
    assert top != [] ==> row[1] == top[0] && top[0] in base;
    if top == [] {
      forall k | 0 <= k < |base| ensures height[base[k]] <= level - 1 {
        assert base[k] in base;
      }
    }
  }

  class SkipList {
    const header: Id
    var level: int
    var length: int

    // the memory: a score and an array of forward pointers for every node
    var score: map<Id, int>
    var forward: Links
    var next: Id

    /** The nodes in the order of level 0, and how many levels each has. */
    ghost var base: seq<Id>
    ghost var height: map<Id, int>

    ghost predicate Valid()
      reads this
    {
      && Nodes(score, forward, height, header, base, level, next) && Levels(forward, height, header, base)
      && Tight(height, base, level) && length == |base|
    }

    constructor ()
      ensures Valid() && base == []
    {
      header, level, length, next := 1, 1, 0, 2;
      score := map[];
      forward := map[1 := seq(MAX_LEVEL, _ => NULL)];
      base, height := [], map[];
    }

    /** The inner loop of the searches: along level i while the next score is less than s. */
    method Walk(from: Id, i: int, s: int, ghost row: seq<Id>, ghost start: int, ghost cut: int) returns (x: Id)
      requires Linked(forward, i, row) && 0 <= start <= cut < |row| && row[start] == from
      requires forall k :: 1 <= k < |row| ==> row[k] in score && row[k] != NULL && (score[row[k]] < s <==> k <= cut)
      ensures x == row[cut]
    {
      x := from;
      ghost var k := start;
      while forward[x][i] != NULL && score[forward[x][i]] < s
        invariant start <= k <= cut && x == row[k]
        decreases cut - k
      {
        x := forward[x][i];
        k := k + 1;
      }
    }

    method WalkLevel(from: Id, i: int, s: int, ghost p: int) returns (x: Id)
      requires Valid() && CutAt(score, base, s, p) && 0 <= i < MAX_LEVEL
      requires from == Before(height, header, base, p, i + 1)
      ensures x == Before(height, header, base, p, i)
    {
      ghost var start := BeforeBelow(height, header, base, p, i);
      ghost var row := RowAround(s, p, i, start);
      x := Walk(from, i, s, row, start, |Row(height, base[..p], i)|);
    }

    /** The outer loop: from the highest level down, the last node of each with a smaller score. */
    method Search(s: int, ghost p: int) returns (update: seq<Id>)
      requires Valid() && CutAt(score, base, s, p)
      ensures |update| == MAX_LEVEL
      ensures forall j :: 0 <= j < level ==> update[j] == Before(height, header, base, p, j)
    {
      update := seq(MAX_LEVEL, _ => NULL);
      var x := header;
      var i := level - 1;
      RowBounded(height, base[..p], level);
      while i >= 0
        invariant -1 <= i < level && |update| == MAX_LEVEL && x == Before(height, header, base, p, i + 1)
        invariant forall j :: i < j < level ==> update[j] == Before(height, header, base, p, j)
      {
        x := WalkLevel(x, i, s, p);
        update := update[i := x];
        i := i - 1;
      }
    }

    /** The row of level i with its cut. */
    lemma RowAround(s: int, p: int, i: int, start: int) returns (row: seq<Id>)
      requires Valid() && CutAt(score, base, s, p) && 0 <= i < MAX_LEVEL && 0 <= start <= |Row(height, base[..p], i)|
      ensures
        var cut := |Row(height, base[..p], i)|;
        && row == [header] + Row(height, base, i) && Linked(forward, i, row) && start <= cut < |row|
        && row[start] == ([header] + Row(height, base[..p], i))[start]
        && row[cut] == Before(height, header, base, p, i)
        && forall k :: 1 <= k < |row| ==> row[k] in score && row[k] != NULL && (score[row[k]] < s <==> k <= cut)
    {
      RowCut(score, height, base, s, p, i);
      row := [header] + Row(height, base, i);
      RowMembers(height, base, i);
      BehindHeader(score, header, Row(height, base[..p], i), Row(height, base[p..], i), s);
    }

    method Min() returns (x: Id)
      requires Valid()
      ensures if base == [] then x == NULL
              else x == base[0] && forall y :: y in base ==> score[x] <= score[y]
    {
      LowestRow();
      assert Linked(forward, 0, [header] + base);
      assert ([header] + base)[0] == header;
      x := forward[header][0];
    }

    /** Every node is on level 0. */
    lemma LowestRow()
      requires Valid()
      ensures Row(height, base, 0) == base && Linked(forward, 0, [header] + base)
    {
      FullRow(height, base);
      assert Linked(forward, 0, [header] + Row(height, base, 0));
    }

    /** The levels that the new node is the first to use start at the header. */
    method Raise(update0: seq<Id>, tall: int) returns (update: seq<Id>)
      requires |update0| == MAX_LEVEL && 1 <= level < tall <= MAX_LEVEL
      modifies this`level
      ensures level == tall && |update| == MAX_LEVEL
      ensures forall j :: 0 <= j < tall ==> update[j] == if j < old(level) then update0[j] else header
    {
      update := update0;
      var i := level;
      while i < tall
        invariant level <= i <= tall && |update| == MAX_LEVEL
        invariant forall j :: 0 <= j < i ==> update[j] == if j < level then update0[j] else header
      {
        update := update[i := header];
        i := i + 1;
      }
      level := tall;
    }

    method CreateNode(tall: int, s: int) returns (x: Id)
      requires 1 <= tall
      modifies this`score, this`forward, this`next
      ensures x == old(next) && next == old(next) + 1 && score == old(score)[x := s]
      ensures x in forward && |forward[x]| == tall && forward == old(forward)[x := forward[x]]
    {
      x := next;
      next := next + 1;
      score := score[x := s];
      forward := forward[x := seq(tall, _ => NULL)];
    }

    /** x is linked in behind update on each of its levels. */
    method LinkAll(x: Id, tall: int, update: seq<Id>, ghost p: int)
      requires Apart(header, base, p, x) && 0 <= tall <= MAX_LEVEL == |update| && x in forward && |forward[x]| == tall
      requires PartlyIn(forward, height, header, base, p, x, tall, 0, 0)
      requires forall j :: 0 <= j < tall ==> update[j] == Before(height, header, base, p, j)
      modifies this`forward
      ensures PartlyIn(forward, height, header, base, p, x, tall, 0, tall) && SameSizes(old(forward), forward)
    {
      var i := 0;
      while i < tall
        invariant 0 <= i <= tall && SameSizes(old(forward), forward)
        invariant PartlyIn(forward, height, header, base, p, x, tall, 0, i)
      {
        var u := update[i];
        AtBefore(forward, height, header, base, p, x, tall, 0, i, i);
        ghost var f := forward;
        forward := forward[x := forward[x][i := forward[u][i]]];
        ghost var f1 := forward;
        forward := forward[u := forward[u][i := x]];
        LinkStep(f, f1, forward, height, header, base, p, x, u, tall, i);
        i := i + 1;
      }
    }

    /** Behind which nodes a new one has to be linked in. */
    method Prepare(s: int, tall: int, ghost p: int) returns (update: seq<Id>)
      requires Valid() && 1 <= tall <= MAX_LEVEL && CutAt(score, base, s, p)
      modifies this`level
      ensures |update| == MAX_LEVEL && level == if tall > old(level) then tall else old(level)
      ensures forall j :: 0 <= j < tall ==> update[j] == Before(height, header, base, p, j)
    {
      update := Search(s, p);
      NothingAbove(p);
      if tall > level {
        update := Raise(update, tall);
      }
    }

    /** The new node comes before all others of its score. */
    method Insert(s: int, tall: int) returns (x: Id)
      requires Valid() && 1 <= tall <= MAX_LEVEL
      modifies this
      ensures Valid() && x !in old(base) && score == old(score)[x := s] && height == old(height)[x := tall]
      ensures
        var p := CutPoint(old(score), old(base), s);
        && base == old(base)[..p] + [x] + old(base)[p..]
        && (forall k :: 0 <= k < p ==> old(score)[old(base)[k]] < s)
        && (forall k :: p <= k < |old(base)| ==> old(score)[old(base)[k]] >= s)
    {
      ghost var p := CutPoint(score, base, s);
      ghost var level0, score0, f := level, score, forward;
      var update := Prepare(s, tall, p);
      x := CreateNode(tall, s);
      OldLevels(f, forward, height, header, base, x);
      StartNoneIn(forward, height, header, base, p, x, tall);
      LinkAll(x, tall, update, p);
      FinishInsert(score0, f, level0, p, x, s, tall);
      base, height := base[..p] + [x] + base[p..], height[x := tall];
      length := length + 1;
    }

    // -------------------------------------------------------------- deletion

    /** The loop of zslDeleteNode. */
    method UnlinkAll(x: Id, update: seq<Id>, ghost rest: seq<Id>, ghost p: int)
      requires 1 <= level <= MAX_LEVEL == |update| && Apart(header, rest, p, x) && x in height && height[x] <= level
      requires PartlyIn(forward, height, header, rest, p, x, height[x], 0, level)
      requires forall j :: 0 <= j < level ==> update[j] == Before(height, header, rest, p, j)
      modifies this`forward
      ensures Levels(forward, height, header, rest) && SameSizes(old(forward), forward)
    {
      var i := 0;
      while i < level
        invariant 0 <= i <= level && SameSizes(old(forward), forward)
        invariant PartlyIn(forward, height, header, rest, p, x, height[x], i, level)
      {
        Follows(forward, height, header, rest, p, x, update[i], height[x], i, level, i);
        if forward[update[i]][i] == x {
          ghost var f := forward;
          forward := forward[update[i] := forward[update[i]][i := forward[x][i]]];
          UnlinkStep(f, forward, height, header, rest, p, x, update[i], height[x], i, level, i, i + 1, level);
        } else {
          NoStep(forward, height, header, rest, p, x, height[x], i, level, i + 1, level);
        }
        i := i + 1;
      }
      NoneIn(forward, height, header, rest, p, x, height[x], level, level);
    }

    /** The loop of zslDeleteHead, from the highest level down. */
    method UnlinkFirst(x: Id, ghost rest: seq<Id>)
      requires 1 <= level <= MAX_LEVEL && Apart(header, rest, 0, x) && x in height && height[x] <= level
      requires PartlyIn(forward, height, header, rest, 0, x, height[x], 0, level)
      modifies this`forward
      ensures Levels(forward, height, header, rest) && SameSizes(old(forward), forward)
    {
      var i := level - 1;
      assert rest[..0] == [];
      while i >= 0
        invariant -1 <= i < level && SameSizes(old(forward), forward)
        invariant PartlyIn(forward, height, header, rest, 0, x, height[x], 0, i + 1)
      {
        Follows(forward, height, header, rest, 0, x, header, height[x], 0, i + 1, i);
        if forward[header][i] == x {
          ghost var f := forward;
          forward := forward[header := forward[header][i := forward[x][i]]];
          UnlinkStep(f, forward, height, header, rest, 0, x, header, height[x], 0, i + 1, i, 0, i);
        } else {
          NoStep(forward, height, header, rest, 0, x, height[x], 0, i + 1, 0, i);
        }
        i := i - 1;
      }
      NoneIn(forward, height, header, rest, 0, x, height[x], 0, 0);
    }

    /** Levels that have become empty are given up. */
    method LowerLevel()
      requires Nodes(score, forward, height, header, base, level, next) && Levels(forward, height, header, base)
      modifies this`level
      ensures Nodes(score, forward, height, header, base, level, next) && Tight(height, base, level)
    {
      while level > 1 && forward[header][level - 1] == NULL
        invariant Nodes(score, forward, height, header, base, level, next)
        decreases level
      {
        EmptyTop(score, forward, height, header, base, level, next);
        level := level - 1;
      }
      if level > 1 {
        EmptyTop(score, forward, height, header, base, level, next);
      }
    }

    /** zslDeleteNode for the node at p. */
    method DeleteNode(x: Id, update: seq<Id>, ghost p: int)
      requires Valid() && 0 <= p < |base| && x == base[p] && |update| == MAX_LEVEL
      requires forall j :: 0 <= j < level ==> update[j] == Before(height, header, base, p, j)
      modifies this
      ensures Valid() && base == old(base)[..p] + old(base)[p + 1..] && score == old(score) && height == old(height)
    {
      ghost var rest := base[..p] + base[p + 1..];
      TakenOut(score, forward, height, header, base, level, next, p);
      ghost var f := forward;
      UnlinkAll(x, update, rest, p);
      NodesWithout(score, f, forward, height, header, base, level, next, p);
      base := rest;
      LowerLevel();
      length := length - 1;
    }

    method Delete(zn: Id)
      requires Valid() && zn in score
      modifies this
      ensures Valid() && height == old(height)
      ensures
        var p := CutPoint(old(score), old(base), old(score)[zn]);
        if p < |old(base)| && old(score)[old(base)[p]] == old(score)[zn]
        then base == old(base)[..p] + old(base)[p + 1..] && score == old(score) - {old(base)[p]}
        else base == old(base) && score == old(score)
    {
      ghost var p := CutPoint(score, base, score[zn]);
      var update := Search(score[zn], p);
      AtCut(p);
      var x := forward[update[0]][0];
      if x != NULL && score[zn] == score[x] {
        ghost var was := base;
        DeleteNode(x, update, p);
        Freed(score, forward, height, header, base, level, next, x);
        score := score - {x};
        forward := forward - {x};
      }
    }

    /** Behind the last smaller node on level 0 comes the first of those that are not smaller. */
    lemma AtCut(p: int)
      requires Valid() && 0 <= p <= |base|
      ensures
        var u := Before(height, header, base, p, 0);
        && u in forward && 0 < |forward[u]| && forward[u][0] == At(base, p)
        && (p < |base| ==> base[p] != NULL && base[p] in score && base[p] !in base[..p] + base[p + 1..])
    {
      LowestRow();
      FullRow(height, base[..p]);
      var row, a := [header] + base, Row(height, base[..p], 0);
      assert a == base[..p] && row[p] == if p == 0 then header else base[p - 1];
      assert row[p] == Before(height, header, base, p, 0);
      if p < |base| {
        OnceOnly(base, p);
        assert row[p + 1] == base[p];
      }
    }

    method DeleteHead()
      requires Valid()
      modifies this
      ensures Valid() && score == old(score) && height == old(height)
      ensures base == if old(base) == [] then [] else old(base)[1..]
    {
      var x := Min();
      if x == NULL {
        return;
      }
      ghost var rest := base[..0] + base[1..];
      TakenOut(score, forward, height, header, base, level, next, 0);
      ghost var f := forward;
      UnlinkFirst(x, rest);
      NodesWithout(score, f, forward, height, header, base, level, next, 0);
      base := rest;
      LowerLevel();
      length := length - 1;
    }

    lemma NothingAbove(p: int)
      requires Valid() && 0 <= p <= |base|
      ensures forall j :: level <= j < MAX_LEVEL ==> Before(height, header, base, p, j) == header
    {
      forall j | level <= j < MAX_LEVEL ensures Before(height, header, base, p, j) == header {
        RowBounded(height, base[..p], j);
      }
    }

    /** The state that the assignments to the ghost fields complete. */
    lemma FinishInsert(score0: map<Id, int>, f: Links, level0: int, p: int, x: Id, s: int, tall: int)
      requires Nodes(score0, f, height, header, base, level0, x) && next == x + 1
      requires CutAt(score0, base, s, p) && score == score0[x := s]
      requires Tight(height, base, level0) && level == if tall > level0 then tall else level0
      requires forward.Keys == f.Keys + {x} && |forward[x]| == tall && forall y :: y in f ==> |forward[y]| == |f[y]|
      requires 1 <= tall <= MAX_LEVEL && PartlyIn(forward, height, header, base, p, x, tall, 0, tall)
      ensures
        var base', height' := base[..p] + [x] + base[p..], height[x := tall];
        && Nodes(score, forward, height', header, base', level, next) && Levels(forward, height', header, base')
        && Tight(height', base', level) && |base'| == |base| + 1
    {
      NodesWith(score0, f, forward, height, header, base, level0, x, p, x, s, tall, level);
      assert SameOn(height, height[x := tall], base);
      AllIn(forward, height, height[x := tall], header, base, p, x, tall);
      TightWith(height, base, level0, p, x, tall);
    }
  }

  /** The tallest node is still there, or the new one is. */
  lemma TightWith(height: map<Id, int>, base: seq<Id>, level: int, p: int, x: Id, tall: int)
    requires Tight(height, base, level) && 0 <= p <= |base| && 1 <= tall && SameOn(height, height[x := tall], base)
    ensures Tight(height[x := tall], base[..p] + [x] + base[p..], if tall > level then tall else level)
  {
    var top := (if tall > level then tall else level) - 1;
    RowsWithNode(height, height[x := tall], base, p, x, top);
    RowJoin(height, base[..p], base[p..], top);
    assert base[..p] + base[p..] == base;
  }

  lemma OnceOnly(s: seq<Id>, p: int)
    requires NoRepeat(s) && 0 <= p < |s|
    ensures s[p] !in s[..p] + s[p + 1..]
  {
    var rest := s[..p] + s[p + 1..];
    forall k | 0 <= k < |rest| ensures rest[k] != s[p] {
      assert rest[k] == s[if k < p then k else k + 1];
    }
  }

  /** Where Delete looks: the first node of the score is there, or there is no node of that score. */
  lemma CutIsFirst(score: map<Id, int>, base: seq<Id>, s: int)
    requires Sorted(score, base)
    ensures
      var p := CutPoint(score, base, s);
      && (forall k :: 0 <= k < p ==> score[base[k]] < s)
      && if p < |base| && score[base[p]] == s then forall k :: p <= k < |base| ==> score[base[k]] >= s
         else forall k :: 0 <= k < |base| ==> score[base[k]] != s
  {
    var p := CutPoint(score, base, s);
    assert forall k :: p < k < |base| ==> score[base[p]] <= score[base[k]];
  }

  /** zslDelete takes the first node of the score: the one asked for exactly when none before it has
      the same score. */
  lemma DeletesFirst(score: map<Id, int>, base: seq<Id>, z: int)
    requires Sorted(score, base) && NoRepeat(base) && 0 <= z < |base|
    ensures
      var p := CutPoint(score, base, score[base[z]]);
      && p <= z && score[base[p]] == score[base[z]]
      && (base[p] == base[z] <==> forall k :: 0 <= k < z ==> score[base[k]] < score[base[z]])
  {
    var p := CutPoint(score, base, score[base[z]]);
    assert p <= z && score[base[p]] <= score[base[z]];
  }

  /** Of two nodes of one score the other may go: asked to delete node 2, zslDelete takes node 1. */
  lemma DeletesAnother()
    ensures
      var score, base := map[1 := 5, 2 := 5], [1, 2];
      Sorted(score, base) && NoRepeat(base) && base[CutPoint(score, base, score[2])] == 1
  {
  }

  /** The nodes without the one at p. */
  lemma NodesWithout(score: map<Id, int>, f: Links, f': Links, height: map<Id, int>, header: Id, base: seq<Id>,
                     level: int, next: Id, p: int)
    requires Nodes(score, f, height, header, base, level, next) && 0 <= p < |base| && SameSizes(f, f')
    ensures Nodes(score, f', height, header, base[..p] + base[p + 1..], level, next)
  {
    var base' := base[..p] + base[p + 1..];
    forall k | 0 <= k < |base'| ensures base'[k] == if k < p then base[k] else base[k + 1] {
    }
    assert header !in base';
  }

  /** A node that is taken out, seen as one of its own. */
  lemma TakenOut(score: map<Id, int>, f: Links, height: map<Id, int>, header: Id, base: seq<Id>, level: int, next: Id, p: int)
    requires Nodes(score, f, height, header, base, level, next) && Levels(f, height, header, base) && 0 <= p < |base|
    ensures
      var x, rest := base[p], base[..p] + base[p + 1..];
      && Apart(header, rest, p, x) && rest[..p] == base[..p] && rest[p..] == base[p + 1..]
      && PartlyIn(f, height, header, rest, p, x, height[x], 0, level)
  {
    var x, rest := base[p], base[..p] + base[p + 1..];
    NodesWithout(score, f, f, height, header, base, level, next, p);
    assert base == base[..p] + [x] + base[p + 1..] && rest[..p] == base[..p] && rest[p..] == base[p + 1..];
    StartAllIn(f, height, header, rest, p, x, level);
  }

  /** Freeing a node that is linked nowhere. */
  lemma Freed(score: map<Id, int>, f: Links, height: map<Id, int>, header: Id, base: seq<Id>, level: int, next: Id, x: Id)
    requires Nodes(score, f, height, header, base, level, next) && Levels(f, height, header, base)
    requires x !in base && x != header
    ensures Nodes(score - {x}, f - {x}, height, header, base, level, next) && Levels(f - {x}, height, header, base)
  {
    forall i | 0 <= i < MAX_LEVEL ensures Linked(f - {x}, i, [header] + Row(height, base, i)) {
      var row := [header] + Row(height, base, i);
      assert Linked(f, i, row);
      RowMembers(height, base, i);
      forall k | 0 <= k < |row| ensures row[k] != x {
        assert k > 0 ==> row[k] == Row(height, base, i)[k - 1] && row[k] in Row(height, base, i);
      }
    }
  }

  /** The old levels after a node was created. */
  lemma OldLevels(f: Links, f': Links, height: map<Id, int>, header: Id, base: seq<Id>, x: Id)
    requires Levels(f, height, header, base) && x !in f && x in f' && f' == f[x := f'[x]]
    ensures Levels(f', height, header, base)
  {
    forall i | 0 <= i < MAX_LEVEL ensures Linked(f', i, [header] + Row(height, base, i)) {
      assert Linked(f, i, [header] + Row(height, base, i));
    }
  }
}
