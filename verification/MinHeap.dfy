/** The timer queue of minheap.c: a binary heap of entries that know their own place. */
module MinHeap {

  class Entry {
    var time: int
    /** The place in the heap, or -1 (all bits set) outside of one. */
    var index: int

    constructor (time: int)
      ensures this.time == time && index == -1
    {
      this.time, index := time, -1;
    }
  }

  const WORD := 0x1_0000_0000

  function Parent(i: int): int {
    (i - 1) / 2
  }

  // ---------------------------------------------------------------- order around a hole

  ghost predicate Ordered(q: seq<Entry>)
    reads (set e | e in q)`time
  {
    forall i {:trigger Parent(i)} :: 0 < i < |q| ==> q[Parent(i)].time <= q[i].time
  }

  /** All entries but the one at the hole are in order, the hole's parent and children included. */
  ghost predicate OrderedAround(q: seq<Entry>, hole: int)
    reads (set e | e in q)`time
  {
    && (forall i {:trigger Parent(i)} :: 0 < i < |q| && i != hole && Parent(i) != hole ==> q[Parent(i)].time <= q[i].time)
    && (forall i {:trigger Parent(i)} :: 0 < hole < i < |q| && Parent(i) == hole ==> q[Parent(hole)].time <= q[i].time)
  }

  /** The children of the hole are no earlier than t. */
  ghost predicate ChildrenFrom(q: seq<Entry>, hole: int, t: int)
    reads (set e | e in q)`time
  {
    forall i {:trigger Parent(i)} :: 0 < i < |q| && Parent(i) == hole ==> t <= q[i].time
  }

  /** The parent of the hole is no later than t. */
  ghost predicate ParentUpTo(q: seq<Entry>, hole: int, t: int)
    reads (set e | e in q)`time
  {
    0 < hole < |q| ==> q[Parent(hole)].time <= t
  }

  lemma OrderedHasHole(q: seq<Entry>, hole: int)
    requires Ordered(q) && 0 <= hole < |q|
    ensures OrderedAround(q, hole)
  {
    if hole > 0 {
      assert q[Parent(hole)].time <= q[hole].time;
    }
  }

  lemma HoleFilled(q: seq<Entry>, hole: int, e: Entry)
    requires OrderedAround(q, hole) && 0 <= hole < |q|
    requires ChildrenFrom(q, hole, e.time) && ParentUpTo(q, hole, e.time)
    ensures Ordered(q[hole := e])
  {
  }

  lemma HoleMovesUp(q: seq<Entry>, hole: int, e: Entry)
    requires OrderedAround(q, hole) && 0 < hole < |q| && q[Parent(hole)].time > e.time
    ensures
      var r := q[hole := q[Parent(hole)]];
      OrderedAround(r, Parent(hole)) && ChildrenFrom(r, Parent(hole), e.time)
  {
    var p := Parent(hole);
    var r := q[hole := q[p]];
    forall i | 0 < p < i < |r| && Parent(i) == p ensures r[Parent(p)].time <= r[i].time {
      assert q[Parent(p)].time <= q[p].time;
      if i != hole {
        assert q[Parent(i)].time <= q[i].time;
      }
    }
    forall i | 0 < i < |r| && Parent(i) == p ensures e.time <= r[i].time {
      if i != hole {
        assert q[Parent(i)].time <= q[i].time;
      }
    }
  }

  /** The earlier of the children of the hole. */
  ghost predicate EarlierChild(q: seq<Entry>, hole: int, child: int)
    reads (set e | e in q)`time
  {
    0 < child < |q| && Parent(child) == hole && ChildrenFrom(q, hole, q[child].time)
  }

  lemma HoleMovesDown(q: seq<Entry>, hole: int, child: int, e: Entry)
    requires OrderedAround(q, hole) && 0 <= hole < |q| && EarlierChild(q, hole, child) && q[child].time < e.time
    ensures
      var r := q[hole := q[child]];
      OrderedAround(r, child) && ParentUpTo(r, child, e.time)
  {
    var r := q[hole := q[child]];
    forall i | child < i < |r| && Parent(i) == child ensures r[Parent(child)].time <= r[i].time {
      assert q[Parent(i)].time <= q[i].time;
    }
    forall i | 0 < i < |r| && i != child && Parent(i) != child ensures r[Parent(i)].time <= r[i].time {
      if i == hole {
        assert q[Parent(hole)].time <= q[child].time;
      } else if Parent(i) == hole {
        assert q[child].time <= q[i].time;
      }
    }
  }

  /** One entry moved into the hole leaves a hole where it was. */
  lemma HoleMoves(q: seq<Entry>, hole: int, from: int, e: Entry)
    requires 0 <= hole < |q| && 0 <= from < |q| && hole != from
    ensures multiset(q[hole := q[from]][from := e]) == multiset(q[hole := e])
  {
    var a, b := q[hole := q[from]][from := e], q[hole := e];
    assert a == b[hole := b[from]][from := b[hole]];
  }

  lemma {:induction false} FirstIsEarliest(q: seq<Entry>, i: int)
    requires Ordered(q) && 0 <= i < |q|
    ensures q[0].time <= q[i].time
    decreases i
  {
    if i > 0 {
      FirstIsEarliest(q, Parent(i));
    }
  }

  /** Every entry but the one at the hole knows its place. */
  ghost predicate Indexed(q: seq<Entry>, hole: int)
    reads (set e | e in q)`index
  {
    forall i :: 0 <= i < |q| && i != hole ==> q[i].index == i
  }

  /** The entry e stands in no slot but the hole. */
  ghost predicate Elsewhere(q: seq<Entry>, hole: int, e: Entry) {
    forall i :: 0 <= i < |q| && i != hole ==> q[i] != e
  }

  ghost predicate Within(q: seq<Entry>, hole: int, team: set<Entry>) {
    forall i :: 0 <= i < |q| && i != hole ==> q[i] in team
  }

  /** Everything about a heap with a hole that the entry e is going to fill. */
  ghost predicate Open(q: seq<Entry>, hole: int, e: Entry)
    reads (set x | x in q)`time, (set x | x in q)`index
  {
    0 <= hole < |q| && OrderedAround(q, hole) && Indexed(q, hole) && Elsewhere(q, hole, e)
  }

  /** A free slot behind the heap is a hole. */
  lemma RoomBehind(q: seq<Entry>, r: seq<Entry>, e: Entry)
    requires Ordered(q) && Indexed(q, -1) && e !in q && |r| == |q| + 1 && r[..|q|] == q
    ensures Open(r, |q|, e) && ChildrenFrom(r, |q|, e.time) && multiset(r[|q| := e]) == multiset(q) + multiset{e}
  {
    assert r[|q| := e] == q + [e];
    assert forall i :: 0 <= i < |q| ==> r[i] == q[i];
  }

  lemma ChildrenOf(hole: int, i: int)
    requires 0 <= hole && 0 < i
    ensures Parent(i) == hole <==> i == 2 * hole + 1 || i == 2 * hole + 2
  {
  }

  /** The child that shift_down picks is the earlier one. */
  lemma PickChild(q: seq<Entry>, hole: int, m: int)
    requires 0 <= hole && m == 2 * (hole + 1) <= |q|
    ensures
      var child := if m == |q| || q[m].time > q[m - 1].time then m - 1 else m;
      EarlierChild(q, hole, child)
  {
    var child := if m == |q| || q[m].time > q[m - 1].time then m - 1 else m;
    ChildrenOf(hole, child);
    forall i | 0 < i < |q| && Parent(i) == hole ensures q[child].time <= q[i].time {
      ChildrenOf(hole, i);
    }
  }

  /** The last entry taken off, for the slot at i. */
  lemma LastOff(q: seq<Entry>, i: int)
    requires Ordered(q) && Indexed(q, -1) && 0 <= i < |q|
    ensures
      var n := |q| - 1;
      && Ordered(q[..n]) && Indexed(q[..n], -1) && Elsewhere(q[..n], n, q[n]) && Elsewhere(q, i, q[i])
      && (i < n ==> Open(q[..n], i, q[n]) && multiset(q[..n][i := q[n]]) == multiset(q) - multiset{q[i]})
      && (i == n ==> multiset(q[..n]) == multiset(q) - multiset{q[i]})
      && multiset(q)[q[i]] == 1
  {
    var n := |q| - 1;
    var r := q[..n];
    forall j | 0 < j < n ensures r[Parent(j)].time <= r[j].time {
      assert q[Parent(j)].time <= q[j].time;
    }
    OnlyOnce(q, i);
    LastOffCounts(q, i);
    if i < n {
      OrderedHasHole(r, i);
    }
  }

  lemma Stands(q: seq<Entry>, e: Entry)
    requires Indexed(q, -1) && e in q
    ensures 0 <= e.index < |q| && q[e.index] == e && Elsewhere(q, e.index, e)
  {
  }

  lemma Come(q: seq<Entry>, r: seq<Entry>, e: Entry)
    requires multiset(r) == multiset(q) + multiset{e} && Indexed(r, -1)
    ensures 0 <= e.index < |r| && r[e.index] == e
  {
    assert e in multiset(r);
  }

  lemma LastOffCounts(q: seq<Entry>, i: int)
    requires 0 <= i < |q|
    ensures
      var n := |q| - 1;
      multiset(if i < n then q[..n][i := q[n]] else q[..n]) == multiset(q) - multiset{q[i]}
  {
    var n := |q| - 1;
    assert q == q[..n] + [q[n]];
  }

  lemma OnlyOnce(q: seq<Entry>, i: int)
    requires Indexed(q, -1) && 0 <= i < |q|
    ensures multiset(q)[q[i]] == 1
  {
    assert q == q[..i] + [q[i]] + q[i + 1..];
    forall x | x in q[..i] ensures x != q[i] {
      var j :| 0 <= j < i && q[..i][j] == x;
      assert q[j] == x;
    }
    var behind := q[i + 1..];
    forall x | x in behind ensures x != q[i] {
      var j :| 0 <= j < |behind| && behind[j] == x;
      assert q[i + 1 + j] == x;
    }
  }

  /** What is earlier than the parent of a hole is earlier than what lies below the hole. */
  lemma EarlyAbove(q: seq<Entry>, hole: int, e: Entry)
    requires OrderedAround(q, hole) && 0 < hole < |q| && q[Parent(hole)].time > e.time
    ensures ChildrenFrom(q, hole, e.time)
  {
  }

  class MinHeap {
    /** The slots in use so far, the first n of them live; there is room for a. */
    var p: seq<Entry>
    var n: nat
    var a: nat

    ghost predicate Sized()
      reads this
    {
      n <= |p| <= a
    }

    ghost function Live(): seq<Entry>
      requires Sized()
      reads this
    {
      p[..n]
    }

    ghost predicate Valid()
      reads this, p
    {
      Sized() && Ordered(Live()) && Indexed(Live(), -1)
    }

    constructor ()
      ensures Valid() && Live() == []
    {
      p, n, a := [], 0, 0;
    }

    /** (p[i] = e)->min_heap_idx = i */
    method Put(i: int, e: Entry)
      requires Sized() && 0 <= i < |p|
      modifies this`p, e`index
      ensures p == old(p)[i := e] && e.index == i
    {
      p := p[i := e];
      e.index := i;
    }

    /** (p[hole] = p[from])->min_heap_idx = hole, which leaves a hole at `from`. */
    method Pull(hole: int, from: int, ghost e: Entry)
      requires Sized() && 0 <= hole < n && 0 <= from < n && hole != from
      requires Indexed(Live(), hole) && Elsewhere(Live(), hole, e)
      modifies this`p, {p[from]}`index
      ensures Sized() && |p| == |old(p)| && p[n..] == old(p)[n..]
      ensures Live() == old(Live())[hole := old(Live())[from]]
      ensures Indexed(Live(), from) && Elsewhere(Live(), from, e)
      ensures multiset(Live()[from := e]) == multiset(old(Live())[hole := e])
    {
      HoleMoves(Live(), hole, from, e);
      Put(hole, p[from]);
      assert Live() == old(Live())[hole := old(Live())[from]];
    }

    /** (p[hole] = e)->min_heap_idx = hole */
    method Fill(hole: int, e: Entry)
      requires Sized() && 0 <= hole < n && Indexed(Live(), hole) && Elsewhere(Live(), hole, e)
      modifies this`p, e`index
      ensures Sized() && |p| == |old(p)| && p[n..] == old(p)[n..]
      ensures Live() == old(Live())[hole := e] && Indexed(Live(), -1)
    {
      Put(hole, e);
      assert Live() == old(Live())[hole := e];
    }

    /** One turn of the loops that move a hole up. */
    method PullDown(hole: int, e: Entry, ghost team: set<Entry>)
      requires Sized() && Open(Live(), hole, e) && hole > 0 && p[Parent(hole)].time > e.time
      requires Within(Live(), hole, team)
      modifies this`p, team`index
      ensures Sized() && |p| == |old(p)| && p[n..] == old(p)[n..]
      ensures Open(Live(), Parent(hole), e) && ChildrenFrom(Live(), Parent(hole), e.time)
      ensures Within(Live(), Parent(hole), team)
      ensures multiset(Live()[Parent(hole) := e]) == multiset(old(Live())[hole := e])
    {
      HoleMovesUp(Live(), hole, e);
      Pull(hole, Parent(hole), e);
    }

    method Close(hole: int, e: Entry)
      requires Sized() && Open(Live(), hole, e)
      requires ChildrenFrom(Live(), hole, e.time) && ParentUpTo(Live(), hole, e.time)
      modifies this`p, e`index
      ensures Sized() && |p| == |old(p)| && p[n..] == old(p)[n..]
      ensures Ordered(Live()) && Indexed(Live(), -1) && Live() == old(Live())[hole := e]
    {
      HoleFilled(Live(), hole, e);
      Fill(hole, e);
    }

    method ShiftUp(hole: int, e: Entry, ghost team: set<Entry>)
      requires Sized() && Open(Live(), hole, e) && ChildrenFrom(Live(), hole, e.time)
      requires Within(Live(), hole, team) && e in team
      modifies this`p, team`index
      ensures Sized() && |p| == |old(p)| && p[n..] == old(p)[n..]
      ensures Ordered(Live()) && Indexed(Live(), -1)
      ensures multiset(Live()) == multiset(old(Live())[hole := e])
    {
      var h := hole;
      var parent := Parent(h);
      while h != 0 && p[parent].time > e.time
        invariant Sized() && |p| == |old(p)| && p[n..] == old(p)[n..] && parent == Parent(h)
        invariant Open(Live(), h, e) && ChildrenFrom(Live(), h, e.time) && Within(Live(), h, team)
        invariant multiset(Live()[h := e]) == multiset(old(Live())[hole := e])
        decreases h
      {
        PullDown(h, e, team);
        h := parent;
        parent := Parent(h);
      }
      Close(h, e);
    }

    /** Entered by its callers only with a parent that is later than e. */
    method ShiftUpUnconditional(hole: int, e: Entry, ghost team: set<Entry>)
      requires Sized() && Open(Live(), hole, e) && hole > 0 && p[Parent(hole)].time > e.time
      requires Within(Live(), hole, team) && e in team
      modifies this`p, team`index
      ensures Sized() && |p| == |old(p)| && p[n..] == old(p)[n..]
      ensures Ordered(Live()) && Indexed(Live(), -1)
      ensures multiset(Live()) == multiset(old(Live())[hole := e])
    {
      PullDown(hole, e, team);
      var h := Parent(hole);
      var parent := Parent(h);
      while h != 0 && p[parent].time > e.time
        invariant Sized() && |p| == |old(p)| && p[n..] == old(p)[n..] && parent == Parent(h)
        invariant Open(Live(), h, e) && ChildrenFrom(Live(), h, e.time) && Within(Live(), h, team)
        invariant multiset(Live()[h := e]) == multiset(old(Live())[hole := e])
        decreases h
      {
        PullDown(h, e, team);
        h := parent;
        parent := Parent(h);
      }
      Close(h, e);
    }

    /** One turn of the loop that moves a hole down. */
    method PullUp(hole: int, child: int, e: Entry, ghost team: set<Entry>)
      requires Sized() && Open(Live(), hole, e) && EarlierChild(Live(), hole, child) && p[child].time < e.time
      requires Within(Live(), hole, team)
      modifies this`p, team`index
      ensures Sized() && |p| == |old(p)| && p[n..] == old(p)[n..]
      ensures Open(Live(), child, e) && ParentUpTo(Live(), child, e.time) && Within(Live(), child, team)
      ensures multiset(Live()[child := e]) == multiset(old(Live())[hole := e])
    {
      HoleMovesDown(Live(), hole, child, e);
      Pull(hole, child, e);
    }

    method ShiftDown(hole: int, e: Entry, ghost team: set<Entry>)
      requires Sized() && Open(Live(), hole, e) && ParentUpTo(Live(), hole, e.time)
      requires Within(Live(), hole, team) && e in team
      modifies this`p, team`index
      ensures Sized() && |p| == |old(p)| && p[n..] == old(p)[n..]
      ensures Ordered(Live()) && Indexed(Live(), -1)
      ensures multiset(Live()) == multiset(old(Live())[hole := e])
    {
      var h := hole;
      var minChild := SecondChild(h);
      while minChild <= n
        invariant Sized() && |p| == |old(p)| && p[n..] == old(p)[n..] && minChild == SecondChild(h)
        invariant Open(Live(), h, e) && ParentUpTo(Live(), h, e.time) && Within(Live(), h, team)
        invariant multiset(Live()[h := e]) == multiset(old(Live())[hole := e])
        decreases n - h
      {
        PickChild(Live(), h, minChild);
        minChild := if minChild == n || p[minChild].time > p[minChild - 1].time then minChild - 1 else minChild;
        if !(e.time > p[minChild].time) {
          break;
        }
        PullUp(h, minChild, e, team);
        h := minChild;
        minChild := SecondChild(h);
      }
      Settled(Live(), h, minChild, e);
      Close(h, e);
    }

    /** The last entry has just been taken off, for the slot i. */
    ghost predicate Shortened(was: seq<Entry>, i: int, team: set<Entry>)
      reads this, was
    {
      && n <= |p| <= a && 0 <= i < |was| && n == |was| - 1 && |p| > n && p[..n] == was[..n] && p[n] == was[n]
      && Ordered(was) && Indexed(was, -1) && Within(was, -1, team)
    }

    method RefitInner(i: int, ghost was: seq<Entry>, ghost team: set<Entry>)
      requires Shortened(was, i, team) && i < n && (i == 0 || p[Parent(i)].time <= p[n].time)
      modifies this`p, team`index
      ensures Valid() && multiset(Live()) == multiset(was) - multiset{was[i]}
    {
      LastOff(was, i);
      ShiftDown(i, p[n], team);
    }

    method Park(last: Entry)
      requires Valid() && n < |p| && last !in Live()
      modifies this`p, last`index
      ensures Valid() && Live() == old(Live())
    {
      Put(n, last);
      assert Live() == old(Live());
    }

    method RefitUp(i: int, ghost was: seq<Entry>, ghost team: set<Entry>)
      requires Shortened(was, i, team) && i > 0 && p[Parent(i)].time > p[n].time
      modifies this`p, team`index
      ensures Valid() && multiset(Live()) == multiset(was) - multiset{was[i]}
    {
      LastOff(was, i);
      LastStays(was, i);
      ShiftUpUnconditional(i, p[n], team);
    }

    /** When i is the slot just behind the heap the loop of shift_down is not entered, since
        min_child == 2 * (n + 1) > n: it only fills the slot. */
    method RefitDown(i: int, ghost was: seq<Entry>, ghost team: set<Entry>)
      requires Shortened(was, i, team) && (i == 0 || p[Parent(i)].time <= p[n].time)
      modifies this`p, team`index
      ensures Valid() && multiset(Live()) == multiset(was) - multiset{was[i]}
    {
      if i < n {
        RefitInner(i, was, team);
      } else {
        LastOff(was, i);
        LastOffCounts(was, i);
        Park(p[n]);
      }
    }

    method MarkOut(e: Entry)
      requires Valid() && e !in Live()
      modifies e`index
      ensures Valid() && e.index == -1
    {
      e.index := -1;
    }

    /** realloc either grants the memory or not.  The doubling is that of 32-bit words: where it
        wraps, the room asked for is taken instead. */
    method Reserve(m: nat, granted: bool) returns (r: int)
      requires Sized()
      modifies this`a
      ensures Sized() && r == (if old(a) >= m || granted then 0 else -1)
      ensures if r == 0 then a >= m && a >= old(a) else a == old(a)
      ensures old(a) >= m ==> a == old(a)
      ensures r == 0 && 0 == old(a) < m ==> a == if m > 8 then m else 8
      ensures r == 0 && 0 < old(a) < m && old(a) < 0x8000_0000 ==> a == if m > 2 * old(a) then m else 2 * old(a)
      ensures r == 0 && 0x8000_0000 <= old(a) < m && old(a) < 0x1_0000_0000 ==> a == m
    {
      if a < m {
        var room := if a != 0 then a * 2 % WORD else 8;
        if room < m {
          room := m;
        }
        if !granted {
          return -1;
        }
        a := room;
      }
      return 0;
    }

    /** n++ with the memory reserved before. */
    method OpenSlot(e: Entry, ghost team: set<Entry>)
      requires Valid() && e !in Live() && a > n && Within(Live(), -1, team)
      modifies this`p, this`n
      ensures Sized() && n == old(n) + 1 && Live()[..n - 1] == old(Live())
      ensures Open(Live(), n - 1, e) && ChildrenFrom(Live(), n - 1, e.time) && Within(Live(), n - 1, team)
      ensures multiset(Live()[n - 1 := e]) == multiset(old(Live())) + multiset{e}
    {
      ghost var was := Live();
      if n == |p| {
        p := p + [e];
      }
      n := n + 1;
      assert Live()[..n - 1] == was;
      RoomBehind(was, Live(), e);
    }

    method Push(e: Entry, granted: bool) returns (r: int)
      requires Valid() && e !in Live()
      modifies this, e`index, (set x | x in Live())`index
      ensures Valid() && r == (if old(a > n) || granted then 0 else -1)
      ensures r == 0 ==> multiset(Live()) == multiset(old(Live())) + multiset{e} && 0 <= e.index < n && p[e.index] == e
      ensures r == -1 ==> Live() == old(Live()) && e.index == old(e.index)
    {
      r := Reserve(n + 1, granted);
      if r != 0 {
        return;
      }
      PushRoom(e, (set x | x in Live()) + {e});
    }

    method PushRoom(e: Entry, ghost team: set<Entry>)
      requires Valid() && e !in Live() && a > n && Within(Live(), -1, team) && e in team
      modifies this`p, this`n, team`index
      ensures Valid() && n == old(n) + 1 && 0 <= e.index < n && p[e.index] == e
      ensures multiset(Live()) == multiset(old(Live())) + multiset{e}
    {
      ghost var was := Live();
      OpenSlot(e, team);
      ghost var open := Live()[n - 1 := e];
      ShiftUp(n - 1, e, team);
      ghost var now := Live();
      assert multiset(now) == multiset(open) == multiset(was) + multiset{e};
      Come(was, now, e);
    }

    method Top() returns (e: Entry?)
      requires Valid()
      ensures e == null <==> Live() == []
      ensures e != null ==> e == Live()[0] && forall x :: x in Live() ==> e.time <= x.time
    {
      if n == 0 {
        return null;
      }
      e := p[0];
      forall x | x in Live() ensures e.time <= x.time {
        FirstIsEarliest(Live(), x.index);
      }
    }

    /** Removes one of the earliest entries. */
    method Pop() returns (e: Entry?)
      requires Valid()
      modifies this, (set x | x in Live())`index
      ensures Valid()
      ensures e == null <==> old(Live()) == []
      ensures e == null ==> Live() == []
      ensures e != null ==> e in old(Live()) && e.index == -1 && multiset(Live()) == multiset(old(Live())) - multiset{e}
      ensures e != null ==> forall x :: x in old(Live()) ==> e.time <= x.time
    {
      ghost var was, team := Live(), set x | x in Live();
      if n != 0 {
        e := Top();
        RemoveFirst(e, was, team);
        MarkOut(e);
        return;
      }
      return null;
    }

    method RemoveFirst(e: Entry, ghost was: seq<Entry>, ghost team: set<Entry>)
      requires Valid() && n > 0 && was == Live() && e == was[0] && Within(was, -1, team)
      modifies this`p, this`n, team`index
      ensures Valid() && e !in Live() && multiset(Live()) == multiset(was) - multiset{e}
      ensures forall x :: x in Live() ==> x in was
    {
      OnlyOnce(was, 0);
      n := n - 1;
      assert Live() == was[..n] && p[n] == was[n];
      RefitDown(0, was, team);
      Gone(was, Live(), e);
    }

    /** Removes e, wherever it is. */
    method Erase(e: Entry) returns (r: int)
      requires Valid() && (e.index != -1 ==> e in Live())
      modifies this, e`index, (set x | x in Live())`index
      ensures Valid() && e.index == -1
      ensures r == if old(e.index) != -1 then 0 else -1
      ensures
        if r == 0 then multiset(Live()) == multiset(old(Live())) - multiset{e} else Live() == old(Live())
    {
      if -1 != e.index {
        ghost var was, team := Live(), set x | x in Live();
        var i := e.index;
        n := n - 1;
        assert Live() == was[..n] && p[n] == was[n];
        OnlyOnce(was, i);
        if i > 0 && p[Parent(i)].time > p[n].time {
          RefitUp(i, was, team);
        } else {
          RefitDown(i, was, team);
        }
        Gone(was, Live(), e);
        MarkOut(e);
        return 0;
      }
      return -1;
    }

    /** To be called when the time of e has changed: everything but e is in order. */
    method Adjust(e: Entry, granted: bool) returns (r: int)
      requires Sized() && Indexed(Live(), -1)
      requires if e.index == -1 then Ordered(Live()) && e !in Live() else e in Live() && OrderedAround(Live(), e.index)
      modifies this, e`index, (set x | x in Live())`index
      ensures Sized()
      ensures r == (if old(e.index) != -1 || old(a > n) || granted then 0 else -1)
      ensures r == 0 ==> Valid() && e in Live()
      ensures r == 0 ==> multiset(Live()) == multiset(old(Live())) + if old(e.index) == -1 then multiset{e} else multiset{}
      ensures r == -1 ==> Live() == old(Live()) && Valid()
    {
      if -1 == e.index {
        r := Push(e, granted);
        if r == 0 {
          assert e in multiset(Live());
        }
      } else {
        ghost var was, team := Live(), set x | x in Live();
        var i := e.index;
        Stands(was, e);
        assert was[i := e] == was;
        if i > 0 && p[Parent(i)].time > e.time {
          ShiftUpUnconditional(i, e, team);
        } else {
          ShiftDown(i, e, team);
        }
        assert e in multiset(Live());
        return 0;
      }
    }

    /** A new time for an entry of a heap, then adjust. */
    method Reschedule(e: Entry, time: int)
      requires Valid() && e in Live()
      modifies this, e, (set x | x in Live())`index
      ensures Valid() && e.time == time && multiset(Live()) == multiset(old(Live()))
    {
      OrderedHasHole(Live(), e.index);
      e.time := time;
      assert OrderedAround(Live(), e.index);
      var r := Adjust(e, false);
    }
  }

  /** No index that a heap of n entries computes wraps a 32-bit word, exactly up to 2^31 - 2 entries:
      a hole may be the place behind the last entry, and its second child is looked at first. */
  lemma IndicesFit(n: nat)
    ensures (forall hole :: 0 <= hole <= n ==> SecondChild(hole) < WORD && n + 1 < WORD) <==> n <= 0x8000_0000 - 2
  {
    assert SecondChild(n) == 2 * (n + 1);
  }

  function SecondChild(hole: int): int {
    2 * (hole + 1)
  }

  /** When e is the last entry itself, its parent is no later. */
  lemma LastStays(q: seq<Entry>, i: int)
    requires Ordered(q) && 0 <= i < |q|
    ensures i == |q| - 1 && i > 0 ==> q[Parent(i)].time <= q[i].time
  {
  }

  /** After e has left. */
  lemma Gone(q: seq<Entry>, r: seq<Entry>, e: Entry)
    requires multiset(q)[e] == 1 && multiset(r) == multiset(q) - multiset{e}
    ensures e !in r && forall x :: x in r ==> x in q
  {
    assert e !in multiset(r);
    assert forall x :: x in r ==> x in multiset(r);
  }

  /** The hole has no child that is earlier than e. */
  lemma Settled(q: seq<Entry>, hole: int, m: int, e: Entry)
    requires 0 <= hole < |q|
    requires (m == 2 * (hole + 1) && m > |q|) || (EarlierChild(q, hole, m) && e.time <= q[m].time)
    ensures ChildrenFrom(q, hole, e.time)
  {
    forall i | 0 < i < |q| && Parent(i) == hole ensures e.time <= q[i].time {
      ChildrenOf(hole, i);
    }
  }
}
