/** The hierarchical timing wheel of timewheel.c: 256 near slots and four levels of 64 slots.

    The wheel keeps 32-bit words only.  The model adds a clock `now` that never wraps and, for
    every timer ever added, a birth record; `Inv` ties the words to them.  The main result is
    that a timer is dispatched exactly once, at its deadline, if and only if it was not linked
    into slot 0 of level 0, 1 or 2 when it was added and has not been cancelled before. */
module TimeWheel {
  import opened Arithmetic

  const WORD := 0x1_0000_0000          // 2^32
  const TIME_NEAR := 256
  const TIME_LEVEL := 64
  const SLOTS := 512                   // 256 + 4 * 64
  const NEAR := -1                     // the near wheel, numbered as a level below level 0

  datatype TimerNode = TimerNode(expire: nat, id: int, serial: nat)

  /** What add_timer was asked: a delay, at some tick of the unbounded clock, for this thread. */
  datatype Birth = Birth(at: nat, delay: int, id: int) {
    /** The tick at which the callback has to run; non-positive delays run at once. */
    function Due(): nat {
      if delay <= 0 then at else at + delay
    }

    /** The timer is linked into a slot that timer_shift never empties. */
    predicate Stuck() {
      delay > 0 && LandsInDeadSlot(at, at + delay)
    }
  }

  /** A callback run at a tick; the id is the one in the node that it is given. */
  datatype Firing = Firing(serial: nat, tick: nat, id: int)

  /** A call of add_timer, with what its callback asks for if it runs at once; or of del_timer,
      for the node with this serial. */
  datatype Call = Add(delay: Int32, id: int, nested: seq<Call>) | Cancel(serial: nat)
  datatype Op = Ask(call: Call) | Update

  /** Who makes a call: the i-th operation of a run, or the k-th callback as its j-th call. */
  datatype Cause = FromOp(i: nat) | FromCallback(k: nat, j: nat)

  datatype Location = Location(slot: nat, pos: nat)

  predicate IsInt32(x: int) {
    -0x8000_0000 <= x < 0x8000_0000
  }

  type Int32 = x: int | IsInt32(x)

  /** Ticks covered by one slot of a level: 1, 2^8, 2^14, 2^20, 2^26. */
  function Window(level: int): (w: nat)
    requires NEAR <= level <= 3
    ensures w > 0
  {
    if level == NEAR then 1
    else if level == 0 then 0x100
    else if level == 1 then 0x4000
    else if level == 2 then 0x10_0000
    else 0x400_0000
  }

  function SlotCount(level: int): nat {
    if level == NEAR then TIME_NEAR else TIME_LEVEL
  }

  /** The level that add_node chooses for a distance to the deadline. */
  function LevelFor(msec: nat): (level: int)
    ensures NEAR <= level <= 3
  {
    if msec < 0x100 then NEAR
    else if msec < 0x4000 then 0
    else if msec < 0x10_0000 then 1
    else if msec < 0x400_0000 then 2
    else 3
  }

  /** Whether add_node, at tick `now`, links a deadline into slot 0 of level 0, 1 or 2. */
  predicate LandsInDeadSlot(now: nat, due: nat)
    requires now <= due
  {
    var level := LevelFor(due - now);
    0 <= level <= 2 && due / Window(level) % TIME_LEVEL == 0
  }

  /** Where a node may sit while the clock shows `now`; near nodes are not due before `lo`. */
  predicate Placed(now: nat, lo: nat, due: nat, stuck: bool, level: int, idx: int)
    requires NEAR <= level <= 3
  {
    if stuck then 0 <= level <= 2 && idx == 0
    else if level == NEAR then lo <= due < now + TIME_NEAR && idx == due % TIME_NEAR
    else
      && now / Window(level) < due / Window(level) <= now / Window(level) + TIME_LEVEL
      && idx == due / Window(level) % TIME_LEVEL
      && (level <= 2 ==> idx != 0)
  }

  // ---------------------------------------------------------------- arithmetic of the slots

  /** A 32-bit word and the unbounded tick it stands for select the same slot. */
  lemma WordSlot(due: nat, level: int)
    requires NEAR <= level <= 3
    ensures due % WORD / Window(level) % SlotCount(level) == due / Window(level) % SlotCount(level)
  {
    if level == NEAR {
      DigitOfMod(due, 1, WORD, 0x100, 0x100_0000);
    } else if level == 0 {
      DigitOfMod(due, 0x100, 0x100_0000, 0x40, 0x4_0000);
    } else if level == 1 {
      DigitOfMod(due, 0x4000, 0x4_0000, 0x40, 0x1000);
    } else if level == 2 {
      DigitOfMod(due, 0x10_0000, 0x1000, 0x40, 0x40);
    } else {
      DigitOfMod(due, 0x400_0000, 0x40, 0x40, 1);
    }
  }

  /** The wrapped difference of two wrapped clocks is the true distance. */
  lemma WrappedDistance(now: nat, due: nat)
    requires now <= due < now + WORD
    ensures (due % WORD - now % WORD) % WORD == due - now
  {
  }

  /** add_node puts a node where the invariant wants it, for every distance below 2^32. */
  lemma AddNodePlaces(now: nat, lo: nat, due: nat)
    requires now <= lo <= due < now + WORD
    ensures
      var level := LevelFor(due - now);
      Placed(now, lo, due, LandsInDeadSlot(now, due), level,
             due / Window(level) % SlotCount(level))
  {
    var level := LevelFor(due - now);
    if level == NEAR {
    } else if level == 0 {
    } else if level == 1 {
    } else if level == 2 {
    } else {
    }
  }

  /** From the start of a window on, every lower digit of a deadline is the digit of its distance. */
  lemma DigitsOfDistance(now: nat, d: nat, level: int, lower: int)
    requires 0 <= lower < level <= 3
    requires now % Window(level) == 0
    ensures (now + d) / Window(lower) % TIME_LEVEL == d / Window(lower) % TIME_LEVEL
  {
    var c := Window(level - 1) / Window(lower);
    assert Window(level) == Window(lower) * TIME_LEVEL * c;
    DigitAbove(now, d, Window(lower), TIME_LEVEL, c);
  }

  /** A node that cascades lands strictly lower, and never in a zero slot. */
  lemma CascadeLandsLive(now: nat, due: nat, level: int)
    requires 0 <= level <= 3
    requires now % Window(level) == 0
    requires now / Window(level) == due / Window(level)
    ensures now <= due < now + Window(level)
    ensures LevelFor(due - now) < level
    ensures !LandsInDeadSlot(now, due)
  {
    var lower := LevelFor(due - now);
    if 0 <= lower < level {
      DigitsOfDistance(now, due - now, level, lower);
    }
  }

  /** When the clock advances, a node keeps its place unless its window has just begun. */
  lemma AdvanceKeepsPlace(now: nat, due: nat, stuck: bool, level: int, idx: int)
    requires NEAR <= level <= 3
    requires Placed(now, now + 1, due, stuck, level, idx)
    ensures Placed(now + 1, now + 1, due, stuck, level, idx)
      || (!stuck && level >= 0 && (now + 1) % Window(level) == 0
          && (now + 1) / Window(level) == due / Window(level))
  {
    if level >= 0 {
      DivStep(now, Window(level));
    }
  }

  /** The slot that timer_shift empties at tick `now`, if any: the lowest level whose window
      starts here with a non-zero index, or slot 0 of level 3 when the word wraps. */
  predicate Cascades(now: nat, level: int, idx: int) {
    && 0 <= level <= 3
    && now % Window(level) == 0
    && idx == now / Window(level) % TIME_LEVEL
    && (idx != 0 || (level == 3 && now % WORD == 0))
  }

  /** At most one slot is emptied per tick. */
  lemma CascadeUnique(now: nat, l1: int, i1: int, l2: int, i2: int)
    requires Cascades(now, l1, i1) && Cascades(now, l2, i2)
    ensures l1 == l2 && i1 == i2
  {
    if l1 < l2 {
      DigitsOfDistance(now, 0, l2, l1);
    } else if l2 < l1 {
      DigitsOfDistance(now, 0, l1, l2);
    }
  }

  /** A live node whose window begins at `now` sits in the slot that is emptied at `now`. */
  lemma WindowStartIsEmptied(now: nat, due: nat, level: int)
    requires 0 <= level <= 3
    requires now % Window(level) == 0 && now / Window(level) == due / Window(level)
    requires level <= 2 ==> due / Window(level) % TIME_LEVEL != 0
    ensures Cascades(now, level, due / Window(level) % TIME_LEVEL)
  {
  }

  /** Everything live in the emptied slot belongs to the window that begins at `now`. */
  lemma EmptiedSlotIsThisWindow(now: nat, due: nat, level: int, idx: int)
    requires Cascades(now + 1, level, idx)
    requires Placed(now, now + 1, due, false, level, idx)
    ensures (now + 1) / Window(level) == due / Window(level)
  {
    DivStep(now, Window(level));
  }

  /** What is known of a node right after the clock advanced to `now`: the slot about to be
      emptied holds this window, every other slot is in order. */
  predicate Advanced(now: nat, due: nat, stuck: bool, level: int, idx: int)
    requires NEAR <= level <= 3
  {
    if Cascades(now, level, idx)
    then !stuck && now / Window(level) == due / Window(level)
    else Placed(now, now, due, stuck, level, idx)
  }

  lemma AdvanceClock(now: nat, due: nat, stuck: bool, level: int, idx: int)
    requires NEAR <= level <= 3
    requires Placed(now, now + 1, due, stuck, level, idx)
    ensures Advanced(now + 1, due, stuck, level, idx)
  {
    AdvanceKeepsPlace(now, due, stuck, level, idx);
    if Cascades(now + 1, level, idx) {
      EmptiedSlotIsThisWindow(now, due, level, idx);
    } else if !Placed(now + 1, now + 1, due, stuck, level, idx) {
      WindowStartIsEmptied(now + 1, due, level);
    }
  }

  // ---------------------------------------------------------------- slots and locations

  type Slots = s: seq<seq<TimerNode>> | |s| == SLOTS witness seq(SLOTS, _ => [])

  /** near[idx] and t[level][idx] lie one after the other, as in the struct. */
  function SlotNo(level: int, idx: int): (n: nat)
    requires NEAR <= level <= 3 && 0 <= idx < SlotCount(level)
    ensures n < SLOTS
    ensures LevelOf(n) == level && IndexOf(n) == idx
  {
    if level == NEAR then idx else TIME_NEAR + level * TIME_LEVEL + idx
  }

  function LevelOf(n: nat): (level: int)
    ensures n < SLOTS ==> NEAR <= level <= 3
  {
    if n < TIME_NEAR then NEAR else (n - TIME_NEAR) / TIME_LEVEL
  }

  function IndexOf(n: nat): int {
    if n < TIME_NEAR then n else (n - TIME_NEAR) % TIME_LEVEL
  }

  /** `loc` is the inverse of the slots: each serial is linked in one place only. */
  ghost predicate Located(slots: Slots, loc: map<nat, Location>) {
    && (forall n, p :: 0 <= n < SLOTS && 0 <= p < |slots[n]| ==>
          slots[n][p].serial in loc && loc[slots[n][p].serial] == Location(n, p))
    && (forall s :: s in loc ==>
          && loc[s].slot < SLOTS && loc[s].pos < |slots[loc[s].slot]|
          && slots[loc[s].slot][loc[s].pos].serial == s)
  }

  ghost function Serials(nodes: seq<TimerNode>): (r: set<nat>) {
    set k | 0 <= k < |nodes| :: nodes[k].serial
  }

  ghost predicate Distinct(nodes: seq<TimerNode>) {
    forall j, k :: 0 <= j < k < |nodes| ==> nodes[j].serial != nodes[k].serial
  }

  lemma ClearKeepsLocated(slots: Slots, loc: map<nat, Location>, n: nat, loc': map<nat, Location>)
    requires n < SLOTS && Located(slots, loc)
    requires loc' == map s | s in loc && loc[s].slot != n :: loc[s]
    ensures Located(slots[n := []], loc')
    ensures loc'.Keys == loc.Keys - Serials(slots[n])
    ensures Serials(slots[n]) <= loc.Keys && Distinct(slots[n])
  {
    forall s | s in loc && loc[s].slot == n
      ensures s in Serials(slots[n])
    {
      assert slots[n][loc[s].pos].serial == s;
    }
  }

  lemma SlotIsDistinct(slots: Slots, loc: map<nat, Location>, n: nat)
    requires n < SLOTS && Located(slots, loc)
    ensures Distinct(slots[n])
  {
  }

  lemma LinkKeepsLocated(slots: Slots, loc: map<nat, Location>, n: nat, node: TimerNode)
    requires n < SLOTS && Located(slots, loc) && node.serial !in loc
    ensures Located(slots[n := slots[n] + [node]], loc[node.serial := Location(n, |slots[n]|)])
  {
  }

  /** The nodes that are gone were due and not stuck: their callbacks ran, each when it was due,
      or they were cancelled before. */
  ghost predicate GoneAgrees(gone: set<nat>, cancelled: set<nat>, ran: set<nat>, born: seq<Birth>, now: nat) {
    && ran == gone - cancelled
    && (forall s :: s in cancelled ==> s < |born|)
    && (forall s :: s in gone ==> s < |born| && !born[s].Stuck() && born[s].Due() <= now)
  }

  /** The log holds each fired timer once, at its deadline, and no stuck timer at all. */
  ghost predicate LogAgrees(fired: seq<Firing>, firedAt: map<nat, nat>, born: seq<Birth>, now: nat) {
    && (forall k :: 0 <= k < |fired| ==>
          && fired[k].serial in firedAt && firedAt[fired[k].serial] == k
          && fired[k].serial < |born|
          && fired[k].tick == born[fired[k].serial].Due() <= now
          && fired[k].id == born[fired[k].serial].id && !born[fired[k].serial].Stuck())
    && (forall s :: s in firedAt ==> firedAt[s] < |fired| && fired[firedAt[s]].serial == s)
  }

  /** Every timer ever added is linked, in flight between two lists, or gone. */
  ghost predicate Partition(count: nat, linked: set<nat>, flight: set<nat>, done: set<nat>) {
    && (forall s: nat :: s < count <==> s in linked || s in flight || s in done)
    && linked !! flight && linked !! done && flight !! done
  }

  lemma PartitionDeterminesLinked(count: nat, l1: set<nat>, l2: set<nat>, flight: set<nat>, done: set<nat>)
    requires Partition(count, l1, flight, done) && Partition(count, l2, flight, done)
    ensures l1 == l2
  {
    forall s | s in l1 ensures s in l2 {}
    forall s | s in l2 ensures s in l1 {}
  }

  lemma LandingKeepsPartition(count: nat, linked: set<nat>, flight: set<nat>, done: set<nat>, s: nat)
    requires Partition(count, linked, flight, done) && s in flight
    ensures s !in linked && Partition(count, linked + {s}, flight - {s}, done)
  {
  }

  ghost predicate BirthsInRange(born: seq<Birth>, now: nat) {
    forall s :: 0 <= s < |born| ==> IsInt32(born[s].delay) && born[s].at <= now
  }

  ghost predicate NodeOk(node: TimerNode, n: nat, born: seq<Birth>, now: nat, lo: nat, cascading: bool)
    requires n < SLOTS
  {
    && node.serial < |born|
    && var b := born[node.serial];
    && node.expire == b.Due() % WORD && node.id == b.id
    && (if cascading then Advanced(now, b.Due(), b.Stuck(), LevelOf(n), IndexOf(n))
        else Placed(now, lo, b.Due(), b.Stuck(), LevelOf(n), IndexOf(n)))
  }

  ghost predicate NodesOk(slots: Slots, born: seq<Birth>, now: nat, lo: nat, cascading: bool) {
    forall n, p :: 0 <= n < SLOTS && 0 <= p < |slots[n]| ==> NodeOk(slots[n][p], n, born, now, lo, cascading)
  }

  lemma LinkKeepsNodes(slots: Slots, born: seq<Birth>, now: nat, lo: nat, n: nat, node: TimerNode)
    requires n < SLOTS && NodesOk(slots, born, now, lo, false)
    requires NodeOk(node, n, born, now, lo, false)
    ensures NodesOk(slots[n := slots[n] + [node]], born, now, lo, false)
  {
  }

  lemma BirthKeepsNodes(slots: Slots, born: seq<Birth>, now: nat, lo: nat, b: Birth)
    requires NodesOk(slots, born, now, lo, false)
    ensures NodesOk(slots, born + [b], now, lo, false)
  {
    forall n, p | 0 <= n < SLOTS && 0 <= p < |slots[n]|
      ensures NodeOk(slots[n][p], n, born + [b], now, lo, false)
    {
      assert NodeOk(slots[n][p], n, born, now, lo, false);
    }
  }

  /** The slot number a deadline is linked into at tick `now`. */
  function HomeSlot(now: nat, due: nat): (n: nat)
    requires now <= due
    ensures n < SLOTS
  {
    var level := LevelFor(due - now);
    SlotNo(level, due / Window(level) % SlotCount(level))
  }

  /** The same choice as add_node makes it, from 32-bit words only. */
  function WordHomeSlot(time: nat, expire: nat): (n: nat)
    ensures n < SLOTS
  {
    var msec := (expire - time) % WORD;
    var level := LevelFor(msec);
    SlotNo(level, expire / Window(level) % SlotCount(level))
  }

  lemma HomeSlotOfWords(now: nat, due: nat)
    requires now <= due < now + WORD
    ensures WordHomeSlot(now % WORD, due % WORD) == HomeSlot(now, due)
  {
    WrappedDistance(now, due);
    WordSlot(due, LevelFor(due - now));
  }

  lemma HomeSlotIsOk(node: TimerNode, born: seq<Birth>, now: nat, lo: nat)
    requires ReadyToLink(node, born, now, lo)
    ensures NodeOk(node, HomeSlot(now, born[node.serial].Due()), born, now, lo, false)
  {
    AddNodePlaces(now, lo, born[node.serial].Due());
  }

  ghost predicate ReadyToLink(node: TimerNode, born: seq<Birth>, now: nat, lo: nat) {
    && node.serial < |born| && now <= lo
    && var b := born[node.serial];
    && node.expire == b.Due() % WORD && node.id == b.id && lo <= b.Due() < now + WORD
    && b.Stuck() == LandsInDeadSlot(now, b.Due())
  }

  lemma NewNodeIsReady(node: TimerNode, born: seq<Birth>, now: nat, lo: nat, b: Birth)
    requires b.at == now && 0 < b.delay && IsInt32(b.delay) && now <= lo <= now + 1
    requires node.serial == |born| && node.expire == (b.delay + now % WORD) % WORD && node.id == b.id
    ensures ReadyToLink(node, born + [b], now, lo)
  {
    DivAdd(now / WORD, b.delay + now % WORD, WORD);
  }

  /** A new timer is never linked into the near slot being dispatched. */
  lemma NewNodeMissesCurrentSlot(now: nat, due: nat)
    requires now < due < now + WORD
    ensures HomeSlot(now, due) != now % TIME_NEAR
  {
  }

  lemma BirthKeepsLog(fired: seq<Firing>, firedAt: map<nat, nat>, born: seq<Birth>, now: nat, b: Birth)
    requires LogAgrees(fired, firedAt, born, now)
    ensures LogAgrees(fired, firedAt, born + [b], now)
  {
  }

  lemma FiringKeepsLog(fired: seq<Firing>, firedAt: map<nat, nat>, born: seq<Birth>, now: nat, node: TimerNode)
    requires LogAgrees(fired, firedAt, born, now)
    requires IsDue(node, born, now) && node.serial !in firedAt
    ensures LogAgrees(fired + [Firing(node.serial, now, node.id)], firedAt[node.serial := |fired|], born, now)
  {
  }

  /** A node in flight that fires is gone, and everything else stays what it was. */
  lemma FiringKeepsGone(gone: set<nat>, cancelled: set<nat>, firedAt: map<nat, nat>, born: seq<Birth>, now: nat,
                        linked: set<nat>, flight: set<nat>, node: TimerNode, k: nat)
    requires GoneAgrees(gone, cancelled, firedAt.Keys, born, now) && Partition(|born|, linked, flight, gone)
    requires node.serial in flight && node.serial !in cancelled && IsDue(node, born, now)
    ensures node.serial !in firedAt
    ensures GoneAgrees(gone + {node.serial}, cancelled, firedAt[node.serial := k].Keys, born, now)
    ensures Partition(|born|, linked, flight - {node.serial}, gone + {node.serial})
  {
  }

  lemma SerialsTail(nodes: seq<TimerNode>)
    requires nodes != [] && Distinct(nodes)
    ensures Serials(nodes) - {nodes[0].serial} == Serials(nodes[1..])
    ensures nodes[0].serial in Serials(nodes) && Distinct(nodes[1..])
  {
    forall s | s in Serials(nodes) && s != nodes[0].serial
      ensures s in Serials(nodes[1..])
    {
      var k :| 0 <= k < |nodes| && nodes[k].serial == s;
      assert nodes[1..][k - 1].serial == s;
    }
  }

  ghost predicate AllReady(nodes: seq<TimerNode>, born: seq<Birth>, now: nat) {
    forall p :: 0 <= p < |nodes| ==> ReadyToLink(nodes[p], born, now, now)
  }

  lemma CascadedNodeIsReady(node: TimerNode, born: seq<Birth>, now: nat, level: int, idx: int)
    requires Cascades(now, level, idx) && 0 <= idx < TIME_LEVEL
    requires NodeOk(node, SlotNo(level, idx), born, now, now, true)
    ensures ReadyToLink(node, born, now, now)
  {
    CascadeLandsLive(now, born[node.serial].Due(), level);
  }

  /** Emptying the slot whose window begins leaves every other node in place. */
  lemma EmptyingSettles(slots: Slots, born: seq<Birth>, now: nat, level: int, idx: int)
    requires Cascades(now, level, idx) && 0 <= idx < TIME_LEVEL
    requires NodesOk(slots, born, now, now, true)
    ensures NodesOk(slots[SlotNo(level, idx) := []], born, now, now, false)
    ensures AllReady(slots[SlotNo(level, idx)], born, now)
  {
    var e := SlotNo(level, idx);
    forall p | 0 <= p < |slots[e]|
      ensures ReadyToLink(slots[e][p], born, now, now)
    {
      CascadedNodeIsReady(slots[e][p], born, now, level, idx);
    }
    forall n, p | 0 <= n < SLOTS && n != e && 0 <= p < |slots[n]|
      ensures NodeOk(slots[n][p], n, born, now, now, false)
    {
      SettledElsewhere(slots[n][p], n, born, now, level, idx);
    }
  }

  lemma SettledElsewhere(node: TimerNode, n: nat, born: seq<Birth>, now: nat, level: int, idx: int)
    requires n < SLOTS && Cascades(now, level, idx) && 0 <= idx < TIME_LEVEL && n != SlotNo(level, idx)
    requires NodeOk(node, n, born, now, now, true)
    ensures NodeOk(node, n, born, now, now, false)
  {
    if Cascades(now, LevelOf(n), IndexOf(n)) {
      CascadeUnique(now, LevelOf(n), IndexOf(n), level, idx);
    }
  }

  lemma TickNodes(slots: Slots, born: seq<Birth>, now: nat)
    requires NodesOk(slots, born, now, now + 1, false)
    ensures NodesOk(slots, born, now + 1, now + 1, true)
  {
    forall n, p | 0 <= n < SLOTS && 0 <= p < |slots[n]|
      ensures NodeOk(slots[n][p], n, born, now + 1, now + 1, true)
    {
      TickNode(slots[n][p], n, born, now);
    }
  }

  lemma TickNode(node: TimerNode, n: nat, born: seq<Birth>, now: nat)
    requires n < SLOTS && NodeOk(node, n, born, now, now + 1, false)
    ensures NodeOk(node, n, born, now + 1, now + 1, true)
  {
    var b := born[node.serial];
    AdvanceClock(now, b.Due(), b.Stuck(), LevelOf(n), IndexOf(n));
  }

  // ---------------------------------------------------------------- the search in timer_shift

  /** The indices below level i are all zero, so the search has moved on to level i. */
  ghost predicate LowerIndicesZero(now: nat, i: int)
    requires 0 <= i <= 3
  {
    forall l :: 0 <= l < i ==> now / Window(l) % TIME_LEVEL == 0
  }

  lemma WordWindow(now: nat, i: int)
    requires 0 <= i <= 3
    ensures now % WORD % Window(i) == now % Window(i)
  {
    var q, c := now / WORD, WORD / Window(i);
    assert now == (q * c) * Window(i) + now % WORD;
    DivAdd(q * c, now % WORD, Window(i));
  }

  /** The index read from the word is the one the invariant talks about. */
  lemma ShiftFindsCascade(now: nat, i: int)
    requires 0 <= i <= 3
    requires now % WORD % Window(i) == 0 && now % WORD / Window(i) % TIME_LEVEL != 0
    ensures Cascades(now, i, now % WORD / Window(i) % TIME_LEVEL)
  {
    WordWindow(now, i);
    WordSlot(now, i);
  }

  lemma ShiftGoesUp(now: nat, i: int)
    requires 0 <= i <= 3 && LowerIndicesZero(now, i) && now % WORD != 0
    requires now % WORD % Window(i) == 0 && now % WORD / Window(i) % TIME_LEVEL == 0
    ensures i < 3 && LowerIndicesZero(now, i + 1)
  {
    WordSlot(now, i);
  }

  lemma WrapCascades(now: nat)
    requires now % WORD == 0
    ensures Cascades(now, 3, 0)
  {
    WordWindow(now, 3);
    WordSlot(now, 3);
  }

  lemma WindowsNest(now: nat, i: int, level: int)
    requires 0 <= i <= level <= 3 && now % Window(level) == 0
    ensures now % Window(i) == 0
  {
    var k := now / Window(level);
    if i < level {
      var c := Window(level - 1) / Window(i);
      assert now == (k * c * TIME_LEVEL) * Window(i);
      DivAdd(k * c * TIME_LEVEL, 0, Window(i));
    }
  }

  lemma ShiftFindsNothing(now: nat, i: int)
    requires 0 <= i <= 3 && LowerIndicesZero(now, i) && now % WORD != 0
    requires now % WORD % Window(i) != 0
    ensures Quiet(now)
  {
    WordWindow(now, i);
    forall level, idx | Cascades(now, level, idx)
      ensures false
    {
      if i <= level {
        WindowsNest(now, i, level);
      }
    }
  }

  /** Nothing cascades at a tick where no level's window begins with a live index. */
  ghost predicate Quiet(now: nat) {
    forall level, idx :: !Cascades(now, level, idx)
  }

  lemma QuietSettles(slots: Slots, born: seq<Birth>, now: nat)
    requires NodesOk(slots, born, now, now, true) && Quiet(now)
    ensures NodesOk(slots, born, now, now, false)
  {
    forall n, p | 0 <= n < SLOTS && 0 <= p < |slots[n]|
      ensures NodeOk(slots[n][p], n, born, now, now, false)
    {
      assert NodeOk(slots[n][p], n, born, now, now, true);
      assert !Cascades(now, LevelOf(n), IndexOf(n));
    }
  }

  lemma WordIncrement(now: nat)
    ensures (now % WORD + 1) % WORD == (now + 1) % WORD
  {
  }

  // ---------------------------------------------------------------- dispatching

  /** Everything a run has produced: the additions asked for, the callbacks run, the nodes that
      are gone and those whose cancel flag is set.  And the account of it: the calls in the order
      in which they were served, where among them each addition stands, and what calls each
      callback makes. */
  datatype History = History(born: seq<Birth>, fired: seq<Firing>, gone: set<nat>, cancelled: set<nat>,
                             log: seq<Cause>, place: seq<nat>, asked: seq<seq<Call>>)

  const NOTHING := History([], [], {}, {}, [], [], [])

  function Born(h: History, b: Birth, from: Cause): History {
    h.(born := h.born + [b], log := h.log + [from], place := h.place + [|h.log|])
  }

  /** A node leaves the wheel; its callback runs, and makes these calls, unless it is cancelled. */
  function Left(h: History, serial: nat, id: int, calls: seq<Call>, now: nat): History {
    if serial in h.cancelled then h.(gone := h.gone + {serial})
    else h.(gone := h.gone + {serial}, fired := h.fired + [Firing(serial, now, id)], asked := h.asked + [calls])
  }

  function Flagged(h: History, serial: nat, from: Cause): History {
    h.(log := h.log + [from],
       cancelled := h.cancelled + if serial < |h.born| && serial !in h.gone then {serial} else {})
  }

  /** One call: a timer with a positive delay is pending, the callback of any other runs at once;
      cancelling a node that is not gone sets its flag. */
  function Asked(h: History, call: Call, from: Cause, now: nat): History
    decreases call
  {
    match call
    case Add(delay, id, nested) =>
      var born := Born(h, Birth(now, delay, id), from);
      if delay > 0 then born
      else AllAsked(Left(born, |h.born|, id, nested, now), nested, |h.fired|, now)
    case Cancel(serial) => Flagged(h, serial, from)
  }

  /** The calls of the k-th callback. */
  function AllAsked(h: History, calls: seq<Call>, k: nat, now: nat): History
    decreases calls
  {
    if calls == [] then h
    else
      var n := |calls| - 1;
      Asked(AllAsked(h, calls[..n], k, now), calls[n], FromCallback(k, n), now)
  }

  /** The simple rule for one tick: the due nodes leave in turn, and after each callback comes
      what it asks for. */
  function Dispatched(h: History, due: seq<TimerNode>, now: nat, callbacks: nat -> seq<Call>): History
    decreases |due|
  {
    if due == [] then h
    else Dispatched(HeadDispatched(h, due[0], now, callbacks), due[1..], now, callbacks)
  }

  function HeadDispatched(h: History, node: TimerNode, now: nat, callbacks: nat -> seq<Call>): History {
    var k := |h.fired|;
    var left := Left(h, node.serial, node.id, callbacks(k), now);
    if node.serial in h.cancelled then left else AllAsked(left, callbacks(k), k, now)
  }

  /** Exactly the timers in `born` that are due at `now` and not stuck, each once. */
  ghost predicate ExactlyDue(due: seq<TimerNode>, born: seq<Birth>, now: nat) {
    && Distinct(due) && AllDue(due, born, now)
    && forall s :: 0 <= s < |born| && !born[s].Stuck() && born[s].Due() == now ==> s in Serials(due)
  }

  /** The history grew, and everything new happened at this tick. */
  ghost predicate LogGrew(before: seq<Firing>, after: seq<Firing>, now: nat) {
    before <= after && forall k :: |before| <= k < |after| ==> after[k].tick == now
  }

  ghost predicate BornGrew(before: seq<Birth>, after: seq<Birth>, now: nat) {
    before <= after && forall s :: |before| <= s < |after| ==> after[s].at == now
  }

  ghost predicate IsDue(node: TimerNode, born: seq<Birth>, now: nat) {
    && node.serial < |born| && node.id == born[node.serial].id
    && born[node.serial].Due() == now && !born[node.serial].Stuck()
  }

  ghost predicate AllDue(nodes: seq<TimerNode>, born: seq<Birth>, now: nat) {
    forall p :: 0 <= p < |nodes| ==> IsDue(nodes[p], born, now)
  }

  lemma CurrentNodeIsDue(node: TimerNode, born: seq<Birth>, now: nat)
    requires NodeOk(node, now % TIME_NEAR, born, now, now, false)
    ensures IsDue(node, born, now)
  {
  }

  /** Everything in the near slot of the current tick is due. */
  lemma CurrentSlotIsDue(slots: Slots, born: seq<Birth>, now: nat)
    requires NodesOk(slots, born, now, now, false)
    ensures AllDue(slots[now % TIME_NEAR], born, now)
  {
    var n := now % TIME_NEAR;
    forall p | 0 <= p < |slots[n]|
      ensures IsDue(slots[n][p], born, now)
    {
      CurrentNodeIsDue(slots[n][p], born, now);
    }
  }

  lemma LaterIsEnough(slots: Slots, born: seq<Birth>, now: nat)
    requires NodesOk(slots, born, now, now + 1, false)
    ensures NodesOk(slots, born, now, now, false)
  {
    forall n, p | 0 <= n < SLOTS && 0 <= p < |slots[n]|
      ensures NodeOk(slots[n][p], n, born, now, now, false)
    {
      assert NodeOk(slots[n][p], n, born, now, now + 1, false);
    }
  }

  /** Once the near slot of the current tick is empty, nothing linked is due any more. */
  lemma EmptySlotMovesOn(slots: Slots, born: seq<Birth>, now: nat)
    requires NodesOk(slots, born, now, now, false) && slots[now % TIME_NEAR] == []
    ensures NodesOk(slots, born, now, now + 1, false)
  {
    forall n, p | 0 <= n < SLOTS && 0 <= p < |slots[n]|
      ensures NodeOk(slots[n][p], n, born, now, now + 1, false)
    {
      assert NodeOk(slots[n][p], n, born, now, now, false);
    }
  }

  ghost predicate FiredOnceAt(fired: seq<Firing>, s: nat, tick: nat, id: int) {
    exists k :: 0 <= k < |fired| && fired[k] == Firing(s, tick, id)
      && forall j :: 0 <= j < |fired| && fired[j].serial == s ==> j == k
  }

  ghost predicate NeverFired(fired: seq<Firing>, s: nat) {
    forall j :: 0 <= j < |fired| ==> fired[j].serial != s
  }

  lemma CountLog(fired: seq<Firing>, firedAt: map<nat, nat>)
    requires forall k :: 0 <= k < |fired| ==> fired[k].serial in firedAt && firedAt[fired[k].serial] == k
    requires forall s :: s in firedAt ==> firedAt[s] < |fired| && fired[firedAt[s]].serial == s
    ensures |firedAt.Keys| == |fired|
    decreases |fired|
  {
    if fired != [] {
      var n := |fired| - 1;
      var s := fired[n].serial;
      var rest := map x | x in firedAt && x != s :: firedAt[x];
      CountLog(fired[..n], rest);
      assert firedAt.Keys == rest.Keys + {s};
    } else {
      assert firedAt.Keys == {};
    }
  }

  lemma CountPartition(count: nat, a: set<nat>, b: set<nat>)
    requires a !! b && forall s: nat :: s < count <==> s in a || s in b
    ensures count == |a| + |b|
  {
    if count == 0 {
      assert a == {} && b == {};
    } else {
      var s := count - 1;
      if s in a {
        CountPartition(s, a - {s}, b);
      } else {
        CountPartition(s, a, b - {s});
      }
    }
  }

  lemma CountGone(gone: set<nat>, cancelled: set<nat>)
    ensures |gone| == |gone - cancelled| + |gone * cancelled|
  {
    assert gone == (gone - cancelled) + gone * cancelled;
  }

  /** Between calls the near slot of the current tick is empty. */
  lemma FilledSlotIsNotCurrent(slots: Slots, born: seq<Birth>, now: nat, n: nat)
    requires NodesOk(slots, born, now, now + 1, false) && n < SLOTS
    ensures slots[n] != [] ==> n != now % TIME_NEAR
  {
    if slots[n] != [] {
      assert NodeOk(slots[n][0], n, born, now, now + 1, false);
    }
  }

  /** A timer has fired once, at its deadline, when that has come and it is neither stuck nor
      cancelled; any other has never fired. */
  ghost predicate PunctualAt(b: Birth, fired: seq<Firing>, cancelled: bool, s: nat, now: nat) {
    if !b.Stuck() && b.Due() <= now && !cancelled then FiredOnceAt(fired, s, b.Due(), b.id)
    else NeverFired(fired, s)
  }

  ghost predicate Punctual(born: seq<Birth>, fired: seq<Firing>, cancelled: set<nat>, now: nat) {
    forall s :: 0 <= s < |born| ==> PunctualAt(born[s], fired, s in cancelled, s, now)
  }

  /** Of the timers in `born`, exactly the live ones due at `now` fired since `before`. */
  ghost predicate FiresWhatIsDue(before: seq<Firing>, after: seq<Firing>, born: seq<Birth>,
                                 cancelled: set<nat>, now: nat) {
    forall s :: 0 <= s < |born| ==>
      ((exists k :: |before| <= k < |after| && after[k].serial == s)
       <==> !born[s].Stuck() && born[s].Due() == now && s !in cancelled)
  }

  /** Among the firings of the last tick, a timer appears just when it is due, not stuck and not
      cancelled. */
  lemma FiredThisTick(before: seq<Firing>, after: seq<Firing>, b: Birth, cancelled: bool, now: nat, s: nat)
    requires LogGrew(before, after, now) && PunctualAt(b, after, cancelled, s, now)
    requires forall k :: 0 <= k < |before| ==> before[k].tick < now
    ensures (exists k :: |before| <= k < |after| && after[k].serial == s)
      <==> !b.Stuck() && b.Due() == now && !cancelled
  {
    if !b.Stuck() && b.Due() == now && !cancelled {
      var k :| 0 <= k < |after| && after[k] == Firing(s, now, b.id);
      assert k >= |before|;
    }
  }

  /** What is due is linked in the near slot of the current tick. */
  lemma DueIsInSlot(slots: Slots, loc: map<nat, Location>, born: seq<Birth>, now: nat, s: nat)
    requires NodesOk(slots, born, now, now, false) && Located(slots, loc) && s in loc && s < |born|
    requires !born[s].Stuck() && born[s].Due() == now
    ensures s in Serials(slots[now % TIME_NEAR])
  {
    var l := loc[s];
    assert NodeOk(slots[l.slot][l.pos], l.slot, born, now, now, false);
    assert slots[now % TIME_NEAR][l.pos].serial == s;
  }

  /** A linked node is stuck or still ahead of the clock. */
  lemma LinkedIsNotDue(slots: Slots, loc: map<nat, Location>, born: seq<Birth>, now: nat, s: nat)
    requires NodesOk(slots, born, now, now + 1, false) && Located(slots, loc) && s in loc
    ensures s < |born| && (born[s].Stuck() || now < born[s].Due())
  {
    var l := loc[s];
    assert NodeOk(slots[l.slot][l.pos], l.slot, born, now, now + 1, false);
    if !born[s].Stuck() && LevelOf(l.slot) >= 0 {
      QuotientOrder(now, born[s].Due(), Window(LevelOf(l.slot)));
    }
  }

  lemma QuotientOrder(x: nat, y: nat, w: nat)
    requires w > 0 && x / w < y / w
    ensures x < y
  {
    MulAtLeast(y / w - x / w, w);
    assert (y / w - x / w) * w == y / w * w - x / w * w;
  }

  class Wheel {
    const slots: array<seq<TimerNode>>   // near[256] followed by t[4][64]
    var time: nat                        // T->time, a 32-bit word
    var fired: seq<Firing>               // the callbacks run so far, in order
    var born: seq<Birth>                 // every add_timer so far; a node's serial indexes it
    var cancelled: set<nat>              // the serials of the nodes whose cancel flag is set
    var gone: set<nat>                   // the serials of the nodes that were freed
    var now: nat                         // ticks since creation; no code branches on it
    ghost var loc: map<nat, Location>    // where each linked serial sits
    ghost var firedAt: map<nat, nat>     // the inverse of `fired`
    ghost var log: seq<Cause>            // the calls served so far, in order
    ghost var place: seq<nat>            // where in the log each addition stands
    ghost var asked: seq<seq<Call>>      // the calls that each callback makes

    ghost predicate Inv(lo: nat, flight: set<nat>, cascading: bool)
      reads this, slots
    {
      && slots.Length == SLOTS
      && time == now % WORD
      && Located(slots[..], loc)
      && LogAgrees(fired, firedAt, born, now)
      && GoneAgrees(gone, cancelled, firedAt.Keys, born, now)
      && Partition(|born|, loc.Keys, flight, gone)
      && BirthsInRange(born, now)
      && NodesOk(slots[..], born, now, lo, cascading)
    }

    /** The state between calls. */
    ghost predicate Valid()
      reads this, slots
    {
      Inv(now + 1, {}, false)
    }

    ghost function Past(): History
      reads this
    {
      History(born, fired, gone, cancelled, log, place, asked)
    }

    constructor ()
      ensures Valid()
      ensures fresh(slots)
      ensures now == 0 && Past() == NOTHING
    {
      slots := new seq<TimerNode>[SLOTS](_ => []);
      time := 0;
      fired := [];
      born := [];
      cancelled := {};
      now := 0;
      loc := map[];
      firedAt := map[];
      gone := {};
      log, place, asked := [], [], [];
    }

    method LinkClear(n: nat) returns (current: seq<TimerNode>)
      requires slots.Length == SLOTS && n < SLOTS && Located(slots[..], loc)
      modifies slots, `loc
      ensures current == old(slots[n])
      ensures slots[..] == old(slots[..])[n := []]
      ensures Located(slots[..], loc)
      ensures loc.Keys == old(loc).Keys - Serials(current)
      ensures Serials(current) <= old(loc).Keys && Distinct(current)
    {
      ghost var loc' := map s | s in loc && loc[s].slot != n :: loc[s];
      ClearKeepsLocated(slots[..], loc, n, loc');
      current := slots[n];
      slots[n] := [];
      loc := loc';
    }

    method Link(n: nat, node: TimerNode)
      requires slots.Length == SLOTS && n < SLOTS && Located(slots[..], loc)
      requires node.serial !in loc
      modifies slots, `loc
      ensures slots[..] == old(slots[..])[n := old(slots[n]) + [node]]
      ensures Located(slots[..], loc)
      ensures loc.Keys == old(loc).Keys + {node.serial}
    {
      LinkKeepsLocated(slots[..], loc, n, node);
      loc := loc[node.serial := Location(n, |slots[n]|)];
      slots[n] := slots[n] + [node];
    }

    /** Link a node that is in flight into the slot chosen by its distance to the deadline. */
    method AddNode(node: TimerNode, ghost lo: nat, ghost flight: set<nat>)
      requires Inv(lo, flight, false)
      requires node.serial in flight && ReadyToLink(node, born, now, lo)
      modifies slots, `loc
      ensures Inv(lo, flight - {node.serial}, false)
      ensures
        var n := HomeSlot(now, born[node.serial].Due());
        slots[..] == old(slots[..])[n := old(slots[n]) + [node]]
      ensures loc.Keys == old(loc).Keys + {node.serial}
    {
      HomeSlotOfWords(now, born[node.serial].Due());
      HomeSlotIsOk(node, born, now, lo);
      var n := WordHomeSlot(time, node.expire);
      LinkKeepsNodes(slots[..], born, now, lo, n, node);
      LandingKeepsPartition(|born|, loc.Keys, flight, gone, node.serial);
      Link(n, node);
    }

    /** A fresh node belongs to its creator until it is linked or run; its flag is not set. */
    method Register(delay: int, id: int, ghost from: Cause, ghost lo: nat, ghost flight: set<nat>)
      requires Inv(lo, flight, false) && IsInt32(delay)
      modifies `born, `log, `place
      ensures Inv(lo, flight + {|old(born)|}, false)
      ensures |old(born)| !in flight && |old(born)| !in gone && |old(born)| !in cancelled
      ensures Past() == Born(old(Past()), Birth(now, delay, id), from)
    {
      BirthKeepsNodes(slots[..], born, now, lo, Birth(now, delay, id));
      BirthKeepsLog(fired, firedAt, born, now, Birth(now, delay, id));
      born := born + [Birth(now, delay, id)];
      log, place := log + [from], place + [|log|];
    }

    /** Run the callback of a node that is in flight and due, and free the node. */
    method RunCallback(node: TimerNode, ghost calls: seq<Call>, ghost lo: nat, ghost flight: set<nat>)
      requires Inv(lo, flight, false) && node.serial in flight && node.serial !in cancelled
      requires IsDue(node, born, now)
      modifies `fired, `firedAt, `gone, `asked
      ensures Inv(lo, flight - {node.serial}, false)
      ensures Past() == Left(old(Past()), node.serial, node.id, calls, now)
    {
      ghost var at' := firedAt[node.serial := |fired|];
      var fired', gone' := fired + [Firing(node.serial, now, node.id)], gone + {node.serial};
      FiringKeepsGone(gone, cancelled, firedAt, born, now, loc.Keys, flight, node, |fired|);
      FiringKeepsLog(fired, firedAt, born, now, node);
      assert slots.Length == SLOTS && time == now % WORD && Located(slots[..], loc)
        && BirthsInRange(born, now) && NodesOk(slots[..], born, now, lo, false);
      firedAt, fired, gone, asked := at', fired', gone', asked + [calls];
    }

    /** Free a node that is in flight and due, without running its callback. */
    method Drop(node: TimerNode, ghost lo: nat, ghost flight: set<nat>)
      requires Inv(lo, flight, false) && node.serial in flight && node.serial in cancelled
      requires IsDue(node, born, now)
      modifies `gone
      ensures Inv(lo, flight - {node.serial}, false)
      ensures Past() == old(Past()).(gone := old(gone) + {node.serial})
    {
      gone := gone + {node.serial};
    }

    /** Set the cancel flag of a node that has not been freed. */
    method DelTimer(serial: nat, ghost from: Cause, ghost lo: nat, ghost flight: set<nat>)
      requires Inv(lo, flight, false)
      modifies `cancelled, `log
      ensures Inv(lo, flight, false) && Past() == Flagged(old(Past()), serial, from)
      ensures serial in cancelled <==> serial in old(cancelled) || (serial < |born| && serial !in gone)
      ensures forall s :: s != serial ==> (s in cancelled <==> s in old(cancelled))
    {
      log := log + [from];
      if serial < |born| && serial !in gone {
        cancelled := cancelled + {serial};
      }
    }

    /** Ask for a callback after `delay` ticks; a non-positive delay runs it here and now. */
    method AddTimer(delay: Int32, id: int, nested: seq<Call>, ghost from: Cause, ghost lo: nat, ghost flight: set<nat>)
      returns (linked: bool)
      requires Inv(lo, flight, false) && now <= lo <= now + 1
      modifies slots, this
      ensures Inv(lo, flight, false) && now == old(now)
      ensures Past() == Asked(old(Past()), Add(delay, id, nested), from, now)
      ensures linked == (delay > 0)
      ensures linked ==> loc.Keys == old(loc).Keys + {|old(born)|}
      ensures !linked && nested == [] ==> loc == old(loc)
      ensures LogGrew(old(fired), fired, now) && BornGrew(old(born), born, now)
      ensures slots[now % TIME_NEAR] == old(slots[now % TIME_NEAR])
      decreases nested, 2
    {
      var node := TimerNode((delay + time) % WORD, id, |born|);
      Register(delay, id, from, lo, flight);
      assert flight + {node.serial} - {node.serial} == flight;
      if delay <= 0 {
        Run(node, nested, lo, flight + {node.serial});
      } else {
        NewNodeIsReady(node, old(born), now, lo, Birth(now, delay, id));
        NewNodeMissesCurrentSlot(now, now + delay);
        AddElsewhere(node, lo, flight + {node.serial});
      }
      return delay > 0;
    }

    /** AddNode for a node that does not go into the slot of the current tick. */
    method AddElsewhere(node: TimerNode, ghost lo: nat, ghost flight: set<nat>)
      requires Inv(lo, flight, false)
      requires node.serial in flight && ReadyToLink(node, born, now, lo)
      requires HomeSlot(now, born[node.serial].Due()) != now % TIME_NEAR
      modifies slots, `loc
      ensures Inv(lo, flight - {node.serial}, false)
      ensures loc.Keys == old(loc).Keys + {node.serial}
      ensures slots[now % TIME_NEAR] == old(slots[now % TIME_NEAR])
    {
      ghost var was, here := slots[..], now % TIME_NEAR;
      AddNode(node, lo, flight);
      assert slots[..][here] == was[here];
    }

    /** Run the callback of a node that is in flight and due, and serve the calls it makes. */
    method Run(node: TimerNode, calls: seq<Call>, ghost lo: nat, ghost flight: set<nat>)
      requires Inv(lo, flight, false) && now <= lo <= now + 1
      requires node.serial in flight && node.serial !in cancelled
      requires IsDue(node, born, now)
      modifies slots, this
      ensures Inv(lo, flight - {node.serial}, false) && now == old(now)
      ensures Past() == AllAsked(Left(old(Past()), node.serial, node.id, calls, now), calls, |old(fired)|, now)
      ensures calls == [] ==> loc == old(loc)
      ensures LogGrew(old(fired), fired, now) && BornGrew(old(born), born, now)
      ensures slots[now % TIME_NEAR] == old(slots[now % TIME_NEAR])
      decreases calls, 1
    {
      ghost var k := |fired|;
      RunCallback(node, calls, lo, flight);
      RunCalls(calls, k, lo, flight - {node.serial});
    }

    /** One call of add_timer or del_timer. */
    method Serve(call: Call, ghost from: Cause, ghost lo: nat, ghost flight: set<nat>)
      requires Inv(lo, flight, false) && now <= lo <= now + 1
      modifies slots, this
      ensures Inv(lo, flight, false) && now == old(now)
      ensures Past() == Asked(old(Past()), call, from, now)
      ensures LogGrew(old(fired), fired, now) && BornGrew(old(born), born, now)
      ensures slots[now % TIME_NEAR] == old(slots[now % TIME_NEAR])
      decreases call
    {
      match call {
        case Add(delay, id, nested) =>
          var _ := AddTimer(delay, id, nested, from, lo, flight);
        case Cancel(serial) =>
          DelTimer(serial, from, lo, flight);
      }
    }

    /** The calls that the k-th callback makes while it runs. */
    method RunCalls(calls: seq<Call>, ghost k: nat, ghost lo: nat, ghost flight: set<nat>)
      requires Inv(lo, flight, false) && now <= lo <= now + 1
      modifies slots, this
      ensures Inv(lo, flight, false) && now == old(now)
      ensures Past() == AllAsked(old(Past()), calls, k, now)
      ensures calls == [] ==> loc == old(loc)
      ensures LogGrew(old(fired), fired, now) && BornGrew(old(born), born, now)
      ensures slots[now % TIME_NEAR] == old(slots[now % TIME_NEAR])
      decreases calls, 0
    {
      for j := 0 to |calls|
        invariant Inv(lo, flight, false) && now == old(now)
        invariant Past() == AllAsked(old(Past()), calls[..j], k, now)
        invariant j == 0 ==> loc == old(loc)
        invariant LogGrew(old(fired), fired, now) && BornGrew(old(born), born, now)
        invariant slots[now % TIME_NEAR] == old(slots[now % TIME_NEAR])
      {
        assert calls[..j + 1][..j] == calls[..j];
        Serve(calls[j], FromCallback(k, j), lo, flight);
      }
      assert calls[..|calls|] == calls;
    }

    /** Take the list out of the slot whose window begins now. */
    method Detach(level: int, idx: int) returns (current: seq<TimerNode>)
      requires Inv(now, {}, true) && Cascades(now, level, idx)
      modifies slots, `loc
      ensures Inv(now, Serials(current), false) && Distinct(current)
      ensures AllReady(current, born, now)
    {
      EmptyingSettles(slots[..], born, now, level, idx);
      current := LinkClear(SlotNo(level, idx));
    }

    method Relink(current: seq<TimerNode>)
      requires current != [] && Distinct(current) && AllReady(current, born, now)
      requires Inv(now, Serials(current), false)
      modifies slots, `loc
      ensures Inv(now, Serials(current[1..]), false)
      ensures Distinct(current[1..]) && AllReady(current[1..], born, now)
    {
      SerialsTail(current);
      AddNode(current[0], now, Serials(current));
    }

    /** Empty the slot whose window begins now and link its nodes again, lower down. */
    method MoveList(level: int, idx: int)
      requires Inv(now, {}, true) && Cascades(now, level, idx)
      modifies slots, `loc
      ensures Inv(now, {}, false)
      ensures loc.Keys == old(loc).Keys
    {
      var current := Detach(level, idx);
      while current != []
        invariant Distinct(current)
        invariant Inv(now, Serials(current), false)
        invariant AllReady(current, born, now)
        decreases |current|
      {
        var temp := current[1..];
        Relink(current);
        current := temp;
      }
      PartitionDeterminesLinked(|born|, old(loc).Keys, loc.Keys, {}, gone);
    }

    method Tick()
      requires Valid()
      modifies `time, `now
      ensures now == old(now) + 1 && Inv(now, {}, true)
    {
      TickNodes(slots[..], born, now);
      WordIncrement(now);
      time := (time + 1) % WORD;
      now := now + 1;
    }

    /** The loop of timer_shift for a clock word that is not zero: the lowest level whose window
        begins with a non-zero index.  The loop never passes level 3. */
    static method SearchLevels(ct: nat, ghost now: nat) returns (i: int, idx: int)
      requires ct == now % WORD && ct != 0
      ensures idx != 0 ==> Cascades(now, i, idx)
      ensures idx == 0 ==> Quiet(now)
    {
      var mask := TIME_NEAR;
      var high := ct / TIME_NEAR;
      i := 0;
      while ct % mask == 0
        invariant 0 <= i <= 3 && mask == Window(i) && high == ct / mask
        invariant LowerIndicesZero(now, i)
        decreases 3 - i
      {
        idx := high % TIME_LEVEL;
        if idx != 0 {
          ShiftFindsCascade(now, i);
          return;
        }
        ShiftGoesUp(now, i);
        mask := mask * TIME_LEVEL;
        high := high / TIME_LEVEL;
        i := i + 1;
      }
      ShiftFindsNothing(now, i);
      idx := 0;
    }

    /** Advance the clock and empty the one slot, if any, whose window begins. */
    method TimerShift()
      requires Valid()
      modifies slots, this
      ensures now == old(now) + 1 && Inv(now, {}, false)
      ensures Past() == old(Past()) && loc.Keys == old(loc).Keys
    {
      Tick();
      if time == 0 {
        WrapCascades(now);
        MoveList(3, 0);
      } else {
        var i, idx := SearchLevels(time, now);
        if idx != 0 {
          MoveList(i, idx);
        } else {
          QuietSettles(slots[..], born, now);
        }
      }
    }

    /** Run the callback at the head of a detached list, unless the node is cancelled.
        `callbacks(k)` is what the k-th callback of the whole run asks of the wheel. */
    method DispatchHead(current: seq<TimerNode>, callbacks: nat -> seq<Call>)
      requires current != [] && Distinct(current)
      requires Inv(now, Serials(current), false) && AllDue(current, born, now)
      modifies slots, this
      ensures Inv(now, Serials(current[1..]), false) && now == old(now)
      ensures AllDue(current[1..], born, now)
      ensures Dispatched(Past(), current[1..], now, callbacks)
           == Dispatched(old(Past()), current, now, callbacks)
      ensures LogGrew(old(fired), fired, now) && BornGrew(old(born), born, now)
      ensures slots[now % TIME_NEAR] == old(slots[now % TIME_NEAR])
    {
      SerialsTail(current);
      if current[0].serial !in cancelled {
        Run(current[0], callbacks(|fired|), now, Serials(current));
      } else {
        Drop(current[0], now, Serials(current));
      }
    }

    /** Run the callbacks of a detached list. */
    method DispatchList(list: seq<TimerNode>, callbacks: nat -> seq<Call>)
      requires list != [] && Distinct(list)
      requires Inv(now, Serials(list), false) && AllDue(list, born, now)
      modifies slots, this
      ensures Inv(now, {}, false) && now == old(now)
      ensures Past() == Dispatched(old(Past()), list, now, callbacks)
      ensures LogGrew(old(fired), fired, now) && BornGrew(old(born), born, now)
      ensures slots[now % TIME_NEAR] == old(slots[now % TIME_NEAR])
    {
      var current := list;
      while current != []
        invariant Distinct(current)
        invariant Inv(now, Serials(current), false) && now == old(now)
        invariant AllDue(current, born, now)
        invariant Dispatched(Past(), current, now, callbacks)
          == Dispatched(old(Past()), list, now, callbacks)
        invariant LogGrew(old(fired), fired, now) && BornGrew(old(born), born, now)
        invariant slots[now % TIME_NEAR] == old(slots[now % TIME_NEAR])
        decreases |current|
      {
        SerialsTail(current);
        DispatchHead(current, callbacks);
        current := current[1..];
      }
    }

    /** One round of timer_execute: detach the near slot of the current tick and dispatch it. */
    method ExecuteRound(idx: nat, callbacks: nat -> seq<Call>)
      requires Inv(now, {}, false) && idx == now % TIME_NEAR && slots[idx] != []
      modifies slots, this
      ensures Inv(now, {}, false) && now == old(now) && slots[idx] == []
      ensures Past() == Dispatched(old(Past()), old(slots[idx]), now, callbacks)
      ensures LogGrew(old(fired), fired, now) && BornGrew(old(born), born, now)
    {
      CurrentSlotIsDue(slots[..], born, now);
      var current := LinkClear(idx);
      DispatchList(current, callbacks);
    }

    /** Empty the near slot of the current tick; one round always suffices. */
    method TimerExecute(callbacks: nat -> seq<Call>) returns (ghost rounds: nat)
      requires Inv(now, {}, false)
      modifies slots, this
      ensures Valid() && now == old(now)
      ensures rounds == if old(slots[now % TIME_NEAR]) == [] then 0 else 1
      ensures Past()
        == Dispatched(old(Past()), old(slots[now % TIME_NEAR]), now, callbacks)
      ensures LogGrew(old(fired), fired, now) && BornGrew(old(born), born, now)
    {
      var idx := time % TIME_NEAR;
      assert idx == now % TIME_NEAR;
      rounds := 0;
      while slots[idx] != []
        invariant Inv(now, {}, false) && now == old(now)
        invariant rounds == 0 ==> slots[idx] == old(slots[idx]) && Past() == old(Past())
        invariant rounds > 0 ==>
          && rounds == 1 && slots[idx] == [] && old(slots[idx]) != []
          && Past() == Dispatched(old(Past()), old(slots[idx]), now, callbacks)
        invariant LogGrew(old(fired), fired, now) && BornGrew(old(born), born, now)
        decreases |slots[idx]|
      {
        ExecuteRound(idx, callbacks);
        rounds := rounds + 1;
      }
      EmptySlotMovesOn(slots[..], born, now);
    }

    /** The whole history, read off a wheel between two calls: a timer has left the wheel if its
        deadline has come and it is not stuck, and has then been fired exactly once, at its
        deadline, unless it was cancelled; otherwise it is still linked.  No other has been fired. */
    lemma OnTime(s: nat)
      requires Valid() && s < |born|
      ensures PunctualAt(born[s], fired, s in cancelled, s, now)
      ensures s in loc <==> born[s].Stuck() || now < born[s].Due()
    {
      if s in loc {
        LinkedIsNotDue(slots[..], loc, born, now, s);
      } else if s !in cancelled {
        assert s in firedAt.Keys;
        assert fired[firedAt[s]] == Firing(s, born[s].Due(), born[s].id);
      }
    }

    lemma AllOnTime()
      requires Valid()
      ensures Punctual(born, fired, cancelled, now)
    {
      forall s | 0 <= s < |born|
        ensures PunctualAt(born[s], fired, s in cancelled, s, now)
      {
        OnTime(s);
      }
    }

    /** No timer is lost or duplicated: each one added is linked, has been fired, or was cancelled
        and has left. */
    lemma Conserved()
      requires Valid()
      ensures |born| == |loc| + |fired| + |gone * cancelled|
    {
      CountLog(fired, firedAt);
      CountPartition(|born|, loc.Keys, gone);
      CountGone(gone, cancelled);
    }

    lemma UpdateFiresWhatIsDue(before: seq<Firing>, count: nat)
      requires Valid() && LogGrew(before, fired, now) && count <= |born|
      requires forall k :: 0 <= k < |before| ==> before[k].tick < now
      ensures FiresWhatIsDue(before, fired, born[..count], cancelled, now)
    {
      forall s | 0 <= s < count
        ensures (exists k :: |before| <= k < |fired| && fired[k].serial == s)
           <==> !born[s].Stuck() && born[s].Due() == now && s !in cancelled
      {
        OnTime(s);
        FiredThisTick(before, fired, born[s], s in cancelled, now, s);
      }
    }

    lemma UpdateFiresOldDue(before: seq<Firing>, bornBefore: seq<Birth>)
      requires Valid() && LogGrew(before, fired, now) && BornGrew(bornBefore, born, now)
      requires forall k :: 0 <= k < |before| ==> before[k].tick < now
      ensures FiresWhatIsDue(before, fired, bornBefore, cancelled, now)
    {
      UpdateFiresWhatIsDue(before, |bornBefore|);
      assert born[..|bornBefore|] == bornBefore;
    }

    /** The list of the tick that has just begun. */
    lemma SlotIsExactlyDue()
      requires Inv(now, {}, false) && forall s :: s in gone ==> born[s].Due() < now
      ensures ExactlyDue(slots[now % TIME_NEAR], born, now)
    {
      CurrentSlotIsDue(slots[..], born, now);
      SlotIsDistinct(slots[..], loc, now % TIME_NEAR);
      forall s | 0 <= s < |born| && !born[s].Stuck() && born[s].Due() == now
        ensures s in Serials(slots[now % TIME_NEAR])
      {
        DueIsInSlot(slots[..], loc, born, now, s);
      }
    }

    /** Dispatch what is due at the tick that has just begun. */
    method ExecuteDue(callbacks: nat -> seq<Call>) returns (ghost due: seq<TimerNode>)
      requires Inv(now, {}, false) && forall s :: s in gone ==> born[s].Due() < now
      modifies slots, this
      ensures Valid() && now == old(now)
      ensures ExactlyDue(due, old(born), now)
      ensures Past() == Dispatched(old(Past()), due, now, callbacks)
      ensures LogGrew(old(fired), fired, now) && BornGrew(old(born), born, now)
    {
      SlotIsExactlyDue();
      due := slots[now % TIME_NEAR];
      var _ := TimerExecute(callbacks);
    }

    /** Between ticks there is nothing to dispatch. */
    method ExecuteNothing(callbacks: nat -> seq<Call>)
      requires Valid()
      modifies slots, this
      ensures Valid() && now == old(now) && Past() == old(Past())
    {
      FilledSlotIsNotCurrent(slots[..], born, now, now % TIME_NEAR);
      LaterIsEnough(slots[..], born, now);
      var _ := TimerExecute(callbacks);
    }

    /** One tick: of the timers pending before it, those due now leave the wheel now and no others. */
    method TimerUpdate(callbacks: nat -> seq<Call>) returns (ghost due: seq<TimerNode>)
      requires Valid()
      modifies slots, this
      ensures Valid() && now == old(now) + 1
      ensures ExactlyDue(due, old(born), now)
      ensures Past() == Dispatched(old(Past()), due, now, callbacks)
      ensures LogGrew(old(fired), fired, now) && BornGrew(old(born), born, now)
      ensures FiresWhatIsDue(old(fired), fired, old(born), cancelled, now)
    {
      ExecuteNothing(callbacks);
      TimerShift();
      due := ExecuteDue(callbacks);
      UpdateFiresOldDue(old(fired), old(born));
    }
  }

  /** What OnTime says, in plain numbers. */
  lemma OnTimeInNumbers(b: Birth, fired: seq<Firing>, cancelled: bool, s: nat, now: nat)
    requires PunctualAt(b, fired, cancelled, s, now)
    ensures
      var due := if b.delay <= 0 then b.at else b.at + b.delay;
      var stuck :=
        || (256 <= b.delay < 16384 && due / 256 % 64 == 0)
        || (16384 <= b.delay < 1048576 && due / 16384 % 64 == 0)
        || (1048576 <= b.delay < 67108864 && due / 1048576 % 64 == 0);
      if stuck || cancelled || now < due then forall j :: 0 <= j < |fired| ==> fired[j].serial != s
      else exists k ::
        && 0 <= k < |fired| && fired[k].serial == s && fired[k].tick == due && fired[k].id == b.id
        && forall j :: 0 <= j < |fired| && fired[j].serial == s ==> j == k
  {
    if b.delay > 0 {
      var level := LevelFor(b.delay);
    }
    if FiredOnceAt(fired, s, b.Due(), b.id) {
      var k :| 0 <= k < |fired| && fired[k] == Firing(s, b.Due(), b.id)
        && forall j :: 0 <= j < |fired| && fired[j].serial == s ==> j == k;
    }
  }

  /** The boundary is met in practice: at tick 100, a delay of 16300 lands in slot 0 of level 0.
      Shorter delays than 256 are safe at any tick. */
  lemma StuckExample()
    ensures Birth(100, 16300, 0).Stuck() && HomeSlot(100, 16400) == SlotNo(0, 0)
    ensures forall at: nat, d, id :: 0 < d < TIME_NEAR ==> !Birth(at, d, id).Stuck()
  {
  }
}
