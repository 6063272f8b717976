/** Whole runs of the timing wheel: any calls and ticks, any callbacks.  Every call that is made,
    by the run itself or by a callback, is served exactly once and in its order; each addition has
    a birth of its own, and a cancelled timer does not fire any more. */
module TimerRuns {
  import opened TimeWheel

  function Updates(ops: seq<Op>): (n: nat)
    ensures n <= |ops|
  {
    if ops == [] then 0
    else Updates(ops[..|ops| - 1]) + if ops[|ops| - 1].Update? then 1 else 0
  }

  lemma {:induction false} UpdatesGrow(ops: seq<Op>, i: nat)
    requires i <= |ops|
    ensures Updates(ops[..i]) <= Updates(ops)
    decreases |ops|
  {
    if i == |ops| {
      assert ops[..i] == ops;
    } else {
      var n := |ops| - 1;
      assert ops[..n][..i] == ops[..i];
      UpdatesGrow(ops[..n], i);
    }
  }

  /** The history of a run by the simple rule, `dues[i]` being what the i-th operation dispatches. */
  ghost function Story(ops: seq<Op>, dues: seq<seq<TimerNode>>, callbacks: nat -> seq<Call>): History
    requires |dues| == |ops|
  {
    if ops == [] then NOTHING
    else
      var n := |ops| - 1;
      var h := Story(ops[..n], dues[..n], callbacks);
      match ops[n]
      case Ask(call) => Asked(h, call, FromOp(n), Updates(ops[..n]))
      case Update => Dispatched(h, dues[n], Updates(ops[..n]) + 1, callbacks)
  }

  // ---------------------------------------------------------------- what a run has to show

  datatype Option<T> = None | Some(value: T)

  /** The call with this cause: an operation, or one of those that a callback makes. */
  function CallOf(c: Cause, ops: seq<Op>, asked: seq<seq<Call>>): Option<Call> {
    match c
    case FromOp(i) => if i < |ops| && ops[i].Ask? then Some(ops[i].call) else None
    case FromCallback(k, j) => if k < |asked| && j < |asked[k]| then Some(asked[k][j]) else None
  }

  function TickOf(c: Cause, ops: seq<Op>, fired: seq<Firing>): nat {
    match c
    case FromOp(i) => if i < |ops| then Updates(ops[..i]) else 0
    case FromCallback(k, _) => if k < |fired| then fired[k].tick else 0
  }

  /** Operations are served in turn, and so are the calls of one callback. */
  predicate InOrder(a: Cause, b: Cause) {
    && (a.FromOp? && b.FromOp? ==> a.i < b.i)
    && (a.FromCallback? && b.FromCallback? && a.k == b.k ==> a.j < b.j)
  }

  /** Only calls that are made are served, none twice, and in their order. */
  ghost predicate LogOk(h: History, ops: seq<Op>) {
    && |h.asked| == |h.fired|
    && (forall q :: 0 <= q < |h.log| ==> CallOf(h.log[q], ops, h.asked).Some?)
    && (forall p, q :: 0 <= p < q < |h.log| ==>
          InOrder(h.log[p], h.log[q]) && TickOf(h.log[p], ops, h.fired) <= TickOf(h.log[q], ops, h.fired))
  }

  /** Every call that is made is served. */
  ghost predicate EveryCallServed(h: History, ops: seq<Op>) {
    forall c :: CallOf(c, ops, h.asked).Some? ==> c in h.log
  }

  /** The s-th birth is that of an addition, at the tick at which it was asked for. */
  ghost predicate BornOf(h: History, ops: seq<Op>, s: nat)
    requires s < |h.born| && s < |h.place|
  {
    && h.place[s] < |h.log|
    && var c := h.log[h.place[s]];
    && var call := CallOf(c, ops, h.asked);
    && call.Some? && call.value.Add?
    && h.born[s] == Birth(TickOf(c, ops, h.fired), call.value.delay, call.value.id)
  }

  ghost predicate AddAt(h: History, ops: seq<Op>, q: int) {
    0 <= q < |h.log| && CallOf(h.log[q], ops, h.asked).Some? && CallOf(h.log[q], ops, h.asked).value.Add?
  }

  /** Births and additions are in one-to-one correspondence, in the same order. */
  ghost predicate BirthsOk(h: History, ops: seq<Op>) {
    && |h.place| == |h.born|
    && (forall s :: 0 <= s < |h.born| ==> BornOf(h, ops, s))
    && (forall s, t :: 0 <= s < t < |h.place| ==> h.place[s] < h.place[t])
    && (forall q :: AddAt(h, ops, q) ==> q in h.place)
  }

  /** A callback run at an update makes the calls that `callbacks` says; one that runs inside
      add_timer makes those that came with the addition. */
  ghost predicate MakesItsCalls(h: History, ops: seq<Op>, callbacks: nat -> seq<Call>, k: nat)
    requires k < |h.fired| && k < |h.asked|
  {
    var s := h.fired[k].serial;
    && s < |h.born| && s < |h.place|
    && if h.born[s].delay > 0 then h.asked[k] == callbacks(k)
       else BornOf(h, ops, s) && h.asked[k] == CallOf(h.log[h.place[s]], ops, h.asked).value.nested
  }

  ghost predicate RunsOk(h: History, ops: seq<Op>, callbacks: nat -> seq<Call>) {
    && |h.asked| == |h.fired|
    && forall k :: 0 <= k < |h.fired| ==> MakesItsCalls(h, ops, callbacks, k)
  }

  /** The q-th call served is del_timer for s, which has been added before. */
  ghost predicate CancelAt(h: History, ops: seq<Op>, q: int, s: int) {
    && 0 <= q < |h.log| && 0 <= s && CallOf(h.log[q], ops, h.asked) == Some(Cancel(s))
    && s < |h.place| && h.place[s] < q
  }

  /** The j-th callback ran before this call was made. */
  ghost predicate RanBefore(h: History, ops: seq<Op>, j: nat, c: Cause)
    requires j < |h.fired|
  {
    match c
    case FromOp(_) => h.fired[j].tick <= TickOf(c, ops, h.fired)
    case FromCallback(k, _) => j <= k
  }

  /** Once it is cancelled a pending timer does not fire; and the flags are those of the timers
      that were cancelled and have never fired. */
  ghost predicate CancelsHeeded(h: History, ops: seq<Op>) {
    && (forall q, s, j ::
          (CancelAt(h, ops, q, s) && s < |h.born| && h.born[s].delay > 0 && 0 <= j < |h.fired| && h.fired[j].serial == s)
          ==> RanBefore(h, ops, j, h.log[q]))
    && (forall s: nat :: s in h.cancelled <==> NeverFired(h.fired, s) && exists q :: CancelAt(h, ops, q, s))
  }

  /** The whole account of a run. */
  ghost predicate Accounted(h: History, ops: seq<Op>, callbacks: nat -> seq<Call>) {
    && LogOk(h, ops) && EveryCallServed(h, ops) && BirthsOk(h, ops)
    && RunsOk(h, ops, callbacks) && CancelsHeeded(h, ops)
  }

  // ---------------------------------------------------------------- why it holds

  /** The history grew. */
  ghost predicate Grew(h: History, g: History) {
    && h.born <= g.born && h.fired <= g.fired && h.log <= g.log && h.place <= g.place && h.asked <= g.asked
    && h.gone <= g.gone && h.cancelled <= g.cancelled
  }

  lemma CallStays(c: Cause, ops: seq<Op>, asked: seq<seq<Call>>, more: seq<seq<Call>>)
    requires asked <= more && CallOf(c, ops, asked).Some?
    ensures CallOf(c, ops, more) == CallOf(c, ops, asked)
  {
  }

  /** What is true while calls are being served: all of the account, but that some may be left. */
  ghost predicate Kept(h: History, ops: seq<Op>, callbacks: nat -> seq<Call>, now: nat) {
    && LogOk(h, ops) && BirthsOk(h, ops) && RunsOk(h, ops, callbacks) && FlagsOk(h, ops) && UpTo(h, ops, now)
  }

  ghost predicate UpTo(h: History, ops: seq<Op>, now: nat) {
    && (forall q :: 0 <= q < |h.log| ==> TickOf(h.log[q], ops, h.fired) <= now)
    && (forall j :: 0 <= j < |h.fired| ==> h.fired[j].tick <= now)
    && (forall s :: 0 <= s < |h.born| ==> h.born[s].at <= now)
  }

  ghost predicate HasRun(h: History, s: int) {
    exists j :: 0 <= j < |h.fired| && h.fired[j].serial == s
  }

  ghost predicate HasRunBefore(h: History, ops: seq<Op>, s: int, c: Cause) {
    exists j :: 0 <= j < |h.fired| && h.fired[j].serial == s && RanBefore(h, ops, j, c)
  }

  /** A timer whose flag is set was cancelled; one that was cancelled has its flag set, or had run;
      one that is gone has its flag set, or has run. */
  ghost predicate FlagsOk(h: History, ops: seq<Op>) {
    && (forall s :: s in h.cancelled ==> s < |h.born| && exists q :: CancelAt(h, ops, q, s))
    && (forall q, s :: CancelAt(h, ops, q, s) ==>
          s in h.cancelled || (HasRun(h, s) && (s < |h.born| && h.born[s].delay > 0 ==> HasRunBefore(h, ops, s, h.log[q]))))
    && (forall s :: s in h.gone ==> s < |h.born| && (s in h.cancelled || HasRun(h, s)))
  }

  /** A call that comes next. */
  ghost predicate Fresh(h: History, from: Cause) {
    forall p :: 0 <= p < |h.log| ==> InOrder(h.log[p], from)
  }

  ghost predicate RanAtOnce(h: History, j: nat)
    requires j < |h.fired|
  {
    h.fired[j].serial < |h.born| && h.born[h.fired[j].serial].delay <= 0
  }

  /** Since the callback that makes this call, only callbacks inside add_timer have run. */
  ghost predicate Recent(h: History, from: Cause) {
    from.FromCallback? ==> forall j :: from.k < j < |h.fired| ==> RanAtOnce(h, j)
  }

  // an addition

  lemma BornKeepsLog(h: History, b: Birth, from: Cause, ops: seq<Op>, now: nat)
    requires LogOk(h, ops) && UpTo(h, ops, now) && Fresh(h, from) && b.at == now
    requires CallOf(from, ops, h.asked).Some? && TickOf(from, ops, h.fired) == now
    ensures LogOk(Born(h, b, from), ops) && UpTo(Born(h, b, from), ops, now)
  {
  }

  lemma BornKeepsBirths(h: History, b: Birth, from: Cause, ops: seq<Op>, call: Call)
    requires BirthsOk(h, ops) && CallOf(from, ops, h.asked) == Some(call) && call.Add?
    requires b == Birth(TickOf(from, ops, h.fired), call.delay, call.id)
    ensures BirthsOk(Born(h, b, from), ops) && BornOf(Born(h, b, from), ops, |h.born|)
  {
    var g := Born(h, b, from);
    forall s | 0 <= s < |g.born| ensures BornOf(g, ops, s) {
      assert s < |h.born| ==> BornOf(h, ops, s);
    }
    forall s, t | 0 <= s < t < |g.place| ensures g.place[s] < g.place[t] {
      assert BornOf(h, ops, s);
    }
    forall q | AddAt(g, ops, q) ensures q in g.place {
      if q < |h.log| {
        assert AddAt(h, ops, q);
      } else {
        assert g.place[|h.place|] == q;
      }
    }
  }

  lemma BornKeepsRuns(h: History, b: Birth, from: Cause, ops: seq<Op>, callbacks: nat -> seq<Call>)
    requires BirthsOk(h, ops) && RunsOk(h, ops, callbacks)
    ensures RunsOk(Born(h, b, from), ops, callbacks)
  {
    var g := Born(h, b, from);
    forall k | 0 <= k < |g.fired| ensures MakesItsCalls(g, ops, callbacks, k) {
      assert MakesItsCalls(h, ops, callbacks, k) && BornOf(h, ops, h.fired[k].serial);
    }
  }

  lemma BornKeepsFlags(h: History, b: Birth, from: Cause, ops: seq<Op>)
    requires BirthsOk(h, ops) && FlagsOk(h, ops) && CallOf(from, ops, h.asked).Some? && CallOf(from, ops, h.asked).value.Add?
    ensures FlagsOk(Born(h, b, from), ops)
  {
    var g := Born(h, b, from);
    forall s | s in g.cancelled ensures exists q :: CancelAt(g, ops, q, s) {
      var q :| CancelAt(h, ops, q, s);
      assert CancelAt(g, ops, q, s);
    }
    forall q, s | CancelAt(g, ops, q, s)
      ensures s in g.cancelled || (HasRun(g, s) && (s < |g.born| && g.born[s].delay > 0 ==> HasRunBefore(g, ops, s, g.log[q])))
    {
      assert CancelAt(h, ops, q, s);
      RunsStay(h, g, ops, s, h.log[q]);
    }
    forall s | s in g.gone ensures s in g.cancelled || HasRun(g, s) {
      RunsStay(h, g, ops, s, from);
    }
  }

  lemma RunsStay(h: History, g: History, ops: seq<Op>, s: int, c: Cause)
    requires h.fired <= g.fired
    ensures HasRun(h, s) ==> HasRun(g, s)
    ensures HasRunBefore(h, ops, s, c) ==> HasRunBefore(g, ops, s, c)
  {
    if HasRun(h, s) {
      var j :| 0 <= j < |h.fired| && h.fired[j].serial == s;
      assert g.fired[j].serial == s;
    }
    if HasRunBefore(h, ops, s, c) {
      var j :| 0 <= j < |h.fired| && h.fired[j].serial == s && RanBefore(h, ops, j, c);
      assert g.fired[j].serial == s && RanBefore(g, ops, j, c);
    }
  }

  lemma BornKeeps(h: History, b: Birth, from: Cause, ops: seq<Op>, callbacks: nat -> seq<Call>, now: nat, call: Call)
    requires Kept(h, ops, callbacks, now) && Fresh(h, from) && TickOf(from, ops, h.fired) == now
    requires CallOf(from, ops, h.asked) == Some(call) && call.Add? && b == Birth(now, call.delay, call.id)
    ensures Kept(Born(h, b, from), ops, callbacks, now) && BornOf(Born(h, b, from), ops, |h.born|)
  {
    BornKeepsLog(h, b, from, ops, now);
    BornKeepsBirths(h, b, from, ops, call);
    BornKeepsRuns(h, b, from, ops, callbacks);
    BornKeepsFlags(h, b, from, ops);
  }

  // a node that leaves

  lemma LeftKeepsLog(h: History, serial: nat, id: int, calls: seq<Call>, ops: seq<Op>, now: nat)
    requires LogOk(h, ops) && UpTo(h, ops, now)
    ensures LogOk(Left(h, serial, id, calls, now), ops) && UpTo(Left(h, serial, id, calls, now), ops, now)
  {
    var g := Left(h, serial, id, calls, now);
    forall q | 0 <= q < |h.log|
      ensures CallOf(h.log[q], ops, g.asked).Some? && TickOf(h.log[q], ops, g.fired) == TickOf(h.log[q], ops, h.fired)
    {
      CallStays(h.log[q], ops, h.asked, g.asked);
    }
  }

  lemma LeftKeepsBirths(h: History, serial: nat, id: int, calls: seq<Call>, ops: seq<Op>, now: nat)
    requires LogOk(h, ops) && BirthsOk(h, ops)
    ensures BirthsOk(Left(h, serial, id, calls, now), ops)
  {
    var g := Left(h, serial, id, calls, now);
    forall s | 0 <= s < |g.born| ensures BornOf(g, ops, s) {
      assert BornOf(h, ops, s);
    }
    forall q | AddAt(g, ops, q) ensures q in g.place {
      CallStays(h.log[q], ops, h.asked, g.asked);
      assert AddAt(h, ops, q);
    }
  }

  lemma LeftKeepsRuns(h: History, serial: nat, id: int, calls: seq<Call>, ops: seq<Op>, callbacks: nat -> seq<Call>, now: nat)
    requires LogOk(h, ops) && BirthsOk(h, ops) && RunsOk(h, ops, callbacks) && serial < |h.born| && BornOf(h, ops, serial)
    requires calls == if h.born[serial].delay > 0 then callbacks(|h.fired|)
                      else CallOf(h.log[h.place[serial]], ops, h.asked).value.nested
    ensures RunsOk(Left(h, serial, id, calls, now), ops, callbacks)
  {
    var g := Left(h, serial, id, calls, now);
    forall k | 0 <= k < |g.fired| ensures MakesItsCalls(g, ops, callbacks, k) {
      var s := g.fired[k].serial;
      if k < |h.fired| {
        assert MakesItsCalls(h, ops, callbacks, k);
      }
      assert BornOf(h, ops, s);
      CallStays(h.log[h.place[s]], ops, h.asked, g.asked);
    }
  }

  lemma LeftKeepsFlags(h: History, serial: nat, id: int, calls: seq<Call>, ops: seq<Op>, now: nat)
    requires LogOk(h, ops) && FlagsOk(h, ops) && serial < |h.born|
    ensures FlagsOk(Left(h, serial, id, calls, now), ops)
  {
    var g := Left(h, serial, id, calls, now);
    forall s | s in g.cancelled ensures exists q :: CancelAt(g, ops, q, s) {
      var q :| CancelAt(h, ops, q, s);
      assert CancelAt(g, ops, q, s);
    }
    forall q, s | CancelAt(g, ops, q, s)
      ensures s in g.cancelled || (HasRun(g, s) && (s < |g.born| && g.born[s].delay > 0 ==> HasRunBefore(g, ops, s, g.log[q])))
    {
      CallStays(h.log[q], ops, h.asked, g.asked);
      assert CancelAt(h, ops, q, s);
      RunsStay(h, g, ops, s, h.log[q]);
    }
    forall s | s in g.gone ensures s in g.cancelled || HasRun(g, s) {
      RunsStay(h, g, ops, s, FromOp(0));
      if s == serial && serial !in h.cancelled {
        assert g.fired[|h.fired|].serial == s;
      }
    }
  }

  lemma LeftKeeps(h: History, serial: nat, id: int, calls: seq<Call>, ops: seq<Op>, callbacks: nat -> seq<Call>, now: nat)
    requires Kept(h, ops, callbacks, now) && serial < |h.born| && BornOf(h, ops, serial)
    requires calls == if h.born[serial].delay > 0 then callbacks(|h.fired|)
                      else CallOf(h.log[h.place[serial]], ops, h.asked).value.nested
    ensures Kept(Left(h, serial, id, calls, now), ops, callbacks, now) && Grew(h, Left(h, serial, id, calls, now))
  {
    LeftKeepsLog(h, serial, id, calls, ops, now);
    LeftKeepsBirths(h, serial, id, calls, ops, now);
    LeftKeepsRuns(h, serial, id, calls, ops, callbacks, now);
    LeftKeepsFlags(h, serial, id, calls, ops, now);
  }

  // a cancellation

  lemma FlaggedKeepsFlags(h: History, serial: nat, from: Cause, ops: seq<Op>, now: nat)
    requires LogOk(h, ops) && BirthsOk(h, ops) && FlagsOk(h, ops) && UpTo(h, ops, now)
    requires CallOf(from, ops, h.asked) == Some(Cancel(serial)) && TickOf(from, ops, h.fired) == now && Recent(h, from)
    ensures FlagsOk(Flagged(h, serial, from), ops)
  {
    var g := Flagged(h, serial, from);
    forall s | s in g.cancelled ensures exists q :: CancelAt(g, ops, q, s) {
      if s in h.cancelled {
        var q :| CancelAt(h, ops, q, s);
        assert CancelAt(g, ops, q, s);
      } else {
        assert BornOf(h, ops, s) && CancelAt(g, ops, |h.log|, s);
      }
    }
    forall q, s | CancelAt(g, ops, q, s)
      ensures s in g.cancelled || (HasRun(g, s) && (s < |g.born| && g.born[s].delay > 0 ==> HasRunBefore(g, ops, s, g.log[q])))
    {
      if q < |h.log| {
        assert CancelAt(h, ops, q, s);
        RunsStay(h, g, ops, s, h.log[q]);
      } else if s !in g.cancelled {
        GoneHasRun(h, s, from, ops, now);
        RunsStay(h, g, ops, s, from);
      }
    }
    forall s | s in g.gone ensures s in g.cancelled || HasRun(g, s) {
      RunsStay(h, g, ops, s, from);
    }
  }

  lemma GoneHasRun(h: History, s: int, from: Cause, ops: seq<Op>, now: nat)
    requires FlagsOk(h, ops) && UpTo(h, ops, now) && TickOf(from, ops, h.fired) == now && Recent(h, from)
    requires s in h.gone && s !in h.cancelled
    ensures HasRun(h, s) && (h.born[s].delay > 0 ==> HasRunBefore(h, ops, s, from))
  {
    var j :| 0 <= j < |h.fired| && h.fired[j].serial == s;
    assert from.FromCallback? && j > from.k ==> RanAtOnce(h, j);
    assert h.born[s].delay > 0 ==> RanBefore(h, ops, j, from);
  }

  lemma FlaggedKeeps(h: History, serial: nat, from: Cause, ops: seq<Op>, callbacks: nat -> seq<Call>, now: nat)
    requires Kept(h, ops, callbacks, now) && Fresh(h, from) && Recent(h, from)
    requires CallOf(from, ops, h.asked) == Some(Cancel(serial)) && TickOf(from, ops, h.fired) == now
    ensures Kept(Flagged(h, serial, from), ops, callbacks, now)
  {
    var g := Flagged(h, serial, from);
    FlaggedKeepsFlags(h, serial, from, ops, now);
    forall s | 0 <= s < |g.born| ensures BornOf(g, ops, s) {
      assert BornOf(h, ops, s);
    }
    forall q | AddAt(g, ops, q) ensures q in g.place {
      assert AddAt(h, ops, q);
    }
    forall k | 0 <= k < |g.fired| ensures MakesItsCalls(g, ops, callbacks, k) {
      assert MakesItsCalls(h, ops, callbacks, k) && BornOf(h, ops, h.fired[k].serial);
    }
  }

  // calls inside calls

  ghost predicate CallsServed(h: History, k: nat) {
    k < |h.asked| && forall j :: 0 <= j < |h.asked[k]| ==> FromCallback(k, j) in h.log
  }

  /** What has been served from h to g is this call, and what it set off. */
  ghost predicate ServedOne(h: History, g: History, from: Cause) {
    && Grew(h, g) && from in g.log
    && (forall q :: |h.log| <= q < |g.log| ==>
          g.log[q] == from || (g.log[q].FromCallback? && g.log[q].k >= |h.fired|))
    && forall j :: |h.fired| <= j < |g.fired| ==> CallsServed(g, j) && RanAtOnce(g, j)
  }

  /** It is the first n calls of the k-th callback, and what they set off. */
  ghost predicate ServedFirst(h: History, g: History, k: nat, n: nat) {
    && Grew(h, g) && (forall j :: 0 <= j < n ==> FromCallback(k, j) in g.log)
    && (forall q :: |h.log| <= q < |g.log| ==>
          g.log[q].FromCallback? && (g.log[q].k >= |h.fired| || (g.log[q].k == k && g.log[q].j < n)))
    && forall j :: |h.fired| <= j < |g.fired| ==> CallsServed(g, j) && RanAtOnce(g, j)
  }

  lemma ServedGrows(g: History, g': History, j: nat)
    requires Grew(g, g') && j < |g.fired| && CallsServed(g, j) && RanAtOnce(g, j)
    ensures CallsServed(g', j) && RanAtOnce(g', j)
  {
  }

  lemma OneMore(h: History, g: History, g': History, k: nat, n: nat)
    requires ServedFirst(h, g, k, n) && ServedOne(g, g', FromCallback(k, n))
    ensures ServedFirst(h, g', k, n + 1)
  {
    forall j | |h.fired| <= j < |g'.fired| ensures CallsServed(g', j) && RanAtOnce(g', j) {
      if j < |g.fired| {
        ServedGrows(g, g', j);
      }
    }
  }

  lemma {:induction false} AskedKeeps(h: History, call: Call, from: Cause, now: nat, ops: seq<Op>, callbacks: nat -> seq<Call>)
    requires Kept(h, ops, callbacks, now) && Fresh(h, from) && Recent(h, from)
    requires CallOf(from, ops, h.asked) == Some(call) && TickOf(from, ops, h.fired) == now
    ensures
      var g := Asked(h, call, from, now);
      Kept(g, ops, callbacks, now) && ServedOne(h, g, from)
    decreases call
  {
    match call
    case Cancel(serial) =>
      FlaggedKeeps(h, serial, from, ops, callbacks, now);
      assert Flagged(h, serial, from).log[|h.log|] == from;
    case Add(delay, id, nested) =>
      var b := Birth(now, delay, id);
      BornKeeps(h, b, from, ops, callbacks, now, call);
      assert Born(h, b, from).log[|h.log|] == from;
      if delay <= 0 {
        var born := Born(h, b, from);
        LeftKeeps(born, |h.born|, id, nested, ops, callbacks, now);
        var left := Left(born, |h.born|, id, nested, now);
        NewestCallback(born, |h.born|, id, nested, now, ops);
        AllAskedKeeps(left, nested, |h.fired|, now, ops, callbacks);
        RunAtOnce(h, b, from, id, nested, now, AllAsked(left, nested, |h.fired|, now), ops);
      }
  }

  /** The calls of the callback that has just run all come later. */
  lemma NewestCallback(h: History, serial: nat, id: int, calls: seq<Call>, now: nat, ops: seq<Op>)
    requires LogOk(h, ops) && serial !in h.cancelled
    ensures
      var k, g := |h.fired|, Left(h, serial, id, calls, now);
      && |g.fired| == |g.asked| == k + 1 && g.asked[k] == calls && g.fired[k] == Firing(serial, now, id)
      && forall q :: 0 <= q < |g.log| && g.log[q].FromCallback? ==> g.log[q].k < k
  {
    forall q | 0 <= q < |h.log| && h.log[q].FromCallback? ensures h.log[q].k < |h.fired| {
      assert CallOf(h.log[q], ops, h.asked).Some?;
    }
  }

  lemma RunAtOnce(h: History, b: Birth, from: Cause, id: int, nested: seq<Call>, now: nat, g: History, ops: seq<Op>)
    requires |h.asked| == |h.fired| && |h.born| !in h.cancelled && b.delay <= 0
    requires ServedFirst(Left(Born(h, b, from), |h.born|, id, nested, now), g, |h.fired|, |nested|)
    ensures ServedOne(h, g, from)
  {
    var k, left := |h.fired|, Left(Born(h, b, from), |h.born|, id, nested, now);
    assert left.log[|h.log|] == from && g.log[|h.log|] == from;
    assert g.asked[k] == left.asked[k] == nested && g.fired[k] == left.fired[k] && g.born[|h.born|] == left.born[|h.born|] == b;
    forall q | |h.log| <= q < |g.log| ensures g.log[q] == from || (g.log[q].FromCallback? && g.log[q].k >= |h.fired|) {
      assert q > |h.log| ==> |left.log| <= q;
    }
    forall j | |h.fired| <= j < |g.fired| ensures CallsServed(g, j) && RanAtOnce(g, j) {
      assert j > k ==> |left.fired| <= j;
    }
  }

  lemma {:induction false} AllAskedKeeps(h: History, calls: seq<Call>, k: nat, now: nat, ops: seq<Op>, callbacks: nat -> seq<Call>)
    requires Kept(h, ops, callbacks, now) && k + 1 == |h.fired| && h.fired[k].tick == now && calls <= h.asked[k]
    requires forall q :: 0 <= q < |h.log| && h.log[q].FromCallback? ==> h.log[q].k < k
    ensures
      var g := AllAsked(h, calls, k, now);
      Kept(g, ops, callbacks, now) && ServedFirst(h, g, k, |calls|)
    decreases calls
  {
    if calls != [] {
      var n := |calls| - 1;
      AllAskedKeeps(h, calls[..n], k, now, ops, callbacks);
      var g := AllAsked(h, calls[..n], k, now);
      NextCall(h, g, calls, k, now, ops);
      AskedKeeps(g, calls[n], FromCallback(k, n), now, ops, callbacks);
      OneMore(h, g, Asked(g, calls[n], FromCallback(k, n), now), k, n);
    }
  }

  lemma NextCall(h: History, g: History, calls: seq<Call>, k: nat, now: nat, ops: seq<Op>)
    requires |h.asked| == |h.fired| == k + 1 && h.fired[k].tick == now && calls != [] && calls <= h.asked[k]
    requires forall q :: 0 <= q < |h.log| && h.log[q].FromCallback? ==> h.log[q].k < k
    requires ServedFirst(h, g, k, |calls| - 1)
    ensures
      var from := FromCallback(k, |calls| - 1);
      && Fresh(g, from) && Recent(g, from)
      && CallOf(from, ops, g.asked) == Some(calls[|calls| - 1]) && TickOf(from, ops, g.fired) == now
  {
    var from := FromCallback(k, |calls| - 1);
    assert g.asked[k] == h.asked[k] && g.fired[k] == h.fired[k];
    forall p | 0 <= p < |g.log| ensures InOrder(g.log[p], from) {
      assert p < |h.log| ==> g.log[p] == h.log[p];
    }
  }

  // a tick

  /** What has been served from h to g are calls of callbacks run in between, and all of them. */
  ghost predicate ServedAll(h: History, g: History) {
    && Grew(h, g)
    && (forall q :: |h.log| <= q < |g.log| ==> g.log[q].FromCallback? && g.log[q].k >= |h.fired|)
    && forall j :: |h.fired| <= j < |g.fired| ==> CallsServed(g, j)
  }

  lemma HeadKeeps(h: History, node: TimerNode, now: nat, ops: seq<Op>, callbacks: nat -> seq<Call>)
    requires Kept(h, ops, callbacks, now) && node.serial < |h.born| && h.born[node.serial].delay > 0
    ensures
      var g := HeadDispatched(h, node, now, callbacks);
      Kept(g, ops, callbacks, now) && ServedAll(h, g)
  {
    var k := |h.fired|;
    var left := Left(h, node.serial, node.id, callbacks(k), now);
    assert BornOf(h, ops, node.serial);
    LeftKeeps(h, node.serial, node.id, callbacks(k), ops, callbacks, now);
    if node.serial !in h.cancelled {
      NewestCallback(h, node.serial, node.id, callbacks(k), now, ops);
      AllAskedKeeps(left, callbacks(k), k, now, ops, callbacks);
      var g := AllAsked(left, callbacks(k), k, now);
      assert g.asked[k] == left.asked[k];
      forall j | |h.fired| <= j < |g.fired| ensures CallsServed(g, j) {
        assert j > k ==> |left.fired| <= j;
      }
    }
  }

  lemma {:induction false} DispatchedKeeps(h: History, due: seq<TimerNode>, now: nat, ops: seq<Op>, callbacks: nat -> seq<Call>)
    requires Kept(h, ops, callbacks, now)
    requires forall p :: 0 <= p < |due| ==> due[p].serial < |h.born| && h.born[due[p].serial].delay > 0
    ensures
      var g := Dispatched(h, due, now, callbacks);
      Kept(g, ops, callbacks, now) && ServedAll(h, g)
    decreases |due|
  {
    if due != [] {
      HeadKeeps(h, due[0], now, ops, callbacks);
      var g := HeadDispatched(h, due[0], now, callbacks);
      forall p | 0 <= p < |due[1..]| ensures due[1..][p].serial < |g.born| && g.born[due[1..][p].serial].delay > 0 {
        assert due[1..][p] == due[p + 1];
      }
      DispatchedKeeps(g, due[1..], now, ops, callbacks);
      AllServedThen(h, g, Dispatched(h, due, now, callbacks));
    }
  }

  lemma AllServedThen(h: History, g: History, g': History)
    requires ServedAll(h, g) && ServedAll(g, g') && |g.asked| == |g.fired|
    ensures ServedAll(h, g')
  {
    forall j | |h.fired| <= j < |g'.fired| ensures CallsServed(g', j) {
      if j < |g.fired| {
        assert CallsServed(g, j) && g'.asked[j] == g.asked[j];
      }
    }
  }

  // ---------------------------------------------------------------- the order within a tick

  /** From h to g only timers that are born in between, or one of these, have fired. */
  ghost predicate FiredOnly(h: History, g: History, serials: set<nat>) {
    && h.fired <= g.fired && |h.born| <= |g.born|
    && forall k :: |h.fired| <= k < |g.fired| ==> g.fired[k].serial >= |h.born| || g.fired[k].serial in serials
  }

  lemma {:induction false} AskedFires(h: History, call: Call, from: Cause, now: nat)
    ensures FiredOnly(h, Asked(h, call, from, now), {})
    decreases call
  {
    match call
    case Cancel(serial) =>
    case Add(delay, id, nested) =>
      var born := Born(h, Birth(now, delay, id), from);
      if delay <= 0 {
        AllAskedFires(Left(born, |h.born|, id, nested, now), nested, |h.fired|, now);
      }
  }

  lemma {:induction false} AllAskedFires(h: History, calls: seq<Call>, k: nat, now: nat)
    ensures FiredOnly(h, AllAsked(h, calls, k, now), {})
    decreases calls
  {
    if calls != [] {
      var n := |calls| - 1;
      AllAskedFires(h, calls[..n], k, now);
      AskedFires(AllAsked(h, calls[..n], k, now), calls[n], FromCallback(k, n), now);
    }
  }

  /** The head of the list fires first, if at all. */
  lemma HeadFires(h: History, node: TimerNode, now: nat, callbacks: nat -> seq<Call>)
    ensures
      var g := HeadDispatched(h, node, now, callbacks);
      && FiredOnly(h, g, {node.serial})
      && forall k :: |h.fired| < k < |g.fired| ==> g.fired[k].serial >= |h.born|
  {
    var left := Left(h, node.serial, node.id, callbacks(|h.fired|), now);
    AllAskedFires(left, callbacks(|h.fired|), |h.fired|, now);
  }

  lemma {:induction false} ListFires(h: History, due: seq<TimerNode>, now: nat, callbacks: nat -> seq<Call>)
    ensures FiredOnly(h, Dispatched(h, due, now, callbacks), Serials(due))
    decreases |due|
  {
    if due != [] {
      var g := HeadDispatched(h, due[0], now, callbacks);
      HeadFires(h, due[0], now, callbacks);
      ListFires(g, due[1..], now, callbacks);
      assert due[0].serial in Serials(due) && forall s :: s in Serials(due[1..]) ==> s in Serials(due);
    }
  }

  /** The callbacks of a detached list run in the order of the list. */
  lemma {:induction false} ListInTurn(h: History, due: seq<TimerNode>, now: nat, callbacks: nat -> seq<Call>,
                                      p: nat, q: nat, i: nat, j: nat)
    requires Distinct(due) && forall r :: 0 <= r < |due| ==> due[r].serial < |h.born|
    requires p < q < |due|
    requires
      var fired := Dispatched(h, due, now, callbacks).fired;
      && |h.fired| <= i < |fired| && fired[i].serial == due[p].serial
      && |h.fired| <= j < |fired| && fired[j].serial == due[q].serial
    ensures i < j
    decreases |due|
  {
    var g, rest := HeadDispatched(h, due[0], now, callbacks), due[1..];
    HeadFires(h, due[0], now, callbacks);
    ListFires(g, rest, now, callbacks);
    SerialsTail(due);
    assert due[q].serial in Serials(due) && due[q] == rest[q - 1];
    if p > 0 {
      assert due[p] == rest[p - 1];
      ListInTurn(g, rest, now, callbacks, p - 1, q - 1, i, j);
    }
  }

  // ---------------------------------------------------------------- runs

  /** The i-th operation by the simple rule, at tick `now`. */
  ghost predicate Stepped(h: History, i: nat, op: Op, due: seq<TimerNode>, now: nat, callbacks: nat -> seq<Call>,
                          h': History) {
    match op
    case Ask(call) => h' == Asked(h, call, FromOp(i), now)
    case Update => ExactlyDue(due, h.born, now + 1) && h' == Dispatched(h, due, now + 1, callbacks)
  }

  method RunOp(w: Wheel, ghost i: nat, op: Op, callbacks: nat -> seq<Call>) returns (ghost due: seq<TimerNode>)
    requires w.Valid()
    modifies w, w.slots
    ensures w.Valid() && w.now == old(w.now) + (if op.Update? then 1 else 0)
    ensures Stepped(old(w.Past()), i, op, due, old(w.now), callbacks, w.Past())
  {
    match op {
      case Ask(call) =>
        due := [];
        w.Serve(call, FromOp(i), w.now + 1, {});
      case Update =>
        due := w.TimerUpdate(callbacks);
    }
  }

  /** The i-th operation went by the simple rule: it dispatched exactly what was due. */
  ghost predicate SteppedAt(ops: seq<Op>, dues: seq<seq<TimerNode>>, callbacks: nat -> seq<Call>, i: nat)
    requires i < |ops| && i < |dues|
  {
    Stepped(Story(ops[..i], dues[..i], callbacks), i, ops[i], dues[i], Updates(ops[..i]), callbacks,
            Story(ops[..i + 1], dues[..i + 1], callbacks))
  }

  ghost predicate Told(ops: seq<Op>, n: nat, dues: seq<seq<TimerNode>>, callbacks: nat -> seq<Call>)
    requires n <= |ops| && n <= |dues|
  {
    forall i :: 0 <= i < n ==> SteppedAt(ops, dues, callbacks, i)
  }

  lemma StoryGoesOn(ops: seq<Op>, n: nat, dues: seq<seq<TimerNode>>, due: seq<TimerNode>,
                    callbacks: nat -> seq<Call>, h': History)
    requires n < |ops| && |dues| == n
    requires Stepped(Story(ops[..n], dues, callbacks), n, ops[n], due, Updates(ops[..n]), callbacks, h')
    ensures h' == Story(ops[..n + 1], dues + [due], callbacks) && SteppedAt(ops, dues + [due], callbacks, n)
    ensures Updates(ops[..n + 1]) == Updates(ops[..n]) + if ops[n].Update? then 1 else 0
  {
    var longer := dues + [due];
    assert ops[..n + 1][..n] == ops[..n] && longer[..n] == dues && longer[..n + 1] == longer;
  }

  lemma ToldGoesOn(ops: seq<Op>, n: nat, dues: seq<seq<TimerNode>>, due: seq<TimerNode>, callbacks: nat -> seq<Call>)
    requires n < |ops| && |dues| == n && Told(ops, n, dues, callbacks)
    requires SteppedAt(ops, dues + [due], callbacks, n)
    ensures Told(ops, n + 1, dues + [due], callbacks)
  {
    forall i | 0 <= i < n
      ensures SteppedAt(ops, dues + [due], callbacks, i)
    {
      assert SteppedAt(ops, dues, callbacks, i);
      assert (dues + [due])[..i] == dues[..i] && (dues + [due])[..i + 1] == dues[..i + 1];
    }
  }

  /** RunOp, as the next step of a story. */
  method RunNext(w: Wheel, ops: seq<Op>, i: nat, ghost dues: seq<seq<TimerNode>>, callbacks: nat -> seq<Call>)
    returns (ghost due: seq<TimerNode>)
    requires i < |ops| && |dues| == i && w.Valid() && w.now == Updates(ops[..i])
    requires w.Past() == Story(ops[..i], dues, callbacks) && Told(ops, i, dues, callbacks)
    modifies w, w.slots
    ensures w.Valid() && w.now == Updates(ops[..i + 1])
    ensures w.Past() == Story(ops[..i + 1], dues + [due], callbacks) && Told(ops, i + 1, dues + [due], callbacks)
  {
    due := RunOp(w, i, ops[i], callbacks);
    StoryGoesOn(ops, i, dues, due, callbacks, w.Past());
    ToldGoesOn(ops, i, dues, due, callbacks);
  }

  // ---------------------------------------------------------------- the account of a run

  lemma LaterTick(h: History, ops: seq<Op>, callbacks: nat -> seq<Call>, now: nat, later: nat)
    requires Kept(h, ops, callbacks, now) && now <= later
    ensures Kept(h, ops, callbacks, later)
  {
  }

  /** All calls of the first n operations, and of the callbacks run so far, have been served. */
  ghost predicate ServedUpTo(h: History, ops: seq<Op>, n: nat) {
    && (forall i :: 0 <= i < n && i < |ops| && ops[i].Ask? ==> FromOp(i) in h.log)
    && (forall q :: 0 <= q < |h.log| && h.log[q].FromOp? ==> h.log[q].i < n)
    && (forall k :: 0 <= k < |h.fired| ==> CallsServed(h, k))
  }

  ghost predicate Going(h: History, ops: seq<Op>, n: nat, callbacks: nat -> seq<Call>, now: nat) {
    Kept(h, ops, callbacks, now) && ServedUpTo(h, ops, n)
  }

  lemma AskServed(h: History, g: History, ops: seq<Op>, m: nat)
    requires m < |ops| && |h.asked| == |h.fired|
    requires ServedUpTo(h, ops, m) && ServedOne(h, g, FromOp(m))
    ensures ServedUpTo(g, ops, m + 1)
  {
    forall k | 0 <= k < |g.fired| ensures CallsServed(g, k) {
      if k < |h.fired| {
        assert CallsServed(h, k) && g.asked[k] == h.asked[k];
      }
    }
    forall q | 0 <= q < |g.log| && g.log[q].FromOp? ensures g.log[q].i < m + 1 {
      assert q < |h.log| ==> g.log[q] == h.log[q];
    }
  }

  lemma AskStep(h: History, ops: seq<Op>, m: nat, callbacks: nat -> seq<Call>)
    requires m < |ops| && ops[m].Ask?
    requires Going(h, ops, m, callbacks, Updates(ops[..m]))
    ensures
      Going(Asked(h, ops[m].call, FromOp(m), Updates(ops[..m])), ops, m + 1, callbacks, Updates(ops[..m]))
  {
    var now := Updates(ops[..m]);
    AskedKeeps(h, ops[m].call, FromOp(m), now, ops, callbacks);
    AskServed(h, Asked(h, ops[m].call, FromOp(m), now), ops, m);
  }

  lemma TickServed(h: History, g: History, ops: seq<Op>, m: nat)
    requires m < |ops| && ops[m].Update? && |h.asked| == |h.fired|
    requires ServedUpTo(h, ops, m) && ServedAll(h, g)
    ensures ServedUpTo(g, ops, m + 1)
  {
    forall k | 0 <= k < |g.fired| ensures CallsServed(g, k) {
      if k < |h.fired| {
        assert CallsServed(h, k) && g.asked[k] == h.asked[k];
      }
    }
    forall q | 0 <= q < |g.log| && g.log[q].FromOp? ensures g.log[q].i < m + 1 {
      assert q < |h.log| ==> g.log[q] == h.log[q];
    }
  }

  lemma UpdateStep(h: History, ops: seq<Op>, m: nat, due: seq<TimerNode>, callbacks: nat -> seq<Call>)
    requires m < |ops| && ops[m].Update? && ExactlyDue(due, h.born, Updates(ops[..m]) + 1)
    requires Going(h, ops, m, callbacks, Updates(ops[..m]))
    ensures
      Going(Dispatched(h, due, Updates(ops[..m]) + 1, callbacks), ops, m + 1, callbacks, Updates(ops[..m]) + 1)
  {
    var now := Updates(ops[..m]) + 1;
    LaterTick(h, ops, callbacks, now - 1, now);
    forall p | 0 <= p < |due| ensures due[p].serial < |h.born| && h.born[due[p].serial].delay > 0 {
      assert IsDue(due[p], h.born, now);
    }
    DispatchedKeeps(h, due, now, ops, callbacks);
    TickServed(h, Dispatched(h, due, now, callbacks), ops, m);
  }

  /** One more operation, by the simple rule. */
  lemma StepKeeps(h: History, ops: seq<Op>, m: nat, due: seq<TimerNode>, callbacks: nat -> seq<Call>, h': History)
    requires m < |ops| && Stepped(h, m, ops[m], due, Updates(ops[..m]), callbacks, h')
    requires Going(h, ops, m, callbacks, Updates(ops[..m]))
    ensures Going(h', ops, m + 1, callbacks, Updates(ops[..m + 1]))
  {
    assert ops[..m + 1][..m] == ops[..m];
    if ops[m].Ask? {
      AskStep(h, ops, m, callbacks);
    } else {
      UpdateStep(h, ops, m, due, callbacks);
    }
  }

  lemma NothingKept(ops: seq<Op>, callbacks: nat -> seq<Call>)
    ensures Going(NOTHING, ops, 0, callbacks, 0)
  {
  }

  lemma {:induction false} StoryKeeps(ops: seq<Op>, n: nat, dues: seq<seq<TimerNode>>, callbacks: nat -> seq<Call>)
    requires n <= |ops| && n <= |dues| && Told(ops, n, dues, callbacks)
    ensures Going(Story(ops[..n], dues[..n], callbacks), ops, n, callbacks, Updates(ops[..n]))
    decreases n
  {
    if n == 0 {
      NothingKept(ops, callbacks);
    } else {
      var m := n - 1;
      StoryKeeps(ops, m, dues, callbacks);
      assert SteppedAt(ops, dues, callbacks, m);
      StepKeeps(Story(ops[..m], dues[..m], callbacks), ops, m, dues[m], callbacks,
                Story(ops[..n], dues[..n], callbacks));
    }
  }

  /** With nothing left to serve, the account is complete. */
  lemma AccountClosed(h: History, ops: seq<Op>, callbacks: nat -> seq<Call>, now: nat)
    requires Going(h, ops, |ops|, callbacks, now) && Punctual(h.born, h.fired, h.cancelled, now)
    ensures Accounted(h, ops, callbacks)
  {
    forall c | CallOf(c, ops, h.asked).Some? ensures c in h.log {
      if c.FromCallback? {
        assert CallsServed(h, c.k);
      }
    }
    forall q, s, j | CancelAt(h, ops, q, s) && s < |h.born| && h.born[s].delay > 0
        && 0 <= j < |h.fired| && h.fired[j].serial == s
      ensures RanBefore(h, ops, j, h.log[q])
    {
      assert PunctualAt(h.born[s], h.fired, s in h.cancelled, s, now);
    }
    forall s: nat ensures s in h.cancelled <==> NeverFired(h.fired, s) && exists q :: CancelAt(h, ops, q, s) {
      if s in h.cancelled {
        assert PunctualAt(h.born[s], h.fired, true, s, now);
      }
    }
  }

  lemma RunIsAccounted(ops: seq<Op>, dues: seq<seq<TimerNode>>, callbacks: nat -> seq<Call>, h: History)
    requires |dues| == |ops| && h == Story(ops, dues, callbacks) && Told(ops, |ops|, dues, callbacks)
    requires Punctual(h.born, h.fired, h.cancelled, Updates(ops))
    ensures Accounted(h, ops, callbacks)
  {
    assert ops[..|ops|] == ops && dues[..|dues|] == dues;
    StoryKeeps(ops, |ops|, dues, callbacks);
    AccountClosed(h, ops, callbacks, Updates(ops));
  }

  lemma RunEnds(w: Wheel, ops: seq<Op>, dues: seq<seq<TimerNode>>, callbacks: nat -> seq<Call>)
    requires w.Valid() && w.now == Updates(ops)
    requires |dues| == |ops| && w.Past() == Story(ops, dues, callbacks) && Told(ops, |ops|, dues, callbacks)
    ensures Punctual(w.born, w.fired, w.cancelled, w.now)
    ensures |w.born| == |w.loc| + |w.fired| + |w.gone * w.cancelled|
    ensures Accounted(w.Past(), ops, callbacks)
  {
    w.Conserved();
    w.AllOnTime();
    RunIsAccounted(ops, dues, callbacks, w.Past());
  }

  method RunAll(ops: seq<Op>, callbacks: nat -> seq<Call>) returns (w: Wheel, ghost dues: seq<seq<TimerNode>>)
    ensures w.Valid() && w.now == Updates(ops)
    ensures |dues| == |ops| && w.Past() == Story(ops, dues, callbacks) && Told(ops, |ops|, dues, callbacks)
  {
    w := new Wheel();
    dues := [];
    for i := 0 to |ops|
      invariant w.Valid() && fresh(w) && fresh(w.slots) && w.now == Updates(ops[..i])
      invariant |dues| == i && w.Past() == Story(ops[..i], dues, callbacks) && Told(ops, i, dues, callbacks)
    {
      ghost var due := RunNext(w, ops, i, dues, callbacks);
      dues := dues + [due];
    }
    assert ops[..|ops|] == ops;
  }

  /** Every run: any calls and updates, any callbacks.  Its history is that of the simple rule:
      every call leaves its births in turn, and every update dispatches exactly what is due.  Each
      timer is fired exactly once, at its deadline, if and only if it is neither stuck nor
      cancelled before; the others are never fired. */
  method Run(ops: seq<Op>, callbacks: nat -> seq<Call>) returns (w: Wheel, ghost dues: seq<seq<TimerNode>>)
    ensures w.Valid() && w.now == Updates(ops)
    ensures |dues| == |ops| && w.Past() == Story(ops, dues, callbacks) && Told(ops, |ops|, dues, callbacks)
    ensures Punctual(w.born, w.fired, w.cancelled, w.now)
    ensures |w.born| == |w.loc| + |w.fired| + |w.gone * w.cancelled|
    ensures Accounted(w.Past(), ops, callbacks)
  {
    w, dues := RunAll(ops, callbacks);
    RunEnds(w, ops, dues, callbacks);
  }

  // ---------------------------------------------------------------- what that means for a caller

  /** The call that a birth goes back to. */
  function CauseOf(h: History, s: int): Option<Cause> {
    if 0 <= s < |h.place| && h.place[s] < |h.log| then Some(h.log[h.place[s]]) else None
  }

  /** The calls that come with the addition of a timer, which its callback makes if it runs at once. */
  function NestedIn(h: History, ops: seq<Op>, s: int): seq<Call> {
    match CauseOf(h, s)
    case None => []
    case Some(c) =>
      match CallOf(c, ops, h.asked)
      case Some(Add(_, _, nested)) => nested
      case _ => []
  }

  lemma OneBirth(h: History, ops: seq<Op>, s: int, t: int)
    requires LogOk(h, ops) && BirthsOk(h, ops) && 0 <= s < |h.born| && 0 <= t < |h.born|
    requires CauseOf(h, s) == CauseOf(h, t)
    ensures s == t
  {
    assert BornOf(h, ops, s) && BornOf(h, ops, t);
    assert h.place[s] < h.place[t] ==> InOrder(h.log[h.place[s]], h.log[h.place[t]]);
    assert h.place[t] < h.place[s] ==> InOrder(h.log[h.place[t]], h.log[h.place[s]]);
  }

  /** Every addition, wherever it is asked for, has exactly one birth. */
  lemma AdditionIsBorn(h: History, ops: seq<Op>, callbacks: nat -> seq<Call>, c: Cause) returns (s: nat)
    requires Accounted(h, ops, callbacks)
    requires CallOf(c, ops, h.asked).Some? && CallOf(c, ops, h.asked).value.Add?
    ensures s < |h.born| && CauseOf(h, s) == Some(c)
    ensures
      var call := CallOf(c, ops, h.asked).value;
      h.born[s] == Birth(TickOf(c, ops, h.fired), call.delay, call.id)
    ensures forall t :: 0 <= t < |h.born| && CauseOf(h, t) == Some(c) ==> t == s
  {
    assert c in h.log;
    var q :| 0 <= q < |h.log| && h.log[q] == c;
    assert AddAt(h, ops, q);
    s :| 0 <= s < |h.place| && h.place[s] == q;
    assert BornOf(h, ops, s);
    forall t | 0 <= t < |h.born| && CauseOf(h, t) == Some(c) ensures t == s {
      OneBirth(h, ops, s, t);
    }
  }

  /** Additions of one caller are born in the order of the calls. */
  lemma BornInTurn(h: History, ops: seq<Op>, callbacks: nat -> seq<Call>, s: int, t: int)
    requires Accounted(h, ops, callbacks) && 0 <= s < |h.born| && 0 <= t < |h.born|
    requires
      || (exists i: nat, j: nat :: i < j && CauseOf(h, s) == Some(FromOp(i)) && CauseOf(h, t) == Some(FromOp(j)))
      || (exists k: nat, i: nat, j: nat :: i < j && CauseOf(h, s) == Some(FromCallback(k, i)) && CauseOf(h, t) == Some(FromCallback(k, j)))
    ensures s < t
  {
    assert BornOf(h, ops, s) && BornOf(h, ops, t);
    assert h.place[t] < h.place[s] ==> InOrder(h.log[h.place[t]], h.log[h.place[s]]);
  }

  /** The k-th callback, if it runs at an update: each timer that it asks for is born, at the tick
      at which it runs. */
  lemma CallbackIsServed(h: History, ops: seq<Op>, callbacks: nat -> seq<Call>, k: nat, j: nat) returns (s: nat)
    requires Accounted(h, ops, callbacks) && k < |h.fired| && h.fired[k].serial < |h.born|
    requires h.born[h.fired[k].serial].delay > 0 && j < |callbacks(k)| && callbacks(k)[j].Add?
    ensures s < |h.born| && CauseOf(h, s) == Some(FromCallback(k, j))
    ensures h.born[s] == Birth(h.fired[k].tick, callbacks(k)[j].delay, callbacks(k)[j].id)
  {
    assert MakesItsCalls(h, ops, callbacks, k);
    s := AdditionIsBorn(h, ops, callbacks, FromCallback(k, j));
  }

  /** And if it runs inside add_timer: each timer that came with the addition. */
  lemma NestedIsServed(h: History, ops: seq<Op>, callbacks: nat -> seq<Call>, k: nat, j: nat) returns (s: nat)
    requires Accounted(h, ops, callbacks) && k < |h.fired| && h.fired[k].serial < |h.born|
    requires h.born[h.fired[k].serial].delay <= 0
    requires var nested := NestedIn(h, ops, h.fired[k].serial); j < |nested| && nested[j].Add?
    ensures s < |h.born| && CauseOf(h, s) == Some(FromCallback(k, j))
    ensures
      var call := NestedIn(h, ops, h.fired[k].serial)[j];
      h.born[s] == Birth(h.fired[k].tick, call.delay, call.id)
  {
    assert BornOf(h, ops, h.fired[k].serial);
    assert MakesItsCalls(h, ops, callbacks, k);
    s := AdditionIsBorn(h, ops, callbacks, FromCallback(k, j));
  }

  /** The handle of s is known when this call is made. */
  ghost predicate KnownTo(h: History, s: int, c: Cause) {
    exists q :: 0 <= q < |h.log| && h.log[q] == c && 0 <= s < |h.place| && h.place[s] < q
  }

  /** A timer that the run itself cancels before its deadline never fires. */
  lemma CancelledInTime(h: History, ops: seq<Op>, callbacks: nat -> seq<Call>, now: nat, i: nat, s: nat)
    requires Accounted(h, ops, callbacks) && Punctual(h.born, h.fired, h.cancelled, now)
    requires i < |ops| && ops[i] == Ask(Cancel(s)) && s < |h.born| && KnownTo(h, s, FromOp(i))
    requires Updates(ops[..i]) < h.born[s].Due()
    ensures NeverFired(h.fired, s)
  {
    var q :| 0 <= q < |h.log| && h.log[q] == FromOp(i) && h.place[s] < q;
    assert CancelAt(h, ops, q, s) && BornOf(h, ops, s);
    assert TickOf(h.log[h.place[s]], ops, h.fired) <= TickOf(h.log[q], ops, h.fired);
    assert PunctualAt(h.born[s], h.fired, s in h.cancelled, s, now);
    forall j | 0 <= j < |h.fired| ensures h.fired[j].serial != s {
      assert h.fired[j].serial == s ==> RanBefore(h, ops, j, h.log[q]);
    }
  }

  /** One that a callback cancels has run before that callback, or never does. */
  lemma CancelledByCallback(h: History, ops: seq<Op>, callbacks: nat -> seq<Call>, k: nat, i: nat, s: nat, j: nat)
    requires Accounted(h, ops, callbacks) && k < |h.asked| && i < |h.asked[k]| && h.asked[k][i] == Cancel(s)
    requires s < |h.born| && h.born[s].delay > 0 && KnownTo(h, s, FromCallback(k, i))
    requires j < |h.fired| && h.fired[j].serial == s
    ensures j <= k
  {
    var q :| 0 <= q < |h.log| && h.log[q] == FromCallback(k, i) && h.place[s] < q;
    assert CancelAt(h, ops, q, s) && RanBefore(h, ops, j, h.log[q]);
  }

  /** Whoever cancels a timer that it may know of sets its flag, unless the timer has fired. */
  lemma FlagIsSet(h: History, ops: seq<Op>, callbacks: nat -> seq<Call>, c: Cause, s: nat)
    requires Accounted(h, ops, callbacks) && CallOf(c, ops, h.asked) == Some(Cancel(s)) && KnownTo(h, s, c)
    ensures s in h.cancelled <==> NeverFired(h.fired, s)
  {
    var q :| 0 <= q < |h.log| && h.log[q] == c && h.place[s] < q;
    assert CancelAt(h, ops, q, s);
  }

  /** A timer is known to every later call of the caller that has asked for it. */
  lemma CallerKnows(h: History, ops: seq<Op>, callbacks: nat -> seq<Call>, s: int, c: Cause)
    requires Accounted(h, ops, callbacks) && 0 <= s < |h.born| && CallOf(c, ops, h.asked).Some?
    requires
      || (exists i: nat :: c.FromOp? && i < c.i && CauseOf(h, s) == Some(FromOp(i)))
      || (exists i: nat :: c.FromCallback? && i < c.j && CauseOf(h, s) == Some(FromCallback(c.k, i)))
      || h.born[s].at < TickOf(c, ops, h.fired)
    ensures KnownTo(h, s, c)
  {
    assert c in h.log && BornOf(h, ops, s);
    var q :| 0 <= q < |h.log| && h.log[q] == c;
    OneComesFirst(h, ops, h.place[s], q);
  }

  lemma OneComesFirst(h: History, ops: seq<Op>, p: int, q: int)
    requires LogOk(h, ops) && 0 <= p < |h.log| && 0 <= q < |h.log|
    ensures p <= q || (InOrder(h.log[q], h.log[p]) && TickOf(h.log[q], ops, h.fired) <= TickOf(h.log[p], ops, h.fired))
  {
  }

  /** No flag is set but by a call for that timer. */
  lemma CancelledByACall(h: History, ops: seq<Op>, callbacks: nat -> seq<Call>, s: nat)
    requires Accounted(h, ops, callbacks)
    requires forall i :: 0 <= i < |ops| ==> ops[i] != Ask(Cancel(s))
    requires forall k, j :: 0 <= k < |h.asked| && 0 <= j < |h.asked[k]| ==> h.asked[k][j] != Cancel(s)
    ensures s !in h.cancelled
  {
    forall q ensures !CancelAt(h, ops, q, s) {
    }
  }
}
