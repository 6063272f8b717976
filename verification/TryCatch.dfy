/** The Try / Catch / Finally / EndTry macros of trycatch_finally.c.  A structured program is
    expanded into flat code over a stack of exception frames, where control moves by setjmp and
    longjmp; the expansion does what the structured program means. */
module TryCatch {

  type Exception = nat

  datatype Event = Ran(n: nat) | Uncaught(e: Exception)

  datatype Stmt =
    | Skip
    | Emit(n: nat)
    | Throw(e: Exception)
    | Seq(first: Stmt, second: Stmt)
    | Try(body: Stmt, catches: Catches, last: Last)

  datatype Catches = NoCatch | Catch(e: Exception, handler: Stmt, rest: Catches)
  datatype Last = NoFinally | Finally(cleanup: Stmt)

  // ---------------------------------------------------------------- what a program means

  /** How a statement ends. */
  datatype End = Normal | Raised(e: Exception)
  datatype Outcome = Outcome(events: seq<Event>, end: End)

  /** Inside a Try a throw leaves the statement; outside it is reported and execution goes on. */
  function Throwing(e: Exception, protected: bool): Outcome {
    if protected then Outcome([], Raised(e)) else Outcome([Uncaught(e)], Normal)
  }

  function Then(a: Outcome, b: Outcome): Outcome {
    if a.end.Raised? then a else Outcome(a.events + b.events, b.end)
  }

  function Meaning(s: Stmt, protected: bool): Outcome {
    match s
    case Skip => Outcome([], Normal)
    case Emit(n) => Outcome([Ran(n)], Normal)
    case Throw(e) => Throwing(e, protected)
    case Seq(a, b) => Then(Meaning(a, protected), Meaning(b, protected))
    case Try(body, catches, last) =>
      var r := Meaning(body, true);
      if r.end.Normal? then
        Then(r, Cleanup(last, protected))
      else
        var caught := Handle(catches, r.end.e, protected);
        var tail :=
          if caught.Some?
          then Then(caught.value, Cleanup(last, protected))
          else Then(Cleanup(last, protected), Throwing(r.end.e, protected));
        Outcome(r.events + tail.events, tail.end)
  }

  datatype Option<T> = None | Some(value: T)

  /** The first matching handler. */
  function Handle(catches: Catches, e: Exception, protected: bool): Option<Outcome> {
    match catches
    case NoCatch => None
    case Catch(c, handler, rest) =>
      if c == e then Some(Meaning(handler, protected)) else Handle(rest, e, protected)
  }

  function Cleanup(last: Last, protected: bool): Outcome {
    match last
    case NoFinally => Outcome([], Normal)
    case Finally(cleanup) => Meaning(cleanup, protected)
  }

  /** Outside every Try nothing is ever raised. */
  lemma {:induction false} TopLevelEndsNormally(s: Stmt)
    ensures Meaning(s, false).end == Normal
  {
    match s
    case Skip =>
    case Emit(_) =>
    case Throw(_) =>
    case Seq(a, b) =>
      TopLevelEndsNormally(a);
      TopLevelEndsNormally(b);
    case Try(body, catches, last) =>
      HandlersEndNormally(catches);
      if last.Finally? {
        TopLevelEndsNormally(last.cleanup);
      }
  }

  lemma {:induction false} HandlersEndNormally(catches: Catches)
    ensures forall e :: Handle(catches, e, false).Some? ==> Handle(catches, e, false).value.end == Normal
  {
    if catches.Catch? {
      TopLevelEndsNormally(catches.handler);
      HandlersEndNormally(catches.rest);
    }
  }

  // ---------------------------------------------------------------- the machine

  const NULL := -1

  /** The values of Exception_flag. */
  datatype Flag = Entered | Thrown | Handled | Finalized

  /** One activation of Try: its local frame and flag.  A Try is named by its code address. */
  datatype Frame = Frame(prev: int, env: int, flag: Flag, exception: Exception)

  datatype Instr =
    | DoEmit(n: nat)
    | DoThrow(e: Exception)
    | PushFrame(site: int)                    // frame.prev = top; top = &frame
    | SetJmp(site: int)                       // Exception_flag = setjmp(frame.env)
    | UnlessEntered(site: int, target: int)   // if (Exception_flag == ExceptionEntered) {
    | PopIfEntered(site: int)                 // if (Exception_flag == ExceptionEntered) pop
    | Jump(target: int)                       // } else
    | UnlessCaught(site: int, e: Exception, target: int) // if (frame.exception == &(e)) {
    | MarkHandled(site: int)                  // Exception_flag = ExceptionHandled
    | MarkFinalized(site: int)                // if entered, Exception_flag = ExceptionFinalized
    | RethrowIfThrown(site: int)              // if (Exception_flag == ExceptionThrown) ReThrow

  type Code = seq<Instr>

  datatype Machine = Machine(pc: int, top: int, frames: map<int, Frame>, trace: seq<Event>)

  /** Memory that was never written holds an arbitrary frame. */
  function At(frames: map<int, Frame>, site: int): Frame {
    if site in frames then frames[site] else Frame(NULL, 0, Entered, 0)
  }

  /** ntyExceptionThrow: fill in the top frame, pop it and jump to it; without one, report. */
  function ThrowFrom(m: Machine, e: Exception): Machine {
    if m.top == NULL then m.(pc := m.pc + 1, trace := m.trace + [Uncaught(e)])
    else
      var f := At(m.frames, m.top);
      Machine(f.env, f.prev, m.frames[m.top := f.(exception := e, flag := Thrown)], m.trace)
  }

  function Step(code: Code, m: Machine): Machine
    requires 0 <= m.pc < |code|
  {
    var next := m.(pc := m.pc + 1);
    match code[m.pc]
    case DoEmit(n) => next.(trace := m.trace + [Ran(n)])
    case DoThrow(e) => ThrowFrom(m, e)
    case PushFrame(site) =>
      next.(top := site, frames := m.frames[site := At(m.frames, site).(prev := m.top)])
    case SetJmp(site) =>
      next.(frames := m.frames[site := At(m.frames, site).(env := m.pc + 1, flag := Entered)])
    case UnlessEntered(site, target) =>
      if At(m.frames, site).flag == Entered then next else m.(pc := target)
    case PopIfEntered(site) =>
      if At(m.frames, site).flag == Entered then next.(top := At(m.frames, m.top).prev) else next
    case Jump(target) => m.(pc := target)
    case UnlessCaught(site, e, target) =>
      if At(m.frames, site).exception == e then next else m.(pc := target)
    case MarkHandled(site) =>
      next.(frames := m.frames[site := At(m.frames, site).(flag := Handled)])
    case MarkFinalized(site) =>
      if At(m.frames, site).flag == Entered
      then next.(frames := m.frames[site := At(m.frames, site).(flag := Finalized)])
      else next
    case RethrowIfThrown(site) =>
      if At(m.frames, site).flag == Thrown then ThrowFrom(m, At(m.frames, site).exception) else next
  }

  /** Whether n steps lead from one state to another. */
  ghost predicate Runs(code: Code, m: Machine, n: nat, m': Machine)
    decreases n
  {
    if n == 0 then m == m'
    else 0 <= m.pc < |code| && Runs(code, Step(code, m), n - 1, m')
  }

  ghost predicate Leads(code: Code, m: Machine, m': Machine) {
    exists n: nat :: Runs(code, m, n, m')
  }

  lemma {:induction false} RunsThen(code: Code, a: Machine, n: nat, b: Machine, k: nat, c: Machine)
    requires Runs(code, a, n, b) && Runs(code, b, k, c)
    ensures Runs(code, a, n + k, c)
    decreases n
  {
    if n > 0 {
      RunsThen(code, Step(code, a), n - 1, b, k, c);
    }
  }

  lemma LeadsThen(code: Code, a: Machine, b: Machine, c: Machine)
    requires Leads(code, a, b) && Leads(code, b, c)
    ensures Leads(code, a, c)
  {
    var n: nat :| Runs(code, a, n, b);
    var k: nat :| Runs(code, b, k, c);
    RunsThen(code, a, n, b, k, c);
  }

  lemma LeadsStep(code: Code, m: Machine, m': Machine)
    requires 0 <= m.pc < |code| && m' == Step(code, m)
    ensures Leads(code, m, m')
  {
    assert Runs(code, m', 0, m');
    assert Runs(code, m, 1, m');
  }

  lemma LeadsSelf(code: Code, m: Machine)
    ensures Leads(code, m, m)
  {
    assert Runs(code, m, 0, m);
  }

  // ---------------------------------------------------------------- the macro expansion

  function Size(s: Stmt): nat {
    match s
    case Skip => 0
    case Emit(_) => 1
    case Throw(_) => 1
    case Seq(a, b) => Size(a) + Size(b)
    case Try(body, catches, last) => 3 + Size(body) + 2 + SizeCatches(catches) + SizeLast(last) + 1
  }

  function SizeCatches(catches: Catches): nat {
    match catches
    case NoCatch => 0
    case Catch(_, handler, rest) => 2 + Size(handler) + 2 + SizeCatches(rest)
  }

  function SizeLast(last: Last): nat {
    match last
    case NoFinally => 0
    case Finally(cleanup) => 1 + Size(cleanup) + 1
  }

  /** Try { */
  function Opening(site: int, catchesAt: int): (code: Code)
    ensures |code| == 3
  {
    [PushFrame(site), SetJmp(site), UnlessEntered(site, catchesAt)]
  }

  /** The end of a block: the first line of Catch, Finally or EndTry. */
  function Leaving(site: int, end: int): (code: Code)
    ensures |code| == 2
  {
    [PopIfEntered(site), Jump(end)]
  }

  /** The last line of EndTry. */
  function Closing(site: int): (code: Code)
    ensures |code| == 1
  {
    [RethrowIfThrown(site)]
  }

  function Six(a: Code, b: Code, c: Code, d: Code, e: Code, f: Code): (code: Code)
    ensures |code| == |a| + |b| + |c| + |d| + |e| + |f|
  {
    a + b + c + d + e + f
  }

  /** The code of a statement placed at `at`. */
  function Expand(s: Stmt, at: int): (code: Code)
    ensures |code| == Size(s)
  {
    match s
    case Skip => []
    case Emit(n) => [DoEmit(n)]
    case Throw(e) => [DoThrow(e)]
    case Seq(a, b) => Expand(a, at) + Expand(b, at + Size(a))
    case Try(body, catches, last) =>
      var catchesAt := at + 3 + Size(body) + 2;
      var lastAt := catchesAt + SizeCatches(catches);
      Six(Opening(at, catchesAt), Expand(body, at + 3), Leaving(at, lastAt),
          ExpandCatches(catches, at, catchesAt, lastAt), ExpandLast(last, at, lastAt), Closing(at))
  }

  /** The else-if chain of the Catch macros. */
  function ExpandCatches(catches: Catches, site: int, at: int, end: int): (code: Code)
    ensures |code| == SizeCatches(catches)
  {
    match catches
    case NoCatch => []
    case Catch(e, handler, rest) =>
      var restAt := at + 2 + Size(handler) + 2;
      [UnlessCaught(site, e, restAt), MarkHandled(site)]
      + Expand(handler, at + 2)
      + Leaving(site, end)
      + ExpandCatches(rest, site, restAt, end)
  }

  /** The block that the Finally macro opens. */
  function ExpandLast(last: Last, site: int, at: int): (code: Code)
    ensures |code| == SizeLast(last)
  {
    match last
    case NoFinally => []
    case Finally(cleanup) => [MarkFinalized(site)] + Expand(cleanup, at + 1) + [PopIfEntered(site)]
  }

  ghost predicate Placed(code: Code, at: int, part: Code) {
    0 <= at && forall i {:trigger part[i]} :: 0 <= i < |part| ==> at + i < |code| && code[at + i] == part[i]
  }

  /** The instruction at an address. */
  lemma Fetch(code: Code, at: int, part: Code, i: int)
    requires Placed(code, at, part) && 0 <= i < |part|
    ensures 0 <= at + i < |code| && code[at + i] == part[i]
  {
    var line := part[i];
  }

  lemma PlacedSplit(code: Code, at: int, a: Code, b: Code)
    requires Placed(code, at, a + b)
    ensures Placed(code, at, a) && Placed(code, at + |a|, b)
  {
    if a != [] {
      Fetch(code, at, a + b, |a| - 1);
    }
    if b != [] {
      Fetch(code, at, a + b, |a + b| - 1);
    }
    forall i | 0 <= i < |a| ensures code[at + i] == a[i] {
      Fetch(code, at, a + b, i);
    }
    forall i | 0 <= i < |b| ensures code[at + |a| + i] == b[i] {
      Fetch(code, at, a + b, |a| + i);
    }
  }

  // ---------------------------------------------------------------- the expansion is correct

  /** Frames of Trys that lie outside a stretch of code are as they were. */
  ghost predicate SameOutside(f: map<int, Frame>, f': map<int, Frame>, from: int, to: int) {
    forall site :: !(from <= site < to) ==> At(f', site) == At(f, site)
  }

  /** The machine state after a statement at [from, to) that started in m and ended like r: either
      just behind the code with the old top frame, or at the top frame's saved point, popped and
      marked thrown. */
  ghost predicate EndsLike(m: Machine, m': Machine, r: Outcome, from: int, to: int) {
    && m'.trace == m.trace + r.events
    && match r.end
       case Normal => m'.pc == to && m'.top == m.top && SameOutside(m.frames, m'.frames, from, to)
       case Raised(e) =>
         && m.top != NULL
         && m'.pc == At(m.frames, m.top).env && m'.top == At(m.frames, m.top).prev
         && At(m'.frames, m.top) == At(m.frames, m.top).(exception := e, flag := Thrown)
         && (forall site :: !(from <= site < to) && site != m.top ==> At(m'.frames, site) == At(m.frames, site))
  }

  /** The top frame, if there is one, belongs to a Try around the code. */
  ghost predicate TopOutside(m: Machine, from: int, to: int) {
    m.top == NULL || !(from <= m.top < to)
  }

  /** A stretch that has run normally so far, followed by a part of it. */
  lemma Prefix(m: Machine, m1: Machine, m2: Machine, events: seq<Event>, r: Outcome,
               from: int, to: int, from': int, to': int)
    requires m1.top == m.top && TopOutside(m, from, to) && SameOutside(m.frames, m1.frames, from, to)
    requires m1.trace == m.trace + events && EndsLike(m1, m2, r, from', to')
    requires from <= from' <= to' <= to && (r.end.Normal? ==> to' == to)
    ensures EndsLike(m, m2, Outcome(events + r.events, r.end), from, to)
  {
    assert m.trace + (events + r.events) == m.trace + events + r.events;
  }

  /** A throw, or a rethrow, in state m. */
  lemma ThrowEndsLike(code: Code, m: Machine, e: Exception, protected: bool, from: int, to: int)
    requires protected <==> m.top != NULL
    requires from <= m.pc && m.pc + 1 == to
    ensures EndsLike(m, ThrowFrom(m, e), Throwing(e, protected), from, to)
  {
    assert m.trace + [] == m.trace;
  }

  /** What the frame of a Try holds while its blocks are gone through: the top is as before the
      Try, and only code inside [from, to) has run. */
  ghost predicate Within(m: Machine, m': Machine, events: seq<Event>, site: int, flag: Flag, from: int, to: int) {
    && m'.top == m.top && m'.trace == m.trace + events
    && SameOutside(m.frames, m'.frames, from, to)
    && At(m'.frames, site).flag == flag
  }

  lemma {:induction false} Simulate(code: Code, s: Stmt, at: int, protected: bool, m: Machine) returns (m': Machine)
    requires Placed(code, at, Expand(s, at)) && m.pc == at
    requires protected <==> m.top != NULL
    requires TopOutside(m, at, at + Size(s))
    ensures Leads(code, m, m') && EndsLike(m, m', Meaning(s, protected), at, at + Size(s))
    decreases s, 1
  {
    match s
    case Skip =>
      m' := m;
      LeadsSelf(code, m);
      assert m.trace + [] == m.trace;
    case Emit(n) =>
      Fetch(code, at, [DoEmit(n)], 0);
      m' := Step(code, m);
      LeadsStep(code, m, m');
    case Throw(e) =>
      Fetch(code, at, [DoThrow(e)], 0);
      m' := Step(code, m);
      LeadsStep(code, m, m');
      ThrowEndsLike(code, m, e, protected, at, at + 1);
    case Seq(a, b) =>
      PlacedSplit(code, at, Expand(a, at), Expand(b, at + Size(a)));
      m' := SimulateSeq(code, a, b, at, protected, m);
    case Try(body, catches, last) =>
      m' := SimulateTry(code, body, catches, last, at, protected, m);
  }

  lemma {:induction false} SimulateSeq(code: Code, a: Stmt, b: Stmt, at: int, protected: bool, m: Machine)
    returns (m': Machine)
    requires Placed(code, at, Expand(a, at)) && Placed(code, at + Size(a), Expand(b, at + Size(a))) && m.pc == at
    requires protected <==> m.top != NULL
    requires TopOutside(m, at, at + Size(a) + Size(b))
    ensures Leads(code, m, m')
    ensures EndsLike(m, m', Then(Meaning(a, protected), Meaning(b, protected)), at, at + Size(a) + Size(b))
    decreases Seq(a, b), 0
  {
    var m1 := Simulate(code, a, at, protected, m);
    if Meaning(a, protected).end.Normal? {
      m' := SimulateSecond(code, b, at, at + Size(a), protected, m, m1, Meaning(a, protected));
      LeadsThen(code, m, m1, m');
    } else {
      m' := m1;
    }
  }

  /** A statement behind one that has ended normally, like r. */
  lemma {:induction false} SimulateSecond(code: Code, b: Stmt, from: int, at: int, protected: bool,
                                          m: Machine, m1: Machine, r: Outcome) returns (m': Machine)
    requires Placed(code, at, Expand(b, at)) && from <= at
    requires protected <==> m.top != NULL
    requires TopOutside(m, from, at + Size(b))
    requires r.end.Normal? && EndsLike(m, m1, r, from, at)
    ensures Leads(code, m1, m')
    ensures EndsLike(m, m', Then(r, Meaning(b, protected)), from, at + Size(b))
    decreases b, 2
  {
    m' := Simulate(code, b, at, protected, m1);
    Prefix(m, m1, m', r.events, Meaning(b, protected), from, at + Size(b), at, at + Size(b));
  }

  /** Opening a Try: the new frame is on top and its saved point is the test of the flag. */
  lemma EnterTry(code: Code, site: int, catchesAt: int, m: Machine) returns (m3: Machine)
    requires Placed(code, site, Opening(site, catchesAt)) && m.pc == site
    ensures Leads(code, m, m3)
    ensures m3.pc == site + 3 && m3.top == site && m3.trace == m.trace
    ensures SameOutside(m.frames, m3.frames, site, site + 1)
    ensures At(m3.frames, site).prev == m.top && At(m3.frames, site).env == site + 2
    ensures At(m3.frames, site).flag == Entered
  {
    Fetch(code, site, Opening(site, catchesAt), 0);
    Fetch(code, site, Opening(site, catchesAt), 1);
    Fetch(code, site, Opening(site, catchesAt), 2);
    var m1 := Step(code, m);
    LeadsStep(code, m, m1);
    var m2 := Step(code, m1);
    LeadsStep(code, m1, m2);
    LeadsThen(code, m, m1, m2);
    m3 := Step(code, m2);
    LeadsStep(code, m2, m3);
    LeadsThen(code, m, m2, m3);
  }

  /** Leaving a block of the Try: pop if the frame is still entered, and jump behind the chain. */
  lemma LeaveBlock(code: Code, site: int, at: int, end: int, m: Machine) returns (m2: Machine)
    requires Placed(code, at, Leaving(site, end)) && m.pc == at
    requires At(m.frames, site).flag == Entered ==> m.top == site
    ensures Leads(code, m, m2)
    ensures
      var top := if At(m.frames, site).flag == Entered then At(m.frames, site).prev else m.top;
      m2 == Machine(end, top, m.frames, m.trace)
  {
    Fetch(code, at, Leaving(site, end), 0);
    Fetch(code, at, Leaving(site, end), 1);
    var m1 := Step(code, m);
    LeadsStep(code, m, m1);
    m2 := Step(code, m1);
    LeadsStep(code, m1, m2);
    LeadsThen(code, m, m1, m2);
  }

  lemma PlacedSix(code: Code, at: int, a: Code, b: Code, c: Code, d: Code, e: Code, f: Code)
    requires Placed(code, at, Six(a, b, c, d, e, f))
    ensures Placed(code, at, a) && Placed(code, at + |a|, b) && Placed(code, at + |a| + |b|, c)
    ensures Placed(code, at + |a| + |b| + |c|, d) && Placed(code, at + |a| + |b| + |c| + |d|, e)
    ensures Placed(code, at + |a| + |b| + |c| + |d| + |e|, f)
  {
    PlacedSplit(code, at, a + b + c + d + e, f);
    PlacedSplit(code, at, a + b + c + d, e);
    PlacedSplit(code, at, a + b + c, d);
    PlacedSplit(code, at, a + b, c);
    PlacedSplit(code, at, a, b);
  }

  lemma PlacedAtSix(code: Code, at: int, a: Code, b: Code, c: Code, d: Code, e: Code, f: Code,
                    bAt: int, cAt: int, dAt: int, eAt: int, fAt: int)
    requires Placed(code, at, Six(a, b, c, d, e, f))
    requires bAt == at + |a| && cAt == bAt + |b| && dAt == cAt + |c| && eAt == dAt + |d| && fAt == eAt + |e|
    ensures Placed(code, at, a) && Placed(code, bAt, b) && Placed(code, cAt, c)
    ensures Placed(code, dAt, d) && Placed(code, eAt, e) && Placed(code, fAt, f)
  {
    PlacedSix(code, at, a, b, c, d, e, f);
  }

  /** The six parts of an expanded Try. */
  ghost predicate TryParts(code: Code, body: Stmt, catches: Catches, last: Last, at: int) {
    var catchesAt := at + 3 + Size(body) + 2;
    var lastAt := catchesAt + SizeCatches(catches);
    && Placed(code, at, Opening(at, catchesAt))
    && Placed(code, at + 3, Expand(body, at + 3))
    && Placed(code, at + 3 + Size(body), Leaving(at, lastAt))
    && Placed(code, catchesAt, ExpandCatches(catches, at, catchesAt, lastAt))
    && Placed(code, lastAt, ExpandLast(last, at, lastAt))
    && Placed(code, lastAt + SizeLast(last), Closing(at))
  }

  lemma PlacedTry(code: Code, body: Stmt, catches: Catches, last: Last, at: int)
    requires Placed(code, at, Expand(Try(body, catches, last), at))
    ensures TryParts(code, body, catches, last, at)
  {
    var catchesAt := at + 3 + Size(body) + 2;
    var lastAt := catchesAt + SizeCatches(catches);
    PlacedAtSix(code, at, Opening(at, catchesAt), Expand(body, at + 3), Leaving(at, lastAt),
                ExpandCatches(catches, at, catchesAt, lastAt), ExpandLast(last, at, lastAt), Closing(at),
                at + 3, at + 3 + Size(body), catchesAt, lastAt, lastAt + SizeLast(last));
  }

  /** A Try up to the end of its body: behind the chain and popped, or at the chain, popped by the
      throw and marked thrown. */
  lemma {:induction false} RunBody(code: Code, body: Stmt, catches: Catches, last: Last, at: int, m: Machine)
    returns (m5: Machine)
    requires TryParts(code, body, catches, last, at) && at >= 0 && m.pc == at
    ensures Leads(code, m, m5)
    ensures
      var r := Meaning(body, true);
      var catchesAt := at + 3 + Size(body) + 2;
      if r.end.Normal? then
        m5.pc == catchesAt + SizeCatches(catches) && Within(m, m5, r.events, at, Entered, at, catchesAt)
      else
        && m5.pc == catchesAt && Within(m, m5, r.events, at, Thrown, at, catchesAt)
        && At(m5.frames, at).exception == r.end.e
    decreases body, 2
  {
    var catchesAt := at + 3 + Size(body) + 2;
    var lastAt := catchesAt + SizeCatches(catches);
    var m3 := EnterTry(code, at, catchesAt, m);
    var m4 := Simulate(code, body, at + 3, true, m3);
    LeadsThen(code, m, m3, m4);
    if Meaning(body, true).end.Normal? {
      m5 := LeaveBlock(code, at, at + 3 + Size(body), lastAt, m4);
      LeadsThen(code, m, m4, m5);
    } else {
      Fetch(code, at, Opening(at, catchesAt), 2);
      m5 := Step(code, m4);
      LeadsStep(code, m4, m5);
      LeadsThen(code, m, m4, m5);
    }
  }

  /** The whole Try: the body, then the block that its end selects, then the rethrow test. */
  lemma {:induction false} SimulateTry(code: Code, body: Stmt, catches: Catches, last: Last, at: int,
                                       protected: bool, m: Machine) returns (m': Machine)
    requires Placed(code, at, Expand(Try(body, catches, last), at)) && m.pc == at
    requires protected <==> m.top != NULL
    requires TopOutside(m, at, at + Size(Try(body, catches, last)))
    ensures Leads(code, m, m')
    ensures EndsLike(m, m', Meaning(Try(body, catches, last), protected), at, at + Size(Try(body, catches, last)))
    decreases Try(body, catches, last), 0
  {
    var lastAt := at + 3 + Size(body) + 2 + SizeCatches(catches);
    PlacedTry(code, body, catches, last, at);
    var m5 := RunBody(code, body, catches, last, at, m);
    var r := Meaning(body, true);
    if r.end.Normal? {
      m' := SimulateEnd(code, last, at, lastAt, protected, m, m5, r.events, Entered, 0);
    } else {
      m' := SimulateRaised(code, body, catches, last, at, protected, m, m5, r.events, r.end.e);
    }
    LeadsThen(code, m, m5, m');
  }

  lemma HandledWithin(m: Machine, m5: Machine, m6: Machine, events: seq<Event>, more: seq<Event>,
                      site: int, at: int, end: int)
    requires site < at <= end && Within(m, m5, events, site, Thrown, site, at)
    requires m6.trace == m5.trace + more && m6.top == m5.top
    requires forall x :: !(at <= x < end) && x != site ==> At(m6.frames, x) == At(m5.frames, x)
    requires At(m6.frames, site).flag == Handled
    ensures Within(m, m6, events + more, site, Handled, site, end)
  {
    assert m.trace + events + more == m.trace + (events + more);
  }

  /** The part of a Try behind a handler that ended normally. */
  lemma {:induction false} SimulateHandled(code: Code, last: Last, site: int, at: int, end: int, protected: bool,
                                           m: Machine, m5: Machine, m6: Machine,
                                           events: seq<Event>, o: Outcome, e: Exception) returns (m': Machine)
    requires Placed(code, end, ExpandLast(last, site, end)) && Placed(code, end + SizeLast(last), Closing(site))
    requires protected <==> m.top != NULL
    requires site < at <= end && TopOutside(m, site, end + SizeLast(last) + 1)
    requires Within(m, m5, events, site, Thrown, site, at)
    requires HandledLike(m5, m6, o, site, at, end) && o.end.Normal?
    ensures Leads(code, m6, m')
    ensures
      var tail := Then(o, Cleanup(last, protected));
      EndsLike(m, m', Outcome(events + tail.events, tail.end), site, end + SizeLast(last) + 1)
    decreases last, 1
  {
    HandledWithin(m, m5, m6, events, o.events, site, at, end);
    m' := SimulateEnd(code, last, site, end, protected, m, m6, events + o.events, Handled, e);
    assert events + o.events + Cleanup(last, protected).events == events + (o.events + Cleanup(last, protected).events);
  }

  /** The part of a Try after its body has thrown. */
  lemma {:induction false} SimulateRaised(code: Code, body: Stmt, catches: Catches, last: Last, at: int,
                                          protected: bool, m: Machine, m5: Machine,
                                          events: seq<Event>, e: Exception) returns (m': Machine)
    requires TryParts(code, body, catches, last, at) && at >= 0
    requires protected <==> m.top != NULL
    requires TopOutside(m, at, at + Size(Try(body, catches, last)))
    requires m5.pc == at + 3 + Size(body) + 2 && At(m5.frames, at).exception == e
    requires Within(m, m5, events, at, Thrown, at, at + 3 + Size(body) + 2)
    ensures Leads(code, m5, m')
    ensures
      var caught := Handle(catches, e, protected);
      var tail := if caught.Some? then Then(caught.value, Cleanup(last, protected))
                  else Then(Cleanup(last, protected), Throwing(e, protected));
      EndsLike(m, m', Outcome(events + tail.events, tail.end), at, at + Size(Try(body, catches, last)))
    decreases Try(body, catches, last), 0, 0
  {
    var catchesAt := at + 3 + Size(body) + 2;
    var lastAt := catchesAt + SizeCatches(catches);
    var to := at + Size(Try(body, catches, last));
    var caught := Handle(catches, e, protected);
    var m6 := SimulateCatches(code, catches, at, catchesAt, lastAt, protected, m5);
    if caught.None? {
      m' := SimulateEnd(code, last, at, lastAt, protected, m, m6, events, Thrown, e);
      LeadsThen(code, m5, m6, m');
    } else if caught.value.end.Normal? {
      m' := SimulateHandled(code, last, at, catchesAt, lastAt, protected, m, m5, m6, events, caught.value, e);
      LeadsThen(code, m5, m6, m');
    } else {
      m' := m6;
      Prefix(m, m5, m6, events, caught.value, at, to, at, lastAt);
    }
  }

  lemma PlacedFour(code: Code, at: int, a: Code, b: Code, c: Code, d: Code)
    requires Placed(code, at, a + b + c + d)
    ensures Placed(code, at, a) && Placed(code, at + |a|, b) && Placed(code, at + |a| + |b|, c)
    ensures Placed(code, at + |a| + |b| + |c|, d)
  {
    PlacedSplit(code, at, a + b + c, d);
    PlacedSplit(code, at, a + b, c);
    PlacedSplit(code, at, a, b);
  }

  lemma CatchParts(code: Code, e: Exception, handler: Stmt, rest: Catches, site: int, at: int, end: int)
    requires Placed(code, at, ExpandCatches(Catch(e, handler, rest), site, at, end))
    ensures
      var restAt := at + 2 + Size(handler) + 2;
      && 0 <= at && at + 1 < |code|
      && code[at] == UnlessCaught(site, e, restAt) && code[at + 1] == MarkHandled(site)
      && Placed(code, at + 2, Expand(handler, at + 2)) && Placed(code, at + 2 + Size(handler), Leaving(site, end))
      && Placed(code, restAt, ExpandCatches(rest, site, restAt, end))
  {
    var restAt := at + 2 + Size(handler) + 2;
    var test := [UnlessCaught(site, e, restAt), MarkHandled(site)];
    var leave := Leaving(site, end);
    var chain := ExpandCatches(rest, site, restAt, end);
    PlacedFour(code, at, test, Expand(handler, at + 2), leave, chain);
    Fetch(code, at, test, 0);
    Fetch(code, at, test, 1);
  }

  /** A handler has run like o: behind the chain with the exception handled, or out of the Try. */
  ghost predicate HandledLike(m: Machine, m': Machine, o: Outcome, site: int, at: int, end: int) {
    && m'.trace == m.trace + o.events
    && (o.end.Normal? ==>
          && m'.pc == end && m'.top == m.top
          && (forall x :: !(at <= x < end) && x != site ==> At(m'.frames, x) == At(m.frames, x))
          && At(m'.frames, site) == At(m.frames, site).(flag := Handled))
    && (o.end.Raised? ==> EndsLike(m, m', o, site, end))
  }

  ghost predicate ChainLike(m: Machine, m': Machine, caught: Option<Outcome>, site: int, at: int, end: int) {
    match caught
    case None => m' == m.(pc := end)
    case Some(o) => HandledLike(m, m', o, site, at, end)
  }

  /** The part of the chain behind a test that fails. */
  lemma ChainWider(m: Machine, m1: Machine, m': Machine, caught: Option<Outcome>, site: int, at: int, at': int, end: int)
    requires ChainLike(m1, m', caught, site, at', end) && at <= at' && m1 == m.(pc := at')
    ensures ChainLike(m, m', caught, site, at, end)
  {
  }

  /** The else-if chain, entered with the exception thrown: the first matching handler runs and
      control goes behind the chain; without one, control falls through unchanged. */
  lemma {:induction false} SimulateCatches(code: Code, catches: Catches, site: int, at: int, end: int,
                                           protected: bool, m: Machine) returns (m': Machine)
    requires Placed(code, at, ExpandCatches(catches, site, at, end)) && m.pc == at
    requires end == at + SizeCatches(catches)
    requires protected <==> m.top != NULL
    requires 0 <= site < at && TopOutside(m, site, end)
    requires At(m.frames, site).flag == Thrown
    ensures Leads(code, m, m')
    ensures ChainLike(m, m', Handle(catches, At(m.frames, site).exception, protected), site, at, end)
    decreases catches
  {
    match catches
    case NoCatch =>
      m' := m;
      LeadsSelf(code, m);
    case Catch(e, handler, rest) =>
      var restAt := at + 2 + Size(handler) + 2;
      CatchParts(code, e, handler, rest, site, at, end);
      var m1 := Step(code, m);
      LeadsStep(code, m, m1);
      if At(m.frames, site).exception == e {
        m' := SimulateHandler(code, handler, site, at, end, protected, m, m1);
      } else {
        m' := SimulateCatches(code, rest, site, restAt, end, protected, m1);
        ChainWider(m, m1, m', Handle(rest, At(m.frames, site).exception, protected), site, at, restAt, end);
      }
      LeadsThen(code, m, m1, m');
  }

  /** The handler that the chain selected. */
  lemma {:induction false} SimulateHandler(code: Code, handler: Stmt, site: int, at: int, end: int,
                                           protected: bool, m: Machine, m1: Machine) returns (m': Machine)
    requires 0 <= at + 1 < |code| && code[at + 1] == MarkHandled(site) && m1 == m.(pc := at + 1)
    requires Placed(code, at + 2, Expand(handler, at + 2))
    requires Placed(code, at + 2 + Size(handler), Leaving(site, end))
    requires at + 2 + Size(handler) + 2 <= end
    requires protected <==> m.top != NULL
    requires 0 <= site < at && TopOutside(m, site, end)
    ensures Leads(code, m1, m')
    ensures HandledLike(m, m', Meaning(handler, protected), site, at, end)
    decreases handler, 2
  {
    var m2 := Step(code, m1);
    LeadsStep(code, m1, m2);
    var m3 := Simulate(code, handler, at + 2, protected, m2);
    LeadsThen(code, m1, m2, m3);
    var o := Meaning(handler, protected);
    if o.end.Normal? {
      m' := LeaveBlock(code, site, at + 2 + Size(handler), end, m3);
      LeadsThen(code, m1, m3, m');
    } else {
      m' := m3;
      Prefix(m, m2, m3, [], o, site, end, at + 2, at + 2 + Size(handler));
      assert [] + o.events == o.events;
    }
  }

  /** The Finally block and the rethrow test. */
  lemma {:induction false} SimulateEnd(code: Code, last: Last, site: int, at: int, protected: bool,
                                       m: Machine, m1: Machine, events: seq<Event>, flag: Flag, e: Exception)
    returns (m': Machine)
    requires Placed(code, at, ExpandLast(last, site, at)) && Placed(code, at + SizeLast(last), Closing(site))
    requires protected <==> m.top != NULL
    requires site < at && TopOutside(m, site, at + SizeLast(last) + 1)
    requires m1.pc == at && Within(m, m1, events, site, flag, site, at)
    requires flag != Finalized && (flag == Thrown ==> At(m1.frames, site).exception == e)
    ensures Leads(code, m1, m')
    ensures
      var tail := if flag == Thrown then Then(Cleanup(last, protected), Throwing(e, protected))
                  else Cleanup(last, protected);
      EndsLike(m, m', Outcome(events + tail.events, tail.end), site, at + SizeLast(last) + 1)
    decreases last, 0
  {
    var to := at + SizeLast(last) + 1;
    var r := Cleanup(last, protected);
    var m2;
    match last {
      case NoFinally =>
        m2 := m1;
        LeadsSelf(code, m1);
      case Finally(cleanup) =>
        m2 := SimulateFinally(code, cleanup, site, at, protected, m1, flag);
    }
    if r.end.Normal? {
      Fetch(code, at + SizeLast(last), Closing(site), 0);
      m' := Step(code, m2);
      LeadsStep(code, m2, m');
      LeadsThen(code, m1, m2, m');
      assert m.trace + events + r.events == m.trace + (events + r.events);
      if flag == Thrown {
        ThrowEndsLike(code, m2, e, protected, site, to);
        Prefix(m, m2, m', events + r.events, Throwing(e, protected), site, to, site, to);
        assert events + r.events + Throwing(e, protected).events == events + (r.events + Throwing(e, protected).events);
      }
    } else {
      m' := m2;
      Prefix(m, m1, m', events, r, site, to, site, at + SizeLast(last));
    }
  }

  lemma FinallyParts(code: Code, cleanup: Stmt, site: int, at: int)
    requires Placed(code, at, ExpandLast(Finally(cleanup), site, at))
    ensures 0 <= at < |code| && code[at] == MarkFinalized(site)
    ensures Placed(code, at + 1, Expand(cleanup, at + 1))
    ensures at + 1 + Size(cleanup) < |code| && code[at + 1 + Size(cleanup)] == PopIfEntered(site)
  {
    PlacedSplit(code, at, [MarkFinalized(site)] + Expand(cleanup, at + 1), [PopIfEntered(site)]);
    PlacedSplit(code, at, [MarkFinalized(site)], Expand(cleanup, at + 1));
    Fetch(code, at, [MarkFinalized(site)], 0);
    Fetch(code, at + 1 + Size(cleanup), [PopIfEntered(site)], 0);
  }

  lemma MarkFinally(code: Code, site: int, at: int, m: Machine) returns (m1: Machine)
    requires 0 <= at < |code| && code[at] == MarkFinalized(site) && m.pc == at && site < at
    ensures Leads(code, m, m1) && m1.pc == at + 1 && m1.top == m.top && m1.trace == m.trace
    ensures forall x :: x != site ==> At(m1.frames, x) == At(m.frames, x)
    ensures
      var flag := At(m.frames, site).flag;
      At(m1.frames, site) == At(m.frames, site).(flag := if flag == Entered then Finalized else flag)
  {
    m1 := Step(code, m);
    LeadsStep(code, m, m1);
  }

  lemma {:induction false} SimulateFinally(code: Code, cleanup: Stmt, site: int, at: int, protected: bool,
                                           m: Machine, flag: Flag) returns (m': Machine)
    requires Placed(code, at, ExpandLast(Finally(cleanup), site, at)) && m.pc == at
    requires protected <==> m.top != NULL
    requires site < at && TopOutside(m, site, at + SizeLast(Finally(cleanup)))
    requires At(m.frames, site).flag == flag && flag != Finalized
    ensures Leads(code, m, m')
    ensures EndsLike(m, m', Meaning(cleanup, protected), site, at + SizeLast(Finally(cleanup)))
    ensures Meaning(cleanup, protected).end.Normal? ==>
      At(m'.frames, site) == At(m.frames, site).(flag := if flag == Entered then Finalized else flag)
    decreases cleanup, 2
  {
    var behind := at + 1 + Size(cleanup);
    FinallyParts(code, cleanup, site, at);
    var m1 := MarkFinally(code, site, at, m);
    var m2 := Simulate(code, cleanup, at + 1, protected, m1);
    LeadsThen(code, m, m1, m2);
    var r := Meaning(cleanup, protected);
    Prefix(m, m1, m2, [], r, site, behind, at + 1, behind);
    assert [] + r.events == r.events;
    m' := LeaveFinally(code, r, site, behind, m, m2);
  }

  /** The pop behind the block, which is not taken: the flag is no longer Entered. */
  lemma LeaveFinally(code: Code, r: Outcome, site: int, at: int, m: Machine, m2: Machine) returns (m': Machine)
    requires 0 <= at < |code| && code[at] == PopIfEntered(site) && site < at
    requires Leads(code, m, m2) && EndsLike(m, m2, r, site, at)
    requires r.end.Normal? ==> At(m2.frames, site).flag != Entered
    ensures Leads(code, m, m') && EndsLike(m, m', r, site, at + 1)
    ensures r.end.Normal? ==> At(m'.frames, site) == At(m2.frames, site)
  {
    if r.end.Normal? {
      m' := Step(code, m2);
      LeadsStep(code, m2, m');
      LeadsThen(code, m, m2, m');
    } else {
      m' := m2;
    }
  }

  /** Every program, run from its first instruction outside any Try, reaches its end with exactly
      the events it means and with the frame stack it started with. */
  lemma ExpansionKeepsMeaning(p: Stmt, m: Machine) returns (m': Machine)
    requires m.pc == 0 && m.top == NULL
    ensures Leads(Expand(p, 0), m, m')
    ensures m'.pc == Size(p) && m'.top == NULL && m'.trace == m.trace + Meaning(p, false).events
  {
    TopLevelEndsNormally(p);
    m' := Simulate(Expand(p, 0), p, 0, false, m);
  }

  // ---------------------------------------------------------------- what the meaning promises

  /** The Finally block runs in every way out of a Try but one: a handler that throws out. */
  lemma FinallyRuns(body: Stmt, catches: Catches, cleanup: Stmt, protected: bool)
    ensures
      var r := Meaning(body, true);
      var whole := Meaning(Try(body, catches, Finally(cleanup)), protected);
      var caught := if r.end.Raised? then Handle(catches, r.end.e, protected) else None;
      if caught.Some? && caught.value.end.Raised? then
        whole == Outcome(r.events + caught.value.events, caught.value.end)
      else
        var before := if caught.Some? then r.events + caught.value.events else r.events;
        var after := if r.end.Raised? && caught.None? && Meaning(cleanup, protected).end.Normal?
                     then Throwing(r.end.e, protected) else Outcome([], Normal);
        && whole.events == before + Meaning(cleanup, protected).events + after.events
        && whole.end == (if Meaning(cleanup, protected).end.Raised? then Meaning(cleanup, protected).end else after.end)
  {
    var r := Meaning(body, true);
    var f := Meaning(cleanup, protected);
    if r.end.Raised? {
      var caught := Handle(catches, r.end.e, protected);
      if caught.Some? {
        assert r.events + (caught.value.events + f.events) == r.events + caught.value.events + f.events;
      } else {
        var t := Throwing(r.end.e, protected);
        assert r.events + (f.events + t.events) == r.events + f.events + t.events;
      }
    }
  }

  /** The handler throws out of the inner Try: its Finally block does not run. */
  lemma FinallySkipped()
    ensures
      var inner := Try(Throw(1), Catch(1, Throw(2), NoCatch), Finally(Emit(9)));
      Meaning(Try(inner, Catch(2, Emit(3), NoCatch), NoFinally), false) == Outcome([Ran(3)], Normal)
  {
    var inner := Try(Throw(1), Catch(1, Throw(2), NoCatch), Finally(Emit(9)));
    assert Meaning(Throw(1), true) == Outcome([], Raised(1));
    assert Meaning(inner, true) == Outcome([], Raised(2));
  }

  /** A Try without a matching Catch and without Finally is transparent to what its body raises. */
  lemma Rethrown(body: Stmt, catches: Catches)
    requires Meaning(body, true).end.Raised?
    requires Handle(catches, Meaning(body, true).end.e, true).None?
    ensures Meaning(Try(body, catches, NoFinally), true) == Meaning(body, true)
  {
    var r := Meaning(body, true);
    assert r.events + [] == r.events;
    assert r.events + ([] + []) == r.events;
  }

  // ---------------------------------------------------------------- the thread

  /** One thread: its program counter, its ExceptionStack and the frames it points into. */
  class Thread {
    var pc: int
    var top: int
    var frames: map<int, Frame>
    var trace: seq<Event>

    ghost function State(): Machine
      reads this
    {
      Machine(pc, top, frames, trace)
    }

    constructor ()
      ensures State() == Machine(0, NULL, map[], [])
    {
      pc, top, frames, trace := 0, NULL, map[], [];
    }

    /** ntyExceptionPopStack */
    method PopStack()
      modifies this`top
      ensures top == At(frames, old(top)).prev
    {
      top := At(frames, top).prev;
    }

    /** setjmp returns into the saved point with the flag that longjmp carries. */
    method LongJump(site: int, flag: Flag)
      modifies this`pc, this`frames
      ensures pc == At(old(frames), site).env
      ensures frames == old(frames)[site := At(old(frames), site).(flag := flag)]
    {
      pc := At(frames, site).env;
      frames := frames[site := At(frames, site).(flag := flag)];
    }

    method ThrowException(e: Exception)
      modifies this
      ensures State() == ThrowFrom(old(State()), e)
    {
      var frame := top;
      if frame != NULL {
        frames := frames[frame := At(frames, frame).(exception := e)];
        PopStack();
        LongJump(frame, Thrown);
      } else {
        trace := trace + [Uncaught(e)];
        pc := pc + 1;
      }
    }

    method Advance(code: Code)
      requires 0 <= pc < |code|
      modifies this
      ensures State() == Step(code, old(State()))
    {
      match code[pc] {
        case DoEmit(n) =>
          trace := trace + [Ran(n)];
          pc := pc + 1;
        case DoThrow(e) =>
          ThrowException(e);
        case PushFrame(site) =>
          frames := frames[site := At(frames, site).(prev := top)];
          top := site;
          pc := pc + 1;
        case SetJmp(site) =>
          frames := frames[site := At(frames, site).(env := pc + 1, flag := Entered)];
          pc := pc + 1;
        case UnlessEntered(site, target) =>
          pc := if At(frames, site).flag == Entered then pc + 1 else target;
        case PopIfEntered(site) =>
          if At(frames, site).flag == Entered {
            PopStack();
          }
          pc := pc + 1;
        case Jump(target) =>
          pc := target;
        case UnlessCaught(site, e, target) =>
          pc := if At(frames, site).exception == e then pc + 1 else target;
        case MarkHandled(site) =>
          frames := frames[site := At(frames, site).(flag := Handled)];
          pc := pc + 1;
        case MarkFinalized(site) =>
          if At(frames, site).flag == Entered {
            frames := frames[site := At(frames, site).(flag := Finalized)];
          }
          pc := pc + 1;
        case RethrowIfThrown(site) =>
          if At(frames, site).flag == Thrown {
            ThrowException(At(frames, site).exception);
          } else {
            pc := pc + 1;
          }
      }
    }

    /** Running a whole program: it terminates, and has done what the program means. */
    method Execute(p: Stmt)
      requires top == NULL
      modifies this
      ensures trace == old(trace) + Meaning(p, false).events
      ensures top == NULL && pc == Size(p)
    {
      pc := 0;
      var code := Expand(p, 0);
      ghost var last := ExpansionKeepsMeaning(p, State());
      ghost var n: nat :| Runs(code, State(), n, last);
      while 0 <= pc < |code|
        invariant Runs(code, State(), n, last)
        decreases n
      {
        Advance(code);
        n := n - 1;
      }
    }
  }
}
