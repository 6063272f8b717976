/** The double-buffered logger of AsyncLogging.cc.  Front-end threads and the back-end thread meet
    under one lock; every locked region, and every stretch of the back-end's loop between two of
    them, is one step. */
module AsyncLogging {
  import opened LogStream

  const LARGE_BUFFER := 4000 * 1000
  const MOST_BUFFERS := 25

  // ---------------------------------------------------------------- buffers in a row

  /** What the buffers hold, in order. */
  ghost function Texts(row: seq<string>): string {
    if row == [] then [] else Texts(row[..|row| - 1]) + row[|row| - 1]
  }

  lemma {:induction false} TextsSplit(row: seq<string>, n: int)
    requires 0 <= n <= |row|
    ensures Texts(row) == Texts(row[..n]) + Texts(row[n..])
    decreases |row|
  {
    var all := |row| - 1;
    if n == |row| {
      assert row[..n] == row && row[n..] == [];
    } else {
      var last := row[all];
      assert row[n..][..all - n] == row[..all][n..] && row[n..][all - n] == last;
      assert row[..all][..n] == row[..n];
      TextsSplit(row[..all], n);
      assert Texts(row[..n]) + Texts(row[..all][n..]) + last == Texts(row[..n]) + (Texts(row[..all][n..]) + last);
    }
  }

  lemma {:induction false} TextOfOne(row: seq<string>, i: int)
    requires 0 <= i < |row| && row[i] != []
    ensures Texts(row) != []
  {
    if i < |row| - 1 {
      TextOfOne(row[..|row| - 1], i);
    }
  }

  // ---------------------------------------------------------------- what reaches the file

  datatype Output = Data(text: string) | Notice(dropped: int)

  ghost function FileText(file: seq<Output>): string {
    if file == [] then []
    else FileText(file[..|file| - 1]) + if file[|file| - 1].Data? then file[|file| - 1].text else []
  }

  function Outputs(row: seq<string>): seq<Output> {
    seq(|row|, i requires 0 <= i < |row| => Data(row[i]))
  }

  /** The fate of a stretch of the log: written, or dropped together with so many buffers. */
  datatype Piece = Saved(text: string) | Lost(text: string, buffers: int)

  ghost function Whole(pieces: seq<Piece>): string {
    if pieces == [] then [] else Whole(pieces[..|pieces| - 1]) + pieces[|pieces| - 1].text
  }

  ghost function Kept(pieces: seq<Piece>): string {
    if pieces == [] then []
    else Kept(pieces[..|pieces| - 1]) + if pieces[|pieces| - 1].Saved? then pieces[|pieces| - 1].text else []
  }

  ghost predicate NoLoss(pieces: seq<Piece>) {
    forall i :: 0 <= i < |pieces| ==> pieces[i].Saved?
  }

  /** Whatever was dropped held no text. */
  ghost predicate NoTextLost(pieces: seq<Piece>) {
    forall i :: 0 <= i < |pieces| && pieces[i].Lost? ==> pieces[i].text == []
  }

  /** What is kept is all there was if and only if no text was dropped. */
  lemma {:induction false} NothingLost(pieces: seq<Piece>)
    ensures |Kept(pieces)| <= |Whole(pieces)|
    ensures Kept(pieces) == Whole(pieces) <==> NoTextLost(pieces)
  {
    if pieces != [] {
      var n := |pieces| - 1;
      var front, last := pieces[..n], pieces[n];
      NothingLost(front);
      assert NoTextLost(pieces) <==> NoTextLost(front) && (last.Lost? ==> last.text == []);
      if last.Saved? {
        SameEnd(Kept(front), Whole(front), last.text);
      } else {
        assert Kept(pieces) == Kept(front) && Whole(pieces) == Whole(front) + last.text;
        assert last.text == [] ==> Whole(pieces) == Whole(front);
        assert last.text != [] ==> |Whole(pieces)| > |Kept(pieces)|;
      }
    }
  }

  lemma SameEnd(a: string, b: string, end: string)
    ensures a + end == b + end <==> a == b
  {
    if a + end == b + end {
      assert a == (a + end)[..|a|] && b == (b + end)[..|b|];
    }
  }

  // ---------------------------------------------------------------- the logger

  /** A unique_ptr to a buffer of LARGE_BUFFER bytes, of which only the text counts. */
  datatype BufferPtr = Null | Owns(text: string)

  /** Where the back-end is: at the top of its loop, behind the locked region, or past writing. */
  datatype Phase = AtTop | Collected | Written

  datatype Step = FrontEnd(line: string) | BackEnd

  /** What append makes of a line: a line that no buffer can hold is dropped. */
  function Fitting(line: string): string {
    if |line| < LARGE_BUFFER then line else []
  }

  /** The log is what has been dealt with, what is being written, what is queued and the current buffer. */
  ghost predicate Adds(whole: string, writing: string, queued: string, current: string, log: string) {
    whole + (writing + queued + current) == log
  }

  lemma LineHere(whole: string, writing: string, queued: string, current: string, log: string, line: string)
    requires Adds(whole, writing, queued, current, log)
    ensures Adds(whole, writing, queued, current + line, log + line)
  {
    assert whole + (writing + queued + (current + line)) == whole + (writing + queued + current) + line;
  }

  lemma LineBehind(whole: string, writing: string, queued: string, current: string, log: string, line: string)
    requires Adds(whole, writing, queued, current, log)
    ensures Adds(whole, writing, queued + current, line, log + line)
  {
    assert whole + (writing + (queued + current) + line) == whole + (writing + queued + current) + line;
  }

  lemma Dealt(whole: string, writing: string, queued: string, current: string, log: string)
    requires Adds(whole, writing, queued, current, log)
    ensures Adds(whole + writing, [], queued, current, log)
  {
    assert whole + (writing + queued + current) == (whole + writing) + ([] + queued + current);
  }

  lemma Collecting(whole: string, row: seq<string>, current: string, log: string)
    requires Adds(whole, [], Texts(row), current, log)
    ensures Adds(whole, Texts(row + [current]), Texts([]), [], log)
  {
    assert (row + [current])[..|row|] == row;
    assert [] + Texts(row) + current == Texts(row) + current + [] + [];
  }

  lemma WriteNext(file: seq<Output>, row: seq<string>, i: int, before: string)
    requires 0 <= i < |row| && FileText(file) == before + Texts(row[..i])
    ensures FileText(file + [Data(row[i])]) == before + Texts(row[..i + 1])
  {
    assert row[..i + 1] == row[..i] + [row[i]];
    assert before + Texts(row[..i]) + row[i] == before + (Texts(row[..i]) + row[i]);
  }

  lemma PiecePush(pieces: seq<Piece>, p: Piece)
    ensures Whole(pieces + [p]) == Whole(pieces) + p.text
    ensures Kept(pieces + [p]) == Kept(pieces) + if p.Saved? then p.text else []
    ensures NoLoss(pieces + [p]) <==> NoLoss(pieces) && p.Saved?
    ensures NoTextLost(pieces + [p]) <==> NoTextLost(pieces) && (p.Lost? ==> p.text == [])
  {
    assert (pieces + [p])[..|pieces|] == pieces && (pieces + [p])[|pieces|] == p;
    assert forall i :: 0 <= i < |pieces| ==> (pieces + [p])[i] == pieces[i];
  }

  /** What one iteration drops of these buffers. */
  ghost predicate DropsNoText(all: seq<string>) {
    |all| > MOST_BUFFERS ==> Texts(all[2..]) == []
  }

  ghost predicate AllHold(row: seq<string>) {
    forall i :: 0 <= i < |row| ==> row[i] != []
  }

  ghost predicate AllButLastHold(row: seq<string>) {
    forall i :: 0 <= i < |row| - 1 ==> row[i] != []
  }

  /** Of buffers that hold text, the last perhaps not, none can be dropped without losing some. */
  lemma DropsText(row: seq<string>)
    requires AllButLastHold(row)
    ensures DropsNoText(row) <==> |row| <= MOST_BUFFERS
  {
    if |row| > MOST_BUFFERS {
      assert row[2..][0] == row[2];
      TextOfOne(row[2..], 0);
    }
  }

  /** The fate of these buffers has been recorded. */
  ghost predicate Settled(before: seq<Piece>, after: seq<Piece>, all: seq<string>) {
    && Whole(after) == Whole(before) + Texts(all)
    && (NoLoss(after) <==> NoLoss(before) && |all| <= MOST_BUFFERS)
    && (NoTextLost(after) <==> NoTextLost(before) && DropsNoText(all))
  }

  function Larger(a: int, b: int): int {
    if a > b then a else b
  }

  /** What one iteration does to the account. */
  lemma Iterated(before: seq<Piece>, after: seq<Piece>, all: seq<string>, queued: string, current: string, log: string,
                 worst: int, short: bool)
    requires Settled(before, after, all) && Adds(Whole(before), Texts(all), queued, current, log)
    requires NoLoss(before) <==> worst <= MOST_BUFFERS
    requires short ==> AllButLastHold(all) && (NoTextLost(before) ==> NoLoss(before))
    ensures Adds(Whole(after), [], queued, current, log)
    ensures NoLoss(after) <==> Larger(|all|, worst) <= MOST_BUFFERS
    ensures short ==> (NoTextLost(after) ==> NoLoss(after))
  {
    Dealt(Whole(before), Texts(all), queued, current, log);
    if short {
      DropsText(all);
    }
  }

  lemma RowPush(row: seq<string>, last: string)
    requires AllHold(row)
    ensures AllButLastHold(row + [last]) && (last != [] ==> AllHold(row + [last]))
  {
  }

  class AsyncLogging {
    var currentBuffer: string
    var nextBuffer: BufferPtr
    var buffers: seq<string>

    // locals of threadFunc
    var newBuffer1: BufferPtr
    var newBuffer2: BufferPtr
    var buffersToWrite: seq<string>
    var output: seq<Output>
    var phase: Phase

    /** All lines that fit into a buffer, in the order of the calls. */
    ghost var accepted: string
    /** What has become of the part that the back-end has dealt with. */
    ghost var pieces: seq<Piece>
    /** The most buffers that one iteration has found. */
    ghost var worst: int
    /** Every line so far was shorter than a buffer. */
    ghost var short: bool

    ghost predicate Empty(b: BufferPtr) {
      b.Owns? ==> b.text == []
    }

    /** Holds whenever the lock is free. */
    ghost predicate Stocked()
      reads this
    {
      && Empty(nextBuffer) && Empty(newBuffer1) && Empty(newBuffer2)
      && |currentBuffer| <= LARGE_BUFFER
      && (nextBuffer.Null? ==> buffers != [])
      && match phase
         case AtTop => newBuffer1.Owns? && newBuffer2.Owns? && buffersToWrite == []
         case _ => newBuffer1.Null? && |buffersToWrite| >= if newBuffer2.Null? then 2 else 1
    }

    /** Collected, and neither written nor dropped yet. */
    ghost function Writing(): string
      reads this
    {
      if phase == Collected then Texts(buffersToWrite) else []
    }

    /** Appended, and neither written nor dropped yet. */
    ghost function Pending(): string
      reads this
    {
      Writing() + Texts(buffers) + currentBuffer
    }

    /** Nothing is lost, doubled or reordered but what an overloaded iteration drops. */
    ghost predicate Accounted()
      reads this
    {
      && Adds(Whole(pieces), Writing(), Texts(buffers), currentBuffer, accepted)
      && FileText(output) == Kept(pieces)
      && (NoLoss(pieces) <==> worst <= MOST_BUFFERS)
    }

    /** Short lines never queue an empty buffer, so that every loss is one of text. */
    ghost predicate Packed()
      reads this
    {
      && AllHold(buffers)
      && (phase == Collected ==> AllButLastHold(buffersToWrite))
      && (NoTextLost(pieces) ==> NoLoss(pieces))
    }

    ghost predicate Valid()
      reads this
    {
      Stocked() && Accounted() && (short ==> Packed())
    }

    constructor ()
      ensures Valid() && accepted == [] && output == [] && worst == 0 && phase == AtTop && short
      ensures currentBuffer == [] && buffers == []
    {
      currentBuffer, nextBuffer, buffers := [], Owns([]), [];
      newBuffer1, newBuffer2, buffersToWrite := Owns([]), Owns([]), [];
      output, phase := [], AtTop;
      accepted, pieces, worst, short := [], [], 0, true;
    }

    method Append(line: string)
      requires Valid()
      modifies this
      ensures Valid() && accepted == old(accepted) + Fitting(line)
      ensures |line| < 4_000_000 ==> accepted == old(accepted) + line
      ensures |line| >= 4_000_000 ==> accepted == old(accepted)
      ensures worst == old(worst) && output == old(output) && phase == old(phase)
      ensures short == (old(short) && |line| < LARGE_BUFFER)
      ensures
        if LARGE_BUFFER - old(|currentBuffer|) > |line|
        then buffers == old(buffers) && currentBuffer == old(currentBuffer) + line
        else buffers == old(buffers) + [old(currentBuffer)] && currentBuffer == Fitting(line)
    {
      if short && |line| < LARGE_BUFFER {
        RowPush(buffers, currentBuffer);
      }
      if LARGE_BUFFER - |currentBuffer| > |line| {
        AppendHere(line);
      } else {
        AppendBehind(line);
      }
      short := short && |line| < LARGE_BUFFER;
    }

    /** The branch for a line that fits behind what the current buffer holds. */
    method AppendHere(line: string)
      requires Stocked() && Accounted() && LARGE_BUFFER - |currentBuffer| > |line|
      modifies this`currentBuffer, this`accepted
      ensures Stocked() && Accounted() && accepted == old(accepted) + Fitting(line)
      ensures currentBuffer == old(currentBuffer) + line
    {
      LineHere(Whole(pieces), Writing(), Texts(buffers), currentBuffer, accepted, line);
      currentBuffer := Filled(currentBuffer, LARGE_BUFFER, line);
      accepted := accepted + Fitting(line);
    }

    /** The branch for a line that does not fit behind what the current buffer holds. */
    method AppendBehind(line: string)
      requires Stocked() && Accounted()
      modifies this`buffers, this`currentBuffer, this`nextBuffer, this`accepted
      ensures Stocked() && Accounted() && accepted == old(accepted) + Fitting(line)
      ensures buffers == old(buffers) + [old(currentBuffer)] && currentBuffer == Fitting(line)
    {
      LineBehind(Whole(pieces), Writing(), Texts(buffers), currentBuffer, accepted, Fitting(line));
      Queue();
      currentBuffer := Filled(currentBuffer, LARGE_BUFFER, line);
      accepted := accepted + Fitting(line);
    }

    /** The current buffer goes into the queue and the next one, or a new one, takes its place. */
    method Queue()
      requires Empty(nextBuffer)
      modifies this`buffers, this`currentBuffer, this`nextBuffer
      ensures Texts(buffers) == Texts(old(buffers)) + old(currentBuffer)
      ensures buffers == old(buffers) + [old(currentBuffer)]
      ensures currentBuffer == [] && nextBuffer == Null
    {
      buffers := buffers + [currentBuffer];
      if nextBuffer.Owns? {
        currentBuffer, nextBuffer := nextBuffer.text, Null;
      } else {
        currentBuffer := [];
      }
    }

    /** The locked region.  While buffers_ is empty the thread first waits with the lock released,
        so that this step may come at any time after the loop's top. */
    method Collect()
      requires Valid() && phase == AtTop
      modifies this
      ensures Valid() && accepted == old(accepted) && output == old(output) && worst == old(worst)
      ensures short == old(short)
      ensures phase == Collected && buffersToWrite == old(buffers) + [old(currentBuffer)]
      ensures buffers == [] && nextBuffer.Owns? && currentBuffer == []
    {
      assert newBuffer1.Owns? && newBuffer1.text == [];
      assert newBuffer2.Owns? && newBuffer2.text == [];
      assert buffersToWrite == [];
      Collecting(Whole(pieces), buffers, currentBuffer, accepted);
      if short {
        RowPush(buffers, currentBuffer);
      }
      buffers := buffers + [currentBuffer];
      currentBuffer, newBuffer1 := newBuffer1.text, Null;
      buffersToWrite, buffers := buffers, buffersToWrite;
      if nextBuffer.Null? {
        nextBuffer, newBuffer2 := newBuffer2, Null;
      }
      phase := Collected;
    }

    /** Writing, without the lock.  Of more than 25 buffers all but the first two are dropped. */
    method Write()
      requires Valid() && phase == Collected
      modifies this
      ensures Valid() && accepted == old(accepted) && phase == Written && short == old(short)
      ensures worst == if |old(buffersToWrite)| > old(worst) then |old(buffersToWrite)| else old(worst)
      ensures buffers == old(buffers) && currentBuffer == old(currentBuffer) && nextBuffer == old(nextBuffer)
      ensures output == old(output) + if |old(buffersToWrite)| > 25
        then [Notice(|old(buffersToWrite)| - 2), Data(old(buffersToWrite)[0]), Data(old(buffersToWrite)[1])]
        else Outputs(old(buffersToWrite))
    {
      assert buffersToWrite != [];
      ghost var all := buffersToWrite;
      WriteOut();
      Iterated(old(pieces), pieces, all, Texts(buffers), currentBuffer, accepted, worst, short);
      worst := Larger(|all|, worst);
      phase := Written;
    }

    /** The file grows by what is kept of the buffers. */
    method WriteOut()
      requires FileText(output) == Kept(pieces)
      modifies this`output, this`buffersToWrite, this`pieces
      ensures buffersToWrite == if |old(buffersToWrite)| > MOST_BUFFERS then old(buffersToWrite)[..2] else old(buffersToWrite)
      ensures FileText(output) == FileText(old(output)) + Texts(buffersToWrite) == Kept(pieces)
      ensures Settled(old(pieces), pieces, old(buffersToWrite))
      ensures output == old(output) + if |old(buffersToWrite)| > 25
        then [Notice(|old(buffersToWrite)| - 2), Data(old(buffersToWrite)[0]), Data(old(buffersToWrite)[1])]
        else Outputs(old(buffersToWrite))
    {
      RecordFate(buffersToWrite);
      if |buffersToWrite| > MOST_BUFFERS {
        output := output + [Notice(|buffersToWrite| - 2)];
        buffersToWrite := buffersToWrite[..2];
        assert Outputs(buffersToWrite) == [Data(buffersToWrite[0]), Data(buffersToWrite[1])];
      }
      WriteAll();
    }

    /** The bookkeeping of one iteration that found these buffers. */
    ghost method RecordFate(all: seq<string>)
      modifies this`pieces
      ensures Kept(pieces) == Kept(old(pieces)) + Texts(if |all| > MOST_BUFFERS then all[..2] else all)
      ensures Settled(old(pieces), pieces, all)
    {
      if |all| > MOST_BUFFERS {
        var saved, lost := Saved(Texts(all[..2])), Lost(Texts(all[2..]), |all| - 2);
        TextsSplit(all, 2);
        PiecePush(pieces, saved);
        PiecePush(pieces + [saved], lost);
        assert Whole(pieces) + saved.text + lost.text == Whole(pieces) + (saved.text + lost.text);
        pieces := pieces + [saved] + [lost];
      } else {
        PiecePush(pieces, Saved(Texts(all)));
        pieces := pieces + [Saved(Texts(all))];
      }
    }

    /** The loop over the buffers. */
    method WriteAll()
      modifies this`output
      ensures FileText(output) == FileText(old(output)) + Texts(buffersToWrite)
      ensures output == old(output) + Outputs(buffersToWrite)
    {
      ghost var before := FileText(output);
      assert buffersToWrite[..0] == [] && Texts([]) == [];
      var i := 0;
      while i < |buffersToWrite|
        invariant 0 <= i <= |buffersToWrite|
        invariant FileText(output) == before + Texts(buffersToWrite[..i])
        invariant output == old(output) + Outputs(buffersToWrite[..i])
      {
        WriteNext(output, buffersToWrite, i, before);
        assert Outputs(buffersToWrite[..i + 1]) == Outputs(buffersToWrite[..i]) + [Data(buffersToWrite[i])];
        output := output + [Data(buffersToWrite[i])];
        i := i + 1;
      }
      assert buffersToWrite[..|buffersToWrite|] == buffersToWrite;
    }

    /** The last of the written buffers, emptied. */
    method Reuse() returns (buffer: BufferPtr)
      requires buffersToWrite != []
      modifies this`buffersToWrite
      ensures buffer == Owns([]) && buffersToWrite == old(buffersToWrite)[..|old(buffersToWrite)| - 1]
    {
      buffer := Owns(buffersToWrite[|buffersToWrite| - 1]);
      buffersToWrite := buffersToWrite[..|buffersToWrite| - 1];
      buffer := Owns([]);
    }

    /** The rest of the iteration: the written buffers become the new spare ones. */
    method Restock()
      requires Valid() && phase == Written
      modifies this
      ensures Valid() && accepted == old(accepted) && output == old(output) && worst == old(worst)
      ensures phase == AtTop && short == old(short)
    {
      if |buffersToWrite| > 2 {
        buffersToWrite := buffersToWrite[..2];
      }
      if newBuffer1.Null? {
        newBuffer1 := Reuse();
      }
      if newBuffer2.Null? {
        newBuffer2 := Reuse();
      }
      buffersToWrite := [];
      phase := AtTop;
    }

    /** One step of the back-end's loop. */
    method Advance()
      requires Valid()
      modifies this
      ensures Valid() && accepted == old(accepted) && short == old(short)
      ensures worst == if old(phase) == Collected && |old(buffersToWrite)| > old(worst)
                       then |old(buffersToWrite)| else old(worst)
      ensures
        output == old(output) +
          if old(phase) != Collected then []
          else if |old(buffersToWrite)| > 25
          then [Notice(|old(buffersToWrite)| - 2), Data(old(buffersToWrite)[0]), Data(old(buffersToWrite)[1])]
          else Outputs(old(buffersToWrite))
    {
      match phase {
        case AtTop => Collect();
        case Collected => Write();
        case Written => Restock();
      }
    }

    method Take(step: Step)
      requires Valid()
      modifies this
      ensures Valid() && accepted == old(accepted) + LineOf(step) && worst >= old(worst)
      ensures short == (old(short) && IsShort(step))
    {
      match step {
        case FrontEnd(line) => Append(line);
        case BackEnd => Advance();
      }
    }

    /** Any interleaving of calls of append with steps of the back-end. */
    method Run(schedule: seq<Step>)
      requires Valid()
      modifies this
      ensures Valid() && accepted == old(accepted) + Lines(schedule, |schedule|) && worst >= old(worst)
      ensures FileText(output) + Pending() == accepted <==> NoTextLost(pieces)
      ensures worst <= MOST_BUFFERS ==> NoTextLost(pieces)
      ensures old(short) && AllShort(schedule) ==>
        (FileText(output) + Pending() == accepted <==> worst <= MOST_BUFFERS)
    {
      ghost var before := accepted;
      assert before + [] == before;
      var i := 0;
      while i < |schedule|
        invariant 0 <= i <= |schedule| && Valid() && worst >= old(worst)
        invariant accepted == before + Lines(schedule, i)
        invariant old(short) && AllShort(schedule) ==> short
      {
        LinesStep(before, schedule, i);
        Take(schedule[i]);
        i := i + 1;
      }
      AllThere();
    }

    /** The file is the log up to what is pending if and only if no text was dropped, which holds as
        long as no iteration has found more than 25 buffers, and with short lines no longer.  Then it
        is the whole log exactly when nothing is pending, which stop() does not wait for. */
    lemma AllThere()
      requires Valid()
      ensures FileText(output) + Pending() == accepted <==> NoTextLost(pieces)
      ensures worst <= MOST_BUFFERS ==> NoTextLost(pieces)
      ensures short ==> (FileText(output) + Pending() == accepted <==> worst <= MOST_BUFFERS)
      ensures NoTextLost(pieces) ==> (FileText(output) == accepted <==> Pending() == [])
    {
      NothingLost(pieces);
      SameEnd(Kept(pieces), Whole(pieces), Pending());
    }
  }

  /** 26 lines that fill a buffer each, before the back-end comes to its first iteration. */
  method Jam() returns (log: AsyncLogging)
    ensures fresh(log) && log.Valid() && log.short && log.phase == AtTop
    ensures |log.buffers| == 25 && log.output == []
  {
    log := new AsyncLogging();
    var line := seq(LARGE_BUFFER - 1, _ => 'x');
    log.Append(line);
    var n := 0;
    while n < MOST_BUFFERS
      invariant n <= MOST_BUFFERS && log.Valid() && log.short && log.phase == AtTop
      invariant |log.buffers| == n && |log.currentBuffer| == LARGE_BUFFER - 1 && log.output == []
    {
      log.Append(line);
      n := n + 1;
    }
  }

  /** That iteration loses text: all but two of the buffers, of which the file says how many. */
  method Overload() returns (log: AsyncLogging)
    ensures fresh(log) && log.Valid() && log.short && log.worst > MOST_BUFFERS
    ensures FileText(log.output) + log.Pending() != log.accepted
    ensures |log.output| == 3 && log.output[0] == Notice(24)
  {
    log := Jam();
    log.Collect();
    log.Write();
    log.AllThere();
  }

  predicate IsShort(step: Step) {
    step.FrontEnd? ==> |step.line| < LARGE_BUFFER
  }

  predicate AllShort(schedule: seq<Step>) {
    forall i :: 0 <= i < |schedule| ==> IsShort(schedule[i])
  }

  function LineOf(step: Step): string {
    if step.FrontEnd? then Fitting(step.line) else []
  }

  /** The first n lines of a schedule that fit, in order. */
  ghost function Lines(schedule: seq<Step>, n: nat): string
    requires n <= |schedule|
  {
    if n == 0 then [] else Lines(schedule, n - 1) + LineOf(schedule[n - 1])
  }

  lemma LinesStep(before: string, schedule: seq<Step>, i: nat)
    requires i < |schedule|
    ensures before + Lines(schedule, i + 1) == before + Lines(schedule, i) + LineOf(schedule[i])
  {
    assert before + (Lines(schedule, i) + LineOf(schedule[i])) == before + Lines(schedule, i) + LineOf(schedule[i]);
  }
}
