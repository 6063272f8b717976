/** What a Try means, case by case: which Catch runs, when Finally runs, and where an exception
    goes that nobody catches. */
module TryLaws {
  import opened TryCatch

  /** The Catch clauses of a Try, in the order of the text. */
  function Clauses(catches: Catches): seq<(Exception, Stmt)> {
    match catches
    case NoCatch => []
    case Catch(e, handler, rest) => [(e, handler)] + Clauses(rest)
  }

  predicate Chooses(catches: Catches, e: Exception, i: nat) {
    && i < |Clauses(catches)| && Clauses(catches)[i].0 == e
    && forall j :: 0 <= j < i ==> Clauses(catches)[j].0 != e
  }

  predicate ChoosesNone(catches: Catches, e: Exception) {
    forall j :: 0 <= j < |Clauses(catches)| ==> Clauses(catches)[j].0 != e
  }

  // ---------------------------------------------------------------- statements outside Try

  /** A throw ends everything up to the next Try around it; outside every Try it is reported, and
      execution goes on behind it. */
  lemma ThrowLaw(e: Exception)
    ensures Meaning(Throw(e), true) == Outcome([], Raised(e))
    ensures Meaning(Throw(e), false) == Outcome([Uncaught(e)], Normal)
  {
  }

  lemma EmitLaw(n: nat, protected: bool)
    ensures Meaning(Emit(n), protected) == Outcome([Ran(n)], Normal)
    ensures Meaning(Skip, protected) == Outcome([], Normal)
  {
  }

  /** The second statement runs behind the first, unless the first has thrown. */
  lemma SeqLaw(a: Stmt, b: Stmt, protected: bool, events: seq<Event>, end: End)
    requires Meaning(a, protected) == Outcome(events, end)
    ensures end.Raised? ==> Meaning(Seq(a, b), protected) == Outcome(events, end)
    ensures end.Normal? ==>
      Meaning(Seq(a, b), protected) == Outcome(events + Meaning(b, protected).events, Meaning(b, protected).end)
  {
  }

  // ---------------------------------------------------------------- Try

  lemma {:induction false} FirstMatch(catches: Catches, e: Exception, protected: bool, i: nat)
    requires Chooses(catches, e, i)
    ensures Handle(catches, e, protected) == Some(Meaning(Clauses(catches)[i].1, protected))
  {
    var clauses := Clauses(catches);
    if i > 0 {
      assert clauses[0].0 != e;
      forall j | 0 <= j < i - 1 ensures Clauses(catches.rest)[j].0 != e {
        assert Clauses(catches.rest)[j] == clauses[j + 1];
      }
      FirstMatch(catches.rest, e, protected, i - 1);
    }
  }

  lemma {:induction false} NoMatch(catches: Catches, e: Exception, protected: bool)
    requires ChoosesNone(catches, e)
    ensures Handle(catches, e, protected) == None
  {
    if catches.Catch? {
      assert Clauses(catches)[0].0 != e;
      forall j | 0 <= j < |Clauses(catches.rest)| ensures Clauses(catches.rest)[j].0 != e {
        assert Clauses(catches.rest)[j] == Clauses(catches)[j + 1];
      }
      NoMatch(catches.rest, e, protected);
    }
  }

  /** The body throws nothing out: no Catch runs, and the Finally block, if there is one, does. */
  lemma BodyEnds(body: Stmt, catches: Catches, last: Last, protected: bool, events: seq<Event>)
    requires Meaning(body, true) == Outcome(events, Normal)
    ensures
      var whole := Meaning(Try(body, catches, last), protected);
      match last
      case NoFinally => whole == Outcome(events, Normal)
      case Finally(cleanup) =>
        whole == Outcome(events + Meaning(cleanup, protected).events, Meaning(cleanup, protected).end)
  {
    assert events + [] == events;
  }

  /** The body throws e: the first Catch that names e runs, and no other.  If it throws itself, the
      Try ends there; otherwise the Finally block runs, and e is gone. */
  lemma BodyIsCaught(body: Stmt, catches: Catches, last: Last, protected: bool, events: seq<Event>, e: Exception, i: nat)
    requires Meaning(body, true) == Outcome(events, Raised(e)) && Chooses(catches, e, i)
    ensures
      var whole := Meaning(Try(body, catches, last), protected);
      var handler := Meaning(Clauses(catches)[i].1, protected);
      match last
      case NoFinally => whole == Outcome(events + handler.events, handler.end)
      case Finally(cleanup) =>
        if handler.end.Raised? then whole == Outcome(events + handler.events, handler.end)
        else whole == Outcome(events + handler.events + Meaning(cleanup, protected).events,
                              Meaning(cleanup, protected).end)
  {
    FirstMatch(catches, e, protected, i);
    var handler := Meaning(Clauses(catches)[i].1, protected);
    assert handler.events + [] == handler.events;
    if last.Finally? {
      var more := Meaning(last.cleanup, protected).events;
      assert events + (handler.events + more) == events + handler.events + more;
    }
  }

  /** The body throws e, which no Catch names: the Finally block runs; unless it throws itself, e
      goes on outward behind it, or is reported if there is no Try outside. */
  lemma BodyIsNotCaught(body: Stmt, catches: Catches, last: Last, protected: bool, events: seq<Event>, e: Exception)
    requires Meaning(body, true) == Outcome(events, Raised(e)) && ChoosesNone(catches, e)
    ensures
      var whole := Meaning(Try(body, catches, last), protected);
      match last
      case NoFinally =>
        whole == if protected then Outcome(events, Raised(e)) else Outcome(events + [Uncaught(e)], Normal)
      case Finally(cleanup) =>
        var after := Meaning(cleanup, protected);
        if after.end.Raised? then whole == Outcome(events + after.events, after.end)
        else if protected then whole == Outcome(events + after.events, Raised(e))
        else whole == Outcome(events + after.events + [Uncaught(e)], Normal)
  {
    NoMatch(catches, e, protected);
    assert events + [] == events && events + ([] + []) == events;
    assert events + ([] + [Uncaught(e)]) == events + [Uncaught(e)];
    if last.Finally? {
      var after := Meaning(last.cleanup, protected);
      assert after.events + [] == after.events;
      assert events + (after.events + [Uncaught(e)]) == events + after.events + [Uncaught(e)];
    }
  }

  // ---------------------------------------------------------------- programs

  /** An exception that the one Catch does not name is thrown again, and reported. */
  lemma PastTheCatch()
    ensures Meaning(Try(Throw(2), Catch(1, Emit(5), NoCatch), NoFinally), false) == Outcome([Uncaught(2)], Normal)
  {
    ThrowLaw(2);
    BodyIsNotCaught(Throw(2), Catch(1, Emit(5), NoCatch), NoFinally, false, [], 2);
  }

  /** The last program of the thread function: four throws in one Try, with a Catch for each.  The
      first throw ends the body, so its handler is the only one that runs. */
  lemma FirstThrowWins(a: Exception, b: Exception, c: Exception, d: Exception)
    ensures
      var body := Seq(Throw(a), Seq(Throw(b), Seq(Throw(c), Throw(d))));
      var catches := Catch(a, Emit(1), Catch(b, Emit(2), Catch(c, Emit(3), Catch(d, Emit(4), NoCatch))));
      Meaning(Try(body, catches, NoFinally), false) == Outcome([Ran(1)], Normal)
  {
    var rest := Seq(Throw(b), Seq(Throw(c), Throw(d)));
    var catches := Catch(a, Emit(1), Catch(b, Emit(2), Catch(c, Emit(3), Catch(d, Emit(4), NoCatch))));
    ThrowLaw(a);
    SeqLaw(Throw(a), rest, true, [], Raised(a));
    EmitLaw(1, false);
    BodyIsCaught(Seq(Throw(a), rest), catches, NoFinally, false, [], a, 0);
  }

  /** Test 1 of main: the inner Try catches what it names and goes on; what is thrown behind it is
      caught outside. */
  lemma NestedTries(a: Exception, b: Exception)
    ensures
      var inner := Try(Throw(b), Catch(b, Emit(1), NoCatch), NoFinally);
      Meaning(Try(Seq(inner, Throw(a)), Catch(a, Emit(2), NoCatch), NoFinally), false) == Outcome([Ran(1), Ran(2)], Normal)
  {
    var inner := Try(Throw(b), Catch(b, Emit(1), NoCatch), NoFinally);
    ThrowLaw(a);
    ThrowLaw(b);
    EmitLaw(1, true);
    EmitLaw(2, false);
    BodyIsCaught(Throw(b), Catch(b, Emit(1), NoCatch), NoFinally, true, [], b, 0);
    SeqLaw(inner, Throw(a), true, [Ran(1)], Normal);
    BodyIsCaught(Seq(inner, Throw(a)), Catch(a, Emit(2), NoCatch), NoFinally, false, [Ran(1)], a, 0);
  }
}
