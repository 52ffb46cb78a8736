/** Everything accepted can become durable, whatever state the persistence controller is in. */
module Draining {
  import opened Facts
  import opened Persistence

  lemma NothingQueued(groups: seq<seq<Op>>, i: nat)
    requires NoneEmpty(groups) && i <= |groups| && Span(groups, i, |groups|) == []
    ensures i == |groups|
  {
  }

  /** The batch that is out lands and the next attempt hands over the rest. */
  function Landing(s: Controller): Controller { Finally(Then(Land(s, true)), Promised) }

  lemma LandingKeeps(m: Mirror, s: Controller)
    requires Inv(m, s)
    ensures Inv(m, Landing(s)) && Landing(s).debt.groups == s.debt.groups
  {
    hide DebtInv, Wakes, Answers, Finally, Then;
    NextKeeps(m, s, LandEvent(true));
    NextKeeps(m, Land(s, true), ThenEvent);
    NextKeeps(m, Then(Land(s, true)), FinallyEvent(Promised));
    NextAccepts(Land(s, true), ThenEvent);
    NextAccepts(Then(Land(s, true)), FinallyEvent(Promised));
  }

  lemma LandingEnds(m: Mirror, s: Controller)
    requires Inv(m, s)
    ensures Landing(s).debt.flight.Idle?
      || (Landing(s).debt.flight.Out? && Landing(s).debt.handed == |s.debt.groups|)
    ensures s.debt.flight.Out? && s.debt.handed == |s.debt.groups| ==> Landing(s).debt.base == |s.debt.groups|
    ensures s.debt.flight.Idle? ==> Landing(s) == s
  {
    if s.debt.flight.Out? && s.debt.handed == |s.debt.groups| {
      NoSpan(s.debt.groups, s.debt.handed);
    }
  }

  lemma FlushHands(m: Mirror, s: Controller, w: nat, outcome: Outcome)
    requires Inv(m, s) && outcome != Threw
    requires s.debt.flight.Idle? || (s.debt.flight.Out? && s.debt.handed == |s.debt.groups|)
    ensures var t := Flush(s, w, outcome).debt;
      && t.groups == s.debt.groups
      && ((t.flight.Idle? && t.base == |t.groups|) || (t.flight.Out? && t.handed == |t.groups|))
      && (s.debt.flight.Idle? && outcome == Done ==> t.base == |t.groups|)
  {
    if s.debt.flight.Idle? && s.debt.queue == [] { NothingQueued(s.debt.groups, s.debt.handed); }
  }

  /** Whatever its state, the controller of an asynchronous port gets everything accepted confirmed if the port
      takes what it is handed. */
  lemma Drains(m: Mirror, s: Controller)
    requires Inv(m, s)
    ensures var t := Landing(Flush(Landing(s), 0, Promised));
      t.debt.groups == s.debt.groups && t.debt.base == |s.debt.groups|
  {
    var a := Landing(s);
    LandingKeeps(m, s);
    LandingEnds(m, s);
    hide Landing, DebtInv, Wakes, Answers;
    FlushHands(m, a, 0, Promised);
    FlushKeeps(m, a, 0, Promised);
    var b := Flush(a, 0, Promised);
    hide Flush;
    LandingKeeps(m, b);
    LandingEnds(m, b);
  }
}
