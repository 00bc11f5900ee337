/**
  * The checker goroutine of one connection against its worker.  Every interleaving of redials, reports and ticks
  * is a list of actions; a redial may lose the address, and a tick looks at it.
  */
module AddressCheck {
  import opened Telnet

  /** `live`: the worker has a connection; `ended`: the checker has left its loop. */
  datatype State = State(live: bool, addressed: bool, onFailure: bool, ended: bool, panicked: bool)

  /** Redial: the worker, on a timeout.  Report: the worker, on any failure that it reports.  End: Close. */
  datatype Action = Redial(dial: Dial) | Report | Tick(check: Check) | End

  const FRESH_LINE := State(true, true, false, false, false)

  /** Only a worker with a connection can have a timeout, and none that has latched a failure uses it again. */
  predicate Enabled(s: State, a: Action) {
    !s.panicked &&
    match a
    case Redial(_) => s.live && !s.onFailure
    case Report => true
    case Tick(check) => !s.ended && check != NoTick
    case End => !s.ended
  }

  function Step(s: State, a: Action): State
    requires Enabled(s, a)
  {
    match a
    case Redial(dial) => s.(live := dial.Dialed?, addressed := !dial.NotResolved?)
    case Report => s.(onFailure := true)
    case Tick(check) =>
      if s.onFailure then s
      else if check == NameLost then s.(onFailure := true, ended := true)
      else if !s.addressed then s.(panicked := true)
      else if check == AllWell then s
      else s.(onFailure := true, ended := true)
    case End => s.(ended := true)
  }

  predicate Possible(s: State, actions: seq<Action>)
    decreases |actions|
  {
    actions != [] ==> Enabled(s, actions[0]) && Possible(Step(s, actions[0]), actions[1..])
  }

  function Run(s: State, actions: seq<Action>): State
    requires Possible(s, actions)
    decreases |actions|
  {
    if actions == [] then s else Run(Step(s, actions[0]), actions[1..])
  }

  /** The name is resolved at that tick, so the address is looked at. */
  predicate Resolves(a: Action) {
    a.Tick? && a.check in {AddressChanged, AddressDead, AllWell}
  }

  /** The address is lost, and the next thing that happens to the line is that it is looked at. */
  predicate LooksTooEarly(actions: seq<Action>, i: nat) {
    i + 1 < |actions| && actions[i] == Redial(NotResolved) && Resolves(actions[i + 1])
  }

  /** Nothing keeps the checker from looking at an address that is not there. */
  predicate Exposed(s: State) {
    !s.addressed && !s.onFailure && !s.ended && !s.panicked
  }

  lemma {:induction false} PanicsFrom(s: State, actions: seq<Action>)
    requires Possible(s, actions) && !s.panicked && (s.live ==> s.addressed)
    ensures Run(s, actions).panicked
       <==> (Exposed(s) && actions != [] && Resolves(actions[0])) || exists i: nat :: LooksTooEarly(actions, i)
    decreases |actions|
  {
    if actions != [] {
      var next, rest := Step(s, actions[0]), actions[1..];
      if next.panicked {
        assert rest == [];
      } else {
        PanicsFrom(next, rest);
        if i: nat :| LooksTooEarly(rest, i) {
          assert LooksTooEarly(actions, i + 1);
        }
        if i: nat :| LooksTooEarly(actions, i) && 0 < i {
          assert LooksTooEarly(rest, i - 1);
        }
        if Exposed(next) && rest != [] && Resolves(rest[0]) {
          assert LooksTooEarly(actions, 0);
        }
      }
    }
  }

  /**
    * Over every run the checker goroutine panics exactly when a redial fails to resolve the name and, before
    * the failure is reported or the checker ended, a tick resolves it again.
    */
  lemma PanicsExactlyWhen(actions: seq<Action>)
    requires Possible(FRESH_LINE, actions)
    ensures Run(FRESH_LINE, actions).panicked <==> exists i: nat :: LooksTooEarly(actions, i)
  {
    PanicsFrom(FRESH_LINE, actions);
  }

  /** A tick that finds something wrong before the worker has reported anything. */
  predicate ReportsAt(actions: seq<Action>, i: nat) {
    && i < |actions| && actions[i].Tick? && actions[i].check in {NameLost, AddressChanged, AddressDead}
    && Report !in actions[..i]
  }

  lemma ReportsLater(actions: seq<Action>, i: nat)
    requires actions != [] && 0 < i
    ensures ReportsAt(actions, i) <==> actions[0] != Report && ReportsAt(actions[1..], i - 1)
  {
    if i < |actions| {
      assert actions[..i] == [actions[0]] + actions[1..][..i - 1];
    }
  }

  /** Behind its end there are no ticks, and only the worker latches the failure. */
  lemma {:induction false} StaysEnded(s: State, actions: seq<Action>)
    requires Possible(s, actions) && s.ended && !s.panicked
    ensures var q := Run(s, actions);
            q.ended && !q.panicked && (q.onFailure <==> s.onFailure || Report in actions)
    ensures forall i :: 0 <= i < |actions| ==> !actions[i].Tick?
    decreases |actions|
  {
    if actions != [] {
      StaysEnded(Step(s, actions[0]), actions[1..]);
      assert forall i :: 0 < i < |actions| ==> actions[i] == actions[1..][i - 1];
      assert Report in actions <==> actions[0] == Report || Report in actions[1..];
    }
  }

  lemma {:induction false} EndsFrom(s: State, actions: seq<Action>)
    requires Possible(s, actions) && !s.panicked && !s.ended
    ensures var q := Run(s, actions);
            var reports := !s.onFailure && exists i: nat :: ReportsAt(actions, i);
            !q.panicked ==>
              && (q.ended <==> End in actions || reports)
              && (q.onFailure <==> s.onFailure || Report in actions || reports)
    decreases |actions|
  {
    if actions != [] {
      var next, rest := Step(s, actions[0]), actions[1..];
      assert End in actions <==> actions[0] == End || End in rest;
      assert Report in actions <==> actions[0] == Report || Report in rest;
      forall i: nat | 0 < i
        ensures ReportsAt(actions, i) <==> actions[0] != Report && ReportsAt(rest, i - 1)
      {
        ReportsLater(actions, i);
      }
      if next.panicked {
        assert rest == [];
      } else if next.ended {
        StaysEnded(next, rest);
        assert actions[0] != End ==> ReportsAt(actions, 0);
      } else {
        EndsFrom(next, rest);
        if i: nat :| ReportsAt(rest, i) {
          assert actions[0] != Report ==> ReportsAt(actions, i + 1);
        }
        if i: nat :| ReportsAt(actions, i) && !s.onFailure {
          assert 0 < i;
        }
      }
    }
  }

  /**
    * Over every run without that panic the checker goroutine leaves exactly when it is told to, or finds something
    * wrong before the worker has reported a failure; and that is when, besides the worker, it latches one.
    */
  lemma LeavesExactlyWhen(actions: seq<Action>)
    requires Possible(FRESH_LINE, actions) && !Run(FRESH_LINE, actions).panicked
    ensures var q := Run(FRESH_LINE, actions);
            var reports := exists i: nat :: ReportsAt(actions, i);
            (q.ended <==> End in actions || reports) && (q.onFailure <==> Report in actions || reports)
  {
    EndsFrom(FRESH_LINE, actions);
  }
}
