/**
 The order of what the goroutines of a run do, said of a run's events alone: which of its acts
 the attacher can do after which, which of its moves the main goroutine can, and what each
 answer that they get tells of the events before it (tools/cmd/invirtio/run.go).
 */
module SupervisorOrder {
  import opened Supervisor

  /** What the attacher did, in order. */
  function Acts(log: seq<Event>): seq<Act> {
    if log == [] then []
    else
      var last := log[|log| - 1];
      Acts(log[..|log| - 1]) + if last.A? then [last.act] else []
  }

  function Moves(log: seq<Event>): seq<Move> {
    if log == [] then []
    else
      var last := log[|log| - 1];
      Moves(log[..|log| - 1]) + if last.M? then [last.move] else []
  }

  lemma OneMore(log: seq<Event>, e: Event)
    ensures Acts(log + [e]) == Acts(log) + if e.A? then [e.act] else []
    ensures Moves(log + [e]) == Moves(log) + if e.M? then [e.move] else []
  {
    assert (log + [e])[..|log|] == log;
  }

  /** The end of a turn in which the device was not on the bus. */
  predicate EndsTurn(a: Act) {
    a == AddEnds || a == LooksExists(false)
  }

  /** The end of the loop under the lock: it was stopped, or the device was on the bus. */
  predicate EndsLoop(a: Act) {
    a == ChecksStopped || a.ReadsGone?
  }

  /** What can come right before an act, and before that. */
  predicate ActFollows(acts: seq<Act>, i: nat)
    requires i < |acts|
  {
    match acts[i]
    case LoopTests(_) => i == 0 || (i >= 2 && acts[i - 1] == Unlocks && EndsTurn(acts[i - 2]))
    case Locks => i > 0 && acts[i - 1] == LoopTests(false)
    case ChecksStopped => i > 0 && acts[i - 1] == Locks
    case LooksAttached(_) => i > 0 && acts[i - 1] == ChecksStopped
    case Binds(_) => i > 0 && acts[i - 1] == LooksAttached(true)
    case ReadsGone(_) => i > 0 && acts[i - 1].Binds?
    case LooksExists(_) => i > 0 && acts[i - 1] == LooksAttached(false)
    case AddStarts => i >= 2 && acts[i - 1] == LooksExists(true) && acts[i - 2] == LooksAttached(false)
    case AddEnds => i > 0 && acts[i - 1] == AddStarts
    case Unlocks => i > 0 && (EndsTurn(acts[i - 1]) || EndsLoop(acts[i - 1]))
    case Ends =>
      i > 0 && (acts[i - 1] == LoopTests(true) || (i >= 2 && acts[i - 1] == Unlocks && EndsLoop(acts[i - 2])))
  }

  /** An act or nothing before it. */
  predicate LastIs(acts: seq<Act>, a: Act) {
    acts != [] && acts[|acts| - 1] == a
  }

  predicate UnlockedAfter(acts: seq<Act>) {
    |acts| >= 2 && acts[|acts| - 1] == Unlocks
  }

  /** Where its acts leave the attacher. */
  predicate At(acts: seq<Act>, s: State) {
    var n := |acts|;
    match s.attacher
    case Top => acts == [] || (UnlockedAfter(acts) && EndsTurn(acts[n - 2]))
    case Locking => LastIs(acts, LoopTests(false))
    case Checking => LastIs(acts, Locks)
    case Looking => LastIs(acts, ChecksStopped)
    case Binding => LastIs(acts, LooksAttached(true))
    case Bound(ok) => LastIs(acts, Binds(ok))
    case NotAttached => LastIs(acts, LooksAttached(false))
    case Adding => |acts| >= 2 && LastIs(acts, LooksExists(true)) && acts[n - 2] == LooksAttached(false)
    case Added => LastIs(acts, AddStarts)
    case Leaving => acts != [] && EndsTurn(acts[n - 1])
    case Finishing =>
      if s.owner == ByAttacher then acts != [] && EndsLoop(acts[n - 1])
      else LastIs(acts, LoopTests(true)) || (UnlockedAfter(acts) && EndsLoop(acts[n - 2]))
    case Ended => LastIs(acts, Ends)
  }

  lemma ActKeepsPlace(acts: seq<Act>, s: State, a: Act)
    requires Consistent(s) && At(acts, s) && AttacherCan(s, a)
    ensures At(acts + [a], AttacherStep(s, a)) && ActFollows(acts + [a], |acts|)
  {
  }

  lemma OthersKeepPlace(acts: seq<Act>, s: State, e: Event, net: bool)
    requires Consistent(s) && At(acts, s) && Enabled(s, e) && !e.A?
    ensures At(acts, Step(s, e, net))
  {
    var r := Step(s, e, net);
    assert r.attacher == s.attacher;
    if e.M? {
      MoveLeavesLock(s, e.move, net);
    }
    hide MainStep, MainCan;
  }

  lemma MoveLeavesLock(s: State, m: Move, net: bool)
    requires Consistent(s) && MainCan(s, m)
    ensures MainStep(s, m, net).owner == ByAttacher <==> s.owner == ByAttacher
  {
  }

  ghost predicate ActsFollow(acts: seq<Act>) {
    forall i | 0 <= i < |acts| :: ActFollows(acts, i)
  }

  lemma ActsFollowAppend(acts: seq<Act>, a: Act)
    requires ActsFollow(acts) && ActFollows(acts + [a], |acts|)
    ensures ActsFollow(acts + [a])
  {
    forall i | 0 <= i < |acts|
      ensures ActFollows(acts + [a], i)
    {
      assert ActFollows(acts, i);
    }
  }

  lemma {:induction false} AttacherInOrder(log: seq<Event>, s: State, net: bool)
    requires Run(log, s, net)
    ensures ActsFollow(Acts(log)) && At(Acts(log), s)
    decreases |log|
  {
    if log != [] {
      hide *;
      var start, before, e := RunBefore(log, s, net);
      AttacherInOrder(start, before, net);
      OneMore(start, e);
      NextInOrder(start, before, e, net);
    }
  }

  lemma NextInOrder(start: seq<Event>, s: State, e: Event, net: bool)
    requires Consistent(s) && Enabled(s, e) && ActsFollow(Acts(start)) && At(Acts(start), s)
    ensures ActsFollow(Acts(start + [e])) && At(Acts(start + [e]), Step(s, e, net))
  {
    hide Acts, At, ActsFollow, AttacherStep, AttacherCan, MainStep, MainCan, Consistent;
    OneMore(start, e);
    if e.A? {
      ActKeepsPlace(Acts(start), s, e.act);
      ActsFollowAppend(Acts(start), e.act);
    } else {
      OthersKeepPlace(Acts(start), s, e, net);
      assert Acts(start) + [] == Acts(start);
    }
  }

  /**
   In every run, the attacher adds the device exactly where it has looked and found that the
   device is not on the bus and then that it exists, and binds it exactly where it is.
   */
  lemma AddsExactly(log: seq<Event>, s: State, net: bool, i: nat)
    requires Run(log, s, net) && 1 <= i < |Acts(log)|
    ensures var acts := Acts(log);
      && ActFollows(acts, i)
      && (acts[i] == AddStarts <==> acts[i - 1] == LooksExists(true))
      && (acts[i].Binds? <==> acts[i - 1] == LooksAttached(true))
      && (acts[i].LooksExists? <==> acts[i - 1] == LooksAttached(false))
      && (acts[i - 1] == LooksExists(false) ==> acts[i] == Unlocks)
  {
    AttacherInOrder(log, s, net);
    assert ActFollows(Acts(log), i) && ActFollows(Acts(log), i - 1);
    hide Run, Acts;
  }

  /** The attacher gives up at its check of stopped. */
  predicate GivesUp(acts: seq<Act>, i: int) {
    0 < i < |acts| && acts[i] == Unlocks && acts[i - 1] == ChecksStopped
  }

  ghost predicate StoppedIfGivenUp(log: seq<Event>, s: State) {
    && (s.attacher == Finishing && LastIs(Acts(log), ChecksStopped) ==> Has(log, M(SetsStopped)))
    && (forall i | GivesUp(Acts(log), i) :: Has(log, M(SetsStopped)))
  }

  lemma GivenUpAct(acts: seq<Act>, s: State, a: Act)
    requires Consistent(s) && AttacherCan(s, a) && At(acts, s)
    ensures a == ChecksStopped && AttacherStep(s, a).attacher == Finishing ==> s.stopped
    ensures a == Unlocks && LastIs(acts, ChecksStopped) ==> s.attacher == Finishing
  {
  }

  lemma GivenUpNext(start: seq<Event>, s: State, e: Event, net: bool)
    requires Consistent(s) && Enabled(s, e) && At(Acts(start), s) && StoppedIfGivenUp(start, s)
    requires Has(start, M(SetsStopped)) <==> s.stopped
    ensures StoppedIfGivenUp(start + [e], Step(s, e, net))
  {
    OneMore(start, e);
    HasAppend(start, e, M(SetsStopped));
    if e.A? {
      GivenUpAct(Acts(start), s, e.act);
    }
    hide Acts, Has, MainStep, MainCan, Consistent, At, AttacherStep, AttacherCan;
    var acts, more := Acts(start), Acts(start + [e]);
    forall i | GivesUp(more, i)
      ensures Has(start + [e], M(SetsStopped))
    {
      if i < |acts| {
        assert GivesUp(acts, i);
      } else {
        assert LastIs(acts, ChecksStopped);
      }
    }
  }

  lemma {:induction false} RunGivesUp(log: seq<Event>, s: State, net: bool)
    requires Run(log, s, net)
    ensures StoppedIfGivenUp(log, s)
    decreases |log|
  {
    if log != [] {
      hide *;
      var start, before, e := RunBefore(log, s, net);
      RunGivesUp(start, before, net);
      AttacherInOrder(start, before, net);
      StopIsFlagged(start, before, net);
      GivenUpNext(start, before, e, net);
    }
  }

  lemma StopIsFlagged(log: seq<Event>, s: State, net: bool)
    requires Run(log, s, net)
    ensures Has(log, M(SetsStopped)) <==> s.stopped
  {
    RunIsRecorded(log, s, net);
  }

  /** The attacher gives up at its check only if it was told to stop, and else looks for the device. */
  lemma ChecksExactly(log: seq<Event>, s: State, net: bool, i: nat)
    requires Run(log, s, net) && 1 <= i < |Acts(log)| && Acts(log)[i - 1] == ChecksStopped
    ensures Acts(log)[i].LooksAttached? || (Acts(log)[i] == Unlocks && Has(log, M(SetsStopped)))
  {
    AddsExactly(log, s, net, i);
    RunGivesUp(log, s, net);
    hide Run, Acts, Has;
    assert Acts(log)[i] == Unlocks ==> GivesUp(Acts(log), i);
  }

  // The main goroutine.

  predicate IsDrain(m: Move) {
    m.Drains?
  }

  ghost predicate HasDrained(moves: seq<Move>) {
    exists i :: 0 <= i < |moves| && IsDrain(moves[i])
  }

  /** A signal has made it stop the attacher before. */
  predicate HasStopped(moves: seq<Move>) {
    FindsNoExit in moves
  }

  /** What can come right before a move, which the moves before that tell. */
  ghost predicate MoveFollows(moves: seq<Move>, i: nat)
    requires i < |moves|
  {
    match moves[i]
    case TakesSignal => i == 0 || moves[i - 1] == Terminates
    case TakesExit => i == 0 || moves[i - 1] == Terminates
    case FindsExit => i > 0 && moves[i - 1] == TakesSignal
    case FindsNoExit => i > 0 && moves[i - 1] == TakesSignal
    case SetsStopped =>
      i > 0 && (moves[i - 1].Drains? || (moves[i - 1] == FindsNoExit && !HasStopped(moves[..i - 1])))
    case StopUnlocks => i > 0 && moves[i - 1] == SetsStopped
    case StopReturns => i > 0 && moves[i - 1] == StopUnlocks
    case Removes => i > 0 && moves[i - 1] == StopReturns && !HasDrained(moves[..i])
    case Terminates =>
      i > 0 && (moves[i - 1] == Removes || (moves[i - 1] == FindsNoExit && HasStopped(moves[..i - 1])))
    case Drains(_) => i > 0 && (moves[i - 1] == FindsExit || moves[i - 1] == TakesExit)
    case ReadsLive => i > 0 && moves[i - 1] == StopReturns && HasDrained(moves[..i])
    case Decides(_) => i > 0 && moves[i - 1] == ReadsLive
  }

  /** Where its moves leave the main goroutine. */
  ghost predicate MainAt(moves: seq<Move>, s: State) {
    var n := |moves|;
    && (InLoop(s.main) ==> !HasDrained(moves))
    && (s.main == Select ==> (s.stopping <==> HasStopped(moves)))
    && match s.main
       case Select => moves == [] || moves[n - 1] == Terminates
       case Signalled => moves != [] && moves[n - 1] == TakesSignal && (s.stopping <==> HasStopped(moves))
       case Stopping(first, stop) =>
         && moves != []
         && (first || HasDrained(moves))
         && (first ==> s.stopping && HasStopped(moves))
         && (match stop
             case Lock =>
               if first then moves[n - 1] == FindsNoExit && !HasStopped(moves[..n - 1])
               else moves[n - 1].Drains?
             case Unlock => moves[n - 1] == SetsStopped
             case Wait => moves[n - 1] == StopUnlocks)
       case Removing =>
         moves != [] && moves[n - 1] == StopReturns && s.stopping && HasStopped(moves)
       case Terminating =>
         && moves != [] && s.stopping && HasStopped(moves)
         && (moves[n - 1] == Removes || (moves[n - 1] == FindsNoExit && HasStopped(moves[..n - 1])))
       case Draining => moves != [] && (moves[n - 1] == FindsExit || moves[n - 1] == TakesExit)
       case ReadingLive => moves != [] && moves[n - 1] == StopReturns && HasDrained(moves)
       case Deciding(_) => moves != [] && moves[n - 1] == ReadsLive
       case Finished(_) => moves != [] && moves[n - 1].Decides?
  }

  lemma MovesGrow(moves: seq<Move>, m: Move)
    ensures HasDrained(moves + [m]) <==> HasDrained(moves) || m.Drains?
    ensures HasStopped(moves + [m]) <==> HasStopped(moves) || m == FindsNoExit
    ensures (moves + [m])[..|moves|] == moves && (moves + [m])[|moves|] == m
  {
    var more := moves + [m];
    if i :| 0 <= i < |moves| && IsDrain(moves[i]) {
      assert IsDrain(more[i]);
    }
    if i :| 0 <= i < |more| && IsDrain(more[i]) {
      assert i < |moves| ==> IsDrain(moves[i]);
    }
    if m.Drains? {
      assert IsDrain(more[|moves|]);
    }
  }

  lemma MoveKeepsPlace(moves: seq<Move>, s: State, m: Move, net: bool)
    requires MainAt(moves, s) && MainCan(s, m)
    ensures MainAt(moves + [m], MainStep(s, m, net)) && MoveFollows(moves + [m], |moves|)
  {
    MovesGrow(moves, m);
    if moves != [] {
      var init := moves[..|moves| - 1];
      assert (moves + [m])[..|moves| - 1] == init;
    }
    hide HasDrained, HasStopped;
  }

  lemma OthersKeepMain(moves: seq<Move>, s: State, e: Event, net: bool)
    requires MainAt(moves, s) && Enabled(s, e) && !e.M?
    ensures MainAt(moves, Step(s, e, net))
  {
    hide HasDrained, HasStopped;
  }

  ghost predicate MovesFollow(moves: seq<Move>) {
    forall i | 0 <= i < |moves| :: MoveFollows(moves, i)
  }

  lemma MovesFollowAppend(moves: seq<Move>, m: Move)
    requires MovesFollow(moves) && MoveFollows(moves + [m], |moves|)
    ensures MovesFollow(moves + [m])
  {
    hide HasDrained, HasStopped;
    var more := moves + [m];
    forall i | 0 <= i < |moves|
      ensures MoveFollows(more, i)
    {
      assert MoveFollows(moves, i);
      assert more[..i] == moves[..i] && (i > 0 ==> more[..i - 1] == moves[..i - 1]);
    }
  }

  lemma MainNext(start: seq<Event>, s: State, e: Event, net: bool)
    requires Enabled(s, e) && MovesFollow(Moves(start)) && MainAt(Moves(start), s)
    ensures MovesFollow(Moves(start + [e])) && MainAt(Moves(start + [e]), Step(s, e, net))
  {
    hide Moves, MainAt, MovesFollow, AttacherStep, AttacherCan, MainStep, MainCan;
    OneMore(start, e);
    if e.M? {
      MoveKeepsPlace(Moves(start), s, e.move, net);
      MovesFollowAppend(Moves(start), e.move);
    } else {
      OthersKeepMain(Moves(start), s, e, net);
      assert Moves(start) + [] == Moves(start);
    }
  }

  /**
   In every run, the first stop signal stops the attacher, removes the device and then ends the
   launcher, each later one only ends the launcher, and an exit of the launcher leads to the
   drain, a stop of the attacher, the look at live and the decision.
   */
  lemma {:induction false} MainInOrder(log: seq<Event>, s: State, net: bool)
    requires Run(log, s, net)
    ensures MovesFollow(Moves(log)) && MainAt(Moves(log), s)
    decreases |log|
  {
    if log != [] {
      hide *;
      var start, before, e := RunBefore(log, s, net);
      MainInOrder(start, before, net);
      MainNext(start, before, e, net);
    } else {
      assert !HasDrained(Moves(log)) && Moves(log) == [];
    }
  }

  // What the goroutines learn of each other.

  /** Two signals can wait to be taken, and each that is taken or drained is one less. */
  lemma SignalsWaitExactly(s: State, e: Event, net: bool)
    requires Enabled(s, e) && s.signals <= 2
    ensures e == Signal ==> Step(s, e, net).signals == if s.signals < 2 then s.signals + 1 else 2
    ensures e == M(TakesSignal) ==> Step(s, e, net).signals == s.signals - 1
    ensures e.M? && e.move.Drains? ==> Step(s, e, net).signals == if e.move.signal then s.signals - 1 else 0
    ensures !(e == Signal || e == M(TakesSignal) || (e.M? && e.move.Drains?)) ==>
      Step(s, e, net).signals == s.signals
  {
    hide AttacherStep, AttacherCan, MainStep, MainCan;
    if e.M? {
      MoveTakesSignals(s, e.move, net);
    }
  }

  lemma MoveTakesSignals(s: State, m: Move, net: bool)
    requires MainCan(s, m)
    ensures m == TakesSignal ==> s.signals > 0 && MainStep(s, m, net).signals == s.signals - 1
    ensures m.Drains? ==>
      (m.signal ==> s.signals > 0) && MainStep(s, m, net).signals == if m.signal then s.signals - 1 else 0
    ensures m != TakesSignal && !m.Drains? ==> MainStep(s, m, net).signals == s.signals
  {
  }

  lemma {:induction false} ExitIsSent(log: seq<Event>, s: State, net: bool)
    requires Run(log, s, net)
    ensures Has(log, SendsExit) <==> s.waiter == Sent
    decreases |log|
  {
    if log != [] {
      hide *;
      var start, before, e := RunBefore(log, s, net);
      ExitIsSent(start, before, net);
      HasAppend(start, e, SendsExit);
      WaiterMoves(before, e, net);
    }
  }

  lemma WaiterMoves(s: State, e: Event, net: bool)
    requires Enabled(s, e)
    ensures Step(s, e, net).waiter == Sent <==> s.waiter == Sent || e == SendsExit
    ensures Step(s, e, net).waiter != Waiting <==> s.waiter != Waiting || e == LauncherDies
  {
    hide AttacherStep, AttacherCan, MainStep, MainCan;
  }

  /**
   What is found is so: the launcher's exit is taken only once it was sent, and a signal's look
   for it finds none only before. What the attacher reads as gone, and only that, was stored.
   */
  lemma {:induction false} FindingsAreTrue(log: seq<Event>, s: State, net: bool)
    requires Run(log, s, net)
    ensures Ordered(log, M(FindsExit), {SendsExit}, {}) && Ordered(log, M(TakesExit), {SendsExit}, {})
    ensures Ordered(log, M(FindsNoExit), {}, {SendsExit})
    ensures Ordered(log, A(ReadsGone(true)), {StoresGone}, {})
    ensures Ordered(log, A(ReadsGone(false)), {}, {StoresGone})
    ensures Ordered(log, StoresGone, {LauncherDies}, {}) && Ordered(log, SendsExit, {StoresGone}, {})
    decreases |log|
  {
    if log != [] {
      hide Ordered, Run;
      var start, before, e := RunBefore(log, s, net);
      FindingsAreTrue(start, before, net);
      RunIsRecorded(start, before, net);
      ExitIsSent(start, before, net);
      DeathIsLogged(start, before, net);
      Findings(start, before, e);
      hide Recorded, Step, Flagged, Has, Consistent, Enabled;
      OrderedAppend(start, e, M(FindsExit), {SendsExit}, {});
      OrderedAppend(start, e, M(TakesExit), {SendsExit}, {});
      OrderedAppend(start, e, M(FindsNoExit), {}, {SendsExit});
      OrderedAppend(start, e, A(ReadsGone(true)), {StoresGone}, {});
      OrderedAppend(start, e, A(ReadsGone(false)), {}, {StoresGone});
      OrderedAppend(start, e, StoresGone, {LauncherDies}, {});
      OrderedAppend(start, e, SendsExit, {StoresGone}, {});
    }
  }

  lemma {:induction false} DeathIsLogged(log: seq<Event>, s: State, net: bool)
    requires Run(log, s, net)
    ensures LauncherDies in log <==> s.waiter != Waiting
    decreases |log|
  {
    if log != [] {
      hide *;
      var start, before, e := RunBefore(log, s, net);
      DeathIsLogged(start, before, net);
      WaiterMoves(before, e, net);
    }
  }

  lemma Findings(start: seq<Event>, s: State, e: Event)
    requires Consistent(s) && Enabled(s, e) && Flagged(start, s)
    requires Has(start, SendsExit) <==> s.waiter == Sent
    requires LauncherDies in start <==> s.waiter != Waiting
    ensures e == M(FindsExit) || e == M(TakesExit) ==> SendsExit in start
    ensures e == M(FindsNoExit) ==> SendsExit !in start
    ensures e == A(ReadsGone(true)) || e == SendsExit ==> StoresGone in start
    ensures e == A(ReadsGone(false)) ==> StoresGone !in start
    ensures e == StoresGone ==> LauncherDies in start
  {
  }
}
