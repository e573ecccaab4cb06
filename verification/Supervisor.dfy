/**
 The goroutines of one run of a device's guest (supervise and startAttacher in
 tools/cmd/invirtio/run.go): the attacher, the waiter for the launcher, and the main loop with
 the stop signals. Each step is one access to what they share, and steps interleave freely. What
 sysfs and the commands answer can be anything at any time.
 */
module Supervisor {

  /** Where the attacher is in its loop. */
  datatype Attacher =
    | Top
    | Locking
    | Checking
    | Looking
    | Binding
    | Bound(ok: bool)
    | NotAttached
    | Adding
    | Added
    | Leaving
    | Finishing
    | Ended

  /** The goroutine that waits for the launcher. */
  datatype Waiter = Waiting | Exited | Stored | Sent

  datatype Stop = Lock | Unlock | Wait

  /** Where the main loop and what follows it are. The first stop is for a signal. */
  datatype Main =
    | Select
    | Signalled
    | Stopping(first: bool, stop: Stop)
    | Removing
    | Terminating
    | Draining
    | ReadingLive
    | Deciding(live: bool)
    | Finished(kept: bool)

  datatype Owner = Nobody | ByAttacher | ByMain

  datatype State = State(
    attacher: Attacher,
    waiter: Waiter,
    main: Main,
    owner: Owner,
    stopped: bool,
    live: bool,
    gone: bool,
    exited: bool,
    signals: nat,
    stopping: bool)

  /** What the attacher does, each under the lock from the check of stopped to the unlock. */
  datatype Act =
    | LoopTests(late: bool)
    | Locks
    | ChecksStopped
    | LooksAttached(attached: bool)
    | Binds(ok: bool)
    | ReadsGone(gone: bool)
    | LooksExists(present: bool)
    | AddStarts
    | AddEnds
    | Unlocks
    | Ends

  /** What the main goroutine does. */
  datatype Move =
    | TakesSignal
    | FindsExit
    | FindsNoExit
    | TakesExit
    | SetsStopped
    | StopUnlocks
    | StopReturns
    | Removes
    | Terminates
    | Drains(signal: bool)
    | ReadsLive
    | Decides(attached: bool)

  datatype Event = Signal | LauncherDies | StoresGone | SendsExit | A(act: Act) | M(move: Move)

  const INITIAL := State(Top, Waiting, Select, Nobody, false, false, false, false, 0, false)

  /** The capacity of sigs. A signal that finds it full is lost. */
  const MAX_SIGNALS := 2

  predicate AttacherCan(s: State, a: Act) {
    match a
    case LoopTests(_) => s.attacher == Top
    case Locks => s.attacher == Locking && s.owner == Nobody
    case ChecksStopped => s.attacher == Checking
    case LooksAttached(_) => s.attacher == Looking
    case Binds(_) => s.attacher == Binding
    case ReadsGone(gone) => s.attacher.Bound? && gone == s.gone
    case LooksExists(_) => s.attacher == NotAttached
    case AddStarts => s.attacher == Adding
    case AddEnds => s.attacher == Added
    case Unlocks => s.attacher == Leaving || (s.attacher == Finishing && s.owner == ByAttacher)
    case Ends => s.attacher == Finishing && s.owner != ByAttacher
  }

  function AttacherStep(s: State, a: Act): (r: State)
    requires AttacherCan(s, a)
    ensures r == s.(attacher := r.attacher, owner := r.owner, live := r.live)
    ensures r.attacher == Ended <==> a == Ends
  {
    match a
    case LoopTests(late) => s.(attacher := if late then Finishing else Locking)
    case Locks => s.(attacher := Checking, owner := ByAttacher)
    case ChecksStopped => s.(attacher := if s.stopped then Finishing else Looking)
    case LooksAttached(attached) => s.(attacher := if attached then Binding else NotAttached)
    case Binds(ok) => s.(attacher := Bound(ok))
    case ReadsGone(gone) => s.(attacher := Finishing, live := s.attacher.ok && !gone)
    case LooksExists(present) => s.(attacher := if present then Adding else Leaving)
    case AddStarts => s.(attacher := Added)
    case AddEnds => s.(attacher := Leaving)
    case Unlocks => s.(attacher := if s.attacher == Leaving then Top else s.attacher, owner := Nobody)
    case Ends => s.(attacher := Ended)
  }

  predicate MainCan(s: State, m: Move) {
    match m
    case TakesSignal => s.main == Select && s.signals > 0
    case FindsExit => s.main == Signalled && s.exited
    case FindsNoExit => s.main == Signalled && !s.exited
    case TakesExit => s.main == Select && s.exited
    case SetsStopped => s.main.Stopping? && s.main.stop == Lock && s.owner == Nobody
    case StopUnlocks => s.main.Stopping? && s.main.stop == Unlock
    case StopReturns => s.main.Stopping? && s.main.stop == Wait && s.attacher == Ended
    case Removes => s.main == Removing
    case Terminates => s.main == Terminating
    case Drains(signal) => s.main == Draining && signal == (s.signals > 0)
    case ReadsLive => s.main == ReadingLive && s.owner == Nobody
    case Decides(_) => s.main.Deciding?
  }

  /** The loop of supervise, and what follows it. */
  function MainStep(s: State, m: Move, net: bool): (r: State)
    requires MainCan(s, m)
    ensures r.attacher == s.attacher && r.waiter == s.waiter && r.live == s.live && r.gone == s.gone
    ensures r.stopped <==> s.stopped || m == SetsStopped
  {
    match m
    case TakesSignal => s.(main := Signalled, signals := s.signals - 1)
    case FindsExit => s.(main := Draining, exited := false, stopping := true)
    case FindsNoExit =>
      s.(main := if s.stopping then Terminating else Stopping(true, Lock), stopping := true)
    case TakesExit => s.(main := Draining, exited := false)
    case SetsStopped => s.(main := Stopping(s.main.first, Unlock), owner := ByMain, stopped := true)
    case StopUnlocks => s.(main := Stopping(s.main.first, Wait), owner := Nobody)
    case StopReturns => s.(main := if s.main.first then Removing else ReadingLive)
    case Removes => s.(main := Terminating)
    case Terminates => s.(main := Select)
    case Drains(signal) =>
      s.(main := Stopping(false, Lock), stopping := s.stopping || signal,
         signals := if signal then s.signals - 1 else 0)
    case ReadsLive => s.(main := Deciding(s.live))
    case Decides(attached) =>
      s.(main := Finished(!(s.stopping || !net || !s.main.live || !attached)))
  }

  predicate Enabled(s: State, e: Event) {
    match e
    case Signal => true
    case LauncherDies => s.waiter == Waiting
    case StoresGone => s.waiter == Exited
    case SendsExit => s.waiter == Stored
    case A(a) => AttacherCan(s, a)
    case M(m) => MainCan(s, m)
  }

  function Step(s: State, e: Event, net: bool): State
    requires Enabled(s, e)
  {
    match e
    case Signal => if s.signals < MAX_SIGNALS then s.(signals := s.signals + 1) else s
    case LauncherDies => s.(waiter := Exited)
    case StoresGone => s.(waiter := Stored, gone := true)
    case SendsExit => s.(waiter := Sent, exited := true)
    case A(a) => AttacherStep(s, a)
    case M(m) => MainStep(s, m, net)
  }

  /** A run: the events in order, each of which could happen where it did. */
  ghost predicate Run(log: seq<Event>, s: State, net: bool) {
    if log == [] then s == INITIAL
    else
      var n := |log| - 1;
      exists before: State :: Run(log[..n], before, net) && Enabled(before, log[n]) && s == Step(before, log[n], net)
  }

  /** The attacher has the lock. */
  predicate Holds(a: Attacher) {
    a == Checking || PastCheck(a)
  }

  /** The attacher saw, under the lock, that it was not stopped. */
  predicate PastCheck(a: Attacher) {
    || a == Looking || a == Binding || a.Bound?
    || a == NotAttached || a == Adding || a == Added || a == Leaving
  }

  /** The main goroutine has not taken the launcher's exit. */
  predicate InLoop(m: Main) {
    m == Select || m == Signalled || m == Removing || m == Terminating || (m.Stopping? && m.first)
  }

  /** What the fields say of each other in every reachable state. */
  predicate Consistent(s: State) {
    && (s.owner == ByMain <==> s.main.Stopping? && s.main.stop == Unlock)
    && (Holds(s.attacher) ==> s.owner == ByAttacher)
    && (s.owner == ByAttacher ==> Holds(s.attacher) || s.attacher == Finishing)
    && (PastCheck(s.attacher) ==> !s.stopped)
    && (s.live ==> s.attacher == Finishing || s.attacher == Ended)
    && (s.gone <==> s.waiter == Stored || s.waiter == Sent)
    && (s.exited <==> s.waiter == Sent && InLoop(s.main))
    && (InLoop(s.main) || s.waiter == Sent)
    && s.signals <= MAX_SIGNALS
  }

  lemma AttacherIsConsistent(s: State, a: Act)
    requires Consistent(s) && AttacherCan(s, a)
    ensures Consistent(AttacherStep(s, a))
  {
  }

  lemma MainIsConsistent(s: State, m: Move, net: bool)
    requires Consistent(s) && MainCan(s, m)
    ensures Consistent(MainStep(s, m, net))
  {
    hide *;
    if m in {SetsStopped, StopUnlocks, StopReturns} {
      StopIsConsistent(s, m, net);
    } else {
      LoopIsConsistent(s, m, net);
    }
  }

  lemma StopIsConsistent(s: State, m: Move, net: bool)
    requires Consistent(s) && MainCan(s, m) && m in {SetsStopped, StopUnlocks, StopReturns}
    ensures Consistent(MainStep(s, m, net))
  {
  }

  lemma LoopIsConsistent(s: State, m: Move, net: bool)
    requires Consistent(s) && MainCan(s, m) && m !in {SetsStopped, StopUnlocks, StopReturns}
    ensures Consistent(MainStep(s, m, net))
  {
  }

  lemma ConsistentNext(s: State, e: Event, net: bool)
    requires Consistent(s) && Enabled(s, e)
    ensures Consistent(Step(s, e, net))
  {
    match e
    case A(a) => AttacherIsConsistent(s, a);
    case M(m) => MainIsConsistent(s, m, net);
    case _ =>
  }

  lemma {:induction false} RunIsConsistent(log: seq<Event>, s: State, net: bool)
    requires Run(log, s, net)
    ensures Consistent(s)
    decreases |log|
  {
    if log != [] {
      hide Enabled, Step, Consistent;
      var n := |log| - 1;
      var before: State :| Run(log[..n], before, net) && Enabled(before, log[n]) && s == Step(before, log[n], net);
      RunIsConsistent(log[..n], before, net);
      ConsistentNext(before, log[n], net);
    } else {
      assert Consistent(INITIAL);
    }
  }

  /** A run that is not empty has a last event, and a run before it. */
  lemma RunBefore(log: seq<Event>, s: State, net: bool) returns (start: seq<Event>, before: State, e: Event)
    requires Run(log, s, net) && log != []
    ensures log == start + [e] && |start| < |log|
    ensures Run(start, before, net) && Consistent(before) && Enabled(before, e) && s == Step(before, e, net)
  {
    hide Enabled, Step, Consistent;
    var n := |log| - 1;
    start, e := log[..n], log[n];
    before :| Run(start, before, net) && Enabled(before, e) && s == Step(before, e, net);
    RunIsConsistent(start, before, net);
  }

  /** Wherever one event stands in a log, some others stand before it and some do not. */
  predicate Ordered(log: seq<Event>, e: Event, needed: set<Event>, barred: set<Event>) {
    forall j | 0 <= j < |log| && log[j] == e ::
      (forall n | n in needed :: n in log[..j]) && (forall b | b in barred :: b !in log[..j])
  }

  lemma OrderedAppend(log: seq<Event>, x: Event, e: Event, needed: set<Event>, barred: set<Event>)
    requires Ordered(log, e, needed, barred)
    requires x == e ==> (forall n | n in needed :: n in log) && (forall b | b in barred :: b !in log)
    ensures Ordered(log + [x], e, needed, barred)
  {
    forall j | 0 <= j < |log + [x]| && (log + [x])[j] == e
      ensures forall n | n in needed :: n in (log + [x])[..j]
      ensures forall b | b in barred :: b !in (log + [x])[..j]
    {
      assert (log + [x])[..j] == if j < |log| then log[..j] else log;
    }
  }

  predicate Has(log: seq<Event>, x: Event) {
    x in log
  }

  lemma HasAppend(log: seq<Event>, e: Event, x: Event)
    ensures Has(log + [e], x) <==> Has(log, x) || x == e
  {
  }

  /** The flags tell which events have happened. */
  predicate Flagged(log: seq<Event>, s: State) {
    && (Has(log, M(SetsStopped)) <==> s.stopped)
    && (Has(log, A(Ends)) <==> s.attacher == Ended)
    && (Has(log, StoresGone) <==> s.gone)
  }

  lemma FlaggedNext(log: seq<Event>, s: State, e: Event, net: bool)
    requires Consistent(s) && Flagged(log, s) && Enabled(s, e)
    ensures Flagged(log + [e], Step(s, e, net))
  {
    HasAppend(log, e, M(SetsStopped));
    HasAppend(log, e, A(Ends));
    HasAppend(log, e, StoresGone);
    hide Has, Consistent, AttacherStep, MainStep, MainCan;
  }

  /** Where the main goroutine is tells it too. */
  predicate Recorded(log: seq<Event>, s: State) {
    && (s.main.Stopping? && s.main.stop != Lock ==> s.stopped)
    && (s.main == Removing ==> s.attacher == Ended && s.stopped)
    && (s.main == Terminating || Has(log, M(Terminates)) ==> Has(log, M(Removes)))
    && (s.stopping && (s.main == Select || s.main == Signalled) ==> Has(log, M(Removes)))
  }

  /** What a move does to the fields that Recorded has. */
  lemma RecordedMove(s: State, m: Move, net: bool)
    requires MainCan(s, m)
    ensures var r := MainStep(s, m, net);
      && (r.main == Removing ==> s.main == Stopping(true, Wait) && s.attacher == Ended)
      && (r.main == Terminating ==> m == Removes || (s.main == Signalled && s.stopping))
      && (m == Terminates ==> s.main == Terminating)
      && (r.stopping && (r.main == Select || r.main == Signalled) ==>
            s.main == Terminating || (s.stopping && s.main == Select))
      && (r.main.Stopping? && r.main.stop != Lock ==> r.stopped || s.main == Stopping(r.main.first, Unlock))
  {
  }

  lemma RecordedNext(log: seq<Event>, s: State, e: Event, net: bool)
    requires Recorded(log, s) && Enabled(s, e)
    ensures Recorded(log + [e], Step(s, e, net))
  {
    HasAppend(log, e, M(Terminates));
    HasAppend(log, e, M(Removes));
    match e {
      case A(a) => assert s.attacher != Ended;
      case M(m) => RecordedMove(s, m, net);
      case _ =>
    }
    hide Has, AttacherStep, MainStep, MainCan, AttacherCan;
  }

  lemma {:induction false} RunIsRecorded(log: seq<Event>, s: State, net: bool)
    requires Run(log, s, net)
    ensures Flagged(log, s) && Recorded(log, s)
    decreases |log|
  {
    if log != [] {
      hide Flagged, Recorded, Step, Enabled, Consistent;
      var start, before, e := RunBefore(log, s, net);
      RunIsRecorded(start, before, net);
      FlaggedNext(start, before, e, net);
      RecordedNext(start, before, e, net);
    }
  }

  /**
   No add of the device starts once the attacher is told to stop, and none is in progress: an
   event of an add never follows the one that sets stopped.
   */
  lemma {:induction false} NoAddAfterStop(log: seq<Event>, s: State, net: bool)
    requires Run(log, s, net)
    ensures Ordered(log, A(AddStarts), {}, {M(SetsStopped)})
    ensures Ordered(log, A(AddEnds), {}, {M(SetsStopped)})
    decreases |log|
  {
    if log != [] {
      var start, before, e := RunBefore(log, s, net);
      NoAddAfterStop(start, before, net);
      RunIsRecorded(start, before, net);
      hide Ordered, Recorded, Step;
      OrderedAppend(start, e, A(AddStarts), {}, {M(SetsStopped)});
      OrderedAppend(start, e, A(AddEnds), {}, {M(SetsStopped)});
    }
  }

  /**
   The launcher gets no SIGTERM before the attacher has ended and the device was removed from
   the bus, in this order.
   */
  lemma {:induction false} TerminatesLast(log: seq<Event>, s: State, net: bool)
    requires Run(log, s, net)
    ensures Ordered(log, M(Terminates), {M(Removes)}, {})
    ensures Ordered(log, M(Removes), {A(Ends), M(SetsStopped)}, {})
    decreases |log|
  {
    if log != [] {
      var start, before, e := RunBefore(log, s, net);
      TerminatesLast(start, before, net);
      RunIsRecorded(start, before, net);
      hide Ordered, Step, Consistent;
      OrderedAppend(start, e, M(Terminates), {M(Removes)}, {});
      OrderedAppend(start, e, M(Removes), {A(Ends), M(SetsStopped)}, {});
    }
  }

  /** The attacher bound the device, and then read that the launcher still ran. */
  ghost predicate FoundLive(log: seq<Event>) {
    exists i, j :: LiveAt(log, i, j)
  }

  predicate LiveAt(log: seq<Event>, i: int, j: int) {
    0 <= i < j < |log| && log[i] == A(Binds(true)) && log[j] == A(ReadsGone(false)) && StoresGone !in log[..j]
  }

  lemma FoundLiveAppend(log: seq<Event>, e: Event)
    ensures FoundLive(log) ==> FoundLive(log + [e])
    ensures Has(log, A(Binds(true))) && e == A(ReadsGone(false)) && !Has(log, StoresGone) ==> FoundLive(log + [e])
    ensures FoundLive(log + [e]) && !FoundLive(log) ==> Has(log, A(Binds(true))) && e == A(ReadsGone(false))
  {
    var more := log + [e];
    if i, j :| LiveAt(log, i, j) {
      assert more[..j] == log[..j];
      assert LiveAt(more, i, j);
    }
    if Has(log, A(Binds(true))) && e == A(ReadsGone(false)) && !Has(log, StoresGone) {
      var i :| 0 <= i < |log| && log[i] == A(Binds(true));
      assert more[..|log|] == log;
      assert LiveAt(more, i, |log|);
    }
    if i, j :| LiveAt(more, i, j) {
      assert log[i] == A(Binds(true));
      if j < |log| {
        assert log[..j] == more[..j];
        assert LiveAt(log, i, j);
      }
    }
  }

  predicate Ending(a: Attacher) {
    a == Finishing || a == Ended
  }

  ghost predicate LiveIsFound(log: seq<Event>, s: State) {
    && (Has(log, A(Binds(true))) ==> s.attacher == Bound(true) || Ending(s.attacher))
    && (s.attacher == Bound(true) ==> Has(log, A(Binds(true))))
    && (s.live <==> FoundLive(log))
    && (s.main == ReadingLive || s.main.Deciding? ==> s.attacher == Ended)
    && (s.main.Deciding? ==> s.main.live == s.live)
  }

  /** What an act does to the fields that LiveIsFound has. */
  lemma LiveAct(s: State, a: Act)
    requires AttacherCan(s, a)
    ensures var r := AttacherStep(s, a);
      && (Ending(s.attacher) ==> Ending(r.attacher) && s.attacher != Ended)
      && (r.attacher == Bound(true) <==> a == Binds(true))
      && (s.attacher.Bound? <==> a.ReadsGone?)
      && (a.ReadsGone? ==> Ending(r.attacher))
      && r.live == if a.ReadsGone? then s.attacher.ok && !a.gone else s.live
  {
  }

  /** What a move does to them. */
  lemma LiveMove(s: State, m: Move, net: bool)
    requires MainCan(s, m)
    ensures var r := MainStep(s, m, net);
      && (r.main == ReadingLive ==> s.attacher == Ended)
      && (r.main.Deciding? ==> s.main == ReadingLive && r.main.live == s.live)
  {
  }

  lemma LiveIsFoundNext(log: seq<Event>, s: State, e: Event, net: bool)
    requires Consistent(s) && Flagged(log, s) && LiveIsFound(log, s) && Enabled(s, e)
    ensures LiveIsFound(log + [e], Step(s, e, net))
  {
    FoundLiveAppend(log, e);
    HasAppend(log, e, A(Binds(true)));
    assert s.live ==> Ending(s.attacher);
    assert Has(log, StoresGone) <==> s.gone;
    match e {
      case A(a) => LiveAct(s, a);
      case M(m) => LiveMove(s, m, net);
      case _ =>
    }
    hide Has, FoundLive, Consistent, Flagged, AttacherStep, MainStep, MainCan;
  }

  /** Once a signal is taken, the run is one that was stopped. */
  predicate StoppingIsSeen(log: seq<Event>, s: State) {
    && (Has(log, M(TakesSignal)) ==> s.stopping || s.main == Signalled)
    && (Has(log, M(Drains(true))) ==> s.stopping)
    && (s.stopping || s.main == Signalled ==> Has(log, M(TakesSignal)) || Has(log, M(Drains(true))))
  }

  /** What a move does to the fields that StoppingIsSeen has. */
  lemma StoppingMove(s: State, m: Move, net: bool)
    requires MainCan(s, m)
    ensures var r := MainStep(s, m, net);
      && (r.main == Signalled <==> m == TakesSignal)
      && (r.stopping <==> s.stopping || s.main == Signalled || m == Drains(true))
  {
  }

  lemma StoppingIsSeenNext(log: seq<Event>, s: State, e: Event, net: bool)
    requires StoppingIsSeen(log, s) && Enabled(s, e)
    ensures StoppingIsSeen(log + [e], Step(s, e, net))
  {
    HasAppend(log, e, M(TakesSignal));
    HasAppend(log, e, M(Drains(true)));
    if e.M? {
      StoppingMove(s, e.move, net);
    }
    hide Has, AttacherStep, MainStep, MainCan, AttacherCan;
  }

  predicate BeforeDrain(m: Main) {
    InLoop(m) || m == Draining
  }

  predicate IsDrain(e: Event) {
    e.M? && e.move.Drains?
  }

  /** No signal came before a drain. */
  predicate Quiet(log: seq<Event>) {
    forall i | 0 <= i < |log| && IsDrain(log[i]) :: Signal !in log[..i]
  }

  lemma QuietAppend(log: seq<Event>, e: Event)
    requires Quiet(log) && (IsDrain(e) ==> !Has(log, Signal))
    ensures Quiet(log + [e])
  {
    forall i | 0 <= i < |log + [e]| && IsDrain((log + [e])[i])
      ensures Signal !in (log + [e])[..i]
    {
      assert (log + [e])[..i] == if i < |log| then log[..i] else log;
    }
  }

  /** A signal that came waits to be taken, or was taken. */
  predicate SignalsWait(log: seq<Event>, s: State) {
    && (BeforeDrain(s.main) && Has(log, Signal) ==> s.signals > 0 || s.stopping || s.main == Signalled)
    && (s.stopping || s.main == Signalled || Quiet(log))
  }

  /** What a move does to the fields that SignalsWait has. */
  lemma SignalMove(s: State, m: Move, net: bool)
    requires MainCan(s, m)
    ensures var r := MainStep(s, m, net);
      && (BeforeDrain(r.main) ==> BeforeDrain(s.main))
      && (s.stopping ==> r.stopping)
      && (s.main == Signalled ==> r.stopping)
      && (m.Drains? ==> BeforeDrain(s.main) && s.main == Draining && r.stopping == (s.stopping || s.signals > 0))
      && (BeforeDrain(r.main) ==> r.signals == s.signals || r.main == Signalled)
  {
  }

  lemma SignalsWaitNext(log: seq<Event>, s: State, e: Event, net: bool)
    requires SignalsWait(log, s) && Enabled(s, e)
    ensures SignalsWait(log + [e], Step(s, e, net))
  {
    if Quiet(log) && (IsDrain(e) ==> !Has(log, Signal)) {
      QuietAppend(log, e);
    }
    HasAppend(log, e, Signal);
    if e.M? {
      SignalMove(s, e.move, net);
    }
    hide Has, Quiet, AttacherStep, MainStep, MainCan, AttacherCan;
  }

  lemma {:induction false} RunIsSeen(log: seq<Event>, s: State, net: bool)
    requires Run(log, s, net)
    ensures LiveIsFound(log, s) && StoppingIsSeen(log, s) && SignalsWait(log, s)
    decreases |log|
  {
    if log != [] {
      hide LiveIsFound, StoppingIsSeen, SignalsWait, Flagged, Recorded, Step, Enabled, Consistent;
      var start, before, e := RunBefore(log, s, net);
      RunIsSeen(start, before, net);
      RunIsRecorded(start, before, net);
      LiveIsFoundNext(start, before, e, net);
      StoppingIsSeenNext(start, before, e, net);
      SignalsWaitNext(start, before, e, net);
    }
  }

  /**
   The device stays on the bus exactly if it is a net device, it is still there, no stop signal
   was seen, and the attacher bound it and then read that the launcher still ran.
   */
  lemma KeptExactlyIf(log: seq<Event>, s: State, attached: bool, net: bool)
    requires Run(log, s, net) && MainCan(s, Decides(attached))
    ensures MainStep(s, Decides(attached), net).main == Finished(
      net && attached && !Has(log, M(TakesSignal)) && !Has(log, M(Drains(true))) && FoundLive(log))
  {
    RunIsSeen(log, s, net);
    hide FoundLive, Run;
  }

  /** A stop signal that came before the last look for one is never overlooked. */
  lemma SignalMeansCleanup(log: seq<Event>, s: State, attached: bool, net: bool)
    requires Run(log, s, net) && MainCan(s, Decides(attached)) && !Quiet(log)
    ensures MainStep(s, Decides(attached), net).main == Finished(false)
  {
    RunIsSeen(log, s, net);
  }

  /** How many steps the attacher has left once it is told to stop. */
  function Left(s: State): nat {
    match s.attacher
    case Top => 5
    case Locking => 4
    case Checking => 3
    case Finishing => if s.owner == ByAttacher then 2 else 1
    case _ => 0
  }

  lemma LeftDrops(s: State, a: Act)
    requires Consistent(s) && s.stopped && AttacherCan(s, a)
    ensures Left(AttacherStep(s, a)) < Left(s)
  {
  }

  lemma MoveLeavesLeft(s: State, m: Move, net: bool)
    requires Consistent(s) && MainCan(s, m)
    ensures Left(MainStep(s, m, net)) == Left(s)
  {
    assert s.owner == ByAttacher ==> MainStep(s, m, net).owner == s.owner;
    assert s.owner != ByAttacher ==> MainStep(s, m, net).owner != ByAttacher;
  }

  /** A stop waits for at most five steps of the attacher, which nothing else adds to. */
  lemma StopIsBounded(log: seq<Event>, s: State, e: Event, net: bool)
    requires Run(log, s, net) && s.stopped && Enabled(s, e)
    ensures if e.A? then Left(Step(s, e, net)) < Left(s) else Left(Step(s, e, net)) == Left(s)
    ensures Left(s) <= 5 && (Left(s) == 0 <==> s.attacher == Ended)
  {
    RunIsConsistent(log, s, net);
    match e {
      case A(a) => LeftDrops(s, a);
      case M(m) => MoveLeavesLeft(s, m, net);
      case _ =>
    }
    hide Run, AttacherStep, MainStep, MainCan, AttacherCan;
  }

  /** The attacher can go on unless the main goroutine has the lock. */
  lemma AttacherGoes(s: State) returns (a: Act)
    requires Consistent(s) && s.attacher != Ended && s.owner != ByMain
    ensures AttacherCan(s, a)
  {
    a := match s.attacher
      case Top => LoopTests(false)
      case Locking => Locks
      case Checking => ChecksStopped
      case Looking => LooksAttached(true)
      case Binding => Binds(true)
      case Bound(_) => ReadsGone(s.gone)
      case NotAttached => LooksExists(true)
      case Adding => AddStarts
      case Added => AddEnds
      case Leaving => Unlocks
      case _ => if s.owner == ByAttacher then Unlocks else Ends;
  }

  /** The main goroutine waits only for the launcher's exit, the lock, or the attacher's end. */
  lemma MainGoes(s: State) returns (m: Move)
    requires Consistent(s) && !s.main.Finished?
    requires s.main == Select ==> s.exited
    requires s.main == ReadingLive || (s.main.Stopping? && s.main.stop == Lock) ==> s.owner == Nobody
    requires s.main.Stopping? && s.main.stop == Wait ==> s.attacher == Ended
    ensures MainCan(s, m)
  {
    m := match s.main
      case Select => TakesExit
      case Signalled => if s.exited then FindsExit else FindsNoExit
      case Stopping(_, stop) =>
        (match stop case Lock => SetsStopped case Unlock => StopUnlocks case Wait => StopReturns)
      case Removing => Removes
      case Terminating => Terminates
      case Draining => Drains(s.signals > 0)
      case ReadingLive => ReadsLive
      case _ => Decides(true);
  }

  /**
   No goroutine waits for another for ever: until the main goroutine is done, it or the attacher
   or the waiter can go on, or the run waits for the launcher to exit.
   */
  lemma NoDeadlock(log: seq<Event>, s: State, net: bool) returns (e: Event)
    requires Run(log, s, net) && !s.main.Finished? && s.waiter != Waiting
    ensures (e == StoresGone || e == SendsExit || e.A? || e.M?) && Enabled(s, e)
  {
    RunIsConsistent(log, s, net);
    hide Run, AttacherCan, MainCan;
    if s.waiter == Exited {
      e := StoresGone;
    } else if s.waiter == Stored {
      e := SendsExit;
    } else if s.attacher != Ended && s.owner != ByMain {
      var a := AttacherGoes(s);
      e := A(a);
    } else {
      var m := MainGoes(s);
      e := M(m);
    }
  }
}
