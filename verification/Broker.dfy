/**
 The launcher's broker for VDUSE (launcher/invirtio-launch.c): it carries out the guest's
 requests on the control device and the in-flight logs, within a budget for each run, and
 cleans up when a run ends. Results of system calls are parameters.
 */
module Broker {
  import opened Utf8
  import opened Words

  const EPERM: int := 1
  const EBUSY: int := 16
  const EINVAL: int := 22

  const OP_CREATE: Word32 := 1
  const OP_DESTROY: Word32 := 2
  const OP_OPEN: Word32 := 3
  const OP_RESIZE_LOG: Word32 := 4

  const NAME_MAX: nat := 256
  const MAX_CONFIG: nat := 4096
  const MAX_QUEUES: nat := 64
  const MAX_LOG: nat := 32 + MAX_QUEUES * (16 + 16 * 32768)
  const MAX_REQUESTS: nat := 16
  const PAGE: Word32 := 4096
  const DESTROY_TRIES: nat := 100

  /** sizeof(struct broker_request). */
  const REQUEST: nat := 296
  /** The tmpfs that holds a device's log: size=33m. */
  const TMPFS: nat := 33 * 0x10_0000

  /** What -e gives for a device, which does not change. */
  datatype Export = Export(name: Bytes, deviceId: Word32)

  /** What the launcher asks of the kernel for the guest. */
  datatype Action =
    | Create(name: Bytes, deviceId: Word32, features: int, vqNum: Word32, vqAlign: Word32, config: Bytes)
    | Destroy(name: Bytes)
    | Open(name: Bytes)
    | Resize(name: Bytes, size: nat)

  /** What the guest gets for a request: an error or 0, and whether a descriptor goes with it. */
  datatype Answer = Answer(err: int, passesFd: bool)

  datatype State = State(
    /** log_size of each export, and the size of its file. */
    sizes: seq<nat>,
    files: seq<nat>,
    requests: nat,
    serving: bool,
    actions: seq<Action>,
    answers: seq<Answer>)

  predicate Valid(exports: seq<Export>, s: State) {
    |s.sizes| == |s.files| == |exports|
  }

  function Get64(s: Bytes, at: nat): nat
    requires at + 8 <= |s|
  {
    Get(s, at) + Get(s, at + 4) * 0x1_0000_0000
  }

  /** The index of the first NUL, or the length. */
  function StringLength(s: Bytes): (n: nat)
    ensures n <= |s|
    ensures n < |s| ==> s[n] == 0
    ensures forall i | 0 <= i < n :: s[i] != 0
  {
    if s == [] || s[0] == 0 then 0 else 1 + StringLength(s[1..])
  }

  function NameField(raw: Bytes): Bytes
    requires |raw| >= REQUEST
  {
    raw[40..REQUEST]
  }

  /** find_export, the first export with the name, or their number. */
  function FindExport(exports: seq<Export>, name: Bytes): (i: nat)
    ensures i <= |exports|
    ensures i < |exports| ==> exports[i].name == name
    ensures i == |exports| ==> forall e | e in exports :: e.name != name
  {
    if exports == [] || exports[0].name == name then 0 else 1 + FindExport(exports[1..], name)
  }

  datatype Handled = Handled(state: State, err: int, passesFd: bool)

  /** handle_request, for a request of raw's length, with the result of its system call. */
  function Handle(exports: seq<Export>, s: State, raw: Bytes, kernel: int): Handled
    requires Valid(exports, s) && |raw| <= REQUEST + MAX_CONFIG
  {
    if |raw| < REQUEST || StringLength(NameField(raw)) == NAME_MAX then Handled(s, -EINVAL, false)
    else
      var name := NameField(raw)[..StringLength(NameField(raw))];
      var i := FindExport(exports, name);
      if i == |exports| then Handled(s, -EPERM, false)
      else
        var op := Get(raw, 0);
        if op == OP_CREATE then
          if Get(raw, 4) != exports[i].deviceId then Handled(s, -EPERM, false)
          else if Get(raw, 36) != 0 || |raw| != REQUEST + Get(raw, 32)
                  || Get(raw, 8) == 0 || Get(raw, 8) > MAX_QUEUES then
            Handled(s, -EINVAL, false)
          else if Get(raw, 12) != PAGE then Handled(s, -EINVAL, false)
          else
            var a := Create(exports[i].name, exports[i].deviceId, Get64(raw, 16), Get(raw, 8),
                            Get(raw, 12), raw[REQUEST..REQUEST + Get(raw, 32)]);
            Handled(s.(actions := s.actions + [a]), kernel, false)
        else if op == OP_DESTROY then
          if |raw| != REQUEST then Handled(s, -EINVAL, false)
          else Handled(s.(actions := s.actions + [Destroy(exports[i].name)]), kernel, false)
        else if op == OP_OPEN then
          if |raw| != REQUEST then Handled(s, -EINVAL, false)
          else Handled(s.(actions := s.actions + [Open(exports[i].name)]), kernel, kernel == 0)
        else if op == OP_RESIZE_LOG then
          if |raw| != REQUEST || Get64(raw, 24) > MAX_LOG then Handled(s, -EINVAL, false)
          else
            var tried := s.(actions := s.actions + [Resize(exports[i].name, Get64(raw, 24))]);
            if kernel < 0 then Handled(tried, kernel, false)
            else
              Handled(tried.(sizes := s.sizes[i := Get64(raw, 24)], files := s.files[i := Get64(raw, 24)]),
                      0, false)
        else Handled(s, -EINVAL, false)
  }

  /** What recv gives: nothing yet, an error, the end, or a request. */
  datatype Receipt = Again | Broken | HungUp | Got(raw: Bytes)

  /** serve_broker, and what the loop does with its result. */
  function Serve(exports: seq<Export>, s: State, r: Receipt, kernel: int, sendFails: bool): State
    requires Valid(exports, s)
  {
    match r
    case Again => s
    case Broken => s.(serving := false)
    case HungUp => s.(serving := false)
    case Got(raw) =>
      var counted := s.(requests := s.requests + 1);
      if counted.requests > |exports| * MAX_REQUESTS then counted.(serving := false)
      else
        var h :=
          if |raw| > REQUEST + MAX_CONFIG then Handled(counted, -EINVAL, false)
          else Handle(exports, counted, raw, kernel);
        h.state.(serving := !sendFails, answers := s.answers + [Answer(h.err, h.passesFd)])
  }

  /** The destroys of one device, which a busy device that is not on the bus gets a second of. */
  function DestroyTries(destroy: nat -> int, onBus: nat -> bool, n: nat): int
    requires n < DESTROY_TRIES
    decreases DESTROY_TRIES - n
  {
    if destroy(n) != -EBUSY || onBus(n) || n + 1 == DESTROY_TRIES then destroy(n)
    else DestroyTries(destroy, onBus, n + 1)
  }

  predicate IsGone(err: int) {
    err == 0 || err == -EINVAL
  }

  /** The outside world when a run ends, for one export. */
  datatype Ending = Ending(destroy: nat -> int, onBus: nat -> bool, truncates: bool)

  /** The size that destroy_exports gives a log. */
  function EndSize(size: nat, ending: Ending): nat {
    if IsGone(DestroyTries(ending.destroy, ending.onBus, 0)) then 0 else size
  }

  function EndFile(size: nat, file: nat, ending: Ending): nat {
    if ending.truncates then EndSize(size, ending) else file
  }

  class Broker {
    const exports: seq<Export>
    var sizes: seq<nat>
    var files: seq<nat>
    var requests: nat
    var serving: bool
    var actions: seq<Action>
    /** The answers, also those that the socket did not take. */
    var answers: seq<Answer>

    function Current(): State
      reads this
    {
      State(sizes, files, requests, serving, actions, answers)
    }

    ghost predicate Ready()
      reads this
    {
      Valid(exports, Current())
    }

    constructor (exports: seq<Export>, files: seq<nat>)
      requires |files| == |exports|
      ensures this.exports == exports && Ready()
      ensures Current() == State(files, files, 0, exports != [], [], [])
    {
      this.exports := exports;
      sizes, this.files, requests, serving, actions, answers := files, files, 0, exports != [], [], [];
    }

    method HandleRequest(raw: Bytes, kernel: int) returns (err: int, passesFd: bool)
      requires Ready() && |raw| <= REQUEST + MAX_CONFIG
      modifies this
      ensures Ready()
      ensures Handled(Current(), err, passesFd) == Handle(exports, old(Current()), raw, kernel)
    {
      passesFd := false;
      if |raw| < REQUEST || StringLength(NameField(raw)) == NAME_MAX {
        return -EINVAL, false;
      }
      var name := NameField(raw)[..StringLength(NameField(raw))];
      var i := FindExport(exports, name);
      if i == |exports| {
        return -EPERM, false;
      }
      var e := exports[i];
      var op := Get(raw, 0);
      if op == OP_CREATE {
        if Get(raw, 4) != e.deviceId {
          return -EPERM, false;
        }
        if Get(raw, 36) != 0 || |raw| != REQUEST + Get(raw, 32) || Get(raw, 8) == 0
           || Get(raw, 8) > MAX_QUEUES {
          return -EINVAL, false;
        }
        if Get(raw, 12) != PAGE {
          return -EINVAL, false;
        }
        actions := actions + [Create(e.name, e.deviceId, Get64(raw, 16), Get(raw, 8), Get(raw, 12),
                                     raw[REQUEST..REQUEST + Get(raw, 32)])];
        return kernel, false;
      } else if op == OP_DESTROY {
        if |raw| != REQUEST {
          return -EINVAL, false;
        }
        actions := actions + [Destroy(e.name)];
        return kernel, false;
      } else if op == OP_OPEN {
        if |raw| != REQUEST {
          return -EINVAL, false;
        }
        actions := actions + [Open(e.name)];
        return kernel, kernel == 0;
      } else if op == OP_RESIZE_LOG {
        if |raw| != REQUEST || Get64(raw, 24) > MAX_LOG {
          return -EINVAL, false;
        }
        actions := actions + [Resize(e.name, Get64(raw, 24))];
        if kernel < 0 {
          return kernel, false;
        }
        files := files[i := Get64(raw, 24)];
        sizes := sizes[i := Get64(raw, 24)];
        return 0, false;
      }
      return -EINVAL, false;
    }

    method ServeBroker(r: Receipt, kernel: int, sendFails: bool)
      requires Ready()
      modifies this
      ensures Ready()
      ensures Current() == Serve(exports, old(Current()), r, kernel, sendFails)
    {
      match r
      case Again =>
      case Broken =>
        serving := false;
      case HungUp =>
        serving := false;
      case Got(raw) =>
        requests := requests + 1;
        if requests > |exports| * MAX_REQUESTS {
          serving := false;
          return;
        }
        var err, passesFd := -EINVAL, false;
        if |raw| <= REQUEST + MAX_CONFIG {
          err, passesFd := HandleRequest(raw, kernel);
        }
        answers := answers + [Answer(err, passesFd)];
        serving := !sendFails;
    }

    /** open_log for each export, and the fresh budget. */
    method BeginRun()
      requires Ready()
      modifies this
      ensures Ready() && Current() == Begin(exports, old(Current()))
    {
      sizes := files;
      requests := 0;
      serving := exports != [];
    }

    /** What happens in a run: a request, while the launcher reads them, or a write of the guest to a log. */
    method Act(e: Event)
      requires Ready()
      modifies this
      ensures Ready() && Current() == Next(exports, old(Current()), e)
    {
      match e {
        case Request(r, kernel, sendFails) =>
          if serving {
            ServeBroker(r, kernel, sendFails);
          }
        case Write(log, size) =>
          if log < |exports| {
            files := files[log := size];
          }
      }
    }

    /** A run of the guest, from the opening of the logs to their end. */
    method ServeRun(run: Run)
      requires Ready() && ValidRun(exports, run) && AllAllowed(exports, Current())
      modifies this
      ensures Ready() && Current() == RunGuest(exports, old(Current()), run)
      ensures AllAllowed(exports, Current())
      ensures |answers| - |old(answers)| <= |exports| * MAX_REQUESTS
      ensures |actions| - |old(actions)| <= |answers| - |old(answers)|
      ensures forall i | 0 <= i < |exports| && run.endings[i].truncates ::
        files[i] == EndSize(sizes[i], run.endings[i])
    {
      RunKeeps(exports, Current(), run);
      BeginRun();
      ghost var start := Current();
      for i := 0 to |run.events|
        invariant Ready() && Current() == Events(exports, start, run.events[..i])
      {
        assert run.events[..i + 1] == run.events[..i] + [run.events[i]];
        EventsAppend(exports, start, run.events[..i], run.events[i]);
        Act(run.events[i]);
      }
      assert run.events[..|run.events|] == run.events;
      DestroyExports(run.endings);
    }

    /** Runs one after the other, with logs that can be truncated. */
    method ServeRuns(runs: seq<Run>)
      requires Ready() && AllAllowed(exports, Current()) && SizesFit(files)
      requires forall r | r in runs :: ValidRun(exports, r) && Truncates(r)
      modifies this
      ensures Ready() && AllAllowed(exports, Current()) && SizesFit(files)
      ensures |actions| - |old(actions)| <= |answers| - |old(answers)| <= |runs| * (|exports| * MAX_REQUESTS)
    {
      ghost var budget := |exports| * MAX_REQUESTS;
      for i := 0 to |runs|
        invariant Ready() && AllAllowed(exports, Current()) && SizesFit(files)
        invariant |actions| - |old(actions)| <= |answers| - |old(answers)| <= i * budget
      {
        hide *;
        OneBudget(i, budget);
        RunFits(exports, Current(), runs[i]);
        ServeRun(runs[i]);
      }
    }

    lemma OneBudget(i: nat, budget: nat)
      ensures (i + 1) * budget == i * budget + budget
    {
    }

    method DestroyExports(endings: seq<Ending>)
      requires Ready() && |endings| == |exports|
      modifies this`files
      ensures Ready()
      ensures Current() == End(old(Current()), endings)
    {
      for i := 0 to |exports|
        invariant |files| == |exports|
        invariant forall j | 0 <= j < i :: files[j] == EndFile(sizes[j], old(files)[j], endings[j])
        invariant forall j | i <= j < |exports| :: files[j] == old(files)[j]
      {
        var n, err := 0, endings[i].destroy(0);
        while err == -EBUSY && !endings[i].onBus(n) && n + 1 < DESTROY_TRIES
          invariant n < DESTROY_TRIES && err == endings[i].destroy(n)
          invariant DestroyTries(endings[i].destroy, endings[i].onBus, n)
            == DestroyTries(endings[i].destroy, endings[i].onBus, 0)
          decreases DESTROY_TRIES - n
        {
          n := n + 1;
          err := endings[i].destroy(n);
        }
        if endings[i].truncates {
          files := files[i := if IsGone(err) then 0 else sizes[i]];
        }
      }
    }
  }

  function End(s: State, endings: seq<Ending>): (t: State)
    requires |s.sizes| == |s.files| == |endings|
    ensures |t.files| == |s.files| && |t.sizes| == |s.sizes|
  {
    s.(files := seq(|endings|, i requires 0 <= i < |endings| =>
                      EndFile(s.sizes[i], s.files[i], endings[i])))
  }

  // Runs of the guest.

  datatype Event =
    /** A request, as long as the launcher reads them. */
    | Request(receipt: Receipt, kernel: int, sendFails: bool)
    /** The guest writes to a log, at any place of it. */
    | Write(log: nat, size: nat)

  datatype Run = Run(events: seq<Event>, endings: seq<Ending>)

  predicate ValidRun(exports: seq<Export>, run: Run) {
    |run.endings| == |exports|
  }

  /** open_log for each export, and the fresh budget. */
  function Begin(exports: seq<Export>, s: State): State {
    s.(sizes := s.files, requests := 0, serving := exports != [])
  }

  function Next(exports: seq<Export>, s: State, e: Event): (t: State)
    requires Valid(exports, s)
    ensures Valid(exports, t)
  {
    match e
    case Request(r, kernel, sendFails) =>
      if s.serving then Serve(exports, s, r, kernel, sendFails) else s
    case Write(i, size) =>
      if i < |exports| then s.(files := s.files[i := size]) else s
  }

  function Events(exports: seq<Export>, s: State, events: seq<Event>): (t: State)
    requires Valid(exports, s)
    ensures Valid(exports, t)
    decreases |events|
  {
    if events == [] then s else Events(exports, Next(exports, s, events[0]), events[1..])
  }

  function RunGuest(exports: seq<Export>, s: State, run: Run): (t: State)
    requires Valid(exports, s) && ValidRun(exports, run)
    ensures Valid(exports, t)
  {
    End(Events(exports, Begin(exports, s), run.events), run.endings)
  }

  function RunAll(exports: seq<Export>, s: State, runs: seq<Run>): (t: State)
    requires Valid(exports, s) && forall r | r in runs :: ValidRun(exports, r)
    ensures Valid(exports, t)
    decreases |runs|
  {
    if runs == [] then s
    else RunAll(exports, RunGuest(exports, s, runs[0]), runs[1..])
  }

  /** What the launcher may ask of the kernel on behalf of the guest. */
  predicate Allowed(exports: seq<Export>, a: Action) {
    exists e | e in exports ::
      e.name == a.name && (a.Create? ==> AllowedCreate(e, a)) && (a.Resize? ==> a.size <= 33_555_488)
  }

  predicate AllowedCreate(e: Export, a: Action)
    requires a.Create?
  {
    && a.deviceId == e.deviceId
    && |a.config| <= 4096
    && 1 <= a.vqNum <= 64
    && a.vqAlign == 4096
  }

  predicate AllAllowed(exports: seq<Export>, s: State) {
    forall a | a in s.actions :: Allowed(exports, a)
  }

  predicate SizesFit(sizes: seq<nat>) {
    forall i | 0 <= i < |sizes| :: sizes[i] <= MAX_LOG
  }

  lemma HandleKeeps(exports: seq<Export>, s: State, raw: Bytes, kernel: int)
    requires Valid(exports, s) && |raw| <= REQUEST + MAX_CONFIG
    ensures var t := Handle(exports, s, raw, kernel).state;
      && Valid(exports, t)
      && |t.actions| <= |s.actions| + 1
      && t.requests == s.requests && t.answers == s.answers
      && s.actions <= t.actions
      && (AllAllowed(exports, s) ==> AllAllowed(exports, t))
      && (SizesFit(s.sizes) ==> SizesFit(t.sizes))
  {
    hide *;
    HandleGrows(exports, s, raw, kernel);
    HandleAllows(exports, s, raw, kernel);
  }

  lemma HandleGrows(exports: seq<Export>, s: State, raw: Bytes, kernel: int)
    requires Valid(exports, s) && |raw| <= REQUEST + MAX_CONFIG
    ensures var t := Handle(exports, s, raw, kernel).state;
      && Valid(exports, t)
      && |t.actions| <= |s.actions| + 1
      && t.requests == s.requests && t.answers == s.answers
      && s.actions <= t.actions
      && (SizesFit(s.sizes) ==> SizesFit(t.sizes))
  {
    hide Get, Get64, StringLength;
  }

  lemma HandleAllows(exports: seq<Export>, s: State, raw: Bytes, kernel: int)
    requires Valid(exports, s) && |raw| <= REQUEST + MAX_CONFIG
    ensures AllAllowed(exports, s) ==> AllAllowed(exports, Handle(exports, s, raw, kernel).state)
  {
    hide Get, Get64, StringLength;
  }

  /** The message with which the guest asks for an action. What follows the name's NUL is free. */
  predicate AsksFor(raw: Bytes, a: Action) {
    && |raw| >= 296 && 0 !in a.name && a.name + [0] <= raw[40..296]
    && match a
       case Create(_, deviceId, features, vqNum, vqAlign, config) =>
         && Get(raw, 0) == 1 && Get(raw, 4) == deviceId && Get(raw, 8) == vqNum
         && Get(raw, 12) == vqAlign && Get(raw, 16) + Get(raw, 20) * 0x1_0000_0000 == features
         && Get(raw, 32) == |config| && Get(raw, 36) == 0 && raw[296..] == config
       case Destroy(_) => Get(raw, 0) == 2 && |raw| == 296
       case Open(_) => Get(raw, 0) == 3 && |raw| == 296
       case Resize(_, size) => 
         Get(raw, 0) == 4 && |raw| == 296 && Get(raw, 24) + Get(raw, 28) * 0x1_0000_0000 == size
  }

  lemma NameExactly(field: Bytes, name: Bytes)
    ensures 0 !in name && name + [0] <= field <==> StringLength(field) < |field| && name == field[..StringLength(field)]
  {
    hide StringLength;
    var n := StringLength(field);
    if n < |field| {
      assert field[..n + 1] == field[..n] + [0];
    }
    if 0 !in name && name + [0] <= field {
      NameIsField(field, name);
    }
  }

  lemma NameIsField(field: Bytes, name: Bytes)
    requires 0 !in name && name + [0] <= field
    ensures StringLength(field) < |field| && name == field[..StringLength(field)]
  {
    hide StringLength;
    assert field[|name|] == (name + [0])[|name|] == 0;
    assert field[..|name|] == (name + [0])[..|name|] == name;
    assert forall i | 0 <= i < |name| :: field[i] in name;
  }

  /** parse_export takes no name twice. */
  predicate NamesDiffer(exports: seq<Export>) {
    forall i, j | 0 <= i < j < |exports| :: exports[i].name != exports[j].name
  }

  lemma AllowedExactly(exports: seq<Export>, a: Action)
    requires NamesDiffer(exports)
    ensures var i := FindExport(exports, a.name);
      Allowed(exports, a) <==>
        i < |exports| && (a.Create? ==> AllowedCreate(exports[i], a)) && (a.Resize? ==> a.size <= MAX_LOG)
  {
    var i := FindExport(exports, a.name);
    if Allowed(exports, a) {
      var e :| e in exports && e.name == a.name && (a.Create? ==> AllowedCreate(e, a));
      assert e == exports[i];
    }
  }

  lemma OneAction(actions: seq<Action>, a: Action)
    ensures forall b :: actions + [b] == actions + [a] <==> a == b
  {
    assert forall b :: (actions + [b])[|actions|] == b;
  }

  /** AsksFor and Allowed, in the terms of the first export with the name. */
  predicate AsksOf(exports: seq<Export>, raw: Bytes, a: Action) {
    && |raw| >= REQUEST && StringLength(NameField(raw)) < NAME_MAX
    && a.name == NameField(raw)[..StringLength(NameField(raw))]
    && AsksFor(raw, a)
    && var i := FindExport(exports, a.name);
      i < |exports| && (a.Create? ==> AllowedCreate(exports[i], a)) && (a.Resize? ==> a.size <= MAX_LOG)
  }

  lemma AsksOfExactly(exports: seq<Export>, raw: Bytes, a: Action)
    requires NamesDiffer(exports)
    ensures AsksOf(exports, raw, a) <==> AsksFor(raw, a) && Allowed(exports, a)
  {
    AllowedExactly(exports, a);
    hide Allowed, NamesDiffer, AllowedCreate;
    if |raw| >= REQUEST {
      NameExactly(NameField(raw), a.name);
    }
  }

  lemma ActsIfAsked(exports: seq<Export>, s: State, raw: Bytes, kernel: int, a: Action)
    requires Valid(exports, s) && |raw| <= REQUEST + MAX_CONFIG && AsksOf(exports, raw, a)
    ensures Handle(exports, s, raw, kernel).state.actions == s.actions + [a]
  {
    hide StringLength, Get;
    if a.Create? {
      assert raw[REQUEST..REQUEST + Get(raw, 32)] == a.config;
    }
  }

  lemma AskedIfActs(exports: seq<Export>, s: State, raw: Bytes, kernel: int, a: Action)
    requires Valid(exports, s) && |raw| <= REQUEST + MAX_CONFIG
    requires Handle(exports, s, raw, kernel).state.actions == s.actions + [a]
    ensures AsksOf(exports, raw, a)
  {
    OneAction(s.actions, a);
    NameExactly(NameField(raw), NameField(raw)[..StringLength(NameField(raw))]);
    hide StringLength, Get;
  }

  /** Whatever the message, the launcher acts for the guest exactly if it asks for an allowed action. */
  lemma ActsExactly(exports: seq<Export>, s: State, raw: Bytes, kernel: int, a: Action)
    requires Valid(exports, s) && |raw| <= REQUEST + MAX_CONFIG && NamesDiffer(exports)
    ensures Handle(exports, s, raw, kernel).state.actions == s.actions + [a]
      <==> AsksFor(raw, a) && Allowed(exports, a)
  {
    AsksOfExactly(exports, raw, a);
    hide AsksOf, AsksFor, Allowed;
    if AsksOf(exports, raw, a) {
      ActsIfAsked(exports, s, raw, kernel, a);
    } else if Handle(exports, s, raw, kernel).state.actions == s.actions + [a] {
      AskedIfActs(exports, s, raw, kernel, a);
    }
  }

  /** A message with a name that gives no export, or that would create it as another type. */
  predicate IsForbidden(exports: seq<Export>, raw: Bytes) {
    |raw| >= 296 &&
    var n := StringLength(raw[40..296]);
    n < 256 &&
    var i := FindExport(exports, raw[40..296][..n]);
    i == |exports| || (Get(raw, 0) == 1 && Get(raw, 4) != exports[i].deviceId)
  }

  /**
   What is done is answered with the kernel's result, and nothing else has an effect. A
   descriptor goes out exactly for an open that succeeds, and a log's size changes exactly by a
   resize that does.
   */
  lemma AnswersExactly(exports: seq<Export>, s: State, raw: Bytes, kernel: int)
    requires Valid(exports, s) && |raw| <= REQUEST + MAX_CONFIG
    ensures var h := Handle(exports, s, raw, kernel); var asked := h.state.actions[|s.actions|..];
      && |asked| <= 1
      && (h.passesFd <==> kernel == 0 && asked != [] && asked[0].Open?)
      && (asked == [] ==> h.state == s && h.err == if IsForbidden(exports, raw) then -1 else -22)
      && (asked != [] ==> h.err == if asked[0].Resize? && kernel >= 0 then 0 else kernel)
      && (if asked != [] && asked[0].Resize? && kernel >= 0 then
            var i := FindExport(exports, asked[0].name);
            && i < |exports| && h.state.sizes == s.sizes[i := asked[0].size]
            && h.state.files == s.files[i := asked[0].size]
          else h.state.sizes == s.sizes && h.state.files == s.files)
  {
  }

  /** The launcher reads requests only within the budget, answers each, and does at most one thing for it. */
  predicate WithinBudget(exports: seq<Export>, before: State, s: State) {
    && |s.answers| - |before.answers| <= s.requests
    && |s.answers| - |before.answers| <= |exports| * MAX_REQUESTS
    && |s.actions| - |before.actions| <= |s.answers| - |before.answers|
    && (s.serving ==> s.requests == |s.answers| - |before.answers|)
    && s.requests <= |exports| * MAX_REQUESTS + 1
  }

  lemma NextKeeps(exports: seq<Export>, s: State, e: Event, before: State)
    requires Valid(exports, s) && WithinBudget(exports, before, s)
    ensures var t := Next(exports, s, e);
      && WithinBudget(exports, before, t)
      && s.actions <= t.actions && s.answers <= t.answers
      && (AllAllowed(exports, s) ==> AllAllowed(exports, t))
      && (SizesFit(s.sizes) ==> SizesFit(t.sizes))
      && (!s.serving ==> !t.serving && t.actions == s.actions && t.answers == s.answers && t.sizes == s.sizes)
  {
    hide Handle, AllAllowed, SizesFit;
    if e.Request? && s.serving && e.receipt.Got? && |e.receipt.raw| <= REQUEST + MAX_CONFIG {
      HandleKeeps(exports, s.(requests := s.requests + 1), e.receipt.raw, e.kernel);
      var counted := s.(requests := s.requests + 1);
      AllowedByActions(exports, s, counted);
      AllowedByActions(exports, Handle(exports, counted, e.receipt.raw, e.kernel).state, Next(exports, s, e));
    }
    AllowedByActions(exports, s, Next(exports, s, e));
  }

  /** What is allowed is a matter of the actions only. */
  lemma AllowedByActions(exports: seq<Export>, s: State, t: State)
    ensures s.actions == t.actions ==> (AllAllowed(exports, s) <==> AllAllowed(exports, t))
  {
  }

  lemma {:induction false} EventsKeep(exports: seq<Export>, s: State, events: seq<Event>, before: State)
    requires Valid(exports, s) && WithinBudget(exports, before, s)
    ensures var t := Events(exports, s, events);
      && WithinBudget(exports, before, t)
      && s.actions <= t.actions && s.answers <= t.answers
      && (AllAllowed(exports, s) ==> AllAllowed(exports, t))
      && (SizesFit(s.sizes) ==> SizesFit(t.sizes))
    decreases |events|
  {
    if events != [] {
      NextKeeps(exports, s, events[0], before);
      EventsKeep(exports, Next(exports, s, events[0]), events[1..], before);
    }
  }

  /**
   A run, whatever the guest asks: at most 16 requests for each export are handled and
   answered, one more is read, each leads to at most one action, all actions are allowed, and
   each log that can be truncated ends empty if its device is gone, and else at the size that
   it was opened with or last set to.
   */
  lemma RunKeeps(exports: seq<Export>, s: State, run: Run)
    requires Valid(exports, s) && ValidRun(exports, run) && AllAllowed(exports, s)
    ensures var t := RunGuest(exports, s, run);
      && AllAllowed(exports, t)
      && s.actions <= t.actions && s.answers <= t.answers
      && |t.actions| - |s.actions| <= |t.answers| - |s.answers| <= |exports| * MAX_REQUESTS
      && t.requests <= |exports| * MAX_REQUESTS + 1
    ensures var t := RunGuest(exports, s, run);
      forall i | 0 <= i < |exports| && run.endings[i].truncates ::
        t.files[i] == EndSize(t.sizes[i], run.endings[i])
    ensures SizesFit(s.files) ==> SizesFit(RunGuest(exports, s, run).sizes)
  {
    EventsKeep(exports, Begin(exports, s), run.events, s);
  }

  /** The device is gone: some try says so, and all before it found it in use and off the bus. */
  ghost predicate IsFoundGone(ending: Ending) {
    exists n: nat | n < 100 :: GoneAt(ending, n)
  }

  predicate GoneAt(ending: Ending, n: nat) {
    && (ending.destroy(n) == 0 || ending.destroy(n) == -22)
    && forall m: nat | m < n :: ending.destroy(m) == -16 && !ending.onBus(m)
  }

  lemma {:induction false} TriesExactly(ending: Ending, n: nat)
    requires n < 100 && forall m: nat | m < n :: ending.destroy(m) == -16 && !ending.onBus(m)
    ensures IsGone(DestroyTries(ending.destroy, ending.onBus, n)) <==> IsFoundGone(ending)
    decreases 100 - n
  {
    if k: nat :| k < 100 && GoneAt(ending, k) {
      assert k >= n;
    }
    if ending.destroy(n) == -16 && !ending.onBus(n) && n < 99 {
      TriesExactly(ending, n + 1);
    } else if IsGone(ending.destroy(n)) {
      assert GoneAt(ending, n);
    }
  }

  /**
   How the log of an export ends: empty exactly if its device was found gone, and else at its
   recorded size, if it can be truncated, and otherwise as the guest left it.
   */
  lemma LogEndsExactly(exports: seq<Export>, s: State, run: Run, i: nat)
    requires Valid(exports, s) && ValidRun(exports, run) && i < |exports|
    ensures RunGuest(exports, s, run).files[i]
      == if !run.endings[i].truncates then Events(exports, Begin(exports, s), run.events).files[i]
         else if IsFoundGone(run.endings[i]) then 0
         else RunGuest(exports, s, run).sizes[i]
  {
    TriesExactly(run.endings[i], 0);
    hide DestroyTries, Events, IsFoundGone, IsGone;
  }

  lemma {:induction false} SizeIsKept(exports: seq<Export>, s: State, events: seq<Event>, i: nat)
    requires Valid(exports, s) && i < |exports|
    ensures var t := Events(exports, s, events);
      && s.actions <= t.actions
      && (t.sizes[i] == s.sizes[i] || exists size :: Resize(exports[i].name, size) in t.actions[|s.actions|..])
    decreases |events|
  {
    if events != [] {
      var n := Next(exports, s, events[0]);
      var t := Events(exports, n, events[1..]);
      SizeIsKept(exports, n, events[1..], i);
      StepKeepsSize(exports, s, events[0], i);
      hide Next, Events;
      if n.sizes[i] != s.sizes[i] {
        assert n.actions[|s.actions|] == t.actions[|s.actions|..][0];
      } else if t.sizes[i] != n.sizes[i] {
        var size :| Resize(exports[i].name, size) in t.actions[|n.actions|..];
        assert Resize(exports[i].name, size) in t.actions[|s.actions|..];
      }
    }
  }

  lemma StepKeepsSize(exports: seq<Export>, s: State, e: Event, i: nat)
    requires Valid(exports, s) && i < |exports|
    ensures var n := Next(exports, s, e);
      && s.actions <= n.actions
      && (n.sizes[i] != s.sizes[i] ==>
          n.actions == s.actions + [Resize(exports[i].name, n.sizes[i])])
  {
    hide StringLength, Get, Get64;
  }

  /** A log that the guest never asks to resize has the size with which it was opened. */
  lemma SizeIsOpened(exports: seq<Export>, s: State, run: Run, i: nat)
    requires Valid(exports, s) && ValidRun(exports, run) && i < |exports|
    ensures var t := RunGuest(exports, s, run);
      && s.actions <= t.actions
      && (t.sizes[i] == s.files[i] || exists size :: Resize(exports[i].name, size) in t.actions[|s.actions|..])
  {
    SizeIsKept(exports, Begin(exports, s), run.events, i);
    hide Events;
  }

  function Requests(events: seq<Event>): nat {
    if events == [] then 0 else (if events[0].Request? then 1 else 0) + Requests(events[1..])
  }

  /** Requests arrive one after the other, and the guest takes the answers. */
  predicate AllArrive(events: seq<Event>) {
    forall e | e in events && e.Request? :: e.receipt.Got? && !e.sendFails
  }

  lemma {:induction false} EventsAnswer(exports: seq<Export>, s: State, events: seq<Event>)
    requires Valid(exports, s) && AllArrive(events)
    requires s.serving ==> s.requests <= 16 * |exports|
    ensures var left := if s.serving then 16 * |exports| - s.requests else 0;
      |Events(exports, s, events).answers| - |s.answers| == if Requests(events) < left then Requests(events) else left
    decreases |events|
  {
    if events != [] {
      assert events[0] in events;
      assert AllArrive(events[1..]);
      StepAnswers(exports, s, events[0]);
      hide Next;
      EventsAnswer(exports, Next(exports, s, events[0]), events[1..]);
    }
  }

  lemma StepAnswers(exports: seq<Export>, s: State, e: Event)
    requires Valid(exports, s) && (e.Request? ==> e.receipt.Got? && !e.sendFails)
    ensures var n := Next(exports, s, e);
      if !e.Request? then n.serving == s.serving && n.requests == s.requests && n.answers == s.answers
      else if s.serving && s.requests < 16 * |exports| then
        n.serving && n.requests == s.requests + 1 && |n.answers| == |s.answers| + 1
      else !n.serving && n.answers == s.answers
  {
    if e.Request? && s.serving && |e.receipt.raw| <= REQUEST + MAX_CONFIG {
      HandleGrows(exports, s.(requests := s.requests + 1), e.receipt.raw, e.kernel);
    }
    hide Handle;
  }

  /** What serving a message within the budget comes to. One that is too long is refused unread. */
  lemma ServesExactly(exports: seq<Export>, s: State, raw: Bytes, kernel: int, sendFails: bool)
    requires Valid(exports, s) && s.serving && s.requests < 16 * |exports|
    ensures var t := Next(exports, s, Request(Got(raw), kernel, sendFails));
      var counted := s.(requests := s.requests + 1);
      && t.serving == !sendFails && t.requests == s.requests + 1
      && if |raw| > 4392 then t == counted.(serving := !sendFails, answers := s.answers + [Answer(-22, false)])
         else
           var h := Handle(exports, counted, raw, kernel);
           t == h.state.(serving := !sendFails, answers := s.answers + [Answer(h.err, h.passesFd)])
  {
    if |raw| <= 4392 {
      HandleGrows(exports, s.(requests := s.requests + 1), raw, kernel);
    }
    hide Handle;
  }

  /** Serving goes on when nothing has come yet, and ends at an error, the end, or one request too many. */
  lemma ServingEndsExactly(exports: seq<Export>, s: State, r: Receipt, kernel: int, sendFails: bool)
    requires Valid(exports, s) && s.serving && (r.Got? ==> s.requests >= 16 * |exports|)
    ensures var t := Next(exports, s, Request(r, kernel, sendFails));
      t == s.(serving := r.Again?, requests := if r.Got? then s.requests + 1 else s.requests)
  {
  }

  /** As long as they arrive, the first 16 requests for each export are answered, and no more. */
  lemma RunAnswers(exports: seq<Export>, s: State, run: Run)
    requires Valid(exports, s) && ValidRun(exports, run) && AllArrive(run.events)
    ensures var n := Requests(run.events);
      |RunGuest(exports, s, run).answers| - |s.answers| == if n < 16 * |exports| then n else 16 * |exports|
  {
    EventsAnswer(exports, Begin(exports, s), run.events);
    hide Events, Next;
  }

  ghost predicate Truncates(run: Run) {
    forall e | e in run.endings :: e.truncates
  }

  lemma {:induction false} EventsAppend(exports: seq<Export>, s: State, events: seq<Event>, e: Event)
    requires Valid(exports, s)
    ensures Events(exports, s, events + [e]) == Next(exports, Events(exports, s, events), e)
    decreases |events|
  {
    if events == [] {
      assert [] + [e] == [e] && [e][1..] == [];
    } else {
      assert (events + [e])[1..] == events[1..] + [e];
      EventsAppend(exports, Next(exports, s, events[0]), events[1..], e);
    }
  }

  lemma RunFits(exports: seq<Export>, s: State, run: Run)
    requires Valid(exports, s) && ValidRun(exports, run) && AllAllowed(exports, s)
    requires SizesFit(s.files) && Truncates(run)
    ensures SizesFit(RunGuest(exports, s, run).files)
  {
    var t := RunGuest(exports, s, run);
    RunKeeps(exports, s, run);
    forall i | 0 <= i < |exports|
      ensures t.files[i] <= MAX_LOG
    {
      assert run.endings[i].truncates;
    }
  }

  /** Logs that fit stay so over any number of runs, as long as they can be truncated. */
  lemma {:induction false} LogsFit(exports: seq<Export>, s: State, runs: seq<Run>)
    requires Valid(exports, s) && forall r | r in runs :: ValidRun(exports, r)
    requires AllAllowed(exports, s) && SizesFit(s.files)
    requires forall r | r in runs :: Truncates(r)
    ensures AllAllowed(exports, RunAll(exports, s, runs))
    ensures SizesFit(RunAll(exports, s, runs).files)
    decreases |runs|
  {
    if runs != [] {
      RunKeeps(exports, s, runs[0]);
      RunFits(exports, s, runs[0]);
      LogsFit(exports, RunGuest(exports, s, runs[0]), runs[1..]);
    }
  }

  /** A run in which truncation fails leaves the log as large as the guest made it. */
  lemma RunEndsFitExactly(exports: seq<Export>, s: State, run: Run)
    requires Valid(exports, s) && ValidRun(exports, run)
    requires AllAllowed(exports, s) && SizesFit(s.files)
    ensures SizesFit(RunGuest(exports, s, run).files) <==>
      forall i | 0 <= i < |exports| :: run.endings[i].truncates
        || Events(exports, Begin(exports, s), run.events).files[i] <= MAX_LOG
  {
    RunKeeps(exports, s, run);
    var t := RunGuest(exports, s, run);
    var u := Events(exports, Begin(exports, s), run.events);
    forall i | 0 <= i < |exports|
      ensures t.files[i] <= MAX_LOG <==> run.endings[i].truncates || u.files[i] <= MAX_LOG
    {
    }
  }

  /** The largest log fits in the tmpfs that holds it. */
  lemma LargestLogFits()
    ensures MAX_LOG == 33_555_488 && MAX_LOG < TMPFS && TMPFS - MAX_LOG < 0x10_0000
  {
  }
}
