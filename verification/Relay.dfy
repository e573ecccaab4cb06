/**
 The launcher's management console relay (launcher/invirtio-launch.c): class Relay is
 struct relay with its two operations, and System is the relay between its clients and
 the guest, with the poll loop that drives it.
 */
module Relay {
  import opened Sequences
  import opened Utf8
  import opened Words
  import opened Wrappers

  type Address = Bytes
  type Packet = Bytes

  const MAGIC: Word32 := 0xCAFE_BABE
  const VERSION: Word32 := 2
  const MAX_DATA: nat := 512
  const HEADER: nat := 12
  const REPLY_MORE: nat := 4
  const FORWARD_SECONDS: real := 10.0
  const REPLY_PACKETS: nat := 65536
  const BUFFER: nat := 4096
  const DRAIN: nat := 64

  /** A packet to one of the clients. */
  datatype Sent = Sent(client: Address, packet: Packet)

  /** A request as it arrives, with the sender's address. */
  datatype Datagram = Datagram(client: Address, data: Packet)

  /** The fields of struct relay. A descriptor of -1 is closed to the relay. */
  datatype State = State(
    host: int,
    guest: int,
    client: Address,
    waiting: bool,
    deadline: real,
    packets: nat)

  /** What an operation sends, to the guest, to a client as a reply, and as the relay's own error. */
  datatype Result = Result(
    state: State,
    toGuest: seq<Packet>,
    toClient: seq<Sent>,
    errors: seq<Refusal>)

  datatype Reason = BadRequest | NoGuest

  /** A client whose request the relay answers itself, with relay_error. */
  datatype Refusal = Refusal(client: Address, reason: Reason)

  /** What a buffer takes of a packet. */
  function Received(p: Packet): Packet {
    if |p| <= BUFFER then p else p[..BUFFER]
  }

  function ErrorReply(msg: Bytes): Packet
    requires |msg| < MAX_DATA
  {
    Header(1, 0, |msg| + 1, msg + [0])
  }

  /** A complete version 2 request. */
  predicate ValidRequest(p: Packet) {
    && |p| >= HEADER
    && Get(p, 0) == MAGIC
    && Get(p, 4) == VERSION
    && Get(p, 8) < MAX_DATA
    && HEADER + Get(p, 8) <= |p|
  }

  /** The reply's word that says whether more packets follow. A short packet has none. */
  function More(p: Packet): Word32 {
    if |p| >= HEADER then Get(p, REPLY_MORE) else 0
  }

  function Text(reason: Reason): Bytes {
    match reason
    case BadRequest => Ascii("The launcher relays only version 2 requests")
    case NoGuest => Ascii("The guest's mconsole is not available")
  }

  function Ascii(s: string): (b: Bytes)
    ensures |b| == |s|
  {
    seq(|s|, i requires 0 <= i < |s| => s[i] as int % 0x80)
  }

  /** relay_request, after the drain, for the datagram that recvmsg gives. */
  function Request(r: State, got: Option<Datagram>, age: real, sendFails: bool, now: real): Result {
    if got.None? then Result(r, [], [], [])
    else
      var p := Received(got.value.data);
      var r := r.(client := got.value.client);
      if age < 0.0 || age > FORWARD_SECONDS then Result(r, [], [], [])
      else if !ValidRequest(p) then
        Result(r, [], [], [Refusal(r.client, BadRequest)])
      else if r.guest < 0 || sendFails then
        Result(r, [], [], [Refusal(r.client, NoGuest)])
      else
        Result(r.(waiting := true, deadline := now + FORWARD_SECONDS - age, packets := 0),
               [p], [], [])
  }

  /** relay_reply, for the packet that recv gives. */
  function Reply(r: State, got: Option<Packet>, hungUp: bool, now: real): Result {
    if got.None? then Result(r, [], [], [])
    else
      var p := Received(got.value);
      if p == [] && hungUp then Result(Disabled(r), [], [], [])
      else
        var r := r.(packets := r.packets + 1);
        if r.packets > REPLY_PACKETS then Result(Disabled(r), [], [], [])
        else
          Result(if More(p) == 0 then r.(waiting := false) else r, [],
                 if now <= r.deadline then [Sent(r.client, p)] else [], [])
  }

  function Disabled(r: State): State {
    r.(guest := -1, waiting := false)
  }

  /** The sockets that the loop polls, of which one is always off. */
  function PolledGuest(r: State): int {
    if r.waiting then r.guest else -1
  }

  function PolledHost(r: State): int {
    if r.waiting then -1 else r.host
  }

  /** What the relay takes for a request of version 2: its header and its length, in numbers. */
  predicate IsRequest(p: Packet) {
    |p| >= 12 && Get(p, 0) == 0xCAFE_BABE && Get(p, 4) == 2 && Get(p, 8) < 512 && |p| >= 12 + Get(p, 8)
  }

  /**
   A datagram is passed on, up to 4096 bytes of it, exactly if it is at most ten seconds old, is a
   request, and the guest takes it. An old one is dropped, and of the others each gets its error.
   */
  lemma RequestExactly(r: State, d: Datagram, age: real, sendFails: bool, now: real)
    requires !r.waiting
    ensures var p := if |d.data| <= 4096 then d.data else d.data[..4096];
      var result := Request(r, Some(d), age, sendFails, now);
      var young, takes := 0.0 <= age <= 10.0, r.guest >= 0 && !sendFails;
      && (result.state.waiting <==> young && IsRequest(p) && takes)
      && result.toGuest == (if result.state.waiting then [p] else [])
      && (result.state.waiting ==> result.state.deadline == now + 10.0 - age && result.state.packets == 0)
      && result.toClient == [] && result.state.client == d.client
      && result.state.host == r.host && result.state.guest == r.guest
      && result.errors ==
         if !young || result.state.waiting then []
         else [Refusal(d.client, if IsRequest(p) then NoGuest else BadRequest)]
  {
  }

  /**
   A packet of the guest ends the reply exactly if its second word is zero or it has none, disables
   the guest exactly if it is empty and the guest hung up or it is one too many, and else goes
   to the client exactly if the deadline has not passed.
   */
  lemma ReplyExactly(r: State, packet: Packet, hungUp: bool, now: real)
    requires r.waiting && r.guest >= 0
    ensures var p := if |packet| <= 4096 then packet else packet[..4096];
      var result := Reply(r, Some(packet), hungUp, now);
      var disabled := (p == [] && hungUp) || r.packets >= 65536;
      && result.state.guest == (if disabled then -1 else r.guest)
      && (result.state.waiting <==> !disabled && |p| >= 12 && Get(p, 4) != 0)
      && result.toClient == (if !disabled && now <= r.deadline then [Sent(r.client, p)] else [])
      && result.toGuest == [] && result.errors == []
      && result.state.client == r.client && result.state.deadline == r.deadline
      && (!disabled ==> result.state.packets == r.packets + 1)
  {
  }

  class Relay {
    var host: int
    var guest: int
    var client: Address
    var waiting: bool
    var deadline: real
    var packets: nat

    function Current(): State
      reads this
    {
      State(host, guest, client, waiting, deadline, packets)
    }

    constructor (host: int, guest: int)
      ensures Current() == State(host, guest, [], false, 0.0, 0)
    {
      this.host, this.guest := host, guest;
      client, waiting, deadline, packets := [], false, 0.0, 0;
    }

    method HandleRequest(got: Option<Datagram>, age: real, sendFails: bool, now: real)
      returns (toGuest: seq<Packet>, toClient: seq<Sent>, errors: seq<Refusal>)
      modifies this
      ensures Result(Current(), toGuest, toClient, errors)
        == Request(old(Current()), got, age, sendFails, now)
    {
      toGuest, toClient, errors := [], [], [];
      if got.None? {
        return;
      }
      var p := Received(got.value.data);
      client := got.value.client;
      if age < 0.0 || age > FORWARD_SECONDS {
        return;
      }
      if !ValidRequest(p) {
        errors := [Refusal(client, BadRequest)];
        return;
      }
      if guest < 0 || sendFails {
        errors := [Refusal(client, NoGuest)];
        return;
      }
      toGuest := [p];
      waiting := true;
      deadline := now + FORWARD_SECONDS - age;
      packets := 0;
    }

    method HandleReply(got: Option<Packet>, hungUp: bool, now: real)
      returns (toGuest: seq<Packet>, toClient: seq<Sent>, errors: seq<Refusal>)
      modifies this
      ensures Result(Current(), toGuest, toClient, errors)
        == Reply(old(Current()), got, hungUp, now)
    {
      toGuest, toClient, errors := [], [], [];
      if got.None? {
        return;
      }
      var p := Received(got.value);
      if p == [] && hungUp {
        guest := -1;
        waiting := false;
        return;
      }
      packets := packets + 1;
      if packets > REPLY_PACKETS {
        guest := -1;
        waiting := false;
        return;
      }
      if now <= deadline {
        toClient := [Sent(client, p)];
      }
      if More(p) == 0 {
        waiting := false;
      }
    }
  }

  // The relay among its clients and the guest.

  /** A request that went to the guest. */
  datatype Accepted = Accepted(client: Address, deadline: real)

  /**
   A packet that the relay read while request number request was in flight, and which of the
   packets that the guest sent it is.
   */
  datatype Read = Read(request: nat, packet: Packet, at: real, index: nat)

  /** A packet of the guest, with the number of the request that the guest answers with it. */
  datatype Answer = Answer(request: nat, packet: Packet)

  datatype System = System(
    relay: State,
    time: real,
    /** The datagrams in the host socket. */
    arriving: seq<Datagram>,
    /** The guest's socket, in both directions, and whether the guest closed it. */
    requests: seq<Packet>,
    replies: seq<Answer>,
    hungUp: bool,
    /** The requests that the guest has taken, and whether the last is still to be answered. */
    taken: nat,
    answering: bool,
    /** What has happened. */
    accepted: seq<Accepted>,
    finished: nat,
    readings: seq<Read>,
    sent: seq<Sent>,
    answers: seq<Answer>,
    /** How many requests the relay had taken when the guest sent each packet. */
    asked: seq<nat>)

  datatype Event =
    | Tick(dt: real)
    | Arrive(datagram: Datagram)
    | GuestTakes
    | GuestSends(packet: Packet)
    | GuestHangsUp
    /** An iteration of the loop, with the age that the relay computes for a request. */
    | Poll(age: real, sendFails: bool, pollError: bool)

  function Start(host: int, guest: int): System {
    System(State(host, guest, [], false, 0.0, 0), 0.0, [], [], [], false, 0, false, [], 0, [], [], [], [])
  }

  function Next(s: System, e: Event): System {
    match e
    case Tick(dt) => if dt < 0.0 then s else s.(time := s.time + dt)
    case Arrive(d) => s.(arriving := s.arriving + [d])
    case GuestTakes =>
      if s.requests == [] then s
      else s.(requests := s.requests[1..], taken := s.taken + 1, answering := true)
    case GuestSends(p) =>
      var a := Answer(if s.taken == 0 then 0 else s.taken - 1, p);
      s.(replies := s.replies + [a], answers := s.answers + [a], asked := s.asked + [|s.accepted|],
         answering := s.answering && More(Received(p)) != 0)
    case GuestHangsUp => s.(hungUp := true)
    case Poll(age, sendFails, pollError) =>
      if PolledGuest(s.relay) >= 0 then PollGuest(s, pollError)
      else if PolledHost(s.relay) >= 0 && s.arriving != [] then PollHost(s, age, sendFails)
      else s
  }

  /** The first packet in the socket, as it is read. */
  function FirstRead(s: System): Read
    requires s.replies != [] && s.accepted != []
  {
    Read(|s.accepted| - 1, Received(s.replies[0].packet), s.time,
         if |s.replies| <= |s.answers| then |s.answers| - |s.replies| else 0)
  }

  function PollGuest(s: System, pollError: bool): System {
    if pollError then s.(relay := Disabled(s.relay), finished := s.finished + 1)
    else if s.replies != [] then
      var r := Reply(s.relay, Some(s.replies[0].packet), s.hungUp, s.time);
      s.(relay := r.state,
         replies := s.replies[1..],
         sent := s.sent + r.toClient,
         readings := if r.state.guest < 0 || s.accepted == [] then s.readings
                     else s.readings + [FirstRead(s)],
         finished := if r.state.waiting then s.finished else s.finished + 1)
    else if s.hungUp then
      var r := Reply(s.relay, Some([]), true, s.time);
      s.(relay := r.state, finished := s.finished + 1)
    else s
  }

  function PollHost(s: System, age: real, sendFails: bool): System
    requires s.arriving != []
  {
    var left :=
      if s.relay.guest < 0 then s.replies
      else if |s.replies| <= DRAIN then []
      else s.replies[DRAIN..];
    var r := Request(s.relay, Some(s.arriving[0]), age, sendFails, s.time);
    s.(relay := r.state,
       arriving := s.arriving[1..],
       replies := left,
       requests := s.requests + r.toGuest,
       accepted := if r.state.waiting then s.accepted + [Accepted(r.state.client, r.state.deadline)]
                   else s.accepted)
  }

  function Run(s: System, events: seq<Event>): System
    decreases |events|
  {
    if events == [] then s else Run(Next(s, events[0]), events[1..])
  }

  lemma {:induction false} RunAppend(s: System, a: seq<Event>, b: seq<Event>)
    ensures Run(s, a + b) == Run(Run(s, a), b)
    decreases |a|
  {
    if a == [] {
      assert a + b == b;
    } else {
      assert (a + b)[1..] == a[1..] + b;
      RunAppend(Next(s, a[0]), a[1..], b);
    }
  }

  /** The packets that the relay read as the reply to one request. */
  function ReadsOf(readings: seq<Read>, request: nat): seq<Read>
    decreases |readings|
  {
    if readings == [] then []
    else
      var last := readings[|readings| - 1];
      ReadsOf(readings[..|readings| - 1], request) + if last.request == request then [last] else []
  }

  lemma {:induction false} NoReadsOf(readings: seq<Read>, request: nat)
    requires forall r | r in readings :: r.request < request
    ensures ReadsOf(readings, request) == []
    decreases |readings|
  {
    if readings != [] {
      NoReadsOf(readings[..|readings| - 1], request);
    }
  }

  lemma ReadsNext(readings: seq<Read>, r: Read, request: nat)
    ensures r.request == request ==> ReadsOf(readings + [r], request) == ReadsOf(readings, request) + [r]
    ensures r.request != request ==> ReadsOf(readings + [r], request) == ReadsOf(readings, request)
  {
    assert (readings + [r])[..|readings|] == readings;
    assert ReadsOf(readings, request) + [] == ReadsOf(readings, request);
  }

  /** The packets of a reply that were read by a deadline. */
  function InTime(readings: seq<Read>, deadline: real): seq<Packet>
    decreases |readings|
  {
    if readings == [] then []
    else
      var last := readings[|readings| - 1];
      InTime(readings[..|readings| - 1], deadline)
      + if last.at <= deadline then [last.packet] else []
  }

  function AllTo(client: Address, packets: seq<Packet>): (r: seq<Sent>)
    ensures |r| == |packets|
  {
    seq(|packets|, i requires 0 <= i < |packets| => Sent(client, packets[i]))
  }

  /** What one client should have been sent: the packets of its reply that were read in time. */
  function ReplyTo(accepted: seq<Accepted>, readings: seq<Read>, k: nat): seq<Sent>
    requires k < |accepted|
  {
    AllTo(accepted[k].client, InTime(ReadsOf(readings, k), accepted[k].deadline))
  }

  /** What the first n clients should have been sent, one reply after the other. */
  function Expected(accepted: seq<Accepted>, readings: seq<Read>, n: nat): seq<Sent>
    requires n <= |accepted|
  {
    if n == 0 then [] else Expected(accepted, readings, n - 1) + ReplyTo(accepted, readings, n - 1)
  }

  lemma ExpectedNone(accepted: seq<Accepted>, readings: seq<Read>)
    ensures Expected(accepted, readings, 0) == []
  {
  }

  lemma ExpectedLast(accepted: seq<Accepted>, readings: seq<Read>, n: nat)
    requires 0 < n <= |accepted|
    ensures Expected(accepted, readings, n) == Expected(accepted, readings, n - 1) + ReplyTo(accepted, readings, n - 1)
  {
  }

  lemma ReplyToOther(accepted: seq<Accepted>, readings: seq<Read>, r: Read, k: nat)
    requires k < |accepted| && r.request != k
    ensures ReplyTo(accepted, readings + [r], k) == ReplyTo(accepted, readings, k)
  {
    ReadsNext(readings, r, k);
  }

  /** A packet that is read for the last request is no part of an earlier reply. */
  lemma {:induction false} ExpectedBefore(accepted: seq<Accepted>, readings: seq<Read>, r: Read, n: nat)
    requires n <= |accepted| && n <= r.request
    ensures Expected(accepted, readings + [r], n) == Expected(accepted, readings, n)
  {
    hide *;
    if n == 0 {
      ExpectedNone(accepted, readings);
      ExpectedNone(accepted, readings + [r]);
    } else {
      ExpectedLast(accepted, readings, n);
      ExpectedLast(accepted, readings + [r], n);
      assert Expected(accepted, readings + [r], n - 1) == Expected(accepted, readings, n - 1) by {
        ExpectedBefore(accepted, readings, r, n - 1);
      }
      assert ReplyTo(accepted, readings + [r], n - 1) == ReplyTo(accepted, readings, n - 1) by {
        ReplyToOther(accepted, readings, r, n - 1);
      }
    }
  }

  lemma AllToAppend(client: Address, a: seq<Packet>, b: seq<Packet>)
    ensures AllTo(client, a + b) == AllTo(client, a) + AllTo(client, b)
  {
  }

  lemma ReplyNext(accepted: seq<Accepted>, readings: seq<Read>, r: Read)
    requires r.request < |accepted|
    ensures var to := accepted[r.request];
      ReplyTo(accepted, readings + [r], r.request)
      == ReplyTo(accepted, readings, r.request) + if r.at <= to.deadline then [Sent(to.client, r.packet)] else []
  {
    var to := accepted[r.request];
    var own := ReadsOf(readings, r.request);
    ReadsNext(readings, r, r.request);
    hide ReadsOf;
    assert (own + [r])[..|own|] == own;
    AllToAppend(to.client, InTime(own, to.deadline), if r.at <= to.deadline then [r.packet] else []);
    assert AllTo(to.client, [r.packet]) == [Sent(to.client, r.packet)] && AllTo(to.client, []) == [];
  }

  lemma ExpectedNext(accepted: seq<Accepted>, readings: seq<Read>, r: Read)
    requires accepted != [] && r.request == |accepted| - 1
    ensures Expected(accepted, readings + [r], |accepted|)
      == Expected(accepted, readings, |accepted|)
         + if r.at <= accepted[r.request].deadline then [Sent(accepted[r.request].client, r.packet)] else []
  {
    hide *;
    var to := accepted[r.request];
    var before, own := Expected(accepted, readings, r.request), ReplyTo(accepted, readings, r.request);
    var more := if r.at <= to.deadline then [Sent(to.client, r.packet)] else [];
    assert Expected(accepted, readings + [r], r.request) == before by {
      ExpectedBefore(accepted, readings, r, r.request);
    }
    assert ReplyTo(accepted, readings + [r], r.request) == own + more by {
      ReplyNext(accepted, readings, r);
    }
    assert Expected(accepted, readings, |accepted|) == before + own by {
      ExpectedLast(accepted, readings, |accepted|);
    }
    assert Expected(accepted, readings + [r], |accepted|) == before + (own + more) by {
      ExpectedLast(accepted, readings + [r], |accepted|);
    }
    Regroup(before, own, more);
  }

  lemma {:induction false} ExpectedGrows(accepted: seq<Accepted>, more: Accepted, readings: seq<Read>, n: nat)
    requires n <= |accepted|
    ensures Expected(accepted + [more], readings, n) == Expected(accepted, readings, n)
  {
    hide *;
    if n == 0 {
      ExpectedNone(accepted, readings);
      ExpectedNone(accepted + [more], readings);
    } else {
      ExpectedLast(accepted, readings, n);
      ExpectedLast(accepted + [more], readings, n);
      ReplyToSame(accepted, more, readings, n - 1);
      ExpectedGrows(accepted, more, readings, n - 1);
    }
  }

  lemma ReplyToSame(accepted: seq<Accepted>, more: Accepted, readings: seq<Read>, k: nat)
    requires k < |accepted|
    ensures ReplyTo(accepted + [more], readings, k) == ReplyTo(accepted, readings, k)
  {
  }

  lemma NoReplyTo(accepted: seq<Accepted>, readings: seq<Read>, k: nat)
    requires k < |accepted| && forall r | r in readings :: r.request < k
    ensures ReplyTo(accepted, readings, k) == []
  {
    NoReadsOf(readings, k);
  }

  lemma ExpectedStarts(accepted: seq<Accepted>, more: Accepted, readings: seq<Read>)
    requires forall r | r in readings :: r.request < |accepted|
    ensures Expected(accepted + [more], readings, |accepted| + 1) == Expected(accepted, readings, |accepted|)
  {
    hide *;
    ExpectedGrows(accepted, more, readings, |accepted|);
    NoReplyTo(accepted + [more], readings, |accepted|);
    ExpectedLast(accepted + [more], readings, |accepted| + 1);
  }

  predicate InFlight(s: System) {
    && |s.accepted| == s.finished + (if s.relay.waiting then 1 else 0)
    && (s.relay.waiting ==>
        && s.relay.guest >= 0
        && s.relay.client == s.accepted[|s.accepted| - 1].client
        && s.relay.deadline == s.accepted[|s.accepted| - 1].deadline)
  }

  /** What holds in every run, whatever the guest does. */
  predicate Sound(s: System) {
    && InFlight(s)
    && (forall r | r in s.readings :: r.request < |s.accepted|)
    && s.sent == Expected(s.accepted, s.readings, |s.accepted|)
  }

  ghost predicate Bounded(s: System) {
    && (s.relay.waiting && s.accepted != [] ==>
        |ReadsOf(s.readings, |s.accepted| - 1)| == s.relay.packets)
    && s.relay.packets <= REPLY_PACKETS + 1
    && forall k: nat :: |ReadsOf(s.readings, k)| <= REPLY_PACKETS
  }

  lemma PollGuestInFlight(s: System, pollError: bool)
    requires InFlight(s) && PolledGuest(s.relay) >= 0
    ensures InFlight(PollGuest(s, pollError))
    ensures PollGuest(s, pollError).accepted == s.accepted
  {
  }

  /** What one packet of the guest adds to what was read and sent. */
  lemma PacketIsRead(s: System)
    requires InFlight(s) && PolledGuest(s.relay) >= 0 && s.replies != []
    ensures var t := PollGuest(s, false); var last := s.accepted[|s.accepted| - 1];
      var read := FirstRead(s);
      if t.relay.guest < 0 then t.readings == s.readings && t.sent == s.sent
      else
        && t.readings == s.readings + [read]
        && t.replies == s.replies[1..] && t.answers == s.answers
        && t.sent == s.sent + if read.at <= last.deadline then [Sent(last.client, read.packet)] else []
  {
    if PollGuest(s, false).relay.guest < 0 {
      assert s.sent + [] == s.sent;
    }
  }

  lemma PollGuestSound(s: System, pollError: bool)
    requires Sound(s) && PolledGuest(s.relay) >= 0
    ensures Sound(PollGuest(s, pollError))
  {
    PollGuestInFlight(s, pollError);
    if !pollError && s.replies != [] {
      PacketIsRead(s);
      hide Expected, PollGuest, InFlight, Received, PolledGuest;
      ReadIsSound(s, PollGuest(s, false));
    } else {
      hide Expected;
      assert s.sent + [] == s.sent;
    }
  }

  lemma ReadIsSound(s: System, t: System)
    requires Sound(s) && InFlight(t) && t.accepted == s.accepted && s.accepted != [] && s.replies != []
    requires var last := s.accepted[|s.accepted| - 1]; var read := FirstRead(s);
      || (t.readings == s.readings && t.sent == s.sent)
      || (t.readings == s.readings + [read]
          && t.sent == s.sent + if read.at <= last.deadline then [Sent(last.client, read.packet)] else [])
    ensures Sound(t)
  {
    hide Expected, InFlight, Received;
    ExpectedNext(s.accepted, s.readings, FirstRead(s));
  }

  lemma PollHostSound(s: System, age: real, sendFails: bool)
    requires Sound(s) && PolledHost(s.relay) >= 0 && s.arriving != []
    ensures Sound(PollHost(s, age, sendFails))
  {
    hide Expected, Received, ValidRequest;
    var t := PollHost(s, age, sendFails);
    if t.accepted != s.accepted {
      ExpectedStarts(s.accepted, t.accepted[|t.accepted| - 1], s.readings);
    }
  }

  lemma NextSound(s: System, e: Event)
    requires Sound(s)
    ensures Sound(Next(s, e))
  {
    if e.Poll? {
      if PolledGuest(s.relay) >= 0 {
        PollGuestSound(s, e.pollError);
      } else if PolledHost(s.relay) >= 0 && s.arriving != [] {
        PollHostSound(s, e.age, e.sendFails);
      }
    }
  }

  lemma ReadsStayBounded(readings: seq<Read>, r: Read)
    requires forall k: nat :: |ReadsOf(readings, k)| <= REPLY_PACKETS
    requires |ReadsOf(readings, r.request)| < REPLY_PACKETS
    ensures forall k: nat :: |ReadsOf(readings + [r], k)| <= REPLY_PACKETS
    ensures |ReadsOf(readings + [r], r.request)| == |ReadsOf(readings, r.request)| + 1
  {
    forall k: nat {
      ReadsNext(readings, r, k);
    }
    hide ReadsOf;
  }

  lemma PollGuestBounded(s: System, pollError: bool)
    requires Sound(s) && Bounded(s) && PolledGuest(s.relay) >= 0
    ensures Bounded(PollGuest(s, pollError))
  {
    hide ReadsOf, Expected;
    if PollGuest(s, pollError).readings != s.readings {
      ReadsStayBounded(s.readings, FirstRead(s));
    }
  }

  lemma PollHostBounded(s: System, age: real, sendFails: bool)
    requires Sound(s) && Bounded(s) && PolledHost(s.relay) >= 0 && s.arriving != []
    ensures Bounded(PollHost(s, age, sendFails))
  {
    RequestStarts(s.relay, Some(s.arriving[0]), age, sendFails, s.time);
    NoReadsOf(s.readings, |s.accepted|);
    var t := PollHost(s, age, sendFails);
    assert t.readings == s.readings;
  }

  lemma RequestStarts(r: State, got: Option<Datagram>, age: real, sendFails: bool, now: real)
    requires !r.waiting
    ensures var r' := Request(r, got, age, sendFails, now).state;
      r'.packets == if r'.waiting then 0 else r.packets
  {
  }

  lemma NextBounded(s: System, e: Event)
    requires Sound(s) && Bounded(s)
    ensures Bounded(Next(s, e))
  {
    if e.Poll? {
      if PolledGuest(s.relay) >= 0 {
        PollGuestBounded(s, e.pollError);
      } else if PolledHost(s.relay) >= 0 && s.arriving != [] {
        PollHostBounded(s, e.age, e.sendFails);
      }
    }
  }

  /** A closed guest socket stays closed, and the host's never changes. */
  lemma NextDisabled(s: System, e: Event)
    ensures Next(s, e).relay.host == s.relay.host
    ensures s.relay.guest < 0 && !s.relay.waiting ==>
      Next(s, e).relay.guest < 0 && !Next(s, e).relay.waiting
      && Next(s, e).accepted == s.accepted && Next(s, e).sent == s.sent
    ensures Next(s, e).relay.guest in {s.relay.guest, -1}
  {
  }

  /** While a request is in flight, no event changes whom its reply goes to. */
  lemma WaitingKeepsClient(s: System, e: Event)
    requires s.relay.waiting && s.relay.guest >= 0 && Next(s, e).relay.waiting
    ensures Next(s, e).relay.client == s.relay.client
    ensures Next(s, e).relay.deadline == s.relay.deadline
    ensures Next(s, e).accepted == s.accepted
  {
  }

  lemma {:induction false} RunKeeps(s: System, events: seq<Event>)
    requires Sound(s) && Bounded(s)
    ensures Sound(Run(s, events)) && Bounded(Run(s, events))
    ensures s.relay.guest < 0 && !s.relay.waiting ==>
      Run(s, events).accepted == s.accepted && Run(s, events).sent == s.sent
    decreases |events|
  {
    if events != [] {
      NextSound(s, events[0]);
      NextBounded(s, events[0]);
      NextDisabled(s, events[0]);
      RunKeeps(Next(s, events[0]), events[1..]);
    }
  }

  lemma StartIsSound(host: int, guest: int)
    ensures Sound(Start(host, guest)) && Bounded(Start(host, guest))
    ensures InStep(Start(host, guest)) && Attributed(Start(host, guest))
  {
  }

  /**
   In every run, with any clients and any guest: at most one request is in flight, a relay
   that waits has a guest, all that was sent to clients is, request after request, what the
   relay read while that request was in flight and by its deadline, no reply gives more than
   the limit, and once the guest's socket is disabled nothing more is accepted or sent.
   */
  lemma RelayIsSound(host: int, guest: int, events: seq<Event>, more: seq<Event>)
    ensures var t := Run(Start(host, guest), events);
      && t.finished <= |t.accepted| <= t.finished + 1
      && (t.relay.waiting ==> t.relay.guest >= 0)
      && t.sent == Expected(t.accepted, t.readings, |t.accepted|)
      && (forall k: nat :: |ReadsOf(t.readings, k)| <= REPLY_PACKETS)
    ensures var t := Run(Start(host, guest), events);
      var u := Run(Start(host, guest), events + more);
      t.relay.guest < 0 ==> u.accepted == t.accepted && u.sent == t.sent
  {
    StartIsSound(host, guest);
    RunKeeps(Start(host, guest), events);
    RunAppend(Start(host, guest), events, more);
    RunKeeps(Run(Start(host, guest), events), more);
  }

  // A guest that can send anything at any time.

  /**
   While no request is in flight, a turn takes the next datagram, whether the guest's socket is
   disabled or not. If it is not, this drops the packets that wait, up to 64, so that none is
   left exactly if no more wait.
   */
  lemma DrainExactly(s: System, age: real, sendFails: bool, pollError: bool)
    requires !s.relay.waiting && s.relay.host >= 0 && s.arriving != []
    ensures var t := Next(s, Poll(age, sendFails, pollError));
      && t.arriving == s.arriving[1..] && t.readings == s.readings && t.sent == s.sent
      && (s.relay.guest < 0 ==> t.replies == s.replies)
      && (s.relay.guest >= 0 ==>
            && t.replies == s.replies[if |s.replies| < 64 then |s.replies| else 64..]
            && (t.replies == [] <==> |s.replies| <= 64))
  {
    hide Request;
  }

  /** At each turn that takes a datagram, at most 64 packets of the guest wait. */
  predicate FewWait(s: System, events: seq<Event>)
    decreases |events|
  {
    events != [] ==>
      && (events[0].Poll? && !s.relay.waiting && s.relay.guest >= 0 && s.arriving != [] ==> |s.replies| <= 64)
      && FewWait(Next(s, events[0]), events[1..])
  }

  /** The packets that wait are the last that the guest sent. */
  predicate Waits(s: System) {
    && |s.asked| == |s.answers| && |s.replies| <= |s.answers|
    && s.replies == s.answers[|s.answers| - |s.replies|..]
    && (forall j | 0 <= j < |s.asked| :: s.asked[j] <= |s.accepted|)
  }

  /** While a request is in flight, all that waits was sent after it was taken. */
  predicate WaitsFresh(s: System) {
    s.relay.waiting ==>
      forall j | |s.answers| - |s.replies| <= j < |s.asked| :: 0 <= j && s.asked[j] == |s.accepted|
  }

  /**
   What was read is what the guest sent, in its order, and each packet was sent after the relay
   had taken the request that it is read for.
   */
  predicate ReadsAreFresh(s: System) {
    && (forall i | 0 <= i < |s.readings| :: var r := s.readings[i];
          && r.index < |s.answers| && r.index < |s.asked|
          && r.packet == Received(s.answers[r.index].packet)
          && r.request < s.asked[r.index])
    && (forall i, j | 0 <= i < j < |s.readings| :: s.readings[i].index < s.readings[j].index)
  }

  /** What was read no longer waits. */
  predicate ReadsAreGone(s: System) {
    forall i | 0 <= i < |s.readings| :: s.readings[i].index < |s.answers| - |s.replies|
  }

  predicate Fresh(s: System) {
    Waits(s) && WaitsFresh(s) && ReadsAreFresh(s) && ReadsAreGone(s)
  }

  lemma PollGuestFresh(s: System, pollError: bool)
    requires InFlight(s) && Fresh(s) && PolledGuest(s.relay) >= 0
    ensures Fresh(PollGuest(s, pollError))
  {
    if !pollError && s.replies != [] {
      hide *;
      PollGuestKeeps(s);
      PacketIsRead(s);
      OneIsRead(s, PollGuest(s, false));
    }
  }

  /** A packet is read, or is dropped as it disables the guest. */
  lemma OneIsRead(s: System, t: System)
    requires Fresh(s) && s.relay.waiting && s.replies != [] && s.accepted != []
    requires t.answers == s.answers && t.asked == s.asked && t.replies == s.replies[1..] && t.accepted == s.accepted
    requires t.readings == s.readings || t.readings == s.readings + [FirstRead(s)]
    ensures Fresh(t)
  {
    hide Received;
    assert s.replies[0] == s.answers[|s.answers| - |s.replies|];
    assert t.replies == t.answers[|t.answers| - |t.replies|..];
  }

  lemma PollGuestKeeps(s: System)
    requires InFlight(s) && PolledGuest(s.relay) >= 0 && s.replies != []
    ensures var t := PollGuest(s, false);
      && t.answers == s.answers && t.asked == s.asked && t.replies == s.replies[1..] && t.accepted == s.accepted
      && (t.relay.guest < 0 ==> !t.relay.waiting)
      && s.relay.waiting && s.accepted != []
  {
  }

  lemma PollHostFresh(s: System, age: real, sendFails: bool)
    requires InFlight(s) && Fresh(s) && PolledHost(s.relay) >= 0 && s.arriving != []
    requires s.relay.guest >= 0 ==> |s.replies| <= 64
    ensures Fresh(PollHost(s, age, sendFails))
  {
    hide Received, ValidRequest;
    var t := PollHost(s, age, sendFails);
    if s.relay.guest >= 0 {
      assert t.replies == [] && t.answers[|t.answers|..] == [];
    } else {
      assert !t.relay.waiting;
    }
  }

  lemma NextFresh(s: System, e: Event)
    requires InFlight(s) && Fresh(s) && FewWait(s, [e])
    ensures Fresh(Next(s, e))
  {
    if e.Poll? {
      hide PollGuest, PollHost, InFlight, Fresh;
      if PolledGuest(s.relay) >= 0 {
        PollGuestFresh(s, e.pollError);
      } else if PolledHost(s.relay) >= 0 && s.arriving != [] {
        PollHostFresh(s, e.age, e.sendFails);
      }
    } else {
      OthersKeepFresh(s, e);
    }
  }

  lemma OthersKeepFresh(s: System, e: Event)
    requires Fresh(s) && !e.Poll?
    ensures Fresh(Next(s, e))
  {
    hide Received, PollGuest, PollHost, More, Waits, WaitsFresh, ReadsAreFresh, ReadsAreGone, Fresh;
    if e.GuestSends? {
      OneIsSent(s, Next(s, e));
    } else {
      FreshByFields(s, Next(s, e));
    }
  }

  /** A packet that the guest sends waits behind the others. */
  lemma OneIsSent(s: System, t: System)
    requires Fresh(s) && t.readings == s.readings && t.accepted == s.accepted
    requires t.relay == s.relay && t.asked == s.asked + [|s.accepted|] && |t.answers| == |s.answers| + 1
    requires t.answers[..|s.answers|] == s.answers && t.replies == s.replies + [t.answers[|s.answers|]]
    ensures Fresh(t)
  {
    hide Received;
    assert forall j | 0 <= j < |s.answers| :: t.answers[j] == s.answers[j];
    assert t.replies == t.answers[|t.answers| - |t.replies|..];
  }

  lemma FreshByFields(s: System, t: System)
    requires Fresh(s) && t.readings == s.readings && t.accepted == s.accepted && t.relay == s.relay
    requires t.asked == s.asked && t.answers == s.answers && t.replies == s.replies
    ensures Fresh(t)
  {
  }

  lemma {:induction false} RunIsFresh(s: System, events: seq<Event>)
    requires Sound(s) && Fresh(s) && FewWait(s, events)
    ensures Fresh(Run(s, events))
    decreases |events|
  {
    if events != [] {
      NextSound(s, events[0]);
      hide Fresh, Next;
      NextFresh(s, events[0]);
      RunIsFresh(Next(s, events[0]), events[1..]);
    }
  }

  /**
   Also with a guest that sends unasked, no packet that it sent before a request was taken is
   read as part of the reply to it, as long as at most 64 wait whenever a datagram is taken.
   */
  lemma RepliesAreFresh(host: int, guest: int, events: seq<Event>)
    requires FewWait(Start(host, guest), events)
    ensures var t := Run(Start(host, guest), events);
      |t.asked| == |t.answers| && ReadsAreFresh(t)
  {
    hide *;
    StartIsFresh(host, guest);
    RunIsFresh(Start(host, guest), events);
    FreshIsRead(Run(Start(host, guest), events));
  }

  lemma StartIsFresh(host: int, guest: int)
    ensures Sound(Start(host, guest)) && Fresh(Start(host, guest))
  {
  }

  lemma FreshIsRead(s: System)
    requires Fresh(s)
    ensures |s.asked| == |s.answers| && ReadsAreFresh(s)
  {
  }

  // A guest that answers requests and sends nothing else.

  /** The guest sends only to answer a request, and takes the next once it has answered. */
  predicate GuestAllows(s: System, e: Event) {
    match e
    case GuestTakes => !s.answering
    case GuestSends(_) => s.answering
    case _ => true
  }

  predicate GuestBehaves(s: System, events: seq<Event>)
    decreases |events|
  {
    events != [] ==> GuestAllows(s, events[0]) && GuestBehaves(Next(s, events[0]), events[1..])
  }

  function Answers(readings: seq<Read>): (r: seq<Answer>)
    ensures |r| == |readings|
  {
    seq(|readings|, i requires 0 <= i < |readings| =>
      Answer(readings[i].request, readings[i].packet))
  }

  function AsReceived(answers: seq<Answer>): (r: seq<Answer>)
    ensures |r| == |answers|
  {
    seq(|answers|, i requires 0 <= i < |answers| =>
      Answer(answers[i].request, Received(answers[i].packet)))
  }

  predicate Ends(a: Answer) {
    More(Received(a.packet)) == 0
  }

  /** The packets in the socket are of one reply, which ends with the last if it has ended. */
  predicate OneReply(replies: seq<Answer>, request: int, answering: bool) {
    && (forall a | a in replies :: a.request == request)
    && (forall i | 0 <= i < |replies| && Ends(replies[i]) :: i == |replies| - 1 && !answering)
    && (!answering && replies != [] ==> Ends(replies[|replies| - 1]))
  }

  /** The guest is where the relay takes it to be. */
  predicate InStep(s: System) {
    && s.taken + |s.requests| == |s.accepted|
    && (s.relay.guest >= 0 ==>
        if s.relay.waiting then
          && OneReply(s.replies, |s.accepted| - 1, s.answering)
          && (s.requests != [] ==> |s.requests| == 1 && s.replies == [] && !s.answering)
          && (s.requests == [] && !s.answering ==> s.replies != [])
        else
          s.requests == [] && s.replies == [] && !s.answering)
    && |s.requests| <= 1
    && (s.answering ==> s.taken > 0 && s.requests == [])
  }

  /**
   The relay has read the guest's packets in order, each as part of its own reply, and what it
   has not read is of the last reply.
   */
  predicate Attributed(s: System) {
    && Answers(s.readings) <= AsReceived(s.answers)
    && (forall i | |s.readings| <= i < |s.answers| :: s.answers[i].request == |s.accepted| - 1)
    && (s.relay.guest >= 0 ==> AsReceived(s.answers) == Answers(s.readings) + AsReceived(s.replies))
  }

  lemma NextInStep(s: System, e: Event)
    requires Sound(s) && InStep(s) && GuestAllows(s, e)
    ensures InStep(Next(s, e))
  {
    if e.Poll? {
      hide PollGuest, PollHost, InStep, Sound, GuestAllows;
      if PolledGuest(s.relay) >= 0 {
        PollGuestInStep(s, e.pollError);
      } else if PolledHost(s.relay) >= 0 && s.arriving != [] {
        PollHostInStep(s, e.age, e.sendFails);
      }
    } else {
      GuestInStep(s, e);
    }
  }

  lemma GuestInStep(s: System, e: Event)
    requires Sound(s) && InStep(s) && GuestAllows(s, e) && !e.Poll?
    ensures InStep(Next(s, e))
  {
    hide PollGuest, PollHost, Expected;
    if e.GuestSends? {
      var t := Next(s, e);
      assert t.replies[..|s.replies|] == s.replies;
    }
  }

  lemma PollGuestInStep(s: System, pollError: bool)
    requires Sound(s) && InStep(s) && PolledGuest(s.relay) >= 0
    ensures InStep(PollGuest(s, pollError))
  {
    if !pollError && s.replies != [] {
      var t := PollGuest(s, pollError);
      assert Ends(s.replies[0]) <==> More(Received(s.replies[0].packet)) == 0;
      assert forall i | 0 <= i < |t.replies| :: t.replies[i] == s.replies[i + 1];
    }
  }

  lemma PollHostInStep(s: System, age: real, sendFails: bool)
    requires Sound(s) && InStep(s) && PolledHost(s.relay) >= 0 && s.arriving != []
    ensures InStep(PollHost(s, age, sendFails))
  {
  }

  lemma NextAttributed(s: System, e: Event)
    requires Sound(s) && InStep(s) && Attributed(s) && GuestAllows(s, e)
    ensures Attributed(Next(s, e))
  {
    match e
    case Poll(age, sendFails, pollError) =>
      if PolledGuest(s.relay) >= 0 {
        PollGuestAttributed(s, pollError);
      } else if PolledHost(s.relay) >= 0 && s.arriving != [] {
        PollHostAttributed(s, age, sendFails);
      }
    case GuestSends(p) => GuestSendsAttributed(s, p);
    case _ =>
  }

  lemma GuestSendsAttributed(s: System, p: Packet)
    requires Sound(s) && InStep(s) && Attributed(s) && s.answering
    ensures Attributed(Next(s, GuestSends(p)))
  {
    var t := Next(s, GuestSends(p));
    var a := Answer(s.taken - 1, p);
    AsReceivedAppend(s.answers, a);
    AsReceivedAppend(s.replies, a);
    hide AsReceived, Sound;
    assert AsReceived(s.answers) <= AsReceived(t.answers);
  }

  lemma AsReceivedAppend(answers: seq<Answer>, a: Answer)
    ensures AsReceived(answers + [a]) == AsReceived(answers) + AsReceived([a])
  {
  }

  lemma PollHostAttributed(s: System, age: real, sendFails: bool)
    requires Sound(s) && InStep(s) && Attributed(s) && PolledHost(s.relay) >= 0 && s.arriving != []
    ensures Attributed(PollHost(s, age, sendFails))
  {
  }

  lemma PollGuestAttributed(s: System, pollError: bool)
    requires Sound(s) && InStep(s) && Attributed(s) && PolledGuest(s.relay) >= 0
    ensures Attributed(PollGuest(s, pollError))
  {
    if !pollError && s.replies != [] {
      var t := PollGuest(s, pollError);
      PollGuestInFlight(s, pollError);
      PacketIsRead(s);
      hide PollGuest, Sound, Answers, AsReceived, Received;
      if t.relay.guest >= 0 {
        var read := FirstRead(s);
        assert s.replies[0].request == read.request;
        AnswersNext(s.readings, read, s.replies);
        Regroup(Answers(s.readings), Answers([read]), AsReceived(t.replies));
      }
    }
  }

  /** The first answer that waits becomes the last one that was read. */
  lemma AnswersNext(readings: seq<Read>, read: Read, replies: seq<Answer>)
    requires replies != [] && replies[0].request == read.request && Received(replies[0].packet) == read.packet
    ensures Answers(readings + [read]) == Answers(readings) + Answers([read])
    ensures AsReceived(replies) == Answers([read]) + AsReceived(replies[1..])
  {
  }

  lemma {:induction false} RunKeepsStep(s: System, events: seq<Event>)
    requires Sound(s) && InStep(s) && Attributed(s) && GuestBehaves(s, events)
    ensures var t := Run(s, events); Sound(t) && InStep(t) && Attributed(t)
    decreases |events|
  {
    if events != [] {
      NextSound(s, events[0]);
      NextInStep(s, events[0]);
      NextAttributed(s, events[0]);
      RunKeepsStep(Next(s, events[0]), events[1..]);
    }
  }

  function AnswersTo(answers: seq<Answer>, request: nat): seq<Packet>
    decreases |answers|
  {
    if answers == [] then []
    else
      var last := answers[|answers| - 1];
      AnswersTo(answers[..|answers| - 1], request)
      + if last.request == request then [last.packet] else []
  }

  function Packets(readings: seq<Read>): seq<Packet> {
    seq(|readings|, i requires 0 <= i < |readings| => readings[i].packet)
  }

  lemma {:induction false} ReadsAreAnswers(readings: seq<Read>, k: nat)
    ensures AnswersTo(Answers(readings), k) == Packets(ReadsOf(readings, k))
    decreases |readings|
  {
    if readings != [] {
      var init, last := readings[..|readings| - 1], readings[|readings| - 1];
      ReadsAreAnswers(init, k);
      assert Answers(readings)[..|init|] == Answers(init);
      if last.request == k {
        assert Packets(ReadsOf(init, k) + [last]) == Packets(ReadsOf(init, k)) + [last.packet];
      }
    }
  }

  lemma {:induction false} AnswersToOthers(answers: seq<Answer>, more: seq<Answer>, k: nat)
    requires forall a | a in more :: a.request != k
    ensures AnswersTo(answers + more, k) == AnswersTo(answers, k)
    decreases |more|
  {
    if more == [] {
      assert answers + more == answers;
    } else {
      assert (answers + more)[..|answers + more| - 1] == answers + more[..|more| - 1];
      AnswersToOthers(answers, more[..|more| - 1], k);
    }
  }

  lemma {:induction false} AnswersAppend(answers: seq<Answer>, more: seq<Answer>, k: nat)
    ensures AnswersTo(answers + more, k) == AnswersTo(answers, k) + AnswersTo(more, k)
    decreases |more|
  {
    if more == [] {
      assert answers + more == answers;
    } else {
      assert (answers + more)[..|answers + more| - 1] == answers + more[..|more| - 1];
      AnswersAppend(answers, more[..|more| - 1], k);
    }
  }

  /**
   With such a guest, what the clients were sent is, request after request, what was read of
   the reply by the deadline of its client. The relay has read the whole of each reply whose
   request is not the last, also if it has stopped since, and of the last reply it has read
   the start, or the whole if it waits no longer and the guest's socket is still in use.
   */
  lemma EachClientGetsItsReply(host: int, guest: int, events: seq<Event>, k: nat)
    requires GuestBehaves(Start(host, guest), events)
    ensures var t := Run(Start(host, guest), events);
      t.sent == Expected(t.accepted, t.readings, |t.accepted|)
    ensures var t := Run(Start(host, guest), events);
      Packets(ReadsOf(t.readings, k)) <= AnswersTo(AsReceived(t.answers), k)
    ensures var t := Run(Start(host, guest), events);
      k + 1 < |t.accepted| || (t.relay.guest >= 0 && !t.relay.waiting) ==>
        Packets(ReadsOf(t.readings, k)) == AnswersTo(AsReceived(t.answers), k)
  {
    hide *;
    StartIsSound(host, guest);
    RunKeepsStep(Start(host, guest), events);
    var t := Run(Start(host, guest), events);
    SoundIsExpected(t);
    AttributedGives(t, k);
  }

  lemma SoundIsExpected(s: System)
    requires Sound(s)
    ensures s.sent == Expected(s.accepted, s.readings, |s.accepted|)
  {
  }

  lemma AttributedGives(t: System, k: nat)
    requires Attributed(t) && InStep(t)
    ensures Packets(ReadsOf(t.readings, k)) <= AnswersTo(AsReceived(t.answers), k)
    ensures k + 1 < |t.accepted| || (t.relay.guest >= 0 && !t.relay.waiting) ==>
      Packets(ReadsOf(t.readings, k)) == AnswersTo(AsReceived(t.answers), k)
  {
    hide Packets, ReadsOf, AnswersTo;
    ReadsAreAnswers(t.readings, k);
    var rest := AsReceived(t.answers)[|t.readings|..];
    assert AsReceived(t.answers) == Answers(t.readings) + rest;
    AnswersAppend(Answers(t.readings), rest, k);
    if k + 1 < |t.accepted| {
      AnswersToOthers([], rest, k);
      assert [] + rest == rest;
      NoAnswers(k);
    } else if t.relay.guest >= 0 && !t.relay.waiting {
      assert rest == [];
      NoAnswers(k);
    }
  }

  lemma NoAnswers(k: nat)
    ensures AnswersTo([], k) == []
  {
  }

  /** A request that is found at once keeps its reply's packets for ten seconds from its arrival. */
  lemma DeadlineFromArrival(r: State, d: Datagram, arrived: real, now: real)
    requires 0.0 <= now - arrived <= FORWARD_SECONDS && r.guest >= 0
    requires ValidRequest(Received(d.data))
    ensures var q := Request(r, Some(d), now - arrived, false, now);
      && q.state.waiting && q.state.deadline == arrived + FORWARD_SECONDS
      && q.toGuest == [Received(d.data)]
      && q.state.client == d.client
  {
  }

  /** What relay_request drops of what waits in the guest's socket. */
  method Drain(relay: Relay, replies: seq<Answer>) returns (left: seq<Answer>)
    ensures left == if relay.guest < 0 then replies else replies[if |replies| <= DRAIN then |replies| else DRAIN..]
  {
    var n := 0;
    while n < DRAIN && relay.guest >= 0 && n < |replies|
      invariant n <= DRAIN && n <= |replies| && (relay.guest < 0 ==> n == 0)
    {
      n := n + 1;
    }
    left := replies[n..];
  }

  /** One turn of the loop in supervise, as far as it is about the relay. */
  method Turn(relay: Relay, s: System, age: real, sendFails: bool, pollError: bool) returns (t: System)
    requires relay.Current() == s.relay
    modifies relay
    ensures t == Next(s, Poll(age, sendFails, pollError)) && relay.Current() == t.relay
  {
    hide PollGuest, PollHost;
    t := s;
    var polledGuest := if relay.waiting then relay.guest else -1;
    var polledHost := if relay.waiting then -1 else relay.host;
    if polledGuest >= 0 {
      t := TakeReply(relay, s, pollError);
    } else if polledHost >= 0 && s.arriving != [] {
      t := TakeRequest(relay, s, age, sendFails);
    }
  }

  method TakeReply(relay: Relay, s: System, pollError: bool) returns (t: System)
    requires relay.Current() == s.relay && PolledGuest(s.relay) >= 0
    modifies relay
    ensures t == PollGuest(s, pollError) && relay.Current() == t.relay
  {
    t := s;
    if pollError {
      relay.guest := -1;
      relay.waiting := false;
      t := t.(relay := relay.Current(), finished := t.finished + 1);
    } else if s.replies != [] || s.hungUp {
      var got := if s.replies != [] then s.replies[0].packet else [];
      var _, toClient, _ := relay.HandleReply(Some(got), s.hungUp, s.time);
      t := t.(relay := relay.Current(), sent := t.sent + toClient);
      if s.replies != [] {
        t := t.(replies := s.replies[1..]);
        if relay.guest >= 0 && s.accepted != [] {
          t := t.(readings := t.readings + [FirstRead(s)]);
        }
      }
      if !relay.waiting {
        t := t.(finished := t.finished + 1);
      }
    }
  }

  method TakeRequest(relay: Relay, s: System, age: real, sendFails: bool) returns (t: System)
    requires relay.Current() == s.relay && s.arriving != []
    modifies relay
    ensures t == PollHost(s, age, sendFails) && relay.Current() == t.relay
  {
    var left := Drain(relay, s.replies);
    var toGuest, _, _ := relay.HandleRequest(Some(s.arriving[0]), age, sendFails, s.time);
    t := s.(relay := relay.Current(), arriving := s.arriving[1..], replies := left, requests := s.requests + toGuest);
    if relay.waiting {
      t := t.(accepted := s.accepted + [Accepted(relay.client, relay.deadline)]);
    }
  }

  /** What happens next, of which only a turn of the loop is the launcher's. */
  method TakeStep(relay: Relay, s: System, e: Event) returns (t: System)
    requires relay.Current() == s.relay
    modifies relay
    ensures t == Next(s, e) && relay.Current() == t.relay
  {
    match e {
      case Poll(age, sendFails, pollError) => t := Turn(relay, s, age, sendFails, pollError);
      case _ => t := Next(s, e);
    }
  }

  method TakeSteps(relay: Relay, start: System, events: seq<Event>) returns (s: System)
    requires relay.Current() == start.relay
    modifies relay
    ensures s == Run(start, events) && relay.Current() == s.relay
  {
    hide *;
    s := start;
    RunNone(start);
    for i := 0 to |events|
      invariant s == Run(start, events[..i]) && relay.Current() == s.relay
    {
      assert events[..i + 1] == events[..i] + [events[i]];
      RunAppend(start, events[..i], [events[i]]);
      RunOne(s, events[i]);
      s := TakeStep(relay, s, events[i]);
    }
    assert events[..|events|] == events;
  }

  /** The relay of a run of the guest, which is driven by what happens around it. */
  method Supervise(host: int, guest: int, events: seq<Event>) returns (relay: Relay, s: System)
    ensures fresh(relay) && s == Run(Start(host, guest), events) && relay.Current() == s.relay
    ensures s.finished <= |s.accepted| <= s.finished + 1
    ensures relay.waiting ==>
      relay.guest >= 0 && s.accepted != [] && relay.client == s.accepted[|s.accepted| - 1].client
    ensures s.sent == Expected(s.accepted, s.readings, |s.accepted|)
    ensures forall k: nat :: |ReadsOf(s.readings, k)| <= REPLY_PACKETS
  {
    hide Run, Next, Expected, ReadsOf;
    StartIsSound(host, guest);
    RunKeeps(Start(host, guest), events);
    relay := new Relay(host, guest);
    s := TakeSteps(relay, Start(host, guest), events);
  }

  lemma RunNone(s: System)
    ensures Run(s, []) == s
  {
  }

  lemma RunOne(s: System, e: Event)
    ensures Run(s, [e]) == Next(s, e)
  {
    assert [e][1..] == [];
  }
}
