/**
 The server that relays a guest's console to its clients (tools/cmd/invirtio/console.go). A
 client's goroutine takes from its channel at any time, also while output runs, so the methods
 let the receivers act between their steps. What is sent is an array, so that the reuse of the
 caller's buffer is part of the model.
 */
module ConsoleServer {
  import opened Sequences
  import opened Utf8

  const SCROLLBACK := 65536
  const CAPACITY := 256

  /** What is in a queue. */
  function Contents(queue: seq<array<Byte>>): Bytes
    reads queue
  {
    if queue == [] then [] else queue[0][..] + Contents(queue[1..])
  }

  lemma {:induction false} ContentsAppend(queue: seq<array<Byte>>, chunk: array<Byte>)
    ensures Contents(queue + [chunk]) == Contents(queue) + chunk[..]
  {
    if queue == [] {
      assert Contents([chunk][1..]) == [];
    } else {
      assert (queue + [chunk])[1..] == queue[1..] + [chunk];
      ContentsAppend(queue[1..], chunk);
    }
  }

  /** A client's channel, and what its goroutine has taken from it. */
  class Channel {
    var queue: seq<array<Byte>>
    var isOpen: bool
    /** What the goroutine has written to the client. */
    var consumed: Bytes
    /** Where in the guest's output the client starts, and what it has been sent. */
    ghost const start: nat
    ghost var sent: Bytes
    /** Whether output came while the queue was full, for which the client was dropped. */
    ghost var overflowed: bool

    /** What was sent is what was taken and what waits. */
    ghost predicate Valid()
      reads this`queue, this`consumed, this`sent, queue
    {
      |queue| <= CAPACITY && sent == consumed + Contents(queue)
    }

    ghost function End(): nat
      reads this`sent
    {
      start + |sent|
    }

    constructor (ghost start: nat)
      ensures Valid() && queue == [] && isOpen && sent == [] && this.start == start && !overflowed
    {
      queue, isOpen, consumed := [], true, [];
      this.start, this.sent, overflowed := start, [], false;
    }

    /** A send that does not wait. A send on a closed channel would panic. */
    method TrySend(chunk: array<Byte>) returns (done: bool)
      requires isOpen && Valid()
      modifies this`queue, this`sent
      ensures Valid() && done == (|old(queue)| < 256)
      ensures queue == if done then old(queue) + [chunk] else old(queue)
      ensures sent == if done then old(sent) + chunk[..] else old(sent)
    {
      done := |queue| < CAPACITY;
      if done {
        ContentsAppend(queue, chunk);
        queue := queue + [chunk];
        sent := sent + chunk[..];
      }
    }

    /** Closing a closed channel would panic. */
    method Close()
      requires isOpen
      modifies this`isOpen
      ensures !isOpen
    {
      isOpen := false;
    }

    /** One turn of the goroutine's loop. */
    method Receive()
      requires Valid()
      modifies this`queue, this`consumed
      ensures Valid() && old(consumed) <= consumed
      ensures queue == if old(queue) == [] then [] else old(queue)[1..]
    {
      if queue != [] {
        consumed := consumed + queue[0][..];
        queue := queue[1..];
      }
    }
  }

  /** What stays of a longer output is what stays of what stayed and the rest. */
  lemma LastAppend<T>(s: seq<T>, t: seq<T>, n: nat)
    ensures Last(Last(s, n) + t, n) == Last(s + t, n)
  {
  }

  lemma LastIsEnd<T>(s: seq<T>, n: nat)
    ensures Last(s, n) == s[|s| - |Last(s, n)|..]
  {
  }

  lemma SliceGrows(total: Bytes, more: Bytes, start: nat, end: nat)
    requires start <= end <= |total|
    ensures (total + more)[start..end] == total[start..end]
    ensures total[start..] + more == (total + more)[start..]
  {
  }

  class Server {
    var recent: Bytes
    /** The channels of the attached clients. */
    var clients: set<Channel>
    /** Every channel that was made, of which a goroutine may still take. */
    var channels: set<Channel>
    /** The guest's whole output. */
    ghost var total: Bytes
    /** The arrays that were sent. */
    ghost var chunks: set<array<Byte>>

    /** What was sent to a channel is one part of the output. */
    ghost predicate IsSlice(c: Channel)
      reads this`clients, this`total, c`isOpen, c`sent
    {
      && (c.isOpen <==> c in clients)
      && c.End() <= |total|
      && c.sent == total[c.start..c.End()]
    }

    ghost predicate Slices()
      reads this`clients, this`channels, this`total, channels`isOpen, channels`sent
    {
      clients <= channels && forall c | c in channels :: IsSlice(c)
    }

    /** What waits in the queues is in arrays that nobody else has. */
    ghost predicate Queues()
      reads this`channels, this`chunks, channels`queue, channels`consumed, channels`sent, chunks
    {
      forall c | c in channels :: (forall chunk | chunk in c.queue :: chunk in chunks) && c.Valid()
    }

    /**
     The guarantee. A channel is open exactly if its client is attached. What the client was
     sent, which is what it took and what waits for it, is one part of the output without a
     gap, up to the end of the output while the client is attached.
     */
    ghost predicate Valid()
      reads this, channels, chunks
    {
      && Slices() && Queues()
      && recent == Last(total, SCROLLBACK)
      && (forall c | c in clients :: c.End() == |total|)
    }

    constructor ()
      ensures Valid() && fresh(channels) && fresh(chunks) && total == [] && channels == {}
    {
      recent, clients, channels, total, chunks := [], {}, {}, [], {};
    }

    /** The receivers take what they get to before the next step. */
    method Receivers()
      requires Slices() && Queues()
      modifies channels`queue, channels`consumed
      ensures Slices() && Queues() && Consumed()
      ensures forall c | c in channels :: |c.queue| <= |old(c.queue)|
    {
      hide Contents, Channel.Valid, IsSlice;
      var turns :| turns >= 0;
      for i := 0 to turns
        invariant Slices() && Queues() && Consumed()
        invariant forall c | c in channels :: |c.queue| <= |old(c.queue)|
      {
        if channels != {} {
          var c :| c in channels;
          ReceiveOne(c);
        }
      }
    }

    /** What clients have taken stays, and more follows it. */
    twostate predicate Consumed()
      reads this`channels, channels`consumed
    {
      forall c | c in old(channels) && c in channels :: old(c.consumed) <= c.consumed
    }

    method ReceiveOne(c: Channel)
      requires Slices() && Queues() && c in channels
      modifies c`queue, c`consumed
      ensures Slices() && Queues() && |c.queue| <= |old(c.queue)| && old(c.consumed) <= c.consumed
    {
      hide Contents, Channel.Valid, IsSlice;
      c.Receive();
    }

    /** output, of the first n bytes of a buffer that the caller uses again. */
    method Output(buf: array<Byte>, n: nat)
      requires Valid() && n <= buf.Length && buf !in chunks
      modifies this`recent, this`clients, this`total, this`chunks
      modifies channels`queue, channels`consumed, channels`sent, channels`isOpen, channels`overflowed
      ensures Valid() && total == old(total) + buf[..n]
      ensures fresh(chunks - old(chunks)) && clients <= old(clients)
      ensures forall c | c in old(clients) && |old(c.queue)| < CAPACITY :: c in clients
      ensures forall c | c in channels - clients :: c.sent == old(c.sent)
      ensures Consumed() && forall c | c in channels :: old(c.sent) <= c.sent
      ensures forall c | c in channels :: c.overflowed <==> old(c.overflowed) || c in old(clients) - clients
    {
      hide Contents, Channel.Valid, IsSlice, Last;
      Keep(buf[..n]);
      Send(buf, n);
      Overflow(old(clients) - clients);
    }

    method Send(buf: array<Byte>, n: nat)
      requires Slices() && Queues() && forall c | c in clients :: c.End() == |total|
      requires n <= buf.Length && buf !in chunks
      modifies this`clients, this`total, this`chunks
      modifies channels`queue, channels`consumed, channels`sent, channels`isOpen
      ensures Slices() && Queues() && forall c | c in clients :: c.End() == |total|
      ensures total == old(total) + buf[..n]
      ensures fresh(chunks - old(chunks)) && clients <= old(clients)
      ensures forall c | c in old(clients) && |old(c.queue)| < CAPACITY :: c in clients
      ensures forall c | c in channels - clients :: c.sent == old(c.sent)
      ensures Consumed() && forall c | c in channels :: old(c.sent) <= c.sent
    {
      hide Contents, Channel.Valid, IsSlice, Queues;
      Grow(buf[..n]);
      OfferAll(buf, n, old(total));
      SentGrew(buf[..n]);
    }

    lemma QueuesFit()
      requires Queues()
      ensures forall c | c in channels :: |c.queue| <= CAPACITY
    {
      hide Contents;
    }

    ghost method Overflow(dropped: set<Channel>)
      requires Valid() && dropped <= channels
      modifies channels`overflowed
      ensures Valid()
      ensures forall c | c in channels :: c.overflowed <==> old(c.overflowed) || c in dropped
    {
      hide Contents, Channel.Valid, IsSlice, Last;
      forall c | c in dropped {
        c.overflowed := true;
      }
    }

    /** A client that is up to date has what it had, and what came. */
    twostate lemma SentGrew(more: Bytes)
      requires old(Slices()) && Slices() && channels == old(channels) && total == old(total) + more
      requires forall c | c in clients :: c.End() == |total|
      requires forall c | c in channels - clients :: c.sent == old(c.sent)
      ensures forall c | c in channels :: old(c.sent) <= c.sent
    {
      forall c | c in clients
        ensures old(c.sent) <= c.sent
      {
        assert old(IsSlice(c)) && IsSlice(c);
        assert c.sent[..|old(c.sent)|] == total[c.start..old(c.End())] == old(total)[c.start..old(c.End())];
      }
    }

    /** The loop in output. */
    method OfferAll(buf: array<Byte>, n: nat, ghost before: Bytes)
      requires Slices() && Queues() && forall c | c in clients :: c.End() == |before|
      requires n <= buf.Length && buf !in chunks && total == before + buf[..n]
      modifies this`clients, this`chunks, channels`queue, channels`consumed, channels`sent, channels`isOpen
      ensures Slices() && Queues() && forall c | c in clients :: c.End() == |total|
      ensures fresh(chunks - old(chunks)) && clients <= old(clients)
      ensures forall c | c in old(clients) && |old(c.queue)| < CAPACITY :: c in clients
      ensures forall c | c in channels - clients :: c.sent == old(c.sent)
      ensures Consumed()
    {
      hide Contents, Channel.Valid, IsSlice, Queues;
      var left := clients;
      while left != {}
        invariant left <= clients <= old(clients)
        invariant Slices() && Queues()
        invariant forall c | c in clients - left :: c.End() == |total|
        invariant forall c | c in left :: c.sent == old(c.sent) && |c.queue| <= |old(c.queue)|
        invariant forall c | c in channels - clients :: c.sent == old(c.sent)
        invariant Consumed()
        invariant forall c | c in old(clients) && |old(c.queue)| < CAPACITY :: c in clients
        invariant fresh(chunks - old(chunks)) && buf !in chunks
      {
        var c :| c in left;
        left := left - {c};
        Turn(c, buf, n, before);
      }
    }

    /** One turn of that loop, for some client, with what the receivers do before it. */
    method Turn(c: Channel, buf: array<Byte>, n: nat, ghost before: Bytes)
      requires Slices() && Queues() && c in clients && c.End() == |before|
      requires n <= buf.Length && buf !in chunks && total == before + buf[..n]
      modifies this`clients, this`chunks, channels`queue, channels`consumed, channels`sent, channels`isOpen
      ensures Slices() && Queues() && fresh(chunks - old(chunks)) && buf !in chunks
      ensures clients == old(clients) || clients == old(clients) - {c}
      ensures |old(c.queue)| < CAPACITY ==> c in clients
      ensures if c in clients then c.End() == |total| else c.sent == old(c.sent)
      ensures Consumed()
      ensures forall d | d in channels && d != c :: d.sent == old(d.sent) && |d.queue| <= |old(d.queue)|
    {
      hide Contents, Channel.Valid, IsSlice;
      Receivers();
      SentIsSlice(c, before, buf[..n]);
      Offer(c, buf, n, before);
    }

    lemma SentIsSlice(c: Channel, before: Bytes, more: Bytes)
      requires Slices() && c in channels && total == before + more && c.End() == |before|
      ensures c.sent == before[c.start..]
    {
      assert IsSlice(c);
    }

    /** The scrollback. */
    method Keep(p: Bytes)
      requires recent == Last(total, SCROLLBACK)
      modifies this`recent
      ensures recent == Last(total + p, 65536)
    {
      LastAppend(total, p, SCROLLBACK);
      recent := recent + p;
      if |recent| > SCROLLBACK {
        recent := recent[|recent| - SCROLLBACK..];
      }
    }

    ghost method Grow(more: Bytes)
      requires Slices()
      modifies this`total
      ensures Slices() && total == old(total) + more
    {
      forall c | c in channels {
        SliceGrows(total, more, c.start, c.End());
      }
      total := total + more;
    }

    /** The copy that is sent, which nobody else has. */
    method Copy(buf: array<Byte>, n: nat) returns (copy: array<Byte>)
      requires Queues() && n <= buf.Length
      modifies this`chunks
      ensures Queues() && fresh(copy) && chunks == old(chunks) + {copy} && copy[..] == buf[..n]
    {
      hide Contents, Channel.Valid;
      copy := new Byte[n](i requires 0 <= i < n reads buf => buf[i]);
      chunks := chunks + {copy};
    }

    method Push(c: Channel, chunk: array<Byte>) returns (done: bool)
      requires Queues() && c in channels && chunk in chunks && c.isOpen
      modifies c`queue, c`sent
      ensures Queues() && done == (|old(c.queue)| < CAPACITY)
      ensures c.sent == if done then old(c.sent) + chunk[..] else old(c.sent)
    {
      hide Contents, Channel.Valid;
      done := c.TrySend(chunk);
    }

    /** Takes a client out and closes its channel, and its connection. */
    method Drop(c: Channel)
      requires Slices() && Queues() && c in clients
      modifies this`clients, c`isOpen
      ensures Slices() && Queues() && clients == old(clients) - {c}
    {
      hide Contents, Channel.Valid;
      clients := clients - {c};
      c.Close();
    }

    /** The body of the loop in output. */
    method Offer(c: Channel, buf: array<Byte>, n: nat, ghost before: Bytes)
      requires c in clients && Slices() && Queues()
      requires n <= buf.Length && buf !in chunks
      requires total == before + buf[..n] && c.start <= |before| && c.sent == before[c.start..]
      modifies this`clients, this`chunks, c`queue, c`sent, c`isOpen
      ensures clients == if |old(c.queue)| < CAPACITY then old(clients) else old(clients) - {c}
      ensures if c in clients then c.End() == |total| else c.sent == old(c.sent)
      ensures Slices() && Queues()
      ensures fresh(chunks - old(chunks)) && buf !in chunks
    {
      SliceGrows(before, buf[..n], c.start, |before|);
      var copy := Copy(buf, n);
      var done := Push(c, copy);
      if !done {
        Drop(c);
      }
    }

    /** attach, once the client's header is read: the client starts with the scrollback. */
    method Attach() returns (c: Channel)
      requires Valid()
      modifies this`clients, this`channels, this`chunks
      ensures Valid() && fresh(c) && fresh(chunks - old(chunks))
      ensures channels == old(channels) + {c} && clients == old(clients) + {c}
      ensures c !in old(channels) && c.sent == recent && c.start == |total| - |recent| && !c.overflowed
    {
      c := new Channel(|total| - |recent|);
      var buf := new Byte[|recent|](i requires 0 <= i < |recent| reads this => recent[i]);
      assert buf[..] == recent;
      SendScrollback(c, buf);
    }

    method SendScrollback(c: Channel, chunk: array<Byte>)
      requires Valid() && c !in channels && c.Valid() && c.queue == [] && c.isOpen && c.sent == []
      requires chunk[..] == recent && c.start == |total| - |recent|
      modifies this`clients, this`channels, this`chunks, c`queue, c`sent
      ensures Valid() && c.sent == recent && chunks == old(chunks) + {chunk}
      ensures channels == old(channels) + {c} && clients == old(clients) + {c}
    {
      LastIsEnd(total, SCROLLBACK);
      hide Contents, Channel.Valid, Last, IsSlice;
      Enqueue(c, chunk);
      Join(c);
    }

    /** The send to a channel that nobody else has yet, which has room. */
    method Enqueue(c: Channel, chunk: array<Byte>)
      requires Queues() && c !in channels && c.Valid() && c.queue == [] && c.isOpen && c.sent == []
      modifies this`chunks, c`queue, c`sent
      ensures Queues() && chunks == old(chunks) + {chunk}
      ensures c.Valid() && c.queue == [chunk] && c.sent == chunk[..]
    {
      hide Contents, Channel.Valid;
      var done := c.TrySend(chunk);
      chunks := chunks + {chunk};
    }

    /** A client's channel that is up to date is added. */
    method Join(c: Channel)
      requires Slices() && Queues() && c !in channels && c.isOpen && c.End() == |total| && c.sent == total[c.start..]
      requires c.Valid() && forall chunk | chunk in c.queue :: chunk in chunks
      modifies this`clients, this`channels
      ensures Slices() && Queues() && channels == old(channels) + {c} && clients == old(clients) + {c}
    {
      hide Contents, Channel.Valid;
      channels := channels + {c};
      clients := clients + {c};
    }

    /** The end of attach, when the client's input has ended. */
    method Detach(c: Channel)
      requires Valid() && c in channels
      modifies this`clients, c`isOpen
      ensures Valid() && clients == old(clients) - {c}
    {
      if c in clients {
        Drop(c);
      }
    }

    /** close, while the receivers go on. */
    method Close()
      requires Valid()
      modifies this`clients, channels`queue, channels`consumed, channels`isOpen
      ensures Valid() && clients == {} && Consumed()
    {
      hide Contents, Channel.Valid, IsSlice, Last;
      var left := clients;
      while left != {}
        invariant left == clients && Valid() && Consumed()
      {
        Receivers();
        var c :| c in left;
        left := left - {c};
        Drop(c);
      }
    }
  }

  /** What happens in a run. A client is named by its place among those that attached. */
  datatype Event = Read(data: Bytes) | Attached | Detached(client: nat) | Took | Closed

  /** Fills the start of the buffer, as a read does. */
  method ReadInto(buf: array<Byte>, data: Bytes)
    requires |data| <= buf.Length
    modifies buf
    ensures buf[..|data|] == data
  {
    for i := 0 to |data|
      invariant buf[..i] == data[..i]
    {
      buf[i] := data[i];
    }
  }

  function Outputs(e: Event): Bytes {
    match e
    case Read(data) => data
    case _ => []
  }

  function OutputOf(events: seq<Event>): Bytes {
    if events == [] then []
    else OutputOf(events[..|events| - 1]) + Outputs(events[|events| - 1])
  }

  /** What the guest had put out when each client attached. */
  function Attachments(events: seq<Event>): seq<Bytes> {
    if events == [] then []
    else
      var before := events[..|events| - 1];
      Attachments(before) + if events[|events| - 1] == Attached then [OutputOf(before)] else []
  }

  /** What takes client k out, if it is attached. */
  predicate Takes(e: Event, k: nat) {
    e == Closed || e == Detached(k)
  }

  /** The client has attached, and then has left or the server was closed. */
  predicate HasLeft(events: seq<Event>, k: nat): (r: bool)
    ensures r ==> k < |Attachments(events)|
  {
    events != [] &&
    var before := events[..|events| - 1];
    HasLeft(before, k) || (k < |Attachments(before)| && Takes(events[|events| - 1], k))
  }

  lemma OneMore(events: seq<Event>, e: Event)
    ensures OutputOf(events + [e]) == OutputOf(events) + Outputs(e)
    ensures Attachments(events + [e])
      == Attachments(events) + if e == Attached then [OutputOf(events)] else []
    ensures forall k: nat :: HasLeft(events + [e], k) <==>
      HasLeft(events, k) || (k < |Attachments(events)| && Takes(e, k))
  {
    assert (events + [e])[..|events|] == events;
  }

  /** Each client starts with the scrollback of what the guest had put out when it attached. */
  ghost predicate StartAt(made: seq<Channel>, outputs: seq<Bytes>) {
    |made| == |outputs|
    && forall k | 0 <= k < |made| :: made[k].start == |outputs[k]| - |Last(outputs[k], 65536)|
  }

  lemma StartMore(made: seq<Channel>, made': seq<Channel>, outputs: seq<Bytes>, output: Bytes)
    requires StartAt(made, outputs) && |made'| == |made| + 1 && made'[..|made|] == made
    requires made'[|made|].start == |output| - |Last(output, SCROLLBACK)|
    ensures StartAt(made', outputs + [output])
  {
    hide Last;
    forall k | 0 <= k < |made|
      ensures made'[k] == made[k] && (outputs + [output])[k] == outputs[k]
    {
      assert made'[..|made|][k] == made[k];
    }
  }

  lemma AsMany(made: seq<Channel>, outputs: seq<Bytes>)
    requires StartAt(made, outputs)
    ensures |made| == |outputs|
  {
  }

  /** The channels in the order in which their clients attached. */
  ghost predicate AreMade(server: Server, made: seq<Channel>)
    reads server`channels
  {
    && (forall c | c in server.channels :: c in made)
    && (forall c | c in made :: c in server.channels)
    && (forall j, k | 0 <= j < k < |made| :: made[j] != made[k])
  }

  /**
   No channel is lost and no client comes back. What a client was sent, and what it took, stays
   as it is, and more can follow it.
   */
  twostate predicate Grew(server: Server)
    reads server, server.channels
  {
    && old(server.channels) <= server.channels
    && (forall c | c in old(server.channels) :: old(c.consumed) <= c.consumed && old(c.sent) <= c.sent)
    && (forall c | c in old(server.channels) && c in server.clients :: c in old(server.clients))
  }

  /** A client stays unless it leaves, the server is closed, or output comes while its queue is full. */
  twostate predicate Stayed(server: Server, made: seq<Channel>, e: Event)
    reads server`clients, made`queue, made`overflowed
  {
    forall k | 0 <= k < |made| :: var c := made[k];
      && (c in server.clients ==> c in old(server.clients) && !Takes(e, k))
      && (c in old(server.clients) && c !in server.clients ==> Takes(e, k) || c.overflowed)
      && (old(c.overflowed) ==> c.overflowed)
      && (c.overflowed && !old(c.overflowed) ==>
           e.Read? && c !in server.clients && |old(c.queue)| == 256)
  }

  /** Exactly the clients that did not leave, and whose queues did not overflow, are attached. */
  ghost predicate Present(server: Server, made: seq<Channel>, events: seq<Event>)
    reads server`clients, made`overflowed
  {
    forall k | 0 <= k < |made| ::
      made[k] in server.clients <==> !made[k].overflowed && !HasLeft(events, k)
  }

  method ReadData(server: Server, buf: array<Byte>, ghost made: seq<Channel>, e: Event)
    requires server.Valid() && buf !in server.chunks && e.Read? && |e.data| <= buf.Length
    requires AreMade(server, made)
    modifies server, server.channels, buf
    ensures server.Valid() && server.total == old(server.total) + e.data
    ensures server.channels == old(server.channels)
    ensures buf !in server.chunks && fresh(server.chunks - old(server.chunks))
    ensures Grew(server) && Stayed(server, made, e)
  {
    server.QueuesFit();
    hide Server.Slices, Server.Queues, Last;
    ReadInto(buf, e.data);
    server.Output(buf, |e.data|);
  }

  method Act(server: Server, buf: array<Byte>, made: seq<Channel>, e: Event) returns (made': seq<Channel>)
    requires server.Valid() && buf !in server.chunks && (e.Read? ==> |e.data| <= buf.Length)
    requires AreMade(server, made)
    modifies server, server.channels, buf
    ensures server.Valid() && server.total == old(server.total) + Outputs(e)
    ensures buf !in server.chunks && AreMade(server, made')
    ensures fresh(server.channels - old(server.channels)) && fresh(server.chunks - old(server.chunks))
    ensures Grew(server) && Stayed(server, made, e)
    ensures if e != Attached then made' == made
      else
        |made'| == |made| + 1 && made'[..|made|] == made && made'[|made|] in server.clients
        && !made'[|made|].overflowed
        && made'[|made|].start == |server.total| - |Last(server.total, SCROLLBACK)|
  {
    hide Server.Slices, Server.Queues, Last;
    made' := made;
    match e {
      case Read(data) =>
        ReadData(server, buf, made, e);
      case Attached =>
        var c := server.Attach();
        made' := made + [c];
      case Detached(client) =>
        if client < |made| {
          server.Detach(made[client]);
        }
      case Took =>
        server.Receivers();
      case Closed =>
        server.Close();
    }
  }

  /**
   What the server knows of the events so far: the output, a channel for each client that
   attached, where each starts, and who is still attached.
   */
  ghost predicate Follows(server: Server, made: seq<Channel>, events: seq<Event>)
    reads server`total, server`channels, server`clients, made`overflowed
  {
    && server.total == OutputOf(events)
    && AreMade(server, made)
    && StartAt(made, Attachments(events))
    && Present(server, made, events)
  }

  method ActAfter(server: Server, buf: array<Byte>, made: seq<Channel>, ghost events: seq<Event>, e: Event)
    returns (made': seq<Channel>)
    requires server.Valid() && buf !in server.chunks && (e.Read? ==> |e.data| <= buf.Length)
    requires Follows(server, made, events)
    modifies server, server.channels, buf
    ensures server.Valid() && Follows(server, made', events + [e])
    ensures buf !in server.chunks
    ensures fresh(server.channels - old(server.channels)) && fresh(server.chunks - old(server.chunks))
  {
    OneMore(events, e);
    hide Server.Valid, HasLeft, Attachments, OutputOf, Last, Grew, StartAt;
    AsMany(made, Attachments(events));
    made' := Act(server, buf, made, e);
    assert forall k | 0 <= k < |made| :: made'[k] == made[k];
    if e == Attached {
      assert server.total == OutputOf(events);
      StartMore(made, made', Attachments(events), server.total);
    } else {
      assert Attachments(events) + [] == Attachments(events);
    }
  }

  lemma NothingYet(server: Server)
    requires server.total == [] && server.channels == {}
    ensures Follows(server, [], [])
  {
  }

  /**
   A run, with one buffer for every read. Whatever the clients do, each client that attached
   has a channel, which starts with the scrollback of the moment, and the guarantee holds of
   the whole output at every step, and so at the end. A client is attached unless it left, the
   server was closed, or output came while its queue was full.
   */
  method Run(events: seq<Event>, size: nat) returns (server: Server, made: seq<Channel>)
    requires forall e | e in events && e.Read? :: |e.data| <= size
    ensures fresh(server) && server.Valid() && Follows(server, made, events)
  {
    hide *;
    server := new Server();
    made := [];
    var buf := new Byte[size];
    NothingYet(server);
    assert events[..0] == [];
    for i := 0 to |events|
      invariant server.Valid() && Follows(server, made, events[..i])
      invariant fresh(server) && fresh(server.channels) && fresh(server.chunks) && fresh(buf)
      invariant buf !in server.chunks
    {
      assert events[..i + 1] == events[..i] + [events[i]];
      made := ActAfter(server, buf, made, events[..i], events[i]);
    }
    assert events[..|events|] == events;
  }
}
